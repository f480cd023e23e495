/**
 Gas fees (src/actions.cpp): exactness of the words they are computed in, the inclusion price
 promised to miners, and the miner's cut.
 */
module LedgerFees {
  import opened Words
  import opened Dust
  import opened Sums
  import opened Ledger
  import opened LedgerEgress
  import opened LedgerSettlement
  import opened LedgerInvariant

  lemma ProductAtMost(a: nat, b: nat, x: nat, y: nat)
    requires a <= x && b <= y
    ensures a * b <= x * y
  {
    assert a * b <= a * y by {
      assert a * (y - b) >= 0;
    }
    assert a * y <= x * y by {
      assert (x - a) * y >= 0;
    }
  }

  /**
   The most a transaction can cost is computed in one 256-bit word; for every transaction that
   passes validation it is the true product, because validation compares the true product
   with what was lent.
   */
  lemma CostExact(evm: map<Address, Word256>, env: Env, tx: Tx, out: EvmResult)
    requires EvmAssumption(evm, env, tx, out) && out.valid && FromReserved(tx)
    ensures Cost(tx) == tx.gasLimit * tx.maxFee + tx.value
  {
  }

  /** The fee per gas above the base fee is a true difference once validation has passed. */
  lemma InclusionPriceExact(evm: map<Address, Word256>, env: Env, tx: Tx, out: EvmResult)
    requires EvmAssumption(evm, env, tx, out) && out.valid && env.version >= 1
    ensures InclusionPrice(tx, env.gasPrice) == Min(tx.maxPriorityFee, tx.maxFee - env.gasPrice)
  {
  }

  /** The price per gas of which the miner gets a part. */
  function SharedPrice(env: Env, tx: Tx): int {
    if env.version >= 1 then Min(tx.maxPriorityFee, tx.maxFee - env.gasPrice) else tx.maxFee
  }

  /** The fee of which the miner gets a part. */
  function SharedFee(env: Env, tx: Tx, gasUsed: nat): int {
    gasUsed * SharedPrice(env, tx)
  }

  lemma SharedFeeFits(evm: map<Address, Word256>, env: Env, tx: Tx, out: EvmResult)
    requires EvmAssumption(evm, env, tx, out) && out.valid
    ensures 0 <= SharedFee(env, tx, out.gasUsed) < U256
  {
    var price: nat := SharedPrice(env, tx);
    assert price <= tx.maxFee;
    ProductAtMost(out.gasUsed, price, tx.gasLimit, tx.maxFee);
  }

  /** A cut of at most nine tenths leaves at least a tenth. */
  lemma CutShare(fee: nat, cut: nat)
    requires cut <= NINETY_PERCENT
    ensures 0 <= fee * cut / HUNDRED_PERCENT <= fee
    ensures 10 * (fee - fee * cut / HUNDRED_PERCENT) >= fee
  {
    ProductAtMost(fee, cut, fee, NINETY_PERCENT);
  }

  /** The miner's part of a fee. */
  function Share(env: Env, fee: int): int {
    if env.version >= 1 then fee else fee * env.minerCut / HUNDRED_PERCENT
  }

  lemma ShareOf(env: Env, fee: nat)
    requires env.minerCut <= NINETY_PERCENT
    ensures 0 <= Share(env, fee) <= fee
    ensures env.version == 0 ==> 10 * (fee - Share(env, fee)) >= fee
  {
    CutShare(fee, env.minerCut);
  }

  lemma ShareExact(env: Env, fee: nat)
    requires env.minerCut <= NINETY_PERCENT && fee < U256
    ensures MinerShare(env, fee) == if fee == U256 - 1 then Abort else Commit(Share(env, fee))
  {
    hide Wrap256;
    ShareOf(env, fee);
    WrapSmall(Share(env, fee));
  }

  /** So is the miner's part: no product is cut off in a transaction that passes validation. */
  lemma PortionExact(evm: map<Address, Word256>, env: Env, tx: Tx, out: EvmResult)
    requires EvmAssumption(evm, env, tx, out) && out.valid && env.minerCut <= NINETY_PERCENT
    ensures 0 <= SharedFee(env, tx, out.gasUsed) < U256
    ensures MinerPortion(env, tx, out.gasUsed).Commit? <==> SharedFee(env, tx, out.gasUsed) != U256 - 1
    ensures MinerPortion(env, tx, out.gasUsed).Commit? ==>
              MinerPortion(env, tx, out.gasUsed).value == Share(env, SharedFee(env, tx, out.gasUsed))
  {
    hide Wrap256, MinerShare, Share, SharedPrice, MinerPrice;
    SharedFeeFits(evm, env, tx, out);
    assert MinerPrice(env, tx) == SharedPrice(env, tx) by {
      PricesAgree(evm, env, tx, out);
    }
    WrapSmall(SharedFee(env, tx, out.gasUsed));
    ShareExact(env, SharedFee(env, tx, out.gasUsed));
  }

  lemma PricesAgree(evm: map<Address, Word256>, env: Env, tx: Tx, out: EvmResult)
    requires EvmAssumption(evm, env, tx, out) && out.valid
    ensures MinerPrice(env, tx) == SharedPrice(env, tx)
  {
    if env.version >= 1 {
      InclusionPriceExact(evm, env, tx, out);
    }
  }

  lemma WrapSmall(x: int)
    requires 0 <= x < U256
    ensures Wrap256(x) == x
  {
  }

  /** What a committed transaction does to the rows of the miner and of the contract. */
  lemma MinerPaid(p: Params, env: Env, chain: Chain, rules: Rules, miner: Name, tx: Tx, minPrice: Option<nat>,
                  out: EvmResult, s: Ledger, part: int)
    requires Inv(p, s) && EvmAssumption(s.evm, env, tx, out) && env.minerCut <= NINETY_PERCENT
    requires MinerOf(p, miner) == Some(miner) && part == Share(env, SharedFee(env, tx, out.gasUsed))
    requires ProcessTx(p, env, chain, rules, miner, tx, minPrice, out, s).Commit?
    ensures var s' := ProcessTx(p, env, chain, rules, miner, tx, minPrice, out, s).value;
            && out.valid && miner in s.open && miner != p.self && s'.open.Keys == s.open.Keys
            && Value(p.m, s'.open[miner])
               == Value(p.m, s.open[miner]) + part + HeldBy(out.reserved, miner) + CarriedTo(out.messages, miner) - LentBy(tx, miner)
            && Value(p.m, s'.open[p.self])
               == Value(p.m, s.open[p.self]) - part + HeldBy(out.reserved, p.self) + MessageGain(p, out.messages, p.self)
                  - LentBy(tx, p.self)
  {
    hide Value, FromValue, Plus, Minus, Promise, Capacity;
    ProcessTxCorrect(p, env, chain, rules, miner, tx, minPrice, out, s);
    assert out.valid && MinerPortion(env, tx, out.gasUsed).Commit?;
    assert PortionPaid(env, Some(miner), tx, out.gasUsed) == part by {
      PortionExact(s.evm, env, tx, out);
    }
  }

  /**
   The inclusion price: a committed transaction at versions 1 and 2 with a miner of its own
   credits that miner with the gas used times the fee above the base fee, which is at least
   the price the miner asked for.  The subtraction that finds the price may wrap around, but
   then validation rejects the transaction.
   */
  lemma InclusionPriceHonoured(p: Params, env: Env, chain: Chain, rules: Rules, miner: Name, tx: Tx, minPrice: nat,
                               out: EvmResult, s: Ledger)
    requires Inv(p, s) && EvmAssumption(s.evm, env, tx, out) && env.version >= 1 && env.minerCut <= NINETY_PERCENT
    requires MinerOf(p, miner) == Some(miner)
    requires ProcessTx(p, env, chain, rules, miner, tx, Some(minPrice), out, s).Commit?
    ensures var s' := ProcessTx(p, env, chain, rules, miner, tx, Some(minPrice), out, s).value;
            var part := SharedFee(env, tx, out.gasUsed);
            && miner in s.open && miner in s'.open
            && Value(p.m, s'.open[miner])
               == Value(p.m, s.open[miner]) + part + HeldBy(out.reserved, miner) + CarriedTo(out.messages, miner) - LentBy(tx, miner)
            && part >= out.gasUsed * minPrice
  {
    hide Value, FromValue, Plus, Minus, Promise, Capacity;
    MinerPaid(p, env, chain, rules, miner, tx, Some(minPrice), out, s, SharedFee(env, tx, out.gasUsed));
    PriceChecked(p, env, chain, rules, miner, tx, minPrice, out, s);
    FeeCovers(s.evm, env, tx, out, minPrice);
  }

  lemma PriceChecked(p: Params, env: Env, chain: Chain, rules: Rules, miner: Name, tx: Tx, minPrice: nat, out: EvmResult, s: Ledger)
    requires env.version >= 1 && ProcessTx(p, env, chain, rules, miner, tx, Some(minPrice), out, s).Commit?
    ensures InclusionPrice(tx, env.gasPrice) >= minPrice
  {
  }

  lemma FeeCovers(evm: map<Address, Word256>, env: Env, tx: Tx, out: EvmResult, minPrice: nat)
    requires EvmAssumption(evm, env, tx, out) && out.valid && env.version >= 1 && InclusionPrice(tx, env.gasPrice) >= minPrice
    ensures out.gasUsed * minPrice <= SharedFee(env, tx, out.gasUsed)
  {
    InclusionPriceExact(evm, env, tx, out);
    ProductAtMost(out.gasUsed, minPrice, out.gasUsed, SharedPrice(env, tx));
  }

  /** The EVM pays gas fees to the contract's reserved address. */
  predicate FeeCredited(p: Params, env: Env, tx: Tx, out: EvmResult) {
    SharedFee(env, tx, out.gasUsed) <= HeldBy(out.reserved, p.self)
  }

  /**
   Before version 1 the miner's part is paid out of the fee that the contract's reserved
   address received, and at least a tenth of the fee is left in the contract's row: that row
   gains what its address received less the miner's part, apart from what bridge messages and
   the transaction's own sender take from it.
   */
  lemma ContractKeepsTenth(p: Params, env: Env, chain: Chain, rules: Rules, miner: Name, tx: Tx, out: EvmResult, s: Ledger)
    requires Inv(p, s) && EvmAssumption(s.evm, env, tx, out) && env.version == 0 && env.minerCut <= NINETY_PERCENT
    requires MinerOf(p, miner) == Some(miner) && FeeCredited(p, env, tx, out)
    requires ProcessTx(p, env, chain, rules, miner, tx, None, out, s).Commit?
    ensures var s' := ProcessTx(p, env, chain, rules, miner, tx, None, out, s).value;
            var fee := out.gasUsed * tx.maxFee;
            var part := fee * env.minerCut / HUNDRED_PERCENT;
            && 10 * (HeldBy(out.reserved, p.self) - part) >= fee
            && miner in s.open && s'.open.Keys == s.open.Keys
            && Value(p.m, s'.open[miner])
               == Value(p.m, s.open[miner]) + part + HeldBy(out.reserved, miner) + CarriedTo(out.messages, miner) - LentBy(tx, miner)
            && var kept := Value(p.m, s'.open[p.self]) - Value(p.m, s.open[p.self]) - MessageGain(p, out.messages, p.self) + LentBy(tx, p.self);
            kept == HeldBy(out.reserved, p.self) - part && 10 * kept >= fee
  {
    hide Value, FromValue, Plus, Minus, Promise, Capacity;
    MinerPaid(p, env, chain, rules, miner, tx, None, out, s, Share(env, SharedFee(env, tx, out.gasUsed)));
    SharedFeeFits(s.evm, env, tx, out);
    ShareOf(env, SharedFee(env, tx, out.gasUsed));
  }

  // ----- The cut and the egress loop -----

  lemma {:induction false} HeldByAbsent(rs: seq<ReservedObject>, n: Name)
    requires forall i :: 0 <= i < |rs| ==> rs[i].name != n
    ensures HeldBy(rs, n) == 0
  {
    if rs != [] {
      HeldByAbsent(rs[..|rs| - 1], n);
    }
  }

  /** With one object per address the cut is taken at most once: the loop's own check never fails. */
  lemma CutTakenOnce(p: Params, chain: Chain, portion: Option<nat>, open: map<Name, Balance>, outbox: seq<Inline>,
                     rs: seq<ReservedObject>, k: nat)
    requires RowsValid(p.m, open) && p.self in open
    requires Distinct(rs) && k < |rs| && rs[k].name == p.self && Held(rs[..k]) < Capacity(p.m)
    requires EgressAll(p, chain, portion, Egress(open, outbox, 0, false, false), rs[..k]).Commit?
    ensures !EgressAll(p, chain, portion, Egress(open, outbox, 0, false, false), rs[..k]).value.deducted
  {
    hide Value, FromValue, Plus, Minus, Promise, Capacity;
    EgressCorrect(p, chain, portion, open, outbox, rs[..k]);
    HeldByAbsent(rs[..k], p.self);
  }

  /** The loop state with x taken from the contract's row, if that row was paid. */
  function WithCut(p: Params, rs: seq<ReservedObject>, x: nat, e: Egress): Outcome<Egress> {
    if HeldBy(rs, p.self) == 0 || p.self !in e.open then Commit(e)
    else
      var b :- Minus(p.m, e.open[p.self], x);
      Commit(e.(open := e.open[p.self := b], deducted := true))
  }

  /**
   Taking the cut never makes a transaction fail that would settle without it, provided the
   EVM credited the contract with at least the miner's part: the loop with the cut ends in the
   state of the loop without it, less the cut.
   */
  lemma {:induction false} CutNeverAborts(p: Params, chain: Chain, x: nat, open: map<Name, Balance>, outbox: seq<Inline>,
                                          rs: seq<ReservedObject>)
    requires RowsValid(p.m, open) && p.self in open && Held(rs) < Capacity(p.m) && Distinct(rs)
    requires HeldBy(rs, p.self) == 0 || x <= HeldBy(rs, p.self)
    requires EgressAll(p, chain, None, Egress(open, outbox, 0, false, false), rs).Commit?
    ensures var start := Egress(open, outbox, 0, false, false);
            var e := EgressAll(p, chain, None, start, rs).value;
            WithCut(p, rs, x, e).Commit? && EgressAll(p, chain, Some(x), start, rs) == WithCut(p, rs, x, e)
    decreases |rs|
  {
    hide Value, FromValue, Plus, Minus, Promise, Capacity;
    if rs != [] {
      var front, r := rs[..|rs| - 1], rs[|rs| - 1];
      var start := Egress(open, outbox, 0, false, false);
      var e := EgressAll(p, chain, None, start, front).value;
      EgressCorrect(p, chain, None, open, outbox, front);
      if r.name == p.self {
        HeldByAbsent(front, p.self);
      }
      CutNeverAborts(p, chain, x, open, outbox, front);
      CutStep(p, chain, x, front, e, r);
    }
  }

  lemma CutStep(p: Params, chain: Chain, x: nat, rs: seq<ReservedObject>, e: Egress, r: ReservedObject)
    requires RowsValid(p.m, e.open) && p.self in e.open && !e.deducted
    requires r.name == p.self ==> HeldBy(rs, p.self) == 0 && (r.balance == 0 || x <= r.balance)
    requires WithCut(p, rs, x, e).Commit? && EgressOne(p, chain, None, e, r).Commit?
    ensures var e' := EgressOne(p, chain, None, e, r).value;
            && WithCut(p, rs + [r], x, e').Commit?
            && EgressOne(p, chain, Some(x), WithCut(p, rs, x, e).value, r) == WithCut(p, rs + [r], x, e')
  {
    hide Value, FromValue, Plus, Minus, Promise, Capacity, PaidAmount;
    HeldAppend(rs, r);
    if r.balance > 0 {
      if r.name == p.self {
        CutOwn(p, x, e, r);
      } else if r.name in e.open {
        hide EgressToRow;
        CutOther(p, x, rs, e, r);
        OtherKept(p, x, rs, r, EgressToRow(p, None, e, r).value);
      } else {
        CutOut(p, chain, x, rs, e, r);
      }
    }
  }

  /** The cut of a longer list is that of the shorter one if what was added is not the contract's. */
  lemma OtherKept(p: Params, x: nat, rs: seq<ReservedObject>, r: ReservedObject, e: Egress)
    requires r.name != p.self
    ensures WithCut(p, rs + [r], x, e) == WithCut(p, rs, x, e)
  {
    HeldAppend(rs, r);
  }

  lemma CutOut(p: Params, chain: Chain, x: nat, rs: seq<ReservedObject>, e: Egress, r: ReservedObject)
    requires r.name !in e.open && p.self in e.open && WithCut(p, rs, x, e).Commit? && EgressOut(p, chain, e, r).Commit?
    ensures var e' := EgressOut(p, chain, e, r).value;
            && WithCut(p, rs + [r], x, e').Commit?
            && r.name !in WithCut(p, rs, x, e).value.open
            && EgressOut(p, chain, WithCut(p, rs, x, e).value, r) == WithCut(p, rs + [r], x, e')
  {
    hide Value, FromValue, Plus, Minus, Promise, Capacity, PaidAmount;
    OtherKept(p, x, rs, r, EgressOut(p, chain, e, r).value);
  }

  lemma CutOwn(p: Params, x: nat, e: Egress, r: ReservedObject)
    requires RowsValid(p.m, e.open) && r.name == p.self && p.self in e.open && !e.deducted && x <= r.balance
    requires EgressToRow(p, None, e, r).Commit?
    ensures var e' := EgressToRow(p, None, e, r).value;
            && p.self in e'.open && Minus(p.m, e'.open[p.self], x).Commit?
            && EgressToRow(p, Some(x), e, r)
               == Commit(e'.(open := e'.open[p.self := Minus(p.m, e'.open[p.self], x).value], deducted := true))
  {
    hide Value, FromValue, Plus, Minus, Promise, Capacity;
    PlusExact(p.m, e.open[p.self], r.balance);
    ValidByValue(p.m, e.open[p.self]);
    var b := Plus(p.m, e.open[p.self], r.balance).value;
    MinusExact(p.m, b, x);
    var c := Minus(p.m, b, x).value;
    assert e.open[p.self := b][p.self := c] == e.open[p.self := c];
  }

  lemma CutOther(p: Params, x: nat, rs: seq<ReservedObject>, e: Egress, r: ReservedObject)
    requires p.self in e.open && r.name in e.open && r.name != p.self
    requires WithCut(p, rs, x, e).Commit? && EgressToRow(p, None, e, r).Commit?
    ensures WithCut(p, rs, x, EgressToRow(p, None, e, r).value).Commit?
    ensures EgressToRow(p, Some(x), WithCut(p, rs, x, e).value, r) == WithCut(p, rs, x, EgressToRow(p, None, e, r).value)
  {
    hide Value, FromValue, Plus, Minus, Promise, Capacity;
    if HeldBy(rs, p.self) > 0 {
      var b, c := Plus(p.m, e.open[r.name], r.balance).value, Minus(p.m, e.open[p.self], x).value;
      assert e.open[r.name := b][p.self := c] == e.open[p.self := c][r.name := b];
    }
  }

  /**
   If the EVM credits gas fees as it should, a transaction that would settle without a miner
   settles with one, unless the credit overflows the miner's row: neither the cut from the
   contract's row nor the check that it was taken can fail.
   */
  lemma MinerNeverPreventsSettlement(p: Params, env: Env, chain: Chain, miner: Name, tx: Tx, out: EvmResult, s: Ledger)
    requires RowsValid(p.m, s.open) && p.self in s.open && Valid(p.m, s.inevm) && Held(out.reserved) <= Value(p.m, s.inevm)
    requires miner in s.open && miner != p.self && env.minerCut <= NINETY_PERCENT
    requires EvmAssumption(s.evm, env, tx, out) && out.valid && FeeCredited(p, env, tx, out)
    requires MinerPortion(env, tx, out.gasUsed).Commit?
    requires Settle(p, env, chain, None, tx, out, s).Commit?
    ensures var without, part := Settle(p, env, chain, None, tx, out, s).value, MinerPortion(env, tx, out.gasUsed).value;
            && miner in without.open
            && (Settle(p, env, chain, Some(miner), tx, out, s).Commit? <==>
                part == 0 || Plus(p.m, without.open[miner], part).Commit?)
  {
    hide Value, FromValue, Plus, Minus, Promise, Capacity;
    var start, part := Egress(s.open, s.outbox, 0, false, false), MinerPortion(env, tx, out.gasUsed).value;
    assert part <= HeldBy(out.reserved, p.self) by {
      PortionExact(s.evm, env, tx, out);
      ShareOf(env, SharedFee(env, tx, out.gasUsed));
    }
    ValidByValue(p.m, s.inevm);
    EgressCorrect(p, chain, None, s.open, s.outbox, out.reserved);
    CutNeverAborts(p, chain, part, s.open, s.outbox, out.reserved);
  }
}
