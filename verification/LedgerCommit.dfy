/**
 When a transaction goes through (src/actions.cpp, `execute_tx`, `process_filtered_messages`,
 `process_tx`): the exact condition, in terms of the transaction, of what the EVM returned and
 of the values of the rows before.  Of the aborts in between, some cannot happen in a state
 that satisfies the invariant, and do not appear.
 */
module LedgerCommit {
  import opened Words
  import opened Dust
  import opened Sums
  import opened Ledger
  import opened LedgerEgress
  import opened LedgerSettlement
  import opened LedgerInvariant
  import opened LedgerFees

  // ----- Egress -----

  /** The object can be settled: into its row, the miner's part included, or out to its account. */
  ghost predicate ObjectOk(p: Params, chain: Chain, portion: Option<int>, rows: map<Name, int>, r: ReservedObject) {
    && !r.hasCode && r.name != 0
    && (r.balance > 0 && r.name in rows ==>
          && rows[r.name] + r.balance < Capacity(p.m)
          && (r.name == p.self && portion.Some? ==> portion.value <= rows[r.name] + r.balance))
    && (r.balance > 0 && r.name !in rows ==>
          && r.name in chain.accounts && (r.name in chain.withCode ==> r.name in chain.egressList)
          && r.balance % p.m == 0)
  }

  predicate GoesOut(rows: map<Name, int>, r: ReservedObject) {
    r.balance > 0 && r.name !in rows
  }

  /** Every object can be settled, and at most one of them leaves the contract. */
  ghost predicate EgressOk(p: Params, chain: Chain, portion: Option<int>, rows: map<Name, int>, rs: seq<ReservedObject>) {
    && (forall i :: 0 <= i < |rs| ==> ObjectOk(p, chain, portion, rows, rs[i]))
    && (forall i, j :: 0 <= i < j < |rs| ==> !GoesOut(rows, rs[i]) || !GoesOut(rows, rs[j]))
  }

  lemma {:induction false} HeldByAtLeast(rs: seq<ReservedObject>, i: nat)
    requires i < |rs|
    ensures rs[i].balance <= HeldBy(rs, rs[i].name)
    decreases |rs|
  {
    if i < |rs| - 1 {
      HeldByAtLeast(rs[..|rs| - 1], i);
    }
  }

  lemma {:induction false} HeldBySome(rs: seq<ReservedObject>, n: Name) returns (i: nat)
    requires HeldBy(rs, n) > 0
    ensures i < |rs| && rs[i].name == n && rs[i].balance > 0
    decreases |rs|
  {
    var last := |rs| - 1;
    if rs[last].name == n && rs[last].balance > 0 {
      i := last;
    } else {
      i := HeldBySome(rs[..last], n);
    }
  }

  /** The flag of the loop is set exactly if an object has left. */
  lemma SentExactly(p: Params, open: map<Name, Balance>, outbox: seq<Inline>, rs: seq<ReservedObject>, e: Egress)
    requires PaidOut(p, open, outbox, rs, e)
    ensures e.sent <==> exists i :: 0 <= i < |rs| && GoesOut(Values(p.m, open), rs[i])
  {
    hide Value, FromValue, Plus, Minus, Capacity;
    if e.sent {
      var pay := e.outbox[|outbox|];
      SignOfMultiple(pay.amount, p.m);
      var i := HeldBySome(rs, pay.to);
      assert GoesOut(Values(p.m, open), rs[i]);
    } else {
      forall i | 0 <= i < |rs|
        ensures !GoesOut(Values(p.m, open), rs[i])
      {
        HeldByAtLeast(rs, i);
      }
    }
  }

  /** One turn of the loop, for an object whose address has not come before. */
  lemma ObjectCommits(p: Params, chain: Chain, portion: Option<nat>, open: map<Name, Balance>, front: seq<ReservedObject>,
                      e: Egress, r: ReservedObject)
    requires RowsValid(p.m, open) && RowsPaid(p, portion, open, front, e) && HeldBy(front, r.name) == 0
    requires r.balance < Capacity(p.m) && p.self in open
    ensures EgressOne(p, chain, portion, e, r).Commit? <==>
              ObjectOk(p, chain, portion, Values(p.m, open), r) && (GoesOut(Values(p.m, open), r) ==> !e.sent)
  {
    hide Value, FromValue, Plus, Minus, Promise, Capacity, PaidAmount;
    if r.balance > 0 && r.name in open {
      IntoRowCommits(p, portion, open, e, r);
    } else if r.balance > 0 && r.balance % p.m == 0 {
      PaidAmountExact(p.m, r.balance);
    }
  }

  lemma IntoRowCommits(p: Params, portion: Option<nat>, open: map<Name, Balance>, e: Egress, r: ReservedObject)
    requires r.name in open && r.name in e.open && Valid(p.m, e.open[r.name])
    requires Value(p.m, e.open[r.name]) == Value(p.m, open[r.name]) && (r.name == p.self ==> !e.deducted)
    ensures EgressToRow(p, portion, e, r).Commit? <==>
              && Value(p.m, open[r.name]) + r.balance < Capacity(p.m)
              && (r.name == p.self && portion.Some? ==> portion.value <= Value(p.m, open[r.name]) + r.balance)
  {
    hide Value, FromValue, Plus, Minus, Promise, Capacity;
    PlusExact(p.m, e.open[r.name], r.balance);
    if Plus(p.m, e.open[r.name], r.balance).Commit? && portion.Some? {
      MinusExact(p.m, Plus(p.m, e.open[r.name], r.balance).value, portion.value);
    }
  }

  lemma EgressOkAppend(p: Params, chain: Chain, portion: Option<int>, rows: map<Name, int>, rs: seq<ReservedObject>, r: ReservedObject)
    ensures EgressOk(p, chain, portion, rows, rs + [r]) <==>
              && EgressOk(p, chain, portion, rows, rs) && ObjectOk(p, chain, portion, rows, r)
              && (GoesOut(rows, r) ==> forall i :: 0 <= i < |rs| ==> !GoesOut(rows, rs[i]))
  {
    hide ObjectOk;
    var more := rs + [r];
    assert more[|rs|] == r && forall i :: 0 <= i < |rs| ==> more[i] == rs[i];
    if EgressOk(p, chain, portion, rows, more) {
      forall i | 0 <= i < |rs|
        ensures ObjectOk(p, chain, portion, rows, rs[i])
      {
        assert more[i] == rs[i];
      }
    }
  }

  /** The egress loop goes through exactly if every object can be settled and at most one leaves. */
  lemma {:induction false} EgressCommits(p: Params, chain: Chain, portion: Option<nat>, open: map<Name, Balance>,
                                         outbox: seq<Inline>, rs: seq<ReservedObject>)
    requires RowsValid(p.m, open) && p.self in open && Held(rs) < Capacity(p.m) && Distinct(rs)
    ensures EgressAll(p, chain, portion, Egress(open, outbox, 0, false, false), rs).Commit? <==>
              EgressOk(p, chain, portion, Values(p.m, open), rs)
    decreases |rs|
  {
    hide Value, FromValue, Plus, Minus, Promise, Capacity;
    if rs != [] {
      var front, r, rows := rs[..|rs| - 1], rs[|rs| - 1], Values(p.m, open);
      assert front + [r] == rs;
      EgressCommits(p, chain, portion, open, outbox, front);
      EgressOkAppend(p, chain, portion, rows, front, r);
      if EgressOk(p, chain, portion, rows, front) {
        LastObjectCommits(p, chain, portion, open, outbox, front, r);
      }
    }
  }

  lemma LastObjectCommits(p: Params, chain: Chain, portion: Option<nat>, open: map<Name, Balance>, outbox: seq<Inline>,
                          front: seq<ReservedObject>, r: ReservedObject)
    requires RowsValid(p.m, open) && p.self in open && Held(front) + r.balance < Capacity(p.m) && Distinct(front + [r])
    requires EgressAll(p, chain, portion, Egress(open, outbox, 0, false, false), front).Commit?
    ensures var e, rows := EgressAll(p, chain, portion, Egress(open, outbox, 0, false, false), front).value, Values(p.m, open);
            EgressOne(p, chain, portion, e, r).Commit? <==>
              && ObjectOk(p, chain, portion, rows, r)
              && (GoesOut(rows, r) ==> forall i :: 0 <= i < |front| ==> !GoesOut(rows, front[i]))
  {
    hide Value, FromValue, Plus, Minus, Promise, Capacity;
    hide EgressOne, ObjectOk, GoesOut;
    var e := EgressAll(p, chain, portion, Egress(open, outbox, 0, false, false), front).value;
    EgressCorrect(p, chain, portion, open, outbox, front);
    forall i | 0 <= i < |front|
      ensures front[i].name != r.name
    {
      assert (front + [r])[i] == front[i] && (front + [r])[|front|] == r;
    }
    HeldByAbsent(front, r.name);
    ObjectCommits(p, chain, portion, open, front, e, r);
    SentExactly(p, open, outbox, front, e);
  }

  // ----- Settlement -----

  /** A miner's part greater than nothing needs a fee in the contract's row and room in the miner's. */
  ghost predicate PartOk(p: Params, rows: map<Name, int>, rs: seq<ReservedObject>, miner: Option<Name>, part: int) {
    miner.Some? && part > 0 ==>
      && HeldBy(rs, p.self) > 0
      && miner.value in rows && rows[miner.value] + HeldBy(rs, miner.value) + part < Capacity(p.m)
  }

  function PartOf(miner: Option<Name>, part: int): Option<int> {
    if miner.Some? then Some(part) else None
  }

  lemma SettleCommits(p: Params, env: Env, chain: Chain, miner: Option<Name>, tx: Tx, out: EvmResult, s: Ledger, part: nat)
    requires RowsValid(p.m, s.open) && p.self in s.open && Valid(p.m, s.inevm) && Held(out.reserved) <= Value(p.m, s.inevm)
    requires Distinct(out.reserved) && miner != Some(p.self) && (miner.Some? ==> miner.value in s.open)
    requires miner.Some? && MinerPortion(env, tx, out.gasUsed).Commit? ==> MinerPortion(env, tx, out.gasUsed).value == part
    ensures Settle(p, env, chain, miner, tx, out, s).Commit? <==>
              && (miner.Some? ==> MinerPortion(env, tx, out.gasUsed).Commit?)
              && EgressOk(p, chain, PartOf(miner, part), Values(p.m, s.open), out.reserved)
              && PartOk(p, Values(p.m, s.open), out.reserved, miner, part)
  {
    hide Value, FromValue, Plus, Minus, Promise, Capacity;
    hide EgressOk;
    ValidByValue(p.m, s.inevm);
    var portion: Option<nat> := if miner.Some? then Some(part) else None;
    var start := Egress(s.open, s.outbox, 0, false, false);
    EgressCommits(p, chain, portion, s.open, s.outbox, out.reserved);
    if EgressAll(p, chain, portion, start, out.reserved).Commit? {
      var e := EgressAll(p, chain, portion, start, out.reserved).value;
      EgressCorrect(p, chain, portion, s.open, s.outbox, out.reserved);
      MinusExact(p.m, s.inevm, e.total);
      if miner.Some? {
        PlusExact(p.m, e.open[miner.value], part);
      }
    }
  }

  // ----- Bridge messages -----

  /** A message for an existing, registered account that can be handled and covers its fee. */
  predicate Deliverable(p: Params, chain: Chain, msg: BridgeMsg) {
    match msg.receiver
    case None => false
    case Some(n) =>
      && n in chain.accounts && n in chain.receivers
      && (msg.forceAtomic ==> chain.receivers[n].atomic)
      && chain.receivers[n].minFee * p.m <= msg.value
  }

  ghost predicate AllDeliverable(p: Params, chain: Chain, rows: map<Name, int>, msgs: seq<BridgeMsg>) {
    forall i :: 0 <= i < |msgs| ==> Deliverable(p, chain, msgs[i]) && msgs[i].receiver.value in rows
  }

  /** All messages can be delivered, receivers have room, and the contract can pay. */
  ghost predicate MessagesOk(p: Params, chain: Chain, rows: map<Name, int>, msgs: seq<BridgeMsg>) {
    && AllDeliverable(p, chain, rows, msgs)
    && (forall n :: n in rows ==> rows[n] + CarriedTo(msgs, n) < Capacity(p.m))
    && (p.self in rows ==> Carried(msgs) <= rows[p.self] + CarriedTo(msgs, p.self))
  }

  lemma {:induction false} DeliverCommits(p: Params, chain: Chain, open: map<Name, Balance>, msgs: seq<BridgeMsg>)
    requires RowsValid(p.m, open)
    ensures DeliverAll(p, chain, Delivery(open, 0), msgs).Commit? <==>
              && AllDeliverable(p, chain, Values(p.m, open), msgs)
              && (forall n :: n in open ==> Value(p.m, open[n]) + CarriedTo(msgs, n) < Capacity(p.m))
    decreases |msgs|
  {
    hide Value, FromValue, Plus, Minus, Promise, Capacity;
    if msgs == [] {
      forall n | n in open
        ensures Value(p.m, open[n]) < Capacity(p.m)
      {
        ValidByValue(p.m, open[n]);
      }
    } else {
      var front, msg := msgs[..|msgs| - 1], msgs[|msgs| - 1];
      assert front + [msg] == msgs;
      DeliverCommits(p, chain, open, front);
      CarriedAppend(front, msg);
      if DeliverAll(p, chain, Delivery(open, 0), front).Commit? {
        DeliverAllCorrect(p, chain, open, front);
        LastMessageCommits(p, chain, open, front, DeliverAll(p, chain, Delivery(open, 0), front).value, msg);
        MessagesAppend(p, chain, open, front, msg);
      } else if && AllDeliverable(p, chain, Values(p.m, open), msgs)
                && forall n :: n in open ==> Value(p.m, open[n]) + CarriedTo(msgs, n) < Capacity(p.m) {
        ShorterDeliverable(p, chain, open, front, msg);
      }
    }
  }

  lemma LastMessageCommits(p: Params, chain: Chain, open: map<Name, Balance>, front: seq<BridgeMsg>, d: Delivery, msg: BridgeMsg)
    requires DeliveredSoFar(p, open, front, d)
    ensures DeliverOne(p, chain, d, msg).Commit? <==>
              && Deliverable(p, chain, msg) && msg.receiver.value in open
              && Value(p.m, open[msg.receiver.value]) + CarriedTo(front, msg.receiver.value) + msg.value < Capacity(p.m)
  {
    hide Value, FromValue, Plus, Minus, Promise, Capacity;
    if msg.receiver.Some? && msg.receiver.value in open {
      PlusExact(p.m, d.open[msg.receiver.value], msg.value);
    }
  }

  /** What is asked of a list of messages, asked of all but the last and of the last. */
  lemma MessagesAppend(p: Params, chain: Chain, open: map<Name, Balance>, front: seq<BridgeMsg>, msg: BridgeMsg)
    requires AllDeliverable(p, chain, Values(p.m, open), front)
    requires forall n :: n in open ==> Value(p.m, open[n]) + CarriedTo(front, n) < Capacity(p.m)
    ensures var msgs := front + [msg];
            && AllDeliverable(p, chain, Values(p.m, open), msgs)
            && (forall n :: n in open ==> Value(p.m, open[n]) + CarriedTo(msgs, n) < Capacity(p.m))
            <==>
            && Deliverable(p, chain, msg) && msg.receiver.value in open
            && Value(p.m, open[msg.receiver.value]) + CarriedTo(front, msg.receiver.value) + msg.value < Capacity(p.m)
  {
    hide Value, FromValue, Plus, Minus, Promise, Capacity, Deliverable;
    var msgs := front + [msg];
    CarriedAppend(front, msg);
    assert msgs[|front|] == msg && forall i :: 0 <= i < |front| ==> msgs[i] == front[i];
    if AllDeliverable(p, chain, Values(p.m, open), msgs) {
      assert Deliverable(p, chain, msgs[|front|]);
      DeliverableNamed(p, chain, msg);
    }
  }

  lemma DeliverableNamed(p: Params, chain: Chain, msg: BridgeMsg)
    requires Deliverable(p, chain, msg)
    ensures msg.receiver.Some?
  {
  }

  /** A list that cannot be delivered cannot be delivered with one more message. */
  lemma ShorterDeliverable(p: Params, chain: Chain, open: map<Name, Balance>, front: seq<BridgeMsg>, msg: BridgeMsg)
    requires AllDeliverable(p, chain, Values(p.m, open), front + [msg])
    requires forall n :: n in open ==> Value(p.m, open[n]) + CarriedTo(front + [msg], n) < Capacity(p.m)
    ensures AllDeliverable(p, chain, Values(p.m, open), front)
    ensures forall n :: n in open ==> Value(p.m, open[n]) + CarriedTo(front, n) < Capacity(p.m)
  {
    hide Value, FromValue, Plus, Minus, Promise, Capacity, Deliverable;
    CarriedAppend(front, msg);
    forall i | 0 <= i < |front|
      ensures Deliverable(p, chain, front[i]) && front[i].receiver.Some? && front[i].receiver.value in open
    {
      assert (front + [msg])[i] == front[i];
      DeliverableNamed(p, chain, front[i]);
    }
  }

  /** Messages go through exactly if all can be delivered, rows have room and the contract can pay. */
  lemma MessagesCommit(p: Params, chain: Chain, open: map<Name, Balance>, msgs: seq<BridgeMsg>)
    requires RowsValid(p.m, open) && p.self in open
    ensures ProcessMessages(p, chain, open, msgs).Commit? <==> MessagesOk(p, chain, Values(p.m, open), msgs)
  {
    hide Value, FromValue, Plus, Minus, Promise, Capacity, AllDeliverable;
    DeliverCommits(p, chain, open, msgs);
    assert (forall n :: n in open ==> Value(p.m, open[n]) + CarriedTo(msgs, n) < Capacity(p.m))
      <==> (forall n :: n in Values(p.m, open) ==> Values(p.m, open)[n] + CarriedTo(msgs, n) < Capacity(p.m));
    if DeliverAll(p, chain, Delivery(open, 0), msgs).Commit? {
      var d := DeliverAll(p, chain, Delivery(open, 0), msgs).value;
      DeliverAllCorrect(p, chain, open, msgs);
      MinusExact(p.m, d.open[p.self], d.accumulated);
      ValidByValue(p.m, d.open[p.self]);
    }
  }

  // ----- The whole transaction -----

  /** What the transaction may cost at most, as a true product. */
  function FullCost(tx: Tx): nat {
    tx.gasLimit * tx.maxFee + tx.value
  }

  /** What a reserved sender is lent: only the contract's own transactions have one. */
  function Loan(tx: Tx, n: Name): nat {
    if tx.special && tx.from == Reserved(n) then FullCost(tx) else 0
  }

  /** A reserved sender has an open balance that covers the cost, and `inevm` has room for it. */
  ghost predicate Funded(p: Params, s: Ledger, tx: Tx) {
    tx.special && tx.from.Reserved? ==>
      && tx.from.name in s.open && FullCost(tx) <= Value(p.m, s.open[tx.from.name])
      && Value(p.m, s.inevm) + FullCost(tx) < Capacity(p.m)
  }

  /** Who gets a part of the fee: a miner other than the contract and the empty name. */
  function Payee(p: Params, miner: Name): Option<Name> {
    if miner == p.self || miner == 0 then None else Some(miner)
  }

  /** The rows while the transaction runs in the EVM. */
  ghost function RowsLent(p: Params, s: Ledger, tx: Tx): map<Name, int> {
    map n | n in s.open :: Value(p.m, s.open[n]) - Loan(tx, n)
  }

  /** The rows after settlement: the EVM's money back, and the miner's part from row to row. */
  ghost function RowsSettled(p: Params, s: Ledger, tx: Tx, out: EvmResult, payee: Option<Name>, part: int): map<Name, int> {
    map n | n in s.open ::
      Value(p.m, s.open[n]) - Loan(tx, n) + HeldBy(out.reserved, n)
      + (if payee == Some(n) then part else if payee.Some? && n == p.self then -part else 0)
  }

  /** Money can move: the sender pays, every reserved object is settled, every message delivered. */
  ghost predicate MoneyMoves(p: Params, env: Env, chain: Chain, miner: Name, tx: Tx, out: EvmResult, s: Ledger) {
    var payee, fee := Payee(p, miner), SharedFee(env, tx, out.gasUsed);
    var part := Share(env, fee);
    && Funded(p, s, tx)
    && (payee.Some? ==> miner in s.open && fee != U256 - 1)
    && EgressOk(p, chain, PartOf(payee, part), RowsLent(p, s, tx), out.reserved)
    && PartOk(p, RowsLent(p, s, tx), out.reserved, payee, part)
    && MessagesOk(p, chain, RowsSettled(p, s, tx, out, payee, part), out.messages)
  }

  /** The checks on prices: at version 0 one price of at least the set one, later the miner's minimum. */
  predicate PriceOk(env: Env, tx: Tx, minPrice: Option<nat>) {
    if env.version >= 1 then minPrice.Some? ==> minPrice.value <= Min(tx.maxPriorityFee, tx.maxFee - env.gasPrice)
    else tx.maxPriorityFee == tx.maxFee >= env.gasPrice
  }

  /** What the rules of the entry point ask of a transaction. */
  predicate Admitted(p: Params, rules: Rules, miner: Name, tx: Tx, out: EvmResult) {
    && (miner == p.self || rules.allowNonSelfMiner)
    && (tx.special ==> rules.allowSpecial)
    && (rules.enforceChainId ==> tx.hasChainId)
    && out.valid && (rules.abortOnFailure ==> out.success)
  }

  lemma LoanIsLent(evm: map<Address, Word256>, env: Env, tx: Tx, out: EvmResult, n: Name)
    requires EvmAssumption(evm, env, tx, out) && out.valid
    ensures LentBy(tx, n) == Loan(tx, n)
  {
  }

  lemma IngressCommits(p: Params, s: Ledger, env: Env, tx: Tx, out: EvmResult)
    requires Inv(p, s) && EvmAssumption(s.evm, env, tx, out) && out.valid
    ensures Ingress(p, s, tx).Commit? <==> Funded(p, s, tx)
    ensures Ingress(p, s, tx).Commit? ==> Values(p.m, Ingress(p, s, tx).value.open) == RowsLent(p, s, tx)
  {
    hide Value, FromValue, Plus, Minus, Promise, Capacity, Wrap256;
    if FromReserved(tx) {
      CostExact(s.evm, env, tx, out);
      PlusExact(p.m, s.inevm, Cost(tx));
      ValidByValue(p.m, s.inevm);
      UnitsFit(p.m);
      if tx.from.name in s.open {
        MinusExact(p.m, s.open[tx.from.name], Cost(tx));
      }
    }
    if Ingress(p, s, tx).Commit? {
      LentRows(p, s, env, tx, out);
    }
  }

  lemma LentRows(p: Params, s: Ledger, env: Env, tx: Tx, out: EvmResult)
    requires Inv(p, s) && EvmAssumption(s.evm, env, tx, out) && out.valid && Ingress(p, s, tx).Commit?
    ensures Values(p.m, Ingress(p, s, tx).value.open) == RowsLent(p, s, tx)
  {
    hide Value, FromValue, Plus, Minus, Promise, Capacity, Wrap256;
    IngressMoves(p, s, tx);
    forall n | n in s.open
      ensures LentBy(tx, n) == Loan(tx, n)
    {
      LoanIsLent(s.evm, env, tx, out, n);
    }
  }

  /** What the transaction's miner gets, if anybody. */
  lemma PartIs(p: Params, env: Env, miner: Name, tx: Tx, out: EvmResult, s: Ledger)
    requires EvmAssumption(s.evm, env, tx, out) && out.valid && env.minerCut <= NINETY_PERCENT
    ensures var fee := SharedFee(env, tx, out.gasUsed);
            && MinerOf(p, miner) == Payee(p, miner) && 0 <= Share(env, fee)
            && (MinerPortion(env, tx, out.gasUsed).Commit? <==> fee != U256 - 1)
            && (MinerPortion(env, tx, out.gasUsed).Commit? ==> MinerPortion(env, tx, out.gasUsed).value == Share(env, fee))
  {
    hide MinerPortion, Share, SharedFee;
    PortionExact(s.evm, env, tx, out);
    ShareOf(env, SharedFee(env, tx, out.gasUsed));
  }

  /** After ingress: settlement and messages. */
  lemma RestCommits(p: Params, env: Env, chain: Chain, miner: Name, tx: Tx, out: EvmResult, s: Ledger, s1: Ledger)
    requires Inv(p, s) && EvmAssumption(s.evm, env, tx, out) && out.valid && env.minerCut <= NINETY_PERCENT
    requires Ingress(p, s, tx) == Commit(s1) && (Payee(p, miner).Some? ==> miner in s.open)
    ensures var payee, fee := Payee(p, miner), SharedFee(env, tx, out.gasUsed);
            var part := Share(env, fee);
            var r := Settle(p, env, chain, payee, tx, out, s1);
            && (r.Commit? <==>
                && (payee.Some? ==> fee != U256 - 1)
                && EgressOk(p, chain, PartOf(payee, part), RowsLent(p, s, tx), out.reserved)
                && PartOk(p, RowsLent(p, s, tx), out.reserved, payee, part))
            && (r.Commit? ==>
                (ProcessMessages(p, chain, r.value.open, out.messages).Commit?
                 <==> MessagesOk(p, chain, RowsSettled(p, s, tx, out, payee, part), out.messages)))
  {
    hide Value, FromValue, Plus, Minus, Promise, Capacity;
    hide Settle, EgressOk, MessagesOk, Share, SharedFee, MinerPortion, ProcessMessages;
    var payee, part := Payee(p, miner), Share(env, SharedFee(env, tx, out.gasUsed));
    PartIs(p, env, miner, tx, out, s);
    IngressMoves(p, s, tx);
    IngressCommits(p, s, env, tx, out);
    SumNonNegative(out.balances);
    SettleCommits(p, env, chain, payee, tx, out, s1, part);
    if Settle(p, env, chain, payee, tx, out, s1).Commit? {
      var s2 := Settle(p, env, chain, payee, tx, out, s1).value;
      SettleCorrect(p, env, chain, payee, tx, out, s1);
      MessagesCommit(p, chain, s2.open, out.messages);
      RowsAre(p, tx, out, payee, part, s, s1, s2);
    }
  }

  lemma RowsAre(p: Params, tx: Tx, out: EvmResult, payee: Option<Name>, part: nat, s: Ledger, s1: Ledger, s2: Ledger)
    requires Settled(p, payee, if payee.Some? then part else 0, out.reserved, s1, s2)
    requires Values(p.m, s1.open) == RowsLent(p, s, tx) && payee != Some(p.self)
    ensures Values(p.m, s2.open) == RowsSettled(p, s, tx, out, payee, part)
  {
    hide Value, FromValue, Plus, Minus, Promise, Capacity;
    assert s1.open.Keys == Values(p.m, s1.open).Keys == s.open.Keys;
    forall n | n in s.open
      ensures Values(p.m, s2.open)[n] == RowsSettled(p, s, tx, out, payee, part)[n]
    {
      assert Values(p.m, s1.open)[n] == RowsLent(p, s, tx)[n];
    }
  }

  /** A transaction commits exactly if it is admitted, its price is right, and the money can move. */
  lemma ProcessTxCommits(p: Params, env: Env, chain: Chain, rules: Rules, miner: Name, tx: Tx, minPrice: Option<nat>,
                         out: EvmResult, s: Ledger)
    requires Inv(p, s) && EvmAssumption(s.evm, env, tx, out) && env.minerCut <= NINETY_PERCENT
    ensures ProcessTx(p, env, chain, rules, miner, tx, minPrice, out, s).Commit? <==>
              && Admitted(p, rules, miner, tx, out)
              && PriceOk(env, tx, minPrice)
              && MoneyMoves(p, env, chain, miner, tx, out, s)
  {
    hide Value, FromValue, Plus, Minus, Promise, Capacity;
    hide Ingress, Settle, EgressOk, PartOk, MessagesOk, Share, SharedFee, ProcessMessages;
    if out.valid {
      if env.version >= 1 {
        InclusionPriceExact(s.evm, env, tx, out);
      }
      IngressCommits(p, s, env, tx, out);
      if Ingress(p, s, tx).Commit? && (Payee(p, miner).Some? ==> miner in s.open) {
        RestCommits(p, env, chain, miner, tx, out, s, Ingress(p, s, tx).value);
      }
    }
  }

  /** The exact effect of a transaction on the rows, on the EVM's accounts, and on nothing else. */
  lemma ProcessTxRows(p: Params, env: Env, chain: Chain, rules: Rules, miner: Name, tx: Tx, minPrice: Option<nat>,
                      out: EvmResult, s: Ledger)
    requires Inv(p, s) && EvmAssumption(s.evm, env, tx, out) && env.minerCut <= NINETY_PERCENT
    requires ProcessTx(p, env, chain, rules, miner, tx, minPrice, out, s).Commit?
    ensures var s' := ProcessTx(p, env, chain, rules, miner, tx, minPrice, out, s).value;
            var rows := RowsSettled(p, s, tx, out, Payee(p, miner), Share(env, SharedFee(env, tx, out.gasUsed)));
            && s' == s.(open := s'.open, inevm := s'.inevm, outbox := s'.outbox, evm := out.balances)
            && s'.open.Keys == s.open.Keys
            && (forall n :: n in s.open ==>
                  Value(p.m, s'.open[n]) == rows[n] + CarriedTo(out.messages, n) - if n == p.self then Carried(out.messages) else 0)
  {
    hide Value, FromValue, Plus, Minus, Promise, Capacity;
    hide Share, SharedFee, MinerPortion;
    ProcessTxCorrect(p, env, chain, rules, miner, tx, minPrice, out, s);
    TouchedFields(p, env, chain, rules, miner, tx, minPrice, out, s);
    assert out.valid;
    PartIs(p, env, miner, tx, out, s);
    assert Payee(p, miner).Some? ==> MinerPortion(env, tx, out.gasUsed).Commit?;
    forall n | n in s.open
      ensures LentBy(tx, n) == Loan(tx, n)
    {
      LoanIsLent(s.evm, env, tx, out, n);
    }
  }

  lemma TouchedFields(p: Params, env: Env, chain: Chain, rules: Rules, miner: Name, tx: Tx, minPrice: Option<nat>,
                      out: EvmResult, s: Ledger)
    requires ProcessTx(p, env, chain, rules, miner, tx, minPrice, out, s).Commit?
    ensures var s' := ProcessTx(p, env, chain, rules, miner, tx, minPrice, out, s).value;
            s' == s.(open := s'.open, inevm := s'.inevm, outbox := s'.outbox, evm := out.balances)
    ensures out.valid && (MinerOf(p, miner).Some? ==> MinerPortion(env, tx, out.gasUsed).Commit?)
  {
    hide Value, FromValue, Plus, Minus, Promise, Capacity;
    hide EgressAll, ProcessMessages, MinerPortion;
  }

  /**
   To whom money may leave: at most one account without a row is paid by a transaction, one
   that exists and, if it has code, is on the allow list.  The payment is exactly what its
   reserved address held: whole units, in range, untouched by the 64-bit cast.  No object at
   the empty name or with code is ever settled.
   */
  lemma OnePaymentExact(p: Params, env: Env, chain: Chain, rules: Rules, miner: Name, tx: Tx, out: EvmResult, s: Ledger)
    requires Inv(p, s) && EvmAssumption(s.evm, env, tx, out)
    requires ExecuteTx(p, env, chain, rules, miner, tx, out, s).Commit?
    ensures var before, after := s.outbox, ExecuteTx(p, env, chain, rules, miner, tx, out, s).value.outbox;
            || (after == before && forall n: Name :: n !in s.open ==> HeldBy(out.reserved, n) == 0)
            || (&& |after| == |before| + 1 && after[..|before|] == before && after[|before|].Pay?
                && var pay := after[|before|];
                && pay.to !in s.open && 0 < pay.amount <= MAX_ASSET && pay.amount * p.m == HeldBy(out.reserved, pay.to)
                && pay.to != 0 && pay.to in chain.accounts && (pay.to in chain.withCode ==> pay.to in chain.egressList)
                && forall n: Name :: n !in s.open && n != pay.to ==> HeldBy(out.reserved, n) == 0)
    ensures forall i :: 0 <= i < |out.reserved| ==> !out.reserved[i].hasCode && out.reserved[i].name != 0
  {
    hide Value, FromValue, Plus, Minus, Capacity;
    var s1, m := Ingress(p, s, tx).value, MinerOf(p, miner);
    IngressMoves(p, s, tx);
    SumNonNegative(out.balances);
    ValidByValue(p.m, s1.inevm);
    var portion := if m.None? then None else Some(MinerPortion(env, tx, out.gasUsed).value);
    var e := EgressAll(p, chain, portion, Egress(s1.open, s1.outbox, 0, false, false), out.reserved).value;
    EgressCorrect(p, chain, portion, s1.open, s1.outbox, out.reserved);
    EgressCommits(p, chain, portion, s1.open, s1.outbox, out.reserved);
    assert forall i :: 0 <= i < |out.reserved| ==> ObjectOk(p, chain, portion, Values(p.m, s1.open), out.reserved[i]);
    if e.sent {
      PayeeChecked(p, chain, portion, s1.open, s1.outbox, out.reserved, e);
    }
  }

  lemma PayeeChecked(p: Params, chain: Chain, portion: Option<int>, open: map<Name, Balance>, outbox: seq<Inline>,
                     rs: seq<ReservedObject>, e: Egress)
    requires PaidOut(p, open, outbox, rs, e) && e.sent
    requires forall i :: 0 <= i < |rs| ==> ObjectOk(p, chain, portion, Values(p.m, open), rs[i])
    ensures var pay := e.outbox[|outbox|];
            pay.to != 0 && pay.to in chain.accounts && (pay.to in chain.withCode ==> pay.to in chain.egressList)
  {
    hide Value, FromValue, Plus, Minus, Capacity;
    var pay := e.outbox[|outbox|];
    SignOfMultiple(pay.amount, p.m);
    var i := HeldBySome(rs, pay.to);
    assert ObjectOk(p, chain, portion, Values(p.m, open), rs[i]);
  }
}
