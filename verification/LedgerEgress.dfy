/**
 The egress loop and the miner's part (src/actions.cpp, `execute_tx` after the EVM has run):
 where the money at the reserved addresses goes.

 From here on amounts are counted in wei.  How the value of a row is computed from amount and
 dust is a matter of module Dust, and proofs that only add and compare values hide it.
 */
module LedgerEgress {
  import opened Words
  import opened Dust
  import opened Sums
  import opened Ledger

  ghost function Values(m: Unit, open: map<Name, Balance>): map<Name, int> {
    map n | n in open :: Value(m, open[n])
  }

  /** What all open balances are worth together. */
  ghost function Total(m: Unit, open: map<Name, Balance>): int {
    Sum(Values(m, open))
  }

  ghost predicate RowsValid(m: Unit, open: map<Name, Balance>) {
    forall n :: n in open ==> Valid(m, open[n])
  }

  /** What an inline action promises to pay, in wei. */
  function Promise(m: Unit, x: Inline): int {
    if x.Pay? then x.amount * m else 0
  }

  /** What all queued transfers promise together. */
  function Promised(m: Unit, outbox: seq<Inline>): int {
    if outbox == [] then 0 else Promised(m, outbox[..|outbox| - 1]) + Promise(m, outbox[|outbox| - 1])
  }

  /** What a list of reserved objects holds, all together and for one account. */
  function Held(rs: seq<ReservedObject>): nat {
    if rs == [] then 0 else Held(rs[..|rs| - 1]) + rs[|rs| - 1].balance
  }

  function HeldBy(rs: seq<ReservedObject>, n: Name): nat {
    if rs == [] then 0 else HeldBy(rs[..|rs| - 1], n) + (if rs[|rs| - 1].name == n then rs[|rs| - 1].balance else 0)
  }

  // ----- Rows and their total -----

  lemma TotalPut(m: Unit, open: map<Name, Balance>, n: Name, b: Balance)
    ensures Total(m, open[n := b]) == Total(m, open) - (if n in open then Value(m, open[n]) else 0) + Value(m, b)
  {
    assert Values(m, open[n := b]) == Values(m, open)[n := Value(m, b)];
    SumPut(Values(m, open), n, Value(m, b));
  }

  lemma TotalRemove(m: Unit, open: map<Name, Balance>, n: Name)
    requires n in open
    ensures Total(m, open - {n}) == Total(m, open) - Value(m, open[n])
  {
    assert Values(m, open - {n}) == Values(m, open) - {n};
    SumWithout(Values(m, open), n);
  }

  lemma PromisedAppend(m: Unit, outbox: seq<Inline>, x: Inline)
    ensures Promised(m, outbox + [x]) == Promised(m, outbox) + Promise(m, x)
  {
    assert (outbox + [x])[..|outbox|] == outbox;
  }

  /** One row changed to a given value, all others kept. */
  ghost predicate RowMoved(m: Unit, open: map<Name, Balance>, open': map<Name, Balance>, n: Name, delta: int) {
    && n in open && open'.Keys == open.Keys && RowsValid(m, open')
    && (forall k :: k in open && k != n ==> open'[k] == open[k])
    && Value(m, open'[n]) == Value(m, open[n]) + delta
    && Total(m, open') == Total(m, open) + delta
  }

  lemma CreditMoves(p: Params, open: map<Name, Balance>, n: Name, x: nat)
    requires RowsValid(p.m, open) && Credit(p, open, n, x).Commit?
    ensures RowMoved(p.m, open, Credit(p, open, n, x).value, n, x)
  {
    hide Value, FromValue, Plus, Minus, Promise, Capacity;
    PlusExact(p.m, open[n], x);
    TotalPut(p.m, open, n, Plus(p.m, open[n], x).value);
  }

  lemma DebitMoves(p: Params, open: map<Name, Balance>, n: Name, x: nat)
    requires RowsValid(p.m, open) && Debit(p, open, n, x).Commit?
    ensures RowMoved(p.m, open, Debit(p, open, n, x).value, n, -(x as int))
  {
    hide Value, FromValue, Plus, Minus, Promise, Capacity;
    MinusExact(p.m, open[n], x);
    TotalPut(p.m, open, n, Minus(p.m, open[n], x).value);
  }

  lemma CreditAssetMoves(m: Unit, open: map<Name, Balance>, n: Name, q: int)
    requires RowsValid(m, open) && CreditAsset(open, n, q).Commit? && 0 <= open[n].amount + q
    ensures RowMoved(m, open, CreditAsset(open, n, q).value, n, q * m)
  {
    var b := open[n].(amount := open[n].amount + q);
    assert Value(m, b) == Value(m, open[n]) + q * m;
    TotalPut(m, open, n, b);
  }

  // ----- The egress loop -----

  /** Each row has received what its reserved address held; the contract's own, less the cut. */
  ghost predicate RowsPaid(p: Params, portion: Option<nat>, open0: map<Name, Balance>, rs: seq<ReservedObject>, e: Egress) {
    && RowsValid(p.m, e.open) && e.open.Keys == open0.Keys
    && (e.deducted <==> portion.Some? && HeldBy(rs, p.self) > 0)
    && (forall n :: n in open0 ==> Value(p.m, e.open[n]) == Value(p.m, open0[n]) + HeldBy(rs, n) - Cut(p, portion, e.deducted, n))
  }

  /** What is taken from the row of n. */
  function Cut(p: Params, portion: Option<nat>, deducted: bool, n: Name): nat {
    if deducted && n == p.self && portion.Some? then portion.value else 0
  }

  /** At most one payment was queued, to the one account without a row that held anything, exact. */
  ghost predicate PaidOut(p: Params, open0: map<Name, Balance>, outbox0: seq<Inline>, rs: seq<ReservedObject>, e: Egress) {
    && (!e.sent ==> e.outbox == outbox0 && forall n: Name :: n !in open0 ==> HeldBy(rs, n) == 0)
    && (e.sent ==>
          && |e.outbox| == |outbox0| + 1 && e.outbox[..|outbox0|] == outbox0
          && e.outbox[|outbox0|].Pay?
          && var pay := e.outbox[|outbox0|];
          && pay.to !in open0 && 0 < pay.amount <= MAX_ASSET && Promise(p.m, pay) == HeldBy(rs, pay.to)
          && forall n: Name :: n !in open0 && n != pay.to ==> HeldBy(rs, n) == 0)
  }

  /** Nothing is lost: what was held is in rows, in the outbox, or the miner's. */
  ghost predicate Conserved(p: Params, portion: Option<nat>, open0: map<Name, Balance>, outbox0: seq<Inline>,
                            rs: seq<ReservedObject>, e: Egress) {
    && e.total == Held(rs)
    && Total(p.m, e.open) + Promised(p.m, e.outbox)
       == Total(p.m, open0) + Promised(p.m, outbox0) + Held(rs) - Cut(p, portion, e.deducted, p.self)
  }

  ghost predicate EgressInv(p: Params, portion: Option<nat>, open0: map<Name, Balance>, outbox0: seq<Inline>,
                            rs: seq<ReservedObject>, e: Egress) {
    && RowsPaid(p, portion, open0, rs, e)
    && PaidOut(p, open0, outbox0, rs, e)
    && Conserved(p, portion, open0, outbox0, rs, e)
  }

  lemma HeldAppend(rs: seq<ReservedObject>, r: ReservedObject)
    ensures Held(rs + [r]) == Held(rs) + r.balance
    ensures forall n: Name :: HeldBy(rs + [r], n) == HeldBy(rs, n) + if n == r.name then r.balance else 0
  {
    assert (rs + [r])[..|rs|] == rs;
  }

  /** A balance below 2^62 units is paid exactly: neither the cast nor the sign changes it. */
  lemma PaidAmountExact(m: Unit, balance: nat)
    requires balance < Capacity(m) && balance % m == 0
    ensures PaidAmount(m, balance) * m == balance
    ensures 0 <= PaidAmount(m, balance) <= MAX_ASSET
    ensures balance > 0 ==> PaidAmount(m, balance) > 0
  {
    var q := balance / m;
    assert 0 <= q <= MAX_ASSET by {
      QuotientBound(m, balance);
    }
    assert PaidAmount(m, balance) == q by {
      CastExact(q);
    }
    assert balance == q * m;
  }

  lemma QuotientBound(m: Unit, balance: nat)
    requires balance < Capacity(m)
    ensures 0 <= balance / m <= MAX_ASSET
  {
    QuotientMonotonic(m, 0, balance);
    QuotientAndRemainder(m, MAX_ASSET, m - 1);
    assert Capacity(m) == MAX_ASSET * m + (m - 1) + 1;
    QuotientMonotonic(m, balance, MAX_ASSET * m + (m - 1));
  }

  lemma CastExact(q: int)
    requires 0 <= q <= MAX_ASSET
    ensures WrapSigned64(Wrap64(q)) == q
  {
  }

  lemma EgressNothing(p: Params, portion: Option<nat>, open0: map<Name, Balance>, outbox0: seq<Inline>,
                      rs: seq<ReservedObject>, e: Egress, r: ReservedObject)
    requires EgressInv(p, portion, open0, outbox0, rs, e) && r.balance == 0
    ensures EgressInv(p, portion, open0, outbox0, rs + [r], e)
  {
    hide Value, FromValue, Plus, Minus, Promise, Capacity;
    hide RowsPaid, PaidOut, Conserved;
    NothingForRows(p, portion, open0, rs, e, r);
    NothingToPay(p, open0, outbox0, rs, e, r);
    NothingLost(p, portion, open0, outbox0, rs, e, r);
  }

  lemma NothingLost(p: Params, portion: Option<nat>, open0: map<Name, Balance>, outbox0: seq<Inline>,
                    rs: seq<ReservedObject>, e: Egress, r: ReservedObject)
    requires Conserved(p, portion, open0, outbox0, rs, e) && r.balance == 0
    ensures Conserved(p, portion, open0, outbox0, rs + [r], e)
  {
    hide Value, FromValue, Plus, Minus, Promise, Capacity;
    HeldAppend(rs, r);
  }

  lemma NothingForRows(p: Params, portion: Option<nat>, open0: map<Name, Balance>, rs: seq<ReservedObject>, e: Egress, r: ReservedObject)
    requires RowsPaid(p, portion, open0, rs, e) && r.balance == 0
    ensures RowsPaid(p, portion, open0, rs + [r], e)
  {
    hide Value, FromValue, Plus, Minus, Promise, Capacity;
    HeldAppend(rs, r);
  }

  lemma NothingToPay(p: Params, open0: map<Name, Balance>, outbox0: seq<Inline>, rs: seq<ReservedObject>, e: Egress, r: ReservedObject)
    requires PaidOut(p, open0, outbox0, rs, e) && r.balance == 0
    ensures PaidOut(p, open0, outbox0, rs + [r], e)
  {
    hide Value, FromValue, Plus, Minus, Promise, Capacity;
    HeldAppend(rs, r);
  }

  lemma EgressToRowKeeps(p: Params, portion: Option<nat>, open0: map<Name, Balance>, outbox0: seq<Inline>,
                         rs: seq<ReservedObject>, e: Egress, r: ReservedObject)
    requires EgressInv(p, portion, open0, outbox0, rs, e) && Held(rs + [r]) < U256 && r.balance > 0
    requires r.name in open0 && EgressToRow(p, portion, e, r).Commit?
    ensures EgressInv(p, portion, open0, outbox0, rs + [r], EgressToRow(p, portion, e, r).value)
  {
    hide Value, FromValue, Plus, Minus, Promise, Capacity;
    var e' := EgressToRow(p, portion, e, r).value;
    RowAfterEgress(p, portion, e, r);
    assert Wrap256(e.total + r.balance) == e.total + r.balance by {
      HeldAppend(rs, r);
    }
    var b := e'.open[r.name];
    assert e' == AfterRow(p, portion, e, r, b);
    RowKeepsRows(p, portion, open0, rs, e, r, b);
    RowConserves(p, portion, open0, outbox0, rs, e, r, b);
    RowKeepsOut(p, portion, open0, outbox0, rs, e, r, b);
  }

  /** The loop state after a payment into a row, which then holds b. */
  function AfterRow(p: Params, portion: Option<nat>, e: Egress, r: ReservedObject, b: Balance): Egress {
    e.(open := e.open[r.name := b], total := e.total + r.balance,
       deducted := e.deducted || (portion.Some? && r.name == p.self))
  }

  lemma RowKeepsRows(p: Params, portion: Option<nat>, open0: map<Name, Balance>, rs: seq<ReservedObject>,
                     e: Egress, r: ReservedObject, b: Balance)
    requires RowsPaid(p, portion, open0, rs, e) && r.name in open0 && r.balance > 0
    requires portion.Some? && r.name == p.self ==> !e.deducted
    requires Valid(p.m, b)
    requires Value(p.m, b) == Value(p.m, e.open[r.name]) + r.balance - Cut(p, portion, portion.Some?, r.name)
    ensures RowsPaid(p, portion, open0, rs + [r], AfterRow(p, portion, e, r, b))
  {
    hide Value, FromValue, Plus, Minus, Promise, Capacity;
    HeldAppend(rs, r);
  }

  lemma RowConserves(p: Params, portion: Option<nat>, open0: map<Name, Balance>, outbox0: seq<Inline>,
                     rs: seq<ReservedObject>, e: Egress, r: ReservedObject, b: Balance)
    requires Conserved(p, portion, open0, outbox0, rs, e) && r.name in e.open
    requires portion.Some? && r.name == p.self ==> !e.deducted
    requires Value(p.m, b) == Value(p.m, e.open[r.name]) + r.balance - Cut(p, portion, portion.Some?, r.name)
    ensures Conserved(p, portion, open0, outbox0, rs + [r], AfterRow(p, portion, e, r, b))
  {
    hide Value, FromValue, Plus, Minus, Promise, Capacity;
    HeldAppend(rs, r);
    TotalPut(p.m, e.open, r.name, b);
  }

  lemma RowKeepsOut(p: Params, portion: Option<nat>, open0: map<Name, Balance>, outbox0: seq<Inline>,
                    rs: seq<ReservedObject>, e: Egress, r: ReservedObject, b: Balance)
    requires PaidOut(p, open0, outbox0, rs, e) && r.name in open0
    ensures PaidOut(p, open0, outbox0, rs + [r], AfterRow(p, portion, e, r, b))
  {
    hide Value, FromValue, Plus, Minus, Promise, Capacity;
    HeldAppend(rs, r);
  }

  /** The row gains what its address held, less the cut if it is the contract's. */
  lemma RowAfterEgress(p: Params, portion: Option<nat>, e: Egress, r: ReservedObject)
    requires r.name in e.open && Valid(p.m, e.open[r.name]) && EgressToRow(p, portion, e, r).Commit?
    ensures var e' := EgressToRow(p, portion, e, r).value;
            var cut := portion.Some? && r.name == p.self;
            && r.name in e'.open && e'.open == e.open[r.name := e'.open[r.name]]
            && e' == e.(open := e'.open, total := Wrap256(e.total + r.balance), deducted := e.deducted || cut)
            && (cut ==> !e.deducted)
            && Valid(p.m, e'.open[r.name])
            && Value(p.m, e'.open[r.name]) == Value(p.m, e.open[r.name]) + r.balance - (if cut then portion.value else 0)
  {
    hide Value, FromValue, Plus, Minus, Promise, Capacity;
    PlusExact(p.m, e.open[r.name], r.balance);
    if portion.Some? && r.name == p.self {
      MinusExact(p.m, Plus(p.m, e.open[r.name], r.balance).value, portion.value);
    }
  }

  lemma EgressOutKeeps(p: Params, chain: Chain, portion: Option<nat>, open0: map<Name, Balance>, outbox0: seq<Inline>,
                       rs: seq<ReservedObject>, e: Egress, r: ReservedObject)
    requires EgressInv(p, portion, open0, outbox0, rs, e) && Held(rs + [r]) < Capacity(p.m) && r.balance > 0
    requires p.self in open0 && r.name !in open0 && EgressOut(p, chain, e, r).Commit?
    ensures EgressInv(p, portion, open0, outbox0, rs + [r], EgressOut(p, chain, e, r).value)
  {
    hide Value, FromValue, Plus, Minus, Promise, Capacity;
    HeldBounds(p.m, rs, r);
    EgressOutShape(p, chain, e, r);
    OutKeeps(p, portion, open0, outbox0, rs, e, r, PaidAmount(p.m, r.balance));
  }

  lemma HeldBounds(m: Unit, rs: seq<ReservedObject>, r: ReservedObject)
    requires Held(rs + [r]) < Capacity(m)
    ensures r.balance < Capacity(m) && Held(rs) + r.balance < U256
  {
    hide Value, FromValue, Plus, Minus, Promise, Capacity;
    HeldAppend(rs, r);
    UnitsFit(m);
  }

  lemma EgressOutShape(p: Params, chain: Chain, e: Egress, r: ReservedObject)
    requires EgressOut(p, chain, e, r).Commit? && 0 < r.balance < Capacity(p.m) && e.total + r.balance < U256
    ensures var amount := PaidAmount(p.m, r.balance);
            && !e.sent && 0 < amount <= MAX_ASSET && Promise(p.m, Pay(r.name, amount)) == r.balance
            && EgressOut(p, chain, e, r).value
               == e.(outbox := e.outbox + [Pay(r.name, amount)], total := e.total + r.balance, sent := true)
  {
    hide Value, FromValue, Plus, Minus, Promise, Capacity;
    PromiseExact(p.m, r.name, r.balance);
  }

  /** What is queued for an account is what its reserved address held. */
  lemma PromiseExact(m: Unit, n: Name, balance: nat)
    requires 0 < balance < Capacity(m) && balance % m == 0
    ensures 0 < PaidAmount(m, balance) <= MAX_ASSET && Promise(m, Pay(n, PaidAmount(m, balance))) == balance
  {
    PaidAmountExact(m, balance);
  }

  lemma OutKeeps(p: Params, portion: Option<nat>, open0: map<Name, Balance>, outbox0: seq<Inline>,
                 rs: seq<ReservedObject>, e: Egress, r: ReservedObject, amount: int)
    requires EgressInv(p, portion, open0, outbox0, rs, e) && !e.sent && r.name !in open0 && p.self in open0
    requires 0 < amount <= MAX_ASSET && Promise(p.m, Pay(r.name, amount)) == r.balance
    ensures EgressInv(p, portion, open0, outbox0, rs + [r],
                      e.(outbox := e.outbox + [Pay(r.name, amount)], total := e.total + r.balance, sent := true))
  {
    hide Value, FromValue, Plus, Minus, Promise, Capacity;
    hide RowsPaid, PaidOut, Conserved;
    var e' := e.(outbox := e.outbox + [Pay(r.name, amount)], total := e.total + r.balance, sent := true);
    OutKeepsRows(p, portion, open0, rs, e, r, e');
    OutIsPaid(p, open0, outbox0, rs, e, r, e');
    OutConserves(p, portion, open0, outbox0, rs, e, r, e');
  }

  lemma OutKeepsRows(p: Params, portion: Option<nat>, open0: map<Name, Balance>, rs: seq<ReservedObject>,
                     e: Egress, r: ReservedObject, e': Egress)
    requires RowsPaid(p, portion, open0, rs, e) && r.name !in open0 && p.self in open0
    requires e'.open == e.open && e'.deducted == e.deducted
    ensures RowsPaid(p, portion, open0, rs + [r], e')
  {
    hide Value, FromValue, Plus, Minus, Promise, Capacity;
    HeldAppend(rs, r);
  }

  lemma OutIsPaid(p: Params, open0: map<Name, Balance>, outbox0: seq<Inline>, rs: seq<ReservedObject>,
                  e: Egress, r: ReservedObject, e': Egress)
    requires PaidOut(p, open0, outbox0, rs, e) && !e.sent && r.name !in open0
    requires e'.sent && |e'.outbox| == |e.outbox| + 1 && e'.outbox[..|e.outbox|] == e.outbox
    requires var pay := e'.outbox[|e.outbox|];
             pay.Pay? && pay.to == r.name && 0 < pay.amount <= MAX_ASSET && Promise(p.m, pay) == r.balance
    ensures PaidOut(p, open0, outbox0, rs + [r], e')
  {
    hide Value, FromValue, Plus, Minus, Promise, Capacity;
    HeldAppend(rs, r);
  }

  lemma OutConserves(p: Params, portion: Option<nat>, open0: map<Name, Balance>, outbox0: seq<Inline>, rs: seq<ReservedObject>,
                     e: Egress, r: ReservedObject, e': Egress)
    requires Conserved(p, portion, open0, outbox0, rs, e)
    requires |e'.outbox| == |e.outbox| + 1 && e'.outbox[..|e.outbox|] == e.outbox && Promise(p.m, e'.outbox[|e.outbox|]) == r.balance
    requires e' == e.(outbox := e'.outbox, total := e.total + r.balance, sent := true)
    ensures Conserved(p, portion, open0, outbox0, rs + [r], e')
  {
    hide Value, FromValue, Plus, Minus, Promise, Capacity;
    HeldAppend(rs, r);
    assert e'.outbox == e.outbox + [e'.outbox[|e.outbox|]];
    PromisedAppend(p.m, e.outbox, e'.outbox[|e.outbox|]);
  }

  /** The largest balance there is, in wei, is far below 2^256. */
  lemma UnitsFit(m: Unit)
    ensures Capacity(m) < U256
  {
    SignOfMultiple(MAX_UNIT - m, MAX_ASSET + 1);
    assert (MAX_UNIT - m) * (MAX_ASSET + 1) == MAX_UNIT * (MAX_ASSET + 1) - m * (MAX_ASSET + 1);
  }

  /** The loop as a whole, whatever the reserved objects are. */
  lemma {:induction false} EgressCorrect(p: Params, chain: Chain, portion: Option<nat>, open: map<Name, Balance>,
                                         outbox: seq<Inline>, rs: seq<ReservedObject>)
    requires RowsValid(p.m, open) && p.self in open && Held(rs) < Capacity(p.m)
    requires EgressAll(p, chain, portion, Egress(open, outbox, 0, false, false), rs).Commit?
    ensures EgressInv(p, portion, open, outbox, rs, EgressAll(p, chain, portion, Egress(open, outbox, 0, false, false), rs).value)
    decreases |rs|
  {
    hide Value, FromValue, Plus, Minus, Promise, Capacity;
    if rs != [] {
      var front, r := rs[..|rs| - 1], rs[|rs| - 1];
      var e := EgressAll(p, chain, portion, Egress(open, outbox, 0, false, false), front).value;
      EgressCorrect(p, chain, portion, open, outbox, front);
      assert front + [r] == rs;
      UnitsFit(p.m);
      if r.balance == 0 {
        EgressNothing(p, portion, open, outbox, front, e, r);
      } else if r.name in open {
        EgressToRowKeeps(p, portion, open, outbox, front, e, r);
      } else {
        EgressOutKeeps(p, chain, portion, open, outbox, front, e, r);
      }
    }
  }
}
