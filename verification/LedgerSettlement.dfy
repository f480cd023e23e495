/**
 Settlement of an executed transaction, and bridge messages (src/actions.cpp): exact effect
 on every row, on `inevm`, and on the outbox.
 */
module LedgerSettlement {
  import opened Words
  import opened Dust
  import opened Sums
  import opened Ledger
  import opened LedgerEgress

  // ----- Settlement -----

  /** The miner's part, nothing if there is no miner to pay. */
  function PortionPaid(env: Env, miner: Option<Name>, tx: Tx, gasUsed: nat): nat {
    if miner.Some? && MinerPortion(env, tx, gasUsed).Commit? then MinerPortion(env, tx, gasUsed).value else 0
  }

  /** What settlement adds to the row of n. */
  function RowGain(p: Params, rs: seq<ReservedObject>, miner: Option<Name>, portion: nat, n: Name): int {
    HeldBy(rs, n) - (if n == p.self then portion else 0) + (if miner == Some(n) then portion else 0)
  }

  /**
   Every row gains what its reserved address held; in addition the miner's part moves from the
   contract's row to the miner's.  `inevm` loses what was held, and nothing is lost on the way.
   */
  ghost predicate Settled(p: Params, miner: Option<Name>, portion: nat, rs: seq<ReservedObject>, s: Ledger, s': Ledger) {
    && RowsValid(p.m, s'.open) && s'.open.Keys == s.open.Keys
    && (forall n :: n in s.open ==> Value(p.m, s'.open[n]) == Value(p.m, s.open[n]) + RowGain(p, rs, miner, portion, n))
    && Valid(p.m, s'.inevm) && Value(p.m, s'.inevm) == Value(p.m, s.inevm) - Held(rs)
    && Total(p.m, s'.open) + Promised(p.m, s'.outbox) == Total(p.m, s.open) + Promised(p.m, s.outbox) + Held(rs)
    && s' == s.(open := s'.open, outbox := s'.outbox, inevm := s'.inevm)
  }

  lemma SettleCorrect(p: Params, env: Env, chain: Chain, miner: Option<Name>, tx: Tx, out: EvmResult, s: Ledger)
    requires RowsValid(p.m, s.open) && p.self in s.open && Valid(p.m, s.inevm)
    requires Held(out.reserved) <= Value(p.m, s.inevm)
    requires miner != Some(p.self) && (miner.Some? ==> miner.value in s.open)
    requires Settle(p, env, chain, miner, tx, out, s).Commit?
    ensures Settled(p, miner, PortionPaid(env, miner, tx, out.gasUsed), out.reserved, s,
                    Settle(p, env, chain, miner, tx, out, s).value)
  {
    hide Value, FromValue, Plus, Minus, Promise, Capacity;
    var portion := if miner.None? then None else Some(MinerPortion(env, tx, out.gasUsed).value);
    var start := Egress(s.open, s.outbox, 0, false, false);
    var e := EgressAll(p, chain, portion, start, out.reserved).value;
    ValidByValue(p.m, s.inevm);
    EgressCorrect(p, chain, portion, s.open, s.outbox, out.reserved);
    MinusExact(p.m, s.inevm, e.total);
    var s' := Settle(p, env, chain, miner, tx, out, s).value;
    if portion.Some? && portion.value > 0 {
      CreditMoves(p, e.open, miner.value, portion.value);
    }
    SettledRows(p, miner, portion, s, out.reserved, e, s');
  }

  /** From the egress loop to the settled ledger: only the credit of the miner is left. */
  lemma SettledRows(p: Params, miner: Option<Name>, portion: Option<nat>, s: Ledger, rs: seq<ReservedObject>, e: Egress, s': Ledger)
    requires EgressInv(p, portion, s.open, s.outbox, rs, e)
    requires p.self in s.open && miner != Some(p.self)
    requires portion.Some? <==> miner.Some?
    requires Valid(p.m, s'.inevm) && Value(p.m, s'.inevm) == Value(p.m, s.inevm) - Held(rs)
    requires s' == s.(open := s'.open, outbox := e.outbox, inevm := s'.inevm)
    requires portion.Some? && portion.value > 0 ==> e.deducted && RowMoved(p.m, e.open, s'.open, miner.value, portion.value)
    requires portion.None? || portion.value == 0 ==> s'.open == e.open
    ensures Settled(p, miner, if portion.Some? then portion.value else 0, rs, s, s')
  {
    hide Value, FromValue, Plus, Minus, Promise, Capacity;
  }

  // ----- Bridge messages -----

  /** What a list of messages carries, all together and to one receiver. */
  function Carried(msgs: seq<BridgeMsg>): nat {
    if msgs == [] then 0 else Carried(msgs[..|msgs| - 1]) + msgs[|msgs| - 1].value
  }

  function CarriedTo(msgs: seq<BridgeMsg>, n: Name): nat {
    if msgs == [] then 0
    else CarriedTo(msgs[..|msgs| - 1], n) + (if msgs[|msgs| - 1].receiver == Some(n) then msgs[|msgs| - 1].value else 0)
  }

  ghost predicate Delivered(p: Params, open: map<Name, Balance>, open': map<Name, Balance>, msgs: seq<BridgeMsg>) {
    && RowsValid(p.m, open') && open'.Keys == open.Keys
    && (forall n :: n in open ==> Value(p.m, open'[n]) == Value(p.m, open[n]) + CarriedTo(msgs, n))
    && Total(p.m, open') == Total(p.m, open) + Carried(msgs)
  }

  /** No more names than words; so all rows together are worth less than 2^256. */
  lemma TotalFits(m: Unit, open: map<Name, Balance>)
    requires RowsValid(m, open)
    ensures 0 <= Total(m, open) < U256
  {
    forall n | n in open
      ensures 0 <= Value(m, open[n]) <= (MAX_ASSET + 1) * MAX_UNIT
    {
      ValidByValue(m, open[n]);
      SignOfMultiple(MAX_UNIT - m, MAX_ASSET + 1);
      assert (MAX_UNIT - m) * (MAX_ASSET + 1) == MAX_UNIT * (MAX_ASSET + 1) - m * (MAX_ASSET + 1);
    }
    var values := Values(m, open);
    SumNonNegative(values);
    SumAtMost(values, (MAX_ASSET + 1) * MAX_UNIT);
    assert |values| <= U64 by {
      assert values.Keys == open.Keys;
      NamesAreWords(open.Keys, U64);
    }
    assert |values| * ((MAX_ASSET + 1) * MAX_UNIT) <= U64 * ((MAX_ASSET + 1) * MAX_UNIT);
  }

  lemma {:induction false} NamesAreWords(names: set<Name>, bound: nat)
    requires forall n :: n in names ==> n < bound
    ensures |names| <= bound
    decreases bound
  {
    if bound > 0 {
      var rest := set n | n in names && n < bound - 1;
      NamesAreWords(rest, bound - 1);
      if bound - 1 < U64 && (bound - 1) as Name in names {
        assert names == rest + {(bound - 1) as Name};
      } else {
        assert names == rest;
      }
    } else {
      assert names == {};
    }
  }

  lemma CarriedAppend(msgs: seq<BridgeMsg>, msg: BridgeMsg)
    ensures Carried(msgs + [msg]) == Carried(msgs) + msg.value
    ensures forall n: Name :: CarriedTo(msgs + [msg], n) == CarriedTo(msgs, n) + if msg.receiver == Some(n) then msg.value else 0
  {
    assert (msgs + [msg])[..|msgs|] == msgs;
  }

  lemma OneMoreDelivered(p: Params, open: map<Name, Balance>, open1: map<Name, Balance>, open2: map<Name, Balance>,
                         msgs: seq<BridgeMsg>, msg: BridgeMsg)
    requires Delivered(p, open, open1, msgs)
    requires msg.receiver.Some? && RowMoved(p.m, open1, open2, msg.receiver.value, msg.value)
    ensures Delivered(p, open, open2, msgs + [msg])
  {
    hide Value, FromValue, Plus, Minus, Promise, Capacity;
    CarriedAppend(msgs, msg);
  }

  lemma DeliverOneMoves(p: Params, chain: Chain, d: Delivery, msg: BridgeMsg)
    requires RowsValid(p.m, d.open) && DeliverOne(p, chain, d, msg).Commit?
    ensures var d' := DeliverOne(p, chain, d, msg).value;
            && msg.receiver.Some? && RowMoved(p.m, d.open, d'.open, msg.receiver.value, msg.value)
            && d'.accumulated == Wrap256(d.accumulated + msg.value)
  {
    hide Value, FromValue, Plus, Minus, Promise, Capacity;
    CreditMoves(p, d.open, msg.receiver.value, msg.value);
  }

  lemma AccumulatorExact(m: Unit, open: map<Name, Balance>, open': map<Name, Balance>, msgs: seq<BridgeMsg>, msg: BridgeMsg)
    requires RowsValid(m, open) && RowsValid(m, open') && Total(m, open') == Total(m, open) + Carried(msgs) + msg.value
    ensures Wrap256(Carried(msgs) + msg.value) == Carried(msgs) + msg.value
  {
    hide Value, FromValue, Plus, Minus, Promise, Capacity;
    TotalFits(m, open);
    TotalFits(m, open');
  }

  /** The loop state after some messages: rows credited, and their sum accumulated. */
  ghost predicate DeliveredSoFar(p: Params, open: map<Name, Balance>, msgs: seq<BridgeMsg>, d: Delivery) {
    Delivered(p, open, d.open, msgs) && d.accumulated == Carried(msgs)
  }

  lemma DeliverStep(p: Params, open: map<Name, Balance>, msgs: seq<BridgeMsg>, d: Delivery, msg: BridgeMsg, d': Delivery)
    requires RowsValid(p.m, open) && DeliveredSoFar(p, open, msgs, d)
    requires msg.receiver.Some? && RowMoved(p.m, d.open, d'.open, msg.receiver.value, msg.value)
    requires d'.accumulated == Wrap256(d.accumulated + msg.value)
    ensures DeliveredSoFar(p, open, msgs + [msg], d')
  {
    hide Value, FromValue, Plus, Minus, Promise, Capacity;
    assert d'.accumulated == Carried(msgs + [msg]) by {
      AccumulatorExact(p.m, open, d'.open, msgs, msg);
      CarriedAppend(msgs, msg);
    }
    assert Delivered(p, open, d'.open, msgs + [msg]) by {
      OneMoreDelivered(p, open, d.open, d'.open, msgs, msg);
    }
  }

  /** The accumulator is exact: it cannot wrap around for any number of messages. */
  lemma {:induction false} DeliverAllCorrect(p: Params, chain: Chain, open: map<Name, Balance>, msgs: seq<BridgeMsg>)
    requires RowsValid(p.m, open) && DeliverAll(p, chain, Delivery(open, 0), msgs).Commit?
    ensures DeliveredSoFar(p, open, msgs, DeliverAll(p, chain, Delivery(open, 0), msgs).value)
    decreases |msgs|
  {
    hide Value, FromValue, Plus, Minus, Promise, Capacity;
    if msgs != [] {
      var front, msg := msgs[..|msgs| - 1], msgs[|msgs| - 1];
      DeliverAllCorrect(p, chain, open, front);
      assert front + [msg] == msgs;
      var d := DeliverAll(p, chain, Delivery(open, 0), front).value;
      DeliverOneMoves(p, chain, d, msg);
      DeliverStep(p, open, front, d, msg, DeliverAll(p, chain, Delivery(open, 0), msgs).value);
    }
  }

  lemma {:induction false} AllAccepted(p: Params, chain: Chain, open: map<Name, Balance>, msgs: seq<BridgeMsg>, i: nat)
    requires RowsValid(p.m, open) && DeliverAll(p, chain, Delivery(open, 0), msgs).Commit? && i < |msgs|
    ensures MessageAccepted(p, chain, msgs[i]) && msgs[i].receiver.value in open
    decreases |msgs|
  {
    hide Value, FromValue, Plus, Minus, Promise, Capacity;
    var front := msgs[..|msgs| - 1];
    if i < |front| {
      AllAccepted(p, chain, open, front, i);
    } else {
      DeliverAllCorrect(p, chain, open, front);
    }
  }

  /** What message processing adds to the row of n. */
  function MessageGain(p: Params, msgs: seq<BridgeMsg>, n: Name): int {
    CarriedTo(msgs, n) - (if n == p.self then Carried(msgs) else 0)
  }

  /**
   The message loop either aborts or moves exactly the sum of the values from the contract's
   row to the receivers, each of which gains the sum of its own messages, and every message
   covers its receiver's minimum fee.
   */
  lemma ProcessMessagesCorrect(p: Params, chain: Chain, open: map<Name, Balance>, msgs: seq<BridgeMsg>)
    requires RowsValid(p.m, open) && p.self in open && ProcessMessages(p, chain, open, msgs).Commit?
    ensures var open' := ProcessMessages(p, chain, open, msgs).value;
            && RowsValid(p.m, open') && open'.Keys == open.Keys
            && (forall n :: n in open ==> Value(p.m, open'[n]) == Value(p.m, open[n]) + MessageGain(p, msgs, n))
            && Total(p.m, open') == Total(p.m, open)
    ensures forall i :: 0 <= i < |msgs| ==>
              && msgs[i].receiver.Some? && msgs[i].receiver.value in chain.accounts
              && msgs[i].receiver.value in chain.receivers && msgs[i].receiver.value in open
              && (msgs[i].forceAtomic ==> chain.receivers[msgs[i].receiver.value].atomic)
              && msgs[i].value >= chain.receivers[msgs[i].receiver.value].minFee * p.m
  {
    hide Value, FromValue, Plus, Minus, Promise, Capacity;
    DeliverAllCorrect(p, chain, open, msgs);
    var d := DeliverAll(p, chain, Delivery(open, 0), msgs).value;
    forall i | 0 <= i < |msgs|
      ensures MessageAccepted(p, chain, msgs[i]) && msgs[i].receiver.value in open
    {
      AllAccepted(p, chain, open, msgs, i);
    }
    if d.accumulated > 0 {
      DebitMoves(p, d.open, p.self, d.accumulated);
    }
  }
}
