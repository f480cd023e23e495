/**
 Chain transactions.  The chain runs an action together with all the inline actions it leads
 to, and undoes all of them if any fails.  So a transaction is a sequence of steps that commits
 only if every step does and no inline action is left waiting; a history is a sequence of
 transactions, committed or not.
 */
module LedgerHistory {
  import opened Words
  import opened Dust
  import opened Sums
  import opened Ledger
  import opened LedgerEgress
  import opened LedgerSettlement
  import opened LedgerInvariant
  import opened LedgerRuns
  import opened LedgerFees
  import opened LedgerCommit
  import opened LedgerEffects

  type Transaction = seq<Step>

  predicate AllCommit(p: Params, s: Ledger, t: Transaction) {
    t == [] || (AllCommit(p, s, t[..|t| - 1]) && Attempt(p, After(p, s, t[..|t| - 1]), t[|t| - 1]).Commit?)
  }

  predicate Succeeds(p: Params, s: Ledger, t: Transaction) {
    AllCommit(p, s, t) && After(p, s, t).outbox == []
  }

  /** All of a transaction, or nothing of it. */
  function DoTransaction(p: Params, s: Ledger, t: Transaction): Ledger {
    if Succeeds(p, s, t) then After(p, s, t) else s
  }

  function Ending(p: Params, s: Ledger, h: seq<Transaction>): Ledger {
    if h == [] then s else DoTransaction(p, Ending(p, s, h[..|h| - 1]), h[|h| - 1])
  }

  /** The steps of the transactions that commit, in order. */
  function Committed(p: Params, s: Ledger, h: seq<Transaction>): seq<Step> {
    if h == [] then []
    else
      var front, t := h[..|h| - 1], h[|h| - 1];
      Committed(p, s, front) + (if Succeeds(p, Ending(p, s, front), t) then t else [])
  }

  lemma {:induction false} AfterBoth(p: Params, s: Ledger, first: seq<Step>, second: seq<Step>)
    ensures After(p, s, first + second) == After(p, After(p, s, first), second)
    decreases |second|
  {
    var run := first + second;
    if second == [] {
      assert run == first;
    } else {
      assert run[..|run| - 1] == first + second[..|second| - 1];
      AfterBoth(p, s, first, second[..|second| - 1]);
    }
  }

  /** A history is a run of what it commits, and no inline action outlives its transaction. */
  lemma {:induction false} HistoryIsRun(p: Params, s: Ledger, h: seq<Transaction>)
    ensures Ending(p, s, h) == After(p, s, Committed(p, s, h))
    ensures s.outbox == [] ==> Ending(p, s, h).outbox == []
  {
    if h != [] {
      var front, t := h[..|h| - 1], h[|h| - 1];
      HistoryIsRun(p, s, front);
      if Succeeds(p, Ending(p, s, front), t) {
        AfterBoth(p, s, Committed(p, s, front), t);
      } else {
        assert Committed(p, s, h) == Committed(p, s, front);
      }
    }
  }

  /** The EVM behaves in all transactions that commit; the others leave no trace. */
  ghost predicate EvmBehavesThroughout(p: Params, s: Ledger, h: seq<Transaction>) {
    EvmBehavesIn(p, s, Committed(p, s, h))
  }

  /**
   The books balance after every transaction of every history: the tokens held are the tokens
   held at the start, what repair actions added, the open balances, and `inevm`, which is the
   balances of all EVM accounts and what the EVM has burned.
   */
  lemma BalancesMatch(p: Params, token: int, h: seq<Transaction>)
    requires EvmBehavesThroughout(p, Init(p, token), h)
    ensures var s0 := Init(p, token);
            var s, run := Ending(p, s0, h), Committed(p, s0, h);
            && Inv(p, s) && s.outbox == []
            && s.token * p.m == token * p.m + Shifts(p, s0, run) + Total(p.m, s.open) + Value(p.m, s.inevm)
            && Value(p.m, s.inevm) == Sum(s.evm) + Burns(p, s0, run)
            && Burns(p, s0, run) >= 0
  {
    hide Value, FromValue, Plus, Minus, Promise, Capacity;
    var s0 := Init(p, token);
    HistoryIsRun(p, s0, h);
    RunSolvent(p, token, Committed(p, s0, h));
  }

  // ----- Without repair actions -----

  ghost predicate NoRepairs(run: seq<Step>) {
    forall i :: 0 <= i < |run| ==> !run[i].AddingEvmBalance? && !run[i].AddingOpenBalance?
  }

  lemma {:induction false} NothingShifted(p: Params, s: Ledger, run: seq<Step>)
    requires NoRepairs(run)
    ensures Shifts(p, s, run) == 0
  {
    if run != [] {
      NothingShifted(p, s, run[..|run| - 1]);
    }
  }

  lemma Affordable(m: Unit, held: int, amount: int)
    requires amount * m <= held * m
    ensures amount <= held
  {
    SignOfMultiple(held - amount, m);
    assert (held - amount) * m == held * m - amount * m;
  }

  lemma RowAtMostTotal(m: Unit, open: map<Name, Balance>, n: Name)
    requires RowsValid(m, open) && n in open
    ensures open[n].amount * m <= Total(m, open)
  {
    forall k | k in open
      ensures 0 <= Values(m, open)[k]
    {
      ValidByValue(m, open[k]);
    }
    SumNonNegative(Values(m, open));
    assert Values(m, open)[n] <= Total(m, open);
  }

  /** No account is owed more whole tokens than the contract holds. */
  lemma RowsCovered(p: Params, token: nat, h: seq<Transaction>, n: Name)
    requires EvmBehavesThroughout(p, Init(p, token), h) && NoRepairs(Committed(p, Init(p, token), h))
    requires n in Ending(p, Init(p, token), h).open
    ensures Ending(p, Init(p, token), h).open[n].amount <= Ending(p, Init(p, token), h).token
  {
    hide Value, FromValue, Plus, Minus, Promise, Capacity;
    var s := Ending(p, Init(p, token), h);
    BalancesMatch(p, token, h);
    NothingShifted(p, Init(p, token), Committed(p, Init(p, token), h));
    SignOfMultiple(token, p.m);
    ValidByValue(p.m, s.inevm);
    RowAtMostTotal(p.m, s.open, n);
    Affordable(p.m, s.token, s.open[n].amount);
  }

  lemma OneStep(p: Params, s: Ledger, a: Step)
    requires Attempt(p, s, a).Commit?
    ensures AllCommit(p, s, [a]) && After(p, s, [a]) == Attempt(p, s, a).value
  {
    hide Attempt;
    assert [a][..0] == [] && After(p, s, []) == s && AllCommit(p, s, []);
  }

  lemma TwoSteps(p: Params, s: Ledger, a: Step, b: Step)
    requires Attempt(p, s, a).Commit? && Attempt(p, Attempt(p, s, a).value, b).Commit?
    ensures AllCommit(p, s, [a, b]) && After(p, s, [a, b]) == Attempt(p, Attempt(p, s, a).value, b).value
  {
    hide Attempt;
    OneStep(p, s, a);
    assert [a, b][..1] == [a];
  }

  /**
   The contract can always pay: after any history without repair actions every owner can
   withdraw any part of the whole tokens of an open balance to any account but the contract,
   provided only that the receiver accepts the transfer, and gets exactly that.
   */
  lemma PaymentsCovered(p: Params, token: nat, h: seq<Transaction>, n: Name, q: Int64, to: Option<Name>, inline: Step)
    requires EvmBehavesThroughout(p, Init(p, token), h) && NoRepairs(Committed(p, Init(p, token), h))
    requires var s := Ending(p, Init(p, token), h);
             n in s.open && 0 < q <= s.open[n].amount && (if to.Some? then to.value else n) != p.self
    requires inline.RunningInline? && inline.index == 0 && inline.accepted
    ensures var s := Ending(p, Init(p, token), h);
            var t := [Withdrawing(n, q, to), inline];
            && Succeeds(p, s, t)
            && DoTransaction(p, s, t) == s.(open := s.open[n := s.open[n].(amount := s.open[n].amount - q)], token := s.token - q)
  {
    hide Value, FromValue, Plus, Minus, Promise, Capacity;
    var s := Ending(p, Init(p, token), h);
    hide Succeeds, DoTransaction, Ending, Total, Inv, EvmBehavesThroughout, NoRepairs, Committed, Init;
    assert RowsValid(p.m, s.open) && s.outbox == [] by {
      BalancesMatch(p, token, h);
      InvRows(p, s);
    }
    RowsCovered(p, token, h, n);
    Withdrawable(p, s, n, q, to, inline);
  }

  lemma InvRows(p: Params, s: Ledger)
    requires Inv(p, s)
    ensures RowsValid(p.m, s.open)
  {
  }

  lemma Withdrawable(p: Params, s: Ledger, n: Name, q: Int64, to: Option<Name>, inline: Step)
    requires RowsValid(p.m, s.open) && s.outbox == [] && n in s.open && 0 < q <= s.open[n].amount <= s.token
    requires (if to.Some? then to.value else n) != p.self
    requires inline.RunningInline? && inline.index == 0 && inline.accepted
    ensures var t := [Withdrawing(n, q, to), inline];
            && Succeeds(p, s, t)
            && DoTransaction(p, s, t) == s.(open := s.open[n := s.open[n].(amount := s.open[n].amount - q)], token := s.token - q)
  {
    hide Value, FromValue, Plus, Minus, Promise, Capacity;
    var first := Withdrawing(n, q, to);
    var s1 := Attempt(p, s, first).value;
    assert s1.outbox == [Pay(if to.Some? then to.value else n, q)];
    assert Without(s1.outbox, 0) == [];
    TwoSteps(p, s, first, inline);
  }

  /** After a transaction was executed the outbox holds at most its one payment. */
  lemma PushedOutbox(p: Params, s: Ledger, push: Step)
    requires Inv(p, s) && s.outbox == [] && push.Pushing? && EvmBehaves(p, s, push) && Attempt(p, s, push).Commit?
    ensures var s1 := Attempt(p, s, push).value;
            || s1.outbox == []
            || (|s1.outbox| == 1 && s1.outbox[0].Pay? && s1.outbox[0].to != p.self && 0 < s1.outbox[0].amount)
  {
    hide Value, FromValue, Plus, Minus, Promise, Capacity;
    OnePaymentExact(p, push.env, push.chain, OUTSIDE_RULES, push.miner, push.tx, push.out, s);
  }

  lemma PaymentCovered(p: Params, s: Ledger, amount: int)
    requires Inv(p, s) && Surplus(p, s) >= 0 && |s.outbox| == 1 && s.outbox[0].Pay? && s.outbox[0].amount == amount
    ensures amount <= s.token
  {
    TotalFits(p.m, s.open);
    ValidByValue(p.m, s.inevm);
    assert s.outbox[..0] == [] && Promised(p.m, s.outbox) == amount * p.m;
    Affordable(p.m, s.token, amount);
  }

  /**
   So does the other way out: once a pushed transaction commits, the one payment it may queue
   for an account without an open balance is covered, and only the receiver can refuse it.
   */
  lemma EgressCovered(p: Params, token: nat, h: seq<Transaction>, push: Step, inline: Step)
    requires EvmBehavesThroughout(p, Init(p, token), h) && NoRepairs(Committed(p, Init(p, token), h))
    requires var s := Ending(p, Init(p, token), h);
             push.Pushing? && EvmBehaves(p, s, push) && Attempt(p, s, push).Commit?
    requires inline.RunningInline? && inline.index == 0 && inline.accepted
    ensures var s := Ending(p, Init(p, token), h);
            Succeeds(p, s, [push]) || Succeeds(p, s, [push, inline])
  {
    hide Value, FromValue, Plus, Minus, Promise, Capacity;
    hide Attempt;
    var s := Ending(p, Init(p, token), h);
    assert Inv(p, s) && s.outbox == [] && Surplus(p, s) >= 0 by {
      BalancesMatch(p, token, h);
      NothingShifted(p, Init(p, token), Committed(p, Init(p, token), h));
      SignOfMultiple(token, p.m);
    }
    EgressDelivered(p, s, Attempt(p, s, push).value, push, inline);
  }

  lemma EgressDelivered(p: Params, s: Ledger, s1: Ledger, push: Step, inline: Step)
    requires Inv(p, s) && s.outbox == [] && Surplus(p, s) >= 0
    requires push.Pushing? && EvmBehaves(p, s, push) && Attempt(p, s, push) == Commit(s1)
    requires inline.RunningInline? && inline.index == 0 && inline.accepted
    ensures Succeeds(p, s, [push]) || Succeeds(p, s, [push, inline])
  {
    hide Value, FromValue, Plus, Minus, Promise, Capacity;
    hide Attempt;
    assert Inv(p, s1) && Surplus(p, s1) >= 0 by {
      PushKeepsSurplus(p, s, s1, push);
    }
    PushedOutbox(p, s, push);
    if s1.outbox == [] {
      OneStep(p, s, push);
    } else {
      PaymentCovered(p, s1, s1.outbox[0].amount);
      DeliversOne(p, s1, inline);
      TwoSteps(p, s, push, inline);
    }
  }

  lemma PushKeepsSurplus(p: Params, s: Ledger, s1: Ledger, push: Step)
    requires Inv(p, s) && push.Pushing? && EvmBehaves(p, s, push) && Attempt(p, s, push) == Commit(s1)
    ensures Inv(p, s1) && Surplus(p, s1) == Surplus(p, s)
  {
    hide Value, FromValue, Plus, Minus, Promise, Capacity;
    hide Attempt;
    DoKeeps(p, s, push);
  }

  lemma DeliversOne(p: Params, s: Ledger, inline: Step)
    requires |s.outbox| == 1 && s.outbox[0].Pay? && s.outbox[0].to != p.self && 0 < s.outbox[0].amount <= s.token
    requires inline.RunningInline? && inline.index == 0 && inline.accepted
    ensures Attempt(p, s, inline).Commit? && Attempt(p, s, inline).value.outbox == []
  {
    assert Without(s.outbox, 0) == [];
  }

  /** A deposit reaches the row it names, after any history and in one transaction. */
  lemma DepositsArrive(p: Params, token: int, h: seq<Transaction>, q: Int64, r: Name)
    requires EvmBehavesThroughout(p, Init(p, token), h)
    ensures var s := Ending(p, Init(p, token), h);
            var t := [DepositingToAccount(q, r)];
            && (Succeeds(p, s, t) <==> 0 < q && r in s.open && s.open[r].amount + q <= MAX_ASSET)
            && (Succeeds(p, s, t) ==>
                DoTransaction(p, s, t) == s.(open := s.open[r := Balance(s.open[r].amount + q, s.open[r].dust)], token := s.token + q))
  {
    hide Value, FromValue, Plus, Minus, Promise, Capacity;
    hide Attempt, Inv, Total, EvmBehavesThroughout, Committed;
    var s, step := Ending(p, Init(p, token), h), DepositingToAccount(q, r);
    BalancesMatch(p, token, h);
    DepositExact(p, s, q, r);
    if Attempt(p, s, step).Commit? {
      OneStep(p, s, step);
    } else {
      assert [step][..0] == [] && After(p, s, []) == s;
    }
  }

  // ----- Who may spend -----

  lemma {:induction false} TwoHistories(p: Params, s: Ledger, h: seq<Transaction>, more: seq<Transaction>)
    ensures Ending(p, s, h + more) == Ending(p, Ending(p, s, h), more)
    ensures Committed(p, s, h + more) == Committed(p, s, h) + Committed(p, Ending(p, s, h), more)
    decreases |more|
  {
    hide Succeeds, After;
    if more == [] {
      assert h + more == h;
    } else {
      var all := h + more;
      assert all[..|all| - 1] == h + more[..|more| - 1];
      TwoHistories(p, s, h, more[..|more| - 1]);
    }
  }

  lemma BehavesAfter(p: Params, s: Ledger, first: seq<Step>, second: seq<Step>)
    requires EvmBehavesIn(p, s, first + second)
    ensures EvmBehavesIn(p, s, first) && EvmBehavesIn(p, After(p, s, first), second)
  {
    hide After, EvmBehaves;
    var run := first + second;
    forall i | 0 <= i < |first|
      ensures EvmBehaves(p, After(p, s, first[..i]), first[i])
    {
      assert run[..i] == first[..i] && run[i] == first[i];
    }
    forall i | 0 <= i < |second|
      ensures EvmBehaves(p, After(p, After(p, s, first), second[..i]), second[i])
    {
      assert run[..|first| + i] == first + second[..i] && run[|first| + i] == second[i];
      AfterBoth(p, s, first, second[..i]);
    }
  }

  /**
   Open balances belong to their owners: if the row of n, not the contract's, is worth less
   after some more transactions of a history, then one of them committed a withdrawal by n, a
   call from n, a call of the administrator in the name of n, or a repair of n.
   */
  lemma SpendingIsOwn(p: Params, token: int, h: seq<Transaction>, more: seq<Transaction>, n: Name)
    requires EvmBehavesThroughout(p, Init(p, token), h + more) && n != p.self
    requires RowValue(p, Ending(p, Init(p, token), h + more), n) < RowValue(p, Ending(p, Init(p, token), h), n)
    ensures var run := Committed(p, Ending(p, Init(p, token), h), more);
            exists i :: 0 <= i < |run| && ActsFor(run[i], n)
  {
    hide Value, FromValue, Plus, Minus, Promise, Capacity;
    hide Attempt, Inv, Total, Committed, Ending, RowValue, ActsFor, EvmBehavesIn, Init;
    var s0 := Init(p, token);
    var s, first := Ending(p, s0, h), Committed(p, s0, h);
    var run := Committed(p, s, more);
    TwoHistories(p, s0, h, more);
    HistoryIsRun(p, s0, h);
    HistoryIsRun(p, s, more);
    BehavesAfter(p, s0, first, run);
    BalancesMatch(p, token, h);
    if forall i :: 0 <= i < |run| ==> !ActsFor(run[i], n) {
      NobodyElseSpends(p, s, run, n);
    }
  }
}
