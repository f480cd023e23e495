/**
 Runs of the ledger.  Inline actions run after the action that sent them, so between any two
 actions of a user other actions may come; every interleaving is a run here.
 */
module LedgerRuns {
  import opened Words
  import opened Dust
  import opened Sums
  import opened Ledger
  import opened LedgerEgress
  import opened LedgerSettlement
  import opened LedgerInvariant

  datatype Step =
    | DepositingToAccount(quantity: Int64, receiver: Name)
    | DepositingToEvm(env: Env, chain: Chain, quantity: Int64, gasLimit: Word64, out: EvmResult)
    | Withdrawing(owner: Name, quantity: Int64, to: Option<Name>)
    | Opening(owner: Name)
    | Closing(owner: Name)
    | Calling(env: Env, chain: Chain, from: Name, value: Word256, gasLimit: Word64, out: EvmResult)
    | AdminCalling(env: Env, chain: Chain, sender: Sender, evmNonce: Word64, value: Word256, gasLimit: Word64, out: EvmResult)
    | Pushing(env: Env, chain: Chain, miner: Name, tx: Tx, minPrice: Option<nat>, out: EvmResult)
    | RunningInline(env: Env, chain: Chain, index: nat, accepted: bool, out: EvmResult)
    | AddingEvmBalance(address: Address, d: Word256, subtract: bool)
    | AddingOpenBalance(name: Name, d: Word256, subtract: bool)

  function Attempt(p: Params, s: Ledger, step: Step): Outcome<Ledger> {
    match step
    case DepositingToAccount(quantity, receiver) => DepositToAccount(s, quantity, receiver)
    case DepositingToEvm(env, chain, quantity, gasLimit, out) => DepositToEvm(p, env, chain, s, quantity, gasLimit, out)
    case Withdrawing(owner, quantity, to) => Withdraw(s, owner, quantity, to)
    case Opening(owner) => Commit(Open(s, owner))
    case Closing(owner) => Close(p, s, owner)
    case Calling(env, chain, from, value, gasLimit, out) => Call(p, env, chain, s, from, value, gasLimit, out)
    case AdminCalling(env, chain, sender, evmNonce, value, gasLimit, out) =>
      AdminCall(p, env, chain, s, sender, evmNonce, value, gasLimit, out)
    case Pushing(env, chain, miner, tx, minPrice, out) => PushTx(p, env, chain, s, miner, tx, minPrice, out)
    case RunningInline(env, chain, index, accepted, out) => RunInline(p, env, chain, s, index, accepted, out)
    case AddingEvmBalance(a, d, subtract) => AddEvmBalance(p, s, a, d, subtract)
    case AddingOpenBalance(n, d, subtract) => AddOpenBalance(p, s, n, d, subtract)
  }

  /** A step that aborts leaves no trace. */
  function Do(p: Params, s: Ledger, step: Step): Ledger {
    var r := Attempt(p, s, step);
    if r.Commit? then r.value else s
  }

  function NonceOf(s: Ledger, n: Name): Word64 {
    if n in s.nonces then s.nonces[n] else 0
  }

  /** The steps that build a transaction of the contract's own. */
  predicate BuildsTx(step: Step) {
    step.DepositingToEvm? || step.Calling? || step.AdminCalling?
  }

  /** The transaction such a step builds, and the ledger at that point. */
  function Build(p: Params, s: Ledger, step: Step): Outcome<(Tx, Ledger)>
    requires BuildsTx(step)
  {
    match step
    case DepositingToEvm(env, _, quantity, gasLimit, _) => BuildDeposit(p, env, s, quantity, gasLimit)
    case Calling(env, _, from, value, gasLimit, _) => BuildCall(env, s, from, value, gasLimit)
    case AdminCalling(env, _, sender, evmNonce, value, gasLimit, _) => BuildAdminCall(env, s, sender, evmNonce, value, gasLimit)
  }

  /** The transaction a step hands to the EVM, if it gets that far. */
  function Executed(p: Params, s: Ledger, step: Step): Option<Tx> {
    if BuildsTx(step) then
      if step.env.version >= 1 && Build(p, s, step).Commit? then Some(Build(p, s, step).value.0) else None
    else match step
      case Pushing(_, _, _, tx, _, _) => Some(tx)
      case RunningInline(_, _, index, _, _) =>
        if index < |s.outbox| && s.outbox[index].Push? then Some(s.outbox[index].tx) else None
      case _ => None
  }

  /** Validation and the EVM behave as assumed in this step. */
  ghost predicate EvmBehaves(p: Params, s: Ledger, step: Step) {
    Executed(p, s, step).Some? ==> EvmAssumption(s.evm, step.env, Executed(p, s, step).value, step.out)
  }

  /** What the step changes in the surplus: only the two repair actions change it. */
  function Shift(p: Params, s: Ledger, step: Step): int {
    if Attempt(p, s, step).Abort? then 0
    else if step.AddingEvmBalance? || step.AddingOpenBalance? then (if step.subtract then step.d else -(step.d as int))
    else 0
  }

  /** What the EVM destroyed in the step. */
  ghost function BurnedIn(p: Params, s: Ledger, step: Step): int {
    if Attempt(p, s, step).Commit? && Executed(p, s, step).Some?
    then Burned(s.evm, Executed(p, s, step).value, step.out) else 0
  }

  // ----- One step -----

  /** Taking the deposit and the nonce keeps everything; the EVM has not been touched. */
  lemma BuildKeeps(p: Params, s: Ledger, step: Step)
    requires Inv(p, s) && BuildsTx(step) && Build(p, s, step).Commit?
    ensures Kept(p, s, Build(p, s, step).value.1, 0, 0) && Build(p, s, step).value.1.evm == s.evm
  {
    hide Value, FromValue, Plus, Minus, Promise, Capacity;
    match step {
      case DepositingToEvm(env, _, quantity, gasLimit, _) =>
        DepositToAccountKeeps(p, s, quantity, p.self);
        TakeNonceKeeps(p, DepositToAccount(s, quantity, p.self).value, p.self);
      case Calling(_, _, from, _, _, _) => TakeNonceKeeps(p, s, from);
      case AdminCalling(_, _, sender, _, _, _, _) =>
        if sender.Reserved? {
          TakeNonceKeeps(p, s, sender.name);
        }
    }
  }

  lemma KeptInv(p: Params, s: Ledger, s1: Ledger)
    requires Kept(p, s, s1, 0, 0)
    ensures Inv(p, s1)
  {
  }

  lemma KeptThenKept(p: Params, s: Ledger, s1: Ledger, s2: Ledger, burned: int)
    requires Kept(p, s, s1, 0, 0) && Kept(p, s1, s2, 0, burned)
    ensures Kept(p, s, s2, 0, burned)
  {
    hide Inv, Surplus, Slack;
  }

  /** Bridging in, calls, and calls of the administrator from either kind of sender. */
  lemma BuiltStepKeeps(p: Params, s: Ledger, step: Step)
    requires Inv(p, s) && EvmBehaves(p, s, step) && BuildsTx(step) && Attempt(p, s, step).Commit?
    ensures Kept(p, s, Attempt(p, s, step).value, 0, BurnedIn(p, s, step)) && BurnedIn(p, s, step) >= 0
  {
    hide Value, FromValue, Plus, Minus, Promise, Capacity;
    hide Inv, Kept, ProcessTx;
    BuildKeeps(p, s, step);
    var built := Build(p, s, step).value;
    assert Attempt(p, s, step) == Dispatch(p, step.env, step.chain, built.0, step.out, built.1);
    KeptInv(p, s, built.1);
    DispatchKeeps(p, step.env, step.chain, built.0, step.out, built.1);
    KeptThenKept(p, s, built.1, Attempt(p, s, step).value, BurnedIn(p, s, step));
  }

  lemma RunInlineKeeps(p: Params, env: Env, chain: Chain, s: Ledger, i: nat, accepted: bool, out: EvmResult)
    requires Inv(p, s) && RunInline(p, env, chain, s, i, accepted, out).Commit?
    requires EvmBehaves(p, s, RunningInline(env, chain, i, accepted, out))
    ensures Kept(p, s, RunInline(p, env, chain, s, i, accepted, out).value, 0,
                 BurnedIn(p, s, RunningInline(env, chain, i, accepted, out)))
    ensures BurnedIn(p, s, RunningInline(env, chain, i, accepted, out)) >= 0
  {
    hide Value, FromValue, Plus, Minus, Promise, Capacity;
    if s.outbox[i].Pay? {
      PayKeeps(p, s, i, s.outbox[i].amount);
    } else {
      DropPushKeeps(p, s, i);
      ProcessTxCorrect(p, env, chain, INLINE_RULES, p.self, s.outbox[i].tx, None, out, s.(outbox := Without(s.outbox, i)));
    }
  }

  /** The steps that hand a transaction to the EVM, or queue one. */
  predicate RunsEvm(step: Step) {
    BuildsTx(step) || step.Pushing? || step.RunningInline?
  }

  lemma EvmStepKeeps(p: Params, s: Ledger, step: Step)
    requires Inv(p, s) && EvmBehaves(p, s, step) && Attempt(p, s, step).Commit? && RunsEvm(step)
    ensures Kept(p, s, Attempt(p, s, step).value, 0, BurnedIn(p, s, step)) && BurnedIn(p, s, step) >= 0
  {
    hide Value, FromValue, Plus, Minus, Promise, Capacity;
    if BuildsTx(step) {
      BuiltStepKeeps(p, s, step);
    } else {
      match step {
        case Pushing(env, chain, miner, tx, minPrice, out) =>
          ProcessTxCorrect(p, env, chain, OUTSIDE_RULES, miner, tx, minPrice, out, s);
        case RunningInline(env, chain, index, accepted, out) => RunInlineKeeps(p, env, chain, s, index, accepted, out);
      }
    }
  }

  lemma TableStepKeeps(p: Params, s: Ledger, step: Step)
    requires Inv(p, s) && Attempt(p, s, step).Commit? && !RunsEvm(step)
    ensures Kept(p, s, Attempt(p, s, step).value, Shift(p, s, step), 0)
  {
    hide Value, FromValue, Plus, Minus, Promise, Capacity;
    match step {
      case DepositingToAccount(quantity, receiver) => DepositToAccountKeeps(p, s, quantity, receiver);
      case Withdrawing(owner, quantity, to) => WithdrawKeeps(p, s, owner, quantity, to);
      case Opening(owner) => OpenKeeps(p, s, owner);
      case Closing(owner) => CloseKeeps(p, s, owner);
      case AddingEvmBalance(a, d, subtract) => AddEvmBalanceShifts(p, s, a, d, subtract);
      case AddingOpenBalance(n, d, subtract) => AddOpenBalanceShifts(p, s, n, d, subtract);
    }
  }

  /**
   Every step keeps the invariant, leaves the surplus unchanged or shifts it by exactly what a
   repair action says, and adds to the slack exactly what the EVM burned.
   */
  lemma DoKeeps(p: Params, s: Ledger, step: Step)
    requires Inv(p, s) && EvmBehaves(p, s, step)
    ensures Kept(p, s, Do(p, s, step), Shift(p, s, step), BurnedIn(p, s, step))
    ensures BurnedIn(p, s, step) >= 0
  {
    hide Value, FromValue, Plus, Minus, Promise, Capacity;
    if Attempt(p, s, step).Commit? {
      if RunsEvm(step) {
        EvmStepKeeps(p, s, step);
      } else {
        TableStepKeeps(p, s, step);
      }
    }
  }

  // ----- Runs -----

  function After(p: Params, s: Ledger, run: seq<Step>): Ledger {
    if run == [] then s else Do(p, After(p, s, run[..|run| - 1]), run[|run| - 1])
  }

  ghost predicate EvmBehavesIn(p: Params, s: Ledger, run: seq<Step>) {
    forall i :: 0 <= i < |run| ==> EvmBehaves(p, After(p, s, run[..i]), run[i])
  }

  function Shifts(p: Params, s: Ledger, run: seq<Step>): int {
    if run == [] then 0
    else Shifts(p, s, run[..|run| - 1]) + Shift(p, After(p, s, run[..|run| - 1]), run[|run| - 1])
  }

  ghost function Burns(p: Params, s: Ledger, run: seq<Step>): int {
    if run == [] then 0
    else Burns(p, s, run[..|run| - 1]) + BurnedIn(p, After(p, s, run[..|run| - 1]), run[|run| - 1])
  }

  lemma InitHolds(p: Params, token: int)
    ensures Init(p, token) == Ledger(map[p.self := Balance(0, 0)], map[p.self := 0], Balance(0, 0), token, [], map[])
    ensures Inv(p, Init(p, token)) && Surplus(p, Init(p, token)) == token * p.m && Slack(p, Init(p, token)) == 0
  {
    var none: map<Name, Balance> := map[];
    TotalPut(p.m, none, p.self, Balance(0, 0));
    assert Init(p, token).open == none[p.self := Balance(0, 0)];
    assert Values(p.m, none) == map[];
  }

  /**
   Solvency of every run: the surplus is what it was at the start plus the shifts of repair
   actions, and `inevm` exceeds the balances of EVM accounts by exactly what the EVM burned.
   */
  lemma {:induction false} RunSolvent(p: Params, token: int, run: seq<Step>)
    requires EvmBehavesIn(p, Init(p, token), run)
    ensures var s0 := Init(p, token);
            var s := After(p, s0, run);
            && Inv(p, s)
            && Surplus(p, s) == token * p.m + Shifts(p, s0, run)
            && Slack(p, s) == Burns(p, s0, run) >= 0
  {
    hide Value, FromValue, Plus, Minus, Promise, Capacity;
    var s0 := Init(p, token);
    if run == [] {
      InitHolds(p, token);
    } else {
      var front := run[..|run| - 1];
      forall i | 0 <= i < |front|
        ensures EvmBehaves(p, After(p, s0, front[..i]), front[i])
      {
        assert front[..i] == run[..i] && front[i] == run[i];
      }
      RunSolvent(p, token, front);
      DoKeeps(p, After(p, s0, front), run[|run| - 1]);
    }
  }

  // ----- Nonces -----

  /** The nonce of the transaction that a committed step builds for the account n, if it does. */
  function HandedIn(p: Params, s: Ledger, step: Step, n: Name): Option<Word64> {
    if BuildsTx(step) && Attempt(p, s, step).Commit? && Build(p, s, step).value.0.from == Reserved(n)
    then Some(Build(p, s, step).value.0.nonce) else None
  }

  /** The transaction that carries the nonce is executed, or before version 1 queued. */
  lemma HandedIsUsed(p: Params, s: Ledger, step: Step, n: Name)
    requires HandedIn(p, s, step, n).Some?
    ensures var tx := Build(p, s, step).value.0;
            && tx.from == Reserved(n) && HandedIn(p, s, step, n) == Some(tx.nonce)
            && (step.env.version >= 1 ==> Executed(p, s, step) == Some(tx))
            && (step.env.version < 1 ==> Attempt(p, s, step).value.outbox == s.outbox + [Push(tx)])
  {
  }

  /** The nonces of all transactions built for one account in a run, in order. */
  function Handed(p: Params, s: Ledger, run: seq<Step>, n: Name): seq<Word64> {
    if run == [] then []
    else
      var before, step := run[..|run| - 1], run[|run| - 1];
      var handed := HandedIn(p, After(p, s, before), step, n);
      if handed.Some? then Handed(p, s, before, n) + [handed.value] else Handed(p, s, before, n)
  }

  /** Executing a transaction leaves the nonces of open accounts alone. */
  lemma ProcessTxNonces(p: Params, env: Env, chain: Chain, rules: Rules, miner: Name, tx: Tx, minPrice: Option<nat>,
                        out: EvmResult, s: Ledger)
    requires ProcessTx(p, env, chain, rules, miner, tx, minPrice, out, s).Commit?
    ensures ProcessTx(p, env, chain, rules, miner, tx, minPrice, out, s).value.nonces == s.nonces
  {
    hide Value, FromValue, Plus, Minus, Promise, Capacity;
  }

  lemma DispatchNonces(p: Params, env: Env, chain: Chain, tx: Tx, out: EvmResult, s: Ledger)
    requires Dispatch(p, env, chain, tx, out, s).Commit?
    ensures Dispatch(p, env, chain, tx, out, s).value.nonces == s.nonces
  {
    hide Value, FromValue, Plus, Minus, Promise, Capacity;
    if env.version >= 1 {
      ProcessTxNonces(p, env, chain, INLINE_RULES, p.self, tx, None, out, s);
    }
  }

  lemma BuildNonces(p: Params, s: Ledger, step: Step, n: Name)
    requires BuildsTx(step) && Build(p, s, step).Commit?
    ensures var (tx, s1) := Build(p, s, step).value;
            && NonceOf(s1, n) == (if tx.from == Reserved(n) then Wrap64(NonceOf(s, n) as int + 1) else NonceOf(s, n))
            && (tx.from == Reserved(n) ==> tx.nonce == NonceOf(s, n))
  {
    hide Value, FromValue, Plus, Minus, Promise, Capacity;
  }

  /**
   A committed step increments the nonce of exactly the account it builds a transaction for,
   and that transaction carries the nonce from before.
   */
  lemma NoncesAfter(p: Params, s: Ledger, step: Step, n: Name)
    requires Attempt(p, s, step).Commit?
    ensures NonceOf(Attempt(p, s, step).value, n)
         == if HandedIn(p, s, step, n).Some? then Wrap64(NonceOf(s, n) as int + 1) else NonceOf(s, n)
    ensures HandedIn(p, s, step, n).Some? ==> HandedIn(p, s, step, n).value == NonceOf(s, n)
  {
    hide Value, FromValue, Plus, Minus, Promise, Capacity;
    if BuildsTx(step) {
      var built := Build(p, s, step).value;
      BuildNonces(p, s, step, n);
      DispatchNonces(p, step.env, step.chain, built.0, step.out, built.1);
    } else {
      match step {
        case Pushing(env, chain, miner, tx, minPrice, out) =>
          ProcessTxNonces(p, env, chain, OUTSIDE_RULES, miner, tx, minPrice, out, s);
        case RunningInline(env, chain, index, accepted, out) =>
          if s.outbox[index].Push? {
            ProcessTxNonces(p, env, chain, INLINE_RULES, p.self, s.outbox[index].tx, None, out, s.(outbox := Without(s.outbox, index)));
          }
        case _ =>
      }
    }
  }

  lemma NextWord(k: nat)
    ensures Wrap64(Wrap64(k) + 1) == Wrap64(k + 1)
  {
  }

  lemma {:induction false} NoncesCount(p: Params, s0: Ledger, run: seq<Step>, n: Name)
    requires NonceOf(s0, n) == 0
    ensures NonceOf(After(p, s0, run), n) == Wrap64(|Handed(p, s0, run, n)|)
  {
    if run != [] {
      var front, step := run[..|run| - 1], run[|run| - 1];
      NoncesCount(p, s0, front, n);
      if Attempt(p, After(p, s0, front), step).Commit? {
        NoncesAfter(p, After(p, s0, front), step, n);
      }
      NextWord(|Handed(p, s0, front, n)|);
    }
  }

  /**
   Over any run of opening, closing, re-opening and calling, the nonces handed to an account
   are 0, 1, 2, ... without repetition or gap, as far as a 64-bit word counts.
   */
  lemma {:induction false} NoncesInOrder(p: Params, s0: Ledger, run: seq<Step>, n: Name, i: nat)
    requires NonceOf(s0, n) == 0 && i < |Handed(p, s0, run, n)|
    ensures Handed(p, s0, run, n)[i] == Wrap64(i)
  {
    var front, step := run[..|run| - 1], run[|run| - 1];
    if i < |Handed(p, s0, front, n)| {
      NoncesInOrder(p, s0, front, n, i);
    } else {
      NoncesCount(p, s0, front, n);
      NoncesAfter(p, After(p, s0, front), step, n);
    }
  }

  /** In particular from initialisation on, for every account. */
  lemma NoncesFromInit(p: Params, token: int, run: seq<Step>, n: Name, i: nat, j: nat)
    requires i < |Handed(p, Init(p, token), run, n)| && j < |Handed(p, Init(p, token), run, n)| && i != j
    requires |Handed(p, Init(p, token), run, n)| <= U64
    ensures Handed(p, Init(p, token), run, n)[i] == i
    ensures Handed(p, Init(p, token), run, n)[i] != Handed(p, Init(p, token), run, n)[j]
  {
    hide Handed;
    NoncesInOrder(p, Init(p, token), run, n, i);
    NoncesInOrder(p, Init(p, token), run, n, j);
  }
}
