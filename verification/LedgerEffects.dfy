/**
 What each step of the ledger does, exactly: when it commits, which row, address or nonce it
 touches and by how much, what transaction it builds, and who may spend an open balance.
 Everything is stated on the step's own arguments and on the tables before and after.
 */
module LedgerEffects {
  import opened Words
  import opened Dust
  import opened Sums
  import opened Ledger
  import opened LedgerEgress
  import opened LedgerSettlement
  import opened LedgerInvariant
  import opened LedgerRuns
  import opened LedgerFees
  import opened LedgerCommit

  // ----- Deposits, withdrawals, repairs -----

  /** A deposit goes to the row it names, in whole tokens, and nowhere else. */
  lemma DepositExact(p: Params, s: Ledger, q: Int64, r: Name)
    requires Inv(p, s)
    ensures var out := Attempt(p, s, DepositingToAccount(q, r));
            && (out.Commit? <==> 0 < q && r in s.open && s.open[r].amount + q <= MAX_ASSET)
            && (out.Commit? ==>
                out.value == s.(open := s.open[r := Balance(s.open[r].amount + q, s.open[r].dust)], token := s.token + q))
  {
    hide Value, FromValue, Plus, Minus, Promise, Capacity;
  }

  /** A withdrawal takes whole tokens from its owner's row and queues exactly their transfer. */
  lemma WithdrawExact(p: Params, s: Ledger, n: Name, q: Int64, to: Option<Name>)
    requires Inv(p, s)
    ensures var out := Attempt(p, s, Withdrawing(n, q, to));
            && (out.Commit? <==> n in s.open && s.open[n].amount - MAX_ASSET <= q <= s.open[n].amount)
            && (out.Commit? ==>
                out.value == s.(open := s.open[n := Balance(s.open[n].amount - q, s.open[n].dust)],
                                outbox := s.outbox + [Pay(match to { case Some(x) => x case None => n }, q)]))
  {
    hide Value, FromValue, Plus, Minus, Promise, Capacity;
  }

  /** A queued transfer is delivered if it is positive, for somebody else, covered and accepted. */
  lemma DeliveryExact(p: Params, s: Ledger, inline: Step, to: Name, amount: int)
    requires inline.RunningInline? && inline.index < |s.outbox| && s.outbox[inline.index] == Pay(to, amount)
    ensures var out, i := Attempt(p, s, inline), inline.index;
            && (out.Commit? <==> inline.accepted && 0 < amount <= s.token && to != p.self)
            && (out.Commit? ==> out.value == s.(token := s.token - amount, outbox := s.outbox[..i] + s.outbox[i + 1..]))
  {
  }

  lemma OpenExact(p: Params, s: Ledger, n: Name)
    requires Inv(p, s)
    ensures var s' := Do(p, s, Opening(n));
            && Attempt(p, s, Opening(n)).Commit? && s' == s.(open := s'.open, nonces := s'.nonces)
            && (n in s.open ==> s' == s)
            && (n !in s.open ==> s'.open == s.open[n := Balance(0, 0)] && s'.nonces == s.nonces[n := NonceOf(s, n)])
  {
    hide Value, FromValue, Plus, Minus, Promise, Capacity;
    if n in s.nonces {
      assert s.nonces[n := s.nonces[n]] == s.nonces;
    }
  }

  /** Closing removes an empty row; the nonce stays unless it was never used. */
  lemma CloseExact(p: Params, s: Ledger, n: Name)
    requires Inv(p, s)
    ensures var out := Attempt(p, s, Closing(n));
            && (out.Commit? <==> n != p.self && n in s.open && s.open[n] == Balance(0, 0))
            && (out.Commit? ==>
                && out.value == s.(open := s.open - {n}, nonces := out.value.nonces)
                && out.value.nonces == if NonceOf(s, n) > 0 then s.nonces else s.nonces - {n})
  {
    hide Value, FromValue, Plus, Minus, Promise, Capacity;
  }

  /** A repair of an open balance changes the value of that row by exactly the amount given. */
  lemma AddOpenExact(p: Params, s: Ledger, n: Name, d: Word256, subtract: bool)
    requires Inv(p, s)
    ensures var out := Attempt(p, s, AddingOpenBalance(n, d, subtract));
            && (out.Commit? <==>
                && n in s.open
                && (if subtract then d <= Value(p.m, s.open[n]) else Value(p.m, s.open[n]) + d < Capacity(p.m)))
            && (out.Commit? ==>
                && n in out.value.open && Valid(p.m, out.value.open[n])
                && out.value == s.(open := s.open[n := out.value.open[n]])
                && Value(p.m, out.value.open[n]) == Value(p.m, s.open[n]) + if subtract then -(d as int) else d)
  {
    hide Value, FromValue, Plus, Minus, Promise, Capacity;
    if n in s.open {
      PlusExact(p.m, s.open[n], d);
      MinusExact(p.m, s.open[n], d);
    }
  }

  /** What one EVM account has is within `inevm`. */
  lemma WithinInevm(p: Params, s: Ledger, a: Address)
    requires Inv(p, s) && a in s.evm
    ensures s.evm[a] <= Value(p.m, s.inevm) < Capacity(p.m) < U256
  {
    hide Value, FromValue, Plus, Minus, Promise, Capacity;
    SumNonNegative(s.evm);
    ValidByValue(p.m, s.inevm);
    UnitsFit(p.m);
  }

  /**
   A repair of an EVM balance changes that account and `inevm` alike.  Taking out never fails
   for want of `inevm`, and what `inevm` has room for fits the account.
   */
  lemma AddEvmExact(p: Params, s: Ledger, a: Address, d: Word256, subtract: bool)
    requires Inv(p, s)
    ensures var out := Attempt(p, s, AddingEvmBalance(a, d, subtract));
            && (out.Commit? <==>
                a in s.evm && if subtract then d <= s.evm[a] else Value(p.m, s.inevm) + d < Capacity(p.m))
            && (out.Commit? ==>
                && out.value == s.(inevm := out.value.inevm, evm := out.value.evm)
                && out.value.evm.Keys == s.evm.Keys
                && (forall x :: x in s.evm ==>
                      out.value.evm[x] == s.evm[x] + if x != a then 0 else if subtract then -(d as int) else d)
                && Valid(p.m, out.value.inevm)
                && Value(p.m, out.value.inevm) == Value(p.m, s.inevm) + if subtract then -(d as int) else d)
  {
    hide Value, FromValue, Plus, Minus, Promise, Capacity;
    PlusExact(p.m, s.inevm, d);
    MinusExact(p.m, s.inevm, d);
    if a in s.evm {
      WithinInevm(p, s, a);
    }
  }

  // ----- Transactions of the contract's own -----

  /**
   A deposit for an EVM address is credited to the contract in full; the transaction built
   carries what is left after the bridge fee, at the gas price that is set.
   */
  lemma DepositBuilds(p: Params, s: Ledger, step: Step)
    requires Inv(p, s) && step.DepositingToEvm?
    ensures Build(p, s, step).Commit? <==>
              step.quantity > step.env.bridgeFee && s.open[p.self].amount + step.quantity <= MAX_ASSET
    ensures Build(p, s, step).Commit? ==>
              var (tx, s1) := Build(p, s, step).value;
              && tx.value + step.env.bridgeFee * p.m == step.quantity * p.m
              && tx.from == Reserved(p.self) && tx.special && !tx.hasChainId
              && tx.nonce == NonceOf(s, p.self) && tx.gasLimit == step.gasLimit
              && tx.maxFee == tx.maxPriorityFee == step.env.gasPrice
              && s1 == s.(open := s.open[p.self := Balance(s.open[p.self].amount + step.quantity, s.open[p.self].dust)],
                          token := s.token + step.quantity,
                          nonces := s.nonces[p.self := (NonceOf(s, p.self) as int + 1) % U64])
  {
    hide Value, FromValue, Plus, Minus, Promise, Capacity;
    if step.quantity > step.env.bridgeFee {
      Difference(step.quantity, step.env.bridgeFee, p.m);
    }
  }

  /** Who a call is from. */
  function Caller(step: Step): Sender
    requires step.Calling? || step.AdminCalling?
  {
    if step.Calling? then Reserved(step.from) else step.sender
  }

  /** Calls carry the value, gas limit and sender they were made with, at the gas price that is set. */
  lemma CallBuilds(p: Params, s: Ledger, step: Step)
    requires step.Calling? || step.AdminCalling?
    ensures Build(p, s, step).Commit? <==>
              match Caller(step) case Reserved(n) => n in s.nonces case Ordinary(a) => a in s.evm
    ensures Build(p, s, step).Commit? ==>
              var (tx, s1) := Build(p, s, step).value;
              && tx.value == step.value && tx.gasLimit == step.gasLimit && tx.maxFee == tx.maxPriorityFee == step.env.gasPrice
              && tx.from == Caller(step) && tx.special && !tx.hasChainId
              && match tx.from {
                   case Reserved(n) => tx.nonce == s.nonces[n] && s1 == s.(nonces := s.nonces[n := (s.nonces[n] as int + 1) % U64])
                   case Ordinary(_) => tx.nonce == step.evmNonce && s1 == s
                 }
  {
  }

  /** What a deposit adds to the contract's row before its transaction runs. */
  function Deposited(p: Params, step: Step, n: Name): int {
    if step.DepositingToEvm? && n == p.self then step.quantity * p.m else 0
  }

  lemma BuiltRowValues(p: Params, s: Ledger, step: Step, n: Name)
    requires Inv(p, s) && BuildsTx(step) && Build(p, s, step).Commit? && n in s.open
    ensures var s1 := Build(p, s, step).value.1;
            && s1.open.Keys == s.open.Keys && s1.inevm == s.inevm && s1.evm == s.evm && s1.outbox == s.outbox
            && Value(p.m, s1.open[n]) == Value(p.m, s.open[n]) + Deposited(p, step, n)
  {
    hide FromValue, Plus, Minus, Promise, Capacity;
    if step.DepositingToEvm? {
      DepositBuilds(p, s, step);
      Difference(s.open[p.self].amount + step.quantity, step.quantity, p.m);
    } else {
      CallBuilds(p, s, step);
    }
  }

  /**
   From version 1 on such a transaction is executed at once, with the contract as its own
   miner, and must succeed: the sender pays for all its gas and the value, the deposit stays in
   the contract's row, and every row gets what came back to it and its messages.
   */
  lemma BuiltRows(p: Params, s: Ledger, step: Step, n: Name)
    requires Inv(p, s) && EvmBehaves(p, s, step) && BuildsTx(step) && Attempt(p, s, step).Commit?
    requires step.env.version >= 1 && step.env.minerCut <= NINETY_PERCENT && n in s.open
    ensures var tx, s' := Build(p, s, step).value.0, Attempt(p, s, step).value;
            && step.out.valid && step.out.success && s'.evm == step.out.balances && s'.open.Keys == s.open.Keys
            && Value(p.m, s'.open[n])
               == Value(p.m, s.open[n]) + Deposited(p, step, n)
                  - (if tx.from == Reserved(n) then step.gasLimit * step.env.gasPrice + tx.value else 0)
                  + HeldBy(step.out.reserved, n) + CarriedTo(step.out.messages, n)
                  - (if n == p.self then Carried(step.out.messages) else 0)
  {
    hide Value, FromValue, Plus, Minus, Promise, Capacity;
    hide ProcessTx, Inv, Share, SharedFee;
    var built := Build(p, s, step).value;
    assert Inv(p, built.1) by {
      BuildKeeps(p, s, step);
      KeptInv(p, s, built.1);
    }
    BuiltRowValues(p, s, step, n);
    BuiltTx(p, s, step);
    DispatchedAtOnce(p, s, step);
    InlineAdmitted(p, step.env, step.chain, built.0, step.out, built.1);
    ProcessTxRows(p, step.env, step.chain, INLINE_RULES, p.self, built.0, None, step.out, built.1);
  }

  lemma BuiltTx(p: Params, s: Ledger, step: Step)
    requires Inv(p, s) && BuildsTx(step) && Build(p, s, step).Commit?
    ensures var tx := Build(p, s, step).value.0;
            tx.special && tx.gasLimit == step.gasLimit && tx.maxFee == tx.maxPriorityFee == step.env.gasPrice
  {
    if step.DepositingToEvm? {
      DepositBuilds(p, s, step);
    } else {
      CallBuilds(p, s, step);
    }
  }

  lemma DispatchedAtOnce(p: Params, s: Ledger, step: Step)
    requires BuildsTx(step) && step.env.version >= 1
    ensures Attempt(p, s, step) == if Build(p, s, step).Abort? then Abort
            else ProcessTx(p, step.env, step.chain, INLINE_RULES, p.self, Build(p, s, step).value.0, None, step.out, Build(p, s, step).value.1)
  {
    hide ProcessTx;
  }

  /** The contract's row after bridging in: it keeps the bridge fee and pays for the gas. */
  lemma BridgedIn(p: Params, s: Ledger, step: Step)
    requires Inv(p, s) && EvmBehaves(p, s, step) && step.DepositingToEvm? && Attempt(p, s, step).Commit?
    requires step.env.version >= 1 && step.env.minerCut <= NINETY_PERCENT
    ensures var s' := Attempt(p, s, step).value;
            && p.self in s'.open && s'.token == s.token + step.quantity
            && Value(p.m, s'.open[p.self])
               == Value(p.m, s.open[p.self]) + step.env.bridgeFee * p.m - step.gasLimit * step.env.gasPrice
                  + HeldBy(step.out.reserved, p.self) + CarriedTo(step.out.messages, p.self) - Carried(step.out.messages)
  {
    hide Value, FromValue, Plus, Minus, Promise, Capacity;
    hide ProcessTx, Attempt;
    DispatchedAtOnce(p, s, step);
    DepositBuilds(p, s, step);
    BuiltRows(p, s, step, p.self);
    BuiltToken(p, s, step);
  }

  lemma BuiltToken(p: Params, s: Ledger, step: Step)
    requires Inv(p, s) && EvmBehaves(p, s, step) && BuildsTx(step) && Attempt(p, s, step).Commit? && step.env.version >= 1
    ensures Attempt(p, s, step).value.token == Build(p, s, step).value.1.token
  {
    hide Value, FromValue, Plus, Minus, Promise, Capacity;
    hide ProcessTx;
    DispatchedAtOnce(p, s, step);
    var built := Build(p, s, step).value;
    TouchedFields(p, step.env, step.chain, INLINE_RULES, p.self, built.0, None, step.out, built.1);
  }

  // ----- Who may do what -----

  /** Transactions that the contract runs itself are their own miner and must succeed. */
  lemma InlineAdmitted(p: Params, env: Env, chain: Chain, tx: Tx, out: EvmResult, s: Ledger)
    requires ProcessTx(p, env, chain, INLINE_RULES, p.self, tx, None, out, s).Commit?
    ensures out.valid && out.success && MinerOf(p, p.self).None?
  {
    hide Ingress, Settle, ProcessMessages;
  }

  /**
   Nobody outside can push a transaction with the contract's own kind of signature, which is
   the only kind that spends an open balance, or one that could be replayed from another chain.
   */
  lemma PushAdmitted(p: Params, s: Ledger, push: Step)
    requires push.Pushing? && Attempt(p, s, push).Commit?
    ensures !push.tx.special && push.tx.hasChainId && push.out.valid
    ensures push.minPrice.Some? ==> push.env.version >= 1
    ensures push.env.version == 0 ==> push.tx.maxPriorityFee == push.tx.maxFee >= push.env.gasPrice
  {
    hide Ingress, Settle, ProcessMessages;
  }

  /** A pushed transaction commits exactly under these checks, and if the money can move. */
  lemma PushCommits(p: Params, s: Ledger, push: Step)
    requires Inv(p, s) && push.Pushing? && EvmBehaves(p, s, push) && push.env.minerCut <= NINETY_PERCENT
    ensures Attempt(p, s, push).Commit? <==>
              && !push.tx.special && push.tx.hasChainId && push.out.valid
              && (push.minPrice.Some? ==> push.env.version >= 1)
              && PriceOk(push.env, push.tx, push.minPrice)
              && MoneyMoves(p, push.env, push.chain, push.miner, push.tx, push.out, s)
  {
    hide Value, FromValue, Plus, Minus, Promise, Capacity;
    hide ProcessTx, MoneyMoves, PriceOk;
    ProcessTxCommits(p, push.env, push.chain, OUTSIDE_RULES, push.miner, push.tx, push.minPrice, push.out, s);
  }

  /** So does a queued transaction of the contract's own, which must succeed and has no other miner. */
  lemma QueuedCommits(p: Params, s: Ledger, inline: Step, tx: Tx)
    requires Inv(p, s) && EvmBehaves(p, s, inline) && inline.RunningInline? && inline.env.minerCut <= NINETY_PERCENT
    requires inline.index < |s.outbox| && s.outbox[inline.index] == Push(tx)
    ensures Attempt(p, s, inline).Commit? <==>
              && inline.out.valid && inline.out.success && PriceOk(inline.env, tx, None)
              && MoneyMoves(p, inline.env, inline.chain, p.self, tx, inline.out, s)
  {
    hide Value, FromValue, Plus, Minus, Promise, Capacity;
    hide ProcessTx, PriceOk, EgressOk, PartOk, MessagesOk, Share, SharedFee;
    var rest := s.(outbox := Without(s.outbox, inline.index));
    DropPushKeeps(p, s, inline.index);
    ProcessTxCommits(p, inline.env, inline.chain, INLINE_RULES, p.self, tx, None, inline.out, rest);
    assert MoneyMoves(p, inline.env, inline.chain, p.self, tx, inline.out, rest)
      <==> MoneyMoves(p, inline.env, inline.chain, p.self, tx, inline.out, s);
  }

  /** And so does a step that builds one, from version 1 on; before that it only queues it. */
  lemma BuiltCommits(p: Params, s: Ledger, step: Step)
    requires Inv(p, s) && EvmBehaves(p, s, step) && BuildsTx(step) && step.env.minerCut <= NINETY_PERCENT
    ensures Attempt(p, s, step).Commit? <==>
              && Build(p, s, step).Commit?
              && (step.env.version >= 1 ==>
                    && step.out.valid && step.out.success
                    && MoneyMoves(p, step.env, step.chain, p.self, Build(p, s, step).value.0, step.out, Build(p, s, step).value.1))
  {
    hide Value, FromValue, Plus, Minus, Promise, Capacity;
    hide ProcessTx, MoneyMoves, Inv;
    if Build(p, s, step).Commit? && step.env.version >= 1 {
      var built := Build(p, s, step).value;
      BuildKeeps(p, s, step);
      KeptInv(p, s, built.1);
      DispatchedAtOnce(p, s, step);
      ProcessTxCommits(p, step.env, step.chain, INLINE_RULES, p.self, built.0, None, step.out, built.1);
    }
  }

  /** The rows after a pushed transaction: the EVM's money, messages, and the miner's part. */
  lemma PushedRows(p: Params, s: Ledger, push: Step, n: Name)
    requires Inv(p, s) && push.Pushing? && EvmBehaves(p, s, push) && push.env.minerCut <= NINETY_PERCENT
    requires Attempt(p, s, push).Commit? && n in s.open
    ensures var s', part := Attempt(p, s, push).value, Share(push.env, SharedFee(push.env, push.tx, push.out.gasUsed));
            var paid := push.miner != p.self && push.miner != 0;
            && s' == s.(open := s'.open, inevm := s'.inevm, outbox := s'.outbox, evm := push.out.balances)
            && s'.open.Keys == s.open.Keys
            && Value(p.m, s'.open[n])
               == Value(p.m, s.open[n]) + HeldBy(push.out.reserved, n) + CarriedTo(push.out.messages, n)
                  + (if paid && n == push.miner then part else 0)
                  - (if n == p.self then Carried(push.out.messages) + if paid then part else 0 else 0)
  {
    hide Value, FromValue, Plus, Minus, Promise, Capacity;
    hide ProcessTx, Share, SharedFee;
    PushAdmitted(p, s, push);
    ProcessTxRows(p, push.env, push.chain, OUTSIDE_RULES, push.miner, push.tx, push.minPrice, push.out, s);
  }

  /** The rows after a queued transaction: its sender pays, and no part goes to a miner. */
  lemma QueuedRows(p: Params, s: Ledger, inline: Step, tx: Tx, n: Name)
    requires Inv(p, s) && EvmBehaves(p, s, inline) && inline.RunningInline? && inline.env.minerCut <= NINETY_PERCENT
    requires inline.index < |s.outbox| && s.outbox[inline.index] == Push(tx) && Attempt(p, s, inline).Commit? && n in s.open
    ensures var s' := Attempt(p, s, inline).value;
            && inline.out.valid && inline.out.success
            && s' == s.(open := s'.open, inevm := s'.inevm, outbox := s'.outbox, evm := inline.out.balances)
            && s'.open.Keys == s.open.Keys
            && Value(p.m, s'.open[n])
               == Value(p.m, s.open[n]) - Loan(tx, n) + HeldBy(inline.out.reserved, n) + CarriedTo(inline.out.messages, n)
                  - (if n == p.self then Carried(inline.out.messages) else 0)
  {
    hide Value, FromValue, Plus, Minus, Promise, Capacity;
    hide ProcessTx, Share, SharedFee;
    var rest := s.(outbox := Without(s.outbox, inline.index));
    DropPushKeeps(p, s, inline.index);
    InlineAdmitted(p, inline.env, inline.chain, tx, inline.out, rest);
    ProcessTxRows(p, inline.env, inline.chain, INLINE_RULES, p.self, tx, None, inline.out, rest);
  }

  // ----- Who may spend -----

  /** What the account has, an account without a row having nothing. */
  ghost function RowValue(p: Params, s: Ledger, n: Name): int {
    if n in s.open then Value(p.m, s.open[n]) else 0
  }

  /** The step is made by the account, by the administrator in its name, or repairs its row. */
  predicate ActsFor(step: Step, n: Name) {
    match step
    case Withdrawing(owner, _, _) => owner == n
    case Calling(_, _, from, _, _, _) => from == n
    case AdminCalling(_, _, sender, _, _, _, _) => sender == Reserved(n)
    case AddingOpenBalance(name, _, subtract) => name == n && subtract
    case _ => false
  }

  /** A queued transaction of the account. */
  predicate PushFrom(x: Inline, n: Name) {
    x.Push? && x.tx.from == Reserved(n)
  }

  predicate RunsPushFrom(s: Ledger, step: Step, n: Name) {
    step.RunningInline? && step.index < |s.outbox| && PushFrom(s.outbox[step.index], n)
  }

  lemma TxSpends(p: Params, env: Env, chain: Chain, rules: Rules, miner: Name, tx: Tx, minPrice: Option<nat>, out: EvmResult,
                 s: Ledger, n: Name)
    requires Inv(p, s) && EvmAssumption(s.evm, env, tx, out) && n != p.self
    requires ProcessTx(p, env, chain, rules, miner, tx, minPrice, out, s).Commit? && !(tx.special && tx.from == Reserved(n))
    ensures RowValue(p, ProcessTx(p, env, chain, rules, miner, tx, minPrice, out, s).value, n) >= RowValue(p, s, n)
  {
    hide Value, FromValue, Plus, Minus, Promise, Capacity;
    ProcessTxCorrect(p, env, chain, rules, miner, tx, minPrice, out, s);
  }

  lemma BuiltSpends(p: Params, s: Ledger, step: Step, n: Name)
    requires Inv(p, s) && EvmBehaves(p, s, step) && BuildsTx(step) && Attempt(p, s, step).Commit?
    requires n != p.self && !ActsFor(step, n)
    ensures RowValue(p, Attempt(p, s, step).value, n) >= RowValue(p, s, n)
  {
    hide Value, FromValue, Plus, Minus, Promise, Capacity;
    hide ProcessTx, Inv;
    var (tx, s1) := Build(p, s, step).value;
    if step.DepositingToEvm? {
      DepositBuilds(p, s, step);
    } else {
      CallBuilds(p, s, step);
    }
    assert RowValue(p, s1, n) == RowValue(p, s, n);
    if step.env.version >= 1 {
      BuildKeeps(p, s, step);
      KeptInv(p, s, s1);
      DispatchedAtOnce(p, s, step);
      TxSpends(p, step.env, step.chain, INLINE_RULES, p.self, tx, None, step.out, s1, n);
    }
  }

  lemma TableSpends(p: Params, s: Ledger, step: Step, n: Name)
    requires Inv(p, s) && !RunsEvm(step) && Attempt(p, s, step).Commit? && !ActsFor(step, n)
    ensures RowValue(p, Attempt(p, s, step).value, n) >= RowValue(p, s, n)
  {
    hide Value, FromValue, Plus, Minus, Promise, Capacity;
    match step {
      case DepositingToAccount(q, r) =>
        DepositExact(p, s, q, r);
        MoreTokens(p.m, s.open[r], q);
      case Withdrawing(owner, q, to) => WithdrawExact(p, s, owner, q, to);
      case Opening(owner) =>
        OpenExact(p, s, owner);
        ValidByValue(p.m, Balance(0, 0));
      case Closing(owner) =>
        CloseExact(p, s, owner);
        ValidByValue(p.m, Balance(0, 0));
      case AddingEvmBalance(a, d, subtract) => AddEvmExact(p, s, a, d, subtract);
      case AddingOpenBalance(name, d, subtract) => AddOpenExact(p, s, name, d, subtract);
    }
  }

  lemma MoreTokens(m: Unit, b: Balance, q: int)
    requires q > 0
    ensures Value(m, Balance(b.amount + q, b.dust)) >= Value(m, b)
  {
    SignOfMultiple(q, m);
    Difference(b.amount + q, q, m);
  }

  /**
   Only its owner spends an open balance: if the value of the row of n, not the contract's,
   falls in a step, the step is a withdrawal by n, a call from n or of the administrator in the
   name of n, a queued transaction whose sender is n, or a repair of n.
   */
  lemma OnlyOwnerSpends(p: Params, s: Ledger, step: Step, n: Name)
    requires Inv(p, s) && EvmBehaves(p, s, step) && n != p.self
    requires RowValue(p, Do(p, s, step), n) < RowValue(p, s, n)
    ensures Attempt(p, s, step).Commit? && (ActsFor(step, n) || RunsPushFrom(s, step, n))
  {
    hide Value, FromValue, Plus, Minus, Promise, Capacity;
    hide RowValue, Inv;
    if Attempt(p, s, step).Commit? && !ActsFor(step, n) && !RunsPushFrom(s, step, n) {
      NobodySpends(p, s, step, n);
    }
  }

  lemma NobodySpends(p: Params, s: Ledger, step: Step, n: Name)
    requires Inv(p, s) && EvmBehaves(p, s, step) && n != p.self && Attempt(p, s, step).Commit?
    requires !ActsFor(step, n) && !RunsPushFrom(s, step, n)
    ensures RowValue(p, Attempt(p, s, step).value, n) >= RowValue(p, s, n)
  {
    hide Value, FromValue, Plus, Minus, Promise, Capacity;
    hide ProcessTx, Inv;
    if BuildsTx(step) {
      BuiltSpends(p, s, step, n);
    } else if step.Pushing? {
      PushAdmitted(p, s, step);
      TxSpends(p, step.env, step.chain, OUTSIDE_RULES, step.miner, step.tx, step.minPrice, step.out, s, n);
    } else if step.RunningInline? {
      InlineSpends(p, s, step, n);
    } else {
      TableSpends(p, s, step, n);
    }
  }

  lemma InlineSpends(p: Params, s: Ledger, inline: Step, n: Name)
    requires Inv(p, s) && EvmBehaves(p, s, inline) && n != p.self && Attempt(p, s, inline).Commit?
    requires inline.RunningInline? && !RunsPushFrom(s, inline, n)
    ensures RowValue(p, Attempt(p, s, inline).value, n) >= RowValue(p, s, n)
  {
    hide Value, FromValue, Plus, Minus, Promise, Capacity;
    hide ProcessTx;
    if s.outbox[inline.index].Push? {
      DropPushKeeps(p, s, inline.index);
      TxSpends(p, inline.env, inline.chain, INLINE_RULES, p.self, s.outbox[inline.index].tx, None, inline.out,
               s.(outbox := Without(s.outbox, inline.index)), n);
    }
  }

  // ----- Spending over runs -----

  ghost predicate NoPushFrom(outbox: seq<Inline>, n: Name) {
    forall i :: 0 <= i < |outbox| ==> !PushFrom(outbox[i], n)
  }

  /** Executing a transaction queues at most a payment. */
  lemma TxQueuesNoPush(p: Params, env: Env, chain: Chain, rules: Rules, miner: Name, tx: Tx, minPrice: Option<nat>, out: EvmResult,
                       s: Ledger, n: Name)
    requires Inv(p, s) && EvmAssumption(s.evm, env, tx, out) && NoPushFrom(s.outbox, n)
    requires ProcessTx(p, env, chain, rules, miner, tx, minPrice, out, s).Commit?
    ensures NoPushFrom(ProcessTx(p, env, chain, rules, miner, tx, minPrice, out, s).value.outbox, n)
  {
    hide Value, FromValue, Plus, Minus, Promise, Capacity;
    hide ExecuteTx, ProcessMessages;
    var before, after := s.outbox, ProcessTx(p, env, chain, rules, miner, tx, minPrice, out, s).value.outbox;
    OnePaymentExact(p, env, chain, rules, miner, tx, out, s);
    forall i | 0 <= i < |after|
      ensures !PushFrom(after[i], n)
    {
      if i < |before| {
        assert after[i] == after[..|before|][i] == before[i];
      }
    }
  }

  lemma BuiltQueuesNoPush(p: Params, s: Ledger, step: Step, n: Name)
    requires Inv(p, s) && EvmBehaves(p, s, step) && BuildsTx(step) && Attempt(p, s, step).Commit?
    requires n != p.self && !ActsFor(step, n) && NoPushFrom(s.outbox, n)
    ensures NoPushFrom(Attempt(p, s, step).value.outbox, n)
  {
    hide Value, FromValue, Plus, Minus, Promise, Capacity;
    hide ProcessTx, Inv;
    var (tx, s1) := Build(p, s, step).value;
    if step.DepositingToEvm? {
      DepositBuilds(p, s, step);
    } else {
      CallBuilds(p, s, step);
    }
    if step.env.version >= 1 {
      BuildKeeps(p, s, step);
      KeptInv(p, s, s1);
      DispatchedAtOnce(p, s, step);
      TxQueuesNoPush(p, step.env, step.chain, INLINE_RULES, p.self, tx, None, step.out, s1, n);
    } else {
      assert Attempt(p, s, step).value.outbox == s.outbox + [Push(tx)];
    }
  }

  /** Transactions of an account are queued only by steps made in its name. */
  lemma QueuesNoPush(p: Params, s: Ledger, step: Step, n: Name)
    requires Inv(p, s) && EvmBehaves(p, s, step) && n != p.self && Attempt(p, s, step).Commit?
    requires !ActsFor(step, n) && NoPushFrom(s.outbox, n)
    ensures NoPushFrom(Attempt(p, s, step).value.outbox, n)
  {
    hide Value, FromValue, Plus, Minus, Promise, Capacity;
    hide ProcessTx, Inv;
    if BuildsTx(step) {
      BuiltQueuesNoPush(p, s, step, n);
    } else if step.Pushing? {
      TxQueuesNoPush(p, step.env, step.chain, OUTSIDE_RULES, step.miner, step.tx, step.minPrice, step.out, s, n);
    } else if step.RunningInline? {
      InlineQueuesNoPush(p, s, step, n);
    }
  }

  lemma InlineQueuesNoPush(p: Params, s: Ledger, inline: Step, n: Name)
    requires Inv(p, s) && EvmBehaves(p, s, inline) && inline.RunningInline? && Attempt(p, s, inline).Commit?
    requires NoPushFrom(s.outbox, n)
    ensures NoPushFrom(Attempt(p, s, inline).value.outbox, n)
  {
    hide Value, FromValue, Plus, Minus, Promise, Capacity;
    hide ProcessTx;
    var rest := s.(outbox := Without(s.outbox, inline.index));
    assert NoPushFrom(rest.outbox, n);
    if s.outbox[inline.index].Push? {
      DropPushKeeps(p, s, inline.index);
      TxQueuesNoPush(p, inline.env, inline.chain, INLINE_RULES, p.self, s.outbox[inline.index].tx, None, inline.out, rest, n);
    }
  }

  lemma BehavesBefore(p: Params, s: Ledger, run: seq<Step>)
    requires EvmBehavesIn(p, s, run) && run != []
    ensures EvmBehavesIn(p, s, run[..|run| - 1]) && EvmBehaves(p, After(p, s, run[..|run| - 1]), run[|run| - 1])
  {
    hide Attempt, EvmBehaves;
    var front := run[..|run| - 1];
    forall i | 0 <= i < |front|
      ensures EvmBehaves(p, After(p, s, front[..i]), front[i])
    {
      assert front[..i] == run[..i] && front[i] == run[i];
    }
  }

  /**
   Over any run that starts without a queued transaction of n: if no step is made by n, in its
   name, or as a repair of it, its row never loses value.
   */
  lemma {:induction false} NobodyElseSpends(p: Params, s: Ledger, run: seq<Step>, n: Name)
    requires Inv(p, s) && EvmBehavesIn(p, s, run) && n != p.self && NoPushFrom(s.outbox, n)
    requires forall i :: 0 <= i < |run| ==> !ActsFor(run[i], n)
    ensures RowValue(p, After(p, s, run), n) >= RowValue(p, s, n)
    ensures Inv(p, After(p, s, run)) && NoPushFrom(After(p, s, run).outbox, n)
    decreases |run|
  {
    hide Attempt, EvmBehaves, EvmBehavesIn, RowValue, Inv, Kept, ActsFor;
    if run != [] {
      var front, step := run[..|run| - 1], run[|run| - 1];
      BehavesBefore(p, s, run);
      NobodyElseSpends(p, s, front, n);
      StepByOthers(p, After(p, s, front), step, n);
    }
  }

  lemma StepByOthers(p: Params, s: Ledger, step: Step, n: Name)
    requires Inv(p, s) && EvmBehaves(p, s, step) && n != p.self && NoPushFrom(s.outbox, n) && !ActsFor(step, n)
    ensures RowValue(p, Do(p, s, step), n) >= RowValue(p, s, n)
    ensures Inv(p, Do(p, s, step)) && NoPushFrom(Do(p, s, step).outbox, n)
  {
    hide Attempt, EvmBehaves, RowValue, Inv, ActsFor;
    DoKeeps(p, s, step);
    if Attempt(p, s, step).Commit? {
      NobodySpends(p, s, step, n);
      QueuesNoPush(p, s, step, n);
    }
  }
}
