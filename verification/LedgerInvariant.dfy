/**
 What every step of the ledger keeps: rows are well formed, the contract's own row is open,
 every open account has a nonce, EVM balances are covered by `inevm`, and what the contract
 holds and what it owes change together.
 */
module LedgerInvariant {
  import opened Words
  import opened Dust
  import opened Sums
  import opened Ledger
  import opened LedgerEgress
  import opened LedgerSettlement

  /** Everything the contract owes: open balances, EVM balances, queued transfers. */
  ghost function Owed(p: Params, s: Ledger): int {
    Total(p.m, s.open) + Value(p.m, s.inevm) + Promised(p.m, s.outbox)
  }

  /** Tokens held less tokens owed, in wei. */
  ghost function Surplus(p: Params, s: Ledger): int {
    s.token * p.m - Owed(p, s)
  }

  /** What `inevm` counts beyond the balances of ordinary EVM accounts. */
  ghost function Slack(p: Params, s: Ledger): int {
    Value(p.m, s.inevm) - Sum(s.evm)
  }

  ghost predicate Inv(p: Params, s: Ledger) {
    && RowsValid(p.m, s.open) && p.self in s.open
    && s.open.Keys <= s.nonces.Keys
    && Valid(p.m, s.inevm)
    && Slack(p, s) >= 0
  }

  /** A step keeps the invariant and changes surplus and slack by the given amounts. */
  ghost predicate Kept(p: Params, s: Ledger, s': Ledger, shift: int, burned: int) {
    Inv(p, s') && Surplus(p, s') == Surplus(p, s) + shift && Slack(p, s') == Slack(p, s) + burned
  }

  // ----- What is relied upon -----

  function SenderBalance(evm: map<Address, Word256>, tx: Tx): nat {
    if FromReserved(tx) then Lent(tx)
    else if tx.from.Ordinary? && tx.from.address in evm then evm[tx.from.address] else 0
  }

  ghost predicate Distinct(rs: seq<ReservedObject>) {
    forall i, j :: 0 <= i < j < |rs| ==> rs[i].name != rs[j].name
  }

  /**
   What is relied upon in transaction validation and in the EVM.  Validation passes only if the
   sender can pay for all the gas at the highest fee, computed without loss, and if the fees
   are in order.  Execution creates no money, uses no more gas than the limit, and has one
   object for each reserved address it touches.
   */
  ghost predicate EvmAssumption(evm: map<Address, Word256>, env: Env, tx: Tx, out: EvmResult) {
    && env.version <= 2
    && Distinct(out.reserved)
    && (out.valid ==>
          && tx.gasLimit * tx.maxFee + tx.value <= SenderBalance(evm, tx) < U256
          && tx.maxPriorityFee <= tx.maxFee
          && (env.version >= 1 ==> env.gasPrice <= tx.maxFee)
          && out.gasUsed <= tx.gasLimit
          && Sum(out.balances) + Held(out.reserved) <= Sum(evm) + Lent(tx))
  }

  /** What the EVM destroyed. */
  ghost function Burned(evm: map<Address, Word256>, tx: Tx, out: EvmResult): int {
    Sum(evm) + Lent(tx) - Sum(out.balances) - Held(out.reserved)
  }

  // ----- Executing transactions -----

  lemma IngressMoves(p: Params, s: Ledger, tx: Tx)
    requires Inv(p, s) && Ingress(p, s, tx).Commit?
    ensures var s' := Ingress(p, s, tx).value;
            && s' == s.(open := s'.open, inevm := s'.inevm)
            && RowsValid(p.m, s'.open) && s'.open.Keys == s.open.Keys && Valid(p.m, s'.inevm)
            && (forall n :: n in s.open ==> Value(p.m, s'.open[n]) == Value(p.m, s.open[n]) - LentBy(tx, n))
            && Total(p.m, s'.open) == Total(p.m, s.open) - Lent(tx)
            && Value(p.m, s'.inevm) == Value(p.m, s.inevm) + Lent(tx)
  {
    hide Value, FromValue, Plus, Minus, Promise, Capacity;
    if FromReserved(tx) {
      DebitMoves(p, s.open, tx.from.name, Cost(tx));
      PlusExact(p.m, s.inevm, Cost(tx));
    }
  }

  function LentBy(tx: Tx, n: Name): nat {
    if FromReserved(tx) && tx.from.name == n then Cost(tx) else 0
  }

  /** What a transaction adds to the row of n, from ingress to bridge messages. */
  function TxGain(p: Params, env: Env, miner: Name, tx: Tx, out: EvmResult, n: Name): int {
    RowGain(p, out.reserved, MinerOf(p, miner), PortionPaid(env, MinerOf(p, miner), tx, out.gasUsed), n)
    + MessageGain(p, out.messages, n) - LentBy(tx, n)
  }

  lemma ExecuteTxCorrect(p: Params, env: Env, chain: Chain, rules: Rules, miner: Name, tx: Tx, out: EvmResult, s: Ledger, s1: Ledger)
    requires Inv(p, s) && EvmAssumption(s.evm, env, tx, out)
    requires ExecuteTx(p, env, chain, rules, miner, tx, out, s).Commit? && Ingress(p, s, tx) == Commit(s1)
    ensures Settled(p, MinerOf(p, miner), PortionPaid(env, MinerOf(p, miner), tx, out.gasUsed), out.reserved, s1,
                    ExecuteTx(p, env, chain, rules, miner, tx, out, s).value)
    ensures out.valid
  {
    hide Value, FromValue, Plus, Minus, Promise, Capacity;
    IngressMoves(p, s, tx);
    SumNonNegative(out.balances);
    SettleCorrect(p, env, chain, MinerOf(p, miner), tx, out, s1);
  }

  /** Row by row, in total, and inside the EVM: the exact effect of a transaction. */
  lemma ProcessTxCorrect(p: Params, env: Env, chain: Chain, rules: Rules, miner: Name, tx: Tx, minPrice: Option<nat>,
                         out: EvmResult, s: Ledger)
    requires Inv(p, s) && EvmAssumption(s.evm, env, tx, out)
    requires ProcessTx(p, env, chain, rules, miner, tx, minPrice, out, s).Commit?
    ensures var s' := ProcessTx(p, env, chain, rules, miner, tx, minPrice, out, s).value;
            && Kept(p, s, s', 0, Burned(s.evm, tx, out)) && Burned(s.evm, tx, out) >= 0
            && s'.nonces == s.nonces && s'.token == s.token && s'.open.Keys == s.open.Keys
            && (forall n :: n in s.open ==> Value(p.m, s'.open[n]) == Value(p.m, s.open[n]) + TxGain(p, env, miner, tx, out, n))
  {
    hide Value, FromValue, Plus, Minus, Promise, Capacity;
    hide Kept;
    var s1 := Ingress(p, s, tx).value;
    IngressMoves(p, s, tx);
    ExecuteTxCorrect(p, env, chain, rules, miner, tx, out, s, s1);
    var s2 := ExecuteTx(p, env, chain, rules, miner, tx, out, s).value;
    ProcessMessagesCorrect(p, chain, s2.open, out.messages);
    BooksAfterTx(p, env, tx, out, s, s2, ProcessTx(p, env, chain, rules, miner, tx, minPrice, out, s).value);
  }

  /** Lending, settlement and messages taken together leave the books balanced. */
  lemma BooksAfterTx(p: Params, env: Env, tx: Tx, out: EvmResult, s: Ledger, s2: Ledger, s': Ledger)
    requires Inv(p, s) && EvmAssumption(s.evm, env, tx, out) && out.valid
    requires s2.nonces == s.nonces && s2.token == s.token && s2.open.Keys == s.open.Keys && Valid(p.m, s2.inevm)
    requires Value(p.m, s2.inevm) == Value(p.m, s.inevm) + Lent(tx) - Held(out.reserved)
    requires Total(p.m, s2.open) + Promised(p.m, s2.outbox)
          == Total(p.m, s.open) + Promised(p.m, s.outbox) + Held(out.reserved) - Lent(tx)
    requires RowsValid(p.m, s'.open) && s'.open.Keys == s2.open.Keys && Total(p.m, s'.open) == Total(p.m, s2.open)
    requires s' == s2.(open := s'.open, evm := out.balances)
    ensures Kept(p, s, s', 0, Burned(s.evm, tx, out)) && Burned(s.evm, tx, out) >= 0
  {
    hide Value, FromValue, Plus, Minus, Promise, Capacity;
    hide Total, Promised;
  }

  /** A bounded nonce table with one more step taken in it. */
  lemma TakeNonceKeeps(p: Params, s: Ledger, owner: Name)
    requires Inv(p, s) && TakeNonce(s, owner).Commit?
    ensures Kept(p, s, TakeNonce(s, owner).value.1, 0, 0)
  {
    hide Value, FromValue, Plus, Minus, Promise, Capacity;
  }

  lemma QueuePushKeeps(p: Params, s: Ledger, tx: Tx)
    requires Inv(p, s)
    ensures Kept(p, s, s.(outbox := s.outbox + [Push(tx)]), 0, 0)
  {
    hide Value, FromValue, Plus, Minus, Capacity;
    PromisedAppend(p.m, s.outbox, Push(tx));
  }

  /** What a dispatched transaction burns: nothing before version 1, when it is only queued. */
  ghost function DispatchBurned(env: Env, evm: map<Address, Word256>, tx: Tx, out: EvmResult): int {
    if env.version >= 1 then Burned(evm, tx, out) else 0
  }

  lemma DispatchKeeps(p: Params, env: Env, chain: Chain, tx: Tx, out: EvmResult, s: Ledger)
    requires Inv(p, s) && (env.version >= 1 ==> EvmAssumption(s.evm, env, tx, out))
    requires Dispatch(p, env, chain, tx, out, s).Commit?
    ensures Kept(p, s, Dispatch(p, env, chain, tx, out, s).value, 0, DispatchBurned(env, s.evm, tx, out))
    ensures DispatchBurned(env, s.evm, tx, out) >= 0
  {
    hide Value, FromValue, Plus, Minus, Promise, Capacity;
    hide ProcessTx;
    if env.version >= 1 {
      ProcessTxCorrect(p, env, chain, INLINE_RULES, p.self, tx, None, out, s);
    } else {
      QueuePushKeeps(p, s, tx);
    }
  }

  // ----- The other actions -----

  lemma OpenKeeps(p: Params, s: Ledger, owner: Name)
    requires Inv(p, s)
    ensures Kept(p, s, Open(s, owner), 0, 0)
  {
    if owner !in s.open {
      TotalPut(p.m, s.open, owner, Balance(0, 0));
    }
  }

  /** Closing never fails in its lookup of the nonce. */
  lemma CloseKeeps(p: Params, s: Ledger, owner: Name)
    requires Inv(p, s)
    ensures Close(p, s, owner).Commit? <==> owner != p.self && owner in s.open && s.open[owner].IsZero()
    ensures Close(p, s, owner).Commit? ==> Kept(p, s, Close(p, s, owner).value, 0, 0)
  {
    hide Value, FromValue, Plus, Minus, Promise, Capacity;
    if owner in s.open {
      TotalRemove(p.m, s.open, owner);
      ValidByValue(p.m, s.open[owner]);
    }
  }

  lemma DepositToAccountKeeps(p: Params, s: Ledger, quantity: Int64, receiver: Name)
    requires Inv(p, s) && DepositToAccount(s, quantity, receiver).Commit?
    ensures Kept(p, s, DepositToAccount(s, quantity, receiver).value, 0, 0)
  {
    hide Value, FromValue, Plus, Minus, Promise, Capacity;
    CreditAssetMoves(p.m, s.open, receiver, quantity);
    Difference(s.token + quantity, quantity, p.m);
  }

  lemma WithdrawKeeps(p: Params, s: Ledger, owner: Name, quantity: Int64, to: Option<Name>)
    requires Inv(p, s) && Withdraw(s, owner, quantity, to).Commit?
    ensures Kept(p, s, Withdraw(s, owner, quantity, to).value, 0, 0)
  {
    hide Value, FromValue, Plus, Minus, Promise, Capacity;
    hide Kept, Surplus, Total, Promised;
    var pay := Pay(if to.Some? then to.value else owner, quantity);
    CreditAssetMoves(p.m, s.open, owner, -(quantity as int));
    PromiseNegated(p.m, pay);
    PromisedAppend(p.m, s.outbox, pay);
    FromRowToOutbox(p, s, Withdraw(s, owner, quantity, to).value, owner, Promise(p.m, pay));
  }

  /** What leaves a row and is promised instead leaves the books balanced. */
  lemma FromRowToOutbox(p: Params, s: Ledger, s': Ledger, owner: Name, x: int)
    requires Inv(p, s) && s' == s.(open := s'.open, outbox := s'.outbox)
    requires RowMoved(p.m, s.open, s'.open, owner, -(x as int)) && Promised(p.m, s'.outbox) == Promised(p.m, s.outbox) + x
    ensures Kept(p, s, s', 0, 0)
  {
    hide Value, FromValue, Plus, Minus, Promise, Capacity;
    hide Total, Promised;
  }

  lemma PromiseNegated(m: Unit, pay: Inline)
    requires pay.Pay?
    ensures -(pay.amount as int) * m == -Promise(m, pay)
  {
  }

  lemma {:induction false} PromisedWithout(m: Unit, outbox: seq<Inline>, i: nat)
    requires i < |outbox|
    ensures Promised(m, Without(outbox, i)) == Promised(m, outbox) - Promise(m, outbox[i])
    decreases |outbox|
  {
    var n := |outbox|;
    if i == n - 1 {
      assert Without(outbox, i) == outbox[..n - 1];
    } else {
      var rest := Without(outbox, i);
      assert rest[..n - 2] == Without(outbox[..n - 1], i);
      assert rest[n - 2] == outbox[n - 1];
      PromisedWithout(m, outbox[..n - 1], i);
    }
  }

  lemma PayKeeps(p: Params, s: Ledger, i: nat, amount: int)
    requires Inv(p, s) && i < |s.outbox| && s.outbox[i].Pay? && s.outbox[i].amount == amount
    ensures Kept(p, s, s.(outbox := Without(s.outbox, i), token := s.token - amount), 0, 0)
  {
    var s' := s.(outbox := Without(s.outbox, i), token := s.token - amount);
    assert Owed(p, s') == Owed(p, s) - Promise(p.m, s.outbox[i]) by {
      PromisedWithout(p.m, s.outbox, i);
    }
    Difference(s.token, amount, p.m);
  }

  lemma Difference(a: int, b: int, m: int)
    ensures (a - b) * m == a * m - b * m
  {
  }

  lemma DropPushKeeps(p: Params, s: Ledger, i: nat)
    requires Inv(p, s) && i < |s.outbox| && s.outbox[i].Push?
    ensures Kept(p, s, s.(outbox := Without(s.outbox, i)), 0, 0)
  {
    hide Value, FromValue, Plus, Minus, Capacity;
    PromisedWithout(p.m, s.outbox, i);
  }

  lemma AddEvmBalanceShifts(p: Params, s: Ledger, a: Address, d: Word256, subtract: bool)
    requires Inv(p, s) && AddEvmBalance(p, s, a, d, subtract).Commit?
    ensures Kept(p, s, AddEvmBalance(p, s, a, d, subtract).value, if subtract then d else -(d as int), 0)
  {
    hide Value, FromValue, Plus, Minus, Promise, Capacity;
    PlusExact(p.m, s.inevm, d);
    MinusExact(p.m, s.inevm, d);
    SumPut(s.evm, a, if subtract then s.evm[a] - d else s.evm[a] + d);
  }

  lemma AddOpenBalanceShifts(p: Params, s: Ledger, n: Name, d: Word256, subtract: bool)
    requires Inv(p, s) && AddOpenBalance(p, s, n, d, subtract).Commit?
    ensures Kept(p, s, AddOpenBalance(p, s, n, d, subtract).value, if subtract then d else -(d as int), 0)
  {
    hide Value, FromValue, Plus, Minus, Promise, Capacity;
    if subtract {
      DebitMoves(p, s.open, n, d);
    } else {
      CreditMoves(p, s.open, n, d);
    }
  }
}
