/**
 The contract as it runs (src/actions.cpp, src/admin_actions.cpp): rows of machine words
 changed in place through `balance_with_dust`, the egress and message loops, and the chain's
 answer to a failed check, which is to undo the whole transaction.

 Rows are objects; `State` reads off the ledger they stand for, and every method is proved to
 do to it what the function of module Ledger does.  A result of false is an abort.
 */
module Contract {
  import opened Words
  import opened Dust
  import opened Sums
  import opened Ledger
  import opened LedgerEgress
  import opened LedgerInvariant
  import opened LedgerRuns
  import opened LedgerHistory

  /** What has failed on a prefix fails on the whole. */
  lemma {:induction false} EgressFailsEarly(p: Params, chain: Chain, portion: Option<nat>, e: Egress, rs: seq<ReservedObject>, i: nat)
    requires i <= |rs| && EgressAll(p, chain, portion, e, rs[..i]).Abort?
    ensures EgressAll(p, chain, portion, e, rs).Abort?
    decreases |rs|
  {
    if i == |rs| {
      assert rs[..i] == rs;
    } else {
      assert rs[..|rs| - 1][..i] == rs[..i];
      EgressFailsEarly(p, chain, portion, e, rs[..|rs| - 1], i);
    }
  }

  lemma {:induction false} DeliveryFailsEarly(p: Params, chain: Chain, d: Delivery, msgs: seq<BridgeMsg>, i: nat)
    requires i <= |msgs| && DeliverAll(p, chain, d, msgs[..i]).Abort?
    ensures DeliverAll(p, chain, d, msgs).Abort?
    decreases |msgs|
  {
    if i == |msgs| {
      assert msgs[..i] == msgs;
    } else {
      assert msgs[..|msgs| - 1][..i] == msgs[..i];
      DeliveryFailsEarly(p, chain, d, msgs[..|msgs| - 1], i);
    }
  }

  lemma {:induction false} FailsEarly(p: Params, s: Ledger, t: Transaction, i: nat)
    requires i <= |t| && !AllCommit(p, s, t[..i])
    ensures !AllCommit(p, s, t)
    decreases |t|
  {
    hide Attempt;
    if i == |t| {
      assert t[..i] == t;
    } else {
      assert t[..|t| - 1][..i] == t[..i];
      FailsEarly(p, s, t[..|t| - 1], i);
    }
  }

  class EvmContract {
    const p: Params
    const precision: nat
    const inevm: BalanceWithDust
    var open: map<Name, BalanceWithDust>
    var nonces: map<Name, Word64>
    var token: int
    var outbox: seq<Inline>
    var evm: map<Address, Word256>

    ghost function Repr(): set<object>
      reads this`open
    {
      {this, inevm} + open.Values
    }

    /** A row in the token's symbol with an amount and dust in range. */
    ghost predicate RowOk(b: BalanceWithDust)
      reads b
    {
      b.hasSymbol && b.precision == precision && Dust.Valid(p.m, b.Contents())
    }

    /** Every account has a row of its own, and all rows are counted in the token's unit. */
    ghost predicate Valid()
      reads this`open, inevm, open.Values
    {
      && precision <= EVM_PRECISION && p.m == UnitOf(precision)
      && RowOk(inevm)
      && (forall n :: n in open ==> RowOk(open[n]) && open[n] != inevm)
      && (forall n, k :: n in open && k in open && n != k ==> open[n] != open[k])
    }

    function Rows(): map<Name, Balance>
      reads this`open, open.Values
    {
      map n | n in open :: open[n].Contents()
    }

    /** The ledger that the tables stand for. */
    function State(): Ledger
      reads this, inevm, open.Values
    {
      Ledger(Rows(), nonces, inevm.Contents(), token, outbox, evm)
    }

    /** The outcome of a method is that of the ledger function. */
    ghost predicate Meets(ok: bool, r: Outcome<Ledger>)
      reads this, Repr()
    {
      (ok <==> r.Commit?) && (ok ==> Valid() && r.value == State())
    }

    /** `init`, on a contract account that holds some tokens already. */
    constructor (self: Name, precision: nat, token: int)
      requires precision <= EVM_PRECISION
      ensures Valid() && p == Params(self, UnitOf(precision)) && State() == Init(p, token)
      ensures fresh(Repr())
    {
      p, this.precision, this.token := Params(self, UnitOf(precision)), precision, token;
      inevm := new BalanceWithDust(true, precision);
      open, nonces, outbox, evm := map[], map[], [], map[];
      new;
      hide Plus, Minus, UnitOf;
      assert Valid() && Rows() == map[];
      OpenInternalBalance(self);
    }

    // ----- Rows -----

    method CreditRow(n: Name, x: Word256) returns (ok: bool)
      requires Valid()
      modifies open.Values
      ensures ok <==> Credit(p, old(Rows()), n, x).Commit?
      ensures ok ==> Valid() && Credit(p, old(Rows()), n, x) == Commit(Rows())
      ensures inevm.Contents() == old(inevm.Contents())
    {
      hide Plus, Minus, UnitOf;
      if n !in open {
        return false;
      }
      ok := open[n].AddAssign(x);
      assert ok ==> Rows() == old(Rows())[n := open[n].Contents()];
    }

    method DebitRow(n: Name, x: Word256) returns (ok: bool)
      requires Valid()
      modifies open.Values
      ensures ok <==> Debit(p, old(Rows()), n, x).Commit?
      ensures ok ==> Valid() && Debit(p, old(Rows()), n, x) == Commit(Rows())
      ensures inevm.Contents() == old(inevm.Contents())
    {
      hide Plus, Minus, UnitOf;
      if n !in open {
        return false;
      }
      ok := open[n].SubAssign(x);
      assert ok ==> Rows() == old(Rows())[n := open[n].Contents()];
    }

    method CreditAssetRow(n: Name, q: int) returns (ok: bool)
      requires Valid() && -U63 <= q <= U63 && (q < 0 && n in open ==> 0 <= open[n].amount + q)
      modifies open.Values
      ensures ok <==> CreditAsset(old(Rows()), n, q).Commit?
      ensures ok ==> Valid() && CreditAsset(old(Rows()), n, q) == Commit(Rows())
      ensures inevm.Contents() == old(inevm.Contents())
    {
      hide Plus, Minus, UnitOf;
      if n !in open {
        return false;
      }
      ok := open[n].AddAsset(q);
      assert ok ==> Rows() == old(Rows())[n := open[n].Contents()];
    }

    method CreditInevm(x: Word256) returns (ok: bool)
      requires Valid()
      modifies inevm
      ensures ok <==> Plus(p.m, old(inevm.Contents()), x).Commit?
      ensures ok ==> Valid() && Rows() == old(Rows()) && Plus(p.m, old(inevm.Contents()), x) == Commit(inevm.Contents())
    {
      hide Plus, Minus, UnitOf;
      ok := inevm.AddAssign(x);
    }

    method DebitInevm(x: Word256) returns (ok: bool)
      requires Valid()
      modifies inevm
      ensures ok <==> Minus(p.m, old(inevm.Contents()), x).Commit?
      ensures ok ==> Valid() && Rows() == old(Rows()) && Minus(p.m, old(inevm.Contents()), x) == Commit(inevm.Contents())
    {
      hide Plus, Minus, UnitOf;
      ok := inevm.SubAssign(x);
    }

    /** A new row, empty. */
    method AddRow(n: Name)
      requires Valid() && n !in open
      modifies this`open
      ensures Valid() && Rows() == old(Rows())[n := Balance(0, 0)]
      ensures fresh(Repr() - old(Repr()))
    {
      hide Plus, Minus, UnitOf;
      var row := new BalanceWithDust(true, precision);
      assert Dust.Valid(p.m, row.Contents());
      open := open[n := row];
    }

    method RemoveRow(n: Name)
      requires Valid() && n in open
      modifies this`open
      ensures Valid() && Rows() == old(Rows()) - {n} && Repr() <= old(Repr())
    {
      hide Plus, Minus, UnitOf;
      open := open - {n};
    }

    // ----- Opening, closing, nonces -----

    method OpenInternalBalance(owner: Name)
      requires Valid()
      modifies this`open, this`nonces
      ensures Valid() && State() == Open(old(State()), owner)
      ensures fresh(Repr() - old(Repr()))
    {
      hide Plus, Minus, UnitOf, Valid;
      if owner !in open {
        AddRow(owner);
      }
      if owner !in nonces {
        nonces := nonces[owner := 0];
      }
    }

    method CloseBalance(owner: Name) returns (ok: bool)
      requires Valid()
      modifies this`open, this`nonces
      ensures Meets(ok, Close(p, old(State()), owner)) && Repr() <= old(Repr())
    {
      hide Plus, Minus, UnitOf, Valid;
      if owner == p.self || owner !in open || !open[owner].Contents().IsZero() {
        return false;
      }
      RemoveRow(owner);
      if owner !in nonces {
        return false;
      }
      if nonces[owner] == 0 {
        nonces := nonces - {owner};
      }
      return true;
    }

    method GetAndIncrementNonce(owner: Name) returns (r: Outcome<Word64>)
      requires Valid()
      modifies this`nonces
      ensures Valid()
      ensures r.Commit? <==> TakeNonce(old(State()), owner).Commit?
      ensures r.Commit? ==> TakeNonce(old(State()), owner) == Commit((r.value, State()))
    {
      hide Plus, Minus, UnitOf, Valid;
      if owner !in nonces {
        return Abort;
      }
      r := Commit(nonces[owner]);
      nonces := nonces[owner := Wrap64(nonces[owner] as int + 1)];
    }

    // ----- Executing a transaction -----

    /** What is lent to a reserved sender. */
    method LendToSender(tx: Tx) returns (ok: bool)
      requires Valid()
      modifies inevm, open.Values
      ensures Meets(ok, Ingress(p, old(State()), tx))
    {
      hide Plus, Minus, UnitOf, Valid;
      if !FromReserved(tx) {
        return true;
      }
      if Cost(tx) >= U256 - 1 {
        return false;
      }
      ok := DebitRow(tx.from.name, Cost(tx));
      if ok {
        ok := CreditInevm(Cost(tx));
      }
    }

    /** The loop over reserved objects. */
    method EgressLoop(chain: Chain, portion: Option<Word256>, rs: seq<ReservedObject>)
      returns (ok: bool, total: Word256, deducted: bool)
      requires Valid()
      modifies open.Values, this`outbox
      ensures var r := EgressAll(p, chain, portion, Egress(old(Rows()), old(outbox), 0, false, false), rs);
              && (ok <==> r.Commit?)
              && (ok ==> Valid() && r.value == Egress(Rows(), outbox, total, deducted, r.value.sent))
      ensures inevm.Contents() == old(inevm.Contents())
    {
      hide Plus, Minus, UnitOf, Valid;
      ghost var start := Egress(Rows(), outbox, 0, false, false);
      total, deducted := 0, false;
      var sent := false;
      for i := 0 to |rs|
        invariant Valid()
        invariant inevm.Contents() == old(inevm.Contents())
        invariant EgressAll(p, chain, portion, start, rs[..i]) == Commit(Egress(Rows(), outbox, total, deducted, sent))
      {
        assert rs[..i + 1][..i] == rs[..i];
        ok, total, deducted, sent := EgressObject(chain, portion, rs[i], total, deducted, sent);
        if !ok {
          EgressFailsEarly(p, chain, portion, start, rs, i + 1);
          return;
        }
      }
      assert rs[..|rs|] == rs;
      return true, total, deducted;
    }

    /** One turn of the loop, on rows and outbox in place. */
    method EgressObject(chain: Chain, portion: Option<Word256>, r: ReservedObject, total0: Word256, deducted0: bool, sent0: bool)
      returns (ok: bool, total: Word256, deducted: bool, sent: bool)
      requires Valid()
      modifies open.Values, this`outbox
      ensures var next := EgressOne(p, chain, portion, Egress(old(Rows()), old(outbox), total0, deducted0, sent0), r);
              && (ok <==> next.Commit?)
              && (ok ==> Valid() && next.value == Egress(Rows(), outbox, total, deducted, sent))
      ensures inevm.Contents() == old(inevm.Contents())
    {
      hide Plus, Minus, UnitOf, Valid;
      total, deducted, sent := total0, deducted0, sent0;
      if r.hasCode || r.name == 0 {
        return false, total, deducted, sent;
      }
      if r.balance == 0 {
        return true, total, deducted, sent;
      }
      total := Wrap256(total as int + r.balance);
      if r.name in open {
        ok, deducted := PayIntoRow(portion, r, deducted);
      } else {
        ok := QueuePayment(chain, r, sent);
        sent := true;
      }
    }

    /** A payment into a row; the miner's part is taken out of the contract's own. */
    method PayIntoRow(portion: Option<Word256>, r: ReservedObject, deducted0: bool) returns (ok: bool, deducted: bool)
      requires Valid() && r.name in open
      modifies open.Values
      ensures var next := EgressToRow(p, portion, Egress(old(Rows()), [], 0, deducted0, false), r);
              && (ok <==> next.Commit?)
              && (ok ==> Valid() && next.value.open == Rows() && next.value.deducted == deducted)
      ensures inevm.Contents() == old(inevm.Contents())
    {
      hide Plus, Minus, UnitOf, Valid;
      deducted := deducted0;
      ok := CreditRow(r.name, r.balance);
      if ok && portion.Some? && r.name == p.self {
        ok := !deducted;
        if ok {
          ok := DebitRow(r.name, portion.value);
          deducted := true;
        }
      }
    }

    /** A payment to an account without a row. */
    method QueuePayment(chain: Chain, r: ReservedObject, sent: bool) returns (ok: bool)
      requires Valid()
      modifies this`outbox
      ensures Valid()
      ensures var e := Egress(old(Rows()), old(outbox), 0, false, sent);
              && (ok <==> EgressOut(p, chain, e, r).Commit?)
              && (ok ==> EgressOut(p, chain, e, r).value.outbox == outbox)
    {
      if sent || r.name !in chain.accounts || (r.name in chain.withCode && r.name !in chain.egressList) {
        return false;
      }
      if r.balance % p.m != 0 {
        return false;
      }
      var amount := PaidAmount(p.m, r.balance);
      if !(-MAX_ASSET <= amount <= MAX_ASSET) {
        return false;
      }
      outbox := outbox + [Pay(r.name, amount)];
      return true;
    }

    method SettleTransaction(env: Env, chain: Chain, miner: Option<Name>, tx: Tx, out: EvmResult) returns (ok: bool)
      requires Valid()
      modifies inevm, open.Values, this`outbox
      ensures Meets(ok, Settle(p, env, chain, miner, tx, out, old(State())))
    {
      hide Plus, Minus, UnitOf, Valid, EgressAll;
      var portion := None;
      if miner.Some? {
        var share := MinerPortion(env, tx, out.gasUsed);
        if share.Abort? {
          return false;
        }
        portion := Some(share.value);
      }
      var total, deducted;
      ok, total, deducted := EgressLoop(chain, portion, out.reserved);
      if ok && total != 0 {
        ok := DebitInevm(total);
      }
      if ok && portion.Some? && portion.value != 0 {
        ok := deducted;
        if ok {
          ok := CreditRow(miner.value, portion.value);
        }
      }
    }

    method ExecuteTransaction(env: Env, chain: Chain, rules: Rules, miner: Name, tx: Tx, out: EvmResult) returns (ok: bool)
      requires Valid()
      modifies inevm, open.Values, this`outbox
      ensures Meets(ok, ExecuteTx(p, env, chain, rules, miner, tx, out, old(State())))
    {
      hide Plus, Minus, UnitOf, Valid, Ingress, Settle;
      var payee := MinerOf(p, miner);
      if payee.Some? && miner !in open {
        return false;
      }
      if tx.special && !rules.allowSpecial {
        return false;
      }
      ok := LendToSender(tx);
      if !ok {
        return;
      }
      if rules.enforceChainId && !tx.hasChainId {
        return false;
      }
      if !out.valid || (rules.abortOnFailure && !out.success) {
        return false;
      }
      ok := SettleTransaction(env, chain, payee, tx, out);
    }

    // ----- Bridge messages -----

    method ProcessFilteredMessages(chain: Chain, msgs: seq<BridgeMsg>) returns (ok: bool)
      requires Valid()
      modifies open.Values
      ensures ok <==> ProcessMessages(p, chain, old(Rows()), msgs).Commit?
      ensures ok ==> Valid() && ProcessMessages(p, chain, old(Rows()), msgs) == Commit(Rows())
      ensures inevm.Contents() == old(inevm.Contents())
    {
      hide Plus, Minus, UnitOf, Valid;
      var accumulated: Word256 := 0;
      ghost var start := Delivery(Rows(), 0);
      for i := 0 to |msgs|
        invariant Valid()
        invariant inevm.Contents() == old(inevm.Contents())
        invariant DeliverAll(p, chain, start, msgs[..i]) == Commit(Delivery(Rows(), accumulated))
      {
        assert msgs[..i + 1][..i] == msgs[..i];
        var msg := msgs[i];
        ok := MessageAccepted(p, chain, msg);
        if ok {
          ok := CreditRow(msg.receiver.value, msg.value);
        }
        if !ok {
          DeliveryFailsEarly(p, chain, start, msgs, i + 1);
          return;
        }
        accumulated := Wrap256(accumulated as int + msg.value);
      }
      assert msgs[..|msgs|] == msgs;
      ok := true;
      if accumulated > 0 {
        ok := DebitRow(p.self, accumulated);
      }
    }

    method ProcessTransaction(env: Env, chain: Chain, rules: Rules, miner: Name, tx: Tx, minPrice: Option<nat>, out: EvmResult)
      returns (ok: bool)
      requires Valid()
      modifies inevm, open.Values, this`outbox, this`evm
      ensures Meets(ok, ProcessTx(p, env, chain, rules, miner, tx, minPrice, out, old(State())))
    {
      hide Plus, Minus, UnitOf, Valid, ExecuteTx, ProcessMessages;
      if !rules.allowNonSelfMiner && miner != p.self {
        return false;
      }
      if env.version >= 1 {
        if minPrice.Some? && InclusionPrice(tx, env.gasPrice) < minPrice.value {
          return false;
        }
      } else if tx.maxPriorityFee != tx.maxFee || tx.maxFee < env.gasPrice {
        return false;
      }
      ok := ExecuteTransaction(env, chain, rules, miner, tx, out);
      if ok {
        ok := ProcessFilteredMessages(chain, out.messages);
      }
      evm := out.balances;
    }

    method DispatchTransaction(env: Env, chain: Chain, tx: Tx, out: EvmResult) returns (ok: bool)
      requires Valid()
      modifies inevm, open.Values, this`outbox, this`evm
      ensures Meets(ok, Dispatch(p, env, chain, tx, out, old(State())))
    {
      hide Plus, Minus, UnitOf, Valid, ProcessTx;
      if env.version >= 1 {
        ok := ProcessTransaction(env, chain, INLINE_RULES, p.self, tx, None, out);
      } else {
        outbox := outbox + [Push(tx)];
        ok := true;
      }
    }

    // ----- Actions -----

    method HandleAccountTransfer(quantity: Int64, receiver: Name) returns (ok: bool)
      requires Valid()
      modifies open.Values, this`token
      ensures Meets(ok, DepositToAccount(old(State()), quantity, receiver))
    {
      hide Plus, Minus, UnitOf, Valid;
      if quantity <= 0 {
        return false;
      }
      token := token + quantity;
      ok := CreditAssetRow(receiver, quantity);
    }

    method WithdrawTokens(owner: Name, quantity: Int64, to: Option<Name>) returns (ok: bool)
      requires Valid()
      modifies open.Values, this`outbox
      ensures Meets(ok, Withdraw(old(State()), owner, quantity, to))
    {
      hide Plus, Minus, UnitOf, Valid;
      if owner !in open || open[owner].amount < quantity {
        return false;
      }
      ok := CreditAssetRow(owner, -(quantity as int));
      outbox := outbox + [Pay(if to.Some? then to.value else owner, quantity)];
    }

    method CallFrom(env: Env, chain: Chain, from: Name, value: Word256, gasLimit: Word64, out: EvmResult) returns (ok: bool)
      requires Valid()
      modifies inevm, open.Values, this`outbox, this`evm, this`nonces
      ensures Meets(ok, Call(p, env, chain, old(State()), from, value, gasLimit, out))
    {
      hide Plus, Minus, UnitOf, Valid, Dispatch;
      var nonce := GetAndIncrementNonce(from);
      if nonce.Abort? {
        return false;
      }
      ok := DispatchTransaction(env, chain, OwnTx(Reserved(from), nonce.value, env.gasPrice, gasLimit, value), out);
    }

    method HandleEvmTransfer(env: Env, chain: Chain, quantity: Int64, gasLimit: Word64, out: EvmResult) returns (ok: bool)
      requires Valid()
      modifies inevm, open.Values, this`outbox, this`evm, this`nonces, this`token
      ensures Meets(ok, DepositToEvm(p, env, chain, old(State()), quantity, gasLimit, out))
    {
      hide Plus, Minus, UnitOf, Valid, Dispatch;
      ok := HandleAccountTransfer(quantity, p.self);
      if !ok || quantity <= env.bridgeFee {
        return false;
      }
      ok := CallFrom(env, chain, p.self, Bridged(p, env, quantity), gasLimit, out);
    }

    method AdminCallFrom(env: Env, chain: Chain, sender: Sender, evmNonce: Word64, value: Word256, gasLimit: Word64, out: EvmResult)
      returns (ok: bool)
      requires Valid()
      modifies inevm, open.Values, this`outbox, this`evm, this`nonces
      ensures Meets(ok, AdminCall(p, env, chain, old(State()), sender, evmNonce, value, gasLimit, out))
    {
      hide Plus, Minus, UnitOf, Valid, Dispatch;
      if sender.Reserved? {
        ok := CallFrom(env, chain, sender.name, value, gasLimit, out);
      } else if sender.address !in evm {
        ok := false;
      } else {
        ok := DispatchTransaction(env, chain, OwnTx(sender, evmNonce, env.gasPrice, gasLimit, value), out);
      }
    }

    method RunInlineAction(env: Env, chain: Chain, i: nat, accepted: bool, out: EvmResult) returns (ok: bool)
      requires Valid()
      modifies inevm, open.Values, this`outbox, this`evm, this`token
      ensures Meets(ok, RunInline(p, env, chain, old(State()), i, accepted, out))
    {
      hide Plus, Minus, UnitOf, Valid, ProcessTx;
      if i >= |outbox| {
        return false;
      }
      var x := outbox[i];
      outbox := Without(outbox, i);
      match x
      case Pay(to, amount) =>
        if !accepted || amount <= 0 || to == p.self || token < amount {
          return false;
        }
        token := token - amount;
        return true;
      case Push(tx) =>
        ok := ProcessTransaction(env, chain, INLINE_RULES, p.self, tx, None, out);
    }

    method AddEvmBal(a: Address, d: Word256, subtract: bool) returns (ok: bool)
      requires Valid()
      modifies inevm, this`evm
      ensures Meets(ok, AddEvmBalance(p, old(State()), a, d, subtract))
    {
      hide Plus, Minus, UnitOf, Valid;
      if a !in evm {
        return false;
      }
      if subtract {
        ok := DebitInevm(d);
        if !ok || evm[a] < d {
          return false;
        }
        evm := evm[a := evm[a] - d];
      } else {
        if evm[a] as int + d >= U256 {
          return false;
        }
        ok := CreditInevm(d);
        evm := evm[a := evm[a] + d];
      }
    }

    method AddOpenBal(n: Name, d: Word256, subtract: bool) returns (ok: bool)
      requires Valid()
      modifies open.Values
      ensures Meets(ok, AddOpenBalance(p, old(State()), n, d, subtract))
    {
      hide Plus, Minus, UnitOf, Valid;
      if subtract {
        ok := DebitRow(n, d);
      } else {
        ok := CreditRow(n, d);
      }
    }

    /** One action or inline action. */
    method Perform(step: Step) returns (ok: bool)
      requires Valid()
      modifies Repr()
      ensures Meets(ok, Attempt(p, old(State()), step))
      ensures fresh(Repr() - old(Repr()))
    {
      hide Plus, Minus, UnitOf, Valid;
      hide DepositToAccount, DepositToEvm, Withdraw, Open, Close, Call, AdminCall, ProcessTx, RunInline, AddEvmBalance, AddOpenBalance;
      match step {
        case DepositingToAccount(quantity, receiver) => ok := HandleAccountTransfer(quantity, receiver);
        case DepositingToEvm(env, chain, quantity, gasLimit, out) => ok := HandleEvmTransfer(env, chain, quantity, gasLimit, out);
        case Withdrawing(owner, quantity, to) => ok := WithdrawTokens(owner, quantity, to);
        case Opening(owner) => OpenInternalBalance(owner); ok := true;
        case Closing(owner) => ok := CloseBalance(owner);
        case Calling(env, chain, from, value, gasLimit, out) => ok := CallFrom(env, chain, from, value, gasLimit, out);
        case AdminCalling(env, chain, sender, evmNonce, value, gasLimit, out) =>
          ok := AdminCallFrom(env, chain, sender, evmNonce, value, gasLimit, out);
        case Pushing(env, chain, miner, tx, minPrice, out) =>
          ok := minPrice.None? || env.version >= 1;
          if ok {
            ok := ProcessTransaction(env, chain, OUTSIDE_RULES, miner, tx, minPrice, out);
          }
        case RunningInline(env, chain, index, accepted, out) => ok := RunInlineAction(env, chain, index, accepted, out);
        case AddingEvmBalance(a, d, subtract) => ok := AddEvmBal(a, d, subtract);
        case AddingOpenBalance(n, d, subtract) => ok := AddOpenBal(n, d, subtract);
      }
    }

    // ----- Transactions -----

    /** Put the rows that were there back, with what was in them, and everything else. */
    method Restore(rows: map<Name, BalanceWithDust>, before: Ledger)
      requires precision <= EVM_PRECISION && p.m == UnitOf(precision) && inevm.hasSymbol && inevm.precision == precision
      requires forall n :: n in rows ==> rows[n].hasSymbol && rows[n].precision == precision && rows[n] != inevm
      requires forall n, k :: n in rows && k in rows && n != k ==> rows[n] != rows[k]
      requires rows.Keys == before.open.Keys && RowsValid(p.m, before.open) && Dust.Valid(p.m, before.inevm)
      modifies this, inevm, rows.Values
      ensures Valid() && open == rows && State() == before
    {
      hide Plus, Minus, UnitOf;
      RestoreRows(rows, before.open);
      open, nonces, token, outbox, evm := rows, before.nonces, before.token, before.outbox, before.evm;
      inevm.amount, inevm.dust := before.inevm.amount, before.inevm.dust;
      assert Rows() == before.open;
    }

    method RestoreRows(rows: map<Name, BalanceWithDust>, before: map<Name, Balance>)
      requires rows.Keys == before.Keys && forall n, k :: n in rows && k in rows && n != k ==> rows[n] != rows[k]
      modifies rows.Values
      ensures forall n :: n in rows ==> rows[n].Contents() == before[n]
    {
      var rest := rows.Keys;
      while rest != {}
        invariant rest <= rows.Keys
        invariant forall n :: n in rows && n !in rest ==> rows[n].Contents() == before[n]
        decreases rest
      {
        var n :| n in rest;
        rows[n].amount, rows[n].dust := before[n].amount, before[n].dust;
        rest := rest - {n};
      }
    }

    /** All steps of a transaction; if one fails, or leaves inline actions behind, none of them. */
    method Transact(t: Transaction) returns (ok: bool)
      requires Valid()
      modifies Repr()
      ensures Valid() && fresh(Repr() - old(Repr()))
      ensures ok <==> Succeeds(p, old(State()), t)
      ensures State() == DoTransaction(p, old(State()), t)
    {
      hide Plus, Minus, UnitOf;
      var rows, before := open, State();
      for i := 0 to |t|
        invariant Valid() && fresh(Repr() - old(Repr()))
        invariant AllCommit(p, before, t[..i]) && State() == After(p, before, t[..i])
      {
        assert t[..i + 1][..i] == t[..i];
        ok := Perform(t[i]);
        if !ok {
          FailsEarly(p, before, t, i + 1);
          Restore(rows, before);
          return;
        }
      }
      assert t[..|t|] == t;
      ok := outbox == [];
      if !ok {
        Restore(rows, before);
      }
    }
  }

  /**
   The contract in operation: initialised and then run through any history of transactions, on
   machine words and in place, it is where the ledger functions say, and its books balance.
   */
  method RunHistory(self: Name, precision: nat, token: int, h: seq<Transaction>) returns (c: EvmContract)
    requires precision <= EVM_PRECISION
    requires var p := Params(self, UnitOf(precision)); EvmBehavesThroughout(p, Init(p, token), h)
    ensures c.Valid() && c.p == Params(self, UnitOf(precision)) && c.State() == Ending(c.p, Init(c.p, token), h)
    ensures var s0 := Init(c.p, token);
            var run := Committed(c.p, s0, h);
            && c.outbox == []
            && c.token * c.p.m == token * c.p.m + Shifts(c.p, s0, run) + Total(c.p.m, c.Rows()) + Value(c.p.m, c.inevm.Contents())
            && Value(c.p.m, c.inevm.Contents()) == Sum(c.evm) + Burns(c.p, s0, run)
  {
    hide Value, Total, Shifts, Burns, Inv, Sum, DoTransaction, Init, Committed, EvmBehavesThroughout;
    c := new EvmContract(self, precision, token);
    for i := 0 to |h|
      invariant c.Valid() && c.p == Params(self, UnitOf(precision)) && fresh(c.Repr())
      invariant c.State() == Ending(c.p, Init(c.p, token), h[..i])
    {
      assert h[..i + 1][..i] == h[..i];
      var _ := c.Transact(h[i]);
    }
    assert h[..|h|] == h;
    BalancesMatch(c.p, token, h);
  }
}
