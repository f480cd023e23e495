/**
 The bridge ledger (src/actions.cpp, src/admin_actions.cpp).

 Tokens the contract holds are owed to the owners of open balances, to EVM accounts (their
 total is `inevm`), or to the receivers of token transfers that are queued as inline actions.
 Each action is a function from the ledger to a new one, or an abort, which the chain answers
 by undoing the whole transaction.  The EVM itself is outside: an action that runs it takes
 what the EVM returned as a parameter, and `LedgerInvariant.EvmAssumption` says what is relied upon.
 */
module Ledger {
  import opened Words
  import opened Dust

  /** An account name is a 64-bit word; 0 is the empty name. */
  type Name = n: nat | n < U64

  type Address = nat

  /** What does not change: the contract's own account, and the unit of its token. */
  datatype Params = Params(self: Name, m: Unit)

  datatype Sender = Reserved(name: Name) | Ordinary(address: Address)

  datatype Tx = Tx(
    from: Sender,
    special: bool,
    hasChainId: bool,
    nonce: Word64,
    gasLimit: Word64,
    maxFee: Word256,
    maxPriorityFee: Word256,
    value: Word256)

  /** Actions sent by the contract that run after the current one: token transfers and, before
      version 1, its own transactions. */
  datatype Inline = Pay(to: Name, amount: int) | Push(tx: Tx)

  datatype Ledger = Ledger(
    open: map<Name, Balance>,
    nonces: map<Name, Word64>,
    inevm: Balance,
    token: int,
    outbox: seq<Inline>,
    evm: map<Address, Word256>)

  /** `runtime_config`. */
  datatype Rules = Rules(allowSpecial: bool, abortOnFailure: bool, enforceChainId: bool, allowNonSelfMiner: bool)

  const OUTSIDE_RULES := Rules(false, false, true, true)
  const INLINE_RULES := Rules(true, true, false, false)

  /** The configuration an action runs under. */
  datatype Env = Env(version: nat, gasPrice: Word64, minerCut: nat, bridgeFee: nat)

  datatype Receiver = Receiver(minFee: nat, atomic: bool)

  /** What the chain and the contract's lists say about accounts. */
  datatype Chain = Chain(accounts: set<Name>, withCode: set<Name>, egressList: set<Name>, receivers: map<Name, Receiver>)

  /** An account at a reserved address, after the EVM has run. */
  datatype ReservedObject = ReservedObject(name: Name, balance: Word256, hasCode: bool)

  /** A message to the contract caught in the EVM; no receiver if it cannot be decoded. */
  datatype BridgeMsg = BridgeMsg(receiver: Option<Name>, forceAtomic: bool, value: Word256)

  /** What the EVM returned for a transaction. */
  datatype EvmResult = EvmResult(
    valid: bool,
    success: bool,
    gasUsed: Word64,
    balances: map<Address, Word256>,
    reserved: seq<ReservedObject>,
    messages: seq<BridgeMsg>)

  function Min(a: int, b: int): int {
    if a <= b then a else b
  }

  // ----- Rows -----

  function Credit(p: Params, open: map<Name, Balance>, n: Name, x: nat): Outcome<map<Name, Balance>> {
    if n !in open then Abort
    else
      var b :- Plus(p.m, open[n], x);
      Commit(open[n := b])
  }

  function Debit(p: Params, open: map<Name, Balance>, n: Name, x: nat): Outcome<map<Name, Balance>> {
    if n !in open then Abort
    else
      var b :- Minus(p.m, open[n], x);
      Commit(open[n := b])
  }

  /** Adding an asset to a row touches its whole part only, and checks the range of assets. */
  function CreditAsset(open: map<Name, Balance>, n: Name, q: int): Outcome<map<Name, Balance>> {
    if n !in open || !(-MAX_ASSET <= open[n].amount + q <= MAX_ASSET) then Abort
    else Commit(open[n := open[n].(amount := open[n].amount + q)])
  }

  // ----- Opening, closing, nonces -----

  function Open(s: Ledger, owner: Name): Ledger {
    s.(open := if owner in s.open then s.open else s.open[owner := Balance(0, 0)],
       nonces := if owner in s.nonces then s.nonces else s.nonces[owner := 0])
  }

  function Close(p: Params, s: Ledger, owner: Name): Outcome<Ledger> {
    if owner == p.self || owner !in s.open || !s.open[owner].IsZero() then Abort
    else if owner !in s.nonces then Abort
    else Commit(s.(open := s.open - {owner}, nonces := if s.nonces[owner] == 0 then s.nonces - {owner} else s.nonces))
  }

  /** `get_and_increment_nonce`, in an unsigned 64-bit word. */
  function TakeNonce(s: Ledger, owner: Name): Outcome<(Word64, Ledger)> {
    if owner !in s.nonces then Abort
    else Commit((s.nonces[owner], s.(nonces := s.nonces[owner := Wrap64(s.nonces[owner] as int + 1)])))
  }

  // ----- Executing a transaction -----

  /** The most a transaction can cost its sender; the product is a 256-bit word. */
  function Cost(tx: Tx): nat {
    Wrap256(tx.gasLimit * tx.maxFee) + tx.value
  }

  predicate FromReserved(tx: Tx) {
    tx.special && tx.from.Reserved?
  }

  /** What the ledger lends to a reserved sender for the duration of the transaction. */
  function Ingress(p: Params, s: Ledger, tx: Tx): Outcome<Ledger> {
    if !FromReserved(tx) then Commit(s)
    else if Cost(tx) >= U256 - 1 then Abort
    else
      var open :- Debit(p, s.open, tx.from.name, Cost(tx));
      var inevm :- Plus(p.m, s.inevm, Cost(tx));
      Commit(s.(open := open, inevm := inevm))
  }

  function Lent(tx: Tx): nat {
    if FromReserved(tx) then Cost(tx) else 0
  }

  /** The fee per gas above the base fee, EIP-1559; the subtraction is on 256-bit words. */
  function InclusionPrice(tx: Tx, baseFee: nat): nat {
    Min(tx.maxPriorityFee, Wrap256(tx.maxFee - baseFee))
  }

  /** The miner's part of a fee. */
  function MinerShare(env: Env, fee: Word256): Outcome<Word256> {
    if fee >= U256 - 1 then Abort
    else if env.version >= 1 then Commit(fee)
    else Commit(Wrap256(fee * env.minerCut / HUNDRED_PERCENT))
  }

  /** The price per gas of which the miner gets a part. */
  function MinerPrice(env: Env, tx: Tx): nat {
    if env.version >= 1 then InclusionPrice(tx, env.gasPrice) else tx.maxFee
  }

  /** The miner's part of the gas fee; the product is a 256-bit word. */
  function MinerPortion(env: Env, tx: Tx, gasUsed: nat): Outcome<Word256> {
    MinerShare(env, Wrap256(gasUsed * MinerPrice(env, tx)))
  }

  /** The state of the egress loop. */
  datatype Egress = Egress(open: map<Name, Balance>, outbox: seq<Inline>, total: nat, deducted: bool, sent: bool)

  /** Pay what a reserved address holds into the row of its account, or out to the account. */
  function EgressOne(p: Params, chain: Chain, portion: Option<nat>, e: Egress, r: ReservedObject): Outcome<Egress> {
    if r.hasCode || r.name == 0 then Abort
    else if r.balance == 0 then Commit(e)
    else if r.name in e.open then EgressToRow(p, portion, e, r)
    else EgressOut(p, chain, e, r)
  }

  function EgressToRow(p: Params, portion: Option<nat>, e: Egress, r: ReservedObject): Outcome<Egress>
    requires r.name in e.open
  {
    var b :- Plus(p.m, e.open[r.name], r.balance);
    var e1 := e.(open := e.open[r.name := b], total := Wrap256(e.total + r.balance));
    if portion.None? || r.name != p.self then Commit(e1)
    else if e.deducted then Abort
    else
      var c :- Minus(p.m, b, portion.value);
      Commit(e1.(open := e.open[r.name := c], deducted := true))
  }

  /** The amount of a payment: a quotient cast to 64 bits and taken as a signed asset amount. */
  function PaidAmount(m: Unit, balance: nat): int {
    WrapSigned64(Wrap64(balance / m))
  }

  function EgressOut(p: Params, chain: Chain, e: Egress, r: ReservedObject): Outcome<Egress> {
    if e.sent || r.name !in chain.accounts || (r.name in chain.withCode && r.name !in chain.egressList) then Abort
    else if r.balance % p.m != 0 || !(-MAX_ASSET <= PaidAmount(p.m, r.balance) <= MAX_ASSET) then Abort
    else Commit(e.(outbox := e.outbox + [Pay(r.name, PaidAmount(p.m, r.balance))],
                   total := Wrap256(e.total + r.balance),
                   sent := true))
  }

  function EgressAll(p: Params, chain: Chain, portion: Option<nat>, e: Egress, rs: seq<ReservedObject>): Outcome<Egress> {
    if rs == [] then Commit(e)
    else
      var e1 :- EgressAll(p, chain, portion, e, rs[..|rs| - 1]);
      EgressOne(p, chain, portion, e1, rs[|rs| - 1])
  }

  /** Everything after the EVM has run: egress, and the miner's part. */
  function Settle(p: Params, env: Env, chain: Chain, miner: Option<Name>, tx: Tx, out: EvmResult, s: Ledger): Outcome<Ledger> {
    var portion :- if miner.None? then Commit(None) else PortionOf(MinerPortion(env, tx, out.gasUsed));
    var e :- EgressAll(p, chain, portion, Egress(s.open, s.outbox, 0, false, false), out.reserved);
    var inevm :- if e.total == 0 then Commit(s.inevm) else Minus(p.m, s.inevm, e.total);
    var open :- if portion.None? || portion.value == 0 then Commit(e.open)
                else if !e.deducted || miner.None? then Abort
                else Credit(p, e.open, miner.value, portion.value);
    Commit(s.(open := open, outbox := e.outbox, inevm := inevm))
  }

  function PortionOf(r: Outcome<Word256>): Outcome<Option<Word256>> {
    if r.Commit? then Commit(Some(r.value)) else Abort
  }

  /** The contract takes no cut from itself, and the empty name is no miner. */
  function MinerOf(p: Params, miner: Name): Option<Name> {
    if miner == p.self || miner == 0 then None else Some(miner)
  }

  /** `execute_tx`. */
  function ExecuteTx(p: Params, env: Env, chain: Chain, rules: Rules, miner: Name, tx: Tx, out: EvmResult, s: Ledger): Outcome<Ledger> {
    if MinerOf(p, miner).Some? && miner !in s.open then Abort
    else if tx.special && !rules.allowSpecial then Abort
    else
      var s1 :- Ingress(p, s, tx);
      if rules.enforceChainId && !tx.hasChainId then Abort
      else if !out.valid || (rules.abortOnFailure && !out.success) then Abort
      else Settle(p, env, chain, MinerOf(p, miner), tx, out, s1)
  }

  // ----- Bridge messages -----

  /** The state of the message loop. */
  datatype Delivery = Delivery(open: map<Name, Balance>, accumulated: nat)

  predicate MessageAccepted(p: Params, chain: Chain, msg: BridgeMsg) {
    && msg.receiver.Some?
    && msg.receiver.value in chain.accounts
    && msg.receiver.value in chain.receivers
    && (!msg.forceAtomic || chain.receivers[msg.receiver.value].atomic)
    && msg.value >= chain.receivers[msg.receiver.value].minFee * p.m
  }

  function DeliverOne(p: Params, chain: Chain, d: Delivery, msg: BridgeMsg): Outcome<Delivery> {
    if !MessageAccepted(p, chain, msg) then Abort
    else
      var open :- Credit(p, d.open, msg.receiver.value, msg.value);
      Commit(Delivery(open, Wrap256(d.accumulated + msg.value)))
  }

  function DeliverAll(p: Params, chain: Chain, d: Delivery, msgs: seq<BridgeMsg>): Outcome<Delivery> {
    if msgs == [] then Commit(d)
    else
      var d1 :- DeliverAll(p, chain, d, msgs[..|msgs| - 1]);
      DeliverOne(p, chain, d1, msgs[|msgs| - 1])
  }

  /** `process_filtered_messages`. */
  function ProcessMessages(p: Params, chain: Chain, open: map<Name, Balance>, msgs: seq<BridgeMsg>): Outcome<map<Name, Balance>> {
    var d :- DeliverAll(p, chain, Delivery(open, 0), msgs);
    if d.accumulated > 0 then Debit(p, d.open, p.self, d.accumulated) else Commit(d.open)
  }

  /** `process_tx` at versions 0 to 2. */
  function ProcessTx(p: Params, env: Env, chain: Chain, rules: Rules, miner: Name, tx: Tx, minPrice: Option<nat>,
                     out: EvmResult, s: Ledger): Outcome<Ledger> {
    if !rules.allowNonSelfMiner && miner != p.self then Abort
    else if env.version >= 1 && minPrice.Some? && InclusionPrice(tx, env.gasPrice) < minPrice.value then Abort
    else if env.version == 0 && (tx.maxPriorityFee != tx.maxFee || tx.maxFee < env.gasPrice) then Abort
    else
      var s1 :- ExecuteTx(p, env, chain, rules, miner, tx, out, s);
      var open :- ProcessMessages(p, chain, s1.open, out.messages);
      Commit(s1.(open := open, evm := out.balances))
  }

  /** `pushtx` by anybody but the contract. */
  function PushTx(p: Params, env: Env, chain: Chain, s: Ledger, miner: Name, tx: Tx, minPrice: Option<nat>, out: EvmResult): Outcome<Ledger> {
    if minPrice.Some? && env.version < 1 then Abort
    else ProcessTx(p, env, chain, OUTSIDE_RULES, miner, tx, minPrice, out, s)
  }

  /** A transaction of the contract itself: executed at once from version 1 on, before that queued. */
  function Dispatch(p: Params, env: Env, chain: Chain, tx: Tx, out: EvmResult, s: Ledger): Outcome<Ledger> {
    if env.version >= 1 then ProcessTx(p, env, chain, INLINE_RULES, p.self, tx, None, out, s)
    else Commit(s.(outbox := s.outbox + [Push(tx)]))
  }

  // ----- Actions -----

  /** A token deposit credited to an open balance. */
  function DepositToAccount(s: Ledger, quantity: Int64, receiver: Name): Outcome<Ledger> {
    if quantity <= 0 then Abort
    else
      var open :- CreditAsset(s.open, receiver, quantity);
      Commit(s.(open := open, token := s.token + quantity))
  }

  function OwnTx(from: Sender, nonce: Word64, price: Word64, gasLimit: Word64, value: Word256): Tx {
    Tx(from, true, false, nonce, gasLimit, price, price, value)
  }

  /** What a deposit is worth on the other side of the bridge, less the bridge fee. */
  function Bridged(p: Params, env: Env, quantity: Int64): Word256
    requires quantity > env.bridgeFee
  {
    BridgedFits(p.m, quantity - env.bridgeFee);
    (quantity - env.bridgeFee) * p.m
  }

  lemma BridgedFits(m: Unit, q: int)
    requires 0 < q < U63
    ensures 0 < q * m < U256
  {
    SignOfMultiple(q, m);
    SignOfMultiple(MAX_UNIT - m, q);
    assert (MAX_UNIT - m) * q == MAX_UNIT * q - q * m;
  }

  function Withdraw(s: Ledger, owner: Name, quantity: Int64, to: Option<Name>): Outcome<Ledger> {
    if owner !in s.open || s.open[owner].amount < quantity then Abort
    else
      var open :- CreditAsset(s.open, owner, -(quantity as int));
      Commit(s.(open := open, outbox := s.outbox + [Pay(if to.Some? then to.value else owner, quantity)]))
  }

  /** The transaction of a call, with the nonce it takes. */
  function BuildCall(env: Env, s: Ledger, from: Name, value: Word256, gasLimit: Word64): Outcome<(Tx, Ledger)> {
    var taken :- TakeNonce(s, from);
    Commit((OwnTx(Reserved(from), taken.0, env.gasPrice, gasLimit, value), taken.1))
  }

  function Call(p: Params, env: Env, chain: Chain, s: Ledger, from: Name, value: Word256, gasLimit: Word64, out: EvmResult): Outcome<Ledger> {
    var built :- BuildCall(env, s, from, value, gasLimit);
    Dispatch(p, env, chain, built.0, out, built.1)
  }

  /**
   A token deposit bridged to an EVM address: it is credited to the contract itself, which then
   calls the address with what is left after the bridge fee.
   */
  function BuildDeposit(p: Params, env: Env, s: Ledger, quantity: Int64, gasLimit: Word64): Outcome<(Tx, Ledger)> {
    if quantity <= env.bridgeFee then Abort
    else
      var s1 :- DepositToAccount(s, quantity, p.self);
      BuildCall(env, s1, p.self, Bridged(p, env, quantity), gasLimit)
  }

  function DepositToEvm(p: Params, env: Env, chain: Chain, s: Ledger, quantity: Int64, gasLimit: Word64, out: EvmResult): Outcome<Ledger> {
    var built :- BuildDeposit(p, env, s, quantity, gasLimit);
    Dispatch(p, env, chain, built.0, out, built.1)
  }

  /** A call made by the administrator in the name of any account. */
  function BuildAdminCall(env: Env, s: Ledger, from: Sender, evmNonce: Word64, value: Word256, gasLimit: Word64): Outcome<(Tx, Ledger)> {
    if from.Reserved? then BuildCall(env, s, from.name, value, gasLimit)
    else if from.address !in s.evm then Abort
    else Commit((OwnTx(from, evmNonce, env.gasPrice, gasLimit, value), s))
  }

  function AdminCall(p: Params, env: Env, chain: Chain, s: Ledger, from: Sender, evmNonce: Word64, value: Word256, gasLimit: Word64,
                     out: EvmResult): Outcome<Ledger> {
    var built :- BuildAdminCall(env, s, from, evmNonce, value, gasLimit);
    Dispatch(p, env, chain, built.0, out, built.1)
  }

  function Without(outbox: seq<Inline>, i: nat): seq<Inline>
    requires i < |outbox|
  {
    outbox[..i] + outbox[i + 1..]
  }

  /** An inline action runs: the token contract pays out, or the contract's own transaction. */
  function RunInline(p: Params, env: Env, chain: Chain, s: Ledger, i: nat, accepted: bool, out: EvmResult): Outcome<Ledger> {
    if i >= |s.outbox| then Abort
    else
      var rest := s.(outbox := Without(s.outbox, i));
      match s.outbox[i]
      case Pay(to, amount) =>
        if !accepted || amount <= 0 || to == p.self || s.token < amount then Abort
        else Commit(rest.(token := s.token - amount))
      case Push(tx) => ProcessTx(p, env, chain, INLINE_RULES, p.self, tx, None, out, rest)
  }

  /** `addevmbal`. */
  function AddEvmBalance(p: Params, s: Ledger, a: Address, d: Word256, subtract: bool): Outcome<Ledger> {
    if a !in s.evm then Abort
    else if subtract then
      var inevm :- Minus(p.m, s.inevm, d);
      if s.evm[a] < d then Abort else Commit(s.(inevm := inevm, evm := s.evm[a := s.evm[a] - d]))
    else if s.evm[a] + d >= U256 then Abort
    else
      var inevm :- Plus(p.m, s.inevm, d);
      Commit(s.(inevm := inevm, evm := s.evm[a := s.evm[a] + d]))
  }

  /** `addopenbal`. */
  function AddOpenBalance(p: Params, s: Ledger, n: Name, d: Word256, subtract: bool): Outcome<Ledger> {
    var open :- if subtract then Debit(p, s.open, n, d) else Credit(p, s.open, n, d);
    Commit(s.(open := open))
  }

  /** `init`: nothing but the contract's own row, open and empty. */
  function Init(p: Params, token: int): Ledger {
    Open(Ledger(map[], map[], Balance(0, 0), token, [], map[]), p.self)
  }
}
