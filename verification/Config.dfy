/**
 The contract configuration (src/config_wrapper.cpp): EVM version, gas parameters, gas price,
 miner cut and bridge fee, changed by administrative actions and read by transactions.

 `Do` is the effect of one action on the settings; an action that aborts has none.  The
 results are about every run of actions at nondecreasing times.
 */
module Config {
  import opened Words
  import opened BlockMapping
  import P = ValuePromoter
  import Q = PriceQueue

  const MAX_VERSION := 3
  const GAS_SSET_MIN := 2900
  const OVERFLOW_LIMIT := U63 - 1
  const MEGABYTE := 1024 * 1024

  /** The largest contract size of the EVM. */
  const MAX_CODE_SIZE := 0x6000

  const ACCOUNT_BYTES := 347
  const CONTRACT_FIXED_BYTES := 606
  const STORAGE_SLOT_BYTES := 346

  datatype Symbol = Symbol(code: nat, precision: nat)

  const NO_SYMBOL := Symbol(0, 0)

  datatype Asset = Asset(amount: int, symbol: Symbol)

  datatype GasParams = GasParams(txNewAccount: nat, newAccount: nat, txCreate: nat, codeDeposit: nat, sset: nat)

  const INITIAL_GAS_PARAMS := GasParams(0, 25000, 32000, 200, 20000)

  /** New values for some of the gas parameters. */
  datatype GasUpdate = GasUpdate(txNewAccount: Option<nat>, newAccount: Option<nat>, txCreate: Option<nat>,
                                 codeDeposit: Option<nat>, sset: Option<nat>)

  datatype FeeParams = FeeParams(gasPrice: Option<Word64>, minerCut: Option<nat>, bridgeFee: Option<Asset>)

  datatype Settings = Settings(
    minerCut: nat,
    bridgeFee: Asset,
    version: P.Promoter<nat>,
    gasParams: P.Promoter<GasParams>,
    queue: Q.Queue)

  // ----- The operations -----

  function VersionNow(genesis: nat, s: Settings, now: Time): nat {
    P.GetValue(genesis, s.version, now)
  }

  /** `get_evm_version_and_maybe_promote`: promotion to version 1 or later ends the miner cut. */
  function PromoteVersion(genesis: nat, s: Settings, now: Time): Settings {
    var v := P.Promote(genesis, s.version, now);
    if v == s.version then s
    else s.(version := v, minerCut := if VersionNow(genesis, s, now) >= 1 then 0 else s.minerCut)
  }

  function SetVersion(genesis: nat, s: Settings, newVersion: nat, now: Time): Outcome<Settings> {
    var s1 := PromoteVersion(genesis, s, now);
    if newVersion > MAX_VERSION || (newVersion == 3 && s.queue.front != 0) then Abort
    else if newVersion <= VersionNow(genesis, s, now) then Abort
    else Commit(s1.(version := P.Update(genesis, s1.version, _ => newVersion, now)))
  }

  /** From version 1 on a new gas price is queued; before that it holds at once. */
  function SetGasPrice(genesis: nat, s: Settings, price: Word64, now: Time): Outcome<Settings> {
    if VersionNow(genesis, s, now) >= 1 then
      var q :- Q.Enqueue(s.queue, price, ActivationBlock(genesis, now));
      Commit(s.(queue := q))
    else
      Commit(s.(queue := s.queue.(price := price)))
  }

  function SetMinerCut(genesis: nat, s: Settings, cut: nat, now: Time): Outcome<Settings> {
    if VersionNow(genesis, s, now) != 0 || cut > NINETY_PERCENT then Abort
    else Commit(s.(minerCut := cut))
  }

  function SetBridgeFee(s: Settings, fee: Asset): Outcome<Settings> {
    if s.bridgeFee.symbol != NO_SYMBOL && fee.symbol != s.bridgeFee.symbol then Abort
    else if fee.amount < 0 || fee.symbol.precision > EVM_PRECISION then Abort
    else Commit(s.(bridgeFee := fee))
  }

  /** `set_fee_parameters`; only at initialisation must all three be given. */
  function SetFees(genesis: nat, s: Settings, fees: FeeParams, mayOmit: bool, now: Time): Outcome<Settings> {
    if !mayOmit && (fees.gasPrice.None? || fees.minerCut.None? || fees.bridgeFee.None?) then Abort
    else
      var s1 :- if fees.gasPrice.None? then Commit(s) else SetGasPrice(genesis, s, fees.gasPrice.value, now);
      var s2 :- if fees.minerCut.None? then Commit(s1) else SetMinerCut(genesis, s1, fees.minerCut.value, now);
      if fees.bridgeFee.None? then Commit(s2) else SetBridgeFee(s2, fees.bridgeFee.value)
  }

  function Choose(o: Option<nat>, previous: nat): nat {
    if o.Some? then o.value else previous
  }

  function ApplyGasUpdate(p: GasParams, u: GasUpdate): GasParams {
    GasParams(Choose(u.txNewAccount, p.txNewAccount), Choose(u.newAccount, p.newAccount),
              Choose(u.txCreate, p.txCreate), Choose(u.codeDeposit, p.codeDeposit), Choose(u.sset, p.sset))
  }

  /** `update_consensus_parameters2`. */
  function UpdateGasParams(genesis: nat, s: Settings, u: GasUpdate, now: Time): Outcome<Settings> {
    if VersionNow(genesis, s, now) < 1 then Abort
    else if u.sset.Some? && u.sset.value < GAS_SSET_MIN then Abort
    else Commit(s.(gasParams := P.Update(genesis, s.gasParams, p => ApplyGasUpdate(p, u), now)))
  }

  /** `check_gas_overflow`, on unsigned 64-bit words. */
  predicate CheckGasOverflow(txCreate: nat, codeDeposit: nat)
    requires 0 < txCreate
  {
    && OVERFLOW_LIMIT / txCreate >= MAX_CODE_SIZE
    && Wrap64(OVERFLOW_LIMIT - Wrap64(MAX_CODE_SIZE * txCreate)) >= codeDeposit
  }

  function ParamsForRamPrice(gasPerByte: nat): GasUpdate {
    GasUpdate(Some(ACCOUNT_BYTES * gasPerByte), Some(ACCOUNT_BYTES * gasPerByte),
              Some(CONTRACT_FIXED_BYTES * gasPerByte), Some(gasPerByte),
              Some(GAS_SSET_MIN + STORAGE_SLOT_BYTES * gasPerByte))
  }

  /** What a gas of the given price earns after the miner cut; computed in floating point. */
  function Earned(price: Word64, cut: nat): (r: real)
    requires price > 0 && cut < HUNDRED_PERCENT
    ensures r > 0.0
  {
    price as real * (HUNDRED_PERCENT - cut) as real / HUNDRED_PERCENT as real
  }

  /** The gas a byte must cost to pay for the RAM, whose price is per megabyte. */
  function GasPerByte(m: Unit, ramPrice: int, price: Word64, cut: nat): real
    requires price > 0 && cut < HUNDRED_PERCENT
  {
    ramPrice as real / MEGABYTE as real * m as real / Earned(price, cut)
  }

  /** The gas per byte, rounded up, unless the parameters made of it overflow. */
  function RoundedGasPerByte(m: Unit, ramPrice: int, price: Word64, cut: nat): Outcome<nat>
    requires price > 0 && cut < HUNDRED_PERCENT
  {
    var f := GasPerByte(m, ramPrice, price, cut);
    if OVERFLOW_LIMIT as real / m as real <= ramPrice as real / MEGABYTE as real || f < 0.0 then Abort
    else
      var g: nat := (f + 1.0).Floor;
      if OVERFLOW_LIMIT as real / g as real <= CONTRACT_FIXED_BYTES as real then Abort
      else if !CheckGasOverflow(g * CONTRACT_FIXED_BYTES, g) then Abort
      else Commit(g)
  }

  function GasPerByteFor(genesis: nat, s: Settings, ramPrice: Asset, price: Word64, now: Time): Outcome<nat> {
    var cut := if VersionNow(genesis, s, now) >= 1 then 0 else s.minerCut;
    if VersionNow(genesis, s, now) >= 3 || ramPrice.symbol != s.bridgeFee.symbol || price == 0 then Abort
    else if cut >= HUNDRED_PERCENT || s.bridgeFee.symbol.precision > EVM_PRECISION then Abort
    else RoundedGasPerByte(UnitOf(s.bridgeFee.symbol.precision), ramPrice.amount, price, cut)
  }

  /** `update_consensus_parameters`: gas parameters and gas price together. */
  function UpdateByRamPrice(genesis: nat, s: Settings, ramPrice: Asset, price: Word64, now: Time): Outcome<Settings> {
    var g :- GasPerByteFor(genesis, s, ramPrice, price, now);
    var s1 :- UpdateGasParams(genesis, s, ParamsForRamPrice(g), now);
    SetGasPrice(genesis, s1, price, now)
  }

  /** `process_price_queue` below version 3; version 3 drains a table of its own. */
  function ProcessPriceQueue(genesis: nat, s: Settings, now: Time): Settings {
    if VersionNow(genesis, s, now) >= 3 then s
    else s.(queue := Q.Process(s.queue, Block(genesis, now)))
  }

  /** What a deposit or a transaction does first. */
  function BringPriceUpToDate(genesis: nat, s: Settings, now: Time): Settings {
    if VersionNow(genesis, s, now) >= 1 then ProcessPriceQueue(genesis, s, now) else s
  }

  /** The effect of a transaction on the settings; it runs under the result. */
  function Transact(genesis: nat, s: Settings, now: Time): Settings {
    var s1 := PromoteVersion(genesis, BringPriceUpToDate(genesis, s, now), now);
    s1.(gasParams := P.Promote(genesis, s1.gasParams, now))
  }

  // ----- Runs -----

  datatype Action =
    | SettingVersion(time: Time, version: nat)
    | SettingFees(time: Time, fees: FeeParams)
    | SettingGasParams(time: Time, update: GasUpdate)
    | SettingRamPrice(time: Time, ramPrice: Asset, price: Word64)
    | SettingGasPrices(time: Time)
    | Depositing(time: Time)
    | Transacting(time: Time)

  function Attempt(genesis: nat, s: Settings, a: Action): Outcome<Settings> {
    match a
    case SettingVersion(t, v) => SetVersion(genesis, s, v, t)
    case SettingFees(t, fees) => SetFees(genesis, s, fees, true, t)
    case SettingGasParams(t, u) => UpdateGasParams(genesis, s, u, t)
    case SettingRamPrice(t, ramPrice, price) => UpdateByRamPrice(genesis, s, ramPrice, price, t)
    case SettingGasPrices(t) => Commit(PromoteVersion(genesis, s, t))
    case Depositing(t) => Commit(BringPriceUpToDate(genesis, s, t))
    case Transacting(t) => Commit(Transact(genesis, s, t))
  }

  function Do(genesis: nat, s: Settings, a: Action): Settings {
    var r := Attempt(genesis, s, a);
    if r.Commit? then r.value else s
  }

  /** A configuration with every field at its default. */
  const BLANK := Settings(0, Asset(0, NO_SYMBOL), P.Promoter(0, None), P.Promoter(INITIAL_GAS_PARAMS, None), Q.Queue([], 0, 0))

  /** `init`: once only, for a known chain, and with all fee parameters given. */
  function Init(initialised: bool, knownChain: bool, genesis: nat, fees: FeeParams, now: Time): Outcome<Settings> {
    if initialised || !knownChain then Abort else SetFees(genesis, BLANK, fees, false, now)
  }

  function After(genesis: nat, s: Settings, run: seq<Action>): Settings {
    if run == [] then s else Do(genesis, After(genesis, s, run[..|run| - 1]), run[|run| - 1])
  }

  ghost predicate InTimeOrder(start: Time, run: seq<Action>) {
    && (forall i :: 0 <= i < |run| ==> start <= run[i].time)
    && (forall i, j :: 0 <= i < j < |run| ==> run[i].time <= run[j].time)
  }

  // ----- Invariants -----

  /** At most one version is pending; it is higher than the cached one and supported. */
  ghost predicate VersionSafe(v: P.Promoter<nat>) {
    && v.cached <= MAX_VERSION
    && (v.pending.Some? ==> v.cached < v.pending.value.value <= MAX_VERSION)
  }

  ghost predicate GasParamsSafe(p: P.Promoter<GasParams>) {
    && p.cached.sset >= GAS_SSET_MIN
    && (p.pending.Some? ==> p.pending.value.value.sset >= GAS_SSET_MIN)
  }

  ghost predicate Safe(s: Settings) {
    && VersionSafe(s.version)
    && GasParamsSafe(s.gasParams)
    && s.minerCut <= NINETY_PERCENT
    && (s.version.cached >= 1 ==> s.minerCut == 0)
    && s.bridgeFee.symbol.precision <= EVM_PRECISION && 0 <= s.bridgeFee.amount
  }

  /** A configuration as `init` leaves it: version 0, nothing pending, nothing queued. */
  ghost predicate Fresh(s: Settings) {
    && Safe(s)
    && s.version == P.Promoter(0, None) && s.gasParams.pending.None?
    && s.queue.rows == [] && s.queue.front == 0
  }

  lemma InitSafe(initialised: bool, knownChain: bool, genesis: nat, fees: FeeParams, now: Time)
    ensures Init(initialised, knownChain, genesis, fees, now).Commit? <==>
              && !initialised && knownChain
              && fees.gasPrice.Some? && fees.minerCut.Some? && fees.bridgeFee.Some?
              && fees.minerCut.value <= NINETY_PERCENT
              && fees.bridgeFee.value.amount >= 0 && fees.bridgeFee.value.symbol.precision <= EVM_PRECISION
    ensures Init(initialised, knownChain, genesis, fees, now).Commit? ==>
              var s := Init(initialised, knownChain, genesis, fees, now).value;
              && Fresh(s) && s.queue.price == fees.gasPrice.value && s.minerCut == fees.minerCut.value
              && s.bridgeFee == fees.bridgeFee.value && s.gasParams.cached == GasParams(0, 25000, 32000, 200, 20000)
  {
  }

  /** Later times never see an older version. */
  ghost predicate VersionNotBefore(genesis: nat, v: P.Promoter<nat>, v': P.Promoter<nat>, now: Time) {
    && v.cached <= v'.cached
    && forall t: Time, t': Time :: t <= now <= t' ==> P.GetValue(genesis, v, t) <= P.GetValue(genesis, v', t')
  }

  lemma VersionOpSafe(genesis: nat, v: P.Promoter<nat>, op: P.Op<nat>)
    requires VersionSafe(v)
    requires op.Set? ==> forall x :: P.GetValue(genesis, v, op.time) < op.visitor(x) <= MAX_VERSION
    ensures VersionSafe(P.Step(genesis, v, op))
    ensures VersionNotBefore(genesis, v, P.Step(genesis, v, op), op.time)
  {
    var v' := P.Step(genesis, v, op);
    forall t: Time, t': Time | t <= op.time <= t'
      ensures P.GetValue(genesis, v, t) <= P.GetValue(genesis, v', t')
    {
      BlockMonotonic(genesis, t, op.time);
      BlockMonotonic(genesis, op.time, t');
    }
  }

  /** What an action does to the version promoter. */
  function VersionOp(genesis: nat, s: Settings, a: Action): P.Op<nat> {
    if a.SettingVersion? && Attempt(genesis, s, a).Commit? then P.Set(a.time, _ => a.version)
    else if a.Transacting? || a.SettingGasPrices? then P.GetAndMaybePromote(a.time)
    else P.Get(a.time)
  }

  lemma VersionFollowsOp(genesis: nat, s: Settings, a: Action)
    ensures Do(genesis, s, a).version == P.Step(genesis, s.version, VersionOp(genesis, s, a))
  {
  }

  lemma DoKeepsRest(genesis: nat, s: Settings, a: Action)
    requires Safe(s)
    ensures var s' := Do(genesis, s, a);
            && GasParamsSafe(s'.gasParams) && s'.minerCut <= NINETY_PERCENT
            && s'.bridgeFee.symbol.precision <= EVM_PRECISION && 0 <= s'.bridgeFee.amount
            && (s.bridgeFee.symbol != NO_SYMBOL ==> s'.bridgeFee.symbol == s.bridgeFee.symbol)
  {
  }

  lemma DoEndsMinerCut(genesis: nat, s: Settings, a: Action)
    requires Safe(s)
    ensures Do(genesis, s, a).version.cached >= 1 ==> Do(genesis, s, a).minerCut == 0
  {
  }

  /** What every action keeps, and what it can never take back. */
  lemma DoSafe(genesis: nat, s: Settings, a: Action)
    requires Safe(s)
    ensures Safe(Do(genesis, s, a))
    ensures VersionNotBefore(genesis, s.version, Do(genesis, s, a).version, a.time)
    ensures s.bridgeFee.symbol != NO_SYMBOL ==> Do(genesis, s, a).bridgeFee.symbol == s.bridgeFee.symbol
  {
    DoKeepsRest(genesis, s, a);
    DoEndsMinerCut(genesis, s, a);
    VersionFollowsOp(genesis, s, a);
    VersionOpSafe(genesis, s.version, VersionOp(genesis, s, a));
  }

  lemma {:induction false} RunSafe(genesis: nat, s: Settings, run: seq<Action>)
    requires Safe(s)
    ensures Safe(After(genesis, s, run))
    ensures s.bridgeFee.symbol != NO_SYMBOL ==> After(genesis, s, run).bridgeFee.symbol == s.bridgeFee.symbol
  {
    if run != [] {
      RunSafe(genesis, s, run[..|run| - 1]);
      DoSafe(genesis, After(genesis, s, run[..|run| - 1]), run[|run| - 1]);
    }
  }

  lemma {:induction false} VersionGrows(genesis: nat, s: Settings, start: Time, run: seq<Action>, i: nat, t: Time, t': Time)
    requires Safe(s) && InTimeOrder(start, run) && i <= |run| && t <= t'
    requires forall k :: i <= k < |run| ==> t <= run[k].time <= t'
    ensures var before, after := After(genesis, s, run[..i]), After(genesis, s, run);
            && VersionNow(genesis, before, t) <= VersionNow(genesis, after, t')
            && before.version.cached <= after.version.cached
    decreases |run|
  {
    RunSafe(genesis, s, run[..i]);
    if i == |run| {
      assert run[..i] == run;
      BlockMonotonic(genesis, t, t');
    } else {
      var front, a := run[..|run| - 1], run[|run| - 1];
      assert front[..i] == run[..i];
      VersionGrows(genesis, s, start, front, i, t, a.time);
      RunSafe(genesis, s, front);
      DoSafe(genesis, After(genesis, s, front), a);
    }
  }

  /** The version in force for action i of a run. */
  function VersionSeen(genesis: nat, s: Settings, run: seq<Action>, i: nat): nat
    requires i < |run|
  {
    VersionNow(genesis, After(genesis, s, run[..i]), run[i].time)
  }

  /** The active version never decreases and never exceeds the maximum. */
  lemma VersionNeverDecreases(genesis: nat, s: Settings, start: Time, run: seq<Action>, i: nat, j: nat)
    requires Safe(s) && InTimeOrder(start, run) && i <= j < |run|
    ensures VersionSeen(genesis, s, run, i) <= VersionSeen(genesis, s, run, j) <= MAX_VERSION
  {
    assert run[..j][..i] == run[..i];
    VersionGrows(genesis, s, start, run[..j], i, run[i].time, run[j].time);
    RunSafe(genesis, s, run[..j]);
  }

  /** Once version 1 or later has been promoted there is no miner cut, ever after. */
  lemma MinerCutEnds(genesis: nat, s: Settings, start: Time, run: seq<Action>, i: nat, j: nat)
    requires Safe(s) && InTimeOrder(start, run) && i <= j <= |run|
    requires After(genesis, s, run[..i]).version.cached >= 1
    ensures After(genesis, s, run[..j]).version.cached >= 1 && After(genesis, s, run[..j]).minerCut == 0
  {
    assert run[..j][..i] == run[..i];
    VersionGrows(genesis, s, start, run[..j], i, start, if j > 0 then run[j - 1].time else start);
    RunSafe(genesis, s, run[..j]);
  }

  /**
   The actions that promote: a transaction, `setgasprices`, and a `setversion` that commits.
   The first of them at version 1 or later ends the miner cut.
   */
  lemma PromotingActions(genesis: nat, s: Settings, a: Action)
    requires Safe(s) && VersionNow(genesis, s, a.time) >= 1
    requires a.Transacting? || a.SettingGasPrices? || (a.SettingVersion? && Attempt(genesis, s, a).Commit?)
    ensures Do(genesis, s, a).version.cached == VersionNow(genesis, s, a.time) && Do(genesis, s, a).minerCut == 0
  {
    DoSafe(genesis, s, a);
    VersionFollowsOp(genesis, s, a);
  }

  /**
   New gas parameters wait only where version 1 is in force, so a transaction that promotes
   them runs at version 1 or later, which it checks: the check never fails.
   */
  lemma {:induction false} GasParamCheckNeverFails(genesis: nat, s: Settings, start: Time, run: seq<Action>, now: Time)
    requires Safe(s) && s.gasParams.pending.None? && InTimeOrder(start, run)
    requires forall i :: 0 <= i < |run| ==> run[i].time <= now
    ensures After(genesis, s, run).gasParams.pending.Some? ==> VersionNow(genesis, After(genesis, s, run), now) >= 1
    decreases |run|
  {
    if run != [] {
      var front, a := run[..|run| - 1], run[|run| - 1];
      GasParamCheckNeverFails(genesis, s, start, front, a.time);
      RunSafe(genesis, s, front);
      DoSafe(genesis, After(genesis, s, front), a);
      PendingFrom(genesis, After(genesis, s, front), a);
    }
  }

  lemma PendingFrom(genesis: nat, s: Settings, a: Action)
    ensures Do(genesis, s, a).gasParams.pending.Some? ==> s.gasParams.pending.Some? || VersionNow(genesis, s, a.time) >= 1
  {
  }

  // ----- Version and gas parameters as functions of the block -----

  /** What an action does to the gas parameter promoter. */
  function GasParamOp(genesis: nat, s: Settings, a: Action): P.Op<GasParams> {
    if a.SettingGasParams? && Attempt(genesis, s, a).Commit? then
      P.Set(a.time, p => ApplyGasUpdate(p, a.update))
    else if a.SettingRamPrice? && Attempt(genesis, s, a).Commit? then
      P.Set(a.time, p => ApplyGasUpdate(p, ParamsForRamPrice(GasPerByteFor(genesis, s, a.ramPrice, a.price, a.time).value)))
    else if a.Transacting? then P.GetAndMaybePromote(a.time)
    else P.Get(a.time)
  }

  function VersionOps(genesis: nat, s: Settings, run: seq<Action>): (ops: seq<P.Op<nat>>)
    ensures |ops| == |run| && forall i :: 0 <= i < |run| ==> ops[i].time == run[i].time
  {
    if run == [] then []
    else
      var front := run[..|run| - 1];
      VersionOps(genesis, s, front) + [VersionOp(genesis, After(genesis, s, front), run[|run| - 1])]
  }

  function GasParamOps(genesis: nat, s: Settings, run: seq<Action>): (ops: seq<P.Op<GasParams>>)
    ensures |ops| == |run| && forall i :: 0 <= i < |run| ==> ops[i].time == run[i].time
  {
    if run == [] then []
    else
      var front := run[..|run| - 1];
      GasParamOps(genesis, s, front) + [GasParamOp(genesis, After(genesis, s, front), run[|run| - 1])]
  }

  lemma GasParamsFollowOp(genesis: nat, s: Settings, a: Action)
    ensures Do(genesis, s, a).gasParams == P.Step(genesis, s.gasParams, GasParamOp(genesis, s, a))
  {
  }

  lemma {:induction false} VersionFollowsOps(genesis: nat, s: Settings, run: seq<Action>)
    requires s.version.pending.None?
    ensures After(genesis, s, run).version == P.After(genesis, s.version.cached, VersionOps(genesis, s, run))
  {
    if run != [] {
      var front, ops := run[..|run| - 1], VersionOps(genesis, s, run);
      VersionFollowsOps(genesis, s, front);
      VersionFollowsOp(genesis, After(genesis, s, front), run[|run| - 1]);
      assert ops[..|ops| - 1] == VersionOps(genesis, s, front);
    }
  }

  lemma {:induction false} GasParamsFollowOps(genesis: nat, s: Settings, run: seq<Action>)
    requires s.gasParams.pending.None?
    ensures After(genesis, s, run).gasParams == P.After(genesis, s.gasParams.cached, GasParamOps(genesis, s, run))
  {
    if run != [] {
      var front, ops := run[..|run| - 1], GasParamOps(genesis, s, run);
      GasParamsFollowOps(genesis, s, front);
      GasParamsFollowOp(genesis, After(genesis, s, front), run[|run| - 1]);
      assert ops[..|ops| - 1] == GasParamOps(genesis, s, front);
    }
  }

  lemma {:induction false} OpsOfPrefix(genesis: nat, s: Settings, run: seq<Action>, i: nat)
    requires i <= |run|
    ensures VersionOps(genesis, s, run)[..i] == VersionOps(genesis, s, run[..i])
    ensures GasParamOps(genesis, s, run)[..i] == GasParamOps(genesis, s, run[..i])
    decreases |run|
  {
    if i == |run| {
      assert run[..i] == run;
    } else {
      var front := run[..|run| - 1];
      assert front[..i] == run[..i];
      OpsOfPrefix(genesis, s, front, i);
      assert VersionOps(genesis, s, run)[..i] == VersionOps(genesis, s, front)[..i];
      assert GasParamOps(genesis, s, run)[..i] == GasParamOps(genesis, s, front)[..i];
    }
  }

  /** The gas parameters in force for action i of a run. */
  function GasParamsSeen(genesis: nat, s: Settings, run: seq<Action>, i: nat): GasParams
    requires i < |run|
  {
    P.GetValue(genesis, After(genesis, s, run[..i]).gasParams, run[i].time)
  }

  /**
   Version and gas parameters of every action are those of its EVM block: the block-indexed
   functions of all changes made in the run.  So all actions of a block run under the same.
   */
  lemma SeenIsBlockValue(genesis: nat, s: Settings, start: Time, run: seq<Action>, i: nat)
    requires s.version.pending.None? && s.gasParams.pending.None? && InTimeOrder(start, run) && i < |run|
    ensures VersionSeen(genesis, s, run, i)
         == P.ValueAt(s.version.cached, P.Changes(genesis, VersionOps(genesis, s, run)), Block(genesis, run[i].time))
    ensures GasParamsSeen(genesis, s, run, i)
         == P.ValueAt(s.gasParams.cached, P.Changes(genesis, GasParamOps(genesis, s, run)), Block(genesis, run[i].time))
  {
    VersionFollowsOps(genesis, s, run[..i]);
    GasParamsFollowOps(genesis, s, run[..i]);
    OpsOfPrefix(genesis, s, run, i);
    P.FoundIsBlockValue(genesis, s.version.cached, VersionOps(genesis, s, run), i);
    P.FoundIsBlockValue(genesis, s.gasParams.cached, GasParamOps(genesis, s, run), i);
  }

  // ----- The gas price of a run -----

  /** The price an action sets, with the first block in which it may be used. */
  function NewPrice(genesis: nat, s: Settings, a: Action): Option<Q.Row> {
    var first := if VersionNow(genesis, s, a.time) >= 1 then ActivationBlock(genesis, a.time) else Block(genesis, a.time);
    if Attempt(genesis, s, a).Abort? then None
    else if a.SettingFees? && a.fees.gasPrice.Some? then Some(Q.Row(first, a.fees.gasPrice.value))
    else if a.SettingRamPrice? then Some(Q.Row(first, a.price))
    else None
  }

  /** All prices set in a run. */
  function PriceHistory(genesis: nat, s: Settings, run: seq<Action>): seq<Q.Row> {
    if run == [] then []
    else
      var front := run[..|run| - 1];
      var before := PriceHistory(genesis, s, front);
      var x := NewPrice(genesis, After(genesis, s, front), run[|run| - 1]);
      if x.Some? then before + [x.value] else before
  }

  /** The gas price transaction i of a run is charged. */
  function PriceUsed(genesis: nat, s: Settings, run: seq<Action>, i: nat): Word64
    requires i < |run|
  {
    Transact(genesis, After(genesis, s, run[..i]), run[i].time).queue.price
  }

  /** Version 3, which prices gas from another table, is neither active nor pending. */
  ghost predicate BelowThree(s: Settings) {
    s.version.cached < 3 && (s.version.pending.Some? ==> s.version.pending.value.value < 3)
  }

  ghost predicate NoVersionThree(run: seq<Action>) {
    forall i :: 0 <= i < |run| && run[i].SettingVersion? ==> run[i].version < 3
  }

  ghost predicate PriceInv(genesis: nat, initial: Word64, history: seq<Q.Row>, s: Settings, now: Time) {
    && Safe(s) && BelowThree(s)
    && Q.Represents(initial, history, s.queue, Block(genesis, now))
    && (s.queue.rows != [] ==> s.queue.rows[|s.queue.rows| - 1].block <= ActivationBlock(genesis, now))
    && (VersionNow(genesis, s, now) == 0 ==> s.queue.rows == [])
  }

  lemma PriceInvLater(genesis: nat, initial: Word64, history: seq<Q.Row>, s: Settings, now: Time, t: Time)
    requires PriceInv(genesis, initial, history, s, now) && now <= t
    ensures PriceInv(genesis, initial, history, s, t)
  {
    BlockMonotonic(genesis, now, t);
    ActivationMonotonic(genesis, now, t);
  }

  lemma SetGasPriceKeeps(genesis: nat, initial: Word64, history: seq<Q.Row>, s: Settings, price: Word64, now: Time)
    requires PriceInv(genesis, initial, history, s, now)
    ensures var r := SetGasPrice(genesis, s, price, now);
            var a := if VersionNow(genesis, s, now) >= 1 then ActivationBlock(genesis, now) else Block(genesis, now);
            r.Commit? && PriceInv(genesis, initial, history + [Q.Row(a, price)], r.value, now)
  {
    if VersionNow(genesis, s, now) >= 1 {
      ActivationIsLater(genesis, now);
      Q.EnqueueRepresents(initial, history, s.queue, Block(genesis, now), price, ActivationBlock(genesis, now));
    } else {
      var x := Q.Row(Block(genesis, now), price);
      forall b | b >= x.block
        ensures Q.PriceAt(price, [], b) == Q.PriceAt(initial, history + [x], b)
      {
        Q.Overrides(initial, history, x, b);
      }
    }
  }

  lemma BringUpToDateKeeps(genesis: nat, initial: Word64, history: seq<Q.Row>, s: Settings, now: Time)
    requires PriceInv(genesis, initial, history, s, now)
    ensures var s' := BringPriceUpToDate(genesis, s, now);
            && PriceInv(genesis, initial, history, s', now)
            && s'.queue.price == Q.PriceAt(initial, history, Block(genesis, now))
            && s' == s.(queue := s'.queue)
  {
    var b := Block(genesis, now);
    if VersionNow(genesis, s, now) >= 1 {
      Q.ProcessRepresents(initial, history, s.queue, b, b);
    } else {
      assert Q.PriceAt(s.queue.price, s.queue.rows, b) == Q.PriceAt(initial, history, b);
    }
  }

  lemma SetFeesKeeps(genesis: nat, initial: Word64, history: seq<Q.Row>, s: Settings, fees: FeeParams, now: Time)
    requires PriceInv(genesis, initial, history, s, now) && SetFees(genesis, s, fees, true, now).Commit?
    ensures var s' := SetFees(genesis, s, fees, true, now).value;
            var a := if VersionNow(genesis, s, now) >= 1 then ActivationBlock(genesis, now) else Block(genesis, now);
            var h := if fees.gasPrice.Some? then history + [Q.Row(a, fees.gasPrice.value)] else history;
            PriceInv(genesis, initial, h, s', now)
  {
    var s1 := if fees.gasPrice.None? then s else SetGasPrice(genesis, s, fees.gasPrice.value, now).value;
    if fees.gasPrice.Some? {
      SetGasPriceKeeps(genesis, initial, history, s, fees.gasPrice.value, now);
    }
    var s' := SetFees(genesis, s, fees, true, now).value;
    assert s' == s1.(minerCut := s'.minerCut, bridgeFee := s'.bridgeFee);
    assert Safe(s');
  }

  lemma SetRamPriceKeeps(genesis: nat, initial: Word64, history: seq<Q.Row>, s: Settings, ramPrice: Asset, price: Word64, now: Time)
    requires PriceInv(genesis, initial, history, s, now) && UpdateByRamPrice(genesis, s, ramPrice, price, now).Commit?
    ensures var s' := UpdateByRamPrice(genesis, s, ramPrice, price, now).value;
            var a := if VersionNow(genesis, s, now) >= 1 then ActivationBlock(genesis, now) else Block(genesis, now);
            PriceInv(genesis, initial, history + [Q.Row(a, price)], s', now)
  {
    var g := GasPerByteFor(genesis, s, ramPrice, price, now).value;
    var s1 := UpdateGasParams(genesis, s, ParamsForRamPrice(g), now).value;
    assert s1 == s.(gasParams := s1.gasParams) && GasParamsSafe(s1.gasParams);
    assert PriceInv(genesis, initial, history, s1, now);
    SetGasPriceKeeps(genesis, initial, history, s1, price, now);
  }

  lemma SetVersionKeeps(genesis: nat, initial: Word64, history: seq<Q.Row>, s: Settings, v: nat, now: Time)
    requires PriceInv(genesis, initial, history, s, now) && SetVersion(genesis, s, v, now).Commit? && v < 3
    ensures PriceInv(genesis, initial, history, SetVersion(genesis, s, v, now).value, now)
  {
  }

  lemma TransactKeeps(genesis: nat, initial: Word64, history: seq<Q.Row>, s: Settings, now: Time)
    requires PriceInv(genesis, initial, history, s, now)
    ensures PriceInv(genesis, initial, history, Transact(genesis, s, now), now)
  {
    BringUpToDateKeeps(genesis, initial, history, s, now);
    var s1 := BringPriceUpToDate(genesis, s, now);
    assert PriceInv(genesis, initial, history, PromoteVersion(genesis, s1, now), now);
  }

  lemma DoKeepsPrice(genesis: nat, initial: Word64, history: seq<Q.Row>, s: Settings, a: Action)
    requires PriceInv(genesis, initial, history, s, a.time)
    requires a.SettingVersion? ==> a.version < 3
    ensures var x := NewPrice(genesis, s, a);
            PriceInv(genesis, initial, if x.Some? then history + [x.value] else history, Do(genesis, s, a), a.time)
  {
    if Attempt(genesis, s, a).Commit? {
      match a {
        case SettingVersion(t, v) => SetVersionKeeps(genesis, initial, history, s, v, t);
        case SettingFees(t, fees) => SetFeesKeeps(genesis, initial, history, s, fees, t);
        case SettingGasParams(t, u) => DoSafe(genesis, s, a);
        case SettingRamPrice(t, ramPrice, price) => SetRamPriceKeeps(genesis, initial, history, s, ramPrice, price, t);
        case SettingGasPrices(t) => DoSafe(genesis, s, a);
        case Depositing(t) => BringUpToDateKeeps(genesis, initial, history, s, t);
        case Transacting(t) => TransactKeeps(genesis, initial, history, s, t);
      }
    }
  }

  lemma {:induction false} RunKeepsPrice(genesis: nat, s: Settings, start: Time, run: seq<Action>, now: Time)
    requires Fresh(s) && InTimeOrder(start, run) && NoVersionThree(run)
    requires forall i :: 0 <= i < |run| ==> run[i].time <= now
    ensures PriceInv(genesis, s.queue.price, PriceHistory(genesis, s, run), After(genesis, s, run), now)
    decreases |run|
  {
    if run != [] {
      var front, a := run[..|run| - 1], run[|run| - 1];
      RunKeepsPrice(genesis, s, start, front, a.time);
      DoKeepsPrice(genesis, s.queue.price, PriceHistory(genesis, s, front), After(genesis, s, front), a);
      PriceInvLater(genesis, s.queue.price, PriceHistory(genesis, s, run), After(genesis, s, run), a.time, now);
    }
  }

  /** The queue's own consistency check never fails: setting a gas price cannot abort a run. */
  lemma EnqueueNeverAborts(genesis: nat, s: Settings, start: Time, run: seq<Action>, now: Time, price: Word64)
    requires Fresh(s) && InTimeOrder(start, run) && NoVersionThree(run)
    requires forall i :: 0 <= i < |run| ==> run[i].time <= now
    ensures Q.Ordered(After(genesis, s, run).queue)
    ensures SetGasPrice(genesis, After(genesis, s, run), price, now).Commit?
  {
    RunKeepsPrice(genesis, s, start, run, now);
    SetGasPriceKeeps(genesis, s.queue.price, PriceHistory(genesis, s, run), After(genesis, s, run), price, now);
  }

  lemma LaterPrice(genesis: nat, s: Settings, run: seq<Action>, b: nat)
    requires run != []
    requires VersionSeen(genesis, s, run, |run| - 1) >= 1 && b <= Block(genesis, run[|run| - 1].time)
    ensures Q.PriceAt(s.queue.price, PriceHistory(genesis, s, run), b)
         == Q.PriceAt(s.queue.price, PriceHistory(genesis, s, run[..|run| - 1]), b)
  {
    var front, a := run[..|run| - 1], run[|run| - 1];
    ActivationIsLater(genesis, a.time);
    var x := NewPrice(genesis, After(genesis, s, front), a);
    if x.Some? {
      Q.Overrides(s.queue.price, PriceHistory(genesis, s, front), x.value, b);
    }
  }

  /** Prices set after action i, at version 1 or later, start in later blocks than its own. */
  lemma {:induction false} LaterPrices(genesis: nat, s: Settings, start: Time, run: seq<Action>, i: nat, b: nat)
    requires Safe(s) && InTimeOrder(start, run) && i < |run| && VersionSeen(genesis, s, run, i) >= 1
    requires b == Block(genesis, run[i].time)
    ensures Q.PriceAt(s.queue.price, PriceHistory(genesis, s, run), b)
         == Q.PriceAt(s.queue.price, PriceHistory(genesis, s, run[..i + 1]), b)
    decreases |run|
  {
    hide PriceHistory, After, VersionNow, Safe;
    var j := |run| - 1;
    if i == j {
      assert run[..i + 1] == run;
    } else {
      assert VersionSeen(genesis, s, run, j) >= 1 && b <= Block(genesis, run[j].time) by {
        VersionNeverDecreases(genesis, s, start, run, i, j);
        BlockMonotonic(genesis, run[i].time, run[j].time);
      }
      LaterPrice(genesis, s, run, b);
      assert run[..j][..i + 1] == run[..i + 1] && run[..j][..i] == run[..i];
      LaterPrices(genesis, s, start, run[..j], i, b);
    }
  }

  /**
   At versions 1 and 2 every transaction is charged the last price of the whole run whose
   activation block is at most its own block.
   */
  lemma PriceOfBlock(genesis: nat, s: Settings, start: Time, run: seq<Action>, i: nat)
    requires Fresh(s) && InTimeOrder(start, run) && NoVersionThree(run)
    requires i < |run| && run[i].Transacting? && VersionSeen(genesis, s, run, i) >= 1
    ensures PriceUsed(genesis, s, run, i)
         == Q.PriceAt(s.queue.price, PriceHistory(genesis, s, run), Block(genesis, run[i].time))
  {
    RunKeepsPrice(genesis, s, start, run[..i], run[i].time);
    BringUpToDateKeeps(genesis, s.queue.price, PriceHistory(genesis, s, run[..i]), After(genesis, s, run[..i]), run[i].time);
    assert run[..i + 1][..i] == run[..i];
    assert PriceHistory(genesis, s, run[..i + 1]) == PriceHistory(genesis, s, run[..i]);
    LaterPrices(genesis, s, start, run, i, Block(genesis, run[i].time));
  }

  /** All transactions of one EVM block at versions 1 and 2 are charged the same price. */
  lemma OnePricePerBlock(genesis: nat, s: Settings, start: Time, run: seq<Action>, i: nat, j: nat)
    requires Fresh(s) && InTimeOrder(start, run) && NoVersionThree(run)
    requires i < |run| && run[i].Transacting? && VersionSeen(genesis, s, run, i) >= 1
    requires j < |run| && run[j].Transacting? && Block(genesis, run[i].time) == Block(genesis, run[j].time)
    ensures PriceUsed(genesis, s, run, i) == PriceUsed(genesis, s, run, j)
  {
    assert VersionSeen(genesis, s, run, j) == VersionSeen(genesis, s, run, i) by {
      SeenIsBlockValue(genesis, s, start, run, i);
      SeenIsBlockValue(genesis, s, start, run, j);
    }
    PriceOfBlock(genesis, s, start, run, i);
    PriceOfBlock(genesis, s, start, run, j);
  }

  lemma {:induction false} NotYetDue(initial: Word64, history: seq<Q.Row>, k: nat, b: nat)
    requires k < |history| && b < history[k].block
    ensures Q.PriceAt(initial, history, b) == Q.PriceAt(initial, history[..k] + history[k + 1..], b)
  {
    var n := |history|;
    var others := history[..k] + history[k + 1..];
    if k == n - 1 {
      assert others == history[..n - 1];
    } else {
      assert others[|others| - 1] == history[n - 1];
      assert others[..|others| - 1] == history[..n - 1][..k] + history[..n - 1][k + 1..];
      NotYetDue(initial, history[..n - 1], k, b);
    }
  }

  lemma WithinGrace(genesis: nat, b: nat, t: Time)
    requires b <= Block(genesis, t + GRACE_PERIOD * MICROS)
    ensures b < ActivationBlock(genesis, t)
  {
    ActivationIsLater(genesis, t);
  }

  /**
   The grace period: a price queued at time t, which `HistoryAt` finds in the history with the
   activation block of t, is not used in any block up to that of 180 seconds later; there the
   run prices gas as if it had not been set.
   */
  lemma GracePeriod(genesis: nat, s: Settings, start: Time, run: seq<Action>, i: nat, k: nat, t: Time)
    requires Fresh(s) && InTimeOrder(start, run) && NoVersionThree(run)
    requires i < |run| && run[i].Transacting? && VersionSeen(genesis, s, run, i) >= 1
    requires k < |PriceHistory(genesis, s, run)| && PriceHistory(genesis, s, run)[k].block == ActivationBlock(genesis, t)
    requires Block(genesis, run[i].time) <= Block(genesis, t + GRACE_PERIOD * MICROS)
    ensures var h := PriceHistory(genesis, s, run);
            PriceUsed(genesis, s, run, i) == Q.PriceAt(s.queue.price, h[..k] + h[k + 1..], Block(genesis, run[i].time))
  {
    WithinGrace(genesis, Block(genesis, run[i].time), t);
    NotYetDue(s.queue.price, PriceHistory(genesis, s, run), k, Block(genesis, run[i].time));
    PriceOfBlock(genesis, s, start, run, i);
  }

  /** Where the price set by action j stands in the history, and from when on it counts. */
  lemma HistoryAt(genesis: nat, s: Settings, run: seq<Action>, j: nat)
    requires j < |run| && VersionSeen(genesis, s, run, j) >= 1
    requires NewPrice(genesis, After(genesis, s, run[..j]), run[j]).Some?
    ensures var h, k := PriceHistory(genesis, s, run), |PriceHistory(genesis, s, run[..j])|;
            && k < |h| && Some(h[k]) == NewPrice(genesis, After(genesis, s, run[..j]), run[j])
            && h[k].block == ActivationBlock(genesis, run[j].time)
  {
    HistoryGrows(genesis, s, run, j + 1);
    assert run[..j + 1][..j] == run[..j];
  }

  lemma {:induction false} HistoryGrows(genesis: nat, s: Settings, run: seq<Action>, i: nat)
    requires i <= |run|
    ensures PriceHistory(genesis, s, run[..i]) <= PriceHistory(genesis, s, run)
    decreases |run|
  {
    if i == |run| {
      assert run[..i] == run;
    } else {
      assert run[..|run| - 1][..i] == run[..i];
      HistoryGrows(genesis, s, run[..|run| - 1], i);
    }
  }

  // ----- Gas parameters from a RAM price -----

  lemma FloorIsQuotient(x: int, d: int)
    requires d > 0
    ensures (x as real / d as real).Floor == x / d
  {
    var q, r := x / d, x % d;
    assert x as real == q as real * d as real + r as real;
    assert x as real / d as real == q as real + r as real / d as real;
  }

  /**
   The gas per byte is the RAM price of a byte in units of the gas price, rounded up past the
   quotient: a byte's gas is worth more than its RAM, by at most the price of one gas.
   */
  lemma GasCoversRam(genesis: nat, s: Settings, ramPrice: Asset, price: Word64, now: Time)
    requires UpdateByRamPrice(genesis, s, ramPrice, price, now).Commit?
    ensures var g := GasPerByteFor(genesis, s, ramPrice, price, now).value;
            var ram := ramPrice.amount * UnitOf(s.bridgeFee.symbol.precision);
            && ramPrice.amount >= 0
            && g == ram / (MEGABYTE * price) + 1
            && (g - 1) * price * MEGABYTE <= ram < g * price * MEGABYTE
  {
    var m := UnitOf(s.bridgeFee.symbol.precision);
    RamPriceShape(genesis, s, ramPrice, price, now, m);
    RoundedPast(m, ramPrice.amount, price);
    Quotient(ramPrice.amount * m, price, GasPerByteFor(genesis, s, ramPrice, price, now).value);
  }

  lemma RamPriceShape(genesis: nat, s: Settings, ramPrice: Asset, price: Word64, now: Time, m: Unit)
    requires UpdateByRamPrice(genesis, s, ramPrice, price, now).Commit?
    requires s.bridgeFee.symbol.precision <= EVM_PRECISION ==> m == UnitOf(s.bridgeFee.symbol.precision)
    ensures s.bridgeFee.symbol.precision <= EVM_PRECISION && price > 0
    ensures GasPerByte(m, ramPrice.amount, price, 0) >= 0.0
    ensures GasPerByteFor(genesis, s, ramPrice, price, now) == Commit((GasPerByte(m, ramPrice.amount, price, 0) + 1.0).Floor)
  {
    hide GasPerByte;
  }

  lemma RoundedPast(m: Unit, a: int, price: Word64)
    requires price > 0
    ensures (GasPerByte(m, a, price, 0) + 1.0).Floor == a * m / (MEGABYTE * price) + 1
    ensures GasPerByte(m, a, price, 0) >= 0.0 <==> a >= 0
  {
    hide GasPerByte;
    GasPerByteExact(m, a, price);
    FloorIsQuotient(a * m, MEGABYTE * price);
  }

  lemma Quotient(x: int, price: Word64, g: int)
    requires price > 0 && g == x / (MEGABYTE * price) + 1
    ensures (g - 1) * price * MEGABYTE <= x < g * price * MEGABYTE
  {
    var d := MEGABYTE * price;
    assert x == (g - 1) * d + x % d && 0 <= x % d < d;
    assert (g - 1) * price * MEGABYTE == (g - 1) * d;
    assert g * price * MEGABYTE == (g - 1) * d + d;
  }

  lemma GasPerByteExact(m: Unit, a: int, price: Word64)
    requires price > 0
    ensures GasPerByte(m, a, price, 0) == (a * m) as real / (MEGABYTE * price) as real
    ensures GasPerByte(m, a, price, 0) >= 0.0 <==> a >= 0
  {
    assert Earned(price, 0) == price as real;
  }

  /** The overflow check passes exactly when the true sum of the products stays below 2^63. */
  lemma CheckGasOverflowExact(txCreate: nat, codeDeposit: nat)
    requires 0 < txCreate < U64 && codeDeposit < U64
    ensures CheckGasOverflow(txCreate, codeDeposit) <==> MAX_CODE_SIZE * txCreate + codeDeposit <= OVERFLOW_LIMIT
  {
    var q, r := OVERFLOW_LIMIT / txCreate, OVERFLOW_LIMIT % txCreate;
    assert OVERFLOW_LIMIT == q * txCreate + r;
    assert (q - MAX_CODE_SIZE) * txCreate == q * txCreate - MAX_CODE_SIZE * txCreate;
    SignOfMultiple(q - MAX_CODE_SIZE, txCreate);
  }

  /**
   Parameters derived from a RAM price fit 63-bit words, and so does what they charge for
   creating a contract of the largest size, although the check multiplies the size with the
   creation cost instead of the deposit cost.
   */
  lemma RamPriceParamsFit(gasPerByte: nat, size: nat)
    requires 0 < gasPerByte && CONTRACT_FIXED_BYTES * gasPerByte < OVERFLOW_LIMIT
    requires CheckGasOverflow(gasPerByte * CONTRACT_FIXED_BYTES, gasPerByte)
    requires size <= MAX_CODE_SIZE
    ensures var p := ApplyGasUpdate(INITIAL_GAS_PARAMS, ParamsForRamPrice(gasPerByte));
            && p.txNewAccount <= OVERFLOW_LIMIT && p.newAccount <= OVERFLOW_LIMIT && p.sset <= OVERFLOW_LIMIT
            && p.txCreate + size * p.codeDeposit <= OVERFLOW_LIMIT
  {
    CheckGasOverflowExact(gasPerByte * CONTRACT_FIXED_BYTES, gasPerByte);
    assert size * gasPerByte <= MAX_CODE_SIZE * gasPerByte by {
      SignOfMultiple(MAX_CODE_SIZE - size, gasPerByte);
    }
  }
}
