/**
 Configuration and ledger together.  An action reads version, gas price, miner cut and bridge
 fee from the configuration as it is at its time, after the configuration's own part in the
 action; if the action aborts, both are undone.  So what the ledger theorems take as a
 parameter, the environment of a step, is a consequence of the configuration's history.
 */
module System {
  import opened Words
  import opened BlockMapping
  import opened Dust
  import opened Sums
  import opened Ledger
  import opened LedgerEgress
  import opened LedgerSettlement
  import opened LedgerInvariant
  import opened LedgerFees
  import opened LedgerEffects
  import C = Config
  import E = ConfigEffects
  import Q = PriceQueue
  import R = LedgerRuns

  datatype System = System(settings: C.Settings, ledger: Ledger)

  /** A change of the configuration, or a step of the ledger whose environment is to be filled in. */
  datatype Event = Configuring(action: C.Action) | Acting(at: Time, step: R.Step) {
    function When(): Time {
      if Configuring? then action.time else at
    }
  }

  /** What a ledger step does to the configuration; before version 1 own transactions are only queued. */
  function ConfigPart(genesis: nat, y: System, t: Time, step: R.Step): Option<C.Action> {
    match step
    case DepositingToAccount(_, _) => Some(C.Depositing(t))
    case Pushing(_, _, _, _, _, _) => Some(C.Transacting(t))
    case RunningInline(_, _, i, _, _) =>
      if i < |y.ledger.outbox| && y.ledger.outbox[i].Push? then Some(C.Transacting(t)) else None
    case _ =>
      if !R.BuildsTx(step) then None
      else if C.VersionNow(genesis, y.settings, t) >= 1 then Some(C.Transacting(t)) else Some(C.Depositing(t))
  }

  /** The configuration a ledger step runs under. */
  function SettingsFor(genesis: nat, y: System, t: Time, step: R.Step): C.Settings {
    var a := ConfigPart(genesis, y, t, step);
    if a.Some? then C.Do(genesis, y.settings, a.value) else y.settings
  }

  /** The bridge fee is never negative: see `Config.Safe`. */
  function EnvOf(genesis: nat, s: C.Settings, t: Time): Env {
    Env(C.VersionNow(genesis, s, t), s.queue.price, s.minerCut, if s.bridgeFee.amount >= 0 then s.bridgeFee.amount else 0)
  }

  function EnvFor(genesis: nat, y: System, t: Time, step: R.Step): Env {
    EnvOf(genesis, SettingsFor(genesis, y, t, step), t)
  }

  function WithEnv(step: R.Step, env: Env): R.Step {
    if R.RunsEvm(step) then step.(env := env) else step
  }

  /** The step as it runs. */
  function Filled(genesis: nat, y: System, t: Time, step: R.Step): R.Step {
    WithEnv(step, EnvFor(genesis, y, t, step))
  }

  function Attempt(genesis: nat, p: Params, y: System, e: Event): Outcome<System> {
    match e
    case Configuring(a) =>
      var s :- C.Attempt(genesis, y.settings, a);
      Commit(y.(settings := s))
    case Acting(t, step) =>
      var s :- R.Attempt(p, y.ledger, Filled(genesis, y, t, step));
      Commit(System(SettingsFor(genesis, y, t, step), s))
  }

  function Do(genesis: nat, p: Params, y: System, e: Event): System {
    var r := Attempt(genesis, p, y, e);
    if r.Commit? then r.value else y
  }

  function After(genesis: nat, p: Params, y: System, run: seq<Event>): System {
    if run == [] then y else Do(genesis, p, After(genesis, p, y, run[..|run| - 1]), run[|run| - 1])
  }

  ghost predicate InTimeOrder(start: Time, run: seq<Event>) {
    && (forall i :: 0 <= i < |run| ==> start <= run[i].When())
    && (forall i, j :: 0 <= i < j < |run| ==> run[i].When() <= run[j].When())
  }

  // ----- The two histories -----

  /** The configuration action in an event, if it commits. */
  function ActionIn(genesis: nat, p: Params, y: System, e: Event): Option<C.Action> {
    if Attempt(genesis, p, y, e).Abort? then None
    else if e.Configuring? then Some(e.action) else ConfigPart(genesis, y, e.at, e.step)
  }

  /** The configuration's own run: everything in the joint run that commits. */
  function ConfigRun(genesis: nat, p: Params, y: System, run: seq<Event>): seq<C.Action> {
    if run == [] then []
    else
      var front := run[..|run| - 1];
      var a := ActionIn(genesis, p, After(genesis, p, y, front), run[|run| - 1]);
      ConfigRun(genesis, p, y, front) + (if a.Some? then [a.value] else [])
  }

  /** The ledger step in an event, if it commits, with its environment filled in. */
  function StepIn(genesis: nat, p: Params, y: System, e: Event): Option<R.Step> {
    if e.Acting? && Attempt(genesis, p, y, e).Commit? then Some(Filled(genesis, y, e.at, e.step)) else None
  }

  /** The ledger's own run. */
  function LedgerRun(genesis: nat, p: Params, y: System, run: seq<Event>): seq<R.Step> {
    if run == [] then []
    else
      var front := run[..|run| - 1];
      var step := StepIn(genesis, p, After(genesis, p, y, front), run[|run| - 1]);
      LedgerRun(genesis, p, y, front) + (if step.Some? then [step.value] else [])
  }

  lemma OneMoreAction(genesis: nat, s: C.Settings, run: seq<C.Action>, a: C.Action)
    ensures C.After(genesis, s, run + [a]) == C.Do(genesis, C.After(genesis, s, run), a)
  {
    assert (run + [a])[..|run|] == run;
  }

  lemma OneMoreStep(p: Params, s: Ledger, run: seq<R.Step>, step: R.Step)
    ensures R.After(p, s, run + [step]) == R.Do(p, R.After(p, s, run), step)
  {
    assert (run + [step])[..|run|] == run;
  }

  lemma SettingsStep(genesis: nat, p: Params, y: System, e: Event)
    ensures var a := ActionIn(genesis, p, y, e);
            Do(genesis, p, y, e).settings == if a.Some? then C.Do(genesis, y.settings, a.value) else y.settings
    ensures ActionIn(genesis, p, y, e).Some? ==> ActionIn(genesis, p, y, e).value.time == e.When()
  {
    hide C.Attempt, R.Attempt;
  }

  lemma LedgerStep(genesis: nat, p: Params, y: System, e: Event)
    ensures var step := StepIn(genesis, p, y, e);
            Do(genesis, p, y, e).ledger == if step.Some? then R.Do(p, y.ledger, step.value) else y.ledger
  {
    hide C.Attempt, R.Attempt;
  }

  /** The joint run is made of a run of the configuration and a run of the ledger. */
  lemma {:induction false} RunsProject(genesis: nat, p: Params, y: System, run: seq<Event>)
    ensures After(genesis, p, y, run).settings == C.After(genesis, y.settings, ConfigRun(genesis, p, y, run))
    ensures After(genesis, p, y, run).ledger == R.After(p, y.ledger, LedgerRun(genesis, p, y, run))
  {
    hide Attempt, C.Attempt, R.Attempt;
    if run != [] {
      var front, e := run[..|run| - 1], run[|run| - 1];
      var y1 := After(genesis, p, y, front);
      RunsProject(genesis, p, y, front);
      SettingsStep(genesis, p, y1, e);
      LedgerStep(genesis, p, y1, e);
      var a := ActionIn(genesis, p, y1, e);
      if a.Some? {
        OneMoreAction(genesis, y.settings, ConfigRun(genesis, p, y, front), a.value);
      } else {
        assert ConfigRun(genesis, p, y, run) == ConfigRun(genesis, p, y, front);
      }
      var step := StepIn(genesis, p, y1, e);
      if step.Some? {
        OneMoreStep(p, y.ledger, LedgerRun(genesis, p, y, front), step.value);
      } else {
        assert LedgerRun(genesis, p, y, run) == LedgerRun(genesis, p, y, front);
      }
    }
  }

  lemma {:induction false} ConfigRunOrdered(genesis: nat, p: Params, y: System, start: Time, run: seq<Event>, now: Time)
    requires InTimeOrder(start, run) && forall i :: 0 <= i < |run| ==> run[i].When() <= now
    ensures C.InTimeOrder(start, ConfigRun(genesis, p, y, run))
    ensures forall k :: 0 <= k < |ConfigRun(genesis, p, y, run)| ==> ConfigRun(genesis, p, y, run)[k].time <= now
    decreases |run|
  {
    hide Attempt, C.Attempt, R.Attempt;
    if run != [] {
      var front, e := run[..|run| - 1], run[|run| - 1];
      ConfigRunOrdered(genesis, p, y, start, front, e.When());
      SettingsStep(genesis, p, After(genesis, p, y, front), e);
    }
  }

  lemma {:induction false} ConfigRunGrows(genesis: nat, p: Params, y: System, run: seq<Event>, i: nat)
    requires i <= |run|
    ensures ConfigRun(genesis, p, y, run[..i]) <= ConfigRun(genesis, p, y, run)
    decreases |run|
  {
    hide Attempt, C.Attempt, R.Attempt;
    if i == |run| {
      assert run[..i] == run;
    } else {
      assert run[..|run| - 1][..i] == run[..i];
      ConfigRunGrows(genesis, p, y, run[..|run| - 1], i);
    }
  }

  // ----- What holds of the environment of every step -----

  /** The environment of event i of a run. */
  function EnvAt(genesis: nat, p: Params, y: System, run: seq<Event>, i: nat): Env
    requires i < |run| && run[i].Acting?
  {
    EnvFor(genesis, After(genesis, p, y, run[..i]), run[i].at, run[i].step)
  }

  lemma {:induction false} SettingsSafe(genesis: nat, p: Params, y: System, run: seq<Event>)
    requires C.Safe(y.settings)
    ensures C.Safe(After(genesis, p, y, run).settings)
    ensures y.settings.bridgeFee.symbol != C.NO_SYMBOL ==>
              After(genesis, p, y, run).settings.bridgeFee.symbol == y.settings.bridgeFee.symbol
  {
    hide Attempt, C.Attempt, R.Attempt;
    RunsProject(genesis, p, y, run);
    C.RunSafe(genesis, y.settings, ConfigRun(genesis, p, y, run));
  }

  /**
   Every step of every run has a supported version, the bridge fee last set, and at version 0
   the miner cut last set, which is at most 90%; and the unit of the ledger is that of the
   token, always.
   */
  lemma EnvSafe(genesis: nat, p: Params, y: System, run: seq<Event>, i: nat)
    requires C.Safe(y.settings) && y.settings.bridgeFee.symbol != C.NO_SYMBOL
    requires p.m == UnitOf(y.settings.bridgeFee.symbol.precision)
    requires i < |run| && run[i].Acting?
    ensures var env, now := EnvAt(genesis, p, y, run, i), After(genesis, p, y, run[..i]).settings;
            var actions := ConfigRun(genesis, p, y, run[..i]);
            && env.minerCut <= NINETY_PERCENT && env.version <= C.MAX_VERSION
            && env.bridgeFee == now.bridgeFee.amount == E.FeeSet(genesis, y.settings, actions).amount
            && (env.version == 0 ==> env.minerCut == E.CutSet(genesis, y.settings, actions))
            && now.bridgeFee.symbol.precision <= EVM_PRECISION && p.m == UnitOf(now.bridgeFee.symbol.precision)
  {
    hide Attempt, R.Attempt, C.Attempt, UnitOf, C.Safe;
    SettingsSafe(genesis, p, y, run[..i]);
    SafeRange(After(genesis, p, y, run[..i]).settings);
    FilledSafe(genesis, After(genesis, p, y, run[..i]), run[i].at, run[i].step);
    RunsProject(genesis, p, y, run[..i]);
    E.FeeIsLastSet(genesis, y.settings, ConfigRun(genesis, p, y, run[..i]));
    CutAt(genesis, p, y, run, i);
  }

  /** At version 0 the miner cut of a step is the one last set. */
  lemma CutAt(genesis: nat, p: Params, y: System, run: seq<Event>, i: nat)
    requires C.Safe(y.settings) && i < |run| && run[i].Acting?
    ensures EnvAt(genesis, p, y, run, i).version == 0 ==>
              EnvAt(genesis, p, y, run, i).minerCut == E.CutSet(genesis, y.settings, ConfigRun(genesis, p, y, run[..i]))
  {
    hide Attempt, R.Attempt, C.Attempt, C.Safe, EnvFor, After, ConfigRun;
    SettingsSafe(genesis, p, y, run[..i]);
    RunsProject(genesis, p, y, run[..i]);
    E.CutIsLastSet(genesis, y.settings, ConfigRun(genesis, p, y, run[..i]));
    if EnvAt(genesis, p, y, run, i).version == 0 {
      CutNow(genesis, After(genesis, p, y, run[..i]), run[i].at, run[i].step);
    }
  }

  lemma CutNow(genesis: nat, y: System, t: Time, step: R.Step)
    requires C.Safe(y.settings) && EnvFor(genesis, y, t, step).version == 0
    ensures EnvFor(genesis, y, t, step).minerCut == y.settings.minerCut && y.settings.version.cached == 0
  {
    hide C.Attempt;
    var a := ConfigPart(genesis, y, t, step);
    if a.Some? {
      ReadsKeepFee(genesis, y.settings, a.value);
    }
  }

  lemma SafeRange(s: C.Settings)
    requires C.Safe(s)
    ensures s.bridgeFee.symbol.precision <= EVM_PRECISION && 0 <= s.bridgeFee.amount
  {
  }

  lemma FilledSafe(genesis: nat, y: System, t: Time, step: R.Step)
    requires C.Safe(y.settings)
    ensures var env := EnvFor(genesis, y, t, step);
            && env.minerCut <= NINETY_PERCENT && env.version <= C.MAX_VERSION && env.bridgeFee == y.settings.bridgeFee.amount
  {
    hide C.Attempt;
    var a := ConfigPart(genesis, y, t, step);
    if a.Some? {
      C.DoSafe(genesis, y.settings, a.value);
      ReadsKeepFee(genesis, y.settings, a.value);
    }
  }

  lemma ReadsKeepFee(genesis: nat, s: C.Settings, a: C.Action)
    requires a.Depositing? || a.Transacting?
    ensures C.Do(genesis, s, a).bridgeFee == s.bridgeFee
    ensures C.VersionNow(genesis, C.Do(genesis, s, a), a.time) == C.VersionNow(genesis, s, a.time)
    ensures C.VersionNow(genesis, s, a.time) == 0 ==> C.Do(genesis, s, a).minerCut == s.minerCut
  {
  }

  lemma EnvVersion(genesis: nat, p: Params, y: System, run: seq<Event>, i: nat)
    requires i < |run| && run[i].Acting?
    ensures EnvAt(genesis, p, y, run, i).version == C.VersionNow(genesis, After(genesis, p, y, run[..i]).settings, run[i].at)
  {
    hide Attempt, R.Attempt, C.Attempt;
    var y1, e := After(genesis, p, y, run[..i]), run[i];
    var a := ConfigPart(genesis, y1, e.at, e.step);
    if a.Some? {
      ReadsKeepFee(genesis, y1.settings, a.value);
    }
  }

  /** No step runs at a lower version than an earlier one. */
  lemma VersionsGrow(genesis: nat, p: Params, y: System, start: Time, run: seq<Event>, i: nat, j: nat)
    requires C.Safe(y.settings) && InTimeOrder(start, run) && i <= j < |run| && run[i].Acting? && run[j].Acting?
    ensures EnvAt(genesis, p, y, run, i).version <= EnvAt(genesis, p, y, run, j).version
  {
    hide EnvAt, C.Safe, After;
    EnvVersion(genesis, p, y, run, i);
    EnvVersion(genesis, p, y, run, j);
    SettingsGrow(genesis, p, y, start, run, i, j);
  }

  lemma SettingsGrow(genesis: nat, p: Params, y: System, start: Time, run: seq<Event>, i: nat, j: nat)
    requires C.Safe(y.settings) && InTimeOrder(start, run) && i <= j < |run|
    ensures C.VersionNow(genesis, After(genesis, p, y, run[..i]).settings, run[i].When())
         <= C.VersionNow(genesis, After(genesis, p, y, run[..j]).settings, run[j].When())
  {
    hide Attempt, R.Attempt, C.Attempt, C.Safe, After, ConfigRun, LedgerRun, C.After, C.VersionNow;
    var actions, k := ConfigRun(genesis, p, y, run[..j]), |ConfigRun(genesis, p, y, run[..i])|;
    RunsProject(genesis, p, y, run[..i]);
    RunsProject(genesis, p, y, run[..j]);
    assert run[..j][..i] == run[..i];
    ConfigRunGrows(genesis, p, y, run[..j], i);
    ConfigRunOrdered(genesis, p, y, start, run[..j], run[j].When());
    LaterActions(genesis, p, y, run, i, j);
    assert actions[..k] == ConfigRun(genesis, p, y, run[..i]);
    C.VersionGrows(genesis, y.settings, start, actions, k, run[i].When(), run[j].When());
  }

  /** What follows event i in the configuration's run is not earlier. */
  lemma {:induction false} LaterActions(genesis: nat, p: Params, y: System, run: seq<Event>, i: nat, j: nat)
    requires i <= j <= |run| && forall k, l :: 0 <= k < l < |run| ==> run[k].When() <= run[l].When()
    ensures |ConfigRun(genesis, p, y, run[..i])| <= |ConfigRun(genesis, p, y, run[..j])|
    ensures forall k :: |ConfigRun(genesis, p, y, run[..i])| <= k < |ConfigRun(genesis, p, y, run[..j])| && i < |run| ==>
              run[i].When() <= ConfigRun(genesis, p, y, run[..j])[k].time
    decreases j
  {
    hide Attempt, C.Attempt, R.Attempt;
    if i < j {
      LaterActions(genesis, p, y, run, i, j - 1);
      assert run[..j][..j - 1] == run[..j - 1];
      SettingsStep(genesis, p, After(genesis, p, y, run[..j - 1]), run[j - 1]);
    }
  }

  // ----- The gas price of a step -----

  ghost predicate NoVersionThree(run: seq<Event>) {
    forall i :: 0 <= i < |run| && run[i].Configuring? && run[i].action.SettingVersion? ==> run[i].action.version < 3
  }

  lemma {:induction false} ConfigRunBelowThree(genesis: nat, p: Params, y: System, run: seq<Event>)
    requires NoVersionThree(run)
    ensures C.NoVersionThree(ConfigRun(genesis, p, y, run))
  {
    hide Attempt, C.Attempt, R.Attempt;
    if run != [] {
      ConfigRunBelowThree(genesis, p, y, run[..|run| - 1]);
    }
  }

  /** The step is about a transaction for the EVM. */
  predicate ForEvm(s: Ledger, step: R.Step) {
    || step.Pushing? || step.DepositingToEvm? || step.Calling? || step.AdminCalling?
    || (step.RunningInline? && step.index < |s.outbox| && s.outbox[step.index].Push?)
  }

  /** The event of a run that hands a transaction to the EVM, at version 1 or later. */
  ghost predicate Transacts(genesis: nat, p: Params, y: System, run: seq<Event>, i: nat)
    requires i < |run|
  {
    var y1 := After(genesis, p, y, run[..i]);
    && run[i].Acting? && Attempt(genesis, p, y1, run[i]).Commit? && ForEvm(y1.ledger, run[i].step)
    && C.VersionNow(genesis, y1.settings, run[i].at) >= 1
  }

  /** The price in force in a block: the last one set in the whole run that has become active. */
  function PriceIn(genesis: nat, p: Params, y: System, run: seq<Event>, b: nat): Word64 {
    Q.PriceAt(y.settings.queue.price, C.PriceHistory(genesis, y.settings, ConfigRun(genesis, p, y, run)), b)
  }

  lemma EvmPart(genesis: nat, y: System, t: Time, step: R.Step)
    requires ForEvm(y.ledger, step) && C.VersionNow(genesis, y.settings, t) >= 1
    ensures ConfigPart(genesis, y, t, step) == Some(C.Transacting(t))
  {
  }

  /** Where the transaction of event i stands in the configuration's run. */
  lemma TransactingAt(genesis: nat, p: Params, y: System, run: seq<Event>, i: nat)
    requires i < |run| && Transacts(genesis, p, y, run, i)
    ensures var actions, k := ConfigRun(genesis, p, y, run), |ConfigRun(genesis, p, y, run[..i])|;
            k < |actions| && actions[..k] == ConfigRun(genesis, p, y, run[..i]) && actions[k] == C.Transacting(run[i].at)
  {
    hide Attempt, C.Attempt, R.Attempt, ForEvm, ConfigPart, C.VersionNow;
    assert run[..i + 1][..i] == run[..i];
    EvmPart(genesis, After(genesis, p, y, run[..i]), run[i].at, run[i].step);
    ConfigRunGrows(genesis, p, y, run, i);
    ConfigRunGrows(genesis, p, y, run, i + 1);
  }

  /** At versions 1 and 2 a transaction is charged the price of its block. */
  lemma PriceOfStep(genesis: nat, p: Params, y: System, start: Time, run: seq<Event>, i: nat)
    requires C.Fresh(y.settings) && InTimeOrder(start, run) && NoVersionThree(run)
    requires i < |run| && Transacts(genesis, p, y, run, i)
    ensures EnvAt(genesis, p, y, run, i).gasPrice == PriceIn(genesis, p, y, run, Block(genesis, run[i].at))
  {
    hide Attempt, C.Attempt, R.Attempt, C.Transact, ForEvm, ConfigPart;
    EvmPart(genesis, After(genesis, p, y, run[..i]), run[i].at, run[i].step);
    var actions, k := ConfigRun(genesis, p, y, run), |ConfigRun(genesis, p, y, run[..i])|;
    TransactingAt(genesis, p, y, run, i);
    ConfigRunBelowThree(genesis, p, y, run);
    ConfigRunOrdered(genesis, p, y, start, run, run[|run| - 1].When());
    RunsProject(genesis, p, y, run[..i]);
    DoTransacts(genesis, After(genesis, p, y, run[..i]).settings, run[i].at);
    C.PriceOfBlock(genesis, y.settings, start, actions, k);
  }

  /** Whatever the version, a transaction is charged the price of its block among those set so far. */
  lemma PriceSoFar(genesis: nat, p: Params, y: System, start: Time, run: seq<Event>, i: nat)
    requires C.Fresh(y.settings) && InTimeOrder(start, run) && NoVersionThree(run)
    requires i < |run| && run[i].Acting? && ForEvm(After(genesis, p, y, run[..i]).ledger, run[i].step)
    ensures EnvAt(genesis, p, y, run, i).gasPrice == PriceIn(genesis, p, y, run[..i], Block(genesis, run[i].at))
  {
    hide Attempt, C.Attempt, R.Attempt, C.BringPriceUpToDate, ForEvm, EnvFor, After, ConfigRun, C.Fresh;
    var y1, actions := After(genesis, p, y, run[..i]), ConfigRun(genesis, p, y, run[..i]);
    ConfigRunBelowThree(genesis, p, y, run[..i]);
    ConfigRunOrdered(genesis, p, y, start, run[..i], run[i].at);
    RunsProject(genesis, p, y, run[..i]);
    E.PriceAmongThoseSet(genesis, y.settings, start, actions, run[i].at);
    PriceNow(genesis, y1, run[i].at, run[i].step);
  }

  lemma PriceNow(genesis: nat, y: System, t: Time, step: R.Step)
    requires ForEvm(y.ledger, step)
    ensures EnvFor(genesis, y, t, step).gasPrice == C.BringPriceUpToDate(genesis, y.settings, t).queue.price
  {
    hide C.BringPriceUpToDate, C.Do;
    SamePrice(genesis, y.settings, t);
  }

  lemma SamePrice(genesis: nat, s: C.Settings, t: Time)
    ensures C.Do(genesis, s, C.Transacting(t)).queue.price == C.BringPriceUpToDate(genesis, s, t).queue.price
    ensures C.Do(genesis, s, C.Depositing(t)).queue.price == C.BringPriceUpToDate(genesis, s, t).queue.price
  {
  }

  lemma DoTransacts(genesis: nat, s: C.Settings, t: Time)
    ensures C.Do(genesis, s, C.Transacting(t)) == C.Transact(genesis, s, t)
  {
  }

  // ----- The ledger in the joint run -----

  /** Validation and the EVM behave as assumed in every event that commits. */
  ghost predicate EvmBehavesIn(genesis: nat, p: Params, y: System, run: seq<Event>) {
    forall i :: 0 <= i < |run| ==> EvmBehavesAt(genesis, p, After(genesis, p, y, run[..i]), run[i])
  }

  ghost predicate EvmBehavesAt(genesis: nat, p: Params, y: System, e: Event) {
    StepIn(genesis, p, y, e).Some? ==> R.EvmBehaves(p, y.ledger, StepIn(genesis, p, y, e).value)
  }

  lemma CommitsInLedger(genesis: nat, p: Params, y: System, e: Event)
    requires e.Acting?
    ensures Attempt(genesis, p, y, e).Commit? <==> R.Attempt(p, y.ledger, Filled(genesis, y, e.at, e.step)).Commit?
  {
    hide C.Attempt, R.Attempt;
  }

  lemma {:induction false} LedgerKept(genesis: nat, p: Params, y: System, run: seq<Event>)
    requires Inv(p, y.ledger) && EvmBehavesIn(genesis, p, y, run)
    ensures Inv(p, After(genesis, p, y, run).ledger)
  {
    hide Attempt, C.Attempt, R.Attempt, Inv;
    if run != [] {
      var front, e := run[..|run| - 1], run[|run| - 1];
      PrefixBehaves(genesis, p, y, run, |run| - 1);
      LedgerKept(genesis, p, y, front);
      var y1 := After(genesis, p, y, front);
      LedgerStep(genesis, p, y1, e);
      if StepIn(genesis, p, y1, e).Some? {
        StepKeepsInv(p, y1.ledger, StepIn(genesis, p, y1, e).value);
      }
    }
  }

  lemma StepKeepsInv(p: Params, s: Ledger, step: R.Step)
    requires Inv(p, s) && R.EvmBehaves(p, s, step)
    ensures Inv(p, R.Do(p, s, step))
  {
    hide R.Attempt;
    R.DoKeeps(p, s, step);
  }

  lemma CutInRange(genesis: nat, p: Params, y: System, run: seq<Event>, i: nat)
    requires C.Fresh(y.settings) && i < |run| && run[i].Acting?
    ensures EnvAt(genesis, p, y, run, i).minerCut <= NINETY_PERCENT
  {
    hide Attempt, R.Attempt, C.Attempt;
    SettingsSafe(genesis, p, y, run[..i]);
    FilledSafe(genesis, After(genesis, p, y, run[..i]), run[i].at, run[i].step);
  }

  lemma PrefixBehaves(genesis: nat, p: Params, y: System, run: seq<Event>, i: nat)
    requires EvmBehavesIn(genesis, p, y, run) && i <= |run|
    ensures EvmBehavesIn(genesis, p, y, run[..i])
  {
    hide Attempt, R.Attempt, C.Attempt;
    forall k | 0 <= k < i
      ensures EvmBehavesAt(genesis, p, After(genesis, p, y, run[..i][..k]), run[..i][k])
    {
      assert run[..i][..k] == run[..k];
    }
  }

  lemma PushHonoured(p: Params, s: Ledger, push: R.Step)
    requires Inv(p, s) && push.Pushing? && R.EvmBehaves(p, s, push) && R.Attempt(p, s, push).Commit?
    requires push.env.version >= 1 && push.env.minerCut <= NINETY_PERCENT && push.minPrice.Some?
    requires MinerOf(p, push.miner) == Some(push.miner)
    ensures var s' := R.Do(p, s, push);
            var miner, tx, out := push.miner, push.tx, push.out;
            var part := out.gasUsed * Min(tx.maxPriorityFee, tx.maxFee - push.env.gasPrice);
            && miner in s.open && miner in s'.open
            && Value(p.m, s'.open[miner])
               == Value(p.m, s.open[miner]) + part + HeldBy(out.reserved, miner) + CarriedTo(out.messages, miner) - LentBy(tx, miner)
            && part >= out.gasUsed * push.minPrice.value
  {
    hide Value, FromValue, Plus, Minus, Promise, Capacity;
    InclusionPriceHonoured(p, push.env, push.chain, OUTSIDE_RULES, push.miner, push.tx, push.minPrice.value, push.out, s);
  }

  /**
   The inclusion price over every joint run: a pushed transaction that commits at version 1 or
   2 credits its miner with the gas used times the fee above the price of its block, and that
   is at least the gas used times what the miner asked for.
   */
  lemma MinerHonoured(genesis: nat, p: Params, y: System, start: Time, run: seq<Event>, i: nat)
    requires C.Fresh(y.settings) && Inv(p, y.ledger) && InTimeOrder(start, run) && NoVersionThree(run)
    requires EvmBehavesIn(genesis, p, y, run)
    requires i < |run| && Transacts(genesis, p, y, run, i) && run[i].step.Pushing? && run[i].step.minPrice.Some?
    requires MinerOf(p, run[i].step.miner) == Some(run[i].step.miner)
    ensures var s, s' := After(genesis, p, y, run[..i]).ledger, After(genesis, p, y, run[..i + 1]).ledger;
            var price := PriceIn(genesis, p, y, run, Block(genesis, run[i].at));
            var miner, tx, out := run[i].step.miner, run[i].step.tx, run[i].step.out;
            var part := out.gasUsed * Min(tx.maxPriorityFee, tx.maxFee - price);
            && miner in s.open && miner in s'.open
            && Value(p.m, s'.open[miner])
               == Value(p.m, s.open[miner]) + part + HeldBy(out.reserved, miner) + CarriedTo(out.messages, miner) - LentBy(tx, miner)
            && part >= out.gasUsed * run[i].step.minPrice.value
  {
    hide Attempt, R.Attempt, C.Attempt, Inv, Value;
    var y1, e := After(genesis, p, y, run[..i]), run[i];
    PriceOfStep(genesis, p, y, start, run, i);
    EnvVersion(genesis, p, y, run, i);
    CutInRange(genesis, p, y, run, i);
    PrefixBehaves(genesis, p, y, run, i);
    LedgerKept(genesis, p, y, run[..i]);
    assert run[..i + 1][..i] == run[..i];
    LedgerStep(genesis, p, y1, e);
    CommitsInLedger(genesis, p, y1, e);
    assert EvmBehavesAt(genesis, p, y1, e);
    PushHonoured(p, y1.ledger, Filled(genesis, y1, e.at, e.step));
  }

  /**
   Before version 1, over every joint run: a pushed transaction pays at least the price last
   set; its miner gets the share last set of the fee, and at least a tenth of the fee stays in
   the contract's row, if the EVM credited the fee to the contract's reserved address.
   */
  lemma TenthKept(genesis: nat, p: Params, y: System, start: Time, run: seq<Event>, i: nat)
    requires C.Fresh(y.settings) && Inv(p, y.ledger) && InTimeOrder(start, run) && NoVersionThree(run)
    requires EvmBehavesIn(genesis, p, y, run)
    requires i < |run| && run[i].Acting? && run[i].step.Pushing?
    requires Attempt(genesis, p, After(genesis, p, y, run[..i]), run[i]).Commit?
    requires EnvAt(genesis, p, y, run, i).version == 0
    requires run[i].step.miner != p.self && run[i].step.miner != 0
    requires run[i].step.out.gasUsed * run[i].step.tx.maxFee <= HeldBy(run[i].step.out.reserved, p.self)
    ensures var s, s' := After(genesis, p, y, run[..i]).ledger, After(genesis, p, y, run[..i + 1]).ledger;
            var miner, tx, out := run[i].step.miner, run[i].step.tx, run[i].step.out;
            var fee := out.gasUsed * tx.maxFee;
            var part := fee * E.CutSet(genesis, y.settings, ConfigRun(genesis, p, y, run[..i])) / HUNDRED_PERCENT;
            && tx.maxFee >= PriceIn(genesis, p, y, run[..i], Block(genesis, run[i].at))
            && miner in s.open && s'.open.Keys == s.open.Keys && p.self in s.open
            && Value(p.m, s'.open[miner])
               == Value(p.m, s.open[miner]) + part + HeldBy(out.reserved, miner) + CarriedTo(out.messages, miner)
            && var kept := Value(p.m, s'.open[p.self]) - Value(p.m, s.open[p.self]) - MessageGain(p, out.messages, p.self);
            kept == HeldBy(out.reserved, p.self) - part && 10 * kept >= fee
  {
    hide Attempt, R.Attempt, C.Attempt, Inv, Value;
    var y1, e := After(genesis, p, y, run[..i]), run[i];
    PriceSoFar(genesis, p, y, start, run, i);
    CutAt(genesis, p, y, run, i);
    CutInRange(genesis, p, y, run, i);
    PrefixBehaves(genesis, p, y, run, i);
    LedgerKept(genesis, p, y, run[..i]);
    assert run[..i + 1][..i] == run[..i];
    LedgerStep(genesis, p, y1, e);
    CommitsInLedger(genesis, p, y1, e);
    assert EvmBehavesAt(genesis, p, y1, e);
    PushKeepsTenth(p, y1.ledger, Filled(genesis, y1, e.at, e.step));
  }

  lemma PushKeepsTenth(p: Params, s: Ledger, push: R.Step)
    requires Inv(p, s) && push.Pushing? && R.EvmBehaves(p, s, push) && R.Attempt(p, s, push).Commit?
    requires push.env.version == 0 && push.env.minerCut <= NINETY_PERCENT && push.miner != p.self && push.miner != 0
    requires push.out.gasUsed * push.tx.maxFee <= HeldBy(push.out.reserved, p.self)
    ensures var s' := R.Do(p, s, push);
            var miner, tx, out := push.miner, push.tx, push.out;
            var fee := out.gasUsed * tx.maxFee;
            var part := fee * push.env.minerCut / HUNDRED_PERCENT;
            && tx.maxFee >= push.env.gasPrice
            && miner in s.open && s'.open.Keys == s.open.Keys && p.self in s.open
            && Value(p.m, s'.open[miner])
               == Value(p.m, s.open[miner]) + part + HeldBy(out.reserved, miner) + CarriedTo(out.messages, miner)
            && var kept := Value(p.m, s'.open[p.self]) - Value(p.m, s.open[p.self]) - MessageGain(p, out.messages, p.self);
            kept == HeldBy(out.reserved, p.self) - part && 10 * kept >= fee
  {
    hide Value, FromValue, Plus, Minus, Promise, Capacity;
    hide ProcessTx;
    PushAdmitted(p, s, push);
    ContractKeepsTenth(p, push.env, push.chain, OUTSIDE_RULES, push.miner, push.tx, push.out, s);
  }

  // ----- Histories of chain transactions -----

  type Transaction = seq<Event>

  predicate AllCommit(genesis: nat, p: Params, y: System, t: Transaction) {
    || t == []
    || (&& AllCommit(genesis, p, y, t[..|t| - 1])
        && Attempt(genesis, p, After(genesis, p, y, t[..|t| - 1]), t[|t| - 1]).Commit?)
  }

  predicate Succeeds(genesis: nat, p: Params, y: System, t: Transaction) {
    AllCommit(genesis, p, y, t) && After(genesis, p, y, t).ledger.outbox == []
  }

  /** All of a transaction, configuration included, or nothing of it. */
  function DoTransaction(genesis: nat, p: Params, y: System, t: Transaction): System {
    if Succeeds(genesis, p, y, t) then After(genesis, p, y, t) else y
  }

  function Ending(genesis: nat, p: Params, y: System, h: seq<Transaction>): System {
    if h == [] then y else DoTransaction(genesis, p, Ending(genesis, p, y, h[..|h| - 1]), h[|h| - 1])
  }

  /** The events of the transactions that commit, in order. */
  function Committed(genesis: nat, p: Params, y: System, h: seq<Transaction>): seq<Event> {
    if h == [] then []
    else
      var front, t := h[..|h| - 1], h[|h| - 1];
      Committed(genesis, p, y, front) + (if Succeeds(genesis, p, Ending(genesis, p, y, front), t) then t else [])
  }

  lemma {:induction false} AfterBoth(genesis: nat, p: Params, y: System, first: seq<Event>, second: seq<Event>)
    ensures After(genesis, p, y, first + second) == After(genesis, p, After(genesis, p, y, first), second)
    decreases |second|
  {
    hide Attempt, C.Attempt, R.Attempt;
    var run := first + second;
    if second == [] {
      assert run == first;
    } else {
      assert run[..|run| - 1] == first + second[..|second| - 1];
      AfterBoth(genesis, p, y, first, second[..|second| - 1]);
    }
  }

  lemma {:induction false} HistoryIsRun(genesis: nat, p: Params, y: System, h: seq<Transaction>)
    ensures Ending(genesis, p, y, h) == After(genesis, p, y, Committed(genesis, p, y, h))
    ensures y.ledger.outbox == [] ==> Ending(genesis, p, y, h).ledger.outbox == []
  {
    hide Attempt, C.Attempt, R.Attempt, AllCommit;
    if h != [] {
      var front, t := h[..|h| - 1], h[|h| - 1];
      HistoryIsRun(genesis, p, y, front);
      if Succeeds(genesis, p, Ending(genesis, p, y, front), t) {
        AfterBoth(genesis, p, y, Committed(genesis, p, y, front), t);
      } else {
        assert Committed(genesis, p, y, h) == Committed(genesis, p, y, front);
      }
    }
  }

  lemma {:induction false} BehavesInLedger(genesis: nat, p: Params, y: System, run: seq<Event>)
    requires EvmBehavesIn(genesis, p, y, run)
    ensures R.EvmBehavesIn(p, y.ledger, LedgerRun(genesis, p, y, run))
  {
    hide Attempt, C.Attempt, R.Attempt, R.EvmBehaves;
    if run != [] {
      var front, e := run[..|run| - 1], run[|run| - 1];
      var y1, before := After(genesis, p, y, front), LedgerRun(genesis, p, y, front);
      PrefixBehaves(genesis, p, y, run, |run| - 1);
      BehavesInLedger(genesis, p, y, front);
      RunsProject(genesis, p, y, front);
      var step := StepIn(genesis, p, y1, e);
      if step.Some? {
        assert EvmBehavesAt(genesis, p, y1, e);
        BehavesOnce(p, y.ledger, before, step.value);
      } else {
        assert LedgerRun(genesis, p, y, run) == before;
      }
    }
  }

  lemma BehavesOnce(p: Params, s: Ledger, run: seq<R.Step>, step: R.Step)
    requires R.EvmBehavesIn(p, s, run) && R.EvmBehaves(p, R.After(p, s, run), step)
    ensures R.EvmBehavesIn(p, s, run + [step])
  {
    hide R.Attempt, R.EvmBehaves;
    var more := run + [step];
    forall i | 0 <= i < |more|
      ensures R.EvmBehaves(p, R.After(p, s, more[..i]), more[i])
    {
      assert more[..i] == run[..i];
      if i == |run| {
        assert run[..i] == run;
      }
    }
  }

  /** The contract as `init` leaves it. */
  ghost predicate Initial(p: Params, token: int, y: System) {
    && C.Fresh(y.settings) && y.settings.bridgeFee.symbol != C.NO_SYMBOL
    && p.m == UnitOf(y.settings.bridgeFee.symbol.precision)
    && y.ledger == Init(p, token)
  }

  /**
   The contract as a whole, after any history of transactions: nothing is left waiting, the
   configuration is in order and counts in the ledger's unit, and the books balance in it.
   */
  lemma ContractSound(genesis: nat, p: Params, token: int, y: System, h: seq<Transaction>)
    requires Initial(p, token, y) && EvmBehavesIn(genesis, p, y, Committed(genesis, p, y, h))
    ensures var now, run := Ending(genesis, p, y, h), LedgerRun(genesis, p, y, Committed(genesis, p, y, h));
            && C.Safe(now.settings) && UnitOf(now.settings.bridgeFee.symbol.precision) == p.m
            && Inv(p, now.ledger) && now.ledger.outbox == []
            && now.ledger.token * p.m
               == token * p.m + R.Shifts(p, y.ledger, run) + Total(p.m, now.ledger.open) + Value(p.m, now.ledger.inevm)
            && Value(p.m, now.ledger.inevm) == Sum(now.ledger.evm) + R.Burns(p, y.ledger, run)
  {
    hide Attempt, C.Attempt, R.Attempt, C.Safe, UnitOf, Inv, Value, Total, Promise, Init;
    var events := Committed(genesis, p, y, h);
    var run := LedgerRun(genesis, p, y, events);
    HistoryIsRun(genesis, p, y, h);
    InitEmpty(p, token);
    FreshSafe(y.settings);
    SettingsSafe(genesis, p, y, events);
    SafeRange(Ending(genesis, p, y, h).settings);
    RunsProject(genesis, p, y, events);
    BehavesInLedger(genesis, p, y, events);
    R.RunSolvent(p, token, run);
    BooksOf(p, R.After(p, y.ledger, run));
  }

  lemma InitEmpty(p: Params, token: int)
    ensures Init(p, token).outbox == []
  {
  }

  lemma FreshSafe(s: C.Settings)
    requires C.Fresh(s)
    ensures C.Safe(s)
  {
  }

  lemma BooksOf(p: Params, s: Ledger)
    requires s.outbox == []
    ensures s.token * p.m == Surplus(p, s) + Total(p.m, s.open) + Value(p.m, s.inevm)
    ensures Value(p.m, s.inevm) == Sum(s.evm) + Slack(p, s)
  {
    hide Value, Total;
  }
}
