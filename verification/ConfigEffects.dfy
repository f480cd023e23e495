/**
 What administrative actions do to the configuration (src/config_wrapper.cpp), field by field
 and over whole runs: which gas parameters later blocks see, which miner cut and bridge fee are
 in force, and exactly when an action is accepted.
 */
module ConfigEffects {
  import opened Words
  import opened BlockMapping
  import opened Config
  import P = ValuePromoter
  import Q = PriceQueue

  // ----- Gas parameters -----

  /** The action changes the gas parameters, from the next block on. */
  predicate ChangesGas(genesis: nat, s: Settings, a: Action) {
    (a.SettingGasParams? || a.SettingRamPrice?) && Attempt(genesis, s, a).Commit?
  }

  ghost predicate NoChangeBetween(genesis: nat, s: Settings, run: seq<Action>, j: int, i: int)
    requires -1 <= j <= i <= |run|
  {
    forall k :: j < k < i ==> !ChangesGas(genesis, After(genesis, s, run[..k]), run[k])
  }

  /** The promoter holds v, pending since t or already promoted. */
  predicate Holds(g: P.Promoter<GasParams>, v: GasParams, t: Time) {
    g.pending == Some(P.Pending(v, t)) || g == P.Promoter(v, None)
  }

  lemma OtherActionsKeep(genesis: nat, s: Settings, a: Action, v: GasParams, t: Time)
    requires Holds(s.gasParams, v, t) && !ChangesGas(genesis, s, a)
    ensures Holds(Do(genesis, s, a).gasParams, v, t)
  {
    GasParamsFollowOp(genesis, s, a);
  }

  lemma {:induction false} HoldsUntil(genesis: nat, s: Settings, run: seq<Action>, j: nat, v: GasParams, t: Time)
    requires j <= |run| && Holds(After(genesis, s, run[..j]).gasParams, v, t) && NoChangeBetween(genesis, s, run, j - 1, |run|)
    ensures Holds(After(genesis, s, run).gasParams, v, t)
    decreases |run|
  {
    hide Attempt, Do;
    if j == |run| {
      assert run[..j] == run;
    } else {
      var front, a := run[..|run| - 1], run[|run| - 1];
      assert front[..j] == run[..j];
      forall k | j - 1 < k < |front|
        ensures !ChangesGas(genesis, After(genesis, s, front[..k]), front[k])
      {
        assert front[..k] == run[..k] && front[k] == run[k];
      }
      HoldsUntil(genesis, s, front, j, v, t);
      assert front == run[..|run| - 1];
      OtherActionsKeep(genesis, After(genesis, s, front), a, v, t);
    }
  }

  lemma SetHolds(genesis: nat, s: Settings, a: Action)
    requires ChangesGas(genesis, s, a)
    ensures var was := P.GetValue(genesis, s.gasParams, a.time);
            var v := if a.SettingGasParams? then ApplyGasUpdate(was, a.update)
                     else ApplyGasUpdate(was, ParamsForRamPrice(GasPerByteFor(genesis, s, a.ramPrice, a.price, a.time).value));
            Holds(Do(genesis, s, a).gasParams, v, a.time)
  {
    hide ApplyGasUpdate, GasPerByteFor;
    GasParamsFollowOp(genesis, s, a);
  }

  /** What was set at j is what i sees, in a later block and with no change in between. */
  lemma SeenAfterSet(genesis: nat, s: Settings, run: seq<Action>, j: nat, i: nat, v: GasParams)
    requires j < i < |run| && NoChangeBetween(genesis, s, run, j, i)
    requires Holds(After(genesis, s, run[..j + 1]).gasParams, v, run[j].time)
    requires Block(genesis, run[j].time) < Block(genesis, run[i].time)
    ensures GasParamsSeen(genesis, s, run, i) == v
  {
    hide Attempt, Do, ChangesGas;
    var front := run[..i];
    assert front[..j + 1] == run[..j + 1];
    forall k | j < k < i
      ensures !ChangesGas(genesis, After(genesis, s, front[..k]), front[k])
    {
      assert front[..k] == run[..k];
    }
    HoldsUntil(genesis, s, front, j + 1, v, run[j].time);
  }

  /**
   `setgasparam`, field by field: in later blocks, until the next change, each parameter is the
   value given for it, and one that was not given is what it was.
   */
  lemma GasParamsSet(genesis: nat, s: Settings, run: seq<Action>, j: nat, i: nat)
    requires j < i < |run| && NoChangeBetween(genesis, s, run, j, i)
    requires run[j].SettingGasParams? && Attempt(genesis, After(genesis, s, run[..j]), run[j]).Commit?
    requires Block(genesis, run[j].time) < Block(genesis, run[i].time)
    ensures var was, seen, u := GasParamsSeen(genesis, s, run, j), GasParamsSeen(genesis, s, run, i), run[j].update;
            && seen.txNewAccount == (if u.txNewAccount.Some? then u.txNewAccount.value else was.txNewAccount)
            && seen.newAccount == (if u.newAccount.Some? then u.newAccount.value else was.newAccount)
            && seen.txCreate == (if u.txCreate.Some? then u.txCreate.value else was.txCreate)
            && seen.codeDeposit == (if u.codeDeposit.Some? then u.codeDeposit.value else was.codeDeposit)
            && seen.sset == (if u.sset.Some? then u.sset.value else was.sset)
  {
    hide Attempt, Do;
    var before := After(genesis, s, run[..j]);
    assert run[..j + 1][..j] == run[..j];
    assert ChangesGas(genesis, before, run[j]);
    SetHolds(genesis, before, run[j]);
    SeenAfterSet(genesis, s, run, j, i, ApplyGasUpdate(GasParamsSeen(genesis, s, run, j), run[j].update));
  }

  /**
   `updtgasparam`: all five parameters follow from the gas per byte, the quotient of the RAM
   price of a megabyte by the gas price, plus one.
   */
  lemma GasParamsFromRam(genesis: nat, s: Settings, run: seq<Action>, j: nat, i: nat)
    requires j < i < |run| && NoChangeBetween(genesis, s, run, j, i)
    requires run[j].SettingRamPrice? && Attempt(genesis, After(genesis, s, run[..j]), run[j]).Commit?
    requires Block(genesis, run[j].time) < Block(genesis, run[i].time)
    ensures var symbol := After(genesis, s, run[..j]).bridgeFee.symbol;
            && run[j].ramPrice.symbol == symbol && symbol.precision <= EVM_PRECISION && run[j].price > 0
            && var g, seen := run[j].ramPrice.amount * UnitOf(symbol.precision) / (1048576 * run[j].price) + 1, GasParamsSeen(genesis, s, run, i);
            && seen.txNewAccount == 347 * g && seen.newAccount == 347 * g && seen.txCreate == 606 * g
            && seen.codeDeposit == g && seen.sset == 2900 + 346 * g
  {
    hide Attempt, Do;
    var before, a := After(genesis, s, run[..j]), run[j];
    assert run[..j + 1][..j] == run[..j];
    assert ChangesGas(genesis, before, a);
    SetHolds(genesis, before, a);
    RamAccepted(genesis, before, a);
    var g := GasPerByteFor(genesis, before, a.ramPrice, a.price, a.time).value;
    SeenAfterSet(genesis, s, run, j, i, ApplyGasUpdate(GasParamsSeen(genesis, s, run, j), ParamsForRamPrice(g)));
  }

  lemma RamAccepted(genesis: nat, s: Settings, a: Action)
    requires a.SettingRamPrice? && Attempt(genesis, s, a).Commit?
    ensures a.ramPrice.symbol == s.bridgeFee.symbol && a.ramPrice.symbol.precision <= EVM_PRECISION && a.price > 0
    ensures GasPerByteFor(genesis, s, a.ramPrice, a.price, a.time).Commit?
    ensures GasPerByteFor(genesis, s, a.ramPrice, a.price, a.time).value
         == a.ramPrice.amount * UnitOf(s.bridgeFee.symbol.precision) / (1048576 * a.price) + 1
  {
    hide RoundedGasPerByte;
    GasCoversRam(genesis, s, a.ramPrice, a.price, a.time);
  }

  /** Until the first change the parameters are those at the start. */
  lemma GasParamsUnchanged(genesis: nat, s: Settings, run: seq<Action>, i: nat)
    requires i < |run| && NoChangeBetween(genesis, s, run, -1, i) && s.gasParams.pending.None?
    ensures GasParamsSeen(genesis, s, run, i) == s.gasParams.cached
  {
    hide Attempt, Do, ChangesGas;
    var front := run[..i];
    forall k | -1 < k < i
      ensures !ChangesGas(genesis, After(genesis, s, front[..k]), front[k])
    {
      assert front[..k] == run[..k];
    }
    assert front[..0] == [];
    HoldsStill(genesis, s, front);
  }

  lemma {:induction false} HoldsStill(genesis: nat, s: Settings, run: seq<Action>)
    requires NoChangeBetween(genesis, s, run, -1, |run|) && s.gasParams.pending.None?
    ensures After(genesis, s, run).gasParams == s.gasParams
  {
    hide Attempt;
    if run != [] {
      var front, a := run[..|run| - 1], run[|run| - 1];
      forall k | -1 < k < |front|
        ensures !ChangesGas(genesis, After(genesis, s, front[..k]), front[k])
      {
        assert front[..k] == run[..k] && front[k] == run[k];
      }
      HoldsStill(genesis, s, front);
      assert !ChangesGas(genesis, After(genesis, s, front), a);
      GasParamsFollowOp(genesis, After(genesis, s, front), a);
    }
  }

  // ----- Miner cut and bridge fee -----

  /** The miner cut last set in a run. */
  function CutSet(genesis: nat, s: Settings, run: seq<Action>): nat {
    if run == [] then s.minerCut
    else
      var front, a := run[..|run| - 1], run[|run| - 1];
      if a.SettingFees? && a.fees.minerCut.Some? && Attempt(genesis, After(genesis, s, front), a).Commit?
      then a.fees.minerCut.value
      else CutSet(genesis, s, front)
  }

  /** The bridge fee last set in a run. */
  function FeeSet(genesis: nat, s: Settings, run: seq<Action>): Asset {
    if run == [] then s.bridgeFee
    else
      var front, a := run[..|run| - 1], run[|run| - 1];
      if a.SettingFees? && a.fees.bridgeFee.Some? && Attempt(genesis, After(genesis, s, front), a).Commit?
      then a.fees.bridgeFee.value
      else FeeSet(genesis, s, front)
  }

  lemma CutAfter(genesis: nat, s: Settings, a: Action)
    requires Safe(s)
    ensures Do(genesis, s, a).minerCut
         == if Do(genesis, s, a).version.cached >= 1 then 0
            else if a.SettingFees? && a.fees.minerCut.Some? && Attempt(genesis, s, a).Commit? then a.fees.minerCut.value
            else s.minerCut
  {
    DoEndsMinerCut(genesis, s, a);
  }

  lemma FeeAfter(genesis: nat, s: Settings, a: Action)
    ensures Do(genesis, s, a).bridgeFee
         == if a.SettingFees? && a.fees.bridgeFee.Some? && Attempt(genesis, s, a).Commit? then a.fees.bridgeFee.value else s.bridgeFee
  {
  }

  /** The miner cut in force is the one last set, until version 1 is promoted and ends it. */
  lemma {:induction false} CutIsLastSet(genesis: nat, s: Settings, run: seq<Action>)
    requires Safe(s)
    ensures After(genesis, s, run).minerCut
         == if After(genesis, s, run).version.cached >= 1 then 0 else CutSet(genesis, s, run)
  {
    hide Attempt, Do;
    if run != [] {
      var front, a := run[..|run| - 1], run[|run| - 1];
      CutIsLastSet(genesis, s, front);
      RunSafe(genesis, s, front);
      DoSafe(genesis, After(genesis, s, front), a);
      CutAfter(genesis, After(genesis, s, front), a);
    }
  }

  /** The bridge fee in force is the one last set. */
  lemma {:induction false} FeeIsLastSet(genesis: nat, s: Settings, run: seq<Action>)
    ensures After(genesis, s, run).bridgeFee == FeeSet(genesis, s, run)
  {
    hide Attempt, Do;
    if run != [] {
      FeeIsLastSet(genesis, s, run[..|run| - 1]);
      FeeAfter(genesis, After(genesis, s, run[..|run| - 1]), run[|run| - 1]);
    }
  }

  // ----- When an action is accepted -----

  /** A run from `init` on that stays below version 3, up to a time. */
  ghost predicate OrdinaryRun(s: Settings, start: Time, run: seq<Action>, now: Time) {
    && Fresh(s) && InTimeOrder(start, run) && NoVersionThree(run)
    && forall i :: 0 <= i < |run| ==> run[i].time <= now
  }

  /** The price a transaction would be charged now is that of its block among those set so far. */
  lemma PriceAmongThoseSet(genesis: nat, s: Settings, start: Time, run: seq<Action>, now: Time)
    requires OrdinaryRun(s, start, run, now)
    ensures BringPriceUpToDate(genesis, After(genesis, s, run), now).queue.price
         == Q.PriceAt(s.queue.price, PriceHistory(genesis, s, run), Block(genesis, now))
  {
    RunKeepsPrice(genesis, s, start, run, now);
    BringUpToDateKeeps(genesis, s.queue.price, PriceHistory(genesis, s, run), After(genesis, s, run), now);
  }

  /**
   `setfeeparams` in any run: a gas price is always accepted; a miner cut only at version 0 and
   up to 90%; a bridge fee only in the token's symbol and not negative.
   */
  lemma FeesAccepted(genesis: nat, s: Settings, start: Time, run: seq<Action>, fees: FeeParams, now: Time)
    requires OrdinaryRun(s, start, run, now)
    ensures var c := After(genesis, s, run);
            Attempt(genesis, c, SettingFees(now, fees)).Commit? <==>
              && (fees.minerCut.Some? ==> VersionNow(genesis, c, now) == 0 && fees.minerCut.value <= 90_000)
              && (fees.bridgeFee.Some? ==>
                    && fees.bridgeFee.value.amount >= 0 && fees.bridgeFee.value.symbol.precision <= 18
                    && (c.bridgeFee.symbol != NO_SYMBOL ==> fees.bridgeFee.value.symbol == c.bridgeFee.symbol))
  {
    if fees.gasPrice.Some? {
      EnqueueNeverAborts(genesis, s, start, run, now, fees.gasPrice.value);
    }
  }

  /** `setversion` in any run: to a supported, higher version, and to version 3 only with no price waiting. */
  lemma VersionAccepted(genesis: nat, s: Settings, start: Time, run: seq<Action>, v: nat, now: Time)
    requires OrdinaryRun(s, start, run, now)
    ensures var c := After(genesis, s, run);
            Attempt(genesis, c, SettingVersion(now, v)).Commit? <==>
              VersionNow(genesis, c, now) < v <= 3 && (v == 3 ==> c.queue.rows == [])
  {
    EnqueueNeverAborts(genesis, s, start, run, now, 0);
  }

  /** `setgasparam`: from version 1 on, with at least 2900 for a storage slot. */
  lemma GasParamsAccepted(genesis: nat, s: Settings, u: GasUpdate, now: Time)
    ensures Attempt(genesis, s, SettingGasParams(now, u)).Commit? <==>
              VersionNow(genesis, s, now) >= 1 && (u.sset.Some? ==> u.sset.value >= 2900)
  {
  }

  lemma SameQuotients(x: int, m: int, a: int, d: int)
    requires m > 0 && d > 0
    ensures x as real / m as real <= a as real / d as real <==> x * d <= a * m
  {
    var l, r := x as real / m as real, a as real / d as real;
    var scale := m as real * d as real;
    assert l * scale == (x * d) as real && r * scale == (a * m) as real;
    assert scale > 0.0;
    if l <= r {
      assert (r - l) * scale >= 0.0;
    } else {
      assert (l - r) * scale > 0.0;
    }
  }

  /** The checks on the gas per byte, in whole numbers. */
  lemma RoundedAccepted(m: Unit, a: int, price: Word64)
    requires price > 0
    ensures RoundedGasPerByte(m, a, price, 0).Commit? <==>
              && 0 <= a && a * m < OVERFLOW_LIMIT * 1048576
              && (24576 * 606 + 1) * (a * m / (1048576 * price) + 1) <= OVERFLOW_LIMIT
  {
    hide GasPerByte, CheckGasOverflow;
    RoundedPast(m, a, price);
    SameQuotients(OVERFLOW_LIMIT, m, a, 1048576);
    if GasPerByte(m, a, price, 0) >= 0.0 {
      LimitsOf((GasPerByte(m, a, price, 0) + 1.0).Floor);
    }
  }

  lemma LimitsOf(g: nat)
    requires g > 0
    ensures OVERFLOW_LIMIT as real / g as real > CONTRACT_FIXED_BYTES as real && CheckGasOverflow(g * CONTRACT_FIXED_BYTES, g)
            <==> (24576 * 606 + 1) * g <= OVERFLOW_LIMIT
  {
    hide CheckGasOverflow;
    assert CONTRACT_FIXED_BYTES as real == CONTRACT_FIXED_BYTES as real / 1 as real;
    SameQuotients(OVERFLOW_LIMIT, g, CONTRACT_FIXED_BYTES, 1);
    if CONTRACT_FIXED_BYTES * g < OVERFLOW_LIMIT {
      CheckGasOverflowExact(g * CONTRACT_FIXED_BYTES, g);
    }
  }

  /**
   `updtgasparam` in any run: at versions 1 and 2, in the token's symbol, for a positive gas
   price and a RAM price that is not negative and whose parameters do not overflow 63 bits.
   */
  lemma RamPriceAccepted(genesis: nat, s: Settings, start: Time, run: seq<Action>, ramPrice: Asset, price: Word64, now: Time)
    requires OrdinaryRun(s, start, run, now)
    ensures var c := After(genesis, s, run);
            && c.bridgeFee.symbol.precision <= EVM_PRECISION
            && var ram := ramPrice.amount * UnitOf(c.bridgeFee.symbol.precision);
            Attempt(genesis, c, SettingRamPrice(now, ramPrice, price)).Commit? <==>
              && 1 <= VersionNow(genesis, c, now) && ramPrice.symbol == c.bridgeFee.symbol && price > 0
              && 0 <= ramPrice.amount && ram < OVERFLOW_LIMIT * 1048576
              && (24576 * 606 + 1) * (ram / (1048576 * price) + 1) <= OVERFLOW_LIMIT
  {
    hide RoundedGasPerByte, UnitOf, UpdateByRamPrice, OrdinaryRun;
    var c := After(genesis, s, run);
    StaysBelowThree(genesis, s, start, run, now);
    PriceNeverAborts(genesis, s, start, run, price, now);
    RamPriceAt(genesis, c, UnitOf(c.bridgeFee.symbol.precision), ramPrice, price, now);
    if price > 0 {
      RoundedAccepted(UnitOf(c.bridgeFee.symbol.precision), ramPrice.amount, price);
    }
  }

  lemma RamPriceAt(genesis: nat, c: Settings, m: Unit, ramPrice: Asset, price: Word64, now: Time)
    requires VersionNow(genesis, c, now) < 3 && c.bridgeFee.symbol.precision <= EVM_PRECISION && m == UnitOf(c.bridgeFee.symbol.precision)
    requires forall g :: SetGasPrice(genesis, c.(gasParams := g), price, now).Commit?
    ensures UpdateByRamPrice(genesis, c, ramPrice, price, now).Commit? <==>
              && 1 <= VersionNow(genesis, c, now) && ramPrice.symbol == c.bridgeFee.symbol && price > 0
              && RoundedGasPerByte(m, ramPrice.amount, price, 0).Commit?
  {
    hide RoundedGasPerByte, UnitOf, SetGasPrice;
  }

  lemma StaysBelowThree(genesis: nat, s: Settings, start: Time, run: seq<Action>, now: Time)
    requires OrdinaryRun(s, start, run, now)
    ensures VersionNow(genesis, After(genesis, s, run), now) < 3
    ensures After(genesis, s, run).bridgeFee.symbol.precision <= EVM_PRECISION
  {
    RunKeepsPrice(genesis, s, start, run, now);
  }

  /** Setting a price does not depend on the gas parameters. */
  lemma PriceNeverAborts(genesis: nat, s: Settings, start: Time, run: seq<Action>, price: Word64, now: Time)
    requires OrdinaryRun(s, start, run, now)
    ensures forall g :: SetGasPrice(genesis, After(genesis, s, run).(gasParams := g), price, now).Commit?
  {
    EnqueueNeverAborts(genesis, s, start, run, now, price);
  }
}
