/**
 The object through which an action sees the configuration (src/config_wrapper.cpp,
 include/evm_runtime/config_wrapper.hpp): it loads the singleton, changes its own copy, and
 writes the copy back when the action ends if anything was marked as changed.
 */
module ConfigWrapper {
  import opened Words
  import opened BlockMapping
  import opened Config
  import P = ValuePromoter
  import Q = PriceQueue

  /** The configuration singleton; fields that came with later contract versions may be missing. */
  datatype Singleton = Singleton(
    gasPrice: Word64,
    minerCut: nat,
    bridgeFee: Asset,
    version: Option<P.Promoter<nat>>,
    gasParams: Option<P.Promoter<GasParams>>,
    frontBlock: Option<nat>)

  function OrElse<T>(o: Option<T>, d: T): T {
    if o.Some? then o.value else d
  }

  /** What is stored, with defaults for what is not; the price queue is a table of its own. */
  function Stored(c: Option<Singleton>, rows: seq<Q.Row>): Settings {
    match c
    case None => BLANK.(queue := Q.Queue(rows, 0, 0))
    case Some(c) => Settings(c.minerCut, c.bridgeFee, OrElse(c.version, BLANK.version), OrElse(c.gasParams, BLANK.gasParams),
                             Q.Queue(rows, OrElse(c.frontBlock, 0), c.gasPrice))
  }

  class Wrapper {
    const genesis: nat
    const now: Time
    const version: P.StoredPromoter<nat>
    const gasParams: P.StoredPromoter<GasParams>
    var stored: Option<Singleton>
    var gasPrice: Word64
    var minerCut: nat
    var bridgeFee: Asset
    var frontBlock: nat
    var dirty: bool
    var rows: seq<Q.Row>

    function State(): Settings
      reads this, version, gasParams
    {
      Settings(minerCut, bridgeFee, version.State(), gasParams.State(), Q.Queue(rows, frontBlock, gasPrice))
    }

    /** Nothing is lost: a copy that differs from what is stored is marked for writing. */
    ghost predicate NothingLost()
      reads this, version, gasParams
    {
      (version as object) != gasParams && (!dirty ==> Stored(stored, rows) == State())
    }

    /** Missing fields are filled in, and not marked as changes: the action may be read-only. */
    constructor (genesis: nat, now: Time, stored: Option<Singleton>, rows: seq<Q.Row>)
      ensures this.genesis == genesis && this.now == now && this.stored == stored && this.rows == rows
      ensures NothingLost() && !dirty && State() == Stored(stored, rows)
      ensures fresh(version) && fresh(gasParams)
    {
      var c := if stored.Some? then stored.value else Singleton(0, 0, Asset(0, NO_SYMBOL), None, None, None);
      this.genesis, this.now, this.stored, this.rows := genesis, now, stored, rows;
      gasPrice, minerCut, bridgeFee, dirty := c.gasPrice, c.minerCut, c.bridgeFee, false;
      version := new P.StoredPromoter(if c.version.Some? then c.version.value else P.Promoter(0, None));
      gasParams := new P.StoredPromoter(if c.gasParams.Some? then c.gasParams.value else P.Promoter(INITIAL_GAS_PARAMS, None));
      frontBlock := if c.frontBlock.Some? then c.frontBlock.value else 0;
    }

    /** `flush`: afterwards what is stored is the state the action left. */
    method Flush()
      requires NothingLost()
      modifies this
      ensures NothingLost() && Stored(stored, rows) == State() == old(State())
    {
      if !dirty {
        return;
      }
      stored := Some(Singleton(gasPrice, minerCut, bridgeFee, Some(version.State()), Some(gasParams.State()), Some(frontBlock)));
      dirty := false;
    }

    method Enqueue(price: Word64) returns (ok: bool)
      requires NothingLost()
      modifies this
      ensures NothingLost()
      ensures ok <==> Q.Enqueue(old(State()).queue, price, ActivationBlock(genesis, now)).Commit?
      ensures ok ==> State() == old(State()).(queue := Q.Enqueue(old(State()).queue, price, ActivationBlock(genesis, now)).value)
    {
      var a := ActivationBlock(genesis, now);
      var n := |rows|;
      if n > 0 {
        if a < rows[n - 1].block {
          return false;
        }
        if a == rows[n - 1].block {
          rows := rows[..n - 1] + [Q.Row(a, price)];
          return true;
        }
      }
      rows := rows + [Q.Row(a, price)];
      if frontBlock == 0 {
        frontBlock := a;
        dirty := true;
      }
      return true;
    }

    /** `process_queue`, row by row from the front of the table. */
    method ProcessQueue()
      requires NothingLost()
      modifies this
      ensures NothingLost()
      ensures State() == old(State()).(queue := Q.Process(old(State()).queue, Block(genesis, now)))
    {
      var b := Block(genesis, now);
      if frontBlock == 0 || b < frontBlock {
        return;
      }
      while rows != [] && b >= rows[0].block
        invariant NothingLost()
        invariant Q.Scan(State().queue, b) == Q.Scan(old(State()).queue, b)
        invariant State() == old(State()).(queue := State().queue)
        decreases |rows|
      {
        gasPrice := rows[0].price;
        rows := rows[1..];
        frontBlock := Q.FrontOf(rows);
        dirty := true;
      }
    }

    /** `get_evm_version`. */
    function EvmVersion(): nat
      reads version
    {
      P.GetValue(genesis, version.State(), now)
    }

    /** What happens to the price before a deposit or a transaction, below version 3. */
    method ProcessPriceQueue()
      requires NothingLost()
      modifies this
      ensures NothingLost() && State() == BringPriceUpToDate(genesis, old(State()), now)
    {
      if 1 <= EvmVersion() < 3 {
        ProcessQueue();
      }
    }

    method GetEvmVersionAndMaybePromote() returns (current: nat)
      requires NothingLost()
      modifies this, version
      ensures NothingLost()
      ensures current == VersionNow(genesis, old(State()), now) == VersionNow(genesis, State(), now)
      ensures State() == PromoteVersion(genesis, old(State()), now)
    {
      var promoted;
      current, promoted := version.GetValueAndMaybePromote(genesis, now);
      if promoted {
        if current >= 1 && minerCut != 0 {
          minerCut := 0;
        }
        dirty := true;
      }
    }

    /** The configuration's part in a transaction: price, version, gas parameters, in this order. */
    method BeginTransaction() returns (current: nat)
      requires NothingLost()
      modifies this, version, gasParams
      ensures NothingLost() && State() == Config.Transact(genesis, old(State()), now)
      ensures current == VersionNow(genesis, old(State()), now)
    {
      ProcessPriceQueue();
      current := GetEvmVersionAndMaybePromote();
      var _, promoted := gasParams.GetValueAndMaybePromote(genesis, now);
      if promoted {
        dirty := true;
      }
    }

    method SetEvmVersion(newVersion: nat) returns (ok: bool)
      requires NothingLost()
      modifies this, version
      ensures NothingLost()
      ensures ok <==> SetVersion(genesis, old(State()), newVersion, now).Commit?
      ensures ok ==> SetVersion(genesis, old(State()), newVersion, now) == Commit(State())
    {
      if newVersion > MAX_VERSION {
        return false;
      }
      if newVersion == 3 && frontBlock != 0 {
        return false;
      }
      var current := GetEvmVersionAndMaybePromote();
      if newVersion <= current {
        return false;
      }
      version.ApplyUpdate(genesis, _ => newVersion, now);
      dirty := true;
      return true;
    }

    method SetFeeParameters(fees: FeeParams, mayOmit: bool) returns (ok: bool)
      requires NothingLost()
      modifies this
      ensures ok ==> NothingLost()
      ensures ok <==> SetFees(genesis, old(State()), fees, mayOmit, now).Commit?
      ensures ok ==> SetFees(genesis, old(State()), fees, mayOmit, now) == Commit(State())
    {
      ok := SetGasPriceFrom(fees.gasPrice, mayOmit);
      if !ok {
        return;
      }
      if fees.minerCut.Some? {
        if EvmVersion() != 0 || fees.minerCut.value > NINETY_PERCENT {
          return false;
        }
        minerCut := fees.minerCut.value;
      } else if !mayOmit {
        return false;
      }
      if fees.bridgeFee.Some? {
        var fee := fees.bridgeFee.value;
        if bridgeFee.symbol != NO_SYMBOL && fee.symbol != bridgeFee.symbol {
          return false;
        }
        if fee.amount < 0 || fee.symbol.precision > EVM_PRECISION {
          return false;
        }
        bridgeFee := fee;
      } else if !mayOmit {
        return false;
      }
      dirty := true;
    }

    method SetGasPriceFrom(price: Option<Word64>, mayOmit: bool) returns (ok: bool)
      requires NothingLost()
      modifies this
      ensures ok ==> NothingLost()
      ensures price.None? ==> ok == mayOmit && State() == old(State())
      ensures price.Some? ==> (ok <==> SetGasPrice(genesis, old(State()), price.value, now).Commit?)
      ensures price.Some? && ok ==> SetGasPrice(genesis, old(State()), price.value, now) == Commit(State())
    {
      if price.None? {
        return mayOmit;
      }
      if EvmVersion() >= 1 {
        ok := Enqueue(price.value);
      } else {
        gasPrice := price.value;
        dirty := true;
        return true;
      }
    }

    method UpdateConsensusParameters2(u: GasUpdate) returns (ok: bool)
      requires NothingLost()
      modifies this, gasParams
      ensures NothingLost()
      ensures ok <==> UpdateGasParams(genesis, old(State()), u, now).Commit?
      ensures ok ==> UpdateGasParams(genesis, old(State()), u, now) == Commit(State())
    {
      if EvmVersion() < 1 {
        return false;
      }
      if u.sset.Some? && u.sset.value < GAS_SSET_MIN {
        return false;
      }
      gasParams.ApplyUpdate(genesis, p => ApplyGasUpdate(p, u), now);
      dirty := true;
      return true;
    }

    /** `update_consensus_parameters`: gas per byte, parameters and price. */
    method UpdateConsensusParameters(ramPrice: Asset, price: Word64) returns (ok: bool)
      requires NothingLost()
      modifies this, gasParams
      ensures ok ==> NothingLost()
      ensures ok <==> UpdateByRamPrice(genesis, old(State()), ramPrice, price, now).Commit?
      ensures ok ==> UpdateByRamPrice(genesis, old(State()), ramPrice, price, now) == Commit(State())
    {
      hide UpdateGasParams, SetGasPrice;
      var g := FindGasPerByte(ramPrice, price);
      if g.Abort? {
        return false;
      }
      ok := UpdateConsensusParameters2(ParamsForRamPrice(g.value));
      if ok {
        ok := SetGasPriceFrom(Some(price), true);
      }
    }

    /** The gas per byte and the checks around it, the floating point taken as exact. */
    method FindGasPerByte(ramPrice: Asset, price: Word64) returns (r: Outcome<nat>)
      ensures r == GasPerByteFor(genesis, State(), ramPrice, price, now)
    {
      if EvmVersion() >= 3 || ramPrice.symbol != bridgeFee.symbol || price == 0 {
        return Abort;
      }
      var cut := if EvmVersion() >= 1 then 0 else minerCut;
      if cut >= HUNDRED_PERCENT {
        return Abort;
      }
      var unit := PowerOfTen(EVM_PRECISION - bridgeFee.symbol.precision);
      if unit.Abort? {
        return Abort;
      }
      return RoundedGasPerByte(unit.value, ramPrice.amount, price, cut);
    }
  }
}
