/**
 The mapping from chain time to EVM block numbers (tests/external/eosevm/block_mapping.hpp).
 Time is in microseconds; `timestamp_us / 1e6` is taken as integer division.
 */
module BlockMapping {
  import opened Words

  const MICROS := 1_000_000

  /**
   Chain timestamps are 32-bit counts of half seconds from the start of the year 2000, so no
   block is later than this second.  It leaves room for the grace period below 2^32.
   */
  const LAST_SECOND := 946_684_800 + 0x8000_0000

  type Time = t: nat | t < (LAST_SECOND + 1) * MICROS

  /** The grace period of a new gas price, in seconds. */
  const GRACE_PERIOD := 180

  function Seconds(t: nat): nat {
    t / MICROS
  }

  /** `timestamp_to_evm_block_num`, with the conversion of its result to 32 bits. */
  function BlockNumber(genesis: nat, interval: nat, t: nat): nat {
    var step := if interval == 0 then 1 else interval;
    if Seconds(t) < genesis then 0 else (1 + (Seconds(t) - genesis) / step) % U32
  }

  /** `evm_block_num_to_evm_timestamp`. */
  function BlockTimestamp(genesis: nat, interval: nat, b: nat): nat {
    var step := if interval == 0 then 1 else interval;
    genesis + b * step
  }

  /** The contract always uses blocks of one second. */
  function Block(genesis: nat, t: nat): nat {
    BlockNumber(genesis, 1, t)
  }

  /** The first block in which a gas price set at time `now` is used. */
  function ActivationBlock(genesis: nat, now: Time): nat {
    (Block(genesis, now + GRACE_PERIOD * MICROS) + 1) % U32
  }

  /** Block b covers exactly the seconds from the timestamp of block b - 1 up to its own. */
  lemma BlockCoversSeconds(genesis: nat, interval: nat, t: nat, b: nat)
    requires 0 < interval && Seconds(t) < U32 - 1
    ensures b == 0 ==> (BlockNumber(genesis, interval, t) == b <==> Seconds(t) < genesis)
    ensures b > 0 ==>
              (BlockNumber(genesis, interval, t) == b <==>
               BlockTimestamp(genesis, interval, b - 1) <= Seconds(t) < BlockTimestamp(genesis, interval, b))
  {
    var d := Seconds(t) - genesis;
    if d >= 0 {
      var q, r := d / interval, d % interval;
      assert d == q * interval + r;
      QuotientIsSmall(d, interval);
      if b > 0 {
        CellOf(q, r, interval, b - 1);
        assert b * interval == (b - 1) * interval + interval;
      }
    }
  }

  lemma QuotientIsSmall(d: nat, interval: nat)
    requires 0 < interval
    ensures 0 <= d / interval <= d
  {
    var q := d / interval;
    SignOfMultiple(q, interval);
    SignOfMultiple(interval - 1, if q > 0 then q else 1);
    assert q * interval == q + q * (interval - 1);
  }

  lemma CellOf(q: nat, r: nat, interval: nat, c: nat)
    requires r < interval
    ensures q == c <==> c * interval <= q * interval + r < c * interval + interval
  {
    SignOfMultiple(q - c, interval);
    assert (q - c) * interval == q * interval - c * interval;
  }

  /** Later times never map to earlier blocks. */
  lemma BlockMonotonic(genesis: nat, t: nat, t': nat)
    requires t <= t' && Seconds(t') < U32 - 1
    ensures Block(genesis, t) <= Block(genesis, t')
  {
  }

  /** A price set in some block is used only in blocks after it, past the whole grace period. */
  lemma ActivationIsLater(genesis: nat, now: Time)
    ensures ActivationBlock(genesis, now) == Block(genesis, now + 180 * 1_000_000) + 1
    ensures genesis * 1_000_000 <= now ==> ActivationBlock(genesis, now) == Block(genesis, now) + 181
    ensures Block(genesis, now) < ActivationBlock(genesis, now)
  {
    BlockMonotonic(genesis, now, now + GRACE_PERIOD * MICROS);
  }

  lemma ActivationMonotonic(genesis: nat, t: Time, t': Time)
    requires t <= t'
    ensures ActivationBlock(genesis, t) <= ActivationBlock(genesis, t')
  {
    BlockMonotonic(genesis, t + GRACE_PERIOD * MICROS, t' + GRACE_PERIOD * MICROS);
    ActivationIsLater(genesis, t);
    ActivationIsLater(genesis, t');
  }
}
