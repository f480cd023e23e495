/**
 Machine words of the contract (src/utils.cpp, include/evm_runtime/types.hpp).

 Integers are unbounded in Dafny, so every place where the contract relies on, or could be
 hurt by, a fixed width is written with one of the wrapping functions below.
 */
module Words {

  const U32 := 0x1_0000_0000
  const U63 := 0x8000_0000_0000_0000
  const U64 := 0x1_0000_0000_0000_0000
  const U256 := 0x1_0000_0000_0000_0000_0000_0000_0000_0000_0000_0000_0000_0000_0000_0000_0000_0000

  /** The largest magnitude an asset may carry, 2^62 - 1. */
  const MAX_ASSET := 0x3fff_ffff_ffff_ffff

  const EVM_PRECISION := 18

  /** Shares are counted in thousandths of a percent. */
  const HUNDRED_PERCENT := 100_000
  const NINETY_PERCENT := 90_000

  /** 10^18: the unit of a token with precision 0, and the largest unit there is. */
  const MAX_UNIT := 1_000_000_000_000_000_000

  /** How many EVM units (wei) one smallest unit of the token is worth. */
  type Unit = m: int | 1 <= m <= MAX_UNIT witness 1

  /** Unsigned and signed machine words. */
  type Word64 = w: nat | w < U64
  type Word256 = w: nat | w < U256
  type Int64 = q: int | -U63 <= q < U63

  /** A check that fails aborts the action, and with it the whole chain transaction. */
  datatype Outcome<+T> = Commit(value: T) | Abort {
    predicate IsFailure() {
      Abort?
    }

    function PropagateFailure<U>(): Outcome<U>
      requires Abort?
    {
      Abort
    }

    function Extract(): T
      requires Commit?
    {
      value
    }
  }

  datatype Option<+T> = None | Some(value: T)

  /** The value kept by an unsigned 64-bit word. */
  function Wrap64(x: int): Word64 {
    x % U64
  }

  /** The value kept by an unsigned 256-bit word. */
  function Wrap256(x: int): Word256 {
    x % U256
  }

  /** The value kept by a signed (two's complement) 64-bit word. */
  function WrapSigned64(x: int): Int64 {
    (x + U63) % U64 - U63
  }

  /** The test `w & (1 << 63)` on an unsigned 64-bit word. */
  predicate Bit63(w: int)
  {
    w / U63 % 2 == 1
  }

  function Pow10(n: nat): int {
    if n == 0 then 1 else 10 * Pow10(n - 1)
  }

  lemma {:induction false} Pow10Monotonic(a: nat, b: nat)
    requires a <= b
    ensures 1 <= Pow10(a) <= Pow10(b)
    decreases b
  {
    if a < b {
      Pow10Monotonic(a, b - 1);
    } else if a > 0 {
      Pow10Monotonic(a - 1, b - 1);
    }
  }

  lemma Pow10Eighteen()
    ensures Pow10(18) == MAX_UNIT
  {
    assert Pow10(6) == 1_000_000;
    assert Pow10(12) == 1_000_000_000_000;
  }

  /** The unit of a token with the given precision. */
  function UnitOf(precision: nat): (m: Unit)
    requires precision <= EVM_PRECISION
    ensures precision == EVM_PRECISION ==> m == 1
    ensures precision < EVM_PRECISION ==> m == 10 * UnitOf(precision + 1)
    decreases EVM_PRECISION - precision
  {
    Pow10Monotonic(EVM_PRECISION - precision, EVM_PRECISION);
    Pow10Eighteen();
    Pow10(EVM_PRECISION - precision)
  }

  /**
   `pow10_const`: 10^v computed by repeated multiplication in one unsigned 64-bit word,
   rejecting negative exponents.  The word is exact for every exponent the contract uses.
   */
  method PowerOfTen(v: int) returns (r: Outcome<int>)
    ensures r.Commit? <==> v >= 0
    ensures v >= 0 ==> r.value == Wrap64(Pow10(v))
    ensures 0 <= v <= EVM_PRECISION ==> r.value == Pow10(v) == UnitOf(EVM_PRECISION - v)
  {
    if v < 0 {
      return Abort;
    }
    var w: int, i := 1, 0;
    while i < v
      invariant 0 <= i <= v
      invariant w == Wrap64(Pow10(i))
    {
      WrapTimesTen(Pow10(i));
      w, i := Wrap64(w * 10), i + 1;
    }
    if v <= EVM_PRECISION {
      Pow10Monotonic(v, EVM_PRECISION);
      Pow10Eighteen();
    }
    return Commit(w);
  }

  lemma WrapTimesTen(x: int)
    ensures Wrap64(Wrap64(x) * 10) == Wrap64(10 * x)
  {
    var k := x / U64;
    assert Wrap64(x) * 10 == 10 * x - 10 * k * U64;
    assert (10 * x - 10 * k * U64) % U64 == (10 * x) % U64;
  }

  lemma SignOfMultiple(k: int, m: int)
    requires m >= 1
    ensures k >= 1 ==> k * m >= m
    ensures k <= -1 ==> k * m <= -m
    ensures k >= 0 <==> k * m >= 0
  {
    if k >= 1 {
      assert (k - 1) * m >= 0;
    } else if k <= -1 {
      assert (k + 1) * m <= 0;
    }
  }
}
