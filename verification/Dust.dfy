/**
 Balances with dust (include/evm_runtime/tables.hpp, `balance_with_dust`).

 A balance is a number of whole token units plus dust, the part too small for the token:
 its value in wei is amount * m + dust with dust < m.  `Plus` and `Minus` state on exact
 integers what the two compound assignments are for; the class performs them as the contract
 does, word by word, and is proved to meet them.
 */
module Dust {
  import opened Words

  datatype Balance = Balance(amount: int, dust: int) {
    predicate IsZero() {
      dust == 0 && amount == 0
    }
  }

  predicate Valid(m: Unit, b: Balance) {
    0 <= b.amount <= MAX_ASSET && 0 <= b.dust < m
  }

  function Value(m: Unit, b: Balance): int {
    b.amount * m + b.dust
  }

  /** One more than the value of the largest balance there is. */
  function Capacity(m: Unit): int {
    (MAX_ASSET + 1) * m
  }

  /** The one balance of a given value whose dust is below the unit. */
  function FromValue(m: Unit, v: int): (b: Balance)
    ensures Value(m, b) == v
    ensures 0 <= b.dust < m
  {
    Balance(v / m, v % m)
  }

  /** The sum, provided its whole part is an amount an asset may hold. */
  function Plus(m: Unit, b: Balance, x: nat): Outcome<Balance> {
    var v := Value(m, b) + x;
    if v / m <= MAX_ASSET then Commit(FromValue(m, v)) else Abort
  }

  /** The difference, provided there is enough to take from. */
  function Minus(m: Unit, b: Balance, x: nat): Outcome<Balance> {
    if x <= Value(m, b) then Commit(FromValue(m, Value(m, b) - x)) else Abort
  }

  lemma QuotientAndRemainder(m: Unit, q: int, r: int)
    requires 0 <= r < m
    ensures (q * m + r) / m == q
    ensures (q * m + r) % m == r
  {
    var v := q * m + r;
    assert (v / m - q) * m == r - v % m;
    SignOfMultiple(v / m - q, m);
  }

  lemma QuotientMonotonic(m: Unit, a: int, b: int)
    requires a <= b
    ensures a / m <= b / m
  {
    var qa, qb, ra, rb := a / m, b / m, a % m, b % m;
    assert a == qa * m + ra && b == qb * m + rb;
    assert (qa - qb) * m == qa * m - qb * m;
    SignOfMultiple(qa - qb, m);
  }

  /** A valid balance is worth at least nothing, and is determined by its value. */
  lemma ValidByValue(m: Unit, b: Balance)
    requires Valid(m, b)
    ensures 0 <= Value(m, b) < Capacity(m)
    ensures FromValue(m, Value(m, b)) == b
    ensures b.IsZero() <==> Value(m, b) == 0
  {
    assert FromValue(m, Value(m, b)) == b by {
      QuotientAndRemainder(m, b.amount, b.dust);
    }
    assert 0 <= Value(m, b) && (b.IsZero() <==> Value(m, b) == 0) by {
      SignOfMultiple(b.amount, m);
    }
    assert Value(m, b) < Capacity(m) by {
      SignOfMultiple(MAX_ASSET - b.amount, m);
      assert (MAX_ASSET - b.amount) * m == MAX_ASSET * m - b.amount * m;
    }
  }

  lemma PlusExact(m: Unit, b: Balance, x: nat)
    requires Valid(m, b)
    ensures var r := Plus(m, b, x);
            && (r.Commit? <==> Value(m, b) + x < Capacity(m))
            && (r.Commit? ==> Valid(m, r.value) && Value(m, r.value) == Value(m, b) + x)
  {
    ValidByValue(m, b);
    var v := Value(m, b) + x;
    QuotientMonotonic(m, 0, v);
    QuotientAndRemainder(m, MAX_ASSET, m - 1);
    if v < (MAX_ASSET + 1) * m {
      QuotientMonotonic(m, v, MAX_ASSET * m + (m - 1));
    } else {
      QuotientAndRemainder(m, MAX_ASSET + 1, 0);
      QuotientMonotonic(m, (MAX_ASSET + 1) * m + 0, v);
    }
  }

  lemma MinusExact(m: Unit, b: Balance, x: nat)
    requires Valid(m, b)
    ensures var r := Minus(m, b, x);
            && (r.Commit? <==> x <= Value(m, b))
            && (r.Commit? ==> Valid(m, r.value) && Value(m, r.value) == Value(m, b) - x)
  {
    if x <= Value(m, b) {
      ValidByValue(m, b);
      QuotientMonotonic(m, 0, Value(m, b) - x);
      QuotientMonotonic(m, Value(m, b) - x, Value(m, b));
      assert Value(m, b) / m == b.amount;
    }
  }

  /** Taking out what was put in restores the row exactly. */
  lemma PlusThenMinus(m: Unit, b: Balance, x: nat)
    requires Valid(m, b) && Plus(m, b, x).Commit?
    ensures Minus(m, Plus(m, b, x).value, x) == Commit(b)
  {
    ValidByValue(m, b);
  }

  /**
   The borrow test: the dust word is decremented modulo 2^64, and because a unit is below
   2^63 its top bit is set exactly when the true difference is negative.
   */
  lemma Bit63DetectsBorrow(m: Unit, dust: int, rem: int)
    requires 0 <= dust < m && 0 <= rem < m
    ensures Bit63(Wrap64(dust - rem)) <==> dust < rem
    ensures Wrap64(dust - rem) == if dust < rem then dust - rem + U64 else dust - rem
    ensures dust < rem ==> Wrap64(Wrap64(dust - rem) + m) == dust - rem + m
  {
  }

  /** Whole part and dust after an addition, the dust brought back below the unit. */
  function WithCarry(m: Unit, q: int, d: int): Balance {
    if d < m then Balance(q, d) else Balance(q + 1, d - m)
  }

  /** Whole part and dust after a subtraction, the dust brought back to at least zero. */
  function WithBorrow(m: Unit, q: int, d: int): Balance {
    if d >= 0 then Balance(q, d) else Balance(q - 1, d + m)
  }

  /** A balance row as the contract stores it: an asset and a dust word, updated in place. */
  class BalanceWithDust {
    const hasSymbol: bool
    const precision: nat
    var amount: int
    var dust: int

    /** What every stored row satisfies; dust is read against the unit of the symbol. */
    ghost predicate Stored()
      reads this
    {
      precision <= EVM_PRECISION ==> Valid(UnitOf(precision), Contents())
    }

    function Contents(): Balance
      reads this
    {
      Balance(amount, dust)
    }

    constructor (hasSymbol: bool, precision: nat)
      ensures this.hasSymbol == hasSymbol && this.precision == precision
      ensures Stored() && Contents() == Balance(0, 0)
    {
      this.hasSymbol, this.precision := hasSymbol, precision;
      amount, dust := 0, 0;
    }

    /** The unit the row is counted in; aborts for an empty symbol or a precision above 18. */
    method FindUnit() returns (m: Outcome<int>)
      ensures m.Commit? <==> hasSymbol && precision <= EVM_PRECISION
      ensures m.Commit? ==> m.value == UnitOf(precision)
    {
      if !hasSymbol {
        return Abort;
      }
      m := PowerOfTen(EVM_PRECISION - precision);
    }

    /**
     An asset added to the whole part: the sum of two signed words may wrap around, but then it
     is out of the range of assets, which is checked.
     */
    method AddAsset(quantity: int) returns (ok: bool)
      requires 0 <= amount <= MAX_ASSET && -U63 <= quantity <= U63
      modifies this`amount
      ensures ok <==> -MAX_ASSET <= old(amount) + quantity <= MAX_ASSET
      ensures ok ==> amount == old(amount) + quantity
    {
      amount := WrapSigned64(amount + quantity);
      return -MAX_ASSET <= amount <= MAX_ASSET;
    }

    /** `operator+=`.  False is an abort: the chain then discards whatever was written. */
    method AddAssign(x: Word256) returns (ok: bool)
      requires Stored()
      modifies this
      ensures ok ==> Stored()
      ensures ok <==> && hasSymbol && precision <= EVM_PRECISION
                      && Plus(UnitOf(precision), old(Contents()), x).Commit?
      ensures ok ==> Plus(UnitOf(precision), old(Contents()), x) == Commit(Contents())
    {
      var unit := FindUnit();
      if unit.Abort? {
        return false;
      }
      var m: Unit := unit.value;
      AddWords(m, Contents(), x);
      ok := AddParts(m, x / m, x % m);
    }

    /** The additions of `operator+=` on its two words, with the carry from one to the other. */
    method AddParts(m: Unit, quot: nat, rem: nat) returns (ok: bool)
      requires Valid(m, Contents()) && rem < m
      modifies this
      ensures ok <==> WithCarry(m, old(amount) + quot, old(dust) + rem).amount <= MAX_ASSET
      ensures ok ==> Contents() == WithCarry(m, old(amount) + quot, old(dust) + rem)
    {
      if quot > MAX_ASSET || amount > MAX_ASSET {
        return false;
      }
      amount := WrapSigned64(amount + quot);
      dust := Wrap64(dust + rem);
      if dust >= m {
        amount := WrapSigned64(amount + 1);
        dust := Wrap64(dust - m);
      }
      return amount <= MAX_ASSET;
    }

    /** `operator-=`, with the borrow found in the top bit of the dust word. */
    method SubAssign(x: Word256) returns (ok: bool)
      requires Stored()
      modifies this
      ensures ok ==> Stored()
      ensures ok <==> && hasSymbol && precision <= EVM_PRECISION
                      && Minus(UnitOf(precision), old(Contents()), x).Commit?
      ensures ok ==> Minus(UnitOf(precision), old(Contents()), x) == Commit(Contents())
    {
      var unit := FindUnit();
      if unit.Abort? {
        return false;
      }
      var m: Unit := unit.value;
      SubWords(m, Contents(), x);
      ok := SubParts(m, x / m, x % m);
    }

    /** The subtractions of `operator-=`; the top bit of the dust word tells of a borrow. */
    method SubParts(m: Unit, quot: nat, rem: nat) returns (ok: bool)
      requires Valid(m, Contents()) && rem < m
      modifies this
      ensures ok <==> WithBorrow(m, old(amount) - quot, old(dust) - rem).amount >= 0
      ensures ok ==> Contents() == WithBorrow(m, old(amount) - quot, old(dust) - rem)
    {
      if quot > amount {
        return false;
      }
      Bit63DetectsBorrow(m, dust, rem);
      amount := WrapSigned64(amount - quot);
      dust := Wrap64(dust - rem);
      if Bit63(dust) {
        amount := WrapSigned64(amount - 1);
        dust := Wrap64(dust + m);
        if amount < 0 {
          return false;
        }
      }
      return true;
    }
  }

  /** Quotient, remainder and carry give the exact sum. */
  lemma AddWords(m: Unit, b: Balance, x: nat)
    requires Valid(m, b)
    ensures var s := WithCarry(m, b.amount + x / m, b.dust + x % m);
            && x / m >= 0 && Plus(m, b, x) == (if s.amount <= MAX_ASSET then Commit(s) else Abort)
  {
    var q, d := b.amount + x / m, b.dust + x % m;
    QuotientMonotonic(m, 0, x);
    assert Value(m, b) + x == q * m + d;
    if d < m {
      QuotientAndRemainder(m, q, d);
    } else {
      assert q * m + d == (q + 1) * m + (d - m);
      QuotientAndRemainder(m, q + 1, d - m);
    }
  }

  /** Quotient, remainder and borrow give the exact difference. */
  lemma SubWords(m: Unit, b: Balance, x: nat)
    requires Valid(m, b)
    ensures var s := WithBorrow(m, b.amount - x / m, b.dust - x % m);
            && x / m >= 0 && Minus(m, b, x) == (if s.amount >= 0 then Commit(s) else Abort)
  {
    var q, d := b.amount - x / m, b.dust - x % m;
    QuotientMonotonic(m, 0, x);
    var v := Value(m, b) - x;
    assert v == q * m + d;
    if d >= 0 {
      QuotientAndRemainder(m, q, d);
      SignOfDigits(m, q, d);
    } else {
      assert v == (q - 1) * m + (d + m);
      QuotientAndRemainder(m, q - 1, d + m);
      SignOfDigits(m, q - 1, d + m);
    }
  }

  lemma SignOfDigits(m: Unit, q: int, r: int)
    requires 0 <= r < m
    ensures q * m + r >= 0 <==> q >= 0
  {
    SignOfMultiple(q, m);
  }
}
