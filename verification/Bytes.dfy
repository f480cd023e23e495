/**
 Byte strings and 256-bit words (src/utils.cpp): big-endian conversion and table keys.
 */
module Bytes {
  import opened Words

  type Byte = b: int | 0 <= b < 256

  function Pow256(n: nat): nat {
    if n == 0 then 1 else 256 * Pow256(n - 1)
  }

  lemma Pow256Word()
    ensures Pow256(32) == U256
  {
    assert Pow256(8) == U64;
    assert Pow256(16) == 0x1_0000_0000_0000_0000_0000_0000_0000_0000;
    assert Pow256(24) == 0x1_0000_0000_0000_0000_0000_0000_0000_0000_0000_0000_0000_0000;
  }

  function Zeros(n: nat): (z: seq<Byte>)
    ensures |z| == n && forall i :: 0 <= i < n ==> z[i] == 0
  {
    seq(n, _ => 0)
  }

  /** Big-endian value of a byte string. */
  function FromBytes(s: seq<Byte>): nat {
    if s == [] then 0 else 256 * FromBytes(s[..|s| - 1]) + s[|s| - 1]
  }

  /** The last n bytes of the big-endian form of v. */
  function ToBytes(v: nat, n: nat): (s: seq<Byte>)
    ensures |s| == n
    decreases n
  {
    if n == 0 then [] else ToBytes(v / 256, n - 1) + [v % 256]
  }

  /** `to_bytes` of a 256-bit word. */
  function Word(v: nat): (s: seq<Byte>)
    ensures |s| == 32
  {
    ToBytes(v, 32)
  }

  /** `to_uint256`: at most 32 bytes, taken as the low end of a word. */
  function ToUint256(s: seq<Byte>): Outcome<nat> {
    if |s| > 32 then Abort else Commit(FromBytes(Zeros(32 - |s|) + s))
  }

  /** `make_key`: at most 32 bytes, padded with zeros at the end. */
  function MakeKey(s: seq<Byte>): Outcome<seq<Byte>> {
    if |s| > 32 then Abort else Commit(s + Zeros(32 - |s|))
  }

  lemma {:induction false} ToThenFrom(v: nat, n: nat)
    requires v < Pow256(n)
    ensures FromBytes(ToBytes(v, n)) == v
    decreases n
  {
    if n > 0 {
      ToThenFrom(v / 256, n - 1);
      assert ToBytes(v, n)[..n - 1] == ToBytes(v / 256, n - 1);
    }
  }

  lemma {:induction false} FromThenTo(s: seq<Byte>)
    ensures ToBytes(FromBytes(s), |s|) == s
    ensures FromBytes(s) < Pow256(|s|)
  {
    if s != [] {
      FromThenTo(s[..|s| - 1]);
      assert s == s[..|s| - 1] + [s[|s| - 1]];
    }
  }

  lemma {:induction false} LeadingZeros(k: nat, s: seq<Byte>)
    ensures FromBytes(Zeros(k) + s) == FromBytes(s)
    decreases |s|, k
  {
    var t := Zeros(k) + s;
    if s != [] {
      LeadingZeros(k, s[..|s| - 1]);
      assert t[..|t| - 1] == Zeros(k) + s[..|s| - 1];
    } else if k > 0 {
      LeadingZeros(k - 1, s);
      assert t[..|t| - 1] == Zeros(k - 1) + s;
    }
  }

  /** A word survives the way into a table row and back. */
  lemma WordRoundTrip(v: nat)
    requires v < U256
    ensures FromBytes(Word(v)) == v
    ensures ToUint256(Word(v)) == Commit(v)
  {
    Pow256Word();
    ToThenFrom(v, 32);
    assert Zeros(0) + Word(v) == Word(v);
  }

  /** Up to 32 bytes survive as the tail of the word they denote. */
  lemma BytesRoundTrip(s: seq<Byte>)
    requires |s| <= 32
    ensures ToUint256(s) == Commit(FromBytes(s)) && FromBytes(s) < U256
    ensures Word(FromBytes(s)) == Zeros(32 - |s|) + s
  {
    Pow256Word();
    LeadingZeros(32 - |s|, s);
    FromThenTo(Zeros(32 - |s|) + s);
  }

  /** Index keys of two addresses, or of two words, agree only if these are the same. */
  lemma MakeKeyInjective(s: seq<Byte>, t: seq<Byte>)
    requires |s| == |t| <= 32 && MakeKey(s) == MakeKey(t)
    ensures s == t
  {
    var k := MakeKey(s).value;
    assert s == k[..|s|] && t == k[..|s|];
  }
}
