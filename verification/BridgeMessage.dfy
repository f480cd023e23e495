/**
 Decoding of bridge messages (include/evm_runtime/bridge.hpp): calls of
 bridgeMsgV0(string,bool,bytes) in the encoding of the Contract ABI Specification.
 */
module BridgeMessage {
  import opened Words
  import opened Bytes

  datatype Message = Message(account: seq<Byte>, forceAtomic: bool, data: seq<Byte>)

  /** The first four bytes of a call of bridgeMsgV0. */
  const SELECTOR: seq<Byte> := [0xf7, 0x81, 0x18, 0x5b]

  /** Offset of the account name, after three words of parameters. */
  const ACCOUNT_OFFSET := 0x60

  /** Offset of the data when the account name takes one word. */
  const DATA_OFFSET := 0xA0

  // ----- The encoding, as the specification has it -----

  /** Length rounded up to whole words. */
  function PaddedLength(n: nat): nat {
    (n + 31) / 32 * 32
  }

  function Padded(s: seq<Byte>): seq<Byte> {
    s + Zeros(PaddedLength(|s|) - |s|)
  }

  function Flag(b: bool): nat {
    if b then 1 else 0
  }

  /** A length and the bytes it counts, padded to whole words. */
  function EncodeString(s: seq<Byte>): seq<Byte> {
    Word(|s|) + Padded(s)
  }

  /** Selector and the three parameter words, with the given offset of the data. */
  function Header(forceAtomic: bool, dataOffset: nat): seq<Byte> {
    SELECTOR + (Word(ACCOUNT_OFFSET) + (Word(Flag(forceAtomic)) + Word(dataOffset)))
  }

  /** Where the data begins, after the account name. */
  function DataOffset(m: Message): nat {
    ACCOUNT_OFFSET + 32 + PaddedLength(|m.account|)
  }

  function EncodeStrings(m: Message): seq<Byte> {
    EncodeString(m.account) + EncodeString(m.data)
  }

  function Encode(m: Message): seq<Byte> {
    Header(m.forceAtomic, DataOffset(m)) + EncodeStrings(m)
  }

  // ----- What the decoder computes -----

  /** The first n bytes and the rest; reading past the end aborts. */
  function Take(s: seq<Byte>, n: nat): Outcome<(seq<Byte>, seq<Byte>)> {
    if n <= |s| then Commit((s[..n], s[n..])) else Abort
  }

  function TakeWord(s: seq<Byte>): Outcome<(nat, seq<Byte>)> {
    var t :- Take(s, 32);
    Commit((FromBytes(t.0), t.1))
  }

  /** The padded length as the decoder finds it, in unsigned 32-bit arithmetic. */
  function PaddedLength32(n: nat): nat {
    (n + 31) % U32 / 32 * 32
  }

  /** Cut to length n, or extended with zeros. */
  function Resized(s: seq<Byte>, n: nat): seq<Byte> {
    if n <= |s| then s[..n] else s + Zeros(n - |s|)
  }

  /** A length word followed by that many bytes, padded. */
  function TakeString(s: seq<Byte>): Outcome<(seq<Byte>, seq<Byte>)> {
    var len :- TakeWord(s);
    if len.0 >= U32 - 1 then Abort
    else
      var raw :- Take(len.1, PaddedLength32(len.0));
      Commit((Resized(raw.0, len.0), raw.1))
  }

  function DecodeStrings(forceAtomic: bool, s: seq<Byte>): Outcome<Message> {
    var account :- TakeString(s);
    var data :- TakeString(account.1);
    Commit(Message(account.0, forceAtomic, data.0))
  }

  function DecodeV0(s: seq<Byte>): Outcome<Message> {
    var p1 :- TakeWord(s);
    if p1.0 != ACCOUNT_OFFSET then Abort
    else
      var p2 :- TakeWord(p1.1);
      if p2.0 > 1 then Abort
      else
        var p3 :- TakeWord(p2.1);
        if p3.0 != DATA_OFFSET then Abort else DecodeStrings(p2.0 == 1, p3.1)
  }

  function Wrapped(r: Outcome<Message>): Outcome<Option<Message>> {
    if r.Commit? then Commit(Some(r.value)) else Abort
  }

  /** A message of another kind is no error but no message either. */
  function Decode(s: seq<Byte>): Outcome<Option<Message>> {
    var id :- Take(s, 4);
    if id.0 == SELECTOR then Wrapped(DecodeV0(id.1)) else Commit(None)
  }

  // ----- The decoder, reading from a stream -----

  /** `eosio::datastream`: a cursor over a byte string. */
  class DataStream {
    const bytes: seq<Byte>
    var pos: nat

    predicate Valid()
      reads this
    {
      pos <= |bytes|
    }

    function Rest(): seq<Byte>
      requires Valid()
      reads this
    {
      bytes[pos..]
    }

    constructor (bytes: seq<Byte>)
      ensures Valid() && Rest() == bytes
    {
      this.bytes, pos := bytes, 0;
    }

    method Read(n: nat) returns (r: Outcome<seq<Byte>>)
      requires Valid()
      modifies this
      ensures Valid()
      ensures match Take(old(Rest()), n)
              case Commit((front, rest)) => r == Commit(front) && Rest() == rest
              case Abort => r.Abort?
    {
      if pos + n > |bytes| {
        return Abort;
      }
      assert bytes[pos..][..n] == bytes[pos..pos + n] && bytes[pos..][n..] == bytes[pos + n..];
      r := Commit(bytes[pos..pos + n]);
      pos := pos + n;
    }

    method ReadWord() returns (r: Outcome<nat>)
      requires Valid()
      modifies this
      ensures Valid()
      ensures match TakeWord(old(Rest()))
              case Commit((w, rest)) => r == Commit(w) && Rest() == rest
              case Abort => r.Abort?
    {
      var b := Read(32);
      if b.Abort? {
        return Abort;
      }
      return Commit(FromBytes(b.value));
    }

    method ReadString() returns (r: Outcome<seq<Byte>>)
      requires Valid()
      modifies this
      ensures Valid()
      ensures match TakeString(old(Rest()))
              case Commit((t, rest)) => r == Commit(t) && Rest() == rest
              case Abort => r.Abort?
    {
      var len := ReadWord();
      if len.Abort? || len.value >= U32 - 1 {
        return Abort;
      }
      var raw := Read(PaddedLength32(len.value));
      if raw.Abort? {
        return Abort;
      }
      return Commit(Resized(raw.value, len.value));
    }
  }

  method DecodeMessageV0(ds: DataStream) returns (r: Outcome<Message>)
    requires ds.Valid()
    modifies ds
    ensures ds.Valid()
    ensures r == DecodeV0(old(ds.Rest()))
  {
    var offset1 := ds.ReadWord();
    if offset1.Abort? || offset1.value != ACCOUNT_OFFSET {
      return Abort;
    }
    var value2 := ds.ReadWord();
    if value2.Abort? || value2.value > 1 {
      return Abort;
    }
    var offset3 := ds.ReadWord();
    if offset3.Abort? || offset3.value != DATA_OFFSET {
      return Abort;
    }
    var account := ds.ReadString();
    if account.Abort? {
      return Abort;
    }
    var data := ds.ReadString();
    if data.Abort? {
      return Abort;
    }
    return Commit(Message(account.value, value2.value == 1, data.value));
  }

  method DecodeMessage(bytes: seq<Byte>) returns (r: Outcome<Option<Message>>)
    ensures r == Decode(bytes)
  {
    var ds := new DataStream(bytes);
    var id := ds.Read(4);
    if id.Abort? {
      return Abort;
    }
    if id.value != SELECTOR {
      return Commit(None);
    }
    var m := DecodeMessageV0(ds);
    if m.Abort? {
      return Abort;
    }
    return Commit(Some(m.value));
  }

  // ----- Encoding and decoding -----

  lemma TakeAcross(s: seq<Byte>, rest: seq<Byte>)
    ensures Take(s + rest, |s|) == Commit((s, rest))
  {
  }

  lemma TakeWordAcross(v: nat, rest: seq<Byte>)
    requires v < U256
    ensures TakeWord(Word(v) + rest) == Commit((v, rest))
  {
    TakeAcross(Word(v), rest);
    WordRoundTrip(v);
  }

  /** Does a string come back from its encoding?  Beyond 2^32 - 32 bytes only if it is all zeros. */
  predicate Survives(s: seq<Byte>) {
    |s| <= U32 - 32 || (|s| < U32 - 1 && s == Zeros(|s|))
  }

  lemma PaddedLengths(n: nat)
    ensures n <= PaddedLength(n) < n + 32
    ensures PaddedLength(n) == 32 <==> 1 <= n <= 32
    ensures n <= U32 - 32 ==> PaddedLength32(n) == PaddedLength(n)
    ensures U32 - 32 < n < U32 - 1 ==> PaddedLength32(n) == 0
  {
  }

  lemma TakeStringAcross(s: seq<Byte>, rest: seq<Byte>)
    requires |s| < U256
    ensures |s| <= U32 - 32 ==> TakeString(EncodeString(s) + rest) == Commit((s, rest))
    ensures U32 - 32 < |s| < U32 - 1 ==> TakeString(EncodeString(s) + rest) == Commit((Zeros(|s|), Padded(s) + rest))
    ensures |s| >= U32 - 1 ==> TakeString(EncodeString(s) + rest) == Abort
  {
    assert EncodeString(s) + rest == Word(|s|) + (Padded(s) + rest);
    TakeWordAcross(|s|, Padded(s) + rest);
    PaddedLengths(|s|);
    if |s| <= U32 - 32 {
      TakeAcross(Padded(s), rest);
      assert Padded(s)[..|s|] == s;
    } else if |s| < U32 - 1 {
      TakeAcross([], Padded(s) + rest);
      assert [] + (Padded(s) + rest) == Padded(s) + rest;
      assert [] + Zeros(|s|) == Zeros(|s|);
    }
  }

  /** Past the header nothing but the offset of the data decides whether the strings are read. */
  lemma HeaderAcross(forceAtomic: bool, dataOffset: nat, strings: seq<Byte>)
    requires dataOffset < U256
    ensures Decode(Header(forceAtomic, dataOffset) + strings)
         == if dataOffset == DATA_OFFSET then Wrapped(DecodeStrings(forceAtomic, strings)) else Abort
  {
    var s3 := Word(dataOffset) + strings;
    var s2 := Word(Flag(forceAtomic)) + s3;
    var s1 := Word(ACCOUNT_OFFSET) + s2;
    assert Header(forceAtomic, dataOffset) + strings == SELECTOR + s1;
    TakeAcross(SELECTOR, s1);
    TakeWordAcross(ACCOUNT_OFFSET, s2);
    TakeWordAcross(Flag(forceAtomic), s3);
    TakeWordAcross(dataOffset, strings);
  }

  /**
   The decoder returns what was encoded exactly for account names of 1 to 32 bytes, which is
   what its fixed second offset allows, with data of at most 2^32 - 32 bytes; the rounding of
   longer data wraps around and only zeros come back.
   */
  lemma RoundTrip(m: Message)
    requires |m.account| < U256 - 256 && |m.data| < U256
    ensures Decode(Encode(m)) == Commit(Some(m)) <==> 1 <= |m.account| <= 32 && Survives(m.data)
  {
    assert DataOffset(m) < U256 by {
      PaddedLengths(|m.account|);
    }
    HeaderAcross(m.forceAtomic, DataOffset(m), EncodeStrings(m));
    RoundTripPastHeader(m, Decode(Encode(m)));
  }

  lemma RoundTripPastHeader(m: Message, r: Outcome<Option<Message>>)
    requires |m.data| < U256
    requires r == if DataOffset(m) == DATA_OFFSET then Wrapped(DecodeStrings(m.forceAtomic, EncodeStrings(m))) else Abort
    ensures r == Commit(Some(m)) <==> 1 <= |m.account| <= 32 && Survives(m.data)
  {
    PaddedLengths(|m.account|);
    if 1 <= |m.account| <= 32 {
      StringsAcross(m);
    }
  }

  lemma StringsAcross(m: Message)
    requires |m.account| <= 32 && |m.data| < U256
    ensures DecodeStrings(m.forceAtomic, EncodeStrings(m)) == Commit(m) <==> Survives(m.data)
  {
    TakeStringAcross(m.account, EncodeString(m.data));
    TakeStringAcross(m.data, []);
    assert EncodeString(m.data) + [] == EncodeString(m.data);
  }

  /** A padded string as the decoder accepts it: the padding need not be zeros. */
  ghost predicate LaidOut(s: seq<Byte>, raw: seq<Byte>, rest: seq<Byte>, content: seq<Byte>) {
    && s == Word(|content|) + (raw + rest)
    && (|content| <= U32 - 32 ==> |raw| == PaddedLength(|content|) && raw[..|content|] == content)
  }

  /** Whatever is accepted is laid out like an encoding of what is returned. */
  lemma DecodeSound(s: seq<Byte>)
    returns (strings: seq<Byte>, account: seq<Byte>, more: seq<Byte>, data: seq<Byte>, rest: seq<Byte>)
    requires Decode(s).Commit? && Decode(s).value.Some?
    ensures var m := Decode(s).value.value;
            && s == Header(m.forceAtomic, DATA_OFFSET) + strings
            && LaidOut(strings, account, more, m.account)
            && LaidOut(more, data, rest, m.data)
  {
    strings := HeaderSound(s);
    account, more := TakeStringSound(strings);
    data, rest := TakeStringSound(more);
  }

  lemma HeaderSound(s: seq<Byte>) returns (strings: seq<Byte>)
    requires Decode(s).Commit? && Decode(s).value.Some?
    ensures s == Header(Decode(s).value.value.forceAtomic, DATA_OFFSET) + strings
    ensures DecodeStrings(Decode(s).value.value.forceAtomic, strings) == Commit(Decode(s).value.value)
  {
    var body := s[4..];
    assert s == s[..4] + body;
    var m := Decode(s).value.value;
    strings := ParametersSound(body);
    HeaderJoins(s, m.forceAtomic, strings);
  }

  lemma HeaderJoins(s: seq<Byte>, forceAtomic: bool, strings: seq<Byte>)
    requires s == SELECTOR + (Word(ACCOUNT_OFFSET) + (Word(Flag(forceAtomic)) + (Word(DATA_OFFSET) + strings)))
    ensures s == Header(forceAtomic, DATA_OFFSET) + strings
  {
  }

  lemma ParametersSound(s: seq<Byte>) returns (strings: seq<Byte>)
    requires DecodeV0(s).Commit?
    ensures var m := DecodeV0(s).value;
            && s == Word(ACCOUNT_OFFSET) + (Word(Flag(m.forceAtomic)) + (Word(DATA_OFFSET) + strings))
            && DecodeStrings(m.forceAtomic, strings) == Commit(m)
  {
    var s1 := TakeWordSound(s);
    var s2 := TakeWordSound(s1);
    strings := TakeWordSound(s2);
    assert TakeWord(s1).value.0 == Flag(DecodeV0(s).value.forceAtomic);
  }

  lemma TakeWordSound(s: seq<Byte>) returns (rest: seq<Byte>)
    requires TakeWord(s).Commit?
    ensures TakeWord(s).value.1 == rest && s == Word(TakeWord(s).value.0) + rest
  {
    rest := s[32..];
    FromThenTo(s[..32]);
    assert s == s[..32] + rest;
  }

  lemma TakeStringSound(s: seq<Byte>) returns (raw: seq<Byte>, rest: seq<Byte>)
    requires TakeString(s).Commit?
    ensures TakeString(s).value.1 == rest
    ensures LaidOut(s, raw, rest, TakeString(s).value.0)
  {
    var body := TakeWordSound(s);
    var len := TakeWord(s).value.0;
    PaddedLengths(len);
    var n := PaddedLength32(len);
    raw, rest := body[..n], body[n..];
    assert body == raw + rest;
    assert |Resized(raw, len)| == len;
  }
}
