/** UTF-8 as section 3 of RFC 3629 defines it: the encoding of Unicode scalar values, and the strict decoder. */
module Utf8 {
  import opened Wrappers

  type Scalar = c: int | 0 <= c < 0xD800 || 0xE000 <= c <= 0x10FFFF witness 0
  type Byte = b: int | 0 <= b < 256 witness 0

  function EncodeOne(c: Scalar): (bytes: seq<Byte>)
    ensures 1 <= |bytes| <= 4
  {
    if c < 0x80 then [c]
    else if c < 0x800 then [0xC0 + c / 64, 0x80 + c % 64]
    else if c < 0x10000 then [0xE0 + c / 4096, 0x80 + c / 64 % 64, 0x80 + c % 64]
    else [0xF0 + c / 262144, 0x80 + c / 4096 % 64, 0x80 + c / 64 % 64, 0x80 + c % 64]
  }

  function Encode(s: seq<Scalar>): seq<Byte> {
    if s == [] then [] else EncodeOne(s[0]) + Encode(s[1..])
  }

  predicate Follows(bytes: seq<Byte>, i: nat) {
    i < |bytes| && 0x80 <= bytes[i] < 0xC0
  }

  datatype First = First(scalar: Scalar, length: nat)

  function Low(bytes: seq<Byte>, i: nat): int
    requires Follows(bytes, i)
  {
    bytes[i] - 0x80
  }

  function TwoBytes(bytes: seq<Byte>): Option<First>
    requires bytes != [] && 0xC0 <= bytes[0] < 0xE0
  {
    if !Follows(bytes, 1) then None else
      var c := (bytes[0] - 0xC0) * 64 + Low(bytes, 1);
      if c < 0x80 then None else Some(First(c, 2))
  }

  function ThreeBytes(bytes: seq<Byte>): Option<First>
    requires bytes != [] && 0xE0 <= bytes[0] < 0xF0
  {
    if !Follows(bytes, 1) || !Follows(bytes, 2) then None else
      var c := (bytes[0] - 0xE0) * 4096 + Low(bytes, 1) * 64 + Low(bytes, 2);
      if c < 0x800 || 0xD800 <= c < 0xE000 then None else Some(First(c, 3))
  }

  function FourBytes(bytes: seq<Byte>): Option<First>
    requires bytes != [] && 0xF0 <= bytes[0] < 0xF8
  {
    if !Follows(bytes, 1) || !Follows(bytes, 2) || !Follows(bytes, 3) then None else
      var c := (bytes[0] - 0xF0) * 262144 + Low(bytes, 1) * 4096 + Low(bytes, 2) * 64 + Low(bytes, 3);
      if c < 0x10000 || c > 0x10FFFF then None else Some(First(c, 4))
  }

  /** The scalar a byte sequence starts with; overlong forms, surrogates and stray bytes are refused. */
  function DecodeFirst(bytes: seq<Byte>): (r: Option<First>)
    requires bytes != []
    ensures r.Some? ==> 1 <= r.value.length <= |bytes|
  {
    var b := bytes[0];
    if b < 0x80 then Some(First(b, 1))
    else if 0xC0 <= b < 0xE0 then TwoBytes(bytes)
    else if 0xE0 <= b < 0xF0 then ThreeBytes(bytes)
    else if 0xF0 <= b < 0xF8 then FourBytes(bytes)
    else None
  }

  function Decode(bytes: seq<Byte>): Option<seq<Scalar>>
    decreases |bytes|
  {
    if bytes == [] then Some([]) else
      match DecodeFirst(bytes)
      case None => None
      case Some(first) =>
        match Decode(bytes[first.length..])
        case None => None
        case Some(rest) => Some([first.scalar] + rest)
  }

  lemma Digits(c: int)
    requires 0 <= c <= 0x10FFFF
    ensures c == c / 64 * 64 + c % 64
    ensures c == c / 4096 * 4096 + c / 64 % 64 * 64 + c % 64
    ensures c == c / 262144 * 262144 + c / 4096 % 64 * 4096 + c / 64 % 64 * 64 + c % 64
  {
    assert c / 4096 == c / 64 / 64 && c / 262144 == c / 4096 / 64;
  }

  /** What one scalar's bytes decode to, whatever follows them. */
  lemma DecodeFirstOfEncoded(c: Scalar, rest: seq<Byte>)
    ensures DecodeFirst(EncodeOne(c) + rest) == Some(First(c, |EncodeOne(c)|))
  {
    Digits(c);
  }

  lemma Assembled(high: int, low: int)
    requires 0 <= low < 64
    ensures (high * 64 + low) / 64 == high && (high * 64 + low) % 64 == low
  {
  }

  lemma EncodeOfTwo(bytes: seq<Byte>)
    requires bytes != [] && 0xC0 <= bytes[0] < 0xE0 && TwoBytes(bytes).Some?
    ensures EncodeOne(TwoBytes(bytes).value.scalar) == bytes[..2]
  {
    Assembled(bytes[0] - 0xC0, Low(bytes, 1));
    assert bytes[..2] == [bytes[0], bytes[1]];
  }

  lemma EncodeOfThree(bytes: seq<Byte>)
    requires bytes != [] && 0xE0 <= bytes[0] < 0xF0 && ThreeBytes(bytes).Some?
    ensures EncodeOne(ThreeBytes(bytes).value.scalar) == bytes[..3]
  {
    var c: int := ThreeBytes(bytes).value.scalar;
    var high := (bytes[0] - 0xE0) * 64 + Low(bytes, 1);
    assert c == high * 64 + Low(bytes, 2);
    Assembled(high, Low(bytes, 2));
    Assembled(bytes[0] - 0xE0, Low(bytes, 1));
    assert c / 4096 == c / 64 / 64;
    assert bytes[..3] == [bytes[0], bytes[1], bytes[2]];
  }

  lemma EncodeOfFour(bytes: seq<Byte>)
    requires bytes != [] && 0xF0 <= bytes[0] < 0xF8 && FourBytes(bytes).Some?
    ensures EncodeOne(FourBytes(bytes).value.scalar) == bytes[..4]
  {
    var c: int := FourBytes(bytes).value.scalar;
    var top := (bytes[0] - 0xF0) * 64 + Low(bytes, 1);
    var high := top * 64 + Low(bytes, 2);
    assert c == high * 64 + Low(bytes, 3);
    Assembled(high, Low(bytes, 3));
    Assembled(top, Low(bytes, 2));
    Assembled(bytes[0] - 0xF0, Low(bytes, 1));
    assert c / 4096 == c / 64 / 64 && c / 262144 == c / 64 / 64 / 64;
    assert bytes[..4] == [bytes[0], bytes[1], bytes[2], bytes[3]];
  }

  /** Only the shortest form is accepted: the bytes consumed are the scalar's own encoding. */
  lemma EncodeOfDecodedFirst(bytes: seq<Byte>)
    requires bytes != [] && DecodeFirst(bytes).Some?
    ensures EncodeOne(DecodeFirst(bytes).value.scalar) == bytes[..DecodeFirst(bytes).value.length]
  {
    var b := bytes[0];
    if b < 0x80 {
      assert bytes[..1] == [b];
    } else if b < 0xE0 {
      EncodeOfTwo(bytes);
    } else if b < 0xF0 {
      EncodeOfThree(bytes);
    } else {
      EncodeOfFour(bytes);
    }
  }

  lemma DecodeStep(bytes: seq<Byte>, first: First)
    requires bytes != [] && DecodeFirst(bytes) == Some(first)
    ensures 1 <= first.length <= |bytes|
    ensures Decode(bytes) == match Decode(bytes[first.length..])
                             case None => None
                             case Some(rest) => Some([first.scalar] + rest)
  {
  }

  lemma {:induction false} DecodeOfEncode(s: seq<Scalar>)
    ensures Decode(Encode(s)) == Some(s)
  {
    if s != [] {
      var first := First(s[0], |EncodeOne(s[0])|);
      DecodeFirstOfEncoded(s[0], Encode(s[1..]));
      DecodeStep(Encode(s), first);
      assert Encode(s)[first.length..] == Encode(s[1..]);
      DecodeOfEncode(s[1..]);
      assert [s[0]] + s[1..] == s;
    }
  }

  lemma EncodeStep(c: Scalar, rest: seq<Scalar>)
    ensures Encode([c] + rest) == EncodeOne(c) + Encode(rest)
  {
    assert ([c] + rest)[1..] == rest;
  }

  lemma EncodeOfJoined(bytes: seq<Byte>, first: First, rest: seq<Scalar>)
    requires first.length <= |bytes| && EncodeOne(first.scalar) == bytes[..first.length]
    requires Encode(rest) == bytes[first.length..]
    ensures Encode([first.scalar] + rest) == bytes
  {
    EncodeStep(first.scalar, rest);
    assert bytes == bytes[..first.length] + bytes[first.length..];
  }

  lemma {:induction false} EncodeOfDecode(bytes: seq<Byte>)
    requires Decode(bytes).Some?
    ensures Encode(Decode(bytes).value) == bytes
    decreases |bytes|
  {
    if bytes != [] {
      var first := DecodeFirst(bytes).value;
      DecodeStep(bytes, first);
      EncodeOfDecodedFirst(bytes);
      EncodeOfDecode(bytes[first.length..]);
      EncodeOfJoined(bytes, first, Decode(bytes[first.length..]).value);
    }
  }

  /** The decoder inverts the encoder exactly: one text has one encoding, and no other bytes decode to it. */
  lemma DecodesExactly(bytes: seq<Byte>, s: seq<Scalar>)
    ensures Decode(bytes) == Some(s) <==> bytes == Encode(s)
  {
    DecodeOfEncode(s);
    if Decode(bytes) == Some(s) { EncodeOfDecode(bytes); }
  }

  lemma {:induction false} EncodeConcat(a: seq<Scalar>, b: seq<Scalar>)
    ensures Encode(a + b) == Encode(a) + Encode(b)
  {
    if a == [] {
      assert a + b == b;
    } else {
      assert (a + b)[1..] == a[1..] + b;
      EncodeConcat(a[1..], b);
    }
  }
}
