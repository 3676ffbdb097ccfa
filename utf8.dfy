/** UTF-8 (RFC 3629), the encoding Python's `str.encode()` uses by default,
    with a strict decoder as its inverse. */
module Utf8 {
  import opened Wrappers
  import opened Bytes

  /** A Unicode scalar value: a code point that is not a surrogate. */
  predicate IsScalar(v: int) {
    0 <= v < 0xD800 || 0xE000 <= v < 0x11_0000
  }

  predicate IsContinuation(b: byte) {
    0x80 <= b < 0xC0
  }

  /** The one to four bytes of a character's UTF-8 form (RFC 3629, section 3). */
  function EncodeChar(c: char): (bs: seq<byte>)
    ensures 1 <= |bs| <= 4
    ensures |bs| == 1 <==> (c as int) < 0x80
    ensures forall i :: 1 <= i < |bs| ==> IsContinuation(bs[i])
  {
    var n := c as int;
    var q1 := n / 64;
    var q2 := q1 / 64;
    var q3 := q2 / 64;
    if n < 0x80 then [n]
    else if n < 0x800 then [0xC0 + q1, 0x80 + n % 64]
    else if n < 0x1_0000 then [0xE0 + q2, 0x80 + q1 % 64, 0x80 + n % 64]
    else [0xF0 + q3, 0x80 + q2 % 64, 0x80 + q1 % 64, 0x80 + n % 64]
  }

  /** `s.encode()`: the characters' UTF-8 forms, in order. */
  function Encode(s: string): seq<byte>
    decreases |s|
  {
    if |s| == 0 then [] else EncodeChar(s[0]) + Encode(s[1..])
  }

  /** The character at the front of a byte string and the number of bytes it
      takes; `None` for a malformed, overlong or surrogate form. */
  function DecodeFirst(bs: seq<byte>): (r: Option<(char, nat)>)
    requires |bs| > 0
    ensures r.Some? ==> 1 <= r.value.1 <= |bs| && r.value.1 <= 4
  {
    var b0: int := bs[0];
    if b0 < 0x80 then Some((b0 as char, 1))
    else if 0xC2 <= b0 < 0xE0 then
      if |bs| >= 2 && IsContinuation(bs[1]) then
        Some((((b0 - 0xC0) * 64 + (bs[1] as int - 0x80)) as char, 2))
      else None
    else if 0xE0 <= b0 < 0xF0 then
      if |bs| >= 3 && IsContinuation(bs[1]) && IsContinuation(bs[2]) then
        var v := ((b0 - 0xE0) * 64 + (bs[1] as int - 0x80)) * 64 + (bs[2] as int - 0x80);
        if 0x800 <= v && IsScalar(v) then Some((v as char, 3)) else None
      else None
    else if 0xF0 <= b0 < 0xF5 then
      if |bs| >= 4 && IsContinuation(bs[1]) && IsContinuation(bs[2]) && IsContinuation(bs[3]) then
        var v := (((b0 - 0xF0) * 64 + (bs[1] as int - 0x80)) * 64 + (bs[2] as int - 0x80)) * 64 + (bs[3] as int - 0x80);
        if 0x1_0000 <= v < 0x11_0000 then Some((v as char, 4)) else None
      else None
    else None
  }

  /** `bs.decode()`: `None` unless the whole string is well-formed UTF-8. */
  function Decode(bs: seq<byte>): Option<string>
    decreases |bs|
  {
    if |bs| == 0 then Some("")
    else match DecodeFirst(bs)
      case None => None
      case Some((c, k)) =>
        match Decode(bs[k..])
        case None => None
        case Some(rest) => Some([c] + rest)
  }

  /** Decoding reads back exactly one encoded character, whatever follows. */
  lemma DecodeFirstEncodeChar(c: char, rest: seq<byte>)
    ensures DecodeFirst(EncodeChar(c) + rest) == Some((c, |EncodeChar(c)|))
  {
    var bs := EncodeChar(c) + rest;
    var n := c as int;
    var q1 := n / 64;
    var q2 := q1 / 64;
    var q3 := q2 / 64;
    assert n == q1 * 64 + n % 64;
    assert q1 == q2 * 64 + q1 % 64;
    assert q2 == q3 * 64 + q2 % 64;
    if n < 0x80 {
    } else if n < 0x800 {
      assert bs[0] == 0xC0 + q1 && bs[1] == 0x80 + n % 64;
    } else if n < 0x1_0000 {
      assert bs[0] == 0xE0 + q2 && bs[1] == 0x80 + q1 % 64 && bs[2] == 0x80 + n % 64;
    } else {
      assert bs[0] == 0xF0 + q3 && bs[1] == 0x80 + q2 % 64;
      assert bs[2] == 0x80 + q1 % 64 && bs[3] == 0x80 + n % 64;
    }
  }

  /** Round trip: UTF-8 decoding undoes `str.encode()`. */
  lemma {:induction false} DecodeEncode(s: string)
    ensures Decode(Encode(s)) == Some(s)
    decreases |s|
  {
    if |s| > 0 {
      var e := EncodeChar(s[0]);
      DecodeFirstEncodeChar(s[0], Encode(s[1..]));
      assert Encode(s) == e + Encode(s[1..]);
      assert Encode(s)[|e|..] == Encode(s[1..]);
      DecodeEncode(s[1..]);
      assert s == [s[0]] + s[1..];
    }
  }

  /** The bytes a well-formed character takes are its UTF-8 form. */
  lemma EncodeCharDecodeFirst(bs: seq<byte>)
    requires |bs| > 0 && DecodeFirst(bs).Some?
    ensures EncodeChar(DecodeFirst(bs).value.0) == bs[..DecodeFirst(bs).value.1]
  {
    var b0: int := bs[0];
    if b0 < 0x80 {
      assert bs[..1] == [bs[0]];
    } else if b0 < 0xE0 {
      TwoByteCanonical(bs);
    } else if b0 < 0xF0 {
      ThreeByteCanonical(bs);
    } else {
      FourByteCanonical(bs);
    }
  }

  lemma TwoByteCanonical(bs: seq<byte>)
    requires |bs| > 0 && 0x80 <= bs[0] < 0xE0 && DecodeFirst(bs).Some?
    ensures DecodeFirst(bs).value.1 == 2
    ensures EncodeChar(DecodeFirst(bs).value.0) == bs[..2]
  {
    var b0, x1 := bs[0] as int, bs[1] as int - 0x80;
    var n := DecodeFirst(bs).value.0 as int;
    assert n == (b0 - 0xC0) * 64 + x1;
    assert n / 64 == b0 - 0xC0 && n % 64 == x1;
    assert bs[..2] == [bs[0], bs[1]];
  }

  lemma ThreeByteCanonical(bs: seq<byte>)
    requires |bs| > 0 && 0xE0 <= bs[0] < 0xF0 && DecodeFirst(bs).Some?
    ensures DecodeFirst(bs).value.1 == 3
    ensures EncodeChar(DecodeFirst(bs).value.0) == bs[..3]
  {
    var b0, x1, x2 := bs[0] as int, bs[1] as int - 0x80, bs[2] as int - 0x80;
    var n := DecodeFirst(bs).value.0 as int;
    var q1 := (b0 - 0xE0) * 64 + x1;
    assert n == q1 * 64 + x2;
    assert n / 64 == q1 && n % 64 == x2;
    assert q1 / 64 == b0 - 0xE0 && q1 % 64 == x1;
    assert bs[..3] == [bs[0], bs[1], bs[2]];
  }

  lemma FourByteCanonical(bs: seq<byte>)
    requires |bs| > 0 && 0xF0 <= bs[0] && DecodeFirst(bs).Some?
    ensures DecodeFirst(bs).value.1 == 4
    ensures EncodeChar(DecodeFirst(bs).value.0) == bs[..4]
  {
    var b0, x1 := bs[0] as int, bs[1] as int - 0x80;
    var x2, x3 := bs[2] as int - 0x80, bs[3] as int - 0x80;
    var n := DecodeFirst(bs).value.0 as int;
    var q2 := (b0 - 0xF0) * 64 + x1;
    var q1 := q2 * 64 + x2;
    assert n == q1 * 64 + x3;
    assert n / 64 == q1 && n % 64 == x3;
    assert q1 / 64 == q2 && q1 % 64 == x2;
    assert q2 / 64 == b0 - 0xF0 && q2 % 64 == x1;
    assert bs[..4] == [bs[0], bs[1], bs[2], bs[3]];
  }

  /** Decoding is canonical: a well-formed byte string is exactly the
      encoding of what it decodes to, so no two byte strings decode to the
      same text. */
  lemma {:induction false} EncodeDecode(bs: seq<byte>)
    requires Decode(bs).Some?
    ensures Encode(Decode(bs).value) == bs
    decreases |bs|
  {
    if |bs| > 0 {
      var c, k := DecodeFirst(bs).value.0, DecodeFirst(bs).value.1;
      var rest := Decode(bs[k..]).value;
      EncodeDecode(bs[k..]);
      StepCanonical(bs, c, k, rest);
    }
  }

  /** A well-formed character in front of a canonical rest is canonical. */
  lemma StepCanonical(bs: seq<byte>, c: char, k: nat, rest: string)
    requires |bs| > 0 && DecodeFirst(bs) == Some((c, k))
    requires Decode(bs[k..]) == Some(rest) && Encode(rest) == bs[k..]
    ensures Decode(bs) == Some([c] + rest)
    ensures Encode([c] + rest) == bs
  {
    EncodeCons(c, rest);
    EncodeCharDecodeFirst(bs);
    Glue(bs, k);
  }

  lemma Glue<T>(s: seq<T>, k: nat)
    requires k <= |s|
    ensures s[..k] + s[k..] == s
  {
  }

  lemma EncodeCons(c: char, rest: string)
    ensures Encode([c] + rest) == EncodeChar(c) + Encode(rest)
  {
    assert ([c] + rest)[1..] == rest;
  }
}
