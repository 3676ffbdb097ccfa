/** The Base64 encoding of RFC 4648, section 4 (standard alphabet, `=`
    padding), as `base64.b64encode` produces it, with a strict decoder as its
    inverse. */
module Base64 {
  import opened Wrappers
  import opened Bytes

  /** The symbol for a 6-bit value (RFC 4648, Table 1). */
  function Symbol(v: int): (c: char)
    requires 0 <= v < 64
  {
    if v < 26 then ('A' as int + v) as char
    else if v < 52 then ('a' as int + (v - 26)) as char
    else if v < 62 then ('0' as int + (v - 52)) as char
    else if v == 62 then '+'
    else '/'
  }

  /** The value of a symbol, or -1 for a character outside the alphabet. */
  function Value(c: char): (v: int)
    ensures -1 <= v < 64
  {
    if 'A' <= c <= 'Z' then c as int - 'A' as int
    else if 'a' <= c <= 'z' then c as int - 'a' as int + 26
    else if '0' <= c <= '9' then c as int - '0' as int + 52
    else if c == '+' then 62
    else if c == '/' then 63
    else -1
  }

  lemma ValueSymbol(v: int)
    requires 0 <= v < 64
    ensures Value(Symbol(v)) == v
  {
  }

  /** `base64.b64encode(bs)`: every three octets become four symbols; a final
      group of one or two octets is zero-filled and padded with `=`. */
  function Encode(bs: seq<byte>): (s: string)
    ensures |s| == 4 * ((|bs| + 2) / 3)
    decreases |bs|
  {
    if |bs| == 0 then ""
    else
      var b0: int := bs[0];
      if |bs| == 1 then
        [Symbol(b0 / 4), Symbol(b0 % 4 * 16), '=', '=']
      else
        var b1: int := bs[1];
        if |bs| == 2 then
          [Symbol(b0 / 4), Symbol(b0 % 4 * 16 + b1 / 16), Symbol(b1 % 16 * 4), '=']
        else
          var b2: int := bs[2];
          GroupBits(b0, b1, b2);
          [Symbol(b0 / 4), Symbol(b0 % 4 * 16 + b1 / 16), Symbol(b1 % 16 * 4 + b2 / 64), Symbol(b2 % 64)]
          + Encode(bs[3..])
  }

  /** The three octets four 6-bit values hold. */
  function Octets(a: int, b: int, c: int, d: int): (g: seq<byte>)
    requires 0 <= a < 64 && 0 <= b < 64 && 0 <= c < 64 && 0 <= d < 64
    ensures |g| == 3
  {
    [a * 4 + b / 16, b % 16 * 16 + c / 4, c % 4 * 64 + d]
  }

  /** A group of four alphabet symbols, without padding. */
  function DecodeQuad(c0: char, c1: char, c2: char, c3: char): (r: Option<seq<byte>>)
    ensures r.Some? ==> Value(c0) >= 0 && Value(c1) >= 0 && Value(c2) >= 0 && Value(c3) >= 0
  {
    var a, b, c, d := Value(c0), Value(c1), Value(c2), Value(c3);
    if a < 0 || b < 0 || c < 0 || d < 0 then None
    else Some(Octets(a, b, c, d))
  }

  /** The last group, which may end in `==` (one octet) or `=` (two octets);
      the fill bits must be zero. */
  function DecodeFinal(c0: char, c1: char, c2: char, c3: char): Option<seq<byte>>
  {
    var a, b, c := Value(c0), Value(c1), Value(c2);
    if a < 0 || b < 0 then None
    else if c2 == '=' && c3 == '=' then
      if b % 16 == 0 then Some([a * 4 + b / 16]) else None
    else if c < 0 then None
    else if c3 == '=' then
      if c % 4 == 0 then Some([a * 4 + b / 16, b % 16 * 16 + c / 4]) else None
    else DecodeQuad(c0, c1, c2, c3)
  }

  /** Decoding: `None` unless the text is canonical Base64 (length a multiple
      of four, alphabet symbols, padding only at the end, zero fill bits). */
  function Decode(s: string): (r: Option<seq<byte>>)
    decreases |s|
  {
    if |s| == 0 then Some([])
    else if |s| < 4 then None
    else if |s| == 4 then DecodeFinal(s[0], s[1], s[2], s[3])
    else
      match DecodeQuad(s[0], s[1], s[2], s[3])
      case None => None
      case Some(group) =>
        match Decode(s[4..])
        case None => None
        case Some(rest) => Some(group + rest)
  }

  /** One full group of three octets decodes back, whatever follows. */
  lemma DecodeGroup(b0: byte, b1: byte, b2: byte, rest: seq<byte>)
    requires Decode(Encode(rest)) == Some(rest)
    ensures Decode(Encode([b0, b1, b2] + rest)) == Some([b0, b1, b2] + rest)
  {
    var e := Encode(rest);
    var c0, c1, c2, c3 := GroupSymbols(b0, b1, b2);
    EncodeGroup(b0, b1, b2, rest);
    assert Encode([b0, b1, b2] + rest) == [c0, c1, c2, c3] + e;
    DecodeFour(c0, c1, c2, c3, e);
    assert DecodeQuad(c0, c1, c2, c3).value == [b0, b1, b2];
    assert Decode(e).value == rest;
  }

  /** The bits of three octets, cut into four 6-bit values, put back together. */
  lemma GroupBits(b0: byte, b1: byte, b2: byte)
    ensures 0 <= b0 / 4 < 64 && 0 <= b0 % 4 * 16 + b1 / 16 < 64
    ensures 0 <= b1 % 16 * 4 + b2 / 64 < 64 && 0 <= b2 % 64 < 64
    ensures b0 / 4 * 4 + (b0 % 4 * 16 + b1 / 16) / 16 == b0
    ensures (b0 % 4 * 16 + b1 / 16) % 16 * 16 + (b1 % 16 * 4 + b2 / 64) / 4 == b1
    ensures (b1 % 16 * 4 + b2 / 64) % 4 * 64 + b2 % 64 == b2
  {
  }

  /** The four symbols of a group, and the octets their values give back. */
  lemma GroupSymbols(b0: byte, b1: byte, b2: byte) returns (c0: char, c1: char, c2: char, c3: char)
    ensures 0 <= b0 / 4 < 64 && 0 <= b0 % 4 * 16 + b1 / 16 < 64
    ensures 0 <= b1 % 16 * 4 + b2 / 64 < 64 && 0 <= b2 % 64 < 64
    ensures c0 == Symbol(b0 / 4) && c1 == Symbol(b0 % 4 * 16 + b1 / 16)
    ensures c2 == Symbol(b1 % 16 * 4 + b2 / 64) && c3 == Symbol(b2 % 64)
    ensures DecodeQuad(c0, c1, c2, c3) == Some([b0, b1, b2])
  {
    GroupBits(b0, b1, b2);
    var v0, v1, v2, v3 := b0 / 4, b0 % 4 * 16 + b1 / 16, b1 % 16 * 4 + b2 / 64, b2 % 64;
    ValueSymbol(v0); ValueSymbol(v1); ValueSymbol(v2); ValueSymbol(v3);
    c0, c1, c2, c3 := Symbol(v0), Symbol(v1), Symbol(v2), Symbol(v3);
    assert Octets(v0, v1, v2, v3) == [b0, b1, b2];
  }

  /** A full group of three octets is encoded as four symbols in front of the
      encoding of the rest. */
  lemma EncodeGroup(b0: byte, b1: byte, b2: byte, rest: seq<byte>)
    ensures 0 <= b0 / 4 < 64 && 0 <= b0 % 4 * 16 + b1 / 16 < 64
    ensures 0 <= b1 % 16 * 4 + b2 / 64 < 64 && 0 <= b2 % 64 < 64
    ensures Encode([b0, b1, b2] + rest)
            == [Symbol(b0 / 4), Symbol(b0 % 4 * 16 + b1 / 16), Symbol(b1 % 16 * 4 + b2 / 64), Symbol(b2 % 64)] + Encode(rest)
  {
    GroupBits(b0, b1, b2);
    assert ([b0, b1, b2] + rest)[3..] == rest;
  }

  /** Four alphabet symbols in front of more text decode as their group in
      front of what the rest decodes to. */
  lemma DecodeFour(c0: char, c1: char, c2: char, c3: char, t: string)
    requires DecodeQuad(c0, c1, c2, c3).Some? && Decode(t).Some?
    ensures Decode([c0, c1, c2, c3] + t) == Some(DecodeQuad(c0, c1, c2, c3).value + Decode(t).value)
  {
    var s := [c0, c1, c2, c3] + t;
    assert s[0] == c0 && s[1] == c1 && s[2] == c2 && s[3] == c3;
    if |t| == 0 {
      assert Value('=') == -1;
      assert DecodeFinal(c0, c1, c2, c3) == DecodeQuad(c0, c1, c2, c3);
      assert DecodeQuad(c0, c1, c2, c3).value + [] == DecodeQuad(c0, c1, c2, c3).value;
    } else {
      assert s[4..] == t;
    }
  }

  /** A final single octet decodes back. */
  lemma DecodeOne(b0: byte)
    ensures Decode(Encode([b0])) == Some([b0])
  {
    var v0, v1 := b0 / 4, b0 % 4 * 16;
    ValueSymbol(v0); ValueSymbol(v1);
    assert Encode([b0]) == [Symbol(v0), Symbol(v1), '=', '='];
  }

  /** A final pair of octets decodes back. */
  lemma DecodeTwo(b0: byte, b1: byte)
    ensures Decode(Encode([b0, b1])) == Some([b0, b1])
  {
    var v0, v1, v2 := b0 / 4, b0 % 4 * 16 + b1 / 16, b1 % 16 * 4;
    ValueSymbol(v0); ValueSymbol(v1); ValueSymbol(v2);
    var s := Encode([b0, b1]);
    assert s == [Symbol(v0), Symbol(v1), Symbol(v2), '='];
    assert v0 * 4 + v1 / 16 == b0;
    assert v1 % 16 * 16 + v2 / 4 == b1;
    assert v2 % 4 == 0;
  }

  /** Round trip: decoding undoes `base64.b64encode`. */
  lemma {:induction false} DecodeEncode(bs: seq<byte>)
    ensures Decode(Encode(bs)) == Some(bs)
    decreases |bs|
  {
    if |bs| == 1 {
      DecodeOne(bs[0]);
      Spelled(bs);
    } else if |bs| == 2 {
      DecodeTwo(bs[0], bs[1]);
      Spelled(bs);
    } else if |bs| >= 3 {
      DecodeEncode(bs[3..]);
      DecodeGroup(bs[0], bs[1], bs[2], bs[3..]);
      Spelled(bs);
    }
  }

  /** A sequence spelled out by its first elements and the rest. */
  lemma Spelled<T>(s: seq<T>)
    ensures |s| == 1 ==> s == [s[0]]
    ensures |s| == 2 ==> s == [s[0], s[1]]
    ensures |s| >= 3 ==> s == [s[0], s[1], s[2]] + s[3..]
  {
  }

  /** Every alphabet symbol is the symbol of its value. */
  lemma SymbolValue(c: char)
    requires Value(c) >= 0
    ensures Symbol(Value(c)) == c
  {
  }

  /** The octets of four 6-bit values, cut again into 6-bit values, give the
      four values back. */
  lemma QuadBits(a: int, b: int, c: int, d: int)
    requires 0 <= a < 64 && 0 <= b < 64 && 0 <= c < 64 && 0 <= d < 64
    ensures var g := Octets(a, b, c, d);
      && g[0] / 4 == a && g[0] % 4 * 16 + g[1] / 16 == b
      && g[1] % 16 * 4 + g[2] / 64 == c && g[2] % 64 == d
  {
    var g := Octets(a, b, c, d);
    assert g[0] / 4 == a && g[0] % 4 == b / 16;
    assert g[1] / 16 == b % 16 && g[1] % 16 == c / 4;
    assert g[2] / 64 == c % 4 && g[2] % 64 == d;
  }

  /** A group of four alphabet symbols is what its octets encode to. */
  lemma QuadCanonical(c0: char, c1: char, c2: char, c3: char, rest: seq<byte>)
    requires DecodeQuad(c0, c1, c2, c3).Some?
    ensures Encode(DecodeQuad(c0, c1, c2, c3).value + rest) == [c0, c1, c2, c3] + Encode(rest)
  {
    var a, b, c, d := Value(c0), Value(c1), Value(c2), Value(c3);
    SymbolValue(c0); SymbolValue(c1); SymbolValue(c2); SymbolValue(c3);
    QuadBits(a, b, c, d);
    var g := Octets(a, b, c, d);
    EncodeGroup(g[0], g[1], g[2], rest);
    assert g == [g[0], g[1], g[2]];
  }

  /** A last group of two symbols and `==` is what its one octet encodes to. */
  lemma OneCanonical(c0: char, c1: char)
    requires Value(c0) >= 0 && Value(c1) >= 0 && Value(c1) % 16 == 0
    ensures var a, b := Value(c0), Value(c1);
      Encode([a * 4 + b / 16]) == [c0, c1, '=', '=']
  {
    var a, b := Value(c0), Value(c1);
    SymbolValue(c0); SymbolValue(c1);
    OneBits(a, b);
  }

  lemma OneBits(a: int, b: int)
    requires 0 <= a < 64 && 0 <= b < 64 && b % 16 == 0
    ensures var o := a * 4 + b / 16;
      0 <= o < 256 && o / 4 == a && o % 4 * 16 == b
  {
  }

  /** A last group of three symbols and `=` is what its two octets encode to. */
  lemma TwoCanonical(c0: char, c1: char, c2: char)
    requires Value(c0) >= 0 && Value(c1) >= 0 && Value(c2) >= 0 && Value(c2) % 4 == 0
    ensures var a, b, c := Value(c0), Value(c1), Value(c2);
      Encode([a * 4 + b / 16, b % 16 * 16 + c / 4]) == [c0, c1, c2, '=']
  {
    var a, b, c := Value(c0), Value(c1), Value(c2);
    SymbolValue(c0); SymbolValue(c1); SymbolValue(c2);
    EncodeTwoValues(a, b, c);
  }

  /** The octets of three 6-bit values with two zero fill bits encode back
      to their symbols. */
  lemma EncodeTwoValues(a: int, b: int, c: int)
    requires 0 <= a < 64 && 0 <= b < 64 && 0 <= c < 64 && c % 4 == 0
    ensures Encode([a * 4 + b / 16, b % 16 * 16 + c / 4]) == [Symbol(a), Symbol(b), Symbol(c), '=']
  {
    TwoBits(a, b, c);
    var o0: byte, o1: byte := a * 4 + b / 16, b % 16 * 16 + c / 4;
    EncodeTwo(o0, o1);
  }

  /** The four symbols of a final pair of octets. */
  lemma EncodeTwo(o0: byte, o1: byte)
    ensures Encode([o0, o1]) == [Symbol(o0 / 4), Symbol(o0 % 4 * 16 + o1 / 16), Symbol(o1 % 16 * 4), '=']
  {
  }

  lemma TwoBits(a: int, b: int, c: int)
    requires 0 <= a < 64 && 0 <= b < 64 && 0 <= c < 64 && c % 4 == 0
    ensures var o0, o1 := a * 4 + b / 16, b % 16 * 16 + c / 4;
      && 0 <= o0 < 256 && 0 <= o1 < 256
      && o0 / 4 == a && o0 % 4 * 16 + o1 / 16 == b && o1 % 16 * 4 == c
  {
    var o0, o1 := a * 4 + b / 16, b % 16 * 16 + c / 4;
    assert o0 / 4 == a && o0 % 4 == b / 16 && o1 / 16 == b % 16;
  }

  /** A last group that decodes is what its octets encode to. */
  lemma FinalCanonical(c0: char, c1: char, c2: char, c3: char)
    requires DecodeFinal(c0, c1, c2, c3).Some?
    ensures Encode(DecodeFinal(c0, c1, c2, c3).value) == [c0, c1, c2, c3]
  {
    if c2 == '=' && c3 == '=' {
      OneCanonical(c0, c1);
    } else if c3 == '=' {
      TwoCanonical(c0, c1, c2);
    } else {
      QuadCanonical(c0, c1, c2, c3, []);
      assert DecodeQuad(c0, c1, c2, c3).value + [] == DecodeQuad(c0, c1, c2, c3).value;
    }
  }

  /** Decoding is canonical: what decodes is exactly the encoding of what it
      decodes to, so no two texts decode to the same octets. */
  lemma {:induction false} EncodeDecode(s: string)
    requires Decode(s).Some?
    ensures Encode(Decode(s).value) == s
    decreases |s|
  {
    if |s| == 4 {
      LastCanonical(s);
    } else if |s| > 4 {
      EncodeDecode(s[4..]);
      StepCanonical(s);
    }
  }

  /** A text of one group that decodes is what its octets encode to. */
  lemma LastCanonical(s: string)
    requires |s| == 4 && Decode(s).Some?
    ensures Encode(Decode(s).value) == s
  {
    FinalCanonical(s[0], s[1], s[2], s[3]);
    assert s == [s[0], s[1], s[2], s[3]];
  }

  /** A full group in front of a canonical rest is canonical. */
  lemma StepCanonical(s: string)
    requires |s| > 4 && Decode(s).Some?
    requires Decode(s[4..]).Some? ==> Encode(Decode(s[4..]).value) == s[4..]
    ensures Encode(Decode(s).value) == s
  {
    var group, rest := DecodeQuad(s[0], s[1], s[2], s[3]).value, Decode(s[4..]).value;
    DecodeSplit(s);
    QuadCanonical(s[0], s[1], s[2], s[3], rest);
    assert Encode(group + rest) == [s[0], s[1], s[2], s[3]] + s[4..];
    SpelledFour(s);
  }

  lemma SpelledFour<T>(s: seq<T>)
    requires |s| >= 4
    ensures s == [s[0], s[1], s[2], s[3]] + s[4..]
  {
  }

  /** A longer text that decodes is a full group in front of a text that
      decodes. */
  lemma DecodeSplit(s: string)
    requires |s| > 4 && Decode(s).Some?
    ensures DecodeQuad(s[0], s[1], s[2], s[3]).Some? && Decode(s[4..]).Some?
    ensures Decode(s).value == DecodeQuad(s[0], s[1], s[2], s[3]).value + Decode(s[4..]).value
  {
  }
}
