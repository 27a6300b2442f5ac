/** Strict UTF-8, the first decoding the reader tries: a byte string decodes only if
    it is a concatenation of the well-formed byte sequences of Table 3-7 of the
    Unicode Standard (no overlong forms, no surrogates, nothing above U+10FFFF), which
    is what Python's `bytes.decode('utf-8', 'strict')` accepts. */
module Utf8 {
  import opened Bytes
  import opened Outcomes

  predicate IsContinuation(b: byte) {
    0x80 <= b <= 0xBF
  }

  /** The bounds of the second byte after a three- or four-byte lead byte. */
  function SecondLow(lead: byte): byte {
    if lead == 0xE0 then 0xA0 else if lead == 0xF0 then 0x90 else 0x80
  }

  function SecondHigh(lead: byte): byte {
    if lead == 0xED then 0x9F else if lead == 0xF4 then 0x8F else 0xBF
  }

  /** The character encoded at the start of `s` and the number of bytes it takes,
      or None when `s` does not start with a well-formed sequence. */
  function DecodeFirst(s: seq<byte>): (r: Option<(char, nat)>)
    requires |s| > 0
    ensures r.Some? ==> 1 <= r.value.1 <= 4 && r.value.1 <= |s|
    ensures r.Some? && s[0] < 0x80 ==> r.value == (s[0] as char, 1)
  {
    var b0 := s[0];
    if b0 < 0x80 then
      Some((b0 as char, 1))
    else if 0xC2 <= b0 <= 0xDF then
      if |s| >= 2 && IsContinuation(s[1]) then
        Some((((b0 as int - 0xC0) * 64 + (s[1] as int - 0x80)) as char, 2))
      else None
    else if 0xE0 <= b0 <= 0xEF then
      if |s| >= 3 && SecondLow(b0) <= s[1] <= SecondHigh(b0) && IsContinuation(s[2]) then
        Some((((b0 as int - 0xE0) * 0x1000 + (s[1] as int - 0x80) * 64 + (s[2] as int - 0x80)) as char, 3))
      else None
    else if 0xF0 <= b0 <= 0xF4 then
      if |s| >= 4 && SecondLow(b0) <= s[1] <= SecondHigh(b0) && IsContinuation(s[2]) && IsContinuation(s[3]) then
        Some((((b0 as int - 0xF0) * 0x4_0000 + (s[1] as int - 0x80) * 0x1000 + (s[2] as int - 0x80) * 64 + (s[3] as int - 0x80)) as char, 4))
      else None
    else None
  }

  /** `s.decode('utf-8', 'strict')`: None where Python raises UnicodeDecodeError. */
  function Decode(s: seq<byte>): (r: Option<string>)
    decreases |s|
  {
    if s == [] then Some([])
    else match DecodeFirst(s)
      case None => None
      case Some((c, n)) =>
        match Decode(s[n..])
        case None => None
        case Some(t) => Some([c] + t)
  }

  predicate Valid(s: seq<byte>) {
    Decode(s).Some?
  }

  /** The UTF-8 encoding of one character. */
  function EncodeChar(c: char): (s: seq<byte>)
    ensures 1 <= |s| <= 4
  {
    var cp := c as int;
    if cp < 0x80 then
      [cp]
    else if cp < 0x800 then
      [0xC0 + cp / 64, 0x80 + cp % 64]
    else if cp < 0x1_0000 then
      [0xE0 + cp / 0x1000, 0x80 + cp / 64 % 64, 0x80 + cp % 64]
    else
      [0xF0 + cp / 0x4_0000, 0x80 + cp / 0x1000 % 64, 0x80 + cp / 64 % 64, 0x80 + cp % 64]
  }

  /** The UTF-8 encoding of a string, the inverse of Decode. */
  function Encode(t: string): (s: seq<byte>)
  {
    if t == [] then [] else EncodeChar(t[0]) + Encode(t[1..])
  }

  lemma TwoByteDecodes(c: char, rest: seq<byte>)
    requires 0x80 <= c as int < 0x800
    ensures DecodeFirst(EncodeChar(c) + rest) == Some((c, 2))
  {
    var cp := c as int;
    var s := EncodeChar(c) + rest;
    assert s[0] == 0xC0 + cp / 64 && s[1] == 0x80 + cp % 64;
    assert (cp / 64) * 64 + cp % 64 == cp;
  }

  lemma ThreeByteDecodes(c: char, rest: seq<byte>)
    requires 0x800 <= c as int < 0x1_0000
    ensures DecodeFirst(EncodeChar(c) + rest) == Some((c, 3))
  {
    var cp := c as int;
    var x0, x1, x2 := cp / 0x1000, cp / 64 % 64, cp % 64;
    assert x0 * 0x1000 + x1 * 64 + x2 == cp;
    var s := EncodeChar(c) + rest;
    assert s[..3] == [0xE0 + x0, 0x80 + x1, 0x80 + x2];
    assert SecondLow(s[0]) <= s[1] <= SecondHigh(s[0]);
  }

  lemma FourByteDecodes(c: char, rest: seq<byte>)
    requires 0x1_0000 <= c as int
    ensures DecodeFirst(EncodeChar(c) + rest) == Some((c, 4))
  {
    var cp := c as int;
    var x0, x1, x2, x3 := cp / 0x4_0000, cp / 0x1000 % 64, cp / 64 % 64, cp % 64;
    assert x0 * 0x4_0000 + x1 * 0x1000 + x2 * 64 + x3 == cp;
    var s := EncodeChar(c) + rest;
    assert s[..4] == [0xF0 + x0, 0x80 + x1, 0x80 + x2, 0x80 + x3];
    assert 0xF0 <= s[0] <= 0xF4 && SecondLow(s[0]) <= s[1] <= SecondHigh(s[0]);
  }

  /** The encoding of a character is a well-formed sequence that decodes to it,
      whatever follows it. */
  lemma EncodeCharDecodes(c: char, rest: seq<byte>)
    ensures DecodeFirst(EncodeChar(c) + rest) == Some((c, |EncodeChar(c)|))
  {
    var cp := c as int;
    if cp < 0x80 {
      assert (EncodeChar(c) + rest)[0] == cp;
    } else if cp < 0x800 {
      TwoByteDecodes(c, rest);
    } else if cp < 0x1_0000 {
      ThreeByteDecodes(c, rest);
    } else {
      FourByteDecodes(c, rest);
    }
  }

  lemma TwoByteEncodes(s: seq<byte>)
    requires |s| >= 2 && 0xC2 <= s[0] <= 0xDF && IsContinuation(s[1])
    ensures EncodeChar(((s[0] as int - 0xC0) * 64 + (s[1] as int - 0x80)) as char) == s[..2]
  {
    var x0, x1 := s[0] as int - 0xC0, s[1] as int - 0x80;
    var cp := x0 * 64 + x1;
    assert cp / 64 == x0 && cp % 64 == x1;
  }

  lemma ThreeByteEncodes(s: seq<byte>)
    requires |s| >= 3 && 0xE0 <= s[0] <= 0xEF && SecondLow(s[0]) <= s[1] <= SecondHigh(s[0]) && IsContinuation(s[2])
    ensures EncodeChar(((s[0] as int - 0xE0) * 0x1000 + (s[1] as int - 0x80) * 64 + (s[2] as int - 0x80)) as char) == s[..3]
  {
    var x0, x1, x2 := s[0] as int - 0xE0, s[1] as int - 0x80, s[2] as int - 0x80;
    var cp := x0 * 0x1000 + x1 * 64 + x2;
    assert cp / 64 == x0 * 64 + x1 && cp % 64 == x2;
    assert cp / 0x1000 == x0 && cp / 64 % 64 == x1;
  }

  lemma FourByteEncodes(s: seq<byte>)
    requires |s| >= 4 && 0xF0 <= s[0] <= 0xF4 && SecondLow(s[0]) <= s[1] <= SecondHigh(s[0])
    requires IsContinuation(s[2]) && IsContinuation(s[3])
    ensures EncodeChar(((s[0] as int - 0xF0) * 0x4_0000 + (s[1] as int - 0x80) * 0x1000
                        + (s[2] as int - 0x80) * 64 + (s[3] as int - 0x80)) as char) == s[..4]
  {
    var x0, x1, x2, x3 := s[0] as int - 0xF0, s[1] as int - 0x80, s[2] as int - 0x80, s[3] as int - 0x80;
    var cp := x0 * 0x4_0000 + x1 * 0x1000 + x2 * 64 + x3;
    assert cp / 64 == x0 * 0x1000 + x1 * 64 + x2 && cp % 64 == x3;
    assert cp / 0x1000 == x0 * 64 + x1 && cp / 64 % 64 == x2;
    assert cp / 0x4_0000 == x0 && cp / 0x1000 % 64 == x1;
  }

  /** A well-formed sequence is the encoding of the character it decodes to. */
  lemma DecodeFirstEncodes(s: seq<byte>)
    requires |s| > 0 && DecodeFirst(s).Some?
    ensures EncodeChar(DecodeFirst(s).value.0) == s[..DecodeFirst(s).value.1]
  {
    if 0xC2 <= s[0] <= 0xDF {
      TwoByteEncodes(s);
    } else if 0xE0 <= s[0] <= 0xEF {
      ThreeByteEncodes(s);
    } else if 0xF0 <= s[0] <= 0xF4 {
      FourByteEncodes(s);
    }
  }

  /** Decoding an encoded string gives it back. */
  lemma {:induction false} DecodeEncode(t: string)
    ensures Decode(Encode(t)) == Some(t)
  {
    if t != [] {
      var e := EncodeChar(t[0]);
      EncodeCharDecodes(t[0], Encode(t[1..]));
      assert (e + Encode(t[1..]))[|e|..] == Encode(t[1..]);
      DecodeEncode(t[1..]);
      assert [t[0]] + t[1..] == t;
    }
  }

  lemma EncodeCons(c: char, t: string)
    ensures Encode([c] + t) == EncodeChar(c) + Encode(t)
  {
    assert ([c] + t)[0] == c && ([c] + t)[1..] == t;
  }

  /** The first character of a well-formed byte string, the bytes that encode it, and
      the well-formed rest. */
  lemma DecodeCons(s: seq<byte>) returns (c: char, n: nat)
    requires Valid(s) && s != []
    ensures 1 <= n <= |s| && EncodeChar(c) == s[..n]
    ensures Valid(s[n..]) && Decode(s) == Some([c] + Decode(s[n..]).value)
  {
    c, n := DecodeFirst(s).value.0, DecodeFirst(s).value.1;
    DecodeFirstEncodes(s);
  }

  /** Encoding a decoded byte string gives it back. */
  lemma {:induction false} EncodeDecode(s: seq<byte>)
    requires Valid(s)
    ensures Encode(Decode(s).value) == s
    decreases |s|
  {
    if s != [] {
      var c, n := DecodeCons(s);
      var rest := s[n..];
      EncodeDecode(rest);
      EncodeCons(c, Decode(rest).value);
      assert s[..n] + rest == s;
    }
  }

  /** ASCII text decodes byte for byte. */
  lemma {:induction false} AsciiDecodes(s: seq<byte>)
    requires forall k :: 0 <= k < |s| ==> s[k] < 0x80
    ensures Valid(s) && |Decode(s).value| == |s|
    ensures forall k :: 0 <= k < |s| ==> Decode(s).value[k] as int == s[k]
    decreases |s|
  {
    if s != [] {
      assert DecodeFirst(s) == Some((s[0] as char, 1));
      AsciiDecodes(s[1..]);
      var t := Decode(s[1..]).value;
      assert Decode(s).value == [s[0] as char] + t;
    }
  }
}
