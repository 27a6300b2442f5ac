/** Bytes and the big-endian integer fields of the Palm Database layout
    (`struct.unpack('>H', ...)` and `struct.unpack('>L', ...)`). */
module Bytes {

  type byte = b: int | 0 <= b < 256

  /** The smaller of two integers, as reads and runs clamp their lengths. */
  function Min(a: int, b: int): int {
    if a <= b then a else b
  }

  /** The unsigned 16-bit big-endian integer stored at `s[at..at + 2]`. */
  function U16At(s: seq<byte>, at: nat): (v: nat)
    requires at + 2 <= |s|
    ensures v < 0x1_0000
    ensures v / 256 == s[at] && v % 256 == s[at + 1]
  {
    s[at] as int * 256 + s[at + 1]
  }

  /** The unsigned 32-bit big-endian integer stored at `s[at..at + 4]`. */
  function U32At(s: seq<byte>, at: nat): (v: nat)
    requires at + 4 <= |s|
    ensures v < 0x1_0000_0000
    ensures v / 0x1_0000 == U16At(s, at) && v % 0x1_0000 == U16At(s, at + 2)
  {
    U16At(s, at) * 0x1_0000 + U16At(s, at + 2)
  }

  /** The two big-endian bytes of a 16-bit value. */
  function EncodeU16(v: nat): (s: seq<byte>)
    requires v < 0x1_0000
    ensures |s| == 2
  {
    [v / 256, v % 256]
  }

  /** The four big-endian bytes of a 32-bit value. */
  function EncodeU32(v: nat): (s: seq<byte>)
    requires v < 0x1_0000_0000
    ensures |s| == 4
  {
    EncodeU16(v / 0x1_0000) + EncodeU16(v % 0x1_0000)
  }

  /** Decoding what was encoded gives the value back ... */
  lemma U16RoundTrip(v: nat)
    requires v < 0x1_0000
    ensures U16At(EncodeU16(v), 0) == v
  {
  }

  /** ... and encoding what was decoded gives the bytes back. */
  lemma U16Bytes(s: seq<byte>, at: nat)
    requires at + 2 <= |s|
    ensures EncodeU16(U16At(s, at)) == s[at..at + 2]
  {
  }

  lemma U32RoundTrip(v: nat)
    requires v < 0x1_0000_0000
    ensures U32At(EncodeU32(v), 0) == v
  {
    var s := EncodeU32(v);
    assert s[0..2] == EncodeU16(v / 0x1_0000);
    assert s[2..4] == EncodeU16(v % 0x1_0000);
    U16RoundTrip(v / 0x1_0000);
    U16RoundTrip(v % 0x1_0000);
  }

  lemma U32Bytes(s: seq<byte>, at: nat)
    requires at + 4 <= |s|
    ensures EncodeU32(U32At(s, at)) == s[at..at + 4]
  {
    U16Bytes(s, at);
    U16Bytes(s, at + 2);
    assert s[at..at + 4] == s[at..at + 2] + s[at + 2..at + 4];
  }
}
