/** The PalmDOC byte-oriented LZ77 decompressor (mobi_reader.py, decompress_palmdoc),
    as functions that say what the reader's loop computes.

    The compressed stream is read one instruction at a time; the leading byte of
    each instruction selects its kind:
      0x00, 0x09..0x7F  the byte itself;
      0x01..0x08        a run of that many raw bytes (fewer if the input ends);
      0xC0..0xFF        a space followed by the byte XOR 0x80;
      0x80..0xBF        with the next byte, a back-reference into the output
                        (11-bit distance, 3-bit length + 3). */
module PalmDoc {
  import opened Bytes
  import opened Outcomes
  import Bits

  /** One instruction of the compressed stream. */
  datatype Op =
    | Literal(b: byte)
    | Run(bytes: seq<byte>)
    | SpacePair(b: byte)              // emits 0x20, then b
    | BackRef(dist: nat, count: nat)
    | Dangling                        // a back-reference lead byte with no byte after it

  /** An instruction and the input index just after it. */
  datatype Decoded = Decoded(op: Op, next: nat)

  predicate IsLiteral(b: byte) {
    b == 0x00 || 0x09 <= b <= 0x7F
  }

  /** The byte that follows the space for a lead byte 0xC0..0xFF: the lead byte with
      its top bit cleared, which is the reader's `byte ^ 0x80` (XorHighIsBitwise). */
  function XorHigh(b: byte): byte
    requires 0xC0 <= b
  {
    b - 0x80
  }

  /** The distance of a back-reference pair: the low six bits of the lead byte over the
      high five bits of the next, the reader's `((byte << 8 | next) >> 3) & 0x7FF`
      (PairFieldsAreBitwise). */
  function PairDistance(b: byte, n: byte): nat
    requires 0x80 <= b <= 0xBF
  {
    (b - 0x80) * 32 + n / 8
  }

  /** The length of a back-reference pair: the low three bits of the next byte plus 3,
      the reader's `((byte << 8 | next) & 7) + 3` (PairFieldsAreBitwise). */
  function PairCount(b: byte, n: byte): nat
    requires 0x80 <= b <= 0xBF
  {
    n % 8 + 3
  }

  /** Clearing the top bit of a lead byte 0xC0..0xFF is xor with 0x80. */
  lemma XorHighIsBitwise(b: byte)
    requires 0xC0 <= b
    ensures XorHigh(b) == Bits.Xor(b, 0x80)
  {
    assert Bits.Pow2(7) == 0x80;
    Bits.XorTopBit(b, 7);
  }

  /** The reader's bit expressions for the two fields of a back-reference pair compute
      PairDistance and PairCount: the pair `(b << 8) | n` is b * 256 + n, its bits 3..13
      are (b - 0x80) * 32 + n / 8 because bit 15 of a lead byte 0x80..0xBF is set and
      bit 14 clear, and its low three bits are those of n. */
  lemma PairFieldsAreBitwise(b: byte, n: byte)
    requires 0x80 <= b <= 0xBF
    ensures PairDistance(b, n) == Bits.And(Bits.ShiftRight(Bits.Or(Bits.ShiftLeft(b, 8), n), 3), 0x7FF)
    ensures PairCount(b, n) == Bits.And(Bits.Or(Bits.ShiftLeft(b, 8), n), 7) + 3
  {
    assert Bits.Pow2(3) == 8 && Bits.Pow2(8) == 256 && Bits.Pow2(11) == 2048;
    Bits.OrDisjoint(b, n, 8);
    var pair := b * 256 + n;
    assert Bits.Or(Bits.ShiftLeft(b, 8), n) == pair;
    assert pair == (b * 32 + n / 8) * 8 + n % 8;
    Bits.AndLowMask(b * 32 + n / 8, n % 8, 3);
    Bits.ShiftRightDrops(b * 32 + n / 8, n % 8, 3);
    assert Bits.ShiftRight(pair, 3) == 2 * 2048 + ((b - 0x80) * 32 + n / 8);
    Bits.AndLowMask(2, (b - 0x80) * 32 + n / 8, 11);
  }

  /** The instruction that starts at `data[i]`, with the reader's if-chain over the
      lead byte; it always consumes input and never reads past the end. */
  function NextOp(data: seq<byte>, i: nat): (d: Decoded)
    requires i < |data|
    ensures i < d.next <= |data|
  {
    var b := data[i];
    if b == 0x00 then
      Decoded(Literal(b), i + 1)
    else if 0x01 <= b <= 0x08 then
      var count := if i + 1 + b > |data| then |data| - (i + 1) else b;
      Decoded(Run(data[i + 1..i + 1 + count]), i + 1 + count)
    else if 0x09 <= b <= 0x7F then
      Decoded(Literal(b), i + 1)
    else if 0xC0 <= b then
      Decoded(SpacePair(XorHigh(b)), i + 1)
    else if i + 1 >= |data| then
      Decoded(Dangling, i + 1)
    else
      Decoded(BackRef(PairDistance(b, data[i + 1]), PairCount(b, data[i + 1])), i + 2)
  }

  /** Appends `count` bytes to `out` one at a time, each read `dist` bytes back from the
      end of the output as it stands when that byte is appended, so a copy may read
      bytes it has itself just written.  When `dist` exceeds the output length a zero
      byte is appended instead.  Python's `output[-0]` is `output[0]`, so a distance of
      zero repeats the first output byte, and raises IndexError on an empty output. */
  function CopyBack(out: seq<byte>, dist: nat, count: nat): (r: Option<seq<byte>>)
    decreases count
    ensures r.None? <==> count > 0 && dist == 0 && out == []
    ensures r.Some? ==> |r.value| == |out| + count && r.value[..|out|] == out
  {
    if count == 0 then Some(out)
    else if dist > |out| then CopyBack(out + [0], dist, count - 1)
    else if out == [] then None
    else CopyBack(out + [out[if dist == 0 then 0 else |out| - dist]], dist, count - 1)
  }

  /** The number of bytes an instruction appends. */
  function Width(op: Op): nat {
    match op
    case Literal(_) => 1
    case Run(bytes) => |bytes|
    case SpacePair(_) => 2
    case BackRef(_, count) => count
    case Dangling => 0
  }

  /** The output after one instruction, or None where Python raises IndexError. */
  function Emit(op: Op, out: seq<byte>): (r: Option<seq<byte>>)
    requires !op.Dangling?
    ensures r.None? <==> op.BackRef? && op.count > 0 && op.dist == 0 && out == []
    ensures r.Some? ==> |r.value| == |out| + Width(op) && r.value[..|out|] == out
  {
    match op
    case Literal(b) => Some(out + [b])
    case Run(bytes) => Some(out + bytes)
    case SpacePair(b) => Some(out + [0x20, b])
    case BackRef(dist, count) => CopyBack(out, dist, count)
  }

  /** Decompression of `data[i..]` given the output `out` produced so far. */
  function DecodeFrom(data: seq<byte>, i: nat, out: seq<byte>): Result<seq<byte>>
    requires i <= |data|
    decreases |data| - i
  {
    if i == |data| then Ok(out)
    else
      var d := NextOp(data, i);
      if d.op.Dangling? then Ok(out)
      else match Emit(d.op, out)
        case None => Err(IndexOutOfRange)
        case Some(out') => DecodeFrom(data, d.next, out')
  }

  /** The output only grows, by at most five bytes per input byte (ten bytes for a
      two-byte back-reference), and the only failure is a zero-distance
      back-reference met while the output is still empty. */
  lemma {:induction false} DecodeFromGrows(data: seq<byte>, i: nat, out: seq<byte>)
    requires i <= |data|
    ensures var r := DecodeFrom(data, i, out);
            && (r.Ok? ==> out <= r.value && |r.value| <= |out| + 5 * (|data| - i))
            && (r.Err? ==> out == [] && r.error == IndexOutOfRange)
    decreases |data| - i
  {
    if i < |data| {
      var d := NextOp(data, i);
      if !d.op.Dangling? && Emit(d.op, out).Some? {
        DecodeFromGrows(data, d.next, Emit(d.op, out).value);
      }
    }
  }

  /** The decompressed form of a PalmDOC record. */
  function Decompress(data: seq<byte>): (r: Result<seq<byte>>)
    ensures r.Ok? ==> |r.value| <= 5 * |data|
  {
    DecodeFromGrows(data, 0, []);
    DecodeFrom(data, 0, [])
  }

  // One step of the decoder for each kind of lead byte.

  /** 0x00 and 0x09..0x7F append themselves and consume one byte. */
  lemma LiteralStep(data: seq<byte>, i: nat, out: seq<byte>)
    requires i < |data| && IsLiteral(data[i])
    ensures DecodeFrom(data, i, out) == DecodeFrom(data, i + 1, out + [data[i]])
  {
  }

  /** A lead byte N in 0x01..0x08 appends the next `count` = min(N, remaining) input
      bytes unchanged and continues after them. */
  lemma RunStep(data: seq<byte>, i: nat, out: seq<byte>, count: nat)
    requires i < |data| && 0x01 <= data[i] <= 0x08
    requires count == Min(data[i], |data| - (i + 1))
    ensures DecodeFrom(data, i, out) == DecodeFrom(data, i + 1 + count, out + data[i + 1..i + 1 + count])
  {
  }

  /** A lead byte b in 0xC0..0xFF appends a space and then b XOR 0x80. */
  lemma SpaceStep(data: seq<byte>, i: nat, out: seq<byte>)
    requires i < |data| && 0xC0 <= data[i]
    ensures DecodeFrom(data, i, out) == DecodeFrom(data, i + 1, out + [0x20] + [XorHigh(data[i])])
  {
    assert out + [0x20] + [XorHigh(data[i])] == out + [0x20, data[i] - 0x80];
  }

  /** A back-reference lead byte with nothing after it ends decompression with the
      output produced so far. */
  lemma DanglingStep(data: seq<byte>, i: nat, out: seq<byte>)
    requires i + 1 == |data| && 0x80 <= data[i] <= 0xBF
    ensures DecodeFrom(data, i, out) == Ok(out)
  {
  }

  /** A back-reference pair (b, n) copies PairCount(b, n) bytes from distance
      PairDistance(b, n) and consumes two bytes; a failed copy ends decompression
      with IndexError. */
  lemma PairStep(data: seq<byte>, i: nat, out: seq<byte>)
    requires i + 1 < |data| && 0x80 <= data[i] <= 0xBF
    ensures var copied := CopyBack(out, PairDistance(data[i], data[i + 1]), PairCount(data[i], data[i + 1]));
            DecodeFrom(data, i, out)
            == if copied.None? then Err(IndexOutOfRange) else DecodeFrom(data, i + 2, copied.value)
  {
  }

  /** Literal bytes are appended unchanged. */
  lemma {:induction false} LiteralsFrom(data: seq<byte>, i: nat, out: seq<byte>)
    requires i <= |data|
    requires forall k :: i <= k < |data| ==> IsLiteral(data[k])
    ensures DecodeFrom(data, i, out) == Ok(out + data[i..])
    decreases |data| - i
  {
    if i == |data| {
      assert data[i..] == [];
      assert out + data[i..] == out;
    } else {
      assert NextOp(data, i) == Decoded(Literal(data[i]), i + 1);
      LiteralsFrom(data, i + 1, out + [data[i]]);
      assert out + [data[i]] + data[i + 1..] == out + data[i..];
    }
  }

  /** A record made only of literal bytes decompresses to itself. */
  lemma LiteralsPassThrough(data: seq<byte>)
    requires forall k :: 0 <= k < |data| ==> IsLiteral(data[k])
    ensures Decompress(data) == Ok(data)
  {
    LiteralsFrom(data, 0, []);
    assert [] + data[0..] == data;
  }

  /** Decompression fails exactly when the record starts with a back-reference whose
      distance field is zero: the lead byte 0x80 followed by a byte below 8. */
  lemma FailsExactlyOnLeadingZeroDistance(data: seq<byte>)
    ensures Decompress(data).Err? <==> |data| >= 2 && data[0] == 0x80 && data[1] < 8
  {
    if |data| > 0 {
      var d := NextOp(data, 0);
      if !d.op.Dangling? {
        match Emit(d.op, [])
        case None =>
          assert 0x80 <= data[0] <= 0xBF && |data| >= 2;
        case Some(out') =>
          assert Decompress(data) == DecodeFrom(data, d.next, out');
          DecodeFromGrows(data, d.next, out');
          assert |out'| > 0 || d.next == |data|;
      }
    }
  }

  /** Each byte a back-reference appends is the byte `dist` places before it in the
      output as it then stands (the first byte when `dist` is zero), or zero while
      the output is still shorter than `dist`. */
  lemma {:induction false} CopyBackAt(out: seq<byte>, dist: nat, count: nat, k: nat)
    requires CopyBack(out, dist, count).Some?
    requires k < count
    ensures var r := CopyBack(out, dist, count).value;
            r[|out| + k] == if |out| + k < dist then 0 else r[if dist == 0 then 0 else |out| + k - dist]
    decreases count
  {
    var x: byte := if dist > |out| then 0 else out[if dist == 0 then 0 else |out| - dist];
    assert CopyBack(out, dist, count) == CopyBack(out + [x], dist, count - 1);
    if k > 0 {
      CopyBackAt(out + [x], dist, count - 1, k - 1);
    }
  }

  /** An overlapping copy repeats: "A" followed by the pair 0x80 0x0A (distance 1,
      length 5) gives six "A"s. */
  lemma OverlappingCopyRepeats()
    ensures Decompress([0x41, 0x80, 0x0A]) == Ok([0x41, 0x41, 0x41, 0x41, 0x41, 0x41])
  {
    var data: seq<byte> := [0x41, 0x80, 0x0A];
    var a1: seq<byte> := [0x41];
    var a6: seq<byte> := [0x41, 0x41, 0x41, 0x41, 0x41, 0x41];
    assert NextOp(data, 0) == Decoded(Literal(0x41), 1);
    assert NextOp(data, 1) == Decoded(BackRef(1, 5), 3);
    var a2: seq<byte> := [0x41, 0x41];
    var a3: seq<byte> := [0x41, 0x41, 0x41];
    var a4: seq<byte> := [0x41, 0x41, 0x41, 0x41];
    var a5: seq<byte> := [0x41, 0x41, 0x41, 0x41, 0x41];
    assert a1 + [a1[0]] == a2 && a2 + [a2[1]] == a3 && a3 + [a3[2]] == a4;
    assert a4 + [a4[3]] == a5 && a5 + [a5[4]] == a6;
    assert CopyBack(a6, 1, 0) == Some(a6);
    assert CopyBack(a5, 1, 1) == Some(a6);
    assert CopyBack(a4, 1, 2) == Some(a6);
    assert CopyBack(a3, 1, 3) == Some(a6);
    assert CopyBack(a2, 1, 4) == Some(a6);
    assert CopyBack(a1, 1, 5) == Some(a6);
    assert DecodeFrom(data, 1, a1) == DecodeFrom(data, 3, a6);
  }

  /** A distance beyond the output zero-fills until the output is long enough, then
      copies: "A" followed by the pair 0x80 0x10 (distance 2, length 3). */
  lemma ShortOutputZeroFills()
    ensures Decompress([0x41, 0x80, 0x10]) == Ok([0x41, 0x00, 0x41, 0x00])
  {
    var data: seq<byte> := [0x41, 0x80, 0x10];
    var a1: seq<byte> := [0x41];
    var a4: seq<byte> := [0x41, 0x00, 0x41, 0x00];
    assert NextOp(data, 0) == Decoded(Literal(0x41), 1);
    assert NextOp(data, 1) == Decoded(BackRef(2, 3), 3);
    var a2: seq<byte> := [0x41, 0x00];
    var a3: seq<byte> := [0x41, 0x00, 0x41];
    assert a1 + [0] == a2 && a2 + [a2[0]] == a3 && a3 + [a3[1]] == a4;
    assert CopyBack(a4, 2, 0) == Some(a4);
    assert CopyBack(a3, 2, 1) == Some(a4);
    assert CopyBack(a2, 2, 2) == Some(a4);
    assert CopyBack(a1, 2, 3) == Some(a4);
    assert DecodeFrom(data, 1, a1) == DecodeFrom(data, 3, a4);
  }
}
