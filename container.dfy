/** What `MobiReader.extract_text` computes from the bytes of a Palm Database (PDB)
    file, as functions: the 78-byte PDB header and its record count, the table of
    record offsets, the PalmDOC header at the start of record 0, the text records
    1..record_count, and the decoded text.

    `f.seek(p); f.read(n)` on the open file is ReadAt; big-endian fields are
    Bytes.U16At / Bytes.U32At, which the reader reaches through `struct.unpack`. */
module Container {
  import opened Bytes
  import opened Outcomes
  import PalmDoc
  import Utf8
  import TextResolver

  const PdbHeaderSize: nat := 78
  const RecordCountAt: nat := 76
  const RecordInfoSize: nat := 8
  const HeaderWindowFallback: nat := 1024
  const PalmDocCompression: nat := 2
  const HuffCdicCompression: nat := 17480

  /** The PalmDOC header fields at the start of record 0, and the reader's fields of
      the same names. */
  datatype PalmDocHeader = PalmDocHeader(compression: nat, textLength: nat, recordCount: nat, recordSize: nat)

  /** `f.seek(pos); f.read(n)`.  A length of -1 reads to the end of the file, CPython's
      buffered reader refuses any other negative length, and reading at or past the
      end gives fewer bytes, possibly none. */
  function ReadAt(file: seq<byte>, pos: nat, n: int): (r: Result<seq<byte>>)
    ensures r.Err? <==> n < -1
    ensures r.Ok? && n == -1 ==> r.value == file[Min(pos, |file|)..]
    ensures r.Ok? && n >= 0 ==> r.value == file[Min(pos, |file|)..Min(pos + n, |file|)]
  {
    if n < -1 then Err(ReadLengthError)
    else if pos >= |file| then assert file[|file|..] == []; Ok([])
    else if n == -1 || pos + n > |file| then Ok(file[pos..])
    else Ok(file[pos..pos + n])
  }

  /** The position of the record-info entry `k`. */
  function EntryAt(k: nat): nat {
    PdbHeaderSize + RecordInfoSize * k
  }

  /** The offsets of the first `count` records.  Entries are read one after another;
      only the leading four bytes of an entry are unpacked, so reading fails exactly
      when one of those runs past the end of the file. */
  function RecordOffsets(file: seq<byte>, count: nat): (r: Result<seq<nat>>)
    ensures r.Err? ==> r.error == StructError
  {
    if count == 0 then Ok([])
    else
      var offsets :- RecordOffsets(file, count - 1);
      if EntryAt(count - 1) + 4 > |file| then Err(StructError)
      else Ok(offsets + [U32At(file, EntryAt(count - 1))])
  }

  /** The length asked for when reading record 0: up to the second record, or 1024
      bytes when there is only one record. */
  function WindowSize(offsets: seq<nat>): int
    requires |offsets| > 0
  {
    if |offsets| > 1 then offsets[1] - offsets[0] else HeaderWindowFallback
  }

  /** The four PalmDOC header fields; fewer than 12 bytes make `struct.unpack` raise. */
  function ParsePalmDocHeader(w: seq<byte>): (r: Result<PalmDocHeader>)
    ensures r.Err? <==> |w| < 12
  {
    if |w| < 12 then Err(StructError)
    else Ok(PalmDocHeader(U16At(w, 0), U32At(w, 4), U16At(w, 8), U16At(w, 10)))
  }

  /** What precedes the text records: no records at all, or the offset table and
      the PalmDOC header. */
  datatype Front = NoRecords | Front(offsets: seq<nat>, header: PalmDocHeader)

  function ParseFront(file: seq<byte>): (r: Result<Front>)
    ensures r.Ok? && r.value.Front? ==> |r.value.offsets| > 0
  {
    if |file| < PdbHeaderSize then Err(InvalidFileHeader)
    else
      var offsets :- RecordOffsets(file, U16At(file, RecordCountAt));
      if offsets == [] then Ok(NoRecords)
      else
        var w :- ReadAt(file, offsets[0], WindowSize(offsets));
        var header :- ParsePalmDocHeader(w);
        Ok(Front(offsets, header))
  }

  /** The bytes of text record `i`: up to the next record's offset, or to the end of
      the file for the last record; an offset of 0 for the next record is falsy in
      Python and also reads to the end of the file. */
  function RecordChunk(file: seq<byte>, offsets: seq<nat>, i: nat): Result<seq<byte>>
    requires 1 <= i < |offsets|
  {
    if i + 1 < |offsets| && offsets[i + 1] != 0 then ReadAt(file, offsets[i], offsets[i + 1] as int - offsets[i])
    else ReadAt(file, offsets[i], -1)
  }

  /** Text records `i..recordCount` that exist, decompressed when the compression is
      PalmDOC and copied unchanged otherwise, appended to `acc`. */
  function TextRecords(file: seq<byte>, offsets: seq<nat>, compression: nat, recordCount: nat, i: nat, acc: seq<byte>)
    : Result<seq<byte>>
    requires 1 <= i
    decreases |offsets| - i
  {
    if i > recordCount || i >= |offsets| then Ok(acc)
    else
      var chunk :- RecordChunk(file, offsets, i);
      var text :- if compression == PalmDocCompression then PalmDoc.Decompress(chunk) else Ok(chunk);
      TextRecords(file, offsets, compression, recordCount, i + 1, acc + text)
  }

  /** `extract_text()` on a file holding `file`. */
  function ExtractText(c: TextResolver.Codecs, file: seq<byte>): Result<string> {
    var front :- ParseFront(file);
    if front.NoRecords? then Ok("")
    else if front.header.compression == HuffCdicCompression then Err(HuffCdicUnsupported)
    else
      var bytes :- TextRecords(file, front.offsets, front.header.compression, front.header.recordCount, 1, []);
      Ok(TextResolver.Resolve(c, bytes).text)
  }

  /** The reader's header fields after `extract_text()`: each field is assigned as soon
      as its own bytes unpack, so a short PalmDOC header leaves the later fields as
      they were. */
  function FieldsAfter(w: seq<byte>, before: PalmDocHeader): PalmDocHeader {
    PalmDocHeader(
      if |w| >= 2 then U16At(w, 0) else before.compression,
      if |w| >= 8 then U32At(w, 4) else before.textLength,
      if |w| >= 10 then U16At(w, 8) else before.recordCount,
      if |w| >= 12 then U16At(w, 10) else before.recordSize)
  }

  function HeaderFieldsAfter(file: seq<byte>, before: PalmDocHeader): PalmDocHeader {
    if |file| < PdbHeaderSize then before
    else match RecordOffsets(file, U16At(file, RecordCountAt))
      case Err(_) => before
      case Ok(offsets) =>
        if offsets == [] then before
        else match ReadAt(file, offsets[0], WindowSize(offsets))
          case Err(_) => before
          case Ok(w) => FieldsAfter(w, before)
  }

  // ---------------------------------------------------------------------------
  // Properties

  /** The offset table holds the leading big-endian u32 of each 8-byte entry after
      the 78-byte header, and can be read exactly when the last entry's four leading
      bytes lie inside the file. */
  lemma {:induction false} RecordOffsetsSpec(file: seq<byte>, count: nat)
    ensures RecordOffsets(file, count).Ok? <==> count == 0 || EntryAt(count - 1) + 4 <= |file|
    ensures RecordOffsets(file, count).Ok? ==>
              var offsets := RecordOffsets(file, count).value;
              && |offsets| == count
              && forall k :: 0 <= k < count ==> EntryAt(k) + 4 <= |file| && offsets[k] == U32At(file, EntryAt(k))
  {
    if count > 0 {
      RecordOffsetsSpec(file, count - 1);
    }
  }

  /** A file shorter than the PDB header is rejected. */
  lemma ShortFileRejected(c: TextResolver.Codecs, file: seq<byte>)
    requires |file| < PdbHeaderSize
    ensures ExtractText(c, file) == Err(InvalidFileHeader)
  {
  }

  /** A record count of zero in the PDB header gives the empty text. */
  lemma NoRecordsGivesEmptyText(c: TextResolver.Codecs, file: seq<byte>)
    requires |file| >= PdbHeaderSize && U16At(file, RecordCountAt) == 0
    ensures ExtractText(c, file) == Ok("")
  {
  }

  /** Huff/CDIC compression is rejected once the header is read, whatever the text
      records hold. */
  lemma HuffCdicRejected(c: TextResolver.Codecs, file: seq<byte>)
    requires ParseFront(file).Ok? && ParseFront(file).value.Front?
    requires ParseFront(file).value.header.compression == HuffCdicCompression
    ensures ExtractText(c, file) == Err(HuffCdicUnsupported)
  {
  }

  /** Record offsets as a well-formed PDB file has them: non-decreasing, non-zero and
      inside the file. */
  predicate WellFormedOffsets(file: seq<byte>, offsets: seq<nat>) {
    && (forall j :: 0 <= j < |offsets| ==> 0 < offsets[j] <= |file|)
    && (forall j, k :: 0 <= j <= k < |offsets| ==> offsets[j] <= offsets[k])
  }

  /** The end of the last text record the reader reads. */
  function TextEnd(file: seq<byte>, offsets: seq<nat>, recordCount: nat): nat {
    if recordCount + 1 < |offsets| then offsets[recordCount + 1] else |file|
  }

  /** Without PalmDOC compression, records `i..recordCount` of a well-formed file are
      one contiguous stretch of the file: from the start of record `i` to the start of
      record `recordCount + 1`, or to the end of the file when no such record exists. */
  lemma {:induction false} RawRecordsContiguous(file: seq<byte>, offsets: seq<nat>, compression: nat,
                                                recordCount: nat, i: nat, acc: seq<byte>)
    requires compression != PalmDocCompression
    requires WellFormedOffsets(file, offsets)
    requires 1 <= i <= recordCount && i < |offsets|
    ensures offsets[i] <= TextEnd(file, offsets, recordCount) <= |file|
    ensures TextRecords(file, offsets, compression, recordCount, i, acc)
            == Ok(acc + file[offsets[i]..TextEnd(file, offsets, recordCount)])
    decreases |offsets| - i
  {
    var end := TextEnd(file, offsets, recordCount);
    if i + 1 < |offsets| {
      assert offsets[i] <= offsets[i + 1] && 0 < offsets[i + 1] <= |file|;
      assert RecordChunk(file, offsets, i) == Ok(file[offsets[i]..offsets[i + 1]]);
      if i + 1 <= recordCount {
        var chunk := file[offsets[i]..offsets[i + 1]];
        assert TextRecords(file, offsets, compression, recordCount, i, acc)
            == TextRecords(file, offsets, compression, recordCount, i + 1, acc + chunk);
        RawRecordsContiguous(file, offsets, compression, recordCount, i + 1, acc + chunk);
        assert (acc + chunk) + file[offsets[i + 1]..end] == acc + file[offsets[i]..end];
      }
    } else {
      assert RecordChunk(file, offsets, i) == Ok(file[offsets[i]..]);
      assert TextRecords(file, offsets, compression, recordCount, i + 1, acc + file[offsets[i]..])
          == Ok(acc + file[offsets[i]..]);
      assert end == |file| && file[offsets[i]..end] == file[offsets[i]..];
    }
  }

  /** Without PalmDOC compression, the text of a well-formed file is the decoding of
      the bytes from the start of record 1 to the end of the last text record read. */
  lemma UncompressedTextIsContiguous(c: TextResolver.Codecs, file: seq<byte>)
    requires ParseFront(file).Ok? && ParseFront(file).value.Front?
    requires var front := ParseFront(file).value;
             && front.header.compression != PalmDocCompression
             && front.header.compression != HuffCdicCompression
             && front.header.recordCount >= 1
             && |front.offsets| >= 2
             && WellFormedOffsets(file, front.offsets)
    ensures var front := ParseFront(file).value;
            ExtractText(c, file)
            == Ok(TextResolver.Resolve(c, file[front.offsets[1]..TextEnd(file, front.offsets, front.header.recordCount)]).text)
  {
    var front := ParseFront(file).value;
    RawRecordsContiguous(file, front.offsets, front.header.compression, front.header.recordCount, 1, []);
    var text := file[front.offsets[1]..TextEnd(file, front.offsets, front.header.recordCount)];
    assert [] + text == text;
    assert TextRecords(file, front.offsets, front.header.compression, front.header.recordCount, 1, []) == Ok(text);
  }

  /** A container with two records whose one text record is uncompressed ASCII text
      gives that text back unchanged. */
  lemma AsciiRecordRoundTrip(c: TextResolver.Codecs, file: seq<byte>)
    requires ParseFront(file).Ok? && ParseFront(file).value.Front?
    requires var front := ParseFront(file).value;
             && front.header.compression == 1
             && front.header.recordCount >= 1
             && |front.offsets| == 2
             && 0 < front.offsets[1] <= |file|
             && forall k :: front.offsets[1] <= k < |file| ==> file[k] < 0x80
    ensures var start := ParseFront(file).value.offsets[1];
            && ExtractText(c, file).Ok?
            && |ExtractText(c, file).value| == |file| - start
            && forall k :: 0 <= k < |file| - start ==> ExtractText(c, file).value[k] as int == file[start + k]
  {
    var front := ParseFront(file).value;
    var start := front.offsets[1];
    var record := file[start..];
    assert RecordChunk(file, front.offsets, 1) == Ok(record);
    assert TextRecords(file, front.offsets, 1, front.header.recordCount, 2, record) == Ok(record);
    assert [] + record == record;
    assert TextRecords(file, front.offsets, 1, front.header.recordCount, 1, []) == Ok(record);
    Utf8.AsciiDecodes(record);
    TextResolver.ValidUtf8IsDecodedAsUtf8(c, record);
  }

  /** A zero offset for the next record is read as "to the end of the file". */
  lemma ZeroNextOffsetReadsToEnd(file: seq<byte>, offsets: seq<nat>, i: nat)
    requires 1 <= i && i + 1 < |offsets| && offsets[i + 1] == 0 && offsets[i] < |file|
    ensures RecordChunk(file, offsets, i) == Ok(file[offsets[i]..])
  {
  }

  /** Whether the read of record 0 returns the twelve bytes of a PalmDOC header: they
      lie inside the file, and the length asked for is -1 (to the end of the file) or
      at least 12. */
  predicate HeaderWindowFits(file: seq<byte>, offsets: seq<nat>)
    requires |offsets| > 0
  {
    offsets[0] + 12 <= |file| && (WindowSize(offsets) == -1 || WindowSize(offsets) >= 12)
  }

  /** How the part of `extract_text` before the text records ends: "Invalid file
      header" exactly for a file shorter than the PDB header; no records exactly for a
      record count of 0; the ValueError of `f.read` exactly when the second offset is
      more than one below the first; otherwise the error of `struct.unpack`, unless the
      table is readable and record 0 holds a whole PalmDOC header, whose fields are the
      big-endian fields at that record's offset. */
  lemma ParseFrontSpec(file: seq<byte>)
    ensures ParseFront(file) == Err(InvalidFileHeader) <==> |file| < PdbHeaderSize
    ensures ParseFront(file) == Ok(NoRecords) <==> |file| >= PdbHeaderSize && U16At(file, RecordCountAt) == 0
    ensures ParseFront(file) == Err(ReadLengthError) <==>
              && |file| >= PdbHeaderSize
              && RecordOffsets(file, U16At(file, RecordCountAt)).Ok?
              && (var offsets := RecordOffsets(file, U16At(file, RecordCountAt)).value;
                  |offsets| >= 2 && offsets[1] + 1 < offsets[0])
    ensures ParseFront(file).Err? ==> ParseFront(file).error in {InvalidFileHeader, ReadLengthError, StructError}
    ensures (ParseFront(file).Ok? && ParseFront(file).value.Front?) <==>
              && |file| >= PdbHeaderSize
              && RecordOffsets(file, U16At(file, RecordCountAt)).Ok?
              && (var offsets := RecordOffsets(file, U16At(file, RecordCountAt)).value;
                  |offsets| >= 1 && HeaderWindowFits(file, offsets))
    ensures ParseFront(file).Ok? && ParseFront(file).value.Front? ==>
              var front := ParseFront(file).value;
              var o := front.offsets[0];
              && |file| >= PdbHeaderSize
              && RecordOffsets(file, U16At(file, RecordCountAt)) == Ok(front.offsets)
              && o + 12 <= |file|
              && front.header == PalmDocHeader(U16At(file, o), U32At(file, o + 4), U16At(file, o + 8), U16At(file, o + 10))
  {
    if |file| >= PdbHeaderSize {
      var count := U16At(file, RecordCountAt);
      RecordOffsetsSpec(file, count);
      if RecordOffsets(file, count).Ok? {
        var offsets := RecordOffsets(file, count).value;
        if offsets != [] {
          var o := offsets[0];
          var n := WindowSize(offsets);
          if n >= -1 {
            var w := ReadAt(file, o, n).value;
            if |w| >= 12 {
              assert o < |file|;
              assert forall k :: 0 <= k < 12 ==> w[k] == file[o + k];
            }
          }
        }
      }
    }
  }

  /** A second offset exactly one byte below the first asks for -1 bytes, so record 0
      is read to the end of the file. */
  lemma OneBelowWindowReadsToEnd(file: seq<byte>, offsets: seq<nat>)
    requires |offsets| >= 2 && offsets[1] + 1 == offsets[0]
    ensures ReadAt(file, offsets[0], WindowSize(offsets)) == Ok(file[Min(offsets[0], |file|)..])
  {
  }

  /** A second offset more than one byte below the first makes the read of record 0
      raise. */
  lemma DescendingWindow(file: seq<byte>)
    requires |file| >= PdbHeaderSize
    requires RecordOffsets(file, U16At(file, RecordCountAt)).Ok?
    requires var offsets := RecordOffsets(file, U16At(file, RecordCountAt)).value;
             |offsets| >= 2 && offsets[1] + 1 < offsets[0]
    ensures ParseFront(file) == Err(ReadLengthError)
  {
  }

  /** With a complete PalmDOC header the reader's fields are exactly the parsed
      header. */
  lemma FieldsAfterCompleteHeader(w: seq<byte>, before: PalmDocHeader)
    requires |w| >= 12
    ensures FieldsAfter(w, before) == ParsePalmDocHeader(w).value
  {
  }
}
