/** The reader object of mobi_reader.py: its header fields, which `extract_text`
    overwrites one after another, and the two methods that do the work, each proved
    to compute what the functions of Container, PalmDoc and TextResolver define.

    The file the reader was constructed with is read when `extract_text` runs; its
    bytes at that moment are the `file` parameter. */
module MobiReaderModel {
  import opened Bytes
  import opened Outcomes
  import PalmDoc
  import TextResolver
  import Container

  /** The reader's text decoding: the attempts of the encoding list in order, the first
      that does not raise wins, and lossy UTF-8 is the fallback after the list. */
  method DecodeText(c: TextResolver.Codecs, textContent: seq<byte>) returns (text: string)
    ensures text == TextResolver.Resolve(c, textContent).text
  {
    for k := 0 to |TextResolver.EncodingsToTry|
      invariant TextResolver.ResolveFrom(c, textContent, k) == TextResolver.Resolve(c, textContent)
    {
      match TextResolver.TryDecode(c, TextResolver.EncodingsToTry[k], textContent) {
        case Some(decoded) =>
          return decoded;
        case None =>
      }
    }
    return c.utf8Ignore(textContent);
  }

  /** The inner loop of `decompress_palmdoc` for a back-reference: `count` bytes
      appended one at a time, each read `dist` bytes back, or zero when the output is
      shorter than `dist`; None where `output[-0]` meets an empty output. */
  method CopyPair(output: seq<byte>, dist: nat, count: nat) returns (r: Option<seq<byte>>)
    ensures r == PalmDoc.CopyBack(output, dist, count)
  {
    var out := output;
    for k := 0 to count
      invariant PalmDoc.CopyBack(out, dist, count - k) == PalmDoc.CopyBack(output, dist, count)
    {
      if dist > |out| {
        out := out + [0];
      } else {
        if out == [] {
          return None;
        }
        out := out + [out[if dist == 0 then 0 else |out| - dist]];
      }
    }
    return Some(out);
  }

  /** The loop of `extract_text` that reads the record-info entries eight bytes at a
      time from the end of the PDB header, unpacking the leading four bytes of each;
      `pos` is the file position. */
  method ReadRecordInfoList(file: seq<byte>, numRecords: nat) returns (r: Result<seq<nat>>)
    requires |file| >= Container.PdbHeaderSize
    ensures r == Container.RecordOffsets(file, numRecords)
  {
    Container.RecordOffsetsSpec(file, numRecords);
    var recordInfoList: seq<nat> := [];
    var pos: nat := Container.PdbHeaderSize;
    for k := 0 to numRecords
      invariant pos == Min(Container.EntryAt(k), |file|)
      invariant Container.RecordOffsets(file, k) == Ok(recordInfoList)
    {
      var data := Container.ReadAt(file, pos, 8).value;
      if |data| < 4 {
        Container.RecordOffsetsSpec(file, k + 1);
        assert Container.EntryAt(k) <= Container.EntryAt(numRecords - 1);
        return Err(StructError);
      }
      assert data[..4] == file[Container.EntryAt(k)..Container.EntryAt(k) + 4];
      recordInfoList := recordInfoList + [U32At(data, 0)];
      pos := pos + |data|;
    }
    return Ok(recordInfoList);
  }

  /** One turn of the loop of `decompress_palmdoc`: the instruction at `data[i]`
      applied to `output`, and the index after it; None where it raises IndexError.
      Where the loop breaks, the index returned is the end of the input. */
  method DecodeInstruction(data: seq<byte>, i: nat, output: seq<byte>) returns (next: nat, r: Option<seq<byte>>)
    requires i < |data|
    ensures i < next <= |data|
    ensures r.None? ==> PalmDoc.DecodeFrom(data, i, output) == Err(IndexOutOfRange)
    ensures r.Some? ==> PalmDoc.DecodeFrom(data, i, output) == PalmDoc.DecodeFrom(data, next, r.value)
  {
    var length := |data|;
    var b := data[i];
    next := i + 1;
    if b == 0x00 {
      PalmDoc.LiteralStep(data, i, output);
      return next, Some(output + [b]);
    } else if 0x01 <= b <= 0x08 {
      var count: int := b;
      if next + count > length {
        count := length - next;
      }
      PalmDoc.RunStep(data, i, output, count);
      return next + count, Some(output + data[next..next + count]);
    } else if 0x09 <= b <= 0x7F {
      PalmDoc.LiteralStep(data, i, output);
      return next, Some(output + [b]);
    } else if 0xC0 <= b {
      PalmDoc.SpaceStep(data, i, output);
      return next, Some(output + [0x20] + [PalmDoc.XorHigh(b)]);
    } else {
      if next >= length {
        PalmDoc.DanglingStep(data, i, output);
        return length, Some(output);
      }
      var nb := data[next];
      r := CopyPair(output, PalmDoc.PairDistance(b, nb), PalmDoc.PairCount(b, nb));
      PalmDoc.PairStep(data, i, output);
      return next + 1, r;
    }
  }

  class MobiReader {
    const filename: string
    var compression: nat
    var textLength: nat
    var recordCount: nat
    var recordSize: nat
    var currentOffset: nat

    /** The four PalmDOC header fields as the reader currently holds them. */
    function Header(): Container.PalmDocHeader
      reads this
    {
      Container.PalmDocHeader(compression, textLength, recordCount, recordSize)
    }

    constructor (filename: string)
      ensures this.filename == filename
      ensures Header() == Container.PalmDocHeader(1, 0, 0, 4096)
      ensures currentOffset == 0
    {
      this.filename := filename;
      compression := 1;
      textLength := 0;
      recordCount := 0;
      recordSize := 4096;
      currentOffset := 0;
    }

    /** PalmDOC decompression, one instruction per turn of the loop. */
    method DecompressPalmdoc(data: seq<byte>) returns (r: Result<seq<byte>>)
      ensures r == PalmDoc.Decompress(data)
    {
      var output: seq<byte> := [];
      var i: nat := 0;
      var length := |data|;
      while i < length
        invariant i <= length
        invariant PalmDoc.DecodeFrom(data, i, output) == PalmDoc.Decompress(data)
        decreases length - i
      {
        var next, out := DecodeInstruction(data, i, output);
        if out.None? {
          return Err(IndexOutOfRange);
        }
        i, output := next, out.value;
      }
      return Ok(output);
    }

    /** The loop of `extract_text` over text records 1..record_count that exist: each
        is read up to the next record's offset (to the end of the file for the last
        one, or when that offset is 0) and decompressed when the compression is
        PalmDOC. */
    method ReadTextRecords(file: seq<byte>, recordInfoList: seq<nat>) returns (r: Result<seq<byte>>)
      ensures r == Container.TextRecords(file, recordInfoList, compression, recordCount, 1, [])
    {
      ghost var all := Container.TextRecords(file, recordInfoList, compression, recordCount, 1, []);
      var textContent: seq<byte> := [];
      for i := 1 to recordCount + 1
        invariant Container.TextRecords(file, recordInfoList, compression, recordCount, i, textContent) == all
      {
        if i >= |recordInfoList| {
          break;
        }
        var start := recordInfoList[i];
        var end: Option<nat> := if i + 1 < |recordInfoList| then Some(recordInfoList[i + 1]) else None;
        var chunk;
        if end.Some? && end.value != 0 {
          chunk :- Container.ReadAt(file, start, end.value as int - start);
        } else {
          chunk := Container.ReadAt(file, start, -1).value;
        }
        if compression == Container.PalmDocCompression {
          var text :- DecompressPalmdoc(chunk);
          textContent := textContent + text;
        } else {
          textContent := textContent + chunk;
        }
      }
      return Ok(textContent);
    }

    /** `extract_text()`: the offset table, the PalmDOC header (each field stored as
        soon as it unpacks), then the text records and their decoding. */
    method ExtractText(c: TextResolver.Codecs, file: seq<byte>) returns (r: Result<string>)
      modifies this
      ensures r == Container.ExtractText(c, file)
      ensures Header() == Container.HeaderFieldsAfter(file, old(Header()))
      ensures currentOffset == old(currentOffset)
    {
      if |file| < Container.PdbHeaderSize {
        return Err(InvalidFileHeader);
      }
      var header := file[..Container.PdbHeaderSize];
      var numRecords := U16At(header, Container.RecordCountAt);

      var recordInfoList :- ReadRecordInfoList(file, numRecords);
      if recordInfoList == [] {
        return Ok("");
      }

      var headerData :- Container.ReadAt(file, recordInfoList[0], Container.WindowSize(recordInfoList));
      if |headerData| < 2 {
        return Err(StructError);
      }
      compression := U16At(headerData, 0);
      if |headerData| < 8 {
        return Err(StructError);
      }
      textLength := U32At(headerData, 4);
      if |headerData| < 10 {
        return Err(StructError);
      }
      recordCount := U16At(headerData, 8);
      if |headerData| < 12 {
        return Err(StructError);
      }
      recordSize := U16At(headerData, 10);
      assert Header() == Container.HeaderFieldsAfter(file, old(Header()));

      if compression == Container.HuffCdicCompression {
        return Err(HuffCdicUnsupported);
      }

      var textContent :- ReadTextRecords(file, recordInfoList);
      var text := DecodeText(c, textContent);
      return Ok(text);
    }
  }
}
