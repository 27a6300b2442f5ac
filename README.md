# PalmDOC / MOBI text extraction and upload names, in Dafny

This project models the core of an e-book to plain-text converter:

- **The MOBI reader** (mobi_reader.py). `MobiReader.extract_text` reads a Palm Database (PDB) container: the 78-byte header, the table of record offsets, the PalmDOC header at the start of record 0 and the text records. It decompresses the records, then turns the bytes into text through an ordered list of (encoding, error policy) attempts. `MobiReader.decompress_palmdoc` is the PalmDOC LZ77 decoder.
- **The upload name rules** of the web front end (app.py): the `allowed_file` extension whitelist, the replacement of path separators in the uploaded name, and the `.txt` output name built from `os.path.splitext`.

Modules:

- `Outcomes`: the `Result` and `Option` types and the errors the reader can raise.
  - `InvalidFileHeader` is the `ValueError` for a short file.
  - `StructError` is the error `struct.unpack` raises on a short slice.
  - `ReadLengthError` is the `ValueError` from `f.read(n)` when `n < -1`.
  - `IndexOutOfRange` is the `IndexError` in the decoder.
  - `HuffCdicUnsupported` is the `ValueError` for compression 17480.
- `Bytes`: bytes and the big-endian `>H` and `>L` fields, with encoders and round trips.
- `Bits`: Python's `<<`, `>>`, `&`, `|` and `^` on non-negative integers, defined bit by bit.
- `PalmDoc`: the decoder as functions.
  - `NextOp` decodes one instruction. It extracts the fields of a back-reference and the byte after a space arithmetically; lemmas prove these equal to the source's shifts, masks and xor.
  - `CopyBack` is the byte-by-byte back-reference copy.
  - `DecodeFrom` and `Decompress` give the whole output, or the `IndexError`.
- `Utf8`: strict UTF-8 decoding (Unicode Table 3-7), with an encoder and both round trips.
- `TextResolver`: the encoding list and its first-success search. Decoders other than UTF-8 and Latin-1 are parameters.
- `Container`: `extract_text` as functions of the file's bytes. It models the file reads (`ReadAt`), the offset table, the header fields, the text records and the result.
- `MobiReaderModel`: the `MobiReader` class. It holds the header fields that `extract_text` overwrites. Its loops are methods, each proved equal to the matching function above:
  - the decoder loop, whose body is the method `DecodeInstruction`, and its inner copy loop. Where the source breaks out of the loop, `DecodeInstruction` returns the end of the input as the next index, which ends the loop the same way;
  - the offset-table loop;
  - the text-record loop;
  - the encoding loop.
- `UploadNames`: `allowed_file`, the sanitisation, `splitext` and the output name, and what `upload_file` decides for a name.

Three consequences of the code are easy to miss:

- **Decompression can fail.** A back-reference with distance 0 reads `output[-0]`, which is `output[0]` in Python, and raises `IndexError` on an empty output (mobi_reader.py:127-131). `PalmDoc.FailsExactlyOnLeadingZeroDistance` shows this is the only failure.
- **The lossy attempts drop invalid bytes.** The third and fourth attempts and the fallback decode with `errors='ignore'` (mobi_reader.py:75-76, mobi_reader.py:92), so nothing replaces the bytes they skip.
- **The output name does not always lose the extension.** A name like `.epub` passes the whitelist, but `splitext` gives it no extension (app.py:135), so its output name is `.epub.txt`.

Reading the file uses CPython's semantics:

- `f.read(n)` with `n == -1` reads to the end of the file.
- `f.read(n)` with any other negative `n` raises `ValueError`.
- Reading at or past the end gives fewer bytes, possibly none.
- `if end:` treats a next-record offset of 0 as "read to the end".

## Model

| member | source | states |
|---|---|---|
| `Bytes.U16At` | mobi_reader.py:19 | the `>H` field is below 2^16, and its high and low bytes are the two input bytes |
| `Bytes.U32At` | mobi_reader.py:25 | the `>L` field is below 2^32, and its high and low halves are the two `>H` fields it spans |
| `Bytes.U32RoundTrip` | mobi_reader.py:25 | reading the four big-endian bytes of a 32-bit value gives the value back |
| `Bytes.U32Bytes` | mobi_reader.py:25 | encoding a parsed `>L` field gives back the four bytes it was read from |
| `Bytes.U16RoundTrip` | mobi_reader.py:36 | reading the two big-endian bytes of a 16-bit value gives the value back |
| `Bytes.U16Bytes` | mobi_reader.py:36 | encoding a parsed `>H` field gives back the two bytes it was read from |
| `Bits.AndLowMask` | mobi_reader.py:124-125 | and-ing with a mask of the k low bits keeps exactly the part of the value below 2^k |
| `Bits.OrDisjoint` | mobi_reader.py:123 | or-ing a value below 2^k into a multiple of 2^k adds the two |
| `Bits.ShiftRightDrops` | mobi_reader.py:124 | shifting right by k drops exactly the part of the value below 2^k |
| `Bits.XorTopBit` | mobi_reader.py:116 | xor with the top bit of a value clears that bit, subtracting it |
| `PalmDoc.XorHigh` | mobi_reader.py:116 | no contract of its own: the byte after the space, the lead byte minus 0x80; `XorHighIsBitwise` proves it is the reader's `byte ^ 0x80` |
| `PalmDoc.PairDistance` | mobi_reader.py:123-124 | no contract of its own: the distance of a back-reference; `PairFieldsAreBitwise` proves it is the reader's 11-bit field `pair >> 3 & 0x7FF` |
| `PalmDoc.PairCount` | mobi_reader.py:123-125 | no contract of its own: the length of a back-reference; `PairFieldsAreBitwise` proves it is the reader's `(pair & 7) + 3` |
| `PalmDoc.XorHighIsBitwise` | mobi_reader.py:116 | the byte after the space is the lead byte minus 0x80, which is `byte ^ 0x80` for lead bytes 0xC0..0xFF |
| `PalmDoc.PairFieldsAreBitwise` | mobi_reader.py:123-125 | for a lead byte in 0x80..0xBF, the distance `((b << 8) or n) >> 3 & 0x7FF` is (b - 0x80) * 32 + n / 8, and the count `(pair & 7) + 3` is n % 8 + 3 |
| `PalmDoc.NextOp` | mobi_reader.py:99-125 | decoding an instruction always consumes at least one input byte and never reads past the end |
| `PalmDoc.CopyBack` | mobi_reader.py:127-131 | fails exactly when bytes are to be copied at distance 0 from an empty output; otherwise it appends exactly `count` bytes and keeps the output before them |
| `PalmDoc.CopyBackAt` | mobi_reader.py:127-131 | each copied byte is 0 while the output is shorter than the distance; otherwise it is the byte `dist` places back (`output[0]` for distance 0), read after the previous byte was appended |
| `PalmDoc.Emit` | mobi_reader.py:103-131 | one instruction appends exactly its width (1, the run length, 2, or the copy count) and keeps the output before it; it fails only on a zero-distance copy into an empty output |
| `PalmDoc.DecodeFrom` | mobi_reader.py:99-133 | no contract of its own: the rest of the decoder loop from input index i with the output so far. `DecodeFromGrows`, `FailsExactlyOnLeadingZeroDistance`, `LiteralsFrom` and the step lemmas below specify it, and `MobiReader.DecompressPalmdoc` is proved to compute it |
| `PalmDoc.DecodeFromGrows` | mobi_reader.py:99-133 | the output only grows, by at most 5 bytes per input byte; the only failure is `IndexError`, and only with an empty output |
| `PalmDoc.Decompress` | mobi_reader.py:94-133 | a decompressed record is at most five times the length of the compressed one |
| `PalmDoc.LiteralStep` | mobi_reader.py:103-104 | a literal lead byte appends itself and decoding continues at the next byte |
| `PalmDoc.RunStep` | mobi_reader.py:105-111 | a lead byte N in 0x01..0x08 appends the next min(N, remaining) input bytes unchanged and continues after them |
| `PalmDoc.SpaceStep` | mobi_reader.py:114-116 | a lead byte in 0xC0..0xFF appends a space and then b XOR 0x80 |
| `PalmDoc.DanglingStep` | mobi_reader.py:117-119 | a back-reference lead byte as the last input byte ends decoding with the output so far |
| `PalmDoc.PairStep` | mobi_reader.py:117-131 | a back-reference pair performs the byte-by-byte copy and consumes two input bytes; a failed copy is the result |
| `PalmDoc.LiteralsFrom` | mobi_reader.py:103-113 | input made only of literal bytes is appended unchanged to the output |
| `PalmDoc.LiteralsPassThrough` | mobi_reader.py:103-113 | a record made only of 0x00 and 0x09..0x7F bytes decompresses to itself |
| `PalmDoc.FailsExactlyOnLeadingZeroDistance` | mobi_reader.py:128-131 | decompression fails if and only if the record starts with a back-reference of distance 0 (first byte 0x80, second below 8) |
| `PalmDoc.OverlappingCopyRepeats` | mobi_reader.py:127-131 | an overlapping copy repeats: "A" and a pair at distance 1, count 5 give six "A"s |
| `PalmDoc.ShortOutputZeroFills` | mobi_reader.py:128-131 | a distance beyond the output appends zeros until the output is long enough, then copies: "A" with distance 2, count 3 gives A 0 A 0 |
| `Utf8.Decode` | mobi_reader.py:83 | no contract of its own: strict UTF-8 decoding of the whole input, None where `decode('utf-8')` raises. `DecodeEncode` and `EncodeDecode` prove it inverse to `Encode` on every string and every valid byte string |
| `Utf8.DecodeFirst` | mobi_reader.py:83 | a well-formed sequence takes 1 to 4 bytes, and an ASCII byte decodes to itself in one byte |
| `Utf8.EncodeCharDecodes` | mobi_reader.py:83 | the UTF-8 encoding of any character is a well-formed sequence that decodes back to it |
| `Utf8.DecodeFirstEncodes` | mobi_reader.py:83 | a well-formed sequence is exactly the encoding of the character it decodes to |
| `Utf8.DecodeEncode` | mobi_reader.py:83 | strict decoding of an encoded string gives the string back |
| `Utf8.EncodeDecode` | mobi_reader.py:83 | encoding what strict decoding accepted gives the bytes back |
| `Utf8.AsciiDecodes` | mobi_reader.py:83 | ASCII bytes are valid UTF-8 and decode to the characters with the same code points |
| `TextResolver.Latin1Decode` | mobi_reader.py:78 | Latin-1 decodes every byte to the character with the same code point |
| `TextResolver.TryDecode` | mobi_reader.py:81-89 | no contract of its own: one attempt of the list, None where `decode` raises `UnicodeDecodeError`. Strict UTF-8 and Latin-1 are defined here; the other decoders are parameters. `ResolveFrom`'s contract is stated in its terms |
| `TextResolver.Resolve` | mobi_reader.py:72-92 | no contract of its own: the search from the first attempt. `ResolveFrom`, `ValidUtf8IsDecodedAsUtf8`, `Gb18030IsSecond` and `LossyUtf8EndsTheSearch` specify it |
| `TextResolver.ResolveFrom` | mobi_reader.py:81-92 | the result comes from the first attempt in list order that does not fail: all earlier attempts fail, the chosen one yields the text, and the lossy-UTF-8 fallback is used only when all six fail |
| `TextResolver.ValidUtf8IsDecodedAsUtf8` | mobi_reader.py:72-87 | well-formed UTF-8 is always decoded as strict UTF-8, whatever the other decoders do |
| `TextResolver.Gb18030IsSecond` | mobi_reader.py:72-87 | bytes that are not UTF-8 but are GB18030 are decoded as GB18030 |
| `TextResolver.LossyUtf8EndsTheSearch` | mobi_reader.py:72-92 | at most the third attempt is ever used. It is used exactly when strict UTF-8 and strict GB18030 both fail, and then the text is lossy UTF-8. The GB18030-ignore, cp1252 and Latin-1 entries and the final fallback are unreachable |
| `Container.ReadAt` | mobi_reader.py:32-33 | `seek` then `read(n)`: fails exactly when n < -1. n == -1 reads to the end of the file; otherwise up to n bytes, fewer at the end and none past it |
| `Container.RecordOffsets` | mobi_reader.py:22-26 | reading the offset table fails only with the `struct.unpack` error |
| `Container.RecordOffsetsSpec` | mobi_reader.py:19-26 | the table can be read exactly when the last entry's leading four bytes lie inside the file; it then holds `count` entries, and entry k is the `>L` at 78 + 8k |
| `Container.ParsePalmDocHeader` | mobi_reader.py:36-39 | the PalmDOC header fails to parse exactly when record 0's window is shorter than 12 bytes |
| `Container.WindowSize` | mobi_reader.py:33 | no contract of its own: the length asked for when reading record 0. `ParseFrontSpec`, `DescendingWindow` and `OneBelowWindowReadsToEnd` state what it leads to |
| `Container.ParseFront` | mobi_reader.py:13-39 | a parse that finds records has a non-empty offset table; `ParseFrontSpec` states when it fails and what the header holds |
| `Container.ParseFrontSpec` | mobi_reader.py:14-39 | "Invalid file header" exactly for a file under 78 bytes; no records exactly for a record count of 0; the `ValueError` of `f.read` exactly when the table is readable, has two entries and the second offset is more than one below the first; no other errors than these and `struct.error`. The parse reaches the text records exactly when the table is readable and record 0 holds 12 header bytes, and then the four fields are the big-endian fields at the record's offset, +4, +8 and +10 |
| `Container.RecordChunk` | mobi_reader.py:51-58 | no contract of its own: the bytes of one text record. `ZeroNextOffsetReadsToEnd` and `RawRecordsContiguous` specify it |
| `Container.TextRecords` | mobi_reader.py:47-66 | no contract of its own: the text-record loop. `RawRecordsContiguous` specifies it for uncompressed records; `MobiReader.ReadTextRecords` is proved to compute it |
| `Container.ExtractText` | mobi_reader.py:12-92 | no contract of its own: `extract_text` as a function of the file's bytes. `ShortFileRejected`, `NoRecordsGivesEmptyText`, `HuffCdicRejected`, `UncompressedTextIsContiguous` and `AsciiRecordRoundTrip` specify it, and `MobiReader.ExtractText` is proved to compute it |
| `Container.FieldsAfter` | mobi_reader.py:36-39 | no contract of its own: the reader's fields after unpacking a record-0 window of any length. `FieldsAfterCompleteHeader` specifies the complete case |
| `Container.HeaderFieldsAfter` | mobi_reader.py:14-39 | no contract of its own: the reader's fields after `extract_text` on a file; `MobiReader.ExtractText` is proved to leave them so |
| `Container.ShortFileRejected` | mobi_reader.py:14-16 | a file shorter than 78 bytes raises "Invalid file header" |
| `Container.NoRecordsGivesEmptyText` | mobi_reader.py:19-29 | a record count of 0 at bytes 76..77 gives the empty text |
| `Container.HuffCdicRejected` | mobi_reader.py:43-44 | compression 17480 is rejected whatever the text records hold |
| `Container.RawRecordsContiguous` | mobi_reader.py:48-66 | without PalmDOC compression, text records i..record_count of a well-formed file add exactly the file bytes from the start of record i to the start of record record_count + 1, or to the end of the file |
| `Container.UncompressedTextIsContiguous` | mobi_reader.py:46-92 | without compression, the text is the decoding of the file bytes from record 1 to the end of the last text record read |
| `Container.AsciiRecordRoundTrip` | mobi_reader.py:12-92 | a container with one uncompressed ASCII text record yields exactly that text, character for character |
| `Container.ZeroNextOffsetReadsToEnd` | mobi_reader.py:52-58 | a next-record offset of 0 is falsy, so the record is read to the end of the file |
| `Container.DescendingWindow` | mobi_reader.py:32-33 | a second offset more than one below the first makes the read of record 0 raise |
| `Container.OneBelowWindowReadsToEnd` | mobi_reader.py:32-33 | a second offset exactly one below the first asks for -1 bytes, so record 0 is read to the end of the file |
| `Container.FieldsAfterCompleteHeader` | mobi_reader.py:36-39 | with a complete 12-byte PalmDOC header, the reader's fields are exactly the parsed header |
| `MobiReaderModel.DecodeText` | mobi_reader.py:72-92 | the encoding loop returns the text of the first attempt that succeeds, or the lossy fallback after the list |
| `MobiReaderModel.CopyPair` | mobi_reader.py:127-131 | the inner copy loop computes `CopyBack` |
| `MobiReaderModel.ReadRecordInfoList` | mobi_reader.py:22-26 | the loop that reads eight bytes per entry from the file position after the header computes the offset table, or fails where `struct.unpack` raises |
| `MobiReaderModel.MobiReader.constructor` | mobi_reader.py:4-10 | a new reader holds compression 1, text length 0, record count 0, record size 4096 and offset 0 |
| `MobiReaderModel.DecodeInstruction` | mobi_reader.py:100-131 | one turn of the decoder loop consumes at least one input byte and leaves the rest of the decoding with the same result, or raises `IndexError` exactly where the whole decoding does |
| `MobiReaderModel.MobiReader.DecompressPalmdoc` | mobi_reader.py:94-133 | the decoder loop returns exactly `PalmDoc.Decompress` of its input, including the `IndexError` |
| `MobiReaderModel.MobiReader.ReadTextRecords` | mobi_reader.py:47-66 | the record loop, driven by the reader's compression and record count, computes `Container.TextRecords` |
| `MobiReaderModel.MobiReader.ExtractText` | mobi_reader.py:12-92 | returns `Container.ExtractText` of the file's bytes. It leaves the header fields as `Container.HeaderFieldsAfter` says: each is stored as soon as its own bytes unpack, so a short PalmDOC header leaves the later ones unchanged. The current offset is untouched |
| `UploadNames.AllowedFile` | app.py:109-110 | no contract of its own: `allowed_file`. `NoDotRejected`, `AllowedFileSplit` and `CaseInsensitive` specify it |
| `UploadNames.Extension` | app.py:110 | no contract of its own: `rsplit('.', 1)[1]`, the text after the last dot. `SanitizeExtension` and `AllowedExtensionIsFlat` are stated in its terms |
| `UploadNames.LastIndexOf` | app.py:110 | `rfind`: the index holds the character and no later index does; -1 exactly when it is absent |
| `UploadNames.Lower` | app.py:110 | lowering keeps the length and lowers each character in place |
| `UploadNames.NoDotRejected` | app.py:110 | a name without a dot is never allowed |
| `UploadNames.AllowedFileSplit` | app.py:107-110 | for any name cut at its last dot, the name is allowed if and only if the lower-cased text after the dot is "epub" or "mobi"; with `NoDotRejected` this covers every name |
| `UploadNames.LowerKeepsLastDot` | app.py:110 | lowering keeps the position of the last dot |
| `UploadNames.LowerIdempotent` | app.py:110 | lowering twice is lowering once |
| `UploadNames.CaseInsensitive` | app.py:110 | a name is allowed exactly when its lower-case form is |
| `UploadNames.FinalExtensionAccepted` | app.py:107-110 | any name ending in ".epub" or ".mobi" is allowed, such as "a.txt.epub" |
| `UploadNames.FinalExtensionRejected` | app.py:107-110 | any name ending in ".txt" (such as "a.epub.txt") or in a dot (such as "book.") is rejected |
| `UploadNames.MixedCaseAccepted` | app.py:110 | names ending in ".MOBI" or ".EpUb" are allowed |
| `UploadNames.ReplaceChar` | app.py:128 | `replace` keeps the length, puts the replacement where the old character was, and changes nothing else |
| `UploadNames.Sanitize` | app.py:128 | no contract of its own: the two chained `replace` calls. `SanitizeSpec` and `SanitizeIdempotent` specify it |
| `UploadNames.SanitizeSpec` | app.py:128 | the stored name has the uploaded name's length, has '_' where a '/' or '\\' was, is otherwise unchanged, and contains no '/' or '\\' |
| `UploadNames.SanitizeIdempotent` | app.py:128 | sanitising twice is sanitising once |
| `UploadNames.ReplaceKeepsLastDot` | app.py:128 | replacing a non-dot character by another keeps the last dot |
| `UploadNames.SanitizeKeepsLastDot` | app.py:128 | sanitising keeps the last dot where it was |
| `UploadNames.AllowedExtensionIsFlat` | app.py:107-110 | an allowed extension contains no path separator |
| `UploadNames.SanitizeExtension` | app.py:110-128 | the extension of the sanitised name is the sanitised extension |
| `UploadNames.SanitizeKeepsAllowed` | app.py:125-128 | a name that passed `allowed_file` still passes it after sanitising |
| `UploadNames.SplitExt` | app.py:135 | no contract of its own: POSIX `os.path.splitext`. `SplitExtParts` specifies it |
| `UploadNames.OutputName` | app.py:135 | no contract of its own: the stem plus ".txt". `ReplacesExtension`, `DotsOnlyStemKeepsName` and `OutputNameFlat` specify it |
| `UploadNames.SplitExtParts` | app.py:135 | `splitext` splits the name into stem and extension, which concatenate back to it. The extension is empty, or is one dot followed by text with no dot and no '/' |
| `UploadNames.ReplacesExtension` | app.py:135 | a name whose stem has a non-dot character loses its extension: stem + "." + ext gives stem + ".txt" |
| `UploadNames.DotsOnlyStemKeepsName` | app.py:135 | a name whose last dot is preceded only by dots has no extension, so the whole name is kept and ".txt" appended |
| `UploadNames.BookMobiExample` | app.py:135 | "book.mobi" becomes "book.txt" |
| `UploadNames.HiddenEpubAllowed` | app.py:110 | ".epub" passes the whitelist |
| `UploadNames.LeadingDotNameKept` | app.py:135 | a dot followed by an extension keeps the whole name: ".epub" becomes ".epub.txt" |
| `UploadNames.OutputNameFlat` | app.py:128-135 | the output name of a separator-free name has no separator and ends in ".txt" |
| `UploadNames.AcceptedNamesAreFlat` | app.py:122-135 | an accepted upload is stored under its sanitised name; neither the stored name nor the output name has a separator, and the output name ends in ".txt" |
| `UploadNames.HandleUpload` | app.py:117-149 | no contract of its own: what `upload_file` decides for a name. `UploadAcceptedIff` and `AcceptedNamesAreFlat` specify it |
| `UploadNames.UploadAcceptedIff` | app.py:122-131 | an upload is accepted exactly when its name passes `allowed_file`, and is refused as "no file selected" exactly when its name is empty |

## Left out

- GB18030, cp1252 and lossy-UTF-8 decoding are not defined here. The strict decoders are caller-supplied functions that may fail, and the lossy ones are caller-supplied functions that cannot. Only their order and the first-success search are modelled. Strict UTF-8 and Latin-1 are defined.
- The file system: `open(self.filename, 'rb')` is not modelled. `MobiReader.ExtractText` receives the bytes the file holds when it runs. A missing or unreadable file, and the file changing while it is read, are not modelled.
- `text_length`, `record_size` and `current_offset` are stored as the source stores them, but nothing reads them.
- `UploadNames.Lower`: lowers ASCII letters only, while Python's `str.lower` is Unicode-wide. The only non-ASCII characters whose lower case contains an ASCII letter are U+212A KELVIN SIGN (to "k") and U+0130 (to "i" plus a combining dot). Neither can make an extension equal "epub" or "mobi", so `allowed_file`'s verdict is unaffected.
- `UploadNames.SplitExt` follows the POSIX `os.path.splitext`, with '/' as the separator. On Windows, `splitext` also splits at '\\'. Every name it is applied to has been sanitised and holds neither separator, so the result is the same.
- The Flask routes, the request handling other than the name rules, saving the upload, the JSON responses, logging, the download routes, port selection and the browser launcher are I/O plumbing (app.py:14-104, app.py:151-212).
- The call into the conversion module and its outcome (app.py:132-149) are not modelled. The conversion module, the browser script and the web test harness are outside this model.
- The command-line block at the end of mobi_reader.py (mobi_reader.py:135-142) prints and exits.
