/** Turning the concatenated text records into a string: the reader tries a fixed list
    of (encoding, error policy) pairs in order and keeps the first decoding that does
    not raise UnicodeDecodeError (mobi_reader.py, extract_text). */
module TextResolver {
  import opened Bytes
  import opened Outcomes
  import Utf8

  /** The six attempts of the list, in the order the reader tries them. */
  datatype Attempt =
    | Utf8Strict      // ('utf-8', 'strict')
    | Gb18030Strict   // ('gb18030', 'strict')
    | Utf8Ignore      // ('utf-8', 'ignore')
    | Gb18030Ignore   // ('gb18030', 'ignore')
    | Cp1252Strict    // ('cp1252', 'strict')
    | Latin1Strict    // ('latin1', 'strict')

  const EncodingsToTry: seq<Attempt> :=
    [Utf8Strict, Gb18030Strict, Utf8Ignore, Gb18030Ignore, Cp1252Strict, Latin1Strict]

  /** The decoders this model does not define, supplied by the caller.  A strict
      decoder gives None where Python raises UnicodeDecodeError; a decoder under the
      'ignore' policy drops what it cannot decode and never raises, so its type has
      no failure. */
  datatype Codecs = Codecs(
    gb18030Strict: seq<byte> -> Option<string>,
    utf8Ignore: seq<byte> -> string,
    gb18030Ignore: seq<byte> -> string,
    cp1252Strict: seq<byte> -> Option<string>)

  /** Latin-1 maps every byte to the character with the same code point. */
  function Latin1Decode(s: seq<byte>): (t: string)
    ensures |t| == |s|
    ensures forall k :: 0 <= k < |s| ==> t[k] as int == s[k]
  {
    if s == [] then [] else [s[0] as char] + Latin1Decode(s[1..])
  }

  /** `s.decode(encoding, errors=policy)` for one attempt of the list. */
  function TryDecode(c: Codecs, a: Attempt, s: seq<byte>): Option<string> {
    match a
    case Utf8Strict => Utf8.Decode(s)
    case Gb18030Strict => c.gb18030Strict(s)
    case Utf8Ignore => Some(c.utf8Ignore(s))
    case Gb18030Ignore => Some(c.gb18030Ignore(s))
    case Cp1252Strict => c.cp1252Strict(s)
    case Latin1Strict => Some(Latin1Decode(s))
  }

  /** The decoded text and the position in EncodingsToTry of the attempt that produced
      it; position |EncodingsToTry| stands for the reader's final fallback,
      `decode('utf-8', errors='ignore')` after the loop. */
  datatype Resolved = Resolved(text: string, used: nat)

  /** The first attempt from position `k` on that decodes `s`. */
  function ResolveFrom(c: Codecs, s: seq<byte>, k: nat): (r: Resolved)
    requires k <= |EncodingsToTry|
    decreases |EncodingsToTry| - k
    ensures k <= r.used <= |EncodingsToTry|
    ensures r.used < |EncodingsToTry| ==> TryDecode(c, EncodingsToTry[r.used], s) == Some(r.text)
    ensures r.used == |EncodingsToTry| ==> r.text == c.utf8Ignore(s)
    ensures forall j :: k <= j < r.used ==> TryDecode(c, EncodingsToTry[j], s).None?
  {
    if k == |EncodingsToTry| then Resolved(c.utf8Ignore(s), k)
    else match TryDecode(c, EncodingsToTry[k], s)
      case Some(t) => Resolved(t, k)
      case None => ResolveFrom(c, s, k + 1)
  }

  function Resolve(c: Codecs, s: seq<byte>): Resolved {
    ResolveFrom(c, s, 0)
  }

  /** Well-formed UTF-8 is always decoded as UTF-8, whatever the other decoders do. */
  lemma ValidUtf8IsDecodedAsUtf8(c: Codecs, s: seq<byte>)
    requires Utf8.Valid(s)
    ensures Resolve(c, s) == Resolved(Utf8.Decode(s).value, 0)
  {
  }

  /** Text that is not UTF-8 but is GB18030 is decoded as GB18030. */
  lemma Gb18030IsSecond(c: Codecs, s: seq<byte>)
    requires !Utf8.Valid(s) && c.gb18030Strict(s).Some?
    ensures Resolve(c, s) == Resolved(c.gb18030Strict(s).value, 1)
  {
    assert ResolveFrom(c, s, 0) == ResolveFrom(c, s, 1);
  }

  /** Lossy UTF-8 never raises, so nothing after the third attempt is ever used: the
      GB18030-ignore, cp1252 and Latin-1 entries and the final fallback are dead. */
  lemma LossyUtf8EndsTheSearch(c: Codecs, s: seq<byte>)
    ensures Resolve(c, s).used <= 2
    ensures Resolve(c, s).used == 2 <==> !Utf8.Valid(s) && c.gb18030Strict(s).None?
    ensures Resolve(c, s).used == 2 ==> Resolve(c, s).text == c.utf8Ignore(s)
  {
    assert TryDecode(c, EncodingsToTry[2], s).Some?;
  }
}
