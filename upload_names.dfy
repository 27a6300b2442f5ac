/** The names the upload handler of app.py works with: the extension whitelist of
    `allowed_file`, the uploaded name with its path separators replaced, and the
    name of the text file the conversion writes (`os.path.splitext` stem + ".txt"). */
module UploadNames {

  const AllowedExtensions: set<string> := {"epub", "mobi"}

  /** The index of the last occurrence of `c` in `s` (`s.rfind(c)`), -1 when there is
      none. */
  function LastIndexOf(s: string, c: char): (r: int)
    ensures -1 <= r < |s|
    ensures r >= 0 ==> s[r] == c
    ensures forall k :: r < k < |s| ==> s[k] != c
    ensures r == -1 <==> c !in s
  {
    if s == [] then -1
    else if s[|s| - 1] == c then |s| - 1
    else LastIndexOf(s[..|s| - 1], c)
  }

  function LowerChar(c: char): char {
    if 'A' <= c <= 'Z' then (c as int + 32) as char else c
  }

  /** `s.lower()` on ASCII letters; every other character is kept. */
  function Lower(s: string): (r: string)
    ensures |r| == |s|
    ensures forall k :: 0 <= k < |s| ==> r[k] == LowerChar(s[k])
  {
    if s == [] then [] else [LowerChar(s[0])] + Lower(s[1..])
  }

  /** `filename.rsplit('.', 1)[1]`: the text after the last dot. */
  function Extension(name: string): string
    requires '.' in name
  {
    name[LastIndexOf(name, '.') + 1..]
  }

  /** `allowed_file(filename)`. */
  predicate AllowedFile(name: string) {
    '.' in name && Lower(Extension(name)) in AllowedExtensions
  }

  /** `s.replace(from, to)` for single characters. */
  function ReplaceChar(s: string, from: char, to: char): (r: string)
    ensures |r| == |s|
    ensures forall k :: 0 <= k < |s| ==> r[k] == if s[k] == from then to else s[k]
  {
    if s == [] then [] else (if s[0] == from then [to] else [s[0]]) + ReplaceChar(s[1..], from, to)
  }

  /** `filename.replace('/', '_').replace('\\', '_')`. */
  function Sanitize(name: string): string {
    ReplaceChar(ReplaceChar(name, '/', '_'), '\\', '_')
  }

  predicate AllDots(s: string) {
    forall k :: 0 <= k < |s| ==> s[k] == '.'
  }

  /** Nothing after the last occurrence of `c` is `c`. */
  lemma NotAfterLast(s: string, c: char, i: nat)
    requires LastIndexOf(s, c) < i <= |s|
    ensures c !in s[i..]
  {
    forall k | 0 <= k < |s| - i
      ensures s[i..][k] != c
    {
      assert s[i..][k] == s[i + k];
    }
  }

  /** `os.path.splitext(p)` with '/' as the separator: the extension is the text from
      the last dot on, provided that dot comes after the last separator and is not
      one of the dots that begin the final path component. */
  function SplitExt(p: string): (string, string) {
    var sepIndex := LastIndexOf(p, '/');
    var dotIndex := LastIndexOf(p, '.');
    if dotIndex > sepIndex && !AllDots(p[sepIndex + 1..dotIndex]) then
      (p[..dotIndex], p[dotIndex..])
    else
      (p, [])
  }

  /** The stem and the extension concatenate back to the name, and the extension is
      empty or one dot followed by text with no dot and no separator. */
  lemma SplitExtParts(p: string)
    ensures SplitExt(p).0 + SplitExt(p).1 == p
    ensures var ext := SplitExt(p).1;
            ext == [] || (ext[0] == '.' && '.' !in ext[1..] && '/' !in ext)
  {
    var sepIndex := LastIndexOf(p, '/');
    var dotIndex := LastIndexOf(p, '.');
    if dotIndex > sepIndex && !AllDots(p[sepIndex + 1..dotIndex]) {
      assert p[..dotIndex] + p[dotIndex..] == p;
      NotAfterLast(p, '.', dotIndex + 1);
      NotAfterLast(p, '/', dotIndex);
      assert p[dotIndex..][1..] == p[dotIndex + 1..];
    } else {
      assert p + [] == p;
    }
  }

  /** `os.path.splitext(filename)[0] + ".txt"`. */
  function OutputName(name: string): string {
    SplitExt(name).0 + ".txt"
  }

  /** What `upload_file` does with the uploaded file's name. */
  datatype Upload =
    | NoFileSelected                          // the name is empty
    | UnsupportedFormat                       // allowed_file rejects the name
    | Accepted(saved: string, output: string) // the stored upload and the text file it becomes

  function HandleUpload(filename: string): Upload {
    if filename == "" then NoFileSelected
    else if !AllowedFile(filename) then UnsupportedFormat
    else
      var saved := Sanitize(filename);
      Accepted(saved, OutputName(saved))
  }

  // ---------------------------------------------------------------------------
  // allowed_file

  /** A name without a dot is never allowed. */
  lemma NoDotRejected(name: string)
    requires '.' !in name
    ensures !AllowedFile(name)
  {
  }

  /** Cutting a name at its last dot: the verdict depends only on the text after it,
      whatever comes before. Together with NoDotRejected this covers every name. */
  lemma {:induction false} AllowedFileSplit(stem: string, ext: string)
    requires '.' !in ext
    ensures AllowedFile(stem + "." + ext) <==> Lower(ext) in AllowedExtensions
  {
    var name := stem + "." + ext;
    assert name[|stem|] == '.';
    assert LastIndexOf(name, '.') == |stem|;
    assert Extension(name) == ext;
  }

  /** Lowering keeps the dots where they are, so it keeps the last one. */
  lemma {:induction false} LowerKeepsLastDot(s: string)
    ensures LastIndexOf(Lower(s), '.') == LastIndexOf(s, '.')
  {
    if s != [] {
      var init := s[..|s| - 1];
      assert Lower(s)[..|s| - 1] == Lower(init);
      LowerKeepsLastDot(init);
    }
  }

  lemma LowerIdempotent(s: string)
    ensures Lower(Lower(s)) == Lower(s)
  {
    assert forall k :: 0 <= k < |s| ==> LowerChar(LowerChar(s[k])) == LowerChar(s[k]);
  }

  /** The check is case-insensitive: a name is allowed exactly when its lower-case
      form is. */
  lemma CaseInsensitive(name: string)
    ensures AllowedFile(Lower(name)) == AllowedFile(name)
  {
    var low := Lower(name);
    LowerKeepsLastDot(name);
    if '.' in name {
      var d := LastIndexOf(name, '.');
      var e := Extension(name);
      assert Extension(low) == Lower(e) by {
        LowerDrop(name, d + 1);
      }
      LowerIdempotent(e);
    }
  }

  lemma LowerDrop(s: string, i: nat)
    requires i <= |s|
    ensures Lower(s)[i..] == Lower(s[i..])
  {
    forall k | 0 <= k < |s| - i
      ensures Lower(s)[i..][k] == Lower(s[i..])[k]
    {
      assert Lower(s)[i..][k] == Lower(s)[i + k];
    }
  }

  /** Whatever precedes it, a final ".epub" or ".mobi" is accepted: "a.txt.epub" is. */
  lemma FinalExtensionAccepted(stem: string)
    ensures AllowedFile(stem + ".epub") && AllowedFile(stem + ".mobi")
  {
    assert stem + ".epub" == stem + "." + "epub";
    AllowedFileSplit(stem, "epub");
    assert Lower("epub") == "epub";
    assert stem + ".mobi" == stem + "." + "mobi";
    AllowedFileSplit(stem, "mobi");
    assert Lower("mobi") == "mobi";
  }

  /** Whatever precedes it, a final ".txt" or a trailing dot is rejected: "a.epub.txt"
      and "book." are. */
  lemma FinalExtensionRejected(stem: string)
    ensures !AllowedFile(stem + ".txt") && !AllowedFile(stem + ".")
  {
    assert stem + ".txt" == stem + "." + "txt";
    AllowedFileSplit(stem, "txt");
    assert |Lower("txt")| == 3;
    assert stem + "." == stem + "." + "";
    AllowedFileSplit(stem, "");
    assert Lower("") == "";
  }

  /** Upper- and mixed-case extensions are accepted: "BOOK.MOBI", "x.EpUb". */
  lemma MixedCaseAccepted(stem: string)
    ensures AllowedFile(stem + ".MOBI") && AllowedFile(stem + ".EpUb")
  {
    assert AllowedFile(stem + ".MOBI") by {
      assert stem + ".MOBI" == stem + "." + "MOBI";
      AllowedFileSplit(stem, "MOBI");
      assert Lower("MOBI") == "mobi";
    }
    assert AllowedFile(stem + ".EpUb") by {
      assert stem + ".EpUb" == stem + "." + "EpUb";
      AllowedFileSplit(stem, "EpUb");
      assert Lower("EpUb") == "epub";
    }
  }

  // ---------------------------------------------------------------------------
  // Sanitisation

  /** The stored name contains no path separator, has the length of the uploaded
      name, and keeps every other character in place. */
  lemma SanitizeSpec(name: string)
    ensures |Sanitize(name)| == |name|
    ensures forall k :: 0 <= k < |name| ==>
              Sanitize(name)[k] == if name[k] == '/' || name[k] == '\\' then '_' else name[k]
    ensures '/' !in Sanitize(name) && '\\' !in Sanitize(name)
  {
  }

  /** Sanitising twice is sanitising once. */
  lemma SanitizeIdempotent(name: string)
    ensures Sanitize(Sanitize(name)) == Sanitize(name)
  {
    SanitizeSpec(name);
    SanitizeSpec(Sanitize(name));
  }

  /** Replacing a character other than the dot by another keeps the last dot. */
  lemma {:induction false} ReplaceKeepsLastDot(s: string, from: char, to: char)
    requires from != '.' && to != '.'
    ensures LastIndexOf(ReplaceChar(s, from, to), '.') == LastIndexOf(s, '.')
  {
    if s != [] {
      var init := s[..|s| - 1];
      assert ReplaceChar(s, from, to)[..|s| - 1] == ReplaceChar(init, from, to);
      ReplaceKeepsLastDot(init, from, to);
    }
  }

  lemma AllowedExtensionIsFlat(ext: string)
    requires Lower(ext) in AllowedExtensions
    ensures '/' !in ext && '\\' !in ext
  {
    var low := Lower(ext);
    assert |low| == 4 && forall k :: 0 <= k < 4 ==> 'a' <= low[k] <= 'z';
    forall k | 0 <= k < |ext|
      ensures ext[k] != '/' && ext[k] != '\\'
    {
      assert low[k] == LowerChar(ext[k]);
    }
  }

  /** Sanitising keeps the last dot and sanitises the text after it. */
  lemma SanitizeKeepsLastDot(name: string)
    ensures LastIndexOf(Sanitize(name), '.') == LastIndexOf(name, '.')
  {
    ReplaceKeepsLastDot(name, '/', '_');
    ReplaceKeepsLastDot(ReplaceChar(name, '/', '_'), '\\', '_');
  }

  lemma SanitizeExtension(name: string)
    requires '.' in name
    ensures '.' in Sanitize(name) && Extension(Sanitize(name)) == Sanitize(Extension(name))
  {
    SanitizeKeepsLastDot(name);
    var d := LastIndexOf(name, '.');
    var s := Sanitize(name);
    var ext := Extension(name);
    SanitizeSpec(name);
    SanitizeSpec(ext);
    assert LastIndexOf(s, '.') == d && |s[d + 1..]| == |ext|;
    forall k | 0 <= k < |ext|
      ensures s[d + 1..][k] == Sanitize(ext)[k]
    {
      assert ext[k] == name[d + 1 + k];
      assert s[d + 1..][k] == s[d + 1 + k];
    }
    assert s[d + 1..] == Sanitize(ext);
  }

  /** Sanitising never turns an allowed name into a rejected one: the extension of an
      allowed name has no separator to replace. */
  lemma SanitizeKeepsAllowed(name: string)
    requires AllowedFile(name)
    ensures AllowedFile(Sanitize(name))
  {
    var ext := Extension(name);
    SanitizeExtension(name);
    AllowedExtensionIsFlat(ext);
    SanitizeSpec(ext);
    assert Sanitize(ext) == ext;
  }

  // ---------------------------------------------------------------------------
  // The output name

  /** A name whose last component has something other than dots before its last dot
      loses the extension from that dot on. */
  lemma ReplacesExtension(stem: string, ext: string)
    requires '/' !in stem && '/' !in ext && '.' !in ext
    requires exists k :: 0 <= k < |stem| && stem[k] != '.'
    ensures SplitExt(stem + "." + ext) == (stem, "." + ext)
    ensures OutputName(stem + "." + ext) == stem + ".txt"
  {
    var p := stem + "." + ext;
    assert p[|stem|] == '.';
    assert LastIndexOf(p, '.') == |stem|;
    assert LastIndexOf(p, '/') == -1;
    assert p[0..|stem|] == stem;
    assert p[..|stem|] == stem && p[|stem|..] == "." + ext;
  }

  /** A name whose last dot is preceded only by dots (".epub", "..mobi") has no
      extension and keeps its whole name as the stem. */
  lemma DotsOnlyStemKeepsName(stem: string, ext: string)
    requires '/' !in stem && '/' !in ext && '.' !in ext && AllDots(stem)
    ensures SplitExt(stem + "." + ext) == (stem + "." + ext, "")
    ensures OutputName(stem + "." + ext) == stem + "." + ext + ".txt"
  {
    var p := stem + "." + ext;
    assert p[|stem|] == '.';
    assert LastIndexOf(p, '.') == |stem|;
    assert LastIndexOf(p, '/') == -1;
    assert p[0..|stem|] == stem;
  }

  /** "book.mobi" becomes "book.txt". */
  lemma BookMobiExample()
    ensures OutputName("book.mobi") == "book.txt"
  {
    var stem: string := "book";
    assert stem[0] != '.';
    ReplacesExtension(stem, "mobi");
    assert stem + "." + "mobi" == "book.mobi";
  }

  /** ".epub" passes the whitelist ... */
  lemma HiddenEpubAllowed()
    ensures AllowedFile(".epub")
  {
    FinalExtensionAccepted("");
    assert "" + ".epub" == ".epub";
  }

  /** ... but a name made of one dot and an extension has no extension for
      `splitext`, so it keeps its whole name: ".epub" becomes ".epub.txt". */
  lemma LeadingDotNameKept(ext: string)
    requires '/' !in ext && '.' !in ext
    ensures OutputName("." + ext) == "." + ext + ".txt"
  {
    DotsOnlyStemKeepsName("", ext);
    assert "" + "." + ext == "." + ext;
  }

  /** The output name of a name without separators has none either, and ends in
      ".txt". */
  lemma OutputNameFlat(name: string)
    requires '/' !in name && '\\' !in name
    ensures var out := OutputName(name);
            '/' !in out && '\\' !in out && |out| >= 4 && out[|out| - 4..] == ".txt"
  {
    var stem := SplitExt(name).0;
    SplitExtParts(name);
    assert stem == name[..|stem|];
    assert '/' !in stem && '\\' !in stem by {
      forall k | 0 <= k < |stem|
        ensures stem[k] != '/' && stem[k] != '\\'
      {
        assert stem[k] == name[k];
      }
    }
    var out := stem + ".txt";
    assert '/' !in ".txt" && '\\' !in ".txt";
    assert out[|out| - 4..] == ".txt";
  }

  /** An accepted upload is stored under its name with the separators replaced, and
      neither that name nor the name of the text file it becomes has a separator; the
      latter ends in ".txt". */
  lemma AcceptedNamesAreFlat(filename: string)
    requires HandleUpload(filename).Accepted?
    ensures var u := HandleUpload(filename);
            && u.saved == Sanitize(filename)
            && '/' !in u.saved && '\\' !in u.saved
            && '/' !in u.output && '\\' !in u.output
            && u.output[|u.output| - 4..] == ".txt"
  {
    SanitizeSpec(filename);
    OutputNameFlat(Sanitize(filename));
  }

  /** Only an empty name or a rejected extension stops an upload. */
  lemma UploadAcceptedIff(filename: string)
    ensures HandleUpload(filename).Accepted? <==> AllowedFile(filename)
    ensures HandleUpload(filename) == NoFileSelected <==> filename == ""
  {
  }
}
