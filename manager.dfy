/** CompressionManager.detect_algorithm and the name check of compress_file (main.py:353-371):
    the algorithm is picked from a file's extension and the MIME type guessed from its content. */
module Manager {
  import opened Wrappers

  datatype Algorithm = Huffman | Lz77 | Rle | Deflate

  /** The keys of `self.algorithms` (main.py:346-351). */
  function Name(a: Algorithm): (r: string)
  {
    match a
    case Huffman => "huffman"
    case Lz77 => "lz77"
    case Rle => "rle"
    case Deflate => "deflate"
  }

  /** The algorithm registered under a name, if any. */
  function FromName(s: string): (r: Option<Algorithm>)
  {
    if s == "huffman" then Some(Huffman)
    else if s == "lz77" then Some(Lz77)
    else if s == "rle" then Some(Rle)
    else if s == "deflate" then Some(Deflate)
    else None
  }

  lemma NamesResolve(a: Algorithm, s: string)
    ensures FromName(Name(a)) == Some(a)
    ensures FromName(s) == Some(a) ==> Name(a) == s
  {
  }

  // ---------------------------------------------------------------------------------------
  // Extension (os.path.splitext(filename)[1].lower(), POSIX rules)

  /** `s.rfind(c)` on s[..n]: the last index of c below n, or -1. */
  function RFind(s: string, c: char, n: nat): (r: int)
    requires n <= |s|
    ensures -1 <= r < n
    ensures r >= 0 ==> s[r] == c
    ensures forall k :: r < k < n ==> s[k] != c
  {
    if n == 0 then -1 else if s[n - 1] == c then n - 1 else RFind(s, c, n - 1)
  }

  /** Some position from `from` up to `to` holds a character other than '.'. */
  function NonDotBetween(s: string, from: nat, to: nat): (r: bool)
    requires from <= to <= |s|
  {
    from < to && (s[to - 1] != '.' || NonDotBetween(s, from, to - 1))
  }

  /** `os.path.splitext(p)[1]`: from the last '.' of the last path component on, unless every
      character of that component before the dot is a dot. */
  function Extension(p: string): (e: string)
  {
    var sepIndex := RFind(p, '/', |p|);
    var dotIndex := RFind(p, '.', |p|);
    if dotIndex > sepIndex && NonDotBetween(p, sepIndex + 1, dotIndex) then p[dotIndex..] else ""
  }

  /** `str.lower()` for ASCII letters. */
  function LowerChar(c: char): (r: char)
  {
    if 'A' <= c <= 'Z' then (c as int + 32) as char else c
  }

  function Lower(s: string): (r: string)
    ensures |r| == |s|
    ensures forall k :: 0 <= k < |s| ==> r[k] == LowerChar(s[k])
  {
    if |s| == 0 then [] else [LowerChar(s[0])] + Lower(s[1..])
  }

  function StartsWith(s: string, prefix: string): (r: bool)
  {
    |prefix| <= |s| && s[..|prefix|] == prefix
  }

  // ---------------------------------------------------------------------------------------
  // Decision (main.py:353-365)

  const TEXT_EXTENSIONS: set<string> := {".txt", ".csv", ".json", ".xml", ".html"}
  const IMAGE_EXTENSIONS: set<string> := {".bmp", ".pbm", ".pgm", ".ppm"}
  const BINARY_EXTENSIONS: set<string> := {".bin", ".exe"}

  /** `kind.mime if kind else 'application/octet-stream'`; `kind` is what `filetype.guess`
      returns for the file's content. */
  function Mime(kind: Option<string>): (r: string)
  {
    match kind
    case None => "application/octet-stream"
    case Some(m) => m
  }

  /** `detect_algorithm(file_data, filename)`. */
  function Detect(kind: Option<string>, filename: string): (r: Algorithm)
  {
    var mime := Mime(kind);
    var ext := Lower(Extension(filename));
    if ext in TEXT_EXTENSIONS || StartsWith(mime, "text") then Huffman
    else if ext in IMAGE_EXTENSIONS then Rle
    else if ext in BINARY_EXTENSIONS then Lz77
    else Deflate
  }

  datatype SelectError = UnknownAlgorithm(name: string)

  /** The first step of `compress_file` (main.py:368-371): the requested name, or the detected
      one for "auto", checked against the registered algorithms. */
  function Resolve(requested: string, kind: Option<string>, filename: string): (r: Result<Algorithm, SelectError>)
  {
    var algorithm := if requested != "auto" then requested else Name(Detect(kind, filename));
    match FromName(algorithm)
    case None => Err(UnknownAlgorithm(algorithm))
    case Some(a) => Ok(a)
  }

  // ---------------------------------------------------------------------------------------
  // Properties

  /** The extension is empty or a suffix of the name that starts with its only '.' and holds
      no '/'. */
  lemma ExtensionShape(p: string)
    ensures var e := Extension(p);
      |e| == 0 || (
        && e == p[|p| - |e|..]
        && e[0] == '.'
        && forall k :: 1 <= k < |e| ==> e[k] != '.' && e[k] != '/')
  {
  }

  /** A name whose last component has a character other than '.' before its last '.' has the
      extension from that dot on. */
  lemma ExtensionAtLastDot(p: string, d: nat, c: nat)
    requires d < |p| && p[d] == '.'
    requires forall k :: d < k < |p| ==> p[k] != '.' && p[k] != '/'
    requires c < d && p[c] != '.' && forall k :: c <= k < d ==> p[k] != '/'
    ensures Extension(p) == p[d..]
  {
    var sepIndex := RFind(p, '/', |p|);
    assert RFind(p, '.', |p|) == d by {
      RFindIs(p, '.', |p|, d);
    }
    assert sepIndex < c;
    NonDotFound(p, sepIndex + 1, d, c);
  }

  lemma {:induction false} RFindIs(s: string, c: char, n: nat, d: nat)
    requires d < n <= |s| && s[d] == c
    requires forall k :: d < k < n ==> s[k] != c
    ensures RFind(s, c, n) == d
    decreases n
  {
    if n - 1 != d {
      RFindIs(s, c, n - 1, d);
    }
  }

  lemma {:induction false} NonDotFound(s: string, from: nat, to: nat, c: nat)
    requires from <= c < to <= |s| && s[c] != '.'
    ensures NonDotBetween(s, from, to)
  {
    if s[to - 1] == '.' {
      NonDotFound(s, from, to - 1, c);
    }
  }

  /** A range holding only dots has no non-dot character. */
  lemma {:induction false} OnlyDots(s: string, from: nat, to: nat)
    requires from <= to <= |s|
    requires forall k :: from <= k < to ==> s[k] == '.'
    ensures !NonDotBetween(s, from, to)
  {
    if from < to {
      OnlyDots(s, from, to - 1);
    }
  }

  /** The last '/' of p sits just before `start`, or p has none and `start` is 0. */
  lemma LastSeparator(p: string, start: nat)
    requires start <= |p| && (start == 0 || p[start - 1] == '/')
    requires forall k :: start <= k < |p| ==> p[k] != '/'
    ensures RFind(p, '/', |p|) == start - 1
  {
    if start == 0 {
      RFindAbsent(p, '/', |p|);
    } else {
      RFindIs(p, '/', |p|, start - 1);
    }
  }

  /** A last component (from `start` on) that is only dots before its last '.', such as
      ".bashrc" or "..txt", has no extension. */
  lemma LeadingDotsAreNoExtension(p: string, start: nat, d: nat)
    requires start <= d < |p| && (start == 0 || p[start - 1] == '/')
    requires forall k :: start <= k < d ==> p[k] == '.'
    requires p[d] == '.' && forall k :: d < k < |p| ==> p[k] != '.' && p[k] != '/'
    ensures Extension(p) == ""
  {
    LastSeparator(p, start);
    RFindIs(p, '.', |p|, d);
    OnlyDots(p, start, d);
  }

  /** A last component (from `start` on) without a '.' has no extension, even when an earlier
      component has one, as in "notes.d/README". */
  lemma NoDotNoExtension(p: string, start: nat)
    requires start <= |p| && (start == 0 || p[start - 1] == '/')
    requires forall k :: start <= k < |p| ==> p[k] != '.' && p[k] != '/'
    ensures Extension(p) == ""
  {
    LastSeparator(p, start);
  }

  /** A MIME type starting with "text" selects Huffman whatever the file is called, image
      extensions included. */
  lemma TextMimeWins(kind: Option<string>, filename: string)
    requires kind.Some? && StartsWith(kind.value, "text")
    ensures Detect(kind, filename) == Huffman
  {
  }

  /** The decision order: Huffman exactly for a text extension or MIME type, then RLE exactly
      for image extensions, then LZ77 exactly for binary extensions, else Deflate. */
  lemma DetectCases(kind: Option<string>, filename: string)
    ensures var ext := Lower(Extension(filename));
      var text := ext in TEXT_EXTENSIONS || StartsWith(Mime(kind), "text");
      && (Detect(kind, filename) == Huffman <==> text)
      && (Detect(kind, filename) == Rle <==> !text && ext in IMAGE_EXTENSIONS)
      && (Detect(kind, filename) == Lz77 <==> !text && ext !in IMAGE_EXTENSIONS && ext in BINARY_EXTENSIONS)
      && (Detect(kind, filename) == Deflate <==>
            !text && ext !in IMAGE_EXTENSIONS && ext !in BINARY_EXTENSIONS)
  {
  }

  /** With no MIME type, the guess defaults to application/octet-stream, which is not text. */
  lemma UnknownContentIsNotText(filename: string)
    ensures Detect(None, filename) == Huffman <==> Lower(Extension(filename)) in TEXT_EXTENSIONS
  {
    assert !StartsWith("application/octet-stream", "text") by {
      assert "application/octet-stream"[0] != "text"[0];
    }
  }

  /** "auto" selects the detected algorithm and never fails; any other name is used as given
      when it is registered and rejected otherwise. */
  lemma ResolveCases(requested: string, kind: Option<string>, filename: string)
    ensures requested == "auto" ==> Resolve(requested, kind, filename) == Ok(Detect(kind, filename))
    ensures requested != "auto" ==>
      (Resolve(requested, kind, filename).Ok? <==> requested in {"huffman", "lz77", "rle", "deflate"})
    ensures requested != "auto" && Resolve(requested, kind, filename).Ok? ==>
      Name(Resolve(requested, kind, filename).value) == requested
    ensures Resolve(requested, kind, filename).Err? ==>
      Resolve(requested, kind, filename) == Err(UnknownAlgorithm(requested))
  {
    NamesResolve(Detect(kind, filename), requested);
  }

  lemma {:induction false} RFindAbsent(s: string, c: char, n: nat)
    requires n <= |s|
    requires forall k :: 0 <= k < n ==> s[k] != c
    ensures RFind(s, c, n) == -1
  {
    if n > 0 {
      RFindAbsent(s, c, n - 1);
    }
  }

  lemma ExtensionExamples()
    ensures Extension("archive.tar.gz") == ".gz"
    ensures Extension("notes.d/README") == ""
    ensures Extension(".bashrc") == ""
  {
    var a := "archive.tar.gz";
    ExtensionAtLastDot(a, 11, 10);
    assert a[11..] == ".gz";
    var n := "notes.d/README";
    RFindIs(n, '/', |n|, 7);
    RFindIs(n, '.', |n|, 5);
    var b := ".bashrc";
    RFindAbsent(b, '/', |b|);
    RFindIs(b, '.', |b|, 0);
  }

  /** The name "REPORT.TXT" has a text extension once lower-cased. */
  lemma UpperCaseTextExtension()
    ensures Detect(None, "REPORT.TXT") == Huffman
  {
    var p := "REPORT.TXT";
    ExtensionAtLastDot(p, 6, 0);
    assert p[6..] == ".TXT";
    assert Lower(".TXT") == ".txt";
  }

  /** A text MIME type beats the image extension of "scan.bmp". */
  lemma TextMimeBeatsImageExtension()
    ensures Detect(Some("text/plain"), "scan.bmp") == Huffman
  {
    assert "text/plain"[..4] == "text";
  }

  lemma ImageExtension()
    ensures Detect(None, "scan.PGM") == Rle
  {
    var p := "scan.PGM";
    ExtensionAtLastDot(p, 4, 0);
    assert p[4..] == ".PGM";
    assert Lower(".PGM") == ".pgm";
    UnknownContentIsNotText(p);
  }

  lemma BinaryExtension()
    ensures Detect(None, "tool.exe") == Lz77
  {
    var p := "tool.exe";
    ExtensionAtLastDot(p, 4, 0);
    assert p[4..] == ".exe";
    assert Lower(".exe") == ".exe";
    UnknownContentIsNotText(p);
  }

  lemma OtherExtension()
    ensures Detect(Some("image/png"), "photo.png") == Deflate
  {
    var p := "photo.png";
    ExtensionAtLastDot(p, 5, 0);
    assert p[5..] == ".png";
    assert Lower(".png") == ".png";
    assert "image/png"[..4] != "text" by {
      assert "image/png"[0] != "text"[0];
    }
  }
}
