/** File-kind classification: the extension dispatch of `load_document` and the
    extension filter and sort of `iter_files` (rag_pipeline/ingest.py). */
module FileKinds {
  import opened Wrappers
  import Strings

  /** The five readers `load_document` dispatches to. */
  datatype Reader = PlainText | Html | Json | Csv | Pdf

  const TextExt: set<string> := {".txt", ".md", ".markdown", ".log"}
  const HtmlExt: set<string> := {".html", ".htm"}
  const JsonExt: set<string> := {".json"}
  const CsvExt: set<string> := {".csv"}
  const PdfExt: string := ".pdf"

  /** The extensions each reader handles. */
  function ExtensionsOf(k: Reader): set<string> {
    match k
    case PlainText => TextExt
    case Html => HtmlExt
    case Json => JsonExt
    case Csv => CsvExt
    case Pdf => {PdfExt}
  }

  /** The filter of `iter_files`: `ext in TEXT_EXT | HTML_EXT | JSON_EXT | CSV_EXT or ext == ".pdf"`. */
  predicate IsSupported(ext: string) {
    ext in TextExt + HtmlExt + JsonExt + CsvExt || ext == PdfExt
  }

  /** The chain of tests in `load_document`, in its order. */
  function ReaderFor(ext: string): (r: Option<Reader>)
    ensures forall k :: r == Some(k) <==> ext in ExtensionsOf(k)
    ensures r.Some? <==> IsSupported(ext)
  {
    if ext in TextExt then Some(PlainText)
    else if ext in HtmlExt then Some(Html)
    else if ext in JsonExt then Some(Json)
    else if ext in CsvExt then Some(Csv)
    else if ext == PdfExt then Some(Pdf)
    else None
  }

  function UnsupportedMessage(ext: string, path: string): string {
    "Unsupported file type: " + ext + " (" + path + ")"
  }

  /** `load_document`: the reader chosen by the lower-cased extension, or the
      "Unsupported file type" error. The readers themselves are a parameter. */
  function LoadDocument(path: string, read: (Reader, string) -> Result<string>): Result<string> {
    var ext := Extension(Strings.Lower(path));
    match ReaderFor(ext)
    case None => Failure(UnsupportedMessage(ext, path))
    case Some(k) => read(k, path)
  }

  /** A file is handed to the reader of its extension's kind, whatever the case of
      the extension; every other extension is refused with the error message. */
  lemma LoadDocumentDispatch(path: string, read: (Reader, string) -> Result<string>)
    ensures var ext := Extension(Strings.Lower(path));
      && (forall k :: ext in ExtensionsOf(k) ==> LoadDocument(path, read) == read(k, path))
      && (!IsSupported(ext) ==> LoadDocument(path, read) == Failure(UnsupportedMessage(ext, path)))
  {
  }

  // ---------------------------------------------------------------------------
  // os.path.splitext and os.path.join on POSIX paths

  /** Python's `s.rfind(c)`: the last index of `c`, or -1. */
  function RFind(s: string, c: char): (k: int)
    ensures -1 <= k < |s|
    ensures k >= 0 ==> s[k] == c
  {
    if s == [] then -1
    else if s[|s| - 1] == c then |s| - 1
    else RFind(s[..|s| - 1], c)
  }

  /** No `c` follows the one `RFind` reports. */
  lemma {:induction false} RFindIsLast(s: string, c: char)
    ensures forall j :: RFind(s, c) < j < |s| ==> s[j] != c
    decreases |s|
  {
    if s != [] && s[|s| - 1] != c {
      RFindIsLast(s[..|s| - 1], c);
    }
  }

  /** `os.path.splitext(p)[1]`: from the last dot of the last path component on,
      unless that component consists of dots up to it (".bashrc" has no extension). */
  function Extension(p: string): string {
    var sep := RFind(p, '/');
    var dot := RFind(p, '.');
    if dot > sep && HasStem(p, sep, dot) then p[dot..] else []
  }

  /** Something other than a dot lies strictly between positions `sep` and `dot`. */
  predicate HasStem(p: string, sep: int, dot: int) {
    exists i :: sep < i < dot && 0 <= i < |p| && p[i] != '.'
  }

  /** `os.path.join(root, name)`. */
  function JoinPath(root: string, name: string): string {
    if name != [] && name[0] == '/' then name
    else if root == [] || root[|root| - 1] == '/' then root + name
    else root + "/" + name
  }

  /** An extension is empty or a dot followed by anything but slashes and dots,
      and it is a suffix of the path. */
  lemma ExtensionShape(p: string)
    ensures var ext := Extension(p);
      && |ext| <= |p| && ext == p[|p| - |ext|..]
      && (ext == [] || (ext[0] == '.' && |ext| >= 1
                        && forall i :: 1 <= i < |ext| ==> ext[i] != '.' && ext[i] != '/'))
  {
    var sep := RFind(p, '/');
    var dot := RFind(p, '.');
    var ext := Extension(p);
    RFindIsLast(p, '/');
    RFindIsLast(p, '.');
    if ext != [] {
      assert ext == p[dot..];
      forall i | 1 <= i < |ext| ensures ext[i] != '.' && ext[i] != '/' {
        assert ext[i] == p[dot + i];
      }
    }
  }

  lemma RFindIs(s: string, c: char, k: int)
    requires -1 <= k < |s|
    requires k >= 0 ==> s[k] == c
    requires forall j :: k < j < |s| ==> s[j] != c
    ensures RFind(s, c) == k
  {
    RFindIsLast(s, c);
  }

  /** Shifting a component behind a directory prefix keeps whether it has a stem. */
  lemma HasStemShift(dir: string, name: string, dotName: int)
    requires dir != [] && 0 <= dotName < |name|
    ensures HasStem(dir + name, |dir| - 1, |dir| + dotName) == HasStem(name, -1, dotName)
  {
    var p := dir + name;
    var d := |dir|;
    if HasStem(name, -1, dotName) {
      var i :| -1 < i < dotName && 0 <= i < |name| && name[i] != '.';
      assert p[d + i] == name[i];
    }
    if HasStem(p, d - 1, d + dotName) {
      var i :| d - 1 < i < d + dotName && 0 <= i < |p| && p[i] != '.';
      assert name[i - d] == p[i];
    }
  }

  /** The last `c` of `a + b` is the last one of `b` if `b` has one, else the last of `a`. */
  lemma {:induction false} RFindConcat(a: string, b: string, c: char)
    ensures RFind(a + b, c) == if RFind(b, c) >= 0 then |a| + RFind(b, c) else RFind(a, c)
    decreases |b|
  {
    if b == [] {
      assert a + b == a;
    } else {
      var ab := a + b;
      assert ab[..|ab| - 1] == a + b[..|b| - 1];
      assert ab[|ab| - 1] == b[|b| - 1];
      RFindConcat(a, b[..|b| - 1], c);
    }
  }

  /** `Extension` in terms of the positions of the last separator and the last dot. */
  lemma ExtensionAt(p: string, sep: int, dot: int)
    requires RFind(p, '/') == sep && RFind(p, '.') == dot
    ensures Extension(p) == if dot > sep && HasStem(p, sep, dot) then p[dot..] else []
  {
  }

  lemma RFindAfterDirectory(dir: string, name: string)
    requires dir != [] && dir[|dir| - 1] == '/'
    requires forall i :: 0 <= i < |name| ==> name[i] != '/'
    ensures RFind(name, '/') == -1
    ensures RFind(dir + name, '/') == |dir| - 1
    ensures RFind(dir + name, '.') == if RFind(name, '.') >= 0 then |dir| + RFind(name, '.') else RFind(dir, '.')
  {
    RFindIs(name, '/', -1);
    RFindConcat(dir, name, '/');
    RFindConcat(dir, name, '.');
  }

  lemma ExtensionAfterDirectoryDot(dir: string, name: string)
    requires dir != [] && dir[|dir| - 1] == '/'
    requires forall i :: 0 <= i < |name| ==> name[i] != '/'
    requires RFind(name, '.') >= 0
    ensures Extension(dir + name) == Extension(name)
  {
    var p := dir + name;
    var d := |dir|;
    var dotName := RFind(name, '.');
    RFindAfterDirectory(dir, name);
    ExtensionAt(p, d - 1, d + dotName);
    ExtensionAt(name, -1, dotName);
    HasStemShift(dir, name, dotName);
    if HasStem(name, -1, dotName) {
      SuffixAfterPrefix(dir, name, dotName);
      assert Extension(p) == name[dotName..];
    } else {
      assert Extension(p) == [];
    }
  }

  lemma SuffixAfterPrefix(a: string, b: string, k: int)
    requires 0 <= k <= |b|
    ensures (a + b)[|a| + k..] == b[k..]
  {
  }

  lemma ExtensionAfterDirectoryNoDot(dir: string, name: string)
    requires dir != [] && dir[|dir| - 1] == '/'
    requires forall i :: 0 <= i < |name| ==> name[i] != '/'
    requires RFind(name, '.') < 0
    ensures Extension(dir + name) == Extension(name) == []
  {
    RFindAfterDirectory(dir, name);
    ExtensionAt(dir + name, |dir| - 1, RFind(dir, '.'));
    ExtensionAt(name, -1, -1);
  }

  /** The extension of a path is that of its last component. */
  lemma ExtensionAfterDirectory(dir: string, name: string)
    requires dir == [] || dir[|dir| - 1] == '/'
    requires forall i :: 0 <= i < |name| ==> name[i] != '/'
    ensures Extension(dir + name) == Extension(name)
  {
    if dir == [] {
      assert dir + name == name;
    } else if RFind(name, '.') >= 0 {
      ExtensionAfterDirectoryDot(dir, name);
    } else {
      ExtensionAfterDirectoryNoDot(dir, name);
    }
  }

  /** `iter_files` looks at the extension of the file name, `load_document` at that of
      the joined path; for a file name from a directory walk the two agree. */
  lemma ExtensionOfJoin(root: string, name: string)
    requires forall i :: 0 <= i < |name| ==> name[i] != '/'
    ensures Extension(Strings.Lower(JoinPath(root, name))) == Extension(Strings.Lower(name))
  {
    var dir := if root == [] || root[|root| - 1] == '/' then root else root + "/";
    assert JoinPath(root, name) == dir + name;
    Strings.LowerConcat(dir, name);
    var ldir := Strings.Lower(dir);
    assert ldir == [] || ldir[|ldir| - 1] == '/';
    ExtensionAfterDirectory(ldir, Strings.Lower(name));
  }

  // ---------------------------------------------------------------------------
  // Python's ordering of strings and `sorted`

  /** Python's `a <= b` on strings: code-point lexicographic order. */
  predicate StrLe(a: string, b: string) {
    a == [] || (b != [] && (a[0] < b[0] || (a[0] == b[0] && StrLe(a[1..], b[1..]))))
  }

  lemma {:induction false} StrLeTotal(a: string, b: string)
    ensures StrLe(a, b) || StrLe(b, a)
  {
    if a != [] && b != [] && a[0] == b[0] {
      StrLeTotal(a[1..], b[1..]);
    }
  }

  predicate Sorted(s: seq<string>) {
    forall i, j :: 0 <= i < j < |s| ==> StrLe(s[i], s[j])
  }

  lemma {:induction false} StrLeTransitive(a: string, b: string, c: string)
    requires StrLe(a, b) && StrLe(b, c)
    ensures StrLe(a, c)
  {
    if a != [] && b != [] && c != [] && a[0] == b[0] && b[0] == c[0] {
      StrLeTransitive(a[1..], b[1..], c[1..]);
    }
  }

  /** Insert `x` before the first element it does not exceed. */
  function Insert(x: string, s: seq<string>): (r: seq<string>)
    ensures multiset(r) == multiset(s) + multiset{x}
  {
    if s == [] || StrLe(x, s[0]) then [x] + s
    else
      assert s == [s[0]] + s[1..];
      [s[0]] + Insert(x, s[1..])
  }

  /** When `x` goes after the head, the head stays below everything that follows it. */
  lemma InsertBelowHead(x: string, s: seq<string>)
    requires Sorted(s) && s != [] && !StrLe(x, s[0])
    ensures forall j :: 0 <= j < |Insert(x, s[1..])| ==> StrLe(s[0], Insert(x, s[1..])[j])
  {
    var t := Insert(x, s[1..]);
    StrLeTotal(x, s[0]);
    forall j | 0 <= j < |t| ensures StrLe(s[0], t[j]) {
      assert t[j] in multiset(t);
      if t[j] != x {
        assert t[j] in multiset(s[1..]);
        var k :| 0 <= k < |s[1..]| && s[1..][k] == t[j];
        assert s[k + 1] == t[j];
      }
    }
  }

  lemma {:induction false} InsertSorted(x: string, s: seq<string>)
    requires Sorted(s)
    ensures Sorted(Insert(x, s))
  {
    var r := Insert(x, s);
    if s == [] {
    } else if StrLe(x, s[0]) {
      forall i, j | 0 <= i < j < |r| ensures StrLe(r[i], r[j]) {
        if i == 0 {
          if j > 1 {
            StrLeTransitive(x, s[0], s[j - 1]);
          }
        } else {
          assert r[i] == s[i - 1] && r[j] == s[j - 1];
        }
      }
    } else {
      var t := Insert(x, s[1..]);
      InsertSorted(x, s[1..]);
      InsertBelowHead(x, s);
      forall i, j | 0 <= i < j < |r| ensures StrLe(r[i], r[j]) {
        if i == 0 {
          assert r[j] == t[j - 1];
        } else {
          assert r[i] == t[i - 1] && r[j] == t[j - 1];
        }
      }
    }
  }

  /** Python's `sorted(paths)`: a sorted permutation of its input. */
  function SortStrings(s: seq<string>): (r: seq<string>)
    ensures multiset(r) == multiset(s)
    ensures Sorted(r)
  {
    if s == [] then []
    else
      assert s == s[..|s| - 1] + [s[|s| - 1]];
      InsertSorted(s[|s| - 1], SortStrings(s[..|s| - 1]));
      Insert(s[|s| - 1], SortStrings(s[..|s| - 1]))
  }

  // ---------------------------------------------------------------------------
  // iter_files

  /** The supported paths of a directory walk, in walk order; each entry is a
      `(root, file name)` pair as `os.walk` produces them. */
  function SupportedPaths(walk: seq<(string, string)>): (r: seq<string>)
  {
    if walk == [] then []
    else
      var (root, name) := walk[|walk| - 1];
      SupportedPaths(walk[..|walk| - 1])
      + (if IsSupported(Extension(Strings.Lower(name))) then [JoinPath(root, name)] else [])
  }

  /** `iter_files`, after the walk: keep the supported files, then sort. */
  method IterFiles(walk: seq<(string, string)>) returns (paths: seq<string>)
    ensures paths == SortStrings(SupportedPaths(walk))
  {
    var found: seq<string> := [];
    for k := 0 to |walk|
      invariant found == SupportedPaths(walk[..k])
    {
      var (root, name) := walk[k];
      assert walk[..k + 1][..k] == walk[..k];
      var p := JoinPath(root, name);
      var ext := Extension(Strings.Lower(name));
      if IsSupported(ext) {
        found := found + [p];
      }
    }
    assert walk[..|walk|] == walk;
    paths := SortStrings(found);
  }

  /** A walked file name is accepted exactly when its extension is supported. */
  predicate Accepted(e: (string, string)) {
    IsSupported(Extension(Strings.Lower(e.1)))
  }

  /** Every file `iter_files` lists is one `load_document` can read, and every
      walked file with a supported extension is listed; the list is sorted. */
  lemma IterFilesAgreesWithLoad(walk: seq<(string, string)>)
    requires forall k :: 0 <= k < |walk| ==> forall i :: 0 <= i < |walk[k].1| ==> walk[k].1[i] != '/'
    ensures var paths := SortStrings(SupportedPaths(walk));
      && Sorted(paths)
      && (forall p :: p in paths ==> ReaderFor(Extension(Strings.Lower(p))).Some?)
      && (forall k :: 0 <= k < |walk| && Accepted(walk[k]) ==> JoinPath(walk[k].0, walk[k].1) in paths)
  {
    var found := SupportedPaths(walk);
    var paths := SortStrings(found);
    SupportedPathsSound(walk);
    SupportedPathsComplete(walk);
    forall p | p in paths ensures ReaderFor(Extension(Strings.Lower(p))).Some? {
      assert p in multiset(paths);
      assert p in found;
      var k :| 0 <= k < |walk| && Accepted(walk[k]) && p == JoinPath(walk[k].0, walk[k].1);
      ExtensionOfJoin(walk[k].0, walk[k].1);
    }
    forall k | 0 <= k < |walk| && Accepted(walk[k]) ensures JoinPath(walk[k].0, walk[k].1) in paths {
      assert JoinPath(walk[k].0, walk[k].1) in multiset(found);
    }
  }

  lemma {:induction false} SupportedPathsSound(walk: seq<(string, string)>)
    ensures forall p :: p in SupportedPaths(walk) ==>
      exists k :: 0 <= k < |walk| && Accepted(walk[k]) && p == JoinPath(walk[k].0, walk[k].1)
  {
    if walk != [] {
      var init := walk[..|walk| - 1];
      SupportedPathsSound(init);
      forall p | p in SupportedPaths(walk)
        ensures exists k :: 0 <= k < |walk| && Accepted(walk[k]) && p == JoinPath(walk[k].0, walk[k].1)
      {
        if p in SupportedPaths(init) {
          var k :| 0 <= k < |init| && Accepted(init[k]) && p == JoinPath(init[k].0, init[k].1);
          assert walk[k] == init[k];
        } else {
          assert Accepted(walk[|walk| - 1]);
        }
      }
    }
  }

  lemma {:induction false} SupportedPathsComplete(walk: seq<(string, string)>)
    ensures forall k :: 0 <= k < |walk| && Accepted(walk[k]) ==> JoinPath(walk[k].0, walk[k].1) in SupportedPaths(walk)
  {
    if walk != [] {
      var init := walk[..|walk| - 1];
      SupportedPathsComplete(init);
      forall k | 0 <= k < |walk| && Accepted(walk[k]) ensures JoinPath(walk[k].0, walk[k].1) in SupportedPaths(walk) {
        if k < |walk| - 1 {
          assert walk[k] == init[k];
        }
      }
    }
  }
}
