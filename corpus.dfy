/** The corpus builder: the per-file loop of `main` in rag_pipeline/ingest.py, which
    turns every listed file into chunk rows with deterministic ids, or into one
    error row when the file cannot be loaded. */
module Corpus {
  import opened Wrappers
  import Strings
  import Clean
  import Arith
  import Chunker
  import FileKinds

  /** The `meta` object of a row: `{path, chunk_index, chars}` for a chunk,
      `{error}` for a file that failed, `{}` when a stored row has none. */
  datatype Meta = ChunkMeta(path: string, chunkIndex: nat, chars: nat) | ErrorMeta(error: string) | NoMeta

  /** One line of chunks.jsonl. */
  datatype Row = Row(chunkId: string, source: string, text: string, meta: Meta)

  /** The `ingest` section of the configuration; `max_docs` is optional. */
  datatype IngestConfig = IngestConfig(chunkSize: int, overlap: int, minChars: int, maxDocs: Option<int>)

  predicate ValidConfig(cfg: IngestConfig) {
    Chunker.ValidWindow(cfg.chunkSize, cfg.overlap)
  }

  // ---------------------------------------------------------------------------
  // Decimal formatting of the chunk index

  function DigitChar(d: int): char
    requires 0 <= d < 10
  {
    ('0' as int + d) as char
  }

  function DigitValue(c: char): int {
    c as int - '0' as int
  }

  /** `str(i)` for a natural number. */
  function Decimal(i: nat): (s: string)
    ensures |s| >= 1
    decreases i
  {
    if i < 10 then [DigitChar(i)] else Decimal(i / 10) + [DigitChar(i % 10)]
  }

  function Zeros(k: nat): string {
    seq(k, _ => '0')
  }

  /** `f"{i:05d}"`: the decimal digits of `i`, padded with zeros to at least five. */
  function Padded5(i: nat): (s: string)
    ensures |s| >= 5
  {
    var d := Decimal(i);
    if |d| >= 5 then d else Zeros(5 - |d|) + d
  }

  /** The number a string of decimal digits denotes; the inverse of `Padded5`. */
  function DecimalValue(s: string): int {
    if s == [] then 0 else DecimalValue(s[..|s| - 1]) * 10 + DigitValue(s[|s| - 1])
  }

  lemma {:induction false} DecimalRoundTrip(i: nat)
    ensures DecimalValue(Decimal(i)) == i
    decreases i
  {
    if i >= 10 {
      DecimalRoundTrip(i / 10);
      var s := Decimal(i);
      assert s[..|s| - 1] == Decimal(i / 10);
    }
  }

  lemma {:induction false} ZerosValue(k: nat)
    ensures DecimalValue(Zeros(k)) == 0
  {
    if k > 0 {
      assert Zeros(k)[..k - 1] == Zeros(k - 1);
      ZerosValue(k - 1);
    }
  }

  lemma {:induction false} LeadingZerosValue(k: nat, s: string)
    ensures DecimalValue(Zeros(k) + s) == DecimalValue(s)
    decreases |s|
  {
    if s == [] {
      assert Zeros(k) + s == Zeros(k);
      ZerosValue(k);
    } else {
      var t := Zeros(k) + s;
      assert t[..|t| - 1] == Zeros(k) + s[..|s| - 1];
      LeadingZerosValue(k, s[..|s| - 1]);
    }
  }

  /** Reading a padded index back gives the index: the padding loses nothing. */
  lemma Padded5RoundTrip(i: nat)
    ensures DecimalValue(Padded5(i)) == i
  {
    var d := Decimal(i);
    DecimalRoundTrip(i);
    if |d| < 5 {
      LeadingZerosValue(5 - |d|, d);
    }
  }

  // ---------------------------------------------------------------------------
  // Chunk ids

  /** `f"{sha1_text(rel)}_{i:05d}"`, given the digest of `rel`. */
  function ChunkId(digest: string, i: nat): string {
    digest + "_" + Padded5(i)
  }

  /** `f"ERR_{sha1_text(path)}"`, given the digest of `path`. */
  function ErrorId(digest: string): string {
    "ERR_" + digest
  }

  /** A SHA-1 hex digest has 40 characters. */
  ghost predicate DigestShaped(hash: string -> string) {
    forall s :: |hash(s)| == 40
  }

  /** Collision resistance of the hash, taken as injectivity on the strings one run actually
      hashes: the listed paths (for error ids) and their sources (for chunk ids). No function
      into 40-character strings is injective on all strings, so the assumption is stated for
      the finitely many inputs of the run only. */
  ghost predicate CollisionFree(hash: string -> string, relOf: string -> string, files: seq<string>) {
    (forall p, q :: p in files && q in files && hash(p) == hash(q) ==> p == q) &&
    (forall p, q :: p in files && q in files && hash(SourceOf(relOf, p)) == hash(SourceOf(relOf, q)) ==>
       SourceOf(relOf, p) == SourceOf(relOf, q))
  }

  /** Two chunk ids built from digests of one length are equal only when both the
      digests and the indices are. */
  lemma ChunkIdInjective(d1: string, i1: nat, d2: string, i2: nat)
    requires |d1| == |d2|
    requires ChunkId(d1, i1) == ChunkId(d2, i2)
    ensures d1 == d2 && i1 == i2
  {
    var id := ChunkId(d1, i1);
    assert d1 == id[..|d1|] == d2;
    assert Padded5(i1) == id[|d1| + 1..] == Padded5(i2);
    Padded5RoundTrip(i1);
    Padded5RoundTrip(i2);
  }

  /** An error id never equals a chunk id when both use 40-character digests. */
  lemma ErrorIdIsNotChunkId(d1: string, d2: string, i: nat)
    requires |d1| == 40 && |d2| == 40
    ensures ErrorId(d1) != ChunkId(d2, i)
  {
    assert |ErrorId(d1)| == 44 && |ChunkId(d2, i)| >= 46;
  }

  // ---------------------------------------------------------------------------
  // Rows of one file

  /** `os.path.relpath(path, input_dir).replace("\\", "/")`; `relpath` is a parameter. */
  function SourceOf(relOf: string -> string, path: string): string {
    Strings.ReplaceChar(relOf(path), '\\', '/')
  }

  /** The error row of a file that could not be loaded. */
  function ErrorRow(path: string, error: string, hash: string -> string, relOf: string -> string): Row {
    Row(ErrorId(hash(path)), SourceOf(relOf, path), "", ErrorMeta(error))
  }

  /** The row of chunk `i` of a file whose normalised source path is `rel`. */
  function ChunkRow(rel: string, i: nat, chunk: string, hash: string -> string): Row {
    Row(ChunkId(hash(rel), i), rel, chunk, ChunkMeta(rel, i, |chunk|))
  }

  /** The rows of the chunks, numbered as `enumerate(chunks)` numbers them. */
  function ChunkRows(rel: string, chunks: seq<string>, hash: string -> string): (rows: seq<Row>)
    ensures |rows| == |chunks|
  {
    seq(|chunks|, i requires 0 <= i < |chunks| => ChunkRow(rel, i, chunks[i], hash))
  }

  /** The chunks of a loaded document: normalised, then cut into windows. */
  function DocumentChunks(raw: string, cfg: IngestConfig): seq<string>
    requires ValidConfig(cfg)
  {
    Chunker.Chunks(Clean.CleanText(raw), cfg.chunkSize, cfg.overlap, cfg.minChars)
  }

  /** What one pass of the per-file loop appends. */
  function FileRows(path: string, cfg: IngestConfig, hash: string -> string, relOf: string -> string,
                    load: string -> Result<string>): seq<Row>
    requires ValidConfig(cfg)
  {
    match load(path)
    case Failure(e) => [ErrorRow(path, e, hash, relOf)]
    case Success(raw) => ChunkRows(SourceOf(relOf, path), DocumentChunks(raw, cfg), hash)
  }

  /** The rows of the files, each file contributing `rowsOf(file)`, in file order. */
  function ConcatRows(files: seq<string>, rowsOf: string -> seq<Row>): seq<Row> {
    if files == [] then [] else ConcatRows(files[..|files| - 1], rowsOf) + rowsOf(files[|files| - 1])
  }

  function RowsOf(cfg: IngestConfig, hash: string -> string, relOf: string -> string,
                  load: string -> Result<string>): string -> seq<Row>
    requires ValidConfig(cfg)
  {
    p => FileRows(p, cfg, hash, relOf, load)
  }

  /** The rows of all files, in file order. */
  function AllRows(files: seq<string>, cfg: IngestConfig, hash: string -> string, relOf: string -> string,
                   load: string -> Result<string>): seq<Row>
    requires ValidConfig(cfg)
  {
    ConcatRows(files, RowsOf(cfg, hash, relOf, load))
  }

  lemma AllRowsUnfold(files: seq<string>, cfg: IngestConfig, hash: string -> string, relOf: string -> string,
                      load: string -> Result<string>)
    requires ValidConfig(cfg) && files != []
    ensures AllRows(files, cfg, hash, relOf, load) ==
            AllRows(files[..|files| - 1], cfg, hash, relOf, load) + FileRows(files[|files| - 1], cfg, hash, relOf, load)
  {
  }

  /** Python's `files[:m]` for an integer `m` (a negative `m` counts from the end). */
  function SliceStop(n: nat, m: int): (k: nat)
    ensures k <= n
  {
    if m >= 0 then Arith.Min(m, n) else Arith.Max(0, n + m)
  }

  /** `if max_docs: files = files[: int(max_docs)]`: `None` and 0 keep every file. */
  function CapFiles(files: seq<string>, maxDocs: Option<int>): (r: seq<string>)
    ensures |r| <= |files| && r == files[..|r|]
    ensures maxDocs == None || maxDocs == Some(0) ==> r == files
    ensures forall m :: maxDocs == Some(m) && m > 0 ==> |r| == Arith.Min(m, |files|)
  {
    match maxDocs
    case None => files
    case Some(m) => if m == 0 then files else files[..SliceStop(|files|, m)]
  }

  // ---------------------------------------------------------------------------
  // The loop of main

  /** One pass of the per-file loop: load the file, then append either its error
      row or one row per chunk. */
  method AppendFileRows(rows0: seq<Row>, path: string, cfg: IngestConfig, hash: string -> string,
                        relOf: string -> string, load: string -> Result<string>)
    returns (rows: seq<Row>)
    requires ValidConfig(cfg)
    ensures rows == rows0 + FileRows(path, cfg, hash, relOf, load)
  {
    rows := rows0;
    var loaded := load(path);
    match loaded
    case Failure(e) =>
      rows := rows + [Row(ErrorId(hash(path)), SourceOf(relOf, path), "", ErrorMeta(e))];
    case Success(raw) =>
      var text := Clean.CleanText(raw);
      var chunks := Chunker.ChunkText(text, cfg.chunkSize, cfg.overlap, cfg.minChars);
      var rel := SourceOf(relOf, path);
      rows := AppendChunkRows(rows, rel, chunks, hash);
  }

  /** The inner loop: one row per chunk, numbered by `enumerate`. */
  method AppendChunkRows(rows0: seq<Row>, rel: string, chunks: seq<string>, hash: string -> string)
    returns (rows: seq<Row>)
    ensures rows == rows0 + ChunkRows(rel, chunks, hash)
  {
    rows := rows0;
    for i := 0 to |chunks|
      invariant rows == rows0 + ChunkRows(rel, chunks[..i], hash)
    {
      ChunkRowsSnoc(rel, chunks, i, hash);
      rows := rows + [Row(ChunkId(hash(rel), i), rel, chunks[i], ChunkMeta(rel, i, |chunks[i]|))];
    }
    assert chunks[..|chunks|] == chunks;
  }

  lemma ChunkRowsSnoc(rel: string, chunks: seq<string>, i: nat, hash: string -> string)
    requires i < |chunks|
    ensures ChunkRows(rel, chunks[..i + 1], hash) == ChunkRows(rel, chunks[..i], hash) + [ChunkRow(rel, i, chunks[i], hash)]
  {
  }

  /** The per-file loop: every file's rows are appended in order; a file that fails
      to load contributes its error row and the loop goes on. */
  method BuildRows(files: seq<string>, cfg: IngestConfig, hash: string -> string, relOf: string -> string,
                   load: string -> Result<string>) returns (rows: seq<Row>)
    requires ValidConfig(cfg)
    ensures rows == AllRows(files, cfg, hash, relOf, load)
  {
    rows := [];
    for k := 0 to |files|
      invariant rows == AllRows(files[..k], cfg, hash, relOf, load)
    {
      assert files[..k + 1][..k] == files[..k];
      AllRowsUnfold(files[..k + 1], cfg, hash, relOf, load);
      rows := AppendFileRows(rows, files[k], cfg, hash, relOf, load);
    }
    assert files[..|files|] == files;
  }

  /** `load_document` with the readers fixed: the loader the run uses. */
  function Loader(read: (FileKinds.Reader, string) -> Result<string>): string -> Result<string> {
    p => FileKinds.LoadDocument(p, read)
  }

  /** The whole ingestion run up to writing chunks.jsonl: list, cap, then build rows. */
  method Ingest(walk: seq<(string, string)>, cfg: IngestConfig, hash: string -> string, relOf: string -> string,
                read: (FileKinds.Reader, string) -> Result<string>) returns (rows: seq<Row>)
    requires ValidConfig(cfg)
    ensures rows == AllRows(CapFiles(FileKinds.SortStrings(FileKinds.SupportedPaths(walk)), cfg.maxDocs),
                            cfg, hash, relOf, Loader(read))
  {
    var files := FileKinds.IterFiles(walk);
    if cfg.maxDocs.Some? && cfg.maxDocs.value != 0 {
      files := files[..SliceStop(|files|, cfg.maxDocs.value)];
    }
    rows := BuildRows(files, cfg, hash, relOf, Loader(read));
  }

  // ---------------------------------------------------------------------------
  // Properties of the rows

  /** Every row of a file carries its normalised source path, which has no backslash. */
  lemma FileRowsSource(path: string, cfg: IngestConfig, hash: string -> string, relOf: string -> string,
                       load: string -> Result<string>)
    requires ValidConfig(cfg)
    ensures forall r :: r in FileRows(path, cfg, hash, relOf, load) ==>
              r.source == SourceOf(relOf, path) && '\\' !in r.source
  {
  }

  /** A loaded file gives one non-empty row per chunk, numbered from 0 in chunk order,
      whose id and meta agree with its index, source and length. */
  lemma FileRowsOfChunks(path: string, cfg: IngestConfig, hash: string -> string, relOf: string -> string,
                         load: string -> Result<string>)
    requires ValidConfig(cfg)
    requires load(path).Success?
    ensures var rows := FileRows(path, cfg, hash, relOf, load);
            var chunks := DocumentChunks(load(path).value, cfg);
            |rows| == |chunks| &&
            forall i :: 0 <= i < |rows| ==>
              rows[i].text == chunks[i] && rows[i].text != [] &&
              rows[i].meta == ChunkMeta(rows[i].source, i, |rows[i].text|) &&
              rows[i].chunkId == ChunkId(hash(rows[i].source), i)
  {
    var chunks := DocumentChunks(load(path).value, cfg);
    var rel := SourceOf(relOf, path);
    var rows := FileRows(path, cfg, hash, relOf, load);
    assert rows == ChunkRows(rel, chunks, hash);
    Chunker.ChunkBounds(Clean.CleanText(load(path).value), cfg.chunkSize, cfg.overlap, cfg.minChars);
    forall i | 0 <= i < |rows|
      ensures rows[i].text == chunks[i] && rows[i].text != []
      ensures rows[i].meta == ChunkMeta(rows[i].source, i, |rows[i].text|)
      ensures rows[i].chunkId == ChunkId(hash(rows[i].source), i)
    {
      assert rows[i] == ChunkRow(rel, i, chunks[i], hash);
      assert chunks[i] in chunks;
    }
  }

  /** A file that fails to load gives exactly one row: the error row, with empty text. */
  lemma FileRowsOfFailure(path: string, cfg: IngestConfig, hash: string -> string, relOf: string -> string,
                          load: string -> Result<string>)
    requires ValidConfig(cfg)
    requires load(path).Failure?
    ensures var rows := FileRows(path, cfg, hash, relOf, load);
            |rows| == 1 && rows[0].text == [] && rows[0].meta == ErrorMeta(load(path).error) &&
            rows[0].chunkId == ErrorId(hash(path))
  {
  }

  /** Rows are built file by file: the rows of `a + b` are those of `a`, then those of `b`. */
  lemma {:induction false} ConcatRowsAppend(a: seq<string>, b: seq<string>, rowsOf: string -> seq<Row>)
    ensures ConcatRows(a + b, rowsOf) == ConcatRows(a, rowsOf) + ConcatRows(b, rowsOf)
    decreases |b|
  {
    if b == [] {
      assert a + b == a;
    } else {
      var b' := b[..|b| - 1];
      var ab := a + b;
      assert ab[..|ab| - 1] == a + b';
      assert ab[|ab| - 1] == b[|b| - 1];
      ConcatRowsAppend(a, b', rowsOf);
    }
  }

  /** A file that fails to load spoils nothing else: its rows are its one error row,
      and the rows of the files around it are what they would be without it. */
  lemma FailureIsIsolated(before: seq<string>, path: string, after: seq<string>, cfg: IngestConfig,
                          hash: string -> string, relOf: string -> string,
                          load: string -> Result<string>)
    requires ValidConfig(cfg)
    requires load(path).Failure?
    ensures AllRows(before + [path] + after, cfg, hash, relOf, load) ==
            AllRows(before, cfg, hash, relOf, load) +
            [ErrorRow(path, load(path).error, hash, relOf)] +
            AllRows(after, cfg, hash, relOf, load)
  {
    var rowsOf := RowsOf(cfg, hash, relOf, load);
    ConcatRowsAppend(before + [path], after, rowsOf);
    ConcatRowsAppend(before, [path], rowsOf);
    assert [path][..0] == [];
  }

  /** A row has text exactly when it is a chunk row; error rows have none. */
  predicate TextMatchesKind(r: Row) {
    (r.meta.ErrorMeta? && r.text == []) || (r.meta.ChunkMeta? && r.text != [])
  }

  lemma {:induction false} AllRowsTextMatchesKind(files: seq<string>, cfg: IngestConfig, hash: string -> string,
                                                  relOf: string -> string, load: string -> Result<string>)
    requires ValidConfig(cfg)
    ensures forall r :: r in AllRows(files, cfg, hash, relOf, load) ==> TextMatchesKind(r)
    decreases |files|
  {
    if files != [] {
      var init := files[..|files| - 1];
      var path := files[|files| - 1];
      var a := AllRows(init, cfg, hash, relOf, load);
      var b := FileRows(path, cfg, hash, relOf, load);
      AllRowsTextMatchesKind(init, cfg, hash, relOf, load);
      if load(path).Success? {
        FileRowsOfChunks(path, cfg, hash, relOf, load);
      }
      forall r | r in b ensures TextMatchesKind(r) {
        var i :| 0 <= i < |b| && b[i] == r;
      }
      AllRowsUnfold(files, cfg, hash, relOf, load);
    }
  }

  function ErrorRowCount(rows: seq<Row>): nat {
    if rows == [] then 0 else ErrorRowCount(rows[..|rows| - 1]) + (if rows[|rows| - 1].meta.ErrorMeta? then 1 else 0)
  }

  function FailedCount(files: seq<string>, load: string -> Result<string>): nat {
    if files == [] then 0
    else FailedCount(files[..|files| - 1], load) + (if load(files[|files| - 1]).Failure? then 1 else 0)
  }

  lemma {:induction false} ErrorRowCountAppend(a: seq<Row>, b: seq<Row>)
    ensures ErrorRowCount(a + b) == ErrorRowCount(a) + ErrorRowCount(b)
    decreases |b|
  {
    if b != [] {
      assert (a + b)[..|a + b| - 1] == a + b[..|b| - 1];
      ErrorRowCountAppend(a, b[..|b| - 1]);
    } else {
      assert a + b == a;
    }
  }

  lemma {:induction false} ChunkRowsHaveNoErrors(rel: string, chunks: seq<string>, hash: string -> string)
    ensures ErrorRowCount(ChunkRows(rel, chunks, hash)) == 0
    decreases |chunks|
  {
    if chunks != [] {
      var c' := chunks[..|chunks| - 1];
      assert ChunkRows(rel, chunks, hash)[..|chunks| - 1] == ChunkRows(rel, c', hash);
      ChunkRowsHaveNoErrors(rel, c', hash);
    }
  }

  /** There is one error row per file that failed to load, and no other. */
  lemma {:induction false} ErrorRowsCountFailures(files: seq<string>, cfg: IngestConfig, hash: string -> string,
                                                  relOf: string -> string, load: string -> Result<string>)
    requires ValidConfig(cfg)
    ensures ErrorRowCount(AllRows(files, cfg, hash, relOf, load)) == FailedCount(files, load)
    decreases |files|
  {
    if files != [] {
      var init := files[..|files| - 1];
      var path := files[|files| - 1];
      ErrorRowsCountFailures(init, cfg, hash, relOf, load);
      AllRowsUnfold(files, cfg, hash, relOf, load);
      ErrorRowCountAppend(AllRows(init, cfg, hash, relOf, load), FileRows(path, cfg, hash, relOf, load));
      match load(path)
      case Failure(e) =>
        var single := [ErrorRow(path, e, hash, relOf)];
        assert single[..0] == [];
      case Success(raw) =>
        ChunkRowsHaveNoErrors(SourceOf(relOf, path), DocumentChunks(raw, cfg), hash);
    }
  }

  // ---------------------------------------------------------------------------
  // Uniqueness of chunk ids

  /** Where an id can come from: the error id of `path`, or a chunk id of its source. */
  predicate IdOwnedBy(id: string, path: string, hash: string -> string, relOf: string -> string) {
    (|id| == 44 && id[4..] == hash(path)) ||
    (|id| >= 46 && id[..40] == hash(SourceOf(relOf, path)))
  }

  lemma FileRowsOwned(path: string, cfg: IngestConfig, hash: string -> string, relOf: string -> string,
                      load: string -> Result<string>)
    requires ValidConfig(cfg)
    requires DigestShaped(hash)
    ensures forall r :: r in FileRows(path, cfg, hash, relOf, load) ==> IdOwnedBy(r.chunkId, path, hash, relOf)
  {
    var rows := FileRows(path, cfg, hash, relOf, load);
    var rel := SourceOf(relOf, path);
    if load(path).Success? {
      var d := hash(rel);
      assert |d| == 40;
      forall i | 0 <= i < |rows| ensures IdOwnedBy(rows[i].chunkId, path, hash, relOf) {
        assert rows[i].chunkId == ChunkId(d, i);
        ChunkIdStartsWithDigest(d, i);
      }
      forall r | r in rows ensures IdOwnedBy(r.chunkId, path, hash, relOf) {
        var i :| 0 <= i < |rows| && rows[i] == r;
      }
    } else {
      assert |hash(path)| == 40;
      assert rows[0].chunkId == ErrorId(hash(path));
      assert ErrorId(hash(path))[4..] == hash(path);
    }
  }

  lemma ChunkIdStartsWithDigest(d: string, i: nat)
    ensures |ChunkId(d, i)| >= |d| + 6 && ChunkId(d, i)[..|d|] == d
  {
  }

  /** The ids of distinct chunks of one file differ. */
  lemma FileRowIdsDistinct(path: string, cfg: IngestConfig, hash: string -> string, relOf: string -> string,
                           load: string -> Result<string>)
    requires ValidConfig(cfg)
    ensures IdsDistinct(FileRows(path, cfg, hash, relOf, load))
  {
    var rows := FileRows(path, cfg, hash, relOf, load);
    if load(path).Success? {
      forall i, j | 0 <= i < j < |rows| ensures rows[i].chunkId != rows[j].chunkId {
        var d := hash(SourceOf(relOf, path));
        if rows[i].chunkId == rows[j].chunkId {
          ChunkIdInjective(d, i, d, j);
        }
      }
    }
  }

  /** Ids owned by two files whose sources differ are different ids. */
  lemma OwnedIdsDiffer(id1: string, id2: string, p: string, q: string, hash: string -> string, relOf: string -> string,
                       all: seq<string>)
    requires CollisionFree(hash, relOf, all) && p in all && q in all
    requires IdOwnedBy(id1, p, hash, relOf) && IdOwnedBy(id2, q, hash, relOf)
    requires SourceOf(relOf, p) != SourceOf(relOf, q)
    ensures id1 != id2
  {
    assert p != q;
    assert hash(p) != hash(q);
    assert hash(SourceOf(relOf, p)) != hash(SourceOf(relOf, q));
  }

  /** Some file of `files` owns the id. */
  predicate OwnedByOneOf(id: string, files: seq<string>, hash: string -> string, relOf: string -> string) {
    files != [] &&
    (IdOwnedBy(id, files[|files| - 1], hash, relOf) || OwnedByOneOf(id, files[..|files| - 1], hash, relOf))
  }

  /** An id owned by one of `files` is not owned by a file whose source differs from
      all of theirs. */
  lemma {:induction false} OwnedByOthersDiffers(id1: string, id2: string, files: seq<string>, q: string,
                                                hash: string -> string, relOf: string -> string, all: seq<string>)
    requires CollisionFree(hash, relOf, all) && q in all
    requires forall k :: 0 <= k < |files| ==> files[k] in all
    requires OwnedByOneOf(id1, files, hash, relOf) && IdOwnedBy(id2, q, hash, relOf)
    requires forall k :: 0 <= k < |files| ==> SourceOf(relOf, files[k]) != SourceOf(relOf, q)
    ensures id1 != id2
    decreases |files|
  {
    var init := files[..|files| - 1];
    var p := files[|files| - 1];
    if IdOwnedBy(id1, p, hash, relOf) {
      OwnedIdsDiffer(id1, id2, p, q, hash, relOf, all);
    } else {
      assert forall k :: 0 <= k < |init| ==> init[k] == files[k];
      OwnedByOthersDiffers(id1, id2, init, q, hash, relOf, all);
    }
  }

  lemma {:induction false} AllRowsOwned(files: seq<string>, cfg: IngestConfig, hash: string -> string,
                                        relOf: string -> string, load: string -> Result<string>)
    requires ValidConfig(cfg)
    requires DigestShaped(hash)
    ensures forall r :: r in AllRows(files, cfg, hash, relOf, load) ==> OwnedByOneOf(r.chunkId, files, hash, relOf)
    decreases |files|
  {
    if files != [] {
      var init := files[..|files| - 1];
      var path := files[|files| - 1];
      var a := AllRows(init, cfg, hash, relOf, load);
      var b := FileRows(path, cfg, hash, relOf, load);
      AllRowsOwned(init, cfg, hash, relOf, load);
      FileRowsOwned(path, cfg, hash, relOf, load);
      AllRowsUnfold(files, cfg, hash, relOf, load);
    }
  }

  /** No two rows share a chunk id. */
  predicate IdsDistinct(rows: seq<Row>) {
    forall i, j :: 0 <= i < j < |rows| ==> rows[i].chunkId != rows[j].chunkId
  }

  lemma IdsDistinctAppend(a: seq<Row>, b: seq<Row>)
    requires IdsDistinct(a) && IdsDistinct(b)
    requires forall x, y :: x in a && y in b ==> x.chunkId != y.chunkId
    ensures IdsDistinct(a + b)
  {
    var rows := a + b;
    forall i, j | 0 <= i < j < |rows| ensures rows[i].chunkId != rows[j].chunkId {
      if j < |a| {
        assert rows[i] == a[i] && rows[j] == a[j];
      } else if i >= |a| {
        assert rows[i] == b[i - |a|] && rows[j] == b[j - |a|];
      } else {
        assert rows[i] == a[i] && a[i] in a;
        assert rows[j] == b[j - |a|] && b[j - |a|] in b;
      }
    }
  }

  /** Chunk ids are unique across the whole corpus, provided the hash gives 40-character
      digests, has no collision among the paths and sources of this run, and the listed
      files have distinct sources. */
  lemma {:induction false} ChunkIdsUnique(files: seq<string>, cfg: IngestConfig, hash: string -> string,
                                          relOf: string -> string, load: string -> Result<string>)
    requires ValidConfig(cfg)
    requires DigestShaped(hash) && CollisionFree(hash, relOf, files)
    requires forall i, j :: 0 <= i < j < |files| ==> SourceOf(relOf, files[i]) != SourceOf(relOf, files[j])
    ensures IdsDistinct(AllRows(files, cfg, hash, relOf, load))
    decreases |files|
  {
    if files != [] {
      var init := files[..|files| - 1];
      var path := files[|files| - 1];
      var a := AllRows(init, cfg, hash, relOf, load);
      var b := FileRows(path, cfg, hash, relOf, load);
      assert forall k :: 0 <= k < |init| ==> init[k] == files[k];
      assert forall x :: x in init ==> x in files;
      ChunkIdsUnique(init, cfg, hash, relOf, load);
      AllRowsUnfold(files, cfg, hash, relOf, load);
      AllRowsOwned(init, cfg, hash, relOf, load);
      FileRowsOwned(path, cfg, hash, relOf, load);
      FileRowIdsDistinct(path, cfg, hash, relOf, load);
      forall x, y | x in a && y in b ensures x.chunkId != y.chunkId {
        OwnedByOthersDiffers(x.chunkId, y.chunkId, init, path, hash, relOf, files);
      }
      IdsDistinctAppend(a, b);
    }
  }
}
