/** The bookkeeping of rag_pipeline/retriever.py around the vector index: which rows are
    embedded, the docstore kept aligned with them, the configuration defaults, and the
    join of search hits with the docstore. The embedder and the index are parameters:
    the search result arrives as a sequence of (score, id) pairs. */
module Retriever {
  import opened Wrappers
  import Sequences
  import Corpus

  /** A record read back from chunks.jsonl: `text` and `meta` may be absent. */
  datatype StoredRow = StoredRow(chunkId: string, source: string, text: Option<string>, meta: Option<Corpus.Meta>)

  /** A docstore entry: `{"chunk_id", "source", "meta"}`. */
  datatype DocEntry = DocEntry(chunkId: string, source: string, meta: Corpus.Meta)

  /** A retrieved item: a copy of a docstore entry with the hit's score added. */
  datatype Retrieved<S> = Retrieved(entry: DocEntry, score: S)

  /** The `embeddings` configuration section; both keys may be absent. */
  datatype EmbeddingsConfig = EmbeddingsConfig(modelName: string, batchSize: Option<int>, normalize: Option<bool>)

  /** A row written by ingestion, as read back: every key is present. */
  function Stored(r: Corpus.Row): StoredRow {
    StoredRow(r.chunkId, r.source, Some(r.text), Some(r.meta))
  }

  function StoredRows(rows: seq<Corpus.Row>): (s: seq<StoredRow>)
    ensures |s| == |rows|
  {
    seq(|rows|, i requires 0 <= i < |rows| => Stored(rows[i]))
  }

  // ---------------------------------------------------------------------------
  // Index build

  /** `c.get("text")` is truthy: present and non-empty. */
  predicate HasText(r: StoredRow) {
    r.text.Some? && r.text.value != []
  }

  /** `[c for c in chunks if c.get("text")]`. */
  function Indexable(rows: seq<StoredRow>): seq<StoredRow> {
    Sequences.Filter(rows, HasText)
  }

  /** `{"chunk_id": c["chunk_id"], "source": c["source"], "meta": c.get("meta", {})}`. */
  function EntryOf(r: StoredRow): DocEntry {
    DocEntry(r.chunkId, r.source, r.meta.GetOr(Corpus.NoMeta))
  }

  /** What the build hands on: the texts to embed and the docstore to write. */
  datatype IndexInputs = IndexInputs(texts: seq<string>, docstore: seq<DocEntry>)

  /** The texts and the docstore, built from the same filtered list. */
  function BuildInputs(rows: seq<StoredRow>): IndexInputs {
    var kept := Indexable(rows);
    IndexInputs(seq(|kept|, i requires 0 <= i < |kept| => kept[i].text.GetOr([])),
     seq(|kept|, i requires 0 <= i < |kept| => EntryOf(kept[i])))
  }

  /** The docstore is position-aligned with the embedded texts: entry `i` describes the
      row whose text is `texts[i]`. Those rows are the rows with text, in their order,
      and no row with text is left out. */
  lemma BuildInputsAligned(rows: seq<StoredRow>)
    ensures var texts, docstore := BuildInputs(rows).texts, BuildInputs(rows).docstore;
            var pos := Sequences.Positions(rows, HasText);
            && |texts| == |docstore| == |pos|
            && Sequences.StrictlyIncreasing(pos)
            && (forall i :: 0 <= i < |pos| ==>
                  pos[i] < |rows| && HasText(rows[pos[i]]) &&
                  texts[i] == rows[pos[i]].text.value && texts[i] != [] &&
                  docstore[i] == EntryOf(rows[pos[i]]))
            && (forall j :: 0 <= j < |rows| && HasText(rows[j]) ==> j in pos)
  {
    Sequences.FilterPositions(rows, HasText);
  }

  /** Error rows never reach the docstore, and every chunk row does. */
  lemma ErrorRowsNeverIndexed(files: seq<string>, cfg: Corpus.IngestConfig, hash: string -> string,
                              relOf: string -> string, load: string -> Result<string>)
    requires Corpus.ValidConfig(cfg)
    ensures var rows := Corpus.AllRows(files, cfg, hash, relOf, load);
            var docstore := BuildInputs(StoredRows(rows)).docstore;
            && (forall e :: e in docstore ==> e.meta.ChunkMeta?)
            && (forall r :: r in rows && r.meta.ChunkMeta? ==> EntryOf(Stored(r)) in docstore)
  {
    var rows := Corpus.AllRows(files, cfg, hash, relOf, load);
    var stored := StoredRows(rows);
    var docstore := BuildInputs(stored).docstore;
    var pos := Sequences.Positions(stored, HasText);
    Corpus.AllRowsTextMatchesKind(files, cfg, hash, relOf, load);
    BuildInputsAligned(stored);
    forall e | e in docstore ensures e.meta.ChunkMeta? {
      var i :| 0 <= i < |docstore| && docstore[i] == e;
      assert rows[pos[i]] in rows;
    }
    forall r | r in rows && r.meta.ChunkMeta? ensures EntryOf(Stored(r)) in docstore {
      var j :| 0 <= j < |rows| && rows[j] == r;
      assert HasText(stored[j]);
      var i :| 0 <= i < |pos| && pos[i] == j;
      assert docstore[i] == EntryOf(Stored(r));
    }
  }

  // ---------------------------------------------------------------------------
  // Configuration defaults

  datatype Settings = Settings(batchSize: int, normalize: bool)

  /** `int(ecfg.get("batch_size", 64))` and `bool(ecfg.get("normalize", True))` at build time. */
  function BuildSettings(cfg: EmbeddingsConfig): Settings {
    Settings(cfg.batchSize.GetOr(64), cfg.normalize.GetOr(true))
  }

  /** `bool(ecfg.get("normalize", True))` at load time. */
  function LoadNormalize(cfg: EmbeddingsConfig): bool {
    cfg.normalize.GetOr(true)
  }

  /** Build and load read the same normalisation setting from one configuration, so
      queries are normalised exactly when the indexed vectors were; unset means on. */
  lemma NormalizeAgrees(cfg: EmbeddingsConfig)
    ensures BuildSettings(cfg).normalize == LoadNormalize(cfg)
    ensures cfg.normalize == None ==> LoadNormalize(cfg)
    ensures cfg.batchSize == None ==> BuildSettings(cfg).batchSize == 64
    ensures cfg.normalize == Some(false) <==> !LoadNormalize(cfg)
  {
  }

  // ---------------------------------------------------------------------------
  // The retrieval join

  /** The guard of `retrieve`: the hit's id names a docstore entry. */
  function InRange<S>(n: int): ((S, int)) -> bool {
    (h: (S, int)) => 0 <= h.1 < n
  }

  /** The items `retrieve` returns for the given hits, in hit order. */
  function JoinHits<S>(docstore: seq<DocEntry>, hits: seq<(S, int)>): seq<Retrieved<S>> {
    if hits == [] then []
    else
      var (s, idx) := hits[|hits| - 1];
      JoinHits(docstore, hits[..|hits| - 1]) + (if 0 <= idx < |docstore| then [Retrieved(docstore[idx], s)] else [])
  }

  /** The loop of `retrieve` over the search result. */
  method Retrieve<S>(docstore: seq<DocEntry>, hits: seq<(S, int)>) returns (out: seq<Retrieved<S>>)
    ensures out == JoinHits(docstore, hits)
  {
    out := [];
    var k := 0;
    while k < |hits|
      invariant 0 <= k <= |hits|
      invariant out == JoinHits(docstore, hits[..k])
    {
      var (s, idx) := hits[k];
      assert hits[..k + 1][..k] == hits[..k];
      k := k + 1;
      if idx < 0 || idx >= |docstore| {
        continue;
      }
      out := out + [Retrieved(docstore[idx], s)];
    }
    assert hits[..|hits|] == hits;
  }

  lemma {:induction false} JoinHitsIsFilter<S>(docstore: seq<DocEntry>, hits: seq<(S, int)>)
    ensures var surv := Sequences.Filter(hits, InRange<S>(|docstore|));
            var out := JoinHits(docstore, hits);
            && |out| == |surv|
            && (forall i :: 0 <= i < |out| ==>
                  0 <= surv[i].1 < |docstore| && out[i] == Retrieved(docstore[surv[i].1], surv[i].0))
    decreases |hits|
  {
    if hits != [] {
      JoinHitsIsFilter(docstore, hits[..|hits| - 1]);
    }
  }

  /** The items are the in-range hits, in hit order, each joined with a copy of its
      docstore entry and carrying that hit's score; out-of-range ids produce nothing,
      and every in-range hit produces an item. */
  lemma JoinHitsSurvivors<S>(docstore: seq<DocEntry>, hits: seq<(S, int)>)
    ensures var out := JoinHits(docstore, hits);
            var pos := Sequences.Positions(hits, InRange<S>(|docstore|));
            && |out| == |pos| <= |hits|
            && Sequences.StrictlyIncreasing(pos)
            && (forall i :: 0 <= i < |pos| ==>
                  pos[i] < |hits| && 0 <= hits[pos[i]].1 < |docstore| &&
                  out[i] == Retrieved(docstore[hits[pos[i]].1], hits[pos[i]].0))
            && (forall j :: 0 <= j < |hits| && 0 <= hits[j].1 < |docstore| ==> j in pos)
  {
    JoinHitsIsFilter(docstore, hits);
    Sequences.FilterPositions(hits, InRange<S>(|docstore|));
  }

  /** Scores in non-increasing order with respect to `le`, compared pairwise. */
  predicate NonIncreasing<S>(scores: seq<S>, le: (S, S) -> bool) {
    forall i, j :: 0 <= i < j < |scores| ==> le(scores[j], scores[i])
  }

  function HitScores<S>(hits: seq<(S, int)>): seq<S> {
    seq(|hits|, i requires 0 <= i < |hits| => hits[i].0)
  }

  function ItemScores<S>(out: seq<Retrieved<S>>): seq<S> {
    seq(|out|, i requires 0 <= i < |out| => out[i].score)
  }

  /** Dropping hits keeps the ranking: if the search returned scores best-first, the
      retrieved items are best-first too. */
  lemma JoinKeepsRanking<S>(docstore: seq<DocEntry>, hits: seq<(S, int)>, le: (S, S) -> bool)
    requires NonIncreasing(HitScores(hits), le)
    ensures NonIncreasing(ItemScores(JoinHits(docstore, hits)), le)
  {
    var out := JoinHits(docstore, hits);
    var pos := Sequences.Positions(hits, InRange<S>(|docstore|));
    var hs := HitScores(hits);
    var os := ItemScores(out);
    JoinHitsSurvivors(docstore, hits);
    forall i, j | 0 <= i < j < |os| ensures le(os[j], os[i]) {
      assert os[i] == hs[pos[i]] && os[j] == hs[pos[j]];
      assert pos[i] < pos[j];
    }
  }
}
