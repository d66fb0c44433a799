# A verified model of the RAG pipeline's text and index bookkeeping

This project models, in Dafny, the deterministic core of `rag_pipeline`, a
retrieval-augmented question answering pipeline. The pieces modelled are:

- **Ingestion** (`rag_pipeline/ingest.py`):
  - the whitespace normaliser `clean_text`;
  - the sliding-window chunker `chunk_text`;
  - the extension dispatch of `load_document`;
  - the `iter_files` filter and sort;
  - the `max_docs` cap;
  - the per-file loop of `main` that turns each file into chunk rows, or into one
    `ERR_` row when the file cannot be loaded.
- **Index build and retrieval** (`rag_pipeline/retriever.py`):
  - the filter that keeps only rows with text;
  - the position-aligned `texts`/docstore pair;
  - the configuration defaults;
  - the loop of `retrieve` that joins search hits to docstore entries.
- **Prompt context** (`rag_pipeline/rag.py`): `_format_context`. It builds the
  chunk-id-to-text table, emits one `[source:S#ID]` part per retrieved item and
  joins the parts.
- **Answer metrics** (`rag_pipeline/evaluate.py`): `citation_coverage` and
  `retrieval_overlap`, with exact `real` ratios.

Modules, one per file:

| file | module | models |
|---|---|---|
| wrappers.dfy | Wrappers | `Option` and `Result` (a value or an error message) |
| strings.dfy | Strings | ASCII `lower()`, `in` on strings, `sep.join`, `replace` of one character |
| clean.dfy | Clean | `clean_text` |
| chunker.dfy | Chunker | `chunk_text` |
| file_kinds.dfy | FileKinds | the extension sets, `load_document`'s dispatch, `os.path.splitext`, `iter_files` |
| corpus.dfy | Corpus | chunk ids, the rows of a file, the per-file loop and the `max_docs` cap of `main` |
| sequences.dfy | Sequences | order-preserving filtering, used by the index build and by retrieval |
| retriever.dfy | Retriever | `build_faiss_index` up to the embedding call, `load_index`'s default, `retrieve`'s loop |
| context.dfy | Context | `_format_context` |
| evaluate.dfy | Evaluate | `citation_coverage`, `retrieval_overlap` |

Parts the pipeline gets from outside appear as function-typed parameters:

- the file readers: `read: (Reader, string) -> Result<string>`;
- `sha1_text`: `hash: string -> string`;
- `os.path.relpath` against the input directory: `relOf: string -> string`.

The directory walk is an input sequence of `(root, name)` pairs. The vector search
result is an input sequence of `(score, id)` pairs. Scores have an opaque type `S`.
Their order is a relation parameter `le`.

Methods follow the code's loops. Each method's postcondition ties its result to a
specification function, and the lemmas prove the pipeline's properties about those
functions:

- `ChunkText`, `AppendChunkRows`, `AppendFileRows`, `BuildRows` and `Ingest` for ingestion;
- `IterFiles` for file listing;
- `Retrieve` for the retrieval join;
- `LoadTextTable` and `FormatContext` for the prompt context;
- `CitationCoverage` and `RetrievalOverlap` for the metrics.

## Model

| member | source | states |
|---|---|---|
| Clean.CleanTextIsClean | rag_pipeline/ingest.py:61-66 | The output of `clean_text` has no `\r`, no three newlines in a row, no two adjacent spaces/tabs, and no leading or trailing whitespace. |
| Clean.CleanTextFixesClean | rag_pipeline/ingest.py:61-66 | Text that already has that shape is returned unchanged. |
| Clean.CleanTextIdempotent | rag_pipeline/ingest.py:61-66 | Applying `clean_text` twice equals applying it once. |
| Clean.CollapseNewlinesShape | rag_pipeline/ingest.py:64 | After `re.sub(r"\n{3,}", "\n\n")` no three newlines are adjacent. It introduces no `\r`, keeps emptiness and keeps whether the text starts with a newline. |
| Clean.CollapseBlanksShape | rag_pipeline/ingest.py:65 | After `re.sub(r"[ \t]{2,}", " ")` no two spaces/tabs are adjacent. It keeps the two earlier guarantees. |
| Clean.StripKeepsShape | rag_pipeline/ingest.py:66 | `strip()` of text with the first three guarantees has all four. |
| Clean.StripLeftDropsSpaces | rag_pipeline/ingest.py:66 | The leading part that `strip()` removes consists only of whitespace. |
| Clean.StripRightDropsSpaces | rag_pipeline/ingest.py:66 | The trailing part that `strip()` removes consists only of whitespace. |
| Clean.CollapseNewlinesFixes | rag_pipeline/ingest.py:64 | The newline substitution leaves text without a newline triple unchanged. |
| Clean.CollapseBlanksFixes | rag_pipeline/ingest.py:65 | The blank substitution leaves text without a space/tab pair unchanged. |
| Chunker.ChunkText | rag_pipeline/ingest.py:68-82 | With `0 <= overlap < chunk_size`, the loop terminates and returns exactly `Chunks(text, ...)`: the windows with at least `min_chars` characters, in order. Empty text gives `[]`. |
| Chunker.ChunksOfEmpty | rag_pipeline/ingest.py:69-70 | Empty text has no chunks. |
| Chunker.StartAdvances | rag_pipeline/ingest.py:74-81 | With a valid window, every turn that does not break moves `start` forward by exactly `chunk_size - overlap`, so the loop ends. |
| Chunker.StallsWhenOverlapReachesSize | rag_pipeline/ingest.py:74-81 | As written, with `overlap >= chunk_size` a turn that does not break leaves `start` where it was or moves it back, and the next turn does not break either. |
| Chunker.StallExample | rag_pipeline/ingest.py:74-81 | Concrete case: a text of length 3 with `chunk_size = overlap = 2` keeps `start` at 0 forever. |
| Chunker.StartsFromShape | rag_pipeline/ingest.py:74-81 | The visited offsets start at 0 and grow by `chunk_size - overlap`. Every window but the last ends strictly inside the text, and the last reaches its end. |
| Chunker.WindowsAtStarts | rag_pipeline/ingest.py:75-76 | Window `i` is `text[s_i : min(n, s_i + chunk_size)]` for the `i`-th visited offset `s_i`. |
| Chunker.WindowLengths | rag_pipeline/ingest.py:75-76 | Every window has between 1 and `chunk_size` characters. Every window except the last has exactly `chunk_size`. |
| Chunker.Coverage | rag_pipeline/ingest.py:74-81 | Every character position of the text lies in some window. |
| Chunker.ChunkBounds | rag_pipeline/ingest.py:75-78 | Every chunk is one of the windows and has between `max(1, min_chars)` and `chunk_size` characters. |
| Chunker.KeepLongMembers | rag_pipeline/ingest.py:77-78 | A window is kept exactly when it has at least `min_chars` characters. |
| Chunker.OnlyLastMayBeDropped | rag_pipeline/ingest.py:77-81 | When `min_chars <= chunk_size`, the chunks are all the windows, or all but the final one. |
| Chunker.ChunksReassemble | rag_pipeline/ingest.py:74-81 | If no window is dropped, the first chunk followed by each later chunk minus its first `overlap` characters is exactly the text. |
| FileKinds.ReaderFor | rag_pipeline/ingest.py:11-14 | The lower-cased extension selects reader `k` exactly when it lies in `k`'s extension set. An extension has a reader exactly when `iter_files` accepts it. |
| FileKinds.LoadDocumentDispatch | rag_pipeline/ingest.py:47-59 | `load_document` hands the path to the reader of its lower-cased extension's kind. Any other extension fails with `Unsupported file type: {ext} ({path})`. |
| FileKinds.ExtensionShape | rag_pipeline/ingest.py:48 | `splitext`'s extension is a suffix of the path. It is empty, or a dot followed by characters that are neither `/` nor `.`. |
| FileKinds.ExtensionOfJoin | rag_pipeline/ingest.py:88-89 | The extension of `join(root, name)` equals that of `name`, so `iter_files` (which looks at the name) and `load_document` (which looks at the path) agree. |
| FileKinds.SortStrings | rag_pipeline/ingest.py:92 | `sorted(paths)` is a sorted permutation of its input. |
| FileKinds.IterFiles | rag_pipeline/ingest.py:84-92 | The method returns the sorted list of walked files whose extension is supported. |
| FileKinds.SupportedPathsSound | rag_pipeline/ingest.py:86-91 | Every listed path is the join of a walked file with a supported extension. |
| FileKinds.SupportedPathsComplete | rag_pipeline/ingest.py:86-91 | Every walked file with a supported extension is listed. |
| FileKinds.IterFilesAgreesWithLoad | rag_pipeline/ingest.py:84-92 | The listed files are sorted and each has a reader in `load_document`. Every supported walked file is listed. |
| Corpus.Padded5RoundTrip | rag_pipeline/ingest.py:126 | Reading back the zero-padded `{i:05d}` gives `i`. |
| Corpus.ChunkIdInjective | rag_pipeline/ingest.py:126 | Two chunk ids built from digests of the same length are equal only when the digests and the indices are. |
| Corpus.ErrorIdIsNotChunkId | rag_pipeline/ingest.py:126-135 | With 40-character digests, an `ERR_` id never equals a chunk id. |
| Corpus.CapFiles | rag_pipeline/ingest.py:114-116 | `max_docs` keeps a prefix of the sorted files. `None` and 0 keep them all. A positive `m` keeps `min(m, len(files))`. |
| Corpus.AppendChunkRows | rag_pipeline/ingest.py:125-132 | The inner loop appends exactly one row per chunk, in `enumerate` order. |
| Corpus.AppendFileRows | rag_pipeline/ingest.py:120-139 | One pass appends that file's chunk rows, or its single error row when the load fails. |
| Corpus.BuildRows | rag_pipeline/ingest.py:118-139 | The rows are the rows of each file, concatenated in file order. |
| Corpus.Ingest | rag_pipeline/ingest.py:114-139 | The run lists and sorts the files, applies the `max_docs` cap, then builds the rows. |
| Corpus.FileRowsSource | rag_pipeline/ingest.py:124-136 | Every row of a file carries its relative path with `\` replaced by `/`. |
| Corpus.FileRowsOfChunks | rag_pipeline/ingest.py:125-132 | For a file yielding `k` chunks there are `k` rows. Row `i` holds chunk `i` (non-empty), `chunk_index = i`, `chars = len(text)` and id `H(rel) + "_" + {i:05d}`. |
| Corpus.FileRowsOfFailure | rag_pipeline/ingest.py:133-139 | A failing file gives exactly one row: id `ERR_` + `H(path)`, text `""`, meta `{error}`. |
| Corpus.FailureIsIsolated | rag_pipeline/ingest.py:119-139 | A failing file between two file lists contributes only its error row. The rows of the files before and after are unaffected and stay in order. |
| Corpus.AllRowsTextMatchesKind | rag_pipeline/ingest.py:127-139 | Every row is an error row with empty text or a chunk row with non-empty text. |
| Corpus.ErrorRowsCountFailures | rag_pipeline/ingest.py:133-139 | The number of error rows equals the number of files that failed to load. |
| Corpus.FileRowIdsDistinct | rag_pipeline/ingest.py:125-126 | The ids of one file's rows are pairwise distinct. |
| Corpus.ChunkIdsUnique | rag_pipeline/ingest.py:118-139 | With a hash that gives 40-character digests and has no collision among this run's paths and sources, and with distinct sources per file, all row ids of the run are distinct. |
| Sequences.FilterPositions | rag_pipeline/retriever.py:25 | A comprehension with a guard keeps exactly the elements that pass it, in their original order, each once. |
| Retriever.BuildInputsAligned | rag_pipeline/retriever.py:25-28 | `texts` and the docstore have equal length. Entry `i` of each comes from the `i`-th row with non-empty text, in row order. No such row is left out. |
| Retriever.ErrorRowsNeverIndexed | rag_pipeline/retriever.py:25-28 | Every docstore entry of an ingestion run describes a chunk row, and every chunk row reaches the docstore. |
| Retriever.NormalizeAgrees | rag_pipeline/retriever.py:20-48 | Build and load read the same `normalize` flag: unset means `True`, only an explicit `False` turns it off. Unset `batch_size` means 64. |
| Retriever.Retrieve | rag_pipeline/retriever.py:56-68 | The loop returns `JoinHits(docstore, hits)`. |
| Retriever.JoinHitsIsFilter | rag_pipeline/retriever.py:62-67 | Item `i` is the `i`-th in-range hit's docstore entry carrying that hit's score. |
| Retriever.JoinHitsSurvivors | rag_pipeline/retriever.py:60-68 | The items correspond one-to-one and in order to the hits with `0 <= idx < len(docstore)`. Out-of-range ids produce nothing, and there are at most as many items as hits. |
| Retriever.JoinKeepsRanking | rag_pipeline/retriever.py:60-68 | If hit scores are non-increasing, the item scores are too. |
| Context.LoadTextTable | rag_pipeline/rag.py:12-16 | The loop builds `TextTable(records)`. |
| Context.TextTableLastWins | rag_pipeline/rag.py:12-16 | The table's keys are exactly the records' ids. Each id maps to the text (`""` if absent) of the last record with that id. |
| Context.FormatContext | rag_pipeline/rag.py:8-24 | The method returns `ContextOf(chunks, records)`. |
| Context.Parts | rag_pipeline/rag.py:18-23 | There is one part per retrieved item, in order, duplicates included. |
| Context.ContextLength | rag_pipeline/rag.py:24 | No items give `""`. `n` items give their parts plus exactly `n - 1` separators. |
| Context.ContextCitesEveryItem | rag_pipeline/rag.py:18-24 | Each item's part, and so its `[source:S#ID]` tag, occurs in the context. |
| Context.ContextDependsOnlyOnRetrievedIds | rag_pipeline/rag.py:19-23 | Two tables that agree on the retrieved ids give the same context. |
| Strings.JoinLength | rag_pipeline/rag.py:24 | `sep.join(parts)` is empty for no parts. Otherwise its length is the parts' total plus `n - 1` separators. |
| Strings.JoinContainsParts | rag_pipeline/rag.py:24 | Every part occurs in the joined string. |
| Evaluate.CitationCoverage | rag_pipeline/evaluate.py:7-16 | The loop returns `Coverage(answer, retrieved)`. |
| Evaluate.CitedCountFull | rag_pipeline/evaluate.py:11-15 | Every item is counted exactly when every item's tag occurs in the answer. |
| Evaluate.CoverageBounds | rag_pipeline/evaluate.py:9-16 | The coverage is 0 for no items and lies in [0, 1]. It is 1 exactly when there are items and all their tags occur in the answer. |
| Evaluate.QuotedContextIsFullyCited | rag_pipeline/evaluate.py:13-16 | An answer containing `_format_context`'s output for the same items has coverage exactly 1. |
| Evaluate.WordsAreLongRuns | rag_pipeline/evaluate.py:21 | `re.findall(r"[a-zA-Z]{4,}")` gives exactly the maximal runs of ASCII letters of length at least 4. |
| Evaluate.RetrievalOverlap | rag_pipeline/evaluate.py:18-28 | The loop returns `Overlap(answer, retrieved)`. |
| Evaluate.NoLongRunNoOverlap | rag_pipeline/evaluate.py:21-23 | The answer has no words exactly when its lowercased form has no run of 4 or more letters. The overlap is then 0. |
| Evaluate.OverlapBounds | rag_pipeline/evaluate.py:28 | The overlap lies in [0, 1]. It is 1 exactly when the answer has words and all of them are source tokens. |
| Evaluate.OverlapReadsOnlySources | rag_pipeline/evaluate.py:24-26 | Item lists with the same sources score the same, whatever their ids, texts or scores. |

## Left out

- File reading and parsing (plain text, PDF, HTML, JSON, CSV readers): foreign libraries. The readers are a parameter returning text or an error.
- `sha1_text`: a parameter. Where id uniqueness is stated, it is assumed to give 40-character digests and to have no collision among the paths and sources one run hashes (no function into 40-character strings is injective on all strings).
- Corpus.ChunkIdsUnique: assumes the listed files have distinct sources. On POSIX, `replace("\\", "/")` maps a file literally named `a\b.txt` and the file `a/b.txt` to the same source, and hence to the same chunk ids; the model does not rule such inputs out.
- `os.path.relpath`, `os.walk`, `os.path.join` and `os.path.splitext` beyond POSIX `/` separators (on Windows, `ntpath` also treats `\` as a separator; `FileKinds.Extension` models `posixpath.splitext`):
  - the walk is an input list of `(root, name)` pairs;
  - relpath is a parameter.
- `relpath` raising inside the `except` handler, which would abort `main`, is not modelled.
- `str.lower()` is modelled for ASCII letters only. Python also lowercases other letters, a few of them into ASCII (the Kelvin sign becomes `k`); the model does not capture that in `load_document` or `retrieval_overlap`.
- `Chunker.ChunkText`: it requires `0 <= overlap < chunk_size`. The loop as written terminates on every text exactly when `overlap < chunk_size`, so the requires excludes more than the stall: negative overlaps, under which `start` jumps past `end` and characters are skipped (`chunk_text("abcdef", 2, -1, 0)` gives `["ab", "de"]`), and texts no longer than `chunk_size` under `overlap >= chunk_size`, which break on the first turn (`chunk_text("ab", 2, 5, 0)` gives `["ab"]`). Only texts longer than `chunk_size` with `overlap >= chunk_size` never terminate; see Findings.
- `max_docs` values that are not integers (`int(max_docs)` of a string or float) are not modelled. `max_docs` is `Option<int>`.
- Configuration parsing: `int(...)` failing on malformed settings is not modelled, and neither is `bool(...)` applied to non-boolean values.
- Writing and reading `chunks.jsonl` and `docstore.json` (JSON round trip, blank lines): rows are passed on as values. A row's absent `text`/`meta` keys are modelled with `Option`. A missing `chunk_id` or `source` key, which raises `KeyError` in the source, is not modelled.
- Retriever.DocEntry: the source's `r.get("source", "")` default in `retrieval_overlap` never applies, because docstore entries always carry a source.
- The embedding model, `faiss.normalize_L2`, index add/search and index files: foreign numeric code. Search results are an input sequence of `(score, id)` pairs, and scores are an opaque type.
- `dict(docstore[idx])` copying: entries are immutable values here, so the docstore is unchanged by construction.
- `answer_question` (timing, rounding, prompt formatting), rag_pipeline/llm.py, `evaluate.main` statistics, rag_pipeline/utils.py, and the app/ front ends: I/O, network and presentation.

## Findings

| source | as written | input that shows it | evidently intended | confidence | as-written member | corrected member |
|---|---|---|---|---|---|---|
| rag_pipeline/ingest.py:74-81 | `start = max(0, end - overlap)` never advances when `overlap >= chunk_size`, so on any text longer than `chunk_size` `while start < n` never ends | `chunk_text("abc", chunk_size=2, overlap=2, min_chars=0)`: `end` is 2 and `start` stays 0 | configurations are checked so that `0 <= overlap < chunk_size`, under which `start` strictly increases | high (not executed) | Chunker.StallsWhenOverlapReachesSize, Chunker.StallExample | Chunker.ChunkText (requires `ValidWindow`), Chunker.StartAdvances |
