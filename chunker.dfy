/** The sliding-window chunker `chunk_text` (rag_pipeline/ingest.py). */
module Chunker {

  import opened Arith

  /** The configurations the model accepts. The loop as written terminates on every text
      exactly when `overlap < chunk_size`; with `overlap >= chunk_size` it stalls on texts
      longer than `chunk_size` (see `StallsWhenOverlapReachesSize`), and a negative overlap
      makes `start` jump past `end`, skipping characters. */
  predicate ValidWindow(size: int, overlap: int) { 0 <= overlap < size }

  /** One turn of the loop on `start`: `end = min(n, start + chunk_size)`, then
      `start = max(0, end - overlap)`, for any configuration whatsoever. */
  function NextStart(n: int, start: int, size: int, overlap: int): int {
    Max(0, Min(n, start + size) - overlap)
  }

  /** With a valid window, a turn that does not stop moves `start` forward by exactly
      `chunk_size - overlap`, so the loop ends. */
  lemma StartAdvances(n: int, start: int, size: int, overlap: int)
    requires ValidWindow(size, overlap) && 0 <= start && start + size < n
    ensures NextStart(n, start, size, overlap) == start + size - overlap > start
  {
  }

  /** As written, once `overlap >= chunk_size` a turn that does not stop leaves `start`
      where it was or moves it back, and the next turn does not stop either: the loop
      never ends. */
  lemma StallsWhenOverlapReachesSize(n: int, start: int, size: int, overlap: int)
    requires 0 <= start && start + size < n && overlap >= size
    ensures NextStart(n, start, size, overlap) <= start
    ensures NextStart(n, start, size, overlap) + size < n
  {
  }

  /** Empty text has no chunks, whatever the window. */
  lemma ChunksOfEmpty(size: int, overlap: int, minChars: int)
    requires ValidWindow(size, overlap)
    ensures Chunks([], size, overlap, minChars) == []
  {
  }

  /** A three-character text with `chunk_size = overlap = 2`: `start` stays 0 forever. */
  lemma StallExample()
    ensures 0 + 2 < 3 && NextStart(3, 0, 2, 2) == 0
  {
  }

  /** The start offsets the loop visits, from `start` on (the loop's `while start < n`). */
  function StartsFrom(n: int, start: int, size: int, overlap: int): (ss: seq<int>)
    requires 0 <= start && ValidWindow(size, overlap)
    ensures forall i :: 0 <= i < |ss| ==> start <= ss[i] < n
    decreases n - start
  {
    if start >= n then []
    else
      var end := Min(n, start + size);
      if end == n then [start]
      else [start] + StartsFrom(n, Max(0, end - overlap), size, overlap)
  }

  /** The windows `text[start:min(n, start + chunk_size)]` the loop cuts, from `start` on,
      before the `min_chars` filter. */
  function WindowsFrom(text: string, start: int, size: int, overlap: int): seq<string>
    requires 0 <= start && ValidWindow(size, overlap)
    decreases |text| - start
  {
    if start >= |text| then []
    else
      var end := Min(|text|, start + size);
      if end == |text| then [text[start..end]]
      else [text[start..end]] + WindowsFrom(text, Max(0, end - overlap), size, overlap)
  }

  function Starts(n: int, size: int, overlap: int): seq<int>
    requires ValidWindow(size, overlap)
  {
    StartsFrom(n, 0, size, overlap)
  }

  function Windows(text: string, size: int, overlap: int): seq<string>
    requires ValidWindow(size, overlap)
  {
    WindowsFrom(text, 0, size, overlap)
  }

  /** The filter `if len(chunk) >= min_chars`, in order. */
  function KeepLong(ws: seq<string>, minChars: int): (r: seq<string>)
    ensures |r| <= |ws|
  {
    if ws == [] then []
    else (if |ws[0]| >= minChars then [ws[0]] else []) + KeepLong(ws[1..], minChars)
  }

  /** The chunks `chunk_text(text, chunk_size, overlap, min_chars)` returns. */
  function Chunks(text: string, size: int, overlap: int, minChars: int): seq<string>
    requires ValidWindow(size, overlap)
  {
    KeepLong(Windows(text, size, overlap), minChars)
  }

  /** `chunk_text`: the loop itself. */
  method ChunkText(text: string, size: int, overlap: int, minChars: int) returns (chunks: seq<string>)
    requires ValidWindow(size, overlap)
    ensures chunks == Chunks(text, size, overlap, minChars)
  {
    if text == [] {
      return [];
    }
    chunks := [];
    var start := 0;
    var n := |text|;
    ghost var all := Chunks(text, size, overlap, minChars);
    while start < n
      invariant 0 <= start
      invariant chunks + KeepLong(WindowsFrom(text, start, size, overlap), minChars) == all
      decreases n - start
    {
      var end := Min(n, start + size);
      var chunk := text[start..end];
      ghost var before := chunks;
      if |chunk| >= minChars {
        chunks := chunks + [chunk];
      }
      ChunkLoopStep(text, start, end, size, overlap, minChars, before, chunks, all);
      if end == n {
        break;
      }
      start := Max(0, end - overlap);
    }
  }

  /** One turn of the loop keeps the invariant: the chunks kept so far followed by
      those still to come are all the chunks. */
  lemma ChunkLoopStep(text: string, start: int, end: int, size: int, overlap: int, minChars: int,
                      done: seq<string>, done': seq<string>, all: seq<string>)
    requires 0 <= start < |text| && ValidWindow(size, overlap) && end == Min(|text|, start + size)
    requires done + KeepLong(WindowsFrom(text, start, size, overlap), minChars) == all
    requires done' == if |text[start..end]| >= minChars then done + [text[start..end]] else done
    ensures end == |text| ==> done' == all
    ensures end < |text| ==> done' + KeepLong(WindowsFrom(text, Max(0, end - overlap), size, overlap), minChars) == all
  {
    var w := text[start..end];
    var kept: seq<string> := if |w| >= minChars then [w] else [];
    var later: seq<string> := [];
    if end < |text| {
      later := KeepLong(WindowsFrom(text, Max(0, end - overlap), size, overlap), minChars);
    }
    ChunkStep(text, start, size, overlap, minChars);
    assert KeepLong(WindowsFrom(text, start, size, overlap), minChars) == kept + later;
    assert done' == done + kept;
    assert done + (kept + later) == (done + kept) + later;
  }

  lemma WindowsFromUnfold(text: string, start: int, size: int, overlap: int)
    requires 0 <= start < |text| && ValidWindow(size, overlap)
    ensures var end := Min(|text|, start + size);
      WindowsFrom(text, start, size, overlap)
      == [text[start..end]] + (if end == |text| then [] else WindowsFrom(text, Max(0, end - overlap), size, overlap))
  {
  }

  /** One turn of the loop: the window at `start` is kept or dropped, then the loop
      either stops or goes on from `end - overlap`. */
  lemma ChunkStep(text: string, start: int, size: int, overlap: int, minChars: int)
    requires 0 <= start < |text| && ValidWindow(size, overlap)
    ensures var end := Min(|text|, start + size);
      var w := text[start..end];
      KeepLong(WindowsFrom(text, start, size, overlap), minChars)
      == (if |w| >= minChars then [w] else [])
         + (if end == |text| then [] else KeepLong(WindowsFrom(text, Max(0, end - overlap), size, overlap), minChars))
  {
    var end := Min(|text|, start + size);
    var rest: seq<string> := [];
    if end < |text| {
      rest := WindowsFrom(text, Max(0, end - overlap), size, overlap);
    }
    WindowsFromUnfold(text, start, size, overlap);
    KeepLongCons(text[start..end], rest, minChars);
  }

  lemma KeepLongCons(w: string, ws: seq<string>, minChars: int)
    ensures KeepLong([w] + ws, minChars) == (if |w| >= minChars then [w] else []) + KeepLong(ws, minChars)
  {
    assert ([w] + ws)[1..] == ws;
  }

  // ---------------------------------------------------------------------------
  // Reassembling text from overlapping chunks

  /** Python's `c[k:]` for `k >= 0`. */
  function DropPrefix(c: string, k: nat): string {
    if k <= |c| then c[k..] else []
  }

  /** The first chunk followed by every later chunk without its first `overlap` characters. */
  function Reassemble(chunks: seq<string>, overlap: nat): string {
    if chunks == [] then [] else chunks[0] + Tails(chunks[1..], overlap)
  }

  function Tails(chunks: seq<string>, overlap: nat): string {
    if chunks == [] then [] else DropPrefix(chunks[0], overlap) + Tails(chunks[1..], overlap)
  }

  // ---------------------------------------------------------------------------
  // Properties of the windows

  /** The visited offsets start at 0, advance by exactly `chunk_size - overlap` (so they
      strictly increase and the loop ends), every window but the last fits strictly
      inside the text, and the last one reaches its end. */
  lemma {:induction false} StartsFromShape(n: int, start: int, size: int, overlap: int)
    requires 0 <= start && ValidWindow(size, overlap)
    ensures var ss := StartsFrom(n, start, size, overlap);
      && (start < n ==> |ss| >= 1 && ss[0] == start)
      && (start >= n ==> ss == [])
      && (forall i :: 0 <= i < |ss| - 1 ==> ss[i + 1] == ss[i] + size - overlap && ss[i] + size < n)
      && (|ss| > 0 ==> ss[|ss| - 1] + size >= n)
    decreases n - start
  {
    if start < n {
      var end := Min(n, start + size);
      if end < n {
        StartsFromShape(n, Max(0, end - overlap), size, overlap);
      }
    }
  }

  /** There are as many windows as visited offsets. */
  lemma {:induction false} WindowCount(text: string, start: int, size: int, overlap: int)
    requires 0 <= start && ValidWindow(size, overlap)
    ensures |WindowsFrom(text, start, size, overlap)| == |StartsFrom(|text|, start, size, overlap)|
    decreases |text| - start
  {
    if start < |text| {
      var end := Min(|text|, start + size);
      if end < |text| {
        WindowCount(text, Max(0, end - overlap), size, overlap);
      }
    }
  }

  /** Window `i` is the slice of the text at the `i`-th visited offset. */
  lemma {:induction false} WindowAt(text: string, start: int, size: int, overlap: int, i: int)
    requires 0 <= start && ValidWindow(size, overlap)
    requires 0 <= i < |WindowsFrom(text, start, size, overlap)|
    ensures i < |StartsFrom(|text|, start, size, overlap)|
    ensures var s := StartsFrom(|text|, start, size, overlap)[i];
      WindowsFrom(text, start, size, overlap)[i] == text[s..Min(|text|, s + size)]
    decreases |text| - start
  {
    WindowCount(text, start, size, overlap);
    var end := Min(|text|, start + size);
    var ws := WindowsFrom(text, start, size, overlap);
    var ss := StartsFrom(|text|, start, size, overlap);
    WindowsFromUnfold(text, start, size, overlap);
    if i > 0 {
      assert end < |text|;
      var next := Max(0, end - overlap);
      assert ss == [start] + StartsFrom(|text|, next, size, overlap);
      assert ws == [text[start..end]] + WindowsFrom(text, next, size, overlap);
      WindowAt(text, next, size, overlap, i - 1);
      assert ss[i] == StartsFrom(|text|, next, size, overlap)[i - 1];
      assert ws[i] == WindowsFrom(text, next, size, overlap)[i - 1];
    } else {
      assert ss[0] == start && ws[0] == text[start..end];
    }
  }

  lemma WindowsAtStarts(text: string, start: int, size: int, overlap: int)
    requires 0 <= start && ValidWindow(size, overlap)
    ensures var ss := StartsFrom(|text|, start, size, overlap);
      var ws := WindowsFrom(text, start, size, overlap);
      && |ws| == |ss|
      && forall i :: 0 <= i < |ws| ==> ws[i] == text[ss[i]..Min(|text|, ss[i] + size)]
  {
    var ss := StartsFrom(|text|, start, size, overlap);
    var ws := WindowsFrom(text, start, size, overlap);
    WindowCount(text, start, size, overlap);
    forall i | 0 <= i < |ws| ensures ws[i] == text[ss[i]..Min(|text|, ss[i] + size)] {
      WindowAt(text, start, size, overlap, i);
    }
  }

  /** Every window is a non-empty slice of at most `chunk_size` characters, and every
      window except the last has exactly `chunk_size` characters. */
  lemma WindowLengths(text: string, size: int, overlap: int)
    requires ValidWindow(size, overlap)
    ensures var ws := Windows(text, size, overlap);
      && (forall i :: 0 <= i < |ws| ==> 0 < |ws[i]| <= size)
      && (forall i :: 0 <= i < |ws| - 1 ==> |ws[i]| == size)
  {
    StartsFromShape(|text|, 0, size, overlap);
    WindowsAtStarts(text, 0, size, overlap);
  }

  /** Position `p` lies in the window that starts at `start`. */
  predicate InWindow(start: int, size: int, n: int, p: int) {
    start <= p < Min(n, start + size)
  }

  /** Every character position of the text lies inside some window. */
  lemma {:induction false} CoveredFrom(n: int, start: int, size: int, overlap: int, p: int)
    requires 0 <= start <= p < n && ValidWindow(size, overlap)
    ensures exists i :: 0 <= i < |StartsFrom(n, start, size, overlap)| && InWindow(StartsFrom(n, start, size, overlap)[i], size, n, p)
    decreases n - start
  {
    var ss := StartsFrom(n, start, size, overlap);
    var end := Min(n, start + size);
    if p < end {
      assert 0 <= 0 < |ss| && InWindow(ss[0], size, n, p);
    } else {
      var next := Max(0, end - overlap);
      CoveredFrom(n, next, size, overlap, p);
      var rest := StartsFrom(n, next, size, overlap);
      var i :| 0 <= i < |rest| && InWindow(rest[i], size, n, p);
      assert ss[i + 1] == rest[i];
      assert 0 <= i + 1 < |ss| && InWindow(ss[i + 1], size, n, p);
    }
  }

  /** Coverage: before the `min_chars` filter, no character of the text is left out. */
  lemma Coverage(text: string, size: int, overlap: int, p: int)
    requires ValidWindow(size, overlap) && 0 <= p < |text|
    ensures exists i :: 0 <= i < |Starts(|text|, size, overlap)| && InWindow(Starts(|text|, size, overlap)[i], size, |text|, p)
  {
    CoveredFrom(|text|, 0, size, overlap, p);
    var ss := StartsFrom(|text|, 0, size, overlap);
    var i :| 0 <= i < |ss| && InWindow(ss[i], size, |text|, p);
    assert Starts(|text|, size, overlap)[i] == ss[i];
  }

  /** The chunks are exactly the windows of at least `min_chars` characters, in order. */
  lemma {:induction false} KeepLongMembers(ws: seq<string>, minChars: int)
    ensures forall c :: c in KeepLong(ws, minChars) <==> c in ws && |c| >= minChars
  {
    if ws != [] {
      KeepLongMembers(ws[1..], minChars);
      assert ws == [ws[0]] + ws[1..];
    }
  }

  /** Every chunk is one of the windows and has between `min_chars` and `chunk_size`
      characters, and at least one. */
  lemma ChunkBounds(text: string, size: int, overlap: int, minChars: int)
    requires ValidWindow(size, overlap)
    ensures forall c :: c in Chunks(text, size, overlap, minChars) ==>
      c in Windows(text, size, overlap) && minChars <= |c| && 0 < |c| <= size
  {
    var ws := Windows(text, size, overlap);
    KeepLongMembers(ws, minChars);
    WindowLengths(text, size, overlap);
  }

  lemma {:induction false} KeepLongKeepsAll(ws: seq<string>, minChars: int)
    requires forall i :: 0 <= i < |ws| ==> |ws[i]| >= minChars
    ensures KeepLong(ws, minChars) == ws
  {
    if ws != [] {
      KeepLongKeepsAll(ws[1..], minChars);
    }
  }

  lemma {:induction false} KeepLongDropsLast(ws: seq<string>, minChars: int)
    requires |ws| > 0
    requires forall i :: 0 <= i < |ws| - 1 ==> |ws[i]| >= minChars
    requires |ws[|ws| - 1]| < minChars
    ensures KeepLong(ws, minChars) == ws[..|ws| - 1]
  {
    if |ws| > 1 {
      KeepLongDropsLast(ws[1..], minChars);
      assert ws[..|ws| - 1] == [ws[0]] + ws[1..][..|ws| - 2];
    }
  }

  /** When `min_chars <= chunk_size` only the final, shorter window can be dropped. */
  lemma OnlyLastMayBeDropped(text: string, size: int, overlap: int, minChars: int)
    requires ValidWindow(size, overlap) && minChars <= size && text != []
    ensures var ws := Windows(text, size, overlap);
      && |ws| > 0
      && Chunks(text, size, overlap, minChars)
         == if |ws[|ws| - 1]| >= minChars then ws else ws[..|ws| - 1]
  {
    var ws := Windows(text, size, overlap);
    StartsFromShape(|text|, 0, size, overlap);
    WindowsAtStarts(text, 0, size, overlap);
    WindowLengths(text, size, overlap);
    if |ws[|ws| - 1]| >= minChars {
      KeepLongKeepsAll(ws, minChars);
    } else {
      KeepLongDropsLast(ws, minChars);
    }
  }

  lemma ReassembleCons(w: string, ws: seq<string>, overlap: nat)
    ensures Reassemble([w] + ws, overlap) == w + Tails(ws, overlap)
  {
    assert ([w] + ws)[1..] == ws;
  }

  /** When the first chunk is longer than the overlap, the tails of a list are its
      reassembly without the first `overlap` characters. */
  lemma TailsAfterOverlap(ws: seq<string>, overlap: nat)
    requires ws != [] && |ws[0]| > overlap
    ensures Tails(ws, overlap) == Reassemble(ws, overlap)[overlap..]
  {
    var more := Tails(ws[1..], overlap);
    assert Tails(ws, overlap) == ws[0][overlap..] + more;
    assert Reassemble(ws, overlap) == ws[0] + more;
    assert (ws[0] + more)[overlap..] == ws[0][overlap..] + more;
  }

  lemma SuffixOfSuffix(s: string, a: int, b: int)
    requires 0 <= a && 0 <= b && a + b <= |s|
    ensures s[a..][b..] == s[a + b..]
  {
  }

  lemma SplitSuffix(s: string, a: int, b: int)
    requires 0 <= a <= b <= |s|
    ensures s[a..b] + s[b..] == s[a..]
  {
  }

  lemma {:induction false} ReassembleWindowsFrom(text: string, start: int, size: int, overlap: int)
    requires 0 <= start < |text| && ValidWindow(size, overlap)
    ensures Reassemble(WindowsFrom(text, start, size, overlap), overlap) == text[start..]
    decreases |text| - start
  {
    var n := |text|;
    var end := Min(n, start + size);
    WindowsFromUnfold(text, start, size, overlap);
    if end < n {
      var next := end - overlap;
      assert next == Max(0, end - overlap) && start < next && next + overlap == end;
      var rest := WindowsFrom(text, next, size, overlap);
      ReassembleWindowsFrom(text, next, size, overlap);
      WindowsFromUnfold(text, next, size, overlap);
      assert |rest[0]| > overlap;
      TailsAfterOverlap(rest, overlap);
      SuffixOfSuffix(text, next, overlap);
      ReassembleCons(text[start..end], rest, overlap);
      SplitSuffix(text, start, end);
    } else {
      ReassembleCons(text[start..end], [], overlap);
      assert text[start..end] == text[start..];
    }
  }

  /** If no window is dropped, the first chunk followed by each later chunk minus its
      first `overlap` characters gives back the text exactly. */
  lemma ChunksReassemble(text: string, size: int, overlap: int, minChars: int)
    requires ValidWindow(size, overlap)
    requires forall w :: w in Windows(text, size, overlap) ==> |w| >= minChars
    ensures Reassemble(Chunks(text, size, overlap, minChars), overlap) == text
  {
    KeepLongKeepsAll(Windows(text, size, overlap), minChars);
    if text != [] {
      ReassembleWindowsFrom(text, 0, size, overlap);
    }
  }
}
