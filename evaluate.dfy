/** The two answer metrics of rag_pipeline/evaluate.py. Ratios are exact: they are
    modelled as `real` quotients of counts. */
module Evaluate {
  import Strings
  import Retriever
  import Context

  // ---------------------------------------------------------------------------
  // citation_coverage

  /** The citation tag the answer is searched for: `[source:S#ID]`. */
  function Token<S>(r: Retriever.Retrieved<S>): string {
    Context.Header(r.entry.source, r.entry.chunkId)
  }

  /** How many items (duplicates counted separately) have their tag in the answer. */
  function CitedCount<S>(answer: string, retrieved: seq<Retriever.Retrieved<S>>): (n: nat)
    ensures n <= |retrieved|
  {
    if retrieved == [] then 0
    else CitedCount(answer, retrieved[..|retrieved| - 1]) +
         (if Strings.Contains(answer, Token(retrieved[|retrieved| - 1])) then 1 else 0)
  }

  /** `citation_coverage`: 0 for no items, otherwise the cited fraction. */
  function Coverage<S>(answer: string, retrieved: seq<Retriever.Retrieved<S>>): real {
    if retrieved == [] then 0.0
    else CitedCount(answer, retrieved) as real / (if |retrieved| >= 1 then |retrieved| else 1) as real
  }

  method CitationCoverage<S>(answer: string, retrieved: seq<Retriever.Retrieved<S>>) returns (coverage: real)
    ensures coverage == Coverage(answer, retrieved)
  {
    if |retrieved| == 0 {
      return 0.0;
    }
    var cited := 0;
    for k := 0 to |retrieved|
      invariant cited == CitedCount(answer, retrieved[..k])
    {
      assert retrieved[..k + 1][..k] == retrieved[..k];
      var token := "[source:" + retrieved[k].entry.source + "#" + retrieved[k].entry.chunkId + "]";
      if Strings.Contains(answer, token) {
        cited := cited + 1;
      }
    }
    assert retrieved[..|retrieved|] == retrieved;
    coverage := cited as real / (if 1 >= |retrieved| then 1 else |retrieved|) as real;
  }

  /** Every item is counted exactly when every item's tag occurs in the answer. */
  lemma {:induction false} CitedCountFull<S>(answer: string, retrieved: seq<Retriever.Retrieved<S>>)
    ensures CitedCount(answer, retrieved) == |retrieved| <==>
            forall i :: 0 <= i < |retrieved| ==> Strings.Contains(answer, Token(retrieved[i]))
    decreases |retrieved|
  {
    if retrieved != [] {
      var init := retrieved[..|retrieved| - 1];
      CitedCountFull(answer, init);
      assert forall i :: 0 <= i < |init| ==> init[i] == retrieved[i];
    }
  }

  /** A count over a positive total is a fraction in [0, 1], equal to 1 exactly at the total. */
  lemma Fraction(c: nat, n: nat)
    requires 0 < n && c <= n
    ensures 0.0 <= c as real / n as real <= 1.0
    ensures c as real / n as real == 1.0 <==> c == n
  {
    var q := c as real / n as real;
    var m := n as real;
    assert q * m == c as real;
    assert (q - 1.0) * m == c as real - m <= 0.0;
    assert q == 1.0 ==> c as real == m;
  }

  /** The coverage is a fraction in [0, 1], and it is 1 exactly when the list is non-empty
      and every item is cited. */
  lemma CoverageBounds<S>(answer: string, retrieved: seq<Retriever.Retrieved<S>>)
    ensures retrieved == [] ==> Coverage(answer, retrieved) == 0.0
    ensures 0.0 <= Coverage(answer, retrieved) <= 1.0
    ensures Coverage(answer, retrieved) == 1.0 <==>
            retrieved != [] && forall i :: 0 <= i < |retrieved| ==> Strings.Contains(answer, Token(retrieved[i]))
  {
    CitedCountFull(answer, retrieved);
    if retrieved != [] {
      Fraction(CitedCount(answer, retrieved), |retrieved|);
    }
  }

  /** An answer that quotes the formatted context of the same items cites all of them. */
  lemma QuotedContextIsFullyCited<S>(answer: string, retrieved: seq<Retriever.Retrieved<S>>,
                                     records: seq<Retriever.StoredRow>)
    requires retrieved != []
    requires Strings.Contains(answer, Context.ContextOf(retrieved, records))
    ensures Coverage(answer, retrieved) == 1.0
  {
    Context.ContextCitesEveryItem(retrieved, records);
    forall i | 0 <= i < |retrieved| ensures Strings.Contains(answer, Token(retrieved[i])) {
      Strings.ContainsTransitive(answer, Context.ContextOf(retrieved, records), Token(retrieved[i]));
    }
    CoverageBounds(answer, retrieved);
  }

  // ---------------------------------------------------------------------------
  // re.findall(r"[a-zA-Z]{4,}", s)

  predicate IsLetter(c: char) {
    'a' <= c <= 'z' || 'A' <= c <= 'Z'
  }

  /** The maximal runs of ASCII letters in `s`, left to right. */
  function LetterRuns(s: string): seq<string>
    decreases |s|
  {
    if s == [] then []
    else if !IsLetter(s[0]) then LetterRuns(s[1..])
    else
      var k := Strings.LeadingRun(s, IsLetter);
      [s[..k]] + LetterRuns(s[k..])
  }

  /** The matches of `[a-zA-Z]{4,}`: a run shorter than four letters matches nowhere,
      a longer one matches whole, since the quantifier is greedy. */
  function Words(s: string): set<string> {
    set w | w in LetterRuns(s) && |w| >= 4
  }

  /** `s[i..j]` is a maximal run of letters: all letters, with no letter on either side. */
  predicate MaximalRun(s: string, i: int, j: int) {
    && 0 <= i < j <= |s|
    && (forall k :: i <= k < j ==> IsLetter(s[k]))
    && (i == 0 || !IsLetter(s[i - 1]))
    && (j == |s| || !IsLetter(s[j]))
  }

  /** `w` is the maximal run of letters that starts at index `i` of `s`. */
  predicate RunAt(s: string, i: int, w: string) {
    MaximalRun(s, i, i + |w|) && s[i..i + |w|] == w
  }

  /** A run found in a suffix `s[d..]` is a run of `s`, provided it does not start right
      after a letter of `s`. */
  lemma RunAtShift(s: string, d: int, i: int, w: string)
    requires 0 <= d <= |s| && RunAt(s[d..], i, w)
    requires i > 0 || d == 0 || !IsLetter(s[d - 1])
    ensures RunAt(s, d + i, w)
  {
    var t := s[d..];
    assert forall k :: 0 <= k < |t| ==> t[k] == s[d + k];
    assert s[d + i..d + i + |w|] == t[i..i + |w|];
  }

  /** A run of `s` that starts at or after `d` is a run of the suffix `s[d..]`. */
  lemma RunAtUnshift(s: string, d: int, i: int, j: int)
    requires 0 <= d <= i && MaximalRun(s, i, j)
    ensures MaximalRun(s[d..], i - d, j - d) && s[d..][i - d..j - d] == s[i..j]
  {
    var t := s[d..];
    assert forall k :: 0 <= k < |t| ==> t[k] == s[d + k];
    assert forall k :: i - d <= k < j - d ==> IsLetter(t[k]);
    if i - d > 0 {
      assert t[i - d - 1] == s[i - 1];
    }
    if j - d < |t| {
      assert t[j - d] == s[j];
    }
    assert t[i - d..j - d] == s[i..j];
  }

  lemma {:induction false} LetterRunsSound(s: string)
    ensures forall w :: w in LetterRuns(s) ==> exists i :: RunAt(s, i, w)
    decreases |s|
  {
    if s != [] {
      if !IsLetter(s[0]) {
        LetterRunsSound(s[1..]);
        assert LetterRuns(s) == LetterRuns(s[1..]);
        forall w | w in LetterRuns(s) ensures exists i :: RunAt(s, i, w) {
          var i :| RunAt(s[1..], i, w);
          RunAtShift(s, 1, i, w);
        }
      } else {
        var k := Strings.LeadingRun(s, IsLetter);
        var t := s[k..];
        LetterRunsSound(t);
        assert RunAt(s, 0, s[..k]);
        forall w | w in LetterRuns(t) ensures exists i :: RunAt(s, i, w) {
          var i :| RunAt(t, i, w);
          RunAtShift(s, k, i, w);
        }
      }
    }
  }

  lemma {:induction false} LetterRunsComplete(s: string, i: int, j: int)
    requires MaximalRun(s, i, j)
    ensures s[i..j] in LetterRuns(s)
    decreases |s|
  {
    if !IsLetter(s[0]) {
      assert i > 0;
      assert LetterRuns(s) == LetterRuns(s[1..]);
      RunAtUnshift(s, 1, i, j);
      LetterRunsComplete(s[1..], i - 1, j - 1);
    } else {
      var k := Strings.LeadingRun(s, IsLetter);
      assert LetterRuns(s) == [s[..k]] + LetterRuns(s[k..]);
      if i == 0 {
        assert j == k;
        assert s[i..j] == s[..k];
      } else {
        assert !IsLetter(s[i - 1]);
        assert k < i;
        RunAtUnshift(s, k, i, j);
        LetterRunsComplete(s[k..], i - k, j - k);
      }
    }
  }

  /** The words of `s` are exactly its maximal letter runs of length at least four. */
  lemma WordsAreLongRuns(s: string)
    ensures forall w :: w in Words(s) ==> |w| >= 4 && exists i :: RunAt(s, i, w)
    ensures forall i, j :: MaximalRun(s, i, j) && j - i >= 4 ==> s[i..j] in Words(s)
  {
    LetterRunsSound(s);
    forall i, j | MaximalRun(s, i, j) && j - i >= 4 ensures s[i..j] in Words(s) {
      LetterRunsComplete(s, i, j);
    }
  }

  // ---------------------------------------------------------------------------
  // retrieval_overlap

  /** The words of the answer: `set(re.findall(..., answer.lower()))`. */
  function AnswerWords(answer: string): set<string> {
    Words(Strings.Lower(answer))
  }

  /** `src_tokens` after the loop: the words of every item's source, never of its text. */
  function SourceTokens<S>(retrieved: seq<Retriever.Retrieved<S>>): set<string> {
    if retrieved == [] then {}
    else SourceTokens(retrieved[..|retrieved| - 1]) + Words(Strings.Lower(retrieved[|retrieved| - 1].entry.source))
  }

  /** `retrieval_overlap`: 0 without answer words, otherwise the fraction of answer words
      found among the source tokens. */
  function Overlap<S>(answer: string, retrieved: seq<Retriever.Retrieved<S>>): real {
    var words := AnswerWords(answer);
    if words == {} then 0.0
    else |words * SourceTokens(retrieved)| as real / |words| as real
  }

  method RetrievalOverlap<S>(answer: string, retrieved: seq<Retriever.Retrieved<S>>) returns (overlap: real)
    ensures overlap == Overlap(answer, retrieved)
  {
    var words := Words(Strings.Lower(answer));
    if words == {} {
      return 0.0;
    }
    var srcTokens: set<string> := {};
    for k := 0 to |retrieved|
      invariant srcTokens == SourceTokens(retrieved[..k])
    {
      assert retrieved[..k + 1][..k] == retrieved[..k];
      srcTokens := srcTokens + Words(Strings.Lower(retrieved[k].entry.source));
    }
    assert retrieved[..|retrieved|] == retrieved;
    overlap := |words * srcTokens| as real / |words| as real;
  }

  lemma {:induction false} SubsetSmaller<T>(a: set<T>, b: set<T>)
    requires a <= b
    ensures |a| <= |b|
    ensures |a| == |b| ==> a == b
    decreases |a|
  {
    if a != {} {
      var x :| x in a;
      SubsetSmaller(a - {x}, b - {x});
      assert |a - {x}| == |a| - 1 && |b - {x}| == |b| - 1;
      if |a| == |b| {
        assert a - {x} == b - {x};
        assert a == (a - {x}) + {x} && b == (b - {x}) + {x};
      }
    } else if b != {} {
      var y :| y in b;
      assert |b| >= 1 by { assert {y} <= b; }
    }
  }

  /** The overlap lies in [0, 1]; it is 1 exactly when the answer has words and every one
      of them occurs among the source tokens. */
  lemma OverlapBounds<S>(answer: string, retrieved: seq<Retriever.Retrieved<S>>)
    ensures 0.0 <= Overlap(answer, retrieved) <= 1.0
    ensures Overlap(answer, retrieved) == 1.0 <==>
            AnswerWords(answer) != {} && AnswerWords(answer) <= SourceTokens(retrieved)
  {
    var words := AnswerWords(answer);
    var common := words * SourceTokens(retrieved);
    if words != {} {
      SubsetSmaller(common, words);
      Fraction(|common|, |words|);
      assert common == words <==> words <= SourceTokens(retrieved);
    }
  }

  /** The answer has no words exactly when it has no run of four or more ASCII letters
      (after lower-casing), and then it scores 0 whatever was retrieved. */
  lemma NoLongRunNoOverlap<S>(answer: string, retrieved: seq<Retriever.Retrieved<S>>)
    ensures AnswerWords(answer) == {} <==>
            forall i, j :: MaximalRun(Strings.Lower(answer), i, j) ==> j - i < 4
    ensures AnswerWords(answer) == {} ==> Overlap(answer, retrieved) == 0.0
  {
    var s := Strings.Lower(answer);
    WordsAreLongRuns(s);
    if AnswerWords(answer) != {} {
      var w :| w in AnswerWords(answer);
      var i :| RunAt(s, i, w);
      assert MaximalRun(s, i, i + |w|) && |w| >= 4;
    } else {
      forall i, j | MaximalRun(s, i, j) ensures j - i < 4 {
      }
    }
  }

  /** Only sources count: two item lists with the same sources in the same order score
      the same, whatever their chunk ids, metadata or scores. */
  lemma {:induction false} OverlapReadsOnlySources<S>(answer: string, r1: seq<Retriever.Retrieved<S>>, r2: seq<Retriever.Retrieved<S>>)
    requires |r1| == |r2|
    requires forall i :: 0 <= i < |r1| ==> r1[i].entry.source == r2[i].entry.source
    ensures Overlap(answer, r1) == Overlap(answer, r2)
  {
    SourceTokensReadOnlySources(r1, r2);
  }

  lemma {:induction false} SourceTokensReadOnlySources<S>(r1: seq<Retriever.Retrieved<S>>, r2: seq<Retriever.Retrieved<S>>)
    requires |r1| == |r2|
    requires forall i :: 0 <= i < |r1| ==> r1[i].entry.source == r2[i].entry.source
    ensures SourceTokens(r1) == SourceTokens(r2)
    decreases |r1|
  {
    if r1 != [] {
      SourceTokensReadOnlySources(r1[..|r1| - 1], r2[..|r2| - 1]);
    }
  }
}
