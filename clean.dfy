/** The whitespace normaliser `clean_text` (rag_pipeline/ingest.py). */
module Clean {
  import Strings

  predicate IsNewline(c: char) { c == '\n' }

  /** The class `[ \t]` of the second substitution. */
  predicate IsBlank(c: char) { c == ' ' || c == '\t' }

  /** Python's `str.isspace()`, the characters `str.strip()` removes. */
  predicate IsSpace(c: char) {
    c == ' ' || '\t' <= c <= '\r' || '\U{1C}' <= c <= '\U{1F}'
    || c == '\U{85}' || c == '\U{A0}' || c == '\U{1680}'
    || '\U{2000}' <= c <= '\U{200A}' || c == '\U{2028}' || c == '\U{2029}'
    || c == '\U{202F}' || c == '\U{205F}' || c == '\U{3000}'
  }

  /** Step 1: `text.replace("\r", "\n")`. */
  function ReplaceCR(s: string): string {
    Strings.ReplaceChar(s, '\r', '\n')
  }

  /** Step 2: `re.sub(r"\n{3,}", "\n\n", text)`; every maximal run of three or more
      newlines becomes exactly two, shorter runs are kept. */
  function CollapseNewlines(s: string): string
    decreases |s|
  {
    if s == [] then []
    else if IsNewline(s[0]) then
      var k := Strings.LeadingRun(s, IsNewline);
      (if k >= 3 then "\n\n" else s[..k]) + CollapseNewlines(s[k..])
    else [s[0]] + CollapseNewlines(s[1..])
  }

  /** Step 3: `re.sub(r"[ \t]{2,}", " ", text)`; every maximal run of two or more
      spaces and tabs becomes one space, a lone space or tab is kept. */
  function CollapseBlanks(s: string): string
    decreases |s|
  {
    if s == [] then []
    else if IsBlank(s[0]) then
      var k := Strings.LeadingRun(s, IsBlank);
      (if k >= 2 then " " else s[..k]) + CollapseBlanks(s[k..])
    else [s[0]] + CollapseBlanks(s[1..])
  }

  /** Leading whitespace removed: the result is a suffix of `s`. */
  function StripLeft(s: string): (r: string)
    ensures |r| <= |s| && r == s[|s| - |r|..]
    ensures r == [] || !IsSpace(r[0])
  {
    if s != [] && IsSpace(s[0]) then StripLeft(s[1..]) else s
  }

  /** `lstrip` removes whitespace and nothing else. */
  lemma {:induction false} StripLeftDropsSpaces(s: string)
    ensures forall i :: 0 <= i < |s| - |StripLeft(s)| ==> IsSpace(s[i])
    decreases |s|
  {
    if s != [] && IsSpace(s[0]) {
      StripLeftDropsSpaces(s[1..]);
    }
  }

  /** Trailing whitespace removed: the result is a prefix of `s`. */
  function StripRight(s: string): (r: string)
    ensures |r| <= |s| && r == s[..|r|]
    ensures r == [] || !IsSpace(r[|r| - 1])
  {
    if s != [] && IsSpace(s[|s| - 1]) then StripRight(s[..|s| - 1]) else s
  }

  /** `rstrip` removes whitespace and nothing else. */
  lemma {:induction false} StripRightDropsSpaces(s: string)
    ensures forall i :: |StripRight(s)| <= i < |s| ==> IsSpace(s[i])
    decreases |s|
  {
    if s != [] && IsSpace(s[|s| - 1]) {
      StripRightDropsSpaces(s[..|s| - 1]);
    }
  }

  /** Step 4: `text.strip()`. */
  function Strip(s: string): string {
    StripRight(StripLeft(s))
  }

  /** `clean_text`: the four steps in the source's order. */
  function CleanText(text: string): string {
    Strip(CollapseBlanks(CollapseNewlines(ReplaceCR(text))))
  }

  // ---------------------------------------------------------------------------
  // The shape of normalised text

  predicate NoCR(s: string) { forall i :: 0 <= i < |s| ==> s[i] != '\r' }

  predicate NoNewlineTriple(s: string) {
    forall i :: 0 <= i < |s| - 2 ==> !(IsNewline(s[i]) && IsNewline(s[i + 1]) && IsNewline(s[i + 2]))
  }

  predicate NoBlankPair(s: string) {
    forall i :: 0 <= i < |s| - 1 ==> !(IsBlank(s[i]) && IsBlank(s[i + 1]))
  }

  predicate Trimmed(s: string) { s == [] || (!IsSpace(s[0]) && !IsSpace(s[|s| - 1])) }

  /** What `clean_text` guarantees of its output. */
  predicate IsClean(s: string) { NoCR(s) && NoNewlineTriple(s) && NoBlankPair(s) && Trimmed(s) }

  // ---------------------------------------------------------------------------
  // Main results

  /** The output of `clean_text` has no carriage return, no three newlines in a row,
      no two adjacent spaces or tabs, and no leading or trailing whitespace. */
  lemma CleanTextIsClean(text: string)
    ensures IsClean(CleanText(text))
  {
    var a := ReplaceCR(text);
    var b := CollapseNewlines(a);
    var c := CollapseBlanks(b);
    CollapseNewlinesShape(a);
    CollapseBlanksShape(b);
    StripKeepsShape(c);
  }

  /** Text that is already clean is left unchanged. */
  lemma CleanTextFixesClean(s: string)
    requires IsClean(s)
    ensures CleanText(s) == s
  {
    assert ReplaceCR(s) == s;
    CollapseNewlinesFixes(s);
    CollapseBlanksFixes(s);
    StripFixes(s);
  }

  /** `clean_text` is idempotent. */
  lemma CleanTextIdempotent(text: string)
    ensures CleanText(CleanText(text)) == CleanText(text)
  {
    CleanTextIsClean(text);
    CleanTextFixesClean(CleanText(text));
  }

  // ---------------------------------------------------------------------------
  // Step by step

  lemma NoNewlineTripleConcat(a: string, b: string)
    requires NoNewlineTriple(a) && NoNewlineTriple(b)
    requires a == [] || !IsNewline(a[|a| - 1]) || b == [] || !IsNewline(b[0])
    ensures NoNewlineTriple(a + b)
  {
  }

  lemma NoBlankPairConcat(a: string, b: string)
    requires NoBlankPair(a) && NoBlankPair(b)
    requires a == [] || !IsBlank(a[|a| - 1]) || b == [] || !IsBlank(b[0])
    ensures NoBlankPair(a + b)
  {
  }

  lemma {:induction false} CollapseNewlinesShape(s: string)
    ensures NoNewlineTriple(CollapseNewlines(s))
    ensures NoCR(s) ==> NoCR(CollapseNewlines(s))
    ensures s == [] <==> CollapseNewlines(s) == []
    ensures s != [] ==> (IsNewline(s[0]) <==> IsNewline(CollapseNewlines(s)[0]))
    decreases |s|
  {
    if s == [] {
    } else if IsNewline(s[0]) {
      var k := Strings.LeadingRun(s, IsNewline);
      var piece: string := if k >= 3 then "\n\n" else s[..k];
      CollapseNewlinesShape(s[k..]);
      NoNewlineTripleConcat(piece, CollapseNewlines(s[k..]));
    } else {
      CollapseNewlinesShape(s[1..]);
      NoNewlineTripleConcat([s[0]], CollapseNewlines(s[1..]));
    }
  }

  lemma CollapseBlanksHead(s: string)
    ensures s == [] <==> CollapseBlanks(s) == []
    ensures s != [] ==> (IsBlank(s[0]) <==> IsBlank(CollapseBlanks(s)[0]))
    ensures s != [] ==> (IsNewline(s[0]) <==> IsNewline(CollapseBlanks(s)[0]))
  {
  }

  lemma {:induction false} CollapseBlanksNoPair(s: string)
    ensures NoBlankPair(CollapseBlanks(s))
    decreases |s|
  {
    if s == [] {
    } else if IsBlank(s[0]) {
      var k := Strings.LeadingRun(s, IsBlank);
      var piece: string := if k >= 2 then " " else s[..k];
      CollapseBlanksNoPair(s[k..]);
      CollapseBlanksHead(s[k..]);
      NoBlankPairConcat(piece, CollapseBlanks(s[k..]));
    } else {
      CollapseBlanksNoPair(s[1..]);
      NoBlankPairConcat([s[0]], CollapseBlanks(s[1..]));
    }
  }

  lemma {:induction false} CollapseBlanksNoCR(s: string)
    requires NoCR(s)
    ensures NoCR(CollapseBlanks(s))
    decreases |s|
  {
    if s == [] {
    } else if IsBlank(s[0]) {
      var k := Strings.LeadingRun(s, IsBlank);
      assert NoCR(s[k..]);
      CollapseBlanksNoCR(s[k..]);
    } else {
      assert NoCR(s[1..]);
      CollapseBlanksNoCR(s[1..]);
    }
  }

  lemma {:induction false} CollapseBlanksNoTriple(s: string)
    requires NoNewlineTriple(s)
    ensures NoNewlineTriple(CollapseBlanks(s))
    decreases |s|
  {
    if s == [] {
    } else if IsBlank(s[0]) {
      var k := Strings.LeadingRun(s, IsBlank);
      var piece: string := if k >= 2 then " " else s[..k];
      assert NoNewlineTriple(s[k..]);
      CollapseBlanksNoTriple(s[k..]);
      NoNewlineTripleConcat(piece, CollapseBlanks(s[k..]));
    } else {
      var u := s[1..];
      assert NoNewlineTriple(u);
      CollapseBlanksNoTriple(u);
      if IsNewline(s[0]) && u != [] && IsNewline(u[0]) {
        assert CollapseBlanks(u) == [u[0]] + CollapseBlanks(u[1..]);
        CollapseBlanksHead(u[1..]);
        assert u[1..] == [] || !IsNewline(u[1]);
      } else {
        CollapseBlanksHead(u);
        NoNewlineTripleConcat([s[0]], CollapseBlanks(u));
      }
    }
  }

  /** Collapsing runs of spaces and tabs leaves no two of them adjacent, and keeps the
      first two guarantees. */
  lemma CollapseBlanksShape(s: string)
    ensures NoBlankPair(CollapseBlanks(s))
    ensures NoCR(s) ==> NoCR(CollapseBlanks(s))
    ensures NoNewlineTriple(s) ==> NoNewlineTriple(CollapseBlanks(s))
  {
    CollapseBlanksNoPair(s);
    if NoCR(s) {
      CollapseBlanksNoCR(s);
    }
    if NoNewlineTriple(s) {
      CollapseBlanksNoTriple(s);
    }
  }

  /** A piece cut out of text of the normalised shape keeps that shape. */
  lemma InfixKeepsShape(s: string, t: string, i: int)
    requires 0 <= i <= |s| - |t| && t == s[i..i + |t|]
    requires NoCR(s) && NoNewlineTriple(s) && NoBlankPair(s)
    ensures NoCR(t) && NoNewlineTriple(t) && NoBlankPair(t)
  {
    assert forall k :: 0 <= k < |t| ==> t[k] == s[i + k];
  }

  /** `strip()` leaves neither leading nor trailing whitespace. */
  lemma StripTrimmed(s: string)
    ensures Trimmed(Strip(s))
  {
    var l := StripLeft(s);
    var r := StripRight(l);
    if r != [] {
      assert r[0] == l[0];
    }
  }

  lemma StripKeepsShape(s: string)
    requires NoCR(s) && NoNewlineTriple(s) && NoBlankPair(s)
    ensures IsClean(Strip(s))
  {
    var l := StripLeft(s);
    assert l == s[|s| - |l|..|s| - |l| + |l|];
    InfixKeepsShape(s, l, |s| - |l|);
    var r := StripRight(l);
    assert r == l[0..0 + |r|];
    InfixKeepsShape(l, r, 0);
    StripTrimmed(s);
  }

  lemma {:induction false} CollapseNewlinesFixes(s: string)
    requires NoNewlineTriple(s)
    ensures CollapseNewlines(s) == s
    decreases |s|
  {
    if s == [] {
    } else if IsNewline(s[0]) {
      var k := Strings.LeadingRun(s, IsNewline);
      if |s| >= 3 {
        assert !(IsNewline(s[0]) && IsNewline(s[1]) && IsNewline(s[2]));
      }
      assert k < 3;
      assert NoNewlineTriple(s[k..]);
      CollapseNewlinesFixes(s[k..]);
      assert s[..k] + s[k..] == s;
    } else {
      assert NoNewlineTriple(s[1..]);
      CollapseNewlinesFixes(s[1..]);
      assert [s[0]] + s[1..] == s;
    }
  }

  lemma {:induction false} CollapseBlanksFixes(s: string)
    requires NoBlankPair(s)
    ensures CollapseBlanks(s) == s
    decreases |s|
  {
    if s != [] {
      var u := s[1..];
      if IsBlank(s[0]) {
        var k := Strings.LeadingRun(s, IsBlank);
        if |s| >= 2 {
          assert !IsBlank(s[1]);
        }
        assert k == 1 && s[..k] == [s[0]] && s[k..] == u;
      }
      assert CollapseBlanks(s) == [s[0]] + CollapseBlanks(u);
      assert NoBlankPair(u);
      CollapseBlanksFixes(u);
      assert [s[0]] + u == s;
    }
  }


  lemma StripFixes(s: string)
    requires Trimmed(s)
    ensures Strip(s) == s
  {
  }
}
