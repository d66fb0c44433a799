/** String helpers shared by the pipeline: case mapping, substring search, joining. */
module Strings {

  /** Python's `str.lower()` on one character, for the ASCII letters. */
  function LowerChar(c: char): char {
    if 'A' <= c <= 'Z' then (c as int + 32) as char else c
  }

  /** Python's `str.lower()`, for ASCII text. */
  function Lower(s: string): (r: string)
    ensures |r| == |s|
  {
    seq(|s|, i requires 0 <= i < |s| => LowerChar(s[i]))
  }

  lemma LowerConcat(a: string, b: string)
    ensures Lower(a + b) == Lower(a) + Lower(b)
  {
    assert forall i :: 0 <= i < |a + b| ==> Lower(a + b)[i] == (Lower(a) + Lower(b))[i];
  }

  /** Python's `t in s` on strings. */
  predicate Contains(s: string, t: string) {
    exists i :: 0 <= i <= |s| - |t| && s[i..][..|t|] == t
  }

  lemma ContainsAt(s: string, t: string, i: int)
    requires 0 <= i <= |s| - |t| && s[i..i + |t|] == t
    ensures Contains(s, t)
  {
    assert s[i..][..|t|] == t;
  }

  /** Whatever sits between a prefix and a suffix is contained in the whole. */
  lemma ContainsInfix(p: string, t: string, q: string)
    ensures Contains(p + t + q, t)
  {
    ContainsAt(p + t + q, t, |p|);
  }

  /** Containment is transitive. */
  lemma ContainsTransitive(a: string, b: string, c: string)
    requires Contains(a, b) && Contains(b, c)
    ensures Contains(a, c)
  {
    var i :| 0 <= i <= |a| - |b| && a[i..][..|b|] == b;
    var j :| 0 <= j <= |b| - |c| && b[j..][..|c|] == c;
    assert forall k :: 0 <= k < |b| ==> b[k] == a[i + k];
    assert forall k :: 0 <= k < |c| ==> c[k] == b[j + k];
    assert a[i + j..i + j + |c|] == c;
    ContainsAt(a, c, i + j);
  }

  /** Python's `sep.join(parts)`. */
  function JoinWith(parts: seq<string>, sep: string): string {
    if parts == [] then []
    else if |parts| == 1 then parts[0]
    else parts[0] + sep + JoinWith(parts[1..], sep)
  }

  function TotalLength(parts: seq<string>): nat {
    if parts == [] then 0 else |parts[0]| + TotalLength(parts[1..])
  }

  /** Joining n parts puts exactly n - 1 separators between them and adds nothing else;
      joining no parts gives the empty string. */
  lemma {:induction false} JoinLength(parts: seq<string>, sep: string)
    ensures parts == [] ==> JoinWith(parts, sep) == []
    ensures parts != [] ==> |JoinWith(parts, sep)| == TotalLength(parts) + (|parts| - 1) * |sep|
  {
    if |parts| > 1 {
      JoinLength(parts[1..], sep);
    }
  }

  /** Every part occurs in the joined string. */
  lemma {:induction false} JoinContainsParts(parts: seq<string>, sep: string)
    ensures forall i :: 0 <= i < |parts| ==> Contains(JoinWith(parts, sep), parts[i])
  {
    if parts != [] {
      var whole := JoinWith(parts, sep);
      if |parts| == 1 {
        ContainsInfix([], parts[0], []);
        assert [] + parts[0] + [] == whole;
      } else {
        var rest := JoinWith(parts[1..], sep);
        JoinContainsParts(parts[1..], sep);
        ContainsInfix([], parts[0], sep + rest);
        assert [] + parts[0] + (sep + rest) == whole;
        ContainsInfix(parts[0] + sep, rest, []);
        assert parts[0] + sep + rest + [] == whole;
        forall i | 1 <= i < |parts| ensures Contains(whole, parts[i]) {
          assert parts[1..][i - 1] == parts[i];
          ContainsTransitive(whole, rest, parts[i]);
        }
      }
    }
  }

  /** Length of the longest prefix of `s` whose characters all satisfy `p`. */
  function LeadingRun(s: string, p: char -> bool): (k: nat)
    ensures k <= |s|
    ensures forall i :: 0 <= i < k ==> p(s[i])
    ensures k < |s| ==> !p(s[k])
  {
    if s != [] && p(s[0]) then 1 + LeadingRun(s[1..], p) else 0
  }

  /** Python's `s.replace(a, b)` for single characters. */
  function ReplaceChar(s: string, a: char, b: char): (r: string)
    ensures |r| == |s|
    ensures a != b ==> a !in r
    ensures forall i :: 0 <= i < |s| && s[i] != a ==> r[i] == s[i]
  {
    seq(|s|, i requires 0 <= i < |s| => if s[i] == a then b else s[i])
  }
}
