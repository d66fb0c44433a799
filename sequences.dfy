/** Order-preserving filtering, shared by the index build and the retrieval join. */
module Sequences {
  /** The elements of `s` that satisfy `p`, in their order: a list comprehension with a guard. */
  function Filter<T>(s: seq<T>, p: T -> bool): (r: seq<T>)
    ensures |r| <= |s|
  {
    if s == [] then [] else Filter(s[..|s| - 1], p) + (if p(s[|s| - 1]) then [s[|s| - 1]] else [])
  }

  /** The indices of the elements `Filter` keeps. */
  function Positions<T>(s: seq<T>, p: T -> bool): seq<nat> {
    if s == [] then [] else Positions(s[..|s| - 1], p) + (if p(s[|s| - 1]) then [|s| - 1] else [])
  }

  predicate StrictlyIncreasing(xs: seq<nat>) {
    forall i, j :: 0 <= i < j < |xs| ==> xs[i] < xs[j]
  }

  /** `Filter` keeps exactly the elements that satisfy `p`, each once, in their original
      order: the i-th kept element is `s[pos[i]]` for strictly increasing positions
      `pos`, and every position whose element satisfies `p` is among them. */
  lemma {:induction false} FilterPositions<T>(s: seq<T>, p: T -> bool)
    ensures var r := Filter(s, p);
            var pos := Positions(s, p);
            && |pos| == |r|
            && StrictlyIncreasing(pos)
            && (forall i :: 0 <= i < |pos| ==> pos[i] < |s| && r[i] == s[pos[i]] && p(s[pos[i]]))
            && (forall j :: 0 <= j < |s| && p(s[j]) ==> j in pos)
    decreases |s|
  {
    if s != [] {
      var init := s[..|s| - 1];
      FilterPositions(init, p);
      assert forall j :: 0 <= j < |init| ==> init[j] == s[j];
    }
  }
}
