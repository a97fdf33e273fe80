/** Sequence operations of the JavaScript standard library: `filter`, and `slice(0, end)`. */
module Seqs {

  /** `s.filter(p)`: the elements satisfying `p`, in their order in `s`. */
  function Filter<T>(s: seq<T>, p: T -> bool): (r: seq<T>)
    ensures |r| <= |s|
    ensures forall x :: x in r ==> x in s && p(x)
  {
    if s == [] then []
    else Filter(s[..|s| - 1], p) + (if p(s[|s| - 1]) then [s[|s| - 1]] else [])
  }

  /** Every element of `s` that satisfies `p` is kept. */
  lemma {:induction false} FilterComplete<T>(s: seq<T>, p: T -> bool, i: nat)
    requires i < |s| && p(s[i])
    ensures s[i] in Filter(s, p)
  {
    if i < |s| - 1 {
      FilterComplete(s[..|s| - 1], p, i);
    }
  }

  /** Filtering one more element of `s` appends it exactly when it satisfies `p`. */
  lemma FilterStep<T>(s: seq<T>, i: nat, p: T -> bool)
    requires i < |s|
    ensures Filter(s[..i + 1], p) == Filter(s[..i], p) + (if p(s[i]) then [s[i]] else [])
  {
    assert s[..i + 1][..i] == s[..i];
  }

  /** `idx` lists, in strictly increasing order, positions of `b` whose elements spell `a`. */
  ghost predicate IsIndexMap<T>(idx: seq<nat>, a: seq<T>, b: seq<T>) {
    && |idx| == |a|
    && (forall k :: 0 <= k < |idx| ==> idx[k] < |b| && a[k] == b[idx[k]])
    && (forall k, l :: 0 <= k < l < |idx| ==> idx[k] < idx[l])
  }

  /** `a` is `b` with some elements left out and the rest in their original order. */
  ghost predicate SubsequenceOf<T>(a: seq<T>, b: seq<T>) {
    exists idx :: IsIndexMap(idx, a, b)
  }

  /** The positions `Filter` keeps. */
  function FilterIndices<T>(s: seq<T>, p: T -> bool): seq<nat> {
    if s == [] then []
    else FilterIndices(s[..|s| - 1], p) + (if p(s[|s| - 1]) then [|s| - 1] else [])
  }

  /** `Filter` keeps exactly the positions satisfying `p`, in increasing order. */
  lemma FilterIndicesCorrect<T>(s: seq<T>, p: T -> bool)
    ensures IsIndexMap(FilterIndices(s, p), Filter(s, p), s)
    ensures forall i :: 0 <= i < |s| && p(s[i]) ==> i in FilterIndices(s, p)
    ensures forall k :: k in FilterIndices(s, p) ==> k < |s| && p(s[k])
  {
    FilterIndicesMap(s, p);
    FilterIndicesComplete(s, p);
    FilterIndicesSound(s, p);
  }

  lemma {:induction false} FilterIndicesMap<T>(s: seq<T>, p: T -> bool)
    ensures IsIndexMap(FilterIndices(s, p), Filter(s, p), s)
  {
    if s != [] {
      var init, last := s[..|s| - 1], |s| - 1;
      FilterIndicesMap(init, p);
      var idx, a := FilterIndices(init, p), Filter(init, p);
      assert forall k :: 0 <= k < |idx| ==> idx[k] < last && s[idx[k]] == init[idx[k]];
      if p(s[last]) {
        IndexMapExtend(idx, a, s, last);
      }
    }
  }

  lemma {:induction false} FilterIndicesComplete<T>(s: seq<T>, p: T -> bool)
    ensures forall i :: 0 <= i < |s| && p(s[i]) ==> i in FilterIndices(s, p)
  {
    if s != [] {
      var init := s[..|s| - 1];
      FilterIndicesComplete(init, p);
      assert forall i :: 0 <= i < |init| ==> s[i] == init[i];
    }
  }

  lemma {:induction false} FilterIndicesSound<T>(s: seq<T>, p: T -> bool)
    ensures forall k :: k in FilterIndices(s, p) ==> k < |s| && p(s[k])
  {
    if s != [] {
      var init := s[..|s| - 1];
      FilterIndicesSound(init, p);
      assert forall i :: 0 <= i < |init| ==> s[i] == init[i];
    }
  }

  /** An index map into `b` extends by a position after all its own. */
  lemma IndexMapExtend<T>(idx: seq<nat>, a: seq<T>, b: seq<T>, j: nat)
    requires j < |b|
    requires |idx| == |a| && forall k :: 0 <= k < |idx| ==> idx[k] < j && a[k] == b[idx[k]]
    requires forall k, l :: 0 <= k < l < |idx| ==> idx[k] < idx[l]
    ensures IsIndexMap(idx + [j], a + [b[j]], b)
  {
  }

  lemma FilterIsSubsequence<T>(s: seq<T>, p: T -> bool)
    ensures SubsequenceOf(Filter(s, p), s)
  {
    FilterIndicesCorrect(s, p);
  }

  /** A prefix of a subsequence is a subsequence. */
  lemma PrefixOfSubsequence<T>(a: seq<T>, a': seq<T>, b: seq<T>)
    requires SubsequenceOf(a, b) && a' <= a
    ensures SubsequenceOf(a', b)
  {
    var idx :| IsIndexMap(idx, a, b);
    assert IsIndexMap(idx[..|a'|], a', b);
  }

  /** Where `slice(0, end)` stops on a sequence of length `len`; a negative `end` counts from the back. */
  function SliceEnd(len: nat, end: int): (e: nat)
    ensures e <= len
    ensures 0 <= end ==> e == if end < len then end else len
    ensures end < 0 ==> e == if len + end < 0 then 0 else len + end
  {
    if end < 0 then (if len + end < 0 then 0 else len + end)
    else if end < len then end
    else len
  }

  /** `s.slice(0, end)`: a prefix of `s`. */
  function JsSlice<T>(s: seq<T>, end: int): (r: seq<T>)
    ensures r <= s && |r| == SliceEnd(|s|, end)
    ensures 0 <= end ==> |r| == if end < |s| then end else |s|
    ensures end < 0 ==> |r| == if |s| + end < 0 then 0 else |s| + end
  {
    s[..SliceEnd(|s|, end)]
  }
}
