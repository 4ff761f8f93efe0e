/** `Array.prototype.filter`, as the catalog handlers use it: a new array
    holding, in their original order, the elements the callback keeps. */
module Seqs {

  /** The elements of `s` for which `keep` holds, in the order of `s`. */
  function Filter<T(!new)>(s: seq<T>, keep: T -> bool): (r: seq<T>)
    ensures |r| <= |s|
    ensures forall i :: 0 <= i < |r| ==> keep(r[i])
    ensures (forall i :: 0 <= i < |s| ==> keep(s[i])) ==> r == s
    decreases |s|
  {
    if s == [] then []
    else
      var init := s[..|s| - 1];
      assert s == init + [s[|s| - 1]];
      var kept := Filter(init, keep);
      if keep(s[|s| - 1]) then kept + [s[|s| - 1]] else kept
  }

  /** The positions of `s` that `Filter` keeps, in increasing order. */
  ghost function KeptIndices<T(!new)>(s: seq<T>, keep: T -> bool): seq<int>
    decreases |s|
  {
    if s == [] then []
    else
      var kept := KeptIndices(s[..|s| - 1], keep);
      if keep(s[|s| - 1]) then kept + [|s| - 1] else kept
  }

  /** `r` is `s` read at the strictly increasing positions `idx`: the
      elements of `r` occur in `s`, in the same relative order. */
  ghost predicate SelectsPositions<T>(s: seq<T>, idx: seq<int>, r: seq<T>)
  {
    && |idx| == |r|
    && (forall k :: 0 <= k < |idx| ==> 0 <= idx[k] < |s| && r[k] == s[idx[k]])
    && (forall k, l :: 0 <= k < l < |idx| ==> idx[k] < idx[l])
  }

  /** The positions `KeptIndices` lists are in range, strictly increasing,
      and exactly the positions whose element `keep` accepts. */
  lemma {:induction false} KeptIndicesExact<T(!new)>(s: seq<T>, keep: T -> bool)
    ensures forall k :: 0 <= k < |KeptIndices(s, keep)| ==> 0 <= KeptIndices(s, keep)[k] < |s|
    ensures forall k, l :: 0 <= k < l < |KeptIndices(s, keep)| ==> KeptIndices(s, keep)[k] < KeptIndices(s, keep)[l]
    ensures forall i :: 0 <= i < |s| ==> (keep(s[i]) <==> i in KeptIndices(s, keep))
    decreases |s|
  {
    if s != [] {
      var n := |s| - 1;
      KeptIndicesExact(s[..n], keep);
      assert forall i :: 0 <= i < n ==> s[..n][i] == s[i];
    }
  }

  /** `Filter` keeps exactly the positions where `keep` holds and does not
      reorder them: its result is `s` read at a strictly increasing list of
      positions, and that list holds every position whose element is kept. */
  lemma {:induction false} FilterKeepsOrder<T(!new)>(s: seq<T>, keep: T -> bool)
    ensures SelectsPositions(s, KeptIndices(s, keep), Filter(s, keep))
    ensures forall i :: 0 <= i < |s| ==> (keep(s[i]) <==> i in KeptIndices(s, keep))
    decreases |s|
  {
    KeptIndicesExact(s, keep);
    if s != [] {
      var n := |s| - 1;
      var init := s[..n];
      FilterKeepsOrder(init, keep);
      var idx0, r0 := KeptIndices(init, keep), Filter(init, keep);
      var idx, r := KeptIndices(s, keep), Filter(s, keep);
      assert |idx| == |r|;
      forall k | 0 <= k < |idx| ensures r[k] == s[idx[k]] {
        if k < |idx0| {
          assert idx[k] == idx0[k] && r[k] == r0[k];
          assert init[idx0[k]] == s[idx0[k]];
        }
      }
    }
  }

  /** An element is in the filtered sequence exactly when it is in `s`
      and `keep` accepts it. */
  lemma FilterMembers<T(!new)>(s: seq<T>, keep: T -> bool, x: T)
    ensures x in Filter(s, keep) <==> x in s && keep(x)
  {
    FilterKeepsOrder(s, keep);
    var idx, r := KeptIndices(s, keep), Filter(s, keep);
    if x in r {
      var k :| 0 <= k < |r| && r[k] == x;
      assert s[idx[k]] == x;
    }
    if x in s && keep(x) {
      var i :| 0 <= i < |s| && s[i] == x;
      var k :| 0 <= k < |idx| && idx[k] == i;
      assert r[k] == x;
    }
  }

  /** Appending an element and filtering is filtering and then appending the
      element if it is kept. */
  lemma FilterAppend<T(!new)>(s: seq<T>, x: T, keep: T -> bool)
    ensures Filter(s + [x], keep) == if keep(x) then Filter(s, keep) + [x] else Filter(s, keep)
  {
    assert (s + [x])[..|s + [x]| - 1] == s;
  }
}
