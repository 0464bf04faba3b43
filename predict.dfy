/**
 * Top-k selection over one row of class probabilities (src/predict.py).
 * Probabilities are modelled as reals. numpy's default argsort is not a
 * stable sort, so the order it gives tied values is not fixed: TopK takes
 * that order as an argument, and everything proved about TopK holds for
 * every order argsort may return.
 */
module Predict {
  import opened Common

  /** What `np.argsort(v)` returns: the positions of v, listed by non-decreasing value. */
  ghost predicate IsArgsort(v: seq<real>, order: seq<nat>)
  {
    && IsPermutation(order, |v|)
    && forall a, b :: 0 <= a < b < |order| ==> v[order[a]] <= v[order[b]]
  }

  /** `s[::-1]`. */
  function Reverse<E>(s: seq<E>): (r: seq<E>)
    ensures |r| == |s|
    ensures forall i :: 0 <= i < |s| ==> r[i] == s[|s| - 1 - i]
  {
    seq(|s|, i requires 0 <= i < |s| => s[|s| - 1 - i])
  }

  /** Every position 0 .. n-1 occurs somewhere in a permutation of them. */
  lemma PermutationCovers(idx: seq<nat>, n: nat, x: nat)
    requires IsPermutation(idx, n) && x < n
    ensures exists p :: 0 <= p < |idx| && idx[p] == x
  {
    PermutationMultiplicity(idx, n, x);
    assert x in multiset(idx);
    assert x in idx;
  }

  /**
   * `topk(probs_row, k)`: the last k positions of the argsort order, taken
   * from the end, each paired with its value. Python's slice rules fix how
   * many: min(k, n) for k >= 0, and n + k (at least 0) for negative k.
   */
  function TopK(v: seq<real>, k: int, order: seq<nat>): (r: seq<(nat, real)>)
    requires IsArgsort(v, order)
    ensures |r| == SliceBound(k, |v|)
    ensures forall i :: 0 <= i < |r| ==> r[i].0 < |v| && r[i].1 == v[r[i].0]
  {
    var idx := Reverse(order)[..SliceBound(k, |v|)];
    seq(|idx|, i requires 0 <= i < |idx| => (idx[i], v[idx[i]]))
  }

  /** For k >= 0, topk returns min(k, n) pairs; k = 3 on a row of 10 classes gives 3. */
  lemma TopKCount(v: seq<real>, k: int, order: seq<nat>)
    requires IsArgsort(v, order) && 0 <= k
    ensures |TopK(v, k, order)| == Min(k, |v|)
  {
  }

  /** The returned positions are distinct. */
  lemma TopKDistinct(v: seq<real>, k: int, order: seq<nat>)
    requires IsArgsort(v, order)
    ensures var r := TopK(v, k, order);
      forall i, j :: 0 <= i < j < |r| ==> r[i].0 != r[j].0
  {
    PermutationDistinct(order, |v|);
    var r := TopK(v, k, order);
    forall i, j | 0 <= i < j < |r|
      ensures r[i].0 != r[j].0
    {
      assert r[i].0 == order[|v| - 1 - i] && r[j].0 == order[|v| - 1 - j];
    }
  }

  /** The returned values never increase along the list. */
  lemma TopKNonIncreasing(v: seq<real>, k: int, order: seq<nat>)
    requires IsArgsort(v, order)
    ensures var r := TopK(v, k, order);
      forall i, j :: 0 <= i < j < |r| ==> r[i].1 >= r[j].1
  {
    var r := TopK(v, k, order);
    forall i, j | 0 <= i < j < |r|
      ensures r[i].1 >= r[j].1
    {
      assert r[i].0 == order[|v| - 1 - i] && r[j].0 == order[|v| - 1 - j];
    }
  }

  /** Every position is returned, or holds a value no larger than any returned value. */
  lemma TopKDominates(v: seq<real>, k: int, order: seq<nat>, x: nat)
    requires IsArgsort(v, order) && x < |v|
    ensures var r := TopK(v, k, order);
      || (exists i :: 0 <= i < |r| && r[i].0 == x)
      || (forall i :: 0 <= i < |r| ==> v[x] <= r[i].1)
  {
    var r := TopK(v, k, order);
    var n := |v|;
    PermutationCovers(order, n, x);
    var p :| 0 <= p < n && order[p] == x;
    if n - 1 - p < |r| {
      assert r[n - 1 - p].0 == x;
    } else {
      forall i | 0 <= i < |r|
        ensures v[x] <= r[i].1
      {
        assert r[i].0 == order[n - 1 - i];
      }
    }
  }

  /** Sorted positions of v: each later position holds a value at least as large. */
  predicate SortedBy(v: seq<real>, s: seq<nat>)
    requires forall k :: 0 <= k < |s| ==> s[k] < |v|
  {
    forall a, b :: 0 <= a < b < |s| ==> v[s[a]] <= v[s[b]]
  }

  /** Insert position x after the trailing positions whose values exceed v[x]. */
  function InsertByValue(v: seq<real>, s: seq<nat>, x: nat): (r: seq<nat>)
    requires IndicesBelow(s, |v|) && x < |v|
    ensures IndicesBelow(r, |v|)
    ensures multiset(r) == multiset(s) + multiset{x}
    ensures |r| == |s| + 1
    ensures r[|r| - 1] == x || (s != [] && r[|r| - 1] == s[|s| - 1])
    decreases |s|
  {
    if s == [] || v[s[|s| - 1]] <= v[x] then s + [x]
    else
      var init, last := s[..|s| - 1], s[|s| - 1];
      assert s == init + [last];
      InsertByValue(v, init, x) + [last]
  }

  /** Inserting into positions sorted by value keeps them sorted. */
  lemma {:induction false} InsertSorted(v: seq<real>, s: seq<nat>, x: nat)
    requires IndicesBelow(s, |v|) && x < |v| && SortedBy(v, s)
    ensures SortedBy(v, InsertByValue(v, s, x))
    decreases |s|
  {
    if s != [] && v[x] < v[s[|s| - 1]] {
      var init, last := s[..|s| - 1], s[|s| - 1];
      InsertSorted(v, init, x);
      var r' := InsertByValue(v, init, x);
      assert InsertByValue(v, s, x) == r' + [last];
      var top := r'[|r'| - 1];
      assert v[top] <= v[last] by {
        if top != x {
          assert top == s[|s| - 2];
        }
      }
      AppendSorted(v, r', last);
    } else {
      AppendSorted(v, s, x);
    }
  }

  /** Appending a position whose value is at least the last one keeps positions sorted. */
  lemma AppendSorted(v: seq<real>, s: seq<nat>, y: nat)
    requires IndicesBelow(s, |v|) && y < |v| && SortedBy(v, s)
    requires s != [] ==> v[s[|s| - 1]] <= v[y]
    ensures SortedBy(v, s + [y])
  {
    var r := s + [y];
    forall a, b | 0 <= a < b < |r|
      ensures v[r[a]] <= v[r[b]]
    {
      if b == |s| {
        assert v[s[a]] <= v[s[|s| - 1]];
      }
    }
  }

  /** Insertion sort of positions by their values. */
  function SortByValue(v: seq<real>, s: seq<nat>): (r: seq<nat>)
    requires IndicesBelow(s, |v|)
    ensures IndicesBelow(r, |v|) && SortedBy(v, r)
    ensures multiset(r) == multiset(s)
  {
    if s == [] then []
    else
      var init, last := s[..|s| - 1], s[|s| - 1];
      assert s == init + [last];
      InsertSorted(v, SortByValue(v, init), last);
      InsertByValue(v, SortByValue(v, init), last)
  }

  /** One order `np.argsort` may return: the stable one. */
  function Argsort(v: seq<real>): (order: seq<nat>)
    ensures IsArgsort(v, order)
  {
    var r := SortByValue(v, Range(|v|));
    assert |r| == |v| by {
      assert |multiset(r)| == |multiset(Range(|v|))|;
    }
    r
  }
}
