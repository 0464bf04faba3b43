/**
 * Shared vocabulary: optional values and results for the error paths,
 * index vectors (numpy's `arange`), permutations of them, and fancy
 * indexing `X[idx]`.
 */
module Common {

  datatype Option<T> = None | Some(value: T)

  datatype Result<T, E> = Ok(value: T) | Err(error: E)

  /** The index vector 0, 1, ..., n-1 (numpy's `np.arange(n)`). */
  function Range(n: nat): (r: seq<nat>)
    ensures |r| == n
    ensures forall i :: 0 <= i < n ==> r[i] == i
  {
    if n == 0 then [] else Range(n - 1) + [n - 1]
  }

  /** Every value 0 .. n-1 occurs in Range(n) exactly once, and nothing else occurs. */
  lemma {:induction false} RangeMultiplicity(n: nat, x: int)
    ensures multiset(Range(n))[x] == if 0 <= x < n then 1 else 0
  {
    if n > 0 {
      var m: nat := n - 1;
      RangeMultiplicity(m, x);
      var r := Range(m);
      assert Range(n) == r + [m];
      assert multiset(r + [m]) == multiset(r) + multiset([m]);
      assert multiset([m])[x] == if x == m then 1 else 0;
    }
  }

  /** `idx` is a rearrangement of 0 .. n-1; what a seeded `rng.shuffle(np.arange(n))` yields. */
  ghost predicate IsPermutation(idx: seq<nat>, n: nat)
  {
    && |idx| == n
    && (forall k :: 0 <= k < |idx| ==> idx[k] < n)
    && multiset(idx) == multiset(Range(n))
  }

  /** The unshuffled index vector is a permutation. */
  lemma RangeIsPermutation(n: nat)
    ensures IsPermutation(Range(n), n)
  {
  }

  /** A permutation never repeats an index. */
  lemma {:induction false} PermutationDistinct(idx: seq<nat>, n: nat)
    requires IsPermutation(idx, n)
    ensures forall a, b :: 0 <= a < b < |idx| ==> idx[a] != idx[b]
  {
    forall a, b | 0 <= a < b < |idx|
      ensures idx[a] != idx[b]
    {
      if idx[a] == idx[b] {
        var x := idx[a];
        assert idx == idx[..b] + idx[b..];
        assert x in multiset(idx[..b]) && x in multiset(idx[b..]);
        assert multiset(idx)[x] == multiset(idx[..b])[x] + multiset(idx[b..])[x];
        RangeMultiplicity(n, x);
        assert false;
      }
    }
  }

  /** Every value 0 .. n-1 occurs exactly once in a permutation. */
  lemma PermutationMultiplicity(idx: seq<nat>, n: nat, x: int)
    requires IsPermutation(idx, n)
    ensures multiset(idx)[x] == if 0 <= x < n then 1 else 0
  {
    RangeMultiplicity(n, x);
  }

  /** Every index in idx is below n, so it picks out a row of an n-row array. */
  predicate IndicesBelow(idx: seq<nat>, n: nat)
  {
    forall k :: 0 <= k < |idx| ==> idx[k] < n
  }

  /** Fancy indexing `X[idx]`: the rows of X picked out by idx, in idx's order. */
  function Gather<T>(X: seq<T>, idx: seq<nat>): (r: seq<T>)
    requires IndicesBelow(idx, |X|)
    ensures |r| == |idx|
    ensures forall k :: 0 <= k < |idx| ==> r[k] == X[idx[k]]
  {
    seq(|idx|, k requires 0 <= k < |idx| => X[idx[k]])
  }

  /**
   * Where Python's `s[:e]` and `s[e:]` cut a sequence of length n: a negative
   * e counts from the end, and both directions clip to the sequence.
   */
  function SliceBound(e: int, n: nat): (b: nat)
    ensures b <= n
  {
    if e < 0 then (if n + e < 0 then 0 else n + e)
    else if e > n then n
    else e
  }

  function Min(a: int, b: int): int
  {
    if a <= b then a else b
  }
}
