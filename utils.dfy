/**
 * Training utilities (src/utils.py): the overall accuracy metric and the
 * mini-batch iterator. The iterator's seeded shuffle is not modelled; the
 * permutation it would draw is an input.
 */
module Utils {
  import opened Common

  // ---------------------------------------------------------------------
  // Accuracy
  // ---------------------------------------------------------------------

  /** How many of the first m positions hold equal labels in a and b. */
  function Hits(a: seq<int>, b: seq<int>, m: nat): (h: nat)
    requires m <= |a| && m <= |b|
    ensures h <= m
  {
    if m == 0 then 0 else Hits(a, b, m - 1) + (if a[m - 1] == b[m - 1] then 1 else 0)
  }

  /** All m positions agree exactly when every one of them is a hit. */
  lemma {:induction false} HitsAll(a: seq<int>, b: seq<int>, m: nat)
    requires m <= |a| && m <= |b|
    ensures Hits(a, b, m) == m <==> forall k :: 0 <= k < m ==> a[k] == b[k]
  {
    if m > 0 {
      HitsAll(a, b, m - 1);
    }
  }

  /** No position agrees exactly when the hit count is zero. */
  lemma {:induction false} HitsNone(a: seq<int>, b: seq<int>, m: nat)
    requires m <= |a| && m <= |b|
    ensures Hits(a, b, m) == 0 <==> forall k :: 0 <= k < m ==> a[k] != b[k]
  {
    if m > 0 {
      HitsNone(a, b, m - 1);
    }
  }

  /**
   * `accuracy(y_pred, y_true)`: the mean of the element-wise equality vector.
   * numpy's mean of an empty vector is NaN, modelled as None.
   */
  function Accuracy(yPred: seq<int>, yTrue: seq<int>): (r: Option<real>)
    requires |yPred| == |yTrue|
    ensures r.None? <==> |yTrue| == 0
    ensures r.Some? ==> r.value == Hits(yTrue, yPred, |yTrue|) as real / |yTrue| as real
    ensures r.Some? ==> 0.0 <= r.value <= 1.0
    ensures r.Some? ==> (r.value == 1.0 <==> forall k :: 0 <= k < |yTrue| ==> yPred[k] == yTrue[k])
    ensures r.Some? ==> (r.value == 0.0 <==> forall k :: 0 <= k < |yTrue| ==> yPred[k] != yTrue[k])
  {
    var n := |yTrue|;
    if n == 0 then None
    else
      var h := Hits(yTrue, yPred, n);
      HitsAll(yTrue, yPred, n);
      HitsNone(yTrue, yPred, n);
      FractionFacts(h, n);
      Some(h as real / n as real)
  }

  /** h / n lies in [0, 1], and is 1 or 0 exactly when h is n or 0. */
  lemma FractionFacts(h: nat, n: nat)
    requires 0 < n && h <= n
    ensures 0.0 <= h as real / n as real <= 1.0
    ensures h as real / n as real == 1.0 <==> h == n
    ensures h as real / n as real == 0.0 <==> h == 0
  {
    var q := h as real / n as real;
    assert q * n as real == h as real;
  }

  // ---------------------------------------------------------------------
  // Mini-batches
  // ---------------------------------------------------------------------

  /** One yielded pair `(X[batch_idx], y[batch_idx])`. */
  datatype Batch<T, L> = Batch(features: seq<T>, labels: seq<L>)

  /** ceil(n / b) for positive b. */
  function CeilDiv(n: nat, b: nat): nat
    requires b > 0
  {
    (n + b - 1) / b
  }

  /** The consecutive chunks of s: each b long, except that the last may be shorter. */
  function Chunks<E>(s: seq<E>, b: nat): seq<seq<E>>
    requires b > 0
    decreases |s|
  {
    if |s| == 0 then []
    else if |s| <= b then [s]
    else [s[..b]] + Chunks(s[b..], b)
  }

  /** The concatenation of a sequence of sequences, in order. */
  function Flatten<E>(ss: seq<seq<E>>): seq<E>
  {
    if ss == [] then [] else ss[0] + Flatten(ss[1..])
  }

  /** The sum of the lengths of a sequence of sequences. */
  function TotalLength<E>(ss: seq<seq<E>>): nat
  {
    if ss == [] then 0 else |ss[0]| + TotalLength(ss[1..])
  }

  /** Euclidean division is determined by its quotient-remainder decomposition. */
  lemma DivUnique(y: int, b: int, q: int, r: int)
    requires b > 0 && 0 <= r < b && y == q * b + r
    ensures y / b == q
  {
    var q', r' := y / b, y % b;
    assert q' * b + r' == y;
    var d := q - q';
    assert d * b == r' - r;
  }

  lemma DivStep(x: nat, b: nat)
    requires b > 0
    ensures (x + b) / b == x / b + 1
  {
    DivUnique(x, b, x / b, x % b);
    DivUnique(x + b, b, x / b + 1, x % b);
  }

  /** There are ceil(n / b) chunks; none when n is 0. */
  lemma {:induction false} ChunksCount<E>(s: seq<E>, b: nat)
    requires b > 0
    ensures |Chunks(s, b)| == CeilDiv(|s|, b)
  {
    if |s| == 0 {
      DivUnique(b - 1, b, 0, b - 1);
    } else if |s| <= b {
      DivUnique(|s| + b - 1, b, 1, |s| - 1);
    } else {
      ChunksCount(s[b..], b);
      DivStep(|s| - 1, b);
    }
  }

  /** Chunk j is the slice s[j*b .. min(|s|, (j+1)*b)]. */
  lemma ChunkAt<E>(s: seq<E>, b: nat, j: nat)
    requires b > 0 && j < |Chunks(s, b)|
    ensures j * b < |s|
    ensures Chunks(s, b)[j] == s[j * b .. Min(|s|, (j + 1) * b)]
  {
    ChunksFromIsRest(s, 0, b);
    assert s[0..] == s;
    ChunksFromAt(s, 0, b, j);
  }

  /** Every chunk but the last holds exactly b rows; the last holds the remaining 1 .. b rows. */
  lemma {:induction false} ChunkSizes<E>(s: seq<E>, b: nat)
    requires b > 0
    ensures var c := Chunks(s, b);
      forall j :: 0 <= j < |c| - 1 ==> |c[j]| == b
    ensures var c := Chunks(s, b);
      |c| > 0 ==> 0 < |c[|c| - 1]| <= b && |c[|c| - 1]| == |s| - b * (|c| - 1)
  {
    if |s| > b {
      ChunkSizes(s[b..], b);
      var c := Chunks(s, b);
      var c' := Chunks(s[b..], b);
      assert c == [s[..b]] + c';
      assert b * (|c| - 1) == b + b * (|c'| - 1);
    }
  }

  /** Concatenating the chunks in order gives back the sequence. */
  lemma {:induction false} ChunksFlatten<E>(s: seq<E>, b: nat)
    requires b > 0
    ensures Flatten(Chunks(s, b)) == s
  {
    if |s| > b {
      ChunksFlatten(s[b..], b);
      var c := Chunks(s, b);
      assert c[1..] == Chunks(s[b..], b);
      assert s == s[..b] + s[b..];
    } else if |s| > 0 {
      assert Flatten(Chunks(s, b)) == s + Flatten([]);
    }
  }

  /** The chunk sizes add up to the length of the sequence. */
  lemma {:induction false} ChunksTotalLength<E>(s: seq<E>, b: nat)
    requires b > 0
    ensures TotalLength(Chunks(s, b)) == |s|
  {
    if |s| > b {
      ChunksTotalLength(s[b..], b);
      assert Chunks(s, b)[1..] == Chunks(s[b..], b);
    } else if |s| > 0 {
      assert Chunks(s, b)[1..] == [];
    }
  }

  /** Chunking a permutation of 0 .. n-1: every row index occurs exactly once over all batches. */
  lemma ChunksCoverOnce(idx: seq<nat>, n: nat, b: nat, x: nat)
    requires b > 0 && IsPermutation(idx, n)
    ensures multiset(Flatten<nat>(Chunks<nat>(idx, b)))[x] == if x < n then 1 else 0
  {
    ChunksFlatten<nat>(idx, b);
    var f := Flatten<nat>(Chunks<nat>(idx, b));
    assert f == idx;
    PermutationMultiplicity(idx, n, x);
  }

  /** Without shuffling, batch j holds the rows j*b .. min(n, (j+1)*b) - 1 in ascending order. */
  lemma UnshuffledChunk(n: nat, b: nat, j: nat)
    requires b > 0 && j < |Chunks(Range(n), b)|
    ensures var c := Chunks(Range(n), b)[j];
      && |c| == Min(n, (j + 1) * b) - j * b
      && forall p :: 0 <= p < |c| ==> c[p] == j * b + p
  {
    ChunkAt(Range(n), b, j);
  }

  /** The index order the iterator slices: the given permutation, or 0 .. n-1 without shuffling. */
  function Order(shuffle: bool, perm: seq<nat>, n: nat): seq<nat>
  {
    if shuffle then perm else Range(n)
  }

  /** The chunks of s from offset start on; none once start has passed the end. */
  function Rest<E>(s: seq<E>, start: nat, b: nat): seq<seq<E>>
    requires b > 0
  {
    if start < |s| then Chunks(s[start..], b) else []
  }

  /** The runs `s[start:start+b]`, `s[start+b:start+2b]`, ... that the iterator slices, up to the end of s. */
  function ChunksFrom<E>(s: seq<E>, start: nat, b: nat): seq<seq<E>>
    requires b > 0
    decreases |s| - start
  {
    if start >= |s| then [] else [s[start..Min(|s|, start + b)]] + ChunksFrom(s, start + b, b)
  }

  /** Slicing from an offset gives the chunks of the remainder. */
  lemma {:induction false} ChunksFromIsRest<E>(s: seq<E>, start: nat, b: nat)
    requires b > 0
    ensures ChunksFrom(s, start, b) == Rest(s, start, b)
    decreases |s| - start
  {
    if start < |s| {
      ChunksFromIsRest(s, start + b, b);
      if start + b >= |s| {
        assert s[start..] == s[start..Min(|s|, start + b)];
      } else {
        assert s[start..][..b] == s[start..Min(|s|, start + b)];
        assert s[start..][b..] == s[start + b..];
      }
    }
  }

  /** Run j sliced from offset start is s[start + j*b .. min(|s|, start + (j+1)*b)]. */
  lemma {:induction false} ChunksFromAt<E>(s: seq<E>, start: nat, b: nat, j: nat)
    requires b > 0 && j < |ChunksFrom(s, start, b)|
    ensures start + j * b < |s|
    ensures ChunksFrom(s, start, b)[j] == s[start + j * b .. Min(|s|, start + (j + 1) * b)]
    decreases j
  {
    if j > 0 {
      ChunksFromAt(s, start + b, b, j - 1);
      assert (j - 1) * b + b == j * b;
      assert j * b + b == (j + 1) * b;
    }
  }

  /** Runs sliced from indices below n hold only indices below n. */
  lemma {:induction false} ChunksFromBelow(s: seq<nat>, start: nat, b: nat, n: nat)
    requires b > 0 && IndicesBelow(s, n)
    ensures forall j :: 0 <= j < |ChunksFrom(s, start, b)| ==> IndicesBelow(ChunksFrom(s, start, b)[j], n)
    decreases |s| - start
  {
    if start < |s| {
      ChunksFromBelow(s, start + b, b, n);
    }
  }

  /** The batches `(X[c], y[c])` for the index chunks c, in order. */
  function BatchesOf<T, L>(X: seq<T>, y: seq<L>, chunks: seq<seq<nat>>): (r: seq<Batch<T, L>>)
    requires forall j :: 0 <= j < |chunks| ==> IndicesBelow(chunks[j], |X|) && IndicesBelow(chunks[j], |y|)
    ensures |r| == |chunks|
  {
    if chunks == [] then []
    else
      var c := chunks[|chunks| - 1];
      BatchesOf(X, y, chunks[..|chunks| - 1]) + [Batch(Gather(X, c), Gather(y, c))]
  }

  /** Batch j is X and y gathered at chunk j. */
  lemma {:induction false} BatchesOfAt<T, L>(X: seq<T>, y: seq<L>, chunks: seq<seq<nat>>)
    requires forall j :: 0 <= j < |chunks| ==> IndicesBelow(chunks[j], |X|) && IndicesBelow(chunks[j], |y|)
    ensures forall j :: 0 <= j < |chunks| ==>
      BatchesOf(X, y, chunks)[j] == Batch(Gather(X, chunks[j]), Gather(y, chunks[j]))
  {
    if chunks != [] {
      BatchesOfAt(X, y, chunks[..|chunks| - 1]);
    }
  }

  /** The loop of `batch_iterator`: slice idx into runs of b and gather each run of X and y. */
  method SliceBatches<T, L>(X: seq<T>, y: seq<L>, idx: seq<nat>, b: nat) returns (batches: seq<Batch<T, L>>)
    requires b > 0 && |X| <= |y| && IndicesBelow(idx, |X|)
    ensures forall j :: 0 <= j < |Chunks(idx, b)| ==> IndicesBelow(Chunks(idx, b)[j], |X|)
    ensures batches == BatchesOf(X, y, Chunks(idx, b))
  {
    var n := |idx|;
    ghost var all := ChunksFrom(idx, 0, b);
    ChunksFromIsRest(idx, 0, b);
    assert idx[0..] == idx;
    ChunksFromBelow(idx, 0, b, |X|);
    ghost var done: seq<seq<nat>> := [];
    batches := [];
    var start := 0;
    while start < n
      invariant done + ChunksFrom(idx, start, b) == all
      invariant forall j :: 0 <= j < |done| ==> IndicesBelow(done[j], |X|)
      invariant batches == BatchesOf(X, y, done)
      decreases n - start
    {
      var stop := Min(n, start + b);
      var batchIdx := idx[start..stop];
      assert (done + [batchIdx]) + ChunksFrom(idx, start + b, b) == done + ChunksFrom(idx, start, b);
      assert all[|done|] == batchIdx;
      batches := batches + [Batch(Gather(X, batchIdx), Gather(y, batchIdx))];
      assert (done + [batchIdx])[..|done|] == done;
      done := done + [batchIdx];
      start := start + b;
    }
    assert done == all;
  }

  /**
   * `batch_iterator(X, y, batch_size, shuffle)`: the batches it yields, in order.
   * `perm` stands for the permutation the seeded generator draws. A negative
   * batch size makes `range(0, N, batch_size)` empty; zero makes it raise,
   * modelled as None.
   */
  method BatchIterator<T, L>(X: seq<T>, y: seq<L>, batchSize: int, shuffle: bool, perm: seq<nat>)
    returns (r: Option<seq<Batch<T, L>>>)
    requires |X| <= |y|
    requires shuffle ==> IsPermutation(perm, |X|)
    ensures r.None? <==> batchSize == 0
    ensures batchSize < 0 ==> r == Some([])
    ensures batchSize > 0 ==> r.Some? && |r.value| == |Chunks(Order(shuffle, perm, |X|), batchSize)|
    ensures batchSize > 0 ==>
      forall j :: 0 <= j < |r.value| ==>
        var c := Chunks(Order(shuffle, perm, |X|), batchSize)[j];
        && (forall k :: 0 <= k < |c| ==> c[k] < |X|)
        && r.value[j] == Batch(Gather(X, c), Gather(y, c))
  {
    var idx := if shuffle then perm else Range(|X|);
    if batchSize == 0 {
      return None;
    }
    if batchSize < 0 {
      return Some([]);
    }
    var batches := SliceBatches(X, y, idx, batchSize);
    BatchesOfAt(X, y, Chunks(idx, batchSize));
    return Some(batches);
  }
}
