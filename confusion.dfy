/**
 * Evaluation reporting (src/confusion.py): the confusion matrix, rows = true
 * class and columns = predicted class, and the per-class accuracy read off
 * it. The matrix is a fresh two-dimensional array filled in place, as in the
 * source; its cells are specified by counting functions over the label
 * vectors, about which the totals, row sums and trace are proved.
 */
module Confusion {
  import opened Common
  import opened Utils

  // ---------------------------------------------------------------------
  // Counting specification over the label vectors
  // ---------------------------------------------------------------------

  /** The number of pairs `zip(y_true, y_pred)` visits: it stops at the shorter vector. */
  function Pairs(yTrue: seq<int>, yPred: seq<int>): nat
  {
    if |yTrue| <= |yPred| then |yTrue| else |yPred|
  }

  /** Every visited label is a valid class index 0 .. n-1. */
  predicate LabelsInRange(yTrue: seq<int>, yPred: seq<int>, n: nat)
  {
    forall k :: 0 <= k < Pairs(yTrue, yPred) ==> 0 <= yTrue[k] < n && 0 <= yPred[k] < n
  }

  /** How many of the first m pairs are (i, j). */
  function Tally(t: seq<int>, p: seq<int>, m: nat, i: int, j: int): nat
    requires m <= |t| && m <= |p|
  {
    if m == 0 then 0
    else Tally(t, p, m - 1, i, j) + (if t[m - 1] == i && p[m - 1] == j then 1 else 0)
  }

  /** How many of the first m true labels are i. */
  function TrueCount(t: seq<int>, m: nat, i: int): nat
    requires m <= |t|
  {
    if m == 0 then 0 else TrueCount(t, m - 1, i) + (if t[m - 1] == i then 1 else 0)
  }

  /** Tally(t, p, m, i, j) summed over the columns j < c. */
  function TallyRow(t: seq<int>, p: seq<int>, m: nat, i: int, c: nat): nat
    requires m <= |t| && m <= |p|
  {
    if c == 0 then 0 else TallyRow(t, p, m, i, c - 1) + Tally(t, p, m, i, c - 1)
  }

  /** TallyRow(t, p, m, i, n) summed over the rows i < r. */
  function TallyTotal(t: seq<int>, p: seq<int>, m: nat, r: nat, n: nat): nat
    requires m <= |t| && m <= |p|
  {
    if r == 0 then 0 else TallyTotal(t, p, m, r - 1, n) + TallyRow(t, p, m, r - 1, n)
  }

  /** The diagonal Tally(t, p, m, i, i) summed over the classes i < r. */
  function TallyTrace(t: seq<int>, p: seq<int>, m: nat, r: nat): nat
    requires m <= |t| && m <= |p|
  {
    if r == 0 then 0 else TallyTrace(t, p, m, r - 1) + Tally(t, p, m, r - 1, r - 1)
  }

  /** Before any pair is counted every row, the total and the trace are zero. */
  lemma {:induction false} EmptyTally(t: seq<int>, p: seq<int>, i: int, r: nat, n: nat)
    ensures TallyRow(t, p, 0, i, n) == 0
    ensures TallyTotal(t, p, 0, r, n) == 0
    ensures TallyTrace(t, p, 0, r) == 0
    decreases r + n
  {
    if n > 0 {
      EmptyTally(t, p, i, 0, n - 1);
    }
    if r > 0 {
      EmptyTally(t, p, r - 1, r - 1, n);
    }
  }

  /** Adding pair m to the count changes row i's sum by one exactly when the pair falls in that row. */
  lemma {:induction false} TallyRowStep(t: seq<int>, p: seq<int>, m: nat, i: int, c: nat)
    requires m < |t| && m < |p|
    ensures TallyRow(t, p, m + 1, i, c)
         == TallyRow(t, p, m, i, c) + (if t[m] == i && 0 <= p[m] < c then 1 else 0)
  {
    if c > 0 {
      TallyRowStep(t, p, m, i, c - 1);
    }
  }

  /** With predictions in 0 .. n-1, row i of the matrix sums to the number of true labels i. */
  lemma {:induction false} RowSumIsTrueCount(t: seq<int>, p: seq<int>, m: nat, i: int, n: nat)
    requires m <= |t| && m <= |p|
    requires forall k :: 0 <= k < m ==> 0 <= p[k] < n
    ensures TallyRow(t, p, m, i, n) == TrueCount(t, m, i)
  {
    if m == 0 {
      EmptyTally(t, p, i, 0, n);
    } else {
      RowSumIsTrueCount(t, p, m - 1, i, n);
      TallyRowStep(t, p, m - 1, i, n);
    }
  }

  /** Adding pair m adds one to the whole matrix exactly when the pair lies inside it. */
  lemma {:induction false} TallyTotalStep(t: seq<int>, p: seq<int>, m: nat, r: nat, n: nat)
    requires m < |t| && m < |p|
    ensures TallyTotal(t, p, m + 1, r, n)
         == TallyTotal(t, p, m, r, n) + (if 0 <= t[m] < r && 0 <= p[m] < n then 1 else 0)
  {
    if r > 0 {
      TallyTotalStep(t, p, m, r - 1, n);
      TallyRowStep(t, p, m, r - 1, n);
    }
  }

  /** With labels in range, the cells add up to the number of pairs counted. */
  lemma {:induction false} TotalIsPairs(t: seq<int>, p: seq<int>, m: nat, n: nat)
    requires m <= |t| && m <= |p|
    requires forall k :: 0 <= k < m ==> 0 <= t[k] < n && 0 <= p[k] < n
    ensures TallyTotal(t, p, m, n, n) == m
  {
    if m == 0 {
      EmptyTally(t, p, 0, n, n);
    } else {
      TotalIsPairs(t, p, m - 1, n);
      TallyTotalStep(t, p, m - 1, n, n);
    }
  }

  /** Adding pair m adds one to the trace exactly when it is a correct prediction inside the matrix. */
  lemma {:induction false} TallyTraceStep(t: seq<int>, p: seq<int>, m: nat, r: nat)
    requires m < |t| && m < |p|
    ensures TallyTrace(t, p, m + 1, r)
         == TallyTrace(t, p, m, r) + (if t[m] == p[m] && 0 <= t[m] < r then 1 else 0)
  {
    if r > 0 {
      TallyTraceStep(t, p, m, r - 1);
    }
  }

  /** With labels in range, the trace counts the correct predictions. */
  lemma {:induction false} TraceIsHits(t: seq<int>, p: seq<int>, m: nat, n: nat)
    requires m <= |t| && m <= |p|
    requires forall k :: 0 <= k < m ==> 0 <= t[k] < n
    ensures TallyTrace(t, p, m, n) == Hits(t, p, m)
  {
    if m == 0 {
      EmptyTally(t, p, 0, n, 0);
    } else {
      TraceIsHits(t, p, m - 1, n);
      TallyTraceStep(t, p, m - 1, n);
    }
  }

  /** The correct predictions of class i never exceed the samples of class i. */
  lemma {:induction false} DiagonalAtMostTrueCount(t: seq<int>, p: seq<int>, m: nat, i: int)
    requires m <= |t| && m <= |p|
    ensures Tally(t, p, m, i, i) <= TrueCount(t, m, i)
  {
    if m > 0 {
      DiagonalAtMostTrueCount(t, p, m - 1, i);
    }
  }

  // ---------------------------------------------------------------------
  // The matrix as an array
  // ---------------------------------------------------------------------

  /** cm[i, 0] + ... + cm[i, c-1]. */
  function RowTotal(cm: array2<int>, i: nat, c: nat): int
    reads cm
    requires i < cm.Length0 && c <= cm.Length1
  {
    if c == 0 then 0 else RowTotal(cm, i, c - 1) + cm[i, c - 1]
  }

  /** The full row sums of rows 0 .. r-1, added up. */
  function GrandTotal(cm: array2<int>, r: nat): int
    reads cm
    requires r <= cm.Length0
  {
    if r == 0 then 0 else GrandTotal(cm, r - 1) + RowTotal(cm, r - 1, cm.Length1)
  }

  /** cm[0, 0] + ... + cm[r-1, r-1]. */
  function Trace(cm: array2<int>, r: nat): int
    reads cm
    requires r <= cm.Length0 && r <= cm.Length1
  {
    if r == 0 then 0 else Trace(cm, r - 1) + cm[r - 1, r - 1]
  }

  /** cm is the n-by-n confusion matrix of the first m pairs. */
  ghost predicate Holds(cm: array2<int>, t: seq<int>, p: seq<int>, m: nat, n: nat)
    reads cm
    requires m <= |t| && m <= |p|
  {
    && cm.Length0 == n && cm.Length1 == n
    && forall i, j :: 0 <= i < n && 0 <= j < n ==> cm[i, j] == Tally(t, p, m, i, j)
  }

  lemma {:induction false} RowTotalAgrees(cm: array2<int>, t: seq<int>, p: seq<int>, m: nat, n: nat, i: nat, c: nat)
    requires m <= |t| && m <= |p| && Holds(cm, t, p, m, n) && i < n && c <= n
    ensures RowTotal(cm, i, c) == TallyRow(t, p, m, i, c)
  {
    if c > 0 {
      RowTotalAgrees(cm, t, p, m, n, i, c - 1);
    }
  }

  lemma {:induction false} GrandTotalAgrees(cm: array2<int>, t: seq<int>, p: seq<int>, m: nat, n: nat, r: nat)
    requires m <= |t| && m <= |p| && Holds(cm, t, p, m, n) && r <= n
    ensures GrandTotal(cm, r) == TallyTotal(t, p, m, r, n)
  {
    if r > 0 {
      GrandTotalAgrees(cm, t, p, m, n, r - 1);
      RowTotalAgrees(cm, t, p, m, n, r - 1, n);
    }
  }

  lemma {:induction false} TraceAgrees(cm: array2<int>, t: seq<int>, p: seq<int>, m: nat, n: nat, r: nat)
    requires m <= |t| && m <= |p| && Holds(cm, t, p, m, n) && r <= n
    ensures Trace(cm, r) == TallyTrace(t, p, m, r)
  {
    if r > 0 {
      TraceAgrees(cm, t, p, m, n, r - 1);
    }
  }

  /**
   * `confusion_matrix(y_true, y_pred, num_classes)`: cell (i, j) counts the
   * visited positions whose true label is i and predicted label is j; so each
   * row sums to the count of its true class, all cells to the number of pairs,
   * and the diagonal to the number of correct predictions.
   */
  method ConfusionMatrix(yTrue: seq<int>, yPred: seq<int>, numClasses: nat) returns (cm: array2<int>)
    requires LabelsInRange(yTrue, yPred, numClasses)
    ensures fresh(cm)
    ensures cm.Length0 == numClasses && cm.Length1 == numClasses
    ensures forall i, j :: 0 <= i < numClasses && 0 <= j < numClasses ==>
      cm[i, j] == Tally(yTrue, yPred, Pairs(yTrue, yPred), i, j)
    ensures Pairs(yTrue, yPred) == 0 ==>
      forall i, j :: 0 <= i < numClasses && 0 <= j < numClasses ==> cm[i, j] == 0
    ensures forall i :: 0 <= i < numClasses ==>
      RowTotal(cm, i, numClasses) == TrueCount(yTrue, Pairs(yTrue, yPred), i)
    ensures GrandTotal(cm, numClasses) == Pairs(yTrue, yPred)
    ensures Trace(cm, numClasses) == Hits(yTrue, yPred, Pairs(yTrue, yPred))
  {
    var n := numClasses;
    cm := new int[n, n]((i, j) => 0);
    var m := Pairs(yTrue, yPred);
    for k := 0 to m
      invariant Holds(cm, yTrue, yPred, k, n)
    {
      var t, p := yTrue[k], yPred[k];
      cm[t, p] := cm[t, p] + 1;
    }
    forall i | 0 <= i < n
      ensures RowTotal(cm, i, n) == TrueCount(yTrue, m, i)
    {
      RowTotalAgrees(cm, yTrue, yPred, m, n, i, n);
      RowSumIsTrueCount(yTrue, yPred, m, i, n);
    }
    GrandTotalAgrees(cm, yTrue, yPred, m, n, n);
    TotalIsPairs(yTrue, yPred, m, n);
    TraceAgrees(cm, yTrue, yPred, m, n, n);
    TraceIsHits(yTrue, yPred, m, n);
  }

  // ---------------------------------------------------------------------
  // Per-class accuracy
  // ---------------------------------------------------------------------

  /**
   * Row i can be scored: the diagonal cell is read only when the row sum is
   * positive, so a row with no diagonal cell (i past the last column) must
   * not have a positive sum.
   */
  predicate Scorable(cm: array2<int>, i: nat)
    reads cm
    requires i < cm.Length0
  {
    cm.Length1 <= i ==> RowTotal(cm, i, cm.Length1) <= 0
  }

  /** Accuracy of true class i: the diagonal cell over its row sum, 0 for a row whose sum is not positive. */
  function ClassAccuracy(cm: array2<int>, i: nat): real
    reads cm
    requires i < cm.Length0 && Scorable(cm, i)
  {
    var total := RowTotal(cm, i, cm.Length1);
    if total > 0 then cm[i, i] as real / total as real else 0.0
  }

  /** A matrix of counts: no cell is negative. */
  ghost predicate NonNegative(cm: array2<int>)
    reads cm
  {
    forall i, j :: 0 <= i < cm.Length0 && 0 <= j < cm.Length1 ==> cm[i, j] >= 0
  }

  /** In a matrix of counts a diagonal cell is at most its row sum. */
  lemma {:induction false} DiagonalWithinRow(cm: array2<int>, i: nat, c: nat)
    requires NonNegative(cm) && i < cm.Length0 && i < c <= cm.Length1
    ensures 0 <= cm[i, i] <= RowTotal(cm, i, c)
  {
    if c - 1 > i {
      DiagonalWithinRow(cm, i, c - 1);
    } else {
      RowTotalNonNegative(cm, i, c - 1);
    }
  }

  lemma {:induction false} RowTotalNonNegative(cm: array2<int>, i: nat, c: nat)
    requires NonNegative(cm) && i < cm.Length0 && c <= cm.Length1
    ensures RowTotal(cm, i, c) >= 0
  {
    if c > 0 {
      RowTotalNonNegative(cm, i, c - 1);
    }
  }

  /** For a matrix of counts every per-class accuracy lies in [0, 1]. */
  lemma ClassAccuracyBounds(cm: array2<int>, i: nat)
    requires NonNegative(cm) && i < cm.Length0 && Scorable(cm, i)
    ensures 0.0 <= ClassAccuracy(cm, i) <= 1.0
  {
    var total := RowTotal(cm, i, cm.Length1);
    if total > 0 {
      DiagonalWithinRow(cm, i, cm.Length1);
      FractionFacts(cm[i, i], total);
    }
  }

  /**
   * On the matrix of label vectors, the accuracy of class i is its recall: the
   * correct predictions of class i over the samples of class i, or 0 if it has none.
   */
  lemma ClassAccuracyIsRecall(cm: array2<int>, yTrue: seq<int>, yPred: seq<int>, n: nat, i: nat)
    requires LabelsInRange(yTrue, yPred, n)
    requires Holds(cm, yTrue, yPred, Pairs(yTrue, yPred), n) && i < n
    ensures var m := Pairs(yTrue, yPred);
      ClassAccuracy(cm, i)
      == if TrueCount(yTrue, m, i) > 0
         then Tally(yTrue, yPred, m, i, i) as real / TrueCount(yTrue, m, i) as real
         else 0.0
  {
    var m := Pairs(yTrue, yPred);
    RowTotalAgrees(cm, yTrue, yPred, m, n, i, n);
    RowSumIsTrueCount(yTrue, yPred, m, i, n);
  }

  /**
   * `per_class_accuracy(cm)`: a new array with one entry per row, ClassAccuracy
   * of that row, in [0, 1] when cm holds counts. cm is only read. The matrix
   * need not be square; only a row with a positive sum needs its diagonal cell.
   */
  method PerClassAccuracy(cm: array2<int>) returns (acc: array<real>)
    requires forall i :: 0 <= i < cm.Length0 ==> Scorable(cm, i)
    ensures fresh(acc)
    ensures acc.Length == cm.Length0
    ensures forall i :: 0 <= i < cm.Length0 ==> acc[i] == ClassAccuracy(cm, i)
    ensures NonNegative(cm) ==> forall i :: 0 <= i < acc.Length ==> 0.0 <= acc[i] <= 1.0
  {
    var rows := cm.Length0;
    acc := new real[rows](i => 0.0);
    for i := 0 to rows
      invariant forall k :: 0 <= k < i ==> acc[k] == ClassAccuracy(cm, k)
    {
      var rowSum := RowTotal(cm, i, cm.Length1);
      assert Scorable(cm, i);
      acc[i] := if rowSum > 0 then cm[i, i] as real / rowSum as real else 0.0;
    }
    if NonNegative(cm) {
      forall i | 0 <= i < rows
        ensures 0.0 <= acc[i] <= 1.0
      {
        ClassAccuracyBounds(cm, i);
      }
    }
  }

  /**
   * The overall accuracy the report prints (`(y_pred == y_test).mean()`) is the
   * matrix trace over the matrix total.
   */
  lemma OverallAccuracyFromMatrix(cm: array2<int>, yTrue: seq<int>, yPred: seq<int>, n: nat)
    requires |yTrue| == |yPred| > 0
    requires LabelsInRange(yTrue, yPred, n)
    requires Holds(cm, yTrue, yPred, |yTrue|, n)
    ensures GrandTotal(cm, n) == |yTrue|
    ensures Accuracy(yPred, yTrue) == Some(Trace(cm, n) as real / GrandTotal(cm, n) as real)
  {
    var m := |yTrue|;
    GrandTotalAgrees(cm, yTrue, yPred, m, n, n);
    TotalIsPairs(yTrue, yPred, m, n);
    TraceAgrees(cm, yTrue, yPred, m, n, n);
    TraceIsHits(yTrue, yPred, m, n);
  }
}
