/** `evaluate_classifier` and the threshold sweep of `project/src/analysis.py`: class
    decisions from up-probabilities, the confusion counts of a binary classifier, and the
    scikit-learn scores computed from them with `zero_division=0`. */
module Metrics {
  import opened Frames

  /** Labels of the binary up/down target. */
  predicate Binary(y: seq<int>)
  {
    forall i | 0 <= i < |y| :: y[i] == 0 || y[i] == 1
  }

  /** `(proba_up >= thr).astype(int)`. */
  function Decide(proba: seq<real>, thr: real): (r: seq<int>)
    ensures |r| == |proba| && Binary(r)
    ensures forall i | 0 <= i < |proba| :: r[i] == 1 <==> proba[i] >= thr
  {
    seq(|proba|, i requires 0 <= i < |proba| => if proba[i] >= thr then 1 else 0)
  }

  /** Raising the threshold never turns a 0 into a 1. */
  lemma DecideMonotone(proba: seq<real>, lo: real, hi: real)
    requires lo <= hi
    ensures forall i | 0 <= i < |proba| :: Decide(proba, hi)[i] <= Decide(proba, lo)[i]
  {
  }

  /** The number of positions where the truth is `a` and the prediction is `b`. */
  function Count(y: seq<int>, yp: seq<int>, a: int, b: int): (c: nat)
    requires |y| == |yp|
    ensures c <= |y|
  {
    if y == [] then 0 else (if y[0] == a && yp[0] == b then 1 else 0) + Count(y[1..], yp[1..], a, b)
  }

  /** The number of positions where prediction and truth agree. */
  function Matches(y: seq<int>, yp: seq<int>): (c: nat)
    requires |y| == |yp|
    ensures c <= |y|
  {
    if y == [] then 0 else (if y[0] == yp[0] then 1 else 0) + Matches(y[1..], yp[1..])
  }

  function TruePos(y: seq<int>, yp: seq<int>): nat requires |y| == |yp| { Count(y, yp, 1, 1) }
  function FalsePos(y: seq<int>, yp: seq<int>): nat requires |y| == |yp| { Count(y, yp, 0, 1) }
  function FalseNeg(y: seq<int>, yp: seq<int>): nat requires |y| == |yp| { Count(y, yp, 1, 0) }
  function TrueNeg(y: seq<int>, yp: seq<int>): nat requires |y| == |yp| { Count(y, yp, 0, 0) }

  /** On binary labels the four confusion counts partition the rows, and the agreements are
      the true positives plus the true negatives. */
  lemma {:induction false} ConfusionPartition(y: seq<int>, yp: seq<int>)
    requires |y| == |yp| && Binary(y) && Binary(yp)
    ensures TruePos(y, yp) + FalsePos(y, yp) + FalseNeg(y, yp) + TrueNeg(y, yp) == |y|
    ensures Matches(y, yp) == TruePos(y, yp) + TrueNeg(y, yp)
  {
    if y != [] {
      ConfusionPartition(y[1..], yp[1..]);
    }
  }

  /** `num / den`, or the `zero_division` value 0 when `den` is 0. */
  function Ratio(num: nat, den: nat): (r: real)
    ensures 0.0 <= r
    ensures num <= den ==> r <= 1.0
    ensures den == 0 ==> r == 0.0
    ensures den > 0 ==> r * den as real == num as real
  {
    if den == 0 then 0.0 else num as real / den as real
  }

  /** `accuracy_score`: the share of agreeing positions; NaN on empty input. */
  function Accuracy(y: seq<int>, yp: seq<int>): (r: Option<real>)
    requires |y| == |yp|
    ensures r.None? <==> |y| == 0
    ensures r.Some? ==> 0.0 <= r.value <= 1.0 && r.value * |y| as real == Matches(y, yp) as real
  {
    if |y| == 0 then None else Some(Ratio(Matches(y, yp), |y|))
  }

  /** `precision_score(..., zero_division=0)`: tp / (tp + fp). */
  function Precision(y: seq<int>, yp: seq<int>): (r: real)
    requires |y| == |yp|
    ensures 0.0 <= r <= 1.0
    ensures TruePos(y, yp) + FalsePos(y, yp) == 0 ==> r == 0.0
  {
    Ratio(TruePos(y, yp), TruePos(y, yp) + FalsePos(y, yp))
  }

  /** `recall_score(..., zero_division=0)`: tp / (tp + fn). */
  function Recall(y: seq<int>, yp: seq<int>): (r: real)
    requires |y| == |yp|
    ensures 0.0 <= r <= 1.0
    ensures TruePos(y, yp) + FalseNeg(y, yp) == 0 ==> r == 0.0
  {
    Ratio(TruePos(y, yp), TruePos(y, yp) + FalseNeg(y, yp))
  }

  /** `f1_score(..., zero_division=0)`: 2tp / (2tp + fp + fn). */
  function F1(y: seq<int>, yp: seq<int>): (r: real)
    requires |y| == |yp|
    ensures 0.0 <= r <= 1.0
    ensures TruePos(y, yp) == 0 ==> r == 0.0
  {
    Ratio(2 * TruePos(y, yp), 2 * TruePos(y, yp) + FalsePos(y, yp) + FalseNeg(y, yp))
  }

  /** F1 is the harmonic mean of precision and recall, and 0 when both are 0. */
  lemma F1Harmonic(y: seq<int>, yp: seq<int>)
    requires |y| == |yp|
    ensures Precision(y, yp) + Recall(y, yp) == 0.0 ==> F1(y, yp) == 0.0
    ensures Precision(y, yp) + Recall(y, yp) > 0.0 ==>
      F1(y, yp) == 2.0 * Precision(y, yp) * Recall(y, yp) / (Precision(y, yp) + Recall(y, yp))
  {
    var t, fp, fn := TruePos(y, yp), FalsePos(y, yp), FalseNeg(y, yp);
    if t > 0 {
      HarmonicCounts(t, fp, fn, Precision(y, yp), Recall(y, yp), F1(y, yp));
    }
  }

  lemma HarmonicCounts(t: nat, fp: nat, fn: nat, p: real, q: real, f: real)
    requires t > 0 && p == Ratio(t, t + fp) && q == Ratio(t, t + fn) && f == Ratio(2 * t, 2 * t + fp + fn)
    ensures p + q > 0.0 && f == 2.0 * p * q / (p + q)
  {
    var a, b := (t + fp) as real, (t + fn) as real;
    assert p * a == t as real;
    assert q * b == t as real;
    assert f * (a + b) == 2.0 * t as real by {
      assert a + b == (2 * t + fp + fn) as real;
    }
    HarmonicMean(t as real, a, b, p, q, f);
  }

  lemma HarmonicMean(t: real, a: real, b: real, p: real, q: real, f: real)
    requires t > 0.0 && a > 0.0 && b > 0.0 && p * a == t && q * b == t && f * (a + b) == 2.0 * t
    ensures p + q > 0.0
    ensures f == 2.0 * p * q / (p + q)
  {
    assert p > 0.0 && q > 0.0;
    var h := 2.0 * p * q / (p + q);
    assert h * (p + q) == 2.0 * p * q;
    assert (p * q) * a == t * q;
    assert (p * q) * b == t * p;
    assert h * (p + q) * (a + b) == 2.0 * t * (p + q);
    assert h * (a + b) == 2.0 * t;
    assert (h - f) * (a + b) == 0.0;
  }

  /** The distinct labels (`np.unique`). */
  function Unique(y: seq<int>): set<int>
  {
    set i | 0 <= i < |y| :: y[i]
  }

  /** `roc_auc_score(y_true, proba_up)` when there are at least two distinct labels, NaN
      (None) otherwise. The score itself is computed by scikit-learn and comes in as `auc`. */
  function RocAuc(y: seq<int>, proba: seq<real>, auc: (seq<int>, seq<real>) -> real): (r: Option<real>)
    ensures r.Some? ==> r.value == auc(y, proba)
  {
    if |Unique(y)| > 1 then Some(auc(y, proba)) else None
  }

  /** The score is NaN exactly when every label is the same. */
  lemma RocAucNaN(y: seq<int>, proba: seq<real>, auc: (seq<int>, seq<real>) -> real)
    ensures RocAuc(y, proba, auc).None? <==> forall i, j | 0 <= i < |y| && 0 <= j < |y| :: y[i] == y[j]
  {
    var u := Unique(y);
    if exists i, j | 0 <= i < |y| && 0 <= j < |y| :: y[i] != y[j] {
      var i, j :| 0 <= i < |y| && 0 <= j < |y| && y[i] != y[j];
      assert y[j] in u - {y[i]};
      assert |u - {y[i]}| == |u| - 1;
    } else if |y| > 0 {
      assert u == {y[0]};
    } else {
      assert u == {};
    }
  }

  /** The dictionary `evaluate_classifier` returns; NaN entries are None. */
  datatype Scores = Scores(accuracy: Option<real>, precision: real, recall: real, f1: real, rocAuc: Option<real>)

  /** `evaluate_classifier`: the decisions at `thr` scored against the truth. */
  function EvaluateClassifier(y: seq<int>, proba: seq<real>, thr: real, auc: (seq<int>, seq<real>) -> real): (r: Scores)
    requires |y| == |proba|
    ensures r.accuracy.None? <==> |y| == 0
    ensures r.accuracy.Some? ==> 0.0 <= r.accuracy.value <= 1.0
    ensures 0.0 <= r.precision <= 1.0 && 0.0 <= r.recall <= 1.0 && 0.0 <= r.f1 <= 1.0
    ensures r.rocAuc.None? <==> forall i, j | 0 <= i < |y| && 0 <= j < |y| :: y[i] == y[j]
  {
    var yp := Decide(proba, thr);
    RocAucNaN(y, proba, auc);
    Scores(Accuracy(y, yp), Precision(y, yp), Recall(y, yp), F1(y, yp), RocAuc(y, proba, auc))
  }

  /** `np.linspace(a, b, n)`: `n` evenly spaced points from `a` to `b`, both included. */
  function Linspace(a: real, b: real, n: nat): (r: seq<real>)
    ensures |r| == n
    ensures n > 0 ==> r[0] == a
    ensures n > 1 ==> r[n - 1] == b
  {
    if n == 1 then [a]
    else
      var step := (b - a) / (n - 1) as real;
      seq(n, k requires 0 <= k < n => if k == n - 1 then b else a + k as real * step)
  }

  /** Every point but the last is `a` plus a whole number of steps. */
  lemma LinspacePoint(a: real, b: real, n: nat, k: nat)
    requires a < b && 1 < n && k < n - 1
    ensures var step := (b - a) / (n - 1) as real;
      step > 0.0 && (n - 1) as real * step == b - a && Linspace(a, b, n)[k] == a + k as real * step
  {
  }

  /** With `a < b` the points stay within [a, b] ... */
  lemma LinspaceBounds(a: real, b: real, n: nat)
    requires a < b
    ensures forall k | 0 <= k < n :: a <= Linspace(a, b, n)[k] <= b
  {
    if n > 1 {
      forall k | 0 <= k < n - 1 ensures a <= Linspace(a, b, n)[k] < b {
        BelowLast(a, b, n, k);
      }
    }
  }

  /** ... and rise strictly. */
  lemma LinspaceAscending(a: real, b: real, n: nat)
    requires a < b
    ensures forall k, l | 0 <= k < l < n :: Linspace(a, b, n)[k] < Linspace(a, b, n)[l]
  {
    forall k, l | 0 <= k < l < n ensures Linspace(a, b, n)[k] < Linspace(a, b, n)[l] {
      if l < n - 1 {
        BelowPoint(a, b, n, k, l);
      } else {
        BelowLast(a, b, n, k);
      }
    }
  }

  lemma BelowLast(a: real, b: real, n: nat, k: nat)
    requires a < b && 1 < n && k < n - 1
    ensures a <= Linspace(a, b, n)[k] < b
  {
    var step := (b - a) / (n - 1) as real;
    LinspacePoint(a, b, n, k);
    var x, y := k as real * step, (n - 1) as real * step;
    StepBelow(k as real, (n - 1) as real, step);
    assert x < y;
  }

  lemma BelowPoint(a: real, b: real, n: nat, k: nat, l: nat)
    requires a < b && k < l < n - 1
    ensures Linspace(a, b, n)[k] < Linspace(a, b, n)[l]
  {
    var step := (b - a) / (n - 1) as real;
    LinspacePoint(a, b, n, k);
    LinspacePoint(a, b, n, l);
    var x, y := k as real * step, l as real * step;
    StepBelow(k as real, l as real, step);
    assert x < y;
  }

  lemma StepBelow(k: real, l: real, step: real)
    requires 0.0 <= k < l && step > 0.0
    ensures 0.0 <= k * step < l * step
  {
    assert (l - k) * step > 0.0;
  }

  /** The 25 thresholds `run_full_analysis` sweeps. */
  function ThresholdGrid(): (r: seq<real>)
    ensures |r| == 25 && r[0] == 0.2 && r[24] == 0.8
    ensures forall k | 0 <= k < 25 :: 0.2 <= r[k] <= 0.8
  {
    LinspaceBounds(0.2, 0.8, 25);
    Linspace(0.2, 0.8, 25)
  }

  /** The loop of `plot_pred_vs_threshold`: one accuracy and one F1 per threshold, in the
      order of the thresholds. */
  method ThresholdSweep(proba: seq<real>, thresholds: seq<real>, y: seq<int>) returns (accs: seq<Option<real>>, f1s: seq<real>)
    requires |proba| == |y|
    ensures |accs| == |thresholds| && |f1s| == |thresholds|
    ensures forall k | 0 <= k < |thresholds| ::
      accs[k] == Accuracy(y, Decide(proba, thresholds[k])) && f1s[k] == F1(y, Decide(proba, thresholds[k]))
    ensures forall k | 0 <= k < |thresholds| :: 0.0 <= f1s[k] <= 1.0
    ensures forall k | 0 <= k < |thresholds| && accs[k].Some? :: 0.0 <= accs[k].value <= 1.0
  {
    accs, f1s := [], [];
    var k := 0;
    while k < |thresholds|
      invariant 0 <= k <= |thresholds| && |accs| == k && |f1s| == k
      invariant forall j | 0 <= j < k ::
        accs[j] == Accuracy(y, Decide(proba, thresholds[j])) && f1s[j] == F1(y, Decide(proba, thresholds[j]))
    {
      var yp := Decide(proba, thresholds[k]);
      accs := accs + [Accuracy(y, yp)];
      f1s := f1s + [F1(y, yp)];
      k := k + 1;
    }
  }
}
