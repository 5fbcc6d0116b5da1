/** The series operations `project/src/features.py` builds its indicators from: shifts and
    differences, trailing rolling windows (`rolling(w).mean()` and `rolling(w).std()`, whose
    `min_periods` defaults to the window), the exponentially weighted mean with
    `adjust=False`, and Wilder's RSI on top of it. A series is a `seq<Option<real>>`
    whose `None` cells are NaN. */
module Indicators {
  import opened Frames
  import opened Stats

  // Elementwise arithmetic

  function Sub(a: Option<real>, b: Option<real>): Option<real>
  {
    if a.Some? && b.Some? then Some(a.value - b.value) else None
  }

  function Mul(a: Option<real>, b: Option<real>): Option<real>
  {
    if a.Some? && b.Some? then Some(a.value * b.value) else None
  }

  /** `a / b`: NaN when either side is NaN or for 0/0; a non-zero value over 0 is an
      infinity in pandas, which this model also treats as missing. */
  function Div(a: Option<real>, b: Option<real>): Option<real>
  {
    if a.Some? && b.Some? && b.value != 0.0 then Some(a.value / b.value) else None
  }

  /** `shift(1)`: every value moves one row down and row 0 becomes NaN. */
  function Shift(xs: seq<Option<real>>): (r: seq<Option<real>>)
    ensures |r| == |xs|
    ensures |xs| > 0 ==> r[0].None?
    ensures forall i | 0 < i < |xs| :: r[i] == xs[i - 1]
  {
    if xs == [] then [] else [None] + xs[..|xs| - 1]
  }

  /** `diff()`: each value minus the one above it; row 0 is NaN. */
  function Diff(xs: seq<Option<real>>): (r: seq<Option<real>>)
    ensures |r| == |xs|
    ensures |xs| > 0 ==> r[0].None?
    ensures forall i | 0 < i < |xs| :: r[i] == Sub(xs[i], Shift(xs)[i])
  {
    seq(|xs|, i requires 0 <= i < |xs| => if i == 0 then None else Sub(xs[i], xs[i - 1]))
  }

  // Trailing rolling windows

  predicate Full(win: seq<Option<real>>)
  {
    forall k | 0 <= k < |win| :: win[k].Some?
  }

  /** The `w` cells ending at row `i`. */
  function Window(xs: seq<Option<real>>, i: nat, w: nat): (r: seq<Option<real>>)
    requires 0 < w <= i + 1 <= |xs|
    ensures |r| == w && forall k | 0 <= k < w :: r[k] == xs[i + 1 - w + k]
  {
    xs[i + 1 - w .. i + 1]
  }

  /** Row `i` has a complete window: at least `w` rows so far and none of the last `w`
      missing (`min_periods` equals the window). */
  predicate Ready(xs: seq<Option<real>>, i: nat, w: nat)
    requires i < |xs|
  {
    0 < w <= i + 1 && Full(Window(xs, i, w))
  }

  /** The values of a complete window. */
  function WindowValues(xs: seq<Option<real>>, i: nat, w: nat): (s: seq<real>)
    requires i < |xs| && Ready(xs, i, w)
    ensures |s| == w && forall k | 0 <= k < w :: Some(s[k]) == xs[i + 1 - w + k]
  {
    var win := Window(xs, i, w);
    DefinedAll(win);
    Defined(win)
  }

  /** `rolling(w).mean()`. */
  function RollingMean(xs: seq<Option<real>>, w: nat): (r: seq<Option<real>>)
    requires w > 0
    ensures |r| == |xs|
    ensures forall i | 0 <= i < |xs| :: r[i].Some? <==> Ready(xs, i, w)
    ensures forall i | 0 <= i < |xs| && i + 1 < w :: r[i].None?
  {
    seq(|xs|, i requires 0 <= i < |xs| => if Ready(xs, i, w) then Some(Mean(WindowValues(xs, i, w))) else None)
  }

  lemma RollingMeanAt(xs: seq<Option<real>>, w: nat, i: nat)
    requires w > 0 && i < |xs| && Ready(xs, i, w)
    ensures RollingMean(xs, w)[i] == Some(Mean(WindowValues(xs, i, w)))
  {
  }

  /** The reference the rolling algorithm follows: a window mean is the difference of two
      prefix sums over the window length. */
  lemma RollingMeanPrefix(xs: seq<Option<real>>, ys: seq<real>, w: nat, i: nat)
    requires |ys| == |xs| && forall k | 0 <= k < |xs| :: xs[k] == Some(ys[k])
    requires 0 < w <= i + 1 <= |xs|
    ensures RollingMean(xs, w)[i] == Some((Sum(ys[..i + 1]) - Sum(ys[..i + 1 - w])) / w as real)
  {
    assert Ready(xs, i, w);
    var s := WindowValues(xs, i, w);
    assert s == ys[i + 1 - w .. i + 1];
    assert ys[..i + 1] == ys[..i + 1 - w] + s;
    SumConcat(ys[..i + 1 - w], s);
  }

  /** Once the window is full of one value `c`, the rolling mean is `c`. */
  lemma RollingMeanConstant(xs: seq<Option<real>>, c: real, w: nat, i: nat)
    requires 0 < w <= i + 1 <= |xs|
    requires forall k | i + 1 - w <= k <= i :: xs[k] == Some(c)
    ensures RollingMean(xs, w)[i] == Some(c)
  {
    assert Ready(xs, i, w);
    MeanConstant(WindowValues(xs, i, w), c);
  }

  /** The sample standard deviation (ddof=1) of at least two values: non-negative, and 0
      exactly when the values are all equal. */
  function SampleStd(s: seq<real>, sqrt: real -> real): (r: real)
    requires |s| > 1 && IsSqrt(sqrt)
    ensures r >= 0.0 && (r == 0.0 <==> Constant(s))
  {
    VarianceZeroIffConstant(s);
    SqrtZero(sqrt, SampleVariance(s));
    sqrt(SampleVariance(s))
  }

  /** `rolling(w).std()` with its default ddof=1. */
  function RollingStd(xs: seq<Option<real>>, w: nat, sqrt: real -> real): (r: seq<Option<real>>)
    requires w > 1 && IsSqrt(sqrt)
    ensures |r| == |xs|
    ensures forall i | 0 <= i < |xs| :: r[i].Some? <==> Ready(xs, i, w)
    ensures forall i | 0 <= i < |xs| && i + 1 < w :: r[i].None?
    ensures forall i | 0 <= i < |xs| && r[i].Some? ::
      r[i].value >= 0.0 && (r[i].value == 0.0 <==> Constant(WindowValues(xs, i, w)))
  {
    seq(|xs|, i requires 0 <= i < |xs| => if Ready(xs, i, w) then Some(SampleStd(WindowValues(xs, i, w), sqrt)) else None)
  }

  lemma RollingStdAt(xs: seq<Option<real>>, w: nat, sqrt: real -> real, i: nat)
    requires w > 1 && IsSqrt(sqrt) && i < |xs| && Ready(xs, i, w)
    ensures RollingStd(xs, w, sqrt)[i] == Some(SampleStd(WindowValues(xs, i, w), sqrt))
    ensures SampleStd(WindowValues(xs, i, w), sqrt) == 0.0 <==> Constant(WindowValues(xs, i, w))
  {
  }

  // Exponentially weighted mean with adjust=False

  /** The running state of pandas' `ewm(...).mean()` kernel: the current weighted value
      (NaN until the first observation), the weight the old value carries, and how many
      observations have been seen. */
  datatype EwmState = EwmState(weighted: Option<real>, oldWeight: real, seen: nat)

  predicate Smoothing(alpha: real)
  {
    0.0 < alpha <= 1.0
  }

  lemma NonNegProduct(a: real, b: real)
    requires a >= 0.0 && b >= 0.0
    ensures a * b >= 0.0
  {
  }

  /** The old weight after one more row. */
  function Decay(oldWeight: real, alpha: real): (w: real)
    requires oldWeight >= 0.0 && Smoothing(alpha)
    ensures w >= 0.0
  {
    NonNegProduct(oldWeight, 1.0 - alpha);
    oldWeight * (1.0 - alpha)
  }

  /** The old value and the new observation averaged with weights `w` and `a`. */
  function Blend(w: real, m: real, a: real, x: real): real
    requires w >= 0.0 && a > 0.0
  {
    (w * m + a * x) / (w + a)
  }

  /** One input of the `adjust=False` kernel with `ignore_na=False`: once there is a value,
      every row, missing or not, decays the old weight by `1 - alpha`; an observation is
      then averaged in with weight `alpha` and resets the old weight to 1. (The kernel skips
      the average when the observation equals the current value, which gives the same
      value.) */
  function EwmStep(s: EwmState, x: Option<real>, alpha: real): (t: EwmState)
    requires Smoothing(alpha) && s.oldWeight >= 0.0
    ensures t.oldWeight >= 0.0
    ensures t.seen == s.seen + (if x.Some? then 1 else 0)
    ensures t.weighted.Some? <==> s.weighted.Some? || x.Some?
  {
    if s.weighted.Some? then
      var w := Decay(s.oldWeight, alpha);
      if x.Some? then EwmState(Some(Blend(w, s.weighted.value, alpha, x.value)), 1.0, s.seen + 1)
      else EwmState(s.weighted, w, s.seen)
    else if x.Some? then EwmState(x, s.oldWeight, s.seen + 1)
    else s
  }

  /** The state after the inputs `xs`, from the initial state. */
  function EwmAfter(xs: seq<Option<real>>, alpha: real): (t: EwmState)
    requires Smoothing(alpha)
    ensures t.oldWeight >= 0.0
    decreases |xs|
  {
    if xs == [] then EwmState(None, 1.0, 0)
    else EwmStep(EwmAfter(xs[..|xs| - 1], alpha), xs[|xs| - 1], alpha)
  }

  lemma EwmAfterSnoc(xs: seq<Option<real>>, alpha: real, i: nat)
    requires Smoothing(alpha) && i < |xs|
    ensures EwmAfter(xs[..i + 1], alpha) == EwmStep(EwmAfter(xs[..i], alpha), xs[i], alpha)
  {
    assert xs[..i + 1][..i] == xs[..i];
  }

  /** `ewm(alpha=alpha, adjust=False, min_periods=minp).mean()`: the weighted value once at
      least `minp` observations have been seen. */
  function Ewm(xs: seq<Option<real>>, alpha: real, minp: nat): (r: seq<Option<real>>)
    requires Smoothing(alpha)
    ensures |r| == |xs|
  {
    seq(|xs|, i requires 0 <= i < |xs| =>
      var s := EwmAfter(xs[..i + 1], alpha);
      if s.seen >= minp then s.weighted else None)
  }

  /** Without `min_periods` the average starts at the first value. */
  lemma EwmFirst(xs: seq<Option<real>>, alpha: real)
    requires Smoothing(alpha) && |xs| > 0
    ensures Ewm(xs, alpha, 0)[0] == xs[0]
  {
    EwmAfterSnoc(xs, alpha, 0);
    assert xs[..0] == [];
  }

  /** `ewm(span=n, adjust=False)` uses `alpha = 2 / (n + 1)`. */
  function SpanAlpha(span: nat): (alpha: real)
    requires span >= 1
    ensures Smoothing(alpha)
  {
    2.0 / (span as real + 1.0)
  }

  /** Over a run with no missing value the old weight stays 1 and the count is the length. */
  lemma {:induction false} EwmAfterFull(xs: seq<Option<real>>, alpha: real, n: nat)
    requires Smoothing(alpha) && 0 < n <= |xs| && Full(xs[..n])
    ensures EwmAfter(xs[..n], alpha).weighted.Some?
    ensures EwmAfter(xs[..n], alpha).oldWeight == 1.0
    ensures EwmAfter(xs[..n], alpha).seen == n
  {
    EwmAfterSnoc(xs, alpha, n - 1);
    assert xs[..n][n - 1] == xs[n - 1];
    if n > 1 {
      var init := xs[..n - 1];
      assert Full(init) by {
        forall k | 0 <= k < |init| ensures init[k].Some? { assert xs[..n][k] == xs[k]; }
      }
      EwmAfterFull(xs, alpha, n - 1);
    } else {
      assert xs[..0] == [];
    }
  }

  /** The textbook smoothing step: `alpha` of the new value and `1 - alpha` of the old. */
  function Smooth(alpha: real, x: real, m: real): real
  {
    alpha * x + (1.0 - alpha) * m
  }

  /** An observation after a gap-free run: the old weight is `1 - alpha`, so the division
      is by 1. */
  lemma StepAfterFull(s: EwmState, x: real, alpha: real)
    requires Smoothing(alpha) && s.weighted.Some? && s.oldWeight == 1.0
    ensures EwmStep(s, Some(x), alpha).weighted == Some(Smooth(alpha, x, s.weighted.value))
  {
    var w := Decay(s.oldWeight, alpha);
    assert EwmStep(s, Some(x), alpha) == EwmState(Some(Blend(w, s.weighted.value, alpha, x)), 1.0, s.seen + 1);
    assert w == 1.0 - alpha;
    UnitWeights(w, s.weighted.value, alpha, x);
  }

  lemma UnitWeights(w: real, m: real, alpha: real, x: real)
    requires Smoothing(alpha) && w == 1.0 - alpha
    ensures Blend(w, m, alpha, x) == Smooth(alpha, x, m)
  {
    var p := w * m + alpha * x;
    assert w + alpha == 1.0;
    assert p / 1.0 == p;
  }

  /** The textbook recurrence: on a series without gaps `ema[0] = x[0]` and
      `ema[t] = alpha * x[t] + (1 - alpha) * ema[t - 1]`. */
  lemma EwmRecurrence(xs: seq<Option<real>>, alpha: real, t: nat)
    requires Smoothing(alpha) && Full(xs) && t < |xs|
    ensures Ewm(xs, alpha, 0)[t].Some?
    ensures t == 0 ==> Ewm(xs, alpha, 0)[t] == xs[0]
    ensures t > 0 ==>
      Ewm(xs, alpha, 0)[t].value == Smooth(alpha, xs[t].value, Ewm(xs, alpha, 0)[t - 1].value)
  {
    var e := Ewm(xs, alpha, 0);
    assert e[t] == EwmAfter(xs[..t + 1], alpha).weighted;
    if t == 0 {
      EwmAfterSnoc(xs, alpha, 0);
      assert xs[..0] == [];
    } else {
      assert e[t - 1] == EwmAfter(xs[..t], alpha).weighted;
      EwmFullStep(xs, alpha, t);
    }
  }

  /** On a prefix without gaps one more value is blended in with weight `alpha`. */
  lemma EwmFullStep(xs: seq<Option<real>>, alpha: real, t: nat)
    requires Smoothing(alpha) && Full(xs) && 0 < t < |xs|
    ensures EwmAfter(xs[..t], alpha).weighted.Some? && xs[t].Some?
    ensures EwmAfter(xs[..t + 1], alpha).weighted ==
      Some(Smooth(alpha, xs[t].value, EwmAfter(xs[..t], alpha).weighted.value))
  {
    var init := xs[..t];
    assert Full(init) by {
      forall k | 0 <= k < |init| ensures init[k].Some? { assert init[k] == xs[k]; }
    }
    assert xs[..t][..t] == xs[..t];
    EwmAfterFull(xs[..t], alpha, t);
    EwmAfterSnoc(xs, alpha, t);
    var prev := EwmAfter(xs[..t], alpha);
    assert prev.weighted.Some? && prev.oldWeight == 1.0;
    var x := xs[t].value;
    assert xs[t] == Some(x);
    StepAfterFull(prev, x, alpha);
  }

  /** A series that is one value `c` throughout has that value as its average throughout. */
  lemma {:induction false} EwmConstant(xs: seq<Option<real>>, alpha: real, c: real, t: nat)
    requires Smoothing(alpha) && t < |xs| && forall k | 0 <= k < |xs| :: xs[k] == Some(c)
    ensures Ewm(xs, alpha, 0)[t] == Some(c)
  {
    var e := Ewm(xs, alpha, 0);
    assert Full(xs);
    EwmRecurrence(xs, alpha, t);
    if t > 0 {
      EwmConstant(xs, alpha, c, t - 1);
      assert e[t].value == Smooth(alpha, c, c);
      Affine1(alpha, c);
    }
  }

  lemma Affine1(alpha: real, c: real)
    ensures Smooth(alpha, c, c) == c
  {
  }

  /** `(w * m + a * x) / (w + a)` with non-negative weights lies between its two values. */
  lemma WeightedAtLeast(w: real, m: real, a: real, x: real, lo: real)
    requires w >= 0.0 && a > 0.0 && m >= lo && x >= lo
    ensures Blend(w, m, a, x) >= lo
  {
    NonNegProduct(w, m - lo);
    NonNegProduct(a, x - lo);
    assert w * m + a * x >= (w + a) * lo;
    QuotientAtLeast(w * m + a * x, w + a, lo);
  }

  lemma WeightedAtMost(w: real, m: real, a: real, x: real, hi: real)
    requires w >= 0.0 && a > 0.0 && m <= hi && x <= hi
    ensures Blend(w, m, a, x) <= hi
  {
    NonNegProduct(w, hi - m);
    NonNegProduct(a, hi - x);
    assert w * m + a * x <= (w + a) * hi;
    QuotientAtMost(w * m + a * x, w + a, hi);
  }

  lemma QuotientAtLeast(p: real, q: real, lo: real)
    requires q > 0.0 && p >= q * lo
    ensures p / q >= lo
  {
    var d := p / q;
    assert d * q == p;
    if d < lo {
      MulPos(lo - d, q);
    }
  }

  lemma QuotientAtMost(p: real, q: real, hi: real)
    requires q > 0.0 && p <= q * hi
    ensures p / q <= hi
  {
    var d := p / q;
    assert d * q == p;
    if d > hi {
      MulPos(d - hi, q);
    }
  }

  /** One step keeps a lower bound of the value and the observation. */
  lemma StepAtLeast(s: EwmState, x: Option<real>, alpha: real, lo: real)
    requires Smoothing(alpha) && s.oldWeight >= 0.0
    requires s.weighted.Some? ==> s.weighted.value >= lo
    requires x.Some? ==> x.value >= lo
    ensures EwmStep(s, x, alpha).weighted.Some? ==> EwmStep(s, x, alpha).weighted.value >= lo
  {
    if s.weighted.Some? && x.Some? {
      WeightedAtLeast(Decay(s.oldWeight, alpha), s.weighted.value, alpha, x.value, lo);
    }
  }

  /** One step keeps an upper bound of the value and the observation. */
  lemma StepAtMost(s: EwmState, x: Option<real>, alpha: real, hi: real)
    requires Smoothing(alpha) && s.oldWeight >= 0.0
    requires s.weighted.Some? ==> s.weighted.value <= hi
    requires x.Some? ==> x.value <= hi
    ensures EwmStep(s, x, alpha).weighted.Some? ==> EwmStep(s, x, alpha).weighted.value <= hi
  {
    if s.weighted.Some? && x.Some? {
      WeightedAtMost(Decay(s.oldWeight, alpha), s.weighted.value, alpha, x.value, hi);
    }
  }

  /** Every average is at least any lower bound of the observations. */
  lemma {:induction false} EwmAfterAtLeast(xs: seq<Option<real>>, alpha: real, lo: real)
    requires Smoothing(alpha)
    requires forall k | 0 <= k < |xs| && xs[k].Some? :: xs[k].value >= lo
    ensures EwmAfter(xs, alpha).weighted.Some? ==> EwmAfter(xs, alpha).weighted.value >= lo
    decreases |xs|
  {
    if xs != [] {
      var init := xs[..|xs| - 1];
      EwmAfterAtLeast(init, alpha, lo);
      StepAtLeast(EwmAfter(init, alpha), xs[|xs| - 1], alpha, lo);
    }
  }

  /** Every average is at most any upper bound of the observations. */
  lemma {:induction false} EwmAfterAtMost(xs: seq<Option<real>>, alpha: real, hi: real)
    requires Smoothing(alpha)
    requires forall k | 0 <= k < |xs| && xs[k].Some? :: xs[k].value <= hi
    ensures EwmAfter(xs, alpha).weighted.Some? ==> EwmAfter(xs, alpha).weighted.value <= hi
    decreases |xs|
  {
    if xs != [] {
      var init := xs[..|xs| - 1];
      EwmAfterAtMost(init, alpha, hi);
      StepAtMost(EwmAfter(init, alpha), xs[|xs| - 1], alpha, hi);
    }
  }

  /** The weighted mean never leaves the range of the observations. */
  lemma EwmWithin(xs: seq<Option<real>>, alpha: real, minp: nat, lo: real, hi: real)
    requires Smoothing(alpha)
    requires forall k | 0 <= k < |xs| && xs[k].Some? :: lo <= xs[k].value <= hi
    ensures forall i | 0 <= i < |xs| && Ewm(xs, alpha, minp)[i].Some? :: lo <= Ewm(xs, alpha, minp)[i].value <= hi
  {
    forall i | 0 <= i < |xs| && Ewm(xs, alpha, minp)[i].Some?
      ensures lo <= Ewm(xs, alpha, minp)[i].value <= hi
    {
      EwmAfterAtLeast(xs[..i + 1], alpha, lo);
      EwmAfterAtMost(xs[..i + 1], alpha, hi);
    }
  }

  /** The count of observations never exceeds the rows seen, minus one when row 0 is missing. */
  lemma {:induction false} EwmSeen(xs: seq<Option<real>>, alpha: real)
    requires Smoothing(alpha)
    ensures EwmAfter(xs, alpha).seen <= |xs|
    ensures |xs| > 0 && xs[0].None? ==> EwmAfter(xs, alpha).seen < |xs|
    decreases |xs|
  {
    if xs != [] {
      EwmSeen(xs[..|xs| - 1], alpha);
      if |xs| > 1 {
        assert xs[..|xs| - 1][0] == xs[0];
      }
    }
  }

  /** With `min_periods = minp`, a series whose row 0 is missing has no value on rows
      `0 .. minp - 1`, whatever its other values. */
  lemma EwmWarmup(xs: seq<Option<real>>, alpha: real, minp: nat)
    requires Smoothing(alpha) && |xs| > 0 && xs[0].None?
    ensures forall i | 0 <= i < |xs| && i < minp :: Ewm(xs, alpha, minp)[i].None?
  {
    forall i | 0 <= i < |xs| && i < minp ensures Ewm(xs, alpha, minp)[i].None? {
      assert xs[..i + 1][0] == xs[0];
      EwmSeen(xs[..i + 1], alpha);
    }
  }

  /** The average is at least any lower bound of the observations. */
  lemma EwmAtLeast(xs: seq<Option<real>>, alpha: real, minp: nat, lo: real, i: nat)
    requires Smoothing(alpha) && i < |xs|
    requires forall k | 0 <= k < |xs| && xs[k].Some? :: xs[k].value >= lo
    ensures Ewm(xs, alpha, minp)[i].Some? ==> Ewm(xs, alpha, minp)[i].value >= lo
  {
    EwmAfterAtLeast(xs[..i + 1], alpha, lo);
  }

  // Wilder's RSI

  /** `clip(lower=0)` of a difference. */
  function Gain(d: Option<real>): (r: Option<real>)
    ensures r.Some? <==> d.Some?
    ensures r.Some? ==> r.value >= 0.0 && (d.value > 0.0 ==> r.value == d.value)
  {
    if d.Some? then Some(if d.value > 0.0 then d.value else 0.0) else None
  }

  /** `-clip(upper=0)` of a difference. */
  function Loss(d: Option<real>): (r: Option<real>)
    ensures r.Some? <==> d.Some?
    ensures r.Some? ==> r.value >= 0.0 && (d.value < 0.0 ==> r.value == -d.value)
  {
    if d.Some? then Some(if d.value < 0.0 then -d.value else 0.0) else None
  }

  /** `alpha = 1 / n`, Wilder's smoothing. */
  function WilderAlpha(n: nat): (alpha: real)
    requires n >= 1
    ensures Smoothing(alpha)
  {
    1.0 / n as real
  }

  /** The smoothed gains: `up.ewm(alpha=1/n, adjust=False, min_periods=n).mean()`. */
  function AvgGain(xs: seq<Option<real>>, n: nat): (r: seq<Option<real>>)
    requires n >= 1
    ensures |r| == |xs|
  {
    var d := Diff(xs);
    Ewm(seq(|xs|, i requires 0 <= i < |xs| => Gain(d[i])), WilderAlpha(n), n)
  }

  /** The smoothed losses, likewise. */
  function AvgLoss(xs: seq<Option<real>>, n: nat): (r: seq<Option<real>>)
    requires n >= 1
    ensures |r| == |xs|
  {
    var d := Diff(xs);
    Ewm(seq(|xs|, i requires 0 <= i < |xs| => Loss(d[i])), WilderAlpha(n), n)
  }

  /** `100 - 100 / (1 + u / d)`. With `d = 0` pandas divides into an infinity, which
      gives 100, or into NaN when `u` is 0 as well. A non-negative gain over a positive
      loss lies in [0, 100). */
  function RsiValue(u: Option<real>, d: Option<real>): (r: Option<real>)
    ensures u.None? || d.None? ==> r.None?
    ensures u.Some? && d == Some(0.0) ==> r == (if u.value == 0.0 then None else Some(100.0))
    ensures u.Some? && d.Some? && u.value >= 0.0 && d.value > 0.0 ==> r.Some? && 0.0 <= r.value < 100.0
  {
    if u.None? || d.None? then None
    else if d.value == 0.0 then (if u.value == 0.0 then None else Some(100.0))
    else if 1.0 + u.value / d.value == 0.0 then None
    else
      RsiBounds(u.value, d.value);
      Some(100.0 - 100.0 / (1.0 + u.value / d.value))
  }

  lemma RsiBounds(u: real, d: real)
    ensures u >= 0.0 && d > 0.0 ==> 0.0 <= 100.0 - 100.0 / (1.0 + u / d) < 100.0
  {
    if u >= 0.0 && d > 0.0 {
      QuotientAtLeast(u, d, 0.0);
      var q := 1.0 + u / d;
      QuotientAtMost(100.0, q, 100.0);
      assert 100.0 / q > 0.0;
    }
  }

  /** `_rsi(series, n)`. */
  function Rsi(xs: seq<Option<real>>, n: nat): (r: seq<Option<real>>)
    requires n >= 1
    ensures |r| == |xs|
  {
    var u := AvgGain(xs, n);
    var d := AvgLoss(xs, n);
    seq(|xs|, i requires 0 <= i < |xs| => RsiValue(u[i], d[i]))
  }

  /** Row 0 has no difference, so fewer than `n` gains have been seen on rows `0 .. n - 1`:
      the RSI is undefined there whatever the prices. */
  lemma RsiWarmup(xs: seq<Option<real>>, n: nat)
    requires n >= 1
    ensures forall i | 0 <= i < |xs| && i < n :: Rsi(xs, n)[i].None?
  {
    if |xs| > 0 {
      var d := Diff(xs);
      var g := seq(|xs|, i requires 0 <= i < |xs| => Gain(d[i]));
      EwmWarmup(g, WilderAlpha(n), n);
      assert forall i | 0 <= i < |xs| && i < n :: AvgGain(xs, n)[i].None?;
    }
  }

  /** Where both averages exist and the average loss is positive, the RSI lies in [0, 100). */
  lemma RsiRange(xs: seq<Option<real>>, n: nat, i: nat)
    requires n >= 1 && i < |xs|
    requires AvgGain(xs, n)[i].Some? && AvgLoss(xs, n)[i].Some? && AvgLoss(xs, n)[i].value > 0.0
    ensures Rsi(xs, n)[i].Some? && 0.0 <= Rsi(xs, n)[i].value < 100.0
  {
    var d := Diff(xs);
    var g := seq(|xs|, k requires 0 <= k < |xs| => Gain(d[k]));
    EwmAtLeast(g, WilderAlpha(n), n, 0.0, i);
  }
}
