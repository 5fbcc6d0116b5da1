/** The statistics pandas and numpy compute on a column, all of them skipping missing
    cells: sum, mean, variance with ddof=0 (`std(ddof=0)`) or ddof=1 (the `rolling(...).std()`
    default), and the median. Dafny's reals have no square root, so every operation that
    takes a standard deviation receives `sqrt` as a parameter constrained by `IsSqrt`. */
module Stats {
  import opened Frames

  /** The defined values of a column, in order (`dropna()`). */
  function Defined(xs: seq<Option<real>>): (r: seq<real>)
    ensures |r| <= |xs|
    ensures (forall i | 0 <= i < |xs| :: xs[i].Some?) ==> |r| == |xs|
  {
    if xs == [] then [] else (if xs[0].Some? then [xs[0].value] else []) + Defined(xs[1..])
  }

  lemma {:induction false} DefinedEmpty(xs: seq<Option<real>>)
    ensures Defined(xs) == [] <==> forall i | 0 <= i < |xs| :: xs[i].None?
  {
    if xs != [] {
      DefinedEmpty(xs[1..]);
      assert forall i | 1 <= i < |xs| :: xs[i] == xs[1..][i - 1];
    }
  }

  lemma {:induction false} DefinedAll(xs: seq<Option<real>>)
    requires forall i | 0 <= i < |xs| :: xs[i].Some?
    ensures |Defined(xs)| == |xs|
    ensures forall i | 0 <= i < |xs| :: Defined(xs)[i] == xs[i].value
  {
    if xs != [] {
      DefinedAll(xs[1..]);
    }
  }

  function Sum(s: seq<real>): real
  {
    if s == [] then 0.0 else s[0] + Sum(s[1..])
  }

  function Mean(s: seq<real>): real
    requires |s| > 0
  {
    Sum(s) / |s| as real
  }

  function Sq(x: real): real
  {
    x * x
  }

  lemma MulPos(a: real, b: real)
    requires a > 0.0 && b > 0.0
    ensures a * b > 0.0
  {
  }

  lemma SqFacts(d: real)
    ensures Sq(d) >= 0.0
    ensures d != 0.0 ==> Sq(d) > 0.0
  {
    if d > 0.0 {
      calc {
        Sq(d);
        d * d;
      > { MulPos(d, d); }
        0.0;
      }
    } else if d < 0.0 {
      var e := -d;
      calc {
        Sq(d);
        e * e;
      > { MulPos(e, e); }
        0.0;
      }
    }
  }

  lemma DivAdd(a: real, b: real, d: real)
    requires d != 0.0
    ensures a / d + b / d == (a + b) / d
  {
  }

  lemma SqDivCancel(a: real, d: real)
    requires d != 0.0
    ensures Sq(a / d) * Sq(d) == Sq(a)
  {
    var q := a / d;
    assert q * d == a;
    calc {
      Sq(q) * Sq(d);
      (q * q) * (d * d);
      (q * d) * (q * d);
      Sq(a);
    }
  }

  lemma DivSelf(n: real)
    requires n != 0.0
    ensures n / n == 1.0
  {
  }

  lemma Distrib(x: real, y: real, k: real)
    ensures (x + y) * k == x * k + y * k
  {
  }

  lemma MulCancel(x: real, n: real, v: real)
    requires v != 0.0 && x * v == v * n
    ensures x == n
  {
  }

  /** The sum of squared deviations from `m`. */
  function SqDev(s: seq<real>, m: real): (r: real)
    ensures r >= 0.0
  {
    if s == [] then 0.0 else SqFacts(s[0] - m); Sq(s[0] - m) + SqDev(s[1..], m)
  }

  /** `std(ddof=0)` squared. */
  function PopVariance(s: seq<real>): (v: real)
    requires |s| > 0
    ensures v >= 0.0
  {
    SqDev(s, Mean(s)) / |s| as real
  }

  /** `std()` (ddof=1) squared. */
  function SampleVariance(s: seq<real>): (v: real)
    requires |s| > 1
    ensures v >= 0.0
  {
    SqDev(s, Mean(s)) / (|s| - 1) as real
  }

  predicate Constant(s: seq<real>)
  {
    forall i, j | 0 <= i < |s| && 0 <= j < |s| :: s[i] == s[j]
  }

  /** What a square root must satisfy on the non-negative reals. */
  ghost predicate IsSqrt(sqrt: real -> real)
  {
    forall v: real | 0.0 <= v :: 0.0 <= sqrt(v) && sqrt(v) * sqrt(v) == v
  }

  lemma SqrtZero(sqrt: real -> real, v: real)
    requires IsSqrt(sqrt) && 0.0 <= v
    ensures sqrt(v) == 0.0 <==> v == 0.0
    ensures sqrt(v) >= 0.0
  {
    var r := sqrt(v);
    assert r >= 0.0 && r * r == v;
    SqFacts(r);
  }

  lemma SqrtOne(sqrt: real -> real)
    requires IsSqrt(sqrt)
    ensures sqrt(1.0) == 1.0
  {
    var r := sqrt(1.0);
    assert r >= 0.0 && r * r == 1.0;
    if r > 1.0 {
      MulPos(r, r - 1.0);
    } else if 0.0 < r < 1.0 {
      MulPos(r, 1.0 - r);
    }
  }

  lemma {:induction false} SumConcat(a: seq<real>, b: seq<real>)
    ensures Sum(a + b) == Sum(a) + Sum(b)
  {
    if a == [] {
      assert a + b == b;
    } else {
      assert (a + b)[1..] == a[1..] + b;
      SumConcat(a[1..], b);
    }
  }

  lemma {:induction false} SumConstant(s: seq<real>, c: real)
    requires forall i | 0 <= i < |s| :: s[i] == c
    ensures Sum(s) == |s| as real * c
  {
    if s != [] {
      SumConstant(s[1..], c);
    }
  }

  /** The mean of a constant sequence is that constant. */
  lemma MeanConstant(s: seq<real>, c: real)
    requires |s| > 0 && forall i | 0 <= i < |s| :: s[i] == c
    ensures Mean(s) == c
  {
    SumConstant(s, c);
  }

  lemma {:induction false} SqDevZero(s: seq<real>, m: real)
    ensures SqDev(s, m) == 0.0 <==> forall i | 0 <= i < |s| :: s[i] == m
  {
    if s != [] {
      SqDevZero(s[1..], m);
      SqFacts(s[0] - m);
      assert forall i | 1 <= i < |s| :: s[i] == s[1..][i - 1];
    }
  }

  /** Both variances vanish exactly on constant sequences: `std` is 0 iff the values are all equal. */
  lemma VarianceZeroIffConstant(s: seq<real>)
    requires |s| > 0
    ensures PopVariance(s) == 0.0 <==> Constant(s)
    ensures |s| > 1 ==> (SampleVariance(s) == 0.0 <==> Constant(s))
  {
    var m := Mean(s);
    SqDevZero(s, m);
    if Constant(s) {
      MeanConstant(s, s[0]);
    }
    assert SqDev(s, m) == 0.0 <==> PopVariance(s) == 0.0;
  }

  /** `(x - m) / d` for every value. */
  function Affine(s: seq<real>, m: real, d: real): (r: seq<real>)
    requires d != 0.0
    ensures |r| == |s| && forall i | 0 <= i < |s| :: r[i] == (s[i] - m) / d
  {
    seq(|s|, i requires 0 <= i < |s| => (s[i] - m) / d)
  }

  lemma SumAffine(s: seq<real>, m: real, d: real)
    requires d != 0.0
    ensures Sum(Affine(s, m, d)) == (Sum(s) - |s| as real * m) / d
  {
    var a := Sum(Affine(s, m, 1.0));
    SumScaled(s, m, d);
    SumShifted(s, m);
    assert Sum(Affine(s, m, d)) == a / d;
    assert a == Sum(s) - |s| as real * m;
  }

  /** Dividing every shifted value by `d` divides their sum by `d`. */
  lemma {:induction false} SumScaled(s: seq<real>, m: real, d: real)
    requires d != 0.0
    ensures Sum(Affine(s, m, d)) == Sum(Affine(s, m, 1.0)) / d
  {
    if s != [] {
      SumScaled(s[1..], m, d);
      AffineTail(s, m, d);
      AffineTail(s, m, 1.0);
      DivAdd(s[0] - m, Sum(Affine(s[1..], m, 1.0)), d);
    } else {
      assert Affine(s, m, d) == [] && Affine(s, m, 1.0) == [];
    }
  }

  /** Shifting every value by `m` lowers the sum by `|s|` times `m`. */
  lemma {:induction false} SumShifted(s: seq<real>, m: real)
    ensures Sum(Affine(s, m, 1.0)) == Sum(s) - |s| as real * m
  {
    if s != [] {
      SumShifted(s[1..], m);
      AffineTail(s, m, 1.0);
      SuccMul(|s[1..]| as real, |s| as real, m);
    } else {
      assert Affine(s, m, 1.0) == [];
    }
  }

  lemma SuccMul(k: real, n: real, m: real)
    requires n == k + 1.0
    ensures n * m == k * m + m
  {
  }

  lemma AffineTail(s: seq<real>, m: real, d: real)
    requires d != 0.0 && s != []
    ensures Affine(s, m, d)[0] == (s[0] - m) / d
    ensures Affine(s, m, d)[1..] == Affine(s[1..], m, d)
  {
  }

  lemma {:induction false} SqDevAffine(s: seq<real>, m: real, d: real)
    requires d != 0.0
    ensures SqDev(Affine(s, m, d), 0.0) * Sq(d) == SqDev(s, m)
  {
    if s != [] {
      SqDevAffine(s[1..], m, d);
      assert Affine(s, m, d)[1..] == Affine(s[1..], m, d);
      var z := Affine(s, m, d);
      var a := s[0] - m;
      assert z[0] == a / d;
      var head, rest := Sq(a / d), SqDev(z[1..], 0.0);
      assert SqDev(z, 0.0) == head + rest;
      SqDivCancel(a, d);
      Distrib(head, rest, Sq(d));
    }
  }

  /** Standardising by the mean and a non-zero divisor gives values that sum to zero. */
  lemma StandardizedSumZero(s: seq<real>, d: real)
    requires |s| > 0 && d != 0.0
    ensures Sum(Affine(s, Mean(s), d)) == 0.0
    ensures Mean(Affine(s, Mean(s), d)) == 0.0
  {
    SumAffine(s, Mean(s), d);
    assert |s| as real * Mean(s) == Sum(s);
  }

  /** Standardising by the mean and the standard deviation (ddof=0) gives mean 0 and variance 1. */
  lemma StandardizedVariance(s: seq<real>, sqrt: real -> real)
    requires |s| > 0 && IsSqrt(sqrt) && PopVariance(s) != 0.0
    ensures sqrt(PopVariance(s)) != 0.0
    ensures PopVariance(Affine(s, Mean(s), sqrt(PopVariance(s)))) == 1.0
  {
    var v := PopVariance(s);
    SqrtZero(sqrt, v);
    assert Sq(sqrt(v)) == v;
    AffineVarianceOne(s, sqrt(v));
  }

  lemma AffineVarianceOne(s: seq<real>, d: real)
    requires |s| > 0 && d != 0.0 && Sq(d) == PopVariance(s)
    ensures PopVariance(Affine(s, Mean(s), d)) == 1.0
  {
    var z := Affine(s, Mean(s), d);
    StandardizedSqDev(s, d);
    StandardizedSumZero(s, d);
    var n := |s| as real;
    assert |z| == |s| && Mean(z) == 0.0;
    assert SqDev(z, Mean(z)) == n;
    assert PopVariance(z) == n / n;
    DivSelf(n);
  }

  /** Dividing the deviations by the standard deviation makes their squares sum to `n`. */
  lemma StandardizedSqDev(s: seq<real>, d: real)
    requires |s| > 0 && d != 0.0 && Sq(d) == PopVariance(s)
    ensures SqDev(Affine(s, Mean(s), d), 0.0) == |s| as real
  {
    var v := PopVariance(s);
    var x := SqDev(Affine(s, Mean(s), d), 0.0);
    var n := |s| as real;
    SqDevAffine(s, Mean(s), d);
    calc {
      x * v;
      x * Sq(d);
      SqDev(s, Mean(s));
      v * n;
    }
    SqFacts(d);
    MulCancel(x, n, v);
  }

  // Sorting and the median

  predicate Sorted(t: seq<real>)
  {
    forall i, j | 0 <= i < j < |t| :: t[i] <= t[j]
  }

  function Insert(x: real, t: seq<real>): (r: seq<real>)
    ensures |r| == |t| + 1
  {
    if t == [] then [x]
    else if x <= t[0] then [x] + t
    else [t[0]] + Insert(x, t[1..])
  }

  /** Insertion sort. */
  function Sort(s: seq<real>): (t: seq<real>)
    ensures |t| == |s|
  {
    if s == [] then [] else Insert(s[0], Sort(s[1..]))
  }

  lemma {:induction false} InsertElements(x: real, t: seq<real>)
    ensures forall y :: y in Insert(x, t) <==> y == x || y in t
  {
    if t != [] && x > t[0] {
      InsertElements(x, t[1..]);
      assert t == [t[0]] + t[1..];
    }
  }

  lemma {:induction false} InsertSorted(x: real, t: seq<real>)
    requires Sorted(t)
    ensures Sorted(Insert(x, t))
  {
    if t != [] && x > t[0] {
      var rest := Insert(x, t[1..]);
      InsertSorted(x, t[1..]);
      InsertElements(x, t[1..]);
      forall j | 0 <= j < |rest| ensures t[0] <= rest[j] {
        assert rest[j] in rest;
        if rest[j] != x {
          var k :| 0 <= k < |t[1..]| && t[1..][k] == rest[j];
          assert t[k + 1] == rest[j];
        }
      }
      assert Insert(x, t) == [t[0]] + rest;
    }
  }

  lemma {:induction false} SortSorted(s: seq<real>)
    ensures Sorted(Sort(s))
  {
    if s != [] {
      SortSorted(s[1..]);
      InsertSorted(s[0], Sort(s[1..]));
    }
  }

  function CountLe(s: seq<real>, m: real): (c: nat)
    ensures c <= |s|
  {
    if s == [] then 0 else (if s[0] <= m then 1 else 0) + CountLe(s[1..], m)
  }

  function CountGe(s: seq<real>, m: real): (c: nat)
    ensures c <= |s|
  {
    if s == [] then 0 else (if s[0] >= m then 1 else 0) + CountGe(s[1..], m)
  }

  lemma {:induction false} CountInsert(x: real, t: seq<real>, m: real)
    ensures CountLe(Insert(x, t), m) == CountLe(t, m) + (if x <= m then 1 else 0)
    ensures CountGe(Insert(x, t), m) == CountGe(t, m) + (if x >= m then 1 else 0)
  {
    if t != [] && x > t[0] {
      CountInsert(x, t[1..], m);
    }
  }

  lemma {:induction false} CountSort(s: seq<real>, m: real)
    ensures CountLe(Sort(s), m) == CountLe(s, m)
    ensures CountGe(Sort(s), m) == CountGe(s, m)
  {
    if s != [] {
      CountSort(s[1..], m);
      CountInsert(s[0], Sort(s[1..]), m);
    }
  }

  lemma {:induction false} CountLeSorted(t: seq<real>, k: nat, m: real)
    requires Sorted(t) && k < |t| && t[k] <= m
    ensures CountLe(t, m) >= k + 1
  {
    if k > 0 {
      CountLeSorted(t[1..], k - 1, m);
    }
  }

  lemma {:induction false} CountGeSorted(t: seq<real>, k: nat, m: real)
    requires Sorted(t) && k < |t| && t[k] >= m
    ensures CountGe(t, m) >= |t| - k
  {
    if k > 0 {
      CountGeSorted(t[1..], k - 1, m);
    } else if |t| > 1 {
      CountGeSorted(t[1..], 0, m);
    }
  }

  lemma {:induction false} CountLeWitness(s: seq<real>, m: real)
    requires CountLe(s, m) > 0
    ensures exists i | 0 <= i < |s| :: s[i] <= m
  {
    if s[0] > m {
      CountLeWitness(s[1..], m);
      var i :| 0 <= i < |s[1..]| && s[1..][i] <= m;
      assert s[i + 1] <= m;
    }
  }

  lemma {:induction false} CountGeWitness(s: seq<real>, m: real)
    requires CountGe(s, m) > 0
    ensures exists i | 0 <= i < |s| :: s[i] >= m
  {
    if s[0] < m {
      CountGeWitness(s[1..], m);
      var i :| 0 <= i < |s[1..]| && s[1..][i] >= m;
      assert s[i + 1] >= m;
    }
  }

  /** numpy's median: the middle of the sorted values, or the mean of the two middle ones. */
  function Median(s: seq<real>): real
    requires |s| > 0
  {
    var t := Sort(s);
    var h := |s| / 2;
    if |s| % 2 == 1 then t[h] else (t[h - 1] + t[h]) / 2.0
  }

  /** The median splits the values in halves: at least half lie at or below it, at least
      half at or above it, so it lies between the smallest and the largest value. */
  lemma MedianSplits(s: seq<real>)
    requires |s| > 0
    ensures 2 * CountLe(s, Median(s)) >= |s| && 2 * CountGe(s, Median(s)) >= |s|
    ensures exists i | 0 <= i < |s| :: s[i] <= Median(s)
    ensures exists i | 0 <= i < |s| :: s[i] >= Median(s)
  {
    var t := Sort(s);
    var m := Median(s);
    var h := |s| / 2;
    SortSorted(s);
    CountSort(s, m);
    if |s| % 2 == 1 {
      CountLeSorted(t, h, m);
      CountGeSorted(t, h, m);
    } else {
      assert t[h - 1] <= t[h];
      CountLeSorted(t, h - 1, m);
      CountGeSorted(t, h, m);
    }
    CountLeWitness(s, m);
    CountGeWitness(s, m);
  }
}
