/** The supervised table both `train_model` and `run_full_analysis` build from a processed
    feature file: the next-day direction label `y_up`, the rows complete on the features, and
    the chronological train/holdout split by position. */
module Dataset {
  import opened Frames
  import opened Metrics

  // The label

  /** `shift(-1)`: each value moved up one row, the last row left missing. */
  function Lead(xs: seq<Option<real>>): (r: seq<Option<real>>)
    ensures |r| == |xs|
    ensures forall i | 0 <= i < |xs| - 1 :: r[i] == xs[i + 1]
    ensures |xs| > 0 ==> r[|xs| - 1].None?
  {
    if xs == [] then [] else xs[1..] + [None]
  }

  /** `(ret_1d.shift(-1) > 0).astype(int)`: a missing comparand compares false, so a row is
      labelled 1 exactly when the next row's return is present and positive. */
  function UpLabels(ret: seq<Option<real>>): (y: seq<int>)
    ensures |y| == |ret| && Binary(y)
    ensures forall i | 0 <= i < |ret| ::
      y[i] == 1 <==> i + 1 < |ret| && ret[i + 1].Some? && ret[i + 1].value > 0.0
    ensures |ret| > 0 ==> y[|ret| - 1] == 0
  {
    var next := Lead(ret);
    seq(|ret|, i requires 0 <= i < |ret| => if next[i].Some? && next[i].value > 0.0 then 1 else 0)
  }

  function Ones(y: seq<int>): nat
  {
    if y == [] then 0 else (if y[0] == 1 then 1 else 0) + Ones(y[1..])
  }

  function Positives(xs: seq<Option<real>>): nat
  {
    if xs == [] then 0 else (if xs[0].Some? && xs[0].value > 0.0 then 1 else 0) + Positives(xs[1..])
  }

  /** Every up day after the first is the label of the row before it: the labels hold as many
      ones as there are positive returns from the second row on. */
  lemma {:induction false} UpLabelsCount(ret: seq<Option<real>>)
    requires |ret| > 0
    ensures Ones(UpLabels(ret)) == Positives(ret[1..])
  {
    if |ret| == 1 {
      assert UpLabels(ret)[1..] == [];
    } else {
      assert UpLabels(ret)[1..] == UpLabels(ret[1..]);
      UpLabelsCount(ret[1..]);
      assert ret[1..][1..] == ret[2..];
      assert ret[1..] == [ret[1]] + ret[2..];
    }
  }

  /** An integer column holding the labels, none missing. */
  function LabelData(y: seq<int>): (d: Data)
    ensures d.Ints? && Len(d) == |y|
    ensures forall i | 0 <= i < |y| :: d.ns[i] == Some(y[i])
  {
    Ints(seq(|y|, i requires 0 <= i < |y| => Some(y[i])))
  }

  /** `df["y_up"] = ...`: a KeyError without `ret_1d`, an error when it does not compare with
      a number; otherwise the frame with `y_up` written and every other column kept. A
      nullable Int64 `ret_1d` with a row compares to `<NA>` on the last row, which
      `.astype(int)` refuses. */
  function Label(df: Frame): (r: Result<Frame>)
    requires Valid(df)
    ensures FloatColumn(df, "ret_1d").Err? ==> r == Err(FloatColumn(df, "ret_1d").error)
    ensures FloatColumn(df, "ret_1d").Ok? ==> (r.Err? <==> Get(df, "ret_1d").Ints? && df.rows > 0)
    ensures FloatColumn(df, "ret_1d").Ok? && r.Err? ==> r == Err(NaToInteger)
    ensures r.Ok? ==> Adds(df, r.value, {"y_up"}) && r.value.source == df.source && Has(r.value, "y_up")
    ensures r.Ok? ==> Get(r.value, "y_up") == LabelData(UpLabels(FloatColumn(df, "ret_1d").value))
  {
    match FloatColumn(df, "ret_1d")
    case Err(e) => Err(e)
    case Ok(ret) =>
      if Get(df, "ret_1d").Ints? && df.rows > 0 then Err(NaToInteger)
      else
        SetAdds(df, "y_up", LabelData(UpLabels(ret)));
        Ok(Set(df, "y_up", LabelData(UpLabels(ret))))
  }

  /** A one-row nullable Int64 `ret_1d` cannot be labelled: its last row compares to `<NA>`. */
  lemma LabelInt64Refused()
    ensures Label(Frame(1, [Column("ret_1d", Ints([Some(1)]))], None)) == Err(NaToInteger)
  {
    var df := Frame(1, [Column("ret_1d", Ints([Some(1)]))], None);
    assert Names(df) == ["ret_1d"];
  }

  /** Labelling twice is labelling once: `train_model` relabels the frame `run_full_analysis`
      has already labelled, and nothing changes. */
  lemma LabelIdempotent(df: Frame)
    requires Valid(df) && Label(df).Ok?
    ensures Label(Label(df).value) == Label(df)
  {
    var g := Label(df).value;
    assert FloatColumn(g, "ret_1d") == FloatColumn(df, "ret_1d");
    SetGet(g, "y_up");
  }

  /** `df.dropna(subset=features + ["y_up"])` after labelling: the errors of the label, then a
      KeyError naming every feature that is neither a column nor `y_up`. */
  function Labelled(df: Frame, features: seq<string>): (r: Result<Frame>)
    requires Valid(df)
    ensures Label(df).Err? ==> r == Err(Label(df).error)
    ensures Label(df).Ok? ==>
      (r.Err? <==> exists n | n in features :: n != "y_up" && !Has(df, n))
    ensures Label(df).Ok? && r.Err? ==>
      r.error.KeysNotFound? &&
      forall x :: x in r.error.names <==> x in features && x != "y_up" && !Has(df, x)
    ensures r.Ok? ==> r.value == DropNa(Label(df).value, features + ["y_up"])
  {
    match Label(df)
    case Err(e) => Err(e)
    case Ok(g) =>
      assert forall n :: n in features + ["y_up"] <==> n in features || n == "y_up";
      DropNaSubset(g, features + ["y_up"])
  }

  /** The table built from an already labelled frame is the table built from the frame. */
  lemma LabelledAgain(df: Frame, features: seq<string>)
    requires Valid(df) && Label(df).Ok?
    ensures Labelled(Label(df).value, features) == Labelled(df, features)
  {
    LabelIdempotent(df);
  }

  /** The label is never missing, so it never drops a row: the table holds exactly the rows
      complete on the features, in their order. */
  lemma LabelledRows(df: Frame, features: seq<string>)
    requires Valid(df) && Labelled(df, features).Ok?
    ensures var g := Label(df).value;
      && (forall n | n in features :: Has(g, n))
      && Labelled(df, features).value == TakeRows(g, CompleteRows(g, features, g.rows))
  {
    LabelledOk(df, features);
    var g := Label(df).value;
    LabelNeverMissing(g, features, g.rows);
  }

  /** A table that builds comes from a successful label whose frame has every feature. */
  lemma LabelledOk(df: Frame, features: seq<string>)
    requires Valid(df) && Labelled(df, features).Ok?
    ensures Label(df).Ok?
    ensures var g := Label(df).value;
      && Valid(g) && Has(g, "y_up") && (forall n | n in features :: Has(g, n))
      && (forall i | 0 <= i < g.rows :: !IsNa(Get(g, "y_up"), i))
      && Labelled(df, features).value == DropNa(g, features + ["y_up"])
  {
    var g := Label(df).value;
    var y := UpLabels(FloatColumn(df, "ret_1d").value);
    assert Get(g, "y_up") == LabelData(y);
  }

  lemma LabelNeverMissing(g: Frame, features: seq<string>, n: nat)
    requires Valid(g) && n <= g.rows && Has(g, "y_up") && forall x | x in features :: Has(g, x)
    requires forall i | 0 <= i < g.rows :: !IsNa(Get(g, "y_up"), i)
    ensures forall x | x in features + ["y_up"] :: Has(g, x)
    ensures CompleteRows(g, features + ["y_up"], n) == CompleteRows(g, features, n)
  {
    assert forall x :: x in features + ["y_up"] <==> x in features || x == "y_up";
    var k: nat := 0;
    while k < n
      invariant k <= n
      invariant CompleteRows(g, features + ["y_up"], k) == CompleteRows(g, features, k)
    {
      LabelNeverMissingStep(g, features, k);
      k := k + 1;
    }
    assert k == n;
  }

  lemma LabelNeverMissingStep(g: Frame, features: seq<string>, m: nat)
    requires Valid(g) && m < g.rows && Has(g, "y_up") && forall x | x in features :: Has(g, x)
    requires !IsNa(Get(g, "y_up"), m)
    requires CompleteRows(g, features + ["y_up"], m) == CompleteRows(g, features, m)
    ensures CompleteRows(g, features + ["y_up"], m + 1) == CompleteRows(g, features, m + 1)
  {
    assert forall x :: x in features + ["y_up"] <==> x in features || x == "y_up";
    var last := if CompleteRow(g, features, m) then [m] else [];
    assert CompleteRow(g, features + ["y_up"], m) == CompleteRow(g, features, m);
    assert CompleteRows(g, features, m + 1) == CompleteRows(g, features, m) + last;
    assert CompleteRows(g, features + ["y_up"], m + 1) == CompleteRows(g, features + ["y_up"], m) + last;
  }

  /** Every row of the labelled table carries a 0/1 label. */
  lemma LabelledLabels(df: Frame, features: seq<string>)
    requires Valid(df) && Labelled(df, features).Ok?
    ensures var t := Labelled(df, features).value;
      && Valid(t) && Has(t, "y_up") && (forall n | n in features :: Has(t, n))
      && IsLabelColumn(Get(t, "y_up"), t.rows)
  {
    var g := Label(df).value;
    var t := Labelled(df, features).value;
    LabelledRows(df, features);
    var idx := CompleteRows(g, features, g.rows);
    TakeRowsGet(g, idx, "y_up");
  }

  /** An integer column of `rows` present 0/1 values. */
  predicate IsLabelColumn(d: Data, rows: nat)
  {
    d.Ints? && |d.ns| == rows && forall i | 0 <= i < rows :: d.ns[i].Some? && (d.ns[i].value == 0 || d.ns[i].value == 1)
  }

  /** Taking rows of a label column keeps it one. */
  lemma TakeLabels(d: Data, rows: nat, idx: seq<nat>)
    requires IsLabelColumn(d, rows) && forall k | 0 <= k < |idx| :: idx[k] < rows
    ensures IsLabelColumn(TakeData(d, idx), |idx|)
  {
  }

  /** `y.values` of a label column. */
  function LabelValues(d: Data, rows: nat): (y: seq<int>)
    requires IsLabelColumn(d, rows)
    ensures |y| == rows && Binary(y)
    ensures LabelData(y) == d
  {
    var y := seq(rows, i requires 0 <= i < rows => d.ns[i].value);
    assert LabelData(y).ns == d.ns;
    y
  }

  // The split

  /** Python's `int(x)` of a float: the integer part, truncated toward zero. */
  function Trunc(x: real): (r: int)
    ensures 0.0 <= x ==> r as real <= x < r as real + 1.0
    ensures x < 0.0 ==> r as real - 1.0 < x <= r as real
  {
    if 0.0 <= x then x.Floor else -((-x).Floor)
  }

  /** The stop of `iloc[:cut]` on `n` rows: a negative cut counts from the end, and a cut past
      either end is clamped to it. */
  function SliceStop(cut: int, n: nat): (r: nat)
    ensures r <= n
    ensures 0 <= cut <= n ==> r == cut
    ensures cut < 0 ==> r as int == if n + cut < 0 then 0 else n + cut
    ensures n < cut ==> r == n
  {
    if cut < 0 then (if n + cut < 0 then 0 else n + cut) else if n < cut then n else cut
  }

  /** `int(len(dfm) * (1 - test_frac))`, as a row position. */
  function CutIndex(n: nat, testFrac: real): (k: nat)
    ensures k <= n
  {
    SliceStop(Trunc(n as real * (1.0 - testFrac)), n)
  }

  /** For a fraction in [0, 1] the cut is the floor of the training share of the rows. */
  lemma CutFloor(n: nat, testFrac: real)
    requires 0.0 <= testFrac <= 1.0
    ensures CutIndex(n, testFrac) == (n as real * (1.0 - testFrac)).Floor
  {
    var x := n as real * (1.0 - testFrac);
    assert 0.0 <= x <= n as real by { Share(n, 1.0 - testFrac); }
  }

  lemma Share(n: nat, s: real)
    requires 0.0 <= s <= 1.0
    ensures 0.0 <= n as real * s <= n as real
  {
  }

  /** A larger holdout fraction never moves the cut later. */
  lemma CutMonotone(n: nat, f1: real, f2: real)
    requires 0.0 <= f1 <= f2 <= 1.0
    ensures CutIndex(n, f2) <= CutIndex(n, f1)
  {
    var x1, x2 := n as real * (1.0 - f1), n as real * (1.0 - f2);
    ShareMonotone(n, f1, f2);
    assert x2 <= x1;
    FloorMonotone(x2, x1);
    CutFloor(n, f1);
    CutFloor(n, f2);
  }

  lemma FloorMonotone(x: real, y: real)
    requires x <= y
    ensures x.Floor <= y.Floor
  {
  }

  lemma ShareMonotone(n: nat, f1: real, f2: real)
    requires f1 <= f2
    ensures n as real * (1.0 - f2) <= n as real * (1.0 - f1)
  {
    NonNegProduct(n as real, f2 - f1);
    assert n as real * (1.0 - f1) - n as real * (1.0 - f2) == n as real * (f2 - f1);
  }

  lemma NonNegProduct(x: real, y: real)
    requires 0.0 <= x && 0.0 <= y
    ensures 0.0 <= x * y
  {
  }

  /** `dfm.iloc[:cut], dfm.iloc[cut:]`: the rows before the cut and the rows from it on. */
  function Split(dfm: Frame, testFrac: real): (r: (Frame, Frame))
    requires Valid(dfm)
    ensures Valid(r.0) && Valid(r.1)
    ensures r.0.rows == CutIndex(dfm.rows, testFrac) && r.0.rows + r.1.rows == dfm.rows
    ensures Names(r.0) == Names(dfm) && Names(r.1) == Names(dfm)
    ensures r.0.source == dfm.source && r.1.source == dfm.source
  {
    var k := CutIndex(dfm.rows, testFrac);
    (TakeRows(dfm, Interval(0, k)), TakeRows(dfm, Interval(k, dfm.rows)))
  }

  /** The split is a partition by position: row `i` of the training part is row `i` of the
      table, and row `j` of the holdout is row `cut + j`. */
  lemma SplitPartition(dfm: Frame, testFrac: real, n: string)
    requires Valid(dfm) && Has(dfm, n)
    ensures var (train, test) := Split(dfm, testFrac);
      && Has(train, n) && Has(test, n)
      && (forall i | 0 <= i < train.rows :: CellAt(Get(train, n), i) == CellAt(Get(dfm, n), i))
      && (forall j | 0 <= j < test.rows :: CellAt(Get(test, n), j) == CellAt(Get(dfm, n), train.rows + j))
  {
    var k := CutIndex(dfm.rows, testFrac);
    var (train, test) := Split(dfm, testFrac);
    var d := Get(dfm, n);
    TakeRowsGet(dfm, Interval(0, k), n);
    TakeRowsGet(dfm, Interval(k, dfm.rows), n);
    forall i | 0 <= i < train.rows ensures CellAt(Get(train, n), i) == CellAt(d, i) {
      TakeCell(d, Interval(0, k), i);
    }
    forall j | 0 <= j < test.rows ensures CellAt(Get(test, n), j) == CellAt(d, k + j) {
      TakeCell(d, Interval(k, dfm.rows), j);
    }
  }
}
