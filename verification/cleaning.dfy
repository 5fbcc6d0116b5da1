/** The generic cleaning steps of `project/src/cleaning.py` (and its earlier copy in
    `homework/homework6/src/cleaning.py`, which differs only in wording): column
    validation, median fill, missing-fraction filters, z-score normalisation and
    z-score clipping. Every operation copies its input frame, so it is a function of
    values here; the three that loop over the selected columns reassigning `out[c]`
    are methods with that loop. */
module Cleaning {
  import opened Frames
  import opened Stats

  // Column validation

  /** The names of the float64 and Int64 columns, in column order. */
  function NumericNames(cols: seq<Column>): (r: seq<string>)
    ensures forall n | n in r :: exists j | 0 <= j < |cols| :: cols[j].name == n && IsNumeric(cols[j].data)
    ensures forall j | 0 <= j < |cols| && IsNumeric(cols[j].data) :: cols[j].name in r
  {
    if cols == [] then []
    else
      var rest := NumericNames(cols[1..]);
      assert forall n | n in rest :: exists j | 0 <= j < |cols| :: cols[j].name == n && IsNumeric(cols[j].data) by {
        forall n | n in rest ensures exists j | 0 <= j < |cols| :: cols[j].name == n && IsNumeric(cols[j].data) {
          var j :| 0 <= j < |cols[1..]| && cols[1..][j].name == n && IsNumeric(cols[1..][j].data);
          assert cols[j + 1] == cols[1..][j];
        }
      }
      assert forall j | 1 <= j < |cols| && IsNumeric(cols[j].data) :: cols[j].name in rest by {
        forall j | 1 <= j < |cols| && IsNumeric(cols[j].data) ensures cols[j].name in rest {
          assert cols[1..][j - 1] == cols[j];
        }
      }
      (if IsNumeric(cols[0].data) then [cols[0].name] else []) + rest
  }

  /** `_ensure_columns`: the numeric columns when no list is given; otherwise the list
      itself, as long as every name in it is a column. */
  function EnsureColumns(f: Frame, columns: Option<seq<string>>): (r: Result<seq<string>>)
    ensures columns.None? ==> r == Ok(NumericNames(f.columns))
    ensures columns.Some? ==> (r.Err? <==> exists n | n in columns.value :: !Has(f, n))
    ensures columns.Some? && r.Err? ==> r.error == ColumnsNotFound(Missing(columns.value, NameSet(f)))
    ensures columns.Some? && r.Ok? ==> r.value == columns.value
    ensures r.Ok? ==> forall n | n in r.value :: Has(f, n)
  {
    match columns
    case None =>
      assert forall n | n in NumericNames(f.columns) :: Has(f, n) by {
        forall n | n in NumericNames(f.columns) ensures Has(f, n) {
          var j :| 0 <= j < |f.columns| && f.columns[j].name == n && IsNumeric(f.columns[j].data);
          assert Names(f)[j] == n;
        }
      }
      Ok(NumericNames(f.columns))
    case Some(cs) =>
      var missing := Missing(cs, NameSet(f));
      if missing != [] then
        assert missing[0] in cs && !Has(f, missing[0]);
        Err(ColumnsNotFound(missing))
      else
        assert forall n | n in cs :: n !in missing;
        Ok(cs)
  }

  // The column loop

  /** A per-column step that keeps the column's length. */
  ghost predicate KeepsLength(step: (string, Data) -> Result<Data>)
  {
    forall n, d :: step(n, d).Ok? ==> Len(step(n, d).value) == Len(d)
  }

  /** `out[c] = step(c, out[c])`. */
  function StepColumn(g: Frame, c: string, step: (string, Data) -> Result<Data>): (r: Result<Frame>)
    requires Valid(g) && KeepsLength(step) && Has(g, c)
    ensures r.Ok? ==> Valid(r.value) && r.value.rows == g.rows && r.value.source == g.source
    ensures r.Ok? ==> Names(r.value) == Names(g)
  {
    match step(c, Get(g, c))
    case Err(e) => Err(e)
    case Ok(d) => Ok(Set(g, c, d))
  }

  /** `for c in cols: out[c] = step(c, out[c])` on a copy, stopping at the first error. */
  function ApplyAll(f: Frame, cols: seq<string>, step: (string, Data) -> Result<Data>): (r: Result<Frame>)
    requires Valid(f) && KeepsLength(step) && forall n | n in cols :: Has(f, n)
    ensures r.Ok? ==> Valid(r.value) && r.value.rows == f.rows && r.value.source == f.source
    ensures r.Ok? ==> Names(r.value) == Names(f)
    decreases |cols|
  {
    if cols == [] then Ok(f)
    else
      var c := cols[|cols| - 1];
      match ApplyAll(f, cols[..|cols| - 1], step)
      case Err(e) => Err(e)
      case Ok(g) =>
        assert Has(g, c) by { assert Has(f, c); }
        StepColumn(g, c, step)
  }

  /** Once the loop has failed, the remaining columns do not change the outcome. */
  lemma {:induction false} ApplyAllErr(f: Frame, cols: seq<string>, step: (string, Data) -> Result<Data>, k: nat)
    requires Valid(f) && KeepsLength(step) && forall n | n in cols :: Has(f, n)
    requires k <= |cols| && ApplyAll(f, cols[..k], step).Err?
    ensures ApplyAll(f, cols, step) == ApplyAll(f, cols[..k], step)
    decreases |cols| - k
  {
    if k < |cols| {
      var c := cols[..k + 1];
      assert c[..k] == cols[..k];
      ApplyAllErr(f, cols, step, k + 1);
    } else {
      assert cols[..k] == cols;
    }
  }

  /** One more turn of the loop. */
  lemma ApplyAllSnoc(f: Frame, cols: seq<string>, step: (string, Data) -> Result<Data>, k: nat, g: Frame)
    requires Valid(f) && KeepsLength(step) && forall n | n in cols :: Has(f, n)
    requires k < |cols| && ApplyAll(f, cols[..k], step) == Ok(g)
    ensures Has(g, cols[k])
    ensures ApplyAll(f, cols[..k + 1], step) == StepColumn(g, cols[k], step)
  {
    var c := cols[..k + 1];
    assert c[..|c| - 1] == cols[..k] && c[|c| - 1] == cols[k];
    assert Has(f, cols[k]) && Names(g) == Names(f);
  }

  /** Some selected column is the first on which `step` fails, with error `e`. */
  ghost predicate FirstFailure(f: Frame, cols: seq<string>, step: (string, Data) -> Result<Data>, e: Error)
    requires Valid(f) && forall n | n in cols :: Has(f, n)
  {
    exists k | 0 <= k < |cols| ::
      && step(cols[k], Get(f, cols[k])) == Err(e)
      && forall j | 0 <= j < k :: step(cols[j], Get(f, cols[j])).Ok?
  }

  /** What the loop over the distinct columns `cols` may yield as `r`: it succeeds iff
      `step` succeeds on each selected column of the input; a success replaces exactly
      the selected columns by their images and leaves every other column as it was; a
      failure reports the error of the first selected column on which `step` fails. */
  ghost predicate Replaced(f: Frame, cols: seq<string>, step: (string, Data) -> Result<Data>, r: Result<Frame>)
    requires Valid(f) && forall n | n in cols :: Has(f, n)
  {
    && (r.Ok? <==> forall c | c in cols :: step(c, Get(f, c)).Ok?)
    && (r.Ok? ==>
          && Valid(r.value) && r.value.rows == f.rows && Names(r.value) == Names(f)
          && (forall c | c in cols :: Get(r.value, c) == step(c, Get(f, c)).value)
          && (forall n | Has(f, n) && n !in cols :: Get(r.value, n) == Get(f, n)))
    && (r.Err? ==> FirstFailure(f, cols, step, r.error))
  }

  lemma {:induction false} ApplyAllDistinct(f: Frame, cols: seq<string>, step: (string, Data) -> Result<Data>)
    requires Valid(f) && KeepsLength(step) && forall n | n in cols :: Has(f, n)
    requires Distinct(cols)
    ensures Replaced(f, cols, step, ApplyAll(f, cols, step))
    decreases |cols|
  {
    if cols != [] {
      var last := |cols| - 1;
      var c, pre := cols[last], cols[..last];
      assert cols == pre + [c];
      assert forall j | 0 <= j < last :: pre[j] == cols[j];
      assert forall x | x in pre :: x in cols;
      assert Distinct(pre);
      assert c !in pre;
      ApplyAllDistinct(f, pre, step);
      ReplacedSnoc(f, pre, c, step, ApplyAll(f, pre, step));
    }
  }

  /** One more turn of the loop keeps `Replaced`. */
  lemma ReplacedSnoc(f: Frame, pre: seq<string>, c: string, step: (string, Data) -> Result<Data>, r: Result<Frame>)
    requires Valid(f) && KeepsLength(step) && forall n | n in pre :: Has(f, n)
    requires Has(f, c) && c !in pre && Replaced(f, pre, step, r)
    ensures forall n | n in pre + [c] :: Has(f, n)
    ensures Replaced(f, pre + [c], step, if r.Err? then r else StepColumn(r.value, c, step))
  {
    assert forall x | x in pre + [c] :: x in pre || x == c;
    if r.Err? {
      FailureSnoc(f, pre, c, step, r.error);
    } else {
      var g := r.value;
      assert Has(g, c) && Get(g, c) == Get(f, c);
      match step(c, Get(f, c))
      case Err(e) =>
        FailureLast(f, pre, c, step, e);
      case Ok(d) =>
        ReplaceOne(f, g, pre, c, d, step);
    }
  }

  /** An earlier failure stays the first one. */
  lemma FailureSnoc(f: Frame, pre: seq<string>, c: string, step: (string, Data) -> Result<Data>, e: Error)
    requires Valid(f) && Has(f, c) && forall n | n in pre :: Has(f, n)
    requires FirstFailure(f, pre, step, e)
    ensures forall n | n in pre + [c] :: Has(f, n)
    ensures FirstFailure(f, pre + [c], step, e)
  {
    var cols := pre + [c];
    assert forall x | x in cols :: x in pre || x == c;
    var k :| 0 <= k < |pre| && step(pre[k], Get(f, pre[k])) == Err(e)
             && forall j | 0 <= j < k :: step(pre[j], Get(f, pre[j])).Ok?;
    assert forall j | 0 <= j <= k :: cols[j] == pre[j];
  }

  /** After a run of successes, the new column is the first failure. */
  lemma FailureLast(f: Frame, pre: seq<string>, c: string, step: (string, Data) -> Result<Data>, e: Error)
    requires Valid(f) && Has(f, c) && forall n | n in pre :: Has(f, n)
    requires forall x | x in pre :: step(x, Get(f, x)).Ok?
    requires step(c, Get(f, c)) == Err(e)
    ensures forall n | n in pre + [c] :: Has(f, n)
    ensures FirstFailure(f, pre + [c], step, e)
  {
    var cols := pre + [c];
    assert forall x | x in cols :: x in pre || x == c;
    assert cols[|pre|] == c;
    assert forall j | 0 <= j < |pre| :: cols[j] == pre[j] && pre[j] in pre;
  }

  /** Replacing one more column `c`, not among those already replaced, by its image. */
  lemma ReplaceOne(f: Frame, g: Frame, pre: seq<string>, c: string, d: Data, step: (string, Data) -> Result<Data>)
    requires Valid(f) && Valid(g) && g.rows == f.rows && Names(g) == Names(f)
    requires Has(f, c) && c !in pre && Len(d) == g.rows
    requires forall x | x in pre :: Has(f, x) && step(x, Get(f, x)).Ok? && Get(g, x) == step(x, Get(f, x)).value
    requires forall n | Has(f, n) && n !in pre :: Get(g, n) == Get(f, n)
    requires step(c, Get(f, c)) == Ok(d)
    ensures Names(Set(g, c, d)) == Names(f) && Get(Set(g, c, d), c) == d
    ensures forall x | x in pre :: Has(Set(g, c, d), x) && Get(Set(g, c, d), x) == step(x, Get(f, x)).value
    ensures forall n | Has(f, n) && n !in pre && n != c :: Has(Set(g, c, d), n) && Get(Set(g, c, d), n) == Get(f, n)
  {
    assert forall n :: Has(g, n) == Has(f, n);
  }

  // Median fill

  /** `fillna(v)`: every missing cell becomes `v`. */
  function FillNa<T>(xs: seq<Option<T>>, v: T): (r: seq<Option<T>>)
    ensures |r| == |xs|
    ensures forall i | 0 <= i < |xs| :: r[i] == if xs[i].None? then Some(v) else xs[i]
  {
    seq(|xs|, i requires 0 <= i < |xs| => if xs[i].None? then Some(v) else xs[i])
  }

  /** The numeric view of a column the median is taken over: every dtype but an object
      column holding a string, which makes `median` raise. */
  function NumberView(d: Data): (r: Option<seq<Option<real>>>)
    ensures r.Some? ==> |r.value| == Len(d)
    ensures r.Some? ==> forall i | 0 <= i < Len(d) ::
      r.value[i] == if CellAt(d, i).Num? then Some(CellAt(d, i).x) else None
    ensures r.None? <==> d.Objects? && exists i | 0 <= i < Len(d) :: CellAt(d, i).Str?
  {
    if d.Objects? && exists i | 0 <= i < Len(d) :: CellAt(d, i).Str? then None
    else
      assert forall i | 0 <= i < Len(d) :: !CellAt(d, i).Str?;
      Some(seq(Len(d), i requires 0 <= i < Len(d) => if CellAt(d, i).Num? then Some(CellAt(d, i).x) else None))
  }

  /** `median(skipna=True)`: None when no value is defined (NaN). */
  function MedianOf(xs: seq<Option<real>>): (m: Option<real>)
    ensures m.Some? <==> exists i | 0 <= i < |xs| :: xs[i].Some?
  {
    DefinedEmpty(xs);
    if Defined(xs) == [] then None else Some(Median(Defined(xs)))
  }

  predicate Integral(x: real)
  {
    x == x.Floor as real
  }

  /** The value `fillna(median)` writes into a column: the median itself, rounded down to
      a whole time point in a datetime column. */
  function FillValue(d: Data): Option<real>
  {
    match NumberView(d)
    case None => None
    case Some(xs) =>
      match MedianOf(xs)
      case None => None
      case Some(m) => if d.Stamps? then Some(m.Floor as real) else Some(m)
  }

  /** `out[c] = out[c].fillna(out[c].median(skipna=True))` on one column. It raises for an
      object column holding a string, and for an Int64 column with a missing cell whose
      median is not a whole number (the fill value cannot be written; without a missing
      cell `fillna` writes nothing). Otherwise the dtype is kept, every defined cell is
      kept, and every missing cell takes the median when there is one. */
  function FillColumn(name: string, d: Data): (r: Result<Data>)
    ensures r.Err? <==>
      || NumberView(d).None?
      || (d.Ints? && FillValue(d).Some? && !Integral(FillValue(d).value) && exists i | 0 <= i < Len(d) :: IsNa(d, i))
    ensures r.Err? ==> r.error == if d.Ints? then NotInteger(name) else NotNumeric(name)
    ensures r.Ok? ==> SameDtype(r.value, d) && Len(r.value) == Len(d)
    ensures r.Ok? ==> forall i | 0 <= i < Len(d) ::
      CellAt(r.value, i) == if IsNa(d, i) && FillValue(d).Some? then Num(FillValue(d).value) else CellAt(d, i)
  {
    match NumberView(d)
    case None => Err(NotNumeric(name))
    case Some(xs) =>
      match FillValue(d)
      case None => Ok(d)
      case Some(v) =>
        match d
        case Nums(ys) => Ok(Nums(FillNa(ys, v)))
        case Ints(ns) =>
          if Integral(v) then Ok(Ints(FillNa(ns, v.Floor)))
          else if exists i | 0 <= i < |ns| :: ns[i].None? then
            var i :| 0 <= i < |ns| && ns[i].None?;
            assert IsNa(d, i);
            Err(NotInteger(name))
          else Ok(d)
        case Stamps(ts) => Ok(Stamps(FillNa(ts, v.Floor)))
        case Objects(vs) =>
          Ok(Objects(seq(|vs|, i requires 0 <= i < |vs| => if vs[i].Null? then Num(v) else vs[i])))
  }

  /** A filled column has no missing cell left as soon as it had one defined value. */
  lemma FillColumnComplete(name: string, d: Data)
    requires FillColumn(name, d).Ok?
    requires exists i | 0 <= i < Len(d) :: !IsNa(d, i)
    ensures forall i | 0 <= i < Len(d) :: !IsNa(FillColumn(name, d).value, i)
  {
    var xs := NumberView(d).value;
    var i :| 0 <= i < Len(d) && !IsNa(d, i);
    assert xs[i].Some?;
  }

  /** A column without missing cells comes back unchanged whenever its median can be
      taken: `fillna` has nothing to write, so even a non-whole median on an Int64
      column raises nothing. */
  lemma FillColumnNoGap(name: string, d: Data)
    requires NumberView(d).Some? && forall i | 0 <= i < Len(d) :: !IsNa(d, i)
    ensures FillColumn(name, d) == Ok(d)
  {
    var r := FillColumn(name, d);
    assert r.Ok? && SameDtype(r.value, d) && Len(r.value) == Len(d);
    forall i | 0 <= i < Len(d) ensures CellAt(r.value, i) == CellAt(d, i) {
      assert !IsNa(d, i);
    }
    SameCells(r.value, d);
  }

  /** Two columns of one dtype with the same cells are the same column. */
  lemma SameCells(a: Data, b: Data)
    requires SameDtype(a, b) && Len(a) == Len(b)
    requires forall i | 0 <= i < Len(a) :: CellAt(a, i) == CellAt(b, i)
    ensures a == b
  {
    match a
    case Nums(xs) =>
      assert forall i | 0 <= i < |xs| :: CellAt(a, i) == CellAt(b, i) && xs[i] == b.xs[i];
    case Ints(ns) =>
      assert forall i | 0 <= i < |ns| :: CellAt(a, i) == CellAt(b, i) && ns[i] == b.ns[i];
    case Stamps(ts) =>
      assert forall i | 0 <= i < |ts| :: CellAt(a, i) == CellAt(b, i) && ts[i] == b.ts[i];
    case Objects(vs) =>
      assert forall i | 0 <= i < |vs| :: CellAt(a, i) == CellAt(b, i) && vs[i] == b.vs[i];
  }

  lemma FillKeepsLength()
    ensures KeepsLength(FillColumn)
  {
  }

  /** `fill_missing_median`. */
  method FillMissingMedian(df: Frame, columns: Option<seq<string>>) returns (r: Result<Frame>)
    requires Valid(df)
    ensures EnsureColumns(df, columns).Err? ==> r == Err(EnsureColumns(df, columns).error)
    ensures EnsureColumns(df, columns).Ok? ==> r == ApplyAll(df, EnsureColumns(df, columns).value, FillColumn)
  {
    var cols := EnsureColumns(df, columns);
    if cols.Err? {
      return Err(cols.error);
    }
    FillKeepsLength();
    var cs := cols.value;
    var out := df;
    var k := 0;
    while k < |cs|
      invariant k <= |cs| && ApplyAll(df, cs[..k], FillColumn) == Ok(out)
    {
      var c := cs[k];
      ApplyAllSnoc(df, cs, FillColumn, k, out);
      var filled := FillColumn(c, Get(out, c));
      if filled.Err? {
        ApplyAllErr(df, cs, FillColumn, k + 1);
        return Err(filled.error);
      }
      out := Set(out, c, filled.value);
      k := k + 1;
    }
    assert cs[..k] == cs;
    return Ok(out);
  }

  /** What `fill_missing_median` does to a frame, column by column, for a column list
      without repeats: it fails iff a selected column cannot be filled; otherwise each
      selected column is filled with its median and every other column is unchanged. */
  lemma FillMissingMedianColumns(df: Frame, cols: seq<string>)
    requires Valid(df) && Distinct(cols) && forall n | n in cols :: Has(df, n)
    ensures ApplyAll(df, cols, FillColumn).Ok? <==> forall c | c in cols :: FillColumn(c, Get(df, c)).Ok?
    ensures ApplyAll(df, cols, FillColumn).Err? ==> exists k | 0 <= k < |cols| ::
      && FillColumn(cols[k], Get(df, cols[k])) == Err(ApplyAll(df, cols, FillColumn).error)
      && forall j | 0 <= j < k :: FillColumn(cols[j], Get(df, cols[j])).Ok?
    ensures ApplyAll(df, cols, FillColumn).Ok? ==>
      && Names(ApplyAll(df, cols, FillColumn).value) == Names(df)
      && (forall c | c in cols :: Get(ApplyAll(df, cols, FillColumn).value, c) == FillColumn(c, Get(df, c)).value)
      && (forall n | Has(df, n) && n !in cols :: Get(ApplyAll(df, cols, FillColumn).value, n) == Get(df, n))
  {
    FillKeepsLength();
    ApplyAllDistinct(df, cols, FillColumn);
  }

  // Missing-fraction filters

  /** Row `i` survives `drop_missing(axis="rows")`: its share of missing cells is at most
      the threshold. With no columns the share is NaN and the row is dropped. */
  predicate RowKept(f: Frame, threshold: real, i: nat)
    requires Valid(f) && i < f.rows
  {
    |f.columns| > 0 && (RowNa(f.columns, i) as real) / (|f.columns| as real) <= threshold
  }

  /** Column `j` survives `drop_missing(axis="cols")`; with no rows its share is NaN. */
  predicate ColumnKept(f: Frame, threshold: real, j: nat)
    requires Valid(f) && j < |f.columns|
  {
    f.rows > 0 && (CountNa(f.columns[j].data, f.rows) as real) / (f.rows as real) <= threshold
  }

  /** The positions below `n` of the rows that survive, in ascending order. */
  function KeptRows(f: Frame, threshold: real, n: nat): (r: seq<nat>)
    requires Valid(f) && n <= f.rows
    ensures forall k | 0 <= k < |r| :: r[k] < n && RowKept(f, threshold, r[k])
    ensures forall i | 0 <= i < n && RowKept(f, threshold, i) :: i in r
    ensures forall k, l | 0 <= k < l < |r| :: r[k] < r[l]
  {
    if n == 0 then [] else KeptRows(f, threshold, n - 1) + (if RowKept(f, threshold, n - 1) then [n - 1] else [])
  }

  /** The positions below `n` of the columns that survive, in ascending order. */
  function KeptColumns(f: Frame, threshold: real, n: nat): (r: seq<nat>)
    requires Valid(f) && n <= |f.columns|
    ensures forall k | 0 <= k < |r| :: r[k] < n && ColumnKept(f, threshold, r[k])
    ensures forall j | 0 <= j < n && ColumnKept(f, threshold, j) :: j in r
    ensures forall k, l | 0 <= k < l < |r| :: r[k] < r[l]
  {
    if n == 0 then [] else KeptColumns(f, threshold, n - 1) + (if ColumnKept(f, threshold, n - 1) then [n - 1] else [])
  }

  /** The columns at ascending positions `idx`, rows untouched. */
  function PickColumns(f: Frame, idx: seq<nat>): (r: Frame)
    requires Valid(f)
    requires forall k | 0 <= k < |idx| :: idx[k] < |f.columns|
    requires forall k, l | 0 <= k < l < |idx| :: idx[k] < idx[l]
    ensures Valid(r) && r.rows == f.rows && r.source == f.source
    ensures |r.columns| == |idx| && forall k | 0 <= k < |idx| :: r.columns[k] == f.columns[idx[k]]
  {
    Frame(f.rows, seq(|idx|, k requires 0 <= k < |idx| => f.columns[idx[k]]), f.source)
  }

  predicate RowAxis(axis: string)
  {
    Lower(axis) in {"rows", "row", "r"}
  }

  predicate ColumnAxis(axis: string)
  {
    Lower(axis) in {"cols", "columns", "c", "column"}
  }

  /** `drop_missing`: a threshold outside [0, 1] or an unknown axis is an error; on the row
      axis exactly the rows whose missing share is at most the threshold are kept, in order,
      with every column; on the column axis exactly such columns are kept, in order, with
      every row. */
  function DropMissing(f: Frame, threshold: real, axis: string): (r: Result<Frame>)
    requires Valid(f)
    ensures !(0.0 <= threshold <= 1.0) ==> r == Err(ThresholdOutOfRange)
    ensures 0.0 <= threshold <= 1.0 && !RowAxis(axis) && !ColumnAxis(axis) ==> r == Err(UnknownAxis)
    ensures 0.0 <= threshold <= 1.0 && RowAxis(axis) ==>
      && r.Ok? && Valid(r.value) && Names(r.value) == Names(f) && r.value.source == f.source
      && exists idx: seq<nat> ::
        && |idx| == r.value.rows
        && (forall k, l | 0 <= k < l < |idx| :: idx[k] < idx[l])
        && (forall i | 0 <= i < f.rows :: i in idx <==> RowKept(f, threshold, i))
        && (forall k | 0 <= k < |idx| :: idx[k] < f.rows)
        && r.value == TakeRows(f, idx)
    ensures 0.0 <= threshold <= 1.0 && !RowAxis(axis) && ColumnAxis(axis) ==>
      && r.Ok? && Valid(r.value) && r.value.rows == f.rows && r.value.source == f.source
      && exists idx: seq<nat> ::
        && |idx| == |r.value.columns|
        && (forall k, l | 0 <= k < l < |idx| :: idx[k] < idx[l])
        && (forall j | 0 <= j < |f.columns| :: j in idx <==> ColumnKept(f, threshold, j))
        && (forall k | 0 <= k < |idx| :: idx[k] < |f.columns| && r.value.columns[k] == f.columns[idx[k]])
  {
    if !(0.0 <= threshold <= 1.0) then Err(ThresholdOutOfRange)
    else if RowAxis(axis) then
      var idx := KeptRows(f, threshold, f.rows);
      Ok(TakeRows(f, idx))
    else if ColumnAxis(axis) then
      var idx := KeptColumns(f, threshold, |f.columns|);
      Ok(PickColumns(f, idx))
    else Err(UnknownAxis)
  }

  /** A share of at most one: a count never exceeds its total. */
  lemma ShareAtMostOne(c: nat, n: nat)
    requires 0 < n && c <= n
    ensures (c as real) / (n as real) <= 1.0
  {
  }

  /** With threshold 1 every row survives as long as there is a column, and every column
      survives as long as there is a row. */
  lemma ThresholdOneKeepsAll(f: Frame)
    requires Valid(f)
    ensures |f.columns| > 0 ==> forall i | 0 <= i < f.rows :: RowKept(f, 1.0, i)
    ensures f.rows > 0 ==> forall j | 0 <= j < |f.columns| :: ColumnKept(f, 1.0, j)
  {
    forall i | 0 <= i < f.rows && |f.columns| > 0 ensures RowKept(f, 1.0, i) {
      ShareAtMostOne(RowNa(f.columns, i), |f.columns|);
    }
    forall j | 0 <= j < |f.columns| && f.rows > 0 ensures ColumnKept(f, 1.0, j) {
      ShareAtMostOne(CountNa(f.columns[j].data, f.rows), f.rows);
    }
  }

  // Z-score normalisation

  /** `(x - m) / d` on every defined cell; missing cells stay missing. */
  function AffineCells(xs: seq<Option<real>>, m: real, d: real): (r: seq<Option<real>>)
    requires d != 0.0
    ensures |r| == |xs|
    ensures forall i | 0 <= i < |xs| :: r[i] == if xs[i].Some? then Some((xs[i].value - m) / d) else None
  {
    seq(|xs|, i requires 0 <= i < |xs| => if xs[i].Some? then Some((xs[i].value - m) / d) else None)
  }

  lemma {:induction false} DefinedAffine(xs: seq<Option<real>>, m: real, d: real)
    requires d != 0.0
    ensures Defined(AffineCells(xs, m, d)) == Affine(Defined(xs), m, d)
  {
    if xs != [] {
      var ys := AffineCells(xs, m, d);
      DefinedAffine(xs[1..], m, d);
      assert ys[1..] == AffineCells(xs[1..], m, d);
      if xs[0].Some? {
        var x := xs[0].value;
        var rest := Defined(xs[1..]);
        assert Defined(xs) == [x] + rest;
        assert Defined(ys) == [ys[0].value] + Affine(rest, m, d);
        AffineCons(x, rest, m, d);
        assert ys[0].value == (x - m) / d;
      } else {
        assert ys[0].None?;
        assert Defined(ys) == [] + Defined(ys[1..]);
        assert Defined(xs) == [] + Defined(xs[1..]);
      }
    }
  }

  lemma AffineCons(x: real, s: seq<real>, m: real, d: real)
    requires d != 0.0
    ensures Affine([x] + s, m, d) == [(x - m) / d] + Affine(s, m, d)
  {
    var l, r := Affine([x] + s, m, d), [(x - m) / d] + Affine(s, m, d);
    assert |l| == |r|;
    forall i | 0 <= i < |l| ensures l[i] == r[i] {
      if i > 0 {
        assert ([x] + s)[i] == s[i - 1];
      }
    }
  }

  /** The z-scores `(s - s.mean()) / s.std(ddof=0)` of a column: a column whose defined
      values are all equal (standard deviation 0) becomes 0.0 everywhere, missing cells
      included; a column without defined values stays all-missing. */
  function ZScores(xs: seq<Option<real>>, sqrt: real -> real): (r: seq<Option<real>>)
    ensures |r| == |xs|
  {
    var v := Defined(xs);
    if v == [] then xs
    else
      var sd := sqrt(PopVariance(v));
      if sd == 0.0 then seq(|xs|, i => Some(0.0))
      else AffineCells(xs, Mean(v), sd)
  }

  /** A column with at least one defined value, all of them equal, becomes all 0.0. */
  lemma ZScoresConstant(xs: seq<Option<real>>, sqrt: real -> real)
    requires IsSqrt(sqrt) && Defined(xs) != [] && Constant(Defined(xs))
    ensures forall i | 0 <= i < |xs| :: ZScores(xs, sqrt)[i] == Some(0.0)
  {
    var v := Defined(xs);
    VarianceZeroIffConstant(v);
    SqrtZero(sqrt, PopVariance(v));
  }

  /** Otherwise each defined value becomes `(x - mean) / std`, missing cells stay missing,
      and the defined z-scores have mean 0 and variance 1. */
  lemma ZScoresStandardize(xs: seq<Option<real>>, sqrt: real -> real)
    requires IsSqrt(sqrt) && Defined(xs) != [] && !Constant(Defined(xs))
    ensures sqrt(PopVariance(Defined(xs))) > 0.0
    ensures ZScores(xs, sqrt) == AffineCells(xs, Mean(Defined(xs)), sqrt(PopVariance(Defined(xs))))
    ensures |Defined(ZScores(xs, sqrt))| == |Defined(xs)|
    ensures Mean(Defined(ZScores(xs, sqrt))) == 0.0
    ensures PopVariance(Defined(ZScores(xs, sqrt))) == 1.0
  {
    var v := Defined(xs);
    VarianceZeroIffConstant(v);
    SqrtZero(sqrt, PopVariance(v));
    var sd := sqrt(PopVariance(v));
    DefinedAffine(xs, Mean(v), sd);
    StandardizedSumZero(v, sd);
    StandardizedVariance(v, sqrt);
  }

  /** Normalising a normalised column changes nothing. */
  lemma ZScoresIdempotent(xs: seq<Option<real>>, sqrt: real -> real)
    requires IsSqrt(sqrt)
    ensures ZScores(ZScores(xs, sqrt), sqrt) == ZScores(xs, sqrt)
  {
    var v := Defined(xs);
    var ys := ZScores(xs, sqrt);
    if v == [] {
    } else if Constant(v) {
      ZScoresConstant(xs, sqrt);
      DefinedAll(ys);
      var w := Defined(ys);
      assert forall i | 0 <= i < |w| :: w[i] == 0.0;
      assert w != [] && Constant(w);
      ZScoresConstant(ys, sqrt);
    } else {
      ZScoresStandardize(xs, sqrt);
      var w := Defined(ys);
      SqrtOne(sqrt);
      assert w != [];
      assert ZScores(ys, sqrt) == AffineCells(ys, 0.0, 1.0);
    }
  }

  /** `out[c] = ... (s - mu) / sd` on one column after `astype(float)`, which raises for
      a datetime column and for a string `float` cannot read. */
  function NormalizeColumn(name: string, d: Data, read: FloatReader, sqrt: real -> real): (r: Result<Data>)
    ensures r.Err? <==> CastFloat(d, read).None?
    ensures r.Err? ==> r.error == NotNumeric(name)
    ensures r.Ok? ==> r.value == Nums(ZScores(CastFloat(d, read).value, sqrt)) && Len(r.value) == Len(d)
  {
    match CastFloat(d, read)
    case None => Err(NotNumeric(name))
    case Some(xs) => Ok(Nums(ZScores(xs, sqrt)))
  }

  function NormalizeStep(read: FloatReader, sqrt: real -> real): (string, Data) -> Result<Data>
  {
    (n: string, d: Data) => NormalizeColumn(n, d, read, sqrt)
  }

  lemma NormalizeKeepsLength(read: FloatReader, sqrt: real -> real)
    ensures KeepsLength(NormalizeStep(read, sqrt))
  {
    forall n, d ensures NormalizeStep(read, sqrt)(n, d).Ok? ==> Len(NormalizeStep(read, sqrt)(n, d).value) == Len(d) {
      assert NormalizeStep(read, sqrt)(n, d) == NormalizeColumn(n, d, read, sqrt);
    }
  }

  /** `normalize_data`: the column list is checked first, then the method name (any case
      of "zscore"); then each selected column is replaced by its z-scores. */
  method NormalizeData(df: Frame, columns: Option<seq<string>>, methodName: string, read: FloatReader, sqrt: real -> real)
    returns (r: Result<Frame>)
    requires Valid(df)
    ensures EnsureColumns(df, columns).Err? ==> r == Err(EnsureColumns(df, columns).error)
    ensures EnsureColumns(df, columns).Ok? && Lower(methodName) != "zscore" ==> r == Err(UnsupportedMethod)
    ensures EnsureColumns(df, columns).Ok? && Lower(methodName) == "zscore" ==>
      r == ApplyAll(df, EnsureColumns(df, columns).value, NormalizeStep(read, sqrt))
  {
    var cols := EnsureColumns(df, columns);
    if cols.Err? {
      return Err(cols.error);
    }
    if Lower(methodName) != "zscore" {
      return Err(UnsupportedMethod);
    }
    NormalizeKeepsLength(read, sqrt);
    var cs := cols.value;
    var out := df;
    var k := 0;
    while k < |cs|
      invariant k <= |cs| && ApplyAll(df, cs[..k], NormalizeStep(read, sqrt)) == Ok(out)
    {
      var c := cs[k];
      ApplyAllSnoc(df, cs, NormalizeStep(read, sqrt), k, out);
      var z := NormalizeColumn(c, Get(out, c), read, sqrt);
      assert z == NormalizeStep(read, sqrt)(c, Get(out, c));
      if z.Err? {
        ApplyAllErr(df, cs, NormalizeStep(read, sqrt), k + 1);
        return Err(z.error);
      }
      out := Set(out, c, z.value);
      k := k + 1;
    }
    assert cs[..k] == cs;
    return Ok(out);
  }

  /** What `normalize_data` does column by column, for a column list without repeats:
      it fails iff `astype(float)` cannot convert a selected column; otherwise each selected column holds
      its z-scores and every other column is unchanged. */
  lemma NormalizeDataColumns(df: Frame, cols: seq<string>, read: FloatReader, sqrt: real -> real)
    requires Valid(df) && Distinct(cols) && forall n | n in cols :: Has(df, n)
    ensures ApplyAll(df, cols, NormalizeStep(read, sqrt)).Ok? <==> forall c | c in cols :: CastFloat(Get(df, c), read).Some?
    ensures ApplyAll(df, cols, NormalizeStep(read, sqrt)).Ok? ==>
      && Names(ApplyAll(df, cols, NormalizeStep(read, sqrt)).value) == Names(df)
      && (forall c | c in cols ::
            Get(ApplyAll(df, cols, NormalizeStep(read, sqrt)).value, c) == Nums(ZScores(CastFloat(Get(df, c), read).value, sqrt)))
      && (forall n | Has(df, n) && n !in cols :: Get(ApplyAll(df, cols, NormalizeStep(read, sqrt)).value, n) == Get(df, n))
  {
    NormalizeKeepsLength(read, sqrt);
    ApplyAllDistinct(df, cols, NormalizeStep(read, sqrt));
    assert forall c | c in cols :: NormalizeStep(read, sqrt)(c, Get(df, c)) == NormalizeColumn(c, Get(df, c), read, sqrt);
  }

  // Z-score clipping

  function Abs(x: real): (r: real)
    ensures 0.0 <= r && (r == x || r == -x)
  {
    if x < 0.0 then -x else x
  }

  /** Clipping `x` between `lo` and `hi`: raise to `lo`, then lower to `hi`. */
  function Clip(x: real, lo: real, hi: real): real
  {
    var y := if x < lo then lo else x;
    if y > hi then hi else y
  }

  /** `np.clip(zvals, -z, z)` on a Series: pandas orders two scalar bounds before clipping,
      so the band is [-|z|, |z|] whatever the sign of `z`. Missing cells stay missing. */
  function ClipCells(xs: seq<Option<real>>, z: real): (r: seq<Option<real>>)
    ensures |r| == |xs|
    ensures forall i | 0 <= i < |xs| :: r[i].Some? == xs[i].Some?
    ensures forall i | 0 <= i < |xs| && r[i].Some? :: -Abs(z) <= r[i].value <= Abs(z)
    ensures forall i | 0 <= i < |xs| && xs[i].Some? && -Abs(z) <= xs[i].value <= Abs(z) :: r[i] == xs[i]
    ensures forall i | 0 <= i < |xs| && xs[i].Some? && xs[i].value < -Abs(z) :: r[i] == Some(-Abs(z))
    ensures forall i | 0 <= i < |xs| && xs[i].Some? && Abs(z) < xs[i].value :: r[i] == Some(Abs(z))
  {
    var lo := if -z <= z then -z else z;
    var hi := if -z <= z then z else -z;
    seq(|xs|, i requires 0 <= i < |xs| => if xs[i].Some? then Some(Clip(xs[i].value, lo, hi)) else None)
  }

  /** One turn of `clip_extreme_zscores`: a column `astype(float)` cannot convert raises; a column whose
      standard deviation is 0 is skipped and keeps its cells and dtype; any other column
      becomes its z-scores clipped to [-|z|, |z|]. */
  function ClipColumn(name: string, d: Data, z: real, read: FloatReader, sqrt: real -> real): (r: Result<Data>)
    ensures r.Err? <==> CastFloat(d, read).None?
    ensures r.Err? ==> r.error == NotNumeric(name)
    ensures r.Ok? ==> Len(r.value) == Len(d)
  {
    match CastFloat(d, read)
    case None => Err(NotNumeric(name))
    case Some(xs) =>
      var v := Defined(xs);
      if v != [] && sqrt(PopVariance(v)) == 0.0 then Ok(d)
      else Ok(Nums(ClipCells(ZScores(xs, sqrt), z)))
  }

  /** A clipped column is either left alone (it was constant) or holds z-scores in
      [-|z|, |z|] at exactly the cells defined after the cast, z-scores already inside the
      band passing unchanged and the others moved to the nearer bound. */
  lemma ClipColumnBounds(name: string, d: Data, z: real, read: FloatReader, sqrt: real -> real)
    requires IsSqrt(sqrt) && CastFloat(d, read).Some?
    ensures Defined(CastFloat(d, read).value) != [] && Constant(Defined(CastFloat(d, read).value)) ==>
      ClipColumn(name, d, z, read, sqrt) == Ok(d)
    ensures (Defined(CastFloat(d, read).value) == [] || !Constant(Defined(CastFloat(d, read).value))) ==>
      && ClipColumn(name, d, z, read, sqrt).Ok? && ClipColumn(name, d, z, read, sqrt).value.Nums?
      && var ys := ClipColumn(name, d, z, read, sqrt).value.xs;
         var zs := ZScores(CastFloat(d, read).value, sqrt);
         && (forall i | 0 <= i < |ys| :: ys[i].Some? <==> CastFloat(d, read).value[i].Some?)
         && (forall i | 0 <= i < |ys| && ys[i].Some? :: -Abs(z) <= ys[i].value <= Abs(z))
         && (forall i | 0 <= i < |ys| && zs[i].Some? && -Abs(z) <= zs[i].value <= Abs(z) :: ys[i] == zs[i])
         && (forall i | 0 <= i < |ys| && zs[i].Some? && zs[i].value < -Abs(z) :: ys[i] == Some(-Abs(z)))
         && (forall i | 0 <= i < |ys| && zs[i].Some? && Abs(z) < zs[i].value :: ys[i] == Some(Abs(z)))
  {
    var xs := CastFloat(d, read).value;
    var v := Defined(xs);
    if v != [] {
      VarianceZeroIffConstant(v);
      SqrtZero(sqrt, PopVariance(v));
    } else {
      DefinedEmpty(xs);
    }
  }

  function ClipStep(z: real, read: FloatReader, sqrt: real -> real): (string, Data) -> Result<Data>
  {
    (n: string, d: Data) => ClipColumn(n, d, z, read, sqrt)
  }

  lemma ClipKeepsLength(z: real, read: FloatReader, sqrt: real -> real)
    ensures KeepsLength(ClipStep(z, read, sqrt))
  {
    forall n, d ensures ClipStep(z, read, sqrt)(n, d).Ok? ==> Len(ClipStep(z, read, sqrt)(n, d).value) == Len(d) {
      assert ClipStep(z, read, sqrt)(n, d) == ClipColumn(n, d, z, read, sqrt);
    }
  }

  /** `clip_extreme_zscores`. */
  method ClipExtremeZscores(df: Frame, columns: Option<seq<string>>, z: real, read: FloatReader, sqrt: real -> real)
    returns (r: Result<Frame>)
    requires Valid(df)
    ensures EnsureColumns(df, columns).Err? ==> r == Err(EnsureColumns(df, columns).error)
    ensures EnsureColumns(df, columns).Ok? ==> r == ApplyAll(df, EnsureColumns(df, columns).value, ClipStep(z, read, sqrt))
  {
    var cols := EnsureColumns(df, columns);
    if cols.Err? {
      return Err(cols.error);
    }
    ClipKeepsLength(z, read, sqrt);
    var cs := cols.value;
    var out := df;
    var k := 0;
    while k < |cs|
      invariant k <= |cs| && ApplyAll(df, cs[..k], ClipStep(z, read, sqrt)) == Ok(out)
    {
      var c := cs[k];
      ApplyAllSnoc(df, cs, ClipStep(z, read, sqrt), k, out);
      var clipped := ClipColumn(c, Get(out, c), z, read, sqrt);
      assert clipped == ClipStep(z, read, sqrt)(c, Get(out, c));
      if clipped.Err? {
        ApplyAllErr(df, cs, ClipStep(z, read, sqrt), k + 1);
        return Err(clipped.error);
      }
      out := Set(out, c, clipped.value);
      k := k + 1;
    }
    assert cs[..k] == cs;
    return Ok(out);
  }

  /** What `clip_extreme_zscores` does column by column, for a column list without
      repeats: it fails iff `astype(float)` cannot convert a selected column; otherwise each selected
      column is clipped on its own and every other column is unchanged. */
  lemma ClipExtremeZscoresColumns(df: Frame, cols: seq<string>, z: real, read: FloatReader, sqrt: real -> real)
    requires Valid(df) && Distinct(cols) && forall n | n in cols :: Has(df, n)
    ensures ApplyAll(df, cols, ClipStep(z, read, sqrt)).Ok? <==> forall c | c in cols :: CastFloat(Get(df, c), read).Some?
    ensures ApplyAll(df, cols, ClipStep(z, read, sqrt)).Ok? ==>
      && Names(ApplyAll(df, cols, ClipStep(z, read, sqrt)).value) == Names(df)
      && (forall c | c in cols ::
            Ok(Get(ApplyAll(df, cols, ClipStep(z, read, sqrt)).value, c)) == ClipColumn(c, Get(df, c), z, read, sqrt))
      && (forall n | Has(df, n) && n !in cols :: Get(ApplyAll(df, cols, ClipStep(z, read, sqrt)).value, n) == Get(df, n))
  {
    ClipKeepsLength(z, read, sqrt);
    ApplyAllDistinct(df, cols, ClipStep(z, read, sqrt));
    assert forall c | c in cols :: ClipStep(z, read, sqrt)(c, Get(df, c)) == ClipColumn(c, Get(df, c), z, read, sqrt);
  }
}
