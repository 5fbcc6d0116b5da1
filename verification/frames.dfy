/** The table substrate the pipeline runs on: pandas data frames taken as values.
    A frame is a row count, an ordered list of uniquely named columns of that length,
    and the `source_file` attribute that `load_latest_processed` attaches. Every column
    has one dtype; a missing cell (NaN, NaT, pd.NA or None) is `None` or `Null`. */
module Frames {

  datatype Option<+T> = None | Some(value: T)

  /** The exceptions the pipeline raises, with what their messages report. */
  datatype Error =
    | ColumnsNotFound(names: seq<string>)   // ValueError "Columns not in DataFrame: [...]"
    | KeysNotFound(names: seq<string>)      // KeyError naming absent columns, in order
    | KeySetNotFound(keys: set<string>)     // KeyError naming a set of absent columns
    | PriceColumnNotFound(name: string)     // ValueError "Price column ... not found."
    | ThresholdOutOfRange                   // ValueError "`threshold` must be between 0 and 1."
    | UnknownAxis                           // ValueError "`axis` must be 'rows' or 'cols'."
    | UnsupportedMethod                     // ValueError "Only method='zscore' supported."
    | NotNumeric(column: string)            // TypeError/ValueError converting a column to float
    | NotInteger(column: string)            // TypeError casting non-integral values to Int64
    | NaToInteger                           // ValueError "cannot convert NA to integer"
    | BadPayload                            // ValueError "Payload must contain an object 'features' ..."
    | MissingFeatures(names: seq<string>)   // ValueError "Missing feature(s): [...]"
    | FeatureNotNumeric(name: string)       // ValueError "All features must be numeric: ..."
    | NoProcessedFiles                      // FileNotFoundError from `load_latest_processed`
    | DatesNotComparable                    // TypeError sorting a text date column that holds a number
    | NoSavedModel                          // FileNotFoundError from `joblib.load`
    | UnsupportedFormat(path: string)       // ValueError "Unsupported format: ..."

  datatype Result<+T> = Ok(value: T) | Err(error: Error)

  /** A cell of an object column, as it comes from a file before any cast. */
  datatype Cell = Null | Num(x: real) | Str(s: string)

  /** The cells of one column, by dtype. */
  datatype Data =
    | Nums(xs: seq<Option<real>>)    // float64
    | Ints(ns: seq<Option<int>>)     // nullable Int64
    | Stamps(ts: seq<Option<int>>)   // datetime64, a time point as an integer; NaT is None
    | Objects(vs: seq<Cell>)         // object

  datatype Column = Column(name: string, data: Data)

  datatype Frame = Frame(rows: nat, columns: seq<Column>, source: Option<string>)

  /** The string parsers behind `pd.to_numeric` and `pd.to_datetime` with `errors="coerce"`:
      None where a string does not parse. */
  datatype Parsers = Parsers(number: string -> Option<real>, stamp: string -> Option<int>)

  function Len(d: Data): nat
  {
    match d
    case Nums(xs) => |xs|
    case Ints(ns) => |ns|
    case Stamps(ts) => |ts|
    case Objects(vs) => |vs|
  }

  /** `isna()` of one cell. */
  predicate IsNa(d: Data, i: nat)
    requires i < Len(d)
  {
    match d
    case Nums(xs) => xs[i].None?
    case Ints(ns) => ns[i].None?
    case Stamps(ts) => ts[i].None?
    case Objects(vs) => vs[i].Null?
  }

  /** One cell, seen as a number, a string or missing, whatever the dtype. */
  function CellAt(d: Data, i: nat): (c: Cell)
    requires i < Len(d)
    ensures c.Null? <==> IsNa(d, i)
  {
    match d
    case Nums(xs) => if xs[i].Some? then Num(xs[i].value) else Null
    case Ints(ns) => if ns[i].Some? then Num(ns[i].value as real) else Null
    case Stamps(ts) => if ts[i].Some? then Num(ts[i].value as real) else Null
    case Objects(vs) => vs[i]
  }

  /** Two columns of the same dtype. */
  predicate SameDtype(a: Data, b: Data)
  {
    (a.Nums? && b.Nums?) || (a.Ints? && b.Ints?) || (a.Stamps? && b.Stamps?) || (a.Objects? && b.Objects?)
  }

  /** `select_dtypes(include=["number"])`: float64 and Int64 columns. */
  predicate IsNumeric(d: Data)
  {
    d.Nums? || d.Ints?
  }

  /** Equal column lengths and unique column names. */
  ghost predicate Valid(f: Frame)
  {
    && (forall j | 0 <= j < |f.columns| :: Len(f.columns[j].data) == f.rows)
    && (forall i, j | 0 <= i < j < |f.columns| :: f.columns[i].name != f.columns[j].name)
  }

  function Names(f: Frame): (r: seq<string>)
    ensures |r| == |f.columns|
    ensures forall j | 0 <= j < |r| :: r[j] == f.columns[j].name
  {
    seq(|f.columns|, j requires 0 <= j < |f.columns| => f.columns[j].name)
  }

  function NameSet(f: Frame): (r: set<string>)
    ensures forall n :: n in r <==> n in Names(f)
  {
    set n | n in Names(f)
  }

  predicate Has(f: Frame, name: string)
  {
    name in Names(f)
  }

  function FindIn(cols: seq<Column>, name: string): (k: nat)
    ensures k <= |cols|
    ensures k < |cols| ==> cols[k].name == name
    ensures forall j | 0 <= j < k :: cols[j].name != name
    ensures (exists j | 0 <= j < |cols| :: cols[j].name == name) ==> k < |cols|
  {
    if cols == [] then 0
    else if cols[0].name == name then 0
    else 1 + FindIn(cols[1..], name)
  }

  /** The position of a column. */
  function Find(f: Frame, name: string): (k: nat)
    requires Has(f, name)
    ensures k < |f.columns| && f.columns[k].name == name
    ensures forall j | 0 <= j < k :: f.columns[j].name != name
  {
    assert exists j | 0 <= j < |f.columns| :: f.columns[j].name == name by {
      var j :| 0 <= j < |Names(f)| && Names(f)[j] == name;
    }
    FindIn(f.columns, name)
  }

  lemma FindAt(f: Frame, j: nat)
    requires Valid(f) && j < |f.columns|
    ensures Has(f, f.columns[j].name) && Find(f, f.columns[j].name) == j
  {
    assert Names(f)[j] == f.columns[j].name;
  }

  /** `df[name]`. */
  function Get(f: Frame, name: string): (d: Data)
    requires Has(f, name)
  {
    f.columns[Find(f, name)].data
  }

  /** `df[name] = d`: overwrite the column in place, or append it at the end. */
  function Set(f: Frame, name: string, d: Data): (r: Frame)
    requires Valid(f) && Len(d) == f.rows
    ensures Valid(r) && r.rows == f.rows && r.source == f.source
    ensures Has(f, name) ==> r.columns == f.columns[Find(f, name) := Column(name, d)]
    ensures !Has(f, name) ==> r.columns == f.columns + [Column(name, d)]
    ensures Names(r) == if Has(f, name) then Names(f) else Names(f) + [name]
    ensures Has(r, name) && Get(r, name) == d
    ensures forall n | n != name :: Has(r, n) == Has(f, n)
    ensures forall n | n != name && Has(f, n) :: Get(r, n) == Get(f, n)
  {
    var r := if Has(f, name) then f.(columns := f.columns[Find(f, name) := Column(name, d)])
             else f.(columns := f.columns + [Column(name, d)]);
    SetFacts(f, name, d, r);
    r
  }

  lemma SetFacts(f: Frame, name: string, d: Data, r: Frame)
    requires Valid(f) && Len(d) == f.rows
    requires r == if Has(f, name) then f.(columns := f.columns[Find(f, name) := Column(name, d)])
                  else f.(columns := f.columns + [Column(name, d)])
    ensures Valid(r)
    ensures Names(r) == if Has(f, name) then Names(f) else Names(f) + [name]
    ensures Has(r, name) && Get(r, name) == d
    ensures forall n | n != name :: Has(r, n) == Has(f, n)
    ensures forall n | n != name && Has(f, n) :: Get(r, n) == Get(f, n)
  {
    var k := if Has(f, name) then Find(f, name) else |f.columns|;
    assert r.columns[k].name == name;
    forall i, j | 0 <= i < j < |r.columns| ensures r.columns[i].name != r.columns[j].name {
      if j == k {
        if !Has(f, name) { assert Names(f)[i] == f.columns[i].name; }
      } else if i == k {
        assert f.columns[k].name == name;
      }
    }
    FindAt(r, k);
    forall n | n != name
      ensures Has(r, n) == Has(f, n)
      ensures Has(f, n) ==> Get(r, n) == Get(f, n)
    {
      if Has(f, n) {
        FindAt(r, Find(f, n));
      }
      if Has(r, n) {
        FindAt(f, Find(r, n));
      }
    }
  }

  /** The cells at positions `idx`, in that order (`iloc[idx]` of one column). */
  function TakeData(d: Data, idx: seq<nat>): (r: Data)
    requires forall k | 0 <= k < |idx| :: idx[k] < Len(d)
    ensures Len(r) == |idx|
    ensures forall k | 0 <= k < |idx| :: IsNa(r, k) == IsNa(d, idx[k])
  {
    match d
    case Nums(xs) => assert Len(d) == |xs|; Nums(seq(|idx|, k requires 0 <= k < |idx| => xs[idx[k]]))
    case Ints(ns) => assert Len(d) == |ns|; Ints(seq(|idx|, k requires 0 <= k < |idx| => ns[idx[k]]))
    case Stamps(ts) => assert Len(d) == |ts|; Stamps(seq(|idx|, k requires 0 <= k < |idx| => ts[idx[k]]))
    case Objects(vs) => assert Len(d) == |vs|; Objects(seq(|idx|, k requires 0 <= k < |idx| => vs[idx[k]]))
  }

  /** Writing a column's own cells back leaves the frame as it was. */
  lemma SetGet(f: Frame, name: string)
    requires Valid(f) && Has(f, name)
    ensures Len(Get(f, name)) == f.rows && Set(f, name, Get(f, name)) == f
  {
    var k := Find(f, name);
    assert f.columns[k := Column(name, Get(f, name))] == f.columns;
  }

  /** The rows at positions `idx`, in that order, with every column and the attributes kept. */
  function TakeRows(f: Frame, idx: seq<nat>): (r: Frame)
    requires Valid(f)
    requires forall k | 0 <= k < |idx| :: idx[k] < f.rows
    ensures Valid(r) && r.rows == |idx| && r.source == f.source
    ensures |r.columns| == |f.columns| && Names(r) == Names(f)
    ensures forall j | 0 <= j < |f.columns| ::
      r.columns[j] == Column(f.columns[j].name, TakeData(f.columns[j].data, idx))
  {
    var r := Frame(|idx|, seq(|f.columns|, j requires 0 <= j < |f.columns| =>
                Column(f.columns[j].name, TakeData(f.columns[j].data, idx))), f.source);
    assert Names(r) == Names(f);
    r
  }

  function Range(n: nat): (r: seq<nat>)
    ensures |r| == n && forall i | 0 <= i < n :: r[i] == i
  {
    seq(n, i requires 0 <= i < n => i)
  }

  lemma TakeAll(d: Data)
    ensures TakeData(d, Range(Len(d))) == d
  {
    match d
    case Nums(xs) => assert TakeData(d, Range(Len(d))).xs == xs;
    case Ints(ns) => assert TakeData(d, Range(Len(d))).ns == ns;
    case Stamps(ts) => assert TakeData(d, Range(Len(d))).ts == ts;
    case Objects(vs) => assert TakeData(d, Range(Len(d))).vs == vs;
  }

  /** Taking every row in order gives the frame back. */
  lemma TakeRowsAll(f: Frame)
    requires Valid(f)
    ensures TakeRows(f, Range(f.rows)) == f
  {
    var r := TakeRows(f, Range(f.rows));
    forall j | 0 <= j < |f.columns| ensures r.columns[j] == f.columns[j] {
      TakeAll(f.columns[j].data);
    }
    assert r.columns == f.columns;
  }

  /** Two frames with the same rows, attributes and column names are equal as soon as
      every named column holds the same cells. */
  lemma FrameExt(f: Frame, g: Frame)
    requires Valid(f) && Valid(g) && f.rows == g.rows && f.source == g.source && Names(f) == Names(g)
    requires forall n | Has(f, n) :: Get(f, n) == Get(g, n)
    ensures f == g
  {
    forall j | 0 <= j < |f.columns| ensures f.columns[j] == g.columns[j] {
      assert Names(f)[j] == Names(g)[j];
      FindAt(f, j);
      FindAt(g, j);
    }
    assert |f.columns| == |Names(f)| == |Names(g)| == |g.columns|;
    assert f.columns == g.columns;
  }

  predicate Distinct(s: seq<string>)
  {
    forall i, j | 0 <= i < j < |s| :: s[i] != s[j]
  }

  /** `df[names]`: the named columns in the order given. */
  function SelectColumns(f: Frame, names: seq<string>): (r: Frame)
    requires Valid(f) && Distinct(names)
    requires forall n | n in names :: Has(f, n)
    ensures Valid(r) && r.rows == f.rows && r.source == f.source && Names(r) == names
    ensures forall k | 0 <= k < |names| :: r.columns[k] == Column(names[k], Get(f, names[k]))
  {
    var r := Frame(f.rows, seq(|names|, k requires 0 <= k < |names| => Column(names[k], Get(f, names[k]))), f.source);
    assert Names(r) == names;
    r
  }

  /** A column of `TakeRows` is the column taken at the same positions. */
  lemma TakeRowsGet(f: Frame, idx: seq<nat>, n: string)
    requires Valid(f) && Has(f, n)
    requires forall k | 0 <= k < |idx| :: idx[k] < f.rows
    ensures Has(TakeRows(f, idx), n) && Get(TakeRows(f, idx), n) == TakeData(Get(f, n), idx)
  {
    var r := TakeRows(f, idx);
    var j := Find(f, n);
    FindAt(r, j);
  }

  /** Row `i` has a value in every one of the `names` columns. */
  predicate CompleteRow(f: Frame, names: seq<string>, i: nat)
    requires Valid(f) && i < f.rows
    requires forall n | n in names :: Has(f, n)
  {
    forall n | n in names :: !IsNa(Get(f, n), i)
  }

  /** The positions below `n` of the complete rows, in ascending order. */
  function CompleteRows(f: Frame, names: seq<string>, n: nat): (r: seq<nat>)
    requires Valid(f) && n <= f.rows
    requires forall x | x in names :: Has(f, x)
    ensures forall k | 0 <= k < |r| :: r[k] < n && CompleteRow(f, names, r[k])
    ensures forall i | 0 <= i < n && CompleteRow(f, names, i) :: i in r
    ensures forall k, l | 0 <= k < l < |r| :: r[k] < r[l]
  {
    if n == 0 then [] else CompleteRows(f, names, n - 1) + (if CompleteRow(f, names, n - 1) then [n - 1] else [])
  }

  /** `g` is `f` with the columns `names` written: same rows, those columns present, every
      other column present exactly when it was and holding what it held. */
  ghost predicate Adds(f: Frame, g: Frame, names: set<string>)
  {
    && Valid(g) && g.rows == f.rows
    && (forall n :: Has(g, n) <==> Has(f, n) || n in names)
    && (forall n | Has(f, n) && n !in names :: Get(g, n) == Get(f, n))
  }

  /** Writing one column adds exactly that column. */
  lemma SetAdds(f: Frame, name: string, d: Data)
    requires Valid(f) && Len(d) == f.rows
    ensures Adds(f, Set(f, name, d), {name})
  {
  }

  lemma AddsTrans(f: Frame, g: Frame, h: Frame, a: set<string>, b: set<string>)
    requires Adds(f, g, a) && Adds(g, h, b)
    ensures Adds(f, h, a + b)
  {
  }

  /** Two frames whose `names` columns agree have the same complete rows. */
  predicate Agree(f: Frame, g: Frame, names: seq<string>)
  {
    forall x | x in names :: Has(f, x) && Has(g, x) && Get(f, x) == Get(g, x)
  }

  lemma CompleteRowsAgree(f: Frame, g: Frame, names: seq<string>, n: nat)
    requires Valid(f) && Valid(g) && n <= f.rows && n <= g.rows && Agree(f, g, names)
    ensures CompleteRows(f, names, n) == CompleteRows(g, names, n)
  {
    assert forall x | x in names :: Has(f, x) && Has(g, x);
    var k: nat := 0;
    while k < n
      invariant k <= n
      invariant CompleteRows(f, names, k) == CompleteRows(g, names, k)
    {
      CompleteRowsAgreeStep(f, g, names, k);
      k := k + 1;
    }
    assert k == n;
  }

  lemma CompleteRowsAgreeStep(f: Frame, g: Frame, names: seq<string>, m: nat)
    requires Valid(f) && Valid(g) && m < f.rows && m < g.rows && Agree(f, g, names)
    requires CompleteRows(f, names, m) == CompleteRows(g, names, m)
    ensures CompleteRows(f, names, m + 1) == CompleteRows(g, names, m + 1)
  {
    var last := if CompleteRow(f, names, m) then [m] else [];
    assert CompleteRow(f, names, m) == CompleteRow(g, names, m);
    assert CompleteRows(f, names, m + 1) == CompleteRows(f, names, m) + last;
    assert CompleteRows(g, names, m + 1) == CompleteRows(g, names, m) + last;
  }

  /** `dropna(subset=names)` on a frame holding every name: the complete rows, in order,
      with every column and the attributes kept. */
  function DropNa(f: Frame, names: seq<string>): (r: Frame)
    requires Valid(f) && forall n | n in names :: Has(f, n)
    ensures Valid(r) && Names(r) == Names(f) && r.source == f.source && r.rows <= f.rows
    ensures forall n | n in names :: Has(r, n) && forall k | 0 <= k < r.rows :: !IsNa(Get(r, n), k)
  {
    var idx := CompleteRows(f, names, f.rows);
    var r := TakeRows(f, idx);
    assert |idx| <= f.rows by { AscendingBelow(idx, f.rows); }
    forall n | n in names ensures Has(r, n) && forall k | 0 <= k < r.rows :: !IsNa(Get(r, n), k) {
      TakeRowsGet(f, idx, n);
      assert forall k | 0 <= k < |idx| :: CompleteRow(f, names, idx[k]);
    }
    r
  }

  /** An ascending sequence of positions below `n` has at most `n` entries. */
  lemma {:induction false} AscendingBelow(idx: seq<nat>, n: nat)
    requires forall k | 0 <= k < |idx| :: idx[k] < n
    requires forall k, l | 0 <= k < l < |idx| :: idx[k] < idx[l]
    ensures |idx| <= n
  {
    if idx != [] {
      var last := idx[|idx| - 1];
      AscendingBelow(idx[..|idx| - 1], last);
    }
  }

  /** `dropna(subset=names)`: a KeyError listing the absent names, in order, or the complete rows. */
  function DropNaSubset(f: Frame, names: seq<string>): (r: Result<Frame>)
    requires Valid(f)
    ensures r.Err? <==> exists n | n in names :: !Has(f, n)
    ensures r.Err? ==> r.error == KeysNotFound(Missing(names, NameSet(f))) && Missing(names, NameSet(f)) != []
    ensures r.Ok? ==> r.value == DropNa(f, names)
  {
    if forall n | n in names :: Has(f, n) then Ok(DropNa(f, names))
    else
      var n :| n in names && !Has(f, n);
      assert n in Missing(names, NameSet(f));
      Err(KeysNotFound(Missing(names, NameSet(f))))
  }

  /** `df[names]` as pandas builds it, a repeated name giving a repeated column. */
  function Project(f: Frame, names: seq<string>): (r: Frame)
    requires forall n | n in names :: Has(f, n)
    ensures r.rows == f.rows && r.source == f.source && Names(r) == names
    ensures forall k | 0 <= k < |names| :: r.columns[k] == Column(names[k], Get(f, names[k]))
  {
    var r := Frame(f.rows, seq(|names|, k requires 0 <= k < |names| => Column(names[k], Get(f, names[k]))), f.source);
    assert Names(r) == names;
    r
  }

  /** The positions `lo, ..., hi - 1`. */
  function Interval(lo: nat, hi: nat): (r: seq<nat>)
    requires lo <= hi
    ensures |r| == hi - lo && forall k | 0 <= k < |r| :: r[k] == lo + k
  {
    seq(hi - lo, k requires 0 <= k < hi - lo => lo + k)
  }

  /** Cell `k` of a taken column is cell `idx[k]` of the column. */
  lemma TakeCell(d: Data, idx: seq<nat>, k: nat)
    requires forall j | 0 <= j < |idx| :: idx[j] < Len(d)
    requires k < |idx|
    ensures CellAt(TakeData(d, idx), k) == CellAt(d, idx[k])
  {
  }

  /** The number of missing cells among the first `n` of a column. */
  function CountNa(d: Data, n: nat): (c: nat)
    requires n <= Len(d)
    ensures c <= n
  {
    if n == 0 then 0 else CountNa(d, n - 1) + (if IsNa(d, n - 1) then 1 else 0)
  }

  /** The number of missing cells in row `i`, over the given columns. */
  function RowNa(cols: seq<Column>, i: nat): (c: nat)
    requires forall j | 0 <= j < |cols| :: i < Len(cols[j].data)
    ensures c <= |cols|
  {
    if cols == [] then 0 else (if IsNa(cols[0].data, i) then 1 else 0) + RowNa(cols[1..], i)
  }

  /** The names of `required` that `have` lacks, in the order of `required`. */
  function Missing(required: seq<string>, have: set<string>): (r: seq<string>)
    ensures |r| <= |required|
    ensures forall x :: x in r <==> x in required && x !in have
  {
    if required == [] then []
    else (if required[0] in have then [] else [required[0]]) + Missing(required[1..], have)
  }

  /** `Missing` is a filter: it distributes over concatenation, so it keeps the order of `required`. */
  lemma {:induction false} MissingConcat(a: seq<string>, b: seq<string>, have: set<string>)
    ensures Missing(a + b, have) == Missing(a, have) + Missing(b, have)
  {
    if a == [] {
      assert a + b == b;
    } else {
      assert (a + b)[1..] == a[1..] + b;
      MissingConcat(a[1..], b, have);
    }
  }

  /** The float64 view of a column that arithmetic (`-`, `/`, `pct_change`) works on:
      None for a datetime column or an object column holding a string, where the
      operators raise. */
  function AsFloats(d: Data): (r: Option<seq<Option<real>>>)
    ensures r.Some? ==> |r.value| == Len(d)
    ensures r.Some? ==> forall i | 0 <= i < Len(d) :: r.value[i].None? == IsNa(d, i)
    ensures IsNumeric(d) ==> r.Some?
  {
    match d
    case Nums(xs) => Some(xs)
    case Ints(ns) => Some(seq(|ns|, i requires 0 <= i < |ns| => if ns[i].Some? then Some(ns[i].value as real) else None))
    case Stamps(_) => None
    case Objects(vs) =>
      if exists i | 0 <= i < |vs| :: vs[i].Str? then None
      else Some(seq(|vs|, i requires 0 <= i < |vs| => if vs[i].Num? then Some(vs[i].x) else None))
  }

  /** Python's `float(s)` on a string: None where it raises ValueError, `Some(None)` for
      a literal read as NaN or an infinity, `Some(Some(x))` for a finite number. */
  type FloatReader = string -> Option<Option<real>>

  /** `astype(float)`: numbers and missing cells pass through and a string is read with
      `float`; it raises on a datetime column and on a string `float` cannot read. */
  function CastFloat(d: Data, read: FloatReader): (r: Option<seq<Option<real>>>)
    ensures r.None? <==> d.Stamps? || (d.Objects? && exists i | 0 <= i < Len(d) :: CellAt(d, i).Str? && read(CellAt(d, i).s).None?)
    ensures r.Some? ==> |r.value| == Len(d)
    ensures r.Some? ==> forall i | 0 <= i < Len(d) ::
      r.value[i] == if CellAt(d, i).Str? then read(CellAt(d, i).s).value
                    else if CellAt(d, i).Num? then Some(CellAt(d, i).x) else None
    ensures AsFloats(d).Some? ==> r == AsFloats(d)
  {
    match d
    case Objects(vs) =>
      if exists i | 0 <= i < |vs| :: vs[i].Str? && read(vs[i].s).None? then
        var i :| 0 <= i < |vs| && vs[i].Str? && read(vs[i].s).None?;
        assert CellAt(d, i) == vs[i];
        None
      else
        var xs := seq(|vs|, i requires 0 <= i < |vs| =>
          match vs[i] case Null => None case Num(x) => Some(x) case Str(s) => read(s).value);
        assert AsFloats(d).Some? ==> AsFloats(d).value == xs;
        Some(xs)
    case _ => AsFloats(d)
  }

  /** A column as floats for arithmetic: KeyError when absent, an error when not numeric. */
  function FloatColumn(f: Frame, name: string): (r: Result<seq<Option<real>>>)
    requires Valid(f)
    ensures r.Err? <==> !Has(f, name) || AsFloats(Get(f, name)).None?
    ensures !Has(f, name) ==> r == Err(KeysNotFound([name]))
    ensures Has(f, name) && r.Err? ==> r == Err(NotNumeric(name))
    ensures r.Ok? ==> |r.value| == f.rows && Some(r.value) == AsFloats(Get(f, name))
  {
    if !Has(f, name) then Err(KeysNotFound([name]))
    else match AsFloats(Get(f, name))
      case None => Err(NotNumeric(name))
      case Some(xs) => Ok(xs)
  }

  // Strings

  function LowerChar(c: char): char
  {
    if 'A' <= c <= 'Z' then (c as int + 32) as char else c
  }

  /** `str.lower()` on ASCII letters. */
  function Lower(s: string): (r: string)
    ensures |r| == |s| && forall i | 0 <= i < |s| :: r[i] == LowerChar(s[i])
  {
    seq(|s|, i requires 0 <= i < |s| => LowerChar(s[i]))
  }

  predicate EndsWith(s: string, suffix: string)
  {
    |suffix| <= |s| && s[|s| - |suffix|..] == suffix
  }

  predicate StartsWith(s: string, prefix: string)
  {
    |prefix| <= |s| && s[..|prefix|] == prefix
  }
}
