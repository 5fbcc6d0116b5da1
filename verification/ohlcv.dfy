/** The price-table steps of `project/src/cleaning.py`: casting the OHLCV schema and
    sorting by date, forward-filling prices, and one-period returns. */
module Ohlcv {
  import opened Frames

  // Casts

  /** `pd.to_datetime(col, errors="coerce")`: numbers are nanosecond time points (their
      fractional part dropped), strings go through the date parser, and whatever does not
      parse becomes NaT. */
  function ToDates(d: Data, p: Parsers): (r: Data)
    ensures r.Stamps? && Len(r) == Len(d)
    ensures forall i | 0 <= i < Len(d) && IsNa(d, i) :: IsNa(r, i)
    ensures d.Stamps? ==> r == d
  {
    match d
    case Stamps(_) => d
    case Ints(ns) => Stamps(ns)
    case Nums(xs) => Stamps(seq(|xs|, i requires 0 <= i < |xs| => if xs[i].Some? then Some(xs[i].value.Floor) else None))
    case Objects(vs) =>
      Stamps(seq(|vs|, i requires 0 <= i < |vs| =>
        match vs[i]
        case Null => None
        case Num(x) => Some(x.Floor)
        case Str(s) => p.stamp(s)))
  }

  /** The int64 that NaT is stored as, and that `to_numeric` reads it as. */
  const NaTValue: int := -0x8000_0000_0000_0000

  /** `pd.to_numeric(col, errors="coerce")`: numeric columns are kept, strings go through
      the number parser, and whatever does not parse becomes NaN. A datetime column is
      read as its int64 time points, NaT included, so it has no missing cell after. */
  function ToNumeric(d: Data, p: Parsers): (r: Data)
    ensures IsNumeric(r) && Len(r) == Len(d)
    ensures IsNumeric(d) ==> r == d
    ensures forall i | 0 <= i < Len(d) && IsNa(d, i) && !d.Stamps? :: IsNa(r, i)
    ensures forall i | 0 <= i < Len(d) && IsNa(d, i) && d.Stamps? :: CellAt(r, i) == Num(NaTValue as real)
    ensures forall i | 0 <= i < Len(d) && CellAt(d, i).Num? :: CellAt(r, i) == CellAt(d, i)
  {
    match d
    case Nums(_) => d
    case Ints(_) => d
    case Stamps(ts) => Ints(seq(|ts|, i requires 0 <= i < |ts| => if ts[i].Some? then ts[i] else Some(NaTValue)))
    case Objects(vs) =>
      Nums(seq(|vs|, i requires 0 <= i < |vs| =>
        match vs[i]
        case Null => None
        case Num(x) => Some(x)
        case Str(s) => p.number(s)))
  }

  predicate Integral(x: real)
  {
    x == x.Floor as real
  }

  /** Whether every defined value of a numeric column is a whole number. */
  predicate AllIntegral(d: Data)
  {
    d.Nums? ==> forall i | 0 <= i < |d.xs| && d.xs[i].Some? :: Integral(d.xs[i].value)
  }

  /** `pd.to_numeric(col, errors="coerce").astype("Int64")`: fails when a value is not a
      whole number; otherwise the same numbers as a nullable integer column. */
  function ToInt64(name: string, d: Data, p: Parsers): (r: Result<Data>)
    ensures r.Err? <==> !AllIntegral(ToNumeric(d, p))
    ensures r.Err? ==> r.error == NotInteger(name)
    ensures r.Ok? ==> r.value.Ints? && Len(r.value) == Len(d)
    ensures r.Ok? ==> forall i | 0 <= i < Len(d) :: CellAt(r.value, i) == CellAt(ToNumeric(d, p), i)
    ensures d.Ints? ==> r == Ok(d)
  {
    match ToNumeric(d, p)
    case Ints(ns) => Ok(Ints(ns))
    case Nums(xs) =>
      if AllIntegral(Nums(xs)) then
        Ok(Ints(seq(|xs|, i requires 0 <= i < |xs| => if xs[i].Some? then Some(xs[i].value.Floor) else None)))
      else Err(NotInteger(name))
  }

  // Sorting by date

  /** The order of `sort_values("date")` on a datetime column: ascending, NaT last. */
  predicate KeyLe(a: Option<int>, b: Option<int>)
  {
    b.None? || (a.Some? && a.value <= b.value)
  }

  /** `le` orders the keys at hand totally: any two of them compare, and comparisons chain. */
  ghost predicate TotalOn<K>(keys: seq<K>, le: (K, K) -> bool)
  {
    && (forall a, b | 0 <= a < |keys| && 0 <= b < |keys| :: le(keys[a], keys[b]) || le(keys[b], keys[a]))
    && (forall a, b, c | 0 <= a < |keys| && 0 <= b < |keys| && 0 <= c < |keys| ::
          le(keys[a], keys[b]) && le(keys[b], keys[c]) ==> le(keys[a], keys[c]))
  }

  predicate SortedBy<K>(keys: seq<K>, le: (K, K) -> bool, t: seq<nat>)
    requires forall k | 0 <= k < |t| :: t[k] < |keys|
  {
    forall a, b | 0 <= a < b < |t| :: le(keys[t[a]], keys[t[b]])
  }

  /** Insert row `x` before the first row whose key is not below its own. */
  function InsertBy<K>(keys: seq<K>, le: (K, K) -> bool, x: nat, t: seq<nat>): (r: seq<nat>)
    requires x < |keys| && forall k | 0 <= k < |t| :: t[k] < |keys|
    ensures multiset(r) == multiset(t) + multiset{x}
    ensures |r| == |t| + 1 && forall k | 0 <= k < |r| :: r[k] < |keys|
  {
    if t == [] || le(keys[x], keys[t[0]]) then [x] + t
    else
      assert t == [t[0]] + t[1..];
      [t[0]] + InsertBy(keys, le, x, t[1..])
  }

  /** Insertion sort of row positions by key. */
  function SortBy<K>(keys: seq<K>, le: (K, K) -> bool, s: seq<nat>): (r: seq<nat>)
    requires forall k | 0 <= k < |s| :: s[k] < |keys|
    ensures multiset(r) == multiset(s)
    ensures |r| == |s| && forall k | 0 <= k < |r| :: r[k] < |keys|
  {
    if s == [] then []
    else
      assert s == [s[0]] + s[1..];
      InsertBy(keys, le, s[0], SortBy(keys, le, s[1..]))
  }

  lemma {:induction false} InsertBySorted<K>(keys: seq<K>, le: (K, K) -> bool, x: nat, t: seq<nat>)
    requires x < |keys| && forall k | 0 <= k < |t| :: t[k] < |keys|
    requires TotalOn(keys, le) && SortedBy(keys, le, t)
    ensures SortedBy(keys, le, InsertBy(keys, le, x, t))
  {
    if t == [] || le(keys[x], keys[t[0]]) {
      assert forall k | 0 <= k < |t| :: le(keys[x], keys[t[k]]) by {
        forall k | 0 < k < |t| ensures le(keys[x], keys[t[k]]) {
          assert le(keys[t[0]], keys[t[k]]);
        }
      }
      ConsSorted(keys, le, x, t);
    } else {
      InsertBySorted(keys, le, x, t[1..]);
      InsertAfterHead(keys, le, x, t);
    }
  }

  /** A row that goes after the first row of a sorted order: the first row stays first. */
  lemma InsertAfterHead<K>(keys: seq<K>, le: (K, K) -> bool, x: nat, t: seq<nat>)
    requires x < |keys| && forall k | 0 <= k < |t| :: t[k] < |keys|
    requires TotalOn(keys, le) && SortedBy(keys, le, t)
    requires t != [] && !le(keys[x], keys[t[0]])
    requires SortedBy(keys, le, InsertBy(keys, le, x, t[1..]))
    ensures SortedBy(keys, le, [t[0]] + InsertBy(keys, le, x, t[1..]))
  {
    var rest := InsertBy(keys, le, x, t[1..]);
    assert le(keys[t[0]], keys[x]);
    forall k | 0 <= k < |rest| ensures le(keys[t[0]], keys[rest[k]]) {
      assert rest[k] in multiset(rest);
      if rest[k] != x {
        assert rest[k] in multiset(t[1..]);
        var j :| 0 <= j < |t[1..]| && t[1..][j] == rest[k];
        assert t[j + 1] == rest[k];
      }
    }
    ConsSorted(keys, le, t[0], rest);
  }

  /** A row whose key is at most every key of a sorted order may go first. */
  lemma ConsSorted<K>(keys: seq<K>, le: (K, K) -> bool, h: nat, t: seq<nat>)
    requires h < |keys| && forall k | 0 <= k < |t| :: t[k] < |keys|
    requires SortedBy(keys, le, t) && forall k | 0 <= k < |t| :: le(keys[h], keys[t[k]])
    ensures SortedBy(keys, le, [h] + t)
  {
    var r := [h] + t;
    assert forall k | 0 < k < |r| :: r[k] == t[k - 1];
  }

  lemma {:induction false} SortBySorted<K>(keys: seq<K>, le: (K, K) -> bool, s: seq<nat>)
    requires forall k | 0 <= k < |s| :: s[k] < |keys|
    requires TotalOn(keys, le)
    ensures SortedBy(keys, le, SortBy(keys, le, s))
  {
    if s != [] {
      SortBySorted(keys, le, s[1..]);
      InsertBySorted(keys, le, s[0], SortBy(keys, le, s[1..]));
    }
  }

  /** Sorting rows that are already in order leaves them in place. */
  lemma {:induction false} SortBySortedInput<K>(keys: seq<K>, le: (K, K) -> bool, s: seq<nat>)
    requires forall k | 0 <= k < |s| :: s[k] < |keys|
    requires SortedBy(keys, le, s)
    ensures SortBy(keys, le, s) == s
  {
    if s != [] {
      SortBySortedInput(keys, le, s[1..]);
      assert s[1..] == [] || s[1..][0] == s[1];
    }
  }

  /** The row order of a stable sort by a total order on the keys: a permutation of the
      rows, ascending by key. */
  function OrderBy<K>(keys: seq<K>, le: (K, K) -> bool): (r: seq<nat>)
    requires TotalOn(keys, le)
    ensures |r| == |keys| && forall k | 0 <= k < |r| :: r[k] < |keys|
    ensures multiset(r) == multiset(Range(|keys|))
    ensures SortedBy(keys, le, r)
  {
    SortBySorted(keys, le, Range(|keys|));
    SortBy(keys, le, Range(|keys|))
  }

  /** A permutation of the rows reaches every row. */
  lemma OrderByReachesAll<K>(keys: seq<K>, le: (K, K) -> bool)
    requires TotalOn(keys, le)
    ensures forall i | 0 <= i < |keys| :: i in OrderBy(keys, le)
  {
    forall i | 0 <= i < |keys| ensures i in OrderBy(keys, le) {
      assert Range(|keys|)[i] == i;
      assert i in multiset(Range(|keys|));
    }
  }

  /** On keys already in order the sort is the identity. */
  lemma OrderBySorted<K>(keys: seq<K>, le: (K, K) -> bool)
    requires TotalOn(keys, le)
    requires forall a, b | 0 <= a < b < |keys| :: le(keys[a], keys[b])
    ensures OrderBy(keys, le) == Range(|keys|)
  {
    SortBySortedInput(keys, le, Range(|keys|));
  }

  /** Dates, NaT last, are totally ordered. */
  lemma KeyLeTotal(keys: seq<Option<int>>)
    ensures TotalOn(keys, KeyLe)
  {
  }

  /** The row order `sort_values` produces for a datetime column: a permutation of the
      rows, ascending by date with NaT last. */
  function Order(keys: seq<Option<int>>): (r: seq<nat>)
    ensures |r| == |keys| && forall k | 0 <= k < |r| :: r[k] < |keys|
    ensures multiset(r) == multiset(Range(|keys|))
    ensures SortedBy(keys, KeyLe, r)
  {
    KeyLeTotal(keys);
    OrderBy(keys, KeyLe)
  }

  // The schema cast

  /** The `date` block: parse the column, then reorder every row by it. */
  function SortByDate(f: Frame, p: Parsers): (r: Frame)
    requires Valid(f)
    ensures Valid(r) && r.rows == f.rows && r.source == f.source && Names(r) == Names(f)
  {
    if !Has(f, "date") then f
    else
      var g := Set(f, "date", ToDates(Get(f, "date"), p));
      TakeRows(g, Order(Get(g, "date").ts))
  }

  /** `out[c] = pd.to_numeric(out[c], errors="coerce")` when `c` is a column. */
  function CastIfPresent(f: Frame, c: string, p: Parsers): (r: Frame)
    requires Valid(f)
    ensures Valid(r) && r.rows == f.rows && r.source == f.source && Names(r) == Names(f)
    ensures Has(f, c) ==> Get(r, c) == ToNumeric(Get(f, c), p)
    ensures forall n | n != c && Has(f, n) :: Get(r, n) == Get(f, n)
  {
    if Has(f, c) then Set(f, c, ToNumeric(Get(f, c), p)) else f
  }

  const Prices: seq<string> := ["open", "high", "low", "close"]

  /** `for c in ["open","high","low","close"]: if c in out.columns: out[c] = pd.to_numeric(...)`:
      the price columns are cast and no other column changes. */
  function CastPrices(g: Frame, p: Parsers): (h: Frame)
    requires Valid(g)
    ensures Valid(h) && h.rows == g.rows && h.source == g.source && Names(h) == Names(g)
    ensures forall n | Has(g, n) :: Get(h, n) == if n in Prices then ToNumeric(Get(g, n), p) else Get(g, n)
  {
    var a := CastIfPresent(g, "open", p);
    var b := CastIfPresent(a, "high", p);
    var c := CastIfPresent(b, "low", p);
    var h := CastIfPresent(c, "close", p);
    forall n | Has(g, n)
      ensures Get(h, n) == if n in Prices then ToNumeric(Get(g, n), p) else Get(g, n)
    {
      assert Has(a, n) && Has(b, n) && Has(c, n);
      if n == "open" {
        assert Get(h, n) == Get(a, n);
      } else if n == "high" {
        assert Get(h, n) == Get(b, n) && Get(b, n) == ToNumeric(Get(a, n), p);
      } else if n == "low" {
        assert Get(h, n) == Get(c, n) && Get(c, n) == ToNumeric(Get(b, n), p);
      } else if n == "close" {
        assert Get(h, n) == ToNumeric(Get(c, n), p);
      } else {
        assert n !in Prices;
      }
    }
    h
  }

  /** The dtype `sort_and_cast_ohlcv` gives to a column, given its reordered cells. */
  function CastFor(name: string, d: Data, p: Parsers): Result<Data>
  {
    if name == "date" then Ok(ToDates(d, p))
    else if name in Prices then Ok(ToNumeric(d, p))
    else if name == "volume" then ToInt64(name, d, p)
    else Ok(d)
  }

  /** `sort_and_cast_ohlcv`. */
  function SortAndCastOhlcv(df: Frame, p: Parsers): (r: Result<Frame>)
    requires Valid(df)
    ensures r.Ok? ==> Valid(r.value) && r.value.rows == df.rows && r.value.source == df.source
    ensures r.Ok? ==> Names(r.value) == Names(df)
  {
    var g := SortByDate(df, p);
    var h := CastPrices(g, p);
    if Has(h, "volume") then
      match ToInt64("volume", Get(h, "volume"), p)
      case Err(e) => Err(e)
      case Ok(d) => Ok(Set(h, "volume", d))
    else Ok(h)
  }

  /** The row order `sort_and_cast_ohlcv` puts a frame in. */
  function RowOrder(df: Frame, p: Parsers): (r: seq<nat>)
    requires Valid(df)
    ensures |r| == df.rows && forall k | 0 <= k < |r| :: r[k] < df.rows
    ensures multiset(r) == multiset(Range(df.rows))
  {
    if Has(df, "date") then
      var dates := ToDates(Get(df, "date"), p);
      assert Len(Get(df, "date")) == df.rows by { FindAt(df, Find(df, "date")); }
      Order(dates.ts)
    else Range(df.rows)
  }

  /** After the `date` block every column is its input column reordered, the date
      column parsed as well. */
  lemma SortByDateColumns(df: Frame, p: Parsers)
    requires Valid(df)
    ensures forall n | Has(df, n) :: Has(SortByDate(df, p), n)
    ensures forall n | Has(df, n) && n != "date" ::
      Get(SortByDate(df, p), n) == TakeData(Get(df, n), RowOrder(df, p))
    ensures Has(df, "date") ==>
      Get(SortByDate(df, p), "date") == ToDates(TakeData(Get(df, "date"), RowOrder(df, p)), p)
  {
    var idx := RowOrder(df, p);
    var g := SortByDate(df, p);
    if Has(df, "date") {
      var g0 := Set(df, "date", ToDates(Get(df, "date"), p));
      forall n | Has(df, n) && n != "date" ensures Get(g, n) == TakeData(Get(df, n), idx) {
        FindAt(g, Find(g0, n));
      }
      FindAt(g, Find(g0, "date"));
      FindAt(df, Find(df, "date"));
      TakeDates(Get(df, "date"), idx, p);
    } else {
      forall n | Has(df, n) ensures Get(g, n) == TakeData(Get(df, n), idx) {
        FindAt(df, Find(df, n));
        TakeAll(Get(df, n));
      }
    }
  }

  /** `sort_and_cast_ohlcv` reorders the rows by a permutation that puts the parsed dates
      in ascending order (NaT last), then casts each OHLCV column it finds: every column
      of the result is its input column, reordered, then cast. It fails iff a volume
      value is not a whole number. */
  lemma SortAndCastColumns(df: Frame, p: Parsers)
    requires Valid(df)
    ensures SortAndCastOhlcv(df, p).Ok? ==>
      forall n | Has(df, n) ::
        Ok(Get(SortAndCastOhlcv(df, p).value, n)) == CastFor(n, TakeData(Get(df, n), RowOrder(df, p)), p)
    ensures SortAndCastOhlcv(df, p).Err? <==>
      Has(df, "volume") && CastFor("volume", TakeData(Get(df, "volume"), RowOrder(df, p)), p).Err?
    ensures Has(df, "date") ==>
      var dates := ToDates(Get(df, "date"), p).ts;
      |dates| == df.rows && SortedBy(dates, KeyLe, RowOrder(df, p))
  {
    SortByDateColumns(df, p);
    if SortAndCastOhlcv(df, p).Ok? {
      forall n | Has(df, n)
        ensures Ok(Get(SortAndCastOhlcv(df, p).value, n)) == CastFor(n, TakeData(Get(df, n), RowOrder(df, p)), p)
      {
        SortAndCastColumn(df, p, n);
      }
    }
    if Has(df, "volume") {
      SortAndCastColumn(df, p, "volume");
    }
    if Has(df, "date") {
      FindAt(df, Find(df, "date"));
    }
  }

  lemma SortAndCastColumn(df: Frame, p: Parsers, n: string)
    requires Valid(df) && Has(df, n)
    ensures var h := CastPrices(SortByDate(df, p), p);
      && Has(h, n)
      && (n == "volume" ==> ToInt64("volume", Get(h, "volume"), p) == CastFor(n, TakeData(Get(df, n), RowOrder(df, p)), p))
      && (SortAndCastOhlcv(df, p).Ok? ==>
           Ok(Get(SortAndCastOhlcv(df, p).value, n)) == CastFor(n, TakeData(Get(df, n), RowOrder(df, p)), p))
  {
    var h := CastPrices(SortByDate(df, p), p);
    var t := TakeData(Get(df, n), RowOrder(df, p));
    CastBeforeVolume(df, p, n);
    if n == "volume" {
      assert "volume" !in Prices;
      assert Get(h, n) == t;
    }
  }

  /** Before the volume cast, each column is its reordered input, cast if it is the date
      or a price. */
  lemma CastBeforeVolume(df: Frame, p: Parsers, n: string)
    requires Valid(df) && Has(df, n)
    ensures var h := CastPrices(SortByDate(df, p), p);
      var t := TakeData(Get(df, n), RowOrder(df, p));
      && Has(h, n)
      && Get(h, n) == if n == "date" then ToDates(t, p) else if n in Prices then ToNumeric(t, p) else t
  {
    SortByDateColumns(df, p);
    if n == "date" {
      assert "date" !in Prices;
    }
  }

  /** Parsing dates commutes with reordering rows. */
  lemma TakeDates(d: Data, idx: seq<nat>, p: Parsers)
    requires forall k | 0 <= k < |idx| :: idx[k] < Len(d)
    ensures TakeData(ToDates(d, p), idx) == ToDates(TakeData(d, idx), p)
  {
  }

  // Forward fill

  /** `ffill()` of one column: each missing cell takes the last defined value above it. */
  function FFill<T>(xs: seq<Option<T>>): (r: seq<Option<T>>)
    ensures |r| == |xs|
    ensures forall i | 0 <= i < |xs| && xs[i].Some? :: r[i] == xs[i]
    ensures forall i | 0 < i < |xs| && xs[i].None? :: r[i] == r[i - 1]
    ensures |xs| > 0 && xs[0].None? ==> r[0].None?
    decreases |xs|
  {
    if xs == [] then []
    else
      var p := FFill(xs[..|xs| - 1]);
      var last := xs[|xs| - 1];
      p + [if last.Some? || p == [] then last else p[|p| - 1]]
  }

  /** Each cell of the fill is the nearest defined value at or above it; a cell is still
      missing exactly when nothing above it (itself included) is defined. */
  lemma {:induction false} FFillNearest<T>(xs: seq<Option<T>>, i: nat)
    requires i < |xs|
    ensures FFill(xs)[i].None? <==> forall j | 0 <= j <= i :: xs[j].None?
    ensures FFill(xs)[i].Some? ==>
      exists j | 0 <= j <= i :: FFill(xs)[i] == xs[j] && forall k | j < k <= i :: xs[k].None?
  {
    if xs[i].None? && i > 0 {
      FFillNearest(xs, i - 1);
      if FFill(xs)[i].Some? {
        var j :| 0 <= j <= i - 1 && FFill(xs)[i - 1] == xs[j] && forall k | j < k <= i - 1 :: xs[k].None?;
        assert forall k | j < k <= i :: xs[k].None?;
      }
    }
  }

  /** Filling a filled column changes nothing. */
  lemma FFillIdempotent<T>(xs: seq<Option<T>>)
    ensures FFill(FFill(xs)) == FFill(xs)
  {
    var r := FFill(xs);
    assert forall k | 0 < k < |r| && r[k].None? :: r[k - 1].None? by {
      forall k | 0 < k < |r| && r[k].None? ensures r[k - 1].None? {
        assert xs[k].None?;
      }
    }
    forall i | 0 <= i < |r| ensures FFill(r)[i] == r[i] {
      FFillNoGap(r, i);
    }
  }

  /** A column whose missing cells all sit above its first defined one is left as is. */
  lemma {:induction false} FFillNoGap<T>(r: seq<Option<T>>, i: nat)
    requires i < |r| && forall k | 0 < k < |r| && r[k].None? :: r[k - 1].None?
    ensures FFill(r)[i] == r[i]
  {
    if r[i].None? && i > 0 {
      FFillNoGap(r, i - 1);
    }
  }

  /** `ffill()` of a numeric column, dtype kept. */
  function FFillData(d: Data): (r: Data)
    requires IsNumeric(d)
    ensures SameDtype(r, d) && Len(r) == Len(d)
  {
    match d
    case Nums(xs) => Nums(FFill(xs))
    case Ints(ns) => Ints(FFill(ns))
  }

  lemma FFillDataIdempotent(d: Data)
    requires IsNumeric(d)
    ensures FFillData(FFillData(d)) == FFillData(d)
  {
    match d
    case Nums(xs) => FFillIdempotent(xs);
    case Ints(ns) => FFillIdempotent(ns);
  }

  const OhlcvColumns: seq<string> := ["open", "high", "low", "close", "volume"]

  /** The names of `names` that are columns of `f`, in the order of `names`. */
  function Present(f: Frame, names: seq<string>): (r: seq<string>)
    ensures forall n :: n in r <==> n in names && Has(f, n)
    ensures Distinct(names) ==> Distinct(r)
  {
    if names == [] then []
    else
      var rest := Present(f, names[1..]);
      assert Distinct(names) ==> names[0] !in names[1..];
      (if Has(f, names[0]) then [names[0]] else []) + rest
  }

  /** `out[cols] = out[cols].ffill()` on numeric columns. */
  function FillForward(f: Frame, cols: seq<string>): (r: Frame)
    requires Valid(f) && Distinct(cols) && forall c | c in cols :: Has(f, c) && IsNumeric(Get(f, c))
    ensures Valid(r) && r.rows == f.rows && r.source == f.source && Names(r) == Names(f)
    ensures forall c | c in cols :: Has(r, c) && Get(r, c) == FFillData(Get(f, c))
    ensures forall n | Has(f, n) && n !in cols :: Has(r, n) && Get(r, n) == Get(f, n)
    decreases |cols|
  {
    if cols == [] then f
    else
      var c, rest := cols[0], cols[1..];
      var g := Set(f, c, FFillData(Get(f, c)));
      assert forall j | 0 <= j < |rest| :: rest[j] == cols[j + 1];
      assert forall x | x in rest :: x in cols && x != c;
      assert forall x | x in rest :: Has(g, x) && Get(g, x) == Get(f, x);
      assert Distinct(rest);
      var r := FillForward(g, rest);
      assert Has(r, c) && Get(r, c) == FFillData(Get(f, c));
      assert forall x | x in rest :: Has(r, x) && Get(r, x) == FFillData(Get(f, x));
      assert forall x | x in cols :: x == c || x in rest;
      assert forall n | Has(f, n) && n !in cols :: n != c && n !in rest && Has(g, n) && Get(g, n) == Get(f, n);
      r
  }

  /** The state `sort_and_cast_ohlcv` leaves a frame in: parsed dates in ascending order
      (NaT last), numeric prices and an Int64 volume. */
  ghost predicate Settled(f: Frame)
    requires Valid(f)
  {
    && (Has(f, "date") ==>
         && Get(f, "date").Stamps?
         && forall a, b | 0 <= a < b < f.rows :: KeyLe(Get(f, "date").ts[a], Get(f, "date").ts[b]))
    && (forall c | c in Prices && Has(f, c) :: IsNumeric(Get(f, c)))
    && (Has(f, "volume") ==> Get(f, "volume").Ints?)
  }

  /** `ffill_ohlcv_by_date`: sort and cast, then forward-fill the OHLCV columns present. */
  function FfillOhlcvByDate(df: Frame, p: Parsers): (r: Result<Frame>)
    requires Valid(df)
    ensures r.Err? <==> SortAndCastOhlcv(df, p).Err?
    ensures r.Err? ==> r.error == SortAndCastOhlcv(df, p).error
    ensures r.Ok? ==> Valid(r.value) && r.value.rows == df.rows && r.value.source == df.source
    ensures r.Ok? ==> Names(r.value) == Names(df)
  {
    match SortAndCastOhlcv(df, p)
    case Err(e) => Err(e)
    case Ok(g) =>
      SettledAfterCast(df, p);
      Fillable(g);
      Ok(FillForward(g, Present(g, OhlcvColumns)))
  }

  /** In a settled frame the OHLCV columns present are numeric and named once. */
  lemma Fillable(g: Frame)
    requires Valid(g) && Settled(g)
    ensures Distinct(Present(g, OhlcvColumns))
    ensures forall c | c in Present(g, OhlcvColumns) :: Has(g, c) && IsNumeric(Get(g, c))
  {
    assert Distinct(OhlcvColumns);
    forall c | c in Present(g, OhlcvColumns) ensures Has(g, c) && IsNumeric(Get(g, c)) {
      assert c in Prices || c == "volume";
    }
  }

  /** What `sort_and_cast_ohlcv` returns is settled. */
  lemma SettledAfterCast(df: Frame, p: Parsers)
    requires Valid(df) && SortAndCastOhlcv(df, p).Ok?
    ensures Settled(SortAndCastOhlcv(df, p).value)
  {
    var g := SortAndCastOhlcv(df, p).value;
    if Has(g, "date") {
      DateSettledAfterCast(df, p);
    }
    forall c | c in Prices && Has(g, c) ensures IsNumeric(Get(g, c)) {
      CastColumnSettled(df, p, c);
    }
    if Has(g, "volume") {
      CastColumnSettled(df, p, "volume");
    }
  }

  /** After the cast a price column is numeric and the volume is Int64. */
  lemma CastColumnSettled(df: Frame, p: Parsers, c: string)
    requires Valid(df) && SortAndCastOhlcv(df, p).Ok?
    requires (c in Prices || c == "volume") && Has(SortAndCastOhlcv(df, p).value, c)
    ensures c in Prices ==> IsNumeric(Get(SortAndCastOhlcv(df, p).value, c))
    ensures c == "volume" ==> Get(SortAndCastOhlcv(df, p).value, c).Ints?
  {
    assert Has(df, c);
    SortAndCastColumn(df, p, c);
  }

  /** After `sort_and_cast_ohlcv` the date column holds timestamps in ascending order. */
  lemma DateSettledAfterCast(df: Frame, p: Parsers)
    requires Valid(df) && SortAndCastOhlcv(df, p).Ok? && Has(df, "date")
    ensures var g := SortAndCastOhlcv(df, p).value;
      && Has(g, "date") && Get(g, "date").Stamps?
      && forall a, b | 0 <= a < b < g.rows :: KeyLe(Get(g, "date").ts[a], Get(g, "date").ts[b])
  {
    var g := SortAndCastOhlcv(df, p).value;
    var idx := RowOrder(df, p);
    SortAndCastColumns(df, p);
    SortAndCastColumn(df, p, "date");
    var dates := ToDates(Get(df, "date"), p);
    TakeDates(Get(df, "date"), idx, p);
    assert Get(g, "date") == TakeData(dates, idx);
    TakeSorted(dates, idx);
  }

  /** Taking the rows of a timestamp column in an order that sorts it gives a sorted column. */
  lemma TakeSorted(dates: Data, idx: seq<nat>)
    requires dates.Stamps? && forall k | 0 <= k < |idx| :: idx[k] < |dates.ts|
    requires SortedBy(dates.ts, KeyLe, idx)
    ensures TakeData(dates, idx).Stamps?
    ensures forall a, b | 0 <= a < b < |idx| :: KeyLe(TakeData(dates, idx).ts[a], TakeData(dates, idx).ts[b])
  {
  }

  /** The forward fill keeps a frame settled. */
  lemma SettledAfterFill(g: Frame, cols: seq<string>)
    requires Valid(g) && Settled(g) && Distinct(cols) && forall c | c in cols :: Has(g, c) && IsNumeric(Get(g, c))
    requires "date" !in cols
    ensures Settled(FillForward(g, cols))
  {
    var r := FillForward(g, cols);
    assert forall n :: Has(r, n) == Has(g, n);
    if Has(g, "date") {
      assert Get(r, "date") == Get(g, "date");
    }
    forall c | c in Prices && Has(r, c) ensures IsNumeric(Get(r, c)) {
      if c in cols {
        assert SameDtype(Get(r, c), Get(g, c));
      }
    }
    if Has(r, "volume") {
      if "volume" in cols {
        assert SameDtype(Get(r, "volume"), Get(g, "volume"));
      }
    }
  }

  /** A settled frame goes through `sort_and_cast_ohlcv` unchanged. */
  lemma SortAndCastSettled(f: Frame, p: Parsers)
    requires Valid(f) && Settled(f)
    ensures SortAndCastOhlcv(f, p) == Ok(f)
  {
    assert SortByDate(f, p) == f by {
      if Has(f, "date") {
        SetGet(f, "date");
        KeyLeTotal(Get(f, "date").ts);
        OrderBySorted(Get(f, "date").ts, KeyLe);
        TakeRowsAll(f);
      }
    }
    var h := CastPrices(f, p);
    assert h == f by {
      FrameExt(h, f);
    }
    if Has(f, "volume") {
      SetGet(f, "volume");
    }
  }

  /** Applying `ffill_ohlcv_by_date` twice gives what applying it once does. */
  lemma {:induction false} FfillOhlcvIdempotent(df: Frame, p: Parsers)
    requires Valid(df) && FfillOhlcvByDate(df, p).Ok?
    ensures FfillOhlcvByDate(FfillOhlcvByDate(df, p).value, p) == FfillOhlcvByDate(df, p)
  {
    var g := SortAndCastOhlcv(df, p).value;
    var cols := Present(g, OhlcvColumns);
    SettledAfterCast(df, p);
    Fillable(g);
    var r := FillForward(g, cols);
    assert FfillOhlcvByDate(df, p) == Ok(r);
    SettledAfterFill(g, cols);
    FillForwardTwice(g, cols);
    PresentSameNames(r, g, OhlcvColumns);
    FfillSettled(r, p);
  }

  /** A settled frame whose OHLCV columns need no fill is a fixed point. */
  lemma FfillSettled(r: Frame, p: Parsers)
    requires Valid(r) && Settled(r)
    requires forall c | c in Present(r, OhlcvColumns) :: Has(r, c) && IsNumeric(Get(r, c))
    requires Distinct(Present(r, OhlcvColumns))
    requires FillForward(r, Present(r, OhlcvColumns)) == r
    ensures FfillOhlcvByDate(r, p) == Ok(r)
  {
    SortAndCastSettled(r, p);
  }

  /** Forward-filling the same columns twice fills them once. */
  lemma FillForwardTwice(g: Frame, cols: seq<string>)
    requires Valid(g) && Distinct(cols) && forall c | c in cols :: Has(g, c) && IsNumeric(Get(g, c))
    ensures var r := FillForward(g, cols);
      (forall c | c in cols :: Has(r, c) && IsNumeric(Get(r, c))) && FillForward(r, cols) == r
  {
    var r := FillForward(g, cols);
    var rr := FillForward(r, cols);
    forall n | Has(r, n) ensures Get(rr, n) == Get(r, n) {
      if n in cols {
        FFillDataIdempotent(Get(g, n));
      }
    }
    FrameExt(rr, r);
  }

  lemma {:induction false} PresentSameNames(f: Frame, g: Frame, names: seq<string>)
    requires Names(f) == Names(g)
    ensures Present(f, names) == Present(g, names)
  {
    if names != [] {
      PresentSameNames(f, g, names[1..]);
    }
  }

  // One-period returns

  /** `a / b - 1`, missing where either side is missing or the base is 0 (where pandas
      gives an infinity or NaN). */
  function Change(a: Option<real>, b: Option<real>): Option<real>
  {
    if a.Some? && b.Some? && b.value != 0.0 then Some(a.value / b.value - 1.0) else None
  }

  /** `pct_change()` with its default `fill_method="pad"`: forward-fill, then divide each
      value by the one above it. */
  function PctChange(xs: seq<Option<real>>): (r: seq<Option<real>>)
    ensures |r| == |xs|
    ensures |xs| > 0 ==> r[0].None?
    ensures forall i | 0 < i < |xs| :: r[i] == Change(FFill(xs)[i], FFill(xs)[i - 1])
  {
    var f := FFill(xs);
    seq(|xs|, i requires 0 <= i < |xs| => if i == 0 then None else Change(f[i], f[i - 1]))
  }

  /** Between two defined prices the return is the plain ratio minus one. */
  lemma PctChangeConsecutive(xs: seq<Option<real>>, i: nat)
    requires 0 < i < |xs| && xs[i].Some? && xs[i - 1].Some?
    ensures PctChange(xs)[i] == Change(xs[i], xs[i - 1])
  {
    assert FFill(xs)[i] == xs[i] && FFill(xs)[i - 1] == xs[i - 1];
  }

  /** With the pad fill a missing price repeats the one above it, so a missing cell after
      a defined non-zero price has return 0. */
  lemma PctChangeGap(xs: seq<Option<real>>, i: nat)
    requires 0 < i < |xs| && xs[i].None?
    requires FFill(xs)[i - 1].Some? && FFill(xs)[i - 1].value != 0.0
    ensures PctChange(xs)[i] == Some(0.0)
  {
    var v := FFill(xs)[i - 1].value;
    assert FFill(xs)[i] == Some(v);
    DivSelf(v);
  }

  lemma DivSelf(v: real)
    requires v != 0.0
    ensures v / v - 1.0 == 0.0
  {
  }

  /** The first defined price after a gap is compared with the last defined price before
      it; before the first defined price the return is missing. */
  lemma PctChangeAfterGap(xs: seq<Option<real>>, i: nat)
    requires 0 < i < |xs|
    ensures xs[i].Some? ==> PctChange(xs)[i] == Change(xs[i], FFill(xs)[i - 1])
    ensures (forall j | 0 <= j <= i :: xs[j].None?) ==> PctChange(xs)[i].None?
  {
    FFillNearest(xs, i);
  }

  /** `add_returns`: sort and cast first (its errors come first), then the price column
      must exist and be numeric; the return column is written in place or appended. */
  function AddReturns(df: Frame, price: string, out: string, p: Parsers): (r: Result<Frame>)
    requires Valid(df)
    ensures SortAndCastOhlcv(df, p).Err? ==> r == Err(SortAndCastOhlcv(df, p).error)
    ensures SortAndCastOhlcv(df, p).Ok? && !Has(df, price) ==> r == Err(PriceColumnNotFound(price))
    ensures r.Ok? <==>
      SortAndCastOhlcv(df, p).Ok? && Has(df, price) && AsFloats(Get(SortAndCastOhlcv(df, p).value, price)).Some?
    ensures SortAndCastOhlcv(df, p).Ok? && Has(df, price) && r.Err? ==> r == Err(NotNumeric(price))
    ensures r.Ok? ==>
      var g := SortAndCastOhlcv(df, p).value;
      && Has(df, price) && AsFloats(Get(g, price)).Some?
      && Valid(r.value) && r.value.rows == df.rows
      && Names(r.value) == (if Has(df, out) then Names(df) else Names(df) + [out])
      && Get(r.value, out) == Nums(PctChange(AsFloats(Get(g, price)).value))
      && forall n | Has(df, n) && n != out :: Get(r.value, n) == Get(g, n)
  {
    match SortAndCastOhlcv(df, p)
    case Err(e) => Err(e)
    case Ok(g) =>
      if !Has(g, price) then Err(PriceColumnNotFound(price))
      else
        match AsFloats(Get(g, price))
        case None => Err(NotNumeric(price))
        case Some(xs) =>
          assert Len(Get(g, price)) == g.rows by { FindAt(g, Find(g, price)); }
          Ok(Set(g, out, Nums(PctChange(xs))))
  }

  /** Returns of an OHLCV price or of the volume never fail on the column: once the
      cast succeeds, `add_returns` succeeds exactly when the column is present. */
  lemma AddReturnsOhlcv(df: Frame, price: string, out: string, p: Parsers)
    requires Valid(df) && SortAndCastOhlcv(df, p).Ok?
    requires price in Prices || price == "volume"
    ensures AddReturns(df, price, out, p).Ok? <==> Has(df, price)
  {
    SettledAfterCast(df, p);
  }
}
