/** The daily technical features of `project/src/features.py`: each feature column as a
    function of the input columns, `add_technical_features` as the successive column
    assignments it makes on its sorted copy, and `select_model_dataset`. */
module Features {
  import opened Frames
  import opened Stats
  import opened Indicators
  import opened Ohlcv
  import opened Cleaning

  // The feature columns

  /** `open / close.shift(1) - 1`. */
  function GapPct(open: seq<Option<real>>, close: seq<Option<real>>): (r: seq<Option<real>>)
    requires |open| == |close|
    ensures |r| == |open|
    ensures |open| > 0 ==> r[0].None?
    ensures forall i | 0 < i < |open| ::
      r[i].Some? <==> open[i].Some? && close[i - 1].Some? && close[i - 1].value != 0.0
    ensures forall i | 0 < i < |open| && r[i].Some? :: r[i].value == open[i].value / close[i - 1].value - 1.0
  {
    var prev := Shift(close);
    seq(|open|, i requires 0 <= i < |open| => Sub(Div(open[i], prev[i]), Some(1.0)))
  }

  /** `close.replace(0, np.nan)`. */
  function ZeroAsMissing(xs: seq<Option<real>>): (r: seq<Option<real>>)
    ensures |r| == |xs|
    ensures forall i | 0 <= i < |xs| :: r[i] == (if xs[i] == Some(0.0) then None else xs[i])
  {
    seq(|xs|, i requires 0 <= i < |xs| => if xs[i] == Some(0.0) then None else xs[i])
  }

  /** `(high - low) / close.replace(0, np.nan)`: a zero close gives NaN, never an error. */
  function DailyRangePct(high: seq<Option<real>>, low: seq<Option<real>>, close: seq<Option<real>>): (r: seq<Option<real>>)
    requires |high| == |low| == |close|
    ensures |r| == |close|
    ensures forall i | 0 <= i < |close| && close[i] == Some(0.0) :: r[i].None?
    ensures forall i | 0 <= i < |close| ::
      r[i].Some? <==> high[i].Some? && low[i].Some? && close[i].Some? && close[i].value != 0.0
    ensures forall i | 0 <= i < |close| && r[i].Some? ::
      r[i].value == (high[i].value - low[i].value) / close[i].value
  {
    var c := ZeroAsMissing(close);
    seq(|close|, i requires 0 <= i < |close| => Div(Sub(high[i], low[i]), c[i]))
  }

  /** `ma_5 / ma_20 - 1` over the close. */
  function MaRatio(close: seq<Option<real>>): (r: seq<Option<real>>)
    ensures |r| == |close|
  {
    var ma5 := RollingMean(close, 5);
    var ma20 := RollingMean(close, 20);
    seq(|close|, i requires 0 <= i < |close| => Sub(Div(ma5[i], ma20[i]), Some(1.0)))
  }

  /** The moving averages have no value before their window fills: `ma_5` on rows 0-3 and
      `ma_20` (hence the ratio) on rows 0-18. */
  lemma MovingAverageWarmup(close: seq<Option<real>>)
    ensures forall i | 0 <= i < |close| && i < 4 :: RollingMean(close, 5)[i].None?
    ensures forall i | 0 <= i < |close| && i < 19 :: RollingMean(close, 20)[i].None?
    ensures forall i | 0 <= i < |close| && i < 19 :: MaRatio(close)[i].None?
  {
  }

  /** A constant non-zero close gives equal averages, so a ratio of 0 from row 19 on. */
  lemma MaRatioConstant(close: seq<Option<real>>, c: real, i: nat)
    requires c != 0.0 && 19 <= i < |close| && forall k | 0 <= k < |close| :: close[k] == Some(c)
    ensures MaRatio(close)[i] == Some(0.0)
  {
    RollingMeanConstant(close, c, 5, i);
    RollingMeanConstant(close, c, 20, i);
    assert c / c == 1.0;
  }

  /** `(volume - vol_mean_20) / vol_std_20`. */
  function VolumeZ20(volume: seq<Option<real>>, sqrt: real -> real): (r: seq<Option<real>>)
    requires IsSqrt(sqrt)
    ensures |r| == |volume|
  {
    var m := RollingMean(volume, 20);
    var s := RollingStd(volume, 20, sqrt);
    seq(|volume|, i requires 0 <= i < |volume| => Div(Sub(volume[i], m[i]), s[i]))
  }

  /** The volume z-score is undefined on rows 0-18, and wherever the 20-row window is
      constant (0 / 0); otherwise it is the last volume's distance from the window mean,
      divided by the window standard deviation. */
  lemma VolumeZ20Defined(volume: seq<Option<real>>, sqrt: real -> real, i: nat)
    requires IsSqrt(sqrt) && i < |volume|
    ensures i < 19 ==> VolumeZ20(volume, sqrt)[i].None?
    ensures VolumeZ20(volume, sqrt)[i].Some? <==> Ready(volume, i, 20) && !Constant(WindowValues(volume, i, 20))
    ensures Ready(volume, i, 20) ==>
      var s := WindowValues(volume, i, 20);
      VolumeZ20(volume, sqrt)[i] == Div(Some(s[19] - Mean(s)), Some(SampleStd(s, sqrt)))
  {
    VolumeZ20Cell(volume, sqrt, i);
  }

  /** One cell of the z-score, read off the rolling mean and standard deviation. */
  lemma VolumeZ20Cell(volume: seq<Option<real>>, sqrt: real -> real, i: nat)
    requires IsSqrt(sqrt) && i < |volume|
    ensures !Ready(volume, i, 20) ==> VolumeZ20(volume, sqrt)[i].None?
    ensures Ready(volume, i, 20) ==>
      var s := WindowValues(volume, i, 20);
      && VolumeZ20(volume, sqrt)[i] == Div(Some(s[19] - Mean(s)), Some(SampleStd(s, sqrt)))
      && (SampleStd(s, sqrt) == 0.0 <==> Constant(s))
  {
    var m := RollingMean(volume, 20);
    var sd := RollingStd(volume, 20, sqrt);
    var z := VolumeZ20(volume, sqrt)[i];
    assert z == Div(Sub(volume[i], m[i]), sd[i]);
    if Ready(volume, i, 20) {
      var s := WindowValues(volume, i, 20);
      assert volume[i] == Some(s[19]);
      RollingMeanAt(volume, 20, i);
      RollingStdAt(volume, 20, sqrt, i);
    } else {
      assert m[i].None?;
    }
  }

  /** `ema12 - ema26` of the close. */
  function Macd(close: seq<Option<real>>): (r: seq<Option<real>>)
    ensures |r| == |close|
  {
    var fast := Ewm(close, SpanAlpha(12), 0);
    var slow := Ewm(close, SpanAlpha(26), 0);
    seq(|close|, i requires 0 <= i < |close| => Sub(fast[i], slow[i]))
  }

  /** The nine-span average of the MACD. */
  function MacdSignal(close: seq<Option<real>>): (r: seq<Option<real>>)
    ensures |r| == |close|
  {
    Ewm(Macd(close), SpanAlpha(9), 0)
  }

  /** Both averages start at the first close, so MACD and its signal start at 0. */
  lemma MacdStart(close: seq<Option<real>>)
    requires |close| > 0 && close[0].Some?
    ensures Macd(close)[0] == Some(0.0) && MacdSignal(close)[0] == Some(0.0)
  {
    EwmFirst(close, SpanAlpha(12));
    EwmFirst(close, SpanAlpha(26));
    EwmFirst(Macd(close), SpanAlpha(9));
  }

  /** A constant close gives MACD and signal 0 on every row. */
  lemma MacdConstant(close: seq<Option<real>>, c: real)
    requires forall k | 0 <= k < |close| :: close[k] == Some(c)
    ensures forall i | 0 <= i < |close| :: Macd(close)[i] == Some(0.0) && MacdSignal(close)[i] == Some(0.0)
  {
    forall i | 0 <= i < |close| ensures Macd(close)[i] == Some(0.0) {
      EwmConstant(close, SpanAlpha(12), c, i);
      EwmConstant(close, SpanAlpha(26), c, i);
    }
    forall i | 0 <= i < |close| ensures MacdSignal(close)[i] == Some(0.0) {
      EwmConstant(Macd(close), SpanAlpha(9), 0.0, i);
    }
  }

  // add_technical_features

  /** `_ensure_datetime_tz`: a KeyError without a `date` column; otherwise that column
      parsed to time points, unparsable values becoming NaT. */
  function EnsureDatetime(df: Frame, p: Parsers): (r: Result<Frame>)
    requires Valid(df)
    ensures r.Ok? <==> Has(df, "date")
    ensures r.Err? ==> r == Err(KeysNotFound(["date"]))
    ensures r.Ok? ==> Valid(r.value) && Names(r.value) == Names(df) && r.value.rows == df.rows
    ensures r.Ok? ==> Get(r.value, "date") == ToDates(Get(df, "date"), p)
    ensures r.Ok? ==> forall n | Has(df, n) && n != "date" :: Get(r.value, n) == Get(df, n)
  {
    if !Has(df, "date") then Err(KeysNotFound(["date"]))
    else
      assert Len(Get(df, "date")) == df.rows by { FindAt(df, Find(df, "date")); }
      Ok(Set(df, "date", ToDates(Get(df, "date"), p)))
  }

  /** The sorted copy the features are computed on: the frame with `date` parsed and its
      rows reordered by it. */
  lemma SortedCopy(df: Frame, p: Parsers)
    requires Valid(df) && Has(df, "date")
    ensures SortByDate(df, p) == TakeRows(EnsureDatetime(df, p).value, Order(Get(EnsureDatetime(df, p).value, "date").ts))
  {
  }

  /** The columns each line of `add_technical_features` reads, as floats, in the order it
      reads them: a KeyError for the first one absent, otherwise the error of the first one
      that is not numeric. */
  function Operands(f: Frame, names: seq<string>): (r: Result<seq<seq<Option<real>>>>)
    requires Valid(f)
    ensures r.Ok? <==> forall n | n in names :: FloatColumn(f, n).Ok?
    ensures r.Ok? ==> |r.value| == |names| && forall k | 0 <= k < |names| :: Ok(r.value[k]) == FloatColumn(f, names[k])
    ensures r.Err? ==> exists n | n in names :: FloatColumn(f, n) == Err(r.error)
    ensures Missing(names, NameSet(f)) != [] ==> r == Err(KeysNotFound([Missing(names, NameSet(f))[0]]))
  {
    var missing := Missing(names, NameSet(f));
    if missing != [] then
      assert FloatColumn(f, missing[0]) == Err(KeysNotFound([missing[0]]));
      Err(KeysNotFound([missing[0]]))
    else Floats(f, names)
  }

  function Floats(f: Frame, names: seq<string>): (r: Result<seq<seq<Option<real>>>>)
    requires Valid(f)
    ensures r.Ok? <==> forall n | n in names :: FloatColumn(f, n).Ok?
    ensures r.Ok? ==> |r.value| == |names| && forall k | 0 <= k < |names| :: Ok(r.value[k]) == FloatColumn(f, names[k])
    ensures r.Err? ==> exists n | n in names :: FloatColumn(f, n) == Err(r.error)
  {
    if names == [] then Ok([])
    else
      match FloatColumn(f, names[0])
      case Err(e) =>
        assert names[0] in names;
        Err(e)
      case Ok(xs) =>
        match Floats(f, names[1..])
        case Err(e) =>
          assert forall n | n in names[1..] :: n in names;
          Err(e)
        case Ok(rest) =>
          FloatsCons(f, names, xs, rest);
          Ok([xs] + rest)
  }

  /** One more column read in front of the columns read after it. */
  lemma FloatsCons(f: Frame, names: seq<string>, xs: seq<Option<real>>, rest: seq<seq<Option<real>>>)
    requires Valid(f) && names != [] && FloatColumn(f, names[0]) == Ok(xs)
    requires |rest| == |names| - 1 && forall k | 0 <= k < |rest| :: Ok(rest[k]) == FloatColumn(f, names[1..][k])
    requires forall n | n in names[1..] :: FloatColumn(f, n).Ok?
    ensures forall n | n in names :: FloatColumn(f, n).Ok?
    ensures forall k | 0 <= k < |names| :: Ok(([xs] + rest)[k]) == FloatColumn(f, names[k])
  {
    assert forall n | n in names :: n == names[0] || n in names[1..];
    var r := [xs] + rest;
    assert forall k | 1 <= k < |names| :: r[k] == rest[k - 1] && names[k] == names[1..][k - 1];
  }

  /** The columns `add_technical_features` reads. */
  const TechInputs: seq<string> := ["open", "close", "high", "low", "ret_1d", "volume"]

  /** The columns it writes, in the order it writes them. */
  const TechOutputs: seq<string> := ["gap_pct", "daily_range_pct", "ma_5", "ma_20", "ma_ratio_5_20",
    "ret_vol_10", "volume_z20", "rsi_14", "macd", "macd_signal"]

  lemma TechNames()
    ensures Distinct(TechOutputs)
    ensures forall n | n in TechInputs :: n !in TechOutputs
  {
  }

  /** Every input column is present and numeric. */
  predicate InputsOk(g: Frame)
    requires Valid(g)
  {
    && FloatColumn(g, "open").Ok? && FloatColumn(g, "close").Ok? && FloatColumn(g, "high").Ok?
    && FloatColumn(g, "low").Ok? && FloatColumn(g, "ret_1d").Ok? && FloatColumn(g, "volume").Ok?
  }

  /** The feature columns, in writing order, from the input series. */
  function FeatureData(open: seq<Option<real>>, close: seq<Option<real>>, high: seq<Option<real>>,
                       low: seq<Option<real>>, ret: seq<Option<real>>, volume: seq<Option<real>>,
                       sqrt: real -> real): (d: seq<Data>)
    requires IsSqrt(sqrt) && |open| == |close| == |high| == |low| == |ret| == |volume|
    ensures |d| == |TechOutputs|
    ensures forall j | 0 <= j < |d| :: Len(d[j]) == |close|
  {
    [ Nums(GapPct(open, close)), Nums(DailyRangePct(high, low, close)),
      Nums(RollingMean(close, 5)), Nums(RollingMean(close, 20)), Nums(MaRatio(close)),
      Nums(RollingStd(ret, 10, sqrt)), Nums(VolumeZ20(volume, sqrt)),
      Nums(Rsi(close, 14)), Nums(Macd(close)), Nums(MacdSignal(close)) ]
  }

  /** `out` is `g` with the first `k` of the columns `names` written: those hold the first
      `k` of `ds`, every other column of `g` is as it was, and nothing else was added. */
  ghost predicate Assigned(g: Frame, out: Frame, names: seq<string>, k: nat, ds: seq<Data>)
    requires k <= |names|
  {
    && Valid(out) && out.rows == g.rows && out.source == g.source
    && (forall n :: Has(out, n) <==> Has(g, n) || n in names[..k])
    && (forall n | Has(g, n) && n !in names[..k] :: Get(out, n) == Get(g, n))
    && k <= |ds|
    && (forall j | 0 <= j < k :: Has(out, names[j]) && Get(out, names[j]) == ds[j])
  }

  lemma AssignNext(g: Frame, out: Frame, names: seq<string>, k: nat, ds: seq<Data>)
    requires Distinct(names) && k < |names| && k < |ds| && Assigned(g, out, names, k, ds)
    requires Len(ds[k]) == out.rows
    ensures Assigned(g, Set(out, names[k], ds[k]), names, k + 1, ds)
  {
    var n := names[k];
    var next := Set(out, n, ds[k]);
    assert names[..k + 1] == names[..k] + [n];
    forall j | 0 <= j < k ensures names[j] != n {
    }
    assert forall x :: x in names[..k + 1] <==> x in names[..k] || x == n;
    forall j | 0 <= j < k + 1 ensures Has(next, names[j]) && Get(next, names[j]) == ds[j] {
      if j < k {
        assert Has(out, names[j]) && Get(out, names[j]) == ds[j];
      }
    }
  }

  /** One `df[name] = d` of the sequence, writing the `k`-th feature column `ds[k]`. */
  method Write(ghost g: Frame, out: Frame, ghost names: seq<string>, ghost ds: seq<Data>, ghost k: nat,
               name: string, d: Data) returns (next: Frame)
    requires Distinct(names) && k < |ds| == |names| && name == names[k] && d == ds[k]
    requires Assigned(g, out, names, k, ds) && Len(d) == g.rows
    ensures Assigned(g, next, names, k + 1, ds)
  {
    AssignNext(g, out, names, k, ds);
    next := Set(out, name, d);
  }

  /** The ten feature columns written one after another, each computed by `Assign`. */
  method WriteFeatures(g: Frame, gap: Data, range: Data, ma5: Data, ma20: Data, ratio: Data,
                       vol10: Data, volz: Data, rsi: Data, macd: Data, signal: Data) returns (out: Frame)
    requires Valid(g)
    requires Len(gap) == Len(range) == Len(ma5) == Len(ma20) == Len(ratio) == g.rows
    requires Len(vol10) == Len(volz) == Len(rsi) == Len(macd) == Len(signal) == g.rows
    ensures Assigned(g, out, TechOutputs, |TechOutputs|, [gap, range, ma5, ma20, ratio, vol10, volz, rsi, macd, signal])
  {
    ghost var ds := [gap, range, ma5, ma20, ratio, vol10, volz, rsi, macd, signal];
    ghost var names := TechOutputs;
    TechNames();
    assert forall k | 0 <= k < |ds| :: Len(ds[k]) == g.rows;
    assert ds[0] == gap && ds[1] == range && ds[2] == ma5 && ds[3] == ma20 && ds[4] == ratio;
    assert ds[5] == vol10 && ds[6] == volz && ds[7] == rsi && ds[8] == macd && ds[9] == signal;
    assert names[..0] == [];
    out := g;
    out := Write(g, out, names, ds, 0, "gap_pct", gap);
    out := Write(g, out, names, ds, 1, "daily_range_pct", range);
    out := Write(g, out, names, ds, 2, "ma_5", ma5);
    out := Write(g, out, names, ds, 3, "ma_20", ma20);
    out := Write(g, out, names, ds, 4, "ma_ratio_5_20", ratio);
    out := Write(g, out, names, ds, 5, "ret_vol_10", vol10);
    out := Write(g, out, names, ds, 6, "volume_z20", volz);
    out := Write(g, out, names, ds, 7, "rsi_14", rsi);
    out := Write(g, out, names, ds, 8, "macd", macd);
    out := Write(g, out, names, ds, 9, "macd_signal", signal);
  }

  /** A failed read of some input columns is the error of one of them, so not every input
      is readable. */
  lemma OperandsFail(g: Frame, names: seq<string>)
    requires Valid(g) && Operands(g, names).Err?
    requires forall n | n in names :: n in TechInputs
    ensures !InputsOk(g)
    ensures exists n | n in TechInputs :: FloatColumn(g, n) == Err(Operands(g, names).error)
  {
    var n :| n in names && FloatColumn(g, n) == Err(Operands(g, names).error);
    assert n in TechInputs;
    InputFails(g, n);
  }

  /** One input that cannot be read as floats is enough to fail the whole feature step. */
  lemma InputFails(g: Frame, n: string)
    requires Valid(g) && n in TechInputs && FloatColumn(g, n).Err?
    ensures !InputsOk(g)
  {
    assert n == "open" || n == "close" || n == "high" || n == "low" || n == "ret_1d" || n == "volume";
  }

  /** What `add_technical_features` leaves in its copy `r` of the sorted frame `g`: every
      feature column as its function of the inputs, every other column as it was. */
  ghost predicate TechnicalColumns(g: Frame, r: Frame, sqrt: real -> real)
    requires Valid(g) && IsSqrt(sqrt) && InputsOk(g)
  {
    Assigned(g, r, TechOutputs, |TechOutputs|,
      FeatureData(FloatColumn(g, "open").value, FloatColumn(g, "close").value, FloatColumn(g, "high").value,
                  FloatColumn(g, "low").value, FloatColumn(g, "ret_1d").value, FloatColumn(g, "volume").value, sqrt))
  }

  /** `add_technical_features`: parse and sort by date, then assign the feature columns
      one after another. Its lines read `open` and `close`, then `high` and `low`, then
      `ret_1d`, then `volume`; the first absent or non-numeric one stops it with that
      column's error. Since no feature column is an input column (`TechNames`), the reads
      are done before the writes here, which raises the same errors in the same order. */
  method AddTechnicalFeatures(df: Frame, p: Parsers, sqrt: real -> real) returns (r: Result<Frame>)
    requires Valid(df) && IsSqrt(sqrt)
    ensures !Has(df, "date") ==> r == Err(KeysNotFound(["date"]))
    ensures Has(df, "date") ==> (r.Ok? <==> InputsOk(SortByDate(df, p)))
    ensures Has(df, "date") && r.Err? ==> exists n | n in TechInputs :: FloatColumn(SortByDate(df, p), n) == Err(r.error)
    ensures r.Ok? ==> Has(df, "date") && TechnicalColumns(SortByDate(df, p), r.value, sqrt)
  {
    if !Has(df, "date") {
      return Err(KeysNotFound(["date"]));
    }
    r := Technical(SortByDate(df, p), sqrt);
  }

  /** The body of `add_technical_features` after the date sort: read the input columns as
      floats, compute the ten features and write them onto the sorted frame `g`. */
  method Technical(g: Frame, sqrt: real -> real) returns (r: Result<Frame>)
    requires Valid(g) && IsSqrt(sqrt)
    ensures r.Ok? <==> InputsOk(g)
    ensures r.Err? ==> exists n | n in TechInputs :: FloatColumn(g, n) == Err(r.error)
    ensures r.Ok? ==> TechnicalColumns(g, r.value, sqrt)
  {
    var a := Operands(g, ["open", "close"]);
    if a.Err? {
      OperandsFail(g, ["open", "close"]);
      return Err(a.error);
    }
    var open, close := a.value[0], a.value[1];
    assert FloatColumn(g, "open") == Ok(open) && FloatColumn(g, "close") == Ok(close);
    a := Operands(g, ["high", "low"]);
    if a.Err? {
      OperandsFail(g, ["high", "low"]);
      return Err(a.error);
    }
    var high, low := a.value[0], a.value[1];
    assert FloatColumn(g, "high") == Ok(high) && FloatColumn(g, "low") == Ok(low);
    a := Operands(g, ["ret_1d"]);
    if a.Err? {
      OperandsFail(g, ["ret_1d"]);
      return Err(a.error);
    }
    var ret := a.value[0];
    assert FloatColumn(g, "ret_1d") == Ok(ret);
    a := Operands(g, ["volume"]);
    if a.Err? {
      OperandsFail(g, ["volume"]);
      return Err(a.error);
    }
    var volume := a.value[0];
    assert FloatColumn(g, "volume") == Ok(volume);
    var out := Assign(g, open, close, high, low, ret, volume, sqrt);
    r := Ok(out);
  }

  /** The ten feature series (gap, range, the two moving averages and their ratio, return
      volatility, volume z-score, RSI, MACD and its signal), each from the input columns,
      written in order. */
  method Assign(g: Frame, open: seq<Option<real>>, close: seq<Option<real>>, high: seq<Option<real>>,
                low: seq<Option<real>>, ret: seq<Option<real>>, volume: seq<Option<real>>,
                sqrt: real -> real) returns (out: Frame)
    requires Valid(g) && IsSqrt(sqrt)
    requires |open| == |close| == |high| == |low| == |ret| == |volume| == g.rows
    ensures Assigned(g, out, TechOutputs, |TechOutputs|, FeatureData(open, close, high, low, ret, volume, sqrt))
  {
    out := WriteFeatures(g, Nums(GapPct(open, close)), Nums(DailyRangePct(high, low, close)),
      Nums(RollingMean(close, 5)), Nums(RollingMean(close, 20)), Nums(MaRatio(close)),
      Nums(RollingStd(ret, 10, sqrt)), Nums(VolumeZ20(volume, sqrt)), Nums(Rsi(close, 14)),
      Nums(Macd(close)), Nums(MacdSignal(close)));
  }

  // The modelling table

  const ModelColumns: seq<string> := ["date", "ret_1d", "ret_1d_z", "gap_pct", "daily_range_pct",
    "ma_ratio_5_20", "ret_vol_10", "volume_z20", "rsi_14", "macd", "macd_signal"]

  lemma ModelNames()
    ensures Distinct(ModelColumns)
  {
  }

  /** `select_model_dataset`: a KeyError listing the absent modelling columns in their order;
      otherwise exactly those columns, in that order, with every row holding a missing cell
      dropped. */
  function SelectModelDataset(df: Frame): (r: Result<Frame>)
    requires Valid(df)
    ensures r.Err? <==> exists n | n in ModelColumns :: !Has(df, n)
    ensures r.Err? ==> r == Err(KeysNotFound(Missing(ModelColumns, NameSet(df))))
    ensures r.Ok? ==> Valid(r.value) && Names(r.value) == ModelColumns && r.value.source == df.source
    ensures r.Ok? ==> forall n, k | n in ModelColumns && 0 <= k < r.value.rows :: !IsNa(Get(r.value, n), k)
  {
    if forall n | n in ModelColumns :: Has(df, n) then
      ModelNames();
      var t := SelectColumns(df, ModelColumns);
      Ok(DropNa(t, ModelColumns))
    else
      var n :| n in ModelColumns && !Has(df, n);
      assert n in Missing(ModelColumns, NameSet(df));
      Err(KeysNotFound(Missing(ModelColumns, NameSet(df))))
  }

  /** The rows of the modelling table are the input rows complete in every modelling column
      (`CompleteRows` lists them in ascending order), each modelling column holding the
      input's cells at those rows. */
  lemma SelectModelDatasetRows(df: Frame)
    requires Valid(df) && SelectModelDataset(df).Ok?
    ensures forall n | n in ModelColumns :: Has(df, n)
    ensures var r := SelectModelDataset(df).value;
      && r.rows == |CompleteRows(df, ModelColumns, df.rows)|
      && forall n | n in ModelColumns :: Get(r, n) == TakeData(Get(df, n), CompleteRows(df, ModelColumns, df.rows))
  {
    var t := SelectedModelColumns(df);
    var idx := CompleteRows(t, ModelColumns, t.rows);
    var r := SelectModelDataset(df).value;
    assert r == TakeRows(t, idx);
    CompleteRowsAgree(t, df, ModelColumns, df.rows);
    forall n | n in ModelColumns ensures Get(r, n) == TakeData(Get(df, n), idx) {
      TakeRowsGet(t, idx, n);
    }
  }

  /** The projection on the modelling columns reads each of them as the input does. */
  lemma SelectedModelColumns(df: Frame) returns (t: Frame)
    requires Valid(df) && forall n | n in ModelColumns :: Has(df, n)
    ensures Distinct(ModelColumns) && t == SelectColumns(df, ModelColumns)
    ensures forall n | n in ModelColumns :: Has(t, n) && Get(t, n) == Get(df, n)
  {
    ModelNames();
    t := SelectColumns(df, ModelColumns);
    forall n | n in ModelColumns ensures Has(t, n) && Get(t, n) == Get(df, n) {
      var k :| 0 <= k < |ModelColumns| && ModelColumns[k] == n;
      FindAt(t, k);
    }
  }
}
