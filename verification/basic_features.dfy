/** The three homework features of `homework/homework9/src/features.py`. Each step copies
    its input and adds one computed column, so each is a function from frame to frame. */
module BasicFeatures {
  import opened Frames
  import opened Stats
  import opened Indicators
  import opened Cleaning
  import opened Features

  /** `(high - low) / close` row by row. Nothing guards a zero close: pandas gives an
      infinity there (NaN for 0 / 0), which this model writes as missing. */
  function VolatilityRatio(high: seq<Option<real>>, low: seq<Option<real>>, close: seq<Option<real>>): (r: seq<Option<real>>)
    requires |high| == |low| == |close|
    ensures |r| == |close|
    ensures forall i | 0 <= i < |close| ::
      r[i].Some? <==> high[i].Some? && low[i].Some? && close[i].Some? && close[i].value != 0.0
    ensures forall i | 0 <= i < |close| && r[i].Some? ::
      r[i].value == (high[i].value - low[i].value) / close[i].value
  {
    seq(|close|, i requires 0 <= i < |close| => Div(Sub(high[i], low[i]), close[i]))
  }

  const RatioInputs: seq<string> := ["high", "low", "close"]

  /** `add_volatility_ratio`: a KeyError naming the set of absent inputs; otherwise the frame
      with `volatility_ratio` written and every other column as it was. */
  function AddVolatilityRatio(df: Frame): (r: Result<Frame>)
    requires Valid(df)
    ensures r.Err? && r.error.KeySetNotFound? <==> !(Has(df, "high") && Has(df, "low") && Has(df, "close"))
    ensures r.Err? && r.error.KeySetNotFound? ==>
      r.error.keys == {"high", "low", "close"} - NameSet(df) && r.error.keys != {}
    ensures r.Ok? <==> FloatColumn(df, "high").Ok? && FloatColumn(df, "low").Ok? && FloatColumn(df, "close").Ok?
    ensures r.Ok? ==> Valid(r.value) && r.value.rows == df.rows && Has(r.value, "volatility_ratio")
    ensures r.Ok? ==> Get(r.value, "volatility_ratio") == Nums(VolatilityRatio(
      FloatColumn(df, "high").value, FloatColumn(df, "low").value, FloatColumn(df, "close").value))
    ensures r.Ok? ==> Adds(df, r.value, {"volatility_ratio"})
  {
    var missing := {"high", "low", "close"} - NameSet(df);
    if !(Has(df, "high") && Has(df, "low") && Has(df, "close")) then
      assert missing != {} by {
        if !Has(df, "high") { assert "high" in missing; }
        else if !Has(df, "low") { assert "low" in missing; }
        else { assert "close" in missing; }
      }
      Err(KeySetNotFound(missing))
    else
      match RatioColumn(df)
      case Err(e) => Err(e)
      case Ok(v) =>
        SetAdds(df, "volatility_ratio", Nums(v));
        Ok(Set(df, "volatility_ratio", Nums(v)))
  }

  /** The ratio of a frame holding the three inputs, or the error of the first of them that
      is not numeric. */
  function RatioColumn(df: Frame): (r: Result<seq<Option<real>>>)
    requires Valid(df) && Has(df, "high") && Has(df, "low") && Has(df, "close")
    ensures r.Ok? <==> FloatColumn(df, "high").Ok? && FloatColumn(df, "low").Ok? && FloatColumn(df, "close").Ok?
    ensures r.Err? ==> !r.error.KeySetNotFound?
    ensures r.Ok? ==> |r.value| == df.rows && r.value == VolatilityRatio(
      FloatColumn(df, "high").value, FloatColumn(df, "low").value, FloatColumn(df, "close").value)
  {
    match Floats(df, RatioInputs)
    case Err(e) =>
      assert !e.KeySetNotFound? by {
        var n :| n in RatioInputs && FloatColumn(df, n) == Err(e);
      }
      Err(e)
    case Ok(hlc) =>
      assert Ok(hlc[0]) == FloatColumn(df, "high") && Ok(hlc[1]) == FloatColumn(df, "low");
      assert Ok(hlc[2]) == FloatColumn(df, "close");
      Ok(VolatilityRatio(hlc[0], hlc[1], hlc[2]))
  }

  /** `(volume - mean) / (std if std != 0 else 1.0)` with the mean and the population
      standard deviation (ddof=0) of the defined values. Missing cells stay missing; a
      column without defined values has a NaN mean and stays all-missing. */
  function VolumeZscore(xs: seq<Option<real>>, sqrt: real -> real): (r: seq<Option<real>>)
    requires IsSqrt(sqrt)
    ensures |r| == |xs|
    ensures forall i | 0 <= i < |xs| :: r[i].None? <==> xs[i].None?
  {
    var v := Defined(xs);
    if v == [] then
      DefinedEmpty(xs);
      xs
    else
      var sd := sqrt(PopVariance(v));
      SqrtZero(sqrt, PopVariance(v));
      AffineCells(xs, Mean(v), if sd != 0.0 then sd else 1.0)
  }

  /** A constant volume has standard deviation 0, so the divisor is 1 and every defined
      cell becomes 0. */
  lemma VolumeZscoreConstant(xs: seq<Option<real>>, sqrt: real -> real, c: real)
    requires IsSqrt(sqrt) && forall i | 0 <= i < |xs| :: xs[i] == Some(c)
    ensures forall i | 0 <= i < |xs| :: VolumeZscore(xs, sqrt)[i] == Some(0.0)
  {
    var v := Defined(xs);
    if v != [] {
      DefinedAll(xs);
      MeanConstant(v, c);
      VarianceZeroIffConstant(v);
      SqrtZero(sqrt, PopVariance(v));
    }
  }

  /** Whatever the divisor, the defined scores sum to zero: the values are centred on
      their own mean before they are scaled. */
  lemma VolumeZscoreSumZero(xs: seq<Option<real>>, sqrt: real -> real)
    requires IsSqrt(sqrt)
    ensures Sum(Defined(VolumeZscore(xs, sqrt))) == 0.0
  {
    var v := Defined(xs);
    if v == [] {
      DefinedEmpty(xs);
    } else {
      var sd := sqrt(PopVariance(v));
      var d := if sd != 0.0 then sd else 1.0;
      DefinedAffine(xs, Mean(v), d);
      StandardizedSumZero(v, d);
    }
  }

  /** `add_volume_zscore`: a KeyError without `volume`; otherwise `volume_zscore` written
      and every other column as it was. */
  function AddVolumeZscore(df: Frame, sqrt: real -> real): (r: Result<Frame>)
    requires Valid(df) && IsSqrt(sqrt)
    ensures !Has(df, "volume") ==> r == Err(KeysNotFound(["volume"]))
    ensures r.Ok? <==> FloatColumn(df, "volume").Ok?
    ensures r.Ok? ==> Valid(r.value) && r.value.rows == df.rows && Has(r.value, "volume_zscore")
    ensures r.Ok? ==> Get(r.value, "volume_zscore") == Nums(VolumeZscore(FloatColumn(df, "volume").value, sqrt))
    ensures r.Ok? ==> Adds(df, r.value, {"volume_zscore"})
  {
    match FloatColumn(df, "volume")
    case Err(e) => Err(e)
    case Ok(xs) =>
      SetAdds(df, "volume_zscore", Nums(VolumeZscore(xs, sqrt)));
      Ok(Set(df, "volume_zscore", Nums(VolumeZscore(xs, sqrt))))
  }

  /** `ret_1d * volume_zscore` row by row. */
  function Interaction(ret: seq<Option<real>>, z: seq<Option<real>>): (r: seq<Option<real>>)
    requires |ret| == |z|
    ensures |r| == |ret|
    ensures forall i | 0 <= i < |ret| ::
      r[i] == if ret[i].Some? && z[i].Some? then Some(ret[i].value * z[i].value) else None
  {
    seq(|ret|, i requires 0 <= i < |ret| => Mul(ret[i], z[i]))
  }

  /** `add_ret_vol_interaction`: a KeyError naming `ret_1d` when it is absent, else naming
      `volume_zscore` when that is absent; otherwise the product column written and every
      other column as it was. */
  function AddRetVolInteraction(df: Frame): (r: Result<Frame>)
    requires Valid(df)
    ensures !Has(df, "ret_1d") ==> r == Err(KeysNotFound(["ret_1d"]))
    ensures Has(df, "ret_1d") && !Has(df, "volume_zscore") ==> r == Err(KeysNotFound(["volume_zscore"]))
    ensures r.Ok? <==> FloatColumn(df, "ret_1d").Ok? && FloatColumn(df, "volume_zscore").Ok?
    ensures r.Ok? ==> Valid(r.value) && r.value.rows == df.rows && Has(r.value, "ret_vol_interaction")
    ensures r.Ok? ==>
      Get(r.value, "ret_vol_interaction") ==
        Nums(Interaction(FloatColumn(df, "ret_1d").value, FloatColumn(df, "volume_zscore").value))
    ensures r.Ok? ==> Adds(df, r.value, {"ret_vol_interaction"})
  {
    if !Has(df, "ret_1d") then Err(KeysNotFound(["ret_1d"]))
    else if !Has(df, "volume_zscore") then Err(KeysNotFound(["volume_zscore"]))
    else
      match FloatColumn(df, "ret_1d")
      case Err(e) => Err(e)
      case Ok(ret) =>
        match FloatColumn(df, "volume_zscore")
        case Err(e) => Err(e)
        case Ok(z) =>
          SetAdds(df, "ret_vol_interaction", Nums(Interaction(ret, z)));
          Ok(Set(df, "ret_vol_interaction", Nums(Interaction(ret, z))))
  }

  /** `add_basic_features`: the three steps in that order. On success exactly the three
      columns are added and every other column is as it was. */
  function AddBasicFeatures(df: Frame, sqrt: real -> real): (r: Result<Frame>)
    requires Valid(df) && IsSqrt(sqrt)
    ensures r.Ok? ==> Adds(df, r.value, {"volatility_ratio", "volume_zscore", "ret_vol_interaction"})
  {
    match AddVolatilityRatio(df)
    case Err(e) => Err(e)
    case Ok(a) =>
      match AddVolumeZscore(a, sqrt)
      case Err(e) => Err(e)
      case Ok(b) =>
        match AddRetVolInteraction(b)
        case Err(e) => Err(e)
        case Ok(c) =>
          ChainAdds(df, a, b, c);
          Ok(c)
  }

  lemma ChainAdds(df: Frame, a: Frame, b: Frame, c: Frame)
    requires Adds(df, a, {"volatility_ratio"}) && Adds(a, b, {"volume_zscore"}) && Adds(b, c, {"ret_vol_interaction"})
    ensures Adds(df, c, {"volatility_ratio", "volume_zscore", "ret_vol_interaction"})
  {
    AddsTrans(df, a, b, {"volatility_ratio"}, {"volume_zscore"});
    AddsTrans(df, b, c, {"volatility_ratio", "volume_zscore"}, {"ret_vol_interaction"});
  }

  /** A column a step does not write reads the same after it. */
  lemma SameColumn(f: Frame, g: Frame, names: set<string>, n: string)
    requires Valid(f) && Adds(f, g, names) && n !in names
    ensures FloatColumn(g, n) == FloatColumn(f, n)
  {
    assert Has(g, n) == Has(f, n);
  }

  /** The wrapper succeeds whenever high, low, close, volume and ret_1d are present and
      numeric (`BasicFeaturesAdded` gives the converse). */
  lemma BasicFeaturesOk(df: Frame, sqrt: real -> real)
    requires Valid(df) && IsSqrt(sqrt)
    requires FloatColumn(df, "high").Ok? && FloatColumn(df, "low").Ok? && FloatColumn(df, "close").Ok?
    requires FloatColumn(df, "volume").Ok? && FloatColumn(df, "ret_1d").Ok?
    ensures AddBasicFeatures(df, sqrt).Ok?
  {
    var a := AddVolatilityRatio(df).value;
    SameColumn(df, a, {"volatility_ratio"}, "volume");
    SameColumn(df, a, {"volatility_ratio"}, "ret_1d");
    LaterStepsOk(a, sqrt);
  }

  lemma LaterStepsOk(a: Frame, sqrt: real -> real)
    requires Valid(a) && IsSqrt(sqrt) && FloatColumn(a, "volume").Ok? && FloatColumn(a, "ret_1d").Ok?
    ensures AddVolumeZscore(a, sqrt).Ok? && AddRetVolInteraction(AddVolumeZscore(a, sqrt).value).Ok?
  {
    var b := AddVolumeZscore(a, sqrt).value;
    SameColumn(a, b, {"volume_zscore"}, "ret_1d");
    assert FloatColumn(b, "volume_zscore").Ok? by {
      assert Get(b, "volume_zscore").Nums?;
    }
  }

  /** On success the five input columns were present and numeric, and the three new columns
      hold the features computed from them. */
  lemma BasicFeaturesAdded(df: Frame, sqrt: real -> real)
    requires Valid(df) && IsSqrt(sqrt) && AddBasicFeatures(df, sqrt).Ok?
    ensures FloatColumn(df, "high").Ok? && FloatColumn(df, "low").Ok? && FloatColumn(df, "close").Ok?
    ensures FloatColumn(df, "volume").Ok? && FloatColumn(df, "ret_1d").Ok?
    ensures var r := AddBasicFeatures(df, sqrt).value;
      var ret, vol := FloatColumn(df, "ret_1d").value, FloatColumn(df, "volume").value;
      var z := VolumeZscore(vol, sqrt);
      && |ret| == |z| == df.rows
      && Has(r, "volatility_ratio") && Has(r, "volume_zscore") && Has(r, "ret_vol_interaction")
      && Get(r, "volatility_ratio") == Nums(VolatilityRatio(
           FloatColumn(df, "high").value, FloatColumn(df, "low").value, FloatColumn(df, "close").value))
      && Get(r, "volume_zscore") == Nums(z)
      && Get(r, "ret_vol_interaction") == Nums(Interaction(ret, z))
  {
    var a := AddVolatilityRatio(df).value;
    var b := AddVolumeZscore(a, sqrt).value;
    var r := AddRetVolInteraction(b).value;
    assert AddBasicFeatures(df, sqrt).value == r;
    SameColumn(df, a, {"volatility_ratio"}, "volume");
    SameColumn(df, a, {"volatility_ratio"}, "ret_1d");
    SameColumn(a, b, {"volume_zscore"}, "ret_1d");
    assert Get(r, "volatility_ratio") == Get(b, "volatility_ratio") == Get(a, "volatility_ratio");
    assert Get(r, "volume_zscore") == Get(b, "volume_zscore");
  }
}
