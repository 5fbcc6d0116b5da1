/** `run_full_analysis` of `project/src/analysis.py`: label the newest processed file, split it
    by position into training rows and a holdout, train and save a fresh bundle, score the
    holdout, and sweep the decision threshold. The fitted pipeline's `predict_proba` is a
    parameter `predict`; the files written are the values returned. */
module Analysis {
  import opened Frames
  import opened Metrics
  import opened Dataset
  import opened ModelIO

  const MetricsPath := "reports/full_analysis_metrics.csv"
  const PredictionsPath := "reports/holdout_predictions.csv"
  const ChartPath := "reports/threshold_sweep.png"

  /** The dictionary `run_full_analysis` returns. */
  datatype Report = Report(
    nTrain: nat, nTest: nat, features: seq<string>, threshold: real,
    metricsPath: string, predictionsPath: string, chartPath: string, metrics: Scores)

  /** The rows of `holdout_predictions.csv`, column by column. */
  datatype Predictions = Predictions(date: Data, pUp: seq<real>, yTrue: seq<int>, yPred: seq<int>)

  /** The curves of `threshold_sweep.png`. */
  datatype Sweep = Sweep(thresholds: seq<real>, accs: seq<Option<real>>, f1s: seq<real>)

  /** The labelled table of the newest processed file, as `run_full_analysis` builds it:
      every feature, the date and a 0/1 label in every row. */
  function Table(files: seq<FileEntry>, features: seq<string>, p: Parsers): (r: Result<Frame>)
    requires forall e | e in files :: Valid(e.contents)
    ensures LoadLatest(files, p).Err? ==> r == Err(LoadLatest(files, p).error)
    ensures LoadLatest(files, p).Ok? ==> r == Labelled(LoadLatest(files, p).value, features)
    ensures r.Ok? ==>
      && Valid(r.value) && Has(r.value, "date") && Has(r.value, "y_up")
      && (forall n | n in features :: Has(r.value, n))
      && IsLabelColumn(Get(r.value, "y_up"), r.value.rows)
  {
    match LoadLatest(files, p)
    case Err(e) => Err(e)
    case Ok(df) =>
      var t := Labelled(df, features);
      if t.Ok? then
        LabelledLabels(df, features);
        assert Has(t.value, "date") by { assert "date" in Names(Label(df).value); }
        t
      else t
  }

  /** `train_model` relabels the frame it is given; on a frame already labelled it trains
      the bundle it would have trained on the unlabelled one. */
  lemma TrainOnLabelled<P>(df: Frame, features: seq<string>, threshold: real, fit: (Frame, Data) -> P)
    requires Valid(df) && Label(df).Ok?
    ensures TrainModel(Label(df).value, features, threshold, fit) == TrainModel(df, features, threshold, fit)
  {
    LabelledAgain(df, features);
  }

  /** The holdout starts at `CutIndex(n, test_frac)` but the saved model is fit on the first
      `TrainCut(n)` rows whatever the fraction: with the default fraction the two meet; with
      a larger one the holdout begins inside the training rows, and with a smaller one rows
      between the two are neither trained on nor scored. */
  lemma HoldoutOverlap(n: nat, testFrac: real)
    requires 0.0 <= testFrac <= 1.0
    ensures 0.2 <= testFrac ==> CutIndex(n, testFrac) <= TrainCut(n)
    ensures testFrac <= 0.2 ==> TrainCut(n) <= CutIndex(n, testFrac)
    ensures testFrac == 0.2 ==> CutIndex(n, testFrac) == TrainCut(n)
  {
    TrainCutIsDefaultSplit(n);
    if 0.2 <= testFrac {
      CutMonotone(n, 0.2, testFrac);
    } else {
      CutMonotone(n, testFrac, 0.2);
    }
  }

  /** The holdout of a labelled table at `test_frac` holds the features, the date and a
      0/1 label in every row. */
  lemma HoldoutColumns(dfm: Frame, features: seq<string>, testFrac: real)
    requires Valid(dfm) && Has(dfm, "date") && (forall n | n in features :: Has(dfm, n))
    requires Has(dfm, "y_up") && IsLabelColumn(Get(dfm, "y_up"), dfm.rows)
    ensures var test := Split(dfm, testFrac).1;
      && Has(test, "date") && (forall n | n in features :: Has(test, n))
      && Has(test, "y_up") && IsLabelColumn(Get(test, "y_up"), test.rows)
  {
    var idx := Interval(CutIndex(dfm.rows, testFrac), dfm.rows);
    TakeRowsGet(dfm, idx, "y_up");
    TakeLabels(Get(dfm, "y_up"), dfm.rows, idx);
  }

  /** What one analysis produces besides the sweep: the bundle it saves, the report it
      returns and the predictions it writes. */
  datatype Outcome<P> = Outcome(bundle: Bundle<P>, report: Report, predictions: Predictions)

  /** The analysis up to the sweep: the errors of loading and labelling; otherwise a bundle
      trained on the labelled frame, the holdout after the cut scored at `threshold`. */
  function Analyze<P(!new)>(
    files: seq<FileEntry>, threshold: real, testFrac: real, features: seq<string>, p: Parsers,
    fit: (Frame, Data) -> P, predict: (P, Frame) -> seq<real>, auc: (seq<int>, seq<real>) -> real): (r: Result<Outcome<P>>)
    requires forall e | e in files :: Valid(e.contents)
    requires forall m: P, x: Frame :: |predict(m, x)| == x.rows
    ensures r.Err? <==> Table(files, features, p).Err?
    ensures r.Err? ==> r.error == Table(files, features, p).error
    ensures r.Ok? ==>
      var preds := r.value.predictions;
      |preds.pUp| == |preds.yTrue| == |preds.yPred| == r.value.report.nTest
  {
    match Table(files, features, p)
    case Err(e) => Err(e)
    case Ok(dfm) =>
      var df := LoadLatest(files, p).value;
      var (train, test) := Split(dfm, testFrac);
      HoldoutColumns(dfm, features, testFrac);
      TrainOnLabelled(df, features, threshold, fit);
      var bundle := TrainModel(Label(df).value, features, threshold, fit).value;
      var proba := predict(bundle.pipeline, Project(test, features));
      var yTest := LabelValues(Get(test, "y_up"), test.rows);
      var preds := Predictions(Get(test, "date"), proba, yTest, Decide(proba, threshold));
      var metrics := EvaluateClassifier(yTest, proba, threshold, auc);
      Ok(Outcome(bundle, Report(train.rows, test.rows, features, threshold, MetricsPath, PredictionsPath, ChartPath, metrics), preds))
  }

  /** The report counts every labelled row once: `n_train` rows before the cut at `test_frac`
      and `n_test` from it on, with the paths of the three files written. */
  lemma AnalyzeReport<P(!new)>(
    files: seq<FileEntry>, threshold: real, testFrac: real, features: seq<string>, p: Parsers,
    fit: (Frame, Data) -> P, predict: (P, Frame) -> seq<real>, auc: (seq<int>, seq<real>) -> real)
    requires forall e | e in files :: Valid(e.contents)
    requires forall m: P, x: Frame :: |predict(m, x)| == x.rows
    requires Analyze(files, threshold, testFrac, features, p, fit, predict, auc).Ok?
    ensures var report := Analyze(files, threshold, testFrac, features, p, fit, predict, auc).value.report;
      var n := Table(files, features, p).value.rows;
      && report.nTrain == CutIndex(n, testFrac) && report.nTrain + report.nTest == n
      && report.features == features && report.threshold == threshold
      && report.metricsPath == MetricsPath && report.predictionsPath == PredictionsPath
      && report.chartPath == ChartPath
  {
  }

  /** The saved bundle is the one `train_model` gives for the newest processed file. */
  lemma AnalyzeBundle<P(!new)>(
    files: seq<FileEntry>, threshold: real, testFrac: real, features: seq<string>, p: Parsers,
    fit: (Frame, Data) -> P, predict: (P, Frame) -> seq<real>, auc: (seq<int>, seq<real>) -> real)
    requires forall e | e in files :: Valid(e.contents)
    requires forall m: P, x: Frame :: |predict(m, x)| == x.rows
    requires Analyze(files, threshold, testFrac, features, p, fit, predict, auc).Ok?
    ensures LoadLatest(files, p).Ok?
    ensures TrainModel(LoadLatest(files, p).value, features, threshold, fit).Ok?
    ensures Analyze(files, threshold, testFrac, features, p, fit, predict, auc).value.bundle ==
      TrainModel(LoadLatest(files, p).value, features, threshold, fit).value
  {
    var df := LoadLatest(files, p).value;
    TrainOnLabelled(df, features, threshold, fit);
  }

  /** The holdout is scored as `evaluate_classifier` scores it: the probabilities are the
      saved pipeline's for the holdout's features, the truth is the holdout's labels, the
      decisions are the probabilities at `threshold`, and the metrics are theirs. */
  lemma AnalyzeScores<P(!new)>(
    files: seq<FileEntry>, threshold: real, testFrac: real, features: seq<string>, p: Parsers,
    fit: (Frame, Data) -> P, predict: (P, Frame) -> seq<real>, auc: (seq<int>, seq<real>) -> real)
    requires forall e | e in files :: Valid(e.contents)
    requires forall m: P, x: Frame :: |predict(m, x)| == x.rows
    requires Analyze(files, threshold, testFrac, features, p, fit, predict, auc).Ok?
    ensures var out := Analyze(files, threshold, testFrac, features, p, fit, predict, auc).value;
      var test := Split(Table(files, features, p).value, testFrac).1;
      && (forall n | n in features :: Has(test, n)) && Has(test, "date") && Has(test, "y_up")
      && out.predictions.date == Get(test, "date")
      && out.predictions.pUp == predict(out.bundle.pipeline, Project(test, features))
      && LabelData(out.predictions.yTrue) == Get(test, "y_up")
      && out.predictions.yPred == Decide(out.predictions.pUp, threshold)
      && out.report.metrics == EvaluateClassifier(out.predictions.yTrue, out.predictions.pUp, threshold, auc)
  {
    HoldoutColumns(Table(files, features, p).value, features, testFrac);
  }

  /** `run_full_analysis`: the errors of loading and labelling; otherwise the bundle of
      `Analyze` saved in the workspace, its report and predictions, and one accuracy and F1
      per threshold of the 25-point grid, computed on the holdout. */
  method RunFullAnalysis<P(!new)>(
    ws: Workspace<P>, threshold: real, testFrac: real, features: Option<seq<string>>, p: Parsers,
    fit: (Frame, Data) -> P, predict: (P, Frame) -> seq<real>, auc: (seq<int>, seq<real>) -> real)
    returns (r: Result<(Report, Predictions, Sweep)>)
    requires ws.Readable()
    requires forall m: P, x: Frame :: |predict(m, x)| == x.rows
    modifies ws
    ensures ws.files == old(ws.files)
    ensures var feats := if features.Some? then features.value else DefaultFeatures;
      var out := Analyze(ws.files, threshold, testFrac, feats, p, fit, predict, auc);
      && (r.Err? <==> out.Err?)
      && (r.Err? ==> r.error == out.error && ws.stored == old(ws.stored))
      && (r.Ok? ==>
            && ws.stored == Some(out.value.bundle)
            && r.value.0 == out.value.report && r.value.1 == out.value.predictions
            && r.value.2.thresholds == ThresholdGrid()
            && |r.value.2.accs| == 25 && |r.value.2.f1s| == 25
            && forall k | 0 <= k < 25 ::
                 var yp := Decide(out.value.predictions.pUp, ThresholdGrid()[k]);
                 && r.value.2.accs[k] == Accuracy(out.value.predictions.yTrue, yp)
                 && r.value.2.f1s[k] == F1(out.value.predictions.yTrue, yp))
  {
    var feats := if features.Some? then features.value else DefaultFeatures;
    var out := Analyze(ws.files, threshold, testFrac, feats, p, fit, predict, auc);
    if out.Err? {
      return Err(out.error);
    }
    ws.SaveBundle(out.value.bundle);
    var preds := out.value.predictions;
    var grid := ThresholdGrid();
    var accs, f1s := ThresholdSweep(preds.pUp, grid, preds.yTrue);
    r := Ok((out.value.report, preds, Sweep(grid, accs, f1s)));
  }
}
