/** `project/src/model_io.py`: finding the newest processed feature file, training the
    direction classifier on the first 80% of its labelled rows, and the saved model a
    workspace keeps between calls. The scaler and logistic regression are a parameter `fit`. */
module ModelIO {
  import opened Frames
  import opened Ohlcv
  import opened Dataset

  /** The eight features the classifier reads by default. */
  const DefaultFeatures: seq<string> :=
    ["gap_pct", "daily_range_pct", "ma_ratio_5_20", "ret_vol_10", "volume_z20", "rsi_14", "macd", "macd_signal"]

  /** A trained bundle, as `train_model` returns it and `save_bundle` stores it. */
  datatype Bundle<P> = Bundle(pipeline: P, features: seq<string>, threshold: real, trainedOn: string, version: string)

  // The newest processed file

  /** A file of the processed-data directory: its name, modification time and the frame
      `read_csv` gives for it. */
  datatype FileEntry = FileEntry(name: string, mtime: int, contents: Frame)

  const Prefix := "prices_with_tech_features_model"
  const Suffix := ".csv"

  /** The name matches the glob `prices_with_tech_features_model*.csv`. */
  predicate Matches(name: string)
  {
    |Prefix| + |Suffix| <= |name| && StartsWith(name, Prefix) && EndsWith(name, Suffix)
  }

  /** The matching files, in the order the directory lists them. */
  function Candidates(files: seq<FileEntry>): (r: seq<FileEntry>)
    ensures forall e :: e in r <==> e in files && Matches(e.name)
  {
    if files == [] then []
    else (if Matches(files[0].name) then [files[0]] else []) + Candidates(files[1..])
  }

  /** The position of the first file with the latest modification time: a stable sort by
      time, newest first, keeps the listing order among equal times. */
  function Newest(c: seq<FileEntry>): (k: nat)
    requires |c| > 0
    ensures k < |c|
    ensures forall j | 0 <= j < |c| :: c[j].mtime <= c[k].mtime
    ensures forall j | 0 <= j < k :: c[j].mtime < c[k].mtime
  {
    if |c| == 1 then 0
    else
      var k := 1 + Newest(c[1..]);
      if c[0].mtime >= c[k].mtime then 0 else k
  }

  // Reading the newest file

  /** Python's order on strings: code point by code point, a proper prefix first. */
  predicate TextLe(a: string, b: string)
  {
    a == [] || (b != [] && (a[0] < b[0] || (a[0] == b[0] && TextLe(a[1..], b[1..]))))
  }

  lemma {:induction false} TextLeTotal(a: string, b: string)
    ensures TextLe(a, b) || TextLe(b, a)
  {
    if a != [] && b != [] && a[0] == b[0] {
      TextLeTotal(a[1..], b[1..]);
    }
  }

  lemma {:induction false} TextLeTransitive(a: string, b: string, c: string)
    requires TextLe(a, b) && TextLe(b, c)
    ensures TextLe(a, c)
  {
    if a != [] && a[0] == b[0] && b[0] == c[0] {
      TextLeTransitive(a[1..], b[1..], c[1..]);
    }
  }

  /** Two strings that sort before each other are the same string. */
  lemma {:induction false} TextLeAntisymmetric(a: string, b: string)
    requires TextLe(a, b) && TextLe(b, a)
    ensures a == b
  {
    if a != [] {
      TextLeAntisymmetric(a[1..], b[1..]);
      assert a == [a[0]] + a[1..] && b == [b[0]] + b[1..];
    }
  }

  /** The order of `sort_values` on a column of strings: by text, missing cells last. */
  predicate TextKeyLe(a: Option<string>, b: Option<string>)
  {
    b.None? || (a.Some? && TextLe(a.value, b.value))
  }

  lemma TextKeyLeTotal(keys: seq<Option<string>>)
    ensures TotalOn(keys, TextKeyLe)
  {
    forall a, b | 0 <= a < |keys| && 0 <= b < |keys| ensures TextKeyLe(keys[a], keys[b]) || TextKeyLe(keys[b], keys[a]) {
      if keys[a].Some? && keys[b].Some? {
        TextLeTotal(keys[a].value, keys[b].value);
      }
    }
    forall a, b, c | 0 <= a < |keys| && 0 <= b < |keys| && 0 <= c < |keys| && TextKeyLe(keys[a], keys[b]) && TextKeyLe(keys[b], keys[c])
      ensures TextKeyLe(keys[a], keys[c])
    {
      if keys[c].Some? {
        TextLeTransitive(keys[a].value, keys[b].value, keys[c].value);
      }
    }
  }

  /** The sort keys of a column of text: a string is its own key, a missing cell has none. */
  function TextKeys(vs: seq<Cell>): (r: seq<Option<string>>)
    ensures |r| == |vs|
  {
    seq(|vs|, i requires 0 <= i < |vs| => if vs[i].Str? then Some(vs[i].s) else None)
  }

  /** The row order `sort_values` gives a column of text: a permutation of the rows,
      ascending by text with missing cells last. */
  function TextOrder(vs: seq<Cell>): (r: seq<nat>)
    ensures |r| == |vs| && forall k | 0 <= k < |r| :: r[k] < |vs|
    ensures multiset(r) == multiset(Range(|vs|))
    ensures SortedBy(TextKeys(vs), TextKeyLe, r)
  {
    TextKeyLeTotal(TextKeys(vs));
    OrderBy(TextKeys(vs), TextKeyLe)
  }

  /** A column of datetimes in ascending order, NaT last. */
  predicate Chronological(d: Data)
  {
    d.Stamps? && forall a, b | 0 <= a < b < |d.ts| :: KeyLe(d.ts[a], d.ts[b])
  }

  /** A column of text in ascending string order, missing cells last. */
  predicate TextSorted(d: Data)
  {
    d.Objects? && forall a, b | 0 <= a < b < |d.vs| :: TextKeyLe(TextKeys(d.vs)[a], TextKeys(d.vs)[b])
  }

  /** `parse_dates=["date"]` is all or nothing: the column becomes datetimes when every
      string in it parses, and otherwise stays the text of the file. */
  predicate DatesParse(d: Data, p: Parsers)
  {
    d.Objects? ==> forall i | 0 <= i < |d.vs| && d.vs[i].Str? :: p.stamp(d.vs[i].s).Some?
  }

  /** A text column holding a number, which `sort_values` cannot order against a string. */
  predicate MixedText(d: Data)
  {
    d.Objects? && exists i | 0 <= i < |d.vs| :: d.vs[i].Num?
  }

  /** `pd.read_csv(path, parse_dates=["date"]).sort_values("date").reset_index(drop=True)`
      on a file with a `date` column: when every date parses, the date block of
      `sort_and_cast_ohlcv`; otherwise the rows sorted by the text of their dates, or a
      TypeError when that text column also holds a number. */
  function ReadSorted(f: Frame, p: Parsers): (r: Result<Frame>)
    requires Valid(f) && Has(f, "date")
    ensures r.Err? <==> !DatesParse(Get(f, "date"), p) && MixedText(Get(f, "date"))
    ensures r.Err? ==> r.error == DatesNotComparable
    ensures DatesParse(Get(f, "date"), p) ==> r == Ok(SortByDate(f, p))
    ensures r.Ok? ==> Valid(r.value) && r.value.rows == f.rows && Names(r.value) == Names(f) && r.value.source == f.source
  {
    var d := Get(f, "date");
    if DatesParse(d, p) then Ok(SortByDate(f, p))
    else if MixedText(d) then Err(DatesNotComparable)
    else
      assert Len(d) == f.rows by { FindAt(f, Find(f, "date")); }
      Ok(TakeRows(f, TextOrder(d.vs)))
  }

  /** The row order of `ReadSorted`: by parsed date when every date parses, otherwise by
      the text of the dates. */
  function ReadOrder(f: Frame, p: Parsers): (r: seq<nat>)
    requires Valid(f) && Has(f, "date")
    ensures |r| == f.rows && forall k | 0 <= k < |r| :: r[k] < f.rows
    ensures multiset(r) == multiset(Range(f.rows))
  {
    var d := Get(f, "date");
    assert Len(d) == f.rows by { FindAt(f, Find(f, "date")); }
    if DatesParse(d, p) then RowOrder(f, p) else TextOrder(d.vs)
  }

  /** Every column of a frame read this way is its file column in `ReadOrder`; the date
      column is parsed as well exactly when every date parses. */
  lemma ReadSortedColumns(f: Frame, p: Parsers)
    requires Valid(f) && Has(f, "date") && ReadSorted(f, p).Ok?
    ensures forall n | Has(f, n) && n != "date" ::
      Has(ReadSorted(f, p).value, n) && Get(ReadSorted(f, p).value, n) == TakeData(Get(f, n), ReadOrder(f, p))
    ensures Has(ReadSorted(f, p).value, "date")
    ensures Get(ReadSorted(f, p).value, "date") ==
      if DatesParse(Get(f, "date"), p) then ToDates(TakeData(Get(f, "date"), ReadOrder(f, p)), p)
      else TakeData(Get(f, "date"), ReadOrder(f, p))
  {
    var d := Get(f, "date");
    if DatesParse(d, p) {
      SortByDateColumns(f, p);
    } else {
      var r := ReadSorted(f, p).value;
      var idx := ReadOrder(f, p);
      forall n | Has(f, n) ensures Has(r, n) && Get(r, n) == TakeData(Get(f, n), idx) {
        TakeRowsGet(f, idx, n);
      }
    }
  }

  /** The dates come out in order: ascending datetimes with NaT last when every date
      parses, and otherwise ascending text with missing cells last. */
  lemma ReadSortedInOrder(f: Frame, p: Parsers)
    requires Valid(f) && Has(f, "date") && ReadSorted(f, p).Ok?
    ensures Has(ReadSorted(f, p).value, "date")
    ensures DatesParse(Get(f, "date"), p) ==> Chronological(Get(ReadSorted(f, p).value, "date"))
    ensures !DatesParse(Get(f, "date"), p) ==> TextSorted(Get(ReadSorted(f, p).value, "date"))
  {
    var d := Get(f, "date");
    if DatesParse(d, p) {
      DatesInOrder(f, p);
    } else {
      var r := ReadSorted(f, p).value;
      var idx := TextOrder(d.vs);
      assert Len(d) == f.rows by { FindAt(f, Find(f, "date")); }
      TakeRowsGet(f, idx, "date");
      var e := Get(r, "date");
      assert e == TakeData(d, idx);
      var keys := TextKeys(d.vs);
      forall a, b | 0 <= a < b < |e.vs| ensures TextKeyLe(TextKeys(e.vs)[a], TextKeys(e.vs)[b]) {
        assert SortedBy(keys, TextKeyLe, idx);
        assert TextKeys(e.vs)[a] == keys[idx[a]];
        assert TextKeys(e.vs)[b] == keys[idx[b]];
      }
    }
  }

  /** When every date parses, the date block leaves the dates ascending, NaT last. */
  lemma DatesInOrder(f: Frame, p: Parsers)
    requires Valid(f) && Has(f, "date")
    ensures Has(SortByDate(f, p), "date") && Chronological(Get(SortByDate(f, p), "date"))
  {
    var r := SortByDate(f, p);
    assert Len(Get(f, "date")) == f.rows by { FindAt(f, Find(f, "date")); }
    var g := Set(f, "date", ToDates(Get(f, "date"), p));
    var keys := Get(g, "date").ts;
    var idx := Order(keys);
    TakeRowsGet(g, idx, "date");
    assert Get(r, "date") == Get(TakeRows(g, idx), "date");
    var e := Get(r, "date");
    forall a, b | 0 <= a < b < |e.ts| ensures KeyLe(e.ts[a], e.ts[b]) {
      assert SortedBy(keys, KeyLe, idx);
    }
  }

  /** The text order of three dates: "10" before "9" before "x". */
  lemma SmallTextOrder()
    ensures TextOrder([Str("10"), Str("x"), Str("9")]) == [0, 2, 1]
  {
    var keys := TextKeys([Str("10"), Str("x"), Str("9")]);
    assert keys == [Some("10"), Some("x"), Some("9")];
    assert Range(3) == [0, 1, 2];
    SmallTextSort(keys);
  }

  lemma SmallTextSort(keys: seq<Option<string>>)
    requires keys == [Some("10"), Some("x"), Some("9")]
    ensures SortBy(keys, TextKeyLe, [0, 1, 2]) == [0, 2, 1]
  {
    SmallTextSortTail(keys);
    assert [0, 1, 2][1..] == [1, 2];
    assert TextLe("10", "9");
    assert TextKeyLe(keys[0], keys[2]);
  }

  lemma SmallTextSortTail(keys: seq<Option<string>>)
    requires keys == [Some("10"), Some("x"), Some("9")]
    ensures SortBy(keys, TextKeyLe, [1, 2]) == [2, 1]
  {
    SmallTextSortLast(keys);
    assert [1, 2][1..] == [2];
    assert !TextLe("x", "9");
    assert !TextKeyLe(keys[1], keys[2]);
    assert InsertBy(keys, TextKeyLe, 1, []) == [1];
  }

  lemma SmallTextSortLast(keys: seq<Option<string>>)
    requires |keys| == 3
    ensures SortBy(keys, TextKeyLe, [2]) == [2]
  {
    assert [2][1..] == [];
  }

  /** One date that does not parse keeps the whole column as text: `"x"` stays, and the
      rows are sorted as strings, not by the times the other two dates parse to. */
  lemma UnparsedDateKeepsText()
    ensures var p := Parsers(s => None, s => if s == "x" then None else Some(10 - |s|));
      var f := Frame(3, [Column("date", Objects([Str("10"), Str("x"), Str("9")]))], None);
      && Valid(f) && Has(f, "date")
      && ReadSorted(f, p) == Ok(Frame(3, [Column("date", Objects([Str("10"), Str("9"), Str("x")]))], None))
  {
    var p := Parsers(s => None, s => if s == "x" then None else Some(10 - |s|));
    var vs := [Str("10"), Str("x"), Str("9")];
    var f := Frame(3, [Column("date", Objects(vs))], None);
    OneDateColumn(f, vs);
    assert !DatesParse(Objects(vs), p) by { assert vs[1].Str? && p.stamp(vs[1].s).None?; }
    assert !MixedText(Objects(vs));
    SmallTextOrder();
    SmallTextTake(f, vs);
  }

  lemma OneDateColumn(f: Frame, vs: seq<Cell>)
    requires |vs| == 3 && f == Frame(3, [Column("date", Objects(vs))], None)
    ensures Valid(f) && Has(f, "date") && Get(f, "date") == Objects(vs)
  {
    assert Names(f) == ["date"];
    FindAt(f, 0);
  }

  lemma SmallTextTake(f: Frame, vs: seq<Cell>)
    requires vs == [Str("10"), Str("x"), Str("9")] && f == Frame(3, [Column("date", Objects(vs))], None)
    requires Valid(f)
    ensures TakeRows(f, [0, 2, 1]) == Frame(3, [Column("date", Objects([Str("10"), Str("9"), Str("x")]))], None)
  {
    var t := TakeData(Objects(vs), [0, 2, 1]);
    assert t == Objects([Str("10"), Str("9"), Str("x")]);
    assert TakeRows(f, [0, 2, 1]).columns == [Column("date", t)];
  }

  /** `load_latest_processed`: a FileNotFoundError when no file matches; otherwise the newest
      one read with its `date` column parsed and its rows sorted by date, and its name
      recorded as the source. */
  function LoadLatest(files: seq<FileEntry>, p: Parsers): (r: Result<Frame>)
    requires forall e | e in files :: Valid(e.contents)
    ensures r == Err(NoProcessedFiles) <==> forall e | e in files :: !Matches(e.name)
    ensures r.Ok? <==>
      var c := Candidates(files);
      c != [] && Has(c[Newest(c)].contents, "date") && ReadSorted(c[Newest(c)].contents, p).Ok?
    ensures r.Ok? ==> Valid(r.value) && Has(r.value, "date")
    ensures r.Ok? ==>
      var c := Candidates(files);
      && c != []
      && var e := c[Newest(c)];
         && e in files && Matches(e.name)
         && (forall x | x in files && Matches(x.name) :: x.mtime <= e.mtime)
         && Has(e.contents, "date")
         && r.value == ReadSorted(e.contents, p).value.(source := Some(e.name))
    ensures r.Err? && r != Err(NoProcessedFiles) ==> r == Err(KeysNotFound(["date"])) || r == Err(DatesNotComparable)
  {
    var c := Candidates(files);
    if c == [] then Err(NoProcessedFiles)
    else
      assert c[0] in files && Matches(c[0].name);
      var e := c[Newest(c)];
      assert e in files;
      if !Has(e.contents, "date") then Err(KeysNotFound(["date"]))
      else
        match ReadSorted(e.contents, p)
        case Err(err) => Err(err)
        case Ok(g) =>
          var r := g.(source := Some(e.name));
          assert Has(r, "date") by { assert "date" in Names(g); }
          assert Valid(r);
          assert forall x | x in files && Matches(x.name) :: x.mtime <= e.mtime by {
            forall x | x in files && Matches(x.name) ensures x.mtime <= e.mtime {
              assert x in c;
            }
          }
          Ok(r)
  }

  /** The loaded frame is in date order: ascending datetimes with NaT last when every date
      of the file parses, and otherwise ascending text with missing dates last. */
  lemma LoadLatestChronological(files: seq<FileEntry>, p: Parsers)
    requires forall e | e in files :: Valid(e.contents)
    requires LoadLatest(files, p).Ok?
    ensures var c := Candidates(files);
      var f := c[Newest(c)].contents;
      var d := Get(LoadLatest(files, p).value, "date");
      && (DatesParse(Get(f, "date"), p) ==> Chronological(d))
      && (!DatesParse(Get(f, "date"), p) ==> TextSorted(d))
  {
    var c := Candidates(files);
    var f := c[Newest(c)].contents;
    assert c[Newest(c)] in files;
    ReadSortedInOrder(f, p);
    var g := ReadSorted(f, p).value;
    assert Get(LoadLatest(files, p).value, "date") == Get(g, "date");
  }

  /** The loaded frame holds the rows of the newest file, each exactly once, in the order
      of its dates. */
  lemma LoadLatestRows(files: seq<FileEntry>, p: Parsers)
    requires forall e | e in files :: Valid(e.contents)
    requires LoadLatest(files, p).Ok?
    ensures var c := Candidates(files);
      var f := c[Newest(c)].contents;
      var r := LoadLatest(files, p).value;
      && r.rows == f.rows && Names(r) == Names(f)
      && multiset(ReadOrder(f, p)) == multiset(Range(f.rows))
      && (forall n | Has(f, n) && n != "date" :: Get(r, n) == TakeData(Get(f, n), ReadOrder(f, p)))
      && Get(r, "date") == if DatesParse(Get(f, "date"), p)
                           then ToDates(TakeData(Get(f, "date"), ReadOrder(f, p)), p)
                           else TakeData(Get(f, "date"), ReadOrder(f, p))
  {
    var c := Candidates(files);
    var f := c[Newest(c)].contents;
    assert c[Newest(c)] in files;
    ReadSortedColumns(f, p);
    var g := ReadSorted(f, p).value;
    forall n | Has(f, n) ensures Get(LoadLatest(files, p).value, n) == Get(g, n) {
      assert Has(g, n);
    }
  }

  // Training

  /** `int(len(dfm) * 0.8)`, the number of rows `train_model` fits on. */
  function TrainCut(n: nat): (k: nat)
    ensures k <= n
    ensures k as real <= n as real * 0.8 < k as real + 1.0
  {
    Share(n, 0.8);
    Trunc(n as real * 0.8)
  }

  /** The training cut is the cut of a split that holds out a fifth of the rows. */
  lemma TrainCutIsDefaultSplit(n: nat)
    ensures TrainCut(n) == CutIndex(n, 0.2)
  {
    CutFloor(n, 0.2);
  }

  /** `train_model`: the errors of labelling the frame and of dropping incomplete rows;
      otherwise a bundle whose pipeline is `fit` applied to the features and labels of the
      training rows of the labelled table, with the threshold, the feature list, the
      source file name (or "<unknown>") and version "1.0.0". */
  function TrainModel<P>(df: Frame, features: seq<string>, threshold: real, fit: (Frame, Data) -> P): (r: Result<Bundle<P>>)
    requires Valid(df)
    ensures r.Err? <==> Labelled(df, features).Err?
    ensures r.Err? ==> r.error == Labelled(df, features).error
    ensures r.Ok? ==>
      var dfm := Labelled(df, features).value;
      && r.value.features == features && r.value.threshold == threshold && r.value.version == "1.0.0"
      && r.value.trainedOn == (if df.source.Some? then df.source.value else "<unknown>")
      && var train := TrainRows(dfm);
         && Has(train, "y_up") && (forall n | n in features :: Has(train, n))
         && r.value.pipeline == fit(Project(train, features), Get(train, "y_up"))
  {
    match Labelled(df, features)
    case Err(e) => Err(e)
    case Ok(dfm) =>
      LabelledLabels(df, features);
      var train := TrainRows(dfm);
      assert forall n | n in features + ["y_up"] :: Has(train, n);
      assert "y_up" in features + ["y_up"];
      var pipeline := fit(Project(train, features), Get(train, "y_up"));
      var trainedOn := if df.source.Some? then df.source.value else "<unknown>";
      Ok(Bundle(pipeline, features, threshold, trainedOn, "1.0.0"))
  }

  /** `dfm.iloc[:cut]`: the first `TrainCut` rows, with every column. */
  function TrainRows(dfm: Frame): (r: Frame)
    requires Valid(dfm)
    ensures Valid(r) && r.rows == TrainCut(dfm.rows) && Names(r) == Names(dfm) && r.source == dfm.source
  {
    TakeRows(dfm, Interval(0, TrainCut(dfm.rows)))
  }

  /** The training rows are the first `TrainCut` rows of the labelled table, row for row. */
  lemma TrainingRows(dfm: Frame, n: string)
    requires Valid(dfm) && Has(dfm, n)
    ensures var train := TrainRows(dfm);
      && Has(train, n)
      && forall i | 0 <= i < train.rows :: CellAt(Get(train, n), i) == CellAt(Get(dfm, n), i)
  {
    TrainCutIsDefaultSplit(dfm.rows);
    SplitPartition(dfm, 0.2, n);
  }

  // The saved model

  /** The state `ensure_model` and `run_full_analysis` work on: the bundle saved at
      `model/model.pkl`, if any, and the listing of `data/processed`. */
  class Workspace<P> {
    var stored: Option<Bundle<P>>
    var files: seq<FileEntry>

    ghost predicate Readable()
      reads this
    {
      forall e | e in files :: Valid(e.contents)
    }

    constructor(stored: Option<Bundle<P>>, files: seq<FileEntry>)
      ensures this.stored == stored && this.files == files
    {
      this.stored := stored;
      this.files := files;
    }

    /** `save_bundle`: the bundle replaces whatever was saved. */
    method SaveBundle(b: Bundle<P>)
      modifies this
      ensures stored == Some(b) && files == old(files)
    {
      stored := Some(b);
    }

    /** `load_bundle`: the saved bundle, or a FileNotFoundError. */
    function LoadBundle(): (r: Result<Bundle<P>>)
      reads this
      ensures r.Ok? <==> stored.Some?
      ensures r.Ok? ==> r.value == stored.value
      ensures r.Err? ==> r.error == NoSavedModel
    {
      if stored.Some? then Ok(stored.value) else Err(NoSavedModel)
    }

    /** `ensure_model`: a saved bundle is returned as it is, whatever features and threshold
        are asked for; otherwise a bundle is trained from the newest processed file, saved and
        returned. The data directory is never changed, and after a success the workspace holds
        the bundle returned, so a second call returns it again. */
    method EnsureModel(features: seq<string>, threshold: real, p: Parsers, fit: (Frame, Data) -> P)
      returns (r: Result<Bundle<P>>)
      requires Readable()
      modifies this
      ensures files == old(files)
      ensures old(stored).Some? ==> r == Ok(old(stored).value) && stored == old(stored)
      ensures old(stored).None? ==>
        r == (match LoadLatest(files, p)
              case Err(e) => Err(e)
              case Ok(df) => TrainModel(df, features, threshold, fit))
      ensures r.Ok? ==> stored == Some(r.value)
      ensures r.Err? ==> stored == old(stored)
    {
      var saved := LoadBundle();
      if saved.Ok? {
        return saved;
      }
      var df := LoadLatest(files, p);
      if df.Err? {
        return Err(df.error);
      }
      r := TrainModel(df.value, features, threshold, fit);
      if r.Ok? {
        SaveBundle(r.value);
      }
    }
  }
}
