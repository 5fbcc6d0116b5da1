/** `detect_format` of `project/src/utils_storage.py`: the file format a path names, by its
    suffix, ignoring case. */
module Storage {
  import opened Frames

  /** `detect_format`: "csv" for a `.csv` path, "parquet" for `.parquet`, `.pq` or `.parq`, in
      any case; a ValueError naming the path otherwise. */
  function DetectFormat(path: string): (r: Result<string>)
    ensures EndsWith(Lower(path), ".csv") ==> r == Ok("csv")
    ensures !EndsWith(Lower(path), ".csv") && ParquetSuffix(Lower(path)) ==> r == Ok("parquet")
    ensures r.Err? <==> !EndsWith(Lower(path), ".csv") && !ParquetSuffix(Lower(path))
    ensures r.Err? ==> r.error == UnsupportedFormat(path)
  {
    var s := Lower(path);
    if EndsWith(s, ".csv") then Ok("csv")
    else if ParquetSuffix(s) then Ok("parquet")
    else Err(UnsupportedFormat(path))
  }

  predicate ParquetSuffix(s: string)
  {
    EndsWith(s, ".parquet") || EndsWith(s, ".pq") || EndsWith(s, ".parq")
  }

  /** The format is always one of the two the project writes. */
  lemma FormatKnown(path: string)
    requires DetectFormat(path).Ok?
    ensures DetectFormat(path).value in {"csv", "parquet"}
  {
  }

  /** Only the lower-cased path matters: two paths that agree once lower-cased name the
      same format. */
  lemma FormatIgnoresCase(p1: string, p2: string)
    requires Lower(p1) == Lower(p2)
    ensures DetectFormat(p1).Ok? <==> DetectFormat(p2).Ok?
    ensures DetectFormat(p1).Ok? ==> DetectFormat(p1) == DetectFormat(p2)
  {
  }

  /** Lower-casing is idempotent, so a path and its lower-cased form name the same format. */
  lemma FormatOfLower(path: string)
    ensures DetectFormat(Lower(path)).Ok? <==> DetectFormat(path).Ok?
    ensures DetectFormat(path).Ok? ==> DetectFormat(Lower(path)) == DetectFormat(path)
  {
    assert Lower(Lower(path)) == Lower(path);
    FormatIgnoresCase(Lower(path), path);
  }

  /** An upper-case suffix is recognised: `DATA.CSV` is a CSV file ... */
  lemma UpperCaseCsv()
    ensures DetectFormat("DATA.CSV") == Ok("csv")
  {
    assert Lower("DATA.CSV") == "data.csv";
  }

  /** ... and `x.PQ` and `prices.Parquet` are Parquet files ... */
  lemma UpperCaseParquet()
    ensures DetectFormat("x.PQ") == Ok("parquet")
    ensures DetectFormat("prices.Parquet") == Ok("parquet")
  {
    assert Lower("x.PQ") == "x.pq";
    assert Lower("prices.Parquet") == "prices.parquet";
  }

  /** ... while a JSON file is refused. */
  lemma JsonRefused()
    ensures DetectFormat("prices.json") == Err(UnsupportedFormat("prices.json"))
  {
    assert Lower("prices.json") == "prices.json";
  }
}
