/** `validate_features`, which turns a JSON request body into the single feature row a
    fitted pipeline scores. It is written twice, identically: `project/src/analysis.py`
    and `homework/homework13/src/utils.py`. */
module Payload {
  import opened Frames

  /** A decoded JSON value. */
  datatype Json =
    | JNumber(x: real)
    | JString(s: string)
    | JBool(b: bool)
    | JNull
    | JObject(fields: map<string, Json>)
    | JArray(items: seq<Json>)

  /** `float(v)`: numbers as they are, booleans as 1.0 and 0.0, strings through `float`'s
      reader (`Some(None)` for a NaN or infinity literal); None where Python raises
      (null, objects, arrays, strings `float` cannot read). */
  function ToFloat(v: Json, read: FloatReader): (r: Option<Option<real>>)
    ensures v.JNumber? ==> r == Some(Some(v.x))
    ensures v.JBool? ==> r == Some(Some(if v.b then 1.0 else 0.0))
    ensures v.JString? ==> r == read(v.s)
    ensures v.JNull? || v.JObject? || v.JArray? ==> r.None?
  {
    match v
    case JNumber(x) => Some(Some(x))
    case JBool(b) => Some(Some(if b then 1.0 else 0.0))
    case JString(s) => read(s)
    case _ => None
  }

  /** The first name of `names` whose value does not convert, if any: the comprehension
      over `required` stops there. */
  function FirstNonNumeric(feats: map<string, Json>, names: seq<string>, read: FloatReader): (r: Option<string>)
    requires forall n | n in names :: n in feats
    ensures r.None? <==> forall n | n in names :: ToFloat(feats[n], read).Some?
    ensures r.Some? ==> exists k | 0 <= k < |names| ::
      && names[k] == r.value && ToFloat(feats[names[k]], read).None?
      && forall j | 0 <= j < k :: ToFloat(feats[names[j]], read).Some?
  {
    if names == [] then None
    else if ToFloat(feats[names[0]], read).None? then Some(names[0])
    else
      var r := FirstNonNumeric(feats, names[1..], read);
      assert forall n | n in names :: n == names[0] || n in names[1..];
      if r.Some? then
        var k :| 0 <= k < |names[1..]| && names[1..][k] == r.value && ToFloat(feats[names[1..][k]], read).None?
          && forall j | 0 <= j < k :: ToFloat(feats[names[1..][j]], read).Some?;
        assert forall j | 0 <= j < k + 1 :: ToFloat(feats[names[j]], read).Some? by {
          forall j | 0 <= j < k + 1 ensures ToFloat(feats[names[j]], read).Some? {
            if j > 0 { assert names[j] == names[1..][j - 1]; }
          }
        }
        assert names[k + 1] == r.value;
        r
      else r
  }

  /** `validate_features`: a ValueError when `features` is absent or not an object, then one
      listing the missing required names in their order, then one naming the first value
      that does not convert; otherwise the row of values in the order of `required`. */
  function ValidateFeatures(payload: map<string, Json>, required: seq<string>, read: FloatReader): (r: Result<seq<Option<real>>>)
    ensures r == Err(BadPayload) <==> "features" !in payload || !payload["features"].JObject?
    ensures r.Err? && r.error.MissingFeatures? <==>
      "features" in payload && payload["features"].JObject? &&
      exists n | n in required :: n !in payload["features"].fields
    ensures r.Err? && r.error.MissingFeatures? ==>
      r.error.names == Missing(required, payload["features"].fields.Keys)
    ensures r.Ok? <==>
      && "features" in payload && payload["features"].JObject?
      && (forall n | n in required :: n in payload["features"].fields)
      && FirstNonNumeric(payload["features"].fields, required, read).None?
    ensures r.Err? && r.error.FeatureNotNumeric? <==>
      && "features" in payload && payload["features"].JObject?
      && (forall n | n in required :: n in payload["features"].fields)
      && FirstNonNumeric(payload["features"].fields, required, read).Some?
    ensures r.Err? && r.error.FeatureNotNumeric? ==>
      r.error.name == FirstNonNumeric(payload["features"].fields, required, read).value
    ensures r.Ok? ==>
      var feats := payload["features"].fields;
      && |r.value| == |required|
      && forall i | 0 <= i < |required| :: ToFloat(feats[required[i]], read) == Some(r.value[i])
  {
    if "features" !in payload || !payload["features"].JObject? then Err(BadPayload)
    else
      var feats := payload["features"].fields;
      var missing := Missing(required, feats.Keys);
      if missing != [] then
        assert missing[0] in missing;
        Err(MissingFeatures(missing))
      else
        assert forall n | n in required :: n in feats;
        match FirstNonNumeric(feats, required, read)
        case Some(n) => Err(FeatureNotNumeric(n))
        case None =>
          Ok(seq(|required|, i requires 0 <= i < |required| => ToFloat(feats[required[i]], read).value))
  }

  /** Keys beyond the required ones do not matter: two payloads whose `features` objects agree
      on every required name validate to the same row or the same error. */
  lemma ExtraKeysIgnored(p1: map<string, Json>, p2: map<string, Json>, required: seq<string>, read: FloatReader)
    requires "features" in p1 && p1["features"].JObject? && "features" in p2 && p2["features"].JObject?
    requires forall n | n in required ::
      (n in p1["features"].fields <==> n in p2["features"].fields) &&
      (n in p1["features"].fields ==> p1["features"].fields[n] == p2["features"].fields[n])
    ensures ValidateFeatures(p1, required, read) == ValidateFeatures(p2, required, read)
  {
    var f1, f2 := p1["features"].fields, p2["features"].fields;
    SameMissing(required, f1.Keys, f2.Keys);
    if Missing(required, f1.Keys) == [] {
      SameFirstNonNumeric(f1, f2, required, read);
      if FirstNonNumeric(f1, required, read).None? {
        var row1 := seq(|required|, i requires 0 <= i < |required| => ToFloat(f1[required[i]], read).value);
        var row2 := seq(|required|, i requires 0 <= i < |required| => ToFloat(f2[required[i]], read).value);
        assert row1 == row2;
      }
    }
  }

  lemma {:induction false} SameMissing(required: seq<string>, a: set<string>, b: set<string>)
    requires forall n | n in required :: n in a <==> n in b
    ensures Missing(required, a) == Missing(required, b)
  {
    if required != [] {
      SameMissing(required[1..], a, b);
    }
  }

  lemma {:induction false} SameFirstNonNumeric(f1: map<string, Json>, f2: map<string, Json>, names: seq<string>, read: FloatReader)
    requires forall n | n in names :: n in f1 && n in f2 && f1[n] == f2[n]
    ensures FirstNonNumeric(f1, names, read) == FirstNonNumeric(f2, names, read)
  {
    if names != [] {
      SameFirstNonNumeric(f1, f2, names[1..], read);
    }
  }
}
