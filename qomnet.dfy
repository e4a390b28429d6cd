/**
 * The Qomnet extraction of `preprocess/others/qomnet.py`: the Persian text
 * of an article is its `abstracts.fa` and its `bodies.fa`, joined by a space
 * and stripped; the articles with a `uri` and some text become
 * `{uri, text}` records. JSON values are modelled with Python's `in`,
 * subscript and `+` on them, including the exceptions they raise.
 */
module Qomnet {
  import opened Wrappers
  import opened Text

  /** A value decoded by `json.load`. */
  datatype Json =
    | JNull
    | JBool(b: bool)
    | JNumber(n: int)
    | JString(s: string)
    | JArray(items: seq<Json>)
    | JObject(fields: map<string, Json>)

  /** The Python exceptions the extraction can raise. */
  datatype PyError = TypeError | KeyError

  /**
   * `key in x`: a key test on a dictionary, a substring test on a string, an
   * element test on a list; any other value is not a container.
   */
  function In(key: string, x: Json): (r: Result<bool, PyError>)
    ensures r.Err? ==> r.error == TypeError
  {
    match x
    case JObject(fields) => Ok(key in fields)
    case JString(s) => Ok(Contains(s, key))
    case JArray(items) => Ok(JString(key) in items)
    case _ => Err(TypeError)
  }

  /** `x[key]` with a string key: only a dictionary can be indexed by one. */
  function Subscript(x: Json, key: string): (r: Result<Json, PyError>)
    ensures r == Err(KeyError) ==> x.JObject? && key !in x.fields
    ensures r.Ok? ==> x.JObject? && key in x.fields
  {
    match x
    case JObject(fields) => if key in fields then Ok(fields[key]) else Err(KeyError)
    case _ => Err(TypeError)
  }

  /** `data[outer][inner]`. */
  function Field(data: Json, outer: string, inner: string): (r: Result<Json, PyError>)
    ensures r.Ok? ==> data.JObject? && outer in data.fields
  {
    var sub :- Subscript(data, outer);
    Subscript(sub, inner)
  }

  /**
   * `outer in data and inner in data[outer]`, evaluated left to right with
   * short-circuit. Only `TypeError` can come out, and when the test holds,
   * `data[outer][inner]` cannot raise `KeyError` (it still raises
   * `TypeError` when `data[outer]` is a string or a list that contains
   * `inner`).
   */
  function HasField(data: Json, outer: string, inner: string): (r: Result<bool, PyError>)
    ensures r.Err? ==> r.error == TypeError
    ensures r == Ok(true) ==> Field(data, outer, inner) != Err(KeyError)
  {
    var present :- In(outer, data);
    if !present then Ok(false)
    else
      var sub :- Subscript(data, outer);
      In(inner, sub)
  }

  /**
   * One guarded part of `extract_text`: when `outer` holds an `fa` entry,
   * that string followed by `suffix` (`front`) or preceded by `prefix`;
   * otherwise `prefix` as it was.
   */
  function Part(data: Json, outer: string, prefix: string, suffix: string, front: bool): (r: Result<string, PyError>)
    ensures r.Err? ==> r.error == TypeError
  {
    var has :- HasField(data, outer, "fa");
    if !has then Ok(prefix)
    else
      var v :- Field(data, outer, "fa");
      if !v.JString? then Err(TypeError)
      else if front then Ok(v.s + suffix)
      else Ok(prefix + v.s)
  }

  /**
   * `extract_text(data)`: the abstract's `fa` text followed by a space when
   * it is there, then the body's `fa` text when it is there, stripped.
   * Adding anything but a string to a string raises `TypeError`; since every
   * subscript is guarded by an `in` test, `KeyError` is never raised, and a
   * result has no whitespace at either end.
   */
  function ExtractText(data: Json): (r: Result<string, PyError>)
    ensures r.Err? ==> r.error == TypeError
    ensures r.Ok? ==> r.value == [] || (NotSpace(r.value[0]) && NotSpace(r.value[|r.value| - 1]))
  {
    var text :- Part(data, "abstracts", "", " ", true);
    var text' :- Part(data, "bodies", text, "", false);
    Ok(Strip(text'))
  }

  /** `data[outer]["fa"]` is there and is the string `s`. */
  predicate Holds(data: Json, outer: string, s: string) {
    HasField(data, outer, "fa") == Ok(true) && Field(data, outer, "fa") == Ok(JString(s))
  }

  /** `outer in data and "fa" in data[outer]` is false without raising. */
  predicate Lacks(data: Json, outer: string) {
    HasField(data, outer, "fa") == Ok(false)
  }

  /** With both parts present, the text is the two joined by a space, stripped. */
  lemma ExtractBoth(data: Json, a: string, b: string)
    requires Holds(data, "abstracts", a) && Holds(data, "bodies", b)
    ensures ExtractText(data) == Ok(Strip(a + " " + b))
  {
  }

  /** With only the abstract, the text is the abstract, stripped: the space after it goes too. */
  lemma ExtractAbstractOnly(data: Json, a: string)
    requires Holds(data, "abstracts", a) && Lacks(data, "bodies")
    ensures ExtractText(data) == Ok(Strip(a))
  {
    assert AllSpace(" ") by {
      assert IsSpace(' ');
    }
    StripTrailingSpace(a, " ");
  }

  /** With only the body, the text is the body, stripped. */
  lemma ExtractBodyOnly(data: Json, b: string)
    requires Lacks(data, "abstracts") && Holds(data, "bodies", b)
    ensures ExtractText(data) == Ok(Strip(b))
  {
    assert "" + b == b;
  }

  /** With neither part, the text is empty and nothing is raised. */
  lemma ExtractNeither(data: Json)
    requires Lacks(data, "abstracts") && Lacks(data, "bodies")
    ensures ExtractText(data) == Ok("")
  {
    StripUnchanged("");
  }

  /**
   * A part whose key is missing, or whose value is a dictionary without an
   * `fa` key, contributes nothing and raises nothing.
   */
  lemma MissingPartIsLacking(data: Json, outer: string)
    requires data.JObject?
    requires outer !in data.fields || (data.fields[outer].JObject? && "fa" !in data.fields[outer].fields)
    ensures Lacks(data, outer)
  {
  }

  /** The record written for one article. */
  datatype Record = Record(uri: Json, text: string)

  /**
   * One turn of the driver loop: an item with a `uri` and a non-empty text
   * gives one record; any other item gives none.
   */
  function Step(item: Json): (r: Result<seq<Record>, PyError>)
    ensures r.Err? ==> r.error == TypeError
  {
    var hasUri :- In("uri", item);
    if !hasUri then Ok([])
    else
      var text :- ExtractText(item);
      if text == "" then Ok([])
      else
        var uri :- Subscript(item, "uri");
        Ok([Record(uri, text)])
  }

  /** The records of all the items, in order, or the first exception raised. */
  function Extracted(data: seq<Json>): (r: Result<seq<Record>, PyError>)
    ensures r.Err? ==> r.error == TypeError
  {
    if data == [] then Ok([])
    else
      var prev :- Extracted(data[..|data| - 1]);
      var last :- Step(data[|data| - 1]);
      Ok(prev + last)
  }

  /** The body of the driver loop for one item: the records it appends, or the exception it raises. */
  method ExtractOne(item: Json) returns (r: Result<seq<Record>, PyError>)
    ensures r == Step(item)
  {
    var hasUri :- In("uri", item);
    if !hasUri {
      return Ok([]);
    }
    var text :- ExtractText(item);
    if text == "" {
      return Ok([]);
    }
    var uri :- Subscript(item, "uri");
    return Ok([Record(uri, text)]);
  }

  /** The driver loop of `qomnet.py`: `extracted_data` built item by item. */
  method ExtractRecords(data: seq<Json>) returns (r: Result<seq<Record>, PyError>)
    ensures r == Extracted(data)
  {
    var extracted := [];
    for i := 0 to |data|
      invariant Extracted(data[..i]) == Ok(extracted)
    {
      ExtractedStep(data, i);
      ExtractedStops(data, i);
      var records :- ExtractOne(data[i]);
      extracted := extracted + records;
    }
    assert data[..|data|] == data;
    r := Ok(extracted);
  }

  /**
   * For an article that is a dictionary: no `uri`, no record; with a `uri`,
   * the record holds that `uri` and the extracted text when that text is not
   * empty, and nothing when it is.
   */
  lemma StepOfObject(item: Json)
    requires item.JObject?
    ensures "uri" !in item.fields ==> Step(item) == Ok([])
    ensures "uri" in item.fields ==>
              Step(item) == match ExtractText(item)
                            case Err(e) => Err(e)
                            case Ok(t) => if t == "" then Ok([]) else Ok([Record(item.fields["uri"], t)])
  {
  }

  /** Each item gives at most one record, whose text is non-empty and stripped. */
  lemma StepShape(item: Json)
    ensures Step(item).Ok? ==> |Step(item).value| <= 1
    ensures Step(item).Ok? ==> forall rec :: rec in Step(item).value ==>
      rec.text != [] && NotSpace(rec.text[0]) && NotSpace(rec.text[|rec.text| - 1])
  {
    if Step(item).Ok? && Step(item).value != [] {
      var text := ExtractText(item).value;
      assert Step(item).value == [Record(Subscript(item, "uri").value, text)];
    }
  }

  /**
   * The records of a list of items are the records of its first part
   * followed by those of the rest: the output keeps the input order, item by
   * item. The first exception in order is the one raised.
   */
  lemma {:induction false} ExtractedAppend(a: seq<Json>, b: seq<Json>)
    ensures Extracted(a + b) == Then(Extracted(a), Extracted(b))
    decreases |b|
  {
    if b == [] {
      assert a + b == a;
      if Extracted(a).Ok? {
        assert Extracted(a).value + [] == Extracted(a).value;
      }
    } else {
      var b', x := b[..|b| - 1], b[|b| - 1];
      ExtractedAppend(a, b');
      assert (a + b)[..|a + b| - 1] == a + b' && (a + b)[|a + b| - 1] == x;
      assert Extracted(a + b) == Then(Extracted(a + b'), Step(x));
      assert Extracted(b) == Then(Extracted(b'), Step(x));
      ThenAssoc(Extracted(a), Extracted(b'), Step(x));
    }
  }

  /** Two results in sequence: the first exception, or the records of both. */
  function Then(x: Result<seq<Record>, PyError>, y: Result<seq<Record>, PyError>): Result<seq<Record>, PyError> {
    match x
    case Err(e) => Err(e)
    case Ok(u) => (match y case Err(e) => Err(e) case Ok(v) => Ok(u + v))
  }

  /** Sequencing results is associative. */
  lemma ThenAssoc(x: Result<seq<Record>, PyError>, y: Result<seq<Record>, PyError>, z: Result<seq<Record>, PyError>)
    ensures Then(Then(x, y), z) == Then(x, Then(y, z))
  {
    if x.Ok? && y.Ok? && z.Ok? {
      assert (x.value + y.value) + z.value == x.value + (y.value + z.value);
    }
  }

  /** One more item: its records, or its exception, come after those of the items before it. */
  lemma ExtractedStep(data: seq<Json>, i: nat)
    requires i < |data|
    ensures Extracted(data[..i + 1]) == Then(Extracted(data[..i]), Step(data[i]))
  {
    assert data[..i + 1][..i] == data[..i];
  }

  /** The exception of the first item that raises is the one the whole list raises. */
  lemma ExtractedStops(data: seq<Json>, i: nat)
    requires i < |data| && Extracted(data[..i]).Ok?
    ensures Step(data[i]).Err? ==> Extracted(data) == Err(Step(data[i]).error)
  {
    var before, after := data[..i + 1], data[i + 1..];
    ExtractedStep(data, i);
    ExtractedAppend(before, after);
    assert before + after == data;
    if Step(data[i]).Err? {
      ThenStops(Extracted(data[..i]), Step(data[i]), Extracted(after));
    }
  }

  /** An exception after records that were produced ends the sequence. */
  lemma ThenStops(x: Result<seq<Record>, PyError>, y: Result<seq<Record>, PyError>, z: Result<seq<Record>, PyError>)
    requires x.Ok? && y.Err?
    ensures Then(Then(x, y), z) == Err(y.error)
  {
  }

  /** The driver raises exactly when some item makes it raise. */
  lemma {:induction false} ExtractedFails(data: seq<Json>)
    ensures Extracted(data).Err? <==> exists i :: 0 <= i < |data| && Step(data[i]).Err?
  {
    if data != [] {
      var p := data[..|data| - 1];
      ExtractedFails(p);
      if exists i :: 0 <= i < |data| && Step(data[i]).Err? {
        var i :| 0 <= i < |data| && Step(data[i]).Err?;
        if i < |p| {
          assert Step(p[i]).Err?;
        }
      }
      if exists i :: 0 <= i < |p| && Step(p[i]).Err? {
        var i :| 0 <= i < |p| && Step(p[i]).Err?;
        assert data[i] == p[i];
      }
    }
  }

  /** Without an exception there is at most one record per item, each with non-empty stripped text. */
  lemma {:induction false} ExtractedRecords(data: seq<Json>)
    ensures Extracted(data).Ok? ==> |Extracted(data).value| <= |data|
    ensures Extracted(data).Ok? ==> forall rec :: rec in Extracted(data).value ==>
      rec.text != [] && NotSpace(rec.text[0]) && NotSpace(rec.text[|rec.text| - 1])
  {
    if data != [] {
      ExtractedRecords(data[..|data| - 1]);
      StepShape(data[|data| - 1]);
    }
  }

  /**
   * The driver either raises, exactly when some item makes it raise, or
   * returns at most one record per item, each with non-empty stripped text.
   */
  lemma ExtractedShape(data: seq<Json>)
    ensures Extracted(data).Err? <==> exists i :: 0 <= i < |data| && Step(data[i]).Err?
    ensures Extracted(data).Ok? ==> |Extracted(data).value| <= |data|
    ensures Extracted(data).Ok? ==> forall rec :: rec in Extracted(data).value ==>
      rec.text != [] && NotSpace(rec.text[0]) && NotSpace(rec.text[|rec.text| - 1])
  {
    ExtractedFails(data);
    ExtractedRecords(data);
  }
}
