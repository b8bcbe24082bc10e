/**
 * clean_record of cleaner.py: a copy of the record in which title, content,
 * author, date, tags and url are rewritten, each by its own rule, and every
 * other field is kept.
 */
module RecordCleaner {
  import opened Wrappers
  import opened Text
  import opened Values
  import opened Cleaner
  import opened Dates

  /** The fields run through clean_text, in the loop's order. */
  const TEXT_FIELDS: seq<string> := ["title", "content", "author"]

  /** clean_text(str(v)) with every stage on, as a string value. */
  function CleanedString(host: Host, v: Value): (r: Result<Value, CleanError>)
    ensures r.Ok? ==> r.value.VStr?
    ensures r.Ok? <==> CleanedText(host, Str(host, v), DEFAULT_CLEAN).Ok?
  {
    var t :- CleanedText(host, Str(host, v), DEFAULT_CLEAN);
    Ok(VStr(t))
  }

  /**
   * The three per-value operations clean_record calls, taken as function values so
   * that the reasoning about the record does not depend on how they work.
   */
  datatype Rules = Rules(
    text: Value -> Result<Value, CleanError>,  // clean_text(str(v))
    date: Value -> Option<string>,             // standardize_date(str(v))
    url: Value -> string)                      // str(v).strip()

  /** The operations as cleaner.py defines them. */
  function RulesOf(host: Host): Rules {
    Rules(
      v => CleanedString(host, v),
      v => StandardizedDate(Str(host, v)),
      v => Strip(Str(host, v)))
  }

  lemma TextRule(host: Host, v: Value)
    ensures var t := CleanedTextOf(host, VStr(Str(host, v)), DEFAULT_CLEAN);
      RulesOf(host).text(v) == if t.Ok? then Ok(VStr(t.value)) else Err(t.error)
  {
  }

  // ---------------------------------------------------------------------------
  // The rewriting steps, in the order clean_record applies them
  // ---------------------------------------------------------------------------

  /** One pass of the text-field loop: a present, non-None field is replaced by its cleaned text. */
  function TextFieldCleaned(rules: Rules, rec: Record, f: string): Result<Record, CleanError> {
    if f in rec && rec[f] != VNull then
      var v :- rules.text(rec[f]);
      Ok(rec[f := v])
    else Ok(rec)
  }

  /** The text-field loop over fs, stopping at the first clean_text that raises. */
  function TextFieldsCleaned(rules: Rules, rec: Record, fs: seq<string>): Result<Record, CleanError>
    decreases |fs|
  {
    if fs == [] then Ok(rec)
    else
      var r :- TextFieldCleaned(rules, rec, fs[0]);
      TextFieldsCleaned(rules, r, fs[1..])
  }

  /**
   * A present, non-None date is replaced by standardize_date(str(date)) when that
   * succeeds and kept otherwise (an ISO date is never the empty, falsy string).
   */
  function DateCleaned(rules: Rules, rec: Record): Record {
    if "date" in rec && rec["date"] != VNull then
      match rules.date(rec["date"])
      case Some(iso) => rec["date" := VStr(iso)]
      case None => rec
    else rec
  }

  /** The tags comprehension: None elements are dropped, the others cleaned, in order. */
  function TagsCleaned(rules: Rules, items: seq<Value>): Result<seq<Value>, CleanError>
    decreases |items|
  {
    if items == [] then Ok([])
    else if items[0] == VNull then TagsCleaned(rules, items[1..])
    else
      var v :- rules.text(items[0]);
      var rest :- TagsCleaned(rules, items[1..]);
      Ok([v] + rest)
  }

  /** A tags list is replaced by its cleaned elements; any other tags value is kept. */
  function TagsFieldCleaned(rules: Rules, rec: Record): Result<Record, CleanError> {
    if "tags" in rec && rec["tags"].VList? then
      var items :- TagsCleaned(rules, rec["tags"].items);
      Ok(rec["tags" := VList(items)])
    else Ok(rec)
  }

  /** A present, non-None url is stripped; a blank one becomes None (the key stays). */
  function UrlCleaned(rules: Rules, rec: Record): Record {
    if "url" in rec && rec["url"] != VNull then
      var u := rules.url(rec["url"]);
      rec["url" := if u == [] then VNull else VStr(u)]
    else rec
  }

  /** clean_record: the steps above on a copy of the record. */
  function CleanedRecord(rules: Rules, rec: Record): Result<Record, CleanError> {
    var texts :- TextFieldsCleaned(rules, rec, TEXT_FIELDS);
    var tagged :- TagsFieldCleaned(rules, DateCleaned(rules, texts));
    Ok(UrlCleaned(rules, tagged))
  }

  method CleanRecord(host: Host, record: Record) returns (r: Result<Record, CleanError>)
    ensures r == CleanedRecord(RulesOf(host), record)
  {
    var texts := CleanTextFields(host, record);
    if texts.Err? {
      return Err(texts.error);
    }
    var dated := CleanDateField(host, texts.value);
    var tagged := CleanTagsField(host, dated);
    if tagged.Err? {
      return Err(tagged.error);
    }
    var cleaned := CleanUrlField(host, tagged.value);
    return Ok(cleaned);
  }

  /** The date step of clean_record. */
  method CleanDateField(host: Host, rec: Record) returns (r: Record)
    ensures r == DateCleaned(RulesOf(host), rec)
  {
    r := rec;
    if "date" in rec && rec["date"] != VNull {
      var standardized := StandardizeDate(Str(host, rec["date"]));
      assert standardized == RulesOf(host).date(rec["date"]);
      if standardized.Some? {
        r := rec["date" := VStr(standardized.value)];
      }
    }
  }

  /** The tags step of clean_record. */
  method CleanTagsField(host: Host, rec: Record) returns (r: Result<Record, CleanError>)
    ensures r == TagsFieldCleaned(RulesOf(host), rec)
  {
    r := Ok(rec);
    if "tags" in rec && rec["tags"].VList? {
      var items := TagsCleaned(RulesOf(host), rec["tags"].items);
      if items.Err? {
        return Err(items.error);
      }
      r := Ok(rec["tags" := VList(items.value)]);
    }
  }

  /** The url step of clean_record. */
  method CleanUrlField(host: Host, rec: Record) returns (r: Record)
    ensures r == UrlCleaned(RulesOf(host), rec)
  {
    r := rec;
    if "url" in rec && rec["url"] != VNull {
      var u := Strip(Str(host, rec["url"]));
      assert u == RulesOf(host).url(rec["url"]);
      r := rec["url" := if u == [] then VNull else VStr(u)];
    }
  }

  /** The loop of clean_record over TEXT_FIELDS. */
  method CleanTextFields(host: Host, record: Record) returns (r: Result<Record, CleanError>)
    ensures r == TextFieldsCleaned(RulesOf(host), record, TEXT_FIELDS)
  {
    ghost var rules := RulesOf(host);
    var cleaned := record;
    for i := 0 to |TEXT_FIELDS|
      invariant TextFieldsCleaned(rules, record, TEXT_FIELDS) == TextFieldsCleaned(rules, cleaned, TEXT_FIELDS[i..])
    {
      var f := TEXT_FIELDS[i];
      assert TEXT_FIELDS[i..][0] == f && TEXT_FIELDS[i..][1..] == TEXT_FIELDS[i + 1..];
      if f in cleaned && cleaned[f] != VNull {
        var t := CleanText(host, VStr(Str(host, cleaned[f])), DEFAULT_CLEAN);
        TextRule(host, cleaned[f]);
        if t.Err? {
          return Err(t.error);
        }
        cleaned := cleaned[f := VStr(t.value)];
      }
    }
    assert TEXT_FIELDS[|TEXT_FIELDS|..] == [];
    return Ok(cleaned);
  }

  // ---------------------------------------------------------------------------
  // What each field becomes
  // ---------------------------------------------------------------------------

  /** The elements of a tags list that are not None, in order. */
  function NonNull(items: seq<Value>): (r: seq<Value>)
    ensures |r| <= |items|
  {
    if items == [] then []
    else if items[0] == VNull then NonNull(items[1..])
    else [items[0]] + NonNull(items[1..])
  }

  /** The tags comprehension cleans exactly the non-None elements, one output per input kept. */
  lemma {:induction false} TagsCleanedSpec(rules: Rules, items: seq<Value>)
    ensures var r := TagsCleaned(rules, items);
      && (r.Ok? <==> forall i :: 0 <= i < |NonNull(items)| ==> rules.text(NonNull(items)[i]).Ok?)
      && (r.Ok? ==>
            && |r.value| == |NonNull(items)|
            && forall i :: 0 <= i < |r.value| ==> r.value[i] == rules.text(NonNull(items)[i]).value)
    decreases |items|
  {
    if items != [] {
      TagsCleanedSpec(rules, items[1..]);
      var rest := NonNull(items[1..]);
      if items[0] != VNull {
        var all := NonNull(items);
        assert all == [items[0]] + rest;
        assert all[0] == items[0];
        assert forall i :: 1 <= i < |all| ==> all[i] == rest[i - 1];
        assert forall i :: 0 <= i < |rest| ==> rest[i] == all[i + 1];
        assert (forall i :: 0 <= i < |all| ==> rules.text(all[i]).Ok?) <==>
          rules.text(items[0]).Ok? && forall i :: 0 <= i < |rest| ==> rules.text(rest[i]).Ok?
        by {
          if rules.text(items[0]).Ok? && forall i :: 0 <= i < |rest| ==> rules.text(rest[i]).Ok? {
            forall i | 0 <= i < |all|
              ensures rules.text(all[i]).Ok?
            {
              if i > 0 {
                assert all[i] == rest[i - 1];
              }
            }
          }
        }
        var rr := TagsCleaned(rules, items[1..]);
        if rules.text(items[0]).Ok? && rr.Ok? {
          assert TagsCleaned(rules, items) == Ok([rules.text(items[0]).value] + rr.value);
        }
      } else {
        assert NonNull(items) == rest;
        assert TagsCleaned(rules, items) == TagsCleaned(rules, items[1..]);
      }
    }
  }

  /** A cleaned tags list holds no None, and one element fewer for every None dropped. */
  lemma {:induction false} NonNullHasNoNull(items: seq<Value>)
    ensures forall i :: 0 <= i < |NonNull(items)| ==> NonNull(items)[i] != VNull
    ensures |NonNull(items)| == |items| - multiset(items)[VNull]
    decreases |items|
  {
    if items != [] {
      NonNullHasNoNull(items[1..]);
      assert items == [items[0]] + items[1..];
    }
  }

  /** What clean_record turns the value v of field key into, one field at a time. */
  function CleanedValue(rules: Rules, key: string, v: Value): Result<Value, CleanError> {
    if key in TEXT_FIELDS then
      if v == VNull then Ok(v) else rules.text(v)
    else if key == "date" then
      var d := if v == VNull then None else rules.date(v);
      Ok(if d.Some? then VStr(d.value) else v)
    else if key == "tags" then
      if v.VList? then
        var items :- TagsCleaned(rules, v.items);
        Ok(VList(items))
      else Ok(v)
    else if key == "url" then
      Ok(if v == VNull then v else if rules.url(v) == [] then VNull else VStr(rules.url(v)))
    else Ok(v)
  }

  /** The text-field loop over distinct names cleans exactly those fields and keeps the rest. */
  lemma {:induction false} TextFieldsCleanedSpec(rules: Rules, rec: Record, fs: seq<string>)
    requires forall i, j :: 0 <= i < j < |fs| ==> fs[i] != fs[j]
    ensures var r := TextFieldsCleaned(rules, rec, fs);
      && (r.Ok? <==> forall k :: k in rec && k in fs && rec[k] != VNull ==> rules.text(rec[k]).Ok?)
      && (r.Ok? ==>
            && r.value.Keys == rec.Keys
            && forall k :: k in rec ==>
                 r.value[k] == if k in fs && rec[k] != VNull then rules.text(rec[k]).value else rec[k])
    decreases |fs|
  {
    if fs != [] {
      var f := fs[0];
      assert forall k :: k in fs <==> k == f || k in fs[1..];
      var step := TextFieldCleaned(rules, rec, f);
      if step.Ok? {
        TextFieldsCleanedSpec(rules, step.value, fs[1..]);
        assert f !in fs[1..];
      }
    }
  }

  /** The steps after the text-field loop touch only date, tags and url, each by its own rule. */
  lemma LaterStepsFields(rules: Rules, t: Record)
    ensures var r := TagsFieldCleaned(rules, DateCleaned(rules, t));
      && (r.Ok? <==> ("tags" in t ==> CleanedValue(rules, "tags", t["tags"]).Ok?))
      && (r.Ok? ==>
            && UrlCleaned(rules, r.value).Keys == t.Keys
            && forall k :: k in t ==>
                 UrlCleaned(rules, r.value)[k] ==
                   if k in ["date", "tags", "url"] then CleanedValue(rules, k, t[k]).value else t[k])
  {
    assert "tags" !in TEXT_FIELDS && "date" !in TEXT_FIELDS && "url" !in TEXT_FIELDS;
  }

  /** One field's rule, seen through the value the text-field loop left in it. */
  lemma FieldAfterTexts(rules: Rules, v: Value, tv: Value, k: string)
    requires k in TEXT_FIELDS && v != VNull ==> rules.text(v).Ok?
    requires tv == if k in TEXT_FIELDS && v != VNull then rules.text(v).value else v
    ensures CleanedValue(rules, k, v).Ok? <==> (k in ["date", "tags", "url"] ==> CleanedValue(rules, k, tv).Ok?)
    ensures CleanedValue(rules, k, v).Ok? ==>
      CleanedValue(rules, k, v).value == if k in ["date", "tags", "url"] then CleanedValue(rules, k, tv).value else tv
  {
    if k in TEXT_FIELDS {
      assert k !in ["date", "tags", "url"];
    }
  }

  /** Composing the text-field loop, which cleaned the text fields into t, with the later steps. */
  lemma TextsThenLater(rules: Rules, rec: Record, t: Record)
    requires TextFieldsCleaned(rules, rec, TEXT_FIELDS) == Ok(t)
    requires t.Keys == rec.Keys
    requires forall k :: k in rec ==> t[k] == if k in TEXT_FIELDS && rec[k] != VNull then rules.text(rec[k]).value else rec[k]
    requires forall k :: k in rec && k in TEXT_FIELDS && rec[k] != VNull ==> rules.text(rec[k]).Ok?
    ensures CleanedRecord(rules, rec).Ok? <==> forall k :: k in rec ==> CleanedValue(rules, k, rec[k]).Ok?
    ensures CleanedRecord(rules, rec).Ok? ==>
      && CleanedRecord(rules, rec).value.Keys == rec.Keys
      && forall k :: k in rec ==> CleanedRecord(rules, rec).value[k] == CleanedValue(rules, k, rec[k]).value
  {
    LaterStepsFields(rules, t);
    var later := TagsFieldCleaned(rules, DateCleaned(rules, t));
    forall k | k in rec
      ensures CleanedValue(rules, k, rec[k]).Ok? <==> (k in ["date", "tags", "url"] ==> CleanedValue(rules, k, t[k]).Ok?)
      ensures CleanedValue(rules, k, rec[k]).Ok? ==>
        CleanedValue(rules, k, rec[k]).value == if k in ["date", "tags", "url"] then CleanedValue(rules, k, t[k]).value else t[k]
    {
      FieldAfterTexts(rules, rec[k], t[k], k);
    }
    if later.Ok? {
      assert CleanedRecord(rules, rec) == Ok(UrlCleaned(rules, later.value));
    }
  }

  /**
   * clean_record keeps exactly the input's keys, succeeds exactly when every field's own
   * rule does, and then rewrites each field by that rule and no other.
   */
  lemma CleanedRecordFields(rules: Rules, rec: Record)
    ensures CleanedRecord(rules, rec).Ok? <==> forall k :: k in rec ==> CleanedValue(rules, k, rec[k]).Ok?
    ensures CleanedRecord(rules, rec).Ok? ==>
      && CleanedRecord(rules, rec).value.Keys == rec.Keys
      && forall k :: k in rec ==> CleanedRecord(rules, rec).value[k] == CleanedValue(rules, k, rec[k]).value
  {
    TextFieldsCleanedSpec(rules, rec, TEXT_FIELDS);
    var texts := TextFieldsCleaned(rules, rec, TEXT_FIELDS);
    if texts.Ok? {
      TextsThenLater(rules, rec, texts.value);
    } else {
      var k :| k in rec && k in TEXT_FIELDS && rec[k] != VNull && rules.text(rec[k]).Err?;
      assert CleanedValue(rules, k, rec[k]).Err?;
    }
  }

  /** The input is read, never written: fields outside the six named ones pass through unchanged. */
  lemma CleanedRecordKeepsOthers(rules: Rules, rec: Record, k: string)
    requires k in rec && k !in TEXT_FIELDS && k != "date" && k != "tags" && k != "url"
    requires CleanedRecord(rules, rec).Ok?
    ensures k in CleanedRecord(rules, rec).value && CleanedRecord(rules, rec).value[k] == rec[k]
  {
    CleanedRecordFields(rules, rec);
  }

  /** A blank url becomes None but its key stays. */
  lemma BlankUrlBecomesNone(host: Host, rec: Record)
    requires "url" in rec && rec["url"].VStr? && AllSpace(rec["url"].s)
    requires CleanedRecord(RulesOf(host), rec).Ok?
    ensures "url" in CleanedRecord(RulesOf(host), rec).value && CleanedRecord(RulesOf(host), rec).value["url"] == VNull
  {
    StripEmptyIffAllSpace(rec["url"].s);
    EmptyUrlBecomesNone(RulesOf(host), rec);
  }

  /** A url its rule strips to nothing becomes None but its key stays. */
  lemma EmptyUrlBecomesNone(rules: Rules, rec: Record)
    requires "url" in rec && rec["url"] != VNull && rules.url(rec["url"]) == []
    requires CleanedRecord(rules, rec).Ok?
    ensures "url" in CleanedRecord(rules, rec).value && CleanedRecord(rules, rec).value["url"] == VNull
  {
    CleanedRecordFields(rules, rec);
  }

  /** A date that standardize_date cannot read is kept as it was. */
  lemma UnreadableDateKept(rules: Rules, rec: Record)
    requires "date" in rec && rec["date"] != VNull && rules.date(rec["date"]).None?
    requires CleanedRecord(rules, rec).Ok?
    ensures "date" in CleanedRecord(rules, rec).value && CleanedRecord(rules, rec).value["date"] == rec["date"]
  {
    CleanedRecordFields(rules, rec);
  }
}
