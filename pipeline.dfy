/**
 * run_pipeline.py without its file and console I/O: the record limit, cleaning and
 * validating every record (its clean_record is cleaner.py's, RecordCleaner.CleanRecord),
 * the annotated output, and the completeness and failure-reason counts of the report.
 */
module Pipeline {
  import opened Wrappers
  import opened Text
  import opened Values
  import opened Cleaner
  import opened Dates
  import opened RecordCleaner
  import opened Validator

  /** Only the first RECORD_LIMIT records are processed. */
  const RECORD_LIMIT: nat := 10

  /** The fields whose completeness the report counts, in its order. */
  const FIELD_NAMES: seq<string> := ["title", "content", "url", "date", "author", "tags"]

  // ---------------------------------------------------------------------------
  // Loading and limiting
  // ---------------------------------------------------------------------------

  /** What json.load gave: a list of records, or a single record. */
  datatype Loaded = RecordList(records: seq<Record>) | SingleRecord(record: Record)

  /** A single record is processed as a list of one. */
  function AsList(loaded: Loaded): (r: seq<Record>)
    ensures loaded.RecordList? ==> r == loaded.records
    ensures loaded.SingleRecord? ==> r == [loaded.record]
  {
    match loaded
    case RecordList(rs) => rs
    case SingleRecord(rec) => [rec]
  }

  /** `raw_records[:RECORD_LIMIT]` */
  function Limited(raw: seq<Record>): (r: seq<Record>)
    ensures |r| == if |raw| < RECORD_LIMIT then |raw| else RECORD_LIMIT
    ensures r == raw[..|r|]
  {
    if |raw| > RECORD_LIMIT then raw[..RECORD_LIMIT] else raw
  }

  // ---------------------------------------------------------------------------
  // Cleaning every record
  // ---------------------------------------------------------------------------

  /** clean_record as run by the pipeline, as a function value. */
  function CleanerOf(host: Host): Record -> Result<Record, CleanError> {
    rec => CleanedRecord(RulesOf(host), rec)
  }

  /** The comprehension over the records: the first record whose cleaning raises ends it, otherwise one cleaned record per record, in order. */
  function CleanedAll(clean: Record -> Result<Record, CleanError>, records: seq<Record>): (r: Result<seq<Record>, CleanError>)
    ensures r.Ok? ==>
      && |r.value| == |records|
      && forall i :: 0 <= i < |records| ==> clean(records[i]).Ok? && r.value[i] == clean(records[i]).value
    decreases |records|
  {
    if records == [] then Ok([])
    else
      var c :- clean(records[0]);
      var rest :- CleanedAll(clean, records[1..]);
      Ok([c] + rest)
  }

  /** Cleaning all records succeeds exactly when each record cleans. */
  lemma {:induction false} CleanedAllSucceeds(clean: Record -> Result<Record, CleanError>, records: seq<Record>)
    ensures CleanedAll(clean, records).Ok? <==> forall i :: 0 <= i < |records| ==> clean(records[i]).Ok?
    decreases |records|
  {
    if records != [] {
      var tail := records[1..];
      CleanedAllSucceeds(clean, tail);
      if forall i :: 0 <= i < |records| ==> clean(records[i]).Ok? {
        assert clean(records[0]).Ok?;
        forall i | 0 <= i < |tail|
          ensures clean(tail[i]).Ok?
        {
          assert tail[i] == records[i + 1];
        }
      }
    }
  }

  /** The cleaned records so far, followed by the outcome of cleaning the rest. */
  function Prefixed(done: seq<Record>, rest: Result<seq<Record>, CleanError>): Result<seq<Record>, CleanError> {
    if rest.Err? then rest else Ok(done + rest.value)
  }

  /** One more record cleaned: it joins the cleaned prefix. */
  lemma PrefixedStep(clean: Record -> Result<Record, CleanError>, records: seq<Record>, i: nat, done: seq<Record>)
    requires i < |records| && clean(records[i]).Ok?
    requires CleanedAll(clean, records) == Prefixed(done, CleanedAll(clean, records[i..]))
    ensures CleanedAll(clean, records) == Prefixed(done + [clean(records[i]).value], CleanedAll(clean, records[i + 1..]))
  {
    var c := clean(records[i]).value;
    var rest := CleanedAll(clean, records[i + 1..]);
    assert records[i..] != [] && records[i..][0] == records[i] && records[i..][1..] == records[i + 1..];
    assert CleanedAll(clean, records[i..]) == if rest.Ok? then Ok([c] + rest.value) else rest;
    if rest.Ok? {
      assert done + ([c] + rest.value) == (done + [c]) + rest.value;
    }
  }

  /** A record whose cleaning raises ends the comprehension with its error. */
  lemma PrefixedFails(clean: Record -> Result<Record, CleanError>, records: seq<Record>, i: nat, done: seq<Record>)
    requires i < |records| && clean(records[i]).Err?
    requires CleanedAll(clean, records) == Prefixed(done, CleanedAll(clean, records[i..]))
    ensures CleanedAll(clean, records) == Err(clean(records[i]).error)
  {
    assert records[i..][0] == records[i];
  }

  /** `[clean_record(r) for r in raw_records]` */
  method CleanAll(host: Host, records: seq<Record>) returns (r: Result<seq<Record>, CleanError>)
    ensures r == CleanedAll(CleanerOf(host), records)
  {
    ghost var clean := CleanerOf(host);
    var cleaned: seq<Record> := [];
    assert records[0..] == records;
    if CleanedAll(clean, records).Ok? {
      assert [] + CleanedAll(clean, records).value == CleanedAll(clean, records).value;
    }
    for i := 0 to |records|
      invariant CleanedAll(clean, records) == Prefixed(cleaned, CleanedAll(clean, records[i..]))
    {
      var c := CleanRecord(host, records[i]);
      assert c == clean(records[i]);
      if c.Err? {
        PrefixedFails(clean, records, i, cleaned);
        return Err(c.error);
      }
      PrefixedStep(clean, records, i, cleaned);
      cleaned := cleaned + [c.value];
    }
    assert records[|records|..] == [];
    assert cleaned + [] == cleaned;
    return Ok(cleaned);
  }

  // ---------------------------------------------------------------------------
  // Counting, annotating and reporting
  // ---------------------------------------------------------------------------

  /** The reasons of each result, in order. */
  function ReasonLists(results: seq<ValidationResult>): (rs: seq<seq<string>>)
    reads results
    ensures |rs| == |results| && forall k :: 0 <= k < |results| ==> rs[k] == results[k].reasons
  {
    seq(|results|, k requires 0 <= k < |results| reads results => results[k].reasons)
  }

  /** The reasons validate_record (default settings) reports for each record. */
  function ReasonsOf(check: Record -> seq<string>, records: seq<Record>): (rs: seq<seq<string>>)
    ensures |rs| == |records| && forall k :: 0 <= k < |records| ==> rs[k] == check(records[k])
  {
    seq(|records|, k requires 0 <= k < |records| => check(records[k]))
  }

  /** How many of the lists are empty, i.e. how many records are valid. */
  function CountValid(rs: seq<seq<string>>): (n: nat)
    ensures n <= |rs|
  {
    if rs == [] then 0 else CountValid(rs[..|rs| - 1]) + (if rs[|rs| - 1] == [] then 1 else 0)
  }

  /** `valid_count`: `sum(1 for r in validation_results if r.is_valid)` */
  method ValidCount(results: seq<ValidationResult>) returns (n: nat)
    requires forall k :: 0 <= k < |results| ==> (results[k].isValid <==> results[k].reasons == [])
    ensures n == CountValid(ReasonLists(results))
  {
    ghost var rs := ReasonLists(results);
    n := 0;
    for i := 0 to |results|
      invariant n == CountValid(rs[..i])
    {
      assert rs[..i + 1][..i] == rs[..i];
      if results[i].isValid {
        n := n + 1;
      }
    }
    assert rs[..|results|] == rs;
  }

  /** The reasons as a JSON list of strings. */
  function ReasonValues(reasons: seq<string>): (r: seq<Value>)
    ensures |r| == |reasons| && forall j :: 0 <= j < |reasons| ==> r[j] == VStr(reasons[j])
  {
    seq(|reasons|, j requires 0 <= j < |reasons| => VStr(reasons[j]))
  }

  /** The output entry of a cleaned record and its reasons. */
  function Annotated(rec: Record, reasons: seq<string>): Record {
    var out := rec["_valid" := VBool(reasons == [])];
    if reasons == [] then out else out["_validation_reasons" := VList(ReasonValues(reasons))]
  }

  /** Each cleaned record annotated with the reasons at the same position. */
  function AnnotatedAll(cleaned: seq<Record>, rs: seq<seq<string>>): (out: seq<Record>)
    requires |rs| == |cleaned|
    ensures |out| == |cleaned| && forall k :: 0 <= k < |cleaned| ==> out[k] == Annotated(cleaned[k], rs[k])
  {
    seq(|cleaned|, k requires 0 <= k < |cleaned| => Annotated(cleaned[k], rs[k]))
  }

  /** `output_data` */
  method AnnotateRecords(cleaned: seq<Record>, results: seq<ValidationResult>) returns (output: seq<Record>)
    requires |results| == |cleaned|
    requires forall k :: 0 <= k < |results| ==> (results[k].isValid <==> results[k].reasons == [])
    ensures output == AnnotatedAll(cleaned, ReasonLists(results))
  {
    output := [];
    for i := 0 to |cleaned|
      invariant |output| == i
      invariant forall k :: 0 <= k < i ==> output[k] == Annotated(cleaned[k], results[k].reasons)
    {
      var out := cleaned[i];
      out := out["_valid" := VBool(results[i].isValid)];
      if !results[i].isValid {
        out := out["_validation_reasons" := VList(ReasonValues(results[i].reasons))];
      }
      output := output + [out];
    }
    assert output == AnnotatedAll(cleaned, ReasonLists(results));
  }

  /** `val is not None` and either a list or a string with a non-whitespace character. */
  predicate Present(rec: Record, f: string) {
    f in rec && (rec[f].VList? || (rec[f].VStr? && NonBlank(rec[f].s)))
  }

  /** `s.strip()` is truthy. */
  predicate NonBlank(s: string) {
    Strip(s) != []
  }

  /** How many of the records have field f present. */
  function CountPresent(records: seq<Record>, f: string): (n: nat)
    ensures n <= |records|
  {
    if records == [] then 0
    else CountPresent(records[..|records| - 1], f) + (if Present(records[|records| - 1], f) then 1 else 0)
  }

  /** For each of the field names, how many records have it present. */
  function CompletenessOf(records: seq<Record>, fields: seq<string>): (m: map<string, nat>)
    ensures m.Keys == set f | f in fields
    ensures forall f :: f in fields ==> m[f] == CountPresent(records, f)
  {
    map f | f in fields :: CountPresent(records, f)
  }

  /** Counting a further record adds one to the count of each field it has present. */
  lemma CountPresentSnoc(records: seq<Record>, i: nat, f: string)
    requires i < |records|
    ensures CountPresent(records[..i + 1], f) == CountPresent(records[..i], f) + (if Present(records[i], f) then 1 else 0)
  {
    assert records[..i + 1][..i] == records[..i];
  }

  /** The inner loop of `completeness`: one record's contribution to the counts. */
  method CountFields(completeness: map<string, nat>, record: Record, fields: seq<string>) returns (updated: map<string, nat>)
    requires forall a, b :: 0 <= a < b < |fields| ==> fields[a] != fields[b]
    requires forall f :: f in fields ==> f in completeness
    ensures updated.Keys == completeness.Keys
    ensures forall f :: f in fields ==> updated[f] == completeness[f] + (if Present(record, f) then 1 else 0)
  {
    updated := completeness;
    for j := 0 to |fields|
      invariant updated.Keys == completeness.Keys
      invariant forall a :: 0 <= a < j ==> updated[fields[a]] == completeness[fields[a]] + (if Present(record, fields[a]) then 1 else 0)
      invariant forall a :: j <= a < |fields| ==> updated[fields[a]] == completeness[fields[a]]
    {
      var field := fields[j];
      if field in record && record[field] != VNull {
        if record[field].VList? {
          updated := updated[field := updated[field] + 1];
        } else if record[field].VStr? && NonBlank(record[field].s) {
          updated := updated[field := updated[field] + 1];
        }
      }
    }
    forall f | f in fields
      ensures updated[f] == completeness[f] + (if Present(record, f) then 1 else 0)
    {
      var a :| 0 <= a < |fields| && fields[a] == f;
    }
  }

  /** `completeness`: for each of the distinct field names, how many records have it present. */
  method Completeness(records: seq<Record>, fields: seq<string>) returns (completeness: map<string, nat>)
    requires forall a, b :: 0 <= a < b < |fields| ==> fields[a] != fields[b]
    ensures completeness == CompletenessOf(records, fields)
  {
    completeness := map f | f in fields :: 0;
    for i := 0 to |records|
      invariant completeness.Keys == set f | f in fields
      invariant forall f :: f in fields ==> completeness[f] == CountPresent(records[..i], f)
    {
      completeness := CountFields(completeness, records[i], fields);
      forall f | f in fields
        ensures completeness[f] == CountPresent(records[..i + 1], f)
      {
        CountPresentSnoc(records, i, f);
      }
    }
    assert records[..|records|] == records;
    assert completeness == CompletenessOf(records, fields);
  }

  /** All reasons of all results, in order. */
  function Flatten(rs: seq<seq<string>>): (r: seq<string>)
  {
    if rs == [] then [] else Flatten(rs[..|rs| - 1]) + rs[|rs| - 1]
  }

  /** `failure_counter`: how often each reason occurs over all results. */
  method FailureCounter(results: seq<ValidationResult>) returns (counter: multiset<string>)
    ensures counter == multiset(Flatten(ReasonLists(results)))
  {
    ghost var rs := ReasonLists(results);
    counter := multiset{};
    for i := 0 to |results|
      invariant counter == multiset(Flatten(rs[..i]))
    {
      assert rs[..i + 1][..i] == rs[..i];
      var reasons := results[i].reasons;
      for j := 0 to |reasons|
        invariant counter == multiset(Flatten(rs[..i])) + multiset(reasons[..j])
      {
        assert reasons[..j + 1] == reasons[..j] + [reasons[j]];
        counter := counter[reasons[j] := counter[reasons[j]] + 1];
      }
      assert reasons[..|reasons|] == reasons;
    }
    assert rs[..|results|] == rs;
  }

  // ---------------------------------------------------------------------------
  // run_pipeline
  // ---------------------------------------------------------------------------

  /** What the pipeline writes and reports, apart from formatting. */
  datatype Summary = Summary(
    totalRecords: nat,
    validCount: nat,
    invalidCount: int,
    output: seq<Record>,
    completeness: map<string, nat>,
    failureCounter: multiset<string>)

  /** The report of a run over `total` records whose cleaned records and reasons are given. */
  function SummaryOf(total: nat, cleaned: seq<Record>, rs: seq<seq<string>>): Summary
    requires |rs| == |cleaned|
  {
    var valid := CountValid(rs);
    Summary(total, valid, total - valid, AnnotatedAll(cleaned, rs),
      CompletenessOf(cleaned, FIELD_NAMES), multiset(Flatten(rs)))
  }

  /** The pipeline's outcome from the cleaning rule, the validation rule and the loaded records. */
  function PipelineOf(clean: Record -> Result<Record, CleanError>, check: Record -> seq<string>, loaded: Loaded)
    : Result<Summary, CleanError>
  {
    var records := Limited(AsList(loaded));
    var cleaned :- CleanedAll(clean, records);
    Ok(SummaryOf(|records|, cleaned, ReasonsOf(check, cleaned)))
  }

  /** The field names of the report are distinct. */
  lemma FieldNamesDistinct()
    ensures forall a, b :: 0 <= a < b < |FIELD_NAMES| ==> FIELD_NAMES[a] != FIELD_NAMES[b]
  {
  }

  /** Steps 3 to 5 of run_pipeline, once the records are validated: count, annotate and report. */
  method Summarize(totalRecords: nat, cleanedRecords: seq<Record>, validationResults: seq<ValidationResult>)
    returns (summary: Summary)
    requires |validationResults| == |cleanedRecords|
    requires forall k :: 0 <= k < |validationResults| ==>
      (validationResults[k].isValid <==> validationResults[k].reasons == [])
    ensures summary == SummaryOf(totalRecords, cleanedRecords, ReasonLists(validationResults))
  {
    var validCount := ValidCount(validationResults);
    var invalidCount := totalRecords - validCount;
    var outputData := AnnotateRecords(cleanedRecords, validationResults);
    FieldNamesDistinct();
    var completeness := Completeness(cleanedRecords, FIELD_NAMES);
    var failureCounter := FailureCounter(validationResults);
    summary := Summary(totalRecords, validCount, invalidCount, outputData, completeness, failureCounter);
  }

  /** Steps 3 to 5 of run_pipeline: validate with the default settings, then count, annotate and report. */
  method Report(host: Host, totalRecords: nat, cleanedRecords: seq<Record>) returns (summary: Summary)
    ensures summary == SummaryOf(totalRecords, cleanedRecords, ReasonsOf(Checker(host, [], []), cleanedRecords))
  {
    var validationResults := ValidateRecords(host, cleanedRecords, [], []);
    summary := Summarize(totalRecords, cleanedRecords, validationResults);
    assert ReasonLists(validationResults) == ReasonsOf(Checker(host, [], []), cleanedRecords);
  }

  /** run_pipeline without its I/O: load, limit, clean, validate, annotate and count. */
  method RunPipeline(host: Host, loaded: Loaded) returns (r: Result<Summary, CleanError>)
    ensures r == PipelineOf(CleanerOf(host), Checker(host, [], []), loaded)
  {
    var rawRecords := AsList(loaded);
    if |rawRecords| > RECORD_LIMIT {
      rawRecords := rawRecords[..RECORD_LIMIT];
    }
    assert rawRecords == Limited(AsList(loaded));
    var totalRecords := |rawRecords|;
    var cleaning := CleanAll(host, rawRecords);
    if cleaning.Err? {
      return Err(cleaning.error);
    }
    var summary := Report(host, totalRecords, cleaning.value);
    return Ok(summary);
  }

  // ---------------------------------------------------------------------------
  // Properties of a run
  // ---------------------------------------------------------------------------

  /** The annotation sets `_valid`, adds `_validation_reasons` only to an invalid record, and keeps every other field. */
  lemma AnnotatedSpec(rec: Record, reasons: seq<string>)
    ensures var out := Annotated(rec, reasons);
      && out.Keys == rec.Keys + {"_valid"} + (if reasons == [] then {} else {"_validation_reasons"})
      && out["_valid"] == VBool(reasons == [])
      && (reasons != [] ==> out["_validation_reasons"] == VList(ReasonValues(reasons)))
      && (reasons == [] && "_validation_reasons" in rec ==> out["_validation_reasons"] == rec["_validation_reasons"])
      && forall k :: k in rec && k != "_valid" && k != "_validation_reasons" ==> out[k] == rec[k]
  {
  }

  /** A record list is valid throughout exactly when every record's reasons are empty. */
  lemma {:induction false} CountValidAll(rs: seq<seq<string>>)
    ensures CountValid(rs) == |rs| <==> forall k :: 0 <= k < |rs| ==> rs[k] == []
  {
    if rs != [] {
      var init := rs[..|rs| - 1];
      CountValidAll(init);
      assert forall k :: 0 <= k < |init| ==> init[k] == rs[k];
    }
  }

  /** The flattened reasons hold a reason exactly when one of the lists holds it. */
  lemma {:induction false} FlattenMembers(rs: seq<seq<string>>)
    ensures forall x :: x in Flatten(rs) <==> exists k :: 0 <= k < |rs| && x in rs[k]
    ensures Flatten(rs) == [] <==> forall k :: 0 <= k < |rs| ==> rs[k] == []
  {
    if rs != [] {
      var init := rs[..|rs| - 1];
      FlattenMembers(init);
      assert forall k :: 0 <= k < |init| ==> init[k] == rs[k];
      forall x | x in Flatten(rs)
        ensures exists k :: 0 <= k < |rs| && x in rs[k]
      {
        if x !in rs[|rs| - 1] {
          assert x in Flatten(init);
        }
      }
    }
  }

  /** The valid flags of the reasons lists, as get_invalid_records reads them. */
  function EmptyFlags(rs: seq<seq<string>>): (v: seq<bool>)
    ensures |v| == |rs| && forall k :: 0 <= k < |rs| ==> v[k] == (rs[k] == [])
  {
    seq(|rs|, k requires 0 <= k < |rs| => rs[k] == [])
  }

  /** The valid lists and the invalid positions of a prefix together make up the prefix. */
  lemma {:induction false} ValidPlusInvalid(rs: seq<seq<string>>, n: nat)
    requires n <= |rs|
    ensures CountValid(rs[..n]) + |InvalidIndices(EmptyFlags(rs), n)| == n
  {
    if n > 0 {
      ValidPlusInvalid(rs, n - 1);
      assert rs[..n][..n - 1] == rs[..n - 1];
    }
  }

  /** `invalid_count` is the number of records get_invalid_records returns for the same records. */
  lemma InvalidCountIsInvalidRecords(host: Host, cleaned: seq<Record>)
    ensures |cleaned| - CountValid(ReasonsOf(Checker(host, [], []), cleaned))
      == |InvalidIndices(Validity(host, cleaned, [], []), |cleaned|)|
  {
    var rs := ReasonsOf(Checker(host, [], []), cleaned);
    ValidPlusInvalid(rs, |rs|);
    assert rs[..|rs|] == rs;
    assert EmptyFlags(rs) == Validity(host, cleaned, [], []);
  }

  /** A run fails exactly when cleaning one of the first RECORD_LIMIT records fails. */
  lemma PipelineFails(clean: Record -> Result<Record, CleanError>, check: Record -> seq<string>, loaded: Loaded)
    ensures var records := Limited(AsList(loaded));
      PipelineOf(clean, check, loaded).Err? <==> exists i :: 0 <= i < |records| && clean(records[i]).Err?
  {
    CleanedAllSucceeds(clean, Limited(AsList(loaded)));
  }

  /** A run covers at most RECORD_LIMIT records, and its valid and invalid counts add up to them. */
  lemma PipelineCounts(clean: Record -> Result<Record, CleanError>, check: Record -> seq<string>, loaded: Loaded)
    requires PipelineOf(clean, check, loaded).Ok?
    ensures var s := PipelineOf(clean, check, loaded).value;
      && s.totalRecords == (if |AsList(loaded)| < RECORD_LIMIT then |AsList(loaded)| else RECORD_LIMIT)
      && 0 <= s.invalidCount <= s.totalRecords
      && s.validCount + s.invalidCount == s.totalRecords
  {
  }

  /** The output holds, in input order, each cleaned record annotated with its own reasons. */
  lemma PipelineOutput(clean: Record -> Result<Record, CleanError>, check: Record -> seq<string>, loaded: Loaded)
    requires PipelineOf(clean, check, loaded).Ok?
    ensures var records := Limited(AsList(loaded));
      var s := PipelineOf(clean, check, loaded).value;
      && |s.output| == |records|
      && forall k :: 0 <= k < |records| ==>
        s.output[k] == Annotated(clean(records[k]).value, check(clean(records[k]).value))
  {
  }

  /** Every completeness count is at most the number of records. */
  lemma PipelineCompleteness(clean: Record -> Result<Record, CleanError>, check: Record -> seq<string>, loaded: Loaded)
    requires PipelineOf(clean, check, loaded).Ok?
    ensures var s := PipelineOf(clean, check, loaded).value;
      && s.completeness.Keys == set f | f in FIELD_NAMES
      && forall f :: f in FIELD_NAMES ==> s.completeness[f] <= s.totalRecords
  {
  }

  /** The failure counter is empty exactly when no record is invalid. */
  lemma PipelineNoFailures(clean: Record -> Result<Record, CleanError>, check: Record -> seq<string>, loaded: Loaded)
    requires PipelineOf(clean, check, loaded).Ok?
    ensures var s := PipelineOf(clean, check, loaded).value;
      s.failureCounter == multiset{} <==> s.invalidCount == 0
  {
    var records := Limited(AsList(loaded));
    var cleaned := CleanedAll(clean, records).value;
    var rs := ReasonsOf(check, cleaned);
    var s := PipelineOf(clean, check, loaded).value;
    assert s == SummaryOf(|records|, cleaned, rs);
    CountValidAll(rs);
    FlattenMembers(rs);
    assert |multiset(Flatten(rs))| == |Flatten(rs)|;
  }

  /** A run's outcome, once cleaning succeeded, is the report on the cleaned records. */
  lemma PipelineSummary(clean: Record -> Result<Record, CleanError>, check: Record -> seq<string>, loaded: Loaded)
    requires PipelineOf(clean, check, loaded).Ok?
    ensures var records := Limited(AsList(loaded));
      var cleaned := CleanedAll(clean, records).value;
      PipelineOf(clean, check, loaded).value == SummaryOf(|records|, cleaned, ReasonsOf(check, cleaned))
  {
  }

  /** The number of reasons over all lists. */
  function ReasonTotal(rs: seq<seq<string>>): nat {
    if rs == [] then 0 else ReasonTotal(rs[..|rs| - 1]) + |rs[|rs| - 1]|
  }

  /** Flattening keeps every reason: its length is the total number of reasons. */
  lemma {:induction false} FlattenLength(rs: seq<seq<string>>)
    ensures |Flatten(rs)| == ReasonTotal(rs)
  {
    if rs != [] {
      FlattenLength(rs[..|rs| - 1]);
    }
  }

  /** The counts of the failure counter add up to the number of reasons reported over all records. */
  lemma PipelineFailureTotal(clean: Record -> Result<Record, CleanError>, check: Record -> seq<string>, loaded: Loaded)
    requires PipelineOf(clean, check, loaded).Ok?
    ensures var cleaned := CleanedAll(clean, Limited(AsList(loaded))).value;
      |PipelineOf(clean, check, loaded).value.failureCounter| == ReasonTotal(ReasonsOf(check, cleaned))
  {
    var cleaned := CleanedAll(clean, Limited(AsList(loaded))).value;
    PipelineSummary(clean, check, loaded);
    FlattenLength(ReasonsOf(check, cleaned));
  }

  /** The failure counter holds a reason exactly when some record's validation reported it. */
  lemma PipelineFailureReasons(clean: Record -> Result<Record, CleanError>, check: Record -> seq<string>, loaded: Loaded)
    requires PipelineOf(clean, check, loaded).Ok?
    ensures var records := Limited(AsList(loaded));
      var s := PipelineOf(clean, check, loaded).value;
      forall reason :: reason in s.failureCounter <==>
        exists k :: 0 <= k < |records| && reason in check(clean(records[k]).value)
  {
    var records := Limited(AsList(loaded));
    var cleaned := CleanedAll(clean, records).value;
    var rs := ReasonsOf(check, cleaned);
    PipelineSummary(clean, check, loaded);
    ReasonsMembers(check, clean, records, cleaned, rs);
  }

  /** A reason is in the flattened reasons of the cleaned records exactly when one record's check reported it. */
  lemma ReasonsMembers(check: Record -> seq<string>, clean: Record -> Result<Record, CleanError>,
                       records: seq<Record>, cleaned: seq<Record>, rs: seq<seq<string>>)
    requires |cleaned| == |records| == |rs|
    requires forall k :: 0 <= k < |records| ==> clean(records[k]).Ok? && cleaned[k] == clean(records[k]).value
    requires forall k :: 0 <= k < |rs| ==> rs[k] == check(cleaned[k])
    ensures forall reason :: reason in multiset(Flatten(rs)) <==>
      exists k :: 0 <= k < |records| && reason in check(clean(records[k]).value)
  {
    FlattenMembers(rs);
    forall reason
      ensures reason in multiset(Flatten(rs)) <==> exists k :: 0 <= k < |records| && reason in check(clean(records[k]).value)
    {
      assert reason in multiset(Flatten(rs)) <==> reason in Flatten(rs);
      if reason in Flatten(rs) {
        var k :| 0 <= k < |rs| && reason in rs[k];
        assert reason in check(clean(records[k]).value);
      }
      if exists k :: 0 <= k < |records| && reason in check(clean(records[k]).value) {
        var k :| 0 <= k < |records| && reason in check(clean(records[k]).value);
        assert reason in rs[k];
        assert reason in Flatten(rs);
      }
    }
  }
}
