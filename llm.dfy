/**
 * The analysis stage (llm.py): locating the JSON object in a model reply,
 * the error-dictionary convention of the analysis call, the processed
 * log that keeps a transcript from being analysed twice, the per-record
 * filter of a run, and writing the results back onto the call records.
 *
 * The chat model is the parameter `invoke` (its reply to the prompt built
 * around a transcript) and `json.loads` is the partial function `decode`.
 */
module Llm {
  import opened Wrappers
  import opened Strings
  import opened Store
  import opened Logs

  // ---- extract_json_from_response ----

  /**
   * The span `re.search(r"\{.*\}", text, re.DOTALL)` matches, as [start, end):
   * from the first `{` to the last `}`, when that `}` comes after it.
   */
  function JsonSpan(text: string): (r: Option<(nat, nat)>)
    ensures r.Some? <==> exists i, j :: 0 <= i < j < |text| && text[i] == '{' && text[j] == '}'
    ensures r.Some? ==> var (i, e) := r.value;
      && i < e <= |text| && text[i] == '{' && text[e - 1] == '}'
      && '{' !in text[..i] && '}' !in text[e..]
  {
    match IndexOf(text, '{')
    case None => None
    case Some(i) =>
      match LastIndexOf(text, '}')
      case None => None
      case Some(j) =>
        forall a | 0 <= a < i ensures text[a] != '{' {
          assert text[..i][a] == text[a];
        }
        forall b | j < b < |text| ensures text[b] != '}' {
          assert text[j + 1..][b - j - 1] == text[b];
        }
        if i < j then Some((i, j + 1)) else None
  }

  /**
   * The match is greedy: when text[i] is the first `{` and text[j] the
   * last `}`, the span is text[i..j + 1], whatever braces lie between
   * (two objects give one span covering both).
   */
  lemma JsonSpanIsGreedy(text: string, i: nat, j: nat)
    requires i < j < |text| && text[i] == '{' && text[j] == '}'
    requires '{' !in text[..i] && '}' !in text[j + 1..]
    ensures JsonSpan(text) == Some((i, j + 1))
  {
    IndexOfIs(text, '{', i);
    LastIndexOfIs(text, '}', j);
    JsonSpanOf(text, i, j);
  }

  /** The span is fixed by the first `{` and the last `}`. */
  lemma JsonSpanOf(text: string, i: nat, j: nat)
    requires IndexOf(text, '{') == Some(i) && LastIndexOf(text, '}') == Some(j) && i < j
    ensures JsonSpan(text) == Some((i, j + 1))
  {
  }

  type Analysis = map<string, Value>

  /** `extract_json_from_response`: the decoded span, or None when there is no span or it does not decode. */
  function ExtractJsonFromResponse(text: string, decode: string -> Option<Analysis>): (r: Option<Analysis>)
    ensures JsonSpan(text).None? ==> r.None?
    ensures JsonSpan(text).Some? ==> r == decode(text[JsonSpan(text).value.0..JsonSpan(text).value.1])
  {
    match JsonSpan(text)
    case None => None
    case Some((i, e)) => decode(text[i..e])
  }

  // ---- analyze_text_with_groq ----

  /** The chat model's reply: its content, a reply without content, or an exception with its message. */
  datatype Reply = Content(text: string) | NoContent | Raised(message: string)

  function ErrorResult(message: string): (r: Analysis)
    ensures "error" in r
  {
    map["error" := Str(message)]
  }

  /**
   * `analyze_text_with_groq`: the decoded object, or an `{"error": ...}`
   * result; never an empty (falsy) result.
   */
  function AnalyzeTextWithGroq(reply: Reply, decode: string -> Option<Analysis>): (r: Analysis)
    ensures r != map[]
    ensures reply.NoContent? ==> r == ErrorResult("Invalid API response")
    ensures reply.Raised? ==> r == ErrorResult(reply.message)
    ensures reply.Content? ==>
      var parsed := ExtractJsonFromResponse(reply.text, decode);
      r == if parsed.None? || parsed.value == map[] then ErrorResult("Invalid JSON response from Groq") else parsed.value
  {
    match reply
    case NoContent => ErrorResult("Invalid API response")
    case Raised(m) => ErrorResult(m)
    case Content(t) =>
      match ExtractJsonFromResponse(t, decode)
      case None => ErrorResult("Invalid JSON response from Groq")
      case Some(m) => if m == map[] then ErrorResult("Invalid JSON response from Groq") else m
  }

  /** A reply without a `{...}` span is reported as invalid JSON. */
  lemma NoSpanIsInvalidJson(text: string, decode: string -> Option<Analysis>)
    requires forall i, j :: 0 <= i < j < |text| && text[i] == '{' ==> text[j] != '}'
    ensures AnalyzeTextWithGroq(Content(text), decode) == ErrorResult("Invalid JSON response from Groq")
  {
  }

  // ---- the processed log: load_processed_files and save_processed_llm_file ----

  /** The log after `save_processed_llm_file(filename)`: appended only when absent from the loaded set. */
  function SavedLog(lines: seq<string>, filename: string): (r: seq<string>)
    ensures lines <= r && |r| <= |lines| + 1
  {
    if filename in LineSet(lines) then lines else lines + [filename]
  }

  /** After saving, a name without surrounding whitespace is in the set the next run loads. */
  lemma SavedIsLoaded(lines: seq<string>, filename: string)
    requires Strip(filename) == filename
    ensures filename in LineSet(SavedLog(lines, filename))
  {
    if filename !in LineSet(lines) {
      LineSetAppend(lines, filename);
    }
  }

  /** Saving the same name twice leaves the log as saving it once. */
  lemma SaveIdempotent(lines: seq<string>, filename: string)
    requires Strip(filename) == filename
    ensures SavedLog(SavedLog(lines, filename), filename) == SavedLog(lines, filename)
  {
    SavedIsLoaded(lines, filename);
  }

  /** No two lines strip to the same name. */
  predicate DistinctNames(lines: seq<string>) {
    forall i, j :: 0 <= i < j < |lines| ==> Strip(lines[i]) != Strip(lines[j])
  }

  /** Saving never introduces a duplicate entry. */
  lemma SavePreservesDistinct(lines: seq<string>, filename: string)
    requires DistinctNames(lines) && Strip(filename) == filename
    ensures DistinctNames(SavedLog(lines, filename))
  {
    if filename !in LineSet(lines) {
      var r := lines + [filename];
      forall i, j | 0 <= i < j < |r| ensures Strip(r[i]) != Strip(r[j]) {
        if j == |lines| {
          LineSetMembers(lines, filename);
          assert r[i] == lines[i];
        } else {
          assert r[i] == lines[i] && r[j] == lines[j];
        }
      }
    }
  }

  /** A name with leading or trailing whitespace is never in the stripped set. */
  lemma PaddedNeverLoaded(lines: seq<string>, filename: string)
    requires Strip(filename) != filename
    ensures filename !in LineSet(lines)
  {
    LineSetMembers(lines, filename);
    if filename in LineSet(lines) {
      var i :| 0 <= i < |lines| && Strip(lines[i]) == filename;
      StripIdempotent(lines[i]);
    }
  }

  /**
   * A name with leading or trailing whitespace is never found in the
   * stripped set, so it is appended again on every call.
   */
  lemma PaddedNameIsRepeated(lines: seq<string>, filename: string)
    requires Strip(filename) != filename
    ensures SavedLog(SavedLog(lines, filename), filename) == lines + [filename, filename]
  {
    PaddedNeverLoaded(lines, filename);
    PaddedNeverLoaded(lines + [filename], filename);
  }

  /** `save_processed_llm_file`: load the set of stripped lines, append the name if it is absent. */
  method SaveProcessedLlmFile(log: LogFile, filename: string)
    modifies log
    ensures log.lines == SavedLog(old(log.lines), filename)
  {
    var processed := LineSet(log.lines);
    if filename !in processed {
      log.Append(filename);
    }
  }

  // ---- process_folder ----

  /**
   * The per-record filter: the fetched document has a `filename` that
   * can be looked up in a set (a document without one, or with a list
   * or object there, makes its worker raise before any effect) and a
   * `transcription`, and the filename is not in the set loaded at the
   * start of the run.
   */
  predicate Passes(d: Doc, processed: set<string>) {
    && "filename" in d && "transcription" in d
    && !d["filename"].Arr? && !d["filename"].Obj?
    && !(d["filename"].Str? && d["filename"].s in processed)
  }

  /** The keys of a result dictionary. */
  function KeySet(results: seq<(Value, Analysis)>): set<Value> {
    set i | 0 <= i < |results| :: results[i].0
  }

  /** The keys of a non-empty dictionary: the first key and the keys of the rest. */
  lemma KeySetCons(results: seq<(Value, Analysis)>)
    requires results != []
    ensures KeySet(results) == {results[0].0} + KeySet(results[1..])
  {
    forall x | x in KeySet(results) ensures x in {results[0].0} + KeySet(results[1..]) {
      var i :| 0 <= i < |results| && results[i].0 == x;
      if i > 0 { assert results[1..][i - 1].0 == x; }
    }
    forall x | x in KeySet(results[1..]) ensures x in KeySet(results) {
      var i :| 0 <= i < |results[1..]| && results[1..][i].0 == x;
      assert results[i + 1].0 == x;
    }
    assert results[0].0 in KeySet(results);
  }

  /** `results[key]`: the value held for a key, looked up from the front. */
  function Lookup(results: seq<(Value, Analysis)>, key: Value): (r: Option<Analysis>)
    ensures r.Some? <==> key in KeySet(results)
    decreases |results|
  {
    if results == [] then None
    else
      KeySetCons(results);
      if results[0].0 == key then Some(results[0].1) else Lookup(results[1..], key)
  }

  /**
   * `results[key] = value` on an insertion-ordered dictionary: every
   * entry with another key keeps its position, and a new key goes last.
   */
  function Put(results: seq<(Value, Analysis)>, key: Value, value: Analysis): (r: seq<(Value, Analysis)>)
    ensures KeySet(r) == KeySet(results) + {key}
    ensures |r| == if key in KeySet(results) then |results| else |results| + 1
    ensures forall i :: 0 <= i < |results| && results[i].0 != key ==> r[i] == results[i]
    ensures key !in KeySet(results) ==> r[|results|] == (key, value)
    decreases |results|
  {
    if results == [] then
      var r := [(key, value)];
      KeySetCons(r);
      assert r[1..] == [];
      r
    else if results[0].0 == key then
      var r := [(key, value)] + results[1..];
      KeySetCons(results);
      KeySetCons(r);
      assert r[1..] == results[1..];
      r
    else
      var rest := Put(results[1..], key, value);
      var r := [results[0]] + rest;
      KeySetCons(results);
      KeySetCons(r);
      assert r[1..] == rest;
      assert forall i :: 0 < i < |results| ==> results[i] == results[1..][i - 1] && r[i] == rest[i - 1];
      r
  }

  /** After `results[key] = value` the key holds the value and every other key keeps its value. */
  lemma {:induction false} PutLookup(results: seq<(Value, Analysis)>, key: Value, value: Analysis)
    ensures Lookup(Put(results, key, value), key) == Some(value)
    ensures forall k :: k != key ==> Lookup(Put(results, key, value), k) == Lookup(results, k)
    decreases |results|
  {
    var r := Put(results, key, value);
    if results != [] && results[0].0 != key {
      PutLookup(results[1..], key, value);
      assert r[1..] == Put(results[1..], key, value);
    } else if results != [] {
      assert r[1..] == results[1..];
    }
  }

  /** The keys of a result dictionary are distinct. */
  predicate DistinctKeys(results: seq<(Value, Analysis)>) {
    forall i, j :: 0 <= i < j < |results| ==> results[i].0 != results[j].0
  }

  lemma {:induction false} PutKeepsDistinct(results: seq<(Value, Analysis)>, key: Value, value: Analysis)
    requires DistinctKeys(results)
    ensures DistinctKeys(Put(results, key, value))
    decreases |results|
  {
    if results != [] && results[0].0 != key {
      var tail := results[1..];
      assert DistinctKeys(tail) by {
        forall i, j | 0 <= i < j < |tail| ensures tail[i].0 != tail[j].0 {
          assert tail[i] == results[i + 1] && tail[j] == results[j + 1];
        }
      }
      assert results[0].0 !in KeySet(tail) by {
        forall k | 0 <= k < |tail| ensures tail[k].0 != results[0].0 {
          assert tail[k] == results[k + 1];
        }
      }
      PutKeepsDistinct(tail, key, value);
      var rest := Put(tail, key, value);
      var r := [results[0]] + rest;
      forall i, j | 0 <= i < j < |r| ensures r[i].0 != r[j].0 {
        assert r[j] == rest[j - 1];
        assert rest[j - 1].0 in KeySet(rest);
        if i > 0 {
          assert r[i] == rest[i - 1];
        }
      }
    } else if results != [] {
      var r := [(key, value)] + results[1..];
      forall i, j | 0 <= i < j < |r| ensures r[i].0 != r[j].0 {
        assert r[j] == results[j];
        if i > 0 {
          assert r[i] == results[i];
        }
      }
    }
  }

  /** The outside world of one run: the chat model and the JSON decoder. */
  datatype Analyzer = Analyzer(invoke: Value -> Reply, decode: string -> Option<Analysis>)

  datatype Run = Run(results: seq<(Value, Analysis)>, log: seq<string>)

  /** One fetched document's effect on the results and the processed log. */
  function RunStep(acc: Run, d: Doc, processed: set<string>, an: Analyzer): Run {
    if !Passes(d, processed) then acc
    else
      var name := d["filename"];
      var analysis := AnalyzeTextWithGroq(an.invoke(d["transcription"]), an.decode);
      var results := Put(acc.results, name, analysis);
      // a non-string filename is never in the loaded set, and writing it raises
      Run(results, if name.Str? then SavedLog(acc.log, name.s) else acc.log)
  }

  /** The results and the processed log after the documents of one run, in order. */
  function RunAll(fetched: seq<Doc>, processed: set<string>, log: seq<string>, an: Analyzer): Run
    decreases |fetched|
  {
    if fetched == [] then Run([], log)
    else RunStep(RunAll(fetched[..|fetched| - 1], processed, log, an), fetched[|fetched| - 1], processed, an)
  }

  /**
   * The keys of the results are exactly the filenames of the documents
   * that pass the filter, each once; the log only grows.
   */
  lemma {:induction false} RunResultsExactlyPassing(fetched: seq<Doc>, processed: set<string>, log: seq<string>, an: Analyzer)
    ensures var r := RunAll(fetched, processed, log, an);
      && DistinctKeys(r.results)
      && log <= r.log
      && KeySet(r.results) == set j | 0 <= j < |fetched| && Passes(fetched[j], processed) :: fetched[j]["filename"]
    decreases |fetched|
  {
    if fetched != [] {
      var init := fetched[..|fetched| - 1];
      var d := fetched[|fetched| - 1];
      RunResultsExactlyPassing(init, processed, log, an);
      RunStepKeys(RunAll(init, processed, log, an), d, processed, an);
      PassingNamesStep(fetched, processed);
    }
  }

  /** The passing names of a batch: those of all but the last document, and the last one's if it passes. */
  lemma PassingNamesStep(fetched: seq<Doc>, processed: set<string>)
    requires fetched != []
    ensures var init := fetched[..|fetched| - 1]; var d := fetched[|fetched| - 1];
      (set j | 0 <= j < |fetched| && Passes(fetched[j], processed) :: fetched[j]["filename"])
        == (set j | 0 <= j < |init| && Passes(init[j], processed) :: init[j]["filename"])
           + if Passes(d, processed) then {d["filename"]} else {}
  {
    var init := fetched[..|fetched| - 1];
    assert forall j :: 0 <= j < |init| ==> init[j] == fetched[j];
  }

  /** One step adds the document's name to the keys when it passes, keeps them distinct, and only extends the log. */
  lemma RunStepKeys(acc: Run, d: Doc, processed: set<string>, an: Analyzer)
    requires DistinctKeys(acc.results)
    ensures var r := RunStep(acc, d, processed, an);
      && DistinctKeys(r.results)
      && acc.log <= r.log
      && KeySet(r.results) == KeySet(acc.results) + if Passes(d, processed) then {d["filename"]} else {}
  {
    if Passes(d, processed) {
      PutKeepsDistinct(acc.results, d["filename"], AnalyzeTextWithGroq(an.invoke(d["transcription"]), an.decode));
    }
  }

  /**
   * The result for a name is the analysis of the last passing document
   * with that name: a later document with the same name overwrites it.
   */
  lemma {:induction false} RunResultsLastWins(fetched: seq<Doc>, processed: set<string>, log: seq<string>, an: Analyzer, j: nat)
    requires j < |fetched| && Passes(fetched[j], processed)
    requires forall k :: j < k < |fetched| && Passes(fetched[k], processed) ==> fetched[k]["filename"] != fetched[j]["filename"]
    ensures Lookup(RunAll(fetched, processed, log, an).results, fetched[j]["filename"])
      == Some(AnalyzeTextWithGroq(an.invoke(fetched[j]["transcription"]), an.decode))
    decreases |fetched|
  {
    var init := fetched[..|fetched| - 1];
    var d := fetched[|fetched| - 1];
    var prev := RunAll(init, processed, log, an);
    if j < |fetched| - 1 {
      assert init[j] == fetched[j];
      assert forall k :: j < k < |init| ==> init[k] == fetched[k];
      RunResultsLastWins(init, processed, log, an, j);
    }
    if Passes(d, processed) {
      PutLookup(prev.results, d["filename"], AnalyzeTextWithGroq(an.invoke(d["transcription"]), an.decode));
    }
  }

  /**
   * Every string filename that passes ends up in the log, errored
   * analyses included, so the next run loads it (when it has no
   * surrounding whitespace) and does not analyse it again.
   */
  lemma {:induction false} PassedNamesAreLogged(fetched: seq<Doc>, processed: set<string>, log: seq<string>, an: Analyzer, j: nat)
    requires j < |fetched| && Passes(fetched[j], processed)
    requires fetched[j]["filename"].Str? && Strip(fetched[j]["filename"].s) == fetched[j]["filename"].s
    ensures fetched[j]["filename"].s in LineSet(RunAll(fetched, processed, log, an).log)
    decreases |fetched|
  {
    var init := fetched[..|fetched| - 1];
    var d := fetched[|fetched| - 1];
    var prev := RunAll(init, processed, log, an);
    var name := fetched[j]["filename"].s;
    assert j < |fetched| - 1 ==> init[j] == fetched[j];
    assert RunAll(fetched, processed, log, an).log
      == if Passes(d, processed) && d["filename"].Str? then SavedLog(prev.log, d["filename"].s) else prev.log;
    if j == |fetched| - 1 {
      SavedIsLoaded(prev.log, name);
    } else {
      PassedNamesAreLogged(init, processed, log, an, j);
      if Passes(d, processed) && d["filename"].Str? {
        assert prev.log <= SavedLog(prev.log, d["filename"].s);
        LineSetMonotone(prev.log, SavedLog(prev.log, d["filename"].s), name);
      }
    }
  }

  /** Extending a log keeps every name it already held. */
  lemma LineSetMonotone(a: seq<string>, b: seq<string>, x: string)
    requires a <= b && x in LineSet(a)
    ensures x in LineSet(b)
  {
    LineSetMembers(a, x);
    var i :| 0 <= i < |a| && Strip(a[i]) == x;
    assert b[i] == a[i];
    LineSetMembers(b, x);
  }

  /** One more fetched document is one more step of the run. */
  lemma RunAllStep(fetched: seq<Doc>, k: nat, processed: set<string>, log: seq<string>, an: Analyzer)
    requires k < |fetched|
    ensures RunAll(fetched[..k + 1], processed, log, an) == RunStep(RunAll(fetched[..k], processed, log, an), fetched[k], processed, an)
  {
    assert fetched[..k + 1][..k] == fetched[..k];
  }

  /** `process_file`: analyse one fetched document that passes the filter, record its result and log its name. */
  method ProcessFile(d: Doc, processed: set<string>, log: LogFile, an: Analyzer, results: seq<(Value, Analysis)>)
    returns (results': seq<(Value, Analysis)>)
    modifies log
    ensures Run(results', log.lines) == RunStep(Run(results, old(log.lines)), d, processed, an)
  {
    results' := results;
    if Passes(d, processed) {
      var name := d["filename"];
      var analysis := AnalyzeTextWithGroq(an.invoke(d["transcription"]), an.decode);
      results' := Put(results, name, analysis);
      if name.Str? {
        SaveProcessedLlmFile(log, name.s);
      }
    }
  }

  /** `process_folder`: the per-record logic run sequentially over the fetched documents, then the results stored when there are any. */
  method ProcessFolder(fetched: seq<Doc>, log: LogFile, an: Analyzer, records: Collection, date: string)
    returns (results: seq<(Value, Analysis)>)
    modifies log, records
    ensures Run(results, log.lines) == RunAll(fetched, LineSet(old(log.lines)), old(log.lines), an)
    ensures records.docs == StoredResults(old(records.docs), results, date)
  {
    var processed := LineSet(log.lines);
    assert processed == LineSet(old(log.lines));
    results := [];
    var k := 0;
    while k < |fetched|
      invariant k <= |fetched|
      invariant Run(results, log.lines) == RunAll(fetched[..k], processed, old(log.lines), an)
      invariant records.docs == old(records.docs)
    {
      RunAllStep(fetched, k, processed, old(log.lines), an);
      results := ProcessFile(fetched[k], processed, log, an, results);
      k := k + 1;
    }
    assert fetched[..k] == fetched;
    if results != [] {
      StoreResultsInMongodb(records, results, date);
    }
  }

  // ---- store_results_in_mongodb ----

  /** `result.get(key)`. */
  function Get(a: Analysis, key: string): Value {
    if key in a then a[key] else Null
  }

  /** The `$set` document written for one result. */
  function UpdateData(a: Analysis, date: string): (r: Doc)
    ensures r.Keys == {"sentiment", "customer_interest", "summary", "entities", "date_processed"}
  {
    map["sentiment" := Get(a, "sentiment"), "customer_interest" := Get(a, "customer_interest"),
        "summary" := Get(a, "summary"), "entities" := Get(a, "entities"), "date_processed" := Str(date)]
  }

  /** The records after `store_results_in_mongodb(results)`. */
  function StoredResults(docs: seq<Doc>, results: seq<(Value, Analysis)>, date: string): seq<Doc>
    decreases |results|
  {
    if results == [] then docs
    else
      var prev := StoredResults(docs, results[..|results| - 1], date);
      var (name, a) := results[|results| - 1];
      if "error" in a then prev else Updated(prev, map["filename" := name], UpdateData(a, date), true)
  }

  /** Results that carry an `error` key leave the collection untouched. */
  lemma {:induction false} ErrorsLeaveRecords(docs: seq<Doc>, results: seq<(Value, Analysis)>, date: string)
    requires forall i :: 0 <= i < |results| ==> "error" in results[i].1
    ensures StoredResults(docs, results, date) == docs
    decreases |results|
  {
    if results != [] {
      ErrorsLeaveRecords(docs, results[..|results| - 1], date);
    }
  }

  /** A result carrying an `error` key is skipped, wherever it stands in the batch. */
  lemma ErrorResultSkipped(docs: seq<Doc>, results: seq<(Value, Analysis)>, name: Value, a: Analysis, date: string)
    requires "error" in a
    ensures StoredResults(docs, results + [(name, a)], date) == StoredResults(docs, results, date)
  {
    assert (results + [(name, a)])[..|results|] == results;
  }

  /**
   * A `null` file name matches a record without a `filename` field, so
   * its upsert updates that record (or an earlier match) instead of
   * appending a new one.
   */
  lemma NullNameUpdatesUnnamed(docs: seq<Doc>, a: Analysis, date: string, i: nat)
    requires "error" !in a
    requires i < |docs| && "filename" !in docs[i]
    ensures var r := StoredResults(docs, [(Null, a)], date);
      && |r| == |docs|
      && exists j :: 0 <= j <= i && r[j] == docs[j] + UpdateData(a, date)
  {
    var filter: Doc := map["filename" := Null];
    assert Matches(docs[i], filter);
    StoreOneResult(docs, Null, a, date);
    var j := FirstMatch(docs, filter).value;
    assert StoredResults(docs, [(Null, a)], date)[j] == docs[j] + UpdateData(a, date);
  }

  /**
   * One non-error result sets exactly the five analysis fields on the
   * first record with its filename, or, when none has it, appends one
   * new record holding the filename and those fields.
   */
  lemma StoreOneResult(docs: seq<Doc>, name: Value, a: Analysis, date: string)
    requires "error" !in a
    ensures var r := StoredResults(docs, [(name, a)], date);
      var filter: Doc := map["filename" := name];
      match FirstMatch(docs, filter)
      case Some(i) =>
        && |r| == |docs|
        && (forall j :: 0 <= j < |docs| && j != i ==> r[j] == docs[j])
        && r[i].Keys == docs[i].Keys + UpdateData(a, date).Keys
        && (forall k :: k in docs[i] && k !in UpdateData(a, date) ==> r[i][k] == docs[i][k])
        && (forall k :: k in UpdateData(a, date) ==> r[i][k] == UpdateData(a, date)[k])
      case None =>
        && r == docs + [filter + UpdateData(a, date)]
        && r[|docs|]["filename"] == name
  {
    var filter: Doc := map["filename" := name];
    assert [(name, a)][..0] == [];
    match FirstMatch(docs, filter)
    case Some(i) =>
      UpdatedChangesFirstMatchOnly(docs, filter, UpdateData(a, date), true, i);
    case None =>
  }

  /** The record count grows by at most the number of results. */
  lemma {:induction false} StoredResultsGrowth(docs: seq<Doc>, results: seq<(Value, Analysis)>, date: string)
    ensures |docs| <= |StoredResults(docs, results, date)| <= |docs| + |results|
    decreases |results|
  {
    if results != [] {
      StoredResultsGrowth(docs, results[..|results| - 1], date);
    }
  }

  /** `store_results_in_mongodb`: skip error results, upsert the others by filename, in dictionary order. */
  method StoreResultsInMongodb(records: Collection, results: seq<(Value, Analysis)>, date: string)
    modifies records
    ensures records.docs == StoredResults(old(records.docs), results, date)
  {
    var k := 0;
    while k < |results|
      invariant k <= |results|
      invariant records.docs == StoredResults(old(records.docs), results[..k], date)
    {
      var (name, a) := results[k];
      assert results[..k + 1][..k] == results[..k];
      if "error" !in a {
        var _ := records.UpdateOne(map["filename" := name], UpdateData(a, date), true);
      }
      k := k + 1;
    }
    assert results[..k] == results;
  }
}
