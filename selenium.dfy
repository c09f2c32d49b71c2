/**
 * The scraper (Selenium.py) with the browser taken out: which download
 * links it clicks and how it logs them, how it reads recording names back
 * out of the temporary download log, how it turns the call-history table
 * into call records, and how it stores those records without duplicates.
 *
 * The page is given as its link targets (`href`s) and cell texts, the
 * database insert's success as the parameter `ok`, and the current time
 * as the string `now`.
 */
module Selenium {
  import opened Wrappers
  import opened Strings
  import opened Store
  import opened Logs
  import Matcher
  import Transcription

  // ---- extract_filenames_from_log ----

  /**
   * The third part of Python's `s.split("*", 2)`, when there is one: the
   * text after the second `*` (it may hold further `*`s).
   */
  function AfterSecondStar(s: string): (r: Option<string>)
    ensures r.Some? ==> |r.value| < |s| && r.value == s[|s| - |r.value|..]
  {
    match IndexOf(s, '*')
    case None => None
    case Some(i) =>
      match IndexOf(s[i + 1..], '*')
      case None => None
      case Some(k) => Some(s[i + 1 + k + 1..])
  }

  /** There is a third part iff s holds at least two `*`s. */
  lemma AfterSecondStarSome(s: string)
    ensures AfterSecondStar(s).Some? <==> exists i, j :: 0 <= i < j < |s| && s[i] == '*' && s[j] == '*'
  {
    match IndexOf(s, '*')
    case None =>
    case Some(i) =>
      match IndexOf(s[i + 1..], '*')
      case None =>
        forall a | 0 <= a < i ensures s[a] != '*' {
          assert s[..i][a] == s[a];
        }
        forall b | i < b < |s| ensures s[b] != '*' {
          assert s[i + 1..][b - i - 1] == s[b];
        }
      case Some(k) =>
        assert s[i + 1..][k] == s[i + 1 + k];
  }

  /** With the first two `*`s at i and j, the rest is everything after j. */
  lemma AfterSecondStarIs(s: string, i: nat, j: nat)
    requires i < j < |s| && s[i] == '*' && s[j] == '*'
    requires '*' !in s[..i] && '*' !in s[i + 1..j]
    ensures AfterSecondStar(s) == Some(s[j + 1..])
  {
    IndexOfIs(s, '*', i);
    assert s[i + 1..][..j - i - 1] == s[i + 1..j];
    IndexOfIs(s[i + 1..], '*', j - i - 1);
  }

  /**
   * The name one temporary-log line contributes: the stripped line must
   * hold two `*`s; the name is what follows the second, cut at the first `.`.
   */
  function LogName(line: string): (r: Option<string>)
    ensures r.Some? <==> AfterSecondStar(Strip(line)).Some?
    ensures r.Some? ==> '.' !in r.value && r.value <= AfterSecondStar(Strip(line)).value
  {
    var rest :- AfterSecondStar(Strip(line));
    Some(BeforeFirst(rest, '.'))
  }

  /** The name of a line whose stripped text has its first two `*`s at i and j. */
  lemma LogNameIs(line: string, i: nat, j: nat)
    requires var s := Strip(line); i < j < |s| && s[i] == '*' && s[j] == '*'
    requires var s := Strip(line); '*' !in s[..i] && '*' !in s[i + 1..j]
    ensures LogName(line) == Some(BeforeFirst(Strip(line)[j + 1..], '.'))
  {
    AfterSecondStarIs(Strip(line), i, j);
  }

  /** The values f gives, in order, skipping the elements it gives None for. */
  function Collect<T, U>(f: T -> Option<U>, xs: seq<T>): (r: seq<U>)
    ensures |r| <= |xs|
  {
    if xs == [] then []
    else
      var front := Collect(f, xs[..|xs| - 1]);
      match f(xs[|xs| - 1])
      case None => front
      case Some(y) => front + [y]
  }

  /** y is collected iff f gives it for some element. */
  lemma {:induction false} CollectMembers<T, U>(f: T -> Option<U>, xs: seq<T>, y: U)
    ensures y in Collect(f, xs) <==> exists k :: 0 <= k < |xs| && f(xs[k]) == Some(y)
    decreases |xs|
  {
    if xs != [] {
      var front := xs[..|xs| - 1];
      CollectMembers(f, front, y);
      assert forall k :: 0 <= k < |front| ==> front[k] == xs[k];
    }
  }

  /**
   * The names `extract_filenames_from_log` returns for a log: one per
   * contributing line, in line order, none holding a `.`.
   */
  function NamesFromLog(lines: seq<string>): (r: seq<string>)
    ensures |r| <= |lines|
    ensures forall k :: 0 <= k < |r| ==> '.' !in r[k]
  {
    var r := Collect(LogName, lines);
    forall k | 0 <= k < |r| ensures '.' !in r[k] {
      CollectMembers(LogName, lines, r[k]);
    }
    r
  }

  /** A name is returned iff some line of the log contributes it. */
  lemma NamesFromLogMembers(lines: seq<string>, n: string)
    ensures n in NamesFromLog(lines) <==> exists k :: 0 <= k < |lines| && LogName(lines[k]) == Some(n)
  {
    CollectMembers(LogName, lines, n);
  }

  /** Reading one more line adds that line's name, if it has one, at the end. */
  lemma NamesFromLogStep(lines: seq<string>, k: nat)
    requires k < |lines|
    ensures NamesFromLog(lines[..k + 1]) ==
      NamesFromLog(lines[..k]) + if LogName(lines[k]).Some? then [LogName(lines[k]).value] else []
  {
    assert lines[..k + 1][..k] == lines[..k];
  }

  /** `extract_filenames_from_log`: one pass over the temporary log's lines. */
  method ExtractFilenamesFromLog(temp: LogFile) returns (names: seq<string>)
    ensures names == NamesFromLog(temp.lines)
  {
    var lines := temp.lines;
    names := [];
    for k := 0 to |lines|
      invariant names == NamesFromLog(lines[..k])
    {
      NamesFromLogStep(lines, k);
      var parts := AfterSecondStar(Strip(lines[k]));
      if parts.Some? {
        names := names + [BeforeFirst(parts.value, '.')];
      }
    }
    assert lines[..|lines|] == lines;
  }

  /** Reading one more element adds what f gives for it, if anything, at the end. */
  lemma CollectStep<T, U>(f: T -> Option<U>, xs: seq<T>, k: nat)
    requires k < |xs|
    ensures Collect(f, xs[..k + 1]) == Collect(f, xs[..k]) + if f(xs[k]).Some? then [f(xs[k]).value] else []
  {
    assert xs[..k + 1][..k] == xs[..k];
  }

  // ---- extract_phone_numbers ----

  /** A call found on the history page, as stored in `phone_records` and in the phone-records log. */
  datatype CallRecord = CallRecord(phone: string, callTime: string, timestamp: string, filename: Option<string>)

  /**
   * The call time of a row: the stripped cell text `t` becomes
   * `t[:5] + " " + t[-2:]` ("10:30 PM" stays as it is), with Python's
   * slices on short texts; an empty cell stays empty.
   */
  function ScrapedTime(text: string): (r: string)
    ensures r == [] <==> Strip(text) == []
    ensures r != [] ==> ' ' in r && |r| <= 8
  {
    ClockTime(Strip(text))
  }

  /** `t[:5] + " " + t[-2:]` on a non-empty t; the empty text stays empty. */
  function ClockTime(t: string): (r: string)
    ensures r == [] <==> t == []
    ensures r != [] ==> ' ' in r && |r| <= 8
  {
    if t == [] then [] else
      var r := Take(t, 5) + " " + TakeLast(t, 2);
      assert r[|Take(t, 5)|] == ' ';
      r
  }

  /** A text of the form `hh:mm AM` is its own clock time. */
  lemma ClockTimeKeeps(t: string)
    requires |t| == 8 && t[5] == ' '
    ensures ClockTime(t) == t
  {
    assert Take(t, 5) + " " + TakeLast(t, 2) == t[..5] + [t[5]] + t[6..];
  }

  /** A time already of the form `hh:mm AM` is kept as it is. */
  lemma ScrapedTimeKeepsClockTime(text: string)
    requires |Strip(text)| == 8 && Strip(text)[5] == ' '
    ensures ScrapedTime(text) == Strip(text)
  {
    ClockTimeKeeps(Strip(text));
  }

  /** On a text of at least five characters, formatting twice formats once. */
  lemma ScrapedTimeIdempotent(text: string)
    requires |Strip(text)| >= 5
    ensures ScrapedTime(ScrapedTime(text)) == ScrapedTime(text)
  {
    var t := Strip(text);
    var r := ClockTime(t);
    assert ScrapedTime(text) == r;
    assert Strip(r) == r && |r| == 8 && r[5] == ' ' by {
      ClockTextStripped(t);
    }
    ClockTimeKeeps(r);
  }

  /** Five characters, a space and two more, cut from a stripped text, form a stripped clock time. */
  lemma ClockTextStripped(t: string)
    requires |t| >= 5 && !IsSpace(t[0]) && !IsSpace(t[|t| - 1])
    ensures |ClockTime(t)| == 8 && ClockTime(t)[5] == ' ' && Strip(ClockTime(t)) == ClockTime(t)
  {
    var a, b := Take(t, 5), TakeLast(t, 2);
    var r := a + " " + b;
    assert ClockTime(t) == r;
    assert |a| == 5 && |b| == 2;
    assert r[0] == a[0] == t[0];
    assert r[7] == b[1] == t[|t| - 1];
    StripOfTrimmed(r);
  }

  /** A one- or two-character time is repeated on both sides of the space, as Python's slices give. */
  lemma ScrapedTimeShort(text: string)
    requires 1 <= |Strip(text)| <= 2
    ensures ScrapedTime(text) == Strip(text) + " " + Strip(text)
  {
  }

  /** One row of the page: the link target of its phone cell, its time cell's text, and the clock at that row. */
  type Cells = (string, string, string)

  /** The record a row gives: the phone is the text after the last `/`; rows with no phone or no time give none. */
  function PhoneRow(cells: Cells): (r: Option<CallRecord>)
    ensures r.Some? <==> AfterLast(cells.0, '/') != [] && Strip(cells.1) != []
    ensures r.Some? ==> r.value == CallRecord(AfterLast(cells.0, '/'), ScrapedTime(cells.1), cells.2, None)
  {
    var phone := AfterLast(cells.0, '/');
    var callTime := ScrapedTime(cells.1);
    if phone != [] && callTime != [] then Some(CallRecord(phone, callTime, cells.2, None)) else None
  }

  /** Python's `zip`: the rows up to the shorter of the two columns. */
  function Table(hrefs: seq<string>, texts: seq<string>, now: nat -> string): (t: seq<Cells>)
    ensures |t| == if |hrefs| < |texts| then |hrefs| else |texts|
    ensures forall k :: 0 <= k < |t| ==> t[k] == (hrefs[k], texts[k], now(k))
  {
    var n := if |hrefs| < |texts| then |hrefs| else |texts|;
    seq(n, k requires 0 <= k < n => (hrefs[k], texts[k], now(k)))
  }

  /** The records `extract_phone_numbers` returns, in row order. */
  function PhoneData(hrefs: seq<string>, texts: seq<string>, now: nat -> string): (r: seq<CallRecord>)
    ensures |r| <= |hrefs| && |r| <= |texts|
    ensures forall k :: 0 <= k < |r| ==>
      r[k].phone != [] && '/' !in r[k].phone && ' ' in r[k].callTime && r[k].filename.None?
  {
    var table := Table(hrefs, texts, now);
    var r := Collect(PhoneRow, table);
    forall k | 0 <= k < |r| ensures r[k].phone != [] && '/' !in r[k].phone && ' ' in r[k].callTime && r[k].filename.None? {
      CollectMembers(PhoneRow, table, r[k]);
    }
    r
  }

  /** A record is returned iff one of the paired rows gives it. */
  lemma PhoneDataMembers(hrefs: seq<string>, texts: seq<string>, now: nat -> string, c: CallRecord)
    ensures c in PhoneData(hrefs, texts, now) <==>
      exists k :: 0 <= k < |hrefs| && k < |texts| && PhoneRow((hrefs[k], texts[k], now(k))) == Some(c)
  {
    var table := Table(hrefs, texts, now);
    CollectMembers(PhoneRow, table, c);
    if exists k :: 0 <= k < |table| && PhoneRow(table[k]) == Some(c) {
      var k :| 0 <= k < |table| && PhoneRow(table[k]) == Some(c);
      assert PhoneRow((hrefs[k], texts[k], now(k))) == Some(c);
    }
    if exists k :: 0 <= k < |hrefs| && k < |texts| && PhoneRow((hrefs[k], texts[k], now(k))) == Some(c) {
      var k :| 0 <= k < |hrefs| && k < |texts| && PhoneRow((hrefs[k], texts[k], now(k))) == Some(c);
      assert PhoneRow(table[k]) == Some(c);
    }
  }

  /** Cells past the end of the shorter column are never read. */
  lemma PhoneDataTruncates(hrefs: seq<string>, texts: seq<string>, extra: seq<string>, now: nat -> string)
    requires |texts| <= |hrefs|
    ensures PhoneData(hrefs + extra, texts, now) == PhoneData(hrefs, texts, now)
  {
    assert Table(hrefs + extra, texts, now) == Table(hrefs, texts, now);
  }

  /** `extract_phone_numbers`, with the page given as its phone-link targets and time-cell texts. */
  method ExtractPhoneNumbers(hrefs: seq<string>, texts: seq<string>, now: nat -> string) returns (data: seq<CallRecord>)
    ensures data == PhoneData(hrefs, texts, now)
  {
    var table := Table(hrefs, texts, now);
    data := [];
    for k := 0 to |table|
      invariant data == Collect(PhoneRow, table[..k])
    {
      var phone := AfterLast(hrefs[k], '/');
      var callTime := Strip(texts[k]);
      if callTime != [] {
        callTime := Take(callTime, 5) + " " + TakeLast(callTime, 2);
      }
      assert callTime == ScrapedTime(texts[k]);
      ghost var row := PhoneRow(table[k]);
      assert row == if phone != [] && callTime != [] then Some(CallRecord(phone, callTime, now(k), None)) else None by {
        assert table[k] == (hrefs[k], texts[k], now(k));
      }
      assert Collect(PhoneRow, table[..k + 1]) == data + if row.Some? then [row.value] else [] by {
        CollectStep(PhoneRow, table, k);
      }
      if phone != [] && callTime != [] {
        data := data + [CallRecord(phone, callTime, now(k), None)];
      }
    }
    assert table[..|table|] == table;
  }

  // ---- is_record_exists, store_phone_records ----

  /** Records are the same call when phone number and call time agree. */
  function Key(c: CallRecord): (string, string) {
    (c.phone, c.callTime)
  }

  /** Some entry of the log is the same call as c. */
  predicate Logged(entries: seq<CallRecord>, c: CallRecord) {
    exists k :: 0 <= k < |entries| && Key(entries[k]) == Key(c)
  }

  /** No two entries of the log are the same call. */
  predicate DistinctKeys(entries: seq<CallRecord>) {
    forall i, j :: 0 <= i < j < |entries| ==> Key(entries[i]) != Key(entries[j])
  }

  /** The phone-records log, read back as the records it holds (one JSON object per line). */
  class RecordLog {
    var entries: seq<CallRecord>

    constructor (initial: seq<CallRecord>)
      ensures entries == initial
    {
      entries := initial;
    }

    /** `save_phone_record_to_log`. */
    method Append(c: CallRecord)
      modifies this
      ensures entries == old(entries) + [c]
    {
      entries := entries + [c];
    }

    /** `is_record_exists`: a scan of the log for the same phone number and call time. */
    method IsRecordExists(c: CallRecord) returns (found: bool)
      ensures found <==> Logged(entries, c)
    {
      for k := 0 to |entries|
        invariant forall j :: 0 <= j < k ==> Key(entries[j]) != Key(c)
      {
        if entries[k].phone == c.phone && entries[k].callTime == c.callTime {
          return true;
        }
      }
      return false;
    }
  }

  /** What one run of `store_phone_records` leaves: the log, and the records the database accepted. */
  datatype Batch = Batch(log: seq<CallRecord>, inserted: seq<CallRecord>)

  /**
   * Storing recs one by one: a record already in the log is skipped;
   * every other one is inserted if ok holds for its position, and is
   * appended to the log either way.
   */
  function StoreBatch(log: seq<CallRecord>, recs: seq<CallRecord>, ok: nat -> bool): (b: Batch)
    ensures |b.inserted| <= |recs|
    ensures log <= b.log && |b.log| <= |log| + |recs|
  {
    if recs == [] then Batch(log, [])
    else
      var b := StoreBatch(log, recs[..|recs| - 1], ok);
      var c := recs[|recs| - 1];
      if Logged(b.log, c) then b
      else Batch(b.log + [c], if ok(|recs| - 1) then b.inserted + [c] else b.inserted)
  }

  /** Storing one more record extends the batch by that record's step. */
  lemma StoreBatchStep(log: seq<CallRecord>, recs: seq<CallRecord>, ok: nat -> bool, k: nat)
    requires k < |recs|
    ensures var b := StoreBatch(log, recs[..k], ok);
      StoreBatch(log, recs[..k + 1], ok) ==
        if Logged(b.log, recs[k]) then b
        else Batch(b.log + [recs[k]], if ok(k) then b.inserted + [recs[k]] else b.inserted)
  {
    assert recs[..k + 1][..k] == recs[..k];
  }

  /** A log without repeated calls never gains one, even when the batch repeats a call. */
  lemma {:induction false} StoreBatchKeepsKeysDistinct(log: seq<CallRecord>, recs: seq<CallRecord>, ok: nat -> bool)
    requires DistinctKeys(log)
    ensures DistinctKeys(StoreBatch(log, recs, ok).log)
    decreases |recs|
  {
    if recs != [] {
      var b := StoreBatch(log, recs[..|recs| - 1], ok);
      StoreBatchKeepsKeysDistinct(log, recs[..|recs| - 1], ok);
    }
  }

  /** After the batch, every record of it is in the log (already there, or appended). */
  lemma {:induction false} StoreBatchLogsEvery(log: seq<CallRecord>, recs: seq<CallRecord>, ok: nat -> bool)
    ensures forall k :: 0 <= k < |recs| ==> Logged(StoreBatch(log, recs, ok).log, recs[k])
    decreases |recs|
  {
    if recs != [] {
      var front := recs[..|recs| - 1];
      var b := StoreBatch(log, front, ok);
      var b' := StoreBatch(log, recs, ok);
      StoreBatchLogsEvery(log, front, ok);
      forall k | 0 <= k < |recs| ensures Logged(b'.log, recs[k]) {
        if k < |front| {
          assert recs[k] == front[k];
          var j :| 0 <= j < |b.log| && Key(b.log[j]) == Key(front[k]);
          assert b'.log[j] == b.log[j];
        } else if !Logged(b.log, recs[k]) {
          assert b'.log[|b.log|] == recs[k];
        }
      }
    }
  }

  /** Every record the database accepted was a call the log did not hold, and no call is inserted twice. */
  lemma {:induction false} StoreBatchInsertsOnlyNew(log: seq<CallRecord>, recs: seq<CallRecord>, ok: nat -> bool)
    ensures var b := StoreBatch(log, recs, ok);
      && (forall k :: 0 <= k < |b.inserted| ==> !Logged(log, b.inserted[k]) && Logged(b.log, b.inserted[k]))
      && DistinctKeys(b.inserted)
    decreases |recs|
  {
    if recs != [] {
      var front := recs[..|recs| - 1];
      var b := StoreBatch(log, front, ok);
      var c := recs[|recs| - 1];
      StoreBatchInsertsOnlyNew(log, front, ok);
      if !Logged(b.log, c) {
        var b' := StoreBatch(log, recs, ok);
        forall k | 0 <= k < |b.inserted| ensures Logged(b'.log, b.inserted[k]) && Key(b.inserted[k]) != Key(c) {
          var j :| 0 <= j < |b.log| && Key(b.log[j]) == Key(b.inserted[k]);
          assert b'.log[j] == b.log[j];
        }
        forall j | 0 <= j < |log| ensures Key(log[j]) != Key(c) {
          assert b.log[j] == log[j];
        }
        assert b'.log[|b.log|] == c;
      }
    }
  }

  /** The document `insert_one` stores for a record. */
  function RecordDoc(c: CallRecord): (d: Doc)
    ensures Matches(d, map["phone_number" := Str(c.phone), "call_time" := Str(c.callTime)])
    ensures "phone_number" in d && d["phone_number"] == Str(c.phone)
    ensures "call_time" in d && d["call_time"] == Str(c.callTime)
    ensures "filename" in d <==> c.filename.Some?
  {
    var d := map["phone_number" := Str(c.phone), "call_time" := Str(c.callTime), "timestamp" := Str(c.timestamp)];
    if c.filename.Some? then d["filename" := Str(c.filename.value)] else d
  }

  function RecordDocs(cs: seq<CallRecord>): (ds: seq<Doc>)
    ensures |ds| == |cs|
  {
    seq(|cs|, i requires 0 <= i < |cs| => RecordDoc(cs[i]))
  }

  /** The records after `record["filename"] = filenames[i]` at every position both lists have. */
  function Tagged(data: seq<CallRecord>, names: seq<string>): seq<CallRecord> {
    seq(|data|, i requires 0 <= i < |data| => if i < |names| then data[i].(filename := Some(names[i])) else data[i])
  }

  /** Naming one more record. */
  lemma TaggedStep(data: seq<CallRecord>, names: seq<string>, i: nat)
    requires i < |data| && i < |names|
    ensures Tagged(data, names[..i])[i := data[i].(filename := Some(names[i]))] == Tagged(data, names[..i + 1])
  {
  }

  /** Naming up to the shorter length names every position both lists have. */
  lemma TaggedAll(data: seq<CallRecord>, names: seq<string>, m: nat)
    requires m <= |data| && m <= |names| && (m == |data| || m == |names|)
    ensures Tagged(data, names[..m]) == Tagged(data, names)
  {
  }

  lemma RecordDocsAppend(cs: seq<CallRecord>, c: CallRecord)
    ensures RecordDocs(cs + [c]) == RecordDocs(cs) + [RecordDoc(c)]
  {
  }

  /** How many records `store_phone_records` looks at: as many as both lists have. */
  function Considered(records: nat, names: nat): (m: nat)
    ensures m <= records && m <= names && (m == records || m == names)
  {
    if records < names then records else names
  }

  /**
   * `store_phone_records`: with no names in the temporary log nothing
   * happens; otherwise the records are named and stored by NameAndStore.
   * Returns `inserted_count`.
   */
  method StorePhoneRecords(phoneData: array<CallRecord>, temp: LogFile, phoneLog: RecordLog, records: Collection, ok: nat -> bool)
    returns (insertedCount: nat)
    modifies phoneData, phoneLog, records
    ensures var names := NamesFromLog(temp.lines);
      var b := StoreBatch(old(phoneLog.entries), phoneData[..Considered(phoneData.Length, |names|)], ok);
      && phoneData[..] == Tagged(old(phoneData[..]), names)
      && phoneLog.entries == b.log
      && records.docs == old(records.docs) + RecordDocs(b.inserted)
      && insertedCount == |b.inserted|
  {
    var names := ExtractFilenamesFromLog(temp);
    if names == [] {
      assert phoneData[..] == Tagged(old(phoneData[..]), names);
      assert phoneData[..0] == [];
      return 0;
    }
    insertedCount := NameAndStore(phoneData, names, phoneLog, records, ok);
  }

  /**
   * One pass of `store_phone_records`' loop, for the named record rec at
   * position i of recs: skip it if its call is logged, else insert it
   * (when ok holds for i) and log it. Returns whether it was inserted.
   */
  method StoreRecord(rec: CallRecord, i: nat, phoneLog: RecordLog, records: Collection, ok: nat -> bool,
                     ghost log0: seq<CallRecord>, ghost recs: seq<CallRecord>, ghost inserted: seq<CallRecord>)
    returns (added: bool)
    requires i < |recs| && rec == recs[i]
    requires StoreBatch(log0, recs[..i], ok) == Batch(phoneLog.entries, inserted)
    modifies phoneLog, records
    ensures StoreBatch(log0, recs[..i + 1], ok) == Batch(phoneLog.entries, if added then inserted + [rec] else inserted)
    ensures records.docs == old(records.docs) + if added then [RecordDoc(rec)] else []
  {
    StoreBatchStep(log0, recs, ok, i);
    added := false;
    var seen := phoneLog.IsRecordExists(rec);
    if seen {
      return;
    }
    if ok(i) {
      records.InsertOne(RecordDoc(rec));
      added := true;
    }
    phoneLog.Append(rec);
  }

  /**
   * The loop of `store_phone_records`: record i, for i below both
   * lengths, gets name i and is skipped if its call is logged, else
   * inserted (when ok holds for i) and logged.
   */
  method NameAndStore(phoneData: array<CallRecord>, names: seq<string>, phoneLog: RecordLog, records: Collection, ok: nat -> bool)
    returns (insertedCount: nat)
    modifies phoneData, phoneLog, records
    ensures var b := StoreBatch(old(phoneLog.entries), phoneData[..Considered(phoneData.Length, |names|)], ok);
      && phoneData[..] == Tagged(old(phoneData[..]), names)
      && phoneLog.entries == b.log
      && records.docs == old(records.docs) + RecordDocs(b.inserted)
      && insertedCount == |b.inserted|
  {
    var m := Considered(phoneData.Length, |names|);
    ghost var data0 := phoneData[..];
    ghost var tagged := Tagged(data0, names);
    ghost var log0 := phoneLog.entries;
    ghost var docs0 := records.docs;
    ghost var inserted: seq<CallRecord> := [];
    insertedCount := 0;
    for i := 0 to m
      invariant forall j :: 0 <= j < i ==> phoneData[j] == tagged[j]
      invariant forall j :: i <= j < phoneData.Length ==> phoneData[j] == data0[j]
      invariant StoreBatch(log0, tagged[..i], ok) == Batch(phoneLog.entries, inserted)
      invariant records.docs == docs0 + RecordDocs(inserted)
      invariant insertedCount == |inserted|
    {
      var rec := phoneData[i].(filename := Some(names[i]));
      assert rec == tagged[i];
      phoneData[i] := rec;
      ghost var named := phoneData[..];
      var added := StoreRecord(rec, i, phoneLog, records, ok, log0, tagged, inserted);
      assert phoneData[..] == named;
      if added {
        assert docs0 + RecordDocs(inserted + [rec]) == docs0 + RecordDocs(inserted) + [RecordDoc(rec)] by {
          RecordDocsAppend(inserted, rec);
        }
        inserted := inserted + [rec];
        insertedCount := insertedCount + 1;
      }
    }
    TaggedAll(data0, names, m);
    assert phoneData[..] == tagged;
  }

  // ---- load_downloaded_files, download_all_files ----

  /** The file name of a download link: the stripped text after the last `/` of its target. */
  function LinkName(href: string): string {
    Strip(AfterLast(href, '/'))
  }

  /** A link's name reads back unchanged from a log line, which is stripped when loaded. */
  lemma LinkNameStripped(href: string)
    ensures Strip(LinkName(href)) == LinkName(href)
  {
    StripIdempotent(AfterLast(href, '/'));
  }

  /** The names of the links, in page order. */
  function LinkNames(hrefs: seq<string>): (ns: seq<string>)
    ensures |ns| == |hrefs|
  {
    seq(|hrefs|, i requires 0 <= i < |hrefs| => LinkName(hrefs[i]))
  }

  /** The names of a list of (name, link) entries. */
  function NameSet(u: seq<(string, nat)>): set<string> {
    set k | 0 <= k < |u| :: u[k].0
  }

  lemma NameSetAppend(u: seq<(string, nat)>, e: (string, nat))
    ensures NameSet(u + [e]) == NameSet(u) + {e.0}
  {
    assert (u + [e])[|u|] == e;
    forall x | x in NameSet(u) ensures x in NameSet(u + [e]) {
      var k :| 0 <= k < |u| && u[k].0 == x;
      assert (u + [e])[k] == u[k];
    }
  }

  /**
   * `unique_files` over the links' names: for each name, the index of the
   * first link with it, in the order names are first seen.
   */
  function UniqueFiles(names: seq<string>): (u: seq<(string, nat)>)
    ensures |u| <= |names|
  {
    if names == [] then []
    else
      var u := UniqueFiles(names[..|names| - 1]);
      var n := names[|names| - 1];
      if n in NameSet(u) then u else u + [(n, |names| - 1)]
  }

  /** Looking at one more link adds its name, with that link, if the name is new. */
  lemma UniqueFilesStep(names: seq<string>, k: nat)
    requires k < |names|
    ensures var u := UniqueFiles(names[..k]);
      UniqueFiles(names[..k + 1]) == if names[k] in NameSet(u) then u else u + [(names[k], k)]
  {
    assert names[..k + 1][..k] == names[..k];
  }

  /** Every link's name has an entry, and every entry is some link's name. */
  lemma {:induction false} UniqueFilesCover(names: seq<string>)
    ensures forall x :: x in NameSet(UniqueFiles(names)) <==> x in names
    decreases |names|
  {
    if names != [] {
      var front := names[..|names| - 1];
      var n := names[|names| - 1];
      UniqueFilesCover(front);
      var u := UniqueFiles(front);
      var u' := UniqueFiles(names);
      assert names == front + [n];
      if n !in NameSet(u) {
        assert NameSet(u') == NameSet(u) + {n} by {
          assert u'[|u|].0 == n;
          assert forall k :: 0 <= k < |u| ==> u'[k] == u[k];
        }
      }
    }
  }

  /**
   * u lists first links: each entry holds a link with that name and no
   * earlier link has it; entries follow the links' order, so no name
   * appears twice.
   */
  predicate FirstLinks(names: seq<string>, u: seq<(string, nat)>) {
    && (forall k :: 0 <= k < |u| ==> u[k].1 < |names| && names[u[k].1] == u[k].0)
    && (forall k, i :: 0 <= k < |u| && 0 <= i < u[k].1 ==> names[i] != u[k].0)
    && (forall k, l :: 0 <= k < l < |u| ==> u[k].1 < u[l].1 && u[k].0 != u[l].0)
  }

  lemma {:induction false} UniqueFilesFirstLinks(names: seq<string>)
    ensures FirstLinks(names, UniqueFiles(names))
    decreases |names|
  {
    if names != [] {
      var front := names[..|names| - 1];
      var u := UniqueFiles(front);
      UniqueFilesFirstLinks(front);
      UniqueFilesCover(front);
      var n := names[|names| - 1];
      var u' := UniqueFiles(names);
      assert forall i :: 0 <= i < |front| ==> front[i] == names[i];
      if n !in NameSet(u) {
        forall k | 0 <= k < |u| ensures u[k].0 != n {
          assert u[k].0 in NameSet(u);
        }
        assert n !in front;
        assert u' == u + [(n, |front|)];
      }
    }
  }

  /** The entries whose name is not in `downloaded`, in order. */
  function Selected(u: seq<(string, nat)>, downloaded: set<string>): (s: seq<(string, nat)>)
    ensures |s| <= |u|
    decreases |u|
  {
    if u == [] then []
    else
      var s := Selected(u[..|u| - 1], downloaded);
      if u[|u| - 1].0 in downloaded then s else s + [u[|u| - 1]]
  }

  /** Selection keeps exactly the entries whose name is not downloaded. */
  lemma {:induction false} SelectedMembers(u: seq<(string, nat)>, downloaded: set<string>, e: (string, nat))
    ensures e in Selected(u, downloaded) <==> e in u && e.0 !in downloaded
    decreases |u|
  {
    if u != [] {
      var front := u[..|u| - 1];
      SelectedMembers(front, downloaded, e);
      assert u == front + [u[|u| - 1]];
    }
  }

  /** Selection keeps the entries' order, so distinct names stay distinct and links increasing. */
  lemma {:induction false} SelectedKeepsOrder(u: seq<(string, nat)>, downloaded: set<string>)
    requires forall k, l :: 0 <= k < l < |u| ==> u[k].1 < u[l].1 && u[k].0 != u[l].0
    ensures forall k, l :: 0 <= k < l < |Selected(u, downloaded)| ==>
      Selected(u, downloaded)[k].1 < Selected(u, downloaded)[l].1 && Selected(u, downloaded)[k].0 != Selected(u, downloaded)[l].0
    decreases |u|
  {
    if u != [] {
      var front := u[..|u| - 1];
      var last := u[|u| - 1];
      SelectedKeepsOrder(front, downloaded);
      var s := Selected(front, downloaded);
      if last.0 !in downloaded {
        forall k | 0 <= k < |s| ensures s[k].1 < last.1 && s[k].0 != last.0 {
          assert s[k] in s;
          SelectedMembers(front, downloaded, s[k]);
        }
      }
    }
  }

  /** The names of the entries, in order. */
  function NamesOf(s: seq<(string, nat)>): (ns: seq<string>)
    ensures |ns| == |s|
  {
    seq(|s|, i requires 0 <= i < |s| => s[i].0)
  }

  /** The links of the entries, in order. */
  function Links(s: seq<(string, nat)>): (ls: seq<nat>)
    ensures |ls| == |s|
  {
    seq(|s|, i requires 0 <= i < |s| => s[i].1)
  }

  lemma EntriesAppend(s: seq<(string, nat)>, e: (string, nat))
    ensures NamesOf(s + [e]) == NamesOf(s) + [e.0]
    ensures Links(s + [e]) == Links(s) + [e.1]
  {
    assert NamesOf(s + [e])[|s|] == e.0;
    assert Links(s + [e])[|s|] == e.1;
  }

  /**
   * The links `download_all_files` clicks, as (name, link index) in click
   * order, when the download log holds `downloaded`.
   */
  function Downloads(hrefs: seq<string>, downloaded: set<string>): seq<(string, nat)> {
    Selected(UniqueFiles(LinkNames(hrefs)), downloaded)
  }

  /**
   * `download_all_files`: the links are given as their targets, in page
   * order; clicking the link with index k stands for triggering its
   * download. Each triggered name is appended to the download log and to
   * the temporary log.
   */
  method DownloadAllFiles(hrefs: seq<string>, downloadLog: LogFile, temp: LogFile) returns (clicked: seq<nat>)
    requires downloadLog != temp
    modifies downloadLog, temp
    ensures clicked == Links(Downloads(hrefs, LineSet(old(downloadLog.lines))))
    ensures downloadLog.lines == old(downloadLog.lines) + NamesOf(Downloads(hrefs, LineSet(old(downloadLog.lines))))
    ensures temp.lines == old(temp.lines) + NamesOf(Downloads(hrefs, LineSet(old(downloadLog.lines))))
  {
    var downloaded := LineSet(downloadLog.lines);
    if |hrefs| == 0 {
      return [];
    }
    var unique := UniqueLinks(hrefs);
    UniqueFilesFirstLinks(LinkNames(hrefs));
    clicked := TriggerDownloads(unique, downloaded, downloadLog, temp);
  }

  /** The first loop of `download_all_files`: the `unique_files` dictionary, in insertion order. */
  method UniqueLinks(hrefs: seq<string>) returns (unique: seq<(string, nat)>)
    ensures unique == UniqueFiles(LinkNames(hrefs))
  {
    var names := LinkNames(hrefs);
    unique := [];
    var keys: set<string> := {};
    for k := 0 to |names|
      invariant unique == UniqueFiles(names[..k])
      invariant keys == NameSet(unique)
    {
      var filename := names[k];
      if filename !in keys {
        assert UniqueFiles(names[..k + 1]) == unique + [(filename, k)] by {
          UniqueFilesStep(names, k);
        }
        assert NameSet(unique + [(filename, k)]) == keys + {filename} by {
          NameSetAppend(unique, (filename, k));
        }
        unique := unique + [(filename, k)];
        keys := keys + {filename};
      } else {
        assert UniqueFiles(names[..k + 1]) == unique by {
          UniqueFilesStep(names, k);
        }
      }
    }
    assert names[..|names|] == names;
  }

  /**
   * The second loop of `download_all_files`: each entry whose name is not
   * downloaded yet, nor triggered in this loop, is clicked and logged.
   */
  method TriggerDownloads(unique: seq<(string, nat)>, downloaded: set<string>, downloadLog: LogFile, temp: LogFile)
    returns (clicked: seq<nat>)
    requires downloadLog != temp
    requires forall k, l :: 0 <= k < l < |unique| ==> unique[k].1 < unique[l].1 && unique[k].0 != unique[l].0
    modifies downloadLog, temp
    ensures clicked == Links(Selected(unique, downloaded))
    ensures downloadLog.lines == old(downloadLog.lines) + NamesOf(Selected(unique, downloaded))
    ensures temp.lines == old(temp.lines) + NamesOf(Selected(unique, downloaded))
  {
    var newDownloads: set<string> := {};
    clicked := [];
    ghost var sel: seq<(string, nat)> := [];
    for i := 0 to |unique|
      invariant sel == Selected(unique[..i], downloaded)
      invariant clicked == Links(sel)
      invariant downloadLog.lines == old(downloadLog.lines) + NamesOf(sel)
      invariant temp.lines == old(temp.lines) + NamesOf(sel)
      invariant newDownloads <= NameSet(unique[..i])
    {
      var (filename, link) := unique[i];
      assert unique[..i + 1] == unique[..i] + [unique[i]];
      NameSetAppend(unique[..i], unique[i]);
      assert filename !in NameSet(unique[..i]) by {
        forall j | 0 <= j < i ensures unique[..i][j].0 != filename {}
      }
      if filename in downloaded || filename in newDownloads {
        continue;
      }
      clicked := clicked + [link];
      downloadLog.Append(filename);
      temp.Append(filename);
      newDownloads := newDownloads + {filename};
      EntriesAppend(sel, unique[i]);
      sel := sel + [unique[i]];
    }
    assert unique[..|unique|] == unique;
  }

  /**
   * Every clicked link is the first link with its name, and that name is
   * not in the download log; clicks follow page order and no name is
   * triggered twice.
   */
  lemma DownloadsAreFirstNewLinks(hrefs: seq<string>, downloaded: set<string>)
    ensures forall e :: e in Downloads(hrefs, downloaded) ==>
      && e.1 < |hrefs| && LinkNames(hrefs)[e.1] == e.0 && e.0 !in downloaded
      && forall i :: 0 <= i < e.1 ==> LinkNames(hrefs)[i] != e.0
    ensures forall k, l :: 0 <= k < l < |Downloads(hrefs, downloaded)| ==>
      && Downloads(hrefs, downloaded)[k].1 < Downloads(hrefs, downloaded)[l].1
      && Downloads(hrefs, downloaded)[k].0 != Downloads(hrefs, downloaded)[l].0
  {
    var names := LinkNames(hrefs);
    var u := UniqueFiles(names);
    UniqueFilesFirstLinks(names);
    SelectedKeepsOrder(u, downloaded);
    forall e | e in Downloads(hrefs, downloaded)
      ensures e.1 < |hrefs| && names[e.1] == e.0 && e.0 !in downloaded
      ensures forall i :: 0 <= i < e.1 ==> names[i] != e.0
    {
      SelectedMembers(u, downloaded, e);
      var k :| 0 <= k < |u| && u[k] == e;
    }
  }

  /** Selecting from the first links keeps exactly the names not downloaded. */
  lemma SelectedFirstLinksExactlyNew(names: seq<string>, downloaded: set<string>)
    ensures forall x :: x in NamesOf(Selected(UniqueFiles(names), downloaded)) <==> x in names && x !in downloaded
  {
    var u := UniqueFiles(names);
    var sel := Selected(u, downloaded);
    UniqueFilesCover(names);
    forall x ensures x in NamesOf(sel) <==> x in names && x !in downloaded {
      if x in NamesOf(sel) {
        var k :| 0 <= k < |sel| && NamesOf(sel)[k] == x;
        SelectedMembers(u, downloaded, sel[k]);
        var j :| 0 <= j < |u| && u[j] == sel[k];
        assert x in NameSet(u);
      }
      if x in names && x !in downloaded {
        assert x in NameSet(u);
        var j :| 0 <= j < |u| && u[j].0 == x;
        SelectedMembers(u, downloaded, u[j]);
        var k :| 0 <= k < |sel| && sel[k] == u[j];
        assert NamesOf(sel)[k] == x;
      }
    }
  }

  /** The triggered names are exactly the links' names not in the download log. */
  lemma DownloadsExactlyNew(hrefs: seq<string>, downloaded: set<string>)
    ensures forall x :: x in NamesOf(Downloads(hrefs, downloaded)) <==> x in LinkNames(hrefs) && x !in downloaded
  {
    SelectedFirstLinksExactlyNew(LinkNames(hrefs), downloaded);
  }

  /** Nothing whose name is downloaded is selected; so selecting with every name downloaded selects nothing. */
  lemma SelectedNone(u: seq<(string, nat)>, downloaded: set<string>)
    requires forall k :: 0 <= k < |u| ==> u[k].0 in downloaded
    ensures Selected(u, downloaded) == []
  {
    if Selected(u, downloaded) != [] {
      var e := Selected(u, downloaded)[0];
      SelectedMembers(u, downloaded, e);
    }
  }

  /** A name already in the log, or a stripped name appended to it, is in the longer log. */
  lemma LoggedStaysLogged(lines: seq<string>, added: seq<string>, x: string)
    requires x in LineSet(lines) || (x in added && Strip(x) == x)
    ensures x in LineSet(lines + added)
  {
    var after := lines + added;
    var i: nat;
    if x in LineSet(lines) {
      assert exists m :: 0 <= m < |lines| && Strip(lines[m]) == x by {
        LineSetMembers(lines, x);
      }
      var m :| 0 <= m < |lines| && Strip(lines[m]) == x;
      assert after[m] == lines[m];
      i := m;
    } else {
      var j :| 0 <= j < |added| && added[j] == x;
      assert after[|lines| + j] == x;
      i := |lines| + j;
    }
    assert i < |after| && Strip(after[i]) == x;
    LineSetMembers(after, x);
  }

  /** Once the selected names are logged, selecting again from the same stripped names selects nothing. */
  lemma SelectAgainSelectsNothing(names: seq<string>, lines: seq<string>)
    requires forall i :: 0 <= i < |names| ==> Strip(names[i]) == names[i]
    ensures Selected(UniqueFiles(names), LineSet(lines + NamesOf(Selected(UniqueFiles(names), LineSet(lines))))) == []
  {
    var u := UniqueFiles(names);
    var added := NamesOf(Selected(u, LineSet(lines)));
    var after := lines + added;
    forall k | 0 <= k < |u| ensures u[k].0 in LineSet(after) {
      var x := u[k].0;
      UniqueFilesFirstLinks(names);
      assert names[u[k].1] == x;
      SelectedFirstLinksExactlyNew(names, LineSet(lines));
      LoggedStaysLogged(lines, added, x);
    }
    SelectedNone(u, LineSet(after));
  }

  /**
   * A second `download_all_files` on the same page, after the first one
   * has logged its names, triggers nothing.
   */
  lemma DownloadAgainTriggersNothing(hrefs: seq<string>, lines: seq<string>)
    ensures Downloads(hrefs, LineSet(lines + NamesOf(Downloads(hrefs, LineSet(lines))))) == []
  {
    forall i | 0 <= i < |hrefs| ensures Strip(LinkNames(hrefs)[i]) == LinkNames(hrefs)[i] {
      LinkNameStripped(hrefs[i]);
    }
    SelectAgainSelectsNothing(LinkNames(hrefs), lines);
  }

  // ---- the scraper's records as the transcription stage finds them ----

  /**
   * A scraped call time holds a space, while the call time the
   * transcription stage falls back to (taken from a recording's name)
   * holds none: its fallback filter never matches a record this scraper
   * stored.
   */
  lemma ScrapedRecordMissesFallback(c: CallRecord, text: string, filename: string)
    requires Strip(text) != [] && c.callTime == ScrapedTime(text)
    ensures Transcription.FallbackFilter(filename).Some? ==>
      !Matches(RecordDoc(c), Transcription.FallbackFilter(filename).value)
  {
    if Transcription.FallbackFilter(filename).Some? {
      var time := FallbackCallTime(filename);
      RecordMissesFilter(c, Transcription.FallbackFilter(filename).value, time);
    }
  }

  /** A record whose call time holds a space is missed by a filter on a call time without whitespace. */
  lemma RecordMissesFilter(c: CallRecord, filter: Doc, time: string)
    requires ' ' in c.callTime && NoSpace(time)
    requires "call_time" in filter && filter["call_time"] == Str(time)
    ensures !Matches(RecordDoc(c), filter)
  {
    assert c.callTime != time by {
      var k :| 0 <= k < |c.callTime| && c.callTime[k] == ' ';
      assert IsSpace(' ');
    }
    FieldMismatch(RecordDoc(c), filter, "call_time");
  }

  /** The call time of the fallback filter: a time taken from the name, without spaces. */
  lemma FallbackCallTime(filename: string) returns (time: string)
    requires Transcription.FallbackFilter(filename).Some?
    ensures "call_time" in Transcription.FallbackFilter(filename).value
    ensures Transcription.FallbackFilter(filename).value["call_time"] == Str(time)
    ensures NoSpace(time)
  {
    time := Matcher.ExtractTimeFromFilename(filename).value;
    Matcher.ExtractedTimeShape(filename);
    Matcher.ConvertKeepsFilenameTime(filename);
  }
}
