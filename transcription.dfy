/**
 * The transcription stage (Transcription.py): which files in the download
 * folder are audio, the transcription ledger that decides whether a file
 * is handled again, storing a transcript on its call record, the
 * embedding stage, and the per-file state machine that ties them
 * together.
 *
 * The outside services (the speech-to-text call, the embedding model, the
 * clock and the database's fresh ids) are collected in `Services` and
 * passed in.
 */
module Transcription {
  import opened Wrappers
  import opened Strings
  import opened Store
  import opened Logs
  import opened Matcher

  // ---- the extension filter in main ----

  predicate IsAudioName(name: string) {
    EndsWith(name, ".aac") || EndsWith(name, ".wav") || EndsWith(name, ".mp4") || EndsWith(name, ".mp3")
  }

  /** The directory entries `main` hands to processing, in listing order. */
  function AudioFiles(listing: seq<string>): (r: seq<string>)
    ensures forall x :: x in r <==> x in listing && IsAudioName(x)
    ensures |r| <= |listing|
  {
    if listing == [] then []
    else
      var rest := AudioFiles(listing[1..]);
      if IsAudioName(listing[0]) then [listing[0]] + rest else rest
  }

  /** Filtering a concatenated listing filters each part, keeping the order. */
  lemma {:induction false} AudioFilesAppend(a: seq<string>, b: seq<string>)
    ensures AudioFiles(a + b) == AudioFiles(a) + AudioFiles(b)
    decreases |a|
  {
    if a != [] {
      assert (a + b)[1..] == a[1..] + b;
      AudioFilesAppend(a[1..], b);
    } else {
      assert a + b == b;
    }
  }

  // ---- the transcription ledger ----

  datatype Outcome = Success | Failed

  function OutcomeText(o: Outcome): string {
    match o
    case Success => "success"
    case Failed => "failed"
  }

  /** A ledger line: `base,timestamp,success` or `base,timestamp,failed`. */
  function LedgerLine(base: string, stamp: string, o: Outcome): string {
    base + "," + stamp + "," + OutcomeText(o)
  }

  /** `is_already_processed`: some ledger line starts with `filename,` (a missing ledger has no lines). */
  function IsAlreadyProcessed(filename: string, ledger: seq<string>): (r: bool)
    ensures r <==> exists i :: 0 <= i < |ledger| && filename + "," <= ledger[i]
    ensures ledger == [] ==> !r
  {
    if ledger == [] then false
    else if filename + "," <= ledger[0] then true
    else
      var r := IsAlreadyProcessed(filename, ledger[1..]);
      assert forall i :: 1 <= i < |ledger| ==> ledger[i] == ledger[1..][i - 1];
      r
  }

  /** After an outcome line is written for base, whether `success` or `failed`, base counts as processed. */
  lemma LedgerLineMarksProcessed(base: string, stamp: string, o: Outcome, ledger: seq<string>)
    ensures IsAlreadyProcessed(base, ledger + [LedgerLine(base, stamp, o)])
  {
    var l := ledger + [LedgerLine(base, stamp, o)];
    assert l[|ledger|] == (base + ",") + (stamp + "," + OutcomeText(o));
  }

  /**
   * Comma-free names are matched exactly: the line written for `other`
   * marks `base` only when the two are equal (so `abc` is not matched by
   * a line for `abcd`).
   */
  lemma LedgerLineMatchesOnlyItsName(base: string, other: string, stamp: string, o: Outcome)
    requires ',' !in base && ',' !in other
    ensures base + "," <= LedgerLine(other, stamp, o) <==> base == other
  {
    var line := LedgerLine(other, stamp, o);
    assert line == (other + ",") + (stamp + "," + OutcomeText(o));
    assert forall i :: 0 <= i < |other| ==> line[i] == other[i];
    assert line[|other|] == ',';
    if base + "," <= line {
      assert forall i :: 0 <= i <= |base| ==> (base + ",")[i] == line[i];
      assert (base + ",")[|base|] == ',';
      assert forall i :: 0 <= i < |base| ==> (base + ",")[i] == base[i];
      assert |base| == |other|;
      assert base == other;
    }
  }

  /** Lines for other comma-free names never make base count as processed. */
  lemma {:induction false} OthersDoNotMark(base: string, lines: seq<(string, string, Outcome)>)
    requires ',' !in base
    requires forall i :: 0 <= i < |lines| ==> ',' !in lines[i].0 && lines[i].0 != base
    ensures !IsAlreadyProcessed(base, LedgerOf(lines))
    decreases |lines|
  {
    if lines != [] {
      var l := lines[|lines| - 1];
      LedgerLineMatchesOnlyItsName(base, l.0, l.1, l.2);
      OthersDoNotMark(base, lines[..|lines| - 1]);
      var init := LedgerOf(lines[..|lines| - 1]);
      assert LedgerOf(lines) == init + [LedgerLine(l.0, l.1, l.2)];
      forall i | 0 <= i < |init| + 1 ensures !(base + "," <= LedgerOf(lines)[i]) {
        if i < |init| {
          assert LedgerOf(lines)[i] == init[i];
        }
      }
    }
  }

  /** The ledger written for a sequence of (name, timestamp, outcome) entries. */
  function LedgerOf(lines: seq<(string, string, Outcome)>): (r: seq<string>)
    ensures |r| == |lines|
    decreases |lines|
  {
    if lines == [] then []
    else
      var l := lines[|lines| - 1];
      LedgerOf(lines[..|lines| - 1]) + [LedgerLine(l.0, l.1, l.2)]
  }

  // ---- store_transcription ----

  function ByFilename(filename: string): Doc {
    map["filename" := Str(filename)]
  }

  function TranscriptionField(text: string): Doc {
    map["transcription" := Str(text)]
  }

  /**
   * The phone/time filter of the fallback match: it exists exactly when
   * both can be read from the name, and then holds the phone number and
   * the extracted time, which the normalisation leaves as it is.
   */
  function FallbackFilter(filename: string): (r: Option<Doc>)
    ensures r.Some? <==> ExtractPhoneNumber(filename).Some? && ExtractTimeFromFilename(filename).Some?
    ensures r.Some? ==> r.value == map["phone_number" := Str(ExtractPhoneNumber(filename).value),
                                       "call_time" := Str(ExtractTimeFromFilename(filename).value)]
  {
    var phone :- ExtractPhoneNumber(filename);
    var time :- ExtractTimeFromFilename(filename);
    ConvertKeepsFilenameTime(filename);
    var callTime := ConvertTimeToMongoFormat(time).value;
    Some(map["phone_number" := Str(phone), "call_time" := Str(callTime)])
  }

  /** The record `store_transcription` updates: the first with the filename, else the first fallback match. */
  function StoreTarget(docs: seq<Doc>, filename: string): Option<nat> {
    match FirstMatch(docs, ByFilename(filename))
    case Some(i) => Some(i)
    case None =>
      match FallbackFilter(filename)
      case None => None
      case Some(q) => FirstMatch(docs, q)
  }

  /** The records after `store_transcription(filename, text)`. */
  function AfterStore(docs: seq<Doc>, filename: string, text: string): (r: seq<Doc>)
    ensures |r| == |docs|
  {
    match StoreTarget(docs, filename)
    case None => docs
    case Some(i) => docs[i := docs[i] + TranscriptionField(text)]
  }

  /** A transcript is stored exactly when some record has the filename, or some record matches the fallback filter. */
  lemma StoredIff(docs: seq<Doc>, filename: string)
    ensures StoreTarget(docs, filename).Some? <==>
      (exists j :: 0 <= j < |docs| && Matches(docs[j], ByFilename(filename))) ||
      (FallbackFilter(filename).Some? && exists j :: 0 <= j < |docs| && Matches(docs[j], FallbackFilter(filename).value))
  {
  }

  /** A record with the filename always wins over a fallback match: the first such record is the one updated. */
  lemma FilenameMatchWins(docs: seq<Doc>, filename: string, i: nat)
    requires i < |docs| && Matches(docs[i], ByFilename(filename))
    requires forall j :: 0 <= j < i ==> !Matches(docs[j], ByFilename(filename))
    ensures StoreTarget(docs, filename) == Some(i)
  {
  }

  /**
   * `store_transcription` never inserts: the record count is unchanged,
   * every record other than the target is unchanged, and the target
   * gains or replaces only its `transcription` field.
   */
  lemma StoreChangesOnlyTranscription(docs: seq<Doc>, filename: string, text: string)
    ensures |AfterStore(docs, filename, text)| == |docs|
    ensures StoreTarget(docs, filename).None? ==> AfterStore(docs, filename, text) == docs
    ensures StoreTarget(docs, filename).Some? ==>
      var i := StoreTarget(docs, filename).value;
      && i < |docs|
      && (forall j :: 0 <= j < |docs| && j != i ==> AfterStore(docs, filename, text)[j] == docs[j])
      && AfterStore(docs, filename, text)[i] == docs[i]["transcription" := Str(text)]
  {
    match StoreTarget(docs, filename)
    case None =>
    case Some(i) =>
      assert docs[i] + TranscriptionField(text) == docs[i]["transcription" := Str(text)];
  }

  /** `store_transcription`: updates at most one record (never upserting) and reports whether it did. */
  method StoreTranscription(records: Collection, filename: string, text: string) returns (stored: bool)
    modifies records
    ensures records.docs == AfterStore(old(records.docs), filename, text)
    ensures stored == StoreTarget(old(records.docs), filename).Some?
  {
    var matched := records.UpdateOne(ByFilename(filename), TranscriptionField(text), false);
    if matched > 0 {
      return true;
    }
    var phone := ExtractPhoneNumber(filename);
    var time := ExtractTimeFromFilename(filename);
    var callTime := if time.Some? then ConvertTimeToMongoFormat(time.value) else None;
    if time.Some? {
      ConvertKeepsFilenameTime(filename);
    }
    assert FallbackFilter(filename).Some? <==> phone.Some? && callTime.Some?;
    if phone.Some? && callTime.Some? {
      var filter: Doc := map["phone_number" := Str(phone.value), "call_time" := Str(callTime.value)];
      assert FallbackFilter(filename) == Some(filter);
      matched := records.UpdateOne(filter, TranscriptionField(text), false);
      if matched > 0 {
        return true;
      }
    }
    return false;
  }

  // ---- generate_embeddings ----

  /** What the pipeline takes from outside: the speech-to-text call, the embedding model, the clock and fresh ids. */
  datatype Services = Services(
    transcribe: (string, nat) -> Option<string>,  // the Whisper reply's text for a file on a given attempt; None if the call raised
    encode: string -> Option<Value>,              // the embedding vector of a text; None if the model raised
    stamp: string,                                // `datetime.now().isoformat()`
    date: string,                                 // `datetime.now().strftime("%d-%m-%Y")`
    insertedId: string)                           // the id the database gives the inserted embedding

  function EmbeddingDoc(filename: string, vector: Value, date: string): Doc {
    map["filename" := Str(filename), "embedding" := vector, "date_processed" := Str(date)]
  }

  function EmbeddingLogLine(filename: string, id: string, stamp: string): string {
    filename + "," + id + "," + stamp
  }

  datatype Embedded = Embedded(docs: seq<Doc>, log: seq<string>, ok: bool)

  /** The embeddings collection, the embeddings log and the result after `generate_embeddings`. */
  function Embed(docs: seq<Doc>, log: seq<string>, filename: string, text: string, svc: Services): Embedded {
    if FirstMatch(docs, ByFilename(filename)).Some? then Embedded(docs, log, true)
    else
      match svc.encode(text)
      case None => Embedded(docs, log, false)
      case Some(v) => Embedded(docs + [EmbeddingDoc(filename, v, svc.date)], log + [EmbeddingLogLine(filename, svc.insertedId, svc.stamp)], true)
  }

  /**
   * An existing embedding for the filename short-circuits with success
   * and no change; otherwise one document and one log line are added,
   * unless the model fails, which changes nothing and reports failure.
   */
  lemma EmbedCases(docs: seq<Doc>, log: seq<string>, filename: string, text: string, svc: Services)
    ensures var e := Embed(docs, log, filename, text, svc);
      && ((exists j :: 0 <= j < |docs| && Matches(docs[j], ByFilename(filename))) ==> e == Embedded(docs, log, true))
      && (e.ok <==> (exists j :: 0 <= j < |docs| && Matches(docs[j], ByFilename(filename))) || svc.encode(text).Some?)
      && (e.docs == docs || (|e.docs| == |docs| + 1 && e.docs[..|docs|] == docs && Matches(e.docs[|docs|], ByFilename(filename))))
      && (e.log == log || e.log == log + [EmbeddingLogLine(filename, svc.insertedId, svc.stamp)])
    ensures (forall j :: 0 <= j < |docs| ==> !Matches(docs[j], ByFilename(filename))) ==>
      Embed(docs, log, filename, text, svc) ==
        match svc.encode(text)
        case None => Embedded(docs, log, false)
        case Some(v) => Embedded(docs + [EmbeddingDoc(filename, v, svc.date)], log + [EmbeddingLogLine(filename, svc.insertedId, svc.stamp)], true)
  {
    var e := Embed(docs, log, filename, text, svc);
    if e.docs != docs {
      assert e.docs[..|docs|] == docs;
    }
    if forall j :: 0 <= j < |docs| ==> !Matches(docs[j], ByFilename(filename)) {
      assert FirstMatch(docs, ByFilename(filename)).None?;
    }
  }

  /** Generating embeddings twice for one filename is the same as once. */
  lemma EmbedIdempotent(docs: seq<Doc>, log: seq<string>, filename: string, text: string, svc: Services, svc2: Services)
    requires Embed(docs, log, filename, text, svc).ok
    ensures var e := Embed(docs, log, filename, text, svc);
      Embed(e.docs, e.log, filename, text, svc2) == e
  {
    var e := Embed(docs, log, filename, text, svc);
    if e.docs != docs {
      assert Matches(e.docs[|docs|], ByFilename(filename));
    }
  }

  /** `generate_embeddings`: insert and log an embedding unless one exists for the filename. */
  method GenerateEmbeddings(embeddings: Collection, log: LogFile, filename: string, text: string, svc: Services)
    returns (ok: bool)
    modifies embeddings, log
    ensures Embedded(embeddings.docs, log.lines, ok) == Embed(old(embeddings.docs), old(log.lines), filename, text, svc)
  {
    var existing := embeddings.FindOne(ByFilename(filename));
    if existing.Some? {
      return true;
    }
    match svc.encode(text)
    case None =>
      return false;
    case Some(v) =>
      embeddings.InsertOne(EmbeddingDoc(filename, v, svc.date));
      log.Append(EmbeddingLogLine(filename, svc.insertedId, svc.stamp));
      return true;
  }

  // ---- transcription with retry ----

  const MaxAttempts: nat := 2

  /**
   * `transcribe_audio` on attempt a: the reply's text, or None when the
   * file cannot be opened, the call raised, or the text is empty.
   */
  function TranscribeAudio(svc: Services, files: set<string>, audioFile: string, a: nat): (r: Option<string>)
    ensures r.Some? ==> r.value != [] && audioFile in files
  {
    if audioFile !in files then None
    else
      match svc.transcribe(audioFile, a)
      case None => None
      case Some(t) => if t == [] then None else Some(t)
  }

  /** The transcript and the number of transcriber calls, from attempt a on. */
  function Retry(svc: Services, files: set<string>, audioFile: string, a: nat): (r: (Option<string>, nat))
    decreases MaxAttempts - a
  {
    if MaxAttempts <= a then (None, 0)
    else
      match TranscribeAudio(svc, files, audioFile, a)
      case Some(t) => (Some(t), 1)
      case None =>
        var (t, n) := Retry(svc, files, audioFile, a + 1);
        (t, n + 1)
  }

  /** The transcriber is called once or twice; twice exactly when the first attempt yields nothing. */
  lemma RetryCalls(svc: Services, files: set<string>, audioFile: string)
    ensures var (t, n) := Retry(svc, files, audioFile, 0);
      && 1 <= n <= MaxAttempts
      && (n == 1 <==> TranscribeAudio(svc, files, audioFile, 0).Some?)
      && (t.None? ==> n == MaxAttempts)
      && (t.Some? ==> t.value != [] && t == TranscribeAudio(svc, files, audioFile, n - 1))
  {
  }

  // ---- process_single_file ----

  /** The audio folder's file names. */
  class AudioFolder {
    var files: set<string>

    constructor (initial: set<string>)
      ensures files == initial
    {
      files := initial;
    }

    /** `os.remove`. */
    method Remove(name: string)
      requires name in files
      modifies this
      ensures files == old(files) - {name}
    {
      files := files - {name};
    }
  }

  /** Everything `process_single_file` reads or writes. */
  datatype World = World(
    files: set<string>,
    ledger: seq<string>,
    records: seq<Doc>,
    embeddings: seq<Doc>,
    embeddingsLog: seq<string>)

  datatype Step = Step(world: World, success: bool, calls: nat)

  function Snapshot(folder: AudioFolder, ledger: LogFile, records: Collection, embeddings: Collection, embeddingsLog: LogFile): World
    reads folder, ledger, records, embeddings, embeddingsLog
  {
    World(folder.files, ledger.lines, records.docs, embeddings.docs, embeddingsLog.lines)
  }

  /** The new world, the result and the number of transcriber calls of `process_single_file(audioFile)`. */
  function Process(w: World, audioFile: string, svc: Services): Step {
    var base := BaseName(audioFile);
    if IsAlreadyProcessed(base, w.ledger) then Step(w, false, 0)
    else
      var (t, calls) := Retry(svc, w.files, audioFile, 0);
      var failedLine := LedgerLine(base, svc.stamp, Failed);
      if t.None? then Step(w.(ledger := w.ledger + [failedLine]), false, calls)
      else if StoreTarget(w.records, base).None? then Step(w.(ledger := w.ledger + [failedLine]), false, calls)
      else
        var records := AfterStore(w.records, base, t.value);
        var e := Embed(w.embeddings, w.embeddingsLog, base, t.value, svc);
        if !e.ok then
          Step(World(w.files, w.ledger + [failedLine], records, e.docs, e.log), false, calls)
        else
          Step(World(w.files - {audioFile}, w.ledger + [LedgerLine(base, svc.stamp, Success)], records, e.docs, e.log), true, calls)
  }

  /** `process_single_file`: skip, transcribe with retry, store, embed, record the outcome, and remove the audio on success. */
  method ProcessSingleFile(audioFile: string, folder: AudioFolder, ledger: LogFile, records: Collection,
                           embeddings: Collection, embeddingsLog: LogFile, svc: Services)
    returns (success: bool, calls: nat)
    requires ledger != embeddingsLog && records != embeddings
    modifies folder, ledger, records, embeddings, embeddingsLog
    ensures Step(Snapshot(folder, ledger, records, embeddings, embeddingsLog), success, calls) ==
      Process(old(Snapshot(folder, ledger, records, embeddings, embeddingsLog)), audioFile, svc)
  {
    var base := BaseName(audioFile);
    if IsAlreadyProcessed(base, ledger.lines) {
      return false, 0;
    }
    var transcription: Option<string> := None;
    var attempt := 0;
    calls := 0;
    while attempt < MaxAttempts && transcription.None?
      invariant attempt <= MaxAttempts && calls == attempt
      invariant transcription.None? ==>
        Retry(svc, folder.files, audioFile, 0) == (Retry(svc, folder.files, audioFile, attempt).0, Retry(svc, folder.files, audioFile, attempt).1 + attempt)
      invariant transcription.Some? ==> Retry(svc, folder.files, audioFile, 0) == (transcription, attempt)
      decreases MaxAttempts - attempt
    {
      transcription := TranscribeAudio(svc, folder.files, audioFile, attempt);
      attempt := attempt + 1;
      calls := calls + 1;
    }
    if transcription.None? {
      ledger.Append(LedgerLine(base, svc.stamp, Failed));
      return false, calls;
    }
    var text := transcription.value;
    var stored := StoreTranscription(records, base, text);
    if !stored {
      ledger.Append(LedgerLine(base, svc.stamp, Failed));
      return false, calls;
    }
    var embedded := GenerateEmbeddings(embeddings, embeddingsLog, base, text, svc);
    if !embedded {
      ledger.Append(LedgerLine(base, svc.stamp, Failed));
      return false, calls;
    }
    ledger.Append(LedgerLine(base, svc.stamp, Success));
    folder.Remove(audioFile);
    return true, calls;
  }

  /** A file whose base name is in the ledger is skipped: nothing is called and nothing changes. */
  lemma SkipsLedgered(w: World, audioFile: string, svc: Services)
    requires IsAlreadyProcessed(BaseName(audioFile), w.ledger)
    ensures Process(w, audioFile, svc) == Step(w, false, 0)
  {
  }

  /**
   * A file not yet in the ledger gets exactly one outcome line, `success`
   * exactly when the call succeeds, and its audio is removed exactly
   * when it succeeds.
   */
  lemma OneOutcomeLine(w: World, audioFile: string, svc: Services)
    requires !IsAlreadyProcessed(BaseName(audioFile), w.ledger)
    ensures var r := Process(w, audioFile, svc);
      && r.world.ledger == w.ledger + [LedgerLine(BaseName(audioFile), svc.stamp, if r.success then Success else Failed)]
      && r.world.files == (if r.success then w.files - {audioFile} else w.files)
      && (r.success ==> audioFile in w.files)
      && 1 <= r.calls <= MaxAttempts
  {
    RetryCalls(svc, w.files, audioFile);
  }

  /**
   * When no attempt yields text (the file is missing, the service fails,
   * or it hears only silence and returns empty text), transcription is
   * attempted exactly twice; then one `failed` line is written and
   * nothing else changes, the audio included.
   */
  lemma SilentTranscriber(w: World, audioFile: string, svc: Services)
    requires !IsAlreadyProcessed(BaseName(audioFile), w.ledger)
    requires forall a :: TranscribeAudio(svc, w.files, audioFile, a).None?
    ensures Process(w, audioFile, svc) ==
      Step(w.(ledger := w.ledger + [LedgerLine(BaseName(audioFile), svc.stamp, Failed)]), false, 2)
  {
    assert TranscribeAudio(svc, w.files, audioFile, 0).None? && TranscribeAudio(svc, w.files, audioFile, 1).None?;
  }

  /** When no record matches, the embedding stage is not reached: only a `failed` line is written. */
  lemma StoreFailureHalts(w: World, audioFile: string, svc: Services)
    requires !IsAlreadyProcessed(BaseName(audioFile), w.ledger)
    requires StoreTarget(w.records, BaseName(audioFile)).None?
    ensures var r := Process(w, audioFile, svc);
      && !r.success
      && r.world == w.(ledger := w.ledger + [LedgerLine(BaseName(audioFile), svc.stamp, Failed)])
  {
  }

  /** On success the transcript sits on the matched record and an embedding exists for the base name. */
  lemma SuccessStoresAndEmbeds(w: World, audioFile: string, svc: Services)
    requires Process(w, audioFile, svc).success
    ensures var base := BaseName(audioFile);
      var r := Process(w, audioFile, svc).world;
      var t := Retry(svc, w.files, audioFile, 0).0;
      && t.Some?
      && StoreTarget(w.records, base).Some?
      && r.records[StoreTarget(w.records, base).value]["transcription"] == Str(t.value)
      && exists j :: 0 <= j < |r.embeddings| && Matches(r.embeddings[j], ByFilename(base))
  {
    var base := BaseName(audioFile);
    var t := Retry(svc, w.files, audioFile, 0).0.value;
    StoreChangesOnlyTranscription(w.records, base, t);
    var e := Embed(w.embeddings, w.embeddingsLog, base, t, svc);
    EmbedCases(w.embeddings, w.embeddingsLog, base, t, svc);
    if e.docs == w.embeddings {
      var j := FirstMatch(w.embeddings, ByFilename(base)).value;
      assert Matches(e.docs[j], ByFilename(base));
    } else {
      assert Matches(e.docs[|w.embeddings|], ByFilename(base));
    }
  }

  /** Processing a file a second time, whatever happened the first time, changes nothing. */
  lemma SecondRunIsNoOp(w: World, audioFile: string, svc: Services, svc2: Services)
    ensures var r := Process(w, audioFile, svc).world;
      Process(r, audioFile, svc2) == Step(r, false, 0)
  {
    var base := BaseName(audioFile);
    if !IsAlreadyProcessed(base, w.ledger) {
      var r := Process(w, audioFile, svc);
      OneOutcomeLine(w, audioFile, svc);
      LedgerLineMarksProcessed(base, svc.stamp, if r.success then Success else Failed, w.ledger);
    }
  }
}
