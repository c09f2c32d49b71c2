# Call-recording pipeline: a Dafny model

This project models the core of a call-recording pipeline. The pipeline has three stages.

- **The scraper** (`Selenium.py`) signs in to a telephony report page and clicks each recording's download link once. It logs every triggered file name in a permanent download log and in a temporary log. It then reads the page's call-history table, tags each call record with a name from the temporary log, and stores the records in the `phone_records` collection and in a phone-records log, skipping calls that are already logged.
- **The transcription stage** (`Transcription.py`) picks the audio files out of the download folder. For each one it:
  - skips the file if the transcription ledger already names it;
  - asks the transcriber up to twice;
  - writes the transcript onto the matching call record, matched by file name first and by phone number and call time second;
  - stores an embedding of the transcript;
  - records `success` or `failed` in the ledger, and deletes the audio on success.
- **The analysis stage** (`llm.py`) fetches the transcribed records and skips names in its processed log. It asks the chat model for a JSON analysis of each remaining one, cuts the JSON out of the reply, and logs the name as processed. It then upserts the non-error analyses onto the records by file name.

The model has one module per concern.

- `Wrappers`: the `Option` type.
- `Strings`: Python's `strip`, whitespace `split`, `find` and `rfind`, slices, and `int`/`str` on small decimals.
- `Store`: a MongoDB collection as a class over a sequence of documents. A filter field matches a field holding its value or an array holding it among its items, and a `null` filter value also matches a missing field. `update_one` updates the first match, `find_one` finds the first match, and `insert_one` appends.
- `Logs`: an append-only text log as a class over its lines. A log loaded as a set holds the stripped lines.
- `Matcher`: the file-name parsing of `Transcription.py`. The two regular expressions are written out as digit-group scanners and proved sound and complete.
- `Transcription`: the ledger, `store_transcription`, `generate_embeddings`, the retry, and `process_single_file`.
- `Llm`: JSON span extraction, `analyze_text_with_groq`, the processed log, `process_folder`, and `store_results_in_mongodb`.
- `Selenium`: reading names out of the temporary log, turning table rows into call records, the duplicate-free storing of records, and the choice of links to click.

The source changes state step by step. That code is modelled by classes (`Collection`, `LogFile`, `RecordLog`, `AudioFolder`) and by methods with loops. Each method's postcondition ties the new state to a pure function of the old state, and the properties are proved as lemmas about those functions. External services are parameters:

- the transcriber, the embedding model and the chat model;
- the JSON decoder;
- the clock;
- the success of a database insert;
- the browser's view of the page, given as link targets and cell texts.

One consequence spans two stages. The scraper stores call times as `t[:5] + " " + t[-2:]`, which always contains a space. The time that `store_transcription` extracts from a file name for its fallback match never contains one. So the phone-and-time fallback can only match records written by something other than this scraper (`Selenium.ScrapedRecordMissesFallback`). The model keeps that branch as written.

## Model

| member | source | states |
|---|---|---|
| Strings.StripIdempotent | llm.py:213 | stripping a stripped line changes nothing |
| Strings.SplitTwoWords | Transcription.py:110-112 | `split()` of two non-blank words joined by one space gives exactly those two words |
| Strings.RenderSmallNumber | Transcription.py:102-104 | `str(int(h))` of a one- or two-digit hour drops a leading zero (`07` gives `7`) and otherwise gives the digits back |
| Store.FirstMatch | Transcription.py:154-158 | the record `update_one` picks matches the filter and no earlier record does; there is none exactly when no record matches |
| Store.UpdatedChangesFirstMatchOnly | Transcription.py:154-158 | an update that matches changes only the first matching record: the `$set` fields take the new values, its other fields and all other records stay, the count stays |
| Store.Collection.UpdateOne | Transcription.py:154-160 | the collection becomes the update of the old one; `matched_count` is 1 exactly when some record matched |
| Store.Collection.InsertOne | Transcription.py:197-201 | the document is appended and nothing else changes |
| Store.Collection.FindOne | Transcription.py:193 | a document is found exactly when some record matches the filter, and the one found is the first that matches |
| Logs.LogFile.Append | Selenium.py:85-88 | appending writes exactly one line at the end |
| Logs.LogFile.Clear | Selenium.py:98-104 | clearing leaves the log empty (the operation is called only from the scraper's main loop, which is not part of this model) |
| Logs.LineSet | llm.py:207-214 | an empty or missing log loads as the empty set, and the set has at most one name per line |
| Logs.LineSetMembers | Selenium.py:208-213 | a name is in the loaded set exactly when some line of the log strips to it |
| Logs.LineSetAppend | llm.py:207-214 | appending a line adds exactly its stripped form to the set loaded next time |
| Matcher.ExtractPhoneNumber | Transcription.py:93-96 | a number is found exactly when `_` + ten ASCII digits + `_` occurs; the result is those ten digits at the leftmost occurrence |
| Matcher.ElevenDigitsNeverMatch | Transcription.py:95 | eleven digits between underscores (and no other underscore) never give a phone number |
| Matcher.RecordingNamePhone | Transcription.py:93-96 | the phone number of a conventionally named recording is the ten digits after its first underscore |
| Matcher.FieldsAtSound | Transcription.py:100 | a successful scan of digit groups reads groups of the allowed lengths that occur, with their separators, in the name |
| Matcher.FieldsAtComplete | Transcription.py:100 | every occurrence of digit groups of the allowed lengths, with their separators, is found by the scan |
| Matcher.TimeAtSound | Transcription.py:100 | a time found at a position is a well-shaped `_YYYY-M-D-h-m-s_` group occurring there |
| Matcher.TimeAtComplete | Transcription.py:100 | every well-shaped `_YYYY-M-D-h-m-s_` group occurring at a position is found there |
| Matcher.ExtractTimeFromFilename | Transcription.py:98-105 | a time is returned exactly when the timestamp pattern occurs somewhere in the name |
| Matcher.ExtractTimeFromLeftmost | Transcription.py:98-105 | the result comes from the leftmost group: the hour's decimal value, `:`, and the minute exactly as written |
| Matcher.RecordingNameTime | Transcription.py:98-105 | in a conventionally named recording the phone digits never start a time group, so the time comes from the timestamp group |
| Matcher.ExtractedTimeShape | Transcription.py:102-104 | an extracted time holds no whitespace and holds a `:` |
| Matcher.ConvertTimeToMongoFormat | Transcription.py:107-118 | a time converts exactly when its stripped text splits into two words, or one word holding `:`; the result has the same words, joined by one space |
| Matcher.JoinWords | Transcription.py:111-115 | words are re-joined exactly when there are two of them, or one holding `:` |
| Matcher.JoinWordsSplits | Transcription.py:111-114 | splitting the re-joined text on whitespace gives back the words it was made of |
| Matcher.ConvertIdempotent | Transcription.py:107-118 | converting a converted time gives it back unchanged |
| Matcher.ConvertKeepsFilenameTime | Transcription.py:166-167 | conversion is the identity on every time taken from a file name |
| Matcher.ConvertKeepsWord | Transcription.py:113-114 | a single word holding `:` is returned as it is |
| Matcher.BaseName | Transcription.py:216 | `splitext(name)[0]` is a prefix of the name |
| Matcher.BaseNameOfRecording | Transcription.py:216 | the base name of `stem.ext` (no `.` in the extension, a stem not made only of dots) is the stem |
| Transcription.AudioFiles | Transcription.py:305-308 | a listed name is kept exactly when it ends in `.aac`, `.wav`, `.mp4` or `.mp3` |
| Transcription.AudioFilesAppend | Transcription.py:305-308 | the filter keeps the listing order: filtering two parts filters each in turn |
| Transcription.IsAlreadyProcessed | Transcription.py:120-128 | a file is processed exactly when some ledger line starts with its name and a comma; an empty or missing ledger marks nothing |
| Transcription.LedgerLineMarksProcessed | Transcription.py:262-264 | after a `success` or a `failed` line for a name, that name counts as processed |
| Transcription.LedgerLineMatchesOnlyItsName | Transcription.py:126 | a ledger line marks a comma-free name exactly when it is that name's line (`abc` is not marked by `abcd,...`) |
| Transcription.OthersDoNotMark | Transcription.py:120-128 | a ledger of other comma-free names never marks the name |
| Transcription.FallbackFilter | Transcription.py:164-169 | the phone-and-time filter exists exactly when both a phone number and a time are extracted from the name, and then holds those two values, the time unchanged by the normalisation |
| Transcription.StoredIff | Transcription.py:147-180 | a transcript is stored exactly when some record has the file name, or the fallback filter exists and some record matches it |
| Transcription.FilenameMatchWins | Transcription.py:154-162 | the first record with the file name is the one updated, whatever the fallback would match |
| Transcription.StoreChangesOnlyTranscription | Transcription.py:154-177 | storing never adds or removes a record; only the target record's `transcription` changes, and with no target nothing changes |
| Transcription.StoreTranscription | Transcription.py:147-184 | the collection becomes the stored state, and the result is true exactly when a target record exists |
| Transcription.EmbedCases | Transcription.py:186-210 | an existing embedding for the name gives success with no change; otherwise one document with the name and one log line are added, or, when the model fails, nothing changes and the result is failure |
| Transcription.EmbedIdempotent | Transcription.py:192-194 | after a successful embedding, embedding the same name again changes nothing and succeeds |
| Transcription.GenerateEmbeddings | Transcription.py:186-210 | the collection, the embeddings log and the result are those of the embedding function |
| Transcription.TranscribeAudio | Transcription.py:131-145 | a transcript is only ever non-empty text of a file that exists |
| Transcription.RetryCalls | Transcription.py:224-240 | the transcriber is called once or twice, twice exactly when the first attempt yields nothing; no transcript means two calls |
| Transcription.AudioFolder.Remove | Transcription.py:267 | removing deletes exactly that file |
| Transcription.ProcessSingleFile | Transcription.py:212-269 | folder, ledger, records, embeddings and embeddings log end as the processing function says, with its result and call count |
| Transcription.SkipsLedgered | Transcription.py:218-221 | a ledgered file gives false, with no transcriber call and no change at all |
| Transcription.OneOutcomeLine | Transcription.py:242-264 | a new file gets exactly one ledger line, `success` exactly when the call succeeds; its audio is removed exactly on success |
| Transcription.SilentTranscriber | Transcription.py:224-246 | when no attempt yields text (missing file, failing service, or empty text from silent audio) transcription is attempted exactly twice; one `failed` line is written and the audio and records stay |
| Transcription.StoreFailureHalts | Transcription.py:248-253 | when no record matches, only a `failed` line is written and the embedding stage is not reached |
| Transcription.SuccessStoresAndEmbeds | Transcription.py:248-269 | on success the transcript is on the target record and an embedding with the base name exists |
| Transcription.SecondRunIsNoOp | Transcription.py:218-221 | processing a file a second time, whatever happened the first time, changes nothing |
| Llm.JsonSpan | llm.py:101 | the span exists exactly when some `}` follows a `{`; it runs from the first `{` to the last `}`, newlines included |
| Llm.JsonSpanIsGreedy | llm.py:101 | with the first `{` at i and the last `}` at j after it, the span is exactly i to j, not the first balanced object |
| Llm.ExtractJsonFromResponse | llm.py:96-110 | without a span the result is None; otherwise it is the decoding of exactly the span's text |
| Llm.AnalyzeTextWithGroq | llm.py:147-165 | the result is never empty; a reply without content, an exception, or missing or empty JSON each give an `{"error": ...}` result, and otherwise the decoded object |
| Llm.NoSpanIsInvalidJson | llm.py:156-159 | a reply with no `}` after a `{` is reported as invalid JSON |
| Llm.SavedLog | llm.py:79-85 | saving extends the log by at most one line and keeps every earlier line |
| Llm.SavedIsLoaded | llm.py:79-85 | after saving, a name without surrounding whitespace is in the set the next run loads |
| Llm.SaveIdempotent | llm.py:79-85 | saving a name twice leaves the log as after one save |
| Llm.SavePreservesDistinct | llm.py:83-85 | a log without two lines for one name never gains a second line |
| Llm.PaddedNeverLoaded | llm.py:207-214 | a name with leading or trailing whitespace is never in the loaded set |
| Llm.PaddedNameIsRepeated | llm.py:79-85 | such a name is appended on every save: saving it twice appends it twice |
| Llm.SaveProcessedLlmFile | llm.py:79-85 | the log becomes the saved log |
| Llm.Put | llm.py:242 | assigning into the result dictionary adds exactly the key; entries with other keys keep their positions, a known key keeps the size and a new key is appended last |
| Llm.PutLookup | llm.py:242 | after the assignment the key holds the new analysis and every other key holds what it held before |
| Llm.PutKeepsDistinct | llm.py:242 | the result dictionary never holds a key twice |
| Llm.RunResultsExactlyPassing | llm.py:216-245 | the result keys are exactly the file names of the documents that pass the filter (a name that is not a list or object and not in the set loaded at the start, with a transcription), each once; the log only grows |
| Llm.RunResultsLastWins | llm.py:227-245 | a passing document with no later passing namesake leaves its own analysis as the result for its name, so a repeated name holds the last analysis |
| Llm.PassedNamesAreLogged | llm.py:239-243 | every document that passes is written to the processed log, errored analyses included |
| Llm.ProcessFile | llm.py:227-245 | one document's effect on the results and the processed log is one step of the run: skipped unless it passes the filter, otherwise its analysis is put under its file name and a string name is saved to the log |
| Llm.RunAllStep | llm.py:248-254 | running over one more fetched document is one more step after the run over the ones before it |
| Llm.ProcessFolder | llm.py:216-258 | the results and the processed log are those of the run over the fetched documents with the set loaded at the start, and the records collection becomes the stored results when there are any |
| Llm.UpdateData | llm.py:185-191 | the `$set` document has exactly the keys `sentiment`, `customer_interest`, `summary`, `entities` and `date_processed` |
| Llm.ErrorsLeaveRecords | llm.py:180-183 | results that all carry `error` leave the collection untouched |
| Llm.ErrorResultSkipped | llm.py:180-183 | a result carrying `error` is skipped wherever it stands in the batch: the records are those of the batch without it |
| Llm.StoreOneResult | llm.py:185-197 | a non-error result sets the five fields on the first record the `{"filename": name}` filter matches and keeps its other fields and all other records; with no match one new record with the name is appended |
| Llm.NullNameUpdatesUnnamed | llm.py:193-197 | a `null` file name matches a record without a `filename` field, so its upsert updates a record instead of appending one |
| Llm.StoredResultsGrowth | llm.py:180-197 | the record count grows by at most the number of results and never shrinks |
| Llm.StoreResultsInMongodb | llm.py:167-205 | the collection becomes the stored results in dictionary order |
| Selenium.AfterSecondStarSome | Selenium.py:76-77 | `split("*", 2)` has a third part exactly when the text holds two `*`s |
| Selenium.AfterSecondStarIs | Selenium.py:76-78 | the third part is everything after the second `*` |
| Selenium.LogName | Selenium.py:76-80 | a line contributes exactly when its stripped text has a third part; the name has no `.` and is a prefix of that part |
| Selenium.LogNameIs | Selenium.py:76-80 | with the first two `*`s at i and j, the name is the text after j up to the first `.` |
| Selenium.NamesFromLog | Selenium.py:70-83 | at most one name per line, none holding a `.` |
| Selenium.NamesFromLogMembers | Selenium.py:70-83 | a name is returned exactly when some line of the log contributes it |
| Selenium.NamesFromLogStep | Selenium.py:75-80 | reading one more line adds that line's name, if any, at the end, so names follow line order |
| Selenium.ExtractFilenamesFromLog | Selenium.py:70-83 | the names returned are those of the temporary log's lines |
| Selenium.ScrapedTime | Selenium.py:115-118 | a call time is empty exactly when the cell is blank; otherwise it holds a space and at most eight characters |
| Selenium.ClockTime | Selenium.py:117-118 | a non-empty stripped time becomes a text holding a space and at most eight characters; an empty one stays empty |
| Selenium.ClockTimeKeeps | Selenium.py:118 | a text of the form `hh:mm AM` is its own clock time |
| Selenium.ClockTextStripped | Selenium.py:115-118 | the clock time of a stripped text of five or more characters has eight characters, a space in the middle, and no whitespace at its ends |
| Selenium.ScrapedTimeKeepsClockTime | Selenium.py:118 | a time already written `hh:mm AM` is kept as it is |
| Selenium.ScrapedTimeIdempotent | Selenium.py:118 | on a cell of five or more characters, formatting twice formats once |
| Selenium.ScrapedTimeShort | Selenium.py:118 | a one- or two-character cell is repeated on both sides of the space, as Python's slices give |
| Selenium.PhoneRow | Selenium.py:114-125 | a row gives a record exactly when the text after the link's last `/` and the stripped time are both non-empty; the record holds those and the row's timestamp |
| Selenium.Table | Selenium.py:113 | rows are paired by position, up to the shorter column |
| Selenium.PhoneData | Selenium.py:106-129 | at most one record per paired row; every record has a non-empty phone without `/`, a call time with a space, and no file name |
| Selenium.PhoneDataMembers | Selenium.py:113-125 | a record is returned exactly when a paired row gives it |
| Selenium.PhoneDataTruncates | Selenium.py:113 | phone links past the end of the time column are never read |
| Selenium.ExtractPhoneNumbers | Selenium.py:106-129 | the records returned are those of the page's rows |
| Selenium.RecordLog.Append | Selenium.py:146-153 | saving appends exactly the record to the phone-records log |
| Selenium.RecordLog.IsRecordExists | Selenium.py:155-163 | the answer is true exactly when some logged record has the same phone number and call time |
| Selenium.StoreBatch | Selenium.py:174-204 | storing never removes log entries, logs at most one entry per record and inserts at most one document per record |
| Selenium.StoreBatchStep | Selenium.py:181-204 | one more record is skipped when its call is logged, else logged and, when the insert succeeds, counted as inserted |
| Selenium.StoreBatchKeepsKeysDistinct | Selenium.py:182-204 | a log without two entries for one call never gains one, even when the batch repeats a call |
| Selenium.StoreBatchLogsEvery | Selenium.py:182-204 | after the batch every considered record's call is in the log, whether or not its insert succeeded |
| Selenium.StoreBatchInsertsOnlyNew | Selenium.py:182-195 | every inserted record was a call the log did not hold, and no call is inserted twice |
| Selenium.RecordDoc | Selenium.py:121-125 | the stored document matches the record's phone number and call time, and has a `filename` exactly when the record was named |
| Selenium.TaggedAll | Selenium.py:174-179 | naming records up to the shorter of the two lists names every position both lists have |
| Selenium.Considered | Selenium.py:174-176 | the loop considers as many records as both lists have |
| Selenium.StoreRecord | Selenium.py:181-204 | one record extends the batch by its step; the collection gains its document exactly when it is inserted |
| Selenium.NameAndStore | Selenium.py:174-206 | record i gets name i for every i both lists have; log, collection and count are those of the batch over the considered records |
| Selenium.StorePhoneRecords | Selenium.py:165-206 | with no names nothing changes; otherwise the records are named, and log, collection and count are those of the batch over the considered records |
| Selenium.LinkNameStripped | Selenium.py:239 | a link's file name is stripped, so it reads back unchanged from the download log |
| Selenium.UniqueFilesCover | Selenium.py:237-242 | every link's name has an entry, and every entry is some link's name |
| Selenium.UniqueFilesFirstLinks | Selenium.py:237-242 | each entry holds the first link with its name; entries follow page order and no name appears twice |
| Selenium.UniqueLinks | Selenium.py:237-242 | the dictionary built is the first-link list of the page's link names |
| Selenium.SelectedMembers | Selenium.py:244-246 | an entry is kept exactly when its name is not in the download log |
| Selenium.SelectedKeepsOrder | Selenium.py:244-255 | kept entries stay in order with distinct names |
| Selenium.TriggerDownloads | Selenium.py:244-258 | exactly the entries not yet downloaded are clicked, in order, and each name is appended once to both logs |
| Selenium.DownloadAllFiles | Selenium.py:225-261 | the links clicked and the lines added to the download log and to the temporary log are the selection over the page |
| Selenium.DownloadsAreFirstNewLinks | Selenium.py:225-258 | every clicked link is the first link with its name, that name is not in the download log, clicks follow page order, and no name is triggered twice |
| Selenium.SelectedFirstLinksExactlyNew | Selenium.py:237-246 | selecting from the first links keeps exactly the names not downloaded |
| Selenium.DownloadsExactlyNew | Selenium.py:225-258 | the triggered names are exactly the page's link names that are not in the download log |
| Selenium.SelectAgainSelectsNothing | Selenium.py:244-255 | once the selected stripped names are logged, selecting again selects nothing |
| Selenium.DownloadAgainTriggersNothing | Selenium.py:225-258 | a second run on the same page, after the first has logged its names, triggers nothing |
| Selenium.FallbackCallTime | Transcription.py:164-169 | the fallback filter's call time is a time taken from the name, without spaces |
| Selenium.ScrapedRecordMissesFallback | Transcription.py:164-177 | the transcription stage's phone-and-time fallback never matches a record this scraper stored, because a scraped call time always holds a space and a time from a file name never does |

## Left out

- I/O, file handles and their errors: every log is its list of lines. A missing log reads like an empty one. A failing write is not modelled.
- The scraper's browser: sign-in, filters, XPath queries, scrolling, `time.sleep`, `wait_for_downloads`, and the `main` loops with their scheduled clearing. The page is given as its link targets and time-cell texts. The links passed to `DownloadAllFiles` are those the `.mp3`/`.wav` XPath already selected.
- A link whose `href` is missing makes the source raise and stop the loop. The model takes every link target as a string.
- Concurrency: the thread pool of `process_files_parallel` and the thread per record of `process_folder`. The per-item logic is modelled sequentially, in fetch order.
- The transcriber, the embedding model and the chat model are parameters, and so is the prompt text. Embedding vectors are opaque values.
- `json.loads`, `bson.json_util.dumps` and the phone-records log's line format. The phone-records log is modelled as the records it holds, and a line that fails to decode is not modelled.
- MongoDB connections, TLS and pings. The success of an insert is the parameter `ok`, and the `_id` that `insert_one` adds to the record is not modelled.
- Clocks: `datetime.now()` values are parameters (`stamp`, `date`, `now`). Readings the source takes separately are merged: one `stamp` serves both the ledger line (Transcription.py:262-264) and the embeddings-log line (Transcription.py:205), and one `date` serves a whole batch of results, where llm.py:190 reads `datetime.today()` per result.
- The regular expressions' `\d` is modelled on ASCII digits only.
- File names containing a newline or a comma. The ledger and the logs assume names do not contain them.
- The unexpected-exception branch of `process_single_file`, which writes a `failed` line inside the `with` block and then removes the input.
- `extract_text_from_folder`, `fetch_transcriptions_from_mongodb` and `clear_all_logs`. The documents fetched are a parameter.
- Selenium.StorePhoneRecords: returns `inserted_count`, which the source only prints.
- Llm.SaveIdempotent: holds only for names without surrounding whitespace. Llm.PaddedNameIsRepeated shows that a padded name is appended on every call, because the log is loaded stripped.
- Llm.SavedIsLoaded: holds only for names without surrounding whitespace, for the same reason.
- Llm.PassedNamesAreLogged: stated for string file names without surrounding whitespace. A non-string name makes the source's write raise.
- Llm.RunResultsExactlyPassing: result keys are compared as values, so `Num(1)` and `Bool(true)` (and `Num(0)` and `Bool(false)`) are two keys, where a Python dict holds them as one entry.
