/**
 * The filename side of the artifact matcher (Transcription.py): the
 * phone number and call time read out of a recording's name, the
 * normalisation of that time, and the base name of a recording.
 *
 * The two regular expressions are modelled by position predicates
 * (PhoneAt, TimeAt) that are proved to hold exactly where the pattern
 * text occurs; `re.search` is the leftmost such position.
 */
module Matcher {
  import opened Wrappers
  import opened Strings

  /** w occurs in s starting at position k. */
  predicate Occurs(s: string, k: nat, w: string) {
    k + |w| <= |s| && s[k..k + |w|] == w
  }

  lemma OccursSplit(s: string, k: nat, a: string, b: string)
    ensures Occurs(s, k, a + b) <==> Occurs(s, k, a) && Occurs(s, k + |a|, b)
  {
    if Occurs(s, k, a) && Occurs(s, k + |a|, b) {
      assert s[k..k + |a + b|] == s[k..k + |a|] + s[k + |a|..k + |a| + |b|];
    }
    if Occurs(s, k, a + b) {
      assert s[k..k + |a|] == (a + b)[..|a|];
      assert s[k + |a|..k + |a| + |b|] == (a + b)[|a|..];
    }
  }

  // ---- extract_phone_number: re.search(r'_(\d{10})_', filename) ----

  /** `_`, ten ASCII digits and `_` start at position i. */
  predicate PhoneAt(s: string, i: nat) {
    i + 12 <= |s| && s[i] == '_' && DigitsOnly(s[i + 1..i + 11]) && s[i + 11] == '_'
  }

  /** The leftmost match at or after k. */
  function FirstPhoneFrom(s: string, k: nat): (r: Option<nat>)
    ensures r.Some? ==> k <= r.value && PhoneAt(s, r.value)
    ensures r.Some? ==> forall j: nat :: k <= j < r.value ==> !PhoneAt(s, j)
    ensures r.None? ==> forall j: nat :: k <= j ==> !PhoneAt(s, j)
    decreases |s| - k
  {
    if |s| < k + 12 then None
    else if PhoneAt(s, k) then Some(k)
    else FirstPhoneFrom(s, k + 1)
  }

  /** `extract_phone_number`: the ten digits of the leftmost `_dddddddddd_`, else None. */
  function ExtractPhoneNumber(filename: string): (r: Option<string>)
    ensures r.Some? <==> exists i: nat :: PhoneAt(filename, i)
    ensures r.Some? ==> |r.value| == 10 && DigitsOnly(r.value)
    ensures r.Some? ==>
      exists i: nat :: PhoneAt(filename, i) && filename[i + 1..i + 11] == r.value &&
        forall j: nat :: j < i ==> !PhoneAt(filename, j)
  {
    match FirstPhoneFrom(filename, 0)
    case None => None
    case Some(i) => Some(filename[i + 1..i + 11])
  }

  /** A run of eleven digits between underscores never yields a phone number. */
  lemma ElevenDigitsNeverMatch(prefix: string, digits: string, suffix: string)
    requires |digits| == 11 && DigitsOnly(digits) && '_' !in prefix && '_' !in suffix
    ensures ExtractPhoneNumber(prefix + "_" + digits + "_" + suffix) == None
  {
    var s := prefix + "_" + digits + "_" + suffix;
    var p := |prefix|;
    forall j: nat
      ensures !PhoneAt(s, j)
    {
      if j < p {
        assert s[j] == prefix[j];
      } else if j == p {
        if p + 12 <= |s| {
          assert s[p + 11] == digits[10];
        }
      } else if j <= p + 11 {
        assert s[j] == digits[j - p - 1];
      } else if j == p + 12 {
        if j + 12 <= |s| {
          assert s[j + 11] == suffix[10];
        }
      } else if j < |s| {
        assert s[j] == suffix[j - p - 13];
      }
    }
  }

  // ---- extract_time_from_filename:
  //      re.search(r'_\d{4}-\d{1,2}-\d{1,2}-(\d{1,2})-(\d{1,2})-\d{1,2}_', filename) ----

  /** The six numeric fields of a `_YYYY-M-D-h-m-s_` group. */
  datatype TimeFields = TimeFields(year: string, month: string, day: string, hour: string, minute: string, second: string)

  function Fields(f: TimeFields): seq<string> {
    [f.year, f.month, f.day, f.hour, f.minute, f.second]
  }

  predicate DigitGroup(g: string, lo: nat, hi: nat) {
    lo <= |g| <= hi && DigitsOnly(g)
  }

  /** One `\d{lo,hi}` of the pattern and the character that follows it. */
  datatype FieldSpec = FieldSpec(lo: nat, hi: nat, sep: char)

  /** The pattern after its leading `_`: year, month, day, hour, minute, second. */
  const TimePattern: seq<FieldSpec> := [
    FieldSpec(4, 4, '-'), FieldSpec(1, 2, '-'), FieldSpec(1, 2, '-'),
    FieldSpec(1, 2, '-'), FieldSpec(1, 2, '-'), FieldSpec(1, 2, '_')
  ]

  /** gs has one field per spec, each of a length the spec allows. */
  predicate Fits(gs: seq<string>, specs: seq<FieldSpec>) {
    |gs| == |specs| && forall j :: 0 <= j < |gs| ==> DigitGroup(gs[j], specs[j].lo, specs[j].hi)
  }

  predicate SeparatorsNotDigits(specs: seq<FieldSpec>) {
    forall j :: 0 <= j < |specs| ==> !IsDigit(specs[j].sep)
  }

  /** The field lengths the pattern allows: a four-digit year, one or two digits elsewhere. */
  predicate WellShaped(f: TimeFields) {
    && DigitGroup(f.year, 4, 4) && DigitGroup(f.month, 1, 2) && DigitGroup(f.day, 1, 2)
    && DigitGroup(f.hour, 1, 2) && DigitGroup(f.minute, 1, 2) && DigitGroup(f.second, 1, 2)
  }

  lemma WellShapedFits(f: TimeFields)
    ensures WellShaped(f) <==> Fits(Fields(f), TimePattern)
  {
    var gs := Fields(f);
    if Fits(gs, TimePattern) {
      assert DigitGroup(gs[0], 4, 4) && DigitGroup(gs[1], 1, 2) && DigitGroup(gs[2], 1, 2);
      assert DigitGroup(gs[3], 1, 2) && DigitGroup(gs[4], 1, 2) && DigitGroup(gs[5], 1, 2);
    }
  }

  /** The fields written out, each followed by its separator. */
  function Rendered(gs: seq<string>, specs: seq<FieldSpec>): string
    requires |gs| == |specs|
  {
    if gs == [] then [] else gs[0] + [specs[0].sep] + Rendered(gs[1..], specs[1..])
  }

  /** The text the pattern matches when its fields are f. */
  function Render(f: TimeFields): string {
    "_" + Rendered(Fields(f), TimePattern)
  }

  /** End of the run of ASCII digits that starts at k. */
  function DigitRunEnd(s: string, k: nat): (e: nat)
    requires k <= |s|
    ensures k <= e <= |s| && DigitsOnly(s[k..e]) && (e == |s| || !IsDigit(s[e]))
    decreases |s| - k
  {
    if k < |s| && IsDigit(s[k]) then DigitRunEnd(s, k + 1) else k
  }

  lemma {:induction false} DigitRunEndAt(s: string, k: nat, e: nat)
    requires k <= e <= |s| && DigitsOnly(s[k..e]) && (e == |s| || !IsDigit(s[e]))
    ensures DigitRunEnd(s, k) == e
    decreases e - k
  {
    if k < e {
      assert IsDigit(s[k..e][0]);
      assert s[k + 1..e] == s[k..e][1..];
      DigitRunEndAt(s, k + 1, e);
    }
  }

  /** A field read at k: its digits and the position after its separator. */
  datatype Field = Field(text: string, next: nat)

  /**
   * `\d{lo,hi}` then sep at k. Digit runs are greedy and backtracking
   * cannot help because sep is not a digit, so the field is the whole
   * digit run at k.
   */
  function FieldAt(s: string, k: nat, lo: nat, hi: nat, sep: char): (r: Option<Field>)
    requires k <= |s|
    ensures r.Some? ==> DigitGroup(r.value.text, lo, hi) && r.value.next == k + |r.value.text| + 1
    ensures r.Some? ==> Occurs(s, k, r.value.text + [sep])
  {
    var e := DigitRunEnd(s, k);
    if lo <= e - k <= hi && e < |s| && s[e] == sep then
      assert s[k..e + 1] == s[k..e] + [sep];
      Some(Field(s[k..e], e + 1))
    else None
  }

  lemma FieldAtOccurs(s: string, k: nat, g: string, sep: char, lo: nat, hi: nat)
    requires k <= |s| && DigitGroup(g, lo, hi) && !IsDigit(sep) && Occurs(s, k, g + [sep])
    ensures FieldAt(s, k, lo, hi, sep) == Some(Field(g, k + |g| + 1))
  {
    OccursSplit(s, k, g, [sep]);
    assert s[k + |g|] == sep;
    DigitRunEndAt(s, k, k + |g|);
  }

  /** The fields of specs read one after the other from k. */
  function FieldsAt(s: string, k: nat, specs: seq<FieldSpec>): (r: Option<seq<string>>)
    requires k <= |s|
    ensures r.Some? ==> |r.value| == |specs|
    decreases |specs|
  {
    if specs == [] then Some([])
    else
      var fld :- FieldAt(s, k, specs[0].lo, specs[0].hi, specs[0].sep);
      var more :- FieldsAt(s, fld.next, specs[1..]);
      Some([fld.text] + more)
  }

  lemma {:induction false} FieldsAtSound(s: string, k: nat, specs: seq<FieldSpec>)
    requires k <= |s| && FieldsAt(s, k, specs).Some?
    ensures Fits(FieldsAt(s, k, specs).value, specs)
    ensures Occurs(s, k, Rendered(FieldsAt(s, k, specs).value, specs))
    decreases |specs|
  {
    if specs != [] {
      var sp := specs[0];
      var fld := FieldAt(s, k, sp.lo, sp.hi, sp.sep).value;
      var gs := FieldsAt(s, k, specs).value;
      var more := FieldsAt(s, fld.next, specs[1..]).value;
      assert gs == [fld.text] + more;
      assert Fits(more, specs[1..]) && Occurs(s, fld.next, Rendered(more, specs[1..])) by {
        FieldsAtSound(s, fld.next, specs[1..]);
      }
      assert gs[1..] == more;
      assert Rendered(gs, specs) == (fld.text + [sp.sep]) + Rendered(more, specs[1..]);
      assert Occurs(s, k, Rendered(gs, specs)) by {
        OccursSplit(s, k, fld.text + [sp.sep], Rendered(more, specs[1..]));
      }
      assert Fits(gs, specs) by {
        forall j | 1 <= j < |gs| ensures DigitGroup(gs[j], specs[j].lo, specs[j].hi) {
          assert gs[j] == more[j - 1];
        }
      }
    }
  }

  lemma {:induction false} FieldsAtComplete(s: string, k: nat, specs: seq<FieldSpec>, gs: seq<string>)
    requires k <= |s| && SeparatorsNotDigits(specs) && Fits(gs, specs)
    requires Occurs(s, k, Rendered(gs, specs))
    ensures FieldsAt(s, k, specs) == Some(gs)
    decreases |specs|
  {
    if specs != [] {
      var sp := specs[0];
      var next := k + |gs[0]| + 1;
      assert Rendered(gs, specs) == (gs[0] + [sp.sep]) + Rendered(gs[1..], specs[1..]);
      assert Occurs(s, k, gs[0] + [sp.sep]) && Occurs(s, next, Rendered(gs[1..], specs[1..])) by {
        OccursSplit(s, k, gs[0] + [sp.sep], Rendered(gs[1..], specs[1..]));
      }
      assert FieldAt(s, k, sp.lo, sp.hi, sp.sep) == Some(Field(gs[0], next)) by {
        assert DigitGroup(gs[0], specs[0].lo, specs[0].hi);
        assert !IsDigit(specs[0].sep);
        FieldAtOccurs(s, k, gs[0], sp.sep, sp.lo, sp.hi);
      }
      assert FieldsAt(s, next, specs[1..]) == Some(gs[1..]) by {
        assert Fits(gs[1..], specs[1..]) by {
          forall j | 0 <= j < |gs| - 1 ensures DigitGroup(gs[1..][j], specs[1..][j].lo, specs[1..][j].hi) {
            assert gs[1..][j] == gs[j + 1];
          }
        }
        assert SeparatorsNotDigits(specs[1..]) by {
          forall j | 0 <= j < |specs| - 1 ensures !IsDigit(specs[1..][j].sep) {
            assert specs[1..][j] == specs[j + 1];
          }
        }
        FieldsAtComplete(s, next, specs[1..], gs[1..]);
      }
      assert gs == [gs[0]] + gs[1..];
    }
  }

  /** The pattern's match at position i, if it matches there. */
  function TimeAt(s: string, i: nat): Option<TimeFields> {
    if i < |s| && s[i] == '_' then
      var gs :- FieldsAt(s, i + 1, TimePattern);
      Some(TimeFields(gs[0], gs[1], gs[2], gs[3], gs[4], gs[5]))
    else None
  }

  /** Whatever TimeAt reports is a well-shaped occurrence of the pattern at i. */
  lemma TimeAtSound(s: string, i: nat)
    requires TimeAt(s, i).Some?
    ensures WellShaped(TimeAt(s, i).value) && Occurs(s, i, Render(TimeAt(s, i).value))
  {
    var f := TimeAt(s, i).value;
    var gs := FieldsAt(s, i + 1, TimePattern).value;
    FieldsAtSound(s, i + 1, TimePattern);
    assert Fields(f) == gs;
    WellShapedFits(f);
    assert Occurs(s, i, "_");
    OccursSplit(s, i, "_", Rendered(gs, TimePattern));
  }

  /** Every well-shaped occurrence of the pattern at i is found by TimeAt. */
  lemma TimeAtComplete(s: string, i: nat, f: TimeFields)
    requires WellShaped(f) && Occurs(s, i, Render(f))
    ensures TimeAt(s, i) == Some(f)
  {
    OccursSplit(s, i, "_", Rendered(Fields(f), TimePattern));
    assert s[i] == "_"[0];
    WellShapedFits(f);
    FieldsAtComplete(s, i + 1, TimePattern, Fields(f));
  }

  /** The least position in k..n-1 where at reports a match, with that match. */
  function Leftmost<T>(at: nat -> Option<T>, k: nat, n: nat): (r: Option<(nat, T)>)
    ensures r.Some? ==> k <= r.value.0 < n && at(r.value.0) == Some(r.value.1)
    ensures r.Some? ==> forall j: nat :: k <= j < r.value.0 ==> at(j).None?
    ensures r.None? ==> forall j: nat :: k <= j < n ==> at(j).None?
    decreases n - k
  {
    if n <= k then None
    else
      match at(k)
      case Some(x) => Some((k, x))
      case None => Leftmost(at, k + 1, n)
  }

  /** `re.search` for the time pattern: the leftmost match, with its position. */
  function FirstTime(s: string): (r: Option<(nat, TimeFields)>)
    ensures r.Some? ==> TimeAt(s, r.value.0) == Some(r.value.1)
    ensures r.Some? ==> forall j: nat :: j < r.value.0 ==> TimeAt(s, j).None?
    ensures r.None? ==> forall j: nat :: TimeAt(s, j).None?
  {
    var at := (i: nat) => TimeAt(s, i);
    var r := Leftmost(at, 0, |s|);
    assert forall j: nat :: at(j) == TimeAt(s, j);
    assert forall j: nat :: |s| <= j ==> TimeAt(s, j).None?;
    r
  }

  /** `f"{int(hour)}"`: the hour's decimal value, so a leading zero is dropped. */
  function HourText(hour: string): string
    requires DigitsOnly(hour)
  {
    DecimalString(DigitsValue(hour))
  }

  /** `extract_time_from_filename`: `"<hour>:<minute>"` from the leftmost `_YYYY-M-D-h-m-s_`, else None. */
  function ExtractTimeFromFilename(filename: string): (r: Option<string>)
    ensures r.Some? <==> exists i: nat :: TimeAt(filename, i).Some?
  {
    match FirstTime(filename)
    case None => None
    case Some((i, f)) =>
      TimeAtSound(filename, i);
      Some(HourText(f.hour) + ":" + f.minute)
  }

  /**
   * The result is built from the leftmost match: the hour as a decimal
   * number (`07` gives `7`) and the minute exactly as written (`5` stays `5`).
   */
  lemma ExtractTimeFromLeftmost(filename: string, i: nat, f: TimeFields)
    requires WellShaped(f) && Occurs(filename, i, Render(f))
    requires forall j: nat :: j < i ==> TimeAt(filename, j).None?
    ensures ExtractTimeFromFilename(filename) ==
      Some((if |f.hour| == 2 && f.hour[0] == '0' then f.hour[1..] else f.hour) + ":" + f.minute)
  {
    TimeAtComplete(filename, i, f);
    var r := FirstTime(filename);
    assert r == Some((i, f));
    RenderSmallNumber(f.hour);
  }

  lemma DigitsNoSpace(s: string)
    requires DigitsOnly(s)
    ensures NoSpace(s)
  {
    forall k | 0 <= k < |s| ensures !IsSpace(s[k]) {
      VisibleNotSpace(s[k]);
    }
  }

  lemma NoSpaceJoin(a: string, b: string)
    requires NoSpace(a) && NoSpace(b)
    ensures NoSpace(a + b)
  {
    forall k | 0 <= k < |a + b| ensures !IsSpace((a + b)[k]) {
      if k < |a| {
        assert (a + b)[k] == a[k];
      } else {
        assert (a + b)[k] == b[k - |a|];
      }
    }
  }

  /** `"<hour>:<minute>"` built from digit fields has no whitespace and contains `:`. */
  lemma TimeTextShape(hour: string, minute: string)
    requires DigitsOnly(hour) && DigitsOnly(minute)
    ensures NoSpace(HourText(hour) + ":" + minute) && ':' in HourText(hour) + ":" + minute
  {
    var h := HourText(hour);
    DigitsNoSpace(h);
    DigitsNoSpace(minute);
    VisibleNotSpace(':');
    NoSpaceJoin(h, ":");
    NoSpaceJoin(h + ":", minute);
    assert (h + ":" + minute)[|h|] == ':';
  }

  /** A time read from a filename has no whitespace and contains `:`. */
  lemma ExtractedTimeShape(filename: string)
    requires ExtractTimeFromFilename(filename).Some?
    ensures NoSpace(ExtractTimeFromFilename(filename).value)
    ensures ':' in ExtractTimeFromFilename(filename).value
  {
    var (i, f) := FirstTime(filename).value;
    TimeAtSound(filename, i);
    TimeTextShape(f.hour, f.minute);
  }

  // ---- convert_time_to_mongo_format ----

  /**
   * `convert_time_to_mongo_format`: two whitespace-separated words are
   * re-joined with one space, a single word containing `:` is kept, and
   * anything else is rejected (None).
   */
  function ConvertTimeToMongoFormat(timeText: string): (r: Option<string>)
    ensures r.Some? <==> var words := SplitWs(Strip(timeText)); |words| == 2 || (|words| == 1 && ':' in words[0])
    ensures r.Some? ==> SplitWs(r.value) == SplitWs(Strip(timeText))
    ensures var words := SplitWs(Strip(timeText)); |words| == 2 ==> r == Some(words[0] + " " + words[1])
  {
    var words := SplitWs(Strip(timeText));
    if JoinWords(words).Some? then JoinWordsSplits(words); JoinWords(words) else None
  }

  /** The words of a time re-joined: two words with one space, one word only if it holds `:`. */
  function JoinWords(words: seq<string>): (r: Option<string>)
    ensures r.Some? <==> |words| == 2 || (|words| == 1 && ':' in words[0])
  {
    if |words| == 2 then Some(words[0] + " " + words[1])
    else if |words| == 1 && ':' in words[0] then Some(words[0])
    else None
  }

  /** Splitting the re-joined text gives back the words it was made of. */
  lemma JoinWordsSplits(words: seq<string>)
    requires Words(words) && JoinWords(words).Some?
    ensures SplitWs(JoinWords(words).value) == words
  {
    if |words| == 2 {
      TwoWords(words);
    } else {
      OneWord(words);
    }
  }

  lemma TwoWords(words: seq<string>)
    requires Words(words) && |words| == 2
    ensures SplitWs(words[0] + " " + words[1]) == words
  {
    var a, b := words[0], words[1];
    assert words == [a, b];
    SplitTwoWords(a, b);
  }

  lemma OneWord(words: seq<string>)
    requires Words(words) && |words| == 1
    ensures SplitWs(words[0]) == words
  {
    var a := words[0];
    assert words == [a];
    SplitWord(a);
  }

  /** Two words joined by one space have no whitespace at their ends. */
  lemma JoinedIsStripped(a: string, b: string)
    requires a != [] && NoSpace(a) && b != [] && NoSpace(b)
    ensures Strip(a + " " + b) == a + " " + b
  {
    var j := a + " " + b;
    assert j[0] == a[0];
    assert j[|j| - 1] == b[|b| - 1];
    StripOfTrimmed(j);
  }

  /** Normalising an already normalised time changes nothing. */
  lemma ConvertIdempotent(timeText: string)
    requires ConvertTimeToMongoFormat(timeText).Some?
    ensures ConvertTimeToMongoFormat(ConvertTimeToMongoFormat(timeText).value) == ConvertTimeToMongoFormat(timeText)
  {
    var words := SplitWs(Strip(timeText));
    if |words| == 2 {
      JoinedIsStripped(words[0], words[1]);
    } else {
      StripNoSpace(words[0]);
    }
  }

  /** Every time `extract_time_from_filename` produces passes through the normalisation unchanged. */
  lemma ConvertKeepsFilenameTime(filename: string)
    requires ExtractTimeFromFilename(filename).Some?
    ensures ConvertTimeToMongoFormat(ExtractTimeFromFilename(filename).value) == ExtractTimeFromFilename(filename)
  {
    ExtractedTimeShape(filename);
    ConvertKeepsWord(ExtractTimeFromFilename(filename).value);
  }

  /** A single word containing `:` is already in the stored format. */
  lemma ConvertKeepsWord(t: string)
    requires NoSpace(t) && ':' in t
    ensures ConvertTimeToMongoFormat(t) == Some(t)
  {
    StrippedWord(t);
    ConvertOneWord(t);
  }

  lemma StrippedWord(t: string)
    requires t != [] && NoSpace(t)
    ensures SplitWs(Strip(t)) == [t]
  {
    StripNoSpace(t);
    SplitWord(t);
  }

  lemma ConvertOneWord(t: string)
    requires SplitWs(Strip(t)) == [t] && ':' in t
    ensures ConvertTimeToMongoFormat(t) == Some(t)
  {
  }

  // ---- os.path.splitext(audio_file)[0] ----

  predicate AllDots(s: string) {
    forall k :: 0 <= k < |s| ==> s[k] == '.'
  }

  /**
   * `os.path.splitext(name)[0]` for a directory entry: the name without
   * its last `.extension`, unless every character before that dot is a
   * dot (as in `.wav` or `..mp3`), in which case nothing is removed.
   */
  function BaseName(name: string): (r: string)
    ensures r <= name
  {
    match LastIndexOf(name, '.')
    case None => name
    case Some(i) => if AllDots(name[..i]) then name else name[..i]
  }

  lemma BaseNameOfRecording(stem: string, ext: string)
    requires '.' !in ext && !AllDots(stem)
    ensures BaseName(stem + "." + ext) == stem
  {
    var name := stem + "." + ext;
    assert name[|stem|] == '.';
    assert name[|stem| + 1..] == ext;
    var i := LastIndexOf(name, '.').value;
    assert i == |stem|;
    assert name[..i] == stem;
  }

  // ---- the recording-name convention ----

  /** A recording's name: `<prefix>_<ten digits>_<YYYY-M-D-h-m-s>_<suffix>`. */
  function RecordingName(prefix: string, phone: string, f: TimeFields, suffix: string): string {
    prefix + "_" + phone + Render(f) + suffix
  }

  lemma RecordingNameLayout(prefix: string, phone: string, f: TimeFields, suffix: string)
    requires |phone| == 10
    ensures var name := RecordingName(prefix, phone, f, suffix);
      && name[|prefix|] == '_' && name[|prefix| + 1..|prefix| + 11] == phone
      && Occurs(name, |prefix| + 11, Render(f)) && name[|prefix| + 11] == '_'
      && (forall j :: 0 <= j < |prefix| ==> name[j] == prefix[j])
      && (forall j :: |prefix| < j < |prefix| + 11 ==> name[j] == phone[j - |prefix| - 1])
  {
    var name := RecordingName(prefix, phone, f, suffix);
    var p := |prefix|;
    var r := Render(f);
    assert name == prefix + "_" + phone + r + suffix;
    assert name[p + 11..p + 11 + |r|] == r;
    assert r[0] == '_';
  }

  /** The phone number of a conventionally named recording is its ten digits. */
  lemma RecordingNamePhone(prefix: string, phone: string, f: TimeFields, suffix: string)
    requires '_' !in prefix && |phone| == 10 && DigitsOnly(phone)
    ensures ExtractPhoneNumber(RecordingName(prefix, phone, f, suffix)) == Some(phone)
  {
    var name := RecordingName(prefix, phone, f, suffix);
    var p := |prefix|;
    RecordingNameLayout(prefix, phone, f, suffix);
    assert PhoneAt(name, p);
    forall j: nat | j < p ensures !PhoneAt(name, j) {
      assert name[j] == prefix[j];
    }
    var r := FirstPhoneFrom(name, 0);
    assert r == Some(p);
  }

  /** The phone digits right after the prefix do not start a time match. */
  lemma PhoneIsNotTime(name: string, p: nat, phone: string)
    requires p + 12 <= |name| && |phone| == 10 && DigitsOnly(phone)
    requires name[p + 1..p + 11] == phone && name[p + 11] == '_'
    ensures TimeAt(name, p).None?
  {
    DigitRunEndAt(name, p + 1, p + 11);
  }

  /** The call time of a conventionally named recording comes from its time group. */
  lemma RecordingNameTime(prefix: string, phone: string, f: TimeFields, suffix: string)
    requires '_' !in prefix && |phone| == 10 && DigitsOnly(phone) && WellShaped(f)
    ensures ExtractTimeFromFilename(RecordingName(prefix, phone, f, suffix)) ==
      Some((if |f.hour| == 2 && f.hour[0] == '0' then f.hour[1..] else f.hour) + ":" + f.minute)
  {
    var name := RecordingName(prefix, phone, f, suffix);
    var p := |prefix|;
    RecordingNameLayout(prefix, phone, f, suffix);
    forall j: nat | j < p + 11 ensures TimeAt(name, j).None? {
      if j < p {
        assert name[j] == prefix[j];
      } else if j == p {
        PhoneIsNotTime(name, p, phone);
      } else {
        assert name[j] == phone[j - p - 1];
      }
    }
    ExtractTimeFromLeftmost(name, p + 11, f);
  }
}
