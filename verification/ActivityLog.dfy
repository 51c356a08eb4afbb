/**
 * The activity log file of main.py, modelled as its content: None while the
 * file does not exist, Some(text) once it does. save_activity appends one
 * record block (writing the header first if the file is absent), the
 * confirmation of clear_log overwrites the file with the header alone, and
 * view_log shows the content as read in text mode, or a fixed message when
 * there is none.
 */
module ActivityLog {
  import opened Wrappers
  import opened Text
  import opened TimerEngine

  /** What a new or cleared log file holds. */
  const Header: string := "=== ЖУРНАЛ АКТИВНОСТИ ===\n\n"

  /** What view_log shows instead of an absent or blank file. */
  const EmptyLogMessage: string := "Журнал пуст.\nЗапустите таймер для создания записей."

  /** The length of a timestamp rendered with "%Y-%m-%d %H:%M:%S" (years 1000 to 9999). */
  const StampWidth: nat := 19

  // The fixed text around the four fields of a record block.
  const CalendarMark: string := "\U{1F4C5} "
  const Arrow: string := " \U{2192} "
  const DurationLabel: string := "\n\U{23F1}\U{FE0F} Длительность: "
  const ActivityLabel: string := " мин\n\U{1F4DD} Активность: "
  const Rule: string := Repeat('-', 40)
  const Tail: string := "\n" + Rule + "\n\n"

  /** One completed session, in the order its block lists the fields. */
  datatype Record = Record(start: Timestamp, end: Timestamp, minutes: int, activity: string)

  /** The text save_activity appends for one record: it opens with the calendar mark and closes with the rule and a blank line. */
  function RecordBlock(r: Record): (b: string)
    ensures |Tail| <= |b| && CalendarMark <= b && b[|b| - |Tail|..] == Tail
  {
    CalendarMark + r.start + Arrow + r.end + DurationLabel + ShowInt(r.minutes) + ActivityLabel + r.activity + Tail
  }

  /** The file content before an append: the header is written first when the file is absent. */
  function Existing(file: Option<string>): (c: string)
    ensures file.None? ==> c == Header
    ensures file.Some? ==> c == file.value
  {
    match file
    case None => Header
    case Some(content) => content
  }

  // ---------------------------------------------------------------------------
  // Reading a record block back

  function StripPrefix(p: string, s: string): Option<string> {
    if |p| <= |s| && s[..|p|] == p then Some(s[|p|..]) else None
  }

  function StripSuffix(p: string, s: string): Option<string> {
    if |p| <= |s| && s[|s| - |p|..] == p then Some(s[..|s| - |p|]) else None
  }

  function SplitAt(s: string, n: nat): Option<(string, string)> {
    if n <= |s| then Some((s[..n], s[n..])) else None
  }

  /** The index of the first space, or the length when there is none. */
  function FirstSpace(s: string): (i: nat)
    ensures i <= |s| && (i < |s| ==> s[i] == ' ')
    ensures forall k :: 0 <= k < i ==> s[k] != ' '
  {
    if s == [] || s[0] == ' ' then 0 else 1 + FirstSpace(s[1..])
  }

  /**
   * Recovers the four fields from a record block whose timestamps have the
   * usual width: the duration is the number before the first space after
   * its label, the activity everything between its label and the rule.
   */
  function DecodeRecord(block: string): Option<Record> {
    var afterMark :- StripPrefix(CalendarMark, block);
    var start :- SplitAt(afterMark, StampWidth);
    var afterArrow :- StripPrefix(Arrow, start.1);
    var end :- SplitAt(afterArrow, StampWidth);
    var afterLabel :- StripPrefix(DurationLabel, end.1);
    var fields :- DecodeFields(afterLabel);
    Some(Record(start.0, end.0, fields.0, fields.1))
  }

  /** The duration and the activity, from the text that follows the duration label. */
  function DecodeFields(afterLabel: string): Option<(int, string)> {
    var body :- StripSuffix(Tail, afterLabel);
    var j := FirstSpace(body);
    var activity :- StripPrefix(ActivityLabel, body[j..]);
    var minutes :- ParseInt(body[..j]);
    Some((minutes, activity))
  }

  lemma StripPrefixOf(p: string, s: string)
    ensures StripPrefix(p, p + s) == Some(s)
  {
    assert (p + s)[..|p|] == p;
    assert (p + s)[|p|..] == s;
  }

  lemma StripSuffixOf(s: string, p: string)
    ensures StripSuffix(p, s + p) == Some(s)
  {
    assert (s + p)[|s|..] == p;
    assert (s + p)[..|s|] == s;
  }

  lemma SplitAtOf(a: string, b: string)
    ensures SplitAt(a + b, |a|) == Some((a, b))
  {
    assert (a + b)[..|a|] == a;
    assert (a + b)[|a|..] == b;
  }

  /** The rendered duration has no space in it, so the first space is the one after it. */
  lemma FirstSpaceAfterNumber(n: int, rest: string)
    requires rest != [] && rest[0] == ' '
    ensures FirstSpace(ShowInt(n) + rest) == |ShowInt(n)|
  {
    var d := ShowInt(n);
    var s := d + rest;
    forall k | 0 <= k < |d| ensures s[k] != ' ' {
      if n < 0 && k > 0 {
        assert d[k] == d[1..][k - 1];
      }
    }
    assert s[|d|] == ' ';
  }

  lemma DecodeFieldsOf(minutes: int, activity: string)
    requires Renderable(minutes)
    ensures DecodeFields(ShowInt(minutes) + ActivityLabel + activity + Tail) == Some((minutes, activity))
  {
    var d := ShowInt(minutes);
    var rest := ActivityLabel + activity;
    assert d + ActivityLabel + activity == d + rest;
    StripSuffixOf(d + rest, Tail);
    FirstSpaceAfterNumber(minutes, rest);
    SplitAtOf(d, rest);
    StripPrefixOf(ActivityLabel, activity);
    ParseShowInt(minutes);
    DecodeFieldsSteps(d + rest + Tail, d + rest, |d|, activity, minutes);
  }

  /** DecodeFields, one step at a time: each step's result given, the fields follow. */
  lemma DecodeFieldsSteps(afterLabel: string, body: string, j: nat, activity: string, minutes: int)
    requires StripSuffix(Tail, afterLabel) == Some(body)
    requires FirstSpace(body) == j
    requires StripPrefix(ActivityLabel, body[j..]) == Some(activity)
    requires ParseInt(body[..j]) == Some(minutes)
    ensures DecodeFields(afterLabel) == Some((minutes, activity))
  {
  }

  /** The block, grouped from the right: the fixed head, then what follows the duration label. */
  lemma BlockShape(r: Record)
    ensures RecordBlock(r) ==
      CalendarMark + (r.start + (Arrow + (r.end + (DurationLabel + (ShowInt(r.minutes) + ActivityLabel + r.activity + Tail)))))
  {
    var d := ShowInt(r.minutes);
    var p := CalendarMark + r.start + Arrow + r.end + DurationLabel;
    ConcatAssoc(p, d, ActivityLabel);
    ConcatAssoc(p, d + ActivityLabel, r.activity);
    ConcatAssoc(p, d + ActivityLabel + r.activity, Tail);
    var x := d + ActivityLabel + r.activity + Tail;
    ConcatAssoc(CalendarMark + r.start + Arrow + r.end, DurationLabel, x);
    ConcatAssoc(CalendarMark + r.start + Arrow, r.end, DurationLabel + x);
    ConcatAssoc(CalendarMark + r.start, Arrow, r.end + (DurationLabel + x));
    ConcatAssoc(CalendarMark, r.start, Arrow + (r.end + (DurationLabel + x)));
  }

  lemma DecodeHead(start: Timestamp, end: Timestamp, afterLabel: string)
    requires |start| == StampWidth && |end| == StampWidth
    ensures DecodeRecord(CalendarMark + (start + (Arrow + (end + (DurationLabel + afterLabel))))) ==
      match DecodeFields(afterLabel)
      case None => None
      case Some(fields) => Some(Record(start, end, fields.0, fields.1))
  {
    var end1 := DurationLabel + afterLabel;
    var afterArrow := end + end1;
    var start1 := Arrow + afterArrow;
    var afterMark := start + start1;
    StripPrefixOf(CalendarMark, afterMark);
    SplitAtOf(start, start1);
    StripPrefixOf(Arrow, afterArrow);
    SplitAtOf(end, end1);
    StripPrefixOf(DurationLabel, afterLabel);
  }

  /** A record block, read back, gives the record: the four fields appear in their fixed order and can be told apart. */
  lemma DecodeRecordBlock(r: Record)
    requires |r.start| == StampWidth && |r.end| == StampWidth && Renderable(r.minutes)
    ensures DecodeRecord(RecordBlock(r)) == Some(r)
  {
    BlockShape(r);
    DecodeHead(r.start, r.end, ShowInt(r.minutes) + ActivityLabel + r.activity + Tail);
    DecodeFieldsOf(r.minutes, r.activity);
  }

  // ---------------------------------------------------------------------------
  // The three operations on the file content

  /** How save_activity ends. */
  datatype SaveOutcome =
    | Saved(record: Record)
    | EmptyActivity      // the stripped description is empty: nothing is written
    | BadDuration        // int() on the minutes field raised ValueError: nothing is written
    | MissingStartTime   // no start instant to format: the append raises after the header step

  datatype SaveResult = SaveResult(file: Option<string>, outcome: SaveOutcome)

  /**
   * save_activity: the description is stripped and must not be empty; the
   * duration is read again from the minutes field with int(); the header is
   * written if the file is absent; then the record block is appended.
   */
  function SaveStep(file: Option<string>, activityText: string, durationText: string,
                    startTime: Option<Timestamp>, now: Timestamp): (r: SaveResult)
    ensures r.outcome.Saved? <==> !IsBlank(activityText) && ParseInt(durationText).Some? && startTime.Some?
    ensures IsBlank(activityText) ==> r == SaveResult(file, EmptyActivity)
    ensures !IsBlank(activityText) && ParseInt(durationText).None? ==> r == SaveResult(file, BadDuration)
    ensures r.outcome.Saved? ==>
      r.outcome.record == Record(startTime.value, now, ParseInt(durationText).value, Strip(activityText)) &&
      r.file == Some(Existing(file) + RecordBlock(r.outcome.record))
    ensures !IsBlank(activityText) && ParseInt(durationText).Some? && startTime.None? ==>
      r == SaveResult(Some(Existing(file)), MissingStartTime)
    ensures file.Some? ==> r.file.Some? && file.value <= r.file.value
    ensures file.None? && r.file.Some? ==> Header <= r.file.value
  {
    var activity := Strip(activityText);
    if activity == [] then SaveResult(file, EmptyActivity)
    else
      match ParseInt(durationText)
      case None => SaveResult(file, BadDuration)
      case Some(minutes) =>
        match startTime
        case None => SaveResult(Some(Existing(file)), MissingStartTime)
        case Some(start) =>
          var record := Record(start, now, minutes, activity);
          SaveResult(Some(Existing(file) + RecordBlock(record)), Saved(record))
  }

  /**
   * view_log's choice of text: the fixed message when the file is absent or
   * holds only whitespace, otherwise the content as a text-mode read gives it,
   * with every line break turned into "\n".
   */
  function ViewText(file: Option<string>): (text: string)
    ensures file.None? ==> text == EmptyLogMessage
    ensures file.Some? && IsBlank(file.value) ==> text == EmptyLogMessage
    ensures file.Some? && !IsBlank(file.value) ==> text == ReadNewlines(file.value)
  {
    match file
    case None => EmptyLogMessage
    case Some(content) =>
      var read := ReadNewlines(content);
      ReadNewlinesBlank(content);
      if Strip(read) == [] then EmptyLogMessage else read
  }

  /** One press of the save button, with the texts and instants it reads. */
  datatype SaveRequest = SaveRequest(activityText: string, durationText: string,
                                     startTime: Option<Timestamp>, now: Timestamp)

  /** The file after a series of saves with no clear in between. */
  function SaveAll(file: Option<string>, requests: seq<SaveRequest>): Option<string>
    decreases |requests|
  {
    if requests == [] then file
    else
      var q := requests[0];
      SaveAll(SaveStep(file, q.activityText, q.durationText, q.startTime, q.now).file, requests[1..])
  }

  // ---------------------------------------------------------------------------
  // Properties of the log

  /** Between clears the log only grows at the end: what was there stays a prefix, and a new file starts with the header. */
  lemma {:induction false} SavesOnlyAppend(file: Option<string>, requests: seq<SaveRequest>)
    ensures file.Some? ==> SaveAll(file, requests).Some? && file.value <= SaveAll(file, requests).value
    ensures file.None? && SaveAll(file, requests).Some? ==> Header <= SaveAll(file, requests).value
    decreases |requests|
  {
    if requests != [] {
      var q := requests[0];
      var next := SaveStep(file, q.activityText, q.durationText, q.startTime, q.now).file;
      SavesOnlyAppend(next, requests[1..]);
    }
  }

  lemma HeaderNotBlank()
    ensures !IsBlank(Header)
  {
    assert !IsSpace(Header[0]);
  }

  /** After a clear the view shows the header itself, not the empty-log message. */
  lemma ClearThenView()
    ensures ViewText(Some(Header)) == Header && Header != EmptyLogMessage
  {
    HeaderNotBlank();
    assert '\r' !in Header;
    assert |Header| != |EmptyLogMessage|;
  }

  /**
   * A saved block read in text mode: only the line breaks inside the
   * description can change, since the fixed text and the stamps have no "\r".
   */
  lemma ReadRecordBlock(r: Record)
    requires '\r' !in r.start && '\r' !in r.end
    requires r.activity == [] || r.activity[|r.activity| - 1] != '\r'
    ensures ReadNewlines(RecordBlock(r)) == RecordBlock(r.(activity := ReadNewlines(r.activity)))
  {
    var d := ShowInt(r.minutes);
    assert '\r' !in d;
    var head := CalendarMark + r.start + Arrow + r.end + DurationLabel + d + ActivityLabel;
    assert '\r' !in head;
    assert '\r' !in Tail;
    var front := head + r.activity;
    assert front[|front| - 1] != '\r' by {
      if r.activity == [] {
        assert front[|front| - 1] == head[|head| - 1];
      } else {
        assert front[|front| - 1] == r.activity[|r.activity| - 1];
      }
    }
    ReadNewlinesAppend(front, Tail);
    ReadNewlinesAppend(head, r.activity);
  }

  /**
   * After a successful save the view shows the whole file read in text mode;
   * it ends with the new block, which reads back as the saved record with the
   * line breaks of its description turned into "\n".
   */
  lemma SaveThenView(file: Option<string>, activityText: string, durationText: string,
                     start: Timestamp, now: Timestamp)
    requires !IsBlank(activityText) && ParseInt(durationText).Some?
    requires |start| == StampWidth && |now| == StampWidth && '\r' !in start && '\r' !in now
    ensures var r := SaveStep(file, activityText, durationText, Some(start), now);
            var text := ViewText(r.file);
            var shown := Record(start, now, ParseInt(durationText).value, ReadNewlines(Strip(activityText)));
            r.outcome.Saved? && text == ReadNewlines(Existing(file)) + RecordBlock(shown) &&
            DecodeRecord(text[|text| - |RecordBlock(shown)|..]) == Some(shown)
  {
    var activity := Strip(activityText);
    StrippedEnds(activityText);
    ParseIntRenderable(durationText);
    var record := Record(start, now, ParseInt(durationText).value, activity);
    ViewAfterAppend(Existing(file), record);
    var r := SaveStep(file, activityText, durationText, Some(start), now);
    assert r.outcome == Saved(record) && r.file == Some(Existing(file) + RecordBlock(record));
  }

  /** A stripped description does not end with a carriage return. */
  lemma StrippedEnds(text: string)
    requires !IsBlank(text)
    ensures Strip(text) != [] && Strip(text)[|Strip(text)| - 1] != '\r'
  {
  }

  /** The view of a file that ends with a record block: the block, read in text mode, comes last and decodes. */
  lemma ViewAfterAppend(existing: string, record: Record)
    requires |record.start| == StampWidth && |record.end| == StampWidth && Renderable(record.minutes)
    requires '\r' !in record.start && '\r' !in record.end
    requires record.activity != [] && record.activity[|record.activity| - 1] != '\r'
    ensures var text := ViewText(Some(existing + RecordBlock(record)));
            var shown := RecordBlock(record.(activity := ReadNewlines(record.activity)));
            text == ReadNewlines(existing) + shown && DecodeRecord(text[|text| - |shown|..]) == Some(record.(activity := ReadNewlines(record.activity)))
  {
    var block := RecordBlock(record);
    var whole := existing + block;
    assert !IsSpace(block[0]) && block[0] != '\n';
    assert whole[|existing|] == block[0];
    ReadNewlinesAppend(existing, block);
    ReadRecordBlock(record);
    var shown := record.(activity := ReadNewlines(record.activity));
    var text := ReadNewlines(existing) + RecordBlock(shown);
    assert text[|text| - |RecordBlock(shown)|..] == RecordBlock(shown);
    DecodeRecordBlock(shown);
  }

  /**
   * One whole session: start for m minutes, let the clock run out, then
   * save with the minutes field unchanged. The record carries the start
   * instant, the save instant, m and the stripped description.
   */
  lemma SessionIsRecorded(file: Option<string>, s: TimerState, minutesText: string, m: int,
                          started: Timestamp, activityText: string, now: Timestamp)
    requires ParseInt(minutesText) == Some(m) && m > 0 && !IsBlank(activityText)
    ensures var finished := Ticks(StartStep(s, minutesText, started).next, m * 60);
            var r := SaveStep(file, activityText, minutesText, finished.startTime, now);
            r.outcome == Saved(Record(started, now, m, Strip(activityText)))
  {
    StartThenCountDown(s, minutesText, started, m);
  }

  // ---------------------------------------------------------------------------
  // The file itself

  /** The log file, rewritten in place by the save and clear handlers. */
  class LogFile {
    var content: Option<string>

    /** The file as found on start-up (absent on a fresh install). */
    constructor (found: Option<string>)
      ensures content == found
    {
      content := found;
    }

    /** save_activity(instance), with the two text fields, start_time and datetime.now(). */
    method Save(activityText: string, durationText: string, startTime: Option<Timestamp>, now: Timestamp)
      returns (outcome: SaveOutcome)
      modifies this
      ensures SaveStep(old(content), activityText, durationText, startTime, now) == SaveResult(content, outcome)
    {
      ghost var before := content;
      var activity := Strip(activityText);
      if activity == [] {
        return EmptyActivity;
      }
      var duration := ParseInt(durationText);
      if duration.None? {
        return BadDuration;
      }
      if content.None? {
        content := Some(Header);
      }
      assert content == Some(Existing(before));
      if startTime.None? {
        return MissingStartTime;
      }
      var record := Record(startTime.value, now, duration.value, activity);
      content := Some(content.value + RecordBlock(record));
      outcome := Saved(record);
    }

    /** confirm_clear inside clear_log: the file is overwritten with the header alone, whatever it held. */
    method Clear()
      modifies this
      ensures content == Some(Header)
    {
      content := Some(Header);
    }

    /** view_log(instance): the text the popup shows; the file is only read. */
    method View() returns (text: string)
      ensures text == ViewText(content)
    {
      if content.None? {
        text := EmptyLogMessage;
      } else {
        text := ReadNewlines(content.value);
        if Strip(text) == [] {
          text := EmptyLogMessage;
        }
      }
    }
  }
}
