# Activity timer: countdown and activity log

A model, in Dafny, of the core of an Android countdown timer written in Python with Kivy
(`main.py`, class `TimerApp`). The user types a number of minutes and presses start. Once a second
the clock callback takes one second off, and when the time runs out the user describes the
finished activity. That description is appended to a plain-text activity log, which can be viewed
or cleared.

The core has two parts, each pulled out of the application object:

- **The countdown** (`TimerEngine.dfy`, `TimerView.dfy`). It covers the fields `time_left`,
  `timer_running` and `start_time`, and the handlers `start_timer`, `update_timer`,
  `timer_finished`, `stop_timer` and `reset_timer`. Each handler is specified by a pure step on
  `TimerState` (`StartStep`, `TickStep`, `StopStep`, `ResetStep`). `timer_finished` makes the
  same change as `stop_timer`, so both are `StopStep`. The class `Timer` holds the three fields and updates them in place, and each of its methods is proved to perform
  its step. Whole runs (a start followed by n ticks) are stated on `Ticks` and proved by
  induction. `RunClock` stands for the Kivy clock: it calls `Tick` until the callback returns
  false. `TimerView` holds the two views derived from `time_left`: the `MM:SS` text and the
  urgency band that the display colour encodes.
- **The activity log** (`ActivityLog.dfy`). The log file is an `Option<string>`: `None` while
  the file does not exist, otherwise its content. `SaveStep` and `ViewText` specify
  `save_activity` and `view_log`. The class `LogFile` holds the content; its `Save`, `Clear` (the
  `confirm_clear` handler) and `View` methods update or read it. `view_log` reads the file in
  text mode, so the view is the content with every `"\r\n"` and lone `"\r"` turned into `"\n"`
  (`Text.ReadNewlines`). A record block can be decoded back into its four fields, which shows
  that the fields appear in a fixed order and can be told apart.

`Text.dfy` models the parts of Python's string handling that the handlers rely on:
`str.isspace` and `str.strip`; `int()` applied to a text field; `str()` of an integer; the `02d`
zero padding; and the newline translation of a text-mode read. For `int()` the model covers
surrounding whitespace, an optional sign, single underscores between digits and CPython's
default limit of 4300 digits. The whitespace `int()` skips is not quite what `strip()` removes:
the separators U+001C to U+001F count as whitespace for `str.isspace`, but `int()` does not skip
them.

## Behaviour of the code worth noting

- There is no separate paused state. A stopped timer simply has `timer_running` false and
  time left.
- `start_timer` has no guard on the state. Only the disabled start button (main.py:187) stops a
  second start while the timer runs. A start always begins a fresh `minutes * 60` countdown and
  never resumes.
- `reset_timer` sets `timer_running` to false and `time_left` to 0, but it leaves `start_time`
  as it was.
- Clearing the log writes the header. After a clear, `view_log` therefore shows the header and
  not the empty-log message.
- `save_activity` reads the duration from the minutes field again at save time. It checks only
  that the field is an integer, not that it is positive.
- If `start_time` is unset when saving, the header is still written to an absent file. Formatting
  the record then raises an error, which is caught, so the save fails with the header already in
  place (`MissingStartTime`).
- `view_log` reads the file in text mode. A carriage return typed inside a description is stored
  as it is, but it is shown as a line break.

Python's `//` and `%` by 60 are floor operations. Dafny's are Euclidean. The two agree for a
positive divisor, and `time_left` is never negative (`TimerEngine.Inv`). Python integers are
unbounded, so `minutes * 60` needs no wrap-around. Decimal conversion is bounded, though: by
default CPython's `int()` refuses a text with more than 4300 digits and `str()` refuses such a
number (`Text.MaxStrDigits`). Such a minutes text is rejected like any other non-integer.

## Model

| member | source | states |
|---|---|---|
| `TimerEngine.StartStep` | main.py:174-204 | A non-integer minutes text is rejected as `NotAnInteger`, a value ≤ 0 as `NotPositive`; either leaves all three fields unchanged. Otherwise the timer runs with `time_left = minutes * 60` and `start_time = now`. The invariant is kept. |
| `TimerEngine.TickStep` | main.py:206-231 | Only while running with time left, exactly one second is taken off. Reaching 0 stops the timer in the same call. In every other case nothing changes. The return value equals `timer_running` after the call, `start_time` is untouched and the invariant is kept. |
| `TimerEngine.StopStep` | main.py:355-356 | The timer stops. `time_left` and `start_time` are kept, and the invariant is kept. `timer_finished` (main.py:230-231) makes the same change. |
| `TimerEngine.ResetStep` | main.py:375-377 | The timer stops with 0 left and `start_time` kept. The result satisfies the invariant. |
| `TimerEngine.Timer.constructor` | main.py:27-29 | The fields start as `build()` sets them: 0 left, not running, no start time. |
| `TimerEngine.Timer.Start` | main.py:174-204 | The new fields and the outcome are exactly `StartStep` of the old fields. |
| `TimerEngine.Timer.Tick` | main.py:206-228 | The new fields and the returned flag are exactly `TickStep` of the old fields. |
| `TimerEngine.Timer.Finish` | main.py:230-231 | The new fields are `StopStep` of the old ones: `timer_running` becomes false and nothing else changes. |
| `TimerEngine.Timer.Stop` | main.py:355-356 | The new fields are `StopStep` of the old ones. |
| `TimerEngine.Timer.Reset` | main.py:375-377 | The new fields are `ResetStep` of the old ones. |
| `TimerEngine.RunClock` | main.py:199-228 | The clock calls the callback until it returns false. From a running timer that takes exactly `time_left` calls and ends stopped at 0. From a stopped timer the first call returns false and changes nothing. |
| `TimerEngine.TicksWhileRunning` | main.py:206-228 | From a running timer, k ≤ `time_left` ticks take exactly k seconds off. The timer runs until the time left reaches 0. |
| `TimerEngine.TicksWhileStopped` | main.py:207-208 | A timer that is not running stays the same however often it is ticked. |
| `TimerEngine.TicksBounded` | main.py:206-228 | Ticks keep the invariant. They never increase `time_left` and take at most one second per tick. They never change `start_time` or restart a stopped timer. |
| `TimerEngine.StartThenCountDown` | main.py:182-228 | After a successful start with m minutes, m·60 ticks end stopped at 0 with the start instant kept. A further tick is a no-op that returns false. |
| `TimerEngine.StartThenWithinBounds` | main.py:182-228 | After that start, every number of ticks leaves `0 ≤ time_left ≤ m·60`. The timer is running exactly while fewer than m·60 ticks have passed. |
| `TimerEngine.StopFreezes` | main.py:355-356 | After a stop, no number of ticks changes `time_left`. |
| `TimerEngine.ResetIdempotent` | main.py:375-377 | Resetting twice gives the same state as resetting once. |
| `TimerEngine.RestartIsFresh` | main.py:182-184 | A start after a stop or a reset begins from the full m·60 and never resumes. |
| `TimerEngine.TwentyFiveMinutes` | main.py:174-184 | With the field's default text "25", 1500 ticks after start the timer is stopped at 0. |
| `TimerEngine.ZeroMinutesRefused` | main.py:176-180 | The text "0" is rejected as not positive and nothing changes. |
| `TimerView.Display` | main.py:209-211 | `MM:SS` from `t // 60` and `t % 60`. Read back, the text has two digits of seconds below 60 after the colon and at least two digits of minutes before it, and minutes·60 + seconds = t. It is five characters long for t < 6000, and from 10 minutes on it has no leading zero. Together these fix the text. |
| `TimerView.Pad2` | main.py:209-211 | The `02d` format of a number; `Pad2Value` states what it is. |
| `TimerView.Pad2Value` | main.py:211 | The `02d` field is all digits and denotes its number. It is exactly two characters below 10 and otherwise as long as the plain decimal, so from 10 on it has no leading zero. |
| `TimerView.BandOf` | main.py:214-219 | Critical iff t ≤ 60, warning iff 60 < t ≤ 300, normal iff t > 300. |
| `TimerView.BandMonotone` | main.py:214-219 | Less time left is never a calmer band. |
| `TimerView.TicksNeverCalm` | main.py:207-219 | Ticking never makes the band calmer. |
| `TimerView.FinishedView` | main.py:232-233 | The "00:00" in red that `timer_finished` writes is what the two views give for 0. |
| `Text.Strip` | main.py:390 | `strip()` is empty exactly for a blank text. Otherwise it starts and ends with a non-space. |
| `Text.StripPadded` | main.py:390 | Whitespace around a text does not change its `strip()`. |
| `Text.ShowInt` | main.py:408 | `str(n)`: a minus sign exactly for a negative n, then the digits of the magnitude. |
| `Text.ShowNatValue` | main.py:209-211 | The decimal rendering of n reads back as n. |
| `Text.ParseInt` | main.py:176 | `int()` of a text field. The lemmas below state what it accepts and returns. `ParseIntShape` states what every accepted text looks like. `ParseShowInt`, `ParseIntLeadingZeros`, `ParseIntPadded` and `ParseIntUnderscore` state texts it accepts, with their values. `ParseIntBlank`, `ParseIntDoubleUnderscore` and `SeparatorIsNoIntSpace` state texts it rejects. |
| `Text.ParseShowInt` | main.py:176 | `int(str(n)) == n` for every integer n whose `str()` succeeds, that is, with at most 4300 digits. |
| `Text.ParseIntRenderable` | main.py:397-408 | Every value `int()` returns has at most 4300 digits, so the `str()` of the duration in the record block succeeds. |
| `Text.ParseIntLeadingZeros` | main.py:176 | Leading zeros and a `+` or `-` sign are accepted: "05", "+05" and "-05" read as 5, 5 and -5, as long as all the digits, zeros included, are at most 4300. |
| `Text.ParseIntShape` | main.py:176 | Every text `int()` accepts, once its whitespace is stripped, is nonempty and ends with a digit. Each of its characters is a digit or `_`, except that the first may be a sign. |
| `Text.ParseIntUnderscore` | main.py:176 | A single underscore between digits is ignored: "1_000" reads as 1000. |
| `Text.ParseIntDoubleUnderscore` | main.py:176 | Two underscores in a row are rejected: "1__0" is not a number. |
| `Text.ParseIntPadded` | main.py:176 | `int()` ignores the whitespace it skips (that of `str.isspace` except U+001C to U+001F) around the number. |
| `Text.SeparatorIsNoIntSpace` | main.py:176 | The text "\x1c5" strips to "5", yet `int()` rejects it. |
| `Text.ReadNewlines` | main.py:434-435 | A text-mode read: the result has no carriage return, and a text without one is read unchanged. `ReadNewlinesTwoPass` fixes what becomes of each carriage return. |
| `Text.ReadNewlinesTwoPass` | main.py:434-435 | The text-mode read equals an independent two-pass reading: first every `"\r\n"` becomes `"\n"`, then every remaining `"\r"` becomes `"\n"`, position by position. |
| `Text.ReadNewlinesBlank` | main.py:434-436 | A file's content is blank exactly when its text-mode read is blank. |
| `Text.ReadNewlinesAppend` | main.py:434-435 | Reading two texts one after the other gives what reading them joined gives, unless a `"\r\n"` is split between them. |
| `Text.ParseIntBlank` | main.py:176 | A blank minutes field is never a number. |
| `ActivityLog.SaveStep` | main.py:389-426 | A blank description or a non-integer duration fails and leaves the file as it was. Otherwise the save succeeds exactly when a start time exists. Without one it fails as `MissingStartTime`, with the file holding its old content, or the header if it was absent. On success the record holds the start time, the save time, `int()` of the field and the stripped description. The new file is the old content (or the header, if the file was absent) followed by the record block. The old content always stays a prefix. |
| `ActivityLog.Existing` | main.py:400-402 | The text that is appended to: the header when the file is absent, its content otherwise. |
| `ActivityLog.ViewText` | main.py:430-437 | Absent or whitespace-only content gives the empty-log message. Any other content is shown as a text-mode read gives it, with every `"\r\n"` and lone `"\r"` turned into `"\n"`. |
| `ActivityLog.RecordBlock` | main.py:405-411 | The appended block opens with the calendar mark and closes with the rule and a blank line; `DecodeRecordBlock` reads it back. |
| `ActivityLog.DecodeRecordBlock` | main.py:405-411 | A record block with 19-character stamps and a renderable duration decodes back to its record. This shows the fixed field order: start, end, duration, description, then the rule of 40 dashes. |
| `ActivityLog.ReadRecordBlock` | main.py:405-411 | Reading a block in text mode changes only the line breaks inside the description, if the stamps hold no carriage return and the description does not end with one. |
| `ActivityLog.SavesOnlyAppend` | main.py:400-411 | Over any series of saves, the earlier content stays a prefix, and a file created by a save starts with the header. |
| `ActivityLog.HeaderNotBlank` | main.py:402 | The header is not whitespace-only. |
| `ActivityLog.ClearThenView` | main.py:516-517 | After a clear, the view shows the header, which differs from the empty-log message. |
| `ActivityLog.SaveThenView` | main.py:404-437 | After a successful save, the view is the text-mode read of the old content, followed by the new block. That block decodes to the saved record, with the line breaks of its description turned into `"\n"`. |
| `ActivityLog.SessionIsRecorded` | main.py:182-408 | Start with m minutes, let the countdown run out, then save with the same minutes text. The save succeeds, with the start instant, the save instant, m and the stripped description. |
| `ActivityLog.LogFile.constructor` | main.py:30 | The model starts from the file as found: absent or with content. |
| `ActivityLog.LogFile.Save` | main.py:389-426 | The new content and the outcome are exactly `SaveStep` of the old content. |
| `ActivityLog.LogFile.Clear` | main.py:514-517 | The content becomes exactly the header, whatever it was. |
| `ActivityLog.LogFile.View` | main.py:428-437 | Returns `ViewText` of the content (the text-mode read, or the empty-log message) and changes nothing. |

## Left out

- The Kivy layout, popups, buttons and labels, and the `status_label` messages. The three
  display colours are represented by the `Band` values only.
- The `input_filter='int'` of the minutes field (main.py:58), which lets only digits be typed.
  The model accepts any minutes text. The texts the field can produce are digit strings, which
  may have leading zeros (`ParseIntLeadingZeros`) but no whitespace or sign.
- The enabled and disabled flags of the buttons and the read-only flag of the minutes field.
  They are the only thing that stops a start while running, or a save before the timer has
  finished. Without them the handlers do what the model says.
- Notifications (plyer), the ringtone and vibration (jnius), permission requests,
  `minimize_to_background`, `on_resume`, the `is_in_background` flag and
  `update_background_notification`. These are platform side effects. The notification text uses
  the same `MM:SS` as `TimerView.Display`.
- Kivy's `Clock.schedule_interval` and `Clock.unschedule`. `RunClock` covers one uninterrupted
  run. Button presses between ticks are sequences of the step functions. A second
  `schedule_interval` from a repeated start, which would tick twice a second, is not modelled.
- `datetime.now()` and `strftime`. Instants are passed in as already-rendered strings.
  `DecodeRecord` assumes the 19-character `YYYY-MM-DD HH:MM:SS` form, which has no carriage return.
- Real file I/O and its failures: `open` raising, and the read error that `view_log` reports.
  The file is an `Option<string>` value.
- `Text.ParseInt`: digits from Unicode scripts other than ASCII, which Python's `int()` also
  accepts, are not modelled and are rejected. The digit limit is fixed at CPython's default of
  4300; `sys.set_int_max_str_digits` and `PYTHONINTMAXSTRDIGITS` can change it, and Python
  releases before 3.11 (and before the matching security releases) have no limit.
- Writing in text mode translates `"\n"` to the platform's line separator. On Android that is
  `"\n"` itself, so the written text is modelled unchanged.
- The text of the big display is not a field of the model. Only its derivation from
  `time_left` (`Display`, `BandOf`) is modelled, and the reset handler's "00:00" in the normal
  colour is left out with the widgets.
