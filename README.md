# timerBeetle, modelled in Dafny

timerBeetle is a terminal countdown timer. It reads a duration from its command-line
arguments, counts it down once per second while redrawing one status line, lets the
user pause and resume with the space bar, and sounds an alarm at zero. This project
models its two parts with real logic:

- `duration.dfy`, module `DurationParser`, models `parseTimeInSecs`. The argument tokens
  are joined with no separator. An all-digit expression is a count of minutes.
  Anything else is lower-cased and must be one to four `<digits><d|h|m|s>`
  components, with spaces allowed between and after them. Each component adds
  `amount × 86400 | 3600 | 60 | 1` seconds, and a repeated unit is an error. The
  three `sys.exit(1)` paths become the variants `MissingInput`, `BadInput` and
  `RepeatedUnits` of a `Result`.
  - The anchored regular expression is a hand-written recogniser, `Scan`. It is proved
    sound and complete against `Render`, which generates every text the grammar
    allows from a list of components and space runs.
  - The loop that joins the arguments (`Concat`) and the walk over the matched
    groups with the four `got…` flags (`Accumulate`) are methods. Each is proved
    equal to a specification function.
- `display.dfy`, module `Display`, models the status line. It is a pure function of
  the remaining seconds `secsIn`:
  - the `divmod` split into days, hours, minutes and seconds;
  - the four layouts `>99:HH:MM:SS`, `DD:HH:MM:SS`, `HH:MM:SS` and `MM:SS`;
  - the `#` padding;
  - the two-frame mascot, chosen by the parity of `secsIn`.

  A line is a sequence of text and escape segments. The ANSI escapes are opaque
  constants, and `Visible` gives what the terminal shows.
- `countdown.dfy`, module `Countdown`, models the `while secsIn:` loop of `main` as the
  method `Run`. Its key input is a finite trace of per-iteration events: `Idle` (the
  poll found nothing) or `Key(c)` (one key was read). A space pauses; the blocking
  wait for the resuming space is modelled on its own by `WaitForResume`. The loop
  is proved equal to the function `Ticks`. That function lists the values of
  `secsIn` at which a line is drawn, and terminates on the measure (pauses left in
  the trace, `secsIn`). `Timer` puts the parser and the loop together.

Two details of the code that the model follows:

- **Pause and resume.** The comment at timerBeetle.py:261 suggests that the pause
  branch only gives 2 seconds back. The code then falls through to
  `time.sleep(1); secsIn -= 1` (timerBeetle.py:262-265). So an iteration that
  pauses changes `secsIn` by +1 in all, and `Ticks` and `RunSteps` say so.
- **Day field.** The day count is zero-padded to two digits like the other fields
  (timerBeetle.py:183).

The model's integers are unbounded, so nothing here wraps around; the one bound
Python puts on reading digits is listed under "## Left out".

Digits are ASCII, lower-casing is ASCII, and the end of the input is the strict end
of the string.

## Model

| member | source | states |
|---|---|---|
| `DurationParser.ParseTimeInSecs` | timerBeetle.py:48-141 | The parser's result is `Parse(args)`: no tokens gives `MissingInput`, all digits gives minutes × 60, otherwise the grammar and the unit rule apply |
| `DurationParser.Concat` | timerBeetle.py:67-71 | The loop yields the tokens joined with no separator |
| `DurationParser.Accumulate` | timerBeetle.py:105-141 | The flag walk returns `RepeatedUnits` exactly when some unit occurs twice, and otherwise the sum of amount × scale over all components |
| `DurationParser.ScanSound` | timerBeetle.py:79-82 | Whatever the recogniser returns spells the input back exactly: the components, then their trailing spaces, and nothing else |
| `DurationParser.ScanComplete` | timerBeetle.py:79-82 | Every text made of components and space runs is recognised as exactly those components and space runs |
| `DurationParser.ScanPieceComplete` | timerBeetle.py:79-82 | A digit run, a unit letter and a space run, followed by nothing or a digit, is read as one component with that gap |
| `DurationParser.RecogniseSound` | timerBeetle.py:79-82 | An accepted text is one to four components, starting at position 0, with only spaces between and after them |
| `DurationParser.RecogniseComplete` | timerBeetle.py:79-82 | Every such text of one to four components is accepted, and the match yields its components |
| `DurationParser.RecogniseRejects` | timerBeetle.py:79-82 | The match fails exactly when no list of one to four components renders the text (a fifth component included) |
| `DurationParser.LowerKeepsDigits` | timerBeetle.py:74-78 | Lower-casing neither creates nor removes an all-digit expression |
| `DurationParser.DistinctByCount` | timerBeetle.py:84-125 | No unit repeats exactly when there are as many distinct units as components |
| `DurationParser.SumPermutation` | timerBeetle.py:105-125 | The total of the components does not depend on their order |
| `DurationParser.TotalPermutation` | timerBeetle.py:105-139 | Neither the total nor the repeated-unit error depends on component order |
| `DurationParser.MissingInputIffNoArgs` | timerBeetle.py:52-66 | `MissingInput` is returned exactly when there are no tokens |
| `DurationParser.ParseJoins` | timerBeetle.py:67-71 | Several tokens parse as their concatenation given as one token |
| `DurationParser.ParseMinutes` | timerBeetle.py:73-75 | An all-digit expression yields its value × 60 |
| `DurationParser.ParseIgnoresCase` | timerBeetle.py:77-78 | An expression parses like its lower-cased form, so `1H30M` is read as `1h30m` |
| `DurationParser.ParseBadInputIff` | timerBeetle.py:77-103 | A non-digit expression is `BadInput` exactly when its lower-cased form is not one to four components |
| `DurationParser.ParseComponents` | timerBeetle.py:105-141 | A well-formed expression yields the sum of amount × scale when its units are distinct, and `RepeatedUnits` when one repeats |
| `DurationParser.ParseOrderIndependent` | timerBeetle.py:105-125 | Two well-formed expressions with the same components in any order parse alike |
| `DurationParser.ParseSingle` | timerBeetle.py:114-125 | One component is worth its amount times 86400, 3600, 60 or 1 |
| `DurationParser.ParseTwo` | timerBeetle.py:79-139 | Two components with different units, each followed by any run of spaces, are worth the sum of their seconds |
| `DurationParser.ParseRepeated` | timerBeetle.py:105-139 | Two components with the same unit are `RepeatedUnits`, whatever their amounts and spacing |
| `DurationParser.ParseFour` | timerBeetle.py:79-139 | Four components with four different units are worth the sum of their seconds |
| `DurationParser.ParseTooMany` | timerBeetle.py:79-103 | More than four components are `BadInput`, even when no unit repeats |
| `DurationParser.ExampleMinutes` | timerBeetle.py:40 | `25` gives 1500 seconds |
| `DurationParser.ExampleZero` | timerBeetle.py:73-75 | `0` gives 0 seconds |
| `DurationParser.ExampleSplitMinutes` | timerBeetle.py:67-75 | The tokens `1` `30` give 130 minutes, 7800 seconds |
| `DurationParser.ExampleEmpty` | timerBeetle.py:73-103 | An empty expression is not digits, fails the grammar and is `BadInput` |
| `DurationParser.ExampleMinutesWithUnit` | timerBeetle.py:41 | `23m` gives 1380 seconds |
| `DurationParser.ExampleHours` | timerBeetle.py:42 | `2h` gives 7200 seconds |
| `DurationParser.ExampleSeconds` | timerBeetle.py:43 | `6s` gives 6 seconds |
| `DurationParser.ExampleDay` | timerBeetle.py:44 | `1d` gives 86400 seconds |
| `DurationParser.ExampleFullExpression` | timerBeetle.py:46 | `1d12h30m30s` gives 131430 seconds |
| `DurationParser.ExampleHourAndHalf` | timerBeetle.py:79-125 | `1h30m` gives 5400 seconds |
| `DurationParser.ExampleQuotedHourAndHalf` | timerBeetle.py:45 | The documented `1h 30m`, one token with a space inside, gives 5400 seconds |
| `DurationParser.ExampleReordered` | timerBeetle.py:105-125 | `30m1h` gives 5400 seconds, like `1h30m` |
| `DurationParser.ExampleSeparateTokens` | timerBeetle.py:67-71 | The tokens `1h` `30m` give 5400 seconds, like `1h30m` |
| `DurationParser.ExampleSpaced` | timerBeetle.py:79-82 | `1h 30m ` (spaces between and after) gives 5400 seconds |
| `DurationParser.ExampleUpperCase` | timerBeetle.py:78 | `1H30M` gives 5400 seconds, like `1h30m` |
| `DurationParser.ExampleRepeatedUnit` | timerBeetle.py:114-139 | `1h1h` is `RepeatedUnits` and not 7200 |
| `DurationParser.ExampleNotAnExpression` | timerBeetle.py:89-103 | `abc` and ` 1h` (leading space) are `BadInput` |
| `DurationParser.ExampleFiveComponents` | timerBeetle.py:79-103 | `1d1h1m1s1s` has five components and is `BadInput`, not `RepeatedUnits` |
| `Display.Split` | timerBeetle.py:165-167 | secs < 60, mins < 60 and hrs < 24, and days × 86400 + hrs × 3600 + mins × 60 + secs recombines to `secsIn` |
| `Display.SplitUnique` | timerBeetle.py:165-167 | Every in-range reading is the split of the seconds it stands for |
| `Display.LayoutByRange` | timerBeetle.py:172-198 | The layout is `>99` days from 100 days up, days from 1 day, hours from 1 hour, else minutes and seconds |
| `Display.Pad2` | timerBeetle.py:177-196 | A field below 100 is exactly two decimal digits that read back as the value |
| `Display.ReadMinutesSeconds` | timerBeetle.py:196 | Two padded fields joined by `:` read back as minutes × 60 + seconds |
| `Display.ReadHoursMinutesSeconds` | timerBeetle.py:177 | Three padded fields joined by `:` read back as hours × 3600 + minutes × 60 + seconds |
| `Display.ReadDaysHoursMinutesSeconds` | timerBeetle.py:183-184 | Four padded fields joined by `:` read back as days × 86400 + hours × 3600 + minutes × 60 + seconds |
| `Display.ClockFieldsRoundTrip` | timerBeetle.py:172-198 | Every in-range reading below 100 days reads back from the layout chosen for it as the seconds it stands for |
| `Display.DaysRoundTrip` | timerBeetle.py:180-186 | The `DD:HH:MM:SS` layout reads back as the seconds it stands for |
| `Display.HoursRoundTrip` | timerBeetle.py:187-192 | The `HH:MM:SS` layout reads back as the seconds it stands for |
| `Display.MinutesRoundTrip` | timerBeetle.py:193-198 | The `MM:SS` layout reads back as the seconds it stands for |
| `Display.ClockRoundTrip` | timerBeetle.py:164-198 | Below 100 days, the clock text reads back as exactly the remaining seconds |
| `Display.ClockFieldsBeyondNinetyNineDays` | timerBeetle.py:173-179 | With more than 99 days, the clock is `>99:` followed by a `HH:MM:SS` that reads back as the hours, minutes and seconds |
| `Display.ClockBeyondNinetyNineDays` | timerBeetle.py:164-179 | From 100 days up, the clock shows `>99:` followed by `HH:MM:SS` of the seconds left over after whole days |
| `Display.ClockTextWidth` | timerBeetle.py:172-198 | In every layout, the clock and its `#` padding are 23 characters together |
| `Display.TimePartWidth` | timerBeetle.py:172-198 | In every layout, the visible text before the mascot is 25 characters wide |
| `Display.MascotFrameVisible` | timerBeetle.py:199-232 | A mascot frame shows `<edge><eye>w<eye><edge>` and then the pause hint |
| `Display.MascotAlternates` | timerBeetle.py:199-232 | The frame is `/>w>/` on even seconds and `\<w<\` on odd ones: it differs from one second to the next and repeats every two |
| `Display.DisplayLineWidth` | timerBeetle.py:172-232 | The visible status line is 50 characters wide for every remaining time, as the comment at line 174 intends |
| `Countdown.Run` | timerBeetle.py:164-265 | The loop draws `DisplayLine(secsIn)` once for each value in `Ticks(start, keys)`, in order, and ends with `secsIn` at 0 |
| `Countdown.WaitForResume` | timerBeetle.py:259-260 | The wait reads keys up to and including the first space, and no further |
| `Countdown.Timer` | timerBeetle.py:152-265 | A parse error is returned as is; otherwise the loop runs from the parsed seconds |
| `Countdown.RunWithoutPauses` | timerBeetle.py:164-265 | Without a space key, N runs exactly N iterations drawing N, N-1, …, 1; N = 0 runs none |
| `Countdown.RunSteps` | timerBeetle.py:236-265 | Each iteration changes `secsIn` by exactly +1 on a space and -1 otherwise; no zero or negative value is drawn; the loop stops exactly at 0 |
| `Countdown.RunLength` | timerBeetle.py:164-265 | The number of iterations is the start value plus 2 for every pause actually taken |

## Left out

- Terminal mode handling is not modelled. This covers `termios.tcgetattr`/`tcsetattr`, `tty.setcbreak`, and the restore that sits in the `finally` clause (timerBeetle.py:159-161, 266-267). It is operating-system I/O.
- `gotInput`'s `select.select` poll and the `sys.stdin.read(1)` calls are replaced by the key trace. Each iteration takes one event from it, and when the trace is used up no key is pressed.
- `Countdown.Run` treats a space as a pause that is always resumed. The keys typed during the wait are not in its trace.
- `WaitForResume` models the wait loop alone, over a stream that contains a space. On end of input `read` returns `''` forever and the program never resumes; the model does not cover that case.
- `time.sleep`, `time.strftime`, and the `aplay`/`notify-send` subprocesses at completion are not modelled. They are wall-clock time and external processes.
- Output plumbing is not modelled: `print` with `'\r'`, the pause message (timerBeetle.py:241-258) and the completion message.
- Asset path construction from `sys.path[0]` is not modelled.
- Error messages and their emoticons are not modelled. Each error is a `ParseError` variant, and the exit status 1 is implied.
- `DurationParser.ParseText` reads digit strings of any length. The `int()` calls at timerBeetle.py:75 and :111 raise `ValueError` on more than 4300 digits in CPython releases that enforce the default `int_max_str_digits` (3.11 and later, and the 3.10.7, 3.9.14 and 3.8.14 security releases), ending the program with a traceback and exit status 1. The model returns the value instead, because the limit depends on the interpreter version and its configuration. `DurationParser.ParseMinutes`, `DurationParser.Accumulate` and `DurationParser.ParseTimeInSecs` inherit this.
- `Display.Pad2` requires a value below 100. The program only formats fields in that range: days only when at most 99, hours below 24, minutes and seconds below 60. `'{:02d}'` would widen larger values, and the model does not cover that.
- Python's `str.isdigit` and `\d` also accept non-ASCII digits, and `$` also matches before a trailing newline. The model uses ASCII digits and the strict end of string.
- `str.lower` is modelled as ASCII lower-casing. No non-ASCII character lower-cases to a unit letter or a digit, so acceptance is the same.
- A terminal that cannot enter cbreak mode, and read errors during a poll or during the pause wait, are not modelled. The code does not handle them; they end the program with a traceback.
