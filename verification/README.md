# Regularity-test calculator, modelled in Dafny

The regularity-test (RT) calculator reads a rally route typed as text, one
line per entry, and produces a table with one row per waypoint.

An input line can be:

- a distance in kilometres;
- a distance and a speed in km/h, separated by commas, spaces or tabs;
- `...`, which opens an RT section;
- `===`, which closes an RT section.

Each row holds:

- the waypoint's distance in kilometres and in miles;
- the distance from the previous waypoint;
- inside a section, the waypoint's speed and the seconds elapsed since the
  section's first waypoint.

A missing speed inside a section is carried over from the last waypoint seen
inside a section, which may be in an earlier section; it is 0 if there is
none.
Errors go to a single banner that shows the most recent message.

The model covers the whole computing part of `index.js`.

`Numbers` is JavaScript's number: a finite real, or NaN for every non-finite
value.

`Digits`, `Text` and `Decimal` cover the library behaviour the parser relies on:

- `split` on a character;
- `trim`;
- `split` on the run pattern `[, \t]+`;
- `parseFloat`;
- the decimal rendering of an integer.

The other modules follow the program itself:

- `Records` holds the values that move between the stages: `CodeRecord`,
  error messages and `RTData` rows.
- `Parser` is the line classifier of `parseInput`, and the split/filter/trim
  pipeline around it.
- `Reporting` is the global `isError` flag and the banner, as a class whose
  methods update them in place.
- `Calculator` is `calculateData`. It is specified by a pure scan (`Run`,
  `Scan`) and implemented as the source's loop over an array of records; that
  loop overwrites missing speeds in place and reports through the banner.
- `TimeFormat` is `secondsToTimeString`.
- `Pipeline` is `parseInput` end to end.

Two behaviours of the code are worth stating plainly:

- A line made only of whitespace is not dropped (index.js:50-51). It has
  length greater than 0 when the filter runs, so it survives the filter,
  trims to the empty string and becomes an `Ignore` record that takes up a
  line index.
- Section markers do not reset the previous distance (index.js:161-179 and
  203). The first row after `...` has its `deltaKm` measured from the last
  waypoint before the marker.

## Model

| member | source | states |
|---|---|---|
| Text.SplitOn | index.js:49 | Splitting on `\n` yields at least one piece, and no piece contains the separator |
| Text.JoinSplitOn | index.js:49 | Splitting on a character loses nothing: joining the pieces with that character gives the text back |
| Text.SplitOnJoin | index.js:49 | Joining pieces free of the character and splitting again gives exactly those pieces (the inverse direction) |
| Text.TrimStartShape | index.js:51 | The leading cut of `trim` removes only whitespace, keeps a suffix of the line, and what it keeps starts with non-whitespace |
| Text.TrimEndShape | index.js:51 | The trailing cut of `trim` removes only whitespace, keeps a prefix, and what it keeps ends with non-whitespace |
| Text.Trim | index.js:51 | `line.trim()` is the slice of the line between two all-whitespace margins, and it neither starts nor ends with whitespace |
| Text.TrimEmptyIffWhite | index.js:51-53 | A line trims to `''` exactly when every character of it is JavaScript whitespace |
| Text.SplitFields | index.js:80 | `split(/[, \t]+/)` yields at least one field, no field contains a comma, space or tab, and a leading separator yields an empty first field |
| Text.SplitFieldsInterleave | index.js:80 | Splitting fields glued with non-empty separator runs gives back exactly those fields, provided no inner field is empty |
| Digits.Show | index.js:232-234 | `toString` of a natural number is a non-empty digit string with no leading zero, of length 1 exactly below 10 |
| Digits.ValueOfShow | index.js:232-234 | Reading the decimal rendering of n back gives n |
| Digits.DigitPrefixOf | index.js:84 | The longest digit prefix of digits followed by a non-digit is exactly those digits |
| Decimal.ParseFloat | index.js:84 | `parseFloat` is finite exactly when, after leading whitespace and an optional sign, the text starts with a digit, or with a point and a digit |
| Decimal.ParseFloatInteger | index.js:84 | An optionally negative integer followed by a character that cannot continue a number parses to that integer (e.g. `12km` gives 12) |
| Decimal.ParseFloatFraction | index.js:100 | `a.fs` parses to a plus the decimal fraction fs |
| Parser.ClassifyLine | index.js:52-131 | `''` gives an `Ignore` record, `...` a `Start` and `===` an `End`, and each of these records comes only from that text. A non-error record carries its line index, and so does every message. The line is an error record exactly when it reports the cannot-parse-text message, and then reports only that. A distance message is reported exactly when the record is a waypoint with a NaN distance, and a speed message only for a waypoint with a NaN speed. Blank and marker lines report nothing |
| Parser.ClassifySingleField | index.js:83-97 | A line without separators that is neither blank nor a marker gives exactly a waypoint with the parsed distance and no speed. It reports the cannot-parse-distance message when that distance is NaN, and nothing otherwise |
| Parser.ClassifyTwoFields | index.js:99-120 | Two fields around a separator run give exactly a waypoint with the parsed distance and the parsed speed. It reports the distance message if the distance is NaN, then the speed message if the speed is NaN, and nothing else |
| Parser.ClassifyTooManyFields | index.js:123-130 | Three or more fields make an error record with exactly one message, which names the line |
| Parser.ClassifyDistance | index.js:83-97 | The decimal text of a natural number n is a waypoint at n km without speed, and reports nothing |
| Parser.NonEmpty | index.js:50 | The filter keeps no more lines than it is given, and every line it keeps has length greater than 0 |
| Parser.NonEmptyCounts | index.js:50 | Every non-empty line is kept exactly as often as it occurs, so the filter's output has the input's length minus the number of empty lines |
| Parser.NonEmptyFrom | index.js:50 | Every line the filter keeps is a line of its input: the filter adds and changes nothing |
| Parser.Retained | index.js:48-51 | The classifier receives as many lines as the text has raw lines of length greater than 0 |
| Parser.ParseLines | index.js:52-131 | The `.map` gives exactly one record per retained line |
| Parser.ParseLinesPointwise | index.js:52 | One record per retained line, in order. Record i is the classification of line i with index i, so record indices are consecutive from 0 |
| Parser.ParseErrorsInOrder | index.js:52-131 | The parse reports exactly the messages its lines report, in line order. Every message a line reports (a malformed line, a distance or speed that is NaN) is among them, and each of them names a line of the input and is a message that line reports |
| Parser.ParseErrorsComplete | index.js:83-127 | No message of a line is lost: every message the classifier reports for line i is among the parse's messages |
| Parser.ParseErrorsSound | index.js:52-131 | The parse invents no message: each of its messages names a line of the input and is reported by that line's classification |
| Parser.NonEmptyPrefix | index.js:50 | The filter keeps order: filtering a prefix of the lines gives a prefix of the filtered lines |
| Parser.RetainedLine | index.js:48-51 | A raw line of length greater than 0 reaches the classifier trimmed, at the position given by the number of such lines before it |
| Parser.WhitespaceLineIgnored | index.js:50-60 | A raw line made only of whitespace survives the filter and becomes an `Ignore` record at its own index |
| Records.LastOf | index.js:259-268 | The banner's message after a series of reports is one of them (the last), and there is none exactly when nothing was reported |
| Reporting.Reporter.constructor | index.js:7 | The program starts with `isError` false and no message on display |
| Reporting.Reporter.Begin | index.js:45 | A parse begins by clearing `isError`; the banner is left as it was |
| Reporting.Reporter.Report | index.js:259-264 | `updateError(message)` followed by `isError = true`: the message is appended to the pass's reports, and the banner shows it |
| Reporting.Reporter.HideIfNoError | index.js:221-223 | Hiding the banner when `isError` is false leaves it showing exactly the last report of the pass, or nothing when there was none |
| Calculator.StepKinds | index.js:157-216 | Each pass of the loop body: blank lines and error records change nothing, only a waypoint emits a row (exactly one), and only a marker reports |
| Calculator.StartMarker | index.js:161-170 | `...` opens a section, marks the next waypoint as the first, and resets the clock. It keeps the previous distance and speed, emits no row, and reports "already started" exactly when a section is open |
| Calculator.EndMarker | index.js:172-180 | `===` closes the section and resets the clock. It keeps the previous distance, the speed and the first-waypoint mark, emits no row, and reports "not started" exactly when no section is open |
| Calculator.WaypointFacts | index.js:182-216 | A waypoint emits one row at its distance, with `deltaKm` measured from the previous distance, and becomes the previous distance. Outside a section its row has speed and time 0, the clock is reset to 0 and the carried speed is kept. Inside, a NaN speed is replaced by the carried one, which is written back into the record, and the waypoint's speed becomes the carried speed. The first waypoint after a start adds no time and shows 0. A later one adds 3600 × (`deltaKm` ÷ previous speed) to the total, in JavaScript's NaN arithmetic, and its row shows the new total |
| Calculator.Scan | index.js:144-217 | `calculateData`'s scan from its initial values emits as many rows as there are waypoints, and leaves as many records as it was given |
| Calculator.RunAppend | index.js:154-217 | The scan is a left fold: scanning a concatenation is scanning the second part from the state the first part leaves, with rows, messages and records concatenated |
| Calculator.RowPerWaypoint | index.js:182-214 | Exactly one row per waypoint record, in input order, with the waypoint's distance in km and its distance divided by 1.609 in miles; markers, blank lines and error records emit no row |
| Calculator.DeltaChain | index.js:182-214 | The first row's `deltaKm` is measured from the starting distance, and each later row's from the previous row's distance. Markers never reset the previous distance, and after the scan it is the last row's distance |
| Calculator.SectionFlag | index.js:161-179 | After a scan, `isRT` is decided by the last marker alone (set by `...`, cleared by `===`), misplaced markers included |
| Calculator.CleanIffAlternating | index.js:161-179 | From the initial state the scan reports nothing exactly when the markers alternate `...`, `===`, `...`, …. With alternating markers, a section is open at the end exactly when their number is odd |
| Calculator.ErrorsAreMisplacedMarkers | index.js:161-179 | The scan reports exactly the misplaced markers, in input order. That is "already started" for each `...` met while a section is open, and "not started" for each `===` met while none is, where openness is judged from the markers alone (`Misplaced`). Nothing else is reported, and each message names a marker line of the input |
| Calculator.OutsideRows | index.js:182-193 | Outside a section, while no `...` follows, the section stays closed, the carried speed and the first-waypoint mark are unchanged, no record is changed, and every row has speed 0 and time 0 |
| Calculator.SpeedAcrossGap | index.js:172-200 | The speed carried at an `===` survives the closed stretch after it. The first waypoint without a speed after the next `...` takes that speed, and shows time 0 |
| Calculator.StartThenMissingSpeed | index.js:161-214 | A `...` followed by a waypoint without speed emits one row, with the carried speed and time 0 |
| Calculator.FillOnlyMissingSpeeds | index.js:195-197 | The scan leaves every record as it was, except that a waypoint with a NaN speed may get a speed and nothing else of it changes |
| Calculator.FirstLeg | index.js:195-216 | The first waypoint after `...` takes its own speed, or else the speed carried from before the marker. It adds no time, and its row shows time 0 |
| Calculator.LaterLeg | index.js:195-216 | A later waypoint of a section adds 3600 × (distance covered ÷ previous waypoint's speed) seconds. Its missing speed is the previous one, and its row shows the new total |
| Calculator.SectionTimes | index.js:161-216 | For a section whose waypoints have finite distances and finite filled-in speeds (non-zero except the last), the rows carry those distances and speeds. Row k's time is the sum of the leg times of legs 1..k at the speed of each leg's starting waypoint, with 0 on the first row. The final state holds the last distance, speed and total |
| Calculator.SkipInert | index.js:157-159 | Blank lines and error records are skipped: the scan emits the same rows and messages, and ends in the same state, as on the other records alone |
| Calculator.SignificantWaypoints | index.js:157-159 | Between markers, the records the scan acts on are exactly the waypoints |
| Calculator.SectionTimesAmid | index.js:157-216 | The times of SectionTimes hold for a section that also holds blank lines or error records, with the section's waypoints in place of a waypoint-only run |
| Calculator.ScanRecord | index.js:155-216 | One pass of the loop body on `records[i]` does exactly one step of the scan. It sets the five loop variables, emits the step's rows, reports its messages, and writes back only `records[i]` (filled speed) |
| Calculator.ScanRecords | index.js:154-217 | The loop emits the rows of the scan of the original records, leaves the array holding the scan's filled records, and reports the scan's messages after those already reported |
| Calculator.CalculateData | index.js:144-224 | Like the loop; afterwards the banner shows the last message reported since the parse began, or nothing |
| TimeFormat.Decompose | index.js:228-231 | hrs × 3600 + min × 60 + secs equals the value, with min and secs below 60; hrs is 0 exactly when the value is under an hour |
| TimeFormat.Field | index.js:232-234 | A field is all digits and at least two characters long, exactly two below 100, and starts with `0` exactly when the number is below 10 (the padding), so `toString` of 10 or more is never padded |
| TimeFormat.FieldValue | index.js:232-234 | A field reads back as its number (the padding zero does not change the value) |
| TimeFormat.SecondsToTimeString | index.js:227-239 | The string is the padded minutes and seconds (each below 60, see Decompose and Field), preceded by the padded hours exactly when there is at least one hour, separated by colons. Its length is 5 (`MM:SS`) under an hour, and otherwise the hours field plus 6 |
| TimeFormat.RoundTrip | index.js:227-239 | Reading the string back as `M:S` or `H:M:S` gives the value, and it has an hours field exactly when the value is at least 3600 |
| Numbers.Div | index.js:205 | Division is finite exactly when both operands are finite and the divisor is not zero. Dividing by zero gives NaN (JavaScript's infinities are folded into NaN) |
| Pipeline.ReportAll | index.js:83-124 | The messages of a classified line are reported in order |
| Pipeline.ClassifyAll | index.js:52-131 | Classifying the retained lines one by one yields the records and reports the messages of the line-by-line specification |
| Pipeline.ParseInput | index.js:44-138 | The output rows are those of the scan over the parsed records. The pass reports the parse messages and then the scan messages, and afterwards the banner shows the last of them, or nothing |

## Left out

- The DOM is not part of this model: the text area, the table body, the
  banner element and its `display` style, and the event handlers
  (`initialize`, `inputText_changed`, `buttonCalculate_click`). The input text
  is a parameter. The banner is the `shown` field of `Reporter`.
- `updateTable` is not part of this model. This covers its `toFixed(2)`
  formatting, its `Math.round` of times, and its rule that hides speeds and
  times that are not greater than 0. `secondsToTimeString` is modelled on its
  own.
- Floating-point rounding: numbers are exact reals, so `rec.distKm / 1.609`
  and the leg times are exact.
- Numbers: +Infinity and -Infinity are folded into NaN. A division by zero
  therefore gives NaN where JavaScript gives an infinity (a zero speed makes
  the later times NaN rather than Infinity). Also:
  - `parseFloat("Infinity")` is NaN here;
  - an exponent too large for a double is not capped;
  - an infinite speed would count as missing and be replaced.
- Message wording: a message is its kind and its 0-based line index. The text
  shows the line as index + 1 and quotes the offending field; neither is
  modelled.
- TimeFormat.SecondsToTimeString: takes a natural number. JavaScript's
  truncating `%` on negative or fractional values is not modelled; the
  program only calls it on rounded times greater than 0.
- Decimal.ParseFloat: reads decimal notation only. Hexadecimal and other
  prefixes never parse as more than their leading `0` in `parseFloat` either,
  and the model reads that `0` too.
- Calculator.SectionTimes: stated only for sections whose waypoints have
  finite distances and finite filled-in speeds, with every speed except the
  last non-zero, and only for runs made purely of waypoints.
  Calculator.SectionTimesAmid extends it to sections that also hold blank
  lines or error records. A section with a NaN distance or speed, or a zero
  speed, has no closed-form statement. It is covered one record at a time:
  Calculator.WaypointFacts gives each waypoint's new total and row time in
  the NaN arithmetic of `Numbers`, and Calculator.ScanRecord ties the loop
  body to that step.
- Reporting.Reporter: the reports of a pass are a ghost record used to state
  what the banner shows. The program keeps only the flag and the banner.
