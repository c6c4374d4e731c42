# Timecard scanner — a Dafny model of `Main.java`

The scanner reads a comma-separated timecard file and writes a plain-text report. The report starts with a fixed header line. It then holds one sentence per violation found, for three conditions:

- **consecutive days**: after a record, the next row of the file that the look-ahead does not ignore belongs to the same employee and starts on the following calendar day. One such row is enough, although the sentence says "7 consecutive days";
- **time between shifts**: the employee's *first* row in the whole file with eight fields and a parseable start begins more than 1 and less than 10 whole hours after a shift's end;
- **single shift duration**: a shift lasts more than 14 whole hours.

The model replaces the file handles by the input file's lines (`seq<string>`) and the report file's lines (`seq<string>`). Otherwise it follows `Main.java` routine by routine.

| module | file | what it holds |
|---|---|---|
| `Wrappers` | `Wrappers.dfy` | `Option` |
| `JavaStrings` | `JavaStrings.dfy` | `String.split(",")` with its removal of trailing empty strings, `trim().isEmpty()`, ASCII `equalsIgnoreCase` |
| `Timestamps` | `Timestamps.dfy` | a strict parser for the pattern `MM/dd/yyyy hh:mm a` to milliseconds; `parseDate` with its sentinels; `addDays` with Java `int` wrap-around of the day offset; `isSameDay` as calendar-day equality; whole hours as `long` division rounding toward zero |
| `Records` | `Records.dfy` | the row filter of the main loop (a `ShiftRecord` or a skipped row), the header and the three sentences |
| `Detectors` | `Detectors.dfy` | the three detectors as functions of the file's lines, and their properties |
| `Analysis` | `Analysis.dfy` | the whole run as a function, `Analyze`, giving the report and whether the run completed or aborted; properties of the report |
| `Pipeline` | `Pipeline.dfy` | the program as it runs: a `LineReader` class (lines and a cursor, shared by the main loop and the look-ahead), a `ReportWriter` class that only appends, and the methods `AnalyzeData`, `AnalyzeConsecutiveDays`, `AnalyzeTimeBetweenShifts` and `AnalyzeSingleShiftDuration`, each with its loop and proved against the functions of `Detectors` and `Analysis` |

Three row functions stand for the per-row guards of the source:

- `Records.ParseRecord` is the filter of lines 30-44 of `Main.java`.
- `Detectors.ClassifyLookAhead` is the guard and field access of the look-ahead, lines 81-85.
- `Detectors.ShiftStartOf` is the guard of the gap detector, lines 108-118.

The methods in `Pipeline` call these functions inside their loops.

Two exceptions can escape the look-ahead in `analyzeConsecutiveDays`:

- reading field 7 of a row that has 4 to 7 fields (line 84);
- `dateFormat.parse` on a start that does not parse (line 85).

Nothing in `analyzeData` catches either of them. The model returns them as `Status.Aborted`, and the report is then the lines written up to that point.

Where the code and the design description of the system differ, the model follows the code:

- The gap detector reopens the file and stops at the employee's *first* row in the whole file that has eight fields and a parseable start. That is often the record's own row, which gives a negative gap and no sentence (`Detectors.ShortRestOwnRow`). It is not the employee's next shift.
- The gap is rounded toward zero, not floored.
- A start that does not parse in a look-ahead row ends the whole run; it is not skipped.

## Model

| member | source | states |
|---|---|---|
| JavaStrings.PiecesSpec | Main.java:30 | splitting on commas gives one piece more than there are commas, and no piece holds a comma |
| JavaStrings.DropTrailingEmptySpec | Main.java:30 | `split` drops exactly the run of trailing empty strings: what it keeps is a prefix, what it drops is empty, and what it keeps does not end in an empty string |
| JavaStrings.SplitSpec | Main.java:30 | `s.split(",")`: a string without a comma (the empty string included) is its own single field; otherwise the fields are the pieces between commas up to the trailing empty ones; no field holds a comma |
| JavaStrings.JoinPieces | Main.java:30 | joining the pieces of a line with commas gives the line back |
| JavaStrings.SplitJoin | Main.java:30 | round trip: splitting a line joined from comma-free fields, the last of them non-empty, gives the fields back |
| JavaStrings.SplitLastFieldNonEmpty | Main.java:30 | a split line with two or more fields never ends in an empty field |
| JavaStrings.BlankIff | Main.java:56 | `trim().isEmpty()` holds exactly when every character is at most U+0020 |
| Timestamps.ReadFields | Main.java:9 | the pattern's numeric fields, when they are all present, give one value per separator |
| Timestamps.NoLeadingDigit | Main.java:62 | text that does not start with a digit fails the pattern parse |
| Timestamps.ParseDateIsParse | Main.java:55-66 | `parseDate` gives no value for blank text, for "Time" in any case, and for text the pattern rejects, and otherwise the parsed instant; it never fails |
| Timestamps.ReadMeridiemText | Main.java:9 | the AM/PM marker as written reads back |
| Timestamps.FormatParses | Main.java:9 | the pattern parse reads back every date-time written in the pattern |
| Timestamps.ParseFormatted | Main.java:55-66 | round trip: a valid date-time written in the pattern parses, both with the pattern and with `parseDate`, to its instant |
| Timestamps.DayOfBounds | Main.java:148-152 | the calendar day of an instant is the day-long interval that holds it |
| Timestamps.DayOfTimestamp | Main.java:148-152 | the calendar day that `isSameDay` compares is the date written in the parsed text |
| Timestamps.WrapInt32 | Main.java:145 | Java `int` wrap-around: the result lies in the `int` range, differs from the input by a multiple of 2^32, and leaves `int` values unchanged |
| Timestamps.AddDaysExact | Main.java:143-146 | `addDays` adds whole days when the offset in milliseconds fits in an `int` (up to 24 days) |
| Timestamps.AddDaysWraps | Main.java:145 | a worked example of the `int` overflow in `days * 24 * 60 * 60 * 1000`: `addDays(t, 25)` is off by 2^32 milliseconds. The scanner itself only ever adds one day |
| Timestamps.NextDay | Main.java:143-152 | `addDays(t, 1)` falls on the next calendar day, and `isSameDay` with it holds exactly for instants of that day |
| Timestamps.WholeHours | Main.java:119 | `span / (60 * 60 * 1000)` on `long` rounds toward zero: bounds on either side for positive and negative spans |
| Timestamps.WholeHoursAbove | Main.java:134-136 | more than `n` whole hours exactly when the span is at least `n + 1` hours |
| Timestamps.WholeHoursBelow | Main.java:119-121 | fewer than `n` whole hours exactly when the span is less than `n` hours |
| Records.RejectedRows | Main.java:30-44 | a row is skipped exactly when it has fewer than eight fields or the pattern parse rejects field 2 or 3 (empty fields and "Time" included) |
| Records.AcceptedRow | Main.java:36-39 | a record holds field 7 as name, field 1 as position, and the instants of fields 2 and 3 |
| Records.EightFieldNameNonEmpty | Main.java:30-36 | in a record read from exactly eight fields, the name is never empty |
| Records.RowRoundTrip | Main.java:30-44 | round trip: a row joined from comma-free fields with formatted times in fields 2 and 3 is read back as its record |
| Detectors.ScanFrom | Main.java:80-94 | the look-ahead never moves the cursor backwards or past the end, and an exception comes only after reading a row |
| Detectors.ScanStep | Main.java:81-92 | unfolds the look-ahead loop by one row, as `ScanFrom` defines it: an ignored row is consumed without effect; a 4-to-7-field row or an unparseable start raises; a matching row moves the expected day on; any other qualifying row ends the scan after consuming it |
| Detectors.ScanOutcome | Main.java:80-94 | the scan stops before the end of the file only just after a qualifying row, raises only just after the row that fails, and a streak once found stays found |
| Detectors.ScanSkipsIgnored | Main.java:82-83 | rows with fewer than four fields, an empty field 2 or 3, or end "0:00" do not change the scan |
| Detectors.ScanStopsAtBreak | Main.java:87-92 | a scan that ends early ends just after a row that does not continue the streak on the day expected there |
| Detectors.ScanToEnd | Main.java:80-94 | when every remaining row is ignored or continues the streak, the look-ahead consumes the whole rest of the file |
| Detectors.StreakAdvancesOneDay | Main.java:87-89 | unfolds a matching row, as `ScanFrom` defines it, and adds what `NextDay` proves: the row falls on the expected calendar day, and the expected day moves to the next one |
| Detectors.ScanWorkedIff | Main.java:80-98 | the flag is set only when the first row not ignored continues the streak; when that row does, the flag is set unless a later row raises |
| Detectors.ShiftStartOfRecord | Main.java:115-118 | the row a record came from gives the gap detector that record's start |
| Detectors.FirstFromSpec | Main.java:107-125 | the gap detector finds nothing exactly when no row qualifies, and otherwise stops at the first qualifying row |
| Detectors.FirstFromAt | Main.java:107-125 | the start at the first qualifying row is the one the gap detector uses |
| Detectors.ShortRestFires | Main.java:118-123 | at most one line, written exactly when a qualifying row was found and its start lies at least 2 and less than 10 hours after the shift's end |
| Detectors.ShortRestOwnRow | Main.java:103-125 | when the employee's first qualifying row is the record's own row, the gap is measured back to the record's own start, and for a shift that does not end before it starts nothing is written |
| Detectors.LongShiftFires | Main.java:134-140 | exactly one line when the shift lasts 15 hours or more, none otherwise |
| Analysis.RecordLinesAreMessages | Main.java:46-48 | a record gives at most three lines, each of them one of the three sentences about that record |
| Analysis.SkippedRow | Main.java:29-44 | unfolds one step of the main loop, as `Step` defines it: a skipped row writes nothing and moves the cursor by exactly one |
| Analysis.RecordBlock | Main.java:46-48 | unfolds one step of the main loop, as `Step` defines it: a record writes its consecutive-days, gap and long-shift lines in that order, and the main loop goes on from where the look-ahead left the cursor; if the look-ahead raises, the run ends with the report as it stands |
| Analysis.RunExtends | Main.java:29-49 | the run only appends to the report |
| Analysis.RunDescribes | Main.java:29-49 | once the file's first line is behind the cursor, every line the run appends is a sentence about a record read from a later row of the file |
| Analysis.RecordDescribes | Main.java:46-48 | from an accepted record after the first line on, every line appended is a sentence about a record read from a later row of the file |
| Analysis.ReportShape | Main.java:23-49 | the report starts with the fixed header line, and every later line is a sentence about a record read from a row after the skipped first line |
| Analysis.AbortKeepsReport | Main.java:84-85 | a run that aborts ends at a record whose look-ahead raised: the run reaches that record's row with a report that extends the one it started with, and ends with exactly that report and that look-ahead's exception |
| Pipeline.LineReader.constructor | Main.java:21 | a reader opens at the file's first line |
| Pipeline.LineReader.ReadLine | Main.java:29 | `readLine` gives the line at the cursor and moves the cursor by one, or gives nothing at the end of the file |
| Pipeline.ReportWriter.constructor | Main.java:22 | the report starts empty |
| Pipeline.ReportWriter.Println | Main.java:23 | `println` appends exactly one line |
| Pipeline.AnalyzeConsecutiveDays | Main.java:69-99 | the look-ahead leaves the shared cursor where `ConsecutiveScan` says; it returns the exception that ends the run and writes nothing, or writes the sentence exactly when a day matched |
| Pipeline.AnalyzeTimeBetweenShifts | Main.java:101-130 | reading the file from its first line, the method writes exactly what `ShortRestLines` gives: the first qualifying row's verdict |
| Pipeline.AnalyzeSingleShiftDuration | Main.java:132-141 | writes exactly what `LongShiftLines` gives |
| Pipeline.AnalyzeData | Main.java:20-53 | the report written and how the run ends are those of `Analyze`: the header, the first line skipped, the three detectors for each accepted row in order, and an abort if the look-ahead raises |

## Left out

- File and stream plumbing is not modelled: `main`, the hard-coded file names, opening and closing readers and writers, and the `IOException` handler (Main.java:11-22, 50-52, 103, 127-129). The input is a sequence of lines and the report a sequence of lines. The file that `analyzeTimeBetweenShifts` reopens is taken to hold the same lines as the one being scanned.
- Console output and `printStackTrace` calls (Main.java:16, 64, 72, 110-111, 138) have no effect on the report, so they are not modelled.
- The dead `startTime == null` branch of `analyzeConsecutiveDays` (Main.java:71-74) cannot be taken after the check at line 41, so it is not modelled.
- Timestamps.ParseTimestamp: the parser is strict, while `SimpleDateFormat` is lenient by default. The model rejects texts that Java accepts:
  - A field out of range (month 13, day 32, hour 13, minute 60) is rejected. Java rolls it over into a later date.
  - Hour 0 is rejected. Java reads it as the first hour of its half of the day, the same as 12, with no rollover.
  - Spaces and tabs before a field are rejected. Java skips them before every field.
  - Other inputs that a lenient number parse accepts are rejected as well.
  - The consequences differ by place. In the row filter and the gap detector, such a row is skipped where Java would use it. In the consecutive-days look-ahead, such a start is `Unparseable`, so the model aborts the whole run where Java would go on scanning.
- Timestamps.DayOf: instants are milliseconds in the file's own local time, and `isSameDay` compares the days they fall on. The default time zone, daylight saving time and the Julian calendar before 1582 that `java.util.Date` formatting uses are not modelled.
- JavaStrings.EqualsIgnoreCase: only the ASCII letters are case-mapped; `String.equalsIgnoreCase` also maps other Unicode letters. This makes no difference for the literal "Time".
- Timestamps.WholeHours: instants are unbounded integers, so Java `long` overflow of the millisecond values, and of their differences, is not modelled. It would need dates hundreds of millions of years away.
