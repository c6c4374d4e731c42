/**
 * The program as it runs: a line reader whose cursor the main loop and the
 * consecutive-days look-ahead share, a report writer that only appends, and
 * the four routines of the scanner, each proved to do what the functions of
 * the Detectors and Analysis modules say.
 */
module Pipeline {

  import opened Wrappers
  import opened JavaStrings
  import opened Timestamps
  import opened Records
  import opened Detectors
  import opened Analysis

  /** A reader over the lines of a file; `cursor` is the number of lines already read. */
  class LineReader {
    const lines: seq<string>
    var cursor: nat

    ghost predicate Valid()
      reads this
    {
      cursor <= |lines|
    }

    /** Opens `file` at its first line. */
    constructor (file: seq<string>)
      ensures lines == file && cursor == 0 && Valid()
    {
      lines := file;
      cursor := 0;
    }

    /** `readLine`: the next line, or None at the end of the file. */
    method ReadLine() returns (line: Option<string>)
      requires Valid()
      modifies this`cursor
      ensures Valid()
      ensures old(cursor) < |lines| ==> line == Some(lines[old(cursor)]) && cursor == old(cursor) + 1
      ensures old(cursor) == |lines| ==> line == None && cursor == old(cursor)
    {
      if cursor < |lines| {
        line := Some(lines[cursor]);
        cursor := cursor + 1;
      } else {
        line := None;
      }
    }
  }

  /** The report file; `lines` is everything printed to it so far. */
  class ReportWriter {
    var lines: seq<string>

    constructor ()
      ensures lines == []
    {
      lines := [];
    }

    /** `println`: appends one line. */
    method Println(s: string)
      modifies this
      ensures lines == old(lines) + [s]
    {
      lines := lines + [s];
    }
  }

  /**
   * `analyzeConsecutiveDays`: reads rows from the shared reader while they
   * continue the streak, consuming the first row that breaks it; returns the
   * exception that ends the run, if a row it inspects lacks its name field or
   * has an unparseable start.
   */
  method AnalyzeConsecutiveDays(name: string, position: string, startTime: int, br: LineReader, writer: ReportWriter)
    returns (failure: Option<Failure>)
    requires br.Valid()
    modifies br, writer
    ensures br.Valid()
    ensures var r := ConsecutiveScan(br.lines, old(br.cursor), name, AddDays(startTime, 1));
      && br.cursor == r.cursor
      && (r.Failed? ==> failure == Some(r.failure) && writer.lines == old(writer.lines))
      && (r.Scanned? ==>
            && failure == None
            && writer.lines == old(writer.lines) + (if r.worked then [ConsecutiveDaysMessage(name, position)] else []))
  {
    var nextDay := AddDays(startTime, 1);
    var consecutiveDaysWorked := false;
    ClassifyClassifies(br.lines);
    ghost var kinds :| Classifies(kinds, br.lines);
    ScanClassified(kinds, br.lines, br.cursor, name, nextDay);
    ghost var r := ScanFrom(kinds, br.cursor, name, nextDay, false);
    while true
      invariant br.Valid() && writer.lines == old(writer.lines)
      invariant ScanFrom(kinds, br.cursor, name, nextDay, consecutiveDaysWorked) == r
      decreases |br.lines| - br.cursor
    {
      ghost var row := br.cursor;
      var nextLine := br.ReadLine();
      if nextLine.None? {
        break;
      }
      assert nextLine.value == br.lines[row];
      ScanStep(kinds, row, name, nextDay, consecutiveDaysWorked);
      match ClassifyLookAhead(nextLine.value)
      case Ignored =>
      case Truncated =>
        return Some(FieldIndexOutOfBounds);
      case Unparseable =>
        return Some(UnparseableStart);
      case Candidate(nextName, nextStartTime) =>
        if nextName == name && IsSameDay(nextStartTime, nextDay) {
          consecutiveDaysWorked := true;
          nextDay := AddDays(nextDay, 1);
        } else {
          break;
        }
    }
    if consecutiveDaysWorked {
      writer.Println(ConsecutiveDaysMessage(name, position));
    }
    return None;
  }

  /**
   * `analyzeTimeBetweenShifts`: opens the file afresh, finds the first row with
   * eight fields, the employee's name and a parseable start, and reports a gap
   * from `endTime` of more than 1 and less than 10 whole hours.
   */
  method AnalyzeTimeBetweenShifts(name: string, position: string, endTime: int, file: seq<string>, writer: ReportWriter)
    modifies writer
    ensures writer.lines == old(writer.lines) + ShortRestLines(file, name, position, endTime)
  {
    var br := new LineReader(file);
    ghost var starts := ShiftStarts(file, name);
    while true
      invariant br.Valid() && br.lines == file && writer.lines == old(writer.lines)
      invariant FirstFrom(starts, br.cursor) == FirstFrom(starts, 0)
      decreases |file| - br.cursor
    {
      ghost var row := br.cursor;
      var nextLine := br.ReadLine();
      if nextLine.None? {
        break;
      }
      assert nextLine.value == file[row];
      ShiftStartAt(file, name, row);
      FirstFromStep(starts, row);
      var nextStartTime := ShiftStartOf(nextLine.value, name);
      if nextStartTime.Some? {
        var hoursBetweenShifts := WholeHours(nextStartTime.value - endTime);
        if hoursBetweenShifts > 1 && hoursBetweenShifts < 10 {
          writer.Println(ShortRestMessage(name, position));
        }
        return;
      }
    }
  }

  /** `analyzeSingleShiftDuration`: reports a shift of more than 14 whole hours. */
  method AnalyzeSingleShiftDuration(name: string, position: string, startTime: int, endTime: int, writer: ReportWriter)
    modifies writer
    ensures writer.lines == old(writer.lines) + LongShiftLines(ShiftRecord(name, position, startTime, endTime))
  {
    var hoursWorked := WholeHours(endTime - startTime);
    if hoursWorked > 14 {
      writer.Println(LongShiftMessage(name, position));
    }
  }

  /** Appending three blocks one after the other appends their concatenation. */
  lemma AppendBlock(acc: seq<string>, a: seq<string>, b: seq<string>, c: seq<string>)
    ensures acc + a + b + c == acc + (a + b + c)
  {
  }

  /**
   * `analyzeData`: writes the header, skips the file's first line, and for each
   * accepted row runs the three detectors in order; the report and how the run
   * ended are those of `Analyze`.
   */
  method AnalyzeData(file: seq<string>) returns (report: seq<string>, status: Status)
    ensures Report(report, status) == Analyze(file)
  {
    var br := new LineReader(file);
    var writer := new ReportWriter();
    writer.Println(Header);
    var _ := br.ReadLine();
    assert writer.lines == [Header];
    ghost var result := Analyze(file);
    assert br.cursor == (if file == [] then 0 else 1);
    while true
      invariant br.Valid() && br.lines == file
      invariant Run(file, br.cursor, writer.lines) == result
      decreases |file| - br.cursor
    {
      ghost var row := br.cursor;
      var line := br.ReadLine();
      if line.None? {
        break;
      }
      assert br.cursor == row + 1 && line.value == file[row];
      RecordRowAt(file, row);
      var rec := ParseRecord(line.value);
      if rec.None? {
        assert RecordRows(file)[row].None?;
        SkippedRow(file, row, writer.lines);
        continue;
      }
      ghost var acc := writer.lines;
      ghost var scan := ConsecutiveScan(file, row + 1, rec.value.name, AddDays(rec.value.start, 1));
      var name, position, startTime, endTime := rec.value.name, rec.value.position, rec.value.start, rec.value.end;
      var failure := AnalyzeConsecutiveDays(name, position, startTime, br, writer);
      if failure.Some? {
        RecordBlock(file, row, acc);
        return writer.lines, Aborted(failure.value);
      }
      ghost var a := ConsecutiveDaysLines(rec.value, scan.worked);
      ghost var b := ShortRestLines(file, name, position, endTime);
      ghost var c := LongShiftLines(rec.value);
      AnalyzeTimeBetweenShifts(name, position, endTime, file, writer);
      assert rec.value == ShiftRecord(name, position, startTime, endTime);
      AnalyzeSingleShiftDuration(name, position, startTime, endTime, writer);
      assert writer.lines == acc + a + b + c;
      AppendBlock(acc, a, b, c);
      assert br.cursor == scan.cursor;
      RecordBlock(file, row, acc);
    }
    return writer.lines, Completed;
  }
}
