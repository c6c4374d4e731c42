/**
 * What one run of the scanner produces: the report's lines and whether the run
 * completed or ended with an exception from the consecutive-days look-ahead.
 */
module Analysis {

  import opened Wrappers
  import opened Timestamps
  import opened Records
  import opened Detectors

  datatype Status = Completed | Aborted(failure: Failure)

  /** The report file's lines when the run ends, and how it ended. */
  datatype Report = Report(lines: seq<string>, status: Status)

  /** The main loop's verdict on every row: the record it yields, or None for a skipped row. */
  function RecordRows(lines: seq<string>): (r: seq<Option<ShiftRecord>>)
    ensures |r| == |lines|
  {
    seq(|lines|, k requires 0 <= k < |lines| => ParseRecord(lines[k]))
  }

  /** The main loop's verdict on row `k` is the row filter applied to that row. */
  lemma RecordRowAt(lines: seq<string>, k: nat)
    requires k < |lines|
    ensures RecordRows(lines)[k] == ParseRecord(lines[k])
  {
  }

  /**
   * The main loop from the shared cursor at row `i`, with report `acc` written
   * so far: it completes when the reader is exhausted, and otherwise takes one
   * step.
   */
  function Run(lines: seq<string>, i: nat, acc: seq<string>): Report
    requires i <= |lines|
    decreases |lines| - i, 1
  {
    if i == |lines| then Report(acc, Completed) else Step(lines, i, acc)
  }

  /**
   * One iteration of the main loop on row `i`: a skipped row moves the cursor
   * by one; an accepted record runs the look-ahead, which moves the cursor past
   * every row it read, then the gap and long-shift detectors.
   */
  function Step(lines: seq<string>, i: nat, acc: seq<string>): Report
    requires i < |lines|
    decreases |lines| - i, 0
  {
    if RecordRows(lines)[i].None? then Run(lines, i + 1, acc)
    else
      var rec := RecordRows(lines)[i].value;
      var scan := ConsecutiveScan(lines, i + 1, rec.name, AddDays(rec.start, 1));
      if scan.Failed? then Report(acc, Aborted(scan.failure))
      else Run(lines, scan.cursor, acc + RecordLines(lines, rec, scan.worked))
  }

  /** `analyzeData`: the header line is written, the file's first line is skipped. */
  function Analyze(file: seq<string>): Report {
    Run(file, if file == [] then 0 else 1, [Header])
  }

  /** The three sentences that can be written about a record. */
  function Messages(rec: ShiftRecord): seq<string> {
    [ConsecutiveDaysMessage(rec.name, rec.position), ShortRestMessage(rec.name, rec.position),
     LongShiftMessage(rec.name, rec.position)]
  }

  /**
   * `line` is one of the sentences about a record read from some row of `file`
   * after its first line, which the main loop never treats as a record.
   */
  ghost predicate DescribesRecord(file: seq<string>, line: string) {
    exists j :: 1 <= j < |file| && RecordRows(file)[j].Some? && line in Messages(RecordRows(file)[j].value)
  }

  /** A record's block holds at most one sentence of each kind, all about that record. */
  lemma RecordLinesAreMessages(lines: seq<string>, rec: ShiftRecord, worked: bool)
    ensures |RecordLines(lines, rec, worked)| <= 3
    ensures forall l :: l in RecordLines(lines, rec, worked) ==> l in Messages(rec)
  {
    ShortRestFires(FirstShiftStart(lines, rec.name), rec.name, rec.position, rec.end);
  }

  /** A skipped row writes nothing and moves the cursor by exactly one. */
  lemma SkippedRow(lines: seq<string>, i: nat, acc: seq<string>)
    requires i < |lines| && RecordRows(lines)[i].None?
    ensures Run(lines, i, acc) == Run(lines, i + 1, acc)
  {
  }

  /**
   * An accepted record writes its consecutive-days, gap and long-shift lines in
   * that order, and the main loop goes on from where the look-ahead left the
   * cursor: the rows the look-ahead read are never treated as records.
   */
  lemma RecordBlock(lines: seq<string>, i: nat, acc: seq<string>)
    requires i < |lines| && RecordRows(lines)[i].Some?
    ensures var rec := RecordRows(lines)[i].value;
      var scan := ConsecutiveScan(lines, i + 1, rec.name, AddDays(rec.start, 1));
      && (scan.Failed? ==> Run(lines, i, acc) == Report(acc, Aborted(scan.failure)))
      && (scan.Scanned? ==>
            && i + 1 <= scan.cursor
            && Run(lines, i, acc) == Run(lines, scan.cursor, acc + RecordLines(lines, rec, scan.worked)))
  {
  }

  /** Every line of `out` from index `from` on is a sentence about a record of `file`. */
  ghost predicate DescribedFrom(file: seq<string>, out: seq<string>, from: nat) {
    forall k :: from <= k < |out| ==> DescribesRecord(file, out[k])
  }

  /** Lines appended for the record of row `i`, followed by lines that describe records, all describe records. */
  lemma BlockDescribes(lines: seq<string>, i: nat, acc: seq<string>, block: seq<string>, out: seq<string>)
    requires 1 <= i < |lines| && RecordRows(lines)[i].Some?
    requires forall l :: l in block ==> l in Messages(RecordRows(lines)[i].value)
    requires acc + block <= out
    requires DescribedFrom(lines, out, |acc + block|)
    ensures DescribedFrom(lines, out, |acc|)
  {
    forall k | |acc| <= k < |acc + block|
      ensures DescribesRecord(lines, out[k])
    {
      assert out[k] == block[k - |acc|];
    }
  }

  /** The run only ever appends to the report: what was written stays, whatever happens next. */
  lemma {:induction false} RunExtends(lines: seq<string>, i: nat, acc: seq<string>)
    requires i <= |lines|
    ensures acc <= Run(lines, i, acc).lines
    decreases |lines| - i
  {
    if i < |lines| {
      if RecordRows(lines)[i].None? {
        SkippedRow(lines, i, acc);
        RunExtends(lines, i + 1, acc);
      } else {
        var rec := RecordRows(lines)[i].value;
        var scan := ConsecutiveScan(lines, i + 1, rec.name, AddDays(rec.start, 1));
        RecordBlock(lines, i, acc);
        if scan.Scanned? {
          RunExtends(lines, scan.cursor, acc + RecordLines(lines, rec, scan.worked));
        }
      }
    }
  }

  /**
   * Everything the run appends to the report is a sentence about a record of
   * the file, once the file's first line is behind the cursor.
   */
  lemma {:induction false} RunDescribes(lines: seq<string>, i: nat, acc: seq<string>)
    requires i <= |lines| && (1 <= i || i == |lines|)
    ensures DescribedFrom(lines, Run(lines, i, acc).lines, |acc|)
    decreases |lines| - i, 1
  {
    if i < |lines| {
      if RecordRows(lines)[i].None? {
        SkippedRow(lines, i, acc);
        RunDescribes(lines, i + 1, acc);
      } else {
        RecordDescribes(lines, i, acc);
      }
    }
  }

  /** `RunDescribes` from an accepted record: its block, then the rest of the run. */
  lemma {:induction false} RecordDescribes(lines: seq<string>, i: nat, acc: seq<string>)
    requires 1 <= i < |lines| && RecordRows(lines)[i].Some?
    ensures DescribedFrom(lines, Run(lines, i, acc).lines, |acc|)
    decreases |lines| - i, 0
  {
    var rec := RecordRows(lines)[i].value;
    var scan := ConsecutiveScan(lines, i + 1, rec.name, AddDays(rec.start, 1));
    RecordBlock(lines, i, acc);
    if scan.Scanned? {
      var block := RecordLines(lines, rec, scan.worked);
      var out := Run(lines, scan.cursor, acc + block).lines;
      RecordLinesAreMessages(lines, rec, scan.worked);
      RunExtends(lines, scan.cursor, acc + block);
      RunDescribes(lines, scan.cursor, acc + block);
      BlockDescribes(lines, i, acc, block, out);
    }
  }

  /**
   * The report starts with the fixed header line, and every line after it is
   * one of the three sentences about a record read from the file.
   */
  lemma ReportShape(file: seq<string>)
    ensures |Analyze(file).lines| >= 1 && Analyze(file).lines[0] == Header
    ensures forall k :: 1 <= k < |Analyze(file).lines| ==> DescribesRecord(file, Analyze(file).lines[k])
  {
    RunExtends(file, if file == [] then 0 else 1, [Header]);
    RunDescribes(file, if file == [] then 0 else 1, [Header]);
  }

  /** Row `j` holds a record whose look-ahead raises an exception. */
  ghost predicate AbortsAt(lines: seq<string>, j: nat) {
    && j < |lines| && RecordRows(lines)[j].Some?
    && var rec := RecordRows(lines)[j].value;
       ConsecutiveScan(lines, j + 1, rec.name, AddDays(rec.start, 1)).Failed?
  }

  /**
   * The run from row `i` with report `acc` reaches row `j`, where the
   * look-ahead raises, with report `acc'` extending `acc`, and ends there
   * with `acc'` and that look-ahead's exception.
   */
  ghost predicate AbortedAt(lines: seq<string>, i: nat, acc: seq<string>, j: nat, acc': seq<string>) {
    && i <= j && AbortsAt(lines, j) && acc <= acc'
    && Run(lines, i, acc) == Run(lines, j, acc')
    && Run(lines, i, acc) == Report(acc', Aborted(
         ConsecutiveScan(lines, j + 1, RecordRows(lines)[j].value.name,
           AddDays(RecordRows(lines)[j].value.start, 1)).failure))
  }

  /**
   * An aborted run ends at a record whose look-ahead raised: the run reaches
   * that record's row with a report that extends the one it started with, and
   * ends with that report unchanged and the exception of that look-ahead.
   */
  lemma {:induction false} AbortKeepsReport(lines: seq<string>, i: nat, acc: seq<string>)
    requires i <= |lines| && Run(lines, i, acc).status.Aborted?
    ensures exists j: nat, acc': seq<string> :: AbortedAt(lines, i, acc, j, acc')
    decreases |lines| - i
  {
    if RecordRows(lines)[i].None? {
      SkippedRow(lines, i, acc);
      AbortKeepsReport(lines, i + 1, acc);
      var j: nat, acc' :| AbortedAt(lines, i + 1, acc, j, acc');
      assert AbortedAt(lines, i, acc, j, acc');
    } else {
      var rec := RecordRows(lines)[i].value;
      var scan := ConsecutiveScan(lines, i + 1, rec.name, AddDays(rec.start, 1));
      RecordBlock(lines, i, acc);
      if scan.Failed? {
        assert AbortedAt(lines, i, acc, i, acc);
      } else {
        var block := acc + RecordLines(lines, rec, scan.worked);
        AbortKeepsReport(lines, scan.cursor, block);
        var j: nat, acc' :| AbortedAt(lines, scan.cursor, block, j, acc');
        assert AbortedAt(lines, i, acc, j, acc');
      }
    }
  }
}
