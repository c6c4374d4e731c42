/**
 * The three violation detectors, stated as functions of the input lines: the
 * consecutive-days look-ahead, the gap between shifts and the long shift.
 */
module Detectors {

  import opened Wrappers
  import opened JavaStrings
  import opened Timestamps
  import opened Records

  /** The two exceptions that escape the look-ahead and end the whole run. */
  datatype Failure =
    | FieldIndexOutOfBounds  // `nextData[7]` on a row of four to seven fields
    | UnparseableStart       // `dateFormat.parse(nextData[2])` throws

  // ---------------------------------------------------------------------------
  // Consecutive days
  // ---------------------------------------------------------------------------

  /** What the look-ahead makes of one row it reads. */
  datatype LookAhead =
    | Ignored                            // consumed; neither extends nor ends the streak
    | Truncated                          // qualifies but has no field 7
    | Unparseable                        // qualifies but its start does not parse
    | Candidate(name: string, start: int)

  function ClassifyLookAhead(line: string): LookAhead {
    var data := Split(line);
    if !(|data| >= 4 && data[2] != "" && data[3] != "" && data[3] != "0:00") then Ignored
    else if |data| < 8 then Truncated
    else
      match ParseTimestamp(data[2])
      case None => Unparseable
      case Some(t) => Candidate(data[7], t)
  }

  /** The look-ahead's view of every line of the file. */
  function Classify(lines: seq<string>): (kinds: seq<LookAhead>)
    ensures |kinds| == |lines|
  {
    seq(|lines|, k requires 0 <= k < |lines| => ClassifyLookAhead(lines[k]))
  }

  /** The look-ahead's view of row `k` is the classification of that row. */
  lemma ClassifyAt(lines: seq<string>, k: nat)
    requires k < |lines|
    ensures Classify(lines)[k] == ClassifyLookAhead(lines[k])
  {
  }

  /**
   * `kinds` holds the look-ahead's verdict on every row of `lines`; the verdict
   * on a row is brought in only where that row is classified.
   */
  ghost predicate Classifies(kinds: seq<LookAhead>, lines: seq<string>) {
    && |kinds| == |lines|
    && forall k {:trigger ClassifyLookAhead(lines[k])} :: 0 <= k < |lines| ==> kinds[k] == ClassifyLookAhead(lines[k])
  }

  /** `Classify` holds the verdict on every row. */
  lemma ClassifyClassifies(lines: seq<string>)
    ensures Classifies(Classify(lines), lines)
  {
    forall k | 0 <= k < |lines|
      ensures Classify(lines)[k] == ClassifyLookAhead(lines[k])
    {
      ClassifyAt(lines, k);
    }
  }

  /** Any sequence that holds the verdict on every row is `Classify`, so the scan over it is the look-ahead's. */
  lemma ScanClassified(kinds: seq<LookAhead>, lines: seq<string>, i: nat, name: string, day: int)
    requires Classifies(kinds, lines) && i <= |lines|
    ensures ScanFrom(kinds, i, name, day, false) == ConsecutiveScan(lines, i, name, day)
  {
    forall k | 0 <= k < |lines|
      ensures kinds[k] == Classify(lines)[k]
    {
      ClassifyAt(lines, k);
    }
    assert kinds == Classify(lines);
  }

  /** The row continues the streak of `name` whose next expected day holds instant `day`. */
  predicate Continues(kind: LookAhead, name: string, day: int) {
    kind.Candidate? && kind.name == name && IsSameDay(kind.start, day)
  }

  /** Where the look-ahead leaves the shared cursor, and whether a day matched; or the exception. */
  datatype Scan =
    | Scanned(cursor: nat, worked: bool)
    | Failed(cursor: nat, failure: Failure)

  /**
   * The look-ahead loop of `analyzeConsecutiveDays` from row `i` on, over the
   * rows' classifications, with expected day `day` and the flag `worked` so far.
   */
  function ScanFrom(kinds: seq<LookAhead>, i: nat, name: string, day: int, worked: bool): (r: Scan)
    requires i <= |kinds|
    ensures i <= r.cursor <= |kinds|
    ensures r.Failed? ==> i < r.cursor
    decreases |kinds| - i
  {
    if i == |kinds| then Scanned(i, worked)
    else
      match kinds[i]
      case Ignored => ScanFrom(kinds, i + 1, name, day, worked)
      case Truncated => Failed(i + 1, FieldIndexOutOfBounds)
      case Unparseable => Failed(i + 1, UnparseableStart)
      case Candidate(n, t) =>
        if n == name && IsSameDay(t, day) then ScanFrom(kinds, i + 1, name, AddDays(day, 1), true)
        else Scanned(i + 1, worked)
  }

  /**
   * How a scan ends: short of the end of the file only just after a candidate
   * row; with an exception only just after the row that raised it; and once a
   * day has matched, the flag stays set.
   */
  lemma {:induction false} ScanOutcome(kinds: seq<LookAhead>, i: nat, name: string, day: int, worked: bool)
    requires i <= |kinds|
    ensures var r := ScanFrom(kinds, i, name, day, worked);
      && (r.Scanned? && r.cursor < |kinds| ==> i < r.cursor && kinds[r.cursor - 1].Candidate?)
      && (r.Failed? && r.failure == FieldIndexOutOfBounds ==> kinds[r.cursor - 1] == Truncated)
      && (r.Failed? && r.failure == UnparseableStart ==> kinds[r.cursor - 1] == Unparseable)
      && (worked && r.Scanned? ==> r.worked)
    decreases |kinds| - i
  {
    if i < |kinds| {
      match kinds[i]
      case Ignored =>
        ScanOutcome(kinds, i + 1, name, day, worked);
      case Truncated =>
      case Unparseable =>
      case Candidate(n, t) =>
        if n == name && IsSameDay(t, day) {
          ScanOutcome(kinds, i + 1, name, AddDays(day, 1), true);
        }
    }
  }

  /** One row of the look-ahead: what the row at `i` does to the scan. */
  lemma ScanStep(kinds: seq<LookAhead>, i: nat, name: string, day: int, worked: bool)
    requires i < |kinds|
    ensures var r := ScanFrom(kinds, i, name, day, worked);
      && (kinds[i].Ignored? ==> r == ScanFrom(kinds, i + 1, name, day, worked))
      && (kinds[i].Truncated? ==> r == Failed(i + 1, FieldIndexOutOfBounds))
      && (kinds[i].Unparseable? ==> r == Failed(i + 1, UnparseableStart))
      && (Continues(kinds[i], name, day) ==> r == ScanFrom(kinds, i + 1, name, AddDays(day, 1), true))
      && (kinds[i].Candidate? && !Continues(kinds[i], name, day) ==> r == Scanned(i + 1, worked))
  {
  }

  /** The look-ahead of `analyzeConsecutiveDays` over the file's lines from row `i` on. */
  function ConsecutiveScan(lines: seq<string>, i: nat, name: string, day: int): Scan
    requires i <= |lines|
  {
    ScanFrom(Classify(lines), i, name, day, false)
  }

  /** The expected day when the scan from row `i` reaches row `j`: one day on per continuing row. */
  function StreakDay(kinds: seq<LookAhead>, i: nat, j: nat, name: string, day: int): int
    requires i <= j <= |kinds|
    decreases j - i
  {
    if i == j then day
    else if Continues(kinds[i], name, day) then StreakDay(kinds, i + 1, j, name, AddDays(day, 1))
    else StreakDay(kinds, i + 1, j, name, day)
  }

  /**
   * A scan that stops before the end of the file stops just after a candidate
   * row that does not continue the streak on the day expected there.
   */
  lemma {:induction false} ScanStopsAtBreak(kinds: seq<LookAhead>, i: nat, name: string, day: int, worked: bool)
    requires i <= |kinds|
    ensures var r := ScanFrom(kinds, i, name, day, worked);
      r.Scanned? && r.cursor < |kinds| ==>
        !Continues(kinds[r.cursor - 1], name, StreakDay(kinds, i, r.cursor - 1, name, day))
    decreases |kinds| - i
  {
    if i < |kinds| {
      match kinds[i]
      case Ignored =>
        ScanStopsAtBreak(kinds, i + 1, name, day, worked);
      case Truncated =>
      case Unparseable =>
      case Candidate(n, t) =>
        if n == name && IsSameDay(t, day) {
          ScanStopsAtBreak(kinds, i + 1, name, AddDays(day, 1), true);
        }
    }
  }

  /** The first row from `i` on that the look-ahead does not ignore continues the streak. */
  ghost predicate StartsStreak(kinds: seq<LookAhead>, i: nat, name: string, day: int) {
    exists k :: i <= k < |kinds| && Continues(kinds[k], name, day)
      && forall j :: i <= j < k ==> kinds[j] == Ignored
  }

  /** Ignored rows are consumed without changing the scan's state. */
  lemma {:induction false} ScanSkipsIgnored(kinds: seq<LookAhead>, i: nat, k: nat, name: string, day: int, worked: bool)
    requires i <= k <= |kinds|
    requires forall j :: i <= j < k ==> kinds[j] == Ignored
    ensures ScanFrom(kinds, i, name, day, worked) == ScanFrom(kinds, k, name, day, worked)
    decreases k - i
  {
    if i < k {
      ScanSkipsIgnored(kinds, i + 1, k, name, day, worked);
    }
  }

  /**
   * The detector reports a streak only when the first row it does not ignore
   * continues it; and when that row does, it reports one unless a later row
   * ends the run with an exception.
   */
  lemma {:induction false} ScanWorkedIff(kinds: seq<LookAhead>, i: nat, name: string, day: int)
    requires i <= |kinds|
    ensures var r := ScanFrom(kinds, i, name, day, false);
      (r.Scanned? && r.worked ==> StartsStreak(kinds, i, name, day))
      && (StartsStreak(kinds, i, name, day) ==> r.Failed? || r.worked)
    decreases |kinds| - i
  {
    var r := ScanFrom(kinds, i, name, day, false);
    if i < |kinds| {
      match kinds[i]
      case Ignored =>
        ScanWorkedIff(kinds, i + 1, name, day);
        if r.Scanned? && r.worked {
          var k :| i + 1 <= k < |kinds| && Continues(kinds[k], name, day)
            && forall j :: i + 1 <= j < k ==> kinds[j] == Ignored;
          assert forall j :: i <= j < k ==> kinds[j] == Ignored;
        }
        if StartsStreak(kinds, i, name, day) {
          var k :| i <= k < |kinds| && Continues(kinds[k], name, day)
            && forall j :: i <= j < k ==> kinds[j] == Ignored;
          assert k != i;
          assert StartsStreak(kinds, i + 1, name, day);
        }
      case Truncated =>
      case Unparseable =>
      case Candidate(n, t) =>
        if n == name && IsSameDay(t, day) {
          assert Continues(kinds[i], name, day);
          ScanOutcome(kinds, i + 1, name, AddDays(day, 1), true);
        }
    }
  }

  /** A continuing row moves the expected day on to the next calendar day. */
  lemma StreakAdvancesOneDay(kinds: seq<LookAhead>, i: nat, name: string, day: int, worked: bool)
    requires i < |kinds| && Continues(kinds[i], name, day)
    ensures ScanFrom(kinds, i, name, day, worked) == ScanFrom(kinds, i + 1, name, AddDays(day, 1), true)
    ensures DayOf(kinds[i].start) == DayOf(day)
    ensures DayOf(AddDays(day, 1)) == DayOf(day) + 1
  {
    NextDay(day);
  }

  /**
   * When every row from `i` on is ignored or continues the streak, the
   * look-ahead consumes the whole rest of the file.
   */
  lemma ScanToEnd(kinds: seq<LookAhead>, i: nat, name: string, day: int, worked: bool)
    requires i <= |kinds|
    requires forall j :: i <= j < |kinds| ==>
      kinds[j] == Ignored || Continues(kinds[j], name, StreakDay(kinds, i, j, name, day))
    ensures ScanFrom(kinds, i, name, day, worked).Scanned?
    ensures ScanFrom(kinds, i, name, day, worked).cursor == |kinds|
  {
    ScanOutcome(kinds, i, name, day, worked);
    ScanStopsAtBreak(kinds, i, name, day, worked);
  }

  /** At most one line: the "7 consecutive days" sentence when at least one day matched. */
  function ConsecutiveDaysLines(rec: ShiftRecord, worked: bool): seq<string> {
    if worked then [ConsecutiveDaysMessage(rec.name, rec.position)] else []
  }

  // ---------------------------------------------------------------------------
  // Time between shifts
  // ---------------------------------------------------------------------------

  /** The start of `name`'s shift on this row, when the row has eight fields and a parseable start. */
  function ShiftStartOf(line: string, name: string): Option<int> {
    var data := Split(line);
    if |data| < 8 || data[7] != name then None else ParseDate(data[2])
  }

  /** The row a record was read from gives the gap detector that record's start. */
  lemma ShiftStartOfRecord(line: string, rec: ShiftRecord)
    requires ParseRecord(line) == Some(rec)
    ensures ShiftStartOf(line, rec.name) == Some(rec.start)
  {
  }

  /** The gap detector's view of every line of the file. */
  function ShiftStarts(lines: seq<string>, name: string): (starts: seq<Option<int>>)
    ensures |starts| == |lines|
  {
    seq(|lines|, k requires 0 <= k < |lines| => ShiftStartOf(lines[k], name))
  }

  /** The gap detector's view of row `k` is that row's start for `name`. */
  lemma ShiftStartAt(lines: seq<string>, name: string, k: nat)
    requires k < |lines|
    ensures ShiftStarts(lines, name)[k] == ShiftStartOf(lines[k], name)
  {
  }

  /** The first value present in `xs` from position `i` on. */
  function FirstFrom(xs: seq<Option<int>>, i: nat): Option<int>
    requires i <= |xs|
    decreases |xs| - i
  {
    if i == |xs| then None
    else if xs[i].Some? then xs[i]
    else FirstFrom(xs, i + 1)
  }

  /** One position of the search: a value present there is the result, otherwise the search goes on. */
  lemma FirstFromStep(xs: seq<Option<int>>, i: nat)
    requires i < |xs|
    ensures xs[i].Some? ==> FirstFrom(xs, i) == xs[i]
    ensures xs[i].None? ==> FirstFrom(xs, i) == FirstFrom(xs, i + 1)
  {
  }

  /**
   * The search finds nothing exactly when no value is present from `i` on, and
   * otherwise finds the value at the first position that has one.
   */
  lemma {:induction false} FirstFromSpec(xs: seq<Option<int>>, i: nat)
    requires i <= |xs|
    ensures FirstFrom(xs, i).None? <==> forall k :: i <= k < |xs| ==> xs[k].None?
    ensures FirstFrom(xs, i).Some? ==>
      exists j :: i <= j < |xs| && xs[j] == FirstFrom(xs, i) && forall k :: i <= k < j ==> xs[k].None?
    decreases |xs| - i
  {
    if i < |xs| && xs[i].None? {
      FirstFromSpec(xs, i + 1);
    }
  }

  /** The value at the first position where one is present is the result. */
  lemma FirstFromAt(xs: seq<Option<int>>, j: nat)
    requires j < |xs| && xs[j].Some?
    requires forall k :: 0 <= k < j ==> xs[k].None?
    ensures FirstFrom(xs, 0) == xs[j]
  {
    FirstFromSpec(xs, 0);
    var r := FirstFrom(xs, 0);
    var j' :| 0 <= j' < |xs| && xs[j'] == r && forall k :: 0 <= k < j' ==> xs[k].None?;
    assert j' == j;
  }

  /** The start on the first row of the file that has one for `name`. */
  function FirstShiftStart(lines: seq<string>, name: string): Option<int> {
    FirstFrom(ShiftStarts(lines, name), 0)
  }

  /** The gap detector's verdict once the first start for the employee is known. */
  function ShortRestVerdict(next: Option<int>, name: string, position: string, end: int): seq<string> {
    match next
    case None => []
    case Some(t) => if 1 < WholeHours(t - end) < 10 then [ShortRestMessage(name, position)] else []
  }

  /**
   * `analyzeTimeBetweenShifts`: the whole file from its first line, stopping at
   * the first row with a start for the employee; a line when the gap from
   * `end` is more than 1 and less than 10 whole hours.
   */
  function ShortRestLines(lines: seq<string>, name: string, position: string, end: int): seq<string> {
    ShortRestVerdict(FirstShiftStart(lines, name), name, position, end)
  }

  /** At most one line, exactly when the start found lies 2 to under 10 hours after `end`. */
  lemma ShortRestFires(next: Option<int>, name: string, position: string, end: int)
    ensures |ShortRestVerdict(next, name, position, end)| <= 1
    ensures ShortRestVerdict(next, name, position, end) != [] <==>
      next.Some? && 2 * MsPerHour <= next.value - end < 10 * MsPerHour
  {
    if next.Some? {
      WholeHoursAbove(next.value - end, 1);
      WholeHoursBelow(next.value - end, 10);
    }
  }

  /**
   * When the employee's first row in the file is the record's own row, the
   * detector measures from the record's end back to its own start, and no line
   * comes out for a shift that does not end before it starts.
   */
  lemma ShortRestOwnRow(lines: seq<string>, j: nat, rec: ShiftRecord)
    requires j < |lines| && ParseRecord(lines[j]) == Some(rec)
    requires forall k :: 0 <= k < j ==> ShiftStartOf(lines[k], rec.name).None?
    requires rec.start <= rec.end
    ensures FirstShiftStart(lines, rec.name) == Some(rec.start)
    ensures ShortRestLines(lines, rec.name, rec.position, rec.end) == []
  {
    var starts := ShiftStarts(lines, rec.name);
    ShiftStartOfRecord(lines[j], rec);
    assert starts[j] == Some(rec.start);
    assert forall k :: 0 <= k < j ==> starts[k] == ShiftStartOf(lines[k], rec.name);
    FirstFromAt(starts, j);
    ShortRestFires(Some(rec.start), rec.name, rec.position, rec.end);
  }

  // ---------------------------------------------------------------------------
  // Single shift duration
  // ---------------------------------------------------------------------------

  /** `analyzeSingleShiftDuration`: a line when the shift lasts more than 14 whole hours. */
  function LongShiftLines(rec: ShiftRecord): seq<string> {
    if WholeHours(rec.end - rec.start) > 14 then [LongShiftMessage(rec.name, rec.position)] else []
  }

  /** Exactly one line for shifts of 15 hours or more, none otherwise. */
  lemma LongShiftFires(rec: ShiftRecord)
    ensures LongShiftLines(rec) ==
      if rec.end - rec.start >= 15 * MsPerHour then [LongShiftMessage(rec.name, rec.position)] else []
  {
    WholeHoursAbove(rec.end - rec.start, 14);
  }

  /** A record's lines, in the order the main loop calls the detectors. */
  function RecordLines(lines: seq<string>, rec: ShiftRecord, worked: bool): seq<string> {
    ConsecutiveDaysLines(rec, worked) + ShortRestLines(lines, rec.name, rec.position, rec.end) + LongShiftLines(rec)
  }
}
