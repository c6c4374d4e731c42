/**
 * One timecard row as the scanner's main loop sees it: the row filter that
 * turns a line into a shift record or skips it, and the report's fixed texts.
 */
module Records {

  import opened Wrappers
  import opened JavaStrings
  import opened Timestamps

  /** A usable row: employee name (field 7), position (field 1) and the two instants. */
  datatype ShiftRecord = ShiftRecord(name: string, position: string, start: int, end: int)

  /**
   * The row filter of the main loop: a record when the row has at least eight
   * fields, non-empty fields 2 and 3, and both of them parse with `parseDate`.
   */
  function ParseRecord(line: string): Option<ShiftRecord> {
    var data := Split(line);
    if |data| < 8 || data[2] == "" || data[3] == "" then None
    else
      match (ParseDate(data[2]), ParseDate(data[3]))
      case (Some(start), Some(end)) => Some(ShiftRecord(data[7], data[1], start, end))
      case _ => None
  }

  /**
   * A row is skipped exactly when it has fewer than eight fields or one of its
   * time fields fails the pattern parse; empty and "Time" fields are among those.
   */
  lemma RejectedRows(line: string)
    ensures var data := Split(line);
      ParseRecord(line).None? <==>
        (|data| < 8 || ParseTimestamp(data[2]).None? || ParseTimestamp(data[3]).None?)
  {
    var data := Split(line);
    if |data| >= 8 {
      ParseDateIsParse(data[2]);
      ParseDateIsParse(data[3]);
      if data[2] == "" { NoLeadingDigit(data[2]); }
      if data[3] == "" { NoLeadingDigit(data[3]); }
    }
  }

  /** A record's fields are the row's fields 7 and 1 and the instants of fields 2 and 3. */
  lemma AcceptedRow(line: string)
    requires ParseRecord(line).Some?
    ensures var data, r := Split(line), ParseRecord(line).value;
      && |data| >= 8
      && r.name == data[7] && r.position == data[1]
      && ParseTimestamp(data[2]) == Some(r.start) && ParseTimestamp(data[3]) == Some(r.end)
  {
    var data := Split(line);
    ParseDateIsParse(data[2]);
    ParseDateIsParse(data[3]);
  }

  /** With exactly eight fields the name field cannot be empty: `split` drops a trailing empty field. */
  lemma EightFieldNameNonEmpty(line: string)
    requires ParseRecord(line).Some? && |Split(line)| == 8
    ensures ParseRecord(line).value.name != ""
  {
    SplitLastFieldNonEmpty(line);
  }

  /**
   * Round trip: a row written from comma-free fields, with formatted times in
   * fields 2 and 3 and a non-empty last field, reads back as its record.
   */
  lemma RowRoundTrip(fields: seq<string>, start: DateTime, end: DateTime)
    requires |fields| >= 8 && fields[|fields| - 1] != ""
    requires forall k :: 0 <= k < |fields| ==> ',' !in fields[k]
    requires ValidDateTime(start) && start.year < 10000 && fields[2] == Format(start)
    requires ValidDateTime(end) && end.year < 10000 && fields[3] == Format(end)
    ensures ParseRecord(Join(fields)) == Some(ShiftRecord(fields[7], fields[1], ToMillis(start), ToMillis(end)))
  {
    SplitJoin(fields);
    ParseFormatted(start);
    ParseFormatted(end);
  }

  /** The first line of every report. */
  const Header: string := "Employee Name,Position,Consecutive Days Worked,Hours Between Shifts,Single Shift Duration"

  function Subject(name: string, position: string): string {
    name + " (Position: " + position + ")"
  }

  function ConsecutiveDaysMessage(name: string, position: string): string {
    Subject(name, position) + " worked for 7 consecutive days."
  }

  function ShortRestMessage(name: string, position: string): string {
    Subject(name, position) + " has less than 10 hours between shifts."
  }

  function LongShiftMessage(name: string, position: string): string {
    Subject(name, position) + " worked for more than 14 hours in a single shift."
  }
}
