/**
 * Timestamps of the timecard file: the fixed pattern "MM/dd/yyyy hh:mm a"
 * parsed to milliseconds, the sentinel front end `parseDate`, `addDays`,
 * `isSameDay` and the whole-hour arithmetic on Java `long` values.
 *
 * A timestamp is a number of milliseconds counted from 1970-01-01 00:00 in the
 * time zone the file's times are written in; the zone itself plays no part.
 */
module Timestamps {

  import opened Wrappers
  import opened JavaStrings

  const MsPerMinute: int := 60_000
  const MsPerHour: int := 3_600_000
  const MsPerDay: int := 86_400_000

  datatype Meridiem = AM | PM

  /** The fields of one "MM/dd/yyyy hh:mm a" text, as read and before any range check. */
  datatype DateTime = DateTime(year: nat, month: nat, day: nat, hour: nat, minute: nat, meridiem: Meridiem)

  predicate IsDigit(c: char) {
    '0' <= c <= '9'
  }

  predicate AllDigits(s: string) {
    forall k :: 0 <= k < |s| ==> IsDigit(s[k])
  }

  /** Length of the run of decimal digits at the front of `s`. */
  function DigitPrefixLength(s: string): (n: nat)
    ensures n <= |s|
    decreases |s|
  {
    if s == [] || !IsDigit(s[0]) then 0 else DigitPrefixLength(s[1..]) + 1
  }

  /** The run is all digits and stops at the first character that is not one. */
  lemma {:induction false} DigitPrefixSpec(s: string)
    ensures AllDigits(s[..DigitPrefixLength(s)])
    ensures DigitPrefixLength(s) < |s| ==> !IsDigit(s[DigitPrefixLength(s)])
    decreases |s|
  {
    if s != [] && IsDigit(s[0]) {
      var n := DigitPrefixLength(s[1..]);
      DigitPrefixSpec(s[1..]);
      assert s[..n + 1] == [s[0]] + s[1..][..n];
    }
  }

  /** The number written by decimal digits `ds`, most significant first. */
  function DigitsValue(ds: string): nat
    requires AllDigits(ds)
    decreases |ds|
  {
    if ds == [] then 0
    else DigitsValue(ds[..|ds| - 1]) * 10 + (ds[|ds| - 1] as int - '0' as int)
  }

  /**
   * A numeric field followed by the literal `sep`: the number written by the
   * maximal run of digits at the front of `s`, and the text after `sep`.
   */
  function ReadField(s: string, sep: char): Option<(nat, string)> {
    DigitPrefixSpec(s);
    var n := DigitPrefixLength(s);
    if n == 0 || n == |s| || s[n] != sep then None
    else Some((DigitsValue(s[..n]), s[n + 1..]))
  }

  /** The AM/PM marker, matched without regard to case; text after it is not looked at. */
  function ReadMeridiem(s: string): Option<Meridiem> {
    if |s| < 2 || ToUpperAscii(s[1]) != 'M' then None
    else if ToUpperAscii(s[0]) == 'A' then Some(AM)
    else if ToUpperAscii(s[0]) == 'P' then Some(PM)
    else None
  }

  /** The literals that end the pattern's numeric fields: month, day, year, hour and minute. */
  const FieldSeparators: string := "// : "

  /**
   * Numeric fields read one after the other, each ended by its separator in
   * `seps`: their values, and the text after the last separator.
   */
  function ReadFields(s: string, seps: string): (r: Option<(seq<nat>, string)>)
    ensures r.Some? ==> |r.value.0| == |seps|
    decreases |seps|
  {
    if seps == [] then Some(([], s))
    else
      var first := ReadField(s, seps[0]);
      if first.None? then None
      else
        var rest := ReadFields(first.value.1, seps[1..]);
        if rest.None? then None
        else Some(([first.value.0] + rest.value.0, rest.value.1))
  }

  /** The fields of `s` read against the pattern "MM/dd/yyyy hh:mm a". */
  function ParseFields(s: string): Option<DateTime> {
    var fields := ReadFields(s, FieldSeparators);
    if fields.None? then None
    else
      var vs := fields.value.0;
      var m := ReadMeridiem(fields.value.1);
      if m.None? then None
      else Some(DateTime(vs[2], vs[0], vs[1], vs[3], vs[4], m.value))
  }

  predicate IsLeapYear(y: int) {
    y % 4 == 0 && (y % 100 != 0 || y % 400 == 0)
  }

  function DaysInMonth(y: int, m: int): int
    requires 1 <= m <= 12
  {
    if m == 2 then (if IsLeapYear(y) then 29 else 28)
    else if m == 4 || m == 6 || m == 9 || m == 11 then 30
    else 31
  }

  /** Days of year `y` before the first of month `m`. */
  function DaysBeforeMonth(y: int, m: int): int
    requires 1 <= m <= 12
  {
    [0, 31, 59, 90, 120, 151, 181, 212, 243, 273, 304, 334][m - 1]
      + (if m > 2 && IsLeapYear(y) then 1 else 0)
  }

  /** Days from 0001-01-01 to the first of January of year `y` (proleptic Gregorian). */
  function DaysBeforeYear(y: int): int
    requires y >= 1
  {
    365 * (y - 1) + (y - 1) / 4 - (y - 1) / 100 + (y - 1) / 400
  }

  /** Days from 0001-01-01 to 1970-01-01. */
  const EpochOrdinal: int := 719_162

  /** Days from 1970-01-01 to the given calendar date. */
  function EpochDay(y: int, m: int, d: int): int
    requires y >= 1 && 1 <= m <= 12
  {
    DaysBeforeYear(y) - EpochOrdinal + DaysBeforeMonth(y, m) + d - 1
  }

  /** The ranges the pattern's fields must lie in (the parser is not lenient). */
  predicate ValidDateTime(dt: DateTime) {
    && dt.year >= 1
    && 1 <= dt.month <= 12
    && 1 <= dt.day <= DaysInMonth(dt.year, dt.month)
    && 1 <= dt.hour <= 12
    && dt.minute <= 59
  }

  /** Hour of the day: "12" is the first hour of its half of the day. */
  function Hour24(dt: DateTime): nat {
    dt.hour % 12 + (if dt.meridiem == PM then 12 else 0)
  }

  function ToMillis(dt: DateTime): int
    requires ValidDateTime(dt)
  {
    EpochDay(dt.year, dt.month, dt.day) * MsPerDay + Hour24(dt) * MsPerHour + dt.minute * MsPerMinute
  }

  /** `dateFormat.parse(s)`; `None` stands for the ParseException it throws. */
  function ParseTimestamp(s: string): Option<int> {
    match ParseFields(s)
    case None => None
    case Some(dt) => if ValidDateTime(dt) then Some(ToMillis(dt)) else None
  }

  /**
   * `parseDate`: no value for a blank string or for the header word "Time",
   * otherwise the pattern parse with its failure turned into no value.
   */
  function ParseDate(s: string): Option<int> {
    if IsBlank(s) || EqualsIgnoreCase(s, "Time") then None else ParseTimestamp(s)
  }

  /** Text that does not start with a digit never parses. */
  lemma NoLeadingDigit(s: string)
    requires s == [] || !IsDigit(s[0])
    ensures ParseTimestamp(s) == None
  {
    assert DigitPrefixLength(s) == 0;
  }

  /**
   * The sentinel checks of `parseDate` only spare the diagnostic: blank text and
   * "Time" in any case fail the pattern parse as well.
   */
  lemma ParseDateIsParse(s: string)
    ensures ParseDate(s) == ParseTimestamp(s)
  {
    if IsBlank(s) {
      BlankIff(s);
      NoLeadingDigit(s);
    } else if EqualsIgnoreCase(s, "Time") {
      assert ToUpperAscii(s[0]) == 'T';
      NoLeadingDigit(s);
    }
  }

  function DigitChar(d: nat): char
    requires d < 10
  {
    ('0' as int + d) as char
  }

  /** `n` as two digits, with a leading zero. */
  function Pad2(n: nat): string
    requires n < 100
  {
    [DigitChar(n / 10), DigitChar(n % 10)]
  }

  /** `n` as four digits, with leading zeros. */
  function Pad4(n: nat): string
    requires n < 10000
  {
    [DigitChar(n / 1000), DigitChar(n / 100 % 10), DigitChar(n / 10 % 10), DigitChar(n % 10)]
  }

  function MeridiemText(m: Meridiem): string {
    if m == AM then "AM" else "PM"
  }

  predicate Formattable(dt: DateTime) {
    dt.year < 10000 && dt.month < 100 && dt.day < 100 && dt.hour < 100 && dt.minute < 100
  }

  /** `dt` written in the pattern "MM/dd/yyyy hh:mm a". */
  function Format(dt: DateTime): string
    requires Formattable(dt)
  {
    Pad2(dt.month) + ['/'] + (Pad2(dt.day) + ['/'] + (Pad4(dt.year) + [' '] +
      (Pad2(dt.hour) + [':'] + (Pad2(dt.minute) + [' '] + MeridiemText(dt.meridiem))))) 
  }

  /** Writing one more digit multiplies the value by ten and adds the digit. */
  lemma DigitsValueAppend(ds: string, d: nat)
    requires AllDigits(ds) && d < 10
    ensures AllDigits(ds + [DigitChar(d)]) && DigitsValue(ds + [DigitChar(d)]) == DigitsValue(ds) * 10 + d
  {
    var s := ds + [DigitChar(d)];
    assert s[..|s| - 1] == ds;
  }

  lemma DigitsValueOf2(n: nat)
    requires n < 100
    ensures AllDigits(Pad2(n)) && DigitsValue(Pad2(n)) == n
  {
    var p1 := [DigitChar(n / 10)];
    DigitsValueAppend([], n / 10);
    assert [] + [DigitChar(n / 10)] == p1;
    DigitsValueAppend(p1, n % 10);
    assert p1 + [DigitChar(n % 10)] == Pad2(n);
  }

  lemma DigitsValueOf4(n: nat)
    requires n < 10000
    ensures AllDigits(Pad4(n)) && DigitsValue(Pad4(n)) == n
  {
    var p1 := [DigitChar(n / 1000)];
    DigitsValueAppend([], n / 1000);
    assert [] + [DigitChar(n / 1000)] == p1;
    var p2 := p1 + [DigitChar(n / 100 % 10)];
    DigitsValueAppend(p1, n / 100 % 10);
    assert DigitsValue(p2) == n / 100;
    var p3 := p2 + [DigitChar(n / 10 % 10)];
    DigitsValueAppend(p2, n / 10 % 10);
    assert DigitsValue(p3) == n / 10;
    DigitsValueAppend(p3, n % 10);
    assert p3 + [DigitChar(n % 10)] == Pad4(n);
  }

  /** The digit run ends at the first character that is not a digit. */
  lemma {:induction false} DigitPrefixLengthIs(s: string, m: nat)
    requires m < |s| && AllDigits(s[..m]) && !IsDigit(s[m])
    ensures DigitPrefixLength(s) == m
  {
    if m > 0 {
      assert IsDigit(s[..m][0]);
      assert s[1..][..m - 1] == s[..m][1..];
      DigitPrefixLengthIs(s[1..], m - 1);
    }
  }

  /** A digit run followed by its separator reads back as its value. */
  lemma ReadFieldOf(ds: string, sep: char, rest: string)
    requires |ds| >= 1 && AllDigits(ds) && !IsDigit(sep)
    ensures ReadField(ds + [sep] + rest, sep) == Some((DigitsValue(ds), rest))
  {
    var s := ds + [sep] + rest;
    var n := DigitPrefixLength(s);
    assert s[..|ds|] == ds;
    DigitPrefixLengthIs(s, |ds|);
    assert s[|ds| + 1..] == rest;
  }

  /** The marker as written reads back. */
  lemma ReadMeridiemText(m: Meridiem)
    ensures ReadMeridiem(MeridiemText(m)) == Some(m)
  {
  }

  /** A digit run and its separator in front of further fields read as one more field. */
  lemma ReadFieldsStep(ds: string, sep: char, rest: string, seps: string, vs: seq<nat>, tail: string)
    requires |ds| >= 1 && AllDigits(ds) && !IsDigit(sep)
    requires ReadFields(rest, seps) == Some((vs, tail))
    ensures ReadFields(ds + [sep] + rest, [sep] + seps) == Some(([DigitsValue(ds)] + vs, tail))
  {
    ReadFieldOf(ds, sep, rest);
    assert ([sep] + seps)[1..] == seps;
  }

  /** A two-digit field and its separator in front of further fields. */
  lemma Pad2Step(n: nat, sep: char, rest: string, seps: string, vs: seq<nat>, tail: string)
    requires n < 100 && !IsDigit(sep)
    requires ReadFields(rest, seps) == Some((vs, tail))
    ensures ReadFields(Pad2(n) + [sep] + rest, [sep] + seps) == Some(([n] + vs, tail))
  {
    DigitsValueOf2(n);
    ReadFieldsStep(Pad2(n), sep, rest, seps, vs, tail);
  }

  /** The hour and minute fields, as written, read back with the marker text after them. */
  lemma TimeFieldsParse(hour: nat, minute: nat, mer: string)
    requires hour < 100 && minute < 100
    ensures ReadFields(Pad2(hour) + [':'] + (Pad2(minute) + [' '] + mer), ": ") == Some(([hour] + ([minute] + []), mer))
  {
    var none: seq<nat> := [];
    assert ReadFields(mer, []) == Some((none, mer));
    Pad2Step(minute, ' ', mer, [], none, mer);
    assert [' '] + [] == " ";
    Pad2Step(hour, ':', Pad2(minute) + [' '] + mer, " ", [minute] + none, mer);
    assert [':'] + " " == ": ";
  }

  /** The five numeric fields of a formatted date-time read back, followed by the marker text. */
  lemma FormatFields(dt: DateTime)
    requires Formattable(dt)
    ensures ReadFields(Format(dt), FieldSeparators) ==
      Some(([dt.month] + ([dt.day] + ([dt.year] + ([dt.hour] + ([dt.minute] + [])))), MeridiemText(dt.meridiem)))
  {
    var mer := MeridiemText(dt.meridiem);
    var tail3 := Pad2(dt.hour) + [':'] + (Pad2(dt.minute) + [' '] + mer);
    var tail2 := Pad4(dt.year) + [' '] + tail3;
    var tail1 := Pad2(dt.day) + ['/'] + tail2;
    assert Format(dt) == Pad2(dt.month) + ['/'] + tail1;
    var v3: seq<nat> := [dt.hour] + ([dt.minute] + []);
    TimeFieldsParse(dt.hour, dt.minute, mer);
    DigitsValueOf4(dt.year);
    ReadFieldsStep(Pad4(dt.year), ' ', tail3, ": ", v3, mer);
    assert [' '] + ": " == " : ";
    Pad2Step(dt.day, '/', tail2, " : ", [dt.year] + v3, mer);
    assert ['/'] + " : " == "/ : ";
    Pad2Step(dt.month, '/', tail1, "/ : ", [dt.day] + ([dt.year] + v3), mer);
    assert ['/'] + "/ : " == FieldSeparators;
  }

  /** The pattern parse reads a formatted date-time back. */
  lemma FormatParses(dt: DateTime)
    requires Formattable(dt)
    ensures ParseFields(Format(dt)) == Some(dt)
  {
    FormatFields(dt);
    ReadMeridiemText(dt.meridiem);
  }

  /** Round trip: a valid date-time written in the pattern parses to its instant. */
  lemma ParseFormatted(dt: DateTime)
    requires ValidDateTime(dt) && dt.year < 10000
    ensures ParseTimestamp(Format(dt)) == Some(ToMillis(dt))
    ensures ParseDate(Format(dt)) == Some(ToMillis(dt))
  {
    FormatParses(dt);
    ParseDateIsParse(Format(dt));
  }

  /** Calendar day of an instant: days since 1970-01-01, rounded down. */
  function DayOf(t: int): int {
    t / MsPerDay
  }

  /** `isSameDay`: both instants fall on the same calendar day. */
  predicate IsSameDay(a: int, b: int) {
    DayOf(a) == DayOf(b)
  }

  /** Instants of the same day differ by less than a day. */
  lemma DayOfBounds(t: int)
    ensures DayOf(t) * MsPerDay <= t < DayOf(t) * MsPerDay + MsPerDay
  {
  }

  /** The calendar day of a parsed instant is the date written in the text. */
  lemma DayOfTimestamp(dt: DateTime)
    requires ValidDateTime(dt)
    ensures DayOf(ToMillis(dt)) == EpochDay(dt.year, dt.month, dt.day)
  {
    var e := EpochDay(dt.year, dt.month, dt.day);
    var r := Hour24(dt) * MsPerHour + dt.minute * MsPerMinute;
    assert 0 <= r < MsPerDay;
    DayOfBounds(ToMillis(dt));
  }

  const Int32Modulus: int := 0x1_0000_0000

  predicate IsInt32(x: int) {
    -0x8000_0000 <= x < 0x8000_0000
  }

  /** A mathematical integer reduced to a Java `int`, two's complement wrap-around. */
  function WrapInt32(x: int): (r: int)
    ensures IsInt32(r)
    ensures (x - r) % Int32Modulus == 0
    ensures IsInt32(x) ==> r == x
  {
    (x + 0x8000_0000) % Int32Modulus - 0x8000_0000
  }

  /**
   * `addDays(date, days)`: the offset `days * 24 * 60 * 60 * 1000` is computed in
   * Java `int` arithmetic (each product wraps) and then added to the `long` instant.
   */
  function AddDays(t: int, days: int): int
    requires IsInt32(days)
  {
    t + WrapInt32(days * MsPerDay)
  }

  /** Up to 24 days the offset fits in an `int`, so whole days are added. */
  lemma AddDaysExact(t: int, days: int)
    requires -24 <= days <= 24
    ensures AddDays(t, days) == t + days * MsPerDay
  {
  }

  /** From 25 days on the `int` offset wraps around. */
  lemma AddDaysWraps(t: int)
    ensures AddDays(t, 25) == t + 25 * MsPerDay - Int32Modulus
  {
  }

  /** One day on is the next calendar day. */
  lemma NextDay(t: int)
    ensures DayOf(AddDays(t, 1)) == DayOf(t) + 1
    ensures forall u :: IsSameDay(u, AddDays(t, 1)) <==> DayOf(u) == DayOf(t) + 1
  {
    AddDaysExact(t, 1);
    DayOfBounds(t);
    DayOfBounds(t + MsPerDay);
  }

  /**
   * Whole hours in a span of milliseconds, as `span / (60 * 60 * 1000)` on
   * `long`: the division rounds toward zero, so a negative span of less than an
   * hour is zero hours too.
   */
  function WholeHours(span: int): (h: int)
    ensures span >= 0 ==> 0 <= h && h * MsPerHour <= span < h * MsPerHour + MsPerHour
    ensures span < 0 ==> h <= 0 && h * MsPerHour - MsPerHour < span <= h * MsPerHour
  {
    if span >= 0 then span / MsPerHour else -((-span) / MsPerHour)
  }

  /** More than `n` whole hours means at least `n + 1` full hours. */
  lemma WholeHoursAbove(span: int, n: nat)
    ensures WholeHours(span) > n <==> span >= (n + 1) * MsPerHour
  {
    var q := WholeHours(span);
    if span >= 0 {
      assert q * MsPerHour <= span < q * MsPerHour + MsPerHour;
      if q > n { assert q >= n + 1; assert q * MsPerHour >= (n + 1) * MsPerHour; }
      if span >= (n + 1) * MsPerHour {
        assert q * MsPerHour + MsPerHour > (n + 1) * MsPerHour;
      }
    }
  }

  /** Fewer than `n` whole hours (for `n >= 1`) means less than `n` full hours. */
  lemma WholeHoursBelow(span: int, n: nat)
    requires n >= 1
    ensures WholeHours(span) < n <==> span < n * MsPerHour
  {
    var q := WholeHours(span);
    if span >= 0 {
      assert q * MsPerHour <= span < q * MsPerHour + MsPerHour;
      if q < n { assert q + 1 <= n; assert q * MsPerHour + MsPerHour <= n * MsPerHour; }
      if span < n * MsPerHour {
        assert q * MsPerHour < n * MsPerHour;
      }
    }
  }
}
