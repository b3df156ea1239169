/**
 * Calendar dates as Python's datetime.date sees them: proleptic Gregorian
 * year, month and day, the ISO 8601 calendar-date text `YYYY-MM-DD` of
 * date.isoformat() and the day ordinal of date.toordinal(), which counts
 * 1 January of year 1 as day 1.
 */
module Dates {
  import opened Options

  datatype Date = Date(year: int, month: int, day: int)

  const MinYear: int := 1
  const MaxYear: int := 9999

  predicate IsLeapYear(y: int) {
    y % 4 == 0 && (y % 100 != 0 || y % 400 == 0)
  }

  function DaysInMonth(y: int, m: int): (n: int)
    requires 1 <= m <= 12
    ensures 28 <= n <= 31
    ensures n == 29 <==> m == 2 && IsLeapYear(y)
  {
    if m == 2 then (if IsLeapYear(y) then 29 else 28)
    else if m == 4 || m == 6 || m == 9 || m == 11 then 30
    else 31
  }

  /** The dates a datetime.date object can hold. */
  predicate Valid(d: Date) {
    MinYear <= d.year <= MaxYear && 1 <= d.month <= 12 && 1 <= d.day <= DaysInMonth(d.year, d.month)
  }

  /** Days in the years before `y`, counting from year 1. */
  function DaysBeforeYear(y: int): int
    requires y >= 1
  {
    var y1 := y - 1;
    y1 * 365 + y1 / 4 - y1 / 100 + y1 / 400
  }

  /** Days in the months of year `y` before month `m`. */
  function DaysBeforeMonth(y: int, m: int): int
    requires 1 <= m <= 12
  {
    var common :=
      if m == 1 then 0 else if m == 2 then 31 else if m == 3 then 59
      else if m == 4 then 90 else if m == 5 then 120 else if m == 6 then 151
      else if m == 7 then 181 else if m == 8 then 212 else if m == 9 then 243
      else if m == 10 then 273 else if m == 11 then 304 else 334;
    common + if m > 2 && IsLeapYear(y) then 1 else 0
  }

  /** date.toordinal(). */
  function ToOrdinal(d: Date): (n: int)
    requires Valid(d)
    ensures n >= 1
  {
    DaysBeforeYear(d.year) + DaysBeforeMonth(d.year, d.month) + d.day
  }

  /** The calendar day after `d`; `OrdinalCountsDays` shows the ordinal grows by one across it. */
  function NextDay(d: Date): (r: Date)
    requires Valid(d) && d != Date(MaxYear, 12, 31)
    ensures Valid(r)
  {
    if d.day < DaysInMonth(d.year, d.month) then Date(d.year, d.month, d.day + 1)
    else if d.month < 12 then Date(d.year, d.month + 1, 1)
    else Date(d.year + 1, 1, 1)
  }

  lemma DaysInYear(y: int)
    requires y >= 1
    ensures DaysBeforeYear(y + 1) == DaysBeforeYear(y) + if IsLeapYear(y) then 366 else 365
  {
    assert y / 4 - (y - 1) / 4 == if y % 4 == 0 then 1 else 0;
    assert y / 100 - (y - 1) / 100 == if y % 100 == 0 then 1 else 0;
    assert y / 400 - (y - 1) / 400 == if y % 400 == 0 then 1 else 0;
  }

  lemma MonthStep(y: int, m: int)
    requires 1 <= m < 12
    ensures DaysBeforeMonth(y, m + 1) == DaysBeforeMonth(y, m) + DaysInMonth(y, m)
  {
    if m == 1 {
    } else if m == 2 {
    } else if m == 3 {
    } else if m == 4 {
    } else if m == 5 {
    } else if m == 6 {
    } else if m == 7 {
    } else if m == 8 {
    } else if m == 9 {
    } else if m == 10 {
    } else {
    }
  }

  /** toordinal() counts from 1 January of year 1, which is day 1. */
  lemma OrdinalEpoch()
    ensures Valid(Date(1, 1, 1)) && ToOrdinal(Date(1, 1, 1)) == 1
  {
    assert DaysBeforeYear(1) == 0 && DaysBeforeMonth(1, 1) == 0;
  }

  /**
   * toordinal() is a day count on the proleptic Gregorian calendar: each
   * calendar day is one more than the day before, across month and year
   * ends and leap days.
   */
  lemma OrdinalCountsDays(d: Date)
    requires Valid(d) && d != Date(MaxYear, 12, 31)
    ensures ToOrdinal(NextDay(d)) == ToOrdinal(d) + 1
  {
    if d.day < DaysInMonth(d.year, d.month) {
    } else if d.month < 12 {
      NextDayAcrossMonth(d);
    } else {
      NextDayAcrossYear(d);
    }
  }

  lemma NextDayAcrossMonth(d: Date)
    requires Valid(d) && d.day == DaysInMonth(d.year, d.month) && d.month < 12
    ensures ToOrdinal(NextDay(d)) == ToOrdinal(d) + 1
  {
    MonthStep(d.year, d.month);
  }

  lemma NextDayAcrossYear(d: Date)
    requires Valid(d) && d.day == DaysInMonth(d.year, d.month) && d.month == 12 && d.year < MaxYear
    ensures ToOrdinal(NextDay(d)) == ToOrdinal(d) + 1
  {
    DaysInYear(d.year);
  }

  // ---------------------------------------------------------------- ISO 8601 text

  function Digit(n: int): char
    requires 0 <= n <= 9
  {
    (48 + n) as char
  }

  predicate IsDigit(c: char) {
    '0' <= c <= '9'
  }

  function DigitValue(c: char): int
    requires IsDigit(c)
  {
    c as int - 48
  }

  function Pad2(n: int): string
    requires 0 <= n <= 99
  {
    [Digit(n / 10), Digit(n % 10)]
  }

  function Pad4(n: int): string
    requires 0 <= n <= 9999
  {
    Pad2(n / 100) + Pad2(n % 100)
  }

  /** date.isoformat(): `YYYY-MM-DD`, each field zero-padded (the full-date form of RFC 3339, section 5.6). */
  function IsoFormat(d: Date): (s: string)
    requires Valid(d)
    ensures |s| == 10 && s[4] == '-' && s[7] == '-'
    ensures forall i | 0 <= i < 10 && i != 4 && i != 7 :: IsDigit(s[i])
  {
    Pad4(d.year) + "-" + Pad2(d.month) + "-" + Pad2(d.day)
  }

  /** Reads `YYYY-MM-DD` back into a date; None for any other text or an impossible date. */
  function ParseIso(s: string): Option<Date> {
    if |s| == 10 && s[4] == '-' && s[7] == '-'
       && (forall i | 0 <= i < 10 && i != 4 && i != 7 :: IsDigit(s[i]))
    then
      var d := Date(
        DigitValue(s[0]) * 1000 + DigitValue(s[1]) * 100 + DigitValue(s[2]) * 10 + DigitValue(s[3]),
        DigitValue(s[5]) * 10 + DigitValue(s[6]),
        DigitValue(s[8]) * 10 + DigitValue(s[9]));
      if Valid(d) then Some(d) else None
    else
      None
  }

  /** Reading the ISO text of a date gives the date back. */
  lemma IsoRoundTrip(d: Date)
    requires Valid(d)
    ensures ParseIso(IsoFormat(d)) == Some(d)
  {
    var s := IsoFormat(d);
    var y := d.year;
    Pad2Value(y / 100);
    Pad2Value(y % 100);
    Pad2Value(d.month);
    Pad2Value(d.day);
    assert s[..4] == Pad2(y / 100) + Pad2(y % 100);
    assert DigitValue(s[0]) * 1000 + DigitValue(s[1]) * 100 + DigitValue(s[2]) * 10 + DigitValue(s[3]) == y;
  }

  lemma Pad2Value(n: int)
    requires 0 <= n <= 99
    ensures DigitValue(Pad2(n)[0]) * 10 + DigitValue(Pad2(n)[1]) == n
  {
  }

  /** Two dates with the same ISO text are the same date, so a date-string match pins the day. */
  lemma IsoInjective(a: Date, b: Date)
    requires Valid(a) && Valid(b) && IsoFormat(a) == IsoFormat(b)
    ensures a == b
  {
    IsoRoundTrip(a);
    IsoRoundTrip(b);
  }
}
