/** Civil dates as Go's `time.Date(year, month, day, 0, 0, 0, 0, loc)`
    builds them: month and day may be out of range and are normalised, so
    month 13 is January of the next year, day 0 is the last day of the
    previous month and October 32 is November 1. Only the calendar date is
    kept; the clock time is always midnight. */
module Calendar {

  datatype Date = Date(year: int, month: int, day: int)

  /** Gregorian leap years (proleptic, as Go computes them). */
  predicate IsLeap(y: int) {
    y % 4 == 0 && (y % 100 != 0 || y % 400 == 0)
  }

  function DaysIn(y: int, m: int): (n: nat)
    requires 1 <= m <= 12
    ensures 28 <= n <= 31
  {
    if m == 2 then (if IsLeap(y) then 29 else 28)
    else if m == 4 || m == 6 || m == 9 || m == 11 then 30
    else 31
  }

  predicate Valid(d: Date) {
    1 <= d.month <= 12 && 1 <= d.day <= DaysIn(d.year, d.month)
  }

  /** A month as (year, month) with month in 1..12. */
  datatype YearMonth = YearMonth(year: int, month: int)

  /** The month `m` counted from January of year `y` (month 13 is next
      January, month 0 last December). */
  function NormMonth(y: int, m: int): (r: YearMonth)
    ensures 1 <= r.month <= 12
    ensures 12 * r.year + r.month == 12 * y + m
  {
    YearMonth(y + (m - 1) / 12, (m - 1) % 12 + 1)
  }

  function Next(y: int, m: int): (r: YearMonth)
    requires 1 <= m <= 12
    ensures 1 <= r.month <= 12
    ensures 12 * r.year + r.month == 12 * y + m + 1
  {
    if m == 12 then YearMonth(y + 1, 1) else YearMonth(y, m + 1)
  }

  function Prev(y: int, m: int): (r: YearMonth)
    requires 1 <= m <= 12
    ensures 1 <= r.month <= 12
    ensures 12 * r.year + r.month == 12 * y + m - 1
  {
    if m == 1 then YearMonth(y - 1, 12) else YearMonth(y, m - 1)
  }

  /** Day `d` counted from the first of month (y, m): days past the end of
      the month spill into the following months, days before the first go
      back into the preceding ones. */
  function Roll(y: int, m: int, d: int): (r: Date)
    requires 1 <= m <= 12
    ensures Valid(r)
    decreases if d < 1 then 1 else 0, if d < 1 then -d else d
  {
    if d < 1 then
      var p := Prev(y, m);
      Roll(p.year, p.month, d + DaysIn(p.year, p.month))
    else if d > DaysIn(y, m) then
      var n := Next(y, m);
      Roll(n.year, n.month, d - DaysIn(y, m))
    else Date(y, m, d)
  }

  /** `time.Date(y, time.Month(m), d, ...)`, reduced to its calendar date. */
  function MakeDate(y: int, m: int, d: int): (r: Date)
    ensures Valid(r)
  {
    var ym := NormMonth(y, m);
    Roll(ym.year, ym.month, d)
  }

  /** A date already in range is kept as it is. */
  lemma MakeDateValid(y: int, m: int, d: int)
    requires Valid(Date(y, m, d))
    ensures MakeDate(y, m, d) == Date(y, m, d)
  {
    assert NormMonth(y, m) == YearMonth(y, m);
  }

  /** Normalising twice is normalising once. */
  lemma MakeDateIdempotent(y: int, m: int, d: int)
    ensures var r := MakeDate(y, m, d); MakeDate(r.year, r.month, r.day) == r
  {
    var r := MakeDate(y, m, d);
    MakeDateValid(r.year, r.month, r.day);
  }

  /** Twelve months more is one year more. */
  lemma MonthCarry(y: int, m: int, d: int)
    ensures MakeDate(y, m + 12, d) == MakeDate(y + 1, m, d)
  {
    assert NormMonth(y, m + 12) == NormMonth(y + 1, m);
  }

  lemma PrevNext(y: int, m: int)
    requires 1 <= m <= 12
    ensures var n := Next(y, m); Prev(n.year, n.month) == YearMonth(y, m)
  {
  }

  /** Adding the length of a month to the day moves the date to the same
      day count in the following month: days are counted continuously across
      month boundaries, in both directions. */
  lemma RollShift(y: int, m: int, d: int)
    requires 1 <= m <= 12
    ensures var n := Next(y, m); Roll(y, m, d + DaysIn(y, m)) == Roll(n.year, n.month, d)
  {
    PrevNext(y, m);
  }

  /** Day 0 is the last day of the previous month. */
  lemma DayZero(y: int, m: int)
    requires 1 <= m <= 12
    ensures var p := Prev(y, m); MakeDate(y, m, 0) == Date(p.year, p.month, DaysIn(p.year, p.month))
  {
    assert NormMonth(y, m) == YearMonth(y, m);
  }

  /** The day after the last of a month is the first of the next. */
  lemma DayOverflow(y: int, m: int)
    requires 1 <= m <= 12
    ensures var n := Next(y, m); MakeDate(y, m, DaysIn(y, m) + 1) == Date(n.year, n.month, 1)
  {
    var n := Next(y, m);
    assert NormMonth(y, m) == YearMonth(y, m);
    assert Roll(y, m, DaysIn(y, m) + 1) == Roll(n.year, n.month, 1);
  }

  lemma CalendarExamples()
    ensures MakeDate(2025, 10, 32) == Date(2025, 11, 1)
    ensures MakeDate(2024, 2, 30) == Date(2024, 3, 1)
    ensures MakeDate(2025, 2, 29) == Date(2025, 3, 1)
  {
    DayOverflow(2025, 10);
    DayOverflow(2024, 2);
    DayOverflow(2025, 2);
  }

  /** Months out of range: month 13 is next January, and day 0 of month 0
      is the last day of November of the year before. */
  lemma MonthExamples()
    ensures MakeDate(2025, 13, 1) == Date(2026, 1, 1)
    ensures MakeDate(2025, 0, 0) == Date(2024, 11, 30)
  {
    assert MakeDate(2025, 13, 1) == Roll(2026, 1, 1);
    DayZero(2024, 12);
    assert MakeDate(2025, 0, 0) == Roll(2024, 12, 0);
  }
}
