/**
 * The proleptic Gregorian calendar that JavaScript's `Date` uses, in integer
 * arithmetic: leap years, month lengths and the day of the week. Months are
 * numbered from 0 (January) to 11 (December), as `Date` numbers them; weekdays
 * from 0 (Sunday) to 6 (Saturday), as `getDay` does.
 */
module Calendar {

  predicate IsLeapYear(y: int) {
    y % 4 == 0 && (y % 100 != 0 || y % 400 == 0)
  }

  function DaysInYear(y: int): int {
    if IsLeapYear(y) then 366 else 365
  }

  /** The number of days of month `m` of year `y`. */
  function DaysInMonth(y: int, m: int): (d: int)
    requires 0 <= m < 12
    ensures 28 <= d <= 31
    ensures d == 29 <==> m == 1 && IsLeapYear(y)
  {
    if m == 1 then (if IsLeapYear(y) then 29 else 28)
    else if m == 3 || m == 5 || m == 8 || m == 10 then 30
    else 31
  }

  /** Days from 1 January of year 1 to 1 January of year `y` (negative before it).
      Division here is floor division, as Dafny's is for a positive divisor. */
  function DaysBeforeYear(y: int): int {
    365 * (y - 1) + (y - 1) / 4 - (y - 1) / 100 + (y - 1) / 400
  }

  /** Days from 1 January of year `y` to the first of month `m` (`m == 12` is the
      first of the next year). */
  function DaysBeforeMonth(y: int, m: int): int
    requires 0 <= m <= 12
  {
    if m == 0 then 0 else DaysBeforeMonth(y, m - 1) + DaysInMonth(y, m - 1)
  }

  /** The serial number of a date: 0 for 1 January of year 1. */
  function DayNumber(y: int, m: int, d: int): int
    requires 0 <= m < 12
  {
    DaysBeforeYear(y) + DaysBeforeMonth(y, m) + (d - 1)
  }

  /** `getDay()` of the date: 1 January of year 1 (proleptic) was a Monday. */
  function Weekday(y: int, m: int, d: int): (w: int)
    requires 0 <= m < 12
    ensures 0 <= w < 7
  {
    (DayNumber(y, m, d) + 1) % 7
  }

  /** The month after (y, m), rolling December over into January. */
  function NextMonth(y: int, m: int): (r: (int, int))
    requires 0 <= m < 12
    ensures 0 <= r.1 < 12
  {
    if m == 11 then (y + 1, 0) else (y, m + 1)
  }

  /** A year is as long as the leap-year rule says: the closed form for the days
      before a year agrees with the year lengths. */
  lemma DaysBeforeNextYear(y: int)
    ensures DaysBeforeYear(y + 1) == DaysBeforeYear(y) + DaysInYear(y)
  {
    Div4Step(y);
    Div100Step(y);
    Div400Step(y);
  }

  lemma Div4Step(y: int)
    ensures y / 4 == (y - 1) / 4 + (if y % 4 == 0 then 1 else 0)
  {
  }

  lemma Div100Step(y: int)
    ensures y / 100 == (y - 1) / 100 + (if y % 100 == 0 then 1 else 0)
  {
  }

  lemma Div400Step(y: int)
    ensures y / 400 == (y - 1) / 400 + (if y % 400 == 0 then 1 else 0)
  {
  }

  /** The twelve months add up to the year. */
  lemma MonthsFillYear(y: int)
    ensures DaysBeforeMonth(y, 12) == DaysInYear(y)
  {
    var feb := DaysInMonth(y, 1);
    assert DaysBeforeMonth(y, 1) == 31;
    assert DaysBeforeMonth(y, 2) == 31 + feb;
    assert DaysBeforeMonth(y, 3) == 31 + feb + 31;
    assert DaysBeforeMonth(y, 4) == 31 + feb + 31 + 30;
    assert DaysBeforeMonth(y, 5) == 31 + feb + 31 + 30 + 31;
    assert DaysBeforeMonth(y, 6) == 31 + feb + 31 + 30 + 31 + 30;
    assert DaysBeforeMonth(y, 7) == 31 + feb + 31 + 30 + 31 + 30 + 31;
    assert DaysBeforeMonth(y, 8) == 31 + feb + 31 + 30 + 31 + 30 + 31 + 31;
    assert DaysBeforeMonth(y, 9) == 31 + feb + 31 + 30 + 31 + 30 + 31 + 31 + 30;
    assert DaysBeforeMonth(y, 10) == 31 + feb + 31 + 30 + 31 + 30 + 31 + 31 + 30 + 31;
    assert DaysBeforeMonth(y, 11) == 31 + feb + 31 + 30 + 31 + 30 + 31 + 31 + 30 + 31 + 30;
    assert DaysBeforeMonth(y, 12) == 31 + feb + 31 + 30 + 31 + 30 + 31 + 31 + 30 + 31 + 30 + 31;
  }

  /** `new Date(y, m + 1, 0).getDate()` is the month's length: day 0 of the next
      month is the last day of this one. */
  lemma MonthLength(y: int, m: int)
    requires 0 <= m < 12
    ensures var (ny, nm) := NextMonth(y, m);
      DayNumber(ny, nm, 1) == DayNumber(y, m, 1) + DaysInMonth(y, m)
  {
    if m == 11 {
      DaysBeforeNextYear(y);
      MonthsFillYear(y);
    }
  }

  /** The first of the next month falls `DaysInMonth` weekdays later. */
  lemma WeekdayOfNextMonth(y: int, m: int)
    requires 0 <= m < 12
    ensures var (ny, nm) := NextMonth(y, m);
      Weekday(ny, nm, 1) == (Weekday(y, m, 1) + DaysInMonth(y, m)) % 7
  {
    MonthLength(y, m);
  }

  /** The Gregorian calendar repeats every 400 years, weekdays included. */
  lemma FourHundredYearCycle(y: int, m: int, d: int)
    requires 0 <= m < 12
    ensures IsLeapYear(y + 400) == IsLeapYear(y)
    ensures DayNumber(y + 400, m, d) == DayNumber(y, m, d) + 146097
    ensures Weekday(y + 400, m, d) == Weekday(y, m, d)
  {
    CycleDays(y, m, d);
    var n := DayNumber(y, m, d) + 1;
    assert n + 146097 == n + 7 * 20871;
    assert (n + 7 * 20871) % 7 == n % 7;
  }

  lemma CycleDays(y: int, m: int, d: int)
    requires 0 <= m < 12
    ensures IsLeapYear(y + 400) == IsLeapYear(y)
    ensures DayNumber(y + 400, m, d) == DayNumber(y, m, d) + 146097
  {
    assert (y + 400) % 4 == y % 4 && (y + 400) % 100 == y % 100 && (y + 400) % 400 == y % 400;
    assert (y + 400 - 1) / 4 == (y - 1) / 4 + 100;
    assert (y + 400 - 1) / 100 == (y - 1) / 100 + 4;
    assert (y + 400 - 1) / 400 == (y - 1) / 400 + 1;
    SameMonthsEveryCycle(y, m);
  }

  lemma {:induction false} SameMonthsEveryCycle(y: int, m: int)
    requires 0 <= m <= 12
    ensures DaysBeforeMonth(y + 400, m) == DaysBeforeMonth(y, m)
  {
    assert (y + 400) % 4 == y % 4 && (y + 400) % 100 == y % 100 && (y + 400) % 400 == y % 400;
    if m > 0 {
      SameMonthsEveryCycle(y, m - 1);
    }
  }

  /** Reference dates: 1 January 1970 was a Thursday and 1 January 2025 a Wednesday. */
  lemma KnownWeekdays()
    ensures Weekday(1970, 0, 1) == 4
    ensures Weekday(2025, 0, 1) == 3
  {
  }
}
