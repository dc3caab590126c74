/**
 * Date-only calendar values, as held by the `date` columns of the leave table.
 * A date is a (year, month, day) triple in the proleptic Gregorian calendar;
 * months run 1..12 (JavaScript's `getMonth()` counts from 0, which changes
 * nothing here). Chronological comparison goes through `DayIndex`, the number
 * of days since 0000-01-01, so that "a is before b" and "the number of days
 * from a to b" are integer facts.
 */
module Calendar {

  datatype Date = Date(year: nat, month: int, day: int)

  predicate IsLeapYear(y: int)
  {
    y % 4 == 0 && (y % 100 != 0 || y % 400 == 0)
  }

  function DaysInMonth(y: int, m: int): int
  {
    if m == 2 then (if IsLeapYear(y) then 29 else 28)
    else if m == 4 || m == 6 || m == 9 || m == 11 then 30
    else 31
  }

  function DaysInYear(y: int): int
  {
    if IsLeapYear(y) then 366 else 365
  }

  /** A real calendar day: month 1..12 and a day that exists in that month. */
  predicate ValidDate(d: Date)
  {
    1 <= d.month <= 12 && 1 <= d.day <= DaysInMonth(d.year, d.month)
  }

  /** Days of year `y` that lie before the first of month `m` (`m` in 1..13). */
  function DaysBeforeMonth(y: int, m: int): int
  {
    var common :=
      if m <= 1 then 0 else if m == 2 then 31 else if m == 3 then 59
      else if m == 4 then 90 else if m == 5 then 120 else if m == 6 then 151
      else if m == 7 then 181 else if m == 8 then 212 else if m == 9 then 243
      else if m == 10 then 273 else if m == 11 then 304 else if m == 12 then 334
      else 365;
    common + (if m > 2 && IsLeapYear(y) then 1 else 0)
  }

  /** Days from 0000-01-01 up to the first of January of year `y`. */
  function DaysBeforeYear(y: nat): nat
  {
    if y == 0 then 0 else DaysBeforeYear(y - 1) + DaysInYear(y - 1)
  }

  /** The day number of `d`: 0000-01-01 is day 0. */
  function DayIndex(d: Date): int
  {
    DaysBeforeYear(d.year) + DaysBeforeMonth(d.year, d.month) + d.day - 1
  }

  /** Lexicographic order on (year, month, day): the order of the calendar. */
  predicate Precedes(a: Date, b: Date)
  {
    a.year < b.year
    || (a.year == b.year && (a.month < b.month || (a.month == b.month && a.day < b.day)))
  }

  /** TypeORM's `Between(lo, hi)` on a date column: inclusive at both ends. */
  predicate Between(d: Date, lo: Date, hi: Date)
    ensures Between(d, lo, hi) ==> DayIndex(lo) <= DayIndex(hi)
    ensures d == lo || d == hi ==> (Between(d, lo, hi) <==> DayIndex(lo) <= DayIndex(hi))
  {
    DayIndex(lo) <= DayIndex(d) <= DayIndex(hi)
  }

  /** `new Date(y, 0, 1)` */
  function YearStart(y: nat): Date { Date(y, 1, 1) }

  /** `new Date(y, 11, 31)` */
  function YearEnd(y: nat): Date { Date(y, 12, 31) }

  /** `new Date(y, m - 1, 1)` */
  function MonthStart(y: nat, m: int): Date { Date(y, m, 1) }

  /** `new Date(y, m, 0)`: day 0 of the following month, i.e. the month's last day. */
  function MonthEnd(y: nat, m: int): Date { Date(y, m, DaysInMonth(y, m)) }

  /** The calendar day after `d`, rolling over month and year ends. */
  function NextDay(d: Date): Date
  {
    if d.day < DaysInMonth(d.year, d.month) then Date(d.year, d.month, d.day + 1)
    else if d.month < 12 then Date(d.year, d.month + 1, 1)
    else Date(d.year + 1, 1, 1)
  }

  lemma MonthStep(y: int, m: int)
    requires 1 <= m <= 12
    ensures DaysBeforeMonth(y, m + 1) == DaysBeforeMonth(y, m) + DaysInMonth(y, m)
    ensures DaysBeforeMonth(y, 13) == DaysInYear(y)
  {
  }

  lemma MonthsMonotone(y: int, m1: int, m2: int)
    requires 1 <= m1 < m2 <= 13
    ensures DaysBeforeMonth(y, m1) + DaysInMonth(y, m1) <= DaysBeforeMonth(y, m2)
  {
  }

  /** A whole year lies before every later year. */
  lemma {:induction false} YearsMonotone(a: nat, b: nat)
    requires a < b
    ensures DaysBeforeYear(a) + DaysInYear(a) <= DaysBeforeYear(b)
  {
    if a + 1 < b {
      YearsMonotone(a, b - 1);
    }
  }

  /** Every valid date falls inside its own year's block of day numbers. */
  lemma DayWithinYear(d: Date)
    requires ValidDate(d)
    ensures DaysBeforeYear(d.year) <= DayIndex(d) < DaysBeforeYear(d.year) + DaysInYear(d.year)
  {
    MonthsMonotone(d.year, d.month, 13);
  }

  /** Day numbers order valid dates exactly as the calendar does. */
  lemma DayIndexOrder(a: Date, b: Date)
    requires ValidDate(a) && ValidDate(b)
    ensures DayIndex(a) < DayIndex(b) <==> Precedes(a, b)
    ensures DayIndex(a) == DayIndex(b) <==> a == b
  {
    DayWithinYear(a);
    DayWithinYear(b);
    if a.year < b.year {
      YearsMonotone(a.year, b.year);
    } else if b.year < a.year {
      YearsMonotone(b.year, a.year);
    } else if a.month < b.month {
      MonthsMonotone(a.year, a.month, b.month);
    } else if b.month < a.month {
      MonthsMonotone(a.year, b.month, a.month);
    }
  }

  /** The annual window `Between(yearStart, yearEnd)` holds exactly the dates of year `y`. */
  lemma InYearWindow(d: Date, y: nat)
    requires ValidDate(d)
    ensures Between(d, YearStart(y), YearEnd(y)) <==> d.year == y
  {
    DayIndexOrder(d, YearStart(y));
    DayIndexOrder(YearEnd(y), d);
  }

  /** The monthly window `Between(monthStart, monthEnd)` holds exactly the dates of month `m` of year `y`. */
  lemma InMonthWindow(d: Date, y: nat, m: int)
    requires ValidDate(d) && 1 <= m <= 12
    ensures Between(d, MonthStart(y, m), MonthEnd(y, m)) <==> d.year == y && d.month == m
  {
    DayIndexOrder(d, MonthStart(y, m));
    DayIndexOrder(MonthEnd(y, m), d);
  }

  /** Moving to the next calendar day advances the day number by exactly one. */
  lemma NextDayIndex(d: Date)
    requires ValidDate(d)
    ensures ValidDate(NextDay(d))
    ensures DayIndex(NextDay(d)) == DayIndex(d) + 1
  {
    if d.day < DaysInMonth(d.year, d.month) {
    } else if d.month < 12 {
      MonthStep(d.year, d.month);
    } else {
      MonthStep(d.year, d.month);
      assert DaysBeforeYear(d.year + 1) == DaysBeforeYear(d.year) + DaysInYear(d.year);
    }
  }

  /** The last day of a month, as `new Date(y, m, 0)` yields it, is followed by the first of the next month. */
  lemma MonthEndRollsOver(y: nat, m: int)
    requires 1 <= m <= 12
    ensures ValidDate(MonthEnd(y, m))
    ensures NextDay(MonthEnd(y, m)) == if m < 12 then MonthStart(y, m + 1) else YearStart(y + 1)
  {
  }
}
