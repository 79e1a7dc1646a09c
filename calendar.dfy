/**
 * Local calendar arithmetic behind `new Date(seconds * 1000)` and its
 * `getFullYear`, `getMonth`, `getDate` and `getDay` getters, for a deployment
 * whose local zone is a fixed offset from UTC (UTC+9, no daylight saving).
 * Dates are proleptic Gregorian, as JavaScript's are.
 */
module Calendar {

  const SecondsPerDay: int := 86400
  /** The local zone's offset from UTC, in seconds (UTC+9). */
  const LocalOffset: int := 32400

  /** The number of the local calendar day holding epoch second `ts`
      (day 0 is 1970-01-01). Dafny's `/` floors for a positive divisor. */
  function LocalDayNumber(ts: int): int {
    (ts + LocalOffset) / SecondsPerDay
  }

  /** Seconds elapsed since local midnight at epoch second `ts`. */
  function LocalSecondsOfDay(ts: int): (r: int)
    ensures 0 <= r < SecondsPerDay
    ensures ts + LocalOffset == LocalDayNumber(ts) * SecondsPerDay + r
  {
    (ts + LocalOffset) % SecondsPerDay
  }

  predicate IsLeapYear(y: int) {
    y % 4 == 0 && (y % 100 != 0 || y % 400 == 0)
  }

  function DaysInYear(y: int): int {
    if IsLeapYear(y) then 366 else 365
  }

  const CommonMonthStarts: seq<int> := [0, 31, 59, 90, 120, 151, 181, 212, 243, 273, 304, 334, 365]
  const LeapMonthStarts: seq<int> := [0, 31, 60, 91, 121, 152, 182, 213, 244, 274, 305, 335, 366]

  /** Days of year `y` before month `m` (0 = January); month 12 stands for the year's end. */
  function MonthStart(y: int, m: int): (r: int)
    requires 0 <= m <= 12
    ensures m == 0 ==> r == 0
    ensures m == 12 ==> r == DaysInYear(y)
  {
    if IsLeapYear(y) then LeapMonthStarts[m] else CommonMonthStarts[m]
  }

  /** Every month has at least 28 days. */
  lemma MonthStartGrows(y: int, m: int)
    requires 0 < m <= 12
    ensures MonthStart(y, m - 1) + 28 <= MonthStart(y, m)
  {
  }

  /** Days from 1970-01-01 to January 1st of year `y` (negative before 1970). */
  function YearStart(y: int): int
    decreases if y < 1970 then 1970 - y else y - 1970
  {
    if y == 1970 then 0
    else if y > 1970 then YearStart(y - 1) + DaysInYear(y - 1)
    else YearStart(y + 1) - DaysInYear(y)
  }

  lemma YearStartStep(y: int)
    ensures YearStart(y + 1) == YearStart(y) + DaysInYear(y)
  {
  }

  /** A calendar date as the getters report it: `month` counts from 0 like
      `getMonth()`, `day` from 1 like `getDate()`. */
  datatype Date = Date(year: int, month: int, day: int)

  predicate ValidDate(d: Date) {
    0 <= d.month < 12 && 1 <= d.day <= MonthStart(d.year, d.month + 1) - MonthStart(d.year, d.month)
  }

  /** The day number of a valid date: the inverse of `CivilDate`. */
  function DayNumberOf(d: Date): int
    requires ValidDate(d)
  {
    YearStart(d.year) + MonthStart(d.year, d.month) + d.day - 1
  }

  /** The month of year `y` holding day-of-year `doy`, searching from month `m` down. */
  function MonthOf(y: int, doy: int, m: int): (r: int)
    requires 0 <= m < 12 && 0 <= doy < MonthStart(y, m + 1)
    ensures 0 <= r <= m && MonthStart(y, r) <= doy < MonthStart(y, r + 1)
  {
    if MonthStart(y, m) <= doy then m else MonthOf(y, doy, m - 1)
  }

  /** The year holding day number `n`, searching upwards from `y`. */
  function YearUp(y: int, n: int): (r: int)
    requires YearStart(y) <= n
    ensures YearStart(r) <= n < YearStart(r + 1)
    decreases n - YearStart(y)
  {
    YearStartStep(y);
    if n < YearStart(y + 1) then y else YearUp(y + 1, n)
  }

  /** The year holding day number `n`, searching downwards from `y`. */
  function YearDown(y: int, n: int): (r: int)
    requires n < YearStart(y + 1)
    ensures YearStart(r) <= n < YearStart(r + 1)
    decreases YearStart(y + 1) - n
  {
    YearStartStep(y);
    YearStartStep(y - 1);
    if YearStart(y) <= n then y else YearDown(y - 1, n)
  }

  /** The calendar date of day number `n`. */
  function CivilDate(n: int): (d: Date)
    ensures ValidDate(d)
    ensures DayNumberOf(d) == n
  {
    var y := if n >= 0 then YearUp(1970, n) else YearDown(1969, n);
    YearStartStep(y);
    var doy := n - YearStart(y);
    var m := MonthOf(y, doy, 11);
    Date(y, m, doy - MonthStart(y, m) + 1)
  }

  /** Every valid date is the date of its own day number. */
  lemma {:induction false} CivilDateOfDayNumber(d: Date)
    requires ValidDate(d)
    ensures CivilDate(DayNumberOf(d)) == d
  {
    DayNumberInjective(d, CivilDate(DayNumberOf(d)));
  }

  /** Two valid dates with the same day number are the same date. */
  lemma DayNumberInjective(d: Date, e: Date)
    requires ValidDate(d) && ValidDate(e)
    requires DayNumberOf(d) == DayNumberOf(e)
    ensures d == e
  {
    var n := DayNumberOf(d);
    InYear(d);
    InYear(e);
    YearUnique(d.year, e.year, n);
    MonthUnique(d.year, d.month, e.month, n - YearStart(d.year));
  }

  /** A valid date lies in its year and in its month. */
  lemma InYear(d: Date)
    requires ValidDate(d)
    ensures YearStart(d.year) <= DayNumberOf(d) < YearStart(d.year + 1)
    ensures MonthStart(d.year, d.month) <= DayNumberOf(d) - YearStart(d.year) < MonthStart(d.year, d.month + 1)
  {
    YearStartStep(d.year);
    MonthStartBounded(d.year, d.month + 1);
  }

  /** No month starts after the year ends. */
  lemma MonthStartBounded(y: int, m: int)
    requires 0 <= m <= 12
    ensures MonthStart(y, m) <= DaysInYear(y)
  {
  }

  /** A day number lies in one year only. */
  lemma YearUnique(a: int, b: int, n: int)
    requires YearStart(a) <= n < YearStart(a + 1)
    requires YearStart(b) <= n < YearStart(b + 1)
    ensures a == b
  {
    YearOrder(a, b);
    YearOrder(b, a);
  }

  /** A day of the year lies in one month only. */
  lemma MonthUnique(y: int, a: int, b: int, doy: int)
    requires 0 <= a < 12 && 0 <= b < 12
    requires MonthStart(y, a) <= doy < MonthStart(y, a + 1)
    requires MonthStart(y, b) <= doy < MonthStart(y, b + 1)
    ensures a == b
  {
    MonthOrder(y, a, b);
    MonthOrder(y, b, a);
  }

  /** Years that start later hold later days. */
  lemma {:induction false} YearOrder(a: int, b: int)
    ensures a < b ==> YearStart(a + 1) <= YearStart(b)
    decreases if a < b then b - a else 0
  {
    if a + 1 < b {
      YearOrder(a + 1, b);
      YearStartStep(a + 1);
    }
  }

  /** Months that start later hold later days. */
  lemma {:induction false} MonthOrder(y: int, a: int, b: int)
    requires 0 <= a < 12 && 0 <= b < 12
    ensures a < b ==> MonthStart(y, a + 1) <= MonthStart(y, b)
    decreases if a < b then b - a else 0
  {
    if a + 1 < b {
      MonthOrder(y, a + 1, b);
      MonthStartGrows(y, a + 2);
    }
  }

  /** The date the local getters report for epoch second `ts`. */
  function LocalDate(ts: int): Date {
    CivilDate(LocalDayNumber(ts))
  }

  /** The source's same-day test: equal `getFullYear`, `getMonth` and `getDate`. */
  predicate SameCalendarDay(a: int, b: int) {
    var da := LocalDate(a);
    var db := LocalDate(b);
    da.year == db.year && da.month == db.month && da.day == db.day
  }

  /** Comparing year, month and day is comparing local day numbers. */
  lemma SameCalendarDayIff(a: int, b: int)
    ensures SameCalendarDay(a, b) <==> LocalDayNumber(a) == LocalDayNumber(b)
  {
    var da, db := LocalDate(a), LocalDate(b);
    if SameCalendarDay(a, b) {
      assert da == db;
    }
  }

  /** A calendar day is the interval of epoch seconds from its local midnight on. */
  lemma SameCalendarDayInterval(a: int, b: int)
    ensures SameCalendarDay(a, b) <==>
      a - LocalSecondsOfDay(a) <= b < a - LocalSecondsOfDay(a) + SecondsPerDay
  {
    SameCalendarDayIff(a, b);
    var da, db := LocalDayNumber(a), LocalDayNumber(b);
    var ra, rb := LocalSecondsOfDay(a), LocalSecondsOfDay(b);
    assert b - (a - ra) == (db - da) * SecondsPerDay + rb;
    if da < db {
      assert (db - da) * SecondsPerDay >= SecondsPerDay;
    } else if db < da {
      assert (da - db) * SecondsPerDay >= SecondsPerDay;
    }
  }

  /** The day changes at local midnight, not after 24 hours. */
  lemma MidnightStartsNewDay(ts: int)
    requires LocalSecondsOfDay(ts) == SecondsPerDay - 1
    ensures !SameCalendarDay(ts, ts + 1)
  {
    SameCalendarDayInterval(ts, ts + 1);
  }

  /** `getDay()`: 0 is Sunday; 1970-01-01 (day 0) was a Thursday. */
  function LocalWeekday(ts: int): (r: int)
    ensures 0 <= r < 7
  {
    (LocalDayNumber(ts) + 4) % 7
  }

  /** Two times fall on the same weekday exactly when their local days are a whole number
      of weeks apart. */
  lemma SameWeekdayIff(a: int, b: int)
    ensures LocalWeekday(a) == LocalWeekday(b) <==> (LocalDayNumber(a) - LocalDayNumber(b)) % 7 == 0
  {
  }

  /** The weekday repeats every seven days, in either direction. */
  lemma {:induction false} WeekdayRepeatsWeekly(ts: int, weeks: int)
    ensures LocalWeekday(ts + weeks * 7 * SecondsPerDay) == LocalWeekday(ts)
  {
    var n := LocalDayNumber(ts);
    var r := LocalSecondsOfDay(ts);
    var t := ts + weeks * 7 * SecondsPerDay;
    assert t + LocalOffset == (n + 7 * weeks) * SecondsPerDay + r;
    assert LocalDayNumber(t) == n + 7 * weeks;
    assert (n + 7 * weeks + 4) % 7 == (n + 4) % 7;
  }
}
