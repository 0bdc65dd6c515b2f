/**
 * Proleptic Gregorian calendar arithmetic on ECMAScript day numbers.
 *
 * A JavaScript `Date` (taken at local midnight) is identified with its day
 * number: day 0 is 1970-01-01, as in ECMAScript's `Day(t)`.  Months are
 * 0-based, as `Date.prototype.getMonth` returns them.  Division is floor
 * division, which is what Dafny's `/` and `%` compute for a positive divisor.
 */
module Gregorian {

  /** A calendar date as `getFullYear`, `getMonth` and `getDate` report it. */
  datatype Date = Date(year: int, month: int, day: int)

  predicate IsLeapYear(y: int) {
    y % 4 == 0 && (y % 100 != 0 || y % 400 == 0)
  }

  function DaysInYear(y: int): int {
    if IsLeapYear(y) then 366 else 365
  }

  /** Number of days of month `m` (0-based) of year `y`. */
  function MonthLength(y: int, m: int): int
    requires 0 <= m < 12
  {
    if m == 1 then (if IsLeapYear(y) then 29 else 28)
    else if m == 3 || m == 5 || m == 8 || m == 10 then 30
    else 31
  }

  /** Days of year `y` that come before the first day of month `m` (0..12). */
  function DaysBeforeMonth(y: int, m: int): int
    requires 0 <= m <= 12
  {
    [0, 31, 59, 90, 120, 151, 181, 212, 243, 273, 304, 334, 365][m]
      + (if m >= 2 && IsLeapYear(y) then 1 else 0)
  }

  predicate ValidDate(d: Date) {
    0 <= d.month < 12 && 1 <= d.day <= MonthLength(d.year, d.month)
  }

  /** The day number of January 1st of `y`: years are laid end to end from 1970. */
  function DayFromYear(y: int): int
    decreases if y < 1970 then 1970 - y else y - 1970
  {
    if y == 1970 then 0
    else if y > 1970 then DayFromYear(y - 1) + DaysInYear(y - 1)
    else DayFromYear(y + 1) - DaysInYear(y)
  }

  /** ECMAScript `MakeDay`: month overflow carries into the year, day overflow into the month. */
  function MakeDay(y: int, m: int, d: int): int {
    var ym := y + m / 12;
    var mn := m % 12;
    DayFromYear(ym) + DaysBeforeMonth(ym, mn) + d - 1
  }

  /** The day number of a valid date: its New Year plus its day of the year. */
  function DaysFromCivil(d: Date): int
    requires ValidDate(d)
  {
    DayFromYear(d.year) + DaysBeforeMonth(d.year, d.month) + d.day - 1
  }

  /** For a month in range `MakeDay` is the day number of that date, whether or not the day is in range. */
  lemma MakeDayInYear(y: int, m: int, d: int)
    requires 0 <= m < 12
    ensures MakeDay(y, m, d) == DayFromYear(y) + DaysBeforeMonth(y, m) + d - 1
  {
    assert m / 12 == 0 && m % 12 == m;
  }

  /** ECMAScript `WeekDay`: 0 is Sunday; 1970-01-01 was a Thursday. */
  function Weekday(n: int): (w: int)
    ensures 0 <= w < 7
  {
    (n + 4) % 7
  }

  lemma MonthTable(y: int, m: int)
    requires 0 <= m < 12
    ensures DaysBeforeMonth(y, m + 1) == DaysBeforeMonth(y, m) + MonthLength(y, m)
    ensures DaysBeforeMonth(y, 0) == 0 && DaysBeforeMonth(y, 12) == DaysInYear(y)
  {
  }

  /** Consecutive New Years are one year's length apart. */
  lemma YearStep(y: int)
    ensures DayFromYear(y + 1) == DayFromYear(y) + DaysInYear(y)
  {
  }

  /** ECMAScript's closed form of `DayFromYear`, with floor division. */
  function EcmaDayFromYear(y: int): int {
    365 * (y - 1970) + (y - 1969) / 4 - (y - 1901) / 100 + (y - 1601) / 400
  }

  // The quotients of the closed form step up exactly at multiples of their divisor.

  lemma QuarterStep(y: int)
    ensures (y - 1968) / 4 == (y - 1969) / 4 + (if y % 4 == 0 then 1 else 0)
  {
    var q := (y - 1969) / 4;
    assert 4 * q <= y - 1969 < 4 * q + 4;
    if y - 1969 == 4 * q + 3 {
      assert (y - 1968) / 4 == q + 1;
      assert y == 4 * (q + 493);
    } else {
      assert (y - 1968) / 4 == q;
      assert y % 4 != 0;
    }
  }

  lemma CenturyStep(y: int)
    ensures (y - 1900) / 100 == (y - 1901) / 100 + (if y % 100 == 0 then 1 else 0)
  {
    var q := (y - 1901) / 100;
    assert 100 * q <= y - 1901 < 100 * q + 100;
    if y - 1901 == 100 * q + 99 {
      assert (y - 1900) / 100 == q + 1;
      assert y == 100 * (q + 20);
    } else {
      assert (y - 1900) / 100 == q;
      assert y % 100 != 0;
    }
  }

  lemma QuadCenturyStep(y: int)
    ensures (y - 1600) / 400 == (y - 1601) / 400 + (if y % 400 == 0 then 1 else 0)
  {
    var q := (y - 1601) / 400;
    assert 400 * q <= y - 1601 < 400 * q + 400;
    if y - 1601 == 400 * q + 399 {
      assert (y - 1600) / 400 == q + 1;
      assert y == 400 * (q + 5);
    } else {
      assert (y - 1600) / 400 == q;
      assert y % 400 != 0;
    }
  }

  /** A year's length: 365, one more every fourth year, one fewer every hundredth, one more every four hundredth. */
  lemma LeapCount(y: int)
    ensures DaysInYear(y) == 365 + (if y % 4 == 0 then 1 else 0) - (if y % 100 == 0 then 1 else 0)
                                 + (if y % 400 == 0 then 1 else 0)
  {
    if y % 400 == 0 {
      Div400(y);
    }
    if y % 100 == 0 {
      Div100(y);
    }
  }

  lemma Div400(y: int)
    requires y % 400 == 0
    ensures y % 100 == 0
  {
    var q := y / 400;
    assert y == 100 * (4 * q);
  }

  lemma Div100(y: int)
    requires y % 100 == 0
    ensures y % 4 == 0
  {
    var q := y / 100;
    assert y == 4 * (25 * q);
  }

  lemma EcmaYearStep(y: int)
    ensures EcmaDayFromYear(y + 1) == EcmaDayFromYear(y) + DaysInYear(y)
  {
    QuarterStep(y);
    CenturyStep(y);
    QuadCenturyStep(y);
    LeapCount(y);
  }

  /** The year-by-year definition agrees with ECMAScript's closed form. */
  lemma {:induction false} DayFromYearClosedForm(y: int)
    ensures DayFromYear(y) == EcmaDayFromYear(y)
    decreases if y < 1970 then 1970 - y else y - 1970
  {
    if y > 1970 {
      DayFromYearClosedForm(y - 1);
      EcmaYearStep(y - 1);
    } else if y < 1970 {
      DayFromYearClosedForm(y + 1);
      EcmaYearStep(y);
    }
  }

  lemma {:induction false} DayFromYearMonotone(a: int, b: int)
    requires a <= b
    ensures DayFromYear(a) <= DayFromYear(b)
    ensures a < b ==> DayFromYear(a + 1) <= DayFromYear(b)
    decreases b - a
  {
    if a < b {
      YearStep(a);
      DayFromYearMonotone(a + 1, b);
    }
  }

  /**
   * The year containing day `n`, searched year by year from `y`.
   * The measure is the distance from `n` to the days of year `y`.
   */
  function YearFrom(n: int, y: int): (r: int)
    ensures DayFromYear(r) <= n < DayFromYear(r + 1)
    decreases if n < DayFromYear(y) then DayFromYear(y) - n
              else if n >= DayFromYear(y + 1) then n - DayFromYear(y + 1) + 1
              else 0
  {
    YearStep(y - 1);
    YearStep(y);
    if n < DayFromYear(y) then YearFrom(n, y - 1)
    else if n >= DayFromYear(y + 1) then YearFrom(n, y + 1)
    else y
  }

  /** The month (0-based) containing day-of-year `doy`, searched downwards from `m`. */
  function MonthFrom(y: int, doy: int, m: int): (r: int)
    requires 0 <= doy && 0 <= m < 12 && doy < DaysBeforeMonth(y, m + 1)
    ensures 0 <= r <= m
    ensures DaysBeforeMonth(y, r) <= doy < DaysBeforeMonth(y, r + 1)
  {
    if m == 0 || doy >= DaysBeforeMonth(y, m) then m
    else MonthFrom(y, doy, m - 1)
  }

  /** `getFullYear`, `getMonth` and `getDate` of day `n`. */
  function Civil(n: int): (d: Date)
    ensures ValidDate(d) && DaysFromCivil(d) == n
  {
    var y := YearFrom(n, 1970);
    YearStep(y);
    var m := MonthFrom(y, n - DayFromYear(y), 11);
    MonthTable(y, m);
    Date(y, m, n - DayFromYear(y) - DaysBeforeMonth(y, m) + 1)
  }

  /** A valid date's day number lies within its year. */
  lemma DayOfYear(d: Date)
    requires ValidDate(d)
    ensures DayFromYear(d.year) <= DaysFromCivil(d) < DayFromYear(d.year + 1)
  {
    YearStep(d.year);
    MonthTable(d.year, d.month);
    assert DaysBeforeMonth(d.year, d.month + 1) <= DaysInYear(d.year);
  }

  /** A day lies in one year only. */
  lemma YearUnique(n: int, a: int, b: int)
    requires DayFromYear(a) <= n < DayFromYear(a + 1)
    requires DayFromYear(b) <= n < DayFromYear(b + 1)
    ensures a == b
  {
    if a < b {
      DayFromYearMonotone(a, b);
    } else if b < a {
      DayFromYearMonotone(b, a);
    }
  }

  lemma {:induction false} MonthsMonotone(y: int, a: int, b: int)
    requires 0 <= a < b <= 12
    ensures DaysBeforeMonth(y, a + 1) <= DaysBeforeMonth(y, b)
    decreases b - a
  {
    if a + 1 < b {
      MonthTable(y, a + 1);
      MonthsMonotone(y, a + 1, b);
    }
  }

  /** A day of the year lies in one month only. */
  lemma MonthUnique(y: int, doy: int, a: int, b: int)
    requires 0 <= a < 12 && 0 <= b < 12
    requires DaysBeforeMonth(y, a) <= doy < DaysBeforeMonth(y, a + 1)
    requires DaysBeforeMonth(y, b) <= doy < DaysBeforeMonth(y, b + 1)
    ensures a == b
  {
    if a < b {
      MonthsMonotone(y, a, b);
    } else if b < a {
      MonthsMonotone(y, b, a);
    }
  }

  /** Distinct valid dates have distinct day numbers. */
  lemma DaysFromCivilInjective(d: Date, e: Date)
    requires ValidDate(d) && ValidDate(e)
    requires DaysFromCivil(d) == DaysFromCivil(e)
    ensures d == e
  {
    var n := DaysFromCivil(d);
    DayOfYear(d);
    DayOfYear(e);
    YearUnique(n, d.year, e.year);
    var y := d.year;
    MonthTable(y, d.month);
    MonthTable(y, e.month);
    MonthUnique(y, n - DayFromYear(y), d.month, e.month);
  }

  /** Converting a valid date to its day number and back gives the date again. */
  lemma CivilOfDays(d: Date)
    requires ValidDate(d)
    ensures Civil(DaysFromCivil(d)) == d
  {
    DaysFromCivilInjective(Civil(DaysFromCivil(d)), d);
  }

  /** Day numbers of one month are consecutive and the next month follows on. */
  lemma NextMonthFollows(y: int, m: int)
    requires 0 <= m < 12
    ensures MakeDay(y, m + 1, 1) == MakeDay(y, m, 1) + MonthLength(y, m)
  {
    MonthTable(y, m);
    MakeDayInYear(y, m, 1);
    if m < 11 {
      MakeDayInYear(y, m + 1, 1);
    } else {
      YearStep(y);
      assert MakeDay(y, m + 1, 1) == DayFromYear(y + 1);
    }
  }
}
