/**
 Proleptic Gregorian calendar arithmetic as JavaScript's `Date` does it:
 day numbers counted from 1970-01-01 (the DayFromYear and MakeDay
 operations of ECMA-262), month lengths, weekdays (0 = Sunday), and stepping
 one day forward or back. Months are 0-based, as `getMonth` returns them.
 */
module Gregorian {

  /** The Gregorian leap rule: every fourth year, except the century years
      that 400 does not divide. */
  predicate IsLeap(y: int): (r: bool)
    ensures y % 4 != 0 ==> !r
    ensures y % 4 == 0 && y % 100 != 0 ==> r
    ensures y % 100 == 0 ==> (r <==> y % 400 == 0)
  {
    y % 4 == 0 && (y % 100 != 0 || y % 400 == 0)
  }

  function DaysInYear(y: int): int
  {
    if IsLeap(y) then 366 else 365
  }

  /** Length of month `m` (0-based) of year `y`. */
  function DaysInMonth(y: int, m: int): (n: int)
    requires 0 <= m < 12
    ensures 28 <= n <= 31
    ensures m == 1 ==> (n == 29 <==> IsLeap(y))
  {
    if m == 1 then (if IsLeap(y) then 29 else 28)
    else if m == 3 || m == 5 || m == 8 || m == 10 then 30
    else 31
  }

  /** Days before the first of each month in a common year. */
  const MonthStart: seq<int> := [0, 31, 59, 90, 120, 151, 181, 212, 243, 273, 304, 334, 365]

  /** Days of year `y` before the first of month `m`. */
  function DaysBeforeMonth(y: int, m: int): int
    requires 0 <= m <= 12
  {
    MonthStart[m] + (if m >= 2 && IsLeap(y) then 1 else 0)
  }

  /** The cumulative table and the month lengths agree. */
  lemma MonthStep(y: int, m: int)
    requires 0 <= m < 12
    ensures DaysBeforeMonth(y, m + 1) == DaysBeforeMonth(y, m) + DaysInMonth(y, m)
    ensures DaysBeforeMonth(y, 12) == DaysInYear(y)
  {
  }

  /** DayFromYear: the day number of January 1 of year `y`. */
  function DayFromYear(y: int): int
  {
    365 * (y - 1970) + (y - 1969) / 4 - (y - 1901) / 100 + (y - 1601) / 400
  }

  /** One more of `a / k` is reached exactly when `a + 1` is a multiple. */
  lemma FloorStep4(a: int)
    ensures (a + 1) / 4 - a / 4 == if (a + 1) % 4 == 0 then 1 else 0
  {
  }

  lemma FloorStep100(a: int)
    ensures (a + 1) / 100 - a / 100 == if (a + 1) % 100 == 0 then 1 else 0
  {
  }

  lemma FloorStep400(a: int)
    ensures (a + 1) / 400 - a / 400 == if (a + 1) % 400 == 0 then 1 else 0
  {
  }

  /** Each of the three leap-year terms of DayFromYear grows by one from
      `y` to `y + 1` exactly when `y` is a multiple of its period. */
  lemma Step4(y: int)
    ensures (y - 1968) / 4 - (y - 1969) / 4 == if y % 4 == 0 then 1 else 0
  {
    FloorStep4(y - 1969);
    assert y - 1968 == 4 * (y / 4 - 492) + y % 4;
  }

  lemma Step100(y: int)
    ensures (y - 1900) / 100 - (y - 1901) / 100 == if y % 100 == 0 then 1 else 0
  {
    FloorStep100(y - 1901);
    assert y - 1900 == 100 * (y / 100 - 19) + y % 100;
  }

  lemma Step400(y: int)
    ensures (y - 1600) / 400 - (y - 1601) / 400 == if y % 400 == 0 then 1 else 0
  {
    FloorStep400(y - 1601);
    assert y - 1600 == 400 * (y / 400 - 4) + y % 400;
  }

  /** A multiple of 400 is a multiple of 100, which is a multiple of 4. */
  lemma DivisibilityChain(y: int)
    ensures y % 400 == 0 ==> y % 100 == 0
    ensures y % 100 == 0 ==> y % 4 == 0
  {
    var q400, q100 := y / 400, y / 100;
    assert y == 400 * q400 + y % 400;
    assert y == 100 * q100 + y % 100;
    assert y % 400 == 0 ==> y - 100 * (4 * q400) == 0;
    assert y % 100 == 0 ==> y - 4 * (25 * q100) == 0;
  }

  /** Consecutive years start `DaysInYear` days apart. */
  lemma YearStep(y: int)
    ensures DayFromYear(y + 1) == DayFromYear(y) + DaysInYear(y)
  {
    Step4(y);
    Step100(y);
    Step400(y);
    DivisibilityChain(y);
    var d4 := (y - 1968) / 4 - (y - 1969) / 4;
    var d100 := (y - 1900) / 100 - (y - 1901) / 100;
    var d400 := (y - 1600) / 400 - (y - 1601) / 400;
    assert DayFromYear(y + 1) - DayFromYear(y) == 365 + d4 - d100 + d400;
    if IsLeap(y) {
      assert d4 - d100 + d400 == 1;
    } else {
      assert d4 - d100 + d400 == 0;
    }
  }

  /** MakeDay(year, month, date): the day number of day `d` of month `m` of
      year `y`, where `m` may run past either end of the year and `d` past
      either end of the month, both carried over as `new Date(y, m, d)` does. */
  function MakeDay(y: int, m: int, d: int): (r: int)
    ensures 0 <= m < 12 && 1 <= d <= DaysInMonth(y, m) ==> DayFromYear(y) <= r < DayFromYear(y + 1)
  {
    var ym := y + m / 12;
    var mn := m % 12;
    assert 0 <= m < 12 && 1 <= d <= DaysInMonth(y, m) ==>
             DayFromYear(y) <= DayFromYear(ym) + DaysBeforeMonth(ym, mn) + d - 1 < DayFromYear(y + 1) by {
      if 0 <= m < 12 && 1 <= d <= DaysInMonth(y, m) {
        assert ym == y && mn == m;
        DateInYear(y, m, d);
      }
    }
    DayFromYear(ym) + DaysBeforeMonth(ym, mn) + d - 1
  }

  /** Day 0 is 1970-01-01, and each year between it and `y` contributes 365
      or 366 days, so the start of year `y` lies between the two bounds. */
  lemma {:induction false} DayFromYearBounds(y: int)
    ensures DayFromYear(1970) == 0
    ensures y >= 1970 ==> 365 * (y - 1970) <= DayFromYear(y) <= 366 * (y - 1970)
    ensures y < 1970 ==> 366 * (y - 1970) <= DayFromYear(y) <= 365 * (y - 1970)
    decreases if y >= 1970 then y - 1970 else 1970 - y
  {
    if y > 1970 {
      DayFromYearBounds(y - 1);
      YearStep(y - 1);
    } else if y < 1970 {
      DayFromYearBounds(y + 1);
      YearStep(y);
    }
  }

  /** The days before a month plus its length never exceed the year: a day
      of month `m` falls between the first day of its year and the next. */
  lemma DateInYear(y: int, m: int, d: int)
    requires 0 <= m < 12 && 1 <= d <= DaysInMonth(y, m)
    ensures DayFromYear(y) <= DayFromYear(y) + DaysBeforeMonth(y, m) + d - 1 < DayFromYear(y + 1)
  {
    MonthStep(y, m);
    MonthsFill(y, m + 1);
    YearStep(y);
  }

  /** The cumulative month table only grows towards the end of the year. */
  lemma {:induction false} MonthsFill(y: int, m: int)
    requires 0 <= m <= 12
    ensures 0 <= DaysBeforeMonth(y, m) <= DaysInYear(y)
    decreases 12 - m
  {
    if m < 12 {
      MonthsFill(y, m + 1);
      MonthStep(y, m);
    } else {
      MonthStep(y, 11);
    }
  }

  /** For a month inside the year no carrying happens. */
  lemma MakeDayInYear(y: int, m: int, d: int)
    requires 0 <= m < 12
    ensures MakeDay(y, m, d) == DayFromYear(y) + DaysBeforeMonth(y, m) + d - 1
  {
    assert m / 12 == 0 && m % 12 == m;
  }

  /** Month 12 is January of the following year. */
  lemma MakeDayCarry(y: int, d: int)
    ensures MakeDay(y, 12, d) == DayFromYear(y + 1) + d - 1
  {
    assert 12 / 12 == 1 && 12 % 12 == 0;
  }

  /** WeekDay: 0 is Sunday; 1970-01-01 was a Thursday. */
  function WeekdayOf(dayNumber: int): (w: int)
    ensures 0 <= w < 7
    ensures dayNumber == 0 ==> w == 4
    ensures (dayNumber - w) % 7 == 3
  {
    (dayNumber + 4) % 7
  }

  /** Moving `n` days moves the weekday by `n` modulo 7. */
  lemma WeekdayShift(a: int, n: int)
    ensures WeekdayOf(a + n) == (WeekdayOf(a) + n) % 7
  {
    var q := (a + 4) / 7;
    var r := (a + 4) % 7;
    assert a + n + 4 == 7 * q + (r + n);
  }

  /** Going back by the weekday lands on a Sunday. */
  lemma BackToSunday(n: int)
    ensures WeekdayOf(n - WeekdayOf(n)) == 0
  {
    var q := (n + 4) / 7;
    assert n - WeekdayOf(n) + 4 == 7 * q;
  }

  /** The `i`-th day after a Sunday has weekday `i`. */
  lemma DaysAfterSunday(n: int, i: int)
    requires WeekdayOf(n) == 0 && 0 <= i < 7
    ensures WeekdayOf(n + i) == i
  {
    var q := (n + 4) / 7;
    assert n + i + 4 == 7 * q + i;
  }

  /** `new Date(y, m + 1, 0)` is the last day of month `m`: the day before
      the first of the next month is day `DaysInMonth(y, m)` of month `m`. */
  lemma DayZeroIsLastDay(y: int, m: int)
    requires 0 <= m < 12
    ensures MakeDay(y, m + 1, 0) == MakeDay(y, m, DaysInMonth(y, m))
    ensures MakeDay(y, m + 1, 1) == MakeDay(y, m, 1) + DaysInMonth(y, m)
  {
    MonthStep(y, m);
    MakeDayInYear(y, m, DaysInMonth(y, m));
    MakeDayInYear(y, m, 1);
    if m == 11 {
      YearStep(y);
      MakeDayCarry(y, 0);
      MakeDayCarry(y, 1);
    } else {
      MakeDayInYear(y, m + 1, 0);
      MakeDayInYear(y, m + 1, 1);
    }
  }

  /** The first of a month falls `DaysInMonth` weekdays after the first of
      the previous one (the grid of the next month starts where this one
      left off). */
  lemma FirstWeekdayAdvance(y: int, m: int)
    requires 0 <= m < 12
    ensures WeekdayOf(MakeDay(y, m + 1, 1)) == (WeekdayOf(MakeDay(y, m, 1)) + DaysInMonth(y, m)) % 7
  {
    DayZeroIsLastDay(y, m);
    WeekdayShift(MakeDay(y, m, 1), DaysInMonth(y, m));
  }

  /** A calendar date as the `Date` getters report it: full year, 0-based
      month, 1-based day of the month. */
  datatype Date = Date(year: int, month: int, day: int)

  predicate ValidDate(dt: Date)
  {
    0 <= dt.month < 12 && 1 <= dt.day <= DaysInMonth(dt.year, dt.month)
  }

  /** The day number of a date whose month is within the year; it is what
      MakeDay gives for it (`DayNumberIsMakeDay`). */
  function DayNumber(dt: Date): int
    requires 0 <= dt.month < 12
  {
    DayFromYear(dt.year) + DaysBeforeMonth(dt.year, dt.month) + dt.day - 1
  }

  lemma DayNumberIsMakeDay(dt: Date)
    requires 0 <= dt.month < 12
    ensures DayNumber(dt) == MakeDay(dt.year, dt.month, dt.day)
  {
    MakeDayInYear(dt.year, dt.month, dt.day);
  }

  /** A valid date lies between the first day of its year and the first day
      of the next. */
  lemma DayNumberInYear(dt: Date)
    requires ValidDate(dt)
    ensures DayFromYear(dt.year) <= DayNumber(dt) < DayFromYear(dt.year + 1)
  {
    DateInYear(dt.year, dt.month, dt.day);
  }

  /** Years start in increasing order: an earlier year ends no later than a
      later one starts. */
  lemma {:induction false} DayFromYearMonotone(a: int, b: int)
    requires a < b
    ensures DayFromYear(a + 1) <= DayFromYear(b)
    decreases b - a
  {
    if a + 1 < b {
      DayFromYearMonotone(a, b - 1);
      YearStep(b - 1);
    }
  }

  /** Within a year, an earlier month ends no later than a later one starts. */
  lemma {:induction false} MonthOrder(y: int, m1: int, m2: int)
    requires 0 <= m1 < m2 <= 12
    ensures DaysBeforeMonth(y, m1) + DaysInMonth(y, m1) <= DaysBeforeMonth(y, m2)
    decreases m2 - m1
  {
    MonthStep(y, m1);
    if m1 + 1 < m2 {
      MonthOrder(y, m1 + 1, m2);
    }
  }

  /** Distinct valid dates have distinct day numbers, so a valid date is
      determined by its day number: a date with the right number is the one
      the `Date` getters report. */
  lemma DayNumberInjective(a: Date, b: Date)
    requires ValidDate(a) && ValidDate(b) && DayNumber(a) == DayNumber(b)
    ensures a == b
  {
    SameDayNumberSameYear(a, b);
    SameOffsetSameDate(a, b);
  }

  /** Dates with the same day number lie in the same year. */
  lemma SameDayNumberSameYear(a: Date, b: Date)
    requires ValidDate(a) && ValidDate(b) && DayNumber(a) == DayNumber(b)
    ensures a.year == b.year
  {
    var n := DayNumber(a);
    assert DayFromYear(a.year) <= n < DayFromYear(a.year + 1) by { DayNumberInYear(a); }
    assert DayFromYear(b.year) <= n < DayFromYear(b.year + 1) by { DayNumberInYear(b); }
    YearOfDay(a.year, b.year, n);
  }

  /** A day number lies in at most one year. */
  lemma YearOfDay(ya: int, yb: int, n: int)
    requires DayFromYear(ya) <= n < DayFromYear(ya + 1)
    requires DayFromYear(yb) <= n < DayFromYear(yb + 1)
    ensures ya == yb
  {
    if ya < yb {
      DayFromYearMonotone(ya, yb);
    } else if yb < ya {
      DayFromYearMonotone(yb, ya);
    }
  }

  /** Within one year, a date is determined by its offset from January 1. */
  lemma SameOffsetSameDate(a: Date, b: Date)
    requires ValidDate(a) && ValidDate(b) && a.year == b.year
    requires DaysBeforeMonth(a.year, a.month) + a.day == DaysBeforeMonth(b.year, b.month) + b.day
    ensures a == b
  {
    if a.month < b.month {
      MonthOrder(a.year, a.month, b.month);
    } else if b.month < a.month {
      MonthOrder(a.year, b.month, a.month);
    }
  }

  /** `getDay`: the weekday of a date, 0 for Sunday. */
  function Weekday(dt: Date): (w: int)
    requires 0 <= dt.month < 12
    ensures 0 <= w < 7
    ensures dt == Date(1970, 0, 1) ==> w == 4
    ensures (DayNumber(dt) - w) % 7 == 3
  {
    WeekdayOf(DayNumber(dt))
  }

  /** The following calendar day. */
  function NextDate(dt: Date): (r: Date)
    requires ValidDate(dt)
    ensures ValidDate(r)
  {
    if dt.day < DaysInMonth(dt.year, dt.month) then Date(dt.year, dt.month, dt.day + 1)
    else if dt.month < 11 then Date(dt.year, dt.month + 1, 1)
    else Date(dt.year + 1, 0, 1)
  }

  /** The preceding calendar day. */
  function PrevDate(dt: Date): (r: Date)
    requires ValidDate(dt)
    ensures ValidDate(r)
  {
    if dt.day > 1 then Date(dt.year, dt.month, dt.day - 1)
    else if dt.month > 0 then Date(dt.year, dt.month - 1, DaysInMonth(dt.year, dt.month - 1))
    else Date(dt.year - 1, 11, 31)
  }

  /** The following day is one day number later. */
  lemma NextDateNumber(dt: Date)
    requires ValidDate(dt)
    ensures DayNumber(NextDate(dt)) == DayNumber(dt) + 1
  {
    MonthStep(dt.year, dt.month);
    if dt.day == DaysInMonth(dt.year, dt.month) && dt.month == 11 {
      YearStep(dt.year);
    }
  }

  /** The preceding day is one day number earlier. */
  lemma PrevDateNumber(dt: Date)
    requires ValidDate(dt)
    ensures DayNumber(PrevDate(dt)) == DayNumber(dt) - 1
  {
    if dt.day == 1 {
      if dt.month > 0 {
        MonthStep(dt.year, dt.month - 1);
      } else {
        MonthStep(dt.year - 1, 11);
        YearStep(dt.year - 1);
      }
    }
  }

  /** Stepping back a day and forward again (or the other way) returns to
      the same date. */
  lemma StepRoundTrip(dt: Date)
    requires ValidDate(dt)
    ensures NextDate(PrevDate(dt)) == dt
    ensures PrevDate(NextDate(dt)) == dt
  {
  }

  /** `n` days before `dt`. */
  function StepBack(dt: Date, n: nat): (r: Date)
    requires ValidDate(dt)
    ensures ValidDate(r)
  {
    if n == 0 then dt else PrevDate(StepBack(dt, n - 1))
  }

  /** `n` days after `dt`. */
  function StepForward(dt: Date, n: nat): (r: Date)
    requires ValidDate(dt)
    ensures ValidDate(r)
    decreases n
  {
    if n == 0 then dt else StepForward(NextDate(dt), n - 1)
  }

  /** `n` steps back lower the day number by `n`. */
  lemma {:induction false} StepBackNumber(dt: Date, n: nat)
    requires ValidDate(dt)
    ensures DayNumber(StepBack(dt, n)) == DayNumber(dt) - n
  {
    if n > 0 {
      StepBackNumber(dt, n - 1);
      PrevDateNumber(StepBack(dt, n - 1));
    }
  }

  /** `n` steps forward raise the day number by `n`. */
  lemma {:induction false} StepForwardNumber(dt: Date, n: nat)
    requires ValidDate(dt)
    ensures DayNumber(StepForward(dt, n)) == DayNumber(dt) + n
    decreases n
  {
    if n > 0 {
      NextDateNumber(dt);
      StepForwardNumber(NextDate(dt), n - 1);
    }
  }

  /** Going `n` days back and `n` days forward is the identity. */
  lemma {:induction false} BackThenForward(dt: Date, n: nat)
    requires ValidDate(dt)
    ensures StepForward(StepBack(dt, n), n) == dt
  {
    if n > 0 {
      var b := StepBack(dt, n - 1);
      StepRoundTrip(b);
      assert StepBack(dt, n) == PrevDate(b);
      assert StepForward(PrevDate(b), n) == StepForward(NextDate(PrevDate(b)), n - 1);
      BackThenForward(dt, n - 1);
    }
  }

  lemma LeapFebruaries()
    ensures DaysInMonth(2024, 1) == 29 && DaysInMonth(2023, 1) == 28
    ensures DaysInMonth(2000, 1) == 29 && DaysInMonth(1900, 1) == 28
  {
  }

  /** Anchors: 1970-01-01 was a Thursday, 2024-02-01 a Thursday and
      2023-02-01 a Wednesday. */
  lemma KnownWeekdays()
    ensures Weekday(Date(1970, 0, 1)) == 4
    ensures Weekday(Date(2024, 1, 1)) == 4
    ensures Weekday(Date(2023, 1, 1)) == 3
  {
    assert DayNumber(Date(1970, 0, 1)) == 0;
    assert DayNumber(Date(2024, 1, 1)) == 19754;
    assert DayNumber(Date(2023, 1, 1)) == 19389;
  }
}
