/**
 The calendar view: the month cursor and its navigation, the `Y-MM-DD` day
 key, the per-day cell (which assignments fall on it, whether any is an
 exam, whether it is today), the month grid, and the week strip.
 "Today" is an input rather than a reading of the clock.
 */
module Calendar {
  import opened Records
  import opened Text
  import opened Special
  import opened Gregorian
  import Seqs

  // ---------------------------------------------------------------------------
  // Cursor
  // ---------------------------------------------------------------------------

  /** The displayed month (0-based) and year. */
  datatype Cursor = Cursor(month: int, year: int)

  predicate ValidCursor(c: Cursor)
  {
    0 <= c.month <= 11
  }

  /** Months since January of year 0: navigation moves this by one. */
  function MonthIndex(c: Cursor): int
  {
    c.year * 12 + c.month
  }

  /** The previous-month button. */
  function Prev(c: Cursor): (r: Cursor)
    ensures ValidCursor(c) ==> ValidCursor(r) && MonthIndex(r) == MonthIndex(c) - 1
  {
    if c.month - 1 < 0 then Cursor(11, c.year - 1) else Cursor(c.month - 1, c.year)
  }

  /** The next-month button. */
  function Next(c: Cursor): (r: Cursor)
    ensures ValidCursor(c) ==> ValidCursor(r) && MonthIndex(r) == MonthIndex(c) + 1
  {
    if c.month + 1 > 11 then Cursor(0, c.year + 1) else Cursor(c.month + 1, c.year)
  }

  /** The today button: jump to the month holding `now`. */
  function TodayCursor(now: Date): (r: Cursor)
    requires ValidDate(now)
    ensures ValidCursor(r) && r.month == now.month && r.year == now.year
  {
    Cursor(now.month, now.year)
  }

  /** A valid cursor is determined by its month index. */
  lemma MonthIndexInjective(c: Cursor, d: Cursor)
    requires ValidCursor(c) && ValidCursor(d) && MonthIndex(c) == MonthIndex(d)
    ensures c == d
  {
  }

  /** Back then forward (or forward then back) returns to the same month. */
  lemma NavigationRoundTrip(c: Cursor)
    requires ValidCursor(c)
    ensures Next(Prev(c)) == c
    ensures Prev(Next(c)) == c
  {
    MonthIndexInjective(Next(Prev(c)), c);
    MonthIndexInjective(Prev(Next(c)), c);
  }

  /** Rolling over the ends of the year. */
  lemma YearRollover(y: int)
    ensures Prev(Cursor(0, y)) == Cursor(11, y - 1)
    ensures Next(Cursor(11, y)) == Cursor(0, y + 1)
  {
  }

  // ---------------------------------------------------------------------------
  // Day keys
  // ---------------------------------------------------------------------------

  /** `${year}-${String(month + 1).padStart(2, "0")}-${String(day).padStart(2, "0")}` */
  function DayKey(year: int, month: int, day: int): (k: string)
    ensures 1000 <= year <= 9999 && 0 <= month < 12 && 0 <= day < 100 ==>
              && |k| == 10 && k[4] == '-' && k[7] == '-'
              && AllDigits(k[..4]) && AllDigits(k[5..7]) && AllDigits(k[8..])
  {
    var y, mm, dd := IntToString(year), Pad2(IntToString(month + 1)), Pad2(IntToString(day));
    assert 1000 <= year <= 9999 && 0 <= month < 12 && 0 <= day < 100 ==>
             var k := y + "-" + mm + "-" + dd;
             && |k| == 10 && k[4] == '-' && k[7] == '-'
             && AllDigits(k[..4]) && AllDigits(k[5..7]) && AllDigits(k[8..]) by {
      if 1000 <= year <= 9999 && 0 <= month < 12 && 0 <= day < 100 {
        FourDigits(year);
        TwoDigits(month + 1);
        TwoDigits(day);
        KeyParts(y, mm, dd);
      }
    }
    y + "-" + mm + "-" + dd
  }

  /** The parts of an ISO 8601 extended calendar date `YYYY-MM-DD`. */
  datatype IsoDate = IsoDate(year: int, month: int, day: int)

  /** Reads a `YYYY-MM-DD` string (four-digit year, two-digit month and day). */
  function DecodeKey(s: string): (r: Option<IsoDate>)
    ensures r.Some? ==> |s| == 10 && s[4] == '-' && s[7] == '-'
  {
    if |s| == 10 && s[4] == '-' && s[7] == '-'
       && AllDigits(s[..4]) && AllDigits(s[5..7]) && AllDigits(s[8..])
    then Some(IsoDate(ParseNat(s[..4]), ParseNat(s[5..7]), ParseNat(s[8..])))
    else None
  }

  /** For a four-digit year the key is an ISO 8601 extended calendar date
      that reads back as the year, the 1-based month and the day. */
  lemma KeyRoundTrip(year: int, month: int, day: int)
    requires 1000 <= year <= 9999 && 0 <= month < 12 && 0 <= day < 100
    ensures DecodeKey(DayKey(year, month, day)) == Some(IsoDate(year, month + 1, day))
  {
    FourDigits(year);
    TwoDigits(month + 1);
    TwoDigits(day);
    KeyParts(IntToString(year), Pad2(IntToString(month + 1)), Pad2(IntToString(day)));
  }

  /** The fields of `y-mm-dd` sit at fixed offsets. */
  lemma KeyParts(y: string, mm: string, dd: string)
    requires |y| == 4 && |mm| == 2 && |dd| == 2
    ensures var k := y + "-" + mm + "-" + dd;
            |k| == 10 && k[4] == '-' && k[7] == '-'
            && k[..4] == y && k[5..7] == mm && k[8..] == dd
  {
    var k := y + "-" + mm + "-" + dd;
    assert k[..4] == y;
    assert k[5..7] == mm;
    assert k[8..] == dd;
  }

  /** Within one month, different days have different keys. */
  lemma KeyDayInjective(year: int, month: int, d1: int, d2: int)
    requires 0 <= d1 < 100 && 0 <= d2 < 100
    requires DayKey(year, month, d1) == DayKey(year, month, d2)
    ensures d1 == d2
  {
    var p := IntToString(year) + "-" + Pad2(IntToString(month + 1)) + "-";
    TwoDigits(d1);
    TwoDigits(d2);
    var k1 := DayKey(year, month, d1);
    var k2 := DayKey(year, month, d2);
    assert k1 == p + Pad2(IntToString(d1));
    assert k2 == p + Pad2(IntToString(d2));
    assert k1[|p|..] == Pad2(IntToString(d1));
    assert k2[|p|..] == Pad2(IntToString(d2));
  }

  // ---------------------------------------------------------------------------
  // Day cells
  // ---------------------------------------------------------------------------

  /** One day of the calendar as `addCalendarDay` draws it. */
  datatype DayCell = DayCell(
    day: int,
    key: string,
    items: seq<Assignment>,
    hasTask: bool,
    examDay: bool,
    isToday: bool)

  /** Some listed assignment is special (the forEach that adds `exam-day`). */
  function AnySpecial(xs: seq<Assignment>): (r: bool)
    ensures r <==> exists a :: a in xs && IsSpecialSpec(a.name)
  {
    if |xs| == 0 then false
    else if IsSpecial(xs[0].name) then true
    else
      assert forall a :: a in xs ==> a == xs[0] || a in xs[1..];
      AnySpecial(xs[1..])
  }

  function DueOn(key: string): Assignment -> bool
  {
    (a: Assignment) => a.dueDate == key
  }

  /** `addCalendarDay(day, month, year)`: the key of the day, the records due
      on it in collection order, and its three flags. */
  function AddCalendarDay(day: int, month: int, year: int, assignments: seq<Assignment>, today: Date): (c: DayCell)
    ensures c.day == day && c.key == DayKey(year, month, day)
    ensures forall a :: a in c.items <==> a in assignments && a.dueDate == c.key
    ensures forall a :: multiset(c.items)[a] == if a.dueDate == c.key then multiset(assignments)[a] else 0
    ensures c.hasTask <==> c.items != []
    ensures c.isToday <==> today == Date(year, month, day)
  {
    var key := DayKey(year, month, day);
    var items := Seqs.Filter(DueOn(key), assignments);
    assert forall a :: a in items <==> a in assignments && a.dueDate == key by {
      forall a ensures a in items <==> a in assignments && a.dueDate == key {
        Seqs.FilterMembership(DueOn(key), assignments, a);
      }
    }
    var isToday := day == today.day && month == today.month && year == today.year;
    DayCell(day, key, items, |items| > 0, AnySpecial(items), isToday)
  }

  /** A day is marked as having tasks exactly when some record is due on it. */
  lemma HasTaskIffDue(day: int, month: int, year: int, assignments: seq<Assignment>, today: Date)
    ensures var c := AddCalendarDay(day, month, year, assignments, today);
            c.hasTask <==> exists a :: a in assignments && a.dueDate == c.key
  {
    var c := AddCalendarDay(day, month, year, assignments, today);
    if c.hasTask {
      assert c.items[0] in c.items;
    }
  }

  /** A day is marked as an exam day exactly when some record due on it has
      a special name. */
  lemma ExamDayIffSpecialDue(day: int, month: int, year: int, assignments: seq<Assignment>, today: Date)
    ensures var c := AddCalendarDay(day, month, year, assignments, today);
            c.examDay <==> exists a :: a in assignments && a.dueDate == c.key && IsSpecialSpec(a.name)
  {
    var c := AddCalendarDay(day, month, year, assignments, today);
    assert c.examDay == AnySpecial(c.items);
  }

  /** Records added after others land after them in a day's list. */
  lemma CellKeepsCollectionOrder(day: int, month: int, year: int, xs: seq<Assignment>, ys: seq<Assignment>, today: Date)
    ensures AddCalendarDay(day, month, year, xs + ys, today).items
            == AddCalendarDay(day, month, year, xs, today).items + AddCalendarDay(day, month, year, ys, today).items
  {
    Seqs.FilterConcat(DueOn(DayKey(year, month, day)), xs, ys);
  }

  // ---------------------------------------------------------------------------
  // Month grid
  // ---------------------------------------------------------------------------

  /** `new Date(y, m, d)` reads a year from 0 to 99 as 1900 + y. */
  function ConstructorYear(y: int): (r: int)
    ensures 0 <= y <= 99 ==> 1900 <= r <= 1999 && r % 100 == y
    ensures r == y <==> !(0 <= y <= 99)
  {
    if 0 <= y <= 99 then 1900 + y else y
  }

  /** `new Date(year, month, 1).getDay()`. */
  function FirstDay(c: Cursor): (w: int)
    requires ValidCursor(c)
    ensures 0 <= w < 7
  {
    Weekday(Date(ConstructorYear(c.year), c.month, 1))
  }

  /** `new Date(year, month + 1, 0).getDate()`. */
  function MonthLength(c: Cursor): (n: int)
    requires ValidCursor(c)
    ensures 28 <= n <= 31
    ensures n == DaysInMonth(ConstructorYear(c.year), c.month)
  {
    DaysInMonth(ConstructorYear(c.year), c.month)
  }

  /** A slot of the month grid: an empty cell, or the cell of a day of the
      month, drawn by `addCalendarDay(day)`. */
  datatype GridCell = Blank | Day(day: int)

  /** The month branch of `renderCalendar`: one blank per weekday before the
      first, then the days 1 to the month's length in order. */
  function MonthGrid(c: Cursor): (g: seq<GridCell>)
    requires ValidCursor(c)
    ensures |g| == FirstDay(c) + MonthLength(c)
    ensures forall i :: 0 <= i < FirstDay(c) ==> g[i].Blank?
    ensures forall i :: FirstDay(c) <= i < |g| ==> g[i] == Day(i - FirstDay(c) + 1)
  {
    GridFrom(FirstDay(c), MonthLength(c))
  }

  /** `lead` blanks, then days 1 to `n`. */
  function GridFrom(lead: nat, n: nat): (g: seq<GridCell>)
    ensures |g| == lead + n
    ensures forall i :: 0 <= i < lead ==> g[i].Blank?
    ensures forall i :: lead <= i < |g| ==> g[i] == Day(i - lead + 1)
  {
    seq(lead + n, i => if i < lead then Blank else Day(i - lead + 1))
  }

  /** Day `d` of the grid sits in column (first weekday + d - 1) mod 7,
      which is the weekday of that date: the grid lines up with the week. */
  lemma GridDayColumns(c: Cursor, d: int)
    requires ValidCursor(c) && 1 <= d <= MonthLength(c)
    ensures (FirstDay(c) + d - 1) % 7 == Weekday(Date(ConstructorYear(c.year), c.month, d))
  {
    var y := ConstructorYear(c.year);
    var first := DayNumber(Date(y, c.month, 1));
    assert DayNumber(Date(y, c.month, d)) == first + (d - 1);
    WeekdayShift(first, d - 1);
  }

  /** A record due on day `d` of a month is in the cell of day `e` of that
      month exactly when `e` is `d`. */
  lemma DueInOneDay(year: int, month: int, assignments: seq<Assignment>, today: Date, a: Assignment, d: int, e: int)
    requires a in assignments && a.dueDate == DayKey(year, month, d)
    requires 0 <= d < 100 && 0 <= e < 100
    ensures a in AddCalendarDay(e, month, year, assignments, today).items <==> e == d
  {
    if a in AddCalendarDay(e, month, year, assignments, today).items {
      KeyDayInjective(year, month, d, e);
    }
  }

  /** A record due on a day of the displayed month is listed in that day's
      slot of the grid and in no other. */
  lemma GridBucketsOnce(c: Cursor, assignments: seq<Assignment>, today: Date, a: Assignment, d: int)
    requires ValidCursor(c) && a in assignments
    requires 1 <= d <= MonthLength(c) && a.dueDate == DayKey(c.year, c.month, d)
    ensures var g := MonthGrid(c);
            forall i :: FirstDay(c) <= i < |g| ==>
              (a in AddCalendarDay(g[i].day, c.month, c.year, assignments, today).items <==> i == FirstDay(c) + d - 1)
  {
    var g := MonthGrid(c);
    forall i | FirstDay(c) <= i < |g|
      ensures a in AddCalendarDay(g[i].day, c.month, c.year, assignments, today).items <==> i == FirstDay(c) + d - 1
    {
      DueInOneDay(c.year, c.month, assignments, today, a, d, g[i].day);
    }
  }

  /** February 2024 has 29 day cells after 4 blanks (it starts on a
      Thursday); February 2023 has 28 after 3 (a Wednesday). */
  lemma FebruaryGrids()
    ensures |MonthGrid(Cursor(1, 2024))| == 4 + 29
    ensures |MonthGrid(Cursor(1, 2023))| == 3 + 28
  {
    KnownWeekdays();
  }

  /** A record whose due date is today's key shows in today's cell, which is
      marked as today, has a task, and is an exam day if the name is special. */
  lemma TodayCellShowsDue(today: Date, assignments: seq<Assignment>, a: Assignment)
    requires ValidDate(today) && a in assignments
    requires a.dueDate == DayKey(today.year, today.month, today.day)
    ensures var cell := AddCalendarDay(today.day, today.month, today.year, assignments, today);
            cell.isToday && cell.hasTask && a in cell.items
            && (IsSpecialSpec(a.name) ==> cell.examDay)
  {
  }

  // ---------------------------------------------------------------------------
  // Week strip
  // ---------------------------------------------------------------------------

  /** `today.setDate(today.getDate() - today.getDay())`: the Sunday on or
      before `today`, renormalised by `Date`. */
  function WeekStart(today: Date): (s: Date)
    requires ValidDate(today)
    ensures ValidDate(s) && Weekday(s) == 0
    ensures DayNumber(s) == DayNumber(today) - Weekday(today)
  {
    var w := Weekday(today);
    var s := StepBack(today, w);
    StepBackNumber(today, w);
    BackToSunday(DayNumber(today));
    s
  }

  /** Cell `i` of the uncarried week: day `start.day + i` in the month and
      year of `start`. */
  function WeekCellAsWritten(start: Date, i: int, assignments: seq<Assignment>, today: Date): DayCell
  {
    AddCalendarDay(start.day + i, start.month, start.year, assignments, today)
  }

  /** Seven cells numbered `start.day + i` in the month and year of `start`,
      with no carrying into the next month. */
  function CellsFrom(start: Date, assignments: seq<Assignment>, today: Date): (cells: seq<DayCell>)
    ensures |cells| == 7
    ensures forall i :: 0 <= i < 7 ==> cells[i] == WeekCellAsWritten(start, i, assignments, today)
  {
    seq(7, i requires 0 <= i < 7 => WeekCellAsWritten(start, i, assignments, today))
  }

  /** The week branch as written: `addCalendarDay(start.getDate() + i,
      start.getMonth(), start.getFullYear())` for i in 0..6. */
  function WeekStripAsWritten(today: Date, assignments: seq<Assignment>): (cells: seq<DayCell>)
    requires ValidDate(today)
    ensures |cells| == 7
    ensures forall i :: 0 <= i < 7 ==>
              cells[i] == AddCalendarDay(WeekStart(today).day + i, WeekStart(today).month, WeekStart(today).year, assignments, today)
    ensures forall i :: 0 <= i < 7 ==>
              cells[i].key == DayKey(WeekStart(today).year, WeekStart(today).month, WeekStart(today).day + i)
  {
    CellsFrom(WeekStart(today), assignments, today)
  }

  /** `n` consecutive dates from `start`. */
  function DatesFrom(start: Date, n: nat): (ds: seq<Date>)
    requires ValidDate(start)
    ensures |ds| == n
    ensures forall i :: 0 <= i < n ==> ds[i] == StepForward(start, i)
    decreases n
  {
    if n == 0 then []
    else
      var rest := DatesFrom(NextDate(start), n - 1);
      var ds := [start] + rest;
      forall i | 0 <= i < n ensures ds[i] == StepForward(start, i) {
        if i > 0 {
          assert ds[i] == rest[i - 1];
        }
      }
      ds
  }

  /** The seven dates of the week holding `today`, Sunday first. */
  function WeekDates(today: Date): (ds: seq<Date>)
    requires ValidDate(today)
    ensures |ds| == 7
    ensures forall i :: 0 <= i < 7 ==>
              && ValidDate(ds[i])
              && DayNumber(ds[i]) == DayNumber(today) - Weekday(today) + i
              && Weekday(ds[i]) == i
    ensures ds[Weekday(today)] == today
  {
    var s := WeekStart(today);
    var ds := DatesFrom(s, 7);
    forall i | 0 <= i < 7
      ensures ValidDate(ds[i]) && DayNumber(ds[i]) == DayNumber(today) - Weekday(today) + i
      ensures Weekday(ds[i]) == i
    {
      WeekDateFacts(s, i);
    }
    TodayInItsWeek(today);
    ds
  }

  lemma WeekDateFacts(s: Date, i: nat)
    requires ValidDate(s) && Weekday(s) == 0 && i < 7
    ensures ValidDate(StepForward(s, i))
    ensures DayNumber(StepForward(s, i)) == DayNumber(s) + i
    ensures Weekday(StepForward(s, i)) == i
  {
    var t := StepForward(s, i);
    var n := DayNumber(s);
    StepForwardNumber(s, i);
    DaysAfterSunday(n, i);
  }

  lemma TodayInItsWeek(today: Date)
    requires ValidDate(today)
    ensures StepForward(WeekStart(today), Weekday(today)) == today
  {
    BackThenForward(today, Weekday(today));
  }

  /** The week strip with every date carried into the next month or year
      where the week crosses one. */
  function WeekStrip(today: Date, assignments: seq<Assignment>): (cells: seq<DayCell>)
    requires ValidDate(today)
    ensures |cells| == 7
    ensures var ds := WeekDates(today);
            forall i :: 0 <= i < 7 ==>
              ValidDate(ds[i]) && cells[i] == AddCalendarDay(ds[i].day, ds[i].month, ds[i].year, assignments, today)
    ensures cells[Weekday(today)].isToday
  {
    var ds := WeekDates(today);
    seq(7, i requires 0 <= i < 7 => AddCalendarDay(ds[i].day, ds[i].month, ds[i].year, assignments, today))
  }

  /** The week of Wednesday 2024-01-31 starts on Sunday 2024-01-28. */
  lemma LateJanuaryWeekStart()
    ensures WeekStart(Date(2024, 0, 31)) == Date(2024, 0, 28)
    ensures Weekday(Date(2024, 0, 31)) == 3
  {
    var today := Date(2024, 0, 31);
    assert DayNumber(today) == 19753;
    assert DayNumber(Date(2024, 0, 28)) == 19750;
    assert Weekday(today) == 3;
    DayNumberInjective(WeekStart(today), Date(2024, 0, 28));
  }

  /** No cell of the uncarried week holds a record due 2024-02-01. */
  lemma LateJanuaryAsWrittenMisses(a: Assignment)
    requires a.dueDate == DayKey(2024, 1, 1)
    ensures forall i :: 0 <= i < 7 ==> WeekStripAsWritten(Date(2024, 0, 31), [a])[i].items == []
    ensures WeekStripAsWritten(Date(2024, 0, 31), [a])[4].key == DayKey(2024, 0, 32)
  {
    LateJanuaryWeekStart();
    KeyRoundTrip(2024, 1, 1);
    var w := WeekStripAsWritten(Date(2024, 0, 31), [a]);
    forall i | 0 <= i < 7 ensures w[i].items == [] {
      assert w[i].key == DayKey(2024, 0, 28 + i);
      KeyRoundTrip(2024, 0, 28 + i);
      assert a.dueDate != w[i].key;
    }
  }

  /** The carried week of 2024-01-31 has 2024-02-01 on Thursday. */
  lemma LateJanuaryCarried(a: Assignment)
    requires a.dueDate == DayKey(2024, 1, 1)
    ensures WeekStrip(Date(2024, 0, 31), [a])[4].items == [a]
  {
    var today := Date(2024, 0, 31);
    LateJanuaryWeekStart();
    var s := WeekStart(today);
    var ds := WeekDates(today);
    assert ds[4] == Date(2024, 1, 1) by {
      assert ds[3] == today;
      assert ds[4] == NextDate(ds[3]) by {
        assert ds[4] == StepForward(s, 4);
        assert ds[3] == StepForward(s, 3);
        StepForwardSucc(s, 3);
      }
    }
    assert [a][1..] == [];
  }

  /** On Wednesday 2024-01-31 the week as written numbers its last cells 32,
      33 and 34 of January, so a record due 2024-02-01 is in no cell, while
      the carried week lists it under Thursday. */
  lemma WeekOverflow(a: Assignment)
    requires a.dueDate == DayKey(2024, 1, 1)
    ensures var today := Date(2024, 0, 31);
            && WeekStripAsWritten(today, [a])[4].key == DayKey(2024, 0, 32)
            && (forall i :: 0 <= i < 7 ==> WeekStripAsWritten(today, [a])[i].items == [])
            && WeekStrip(today, [a])[4].items == [a]
  {
    LateJanuaryAsWrittenMisses(a);
    LateJanuaryCarried(a);
  }

  /** One more step forward is the next date. */
  lemma {:induction false} StepForwardSucc(dt: Date, n: nat)
    requires ValidDate(dt)
    ensures StepForward(dt, n + 1) == NextDate(StepForward(dt, n))
    decreases n
  {
    if n > 0 {
      StepForwardSucc(NextDate(dt), n - 1);
    }
  }
}
