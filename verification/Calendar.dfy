/**
 Day numbers, proleptic Gregorian dates and ISO week dates, over all integers.  Day 0 is
 1 January of year 1; months count from 0.  `/` and `%` with a positive divisor are Lua's
 floored division and remainder.
 */
module Calendar {
  predicate IsLeapYear(y: int) {
    y % 4 == 0 && (y % 100 != 0 || y % 400 == 0)
  }

  function DayFromYear(y: int): int {
    365 * y + y / 4 - y / 100 + y / 400
  }

  datatype Date = Date(year: int, month: int, day: int)

  /** The first day of a month counted from 1 March, month 0 being March. */
  function MonthStart(mi: int): int {
    (mi * 306 + 5) / 10
  }

  /** The month of a day counted from 1 March. */
  function MonthOf(d: int): int {
    (100 * d + 52) / 3060
  }

  function MakeDayNum(y: int, m: int, d: int): int {
    var mm := (m % 12 + 10) % 12;
    DayFromYear(y + m / 12 - mm / 10) + MonthStart(mm) + d - 307
  }

  /** The first guess at the March-based year of a day counted from 1 March of year 0. */
  function EstimatedYear(g: int): int {
    (10000 * g + 14780) / 3652425
  }

  function MarchYear(g: int): int {
    var y := EstimatedYear(g);
    if g - DayFromYear(y) < 0 then y - 1 else y
  }

  function BreakDayNum(dn: int): Date {
    var g := dn + 306;
    var y := MarchYear(g);
    var d := g - DayFromYear(y);
    var mi := MonthOf(d);
    Date((mi + 2) / 12 + y, (mi + 2) % 12, d - MonthStart(mi) + 1)
  }

  // ------------------------------------------------------------------- an independent calendar

  function MonthLength(y: int, m: int): int
    requires 0 <= m < 12
  {
    if m == 1 then (if IsLeapYear(y) then 29 else 28)
    else if m == 3 || m == 5 || m == 8 || m == 10 then 30
    else 31
  }

  predicate ValidDate(t: Date) {
    0 <= t.month < 12 && 1 <= t.day <= MonthLength(t.year, t.month)
  }

  /** The day after, read off a wall calendar. */
  function NextDate(t: Date): (r: Date)
    requires ValidDate(t)
    ensures ValidDate(r)
  {
    if t.day < MonthLength(t.year, t.month) then Date(t.year, t.month, t.day + 1)
    else if t.month < 11 then Date(t.year, t.month + 1, 1)
    else Date(t.year + 1, 0, 1)
  }

  // ------------------------------------------------------------------- years

  /** The parts of a year within its 400-year cycle give its first day exactly. */
  lemma CycleParts(y: int) returns (a: int, b: int, c: int, d: int)
    ensures y == 400 * a + 100 * b + 4 * c + d
    ensures 0 <= b <= 3 && 0 <= c <= 24 && 0 <= d <= 3
    ensures DayFromYear(y) == 146097 * a + 36524 * b + 1461 * c + 365 * d
  {
    a := y / 400;
    var r := y - 400 * a;
    b := r / 100;
    var s := r - 100 * b;
    c := s / 4;
    d := s - 4 * c;
    assert y / 100 == 4 * a + b;
    assert y / 4 == 100 * a + 25 * b + c;
  }

  /** How far a year's first day strays from the mean year, in ten-thousandths of a day: the
      constant 14780 of the estimate leaves a margin of 5. */
  lemma Drift(y: int)
    ensures -14775 <= 10000 * DayFromYear(y) - 3652425 * y <= 7200
  {
    var a, b, c, d := CycleParts(y);
  }

  lemma YearLength(y: int)
    ensures DayFromYear(y + 1) - DayFromYear(y) == if IsLeapYear(y + 1) then 366 else 365
  {
    var a, b, c, d := CycleParts(y);
    assert y + 1 == 400 * a + 100 * b + 4 * c + (d + 1);
    if d < 3 {
      assert (y + 1) / 4 == 100 * a + 25 * b + c && (y + 1) / 100 == 4 * a + b && (y + 1) / 400 == a;
      assert (y + 1) % 4 == d + 1;
    } else if c < 24 {
      assert y + 1 == 400 * a + 100 * b + 4 * (c + 1);
      assert (y + 1) / 4 == 100 * a + 25 * b + c + 1 && (y + 1) / 100 == 4 * a + b && (y + 1) / 400 == a;
      assert (y + 1) % 4 == 0 && (y + 1) % 100 == 4 * (c + 1);
    } else if b < 3 {
      assert y + 1 == 400 * a + 100 * (b + 1);
      assert (y + 1) / 4 == 100 * a + 25 * (b + 1) && (y + 1) / 100 == 4 * a + b + 1 && (y + 1) / 400 == a;
      assert (y + 1) % 4 == 0 && (y + 1) % 100 == 0 && (y + 1) % 400 == 100 * (b + 1);
    } else {
      assert y + 1 == 400 * (a + 1);
      assert (y + 1) % 4 == 0 && (y + 1) % 400 == 0;
    }
  }

  /** The estimate is never below the March-based year of a day, and at most one above it; so
      one correction suffices. */
  lemma EstimateWithinOne(g: int, y: int)
    requires DayFromYear(y) <= g < DayFromYear(y + 1)
    ensures y <= EstimatedYear(g) <= y + 1
    ensures MarchYear(g) == y
  {
    Drift(y);
    Drift(y + 1);
  }

  /** Every day lies in the year found for it. */
  lemma MarchYearSpans(g: int)
    ensures var y := MarchYear(g); DayFromYear(y) <= g < DayFromYear(y + 1)
    ensures 0 <= g - DayFromYear(MarchYear(g)) <= if IsLeapYear(MarchYear(g) + 1) then 365 else 364
  {
    hide DayFromYear, IsLeapYear;
    var e := EstimatedYear(g);
    Drift(e - 1);
    Drift(e);
    Drift(e + 1);
    YearLength(MarchYear(g));
  }

  // ------------------------------------------------------------------- dates

  /** The month of a day counted from 1 March: its start is the last one not after the day. */
  lemma MonthOfDay(d: int, mi: int)
    requires 0 <= mi <= 11 && MonthStart(mi) <= d <= 365
    requires mi < 11 ==> d < MonthStart(mi + 1)
    ensures MonthOf(d) == mi
  {
    if mi < 6 {
      if mi < 3 {
        assert mi == 0 || mi == 1 || mi == 2;
      } else {
        assert mi == 3 || mi == 4 || mi == 5;
      }
    } else if mi < 9 {
      assert mi == 6 || mi == 7 || mi == 8;
    } else {
      assert mi == 9 || mi == 10 || mi == 11;
    }
  }

  lemma MonthSpans(d: int)
    requires 0 <= d <= 365
    ensures var mi := MonthOf(d);
            && 0 <= mi <= 11 && MonthStart(mi) <= d
            && (mi < 11 ==> d < MonthStart(mi + 1))
  {
    if d < MonthStart(1) { MonthOfDay(d, 0); }
    else if d < MonthStart(2) { MonthOfDay(d, 1); }
    else if d < MonthStart(3) { MonthOfDay(d, 2); }
    else if d < MonthStart(4) { MonthOfDay(d, 3); }
    else if d < MonthStart(5) { MonthOfDay(d, 4); }
    else if d < MonthStart(6) { MonthOfDay(d, 5); }
    else if d < MonthStart(7) { MonthOfDay(d, 6); }
    else if d < MonthStart(8) { MonthOfDay(d, 7); }
    else if d < MonthStart(9) { MonthOfDay(d, 8); }
    else if d < MonthStart(10) { MonthOfDay(d, 9); }
    else if d < MonthStart(11) { MonthOfDay(d, 10); }
    else { MonthOfDay(d, 11); }
  }

  /** Month lengths agree with the starts, February's taking what the year leaves. */
  lemma MonthLengths(y: int, mi: int)
    requires 0 <= mi <= 11
    ensures MonthLength(y + (mi + 2) / 12, (mi + 2) % 12) ==
            (if mi < 11 then MonthStart(mi + 1)
             else if IsLeapYear(y + 1) then 366 else 365) - MonthStart(mi)
  {
    if mi < 6 {
      assert mi == 0 || mi == 1 || mi == 2 || mi == 3 || mi == 4 || mi == 5;
    } else {
      assert mi == 6 || mi == 7 || mi == 8 || mi == 9 || mi == 10 || mi == 11;
    }
  }

  /** A date in terms of its March-based year and month. */
  lemma MakeFromMarch(y: int, mi: int, day: int)
    requires 0 <= mi <= 11
    ensures MakeDayNum(y + (mi + 2) / 12, (mi + 2) % 12, day) == DayFromYear(y) + MonthStart(mi) + day - 307
  {
    assert ((mi + 2) % 12 % 12 + 10) % 12 == mi;
  }

  /** Every day number breaks into a valid date that makes the same day number. */
  lemma BreakThenMake(dn: int)
    ensures var t := BreakDayNum(dn);
            ValidDate(t) && MakeDayNum(t.year, t.month, t.day) == dn
  {
    hide DayFromYear, MonthStart, MonthOf, MarchYear, MonthLength, MakeDayNum, IsLeapYear;
    var g := dn + 306;
    var y := MarchYear(g);
    MarchYearSpans(g);
    var d := g - DayFromYear(y);
    MonthSpans(d);
    var mi := MonthOf(d);
    MonthLengths(y, mi);
    MakeFromMarch(y, mi, d - MonthStart(mi) + 1);
  }

  /** Every valid date comes back from its day number. */
  lemma MakeThenBreak(t: Date)
    requires ValidDate(t)
    ensures BreakDayNum(MakeDayNum(t.year, t.month, t.day)) == t
  {
    hide DayFromYear, MonthStart, MonthOf, MarchYear, MonthLength, MakeDayNum, IsLeapYear, EstimatedYear;
    var mi := (t.month + 10) % 12;
    var y := t.year - mi / 10;
    assert t.month == (mi + 2) % 12 && t.year == y + (mi + 2) / 12;
    MakeFromMarch(y, mi, t.day);
    MonthLengths(y, mi);
    MonthStartsBelow(mi);
    YearLength(y);
    var d := MonthStart(mi) + t.day - 1;
    EstimateWithinOne(DayFromYear(y) + d, y);
    MonthOfDay(d, mi);
  }

  lemma MonthStartsBelow(mi: int)
    requires 0 <= mi <= 11
    ensures 0 <= MonthStart(mi) <= 337 && MonthStart(0) == 0
    ensures mi < 11 ==> MonthStart(mi + 1) <= 337
  {
  }

  lemma MonthHasDays(y: int, m: int)
    requires 0 <= m < 12
    ensures MonthLength(y, m) >= 28
  {
  }

  /** Day numbers count days: the date after a date has the next number, and day 0 is
      1 January of year 1.  With the two inverses this fixes both functions completely. */
  lemma CountsDays(t: Date)
    requires ValidDate(t)
    ensures ValidDate(NextDate(t))
    ensures var n := NextDate(t);
            MakeDayNum(n.year, n.month, n.day) == MakeDayNum(t.year, t.month, t.day) + 1
    ensures BreakDayNum(MakeDayNum(t.year, t.month, t.day) + 1) == NextDate(t)
    ensures MakeDayNum(1, 0, 1) == 0
  {
    hide DayFromYear, MonthStart, MonthOf, MonthLength, MakeDayNum, BreakDayNum, IsLeapYear;
    var n := NextDate(t);
    var mi := (t.month + 10) % 12;
    var y := t.year - mi / 10;
    assert t.month == (mi + 2) % 12 && t.year == y + (mi + 2) / 12;
    MakeFromMarch(y, mi, t.day);
    if t.day < MonthLength(t.year, t.month) {
      MakeFromMarch(y, mi, n.day);
    } else {
      MonthLengths(y, mi);
      if mi < 11 {
        assert n == Date(y + (mi + 3) / 12, (mi + 3) % 12, 1);
        MonthHasDays(n.year, n.month);
        MakeFromMarch(y, mi + 1, 1);
      } else {
        YearLength(y);
        MonthStartsBelow(0);
        MonthHasDays(n.year, n.month);
        MakeFromMarch(y + 1, 0, 1);
      }
    }
    MakeThenBreak(n);
    DayZero();
  }

  /** The date n days later, day by day. */
  function DaysLater(t: Date, n: nat): (r: Date)
    requires ValidDate(t)
    ensures ValidDate(r)
    decreases n
  {
    if n == 0 then t else DaysLater(NextDate(t), n - 1)
  }

  /** A day number n days later is the date n days later. */
  lemma {:induction false} DaysLaterCount(t: Date, n: nat)
    requires ValidDate(t)
    ensures BreakDayNum(MakeDayNum(t.year, t.month, t.day) + n) == DaysLater(t, n)
    decreases n
  {
    hide BreakDayNum, MakeDayNum, ValidDate, NextDate;
    if n == 0 {
      MakeThenBreak(t);
    } else {
      CountsDays(t);
      DaysLaterCount(NextDate(t), n - 1);
    }
  }

  /** The first of a month, which may lie outside its year. */
  function MonthFirst(y: int, m: int): (r: Date)
    ensures ValidDate(r)
  {
    Date(y + m / 12, m % 12, 1)
  }

  /** Which date a year, month and day make when the month or the day is out of range: counted in
      days from the first of the month, forward or back. */
  lemma MakeFromFirst(y: int, m: int, d: int)
    ensures var t, first := BreakDayNum(MakeDayNum(y, m, d)), MonthFirst(y, m);
            && ValidDate(t)
            && (d >= 1 ==> t == DaysLater(first, d - 1))
            && (d < 1 ==> DaysLater(t, 1 - d) == first)
            && (1 <= d <= MonthLength(first.year, first.month) ==> t == Date(first.year, first.month, d))
  {
    hide BreakDayNum, DaysLater, MonthLength;
    var dn, first := MakeDayNum(y, m, d), MonthFirst(y, m);
    MonthCarries(y, m % 12, m / 12, d);
    assert m % 12 + 12 * (m / 12) == m;
    FirstAndDays(first.year, first.month, d);
    BreakThenMake(dn);
    MakeThenBreak(first);
    if d >= 1 {
      DaysLaterCount(first, d - 1);
    } else {
      DaysLaterCount(BreakDayNum(dn), 1 - d);
    }
    if 1 <= d <= MonthLength(first.year, first.month) {
      MakeThenBreak(Date(first.year, first.month, d));
    }
  }

  lemma FirstAndDays(y: int, m: int, d: int)
    ensures MakeDayNum(y, m, d) == MakeDayNum(y, m, 1) + d - 1
  {
    hide DayFromYear, MonthStart;
  }

  lemma DayZero()
    ensures MakeDayNum(1, 0, 1) == 0
  {
    hide MakeDayNum;
    MakeFromMarch(0, 10, 1);
    assert DayFromYear(0) == 0 && MonthStart(10) == 306;
  }

  /** A month number out of range carries into the year. */
  lemma MonthCarries(y: int, m: int, k: int, d: int)
    ensures MakeDayNum(y, m + 12 * k, d) == MakeDayNum(y + k, m, d)
  {
    assert (m + 12 * k) % 12 == m % 12 && (m + 12 * k) / 12 == m / 12 + k;
  }

  // ------------------------------------------------------------------- weekdays and ISO weeks

  /** Sunday is 0, Monday 1. */
  function Weekday(dn: int): int {
    (dn + 1) % 7
  }

  /** Days since 1 January. */
  function YearDay(dn: int): int {
    dn - DayFromYear(BreakDayNum(dn).year - 1)
  }

  /** The first day of ISO week 1 of a year. */
  function IsoW1(y: int): int {
    var f := MakeDayNum(y, 0, 4);
    var d := Weekday(f);
    var d' := if d == 0 then 7 else d;
    f + (1 - d')
  }

  /** ISO week number and ISO year. */
  function IsoWY(dn: int): (int, int) {
    var y := BreakDayNum(dn).year;
    var (w1, y') :=
      if dn >= MakeDayNum(y, 11, 29) then
        if dn < IsoW1(y + 1) then (IsoW1(y), y) else (IsoW1(y + 1), y + 1)
      else
        if dn < IsoW1(y) then (IsoW1(y - 1), y - 1) else (IsoW1(y), y);
    ((dn - w1) / 7 + 1, y')
  }

  function IsoY(dn: int): int {
    var y := BreakDayNum(dn).year;
    y + if dn >= MakeDayNum(y, 11, 29) && dn >= IsoW1(y + 1) then 1
        else if dn < IsoW1(y) then -1 else 0
  }

  function MakeDayNumIso(y: int, w: int, d: int): int {
    IsoW1(y) + 7 * w + d - 8
  }

  /** Monday is 1, Sunday 7. */
  function IsoWeekday(dn: int): int {
    (Weekday(dn) - 1) % 7 + 1
  }

  /** The Thursday of a day's week (weeks begin on Monday): ISO 8601 places the week in the
      calendar year of this day. */
  function ThursdayOf(dn: int): int {
    dn - IsoWeekday(dn) + 4
  }

  lemma JanuaryFirst(y: int)
    ensures MakeDayNum(y, 0, 1) == DayFromYear(y - 1)
    ensures MakeDayNum(y, 0, 4) == DayFromYear(y - 1) + 3
    ensures MakeDayNum(y, 11, 29) == DayFromYear(y) - 3
  {
    MakeFromMarch(y - 1, 10, 1);
    MakeFromMarch(y - 1, 10, 4);
    MakeFromMarch(y, 9, 29);
    assert (9 + 2) / 12 == 0;
  }

  /** Weekdays follow one another, and 1 January of year 1 is a Monday. */
  lemma WeekdaysCycle(dn: int)
    ensures 0 <= Weekday(dn) < 7 && Weekday(0) == 1
    ensures Weekday(dn + 1) == if Weekday(dn) == 6 then 0 else Weekday(dn) + 1
  {
  }

  /** The day of the year counts from 0 on 1 January, and starts again with every year. */
  lemma YearDaysCount(dn: int)
    ensures var y := BreakDayNum(dn).year;
            && YearDay(dn) == dn - MakeDayNum(y, 0, 1)
            && 0 <= YearDay(dn) < (if IsLeapYear(y) then 366 else 365)
            && YearDay(dn + 1) == if BreakDayNum(dn + 1).year == y then YearDay(dn) + 1 else 0
  {
    hide BreakDayNum, MakeDayNum, DayFromYear, IsLeapYear;
    var y := BreakDayNum(dn).year;
    YearOf(dn, y);
    JanuaryFirst(y);
    YearLength(y - 1);
    var z := BreakDayNum(dn + 1).year;
    YearOf(dn + 1, z);
    YearOf(dn + 1, y);
    YearOf(dn + 1, y + 1);
    YearLength(y);
  }

  /** Weeks and weekdays out of range carry. */
  lemma IsoCarries(y: int, w: int, d: int)
    ensures MakeDayNumIso(y, w + 1, d) == MakeDayNumIso(y, w, d) + 7 == MakeDayNumIso(y, w, d + 7)
    ensures MakeDayNumIso(y, w, d + 1) == MakeDayNumIso(y, w, d) + 1
    ensures MakeDayNumIso(y, 1, 1) == IsoW1(y)
  {
    hide IsoW1;
  }

  /** The calendar year of a day. */
  lemma YearOf(dn: int, y: int)
    ensures BreakDayNum(dn).year == y <==> DayFromYear(y - 1) <= dn < DayFromYear(y)
  {
    hide DayFromYear, BreakDayNum, MakeDayNum, MarchYear, EstimatedYear, ValidDate;
    var t := BreakDayNum(dn);
    BreakThenMake(dn);
    YearBounds(t);
    if DayFromYear(y - 1) <= dn < DayFromYear(y) {
      EstimateWithinOne(dn, y - 1);
      EstimateWithinOne(dn, t.year - 1);
    }
  }

  lemma YearBounds(t: Date)
    requires ValidDate(t)
    ensures DayFromYear(t.year - 1) <= MakeDayNum(t.year, t.month, t.day) < DayFromYear(t.year)
  {
    hide DayFromYear, MonthStart, MakeDayNum, MonthLength, IsLeapYear;
    var mi := (t.month + 10) % 12;
    var y := t.year - mi / 10;
    assert t.month == (mi + 2) % 12 && t.year == y + (mi + 2) / 12;
    MakeFromMarch(y, mi, t.day);
    MonthLengths(y, mi);
    YearLength(t.year - 1);
    MonthsBefore(mi);
  }

  lemma MonthsBefore(mi: int)
    requires 0 <= mi <= 11
    ensures 0 <= MonthStart(mi) && MonthStart(10) == 306 && MonthStart(11) == 337
    ensures mi < 10 ==> MonthStart(mi + 1) <= 306
  {
  }

  lemma MondayOfWeek(f: int)
    ensures var d := Weekday(f); var d' := if d == 0 then 7 else d;
            (f + 1 - d') % 7 == 0 && 1 <= d' <= 7
  {
    var k := (f + 1) / 7;
    assert f + 1 == 7 * k + (f + 1) % 7;
  }

  /** Week 1 starts on a Monday, on or at most six days before 4 January. */
  lemma IsoW1IsMonday(y: int)
    ensures IsoW1(y) % 7 == 0 && Weekday(IsoW1(y)) == 1
    ensures IsoW1(y) <= DayFromYear(y - 1) + 3 < IsoW1(y) + 7
  {
    hide MakeDayNum, DayFromYear;
    JanuaryFirst(y);
    MondayOfWeek(MakeDayNum(y, 0, 4));
  }

  /** An ISO year has 52 or 53 whole weeks. */
  lemma IsoYearLength(y: int)
    ensures IsoW1(y + 1) - IsoW1(y) == 52 * 7 || IsoW1(y + 1) - IsoW1(y) == 53 * 7
  {
    hide IsoW1, DayFromYear, IsLeapYear, Weekday;
    IsoW1IsMonday(y);
    IsoW1IsMonday(y + 1);
    YearLength(y - 1);
    Multiple(IsoW1(y + 1), IsoW1(y));
  }

  lemma Multiple(a: int, b: int)
    requires a % 7 == 0 && b % 7 == 0
    ensures (a - b) % 7 == 0
  {
  }

  /** `IsoWY` names the ISO year a day lies in, and its week within that year. */
  lemma IsoWYSpans(dn: int)
    ensures var (w, y) := IsoWY(dn);
            && IsoW1(y) <= dn < IsoW1(y + 1)
            && 1 <= w <= 53
            && w == (dn - IsoW1(y)) / 7 + 1
            && IsoY(dn) == y
  {
    hide IsoW1, DayFromYear, IsLeapYear, Weekday, MakeDayNum, BreakDayNum;
    var y := BreakDayNum(dn).year;
    YearOf(dn, y);
    JanuaryFirst(y);
    IsoW1IsMonday(y - 1);
    IsoW1IsMonday(y);
    IsoW1IsMonday(y + 1);
    IsoW1IsMonday(y + 2);
    YearLength(y - 2);
    YearLength(y - 1);
    YearLength(y);
    IsoYearLength(y - 1);
    IsoYearLength(y);
    IsoYearLength(y + 1);
  }

  /** No other year qualifies. */
  lemma IsoYearUnique(dn: int, y: int)
    requires IsoW1(y) <= dn < IsoW1(y + 1)
    ensures IsoWY(dn).1 == y
  {
    hide IsoWY, IsoW1, IsoY;
    var y' := IsoWY(dn).1;
    IsoWYSpans(dn);
    if y' < y {
      IsoW1Monotone(y' + 1, y);
    } else if y < y' {
      IsoW1Monotone(y + 1, y');
    }
  }

  lemma {:induction false} IsoW1Monotone(y: int, z: int)
    requires y <= z
    ensures IsoW1(y) <= IsoW1(z)
    decreases z - y
  {
    hide IsoW1;
    if y < z {
      IsoYearLength(z - 1);
      IsoW1Monotone(y, z - 1);
    }
  }

  /** A day is its week's Monday plus its weekday. */
  lemma DayInWeek(dn: int, w1: int)
    requires w1 % 7 == 0
    ensures 1 <= IsoWeekday(dn) <= 7
    ensures dn == w1 + 7 * ((dn - w1) / 7) + IsoWeekday(dn) - 1
  {
    assert IsoWeekday(dn) == dn % 7 + 1;
    assert w1 == 7 * (w1 / 7);
    assert (dn - w1) % 7 == dn % 7;
  }

  /** Section 4.1.4 of ISO 8601:2004: a week belongs to the calendar year of its Thursday, and
      is numbered by how many Thursdays of that year came before. */
  lemma IsoYearIsThursdays(dn: int)
    ensures var (w, y) := IsoWY(dn);
            && y == BreakDayNum(ThursdayOf(dn)).year
            && w == YearDay(ThursdayOf(dn)) / 7 + 1
  {
    hide IsoW1, DayFromYear, Weekday, IsoWeekday, BreakDayNum, IsoWY, IsoY;
    var (w, y) := IsoWY(dn);
    IsoWYSpans(dn);
    IsoW1IsMonday(y);
    IsoW1IsMonday(y + 1);
    DayInWeek(dn, IsoW1(y));
    var k := (dn - IsoW1(y)) / 7;
    var th := ThursdayOf(dn);
    assert th == IsoW1(y) + 7 * k + 3;
    Multiple(IsoW1(y + 1), IsoW1(y));
    WholeWeeks(IsoW1(y + 1) - IsoW1(y), dn - IsoW1(y));
    YearOf(th, y);
    WeekIndex(th - DayFromYear(y - 1), k);
  }

  lemma WholeWeeks(n: int, d: int)
    requires n % 7 == 0 && 0 <= d < n
    ensures 7 * (d / 7) + 7 <= n
  {
  }

  lemma WeekIndex(x: int, k: int)
    requires 7 * k <= x < 7 * k + 7
    ensures x / 7 == k
  {
  }

  /** A day comes back from its ISO year, week and weekday. */
  lemma IsoRoundTrip(dn: int)
    ensures var (w, y) := IsoWY(dn);
            1 <= IsoWeekday(dn) <= 7 && MakeDayNumIso(y, w, IsoWeekday(dn)) == dn
  {
    hide IsoW1, IsoWY, IsoY, Weekday, IsoWeekday;
    var (w, y) := IsoWY(dn);
    IsoWYSpans(dn);
    IsoW1IsMonday(y);
    DayInWeek(dn, IsoW1(y));
  }

  /** And an ISO date that exists comes back from its day. */
  lemma IsoRoundTripBack(y: int, w: int, d: int)
    requires 1 <= d <= 7 && 1 <= w && MakeDayNumIso(y, w, 1) < IsoW1(y + 1)
    ensures var dn := MakeDayNumIso(y, w, d);
            IsoWY(dn) == (w, y) && IsoWeekday(dn) == d
  {
    hide IsoW1, IsoWY, IsoY, Weekday, IsoWeekday;
    var dn := MakeDayNumIso(y, w, d);
    IsoW1IsMonday(y);
    IsoW1IsMonday(y + 1);
    Multiple(IsoW1(y + 1), IsoW1(y));
    WholeWeeks(IsoW1(y + 1) - IsoW1(y), MakeDayNumIso(y, w, 1) - IsoW1(y));
    WeekIndex(dn - IsoW1(y), w - 1);
    WeekIndex(MakeDayNumIso(y, w, 1) - IsoW1(y), w - 1);
    IsoYearUnique(dn, y);
    IsoWYSpans(dn);
    DayInWeek(dn, IsoW1(y));
  }
}
