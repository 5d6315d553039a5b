/** The date object: a day number and a fraction of a day in ticks, updated in place. */
module DateObject {
  import opened Bytes
  import opened Calendar

  const TICKS_PER_DAY := 86400000000.0
  const DAYNUM_MAX := 365242500
  const DAYNUM_MIN := -365242500

  /** The limits are a million years from 1 January of year 1. */
  lemma LimitsAreAMillionYears()
    ensures MakeDayNum(1000001, 0, 1) == DAYNUM_MAX && MakeDayNum(-999999, 0, 1) == DAYNUM_MIN
  {
    hide MakeDayNum, DayFromYear;
    JanuaryFirst(1000001);
    JanuaryFirst(-999999);
    MillionYears();
  }

  lemma MillionYears()
    ensures DayFromYear(1000000) == DAYNUM_MAX && DayFromYear(-1000000) == DAYNUM_MIN
  {
  }

  /** The date `m` months and `d` days after a date. */
  function Shifted(t: Date, y: int, m: int, d: int): int {
    MakeDayNum(t.year + y, t.month + m, t.day + d)
  }

  class DateTime {
    var daynum: int
    var dayfrc: real

    constructor (dn: int, df: real)
      ensures daynum == dn && dayfrc == df
    {
      daynum, dayfrc := dn, df;
    }

    /** The instant as one number. */
    function SpanTicks(): real
      reads this
    {
      daynum as real * TICKS_PER_DAY + dayfrc
    }

    predicate Normal()
      reads this
    {
      0.0 <= dayfrc < TICKS_PER_DAY
    }

    /** Carry whole days out of the fraction.  The limits are checked on the day number before
        the carry; `false` stands for the error raised there. */
    method Normalize() returns (ok: bool)
      modifies this
      ensures Normal() && SpanTicks() == old(SpanTicks())
      ensures ok == (DAYNUM_MIN <= old(daynum) <= DAYNUM_MAX)
    {
      var dn, df := daynum, dayfrc;
      var x := (df / TICKS_PER_DAY).Floor;
      daynum, dayfrc := dn + x, df - x as real * TICKS_PER_DAY;
      WholeDays(df, x);
      ok := DAYNUM_MIN <= dn <= DAYNUM_MAX;
    }

    /** Add `n` units of `pt` ticks, `pd` of which make a day. */
    method AddDayFrc(n: real, pt: real, pd: real) returns (ok: bool)
      requires pd > 0.0 && pt * pd == TICKS_PER_DAY
      modifies this
      ensures Normal() && SpanTicks() == old(SpanTicks()) + n * pt
      ensures ok == (DAYNUM_MIN <= old(daynum) + (n / pd).Floor <= DAYNUM_MAX)
    {
      var x := (n / pd).Floor;
      CarryTicks(daynum, dayfrc, n, pt, pd, x);
      daynum := daynum + x;
      dayfrc := dayfrc + (n - x as real * pd) * pt;
      ok := Normalize();
    }

    /** Add years, months and days to the date, leaving the time of day.  The months carry into the
        year; the days are then counted from the first of the month reached, past its end or back
        before it. */
    method AddYears(y: int, m: int, d: int) returns (ok: bool)
      requires Normal()
      modifies this
      ensures var t := BreakDayNum(old(daynum));
              var first, day, t' := MonthFirst(t.year + y, t.month + m), t.day + d, BreakDayNum(daynum);
              && ValidDate(t')
              && (day >= 1 ==> t' == DaysLater(first, day - 1))
              && (day < 1 ==> DaysLater(t', 1 - day) == first)
              && (1 <= day <= MonthLength(first.year, first.month) ==> t' == Date(first.year, first.month, day))
      ensures daynum == Shifted(BreakDayNum(old(daynum)), y, m, d) && dayfrc == old(dayfrc)
      ensures ok == (DAYNUM_MIN <= daynum <= DAYNUM_MAX)
    {
      hide BreakDayNum, MakeDayNum, DaysLater, MonthLength, ValidDate;
      var t := BreakDayNum(daynum);
      MakeFromFirst(t.year + y, t.month + m, t.day + d);
      daynum := MakeDayNum(t.year + y, t.month + m, t.day + d);
      ok := Normalize();
      NoCarry(old(dayfrc), daynum, dayfrc, MakeDayNum(t.year + y, t.month + m, t.day + d));
    }

    /** Replace any of the year, the month and the day; an existing date then reads back, and any
        other is counted from the first of the month. */
    method SetDate(y: Option<int>, m: Option<int>, d: Option<int>) returns (ok: bool)
      requires Normal()
      modifies this
      ensures var t := Chosen(BreakDayNum(old(daynum)), y, m, d);
              && daynum == MakeDayNum(t.year, t.month, t.day) && dayfrc == old(dayfrc)
              && (ValidDate(t) ==> BreakDayNum(daynum) == t)
              && (y.Some? ==> t.year == y.value) && (m.Some? ==> t.month == m.value) && (d.Some? ==> t.day == d.value)
              && (t.day >= 1 ==> BreakDayNum(daynum) == DaysLater(MonthFirst(t.year, t.month), t.day - 1))
              && (t.day < 1 ==> ValidDate(BreakDayNum(daynum))
                                && DaysLater(BreakDayNum(daynum), 1 - t.day) == MonthFirst(t.year, t.month))
      ensures ok == (DAYNUM_MIN <= daynum <= DAYNUM_MAX)
    {
      hide BreakDayNum, MakeDayNum, ValidDate, DaysLater, MonthLength;
      var t := Chosen(BreakDayNum(daynum), y, m, d);
      daynum := MakeDayNum(t.year, t.month, t.day);
      ok := Normalize();
      NoCarry(old(dayfrc), daynum, dayfrc, MakeDayNum(t.year, t.month, t.day));
      MakeFromFirst(t.year, t.month, t.day);
      if ValidDate(t) {
        MakeThenBreak(t);
      }
    }

    /** Replace any of the ISO year, the week and the weekday; an existing week date then reads
        back. */
    method SetIsoDate(y: Option<int>, w: Option<int>, d: Option<int>) returns (ok: bool)
      requires Normal()
      modifies this
      ensures var (cy, cw, cd) := ChosenIso(old(daynum), y, w, d);
              && daynum == MakeDayNumIso(cy, cw, cd) && dayfrc == old(dayfrc)
              && (IsoDateExists(cy, cw, cd) ==> IsoWY(daynum) == (cw, cy) && IsoWeekday(daynum) == cd)
              && (y.Some? ==> cy == y.value) && (w.Some? ==> cw == w.value) && (d.Some? ==> cd == d.value)
      ensures ok == (DAYNUM_MIN <= daynum <= DAYNUM_MAX)
    {
      hide IsoWY, IsoWeekday, IsoW1;
      var (cy, cw, cd) := ChosenIso(daynum, y, w, d);
      daynum := MakeDayNumIso(cy, cw, cd);
      ok := Normalize();
      NoCarry(old(dayfrc), daynum, dayfrc, MakeDayNumIso(cy, cw, cd));
      if IsoDateExists(cy, cw, cd) {
        IsoRoundTripBack(cy, cw, cd);
      }
    }
  }

  /** The value given, if one is. */
  function GetOr(o: Option<int>, default: int): (r: int)
    ensures o == Some(r) || (o == None && r == default)
  {
    match o
    case None => default
    case Some(v) => v
  }

  function Chosen(t: Date, y: Option<int>, m: Option<int>, d: Option<int>): Date {
    Date(GetOr(y, t.year), GetOr(m, t.month), GetOr(d, t.day))
  }

  /** ISO year, week and weekday, those not given taken from a day. */
  function ChosenIso(dn: int, y: Option<int>, w: Option<int>, d: Option<int>): (int, int, int) {
    (GetOr(y, IsoWY(dn).1), GetOr(w, IsoWY(dn).0), GetOr(d, IsoWeekday(dn)))
  }

  /** The week begins within its ISO year. */
  predicate IsoDateExists(y: int, w: int, d: int) {
    1 <= d <= 7 && 1 <= w && MakeDayNumIso(y, w, 1) < IsoW1(y + 1)
  }

  /** A day number and a fraction within the day are determined by their ticks. */
  lemma NoCarry(df: real, dn': int, df': real, dn: int)
    requires 0.0 <= df < TICKS_PER_DAY && 0.0 <= df' < TICKS_PER_DAY
    requires dn' as real * TICKS_PER_DAY + df' == dn as real * TICKS_PER_DAY + df
    ensures dn' == dn && df' == df
  {
    var k := dn - dn';
    assert k as real * TICKS_PER_DAY == df' - df;
    assert -1.0 < k as real < 1.0;
  }

  /** The whole days of a fraction, and what is left of it. */
  lemma WholeDays(df: real, x: int)
    requires x == (df / TICKS_PER_DAY).Floor
    ensures 0.0 <= df - x as real * TICKS_PER_DAY < TICKS_PER_DAY
  {
    assert x as real <= df / TICKS_PER_DAY < x as real + 1.0;
  }

  lemma CarryTicks(dn: int, df: real, n: real, pt: real, pd: real, x: int)
    requires pt * pd == TICKS_PER_DAY
    ensures (dn + x) as real * TICKS_PER_DAY + (df + (n - x as real * pd) * pt)
            == dn as real * TICKS_PER_DAY + df + n * pt
  {
    assert (n - x as real * pd) * pt == n * pt - x as real * pd * pt;
    assert x as real * pd * pt == x as real * (pt * pd);
  }

  /** Adding months keeps the day of the month up to the 28th, carries into the year, and is
      undone by taking the same months away: the case of `AddYears` in which no day overflows. */
  lemma AddMonths(t: Date, m: int)
    requires ValidDate(t) && t.day <= 28
    ensures var t' := BreakDayNum(Shifted(t, 0, m, 0));
            && t' == Date(t.year + (t.month + m) / 12, (t.month + m) % 12, t.day)
            && BreakDayNum(Shifted(t', 0, -m, 0)) == t
  {
    hide BreakDayNum, MakeDayNum;
    var q, r := (t.month + m) / 12, (t.month + m) % 12;
    MonthHasDays(t.year + q, r);
    MakeFromFirst(t.year, t.month + m, t.day);
    MonthCarries(t.year + q, t.month, -q, t.day);
    assert r - m == t.month + 12 * -q;
    MakeThenBreak(t);
  }
}
