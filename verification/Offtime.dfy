/** offtime of bsdlibc/gen/ctime.c: seconds since the epoch to calendar fields. */
module Offtime {
  const SECS_PER_DAY: int := 86400
  const EPOCH_YEAR: int := 1970
  const EPOCH_WDAY: int := 4
  const TM_YEAR_BASE: int := 1900

  const MON_LENGTHS: seq<seq<int>> := [
    [31, 28, 31, 30, 31, 30, 31, 31, 30, 31, 30, 31],
    [31, 29, 31, 30, 31, 30, 31, 31, 30, 31, 30, 31]]

  const YEAR_LENGTHS: seq<int> := [365, 366]

  /** C division truncates toward zero, and the remainder has the sign of the dividend. */
  function Quotient(a: int, b: int): int
    requires b > 0
  {
    if a >= 0 then a / b else -(-a / b)
  }

  function Remainder(a: int, b: int): int
    requires b > 0
  {
    a - b * Quotient(a, b)
  }

  lemma Truncated(a: int, b: int)
    requires b > 0
    ensures -b < Remainder(a, b) < b && (a >= 0 ==> Remainder(a, b) >= 0) && (a <= 0 ==> Remainder(a, b) <= 0)
  {
    if a < 0 {
      assert -a == b * (-a / b) + (-a % b);
    } else {
      assert a == b * (a / b) + a % b;
    }
  }

  // ----- the calendar -----

  function Leap(y: int): (leap: int)
    ensures 0 <= leap <= 1
  {
    if (y % 4 == 0 && y % 100 != 0) || y % 400 == 0 then 1 else 0
  }

  /** The leap days of the years before `y`, counted from the year 1. */
  function LeapDays(y: int): int {
    (y - 1) / 4 - (y - 1) / 100 + (y - 1) / 400
  }

  /** The days from the epoch to the first of January of a year. */
  function YearStart(y: int): int {
    365 * (y - EPOCH_YEAR) + LeapDays(y) - LeapDays(EPOCH_YEAR)
  }

  /** The days of a year before its month `m`. */
  function MonthStart(leap: int, m: nat): int
    requires 0 <= leap <= 1 && m <= 12
  {
    if m == 0 then 0 else MonthStart(leap, m - 1) + MON_LENGTHS[leap][m - 1]
  }

  lemma YearLength(y: int)
    ensures YearStart(y + 1) == YearStart(y) + YEAR_LENGTHS[Leap(y)]
  {
    LeapDaysStep(y);
  }

  lemma LeapDaysStep(y: int)
    ensures LeapDays(y + 1) == LeapDays(y) + Leap(y)
  {
    Floor(y, 4);
    Floor(y, 100);
    Floor(y, 400);
    Multiples(y);
  }

  lemma Multiples(y: int)
    ensures y % 400 == 0 ==> y % 100 == 0
    ensures y % 100 == 0 ==> y % 4 == 0
  {
  }

  lemma Floor(y: int, n: int)
    requires n == 4 || n == 100 || n == 400
    ensures y / n - (y - 1) / n == if y % n == 0 then 1 else 0
  {
  }

  lemma MonthLengths(leap: int)
    requires 0 <= leap <= 1
    ensures |MON_LENGTHS[leap]| == 12 && forall m :: 0 <= m < 12 ==> 28 <= MON_LENGTHS[leap][m] <= 31
  {
  }

  lemma MonthsMakeYear(leap: int)
    requires 0 <= leap <= 1
    ensures MonthStart(leap, 12) == YEAR_LENGTHS[leap]
  {
    assert MonthStart(leap, 3) == 90 + leap;
    assert MonthStart(leap, 6) == 181 + leap;
    assert MonthStart(leap, 9) == 273 + leap;
  }

  /** The fields of struct tm. */
  datatype Fields = Fields(sec: int, min: int, hour: int, mday: int, mon: int, year: int, wday: int, yday: int)

  /** A date and a time of day that exist, with the day of the year and of the week that belong to them. */
  predicate InRange(f: Fields) {
    && 0 <= f.sec < 60 && 0 <= f.min < 60 && 0 <= f.hour < 24
    && 0 <= f.mon < 12
    && var leap := Leap(f.year + TM_YEAR_BASE);
       && 1 <= f.mday <= MON_LENGTHS[leap][f.mon]
       && f.yday == MonthStart(leap, f.mon) + f.mday - 1
       && f.wday == (EPOCH_WDAY + Day(f)) % 7
  }

  /** The days from the epoch to a date. */
  function Day(f: Fields): int
    requires 0 <= f.mon < 12
  {
    YearStart(f.year + TM_YEAR_BASE) + MonthStart(Leap(f.year + TM_YEAR_BASE), f.mon) + f.mday - 1
  }

  /** The seconds from the epoch to a date and time of day. */
  function Seconds(f: Fields): int
    requires 0 <= f.mon < 12
  {
    SECS_PER_DAY * Day(f) + 3600 * f.hour + 60 * f.min + f.sec
  }

  /** The days before each month. */
  lemma MonthTable(leap: int)
    requires 0 <= leap <= 1
    ensures MonthStart(leap, 0) == 0 && MonthStart(leap, 1) == 31 && MonthStart(leap, 2) == 59 + leap
    ensures MonthStart(leap, 3) == 90 + leap && MonthStart(leap, 4) == 120 + leap && MonthStart(leap, 5) == 151 + leap
    ensures MonthStart(leap, 6) == 181 + leap && MonthStart(leap, 7) == 212 + leap && MonthStart(leap, 8) == 243 + leap
    ensures MonthStart(leap, 9) == 273 + leap && MonthStart(leap, 10) == 304 + leap
    ensures MonthStart(leap, 11) == 334 + leap
  {
    MonthNext(leap, 0);
    MonthNext(leap, 1);
    MonthNext(leap, 2);
    MonthNext(leap, 3);
    MonthNext(leap, 4);
    MonthNext(leap, 5);
    MonthNext(leap, 6);
    MonthNext(leap, 7);
    MonthNext(leap, 8);
    MonthNext(leap, 9);
    MonthNext(leap, 10);
  }

  lemma MonthNext(leap: int, m: nat)
    requires 0 <= leap <= 1 && m < 12
    ensures MonthStart(leap, m + 1) == MonthStart(leap, m) + MON_LENGTHS[leap][m]
  {
  }

  /**
   The day of a date by arithmetic alone: in years that begin with March, five months have 153 days, and the leap day
   comes last.
   */
  function CivilDay(year: int, mon: int, mday: int): int {
    var y, m := if mon < 2 then year - 1 else year, if mon < 2 then mon + 10 else mon - 2;
    365 * y + y / 4 - y / 100 + y / 400 + (153 * m + 2) / 5 + mday - 1 - 719468
  }

  lemma DayIsCivil(f: Fields)
    requires 0 <= f.mon < 12
    ensures Day(f) == CivilDay(f.year + TM_YEAR_BASE, f.mon, f.mday)
  {
    var y := f.year + TM_YEAR_BASE;
    MonthTable(Leap(y));
    LeapDaysStep(y);
    MonthCivil(f.mon, Leap(y));
    hide MonthStart, Leap;
  }

  lemma MonthCivil(mon: int, leap: int)
    requires 0 <= mon < 12 && 0 <= leap <= 1
    ensures mon < 2 ==> MonthStart(leap, mon) == (153 * (mon + 10) + 2) / 5 - 306
    ensures mon >= 2 ==> MonthStart(leap, mon) == (153 * (mon - 2) + 2) / 5 + 59 + leap
  {
    MonthTable(leap);
    hide MonthStart;
  }

  /** The day of the week: the first of January 1970 was a Thursday, and each day brings the next. */
  lemma Weekday(f: Fields)
    requires InRange(f)
    ensures f.wday == (CivilDay(f.year + TM_YEAR_BASE, f.mon, f.mday) + 4) % 7
  {
    DayIsCivil(f);
  }

  /** Known dates: second 0 was Thursday, 1 January 1970, and second 951782400 was Tuesday, 29 February 2000. */
  lemma KnownDates()
    ensures var f := Fields(0, 0, 0, 1, 0, 70, 4, 0); InRange(f) && Seconds(f) == 0
    ensures var g := Fields(0, 0, 0, 29, 1, 100, 2, 59); InRange(g) && Seconds(g) == 951782400
  {
    MonthTable(0);
    MonthTable(1);
  }

  lemma {:induction false} YearsApart(y: int, z: int)
    requires y < z
    ensures YearStart(y) + 365 <= YearStart(z) && YearStart(y + 1) <= YearStart(z)
    decreases z - y
  {
    YearLength(y);
    if y + 1 < z {
      YearsApart(y + 1, z);
    }
  }

  lemma {:induction false} MonthsApart(leap: int, m: nat, n: nat)
    requires 0 <= leap <= 1 && m < n <= 12
    ensures MonthStart(leap, m) + MON_LENGTHS[leap][m] <= MonthStart(leap, n)
  {
    MonthLengths(leap);
    if m < n - 1 {
      MonthsApart(leap, m, n - 1);
    }
  }

  /** A day of a year lies in that year. */
  lemma DayInYear(f: Fields)
    requires InRange(f)
    ensures var y := f.year + TM_YEAR_BASE; YearStart(y) <= Day(f) < YearStart(y + 1)
  {
    var y := f.year + TM_YEAR_BASE;
    var leap := Leap(y);
    YearLength(y);
    MonthsMakeYear(leap);
    MonthsApart(leap, f.mon, 12);
    MonthPositive(leap, f.mon);
  }

  lemma {:induction false} MonthPositive(leap: int, m: nat)
    requires 0 <= leap <= 1 && m <= 12
    ensures MonthStart(leap, m) >= 0
  {
    MonthLengths(leap);
    if m > 0 {
      MonthPositive(leap, m - 1);
    }
  }

  /** Fields in range that stand for the same second are the same: there is one right answer. */
  lemma OneAnswer(f: Fields, g: Fields)
    requires InRange(f) && InRange(g) && Seconds(f) == Seconds(g)
    ensures f == g
  {
    hide InRange, Day;
    SameYear(f, g);
    RangeIs(f);
    RangeIs(g);
  }

  lemma RangeIs(f: Fields)
    requires InRange(f)
    ensures 0 <= f.mon < 12 && 0 <= f.sec < 60 && 0 <= f.min < 60 && 0 <= f.hour < 24
    ensures f.yday == Day(f) - YearStart(f.year + TM_YEAR_BASE)
    ensures f.wday == (EPOCH_WDAY + Day(f)) % 7
  {
    hide YearStart, MonthStart;
  }

  lemma SameYear(f: Fields, g: Fields)
    requires InRange(f) && InRange(g) && Seconds(f) == Seconds(g)
    ensures Day(f) == Day(g) && f.hour == g.hour && f.min == g.min && f.sec == g.sec
    ensures f.year == g.year && f.mon == g.mon && f.mday == g.mday
  {
    hide InRange, Day, YearStart;
    RangeIs(f);
    RangeIs(g);
    TimeOfDay(Day(f), f.hour, f.min, f.sec, Day(g), g.hour, g.min, g.sec);
    DayInYear(f);
    DayInYear(g);
    var y, z := f.year + TM_YEAR_BASE, g.year + TM_YEAR_BASE;
    if y < z {
      YearsApart(y, z);
    } else if z < y {
      YearsApart(z, y);
    }
    SameMonth(f, g);
  }

  lemma SameMonth(f: Fields, g: Fields)
    requires InRange(f) && InRange(g) && Day(f) == Day(g) && f.year == g.year
    ensures f.mon == g.mon && f.mday == g.mday
  {
    hide YearStart, Leap, MonthStart;
    var leap := Leap(f.year + TM_YEAR_BASE);
    assert 0 <= leap <= 1;
    if f.mon < g.mon {
      MonthsApart(leap, f.mon, g.mon);
    } else if g.mon < f.mon {
      MonthsApart(leap, g.mon, f.mon);
    }
  }

  lemma TimeOfDay(d: int, h: int, m: int, s: int, d': int, h': int, m': int, s': int)
    requires 0 <= h < 24 && 0 <= m < 60 && 0 <= s < 60 && 0 <= h' < 24 && 0 <= m' < 60 && 0 <= s' < 60
    requires SECS_PER_DAY * d + 3600 * h + 60 * m + s == SECS_PER_DAY * d' + 3600 * h' + 60 * m' + s'
    ensures d == d' && h == h' && m == m' && s == s'
  {
  }

  // ----- the code -----

  class Tm {
    var fields: Fields
    var isdst: int
    var gmtoff: int

    constructor () {
      fields := Fields(0, 0, 0, 1, 0, 70, 4, 0);
      isdst, gmtoff := 0, 0;
    }

    /** The year that day `d` from the epoch lies in, and its place in it. */
    method YearOf(d: int) returns (y: int, days: int)
      ensures YearStart(y) + days == d && 0 <= days < YEAR_LENGTHS[Leap(y)]
    {
      y, days := EPOCH_YEAR, d;
      if days >= 0 {
        while days >= YEAR_LENGTHS[Leap(y)]
          invariant days >= 0 && YearStart(y) + days == d
          decreases days
        {
          YearLength(y);
          days := days - YEAR_LENGTHS[Leap(y)];
          y := y + 1;
        }
      } else {
        while days < 0
          invariant YearStart(y) + days == d && days < YEAR_LENGTHS[Leap(y)]
          decreases -days
        {
          y := y - 1;
          YearLength(y);
          days := days + YEAR_LENGTHS[Leap(y)];
        }
      }
    }

    /** The month that a day of a year lies in, and its place in it. */
    method MonthOf(leap: int, yday: int) returns (mon: nat, days: int)
      requires 0 <= leap <= 1 && 0 <= yday < YEAR_LENGTHS[leap]
      ensures mon < 12 && MonthStart(leap, mon) + days == yday && 0 <= days < MON_LENGTHS[leap][mon]
    {
      MonthsMakeYear(leap);
      MonthLengths(leap);
      mon, days := 0, yday;
      while days >= MON_LENGTHS[leap][mon]
        invariant mon < 12 && 0 <= days && MonthStart(leap, mon) + days == yday
        decreases 12 - mon
      {
        days := days - MON_LENGTHS[leap][mon];
        mon := mon + 1;
      }
    }

    /** offtime: the fields are in range and stand for exactly clock plus offset. */
    method Convert(clock: int, offset: int)
      modifies this
      ensures InRange(fields) && Seconds(fields) == clock + offset
      ensures isdst == 0 && gmtoff == offset
    {
      var days, rem := Quotient(clock, SECS_PER_DAY), Remainder(clock, SECS_PER_DAY);
      rem := rem + offset;
      while rem < 0
        invariant SECS_PER_DAY * days + rem == clock + offset
        decreases -rem
      {
        rem := rem + SECS_PER_DAY;
        days := days - 1;
      }
      while rem >= SECS_PER_DAY
        invariant SECS_PER_DAY * days + rem == clock + offset && rem >= 0
        decreases rem
      {
        rem := rem - SECS_PER_DAY;
        days := days + 1;
      }
      var hour := rem / 3600;
      rem := rem % 3600;
      var min, sec := rem / 60, rem % 60;
      var wday := Remainder(EPOCH_WDAY + days, 7);
      Truncated(EPOCH_WDAY + days, 7);
      if wday < 0 {
        wday := wday + 7;
      }
      ghost var day := days;
      assert wday == (EPOCH_WDAY + day) % 7;
      var y, yday := YearOf(days);
      var mon, d := MonthOf(Leap(y), yday);
      fields := Fields(sec, min, hour, d + 1, mon, y - TM_YEAR_BASE, wday, yday);
      assert Day(fields) == day;
      isdst, gmtoff := 0, offset;
    }
  }
}
