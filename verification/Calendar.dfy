/**
  The Gregorian calendar in UTC, as `gmtime_r` breaks seconds down, and the order of MCLibetpan.cpp on
  broken-down times.
 */
module Calendar {

  /** The fields of a `struct tm` that count: years from 1900 and months from 0. */
  datatype Tm = Tm(year: int, mon: int, mday: int, hour: int, min: int, sec: int)

  predicate IsLeap(y: int) {
    y % 4 == 0 && (y % 100 != 0 || y % 400 == 0)
  }

  /** Days from 1 January 1970 to 1 January of the year `y`. */
  function YearStart(y: int): int {
    365 * (y - 1970) + LeapsThrough(y - 1) - 477
  }

  lemma NextFour(y: int)
    ensures y / 4 == (y - 1) / 4 + (if y % 4 == 0 then 1 else 0)
  {
  }

  lemma NextHundred(y: int)
    ensures y / 100 == (y - 1) / 100 + (if y % 100 == 0 then 1 else 0)
  {
  }

  lemma NextFourHundred(y: int)
    ensures y / 400 == (y - 1) / 400 + (if y % 400 == 0 then 1 else 0)
  {
  }

  lemma LeapRule(y: int)
    ensures y % 400 == 0 ==> y % 100 == 0
    ensures y % 100 == 0 ==> y % 4 == 0
  {
  }

  /** The leap years up to the year `y` are those that the rule counts. */
  function LeapsThrough(y: int): int {
    y / 4 - y / 100 + y / 400
  }

  lemma LeapsStep(y: int)
    ensures LeapsThrough(y) == LeapsThrough(y - 1) + (if IsLeap(y) then 1 else 0)
  {
    NextFour(y);
    NextHundred(y);
    NextFourHundred(y);
    LeapRule(y);
  }

  /** Each year has 365 days, or 366 if it is a leap year. */
  lemma YearLength(y: int)
    ensures YearStart(y + 1) == YearStart(y) + (if IsLeap(y) then 366 else 365)
  {
    hide LeapsThrough, IsLeap;
    LeapsStep(y);
  }

  lemma {:induction false} YearsAscend(a: int, b: int)
    requires a < b
    ensures YearStart(a) + 365 * (b - a) <= YearStart(b)
    decreases b - a
  {
    YearLength(b - 1);
    if a < b - 1 {
      hide YearStart;
      YearsAscend(a, b - 1);
    }
  }

  lemma CycleDivides(y: int)
    ensures (y + 400) / 4 == y / 4 + 100 && (y + 400) / 100 == y / 100 + 4 && (y + 400) / 400 == y / 400 + 1
    ensures (y + 400) % 4 == y % 4 && (y + 400) % 100 == y % 100 && (y + 400) % 400 == y % 400
  {
  }

  /** Four hundred years have 146097 days. */
  lemma Cycle(y: int)
    ensures YearStart(y + 400) == YearStart(y) + 146097
    ensures IsLeap(y + 400) <==> IsLeap(y)
  {
    CycleDivides(y - 1);
    CycleDivides(y);
    assert y - 1 + 400 == y + 400 - 1;
  }

  lemma Epoch()
    ensures YearStart(1970) == 0
  {
  }

  /** The year of a day, from a first guess. */
  function YearFrom(day: int, y: int): (r: int)
    ensures YearStart(r) <= day < YearStart(r + 1)
    decreases if day < YearStart(y) then YearStart(y) - day
              else if day >= YearStart(y + 1) then day - YearStart(y + 1) + 1 else 0
  {
    hide YearStart;
    YearsAscend(y - 1, y);
    YearsAscend(y, y + 1);
    YearsAscend(y + 1, y + 2);
    if day < YearStart(y) then YearFrom(day, y - 1)
    else if day >= YearStart(y + 1) then YearFrom(day, y + 1)
    else y
  }

  function YearOf(day: int): (r: int)
    ensures YearStart(r) <= day < YearStart(r + 1)
  {
    YearFrom(day, 1970)
  }

  /** Days before the month `m`, counted from 0, in a year. */
  function MonthStart(leap: bool, m: int): int {
    if m <= 0 then 0
    else if m == 1 then 31
    else
      var day := if leap then 1 else 0;
      if m == 2 then 59 + day
      else if m == 3 then 90 + day
      else if m == 4 then 120 + day
      else if m == 5 then 151 + day
      else if m == 6 then 181 + day
      else if m == 7 then 212 + day
      else if m == 8 then 243 + day
      else if m == 9 then 273 + day
      else if m == 10 then 304 + day
      else if m == 11 then 334 + day
      else 365 + day
  }

  function MonthFrom(leap: bool, day: nat, m: nat): (r: nat)
    requires m < 12 && MonthStart(leap, m) <= day < MonthStart(leap, 12)
    ensures r < 12 && MonthStart(leap, r) <= day < MonthStart(leap, r + 1)
    decreases 12 - m
  {
    if day < MonthStart(leap, m + 1) then m else MonthFrom(leap, day, m + 1)
  }

  /** Year, month and day of the month, whatever the time of the day. */
  function DateOf(day: int): (r: (int, int, int)) {
    var y := YearOf(day);
    YearLength(y);
    var d := day - YearStart(y);
    var m := MonthFrom(IsLeap(y), d, 0);
    (y, m, d - MonthStart(IsLeap(y), m) + 1)
  }

  const DAY := 86400

  /** A count of seconds since 1970, broken down. */
  function GmTime(t: int): Tm {
    var (y, m, d) := DateOf(t / DAY);
    var s := t % DAY;
    Tm(y - 1900, m, d, s / 3600, s / 60 % 60, s % 60)
  }

  /** The sign of the first difference between two broken-down times, year first. */
  function TmComp(a: Tm, b: Tm): int {
    if a.year != b.year then a.year - b.year
    else if a.mon != b.mon then a.mon - b.mon
    else if a.mday != b.mday then a.mday - b.mday
    else if a.hour != b.hour then a.hour - b.hour
    else if a.min != b.min then a.min - b.min
    else a.sec - b.sec
  }

  lemma TmCompEqual(a: Tm, b: Tm)
    ensures TmComp(a, b) == 0 <==> a == b
  {
  }

  /** The day that a year, a month and a day of the month name. */
  function DayOf(y: int, m: int, d: int): int {
    YearStart(y) + MonthStart(IsLeap(y), m) + d - 1
  }

  lemma DayOfDate(day: int)
    ensures var (y, m, d) := DateOf(day);
            DayOf(y, m, d) == day && 0 <= m < 12 && 1 <= d <= MonthStart(IsLeap(y), m + 1) - MonthStart(IsLeap(y), m)
  {
    hide YearStart, YearOf;
    YearLength(YearOf(day));
  }

  predicate DateBefore(a: (int, int, int), b: (int, int, int)) {
    a.0 < b.0 || (a.0 == b.0 && (a.1 < b.1 || (a.1 == b.1 && a.2 < b.2)))
  }

  lemma MonthsAscend(leap: bool, a: int, b: int)
    requires 0 <= a < b <= 12
    ensures MonthStart(leap, a) < MonthStart(leap, b)
    ensures a + 1 <= b ==> MonthStart(leap, a + 1) <= MonthStart(leap, b)
  {
  }

  /** A later day has a later date. */
  lemma DatesAscend(a: int, b: int)
    requires a < b
    ensures DateBefore(DateOf(a), DateOf(b))
  {
    hide YearStart, MonthStart, IsLeap, DateOf;
    DayOfDate(a);
    DayOfDate(b);
    var (ya, ma, da) := DateOf(a);
    var (yb, mb, db) := DateOf(b);
    YearOfDate(a);
    YearOfDate(b);
    if yb < ya {
      if yb + 1 < ya {
        YearsAscend(yb + 1, ya);
      }
      assert false;
    } else if ya == yb && mb < ma {
      MonthsAscend(IsLeap(ya), mb, ma);
      assert false;
    }
  }

  lemma YearOfDate(day: int)
    ensures var y := DateOf(day).0; YearStart(y) <= day < YearStart(y + 1)
  {
    hide YearStart, MonthStart;
  }

  /** Breaking down keeps the order of time: it is strictly increasing under `TmComp`. */
  lemma GmTimeAscends(a: int, b: int)
    requires a < b
    ensures TmComp(GmTime(a), GmTime(b)) < 0
  {
    hide DateOf;
    if a / DAY < b / DAY {
      DatesAscend(a / DAY, b / DAY);
    } else {
      SecondsAscend(a % DAY, b % DAY);
    }
  }

  lemma SecondsAscend(a: int, b: int)
    requires 0 <= a < b < DAY
    ensures || a / 3600 < b / 3600
            || (a / 3600 == b / 3600 && (a / 60 % 60 < b / 60 % 60 || (a / 60 % 60 == b / 60 % 60 && a % 60 < b % 60)))
  {
    MinutesAndSeconds(a);
    MinutesAndSeconds(b);
  }

  lemma MinutesAndSeconds(a: int)
    ensures a == a / 3600 * 3600 + a / 60 % 60 * 60 + a % 60
    ensures 0 <= a / 60 % 60 < 60 && 0 <= a % 60 < 60
  {
    assert a / 60 / 60 == a / 3600;
  }

  /** So `TmComp` compares broken-down times as their times compare. */
  lemma TmCompOrders(a: int, b: int)
    ensures TmComp(GmTime(a), GmTime(b)) < 0 <==> a < b
    ensures TmComp(GmTime(a), GmTime(b)) == 0 <==> a == b
    ensures TmComp(GmTime(a), GmTime(b)) > 0 <==> a > b
  {
    hide GmTime;
    if a < b {
      GmTimeAscends(a, b);
    } else if b < a {
      GmTimeAscends(b, a);
    }
  }

  lemma YearIs(day: int, y: int)
    requires YearStart(y) <= day < YearStart(y + 1)
    ensures YearOf(day) == y
  {
    hide YearStart;
    var r := YearOf(day);
    if y < r {
      if y + 1 < r {
        YearsAscend(y + 1, r);
      }
    } else if r < y {
      if r + 1 < y {
        YearsAscend(r + 1, y);
      }
    }
  }

  lemma FiveCycles(y: int)
    ensures YearStart(y + 2000) == YearStart(y) + 730485
    ensures IsLeap(y + 2000) <==> IsLeap(y)
  {
    hide YearStart, IsLeap;
    Cycle(y);
    Cycle(y + 400);
    Cycle(y + 800);
    Cycle(y + 1200);
    Cycle(y + 1600);
  }

  /** Two thousand years are five cycles of four hundred: the same date, 730485 days later. */
  lemma TwoThousandYears(day: int)
    ensures var (y, m, d) := DateOf(day); DateOf(day + 730485) == (y + 2000, m, d)
  {
    hide YearStart, MonthStart, MonthFrom, IsLeap, YearOf;
    var y := YearOf(day);
    FiveCycles(y);
    FiveCycles(y + 1);
    YearIs(day + 730485, y + 2000);
  }

  lemma DaysLater(t: int, n: int)
    ensures (t + n * DAY) / DAY == t / DAY + n && (t + n * DAY) % DAY == t % DAY
  {
  }

  lemma TwoThousandYearsLater(t: int)
    ensures GmTime(t + 730485 * DAY) == GmTime(t).(year := GmTime(t).year + 2000)
  {
    hide DateOf;
    DaysLater(t, 730485);
    TwoThousandYears(t / DAY);
  }

  // ----- the inverse

  function MonthLength(leap: bool, m: int): int {
    MonthStart(leap, m + 1) - MonthStart(leap, m)
  }

  /** The lengths of the months from January on. */
  lemma MonthLengths(leap: bool)
    ensures MonthLength(leap, 0) == 31 && MonthLength(leap, 1) == (if leap then 29 else 28)
    ensures MonthLength(leap, 2) == 31 && MonthLength(leap, 3) == 30 && MonthLength(leap, 4) == 31
    ensures MonthLength(leap, 5) == 30 && MonthLength(leap, 6) == 31 && MonthLength(leap, 7) == 31
    ensures MonthLength(leap, 8) == 30 && MonthLength(leap, 9) == 31 && MonthLength(leap, 10) == 30
    ensures MonthLength(leap, 11) == 31 && MonthStart(leap, 0) == 0
  {
  }

  /** The fields name a second of some day. */
  predicate IsCivil(tm: Tm) {
    && 0 <= tm.mon < 12
    && 1 <= tm.mday <= MonthLength(IsLeap(tm.year + 1900), tm.mon)
    && 0 <= tm.hour < 24 && 0 <= tm.min < 60 && 0 <= tm.sec < 60
  }

  function TimeOf(tm: Tm): int {
    DayOf(tm.year + 1900, tm.mon, tm.mday) * DAY + tm.hour * 3600 + tm.min * 60 + tm.sec
  }

  /** Days are counted on from 1 January 1970, day by day, month by month and year by year. */
  lemma DaysFollow(y: int, m: int, d: int)
    requires 0 <= m < 12
    ensures DayOf(1970, 0, 1) == 0 && DayOf(y, m, d + 1) == DayOf(y, m, d) + 1
    ensures m < 11 ==> DayOf(y, m + 1, 1) == DayOf(y, m, 1) + MonthLength(IsLeap(y), m)
    ensures m == 11 ==> DayOf(y + 1, 0, 1) == DayOf(y, m, 1) + MonthLength(IsLeap(y), m)
  {
    hide YearStart, IsLeap;
    Epoch();
    YearLength(y);
  }

  lemma MonthIs(leap: bool, day: nat, m: nat)
    requires m < 12 && MonthStart(leap, m) <= day < MonthStart(leap, m + 1)
    ensures day < MonthStart(leap, 12) && MonthFrom(leap, day, 0) == m
  {
    MonthsAscend(leap, m, 12);
    var r := MonthFrom(leap, day, 0);
    if m < r {
      MonthsAscend(leap, m, r);
    } else if r < m {
      MonthsAscend(leap, r, m);
    }
    hide MonthStart, MonthFrom;
  }

  lemma MonthsPositive(leap: bool, m: nat)
    ensures MonthStart(leap, m) >= 0
  {
  }

  lemma MonthsFillYear(y: int)
    ensures MonthStart(IsLeap(y), 12) == YearStart(y + 1) - YearStart(y)
  {
    YearLength(y);
    hide YearStart, IsLeap;
  }

  lemma DateOfDay(y: int, m: nat, d: int)
    requires m < 12 && 1 <= d <= MonthLength(IsLeap(y), m)
    ensures DateOf(DayOf(y, m, d)) == (y, m, d)
  {
    hide YearStart, MonthStart, MonthFrom, IsLeap, YearOf;
    MonthsPositive(IsLeap(y), m);
    var day := MonthStart(IsLeap(y), m) + d - 1;
    MonthIs(IsLeap(y), day, m);
    MonthsFillYear(y);
    YearIs(YearStart(y) + day, y);
  }

  lemma ClockReads(s: int)
    requires 0 <= s < DAY
    ensures s / 3600 * 3600 + s / 60 % 60 * 60 + s % 60 == s
    ensures 0 <= s / 3600 < 24
  {
  }

  lemma ClockSets(day: int, h: int, m: int, s: int)
    requires 0 <= h < 24 && 0 <= m < 60 && 0 <= s < 60
    ensures var t := day * DAY + h * 3600 + m * 60 + s;
            t / DAY == day && t % DAY / 3600 == h && t % DAY / 60 % 60 == m && t % DAY % 60 == s
  {
    var r := h * 3600 + m * 60 + s;
    assert 0 <= r < DAY;
    DaysLater(r, day);
    assert r / 3600 == h && r / 60 == h * 60 + m && r % 60 == s;
  }

  /** What `gmtime_r` yields is civil, and names the time it came from. */
  lemma TimeOfGmTime(t: int)
    ensures IsCivil(GmTime(t)) && TimeOf(GmTime(t)) == t
  {
    hide DateOf, DayOf, IsLeap, MonthStart;
    DayOfDate(t / DAY);
    ClockReads(t % DAY);
  }

  /** Every civil time is what `gmtime_r` yields for the time it names. */
  lemma GmTimeOfTime(tm: Tm)
    requires IsCivil(tm)
    ensures GmTime(TimeOf(tm)) == tm
  {
    hide DateOf, DayOf, IsLeap, MonthStart;
    DateOfDay(tm.year + 1900, tm.mon, tm.mday);
    ClockSets(DayOf(tm.year + 1900, tm.mon, tm.mday), tm.hour, tm.min, tm.sec);
  }
}
