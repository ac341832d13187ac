/** The conversions of MCLibetpan.cpp between timestamps and dates with a zone. */
module Timestamps {
  import opened Calendar

  function Pow2(n: nat): (r: nat)
    ensures r > 0
  {
    if n == 0 then 1 else 2 * Pow2(n - 1)
  }

  /** The range that `mkgmtime` searches. */
  const REACH: int := 0x100_0000_0000

  const INVALID_TIMESTAMP := -1

  /** The minute that the fields name, whatever their seconds. */
  function Minute(tm: Tm): Tm {
    tm.(sec := 0)
  }

  predicate Reachable(tm: Tm) {
    IsCivil(Minute(tm)) && -REACH <= TimeOf(Minute(tm)) < REACH
  }

  /** The time that the fields name, or nothing if the search cannot reach their minute. */
  function MkGmTime(tm: Tm): int {
    if Reachable(tm) then TimeOf(Minute(tm)) + tm.sec else -1
  }

  /** `1 << n` in a signed 64-bit integer that may already have overflowed into its sign. */
  function ShiftedOnce(t: int): int {
    if t * 2 >= 0x8000_0000_0000_0000 then t * 2 - 0x1_0000_0000_0000_0000 else t * 2
  }

  lemma Powers()
    ensures Pow2(40) == REACH && Pow2(0) == 1 && Pow2(63) == 0x8000_0000_0000_0000
  {
    assert Pow2(8) == 0x100;
    assert Pow2(16) == 0x100 * Pow2(8);
    assert Pow2(24) == 0x100 * Pow2(16);
    assert Pow2(32) == 0x100 * Pow2(24);
    assert Pow2(40) == 0x100 * Pow2(32);
    assert Pow2(48) == 0x100 * Pow2(40);
    assert Pow2(56) == 0x100 * Pow2(48);
    assert Pow2(63) == 0x80 * Pow2(56);
  }

  /** The number of bits a positive timestamp can have. */
  method CountBits() returns (bits: nat, t: int)
    ensures bits == 63 && t < 0
  {
    Powers();
    bits, t := 0, 1;
    while t > 0
      invariant bits <= 63
      invariant bits < 63 ==> t == Pow2(bits)
      invariant bits == 63 ==> t < 0
      decreases 63 - bits
    {
      PowerBound(bits);
      bits, t := bits + 1, ShiftedOnce(t);
    }
  }

  lemma {:induction false} PowerGrows(a: nat, b: nat)
    requires a < b
    ensures 2 * Pow2(a) <= Pow2(b)
  {
    if a + 1 < b {
      PowerGrows(a, b - 1);
    }
  }

  lemma PowerBound(bits: nat)
    requires bits < 63
    ensures 2 * Pow2(bits) <= 0x8000_0000_0000_0000
    ensures bits < 62 ==> 2 * Pow2(bits) < 0x8000_0000_0000_0000
    ensures bits == 62 ==> 2 * Pow2(bits) == 0x8000_0000_0000_0000
    ensures 2 * Pow2(bits) == Pow2(bits + 1)
  {
    Powers();
    PowerGrows(bits, 63);
    if bits < 62 {
      PowerGrows(bits + 1, 63);
    }
  }

  /** Where the search stands: `t` is within reach, and the sought time within `Pow2(bits)` of it. */
  ghost predicate Searching(tm: Tm, t: int, bits: int) {
    && -1 <= bits <= 40
    && (bits >= 0 ==> -REACH + Pow2(bits) <= t <= REACH - Pow2(bits))
    && (bits < 0 ==> -REACH <= t < REACH)
    && (Reachable(tm) && bits >= 0 ==> t - Pow2(bits) <= TimeOf(tm) < t + Pow2(bits))
    && (Reachable(tm) && bits < 0 ==> TimeOf(tm) == t)
  }

  lemma SearchSteps(tm: Tm, t: int, bits: int)
    requires tm.sec == 0 && Searching(tm, t, bits) && TmComp(GmTime(t), tm) != 0
    ensures bits < 0 ==> !Reachable(tm)
    ensures bits == 0 ==> Searching(tm, t - 1, -1)
    ensures bits > 0 ==>
      Searching(tm, if TmComp(GmTime(t), tm) > 0 then t - Pow2(bits - 1) else t + Pow2(bits - 1), bits - 1)
  {
    hide IsCivil, TimeOf, TmComp, GmTime;
    if Reachable(tm) {
      GmTimeOfTime(tm);
      TmCompOrders(t, TimeOf(tm));
    }
  }

  lemma SearchEnds(tm: Tm, t: int, bits: int)
    requires tm.sec == 0 && Searching(tm, t, bits) && TmComp(GmTime(t), tm) == 0
    ensures Reachable(tm) && TimeOf(tm) == t
  {
    hide IsCivil, TimeOf, TmComp, GmTime;
    TmCompEqual(GmTime(t), tm);
    TimeOfGmTime(t);
  }

  lemma SecondsDoNotMatter(tm: Tm)
    ensures Minute(tm).sec == 0
    ensures MkGmTime(tm) == if Reachable(Minute(tm)) then TimeOf(Minute(tm)) + tm.sec else INVALID_TIMESTAMP
  {
  }

  lemma SearchStarts(tm: Tm)
    requires tm.sec == 0
    ensures Searching(tm, 0, 40)
  {
    hide IsCivil, TimeOf;
    Powers();
  }

  /** Inverts `gmtime_r` by a bitwise search of at most 42 comparisons. */
  method Mkgmtime(tmp: Tm) returns (r: int, ghost comparisons: nat)
    ensures r == MkGmTime(tmp)
    ensures comparisons <= 42
  {
    hide *;
    var yourtm := tmp;
    var savedSeconds := yourtm.sec;
    yourtm := Minute(yourtm);
    SecondsDoNotMatter(tmp);
    var bits: int, t: int;
    bits, t := CountBits();
    if bits > 40 {
      bits := 40;
    }
    // `time_t` is signed, so the median is 0.
    t := 0;
    comparisons := 0;
    SearchStarts(yourtm);
    while true
      invariant -1 <= bits <= 40 && Searching(yourtm, t, bits)
      invariant comparisons == 40 - bits
      decreases bits + 1
    {
      var mytm := GmTime(t);
      comparisons := comparisons + 1;
      var dir := TmComp(mytm, yourtm);
      if dir == 0 {
        break;
      }
      SearchSteps(yourtm, t, bits);
      if bits < 0 {
        return INVALID_TIMESTAMP, comparisons;
      }
      bits := bits - 1;
      if bits < 0 {
        t := t - 1;
      } else if dir > 0 {
        t := t - Pow2(bits);
      } else {
        t := t + Pow2(bits);
      }
    }
    SearchEnds(yourtm, t, bits);
    t := t + savedSeconds;
    r := t;
  }

  /** Every time within reach is found again from its fields; 42 comparisons always suffice. */
  lemma FoundAgain(t: int)
    ensures Reachable(GmTime(t)) <==> -REACH <= t - t % 60 < REACH
    ensures -REACH <= t - t % 60 < REACH ==> MkGmTime(GmTime(t)) == t
  {
    MinuteOf(t);
    hide GmTime, IsCivil, TimeOf;
    TimeOfGmTime(t);
    TimeOfGmTime(t - t % 60);
  }

  lemma MinuteOf(t: int)
    ensures Minute(GmTime(t)) == GmTime(t - t % 60)
    ensures GmTime(t).sec == t % 60
  {
    hide DateOf;
    var s := t % DAY;
    SecondsOfDay(t);
    DaysLater(s - s % 60, t / DAY);
    StartOfMinute(s);
  }

  lemma SecondsOfDay(t: int)
    ensures t == t / DAY * DAY + t % DAY && t % 60 == t % DAY % 60
  {
    var q, s := t / DAY, t % DAY;
    MinutesDropOut(1440 * q, s);
    assert t == 60 * (1440 * q) + s;
  }

  lemma MinutesDropOut(m: int, s: int)
    ensures (60 * m + s) % 60 == s % 60
  {
  }

  lemma StartOfMinute(s: int)
    ensures (s - s % 60) / 3600 == s / 3600 && (s - s % 60) / 60 == s / 60 && (s - s % 60) % 60 == 0
  {
    assert s / 60 / 60 == s / 3600;
  }

  // ----- dates with a zone

  /**
    A date as a message header shows it; `zone` is hours and minutes, two decimal digits each, with the
    sign of both.
   */
  datatype DateTime = DateTime(day: int, month: int, year: int, hour: int, min: int, sec: int, zone: int)

  /** Division that drops the fraction. */
  function Trunc(a: int, b: int): int
    requires b > 0
  {
    if a >= 0 then a / b else -(-a / b)
  }

  /** The cast to a signed integer of 32 bits. */
  function ToInt(a: int): (i: int)
    ensures -0x8000_0000 <= i < 0x8000_0000
    ensures -0x8000_0000 <= a < 0x8000_0000 ==> i == a
  {
    (a + 0x8000_0000) % 0x1_0000_0000 - 0x8000_0000
  }

  /** Hours and minutes side by side. */
  function PackedZone(minutes: int): int {
    var sign := if minutes < 0 then -1 else 1;
    var off := minutes * sign;
    (off / 60 * 100 + off % 60) * sign
  }

  function ZoneSeconds(zone: int): int {
    var hour := if zone >= 0 then zone / 100 else -(-zone / 100);
    var min := if zone >= 0 then zone % 100 else -(-zone % 100);
    hour * 3600 + min * 60
  }

  /** Unpacking a packed zone gives the minutes it was packed from, whatever their sign. */
  lemma ZoneUnpacks(minutes: int)
    ensures ZoneSeconds(PackedZone(minutes)) == minutes * 60
  {
    var off := if minutes < 0 then -minutes else minutes;
    var h, m := off / 60, off % 60;
    assert (h * 100 + m) / 100 == h && (h * 100 + m) % 100 == m;
  }

  /** The fields of a date, its year completed if it has no century. */
  function FieldsOf(date: DateTime): Tm {
    Tm(if date.year < 1000 then date.year + 2000 - 1900 else date.year - 1900,
       date.month - 1, date.day, date.hour, date.min, date.sec)
  }

  /** The second that a date names. */
  function Timestamp(date: DateTime): int {
    MkGmTime(FieldsOf(date)) - ZoneSeconds(date.zone)
  }

  method TimestampFromDate(date: DateTime) returns (timeval: int)
    ensures timeval == Timestamp(date)
  {
    var tmval := Tm(0, date.month - 1, date.day, date.hour, date.min, date.sec);
    if date.year < 1000 {
      tmval := tmval.(year := date.year + 2000 - 1900);
    } else {
      tmval := tmval.(year := date.year - 1900);
    }
    ghost var comparisons;
    timeval, comparisons := Mkgmtime(tmval);
    var hour, min;
    if date.zone >= 0 {
      hour := date.zone / 100;
      min := date.zone % 100;
    } else {
      hour := -(-date.zone / 100);
      min := -(-date.zone % 100);
    }
    timeval := timeval - (hour * 3600 + min * 60);
  }

  /** The date of local fields, in the zone that takes universal fields to them. */
  function DateOfFields(lt: Tm, gmt: Tm): DateTime {
    DateTime(lt.mday, lt.mon + 1, lt.year + 1900, lt.hour, lt.min, lt.sec,
             PackedZone(ToInt(Trunc(MkGmTime(lt) - MkGmTime(gmt), 60))))
  }

  /** A zone names its hours and minutes, ahead of universal time if it is positive and behind it if it is negative. */
  lemma ZoneMeans(hours: nat, minutes: nat)
    requires minutes < 60
    ensures ZoneSeconds(hours * 100 + minutes) == hours * 3600 + minutes * 60
    ensures ZoneSeconds(-(hours * 100 + minutes)) == -(hours * 3600 + minutes * 60)
    ensures PackedZone(hours * 60 + minutes) == hours * 100 + minutes
    ensures PackedZone(-(hours * 60 + minutes)) == -(hours * 100 + minutes)
  {
    assert (hours * 100 + minutes) / 100 == hours && (hours * 100 + minutes) % 100 == minutes;
    assert (hours * 60 + minutes) / 60 == hours && (hours * 60 + minutes) % 60 == minutes;
  }

  /** The second of the local clock on the day of a date, months counted from 1 for January. */
  function LocalSecond(date: DateTime): int {
    DayOf(date.year, date.month - 1, date.day) * DAY + date.hour * 3600 + date.min * 60 + date.sec
  }

  /** A year of fewer than four digits counts from 2000. */
  function Completed(date: DateTime): DateTime {
    if date.year < 1000 then date.(year := date.year + 2000) else date
  }

  predicate IsCivilDate(date: DateTime) {
    && 1 <= date.month <= 12
    && 1 <= date.day <= MonthLength(IsLeap(date.year), date.month - 1)
    && 0 <= date.hour < 24 && 0 <= date.min < 60 && 0 <= date.sec < 60
  }

  /** A date names the second that its local clock shows, less what its zone is ahead of universal time. */
  lemma TimestampMeans(date: DateTime)
    requires var d := Completed(date); IsCivilDate(d) && -REACH <= LocalSecond(d) - d.sec < REACH
    ensures Timestamp(date) == LocalSecond(Completed(date)) - ZoneSeconds(date.zone)
  {
    hide DayOf, MonthLength, IsLeap, ZoneSeconds;
    SecondsDoNotMatter(FieldsOf(date));
  }

  /** The date of a timestamp shows the local clock, and how far it is ahead of universal time. */
  lemma DateMeans(t: int, offset: int)
    requires InReach(t) && InReach(t + offset) && IsOffset(offset)
    ensures var date := DateOfFields(GmTime(t + offset), GmTime(t));
            && LocalSecond(date) == t + offset && date.zone == PackedZone(Trunc(offset, 60))
            && IsCivilDate(date)
  {
    hide GmTime, MkGmTime, Reachable, PackedZone, DayOf, MonthLength, IsLeap;
    FoundAgain(t);
    FoundAgain(t + offset);
    TimeOfGmTime(t + offset);
    assert ToInt(Trunc(offset, 60)) == Trunc(offset, 60);
  }

  /** The date of a timestamp where local time is `offset` seconds ahead of universal time. */
  method DateFromTimestamp(timeval: int, offset: int) returns (date: DateTime)
    ensures date == DateOfFields(GmTime(timeval + offset), GmTime(timeval))
  {
    hide GmTime, MkGmTime;
    var gmt, lt := GmTime(timeval), GmTime(timeval + offset);
    ghost var comparisons;
    var local, universal;
    local, comparisons := Mkgmtime(lt);
    universal, comparisons := Mkgmtime(gmt);
    var off := ToInt(Trunc(local - universal, 60));
    var sign := if off < 0 then -1 else 1;
    off := off * sign;
    var min, hour := off % 60, off / 60;
    off := hour * 100 + min;
    off := off * sign;
    date := DateTime(lt.mday, lt.mon + 1, lt.year + 1900, lt.hour, lt.min, lt.sec, off);
  }

  /** An offset in seconds that fits a signed integer of 32 bits, about 68 years either way. */
  predicate IsOffset(offset: int) {
    -0x8000_0000 <= offset < 0x8000_0000
  }

  predicate InReach(t: int) {
    -REACH <= t - t % 60 < REACH
  }

  /** Where a timestamp ends up after it went through a date. */
  function ThroughDate(t: int, offset: int): int {
    Timestamp(DateOfFields(GmTime(t + offset), GmTime(t)))
  }

  /**
    It moves by the part of the offset below a minute, and by 2000 years if its local year has fewer
    than four digits.
   */
  lemma ThroughDateMoves(t: int, offset: int)
    requires InReach(t) && InReach(t + offset) && IsOffset(offset)
    ensures ThroughDate(t, offset) ==
      t + (offset - 60 * Trunc(offset, 60)) + (if GmTime(t + offset).year + 1900 < 1000 then 730485 * DAY else 0)
  {
    hide GmTime, MkGmTime, Reachable, PackedZone, ZoneSeconds;
    var lt := GmTime(t + offset);
    FoundAgain(t);
    FoundAgain(t + offset);
    ZoneUnpacks(Trunc(offset, 60));
    assert ToInt(Trunc(offset, 60)) == Trunc(offset, 60);
    var date := DateOfFields(lt, GmTime(t));
    if lt.year + 1900 < 1000 {
      TwoThousandYearsLater(t + offset);
      EarlyYears(t + offset);
      FoundAgain(t + offset + 730485 * DAY);
      assert FieldsOf(date) == GmTime(t + offset + 730485 * DAY);
    } else {
      assert FieldsOf(date) == lt;
    }
  }

  lemma EarlyIsNegative(t: int)
    requires GmTime(t).year + 1900 < 1000
    ensures t < 0
  {
    hide YearStart, YearOf, MonthFrom, MonthStart, IsLeap;
    Epoch();
    YearsAscend(YearOf(t / DAY) + 1, 1970);
  }

  lemma SameSecond(t: int)
    ensures (t + 730485 * DAY) % 60 == t % 60
  {
    assert 730485 * DAY == 60 * 1051898400;
  }

  /** Before the year 1000 there is room for 2000 years more. */
  lemma EarlyYears(t: int)
    requires InReach(t) && GmTime(t).year + 1900 < 1000
    ensures InReach(t + 730485 * DAY)
  {
    hide GmTime;
    EarlyIsNegative(t);
    SameSecond(t);
  }

  /**
    A timestamp survives its date exactly when the zone is a whole number of minutes and the local year
    has four digits.
   */
  lemma ThroughDateIff(t: int, offset: int)
    requires InReach(t) && InReach(t + offset) && IsOffset(offset)
    ensures ThroughDate(t, offset) == t <==> offset % 60 == 0 && GmTime(t + offset).year + 1900 >= 1000
  {
    hide GmTime, ThroughDate;
    ThroughDateMoves(t, offset);
    assert -60 < offset - 60 * Trunc(offset, 60) < 60;
    assert offset - 60 * Trunc(offset, 60) == 0 <==> offset % 60 == 0;
  }
}
