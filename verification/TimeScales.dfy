/** Calendar days to seconds and back, and UTC to GPS time and back through the table of leap seconds. */
module TimeScales {
  import opened BitFields

  /** gtime_t: whole seconds since 1970 and a fraction. */
  datatype Time = Time(time: int, sec: real)

  predicate ValidTime(t: Time) {
    0.0 <= t.sec < 1.0
  }

  datatype Epoch = Epoch(year: int, mon: int, day: int, hour: int, min: int, sec: real)

  // ---------- the reference: counting days month by month ----------

  predicate LeapYear(y: int) {
    y % 4 == 0 && (y % 100 != 0 || y % 400 == 0)
  }

  function DaysIn(y: int, m: int): int {
    if m == 2 then if LeapYear(y) then 29 else 28
    else if m == 4 || m == 6 || m == 9 || m == 11 then 30
    else 31
  }

  /** The length of the n-th month since January 1970. */
  function MonthDays(n: nat): int {
    DaysIn(1970 + n / 12, n % 12 + 1)
  }

  /** The days before the n-th month. */
  function DaysBefore(n: nat): int {
    if n == 0 then 0 else DaysBefore(n - 1) + MonthDays(n - 1)
  }

  predicate ValidEpoch(e: Epoch) {
    && 1970 <= e.year <= 2099 && 1 <= e.mon <= 12 && 1 <= e.day <= DaysIn(e.year, e.mon)
    && 0 <= e.hour < 24 && 0 <= e.min < 60 && 0.0 <= e.sec < 60.0
  }

  function Month(e: Epoch): int {
    (e.year - 1970) * 12 + e.mon - 1
  }

  /** The day of an epoch, counted from 1 January 1970. */
  function DayNumber(e: Epoch): int
    requires Month(e) >= 0
  {
    DaysBefore(Month(e)) + e.day - 1
  }

  // ---------- epoch2time ----------

  function DayOfYear(mon: int): int {
    if mon == 1 then 1 else if mon == 2 then 32 else if mon == 3 then 60 else if mon == 4 then 91
    else if mon == 5 then 121 else if mon == 6 then 152 else if mon == 7 then 182 else if mon == 8 then 213
    else if mon == 9 then 244 else if mon == 10 then 274 else if mon == 11 then 305 else 335
  }

  /** Time 0 for a year or month out of range. */
  function Epoch2Time(e: Epoch): Time {
    if e.year < 1970 || 2099 < e.year || e.mon < 1 || 12 < e.mon then Time(0, 0.0)
    else
      var days := (e.year - 1970) * 365 + (e.year - 1969) / 4 + DayOfYear(e.mon) + e.day - 2
                  + (if e.year % 4 == 0 && e.mon >= 3 then 1 else 0);
      var sec := e.sec.Floor;
      Time(days * 86400 + e.hour * 3600 + e.min * 60 + sec, e.sec - sec as real)
  }

  // ---------- four years of months ----------

  /** mday: the lengths of the 48 months of four years. */
  function Mday(i: nat): int {
    if i % 12 == 1 then if i / 12 == 2 then 29 else 28
    else if i % 12 == 3 || i % 12 == 5 || i % 12 == 8 || i % 12 == 10 then 30
    else 31
  }

  /** The days before month r of four years, in closed form. */
  function Before48(r: nat): int {
    var a, m := r / 12, r % 12;
    a * 365 + (if a >= 3 then 1 else 0) + DayOfYear(m + 1) - 1 + (if a == 2 && m >= 2 then 1 else 0)
  }

  lemma Before48Next(r: nat)
    requires r < 48
    ensures Before48(r + 1) == Before48(r) + Mday(r)
  {
    var a, m := r / 12, r % 12;
    if m == 11 {
      DivModUnique(r + 1, 12, a + 1, 0);
    } else {
      DivModUnique(r + 1, 12, a, m + 1);
    }
  }

  /** The table agrees with the calendar up to 2099. */
  lemma MonthDaysRepeat(n: nat)
    requires n < 12 * 130
    ensures MonthDays(n) == Mday(n % 48)
  {
    var q, r := n / 48, n % 48;
    DivModUnique(n, 12, 4 * q + r / 12, r % 12);
  }

  lemma {:induction false} DaysBeforeClosed(n: nat)
    requires n <= 12 * 130
    ensures DaysBefore(n) == n / 48 * 1461 + Before48(n % 48)
  {
    hide Before48, Mday, MonthDays;
    if n == 0 {
      FirstMonth();
    } else {
      DaysBeforeClosed(n - 1);
      MonthDaysRepeat(n - 1);
      var q, r := (n - 1) / 48, (n - 1) % 48;
      Before48Next(r);
      if r == 47 {
        FourYears();
        FirstMonth();
        DivModUnique(n, 48, q + 1, 0);
      } else {
        DivModUnique(n, 48, q, r + 1);
      }
    }
  }

  /** epoch2time counts the days of the calendar. */
  lemma CountsDays(e: Epoch)
    requires ValidEpoch(e)
    ensures Month(e) >= 0
    ensures Epoch2Time(e).time == DayNumber(e) * 86400 + e.hour * 3600 + e.min * 60 + e.sec.Floor
    ensures ValidTime(Epoch2Time(e))
  {
    hide DaysBefore;
    DaysFormula(e.year - 1970, e.mon);
  }

  lemma Before48Of(a: nat, mon: int)
    requires 1 <= mon <= 12
    ensures Before48(12 * a + mon - 1)
         == a * 365 + (if a >= 3 then 1 else 0) + DayOfYear(mon) - 1 + (if a == 2 && mon >= 3 then 1 else 0)
  {
    DivModUnique(12 * a + mon - 1, 12, a, mon - 1);
  }

  /** The formula for the days before a month. */
  lemma DaysFormula(y: nat, mon: int)
    requires y < 130 && 1 <= mon <= 12
    ensures y * 365 + (y + 1) / 4 + DayOfYear(mon) - 1 + (if (y + 1970) % 4 == 0 && mon >= 3 then 1 else 0)
         == DaysBefore(12 * y + mon - 1)
  {
    hide DaysBefore, Before48, DayOfYear;
    var n, q, a := 12 * y + mon - 1, y / 4, y % 4;
    DaysBeforeClosed(n);
    DivModUnique(n, 48, q, 12 * a + mon - 1);
    Before48Of(a, mon);
    DivModUnique(y + 1, 4, if a == 3 then q + 1 else q, if a == 3 then 0 else a + 1);
    assert (y + 1970) % 4 == 0 <==> a == 2;
  }

  // ---------- time2epoch ----------

  lemma {:induction false} DaysBeforeMonotone(a: nat, b: nat)
    requires a <= b
    ensures DaysBefore(a) + (b - a) <= DaysBefore(b)
    decreases b
  {
    if a < b {
      DaysBeforeMonotone(a, b - 1);
    }
  }

  lemma FirstMonth()
    ensures Before48(0) == 0
  {
  }

  /** time2epoch: for every time before 2100 the epoch it stands for. */
  method Time2Epoch(t: Time) returns (e: Epoch)
    requires ValidTime(t) && 0 <= t.time
    ensures t.time < DaysBefore(12 * 130) * 86400 ==> ValidEpoch(e) && Epoch2Time(e) == t
  {
    var days := t.time / 86400;
    var sec := t.time - days * 86400;
    var day, mon := days % 1461, 0;
    hide Before48, Mday, DaysBefore, Epoch2Time;
    FirstMonth();
    while mon < 48
      invariant 0 <= mon <= 48 && 0 <= day
      invariant day + Before48(mon) == days % 1461
    {
      if day < Mday(mon) {
        break;
      }
      Before48Next(mon);
      day := day - Mday(mon);
      mon := mon + 1;
    }
    e := Epoch(1970 + days / 1461 * 4 + mon / 12, mon % 12 + 1, day + 1,
               sec / 3600, sec % 3600 / 60, (sec % 60) as real + t.sec);
    FoundEpoch(t, days, day, mon, e);
  }

  lemma FoundEpoch(t: Time, days: nat, day: int, mon: nat, e: Epoch)
    requires ValidTime(t) && 0 <= t.time && days == t.time / 86400 && mon <= 48
    requires 0 <= day && day + Before48(mon) == days % 1461 && (mon < 48 ==> day < Mday(mon))
    requires var sec := t.time - days * 86400;
             e == Epoch(1970 + days / 1461 * 4 + mon / 12, mon % 12 + 1, day + 1,
                        sec / 3600, sec % 3600 / 60, (sec % 60) as real + t.sec)
    ensures t.time < DaysBefore(12 * 130) * 86400 ==> ValidEpoch(e) && Epoch2Time(e) == t
  {
    hide Before48, Mday, DaysBefore;
    if t.time < DaysBefore(12 * 130) * 86400 {
      FoundMonth(days, day, mon);
      FoundSeconds(t.time - days * 86400, t.sec);
      hide Epoch2Time;
      CountsDays(e);
      FractionKept(e, t.sec);
    }
  }

  lemma FractionKept(e: Epoch, fraction: real)
    requires ValidEpoch(e) && e.sec == e.sec.Floor as real + fraction
    ensures Epoch2Time(e).sec == fraction
  {
  }

  lemma FoundSeconds(sec: int, fraction: real)
    requires 0 <= sec < 86400 && 0.0 <= fraction < 1.0
    ensures 0 <= sec / 3600 < 24 && 0 <= sec % 3600 / 60 < 60 && 0 <= sec % 60 < 60
    ensures sec == sec / 3600 * 3600 + sec % 3600 / 60 * 60 + sec % 60
    ensures ((sec % 60) as real + fraction).Floor == sec % 60
  {
    var h, r := sec / 3600, sec % 3600;
    DivModUnique(sec, 60, 60 * h + r / 60, r % 60);
  }

  /** The month the search stops at is the month of the day. */
  lemma FoundMonth(days: nat, day: int, mon: nat)
    requires days < DaysBefore(12 * 130) && mon <= 48
    requires 0 <= day && day + Before48(mon) == days % 1461 && (mon < 48 ==> day < Mday(mon))
    ensures mon < 48
    ensures var y, m := 1970 + days / 1461 * 4 + mon / 12, mon % 12 + 1;
            && y <= 2099 && 0 <= day < DaysIn(y, m)
            && days == DaysBefore((y - 1970) * 12 + m - 1) + day
  {
    hide DaysBefore, MonthDays;
    var q := days / 1461;
    var n := 48 * q + mon;
    DaysBeforeClosed(12 * 130);
    DivModUnique(12 * 130, 48, 32, 24);
    FourYears();
    assert q <= 32;
    if n >= 12 * 130 {
      Before48Monotone(24, mon);
    } else {
      hide Before48, Mday;
      DaysBeforeClosed(n);
      DivModUnique(n, 48, q, mon);
      DivModUnique(n, 12, 4 * q + mon / 12, mon % 12);
      MonthOf(n);
    }
  }

  lemma FourYears()
    ensures Before48(48) == 1461
  {
  }

  lemma MonthOf(n: nat)
    requires n < 12 * 130
    ensures DaysIn(1970 + n / 12, n % 12 + 1) == Mday(n % 48)
  {
    MonthDaysRepeat(n);
  }

  lemma {:induction false} Before48Monotone(a: nat, b: nat)
    requires a <= b <= 48
    ensures Before48(a) <= Before48(b)
    decreases b
  {
    if a < b {
      Before48Monotone(a, b - 1);
      Before48Next(b - 1);
    }
  }

  // ---------- mutual inverses, in order ----------

  predicate Earlier(a: Epoch, b: Epoch) {
    a.year < b.year || (a.year == b.year && (a.mon < b.mon || (a.mon == b.mon && (a.day < b.day
    || (a.day == b.day && (a.hour < b.hour || (a.hour == b.hour && (a.min < b.min
    || (a.min == b.min && a.sec < b.sec)))))))))
  }

  predicate TimeLess(a: Time, b: Time) {
    a.time < b.time || (a.time == b.time && a.sec < b.sec)
  }

  /** epoch2time is strictly increasing. */
  lemma StrictlyIncreasing(a: Epoch, b: Epoch)
    requires ValidEpoch(a) && ValidEpoch(b) && Earlier(a, b)
    ensures TimeLess(Epoch2Time(a), Epoch2Time(b))
  {
    CountsDays(a);
    CountsDays(b);
    DaysInOrder(a, b);
    SecondsInOrder(a, b);
  }

  lemma DaysInOrder(a: Epoch, b: Epoch)
    requires ValidEpoch(a) && ValidEpoch(b)
    ensures Month(a) >= 0 && Month(b) >= 0
    ensures a.year < b.year || (a.year == b.year && a.mon < b.mon) || (Month(a) == Month(b) && a.day < b.day) ==>
              DayNumber(a) < DayNumber(b)
  {
    if a.year < b.year || (a.year == b.year && a.mon < b.mon) {
      assert Month(a) < Month(b);
      DivModUnique(Month(a), 12, a.year - 1970, a.mon - 1);
      DaysBeforeMonotone(Month(a) + 1, Month(b));
    }
  }

  lemma SecondsInOrder(a: Epoch, b: Epoch)
    requires ValidEpoch(a) && ValidEpoch(b)
    ensures a.hour * 3600 + a.min * 60 + a.sec.Floor < 86400
    ensures a.hour < b.hour || (a.hour == b.hour && a.min < b.min) ==>
              a.hour * 3600 + a.min * 60 + a.sec.Floor < b.hour * 3600 + b.min * 60 + b.sec.Floor
  {
  }

  /** Different epochs have different times, so time2epoch and epoch2time are mutual inverses. */
  lemma EpochsInjective(a: Epoch, b: Epoch)
    requires ValidEpoch(a) && ValidEpoch(b) && Epoch2Time(a) == Epoch2Time(b)
    ensures a == b
  {
    if Earlier(a, b) {
      StrictlyIncreasing(a, b);
    } else if Earlier(b, a) {
      StrictlyIncreasing(b, a);
    }
  }

  /** Back and forth from the calendar. */
  method CalendarRoundTrip(e: Epoch) returns (back: Epoch)
    requires ValidEpoch(e)
    ensures back == e
  {
    CountsDays(e);
    DaysBeforeMonotone(Month(e) + 1, 12 * 130);
    DivModUnique(Month(e), 12, e.year - 1970, e.mon - 1);
    SecondsInOrder(e, e);
    back := Time2Epoch(Epoch2Time(e));
    EpochsInjective(back, e);
  }

  // ---------- GPS time ----------

  /** The origin of GPS time and its week, in ms. */
  const GPST0 := 315964800000
  const WEEK := 604800000

  lemma OriginOfGpsTime()
    ensures Epoch2Time(Epoch(1980, 1, 6, 0, 0, 0.0)) == Time(GPST0 / 1000, 0.0)
  {
  }

  // ---------- leap seconds ----------

  const LEAPS := 18

  /** leaps: the dates, latest first; the i-th brings the offset to LEAPS - i seconds. */
  function LeapEpoch(i: nat): Epoch
    requires i < LEAPS
  {
    match i
    case 0 => Epoch(2017, 1, 1, 0, 0, 0.0)
    case 1 => Epoch(2015, 7, 1, 0, 0, 0.0)
    case 2 => Epoch(2012, 7, 1, 0, 0, 0.0)
    case 3 => Epoch(2009, 1, 1, 0, 0, 0.0)
    case 4 => Epoch(2006, 1, 1, 0, 0, 0.0)
    case 5 => Epoch(1999, 1, 1, 0, 0, 0.0)
    case 6 => Epoch(1997, 7, 1, 0, 0, 0.0)
    case 7 => Epoch(1996, 1, 1, 0, 0, 0.0)
    case 8 => Epoch(1994, 7, 1, 0, 0, 0.0)
    case 9 => Epoch(1993, 7, 1, 0, 0, 0.0)
    case 10 => Epoch(1992, 7, 1, 0, 0, 0.0)
    case 11 => Epoch(1991, 1, 1, 0, 0, 0.0)
    case 12 => Epoch(1990, 1, 1, 0, 0, 0.0)
    case 13 => Epoch(1988, 1, 1, 0, 0, 0.0)
    case 14 => Epoch(1985, 7, 1, 0, 0, 0.0)
    case 15 => Epoch(1983, 7, 1, 0, 0, 0.0)
    case 16 => Epoch(1982, 7, 1, 0, 0, 0.0)
    case 17 => Epoch(1981, 7, 1, 0, 0, 0.0)
  }

  function LeapTime(i: nat): int
    requires i < LEAPS
  {
    Epoch2Time(LeapEpoch(i)).time
  }

  /** GPS time minus UTC from the i-th date on; 0 before the last entry. */
  function Offset(i: nat): int {
    LEAPS - i
  }

  lemma LeapsDescend(i: nat, j: nat)
    requires i < j < LEAPS
    ensures LeapTime(j) + LEAPS < LeapTime(i)
    decreases j - i
  {
    NextLeap(i);
    if i + 1 < j {
      hide LeapTime;
      LeapsDescend(i + 1, j);
    }
  }

  lemma NextLeap(i: nat)
    requires i + 1 < LEAPS
    ensures LeapTime(i + 1) + LEAPS < LeapTime(i)
  {
  }

  /** timeadd of a whole number of seconds. */
  function TimeAdd(t: Time, s: int): Time {
    Time(t.time + (t.sec + s as real).Floor, t.sec + s as real - (t.sec + s as real).Floor as real)
  }

  lemma WholeSecondsAdded(t: Time, s: int)
    requires ValidTime(t)
    ensures TimeAdd(t, s) == Time(t.time + s, t.sec)
  {
    assert (t.sec + s as real).Floor == s;
  }

  function TimeDiff(a: Time, time: int): real {
    (a.time - time) as real + a.sec
  }

  /** The entry of the table that applies at a UTC time; LEAPS before all of them. */
  function UtcEntry(t: int, i: nat): (k: nat)
    requires i <= LEAPS
    ensures i <= k <= LEAPS
    ensures k < LEAPS ==> t >= LeapTime(k)
    ensures forall j | i <= j < k :: t < LeapTime(j)
    decreases LEAPS - i
  {
    if i == LEAPS || t >= LeapTime(i) then i else UtcEntry(t, i + 1)
  }

  function GpstEntry(g: int, i: nat): (k: nat)
    requires i <= LEAPS
    ensures i <= k <= LEAPS
    ensures k < LEAPS ==> g - Offset(k) >= LeapTime(k)
    ensures forall j | i <= j < k :: g - Offset(j) < LeapTime(j)
    decreases LEAPS - i
  {
    if i == LEAPS || g - Offset(i) >= LeapTime(i) then i else GpstEntry(g, i + 1)
  }

  /** GPS time of a UTC time, and back: by the offset of the first entry that applies. */
  function GpsTime(t: Time): Time {
    Time(t.time + Offset(UtcEntry(t.time, 0)), t.sec)
  }

  function UtcTime(g: Time): Time {
    Time(g.time - Offset(GpstEntry(g.time, 0)), g.sec)
  }

  /** From the i-th date of the table to the one after it GPS time is 18 - i seconds ahead; before the last
      entry of the table they agree. The first date is 1 January 2017, the last 1 July 1981. */
  lemma OffsetFrom(t: Time, i: nat)
    requires i < 18 && t.time >= LeapTime(i) && (i > 0 ==> t.time < LeapTime(i - 1))
    ensures GpsTime(t) == Time(t.time + 18 - i, t.sec)
  {
    hide LeapTime;
    var k := UtcEntry(t.time, 0);
    if k < i {
      if k < i - 1 {
        LeapsDescend(k, i - 1);
      }
    }
  }

  lemma OffsetBefore(t: Time)
    requires t.time < 362793600
    ensures GpsTime(t) == t
  {
    hide LeapTime, UtcEntry, Epoch2Time, LeapEpoch;
    assert LeapTime(17) == 362793600 by {
      LeapTimes(17);
    }
    var k := UtcEntry(t.time, 0);
    if k < 17 {
      LeapsDescend(k, 17);
    }
  }

  /** The dates of the table in Unix seconds. */
  lemma LeapTimes(i: nat)
    requires i < 18
    ensures LeapTime(i)
         == [1483228800, 1435708800, 1341100800, 1230768000, 1136073600, 915148800,
                 867715200, 820454400, 773020800, 741484800, 709948800, 662688000,
                 631152000, 567993600, 489024000, 425865600, 394329600, 362793600][i]
  {
  }

  /** utc2gpst. */
  method Utc2Gpst(t: Time) returns (r: Time)
    requires ValidTime(t)
    ensures r == GpsTime(t)
  {
    hide LeapTime, TimeAdd;
    var i := 0;
    while i < LEAPS
      invariant 0 <= i <= LEAPS
      invariant forall j | 0 <= j < i :: t.time < LeapTime(j)
    {
      if TimeDiff(t, LeapTime(i)) >= 0.0 {
        UtcEntryIs(t.time, 0, i);
        WholeSecondsAdded(t, Offset(i));
        return TimeAdd(t, Offset(i));
      }
      i := i + 1;
    }
    UtcEntryIs(t.time, 0, LEAPS);
    r := t;
  }

  /** gpst2utc. */
  method Gpst2Utc(t: Time) returns (r: Time)
    requires ValidTime(t)
    ensures r == UtcTime(t)
  {
    hide LeapTime, TimeAdd, GpstEntry;
    var i := 0;
    while i < LEAPS
      invariant 0 <= i <= LEAPS
      invariant forall j | 0 <= j < i :: t.time - Offset(j) < LeapTime(j)
    {
      var tu := TimeAdd(t, -Offset(i));
      WholeSecondsAdded(t, -Offset(i));
      if TimeDiff(tu, LeapTime(i)) >= 0.0 {
        GpstEntryIs(t.time, 0, i);
        return tu;
      }
      i := i + 1;
    }
    GpstEntryIs(t.time, 0, LEAPS);
    r := t;
  }

  lemma {:induction false} UtcEntryIs(t: int, i: nat, k: nat)
    requires i <= k <= LEAPS
    requires k < LEAPS ==> t >= LeapTime(k)
    requires forall j | i <= j < k :: t < LeapTime(j)
    ensures UtcEntry(t, i) == k
    decreases LEAPS - i
  {
    if i < k {
      UtcEntryIs(t, i + 1, k);
    }
  }

  lemma {:induction false} GpstEntryIs(g: int, i: nat, k: nat)
    requires i <= k <= LEAPS
    requires k < LEAPS ==> g - Offset(k) >= LeapTime(k)
    requires forall j | i <= j < k :: g - Offset(j) < LeapTime(j)
    ensures GpstEntry(g, i) == k
    decreases LEAPS - i
  {
    if i < k {
      GpstEntryIs(g, i + 1, k);
    }
  }

  /** From UTC to GPS time and back is the identity. */
  lemma UtcRoundTrip(t: Time)
    ensures UtcTime(GpsTime(t)) == t
  {
    hide LeapTime;
    GpstEntryIs(GpsTime(t).time, 0, UtcEntry(t.time, 0));
  }

  /** The GPS second that a leap second inserts has no UTC time of its own. */
  ghost predicate InsideLeapSecond(g: int) {
    exists i: nat :: i < LEAPS && LeapTime(i) + Offset(i + 1) == g
  }

  /** From GPS time to UTC and back is the identity exactly outside the inserted seconds. */
  lemma GpstRoundTrip(g: Time)
    ensures GpsTime(UtcTime(g)) == g <==> !InsideLeapSecond(g.time)
  {
    hide LeapTime, UtcEntry, GpstEntry;
    var k := GpstEntry(g.time, 0);
    var j := UtcEntry(UtcTime(g).time, 0);
    LaterEntry(g.time, k, j);
    if InsideLeapSecond(g.time) {
      var i: nat :| i < LEAPS && LeapTime(i) + Offset(i + 1) == g.time;
      LeapSecondMoves(g.time, i, k);
    }
  }

  /** The two searches find the same entry or, in an inserted second, neighbouring ones. */
  lemma LaterEntry(g: int, k: nat, j: nat)
    requires k == GpstEntry(g, 0) && j == UtcEntry(g - Offset(k), 0)
    ensures j == k || (j + 1 == k && LeapTime(j) + Offset(k) == g)
  {
    hide LeapTime, UtcEntry, GpstEntry;
    var u := g - Offset(k);
    assert forall m | 0 <= m < k :: g - Offset(m) < LeapTime(m);
    if k > 0 && u >= LeapTime(k - 1) {
      forall m | 0 <= m < k - 1
        ensures u < LeapTime(m)
      {
        LeapsDescend(m, k - 1);
      }
      UtcEntryIs(u, 0, k - 1);
    } else {
      forall m | 0 <= m < k
        ensures u < LeapTime(m)
      {
        if m < k - 1 {
          LeapsDescend(m, k - 1);
        }
      }
      UtcEntryIs(u, 0, k);
    }
  }

  lemma LeapSecondMoves(g: int, i: nat, k: nat)
    requires i < LEAPS && LeapTime(i) + Offset(i + 1) == g && k == GpstEntry(g, 0)
    ensures k == i + 1 && UtcEntry(g - Offset(k), 0) == i
  {
    hide LeapTime, UtcEntry, GpstEntry;
    forall m | 0 <= m < i
      ensures LeapTime(i) + LEAPS < LeapTime(m)
    {
      LeapsDescend(m, i);
    }
    if i + 1 < LEAPS {
      LeapsDescend(i, i + 1);
    }
    GpstEntryIs(g, 0, i + 1);
    UtcEntryIs(LeapTime(i), 0, i);
  }
}
