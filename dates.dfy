/** Proleptic Gregorian calendar arithmetic, shaped after the ECMAScript Date
    operations the journal relies on.  A timestamp is a number of milliseconds
    since 1970-01-01T00:00 in the local time zone (taken to be UTC, so there is
    no daylight-saving shift); months are numbered 0..11 as in JavaScript. */
module Dates {

  type Timestamp = int

  const MsPerDay: int := 86_400_000
  const MsPerHour: int := 3_600_000
  const MsPerMinute: int := 60_000

  /** Days from 0000-01-01 to 1970-01-01. */
  const EpochOffset: int := 719_528

  predicate IsLeap(y: int) {
    y % 4 == 0 && (y % 100 != 0 || y % 400 == 0)
  }

  function YearLength(y: int): int {
    if IsLeap(y) then 366 else 365
  }

  function MonthLength(y: int, m: int): (n: int)
    requires 0 <= m < 12
    ensures 28 <= n <= 31
  {
    if m == 1 then (if IsLeap(y) then 29 else 28)
    else if m == 3 || m == 5 || m == 8 || m == 10 then 30
    else 31
  }

  /** Days of year y that lie before the first of month m (m == 12 gives the year length). */
  function DaysBeforeMonth(y: int, m: int): int
    requires 0 <= m <= 12
  {
    [0, 31, 59, 90, 120, 151, 181, 212, 243, 273, 304, 334, 365][m]
      + (if m >= 2 && IsLeap(y) then 1 else 0)
  }

  lemma DaysBeforeMonthStep(y: int, m: int)
    requires 0 <= m < 12
    ensures DaysBeforeMonth(y, m + 1) == DaysBeforeMonth(y, m) + MonthLength(y, m)
    ensures DaysBeforeMonth(y, 0) == 0 && DaysBeforeMonth(y, 12) == YearLength(y)
  {
  }

  /** Days from 0000-01-01 to the first of January of year y. */
  function YearStart0(y: int): int {
    365 * y + (y + 3) / 4 - (y + 99) / 100 + (y + 399) / 400
  }

  /** (y + k) / k - (y + k - 1) / k counts whether k divides y, for k = 4, 100, 400. */
  lemma CeilStep4(y: int)
    ensures (y + 4) / 4 - (y + 3) / 4 == if y % 4 == 0 then 1 else 0
  {
    var q, r := y / 4, y % 4;
    assert y + 4 == 4 * (q + 1) + r;
    if r == 0 {
      assert y + 3 == 4 * q + 3;
    } else {
      assert y + 3 == 4 * (q + 1) + (r - 1);
    }
  }

  lemma CeilStep100(y: int)
    ensures (y + 100) / 100 - (y + 99) / 100 == if y % 100 == 0 then 1 else 0
  {
    var q, r := y / 100, y % 100;
    assert y + 100 == 100 * (q + 1) + r;
    if r == 0 {
      assert y + 99 == 100 * q + 99;
    } else {
      assert y + 99 == 100 * (q + 1) + (r - 1);
    }
  }

  lemma CeilStep400(y: int)
    ensures (y + 400) / 400 - (y + 399) / 400 == if y % 400 == 0 then 1 else 0
  {
    var q, r := y / 400, y % 400;
    assert y + 400 == 400 * (q + 1) + r;
    if r == 0 {
      assert y + 399 == 400 * q + 399;
    } else {
      assert y + 399 == 400 * (q + 1) + (r - 1);
    }
  }

  /** Divisibility by 400 implies by 100, which implies by 4. */
  lemma DivisorChain(y: int)
    ensures y % 400 == 0 ==> y % 100 == 0
    ensures y % 100 == 0 ==> y % 4 == 0
  {
    if y % 400 == 0 {
      var q := y / 400;
      assert y == 100 * (4 * q) + 0;
    }
    if y % 100 == 0 {
      var q := y / 100;
      assert y == 4 * (25 * q) + 0;
    }
  }

  lemma {:induction false} YearStartStep(y: int)
    ensures YearStart0(y + 1) == YearStart0(y) + YearLength(y)
  {
    CeilStep4(y);
    CeilStep100(y);
    CeilStep400(y);
    DivisorChain(y);
  }

  lemma {:induction false} YearStartMonotone(a: int, b: int)
    requires a < b
    ensures YearStart0(a) + YearLength(a) <= YearStart0(b)
    decreases b - a
  {
    YearStartStep(a);
    if a + 1 < b {
      YearStartMonotone(a + 1, b);
    }
  }

  lemma {:induction false} YearStartCycle(q: int, k: int)
    ensures YearStart0(400 * q + k) == 146_097 * q + YearStart0(k)
  {
    assert (400 * q + k + 3) / 4 == 100 * q + (k + 3) / 4;
    assert (400 * q + k + 99) / 100 == 4 * q + (k + 99) / 100;
    assert (400 * q + k + 399) / 400 == q + (k + 399) / 400;
  }

  /** Day number (days since 1970-01-01) of the civil date y-(m+1)-d.  The day
      need not lie inside the month; it simply counts on from the first. */
  function DayNumber(y: int, m: int, d: int): int
    requires 0 <= m < 12
  {
    YearStart0(y) - EpochOffset + DaysBeforeMonth(y, m) + d - 1
  }

  predicate ValidCivil(y: int, m: int, d: int) {
    0 <= m < 12 && 1 <= d <= MonthLength(y, m)
  }

  datatype Civil = Civil(year: int, month: int, day: int)

  /** The year k >= start with YearStart0(k) <= r < YearStart0(k + 1). */
  function FindYear(r: int, k: int): (y: int)
    requires YearStart0(k) <= r
    ensures k <= y && YearStart0(y) <= r < YearStart0(y + 1)
    decreases r - YearStart0(k)
  {
    YearStartStep(k);
    if r < YearStart0(k + 1) then k else FindYear(r, k + 1)
  }

  /** The month m >= k of year y whose days contain day-of-year doy. */
  function FindMonth(y: int, doy: int, k: int): (m: int)
    requires 0 <= k < 12 && DaysBeforeMonth(y, k) <= doy < YearLength(y)
    ensures k <= m < 12 && DaysBeforeMonth(y, m) <= doy < DaysBeforeMonth(y, m + 1)
    decreases 12 - k
  {
    DaysBeforeMonthStep(y, k);
    if doy < DaysBeforeMonth(y, k + 1) then k else FindMonth(y, doy, k + 1)
  }

  /** The civil date of a day number: the inverse of DayNumber. */
  function CivilFromDays(n: int): (c: Civil)
    ensures ValidCivil(c.year, c.month, c.day)
    ensures DayNumber(c.year, c.month, c.day) == n
  {
    var total := n + EpochOffset;
    var q := total / 146_097;
    var r := total % 146_097;
    var k := FindYear(r, 0);
    var y := 400 * q + k;
    YearStartCycle(q, k);
    YearStartCycle(q, k + 1);
    YearStartStep(y);
    var doy := total - YearStart0(y);
    DaysBeforeMonthStep(y, 0);
    var m := FindMonth(y, doy, 0);
    DaysBeforeMonthStep(y, m);
    Civil(y, m, doy - DaysBeforeMonth(y, m) + 1)
  }

  /** A valid civil date lies inside its own year and month. */
  lemma CivilBounds(y: int, m: int, d: int)
    requires ValidCivil(y, m, d)
    ensures YearStart0(y) <= DayNumber(y, m, d) + EpochOffset < YearStart0(y + 1)
    ensures DaysBeforeMonth(y, m) <= DayNumber(y, m, d) + EpochOffset - YearStart0(y) < DaysBeforeMonth(y, m + 1)
  {
    DaysBeforeMonthStep(y, m);
    YearStartStep(y);
    assert DaysBeforeMonth(y, m + 1) <= DaysBeforeMonth(y, 12) by {
      var k := m + 1;
      while k < 12
        invariant m + 1 <= k <= 12
        invariant DaysBeforeMonth(y, m + 1) <= DaysBeforeMonth(y, k)
      {
        DaysBeforeMonthStep(y, k);
        k := k + 1;
      }
    }
  }

  /** Two valid civil dates with the same day number are the same date. */
  lemma {:induction false} CivilInjective(y1: int, m1: int, d1: int, y2: int, m2: int, d2: int)
    requires ValidCivil(y1, m1, d1) && ValidCivil(y2, m2, d2)
    requires DayNumber(y1, m1, d1) == DayNumber(y2, m2, d2)
    ensures y1 == y2 && m1 == m2 && d1 == d2
  {
    CivilBounds(y1, m1, d1);
    CivilBounds(y2, m2, d2);
    if y1 < y2 {
      YearStartMonotone(y1, y2);
      YearStartStep(y1);
    } else if y2 < y1 {
      YearStartMonotone(y2, y1);
      YearStartStep(y2);
    }
    assert y1 == y2;
  }

  lemma CivilRoundTrip(y: int, m: int, d: int)
    requires ValidCivil(y, m, d)
    ensures CivilFromDays(DayNumber(y, m, d)) == Civil(y, m, d)
  {
    var c := CivilFromDays(DayNumber(y, m, d));
    CivilInjective(c.year, c.month, c.day, y, m, d);
  }

  // ---------------------------------------------------------------------
  // The ECMAScript operations on a timestamp.

  /** Calendar day of a timestamp (floor division; `setHours(0, 0, 0, 0)` is Day(t) * MsPerDay). */
  function Day(t: Timestamp): int { t / MsPerDay }

  function TimeInDay(t: Timestamp): (r: int)
    ensures 0 <= r < MsPerDay
  {
    t % MsPerDay
  }

  function StartOfDay(t: Timestamp): (s: Timestamp)
    ensures Day(s) == Day(t) && TimeInDay(s) == 0 && s <= t
  {
    Day(t) * MsPerDay
  }

  function YearOf(t: Timestamp): int { CivilFromDays(Day(t)).year }
  function MonthOf(t: Timestamp): int { CivilFromDays(Day(t)).month }
  function DateOf(t: Timestamp): int { CivilFromDays(Day(t)).day }

  /** getDay(): 0 = Sunday; 1970-01-01 was a Thursday. */
  function WeekDay(t: Timestamp): (w: int)
    ensures 0 <= w < 7
  {
    (Day(t) + 4) % 7
  }

  /** MakeDay: month and day out of range carry into the year and month. */
  function MakeDay(y: int, m: int, d: int): int {
    DayNumber(y + m / 12, m % 12, 1) + d - 1
  }

  /** The year argument of `new Date(y, m, d)`: 0..99 means 1900..1999. */
  function FullYear(y: int): int {
    if 0 <= y <= 99 then 1900 + y else y
  }

  /** `new Date(y, m, d)` at local midnight. */
  function LocalDate(y: int, m: int, d: int): (t: Timestamp)
    ensures TimeInDay(t) == 0
  {
    MakeDay(FullYear(y), m, d) * MsPerDay
  }

  /** `setMonth(m)` keeps the day of the month and the time of day, so a day
      past the end of the target month runs over into the following month. */
  function SetMonth(t: Timestamp, m: int): Timestamp {
    MakeDay(YearOf(t), m, DateOf(t)) * MsPerDay + TimeInDay(t)
  }

  /** `setDate(d)` keeps the year, the month and the time of day. */
  function SetDate(t: Timestamp, d: int): Timestamp {
    MakeDay(YearOf(t), MonthOf(t), d) * MsPerDay + TimeInDay(t)
  }

  lemma DayOfParts(k: int, r: int)
    requires 0 <= r < MsPerDay
    ensures Day(k * MsPerDay + r) == k && TimeInDay(k * MsPerDay + r) == r
  {
  }

  /** One day later is the next day number at the same time of day. */
  lemma NextDayParts(t: int)
    ensures Day(t + MsPerDay) == Day(t) + 1 && TimeInDay(t + MsPerDay) == TimeInDay(t)
  {
    assert t + MsPerDay == (Day(t) + 1) * MsPerDay + TimeInDay(t);
    DayOfParts(Day(t) + 1, TimeInDay(t));
  }

  /** Day numbers of the first of consecutive months differ by the month length. */
  lemma MakeDayNextMonth(y: int, m: int)
    requires 0 <= m < 12
    ensures MakeDay(y, m + 1, 1) == MakeDay(y, m, 1) + MonthLength(y, m)
  {
    DaysBeforeMonthStep(y, m);
    assert m / 12 == 0 && m % 12 == m;
    assert MakeDay(y, m, 1) == DayNumber(y, m, 1);
    if m < 11 {
      assert (m + 1) / 12 == 0 && (m + 1) % 12 == m + 1;
      assert MakeDay(y, m + 1, 1) == DayNumber(y, m + 1, 1);
    } else {
      assert (m + 1) / 12 == 1 && (m + 1) % 12 == 0;
      assert MakeDay(y, m + 1, 1) == DayNumber(y + 1, 0, 1);
      YearStartStep(y);
    }
  }

  /** A day number in range of its month names that date. */
  lemma MakeDayInMonth(y: int, m: int, d: int)
    requires 0 <= m < 12 && 1 <= d <= MonthLength(y, m)
    ensures CivilFromDays(MakeDay(y, m, d)) == Civil(y, m, d)
  {
    assert m / 12 == 0 && m % 12 == m;
    assert MakeDay(y, m, d) == DayNumber(y, m, d);
    CivilRoundTrip(y, m, d);
  }

  /** `setDate(getDate() + k)` moves by exactly k days and keeps the time of day. */
  lemma SetDateShift(t: Timestamp, k: int)
    ensures SetDate(t, DateOf(t) + k) == t + k * MsPerDay
  {
    var y, m, dd := YearOf(t), MonthOf(t), DateOf(t);
    MonthOfRange(t);
    assert m / 12 == 0 && m % 12 == m;
    assert MakeDay(y, m, dd + k) == DayNumber(y, m, 1) + dd + k - 1;
    assert MakeDay(y, m, dd + k) == Day(t) + k;
    DayOfParts(Day(t) + k, TimeInDay(t));
  }

  /** `setHours(h, m)`: the day is kept, hours and minutes are set (and may
      carry over), seconds and milliseconds are kept. */
  function SetHours(t: Timestamp, h: int, m: int): Timestamp {
    Day(t) * MsPerDay + h * MsPerHour + m * MsPerMinute + t % MsPerMinute
  }

  /** With an hour and a minute of the clock, setHours stays on the same day. */
  lemma SetHoursSameDay(t: Timestamp, h: int, m: int)
    requires 0 <= h < 24 && 0 <= m < 60
    ensures Day(SetHours(t, h, m)) == Day(t)
    ensures TimeInDay(SetHours(t, h, m)) == h * MsPerHour + m * MsPerMinute + t % MsPerMinute
  {
    DayOfParts(Day(t), h * MsPerHour + m * MsPerMinute + t % MsPerMinute);
  }

  /** A day number lies in month m of year y exactly when its civil date says so. */
  lemma InMonthIff(y: int, m: int, n: int)
    requires 0 <= m < 12
    ensures DayNumber(y, m, 1) <= n < DayNumber(y, m, 1) + MonthLength(y, m)
            <==> CivilFromDays(n).year == y && CivilFromDays(n).month == m
  {
    var c := CivilFromDays(n);
    if DayNumber(y, m, 1) <= n < DayNumber(y, m, 1) + MonthLength(y, m) {
      var d := n - DayNumber(y, m, 1) + 1;
      assert DayNumber(y, m, d) == n;
      CivilRoundTrip(y, m, d);
    }
    if c.year == y && c.month == m {
      assert n == DayNumber(y, m, c.day);
    }
  }

  /** Comparing a timestamp with a local midnight compares day numbers. */
  lemma MidnightCompare(t: Timestamp, k: int)
    ensures k * MsPerDay <= t <==> k <= Day(t)
    ensures t < k * MsPerDay <==> Day(t) < k
    ensures t <= k * MsPerDay <==> Day(t) < k || t == k * MsPerDay
  {
    var r := TimeInDay(t);
    assert t == Day(t) * MsPerDay + r;
    if k <= Day(t) {
      assert k * MsPerDay <= Day(t) * MsPerDay;
    } else {
      assert (Day(t) + 1) * MsPerDay <= k * MsPerDay;
    }
  }

  /** The month and year of a timestamp name a civil month. */
  lemma MonthOfRange(t: Timestamp)
    ensures 0 <= MonthOf(t) < 12
    ensures 1 <= DateOf(t) <= MonthLength(YearOf(t), MonthOf(t))
    ensures Day(t) == DayNumber(YearOf(t), MonthOf(t), DateOf(t))
  {
  }

  /** The first of month m of year y (m may run past December) is the first of
      the normalised month. */
  lemma MakeDayFirst(y: int, m: int)
    ensures 0 <= m % 12 < 12
    ensures CivilFromDays(MakeDay(y, m, 1)) == Civil(y + m / 12, m % 12, 1)
  {
    MakeDayInAnyMonth(y, m, 1);
  }

  /** A timestamp lies between the first of month m and the first of the next
      month exactly when it is in month m of year y. */
  lemma MonthWindow(t: Timestamp, y: int, m: int)
    requires 0 <= m < 12
    ensures MakeDay(y, m, 1) * MsPerDay <= t < MakeDay(y, m + 1, 1) * MsPerDay
            <==> YearOf(t) == y && MonthOf(t) == m
  {
    assert m / 12 == 0 && m % 12 == m;
    assert MakeDay(y, m, 1) == DayNumber(y, m, 1);
    MakeDayNextMonth(y, m);
    MidnightCompare(t, MakeDay(y, m, 1));
    MidnightCompare(t, MakeDay(y, m + 1, 1));
    InMonthIff(y, m, Day(t));
  }

  /** The parts of `setDate(d)` and `setMonth(m)`. */
  lemma SetterParts(t: Timestamp, d: int, m: int)
    ensures Day(SetDate(t, d)) == MakeDay(YearOf(t), MonthOf(t), d)
    ensures TimeInDay(SetDate(t, d)) == TimeInDay(t)
    ensures Day(SetMonth(t, m)) == MakeDay(YearOf(t), m, DateOf(t))
    ensures TimeInDay(SetMonth(t, m)) == TimeInDay(t)
  {
    DayOfParts(MakeDay(YearOf(t), MonthOf(t), d), TimeInDay(t));
    DayOfParts(MakeDay(YearOf(t), m, DateOf(t)), TimeInDay(t));
  }

  /** `setDate(1)` moves to the first of the same month, at the same time of day. */
  lemma SetDateFirst(t: Timestamp)
    ensures YearOf(SetDate(t, 1)) == YearOf(t) && MonthOf(SetDate(t, 1)) == MonthOf(t)
    ensures DateOf(SetDate(t, 1)) == 1
    ensures TimeInDay(SetDate(t, 1)) == TimeInDay(t)
  {
    MonthOfRange(t);
    SetterParts(t, 1, 0);
    MakeDayInMonth(YearOf(t), MonthOf(t), 1);
  }

  /** From the first of a month, `setMonth(m)` lands on the first of month m
      (carried into the year), at the same time of day. */
  lemma SetMonthFromFirst(t: Timestamp, m: int)
    requires DateOf(t) == 1
    ensures CivilFromDays(Day(SetMonth(t, m))) == Civil(YearOf(t) + m / 12, m % 12, 1)
    ensures TimeInDay(SetMonth(t, m)) == TimeInDay(t)
  {
    SetterParts(t, 1, m);
    MakeDayFirst(YearOf(t), m);
  }

  /** A month number outside 0..11 names month m % 12 of year y + m / 12. */
  lemma MakeDayNormal(y: int, m: int, d: int)
    ensures 0 <= m % 12 < 12
    ensures MakeDay(y, m, d) == MakeDay(y + m / 12, m % 12, d) == DayNumber(y + m / 12, m % 12, d)
  {
    assert (m % 12) / 12 == 0 && (m % 12) % 12 == m % 12;
  }

  /** The length of month m of year y, with m carried into the year. */
  function LengthOfMonth(y: int, m: int): (n: int)
    ensures 28 <= n <= 31
  {
    MonthLength(y + m / 12, m % 12)
  }

  /** Month numbers carry into years twelve at a time. */
  lemma MonthCarry(m: int)
    ensures m % 12 < 11 ==> (m + 1) / 12 == m / 12 && (m + 1) % 12 == m % 12 + 1
    ensures m % 12 == 11 ==> (m + 1) / 12 == m / 12 + 1 && (m + 1) % 12 == 0
  {
    var q := m / 12;
    var r := m % 12;
    assert m == 12 * q + r;
    assert m + 1 == 12 * q + (r + 1);
  }

  /** The first of month m + 1 is LengthOfMonth(y, m) days after the first of month m. */
  lemma MakeDayStep(y: int, m: int)
    ensures MakeDay(y, m + 1, 1) == MakeDay(y, m, 1) + LengthOfMonth(y, m)
  {
    var yy, mm := y + m / 12, m % 12;
    calc {
      MakeDay(y, m + 1, 1);
      { MakeDayShift(y, m); }
      MakeDay(yy, mm + 1, 1);
      { MakeDayNextMonth(yy, mm); }
      MakeDay(yy, mm, 1) + MonthLength(yy, mm);
      { MakeDayNormal(y, m, 1); }
      MakeDay(y, m, 1) + LengthOfMonth(y, m);
    }
  }

  /** Month m + 1 of year y is month (m % 12) + 1 of year y + m / 12. */
  lemma MakeDayShift(y: int, m: int)
    ensures MakeDay(y, m + 1, 1) == MakeDay(y + m / 12, m % 12 + 1, 1)
  {
    MonthCarryDiv(m);
  }

  lemma MonthCarryDiv(m: int)
    ensures m / 12 + (m % 12 + 1) / 12 == (m + 1) / 12 && (m % 12 + 1) % 12 == (m + 1) % 12
  {
    MonthCarry(m);
    var r := m % 12;
    if r < 11 {
      assert (r + 1) / 12 == 0 && (r + 1) % 12 == r + 1;
    } else {
      assert (r + 1) / 12 == 1 && (r + 1) % 12 == 0;
    }
  }


  /** A day inside month m (carried into the year) names that date. */
  lemma MakeDayInAnyMonth(y: int, m: int, d: int)
    requires 1 <= d <= LengthOfMonth(y, m)
    ensures CivilFromDays(MakeDay(y, m, d)) == Civil(y + m / 12, m % 12, d)
  {
    var yy, mm := y + m / 12, m % 12;
    MakeDayNormal(y, m, d);
    assert ValidCivil(yy, mm, d);
    CivilRoundTrip(yy, mm, d);
  }

  /** Day 0 of month m is the last day of month m - 1. */
  lemma DayZero(y: int, m: int)
    ensures MakeDay(y, m, 0) == MakeDay(y, m - 1, LengthOfMonth(y, m - 1))
    ensures CivilFromDays(MakeDay(y, m, 0)) == Civil(y + (m - 1) / 12, (m - 1) % 12, LengthOfMonth(y, m - 1))
  {
    var p := m - 1;
    var n := LengthOfMonth(y, p);
    MakeDayStep(y, p);
    assert p + 1 == m;
    assert MakeDay(y, m, 0) == MakeDay(y, m, 1) - 1;
    assert MakeDay(y, p, n) == MakeDay(y, p, 1) + n - 1;
    MakeDayInAnyMonth(y, p, n);
  }

  /** The day of `new Date(y, m, d)`. */
  lemma LocalDateDay(y: int, m: int, d: int)
    ensures Day(LocalDate(y, m, d)) == MakeDay(FullYear(y), m, d)
  {
    DayOfParts(MakeDay(FullYear(y), m, d), 0);
  }

  /** `setMonth(m)` from a day that every month has lands on that day of
      month m (carried into the year), at the same time of day. */
  lemma SetMonthLanding(t: Timestamp, m: int)
    requires DateOf(t) <= 28
    ensures YearOf(SetMonth(t, m)) == YearOf(t) + m / 12
    ensures MonthOf(SetMonth(t, m)) == m % 12
    ensures DateOf(SetMonth(t, m)) == DateOf(t)
    ensures TimeInDay(SetMonth(t, m)) == TimeInDay(t)
  {
    MonthOfRange(t);
    SetterParts(t, 1, m);
    MakeDayInAnyMonth(YearOf(t), m, DateOf(t));
  }

  /** A timestamp's day is the MakeDay of its own year, month and date. */
  lemma DayAsMakeDay(t: Timestamp)
    ensures Day(t) == MakeDay(YearOf(t), MonthOf(t), DateOf(t))
  {
    MonthOfRange(t);
    var m := MonthOf(t);
    assert m / 12 == 0 && m % 12 == m;
  }

  /** `setMonth(m)` from a day that every month has, in day-number terms. */
  lemma SetMonthParts(t: Timestamp, m: int)
    requires DateOf(t) <= 28
    ensures ValidCivil(YearOf(t) + m / 12, m % 12, DateOf(t))
    ensures Day(SetMonth(t, m)) == DayNumber(YearOf(t) + m / 12, m % 12, DateOf(t))
    ensures TimeInDay(SetMonth(t, m)) == TimeInDay(t)
  {
    MonthOfRange(t);
    SetterParts(t, 1, m);
    MakeDayNormal(YearOf(t), m, DateOf(t));
  }

  /** A timestamp on a known civil date: its parts, and where `setMonth(k)` moves it. */
  lemma SetMonthOfCivil(n: Timestamp, y: int, mo: int, d: int, delta: int)
    requires ValidCivil(y, mo, d) && Day(n) == DayNumber(y, mo, d)
    ensures YearOf(n) == y && MonthOf(n) == mo && DateOf(n) == d
    ensures Day(SetMonth(n, MonthOf(n) + delta)) == MakeDay(y, mo + delta, d)
    ensures TimeInDay(SetMonth(n, MonthOf(n) + delta)) == TimeInDay(n)
  {
    CivilRoundTrip(y, mo, d);
    SetterParts(n, 1, mo + delta);
  }

  /** `setMonth(getMonth() - 1)` from a date one month after y-(m+1)-d comes back to it. */
  lemma SetMonthBack(n: Timestamp, y: int, m: int, d: int)
    requires 0 <= m < 12 && 1 <= d <= 28
    requires Day(n) == DayNumber(y + (m + 1) / 12, (m + 1) % 12, d)
    ensures Day(SetMonth(n, MonthOf(n) - 1)) == DayNumber(y, m, d)
    ensures TimeInDay(SetMonth(n, MonthOf(n) - 1)) == TimeInDay(n)
  {
    SetMonthOfCivil(n, y + (m + 1) / 12, (m + 1) % 12, d, -1);
    MakeDayCarryBack(y, m, d);
  }

  /** `setMonth(getMonth() + 1)` from a date one month before y-(m+1)-d comes back to it. */
  lemma SetMonthForward(p: Timestamp, y: int, m: int, d: int)
    requires 0 <= m < 12 && 1 <= d <= 28
    requires Day(p) == DayNumber(y + (m - 1) / 12, (m - 1) % 12, d)
    ensures Day(SetMonth(p, MonthOf(p) + 1)) == DayNumber(y, m, d)
    ensures TimeInDay(SetMonth(p, MonthOf(p) + 1)) == TimeInDay(p)
  {
    SetMonthOfCivil(p, y + (m - 1) / 12, (m - 1) % 12, d, 1);
    MakeDayCarryForward(y, m, d);
  }

  /** `setMonth(getMonth() + 1)` from January 31 lands in March. */
  lemma SetMonthFromJanuary31(t: Timestamp)
    requires MonthOf(t) == 0 && DateOf(t) == 31
    ensures CivilFromDays(Day(SetMonth(t, MonthOf(t) + 1))) == Civil(YearOf(t), 2, 31 - MonthLength(YearOf(t), 1))
  {
    SetterParts(t, 1, MonthOf(t) + 1);
    FebruaryThirtyFirst(YearOf(t));
  }

  /** A timestamp is its day and its time of day. */
  lemma SameDayAndTime(a: Timestamp, b: Timestamp)
    requires Day(a) == Day(b) && TimeInDay(a) == TimeInDay(b)
    ensures a == b
  {
  }

  /** The weekday of `new Date(y, m, 1)`. */
  lemma LocalFirstWeekDay(y: int, m: int)
    ensures WeekDay(LocalDate(y, m, 1)) == (MakeDay(FullYear(y), m, 1) + 4) % 7
  {
    LocalDateDay(y, m, 1);
  }

  /** `new Date(y, m + 1, 0).getDate()` is the length of month m. */
  lemma LocalLastDay(y: int, m: int)
    requires 0 <= m < 12
    ensures DateOf(LocalDate(y, m + 1, 0)) == MonthLength(FullYear(y), m)
  {
    var fy := FullYear(y);
    LocalDateDay(y, m + 1, 0);
    LastDayOfMonth(fy, m);
  }

  /** Day 0 of month m + 1 is the last day of month m. */
  lemma LastDayOfMonth(y: int, m: int)
    requires 0 <= m < 12
    ensures CivilFromDays(MakeDay(y, m + 1, 0)).day == MonthLength(y, m)
  {
    LastDayNumber(y, m);
    CivilRoundTrip(y, m, MonthLength(y, m));
  }

  lemma LastDayNumber(y: int, m: int)
    requires 0 <= m < 12
    ensures MakeDay(y, m + 1, 0) == DayNumber(y, m, MonthLength(y, m))
  {
    MakeDayNextMonth(y, m);
    assert m / 12 == 0 && m % 12 == m;
    assert MakeDay(y, m + 1, 0) == MakeDay(y, m + 1, 1) - 1;
  }

  /** `new Date(y, m, 0).getDate()` is the length of the month before m. */
  lemma LocalDayZero(y: int, m: int)
    ensures DateOf(LocalDate(y, m, 0)) == LengthOfMonth(FullYear(y), m - 1)
  {
    LocalDateDay(y, m, 0);
    DayZero(FullYear(y), m);
  }

  /** `new Date(y, m, d)` for a day d of month m (carried into the year). */
  lemma LocalDateCivil(y: int, m: int, d: int)
    requires 1 <= d <= LengthOfMonth(FullYear(y), m)
    ensures CivilFromDays(Day(LocalDate(y, m, d))) == Civil(FullYear(y) + m / 12, m % 12, d)
    ensures DateOf(LocalDate(y, m, d)) == d
  {
    LocalDateDay(y, m, d);
    MakeDayInAnyMonth(FullYear(y), m, d);
  }

  /** One month on and one month back from month m is month m again. */
  lemma MakeDayCarryBack(y: int, m: int, d: int)
    requires 0 <= m < 12
    ensures MakeDay(y + (m + 1) / 12, (m + 1) % 12 - 1, d) == DayNumber(y, m, d)
  {
    assert m / 12 == 0 && m % 12 == m;
    if m < 11 {
      assert (m + 1) / 12 == 0 && (m + 1) % 12 == m + 1;
    } else {
      assert (m + 1) / 12 == 1 && (m + 1) % 12 == 0;
      assert (0 - 1) / 12 == -1 && (0 - 1) % 12 == 11;
    }
  }

  /** One month back and one month on from month m is month m again. */
  lemma MakeDayCarryForward(y: int, m: int, d: int)
    requires 0 <= m < 12
    ensures MakeDay(y + (m - 1) / 12, (m - 1) % 12 + 1, d) == DayNumber(y, m, d)
  {
    assert m / 12 == 0 && m % 12 == m;
    if m > 0 {
      assert (m - 1) / 12 == 0 && (m - 1) % 12 + 1 == m;
    } else {
      assert (m - 1) / 12 == -1 && (m - 1) % 12 + 1 == 12;
      assert 12 / 12 == 1 && 12 % 12 == 0;
      assert MakeDay(y - 1, 12, d) == DayNumber(y, 0, 1) + d - 1;
    }
  }

  /** Day 31 of February is day 3, or 2 in a leap year, of March. */
  lemma FebruaryThirtyFirst(y: int)
    ensures CivilFromDays(MakeDay(y, 1, 31)) == Civil(y, 2, 31 - MonthLength(y, 1))
  {
    var n := MonthLength(y, 1);
    assert MakeDay(y, 1, 31) == MakeDay(y, 2, 31 - n) by {
      MakeDayNextMonth(y, 1);
      assert MakeDay(y, 1, 31) == MakeDay(y, 1, 1) + 30;
      assert MakeDay(y, 2, 31 - n) == MakeDay(y, 2, 1) + 30 - n;
    }
    MakeDayInMonth(y, 2, 31 - n);
  }
}
