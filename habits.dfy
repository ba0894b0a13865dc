/** The habit tracker's date logic: the seven days shown, completion lookups
    by ISO date, the current streak and the completion rate. */
module Habits {
  import opened Common
  import opened Dates
  import opened IsoDates

  datatype HabitFrequency = Daily | Weekly | CustomFrequency
  datatype HabitCategory = Health | Productivity | Learning | Social | OtherCategory

  /** One tick of a habit, keyed by an ISO date string. */
  datatype HabitCompletion = HabitCompletion(date: string, completed: bool)

  datatype Habit = Habit(
    id: string, name: string, description: Option<string>, frequency: HabitFrequency,
    category: HabitCategory, color: string, createdAt: string,
    completions: seq<HabitCompletion>, targetDays: Option<int>, icon: Option<string>)

  // ---------------------------------------------------------------------
  // Stepping by days.

  /** `date.setDate(date.getDate() + k)`, written as the shift it amounts to
      (ShiftDaysIsSetDate). */
  function ShiftDays(t: Timestamp, k: int): Timestamp {
    t + k * MsPerDay
  }

  lemma ShiftDaysIsSetDate(t: Timestamp, k: int)
    ensures ShiftDays(t, k) == SetDate(t, DateOf(t) + k)
  {
    SetDateShift(t, k);
  }

  /** A shift by k days moves the day number by k and keeps the time of day. */
  lemma ShiftDaysParts(t: Timestamp, k: int)
    ensures Day(ShiftDays(t, k)) == Day(t) + k && TimeInDay(ShiftDays(t, k)) == TimeInDay(t)
  {
    assert ShiftDays(t, k) == (Day(t) + k) * MsPerDay + TimeInDay(t);
    DayOfParts(Day(t) + k, TimeInDay(t));
  }

  /** `getLast7Days`: six days back through the current date, one per day. */
  method Last7Days(current: Timestamp) returns (days: seq<Timestamp>)
    ensures |days| == 7 && days[6] == current
    ensures forall j :: 0 <= j < 7 ==>
              Day(days[j]) == Day(current) - 6 + j && TimeInDay(days[j]) == TimeInDay(current)
  {
    days := [];
    var i := 6;
    while i >= 0
      invariant -1 <= i <= 6 && |days| == 6 - i
      invariant forall j :: 0 <= j < |days| ==>
                  Day(days[j]) == Day(current) - 6 + j && TimeInDay(days[j]) == TimeInDay(current)
      invariant forall j :: 0 <= j < |days| ==> days[j] == ShiftDays(current, j - 6)
    {
      var date := ShiftDays(current, -i);
      ShiftDaysParts(current, -i);
      days := days + [date];
      i := i - 1;
    }
  }

  // ---------------------------------------------------------------------
  // Completions.

  /** `new Set(completions.filter(c => c.completed).map(c => c.date))`. */
  function CompletedDates(cs: seq<HabitCompletion>): set<string> {
    set c | c in cs && c.completed :: c.date
  }

  /** `isCompletedOnDate`: some completion carries the date's ISO key and is
      marked completed. */
  function IsCompletedOnDate(h: Habit, date: Timestamp): (b: bool)
    ensures b <==> IsoDay(Day(date)) in CompletedDates(h.completions)
  {
    exists c :: c in h.completions && c.date == IsoDay(Day(date)) && c.completed
  }

  /** A completion marked not completed counts for nothing. */
  lemma UncompletedIgnored(cs: seq<HabitCompletion>, date: string)
    ensures CompletedDates(cs + [HabitCompletion(date, false)]) == CompletedDates(cs)
  {
  }

  // ---------------------------------------------------------------------
  // The streak.

  /** The day the streak is counted back from: today when it is completed,
      else yesterday. */
  function StreakStart(done: set<string>, today: int): int {
    if IsoDay(today) in done then today else today - 1
  }

  /** The k days ending at day `end` all have their key in `done`. */
  predicate RunOf(done: set<string>, key: int -> string, end: int, k: nat) {
    forall e :: end - k < e <= end ==> key(e) in done
  }

  /** The keys of distinct days are distinct. */
  ghost predicate Injective(key: int -> string) {
    forall a, b :: key(a) == key(b) ==> a == b
  }

  lemma IsoDayIsInjective()
    ensures Injective(IsoDay)
  {
    forall a, b | IsoDay(a) == IsoDay(b)
      ensures a == b
    {
      IsoDayInjective(a, b);
    }
  }

  /** `getCurrentStreak`, with "now" passed in: 0 when neither today nor
      yesterday is completed, otherwise the length of the unbroken run of
      completed days ending at the start day, which never exceeds the number
      of distinct completed dates. The walk back steps the day number, on which
      alone the ISO key depends (ShiftDaysParts). */
  method CurrentStreak(h: Habit, now: Timestamp) returns (streak: nat)
    ensures var done := CompletedDates(h.completions);
            streak == 0 <==> IsoDay(Day(now)) !in done && IsoDay(Day(now) - 1) !in done
    ensures var done := CompletedDates(h.completions);
            var start := StreakStart(done, Day(now));
            streak > 0 ==> RunOf(done, IsoDay, start, streak) && IsoDay(start - streak) !in done
    ensures streak <= |CompletedDates(h.completions)|
  {
    var completedDates := CompletedDates(h.completions);
    var day, found := StartDay(completedDates, now);
    if !found {
      return 0;
    }
    IsoDayIsInjective();
    streak := CountBack(completedDates, IsoDay, day);
  }

  /** The first part of `getCurrentStreak`: today's start when today is
      completed, else yesterday's when that is, else no start at all. */
  method StartDay(completedDates: set<string>, now: Timestamp) returns (day: int, found: bool)
    ensures found <==> IsoDay(Day(now)) in completedDates || IsoDay(Day(now) - 1) in completedDates
    ensures found ==> day == StreakStart(completedDates, Day(now)) && IsoDay(day) in completedDates
  {
    day := Day(StartOfDay(now));
    found := true;
    if IsoDay(day) !in completedDates {
      ShiftDaysParts(now, -1);
      var yesterday := Day(StartOfDay(ShiftDays(now, -1)));
      if IsoDay(yesterday) in completedDates {
        day := yesterday;
      } else {
        found := false;
      }
    }
  }

  /** The `while (true)` walk of `getCurrentStreak`: count the days, from
      `day` backwards, whose key is in `done`, stopping at the first that is
      not. Distinct days have distinct keys, so the count is at most |done|. */
  method CountBack(done: set<string>, key: int -> string, day: int) returns (streak: nat)
    requires Injective(key)
    ensures RunOf(done, key, day, streak) && key(day - streak) !in done
    ensures streak <= |done|
  {
    streak := 0;
    var d := day;
    ghost var seen: set<string> := {};
    while key(d) in done
      invariant d == day - streak
      invariant RunOf(done, key, day, streak)
      invariant seen <= done && |seen| == streak
      invariant forall e :: e <= d ==> key(e) !in seen
      decreases |done| - |seen|
    {
      seen := seen + {key(d)};
      SubsetSize(seen, done);
      streak := streak + 1;
      d := d - 1;
    }
    SubsetSize(seen, done);
  }

  lemma SubsetSize<T>(a: set<T>, b: set<T>)
    requires a <= b
    ensures |a| <= |b|
  {
    assert b == a + (b - a);
  }

  // ---------------------------------------------------------------------
  // The completion rate.

  function CompletedOn(h: Habit): Timestamp -> bool {
    (t: Timestamp) => IsCompletedOnDate(h, t)
  }

  /** `Math.round(n / d)` for n >= 0 and d > 0, in exact arithmetic: the
      whole number nearest n / d, halves rounded up. */
  function RoundRatio(n: nat, d: nat): (r: nat)
    requires d > 0
    ensures r * 2 * d <= 2 * n + d < (r + 1) * 2 * d
  {
    (2 * n + d) / (2 * d)
  }

  /** The rounded ratio reaches m exactly when n / d is at least m - 1/2. */
  lemma RoundRatioAtLeast(n: nat, d: nat, m: int)
    requires d > 0
    ensures RoundRatio(n, d) >= m <==> m * 2 * d <= 2 * n + d
  {
    var r := RoundRatio(n, d);
    if r >= m {
      MulMono(m, r, 2 * d);
    } else {
      MulMono(r + 1, m, 2 * d);
    }
  }

  lemma MulMono(a: int, b: int, k: nat)
    requires a <= b
    ensures a * k <= b * k
  {
    assert b * k == a * k + (b - a) * k;
  }

  /** `getCompletionRate`: 0 for no days, else the completed share of the
      days in whole percent, rounded half up; never above 100. */
  function CompletionRate(h: Habit, days: seq<Timestamp>): (r: nat)
    ensures |days| == 0 ==> r == 0
    ensures r <= 100
  {
    if |days| == 0 then 0
    else
      var c := |Filter(days, CompletedOn(h))|;
      PercentAtMost100(c, |days|);
      RoundRatio(100 * c, |days|)
  }

  /** A share of at most the whole rounds to at most 100%. */
  lemma PercentAtMost100(c: nat, n: nat)
    requires c <= n && 0 < n
    ensures RoundRatio(100 * c, n) <= 100
  {
    RoundRatioAtLeast(100 * c, n, 101);
    assert 2 * (100 * c) + n <= 201 * n;
  }

  /** Out of fewer than 200 days, c completed days round to 100% exactly
      when c is all of them and to 0% exactly when c is none. */
  lemma PercentExtremes(c: nat, n: nat)
    requires c <= n && 0 < n < 200
    ensures RoundRatio(100 * c, n) == 100 <==> c == n
    ensures RoundRatio(100 * c, n) == 0 <==> c == 0
  {
    RoundRatioAtLeast(100 * c, n, 100);
    RoundRatioAtLeast(100 * c, n, 1);
    if c < n {
      assert 200 * c + n <= 200 * n - 200 + n;
    }
  }

  /** For fewer than 200 days (the tracker shows seven) the rate is 100 exactly
      when every day is completed and 0 exactly when none is. */
  lemma CompletionRateExtremes(h: Habit, days: seq<Timestamp>)
    requires 0 < |days| < 200
    ensures CompletionRate(h, days) == 100 <==> forall i :: 0 <= i < |days| ==> IsCompletedOnDate(h, days[i])
    ensures CompletionRate(h, days) == 0 <==> forall i :: 0 <= i < |days| ==> !IsCompletedOnDate(h, days[i])
  {
    FilterFull(days, CompletedOn(h));
    FilterEmpty(days, CompletedOn(h));
    PercentExtremes(|Filter(days, CompletedOn(h))|, |days|);
  }
}
