/** The per-entry handlers of the bullet row.  Each one computes the partial
    update it hands to `onUpdate(entry.id, ...)` from the entry alone; the
    rows are updated in place, never copied. */
module BulletEntry {
  import opened Common
  import opened Dates
  import opened Text
  import opened Entries

  /** What a handler asks of the store. */
  datatype Action = Update(id: string, patch: Patch) | Delete(id: string)

  function StatePatch(s: TaskState): Patch {
    NoChange.(state := Put(s))
  }

  function EventStatePatch(s: EventState): Patch {
    NoChange.(eventState := Put(Some(s)))
  }

  /** `handleTaskClick`: incomplete and complete tasks flip; nothing else is updated. */
  function TaskClick(e: Entry): (r: Option<Patch>)
    ensures r.Some? <==> e.kind == Task && (e.state == Incomplete || e.state == Complete)
  {
    if e.kind == Task && e.state == Incomplete then Some(StatePatch(Complete))
    else if e.kind == Task && e.state == Complete then Some(StatePatch(Incomplete))
    else None
  }

  /** A click flips incomplete and complete and touches no other property;
      a second click gives the entry back. */
  lemma TaskClickFlips(e: Entry)
    requires TaskClick(e).Some?
    ensures Apply(e, TaskClick(e).value).state == (if e.state == Incomplete then Complete else Incomplete)
    ensures Apply(e, TaskClick(e).value) == e.(state := Apply(e, TaskClick(e).value).state)
    ensures TaskClick(Apply(e, TaskClick(e).value)).Some?
    ensures Apply(Apply(e, TaskClick(e).value), TaskClick(Apply(e, TaskClick(e).value)).value) == e
  {
  }

  /** The instant the event starts: its date with `setHours(h, m)` from
      "HH:MM" when a time is given.  None is an invalid Date (a NaN hour or
      minute, as when the minutes are missing). */
  function EventInstant(e: Entry): Option<Timestamp> {
    if !Truthy(e.eventTime) then Some(e.date)
    else
      var parts := Split(e.eventTime.value, ':');
      var h := ParseInt(parts[0]);
      var m := if |parts| >= 2 then ParseInt(parts[1]) else None;
      if h.None? || m.None? then None else Some(SetHours(e.date, h.value, m.value))
  }

  /** `isPastEvent`: an event whose start is before now (an invalid Date compares false). */
  predicate IsPastEvent(e: Entry, now: Timestamp) {
    e.kind == Event && EventInstant(e).Some? && EventInstant(e).value < now
  }

  /** A time as the time input gives it: "HH:MM", two digits each side. */
  predicate IsClock(t: string) {
    |t| == 5 && IsDigit(t[0]) && IsDigit(t[1]) && t[2] == ':' && IsDigit(t[3]) && IsDigit(t[4])
  }

  function ClockHour(t: string): int
    requires |t| == 5
  {
    TwoDigitValue(t[..2])
  }

  function ClockMinute(t: string): int
    requires |t| == 5
  {
    TwoDigitValue(t[3..])
  }

  /** "HH:MM" splits at the colon into two parts that parse to the hour and the minute. */
  lemma ClockParse(t: string)
    requires IsClock(t)
    ensures Split(t, ':') == [t[..2], t[3..]]
    ensures ParseInt(t[..2]) == Some(ClockHour(t)) && ParseInt(t[3..]) == Some(ClockMinute(t))
  {
    assert ':' !in t[..2] && ':' !in t[3..];
    SplitAt(t, 2, ':');
    HourParse(t);
    MinuteParse(t);
  }

  lemma HourParse(t: string)
    requires IsClock(t)
    ensures ParseInt(t[..2]) == Some(ClockHour(t))
  {
    ParseTwoDigits(t[..2]);
  }

  lemma MinuteParse(t: string)
    requires IsClock(t)
    ensures ParseInt(t[3..]) == Some(ClockMinute(t))
  {
    ParseTwoDigits(t[3..]);
  }

  /** An event time "HH:MM" of the clock names that hour and minute of the entry's day. */
  lemma EventInstantOfClock(e: Entry)
    requires e.eventTime.Some? && IsClock(e.eventTime.value)
    requires ClockHour(e.eventTime.value) < 24 && ClockMinute(e.eventTime.value) < 60
    ensures EventInstant(e).Some?
    ensures Day(EventInstant(e).value) == Day(e.date)
    ensures TimeInDay(EventInstant(e).value)
         == ClockHour(e.eventTime.value) * MsPerHour + ClockMinute(e.eventTime.value) * MsPerMinute
          + e.date % MsPerMinute
  {
    var t := e.eventTime.value;
    ClockParse(t);
    EventInstantOfParts(e, ClockHour(t), ClockMinute(t));
    SetHoursSameDay(e.date, ClockHour(t), ClockMinute(t));
  }

  /** A time whose first two colon-separated parts parse sets those hours and minutes. */
  lemma EventInstantOfParts(e: Entry, h: int, m: int)
    requires Truthy(e.eventTime)
    requires var parts := Split(e.eventTime.value, ':');
             |parts| >= 2 && ParseInt(parts[0]) == Some(h) && ParseInt(parts[1]) == Some(m)
    ensures EventInstant(e) == Some(SetHours(e.date, h, m))
  {
  }

  /** `handleEventClick`: a past event goes attended -> upcoming and anything
      else -> attended; other entries and future events are not updated. */
  function EventClick(e: Entry, now: Timestamp): (r: Option<Patch>)
    ensures r.Some? <==> IsPastEvent(e, now)
    ensures r.Some? ==> Apply(e, r.value).eventState == Some(if e.eventState == Some(Attended) then Upcoming else Attended)
  {
    if e.kind != Event then None
    else if IsPastEvent(e, now) then
      if e.eventState == Some(Attended) then Some(EventStatePatch(Upcoming))
      else if e.eventState == Some(Missed) then Some(EventStatePatch(Attended))
      else Some(EventStatePatch(Attended))
    else None
  }

  /** A click keeps the event past, so clicking again toggles back between
      attended and upcoming; a missed event ends up upcoming. */
  lemma EventClickTwice(e: Entry, now: Timestamp)
    requires IsPastEvent(e, now)
    ensures var once := Apply(e, EventClick(e, now).value);
            IsPastEvent(once, now) && once == e.(eventState := once.eventState)
            && Apply(once, EventClick(once, now).value).eventState
               == (if e.eventState == Some(Attended) then Some(Attended) else Some(Upcoming))
  {
    var once := Apply(e, EventClick(e, now).value);
    assert EventInstant(once) == EventInstant(e);
  }

  /** `hour % 12 || 12`; a NaN hour gives NaN, which is falsy, hence 12. */
  function DisplayHour(hour: Option<int>): int {
    if hour.None? || JsRem(hour.value, 12) == 0 then 12 else JsRem(hour.value, 12)
  }

  lemma DisplayHourRange(h: int)
    requires h >= 0
    ensures 1 <= DisplayHour(Some(h)) <= 12
    ensures DisplayHour(Some(h)) % 12 == h % 12
  {
  }

  /** One "HH:MM" time in twelve-hour form, "h:MM AM" or "h:MM PM". */
  function TwelveHour(time: string): string {
    var parts := Split(time, ':');
    var hour := ParseInt(parts[0]);
    var ampm := if hour.Some? && hour.value >= 12 then "PM" else "AM";
    var minutes := if |parts| >= 2 then parts[1] else "undefined";
    IntToString(DisplayHour(hour)) + ":" + minutes + " " + ampm
  }

  /** `formatEventTime`: no time gives nothing; an end time follows after " - ". */
  function FormatEventTime(e: Entry): (r: Option<string>)
    ensures r.Some? <==> Truthy(e.eventTime)
  {
    if !Truthy(e.eventTime) then None
    else if Truthy(e.eventEndTime) then Some(TwelveHour(e.eventTime.value) + " - " + TwelveHour(e.eventEndTime.value))
    else Some(TwelveHour(e.eventTime.value))
  }

  /** For a clock time "HH:MM" the hour is shown as 1..12 with AM before noon
      and the minutes are copied. */
  lemma TwelveHourOfClock(t: string)
    requires IsClock(t)
    ensures var h := ClockHour(t);
            1 <= DisplayHour(Some(h)) <= 12 && DisplayHour(Some(h)) % 12 == h % 12
            && TwelveHour(t) == IntToString(DisplayHour(Some(h))) + ":" + t[3..] + " " + (if h < 12 then "AM" else "PM")
  {
    ClockParse(t);
    DisplayHourRange(ClockHour(t));
    TwelveHourOfParts(t, ClockHour(t), t[3..]);
  }

  lemma TwelveHourOfParts(time: string, h: int, mm: string)
    requires var parts := Split(time, ':');
             |parts| >= 2 && ParseInt(parts[0]) == Some(h) && parts[1] == mm
    ensures TwelveHour(time) == IntToString(DisplayHour(Some(h))) + ":" + mm + " " + (if h >= 12 then "PM" else "AM")
  {
  }

  /** The twelve-hour text of a clock time "HH:MM", in closed form: the hour
      as 1..12, the minute digits as given, AM before noon and PM from noon on. */
  function ClockLabel(t: string): string
    requires |t| == 5
  {
    var h := ClockHour(t);
    IntToString(DisplayHour(Some(h))) + ":" + t[3..] + " " + (if h < 12 then "AM" else "PM")
  }

  /** For clock times the label is the start in twelve-hour form, followed by
      " - " and the end in twelve-hour form when the event has an end time. */
  lemma FormatEventTimeOfClocks(e: Entry)
    requires e.eventTime.Some? && IsClock(e.eventTime.value)
    requires e.eventEndTime.None? || IsClock(e.eventEndTime.value)
    ensures e.eventEndTime.None? ==> FormatEventTime(e) == Some(ClockLabel(e.eventTime.value))
    ensures e.eventEndTime.Some? ==>
              FormatEventTime(e) == Some(ClockLabel(e.eventTime.value) + " - " + ClockLabel(e.eventEndTime.value))
  {
    TwelveHourIsLabel(e.eventTime.value);
    if e.eventEndTime.Some? {
      TwelveHourIsLabel(e.eventEndTime.value);
    }
  }

  lemma TwelveHourIsLabel(t: string)
    requires IsClock(t)
    ensures TwelveHour(t) == ClockLabel(t)
  {
    TwelveHourOfClock(t);
  }

  /** `handleMigrate`: the same row moves to the next day, becomes incomplete
      and counts one more migration. */
  function MigratePatch(e: Entry): Patch {
    var nextDay := SetDate(e.date, DateOf(e.date) + 1);
    NoChange.(state := Put(Incomplete), date := Put(nextDay),
              migrationCount := Put(Some(MigrationCount(e) + 1)))
  }

  lemma MigrateToNextDay(e: Entry)
    ensures Apply(e, MigratePatch(e))
         == e.(date := e.date + MsPerDay, state := Incomplete,
               migrationCount := Some(MigrationCount(e) + 1))
    ensures Day(Apply(e, MigratePatch(e)).date) == Day(e.date) + 1
    ensures TimeInDay(Apply(e, MigratePatch(e)).date) == TimeInDay(e.date)
  {
    MigrateDate(e);
    NextDayParts(e.date);
  }

  lemma MigrateDate(e: Entry)
    ensures Apply(e, MigratePatch(e)).date == e.date + MsPerDay
  {
    MigratePatchDate(e);
    SetDateShift(e.date, 1);
  }

  lemma MigratePatchDate(e: Entry)
    ensures Apply(e, MigratePatch(e)).date == SetDate(e.date, DateOf(e.date) + 1)
  {
  }

  /** `toggleSignifier`. */
  function SignifierPatch(e: Entry, s: Signifier): Patch {
    NoChange.(signifiers := Put(Some(Toggle(Signifiers(e), s))))
  }

  /** The signifier flips, nothing else changes, and a second toggle restores
      the signifiers (exactly, when the signifier was absent). */
  lemma SignifierToggles(e: Entry, s: Signifier)
    ensures var e1 := Apply(e, SignifierPatch(e, s));
            (HasSignifier(e1, s) <==> !HasSignifier(e, s))
            && (forall t :: t != s ==> (HasSignifier(e1, t) <==> HasSignifier(e, t)))
            && e1 == e.(signifiers := e1.signifiers)
    ensures var e2 := Apply(Apply(e, SignifierPatch(e, s)), SignifierPatch(Apply(e, SignifierPatch(e, s)), s));
            (forall t :: HasSignifier(e2, t) <==> HasSignifier(e, t))
            && (!HasSignifier(e, s) ==> Signifiers(e2) == Signifiers(e))
  {
    ToggleTwice(Signifiers(e), s);
  }

  /** `handleReschedule`: scheduled for the chosen date, one more migration. */
  function ReschedulePatch(e: Entry, newDate: Timestamp): (p: Patch)
    ensures Apply(e, p) == e.(state := Scheduled, date := newDate, migrationCount := Some(MigrationCount(e) + 1))
  {
    NoChange.(state := Put(Scheduled), date := Put(newDate),
              migrationCount := Put(Some(MigrationCount(e) + 1)))
  }

  /** `handleEventReschedule`: only the date and the event state change. */
  function EventReschedulePatch(newDate: Timestamp): (p: Patch)
    ensures forall e :: Apply(e, p) == e.(date := newDate, eventState := Some(EventMigrated))
  {
    NoChange.(date := Put(newDate), eventState := Put(Some(EventMigrated)))
  }

  /** `handleSwipeDelete`: tasks and events are cancelled (an event's event
      state too, a task's event state cleared); a note is deleted. */
  function SwipeDelete(e: Entry): (a: Action)
    ensures a.id == e.id
    ensures a.Delete? <==> e.kind == Note
    ensures a.Update? ==> Apply(e, a.patch).state == Cancelled
    ensures a.Update? ==> Apply(e, a.patch).eventState == (if e.kind == Event then Some(EventCancelled) else None)
    ensures a.Update? ==> Apply(e, a.patch) == e.(state := Cancelled, eventState := Apply(e, a.patch).eventState)
  {
    if e.kind == Note then Delete(e.id)
    else
      Update(e.id, NoChange.(state := Put(Cancelled),
                             eventState := Put(if e.kind == Event then Some(EventCancelled) else None)))
  }

  /** The task menu's cancel item: `{ state: "cancelled" }`. */
  function MenuCancel(): (p: Patch)
    ensures forall e :: Apply(e, p) == e.(state := Cancelled)
  {
    StatePatch(Cancelled)
  }

  /** The event menu's items: set the event state to attended, missed or cancelled. */
  function MenuEventState(s: EventState): (p: Patch)
    requires s == Attended || s == Missed || s == EventCancelled
    ensures forall e :: Apply(e, p) == e.(eventState := Some(s))
  {
    EventStatePatch(s)
  }
}
