/** The monthly migration wizard: it reviews the month's open tasks, offers
    statistics and suggestions, keeps a selection and hands the selection,
    an action and a target date to the monthly log. */
module MigrationWizard {
  import opened Common
  import opened Dates
  import opened Entries

  // ---------------------------------------------------------------------
  // The month window.

  /** `new Date(year, month, 1)` of the month shown. */
  function MonthStart(cm: Timestamp): Timestamp {
    LocalDate(YearOf(cm), MonthOf(cm), 1)
  }

  /** `new Date(year, month + 1, 0)`: midnight at the start of the last day. */
  function MonthEndAsWritten(cm: Timestamp): Timestamp {
    LocalDate(YearOf(cm), MonthOf(cm) + 1, 0)
  }

  /** Midnight at the start of the following month. */
  function NextMonthStart(cm: Timestamp): Timestamp {
    LocalDate(YearOf(cm), MonthOf(cm) + 1, 1)
  }

  predicate IsOpenTask(e: Entry) {
    e.kind == Task && e.state != Complete && e.state != Cancelled
  }

  /** The window as written: start <= date <= last day at 00:00. */
  predicate IsCandidateAsWritten(e: Entry, cm: Timestamp) {
    IsOpenTask(e) && MonthStart(cm) <= e.date <= MonthEndAsWritten(cm)
  }

  /** The window as intended: start <= date < start of the next month. */
  predicate IsCandidate(e: Entry, cm: Timestamp) {
    IsOpenTask(e) && MonthStart(cm) <= e.date < NextMonthStart(cm)
  }

  /** The intended window is exactly the open tasks of the shown month
      (`new Date(y, ...)` reads a year 0..99 as 19yy, so those years are set apart). */
  lemma CandidateIffSameMonth(e: Entry, cm: Timestamp)
    requires !(0 <= YearOf(cm) <= 99)
    ensures IsCandidate(e, cm) <==>
              IsOpenTask(e) && YearOf(e.date) == YearOf(cm) && MonthOf(e.date) == MonthOf(cm)
  {
    MonthOfRange(cm);
    MonthWindow(e.date, YearOf(cm), MonthOf(cm));
  }

  /** As written, the window loses every task of the last day that is not
      stamped exactly at midnight. */
  lemma AsWrittenDropsLastDay(e: Entry, cm: Timestamp)
    ensures IsCandidateAsWritten(e, cm) <==>
              IsCandidate(e, cm)
              && !(Day(e.date) == Day(MonthEndAsWritten(cm)) && TimeInDay(e.date) > 0)
  {
    var k := MakeDay(FullYear(YearOf(cm)), MonthOf(cm) + 1, 1);
    assert MakeDay(FullYear(YearOf(cm)), MonthOf(cm) + 1, 0) == k - 1;
    MidnightCompare(e.date, k);
    MidnightCompare(e.date, k - 1);
    DayOfParts(k - 1, 0);
  }

  /** The witness: a task at 10:00 on the last day of the month is in the
      month but not a candidate as written. */
  lemma LastDayMorningTaskMissed(e: Entry, cm: Timestamp)
    requires IsOpenTask(e) && e.date == MonthEndAsWritten(cm) + 10 * MsPerHour
    ensures IsCandidate(e, cm) && !IsCandidateAsWritten(e, cm)
  {
    var k := MakeDay(FullYear(YearOf(cm)), MonthOf(cm) + 1, 1);
    assert MakeDay(FullYear(YearOf(cm)), MonthOf(cm) + 1, 0) == k - 1;
    assert MakeDay(FullYear(YearOf(cm)), MonthOf(cm), 1) <= k - 1 by {
      MonthOfRange(cm);
      var y := FullYear(YearOf(cm));
      var m := MonthOf(cm);
      assert m / 12 == 0 && m % 12 == m;
      MakeDayNextMonth(y, m);
    }
    DayOfParts(k - 1, 10 * MsPerHour);
    AsWrittenDropsLastDay(e, cm);
  }

  function CandidateIn(cm: Timestamp): Entry -> bool {
    (e: Entry) => IsCandidate(e, cm)
  }

  /** `incompleteTasks` with the intended window. */
  function Candidates(entries: seq<Entry>, cm: Timestamp): (r: seq<Entry>)
    ensures forall e :: e in r <==> e in entries && IsCandidate(e, cm)
  {
    Filter(entries, CandidateIn(cm))
  }

  // ---------------------------------------------------------------------
  // Statistics and suggestions.

  datatype Stats = Stats(neverMigrated: nat, migratedOnce: nat, migratedMultiple: nat, highPriority: nat)

  function CountIs(n: int): Entry -> bool {
    (e: Entry) => MigrationCount(e) == n
  }

  function CountOther(): Entry -> bool {
    (e: Entry) => MigrationCount(e) != 0 && MigrationCount(e) != 1
  }

  function WithPriority(): Entry -> bool {
    (e: Entry) => HasSignifier(e, Priority)
  }

  /** `migrationStats`: every task lands in exactly one of the three count
      classes (a negative count is "multiple"), and the priority count is
      among them. */
  method MigrationStats(tasks: seq<Entry>) returns (stats: Stats)
    ensures stats.neverMigrated == Count(tasks, CountIs(0))
    ensures stats.migratedOnce == Count(tasks, CountIs(1))
    ensures stats.migratedMultiple == Count(tasks, CountOther())
    ensures stats.highPriority == Count(tasks, WithPriority())
    ensures stats.neverMigrated + stats.migratedOnce + stats.migratedMultiple == |tasks|
    ensures stats.highPriority <= |tasks|
  {
    var never, once, multiple, high := 0, 0, 0, 0;
    var i := 0;
    while i < |tasks|
      invariant 0 <= i <= |tasks|
      invariant never == Count(tasks[..i], CountIs(0))
      invariant once == Count(tasks[..i], CountIs(1))
      invariant multiple == Count(tasks[..i], CountOther())
      invariant high == Count(tasks[..i], WithPriority())
    {
      var task := tasks[i];
      StatsStepAt(tasks, i);
      var count := MigrationCount(task);
      if count == 0 {
        never := never + 1;
      } else if count == 1 {
        once := once + 1;
      } else {
        multiple := multiple + 1;
      }
      if HasSignifier(task, Priority) {
        high := high + 1;
      }
      i := i + 1;
    }
    PrefixAll(tasks);
    StatsTotal(tasks);
    stats := Stats(never, once, multiple, high);
  }

  /** The three migration classes split the tasks. */
  lemma StatsTotal(tasks: seq<Entry>)
    ensures Count(tasks, CountIs(0)) + Count(tasks, CountIs(1)) + Count(tasks, CountOther()) == |tasks|
  {
    FilterPartition3(tasks, CountIs(0), CountIs(1), CountOther());
  }

  /** The four counts of a prefix grow by the classes of the next task. */
  lemma StatsStep(prefix: seq<Entry>, task: Entry)
    ensures Count(prefix + [task], CountIs(0)) == Count(prefix, CountIs(0)) + (if MigrationCount(task) == 0 then 1 else 0)
    ensures Count(prefix + [task], CountIs(1)) == Count(prefix, CountIs(1)) + (if MigrationCount(task) == 1 then 1 else 0)
    ensures Count(prefix + [task], CountOther())
         == Count(prefix, CountOther()) + (if MigrationCount(task) != 0 && MigrationCount(task) != 1 then 1 else 0)
    ensures Count(prefix + [task], WithPriority())
         == Count(prefix, WithPriority()) + (if HasSignifier(task, Priority) then 1 else 0)
  {
    CountSnoc(prefix, task, CountIs(0));
    CountSnoc(prefix, task, CountIs(1));
    CountSnoc(prefix, task, CountOther());
    CountSnoc(prefix, task, WithPriority());
  }

  /** `StatsStep` at position i of a list. */
  lemma StatsStepAt(tasks: seq<Entry>, i: nat)
    requires i < |tasks|
    ensures var task := tasks[i];
            && Count(tasks[..i + 1], CountIs(0)) == Count(tasks[..i], CountIs(0)) + (if MigrationCount(task) == 0 then 1 else 0)
            && Count(tasks[..i + 1], CountIs(1)) == Count(tasks[..i], CountIs(1)) + (if MigrationCount(task) == 1 then 1 else 0)
            && Count(tasks[..i + 1], CountOther())
               == Count(tasks[..i], CountOther()) + (if MigrationCount(task) != 0 && MigrationCount(task) != 1 then 1 else 0)
            && Count(tasks[..i + 1], WithPriority())
               == Count(tasks[..i], WithPriority()) + (if HasSignifier(task, Priority) then 1 else 0)
  {
    PrefixStep(tasks, i);
    StatsStep(tasks[..i], tasks[i]);
  }

  /** A task is suggested when it was migrated twice or more or is a priority. */
  predicate IsSuggested(e: Entry) {
    MigrationCount(e) >= 2 || HasSignifier(e, Priority)
  }

  function Suggested(): Entry -> bool {
    (e: Entry) => IsSuggested(e)
  }

  /** The suggestion Set: ids of suggested tasks, first occurrences, in order. */
  function SuggestionSet(tasks: seq<Entry>): (r: seq<string>)
    ensures NoDup(r)
    ensures forall x :: x in r <==> exists e :: e in tasks && e.id == x && IsSuggested(e)
  {
    var f := Filter(tasks, Suggested());
    var ids := Map(f, IdOf);
    assert forall x :: x in ids ==> exists e :: e in tasks && e.id == x && IsSuggested(e) by {
      forall x | x in ids
        ensures exists e :: e in tasks && e.id == x && IsSuggested(e)
      {
        var j :| 0 <= j < |ids| && ids[j] == x;
        assert f[j] in tasks && IsSuggested(f[j]);
      }
    }
    assert forall e :: e in tasks && IsSuggested(e) ==> e.id in ids by {
      forall e | e in tasks && IsSuggested(e)
        ensures e.id in ids
      {
        assert e in f;
        var j :| 0 <= j < |f| && f[j] == e;
        assert ids[j] == e.id;
      }
    }
    Dedup(ids)
  }

  /** The set after one more task: its id is added when it is suggested. */
  lemma SuggestionStep(prefix: seq<Entry>, task: Entry)
    ensures Dedup(Map(Filter(prefix + [task], Suggested()), IdOf))
         == if IsSuggested(task) then SetAdd(Dedup(Map(Filter(prefix, Suggested()), IdOf)), task.id)
            else Dedup(Map(Filter(prefix, Suggested()), IdOf))
  {
    DedupMapFilterSnoc(prefix, task, Suggested(), IdOf);
    assert Suggested()(task) == IsSuggested(task);
  }

  /** `suggestions`: the loop adds the id once for each rule it meets. */
  method Suggestions(tasks: seq<Entry>) returns (suggested: seq<string>)
    ensures suggested == SuggestionSet(tasks)
  {
    suggested := [];
    var i := 0;
    while i < |tasks|
      invariant 0 <= i <= |tasks|
      invariant suggested == Dedup(Map(Filter(tasks[..i], Suggested()), IdOf))
    {
      var task := tasks[i];
      PrefixStep(tasks, i);
      SuggestionStep(tasks[..i], task);
      var next := suggested;
      if MigrationCount(task) >= 2 {
        next := SetAdd(next, task.id);
      }
      if HasSignifier(task, Priority) {
        next := SetAdd(next, task.id);
      }
      assert next == if IsSuggested(task) then SetAdd(suggested, task.id) else suggested;
      suggested := next;
      i := i + 1;
    }
    PrefixAll(tasks);
  }

  /** Every suggestion is a candidate's id. */
  lemma SuggestionsAreCandidates(tasks: seq<Entry>)
    ensures forall x :: x in SuggestionSet(tasks) ==> x in Map(tasks, IdOf)
  {
    forall x | x in SuggestionSet(tasks)
      ensures x in Map(tasks, IdOf)
    {
      var e :| e in tasks && e.id == x && IsSuggested(e);
      var j :| 0 <= j < |tasks| && tasks[j] == e;
      assert Map(tasks, IdOf)[j] == x;
    }
  }

  // ---------------------------------------------------------------------
  // The target of "Migrate to next month".

  /** As written: `setMonth(getMonth() + 1)` and then `setDate(1)`. */
  function NextMonthAsWritten(cm: Timestamp): Timestamp {
    SetDate(SetMonth(cm, MonthOf(cm) + 1), 1)
  }

  /** As intended: to the first of the month, then one month on. */
  function NextMonthFirst(cm: Timestamp): Timestamp {
    SetMonth(SetDate(cm, 1), MonthOf(cm) + 1)
  }

  /** The intended target is the first of the following month, at the same
      time of day. */
  lemma NextMonthFirstIsNextMonth(cm: Timestamp)
    ensures var m := MonthOf(cm) + 1;
            CivilFromDays(Day(NextMonthFirst(cm))) == Civil(YearOf(cm) + m / 12, m % 12, 1)
            && TimeInDay(NextMonthFirst(cm)) == TimeInDay(cm)
  {
    SetDateFirst(cm);
    SetMonthFromFirst(SetDate(cm, 1), MonthOf(cm) + 1);
  }

  /** As written, October 31 goes to December 1: November is skipped. */
  lemma NextMonthAsWrittenSkips(cm: Timestamp)
    requires MonthOf(cm) == 9 && DateOf(cm) == 31
    ensures CivilFromDays(Day(NextMonthAsWritten(cm))) == Civil(YearOf(cm), 11, 1)
  {
    var y := YearOf(cm);
    DaysBeforeMonthStep(y, 10);
    assert MakeDay(y, 10, 31) == DayNumber(y, 11, 1);
    var moved := SetMonth(cm, 10);
    SetterParts(cm, 1, 10);
    MakeDayInMonth(y, 11, 1);
    assert YearOf(moved) == y && MonthOf(moved) == 11;
    SetterParts(moved, 1, 0);
    MakeDayInMonth(y, 11, 1);
  }

  // ---------------------------------------------------------------------
  // The wizard's state.

  datatype BulkAction = MigrateAction | ScheduleAction | CancelAction
  datatype Step = Review | Preview

  datatype WizardCall =
    | OnMigrate(entryIds: seq<string>, action: BulkAction, targetDate: Option<Timestamp>)
    | OnOpenChange(open: bool)

  class Wizard {
    const entries: seq<Entry>
    const currentMonth: Timestamp
    /** The `selectedEntries` Set, in insertion order. */
    var selected: seq<string>
    var step: Step
    ghost var log: seq<WizardCall>

    predicate Valid()
      reads this
    {
      NoDup(selected)
    }

    constructor (entries: seq<Entry>, currentMonth: Timestamp)
      ensures Valid() && this.entries == entries && this.currentMonth == currentMonth
      ensures selected == [] && step == Review && log == []
    {
      this.entries := entries;
      this.currentMonth := currentMonth;
      selected := [];
      step := Review;
      log := [];
    }

    function Tasks(): seq<Entry>
      reads this
    {
      Candidates(entries, currentMonth)
    }

    /** `toggleEntry`: one id changes membership, no other does. */
    method ToggleEntry(id: string)
      requires Valid()
      modifies this
      ensures Valid()
      ensures selected == Toggle(old(selected), id)
      ensures id in selected <==> id !in old(selected)
      ensures forall x :: x != id ==> (x in selected <==> x in old(selected))
      ensures step == old(step) && log == old(log)
    {
      ToggleNoDup(selected, id);
      selected := Toggle(selected, id);
    }

    /** `selectAll`: exactly the candidates' ids, in the candidates' order. */
    method SelectAll()
      modifies this
      ensures Valid()
      ensures selected == Dedup(Map(Tasks(), IdOf))
      ensures forall x :: x in selected <==> exists e :: e in Tasks() && e.id == x
      ensures step == old(step) && log == old(log)
    {
      var ids := Map(Tasks(), IdOf);
      selected := Dedup(ids);
      MapMembership(Tasks(), IdOf);
    }

    method DeselectAll()
      modifies this
      ensures Valid() && selected == []
      ensures step == old(step) && log == old(log)
    {
      selected := [];
    }

    /** `applySuggestions`: exactly the suggestion set. */
    method ApplySuggestions()
      modifies this
      ensures Valid()
      ensures selected == SuggestionSet(Tasks())
      ensures step == old(step) && log == old(log)
    {
      selected := Suggestions(Tasks());
    }

    method SetStep(s: Step)
      modifies this
      ensures step == s && selected == old(selected) && log == old(log)
    {
      step := s;
    }

    /** "Migrate to <next month>": the selection goes to the first of the next
        month, then the wizard closes and resets.  Its button, like "Cancel
        Selected", is disabled while the selection is empty; the handler
        itself does not check. */
    method HandleMigrate()
      modifies this
      ensures Valid()
      ensures log == old(log) + [OnMigrate(old(selected), MigrateAction, Some(NextMonthFirst(currentMonth))),
                                 OnOpenChange(false)]
      ensures selected == [] && step == Review
    {
      var nextMonth := NextMonthFirst(currentMonth);
      log := log + [OnMigrate(selected, MigrateAction, Some(nextMonth)), OnOpenChange(false)];
      selected := [];
      step := Review;
    }

    /** "Cancel Selected": the selection is cancelled, without a date. */
    method HandleCancel()
      modifies this
      ensures Valid()
      ensures log == old(log) + [OnMigrate(old(selected), CancelAction, None), OnOpenChange(false)]
      ensures selected == [] && step == Review
    {
      log := log + [OnMigrate(selected, CancelAction, None), OnOpenChange(false)];
      selected := [];
      step := Review;
    }

    /** The footer's Close button: `onOpenChange(false)` only, keeping the
        selection and the tab. */
    method Close()
      modifies this
      ensures log == old(log) + [OnOpenChange(false)]
      ensures selected == old(selected) && step == old(step)
    {
      log := log + [OnOpenChange(false)];
    }
  }
}
