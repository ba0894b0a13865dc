/** The daily catch-up dialog: it walks through the stale tasks oldest first
    and lets the user migrate each to today, schedule it, keep it or cancel
    it.  The parent's callbacks are recorded in a ghost log. */
module DailyMigration {
  import opened Common
  import opened Dates
  import opened Sorting
  import opened Entries
  import BulletEntry

  /** `[...incompleteTasks].sort((a, b) => date(a) - date(b))`. */
  function SortedTasks(tasks: seq<Entry>): (r: seq<Entry>)
    ensures multiset(r) == multiset(tasks)
    ensures forall i, j :: 0 <= i < j < |r| ==> r[i].date <= r[j].date
  {
    var r := SortByKey(tasks, DateOfEntry);
    assert forall i, j :: 0 <= i < j < |r| ==> KeyLe(DateOfEntry)(r[i], r[j]);
    assert forall i, j :: 0 <= i < j < |r| ==> DateOfEntry(r[i]) <= DateOfEntry(r[j]);
    r
  }

  /** Tasks of the same date keep the order they came in. */
  lemma SortedTasksStable(tasks: seq<Entry>, d: int)
    ensures Filter(SortedTasks(tasks), HasKey(DateOfEntry, d)) == Filter(tasks, HasKey(DateOfEntry, d))
  {
    SortByKeyStable(tasks, DateOfEntry, d);
  }

  /** Index of the first task whose id is not in processed (|s| when there is none). */
  function FirstUnprocessed(s: seq<Entry>, processed: seq<string>): (k: nat)
    ensures k <= |s|
    ensures forall j :: 0 <= j < k ==> s[j].id in processed
    ensures k < |s| ==> s[k].id !in processed
  {
    if s == [] then 0
    else if s[0].id !in processed then 0
    else 1 + FirstUnprocessed(s[1..], processed)
  }

  /** `currentTask`: the selected task if there is one, else the first
      unprocessed task in sorted order, else none. */
  function CurrentTask(sorted: seq<Entry>, selected: Option<Entry>, processed: seq<string>): (r: Option<Entry>)
    ensures selected.Some? ==> r == selected
    ensures selected.None? && r.Some? ==> r.value in sorted && r.value.id !in processed
    ensures selected.None? ==> (r.None? <==> forall e :: e in sorted ==> e.id in processed)
  {
    if selected.Some? then selected
    else
      var k := FirstUnprocessed(sorted, processed);
      assert forall e :: e in sorted && k == |sorted| ==> e.id in processed;
      if k < |sorted| then Some(sorted[k]) else None
  }

  /** Every task before the current one in sorted order has been processed. */
  lemma CurrentIsFirstUnprocessed(sorted: seq<Entry>, processed: seq<string>)
    requires CurrentTask(sorted, None, processed).Some?
    ensures exists k :: 0 <= k < |sorted| && sorted[k] == CurrentTask(sorted, None, processed).value
                        && forall j :: 0 <= j < k ==> sorted[j].id in processed
  {
    var k := FirstUnprocessed(sorted, processed);
    assert sorted[k] == CurrentTask(sorted, None, processed).value;
  }

  /** A lurker is a task migrated three times or more (no count means 0). */
  predicate IsLurker(t: Entry) {
    MigrationCount(t) >= 3
  }

  lemma LurkerThreshold(t: Entry)
    ensures t.migrationCount == Some(2) ==> !IsLurker(t)
    ensures t.migrationCount == Some(3) ==> IsLurker(t)
    ensures t.migrationCount == None ==> !IsLurker(t)
  {
  }

  /** Migrating a task counts one more migration, so a lurker stays a lurker
      and a task two migrations in becomes one. */
  lemma MigrationMakesLurker(t: Entry)
    ensures IsLurker(Apply(t, BulletEntry.MigratePatch(t))) <==> MigrationCount(t) >= 2
  {
  }

  /** `Math.ceil(Math.abs(today - taskDate) / msPerDay)`. */
  function DaysSince(task: Entry, currentDate: Timestamp): (n: int)
    ensures n >= 0
  {
    var diff := if currentDate >= task.date then currentDate - task.date else task.date - currentDate;
    (diff + MsPerDay - 1) / MsPerDay
  }

  /** The count is the least number of whole days covering the distance. */
  lemma DaysSinceIsCeiling(task: Entry, currentDate: Timestamp)
    ensures var diff := if currentDate >= task.date then currentDate - task.date else task.date - currentDate;
            var n := DaysSince(task, currentDate);
            (n - 1) * MsPerDay < diff <= n * MsPerDay
            && (n == 0 <==> diff == 0)
  {
  }

  /** A callback the dialog invokes. */
  datatype Call =
    | OnMigrate(taskId: string, targetDate: Timestamp)
    | OnSchedule(taskId: string, targetDate: Timestamp)
    | OnCancel(taskId: string)
    | OnOpenChange(open: bool)

  function Ids(s: seq<Entry>): (r: seq<string>)
    ensures |r| == |s| && forall e :: e in s ==> e.id in r
    ensures forall x :: x in r ==> exists e :: e in s && e.id == x
  {
    Map(s, IdOf)
  }

  /** `remainingCount` as written: the list's length minus the Set's size.
      It counts the tasks still to review only while every processed id
      belongs to the current list. */
  function RemainingCount(sorted: seq<Entry>, processed: seq<string>): (n: int)
    ensures n <= |sorted|
  {
    |sorted| - |processed|
  }

  /** While every processed id belongs to the list, the count is never negative. */
  lemma RemainingCountBound(sorted: seq<Entry>, processed: seq<string>)
    requires NoDup(processed) && forall x :: x in processed ==> x in Ids(sorted)
    ensures 0 <= RemainingCount(sorted, processed)
  {
    NoDupSubsetLength(processed, Ids(sorted));
  }

  /** The test `!processedTasks.has(id)`. */
  function Pending(processed: seq<string>): string -> bool {
    x => x !in processed
  }

  function Done(processed: seq<string>): string -> bool {
    x => x in processed
  }

  function Is(id: string): string -> bool {
    x => x == id
  }

  /** The ids of the list still to review: those not in the processed Set. */
  function Unreviewed(sorted: seq<Entry>, processed: seq<string>): (r: seq<string>)
    ensures |r| <= |sorted|
    ensures forall i :: 0 <= i < |sorted| && sorted[i].id !in processed ==> sorted[i].id in r
    ensures forall x :: x in r ==> x !in processed
  {
    Filter(Ids(sorted), Pending(processed))
  }

  /** Nothing is left to review exactly when `find` finds no task. */
  lemma UnreviewedIffNoCurrent(sorted: seq<Entry>, processed: seq<string>)
    ensures |Unreviewed(sorted, processed)| == 0 <==> CurrentTask(sorted, None, processed).None?
  {
    var ids := Ids(sorted);
    if CurrentTask(sorted, None, processed).Some? {
      var k := FirstUnprocessed(sorted, processed);
      assert sorted[k].id in Unreviewed(sorted, processed);
    } else {
      forall i | 0 <= i < |ids|
        ensures !Pending(processed)(ids[i])
      {
        assert sorted[i] in sorted;
      }
      FilterEmpty(ids, Pending(processed));
    }
  }

  /** While every processed id belongs to the list and ids are distinct, the
      count as written is the number still to review. */
  lemma RemainingCountAgrees(sorted: seq<Entry>, processed: seq<string>)
    requires NoDup(processed) && NoDup(Ids(sorted))
    requires forall x :: x in processed ==> x in Ids(sorted)
    ensures RemainingCount(sorted, processed) == |Unreviewed(sorted, processed)|
  {
    var ids := Ids(sorted);
    var done := Filter(ids, Done(processed));
    FilterComplement(ids, Pending(processed), Done(processed));
    FilterNoDup(ids, Done(processed));
    NoDupSubsetLength(done, processed);
    NoDupSubsetLength(processed, done);
  }

  /** The under-count: a task processed in an earlier list but absent from
      the current one is still subtracted, so `remainingCount` reaches 0
      while a task of the current list has not been reviewed. */
  lemma RemainingUndercounts(a: Entry, c: Entry)
    requires a.id != c.id
    ensures RemainingCount([c], [a.id]) == 0
    ensures CurrentTask([c], None, [a.id]) == Some(c)
    ensures |Unreviewed([c], [a.id])| == 1
  {
    assert [c][1..] == [];
    UnreviewedIffNoCurrent([c], [a.id]);
  }

  /** Processing the current task takes its id off the list still to review. */
  lemma UnreviewedStep(sorted: seq<Entry>, processed: seq<string>, id: string)
    requires id in Ids(sorted) && id !in processed
    ensures |Unreviewed(sorted, SetAdd(processed, id))| < |Unreviewed(sorted, processed)|
  {
    var ids := Ids(sorted);
    var before := Unreviewed(sorted, processed);
    var q := Pending(SetAdd(processed, id));
    FilterFilter(ids, Pending(processed), q);
    var k :| 0 <= k < |ids| && ids[k] == id;
    assert sorted[k].id == id;
    var j :| 0 <= j < |before| && before[j] == id;
    FilterFull(before, q);
  }

  /** Marking the current task processed adds one new id to the Set, so the
      count as written drops by one and fewer tasks are left to review. */
  lemma ProcessCurrent(sorted: seq<Entry>, processed: seq<string>)
    requires CurrentTask(sorted, None, processed).Some?
    ensures var id := CurrentTask(sorted, None, processed).value.id;
            && id !in processed
            && |SetAdd(processed, id)| == |processed| + 1
            && RemainingCount(sorted, SetAdd(processed, id)) == RemainingCount(sorted, processed) - 1
            && |Unreviewed(sorted, SetAdd(processed, id))| < |Unreviewed(sorted, processed)|
  {
    var k := FirstUnprocessed(sorted, processed);
    var id := sorted[k].id;
    assert Ids(sorted)[k] == id;
    UnreviewedStep(sorted, processed, id);
  }

  class DailyMigrationDialog {
    /** The props the parent passes; DailyLog replaces them as its scan runs. */
    var incompleteTasks: seq<Entry>
    var currentDate: Timestamp
    /** The `useMemo`'d `sortedTasks`, recomputed whenever the list changes. */
    var sortedTasks: seq<Entry>
    var selectedTask: Option<Entry>
    var showSchedulePicker: bool
    var scheduleDate: Option<Timestamp>
    /** The `processedTasks` Set, in insertion order. */
    var processed: seq<string>
    ghost var log: seq<Call>

    /** The processed ids are a Set; no handler ever selects a task.  The
        processed ids need not belong to the current list: a new list
        leaves the Set as it was. */
    ghost predicate Valid()
      reads this`processed, this`selectedTask
    {
      NoDup(processed) && selectedTask.None?
    }

    constructor (incompleteTasks: seq<Entry>, currentDate: Timestamp)
      ensures Valid()
      ensures this.incompleteTasks == incompleteTasks && this.currentDate == currentDate
      ensures sortedTasks == SortedTasks(incompleteTasks)
      ensures processed == [] && selectedTask == None && !showSchedulePicker && scheduleDate == None
      ensures log == []
    {
      this.incompleteTasks := incompleteTasks;
      this.currentDate := currentDate;
      sortedTasks := SortedTasks(incompleteTasks);
      selectedTask := None;
      showSchedulePicker := false;
      scheduleDate := None;
      processed := [];
      log := [];
    }

    function Current(): Option<Entry>
      reads this`sortedTasks, this`selectedTask, this`processed
    {
      CurrentTask(sortedTasks, selectedTask, processed)
    }

    /** `remainingCount` as written; see `RemainingUndercounts`. */
    function Remaining(): (n: int)
      reads this`sortedTasks, this`processed
      ensures n <= |sortedTasks|
    {
      RemainingCount(sortedTasks, processed)
    }

    /** The number of listed tasks still to review: 0 exactly when, with
        nothing selected, there is no current task (`UnreviewedIffNoCurrent`). */
    function ToReview(): nat
      reads this`sortedTasks, this`processed
    {
      |Unreviewed(sortedTasks, processed)|
    }

    /** `markTaskProcessed` on the current task: one more processed id, so one less remaining. */
    method MarkProcessed(id: string)
      requires Valid() && Current().Some? && id == Current().value.id
      modifies this
      ensures incompleteTasks == old(incompleteTasks) && sortedTasks == old(sortedTasks)
      ensures currentDate == old(currentDate)
      ensures Valid()
      ensures processed == SetAdd(old(processed), id) && |processed| == |old(processed)| + 1
      ensures Remaining() == old(Remaining()) - 1
      ensures ToReview() < old(ToReview())
      ensures selectedTask == None
      ensures showSchedulePicker == old(showSchedulePicker) && scheduleDate == old(scheduleDate)
      ensures log == old(log)
    {
      ProcessCurrent(sortedTasks, processed);
      processed := SetAdd(processed, id);
      selectedTask := None;
    }

    /** "Migrate to Today". */
    method HandleMigrate()
      requires Valid()
      modifies this
      ensures incompleteTasks == old(incompleteTasks) && sortedTasks == old(sortedTasks)
      ensures currentDate == old(currentDate)
      ensures Valid()
      ensures old(Current()).None? ==> processed == old(processed) && log == old(log)
      ensures old(Current()).Some? ==>
                log == old(log) + [OnMigrate(old(Current()).value.id, currentDate)]
                && processed == SetAdd(old(processed), old(Current()).value.id)
                && Remaining() == old(Remaining()) - 1 && ToReview() < old(ToReview())
      ensures selectedTask == None
      ensures showSchedulePicker == old(showSchedulePicker) && scheduleDate == old(scheduleDate)
    {
      var task := Current();
      if task.None? {
        return;
      }
      log := log + [OnMigrate(task.value.id, currentDate)];
      MarkProcessed(task.value.id);
    }

    /** "Schedule": needs both a current task and a picked date. */
    method HandleSchedule()
      requires Valid()
      modifies this
      ensures incompleteTasks == old(incompleteTasks) && sortedTasks == old(sortedTasks)
      ensures currentDate == old(currentDate)
      ensures Valid()
      ensures old(Current()).None? || old(scheduleDate).None? ==>
                processed == old(processed) && log == old(log)
                && showSchedulePicker == old(showSchedulePicker) && scheduleDate == old(scheduleDate)
      ensures old(Current()).Some? && old(scheduleDate).Some? ==>
                log == old(log) + [OnSchedule(old(Current()).value.id, old(scheduleDate).value)]
                && processed == SetAdd(old(processed), old(Current()).value.id)
                && Remaining() == old(Remaining()) - 1 && ToReview() < old(ToReview())
                && !showSchedulePicker && scheduleDate == None
      ensures selectedTask == None
    {
      var task := Current();
      if task.None? || scheduleDate.None? {
        return;
      }
      showSchedulePicker := false;
      log := log + [OnSchedule(task.value.id, scheduleDate.value)];
      scheduleDate := None;
      MarkProcessed(task.value.id);
    }

    /** "Cancel Task". */
    method HandleCancel()
      requires Valid()
      modifies this
      ensures incompleteTasks == old(incompleteTasks) && sortedTasks == old(sortedTasks)
      ensures currentDate == old(currentDate)
      ensures Valid()
      ensures old(Current()).None? ==> processed == old(processed) && log == old(log)
      ensures old(Current()).Some? ==>
                log == old(log) + [OnCancel(old(Current()).value.id)]
                && processed == SetAdd(old(processed), old(Current()).value.id)
                && Remaining() == old(Remaining()) - 1 && ToReview() < old(ToReview())
      ensures selectedTask == None
      ensures showSchedulePicker == old(showSchedulePicker) && scheduleDate == old(scheduleDate)
    {
      var task := Current();
      if task.None? {
        return;
      }
      log := log + [OnCancel(task.value.id)];
      MarkProcessed(task.value.id);
    }

    /** "Keep as-is": processed without any callback. */
    method HandleSkip()
      requires Valid()
      modifies this
      ensures incompleteTasks == old(incompleteTasks) && sortedTasks == old(sortedTasks)
      ensures currentDate == old(currentDate)
      ensures Valid()
      ensures log == old(log)
      ensures old(Current()).None? ==> processed == old(processed)
      ensures old(Current()).Some? ==>
                processed == SetAdd(old(processed), old(Current()).value.id)
                && Remaining() == old(Remaining()) - 1 && ToReview() < old(ToReview())
      ensures selectedTask == None
      ensures showSchedulePicker == old(showSchedulePicker) && scheduleDate == old(scheduleDate)
    {
      var task := Current();
      if task.None? {
        return;
      }
      MarkProcessed(task.value.id);
    }

    /** "Schedule Later" opens the picker. */
    method OpenSchedulePicker()
      modifies this
      ensures incompleteTasks == old(incompleteTasks) && sortedTasks == old(sortedTasks)
      ensures currentDate == old(currentDate)
      ensures showSchedulePicker
      ensures scheduleDate == old(scheduleDate) && processed == old(processed)
      ensures selectedTask == old(selectedTask) && log == old(log)
    {
      showSchedulePicker := true;
    }

    /** The picker's `onSelect`; an instant before the current instant is
        disabled (the calendar compares whole timestamps) and cannot be picked. */
    method PickScheduleDate(d: Option<Timestamp>)
      modifies this
      ensures incompleteTasks == old(incompleteTasks) && sortedTasks == old(sortedTasks)
      ensures currentDate == old(currentDate)
      ensures d.Some? && d.value < currentDate ==> scheduleDate == old(scheduleDate)
      ensures d.None? || d.value >= currentDate ==> scheduleDate == d
      ensures showSchedulePicker == old(showSchedulePicker) && processed == old(processed)
      ensures selectedTask == old(selectedTask) && log == old(log)
    {
      if d.None? || d.value >= currentDate {
        scheduleDate := d;
      }
    }

    /** The picker's own Cancel button. */
    method CancelSchedulePicker()
      modifies this
      ensures incompleteTasks == old(incompleteTasks) && sortedTasks == old(sortedTasks)
      ensures currentDate == old(currentDate)
      ensures !showSchedulePicker && scheduleDate == None
      ensures processed == old(processed) && selectedTask == old(selectedTask) && log == old(log)
    {
      showSchedulePicker := false;
      scheduleDate := None;
    }

    /** The check made on every render (its 500 ms delay taken as
        immediate), on the corrected count: once nothing of a non-empty list
        is left to review, close and reset.  As written it tests
        `Remaining() == 0`, which can fire with a task still unreviewed
        (`RemainingUndercounts`); the two agree while every processed id is
        in the list (`RemainingCountAgrees`). */
    method AutoClose()
      requires Valid()
      modifies this
      ensures Valid()
      ensures old(ToReview()) == 0 && |sortedTasks| > 0 ==>
                log == old(log) + [OnOpenChange(false)] && processed == []
      ensures !(old(ToReview()) == 0 && |sortedTasks| > 0) ==>
                log == old(log) && processed == old(processed)
      ensures selectedTask == old(selectedTask)
      ensures incompleteTasks == old(incompleteTasks) && sortedTasks == old(sortedTasks)
      ensures currentDate == old(currentDate)
      ensures showSchedulePicker == old(showSchedulePicker) && scheduleDate == old(scheduleDate)
    {
      if ToReview() == 0 && |sortedTasks| > 0 {
        log := log + [OnOpenChange(false)];
        processed := [];
      }
    }

    /** New props from the parent: a non-empty scan's task list and the
        viewed date.  The processed Set, the selection and the picker are
        kept, as React keeps a mounted component's state. */
    method SetProps(tasks: seq<Entry>, date: Timestamp)
      requires Valid()
      modifies this
      ensures Valid()
      ensures incompleteTasks == tasks && currentDate == date && sortedTasks == SortedTasks(tasks)
      ensures processed == old(processed) && selectedTask == old(selectedTask)
      ensures showSchedulePicker == old(showSchedulePicker) && scheduleDate == old(scheduleDate)
      ensures log == old(log)
    {
      incompleteTasks := tasks;
      currentDate := date;
      sortedTasks := SortedTasks(tasks);
    }

    /** Escape, a click outside or the corner X: the dialog's own
        `onOpenChange(false)`, with no reset of the processed Set. */
    method Dismiss()
      requires Valid()
      modifies this
      ensures Valid()
      ensures log == old(log) + [OnOpenChange(false)]
      ensures processed == old(processed) && selectedTask == old(selectedTask)
      ensures incompleteTasks == old(incompleteTasks) && sortedTasks == old(sortedTasks)
      ensures currentDate == old(currentDate)
      ensures showSchedulePicker == old(showSchedulePicker) && scheduleDate == old(scheduleDate)
    {
      log := log + [OnOpenChange(false)];
    }

    /** The footer's Close button. */
    method Close()
      requires Valid()
      modifies this
      ensures Valid()
      ensures log == old(log) + [OnOpenChange(false)]
      ensures processed == [] && selectedTask == None
      ensures showSchedulePicker == old(showSchedulePicker) && scheduleDate == old(scheduleDate)
    {
      log := log + [OnOpenChange(false)];
      processed := [];
      selectedTask := None;
    }
  }

  /** Once every task of the list has been acted on, nothing is current and
      nothing remains when the ids are distinct. */
  lemma AllProcessedNoneRemain(sorted: seq<Entry>, processed: seq<string>)
    requires NoDup(processed) && NoDup(Ids(sorted))
    requires forall x :: x in processed ==> x in Ids(sorted)
    requires |processed| == |sorted|
    ensures CurrentTask(sorted, None, processed).None?
  {
    forall e | e in sorted
      ensures e.id in processed
    {
      if e.id !in processed {
        var rest := Filter(Ids(sorted), (x: string) => x != e.id);
        FilterComplement(Ids(sorted), (x: string) => x != e.id, (x: string) => x == e.id);
        assert e.id in Filter(Ids(sorted), (x: string) => x == e.id);
        forall y | y in processed ensures y in rest { }
        NoDupSubsetLength(processed, rest);
      }
    }
  }
}
