/** The daily log page: the scan for incomplete tasks left on earlier days,
    the search and status filters over the day's entries, and the state the
    page keeps for them. */
module DailyLog {
  import opened Common
  import opened Dates
  import opened Text
  import opened Entries

  function IsStaleTask(today: Timestamp): Entry -> bool {
    (e: Entry) => e.kind == Task && e.state == Incomplete && StartOfDay(e.date) < StartOfDay(today)
  }

  /** `checkIncompleteTasks`' filter: incomplete tasks of a day before the viewed one. */
  function StaleTasks(all: seq<Entry>, today: Timestamp): (r: seq<Entry>)
    ensures forall e :: e in r <==>
              e in all && e.kind == Task && e.state == Incomplete && Day(e.date) < Day(today)
  {
    Filter(all, IsStaleTask(today))
  }

  /** Midnight comparison is day comparison, so only the calendar day of the
      viewed date matters. */
  lemma StaleTasksIgnoreTimeOfDay(all: seq<Entry>, t1: Timestamp, t2: Timestamp)
    requires Day(t1) == Day(t2)
    ensures StaleTasks(all, t1) == StaleTasks(all, t2)
    decreases |all|
  {
    if all != [] {
      StaleTasksIgnoreTimeOfDay(all[..|all| - 1], t1, t2);
    }
  }

  /** `entry.eventState || "upcoming"`. */
  function EventStateOr(e: Entry): EventState {
    if e.eventState.Some? then e.eventState.value else Upcoming
  }

  /** The search box: an empty query matches everything; otherwise the
      lowercased content must contain the lowercased query. */
  predicate MatchesSearch(e: Entry, query: string) {
    query == "" || Contains(Lower(e.content), Lower(query))
  }

  /** The status filters: an empty list keeps everything; a task filter only
      judges tasks and an event filter only judges events. */
  predicate PassesFilters(e: Entry, states: seq<TaskState>, eventStates: seq<EventState>) {
    (states == [] || e.kind != Task || e.state in states)
    && (eventStates == [] || e.kind != Event || EventStateOr(e) in eventStates)
  }

  function Keeps(query: string, states: seq<TaskState>, eventStates: seq<EventState>): Entry -> bool {
    (e: Entry) => MatchesSearch(e, query) && PassesFilters(e, states, eventStates)
  }

  /** `filteredEntries`. */
  function FilteredEntries(es: seq<Entry>, query: string, states: seq<TaskState>,
                           eventStates: seq<EventState>): (r: seq<Entry>)
    ensures |r| <= |es|
    ensures forall e :: e in r ==> e in es
    ensures forall e :: e in r && e.kind == Task && states != [] ==> e.state in states
    ensures forall e :: e in r && e.kind == Event && eventStates != [] ==> EventStateOr(e) in eventStates
    ensures forall e :: e in r && query != "" ==> Contains(Lower(e.content), Lower(query))
    ensures forall e :: e in es && MatchesSearch(e, query) && PassesFilters(e, states, eventStates) ==> e in r
  {
    Filter(es, Keeps(query, states, eventStates))
  }

  /** With no search and no filter every entry is shown, in order. */
  lemma NoFiltersKeepAll(es: seq<Entry>)
    ensures FilteredEntries(es, "", [], []) == es
  {
    FilterAll(es, Keeps("", [], []));
  }

  /** Notes are only ever hidden by the search. */
  lemma NotesOnlySearched(es: seq<Entry>, query: string, states: seq<TaskState>,
                          eventStates: seq<EventState>, e: Entry)
    requires e.kind == Note
    ensures e in FilteredEntries(es, query, states, eventStates) <==> e in es && MatchesSearch(e, query)
  {
  }

  lemma LowerIdempotent(s: string)
    ensures Lower(Lower(s)) == Lower(s)
  {
  }

  /** The search ignores the case of the query. */
  lemma SearchIgnoresQueryCase(es: seq<Entry>, query: string, states: seq<TaskState>,
                               eventStates: seq<EventState>)
    ensures FilteredEntries(es, Lower(query), states, eventStates) == FilteredEntries(es, query, states, eventStates)
    decreases |es|
  {
    LowerIdempotent(query);
    if es != [] {
      SearchIgnoresQueryCase(es[..|es| - 1], query, states, eventStates);
    }
  }

  /** tasks, events and notes split the filtered list by type. */
  lemma KindsPartition(r: seq<Entry>)
    ensures |Filter(r, IsKind(Task))| + |Filter(r, IsKind(Event))| + |Filter(r, IsKind(Note))| == |r|
    ensures multiset(Filter(r, IsKind(Task))) + multiset(Filter(r, IsKind(Event)))
            + multiset(Filter(r, IsKind(Note))) == multiset(r)
  {
    FilterPartition3(r, IsKind(Task), IsKind(Event), IsKind(Note));
  }

  /** The page's own state. */
  class DailyLogState {
    var searchQuery: string
    var filterStates: seq<TaskState>
    var filterEventStates: seq<EventState>
    var migrationDialogOpen: bool
    var incompleteTasks: seq<Entry>

    /** Neither filter list ever holds a state twice. */
    predicate Valid()
      reads this
    {
      NoDup(filterStates) && NoDup(filterEventStates)
    }

    constructor ()
      ensures Valid()
      ensures searchQuery == "" && filterStates == [] && filterEventStates == []
      ensures !migrationDialogOpen && incompleteTasks == []
    {
      searchQuery := "";
      filterStates := [];
      filterEventStates := [];
      migrationDialogOpen := false;
      incompleteTasks := [];
    }

    function Visible(es: seq<Entry>): seq<Entry>
      reads this
    {
      FilteredEntries(es, searchQuery, filterStates, filterEventStates)
    }

    /** The effect run when the viewed date or the entries change: a non-empty
        scan replaces the task list and opens the dialog, an empty one leaves
        both alone. */
    method CheckIncompleteTasks(allEntries: seq<Entry>, currentDate: Timestamp)
      modifies this
      ensures var found := StaleTasks(allEntries, currentDate);
              if |found| > 0 then incompleteTasks == found && migrationDialogOpen
              else incompleteTasks == old(incompleteTasks) && migrationDialogOpen == old(migrationDialogOpen)
      ensures searchQuery == old(searchQuery) && filterStates == old(filterStates)
      ensures filterEventStates == old(filterEventStates)
    {
      var incomplete := StaleTasks(allEntries, currentDate);
      if |incomplete| > 0 {
        incompleteTasks := incomplete;
        migrationDialogOpen := true;
      }
    }

    method SetSearchQuery(q: string)
      modifies this
      ensures searchQuery == q
      ensures filterStates == old(filterStates) && filterEventStates == old(filterEventStates)
      ensures migrationDialogOpen == old(migrationDialogOpen) && incompleteTasks == old(incompleteTasks)
    {
      searchQuery := q;
    }

    method ToggleFilterState(s: TaskState)
      requires Valid()
      modifies this
      ensures Valid()
      ensures filterStates == Toggle(old(filterStates), s)
      ensures s in filterStates <==> s !in old(filterStates)
      ensures searchQuery == old(searchQuery) && filterEventStates == old(filterEventStates)
      ensures migrationDialogOpen == old(migrationDialogOpen) && incompleteTasks == old(incompleteTasks)
    {
      ToggleNoDup(filterStates, s);
      filterStates := Toggle(filterStates, s);
    }

    method ToggleFilterEventState(s: EventState)
      requires Valid()
      modifies this
      ensures Valid()
      ensures filterEventStates == Toggle(old(filterEventStates), s)
      ensures s in filterEventStates <==> s !in old(filterEventStates)
      ensures searchQuery == old(searchQuery) && filterStates == old(filterStates)
      ensures migrationDialogOpen == old(migrationDialogOpen) && incompleteTasks == old(incompleteTasks)
    {
      ToggleNoDup(filterEventStates, s);
      filterEventStates := Toggle(filterEventStates, s);
    }

    /** `clearFilters`: afterwards every entry is visible again. */
    method ClearFilters()
      modifies this
      ensures Valid()
      ensures filterStates == [] && filterEventStates == [] && searchQuery == ""
      ensures forall es :: Visible(es) == es
      ensures migrationDialogOpen == old(migrationDialogOpen) && incompleteTasks == old(incompleteTasks)
    {
      filterStates := [];
      filterEventStates := [];
      searchQuery := "";
      forall es: seq<Entry> ensures Visible(es) == es {
        NoFiltersKeepAll(es);
      }
    }
  }
}
