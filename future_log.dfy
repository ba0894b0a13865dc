/** The future log: a six-month (or whole-year) window of month cards that
    pages by six months, each card with the entries of its month and their
    counts by kind, and marked past or current against the clock. */
module FutureLog {
  import opened Common
  import opened Dates
  import opened Entries
  import opened Store

  const MonthNames: seq<string> := ["January", "February", "March", "April", "May", "June",
    "July", "August", "September", "October", "November", "December"]

  datatype View = SixMonths | WholeYear

  /** One card of the window: the month's name, its index 0..11 and its year. */
  datatype MonthCard = MonthCard(name: string, index: int, year: int)

  /** Months counted from year 0: (month, year) pairs in calendar order. */
  function MonthOrdinal(month: int, year: int): int {
    year * 12 + month
  }

  /** A month ordinal names one (month, year) pair with the month in 0..11. */
  lemma OrdinalDetermines(m1: int, y1: int, m2: int, y2: int)
    requires 0 <= m1 < 12 && 0 <= m2 < 12
    requires MonthOrdinal(m1, y1) == MonthOrdinal(m2, y2)
    ensures m1 == m2 && y1 == y2
  {
  }

  /** The component's paging state: the view, `startMonth`, and the parent's
      `futureYear` that `onYearChange` sets (passed back as `currentYear`). */
  class FutureLogView {
    var view: View
    var startMonth: int
    var currentYear: int

    ghost predicate Valid()
      reads this
    {
      0 <= startMonth < 12
    }

    /** The first render: the six-month view starting at the clock's month, in
        the year the parent starts with. */
    constructor (now: Timestamp, year: int)
      ensures Valid()
      ensures view == SixMonths && startMonth == MonthOf(now) && currentYear == year
    {
      MonthOfRange(now);
      view := SixMonths;
      startMonth := MonthOf(now);
      currentYear := year;
    }

    method SetView(v: View)
      modifies this
      ensures view == v && startMonth == old(startMonth) && currentYear == old(currentYear)
    {
      view := v;
    }

    /** `goToPreviousYear`. */
    method GoToPreviousYear()
      modifies this
      ensures currentYear == old(currentYear) - 1
      ensures view == old(view) && startMonth == old(startMonth)
    {
      currentYear := currentYear - 1;
    }

    /** `goToNextYear`. */
    method GoToNextYear()
      modifies this
      ensures currentYear == old(currentYear) + 1
      ensures view == old(view) && startMonth == old(startMonth)
    {
      currentYear := currentYear + 1;
    }

    /** `goToPrevious6Months`: the window starts six months earlier, borrowing
        from the year when the month would go below January. */
    method GoToPrevious6Months()
      requires Valid()
      modifies this
      ensures Valid() && view == old(view)
      ensures MonthOrdinal(startMonth, currentYear) == old(MonthOrdinal(startMonth, currentYear)) - 6
    {
      var newMonth := startMonth - 6;
      if newMonth < 0 {
        startMonth := 12 + newMonth;
        currentYear := currentYear - 1;
      } else {
        startMonth := newMonth;
      }
    }

    /** `goToNext6Months`: the window starts six months later, carrying into
        the year past December. */
    method GoToNext6Months()
      requires Valid()
      modifies this
      ensures Valid() && view == old(view)
      ensures MonthOrdinal(startMonth, currentYear) == old(MonthOrdinal(startMonth, currentYear)) + 6
    {
      var newMonth := startMonth + 6;
      if newMonth >= 12 {
        startMonth := newMonth - 12;
        currentYear := currentYear + 1;
      } else {
        startMonth := newMonth;
      }
    }

    /** Paging forward and then back returns to the same window. */
    method NextThenPrevious()
      requires Valid()
      modifies this
      ensures Valid() && view == old(view)
      ensures startMonth == old(startMonth) && currentYear == old(currentYear)
    {
      ghost var m, y := startMonth, currentYear;
      GoToNext6Months();
      GoToPrevious6Months();
      OrdinalDetermines(startMonth, currentYear, m, y);
    }

    /** Paging back and then forward returns to the same window. */
    method PreviousThenNext()
      requires Valid()
      modifies this
      ensures Valid() && view == old(view)
      ensures startMonth == old(startMonth) && currentYear == old(currentYear)
    {
      ghost var m, y := startMonth, currentYear;
      GoToPrevious6Months();
      GoToNext6Months();
      OrdinalDetermines(startMonth, currentYear, m, y);
    }

    /** `getMonthsToShow`: the twelve months of the year in order, or six
        consecutive months from the start month, running into the next year. */
    method MonthsToShow() returns (cards: seq<MonthCard>)
      requires Valid()
      ensures view == WholeYear ==>
                |cards| == 12 && forall i :: 0 <= i < 12 ==> cards[i] == MonthCard(MonthNames[i], i, currentYear)
      ensures view == SixMonths ==>
                |cards| == 6
                && forall i :: 0 <= i < 6 ==>
                     0 <= cards[i].index < 12 && cards[i].name == MonthNames[cards[i].index]
                     && MonthOrdinal(cards[i].index, cards[i].year) == MonthOrdinal(startMonth, currentYear) + i
    {
      if view == WholeYear {
        var year := currentYear;
        cards := seq(12, i requires 0 <= i < 12 => MonthCard(MonthNames[i], i, year));
      } else {
        cards := [];
        var i := 0;
        while i < 6
          invariant 0 <= i <= 6 && |cards| == i
          invariant forall j :: 0 <= j < i ==>
                      0 <= cards[j].index < 12 && cards[j].name == MonthNames[cards[j].index]
                      && MonthOrdinal(cards[j].index, cards[j].year) == MonthOrdinal(startMonth, currentYear) + j
        {
          var monthIndex := (startMonth + i) % 12;
          var year := if startMonth + i >= 12 then currentYear + 1 else currentYear;
          cards := cards + [MonthCard(MonthNames[monthIndex], monthIndex, year)];
          i := i + 1;
        }
      }
    }
  }

  // ---------------------------------------------------------------------
  // The entries of a card.

  function InCardMonth(m: int, y: int): Entry -> bool {
    (e: Entry) => YearOf(e.date) == y && MonthOf(e.date) == m
  }

  /** `getEntriesForMonth`: the entries (of those passed in) in month m of
      year y, in order. */
  function EntriesForMonth(es: seq<Entry>, m: int, y: int): (r: seq<Entry>)
    ensures forall e :: e in r <==> e in es && YearOf(e.date) == y && MonthOf(e.date) == m
  {
    Filter(es, InCardMonth(m, y))
  }

  /** A card's entries are the monthly view's entries for that month. */
  lemma EntriesForMonthIsMonthly(es: seq<Entry>, t: Timestamp)
    ensures EntriesForMonth(es, MonthOf(t), YearOf(t)) == MonthlyEntries(es, t)
  {
    FilterExt(es, InCardMonth(MonthOf(t), YearOf(t)), InMonth(t));
  }

  datatype MonthStats = MonthStats(total: nat, tasks: nat, events: nat, notes: nat)

  /** `getMonthStats`: the card's entry count and its counts by kind, which
      add up to it. */
  function MonthStatsOf(es: seq<Entry>, m: int, y: int): (s: MonthStats)
    ensures s.tasks + s.events + s.notes == s.total
    ensures s.total == |EntriesForMonth(es, m, y)|
  {
    var monthEntries := EntriesForMonth(es, m, y);
    FilterPartition3(monthEntries, IsKind(Task), IsKind(Event), IsKind(Note));
    MonthStats(|monthEntries|, Count(monthEntries, IsKind(Task)),
               Count(monthEntries, IsKind(Event)), Count(monthEntries, IsKind(Note)))
  }

  /** A count of one for an entry of kind k, else none. */
  function OneIf(e: Entry, k: EntryKind): nat {
    if e.kind == k then 1 else 0
  }

  /** No entries: every counter of every card is 0. */
  lemma MonthStatsEmpty(m: int, y: int)
    ensures MonthStatsOf([], m, y) == MonthStats(0, 0, 0, 0)
  {
  }

  /** One more entry: when it lies in month m of year y it adds one to the
      total and to the counter of its own kind and leaves the other two
      counters alone; otherwise the card's counts stay as they were.  With
      `MonthStatsEmpty` this fixes each counter to the number of the month's
      entries of that kind. */
  lemma MonthStatsSnoc(es: seq<Entry>, e: Entry, m: int, y: int)
    ensures InCardMonth(m, y)(e) ==>
              var s := MonthStatsOf(es, m, y);
              MonthStatsOf(es + [e], m, y)
                == MonthStats(s.total + 1, s.tasks + OneIf(e, Task), s.events + OneIf(e, Event),
                              s.notes + OneIf(e, Note))
    ensures !InCardMonth(m, y)(e) ==> MonthStatsOf(es + [e], m, y) == MonthStatsOf(es, m, y)
  {
    FilterSnoc(es, e, InCardMonth(m, y));
    if InCardMonth(m, y)(e) {
      StatsOfSnoc(EntriesForMonth(es, m, y), e);
    } else {
      assert EntriesForMonth(es, m, y) + [] == EntriesForMonth(es, m, y);
    }
  }

  /** The four counters of a list that gains one entry. */
  lemma StatsOfSnoc(l: seq<Entry>, e: Entry)
    ensures |l + [e]| == |l| + 1
    ensures Count(l + [e], IsKind(Task)) == Count(l, IsKind(Task)) + OneIf(e, Task)
    ensures Count(l + [e], IsKind(Event)) == Count(l, IsKind(Event)) + OneIf(e, Event)
    ensures Count(l + [e], IsKind(Note)) == Count(l, IsKind(Note)) + OneIf(e, Note)
  {
    CountSnoc(l, e, IsKind(Task));
    CountSnoc(l, e, IsKind(Event));
    CountSnoc(l, e, IsKind(Note));
  }

  // ---------------------------------------------------------------------
  // What App passes in.

  /** The cards as App feeds them: App hands the future log only the entries
      of `futureYear` (`getFutureEntries`), so a card of the following year
      filters a list that holds none of its entries. */
  function ShownEntriesAsWritten(all: seq<Entry>, futureYear: int, m: int, y: int): seq<Entry> {
    EntriesForMonth(FutureEntries(all, futureYear), m, y)
  }

  /** Every card of the following year in the six-month view is empty,
      whatever the journal holds. */
  lemma NextYearCardsEmptyAsWritten(all: seq<Entry>, futureYear: int, m: int)
    ensures ShownEntriesAsWritten(all, futureYear, m, futureYear + 1) == []
  {
    var shown := FutureEntries(all, futureYear);
    forall i | 0 <= i < |shown|
      ensures !InCardMonth(m, futureYear + 1)(shown[i])
    {
      assert shown[i] in shown;
    }
    FilterEmpty(shown, InCardMonth(m, futureYear + 1));
  }

  /** A January entry of the next year exists, yet its card shows nothing. */
  lemma NextYearEntryMissed(all: seq<Entry>, futureYear: int, e: Entry)
    requires e in all && YearOf(e.date) == futureYear + 1 && MonthOf(e.date) == 0
    ensures e !in ShownEntriesAsWritten(all, futureYear, 0, futureYear + 1)
    ensures e in ShownEntries(all, 0, futureYear + 1)
  {
    NextYearCardsEmptyAsWritten(all, futureYear, 0);
  }

  /** The cards as intended: each card filters the whole journal, so it shows
      every entry of its month; for the months of `futureYear` this is what
      the app shows already. */
  function ShownEntries(all: seq<Entry>, m: int, y: int): (r: seq<Entry>)
    ensures forall e :: e in r <==> e in all && YearOf(e.date) == y && MonthOf(e.date) == m
  {
    EntriesForMonth(all, m, y)
  }

  lemma ShownEntriesAgreeInYear(all: seq<Entry>, futureYear: int, m: int)
    ensures ShownEntriesAsWritten(all, futureYear, m, futureYear) == ShownEntries(all, m, futureYear)
  {
    FilterFilter(all, InYear(futureYear), InCardMonth(m, futureYear));
  }

  // ---------------------------------------------------------------------
  // Past and current months.

  /** `isCurrentMonth`: the clock's month and year. */
  predicate IsCurrentMonth(now: Timestamp, m: int, y: int) {
    MonthOf(now) == m && YearOf(now) == y
  }

  /** `isPastMonth`: `new Date(year, monthIndex)` before the first of the
      clock's month, both at local midnight. */
  predicate IsPastMonth(now: Timestamp, m: int, y: int) {
    LocalDate(y, m, 1) < LocalDate(YearOf(now), MonthOf(now), 1)
  }

  /** The first days of months come in the order of the months. */
  lemma MonthStartOrder(y1: int, m1: int, y2: int, m2: int)
    requires 0 <= m1 < 12 && 0 <= m2 < 12
    ensures DayNumber(y1, m1, 1) < DayNumber(y2, m2, 1) <==> MonthOrdinal(m1, y1) < MonthOrdinal(m2, y2)
  {
    if y1 < y2 {
      YearStartMonotone(y1, y2);
      DaysBeforeMonthStep(y1, 11);
    } else if y2 < y1 {
      YearStartMonotone(y2, y1);
      DaysBeforeMonthStep(y2, 11);
    }
  }

  /** `new Date(y, m)` comes before `new Date(ny, nm)` exactly when its
      month does, the years read as `new Date` reads them (0..99 meaning
      1900..1999). */
  lemma LocalMonthOrder(y: int, m: int, ny: int, nm: int)
    requires 0 <= m < 12 && 0 <= nm < 12
    ensures LocalDate(y, m, 1) < LocalDate(ny, nm, 1)
            <==> MonthOrdinal(m, FullYear(y)) < MonthOrdinal(nm, FullYear(ny))
  {
    LocalFirst(y, m);
    LocalFirst(ny, nm);
    var a, b := DayNumber(FullYear(y), m, 1), DayNumber(FullYear(ny), nm, 1);
    MonthStartOrder(FullYear(y), m, FullYear(ny), nm);
    if a < b {
      assert a * MsPerDay < b * MsPerDay;
    } else {
      assert b * MsPerDay <= a * MsPerDay;
    }
  }

  lemma LocalFirst(y: int, m: int)
    requires 0 <= m < 12
    ensures LocalDate(y, m, 1) == DayNumber(FullYear(y), m, 1) * MsPerDay
  {
    assert m / 12 == 0 && m % 12 == m;
  }

  /** A card is past exactly when its month comes before the clock's month. */
  lemma PastMonthIff(now: Timestamp, m: int, y: int)
    requires 0 <= m < 12
    ensures IsPastMonth(now, m, y)
            <==> MonthOrdinal(m, FullYear(y)) < MonthOrdinal(MonthOf(now), FullYear(YearOf(now)))
  {
    MonthOfRange(now);
    LocalMonthOrder(y, m, YearOf(now), MonthOf(now));
  }

  /** No card is both the current month and a past one. */
  lemma CurrentIsNotPast(now: Timestamp, m: int, y: int)
    requires 0 <= m < 12
    ensures IsCurrentMonth(now, m, y) ==> !IsPastMonth(now, m, y)
  {
    PastMonthIff(now, m, y);
  }
}
