/** The monthly log page: month navigation, the 42-cell calendar grid, the
    task list grouped by state, and the handler that applies the migration
    wizard's bulk action to the store. */
module MonthlyLog {
  import opened Common
  import opened Dates
  import opened Entries
  import opened Store
  import opened MigrationWizard

  // ---------------------------------------------------------------------
  // Month navigation.

  /** `goToPreviousMonth`: `setMonth(getMonth() - 1)` on a copy of the shown date. */
  function PreviousMonth(t: Timestamp): Timestamp {
    SetMonth(t, MonthOf(t) - 1)
  }

  /** `goToNextMonth`: `setMonth(getMonth() + 1)`. */
  function NextMonth(t: Timestamp): Timestamp {
    SetMonth(t, MonthOf(t) + 1)
  }

  /** From a day that every month has, the buttons move exactly one month
      back or on (carrying into the year) and keep the day and the time of day. */
  lemma NavigationSteps(t: Timestamp)
    requires DateOf(t) <= 28
    ensures var m := MonthOf(t) + 1;
            YearOf(NextMonth(t)) == YearOf(t) + m / 12 && MonthOf(NextMonth(t)) == m % 12
            && DateOf(NextMonth(t)) == DateOf(t) && TimeInDay(NextMonth(t)) == TimeInDay(t)
    ensures var m := MonthOf(t) - 1;
            YearOf(PreviousMonth(t)) == YearOf(t) + m / 12 && MonthOf(PreviousMonth(t)) == m % 12
            && DateOf(PreviousMonth(t)) == DateOf(t) && TimeInDay(PreviousMonth(t)) == TimeInDay(t)
  {
    SetMonthLanding(t, MonthOf(t) + 1);
    SetMonthLanding(t, MonthOf(t) - 1);
  }

  /** Forward then back returns to the shown date. */
  lemma NextThenPrevious(t: Timestamp)
    requires DateOf(t) <= 28
    ensures PreviousMonth(NextMonth(t)) == t
  {
    MonthOfRange(t);
    NextMonthParts(t);
    PreviousMonthBack(NextMonth(t), YearOf(t), MonthOf(t), DateOf(t));
    SameDayAndTime(PreviousMonth(NextMonth(t)), t);
  }

  /** Back then forward returns to the shown date. */
  lemma PreviousThenNext(t: Timestamp)
    requires DateOf(t) <= 28
    ensures NextMonth(PreviousMonth(t)) == t
  {
    MonthOfRange(t);
    PreviousMonthParts(t);
    NextMonthForward(PreviousMonth(t), YearOf(t), MonthOf(t), DateOf(t));
    SameDayAndTime(NextMonth(PreviousMonth(t)), t);
  }

  lemma NextMonthParts(t: Timestamp)
    requires DateOf(t) <= 28
    ensures var m := MonthOf(t) + 1;
            Day(NextMonth(t)) == DayNumber(YearOf(t) + m / 12, m % 12, DateOf(t))
            && TimeInDay(NextMonth(t)) == TimeInDay(t)
  {
    SetMonthParts(t, MonthOf(t) + 1);
  }

  lemma PreviousMonthParts(t: Timestamp)
    requires DateOf(t) <= 28
    ensures var m := MonthOf(t) - 1;
            Day(PreviousMonth(t)) == DayNumber(YearOf(t) + m / 12, m % 12, DateOf(t))
            && TimeInDay(PreviousMonth(t)) == TimeInDay(t)
  {
    SetMonthParts(t, MonthOf(t) - 1);
  }

  lemma PreviousMonthBack(n: Timestamp, y: int, m: int, d: int)
    requires 0 <= m < 12 && 1 <= d <= 28
    requires Day(n) == DayNumber(y + (m + 1) / 12, (m + 1) % 12, d)
    ensures Day(PreviousMonth(n)) == DayNumber(y, m, d) && TimeInDay(PreviousMonth(n)) == TimeInDay(n)
  {
    SetMonthBack(n, y, m, d);
  }

  lemma NextMonthForward(p: Timestamp, y: int, m: int, d: int)
    requires 0 <= m < 12 && 1 <= d <= 28
    requires Day(p) == DayNumber(y + (m - 1) / 12, (m - 1) % 12, d)
    ensures Day(NextMonth(p)) == DayNumber(y, m, d) && TimeInDay(NextMonth(p)) == TimeInDay(p)
  {
    SetMonthForward(p, y, m, d);
  }

  /** From January 31, "next month" shows March: `setMonth` keeps day 31,
      which runs over the end of February. */
  lemma NextMonthFromJanuary31(t: Timestamp)
    requires MonthOf(t) == 0 && DateOf(t) == 31
    ensures YearOf(NextMonth(t)) == YearOf(t) && MonthOf(NextMonth(t)) == 2
    ensures DateOf(NextMonth(t)) == 31 - MonthLength(YearOf(t), 1)
  {
    SetMonthFromJanuary31(t);
  }

  // ---------------------------------------------------------------------
  // The calendar grid.

  datatype CalendarDay = CalendarDay(day: int, isCurrentMonth: bool, isPrev: bool, date: Timestamp)

  /** The length `Array.from({ length: n })` uses: a negative n gives no elements. */
  function ArrayLength(n: int): nat {
    if n < 0 then 0 else n
  }

  /** `firstDay.getDay()`: how many cells of the previous month lead the grid. */
  function Leading(cm: Timestamp): int {
    WeekDay(LocalDate(YearOf(cm), MonthOf(cm), 1))
  }

  /** `new Date(year, month + 1, 0).getDate()`, the length of the shown month
      (DaysInMonthIsLastDate shows the two agree). */
  function DaysInMonth(cm: Timestamp): int {
    MonthOfRange(cm);
    MonthLength(FullYear(YearOf(cm)), MonthOf(cm))
  }

  /** `new Date(year, month, 0).getDate()`, the length of the previous month
      (PrevMonthLastDayIsDayZero shows the two agree). */
  function PrevMonthLastDay(cm: Timestamp): int {
    LengthOfMonth(FullYear(YearOf(cm)), MonthOf(cm) - 1)
  }

  /** Day 0 of the next month is the last day of the shown month. */
  lemma DaysInMonthIsLastDate(cm: Timestamp)
    ensures DaysInMonth(cm) == DateOf(LocalDate(YearOf(cm), MonthOf(cm) + 1, 0))
  {
    MonthOfRange(cm);
    LocalLastDay(YearOf(cm), MonthOf(cm));
  }

  /** Day 0 of the shown month is the last day of the previous month. */
  lemma PrevMonthLastDayIsDayZero(cm: Timestamp)
    ensures PrevMonthLastDay(cm) == DateOf(LocalDate(YearOf(cm), MonthOf(cm), 0))
  {
    LocalDayZero(YearOf(cm), MonthOf(cm));
  }

  /** A leading cell: day d of the previous month. */
  function PrevCell(year: int, month: int, d: int): CalendarDay {
    CalendarDay(d, false, true, LocalDate(year, month - 1, d))
  }

  /** A cell of the shown month. */
  function CurrentCell(year: int, month: int, d: int): CalendarDay {
    CalendarDay(d, true, false, LocalDate(year, month, d))
  }

  /** A trailing cell: day d of the next month. */
  function NextCell(year: int, month: int, d: int): CalendarDay {
    CalendarDay(d, false, false, LocalDate(year, month + 1, d))
  }

  /** The grid built from the shown year and month, the weekday of the first,
      the length of the month and the last day of the previous month. */
  function Grid(year: int, month: int, start: int, days: int, prevLast: int): (cells: seq<CalendarDay>)
    requires 0 <= start < 7 && days <= 31
    ensures |cells| == 42
  {
    var prev := seq(ArrayLength(start), i => PrevCell(year, month, prevLast - start + i + 1));
    var current := seq(ArrayLength(days), i => CurrentCell(year, month, i + 1));
    var remaining := 42 - (|prev| + |current|);
    var next := seq(ArrayLength(remaining), i => NextCell(year, month, i + 1));
    prev + current + next
  }

  /** `getCalendarDays`: previous-month days, the month's days, and
      next-month days up to six weeks. */
  function CalendarDays(cm: Timestamp): (cells: seq<CalendarDay>)
    ensures |cells| == 42
  {
    Grid(YearOf(cm), MonthOf(cm), Leading(cm), DaysInMonth(cm), PrevMonthLastDay(cm))
  }

  /** What the grid's arguments are in calendar terms. */
  predicate GridArgs(year: int, month: int, start: int, days: int, prevLast: int) {
    0 <= month < 12
    && start == (MakeDay(FullYear(year), month, 1) + 4) % 7
    && days == MonthLength(FullYear(year), month)
    && prevLast == LengthOfMonth(FullYear(year), month - 1)
  }

  /** The shown date's grid arguments are those. */
  lemma CalendarArgs(cm: Timestamp)
    ensures GridArgs(YearOf(cm), MonthOf(cm), Leading(cm), DaysInMonth(cm), PrevMonthLastDay(cm))
  {
    MonthOfRange(cm);
    LocalFirstWeekDay(YearOf(cm), MonthOf(cm));
  }

  /** The layout of any grid: `start` previous-month cells, then days
      1..days flagged current and in order, then next-month days from 1. */
  lemma GridLayout(year: int, month: int, start: int, days: int, prevLast: int)
    requires 0 <= start < 7 && 0 <= days <= 31
    ensures var cells := Grid(year, month, start, days, prevLast);
            (forall k :: 0 <= k < 42 ==> (cells[k].isPrev <==> k < start))
            && (forall k :: 0 <= k < 42 ==> (cells[k].isCurrentMonth <==> start <= k < start + days))
            && (forall k :: start <= k < start + days ==> cells[k].day == k - start + 1)
            && (forall k :: start + days <= k < 42 ==> cells[k].day == k - start - days + 1)
  {
    forall k | 0 <= k < 42 {
      GridAt(year, month, start, days, prevLast, k);
    }
  }

  /** The layout: Leading(cm) previous-month cells, the days 1..n of the month
      flagged as current and in order, then next-month days counted from 1;
      the trailing count is never negative. */
  lemma CalendarLayout(cm: Timestamp)
    ensures var cells := CalendarDays(cm);
            var s := Leading(cm);
            var n := DaysInMonth(cm);
            0 <= s < 7 && 28 <= n <= 31 && s + n <= 42
            && (forall k :: 0 <= k < 42 ==> (cells[k].isPrev <==> k < s))
            && (forall k :: 0 <= k < 42 ==> (cells[k].isCurrentMonth <==> s <= k < s + n))
            && (forall k :: s <= k < s + n ==> cells[k].day == k - s + 1)
            && (forall k :: s + n <= k < 42 ==> cells[k].day == k - s - n + 1)
  {
    CalendarArgs(cm);
    GridLayout(YearOf(cm), MonthOf(cm), Leading(cm), DaysInMonth(cm), PrevMonthLastDay(cm));
  }

  /** Cell k of a grid, read off by position. */
  lemma GridAt(year: int, month: int, start: int, days: int, prevLast: int, k: int)
    requires 0 <= start < 7 && 0 <= days <= 31 && 0 <= k < 42
    ensures var cells := Grid(year, month, start, days, prevLast);
            (k < start ==> cells[k] == PrevCell(year, month, prevLast - start + k + 1))
            && (start <= k < start + days ==> cells[k] == CurrentCell(year, month, k - start + 1))
            && (start + days <= k ==> cells[k] == NextCell(year, month, k - start - days + 1))
  {
  }

  /** The first of month m is LengthOfMonth(y, m - 1) days after the first of m - 1. */
  lemma PrevMonthSpan(y: int, m: int)
    ensures MakeDay(y, m, 1) == MakeDay(y, m - 1, 1) + LengthOfMonth(y, m - 1)
  {
    MakeDayStep(y, m - 1);
    assert m - 1 + 1 == m;
  }

  /** Day numbers of the three kinds of cell, each counted from the first of the month. */
  lemma PrevCellDay(year: int, month: int, start: int, prevLast: int, k: int)
    requires prevLast == LengthOfMonth(FullYear(year), month - 1)
    ensures Day(LocalDate(year, month - 1, prevLast - start + k + 1)) == MakeDay(FullYear(year), month, 1) - start + k
  {
    LocalDateDay(year, month - 1, prevLast - start + k + 1);
    PrevMonthSpan(FullYear(year), month);
  }

  lemma CurrentCellDay(year: int, month: int, start: int, k: int)
    ensures Day(LocalDate(year, month, k - start + 1)) == MakeDay(FullYear(year), month, 1) - start + k
  {
    LocalDateDay(year, month, k - start + 1);
  }

  lemma NextCellDay(year: int, month: int, start: int, days: int, k: int)
    requires days == LengthOfMonth(FullYear(year), month)
    ensures Day(LocalDate(year, month + 1, k - start - days + 1)) == MakeDay(FullYear(year), month, 1) - start + k
  {
    LocalDateDay(year, month + 1, k - start - days + 1);
    MakeDayStep(FullYear(year), month);
  }

  /** In a month, MonthLength and LengthOfMonth agree. */
  lemma InYearLength(y: int, m: int)
    requires 0 <= m < 12
    ensures LengthOfMonth(y, m) == MonthLength(y, m)
  {
    assert m / 12 == 0 && m % 12 == m;
  }

  /** In any grid with calendar arguments, cell k is day k of a run of 42
      consecutive days starting `start` days before the first. */
  lemma GridDates(year: int, month: int, start: int, days: int, prevLast: int)
    requires GridArgs(year, month, start, days, prevLast)
    ensures var cells := Grid(year, month, start, days, prevLast);
            forall k :: 0 <= k < 42 ==>
              Day(cells[k].date) == MakeDay(FullYear(year), month, 1) - start + k
              && TimeInDay(cells[k].date) == 0
  {
    var cells := Grid(year, month, start, days, prevLast);
    InYearLength(FullYear(year), month);
    forall k | 0 <= k < 42
      ensures Day(cells[k].date) == MakeDay(FullYear(year), month, 1) - start + k
      ensures TimeInDay(cells[k].date) == 0
    {
      GridAt(year, month, start, days, prevLast, k);
      if k < start {
        PrevCellDay(year, month, start, prevLast, k);
      } else if k < start + days {
        CurrentCellDay(year, month, start, k);
      } else {
        NextCellDay(year, month, start, days, k);
      }
    }
  }

  /** The grid's year: `new Date(year, ...)` reads a year 0..99 as 19yy. */
  function GridYear(cm: Timestamp): int {
    FullYear(YearOf(cm))
  }

  /** The day number of the grid's first of the month. */
  function GridFirst(cm: Timestamp): int {
    MakeDay(GridYear(cm), MonthOf(cm), 1)
  }

  /** Every cell's date in day numbers: the grid counts on one day per cell
      from the Sunday on or before the first. */
  lemma CalendarDates(cm: Timestamp)
    ensures var cells := CalendarDays(cm);
            forall k :: 0 <= k < 42 ==>
              Day(cells[k].date) == GridFirst(cm) - Leading(cm) + k && TimeInDay(cells[k].date) == 0
  {
    CalendarArgs(cm);
    GridDates(YearOf(cm), MonthOf(cm), Leading(cm), DaysInMonth(cm), PrevMonthLastDay(cm));
  }

  lemma GridWeekdays(year: int, month: int, start: int, days: int, prevLast: int)
    requires GridArgs(year, month, start, days, prevLast)
    ensures var cells := Grid(year, month, start, days, prevLast);
            forall k :: 0 <= k < 42 ==> WeekDay(cells[k].date) == k % 7
  {
    var cells := Grid(year, month, start, days, prevLast);
    var f := MakeDay(FullYear(year), month, 1);
    GridDates(year, month, start, days, prevLast);
    forall k | 0 <= k < 42
      ensures WeekDay(cells[k].date) == k % 7
    {
      WeekdayStep(f, start, k);
    }
  }

  /** Counting on from the weekday of the first of the month. */
  lemma WeekdayStep(f: int, start: int, k: int)
    requires start == (f + 4) % 7
    ensures (f - start + k + 4) % 7 == k % 7
  {
    var q := (f + 4) / 7;
    assert f + 4 == 7 * q + start;
    assert f - start + k + 4 == 7 * q + k;
  }

  /** Columns follow the Sun..Sat header: cell k falls on weekday k % 7. */
  lemma CalendarWeekdays(cm: Timestamp)
    ensures var cells := CalendarDays(cm);
            forall k :: 0 <= k < 42 ==> WeekDay(cells[k].date) == k % 7
  {
    CalendarArgs(cm);
    GridWeekdays(YearOf(cm), MonthOf(cm), Leading(cm), DaysInMonth(cm), PrevMonthLastDay(cm));
  }

  lemma GridDayNumbers(year: int, month: int, start: int, days: int, prevLast: int)
    requires GridArgs(year, month, start, days, prevLast)
    ensures var cells := Grid(year, month, start, days, prevLast);
            forall k :: 0 <= k < 42 ==>
              cells[k].day == DateOf(cells[k].date)
              && (cells[k].isCurrentMonth <==>
                    YearOf(cells[k].date) == FullYear(year) && MonthOf(cells[k].date) == month)
  {
    InYearLength(FullYear(year), month);
    GridHasShape(year, month, start, days, prevLast);
    ShapeCivil(Grid(year, month, start, days, prevLast), year, month, start, days, prevLast);
  }

  /** Cells laid out as a grid lays them out. */
  predicate GridShape(cells: seq<CalendarDay>, year: int, month: int, start: int, days: int, prevLast: int) {
    |cells| == 42
    && forall k :: 0 <= k < 42 ==>
         (k < start ==> cells[k] == PrevCell(year, month, prevLast - start + k + 1))
         && (start <= k < start + days ==> cells[k] == CurrentCell(year, month, k - start + 1))
         && (start + days <= k ==> cells[k] == NextCell(year, month, k - start - days + 1))
  }

  lemma GridHasShape(year: int, month: int, start: int, days: int, prevLast: int)
    requires 0 <= start < 7 && 0 <= days <= 31
    ensures GridShape(Grid(year, month, start, days, prevLast), year, month, start, days, prevLast)
  {
    forall k | 0 <= k < 42 {
      GridAt(year, month, start, days, prevLast, k);
    }
  }

  lemma ShapeCivil(cells: seq<CalendarDay>, year: int, month: int, start: int, days: int, prevLast: int)
    requires 0 <= month < 12 && 0 <= start < 7
    requires days == MonthLength(FullYear(year), month) && days == LengthOfMonth(FullYear(year), month)
    requires prevLast == LengthOfMonth(FullYear(year), month - 1)
    requires GridShape(cells, year, month, start, days, prevLast)
    ensures forall k :: 0 <= k < 42 ==>
              cells[k].day == DateOf(cells[k].date)
              && (cells[k].isCurrentMonth <==>
                    YearOf(cells[k].date) == FullYear(year) && MonthOf(cells[k].date) == month)
  {
    forall k | 0 <= k < 42 {
      ShapeCellCivil(cells, year, month, start, days, prevLast, k);
    }
  }

  lemma ShapeCellCivil(cells: seq<CalendarDay>, year: int, month: int, start: int, days: int, prevLast: int, k: int)
    requires 0 <= month < 12 && 0 <= start < 7 && 0 <= k < 42
    requires days == MonthLength(FullYear(year), month) && days == LengthOfMonth(FullYear(year), month)
    requires prevLast == LengthOfMonth(FullYear(year), month - 1)
    requires GridShape(cells, year, month, start, days, prevLast)
    ensures cells[k].day == DateOf(cells[k].date)
    ensures cells[k].isCurrentMonth <==> YearOf(cells[k].date) == FullYear(year) && MonthOf(cells[k].date) == month
  {
    if k < start {
      PrevCellCivil(year, month, prevLast - start + k + 1);
    } else if k < start + days {
      CurrentCellCivil(year, month, k - start + 1);
    } else {
      NextCellCivil(year, month, k - start - days + 1);
    }
  }

  /** Each kind of cell shows the day of the month of its date, and only a
      cell of the shown month has a date in that month. */
  lemma PrevCellCivil(year: int, month: int, d: int)
    requires 0 <= month < 12 && 1 <= d <= LengthOfMonth(FullYear(year), month - 1)
    ensures var c := PrevCell(year, month, d);
            c.day == DateOf(c.date) && !(YearOf(c.date) == FullYear(year) && MonthOf(c.date) == month)
  {
    LocalDateCivil(year, month - 1, d);
    OtherMonth(month, month - 1);
  }

  lemma CurrentCellCivil(year: int, month: int, d: int)
    requires 0 <= month < 12 && 1 <= d <= MonthLength(FullYear(year), month)
    ensures var c := CurrentCell(year, month, d);
            c.day == DateOf(c.date) && YearOf(c.date) == FullYear(year) && MonthOf(c.date) == month
  {
    LocalDateCivil(year, month, d);
    assert month / 12 == 0 && month % 12 == month;
  }

  lemma NextCellCivil(year: int, month: int, d: int)
    requires 0 <= month < 12 && 1 <= d <= LengthOfMonth(FullYear(year), month + 1)
    ensures var c := NextCell(year, month, d);
            c.day == DateOf(c.date) && !(YearOf(c.date) == FullYear(year) && MonthOf(c.date) == month)
  {
    LocalDateCivil(year, month + 1, d);
    OtherMonth(month, month + 1);
  }

  /** The month before or after month m is another month. */
  lemma OtherMonth(m: int, n: int)
    requires 0 <= m < 12 && (n == m - 1 || n == m + 1)
    ensures n % 12 != m
  {
    if n == -1 {
      assert n % 12 == 11;
    } else if n == 12 {
      assert n % 12 == 0;
    } else {
      assert n % 12 == n;
    }
  }

  /** The number shown in each cell is the day of the month of its date, and
      a cell is flagged current exactly when its date is in the grid's month. */
  lemma CalendarDayNumbers(cm: Timestamp)
    ensures var cells := CalendarDays(cm);
            forall k :: 0 <= k < 42 ==>
              cells[k].day == DateOf(cells[k].date)
              && (cells[k].isCurrentMonth <==>
                    YearOf(cells[k].date) == GridYear(cm) && MonthOf(cells[k].date) == MonthOf(cm))
  {
    CalendarArgs(cm);
    GridDayNumbers(YearOf(cm), MonthOf(cm), Leading(cm), DaysInMonth(cm), PrevMonthLastDay(cm));
  }

  /** `getEntriesForDay`: the entries on the cell's calendar day
      (`toDateString` equality), in order. */
  function EntriesForDay(es: seq<Entry>, date: Timestamp): (r: seq<Entry>)
    ensures forall e :: e in r <==> e in es && Day(e.date) == Day(date)
  {
    DailyEntries(es, date)
  }

  /** Cells dated one day apart from `first - start` on, with the month's
      `days` cells flagged current from `start`: a day of the month falls in
      exactly one cell, a current one. */
  lemma DatedCellsEntry(cells: seq<CalendarDay>, first: int, start: int, days: int, es: seq<Entry>, e: Entry)
    requires |cells| == 42 && 0 <= start && start + days <= 42
    requires forall k :: 0 <= k < 42 ==> Day(cells[k].date) == first - start + k
    requires forall k :: 0 <= k < 42 ==> (cells[k].isCurrentMonth <==> start <= k < start + days)
    requires e in es && first <= Day(e.date) < first + days
    ensures var k := Day(e.date) - first + start;
            0 <= k < 42 && cells[k].isCurrentMonth && e in EntriesForDay(es, cells[k].date)
            && forall j :: 0 <= j < 42 && j != k ==> e !in EntriesForDay(es, cells[j].date)
  {
  }

  lemma GridEntry(cells: seq<CalendarDay>, year: int, month: int, start: int, days: int, prevLast: int,
                  first: int, es: seq<Entry>, e: Entry)
    requires GridArgs(year, month, start, days, prevLast)
    requires cells == Grid(year, month, start, days, prevLast) && first == MakeDay(FullYear(year), month, 1)
    requires e in es && first <= Day(e.date) < first + days
    ensures var k := Day(e.date) - first + start;
            0 <= k < 42 && cells[k].isCurrentMonth && e in EntriesForDay(es, cells[k].date)
            && forall j :: 0 <= j < 42 && j != k ==> e !in EntriesForDay(es, cells[j].date)
  {
    GridLayout(year, month, start, days, prevLast);
    GridDates(year, month, start, days, prevLast);
    DatedCellsEntry(cells, first, start, days, es, e);
  }

  /** A date of month m of year y lies in the month's run of day numbers. */
  lemma InShownMonth(y: int, m: int, t: Timestamp)
    requires 0 <= m < 12 && YearOf(t) == y && MonthOf(t) == m
    ensures MakeDay(y, m, 1) <= Day(t) < MakeDay(y, m, 1) + MonthLength(y, m)
  {
    assert MakeDay(y, m, 1) == DayNumber(y, m, 1) by {
      assert m / 12 == 0 && m % 12 == m;
    }
    InMonthIff(y, m, Day(t));
  }

  lemma EntryArgs(cm: Timestamp, e: Entry)
    requires !(0 <= YearOf(cm) <= 99)
    requires YearOf(e.date) == YearOf(cm) && MonthOf(e.date) == MonthOf(cm)
    ensures GridArgs(YearOf(cm), MonthOf(cm), Leading(cm), DaysInMonth(cm), PrevMonthLastDay(cm))
    ensures CalendarDays(cm) == Grid(YearOf(cm), MonthOf(cm), Leading(cm), DaysInMonth(cm), PrevMonthLastDay(cm))
    ensures GridFirst(cm) == MakeDay(FullYear(YearOf(cm)), MonthOf(cm), 1)
    ensures GridFirst(cm) <= Day(e.date) < GridFirst(cm) + DaysInMonth(cm)
  {
    CalendarArgs(cm);
    MonthOfRange(cm);
    InShownMonth(YearOf(cm), MonthOf(cm), e.date);
  }

  /** An entry of the shown month appears under exactly one cell: the
      current-month cell of its own day. */
  lemma EntryInOneCell(es: seq<Entry>, cm: Timestamp, e: Entry)
    requires !(0 <= YearOf(cm) <= 99)
    requires e in es && YearOf(e.date) == YearOf(cm) && MonthOf(e.date) == MonthOf(cm)
    ensures var cells := CalendarDays(cm);
            var k := Day(e.date) - GridFirst(cm) + Leading(cm);
            0 <= k < 42 && cells[k].isCurrentMonth && e in EntriesForDay(es, cells[k].date)
            && forall j :: 0 <= j < 42 && j != k ==> e !in EntriesForDay(es, cells[j].date)
  {
    EntryArgs(cm, e);
    GridEntry(CalendarDays(cm), YearOf(cm), MonthOf(cm), Leading(cm), DaysInMonth(cm), PrevMonthLastDay(cm),
              GridFirst(cm), es, e);
  }

  // ---------------------------------------------------------------------
  // The task list, grouped by state.

  /** `getMonthlyTasks`. */
  function MonthlyTasks(es: seq<Entry>): (r: seq<Entry>)
    ensures forall e :: e in r <==> e in es && e.kind == Task
  {
    Filter(es, IsKind(Task))
  }

  function InState(s: TaskState): Entry -> bool {
    (e: Entry) => e.state == s
  }

  datatype StatusGroup = StatusGroup(state: TaskState, tasks: seq<Entry>)

  /** One heading of the list: rendered only when some task has the state. */
  function GroupOf(tasks: seq<Entry>, s: TaskState): seq<StatusGroup> {
    var inState := Filter(tasks, InState(s));
    if inState == [] then [] else [StatusGroup(s, inState)]
  }

  /** The list's headings, in the order incomplete, complete, scheduled,
      migrated, cancelled. */
  function StatusGroups(tasks: seq<Entry>): (r: seq<StatusGroup>)
    ensures |r| <= 5
    ensures forall g :: g in r ==> g.tasks != [] && g.tasks == Filter(tasks, InState(g.state))
  {
    GroupOf(tasks, Incomplete) + GroupOf(tasks, Complete) + GroupOf(tasks, Scheduled)
      + GroupOf(tasks, Migrated) + GroupOf(tasks, Cancelled)
  }

  function GroupsSize(gs: seq<StatusGroup>): nat {
    if gs == [] then 0 else GroupsSize(gs[..|gs| - 1]) + |gs[|gs| - 1].tasks|
  }

  lemma {:induction false} GroupsSizeAppend(a: seq<StatusGroup>, b: seq<StatusGroup>)
    ensures GroupsSize(a + b) == GroupsSize(a) + GroupsSize(b)
    decreases |b|
  {
    if b == [] {
      assert a + b == a;
    } else {
      assert (a + b)[..|a + b| - 1] == a + b[..|b| - 1];
      GroupsSizeAppend(a, b[..|b| - 1]);
    }
  }

  /** Every task has exactly one of the five states. */
  lemma {:induction false} FiveStates(ts: seq<Entry>)
    ensures |Filter(ts, InState(Incomplete))| + |Filter(ts, InState(Complete))|
            + |Filter(ts, InState(Scheduled))| + |Filter(ts, InState(Migrated))|
            + |Filter(ts, InState(Cancelled))| == |ts|
    decreases |ts|
  {
    if ts != [] {
      FiveStates(ts[..|ts| - 1]);
      FilterLastSize(ts, InState(Incomplete));
      FilterLastSize(ts, InState(Complete));
      FilterLastSize(ts, InState(Scheduled));
      FilterLastSize(ts, InState(Migrated));
      FilterLastSize(ts, InState(Cancelled));
    }
  }

  lemma GroupOfSize(tasks: seq<Entry>, s: TaskState)
    ensures GroupsSize(GroupOf(tasks, s)) == |Filter(tasks, InState(s))|
  {
    var g := GroupOf(tasks, s);
    if g != [] {
      assert g[..0] == [];
    }
  }

  /** The groups' sizes add up to the number of tasks. */
  lemma StatusGroupsSize(tasks: seq<Entry>)
    ensures GroupsSize(StatusGroups(tasks)) == |tasks|
  {
    var a := GroupOf(tasks, Incomplete);
    var b := GroupOf(tasks, Complete);
    var c := GroupOf(tasks, Scheduled);
    var d := GroupOf(tasks, Migrated);
    var e := GroupOf(tasks, Cancelled);
    GroupsSizeAppend(a, b);
    GroupsSizeAppend(a + b, c);
    GroupsSizeAppend(a + b + c, d);
    GroupsSizeAppend(a + b + c + d, e);
    GroupOfSize(tasks, Incomplete);
    GroupOfSize(tasks, Complete);
    GroupOfSize(tasks, Scheduled);
    GroupOfSize(tasks, Migrated);
    GroupOfSize(tasks, Cancelled);
    FiveStates(tasks);
  }

  /** Every task shows under the heading of its own state, and under no other. */
  lemma StatusGroupsPartition(tasks: seq<Entry>, t: Entry)
    requires t in tasks
    ensures StatusGroup(t.state, Filter(tasks, InState(t.state))) in StatusGroups(tasks)
    ensures forall g :: g in StatusGroups(tasks) ==> (t in g.tasks <==> g.state == t.state)
  {
    assert t in Filter(tasks, InState(t.state));
  }

  // ---------------------------------------------------------------------
  // The bulk apply handed to the migration wizard.

  /** One `onUpdateEntry(id, updates)` call. */
  datatype Update = Update(id: string, patch: Patch)

  /** `entries.find(e => e.id === id)`: the first entry with the id. */
  function Find(es: seq<Entry>, id: string): (r: Option<Entry>)
    ensures r.Some? <==> HasId(es, id)
    ensures r.Some? ==> r.value in es && r.value.id == id
    ensures r.Some? ==> exists i :: 0 <= i < |es| && es[i] == r.value && forall j :: 0 <= j < i ==> es[j].id != id
  {
    if es == [] then None
    else if es[0].id == id then Some(es[0])
    else
      var r := Find(es[1..], id);
      assert HasId(es[1..], id) ==> HasId(es, id) by {
        if HasId(es[1..], id) {
          var i :| 0 <= i < |es[1..]| && es[1..][i].id == id;
          assert es[i + 1].id == id;
        }
      }
      assert HasId(es, id) ==> HasId(es[1..], id) by {
        if HasId(es, id) {
          var i :| 0 <= i < |es| && es[i].id == id;
          assert i > 0 && es[1..][i - 1].id == id;
        }
      }
      assert r.Some? ==> exists i :: 0 <= i < |es| && es[i] == r.value && forall j :: 0 <= j < i ==> es[j].id != id by {
        if r.Some? {
          var i :| 0 <= i < |es[1..]| && es[1..][i] == r.value && forall j :: 0 <= j < i ==> es[1..][j].id != id;
          assert es[i + 1] == r.value;
          forall j | 0 <= j < i + 1
            ensures es[j].id != id
          {
            if j > 0 {
              assert es[j] == es[1..][j - 1];
            }
          }
        }
      }
      r
  }

  /** The update one id receives, computed from the entry found. */
  function BulkPatch(e: Entry, action: BulkAction, target: Option<Timestamp>): (r: Option<Patch>)
    ensures r.Some? ==> r.value.id == Keep
    ensures action == MigrateAction && target.Some? ==>
              r.Some? && Apply(e, r.value)
                         == e.(state := Incomplete, date := target.value, migrationCount := Some(MigrationCount(e) + 1))
    ensures action == CancelAction ==> r.Some? && Apply(e, r.value) == e.(state := Cancelled)
    ensures action == ScheduleAction && target.Some? ==>
              r.Some? && Apply(e, r.value)
                         == e.(state := Scheduled, date := target.value, migrationCount := Some(MigrationCount(e) + 1))
    ensures action != CancelAction && target.None? ==> r.None?
  {
    if action == MigrateAction && target.Some? then
      Some(NoChange.(state := Put(Incomplete), date := Put(target.value),
                     migrationCount := Put(Some(MigrationCount(e) + 1))))
    else if action == CancelAction then
      Some(NoChange.(state := Put(Cancelled)))
    else if action == ScheduleAction && target.Some? then
      Some(NoChange.(state := Put(Scheduled), date := Put(target.value),
                     migrationCount := Put(Some(MigrationCount(e) + 1))))
    else None
  }

  /** The calls the `forEach` issues, in order: one per found id that gets a
      patch, so at most one per id of a selection without repeats. */
  function BulkUpdates(shown: seq<Entry>, ids: seq<string>, action: BulkAction,
                       target: Option<Timestamp>): (r: seq<Update>)
    ensures |r| <= |ids|
    ensures forall u :: u in r ==> u.id in ids && HasId(shown, u.id) && u.patch.id == Keep
    ensures NoDup(ids) ==> NoDup(Ids(r))
  {
    if ids == [] then []
    else
      var n := |ids| - 1;
      var id := ids[n];
      var before := BulkUpdates(shown, ids[..n], action, target);
      var entry := Find(shown, id);
      if entry.Some? && BulkPatch(entry.value, action, target).Some? then
        var u := Update(id, BulkPatch(entry.value, action, target).value);
        assert NoDup(ids) ==> NoDup(Ids(before + [u])) by {
          if NoDup(ids) {
            LastIsNew(ids);
            MapSnoc(before, u, IdOf);
            forall j | 0 <= j < |before|
              ensures Ids(before)[j] != id
            {
              assert before[j] in before;
            }
            NoDupSnoc(Ids(before), id);
          }
        }
        before + [u]
      else
        assert NoDup(ids) ==> NoDup(ids[..n]) by {
          if NoDup(ids) {
            LastIsNew(ids);
          }
        }
        before
  }

  /** One more selected id adds at most its own call. */
  lemma BulkUpdatesStep(shown: seq<Entry>, ids: seq<string>, i: nat, action: BulkAction,
                        target: Option<Timestamp>)
    requires i < |ids|
    ensures var before := BulkUpdates(shown, ids[..i], action, target);
            var entry := Find(shown, ids[i]);
            BulkUpdates(shown, ids[..i + 1], action, target)
            == if entry.Some? && BulkPatch(entry.value, action, target).Some?
               then before + [Update(ids[i], BulkPatch(entry.value, action, target).value)]
               else before
  {
    assert ids[..i + 1][..i] == ids[..i];
  }

  /** The calls applied one after the other, each to the state the previous one left. */
  function ApplyUpdates(es: seq<Entry>, us: seq<Update>): (r: seq<Entry>)
    ensures |r| == |es|
  {
    if us == [] then es
    else
      var u := us[|us| - 1];
      UpdateEntries(ApplyUpdates(es, us[..|us| - 1]), u.id, u.patch)
  }

  /** One more call is one more `updateEntry` step. */
  lemma ApplyUpdatesSnoc(es: seq<Entry>, us: seq<Update>, u: Update)
    ensures ApplyUpdates(es, us + [u]) == UpdateEntries(ApplyUpdates(es, us), u.id, u.patch)
  {
    assert (us + [u])[..|us|] == us;
  }

  /** The intended bulk apply: every call lands. */
  function BulkApply(all: seq<Entry>, shown: seq<Entry>, ids: seq<string>, action: BulkAction,
                     target: Option<Timestamp>): seq<Entry> {
    ApplyUpdates(all, BulkUpdates(shown, ids, action, target))
  }

  /** The bulk apply as written: every call maps the same render's `entries`,
      so the state each call sets overwrites the previous one and only the
      last call's change survives. */
  function BulkApplyAsWritten(all: seq<Entry>, shown: seq<Entry>, ids: seq<string>, action: BulkAction,
                              target: Option<Timestamp>): seq<Entry> {
    var us := BulkUpdates(shown, ids, action, target);
    if us == [] then all else UpdateEntries(all, us[|us| - 1].id, us[|us| - 1].patch)
  }

  /** The two calls a bulk cancel of two distinct entries issues. */
  lemma TwoCancels(a: Entry, b: Entry)
    requires a.id != b.id
    ensures BulkUpdates([a, b], [a.id, b.id], CancelAction, None)
            == [Update(a.id, NoChange.(state := Put(Cancelled))), Update(b.id, NoChange.(state := Put(Cancelled)))]
  {
    var es := [a, b];
    assert es[1..] == [b];
    assert Find(es, a.id) == Some(a);
    assert Find(es, b.id) == Some(b);
    assert [a.id, b.id][..1] == [a.id];
    assert [a.id][..0] == [];
  }

  lemma TwoUpdates(es: seq<Entry>, u: Update, v: Update)
    ensures ApplyUpdates(es, [u, v]) == UpdateEntries(UpdateEntries(es, u.id, u.patch), v.id, v.patch)
  {
    assert ApplyUpdates(es, [u]) == UpdateEntries(es, u.id, u.patch) by {
      assert [u][..0] == [];
    }
    assert ApplyUpdates(es, [u, v]) == UpdateEntries(ApplyUpdates(es, [u]), v.id, v.patch) by {
      assert [u, v][..1] == [u];
    }
  }

  /** The witness: cancelling two tasks cancels only the second as written,
      both as intended. */
  lemma AsWrittenKeepsOnlyLast(a: Entry, b: Entry)
    requires a.id != b.id && a.state != Cancelled
    ensures BulkApplyAsWritten([a, b], [a, b], [a.id, b.id], CancelAction, None)[0] == a
    ensures BulkApply([a, b], [a, b], [a.id, b.id], CancelAction, None)[0] == a.(state := Cancelled)
    ensures BulkApply([a, b], [a, b], [a.id, b.id], CancelAction, None)[1] == b.(state := Cancelled)
  {
    TwoCancels(a, b);
    var p := NoChange.(state := Put(Cancelled));
    TwoUpdates([a, b], Update(a.id, p), Update(b.id, p));
  }

  /** Entries with pairwise distinct ids. */
  predicate UniqueIds(es: seq<Entry>) {
    forall i, j :: 0 <= i < j < |es| ==> es[i].id != es[j].id
  }

  /** The patch an id receives from a list of calls (the last one for that id). */
  function PatchFor(us: seq<Update>, id: string): Option<Patch> {
    if us == [] then None
    else if us[|us| - 1].id == id then Some(us[|us| - 1].patch)
    else PatchFor(us[..|us| - 1], id)
  }

  function IdOf(u: Update): string {
    u.id
  }

  function Ids(us: seq<Update>): seq<string> {
    Map(us, IdOf)
  }

  /** What an entry becomes under the last call naming its id, if any. */
  function Received(e: Entry, us: seq<Update>): Entry {
    if PatchFor(us, e.id).Some? then Apply(e, PatchFor(us, e.id).value) else e
  }

  /** A patch received comes from a call naming the id. */
  lemma {:induction false} PatchForIn(us: seq<Update>, id: string)
    requires PatchFor(us, id).Some?
    ensures exists j :: 0 <= j < |us| && us[j].id == id && us[j].patch == PatchFor(us, id).value
    decreases |us|
  {
    if us[|us| - 1].id != id {
      PatchForIn(us[..|us| - 1], id);
      var j :| 0 <= j < |us| - 1 && us[..|us| - 1][j].id == id && us[..|us| - 1][j].patch == PatchFor(us, id).value;
      assert us[j] == us[..|us| - 1][j];
    }
  }

  /** An id no call names receives nothing. */
  lemma {:induction false} PatchForAbsent(us: seq<Update>, id: string)
    requires forall j :: 0 <= j < |us| ==> us[j].id != id
    ensures PatchFor(us, id).None?
    decreases |us|
  {
    if us != [] {
      PatchForAbsent(us[..|us| - 1], id);
    }
  }

  /** With distinct ids, the last call's id is named by no earlier call. */
  lemma LastIdFresh(us: seq<Update>)
    requires us != [] && NoDup(Ids(us))
    ensures NoDup(Ids(us[..|us| - 1])) && PatchFor(us[..|us| - 1], us[|us| - 1].id).None?
  {
    var n := |us| - 1;
    assert Ids(us[..n]) == Ids(us)[..n];
    forall j | 0 <= j < n
      ensures us[..n][j].id != us[n].id
    {
      assert Ids(us)[j] != Ids(us)[n];
    }
    PatchForAbsent(us[..n], us[n].id);
  }

  /** A patch received keeps the id when every call does. */
  lemma ReceivedKeepsId(e: Entry, us: seq<Update>)
    requires forall k :: 0 <= k < |us| ==> us[k].patch.id == Keep
    ensures Received(e, us).id == e.id
  {
    if PatchFor(us, e.id).Some? {
      PatchForIn(us, e.id);
    }
  }

  /** Calls with distinct ids that keep ids: each entry receives its own call's patch, if any. */
  lemma {:induction false} ApplyUpdatesPointwise(es: seq<Entry>, us: seq<Update>)
    requires forall k :: 0 <= k < |us| ==> us[k].patch.id == Keep
    requires NoDup(Ids(us))
    ensures forall i :: 0 <= i < |es| ==> ApplyUpdates(es, us)[i] == Received(es[i], us)
    decreases |us|
  {
    if us != [] {
      var n := |us| - 1;
      var u := us[n];
      LastIdFresh(us);
      ApplyUpdatesPointwise(es, us[..n]);
      var prior := ApplyUpdates(es, us[..n]);
      forall i | 0 <= i < |es|
        ensures ApplyUpdates(es, us)[i] == Received(es[i], us)
      {
        ReceivedKeepsId(es[i], us[..n]);
      }
    }
  }

  /** What the calls of a bulk apply give each id of the shown entries. */
  lemma {:induction false} BulkUpdatesPatchFor(shown: seq<Entry>, ids: seq<string>, action: BulkAction,
                                               target: Option<Timestamp>, e: Entry)
    requires UniqueIds(shown) && e in shown
    ensures PatchFor(BulkUpdates(shown, ids, action, target), e.id)
            == (if e.id in ids then BulkPatch(e, action, target) else None)
    decreases |ids|
  {
    FindUnique(shown, e);
    if ids != [] {
      var n := |ids| - 1;
      var id := ids[n];
      BulkUpdatesPatchFor(shown, ids[..n], action, target, e);
      SplitLast(ids);
      var before := BulkUpdates(shown, ids[..n], action, target);
      var entry := Find(shown, id);
      if entry.Some? && BulkPatch(entry.value, action, target).Some? {
        PatchForSnoc(before, Update(id, BulkPatch(entry.value, action, target).value), e.id);
      }
    }
  }

  lemma PatchForSnoc(us: seq<Update>, u: Update, id: string)
    ensures PatchFor(us + [u], id) == if u.id == id then Some(u.patch) else PatchFor(us, id)
  {
    assert (us + [u])[..|us|] == us;
  }

  /** With distinct ids, `find` returns the entry itself. */
  lemma {:induction false} FindUnique(es: seq<Entry>, e: Entry)
    requires UniqueIds(es) && e in es
    ensures Find(es, e.id) == Some(e)
    decreases |es|
  {
    if es[0] != e {
      assert es[0].id != e.id by {
        var i :| 0 <= i < |es| && es[i] == e;
        assert i > 0;
      }
      assert e in es[1..];
      assert UniqueIds(es[1..]) by {
        forall i, j | 0 <= i < j < |es[1..]|
          ensures es[1..][i].id != es[1..][j].id
        {
          assert es[1..][i] == es[i + 1] && es[1..][j] == es[j + 1];
        }
      }
      FindUnique(es[1..], e);
    }
  }

  /** The intended bulk apply as the app calls it: the ids are looked up
      among the shown entries (the month's), the calls land on the whole
      journal. Each selected shown entry receives its rule's update once;
      every other entry, shown or not, is untouched, and ids without a
      shown entry are skipped. */
  lemma BulkApplyEffect(all: seq<Entry>, shown: seq<Entry>, ids: seq<string>, action: BulkAction,
                        target: Option<Timestamp>)
    requires UniqueIds(all) && UniqueIds(shown) && NoDup(ids)
    requires forall e :: e in shown ==> e in all
    ensures |BulkApply(all, shown, ids, action, target)| == |all|
    ensures forall i :: 0 <= i < |all| ==>
              BulkApply(all, shown, ids, action, target)[i]
              == (if all[i] in shown && all[i].id in ids && BulkPatch(all[i], action, target).Some?
                  then Apply(all[i], BulkPatch(all[i], action, target).value) else all[i])
  {
    var us := BulkUpdates(shown, ids, action, target);
    ApplyUpdatesPointwise(all, us);
    forall i | 0 <= i < |all|
      ensures PatchFor(us, all[i].id)
              == (if all[i] in shown && all[i].id in ids then BulkPatch(all[i], action, target) else None)
    {
      if all[i] in shown {
        BulkUpdatesPatchFor(shown, ids, action, target, all[i]);
      } else {
        forall j | 0 <= j < |us|
          ensures us[j].id != all[i].id
        {
          assert us[j] in us;
          var k :| 0 <= k < |shown| && shown[k].id == us[j].id;
          assert shown[k] in all;
          var m :| 0 <= m < |all| && all[m] == shown[k];
          assert m != i;
        }
        PatchForAbsent(us, all[i].id);
      }
    }
  }

  /** The `onMigrate` closure, with each `onUpdateEntry` call applied to the
      state the previous call left. */
  method OnMigrate(j: Journal, shown: seq<Entry>, ids: seq<string>, action: BulkAction,
                   target: Option<Timestamp>)
    modifies j
    ensures j.entries == BulkApply(old(j.entries), shown, ids, action, target)
    ensures j.collections == old(j.collections)
  {
    var i := 0;
    while i < |ids|
      invariant 0 <= i <= |ids|
      invariant j.entries == ApplyUpdates(old(j.entries), BulkUpdates(shown, ids[..i], action, target))
      invariant j.collections == old(j.collections)
    {
      var id := ids[i];
      BulkUpdatesStep(shown, ids, i, action, target);
      ghost var before := BulkUpdates(shown, ids[..i], action, target);
      var entry := Find(shown, id);
      if entry.Some? {
        var patch := BulkPatch(entry.value, action, target);
        if patch.Some? {
          ApplyUpdatesSnoc(old(j.entries), before, Update(id, patch.value));
          j.UpdateEntry(id, patch.value);
        }
      }
      i := i + 1;
    }
    assert ids[..i] == ids;
  }
}
