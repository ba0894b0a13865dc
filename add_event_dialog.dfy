/** The add-event form: the 500-character guard on the description, the
    remaining-characters counter, and what a submit passes to `onAdd` before
    the form resets and closes. */
module AddEventDialog {
  import opened Common
  import opened Text
  import opened Dates
  import opened Entries
  import Store

  const MaxChars: int := 500

  /** `charsRemaining`: room left in the description, between 0 and 500 for a
      description the guard let through. */
  function CharsRemaining(content: string): (n: int)
    ensures |content| <= MaxChars ==> 0 <= n <= MaxChars
    ensures n + |content| == MaxChars
  {
    MaxChars - |content|
  }

  /** `isNearLimit`: fewer than 50 characters left. */
  predicate IsNearLimit(content: string) {
    CharsRemaining(content) < 50
  }

  /** The counter turns red from the 451st character on. */
  lemma NearLimitFrom451(content: string)
    ensures IsNearLimit(content) <==> |content| > 450
  {
  }

  const DefaultStart: string := "09:00"
  const DefaultEnd: string := "10:00"
  const DefaultPattern: string := "weekly"

  /** The arguments of one `onAdd` call; `None` is `undefined`. */
  datatype AddEventCall = AddEventCall(
    content: string, date: Timestamp, eventTime: Option<string>, eventEndTime: Option<string>,
    isAllDay: bool, category: EventCategory, isRecurring: bool, recurringPattern: Option<string>)

  /** The argument list `handleSubmit` builds from the form. */
  function SubmitCall(content: string, date: Timestamp, startTime: string, endTime: string, isAllDay: bool,
                      category: EventCategory, isRecurring: bool, recurringPattern: string): AddEventCall
  {
    AddEventCall(content, date, if isAllDay then None else Some(startTime), if isAllDay then None else Some(endTime),
                 isAllDay, category, isRecurring, if isRecurring then Some(recurringPattern) else None)
  }

  /** An all-day event has no times and a timed one has both; a pattern is
      passed exactly when the event recurs; the description goes through
      untrimmed. */
  lemma SubmitCallShape(content: string, date: Timestamp, startTime: string, endTime: string, isAllDay: bool,
                        category: EventCategory, isRecurring: bool, recurringPattern: string)
    ensures var c := SubmitCall(content, date, startTime, endTime, isAllDay, category, isRecurring, recurringPattern);
            c.content == content && c.date == date && c.isAllDay == isAllDay
            && (c.eventTime.None? <==> isAllDay) && (c.eventEndTime.None? <==> isAllDay)
            && (!isAllDay ==> c.eventTime == Some(startTime) && c.eventEndTime == Some(endTime))
            && (c.recurringPattern.Some? <==> isRecurring)
            && (isRecurring ==> c.recurringPattern == Some(recurringPattern))
  {
  }

  /** The event row the journal's `addEvent` makes from a submitted call. */
  function EventOf(id: string, c: AddEventCall): Entry {
    Store.NewEvent(id, c.content, c.date, c.eventTime, c.eventEndTime, Some(c.isAllDay), Some(c.category),
                   Some(c.isRecurring), c.recurringPattern)
  }

  /** A submitted all-day event is stored without times, and a one-off event
      without a pattern. */
  lemma StoredEventShape(id: string, content: string, date: Timestamp, startTime: string, endTime: string,
                         isAllDay: bool, category: EventCategory, isRecurring: bool, recurringPattern: string)
    ensures var e := EventOf(id, SubmitCall(content, date, startTime, endTime, isAllDay, category, isRecurring, recurringPattern));
            e.kind == Event && e.content == content && e.state == Incomplete && e.eventState == Some(Upcoming)
            && (isAllDay ==> e.eventTime.None? && e.eventEndTime.None?)
            && (!isRecurring ==> e.recurringPattern.None?)
  {
  }

  class AddEventDialogState {
    const defaultDate: Option<Timestamp>
    var open: bool
    var content: string
    var date: Timestamp
    var startTime: string
    var endTime: string
    var isAllDay: bool
    var category: EventCategory
    var isRecurring: bool
    var recurringPattern: string
    /** The `onAdd` calls made so far. */
    ghost var log: seq<AddEventCall>

    /** The guard keeps the description within 500 characters. */
    ghost predicate Valid()
      reads this
    {
      |content| <= MaxChars
    }

    /** The initial state; `now` is `new Date()` when no default date is given. */
    constructor (defaultDate: Option<Timestamp>, now: Timestamp)
      ensures Valid()
      ensures this.defaultDate == defaultDate && !open && log == []
      ensures content == "" && startTime == DefaultStart && endTime == DefaultEnd && !isAllDay
      ensures category == Other && !isRecurring && recurringPattern == DefaultPattern
      ensures date == if defaultDate.Some? then defaultDate.value else now
    {
      this.defaultDate := defaultDate;
      open := false;
      content := "";
      date := if defaultDate.Some? then defaultDate.value else now;
      startTime := DefaultStart;
      endTime := DefaultEnd;
      isAllDay := false;
      category := Other;
      isRecurring := false;
      recurringPattern := DefaultPattern;
      log := [];
    }

    /** The description's `onChange`: a value longer than 500 characters is
        refused whole, not cut down. */
    method OnContentChange(value: string)
      requires Valid()
      modifies this`content
      ensures Valid()
      ensures |value| <= MaxChars ==> content == value
      ensures |value| > MaxChars ==> content == old(content)
    {
      if |value| <= MaxChars {
        content := value;
      }
    }

    /** `handleSubmit`, `now` standing for `new Date()`: with a blank
        description nothing happens; otherwise `onAdd` gets the form's values,
        the fields reset to their initial values and the dialog closes. */
    method HandleSubmit(now: Timestamp)
      requires Valid()
      modifies this
      ensures Valid()
      ensures IsBlank(old(content)) ==>
                log == old(log) && open == old(open) && content == old(content) && date == old(date)
                && startTime == old(startTime) && endTime == old(endTime) && isAllDay == old(isAllDay)
                && category == old(category) && isRecurring == old(isRecurring)
                && recurringPattern == old(recurringPattern)
      ensures !IsBlank(old(content)) ==>
                log == old(log) + [SubmitCall(old(content), old(date), old(startTime), old(endTime), old(isAllDay),
                                              old(category), old(isRecurring), old(recurringPattern))]
                && !open && content == "" && startTime == DefaultStart && endTime == DefaultEnd && !isAllDay
                && category == Other && !isRecurring && recurringPattern == DefaultPattern
                && date == (if defaultDate.Some? then defaultDate.value else now)
    {
      if !IsBlank(content) {
        log := log + [SubmitCall(content, date, startTime, endTime, isAllDay, category, isRecurring, recurringPattern)];
        content := "";
        startTime := DefaultStart;
        endTime := DefaultEnd;
        isAllDay := false;
        category := Other;
        isRecurring := false;
        recurringPattern := DefaultPattern;
        date := if defaultDate.Some? then defaultDate.value else now;
        open := false;
      }
    }

    /** Enter with Cmd or Ctrl in the description submits, exactly as
        `handleSubmit` does; any other key, or a blank description, leaves
        every field and the callback log as they were. */
    method OnKeyDown(key: string, metaKey: bool, ctrlKey: bool, now: Timestamp)
      requires Valid()
      modifies this
      ensures Valid()
      ensures !(key == "Enter" && (metaKey || ctrlKey)) || IsBlank(old(content)) ==>
                log == old(log) && open == old(open) && content == old(content) && date == old(date)
                && startTime == old(startTime) && endTime == old(endTime) && isAllDay == old(isAllDay)
                && category == old(category) && isRecurring == old(isRecurring)
                && recurringPattern == old(recurringPattern)
      ensures key == "Enter" && (metaKey || ctrlKey) && !IsBlank(old(content)) ==>
                log == old(log) + [SubmitCall(old(content), old(date), old(startTime), old(endTime), old(isAllDay),
                                              old(category), old(isRecurring), old(recurringPattern))]
                && !open && content == "" && startTime == DefaultStart && endTime == DefaultEnd && !isAllDay
                && category == Other && !isRecurring && recurringPattern == DefaultPattern
                && date == (if defaultDate.Some? then defaultDate.value else now)
    {
      if key == "Enter" && (metaKey || ctrlKey) {
        HandleSubmit(now);
      }
    }
  }
}
