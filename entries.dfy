/** The journal entry record (`BulletEntryData`) and the partial-update
    records that every handler hands to `onUpdate`, applied with object
    spread `{ ...entry, ...updates }`. */
module Entries {
  import opened Common
  import opened Dates

  datatype EntryKind = Task | Event | Note
  datatype TaskState = Incomplete | Complete | Migrated | Scheduled | Cancelled
  datatype EventState = Upcoming | Attended | Missed | EventCancelled | EventMigrated
  datatype Signifier = Priority | Inspiration | Explore
  datatype EventCategory = Meeting | Appointment | Birthday | Deadline | Other

  /** An entry.  `kind` is the record's `type`; optional properties are
      `Option`s; `date` is the instant the ISO date string denotes. */
  datatype Entry = Entry(
    id: string,
    date: Timestamp,
    kind: EntryKind,
    content: string,
    state: TaskState,
    migrationCount: Option<int>,
    signifiers: Option<seq<Signifier>>,
    eventState: Option<EventState>,
    eventTime: Option<string>,
    eventEndTime: Option<string>,
    isAllDay: Option<bool>,
    eventCategory: Option<EventCategory>,
    isRecurring: Option<bool>,
    recurringPattern: Option<string>)

  /** One property of a `Partial<BulletEntryData>`: absent, or given a value
      (an optional property may be given `undefined`, which is `Put(None)`). */
  datatype Field<T> = Keep | Put(value: T)

  function Pick<T>(current: T, f: Field<T>): T {
    if f.Put? then f.value else current
  }

  datatype Patch = Patch(
    id: Field<string>,
    date: Field<Timestamp>,
    kind: Field<EntryKind>,
    content: Field<string>,
    state: Field<TaskState>,
    migrationCount: Field<Option<int>>,
    signifiers: Field<Option<seq<Signifier>>>,
    eventState: Field<Option<EventState>>,
    eventTime: Field<Option<string>>,
    eventEndTime: Field<Option<string>>,
    isAllDay: Field<Option<bool>>,
    eventCategory: Field<Option<EventCategory>>,
    isRecurring: Field<Option<bool>>,
    recurringPattern: Field<Option<string>>)

  /** The empty update `{}`. */
  const NoChange: Patch := Patch(Keep, Keep, Keep, Keep, Keep, Keep, Keep, Keep, Keep, Keep, Keep, Keep, Keep, Keep)

  /** `{ ...e, ...p }`. */
  function Apply(e: Entry, p: Patch): Entry {
    Entry(
      Pick(e.id, p.id), Pick(e.date, p.date), Pick(e.kind, p.kind),
      Pick(e.content, p.content), Pick(e.state, p.state),
      Pick(e.migrationCount, p.migrationCount), Pick(e.signifiers, p.signifiers),
      Pick(e.eventState, p.eventState), Pick(e.eventTime, p.eventTime),
      Pick(e.eventEndTime, p.eventEndTime), Pick(e.isAllDay, p.isAllDay),
      Pick(e.eventCategory, p.eventCategory), Pick(e.isRecurring, p.isRecurring),
      Pick(e.recurringPattern, p.recurringPattern))
  }

  function Over<T>(f: Field<T>, g: Field<T>): Field<T> {
    if g.Put? then g else f
  }

  /** `{ ...p, ...q }`: properties of q win. */
  function Merge(p: Patch, q: Patch): Patch {
    Patch(
      Over(p.id, q.id), Over(p.date, q.date), Over(p.kind, q.kind),
      Over(p.content, q.content), Over(p.state, q.state),
      Over(p.migrationCount, q.migrationCount), Over(p.signifiers, q.signifiers),
      Over(p.eventState, q.eventState), Over(p.eventTime, q.eventTime),
      Over(p.eventEndTime, q.eventEndTime), Over(p.isAllDay, q.isAllDay),
      Over(p.eventCategory, q.eventCategory), Over(p.isRecurring, q.isRecurring),
      Over(p.recurringPattern, q.recurringPattern))
  }

  /** The empty update changes nothing. */
  lemma ApplyNoChange(e: Entry)
    ensures Apply(e, NoChange) == e
  {
  }

  /** Spreading two updates one after the other is spreading their merge. */
  lemma ApplyMerge(e: Entry, p: Patch, q: Patch)
    ensures Apply(Apply(e, p), q) == Apply(e, Merge(p, q))
  {
  }

  /** Spreading the same update twice is spreading it once. */
  lemma ApplyIdempotent(e: Entry, p: Patch)
    ensures Apply(Apply(e, p), p) == Apply(e, p)
  {
    ApplyMerge(e, p, p);
    assert Merge(p, p) == p;
  }

  /** `entry.migrationCount || 0`. */
  function MigrationCount(e: Entry): int {
    if e.migrationCount.Some? then e.migrationCount.value else 0
  }

  /** `entry.signifiers || []`. */
  function Signifiers(e: Entry): seq<Signifier> {
    if e.signifiers.Some? then e.signifiers.value else []
  }

  /** `entry.signifiers?.includes(s)`. */
  predicate HasSignifier(e: Entry, s: Signifier) {
    s in Signifiers(e)
  }

  /** A string property that is present and not "" (JavaScript truthiness). */
  predicate Truthy(s: Option<string>) {
    s.Some? && s.value != ""
  }

  function IdOf(e: Entry): string { e.id }

  function IsKind(k: EntryKind): Entry -> bool {
    (e: Entry) => e.kind == k
  }

  function DateOfEntry(e: Entry): int { e.date }
}
