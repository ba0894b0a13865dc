/** The application's entry and collection state: each handler replaces the
    `entries` or `collections` array by a map, filter or append over the old
    one.  The new value is given by a pure function; the `Journal` class holds
    the two arrays and its methods replace them. */
module Store {
  import opened Common
  import opened Dates
  import opened Entries

  /** The row `addEntry` builds: given id, the date's instant, state incomplete. */
  function NewEntry(id: string, content: string, kind: EntryKind, date: Timestamp): (e: Entry)
    ensures e.id == id && e.kind == kind && e.content == content && e.date == date
    ensures e.state == Incomplete && MigrationCount(e) == 0 && Signifiers(e) == []
  {
    Entry(id, date, kind, content, Incomplete, None, None, None, None, None, None, None, None, None)
  }

  /** The row `addEvent` builds: an event, state incomplete, event state upcoming. */
  function NewEvent(id: string, content: string, date: Timestamp, eventTime: Option<string>,
                    eventEndTime: Option<string>, isAllDay: Option<bool>,
                    eventCategory: Option<EventCategory>, isRecurring: Option<bool>,
                    recurringPattern: Option<string>): (e: Entry)
    ensures e.id == id && e.kind == Event && e.content == content && e.date == date
    ensures e.state == Incomplete && e.eventState == Some(Upcoming)
    ensures e.eventTime == eventTime && e.eventEndTime == eventEndTime && e.isAllDay == isAllDay
    ensures e.eventCategory == eventCategory && e.isRecurring == isRecurring
    ensures e.recurringPattern == recurringPattern
  {
    Entry(id, date, Event, content, Incomplete, None, None, Some(Upcoming), eventTime,
          eventEndTime, isAllDay, eventCategory, isRecurring, recurringPattern)
  }

  function UpdateIf(id: string, p: Patch): Entry -> Entry {
    (e: Entry) => if e.id == id then Apply(e, p) else e
  }

  /** `entries.map(e => e.id === id ? { ...e, ...updates } : e)`. */
  function UpdateEntries(es: seq<Entry>, id: string, p: Patch): (r: seq<Entry>)
    ensures |r| == |es|
    ensures forall i :: 0 <= i < |es| && es[i].id != id ==> r[i] == es[i]
    ensures forall i :: 0 <= i < |es| && es[i].id == id ==> r[i] == Apply(es[i], p)
  {
    Map(es, UpdateIf(id, p))
  }

  predicate HasId(es: seq<Entry>, id: string) {
    exists i :: 0 <= i < |es| && es[i].id == id
  }

  /** An unknown id changes nothing. */
  lemma UpdateUnknownId(es: seq<Entry>, id: string, p: Patch)
    requires !HasId(es, id)
    ensures UpdateEntries(es, id, p) == es
  {
    var r := UpdateEntries(es, id, p);
    assert forall i :: 0 <= i < |es| ==> r[i] == es[i];
  }

  /** Two updates of the same row, the first keeping its id, are one merged update. */
  lemma UpdateTwice(es: seq<Entry>, id: string, p: Patch, q: Patch)
    requires p.id == Keep || p.id == Put(id)
    ensures UpdateEntries(UpdateEntries(es, id, p), id, q) == UpdateEntries(es, id, Merge(p, q))
  {
    var a := UpdateEntries(UpdateEntries(es, id, p), id, q);
    var b := UpdateEntries(es, id, Merge(p, q));
    forall i | 0 <= i < |es|
      ensures a[i] == b[i]
    {
      if es[i].id == id {
        ApplyMerge(es[i], p, q);
      }
    }
  }

  /** Repeating an update changes nothing more. */
  lemma UpdateIdempotent(es: seq<Entry>, id: string, p: Patch)
    requires p.id == Keep || p.id == Put(id)
    ensures UpdateEntries(UpdateEntries(es, id, p), id, p) == UpdateEntries(es, id, p)
  {
    UpdateTwice(es, id, p, p);
    assert Merge(p, p) == p;
  }

  function IdIsNot(id: string): Entry -> bool {
    (e: Entry) => e.id != id
  }

  /** `entries.filter(e => e.id !== id)`. */
  function RemoveEntries(es: seq<Entry>, id: string): (r: seq<Entry>)
    ensures forall e :: e in r <==> e in es && e.id != id
    ensures multiset(r) + multiset(Filter(es, (e: Entry) => e.id == id)) == multiset(es)
  {
    FilterComplement(es, IdIsNot(id), (e: Entry) => e.id == id);
    Filter(es, IdIsNot(id))
  }

  /** Removing an id nobody has changes nothing; removing twice is removing once. */
  lemma RemoveUnknownId(es: seq<Entry>, id: string)
    requires !HasId(es, id)
    ensures RemoveEntries(es, id) == es
  {
    FilterAll(es, IdIsNot(id));
  }

  lemma RemoveIdempotent(es: seq<Entry>, id: string)
    ensures RemoveEntries(RemoveEntries(es, id), id) == RemoveEntries(es, id)
  {
    FilterAll(Filter(es, IdIsNot(id)), IdIsNot(id));
  }

  /** Deleting the row just added under a fresh id gives the old list back. */
  lemma RemoveAfterAppend(es: seq<Entry>, e: Entry)
    requires !HasId(es, e.id)
    ensures RemoveEntries(es + [e], e.id) == es
  {
    FilterAppend(es, [e], IdIsNot(e.id));
    FilterAll(es, IdIsNot(e.id));
    assert [e][..0] == [];
  }

  /** The removal keeps the order of the rows: it splits over concatenation,
      and a single row survives exactly when its id is another. */
  lemma RemoveEntriesAppend(a: seq<Entry>, b: seq<Entry>, id: string)
    ensures RemoveEntries(a + b, id) == RemoveEntries(a, id) + RemoveEntries(b, id)
  {
    FilterAppend(a, b, IdIsNot(id));
  }

  lemma RemoveEntriesSingle(e: Entry, id: string)
    ensures RemoveEntries([e], id) == (if e.id != id then [e] else [])
  {
    assert [e][..0] == [];
  }

  function OnDay(t: Timestamp): Entry -> bool {
    (e: Entry) => Day(e.date) == Day(t)
  }

  function InMonth(t: Timestamp): Entry -> bool {
    (e: Entry) => MonthOf(e.date) == MonthOf(t) && YearOf(e.date) == YearOf(t)
  }

  function InYear(year: int): Entry -> bool {
    (e: Entry) => YearOf(e.date) == year
  }

  /** The daily view: entries whose `toDateString()` is the viewed day's, in
      order (the local zone is UTC, so that is the same day number). */
  function DailyEntries(es: seq<Entry>, t: Timestamp): (r: seq<Entry>)
    ensures forall e :: e in r <==> e in es && Day(e.date) == Day(t)
  {
    Filter(es, OnDay(t))
  }

  /** The monthly view: same month and same year. */
  function MonthlyEntries(es: seq<Entry>, t: Timestamp): (r: seq<Entry>)
    ensures forall e :: e in r <==> e in es && MonthOf(e.date) == MonthOf(t) && YearOf(e.date) == YearOf(t)
  {
    Filter(es, InMonth(t))
  }

  /** The future log's view: same year. */
  function FutureEntries(es: seq<Entry>, year: int): (r: seq<Entry>)
    ensures forall e :: e in r <==> e in es && YearOf(e.date) == year
  {
    Filter(es, InYear(year))
  }

  /** The views nest: the day's entries of the month view are the day's entries,
      and the month's entries of the year view are the month's entries. */
  lemma ViewsNest(es: seq<Entry>, t: Timestamp)
    ensures DailyEntries(MonthlyEntries(es, t), t) == DailyEntries(es, t)
    ensures MonthlyEntries(FutureEntries(es, YearOf(t)), t) == MonthlyEntries(es, t)
  {
    FilterFilter(es, InMonth(t), OnDay(t));
    FilterFilter(es, InYear(YearOf(t)), InMonth(t));
  }

  /** An appended entry shows up at the end of the daily view of its own day
      and of no other day. */
  lemma DailyAfterAppend(es: seq<Entry>, e: Entry, t: Timestamp)
    ensures DailyEntries(es + [e], t)
         == DailyEntries(es, t) + (if Day(e.date) == Day(t) then [e] else [])
  {
    FilterAppend(es, [e], OnDay(t));
    assert [e][..0] == [];
  }

  // ---------------------------------------------------------------------
  // Collections.

  datatype CollectionItem = CollectionItem(id: string, text: string, checked: bool)
  datatype Collection = Collection(id: string, title: string, items: seq<CollectionItem>)

  function AddCollection(cs: seq<Collection>, id: string, title: string): (r: seq<Collection>)
    ensures |r| == |cs| + 1 && r[..|cs|] == cs
    ensures r[|cs|] == Collection(id, title, [])
  {
    cs + [Collection(id, title, [])]
  }

  function CollectionIdIsNot(id: string): Collection -> bool {
    (c: Collection) => c.id != id
  }

  function DeleteCollection(cs: seq<Collection>, id: string): (r: seq<Collection>)
    ensures forall c :: c in r <==> c in cs && c.id != id
  {
    Filter(cs, CollectionIdIsNot(id))
  }

  /** Deleting keeps the order of the other collections. */
  lemma DeleteCollectionAppend(a: seq<Collection>, b: seq<Collection>, id: string)
    ensures DeleteCollection(a + b, id) == DeleteCollection(a, id) + DeleteCollection(b, id)
  {
    FilterAppend(a, b, CollectionIdIsNot(id));
  }

  /** Deleting a freshly added collection gives the old list back. */
  lemma DeleteAfterAddCollection(cs: seq<Collection>, id: string, title: string)
    requires forall i :: 0 <= i < |cs| ==> cs[i].id != id
    ensures DeleteCollection(AddCollection(cs, id, title), id) == cs
  {
    FilterAppend(cs, [Collection(id, title, [])], CollectionIdIsNot(id));
    FilterAll(cs, CollectionIdIsNot(id));
    assert [Collection(id, title, [])][..0] == [];
  }

  function AppendItemIf(cid: string, item: CollectionItem): Collection -> Collection {
    (c: Collection) => if c.id == cid then c.(items := c.items + [item]) else c
  }

  /** Append an unchecked item to the matching collection. */
  function AddCollectionItem(cs: seq<Collection>, cid: string, iid: string, text: string): (r: seq<Collection>)
    ensures |r| == |cs|
    ensures forall i :: 0 <= i < |cs| ==> r[i].id == cs[i].id && r[i].title == cs[i].title
    ensures forall i :: 0 <= i < |cs| && cs[i].id != cid ==> r[i] == cs[i]
    ensures forall i :: 0 <= i < |cs| && cs[i].id == cid ==>
              |r[i].items| == |cs[i].items| + 1 && r[i].items[..|cs[i].items|] == cs[i].items
              && r[i].items[|cs[i].items|] == CollectionItem(iid, text, false)
  {
    Map(cs, AppendItemIf(cid, CollectionItem(iid, text, false)))
  }

  function FlipIf(iid: string): CollectionItem -> CollectionItem {
    (it: CollectionItem) => if it.id == iid then it.(checked := !it.checked) else it
  }

  function ToggleItemsIf(cid: string, iid: string): Collection -> Collection {
    (c: Collection) => if c.id == cid then c.(items := Map(c.items, FlipIf(iid))) else c
  }

  /** Flip `checked` on the matching item of the matching collection. */
  function ToggleCollectionItem(cs: seq<Collection>, cid: string, iid: string): (r: seq<Collection>)
    ensures |r| == |cs|
    ensures forall i :: 0 <= i < |cs| && cs[i].id != cid ==> r[i] == cs[i]
    ensures forall i :: 0 <= i < |cs| && cs[i].id == cid ==>
              r[i].id == cs[i].id && r[i].title == cs[i].title && |r[i].items| == |cs[i].items|
              && forall j :: 0 <= j < |cs[i].items| ==>
                   r[i].items[j].id == cs[i].items[j].id && r[i].items[j].text == cs[i].items[j].text
                   && (r[i].items[j].checked <==> (cs[i].items[j].checked != (cs[i].items[j].id == iid)))
  {
    Map(cs, ToggleItemsIf(cid, iid))
  }

  /** Toggling the same item twice is the identity. */
  lemma ToggleCollectionItemTwice(cs: seq<Collection>, cid: string, iid: string)
    ensures ToggleCollectionItem(ToggleCollectionItem(cs, cid, iid), cid, iid) == cs
  {
    var once := ToggleCollectionItem(cs, cid, iid);
    var twice := ToggleCollectionItem(once, cid, iid);
    forall i | 0 <= i < |cs|
      ensures twice[i] == cs[i]
    {
      if cs[i].id == cid {
        assert twice[i].items == cs[i].items;
      }
    }
  }

  function ItemIdIsNot(iid: string): CollectionItem -> bool {
    (it: CollectionItem) => it.id != iid
  }

  function RemoveItemIf(cid: string, iid: string): Collection -> Collection {
    (c: Collection) => if c.id == cid then c.(items := Filter(c.items, ItemIdIsNot(iid))) else c
  }

  /** Remove the matching items of the matching collection. */
  function DeleteCollectionItem(cs: seq<Collection>, cid: string, iid: string): (r: seq<Collection>)
    ensures |r| == |cs|
    ensures forall i :: 0 <= i < |cs| && cs[i].id != cid ==> r[i] == cs[i]
    ensures forall i :: 0 <= i < |cs| && cs[i].id == cid ==>
              r[i].id == cs[i].id && r[i].title == cs[i].title
              && forall it :: it in r[i].items <==> it in cs[i].items && it.id != iid
  {
    Map(cs, RemoveItemIf(cid, iid))
  }

  /** Deleting an item just added under a fresh id gives the old collections back. */
  lemma DeleteAfterAddItem(cs: seq<Collection>, cid: string, iid: string, text: string)
    requires forall i, j :: 0 <= i < |cs| && 0 <= j < |cs[i].items| && cs[i].id == cid ==> cs[i].items[j].id != iid
    ensures DeleteCollectionItem(AddCollectionItem(cs, cid, iid, text), cid, iid) == cs
  {
    var added := AddCollectionItem(cs, cid, iid, text);
    var r := DeleteCollectionItem(added, cid, iid);
    forall i | 0 <= i < |cs|
      ensures r[i] == cs[i]
    {
      if cs[i].id == cid {
        var item := CollectionItem(iid, text, false);
        assert added[i].items == cs[i].items + [item];
        FilterAppend(cs[i].items, [item], ItemIdIsNot(iid));
        FilterAll(cs[i].items, ItemIdIsNot(iid));
        assert [item][..0] == [];
      }
    }
  }

  /** The two arrays of application state that the handlers replace. */
  class Journal {
    var entries: seq<Entry>
    var collections: seq<Collection>

    constructor ()
      ensures entries == [] && collections == []
    {
      entries := [];
      collections := [];
    }

    /** `addEntry`; the fresh id is the caller's `crypto.randomUUID()`. */
    method AddEntry(id: string, content: string, kind: EntryKind, date: Timestamp)
      modifies this
      ensures entries == old(entries) + [NewEntry(id, content, kind, date)]
      ensures collections == old(collections)
    {
      entries := entries + [NewEntry(id, content, kind, date)];
    }

    method AddEvent(id: string, content: string, date: Timestamp, eventTime: Option<string>,
                    eventEndTime: Option<string>, isAllDay: Option<bool>,
                    eventCategory: Option<EventCategory>, isRecurring: Option<bool>,
                    recurringPattern: Option<string>)
      modifies this
      ensures entries == old(entries) + [NewEvent(id, content, date, eventTime, eventEndTime,
                                                  isAllDay, eventCategory, isRecurring, recurringPattern)]
      ensures collections == old(collections)
    {
      entries := entries + [NewEvent(id, content, date, eventTime, eventEndTime, isAllDay,
                                     eventCategory, isRecurring, recurringPattern)];
    }

    method UpdateEntry(id: string, p: Patch)
      modifies this
      ensures entries == UpdateEntries(old(entries), id, p)
      ensures collections == old(collections)
    {
      entries := UpdateEntries(entries, id, p);
    }

    method DeleteEntry(id: string)
      modifies this
      ensures entries == RemoveEntries(old(entries), id)
      ensures collections == old(collections)
    {
      entries := RemoveEntries(entries, id);
    }

    method AddCollectionTo(id: string, title: string)
      modifies this
      ensures collections == AddCollection(old(collections), id, title)
      ensures entries == old(entries)
    {
      collections := AddCollection(collections, id, title);
    }

    method DeleteCollectionFrom(id: string)
      modifies this
      ensures collections == DeleteCollection(old(collections), id)
      ensures entries == old(entries)
    {
      collections := DeleteCollection(collections, id);
    }

    method AddItem(cid: string, iid: string, text: string)
      modifies this
      ensures collections == AddCollectionItem(old(collections), cid, iid, text)
      ensures entries == old(entries)
    {
      collections := AddCollectionItem(collections, cid, iid, text);
    }

    method ToggleItem(cid: string, iid: string)
      modifies this
      ensures collections == ToggleCollectionItem(old(collections), cid, iid)
      ensures entries == old(entries)
    {
      collections := ToggleCollectionItem(collections, cid, iid);
    }

    method DeleteItem(cid: string, iid: string)
      modifies this
      ensures collections == DeleteCollectionItem(old(collections), cid, iid)
      ensures entries == old(entries)
    {
      collections := DeleteCollectionItem(collections, cid, iid);
    }
  }
}
