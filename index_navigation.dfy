/** The index page: full-text search, the ten most recent entries, the
    priority list, entries grouped by day, the `#tag` cloud with counts, and
    the bookmarked dates. */
module IndexNavigation {
  import opened Common
  import opened Text
  import opened Dates
  import opened Entries
  import opened Sorting
  import opened Grouping

  // ---------------------------------------------------------------------
  // Search.

  const SearchLimit: nat := 20

  function MatchesQuery(q: string): Entry -> bool {
    (e: Entry) => Contains(Lower(e.content), q)
  }

  /** `searchResults`: nothing for a blank query; otherwise the first twenty
      entries, in input order, whose lower-cased content contains the
      lower-cased (untrimmed) query. */
  function SearchResults(es: seq<Entry>, query: string): (r: seq<Entry>)
    ensures IsBlank(query) ==> r == []
    ensures |r| <= SearchLimit
    ensures forall e :: e in r ==> e in es && Contains(Lower(e.content), Lower(query))
    ensures !IsBlank(query) ==>
              r <= Filter(es, MatchesQuery(Lower(query)))
              && |r| == if |Filter(es, MatchesQuery(Lower(query)))| < SearchLimit
                        then |Filter(es, MatchesQuery(Lower(query)))| else SearchLimit
  {
    if IsBlank(query) then []
    else
      var matches := Filter(es, MatchesQuery(Lower(query)));
      var r := Take(matches, SearchLimit);
      assert forall e :: e in r ==> e in matches;
      r
  }

  lemma LowerTwice(s: string)
    ensures Lower(Lower(s)) == Lower(s)
  {
  }

  /** Case folding keeps white space and everything else that is not a
      capital letter, so a query is blank exactly when its lower case is. */
  lemma LowerBlank(s: string)
    ensures IsBlank(Lower(s)) <==> IsBlank(s)
  {
    forall i | 0 <= i < |s|
      ensures IsWhitespace(Lower(s)[i]) <==> IsWhitespace(s[i])
    {
      LowerCharWhitespace(s[i]);
    }
  }

  lemma LowerCharWhitespace(c: char)
    ensures IsWhitespace(LowerChar(c)) <==> IsWhitespace(c)
  {
    if 'A' <= c <= 'Z' {
      assert 'a' <= LowerChar(c) <= 'z';
    }
  }

  /** The search ignores the case of the query. */
  lemma SearchIgnoresCase(es: seq<Entry>, query: string)
    ensures SearchResults(es, Lower(query)) == SearchResults(es, query)
  {
    LowerBlank(query);
    LowerTwice(query);
  }

  // ---------------------------------------------------------------------
  // Recent and priority entries.

  const RecentLimit: nat := 10

  /** The comparator `(a, b) => b.date - a.date`: newest first. */
  function NewestFirst(): Entry -> int {
    (e: Entry) => -e.date
  }

  /** `recentEntries`: a sorted copy of the entries, newest first, cut to ten. */
  function RecentEntries(es: seq<Entry>): (r: seq<Entry>)
    ensures |r| == if |es| < RecentLimit then |es| else RecentLimit
    ensures forall i, j :: 0 <= i < j < |r| ==> r[i].date >= r[j].date
    ensures forall e :: e in r ==> e in es
    ensures multiset(r) <= multiset(es)
  {
    var sorted := SortByKey(es, NewestFirst());
    var r := Take(sorted, RecentLimit);
    assert forall e :: e in r ==> e in multiset(r);
    r
  }

  /** An entry left out of the recent list is no newer than any entry in it. */
  lemma RecentAreNewest(es: seq<Entry>, x: Entry, y: Entry)
    requires x in RecentEntries(es) && y in es && y !in RecentEntries(es)
    ensures y.date <= x.date
  {
    var sorted := SortByKey(es, NewestFirst());
    var r := RecentEntries(es);
    assert y in multiset(sorted);
    var k :| 0 <= k < |sorted| && sorted[k] == y;
    var i :| 0 <= i < |r| && r[i] == x;
    assert r == sorted[..|r|];
    assert k >= |r|;
    assert NewestFirst()(sorted[i]) <= NewestFirst()(sorted[k]);
  }

  function IsPriority(): Entry -> bool {
    (e: Entry) => HasSignifier(e, Priority)
  }

  /** `priorityEntries`: the entries whose signifiers include "priority". */
  function PriorityEntries(es: seq<Entry>): (r: seq<Entry>)
    ensures forall e :: e in r <==> e in es && HasSignifier(e, Priority)
    ensures multiset(r) <= multiset(es)
  {
    FilterComplement(es, IsPriority(), (e: Entry) => !HasSignifier(e, Priority));
    Filter(es, IsPriority())
  }

  // ---------------------------------------------------------------------
  // Entries by day.

  const GroupLimit: nat := 30

  /** One `[dateString, entries]` pair of the grouping. `toDateString()` and
      the day number determine each other (the local zone is UTC), so the day
      number stands for the key. */
  datatype DayGroup = DayGroup(day: int, entries: seq<Entry>)

  function EntryDay(): Entry -> int {
    (e: Entry) => Day(e.date)
  }

  function OnDayNumber(d: int): Entry -> bool {
    KeyIs(EntryDay(), d)
  }

  /** The comparator on the keys, newest day first: parsing a `toDateString()`
      gives local midnight of that day, whose order is the day numbers' order. */
  function NewestDayFirst(): DayGroup -> int {
    (g: DayGroup) => -g.day
  }

  /** Each group is determined by its day. */
  ghost predicate KeyedBy(pairs: seq<DayGroup>, grouped: map<int, seq<Entry>>) {
    forall g :: g in pairs ==> g.day in grouped && g.entries == grouped[g.day]
  }

  /** A permutation of distinct groups keyed by their days has strictly
      decreasing days once sorted newest first. */
  lemma SortedGroupsStrict(pairs: seq<DayGroup>, grouped: map<int, seq<Entry>>)
    requires NoDup(pairs) && KeyedBy(pairs, grouped)
    ensures var sorted := SortByKey(pairs, NewestDayFirst());
            (forall g :: g in sorted <==> g in pairs)
            && forall i, j :: 0 <= i < j < |sorted| ==> sorted[i].day > sorted[j].day
  {
    var sorted := SortByKey(pairs, NewestDayFirst());
    NoDupPermutation(pairs, sorted);
    PermutationMembers(pairs, sorted);
    forall i, j | 0 <= i < j < |sorted|
      ensures sorted[i].day > sorted[j].day
    {
      DistinctDays(pairs, grouped, sorted[i], sorted[j]);
      assert NewestDayFirst()(sorted[i]) <= NewestDayFirst()(sorted[j]);
    }
  }

  /** Two different groups keyed by their days are for different days. */
  lemma DistinctDays(pairs: seq<DayGroup>, grouped: map<int, seq<Entry>>, g: DayGroup, h: DayGroup)
    requires KeyedBy(pairs, grouped) && g in pairs && h in pairs && g != h
    ensures g.day != h.day
  {
  }

  /** A cut of a sequence with strictly decreasing days: what is left out is
      older than the last day kept. */
  lemma CutGroups(sorted: seq<DayGroup>, g: DayGroup)
    requires forall i, j :: 0 <= i < j < |sorted| ==> sorted[i].day > sorted[j].day
    requires g in sorted && g !in Take(sorted, GroupLimit)
    ensures |Take(sorted, GroupLimit)| == GroupLimit && g.day < Take(sorted, GroupLimit)[GroupLimit - 1].day
  {
    var r := Take(sorted, GroupLimit);
    assert r == sorted[..|r|];
    var k :| 0 <= k < |sorted| && sorted[k] == g;
    assert k >= |r|;
  }

  /** The first thirty groups of the sorted copy are in strictly decreasing
      order of day, and every group left out is older than all of them. */
  lemma NewestGroups(pairs: seq<DayGroup>, grouped: map<int, seq<Entry>>)
    requires NoDup(pairs) && KeyedBy(pairs, grouped)
    ensures var r := Take(SortByKey(pairs, NewestDayFirst()), GroupLimit);
            (forall g :: g in r ==> g in pairs)
            && (forall i, j :: 0 <= i < j < |r| ==> r[i].day > r[j].day)
            && (forall g :: g in pairs ==> g in r || (|r| == GroupLimit && g.day < r[GroupLimit - 1].day))
  {
    var sorted := SortByKey(pairs, NewestDayFirst());
    SortedGroupsStrict(pairs, grouped);
    var r := Take(sorted, GroupLimit);
    assert r == sorted[..|r|];
    forall g | g in pairs && g !in r
      ensures |r| == GroupLimit && g.day < r[GroupLimit - 1].day
    {
      CutGroups(sorted, g);
    }
  }

  /** `entriesByDate`: one group per day that has entries, holding that day's
      entries in input order; the groups newest day first, at most thirty, and
      every day left out older than the thirtieth. */
  method EntriesByDate(es: seq<Entry>) returns (groups: seq<DayGroup>)
    ensures |groups| <= GroupLimit
    ensures forall i :: 0 <= i < |groups| ==>
              groups[i].entries == Filter(es, OnDayNumber(groups[i].day)) && groups[i].entries != []
    ensures forall i, j :: 0 <= i < j < |groups| ==> groups[i].day > groups[j].day
    ensures forall e :: e in es ==>
              (exists i :: 0 <= i < |groups| && groups[i].day == Day(e.date))
              || (|groups| == GroupLimit && Day(e.date) < groups[GroupLimit - 1].day)
  {
    var keys, grouped := GroupByKey(es, EntryDay());
    var pairs := PairsOf(keys, grouped);
    groups := Take(SortByKey(pairs, NewestDayFirst()), GroupLimit);
    ShownGroups(es, grouped, pairs);
  }

  /** What the page shows of the grouped journal: at most thirty groups,
      each a whole day's entries, newest day first, and any day not shown
      older than all that are. */
  lemma ShownGroups(es: seq<Entry>, grouped: map<int, seq<Entry>>, pairs: seq<DayGroup>)
    requires forall d :: d in grouped ==> grouped[d] == Filter(es, OnDayNumber(d)) && grouped[d] != []
    requires forall e :: e in es ==> Day(e.date) in grouped
    requires NoDup(pairs) && KeyedBy(pairs, grouped)
    requires forall d :: d in grouped ==> DayGroup(d, grouped[d]) in pairs
    ensures var groups := Take(SortByKey(pairs, NewestDayFirst()), GroupLimit);
            |groups| <= GroupLimit
            && (forall i :: 0 <= i < |groups| ==>
                  groups[i].entries == Filter(es, OnDayNumber(groups[i].day)) && groups[i].entries != [])
            && (forall i, j :: 0 <= i < j < |groups| ==> groups[i].day > groups[j].day)
            && (forall e :: e in es ==>
                  (exists i :: 0 <= i < |groups| && groups[i].day == Day(e.date))
                  || (|groups| == GroupLimit && Day(e.date) < groups[GroupLimit - 1].day))
  {
    var groups := Take(SortByKey(pairs, NewestDayFirst()), GroupLimit);
    NewestGroups(pairs, grouped);
    ShownGroupsWhole(es, grouped, pairs, groups);
    ShownGroupsCover(es, grouped, pairs, groups);
  }

  /** Each group shown holds the whole of its day's entries. */
  lemma ShownGroupsWhole(es: seq<Entry>, grouped: map<int, seq<Entry>>, pairs: seq<DayGroup>, groups: seq<DayGroup>)
    requires forall d :: d in grouped ==> grouped[d] == Filter(es, OnDayNumber(d)) && grouped[d] != []
    requires KeyedBy(pairs, grouped) && forall g :: g in groups ==> g in pairs
    ensures forall i :: 0 <= i < |groups| ==>
              groups[i].entries == Filter(es, OnDayNumber(groups[i].day)) && groups[i].entries != []
  {
    forall i | 0 <= i < |groups|
      ensures groups[i].entries == Filter(es, OnDayNumber(groups[i].day)) && groups[i].entries != []
    {
      assert groups[i] in pairs;
    }
  }

  /** Every entry's day is shown, or is older than the last day shown. */
  lemma ShownGroupsCover(es: seq<Entry>, grouped: map<int, seq<Entry>>, pairs: seq<DayGroup>, groups: seq<DayGroup>)
    requires forall e :: e in es ==> Day(e.date) in grouped
    requires forall d :: d in grouped ==> DayGroup(d, grouped[d]) in pairs
    requires forall g :: g in pairs ==> g in groups || (|groups| == GroupLimit && g.day < groups[GroupLimit - 1].day)
    ensures forall e :: e in es ==>
              (exists i :: 0 <= i < |groups| && groups[i].day == Day(e.date))
              || (|groups| == GroupLimit && Day(e.date) < groups[GroupLimit - 1].day)
  {
    forall e | e in es
      ensures (exists i :: 0 <= i < |groups| && groups[i].day == Day(e.date))
              || (|groups| == GroupLimit && Day(e.date) < groups[GroupLimit - 1].day)
    {
      var g := DayGroup(Day(e.date), grouped[Day(e.date)]);
      if g in groups {
        ShownDay(groups, g);
      }
    }
  }

  /** `Array.from(grouped.entries())`: the Map's entries as `[key, list]`
      pairs, in insertion order. */
  method PairsOf(keys: seq<int>, grouped: map<int, seq<Entry>>) returns (pairs: seq<DayGroup>)
    requires NoDup(keys) && forall j :: 0 <= j < |keys| ==> keys[j] in grouped
    requires forall d :: d in grouped ==> d in keys
    ensures NoDup(pairs) && KeyedBy(pairs, grouped)
    ensures forall d :: d in grouped ==> DayGroup(d, grouped[d]) in pairs
  {
    pairs := seq(|keys|, j requires 0 <= j < |keys| => DayGroup(keys[j], grouped[keys[j]]));
    PairsOfKeys(keys, grouped, pairs);
  }

  /** The pairs in key order are keyed, distinct and cover the map. */
  lemma PairsOfKeys(keys: seq<int>, grouped: map<int, seq<Entry>>, pairs: seq<DayGroup>)
    requires NoDup(keys) && forall j :: 0 <= j < |keys| ==> keys[j] in grouped
    requires forall d :: d in grouped ==> d in keys
    requires |pairs| == |keys| && forall j :: 0 <= j < |keys| ==> pairs[j] == DayGroup(keys[j], grouped[keys[j]])
    ensures NoDup(pairs) && KeyedBy(pairs, grouped)
    ensures forall d :: d in grouped ==> DayGroup(d, grouped[d]) in pairs
  {
    forall d | d in grouped
      ensures DayGroup(d, grouped[d]) in pairs
    {
      var j :| 0 <= j < |keys| && keys[j] == d;
      assert pairs[j] == DayGroup(d, grouped[d]);
    }
  }

  lemma ShownDay(groups: seq<DayGroup>, g: DayGroup)
    requires g in groups
    ensures exists i :: 0 <= i < |groups| && groups[i].day == g.day
  {
  }

  // ---------------------------------------------------------------------
  // Tags.

  /** `\w`: an ASCII letter, digit or underscore. */
  predicate IsWordChar(c: char) {
    'a' <= c <= 'z' || 'A' <= c <= 'Z' || '0' <= c <= '9' || c == '_'
  }

  /** A match of `#\w+`. */
  predicate IsTag(t: string) {
    |t| >= 2 && t[0] == '#' && forall k :: 1 <= k < |t| ==> IsWordChar(t[k])
  }

  /** The length of the run of word characters starting at i. */
  function WordRun(s: string, i: nat): (n: nat)
    requires i <= |s|
    ensures i + n <= |s|
    ensures forall k :: i <= k < i + n ==> IsWordChar(s[k])
    ensures i + n == |s| || !IsWordChar(s[i + n])
    decreases |s| - i
  {
    if i < |s| && IsWordChar(s[i]) then 1 + WordRun(s, i + 1) else 0
  }

  /** The match of `#\w+` at position p: a '#', then the whole run of word
      characters after it. */
  function TagAt(s: string, p: nat): string
    requires p + 1 < |s|
  {
    s[p..p + 1 + WordRun(s, p + 1)]
  }

  /** `s.match(/#\w+/g)` from position i on (no match gives the empty list):
      each match is a '#' followed by the longest run of word characters, and
      the search resumes after it. */
  function TagMatchesFrom(s: string, i: nat): (r: seq<string>)
    requires i <= |s|
    ensures forall t :: t in r ==> IsTag(t) && Contains(s, t)
    decreases |s| - i
  {
    if i == |s| then []
    else if s[i] == '#' && i + 1 < |s| && IsWordChar(s[i + 1]) then
      var t := TagAt(s, i);
      ContainsSlice(s, i, i + 1 + WordRun(s, i + 1));
      [t] + TagMatchesFrom(s, i + 1 + WordRun(s, i + 1))
    else TagMatchesFrom(s, i + 1)
  }

  function TagMatches(s: string): seq<string> {
    TagMatchesFrom(s, 0)
  }

  /** Every '#' that a word character follows starts a match, and the match
      runs to the end of the word.  With `TagMatchesSound`, the matches are
      exactly the maximal tokens. */
  lemma {:induction false} TagMatchesComplete(s: string, i: nat, p: nat)
    requires i <= p && p + 1 < |s| && s[p] == '#' && IsWordChar(s[p + 1])
    ensures TagAt(s, p) in TagMatchesFrom(s, i)
    decreases |s| - i
  {
    if i < p {
      if s[i] == '#' && i + 1 < |s| && IsWordChar(s[i + 1]) {
        var n := WordRun(s, i + 1);
        assert !IsWordChar(s[p]);
        TagMatchesComplete(s, i + 1 + n, p);
      } else {
        TagMatchesComplete(s, i + 1, p);
      }
    }
  }
  /** Every match is the maximal token at some '#' that a word character
      follows: no shorter piece of a token is a match. */
  lemma {:induction false} TagMatchesSound(s: string, i: nat, t: string)
    requires i <= |s| && t in TagMatchesFrom(s, i)
    ensures exists p :: i <= p && p + 1 < |s| && s[p] == '#' && IsWordChar(s[p + 1]) && t == TagAt(s, p)
    decreases |s| - i
  {
    if s[i] == '#' && i + 1 < |s| && IsWordChar(s[i + 1]) {
      var j := i + 1 + WordRun(s, i + 1);
      if t != TagAt(s, i) {
        assert t in TagMatchesFrom(s, j);
        TagMatchesSound(s, j, t);
      }
    } else {
      TagMatchesSound(s, i + 1, t);
    }
  }


  /** Every lower-cased match of every entry, entry by entry. */
  function AllTags(es: seq<Entry>): seq<string> {
    if es == [] then [] else AllTags(es[..|es| - 1]) + Map(TagMatches(es[|es| - 1].content), Lower)
  }

  /** `tags`: a Set filled entry by entry with each lower-cased match; its
      iteration order is the order of first occurrence. */
  method Tags(es: seq<Entry>) returns (tags: seq<string>)
    ensures tags == Dedup(AllTags(es))
  {
    tags := [];
    var i := 0;
    while i < |es|
      invariant 0 <= i <= |es| && tags == Dedup(AllTags(es[..i]))
    {
      var matches := TagMatches(es[i].content);
      ghost var before := AllTags(es[..i]);
      var j := 0;
      TagStepStart(before, matches);
      while j < |matches|
        invariant 0 <= j <= |matches|
        invariant tags == Dedup(before + Map(matches[..j], Lower))
      {
        TagStep(before, matches, j);
        tags := SetAdd(tags, Lower(matches[j]));
        j := j + 1;
      }
      AllTagsSnoc(es, i);
      assert matches[..j] == matches;
      i := i + 1;
    }
    assert es[..i] == es;
  }

  lemma TagStepStart(before: seq<string>, ms: seq<string>)
    ensures before + Map(ms[..0], Lower) == before
  {
    assert ms[..0] == [];
  }

  /** One match more for the set. */
  lemma TagStep(before: seq<string>, ms: seq<string>, j: nat)
    requires j < |ms|
    ensures Dedup(before + Map(ms[..j + 1], Lower)) == SetAdd(Dedup(before + Map(ms[..j], Lower)), Lower(ms[j]))
  {
    assert ms[..j + 1] == ms[..j] + [ms[j]];
    MapSnoc(ms[..j], ms[j], Lower);
    assert before + Map(ms[..j + 1], Lower) == (before + Map(ms[..j], Lower)) + [Lower(ms[j])];
    DedupSnoc(before + Map(ms[..j], Lower), Lower(ms[j]));
  }

  /** One entry more for the list of all matches. */
  lemma AllTagsSnoc(es: seq<Entry>, i: nat)
    requires i < |es|
    ensures AllTags(es[..i + 1]) == AllTags(es[..i]) + Map(TagMatches(es[i].content), Lower)
  {
    assert es[..i + 1][..i] == es[..i];
  }

  /** A tag's badge count: entries whose lower-cased content contains it. */
  function TagCount(es: seq<Entry>, tag: string): nat {
    |Filter(es, MatchesQuery(tag))|
  }

  /** An entry contains each of its matches, in lower case too. */
  lemma MatchCounted(e: Entry, m: string)
    requires m in TagMatches(e.content)
    ensures MatchesQuery(Lower(m))(e)
  {
    var c := e.content;
    var p :| OccursAt(c, m, p);
    LowerSlice(c, p, p + |m|);
    assert OccursAt(Lower(c), Lower(m), p);
  }

  /** Every listed tag is counted at least once, since the entry it came from
      contains it. */
  lemma {:induction false} TagCounted(es: seq<Entry>, tag: string)
    requires tag in AllTags(es)
    ensures TagCount(es, tag) >= 1
    decreases |es|
  {
    var n := |es| - 1;
    FilterSnoc(es[..n], es[n], MatchesQuery(tag));
    assert es[..n] + [es[n]] == es;
    if tag in AllTags(es[..n]) {
      TagCounted(es[..n], tag);
    } else {
      MapMembership(TagMatches(es[n].content), Lower);
      var m :| m in TagMatches(es[n].content) && Lower(m) == tag;
      MatchCounted(es[n], m);
    }
  }

  /** The tag list has no repeats, and holds exactly the lower-cased matches. */
  lemma TagsListed(es: seq<Entry>)
    ensures NoDup(Dedup(AllTags(es)))
    ensures forall t :: t in Dedup(AllTags(es)) ==> IsTag(t) && TagCount(es, t) >= 1
  {
    forall t | t in Dedup(AllTags(es))
      ensures IsTag(t) && TagCount(es, t) >= 1
    {
      TagCounted(es, t);
      AllTagsShape(es, t);
    }
  }

  lemma {:induction false} AllTagsShape(es: seq<Entry>, t: string)
    requires t in AllTags(es)
    ensures IsTag(t)
    decreases |es|
  {
    var n := |es| - 1;
    if t in AllTags(es[..n]) {
      AllTagsShape(es[..n], t);
    } else {
      MapMembership(TagMatches(es[n].content), Lower);
    }
  }

  // ---------------------------------------------------------------------
  // The page's state.

  class IndexPage {
    var searchQuery: string
    var bookmarkedDates: seq<string>

    constructor ()
      ensures searchQuery == "" && bookmarkedDates == []
    {
      searchQuery := "";
      bookmarkedDates := [];
    }

    /** The search box, and the badge click that searches for a tag. */
    method SetSearchQuery(q: string)
      modifies this
      ensures searchQuery == q && bookmarkedDates == old(bookmarkedDates)
    {
      searchQuery := q;
    }

    /** `toggleBookmark`: a bookmarked date is removed, another is appended. */
    method ToggleBookmark(dateStr: string)
      modifies this
      ensures bookmarkedDates == Toggle(old(bookmarkedDates), dateStr)
      ensures dateStr in bookmarkedDates <==> dateStr !in old(bookmarkedDates)
      ensures searchQuery == old(searchQuery)
    {
      bookmarkedDates := Toggle(bookmarkedDates, dateStr);
    }

    /** Toggling a date twice gives back the same bookmarks, and the very same
        list when the date was not bookmarked. */
    method ToggleBookmarkTwice(dateStr: string)
      modifies this
      ensures forall d :: d in bookmarkedDates <==> d in old(bookmarkedDates)
      ensures dateStr !in old(bookmarkedDates) ==> bookmarkedDates == old(bookmarkedDates)
      ensures searchQuery == old(searchQuery)
    {
      ToggleTwice(bookmarkedDates, dateStr);
      ToggleBookmark(dateStr);
      ToggleBookmark(dateStr);
    }
  }
}
