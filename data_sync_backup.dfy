/** The backup dialog: the Markdown export (entries grouped by month, newest
    month first, then the collections) and the shape check of a JSON backup
    before it replaces the journal. Locale formatting of dates is passed in
    as the functions `longMonth` and `shortDate`, the export date as text. */
module DataSyncBackup {
  import opened Common
  import opened Text
  import opened Dates
  import opened IsoDates
  import opened Entries
  import opened Sorting
  import opened Grouping
  import opened Store

  // ---------------------------------------------------------------------
  // Month keys.

  /** `String(date.getMonth() + 1).padStart(2, "0")`. */
  function MonthField(t: Timestamp): (r: string)
    ensures |r| == 2 && DecimalValue(r) == MonthOf(t) + 1
    ensures forall i :: 0 <= i < |r| ==> IsDigit(r[i])
  {
    MonthOfRange(t);
    NatToStringShort(MonthOf(t) + 1);
    PaddedValue(MonthOf(t) + 1, 2);
    PadZeros(NatToString(MonthOf(t) + 1), 2)
  }

  /** The `reduce` key of an instant: `${getFullYear()}-${month}`. */
  function MonthKey(t: Timestamp): string {
    IntToString(YearOf(t)) + "-" + MonthField(t)
  }

  function EntryMonthKey(e: Entry): string {
    MonthKey(e.date)
  }

  /** The month an instant lies in, counted in months. */
  function YearMonth(t: Timestamp): int {
    YearOf(t) * 12 + MonthOf(t)
  }

  /** What `toLocaleDateString` shows for a date that is not a number. */
  const InvalidDate: string := "Invalid Date"

  /** The section title: the key split at "-", both halves read with
      `parseInt`, and `new Date(year, month - 1)` shown by `longMonth`. */
  function MonthHeading(key: string, longMonth: Timestamp -> string): string {
    var parts := Split(key, '-');
    var year := ParseInt(parts[0]);
    var month := if |parts| >= 2 then ParseInt(parts[1]) else None;
    if year.Some? && month.Some? then longMonth(LocalDate(year.value, month.value - 1, 1))
    else InvalidDate
  }

  /** A key that splits into two numerals names the first of that month. */
  lemma HeadingOfParts(key: string, a: string, b: string, year: int, month: int,
                       longMonth: Timestamp -> string)
    requires Split(key, '-') == [a, b]
    requires ParseInt(a) == Some(year) && ParseInt(b) == Some(month)
    ensures MonthHeading(key, longMonth) == longMonth(LocalDate(year, month - 1, 1))
  {
    var parts := Split(key, '-');
    assert parts[0] == a && |parts| >= 2 && parts[1] == b;
  }

  /** For a year written without a sign, the key reads back as
      `new Date(y, m - 1)`: the first of the instant's month for years of 100
      and above, and of year 1900 + y for years 0..99, which `LocalDate`
      reads as the twentieth century. */
  lemma MonthHeadingOfKey(t: Timestamp, longMonth: Timestamp -> string)
    requires YearOf(t) >= 0
    ensures Split(MonthKey(t), '-') == [NatToString(YearOf(t)), MonthField(t)]
    ensures MonthHeading(MonthKey(t), longMonth) == longMonth(LocalDate(YearOf(t), MonthOf(t), 1))
  {
    var y := NatToString(YearOf(t));
    var m := MonthField(t);
    assert MonthKey(t) == y + ['-'] + m;
    assert '-' !in y && '-' !in m by {
      assert forall i :: 0 <= i < |y| ==> IsDigit(y[i]);
    }
    SplitOnce(y, m, '-');
    ParseNumeral(YearOf(t));
    ParseDigits(m);
    HeadingOfParts(MonthKey(t), y, m, YearOf(t), MonthOf(t) + 1, longMonth);
  }

  /** A year before 0 is written with a minus sign, which the split at "-"
      takes for a separator: the heading shows an invalid date. */
  lemma NegativeYearHeading(t: Timestamp, longMonth: Timestamp -> string)
    requires YearOf(t) < 0
    ensures MonthHeading(MonthKey(t), longMonth) == InvalidDate
  {
    var rest := NatToString(-YearOf(t)) + "-" + MonthField(t);
    assert MonthKey(t) == "-" + rest;
    LeadingSeparator(rest);
    ParseEmpty();
  }

  /** A string that starts with "-" splits into an empty first piece. */
  lemma LeadingSeparator(rest: string)
    ensures Split("-" + rest, '-')[0] == []
  {
    assert IndexOf("-" + rest, '-') == 0;
  }

  /** `parseInt("")` is NaN. */
  lemma ParseEmpty()
    ensures ParseInt([]) == None
  {
    assert TrimStart([]) == [];
  }

  // ---------------------------------------------------------------------
  // String order of the keys.

  /** A string of n digits is worth less than ten to the n. */
  lemma {:induction false} DecimalBound(s: string)
    requires forall i :: 0 <= i < |s| ==> IsDigit(s[i])
    ensures 0 <= DecimalValue(s) < Pow10(|s|)
    decreases |s|
  {
    if s != [] {
      DecimalBound(s[..|s| - 1]);
      DecimalValueCons(s);
      assert Pow10(|s|) == 10 * Pow10(|s| - 1);
    }
  }

  lemma LeadingDigitOrder(a: int, b: int, x: int, y: int, p: int)
    requires 0 <= a < b && 0 <= x < p && 0 <= y && p >= 1
    ensures a * p + x < b * p + y
  {
    assert (a + 1) * p <= b * p;
  }

  /** Equal-length digit strings compare as their values. */
  lemma {:induction false} DigitsLe(x: string, y: string)
    requires |x| == |y|
    requires forall i :: 0 <= i < |x| ==> IsDigit(x[i])
    requires forall i :: 0 <= i < |y| ==> IsDigit(y[i])
    ensures StrLe(x, y) <==> DecimalValue(x) <= DecimalValue(y)
    decreases |x|
  {
    if x != [] {
      DecimalValueCons(x);
      DecimalValueCons(y);
      var p := Pow10(|x| - 1);
      DecimalBound(x[1..]);
      DecimalBound(y[1..]);
      if x[0] == y[0] {
        DigitsLe(x[1..], y[1..]);
      } else if x[0] < y[0] {
        LeadingDigitOrder(DigitValue(x[0]), DigitValue(y[0]), DecimalValue(x[1..]), DecimalValue(y[1..]), p);
      } else {
        LeadingDigitOrder(DigitValue(y[0]), DigitValue(x[0]), DecimalValue(y[1..]), DecimalValue(x[1..]), p);
      }
    }
  }

  /** Strings with prefixes of one length compare by the prefixes, and by
      the rests when the prefixes agree. */
  lemma {:induction false} StrLeAppend(x: string, u: string, y: string, v: string)
    requires |x| == |y|
    ensures StrLe(x + u, y + v) <==> (if x == y then StrLe(u, v) else StrLe(x, y))
    decreases |x|
  {
    if x != [] {
      assert (x + u)[0] == x[0] && (y + v)[0] == y[0];
      assert (x + u)[1..] == x[1..] + u && (y + v)[1..] == y[1..] + v;
      StrLeAppend(x[1..], u, y[1..], v);
      if x[0] == y[0] && x[1..] == y[1..] {
        assert x == y by {
          assert x == [x[0]] + x[1..] && y == [y[0]] + y[1..];
        }
      }
    } else {
      assert x + u == u && y + v == v;
    }
  }

  /** A year of 1000..9999 is written in four digits. */
  lemma FourDigitYear(n: nat)
    requires 1000 <= n <= 9999
    ensures |NatToString(n)| == 4
  {
    var a, b, c := n / 10, n / 100, n / 1000;
    assert a / 10 == b && b / 10 == c;
    assert |NatToString(c)| == 1;
    assert NatToString(b) == NatToString(c) + [DigitChar(b % 10)];
    assert NatToString(a) == NatToString(b) + [DigitChar(a % 10)];
    assert NatToString(n) == NatToString(a) + [DigitChar(n % 10)];
  }

  /** Equal-length digit strings are equal exactly when their values are. */
  lemma DigitsEq(x: string, y: string)
    requires |x| == |y|
    requires forall i :: 0 <= i < |x| ==> IsDigit(x[i])
    requires forall i :: 0 <= i < |y| ==> IsDigit(y[i])
    ensures x == y <==> DecimalValue(x) == DecimalValue(y)
  {
    if DecimalValue(x) == DecimalValue(y) {
      DigitsLe(x, y);
      DigitsLe(y, x);
      StrLeAntisym(x, y);
    }
  }

  /** The year and the month sit on either side of the one "-". */
  lemma KeyFields(y: string, m: string)
    ensures ((y + "-") + m)[..|y|] == y && ((y + "-") + m)[|y| + 1..] == m
  {
  }

  /** Two "Y-M" keys with fields of matching lengths are equal exactly when
      both fields are. */
  lemma KeyEq(ya: string, ma: string, yb: string, mb: string)
    requires |ya| == |yb|
    ensures (ya + "-") + ma == (yb + "-") + mb <==> ya == yb && ma == mb
  {
    KeyFields(ya, ma);
    KeyFields(yb, mb);
  }

  /** Two "Y-M" keys with fields of matching lengths compare by the years,
      and by the months when the years agree. */
  lemma KeyStrLe(ya: string, ma: string, yb: string, mb: string)
    requires |ya| == |yb|
    ensures StrLe((ya + "-") + ma, (yb + "-") + mb) <==> (if ya == yb then StrLe(ma, mb) else StrLe(ya, yb))
  {
    StrLeAppend(ya + "-", ma, yb + "-", mb);
    StrLeAppend(ya, "-", yb, "-");
    KeyEq(ya, [], yb, []);
    assert ya + "-" == (ya + "-") + [] && yb + "-" == (yb + "-") + [];
  }

  /** The year and the month, compared in turn, order the months. */
  lemma LexMonths(ya: int, ma: int, yb: int, mb: int)
    requires 0 <= ma < 12 && 0 <= mb < 12
    ensures (if ya == yb then ma <= mb else ya < yb) <==> ya * 12 + ma <= yb * 12 + mb
    ensures ya == yb && ma == mb <==> ya * 12 + ma == yb * 12 + mb
  {
    if ya < yb {
      LeadingDigitOrder(ya - ya, yb - ya, ma, mb, 12);
    } else if yb < ya {
      LeadingDigitOrder(yb - yb, ya - yb, mb, ma, 12);
    }
  }

  /** A key with a four-digit year, in its parts. */
  lemma FourDigitKey(t: Timestamp)
    requires 1000 <= YearOf(t) <= 9999
    ensures MonthKey(t) == (NatToString(YearOf(t)) + "-") + MonthField(t)
    ensures |NatToString(YearOf(t))| == 4 && DecimalValue(NatToString(YearOf(t))) == YearOf(t)
    ensures 0 <= MonthOf(t) < 12
  {
    FourDigitYear(YearOf(t));
    NatToStringValue(YearOf(t));
    MonthOfRange(t);
  }

  /** For years of four digits the string order of the keys is the order of
      the months. */
  lemma MonthKeyOrder(a: Timestamp, b: Timestamp)
    requires 1000 <= YearOf(a) <= 9999 && 1000 <= YearOf(b) <= 9999
    ensures StrLe(MonthKey(a), MonthKey(b)) <==> YearMonth(a) <= YearMonth(b)
    ensures MonthKey(a) == MonthKey(b) <==> YearMonth(a) == YearMonth(b)
  {
    var ya, yb := NatToString(YearOf(a)), NatToString(YearOf(b));
    var ma, mb := MonthField(a), MonthField(b);
    FourDigitKey(a);
    FourDigitKey(b);
    KeyStrLe(ya, ma, yb, mb);
    KeyEq(ya, ma, yb, mb);
    DigitsLe(ya, yb);
    DigitsLe(ma, mb);
    DigitsEq(ya, yb);
    DigitsEq(ma, mb);
    LexMonths(YearOf(a), MonthOf(a), YearOf(b), MonthOf(b));
  }

  // ---------------------------------------------------------------------
  // Months, newest first.

  /** `Object.keys(groups).sort().reverse()` for a grouping by `monthKey`. */
  function KeyOrder(es: seq<Entry>, monthKey: Entry -> string): seq<string> {
    Reverse(SortBy(KeysOf(es, monthKey), StrCmp()))
  }

  /** `Object.keys(entriesByMonth).sort().reverse()`. */
  function MonthOrder(es: seq<Entry>): seq<string> {
    KeyOrder(es, EntryMonthKey)
  }

  lemma ReverseMembers<T>(s: seq<T>)
    ensures forall x :: x in Reverse(s) <==> x in s
  {
    var r := Reverse(s);
    forall x | x in s
      ensures x in r
    {
      var i :| 0 <= i < |s| && s[i] == x;
      assert r[|s| - 1 - i] == x;
    }
  }

  /** The sorted copy holds the same keys, once each, in ascending order. */
  lemma SortedKeys(keys: seq<string>)
    requires NoDup(keys)
    ensures var sorted := SortBy(keys, StrCmp());
            NoDup(sorted) && (forall k :: k in sorted <==> k in keys)
            && forall i, j :: 0 <= i < j < |sorted| ==> StrLe(sorted[i], sorted[j])
  {
    var sorted := SortBy(keys, StrCmp());
    SortBySorted(keys, StrCmp());
    NoDupPermutation(keys, sorted);
    assert forall k :: k in sorted <==> k in multiset(sorted);
  }

  /** Reversed, an ascending list of distinct keys strictly descends. */
  lemma ReverseDescends(sorted: seq<string>)
    requires NoDup(sorted) && forall i, j :: 0 <= i < j < |sorted| ==> StrLe(sorted[i], sorted[j])
    ensures var order := Reverse(sorted);
            forall i, j :: 0 <= i < j < |order| ==> StrLe(order[j], order[i]) && order[i] != order[j]
  {
    var order := Reverse(sorted);
    forall i, j | 0 <= i < j < |order|
      ensures StrLe(order[j], order[i]) && order[i] != order[j]
    {
      assert order[j] == sorted[|sorted| - 1 - j] && order[i] == sorted[|sorted| - 1 - i];
    }
  }

  lemma ReverseNoDup<T(!new)>(s: seq<T>)
    requires NoDup(s)
    ensures NoDup(Reverse(s))
  {
    var r := Reverse(s);
    forall i, j | 0 <= i < j < |r|
      ensures r[i] != r[j]
    {
      assert r[i] == s[|s| - 1 - i] && r[j] == s[|s| - 1 - j];
    }
  }

  /** Sorted, then reversed: the same keys. */
  lemma ReverseSortedMembers(keys: seq<string>)
    ensures forall k :: k in Reverse(SortBy(keys, StrCmp())) <==> k in keys
  {
    var sorted := SortBy(keys, StrCmp());
    SortBySorted(keys, StrCmp());
    assert forall k :: k in sorted <==> k in multiset(sorted);
    ReverseMembers(sorted);
  }

  /** Sorted, then reversed: the keys, once each, descending in string order. */
  lemma ReverseSortedDescends(keys: seq<string>)
    requires NoDup(keys)
    ensures var order := Reverse(SortBy(keys, StrCmp()));
            NoDup(order)
            && (forall k :: k in order <==> k in keys)
            && (forall i, j :: 0 <= i < j < |order| ==> StrLe(order[j], order[i]) && order[i] != order[j])
  {
    var sorted := SortBy(keys, StrCmp());
    SortedKeys(keys);
    ReverseDescends(sorted);
    ReverseMembers(sorted);
    ReverseNoDup(sorted);
  }

  /** Each key that occurs appears once, and the keys descend in string
      order. */
  lemma KeyOrderShape(es: seq<Entry>, monthKey: Entry -> string)
    ensures var order := KeyOrder(es, monthKey);
            NoDup(order)
            && (forall k :: k in order <==> k in Map(es, monthKey))
            && (forall i, j :: 0 <= i < j < |order| ==> StrLe(order[j], order[i]) && order[i] != order[j])
  {
    ReverseSortedDescends(KeysOf(es, monthKey));
  }

  /** Each month that has entries appears once, and the keys descend in
      string order. */
  lemma MonthOrderShape(es: seq<Entry>)
    ensures var order := MonthOrder(es);
            NoDup(order)
            && (forall k :: k in order <==> k in Map(es, EntryMonthKey))
            && (forall i, j :: 0 <= i < j < |order| ==> StrLe(order[j], order[i]) && order[i] != order[j])
  {
    KeyOrderShape(es, EntryMonthKey);
  }

  /** With four-digit years the sections come newest month first. */
  lemma NewestMonthFirst(es: seq<Entry>, a: Entry, b: Entry, i: nat, j: nat)
    requires forall e :: e in es ==> 1000 <= YearOf(e.date) <= 9999
    requires a in es && b in es
    requires i < j < |MonthOrder(es)|
    requires MonthOrder(es)[i] == EntryMonthKey(a) && MonthOrder(es)[j] == EntryMonthKey(b)
    ensures YearMonth(b.date) < YearMonth(a.date)
  {
    MonthOrderShape(es);
    MonthKeyOrder(b.date, a.date);
  }

  /** Each entry is in exactly one section: the one of its key. */
  lemma OneSectionEach(es: seq<Entry>, monthKey: Entry -> string, e: Entry)
    requires e in es
    ensures monthKey(e) in KeyOrder(es, monthKey)
    ensures forall j :: 0 <= j < |KeyOrder(es, monthKey)| ==>
              (e in SectionEntries(es, monthKey, KeyOrder(es, monthKey)[j]) <==> KeyOrder(es, monthKey)[j] == monthKey(e))
  {
    KeyOrderShape(es, monthKey);
    MapMembership(es, monthKey);
  }

  /** Each entry is in exactly one month section: the one of its month key. */
  lemma EachEntryOneSection(es: seq<Entry>, e: Entry)
    requires e in es
    ensures EntryMonthKey(e) in MonthOrder(es)
    ensures forall j :: 0 <= j < |MonthOrder(es)| ==>
              (e in SectionEntries(es, EntryMonthKey, MonthOrder(es)[j]) <==> MonthOrder(es)[j] == EntryMonthKey(e))
  {
    OneSectionEach(es, EntryMonthKey, e);
  }

  /** A section's entries: exactly the entries with its key, oldest first. */
  function SectionEntries(es: seq<Entry>, monthKey: Entry -> string, key: string): (r: seq<Entry>)
    ensures multiset(r) == multiset(Filter(es, KeyIs(monthKey, key)))
    ensures Sorted(r, KeyLe(DateOfEntry))
    ensures forall e :: e in r <==> e in es && monthKey(e) == key
  {
    var r := SortByKey(Filter(es, KeyIs(monthKey, key)), DateOfEntry);
    assert forall e :: e in r <==> e in multiset(r);
    r
  }

  // ---------------------------------------------------------------------
  // Entry lines.

  const EventBullet: string := "- \U{00E2}\U{2014}\U{2039}"
  const ExploreMark: string := "\U{00F0}\U{0178}\U{2018}\U{00EF}\U{00B8}"

  /** The bullet of an entry: a check box for a task, the circle for an
      event, a dash for a note. */
  function Bullet(e: Entry): string {
    match e.kind
    case Task => if e.state == Complete then "- [x]" else "- [ ]"
    case Event => EventBullet
    case Note => "-"
  }

  function Mark(s: Signifier): (r: string)
    ensures r != [] && ' ' !in r && '\n' !in r
  {
    match s
    case Priority => "*"
    case Inspiration => "!"
    case Explore => ExploreMark
  }

  /** `entry.signifiers?.map(mark).join(" ") || ""`. */
  function SignifierText(e: Entry): string {
    if e.signifiers.Some? then Join(Map(e.signifiers.value, Mark), " ") else ""
  }

  /** `${bullet} ${signifiers} ${entry.content} _(${date})_\n`. */
  function EntryLine(e: Entry, shortDate: Timestamp -> string): string {
    Bullet(e) + " " + SignifierText(e) + " " + e.content + " _(" + shortDate(e.date) + ")_\n"
  }

  lemma MarkInjective(a: Signifier, b: Signifier)
    requires Mark(a) == Mark(b)
    ensures a == b
  {
  }

  lemma MapMarkInjective(a: seq<Signifier>, b: seq<Signifier>)
    requires Map(a, Mark) == Map(b, Mark)
    ensures a == b
  {
    forall i | 0 <= i < |a|
      ensures a[i] == b[i]
    {
      MarkInjective(a[i], b[i]);
    }
  }

  /** The join of non-empty pieces starts with the first piece. */
  lemma JoinStart(pieces: seq<string>, sep: string)
    requires |pieces| >= 1
    ensures |Join(pieces, sep)| >= |pieces[0]| && Join(pieces, sep)[..|pieces[0]|] == pieces[0]
  {
    if |pieces| > 1 {
      assert Join(pieces, sep) == pieces[0] + sep + Join(pieces[1..], sep);
    }
  }

  /** Every character of a join comes from a piece or the separator. */
  lemma {:induction false} JoinChars(pieces: seq<string>, sep: string, c: char)
    requires c !in sep && forall i :: 0 <= i < |pieces| ==> c !in pieces[i]
    ensures c !in Join(pieces, sep)
    decreases |pieces|
  {
    if |pieces| > 1 {
      JoinChars(pieces[1..], sep, c);
    }
  }

  /** The text of the marks is empty exactly when there are no signifiers,
      and it determines them: split at the spaces, it gives the marks back. */
  lemma SignifierTextRecovers(e: Entry)
    ensures SignifierText(e) == "" <==> Signifiers(e) == []
    ensures Signifiers(e) != [] ==> Split(SignifierText(e), ' ') == Map(Signifiers(e), Mark)
  {
    var sigs := Signifiers(e);
    if sigs != [] {
      var pieces := Map(sigs, Mark);
      JoinSplit(pieces, ' ');
      JoinStart(pieces, " ");
    }
  }

  /** Two entries whose marks read the same carry the same signifiers. */
  lemma SignifiersDetermined(a: Entry, b: Entry)
    requires SignifierText(a) == SignifierText(b)
    ensures Signifiers(a) == Signifiers(b)
  {
    SignifierTextRecovers(a);
    SignifierTextRecovers(b);
    if Signifiers(a) != [] && Signifiers(b) != [] {
      MapMarkInjective(Signifiers(a), Signifiers(b));
    }
  }

  /** The text of the marks never starts with "[". */
  lemma SignifierTextStart(e: Entry)
    ensures SignifierText(e) == "" || SignifierText(e)[0] in {'*', '!', '\U{00F0}'}
  {
    if Signifiers(e) != [] {
      var pieces := Map(Signifiers(e), Mark);
      JoinStart(pieces, " ");
      assert SignifierText(e)[0] == pieces[0][0];
    }
  }

  /** A line starts with a check box exactly for a task, and the box is
      ticked exactly when the task is complete. */
  lemma EntryLineBox(e: Entry, shortDate: Timestamp -> string)
    ensures StartsWith(EntryLine(e, shortDate), "- [") <==> e.kind == Task
    ensures e.kind == Task ==> (StartsWith(EntryLine(e, shortDate), "- [x]") <==> e.state == Complete)
  {
    var line := EntryLine(e, shortDate);
    var rest := SignifierText(e) + " " + e.content + " _(" + shortDate(e.date) + ")_\n";
    assert line == Bullet(e) + " " + rest;
    SignifierTextStart(e);
    match e.kind
    case Task =>
      assert line[..3] == "- [";
      assert line[..5] == Bullet(e);
    case Event =>
      assert line[2] == '\U{00E2}';
    case Note =>
      assert line[2] == rest[0] == (SignifierText(e) + " ")[0];
  }

  /** A line holds one line break, at its end, when neither the content nor
      the shown date holds one. */
  lemma EntryLineSingle(e: Entry, shortDate: Timestamp -> string)
    requires '\n' !in e.content && '\n' !in shortDate(e.date)
    ensures var line := EntryLine(e, shortDate);
            line[|line| - 1] == '\n' && '\n' !in line[..|line| - 1]
  {
    var line := EntryLine(e, shortDate);
    if e.signifiers.Some? {
      JoinChars(Map(e.signifiers.value, Mark), " ", '\n');
    }
    assert line[..|line| - 1] == Bullet(e) + " " + SignifierText(e) + " " + e.content + " _(" + shortDate(e.date) + ")_";
  }

  // ---------------------------------------------------------------------
  // Collections.

  /** `- [${item.checked ? "x" : " "}] ${item.text}\n`. */
  function ItemLine(item: CollectionItem): string {
    "- [" + (if item.checked then "x" else " ") + "] " + item.text + "\n"
  }

  lemma ItemLineBox(item: CollectionItem)
    ensures StartsWith(ItemLine(item), "- [x] ") <==> item.checked
    ensures StartsWith(ItemLine(item), "- [ ] ") <==> !item.checked
  {
    assert ItemLine(item)[3] == if item.checked then 'x' else ' ';
  }

  function CollectionTitle(c: Collection): string {
    "### " + c.title + "\n\n"
  }

  /** A collection's block: its title, one line per item, a blank line. */
  function CollectionBlock(c: Collection): string {
    CollectionTitle(c) + ConcatMap(c.items, ItemLine) + "\n"
  }

  /** The Collections section, written only when there is a collection. */
  function CollectionsPart(cs: seq<Collection>): string {
    if |cs| > 0 then "## Collections\n\n" + ConcatMap(cs, CollectionBlock) else ""
  }

  // ---------------------------------------------------------------------
  // The whole document.

  function Header(exported: string): string {
    "# Bullet Journal Export\n\n" + ("**Exported:** " + exported + "\n\n")
  }

  function EntryLineOf(shortDate: Timestamp -> string): Entry -> string {
    (e: Entry) => EntryLine(e, shortDate)
  }

  function MonthTitle(key: string, longMonth: Timestamp -> string): string {
    "## " + MonthHeading(key, longMonth) + "\n\n"
  }

  /** A month's section: its heading, its entries oldest first, a blank line. */
  function MonthSection(es: seq<Entry>, monthKey: Entry -> string, key: string,
                        longMonth: Timestamp -> string, shortDate: Timestamp -> string): string {
    MonthTitle(key, longMonth) + ConcatMap(SectionEntries(es, monthKey, key), EntryLineOf(shortDate)) + "\n"
  }

  function MonthSectionOf(es: seq<Entry>, monthKey: Entry -> string,
                          longMonth: Timestamp -> string, shortDate: Timestamp -> string): string -> string {
    (key: string) => MonthSection(es, monthKey, key, longMonth, shortDate)
  }

  /** The document for a grouping by `monthKey`. */
  function Document(es: seq<Entry>, cs: seq<Collection>, exported: string, monthKey: Entry -> string,
                    longMonth: Timestamp -> string, shortDate: Timestamp -> string): string {
    Header(exported) + ConcatMap(KeyOrder(es, monthKey), MonthSectionOf(es, monthKey, longMonth, shortDate))
    + CollectionsPart(cs)
  }

  /** The exported document. */
  function Markdown(es: seq<Entry>, cs: seq<Collection>, exported: string,
                    longMonth: Timestamp -> string, shortDate: Timestamp -> string): string {
    Document(es, cs, exported, EntryMonthKey, longMonth, shortDate)
  }

  /** The collections add their section after the months and nothing else,
      and that section is empty exactly when there are none. */
  lemma CollectionsOnlyWhenAny(es: seq<Entry>, cs: seq<Collection>, exported: string,
                               longMonth: Timestamp -> string, shortDate: Timestamp -> string)
    ensures Markdown(es, cs, exported, longMonth, shortDate)
         == Markdown(es, [], exported, longMonth, shortDate) + CollectionsPart(cs)
    ensures CollectionsPart(cs) == "" <==> cs == []
  {
    DocumentCollections(es, cs, exported, EntryMonthKey, longMonth, shortDate);
    CollectionsPartEmpty(cs);
  }

  lemma DocumentCollections(es: seq<Entry>, cs: seq<Collection>, exported: string, monthKey: Entry -> string,
                            longMonth: Timestamp -> string, shortDate: Timestamp -> string)
    ensures Document(es, cs, exported, monthKey, longMonth, shortDate)
         == Document(es, [], exported, monthKey, longMonth, shortDate) + CollectionsPart(cs)
  {
    var head := Header(exported) + ConcatMap(KeyOrder(es, monthKey), MonthSectionOf(es, monthKey, longMonth, shortDate));
    assert CollectionsPart([]) == "";
    assert Document(es, [], exported, monthKey, longMonth, shortDate) == head;
  }

  lemma CollectionsPartEmpty(cs: seq<Collection>)
    ensures CollectionsPart(cs) == "" <==> cs == []
  {
    if cs != [] {
      assert |CollectionsPart(cs)| >= |"## Collections\n\n"|;
    }
  }

  lemma Assoc(a: string, b: string, c: string)
    ensures (a + b) + c == a + (b + c)
  {
  }

  /** A `forEach` that appends f of each element to `markdown`. */
  method AppendEach<T(!new)>(markdown: string, xs: seq<T>, f: T -> string) returns (out: string)
    ensures out == markdown + ConcatMap(xs, f)
  {
    out := markdown;
    var j := 0;
    while j < |xs|
      invariant 0 <= j <= |xs|
      invariant out == markdown + ConcatMap(xs[..j], f)
    {
      ConcatMapStep(markdown, xs, j, f, out);
      out := out + f(xs[j]);
      j := j + 1;
    }
    PrefixAll(xs);
  }

  /** One `forEach` step over the months: the heading, the month's entries
      by ascending date, and a blank line. */
  method AppendMonth(markdown: string, es: seq<Entry>, monthKey: Entry -> string, key: string, group: seq<Entry>,
                     longMonth: Timestamp -> string, shortDate: Timestamp -> string) returns (out: string)
    requires group == Filter(es, KeyIs(monthKey, key))
    ensures out == markdown + MonthSection(es, monthKey, key, longMonth, shortDate)
  {
    var monthName := MonthHeading(key, longMonth);
    ghost var title := MonthTitle(key, longMonth);
    out := markdown + ("## " + monthName + "\n\n");
    var sorted := SortByKey(group, DateOfEntry);
    out := AppendEach(out, sorted, EntryLineOf(shortDate));
    ghost var lines := ConcatMap(SectionEntries(es, monthKey, key), EntryLineOf(shortDate));
    Assoc(markdown, title, lines);
    Assoc(markdown, title + lines, "\n");
    out := out + "\n";
  }

  /** One `forEach` step over the collections: its title, its items, and a
      blank line. */
  method AppendCollection(markdown: string, c: Collection) returns (out: string)
    ensures out == markdown + CollectionBlock(c)
  {
    ghost var title := CollectionTitle(c);
    out := markdown + ("### " + c.title + "\n\n");
    out := AppendEach(out, c.items, ItemLine);
    ghost var lines := ConcatMap(c.items, ItemLine);
    Assoc(markdown, title, lines);
    Assoc(markdown, title + lines, "\n");
    out := out + "\n";
  }

  /** The loop over the collections, after the "## Collections" heading. */
  method AppendCollections(markdown: string, cs: seq<Collection>) returns (out: string)
    ensures out == markdown + ConcatMap(cs, CollectionBlock)
  {
    out := markdown;
    var k := 0;
    while k < |cs|
      invariant 0 <= k <= |cs|
      invariant out == markdown + ConcatMap(cs[..k], CollectionBlock)
    {
      ConcatMapStep(markdown, cs, k, CollectionBlock, out);
      out := AppendCollection(out, cs[k]);
      k := k + 1;
    }
    PrefixAll(cs);
  }

  /** The loop over the months in `order`, each appended from its group. */
  method AppendSections(markdown: string, es: seq<Entry>, monthKey: Entry -> string, order: seq<string>,
                        entriesByMonth: map<string, seq<Entry>>,
                        longMonth: Timestamp -> string, shortDate: Timestamp -> string) returns (out: string)
    requires forall k :: k in order ==> k in entriesByMonth && entriesByMonth[k] == Filter(es, KeyIs(monthKey, k))
    ensures out == markdown + ConcatMap(order, MonthSectionOf(es, monthKey, longMonth, shortDate))
  {
    ghost var sectionOf := MonthSectionOf(es, monthKey, longMonth, shortDate);
    out := markdown;
    var i := 0;
    while i < |order|
      invariant 0 <= i <= |order|
      invariant out == markdown + ConcatMap(order[..i], sectionOf)
    {
      var key := order[i];
      ConcatMapStep(markdown, order, i, sectionOf, out);
      out := AppendMonth(out, es, monthKey, key, entriesByMonth[key], longMonth, shortDate);
      i := i + 1;
    }
    PrefixAll(order);
  }

  /** The months, newest first: the grouping, the key order, and the loop. */
  method AppendMonths(markdown: string, es: seq<Entry>, monthKey: Entry -> string,
                      longMonth: Timestamp -> string, shortDate: Timestamp -> string) returns (out: string)
    ensures out == markdown + ConcatMap(KeyOrder(es, monthKey), MonthSectionOf(es, monthKey, longMonth, shortDate))
  {
    var keys, entriesByMonth := GroupByKey(es, monthKey);
    var order := Reverse(SortBy(keys, StrCmp()));
    ReverseSortedMembers(keys);
    out := AppendSections(markdown, es, monthKey, order, entriesByMonth, longMonth, shortDate);
  }

  /** The body of `exportToMarkdown` for a grouping by `monthKey`. */
  method BuildDocument(es: seq<Entry>, cs: seq<Collection>, exported: string, monthKey: Entry -> string,
                       longMonth: Timestamp -> string, shortDate: Timestamp -> string) returns (markdown: string)
    ensures markdown == Document(es, cs, exported, monthKey, longMonth, shortDate)
  {
    markdown := "# Bullet Journal Export\n\n";
    markdown := markdown + ("**Exported:** " + exported + "\n\n");
    markdown := AppendMonths(markdown, es, monthKey, longMonth, shortDate);
    ghost var head := markdown;
    if |cs| > 0 {
      markdown := markdown + "## Collections\n\n";
      markdown := AppendCollections(markdown, cs);
      Assoc(head, "## Collections\n\n", ConcatMap(cs, CollectionBlock));
    } else {
      assert markdown == head + CollectionsPart(cs);
    }
  }

  /** `exportToMarkdown`, up to the download: the text it builds. */
  method ExportToMarkdown(es: seq<Entry>, cs: seq<Collection>, exported: string,
                          longMonth: Timestamp -> string, shortDate: Timestamp -> string) returns (markdown: string)
    ensures markdown == Markdown(es, cs, exported, longMonth, shortDate)
  {
    markdown := BuildDocument(es, cs, exported, EntryMonthKey, longMonth, shortDate);
  }

  // ---------------------------------------------------------------------
  // Import.

  /** A parsed JSON value (numbers as integers). */
  datatype Json = JNull | JBool(b: bool) | JNumber(n: int) | JString(s: string)
                | JArray(items: seq<Json>) | JObject(fields: map<string, Json>)

  /** JavaScript truthiness of a JSON value. */
  predicate Truthy(v: Json) {
    match v
    case JNull => false
    case JBool(b) => b
    case JNumber(n) => n != 0
    case JString(s) => s != ""
    case _ => true
  }

  /** `data.name` for an object's own field; absent for anything else. */
  function FieldOf(data: Json, name: string): Option<Json> {
    if data.JObject? && name in data.fields then Some(data.fields[name]) else None
  }

  datatype ImportOutcome =
    | Rejected
    | Declined
    | Imported(entries: seq<Json>, collections: Json)

  /** `data.collections || []`. */
  function CollectionsOrEmpty(data: Json): Json {
    var c := FieldOf(data, "collections");
    if c.Some? && Truthy(c.value) then c.value else JArray([])
  }

  /** The `onload` handler: a file that does not parse, or whose `entries`
      is missing or not an array, is rejected; otherwise the user's answer
      to the confirmation decides whether the entries and the collections
      are handed to `onImport`. */
  function ImportBackup(parsed: Option<Json>, confirmed: bool): ImportOutcome {
    if parsed.None? then Rejected
    else
      var data := parsed.value;
      var entries := FieldOf(data, "entries");
      if entries.None? || !Truthy(entries.value) || !entries.value.JArray? then Rejected
      else if confirmed then Imported(entries.value.items, CollectionsOrEmpty(data))
      else Declined
  }

  /** A backup is accepted exactly when it parses to an object whose
      `entries` is an array; nothing is imported unless the user confirms. */
  lemma ImportAccepts(parsed: Option<Json>, confirmed: bool)
    ensures ImportBackup(parsed, confirmed) != Rejected <==>
              parsed.Some? && parsed.value.JObject? && "entries" in parsed.value.fields
              && parsed.value.fields["entries"].JArray?
    ensures ImportBackup(parsed, confirmed).Imported? ==> confirmed
    ensures ImportBackup(parsed, confirmed).Imported? ==>
              ImportBackup(parsed, confirmed).entries == parsed.value.fields["entries"].items
  {
  }

  /** Missing or falsy collections are imported as none. */
  lemma ImportCollectionsDefault(data: Json)
    requires FieldOf(data, "collections").None? || !Truthy(FieldOf(data, "collections").value)
    requires ImportBackup(Some(data), true).Imported?
    ensures ImportBackup(Some(data), true).collections == JArray([])
  {
  }

  /** The object `exportToJSON` writes imports back as its entries and
      collections. */
  lemma ExportImportRoundTrip(entries: seq<Json>, collections: seq<Json>, version: string, date: string, user: string)
    ensures var data := JObject(map["version" := JString(version), "exportDate" := JString(date),
                                    "userId" := JString(user), "entries" := JArray(entries),
                                    "collections" := JArray(collections)]);
            ImportBackup(Some(data), true) == Imported(entries, JArray(collections))
  {
  }
}
