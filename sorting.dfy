/** `Array.prototype.sort` with a comparator.  Since ES2019 the sort is
    stable, so it is modelled as an insertion sort that puts each element
    before the first one it does not exceed. */
module Sorting {
  import opened Common

  /** `le` is total and transitive, as a numeric key comparison is. */
  ghost predicate TotalPreorder<T(!new)>(le: (T, T) -> bool) {
    (forall a, b :: le(a, b) || le(b, a))
    && (forall a, b, c :: le(a, b) && le(b, c) ==> le(a, c))
  }

  predicate Sorted<T(!new)>(s: seq<T>, le: (T, T) -> bool) {
    forall i, j :: 0 <= i < j < |s| ==> le(s[i], s[j])
  }

  /** x placed in front of the first element it does not exceed. */
  function Insert<T(!new)>(x: T, s: seq<T>, le: (T, T) -> bool): (r: seq<T>)
    ensures multiset(r) == multiset(s) + multiset{x}
    ensures |r| == |s| + 1
  {
    if s == [] then [x]
    else if le(x, s[0]) then [x] + s
    else
      var t := Insert(x, s[1..], le);
      assert s == [s[0]] + s[1..];
      [s[0]] + t
  }

  /** `[...s].sort(cmp)` where `cmp(a, b) <= 0` iff le(a, b). */
  function SortBy<T(!new)>(s: seq<T>, le: (T, T) -> bool): (r: seq<T>)
    ensures multiset(r) == multiset(s)
    ensures |r| == |s|
  {
    if s == [] then []
    else
      assert s == [s[0]] + s[1..];
      Insert(s[0], SortBy(s[1..], le), le)
  }

  lemma {:induction false} InsertSorted<T(!new)>(x: T, s: seq<T>, le: (T, T) -> bool)
    requires TotalPreorder(le) && Sorted(s, le)
    ensures Sorted(Insert(x, s, le), le)
    decreases |s|
  {
    if s != [] && !le(x, s[0]) {
      var t := Insert(x, s[1..], le);
      InsertSorted(x, s[1..], le);
      forall z | z in t
        ensures le(s[0], z)
      {
        assert z in multiset(t);
        if z != x {
          assert z in multiset(s[1..]);
        }
      }
      assert Insert(x, s, le) == [s[0]] + t;
    }
  }

  /** The result is in order. */
  lemma {:induction false} SortBySorted<T(!new)>(s: seq<T>, le: (T, T) -> bool)
    requires TotalPreorder(le)
    ensures Sorted(SortBy(s, le), le)
    decreases |s|
  {
    if s != [] {
      SortBySorted(s[1..], le);
      InsertSorted(s[0], SortBy(s[1..], le), le);
    }
  }

  /** Comparison of a numeric key: `(a, b) => key(a) - key(b)`. */
  function KeyLe<T(!new)>(key: T -> int): (T, T) -> bool {
    (a: T, b: T) => key(a) <= key(b)
  }

  lemma KeyLeTotalPreorder<T(!new)>(key: T -> int)
    ensures TotalPreorder(KeyLe(key))
  {
  }

  function HasKey<T(!new)>(key: T -> int, k: int): T -> bool {
    (x: T) => key(x) == k
  }

  function SortByKey<T(!new)>(s: seq<T>, key: T -> int): (r: seq<T>)
    ensures multiset(r) == multiset(s)
    ensures Sorted(r, KeyLe(key))
  {
    SortBySorted(s, KeyLe(key));
    SortBy(s, KeyLe(key))
  }

  lemma {:induction false} InsertStable<T(!new)>(x: T, s: seq<T>, key: T -> int, k: int)
    ensures Filter(Insert(x, s, KeyLe(key)), HasKey(key, k))
         == (if key(x) == k then [x] else []) + Filter(s, HasKey(key, k))
    decreases |s|
  {
    var p := HasKey(key, k);
    var le := KeyLe(key);
    var xs := if key(x) == k then [x] else [];
    if s == [] {
      FilterCons(x, [], p);
    } else if le(x, s[0]) {
      assert Insert(x, s, le) == [x] + s;
      FilterCons(x, s, p);
    } else {
      // x goes after s[0] only when its key is larger, so not both have key k.
      var t := Insert(x, s[1..], le);
      var firsts := if key(s[0]) == k then [s[0]] else [];
      calc {
        Filter(Insert(x, s, le), p);
        { assert Insert(x, s, le) == [s[0]] + t; }
        Filter([s[0]] + t, p);
        { FilterCons(s[0], t, p); }
        firsts + Filter(t, p);
        { InsertStable(x, s[1..], key, k); }
        firsts + (xs + Filter(s[1..], p));
        { SwapEmpty(firsts, xs, Filter(s[1..], p)); }
        xs + (firsts + Filter(s[1..], p));
        { FilterCons(s[0], s[1..], p); assert [s[0]] + s[1..] == s; }
        xs + Filter(s, p);
      }
    }
  }

  lemma SwapEmpty<T>(a: seq<T>, b: seq<T>, c: seq<T>)
    requires a == [] || b == []
    ensures a + (b + c) == b + (a + c)
  {
  }

  /** Stability: among elements of equal key, the input order is kept. */
  lemma {:induction false} SortByKeyStable<T(!new)>(s: seq<T>, key: T -> int, k: int)
    ensures Filter(SortByKey(s, key), HasKey(key, k)) == Filter(s, HasKey(key, k))
    decreases |s|
  {
    if s != [] {
      SortByKeyStable(s[1..], key, k);
      InsertStable(s[0], SortBy(s[1..], KeyLe(key)), key, k);
      FilterCons(s[0], s[1..], HasKey(key, k));
      assert s == [s[0]] + s[1..];
    }
  }

  /** The first element of a key sort has the least key. */
  lemma SortedFirst<T(!new)>(s: seq<T>, key: T -> int)
    requires s != []
    ensures forall x :: x in s ==> key(SortByKey(s, key)[0]) <= key(x)
  {
    var r := SortByKey(s, key);
    forall x | x in s
      ensures key(r[0]) <= key(x)
    {
      assert x in multiset(s);
      assert x in multiset(r);
      var j :| 0 <= j < |r| && r[j] == x;
      if j > 0 {
        assert KeyLe(key)(r[0], r[j]);
      }
    }
  }

  /** Code-point order on strings, which equals the default `sort()`'s UTF-16
      code-unit order on the ASCII month keys sorted here. */
  predicate StrLe(a: string, b: string) {
    if a == [] then true
    else if b == [] then false
    else if a[0] != b[0] then a[0] < b[0]
    else StrLe(a[1..], b[1..])
  }

  lemma {:induction false} StrLeTotal(a: string, b: string)
    ensures StrLe(a, b) || StrLe(b, a)
    decreases |a|
  {
    if a != [] && b != [] && a[0] == b[0] {
      StrLeTotal(a[1..], b[1..]);
    }
  }

  lemma {:induction false} StrLeTrans(a: string, b: string, c: string)
    requires StrLe(a, b) && StrLe(b, c)
    ensures StrLe(a, c)
    decreases |a|
  {
    if a != [] && b != [] && c != [] && a[0] == b[0] && b[0] == c[0] {
      StrLeTrans(a[1..], b[1..], c[1..]);
    }
  }

  lemma {:induction false} StrLeAntisym(a: string, b: string)
    requires StrLe(a, b) && StrLe(b, a)
    ensures a == b
    decreases |a|
  {
    if a != [] && b != [] {
      StrLeAntisym(a[1..], b[1..]);
      assert a == [a[0]] + a[1..] && b == [b[0]] + b[1..];
    }
  }

  function StrCmp(): (le: (string, string) -> bool)
    ensures TotalPreorder(le)
  {
    forall a, b ensures StrLe(a, b) || StrLe(b, a) {
      StrLeTotal(a, b);
    }
    forall a, b, c | StrLe(a, b) && StrLe(b, c) ensures StrLe(a, c) {
      StrLeTrans(a, b, c);
    }
    (a: string, b: string) => StrLe(a, b)
  }

  /** `s.reverse()`. */
  function Reverse<T>(s: seq<T>): (r: seq<T>)
    ensures |r| == |s|
    ensures forall i :: 0 <= i < |s| ==> r[i] == s[|s| - 1 - i]
  {
    if s == [] then [] else [s[|s| - 1]] + Reverse(s[..|s| - 1])
  }
}
