/** Sequence utilities shared by the journal model: a filter that keeps order,
    the array-backed "set" with insertion order that JavaScript's `Set` is,
    and the remove-if-present-else-append toggle the components use for
    filters, signifiers, selections and bookmarks. */
module Common {

  datatype Option<+T> = None | Some(value: T)

  /** `s.filter(p)`: the elements satisfying p, in their original order. */
  function Filter<T(!new)>(s: seq<T>, p: T -> bool): (r: seq<T>)
    ensures |r| <= |s|
    ensures forall x :: x in r <==> x in s && p(x)
    ensures forall i :: 0 <= i < |r| ==> p(r[i])
  {
    if s == [] then [] else Filter(s[..|s| - 1], p) + (if p(s[|s| - 1]) then [s[|s| - 1]] else [])
  }

  /** A non-empty sequence is its prefix and its last element. */
  lemma SplitLast<T>(s: seq<T>)
    requires s != []
    ensures s == s[..|s| - 1] + [s[|s| - 1]]
  {
  }

  /** One more element of a prefix. */
  lemma PrefixStep<T>(s: seq<T>, i: int)
    requires 0 <= i < |s|
    ensures s[..i + 1] == s[..i] + [s[i]]
  {
  }

  lemma PrefixAll<T>(s: seq<T>)
    ensures s[..|s|] == s
  {
  }

  lemma {:induction false} FilterAppend<T(!new)>(a: seq<T>, b: seq<T>, p: T -> bool)
    ensures Filter(a + b, p) == Filter(a, p) + Filter(b, p)
    decreases |b|
  {
    if b == [] {
      assert a + b == a;
    } else {
      var n := |b| - 1;
      assert (a + b)[..|a + b| - 1] == a + b[..n];
      FilterAppend(a, b[..n], p);
    }
  }

  lemma FilterCons<T(!new)>(x: T, s: seq<T>, p: T -> bool)
    ensures Filter([x] + s, p) == (if p(x) then [x] else []) + Filter(s, p)
  {
    FilterAppend([x], s, p);
    assert Filter([x], p) == (if p(x) then [x] else []) by {
      assert [x][..0] == [] && [x][0] == x;
    }
  }

  /** Filtering keeps exactly the elements of s when p holds of all of them. */
  lemma {:induction false} FilterAll<T(!new)>(s: seq<T>, p: T -> bool)
    requires forall i :: 0 <= i < |s| ==> p(s[i])
    ensures Filter(s, p) == s
    decreases |s|
  {
    if s != [] {
      var init := s[..|s| - 1];
      assert forall i :: 0 <= i < |init| ==> init[i] == s[i];
      FilterAll(init, p);
      SplitLast(s);
    }
  }

  /** Filtering removes every element when p holds of none of them. */
  lemma {:induction false} FilterNone<T(!new)>(s: seq<T>, p: T -> bool)
    requires forall i :: 0 <= i < |s| ==> !p(s[i])
    ensures Filter(s, p) == []
    decreases |s|
  {
    if s != [] {
      FilterNone(s[..|s| - 1], p);
    }
  }

  /** Filtering keeps every element exactly when p holds of all of them. */
  lemma {:induction false} FilterFull<T(!new)>(s: seq<T>, p: T -> bool)
    ensures |Filter(s, p)| == |s| <==> forall i :: 0 <= i < |s| ==> p(s[i])
    decreases |s|
  {
    if s != [] {
      var init := s[..|s| - 1];
      assert forall i :: 0 <= i < |init| ==> init[i] == s[i];
      FilterFull(init, p);
      if forall i :: 0 <= i < |s| ==> p(s[i]) {
        FilterAll(s, p);
      } else if p(s[|s| - 1]) {
        assert !forall i :: 0 <= i < |init| ==> p(init[i]);
      } else {
        assert |Filter(s, p)| == |Filter(init, p)| <= |init|;
      }
    }
  }

  /** Filtering keeps nothing exactly when p holds of no element. */
  lemma FilterEmpty<T(!new)>(s: seq<T>, p: T -> bool)
    ensures |Filter(s, p)| == 0 <==> forall i :: 0 <= i < |s| ==> !p(s[i])
  {
    if |Filter(s, p)| != 0 {
      assert Filter(s, p)[0] in s;
    }
  }

  /** Filters by two predicates that agree everywhere are equal. */
  lemma {:induction false} FilterExt<T(!new)>(s: seq<T>, p: T -> bool, q: T -> bool)
    requires forall x :: p(x) == q(x)
    ensures Filter(s, p) == Filter(s, q)
    decreases |s|
  {
    if s != [] {
      FilterExt(s[..|s| - 1], p, q);
    }
  }

  /** The number of elements satisfying p. */
  function Count<T(!new)>(s: seq<T>, p: T -> bool): nat {
    |Filter(s, p)|
  }

  /** Filters by three disjoint, covering predicates split s into three parts. */
  lemma {:induction false} FilterPartition3<T(!new)>(s: seq<T>, p: T -> bool, q: T -> bool, r: T -> bool)
    requires forall x :: (p(x) && !q(x) && !r(x)) || (!p(x) && q(x) && !r(x)) || (!p(x) && !q(x) && r(x))
    ensures |Filter(s, p)| + |Filter(s, q)| + |Filter(s, r)| == |s|
    ensures multiset(Filter(s, p)) + multiset(Filter(s, q)) + multiset(Filter(s, r)) == multiset(s)
    decreases |s|
  {
    if s != [] {
      var t, x := s[..|s| - 1], s[|s| - 1];
      FilterPartition3(t, p, q, r);
      FilterLast(s, p);
      FilterLast(s, q);
      FilterLast(s, r);
      Partition3Multiset(multiset(Filter(t, p)), multiset(Filter(t, q)), multiset(Filter(t, r)), x, p(x), q(x), r(x));
      MultisetLast(s);
    }
  }

  lemma MultisetLast<T>(s: seq<T>)
    requires s != []
    ensures multiset(s) == multiset(s[..|s| - 1]) + multiset{s[|s| - 1]}
  {
    SplitLast(s);
  }

  /** Adding x to exactly one of three multisets adds it to their sum. */
  lemma Partition3Multiset<T>(a: multiset<T>, b: multiset<T>, c: multiset<T>, x: T, inA: bool, inB: bool, inC: bool)
    requires (inA && !inB && !inC) || (!inA && inB && !inC) || (!inA && !inB && inC)
    ensures (if inA then a + multiset{x} else a) + (if inB then b + multiset{x} else b) + (if inC then c + multiset{x} else c)
         == a + b + c + multiset{x}
  {
  }

  /** Filter's own step, counted and as a multiset. */
  lemma FilterLast<T(!new)>(s: seq<T>, p: T -> bool)
    requires s != []
    ensures var t, x := s[..|s| - 1], s[|s| - 1];
            |Filter(s, p)| == |Filter(t, p)| + (if p(x) then 1 else 0)
            && multiset(Filter(s, p)) == (if p(x) then multiset(Filter(t, p)) + multiset{x} else multiset(Filter(t, p)))
  {
  }

  /** The size part of FilterLast. */
  lemma FilterLastSize<T(!new)>(s: seq<T>, p: T -> bool)
    requires s != []
    ensures |Filter(s, p)| == |Filter(s[..|s| - 1], p)| + (if p(s[|s| - 1]) then 1 else 0)
  {
  }

  /** `s.slice(0, n)`. */
  function Take<T(!new)>(s: seq<T>, n: nat): (r: seq<T>)
    ensures |r| == if |s| < n then |s| else n
    ensures r <= s
    ensures multiset(r) <= multiset(s)
  {
    if |s| <= n then s
    else
      assert s == s[..n] + s[n..];
      s[..n]
  }

  /** `s.map(f)`. */
  function Map<T(!new), U>(s: seq<T>, f: T -> U): (r: seq<U>)
    ensures |r| == |s|
    ensures forall i :: 0 <= i < |s| ==> r[i] == f(s[i])
  {
    if s == [] then [] else Map(s[..|s| - 1], f) + [f(s[|s| - 1])]
  }

  /** The values of f over s are the images of s's elements. */
  lemma MapMembership<T(!new), U>(s: seq<T>, f: T -> U)
    ensures forall y :: y in Map(s, f) <==> exists x :: x in s && f(x) == y
  {
    var r := Map(s, f);
    forall y | y in r
      ensures exists x :: x in s && f(x) == y
    {
      var j :| 0 <= j < |r| && r[j] == y;
      assert s[j] in s;
    }
    forall x | x in s
      ensures f(x) in r
    {
      var j :| 0 <= j < |s| && s[j] == x;
      assert r[j] == f(x);
    }
  }

  /** The concatenation of f over s, built left to right as `+=` in a loop builds it. */
  function ConcatMap<T(!new)>(s: seq<T>, f: T -> string): string {
    if s == [] then "" else ConcatMap(s[..|s| - 1], f) + f(s[|s| - 1])
  }

  lemma ConcatMapSnoc<T(!new)>(s: seq<T>, x: T, f: T -> string)
    ensures ConcatMap(s + [x], f) == ConcatMap(s, f) + f(x)
  {
    assert (s + [x])[..|s|] == s;
  }

  /** One more `+=` of a loop over s that appends f of each element. */
  lemma ConcatMapStep<T(!new)>(prefix: string, s: seq<T>, i: int, f: T -> string, acc: string)
    requires 0 <= i < |s| && acc == prefix + ConcatMap(s[..i], f)
    ensures acc + f(s[i]) == prefix + ConcatMap(s[..i + 1], f)
  {
    PrefixStep(s, i);
    ConcatMapSnoc(s[..i], s[i], f);
  }

  predicate NoDup<T(==,!new)>(s: seq<T>) {
    forall i, j :: 0 <= i < j < |s| ==> s[i] != s[j]
  }

  /** `set.add(x)` on a JavaScript Set, whose iteration order is insertion order. */
  function SetAdd<T(==,!new)>(s: seq<T>, x: T): (r: seq<T>)
    ensures NoDup(s) ==> NoDup(r)
    ensures forall y :: y in r <==> y in s || y == x
  {
    if x in s then s else s + [x]
  }

  /** `new Set(xs)`: first occurrences of xs, in order. */
  function Dedup<T(==,!new)>(xs: seq<T>): (r: seq<T>)
    ensures NoDup(r)
    ensures forall y :: y in r <==> y in xs
  {
    if xs == [] then [] else SetAdd(Dedup(xs[..|xs| - 1]), xs[|xs| - 1])
  }

  /** Adding elements one by one to a set that already holds exactly the
      distinct elements seen so far yields `new Set(seen + [x])`. */
  lemma DedupSnoc<T(!new)>(xs: seq<T>, x: T)
    ensures Dedup(xs + [x]) == SetAdd(Dedup(xs), x)
  {
    assert (xs + [x])[..|xs|] == xs;
  }

  /** A sequence without duplicates is its own `new Set(...)`. */
  lemma {:induction false} DedupOfNoDup<T(!new)>(xs: seq<T>)
    requires NoDup(xs)
    ensures Dedup(xs) == xs
    decreases |xs|
  {
    if xs != [] {
      var n := |xs| - 1;
      DedupOfNoDup(xs[..n]);
      LastIsNew(xs);
      SplitLast(xs);
    }
  }

  /** No duplicates means every element occurs at most once. */
  lemma {:induction false} NoDupCounts<T(!new)>(s: seq<T>)
    ensures NoDup(s) <==> forall x :: multiset(s)[x] <= 1
    decreases |s|
  {
    if s != [] {
      var t, y := s[..|s| - 1], s[|s| - 1];
      NoDupCounts(t);
      SplitLast(s);
      assert multiset(s) == multiset(t) + multiset{y};
      if NoDup(s) {
        LastIsNew(s);
      } else if forall x :: multiset(s)[x] <= 1 {
        assert y !in t by {
          assert multiset(s)[y] == multiset(t)[y] + 1;
        }
        assert NoDup(t) by {
          forall x
            ensures multiset(t)[x] <= 1
          {
            assert multiset(s)[x] >= multiset(t)[x];
          }
        }
        NoDupSnoc(t, y);
      }
    }
  }

  /** A permutation has the same members. */
  lemma PermutationMembers<T(!new)>(a: seq<T>, b: seq<T>)
    requires multiset(a) == multiset(b)
    ensures forall x :: x in a <==> x in b
  {
    assert forall x :: x in a <==> x in multiset(a);
    assert forall x :: x in b <==> x in multiset(b);
  }

  /** A permutation of a duplicate-free sequence is duplicate-free. */
  lemma NoDupPermutation<T(!new)>(a: seq<T>, b: seq<T>)
    requires NoDup(a) && multiset(a) == multiset(b)
    ensures NoDup(b)
  {
    NoDupCounts(a);
    NoDupCounts(b);
  }

  /** Without duplicates, the last element is not in the prefix, which has none either. */
  lemma LastIsNew<T(!new)>(xs: seq<T>)
    requires NoDup(xs) && xs != []
    ensures xs[|xs| - 1] !in xs[..|xs| - 1] && NoDup(xs[..|xs| - 1])
  {
  }

  lemma NoDupSnoc<T(!new)>(s: seq<T>, x: T)
    requires NoDup(s) && x !in s
    ensures NoDup(s + [x])
  {
  }

  /** `prev.includes(x) ? prev.filter(y => y !== x) : [...prev, x]`. */
  function Toggle<T(==,!new)>(s: seq<T>, x: T): (r: seq<T>)
    ensures x in r <==> x !in s
    ensures forall y :: y != x ==> (y in r <==> y in s)
  {
    if x in s then Filter(s, y => y != x) else s + [x]
  }

  lemma {:induction false} FilterNoDup<T(!new)>(s: seq<T>, p: T -> bool)
    requires NoDup(s)
    ensures NoDup(Filter(s, p))
    decreases |s|
  {
    if s != [] {
      var n := |s| - 1;
      FilterNoDup(s[..n], p);
      assert s[n] !in s[..n];
    }
  }

  /** A toggle never creates a duplicate. */
  lemma ToggleNoDup<T(!new)>(s: seq<T>, x: T)
    requires NoDup(s)
    ensures NoDup(Toggle(s, x))
  {
    if x in s {
      FilterNoDup(s, y => y != x);
    }
  }

  /** Toggling the same value twice gives back the same membership and, when the
      value was absent, the very same list. */
  lemma ToggleTwice<T(!new)>(s: seq<T>, x: T)
    ensures forall y :: y in Toggle(Toggle(s, x), x) <==> y in s
    ensures x !in s ==> Toggle(Toggle(s, x), x) == s
  {
    if x !in s {
      FilterAppend(s, [x], y => y != x);
      FilterAll(s, y => y != x);
      assert Filter([x], y => y != x) == [] by {
        assert [x][..0] == [];
      }
    }
  }

  /** Filtering keeps every satisfying element with its multiplicity and drops the rest. */
  lemma {:induction false} FilterMultiset<T(!new)>(s: seq<T>, p: T -> bool, x: T)
    ensures multiset(Filter(s, p))[x] == if p(x) then multiset(s)[x] else 0
    decreases |s|
  {
    if s != [] {
      var n := |s| - 1;
      FilterMultiset(s[..n], p, x);
      SplitLast(s);
    }
  }

  /** Filtering by q after p is filtering by q alone when q implies p. */
  lemma {:induction false} FilterFilter<T(!new)>(s: seq<T>, p: T -> bool, q: T -> bool)
    requires forall x :: q(x) ==> p(x)
    ensures Filter(Filter(s, p), q) == Filter(s, q)
    decreases |s|
  {
    if s != [] {
      var n := |s| - 1;
      FilterFilter(s[..n], p, q);
      FilterAppend(Filter(s[..n], p), if p(s[n]) then [s[n]] else [], q);
      assert [s[n]][..0] == [];
    }
  }

  /** A filter and the filter by the opposite predicate split s in two. */
  lemma FilterComplement<T(!new)>(s: seq<T>, p: T -> bool, q: T -> bool)
    requires forall x :: p(x) <==> !q(x)
    ensures |Filter(s, p)| + |Filter(s, q)| == |s|
    ensures multiset(Filter(s, p)) + multiset(Filter(s, q)) == multiset(s)
  {
    FilterPartition3(s, p, q, (x: T) => false);
    FilterNone(s, (x: T) => false);
  }

  /** A duplicate-free sequence whose elements all occur in b is no longer than b. */
  lemma {:induction false} NoDupSubsetLength<T(!new)>(a: seq<T>, b: seq<T>)
    requires NoDup(a) && forall x :: x in a ==> x in b
    ensures |a| <= |b|
    decreases |a|
  {
    if a != [] {
      var n := |a| - 1;
      var x := a[n];
      var rest := Filter(b, (y: T) => y != x);
      FilterComplement(b, (y: T) => y != x, (y: T) => y == x);
      assert x in Filter(b, (y: T) => y == x);
      forall y | y in a[..n]
        ensures y in rest
      {
        assert y != x;
      }
      NoDupSubsetLength(a[..n], rest);
    }
  }

  lemma MapSnoc<T(!new), U>(s: seq<T>, x: T, f: T -> U)
    ensures Map(s + [x], f) == Map(s, f) + [f(x)]
  {
    assert (s + [x])[..|s|] == s;
  }

  lemma FilterSnoc<T(!new)>(s: seq<T>, x: T, p: T -> bool)
    ensures Filter(s + [x], p) == Filter(s, p) + (if p(x) then [x] else [])
  {
    assert (s + [x])[..|s|] == s;
  }

  lemma CountSnoc<T(!new)>(s: seq<T>, x: T, p: T -> bool)
    ensures Count(s + [x], p) == Count(s, p) + (if p(x) then 1 else 0)
  {
    FilterSnoc(s, x, p);
  }

  /** One more element of `new Set(s.filter(p).map(f))`. */
  lemma DedupMapFilterSnoc<T(!new), U(!new)>(s: seq<T>, x: T, p: T -> bool, f: T -> U)
    ensures Dedup(Map(Filter(s + [x], p), f))
         == if p(x) then SetAdd(Dedup(Map(Filter(s, p), f)), f(x)) else Dedup(Map(Filter(s, p), f))
  {
    var a := Filter(s, p);
    var b := Filter(s + [x], p);
    FilterSnoc(s, x, p);
    if p(x) {
      assert b == a + [x];
      var ma := Map(a, f);
      MapSnoc(a, x, f);
      assert Map(b, f) == ma + [f(x)];
      DedupSnoc(ma, f(x));
    } else {
      assert b == a;
    }
  }
}
