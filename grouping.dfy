/** Grouping a list into a Map keyed by a function of its elements, as the
    `forEach`/`reduce` loops that build `groups[key].push(x)` do: each key
    that occurs maps to the elements with that key in input order, and the
    Map's keys are in insertion order. */
module Grouping {
  import opened Common

  function KeyIs<T, K(==)>(key: T -> K, k: K): T -> bool {
    (x: T) => key(x) == k
  }

  /** The keys of the elements, first occurrences only, in input order. */
  function KeysOf<T(!new), K(==,!new)>(xs: seq<T>, key: T -> K): seq<K> {
    Dedup(Map(xs, key))
  }

  /** The Map's keys, listed once each in `keys`. */
  ghost predicate KeysAgree<T, K(!new)>(keys: seq<K>, grouped: map<K, seq<T>>) {
    NoDup(keys) && forall d :: d in keys <==> d in grouped
  }

  /** Every element among the first i has its key in the Map. */
  ghost predicate Covers<T(!new), K(!new)>(xs: seq<T>, key: T -> K, i: nat, grouped: map<K, seq<T>>)
    requires i <= |xs|
  {
    forall j :: 0 <= j < i ==> key(xs[j]) in grouped
  }

  /** Each key's list is the elements among the first i with that key. */
  ghost predicate Lists<T(!new), K(!new)>(xs: seq<T>, key: T -> K, i: nat, grouped: map<K, seq<T>>)
    requires i <= |xs|
  {
    forall d :: d in grouped ==> grouped[d] == Filter(xs[..i], KeyIs(key, d)) && grouped[d] != []
  }

  /** `acc[k] || []`. */
  function ListOf<T, K(==)>(grouped: map<K, seq<T>>, k: K): seq<T> {
    if k in grouped then grouped[k] else []
  }

  /** The insertion-ordered keys after one element more. */
  lemma KeysStep<T(!new), K(!new)>(xs: seq<T>, key: T -> K, i: nat)
    requires i < |xs|
    ensures KeysOf(xs[..i + 1], key) == SetAdd(KeysOf(xs[..i], key), key(xs[i]))
  {
    assert xs[..i + 1] == xs[..i] + [xs[i]];
    MapSnoc(xs[..i], xs[i], key);
    DedupSnoc(Map(xs[..i], key), key(xs[i]));
  }

  /** One step of the grouping loop: the list of the element's key grows by
      the element and every other key's list stays the filter of the longer
      prefix. */
  lemma GroupStep<T(!new), K(!new)>(xs: seq<T>, key: T -> K, i: nat, grouped: map<K, seq<T>>)
    requires i < |xs|
    requires forall k :: k in grouped ==> grouped[k] == Filter(xs[..i], KeyIs(key, k))
    requires forall j :: 0 <= j < i ==> key(xs[j]) in grouped
    ensures forall k :: k in grouped && k != key(xs[i]) ==> grouped[k] == Filter(xs[..i + 1], KeyIs(key, k))
    ensures key(xs[i]) in grouped ==> grouped[key(xs[i])] + [xs[i]] == Filter(xs[..i + 1], KeyIs(key, key(xs[i])))
    ensures key(xs[i]) !in grouped ==> [xs[i]] == Filter(xs[..i + 1], KeyIs(key, key(xs[i])))
  {
    assert xs[..i + 1] == xs[..i] + [xs[i]];
    forall k
      ensures Filter(xs[..i + 1], KeyIs(key, k))
           == Filter(xs[..i], KeyIs(key, k)) + (if key(xs[i]) == k then [xs[i]] else [])
    {
      FilterSnoc(xs[..i], xs[i], KeyIs(key, k));
    }
    var d := key(xs[i]);
    if d !in grouped {
      forall j | 0 <= j < i
        ensures !KeyIs(key, d)(xs[..i][j])
      {
      }
      FilterEmpty(xs[..i], KeyIs(key, d));
    }
  }

  /** Pushing the element keeps every list the filter of the longer prefix. */
  lemma ListsStep<T(!new), K(!new)>(xs: seq<T>, key: T -> K, i: nat, grouped: map<K, seq<T>>)
    requires i < |xs| && Covers(xs, key, i, grouped) && Lists(xs, key, i, grouped)
    ensures Lists(xs, key, i + 1, grouped[key(xs[i]) := ListOf(grouped, key(xs[i])) + [xs[i]]])
  {
    var k := key(xs[i]);
    var g := grouped[k := ListOf(grouped, k) + [xs[i]]];
    GroupStep(xs, key, i, grouped);
    forall d | d in g
      ensures g[d] == Filter(xs[..i + 1], KeyIs(key, d)) && g[d] != []
    {
      if d != k {
        assert g[d] == grouped[d];
      }
    }
  }

  lemma CoversStep<T(!new), K(!new)>(xs: seq<T>, key: T -> K, i: nat, grouped: map<K, seq<T>>)
    requires i < |xs| && Covers(xs, key, i, grouped)
    ensures Covers(xs, key, i + 1, grouped[key(xs[i]) := ListOf(grouped, key(xs[i])) + [xs[i]]])
  {
  }

  /** A new key is appended to the insertion order; a known one leaves it. */
  lemma KeysAgreeStep<T(!new), K(!new)>(xs: seq<T>, key: T -> K, i: nat, keys: seq<K>, grouped: map<K, seq<T>>)
    requires i < |xs| && KeysAgree(keys, grouped) && keys == KeysOf(xs[..i], key)
    ensures var k := key(xs[i]);
            var keys' := if k in grouped then keys else keys + [k];
            KeysAgree(keys', grouped[k := ListOf(grouped, k) + [xs[i]]]) && keys' == KeysOf(xs[..i + 1], key)
  {
    KeysStep(xs, key, i);
    if key(xs[i]) !in grouped {
      NoDupSnoc(keys, key(xs[i]));
    }
  }

  /** The grouping loop: a Map from each key that occurs to the elements with
      that key in input order, and its keys in insertion order. */
  method GroupByKey<T(!new), K(==,!new)>(xs: seq<T>, key: T -> K) returns (keys: seq<K>, grouped: map<K, seq<T>>)
    ensures keys == KeysOf(xs, key) && NoDup(keys)
    ensures forall d :: d in keys <==> d in grouped
    ensures forall j :: 0 <= j < |keys| ==> keys[j] in grouped
    ensures forall x :: x in xs ==> key(x) in grouped
    ensures forall d :: d in grouped ==> grouped[d] == Filter(xs, KeyIs(key, d)) && grouped[d] != []
  {
    keys := [];
    grouped := map[];
    var i := 0;
    while i < |xs|
      invariant 0 <= i <= |xs|
      invariant KeysAgree(keys, grouped) && keys == KeysOf(xs[..i], key)
      invariant Covers(xs, key, i, grouped) && Lists(xs, key, i, grouped)
    {
      var x := xs[i];
      var k := key(x);
      KeysAgreeStep(xs, key, i, keys, grouped);
      CoversStep(xs, key, i, grouped);
      ListsStep(xs, key, i, grouped);
      if k !in grouped {
        keys := keys + [k];
      }
      grouped := grouped[k := ListOf(grouped, k) + [x]];
      i := i + 1;
    }
    assert xs[..|xs|] == xs;
  }
}
