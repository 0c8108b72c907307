/**
 The collecting stages: `Collectors.partitioningBy`, `Collectors.groupingBy`,
 looking a group up, and flattening the groups of a map back into one list
 (`values().stream().flatMap(List::stream)`).
 */
module Grouping {
  import opened Wrappers
  import opened Seqs

  /** The two lists `partitioningBy` produces; its map always holds both
      keys, so a pair models it exactly. */
  datatype Partition<T> = Partition(trueSide: seq<T>, falseSide: seq<T>)

  /** `partitioningBy(p)`: one pass over `s`, appending every element to the
      list of its side. */
  function PartitionBy<T>(s: seq<T>, p: T -> bool): (parts: Partition<T>)
    ensures parts.trueSide == Filter(s, p)
    ensures parts.falseSide == Filter(s, Not(p))
    decreases |s|
  {
    if s == [] then Partition([], [])
    else
      var n := |s| - 1;
      var prev := PartitionBy(s[..n], p);
      FilterSnoc(s, p);
      FilterSnoc(s, Not(p));
      if p(s[n]) then Partition(prev.trueSide + [s[n]], prev.falseSide)
      else Partition(prev.trueSide, prev.falseSide + [s[n]])
  }

  /** Every element is on exactly one side, on the side its predicate
      value selects, and each side keeps the order of `s`. */
  lemma {:induction false} PartitionByProperties<T>(s: seq<T>, p: T -> bool)
    ensures |PartitionBy(s, p).trueSide| + |PartitionBy(s, p).falseSide| == |s|
    ensures multiset(PartitionBy(s, p).trueSide) + multiset(PartitionBy(s, p).falseSide) == multiset(s)
    ensures forall i :: 0 <= i < |PartitionBy(s, p).trueSide| ==> p(PartitionBy(s, p).trueSide[i])
    ensures forall i :: 0 <= i < |PartitionBy(s, p).falseSide| ==> !p(PartitionBy(s, p).falseSide[i])
    ensures IsSubseq(PartitionBy(s, p).trueSide, s)
    ensures IsSubseq(PartitionBy(s, p).falseSide, s)
  {
    FilterComplement(s, p);
    FilterIsSubseq(s, p);
    FilterIsSubseq(s, Not(p));
  }

  /** The keys that occur among the elements of `s`. */
  function KeysOf<T(==), K>(s: seq<T>, key: T -> K): set<K> {
    set x | x in s :: key(x)
  }

  /** `map.get(k)`, with a missing key read as an empty group. */
  function Lookup<T, K(==)>(m: map<K, seq<T>>, k: K): seq<T> {
    if k in m then m[k] else []
  }

  /** `map.get(k)` as the program calls it: absent (Java's `null`) for a
      missing key, the present group otherwise. */
  function Get<T, K(==)>(m: map<K, seq<T>>, k: K): (r: Option<seq<T>>)
    ensures r.Some? <==> k in m
    ensures r.Some? ==> r.value == Lookup(m, k)
  {
    if k in m then Some(m[k]) else None
  }

  lemma {:induction false} FilterSnocAllKeys<T, K>(s: seq<T>, key: T -> K)
    requires s != []
    ensures forall k :: Filter(s, HasKey(key, k)) ==
              Filter(s[..|s| - 1], HasKey(key, k)) + (if key(s[|s| - 1]) == k then [s[|s| - 1]] else [])
  {
    forall k {
      FilterSnoc(s, HasKey(key, k));
    }
  }

  /** `groupingBy(key)`: one pass over `s`, appending every element to the
      list of its key. A key is present exactly when some element has it,
      and its group holds exactly the elements with that key, in the order
      of `s`. */
  function GroupBy<T(==), K(==,!new)>(s: seq<T>, key: T -> K): (m: map<K, seq<T>>)
    ensures m.Keys == KeysOf(s, key)
    ensures forall k :: Lookup(m, k) == Filter(s, HasKey(key, k))
    decreases |s|
  {
    if s == [] then map[]
    else
      var n := |s| - 1;
      var prev := GroupBy(s[..n], key);
      FilterSnocAllKeys(s, key);
      assert s == s[..n] + [s[n]];
      prev[key(s[n]) := Lookup(prev, key(s[n])) + [s[n]]]
  }

  /** Every group lists only elements with its key, and keeps the order of
      `s`; a present key has a non-empty group. */
  lemma {:induction false} GroupByProperties<T, K(!new)>(s: seq<T>, key: T -> K, k: K)
    ensures forall i :: 0 <= i < |Lookup(GroupBy(s, key), k)| ==> key(Lookup(GroupBy(s, key), k)[i]) == k
    ensures IsSubseq(Lookup(GroupBy(s, key), k), s)
    ensures k in GroupBy(s, key) <==> exists i :: 0 <= i < |s| && key(s[i]) == k
    ensures k in GroupBy(s, key) ==> GroupBy(s, key)[k] != []
  {
    FilterIsSubseq(s, HasKey(key, k));
    if k in GroupBy(s, key) {
      var x :| x in s && key(x) == k;
      FilterMembership(s, HasKey(key, k), x);
    }
  }

  /** `get` on the map `groupingBy` builds: absent exactly when no element
      has the key, and otherwise the non-empty group of the elements with
      that key, in input order. */
  lemma {:induction false} GetOfGroupBy<T, K(!new)>(s: seq<T>, key: T -> K, k: K)
    ensures Get(GroupBy(s, key), k).Some? <==> exists i :: 0 <= i < |s| && key(s[i]) == k
    ensures Get(GroupBy(s, key), k).Some? ==> Get(GroupBy(s, key), k).value == Filter(s, HasKey(key, k))
    ensures Get(GroupBy(s, key), k).Some? ==> Get(GroupBy(s, key), k).value != []
  {
    GroupByProperties(s, key, k);
  }

  /** `values().stream().flatMap(List::stream)`: the groups of `m` one after
      another, in the iteration order `order` of the map's keys. */
  function Flatten<T, K(==)>(m: map<K, seq<T>>, order: seq<K>): seq<T> {
    if order == [] then [] else Lookup(m, order[0]) + Flatten(m, order[1..])
  }

  /** `order` lists every key of `keys` exactly once. */
  predicate Enumerates<K(==)>(order: seq<K>, keys: set<K>) {
    NoDuplicates(order) && (forall i :: 0 <= i < |order| ==> order[i] in keys)
      && (forall k :: k in keys ==> k in order)
  }

  /** An iteration order of a hash map's keys: some enumeration of them,
      which the source does not fix. */
  method SomeOrder<K(==)>(keys: set<K>) returns (order: seq<K>)
    ensures Enumerates(order, keys)
  {
    order := [];
    var rest := keys;
    while rest != {}
      invariant rest <= keys
      invariant NoDuplicates(order)
      invariant forall i :: 0 <= i < |order| ==> order[i] in keys && order[i] !in rest
      invariant forall k :: k in keys ==> k in order || k in rest
      decreases rest
    {
      var k :| k in rest;
      order := order + [k];
      rest := rest - {k};
    }
  }

  /** Flattening the groups of `s` in an order without repeated keys keeps
      each element as often as it occurs in `s` when its key is listed, and
      drops it otherwise. */
  lemma {:induction false} FlattenMultiplicity<T, K(!new)>(s: seq<T>, key: T -> K, order: seq<K>, x: T)
    requires NoDuplicates(order)
    ensures multiset(Flatten(GroupBy(s, key), order))[x] == if key(x) in order then multiset(s)[x] else 0
    decreases |order|
  {
    if order != [] {
      var m := GroupBy(s, key);
      FlattenMultiplicity(s, key, order[1..], x);
      FilterMultiplicity(s, HasKey(key, order[0]), x);
      assert Lookup(m, order[0]) == Filter(s, HasKey(key, order[0]));
      assert key(x) in order <==> key(x) == order[0] || key(x) in order[1..];
      assert key(x) == order[0] ==> key(x) !in order[1..];
    }
  }

  /** Grouping and then flattening in any enumeration of the keys neither
      adds nor drops an element: the result is a permutation of `s`. */
  lemma {:induction false} FlattenGroupsIsPermutation<T(!new), K(!new)>(s: seq<T>, key: T -> K, order: seq<K>)
    requires NoDuplicates(order)
    requires forall k :: k in KeysOf(s, key) ==> k in order
    ensures multiset(Flatten(GroupBy(s, key), order)) == multiset(s)
    ensures |Flatten(GroupBy(s, key), order)| == |s|
  {
    var r := Flatten(GroupBy(s, key), order);
    forall x
      ensures multiset(r)[x] == multiset(s)[x]
    {
      FlattenMultiplicity(s, key, order, x);
      if x in s {
        assert key(x) in KeysOf(s, key);
      }
    }
    assert multiset(r) == multiset(s);
    assert |r| == |multiset(r)| == |multiset(s)| == |s|;
  }

  /** Within one key, the flattened list keeps the order of `s`: its
      elements with key `k` are exactly the group of `k`, when `k` is listed. */
  lemma {:induction false} FlattenKeepsGroupOrder<T, K(!new)>(s: seq<T>, key: T -> K, order: seq<K>, k: K)
    requires NoDuplicates(order)
    ensures Filter(Flatten(GroupBy(s, key), order), HasKey(key, k)) ==
              if k in order then Filter(s, HasKey(key, k)) else []
    decreases |order|
  {
    if order != [] {
      var m := GroupBy(s, key);
      var g := Filter(s, HasKey(key, order[0]));
      assert Lookup(m, order[0]) == g;
      FlattenKeepsGroupOrder(s, key, order[1..], k);
      FilterConcat(g, Flatten(m, order[1..]), HasKey(key, k));
      if order[0] == k {
        FilterKeepsAll(g, HasKey(key, k));
        assert k !in order[1..];
      } else {
        FilterKeepsNone(g, HasKey(key, k));
        assert k in order <==> k in order[1..];
      }
    }
  }
}
