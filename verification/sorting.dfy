/**
 The two ways of finding an element with the smallest integer key:
 `sorted(comparingInt(key)).findFirst()` and `min(comparingInt(key))`.
 `sorted` on a sequential stream is stable, modelled here as insertion sort
 that places an element before every later element with an equal or larger
 key; `min` is the reduction `BinaryOperator.minBy`, which keeps the earlier
 of two elements unless the later one is strictly smaller.
 */
module Sorting {
  import opened Wrappers
  import opened Seqs

  /** Keys never decrease along `s`. */
  predicate SortedBy<T>(s: seq<T>, key: T -> int) {
    forall i, j :: 0 <= i < j < |s| ==> key(s[i]) <= key(s[j])
  }

  /** `s[i]` has the smallest key of `s`, and no earlier element has a key
      that small. */
  predicate IsFirstMin<T>(s: seq<T>, key: T -> int, i: int) {
    && 0 <= i < |s|
    && (forall j :: 0 <= j < |s| ==> key(s[i]) <= key(s[j]))
    && (forall j :: 0 <= j < i ==> key(s[i]) < key(s[j]))
  }

  /** Inserts `x` into `t` before the first element whose key is at least
      the key of `x`. */
  function Insert<T(==)>(x: T, t: seq<T>, key: T -> int): (r: seq<T>)
    ensures multiset(r) == multiset(t) + multiset{x}
    ensures |r| == |t| + 1
    ensures r[0] == x || (t != [] && r[0] == t[0])
  {
    if t == [] then [x]
    else if key(x) <= key(t[0]) then [x] + t
    else
      assert t == [t[0]] + t[1..];
      [t[0]] + Insert(x, t[1..], key)
  }

  /** Inserting into a sorted sequence gives a sorted sequence. */
  lemma {:induction false} InsertKeepsSorted<T>(x: T, t: seq<T>, key: T -> int)
    requires SortedBy(t, key)
    ensures SortedBy(Insert(x, t, key), key)
    decreases |t|
  {
    if t != [] && key(t[0]) < key(x) {
      InsertKeepsSorted(x, t[1..], key);
      var rest := Insert(x, t[1..], key);
      assert Insert(x, t, key) == [t[0]] + rest;
      forall i | 0 <= i < |rest| ensures key(t[0]) <= key(rest[i]) {
        assert rest[i] in multiset(rest);
        assert rest[i] in multiset(t[1..]) + multiset{x};
        if rest[i] != x {
          assert rest[i] in t[1..];
        }
      }
    }
  }

  /** Stable sort of `s` by `key`. */
  function SortBy<T(==)>(s: seq<T>, key: T -> int): (r: seq<T>)
    ensures multiset(r) == multiset(s)
    ensures SortedBy(r, key)
  {
    if s == [] then []
    else
      assert s == [s[0]] + s[1..];
      InsertKeepsSorted(s[0], SortBy(s[1..], key), key);
      Insert(s[0], SortBy(s[1..], key), key)
  }

  /** `sorted(comparingInt(key)).findFirst()`. */
  function FirstOfSorted<T(==)>(s: seq<T>, key: T -> int): Option<T> {
    var t := SortBy(s, key);
    if t == [] then None else Some(t[0])
  }

  /** The fold step of `BinaryOperator.minBy`: the accumulated element wins
      ties. */
  function ReduceMin<T>(acc: T, rest: seq<T>, key: T -> int): T
    decreases |rest|
  {
    if rest == [] then acc
    else ReduceMin(if key(acc) <= key(rest[0]) then acc else rest[0], rest[1..], key)
  }

  /** `min(comparingInt(key))`: a left-to-right reduction of `s`. */
  function MinBy<T>(s: seq<T>, key: T -> int): Option<T> {
    if s == [] then None else Some(ReduceMin(s[0], s[1..], key))
  }

  /** The position of the first element with the smallest key; a reference
      definition both ways of finding the minimum are compared with. */
  function FirstMinIndex<T>(s: seq<T>, key: T -> int): (i: nat)
    requires s != []
    ensures IsFirstMin(s, key, i)
    decreases |s|
  {
    if |s| == 1 then 0
    else
      var m := FirstMinIndex(s[1..], key);
      if key(s[0]) <= key(s[1 + m]) then 0 else 1 + m
  }

  /** There is only one first minimum. */
  lemma {:induction false} FirstMinUnique<T>(s: seq<T>, key: T -> int, i: int, j: int)
    requires IsFirstMin(s, key, i) && IsFirstMin(s, key, j)
    ensures i == j
  {
    assert key(s[i]) <= key(s[j]);
    assert key(s[j]) <= key(s[i]);
  }

  /** Sorting keeps, for every key value, the elements with that key in
      their original order: the sort is stable. */
  lemma {:induction false} InsertKeepsKeyOrder<T>(x: T, t: seq<T>, key: T -> int, k: int)
    requires SortedBy(t, key)
    ensures Filter(Insert(x, t, key), HasKey(key, k)) ==
              (if key(x) == k then [x] else []) + Filter(t, HasKey(key, k))
    decreases |t|
  {
    if t != [] {
      if key(x) <= key(t[0]) {
        assert ([x] + t)[1..] == t;
      } else {
        InsertKeepsKeyOrder(x, t[1..], key, k);
        var r := [t[0]] + Insert(x, t[1..], key);
        assert r[1..] == Insert(x, t[1..], key);
      }
    }
  }

  lemma {:induction false} SortIsStable<T>(s: seq<T>, key: T -> int, k: int)
    ensures Filter(SortBy(s, key), HasKey(key, k)) == Filter(s, HasKey(key, k))
    decreases |s|
  {
    if s != [] {
      SortIsStable(s[1..], key, k);
      InsertKeepsKeyOrder(s[0], SortBy(s[1..], key), key, k);
    }
  }

  /** The head of the stable sort is the first element with the smallest
      key. */
  lemma {:induction false} SortedHeadIsFirstMin<T>(s: seq<T>, key: T -> int)
    requires s != []
    ensures SortBy(s, key) != [] && SortBy(s, key)[0] == s[FirstMinIndex(s, key)]
    decreases |s|
  {
    assert |SortBy(s, key)| == |multiset(s)| == |s|;
    if |s| > 1 {
      SortedHeadIsFirstMin(s[1..], key);
      var t := SortBy(s[1..], key);
      assert t[0] == s[1..][FirstMinIndex(s[1..], key)];
    }
  }

  /** `sorted().findFirst()` yields nothing for an empty list and otherwise
      the first element with the smallest key. */
  lemma {:induction false} FirstOfSortedIsFirstMin<T>(s: seq<T>, key: T -> int)
    ensures FirstOfSorted(s, key) == if s == [] then None else Some(s[FirstMinIndex(s, key)])
  {
    if s != [] {
      SortedHeadIsFirstMin(s, key);
    }
  }

  /** Continuing the reduction from the first minimum of a prefix ends at
      the first minimum of the whole sequence. */
  lemma {:induction false} ReduceMinFrom<T>(s: seq<T>, key: T -> int, n: nat)
    requires 1 <= n <= |s|
    ensures ReduceMin(s[FirstMinIndex(s[..n], key)], s[n..], key) == s[FirstMinIndex(s, key)]
    decreases |s| - n
  {
    var i := FirstMinIndex(s[..n], key);
    assert s[..n][i] == s[i];
    if n == |s| {
      assert s[..n] == s;
    } else {
      var i' := FirstMinIndex(s[..n + 1], key);
      assert s[n..][0] == s[n] && s[n..][1..] == s[n + 1..];
      if key(s[i]) <= key(s[n]) {
        var t := s[..n + 1];
        assert IsFirstMin(t, key, i) by {
          forall j | 0 <= j < n ensures t[j] == s[..n][j] { }
        }
        FirstMinUnique(s[..n + 1], key, i, i');
      } else {
        var t := s[..n + 1];
        assert IsFirstMin(t, key, n) by {
          forall j | 0 <= j < n ensures key(s[n]) < key(t[j]) {
            assert t[j] == s[..n][j];
          }
        }
        FirstMinUnique(s[..n + 1], key, n, i');
      }
      ReduceMinFrom(s, key, n + 1);
    }
  }

  /** `min()` yields nothing for an empty list and otherwise the first
      element with the smallest key. */
  lemma {:induction false} MinByIsFirstMin<T>(s: seq<T>, key: T -> int)
    ensures MinBy(s, key) == if s == [] then None else Some(s[FirstMinIndex(s, key)])
  {
    if s != [] {
      assert FirstMinIndex(s[..1], key) == 0;
      ReduceMinFrom(s, key, 1);
    }
  }
}
