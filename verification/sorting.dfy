/** The stable sort `Array.prototype.sort` performs with a key comparator
    `(a, b) => key(a) - key(b)`, as an insertion sort on sequences. */
module Sorting {

  /** `s` is non-decreasing in `key`. */
  ghost predicate Sorted<T>(s: seq<T>, key: T -> int) {
    forall i, j :: 0 <= i < j < |s| ==> key(s[i]) <= key(s[j])
  }

  /** The elements of `s` whose key is `k`, in their order in `s`. */
  function WithKey<T>(s: seq<T>, key: T -> int, k: int): seq<T> {
    if s == [] then [] else (if key(s[0]) == k then [s[0]] else []) + WithKey(s[1..], key, k)
  }

  lemma {:induction false} WithKeyMembers<T>(s: seq<T>, key: T -> int, k: int, x: T)
    ensures x in WithKey(s, key, k) <==> x in s && key(x) == k
  {
    if s != [] {
      WithKeyMembers(s[1..], key, k, x);
    }
  }

  /** Puts `x` in front of the first element whose key is not smaller, so it
      precedes every element with an equal key. */
  function Insert<T>(x: T, s: seq<T>, key: T -> int): (r: seq<T>)
    requires Sorted(s, key)
    ensures Sorted(r, key)
    ensures multiset(r) == multiset(s) + multiset{x}
  {
    if s == [] || key(x) <= key(s[0]) then
      [x] + s
    else
      var t := Insert(x, s[1..], key);
      assert s == [s[0]] + s[1..];
      InsertBounded(x, s, t, key);
      ConsSorted(s[0], t, key);
      [s[0]] + t
  }

  /** Every element of `t`, which holds the tail of `s` and an `x` ordered
      after the head, has a key no smaller than the head's. */
  lemma InsertBounded<T>(x: T, s: seq<T>, t: seq<T>, key: T -> int)
    requires Sorted(s, key) && s != [] && key(s[0]) < key(x)
    requires multiset(t) == multiset(s[1..]) + multiset{x}
    ensures forall j :: 0 <= j < |t| ==> key(s[0]) <= key(t[j])
  {
    forall j | 0 <= j < |t| ensures key(s[0]) <= key(t[j]) {
      assert t[j] in multiset(t);
      if t[j] != x {
        assert t[j] in s[1..];
      }
    }
  }

  /** A sorted list stays sorted under a head no larger than its elements. */
  lemma ConsSorted<T>(h: T, t: seq<T>, key: T -> int)
    requires Sorted(t, key)
    requires forall j :: 0 <= j < |t| ==> key(h) <= key(t[j])
    ensures Sorted([h] + t, key)
  {
    var r := [h] + t;
    forall i, j | 0 <= i < j < |r| ensures key(r[i]) <= key(r[j]) {
      assert r[j] == t[j - 1];
      if i > 0 {
        assert r[i] == t[i - 1];
      }
    }
  }

  /** Inserting `x` adds it in front of the elements with its key, and
      leaves the order of every key's elements otherwise unchanged. */
  lemma {:induction false} InsertWithKey<T>(x: T, s: seq<T>, key: T -> int, k: int)
    requires Sorted(s, key)
    ensures WithKey(Insert(x, s, key), key, k) == (if key(x) == k then [x] else []) + WithKey(s, key, k)
  {
    if s == [] || key(x) <= key(s[0]) {
      WithKeyCons(x, s, key, k);
    } else {
      var t := Insert(x, s[1..], key);
      assert Insert(x, s, key) == [s[0]] + t;
      InsertWithKey(x, s[1..], key, k);
      WithKeyCons(s[0], t, key, k);
      assert key(x) == k ==> key(s[0]) != k;
    }
  }

  lemma WithKeyCons<T>(h: T, t: seq<T>, key: T -> int, k: int)
    ensures WithKey([h] + t, key, k) == (if key(h) == k then [h] else []) + WithKey(t, key, k)
  {
    assert ([h] + t)[1..] == t;
  }

  /** The list sorted by `key`, elements with equal keys keeping their order. */
  function SortBy<T>(xs: seq<T>, key: T -> int): (r: seq<T>)
    ensures Sorted(r, key)
    ensures multiset(r) == multiset(xs)
    ensures |r| == |xs|
  {
    if xs == [] then []
    else
      var r := Insert(xs[0], SortBy(xs[1..], key), key);
      assert xs == [xs[0]] + xs[1..];
      assert |r| == |multiset(r)| == |multiset(xs)| == |xs|;
      r
  }

  /** Sorting is stable: the elements of each key keep their input order. */
  lemma {:induction false} SortIsStable<T>(xs: seq<T>, key: T -> int, k: int)
    ensures WithKey(SortBy(xs, key), key, k) == WithKey(xs, key, k)
  {
    if xs != [] {
      SortIsStable(xs[1..], key, k);
      InsertWithKey(xs[0], SortBy(xs[1..], key), key, k);
    }
  }

  /** Two elements already in key order stay as they are. */
  lemma SortTwo<T>(x: T, y: T, key: T -> int)
    requires key(x) <= key(y)
    ensures SortBy([x, y], key) == [x, y]
  {
    assert [x, y][1..] == [y];
    assert SortBy([y], key) == Insert(y, SortBy([], key), key) == [y];
  }

  /** The first element of a non-empty list has its own key among the
      list's elements (a helper for the uniqueness argument below). */
  lemma HeadKeyPresent<T>(s: seq<T>, key: T -> int)
    ensures s != [] ==> WithKey(s, key, key(s[0])) != []
  {
  }

  /** A sorted list is determined by the order of each key's elements: so
      `SortBy` is the result of every stable sort by `key`. */
  lemma {:induction false} SortedIsUnique<T>(a: seq<T>, b: seq<T>, key: T -> int)
    requires Sorted(a, key) && Sorted(b, key)
    requires forall k :: WithKey(a, key, k) == WithKey(b, key, k)
    ensures a == b
    decreases |a|
  {
    if a == [] || b == [] {
      HeadKeyPresent(a, key);
      HeadKeyPresent(b, key);
    } else {
      var ka, kb := key(a[0]), key(b[0]);
      WithKeyMembers(a, key, kb, b[0]);
      WithKeyMembers(b, key, kb, b[0]);
      WithKeyMembers(b, key, ka, a[0]);
      WithKeyMembers(a, key, ka, a[0]);
      var ia :| 0 <= ia < |a| && a[ia] == b[0];
      var ib :| 0 <= ib < |b| && b[ib] == a[0];
      assert ka <= key(a[ia]) == kb;
      assert kb <= key(b[ib]) == ka;
      assert WithKey(a, key, ka)[0] == a[0];
      assert WithKey(b, key, ka)[0] == b[0];
      forall k ensures WithKey(a[1..], key, k) == WithKey(b[1..], key, k) {
        var p := if key(a[0]) == k then [a[0]] else [];
        assert WithKey(a, key, k) == p + WithKey(a[1..], key, k);
        assert WithKey(b, key, k) == p + WithKey(b[1..], key, k);
        assert WithKey(a[1..], key, k) == WithKey(a, key, k)[|p|..];
      }
      SortedIsUnique(a[1..], b[1..], key);
      assert a == [a[0]] + a[1..];
      assert b == [b[0]] + b[1..];
    }
  }

  /** Whatever a stable sort by `key` returns is `SortBy(xs, key)`. */
  lemma StableSortIsSortBy<T>(xs: seq<T>, r: seq<T>, key: T -> int)
    requires Sorted(r, key)
    requires forall k :: WithKey(r, key, k) == WithKey(xs, key, k)
    ensures r == SortBy(xs, key)
  {
    forall k ensures WithKey(r, key, k) == WithKey(SortBy(xs, key), key, k) {
      SortIsStable(xs, key, k);
    }
    SortedIsUnique(r, SortBy(xs, key), key);
  }
}
