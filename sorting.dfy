/**
 * Array.prototype.sort with a comparator of the form `(a, b) => key(a) - key(b)`
 * over integer keys. Such a comparator is consistent, and the sort is stable
 * (section 23.1.3.30 of ECMA-262, 2023 edition), so its result is fixed:
 * ascending keys, and elements with equal keys in their input order. The
 * reference definition here is an insertion sort; StableSortIsUnique shows
 * that every sorted, stable rearrangement equals it.
 */
module Sorting {
  import opened Sequences

  predicate SortedBy<T>(key: T -> int, s: seq<T>) {
    forall i, j :: 0 <= i < j < |s| ==> key(s[i]) <= key(s[j])
  }

  /** `x` placed just before the first element of `s` whose key is not below its own. */
  function InsertBy<T>(key: T -> int, x: T, s: seq<T>): (r: seq<T>)
    ensures multiset(r) == multiset(s) + multiset{x}
  {
    if s == [] then [x]
    else if key(x) <= key(s[0]) then [x] + s
    else
      assert s == [s[0]] + s[1..];
      [s[0]] + InsertBy(key, x, s[1..])
  }

  /** A one-element list is already sorted. */
  lemma SortBySingleton<T>(key: T -> int, x: T)
    ensures SortBy(key, [x]) == [x]
  {
    assert [x][1..] == [];
  }

  lemma {:induction false} InsertKeepsSorted<T>(key: T -> int, x: T, s: seq<T>)
    requires SortedBy(key, s)
    ensures SortedBy(key, InsertBy(key, x, s))
  {
    if s != [] && key(x) > key(s[0]) {
      var rest := InsertBy(key, x, s[1..]);
      InsertKeepsSorted(key, x, s[1..]);
      assert s == [s[0]] + s[1..];
      forall y | y in rest ensures key(s[0]) <= key(y) {
        assert y in multiset(rest);
        if y != x {
          assert y in multiset(s[1..]);
          var j :| 0 <= j < |s[1..]| && s[1..][j] == y;
          assert s[1 + j] == y;
        }
      }
      var r := [s[0]] + rest;
      forall i, j | 0 <= i < j < |r| ensures key(r[i]) <= key(r[j]) {
        assert r[j] == rest[j - 1];
        if i > 0 {
          assert r[i] == rest[i - 1];
        } else {
          assert rest[j - 1] in rest;
        }
      }
    }
  }

  /** Stable ascending sort by `key`. */
  function SortBy<T>(key: T -> int, s: seq<T>): (r: seq<T>)
    ensures multiset(r) == multiset(s)
    ensures SortedBy(key, r)
  {
    if s == [] then []
    else
      var rest := SortBy(key, s[1..]);
      assert s == [s[0]] + s[1..];
      InsertKeepsSorted(key, s[0], rest);
      InsertBy(key, s[0], rest)
  }

  /** The elements of `s` with key `k`, in their order in `s`. */
  function WithKey<T(!new)>(key: T -> int, s: seq<T>, k: int): seq<T> {
    Filter(x => key(x) == k, s)
  }

  lemma WithKeyCons<T(!new)>(key: T -> int, x: T, s: seq<T>, k: int)
    ensures WithKey(key, [x] + s, k) == (if key(x) == k then [x] else []) + WithKey(key, s, k)
  {
    assert ([x] + s)[1..] == s;
  }

  lemma {:induction false} InsertKeepsGroups<T(!new)>(key: T -> int, x: T, s: seq<T>, k: int)
    ensures WithKey(key, InsertBy(key, x, s), k) ==
            (if key(x) == k then [x] else []) + WithKey(key, s, k)
  {
    if s == [] {
      WithKeyCons(key, x, [], k);
    } else if key(x) <= key(s[0]) {
      WithKeyCons(key, x, s, k);
    } else {
      var rest := InsertBy(key, x, s[1..]);
      assert InsertBy(key, x, s) == [s[0]] + rest;
      InsertKeepsGroups(key, x, s[1..], k);
      WithKeyCons(key, s[0], rest, k);
      WithKeyCons(key, s[0], s[1..], k);
      assert s == [s[0]] + s[1..];
      if key(x) == k {
        assert key(s[0]) != k;
        assert WithKey(key, InsertBy(key, x, s), k) == WithKey(key, rest, k);
        assert WithKey(key, s, k) == WithKey(key, s[1..], k);
      } else {
        var h0 := if key(s[0]) == k then [s[0]] else [];
        assert WithKey(key, rest, k) == WithKey(key, s[1..], k);
        assert WithKey(key, InsertBy(key, x, s), k) == h0 + WithKey(key, s[1..], k);
      }
    }
  }

  /**
   * Stability: for every key, the elements with that key appear in the
   * sorted list in the same order as in the input.
   */
  lemma {:induction false} SortByIsStable<T(!new)>(key: T -> int, s: seq<T>, k: int)
    ensures WithKey(key, SortBy(key, s), k) == WithKey(key, s, k)
  {
    if s != [] {
      SortByIsStable(key, s[1..], k);
      InsertKeepsGroups(key, s[0], SortBy(key, s[1..]), k);
      WithKeyCons(key, s[0], s[1..], k);
      assert s == [s[0]] + s[1..];
    }
  }

  /** The first element of a nonempty `s` is in `t`, and `t` starts with a key no larger. */
  lemma FirstInGroup<T(!new)>(key: T -> int, s: seq<T>, t: seq<T>)
    requires s != [] && SortedBy(key, t)
    requires forall k :: WithKey(key, s, k) == WithKey(key, t, k)
    ensures t != [] && key(t[0]) <= key(s[0])
  {
    var k := key(s[0]);
    FilterKeeps(x => key(x) == k, s);
    FilterKeeps(x => key(x) == k, t);
    assert s[0] in WithKey(key, s, k);
    assert s[0] in t;
    var j :| 0 <= j < |t| && t[j] == s[0];
    assert key(t[0]) <= key(t[j]);
  }

  /** Two sorted lists with the same elements, in the same order, at every key are equal. */
  lemma {:induction false} SortedGroupsDetermine<T(!new)>(key: T -> int, s: seq<T>, t: seq<T>)
    requires SortedBy(key, s) && SortedBy(key, t)
    requires forall k :: WithKey(key, s, k) == WithKey(key, t, k)
    ensures s == t
  {
    if s == [] || t == [] {
      if s != [] {
        FirstInGroup(key, s, t);
      } else if t != [] {
        FirstInGroup(key, t, s);
      }
    } else {
      FirstInGroup(key, s, t);
      FirstInGroup(key, t, s);
      var k0 := key(s[0]);
      assert s == [s[0]] + s[1..] && t == [t[0]] + t[1..];
      WithKeyCons(key, s[0], s[1..], k0);
      WithKeyCons(key, t[0], t[1..], k0);
      assert key(t[0]) == k0;
      assert WithKey(key, s, k0)[0] == s[0] && WithKey(key, t, k0)[0] == t[0];
      assert s[0] == t[0];
      forall k ensures WithKey(key, s[1..], k) == WithKey(key, t[1..], k) {
        WithKeyCons(key, s[0], s[1..], k);
        WithKeyCons(key, t[0], t[1..], k);
        var h := if k0 == k then [s[0]] else [];
        assert WithKey(key, s, k) == h + WithKey(key, s[1..], k);
        assert WithKey(key, t, k) == h + WithKey(key, t[1..], k);
        assert (h + WithKey(key, s[1..], k))[|h|..] == WithKey(key, s[1..], k);
        assert (h + WithKey(key, t[1..], k))[|h|..] == WithKey(key, t[1..], k);
      }
      assert SortedBy(key, s[1..]) && SortedBy(key, t[1..]);
      SortedGroupsDetermine(key, s[1..], t[1..]);
    }
  }

  /**
   * Any sorted rearrangement that keeps each key's elements in input order
   * is exactly `SortBy`.
   */
  lemma StableSortIsUnique<T(!new)>(key: T -> int, s: seq<T>, t: seq<T>)
    requires SortedBy(key, t)
    requires forall k :: WithKey(key, t, k) == WithKey(key, s, k)
    ensures t == SortBy(key, s)
  {
    forall k ensures WithKey(key, t, k) == WithKey(key, SortBy(key, s), k) {
      SortByIsStable(key, s, k);
    }
    SortedGroupsDetermine(key, t, SortBy(key, s));
  }
}
