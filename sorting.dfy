/** Ordering by a descending two-part key, as used for "newest first" listings
    (`.sort({ createdAt: -1 })`) and for the client's "starred first, then newest
    first" comparator. The sort is an insertion sort: its result is ordered by key,
    holds the same multiset of elements, and keeps elements with equal keys in
    their input order. */
module Sorting {
  import opened Basics

  /** `a` may be listed before `b`: `a`'s key is lexicographically at least `b`'s. */
  predicate Ahead(a: (int, int), b: (int, int)) {
    a.0 > b.0 || (a.0 == b.0 && a.1 >= b.1)
  }

  ghost predicate SortedDesc<T>(s: seq<T>, key: T -> (int, int)) {
    forall i, j :: 0 <= i < j < |s| ==> Ahead(key(s[i]), key(s[j]))
  }

  /** No element occurs twice. */
  ghost predicate Distinct<T>(s: seq<T>) {
    forall i, j :: 0 <= i < j < |s| ==> s[i] != s[j]
  }

  function Insert<T>(x: T, s: seq<T>, key: T -> (int, int)): (r: seq<T>)
    requires SortedDesc(s, key)
    ensures SortedDesc(r, key)
    ensures multiset(r) == multiset(s) + multiset{x}
  {
    if s == [] || Ahead(key(x), key(s[0])) then [x] + s
    else
      var tail := Insert(x, s[1..], key);
      assert s == [s[0]] + s[1..];
      assert forall k :: 0 <= k < |tail| ==> Ahead(key(s[0]), key(tail[k])) by {
        forall k | 0 <= k < |tail| ensures Ahead(key(s[0]), key(tail[k])) {
          assert tail[k] in multiset(tail);
          if tail[k] != x {
            assert tail[k] in multiset(s[1..]);
            var m :| 0 <= m < |s[1..]| && s[1..][m] == tail[k];
            assert s[1..][m] == s[m + 1];
          }
        }
      }
      [s[0]] + tail
  }

  /** The elements of `s`, largest key first. */
  function SortDesc<T>(s: seq<T>, key: T -> (int, int)): (r: seq<T>)
    ensures SortedDesc(r, key)
    ensures multiset(r) == multiset(s)
    ensures |r| == |s|
  {
    if s == [] then []
    else
      assert s == [s[0]] + s[1..];
      var r := Insert(s[0], SortDesc(s[1..], key), key);
      assert |r| == |multiset(r)|;
      r
  }

  /** The elements of `s` whose key is `k`, in their order in `s`. */
  function WithKey<T>(s: seq<T>, key: T -> (int, int), k: (int, int)): seq<T> {
    if s == [] then []
    else (if key(s[0]) == k then [s[0]] else []) + WithKey(s[1..], key, k)
  }

  /** Insertion puts `x` in front of every element with the same key. */
  lemma {:induction false} InsertKeepsTies<T>(x: T, s: seq<T>, key: T -> (int, int), k: (int, int))
    requires SortedDesc(s, key)
    ensures WithKey(Insert(x, s, key), key, k) == (if key(x) == k then [x] else []) + WithKey(s, key, k)
  {
    if s == [] || Ahead(key(x), key(s[0])) {
      assert ([x] + s)[0] == x && ([x] + s)[1..] == s;
    } else {
      SortedTail(s, key);
      var tail := Insert(x, s[1..], key);
      assert Insert(x, s, key) == [s[0]] + tail;
      InsertKeepsTies(x, s[1..], key, k);
      var r := [s[0]] + tail;
      assert r[0] == s[0] && r[1..] == tail;
      assert WithKey(r, key, k) == (if key(s[0]) == k then [s[0]] else []) + WithKey(tail, key, k);
      assert key(s[0]) != key(x);
    }
  }

  /** A suffix of a sorted sequence is sorted. */
  lemma SortedTail<T>(s: seq<T>, key: T -> (int, int))
    requires s != [] && SortedDesc(s, key)
    ensures SortedDesc(s[1..], key)
  {
    forall i, j | 0 <= i < j < |s[1..]| ensures Ahead(key(s[1..][i]), key(s[1..][j])) {
      assert s[1..][i] == s[i + 1] && s[1..][j] == s[j + 1];
    }
  }

  /** The sort is stable: elements with equal keys keep their relative order, as
      `Array.prototype.sort` does. */
  lemma {:induction false} SortDescIsStable<T>(s: seq<T>, key: T -> (int, int), k: (int, int))
    ensures WithKey(SortDesc(s, key), key, k) == WithKey(s, key, k)
  {
    if s != [] {
      SortDescIsStable(s[1..], key, k);
      InsertKeepsTies(s[0], SortDesc(s[1..], key), key, k);
    }
  }

  /** Reordering keeps every element and adds none. */
  lemma SameMembers<T>(a: seq<T>, b: seq<T>, x: T)
    requires multiset(a) == multiset(b)
    ensures x in a <==> x in b
  {
    assert x in a <==> x in multiset(a);
    assert x in b <==> x in multiset(b);
  }

  /** An element occurring twice is counted at least twice. */
  lemma TwiceCounted<T>(s: seq<T>, i: nat, j: nat)
    requires i < j < |s| && s[i] == s[j]
    ensures multiset(s)[s[i]] >= 2
  {
    assert s == s[..j] + [s[j]] + s[j + 1..];
    assert s[i] in s[..j];
    assert multiset(s) == multiset(s[..j]) + multiset{s[j]} + multiset(s[j + 1..]);
  }

  /** In a sequence without repetitions every element is counted once. */
  lemma {:induction false} DistinctCountedOnce<T>(s: seq<T>, x: T)
    requires Distinct(s)
    ensures multiset(s)[x] <= 1
  {
    if s != [] {
      assert s == [s[0]] + s[1..];
      DistinctCountedOnce(s[1..], x);
      if x == s[0] {
        assert x !in s[1..];
      }
    }
  }

  /** Reordering keeps a sequence free of repetitions. */
  lemma DistinctPermutation<T>(a: seq<T>, b: seq<T>)
    requires Distinct(a) && multiset(a) == multiset(b)
    ensures Distinct(b)
  {
    forall i, j | 0 <= i < j < |b| ensures b[i] != b[j] {
      if b[i] == b[j] {
        TwiceCounted(b, i, j);
        DistinctCountedOnce(a, b[i]);
      }
    }
  }

  /** The records of store `m` held under `idOf` of themselves are distinct, and a
      reordering `r` of the records under the increasing ids `ids` holds exactly those. */
  lemma Reordered<T>(m: map<nat, T>, idOf: T -> nat, ids: seq<nat>, picked: seq<T>, r: seq<T>)
    requires forall k :: k in ids ==> k in m && idOf(m[k]) == k
    requires forall i, j :: 0 <= i < j < |ids| ==> ids[i] < ids[j]
    requires |picked| == |ids| && forall i :: 0 <= i < |ids| ==> picked[i] == m[ids[i]]
    requires multiset(r) == multiset(picked)
    ensures Distinct(r)
    ensures forall i :: 0 <= i < |r| ==> idOf(r[i]) in ids && m[idOf(r[i])] == r[i]
    ensures forall k :: k in ids ==> m[k] in r
  {
    assert Distinct(picked) by {
      forall i, j | 0 <= i < j < |picked| ensures picked[i] != picked[j] {
        assert idOf(picked[i]) == ids[i] && idOf(picked[j]) == ids[j];
      }
    }
    DistinctPermutation(picked, r);
    forall i | 0 <= i < |r| ensures idOf(r[i]) in ids && m[idOf(r[i])] == r[i] {
      SameMembers(r, picked, r[i]);
      var j :| 0 <= j < |picked| && picked[j] == r[i];
    }
    forall k | k in ids ensures m[k] in r {
      var j :| 0 <= j < |ids| && ids[j] == k;
      assert picked[j] == m[k];
      SameMembers(r, picked, m[k]);
    }
  }

  /** A filtered, sorted listing of a store: the records of `m` that satisfy `keep`,
      each exactly once, largest key first. Every record is held under `idOf` of
      itself and below `bound`. */
  function Listing<T>(m: map<nat, T>, bound: nat, keep: T -> bool, idOf: T -> nat, key: T -> (int, int)): (r: seq<T>)
    requires forall k :: k in m ==> idOf(m[k]) == k && k < bound
    ensures forall i :: 0 <= i < |r| ==> idOf(r[i]) in m && m[idOf(r[i])] == r[i] && keep(r[i])
    ensures forall k :: k in m && keep(m[k]) ==> m[k] in r
    ensures Distinct(r)
    ensures SortedDesc(r, key)
  {
    var ks := KeysBelow(m, bound);
    var ids := SelectKeys(m, ks, keep);
    var picked := seq(|ids|, i requires 0 <= i < |ids| => m[ids[i]]);
    var r := SortDesc(picked, key);
    Reordered(m, idOf, ids, picked, r);
    r
  }
}
