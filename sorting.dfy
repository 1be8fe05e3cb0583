/**
 * A stable sort of a sequence by a string key, ascending in Go's string
 * order. It stands for `sort.SliceStable` with a `less` that compares one
 * string field, and for `sort.Strings`; `sort.Sort` on advisories (an
 * unstable sort) is modelled by it too, any order among equal keys being
 * one the library may produce.
 */
module Sorting {
  import opened Text

  ghost predicate SortedBy<T>(s: seq<T>, key: T -> string) {
    forall i, j :: 0 <= i < j < |s| ==> Le(key(s[i]), key(s[j]))
  }

  /** The elements of `s` whose key is `k`, in their order in `s`. */
  function WithKey<T>(s: seq<T>, key: T -> string, k: string): (r: seq<T>)
    ensures |r| <= |s|
  {
    if s == [] then []
    else WithKey(s[..|s| - 1], key, k) + (if key(s[|s| - 1]) == k then [s[|s| - 1]] else [])
  }

  /** Places `x` after every element of `s` whose key is not greater than `x`'s. */
  function InsertBy<T>(s: seq<T>, x: T, key: T -> string): seq<T>
  {
    if s == [] || Le(key(s[|s| - 1]), key(x)) then s + [x]
    else InsertBy(s[..|s| - 1], x, key) + [s[|s| - 1]]
  }

  function SortBy<T>(s: seq<T>, key: T -> string): seq<T>
  {
    if s == [] then [] else InsertBy(SortBy(s[..|s| - 1], key), s[|s| - 1], key)
  }

  lemma {:induction false} InsertByPermutes<T>(s: seq<T>, x: T, key: T -> string)
    ensures multiset(InsertBy(s, x, key)) == multiset(s) + multiset{x}
    ensures |InsertBy(s, x, key)| == |s| + 1
    decreases |s|
  {
    if !(s == [] || Le(key(s[|s| - 1]), key(x))) {
      var p := s[..|s| - 1];
      InsertByPermutes(p, x, key);
      assert s == p + [s[|s| - 1]];
    }
  }

  lemma {:induction false} InsertBySorted<T>(s: seq<T>, x: T, key: T -> string)
    requires SortedBy(s, key)
    ensures SortedBy(InsertBy(s, x, key), key)
    decreases |s|
  {
    var r := InsertBy(s, x, key);
    if s == [] {
    } else if Le(key(s[|s| - 1]), key(x)) {
      forall i, j | 0 <= i < j < |r| ensures Le(key(r[i]), key(r[j])) {
        if j == |s| {
          LeTransitive(key(s[i]), key(s[|s| - 1]), key(x));
        }
      }
    } else {
      var p, last := s[..|s| - 1], s[|s| - 1];
      var q := InsertBy(p, x, key);
      InsertBySorted(p, x, key);
      InsertByPermutes(p, x, key);
      NotLeIsGreater(key(last), key(x));
      forall i | 0 <= i < |q| ensures Le(key(q[i]), key(last)) {
        assert q[i] in multiset(q);
        if q[i] != x {
          assert q[i] in multiset(p);
          var k :| 0 <= k < |p| && p[k] == q[i];
          assert s[k] == p[k];
        }
      }
      assert r == q + [last];
    }
  }

  lemma {:induction false} InsertByKeepsKeyOrder<T>(s: seq<T>, x: T, key: T -> string, k: string)
    ensures WithKey(InsertBy(s, x, key), key, k) == WithKey(s, key, k) + (if key(x) == k then [x] else [])
    decreases |s|
  {
    var r := InsertBy(s, x, key);
    if s == [] || Le(key(s[|s| - 1]), key(x)) {
      assert r[..|r| - 1] == s;
    } else {
      var p, last := s[..|s| - 1], s[|s| - 1];
      var q := InsertBy(p, x, key);
      InsertByKeepsKeyOrder(p, x, key, k);
      assert r[..|r| - 1] == q;
      if key(x) == k {
        assert key(last) != k;
      }
    }
  }

  /** The sorted sequence is in ascending key order and is a permutation of the input. */
  lemma {:induction false} SortBySortsAndPermutes<T>(s: seq<T>, key: T -> string)
    ensures SortedBy(SortBy(s, key), key)
    ensures multiset(SortBy(s, key)) == multiset(s)
    ensures |SortBy(s, key)| == |s|
    decreases |s|
  {
    if s != [] {
      var p := s[..|s| - 1];
      SortBySortsAndPermutes(p, key);
      InsertBySorted(SortBy(p, key), s[|s| - 1], key);
      InsertByPermutes(SortBy(p, key), s[|s| - 1], key);
      assert s == p + [s[|s| - 1]];
    }
  }

  /** Stability: the elements sharing one key keep their relative order. */
  lemma {:induction false} SortByIsStable<T>(s: seq<T>, key: T -> string, k: string)
    ensures WithKey(SortBy(s, key), key, k) == WithKey(s, key, k)
    decreases |s|
  {
    if s != [] {
      var p := s[..|s| - 1];
      SortByIsStable(p, key, k);
      InsertByKeepsKeyOrder(SortBy(p, key), s[|s| - 1], key, k);
    }
  }

  lemma SortByMembers<T>(s: seq<T>, key: T -> string, x: T)
    ensures x in SortBy(s, key) <==> x in s
  {
    SortBySortsAndPermutes(s, key);
    assert x in multiset(SortBy(s, key)) <==> x in multiset(s);
  }


  ghost predicate DistinctKeys<T>(s: seq<T>, key: T -> string) {
    forall i, j :: 0 <= i < j < |s| ==> key(s[i]) != key(s[j])
  }

  /** A non-empty sequence's elements are those of its prefix plus its last element. */
  lemma MultisetSnoc<T>(s: seq<T>)
    requires s != []
    ensures multiset(s) == multiset(s[..|s| - 1]) + multiset{s[|s| - 1]}
  {
    assert s == s[..|s| - 1] + [s[|s| - 1]];
  }

  /** Removing the same element from two permutations of each other leaves permutations. */
  lemma RemoveMatchingLast<T>(a: seq<T>, k: int, b: seq<T>)
    requires 0 <= k < |a| && b != [] && a[k] == b[|b| - 1] && multiset(a) == multiset(b)
    ensures multiset(a[..k] + a[k + 1..]) == multiset(b[..|b| - 1])
  {
    var x := a[k];
    var ra, rb := a[..k] + a[k + 1..], b[..|b| - 1];
    assert multiset(a) == multiset(ra) + multiset{x} by {
      assert a == a[..k] + [x] + a[k + 1..];
    }
    assert multiset(b) == multiset(rb) + multiset{x} by {
      assert b == rb + [x];
    }
    assert multiset(ra) == multiset(a) - multiset{x};
    assert multiset(rb) == multiset(b) - multiset{x};
  }

  lemma RemoveKeepsDistinctKeys<T>(s: seq<T>, key: T -> string, k: int)
    requires DistinctKeys(s, key) && 0 <= k < |s|
    ensures DistinctKeys(s[..k] + s[k + 1..], key)
  {
    var r := s[..k] + s[k + 1..];
    forall i, j | 0 <= i < j < |r| ensures key(r[i]) != key(r[j]) {
      var i' := if i < k then i else i + 1;
      var j' := if j < k then j else j + 1;
      assert r[i] == s[i'] && r[j] == s[j'];
    }
  }

  /** Any element left after removing position `k` has another key than `s[k]`. */
  lemma OtherKeyDiffers<T>(s: seq<T>, key: T -> string, k: int, y: T)
    requires DistinctKeys(s, key) && 0 <= k < |s|
    requires y in multiset(s[..k] + s[k + 1..])
    ensures key(y) != key(s[k])
  {
    var r := s[..k] + s[k + 1..];
    var m :| 0 <= m < |r| && r[m] == y;
    var m' := if m < k then m else m + 1;
    assert s[m'] == y;
  }

  /** Reordering keeps keys distinct. */
  lemma {:induction false} PermutationKeepsDistinctKeys<T>(a: seq<T>, b: seq<T>, key: T -> string)
    requires multiset(a) == multiset(b) && DistinctKeys(a, key)
    ensures DistinctKeys(b, key)
    decreases |b|
  {
    if b != [] {
      var n := |b|;
      var x, p := b[n - 1], b[..n - 1];
      assert x in multiset(a);
      var k :| 0 <= k < |a| && a[k] == x;
      var a' := a[..k] + a[k + 1..];
      RemoveMatchingLast(a, k, b);
      RemoveKeepsDistinctKeys(a, key, k);
      PermutationKeepsDistinctKeys(a', p, key);
      forall i | 0 <= i < n - 1 ensures key(p[i]) != key(x) {
        OtherKeyDiffers(a, key, k, p[i]);
      }
      forall i, j | 0 <= i < j < n ensures key(b[i]) != key(b[j]) {
        assert b[i] == p[i];
        if j < n - 1 {
          assert b[j] == p[j];
        }
      }
    }
  }

  /** Sorting a sequence with distinct keys gives strictly ascending keys. */
  lemma SortByDistinctIsStrict<T>(s: seq<T>, key: T -> string)
    requires DistinctKeys(s, key)
    ensures DistinctKeys(SortBy(s, key), key)
    ensures forall i, j :: 0 <= i < j < |SortBy(s, key)| ==> Lt(key(SortBy(s, key)[i]), key(SortBy(s, key)[j]))
  {
    SortBySortsAndPermutes(s, key);
    PermutationKeepsDistinctKeys(s, SortBy(s, key), key);
  }
}
