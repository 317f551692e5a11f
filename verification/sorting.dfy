/** `sort.Sort` over a sequence ordered by a natural-number key. The source's
    sort is not stable; what every outcome shares is stated here: the same
    elements, with non-decreasing keys. */
module Sorting {

  predicate SortedBy<T>(s: seq<T>, key: T -> nat) {
    forall i, j :: 0 <= i < j < |s| ==> key(s[i]) <= key(s[j])
  }

  function InsertBy<T(==)>(x: T, s: seq<T>, key: T -> nat): (r: seq<T>)
    requires SortedBy(s, key)
    ensures multiset(r) == multiset(s) + multiset{x}
    ensures SortedBy(r, key)
  {
    if s == [] then [x]
    else if key(x) <= key(s[0]) then
      var r := [x] + s;
      assert forall j :: 1 <= j < |r| ==> r[j] == s[j - 1];
      r
    else
      var rest := InsertBy(x, s[1..], key);
      ConsKeepsOrder(x, s, key, rest);
      [s[0]] + rest
  }

  /** Putting the head of a sorted `s` in front of a sorted arrangement of
      its tail plus `x`, where `x` does not go first, gives a sorted
      arrangement of `s` plus `x`. */
  lemma ConsKeepsOrder<T>(x: T, s: seq<T>, key: T -> nat, rest: seq<T>)
    requires SortedBy(s, key) && s != [] && key(s[0]) < key(x)
    requires multiset(rest) == multiset(s[1..]) + multiset{x} && SortedBy(rest, key)
    ensures multiset([s[0]] + rest) == multiset(s) + multiset{x}
    ensures SortedBy([s[0]] + rest, key)
  {
    assert s == [s[0]] + s[1..];
    var r := [s[0]] + rest;
    forall i, j | 0 <= i < j < |r| ensures key(r[i]) <= key(r[j]) {
      assert r[j] == rest[j - 1];
      if i == 0 {
        assert rest[j - 1] in multiset(rest);
        if rest[j - 1] != x {
          HeadIsLeast(s, key, rest[j - 1]);
        }
      } else {
        assert r[i] == rest[i - 1];
      }
    }
  }

  /** The head of a sorted sequence has the least key. */
  lemma HeadIsLeast<T>(s: seq<T>, key: T -> nat, y: T)
    requires SortedBy(s, key) && s != [] && y in multiset(s[1..])
    ensures key(s[0]) <= key(y)
  {
    assert y in s[1..];
    var k :| 0 <= k < |s[1..]| && s[1..][k] == y;
    assert s[k + 1] == y;
  }

  /** An insertion sort: one admissible outcome of the unstable sort. */
  function SortBy<T(==)>(s: seq<T>, key: T -> nat): (r: seq<T>)
    ensures multiset(r) == multiset(s)
    ensures SortedBy(r, key)
  {
    if |s| <= 1 then s
    else
      assert s == [s[0]] + s[1..];
      InsertBy(s[0], SortBy(s[1..], key), key)
  }

  /** The elements with key `k`, in their order in `s`. */
  function KeyFilter<T>(s: seq<T>, key: T -> nat, k: nat): seq<T> {
    if s == [] then [] else (if key(s[0]) == k then [s[0]] else []) + KeyFilter(s[1..], key, k)
  }

  /** An inserted element goes in front of every element with its key. */
  lemma {:induction false} InsertByFilter<T>(x: T, s: seq<T>, key: T -> nat, k: nat)
    requires SortedBy(s, key)
    ensures KeyFilter(InsertBy(x, s, key), key, k) == (if key(x) == k then [x] else []) + KeyFilter(s, key, k)
  {
    if s == [] {
    } else if key(x) <= key(s[0]) {
      KeyFilterCons(x, s, key, k);
    } else {
      SortedTail(s, key);
      var rest := InsertBy(x, s[1..], key);
      InsertByFilter(x, s[1..], key, k);
      assert InsertBy(x, s, key) == [s[0]] + rest;
      KeyFilterCons(s[0], rest, key, k);
      KeyFilterCons(s[0], s[1..], key, k);
      assert [s[0]] + s[1..] == s;
      Commute(if key(s[0]) == k then [s[0]] else [], if key(x) == k then [x] else [],
        KeyFilter(s[1..], key, k));
    }
  }

  lemma SortedTail<T>(s: seq<T>, key: T -> nat)
    requires SortedBy(s, key) && s != []
    ensures SortedBy(s[1..], key)
  {
  }

  lemma KeyFilterCons<T>(y: T, t: seq<T>, key: T -> nat, k: nat)
    ensures KeyFilter([y] + t, key, k) == (if key(y) == k then [y] else []) + KeyFilter(t, key, k)
  {
    assert ([y] + t)[1..] == t;
  }

  lemma Commute<T>(a: seq<T>, b: seq<T>, c: seq<T>)
    requires a == [] || b == []
    ensures a + (b + c) == b + (a + c)
  {
    if a == [] {
      assert a + (b + c) == b + c;
    } else {
      assert b + (a + c) == a + c;
    }
  }

  /** The sort is stable: the elements of every key keep their input order. */
  lemma {:induction false} SortByIsStable<T>(s: seq<T>, key: T -> nat, k: nat)
    ensures KeyFilter(SortBy(s, key), key, k) == KeyFilter(s, key, k)
  {
    if |s| > 1 {
      SortByIsStable(s[1..], key, k);
      InsertByFilter(s[0], SortBy(s[1..], key), key, k);
    }
  }
}
