/**
 * Descending order on an integer key, as a database `orderBy: { key: 'desc' }`
 * delivers it. Ties are left in an order the model fixes; the database promises
 * nothing about them.
 */
module Ordering {

  ghost predicate SortedDesc<T>(s: seq<T>, key: T -> int) {
    forall i, j :: 0 <= i < j < |s| ==> key(s[i]) >= key(s[j])
  }

  /** No element occurs twice. */
  ghost predicate Distinct<T>(s: seq<T>) {
    forall i, j :: 0 <= i < j < |s| ==> s[i] != s[j]
  }

  /** The first position at which `x` may be placed without breaking the order. */
  function InsertionPoint<T>(s: seq<T>, x: T, key: T -> int): (p: nat)
    requires SortedDesc(s, key)
    ensures p <= |s|
    ensures forall i :: 0 <= i < p ==> key(s[i]) > key(x)
    ensures forall i :: p <= i < |s| ==> key(s[i]) <= key(x)
  {
    if |s| == 0 || key(s[0]) <= key(x) then 0
    else 1 + InsertionPoint(s[1..], x, key)
  }

  function Insert<T>(s: seq<T>, x: T, key: T -> int): (r: seq<T>)
    requires SortedDesc(s, key)
    ensures SortedDesc(r, key)
    ensures multiset(r) == multiset(s) + multiset{x}
  {
    var p := InsertionPoint(s, x, key);
    var r := s[..p] + [x] + s[p..];
    SplitSorted(s, x, key, p);
    assert s == s[..p] + s[p..];
    assert multiset(r) == multiset(s[..p]) + multiset{x} + multiset(s[p..]);
    r
  }

  /** Placing `x` between the larger and the not-larger keys keeps the order. */
  lemma SplitSorted<T>(s: seq<T>, x: T, key: T -> int, p: nat)
    requires SortedDesc(s, key) && p <= |s|
    requires forall i :: 0 <= i < p ==> key(s[i]) > key(x)
    requires forall i :: p <= i < |s| ==> key(s[i]) <= key(x)
    ensures SortedDesc(s[..p] + [x] + s[p..], key)
  {
    var r := s[..p] + [x] + s[p..];
    forall i, j | 0 <= i < j < |r|
      ensures key(r[i]) >= key(r[j])
    {
      assert r[i] == if i < p then s[i] else if i == p then x else s[i - 1];
      assert r[j] == if j < p then s[j] else if j == p then x else s[j - 1];
    }
  }

  /** Inserting an element that is not yet present keeps the sequence duplicate-free. */
  lemma InsertDistinct<T>(s: seq<T>, x: T, key: T -> int)
    requires SortedDesc(s, key)
    requires Distinct(s) && x !in s
    ensures Distinct(Insert(s, x, key))
  {
    var p := InsertionPoint(s, x, key);
    assert Insert(s, x, key) == s[..p] + [x] + s[p..];
  }

  /** Inserting `x` adds `x` and loses nothing. */
  lemma InsertMembers<T>(s: seq<T>, x: T, key: T -> int)
    requires SortedDesc(s, key)
    ensures forall y :: y in Insert(s, x, key) <==> y in s || y == x
  {
    var r := Insert(s, x, key);
    forall y
      ensures y in r <==> y in s || y == x
    {
      assert y in r <==> y in multiset(r);
      assert y in s <==> y in multiset(s);
    }
  }

  /** In a duplicate-free sequence every element occurs once. */
  lemma {:induction false} DistinctOnce<T>(s: seq<T>, x: T)
    requires Distinct(s)
    ensures multiset(s)[x] == if x in s then 1 else 0
  {
    if |s| > 0 {
      assert s == [s[0]] + s[1..];
      assert Distinct(s[1..]) by {
        forall i, j | 0 <= i < j < |s[1..]|
          ensures s[1..][i] != s[1..][j]
        {
          assert s[1..][i] == s[i + 1] && s[1..][j] == s[j + 1];
        }
      }
      DistinctOnce(s[1..], x);
      assert s[0] !in s[1..] by {
        forall i | 0 <= i < |s[1..]|
          ensures s[1..][i] != s[0]
        {
          assert s[1..][i] == s[i + 1];
        }
      }
    }
  }

  /** Two duplicate-free sequences with the same elements are permutations of each other. */
  lemma DistinctPermutation<T>(a: seq<T>, b: seq<T>)
    requires Distinct(a) && Distinct(b)
    requires forall x :: x in a <==> x in b
    ensures multiset(a) == multiset(b)
  {
    forall x
      ensures multiset(a)[x] == multiset(b)[x]
    {
      DistinctOnce(a, x);
      DistinctOnce(b, x);
    }
  }

  /** Insertion sort into descending key order. */
  function SortDesc<T>(s: seq<T>, key: T -> int): (r: seq<T>)
    ensures SortedDesc(r, key)
    ensures multiset(r) == multiset(s)
  {
    if |s| == 0 then []
    else
      assert s == s[..|s| - 1] + [s[|s| - 1]];
      Insert(SortDesc(s[..|s| - 1], key), s[|s| - 1], key)
  }
}
