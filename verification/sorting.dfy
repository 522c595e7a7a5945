/** The stable sort behind LINQ `OrderBy` and `OrderByDescending`.

    Both LINQ operators are stable: elements with equal keys keep their
    input order. The model sorts ascending on a `real` key; a descending
    order is an ascending order on the negated key. */
module Sorting {
  import opened Prelude

  /** The keys never decrease along `s`. */
  predicate SortedBy<T>(s: seq<T>, key: T -> real) {
    forall i, j :: 0 <= i < j < |s| ==> key(s[i]) <= key(s[j])
  }

  /** Ordered by `key`, and by `tag` among equal keys: the shape a stable
      sort produces from an input that was ascending in `tag`. */
  predicate SortedThenBy<T>(s: seq<T>, key: T -> real, tag: T -> int) {
    forall i, j :: 0 <= i < j < |s| ==>
      key(s[i]) < key(s[j]) || (key(s[i]) == key(s[j]) && tag(s[i]) < tag(s[j]))
  }

  /** Inserts `x` in front of the first element whose key is not smaller,
      so `x` precedes the elements with an equal key. */
  function Insert<T>(x: T, s: seq<T>, key: T -> real): (r: seq<T>)
    ensures multiset(r) == multiset(s) + multiset{x}
  {
    if s == [] || key(x) <= key(s[0]) then [x] + s
    else
      assert s == [s[0]] + s[1..];
      [s[0]] + Insert(x, s[1..], key)
  }

  /** Inserting into a sorted list keeps it sorted. */
  lemma {:induction false} InsertKeepsSorted<T>(x: T, s: seq<T>, key: T -> real)
    requires SortedBy(s, key)
    ensures SortedBy(Insert(x, s, key), key)
  {
    var r := Insert(x, s, key);
    if s != [] && key(x) > key(s[0]) {
      var rest := Insert(x, s[1..], key);
      assert r == [s[0]] + rest;
      InsertKeepsSorted(x, s[1..], key);
      forall j | 0 <= j < |rest|
        ensures key(s[0]) <= key(rest[j])
      {
        InsertMember(x, s[1..], key, rest[j]);
      }
      forall i, j | 0 <= i < j < |r|
        ensures key(r[i]) <= key(r[j])
      {
        assert r[j] == rest[j - 1];
        if i > 0 {
          assert r[i] == rest[i - 1];
        }
      }
    } else if s != [] {
      forall i, j | 0 <= i < j < |r|
        ensures key(r[i]) <= key(r[j])
      {
        assert r[j] == s[j - 1];
        assert key(s[0]) <= key(s[j - 1]);
        if i > 0 {
          assert r[i] == s[i - 1];
        }
      }
    }
  }

  /** An element of `Insert(x, s, key)` is `x` or an element of `s`. */
  lemma InsertMember<T>(x: T, s: seq<T>, key: T -> real, y: T)
    requires y in Insert(x, s, key)
    ensures y == x || y in s
  {
    assert y in multiset(Insert(x, s, key));
  }

  /** Stable insertion sort: the first element goes in front of every
      later element with the same key. */
  function SortBy<T>(s: seq<T>, key: T -> real): (r: seq<T>)
    ensures multiset(r) == multiset(s)
    ensures |r| == |s|
    ensures SortedBy(r, key)
  {
    if s == [] then []
    else
      assert s == [s[0]] + s[1..];
      InsertKeepsSorted(s[0], SortBy(s[1..], key), key);
      Insert(s[0], SortBy(s[1..], key), key)
  }

  /** `h` may go in front of a list ordered by (`key`, `tag`) when it
      precedes every element of it. */
  lemma ConsThenBy<T>(h: T, s: seq<T>, key: T -> real, tag: T -> int)
    requires SortedThenBy(s, key, tag)
    requires forall y :: y in s ==> key(h) < key(y) || (key(h) == key(y) && tag(h) < tag(y))
    ensures SortedThenBy([h] + s, key, tag)
  {
    var r := [h] + s;
    forall i, j | 0 <= i < j < |r|
      ensures key(r[i]) < key(r[j]) || (key(r[i]) == key(r[j]) && tag(r[i]) < tag(r[j]))
    {
      assert r[j] == s[j - 1];
      if i > 0 {
        assert r[i] == s[i - 1];
      }
    }
  }

  lemma TailThenBy<T>(s: seq<T>, key: T -> real, tag: T -> int)
    requires s != [] && SortedThenBy(s, key, tag)
    ensures SortedThenBy(s[1..], key, tag)
    ensures forall y :: y in s[1..] ==> key(s[0]) < key(y) || (key(s[0]) == key(y) && tag(s[0]) < tag(y))
  {
    var tail := s[1..];
    forall i, j | 0 <= i < j < |tail|
      ensures key(tail[i]) < key(tail[j]) || (key(tail[i]) == key(tail[j]) && tag(tail[i]) < tag(tail[j]))
    {
      assert tail[i] == s[i + 1] && tail[j] == s[j + 1];
    }
    forall y | y in tail
      ensures key(s[0]) < key(y) || (key(s[0]) == key(y) && tag(s[0]) < tag(y))
    {
      var k :| 0 <= k < |tail| && tail[k] == y;
      assert s[k + 1] == y;
    }
  }

  lemma {:induction false} InsertThenBy<T>(x: T, s: seq<T>, key: T -> real, tag: T -> int)
    requires SortedThenBy(s, key, tag)
    requires forall y :: y in s ==> tag(x) < tag(y)
    ensures SortedThenBy(Insert(x, s, key), key, tag)
  {
    if s == [] {
      ConsThenBy(x, s, key, tag);
    } else if key(x) <= key(s[0]) {
      forall y | y in s
        ensures key(x) < key(y) || (key(x) == key(y) && tag(x) < tag(y))
      {
        var k :| 0 <= k < |s| && s[k] == y;
        if k > 0 {
          assert key(s[0]) <= key(s[k]);
        }
      }
      ConsThenBy(x, s, key, tag);
    } else {
      TailThenBy(s, key, tag);
      InsertThenBy(x, s[1..], key, tag);
      var rest := Insert(x, s[1..], key);
      forall y | y in rest
        ensures key(s[0]) < key(y) || (key(s[0]) == key(y) && tag(s[0]) < tag(y))
      {
        assert y in multiset(rest);
      }
      ConsThenBy(s[0], rest, key, tag);
    }
  }

  /** Stability: sorting a list that is ascending in `tag` orders equal
      keys by ascending `tag`. */
  lemma {:induction false} SortByIsStable<T>(s: seq<T>, key: T -> real, tag: T -> int)
    requires AscendingBy(s, tag)
    ensures SortedThenBy(SortBy(s, key), key, tag)
  {
    if s != [] {
      SortByIsStable(s[1..], key, tag);
      var rest := SortBy(s[1..], key);
      forall y | y in rest
        ensures tag(s[0]) < tag(y)
      {
        assert y in multiset(s[1..]);
        var k :| 0 <= k < |s[1..]| && s[1..][k] == y;
        assert s[k + 1] == y;
      }
      InsertThenBy(s[0], rest, key, tag);
    }
  }

  /** Two lists with the same multiset hold the same values. */
  lemma SameMembers<T>(a: seq<T>, b: seq<T>, x: T)
    requires multiset(a) == multiset(b)
    ensures x in a <==> x in b
  {
    assert x in a <==> x in multiset(a);
    assert x in b <==> x in multiset(b);
  }

  /** A rearrangement of a list without repetitions has none either. */
  lemma PermutationKeepsDistinct<T>(a: seq<T>, b: seq<T>)
    requires multiset(a) == multiset(b)
    requires Distinct(a)
    ensures Distinct(b)
  {
    DistinctHasMultiplicityOne(a);
    forall i, j | 0 <= i < j < |b|
      ensures b[i] != b[j]
    {
      assert b == b[..j] + [b[j]] + b[j + 1..];
      assert multiset(b)[b[j]] == multiset(b[..j])[b[j]] + 1 + multiset(b[j + 1..])[b[j]];
      assert b[..j][i] == b[i];
      assert multiset(b[..j])[b[j]] == 0;
    }
  }

  lemma {:induction false} DistinctHasMultiplicityOne<T>(a: seq<T>)
    requires Distinct(a)
    ensures forall x :: multiset(a)[x] <= 1
  {
    if a != [] {
      DistinctHasMultiplicityOne(a[1..]);
      assert a == [a[0]] + a[1..];
      forall k | 0 <= k < |a[1..]|
        ensures a[1..][k] != a[0]
      {
        assert a[1..][k] == a[k + 1];
      }
      assert multiset(a[1..])[a[0]] == 0;
    }
  }

  /** The first `k` elements of a sorted list rank no lower than the rest:
      an element left out has a key no smaller than any kept, and then all
      `k` places are taken. */
  lemma TakeKeepsTop<T>(sorted: seq<T>, key: T -> real, k: nat)
    requires SortedBy(sorted, key)
    ensures forall y :: y in sorted ==>
      y in Take(sorted, k) || (|Take(sorted, k)| == k && forall x :: x in Take(sorted, k) ==> key(x) <= key(y))
  {
    var r := Take(sorted, k);
    forall y | y in sorted
      ensures y in r || (|r| == k && forall x :: x in r ==> key(x) <= key(y))
    {
      var m :| 0 <= m < |sorted| && sorted[m] == y;
      if m < |r| {
        assert r[m] == y;
      } else {
        forall x | x in r
          ensures key(x) <= key(y)
        {
          var i :| 0 <= i < |r| && r[i] == x;
          assert sorted[i] == x;
        }
      }
    }
  }

  /** With ties ordered by `tag`, the cut is exact: an element left out
      ranks strictly below every kept one, by key and then by tag. */
  lemma TakeKeepsTopThenBy<T>(sorted: seq<T>, key: T -> real, tag: T -> int, k: int)
    requires SortedThenBy(sorted, key, tag)
    ensures forall y :: y in sorted ==>
      y in Take(sorted, k) || forall x :: x in Take(sorted, k) ==>
        key(x) < key(y) || (key(x) == key(y) && tag(x) < tag(y))
  {
    var r := Take(sorted, k);
    forall y | y in sorted
      ensures y in r || forall x :: x in r ==> key(x) < key(y) || (key(x) == key(y) && tag(x) < tag(y))
    {
      var m :| 0 <= m < |sorted| && sorted[m] == y;
      if m < |r| {
        assert r[m] == y;
      } else {
        forall x | x in r
          ensures key(x) < key(y) || (key(x) == key(y) && tag(x) < tag(y))
        {
          var i :| 0 <= i < |r| && r[i] == x;
          assert sorted[i] == x;
        }
      }
    }
  }
}
