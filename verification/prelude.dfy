/** Generic vocabulary shared by the lottery modules: an optional value,
    distinctness, the LINQ operators the source relies on (`Where`, `Take`,
    `SelectMany`), and sums and maxima over a sequence together with the
    facts that they do not depend on the order of the sequence. */
module Prelude {

  datatype Option<T> = None | Some(value: T)

  function Max(a: int, b: int): int {
    if a < b then b else a
  }

  /** No value occurs twice in `s`. */
  predicate Distinct<T(==)>(s: seq<T>) {
    forall i, j :: 0 <= i < j < |s| ==> s[i] != s[j]
  }

  /** Dropping the head of a list without repeats leaves a list without
      repeats that does not hold the head. */
  lemma DistinctTail<T>(s: seq<T>)
    requires Distinct(s) && s != []
    ensures Distinct(s[1..]) && s[0] !in s[1..]
  {
    var tail := s[1..];
    forall i, j | 0 <= i < j < |tail|
      ensures tail[i] != tail[j]
    {
      assert tail[i] == s[i + 1] && tail[j] == s[j + 1];
    }
    forall j | 0 <= j < |tail|
      ensures tail[j] != s[0]
    {
      assert tail[j] == s[j + 1];
    }
  }

  /** The values of `tag` strictly increase along `s`. */
  predicate AscendingBy<T>(s: seq<T>, tag: T -> int) {
    forall i, j :: 0 <= i < j < |s| ==> tag(s[i]) < tag(s[j])
  }

  /** LINQ `Where`: the elements of `s` satisfying `p`, in their original order. */
  function Filter<T(==,!new)>(s: seq<T>, p: T -> bool): (r: seq<T>)
    ensures |r| <= |s|
  {
    if s == [] then [] else (if p(s[0]) then [s[0]] else []) + Filter(s[1..], p)
  }

  lemma {:induction false} FilterMembers<T(!new)>(s: seq<T>, p: T -> bool)
    ensures forall x :: x in Filter(s, p) <==> x in s && p(x)
  {
    if s != [] {
      FilterMembers(s[1..], p);
      assert s == [s[0]] + s[1..];
    }
  }

  lemma {:induction false} FilterAll<T(!new)>(s: seq<T>, p: T -> bool)
    requires forall i :: 0 <= i < |s| ==> p(s[i])
    ensures Filter(s, p) == s
  {
    if s != [] {
      FilterAll(s[1..], p);
    }
  }

  lemma {:induction false} FilterAppend<T(!new)>(a: seq<T>, b: seq<T>, p: T -> bool)
    ensures Filter(a + b, p) == Filter(a, p) + Filter(b, p)
  {
    if a == [] {
      assert a + b == b;
    } else {
      var head := if p(a[0]) then [a[0]] else [];
      assert (a + b)[0] == a[0];
      assert (a + b)[1..] == a[1..] + b;
      assert Filter(a + b, p) == head + Filter(a[1..] + b, p);
      FilterAppend(a[1..], b, p);
      assert Filter(a, p) == head + Filter(a[1..], p);
    }
  }

  /** Filtering keeps every copy of a value that passes and none of one
      that fails. */
  lemma {:induction false} FilterCount<T(!new)>(s: seq<T>, p: T -> bool, x: T)
    ensures multiset(Filter(s, p))[x] == if p(x) then multiset(s)[x] else 0
  {
    if s != [] {
      FilterCount(s[1..], p, x);
      assert s == [s[0]] + s[1..];
    }
  }

  /** Filtering keeps the relative order, so a list strictly ascending in
      `tag` stays strictly ascending. */
  lemma {:induction false} FilterKeepsAscending<T(!new)>(s: seq<T>, p: T -> bool, tag: T -> int)
    requires AscendingBy(s, tag)
    ensures AscendingBy(Filter(s, p), tag)
  {
    if s != [] {
      FilterKeepsAscending(s[1..], p, tag);
      FilterMembers(s[1..], p);
      var rest := Filter(s[1..], p);
      forall y | y in rest
        ensures tag(s[0]) < tag(y)
      {
        var k :| 0 <= k < |s[1..]| && s[1..][k] == y;
        assert s[k + 1] == y;
      }
      if p(s[0]) {
        var r := Filter(s, p);
        assert r == [s[0]] + rest;
        forall i, j | 0 <= i < j < |r|
          ensures tag(r[i]) < tag(r[j])
        {
          assert r[j] == rest[j - 1] && rest[j - 1] in rest;
          if i > 0 {
            assert r[i] == rest[i - 1];
          }
        }
      }
    }
  }

  lemma {:induction false} FilterKeepsDistinct<T(!new)>(s: seq<T>, p: T -> bool)
    requires Distinct(s)
    ensures Distinct(Filter(s, p))
  {
    if s != [] {
      FilterKeepsDistinct(s[1..], p);
      FilterMembers(s[1..], p);
      forall k | 0 <= k < |s[1..]|
        ensures s[1..][k] != s[0]
      {
        assert s[1..][k] == s[k + 1];
      }
    }
  }

  /** LINQ `Take`: the first `n` elements, all of `s` when it is shorter,
      nothing when `n <= 0`. */
  function Take<T>(s: seq<T>, n: int): (r: seq<T>)
    ensures |r| == if n <= 0 then 0 else if n < |s| then n else |s|
    ensures r == s[..|r|]
  {
    if n <= 0 then [] else if n < |s| then s[..n] else s
  }

  /** LINQ `SelectMany` over a list of lists: the lists laid end to end. */
  function Concat<T>(ss: seq<seq<T>>): seq<T> {
    if ss == [] then [] else ss[0] + Concat(ss[1..])
  }

  lemma {:induction false} ConcatSnoc<T>(ss: seq<seq<T>>, x: seq<T>)
    ensures Concat(ss + [x]) == Concat(ss) + x
  {
    if ss == [] {
      assert [x][1..] == [];
    } else {
      assert (ss + [x])[1..] == ss[1..] + [x];
      ConcatSnoc(ss[1..], x);
    }
  }

  lemma {:induction false} ConcatMembership<T>(ss: seq<seq<T>>, x: T)
    ensures x in Concat(ss) <==> exists i :: 0 <= i < |ss| && x in ss[i]
  {
    if ss != [] {
      ConcatMembership(ss[1..], x);
      if x in Concat(ss[1..]) {
        var i :| 0 <= i < |ss[1..]| && x in ss[1..][i];
        assert x in ss[i + 1];
      }
      if exists i :: 0 <= i < |ss| && x in ss[i] {
        var i :| 0 <= i < |ss| && x in ss[i];
        if i > 0 {
          assert x in ss[1..][i - 1];
        }
      }
    }
  }

  /** The sum of `f` over the elements of `s`. */
  function SumOver<T>(s: seq<T>, f: T -> nat): nat {
    if s == [] then 0 else f(s[0]) + SumOver(s[1..], f)
  }

  lemma {:induction false} SumOverAppend<T>(a: seq<T>, b: seq<T>, f: T -> nat)
    ensures SumOver(a + b, f) == SumOver(a, f) + SumOver(b, f)
  {
    if a == [] {
      assert a + b == b;
    } else {
      assert (a + b)[1..] == a[1..] + b;
      SumOverAppend(a[1..], b, f);
    }
  }

  /** Sums of pointwise sums split. */
  lemma {:induction false} SumOverAdd<T>(s: seq<T>, f: T -> nat, g: T -> nat, h: T -> nat)
    requires forall i :: 0 <= i < |s| ==> h(s[i]) == f(s[i]) + g(s[i])
    ensures SumOver(s, h) == SumOver(s, f) + SumOver(s, g)
  {
    if s != [] {
      assert forall i :: 0 <= i < |s[1..]| ==> s[1..][i] == s[i + 1];
      SumOverAdd(s[1..], f, g, h);
    }
  }

  /** Functions that agree on the elements have the same sum. */
  lemma {:induction false} SumOverCongruent<T>(s: seq<T>, f: T -> nat, g: T -> nat)
    requires forall i :: 0 <= i < |s| ==> f(s[i]) == g(s[i])
    ensures SumOver(s, f) == SumOver(s, g)
  {
    if s != [] {
      assert forall i :: 0 <= i < |s[1..]| ==> s[1..][i] == s[i + 1];
      SumOverCongruent(s[1..], f, g);
    }
  }

  /** 1 at `x` and 0 elsewhere. */
  function Indicator<T(==)>(x: T): T -> nat {
    y => if y == x then 1 else 0
  }

  /** Summing the indicator of `x` counts the occurrences of `x`. */
  lemma {:induction false} SumOverIndicator<T>(s: seq<T>, x: T)
    ensures SumOver(s, Indicator(x)) == multiset(s)[x]
  {
    if s != [] {
      SumOverIndicator(s[1..], x);
      assert s == [s[0]] + s[1..];
    }
  }

  lemma MultisetCancel<T>(m1: multiset<T>, m2: multiset<T>, x: T)
    requires m1 + multiset{x} == m2 + multiset{x}
    ensures m1 == m2
  {
    forall y
      ensures m1[y] == m2[y]
    {
      assert (m1 + multiset{x})[y] == (m2 + multiset{x})[y];
    }
  }

  /** Removing the element at `k` takes `f(s[k])` off the sum. */
  lemma SumOverRemove<T>(s: seq<T>, k: nat, f: T -> nat)
    requires k < |s|
    ensures SumOver(s, f) == f(s[k]) + SumOver(s[..k] + s[k + 1..], f)
  {
    assert s == s[..k] + ([s[k]] + s[k + 1..]);
    SumOverAppend(s[..k], [s[k]] + s[k + 1..], f);
    SumOverAppend(s[..k], s[k + 1..], f);
    assert ([s[k]] + s[k + 1..])[1..] == s[k + 1..];
  }

  /** Removing the element at `k` takes `s[k]` off the multiset. */
  lemma MultisetRemove<T>(s: seq<T>, k: nat)
    requires k < |s|
    ensures multiset(s) == multiset(s[..k] + s[k + 1..]) + multiset{s[k]}
  {
    assert s == s[..k] + [s[k]] + s[k + 1..];
  }

  /** The count of `q` after putting `k` in front. */
  lemma CountCons<T>(k: T, s: seq<T>, q: T)
    ensures multiset([k] + s)[q] == (if k == q then 1 else 0) + multiset(s)[q]
  {
  }

  /** Counts add up over a concatenation. */
  lemma CountAppend<T>(s: seq<T>, t: seq<T>, q: T)
    ensures multiset(s + t)[q] == multiset(s)[q] + multiset(t)[q]
  {
  }

  /** A sum over a list depends only on the multiset of its elements. */
  lemma {:induction false} SumOverPermutation<T>(a: seq<T>, b: seq<T>, f: T -> nat)
    requires multiset(a) == multiset(b)
    ensures SumOver(a, f) == SumOver(b, f)
  {
    if a == [] {
      assert |b| == |multiset(b)| == 0;
    } else {
      assert a[0] in multiset(b);
      var k :| 0 <= k < |b| && b[k] == a[0];
      var rest := b[..k] + b[k + 1..];
      SumOverRemove(b, k, f);
      MultisetRemove(b, k);
      assert multiset(a) == multiset(a[1..]) + multiset{a[0]} by {
        assert a == [a[0]] + a[1..];
      }
      MultisetCancel(multiset(a[1..]), multiset(rest), a[0]);
      SumOverPermutation(a[1..], rest, f);
    }
  }

  /** The largest value of `f` over the elements of `s`, or `floor` when
      that is larger (in particular for an empty `s`). */
  function MaxOver<T>(s: seq<T>, f: T -> nat, floor: nat): (r: nat)
    ensures r >= floor
    ensures forall i :: 0 <= i < |s| ==> f(s[i]) <= r
    ensures r == floor || exists i :: 0 <= i < |s| && f(s[i]) == r
  {
    if s == [] then floor
    else
      var rest := MaxOver(s[1..], f, floor);
      assert forall i :: 1 <= i < |s| ==> s[i] == s[1..][i - 1];
      if f(s[0]) > rest then f(s[0]) else rest
  }

  /** A maximum over a list depends only on the multiset of its elements. */
  lemma MaxOverPermutation<T>(a: seq<T>, b: seq<T>, f: T -> nat, floor: nat)
    requires multiset(a) == multiset(b)
    ensures MaxOver(a, f, floor) == MaxOver(b, f, floor)
  {
    var ma, mb := MaxOver(a, f, floor), MaxOver(b, f, floor);
    forall i | 0 <= i < |a|
      ensures f(a[i]) <= mb
    {
      assert a[i] in multiset(b);
    }
    forall i | 0 <= i < |b|
      ensures f(b[i]) <= ma
    {
      assert b[i] in multiset(a);
    }
  }

  /** Two tests that agree keep the same elements. */
  lemma {:induction false} FilterSame<T(!new)>(s: seq<T>, p: T -> bool, q: T -> bool)
    requires forall x :: p(x) == q(x)
    ensures Filter(s, p) == Filter(s, q)
  {
    if s != [] {
      FilterSame(s[1..], p, q);
    }
  }

  /** A sum of terms of at most 1 is at most the number of terms. */
  lemma {:induction false} SumOverAtMostLength<T>(s: seq<T>, f: T -> nat)
    requires forall i :: 0 <= i < |s| ==> f(s[i]) <= 1
    ensures SumOver(s, f) <= |s|
  {
    if s != [] {
      assert forall i :: 0 <= i < |s[1..]| ==> s[1..][i] == s[i + 1];
      SumOverAtMostLength(s[1..], f);
    }
  }

  /** A sum of natural terms below the number of terms has a zero term. */
  lemma {:induction false} SumBelowLengthHasZero<T>(s: seq<T>, f: T -> nat)
    requires SumOver(s, f) < |s|
    ensures exists i :: 0 <= i < |s| && f(s[i]) == 0
  {
    if f(s[0]) != 0 {
      SumBelowLengthHasZero(s[1..], f);
      var i :| 0 <= i < |s[1..]| && f(s[1..][i]) == 0;
      assert f(s[i + 1]) == 0;
    }
  }
}
