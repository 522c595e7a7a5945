/** `GetRecommendedNumbers`: up to two hot numbers, then up to two due
    numbers not already chosen, then random numbers until `count` are
    chosen, and the choice in ascending order.

    The random source is the list of values `Random.Next(1, 46)` returns,
    in order; the fill fails (`None`) when that list runs out. */
module Recommend {
  import opened Prelude
  import opened Calendar
  import opened Sorting
  import opened Analyzer

  /** `Select(s => s.Number)`. */
  function Numbers(s: seq<NumberStats>): (ns: seq<int>)
    ensures |ns| == |s|
    ensures forall i :: 0 <= i < |s| ==> ns[i] == s[i].number
  {
    seq(|s|, i requires 0 <= i < |s| => s[i].number)
  }

  /** `Where(p).OrderBy(key).Take(k)` over the table's values. The picks
      are entries satisfying `p`, ordered by `key` and by ascending number
      among equal keys; an entry satisfying `p` that is left out ranks
      below every pick in that same order, and then all `k` places are
      taken. */
  function Pick(t: Table, p: NumberStats -> bool, key: NumberStats -> real, k: nat): (r: seq<NumberStats>)
    requires ValidTable(t)
    ensures |r| <= k
    ensures forall i :: 0 <= i < |r| ==> InRange(r[i].number) && r[i] == t[r[i].number] && p(r[i])
    ensures forall i, j :: 0 <= i < j < |r| ==>
      key(r[i]) < key(r[j]) || (key(r[i]) == key(r[j]) && r[i].number < r[j].number)
    ensures forall n :: InRange(n) && p(t[n]) ==>
      t[n] in r || (|r| == k && forall x :: x in r ==> key(x) < key(t[n]) || (key(x) == key(t[n]) && x.number < n))
  {
    PickEntries(t, p, key, k);
    PickOrder(t, p, key, k);
    PickTop(t, p, key, k);
    Take(Ranked(t, p, key), k)
  }

  /** The entries satisfying `p`, sorted by `key`. */
  function Ranked(t: Table, p: NumberStats -> bool, key: NumberStats -> real): seq<NumberStats>
    requires ValidTable(t)
  {
    SortBy(Filter(StatsInOrder(t), p), key)
  }

  lemma PickEntries(t: Table, p: NumberStats -> bool, key: NumberStats -> real, k: nat)
    requires ValidTable(t)
    ensures var r := Take(Ranked(t, p, key), k);
      forall i :: 0 <= i < |r| ==> InRange(r[i].number) && r[i] == t[r[i].number] && p(r[i])
  {
    var sorted := Ranked(t, p, key);
    var r := Take(sorted, k);
    CandidatesAreEntries(t, p, sorted);
    forall i | 0 <= i < |r|
      ensures InRange(r[i].number) && r[i] == t[r[i].number] && p(r[i])
    {
      assert r[i] == sorted[i];
    }
  }

  lemma PickOrder(t: Table, p: NumberStats -> bool, key: NumberStats -> real, k: nat)
    requires ValidTable(t)
    ensures var r := Take(Ranked(t, p, key), k);
      forall i, j :: 0 <= i < j < |r| ==>
        key(r[i]) < key(r[j]) || (key(r[i]) == key(r[j]) && r[i].number < r[j].number)
  {
    var sorted := Ranked(t, p, key);
    var r := Take(sorted, k);
    SortedCandidates(t, p, key);
    forall i, j | 0 <= i < j < |r|
      ensures key(r[i]) < key(r[j]) || (key(r[i]) == key(r[j]) && r[i].number < r[j].number)
    {
      assert r[i] == sorted[i] && r[j] == sorted[j];
      assert NumberOf(sorted[i]) == sorted[i].number && NumberOf(sorted[j]) == sorted[j].number;
    }
  }

  lemma PickTop(t: Table, p: NumberStats -> bool, key: NumberStats -> real, k: nat)
    requires ValidTable(t)
    ensures var r := Take(Ranked(t, p, key), k);
      forall n :: InRange(n) && p(t[n]) ==>
        t[n] in r || (|r| == k && forall x :: x in r ==> key(x) < key(t[n]) || (key(x) == key(t[n]) && x.number < n))
  {
    var sorted := Ranked(t, p, key);
    CandidatesAreEntries(t, p, sorted);
    SortedCandidates(t, p, key);
    TakeKeepsTop(sorted, key, k);
    TakeKeepsTopThenBy(sorted, key, NumberOf, k);
  }

  /** The candidates, in any order, are table entries satisfying `p`. */
  lemma CandidatesAreEntries(t: Table, p: NumberStats -> bool, sorted: seq<NumberStats>)
    requires ValidTable(t)
    requires multiset(sorted) == multiset(Filter(StatsInOrder(t), p))
    ensures forall x :: x in sorted ==> InRange(x.number) && x == t[x.number] && p(x)
    ensures forall n :: InRange(n) && p(t[n]) ==> t[n] in sorted
  {
    var all := StatsInOrder(t);
    FilterMembers(all, p);
    forall x | x in sorted
      ensures InRange(x.number) && x == t[x.number] && p(x)
    {
      SameMembers(sorted, Filter(all, p), x);
      var i :| 0 <= i < |all| && all[i] == x;
    }
    forall n | InRange(n) && p(t[n])
      ensures t[n] in sorted
    {
      assert all[n - 1] == t[n];
      SameMembers(sorted, Filter(all, p), t[n]);
    }
  }

  /** The stable sort of the candidates orders equal keys by number. */
  lemma SortedCandidates(t: Table, p: NumberStats -> bool, key: NumberStats -> real)
    requires ValidTable(t)
    ensures SortedThenBy(SortBy(Filter(StatsInOrder(t), p), key), key, NumberOf)
  {
    FilterKeepsAscending(StatsInOrder(t), p, NumberOf);
    SortByIsStable(Filter(StatsInOrder(t), p), key, NumberOf);
  }

  /** The `IsHot` filter of strategy 1. */
  function IsHotEntry(s: NumberStats): bool {
    s.IsHot()
  }

  /** `OrderByDescending(s => s.Probability)` as an ascending key. */
  function NegatedProbability(s: NumberStats): real {
    -s.probability
  }

  /** The filter of strategy 2: due, and not chosen already. */
  function DueFilter(now: Instant, chosen: seq<int>): NumberStats -> bool {
    (s: NumberStats) => s.IsDue(now) && s.number !in chosen
  }

  /** `OrderByDescending(s => DateTime.Now - s.LastAppearance)` as an
      ascending key. */
  function AbsenceKey(now: Instant): NumberStats -> real {
    (s: NumberStats) => -((now - s.lastAppearance) as real)
  }

  /** Strategy 1: at most two hot numbers, the most probable first. */
  function HotPicks(t: Table): (hot: seq<int>)
    requires ValidTable(t)
    ensures |hot| <= 2 && Distinct(hot)
    ensures forall i :: 0 <= i < |hot| ==> InRange(hot[i]) && t[hot[i]].IsHot()
    ensures forall i, j :: 0 <= i < j < |hot| ==>
      t[hot[i]].probability > t[hot[j]].probability
      || (t[hot[i]].probability == t[hot[j]].probability && hot[i] < hot[j])
    ensures forall n :: InRange(n) && t[n].IsHot() && n !in hot ==>
      |hot| == 2 && forall i :: 0 <= i < |hot| ==>
        t[hot[i]].probability > t[n].probability
        || (t[hot[i]].probability == t[n].probability && hot[i] < n)
  {
    PickNumbersEntries(t, IsHotEntry, NegatedProbability, 2);
    PickNumbersOrder(t, IsHotEntry, NegatedProbability, 2);
    PickNumbersTop(t, IsHotEntry, NegatedProbability, 2);
    Numbers(Pick(t, IsHotEntry, NegatedProbability, 2))
  }

  /** Strategy 2: at most two due numbers outside `chosen`, the longest
      absent first. */
  function DuePicks(t: Table, now: Instant, chosen: seq<int>): (due: seq<int>)
    requires ValidTable(t)
    ensures |due| <= 2 && Distinct(due)
    ensures forall i :: 0 <= i < |due| ==> InRange(due[i]) && t[due[i]].IsDue(now) && due[i] !in chosen
    ensures forall i, j :: 0 <= i < j < |due| ==>
      now - t[due[i]].lastAppearance >= now - t[due[j]].lastAppearance
    ensures forall n :: InRange(n) && t[n].IsDue(now) && n !in chosen && n !in due ==>
      |due| == 2 && forall i :: 0 <= i < |due| ==>
        now - t[n].lastAppearance <= now - t[due[i]].lastAppearance
  {
    PickNumbersEntries(t, DueFilter(now, chosen), AbsenceKey(now), 2);
    PickNumbersOrder(t, DueFilter(now, chosen), AbsenceKey(now), 2);
    PickNumbersTop(t, DueFilter(now, chosen), AbsenceKey(now), 2);
    Numbers(Pick(t, DueFilter(now, chosen), AbsenceKey(now), 2))
  }

  /** The numbers of the picks are distinct numbers of entries that
      satisfy the filter. */
  lemma PickNumbersEntries(t: Table, p: NumberStats -> bool, key: NumberStats -> real, k: nat)
    requires ValidTable(t)
    ensures var ns := Numbers(Pick(t, p, key, k));
      |ns| <= k && Distinct(ns) && forall i :: 0 <= i < |ns| ==> InRange(ns[i]) && p(t[ns[i]])
  {
    var picks := Pick(t, p, key, k);
    PickedNumbers(t, picks, key);
  }

  /** The numbers of the picks come in key order, ascending among equal
      keys. */
  lemma PickNumbersOrder(t: Table, p: NumberStats -> bool, key: NumberStats -> real, k: nat)
    requires ValidTable(t)
    ensures var ns := Numbers(Pick(t, p, key, k));
      forall i, j :: 0 <= i < j < |ns| ==>
        InRange(ns[i]) && InRange(ns[j])
        && (key(t[ns[i]]) < key(t[ns[j]]) || (key(t[ns[i]]) == key(t[ns[j]]) && ns[i] < ns[j]))
  {
    var picks := Pick(t, p, key, k);
    PickedNumbers(t, picks, key);
  }

  /** A number whose entry satisfies the filter but is not picked ranks
      below every pick, by key and then by number, and then `k` are
      picked. */
  lemma PickNumbersTop(t: Table, p: NumberStats -> bool, key: NumberStats -> real, k: nat)
    requires ValidTable(t)
    ensures var ns := Numbers(Pick(t, p, key, k));
      forall n :: InRange(n) && p(t[n]) && n !in ns ==>
        |ns| == k && forall i :: 0 <= i < |ns| ==>
          InRange(ns[i]) && (key(t[ns[i]]) < key(t[n]) || (key(t[ns[i]]) == key(t[n]) && ns[i] < n))
  {
    var picks := Pick(t, p, key, k);
    var ns := Numbers(picks);
    PickedNumbers(t, picks, key);
    forall n | InRange(n) && p(t[n]) && n !in ns
      ensures |ns| == k && forall i :: 0 <= i < |ns| ==>
        InRange(ns[i]) && (key(t[ns[i]]) < key(t[n]) || (key(t[ns[i]]) == key(t[n]) && ns[i] < n))
    {
      assert t[n] !in picks;
      forall i | 0 <= i < |ns|
        ensures InRange(ns[i]) && (key(t[ns[i]]) < key(t[n]) || (key(t[ns[i]]) == key(t[n]) && ns[i] < n))
      {
        assert picks[i] in picks;
      }
    }
  }

  /** Reading a pick list as numbers: the numbers are distinct, and an
      entry is picked exactly when its number is. */
  lemma PickedNumbers(t: Table, picks: seq<NumberStats>, key: NumberStats -> real)
    requires ValidTable(t)
    requires forall i :: 0 <= i < |picks| ==> InRange(picks[i].number) && picks[i] == t[picks[i].number]
    requires forall i, j :: 0 <= i < j < |picks| ==>
      key(picks[i]) < key(picks[j]) || (key(picks[i]) == key(picks[j]) && picks[i].number < picks[j].number)
    ensures Distinct(Numbers(picks))
    ensures forall n :: InRange(n) ==> (t[n] in picks <==> n in Numbers(picks))
    ensures forall i :: 0 <= i < |picks| ==> t[Numbers(picks)[i]] == picks[i]
  {
    var ns := Numbers(picks);
    forall i, j | 0 <= i < j < |ns|
      ensures ns[i] != ns[j]
    {
      assert ns[i] == picks[i].number && ns[j] == picks[j].number;
    }
    forall n | InRange(n)
      ensures t[n] in picks <==> n in ns
    {
      if t[n] in picks {
        var i :| 0 <= i < |picks| && picks[i] == t[n];
        assert ns[i] == n;
      }
      if n in ns {
        var i :| 0 <= i < |ns| && ns[i] == n;
        assert picks[i] == t[n];
      }
    }
  }

  /** Strategy 3: values of the random source are appended until `count`
      numbers are chosen, each value not yet chosen; `None` when the
      values run out first. */
  function Fill(chosen: seq<int>, rolls: seq<int>, count: int): (r: Option<seq<int>>)
    ensures r.Some? ==> |r.value| == Max(count, |chosen|)
    ensures r.Some? ==> r.value[..|chosen|] == chosen
    ensures r.Some? ==> forall i :: |chosen| <= i < |r.value| ==> r.value[i] in rolls && r.value[i] !in chosen
    ensures r.Some? && Distinct(chosen) ==> Distinct(r.value)
    decreases |rolls|
  {
    if |chosen| >= count then Some(chosen)
    else if rolls == [] then None
    else
      var next := if rolls[0] in chosen then chosen else chosen + [rolls[0]];
      var r := Fill(next, rolls[1..], count);
      if r.Some? then
        assert r.value[..|chosen|] == next[..|chosen|];
        assert forall i :: |chosen| <= i < |r.value| ==> r.value[i] in rolls && r.value[i] !in chosen by {
          forall i | |chosen| <= i < |r.value|
            ensures r.value[i] in rolls && r.value[i] !in chosen
          {
            if i < |next| {
              assert r.value[i] == next[i] == rolls[0];
            } else {
              assert r.value[i] in rolls[1..];
            }
          }
        }
        assert Distinct(chosen) ==> Distinct(next) by {
          if Distinct(chosen) && rolls[0] !in chosen {
            forall i, j | 0 <= i < j < |next|
              ensures next[i] != next[j]
            {
              if j == |chosen| {
                assert next[i] == chosen[i];
              }
            }
          }
        }
        r
      else r
  }

  function IntKey(x: int): real {
    x as real
  }

  /** `GetRecommendedNumbers(count)` on a statistics table, with `now` for
      `DateTime.Now` and `rolls` for the values the random source returns. */
  function GetRecommendedNumbers(t: Table, now: Instant, rolls: seq<int>, count: int): (r: Option<seq<int>>)
    requires ValidTable(t)
    requires forall i :: 0 <= i < |rolls| ==> InRange(rolls[i])
    ensures r.Some? ==> forall i, j :: 0 <= i < j < |r.value| ==> r.value[i] < r.value[j]
    ensures r.Some? ==> forall i :: 0 <= i < |r.value| ==> InRange(r.value[i])
    ensures var picks := StrategyPicks(t, now);
      r.Some? ==>
        |r.value| == Max(count, |picks|)
        && (forall x :: x in picks ==> x in r.value)
        && (forall x :: x in r.value ==> x in picks || x in rolls)
    ensures r.Some? && count >= 4 ==> |r.value| == count
    ensures count > MaxNumber ==> r.None?
  {
    Complete(StrategyPicks(t, now), rolls, count)
  }

  /** The hot picks followed by the due picks: distinct numbers in range,
      at most four. */
  function StrategyPicks(t: Table, now: Instant): (picks: seq<int>)
    requires ValidTable(t)
    ensures Distinct(picks) && |picks| <= 4
    ensures forall i :: 0 <= i < |picks| ==> InRange(picks[i])
  {
    var hot := HotPicks(t);
    var due := DuePicks(t, now, hot);
    PicksDistinct(hot, due);
    hot + due
  }

  /** Fills the picks up to `count` numbers and sorts them. */
  function Complete(picks: seq<int>, rolls: seq<int>, count: int): (r: Option<seq<int>>)
    requires Distinct(picks) && forall i :: 0 <= i < |picks| ==> InRange(picks[i])
    requires forall i :: 0 <= i < |rolls| ==> InRange(rolls[i])
    ensures r.Some? ==> forall i, j :: 0 <= i < j < |r.value| ==> r.value[i] < r.value[j]
    ensures r.Some? ==> forall i :: 0 <= i < |r.value| ==> InRange(r.value[i])
    ensures r.Some? ==>
      |r.value| == Max(count, |picks|)
      && (forall x :: x in picks ==> x in r.value)
      && (forall x :: x in r.value ==> x in picks || x in rolls)
    ensures r == None <==> Fill(picks, rolls, count) == None
    ensures count > MaxNumber ==> r.None?
  {
    match Fill(picks, rolls, count)
    case None => None
    case Some(filled) =>
      FilledNumbers(picks, rolls, count, filled);
      AtMostFortyFive(filled);
      var sorted := SortBy(filled, IntKey);
      AscendingNumbers(filled, sorted);
      Some(sorted)
  }

  /** A completed fill holds the picks and values of the random source,
      all distinct and in range. */
  lemma FilledNumbers(picks: seq<int>, rolls: seq<int>, count: int, filled: seq<int>)
    requires Distinct(picks) && forall i :: 0 <= i < |picks| ==> InRange(picks[i])
    requires forall i :: 0 <= i < |rolls| ==> InRange(rolls[i])
    requires Fill(picks, rolls, count) == Some(filled)
    ensures Distinct(filled) && |filled| == Max(count, |picks|)
    ensures forall i :: 0 <= i < |filled| ==> InRange(filled[i])
    ensures forall x :: x in picks ==> x in filled
    ensures forall x :: x in filled ==> x in picks || x in rolls
  {
    forall i | 0 <= i < |filled|
      ensures InRange(filled[i])
    {
      if i < |picks| {
        assert filled[i] == picks[i];
      }
    }
    forall x | x in picks
      ensures x in filled
    {
      var i :| 0 <= i < |picks| && picks[i] == x;
      assert filled[i] == x;
    }
    forall x | x in filled
      ensures x in picks || x in rolls
    {
      var i :| 0 <= i < |filled| && filled[i] == x;
      if i < |picks| {
        assert filled[i] == picks[i];
      }
    }
  }

  /** Sorting distinct numbers gives them in strictly ascending order. */
  lemma AscendingNumbers(s: seq<int>, r: seq<int>)
    requires Distinct(s) && forall i :: 0 <= i < |s| ==> InRange(s[i])
    requires r == SortBy(s, IntKey)
    ensures forall i, j :: 0 <= i < j < |r| ==> r[i] < r[j]
    ensures forall i :: 0 <= i < |r| ==> InRange(r[i])
    ensures forall x :: x in r <==> x in s
  {
    PermutationKeepsDistinct(s, r);
    forall x
      ensures x in r <==> x in s
    {
      SameMembers(r, s, x);
    }
    forall i, j | 0 <= i < j < |r|
      ensures r[i] < r[j]
    {
      assert SortedBy(r, IntKey);
      assert IntKey(r[i]) <= IntKey(r[j]);
      assert r[i] as real <= r[j] as real;
      assert r[i] != r[j];
    }
    forall i | 0 <= i < |r|
      ensures InRange(r[i])
    {
      assert r[i] in s;
    }
  }

  lemma PicksDistinct(hot: seq<int>, due: seq<int>)
    requires Distinct(hot) && Distinct(due)
    requires forall i :: 0 <= i < |due| ==> due[i] !in hot
    ensures Distinct(hot + due)
  {
    var s := hot + due;
    forall i, j | 0 <= i < j < |s|
      ensures s[i] != s[j]
    {
      if j >= |hot| && i < |hot| {
        assert s[j] == due[j - |hot|] && s[i] == hot[i];
      } else if i >= |hot| {
        assert s[i] == due[i - |hot|] && s[j] == due[j - |hot|];
      }
    }
  }

  /** No more than 45 distinct numbers lie in 1 to 45. */
  lemma AtMostFortyFive(s: seq<int>)
    requires Distinct(s)
    requires forall i :: 0 <= i < |s| ==> InRange(s[i])
    ensures |s| <= MaxNumber
  {
    var ns := NumberList();
    OneDrawCounted(s);
    DistinctHasMultiplicityOne(s);
    SumOverAtMostLength(ns, CountsIn(s));
  }

  /** Fewer than 45 numbers in 1 to 45 leave one of them out. */
  lemma MissingNumber(s: seq<int>)
    requires forall i :: 0 <= i < |s| ==> InRange(s[i])
    requires |s| < MaxNumber
    ensures exists n :: InRange(n) && n !in s
  {
    var ns := NumberList();
    OneDrawCounted(s);
    SumBelowLengthHasZero(ns, CountsIn(s));
    var i :| 0 <= i < |ns| && CountsIn(s)(ns[i]) == 0;
    assert InRange(ns[i]) && ns[i] !in s;
  }

  /** The fill completes when `count` is at most 45 and every number the
      chosen list lacks eventually comes up. */
  lemma {:induction false} FillCompletes(chosen: seq<int>, rolls: seq<int>, count: int)
    requires count <= MaxNumber
    requires forall i :: 0 <= i < |chosen| ==> InRange(chosen[i])
    requires forall i :: 0 <= i < |rolls| ==> InRange(rolls[i])
    requires forall n :: InRange(n) ==> n in chosen || n in rolls
    ensures Fill(chosen, rolls, count).Some?
    decreases |rolls|
  {
    if |chosen| < count {
      MissingNumber(chosen);
      var n :| InRange(n) && n !in chosen;
      assert n in rolls;
      var next := if rolls[0] in chosen then chosen else chosen + [rolls[0]];
      forall m | InRange(m)
        ensures m in next || m in rolls[1..]
      {
        if m in chosen {
          assert m in next;
        } else if m == rolls[0] {
          assert next[|next| - 1] == m;
        } else {
          assert m in rolls;
          var k :| 0 <= k < |rolls| && rolls[k] == m;
          assert rolls[1..][k - 1] == m;
        }
      }
      assert forall i :: 0 <= i < |next| ==> InRange(next[i]) by {
        forall i | 0 <= i < |next|
          ensures InRange(next[i])
        {
          if i < |chosen| {
            assert next[i] == chosen[i];
          }
        }
      }
      FillCompletes(next, rolls[1..], count);
    }
  }

  /** For a count of at most 45, a random source that produces every
      number 1 to 45 lets the recommendation complete. */
  lemma RecommendationCompletes(t: Table, now: Instant, rolls: seq<int>, count: int)
    requires ValidTable(t)
    requires forall i :: 0 <= i < |rolls| ==> InRange(rolls[i])
    requires count <= MaxNumber
    requires forall n :: InRange(n) ==> n in rolls
    ensures GetRecommendedNumbers(t, now, rolls, count).Some?
  {
    FillCompletes(StrategyPicks(t, now), rolls, count);
  }
}
