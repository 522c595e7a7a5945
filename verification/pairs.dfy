/** `AnalyzePairs`: how often each pair of numbers was drawn together, and
    for each number 1 to 45 the three partners it was drawn with most.

    The source counts into a concurrent dictionary from a parallel loop
    over the draws. Every update is an atomic increment, so the counts are
    those of any sequential order; the model takes the draws one after
    another. */
module Pairs {
  import opened Prelude
  import opened Sorting
  import opened Analyzer
  import Legacy

  /** A dictionary key `(Math.Min(x, y), Math.Max(x, y))`. */
  type Pair = (int, int)

  function Key(x: int, y: int): (k: Pair)
    ensures k.0 <= k.1
    ensures k == (x, y) || k == (y, x)
  {
    if x <= y then (x, y) else (y, x)
  }

  /** The pair dictionary. A pair never drawn has no entry. */
  type PairTable = map<Pair, nat>

  /** The count of a pair, 0 when it has no entry. */
  function Lookup(m: PairTable, k: Pair): nat {
    if k in m then m[k] else 0
  }

  /** Every entry counts at least one occurrence. */
  predicate Positive(m: PairTable) {
    forall k :: k in m ==> m[k] > 0
  }

  /** `AddOrUpdate(pair, 1, (key, old) => old + 1)`. */
  function Bump(m: PairTable, k: Pair): (r: PairTable)
    ensures forall q :: Lookup(r, q) == Lookup(m, q) + (if q == k then 1 else 0)
    ensures r.Keys == m.Keys + {k}
    ensures Positive(m) ==> Positive(r)
  {
    m[k := Lookup(m, k) + 1]
  }

  /** Bumps every pair of `ps` in turn. */
  function BumpAll(m: PairTable, ps: seq<Pair>): (r: PairTable)
    ensures forall q :: Lookup(r, q) == Lookup(m, q) + multiset(ps)[q]
    ensures forall q :: q in r <==> q in m || q in ps
    ensures Positive(m) ==> Positive(r)
    decreases |ps|
  {
    if ps == [] then m
    else
      var r := BumpAll(Bump(m, ps[0]), ps[1..]);
      assert ps == [ps[0]] + ps[1..];
      r
  }

  /** The keys the inner loop forms for `x` and each number after it. */
  function PairsWith(x: int, rest: seq<int>): (ps: seq<Pair>)
    ensures |ps| == |rest|
    ensures forall j :: 0 <= j < |rest| ==> ps[j] == Key(x, rest[j])
  {
    seq(|rest|, j requires 0 <= j < |rest| => Key(x, rest[j]))
  }

  /** The keys the double loop forms for one draw: every two positions
      `i < j`, in loop order. */
  function DrawPairs(ns: seq<int>): (ps: seq<Pair>)
    ensures forall q :: q in ps ==> exists i, j :: 0 <= i < j < |ns| && q == Key(ns[i], ns[j])
  {
    if ns == [] then []
    else
      var ps := PairsWith(ns[0], ns[1..]) + DrawPairs(ns[1..]);
      forall q | q in ps
        ensures exists i, j :: 0 <= i < j < |ns| && q == Key(ns[i], ns[j])
      {
        if q in PairsWith(ns[0], ns[1..]) {
          var j :| 0 <= j < |ns[1..]| && PairsWith(ns[0], ns[1..])[j] == q;
          assert q == Key(ns[0], ns[j + 1]);
        } else {
          var i, j :| 0 <= i < j < |ns[1..]| && q == Key(ns[1..][i], ns[1..][j]);
          assert q == Key(ns[i + 1], ns[j + 1]);
        }
      }
      ps
  }

  /** How often the double loop over one draw forms key `q`. */
  function PairCountIn(q: Pair): Legacy.LottoResult -> nat {
    (r: Legacy.LottoResult) => multiset(DrawPairs(r.winningNumbers))[q]
  }

  /** The counting loop of `AnalyzePairs`: each draw's pairs are bumped.
      A key's count is the number of times the double loops form it. */
  function CountPairs(results: seq<Legacy.LottoResult>): (m: PairTable)
    ensures forall q :: Lookup(m, q) == SumOver(results, PairCountIn(q))
    ensures Positive(m)
    decreases |results|
  {
    if results == [] then map[]
    else
      var m := BumpAll(CountPairs(results[1..]), DrawPairs(results[0].winningNumbers));
      assert forall q :: PairCountIn(q)(results[0]) == multiset(DrawPairs(results[0].winningNumbers))[q];
      m
  }

  /** The keys of the dictionary are pairs of drawn numbers, so with every
      number in range so are both halves of every key. */
  lemma {:induction false} CountPairsKeysInRange(results: seq<Legacy.LottoResult>)
    requires AllInRange(results)
    ensures forall q :: q in CountPairs(results) ==> InRange(q.0) && InRange(q.1)
  {
    if results != [] {
      var rest := results[1..];
      assert AllInRange(rest) by {
        forall i, j | 0 <= i < |rest| && 0 <= j < |rest[i].winningNumbers|
          ensures InRange(rest[i].winningNumbers[j])
        {
          assert rest[i] == results[i + 1];
        }
      }
      CountPairsKeysInRange(rest);
      var ns := results[0].winningNumbers;
      forall q | q in DrawPairs(ns)
        ensures InRange(q.0) && InRange(q.1)
      {
        var i, j :| 0 <= i < j < |ns| && q == Key(ns[i], ns[j]);
        assert InRange(ns[i]) && InRange(ns[j]);
      }
    }
  }

  /** For a pair `a < b` and a number `x` not repeated in `rest`, the inner
      loop forms key `(a, b)` once when `x` is one of the two and the other
      is in `rest`, and never otherwise. */
  lemma {:induction false} PairsWithCount(x: int, rest: seq<int>, a: int, b: int)
    requires Distinct(rest) && a < b
    ensures multiset(PairsWith(x, rest))[(a, b)] ==
      if (x == a && b in rest) || (x == b && a in rest) then 1 else 0
  {
    if rest != [] {
      DistinctTail(rest);
      PairsWithCount(x, rest[1..], a, b);
      PairsWithCons(x, rest);
      CountCons(Key(x, rest[0]), PairsWith(x, rest[1..]), (a, b));
      PairsWithCountStep(x, rest, a, b);
    }
  }

  lemma PairsWithCons(x: int, rest: seq<int>)
    requires rest != []
    ensures PairsWith(x, rest) == [Key(x, rest[0])] + PairsWith(x, rest[1..])
  {
    var l, r := PairsWith(x, rest), [Key(x, rest[0])] + PairsWith(x, rest[1..]);
    assert |l| == |r|;
    forall j | 0 <= j < |l|
      ensures l[j] == r[j]
    {
      if j > 0 {
        assert rest[1..][j - 1] == rest[j];
      }
    }
  }

  /** The head of `rest` adds key `(a, b)` exactly when it completes the
      pair with `x`; with the head not repeated, the two cases never meet. */
  lemma PairsWithCountStep(x: int, rest: seq<int>, a: int, b: int)
    requires rest != [] && rest[0] !in rest[1..] && a < b
    ensures (if Key(x, rest[0]) == (a, b) then 1 else 0)
      + (if (x == a && b in rest[1..]) || (x == b && a in rest[1..]) then 1 else 0)
      == if (x == a && b in rest) || (x == b && a in rest) then 1 else 0
  {
    assert rest == [rest[0]] + rest[1..];
  }

  lemma DrawPairsCons(ns: seq<int>)
    requires ns != []
    ensures DrawPairs(ns) == PairsWith(ns[0], ns[1..]) + DrawPairs(ns[1..])
  {
  }

  /** In a draw without repeated numbers the double loop forms key `(a, b)`,
      `a < b`, exactly once when both were drawn and never otherwise. */
  lemma {:induction false} DrawPairsOnce(ns: seq<int>, a: int, b: int)
    requires Distinct(ns) && a < b
    ensures multiset(DrawPairs(ns))[(a, b)] == if a in ns && b in ns then 1 else 0
  {
    if ns != [] {
      DistinctTail(ns);
      PairsWithCount(ns[0], ns[1..], a, b);
      DrawPairsOnce(ns[1..], a, b);
      DrawPairsCons(ns);
      CountAppend(PairsWith(ns[0], ns[1..]), DrawPairs(ns[1..]), (a, b));
      DrawPairsOnceStep(ns, a, b);
    }
  }

  /** The head of a draw pairs with a later number, or both numbers come
      later; with the head not repeated, the two cases never meet. */
  lemma DrawPairsOnceStep(ns: seq<int>, a: int, b: int)
    requires ns != [] && ns[0] !in ns[1..] && a < b
    ensures (if (ns[0] == a && b in ns[1..]) || (ns[0] == b && a in ns[1..]) then 1 else 0)
      + (if a in ns[1..] && b in ns[1..] then 1 else 0)
      == if a in ns && b in ns then 1 else 0
  {
    assert ns == [ns[0]] + ns[1..];
  }

  /** The draw holds both `a` and `b`. */
  function HoldsBoth(a: int, b: int): Legacy.LottoResult -> bool {
    (r: Legacy.LottoResult) => a in r.winningNumbers && b in r.winningNumbers
  }

  /** When no draw repeats a number, the dictionary entry of a pair `a < b`
      counts the draws holding both numbers. */
  lemma {:induction false} CountPairsCountsDraws(results: seq<Legacy.LottoResult>, a: int, b: int)
    requires forall i :: 0 <= i < |results| ==> Distinct(results[i].winningNumbers)
    requires a < b
    ensures Lookup(CountPairs(results), (a, b)) == |Filter(results, HoldsBoth(a, b))|
  {
    if results != [] {
      CountPairsCountsDraws(results[1..], a, b);
      DrawPairsOnce(results[0].winningNumbers, a, b);
      assert PairCountIn((a, b))(results[0]) == if HoldsBoth(a, b)(results[0]) then 1 else 0;
    }
  }

  /** A draw without repeated numbers never pairs a number with itself. */
  lemma {:induction false} DrawPairsNoSelf(ns: seq<int>, a: int)
    requires Distinct(ns)
    ensures (a, a) !in DrawPairs(ns)
  {
    if ns != [] {
      var tail := ns[1..];
      DistinctTail(ns);
      DrawPairsNoSelf(tail, a);
      forall j | 0 <= j < |tail|
        ensures PairsWith(ns[0], tail)[j] != (a, a)
      {
        assert tail[j] != ns[0];
      }
    }
  }

  /** When no draw repeats a number, no key pairs a number with itself. */
  lemma {:induction false} CountPairsNoSelf(results: seq<Legacy.LottoResult>, a: int)
    requires forall i :: 0 <= i < |results| ==> Distinct(results[i].winningNumbers)
    ensures Lookup(CountPairs(results), (a, a)) == 0
  {
    if results != [] {
      CountPairsNoSelf(results[1..], a);
      DrawPairsNoSelf(results[0].winningNumbers, a);
    }
  }

  /** A number drawn together with `n`, and how often. */
  datatype Partner = Partner(number: int, count: nat)

  function PartnerNumber(p: Partner): int {
    p.number
  }

  function NegatedCount(p: Partner): real {
    -(p.count as real)
  }

  /** A partner that was drawn at least once. */
  predicate Drawn(p: Partner) {
    p.count > 0
  }

  /** The number of a key other than `n`; `n` itself for the key `(n, n)`. */
  function Other(q: Pair, n: int): int {
    if q.0 == n then q.1 else q.0
  }

  /** Every number 1 to 45 with the count of its pair with `n`, in
      ascending order. */
  function AllPartners(m: PairTable, n: int): (ps: seq<Partner>)
    ensures |ps| == MaxNumber
    ensures forall i :: 0 <= i < MaxNumber ==> ps[i] == Partner(i + 1, Lookup(m, Key(n, i + 1)))
  {
    seq(MaxNumber, i => Partner(i + 1, Lookup(m, Key(n, i + 1))))
  }

  /** The entries `Where(p => p.Key.Item1 == n || p.Key.Item2 == n)`
      selects, each as its other number and count. The dictionary's own
      enumeration order is unspecified; the model lists them by ascending
      partner. */
  function Candidates(m: PairTable, n: int): (cs: seq<Partner>)
    ensures forall i :: 0 <= i < |cs| ==>
      InRange(cs[i].number) && cs[i].count > 0 && cs[i].count == Lookup(m, Key(n, cs[i].number))
    ensures forall k :: InRange(k) && Lookup(m, Key(n, k)) > 0 ==> Partner(k, Lookup(m, Key(n, k))) in cs
    ensures AscendingBy(cs, PartnerNumber)
  {
    var all := AllPartners(m, n);
    FilterMembers(all, Drawn);
    FilterKeepsAscending(all, Drawn, PartnerNumber);
    var cs := Filter(all, Drawn);
    forall i | 0 <= i < |cs|
      ensures InRange(cs[i].number) && cs[i].count > 0 && cs[i].count == Lookup(m, Key(n, cs[i].number))
    {
      assert cs[i] in all;
    }
    forall k | InRange(k) && Lookup(m, Key(n, k)) > 0
      ensures Partner(k, Lookup(m, Key(n, k))) in cs
    {
      assert all[k - 1] == Partner(k, Lookup(m, Key(n, k)));
    }
    cs
  }

  /** With every key in range, the candidates are exactly the entries
      holding `n`, read from `n`'s side. */
  lemma CandidatesAreEntries(m: PairTable, n: int, q: Pair)
    requires InRange(n)
    requires Positive(m) && forall k :: k in m ==> k.0 <= k.1 && InRange(k.0) && InRange(k.1)
    ensures q in m && (q.0 == n || q.1 == n) ==> Partner(Other(q, n), m[q]) in Candidates(m, n)
    ensures forall c :: c in Candidates(m, n) ==> Key(n, c.number) in m && m[Key(n, c.number)] == c.count
  {
    var cs := Candidates(m, n);
    if q in m && (q.0 == n || q.1 == n) {
      assert Key(n, Other(q, n)) == q;
    }
    forall c | c in cs
      ensures Key(n, c.number) in m && m[Key(n, c.number)] == c.count
    {
      var i :| 0 <= i < |cs| && cs[i] == c;
    }
  }

  /** The numbers of a list of partners. */
  function PartnerNumbers(ps: seq<Partner>): (ns: seq<int>)
    ensures |ns| == |ps|
    ensures forall i :: 0 <= i < |ps| ==> ns[i] == ps[i].number
  {
    seq(|ps|, i requires 0 <= i < |ps| => ps[i].number)
  }

  /** The partners of `n` by descending count, the first three. */
  function Ranked(m: PairTable, n: int): seq<Partner> {
    Take(SortBy(Candidates(m, n), NegatedCount), 3)
  }

  /** One value of `AnalyzePairs`: the at most three partners drawn most
      often with `n`, the most frequent first; partners of equal count in
      ascending order. A partner left out was drawn with `n` no more often
      than any listed one, and then three are listed. */
  function TopPartners(m: PairTable, n: int): (r: seq<int>)
    ensures |r| <= 3
    ensures forall i :: 0 <= i < |r| ==> InRange(r[i]) && Lookup(m, Key(n, r[i])) > 0
    ensures forall i, j :: 0 <= i < j < |r| ==>
      Lookup(m, Key(n, r[i])) > Lookup(m, Key(n, r[j]))
      || (Lookup(m, Key(n, r[i])) == Lookup(m, Key(n, r[j])) && r[i] < r[j])
    ensures forall k :: InRange(k) && Lookup(m, Key(n, k)) > 0 && k !in r ==>
      |r| == 3 && forall i :: 0 <= i < |r| ==> Lookup(m, Key(n, r[i])) >= Lookup(m, Key(n, k))
    ensures Distinct(r)
  {
    TopEntries(m, n);
    TopOrder(m, n);
    TopLeftOut(m, n);
    PartnerNumbers(Ranked(m, n))
  }

  lemma TopEntries(m: PairTable, n: int)
    ensures var r := PartnerNumbers(Ranked(m, n));
      |r| <= 3 && forall i :: 0 <= i < |r| ==> InRange(r[i]) && Lookup(m, Key(n, r[i])) > 0
  {
    RankedEntries(m, n);
  }

  lemma TopOrder(m: PairTable, n: int)
    ensures var r := PartnerNumbers(Ranked(m, n));
      (forall i, j :: 0 <= i < j < |r| ==>
        Lookup(m, Key(n, r[i])) > Lookup(m, Key(n, r[j]))
        || (Lookup(m, Key(n, r[i])) == Lookup(m, Key(n, r[j])) && r[i] < r[j]))
      && Distinct(r)
  {
    RankedEntries(m, n);
    RankedOrder(m, n);
    var ps := Ranked(m, n);
    var r := PartnerNumbers(ps);
    forall i, j | 0 <= i < j < |r|
      ensures Lookup(m, Key(n, r[i])) > Lookup(m, Key(n, r[j]))
        || (Lookup(m, Key(n, r[i])) == Lookup(m, Key(n, r[j])) && r[i] < r[j])
      ensures r[i] != r[j]
    {
      assert r[i] == ps[i].number && r[j] == ps[j].number;
    }
  }

  lemma TopLeftOut(m: PairTable, n: int)
    ensures var r := PartnerNumbers(Ranked(m, n));
      forall k :: InRange(k) && Lookup(m, Key(n, k)) > 0 && k !in r ==>
        |r| == 3 && forall i :: 0 <= i < |r| ==> Lookup(m, Key(n, r[i])) >= Lookup(m, Key(n, k))
  {
    RankedEntries(m, n);
    RankedTop(m, n);
    var ps := Ranked(m, n);
    var r := PartnerNumbers(ps);
    forall k | InRange(k) && Lookup(m, Key(n, k)) > 0 && k !in r
      ensures |r| == 3 && forall i :: 0 <= i < |r| ==> Lookup(m, Key(n, r[i])) >= Lookup(m, Key(n, k))
    {
      assert Partner(k, Lookup(m, Key(n, k))) !in ps by {
        forall i | 0 <= i < |ps|
          ensures ps[i].number != k
        {
          assert r[i] == ps[i].number;
        }
      }
      forall i | 0 <= i < |r|
        ensures Lookup(m, Key(n, r[i])) >= Lookup(m, Key(n, k))
      {
        assert r[i] == ps[i].number;
      }
    }
  }

  lemma RankedEntries(m: PairTable, n: int)
    ensures var r := Ranked(m, n);
      forall i :: 0 <= i < |r| ==>
        InRange(r[i].number) && r[i].count > 0 && r[i].count == Lookup(m, Key(n, r[i].number))
  {
    var cs := Candidates(m, n);
    var sorted := SortBy(cs, NegatedCount);
    var r := Take(sorted, 3);
    forall i | 0 <= i < |r|
      ensures InRange(r[i].number) && r[i].count > 0 && r[i].count == Lookup(m, Key(n, r[i].number))
    {
      assert r[i] == sorted[i];
      SameMembers(sorted, cs, r[i]);
      var k :| 0 <= k < |cs| && cs[k] == r[i];
    }
  }

  lemma RankedOrder(m: PairTable, n: int)
    ensures var r := Ranked(m, n);
      forall i, j :: 0 <= i < j < |r| ==>
        r[i].count > r[j].count || (r[i].count == r[j].count && r[i].number < r[j].number)
  {
    var cs := Candidates(m, n);
    var sorted := SortBy(cs, NegatedCount);
    var r := Take(sorted, 3);
    SortByIsStable(cs, NegatedCount, PartnerNumber);
    forall i, j | 0 <= i < j < |r|
      ensures r[i].count > r[j].count || (r[i].count == r[j].count && r[i].number < r[j].number)
    {
      assert r[i] == sorted[i] && r[j] == sorted[j];
      assert NegatedCount(r[i]) < NegatedCount(r[j])
        || (NegatedCount(r[i]) == NegatedCount(r[j]) && PartnerNumber(r[i]) < PartnerNumber(r[j]));
    }
  }

  lemma RankedTop(m: PairTable, n: int)
    ensures var r := Ranked(m, n);
      forall k :: InRange(k) && Lookup(m, Key(n, k)) > 0 ==>
        Partner(k, Lookup(m, Key(n, k))) in r
        || (|r| == 3 && forall i :: 0 <= i < |r| ==> r[i].count >= Lookup(m, Key(n, k)))
  {
    var cs := Candidates(m, n);
    var sorted := SortBy(cs, NegatedCount);
    var r := Take(sorted, 3);
    TakeKeepsTop(sorted, NegatedCount, 3);
    forall k | InRange(k) && Lookup(m, Key(n, k)) > 0
      ensures Partner(k, Lookup(m, Key(n, k))) in r
        || (|r| == 3 && forall i :: 0 <= i < |r| ==> r[i].count >= Lookup(m, Key(n, k)))
    {
      var c := Partner(k, Lookup(m, Key(n, k)));
      SameMembers(sorted, cs, c);
      if c !in r {
        forall i | 0 <= i < |r|
          ensures r[i].count >= c.count
        {
          assert NegatedCount(r[i]) <= NegatedCount(c);
        }
      }
    }
  }

  /** `AnalyzePairs`: for each number 1 to 45, its top partners over all
      draws. The analyzer only exists once its statistics were computed,
      which needs every number in range. */
  function AnalyzePairs(results: seq<Legacy.LottoResult>): (r: map<int, seq<int>>)
    requires AllInRange(results)
    ensures forall n :: n in r <==> InRange(n)
    ensures forall n :: n in r ==> |r[n]| <= 3 && Distinct(r[n])
    ensures forall n :: n in r ==> forall i :: 0 <= i < |r[n]| ==>
      InRange(r[n][i]) && Key(n, r[n][i]) in CountPairs(results)
  {
    var m := CountPairs(results);
    var r := map n: int | 1 <= n <= MaxNumber && InRange(n) :: TopPartners(m, n);
    forall n | n in r
      ensures |r[n]| <= 3 && Distinct(r[n])
      ensures forall i :: 0 <= i < |r[n]| ==> InRange(r[n][i]) && Key(n, r[n][i]) in m
    {
      assert r[n] == TopPartners(m, n);
    }
    r
  }

  /** When no draw repeats a number, no number is its own partner. */
  lemma NoSelfPartner(results: seq<Legacy.LottoResult>, n: int)
    requires AllInRange(results) && InRange(n)
    requires forall i :: 0 <= i < |results| ==> Distinct(results[i].winningNumbers)
    ensures n !in AnalyzePairs(results)[n]
  {
    var m := CountPairs(results);
    assert AnalyzePairs(results)[n] == TopPartners(m, n);
    CountPairsNoSelf(results, n);
    assert Key(n, n) == (n, n);
  }

  /** How many draws hold both `n` and `k`. */
  function SharedDraws(results: seq<Legacy.LottoResult>, n: int, k: int): nat {
    |Filter(results, HoldsBoth(n, k))|
  }

  /** The headline promise of `AnalyzePairs`, for draws without repeated
      numbers: a number `k` drawn together with `n` that is not among
      `n`'s partners shares no more draws with `n` than each listed
      partner does, and three partners are listed. */
  lemma PartnersShareMostDraws(results: seq<Legacy.LottoResult>, n: int, k: int)
    requires AllInRange(results)
    requires forall i :: 0 <= i < |results| ==> Distinct(results[i].winningNumbers)
    requires InRange(n) && InRange(k) && n != k
    requires SharedDraws(results, n, k) > 0
    ensures var partners := AnalyzePairs(results)[n];
      k in partners
      || (|partners| == 3 && forall i :: 0 <= i < |partners| ==>
            SharedDraws(results, n, partners[i]) >= SharedDraws(results, n, k))
  {
    assert AnalyzePairs(results)[n] == TopPartners(CountPairs(results), n);
    TopPartnersShareMostDraws(results, n, k);
  }

  lemma TopPartnersShareMostDraws(results: seq<Legacy.LottoResult>, n: int, k: int)
    requires forall i :: 0 <= i < |results| ==> Distinct(results[i].winningNumbers)
    requires InRange(k) && n != k
    requires SharedDraws(results, n, k) > 0
    ensures var partners := TopPartners(CountPairs(results), n);
      k in partners
      || (|partners| == 3 && forall i :: 0 <= i < |partners| ==>
            SharedDraws(results, n, partners[i]) >= SharedDraws(results, n, k))
  {
    var m := CountPairs(results);
    var partners := TopPartners(m, n);
    BothWays(results, n, k);
    if k !in partners {
      forall i | 0 <= i < |partners|
        ensures SharedDraws(results, n, partners[i]) >= SharedDraws(results, n, k)
      {
        SharesAsMany(results, n, partners[i], k);
      }
    }
  }

  /** A partner `p` whose pair with `n` counts at least as much as `k`'s
      shares at least as many draws with `n`. */
  lemma SharesAsMany(results: seq<Legacy.LottoResult>, n: int, p: int, k: int)
    requires forall i :: 0 <= i < |results| ==> Distinct(results[i].winningNumbers)
    requires n != k && Lookup(CountPairs(results), Key(n, p)) > 0
    requires Lookup(CountPairs(results), Key(n, p)) >= Lookup(CountPairs(results), Key(n, k))
    ensures SharedDraws(results, n, p) >= SharedDraws(results, n, k)
  {
    CountPairsNoSelf(results, n);
    assert Key(n, n) == (n, n);
    BothWays(results, n, p);
    BothWays(results, n, k);
  }

  lemma BothWays(results: seq<Legacy.LottoResult>, n: int, k: int)
    requires forall i :: 0 <= i < |results| ==> Distinct(results[i].winningNumbers)
    ensures n != k ==> Lookup(CountPairs(results), Key(n, k)) == SharedDraws(results, n, k)
  {
    if n < k {
      CountPairsCountsDraws(results, n, k);
    } else if k < n {
      CountPairsCountsDraws(results, k, n);
      FilterSame(results, HoldsBoth(k, n), HoldsBoth(n, k));
    }
  }
}
