/** The statistics engine: per-number frequency, last appearance and
    probability over the numbers 1 to 45, and the two rankings. It reads
    the slim result records of the Saturday scraper. */
module Analyzer {
  import opened Prelude
  import opened Calendar
  import opened Sorting
  import opened Models
  import Legacy

  /** The analyzer counts the numbers 1 to 45 whatever the game. */
  const MaxNumber: int := 45

  predicate InRange(n: int) {
    1 <= n <= MaxNumber
  }

  /** The numbers 1 to 45 in ascending order. */
  function NumberList(): (ns: seq<int>)
    ensures |ns| == MaxNumber
    ensures forall i :: 0 <= i < MaxNumber ==> ns[i] == i + 1
  {
    seq(MaxNumber, i => i + 1)
  }

  /** `NumberStats`. */
  datatype NumberStats = NumberStats(number: int, frequency: nat, lastAppearance: Instant, probability: real) {
    predicate IsHot() {
      Hot(probability)
    }

    predicate IsDue(now: Instant) {
      Due(now, lastAppearance)
    }
  }

  type Table = map<int, NumberStats>

  /** A table with one entry per number 1 to 45, each filed under its own
      number. */
  ghost predicate ValidTable(t: Table) {
    (forall n :: n in t <==> InRange(n)) && forall n :: n in t ==> t[n].number == n
  }

  /** Every winning number of every draw is between 1 and 45. */
  predicate AllInRange(results: seq<Legacy.LottoResult>) {
    forall i, j :: 0 <= i < |results| && 0 <= j < |results[i].winningNumbers| ==>
      InRange(results[i].winningNumbers[j])
  }

  /** How often `ws` holds each number. */
  function CountsIn(ws: seq<int>): int -> nat {
    n => multiset(ws)[n]
  }

  /** Each number's count over all draws. */
  function OccurrencesIn(results: seq<Legacy.LottoResult>): int -> nat {
    n => Occurrences(results, n)
  }

  /** Each number's frequency in a table, 0 for a number without an entry. */
  function FrequencyIn(t: Table): int -> nat {
    n => if n in t then t[n].frequency else 0
  }

  /** The number of winning numbers of a draw. */
  function DrawSize(r: Legacy.LottoResult): nat {
    |r.winningNumbers|
  }

  function Zero<T>(): T -> nat {
    x => 0
  }

  /** How often one draw holds `n`. */
  function CountIn(n: int): Legacy.LottoResult -> nat {
    (r: Legacy.LottoResult) => multiset(r.winningNumbers)[n]
  }

  /** The date of a draw holding `n`, `MinValue` for any other draw. */
  function DateIfHolds(n: int): Legacy.LottoResult -> nat {
    (r: Legacy.LottoResult) => if n in r.winningNumbers then r.drawDate else MinValue
  }

  /** How often `n` occurs among the winning numbers of all draws. */
  function Occurrences(results: seq<Legacy.LottoResult>, n: int): nat {
    SumOver(results, CountIn(n))
  }

  /** The latest date of a draw containing `n`, or `MinValue` if none does. */
  function LastSeen(results: seq<Legacy.LottoResult>, n: int): Instant {
    MaxOver(results, DateIfHolds(n), MinValue)
  }

  function NumberOf(s: NumberStats): int {
    s.number
  }

  /** `(double)Frequency / totalDraws`, taken as 0 when there are no draws
      (the source divides 0 by 0 there; see `NoDrawsNothingHot`). */
  function Probability(frequency: nat, totalDraws: nat): (p: real)
    ensures p >= 0.0
    ensures totalDraws > 0 ==> p * totalDraws as real == frequency as real
    ensures totalDraws == 0 || frequency == 0 ==> p == 0.0
  {
    if totalDraws == 0 then 0.0 else frequency as real / totalDraws as real
  }

  /** The initialization loop: every number 1 to 45, never drawn. */
  function InitialStats(): (t: Table)
    ensures ValidTable(t)
    ensures forall n :: n in t ==> t[n].frequency == 0 && t[n].lastAppearance == MinValue && t[n].probability == 0.0
  {
    map n: int | 1 <= n <= MaxNumber && InRange(n) :: NumberStats(n, 0, MinValue, 0.0)
  }

  /** One occurrence of `x` on `date`: its frequency goes up by one and its
      last appearance moves forward to `date`. */
  function Seen(stats: Table, x: int, date: Instant): Table
    requires x in stats
  {
    var s := stats[x];
    stats[x := s.(frequency := s.frequency + 1,
                  lastAppearance := if date > s.lastAppearance then date else s.lastAppearance)]
  }

  /** The inner loop over one draw's winning numbers: each number's entry
      counts one more occurrence and moves its last appearance forward to
      the draw date. A number without an entry fails the lookup. */
  function RecordNumbers(stats: Table, date: Instant, numbers: seq<int>): (r: Option<Table>)
    requires ValidTable(stats)
    ensures r.Some? <==> forall j :: 0 <= j < |numbers| ==> InRange(numbers[j])
    ensures r.Some? ==> ValidTable(r.value)
    ensures r.Some? ==> forall n :: n in stats ==>
      r.value[n].frequency == stats[n].frequency + multiset(numbers)[n]
      && r.value[n].lastAppearance == (if n in numbers then Max(stats[n].lastAppearance, date) else stats[n].lastAppearance)
      && r.value[n].probability == stats[n].probability
    decreases |numbers|, 2
  {
    if numbers == [] then Some(stats)
    else if numbers[0] !in stats then None
    else
      assert ValidTable(Seen(stats, numbers[0], date)) by {
        var u := Seen(stats, numbers[0], date);
        assert forall n :: n in u <==> n in stats;
      }
      var r := RecordNumbers(Seen(stats, numbers[0], date), date, numbers[1..]);
      RecordStep(stats, date, numbers, r);
      r
  }

  /** The step of `RecordNumbers`: the first number is seen, then the rest
      are recorded. */
  lemma RecordStep(stats: Table, date: Instant, numbers: seq<int>, r: Option<Table>)
    requires ValidTable(stats) && numbers != [] && numbers[0] in stats
    requires ValidTable(Seen(stats, numbers[0], date))
    requires r == RecordNumbers(Seen(stats, numbers[0], date), date, numbers[1..])
    decreases |numbers|, 1
    ensures r.Some? <==> forall j :: 0 <= j < |numbers| ==> InRange(numbers[j])
    ensures r.Some? ==> forall n :: n in stats ==>
      r.value[n].frequency == stats[n].frequency + multiset(numbers)[n]
      && r.value[n].lastAppearance == (if n in numbers then Max(stats[n].lastAppearance, date) else stats[n].lastAppearance)
      && r.value[n].probability == stats[n].probability
  {
    var x := numbers[0];
    assert forall j :: 1 <= j < |numbers| ==> numbers[j] == numbers[1..][j - 1];
    assert InRange(x);
    if r.Some? {
      forall n | n in stats
        ensures r.value[n].frequency == stats[n].frequency + multiset(numbers)[n]
        ensures r.value[n].lastAppearance
                == (if n in numbers then Max(stats[n].lastAppearance, date) else stats[n].lastAppearance)
        ensures r.value[n].probability == stats[n].probability
      {
        RecordEntry(stats, date, numbers, r.value, n);
      }
    }
  }

  /** One entry after the step of `RecordNumbers`. */
  lemma RecordEntry(stats: Table, date: Instant, numbers: seq<int>, r: Table, n: int)
    requires ValidTable(stats) && numbers != [] && numbers[0] in stats && n in stats
    requires ValidTable(Seen(stats, numbers[0], date))
    requires Some(r) == RecordNumbers(Seen(stats, numbers[0], date), date, numbers[1..])
    ensures r[n].frequency == stats[n].frequency + multiset(numbers)[n]
    ensures r[n].lastAppearance
            == (if n in numbers then Max(stats[n].lastAppearance, date) else stats[n].lastAppearance)
    ensures r[n].probability == stats[n].probability
    decreases |numbers|, 0
  {
    var x, rest := numbers[0], numbers[1..];
    var u := Seen(stats, x, date);
    assert n in u;
    assert u[n].frequency == stats[n].frequency + (if n == x then 1 else 0);
    assert u[n].lastAppearance == (if n == x then Max(stats[n].lastAppearance, date) else stats[n].lastAppearance);
    assert u[n].probability == stats[n].probability;
    assert multiset(numbers)[n] == (if n == x then 1 else 0) + multiset(rest)[n] by {
      assert numbers == [x] + rest;
      assert multiset(numbers) == multiset{x} + multiset(rest);
    }
    assert n in numbers <==> n == x || n in rest by {
      assert numbers == [x] + rest;
    }
  }

  /** The outer loop over the draws, in order. */
  function Tally(stats: Table, results: seq<Legacy.LottoResult>): (r: Option<Table>)
    requires ValidTable(stats)
    ensures r.Some? <==> AllInRange(results)
    ensures r.Some? ==> ValidTable(r.value)
    ensures r.Some? ==> forall n :: n in stats ==>
      r.value[n].frequency == stats[n].frequency + Occurrences(results, n)
      && r.value[n].lastAppearance == Max(stats[n].lastAppearance, LastSeen(results, n))
      && r.value[n].probability == stats[n].probability
    decreases |results|, 1
  {
    if results == [] then Some(stats)
    else
      match RecordNumbers(stats, results[0].drawDate, results[0].winningNumbers)
      case None =>
        AllInRangeCons(results);
        None
      case Some(s) =>
        var r := Tally(s, results[1..]);
        TallyStep(stats, results, s, r);
        r
  }

  /** The step of `Tally`: the first draw is recorded, then the rest are
      tallied. */
  lemma TallyStep(stats: Table, results: seq<Legacy.LottoResult>, s: Table, r: Option<Table>)
    requires ValidTable(stats) && results != []
    requires RecordNumbers(stats, results[0].drawDate, results[0].winningNumbers) == Some(s)
    requires ValidTable(s) && r == Tally(s, results[1..])
    decreases |results|, 0
    ensures r.Some? <==> AllInRange(results)
    ensures r.Some? ==> forall n :: n in stats ==>
      r.value[n].frequency == stats[n].frequency + Occurrences(results, n)
      && r.value[n].lastAppearance == Max(stats[n].lastAppearance, LastSeen(results, n))
      && r.value[n].probability == stats[n].probability
  {
    AllInRangeCons(results);
    if r.Some? {
      forall n | n in stats
        ensures r.value[n].frequency == stats[n].frequency + Occurrences(results, n)
        ensures r.value[n].lastAppearance == Max(stats[n].lastAppearance, LastSeen(results, n))
        ensures r.value[n].probability == stats[n].probability
      {
        assert n in s;
        OccurrencesCons(results, n);
        LastSeenCons(results, n);
      }
    }
  }

  lemma AllInRangeCons(results: seq<Legacy.LottoResult>)
    requires results != []
    ensures AllInRange(results) <==>
      (forall j :: 0 <= j < |results[0].winningNumbers| ==> InRange(results[0].winningNumbers[j]))
      && AllInRange(results[1..])
  {
    assert forall i :: 1 <= i < |results| ==> results[i] == results[1..][i - 1];
  }

  lemma OccurrencesCons(results: seq<Legacy.LottoResult>, n: int)
    requires results != []
    ensures Occurrences(results, n) == multiset(results[0].winningNumbers)[n] + Occurrences(results[1..], n)
  {
  }

  lemma LastSeenCons(results: seq<Legacy.LottoResult>, n: int)
    requires results != []
    ensures LastSeen(results, n)
            == Max(if n in results[0].winningNumbers then results[0].drawDate else MinValue, LastSeen(results[1..], n))
  {
  }

  /** The probability pass over the finished counts. */
  function WithProbabilities(t: Table, totalDraws: nat): (r: Table)
    requires ValidTable(t)
    ensures ValidTable(r)
    ensures forall n :: n in r ==>
      r[n] == t[n].(probability := Probability(t[n].frequency, totalDraws))
  {
    map n | n in t :: t[n].(probability := Probability(t[n].frequency, totalDraws))
  }

  /** `CalculateNumberStats`, run by the analyzer's constructor. It fails
      (`None`) exactly when a winning number lies outside 1 to 45. Otherwise
      each number's frequency is its number of occurrences, its last
      appearance the latest draw holding it, and its probability the
      frequency over the number of draws. */
  function CalculateNumberStats(results: seq<Legacy.LottoResult>): (r: Option<Table>)
    ensures r.Some? <==> AllInRange(results)
    ensures r.Some? ==> ValidTable(r.value)
    ensures r.Some? ==> forall n :: n in r.value ==>
      r.value[n].frequency == Occurrences(results, n)
      && r.value[n].lastAppearance == LastSeen(results, n)
      && r.value[n].probability == Probability(Occurrences(results, n), |results|)
  {
    match Tally(InitialStats(), results)
    case None => None
    case Some(t) => Some(WithProbabilities(t, |results|))
  }

  /** A number never drawn keeps frequency 0 and last appearance
      `MinValue`. */
  lemma NeverDrawn(results: seq<Legacy.LottoResult>, n: int)
    requires AllInRange(results) && InRange(n)
    requires forall i :: 0 <= i < |results| ==> n !in results[i].winningNumbers
    ensures CalculateNumberStats(results).value[n].frequency == 0
    ensures CalculateNumberStats(results).value[n].lastAppearance == MinValue
    ensures CalculateNumberStats(results).value[n].probability == 0.0
  {
    NotInCountsZero(results, n);
    NotInNeverSeen(results, n);
    var t := CalculateNumberStats(results).value;
    assert n in t;
    assert t[n].frequency == Occurrences(results, n);
  }

  lemma {:induction false} NotInCountsZero(results: seq<Legacy.LottoResult>, n: int)
    requires forall i :: 0 <= i < |results| ==> n !in results[i].winningNumbers
    ensures Occurrences(results, n) == 0
  {
    if results != [] {
      assert n !in multiset(results[0].winningNumbers);
      NotInCountsZero(results[1..], n);
    }
  }

  lemma NotInNeverSeen(results: seq<Legacy.LottoResult>, n: int)
    requires forall i :: 0 <= i < |results| ==> n !in results[i].winningNumbers
    ensures LastSeen(results, n) == MinValue
  {
    var f := DateIfHolds(n);
    forall i | 0 <= i < |results|
      ensures f(results[i]) == MinValue
    {
    }
  }

  /** The statistics depend only on which draws there are, not on their
      order. */
  lemma StatsIgnoreDrawOrder(a: seq<Legacy.LottoResult>, b: seq<Legacy.LottoResult>)
    requires multiset(a) == multiset(b)
    ensures CalculateNumberStats(a) == CalculateNumberStats(b)
  {
    assert |a| == |multiset(a)| == |b|;
    if AllInRange(a) {
      InRangePermutation(a, b);
    }
    if AllInRange(b) {
      InRangePermutation(b, a);
    }
    if AllInRange(a) {
      var ta, tb := CalculateNumberStats(a).value, CalculateNumberStats(b).value;
      forall n | n in ta
        ensures ta[n] == tb[n]
      {
        SumOverPermutation(a, b, CountIn(n));
        MaxOverPermutation(a, b, DateIfHolds(n), MinValue);
      }
      SameTables(ta, tb);
    }
  }

  lemma InRangePermutation(a: seq<Legacy.LottoResult>, b: seq<Legacy.LottoResult>)
    requires multiset(a) == multiset(b) && AllInRange(a)
    ensures AllInRange(b)
  {
    forall i, j | 0 <= i < |b| && 0 <= j < |b[i].winningNumbers|
      ensures InRange(b[i].winningNumbers[j])
    {
      SameMembers(a, b, b[i]);
      var k :| 0 <= k < |a| && a[k] == b[i];
      assert InRange(a[k].winningNumbers[j]);
    }
  }

  lemma SameTables(ta: Table, tb: Table)
    requires ValidTable(ta) && ValidTable(tb)
    requires forall n :: n in ta ==> ta[n] == tb[n]
    ensures ta == tb
  {
    forall n
      ensures n in ta.Keys <==> n in tb.Keys
    {
      assert n in ta <==> InRange(n);
      assert n in tb <==> InRange(n);
    }
    assert ta.Keys == tb.Keys;
    assert forall n :: n in tb ==> n in ta && tb[n] == ta[n];
  }

  /** The frequencies add up to the count of all winning numbers drawn:
      each drawn number is counted once, against its own entry. */
  lemma FrequenciesSumToNumbersDrawn(results: seq<Legacy.LottoResult>)
    requires AllInRange(results)
    ensures var t := CalculateNumberStats(results).value;
      SumOver(NumberList(), FrequencyIn(t))
      == SumOver(results, DrawSize)
  {
    var t := CalculateNumberStats(results).value;
    var ns := NumberList();
    forall i | 0 <= i < |ns|
      ensures FrequencyIn(t)(ns[i]) == OccurrencesIn(results)(ns[i])
    {
      assert InRange(ns[i]);
    }
    SumOverCongruent(ns, FrequencyIn(t), OccurrencesIn(results));
    TotalOccurrences(results);
  }

  lemma {:induction false} TotalOccurrences(results: seq<Legacy.LottoResult>)
    requires AllInRange(results)
    ensures SumOver(NumberList(), OccurrencesIn(results))
            == SumOver(results, DrawSize)
  {
    var ns := NumberList();
    if results == [] {
      SumOverCongruent(ns, OccurrencesIn(results), Zero());
      ZeroSum(ns);
    } else {
      var rest := results[1..];
      assert AllInRange(rest) by {
        forall i, j | 0 <= i < |rest| && 0 <= j < |rest[i].winningNumbers|
          ensures InRange(rest[i].winningNumbers[j])
        {
          assert rest[i] == results[i + 1];
        }
      }
      var ws := results[0].winningNumbers;
      assert forall j :: 0 <= j < |ws| ==> InRange(ws[j]) by {
        forall j | 0 <= j < |ws|
          ensures InRange(ws[j])
        {
          assert InRange(results[0].winningNumbers[j]);
        }
      }
      SumOverAdd(ns, CountsIn(ws), OccurrencesIn(rest), OccurrencesIn(results));
      TotalOccurrences(rest);
      OneDrawCounted(ws);
    }
  }

  lemma {:induction false} ZeroSum<T>(s: seq<T>)
    ensures SumOver(s, Zero()) == 0
  {
    if s != [] {
      ZeroSum(s[1..]);
    }
  }

  /** Over the numbers 1 to 45, one draw's counts add up to its length. */
  lemma {:induction false} OneDrawCounted(ws: seq<int>)
    requires forall j :: 0 <= j < |ws| ==> InRange(ws[j])
    ensures SumOver(NumberList(), CountsIn(ws)) == |ws|
  {
    var ns := NumberList();
    if ws == [] {
      SumOverCongruent(ns, CountsIn(ws), Zero());
      ZeroSum(ns);
    } else {
      var x, rest := ws[0], ws[1..];
      assert ws == [x] + rest;
      assert forall j :: 0 <= j < |rest| ==> InRange(rest[j]) by {
        forall j | 0 <= j < |rest|
          ensures InRange(rest[j])
        {
          assert rest[j] == ws[j + 1];
        }
      }
      forall i | 0 <= i < |ns|
        ensures CountsIn(ws)(ns[i]) == Indicator(x)(ns[i]) + CountsIn(rest)(ns[i])
      {
        assert multiset(ws) == multiset{x} + multiset(rest);
      }
      SumOverAdd(ns, Indicator(x), CountsIn(rest), CountsIn(ws));
      OneDrawCounted(rest);
      SumOverIndicator(ns, x);
      NumberListOnce(x);
    }
  }

  /** Each number 1 to 45 appears exactly once in the list of numbers. */
  lemma NumberListOnce(x: int)
    requires InRange(x)
    ensures multiset(NumberList())[x] == 1
  {
    var ns := NumberList();
    assert AscendingBy(ns, n => n);
    assert Distinct(ns);
    DistinctHasMultiplicityOne(ns);
    assert ns[x - 1] == x;
    assert x in multiset(ns);
  }

  /** A number is hot exactly when 20 times its frequency exceeds 3 times
      the number of draws, the integer form of "more than 15%". */
  lemma HotIffCrossMultiplied(s: NumberStats, totalDraws: nat)
    requires s.probability == Probability(s.frequency, totalDraws)
    ensures s.IsHot() <==> totalDraws > 0 && 20 * s.frequency > 3 * totalDraws
  {
    if totalDraws > 0 {
      var p, f, d := s.probability, s.frequency as real, totalDraws as real;
      assert p * d == f;
      ScaleStrict(p, 0.15, d);
      assert s.IsHot() <==> f > 0.15 * d;
      assert 0.15 * d * 20.0 == 3.0 * d;
      ScaleStrict(f, 0.15 * d, 20.0);
      assert s.IsHot() <==> f * 20.0 > 3.0 * d;
      assert (20 * s.frequency) as real == f * 20.0;
      assert (3 * totalDraws) as real == 3.0 * d;
      assert f * 20.0 > 3.0 * d <==> 20 * s.frequency > 3 * totalDraws;
    } else {
      assert s.probability == 0.0;
    }
  }

  lemma ScaleStrict(x: real, y: real, d: real)
    requires d > 0.0
    ensures x > y <==> x * d > y * d
  {
    assert x * d - y * d == (x - y) * d;
  }

  /** With no draws at all nothing is hot. */
  lemma NoDrawsNothingHot(n: int)
    requires InRange(n)
    ensures !CalculateNumberStats([]).value[n].IsHot()
  {
    assert AllInRange([]);
  }

  /** A number that was drawn is due exactly when every draw holding it
      lies more than 60 days before `now`. */
  lemma DueIffAllDrawsOld(results: seq<Legacy.LottoResult>, n: int, now: Instant)
    requires AllInRange(results) && InRange(n)
    requires exists i :: 0 <= i < |results| && n in results[i].winningNumbers
    ensures CalculateNumberStats(results).value[n].IsDue(now) <==>
      forall i :: 0 <= i < |results| && n in results[i].winningNumbers ==>
        now - results[i].drawDate > DueDays * SecondsPerDay
  {
    var f := DateIfHolds(n);
    var last := LastSeen(results, n);
    var i0 :| 0 <= i0 < |results| && n in results[i0].winningNumbers;
    assert f(results[i0]) <= last;
    if last != MinValue {
      var k :| 0 <= k < |results| && f(results[k]) == last;
    }
    forall i | 0 <= i < |results| && n in results[i].winningNumbers
      ensures results[i].drawDate <= last
    {
      assert f(results[i]) == results[i].drawDate;
    }
  }

  /** `_numberStats.Values`: a dictionary filled in key order 1 to 45
      enumerates in that order. */
  function StatsInOrder(t: Table): (s: seq<NumberStats>)
    requires ValidTable(t)
    ensures |s| == MaxNumber
    ensures forall i :: 0 <= i < |s| ==> s[i] == t[i + 1]
    ensures AscendingBy(s, NumberOf)
  {
    seq(MaxNumber, i requires 0 <= i < MaxNumber => t[i + 1])
  }

  /** `count` cut to 0 .. 45, the length `Take(count)` keeps of 45 values. */
  function Clamp(count: int): (n: nat)
    ensures n <= MaxNumber
  {
    if count <= 0 then 0 else if count < MaxNumber then count else MaxNumber
  }

  /** `GetTopNumbers`: the `count` entries of highest probability, highest
      first; entries of equal probability in ascending number. */
  function GetTopNumbers(t: Table, count: int): (r: seq<NumberStats>)
    requires ValidTable(t)
    ensures |r| == Clamp(count)
    ensures forall i :: 0 <= i < |r| ==> r[i].number in t && r[i] == t[r[i].number]
    ensures forall i, j :: 0 <= i < j < |r| ==>
      r[i].probability > r[j].probability
      || (r[i].probability == r[j].probability && r[i].number < r[j].number)
    ensures forall n, x :: n in t && x in r ==>
      t[n] in r || x.probability > t[n].probability
      || (x.probability == t[n].probability && x.number < n)
  {
    var all := StatsInOrder(t);
    var key := (x: NumberStats) => -x.probability;
    var sorted := SortBy(all, key);
    SortByIsStable(all, key, NumberOf);
    TopOfSorted(t, all, sorted, count, key);
    Take(sorted, count)
  }

  /** `GetLeastDrawnNumbers`: the `count` entries of lowest probability,
      lowest first; entries of equal probability in ascending number. */
  function GetLeastDrawnNumbers(t: Table, count: int): (r: seq<NumberStats>)
    requires ValidTable(t)
    ensures |r| == Clamp(count)
    ensures forall i :: 0 <= i < |r| ==> r[i].number in t && r[i] == t[r[i].number]
    ensures forall i, j :: 0 <= i < j < |r| ==>
      r[i].probability < r[j].probability
      || (r[i].probability == r[j].probability && r[i].number < r[j].number)
    ensures forall n, x :: n in t && x in r ==>
      t[n] in r || x.probability < t[n].probability
      || (x.probability == t[n].probability && x.number < n)
  {
    var all := StatsInOrder(t);
    var key := (x: NumberStats) => x.probability;
    var sorted := SortBy(all, key);
    SortByIsStable(all, key, NumberOf);
    TopOfSorted(t, all, sorted, count, key);
    Take(sorted, count)
  }

  /** The front `count` entries of the sorted table: they are table
      entries, and an entry left out ranks below every kept one, by key
      and then by number. */
  lemma TopOfSorted(t: Table, all: seq<NumberStats>, sorted: seq<NumberStats>, count: int, key: NumberStats -> real)
    requires ValidTable(t) && all == StatsInOrder(t)
    requires multiset(sorted) == multiset(all) && SortedThenBy(sorted, key, NumberOf)
    ensures |Take(sorted, count)| == Clamp(count)
    ensures forall x :: x in sorted ==> x.number in t && x == t[x.number]
    ensures forall n, x :: n in t && x in Take(sorted, count) ==>
      t[n] in Take(sorted, count) || key(x) < key(t[n]) || (key(x) == key(t[n]) && x.number < n)
  {
    var r := Take(sorted, count);
    assert |sorted| == |all| by {
      assert |multiset(sorted)| == |multiset(all)|;
    }
    forall x | x in sorted
      ensures x.number in t && x == t[x.number]
    {
      SameMembers(sorted, all, x);
    }
    TakeKeepsTopThenBy(sorted, key, NumberOf, count);
    forall n, x | n in t && x in r
      ensures t[n] in r || key(x) < key(t[n]) || (key(x) == key(t[n]) && x.number < n)
    {
      assert all[n - 1] == t[n];
      SameMembers(sorted, all, t[n]);
    }
  }
}
