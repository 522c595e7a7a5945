/** The record types of the service layer: one draw result and the
    per-number probability record, with the hot and due thresholds that
    the analyzer shares. */
module Models {
  import opened Prelude
  import opened Calendar
  import opened LottoTypes

  /** A number is hot when its probability is above 15%. */
  const HotThreshold: real := 0.15

  /** A number is due when it has not been drawn for more than 60 days. */
  const DueDays: nat := 60

  predicate Hot(probability: real) {
    probability > HotThreshold
  }

  /** `(now - lastAppearance).TotalDays > 60`, in whole seconds. */
  predicate Due(now: Instant, lastAppearance: Instant) {
    now - lastAppearance > DueDays * SecondsPerDay
  }

  /** The 15% boundary itself is not hot, and a number is due only once
      strictly more than 60 days have passed. */
  lemma ThresholdBoundaries(last: Instant)
    ensures !Hot(0.15) && Hot(0.15 + 1.0 / 1000000.0)
    ensures !Due(last + 60 * SecondsPerDay, last) && Due(last + 60 * SecondsPerDay + 1, last)
  {
  }

  /** `Models.LottoResult`; the nullable powerball is an option and the
      decimal prize a `real`. */
  datatype LottoResult = LottoResult(
    gameType: LottoType,
    drawDate: Instant,
    drawNumber: int,
    winningNumbers: seq<int>,
    supplementaryNumbers: seq<int>,
    powerballNumber: Option<int>,
    division1Prize: real,
    division1Winners: int)
  {
    predicate HasWinners() {
      division1Winners > 0
    }
  }

  /** `new LottoResult()`: every property at its initializer or default. */
  function NewLottoResult(): (r: LottoResult)
    ensures r.winningNumbers == [] && r.supplementaryNumbers == []
    ensures r.powerballNumber.None?
    ensures r.drawDate == MinValue && r.drawNumber == 0
    ensures r.division1Prize == 0.0
    ensures !r.HasWinners()
  {
    LottoResult(MondayLotto, MinValue, 0, [], [], None, 0.0, 0)
  }

  /** `NumberProbability`. */
  datatype NumberProbability = NumberProbability(
    number: int,
    frequency: int,
    lastAppearance: Instant,
    probability: real,
    commonCompanions: seq<int>)
  {
    predicate IsHot() {
      Hot(probability)
    }

    predicate IsDue(now: Instant) {
      Due(now, lastAppearance)
    }
  }

  /** The two flags of a probability record against its thresholds,
      including the boundaries that are excluded. */
  lemma NumberProbabilityFlags(p: NumberProbability, now: Instant)
    ensures p.IsHot() <==> p.probability > 15.0 / 100.0
    ensures p.probability == 0.15 ==> !p.IsHot()
    ensures p.IsDue(now) <==> now > p.lastAppearance + 5184000
    ensures now <= p.lastAppearance ==> !p.IsDue(now)
  {
  }
}
