/** The game-aware scraper service: one results row to a `LottoResult`,
    a page of rows, a run of years, and the date of the next draw. */
module Scraper {
  import opened Prelude
  import opened Calendar
  import opened LottoTypes
  import opened Models
  import opened Cells
  import opened Pages

  /** `DateTime.Parse` of a date cell. It depends on the culture and is
      supplied by the caller as a partial function. */
  type DateParser = string -> Option<Instant>

  /** `List<int>.FirstOrDefault()`. */
  function FirstOrDefault(xs: seq<int>): (x: int)
    ensures xs == [] ==> x == 0
    ensures xs != [] ==> x == xs[0]
  {
    if xs == [] then 0 else xs[0]
  }

  /** The body of the row loop of `GetHistoricalResults`. Rows with fewer
      than four cells are passed over. Any other row reads cells 0 to 4,
      so a row of exactly four cells fails on `cells[4]`, as does a row
      whose date, draw number or number lists do not parse. The prize never
      fails. Cell 3 is the powerball for Powerball and the supplementary
      numbers otherwise. The number of division 1 winners is never set. */
  function ParseRow(rules: GameRules, parseDate: DateParser, cells: Row): (o: RowOutcome<LottoResult>)
    ensures o.Skipped? <==> |cells| < 4
    ensures o.Failed? <==>
      |cells| >= 4 &&
      (|cells| == 4 || parseDate(cells[0]).None? || ParseDigits(cells[1]).None?
       || ParseNumbers(cells[2]).None? || ParseNumbers(cells[3]).None?)
    ensures o.Parsed? ==>
      var r := o.result;
      r.gameType == rules.gameType && Some(r.drawDate) == parseDate(cells[0])
      && Some(r.drawNumber) == ParseDigits(cells[1])
      && Some(r.winningNumbers) == ParseNumbers(cells[2])
      && r.division1Prize == ParsePrize(cells[4]) && r.division1Prize >= 0.0
      && !r.HasWinners()
    ensures o.Parsed? && rules.gameType == Powerball ==>
      o.result.supplementaryNumbers == []
      && o.result.powerballNumber == Some(FirstOrDefault(ParseNumbers(cells[3]).value))
    ensures o.Parsed? && rules.gameType != Powerball ==>
      Some(o.result.supplementaryNumbers) == ParseNumbers(cells[3])
      && o.result.powerballNumber.None?
  {
    if |cells| < 4 then Skipped
    else
      var date := parseDate(cells[0]);
      var drawNumber := ParseDigits(cells[1]);
      var winning := ParseNumbers(cells[2]);
      if date.None? || drawNumber.None? || winning.None? || |cells| < 5 then Failed
      else
        var prize := ParsePrize(cells[4]);
        var extra := ParseNumbers(cells[3]);
        if extra.None? then Failed
        else if rules.gameType == Powerball then
          Parsed(LottoResult(rules.gameType, date.value, drawNumber.value, winning.value,
                             [], Some(FirstOrDefault(extra.value)), prize, 0))
        else
          Parsed(LottoResult(rules.gameType, date.value, drawNumber.value, winning.value,
                             extra.value, None, prize, 0))
  }

  /** The row a results table shows for one draw: the date text, the draw
      number, the numbers joined by ", " and the prize in whole dollars. */
  function RenderRow(dateText: string, drawNumber: nat, winning: seq<nat>, extra: seq<nat>, prize: nat): Row {
    [dateText, NatToText(drawNumber), JoinNumbers(winning), JoinNumbers(extra), ['$'] + NatToText(prize)]
  }

  /** Parsing a rendered row gives back the draw it shows. */
  lemma ParseRowRoundTrip(rules: GameRules, parseDate: DateParser, dateText: string, date: Instant,
                          drawNumber: nat, winning: seq<nat>, extra: seq<nat>, prize: nat)
    requires parseDate(dateText) == Some(date)
    requires drawNumber <= Int32Max && prize <= DecimalMax
    requires forall i :: 0 <= i < |winning| ==> winning[i] <= Int32Max
    requires forall i :: 0 <= i < |extra| ==> extra[i] <= Int32Max
    ensures var o := ParseRow(rules, parseDate, RenderRow(dateText, drawNumber, winning, extra, prize));
      o.Parsed?
      && o.result.gameType == rules.gameType && o.result.drawDate == date
      && o.result.drawNumber == drawNumber && o.result.winningNumbers == winning
      && o.result.division1Prize == prize as real
      && (if rules.gameType == Powerball then
            o.result.supplementaryNumbers == [] && o.result.powerballNumber == Some(FirstOrDefault(extra))
          else
            o.result.supplementaryNumbers == extra && o.result.powerballNumber.None?)
  {
    var cells := RenderRow(dateText, drawNumber, winning, extra, prize);
    assert ParseDigits(cells[1]) == Some(drawNumber as int) by {
      ParseNumeral(drawNumber);
    }
    assert ParseNumbers(cells[2]) == Some(winning) by {
      ParseNumbersRoundTrip(winning);
    }
    assert ParseNumbers(cells[3]) == Some(extra) by {
      ParseNumbersRoundTrip(extra);
    }
    assert ParsePrize(cells[4]) == prize as real by {
      ParsePrizeDollars(prize);
    }
    ParsedCells(rules, parseDate, cells, date, drawNumber, winning, extra, prize as real);
  }

  /** A five-cell row whose cells all parse gives the draw they show. */
  lemma ParsedCells(rules: GameRules, parseDate: DateParser, cells: Row, date: Instant,
                    drawNumber: int, winning: seq<int>, extra: seq<int>, prize: real)
    requires |cells| == 5 && parseDate(cells[0]) == Some(date)
    requires ParseDigits(cells[1]) == Some(drawNumber)
    requires ParseNumbers(cells[2]) == Some(winning) && ParseNumbers(cells[3]) == Some(extra)
    requires ParsePrize(cells[4]) == prize
    ensures var o := ParseRow(rules, parseDate, cells);
      o.Parsed?
      && o.result.gameType == rules.gameType && o.result.drawDate == date
      && o.result.drawNumber == drawNumber && o.result.winningNumbers == winning
      && o.result.division1Prize == prize
      && (if rules.gameType == Powerball then
            o.result.supplementaryNumbers == [] && o.result.powerballNumber == Some(FirstOrDefault(extra))
          else
            o.result.supplementaryNumbers == extra && o.result.powerballNumber.None?)
  {
  }

  /** The row loop body as a function of the row. */
  function RowParser(rules: GameRules, parseDate: DateParser): Row -> RowOutcome<LottoResult> {
    cells => ParseRow(rules, parseDate, cells)
  }

  /** `GetHistoricalResults(year)` given the page the download produced:
      `None` when the download fails or the page has no results table,
      both of which the source turns into an empty list. The results are
      those of the data rows before the first failing row, in page order:
      each row there with four or more cells gives one, and every result
      comes from such a row. */
  function HistoricalResults(rules: GameRules, parseDate: DateParser, page: Option<seq<Row>>): (results: seq<LottoResult>)
    ensures page.None? ==> results == []
    ensures page.Some? ==> results == CollectRows(DataRows(page.value), RowParser(rules, parseDate))
    ensures page.Some? ==>
      var rows := DataRows(page.value);
      results == Successes(rows[..FirstFailure(rows, RowParser(rules, parseDate))], RowParser(rules, parseDate))
    ensures page.Some? ==>
      var rows := DataRows(page.value);
      forall i :: 0 <= i < FirstFailure(rows, RowParser(rules, parseDate)) && |rows[i]| >= 4 ==>
        ParseRow(rules, parseDate, rows[i]).Parsed? && ParseRow(rules, parseDate, rows[i]).result in results
    ensures page.Some? ==>
      var rows := DataRows(page.value);
      forall r :: r in results ==>
        exists i :: 0 <= i < FirstFailure(rows, RowParser(rules, parseDate)) && ParseRow(rules, parseDate, rows[i]) == Parsed(r)
    ensures forall r :: r in results ==> r.gameType == rules.gameType && !r.HasWinners() && r.division1Prize >= 0.0
    ensures forall r :: r in results ==>
      if rules.gameType == Powerball then r.supplementaryNumbers == [] && r.powerballNumber.Some?
      else r.powerballNumber.None?
  {
    match page
    case None => []
    case Some(rows) =>
      var parse := RowParser(rules, parseDate);
      CollectRowsFrom(DataRows(rows), parse);
      PageResults(rules, parseDate, DataRows(rows));
      CollectRows(DataRows(rows), parse)
  }

  /** What the row loop keeps of the data rows of a page. */
  lemma PageResults(rules: GameRules, parseDate: DateParser, rows: seq<Row>)
    ensures var results := CollectRows(rows, RowParser(rules, parseDate));
      var k := FirstFailure(rows, RowParser(rules, parseDate));
      && results == Successes(rows[..k], RowParser(rules, parseDate))
      && (forall i :: 0 <= i < k && |rows[i]| >= 4 ==>
            ParseRow(rules, parseDate, rows[i]).Parsed? && ParseRow(rules, parseDate, rows[i]).result in results)
      && (forall r :: r in results ==> exists i :: 0 <= i < k && ParseRow(rules, parseDate, rows[i]) == Parsed(r))
  {
    var parse := RowParser(rules, parseDate);
    var results := CollectRows(rows, parse);
    var k := FirstFailure(rows, parse);
    CollectRowsStopsAtFirstFailure(rows, parse);
    forall i | 0 <= i < k && |rows[i]| >= 4
      ensures ParseRow(rules, parseDate, rows[i]).Parsed? && ParseRow(rules, parseDate, rows[i]).result in results
    {
      assert !parse(rows[i]).Failed?;
      CollectRowsMembers(rows, parse, ParseRow(rules, parseDate, rows[i]).result);
    }
    forall r | r in results
      ensures exists i :: 0 <= i < k && ParseRow(rules, parseDate, rows[i]) == Parsed(r)
    {
      CollectRowsMembers(rows, parse, r);
      var i :| 0 <= i < k && parse(rows[i]) == Parsed(r);
    }
  }

  /** `GetLastNYearsResults`: the years from `currentYear` downwards, each
      year's page fetched by `download`. */
  method GetLastNYearsResults(rules: GameRules, parseDate: DateParser, download: int -> Option<seq<Row>>,
                              currentYear: int, years: int) returns (results: seq<LottoResult>)
    ensures results == Concat(YearBatches(y => HistoricalResults(rules, parseDate, download(y)), currentYear, years))
    ensures years <= 0 ==> results == []
    ensures forall r :: r in results ==> r.gameType == rules.gameType && !r.HasWinners()
  {
    var fetch := y => HistoricalResults(rules, parseDate, download(y));
    results := LastNYears(fetch, currentYear, years);
    forall r | r in results
      ensures r.gameType == rules.gameType && !r.HasWinners()
    {
      LastNYearsMembers(fetch, currentYear, years, r);
      var year :| currentYear - years < year <= currentYear && r in fetch(year);
      assert r in HistoricalResults(rules, parseDate, download(year));
    }
  }

  /** The second of the day at which the game is drawn (`DrawTime` hours
      and minutes; the seconds are set to 0). */
  function DrawSecond(rules: GameRules): nat {
    rules.drawTime.hours * 3600 + rules.drawTime.minutes * 60
  }

  /** An instant at which the game is drawn. */
  predicate IsDrawInstant(rules: GameRules, t: Instant) {
    DayOfWeekOf(t) == rules.drawDay && SecondOfDay(t) == DrawSecond(rules)
  }

  /** The weekday number of day `day`, `(day + 1) % 7` since day 0 was a
      Monday. */
  lemma DrawDayWeekday(day: nat, second: nat)
    requires second < SecondsPerDay
    ensures DayOfWeekOf(day * SecondsPerDay + second) == DayFromNumber((day + 1) % 7)
    ensures SecondOfDay(day * SecondsPerDay + second) == second
  {
    DayAndSecond(day, second);
  }

  /** An instant strictly between the draw times of two consecutive days
      is not at the draw time. */
  lemma BetweenDrawTimes(day: nat, second: nat, t: Instant)
    requires second < SecondsPerDay
    requires day * SecondsPerDay + second < t < (day + 1) * SecondsPerDay + second
    ensures SecondOfDay(t) != second
  {
    var q := DayIndex(t);
    assert t == q * SecondsPerDay + SecondOfDay(t);
    if q <= day {
      assert q * SecondsPerDay <= day * SecondsPerDay;
      assert SecondOfDay(t) > second;
    } else {
      assert (day + 1) * SecondsPerDay <= q * SecondsPerDay;
      assert SecondOfDay(t) < second;
    }
  }

  /** Days from day `today` to the next day with weekday `d`, counting
      today as 0. */
  function DaysUntil(today: nat, d: DayOfWeek): (n: nat)
    ensures n < 7
    ensures DayFromNumber((today + n + 1) % 7) == d
  {
    var n := (DayNumber(d) - (today + 1) % 7) % 7;
    assert (today + n + 1) % 7 == DayNumber(d) by {
      var a := (today + 1) % 7;
      assert today + 1 == (today + 1) / 7 * 7 + a;
      assert DayNumber(d) - a == (DayNumber(d) - a) / 7 * 7 + n;
      assert today + n + 1 == ((today + 1) / 7 - (DayNumber(d) - a) / 7) * 7 + DayNumber(d);
    }
    n
  }

  /** `GetNextDrawDate`: the first draw instant strictly after `now`. It
      starts at today's draw time and adds one day while that instant is
      not later than `now` or falls on another weekday. The hour and minute
      of a `TimeSpan` are below 24 and 60. */
  method GetNextDrawDate(rules: GameRules, now: Instant) returns (next: Instant)
    requires rules.drawTime.hours < 24 && rules.drawTime.minutes < 60
    ensures now < next && IsDrawInstant(rules, next)
    ensures forall t :: now < t < next ==> !IsDrawInstant(rules, t)
    ensures next - now <= 7 * SecondsPerDay
  {
    var draw := DrawSecond(rules);
    var today := DayIndex(now);
    ghost var target := DrawTarget(rules, now);
    ghost var day := today;
    next := today * SecondsPerDay + draw;
    NoDrawBeforeToday(rules, now, today);
    while next <= now || DayOfWeekOf(next) != rules.drawDay
      invariant today <= day <= target
      invariant next == day * SecondsPerDay + draw
      invariant forall t :: now < t < next ==> !IsDrawInstant(rules, t)
      decreases target - day
    {
      NoDrawBeforeNextDay(rules, now, day, next);
      next := next + SecondsPerDay;
      day := day + 1;
    }
    DrawDayWeekday(day, draw);
  }

  /** The day of the next draw: today when today is a draw day whose draw
      time is still ahead, otherwise the next draw day within a week. */
  function DrawTarget(rules: GameRules, now: Instant): (target: nat)
    requires rules.drawTime.hours < 24 && rules.drawTime.minutes < 60
    ensures DayIndex(now) <= target
    ensures var n := target * SecondsPerDay + DrawSecond(rules);
      now < n && n - now <= 7 * SecondsPerDay && DayOfWeekOf(n) == rules.drawDay
  {
    var draw := DrawSecond(rules);
    var today := DayIndex(now);
    assert now == today * SecondsPerDay + SecondOfDay(now);
    var offset := DaysUntil(today, rules.drawDay);
    var target := if offset == 0 && draw <= SecondOfDay(now) then today + 7 else today + offset;
    assert DayFromNumber((target + 1) % 7) == rules.drawDay by {
      assert (today + 7 + 1) % 7 == (today + 0 + 1) % 7;
    }
    DrawDayWeekday(target, draw);
    target
  }

  /** No draw instant lies between `now` and today's draw time. */
  lemma NoDrawBeforeToday(rules: GameRules, now: Instant, today: nat)
    requires DrawSecond(rules) < SecondsPerDay
    requires today == DayIndex(now)
    ensures forall t :: now < t < today * SecondsPerDay + DrawSecond(rules) ==> !IsDrawInstant(rules, t)
  {
    var draw := DrawSecond(rules);
    assert now == today * SecondsPerDay + SecondOfDay(now);
    forall t | now < t < today * SecondsPerDay + draw
      ensures !IsDrawInstant(rules, t)
    {
      assert today * SecondsPerDay <= t < today * SecondsPerDay + draw;
      DayAndSecond(today, t - today * SecondsPerDay);
    }
  }

  /** A draw time that is not after `now` or not on the draw day is no
      draw instant, and neither is anything before the next day's. */
  lemma NoDrawBeforeNextDay(rules: GameRules, now: Instant, day: nat, next: Instant)
    requires DrawSecond(rules) < SecondsPerDay
    requires next == day * SecondsPerDay + DrawSecond(rules)
    requires next <= now || DayOfWeekOf(next) != rules.drawDay
    requires forall t :: now < t < next ==> !IsDrawInstant(rules, t)
    ensures forall t :: now < t < next + SecondsPerDay ==> !IsDrawInstant(rules, t)
  {
    forall t | now < t < next + SecondsPerDay
      ensures !IsDrawInstant(rules, t)
    {
      if next < t {
        BetweenDrawTimes(day, DrawSecond(rules), t);
      }
    }
  }

  /** The next draw is determined by `now`: two instants that both are the
      first draw instant after `now` are equal, so calls with the same
      `now` agree. */
  lemma NextDrawUnique(rules: GameRules, now: Instant, a: Instant, b: Instant)
    requires now < a && IsDrawInstant(rules, a) && forall t :: now < t < a ==> !IsDrawInstant(rules, t)
    requires now < b && IsDrawInstant(rules, b) && forall t :: now < t < b ==> !IsDrawInstant(rules, t)
    ensures a == b
  {
    assert a < b ==> !IsDrawInstant(rules, a);
    assert b < a ==> !IsDrawInstant(rules, b);
  }
}
