/** The Saturday-only predecessor of the scraper service, with its slim
    result record. The analyzer works on these records. */
module Legacy {
  import opened Prelude
  import opened Calendar
  import opened LottoTypes
  import opened Cells
  import opened Pages
  import Scraper

  /** The slim `LottoResult` of the root namespace. */
  datatype LottoResult = LottoResult(
    drawDate: Instant,
    drawNumber: int,
    winningNumbers: seq<int>,
    supplementaryNumbers: seq<int>)

  /** The body of the row loop. Rows with fewer than four cells are passed
      over; only cells 0 to 3 are read, so a four-cell row parses. */
  function ParseRow(parseDate: Scraper.DateParser, cells: Row): (o: RowOutcome<LottoResult>)
    ensures o.Skipped? <==> |cells| < 4
    ensures o.Failed? <==>
      |cells| >= 4 &&
      (parseDate(cells[0]).None? || ParseDigits(cells[1]).None?
       || ParseNumbers(cells[2]).None? || ParseNumbers(cells[3]).None?)
    ensures o.Parsed? ==>
      Some(o.result.drawDate) == parseDate(cells[0])
      && Some(o.result.drawNumber) == ParseDigits(cells[1])
      && Some(o.result.winningNumbers) == ParseNumbers(cells[2])
      && Some(o.result.supplementaryNumbers) == ParseNumbers(cells[3])
  {
    if |cells| < 4 then Skipped
    else
      var date := parseDate(cells[0]);
      var drawNumber := ParseDigits(cells[1]);
      var winning := ParseNumbers(cells[2]);
      var supplementary := ParseNumbers(cells[3]);
      if date.None? || drawNumber.None? || winning.None? || supplementary.None? then Failed
      else Parsed(LottoResult(date.value, drawNumber.value, winning.value, supplementary.value))
  }

  /** The four cells a results table shows for one draw. */
  function RenderRow(dateText: string, drawNumber: nat, winning: seq<nat>, supplementary: seq<nat>): Row {
    [dateText, NatToText(drawNumber), JoinNumbers(winning), JoinNumbers(supplementary)]
  }

  /** Parsing the four cells a results table shows for a draw gives back
      the draw. */
  lemma ParseRowRoundTrip(parseDate: Scraper.DateParser, dateText: string, date: Instant,
                          drawNumber: nat, winning: seq<nat>, supplementary: seq<nat>)
    requires parseDate(dateText) == Some(date)
    requires drawNumber <= Int32Max
    requires forall i :: 0 <= i < |winning| ==> winning[i] <= Int32Max
    requires forall i :: 0 <= i < |supplementary| ==> supplementary[i] <= Int32Max
    ensures ParseRow(parseDate, RenderRow(dateText, drawNumber, winning, supplementary))
            == Parsed(LottoResult(date, drawNumber, winning, supplementary))
  {
    var cells := RenderRow(dateText, drawNumber, winning, supplementary);
    assert ParseDigits(cells[1]) == Some(drawNumber as int) by {
      ParseNumeral(drawNumber);
    }
    assert ParseNumbers(cells[2]) == Some(winning) by {
      ParseNumbersRoundTrip(winning);
    }
    assert ParseNumbers(cells[3]) == Some(supplementary) by {
      ParseNumbersRoundTrip(supplementary);
    }
    ParsedCells(parseDate, cells, date, drawNumber, winning, supplementary);
  }

  /** A four-cell row whose cells all parse gives the draw they show. */
  lemma ParsedCells(parseDate: Scraper.DateParser, cells: Row, date: Instant,
                    drawNumber: int, winning: seq<int>, supplementary: seq<int>)
    requires |cells| == 4 && parseDate(cells[0]) == Some(date)
    requires ParseDigits(cells[1]) == Some(drawNumber)
    requires ParseNumbers(cells[2]) == Some(winning) && ParseNumbers(cells[3]) == Some(supplementary)
    ensures ParseRow(parseDate, cells) == Parsed(LottoResult(date, drawNumber, winning, supplementary))
  {
  }

  /** On a row of exactly four cells the two scrapers part ways: the old
      one parses it when its cells parse, the service always fails on it. */
  lemma FourCellRowsDiffer(rules: GameRules, parseDate: Scraper.DateParser, cells: Row)
    requires |cells| == 4
    requires parseDate(cells[0]).Some? && ParseDigits(cells[1]).Some?
    requires ParseNumbers(cells[2]).Some? && ParseNumbers(cells[3]).Some?
    ensures ParseRow(parseDate, cells).Parsed?
    ensures Scraper.ParseRow(rules, parseDate, cells).Failed?
  {
  }

  /** On rows of five or more cells of a game without a powerball, the
      service parses exactly the rows the old scraper parses, into the same
      draw. */
  lemma ServiceAgreesOnLongRows(rules: GameRules, parseDate: Scraper.DateParser, cells: Row)
    requires |cells| >= 5 && rules.gameType != Powerball
    ensures Scraper.ParseRow(rules, parseDate, cells).Parsed? <==> ParseRow(parseDate, cells).Parsed?
    ensures ParseRow(parseDate, cells).Parsed? ==>
      var s := Scraper.ParseRow(rules, parseDate, cells).result;
      ParseRow(parseDate, cells).result
        == LottoResult(s.drawDate, s.drawNumber, s.winningNumbers, s.supplementaryNumbers)
  {
  }

  /** The row loop body as a function of the row. */
  function RowParser(parseDate: Scraper.DateParser): Row -> RowOutcome<LottoResult> {
    cells => ParseRow(parseDate, cells)
  }

  /** `GetHistoricalResults(year)` given the downloaded page, `None` when the
      download fails or there is no results table. The results are those
      of the data rows before the first failing row, in page order: each
      row there with four or more cells gives one, and every result comes
      from such a row. */
  function HistoricalResults(parseDate: Scraper.DateParser, page: Option<seq<Row>>): (results: seq<LottoResult>)
    ensures page.None? ==> results == []
    ensures page.Some? ==> results == CollectRows(DataRows(page.value), RowParser(parseDate))
    ensures page.Some? ==> |results| <= |DataRows(page.value)|
    ensures page.Some? ==>
      var rows := DataRows(page.value);
      results == Successes(rows[..FirstFailure(rows, RowParser(parseDate))], RowParser(parseDate))
    ensures page.Some? ==>
      var rows := DataRows(page.value);
      forall i :: 0 <= i < FirstFailure(rows, RowParser(parseDate)) && |rows[i]| >= 4 ==>
        ParseRow(parseDate, rows[i]).Parsed? && ParseRow(parseDate, rows[i]).result in results
    ensures page.Some? ==>
      var rows := DataRows(page.value);
      forall r :: r in results ==>
        exists i :: 0 <= i < FirstFailure(rows, RowParser(parseDate)) && ParseRow(parseDate, rows[i]) == Parsed(r)
  {
    match page
    case None => []
    case Some(rows) =>
      PageResults(parseDate, DataRows(rows));
      CollectRows(DataRows(rows), RowParser(parseDate))
  }

  /** What the row loop keeps of the data rows of a page. */
  lemma PageResults(parseDate: Scraper.DateParser, rows: seq<Row>)
    ensures var results := CollectRows(rows, RowParser(parseDate));
      var k := FirstFailure(rows, RowParser(parseDate));
      && results == Successes(rows[..k], RowParser(parseDate))
      && (forall i :: 0 <= i < k && |rows[i]| >= 4 ==>
            ParseRow(parseDate, rows[i]).Parsed? && ParseRow(parseDate, rows[i]).result in results)
      && (forall r :: r in results ==> exists i :: 0 <= i < k && ParseRow(parseDate, rows[i]) == Parsed(r))
  {
    var parse := RowParser(parseDate);
    var results := CollectRows(rows, parse);
    var k := FirstFailure(rows, parse);
    CollectRowsStopsAtFirstFailure(rows, parse);
    forall i | 0 <= i < k && |rows[i]| >= 4
      ensures ParseRow(parseDate, rows[i]).Parsed? && ParseRow(parseDate, rows[i]).result in results
    {
      assert !parse(rows[i]).Failed?;
      CollectRowsMembers(rows, parse, ParseRow(parseDate, rows[i]).result);
    }
    forall r | r in results
      ensures exists i :: 0 <= i < k && ParseRow(parseDate, rows[i]) == Parsed(r)
    {
      CollectRowsMembers(rows, parse, r);
      var i :| 0 <= i < k && parse(rows[i]) == Parsed(r);
    }
  }

  /** `GetLastNYearsResults`: the years from `currentYear` downwards. */
  method GetLastNYearsResults(parseDate: Scraper.DateParser, download: int -> Option<seq<Row>>,
                              currentYear: int, years: int) returns (results: seq<LottoResult>)
    ensures results == Concat(YearBatches(y => HistoricalResults(parseDate, download(y)), currentYear, years))
    ensures years <= 0 ==> results == []
  {
    results := LastNYears(y => HistoricalResults(parseDate, download(y)), currentYear, years);
  }
}
