/** The row loop shared by both scrapers and the year-by-year download.

    A page is the result table as rows of trimmed cell texts; the first row
    is the header. Each data row is skipped, parsed or fails. The `try`
    block wraps the whole loop, so the first failing row ends the page and
    the rows parsed before it are kept. */
module Pages {
  import opened Prelude

  type Row = seq<string>

  /** What the loop body does with one row. */
  datatype RowOutcome<R> = Skipped | Parsed(result: R) | Failed

  /** `rows.Skip(1)`: the header row is never parsed. */
  function DataRows(page: seq<Row>): (rows: seq<Row>)
    ensures page == [] ==> rows == []
    ensures page != [] ==> [page[0]] + rows == page
  {
    if page == [] then [] else page[1..]
  }

  /** The loop over the data rows: parsed rows are appended, skipped rows
      are passed over, and a failing row abandons the rest of the page. */
  function CollectRows<R>(rows: seq<Row>, parse: Row -> RowOutcome<R>): (results: seq<R>)
    ensures |results| <= |rows|
  {
    if rows == [] then []
    else
      match parse(rows[0])
      case Skipped => CollectRows(rows[1..], parse)
      case Parsed(r) => [r] + CollectRows(rows[1..], parse)
      case Failed => []
  }

  /** The position of the first failing row, or `|rows|` when none fails. */
  function FirstFailure<R>(rows: seq<Row>, parse: Row -> RowOutcome<R>): (k: nat)
    ensures k <= |rows|
    ensures k < |rows| ==> parse(rows[k]).Failed?
    ensures forall i :: 0 <= i < k ==> !parse(rows[i]).Failed?
  {
    if rows == [] then 0
    else if parse(rows[0]).Failed? then 0
    else 1 + FirstFailure(rows[1..], parse)
  }

  /** The results of the rows that parse, as if no row could fail. */
  function Successes<R>(rows: seq<Row>, parse: Row -> RowOutcome<R>): seq<R> {
    if rows == [] then []
    else if parse(rows[0]).Parsed? then [parse(rows[0]).result] + Successes(rows[1..], parse)
    else Successes(rows[1..], parse)
  }

  /** The page keeps exactly the successful rows that come before the first
      failure, in page order. */
  lemma {:induction false} CollectRowsStopsAtFirstFailure<R>(rows: seq<Row>, parse: Row -> RowOutcome<R>)
    ensures CollectRows(rows, parse) == Successes(rows[..FirstFailure(rows, parse)], parse)
  {
    if rows != [] {
      var k := FirstFailure(rows, parse);
      if parse(rows[0]).Failed? {
        assert k == 0;
      } else {
        CollectRowsStopsAtFirstFailure(rows[1..], parse);
        assert rows[..k][0] == rows[0];
        assert rows[..k][1..] == rows[1..][..k - 1];
      }
    }
  }

  /** A skipped row leaves no trace, wherever it stands. */
  lemma {:induction false} SkippedRowVanishes<R>(a: seq<Row>, row: Row, b: seq<Row>, parse: Row -> RowOutcome<R>)
    requires parse(row).Skipped?
    ensures CollectRows(a + [row] + b, parse) == CollectRows(a + b, parse)
  {
    if a == [] {
      assert a + [row] + b == [row] + b;
      assert ([row] + b)[1..] == b;
      assert a + b == b;
    } else {
      SkippedRowVanishes(a[1..], row, b, parse);
      assert (a + [row] + b)[0] == a[0] && (a + b)[0] == a[0];
      assert (a + [row] + b)[1..] == a[1..] + [row] + b;
      assert (a + b)[1..] == a[1..] + b;
    }
  }

  /** When every data row parses, the page holds one result per row, in
      order. */
  lemma {:induction false} CollectRowsAllParsed<R>(rows: seq<Row>, parse: Row -> RowOutcome<R>)
    requires forall i :: 0 <= i < |rows| ==> parse(rows[i]).Parsed?
    ensures |CollectRows(rows, parse)| == |rows|
    ensures forall i :: 0 <= i < |rows| ==> CollectRows(rows, parse)[i] == parse(rows[i]).result
  {
    if rows != [] {
      assert parse(rows[0]).Parsed?;
      CollectRowsAllParsed(rows[1..], parse);
      var tail := CollectRows(rows[1..], parse);
      forall i | 0 < i < |rows|
        ensures CollectRows(rows, parse)[i] == parse(rows[i]).result
      {
        assert CollectRows(rows, parse)[i] == tail[i - 1];
        assert rows[1..][i - 1] == rows[i];
      }
    }
  }

  /** Every result on the page is the result of one of its rows. */
  lemma {:induction false} CollectRowsFrom<R>(rows: seq<Row>, parse: Row -> RowOutcome<R>)
    ensures forall r :: r in CollectRows(rows, parse) ==>
      exists i :: 0 <= i < |rows| && parse(rows[i]) == Parsed(r)
  {
    if rows != [] {
      CollectRowsFrom(rows[1..], parse);
      forall r | r in CollectRows(rows, parse)
        ensures exists i :: 0 <= i < |rows| && parse(rows[i]) == Parsed(r)
      {
        if parse(rows[0]) != Parsed(r) {
          var i :| 0 <= i < |rows[1..]| && parse(rows[1..][i]) == Parsed(r);
          assert parse(rows[i + 1]) == Parsed(r);
        }
      }
    }
  }

  /** A result is on the page exactly when some row before the first
      failure parses to it. */
  lemma {:induction false} CollectRowsMembers<R>(rows: seq<Row>, parse: Row -> RowOutcome<R>, r: R)
    ensures r in CollectRows(rows, parse) <==>
      exists i :: 0 <= i < FirstFailure(rows, parse) && parse(rows[i]) == Parsed(r)
  {
    if rows != [] && !parse(rows[0]).Failed? {
      var tail := rows[1..];
      CollectRowsMembers(tail, parse, r);
      if r in CollectRows(rows, parse) && parse(rows[0]) != Parsed(r) {
        var i :| 0 <= i < FirstFailure(tail, parse) && parse(tail[i]) == Parsed(r);
        assert parse(rows[i + 1]) == Parsed(r);
      }
      if exists i :: 0 <= i < FirstFailure(rows, parse) && parse(rows[i]) == Parsed(r) {
        var i :| 0 <= i < FirstFailure(rows, parse) && parse(rows[i]) == Parsed(r);
        if i > 0 {
          assert parse(tail[i - 1]) == Parsed(r);
        }
      }
    }
  }

  /** The year batches of a download of `years` years: the current year
      first, then each earlier year. */
  function YearBatches<R>(fetch: int -> seq<R>, currentYear: int, years: int): (batches: seq<seq<R>>)
    ensures |batches| == if years <= 0 then 0 else years
  {
    if years <= 0 then [] else seq(years, i => fetch(currentYear - i))
  }

  /** `GetLastNYearsResults`: the results of `currentYear`, `currentYear - 1`,
      ... appended in that order; `fetch` stands for `GetHistoricalResults`. */
  method LastNYears<R>(fetch: int -> seq<R>, currentYear: int, years: int) returns (results: seq<R>)
    ensures results == Concat(YearBatches(fetch, currentYear, years))
    ensures years <= 0 ==> results == []
  {
    results := [];
    var i := 0;
    while i < years
      invariant 0 <= i <= if years <= 0 then 0 else years
      invariant results == Concat(YearBatches(fetch, currentYear, i))
    {
      var yearResults := fetch(currentYear - i);
      ConcatSnoc(YearBatches(fetch, currentYear, i), yearResults);
      assert YearBatches(fetch, currentYear, i + 1) == YearBatches(fetch, currentYear, i) + [yearResults];
      results := results + yearResults;
      i := i + 1;
    }
    assert YearBatches(fetch, currentYear, i) == YearBatches(fetch, currentYear, years);
  }

  /** A result of the download belongs to one of the requested years. */
  lemma LastNYearsMembers<R>(fetch: int -> seq<R>, currentYear: int, years: int, x: R)
    ensures x in Concat(YearBatches(fetch, currentYear, years)) <==>
      exists year :: currentYear - years < year <= currentYear && x in fetch(year)
  {
    var batches := YearBatches(fetch, currentYear, years);
    ConcatMembership(batches, x);
    if x in Concat(batches) {
      var i :| 0 <= i < |batches| && x in batches[i];
      assert x in fetch(currentYear - i);
    }
    if exists year :: currentYear - years < year <= currentYear && x in fetch(year) {
      var year :| currentYear - years < year <= currentYear && x in fetch(year);
      assert batches[currentYear - year] == fetch(year);
    }
  }
}
