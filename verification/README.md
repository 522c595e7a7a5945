# Australian lottery analyzer: a Dafny model of its core

AustralianLotteryAnalyzer reads past draw results of the Australian lotto
games from results tables on a web site. It turns each row into a draw
record and computes per-number statistics over the draws. From those it
derives rankings, pair affinities and a "recommendation" for the next
draw. It also computes the date and time of the next draw of a game.

This project models that core in Dafny and proves properties of it:

- `prelude.dfy` (`Prelude`): options, filtering, sums and maxima over
  lists, `Take`.
- `sorting.dfy` (`Sorting`): the stable sort behind LINQ `OrderBy` and
  `OrderByDescending`.
- `calendar.dfy` (`Calendar`): instants as whole seconds since
  `DateTime.MinValue`, and the weekday of an instant.
- `lotto_types.dfy` (`LottoTypes`): the game enumeration and the constant
  rules table.
- `lotto_result.dfy` (`Models`): the service's draw record, the
  probability record, and the hot and due thresholds.
- `cells.dfy` (`Cells`): draw-number, number-list and prize parsing of
  one cell.
- `pages.dfy` (`Pages`): the row loop with its failure semantics, and the
  year-by-year download.
- `scraper.dfy` (`Scraper`): the game-aware scraper service, including
  `GetNextDrawDate`.
- `legacy_scraper.dfy` (`Legacy`): the older Saturday-only scraper and its
  slim result record. This is the record the analyzer reads.
- `analyzer.dfy` (`Analyzer`): number statistics and the top and bottom
  rankings.
- `recommend.dfy` (`Recommend`): the three-phase recommendation.
- `pairs.dfy` (`Pairs`): pair counting and each number's top three
  partners.

Modelling choices:

- An instant is a natural number of seconds since `DateTime.MinValue`,
  which was a Monday. The weekday of day `d` is `(d + 1) % 7`, with
  Sunday = 0.
- `DateTime.Now` is a parameter. `DateTime.Parse` of a date cell is a
  caller-supplied partial function.
- The random source is the list of values `Random.Next(1, 46)` returns.
- A page is its results table as rows of trimmed cell texts.
- Probabilities and prizes are exact reals.
- The analyzer's statistics table is a map over the numbers 1 to 45.
- A number is hot when its probability is above 0.15. A number is due
  when `now` is more than 60 days after its last appearance.

The model follows the code, including these behaviours:

- The analyzer works on the numbers 1 to 45 whatever the game
  (`MaxNumber = 45`).
- A frequency counts occurrences, so a draw that repeats a number counts
  it twice.
- A probability is the frequency divided by the number of draws. With no
  draws the source divides 0 by 0. The model takes 0 there, which
  classifies nothing as hot, as NaN does.
- `GetRecommendedNumbers(count)` returns `count` numbers only when
  `count` is at least the number of hot and due picks (at most 4). For a
  smaller `count` it returns all the picks. For `count` above 45 the
  source loops forever, and the model gives `None`.
- The service scraper skips rows of fewer than four cells. It then reads
  cell 4, so a row of exactly four cells throws. Since the `try` encloses
  the whole row loop, that ends the page.
- Each result row of the service scraper leaves the number of division 1
  winners at 0.

## Model

| member | source | states |
|---|---|---|
| LottoTypes.GetAllGames | Models/LottoTypes.cs:102-183 | Exactly five games have rules, and Set for Life and Strike have none. Each entry is filed under its own game type. Each game draws fewer numbers than its range, at 19:30:00, on a weekday no other game uses. Only Powerball has a powerball: 1 ball of 1 to 20, with no supplementary numbers. The others have 2 supplementary numbers. |
| LottoTypes.RulesFor | Services/LottoScraper.cs:36 | Looking up a game's rules succeeds exactly for the five configured games and returns that game's rules. |
| Models.NewLottoResult | Models/LottoResult.cs:6-52 | A fresh result has no winning or supplementary numbers, no powerball, zero prize and no winners. |
| Models.NumberProbabilityFlags | Models/LottoResult.cs:138-143 | Hot means a probability strictly above 15%, so exactly 15% is not hot. Due means strictly more than 60 days (5,184,000 seconds) since the last appearance. |
| Cells.DigitsOnly | Services/LottoScraper.cs:72 | Stripping leaves only digits. The result is empty exactly when the text has no digit, and text of digits alone is kept whole. |
| Cells.DigitsOnlyDrops | Services/LottoScraper.cs:72 | A character that is not a digit is removed wherever it stands. |
| Cells.DigitsOnlyAppend | Services/LottoScraper.cs:72 | Stripping works piece by piece: the digits of two texts laid end to end are the digits of each, laid end to end. |
| Cells.ParseDigits | Services/LottoScraper.cs:72 | The draw number is the value of the cell's digits alone. It fails exactly when the cell has no digit or the value exceeds `Int32.MaxValue`. A cell of digits alone reads as its decimal value, up to `Int32.MaxValue`. |
| Cells.ParseDigitsDrops | Services/LottoScraper.cs:72 | A non-digit character anywhere in the cell does not change the draw number, so "4,321" reads as 4321. |
| Cells.ParseDigitsRoundTrip | Services/LottoScraper.cs:72 | A numeral surrounded by digit-free text reads back as its value. |
| Cells.Split | Services/LottoScraper.cs:117 | Splitting on blanks and commas yields non-empty separator-free tokens. Laid end to end, they give the text without its separators. |
| Cells.SplitAtSeparator | Services/LottoScraper.cs:117 | A blank or a comma always ends a token: text around one splits as its two sides split separately. |
| Cells.SplitToken | Services/LottoScraper.cs:117 | Text without blanks or commas is a single token. |
| Cells.ParseTokens | Services/LottoScraper.cs:118 | Parsing a token list succeeds exactly when every token parses, and then gives each token's value in order. |
| Cells.ParseNumbers | Services/LottoScraper.cs:115-120 | A number list has one value per token. It fails exactly when some token has no digit or overflows an `int`. |
| Cells.ParseNumbersRoundTrip | Services/LottoScraper.cs:115-120 | Numbers joined by ", " parse back to the same list. |
| Cells.PrizeText | Services/LottoScraper.cs:130 | Cleaning keeps only digits and '.'. The cleaned text has a digit exactly when the cell has one, and the same number of dots. |
| Cells.ParseDecimal | Services/LottoScraper.cs:131 | Decimal parsing succeeds only with a digit, at most one '.', and a value within `decimal.MaxValue`. A non-empty digit string parses to its value exactly when that is within `decimal.MaxValue`. |
| Cells.ParseDecimalWithPoint | Services/LottoScraper.cs:131 | Digits with one '.' ("12.5", ".5", "12.") parse to the whole part plus the fraction exactly when that is within `decimal.MaxValue`. |
| Cells.ParsePrize | Services/LottoScraper.cs:127-132 | The prize is never negative. It is 0 without digits or with two or more dots, and is the digits' value when only digits survive cleaning. |
| Cells.ParsePrizeIgnoresOtherChars | Services/LottoScraper.cs:129-131 | Dollar signs, thousands separators and other characters do not change the prize, wherever they stand. |
| Cells.ParsePrizeDollars | Services/LottoScraper.cs:125-132 | "$" followed by a whole number of dollars parses to that amount. |
| Cells.ParsePrizeCents | Services/LottoScraper.cs:127-132 | "$", dollars, '.' and cents parse to the dollars plus the cents as a decimal fraction, as "$1234.56" gives 1234.56. |
| Cells.ParsePrizeTwoDots | Services/LottoScraper.cs:131 | Text with two decimal points anywhere, such as "1.000.000", gives a zero prize. |
| Pages.DataRows | Services/LottoScraper.cs:63 | The header row followed by the data rows is the whole page. |
| Pages.CollectRows | Services/LottoScraper.cs:50-97 | A page yields at most one result per data row. |
| Pages.FirstFailure | Services/LottoScraper.cs:63-89 | The index of the first failing row: every row before it succeeds or is skipped. |
| Pages.CollectRowsStopsAtFirstFailure | Services/LottoScraper.cs:51-95 | A page keeps exactly the parsed rows before the first failing row, in page order, and drops everything after it. |
| Pages.SkippedRowVanishes | Services/LottoScraper.cs:66 | A skipped row leaves no trace, wherever it stands on the page. |
| Pages.CollectRowsAllParsed | Services/LottoScraper.cs:63-89 | When every data row parses, the page yields one result per row, in order. |
| Pages.CollectRowsFrom | Services/LottoScraper.cs:63-89 | Every result comes from one of the page's rows. |
| Pages.CollectRowsMembers | Services/LottoScraper.cs:51-95 | A result is on the page exactly when a row before the first failing row parses to it. |
| Pages.YearBatches | Services/LottoScraper.cs:144-149 | The year loop makes one batch per requested year, and none for zero or negative years. |
| Pages.LastNYears | Services/LottoScraper.cs:139-152 | The download is the concatenation of the current year's results, then the previous year's, and so on. It is empty for zero or negative years. |
| Pages.LastNYearsMembers | Services/LottoScraper.cs:144-147 | A result is downloaded exactly when it belongs to one of the requested years. |
| Scraper.ParseRow | Services/LottoScraper.cs:63-88 | A row of fewer than 4 cells is skipped. A row fails exactly when it has 4 cells or its date, draw number or number lists do not parse. A parsed row has the game's type, the parsed fields and a non-negative prize from cell 4, and no winners. For Powerball, cell 3 gives the powerball and no supplementary numbers; for other games it gives the supplementary numbers and no powerball. |
| Scraper.ParseRowRoundTrip | Services/LottoScraper.cs:68-85 | A rendered five-cell row of one draw parses back to that draw, with the Powerball routing of cell 3. |
| Scraper.HistoricalResults | Services/LottoScraper.cs:48-98 | A failed download yields no results. Otherwise the results are those of the data rows before the first failing row, in page order. Every such row of four or more cells gives a result, and every result comes from one. Every result has the scraper's game type, a non-negative prize and no winners, with cell 3 routed by game. |
| Scraper.GetLastNYearsResults | Services/LottoScraper.cs:139-152 | The year-by-year concatenation of the scraper's pages. Every result has the game's type and no winners. |
| Calendar.DayOfWeekOf | Services/LottoScraper.cs:171 | Every instant of the first day of the calendar is a Monday. |
| Calendar.WeekdayStep | Services/LottoScraper.cs:171-173 | One day later is the next weekday, Saturday wrapping to Sunday. |
| Scraper.DaysUntil | Services/LottoScraper.cs:171 | The number of days, below 7, from a day to the next day with a given weekday. |
| Scraper.GetNextDrawDate | Services/LottoScraper.cs:162-177 | The result is strictly after `now`, on the draw weekday at the draw hour and minute with 0 seconds. No draw instant lies between `now` and it, and it is at most 7 days ahead. |
| Scraper.DrawTarget | Services/LottoScraper.cs:164-174 | The next draw falls today or on a later day: its draw time is after `now`, at most 7 days ahead, on the draw weekday. |
| Scraper.NextDrawUnique | Services/LottoScraper.cs:164-176 | The next draw is determined by `now`: two calls with the same `now` return the same instant. |
| Legacy.ParseRow | LottoScraper.cs:40-53 | The old loop skips rows of fewer than 4 cells and reads only cells 0 to 3, so a four-cell row parses. A row fails exactly when one of its four cells does not parse. |
| Legacy.ParseRowRoundTrip | LottoScraper.cs:45-51 | The four cells of one draw parse back to that draw. |
| Legacy.FourCellRowsDiffer | LottoScraper.cs:43-51 | On a four-cell row the old scraper parses and the service fails. |
| Legacy.ServiceAgreesOnLongRows | LottoScraper.cs:43-51 | On rows of five or more cells of a game without powerball, the service parses exactly the rows the old scraper parses, with the same date, draw number and number lists. |
| Legacy.HistoricalResults | LottoScraper.cs:25-63 | A failed download yields no results. Otherwise the results are those of the data rows before the first failing row, in page order. Every such row of four or more cells gives a result, and every result comes from one. |
| Legacy.GetLastNYearsResults | LottoScraper.cs:78-92 | The year-by-year concatenation, current year first. |
| Sorting.SortBy | LottoAnalyzer.cs:140 | Sorting permutes its input into non-decreasing key order. |
| Sorting.SortByIsStable | LottoAnalyzer.cs:153 | An input ascending in a tag sorts with equal keys in ascending tag order, as LINQ's stable sort does. |
| Sorting.TakeKeepsTop | LottoAnalyzer.cs:141 | `Take(k)` of a sorted list leaves out only elements ranking no higher than every kept one, and then keeps `k`. |
| Sorting.TakeKeepsTopThenBy | LottoAnalyzer.cs:153-154 | When equal keys are ordered by a tag, `Take(k)` leaves out only elements ranking strictly below every kept one, by key and then by tag. |
| Analyzer.Probability | LottoAnalyzer.cs:85 | The probability is non-negative. Times the number of draws it gives the frequency, and it is 0 without draws or occurrences. |
| Analyzer.InitialStats | LottoAnalyzer.cs:66-69 | The numbers 1 to 45 each start with frequency 0, last appearance `MinValue` and probability 0. |
| Analyzer.RecordNumbers | LottoAnalyzer.cs:74-79 | One draw adds each number's occurrences to its frequency. It moves the last appearance of each number it holds up to the draw date, and fails exactly on a number outside 1 to 45. |
| Analyzer.Tally | LottoAnalyzer.cs:72-80 | Folding all draws adds each number's total occurrences. It raises each number's last appearance to its latest draw, and fails exactly when some number is out of range. |
| Analyzer.WithProbabilities | LottoAnalyzer.cs:83-86 | The probability pass sets every entry's probability from its frequency and leaves the rest alone. |
| Analyzer.CalculateNumberStats | LottoAnalyzer.cs:60-89 | The statistics exist exactly when every winning number is within 1 to 45. The table then has keys 1 to 45. Each number's frequency is its occurrence count, its last appearance is its latest draw date (or `MinValue`), and its probability is the frequency over the number of draws. |
| Analyzer.NeverDrawn | LottoAnalyzer.cs:66-69 | A number never drawn keeps frequency 0, last appearance `MinValue` and probability 0. |
| Analyzer.StatsIgnoreDrawOrder | LottoAnalyzer.cs:72-80 | Reordering the draws does not change the statistics. |
| Analyzer.FrequenciesSumToNumbersDrawn | LottoAnalyzer.cs:72-80 | The frequencies of 1 to 45 add up to the total count of winning numbers drawn. |
| Analyzer.OneDrawCounted | LottoAnalyzer.cs:74-76 | Over 1 to 45, one draw's per-number counts add up to its length. |
| Analyzer.HotIffCrossMultiplied | LottoAnalyzer.cs:29 | A number is hot exactly when there are draws and 20 × frequency > 3 × draws. |
| Analyzer.NoDrawsNothingHot | LottoAnalyzer.cs:83-86 | With no draws no number is hot. |
| Analyzer.DueIffAllDrawsOld | LottoAnalyzer.cs:33 | A drawn number is due exactly when every draw holding it lies more than 60 days before `now`. |
| Analyzer.StatsInOrder | LottoAnalyzer.cs:139 | `Values` enumerates the 45 entries in ascending number, the order the dictionary was filled in. |
| Analyzer.GetTopNumbers | LottoAnalyzer.cs:137-143 | Gives `count` entries, cut to 0 to 45, by non-increasing probability, with ties in ascending number. An entry left out is less probable than every listed one, or equally probable with a higher number. |
| Analyzer.GetLeastDrawnNumbers | LottoAnalyzer.cs:150-156 | Gives `count` entries, cut to 0 to 45, by non-decreasing probability, with ties in ascending number. An entry left out is more probable than every listed one, or equally probable with a higher number. |
| Recommend.Pick | LottoAnalyzer.cs:102-106 | Gives at most `k` table entries satisfying the filter, ordered by key with ties in ascending number. A qualifying entry left out ranks below every pick, by key and then by number, and then `k` are picked. |
| Recommend.HotPicks | LottoAnalyzer.cs:102-108 | At most two distinct hot numbers, the more probable first and the lower number first among equals. A hot number left out is less probable than either pick, or equally probable with a higher number. |
| Recommend.DuePicks | LottoAnalyzer.cs:111-117 | At most two distinct due numbers not already chosen, the longest absent first. A due number left out has been absent no longer than either pick. |
| Recommend.Fill | LottoAnalyzer.cs:120-127 | The fill keeps the chosen numbers in front and appends values of the random source not already chosen, up to `count` numbers or the number already chosen, whichever is larger. Distinct choices stay distinct. |
| Recommend.StrategyPicks | LottoAnalyzer.cs:100-117 | The hot and due picks together are at most four distinct numbers within 1 to 45. |
| Recommend.Complete | LottoAnalyzer.cs:120-129 | The filled-in choice is sorted strictly ascending in 1 to 45. It holds every pick, and everything else comes from the random source. It is impossible for a count above 45. |
| Recommend.GetRecommendedNumbers | LottoAnalyzer.cs:96-130 | The recommendation is strictly ascending, within 1 to 45, and contains the hot and due picks; every other number came from the random source. It has `count` numbers when `count` is at least 4, and none exists for a count above 45. |
| Recommend.AtMostFortyFive | LottoAnalyzer.cs:120-127 | At most 45 distinct numbers lie in 1 to 45, which is why a larger `count` never finishes. |
| Recommend.FillCompletes | LottoAnalyzer.cs:120-127 | For a count of at most 45, the fill finishes once every missing number has come up. |
| Recommend.RecommendationCompletes | LottoAnalyzer.cs:96-130 | For a count of at most 45, a random source producing every number 1 to 45 yields a recommendation. |
| Pairs.Key | LottoAnalyzer.cs:174 | A pair key is the two numbers, smaller first. |
| Pairs.Bump | LottoAnalyzer.cs:175 | `AddOrUpdate` raises one pair's count by one, creates a missing entry at 1, and changes nothing else. |
| Pairs.BumpAll | LottoAnalyzer.cs:170-177 | Bumping a list of keys raises each count by the key's multiplicity in the list. |
| Pairs.PairsWithCount | LottoAnalyzer.cs:172-176 | For a number `x` and later numbers without repeats, the inner loop forms key (a, b), a < b, once when `x` is one of the two and the other comes later, and never otherwise. |
| Pairs.DrawPairs | LottoAnalyzer.cs:170-177 | Every key the double loop forms pairs two positions `i < j` of the draw. |
| Pairs.CountPairs | LottoAnalyzer.cs:164-178 | Each key's count is the number of times the double loops over all draws form it, and every entry is positive. |
| Pairs.CountPairsKeysInRange | LottoAnalyzer.cs:174 | With all numbers within 1 to 45, both halves of every key are too. |
| Pairs.DrawPairsOnce | LottoAnalyzer.cs:170-177 | In a draw without repeats, key (a, b) with a < b is formed once when both are drawn and never otherwise. |
| Pairs.CountPairsCountsDraws | LottoAnalyzer.cs:164-178 | With no repeats in any draw, the count of a pair a < b is the number of draws holding both. |
| Pairs.CountPairsNoSelf | LottoAnalyzer.cs:170-176 | With no repeats in any draw, no key pairs a number with itself. |
| Pairs.BothWays | LottoAnalyzer.cs:170-177 | With no repeats in any draw, the count under the key of two different numbers, in either order, is the number of draws holding both. |
| Pairs.Candidates | LottoAnalyzer.cs:184 | A number's candidates are the partners with a positive pair count, each with that count. |
| Pairs.CandidatesAreEntries | LottoAnalyzer.cs:184-187 | The candidates are exactly the dictionary entries holding the number, read from its side. |
| Pairs.TopPartners | LottoAnalyzer.cs:184-188 | Gives at most three distinct partners with positive count, by non-increasing count, with ties in ascending number. A partner left out has a count no higher than every listed one, and then three are listed. |
| Pairs.AnalyzePairs | LottoAnalyzer.cs:162-193 | Every number 1 to 45 has an entry of at most three distinct partners, each within 1 to 45 and paired with it in the dictionary. |
| Pairs.PartnersShareMostDraws | LottoAnalyzer.cs:181-190 | With no repeats in any draw, a number drawn with `n` but not listed as a partner shares no more draws with `n` than each listed partner, and three are listed. |
| Pairs.NoSelfPartner | LottoAnalyzer.cs:181-190 | With no repeats in any draw, no number is its own partner. |

## Left out

- HTTP, HtmlAgilityPack and the XPath table selection: a page enters as
  rows of trimmed cell texts, and a failed download or missing table as
  `None`.
- `async`/`await` and the one-second `Task.Delay` between years: timing
  only; the year order is modelled.
- `DateTime.Parse` of the date cell is culture-dependent, so it is a
  caller-supplied partial function.
- `DateTime.Now` and `Random` are parameters: `now`, and the list of
  values the random source returns.
- Sub-second ticks of `DateTime` are not modelled. Instants are whole
  seconds, and a draw time has 0 seconds.
- `decimal` rounding past 28 significant digits is not modelled; prizes
  are exact reals.
- `double` rounding in probabilities is not modelled; probabilities are
  exact reals.
- `Parallel.ForEach` and `ConcurrentDictionary`: the pair counts are
  folded over the draws one after another. Each update is an atomic
  increment, so any order gives the same counts.
- Pairs.TopPartners: the source's order among partners of equal count
  follows the concurrent dictionary's enumeration, which is unspecified.
  The model lists them in ascending number.
- Recommend.DuePicks: the source reads `DateTime.Now` afresh for every
  entry, in `IsDue` and in the sort key, with keys computed in table order
  1 to 45. Entries with the same last appearance (the numbers of one draw,
  or every number never drawn) can then get keys that grow with the
  clock, and the descending sort puts the higher number first. The tie
  order among equal last appearances thus depends on the clock; the model
  uses one `now` throughout and breaks these ties by ascending number, so
  `StrategyPicks` and the picks held by `GetRecommendedNumbers` match the
  source only while the clock stands still.
- Recommend.Fill: a random source that runs out gives `None`, where the
  source would keep drawing; for a count above 45 it never stops.
- Pairs.AnalyzePairs requires every winning number to be within 1 to 45,
  since the analyzer's constructor fails otherwise.
- Scraper.ParseRow: the order in which the source evaluates cells 0 to 4
  is not modelled; any failing cell fails the row, whichever fails first.
- Cells.ParseDecimal: `decimal.TryParse` reads the text under the
  current culture, where '.' can be a group separator; the model always
  reads '.' as the decimal point.
- The default arguments `count = 6` of `GetRecommendedNumbers` and
  `count = 10` of `GetTopNumbers` and `GetLeastDrawnNumbers`: the model
  always takes `count` explicitly.
- Scraper.GetNextDrawDate: `AddDays` throws past `DateTime.MaxValue`;
  model instants are unbounded, so that exception is not modelled.
- Analyzer.Tally: frequencies are unbounded naturals, where the source's
  `Frequency++` on an `int` would wrap past `Int32.MaxValue`.
- Pairs.CountPairs: pair counts are unbounded naturals, where the
  source's `int` counts would wrap past `Int32.MaxValue`.
- Analyzer.Probability: with no draws the source divides 0 by 0 in
  `double` and gets NaN; the model gives 0.
- `PrintStatistics` and the console messages of the scrapers: console
  output.
- `NumbersPerDraw` of the analyzer is never read.
- Game names, standard game costs and minimum division 1 prizes are
  carried as data without behaviour.
- The scraper's base URL table: only the game lookup it fails on is
  modelled (`LottoTypes.RulesFor`).
- `DrawStatistics` and `LottoPrediction` in Models/LottoResult.cs are
  data records without behaviour.
- Controllers/HomeController.cs, Program.cs and Models/ViewModels.cs are
  not part of this model (web actions, host wiring, view records).
- Cells.ParsePrize: the concrete cell "$1,000,000" is not checked as
  written. It follows from `ParsePrizeIgnoresOtherChars` (dropping the
  dollar sign and the commas) and `ParsePrizeDollars`.
