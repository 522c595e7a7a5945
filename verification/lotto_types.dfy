/** The game enumeration and the constant table of game rules. */
module LottoTypes {
  import opened Prelude
  import opened Calendar

  datatype LottoType = MondayLotto | WednesdayLotto | SaturdayLotto | OzLotto | Powerball | SetForLife | Strike

  /** A `TimeSpan` given by its hour, minute and second components. */
  datatype ClockTime = ClockTime(hours: nat, minutes: nat, seconds: nat) {
    predicate Valid() {
      hours < 24 && minutes < 60 && seconds < 60
    }
  }

  /** `LottoGameRules`. The nullable `int?` fields are options; the
      decimal cost is a `real`. */
  datatype GameRules = GameRules(
    gameType: LottoType,
    name: string,
    numbersDrawn: int,
    maxNumber: int,
    supplementaryCount: int,
    powerballCount: Option<int>,
    powerballMaxNumber: Option<int>,
    standardGameCost: real,
    drawDay: DayOfWeek,
    drawTime: ClockTime,
    minimumDivision1Prize: int)

  /** Every game is drawn at 7:30 PM. */
  const EveningDraw: ClockTime := ClockTime(19, 30, 0)

  /** The games that have a rules entry. */
  function ConfiguredGames(): set<LottoType> {
    {MondayLotto, OzLotto, WednesdayLotto, Powerball, SaturdayLotto}
  }

  /** The rules entry of one game, if it has one. */
  function GameEntry(t: LottoType): Option<GameRules> {
    match t
    case MondayLotto =>
      Some(GameRules(MondayLotto, "Monday Lotto", 6, 45, 2, None, None, 0.60, Monday, EveningDraw, 1000000))
    case OzLotto =>
      Some(GameRules(OzLotto, "Oz Lotto", 7, 47, 2, None, None, 1.30, Tuesday, EveningDraw, 2000000))
    case WednesdayLotto =>
      Some(GameRules(WednesdayLotto, "Wednesday Lotto", 6, 45, 2, None, None, 0.60, Wednesday, EveningDraw, 1000000))
    case Powerball =>
      Some(GameRules(Powerball, "Powerball", 7, 35, 0, Some(1), Some(20), 1.35, Thursday, EveningDraw, 4000000))
    case SaturdayLotto =>
      Some(GameRules(SaturdayLotto, "Saturday TattsLotto", 6, 45, 2, None, None, 0.70, Saturday, EveningDraw, 5000000))
    case SetForLife => None
    case Strike => None
  }

  /** `LottoGameRules.GetAllGames`: the rules of the five configured games. */
  function GetAllGames(): (games: map<LottoType, GameRules>)
    ensures games.Keys == ConfiguredGames()
    ensures SetForLife !in games && Strike !in games
    ensures forall t :: t in games ==> games[t].gameType == t
    ensures forall t :: t in games ==> 0 < games[t].numbersDrawn < games[t].maxNumber
    ensures forall t :: t in games ==> games[t].drawTime == EveningDraw && games[t].drawTime.Valid()
    ensures forall t, u :: t in games && u in games && t != u ==> games[t].drawDay != games[u].drawDay
    ensures forall t :: t in games ==>
      if t == Powerball then
        games[t].powerballCount == Some(1) && games[t].powerballMaxNumber == Some(20)
        && games[t].supplementaryCount == 0
      else
        games[t].powerballCount.None? && games[t].powerballMaxNumber.None?
        && games[t].supplementaryCount == 2
  {
    forall t
      ensures GameEntry(t).Some? <==> t in ConfiguredGames()
      ensures GameEntry(t).Some? ==> EntryFacts(t, GameEntry(t).value)
    {
      EntryOf(t);
    }
    assert EveningDraw.Valid();
    map t | t in ConfiguredGames() :: GameEntry(t).value
  }

  /** The configured game drawn on day `d`. */
  function GameOnDay(d: DayOfWeek): Option<LottoType> {
    match d
    case Monday => Some(MondayLotto)
    case Tuesday => Some(OzLotto)
    case Wednesday => Some(WednesdayLotto)
    case Thursday => Some(Powerball)
    case Saturday => Some(SaturdayLotto)
    case _ => None
  }

  /** What the table promises about the entry `g` of game `t`: it is filed
      under `t`, draws fewer numbers than its range at the evening draw
      time, is the only game on its day, and has the extra balls of its
      kind. */
  predicate EntryFacts(t: LottoType, g: GameRules) {
    && g.gameType == t
    && 0 < g.numbersDrawn < g.maxNumber
    && g.drawTime == EveningDraw
    && GameOnDay(g.drawDay) == Some(t)
    && if t == Powerball then
         g.powerballCount == Some(1) && g.powerballMaxNumber == Some(20) && g.supplementaryCount == 0
       else
         g.powerballCount.None? && g.powerballMaxNumber.None? && g.supplementaryCount == 2
  }

  lemma EntryOf(t: LottoType)
    ensures GameEntry(t).Some? <==> t in ConfiguredGames()
    ensures GameEntry(t).Some? ==> EntryFacts(t, GameEntry(t).value)
  {
    match t
    case MondayLotto =>
    case OzLotto =>
    case WednesdayLotto =>
    case Powerball =>
    case SaturdayLotto =>
    case SetForLife =>
    case Strike =>
  }

  /** The dictionary lookup `GetAllGames()[gameType]`: `None` where the
      source throws `KeyNotFoundException`. */
  function RulesFor(gameType: LottoType): (r: Option<GameRules>)
    ensures r.Some? <==> gameType in ConfiguredGames()
    ensures r.Some? ==> r.value.gameType == gameType
  {
    var games := GetAllGames();
    if gameType in games then Some(games[gameType]) else None
  }

  /** The per-game ranges of the table. */
  lemma GameRanges()
    ensures GetAllGames()[MondayLotto].numbersDrawn == 6 && GetAllGames()[MondayLotto].maxNumber == 45
    ensures GetAllGames()[OzLotto].numbersDrawn == 7 && GetAllGames()[OzLotto].maxNumber == 47
    ensures GetAllGames()[WednesdayLotto].numbersDrawn == 6 && GetAllGames()[WednesdayLotto].maxNumber == 45
    ensures GetAllGames()[Powerball].numbersDrawn == 7 && GetAllGames()[Powerball].maxNumber == 35
    ensures GetAllGames()[SaturdayLotto].numbersDrawn == 6 && GetAllGames()[SaturdayLotto].maxNumber == 45
  {
  }
}
