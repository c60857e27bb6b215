/** The records the dashboard passes around (types.ts). Fields that the
    source declares as numbers but fills straight from untyped JSON keep the
    JSON value (`JsVal`); optional fields are `Option`s. */
module Types {
  import opened Common
  import opened JsText

  /** The sport of a match; `Name` is the enum's string value. */
  datatype SportType = Football | Basketball | Tennis | Other {
    function Name(): string {
      match this
      case Football => "Football"
      case Basketball => "Basketball"
      case Tennis => "Tennis"
      case Other => "Autre"
    }
  }

  datatype MatchStatus = Scheduled | Live | Finished

  /** A listed fixture. `league` is optional because the scraper copies it
      from untyped JSON, where it may be missing. */
  datatype Match = Match(
    id: string,
    homeTeam: string,
    awayTeam: string,
    league: Option<string>,
    time: string,
    date: Option<string>,
    sport: SportType,
    status: Option<MatchStatus>,
    isTrending: Option<bool>,
    reliability: Option<real>,
    quickPrediction: Option<string>,
    quickConfidence: Option<real>,
    quickOdds: Option<real>)

  /** One recommended bet as the analysis step returns it. */
  datatype BettingTip = BettingTip(
    betType: string,
    selection: Option<string>,
    odds: JsVal,
    confidence: JsVal,
    reasoning: string,
    edge: JsVal,
    units: JsVal,
    probability: JsVal,
    condition: Option<string>)

  datatype Scenario = Scenario(condition: string, outcome: string, likelihood: string, reasoning: Option<string>)

  datatype DetailedInjury = DetailedInjury(player: string, status: string, impact: string)

  /** `string[] | DetailedInjury[]`. */
  datatype Injuries = InjuryNotes(notes: seq<string>) | InjuryDetails(details: seq<DetailedInjury>)

  datatype AdvancedStat = AdvancedStat(statLabel: string, homeValue: JsVal, awayValue: JsVal, advantage: string)

  datatype MarketAnalysis = MarketAnalysis(
    publicTrend: Option<string>,
    sharpMoney: Option<string>,
    openingOdds: Option<real>,
    currentOdds: Option<real>,
    oddsMovement: Option<string>,
    valueStatus: Option<string>)

  datatype TrueProbability = TrueProbability(home: real, draw: Option<real>, away: real)

  datatype Source = Source(title: string, uri: string, sourceIcon: Option<string>)

  /** Ratings on a 0-100 scale and an optional tempo. */
  datatype SimulationInputs = SimulationInputs(
    homeAttack: real,
    homeDefense: real,
    awayAttack: real,
    awayDefense: real,
    tempo: Option<real>)

  /** One histogram bar: trials whose differential falls in the bar's bucket. */
  datatype Bucket = Bucket(diff: int, count: nat)

  datatype ProjectedScore = ProjectedScore(home: Num, away: Num)

  /** Percentages and means are `Num` because a run of zero trials divides by zero. */
  datatype MonteCarloResult = MonteCarloResult(
    homeWinProb: Num,
    awayWinProb: Num,
    drawProb: Num,
    projectedScore: ProjectedScore,
    distribution: seq<Bucket>,
    totalIterations: nat)

  datatype TicketItem = TicketItem(id: string, matchLabel: string, selection: string, odds: real)

  /** The analysis artifact; the fields the assembly step never sets are not modelled. */
  datatype MatchAnalysis = MatchAnalysis(
    matchId: string,
    summary: Option<string>,
    contrarianView: Option<string>,
    scenarios: seq<Scenario>,
    keyFactors: seq<string>,
    injuries: Injuries,
    predictions: seq<BettingTip>,
    sources: seq<Source>,
    weather: Option<string>,
    referee: Option<string>,
    advancedStats: Option<seq<AdvancedStat>>,
    liveScore: Option<string>,
    matchMinute: Option<string>,
    marketAnalysis: Option<MarketAnalysis>,
    trueProbability: Option<TrueProbability>)
}
