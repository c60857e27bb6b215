/** The deterministic part of `analyzeMatchDeeply` (services/geminiService.ts):
    the order in which the cached analyses are consulted, the recomputation of
    every tip's edge from its probability and odds, and the assembly of the
    final record with its list defaults. The judge model's reply and the
    Supabase calls are inputs. */
module Analysis {
  import opened Common
  import opened JsText
  import opened Types
  import opened Supabase
  import opened Extraction

  // ---------------------------------------------------------------------------
  // Edge

  /** `parseFloat(x.toFixed(3))`: the magnitude is rounded to the nearest
      thousandth, halves upward, and the sign is put back. */
  function Round3(x: real): (r: real)
    ensures (r * 1000.0).Floor as real == r * 1000.0
    ensures x >= 0.0 ==> x - 0.0005 < r <= x + 0.0005
    ensures x < 0.0 ==> x - 0.0005 <= r < x + 0.0005
    ensures r > 0.0 ==> x >= 0.0005
    ensures r < 0.0 ==> x <= -0.0005
    ensures x >= 0.0005 ==> r >= 0.001
    ensures x <= -0.0005 ==> r <= -0.001
  {
    if x >= 0.0 then Thousandths(x)
    else NegatedThousandths(x); -Thousandths(-x)
  }

  /** A negative input rounds as its magnitude does, with the sign put back. */
  lemma NegatedThousandths(x: real)
    requires x < 0.0
    ensures var r := -Thousandths(-x);
            && (r * 1000.0).Floor as real == r * 1000.0
            && x - 0.0005 <= r < x + 0.0005
            && (r < 0.0 ==> x <= -0.0005)
            && (x <= -0.0005 ==> r <= -0.001)
  {
    var t := Thousandths(-x);
    var n := (t * 1000.0).Floor;
    assert t * 1000.0 == n as real;
    assert -t * 1000.0 == (-n) as real;
    assert ((-n) as real).Floor == -n;
  }

  /** The non-negative magnitude rounded to thousandths. */
  function Thousandths(x: real): (r: real)
    requires x >= 0.0
    ensures (r * 1000.0).Floor as real == r * 1000.0
    ensures x - 0.0005 < r <= x + 0.0005
    ensures r >= 0.0
    ensures r > 0.0 ==> x >= 0.0005
    ensures x >= 0.0005 ==> r >= 0.001
  {
    var n := (x * 1000.0 + 0.5).Floor;
    assert n as real <= x * 1000.0 + 0.5 < n as real + 1.0;
    n as real / 1000.0
  }

  /** `Number(pred.probability) || 50`. */
  function Probability(tip: BettingTip): real {
    ToNumber(tip.probability).Or(50.0)
  }

  /** `Number(pred.odds) || 1.0`. */
  function TipOdds(tip: BettingTip): real {
    ToNumber(tip.odds).Or(1.0)
  }

  /** The recomputed edge: the expected return of one unit minus the stake. */
  function Edge(tip: BettingTip): real {
    EdgeOf(Probability(tip), TipOdds(tip))
  }

  /** The edge of a probability in percent and decimal odds. */
  function EdgeOf(p: real, o: real): real {
    Round3(p / 100.0 * o - 1.0)
  }

  /** The tip with its edge overwritten; every other field is kept. */
  function WithEdge(tip: BettingTip): (t: BettingTip)
    ensures t.edge == JNumber(Edge(tip))
    ensures t.(edge := tip.edge) == tip
  {
    tip.(edge := JNumber(Edge(tip)))
  }

  /** A positive edge means probability times odds exceeds 100; a product of
      at least 100.05 always gives a positive edge. */
  lemma EdgeSign(tip: BettingTip)
    ensures Edge(tip) > 0.0 ==> Probability(tip) * TipOdds(tip) > 100.0
    ensures Probability(tip) * TipOdds(tip) >= 100.05 ==> Edge(tip) > 0.0
    ensures Edge(tip) < 0.0 ==> Probability(tip) * TipOdds(tip) < 100.0
    ensures Probability(tip) * TipOdds(tip) <= 99.95 ==> Edge(tip) < 0.0
  {
    RoundedReturnSign(Probability(tip), TipOdds(tip));
  }

  lemma RoundedReturnSign(p: real, o: real)
    ensures EdgeOf(p, o) > 0.0 ==> p * o > 100.0
    ensures p * o >= 100.05 ==> EdgeOf(p, o) > 0.0
    ensures EdgeOf(p, o) < 0.0 ==> p * o < 100.0
    ensures p * o <= 99.95 ==> EdgeOf(p, o) < 0.0
  {
    var x := p / 100.0 * o - 1.0;
    assert x == (p * o) / 100.0 - 1.0;
    assert EdgeOf(p, o) == Round3(x);
  }

  /** A tip without numeric probability and odds is read as an even coin at
      odds 1: half the stake is lost. */
  lemma EdgeOfBlankTip(tip: BettingTip)
    requires !ToNumber(tip.probability).Truthy() && !ToNumber(tip.odds).Truthy()
    ensures Edge(tip) == -0.5
  {
    assert Probability(tip) / 100.0 * TipOdds(tip) - 1.0 == -0.5;
    assert Thousandths(0.5) == 0.5 by {
      assert (0.5 * 1000.0 + 0.5).Floor == 500;
    }
  }

  // ---------------------------------------------------------------------------
  // Assembly

  /** The judge's reply as parsed: every field may be missing. */
  datatype JudgeReply = JudgeReply(
    summary: Option<string>,
    contrarianView: Option<string>,
    scenarios: Option<seq<Scenario>>,
    keyFactors: Option<seq<string>>,
    injuries: Option<Injuries>,
    predictions: Option<seq<BettingTip>>,
    weather: Option<string>,
    referee: Option<string>,
    advancedStats: Option<seq<AdvancedStat>>,
    liveScore: Option<string>,
    matchMinute: Option<string>,
    marketAnalysis: Option<MarketAnalysis>,
    trueProbability: Option<TrueProbability>)

  /** What a reply that could not be parsed amounts to: the fallback `[]`
      has none of the fields. */
  const EmptyReply := JudgeReply(None, None, None, None, None, None, None, None, None, None, None, None, None)

  /** The analysis record built from the reply for `m`. */
  function Assemble(m: Match, reply: JudgeReply): (a: MatchAnalysis)
    ensures a.matchId == m.id && a.sources == []
    ensures a.summary == reply.summary && a.contrarianView == reply.contrarianView
    ensures a.scenarios == reply.scenarios.GetOr([])
    ensures a.keyFactors == reply.keyFactors.GetOr([])
    ensures a.injuries == reply.injuries.GetOr(InjuryNotes([]))
    ensures |a.predictions| == |reply.predictions.GetOr([])|
    ensures forall i :: 0 <= i < |a.predictions| ==>
              a.predictions[i].edge == JNumber(Edge(reply.predictions.value[i]))
              && a.predictions[i].(edge := reply.predictions.value[i].edge) == reply.predictions.value[i]
    ensures a.weather == reply.weather && a.referee == reply.referee
    ensures a.advancedStats == reply.advancedStats && a.liveScore == reply.liveScore
    ensures a.matchMinute == reply.matchMinute && a.marketAnalysis == reply.marketAnalysis
    ensures a.trueProbability == reply.trueProbability
  {
    var tips := reply.predictions.GetOr([]);
    MatchAnalysis(
      matchId := m.id,
      summary := reply.summary,
      contrarianView := reply.contrarianView,
      scenarios := reply.scenarios.GetOr([]),
      keyFactors := reply.keyFactors.GetOr([]),
      injuries := reply.injuries.GetOr(InjuryNotes([])),
      predictions := seq(|tips|, i requires 0 <= i < |tips| => WithEdge(tips[i])),
      sources := [],
      weather := reply.weather,
      referee := reply.referee,
      advancedStats := reply.advancedStats,
      liveScore := reply.liveScore,
      matchMinute := reply.matchMinute,
      marketAnalysis := reply.marketAnalysis,
      trueProbability := reply.trueProbability)
  }

  /** An unreadable reply still yields a well-formed, empty analysis for the match. */
  lemma UnparsedReplyIsEmpty(m: Match)
    ensures var a := Assemble(m, EmptyReply);
            a.matchId == m.id && a.scenarios == [] && a.keyFactors == [] && a.predictions == []
            && a.injuries == InjuryNotes([]) && a.sources == [] && a.summary.None?
  {
  }

  lemma WithEdgeIdempotent(tip: BettingTip)
    ensures WithEdge(WithEdge(tip)) == WithEdge(tip)
  {
    assert Probability(WithEdge(tip)) == Probability(tip);
    assert TipOdds(WithEdge(tip)) == TipOdds(tip);
  }

  /** Recomputing the edges a second time changes nothing: the edge depends
      only on probability and odds. */
  lemma AssembleStable(m: Match, reply: JudgeReply)
    requires reply.predictions.Some?
    ensures var a := Assemble(m, reply);
            Assemble(m, reply.(predictions := Some(a.predictions))).predictions == a.predictions
  {
    var tips := reply.predictions.value;
    var a := Assemble(m, reply);
    var b := Assemble(m, reply.(predictions := Some(a.predictions)));
    forall i | 0 <= i < |a.predictions|
      ensures b.predictions[i] == a.predictions[i]
    {
      assert a.predictions[i] == WithEdge(tips[i]);
      WithEdgeIdempotent(tips[i]);
    }
  }

  // ---------------------------------------------------------------------------
  // Cache order

  /** The module-level memory (`CACHED_ANALYSES`) and the offline circuit. */
  datatype AnalysisState = AnalysisState(memory: map<string, MatchAnalysis>, circuit: Circuit)

  /** The answer of the `match_analyses` lookup. `Miss` covers both an empty
      answer and one without an analysis. */
  datatype RemoteLookup = Hit(analysis: MatchAnalysis) | Miss | QueryFailed(message: string) | QueryThrew

  /** The judge call: it rejected (or no API key was configured), or it
      returned a text, possibly missing. */
  datatype JudgeCall = JudgeThrew | JudgeText(text: Option<string>)

  /** The promise's outcome: an analysis, or a rejection. */
  datatype AnalysisRun = AnalysisRun(state: AnalysisState, result: Option<MatchAnalysis>)

  /** `response.text || "{}"`. */
  function JudgeInput(text: Option<string>): string {
    if text.Some? && text.value != "" then text.value else "{}"
  }

  /** The reply the judge's text parses to. */
  function ParseReply(text: Option<string>, parse: string -> Option<JudgeReply>): JudgeReply {
    CleanAndParse(JudgeInput(text), parse, EmptyReply)
  }

  /** The remote step: a hit is returned and remembered; a network-looking
      error or a throw trips the circuit; anything else falls through. */
  function Consult(st: AnalysisState, id: string, remote: RemoteLookup): (r: AnalysisRun)
    ensures r.result.Some? <==> remote.Hit?
    ensures r.result.Some? ==> r.state.memory == st.memory[id := remote.analysis] && r.result.value == remote.analysis
    ensures r.result.None? ==> r.state.memory == st.memory
    ensures st.circuit.offline ==> r.state.circuit == st.circuit
    ensures r.state.circuit.offline <==>
              (st.circuit.offline || remote.QueryThrew? || (remote.QueryFailed? && IsNetworkMessage(remote.message)))
  {
    match remote
    case Hit(a) => AnalysisRun(st.(memory := st.memory[id := a]), Some(a))
    case Miss => AnalysisRun(st, None)
    case QueryFailed(message) => AnalysisRun(st.(circuit := AfterCall(st.circuit, Failed(message))), None)
    case QueryThrew => AnalysisRun(st.(circuit := MarkOffline(st.circuit)), None)
  }

  /** The judge step: a reply is assembled, saved when the store is
      configured, and remembered; a rejected call changes nothing. */
  function Compute(st: AnalysisState, m: Match, clientExists: bool, judge: JudgeCall,
                   parse: string -> Option<JudgeReply>, save: CallOutcome): (r: AnalysisRun)
    ensures r.result.Some? <==> judge.JudgeText?
    ensures r.result.Some? ==> r.result.value == Assemble(m, ParseReply(judge.text, parse))
                               && r.state.memory == st.memory[m.id := r.result.value]
    ensures r.result.None? ==> r.state == st
    ensures st.circuit.offline ==> r.state.circuit == st.circuit
    ensures r.state.circuit.offline <==>
              st.circuit.offline || (judge.JudgeText? && IsConfigured(st.circuit, clientExists) && Trips(save))
  {
    match judge
    case JudgeThrew => AnalysisRun(st, None)
    case JudgeText(text) =>
      var a := Assemble(m, ParseReply(text, parse));
      var circuit := if IsConfigured(st.circuit, clientExists) then AfterCall(st.circuit, save) else st.circuit;
      AnalysisRun(AnalysisState(st.memory[m.id := a], circuit), Some(a))
  }

  /** `analyzeMatchDeeply(m, force)`: memory, then the remote cache when it
      is configured, then the judge; a computed analysis is saved when the
      remote store is configured and always remembered. The save's outcome
      is applied to the circuit once the call has completed. */
  function AnalyzeMatch(st: AnalysisState, m: Match, force: bool, clientExists: bool,
                        remote: RemoteLookup, judge: JudgeCall,
                        parse: string -> Option<JudgeReply>, save: CallOutcome): AnalysisRun
  {
    if !force && m.id in st.memory then AnalysisRun(st, Some(st.memory[m.id]))
    else
      var looked := if !force && IsConfigured(st.circuit, clientExists) then Consult(st, m.id, remote)
                    else AnalysisRun(st, None);
      if looked.result.Some? then looked
      else Compute(looked.state, m, clientExists, judge, parse, save)
  }

  /** A remembered analysis is returned as is, and nothing changes. */
  lemma MemoryFirst(st: AnalysisState, m: Match, clientExists: bool, remote: RemoteLookup, judge: JudgeCall,
                    parse: string -> Option<JudgeReply>, save: CallOutcome)
    requires m.id in st.memory
    ensures AnalyzeMatch(st, m, false, clientExists, remote, judge, parse, save) == AnalysisRun(st, Some(st.memory[m.id]))
  {
  }

  /** Whatever is returned is remembered under the match's id and no other
      entry changes; a rejected call leaves the memory as it was. */
  lemma ResultRemembered(st: AnalysisState, m: Match, force: bool, clientExists: bool, remote: RemoteLookup,
                         judge: JudgeCall, parse: string -> Option<JudgeReply>, save: CallOutcome)
    ensures var r := AnalyzeMatch(st, m, force, clientExists, remote, judge, parse, save);
            && (r.result.Some? ==> r.state.memory == st.memory[m.id := r.result.value])
            && (r.result.None? ==> r.state.memory == st.memory)
  {
    if !force && m.id in st.memory {
      assert st.memory[m.id := st.memory[m.id]] == st.memory;
    }
  }

  /** The circuit only ever opens; once open, the call leaves it alone. */
  lemma CircuitMonotone(st: AnalysisState, m: Match, force: bool, clientExists: bool, remote: RemoteLookup,
                        judge: JudgeCall, parse: string -> Option<JudgeReply>, save: CallOutcome)
    ensures var r := AnalyzeMatch(st, m, force, clientExists, remote, judge, parse, save);
            && (st.circuit.offline ==> r.state.circuit == st.circuit)
            && (r.state.circuit.offline ==> st.circuit.offline || remote.QueryThrew? || remote.QueryFailed? || save != Succeeded)
  {
  }

  /** A forced run skips both caches: the analysis is computed from the reply. */
  lemma ForcedIsComputed(st: AnalysisState, m: Match, clientExists: bool, remote: RemoteLookup,
                         text: Option<string>, parse: string -> Option<JudgeReply>, save: CallOutcome)
    ensures AnalyzeMatch(st, m, true, clientExists, remote, JudgeText(text), parse, save).result
            == Some(Assemble(m, ParseReply(text, parse)))
  {
  }

  /** Without a configured store the remote answer plays no part. */
  lemma UnconfiguredIgnoresRemote(st: AnalysisState, m: Match, force: bool, clientExists: bool,
                                  remote1: RemoteLookup, remote2: RemoteLookup, judge: JudgeCall,
                                  parse: string -> Option<JudgeReply>, save: CallOutcome)
    requires !IsConfigured(st.circuit, clientExists)
    ensures AnalyzeMatch(st, m, force, clientExists, remote1, judge, parse, save)
            == AnalyzeMatch(st, m, force, clientExists, remote2, judge, parse, save)
  {
  }

  /** Asking again without forcing returns the same analysis from memory,
      whatever the remote store and the judge would now say. */
  lemma SecondCallCached(st: AnalysisState, m: Match, force: bool, clientExists: bool, remote: RemoteLookup,
                         judge: JudgeCall, parse: string -> Option<JudgeReply>, save: CallOutcome,
                         remote2: RemoteLookup, judge2: JudgeCall, save2: CallOutcome)
    ensures var r := AnalyzeMatch(st, m, force, clientExists, remote, judge, parse, save);
            r.result.Some? ==>
              AnalyzeMatch(r.state, m, false, clientExists, remote2, judge2, parse, save2) == AnalysisRun(r.state, r.result)
  {
    ResultRemembered(st, m, force, clientExists, remote, judge, parse, save);
  }

  /** A computed analysis always belongs to the match and cites no source; a
      remote hit is returned as stored. */
  lemma ComputedBelongsToMatch(st: AnalysisState, m: Match, force: bool, clientExists: bool, remote: RemoteLookup,
                               judge: JudgeCall, parse: string -> Option<JudgeReply>, save: CallOutcome)
    requires force || m.id !in st.memory
    requires !remote.Hit?
    ensures var r := AnalyzeMatch(st, m, force, clientExists, remote, judge, parse, save);
            r.result.Some? ==> r.result.value.matchId == m.id && r.result.value.sources == []
  {
  }
}
