/** The Monte Carlo match simulator (services/simulationService.ts).

    Each trial turns the four ratings, the sport's constants and two standard
    normal draws into a pair of final scores; the run tallies wins, losses and
    draws, records each score differential in a frequency map, and turns the
    map into an ascending list of histogram buckets. The random draws are an
    input: `draws[2 * i]` is the home draw and `draws[2 * i + 1]` the away draw
    of trial `i`, the order in which the source calls its generator. The
    frequency map is a `multiset<int>`: the multiplicity of `d` is the map's
    count for key `d` (and 0 stands for a missing key). */
module Simulation {
  import opened Common
  import opened Types

  /** Standard deviation of the per-trial noise. */
  function StdDev(sport: SportType): real {
    if sport == Basketball then 12.0 else 1.2
  }

  /** Average score before ratings are applied. */
  function BaseScore(sport: SportType): real {
    if sport == Basketball then 100.0 else 1.3
  }

  /** Weight of a rating difference. */
  function PowerFactor(sport: SportType): real {
    if sport == Basketball then 0.5 else 0.03
  }

  /** Width of a histogram bucket. */
  function BucketWidth(sport: SportType): (w: nat)
    ensures w >= 1
  {
    if sport == Basketball then 2 else 1
  }

  /** `(inputs.tempo || 50) / 50`: a missing or zero tempo is neutral. */
  function TempoMultiplier(tempo: Option<real>): (m: real)
    ensures tempo.None? || tempo.value == 0.0 ==> m == 1.0
    ensures tempo.Some? && tempo.value != 0.0 ==> m * 50.0 == tempo.value
  {
    (if tempo.Some? && tempo.value != 0.0 then tempo.value else 50.0) / 50.0
  }

  /** The two simulated scores of one trial before any sport-specific adjustment. */
  function RawScores(inputs: SimulationInputs, sport: SportType, zHome: real, zAway: real): (real, real)
  {
    (BaseScore(sport) + (inputs.homeAttack - inputs.awayDefense) * PowerFactor(sport) + zHome * StdDev(sport),
     BaseScore(sport) + (inputs.awayAttack - inputs.homeDefense) * PowerFactor(sport) + zAway * StdDev(sport))
  }

  /** The basketball branch: both scores scaled by the tempo multiplier, then one point
      added to the home score when the two would round to the same value. */
  function TempoAndTieBreak(home: real, away: real, multiplier: real): (real, real)
  {
    var h := home * multiplier;
    var a := away * multiplier;
    if Round(h) == Round(a) then (h + 1.0, a) else (h, a)
  }

  /** Final (non-negative, whole) scores of one trial. */
  datatype Score = Score(home: nat, away: nat)

  /** One trial: raw scores, the basketball adjustment, then clamping at 0 and rounding. */
  function Trial(inputs: SimulationInputs, sport: SportType, zHome: real, zAway: real): Score
  {
    var raw := RawScores(inputs, sport, zHome, zAway);
    var adjusted := if sport == Basketball then TempoAndTieBreak(raw.0, raw.1, TempoMultiplier(inputs.tempo)) else raw;
    Score(ClampRound(adjusted.0), ClampRound(adjusted.1))
  }

  /** Signed differential `home - away` of a trial. */
  function Diff(s: Score): int {
    s.home - s.away
  }

  /** The final scores of the `n` trials, driven by `draws`. */
  function Outcomes(inputs: SimulationInputs, sport: SportType, draws: seq<real>, n: nat): (outs: seq<Score>)
    requires |draws| == 2 * n
    ensures |outs| == n
  {
    seq(n, i requires 0 <= i < n => Trial(inputs, sport, draws[2 * i], draws[2 * i + 1]))
  }

  datatype Verdict = HomeWin | AwayWin | Tie

  /** Which counter a trial increments. */
  function VerdictOf(s: Score): Verdict {
    if s.home > s.away then HomeWin else if s.away > s.home then AwayWin else Tie
  }

  /** Number of trials with verdict `v`. */
  function CountVerdict(outs: seq<Score>, v: Verdict): nat
    decreases |outs|
  {
    if |outs| == 0 then 0
    else CountVerdict(outs[..|outs| - 1], v) + (if VerdictOf(outs[|outs| - 1]) == v then 1 else 0)
  }

  /** The frequency map of differentials. */
  function Diffs(outs: seq<Score>): multiset<int>
    decreases |outs|
  {
    if |outs| == 0 then multiset{} else Diffs(outs[..|outs| - 1]) + multiset{Diff(outs[|outs| - 1])}
  }

  function TotalHome(outs: seq<Score>): nat
    decreases |outs|
  {
    if |outs| == 0 then 0 else TotalHome(outs[..|outs| - 1]) + outs[|outs| - 1].home
  }

  function TotalAway(outs: seq<Score>): nat
    decreases |outs|
  {
    if |outs| == 0 then 0 else TotalAway(outs[..|outs| - 1]) + outs[|outs| - 1].away
  }

  /** Total multiplicity of the differentials in `[lo, hi)`. */
  function RangeCount(m: multiset<int>, lo: int, hi: int): nat
    decreases hi - lo
  {
    if lo >= hi then 0 else m[lo] + RangeCount(m, lo + 1, hi)
  }

  /** A percentage as the run reports it: `count / iterations * 100`, unrounded. */
  function Percent(count: nat, n: nat): real
    requires n > 0
  {
    (count as real / n as real) * 100.0
  }

  /** Sum of the counts of a histogram. */
  function SumCounts(dist: seq<Bucket>): nat
    decreases |dist|
  {
    if |dist| == 0 then 0 else dist[0].count + SumCounts(dist[1..])
  }

  /** Bucket `b` of width `step` holds differential `x`. */
  predicate Covers(b: Bucket, x: int, step: nat) {
    b.diff <= x < b.diff + step
  }

  /** `x` is a bucket start: `base` plus a whole number of steps. */
  predicate OnGrid(x: int, base: int, step: nat)
    requires step >= 1
    decreases x - base
  {
    x == base || (x > base && OnGrid(x - step, base, step))
  }

  /** The histogram the run reports, read from the bucket starts `d, d + step, ...`
      up to `hi`: one bucket per start whose summed count is positive. */
  function Histogram(m: multiset<int>, d: int, hi: int, step: nat): seq<Bucket>
    requires step >= 1
    decreases hi - d
  {
    if d > hi then []
    else
      var count := RangeCount(m, d, d + step);
      (if count > 0 then [Bucket(d, count)] else []) + Histogram(m, d + step, hi, step)
  }

  // ---------------------------------------------------------------------------
  // Per-trial properties

  /** In basketball, when both tempo-scaled scores are non-negative, the tie
      nudge guarantees that no trial ends level. */
  lemma BasketballHasNoDraw(inputs: SimulationInputs, zHome: real, zAway: real)
    requires var raw := RawScores(inputs, Basketball, zHome, zAway);
             raw.0 * TempoMultiplier(inputs.tempo) >= 0.0 && raw.1 * TempoMultiplier(inputs.tempo) >= 0.0
    ensures VerdictOf(Trial(inputs, Basketball, zHome, zAway)) != Tie
  {
    var raw := RawScores(inputs, Basketball, zHome, zAway);
    var h := raw.0 * TempoMultiplier(inputs.tempo);
    var a := raw.1 * TempoMultiplier(inputs.tempo);
    if Round(h) == Round(a) {
      assert Round(h + 1.0) == Round(h) + 1;
    }
  }

  /** The tempo only matters in basketball. */
  lemma TempoOnlyInBasketball(inputs: SimulationInputs, sport: SportType, zHome: real, zAway: real, tempo: Option<real>)
    requires sport != Basketball
    ensures Trial(inputs.(tempo := tempo), sport, zHome, zAway) == Trial(inputs, sport, zHome, zAway)
  {
  }

  /** A missing tempo, a zero tempo and a tempo of 50 all simulate the same game. */
  lemma NeutralTempo(inputs: SimulationInputs, sport: SportType, zHome: real, zAway: real)
    ensures Trial(inputs.(tempo := None), sport, zHome, zAway) == Trial(inputs.(tempo := Some(0.0)), sport, zHome, zAway)
    ensures Trial(inputs.(tempo := None), sport, zHome, zAway) == Trial(inputs.(tempo := Some(50.0)), sport, zHome, zAway)
  {
    SameMultiplierSameTrial(inputs, sport, zHome, zAway, None, Some(0.0));
    SameMultiplierSameTrial(inputs, sport, zHome, zAway, None, Some(50.0));
  }

  /** A trial sees the tempo only through its multiplier. */
  lemma SameMultiplierSameTrial(inputs: SimulationInputs, sport: SportType, zHome: real, zAway: real, t1: Option<real>, t2: Option<real>)
    requires TempoMultiplier(t1) == TempoMultiplier(t2)
    ensures Trial(inputs.(tempo := t1), sport, zHome, zAway) == Trial(inputs.(tempo := t2), sport, zHome, zAway)
  {
    var raw := RawScores(inputs, sport, zHome, zAway);
    assert RawScores(inputs.(tempo := t1), sport, zHome, zAway) == raw;
    assert RawScores(inputs.(tempo := t2), sport, zHome, zAway) == raw;
  }

  // ---------------------------------------------------------------------------
  // Counting lemmas

  lemma {:induction false} VerdictsPartition(outs: seq<Score>)
    ensures CountVerdict(outs, HomeWin) + CountVerdict(outs, AwayWin) + CountVerdict(outs, Tie) == |outs|
    decreases |outs|
  {
    if |outs| > 0 {
      VerdictsPartition(outs[..|outs| - 1]);
    }
  }

  /** The frequency of differential 0 is the number of drawn trials. */
  lemma {:induction false} DrawsAreZeroDiffs(outs: seq<Score>)
    ensures Diffs(outs)[0] == CountVerdict(outs, Tie)
    decreases |outs|
  {
    if |outs| > 0 {
      DrawsAreZeroDiffs(outs[..|outs| - 1]);
    }
  }

  lemma {:induction false} RangeCountAdd(m: multiset<int>, x: int, lo: int, hi: int)
    ensures RangeCount(m + multiset{x}, lo, hi) == RangeCount(m, lo, hi) + (if lo <= x < hi then 1 else 0)
    decreases hi - lo
  {
    if lo < hi {
      RangeCountAdd(m, x, lo + 1, hi);
    }
  }

  lemma {:induction false} RangeCountSplit(m: multiset<int>, a: int, b: int, c: int)
    requires a <= b <= c
    ensures RangeCount(m, a, c) == RangeCount(m, a, b) + RangeCount(m, b, c)
    decreases b - a
  {
    if a < b {
      RangeCountSplit(m, a + 1, b, c);
    }
  }

  /** Every multiplicity inside the range is part of the range's count. */
  lemma {:induction false} RangeCountAtLeast(m: multiset<int>, lo: int, hi: int, x: int)
    requires lo <= x < hi
    ensures m[x] <= RangeCount(m, lo, hi)
    decreases hi - lo
  {
    if lo < x {
      RangeCountAtLeast(m, lo + 1, hi, x);
    }
  }

  /** A range that contains every element counts the whole multiset. */
  lemma {:induction false} RangeCountAll(m: multiset<int>, lo: int, hi: int)
    requires forall x :: x in m ==> lo <= x < hi
    ensures RangeCount(m, lo, hi) == |m|
    decreases |m|
  {
    if exists y :: y in m {
      var x :| x in m;
      var rest := m - multiset{x};
      assert m == rest + multiset{x};
      RangeCountAll(rest, lo, hi);
      RangeCountAdd(rest, x, lo, hi);
    } else {
      assert m == multiset{};
      RangeCountEmpty(lo, hi);
    }
  }

  lemma {:induction false} RangeCountEmpty(lo: int, hi: int)
    ensures RangeCount(multiset{}, lo, hi) == 0
    decreases hi - lo
  {
    if lo < hi {
      RangeCountEmpty(lo + 1, hi);
    }
  }

  /** The trials with a positive differential are exactly the home wins. */
  lemma {:induction false} HomeWinsArePositiveDiffs(outs: seq<Score>, hi: int)
    requires forall x :: x in Diffs(outs) ==> x < hi
    ensures RangeCount(Diffs(outs), 1, hi) == CountVerdict(outs, HomeWin)
    decreases |outs|
  {
    if |outs| == 0 {
      RangeCountEmpty(1, hi);
    } else {
      var init := outs[..|outs| - 1];
      var last := outs[|outs| - 1];
      assert outs[..|outs| - 1] == init;
      assert Diffs(outs) == Diffs(init) + multiset{Diff(last)};
      assert Diff(last) in Diffs(outs);
      forall x | x in Diffs(init)
        ensures x in Diffs(outs)
      {
      }
      HomeWinsArePositiveDiffs(init, hi);
      RangeCountAdd(Diffs(init), Diff(last), 1, hi);
    }
  }

  /** The trials with a negative differential are exactly the away wins. */
  lemma {:induction false} AwayWinsAreNegativeDiffs(outs: seq<Score>, lo: int)
    requires forall x :: x in Diffs(outs) ==> lo <= x
    ensures RangeCount(Diffs(outs), lo, 0) == CountVerdict(outs, AwayWin)
    decreases |outs|
  {
    if |outs| == 0 {
      RangeCountEmpty(lo, 0);
    } else {
      var init := outs[..|outs| - 1];
      var last := outs[|outs| - 1];
      assert outs[..|outs| - 1] == init;
      assert Diffs(outs) == Diffs(init) + multiset{Diff(last)};
      assert Diff(last) in Diffs(outs);
      forall x | x in Diffs(init)
        ensures x in Diffs(outs)
      {
      }
      AwayWinsAreNegativeDiffs(init, lo);
      RangeCountAdd(Diffs(init), Diff(last), lo, 0);
    }
  }

  lemma PercentBounds(count: nat, n: nat)
    requires 0 < n && count <= n
    ensures 0.0 <= Percent(count, n) <= 100.0
  {
    assert count as real / n as real <= 1.0;
  }

  /** The three percentages of a run add up to exactly 100 over the reals. */
  lemma PercentagesSumTo100(a: nat, b: nat, c: nat, n: nat)
    requires n > 0 && a + b + c == n
    ensures Percent(a, n) + Percent(b, n) + Percent(c, n) == 100.0
  {
    var k := 100.0 / n as real;
    assert Percent(a, n) == a as real * k;
    assert Percent(b, n) == b as real * k;
    assert Percent(c, n) == c as real * k;
    assert (a as real + b as real + c as real) * k == n as real * k;
  }

  lemma OnGridNext(x: int, base: int, step: nat)
    requires step >= 1 && OnGrid(x, base, step)
    ensures OnGrid(x + step, base, step)
  {
  }

  /** One differential per trial. */
  lemma {:induction false} DiffsSize(outs: seq<Score>)
    ensures |Diffs(outs)| == |outs|
    decreases |outs|
  {
    if |outs| > 0 {
      DiffsSize(outs[..|outs| - 1]);
    }
  }

  /** How every per-trial accumulator changes when one more trial is counted. */
  lemma PrefixStep(outs: seq<Score>, i: nat)
    requires i < |outs|
    ensures CountVerdict(outs[..i + 1], HomeWin) == CountVerdict(outs[..i], HomeWin) + (if VerdictOf(outs[i]) == HomeWin then 1 else 0)
    ensures CountVerdict(outs[..i + 1], AwayWin) == CountVerdict(outs[..i], AwayWin) + (if VerdictOf(outs[i]) == AwayWin then 1 else 0)
    ensures CountVerdict(outs[..i + 1], Tie) == CountVerdict(outs[..i], Tie) + (if VerdictOf(outs[i]) == Tie then 1 else 0)
    ensures Diffs(outs[..i + 1]) == Diffs(outs[..i]) + multiset{Diff(outs[i])}
    ensures TotalHome(outs[..i + 1]) == TotalHome(outs[..i]) + outs[i].home
    ensures TotalAway(outs[..i + 1]) == TotalAway(outs[..i]) + outs[i].away
  {
    assert outs[..i + 1][..i] == outs[..i];
  }

  // ---------------------------------------------------------------------------
  // The run

  /** What the trial loop accumulates. */
  datatype Tally = Tally(
    homeWins: nat,
    awayWins: nat,
    draws: nat,
    totalHome: nat,
    totalAway: nat,
    diffMap: multiset<int>,
    minDiff: int,
    maxDiff: int)

  /** The trial loop over the trials' final scores: one counter per verdict,
      the score totals and the differential map, plus the smallest and largest
      differential seen. */
  method TallyTrials(outs: seq<Score>) returns (t: Tally)
    ensures t.homeWins == CountVerdict(outs, HomeWin)
    ensures t.awayWins == CountVerdict(outs, AwayWin)
    ensures t.draws == CountVerdict(outs, Tie)
    ensures t.totalHome == TotalHome(outs) && t.totalAway == TotalAway(outs)
    ensures t.diffMap == Diffs(outs)
    ensures t.homeWins + t.awayWins + t.draws == |outs|
    ensures |t.diffMap| == |outs|
    ensures t.diffMap[0] == t.draws
    ensures |outs| > 0 ==> t.minDiff in t.diffMap && t.maxDiff in t.diffMap
    ensures forall x :: x in t.diffMap ==> t.minDiff <= x <= t.maxDiff
  {
    t := Tally(0, 0, 0, 0, 0, multiset{}, 0, 0);
    var i := 0;
    while i < |outs|
      invariant 0 <= i <= |outs|
      invariant Tallied(outs[..i], t)
      invariant Bracketed(t, i == 0)
    {
      TallyStep(outs, i, t);
      BracketStep(t, outs[i], i == 0);
      t := CountTrial(t, outs[i], i == 0);
      i := i + 1;
    }
    assert outs[..|outs|] == outs;
    VerdictsPartition(outs);
    DrawsAreZeroDiffs(outs);
    DiffsSize(outs);
  }

  /** One pass of the trial loop: the verdict's counter goes up by one, the
      scores join the totals and the differential joins the map, which
      widens the range `minDiff..maxDiff` (reset by the first trial). */
  function CountTrial(t: Tally, s: Score, first: bool): Tally {
    var diff := s.home - s.away;
    Tally(
      if s.home > s.away then t.homeWins + 1 else t.homeWins,
      if s.home <= s.away && s.away > s.home then t.awayWins + 1 else t.awayWins,
      if s.home <= s.away && s.away <= s.home then t.draws + 1 else t.draws,
      t.totalHome + s.home,
      t.totalAway + s.away,
      t.diffMap + multiset{diff},
      if first || diff < t.minDiff then diff else t.minDiff,
      if first || diff > t.maxDiff then diff else t.maxDiff)
  }

  /** The accumulators hold the counts, totals and differentials of `done`. */
  predicate Tallied(done: seq<Score>, t: Tally) {
    && t.homeWins == CountVerdict(done, HomeWin)
    && t.awayWins == CountVerdict(done, AwayWin)
    && t.draws == CountVerdict(done, Tie)
    && t.totalHome == TotalHome(done)
    && t.totalAway == TotalAway(done)
    && t.diffMap == Diffs(done)
  }

  /** `minDiff` and `maxDiff` are differentials seen (once there are any)
      and bracket all of them. */
  predicate Bracketed(t: Tally, empty: bool) {
    && (!empty ==> t.minDiff in t.diffMap && t.maxDiff in t.diffMap)
    && forall x :: x in t.diffMap ==> t.minDiff <= x <= t.maxDiff
  }

  /** Counting trial `i` moves the accumulators from the first `i` trials to
      the first `i + 1`. */
  lemma TallyStep(outs: seq<Score>, i: nat, t: Tally)
    requires i < |outs| && Tallied(outs[..i], t)
    ensures Tallied(outs[..i + 1], CountTrial(t, outs[i], i == 0))
  {
    PrefixStep(outs, i);
  }

  /** Counting a trial keeps the range bracketing the differentials. */
  lemma BracketStep(t: Tally, s: Score, first: bool)
    requires Bracketed(t, first)
    requires first ==> t.diffMap == multiset{}
    ensures Bracketed(CountTrial(t, s, first), false)
  {
  }

  /** The inner loop of the histogram: the summed counts of `d, ..., d + step - 1`. */
  method BucketCount(diffMap: multiset<int>, d: int, step: nat) returns (count: nat)
    ensures count == RangeCount(diffMap, d, d + step)
  {
    count := 0;
    var s := 0;
    while s < step
      invariant 0 <= s <= step
      invariant count == RangeCount(diffMap, d, d + s)
    {
      RangeCountSplit(diffMap, d, d + s, d + s + 1);
      count := count + diffMap[d + s];
      s := s + 1;
    }
  }

  /** The outer loop of the histogram: bucket starts from `minDiff` in steps of
      `step` while they do not pass `maxDiff`, keeping buckets with a positive count. */
  method Distribute(diffMap: multiset<int>, minDiff: int, maxDiff: int, step: nat)
    returns (dist: seq<Bucket>)
    requires step >= 1
    ensures dist == Histogram(diffMap, minDiff, maxDiff, step)
  {
    dist := [];
    var d := minDiff;
    while d <= maxDiff
      invariant dist + Histogram(diffMap, d, maxDiff, step) == Histogram(diffMap, minDiff, maxDiff, step)
      decreases maxDiff - d
    {
      var count := BucketCount(diffMap, d, step);
      var bucket := if count > 0 then [Bucket(d, count)] else [];
      assert Histogram(diffMap, d, maxDiff, step) == bucket + Histogram(diffMap, d + step, maxDiff, step);
      assert dist + bucket + Histogram(diffMap, d + step, maxDiff, step)
          == dist + (bucket + Histogram(diffMap, d + step, maxDiff, step));
      dist := dist + bucket;
      d := d + step;
    }
  }

  // ---------------------------------------------------------------------------
  // Properties of the histogram

  /** A range above every element counts nothing. */
  lemma {:induction false} RangeCountAbove(m: multiset<int>, lo: int, hi: int, top: int)
    requires forall x :: x in m ==> x <= top
    requires top < lo
    ensures RangeCount(m, lo, hi) == 0
    decreases hi - lo
  {
    if lo < hi {
      assert lo !in m;
      RangeCountAbove(m, lo + 1, hi, top);
    }
  }

  /** Every bucket of `h` is non-empty and holds exactly the differentials of its range. */
  predicate ExactCounts(h: seq<Bucket>, m: multiset<int>, step: nat) {
    forall k :: 0 <= k < |h| ==> 0 < h[k].count == RangeCount(m, h[k].diff, h[k].diff + step)
  }

  /** Every bucket of `h` starts on the grid between `lo` and `hi`. */
  predicate StartsOnGrid(h: seq<Bucket>, lo: int, hi: int, step: nat, base: int)
    requires step >= 1
  {
    forall k :: 0 <= k < |h| ==> lo <= h[k].diff <= hi && OnGrid(h[k].diff, base, step)
  }

  /** Bucket starts increase by at least one step: the list is sorted and the
      buckets do not overlap. */
  predicate Spaced(h: seq<Bucket>, step: nat) {
    forall j, k :: 0 <= j < k < |h| ==> h[j].diff + step <= h[k].diff
  }

  lemma HistogramBuckets(m: multiset<int>, d: int, hi: int, step: nat, base: int)
    requires step >= 1 && OnGrid(d, base, step)
    ensures ExactCounts(Histogram(m, d, hi, step), m, step)
    ensures StartsOnGrid(Histogram(m, d, hi, step), d, hi, step, base)
  {
    HistogramExact(m, d, hi, step);
    HistogramOnGrid(m, d, hi, step, base);
  }

  lemma {:induction false} HistogramExact(m: multiset<int>, d: int, hi: int, step: nat)
    requires step >= 1
    ensures ExactCounts(Histogram(m, d, hi, step), m, step)
    decreases hi - d
  {
    if d <= hi {
      var count := RangeCount(m, d, d + step);
      var head: seq<Bucket> := if count > 0 then [Bucket(d, count)] else [];
      var rest := Histogram(m, d + step, hi, step);
      HistogramExact(m, d + step, hi, step);
      var h := Histogram(m, d, hi, step);
      assert h == head + rest;
      forall k | 0 <= k < |h|
        ensures 0 < h[k].count == RangeCount(m, h[k].diff, h[k].diff + step)
      {
        if k >= |head| {
          assert h[k] == rest[k - |head|];
        }
      }
    }
  }

  lemma {:induction false} HistogramOnGrid(m: multiset<int>, d: int, hi: int, step: nat, base: int)
    requires step >= 1 && OnGrid(d, base, step)
    ensures StartsOnGrid(Histogram(m, d, hi, step), d, hi, step, base)
    decreases hi - d
  {
    if d <= hi {
      var count := RangeCount(m, d, d + step);
      var head: seq<Bucket> := if count > 0 then [Bucket(d, count)] else [];
      var rest := Histogram(m, d + step, hi, step);
      OnGridNext(d, base, step);
      HistogramOnGrid(m, d + step, hi, step, base);
      var h := Histogram(m, d, hi, step);
      assert h == head + rest;
      forall k | 0 <= k < |h|
        ensures d <= h[k].diff <= hi && OnGrid(h[k].diff, base, step)
      {
        if k >= |head| {
          assert h[k] == rest[k - |head|];
          assert d + step <= rest[k - |head|].diff;
        }
      }
    }
  }

  lemma {:induction false} HistogramSorted(m: multiset<int>, d: int, hi: int, step: nat)
    requires step >= 1
    ensures Spaced(Histogram(m, d, hi, step), step)
    decreases hi - d
  {
    if d <= hi {
      var count := RangeCount(m, d, d + step);
      var head: seq<Bucket> := if count > 0 then [Bucket(d, count)] else [];
      var rest := Histogram(m, d + step, hi, step);
      HistogramSorted(m, d + step, hi, step);
      HistogramBuckets(m, d + step, hi, step, d + step);
      var h := Histogram(m, d, hi, step);
      assert h == head + rest;
      forall j, k | 0 <= j < k < |h|
        ensures h[j].diff + step <= h[k].diff
      {
        assert h[k] == rest[k - |head|];
        assert d + step <= rest[k - |head|].diff;
        if j >= |head| {
          assert h[j] == rest[j - |head|];
        } else {
          assert h[j] == Bucket(d, count);
        }
      }
    }
  }

  /** Every differential between `d` and `hi` falls in some bucket. */
  lemma {:induction false} HistogramCovers(m: multiset<int>, d: int, hi: int, step: nat, x: int)
    requires step >= 1 && x in m && d <= x <= hi
    ensures exists k :: 0 <= k < |Histogram(m, d, hi, step)| && Covers(Histogram(m, d, hi, step)[k], x, step)
    decreases hi - d
  {
    var count := RangeCount(m, d, d + step);
    var head: seq<Bucket> := if count > 0 then [Bucket(d, count)] else [];
    var rest := Histogram(m, d + step, hi, step);
    assert Histogram(m, d, hi, step) == head + rest;
    if x < d + step {
      RangeCountAtLeast(m, d, d + step, x);
      assert Covers((head + rest)[0], x, step);
    } else {
      HistogramCovers(m, d + step, hi, step, x);
      var k :| 0 <= k < |rest| && Covers(rest[k], x, step);
      assert (head + rest)[k + |head|] == rest[k];
    }
  }

  /** The buckets' counts add up to the differentials from `d` on. */
  lemma {:induction false} HistogramSum(m: multiset<int>, d: int, hi: int, step: nat)
    requires step >= 1
    requires forall x :: x in m ==> x <= hi
    ensures SumCounts(Histogram(m, d, hi, step)) == RangeCount(m, d, hi + 1)
    decreases hi - d
  {
    if d <= hi {
      var count := RangeCount(m, d, d + step);
      var head: seq<Bucket> := if count > 0 then [Bucket(d, count)] else [];
      var rest := Histogram(m, d + step, hi, step);
      HistogramSum(m, d + step, hi, step);
      assert Histogram(m, d, hi, step) == head + rest;
      if count > 0 {
        assert (head + rest)[1..] == rest;
      } else {
        assert head + rest == rest;
      }
      if d + step <= hi + 1 {
        RangeCountSplit(m, d, d + step, hi + 1);
      } else {
        RangeCountSplit(m, d, hi + 1, d + step);
        RangeCountAbove(m, hi + 1, d + step, hi);
        RangeCountAbove(m, d + step, hi + 1, hi);
      }
    }
  }

  /** Every differential of `m` falls in some bucket of `h`. */
  predicate CoversAll(h: seq<Bucket>, m: multiset<int>, step: nat) {
    forall x :: x in m ==> exists k :: 0 <= k < |h| && Covers(h[k], x, step)
  }

  /** What the run promises about its histogram: counts that add up to the
      number of trials, each bucket non-empty and exact, buckets sorted and
      disjoint, and every differential in some bucket. */
  lemma HistogramProperties(m: multiset<int>, minDiff: int, maxDiff: int, step: nat)
    requires step >= 1
    requires forall x :: x in m ==> minDiff <= x <= maxDiff
    ensures var h := Histogram(m, minDiff, maxDiff, step);
            && SumCounts(h) == |m|
            && ExactCounts(h, m, step)
            && StartsOnGrid(h, minDiff, maxDiff, step, minDiff)
            && Spaced(h, step)
            && CoversAll(h, m, step)
  {
    var h := Histogram(m, minDiff, maxDiff, step);
    HistogramSum(m, minDiff, maxDiff, step);
    RangeCountAll(m, minDiff, maxDiff + 1);
    HistogramBuckets(m, minDiff, maxDiff, step, minDiff);
    HistogramSorted(m, minDiff, maxDiff, step);
    forall x | x in m
      ensures exists k :: 0 <= k < |h| && Covers(h[k], x, step)
    {
      HistogramCovers(m, minDiff, maxDiff, step, x);
    }
  }

  /** `runMonteCarlo`: win/away/draw percentages, the rounded mean scores and
      the histogram of differentials, over `iterations` trials driven by `draws`. */
  method RunMonteCarlo(inputs: SimulationInputs, sport: SportType, iterations: nat, draws: seq<real>)
    returns (r: MonteCarloResult)
    requires |draws| == 2 * iterations
    ensures r.totalIterations == iterations
    ensures var outs := Outcomes(inputs, sport, draws, iterations);
            iterations > 0 ==>
              && r.homeWinProb == Fin(Percent(CountVerdict(outs, HomeWin), iterations))
              && r.awayWinProb == Fin(Percent(CountVerdict(outs, AwayWin), iterations))
              && r.drawProb == Fin(Percent(Diffs(outs)[0], iterations))
              && r.projectedScore.home == Fin(Round(TotalHome(outs) as real / iterations as real) as real)
              && r.projectedScore.away == Fin(Round(TotalAway(outs) as real / iterations as real) as real)
    ensures iterations > 0 ==>
              && 0.0 <= r.homeWinProb.v <= 100.0
              && 0.0 <= r.awayWinProb.v <= 100.0
              && 0.0 <= r.drawProb.v <= 100.0
              && r.homeWinProb.v + r.awayWinProb.v + r.drawProb.v == 100.0
    ensures iterations == 0 ==>
              r.homeWinProb == NaN && r.awayWinProb == NaN && r.drawProb == NaN
              && r.projectedScore == ProjectedScore(NaN, NaN) && r.distribution == []
    ensures var m := Diffs(Outcomes(inputs, sport, draws, iterations));
            && SumCounts(r.distribution) == iterations
            && Spaced(r.distribution, BucketWidth(sport))
            && CoversAll(r.distribution, m, BucketWidth(sport))
            && ExactCounts(r.distribution, m, BucketWidth(sport))
  {
    var outs := Outcomes(inputs, sport, draws, iterations);
    var t := TallyTrials(outs);
    if iterations == 0 {
      r := MonteCarloResult(NaN, NaN, NaN, ProjectedScore(NaN, NaN), [], 0);
      assert t.diffMap == multiset{};
      return;
    }
    var step := BucketWidth(sport);
    var dist := Distribute(t.diffMap, t.minDiff, t.maxDiff, step);
    HistogramProperties(t.diffMap, t.minDiff, t.maxDiff, step);
    PercentBounds(t.homeWins, iterations);
    PercentBounds(t.awayWins, iterations);
    PercentBounds(t.draws, iterations);
    PercentagesSumTo100(t.homeWins, t.awayWins, t.draws, iterations);
    var home := Round(t.totalHome as real / iterations as real);
    var away := Round(t.totalAway as real / iterations as real);
    r := MonteCarloResult(
      Fin(Percent(t.homeWins, iterations)),
      Fin(Percent(t.awayWins, iterations)),
      Fin(Percent(t.draws, iterations)),
      ProjectedScore(Fin(home as real), Fin(away as real)),
      dist,
      iterations);
  }
}
