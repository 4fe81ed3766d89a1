/** The comparison of two measured variants: spread, validity, latency summaries and outcome. */
module BenchmarkComparison {
  import opened Measurements
  import opened Reals
  import opened Sequences
  import opened OrderStatistics
  import opened PerformanceGate

  datatype Spread = Percent(value: real) | NoSessions | NonPositiveMedian

  function SessionSpreadPercent(medians: seq<real>): Spread
  {
    if medians == [] then NoSessions
    else if Minimum(medians) <= 0.0 then NonPositiveMedian
    else Percent((Maximum(medians) / Minimum(medians) - 1.0) * 100.0)
  }

  datatype Validity = Validity(stable: bool, selfCheckPassed: Option<bool>, formalValid: bool)

  /** `None` stands for the ValueError of unpaired, missing or non-positive medians. */
  function ComparisonValidity(
    sameSource: bool, baseline: seq<real>, candidate: seq<real>,
    speedup: real, maxSpread: real): Option<Validity>
  {
    if |baseline| != |candidate| || baseline == [] then None
    else
      match (SessionSpreadPercent(baseline), SessionSpreadPercent(candidate))
      case (Percent(b), Percent(c)) =>
        var stable := (if b >= c then b else c) <= maxSpread;
        var selfCheck := if sameSource then Some(0.95 <= speedup <= 1.05) else None;
        Some(Validity(stable, selfCheck, stable && selfCheck != Some(false)))
      case (_, _) => None
  }

  datatype Phase = Discovery | Confirmation

  datatype Outcome = Inconclusive | Completed | Improved | NoImprovement

  datatype Comparison = Comparison(
    speedup: real,
    sessionSpeedups: seq<real>,
    allSessionsNotSlower: bool,
    validity: Validity,
    gatePassed: bool)

  predicate Positive(s: seq<real>) { forall i :: 0 <= i < |s| ==> s[i] > 0.0 }

  function Latencies(s: seq<real>): seq<Latency> {
    seq(|s|, i requires 0 <= i < |s| => Finite(s[i]))
  }

  function SessionRatios(baseline: seq<real>, candidate: seq<real>): (r: seq<real>)
    requires |baseline| == |candidate| && Positive(candidate)
    ensures |r| == |baseline| && forall i :: 0 <= i < |r| ==> r[i] * candidate[i] == baseline[i]
  {
    seq(|baseline|, i requires 0 <= i < |baseline| => baseline[i] / candidate[i])
  }

  /** The comparison block of the benchmark script, on session medians that the round
      summaries have already accepted as positive. */
  function Compare(
    sameSource: bool, baseline: seq<real>, candidate: seq<real>,
    phase: Phase, maxSpread: real, draws: Draws): Option<Comparison>
    requires Positive(baseline) && Positive(candidate) && DrawsFor(draws, |baseline|)
  {
    if |baseline| != |candidate| || baseline == [] then None
    else
      MedianPositive(candidate);
      var speedup := Median(baseline) / Median(candidate);
      var ratios := SessionRatios(baseline, candidate);
      var validity := ComparisonValidity(sameSource, baseline, candidate, speedup, maxSpread);
      if validity.None? then None
      else Some(Comparison(
        speedup, ratios, forall i :: 0 <= i < |ratios| ==> ratios[i] >= 1.0, validity.value,
        phase == Confirmation &&
        Passes(EvaluateGate(Latencies(baseline), Latencies(candidate),
                            MINIMUM_SESSIONS, MINIMUM_SPEEDUP, draws))))
  }

  function Classify(phase: Phase, stable: bool, comparison: Option<Comparison>): Outcome
  {
    var comparable := comparison.None? || comparison.value.validity.formalValid;
    if !(stable && comparable) then Inconclusive
    else if comparison.None? || phase == Discovery then Completed
    else if comparison.value.allSessionsNotSlower && comparison.value.gatePassed then Improved
    else NoImprovement
  }

  lemma MedianPositive(s: seq<real>)
    requires s != [] && Positive(s)
    ensures Median(s) > 0.0
  {
    Extremes(s);
    MedianBounded(s, Minimum(s), Maximum(s));
  }

  lemma RatiosAgree(baseline: seq<real>, candidate: seq<real>)
    requires |baseline| == |candidate| && Positive(baseline) && Positive(candidate)
    ensures Usable(Latencies(baseline)) && Usable(Latencies(candidate))
    ensures Ratios(Latencies(baseline), Latencies(candidate)) == SessionRatios(baseline, candidate)
  {
  }

  // ----- what an accepted comparison means ---------------------------------------

  /** If no paired session is slower, the ratio of the medians is at least 1. */
  lemma NotSlowerSessionsMeanSpeedup(
    sameSource: bool, baseline: seq<real>, candidate: seq<real>,
    phase: Phase, maxSpread: real, draws: Draws)
    requires Positive(baseline) && Positive(candidate) && DrawsFor(draws, |baseline|)
    requires var c := Compare(sameSource, baseline, candidate, phase, maxSpread, draws);
             c.Some? && c.value.allSessionsNotSlower
    ensures Compare(sameSource, baseline, candidate, phase, maxSpread, draws).value.speedup >= 1.0
  {
    var ratios := SessionRatios(baseline, candidate);
    forall i | 0 <= i < |baseline| ensures candidate[i] <= baseline[i] {
      assert ratios[i] >= 1.0;
      AtLeastOne(baseline[i], candidate[i]);
    }
    MedianMonotone(candidate, baseline);
    MedianPositive(candidate);
    AtLeastOne(Median(baseline), Median(candidate));
  }

  /** A spread of at most p percent puts every median within a factor r = 1 + p/100. */
  lemma SpreadBoundsSessions(medians: seq<real>, p: real, r: real) returns (top: real)
    requires SessionSpreadPercent(medians).Percent? && SessionSpreadPercent(medians).value <= p
    requires r == 1.0 + p / 100.0
    ensures Minimum(medians) > 0.0 && r >= 1.0 && top == Minimum(medians) * r
    ensures Bounded(medians, Minimum(medians), top)
  {
    Extremes(medians);
    var m, x := Minimum(medians), Maximum(medians);
    SpreadFactor(m, x, p, r);
    top := m * r;
    Widen(medians, m, x, top);
  }

  lemma Widen(s: seq<real>, lo: real, hi: real, hi': real)
    requires Bounded(s, lo, hi) && hi <= hi'
    ensures Bounded(s, lo, hi')
  {
  }

  lemma SpreadFactor(m: real, x: real, p: real, r: real)
    requires 0.0 < m <= x && (x / m - 1.0) * 100.0 <= p && r == 1.0 + p / 100.0
    ensures x <= m * r && r >= 1.0
  {
    AtLeastOne(x, m);
    Scale(m, x / m, r);
    assert m * (x / m) == x;
  }

  /** Any two session medians differ by at most the factor r. */
  ghost predicate WithinFactor(medians: seq<real>, r: real) {
    forall i, j :: 0 <= i < |medians| && 0 <= j < |medians| ==> medians[i] <= Times(medians[j], r)
  }

  /** The spread exists exactly for positive medians, and it is at most p percent exactly
      when any two of them differ by at most the factor 1 + p/100. */
  lemma SpreadExactlyWhen(medians: seq<real>, p: real)
    ensures SessionSpreadPercent(medians).NoSessions? <==> medians == []
    ensures SessionSpreadPercent(medians).NonPositiveMedian? <==> !Positive(medians)
    ensures SessionSpreadPercent(medians).Percent? ==>
              (SessionSpreadPercent(medians).value <= p <==> WithinFactor(medians, 1.0 + p / 100.0))
  {
    if medians != [] {
      Extremes(medians);
      var m, x, r := Minimum(medians), Maximum(medians), 1.0 + p / 100.0;
      if m > 0.0 {
        SpreadByExtremes(m, x, p, r);
        FactorByExtremes(medians, r);
      }
    }
  }

  lemma SpreadByExtremes(m: real, x: real, p: real, r: real)
    requires m > 0.0 && r == 1.0 + p / 100.0
    ensures (x / m - 1.0) * 100.0 <= p <==> x <= Times(m, r)
  {
    var q := x / m;
    assert q * m == x;
    RatioReaches(q, m, x, r);
    assert Times(m, r) == r * m;
  }

  lemma FactorByExtremes(medians: seq<real>, r: real)
    requires medians != [] && Positive(medians)
    ensures WithinFactor(medians, r) <==> Maximum(medians) <= Times(Minimum(medians), r)
  {
    Extremes(medians);
    var m, x := Minimum(medians), Maximum(medians);
    if x <= Times(m, r) {
      assert r >= 0.0 by { Sign(r, m); }
      forall j | 0 <= j < |medians| ensures Times(m, r) <= Times(medians[j], r) {
        ScaleRight(m, medians[j], r);
      }
    }
  }

  lemma RatioWithin(b: real, c: real, lo: real, hi: real, lo': real, hi': real)
    requires 0.0 < lo <= b <= hi && 0.0 < lo' <= c <= hi'
    ensures lo / hi' <= b / c <= hi / lo'
  {
    RatioMonotone(lo, hi', b, c);
    RatioMonotone(b, c, hi, lo');
  }

  lemma EndsDifferBySquare(m: real, m': real, n: real, n': real, r: real) returns (lo: real, hi: real)
    requires m > 0.0 && n > 0.0 && r >= 1.0 && m' == m * r && n' == n * r
    ensures n <= n' && lo == m / n' && hi == m' / n && lo > 0.0 && hi == lo * (r * r)
  {
    Scale(n, 1.0, r);
    lo, hi := m / n', m' / n;
    assert lo * n' == m && hi * n == m';
    assert (lo * (r * r)) * n == (lo * (n * r)) * r == m';
    assert (hi - lo * (r * r)) * n == 0.0;
  }

  ghost predicate StableWithin(baseline: seq<real>, candidate: seq<real>, p: real) {
    && |baseline| == |candidate|
    && SessionSpreadPercent(baseline).Percent? && SessionSpreadPercent(candidate).Percent?
    && SessionSpreadPercent(baseline).value <= p && SessionSpreadPercent(candidate).value <= p
  }

  lemma TightBetween(
    baseline: seq<real>, candidate: seq<real>,
    m: real, m': real, n: real, n': real, lo: real, hi: real, draws: Draws)
    requires |baseline| == |candidate| >= 2 && DrawsFor(draws, |baseline|)
    requires Bounded(baseline, m, m') && Bounded(candidate, n, n') && m > 0.0 && n > 0.0
    requires 0.0 < n <= n' && lo == m / n' && hi == m' / n
    ensures Positive(candidate) && Median(candidate) > 0.0
    ensures Tight(baseline, candidate, lo, hi, draws)
  {
    var ratios := SessionRatios(baseline, candidate);
    forall i | 0 <= i < |ratios| ensures lo <= ratios[i] <= hi {
      RatioWithin(baseline[i], candidate[i], m, m', n, n');
    }
    MedianBounded(baseline, m, m');
    MedianBounded(candidate, n, n');
    RatioWithin(Median(baseline), Median(candidate), m, m', n, n');
    MedianBounded(ratios, lo, hi);
    IntervalBounded(ratios, draws, lo, hi);
  }

  /** Every session ratio, the ratio of medians, the median of ratios and both bootstrap
      bounds lie between lo and hi. */
  ghost predicate Tight(
    baseline: seq<real>, candidate: seq<real>, lo: real, hi: real, draws: Draws)
    requires |baseline| == |candidate| && Positive(candidate) && baseline != []
    requires DrawsFor(draws, |baseline|) && Median(candidate) > 0.0
  {
    var ratios := SessionRatios(baseline, candidate);
    var interval := BootstrapInterval(ratios, draws);
    && Bounded(ratios, lo, hi)
    && lo <= Median(baseline) / Median(candidate) <= hi
    && lo <= Median(ratios) <= hi
    && interval.Some?
    && lo <= interval.value.lower <= interval.value.upper <= hi
  }

  /** When both spreads are at most p percent and r = 1 + p/100, all these quantities
      lie in one interval whose ends differ by the factor r squared. */
  lemma StableComparisonIsTight(
    baseline: seq<real>, candidate: seq<real>, p: real, r: real, draws: Draws)
    returns (lo: real, hi: real)
    requires StableWithin(baseline, candidate, p) && |baseline| >= 2
    requires DrawsFor(draws, |baseline|) && r == 1.0 + p / 100.0
    ensures Positive(baseline) && Positive(candidate) && Median(candidate) > 0.0
    ensures r >= 1.0 && lo > 0.0 && hi == lo * (r * r)
    ensures Tight(baseline, candidate, lo, hi, draws)
  {
    hide Median, Tight, SessionRatios, SessionSpreadPercent;
    var m, n := Minimum(baseline), Minimum(candidate);
    var m' := SpreadBoundsSessions(baseline, p, r);
    var n' := SpreadBoundsSessions(candidate, p, r);
    lo, hi := EndsDifferBySquare(m, m', n, n', r);
    TightBetween(baseline, candidate, m, m', n, n', lo, hi, draws);
  }

  /** A stable comparison of two different sources whose ratio of medians is at least
      1.01 times r squared is reported as improved, for every draw matrix. */
  lemma ClearlyFasterAndStableIsImproved(
    baseline: seq<real>, candidate: seq<real>, maxSpread: real, r: real, draws: Draws)
    requires StableWithin(baseline, candidate, maxSpread) && |baseline| >= 5
    requires DrawsFor(draws, |baseline|) && Positive(baseline) && Positive(candidate)
    requires r == 1.0 + maxSpread / 100.0 && Median(candidate) != 0.0
    requires Median(baseline) / Median(candidate) >= 1.01 * (r * r)
    ensures Classify(Confirmation, true,
              Compare(false, baseline, candidate, Confirmation, maxSpread, draws)) == Improved
  {
    var lo, hi := StableComparisonIsTight(baseline, candidate, maxSpread, r, draws);
    SquareBound(lo, hi, r);
    TightAndFastIsImproved(baseline, candidate, maxSpread, lo, hi, draws);
  }

  lemma SquareBound(lo: real, hi: real, r: real)
    requires r >= 1.0 && hi == lo * (r * r) && 1.01 * (r * r) <= hi
    ensures lo >= 1.01
  {
    var square := r * r;
    Scale(r, 1.0, r);
    assert square * 1.01 == 1.01 * square && square * lo == lo * square;
    Cancel(square, 1.01, lo);
  }

  lemma TightAndFastIsImproved(
    baseline: seq<real>, candidate: seq<real>, maxSpread: real, lo: real, hi: real, draws: Draws)
    requires StableWithin(baseline, candidate, maxSpread) && |baseline| >= 5
    requires DrawsFor(draws, |baseline|) && Positive(baseline) && Positive(candidate)
    requires Median(candidate) > 0.0 && lo >= 1.01 && Tight(baseline, candidate, lo, hi, draws)
    ensures Classify(Confirmation, true,
              Compare(false, baseline, candidate, Confirmation, maxSpread, draws)) == Improved
  {
    RatiosAgree(baseline, candidate);
    MateriallyFasterSessionsPass(Latencies(baseline), Latencies(candidate),
                                 MINIMUM_SESSIONS, MINIMUM_SPEEDUP, draws);
  }

  /** Improved is reported exactly for a stable, formally valid confirmation whose paired
      sessions are never slower and whose gate passes; then at least 9751 of the 10000
      rows draw sessions whose median ratio exceeds 1. */
  lemma ImprovedExactlyWhen(
    sameSource: bool, baseline: seq<real>, candidate: seq<real>,
    phase: Phase, maxSpread: real, stable: bool, draws: Draws)
    requires Positive(baseline) && Positive(candidate)
    requires DrawsFor(draws, |baseline|) && |draws| == RESAMPLES
    ensures Classify(phase, stable, Compare(sameSource, baseline, candidate, phase, maxSpread, draws)) == Improved
            <==>
            && phase == Confirmation && stable && |baseline| == |candidate| && |baseline| >= 5
            && StableWithin(baseline, candidate, maxSpread)
            && Pointwise(candidate, baseline)
            && var ratios := SessionRatios(baseline, candidate);
               && Median(candidate) != 0.0
               && (sameSource ==> 0.95 <= Median(baseline) / Median(candidate) <= 1.05)
               && Median(ratios) >= 1.01
               && Votes(ratios, draws, 1.0) >= 9751
  {
    hide Median, EvaluateGate, SessionSpreadPercent, Votes;
    if |baseline| == |candidate| && baseline != [] {
      NotSlowerExactlyWhen(baseline, candidate);
      RatiosAgree(baseline, candidate);
      GatePassesExactlyWhen(Latencies(baseline), Latencies(candidate),
                            MINIMUM_SESSIONS, MINIMUM_SPEEDUP, draws);
      MedianPositive(candidate);
    }
  }

  /** A comparison is formally valid when both spreads are in bounds and a source that is
      compared with itself comes out even. */
  ghost predicate FormallyValid(sameSource: bool, baseline: seq<real>, candidate: seq<real>, maxSpread: real)
    requires candidate != [] && baseline != [] && Median(candidate) != 0.0
  {
    && WithinFactor(baseline, 1.0 + maxSpread / 100.0) && WithinFactor(candidate, 1.0 + maxSpread / 100.0)
    && (sameSource ==> 0.95 <= Median(baseline) / Median(candidate) <= 1.05)
  }

  /** The outcome of a comparison of paired sessions: inconclusive exactly when it is not
      stable or not formally valid, completed exactly for the other ones of the discovery
      phase, and in the confirmation phase no improvement exactly when some session is
      slower or the gate fails. */
  lemma OutcomeExactlyWhen(
    sameSource: bool, baseline: seq<real>, candidate: seq<real>,
    phase: Phase, maxSpread: real, stable: bool, draws: Draws)
    requires Positive(baseline) && Positive(candidate) && |baseline| == |candidate| && baseline != []
    requires DrawsFor(draws, |baseline|)
    ensures Median(candidate) != 0.0
    ensures var outcome :=
              Classify(phase, stable, Compare(sameSource, baseline, candidate, phase, maxSpread, draws));
            var valid := stable && FormallyValid(sameSource, baseline, candidate, maxSpread);
            var improved := Pointwise(candidate, baseline) && GatePasses(baseline, candidate, draws);
            && (outcome == Inconclusive <==> !valid)
            && (outcome == Completed <==> valid && phase == Discovery)
            && (outcome == Improved <==> valid && phase == Confirmation && improved)
            && (outcome == NoImprovement <==> valid && phase == Confirmation && !improved)
  {
    MedianPositive(candidate);
    NotSlowerExactlyWhen(baseline, candidate);
    SpreadExactlyWhen(baseline, maxSpread);
    SpreadExactlyWhen(candidate, maxSpread);
    RatiosAgree(baseline, candidate);
    GatePassesExactlyWhen(Latencies(baseline), Latencies(candidate), MINIMUM_SESSIONS, MINIMUM_SPEEDUP, draws);
  }

  /** What the gate asks of the sessions, besides being positive. */
  ghost predicate GatePasses(baseline: seq<real>, candidate: seq<real>, draws: Draws)
    requires |baseline| == |candidate| && Positive(candidate) && DrawsFor(draws, |baseline|)
  {
    && |baseline| >= 5
    && var ratios := SessionRatios(baseline, candidate);
       Median(ratios) >= 1.01 && Votes(ratios, draws, 1.0) >= |draws| - LowerIndex(|draws|)
  }

  /** Without a comparison a stable run is completed in either phase. */
  lemma SingleVariantOutcome(phase: Phase, stable: bool)
    ensures Classify(phase, stable, None) == if stable then Completed else Inconclusive
  {
  }

  /** A comparison exists exactly for paired sessions, and reports the ratio of the medians
      and the paired ratios. */
  lemma CompareMeans(
    sameSource: bool, baseline: seq<real>, candidate: seq<real>,
    phase: Phase, maxSpread: real, draws: Draws)
    requires Positive(baseline) && Positive(candidate) && DrawsFor(draws, |baseline|)
    ensures var c := Compare(sameSource, baseline, candidate, phase, maxSpread, draws);
            && (c.Some? <==> |baseline| == |candidate| && baseline != [])
            && (c.Some? ==>
                  && Times(c.value.speedup, Median(candidate)) == Median(baseline)
                  && |c.value.sessionSpeedups| == |baseline|
                  && (forall i :: 0 <= i < |baseline| ==> c.value.sessionSpeedups[i] * candidate[i] == baseline[i])
                  && (c.value.allSessionsNotSlower <==> Pointwise(candidate, baseline)))
  {
    hide Median, EvaluateGate, SessionSpreadPercent;
    SpreadExactlyWhen(baseline, 0.0);
    SpreadExactlyWhen(candidate, 0.0);
    if |baseline| == |candidate| && baseline != [] {
      MedianPositive(candidate);
      NotSlowerExactlyWhen(baseline, candidate);
    }
  }

  /** Its validity: stable within the bounds, with a self-check exactly when a source is
      compared with itself. */
  lemma ValidityMeans(
    sameSource: bool, baseline: seq<real>, candidate: seq<real>, speedup: real, maxSpread: real)
    ensures var v := ComparisonValidity(sameSource, baseline, candidate, speedup, maxSpread);
            && (v.Some? <==> |baseline| == |candidate| && baseline != [] && Positive(baseline) && Positive(candidate))
            && (v.Some? ==>
                  && (v.value.stable <==> && WithinFactor(baseline, 1.0 + maxSpread / 100.0)
                                          && WithinFactor(candidate, 1.0 + maxSpread / 100.0))
                  && (v.value.selfCheckPassed.Some? <==> sameSource)
                  && (sameSource ==> v.value.selfCheckPassed == Some(0.95 <= speedup <= 1.05))
                  && (v.value.formalValid <==> v.value.stable && (sameSource ==> 0.95 <= speedup <= 1.05)))
  {
    hide SessionSpreadPercent;
    SpreadExactlyWhen(baseline, maxSpread);
    SpreadExactlyWhen(candidate, maxSpread);
  }

  lemma NotSlowerExactlyWhen(baseline: seq<real>, candidate: seq<real>)
    requires |baseline| == |candidate| && Positive(baseline) && Positive(candidate)
    ensures var ratios := SessionRatios(baseline, candidate);
            (forall i :: 0 <= i < |ratios| ==> ratios[i] >= 1.0) <==> Pointwise(candidate, baseline)
  {
    var ratios := SessionRatios(baseline, candidate);
    forall i | 0 <= i < |ratios| ensures ratios[i] >= 1.0 <==> candidate[i] <= baseline[i] {
      AtLeastOne(baseline[i], candidate[i]);
    }
  }

  lemma AtLeastOne(b: real, c: real)
    requires c > 0.0
    ensures b / c >= 1.0 <==> c <= b
  {
    assert (b / c) * c == b;
    if c <= b { Cancel(c, 1.0, b / c); } else { Cancel(c, b / c, 1.0); }
  }

  // ----- latency summaries ---------------------------------------------------------

  datatype LatencySummary = LatencySummary(
    count: nat, median: real, p10: real, p90: real, min: real, max: real)

  /** The order-statistics part of `latency_summary`; `None` is its ValueError. */
  function Summarize(samples: seq<real>): Option<LatencySummary>
  {
    if samples == [] then None
    else
      PercentileLaws(samples, 0.1, 0.9);
      Some(LatencySummary(
        |samples|, Median(samples), PercentileOf(samples, 0.1).value, PercentileOf(samples, 0.9).value,
        Minimum(samples), Maximum(samples)))
  }

  lemma SummaryIsOrdered(samples: seq<real>)
    requires samples != []
    ensures var s := Summarize(samples).value;
            s.min <= s.p10 <= s.median <= s.p90 <= s.max
  {
    PercentileLaws(samples, 0.1, 0.5);
    PercentileLaws(samples, 0.5, 0.9);
  }

  /** v lies d tenths of the way through the ordered sample, between two neighbouring ranks
      in proportion to what is left of the way. */
  ghost predicate AtTenths(samples: seq<real>, d: nat, v: real)
    requires samples != []
  {
    var way := d * (|samples| - 1);
    BetweenRanks(samples, way / 10, (way + 9) / 10, (way % 10) as real / 10.0, v)
  }

  /** Each figure of a summary by ranks. */
  lemma SummaryByRanks(samples: seq<real>)
    ensures Summarize(samples).None? <==> samples == []
    ensures samples != [] ==>
            var s := Summarize(samples).value;
            && s.count == |samples|
            && HasRank(samples, 0, s.min) && HasRank(samples, |samples| - 1, s.max)
            && IsMedian(samples, s.median) && AtTenths(samples, 1, s.p10) && AtTenths(samples, 9, s.p90)
  {
    hide AtTenths, HasRank, IsMedian, PercentileOf, Median;
    if samples != [] {
      RankedExtremes(samples);
      SortedHasRank(samples, 0);
      SortedHasRank(samples, |samples| - 1);
      MedianIsMiddle(samples);
      PercentileAtTenths(samples, 1, 0.1);
      PercentileAtTenths(samples, 9, 0.9);
    }
  }

  lemma PercentileAtTenths(samples: seq<real>, d: nat, fraction: real)
    requires samples != [] && d < 10 && fraction == d as real / 10.0
    ensures PercentileOf(samples, fraction).Percentile? && AtTenths(samples, d, PercentileOf(samples, fraction).value)
  {
    hide PercentileOf, HasRank, Share;
    var last := |samples| - 1;
    var way := d * last;
    var k, w := way / 10, (way % 10) as real / 10.0;
    if last == 0 {
      PercentileOfOne(samples, fraction);
    } else {
      TenthsAreShares(d, last, fraction);
      if way % 10 == 0 {
        PercentileAtRank(samples, k);
        RankIsBetween(samples, k, PercentileOf(samples, fraction).value);
      } else {
        PercentileIsLinear(samples, k, w);
      }
    }
  }

  lemma RankIsBetween(s: seq<real>, k: nat, v: real)
    requires HasRank(s, k, v)
    ensures BetweenRanks(s, k, k, 0.0, v)
  {
    assert v == v + Times(v - v, 0.0);
  }

  lemma PercentileOfOne(samples: seq<real>, fraction: real)
    requires |samples| == 1 && 0.0 <= fraction <= 1.0
    ensures PercentileOf(samples, fraction).Percentile?
    ensures BetweenRanks(samples, 0, 0, 0.0, PercentileOf(samples, fraction).value)
  {
    SortedHasRank(samples, 0);
    RankIsBetween(samples, 0, PercentileOf(samples, fraction).value);
  }

  lemma TenthsAreShares(d: nat, last: nat, fraction: real)
    requires d < 10 && last > 0 && fraction == d as real / 10.0
    ensures var way := d * last;
            && way / 10 < last
            && Share((way / 10) as real + (way % 10) as real / 10.0, last) == fraction
  {
    var way := d * last;
    var part := (way / 10) as real + (way % 10) as real / 10.0;
    assert part == way as real / 10.0 == Times(fraction, last as real);
    assert Share(part, last) == fraction;
  }
}
