/** The formal performance gate: session ratios, their bootstrap interval and the decision. */
module PerformanceGate {
  // The interval is a percentile interval over the medians of resamples.
  //
  // The random generator is an arbitrary matrix of indices, one row per resample.
  // The indices depend on the sample size only, so one matrix serves every sample of
  // that size and each statement below holds for every matrix.

  import opened Reals
  import opened Sequences
  import opened OrderStatistics

  const RESAMPLES: nat := 10000
  const MINIMUM_SESSIONS := 5
  const MINIMUM_SPEEDUP := 1.01

  datatype Latency = Finite(us: real) | NonFinite

  predicate Unusable(l: Latency) { l.NonFinite? || l.us <= 0.0 }

  predicate Usable(s: seq<Latency>) { forall i :: 0 <= i < |s| ==> !Unusable(s[i]) }

  type Draws = seq<seq<nat>>

  /** Every row draws n indices into a sample of size n. */
  predicate DrawsFor(draws: Draws, n: nat) {
    && draws != []
    && forall i :: 0 <= i < |draws| ==> RowFor(draws[i], n)
  }

  predicate RowFor(row: seq<nat>, n: nat) {
    |row| == n && forall j :: 0 <= j < n ==> row[j] < n
  }

  function Resample(s: seq<real>, row: seq<nat>): seq<real>
    requires RowFor(row, |s|)
  {
    seq(|row|, j requires 0 <= j < |row| => s[row[j]])
  }

  /** The median of every resample, in the order drawn. */
  function Estimates(s: seq<real>, draws: Draws): (e: seq<real>)
    requires s != [] && DrawsFor(draws, |s|)
  {
    seq(|draws|, i requires 0 <= i < |draws| => Median(Resample(s, draws[i])))
  }

  /** `int(0.025 * (n - 1))` and `int(0.975 * (n - 1))`. */
  function LowerIndex(n: nat): (k: nat)
    requires n > 0
    ensures k < n && 40 * k <= n - 1 < 40 * (k + 1)
  {
    (n - 1) / 40
  }

  function UpperIndex(n: nat): (k: nat)
    requires n > 0
    ensures k < n && 40 * k <= 39 * (n - 1) < 40 * (k + 1)
  {
    39 * (n - 1) / 40
  }

  datatype Interval = Interval(lower: real, upper: real)

  function BootstrapInterval(speedups: seq<real>, draws: Draws): Option<Interval>
    requires DrawsFor(draws, |speedups|)
  {
    if |speedups| < 2 then None else
      var e := Sorted(Estimates(speedups, draws));
      Some(Interval(e[LowerIndex(|e|)], e[UpperIndex(|e|)]))
  }

  datatype Reason = NotPaired | TooFewSessions | UnusableBaseline | UnusableCandidate | BelowThreshold

  datatype GateResult = GateResult(
    passed: bool,
    medianSpeedup: Option<real>,
    interval: Option<Interval>,
    sessionSpeedups: seq<real>,
    reason: Option<Reason>)

  /** `StatisticsError` is the exception that the median of no sessions raises. */
  datatype GateOutcome = Evaluated(result: GateResult) | StatisticsError

  function Refused(reason: Reason): GateOutcome {
    Evaluated(GateResult(false, None, None, [], Some(reason)))
  }

  function Ratios(baseline: seq<Latency>, candidate: seq<Latency>): (r: seq<real>)
    requires |baseline| == |candidate| && Usable(baseline) && Usable(candidate)
    ensures |r| == |baseline|
    ensures forall i :: 0 <= i < |r| ==> r[i] * candidate[i].us == baseline[i].us
  {
    seq(|baseline|, i requires 0 <= i < |baseline| => baseline[i].us / candidate[i].us)
  }

  function EvaluateGate(
    baseline: seq<Latency>, candidate: seq<Latency>,
    minimumSessions: int, minimumSpeedup: real, draws: Draws): GateOutcome
    requires DrawsFor(draws, |baseline|)
  {
    if |baseline| != |candidate| then Refused(NotPaired)
    else if |baseline| < minimumSessions then Refused(TooFewSessions)
    else if !Usable(baseline) then Refused(UnusableBaseline)
    else if !Usable(candidate) then Refused(UnusableCandidate)
    else
      var speedups := Ratios(baseline, candidate);
      var interval := BootstrapInterval(speedups, draws);
      if speedups == [] then StatisticsError
      else
        var median := Median(speedups);
        var passed := median >= minimumSpeedup && interval.Some? && interval.value.lower > 1.0;
        Evaluated(GateResult(passed, Some(median), interval, speedups,
                             if passed then None else Some(BelowThreshold)))
  }

  predicate Passes(outcome: GateOutcome) { outcome.Evaluated? && outcome.result.passed }

  // ----- the interval ------------------------------------------------------------

  lemma EstimatesBounded(s: seq<real>, draws: Draws, lo: real, hi: real)
    requires s != [] && DrawsFor(draws, |s|) && Bounded(s, lo, hi)
    ensures Bounded(Estimates(s, draws), lo, hi)
  {
    forall i | 0 <= i < |draws| ensures lo <= Estimates(s, draws)[i] <= hi {
      MedianBounded(Resample(s, draws[i]), lo, hi);
    }
  }

  lemma IntervalBounded(s: seq<real>, draws: Draws, lo: real, hi: real)
    requires |s| >= 2 && DrawsFor(draws, |s|) && Bounded(s, lo, hi)
    ensures BootstrapInterval(s, draws).Some?
    ensures var i := BootstrapInterval(s, draws).value; lo <= i.lower <= i.upper <= hi
  {
    var e := Estimates(s, draws);
    EstimatesBounded(s, draws, lo, hi);
    SortedBounded(e, lo, hi);
    SortedIsAscending(e);
  }

  /** The interval lies within the range of the sessions, and it covers the resample
      medians as its percentiles promise. */
  lemma IntervalCoverage(s: seq<real>, draws: Draws)
    requires |s| >= 2 && DrawsFor(draws, |s|)
    ensures BootstrapInterval(s, draws).Some?
    ensures var Interval(lower, upper) := BootstrapInterval(s, draws).value;
            var e := Estimates(s, draws);
            && Minimum(s) <= lower <= upper <= Maximum(s)
            && Count(e, AtLeast(lower)) >= |e| - LowerIndex(|e|)
            && Count(e, AtLeast(upper)) >= |e| - UpperIndex(|e|)
            && Count(e, Within(lower, upper)) >= UpperIndex(|e|) - LowerIndex(|e|) + 1
            && (|draws| == RESAMPLES ==>
                  && Count(e, AtLeast(lower)) >= 9751 && Count(e, AtLeast(upper)) >= 251
                  && Count(e, Within(lower, upper)) >= 9501)
  {
    Extremes(s);
    IntervalBounded(s, draws, Minimum(s), Maximum(s));
    var e := Estimates(s, draws);
    Coverage(e, LowerIndex(|e|), UpperIndex(|e|));
    Coverage(e, UpperIndex(|e|), UpperIndex(|e|));
  }

  // ----- what the draws decide ------------------------------------------------------

  /** The values that a row draws from the sessions. */
  ghost predicate Drawn(s: seq<real>, row: seq<nat>, sample: seq<real>)
    requires RowFor(row, |s|)
  {
    |sample| == |row| && forall j :: 0 <= j < |row| ==> sample[j] == s[row[j]]
  }

  /** The row draws sessions whose median is above x. */
  ghost predicate RowExceeds(s: seq<real>, row: seq<nat>, x: real)
    requires RowFor(row, |s|)
  {
    exists sample, m :: Drawn(s, row, sample) && IsMedian(sample, m) && m > x
  }

  /** The number of rows that do so. */
  ghost function Votes(s: seq<real>, draws: Draws, x: real): nat
    requires DrawsFor(draws, |s|)
  {
    |set i | 0 <= i < |draws| && RowExceeds(s, draws[i], x)|
  }

  /** The row draws a session above x more often than not. */
  ghost predicate RowMajority(s: seq<real>, row: seq<nat>, x: real)
    requires RowFor(row, |s|)
  {
    2 * |set j | 0 <= j < |row| && s[row[j]] > x| > |row|
  }

  lemma RowExceedsWhen(s: seq<real>, row: seq<nat>, x: real)
    requires s != [] && RowFor(row, |s|)
    ensures RowExceeds(s, row, x) <==> Median(Resample(s, row)) > x
  {
    var drawn := Resample(s, row);
    MedianIsMiddle(drawn);
    assert Drawn(s, row, drawn);
    if RowExceeds(s, row, x) {
      var sample, m :| Drawn(s, row, sample) && IsMedian(sample, m) && m > x;
      assert sample == drawn;
    }
  }

  /** With an odd number of sessions the median of a row is a matter of its majority. */
  lemma OddRowsVote(s: seq<real>, row: seq<nat>, x: real)
    requires |s| % 2 == 1 && RowFor(row, |s|)
    ensures RowExceeds(s, row, x) <==> RowMajority(s, row, x)
  {
    var drawn := Resample(s, row);
    RowExceedsWhen(s, row, x);
    MedianByMajority(drawn, x);
    assert (set j | 0 <= j < |drawn| && drawn[j] > x) == set j | 0 <= j < |row| && s[row[j]] > x;
  }

  lemma VotesAreCounted(s: seq<real>, draws: Draws, x: real)
    requires s != [] && DrawsFor(draws, |s|)
    ensures Votes(s, draws, x) == Count(Estimates(s, draws), Above(x))
  {
    var e := Estimates(s, draws);
    SizeAbove(e, x);
    forall i | 0 <= i < |draws| ensures e[i] > x <==> RowExceeds(s, draws[i], x) {
      RowExceedsWhen(s, draws[i], x);
    }
    assert (set i | 0 <= i < |draws| && RowExceeds(s, draws[i], x)) == set i | 0 <= i < |e| && e[i] > x;
  }

  lemma OddVotes(s: seq<real>, draws: Draws, x: real)
    requires |s| % 2 == 1 && DrawsFor(draws, |s|)
    ensures Votes(s, draws, x) == |set i | 0 <= i < |draws| && RowMajority(s, draws[i], x)|
  {
    forall i | 0 <= i < |draws| ensures RowExceeds(s, draws[i], x) <==> RowMajority(s, draws[i], x) {
      OddRowsVote(s, draws[i], x);
    }
    assert (set i | 0 <= i < |draws| && RowExceeds(s, draws[i], x))
        == set i | 0 <= i < |draws| && RowMajority(s, draws[i], x);
  }

  /** Each bound exceeds x exactly when enough rows draw sessions whose median does: all
      but a fortieth of them for the lower bound, and a fortieth for the upper one. */
  ghost predicate BoundsAt(s: seq<real>, draws: Draws, i: Interval, x: real)
    requires DrawsFor(draws, |s|)
  {
    && (i.lower > x <==> Votes(s, draws, x) >= |draws| - LowerIndex(|draws|))
    && (i.upper > x <==> Votes(s, draws, x) >= |draws| - UpperIndex(|draws|))
  }

  lemma BoundsExceed(s: seq<real>, draws: Draws, x: real)
    requires |s| >= 2 && DrawsFor(draws, |s|)
    ensures BootstrapInterval(s, draws).Some?
    ensures BoundsAt(s, draws, BootstrapInterval(s, draws).value, x)
    ensures |draws| == RESAMPLES ==>
      && (BootstrapInterval(s, draws).value.lower > x <==> Votes(s, draws, x) >= 9751)
      && (BootstrapInterval(s, draws).value.upper > x <==> Votes(s, draws, x) >= 251)
  {
    var e := Estimates(s, draws);
    VotesAreCounted(s, draws, x);
    Rank(e, LowerIndex(|e|), x);
    Rank(e, UpperIndex(|e|), x);
    CountSplit(e, x);
  }

  /** The bounds are the only ones with this property. */
  lemma BoundsAreUnique(s: seq<real>, draws: Draws, i: Interval)
    requires |s| >= 2 && DrawsFor(draws, |s|)
    ensures BootstrapInterval(s, draws) == Some(i) <==> forall x :: BoundsAt(s, draws, i, x)
  {
    var b := BootstrapInterval(s, draws).value;
    forall x ensures BoundsAt(s, draws, b, x) { BoundsExceed(s, draws, x); }
    if forall x :: BoundsAt(s, draws, i, x) {
      assert BoundsAt(s, draws, b, i.lower) && BoundsAt(s, draws, i, i.lower);
      assert BoundsAt(s, draws, b, b.lower) && BoundsAt(s, draws, i, b.lower);
      assert BoundsAt(s, draws, b, i.upper) && BoundsAt(s, draws, i, i.upper);
      assert BoundsAt(s, draws, b, b.upper) && BoundsAt(s, draws, i, b.upper);
    }
  }

  /** When every row draws one and the same session throughout, both bounds are its ratio. */
  lemma ConstantDraws(s: seq<real>, draws: Draws, k: nat)
    requires |s| >= 2 && DrawsFor(draws, |s|) && k < |s|
    requires forall i :: 0 <= i < |draws| ==> draws[i] == seq(|s|, _ => k)
    ensures BootstrapInterval(s, draws) == Some(Interval(s[k], s[k]))
  {
    forall i | 0 <= i < |draws| ensures Estimates(s, draws)[i] == s[k] {
      MedianBounded(Resample(s, draws[i]), s[k], s[k]);
    }
    SortedBounded(Estimates(s, draws), s[k], s[k]);
  }

  // ----- the decision -----------------------------------------------------------

  /** The gate passes exactly when the sessions are paired, sufficient and usable, the
      median ratio reaches the threshold and enough rows draw sessions whose median ratio
      exceeds 1. */
  lemma GatePassesExactlyWhen(
    baseline: seq<Latency>, candidate: seq<Latency>,
    minimumSessions: int, minimumSpeedup: real, draws: Draws)
    requires DrawsFor(draws, |baseline|)
    ensures Passes(EvaluateGate(baseline, candidate, minimumSessions, minimumSpeedup, draws)) <==>
            && |baseline| == |candidate|
            && |baseline| >= 2 && |baseline| >= minimumSessions
            && Usable(baseline) && Usable(candidate)
            && var r := Ratios(baseline, candidate);
               && Median(r) >= minimumSpeedup
               && Votes(r, draws, 1.0) >= |draws| - LowerIndex(|draws|)
  {
    if |baseline| == |candidate| && Usable(baseline) && Usable(candidate) && |baseline| >= 2 {
      BoundsExceed(Ratios(baseline, candidate), draws, 1.0);
    }
  }

  /** With the shipped 10000 resamples a pass means that at least 9751 rows draw sessions
      whose median ratio exceeds 1. */
  lemma PassMeans9751(baseline: seq<Latency>, candidate: seq<Latency>, draws: Draws)
    requires DrawsFor(draws, |baseline|) && |draws| == RESAMPLES
    requires Passes(EvaluateGate(baseline, candidate, MINIMUM_SESSIONS, MINIMUM_SPEEDUP, draws))
    ensures |baseline| == |candidate| >= 5 && Usable(baseline) && Usable(candidate)
    ensures Median(Ratios(baseline, candidate)) >= 1.01
    ensures Votes(Ratios(baseline, candidate), draws, 1.0) >= 9751
  {
    GatePassesExactlyWhen(baseline, candidate, MINIMUM_SESSIONS, MINIMUM_SPEEDUP, draws);
  }

  /** The baseline takes at least m times as long as the candidate. */
  predicate Reaches(baseline: Latency, candidate: Latency, m: real)
    requires baseline.Finite? && candidate.Finite?
  {
    baseline.us >= m * candidate.us
  }

  /** The number of sessions in which it does. */
  ghost function SessionsReaching(baseline: seq<Latency>, candidate: seq<Latency>, m: real): nat
    requires |baseline| == |candidate| && Usable(baseline) && Usable(candidate)
  {
    |set i | 0 <= i < |baseline| && Reaches(baseline[i], candidate[i], m)|
  }

  /** More than half of the sessions that the row draws have a faster candidate. */
  ghost predicate RowFaster(baseline: seq<Latency>, candidate: seq<Latency>, row: seq<nat>)
    requires |baseline| == |candidate| && Usable(baseline) && Usable(candidate) && RowFor(row, |baseline|)
  {
    2 * |set j | 0 <= j < |row| && baseline[row[j]].us > candidate[row[j]].us| > |row|
  }

  /** With an odd number of sessions the gate is two votes on the measured latencies: most
      sessions reach the threshold, and in enough rows most of the drawn sessions are
      faster. */
  ghost predicate Outvotes(baseline: seq<Latency>, candidate: seq<Latency>, minimumSpeedup: real, draws: Draws)
    requires |baseline| == |candidate| && Usable(baseline) && Usable(candidate) && DrawsFor(draws, |baseline|)
  {
    && 2 * SessionsReaching(baseline, candidate, minimumSpeedup) > |baseline|
    && |set i | 0 <= i < |draws| && RowFaster(baseline, candidate, draws[i])| >= |draws| - LowerIndex(|draws|)
  }

  lemma GateIsAVote(
    baseline: seq<Latency>, candidate: seq<Latency>,
    minimumSessions: int, minimumSpeedup: real, draws: Draws)
    requires DrawsFor(draws, |baseline|) && |baseline| % 2 == 1
    ensures Passes(EvaluateGate(baseline, candidate, minimumSessions, minimumSpeedup, draws)) <==>
            && |baseline| == |candidate| && |baseline| >= 3 && |baseline| >= minimumSessions
            && Usable(baseline) && Usable(candidate)
            && Outvotes(baseline, candidate, minimumSpeedup, draws)
  {
    GatePassesExactlyWhen(baseline, candidate, minimumSessions, minimumSpeedup, draws);
    if |baseline| == |candidate| && Usable(baseline) && Usable(candidate) {
      var r := Ratios(baseline, candidate);
      ReachingIsMajority(baseline, candidate, minimumSpeedup);
      OddVotes(r, draws, 1.0);
      forall i | 0 <= i < |draws|
        ensures RowMajority(r, draws[i], 1.0) <==> RowFaster(baseline, candidate, draws[i])
      {
        FasterIsMajority(baseline, candidate, draws[i]);
      }
      assert (set i | 0 <= i < |draws| && RowMajority(r, draws[i], 1.0))
          == set i | 0 <= i < |draws| && RowFaster(baseline, candidate, draws[i]);
    }
  }

  /** With five sessions and the shipped constants: at least three sessions reach 1.01, and at
      least 9751 rows draw faster sessions at least three times. */
  lemma FiveSessionsPassExactlyWhen(baseline: seq<Latency>, candidate: seq<Latency>, draws: Draws)
    requires |baseline| == |candidate| == 5 && DrawsFor(draws, 5) && |draws| == RESAMPLES
    ensures Passes(EvaluateGate(baseline, candidate, MINIMUM_SESSIONS, MINIMUM_SPEEDUP, draws)) <==>
            && Usable(baseline) && Usable(candidate)
            && SessionsReaching(baseline, candidate, 1.01) >= 3
            && |set i | 0 <= i < |draws| && RowFaster(baseline, candidate, draws[i])| >= 9751
  {
    GateIsAVote(baseline, candidate, MINIMUM_SESSIONS, MINIMUM_SPEEDUP, draws);
  }

  lemma ReachingIsMajority(baseline: seq<Latency>, candidate: seq<Latency>, m: real)
    requires |baseline| == |candidate| && Usable(baseline) && Usable(candidate) && |baseline| % 2 == 1
    ensures Median(Ratios(baseline, candidate)) >= m <==> 2 * SessionsReaching(baseline, candidate, m) > |baseline|
  {
    hide Reaches, Median;
    var r := Ratios(baseline, candidate);
    MedianByMajority(r, m);
    forall i | 0 <= i < |r| ensures r[i] >= m <==> Reaches(baseline[i], candidate[i], m) {
      LatencyReaches(r[i], baseline[i], candidate[i], m);
    }
    assert (set i | 0 <= i < |r| && r[i] >= m)
        == set i | 0 <= i < |baseline| && Reaches(baseline[i], candidate[i], m);
  }

  lemma FasterIsMajority(baseline: seq<Latency>, candidate: seq<Latency>, row: seq<nat>)
    requires |baseline| == |candidate| && Usable(baseline) && Usable(candidate) && RowFor(row, |baseline|)
    ensures RowMajority(Ratios(baseline, candidate), row, 1.0) <==> RowFaster(baseline, candidate, row)
  {
    var r := Ratios(baseline, candidate);
    forall j | 0 <= j < |row| ensures r[row[j]] > 1.0 <==> baseline[row[j]].us > candidate[row[j]].us {
      RatioReaches(r[row[j]], candidate[row[j]].us, baseline[row[j]].us, 1.0);
    }
    assert (set j | 0 <= j < |row| && r[row[j]] > 1.0)
        == set j | 0 <= j < |row| && baseline[row[j]].us > candidate[row[j]].us;
  }

  lemma LatencyReaches(r: real, baseline: Latency, candidate: Latency, m: real)
    requires baseline.Finite? && candidate.Finite? && candidate.us > 0.0 && r * candidate.us == baseline.us
    ensures r >= m <==> Reaches(baseline, candidate, m)
  {
    RatioReaches(r, candidate.us, baseline.us, m);
  }

  lemma RatioMonotone(b: real, c: real, b': real, c': real)
    requires 0.0 < b <= b' && 0.0 < c' <= c
    ensures b / c <= b' / c'
  {
    assert b * c' <= b' * c by {
      Scale(c', b, b');
      Scale(b', c', c);
    }
    var x, y := b / c, b' / c';
    assert x * c == b && y * c' == b';
    assert c * c' * x == b * c' && c * c' * y == b' * c;
    Cancel(c * c', x, y);
  }

  lemma Cancel(p: real, x: real, y: real)
    requires p > 0.0 && p * x <= p * y
    ensures x <= y
  {
    assert p * (y - x) >= 0.0;
  }

  lemma EstimatesMonotone(s: seq<real>, t: seq<real>, draws: Draws)
    requires s != [] && Pointwise(s, t) && DrawsFor(draws, |s|)
    ensures Pointwise(Estimates(s, draws), Estimates(t, draws))
  {
    forall i | 0 <= i < |draws| ensures Estimates(s, draws)[i] <= Estimates(t, draws)[i] {
      MedianMonotone(Resample(s, draws[i]), Resample(t, draws[i]));
    }
  }

  ghost predicate NoSlower(a: seq<Latency>, b: seq<Latency>) {
    |a| == |b| && forall i :: 0 <= i < |a| ==> a[i].Finite? && b[i].Finite? && a[i].us <= b[i].us
  }

  /** For every draw matrix: making candidate sessions faster or baseline sessions
      slower never turns a pass into a failure. */
  lemma GateMonotone(
    baseline: seq<Latency>, candidate: seq<Latency>,
    baseline': seq<Latency>, candidate': seq<Latency>,
    minimumSessions: int, minimumSpeedup: real, draws: Draws)
    requires DrawsFor(draws, |baseline|)
    requires NoSlower(baseline, baseline') && NoSlower(candidate', candidate) && Usable(candidate')
    requires Passes(EvaluateGate(baseline, candidate, minimumSessions, minimumSpeedup, draws))
    ensures Passes(EvaluateGate(baseline', candidate', minimumSessions, minimumSpeedup, draws))
  {
    var r, r' := Ratios(baseline, candidate), Ratios(baseline', candidate');
    forall i | 0 <= i < |r| ensures r[i] <= r'[i] {
      RatioMonotone(baseline[i].us, candidate[i].us, baseline'[i].us, candidate'[i].us);
    }
    MedianMonotone(r, r');
    EstimatesMonotone(r, r', draws);
    SortedMonotone(Estimates(r, draws), Estimates(r', draws), LowerIndex(|draws|));
  }

  /** Which refusal takes precedence; a reason is given exactly when the gate does not pass. */
  lemma GateReasons(
    baseline: seq<Latency>, candidate: seq<Latency>,
    minimumSessions: int, minimumSpeedup: real, draws: Draws)
    requires DrawsFor(draws, |baseline|)
    ensures var outcome := EvaluateGate(baseline, candidate, minimumSessions, minimumSpeedup, draws);
            && (outcome.StatisticsError? <==> baseline == [] && candidate == [] && minimumSessions <= 0)
            && (outcome.Evaluated? ==>
                  && (outcome.result.passed <==> outcome.result.reason.None?)
                  && (outcome.result.reason == Some(NotPaired) <==> |baseline| != |candidate|)
                  && (outcome.result.reason == Some(TooFewSessions)
                      <==> |baseline| == |candidate| && |baseline| < minimumSessions)
                  && (outcome.result.reason == Some(UnusableBaseline)
                      <==> |baseline| == |candidate| && |baseline| >= minimumSessions && HasUnusable(baseline))
                  && (outcome.result.reason == Some(UnusableCandidate)
                      <==> && |baseline| == |candidate| && |baseline| >= minimumSessions
                           && !HasUnusable(baseline) && HasUnusable(candidate)))
  {
    hide BootstrapInterval, Median;
  }

  /** The measured part of the report. */
  lemma GateMeasures(
    baseline: seq<Latency>, candidate: seq<Latency>,
    minimumSessions: int, minimumSpeedup: real, draws: Draws)
    requires DrawsFor(draws, |baseline|)
    requires EvaluateGate(baseline, candidate, minimumSessions, minimumSpeedup, draws).Evaluated?
    ensures ReportsRatios(EvaluateGate(baseline, candidate, minimumSessions, minimumSpeedup, draws).result,
                          baseline, candidate, draws)
  {
    hide BootstrapInterval, Median, BoundsAt, IsMedian;
    if |baseline| == |candidate| && Usable(baseline) && Usable(candidate) && baseline != [] {
      var r := Ratios(baseline, candidate);
      MedianIsMiddle(r);
      IntervalIsDecided(r, draws);
    }
  }

  lemma IntervalIsDecided(s: seq<real>, draws: Draws)
    requires DrawsFor(draws, |s|)
    ensures BootstrapInterval(s, draws).Some? <==> |s| >= 2
    ensures |s| >= 2 ==> forall x :: BoundsAt(s, draws, BootstrapInterval(s, draws).value, x)
  {
    if |s| >= 2 { BoundsAreUnique(s, draws, BootstrapInterval(s, draws).value); }
  }

  ghost predicate HasUnusable(s: seq<Latency>) {
    exists i :: 0 <= i < |s| && (s[i].NonFinite? || s[i].us <= 0.0)
  }

  /** A measured result has the ratios of the sessions, their median and, for two sessions
      or more, the bounds that the draws decide; a refused one has none of them. */
  ghost predicate ReportsRatios(
    result: GateResult, baseline: seq<Latency>, candidate: seq<Latency>, draws: Draws)
    requires DrawsFor(draws, |baseline|)
  {
    var s := result.sessionSpeedups;
    if result.passed || result.reason == Some(BelowThreshold) then
      && |s| == |baseline| == |candidate|
      && (forall i :: 0 <= i < |s| ==>
            baseline[i].Finite? && candidate[i].Finite? && s[i] * candidate[i].us == baseline[i].us)
      && result.medianSpeedup.Some? && IsMedian(s, result.medianSpeedup.value)
      && (result.interval.Some? <==> |s| >= 2)
      && (result.interval.Some? ==> forall x :: BoundsAt(s, draws, result.interval.value, x))
    else
      s == [] && result.medianSpeedup.None? && result.interval.None?
  }

  /** Sessions that are all materially faster always pass. */
  lemma MateriallyFasterSessionsPass(
    baseline: seq<Latency>, candidate: seq<Latency>,
    minimumSessions: int, minimumSpeedup: real, draws: Draws)
    requires DrawsFor(draws, |baseline|) && |baseline| == |candidate| && |baseline| >= 2
    requires |baseline| >= minimumSessions && minimumSpeedup > 1.0
    requires Usable(baseline) && Usable(candidate)
    requires forall i :: 0 <= i < |baseline| ==> Ratios(baseline, candidate)[i] >= minimumSpeedup
    ensures Passes(EvaluateGate(baseline, candidate, minimumSessions, minimumSpeedup, draws))
  {
    var r := Ratios(baseline, candidate);
    Extremes(r);
    MedianBounded(r, minimumSpeedup, Maximum(r));
    IntervalBounded(r, draws, minimumSpeedup, Maximum(r));
  }

  // ----- confirmation sessions ---------------------------------------------------

  datatype Program = Baseline | Candidate

  /** `runner(p, k)` is what the k-th call of the measuring process returns when it is
      asked to measure p. */
  type Runner = (Program, nat) -> seq<Latency>

  datatype Confirmation = Confirmed(gate: GateOutcome) | ProfilerUnavailable

  /** The program measured by the k-th call: the order alternates with the session. */
  function Measured(k: nat): Program {
    if (k / 2) % 2 == k % 2 then Baseline else Candidate
  }

  function CallOf(p: Program, session: nat): nat {
    2 * session + (if (p == Baseline) == (session % 2 == 0) then 0 else 1)
  }

  /** The sample that the runner delivers for a program in a session. */
  function SampleOf(runner: Runner, p: Program, session: nat): Latency {
    var values := runner(p, CallOf(p, session));
    if values == [] then NonFinite else values[0]
  }

  function SessionsOf(runner: Runner, p: Program, n: nat): (s: seq<Latency>)
    ensures |s| == n
  {
    if n == 0 then [] else SessionsOf(runner, p, n - 1) + [SampleOf(runner, p, n - 1)]
  }

  predicate OneValue(runner: Runner, k: nat) { |runner(Measured(k), k)| == 1 }

  /** The program that a session measures first. */
  function First(session: nat): Program { if session % 2 == 0 then Baseline else Candidate }

  function Other(p: Program): Program { if p == Baseline then Candidate else Baseline }

  lemma OrderOfSession(session: nat)
    ensures Measured(2 * session) == First(session) && Measured(2 * session + 1) == Other(First(session))
    ensures CallOf(First(session), session) == 2 * session
    ensures CallOf(Other(First(session)), session) == 2 * session + 1
  {
    assert (2 * session) / 2 == session && (2 * session) % 2 == 0;
    assert (2 * session + 1) / 2 == session && (2 * session + 1) % 2 == 1;
  }

  /** One call of the measuring process. */
  method MeasureOnce(runner: Runner, p: Program, session: nat, samples: seq<Latency>)
    returns (ok: bool, extended: seq<Latency>)
    ensures ok <==> |runner(p, CallOf(p, session))| == 1
    ensures ok ==> extended == samples + [SampleOf(runner, p, session)]
  {
    var values := runner(p, CallOf(p, session));
    ok, extended := |values| == 1, samples;
    if ok { extended := samples + [values[0]]; }
  }

  /** One session: both programs, in the order of the session. */
  method ConfirmSession(runner: Runner, session: nat, baseline: seq<Latency>, candidate: seq<Latency>)
    returns (ok: bool, baselineSamples: seq<Latency>, candidateSamples: seq<Latency>)
    ensures ok <==> OneValue(runner, 2 * session) && OneValue(runner, 2 * session + 1)
    ensures ok ==> baselineSamples == baseline + [SampleOf(runner, Baseline, session)]
    ensures ok ==> candidateSamples == candidate + [SampleOf(runner, Candidate, session)]
  {
    OrderOfSession(session);
    baselineSamples, candidateSamples := baseline, candidate;
    var order := [First(session), Other(First(session))];
    var measured: set<Program> := {};
    for position := 0 to 2
      invariant measured == if position == 0 then {} else if position == 1 then {order[0]} else {Baseline, Candidate}
      invariant position > 0 ==> OneValue(runner, 2 * session)
      invariant position > 1 ==> OneValue(runner, 2 * session + 1)
      invariant baselineSamples
                == if Baseline in measured then baseline + [SampleOf(runner, Baseline, session)] else baseline
      invariant candidateSamples
                == if Candidate in measured then candidate + [SampleOf(runner, Candidate, session)] else candidate
    {
      var program := order[position];
      if program == Baseline {
        ok, baselineSamples := MeasureOnce(runner, program, session, baselineSamples);
      } else {
        ok, candidateSamples := MeasureOnce(runner, program, session, candidateSamples);
      }
      if !ok { return; }
      measured := measured + {program};
    }
    ok := true;
  }

  method ConfirmSessions(runner: Runner, sessions: nat)
    returns (ok: bool, baselineSamples: seq<Latency>, candidateSamples: seq<Latency>)
    ensures ok <==> forall k: nat :: k < 2 * sessions ==> OneValue(runner, k)
    ensures ok ==> baselineSamples == SessionsOf(runner, Baseline, sessions)
    ensures ok ==> candidateSamples == SessionsOf(runner, Candidate, sessions)
  {
    ok, baselineSamples, candidateSamples := true, [], [];
    for session := 0 to sessions
      invariant ok && forall k: nat :: k < 2 * session ==> OneValue(runner, k)
      invariant baselineSamples == SessionsOf(runner, Baseline, session)
      invariant candidateSamples == SessionsOf(runner, Candidate, session)
    {
      ok, baselineSamples, candidateSamples := ConfirmSession(runner, session, baselineSamples, candidateSamples);
      if !ok { return; }
    }
  }

  /** `EventsProfilerBackend.confirm_pair`: whatever the alternation, session i of the
      baseline is paired with session i of the candidate. */
  method ConfirmPair(runner: Runner, sessions: nat, draws: Draws) returns (r: Confirmation)
    requires DrawsFor(draws, sessions)
    ensures r.Confirmed? <==> forall k: nat :: k < 2 * sessions ==> OneValue(runner, k)
    ensures r.Confirmed? ==>
      r.gate == EvaluateGate(SessionsOf(runner, Baseline, sessions),
                             SessionsOf(runner, Candidate, sessions),
                             sessions, MINIMUM_SPEEDUP, draws)
  {
    var ok, baselineSamples, candidateSamples := ConfirmSessions(runner, sessions);
    if !ok { return ProfilerUnavailable; }
    r := Confirmed(EvaluateGate(baselineSamples, candidateSamples, sessions, MINIMUM_SPEEDUP, draws));
  }
}
