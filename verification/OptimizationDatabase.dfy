/** The optimization database: running estimates of what each technique achieves. */
module OptimizationDatabase {
  import opened Reals
  import opened Sequences

  function Abs(x: real): real { if x >= 0.0 then x else -x }

  /** `int(x)`: truncation towards zero. */
  function Truncated(x: real): int { if x >= 0.0 then x.Floor else -((-x).Floor) }

  // ----- one update on values ----------------------------------------------------------

  /** Where an update takes its speedup from: nothing but the percentage, the baseline
      cycles read from a file, or a file that could not be read. */
  datatype SpeedupSource = NoFile | BaselineCycles(cycles: int) | Unreadable

  function InferredSpeedup(improvement: real): real {
    var denom := 1.0 - improvement / 100.0;
    var safe := if Abs(denom) < 0.000001 then (if denom >= 0.0 then 0.000001 else -0.000001) else denom;
    Abs(1.0 / safe)
  }

  /** The speedup that an update averages, and the one that it stores, if any. */
  function UsedSpeedup(source: SpeedupSource, improvement: real): real {
    match source
    case NoFile => InferredSpeedup(improvement)
    case BaselineCycles(cycles) =>
      var current := Truncated(improvement);
      if current <= 0 then 1.0 else Abs(cycles as real / current as real)
    case Unreadable => 1.0
  }

  predicate StoresSpeedup(source: SpeedupSource, improvement: real) {
    source.NoFile? || (source.BaselineCycles? && Truncated(improvement) > 0)
  }

  datatype Estimate = Estimate(
    usageCount: nat,
    predictedSpeedup: Option<real>,
    predictedImprovement: Option<real>,
    confidence: real,
    actualImprovement: Option<real>,
    actualSpeedup: Option<real>)

  function OrElse(x: Option<real>, default: real): real { if x.Some? then x.value else default }

  /** A mean over `count` values, extended by one more value. */
  function RunningMean(mean: real, count: nat, x: real): real {
    (mean * count as real + x) / (count + 1) as real
  }

  /** The prediction before the update, as the confidence rule recovers it from the
      prediction after it. */
  function RecoveredPrediction(newPrediction: real, improvement: real, previousUsage: nat): real {
    (newPrediction * (previousUsage + 1) as real - improvement)
      / (if previousUsage > 1 then previousUsage else 1) as real
  }

  function AdjustedConfidence(confidence: real, accuracy: real): real {
    if 0.8 <= accuracy <= 1.2
    then (if confidence + 0.1 <= 1.0 then confidence + 0.1 else 1.0)
    else (if confidence - 0.1 >= 0.1 then confidence - 0.1 else 0.1)
  }

  function Accuracy(improvement: real, prediction: real): real {
    if prediction != 0.0 then improvement / prediction else 0.0
  }

  /** The first use leaves the confidence alone, and so does a prediction that is not
      positive after the update. */
  function NextConfidence(confidence: real, newPrediction: real, improvement: real, previousUsage: nat): real {
    if previousUsage > 0 && newPrediction > 0.0 then
      AdjustedConfidence(confidence,
        Accuracy(improvement, RecoveredPrediction(newPrediction, improvement, previousUsage)))
    else confidence
  }

  /** One call of `update_optimization_result` on the entry that it finds. */
  function Updated(e: Estimate, improvement: real, source: SpeedupSource): Estimate {
    var used := UsedSpeedup(source, improvement);
    var predicted := RunningMean(OrElse(e.predictedImprovement, 0.0), e.usageCount, improvement);
    Estimate(
      e.usageCount + 1,
      Some(RunningMean(OrElse(e.predictedSpeedup, 1.0), e.usageCount, used)),
      Some(predicted),
      NextConfidence(e.confidence, predicted, improvement, e.usageCount),
      Some(improvement),
      if StoresSpeedup(source, improvement) then Some(used) else e.actualSpeedup)
  }

  // ----- what an update does, field by field ------------------------------------------------

  /** The speedup that an update averages.  Without a file it is the reciprocal of what the
      percentage leaves, and a million when that is less than a millionth; with baseline
      cycles it is their ratio to the whole number of cycles; otherwise it is 1. */
  ghost predicate IsUsed(source: SpeedupSource, improvement: real, used: real) {
    match source
    case NoFile =>
      if -0.0001 < 100.0 - improvement < 0.0001 then used == 1000000.0
      else used > 0.0 && (Times(used, 100.0 - improvement) == 100.0 || Times(used, 100.0 - improvement) == -100.0)
    case BaselineCycles(cycles) =>
      if improvement < 1.0 then used == 1.0 else IsCycleRatio(cycles, improvement, used)
    case Unreadable => used == 1.0
  }

  ghost predicate IsCycleRatio(cycles: int, improvement: real, used: real) {
    exists n: int :: IsWholePart(n, improvement) && used >= 0.0 && SignedProduct(used, n, cycles)
  }

  predicate IsWholePart(n: int, x: real) { n as real <= x < (n + 1) as real }

  predicate SignedProduct(used: real, n: int, cycles: int) {
    Times(used, n as real) == cycles as real || Times(used, n as real) == -(cycles as real)
  }

  /** A mean over n values became one over n + 1 values. */
  predicate Extends(before: real, n: nat, x: real, after: real) {
    Times(after, (n + 1) as real) == Times(before, n as real) + x
  }

  /** An entry that was used before and still predicts a gain gains 0.1 of confidence, up to
      1, exactly when the improvement is within a fifth of the positive prediction that it
      had; otherwise it loses 0.1, down to 0.1.  Other entries keep their confidence. */
  ghost predicate ConfidenceRule(before: Estimate, after: Estimate, improvement: real)
    requires after.predictedImprovement.Some?
  {
    var p := OrElse(before.predictedImprovement, 0.0);
    if before.usageCount == 0 || after.predictedImprovement.value <= 0.0 then
      after.confidence == before.confidence
    else if p > 0.0 && 0.8 * p <= improvement <= 1.2 * p then
      after.confidence == (if before.confidence < 0.9 then before.confidence + 0.1 else 1.0)
    else
      after.confidence == (if before.confidence > 0.2 then before.confidence - 0.1 else 0.1)
  }

  ghost predicate UpdateRule(before: Estimate, after: Estimate, improvement: real, source: SpeedupSource) {
    && after.usageCount == before.usageCount + 1
    && after.actualImprovement == Some(improvement)
    && after.predictedImprovement.Some? && after.predictedSpeedup.Some?
    && Extends(OrElse(before.predictedImprovement, 0.0), before.usageCount, improvement,
               after.predictedImprovement.value)
    && ConfidenceRule(before, after, improvement)
    && exists used :: SpeedupRule(before, after, improvement, source, used)
  }

  /** The speedup is averaged, and stored unless it stands for a missing one. */
  ghost predicate SpeedupRule(
    before: Estimate, after: Estimate, improvement: real, source: SpeedupSource, used: real)
    requires after.predictedSpeedup.Some?
  {
    && IsUsed(source, improvement, used)
    && Extends(OrElse(before.predictedSpeedup, 1.0), before.usageCount, used, after.predictedSpeedup.value)
    && after.actualSpeedup
       == if source.NoFile? || (source.BaselineCycles? && improvement >= 1.0) then Some(used)
          else before.actualSpeedup
  }

  lemma UpdateFollowsRule(e: Estimate, improvement: real, source: SpeedupSource)
    ensures UpdateRule(e, Updated(e, improvement, source), improvement, source)
  {
    hide RunningMean, UsedSpeedup, NextConfidence, ConfidenceRule, IsUsed, StoresSpeedup, Extends;
    var after, used := Updated(e, improvement, source), UsedSpeedup(source, improvement);
    MeanExtends(OrElse(e.predictedImprovement, 0.0), e.usageCount, improvement);
    MeanExtends(OrElse(e.predictedSpeedup, 1.0), e.usageCount, used);
    ConfidenceFollowsRule(e, improvement, source);
    UsedIsUsed(source, improvement);
    StoredWhen(source, improvement);
    assert SpeedupRule(e, after, improvement, source, used);
  }

  lemma MeanExtends(mean: real, count: nat, x: real)
    ensures Extends(mean, count, x, RunningMean(mean, count, x))
  {
    MeanTimesCount(mean, count, x);
  }

  lemma StoredWhen(source: SpeedupSource, improvement: real)
    ensures StoresSpeedup(source, improvement)
            <==> source.NoFile? || (source.BaselineCycles? && improvement >= 1.0)
  {
  }

  lemma UsedIsUsed(source: SpeedupSource, improvement: real)
    ensures IsUsed(source, improvement, UsedSpeedup(source, improvement))
  {
    match source
    case NoFile => InferredIsUsed(improvement);
    case Unreadable =>
    case BaselineCycles(cycles) =>
      if improvement >= 1.0 {
        var n := Truncated(improvement);
        assert IsWholePart(n, improvement);
        QuotientTimes(cycles as real, n as real);
        assert SignedProduct(UsedSpeedup(source, improvement), n, cycles);
      }
  }

  lemma QuotientTimes(x: real, y: real)
    requires y > 0.0
    ensures Abs(x / y) >= 0.0 && Times(Abs(x / y), y) == Abs(x)
  {
    var q := x / y;
    assert Times(q, y) == x && Times(-q, y) == -x;
    SignOfProduct(q, y);
  }

  lemma SignOfProduct(x: real, y: real)
    requires y > 0.0
    ensures Times(x, y) >= 0.0 <==> x >= 0.0
  {
  }

  lemma InferredIsUsed(improvement: real)
    ensures IsUsed(NoFile, improvement, InferredSpeedup(improvement))
  {
    var denom := 1.0 - improvement / 100.0;
    assert 100.0 - improvement == 100.0 * denom;
    if Abs(denom) < 0.000001 {
      assert 1.0 / 0.000001 == 1000000.0 && 1.0 / -0.000001 == -1000000.0;
    } else {
      var x := 1.0 / denom;
      assert Times(x, 100.0 - improvement) == 100.0 * (x * denom) == 100.0;
      assert Times(-x, 100.0 - improvement) == -Times(x, 100.0 - improvement);
    }
  }

  lemma ConfidenceFollowsRule(e: Estimate, improvement: real, source: SpeedupSource)
    ensures ConfidenceRule(e, Updated(e, improvement, source), improvement)
  {
    hide RunningMean, UsedSpeedup, RecoveredPrediction;
    var p, u := OrElse(e.predictedImprovement, 0.0), e.usageCount;
    var after := RunningMean(p, u, improvement);
    if u > 0 && after > 0.0 {
      RecoveredIsPrevious(e, improvement, source);
      MeanTimesCount(p, u, improvement);
      AccuracyWithin(p, u, improvement, after);
    }
  }

  /** The accuracy is within a fifth of 1 exactly when the improvement is within a fifth of
      a positive prediction. */
  lemma AccuracyWithin(p: real, u: nat, x: real, after: real)
    requires u > 0 && after > 0.0 && after * (u + 1) as real == p * u as real + x
    ensures 0.8 <= Accuracy(x, p) <= 1.2 <==> p > 0.0 && 0.8 * p <= x <= 1.2 * p
  {
    assert after * (u + 1) as real > 0.0;
    if p != 0.0 {
      var q := x / p;
      assert q * p == x;
      if p > 0.0 {
        assert (q - 0.8) * p == x - 0.8 * p && (1.2 - q) * p == 1.2 * p - x;
        SignOfProduct(q - 0.8, p);
        SignOfProduct(1.2 - q, p);
      } else {
        assert (-p) * u as real > 0.0;
        assert x > 0.0;
        assert Times(-q, -p) == x;
        SignOfProduct(-q, -p);
      }
    }
  }

  // ----- the stored entries -----------------------------------------------------------------

  class OptimizationEntry {
    const technique: string
    var usageCount: nat
    var predictedSpeedup: Option<real>
    var predictedImprovement: Option<real>
    var confidenceScore: real
    var actualImprovement: Option<real>
    var actualSpeedup: Option<real>

    function Now(): Estimate
      reads this
    {
      Estimate(usageCount, predictedSpeedup, predictedImprovement, confidenceScore,
               actualImprovement, actualSpeedup)
    }

    constructor (technique: string, predictedImprovement: Option<real>)
      ensures this.technique == technique
      ensures Now() == Estimate(0, Some(1.0), predictedImprovement, 0.5, None, None)
    {
      this.technique := technique;
      this.predictedImprovement := predictedImprovement;
      usageCount, predictedSpeedup, confidenceScore := 0, Some(1.0), 0.5;
      actualImprovement, actualSpeedup := None, None;
    }

    method Update(improvement: real, source: SpeedupSource)
      modifies this
      ensures Now() == Updated(old(Now()), improvement, source)
      ensures UpdateRule(old(Now()), Now(), improvement, source)
    {
      UpdateFollowsRule(Now(), improvement, source);
      var previousUsage := usageCount;
      var newUsage := previousUsage + 1;
      actualImprovement := Some(improvement);
      usageCount := newUsage;
      var used := UsedSpeedup(source, improvement);
      if StoresSpeedup(source, improvement) {
        actualSpeedup := Some(used);
      }
      predictedSpeedup := Some(RunningMean(OrElse(predictedSpeedup, 1.0), previousUsage, used));
      var predicted := RunningMean(OrElse(predictedImprovement, 0.0), previousUsage, improvement);
      predictedImprovement := Some(predicted);
      if previousUsage > 0 && predicted > 0.0 {
        var recovered := RecoveredPrediction(predicted, improvement, previousUsage);
        confidenceScore := AdjustedConfidence(confidenceScore, Accuracy(improvement, recovered));
      }
    }
  }

  /** The first entry of the technique. */
  ghost predicate FirstMatch(entries: seq<OptimizationEntry>, technique: string, i: nat) {
    && i < |entries| && entries[i].technique == technique
    && forall j :: 0 <= j < i ==> entries[j].technique != technique
  }

  ghost predicate Lacks(entries: seq<OptimizationEntry>, technique: string) {
    forall j :: 0 <= j < |entries| ==> entries[j].technique != technique
  }

  ghost predicate DistinctTechniques(entries: seq<OptimizationEntry>) {
    forall i, j :: 0 <= i < j < |entries| ==> entries[i].technique != entries[j].technique
  }

  ghost predicate IsNewEntry(e: OptimizationEntry, technique: string, predictedImprovement: real)
    reads e
  {
    && e.technique == technique
    && e.Now() == Estimate(0, Some(1.0), Some(predictedImprovement), 0.5, None, None)
  }

  class Database {
    var strategies: map<string, seq<OptimizationEntry>>

    constructor ()
      ensures strategies == map[]
    {
      strategies := map[];
    }

    function EntriesOf(state: string): seq<OptimizationEntry>
      reads this
    {
      if state in strategies then strategies[state] else []
    }

    /** Only the first entry of the technique in the state changes, and it changes by one
        update; nothing changes when there is none. */
    method UpdateOptimizationResult(state: string, technique: string, improvement: real, source: SpeedupSource)
      modifies EntriesOf(state)
      ensures strategies == old(strategies)
      ensures forall i: nat :: FirstMatch(EntriesOf(state), technique, i) ==>
                && EntriesOf(state)[i].Now() == Updated(old(EntriesOf(state)[i].Now()), improvement, source)
                && UpdateRule(old(EntriesOf(state)[i].Now()), EntriesOf(state)[i].Now(), improvement, source)
                && forall e :: e in EntriesOf(state) && e != EntriesOf(state)[i] ==> e.Now() == old(e.Now())
      ensures Lacks(EntriesOf(state), technique) ==>
                forall e :: e in EntriesOf(state) ==> e.Now() == old(e.Now())
    {
      var entries := EntriesOf(state);
      for i := 0 to |entries|
        invariant forall j :: 0 <= j < i ==> entries[j].technique != technique
        invariant forall e :: e in entries ==> e.Now() == old(e.Now())
      {
        if entries[i].technique == technique {
          entries[i].Update(improvement, source);
          break;
        }
      }
    }

    /** A known technique of the state gets the new prediction; an unknown one is appended.
        The techniques of a state stay distinct. */
    method AddNewOptimization(state: string, technique: string, predictedImprovement: real)
      modifies this, EntriesOf(state)
      ensures state in strategies
      ensures forall s :: s != state ==> (s in strategies <==> s in old(strategies))
      ensures forall s :: s != state && s in strategies ==> strategies[s] == old(strategies)[s]
      ensures DistinctTechniques(old(EntriesOf(state))) ==> DistinctTechniques(strategies[state])
      ensures forall i: nat :: FirstMatch(old(EntriesOf(state)), technique, i) ==>
                && strategies[state] == old(EntriesOf(state))
                && strategies[state][i].Now() ==
                     old(EntriesOf(state)[i].Now()).(predictedImprovement := Some(predictedImprovement))
                && forall e :: e in strategies[state] && e != strategies[state][i] ==> e.Now() == old(e.Now())
      ensures Lacks(old(EntriesOf(state)), technique) ==>
                && |strategies[state]| == |old(EntriesOf(state))| + 1
                && strategies[state][..|old(EntriesOf(state))|] == old(EntriesOf(state))
                && (forall e :: e in old(EntriesOf(state)) ==> e.Now() == old(e.Now()))
                && IsNewEntry(strategies[state][|old(EntriesOf(state))|], technique, predictedImprovement)
    {
      var entries := EntriesOf(state);
      strategies := strategies[state := entries];
      for i := 0 to |entries|
        invariant forall j :: 0 <= j < i ==> entries[j].technique != technique
        invariant forall e :: e in entries ==> e.Now() == old(e.Now())
        invariant strategies == old(strategies)[state := entries]
      {
        if entries[i].technique == technique {
          entries[i].predictedImprovement := Some(predictedImprovement);
          return;
        }
      }
      var added := new OptimizationEntry(technique, Some(predictedImprovement));
      strategies := strategies[state := entries + [added]];
    }
  }

  // ----- runs of updates -------------------------------------------------------------------

  datatype Observation = Observation(improvement: real, source: SpeedupSource)

  /** The estimate after a run of updates. */
  function AfterAll(e: Estimate, run: seq<Observation>): Estimate
  {
    if run == [] then e else
      var n := |run| - 1;
      Updated(AfterAll(e, run[..n]), run[n].improvement, run[n].source)
  }

  function SumOfSpeedups(run: seq<Observation>): real
  {
    if run == [] then 0.0 else
      var n := |run| - 1;
      SumOfSpeedups(run[..n]) + UsedSpeedup(run[n].source, run[n].improvement)
  }

  function SumOfImprovements(run: seq<Observation>): real
  {
    if run == [] then 0.0 else SumOfImprovements(run[..|run| - 1]) + run[|run| - 1].improvement
  }

  lemma MeanTimesCount(mean: real, count: nat, x: real)
    ensures RunningMean(mean, count, x) * (count + 1) as real == mean * count as real + x
  {
  }

  /** The mean over n values carries the initial mean with weight u and the sum. */
  ghost predicate Weighted(mean: real, n: nat, initial: real, u: nat, sum: real) {
    mean * n as real == initial * u as real + sum
  }

  lemma WeightedStep(mean: real, n: nat, initial: real, u: nat, sum: real, x: real)
    requires Weighted(mean, n, initial, u, sum)
    ensures Weighted(RunningMean(mean, n, x), n + 1, initial, u, sum + x)
  {
    MeanTimesCount(mean, n, x);
  }

  /** The mean of n values: an initial one counted u times, and others with this sum. */
  function WeightedMeanOf(initial: real, u: nat, sum: real, n: nat): real
    requires n > 0
  {
    (initial * u as real + sum) / n as real
  }

  lemma WeightedMean(mean: real, n: nat, initial: real, u: nat, sum: real)
    requires Weighted(mean, n, initial, u, sum) && n > 0
    ensures mean == WeightedMeanOf(initial, u, sum, n)
  {
    Divide(mean, n as real, initial * u as real + sum);
  }

  lemma {:induction false} WeightedSums(e: Estimate, run: seq<Observation>)
    ensures var after := AfterAll(e, run);
            && after.usageCount == e.usageCount + |run|
            && Weighted(OrElse(after.predictedSpeedup, 1.0), after.usageCount,
                        OrElse(e.predictedSpeedup, 1.0), e.usageCount, SumOfSpeedups(run))
            && Weighted(OrElse(after.predictedImprovement, 0.0), after.usageCount,
                        OrElse(e.predictedImprovement, 0.0), e.usageCount, SumOfImprovements(run))
  {
    if run != [] {
      var k := |run| - 1;
      var init := run[..k];
      WeightedSums(e, init);
      var before := AfterAll(e, init);
      WeightedStep(OrElse(before.predictedSpeedup, 1.0), before.usageCount,
                   OrElse(e.predictedSpeedup, 1.0), e.usageCount, SumOfSpeedups(init),
                   UsedSpeedup(run[k].source, run[k].improvement));
      WeightedStep(OrElse(before.predictedImprovement, 0.0), before.usageCount,
                   OrElse(e.predictedImprovement, 0.0), e.usageCount, SumOfImprovements(init),
                   run[k].improvement);
    }
  }

  lemma Divide(x: real, n: real, y: real)
    requires n > 0.0 && x * n == y
    ensures x == y / n
  {
  }

  /** After any run of n updates that starts from usage u with u + n > 0, both predictions
      are the means of the initial prediction, weighted by u, and the observations. */
  lemma PredictionsAreRunningMeans(e: Estimate, run: seq<Observation>)
    requires e.usageCount + |run| > 0
    ensures OrElse(AfterAll(e, run).predictedSpeedup, 1.0) ==
            WeightedMeanOf(OrElse(e.predictedSpeedup, 1.0), e.usageCount, SumOfSpeedups(run), e.usageCount + |run|)
    ensures OrElse(AfterAll(e, run).predictedImprovement, 0.0) ==
            WeightedMeanOf(OrElse(e.predictedImprovement, 0.0), e.usageCount, SumOfImprovements(run),
                           e.usageCount + |run|)
  {
    WeightedSums(e, run);
    var after := AfterAll(e, run);
    WeightedMean(OrElse(after.predictedSpeedup, 1.0), after.usageCount,
                 OrElse(e.predictedSpeedup, 1.0), e.usageCount, SumOfSpeedups(run));
    WeightedMean(OrElse(after.predictedImprovement, 0.0), after.usageCount,
                 OrElse(e.predictedImprovement, 0.0), e.usageCount, SumOfImprovements(run));
  }

  /** The prediction that the confidence rule recovers is the one before the update. */
  lemma RecoveredIsPrevious(e: Estimate, improvement: real, source: SpeedupSource)
    requires e.usageCount > 0
    ensures RecoveredPrediction(Updated(e, improvement, source).predictedImprovement.value,
                                improvement, e.usageCount)
            == OrElse(e.predictedImprovement, 0.0)
  {
    hide RecoveredPrediction, RunningMean;
    MeanRecovers(OrElse(e.predictedImprovement, 0.0), e.usageCount, improvement);
  }

  lemma MeanRecovers(p: real, u: nat, x: real)
    requires u > 0
    ensures RecoveredPrediction(RunningMean(p, u, x), x, u) == p
  {
    hide RunningMean;
    MeanTimesCount(p, u, x);
    TimesIs(RunningMean(p, u, x) * (u + 1) as real - x, p, u as real);
  }

  lemma TimesIs(y: real, x: real, n: real)
    requires n > 0.0 && y == x * n
    ensures y / n == x
  {
    Divide(x, n, y);
  }

  /** Confidence never leaves the range from 0.1 to 1. */
  lemma {:induction false} ConfidenceStaysInRange(e: Estimate, run: seq<Observation>)
    requires 0.1 <= e.confidence <= 1.0
    ensures 0.1 <= AfterAll(e, run).confidence <= 1.0
  {
    if run != [] { ConfidenceStaysInRange(e, run[..|run| - 1]); }
  }

  /** A rollout passes (s - 1) * 100 for a measured speedup s and no file.  The inferred
      speedup is the measured one exactly for s = 1 and for the root of s * s = 2 s + 1. */
  lemma InferredIsMeasuredExactlyWhen(s: real)
    requires s > 0.0
    ensures InferredSpeedup((s - 1.0) * 100.0) == s <==> s == 1.0 || s * s == 2.0 * s + 1.0
  {
    var denom := 2.0 - s;
    assert 1.0 - ((s - 1.0) * 100.0) / 100.0 == denom;
    TimesTwoMinus(s, denom);
    if Abs(denom) < 0.000001 {
      assert 1.0 / 0.000001 == 1000000.0 && 1.0 / -0.000001 == -1000000.0;
      NearTwo(s, denom);
    } else {
      ReciprocalIs(s, denom, 1.0 / denom);
    }
  }

  /** A measured speedup of 2 is stored as a million. */
  lemma DoubledIsInferredAsMillion()
    ensures InferredSpeedup((2.0 - 1.0) * 100.0) == 1000000.0
  {
    assert 1.0 / 0.000001 == 1000000.0;
  }

  lemma SameSign(x: real, y: real)
    requires (x > 0.0 && y > 0.0) || (x < 0.0 && y < 0.0)
    ensures Times(x, y) > 0.0
  {
  }

  lemma ZeroProduct(x: real, y: real)
    requires x == 0.0
    ensures Times(x, y) == 0.0
  {
  }

  lemma TimesTwoMinus(s: real, d: real)
    requires d == 2.0 - s
    ensures Times(s, d) == 1.0 <==> s == 1.0
    ensures Times(s, d) == -1.0 <==> s * s == 2.0 * s + 1.0
  {
    assert Times(s, d) == 1.0 - Times(s - 1.0, s - 1.0) == 2.0 * s - s * s;
    if s == 1.0 { ZeroProduct(s - 1.0, s - 1.0); } else { SameSign(s - 1.0, s - 1.0); }
  }

  lemma NearTwo(s: real, d: real)
    requires d == 2.0 - s && -0.000001 < d < 0.000001
    ensures -1.0 < Times(s, d) < 1.0
  {
    if d > 0.0 {
      assert Times(s, d) <= Times(3.0, d) by { SameSign(3.0 - s, d); }
      SameSign(s, d);
    } else if d < 0.0 {
      assert Times(s, d) >= Times(3.0, d) by { SameSign(s - 3.0, d); }
      SameSign(-s, d);
    } else {
      ZeroProduct(d, s);
    }
  }

  lemma ReciprocalIs(s: real, d: real, x: real)
    requires s > 0.0 && d != 0.0 && x * d == 1.0
    ensures Abs(x) == s <==> Times(s, d) == 1.0 || Times(s, d) == -1.0
  {
    if s * d == 1.0 { assert (s - x) * d == 0.0; }
    if s * d == -1.0 { assert (s + x) * d == 0.0; }
    assert x != 0.0;
  }
}
