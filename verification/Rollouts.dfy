/** Rollout trajectories: chained measurements, rewards, and the replay buffer. */
module Rollouts {
  import opened Reals
  import opened Sequences
  import opened Measurements

  datatype TrajectoryStep = TrajectoryStep(
    code: string, measurement: Measurement, improvement: real, reward: real)

  class Trajectory {
    var steps: seq<TrajectoryStep>
    var totalReward: real
    var initialMeasurement: Option<Measurement>
    var finalMeasurement: Option<Measurement>

    /** The accumulated fields are those of the recorded steps. */
    ghost predicate Valid()
      reads this
    {
      && totalReward == TotalReward(steps)
      && initialMeasurement == (if steps == [] then None else Some(steps[0].measurement))
      && finalMeasurement == LastMeasurement(steps, None)
    }

    constructor ()
      ensures Valid() && steps == []
    {
      steps, totalReward := [], 0.0;
      initialMeasurement, finalMeasurement := None, None;
    }

    method AddStep(step: TrajectoryStep)
      requires Valid()
      modifies this
      ensures Valid() && steps == old(steps) + [step]
    {
      RewardSnoc(steps, step);
      steps := steps + [step];
      totalReward := totalReward + step.reward;
      if |steps| == 1 {
        initialMeasurement := Some(step.measurement);
      }
      finalMeasurement := Some(step.measurement);
    }

    /** The improvement that the buffer statistics use; `None` when it is skipped. */
    function Improvement(): Option<real>
      reads this
    {
      if initialMeasurement.None? || finalMeasurement.None? then None
      else
        match SpeedupOver(finalMeasurement.value, initialMeasurement.value)
        case None => None
        case Some(s) => Some((s - 1.0) * 100.0)
    }
  }

  function TotalReward(steps: seq<TrajectoryStep>): real
  {
    if steps == [] then 0.0 else steps[0].reward + TotalReward(steps[1..])
  }

  lemma {:induction false} RewardSnoc(steps: seq<TrajectoryStep>, step: TrajectoryStep)
    ensures TotalReward(steps + [step]) == TotalReward(steps) + step.reward
  {
    if steps == [] {
      assert [step][1..] == [];
    } else {
      assert (steps + [step])[1..] == steps[1..] + [step];
      RewardSnoc(steps[1..], step);
    }
  }

  function LastMeasurement(steps: seq<TrajectoryStep>, start: Option<Measurement>): Option<Measurement> {
    if steps == [] then start else Some(steps[|steps| - 1].measurement)
  }

  // ----- one step --------------------------------------------------------------------

  /** The percentage by which a step improves on the previous measurement: 0 without a
      previous measurement and for incomparable ones. */
  function StepImprovement(current: Option<Measurement>, next: Measurement): (r: real)
    ensures current.Some? && Comparable(next, current.value) ==>
              Times(100.0 + r, next.value) == 100.0 * current.value.value
    ensures current.None? || !Comparable(next, current.value) ==> r == 0.0
  {
    match current
    case None => 0.0
    case Some(c) =>
      match SpeedupOver(next, c)
      case None => 0.0
      case Some(s) => (s - 1.0) * 100.0
  }

  predicate StepIsFaster(current: Option<Measurement>, next: Measurement): (r: bool)
    ensures r <==> current.Some? && Comparable(next, current.value) && next.value < current.value.value
  {
    current.Some? && IsFasterThan(next, current.value) == Some(true)
  }

  /** The reward of a step: the improvement, half a point less when it is not faster, and
      for a positive prediction a bonus of 0.2 within a fifth of it and otherwise a malus of
      a tenth of the relative distance, which counts as 1 above twice the prediction. */
  ghost predicate IsReward(predicted: Option<real>, improvement: real, isFaster: bool, reward: real) {
    var bonus := reward - improvement / 100.0 + if isFaster then 0.0 else 0.5;
    if predicted.None? || predicted.value <= 0.0 then bonus == 0.0
    else
      var p := predicted.value;
      if 0.8 * p <= improvement <= 1.2 * p then bonus == 0.2
      else if improvement > 2.0 * p then bonus == -0.1
      else Times(bonus, p) == (if improvement > p then 0.1 * (p - improvement) else 0.1 * (improvement - p))
  }

  lemma RewardFollowsRule(predicted: Option<real>, improvement: real, isFaster: bool)
    ensures IsReward(predicted, improvement, isFaster, CalculateReward(predicted, improvement, isFaster))
  {
    if predicted.Some? && predicted.value > 0.0 {
      var p := predicted.value;
      var ratio := improvement / p;
      assert ratio * p == improvement;
      RatioReaches(ratio, p, improvement, 0.8);
      RatioReaches(ratio, p, improvement, 1.0);
      RatioReaches(ratio, p, improvement, 1.2);
      RatioReaches(ratio, p, improvement, 2.0);
      MalusTimes(ratio, p, improvement);
    }
  }

  lemma MalusTimes(ratio: real, p: real, improvement: real)
    requires ratio * p == improvement
    ensures Times(-0.1 * (ratio - 1.0), p) == 0.1 * (p - improvement)
    ensures Times(-0.1 * (1.0 - ratio), p) == 0.1 * (improvement - p)
  {
  }

  function CalculateReward(predicted: Option<real>, improvement: real, isFaster: bool): real {
    var safe := if predicted.Some? then predicted.value else 0.0;
    var bonus :=
      if safe > 0.0 then
        var ratio := improvement / safe;
        var accuracy := if ratio <= 2.0 then ratio else 2.0;
        if 0.8 <= accuracy <= 1.2 then 0.2
        else -0.1 * (if accuracy >= 1.0 then accuracy - 1.0 else 1.0 - accuracy)
      else 0.0;
    improvement / 100.0 + bonus + (if isFaster then 0.0 else -0.5)
  }

  /** No step is ever worse than -100 percent, so the stop at -500 percent cannot fire. */
  lemma ImprovementAboveMinusHundred(current: Option<Measurement>, next: Measurement)
    ensures StepImprovement(current, next) > -100.0
  {
    if current.Some? && Comparable(next, current.value) {
      var s := current.value.value / next.value;
      assert s * next.value == current.value.value;
      Sign(s, next.value);
    }
  }

  // ----- the rollout -----------------------------------------------------------------

  /** What the outside world does in one round: no technique could be applied, or a
      candidate was measured; `recorded` is false when the database update raised. */
  datatype Attempt =
    | NoCandidate
    | Measured(code: string, measurement: Measurement, predicted: Option<real>, recorded: bool)

  /** The rollout goes on after this round. */
  predicate Kept(a: Attempt) { a.Measured? && a.recorded }

  /** The number of rounds that add a step: the leading measured rounds, up to and
      including the first whose bookkeeping fails. */
  function Productive(attempts: seq<Attempt>): nat
  {
    if attempts == [] || attempts[0].NoCandidate? then 0
    else if !attempts[0].recorded then 1
    else 1 + Productive(attempts[1..])
  }

  /** Step k measures against the step before it, or the rollout's starting measurement. */
  ghost predicate Chained(start: Option<Measurement>, steps: seq<TrajectoryStep>) {
    forall k :: 0 <= k < |steps| ==> ChainedAt(start, steps, k)
  }

  function Before(start: Option<Measurement>, steps: seq<TrajectoryStep>, k: nat): Option<Measurement>
    requires k <= |steps|
  {
    if k == 0 then start else Some(steps[k - 1].measurement)
  }

  predicate ChainedAt(start: Option<Measurement>, steps: seq<TrajectoryStep>, k: nat)
    requires k < |steps|
  {
    steps[k].improvement == StepImprovement(Before(start, steps, k), steps[k].measurement)
  }

  /** The steps record the attempts in order. */
  ghost predicate FromAttempts(
    start: Option<Measurement>, steps: seq<TrajectoryStep>, attempts: seq<Attempt>)
  {
    && |steps| <= |attempts|
    && forall k :: 0 <= k < |steps| ==> RecordedAt(start, steps, attempts, k)
  }

  ghost predicate RecordedAt(start: Option<Measurement>, steps: seq<TrajectoryStep>, attempts: seq<Attempt>, k: nat)
    requires k < |steps| <= |attempts|
  {
    && attempts[k].Measured?
    && steps[k].code == attempts[k].code && steps[k].measurement == attempts[k].measurement
    && IsReward(attempts[k].predicted, steps[k].improvement,
                StepIsFaster(Before(start, steps, k), steps[k].measurement), steps[k].reward)
  }

  /** The step that an attempt adds. */
  function StepOf(current: Option<Measurement>, a: Attempt): TrajectoryStep
    requires a.Measured?
  {
    var improvement := StepImprovement(current, a.measurement);
    TrajectoryStep(a.code, a.measurement, improvement,
                   CalculateReward(a.predicted, improvement, StepIsFaster(current, a.measurement)))
  }

  lemma ChainSnoc(start: Option<Measurement>, steps: seq<TrajectoryStep>, attempts: seq<Attempt>)
    requires Chained(start, steps) && FromAttempts(start, steps, attempts)
    requires |steps| < |attempts| && attempts[|steps|].Measured?
    ensures var longer := steps + [StepOf(LastMeasurement(steps, start), attempts[|steps|])];
            Chained(start, longer) && FromAttempts(start, longer, attempts)
  {
    var longer := steps + [StepOf(LastMeasurement(steps, start), attempts[|steps|])];
    var last := longer[|steps|];
    RewardFollowsRule(attempts[|steps|].predicted, last.improvement,
                      StepIsFaster(LastMeasurement(steps, start), last.measurement));
    forall k | 0 <= k < |longer| ensures ChainedAt(start, longer, k) && RecordedAt(start, longer, attempts, k) {
      assert Before(start, longer, k) == Before(start, steps, k);
      if k < |steps| { assert ChainedAt(start, steps, k) && RecordedAt(start, steps, attempts, k); }
    }
  }

  lemma {:induction false} ProductiveUntil(attempts: seq<Attempt>, k: nat)
    requires k <= |attempts| && forall i :: 0 <= i < k ==> Kept(attempts[i])
    ensures k == |attempts| || attempts[k].NoCandidate? ==> Productive(attempts) == k
    ensures k < |attempts| && attempts[k].Measured? && !attempts[k].recorded ==> Productive(attempts) == k + 1
  {
    if k > 0 {
      ProductiveUntil(attempts[1..], k - 1);
    }
  }

  /** A measured round: the step against the current measurement. */
  method TakeStep(
    t: Trajectory, current: Option<Measurement>, a: Attempt,
    ghost start: Option<Measurement>, ghost attempts: seq<Attempt>)
    returns (improvement: real)
    requires t.Valid() && |t.steps| < |attempts| && a == attempts[|t.steps|] && a.Measured?
    requires current == LastMeasurement(t.steps, start)
    requires Chained(start, t.steps) && FromAttempts(start, t.steps, attempts)
    modifies t
    ensures t.Valid() && |t.steps| == |old(t.steps)| + 1
    ensures LastMeasurement(t.steps, start) == Some(a.measurement)
    ensures Chained(start, t.steps) && FromAttempts(start, t.steps, attempts)
    ensures improvement > -100.0
  {
    improvement := StepImprovement(current, a.measurement);
    var isFaster := StepIsFaster(current, a.measurement);
    var step := TrajectoryStep(a.code, a.measurement, improvement, CalculateReward(a.predicted, improvement, isFaster));
    ChainSnoc(start, t.steps, attempts);
    ImprovementAboveMinusHundred(current, a.measurement);
    t.AddStep(step);
  }

  /** `run_rollout`, with one attempt for each of its rounds. */
  method RunRollout(start: Option<Measurement>, attempts: seq<Attempt>) returns (t: Trajectory)
    ensures fresh(t) && t.Valid()
    ensures Chained(start, t.steps) && FromAttempts(start, t.steps, attempts)
    ensures |t.steps| == Productive(attempts)
  {
    t := new Trajectory();
    var current := start;
    var stopped := false;
    var round: nat := 0;
    while round < |attempts| && !stopped
      invariant fresh(t) && t.Valid() && !stopped
      invariant |t.steps| == round <= |attempts| && current == LastMeasurement(t.steps, start)
      invariant Chained(start, t.steps) && FromAttempts(start, t.steps, attempts)
      invariant forall i :: 0 <= i < round ==> Kept(attempts[i])
      decreases |attempts| - round
    {
      ProductiveUntil(attempts, round);
      if attempts[round].NoCandidate? {
        return;
      }
      var improvement := TakeStep(t, current, attempts[round], start, attempts);
      if !attempts[round].recorded {
        return;
      }
      current := Some(attempts[round].measurement);
      stopped := improvement < -500.0;
      round := round + 1;
    }
    ProductiveUntil(attempts, round);
  }

  // ----- stepwise and overall improvement --------------------------------------------------

  function Product(steps: seq<TrajectoryStep>): real
  {
    if steps == [] then 1.0 else
      var n := |steps| - 1;
      Times(Factor(steps[n].improvement), Product(steps[..n]))
  }

  /** The factor of an improvement in percent. */
  function Factor(improvement: real): real { 1.0 + improvement / 100.0 }

  ghost predicate AllComparable(start: Measurement, steps: seq<TrajectoryStep>) {
    forall k :: 0 <= k < |steps| ==> Comparable(steps[k].measurement, start)
  }

  lemma OneStepFactor(current: Measurement, next: Measurement)
    requires Comparable(next, current)
    ensures Factor(StepImprovement(Some(current), next)) == SpeedupOver(next, current).value
  {
  }

  lemma TelescopeStep(start: Measurement, previous: Measurement, last: Measurement, product: real)
    requires Comparable(previous, start) && Comparable(last, start)
    requires SpeedupOver(previous, start) == Some(product)
    ensures SpeedupOver(last, start) == Some(Times(Factor(StepImprovement(Some(previous), last)), product))
  {
    SpeedupLaws(last, previous, start);
    OneStepFactor(previous, last);
  }

  /** The step factors multiply to the speedup of the last measurement over the start. */
  lemma {:induction false} Telescoping(start: Measurement, steps: seq<TrajectoryStep>)
    requires Chained(Some(start), steps) && AllComparable(start, steps) && steps != []
    ensures SpeedupOver(steps[|steps| - 1].measurement, start) == Some(Product(steps))
  {
    var n := |steps| - 1;
    var last, init := steps[n].measurement, steps[..n];
    assert ChainedAt(Some(start), steps, n);
    if n == 0 {
      OneStepFactor(start, last);
      assert Times(Factor(steps[0].improvement), 1.0) == Factor(steps[0].improvement);
    } else {
      forall k | 0 <= k < n ensures ChainedAt(Some(start), init, k) { assert ChainedAt(Some(start), steps, k); }
      Telescoping(start, init);
      TelescopeStep(start, init[n - 1].measurement, last, Product(init));
    }
  }

  /** For a finished rollout with comparable measurements: all step factors multiply to the
      speedup over the starting measurement, and those from the second step on multiply
      to the improvement that the buffer statistics report. */
  lemma StepwiseEqualsOverall(t: Trajectory, start: Measurement)
    requires t.Valid() && t.steps != []
    requires Chained(Some(start), t.steps) && AllComparable(start, t.steps)
    ensures SpeedupOver(t.steps[|t.steps| - 1].measurement, start) == Some(Product(t.steps))
    ensures !start.legacyInferredUnit && t.Improvement() == Some((Product(t.steps[1..]) - 1.0) * 100.0)
  {
    var steps := t.steps;
    Telescoping(start, steps);
    var first, rest := steps[0].measurement, steps[1..];
    if rest == [] {
      assert first.value / first.value == 1.0;
    } else {
      forall k | 0 <= k < |rest| ensures ChainedAt(Some(first), rest, k) {
        assert ChainedAt(Some(start), steps, k + 1);
      }
      Telescoping(first, rest);
    }
  }

  // ----- the replay buffer --------------------------------------------------------------------

  /** The last n elements. */
  function Last<T>(s: seq<T>, n: nat): seq<T> { if |s| <= n then s else s[|s| - n..] }

  class ReplayBuffer<T> {
    const maxSize: int
    var trajectories: seq<T>
    ghost var added: seq<T>

    /** The buffer holds the most recent additions, and nothing for a negative size. */
    ghost predicate Valid()
      reads this
    {
      trajectories == Last(added, if maxSize >= 0 then maxSize else 0)
    }

    constructor (maxSize: int)
      ensures Valid() && this.maxSize == maxSize && added == []
    {
      this.maxSize := maxSize;
      trajectories, added := [], [];
    }

    method AddTrajectory(t: T)
      requires Valid()
      modifies this
      ensures Valid() && added == old(added) + [t]
    {
      trajectories := trajectories + [t];
      added := added + [t];
      if |trajectories| > maxSize {
        trajectories := trajectories[1..];
      }
    }

    /** `get_recent_trajectories`.  Asking for the last 0 returns everything, because of
        the slice from -0; a negative number drops that many from the front. */
    method GetRecentTrajectories(n: Option<int>) returns (r: seq<T>)
      requires Valid()
      ensures n.Some? && n.value > 0 ==>
                r == Last(added, if maxSize < 0 then 0 else if n.value <= maxSize then n.value else maxSize)
      ensures n.None? || n.value == 0 ==> r == Last(added, if maxSize >= 0 then maxSize else 0)
      ensures n.Some? && n.value < 0 ==> r == if -n.value <= |trajectories| then trajectories[-n.value..] else []
    {
      if n.None? {
        return trajectories;
      }
      var start := if n.value > 0 then |trajectories| - n.value else -n.value;
      var from := if start < 0 then 0 else if start > |trajectories| then |trajectories| else start;
      return trajectories[from..];
    }
  }
}
