/** The best-so-far selection over rollouts that finish in any order. */
module BestSelection {
  import opened Sequences
  import opened Measurements

  datatype Step = Step(code: string, measurement: Measurement)

  /** A finished iteration; `None` when its rollout failed. */
  datatype Completion = Completion(iteration: nat, trajectory: Option<seq<Step>>)

  datatype TaggedStep = TaggedStep(iteration: nat, step: Step)

  function Tagged(iteration: nat, steps: seq<Step>): seq<TaggedStep> {
    seq(|steps|, i requires 0 <= i < |steps| => TaggedStep(iteration, steps[i]))
  }

  function StepsOf(c: Completion): seq<TaggedStep> {
    if c.trajectory.None? then [] else Tagged(c.iteration, c.trajectory.value)
  }

  /** All steps, in the order in which the selection meets them. */
  function AllSteps(completions: seq<Completion>): seq<TaggedStep>
  {
    if completions == [] then [] else
      var n := |completions| - 1;
      AllSteps(completions[..n]) + StepsOf(completions[n])
  }

  function Value(t: TaggedStep): real { t.step.measurement.value }

  predicate Ranked(a: TaggedStep, b: TaggedStep) {
    Comparable(a.step.measurement, b.step.measurement)
  }

  /** Position j holds the minimum among the steps comparable with the first one, and the
      earliest such step; it is the first step itself when that one is not comparable
      with any other. */
  ghost predicate IsBest(all: seq<TaggedStep>, j: int) {
    && 0 <= j < |all|
    && (j > 0 ==> Ranked(all[0], all[j]) && Value(all[j]) < Value(all[0]))
    && (forall i :: 0 <= i < |all| && Ranked(all[0], all[i]) ==>
          Value(all[j]) <= Value(all[i]) && (i < j ==> Value(all[j]) < Value(all[i])))
  }

  /** The text of a candidate file: the code and the measurement in its last line. */
  type Folder = map<nat, Step>

  ghost predicate Selected(
    all: seq<TaggedStep>, best: Option<Measurement>, bestFile: Option<nat>, folder: Folder)
  {
    && (all == [] <==> best.None?) && (best.None? <==> bestFile.None?)
    && (best.Some? ==> exists j ::
          && IsBest(all, j) && best.value == all[j].step.measurement
          && bestFile == Some(all[j].iteration)
          && all[j].iteration in folder && folder[all[j].iteration] == all[j].step)
  }

  lemma SelectSnoc(
    all: seq<TaggedStep>, t: TaggedStep, best: Option<Measurement>, bestFile: Option<nat>, folder: Folder)
    requires Selected(all, best, bestFile, folder)
    ensures var verdict := if best.None? then Some(true) else IsFasterThan(t.step.measurement, best.value);
            if verdict == Some(true)
            then Selected(all + [t], Some(t.step.measurement), Some(t.iteration), folder[t.iteration := t.step])
            else Selected(all + [t], best, bestFile, folder)
  {
    var longer := all + [t];
    if best.None? {
      assert IsBest(longer, 0);
    } else {
      var j :| IsBest(all, j) && best.value == all[j].step.measurement &&
               bestFile == Some(all[j].iteration) && folder[all[j].iteration] == all[j].step;
      if IsFasterThan(t.step.measurement, best.value) == Some(true) {
        assert j > 0 ==> Ranked(all[0], all[j]);
        assert longer[|all|] == t;
        assert IsBest(longer, |all|);
      } else {
        assert longer[j] == all[j];
        assert IsBest(longer, j);
      }
    }
  }

  /** One step of a finished rollout. */
  method SelectStep(
    ghost before: seq<TaggedStep>, iteration: nat, step: Step,
    best0: Option<Measurement>, bestFile0: Option<nat>, folder0: Folder)
    returns (best: Option<Measurement>, bestFile: Option<nat>, folder: Folder)
    requires Selected(before, best0, bestFile0, folder0)
    ensures Selected(before + [TaggedStep(iteration, step)], best, bestFile, folder)
  {
    best, bestFile, folder := best0, bestFile0, folder0;
    SelectSnoc(before, TaggedStep(iteration, step), best, bestFile, folder);
    var isBest := if best.None? then Some(true) else IsFasterThan(step.measurement, best.value);
    if isBest != Some(true) {
      return;
    }
    best := Some(step.measurement);
    folder := folder[iteration := step];
    bestFile := Some(iteration);
  }

  /** The steps of one finished rollout. */
  method SelectFrom(
    ghost before: seq<TaggedStep>, iteration: nat, steps: seq<Step>,
    best0: Option<Measurement>, bestFile0: Option<nat>, folder0: Folder)
    returns (best: Option<Measurement>, bestFile: Option<nat>, folder: Folder)
    requires Selected(before, best0, bestFile0, folder0)
    ensures Selected(before + Tagged(iteration, steps), best, bestFile, folder)
  {
    best, bestFile, folder := best0, bestFile0, folder0;
    ghost var tagged := Tagged(iteration, steps);
    assert before + tagged[..0] == before;
    for i := 0 to |steps|
      invariant Selected(before + tagged[..i], best, bestFile, folder)
    {
      best, bestFile, folder := SelectStep(before + tagged[..i], iteration, steps[i], best, bestFile, folder);
      TakeSnoc(tagged, i);
      ConcatIsAssociative(before, tagged[..i], [tagged[i]]);
    }
    assert tagged[..|steps|] == tagged;
  }

  /** The selection loop of `RLNCUAgent.run`.  The named file holds the best step. */
  method SelectBest(completions: seq<Completion>)
    returns (best: Option<Measurement>, bestFile: Option<nat>, folder: Folder)
    ensures Selected(AllSteps(completions), best, bestFile, folder)
  {
    best, bestFile, folder := None, None, map[];
    for k := 0 to |completions|
      invariant Selected(AllSteps(completions[..k]), best, bestFile, folder)
    {
      var completion := completions[k];
      AllStepsSnoc(completions[..k], completion);
      assert completions[..k + 1] == completions[..k] + [completion];
      if completion.trajectory.Some? {
        best, bestFile, folder := SelectFrom(
          AllSteps(completions[..k]), completion.iteration, completion.trajectory.value, best, bestFile, folder);
      }
    }
    assert completions[..|completions|] == completions;
  }

  lemma AllStepsSnoc(completions: seq<Completion>, c: Completion)
    ensures AllSteps(completions + [c]) == AllSteps(completions) + StepsOf(c)
    ensures c.trajectory.None? ==> AllSteps(completions + [c]) == AllSteps(completions)
  {
    assert (completions + [c])[..|completions|] == completions;
  }

  lemma BestIsUnique(all: seq<TaggedStep>, i: int, j: int)
    requires IsBest(all, i) && IsBest(all, j)
    ensures i == j
  {
  }

  ghost predicate SameKey(all: seq<TaggedStep>) {
    forall i, j :: 0 <= i < |all| && 0 <= j < |all| ==> Ranked(all[i], all[j])
  }

  ghost predicate IsMinimum(v: real, all: seq<TaggedStep>) {
    && (exists i :: 0 <= i < |all| && Value(all[i]) == v)
    && (forall i :: 0 <= i < |all| ==> v <= Value(all[i]))
  }

  /** When all steps share one comparison key, the selected value is the minimum. */
  lemma BestIsMinimum(all: seq<TaggedStep>, best: Option<Measurement>, bestFile: Option<nat>, folder: Folder)
    requires Selected(all, best, bestFile, folder) && all != [] && SameKey(all)
    ensures best.Some? && IsMinimum(best.value.value, all)
  {
    var j :| IsBest(all, j) && best.value == all[j].step.measurement;
    assert Ranked(all[0], all[0]);
    forall i | 0 <= i < |all| ensures best.value.value <= Value(all[i]) {
      assert Ranked(all[0], all[i]);
    }
    assert Value(all[j]) == best.value.value;
  }

  lemma MinimumInAnyOrder(v: real, a: seq<TaggedStep>, b: seq<TaggedStep>)
    requires multiset(a) == multiset(b) && IsMinimum(v, a)
    ensures IsMinimum(v, b)
  {
    var i :| 0 <= i < |a| && Value(a[i]) == v;
    assert a[i] in multiset(b);
    var j :| 0 <= j < |b| && b[j] == a[i];
    forall k | 0 <= k < |b| ensures v <= Value(b[k]) {
      assert b[k] in multiset(a);
    }
  }

  lemma {:induction false} AllStepsPermute(a: seq<Completion>, b: seq<Completion>)
    requires multiset(a) == multiset(b)
    ensures multiset(AllSteps(a)) == multiset(AllSteps(b))
    decreases |a|
  {
    PermutationSize(a, b);
    if a != [] {
      var n := |a| - 1;
      assert a[n] in multiset(b);
      var i :| 0 <= i < |b| && b[i] == a[n];
      WithoutIndexMultiset(a, n);
      WithoutIndexMultiset(b, i);
      assert WithoutIndex(a, n) == a[..n];
      AllStepsPermute(a[..n], WithoutIndex(b, i));
      AllStepsWithout(b, i);
    }
  }

  lemma {:induction false} AllStepsWithout(b: seq<Completion>, i: nat)
    requires i < |b|
    ensures multiset(AllSteps(b)) == multiset(AllSteps(WithoutIndex(b, i))) + multiset(StepsOf(b[i]))
  {
    var n := |b| - 1;
    var init, last := b[..n], b[n];
    assert b == init + [last];
    AllStepsSnoc(init, last);
    WithoutIndexSnoc(init, last, i);
    if i < n {
      AllStepsWithout(init, i);
      AllStepsSnoc(WithoutIndex(init, i), last);
      MultisetOfConcat(AllSteps(init), StepsOf(last));
      MultisetOfConcat(AllSteps(WithoutIndex(init, i)), StepsOf(last));
    }
  }

  lemma MultisetOfConcat<T>(a: seq<T>, b: seq<T>)
    ensures multiset(a + b) == multiset(a) + multiset(b)
  {
  }

  /** For steps that share one comparison key the selected value does not depend on the
      order in which the rollouts finish. */
  method SelectInTwoOrders(a: seq<Completion>, b: seq<Completion>)
    returns (x: Option<Measurement>, y: Option<Measurement>)
    requires multiset(a) == multiset(b) && SameKey(AllSteps(a))
    ensures x.Some? <==> AllSteps(a) != []
    ensures x.Some? ==> y.Some? && x.value.value == y.value.value && IsMinimum(x.value.value, AllSteps(a))
  {
    var xFile, xFolder, yFile, yFolder;
    x, xFile, xFolder := SelectBest(a);
    y, yFile, yFolder := SelectBest(b);
    AllStepsPermute(a, b);
    var p, q := AllSteps(a), AllSteps(b);
    PermutationSize(p, q);
    if p != [] {
      forall i | 0 <= i < |q| ensures q[i] in p { assert q[i] in multiset(p); }
      BestIsMinimum(p, x, xFile, xFolder);
      BestIsMinimum(q, y, yFile, yFolder);
      MinimumInAnyOrder(y.value.value, q, p);
    }
  }
}
