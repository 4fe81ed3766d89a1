/** The end of a run: only a passed gate turns the selected candidate into the result. */
module RunConclusion {
  import opened Sequences
  import opened Measurements
  import opened OrderStatistics
  import opened BestSelection
  import opened Gate = PerformanceGate

  /** A source file: the program and the measurement in its last line. */
  datatype File = File(code: string, measurement: Option<Measurement>)

  function FileOf(step: Step): File { File(step.code, Some(step.measurement)) }

  /** `measure(f, k)` is what the k-th call of the confirming process returns for a file; a
      call that raises counts as one without a value. */
  type Measure = (File, nat) -> seq<Latency>

  /** The profiler back ends: only the one with `confirm_pair` can confirm. */
  datatype Backend = WithoutConfirmation | Confirms(sessions: nat, measure: Measure)

  function RunnerOf(measure: Measure, original: File, candidate: File): Runner {
    (p: Program, k: nat) => measure(if p == Baseline then original else candidate, k)
  }

  datatype Status = Improved | NoImprovement | Failed | Blocked

  datatype RunOutcome = RunOutcome(status: Status, artifact: File, searchSpeedup: Option<real>)

  /** Calls 2 i and 2 i + 1 measure the two files in session i, the original first in an even
      session and the candidate first in an odd one, and each delivers one value. */
  ghost predicate MeasuredInTurn(
    measure: Measure, original: File, candidate: File, n: nat, baseline: seq<Latency>, other: seq<Latency>)
  {
    && |baseline| == |other| == n
    && forall i: nat :: i < n ==> SessionInTurn(measure, original, candidate, i, baseline[i], other[i])
  }

  predicate SessionInTurn(
    measure: Measure, original: File, candidate: File, i: nat, baseline: Latency, other: Latency)
  {
    if i % 2 == 0 then measure(original, 2 * i) == [baseline] && measure(candidate, 2 * i + 1) == [other]
    else measure(candidate, 2 * i) == [other] && measure(original, 2 * i + 1) == [baseline]
  }

  lemma SessionIsInTurn(measure: Measure, original: File, candidate: File, i: nat, baseline: Latency, other: Latency)
    ensures var runner := RunnerOf(measure, original, candidate);
            SessionInTurn(measure, original, candidate, i, baseline, other) <==>
              && OneValue(runner, 2 * i) && OneValue(runner, 2 * i + 1)
              && baseline == SampleOf(runner, Baseline, i) && other == SampleOf(runner, Candidate, i)
  {
    OrderOfSession(i);
  }

  lemma {:induction false} SessionsAt(runner: Runner, p: Program, n: nat)
    ensures forall i: nat :: i < n ==> SessionsOf(runner, p, n)[i] == SampleOf(runner, p, i)
  {
    if n > 0 { SessionsAt(runner, p, n - 1); }
  }

  /** All calls deliver one value exactly when the files can be measured in turn, and then the
      sessions are those of the confirmation. */
  lemma SessionsAreInTurn(measure: Measure, original: File, candidate: File, n: nat)
    ensures var runner := RunnerOf(measure, original, candidate);
            && ((forall k: nat :: k < 2 * n ==> OneValue(runner, k)) <==>
                  MeasuredInTurn(measure, original, candidate, n, SessionsOf(runner, Baseline, n),
                                 SessionsOf(runner, Candidate, n)))
            && forall b, c :: MeasuredInTurn(measure, original, candidate, n, b, c) ==>
                 b == SessionsOf(runner, Baseline, n) && c == SessionsOf(runner, Candidate, n)
  {
    var runner := RunnerOf(measure, original, candidate);
    var sessions, others := SessionsOf(runner, Baseline, n), SessionsOf(runner, Candidate, n);
    SessionsAt(runner, Baseline, n);
    SessionsAt(runner, Candidate, n);
    forall i: nat, b, c | i < n
      ensures SessionInTurn(measure, original, candidate, i, b, c) <==>
                OneValue(runner, 2 * i) && OneValue(runner, 2 * i + 1) && b == sessions[i] && c == others[i]
    {
      SessionIsInTurn(measure, original, candidate, i, b, c);
    }
    if MeasuredInTurn(measure, original, candidate, n, sessions, others) {
      forall k: nat | k < 2 * n ensures OneValue(runner, k) {
        assert SessionInTurn(measure, original, candidate, k / 2, sessions[k / 2], others[k / 2]);
        assert k == 2 * (k / 2) || k == 2 * (k / 2) + 1;
      }
    }
  }

  /** The paired sessions of two files show an improvement: every call, in the order of the
      sessions, delivered one value, all values are usable, the median ratio reaches the
      threshold, and enough rows draw sessions whose median ratio exceeds 1. */
  ghost predicate ShownFaster(original: File, candidate: File, backend: Backend, draws: Draws)
    requires backend.Confirms? ==> DrawsFor(draws, backend.sessions)
  {
    && backend.Confirms? && backend.sessions >= 2
    && exists b, c ::
         && MeasuredInTurn(backend.measure, original, candidate, backend.sessions, b, c)
         && SessionsShowSpeedup(b, c, draws, |draws| - LowerIndex(|draws|))
  }

  ghost predicate SessionsShowSpeedup(
    baseline: seq<Latency>, candidate: seq<Latency>, draws: Draws, enough: int)
    requires |baseline| == |candidate| >= 2 && DrawsFor(draws, |baseline|)
  {
    && Usable(baseline) && Usable(candidate)
    && var ratios := Ratios(baseline, candidate);
       && Median(ratios) >= MINIMUM_SPEEDUP
       && Votes(ratios, draws, 1.0) >= enough
  }

  /** The gate after the selection.  A baseline must exist, the back end must confirm, and
      the confirmation must return a passed gate. */
  method Promoted(original: File, candidate: File, baseline: Option<Measurement>, backend: Backend, draws: Draws)
    returns (passed: bool)
    requires backend.Confirms? ==> DrawsFor(draws, backend.sessions)
    ensures passed <==> baseline.Some? && ShownFaster(original, candidate, backend, draws)
  {
    if backend.WithoutConfirmation? || baseline.None? { return false; }
    var runner := RunnerOf(backend.measure, original, candidate);
    SessionsAreInTurn(backend.measure, original, candidate, backend.sessions);
    var confirmation := ConfirmPair(runner, backend.sessions, draws);
    passed := confirmation.Confirmed? && Passes(confirmation.gate);
    GatePassesExactlyWhen(
      SessionsOf(runner, Baseline, backend.sessions), SessionsOf(runner, Candidate, backend.sessions),
      backend.sessions, MINIMUM_SPEEDUP, draws);
  }

  predicate StartsAt(text: string, word: string, i: nat) {
    i + |word| <= |text| && text[i..i + |word|] == word
  }

  predicate Mentions(text: string, word: string) {
    exists i: nat | i <= |text| :: StartsAt(text, word, i)
  }

  const PERMISSION_ERROR := "ERR_NVGPUCTRPERM"

  predicate PermissionDenied(errors: seq<string>) {
    exists i | 0 <= i < |errors| :: Mentions(errors[i], PERMISSION_ERROR)
  }

  /** Some error has the code of a denied permission in it. */
  ghost predicate SomeErrorDenies(errors: seq<string>) {
    exists i, before, after :: 0 <= i < |errors| && errors[i] == before + "ERR_NVGPUCTRPERM" + after
  }

  lemma DeniedExactlyWhen(errors: seq<string>)
    ensures PermissionDenied(errors) <==> SomeErrorDenies(errors)
  {
    if PermissionDenied(errors) {
      var i :| 0 <= i < |errors| && Mentions(errors[i], PERMISSION_ERROR);
      var p: nat :| p <= |errors[i]| && StartsAt(errors[i], PERMISSION_ERROR, p);
      var e := p + |PERMISSION_ERROR|;
      SplitAround(errors[i], p, e);
      assert errors[i] == errors[i][..p] + "ERR_NVGPUCTRPERM" + errors[i][e..];
    }
    if i, before, after :| 0 <= i < |errors| && errors[i] == before + "ERR_NVGPUCTRPERM" + after {
      assert StartsAt(errors[i], PERMISSION_ERROR, |before|);
    }
  }

  /** The end of `RLNCUAgent.run`.  `initial` is the measurement of the original program
      and `remeasured` the attempt to obtain a missing one.  With steps, the result is
      improved exactly when the paired sessions of the original and the best step show it,
      and then its artifact is the file of the best step; otherwise it is the original. */
  method ConcludeRun(
    completions: seq<Completion>, errors: seq<string>, original: string,
    initial: Option<Measurement>, remeasured: Option<Measurement>, backend: Backend, draws: Draws)
    returns (outcome: RunOutcome)
    requires backend.Confirms? ==> DrawsFor(draws, backend.sessions)
    ensures var all := AllSteps(completions);
            var baseline := if initial.Some? then initial else remeasured;
            && (all == [] <==> outcome.status in {Failed, Blocked})
            && (all != [] ==> exists j :: IsBest(all, j))
            && (forall j :: IsBest(all, j) ==>
                  ConcludesWith(outcome, File(original, None), all[j].step, baseline, backend, draws))
            && (outcome.status != Improved ==> outcome.artifact == File(original, baseline))
    ensures outcome.status == Blocked <==> AllSteps(completions) == [] && SomeErrorDenies(errors)
  {
    DeniedExactlyWhen(errors);
    ghost var all := AllSteps(completions);
    var best, bestFile, folder := SelectBest(completions);
    var baseline := if initial.Some? then initial else remeasured;
    if best.None? {
      return RunOutcome(if PermissionDenied(errors) then Blocked else Failed, File(original, baseline), None);
    }
    ghost var j :| IsBest(all, j) && best.value == all[j].step.measurement && bestFile == Some(all[j].iteration) &&
                   all[j].iteration in folder && folder[all[j].iteration] == all[j].step;
    var file := FileOf(folder[bestFile.value]);
    var searchSpeedup := if baseline.None? then None else SpeedupOver(best.value, baseline.value);
    var passed := Promoted(File(original, None), file, baseline, backend, draws);
    outcome := if passed then RunOutcome(Improved, file, searchSpeedup)
               else RunOutcome(NoImprovement, File(original, baseline), searchSpeedup);
    forall i | IsBest(all, i)
      ensures ConcludesWith(outcome, File(original, None), all[i].step, baseline, backend, draws)
    {
      BestIsUnique(all, i, j);
    }
  }

  /** How the outcome relates to the best step. */
  ghost predicate ConcludesWith(
    outcome: RunOutcome, original: File, best: Step, baseline: Option<Measurement>, backend: Backend, draws: Draws)
    requires backend.Confirms? ==> DrawsFor(draws, backend.sessions)
  {
    && (outcome.status == Improved <==> baseline.Some? && ShownFaster(original, FileOf(best), backend, draws))
    && (outcome.status == Improved ==> outcome.artifact == FileOf(best))
    && outcome.searchSpeedup == if baseline.None? then None else SpeedupOver(best.measurement, baseline.value)
  }

  const CONFIRMATION_SESSIONS := 5

  /** All ten calls deliver one usable value, in at least three of the five sessions the
      candidate is faster by the factor 1.01, and at least 9751 rows draw sessions with a
      faster candidate at least three times. */
  ghost predicate ShownByTenCalls(original: File, candidate: File, measure: Measure, draws: Draws)
    requires DrawsFor(draws, 5)
  {
    exists b, c :: MeasuredInTurn(measure, original, candidate, 5, b, c) && FiveSessionsShow(b, c, draws)
  }

  ghost predicate FiveSessionsShow(b: seq<Latency>, c: seq<Latency>, draws: Draws)
    requires |b| == |c| == 5 && DrawsFor(draws, 5)
  {
    && Usable(b) && Usable(c) && SessionsReaching(b, c, 1.01) >= 3
    && |set i | 0 <= i < |draws| && RowFaster(b, c, draws[i])| >= 9751
  }

  ghost predicate BestIsShown(all: seq<TaggedStep>, j: int, original: string, measure: Measure, draws: Draws)
    requires DrawsFor(draws, 5)
  {
    IsBest(all, j) && ShownByTenCalls(File(original, None), FileOf(all[j].step), measure, draws)
  }

  lemma ShownAtShippedConstants(original: File, candidate: File, measure: Measure, draws: Draws)
    requires DrawsFor(draws, CONFIRMATION_SESSIONS) && |draws| == RESAMPLES
    ensures ShownFaster(original, candidate, Confirms(CONFIRMATION_SESSIONS, measure), draws)
            <==> ShownByTenCalls(original, candidate, measure, draws)
  {
    hide SessionInTurn, SessionsShowSpeedup, FiveSessionsShow;
    var shown := ShownFaster(original, candidate, Confirms(CONFIRMATION_SESSIONS, measure), draws);
    if shown {
      var b, c :| && MeasuredInTurn(measure, original, candidate, 5, b, c)
                  && SessionsShowSpeedup(b, c, draws, |draws| - LowerIndex(|draws|));
      FiveSessionsAgree(b, c, draws);
    }
    if ShownByTenCalls(original, candidate, measure, draws) {
      var b, c :| MeasuredInTurn(measure, original, candidate, 5, b, c) && FiveSessionsShow(b, c, draws);
      FiveSessionsAgree(b, c, draws);
    }
  }

  lemma FiveSessionsAgree(b: seq<Latency>, c: seq<Latency>, draws: Draws)
    requires |b| == |c| == 5 && DrawsFor(draws, 5) && |draws| == RESAMPLES
    ensures SessionsShowSpeedup(b, c, draws, |draws| - LowerIndex(|draws|)) <==> FiveSessionsShow(b, c, draws)
  {
    hide Votes, RowFaster, Median;
    GatePassesExactlyWhen(b, c, MINIMUM_SESSIONS, MINIMUM_SPEEDUP, draws);
    FiveSessionsPassExactlyWhen(b, c, draws);
  }

  /** With the shipped five sessions and 10000 resamples. */
  method ConcludeShippedRun(
    completions: seq<Completion>, errors: seq<string>, original: string,
    initial: Option<Measurement>, remeasured: Option<Measurement>, measure: Measure, draws: Draws)
    returns (outcome: RunOutcome)
    requires DrawsFor(draws, CONFIRMATION_SESSIONS) && |draws| == RESAMPLES
    ensures outcome.status == Improved <==>
            && (initial.Some? || remeasured.Some?)
            && exists j :: BestIsShown(AllSteps(completions), j, original, measure, draws)
    ensures outcome.status == Improved ==>
            forall j :: IsBest(AllSteps(completions), j) ==> outcome.artifact == FileOf(AllSteps(completions)[j].step)
    ensures outcome.status != Improved ==>
            outcome.artifact == File(original, if initial.Some? then initial else remeasured)
  {
    ghost var all := AllSteps(completions);
    outcome := ConcludeRun(completions, errors, original, initial, remeasured,
                           Confirms(CONFIRMATION_SESSIONS, measure), draws);
    if all != [] {
      ghost var j :| IsBest(all, j);
      ShownAtShippedConstants(File(original, None), FileOf(all[j].step), measure, draws);
      forall i | IsBest(all, i) ensures i == j { BestIsUnique(all, i, j); }
      assert outcome.status == Improved ==> BestIsShown(all, j, original, measure, draws);
    }
  }

  ghost predicate AllMateriallyFaster(baseline: seq<Latency>, candidate: seq<Latency>) {
    && |baseline| == |candidate| && Usable(baseline) && Usable(candidate)
    && var ratios := Ratios(baseline, candidate);
       forall i :: 0 <= i < |ratios| ==> ratios[i] >= MINIMUM_SPEEDUP
  }

  /** Sessions in which the candidate is materially faster throughout show it, whatever is
      drawn. */
  lemma MateriallyFasterIsShown(original: File, candidate: File, sessions: nat, measure: Measure, draws: Draws)
    requires sessions >= 2 && DrawsFor(draws, sessions)
    requires exists b, c ::
               MeasuredInTurn(measure, original, candidate, sessions, b, c) && AllMateriallyFaster(b, c)
    ensures ShownFaster(original, candidate, Confirms(sessions, measure), draws)
  {
    var b, c :| MeasuredInTurn(measure, original, candidate, sessions, b, c) && AllMateriallyFaster(b, c);
    MateriallyFasterSessionsPass(b, c, sessions, MINIMUM_SPEEDUP, draws);
    GatePassesExactlyWhen(b, c, sessions, MINIMUM_SPEEDUP, draws);
  }
}
