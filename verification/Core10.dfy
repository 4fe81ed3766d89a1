/** The Core 10 comparison: candidate results joined with same-GPU PyTorch results. */
module Core10 {
  // The generator is seeded anew for each row and draws indices, so what it draws depends
  // on the number of sessions only.

  import opened Reals
  import opened Sequences
  import opened OrderStatistics
  import opened PerformanceGate

  const TASK_IDS: seq<string> := ["004", "007", "019", "023", "026", "036", "040", "047", "088", "095"]
  const MIN_MATERIAL_SPEEDUP := 1.01
  const MIN_CONFIRMATION_SESSIONS := 5

  type Generator = g: nat -> Draws | forall n: nat :: DrawsFor(g(n), n)
    witness (n: nat) => [seq(n, _ => 0)]

  /** `paired_bootstrap_interval` of the comparison script: both bounds are those that the
      draws decide. */
  method PairedBootstrapInterval(sessionSpeedups: seq<real>, draws: Draws) returns (r: Option<Interval>)
    requires DrawsFor(draws, |sessionSpeedups|)
    ensures r == BootstrapInterval(sessionSpeedups, draws)
    ensures r.Some? <==> |sessionSpeedups| >= 2
    ensures r.Some? ==> forall x :: BoundsAt(sessionSpeedups, draws, r.value, x)
  {
    IntervalIsDecided(sessionSpeedups, draws);
    if |sessionSpeedups| < 2 { return None; }
    var estimates: seq<real> := [];
    for i := 0 to |draws|
      invariant estimates == Estimates(sessionSpeedups, draws)[..i]
    {
      var sample: seq<real> := [];
      for j := 0 to |sessionSpeedups|
        invariant sample == Resample(sessionSpeedups, draws[i])[..j]
      {
        sample := sample + [sessionSpeedups[draws[i][j]]];
      }
      assert sample == Resample(sessionSpeedups, draws[i]);
      estimates := estimates + [Median(sample)];
    }
    assert estimates == Estimates(sessionSpeedups, draws);
    estimates := Sorted(estimates);
    r := Some(Interval(estimates[LowerIndex(|estimates|)], estimates[UpperIndex(|estimates|)]));
  }

  datatype CandidateRow = CandidateRow(
    taskId: string, name: string, correct: bool, stable: bool, claimAllowed: bool, notSlower: bool,
    baselineUs: real, candidateUs: real, speedup: real, sessionSpeedups: seq<real>)

  datatype TorchRow = TorchRow(taskId: string, name: string, correct: bool, stable: bool, medianUs: real)

  // ----- one candidate ---------------------------------------------------------------------

  datatype Outcome = Improved | Failed | Inconclusive | NoImprovement

  datatype Exclusion =
    | CorrectnessFailed | SessionSpreadExceeded | InsufficientConfirmation | PairedSessionSlower | GateFailed

  predicate Verified(c: CandidateRow, interval: Option<Interval>) {
    && c.correct && c.stable && c.claimAllowed && c.notSlower
    && c.speedup >= MIN_MATERIAL_SPEEDUP && |c.sessionSpeedups| >= MIN_CONFIRMATION_SESSIONS
    && interval.Some? && interval.value.lower > 1.0
  }

  function Judge(c: CandidateRow, interval: Option<Interval>): (Outcome, Option<Exclusion>) {
    if Verified(c, interval) then (Improved, None)
    else if !c.correct then (Failed, Some(CorrectnessFailed))
    else if !c.stable then (Inconclusive, Some(SessionSpreadExceeded))
    else if |c.sessionSpeedups| < MIN_CONFIRMATION_SESSIONS || interval.None? then
      (Inconclusive, Some(InsufficientConfirmation))
    else (NoImprovement, Some(if !c.notSlower then PairedSessionSlower else GateFailed))
  }

  // ----- PyTorch methods ------------------------------------------------------------------------

  function MethodsFor(rows: seq<TorchRow>, id: string): seq<TorchRow> {
    if rows == [] then []
    else
      var last := rows[|rows| - 1];
      MethodsFor(rows[..|rows| - 1], id) + (if last.taskId == id then [last] else [])
  }

  function EagerName(id: string): string {
    if id == "088" then "pytorch_driver_formula" else "pytorch_eager"
  }

  /** The first row of that name. */
  function Named(rows: seq<TorchRow>, name: string): Option<TorchRow> {
    if rows == [] then None else if rows[0].name == name then Some(rows[0]) else Named(rows[1..], name)
  }

  function CorrectOnes(rows: seq<TorchRow>): seq<TorchRow> {
    if rows == [] then []
    else if rows[0].correct then [rows[0]] + CorrectOnes(rows[1..])
    else CorrectOnes(rows[1..])
  }

  function StableOnes(rows: seq<TorchRow>): seq<TorchRow> {
    if rows == [] then []
    else if rows[0].stable then [rows[0]] + StableOnes(rows[1..])
    else StableOnes(rows[1..])
  }

  /** `min` by latency: the first of the fastest. */
  function Fastest(rows: seq<TorchRow>): (r: TorchRow)
    requires rows != []
    ensures r in rows
  {
    if |rows| == 1 then rows[0]
    else
      var rest := Fastest(rows[1..]);
      if rows[0].medianUs <= rest.medianUs then rows[0] else rest
  }

  function Best(rows: seq<TorchRow>): Option<TorchRow> {
    var stable := StableOnes(CorrectOnes(rows));
    if stable == [] then None else Some(Fastest(stable))
  }

  ghost predicate Eligible(row: TorchRow) { row.correct && row.stable }

  /** Row k is eligible, no eligible row is faster, and the eligible rows before it are
      slower. */
  ghost predicate FirstFastest(rows: seq<TorchRow>, k: nat) {
    && k < |rows| && Eligible(rows[k])
    && (forall j :: 0 <= j < |rows| && Eligible(rows[j]) ==> rows[k].medianUs <= rows[j].medianUs)
    && forall j :: 0 <= j < k && Eligible(rows[j]) ==> rows[k].medianUs < rows[j].medianUs
  }

  function EligibleOnes(rows: seq<TorchRow>): seq<TorchRow> { StableOnes(CorrectOnes(rows)) }

  lemma EligibleHead(rows: seq<TorchRow>)
    requires rows != []
    ensures EligibleOnes(rows)
            == if Eligible(rows[0]) then [rows[0]] + EligibleOnes(rows[1..]) else EligibleOnes(rows[1..])
  {
    if rows[0].correct {
      assert CorrectOnes(rows) == [rows[0]] + CorrectOnes(rows[1..]);
      assert CorrectOnes(rows)[1..] == CorrectOnes(rows[1..]);
    }
  }

  lemma FastestOfCons(head: TorchRow, tail: seq<TorchRow>)
    requires tail != []
    ensures Fastest([head] + tail) == if head.medianUs <= Fastest(tail).medianUs then head else Fastest(tail)
  {
    assert ([head] + tail)[1..] == tail;
  }

  lemma FirstFastestShift(rows: seq<TorchRow>, m: nat)
    requires rows != [] && FirstFastest(rows[1..], m)
    requires !Eligible(rows[0]) || rows[1..][m].medianUs < rows[0].medianUs
    ensures FirstFastest(rows, m + 1)
  {
    assert forall j :: 1 <= j < |rows| ==> rows[j] == rows[1..][j - 1];
  }

  lemma HeadIsFirstFastest(rows: seq<TorchRow>)
    requires rows != [] && Eligible(rows[0])
    requires forall j :: 0 <= j < |rows[1..]| && Eligible(rows[1..][j]) ==> rows[0].medianUs <= rows[1..][j].medianUs
    ensures FirstFastest(rows, 0)
  {
    assert forall j :: 1 <= j < |rows| ==> rows[j] == rows[1..][j - 1];
  }

  lemma {:induction false} BestIsFirstFastest(rows: seq<TorchRow>) returns (k: nat)
    ensures Best(rows).None? <==> forall j :: 0 <= j < |rows| ==> !Eligible(rows[j])
    ensures Best(rows).Some? ==> FirstFastest(rows, k) && Best(rows) == Some(rows[k])
  {
    k := 0;
    if rows != [] {
      var head, rest := rows[0], rows[1..];
      var m := BestIsFirstFastest(rest);
      EligibleHead(rows);
      assert forall j :: 1 <= j < |rows| ==> rows[j] == rest[j - 1];
      if Best(rest).Some? && Eligible(head) { FastestOfCons(head, EligibleOnes(rest)); }
      if Best(rest).Some? && (!Eligible(head) || rest[m].medianUs < head.medianUs) {
        k := m + 1;
        FirstFastestShift(rows, m);
      } else if Eligible(head) {
        HeadIsFirstFastest(rows);
      }
    }
  }

  // ----- one row ------------------------------------------------------------------------------------

  datatype Comparison = Comparison(eager: real, best: Option<real>)

  datatype Row = Row(
    taskId: string, outcome: Outcome, exclusion: Option<Exclusion>, correct: bool, stable: bool,
    attemptedSpeedup: real, interval: Option<Interval>, verified: bool,
    selectedName: string, selectedUs: real, portfolioSpeedup: real,
    torchBest: Option<TorchRow>, candidateVersus: Comparison, selectedVersus: Comparison)

  datatype RowResult = Joined(row: Row) | MissingInputs | MissingEager | NoCorrectMethod | DivisionByZero

  const BASELINE_NAME := "upstream_baseline"

  function Ratio(a: real, b: real): (q: real)
    requires b != 0.0
    ensures Times(q, b) == a
  {
    a / b
  }

  function Versus(eager: TorchRow, best: Option<TorchRow>, us: real): Comparison
    requires us != 0.0
  {
    Comparison(Ratio(eager.medianUs, us), if best.Some? then Some(Ratio(best.value.medianUs, us)) else None)
  }

  function JoinRow(id: string, c: CandidateRow, methods: seq<TorchRow>, draws: Draws): RowResult
    requires DrawsFor(draws, |c.sessionSpeedups|)
  {
    JoinWith(id, c, methods, BootstrapInterval(c.sessionSpeedups, draws))
  }

  /** The row of a task, given its bootstrap interval. */
  function JoinWith(id: string, c: CandidateRow, methods: seq<TorchRow>, interval: Option<Interval>): RowResult {
    var eager := Named(methods, EagerName(id));
    var best := Best(methods);
    var verified := Verified(c, interval);
    var selectedUs := if verified then c.candidateUs else c.baselineUs;
    if eager.None? then MissingEager
    else if CorrectOnes(methods) == [] then NoCorrectMethod
    else if selectedUs == 0.0 || c.candidateUs == 0.0 then DivisionByZero
    else Joined(Row(
      id, Judge(c, interval).0, Judge(c, interval).1, c.correct, c.stable, c.speedup, interval, verified,
      if verified then c.name else BASELINE_NAME, selectedUs, Ratio(c.baselineUs, selectedUs), best,
      Versus(eager.value, best, c.candidateUs), Versus(eager.value, best, selectedUs)))
  }

  lemma RatioOfSelf(x: real)
    requires x != 0.0
    ensures Ratio(x, x) == 1.0
  {
  }

  // ----- what a row says ------------------------------------------------------------------

  ghost predicate FirstNamed(rows: seq<TorchRow>, name: string, k: nat) {
    && k < |rows| && rows[k].name == name
    && forall j :: 0 <= j < k ==> rows[j].name != name
  }

  lemma {:induction false} NamedIsFirst(rows: seq<TorchRow>, name: string) returns (k: nat)
    ensures Named(rows, name).None? <==> forall j :: 0 <= j < |rows| ==> rows[j].name != name
    ensures Named(rows, name).Some? ==> FirstNamed(rows, name, k) && Named(rows, name) == Some(rows[k])
  {
    k := 0;
    if rows != [] && rows[0].name != name {
      var rest := rows[1..];
      var m := NamedIsFirst(rest, name);
      assert forall j :: 1 <= j < |rows| ==> rows[j] == rest[j - 1];
      k := m + 1;
    }
  }

  /** Row k is the eager row of the task: the first one of the driver formula for task 088,
      and of plain eager execution for every other task. */
  ghost predicate EagerAt(id: string, methods: seq<TorchRow>, k: nat) {
    if id == "088" then FirstNamed(methods, "pytorch_driver_formula", k) else FirstNamed(methods, "pytorch_eager", k)
  }

  /** A comparison is about this latency: times it, the two ratios are the latencies of the
      eager row and of the best row. */
  ghost predicate ComparesAt(v: Comparison, us: real, eagerUs: real, best: Option<TorchRow>) {
    Times(v.eager, us) == eagerUs && BestAt(v, us, best)
  }

  ghost predicate BestAt(v: Comparison, us: real, best: Option<TorchRow>) {
    && (v.best.Some? <==> best.Some?)
    && (v.best.Some? ==> Times(v.best.value, us) == best.value.medianUs)
  }

  lemma VersusCompares(eager: TorchRow, best: Option<TorchRow>, us: real)
    requires us != 0.0
    ensures ComparesAt(Versus(eager, best, us), us, eager.medianUs, best)
  {
  }

  /** The PyTorch side of a row: the best method is the first of the fastest that are correct
      and stable; both comparisons are with it and with the eager row, one at the selected
      latency and the other at the candidate's. */
  ghost predicate ComparesWithTorch(id: string, c: CandidateRow, methods: seq<TorchRow>, row: Row, e: nat, k: nat) {
    && EagerAt(id, methods, e)
    && (row.torchBest.None? <==> forall j :: 0 <= j < |methods| ==> !Eligible(methods[j]))
    && (row.torchBest.Some? ==> FirstFastest(methods, k) && row.torchBest == Some(methods[k]))
    && ComparesAt(row.selectedVersus, row.selectedUs, methods[e].medianUs, row.torchBest)
    && ComparesAt(row.candidateVersus, c.candidateUs, methods[e].medianUs, row.torchBest)
  }

  lemma JoinedCompares(id: string, c: CandidateRow, methods: seq<TorchRow>, interval: Option<Interval>)
    returns (e: nat, k: nat)
    requires JoinWith(id, c, methods, interval).Joined?
    ensures ComparesWithTorch(id, c, methods, JoinWith(id, c, methods, interval).row, e, k)
  {
    hide Versus, FirstFastest, ComparesAt, Judge, Verified, CorrectOnes, Named, Best;
    var row := JoinWith(id, c, methods, interval).row;
    var name := EagerName(id);
    e := NamedIsFirst(methods, name);
    k := BestIsFirstFastest(methods);
    VersusCompares(methods[e], row.torchBest, row.selectedUs);
    VersusCompares(methods[e], row.torchBest, c.candidateUs);
  }

  lemma {:induction false} NoneCorrect(rows: seq<TorchRow>)
    ensures CorrectOnes(rows) == [] <==> forall j :: 0 <= j < |rows| ==> !rows[j].correct
  {
    if rows != [] {
      NoneCorrect(rows[1..]);
      assert forall j :: 1 <= j < |rows| ==> rows[j] == rows[1..][j - 1];
    }
  }

  /** Why a row cannot be computed, in order of precedence: no eager row, no correct method,
      or a latency of zero to divide by. */
  lemma JoinFailsExactlyWhen(id: string, c: CandidateRow, methods: seq<TorchRow>, interval: Option<Interval>)
    ensures var r := JoinWith(id, c, methods, interval);
            var noEager := forall k: nat :: !EagerAt(id, methods, k);
            var noneCorrect := forall j :: 0 <= j < |methods| ==> !methods[j].correct;
            && !r.MissingInputs?
            && (r.MissingEager? <==> noEager)
            && (r.NoCorrectMethod? <==> !noEager && noneCorrect)
            && (r.DivisionByZero? <==>
                  && !noEager && !noneCorrect
                  && (c.candidateUs == 0.0 || (c.baselineUs == 0.0 && !Verified(c, interval))))
  {
    NoneCorrect(methods);
    var k := NamedIsFirst(methods, EagerName(id));
    assert Named(methods, EagerName(id)).Some? ==> EagerAt(id, methods, k);
  }

  /** What confirmation a candidate needs for its outcome and its reason of exclusion. */
  ghost predicate Confirms(c: CandidateRow, draws: Draws)
    requires DrawsFor(draws, |c.sessionSpeedups|)
  {
    && c.correct && c.stable && c.claimAllowed && c.notSlower && c.speedup >= 1.01
    && |c.sessionSpeedups| >= 5
    && Votes(c.sessionSpeedups, draws, 1.0) >= |draws| - LowerIndex(|draws|)
  }

  /** The outcome of a row and its reason of exclusion. */
  lemma OutcomeExactlyWhen(id: string, c: CandidateRow, methods: seq<TorchRow>, draws: Draws)
    requires DrawsFor(draws, |c.sessionSpeedups|) && JoinRow(id, c, methods, draws).Joined?
    ensures var row := JoinRow(id, c, methods, draws).row;
            var few := |c.sessionSpeedups| < 5;
            && (row.outcome == Improved <==> Confirms(c, draws))
            && (row.outcome == Failed <==> !c.correct)
            && (row.outcome == Inconclusive <==> c.correct && (!c.stable || few))
            && (row.outcome == NoImprovement <==> c.correct && c.stable && !few && !Confirms(c, draws))
            && (row.exclusion.None? <==> row.outcome == Improved)
            && (row.exclusion == Some(CorrectnessFailed) <==> !c.correct)
            && (row.exclusion == Some(SessionSpreadExceeded) <==> c.correct && !c.stable)
            && (row.exclusion == Some(InsufficientConfirmation) <==> c.correct && c.stable && few)
            && (row.exclusion == Some(PairedSessionSlower) <==> c.correct && c.stable && !few && !c.notSlower)
            && (row.exclusion == Some(GateFailed)
                <==> c.correct && c.stable && !few && c.notSlower && !Confirms(c, draws))
  {
    if |c.sessionSpeedups| >= 2 {
      BoundsExceed(c.sessionSpeedups, draws, 1.0);
    }
  }

  /** What is selected, and the fields that come from the candidate. */
  lemma Selection(id: string, c: CandidateRow, methods: seq<TorchRow>, draws: Draws)
    requires DrawsFor(draws, |c.sessionSpeedups|) && JoinRow(id, c, methods, draws).Joined?
    ensures var row := JoinRow(id, c, methods, draws).row;
            && row.taskId == id && row.correct == c.correct && row.stable == c.stable
            && row.attemptedSpeedup == c.speedup
            && (row.interval.Some? <==> |c.sessionSpeedups| >= 2)
            && (row.interval.Some? ==> forall x :: BoundsAt(c.sessionSpeedups, draws, row.interval.value, x))
            && (row.outcome == Improved <==> row.verified)
            && (row.verified ==> c.speedup >= MIN_MATERIAL_SPEEDUP)
            && row.selectedUs != 0.0 && row.portfolioSpeedup == Ratio(c.baselineUs, row.selectedUs)
            && row.selectedUs == (if row.verified then c.candidateUs else c.baselineUs)
            && row.selectedName == (if row.verified then c.name else BASELINE_NAME)
  {
    hide BootstrapInterval, BoundsAt;
    IntervalIsDecided(c.sessionSpeedups, draws);
  }

  /** A row of a measured candidate whose speedup is the quotient of its latencies never
      loses against the baseline: it is materially faster exactly when the outcome is
      improved, and then the candidate was selected; otherwise it is the baseline itself. */
  lemma PortfolioNeverLoses(id: string, c: CandidateRow, methods: seq<TorchRow>, draws: Draws)
    requires DrawsFor(draws, |c.sessionSpeedups|) && JoinRow(id, c, methods, draws).Joined?
    requires c.candidateUs != 0.0 && c.speedup == Ratio(c.baselineUs, c.candidateUs)
    ensures var row := JoinRow(id, c, methods, draws).row;
            && row.portfolioSpeedup >= 1.0
            && (row.outcome == Improved <==> row.portfolioSpeedup >= MIN_MATERIAL_SPEEDUP)
            && (row.outcome == Improved ==> row.selectedUs == c.candidateUs && row.selectedName == c.name)
            && (row.outcome != Improved ==>
                  row.portfolioSpeedup == 1.0 && row.selectedUs == c.baselineUs && row.selectedName == BASELINE_NAME)
  {
    Selection(id, c, methods, draws);
    var row := JoinRow(id, c, methods, draws).row;
    RatioOfSelf(row.selectedUs);
  }

  /** What an improved row rests on: at least five sessions, and with the shipped number of
      resamples at least 9751 rows that draw sessions whose median exceeds 1. */
  lemma ImprovedRowsAreConfirmed(id: string, c: CandidateRow, methods: seq<TorchRow>, draws: Draws)
    requires DrawsFor(draws, |c.sessionSpeedups|) && |draws| == RESAMPLES
    requires JoinRow(id, c, methods, draws).Joined?
    ensures JoinRow(id, c, methods, draws).row.outcome == Improved <==>
            && c.correct && c.stable && c.claimAllowed && c.notSlower && c.speedup >= 1.01
            && |c.sessionSpeedups| >= 5
            && Votes(c.sessionSpeedups, draws, 1.0) >= 9751
  {
    OutcomeExactlyWhen(id, c, methods, draws);
  }

  /** A correct and stable candidate with at least five sessions, all materially faster,
      is improved whatever is drawn. */
  lemma MateriallyFasterIsImproved(id: string, c: CandidateRow, methods: seq<TorchRow>, draws: Draws)
    requires DrawsFor(draws, |c.sessionSpeedups|) && JoinRow(id, c, methods, draws).Joined?
    requires c.correct && c.stable && c.claimAllowed && c.notSlower
    requires |c.sessionSpeedups| >= 5 && c.speedup >= 1.01
    requires forall i :: 0 <= i < |c.sessionSpeedups| ==> c.sessionSpeedups[i] >= 1.01
    ensures JoinRow(id, c, methods, draws).row.outcome == Improved
  {
    var s := c.sessionSpeedups;
    Extremes(s);
    IntervalBounded(s, draws, 1.01, Maximum(s));
  }

  // ----- all rows --------------------------------------------------------------------------------------

  /** A later row of the same task replaces an earlier one. */
  function LastCandidate(rows: seq<CandidateRow>, id: string): Option<CandidateRow> {
    if rows == [] then None
    else
      var last := rows[|rows| - 1];
      if last.taskId == id then Some(last) else LastCandidate(rows[..|rows| - 1], id)
  }

  predicate HasInputs(candidates: seq<CandidateRow>, torch: seq<TorchRow>, id: string) {
    LastCandidate(candidates, id).Some? && MethodsFor(torch, id) != []
  }

  ghost predicate Complete(candidates: seq<CandidateRow>, torch: seq<TorchRow>, ids: seq<string>) {
    forall i :: 0 <= i < |ids| ==> HasInputs(candidates, torch, ids[i])
  }

  function ResultFor(candidates: seq<CandidateRow>, torch: seq<TorchRow>, id: string, rng: Generator): RowResult {
    if !HasInputs(candidates, torch, id) then MissingInputs
    else
      var c := LastCandidate(candidates, id).value;
      JoinRow(id, c, MethodsFor(torch, id), rng(|c.sessionSpeedups|))
  }

  datatype Report = Rows(rows: seq<Row>) | Incomplete(candidates: set<string>, torch: set<string>)
                  | RowError(index: nat, error: RowResult)

  /** The last candidate row of each task. */
  method IndexCandidates(rows: seq<CandidateRow>) returns (byTask: map<string, CandidateRow>)
    ensures forall id :: LastCandidate(rows, id) == if id in byTask then Some(byTask[id]) else None
  {
    byTask := map[];
    for k := 0 to |rows|
      invariant forall id :: LastCandidate(rows[..k], id) == if id in byTask then Some(byTask[id]) else None
    {
      TakeSnoc(rows, k);
      assert rows[..k + 1][..k] == rows[..k];
      byTask := byTask[rows[k].taskId := rows[k]];
    }
    assert rows[..|rows|] == rows;
  }

  /** The PyTorch rows of each task, in order. */
  method GroupMethods(rows: seq<TorchRow>) returns (byTask: map<string, seq<TorchRow>>)
    ensures forall id :: MethodsFor(rows, id) == if id in byTask then byTask[id] else []
    ensures forall id :: id in byTask ==> byTask[id] != []
  {
    byTask := map[];
    for k := 0 to |rows|
      invariant forall id :: MethodsFor(rows[..k], id) == if id in byTask then byTask[id] else []
      invariant forall id :: id in byTask ==> byTask[id] != []
    {
      var row := rows[k];
      ghost var before := byTask;
      if row.taskId !in byTask {
        byTask := byTask[row.taskId := []];
      }
      byTask := byTask[row.taskId := byTask[row.taskId] + [row]];
      forall id
        ensures MethodsFor(rows[..k + 1], id) == if id in byTask then byTask[id] else []
      {
        MethodsSnoc(rows, k, id);
      }
    }
    assert rows[..|rows|] == rows;
  }

  lemma MethodsSnoc(rows: seq<TorchRow>, k: nat, id: string)
    requires k < |rows|
    ensures MethodsFor(rows[..k + 1], id)
            == if rows[k].taskId == id then MethodsFor(rows[..k], id) + [rows[k]] else MethodsFor(rows[..k], id)
  {
    TakeSnoc(rows, k);
    assert rows[..k + 1][..k] == rows[..k];
    var before := MethodsFor(rows[..k], id);
    assert before + [] == before;
  }

  /** The rows belong to the tasks at the same positions. */
  ghost predicate RowsOf(
    candidates: seq<CandidateRow>, torch: seq<TorchRow>, ids: seq<string>, rng: Generator, rows: seq<Row>)
  {
    && |rows| <= |ids|
    && forall i :: 0 <= i < |rows| ==> RowAt(candidates, torch, ids[i], rng, rows[i])
  }

  predicate RowAt(candidates: seq<CandidateRow>, torch: seq<TorchRow>, id: string, rng: Generator, row: Row) {
    ResultFor(candidates, torch, id, rng) == Joined(row)
  }

  ghost predicate AllJoined(candidates: seq<CandidateRow>, torch: seq<TorchRow>, ids: seq<string>, rng: Generator) {
    forall i :: 0 <= i < |ids| ==> ResultFor(candidates, torch, ids[i], rng).Joined?
  }

  lemma RowsOfJoined(
    candidates: seq<CandidateRow>, torch: seq<TorchRow>, ids: seq<string>, rng: Generator, rows: seq<Row>)
    requires RowsOf(candidates, torch, ids, rng, rows)
    ensures AllJoined(candidates, torch, ids[..|rows|], rng)
  {
    forall i | 0 <= i < |rows| ensures ResultFor(candidates, torch, ids[..|rows|][i], rng).Joined? {
      assert RowAt(candidates, torch, ids[i], rng, rows[i]);
    }
  }

  lemma RowsSnoc(
    candidates: seq<CandidateRow>, torch: seq<TorchRow>, ids: seq<string>, rng: Generator, rows: seq<Row>, row: Row)
    requires RowsOf(candidates, torch, ids, rng, rows)
    requires |rows| < |ids| && RowAt(candidates, torch, ids[|rows|], rng, row)
    ensures RowsOf(candidates, torch, ids, rng, rows + [row])
  {
    hide RowAt;
    var more := rows + [row];
    forall i | 0 <= i < |more| ensures RowAt(candidates, torch, ids[i], rng, more[i]) {
      if i < |rows| { assert RowAt(candidates, torch, ids[i], rng, rows[i]); }
    }
  }

  /** The maps hold the last candidate row and the method rows of every task. */
  ghost predicate Indexed(
    candidates: seq<CandidateRow>, torch: seq<TorchRow>,
    candidateRows: map<string, CandidateRow>, torchRows: map<string, seq<TorchRow>>)
  {
    && (forall id :: LastCandidate(candidates, id) == if id in candidateRows then Some(candidateRows[id]) else None)
    && (forall id :: MethodsFor(torch, id) == if id in torchRows then torchRows[id] else [])
  }

  method JoinTasks(
    ghost candidates: seq<CandidateRow>, ghost torch: seq<TorchRow>, ids: seq<string>, rng: Generator,
    candidateRows: map<string, CandidateRow>, torchRows: map<string, seq<TorchRow>>) returns (r: Report)
    requires Indexed(candidates, torch, candidateRows, torchRows)
    requires forall i :: 0 <= i < |ids| ==> HasInputs(candidates, torch, ids[i])
    ensures r.Rows? <==> AllJoined(candidates, torch, ids, rng)
    ensures r.Rows? ==> |r.rows| == |ids| && RowsOf(candidates, torch, ids, rng, r.rows)
    ensures r.RowError? ==>
      && r.index < |ids| && ResultFor(candidates, torch, ids[r.index], rng) == r.error
      && !r.error.Joined? && AllJoined(candidates, torch, ids[..r.index], rng)
    ensures !r.Incomplete?
  {
    var rows: seq<Row> := [];
    for k := 0 to |ids|
      invariant |rows| == k && RowsOf(candidates, torch, ids, rng, rows)
    {
      var id := ids[k];
      assert HasInputs(candidates, torch, id);
      assert LastCandidate(candidates, id).Some? && MethodsFor(torch, id) != [];
      var candidate := candidateRows[id];
      var interval := PairedBootstrapInterval(candidate.sessionSpeedups, rng(|candidate.sessionSpeedups|));
      var result := JoinWith(id, candidate, torchRows[id], interval);
      if !result.Joined? {
        RowsOfJoined(candidates, torch, ids, rng, rows);
        return RowError(k, result);
      }
      RowsSnoc(candidates, torch, ids, rng, rows, result.row);
      rows := rows + [result.row];
    }
    RowsOfJoined(candidates, torch, ids, rng, rows);
    assert ids[..|rows|] == ids;
    r := Rows(rows);
  }

  /** `build_comparison_rows`: a row for every task, in order, exactly when there are inputs
      for every task and every row can be computed. */
  method BuildComparisonRows(candidates: seq<CandidateRow>, torch: seq<TorchRow>, rng: Generator) returns (r: Report)
    ensures r.Incomplete? <==> !Complete(candidates, torch, TASK_IDS)
    ensures r.Incomplete? ==>
      && r.candidates == (set id | id in TASK_IDS && LastCandidate(candidates, id).None?)
      && r.torch == (set id | id in TASK_IDS && MethodsFor(torch, id) == [])
    ensures r.Rows? <==> AllJoined(candidates, torch, TASK_IDS, rng)
    ensures r.Rows? ==> |r.rows| == |TASK_IDS| && RowsOf(candidates, torch, TASK_IDS, rng, r.rows)
    ensures r.RowError? ==>
      && r.index < |TASK_IDS| && ResultFor(candidates, torch, TASK_IDS[r.index], rng) == r.error
      && !r.error.Joined? && AllJoined(candidates, torch, TASK_IDS[..r.index], rng)
  {
    var candidateRows := IndexCandidates(candidates);
    var torchRows := GroupMethods(torch);
    var missingCandidates, missingTorch := MissingTasks(candidates, torch, TASK_IDS, candidateRows, torchRows);
    if missingCandidates != {} || missingTorch != {} {
      ghost var i :| 0 <= i < |TASK_IDS| && !HasInputs(candidates, torch, TASK_IDS[i]);
      assert !ResultFor(candidates, torch, TASK_IDS[i], rng).Joined?;
      return Incomplete(missingCandidates, missingTorch);
    }
    r := JoinTasks(candidates, torch, TASK_IDS, rng, candidateRows, torchRows);
  }

  method MissingTasks(
    ghost candidates: seq<CandidateRow>, ghost torch: seq<TorchRow>, ids: seq<string>,
    candidateRows: map<string, CandidateRow>, torchRows: map<string, seq<TorchRow>>)
    returns (missingCandidates: set<string>, missingTorch: set<string>)
    requires Indexed(candidates, torch, candidateRows, torchRows)
    requires forall id :: id in torchRows ==> torchRows[id] != []
    ensures missingCandidates == set id | id in ids && LastCandidate(candidates, id).None?
    ensures missingTorch == set id | id in ids && MethodsFor(torch, id) == []
    ensures missingCandidates == {} && missingTorch == {} <==> Complete(candidates, torch, ids)
  {
    missingCandidates := set id | id in ids && id !in candidateRows;
    missingTorch := set id | id in ids && id !in torchRows;
    forall id | id in ids
      ensures HasInputs(candidates, torch, id) <==> id !in missingCandidates && id !in missingTorch
    {
      assert LastCandidate(candidates, id) == if id in candidateRows then Some(candidateRows[id]) else None;
      assert MethodsFor(torch, id) == if id in torchRows then torchRows[id] else [];
    }
    if Complete(candidates, torch, ids) {
      forall id | id in ids ensures id !in missingCandidates && id !in missingTorch {
        var i :| 0 <= i < |ids| && ids[i] == id;
        assert HasInputs(candidates, torch, ids[i]);
      }
    } else {
      var i :| 0 <= i < |ids| && !HasInputs(candidates, torch, ids[i]);
      assert ids[i] in ids;
    }
  }

  // ----- the summary --------------------------------------------------------------------------------------

  function CountRows(rows: seq<Row>, p: Row -> bool): nat {
    if rows == [] then 0 else (if p(rows[0]) then 1 else 0) + CountRows(rows[1..], p)
  }

  function HasOutcome(o: Outcome): Row -> bool { (row: Row) => row.outcome == o }
  function IsVerified(): Row -> bool { (row: Row) => row.verified }
  function IsCorrect(): Row -> bool { (row: Row) => row.correct }
  function IsStable(): Row -> bool { (row: Row) => row.stable }
  function IsComparable(): Row -> bool { (row: Row) => row.selectedVersus.best.Some? }
  predicate Above1(c: Comparison) { c.best.Some? && c.best.value > 1.0 }
  predicate Below1(c: Comparison) { c.best.Some? && c.best.value < 1.0 }

  function CustomFaster(): Row -> bool { (row: Row) => Above1(row.selectedVersus) }
  function TorchFaster(): Row -> bool { (row: Row) => Below1(row.selectedVersus) }
  function AttemptFaster(): Row -> bool { (row: Row) => Above1(row.candidateVersus) }
  function TorchStable(): Row -> bool { (row: Row) => row.torchBest.Some? && row.torchBest.value.stable }

  datatype Counts = Counts(
    denominator: nat, improved: nat, noImprovement: nat, inconclusive: nat, correct: nat, stable: nat,
    comparable: nat, customFaster: nat, torchFaster: nat, attemptFaster: nat, torchStable: nat)

  function CountsOf(rows: seq<Row>): Counts {
    Counts(|rows|, CountRows(rows, IsVerified()), CountRows(rows, HasOutcome(NoImprovement)),
           CountRows(rows, HasOutcome(Inconclusive)), CountRows(rows, IsCorrect()), CountRows(rows, IsStable()),
           CountRows(rows, IsComparable()), CountRows(rows, CustomFaster()), CountRows(rows, TorchFaster()),
           CountRows(rows, AttemptFaster()), CountRows(rows, TorchStable()))
  }

  function Product(values: seq<real>): real {
    if values == [] then 1.0 else values[0] * Product(values[1..])
  }

  /** The root of that degree of the product. */
  datatype GeometricMean = RootOf(product: real, degree: nat)

  predicate AllPositive(values: seq<real>) { forall i :: 0 <= i < |values| ==> values[i] > 0.0 }

  /** `None` stands for the ValueError. */
  function Geomean(values: seq<real>): Option<GeometricMean> {
    if values == [] || !AllPositive(values) then None else Some(RootOf(Product(values), |values|))
  }

  function Attempted(rows: seq<Row>): seq<real> {
    seq(|rows|, i requires 0 <= i < |rows| => rows[i].attemptedSpeedup)
  }

  function Portfolio(rows: seq<Row>): seq<real> {
    seq(|rows|, i requires 0 <= i < |rows| => rows[i].portfolioSpeedup)
  }

  function Comparisons(rows: seq<Row>, versus: Row -> Comparison): seq<real> {
    if rows == [] then []
    else
      var best := versus(rows[0]).best;
      (if best.Some? then [best.value] else []) + Comparisons(rows[1..], versus)
  }

  function SelectedVersus(): Row -> Comparison { (row: Row) => row.selectedVersus }
  function CandidateVersus(): Row -> Comparison { (row: Row) => row.candidateVersus }

  datatype Summary = Summary(
    counts: Counts, attempted: GeometricMean, portfolio: GeometricMean,
    library: Option<GeometricMean>, attemptedLibrary: Option<GeometricMean>)

  /** `summarize`; `None` when one of its geometric means raises. */
  function Summarize(rows: seq<Row>): Option<Summary> {
    var attempted, portfolio := Geomean(Attempted(rows)), Geomean(Portfolio(rows));
    var library := Comparisons(rows, SelectedVersus());
    var attemptedLibrary := Comparisons(rows, CandidateVersus());
    if attempted.None? || portfolio.None? then None
    else if library != [] && Geomean(library).None? then None
    else if attemptedLibrary != [] && Geomean(attemptedLibrary).None? then None
    else Some(Summary(CountsOf(rows), attempted.value, portfolio.value, Geomean(library), Geomean(attemptedLibrary)))
  }

  predicate Positive(c: Comparison) { c.best.Some? ==> c.best.value > 0.0 }

  /** The values of a row that enter the geometric means. */
  predicate PositiveRow(row: Row) {
    && row.attemptedSpeedup > 0.0 && row.portfolioSpeedup > 0.0
    && Positive(row.selectedVersus) && Positive(row.candidateVersus)
  }

  lemma {:induction false} ComparisonsPositive(rows: seq<Row>, versus: Row -> Comparison)
    ensures AllPositive(Comparisons(rows, versus)) <==> forall i :: 0 <= i < |rows| ==> Positive(versus(rows[i]))
  {
    if rows != [] {
      var rest := Comparisons(rows[1..], versus);
      ComparisonsPositive(rows[1..], versus);
      assert forall i :: 1 <= i < |rows| ==> rows[i] == rows[1..][i - 1];
      var best := versus(rows[0]).best;
      if best.Some? {
        var all := [best.value] + rest;
        assert all[0] == best.value && all[1..] == rest;
        assert forall i :: 0 <= i < |rest| ==> rest[i] == all[i + 1];
      } else {
        assert Comparisons(rows, versus) == rest;
      }
    }
  }

  /** A summary exists exactly when there are rows and all of them have positive values. */
  lemma SummaryExists(rows: seq<Row>)
    ensures Summarize(rows).Some? <==> rows != [] && forall i :: 0 <= i < |rows| ==> PositiveRow(rows[i])
  {
    ComparisonsPositive(rows, SelectedVersus());
    ComparisonsPositive(rows, CandidateVersus());
    if AllPositive(Attempted(rows)) && AllPositive(Portfolio(rows)) {
      forall i | 0 <= i < |rows| ensures rows[i].attemptedSpeedup > 0.0 && rows[i].portfolioSpeedup > 0.0 {
        assert Attempted(rows)[i] > 0.0 && Portfolio(rows)[i] > 0.0;
      }
    }
    assert forall row :: SelectedVersus()(row) == row.selectedVersus && CandidateVersus()(row) == row.candidateVersus;
  }

  /** How the outcome of a row relates to its flags. */
  predicate Coherent(row: Row) {
    && (row.verified <==> row.outcome == Improved)
    && (row.outcome == Failed <==> !row.correct)
    && (row.outcome == Improved || row.outcome == NoImprovement ==> row.stable)
  }

  lemma JoinedIsCoherent(id: string, c: CandidateRow, methods: seq<TorchRow>, draws: Draws)
    requires DrawsFor(draws, |c.sessionSpeedups|) && JoinRow(id, c, methods, draws).Joined?
    ensures Coherent(JoinRow(id, c, methods, draws).row)
  {
  }

  /** Improved, no improvement, inconclusive and failed partition the rows; the failed ones
      are the incorrect ones. */
  lemma {:induction false} OutcomesPartition(rows: seq<Row>)
    requires forall i :: 0 <= i < |rows| ==> Coherent(rows[i])
    ensures var s := CountsOf(rows);
            && s.improved + s.noImprovement + s.inconclusive + CountRows(rows, HasOutcome(Failed)) == s.denominator
            && s.improved + s.noImprovement + s.inconclusive == s.correct
            && s.improved + s.noImprovement <= s.stable
            && s.customFaster + s.torchFaster <= s.comparable <= s.denominator
  {
    if rows != [] {
      assert Coherent(rows[0]);
      OutcomesPartition(rows[1..]);
    }
  }

  function Power(base: real, n: nat): real { if n == 0 then 1.0 else base * Power(base, n - 1) }

  lemma MultiplyBounds(a: real, b: real, x: real, y: real)
    requires 1.0 <= a <= x && 1.0 <= b <= y
    ensures 1.0 <= a * b <= x * y
  {
    Scale(a, 1.0, b);
    Scale(a, b, y);
    Scale(y, a, x);
  }

  lemma {:induction false} PowerAtLeastOne(base: real, n: nat)
    requires base >= 1.0
    ensures Power(base, n) >= 1.0
  {
    if n > 0 {
      PowerAtLeastOne(base, n - 1);
      MultiplyBounds(base, Power(base, n - 1), base, Power(base, n - 1));
    }
  }

  /** The portfolio as a whole: the product of the speedups grows by at least the material
      threshold with every improved task. */
  lemma {:induction false} PortfolioProduct(rows: seq<Row>)
    requires forall i :: 0 <= i < |rows| ==>
      Coherent(rows[i]) && rows[i].portfolioSpeedup >= if rows[i].verified then MIN_MATERIAL_SPEEDUP else 1.0
    ensures Product(Portfolio(rows)) >= Power(MIN_MATERIAL_SPEEDUP, CountRows(rows, IsVerified())) >= 1.0
  {
    PowerAtLeastOne(MIN_MATERIAL_SPEEDUP, CountRows(rows, IsVerified()));
    if rows != [] {
      PortfolioProduct(rows[1..]);
      var n := CountRows(rows[1..], IsVerified());
      PowerAtLeastOne(MIN_MATERIAL_SPEEDUP, n);
      assert Portfolio(rows)[1..] == Portfolio(rows[1..]);
      MultiplyBounds(if rows[0].verified then MIN_MATERIAL_SPEEDUP else 1.0, Power(MIN_MATERIAL_SPEEDUP, n),
                     rows[0].portfolioSpeedup, Product(Portfolio(rows[1..])));
    }
  }

  /** Every measured candidate's speedup is the quotient of its latencies. */
  ghost predicate Measured(candidates: seq<CandidateRow>) {
    forall c :: c in candidates ==> c.candidateUs != 0.0 ==> c.speedup == Ratio(c.baselineUs, c.candidateUs)
  }

  lemma {:induction false} LastCandidateIsOne(rows: seq<CandidateRow>, id: string)
    ensures LastCandidate(rows, id).Some? ==> LastCandidate(rows, id).value in rows
  {
    if rows != [] { LastCandidateIsOne(rows[..|rows| - 1], id); }
  }

  /** The row of a task exists and enters the geometric means. */
  predicate Summarizable(r: RowResult) { r.Joined? && PositiveRow(r.row) }

  /** Joining and summarizing: there is a summary exactly when the row of every task exists
      and has positive values.  The counts then partition the ten tasks, and with measured
      speedups no task of the portfolio is slower than the baseline and the geometric mean
      of the portfolio is that of a product grown by every improved task. */
  method AnalyzeCore10(candidates: seq<CandidateRow>, torch: seq<TorchRow>, rng: Generator)
    returns (rows: seq<Row>, s: Option<Summary>)
    ensures s.Some? <==> forall i :: 0 <= i < 10 ==> Summarizable(ResultFor(candidates, torch, TASK_IDS[i], rng))
    ensures s.Some? ==>
      && s == Summarize(rows) && |rows| == 10 && RowsOf(candidates, torch, TASK_IDS, rng, rows)
      && s.value.counts.denominator == 10
      && s.value.counts.improved + s.value.counts.noImprovement + s.value.counts.inconclusive == s.value.counts.correct
      && s.value.counts.customFaster + s.value.counts.torchFaster <= s.value.counts.comparable
    ensures s.Some? && Measured(candidates) ==>
      && (forall i :: 0 <= i < |rows| ==> rows[i].portfolioSpeedup >= 1.0)
      && s.value.portfolio.degree == 10
      && s.value.portfolio.product >= Power(MIN_MATERIAL_SPEEDUP, s.value.counts.improved)
  {
    hide ResultFor, Coherent, PositiveRow, Complete, CountRows;
    var report := BuildComparisonRows(candidates, torch, rng);
    if !report.Rows? { return [], None; }
    rows := report.rows;
    forall i | 0 <= i < |rows|
      ensures Coherent(rows[i]) && ResultFor(candidates, torch, TASK_IDS[i], rng) == Joined(rows[i])
      ensures Measured(candidates) ==>
        rows[i].portfolioSpeedup >= if rows[i].verified then MIN_MATERIAL_SPEEDUP else 1.0
    {
      assert RowAt(candidates, torch, TASK_IDS[i], rng, rows[i]);
      RowFacts(candidates, torch, TASK_IDS[i], rng);
    }
    OutcomesPartition(rows);
    if Measured(candidates) { PortfolioProduct(rows); }
    SummaryExists(rows);
    s := Summarize(rows);
  }

  lemma RowFacts(candidates: seq<CandidateRow>, torch: seq<TorchRow>, id: string, rng: Generator)
    requires ResultFor(candidates, torch, id, rng).Joined?
    ensures var row := ResultFor(candidates, torch, id, rng).row;
            && Coherent(row)
            && (Measured(candidates) ==>
                  row.portfolioSpeedup >= if row.verified then MIN_MATERIAL_SPEEDUP else 1.0)
  {
    var c := LastCandidate(candidates, id).value;
    var draws := rng(|c.sessionSpeedups|);
    LastCandidateIsOne(candidates, id);
    JoinedIsCoherent(id, c, MethodsFor(torch, id), draws);
    if Measured(candidates) { PortfolioNeverLoses(id, c, MethodsFor(torch, id), draws); }
  }
}
