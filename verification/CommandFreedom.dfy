/** How much freedom of the command the guarantees of the hand-off bear, exactly. */
module CommandFreedom {
  import opened Sequences
  import opened OutputEntries
  import opened SandboxHandoff
  import PipeCapture

  // ----- building interleavings -------------------------------------------------------------

  lemma Then(job: Job, f: Freedom, actions: seq<Action>, a: Action) returns (longer: seq<Action>)
    requires Execute(job, actions).Some? && Within(job, f, actions)
    requires var s := Execute(job, actions).value; Step(job, s, a).Some? && Allows(f, s.runner.Command?, a)
    ensures Execute(job, longer) == Step(job, Execute(job, actions).value, a) && Within(job, f, longer)
  {
    longer := actions + [a];
    assert longer[..|longer| - 1] == actions;
  }

  lemma ApplyOneMore(ops: seq<Op>, k: nat, files: Files)
    requires k < |ops|
    ensures ApplyAll(ops[..k + 1], files) == Apply(ops[k], ApplyAll(ops[..k], files))
  {
    TakeSnoc(ops, k);
    ApplyConcat(ops[..k], [ops[k]], files);
    var before := ApplyAll(ops[..k], files);
    assert ApplyAll([ops[k]], before) == ApplyAll([], Apply(ops[k], before));
  }

  /** The runner performs the next k writes. */
  lemma {:induction false} RunnerGoesOn(job: Job, f: Freedom, actions: seq<Action>, k: nat)
    returns (longer: seq<Action>)
    requires Execute(job, actions).Some? && Within(job, f, actions)
    requires var s := Execute(job, actions).value; s.runner.Publishing? && k <= |s.runner.ops|
    ensures Within(job, f, longer)
    ensures var s := Execute(job, actions).value;
            Execute(job, longer) == Some(s.(files := ApplyAll(s.runner.ops[..k], s.files),
                                            runner := Publishing(s.runner.run, s.runner.ops[k..])))
  {
    var s := Execute(job, actions).value;
    var ops := s.runner.ops;
    if k == 0 {
      longer := actions;
      assert ops[0..] == ops;
    } else {
      longer := RunnerGoesOn(job, f, actions, k - 1);
      longer := Then(job, f, longer, RunnerWrites);
      ApplyOneMore(ops, k - 1, s.files);
      assert ops[k - 1..][1..] == ops[k..];
    }
  }

  function Copies(files: Files, pending: set<OutputName>, copied: Files): Files
    requires pending <= files.Keys
  {
    map n | n in pending + copied.Keys :: if n in pending then files[n] else copied[n]
  }

  /** The Supervisor copies all that is pending. */
  lemma {:induction false} CopiesTheRest(
    job: Job, f: Freedom, actions: seq<Action>, pending: set<OutputName>, copied: Files)
    returns (longer: seq<Action>)
    requires Execute(job, actions).Some? && Within(job, f, actions)
    requires var s := Execute(job, actions).value;
             s.supervisor == Exporting(pending, copied) && pending <= s.files.Keys
    ensures Within(job, f, longer)
    ensures var s := Execute(job, actions).value;
            Execute(job, longer) == Some(s.(supervisor := Exporting({}, Copies(s.files, pending, copied))))
    decreases pending
  {
    var s := Execute(job, actions).value;
    if pending == {} {
      longer := actions;
      assert Copies(s.files, pending, copied) == copied;
    } else {
      var n :| n in pending;
      longer := Then(job, f, actions, CopyFile(n));
      var more := copied[n := s.files[n]];
      longer := CopiesTheRest(job, f, longer, pending - {n}, more);
      assert Copies(s.files, pending - {n}, more) == Copies(s.files, pending, copied);
    }
  }

  /** The Supervisor exports the directory as it is. */
  lemma Exported(job: Job, f: Freedom, actions: seq<Action>) returns (longer: seq<Action>)
    requires Execute(job, actions).Some? && Within(job, f, actions)
    requires var s := Execute(job, actions).value;
             && s.supervisor.Polling? && ResultJson in s.files && Admissible(s.files, job.stage, job.policy)
    ensures Within(job, f, longer)
    ensures var s := Execute(job, actions).value;
            Execute(job, longer) == Some(s.(supervisor := Accepted(s.files)))
  {
    var s := Execute(job, actions).value;
    longer := Then(job, f, actions, BeginExport);
    longer := CopiesTheRest(job, f, longer, s.files.Keys, map[]);
    assert Copies(s.files, s.files.Keys, map[]) == s.files;
    longer := Then(job, f, longer, EndExport);
  }

  // ----- the guarantees ------------------------------------------------------------------------

  /** The job ends with this status because of an accepted export. */
  predicate EndsAs(job: Job, s: Supervisor, status: Status) {
    s.Accepted? && ResultJson in s.snapshot && StatusOf(Finish(job, s, false)) == status
  }

  predicate Deserves(job: Job, run: Run, status: Status) {
    match status
    case Succeeded => Clean(run) && !BadMeasurement(job, run)
    case StageTimedOut => run.violation == Some(PipeCapture.StageTimeout)
    case Failed => true
  }

  /** The status is that of a run that the runner has published in full. */
  ghost predicate RunHeld(job: Job, f: Freedom, actions: seq<Action>, status: Status) {
    Within(job, f, actions) && Execute(job, actions).Some? ==>
      var s := Execute(job, actions).value;
      EndsAs(job, s.supervisor, status) ==> FromRun(s) && Deserves(job, s.runner.run, status)
  }

  ghost predicate AlwaysFromRun(codec: Codec, stage: Stage, f: Freedom, status: Status) {
    forall policy: Policy, actions: seq<Action> :: RunHeld(Job(stage, policy, codec), f, actions, status)
  }

  /** In addition the copied files are what the runner published. */
  ghost predicate FilesHeld(job: Job, f: Freedom, actions: seq<Action>, status: Status) {
    Within(job, f, actions) && Execute(job, actions).Some? ==>
      var s := Execute(job, actions).value;
      EndsAs(job, s.supervisor, status) ==>
        && FromRun(s) && Deserves(job, s.runner.run, status)
        && CopiesPublication(job, f, s.runner.run, s.supervisor.snapshot)
        && (job.stage == Events && status == Succeeded ==>
              Finish(job, s.supervisor, false).measurement == MeasurementOf(job, s.runner.run))
  }

  ghost predicate AlwaysPublished(codec: Codec, stage: Stage, f: Freedom, status: Status) {
    forall policy: Policy, actions: seq<Action> :: FilesHeld(Job(stage, policy, codec), f, actions, status)
  }

  const BESIDES_REPORT: set<OutputName> := {StdoutLog, StderrLog, MeasurementJson}

  /** An accepted snapshot has the final version of the logs and the measurement, unless
      result.json was torn. */
  ghost predicate FinalHeld(job: Job, f: Freedom, actions: seq<Action>) {
    Within(job, f, actions) && Execute(job, actions).Some? ==>
      var s := Execute(job, actions).value;
      s.supervisor.Accepted? && !s.torn ==>
        forall n :: n in BESIDES_REPORT ==> SameAt(n, s.supervisor.snapshot, s.files)
  }

  ghost predicate AlwaysFinal(codec: Codec, stage: Stage, f: Freedom) {
    forall policy: Policy, actions: seq<Action> :: FinalHeld(Job(stage, policy, codec), f, actions)
  }

  // ----- the runs that break them ------------------------------------------------------------

  function TextOf(status: Status): string {
    match status
    case Succeeded => "none"
    case StageTimedOut => "stage_timeout"
    case Failed => ""
  }

  function ClaimOf(codec: Codec, status: Status): Bytes { codec.render(Report(TextOf(status))) }

  /** The reports fit into the limit of result.json. */
  ghost predicate SmallReports(codec: Codec) { forall status :: |ClaimOf(codec, status)| <= 64 * 1024 }

  function PrintedText(codec: Codec): Bytes { codec.render(Object(0)) }

  function OtherText(codec: Codec): Bytes { codec.render(Object(1)) }

  /** A run that prints an object and deserves the status. */
  function RunFor(codec: Codec, status: Status): Run {
    Run(0, PrintedText(codec), [], if status == StageTimedOut then Some(PipeCapture.StageTimeout) else None, false, [])
  }

  /** A job whose limits admit both texts. */
  function JobFor(codec: Codec, stage: Stage): Job {
    var n := |PrintedText(codec)| + |OtherText(codec)|;
    Job(stage, Policy(n, n, n), codec)
  }

  lemma TextsDiffer(codec: Codec)
    requires Lawful(codec)
    ensures PrintedText(codec) != OtherText(codec) && [] !in {PrintedText(codec), OtherText(codec)}
  {
    assert codec.parse(PrintedText(codec)) == Some(Object(0)) && codec.parse(OtherText(codec)) == Some(Object(1));
  }

  /** What the runner publishes for these runs. */
  lemma PublicationFor(codec: Codec, stage: Stage, status: Status)
    requires Lawful(codec) && status != Failed
    ensures var job, run := JobFor(codec, stage), RunFor(codec, status);
            && Deserves(job, run, status)
            && Publication(job, run, StdoutLog) == Some(PrintedText(codec))
            && Publication(job, run, StderrLog) == Some([])
            && Publication(job, run, MeasurementJson)
               == (if stage == Events && status == Succeeded then Some(PrintedText(codec)) else None)
            && Publication(job, run, ResultJson) == Some(ClaimOf(codec, status))
            && Publication(job, run, Candidate) == None
  {
    var job, run := JobFor(codec, stage), RunFor(codec, status);
    assert codec.parse(run.stdout) == Some(Object(0));
  }

  /** The report and, for events, the measurement give the status. */
  lemma StatusFollows(job: Job, snapshot: Files, status: Status)
    requires Lawful(job.codec) && status != Failed && ResultJson in snapshot
    requires snapshot[ResultJson] == ClaimOf(job.codec, status)
    requires job.stage == Events && status == Succeeded ==>
               && MeasurementJson in snapshot && job.codec.parse(snapshot[MeasurementJson]).Some?
               && IsObject(job.codec.parse(snapshot[MeasurementJson]).value)
    ensures EndsAs(job, Accepted(snapshot), status)
  {
    var report := Report(TextOf(status));
    assert job.codec.parse(snapshot[ResultJson]) == Some(report);
    SuccessReportsNone(job, snapshot, false);
    ReasonIsNoneOnlyForNone(report.reason, job.stage);
  }

  predicate FitsAt(codec: Codec, stage: Stage, n: OutputName, content: Bytes) {
    && n in OutputNames(stage) && n != Candidate
    && if n == ResultJson then |content| <= 64 * 1024 else content in {PrintedText(codec), OtherText(codec), []}
  }

  /** A directory with only these contents is admissible for the stage. */
  ghost predicate Fits(codec: Codec, stage: Stage, files: Files) {
    forall n :: n in files ==> FitsAt(codec, stage, n, files[n])
  }

  lemma AdmissibleFor(codec: Codec, stage: Stage, files: Files)
    requires Fits(codec, stage, files)
    ensures Admissible(files, stage, JobFor(codec, stage).policy)
  {
  }

  /** Writes that do not name a file leave it. */
  lemma {:induction false} NotNamed(n: OutputName, ops: seq<Op>, files: Files)
    requires forall i :: 0 <= i < |ops| ==> ops[i].name != n
    ensures SameAt(n, ApplyAll(ops, files), files)
  {
    if ops != [] { NotNamed(n, ops[1..], Apply(ops[0], files)); }
  }

  /** The directory before result.json is written. */
  lemma BeforeReport(job: Job, run: Run, files: Files)
    ensures |Script(job, run)| >= 2
    ensures var head := Script(job, run)[..|Script(job, run)| - 2];
            && SameAt(ResultJson, ApplyAll(head, files), files)
            && forall n :: n != ResultJson ==> SameAt(n, ApplyAll(head, files), ApplyAll(Script(job, run), files))
  {
    var script := Script(job, run);
    ScriptEndsWithReport(job, run);
    var head, tail := script[..|script| - 2], script[|script| - 2..];
    assert script == head + tail;
    ApplyConcat(head, tail, files);
    NotNamed(ResultJson, head, files);
    forall n | n != ResultJson ensures SameAt(n, ApplyAll(head, files), ApplyAll(script, files)) {
      NotNamed(n, tail, ApplyAll(head, files));
    }
  }

  /** The command ends, having written result.json itself before or right afterwards. */
  lemma ReportForged(codec: Codec, stage: Stage, f: Freedom, status: Status) returns (actions: seq<Action>)
    requires !SparesReport(f)
    ensures var job, run := JobFor(codec, stage), RunFor(codec, status);
            && Within(job, f, actions)
            && Execute(job, actions) ==
               Some(State(map[ResultJson := ClaimOf(codec, status)], Publishing(run, Script(job, run)), Polling, false))
  {
    var job, run := JobFor(codec, stage), RunFor(codec, status);
    var forged := CommandWrites(ResultJson, ClaimOf(codec, status));
    if ResultJson in f.early {
      actions := Then(job, f, [], forged);
      actions := Then(job, f, actions, CommandEnds(run));
    } else {
      actions := Then(job, f, [], CommandEnds(run));
      actions := Then(job, f, actions, forged);
    }
  }

  /** The directory at that moment: the runner's files and the forged report. */
  lemma ForgedDirectory(codec: Codec, stage: Stage, status: Status, snapshot: Files)
    requires Lawful(codec) && SmallReports(codec) && status != Failed
    requires var job, run := JobFor(codec, stage), RunFor(codec, status);
             && |Script(job, run)| >= 2
             && snapshot == ApplyAll(Script(job, run)[..|Script(job, run)| - 2],
                                     map[ResultJson := ClaimOf(codec, status)])
    ensures ResultJson in snapshot && Admissible(snapshot, stage, JobFor(codec, stage).policy)
    ensures EndsAs(JobFor(codec, stage), Accepted(snapshot), status)
  {
    hide ApplyAll, Script, Finish, StatusOf;
    var job, run := JobFor(codec, stage), RunFor(codec, status);
    var files: Files := map[ResultJson := ClaimOf(codec, status)];
    BeforeReport(job, run, files);
    ScriptPublishes(job, run, files);
    PublicationFor(codec, stage, status);
    var full := ApplyAll(Script(job, run), files);
    forall n | n in snapshot && n != ResultJson
      ensures Publication(job, run, n).Some? && snapshot[n] == Publication(job, run, n).value
    {
      assert SameAt(n, snapshot, full);
      assert n !in files;
    }
    assert SameAt(MeasurementJson, snapshot, full);
    AdmissibleFor(codec, stage, snapshot);
    assert codec.parse(PrintedText(codec)) == Some(Object(0));
    StatusFollows(job, snapshot, status);
  }

  /** An interleaving in which the forged report is exported before the runner writes its own. */
  lemma ForgedReportCounts(codec: Codec, stage: Stage, f: Freedom, status: Status)
    returns (actions: seq<Action>)
    requires Lawful(codec) && SmallReports(codec) && status != Failed && !SparesReport(f)
    ensures !RunHeld(JobFor(codec, stage), f, actions, status)
  {
    var job, run := JobFor(codec, stage), RunFor(codec, status);
    actions := ReportForged(codec, stage, f, status);
    ScriptEndsWithReport(job, run);
    actions := RunnerGoesOn(job, f, actions, |Script(job, run)| - 2);
    ForgedDirectory(codec, stage, status, Execute(job, actions).value.files);
    actions := Exported(job, f, actions);
  }

  /** The run is published in full. */
  lemma RunPublished(codec: Codec, stage: Stage, f: Freedom, status: Status)
    returns (actions: seq<Action>, files: Files)
    requires Lawful(codec) && SmallReports(codec) && status != Failed
    ensures var job, run := JobFor(codec, stage), RunFor(codec, status);
            && Within(job, f, actions)
            && Execute(job, actions) == Some(State(files, Publishing(run, []), Polling, false))
            && Published(job, run, files)
            && (forall n :: Publication(job, run, n).None? ==> n !in files)
            && Fits(codec, stage, files)
  {
    hide ApplyAll, Publication;
    var job, run := JobFor(codec, stage), RunFor(codec, status);
    var script, none: Files := Script(job, run), map[];
    ScriptPublishes(job, run, none);
    actions := Then(job, f, [], CommandEnds(run));
    actions := RunnerGoesOn(job, f, actions, |script|);
    assert script[..|script|] == script && script[|script|..] == [];
    files := ApplyAll(script, none);
    PublicationFits(codec, stage, status, files);
  }

  lemma PublicationFits(codec: Codec, stage: Stage, status: Status, files: Files)
    requires Lawful(codec) && SmallReports(codec) && status != Failed
    requires Published(JobFor(codec, stage), RunFor(codec, status), files)
    requires forall n :: Publication(JobFor(codec, stage), RunFor(codec, status), n).None? ==> n !in files
    ensures Fits(codec, stage, files)
  {
    PublicationFor(codec, stage, status);
  }

  /** The command rewrites a published file after it has ended. */
  lemma RewrittenFileCounts(codec: Codec, stage: Stage, f: Freedom, status: Status, n: OutputName)
    returns (actions: seq<Action>)
    requires Lawful(codec) && SmallReports(codec) && status != Failed && n in f.late && n != ResultJson
    requires Publication(JobFor(codec, stage), RunFor(codec, status), n).Some?
    ensures !FilesHeld(JobFor(codec, stage), f, actions, status)
  {
    hide ApplyAll, Script, Finish, StatusOf, Publication, OutputNames, MeasurementOf;
    var job := JobFor(codec, stage);
    TextsDiffer(codec);
    PublicationFor(codec, stage, status);
    var files;
    actions, files := RunPublished(codec, stage, f, status);
    actions := Then(job, f, actions, CommandWrites(n, OtherText(codec)));
    var snapshot := files[n := OtherText(codec)];
    AdmissibleFor(codec, stage, snapshot);
    assert codec.parse(PrintedText(codec)) == Some(Object(0)) && codec.parse(OtherText(codec)) == Some(Object(1));
    StatusFollows(job, snapshot, status);
    actions := Exported(job, f, actions);
    assert snapshot[n] != Publication(job, RunFor(codec, status), n).value;
  }

  /** The command removes a log after it has ended. */
  lemma RemovedFileCounts(codec: Codec, stage: Stage, f: Freedom, status: Status, n: OutputName)
    returns (actions: seq<Action>)
    requires Lawful(codec) && SmallReports(codec) && status != Failed && n in f.removed && n in {StdoutLog, StderrLog}
    ensures !FilesHeld(JobFor(codec, stage), f, actions, status)
  {
    hide ApplyAll, Script, Finish, StatusOf, Publication, OutputNames, MeasurementOf;
    var job := JobFor(codec, stage);
    PublicationFor(codec, stage, status);
    var files;
    actions, files := RunPublished(codec, stage, f, status);
    actions := Then(job, f, actions, CommandRemoves(n));
    var snapshot := files - {n};
    AdmissibleFor(codec, stage, snapshot);
    assert codec.parse(PrintedText(codec)) == Some(Object(0));
    StatusFollows(job, snapshot, status);
    actions := Exported(job, f, actions);
    assert Publication(job, RunFor(codec, status), n).Some? && n !in snapshot;
  }

  // ----- the exact conditions -----------------------------------------------------------------

  /** A successful or timed-out job always had a run of the command with that end, published in
      full by the runner, exactly when the command never writes result.json. */
  lemma FromRunExactlyWhen(codec: Codec, stage: Stage, f: Freedom, status: Status)
    requires Lawful(codec) && SmallReports(codec) && status != Failed
    ensures AlwaysFromRun(codec, stage, f, status) <==> SparesReport(f)
  {
    if SparesReport(f) {
      forall policy: Policy, actions: seq<Action> ensures RunHeld(Job(stage, policy, codec), f, actions, status) {
        RunHolds(Job(stage, policy, codec), f, actions, status);
      }
    } else {
      var actions := ForgedReportCounts(codec, stage, f, status);
      assert !RunHeld(Job(stage, JobFor(codec, stage).policy, codec), f, actions, status);
    }
  }

  lemma RunHolds(job: Job, f: Freedom, actions: seq<Action>, status: Status)
    requires Lawful(job.codec) && SparesReport(f) && status != Failed
    ensures RunHeld(job, f, actions, status)
  {
    if Within(job, f, actions) && Execute(job, actions).Some?
       && EndsAs(job, Execute(job, actions).value.supervisor, status) {
      SucceededMeans(job, f, actions, false);
      TimedOutMeans(job, f, actions, false);
    }
  }

  /** Its outputs always are what the runner published exactly when, in addition, the command
      neither writes nor removes a log after its end and, for a success in the events stage,
      does not write the measurement then. */
  lemma PublishedExactlyWhen(codec: Codec, stage: Stage, f: Freedom, status: Status)
    requires Lawful(codec) && SmallReports(codec) && status != Failed
    ensures AlwaysPublished(codec, stage, f, status) <==> KeepsFiles(stage, f, status)
  {
    if KeepsFiles(stage, f, status) {
      forall policy: Policy, actions: seq<Action> ensures FilesHeld(Job(stage, policy, codec), f, actions, status) {
        FilesHold(Job(stage, policy, codec), f, actions, status);
      }
    } else {
      var actions := FilesBreak(codec, stage, f, status);
      assert !FilesHeld(Job(stage, JobFor(codec, stage).policy, codec), f, actions, status);
    }
  }

  lemma FilesHold(job: Job, f: Freedom, actions: seq<Action>, status: Status)
    requires Lawful(job.codec) && KeepsFiles(job.stage, f, status) && status != Failed
    ensures FilesHeld(job, f, actions, status)
  {
    if Within(job, f, actions) && Execute(job, actions).Some?
       && EndsAs(job, Execute(job, actions).value.supervisor, status) {
      SucceededMeans(job, f, actions, false);
      TimedOutMeans(job, f, actions, false);
    }
  }

  lemma FilesBreak(codec: Codec, stage: Stage, f: Freedom, status: Status) returns (actions: seq<Action>)
    requires Lawful(codec) && SmallReports(codec) && !KeepsFiles(stage, f, status) && status != Failed
    ensures !FilesHeld(JobFor(codec, stage), f, actions, status)
  {
    PublicationFor(codec, stage, status);
    if !SparesReport(f) {
      actions := ForgedReportCounts(codec, stage, f, status);
    } else if StdoutLog in f.late {
      actions := RewrittenFileCounts(codec, stage, f, status, StdoutLog);
    } else if StderrLog in f.late {
      actions := RewrittenFileCounts(codec, stage, f, status, StderrLog);
    } else if StdoutLog in f.removed {
      actions := RemovedFileCounts(codec, stage, f, status, StdoutLog);
    } else if StderrLog in f.removed {
      actions := RemovedFileCounts(codec, stage, f, status, StderrLog);
    } else {
      actions := RewrittenFileCounts(codec, stage, f, status, MeasurementJson);
    }
  }

  predicate KeepsFinal(stage: Stage, f: Freedom) {
    && SparesReport(f) && Lasts(f, StdoutLog) && Lasts(f, StderrLog) && MeasurementJson !in f.late
    && (stage == Events ==> MeasurementJson !in f.removed)
  }

  /** Accepted snapshots always are final, but for a torn report, exactly when the command never
      writes result.json and does not change the logs and the measurement after its end.
      Removing a measurement does no harm in a stage that has none. */
  lemma FinalExactlyWhen(codec: Codec, stage: Stage, f: Freedom)
    requires Lawful(codec) && SmallReports(codec)
    ensures AlwaysFinal(codec, stage, f) <==> KeepsFinal(stage, f)
  {
    if KeepsFinal(stage, f) {
      forall policy: Policy, actions: seq<Action> ensures FinalHeld(Job(stage, policy, codec), f, actions) {
        FinalHolds(Job(stage, policy, codec), f, actions);
      }
    } else {
      var actions := FinalBreaks(codec, stage, f);
      assert !FinalHeld(Job(stage, JobFor(codec, stage).policy, codec), f, actions);
    }
  }

  lemma FinalHolds(job: Job, f: Freedom, actions: seq<Action>)
    requires KeepsFinal(job.stage, f)
    ensures FinalHeld(job, f, actions)
  {
    if Within(job, f, actions) && Execute(job, actions).Some? {
      var s := Execute(job, actions).value;
      if s.supervisor.Accepted? && !s.torn {
        ReachableInvariant(job, f, actions);
        SnapshotIsFinal(job, f, actions);
        var snapshot := s.supervisor.snapshot;
        assert FinalAt(f, MeasurementJson, s.files, snapshot.Keys, snapshot);
      }
    }
  }

  /** The snapshot has the forged report alone, and then the runner creates a log. */
  lemma ForgedReportIsEarly(codec: Codec, stage: Stage, f: Freedom) returns (actions: seq<Action>)
    requires SmallReports(codec) && !SparesReport(f)
    ensures !FinalHeld(JobFor(codec, stage), f, actions)
  {
    var job := JobFor(codec, stage);
    actions := ReportForged(codec, stage, f, Succeeded);
    AdmissibleFor(codec, stage, Execute(job, actions).value.files);
    actions := Exported(job, f, actions);
    actions := Then(job, f, actions, RunnerWrites);
  }

  /** After the export of a published run the command changes a name. */
  lemma ChangedFileIsNotFinal(codec: Codec, stage: Stage, f: Freedom, a: Action) returns (actions: seq<Action>)
    requires Lawful(codec) && SmallReports(codec) && ByCommand(a) && Allows(f, false, a) && a.name in BESIDES_REPORT
    requires if a.CommandWrites? then a.content == OtherText(codec)
             else Publication(JobFor(codec, stage), RunFor(codec, Succeeded), a.name).Some?
    ensures !FinalHeld(JobFor(codec, stage), f, actions)
  {
    hide ApplyAll, Script, Finish, StatusOf, Publication, OutputNames, MeasurementOf;
    var job := JobFor(codec, stage);
    TextsDiffer(codec);
    PublicationFor(codec, stage, Succeeded);
    var files;
    actions, files := RunPublished(codec, stage, f, Succeeded);
    AdmissibleFor(codec, stage, files);
    actions := Exported(job, f, actions);
    actions := Then(job, f, actions, a);
    assert !SameAt(a.name, files, Execute(job, actions).value.files);
  }

  lemma FinalBreaks(codec: Codec, stage: Stage, f: Freedom) returns (actions: seq<Action>)
    requires Lawful(codec) && SmallReports(codec) && !KeepsFinal(stage, f)
    ensures !FinalHeld(JobFor(codec, stage), f, actions)
  {
    PublicationFor(codec, stage, Succeeded);
    if !SparesReport(f) {
      actions := ForgedReportIsEarly(codec, stage, f);
    } else if n :| n in BESIDES_REPORT && n in f.late {
      actions := ChangedFileIsNotFinal(codec, stage, f, CommandWrites(n, OtherText(codec)));
    } else {
      var n :| n in BESIDES_REPORT && n in f.removed && (n == MeasurementJson ==> stage == Events);
      actions := ChangedFileIsNotFinal(codec, stage, f, CommandRemoves(n));
    }
  }

  // ----- where the guarantees end whatever the command does ------------------------------------

  const NO_FREEDOM := Freedom({}, {}, {})

  /** A running command can end the job successfully by writing result.json. */
  lemma CommandReportsSuccess(codec: Codec) returns (job: Job, actions: seq<Action>)
    requires Lawful(codec) && SmallReports(codec)
    ensures job.codec == codec && Within(job, Freedom({ResultJson}, {}, {}), actions) && Execute(job, actions).Some?
    ensures var s := Execute(job, actions).value;
            && s.runner.Command? && !s.torn && EndsAs(job, s.supervisor, Succeeded)
  {
    job := JobFor(codec, Correctness);
    var f := Freedom({ResultJson}, {}, {});
    var files: Files := map[ResultJson := ClaimOf(codec, Succeeded)];
    actions := Then(job, f, [], CommandWrites(ResultJson, ClaimOf(codec, Succeeded)));
    AdmissibleFor(codec, Correctness, files);
    StatusFollows(job, files, Succeeded);
    actions := Exported(job, f, actions);
  }

  /** A clean correctness run, exported when result.json has been created but not filled. */
  lemma CopiedTooEarly(codec: Codec) returns (actions: seq<Action>, files: Files)
    requires Lawful(codec)
    ensures var job, run := JobFor(codec, Correctness), RunFor(codec, Succeeded);
            && Within(job, NO_FREEDOM, actions)
            && Execute(job, actions) ==
               Some(State(files, Publishing(run, [Fill(ResultJson, ReportOf(job, run))]), Accepted(files), false))
            && ResultJson in files && files[ResultJson] == []
            && StdoutLog in files && files[StdoutLog] == PrintedText(codec)
  {
    var job, run := JobFor(codec, Correctness), RunFor(codec, Succeeded);
    var script, none: Files := Script(job, run), map[];
    ScriptEndsWithReport(job, run);
    actions := Then(job, NO_FREEDOM, [], CommandEnds(run));
    actions := RunnerGoesOn(job, NO_FREEDOM, actions, |script| - 1);
    files := ApplyAll(script[..|script| - 1], none);
    EarlyDirectory(codec, files);
    assert script[|script| - 1..] == [Fill(ResultJson, ReportOf(job, run))];
    actions := Exported(job, NO_FREEDOM, actions);
  }

  lemma EarlyDirectory(codec: Codec, files: Files)
    requires Lawful(codec)
    requires var job, run := JobFor(codec, Correctness), RunFor(codec, Succeeded);
             && |Script(job, run)| >= 2 && files == ApplyAll(Script(job, run)[..|Script(job, run)| - 1], map[])
    ensures ResultJson in files && files[ResultJson] == []
    ensures StdoutLog in files && files[StdoutLog] == PrintedText(codec)
    ensures Admissible(files, Correctness, JobFor(codec, Correctness).policy)
  {
    hide ApplyAll, Script;
    var job, run := JobFor(codec, Correctness), RunFor(codec, Succeeded);
    var k, none: Files := |Script(job, run)| - 2, map[];
    var head := ApplyAll(Script(job, run)[..k], none);
    BeforeReport(job, run, none);
    ScriptPublishes(job, run, none);
    PublicationFor(codec, Correctness, Succeeded);
    ReportIsCreated(job, run);
    ApplyOneMore(Script(job, run), k, none);
    assert files == head[ResultJson := []];
    assert SameAt(StdoutLog, head, ApplyAll(Script(job, run), none));
    forall n | n in files && n != ResultJson
      ensures n in {StdoutLog, StderrLog} && files[n] in {PrintedText(codec), []}
    {
      assert SameAt(n, head, ApplyAll(Script(job, run), none));
    }
    AdmissibleFor(codec, Correctness, files);
  }

  lemma ReportIsCreated(job: Job, run: Run)
    ensures |Script(job, run)| >= 2 && Script(job, run)[|Script(job, run)| - 2] == Create(ResultJson)
  {
  }

  /** The exact condition of `CleanRunSucceedsExactlyWhen` is not vacuous: a clean run can
      be reported as a sandbox violation, when the export meets the empty result.json. */
  lemma CleanRunCanBeReportedAsViolation(codec: Codec) returns (job: Job, actions: seq<Action>)
    requires Lawful(codec)
    ensures Within(job, NO_FREEDOM, actions) && Execute(job, actions).Some?
    ensures var s := Execute(job, actions).value;
            && s.supervisor.Accepted? && ResultJson in s.supervisor.snapshot
            && FromRun(s) && Clean(s.runner.run)
            && Finish(job, s.supervisor, false).reason == SandboxViolation
  {
    job := JobFor(codec, Correctness);
    var files;
    actions, files := CopiedTooEarly(codec);
    actions := Then(job, NO_FREEDOM, actions, RunnerWrites);
  }

  /** The condition of `SnapshotIsFinal` is needed: when the write of result.json raises,
      a snapshot with that file can hold a standard output that is later replaced. */
  lemma TornSnapshotIsNotFinal(codec: Codec) returns (job: Job, actions: seq<Action>)
    requires Lawful(codec)
    ensures Within(job, NO_FREEDOM, actions) && Execute(job, actions).Some?
    ensures var s := Execute(job, actions).value;
            && s.torn && s.supervisor.Accepted? && ResultJson in s.supervisor.snapshot
            && StdoutLog in s.supervisor.snapshot && StdoutLog in s.files
            && s.supervisor.snapshot[StdoutLog] != s.files[StdoutLog]
  {
    job := JobFor(codec, Correctness);
    var files;
    actions, files := CopiedTooEarly(codec);
    TextsDiffer(codec);
    actions := Then(job, NO_FREEDOM, actions, RunnerRaises([]));
    actions := Then(job, NO_FREEDOM, actions, RunnerWrites);
  }
}
