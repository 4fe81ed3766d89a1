/** The hand-off between the runner inside a job container and the Supervisor that polls it. */
module SandboxHandoff {
  // The two sides interleave freely.  Writing a file is two steps, creating it empty and
  // filling it; exporting the directory is one step that lists it and one step per listed
  // file.  Any write may raise, and any export may fail.
  //
  // The command that the runner starts may change any output at any time, even after the
  // runner has seen it end, because a detached child of it can survive.  A `Freedom` says
  // which names it may change and when; the theorems say which freedom they need.  A file of
  // another name makes exports fail, which any export may do.

  import opened Sequences
  import opened OutputEntries
  import PipeCapture

  // ----- documents ------------------------------------------------------------------

  /** A decoded JSON text: an object with a `reason` member, another object, or a value
      that is not an object. */
  datatype Json = Report(reason: string) | Object(tag: int) | NotAnObject

  predicate IsObject(j: Json) { j.Report? || j.Object? }

  datatype Codec = Codec(parse: Bytes -> Option<Json>, render: Json -> Bytes)

  /** Rendering is undone by parsing, and the empty text does not parse. */
  ghost predicate Lawful(c: Codec) {
    && c.parse([]) == None
    && forall j :: c.parse(c.render(j)) == Some(j)
  }

  datatype Job = Job(stage: Stage, policy: Policy, codec: Codec)

  // ----- the runner -----------------------------------------------------------------

  /** What `_capture` returned, and the message of a failed measurement. */
  datatype Run = Run(
    returncode: int, stdout: Bytes, stderr: Bytes,
    violation: Option<PipeCapture.Violation>, outOfMemory: bool, message: Bytes)

  function StageFailure(stage: Stage): string {
    match stage
    case Compile => "compile_failed"
    case Correctness => "correctness_failed"
    case Events => "events_failed"
  }

  /** The reason before the Events output is inspected. */
  function CommandReason(job: Job, run: Run): string {
    match run.violation
    case Some(StageTimeout) => "stage_timeout"
    case Some(SandboxViolation) => "sandbox_violation"
    case None =>
      if run.returncode == 0 then "none"
      else if run.outOfMemory then "gpu_oom"
      else StageFailure(job.stage)
  }

  predicate Clean(run: Run) { run.violation.None? && run.returncode == 0 }

  function MeasurementOf(job: Job, run: Run): Option<Json> {
    match job.codec.parse(run.stdout)
    case Some(j) => if IsObject(j) then Some(j) else None
    case None => None
  }

  predicate BadMeasurement(job: Job, run: Run) {
    Clean(run) && job.stage == Events && MeasurementOf(job, run).None?
  }

  function FinalReason(job: Job, run: Run): string {
    if BadMeasurement(job, run) then "events_failed" else CommandReason(job, run)
  }

  /** The final content of result.json. */
  function ReportOf(job: Job, run: Run): Bytes { job.codec.render(Report(FinalReason(job, run))) }

  datatype Op = Create(name: OutputName) | Fill(name: OutputName, content: Bytes)

  function Write(name: OutputName, content: Bytes): seq<Op> { [Create(name), Fill(name, content)] }

  /** The writes of `main` between the logs and the report. */
  function MiddleWrites(job: Job, run: Run): seq<Op> {
    if BadMeasurement(job, run) then Write(StderrLog, run.stderr + run.message)
    else if Clean(run) && job.stage == Events
    then Write(MeasurementJson, job.codec.render(MeasurementOf(job, run).value))
    else []
  }

  /** The writes of `main` after a capture, in order. */
  function Script(job: Job, run: Run): seq<Op> {
    Write(StdoutLog, run.stdout)
    + Write(StderrLog, run.stderr)
    + MiddleWrites(job, run)
    + Write(ResultJson, ReportOf(job, run))
  }

  function ViolationReport(job: Job): Bytes { job.codec.render(Report("sandbox_violation")) }

  /** The writes of the exception handler of `main`. */
  function HandlerScript(job: Job, message: Bytes): seq<Op> {
    Write(StdoutLog, []) + Write(StderrLog, message) + Write(ResultJson, ViolationReport(job))
  }

  type Files = map<OutputName, Bytes>

  function Apply(op: Op, files: Files): Files {
    match op
    case Create(n) => files[n := []]
    case Fill(n, content) => files[n := content]
  }

  function ApplyAll(ops: seq<Op>, files: Files): Files
  {
    if ops == [] then files else ApplyAll(ops[1..], Apply(ops[0], files))
  }

  /** Where the runner is: the command still runs, the operations that follow a capture
      or an exception remain, or the exception handler itself raised. */
  datatype Runner = Command | Publishing(run: Run, ops: seq<Op>) | Handling(ops: seq<Op>) | Dead

  // ----- the Supervisor -------------------------------------------------------------

  datatype Supervisor =
    | Polling
    | Exporting(pending: set<OutputName>, copied: Files)
    | Inspecting
    | Accepted(snapshot: Files)
    | Exited
    | TimedOut(recovered: bool)

  /** `torn` records that the runner raised between creating result.json and filling it. */
  datatype State = State(files: Files, runner: Runner, supervisor: Supervisor, torn: bool)

  const START := State(map[], Command, Polling, false)

  datatype Action =
    | CommandWrites(name: OutputName, content: Bytes)
    | CommandRemoves(name: OutputName)
    | CommandEnds(run: Run)
    | RunnerWrites
    | RunnerRaises(message: Bytes)
    | BeginExport
    | CopyFile(name: OutputName)
    | SkipFile(name: OutputName)
    | ExportFails
    | EndExport
    | Inspect(running: bool)
    | DeadlinePasses(recovered: bool)

  /** One step of either side; `None` when the action is not possible. */
  function Step(job: Job, s: State, a: Action): Option<State> {
    match a
    case CommandWrites(n, content) =>
      Some(s.(files := s.files[n := content]))
    case CommandRemoves(n) =>
      Some(s.(files := s.files - {n}))
    case CommandEnds(run) =>
      if s.runner.Command? then Some(s.(runner := Publishing(run, Script(job, run)))) else None
    case RunnerWrites =>
      if s.runner.Publishing? && s.runner.ops != [] then
        Some(s.(files := Apply(s.runner.ops[0], s.files),
                runner := Publishing(s.runner.run, s.runner.ops[1..])))
      else if s.runner.Handling? && s.runner.ops != [] then
        Some(s.(files := Apply(s.runner.ops[0], s.files), runner := Handling(s.runner.ops[1..])))
      else None
    case RunnerRaises(message) =>
      if s.runner.Command? || (s.runner.Publishing? && s.runner.ops != []) then
        Some(s.(runner := Handling(HandlerScript(job, message)),
                torn := s.runner.Publishing? && |s.runner.ops| == 1))
      else if s.runner.Handling? && s.runner.ops != [] then Some(s.(runner := Dead))
      else None
    case BeginExport =>
      if s.supervisor.Polling? then Some(s.(supervisor := Exporting(s.files.Keys, map[]))) else None
    case CopyFile(n) =>
      if s.supervisor.Exporting? && n in s.supervisor.pending && n in s.files
      then Some(s.(supervisor := Exporting(s.supervisor.pending - {n},
                                           s.supervisor.copied[n := s.files[n]])))
      else None
    case SkipFile(n) =>
      if s.supervisor.Exporting? && n in s.supervisor.pending && n !in s.files
      then Some(s.(supervisor := Exporting(s.supervisor.pending - {n}, s.supervisor.copied)))
      else None
    case ExportFails =>
      if s.supervisor.Exporting? then Some(s.(supervisor := Inspecting)) else None
    case EndExport =>
      if s.supervisor.Exporting? && s.supervisor.pending == {} then
        var copied := s.supervisor.copied;
        Some(s.(supervisor :=
          if Admissible(copied, job.stage, job.policy) && ResultJson in copied
          then Accepted(copied) else Inspecting))
      else None
    case Inspect(running) =>
      if s.supervisor.Inspecting?
      then Some(s.(supervisor := if running then Polling else Exited)) else None
    case DeadlinePasses(recovered) =>
      if s.supervisor.Polling? then Some(s.(supervisor := TimedOut(recovered))) else None
  }

  /** The state after a whole interleaving. */
  function Execute(job: Job, actions: seq<Action>): Option<State>
  {
    if actions == [] then Some(START) else
      match Execute(job, actions[..|actions| - 1])
      case None => None
      case Some(s) => Step(job, s, actions[|actions| - 1])
  }

  predicate ByCommand(a: Action) { a.CommandWrites? || a.CommandRemoves? }

  /** What the command may do: the names that it may write while it runs and after it has
      ended, and the names that it may remove after it has ended.  While it runs it may
      remove every file. */
  datatype Freedom = Freedom(early: set<OutputName>, late: set<OutputName>, removed: set<OutputName>)

  predicate Allows(f: Freedom, running: bool, a: Action) {
    match a
    case CommandWrites(n, _) => n in if running then f.early else f.late
    case CommandRemoves(n) => running || n in f.removed
    case _ => true
  }

  /** The command stays within its freedom throughout. */
  predicate Within(job: Job, f: Freedom, actions: seq<Action>)
  {
    actions == []
    || (var before := actions[..|actions| - 1];
        && Within(job, f, before)
        && (Execute(job, before).Some? ==>
              Allows(f, Execute(job, before).value.runner.Command?, actions[|actions| - 1])))
  }

  /** The command never writes result.json. */
  predicate SparesReport(f: Freedom) { ResultJson !in f.early && ResultJson !in f.late }

  /** A file of this name that is there when the command ends is not changed by it later. */
  predicate Lasts(f: Freedom, n: OutputName) { n !in f.late && n !in f.removed }

  // ----- the outcome ----------------------------------------------------------------

  datatype Reason =
    | NoReason | StageTimeout | TrustedExecutorNotConfigured | CompileFailed | CorrectnessFailed | EventsFailed
    | DeadlineExceeded | Cancelled | InternalError | ControlCallbackFailed | GpuOom | SandboxViolation
    | GpuRecoveryFailed | SandboxUnavailable

  function CodeText(r: Reason): string {
    match r
    case NoReason => "none"
    case StageTimeout => "stage_timeout"
    case TrustedExecutorNotConfigured => "trusted_executor_not_configured"
    case CompileFailed => "compile_failed"
    case CorrectnessFailed => "correctness_failed"
    case EventsFailed => "events_failed"
    case DeadlineExceeded => "deadline_exceeded"
    case Cancelled => "cancelled"
    case InternalError => "internal_error"
    case ControlCallbackFailed => "control_callback_failed"
    case GpuOom => "gpu_oom"
    case SandboxViolation => "sandbox_violation"
    case GpuRecoveryFailed => "gpu_recovery_failed"
    case SandboxUnavailable => "sandbox_unavailable"
  }

  const CODES: seq<Reason> := [
    NoReason, StageTimeout, TrustedExecutorNotConfigured, CompileFailed, CorrectnessFailed, EventsFailed,
    DeadlineExceeded, Cancelled, InternalError, ControlCallbackFailed, GpuOom, SandboxViolation,
    GpuRecoveryFailed, SandboxUnavailable]

  /** The code of this text. */
  function CodeOf(text: string, codes: seq<Reason>): (r: Option<Reason>)
    ensures r.Some? ==> CodeText(r.value) == text && r.value in codes
    ensures r.None? ==> forall c :: c in codes ==> CodeText(c) != text
  {
    if codes == [] then None
    else if CodeText(codes[0]) == text then Some(codes[0])
    else CodeOf(text, codes[1..])
  }

  function StageReason(stage: Stage): Reason {
    match stage
    case Compile => CompileFailed
    case Correctness => CorrectnessFailed
    case Events => EventsFailed
  }

  /** `_reason_from_runner`: every reason code of the contract stands for itself, and any
      other text for the failure of the stage. */
  function ReasonFromRunner(raw: string, stage: Stage): Reason {
    match CodeOf(raw, CODES)
    case Some(code) => code
    case None => StageReason(stage)
  }

  datatype Execution = Execution(reason: Reason, outputs: Files, measurement: Option<Json>)

  /** What `execute` returns once its loop is over; `killedForMemory` is the container
      state it then reads. */
  function Finish(job: Job, s: Supervisor, killedForMemory: bool): Execution
    requires s.Accepted? || s.Exited? || s.TimedOut?
    requires s.Accepted? ==> ResultJson in s.snapshot
  {
    match s
    case TimedOut(recovered) =>
      Execution(if recovered then StageTimeout else GpuRecoveryFailed, map[], None)
    case Exited =>
      Execution(if killedForMemory then GpuOom else SandboxViolation, map[], None)
    case Accepted(snapshot) =>
      if killedForMemory then Execution(GpuOom, snapshot, None)
      else
        var outputs := snapshot - {ResultJson};
        match job.codec.parse(snapshot[ResultJson])
        case None => Execution(SandboxViolation, outputs, None)
        case Some(NotAnObject) => Execution(SandboxUnavailable, outputs, None)
        case Some(j) =>
          var reason := ReasonFromRunner(if j.Report? then j.reason else "", job.stage);
          if reason == NoReason && job.stage == Events then
            match job.codec.parse(if MeasurementJson in outputs then outputs[MeasurementJson] else [])
            case Some(m) =>
              if IsObject(m) then Execution(NoReason, outputs, Some(m))
              else Execution(EventsFailed, outputs, None)
            case None => Execution(EventsFailed, outputs, None)
          else Execution(reason, outputs, None)
  }

  datatype Status = Succeeded | StageTimedOut | Failed

  function StatusOf(e: Execution): Status {
    if e.reason == NoReason then Succeeded
    else if e.reason == StageTimeout then StageTimedOut
    else Failed
  }

  // ----- what the writes amount to ----------------------------------------------------

  predicate PublishesMeasurement(job: Job, run: Run) {
    job.stage == Events && Clean(run) && MeasurementOf(job, run).Some?
  }

  /** What the runner publishes under a name after a capture without exceptions. */
  function Publication(job: Job, run: Run, n: OutputName): Option<Bytes> {
    match n
    case StdoutLog => Some(run.stdout)
    case StderrLog => Some(if BadMeasurement(job, run) then run.stderr + run.message else run.stderr)
    case MeasurementJson =>
      if PublishesMeasurement(job, run) then Some(job.codec.render(MeasurementOf(job, run).value)) else None
    case ResultJson => Some(ReportOf(job, run))
    case Candidate => None
  }

  ghost predicate Published(job: Job, run: Run, files: Files) {
    forall n :: Publication(job, run, n).Some? ==> n in files && files[n] == Publication(job, run, n).value
  }

  /** Two directories agree on a name. */
  predicate SameAt(n: OutputName, f: Files, g: Files) {
    (n in f <==> n in g) && (n in f && n in g ==> f[n] == g[n])
  }

  lemma {:induction false} ApplyConcat(a: seq<Op>, b: seq<Op>, files: Files)
    ensures ApplyAll(a + b, files) == ApplyAll(b, ApplyAll(a, files))
  {
    if a == [] {
      assert a + b == b;
    } else {
      assert (a + b)[1..] == a[1..] + b;
      ApplyConcat(a[1..], b, Apply(a[0], files));
    }
  }

  lemma ApplyWrite(n: OutputName, content: Bytes, files: Files)
    ensures ApplyAll(Write(n, content), files) == files[n := content]
  {
    var ops := Write(n, content);
    assert ops[1..] == [Fill(n, content)];
    assert ApplyAll(ops[1..], files[n := []]) == ApplyAll([], files[n := []][n := content]);
    assert files[n := []][n := content] == files[n := content];
  }

  lemma ScriptInFourWrites(job: Job, run: Run, files: Files)
    ensures var report := Write(ResultJson, ReportOf(job, run));
            var logs := ApplyAll(Write(StderrLog, run.stderr), ApplyAll(Write(StdoutLog, run.stdout), files));
            ApplyAll(Script(job, run), files) == ApplyAll(report, ApplyAll(MiddleWrites(job, run), logs))
  {
    var out, err := Write(StdoutLog, run.stdout), Write(StderrLog, run.stderr);
    var mid := MiddleWrites(job, run);
    var report := Write(ResultJson, ReportOf(job, run));
    assert Script(job, run) == out + err + mid + report;
    ApplyConcat(out + err + mid, report, files);
    ApplyConcat(out + err, mid, files);
    ApplyConcat(out, err, files);
  }

  lemma MiddleLeaves(job: Job, run: Run, files: Files)
    ensures ApplyAll(MiddleWrites(job, run), files) ==
            if BadMeasurement(job, run) then files[StderrLog := run.stderr + run.message]
            else if PublishesMeasurement(job, run)
            then files[MeasurementJson := job.codec.render(MeasurementOf(job, run).value)]
            else files
  {
    if BadMeasurement(job, run) {
      ApplyWrite(StderrLog, run.stderr + run.message, files);
    } else if PublishesMeasurement(job, run) {
      ApplyWrite(MeasurementJson, job.codec.render(MeasurementOf(job, run).value), files);
    }
  }

  /** The command printed a JSON object. */
  predicate PrintsObject(job: Job, run: Run) {
    var j := job.codec.parse(run.stdout);
    j.Some? && (j.value.Report? || j.value.Object?)
  }

  /** The run ended by itself, with an error. */
  predicate Fails(run: Run) { run.violation.None? && run.returncode != 0 }

  /** The run ended by itself without an error, but its events output is no object. */
  predicate Garbles(job: Job, run: Run) {
    run.violation.None? && run.returncode == 0 && job.stage == Events && !PrintsObject(job, run)
  }

  /** The reason that the report of a run gives. */
  ghost predicate ReportsReason(job: Job, run: Run, text: string) {
    && (run.violation == Some(PipeCapture.StageTimeout) ==> text == "stage_timeout")
    && (run.violation == Some(PipeCapture.SandboxViolation) ==> text == "sandbox_violation")
    && (Fails(run) && run.outOfMemory ==> text == "gpu_oom")
    && (Fails(run) && !run.outOfMemory && job.stage == Compile ==> text == "compile_failed")
    && (Fails(run) && !run.outOfMemory && job.stage == Correctness ==> text == "correctness_failed")
    && (Fails(run) && !run.outOfMemory && job.stage == Events ==> text == "events_failed")
    && (Garbles(job, run) ==> text == "events_failed")
    && (run.violation.None? && run.returncode == 0 && !Garbles(job, run) ==> text == "none")
  }

  lemma FinalReasonIsReported(job: Job, run: Run)
    ensures ReportsReason(job, run, FinalReason(job, run))
  {
  }

  /** What a run leaves in the directory: the report with its reason, what the command
      printed, with the message of a failed measurement at the end of the error log, and
      the measurement exactly when an events run without error printed an object. */
  ghost predicate LeavesFiles(job: Job, run: Run, before: Files, after: Files) {
    && ResultJson in after && StdoutLog in after && StderrLog in after
    && (exists text :: after[ResultJson] == job.codec.render(Report(text)) && ReportsReason(job, run, text))
    && after[StdoutLog] == run.stdout
    && after[StderrLog] == (if Garbles(job, run) then run.stderr + run.message else run.stderr)
    && (if run.violation.None? && run.returncode == 0 && job.stage == Events && PrintsObject(job, run)
        then MeasurementJson in after && after[MeasurementJson] == job.codec.render(job.codec.parse(run.stdout).value)
        else SameAt(MeasurementJson, after, before))
    && SameAt(Candidate, after, before)
  }

  lemma PublishedLeaves(job: Job, run: Run, before: Files, after: Files)
    requires Published(job, run, after)
    requires forall n :: Publication(job, run, n).None? ==> SameAt(n, after, before)
    ensures LeavesFiles(job, run, before, after)
  {
    hide FinalReason;
    FinalReasonIsReported(job, run);
    assert Publication(job, run, ResultJson).Some? && Publication(job, run, StdoutLog).Some?;
    assert Publication(job, run, StderrLog).Some? && Publication(job, run, Candidate).None?;
    assert MeasurementJson in after || Publication(job, run, MeasurementJson).None?;
  }

  /** Whatever is there before, the writes leave what the runner publishes, and nothing
      else changes. */
  lemma ScriptPublishes(job: Job, run: Run, files: Files)
    ensures Published(job, run, ApplyAll(Script(job, run), files))
    ensures forall n :: Publication(job, run, n).None? ==> SameAt(n, ApplyAll(Script(job, run), files), files)
    ensures LeavesFiles(job, run, files, ApplyAll(Script(job, run), files))
  {
    ScriptLeavesPublication(job, run, files);
    PublishedLeaves(job, run, files, ApplyAll(Script(job, run), files));
  }

  lemma ScriptLeavesPublication(job: Job, run: Run, files: Files)
    ensures Published(job, run, ApplyAll(Script(job, run), files))
    ensures forall n :: Publication(job, run, n).None? ==> SameAt(n, ApplyAll(Script(job, run), files), files)
  {
    hide ApplyAll;
    var report := ReportOf(job, run);
    var logs := files[StdoutLog := run.stdout][StderrLog := run.stderr];
    ScriptInFourWrites(job, run, files);
    ApplyWrite(StdoutLog, run.stdout, files);
    ApplyWrite(StderrLog, run.stderr, files[StdoutLog := run.stdout]);
    MiddleLeaves(job, run, logs);
    ApplyWrite(ResultJson, report, ApplyAll(MiddleWrites(job, run), logs));
  }

  // ----- the invariant ------------------------------------------------------------------

  function Content(op: Op): Bytes { if op.Create? then [] else op.content }

  /** The remaining writes of a script that ends with the two of result.json. */
  predicate ReportLast(ops: seq<Op>) {
    forall i :: 0 <= i < |ops| ==> (ops[i].name == ResultJson <==> i >= |ops| - 2)
  }

  /** Whatever remains to be written to result.json is one of these contents. */
  predicate ReportsOnly(ops: seq<Op>, contents: set<Bytes>) {
    forall i :: 0 <= i < |ops| && ops[i].name == ResultJson ==> Content(ops[i]) in contents
  }

  predicate IsSuffix(ops: seq<Op>, script: seq<Op>) {
    |ops| <= |script| && ops == script[|script| - |ops|..]
  }

  /** The name has what the runner publishes there, as far as the command lets it; another
      name is the command's. */
  predicate KeptAt(job: Job, f: Freedom, run: Run, n: OutputName, files: Files) {
    n != ResultJson ==>
      if Publication(job, run, n).None? then n in files ==> n in f.early + f.late
      else
        && (n !in f.late && n in files ==> files[n] == Publication(job, run, n).value)
        && (Lasts(f, n) ==> n in files)
  }

  ghost predicate Kept(job: Job, f: Freedom, run: Run, files: Files) {
    forall n :: KeptAt(job, f, run, n, files)
  }

  /** result.json while the last writes of a capture remain. */
  predicate ReportInv(f: Freedom, files: Files, left: nat, report: Bytes) {
    && (left >= 2 ==> ResultJson !in files)
    && (ResultJson in files ==> files[ResultJson] == if left == 0 then report else [])
    && (left <= 1 && ResultJson !in f.removed ==> ResultJson in files)
  }

  ghost predicate RunnerInv(job: Job, f: Freedom, s: State) {
    match s.runner
    case Command => !s.torn && ResultJson !in s.files && s.files.Keys <= f.early
    case Publishing(run, ops) =>
      && !s.torn && IsSuffix(ops, Script(job, run)) && Kept(job, f, run, ApplyAll(ops, s.files))
      && ReportInv(f, s.files, |ops|, ReportOf(job, run))
    case Handling(ops) =>
      && ReportLast(ops) && ReportsOnly(ops, {[], ViolationReport(job)})
      && (ResultJson in s.files ==> s.files[ResultJson] in {[], ViolationReport(job)})
      && (ResultJson in s.files && !s.torn ==> |ops| <= 1)
    case Dead => ResultJson in s.files ==> s.files[ResultJson] in {[], ViolationReport(job)}
  }

  /** The runner has nothing left to write but, possibly, the content of result.json. */
  predicate Sealed(s: State) {
    match s.runner
    case Command => false
    case Publishing(_, ops) => |ops| <= 1
    case Handling(ops) => s.torn || |ops| <= 1
    case Dead => true
  }

  predicate ReportCopied(job: Job, s: State, copied: Files) {
    ResultJson in copied ==>
      || copied[ResultJson] == []
      || (if s.runner.Publishing? then s.runner.ops == [] && copied[ResultJson] == ReportOf(job, s.runner.run)
          else copied[ResultJson] == ViolationReport(job))
  }

  /** What has been copied under the name is what the runner publishes there, as far as the
      command lets it. */
  predicate CopiedAt(job: Job, f: Freedom, run: Run, n: OutputName, listed: set<OutputName>, copied: Files) {
    n != ResultJson ==>
      if Publication(job, run, n).None? then n in copied ==> n in f.early + f.late
      else
        && (n !in f.late && n in copied ==> copied[n] == Publication(job, run, n).value)
        && (Lasts(f, n) ==> n in listed)
  }

  /** What has been copied under the name is still there, as far as the command lets it. */
  predicate FinalAt(f: Freedom, n: OutputName, files: Files, listed: set<OutputName>, copied: Files) {
    n != ResultJson ==>
      && (n !in f.late && n in files ==> n in listed)
      && (n !in f.late && n in files && n in copied ==> copied[n] == files[n])
      && (Lasts(f, n) && n in copied ==> n in files)
  }

  /** A listing, of which `copied` has been copied so far. */
  ghost predicate CopyInv(job: Job, f: Freedom, s: State, listed: set<OutputName>, copied: Files) {
    && copied.Keys <= listed && ReportCopied(job, s, copied)
    && (ResultJson in listed ==>
          && Sealed(s)
          && (s.runner.Publishing? ==> forall n :: CopiedAt(job, f, s.runner.run, n, listed, copied))
          && (!s.torn ==> forall n :: FinalAt(f, n, s.files, listed, copied)))
  }

  ghost predicate Inv(job: Job, f: Freedom, s: State) {
    && RunnerInv(job, f, s)
    && match s.supervisor
       case Exporting(pending, copied) => CopyInv(job, f, s, pending + copied.Keys, copied)
       case Accepted(snapshot) =>
         && ResultJson in snapshot && Admissible(snapshot, job.stage, job.policy)
         && CopyInv(job, f, s, snapshot.Keys, snapshot)
       case _ => true
  }

  lemma ScriptEndsWithReport(job: Job, run: Run)
    ensures ReportLast(Script(job, run)) && |Script(job, run)| >= 2
    ensures ReportsOnly(Script(job, run), {[], ReportOf(job, run)})
  {
  }

  lemma HandlerEndsWithReport(job: Job, message: Bytes)
    ensures ReportLast(HandlerScript(job, message))
    ensures ReportsOnly(HandlerScript(job, message), {[], ViolationReport(job)})
  {
  }

  /** The next write of a script: the one before the last creates result.json, the last one
      fills it, and those before them leave it alone. */
  lemma NextWrite(job: Job, run: Run, ops: seq<Op>)
    requires IsSuffix(ops, Script(job, run)) && ops != []
    ensures IsSuffix(ops[1..], Script(job, run))
    ensures |ops| > 2 ==> ops[0].name != ResultJson
    ensures |ops| == 2 ==> ops[0] == Create(ResultJson)
    ensures |ops| == 1 ==> ops[0] == Fill(ResultJson, ReportOf(job, run))
  {
    var script := Script(job, run);
    ScriptEndsWithReport(job, run);
    assert script[|script| - 2..] == Write(ResultJson, ReportOf(job, run));
    assert ops[0] == script[|script| - |ops|];
  }

  lemma ReportStep(f: Freedom, files: Files, op: Op, left: nat, report: Bytes)
    requires ReportInv(f, files, left, report) && left > 0
    requires left > 2 ==> op.name != ResultJson
    requires left == 2 ==> op == Create(ResultJson)
    requires left == 1 ==> op == Fill(ResultJson, report)
    ensures ReportInv(f, Apply(op, files), left - 1, report)
  {
  }

  lemma PublishingStep(job: Job, f: Freedom, s: State)
    requires RunnerInv(job, f, s) && s.runner.Publishing? && s.runner.ops != []
    ensures RunnerInv(job, f, Step(job, s, RunnerWrites).value)
  {
    hide Kept, Script, ReportOf, IsSuffix, ReportInv, Apply;
    var run, ops := s.runner.run, s.runner.ops;
    NextWrite(job, run, ops);
    ReportStep(f, s.files, ops[0], |ops|, ReportOf(job, run));
    assert ApplyAll(ops, s.files) == ApplyAll(ops[1..], Apply(ops[0], s.files));
  }

  lemma HandlingStep(job: Job, f: Freedom, s: State)
    requires RunnerInv(job, f, s) && s.runner.Handling? && s.runner.ops != []
    ensures RunnerInv(job, f, Step(job, s, RunnerWrites).value)
  {
    var ops := s.runner.ops;
    assert ops[0].name == ResultJson <==> |ops| <= 2;
    assert forall i :: 0 <= i < |ops| - 1 ==> ops[1..][i] == ops[i + 1];
  }

  lemma EndingStep(job: Job, f: Freedom, s: State, run: Run)
    requires RunnerInv(job, f, s) && s.runner.Command?
    ensures RunnerInv(job, f, Step(job, s, CommandEnds(run)).value)
  {
    ScriptPublishes(job, run, s.files);
    ScriptEndsWithReport(job, run);
    assert Script(job, run)[0..] == Script(job, run);
  }

  lemma RaisingStep(job: Job, f: Freedom, s: State, message: Bytes)
    requires RunnerInv(job, f, s) && Step(job, s, RunnerRaises(message)).Some?
    ensures RunnerInv(job, f, Step(job, s, RunnerRaises(message)).value)
  {
    HandlerEndsWithReport(job, message);
  }

  /** What one directory has under a name, the other has too. */
  predicate LessAt(n: OutputName, f: Files, g: Files) { n in f ==> n in g && f[n] == g[n] }

  lemma {:induction false} ApplyAllLess(n: OutputName, ops: seq<Op>, f: Files, g: Files)
    requires LessAt(n, f, g)
    ensures LessAt(n, ApplyAll(ops, f), ApplyAll(ops, g))
  {
    if ops != [] { ApplyAllLess(n, ops[1..], Apply(ops[0], f), Apply(ops[0], g)); }
  }

  /** A late step of the command keeps what it has to. */
  lemma CommandKeeps(job: Job, f: Freedom, run: Run, ops: seq<Op>, files: Files, a: Action, files': Files)
    requires Kept(job, f, run, ApplyAll(ops, files)) && ByCommand(a) && Allows(f, false, a)
    requires files' == if a.CommandWrites? then files[a.name := a.content] else files - {a.name}
    ensures Kept(job, f, run, ApplyAll(ops, files'))
  {
    forall n ensures KeptAt(job, f, run, n, ApplyAll(ops, files')) {
      assert KeptAt(job, f, run, n, ApplyAll(ops, files));
      if n !in f.late { ApplyAllLess(n, ops, files', files); }
      if Lasts(f, n) { ApplyAllLess(n, ops, files, files'); }
    }
  }

  lemma CommandStep(job: Job, f: Freedom, s: State, a: Action)
    requires SparesReport(f) && RunnerInv(job, f, s) && ByCommand(a) && Allows(f, s.runner.Command?, a)
    ensures Step(job, s, a).Some? && RunnerInv(job, f, Step(job, s, a).value)
  {
    if s.runner.Publishing? {
      CommandKeeps(job, f, s.runner.run, s.runner.ops, s.files, a, Step(job, s, a).value.files);
    }
  }

  lemma RunnerStep(job: Job, f: Freedom, s: State, a: Action)
    requires SparesReport(f) && RunnerInv(job, f, s) && Step(job, s, a).Some? && Allows(f, s.runner.Command?, a)
    requires OfDirectory(a)
    ensures RunnerInv(job, f, Step(job, s, a).value)
  {
    match a
    case CommandWrites(_, _) => CommandStep(job, f, s, a);
    case CommandRemoves(_) => CommandStep(job, f, s, a);
    case CommandEnds(run) => EndingStep(job, f, s, run);
    case RunnerWrites =>
      if s.runner.Publishing? { PublishingStep(job, f, s); } else { HandlingStep(job, f, s); }
    case RunnerRaises(message) => RaisingStep(job, f, s, message);
  }

  /** The steps of the command and the runner. */
  predicate OfDirectory(a: Action) { ByCommand(a) || a.CommandEnds? || a.RunnerWrites? || a.RunnerRaises? }

  /** Once the runner is sealed, the names other than result.json change by the command only. */
  lemma SealedStep(job: Job, f: Freedom, s: State, a: Action)
    requires RunnerInv(job, f, s) && Sealed(s) && Step(job, s, a).Some? && OfDirectory(a)
    ensures var s' := Step(job, s, a).value;
            && Sealed(s')
            && (s'.runner.Publishing? ==> s.runner.Publishing? && s'.runner.run == s.runner.run)
            && (!s'.torn ==> !s.torn)
            && (!s'.torn && !ByCommand(a) ==> forall n :: n != ResultJson ==> SameAt(n, s'.files, s.files))
  {
    if s.runner.Publishing? && s.runner.ops != [] { NextWrite(job, s.runner.run, s.runner.ops); }
  }

  lemma SupervisorKept(job: Job, f: Freedom, s: State, a: Action, listed: set<OutputName>, copied: Files)
    requires SparesReport(f) && RunnerInv(job, f, s) && CopyInv(job, f, s, listed, copied)
    requires Step(job, s, a).Some? && OfDirectory(a) && Allows(f, s.runner.Command?, a)
    ensures CopyInv(job, f, Step(job, s, a).value, listed, copied)
  {
    var s' := Step(job, s, a).value;
    if ResultJson in listed {
      SealedStep(job, f, s, a);
      forall n | s'.runner.Publishing? ensures CopiedAt(job, f, s'.runner.run, n, listed, copied) {
        assert CopiedAt(job, f, s.runner.run, n, listed, copied);
      }
      forall n | !s'.torn ensures FinalAt(f, n, s'.files, listed, copied) {
        assert FinalAt(f, n, s.files, listed, copied);
      }
    }
  }

  /** The Supervisor's steps leave the directory and the runner alone. */
  lemma DirectoryUntouched(job: Job, f: Freedom, s: State, a: Action)
    requires RunnerInv(job, f, s) && Step(job, s, a).Some? && !OfDirectory(a)
    ensures RunnerInv(job, f, Step(job, s, a).value)
  {
  }

  /** While a listing with result.json is copied, the directory has what was published. */
  lemma SealedHasPublication(job: Job, f: Freedom, s: State, n: OutputName)
    requires RunnerInv(job, f, s) && s.runner.Publishing? && |s.runner.ops| <= 1
    ensures KeptAt(job, f, s.runner.run, n, s.files)
  {
    var ops := s.runner.ops;
    assert KeptAt(job, f, s.runner.run, n, ApplyAll(ops, s.files));
    if ops != [] {
      NextWrite(job, s.runner.run, ops);
      assert ApplyAll(ops, s.files) == ApplyAll([], Apply(ops[0], s.files));
    }
  }

  lemma CopyStep(job: Job, f: Freedom, s: State, listed: set<OutputName>, copied: Files, n: OutputName)
    requires RunnerInv(job, f, s) && CopyInv(job, f, s, listed, copied) && n in listed && n in s.files
    ensures CopyInv(job, f, s, listed, copied[n := s.files[n]])
  {
    var more := copied[n := s.files[n]];
    if ResultJson in listed {
      forall m | s.runner.Publishing? ensures CopiedAt(job, f, s.runner.run, m, listed, more) {
        assert CopiedAt(job, f, s.runner.run, m, listed, copied);
        SealedHasPublication(job, f, s, m);
      }
      forall m | !s.torn ensures FinalAt(f, m, s.files, listed, more) {
        assert FinalAt(f, m, s.files, listed, copied);
      }
    }
  }

  lemma SkipStep(job: Job, f: Freedom, s: State, listed: set<OutputName>, copied: Files, n: OutputName)
    requires RunnerInv(job, f, s) && CopyInv(job, f, s, listed, copied) && n !in s.files && n !in copied
    ensures CopyInv(job, f, s, listed - {n}, copied)
  {
    if ResultJson in listed - {n} {
      forall m | s.runner.Publishing? ensures CopiedAt(job, f, s.runner.run, m, listed - {n}, copied) {
        assert CopiedAt(job, f, s.runner.run, m, listed, copied);
        SealedHasPublication(job, f, s, m);
      }
      forall m | !s.torn ensures FinalAt(f, m, s.files, listed - {n}, copied) {
        assert FinalAt(f, m, s.files, listed, copied);
      }
    }
  }

  lemma BeginStep(job: Job, f: Freedom, s: State)
    requires RunnerInv(job, f, s)
    ensures CopyInv(job, f, s, s.files.Keys, map[])
  {
    if ResultJson in s.files {
      forall n | s.runner.Publishing? ensures CopiedAt(job, f, s.runner.run, n, s.files.Keys, map[]) {
        SealedHasPublication(job, f, s, n);
      }
    }
  }

  lemma ExportKeepsInvariant(job: Job, f: Freedom, s: State, a: Action)
    requires Inv(job, f, s) && Step(job, s, a).Some?
    requires a.BeginExport? || a.CopyFile? || a.SkipFile? || a.EndExport?
    ensures Inv(job, f, Step(job, s, a).value)
  {
    DirectoryUntouched(job, f, s, a);
    var s' := Step(job, s, a).value;
    if a.BeginExport? {
      var none: Files := map[];
      assert s.files.Keys + none.Keys == s.files.Keys;
      BeginStep(job, f, s);
      SupervisorIrrelevant(job, f, s, s', s.files.Keys, map[]);
    } else {
      var Exporting(pending, copied) := s.supervisor;
      var listed := pending + copied.Keys;
      if a.CopyFile? {
        CopyStep(job, f, s, listed, copied, a.name);
        var more := copied[a.name := s.files[a.name]];
        assert (pending - {a.name}) + more.Keys == listed;
        SupervisorIrrelevant(job, f, s, s', listed, more);
      } else if a.SkipFile? {
        if a.name in copied {
          assert (pending - {a.name}) + copied.Keys == listed;
          SupervisorIrrelevant(job, f, s, s', listed, copied);
        } else {
          SkipStep(job, f, s, listed, copied, a.name);
          assert (pending - {a.name}) + copied.Keys == listed - {a.name};
          SupervisorIrrelevant(job, f, s, s', listed - {a.name}, copied);
        }
      } else {
        assert listed == copied.Keys;
        SupervisorIrrelevant(job, f, s, s', listed, copied);
      }
    }
  }

  lemma SupervisorIrrelevant(job: Job, f: Freedom, s: State, s': State, listed: set<OutputName>, copied: Files)
    requires CopyInv(job, f, s, listed, copied) && s' == s.(supervisor := s'.supervisor)
    ensures CopyInv(job, f, s', listed, copied)
  {
  }

  lemma StepKeepsInvariant(job: Job, f: Freedom, s: State, a: Action)
    requires SparesReport(f) && Inv(job, f, s) && Step(job, s, a).Some? && Allows(f, s.runner.Command?, a)
    ensures Inv(job, f, Step(job, s, a).value)
  {
    if OfDirectory(a) {
      RunnerStep(job, f, s, a);
      match s.supervisor
      case Exporting(pending, copied) => SupervisorKept(job, f, s, a, pending + copied.Keys, copied);
      case Accepted(snapshot) => SupervisorKept(job, f, s, a, snapshot.Keys, snapshot);
      case _ =>
    } else if a.BeginExport? || a.CopyFile? || a.SkipFile? || a.EndExport? {
      ExportKeepsInvariant(job, f, s, a);
    } else {
      DirectoryUntouched(job, f, s, a);
    }
  }

  lemma {:induction false} ReachableInvariant(job: Job, f: Freedom, actions: seq<Action>)
    requires SparesReport(f) && Within(job, f, actions) && Execute(job, actions).Some?
    ensures Inv(job, f, Execute(job, actions).value)
  {
    if actions != [] {
      var n := |actions| - 1;
      ReachableInvariant(job, f, actions[..n]);
      StepKeepsInvariant(job, f, Execute(job, actions[..n]).value, actions[n]);
    }
  }

  // ----- what every interleaving guarantees ---------------------------------------------

  lemma ReasonIsNoneOnlyForNone(raw: string, stage: Stage)
    ensures ReasonFromRunner(raw, stage) == NoReason <==> raw == "none"
    ensures ReasonFromRunner(raw, stage) == StageTimeout <==> raw == "stage_timeout"
  {
    TwoCodesDiffer();
    assert CODES[0] == NoReason && CODES[1] == StageTimeout;
    if raw == "stage_timeout" {
      assert CODES[1..][0] == StageTimeout;
      assert CodeOf(raw, CODES) == CodeOf(raw, CODES[1..]);
    }
  }

  lemma TwoCodesDiffer()
    ensures "none" != "stage_timeout"
  {
    assert |"none"| == 4 && |"stage_timeout"| == 13;
  }

  lemma FinalReasonIsNone(job: Job, run: Run)
    ensures FinalReason(job, run) == "none" <==> Clean(run) && !BadMeasurement(job, run)
    ensures FinalReason(job, run) == "stage_timeout" <==>
              run.violation == Some(PipeCapture.StageTimeout)
  {
    assert |"none"| == 4 && |"stage_timeout"| == 13 && |"compile_failed"| == 14
      && |"correctness_failed"| == 18 && |"events_failed"| == 13 && "events_failed"[0] == 'e'
      && |"gpu_oom"| == 7 && |"sandbox_violation"| == 17 && "stage_timeout"[0] == 's';
  }

  /** The contract writes every reason differently: by its length and its first letter. */
  lemma TextsDiffer(a: Reason, b: Reason)
    requires CodeText(a) == CodeText(b)
    ensures a == b
  {
    TextMark(a);
    TextMark(b);
  }

  function Mark(r: Reason): (nat, char) {
    match r
    case NoReason => (4, 'n')
    case StageTimeout => (13, 's')
    case TrustedExecutorNotConfigured => (31, 't')
    case CompileFailed => (14, 'c')
    case CorrectnessFailed => (18, 'c')
    case EventsFailed => (13, 'e')
    case DeadlineExceeded => (17, 'd')
    case Cancelled => (9, 'c')
    case InternalError => (14, 'i')
    case ControlCallbackFailed => (23, 'c')
    case GpuOom => (7, 'g')
    case SandboxViolation => (17, 's')
    case GpuRecoveryFailed => (19, 'g')
    case SandboxUnavailable => (19, 's')
  }

  lemma TextMark(r: Reason)
    ensures |CodeText(r)| == Mark(r).0 && CodeText(r)[0] == Mark(r).1
  {
  }

  lemma EveryReasonIsListed(r: Reason)
    ensures r in CODES
  {
    match r
    case NoReason => assert CODES[0] == r;
    case StageTimeout => assert CODES[1] == r;
    case TrustedExecutorNotConfigured => assert CODES[2] == r;
    case CompileFailed => assert CODES[3] == r;
    case CorrectnessFailed => assert CODES[4] == r;
    case EventsFailed => assert CODES[5] == r;
    case DeadlineExceeded => assert CODES[6] == r;
    case Cancelled => assert CODES[7] == r;
    case InternalError => assert CODES[8] == r;
    case ControlCallbackFailed => assert CODES[9] == r;
    case GpuOom => assert CODES[10] == r;
    case SandboxViolation => assert CODES[11] == r;
    case GpuRecoveryFailed => assert CODES[12] == r;
    case SandboxUnavailable => assert CODES[13] == r;
  }

  /** Every reason comes back from its text; any other text is a failure of the stage. */
  lemma ReasonsComeBack(r: Reason, raw: string, stage: Stage)
    ensures ReasonFromRunner(CodeText(r), stage) == r
    ensures (forall c :: CodeText(c) != raw) ==>
              ReasonFromRunner(raw, stage) == match stage case Compile => CompileFailed
                                                          case Correctness => CorrectnessFailed
                                                          case Events => EventsFailed
  {
    EveryReasonIsListed(r);
    var code := CodeOf(CodeText(r), CODES);
    if code.Some? { TextsDiffer(code.value, r); }
  }

  /** The snapshot has a measurement that is an object. */
  predicate HasMeasurement(job: Job, snapshot: Files) {
    && MeasurementJson in snapshot && job.codec.parse(snapshot[MeasurementJson]).Some?
    && IsObject(job.codec.parse(snapshot[MeasurementJson]).value)
  }

  /** The reason whose text is reported; a text without a reason, and an object without a
      text, stand for the failure of the stage. */
  ghost predicate IsReportedReason(stage: Stage, report: Json, r: Reason) {
    if report.Report? && exists c :: CodeText(c) == report.reason then CodeText(r) == report.reason
    else
      && (stage == Compile ==> r == CompileFailed) && (stage == Correctness ==> r == CorrectnessFailed)
      && (stage == Events ==> r == EventsFailed)
  }

  /** What the Supervisor concludes from an accepted snapshot of a container that was not
      killed: a violation when the report does not parse, an unavailable sandbox when it is
      no object, and otherwise the reported reason, unless that is none for an events job
      whose measurement is missing or no object. */
  ghost predicate Concludes(job: Job, snapshot: Files, e: Execution)
    requires ResultJson in snapshot
  {
    var report := job.codec.parse(snapshot[ResultJson]);
    && e.outputs == snapshot - {ResultJson}
    && (e.measurement.Some? <==> e.reason == NoReason && job.stage == Events)
    && (e.measurement.Some? ==>
          HasMeasurement(job, snapshot) && e.measurement == job.codec.parse(snapshot[MeasurementJson]))
    && (report.None? ==> e.reason == SandboxViolation)
    && (report == Some(NotAnObject) ==> e.reason == SandboxUnavailable)
    && (report.Some? && IsObject(report.value) ==>
          if report == Some(Report("none")) && job.stage == Events && !HasMeasurement(job, snapshot)
          then e.reason == EventsFailed
          else IsReportedReason(job.stage, report.value, e.reason))
  }

  lemma FinishConcludes(job: Job, snapshot: Files)
    requires Lawful(job.codec) && ResultJson in snapshot
    ensures Concludes(job, snapshot, Finish(job, Accepted(snapshot), false))
  {
    hide ReasonFromRunner, CodeText, IsReportedReason;
    var report := job.codec.parse(snapshot[ResultJson]);
    ReportedReason(job, snapshot);
    if report.Some? && IsObject(report.value) { ReportIsReason(report.value, job.stage); }
  }

  lemma ReportIsReason(report: Json, stage: Stage)
    ensures IsReportedReason(stage, report, ReasonFromRunner(if report.Report? then report.reason else "", stage))
  {
    hide ReasonFromRunner;
    var raw := if report.Report? then report.reason else "";
    if c: Reason :| CodeText(c) == raw {
      TextMark(c);
      ReasonsComeBack(c, "", stage);
    } else {
      ReasonsComeBack(NoReason, raw, stage);
    }
  }

  predicate Terminal(s: Supervisor) { s.Accepted? || s.Exited? || s.TimedOut? }

  // ----- what holds whatever the command writes ---------------------------------------------

  predicate SoundSupervisor(job: Job, s: Supervisor) {
    s.Accepted? ==> ResultJson in s.snapshot && Admissible(s.snapshot, job.stage, job.policy)
  }

  lemma {:induction false} AcceptedIsSound(job: Job, actions: seq<Action>)
    requires Execute(job, actions).Some?
    ensures SoundSupervisor(job, Execute(job, actions).value.supervisor)
  {
    if actions != [] { AcceptedIsSound(job, actions[..|actions| - 1]); }
  }

  /** What an execution result that reports success is made of. */
  lemma SuccessReportsNone(job: Job, snapshot: Files, killedForMemory: bool)
    requires Lawful(job.codec) && ResultJson in snapshot
    ensures var e := Finish(job, Accepted(snapshot), killedForMemory);
            StatusOf(e) == Succeeded <==>
              && !killedForMemory && job.codec.parse(snapshot[ResultJson]) == Some(Report("none"))
              && (job.stage == Events ==>
                    && MeasurementJson in snapshot && job.codec.parse(snapshot[MeasurementJson]).Some?
                    && IsObject(job.codec.parse(snapshot[MeasurementJson]).value))
    ensures var e := Finish(job, Accepted(snapshot), killedForMemory);
            StatusOf(e) == Succeeded ==>
              && e.outputs == snapshot - {ResultJson}
              && (job.stage == Events ==> e.measurement == job.codec.parse(snapshot[MeasurementJson]))
  {
    ReportedReason(job, snapshot);
  }

  /** The reason that a report stands for, if it is an object. */
  lemma ReportedReason(job: Job, snapshot: Files)
    requires ResultJson in snapshot
    ensures var j := job.codec.parse(snapshot[ResultJson]);
            j.Some? && IsObject(j.value) ==>
              (ReasonFromRunner(if j.value.Report? then j.value.reason else "", job.stage) == NoReason
               <==> j == Some(Report("none")))
  {
    var j := job.codec.parse(snapshot[ResultJson]);
    EmptyIsNotNone();
    if j.Some? {
      ReasonIsNoneOnlyForNone(if j.value.Report? then j.value.reason else "", job.stage);
    }
  }

  lemma EmptyIsNotNone()
    ensures "" != "none" && "" != "stage_timeout"
  {
  }

  /** Without any hypothesis on the command: a job ends successfully exactly when an
      admissible export was accepted whose report says none and, for events, whose
      measurement is an object. */
  lemma SuccessIsReported(job: Job, actions: seq<Action>, killedForMemory: bool)
    requires Lawful(job.codec) && Execute(job, actions).Some?
    requires Terminal(Execute(job, actions).value.supervisor)
    ensures SoundSupervisor(job, Execute(job, actions).value.supervisor)
    ensures var s := Execute(job, actions).value.supervisor;
            StatusOf(Finish(job, s, killedForMemory)) == Succeeded <==>
              && s.Accepted? && !killedForMemory
              && Admissible(s.snapshot, job.stage, job.policy)
              && job.codec.parse(s.snapshot[ResultJson]) == Some(Report("none"))
              && (job.stage == Events ==>
                    && MeasurementJson in s.snapshot && job.codec.parse(s.snapshot[MeasurementJson]).Some?
                    && IsObject(job.codec.parse(s.snapshot[MeasurementJson]).value))
    ensures var s := Execute(job, actions).value.supervisor;
            s.TimedOut? ==> Finish(job, s, killedForMemory).outputs == map[]
  {
    AcceptedIsSound(job, actions);
    var s := Execute(job, actions).value.supervisor;
    if s.Accepted? { SuccessReportsNone(job, s.snapshot, killedForMemory); }
  }

  // ----- what the freedom of the command leaves ---------------------------------------------

  lemma ReportsDiffer()
    ensures "none" != "sandbox_violation" && "stage_timeout" != "sandbox_violation"
  {
    assert |"none"| == 4 && |"sandbox_violation"| == 17 && |"stage_timeout"| == 13;
  }

  /** The job ends with what a run of the command left the runner to publish in full. */
  ghost predicate FromRun(s: State) { s.runner.Publishing? && s.runner.ops == [] }

  /** The command leaves alone what the runner publishes for a job that ends like this.  What
      it does to result.json by removing it does no harm, and neither does removing the
      measurement, because both only keep a job from ending well. */
  predicate KeepsFiles(stage: Stage, f: Freedom, status: Status) {
    && SparesReport(f) && Lasts(f, StdoutLog) && Lasts(f, StderrLog)
    && (stage == Events && status == Succeeded ==> MeasurementJson !in f.late)
  }

  /** The copied files are what the runner publishes and, besides, files of the command. */
  ghost predicate CopiesPublication(job: Job, f: Freedom, run: Run, snapshot: Files) {
    && Published(job, run, snapshot)
    && forall n :: n in snapshot && Publication(job, run, n).None? ==> n in f.early + f.late
  }

  /** A report that is neither broken nor the one of a violation comes from a finished
      publication. */
  lemma ReportOrigin(job: Job, f: Freedom, s: State)
    requires Lawful(job.codec) && Inv(job, f, s) && s.supervisor.Accepted?
    requires job.codec.parse(s.supervisor.snapshot[ResultJson]).Some?
    requires job.codec.parse(s.supervisor.snapshot[ResultJson]) != Some(Report("sandbox_violation"))
    ensures FromRun(s) && s.supervisor.snapshot[ResultJson] == ReportOf(job, s.runner.run)
  {
    var report := s.supervisor.snapshot[ResultJson];
    assert report != [] && report != ViolationReport(job);
  }

  lemma CopiedFiles(job: Job, f: Freedom, s: State)
    requires Inv(job, f, s) && s.supervisor.Accepted? && Lasts(f, StdoutLog) && Lasts(f, StderrLog)
    requires FromRun(s) && s.supervisor.snapshot[ResultJson] == ReportOf(job, s.runner.run)
    requires PublishesMeasurement(job, s.runner.run) ==>
               MeasurementJson in s.supervisor.snapshot && MeasurementJson !in f.late
    ensures CopiesPublication(job, f, s.runner.run, s.supervisor.snapshot)
  {
    var run, snapshot := s.runner.run, s.supervisor.snapshot;
    forall n
      ensures Publication(job, run, n).Some? ==> n in snapshot && snapshot[n] == Publication(job, run, n).value
      ensures n in snapshot && Publication(job, run, n).None? ==> n in f.early + f.late
    {
      assert CopiedAt(job, f, run, n, snapshot.Keys, snapshot);
    }
  }

  /** An accepted snapshot whose result.json was not torn is final at every name that the
      command does not change after it has ended. */
  lemma SnapshotIsFinal(job: Job, f: Freedom, actions: seq<Action>)
    requires SparesReport(f) && Within(job, f, actions) && Execute(job, actions).Some?
    requires Execute(job, actions).value.supervisor.Accepted? && !Execute(job, actions).value.torn
    ensures var s := Execute(job, actions).value;
            forall n :: n != ResultJson && Lasts(f, n) ==> SameAt(n, s.supervisor.snapshot, s.files)
  {
    ReachableInvariant(job, f, actions);
    var s := Execute(job, actions).value;
    forall n | n != ResultJson && Lasts(f, n) ensures SameAt(n, s.supervisor.snapshot, s.files) {
      assert FinalAt(f, n, s.files, s.supervisor.snapshot.Keys, s.supervisor.snapshot);
    }
  }

  /** When the command never writes result.json, a job ends successfully only if the command
      was clean and the runner had published everything.  When it leaves the published files
      alone after its end, the Supervisor took exactly what the runner published; for
      events the measurement is the object the command printed. */
  lemma SucceededMeans(job: Job, f: Freedom, actions: seq<Action>, killedForMemory: bool)
    requires Lawful(job.codec) && SparesReport(f) && Within(job, f, actions) && Execute(job, actions).Some?
    requires Terminal(Execute(job, actions).value.supervisor)
    ensures SoundSupervisor(job, Execute(job, actions).value.supervisor)
    ensures var s := Execute(job, actions).value;
            var e := Finish(job, s.supervisor, killedForMemory);
            StatusOf(e) == Succeeded ==>
              && !killedForMemory && s.supervisor.Accepted? && FromRun(s)
              && Clean(s.runner.run) && !BadMeasurement(job, s.runner.run)
              && Admissible(s.supervisor.snapshot, job.stage, job.policy)
              && e.outputs == s.supervisor.snapshot - {ResultJson}
              && (forall n :: Lasts(f, n) ==> SameAt(n, s.supervisor.snapshot, s.files))
              && (KeepsFiles(job.stage, f, Succeeded) ==>
                    && CopiesPublication(job, f, s.runner.run, s.supervisor.snapshot)
                    && (job.stage == Events ==>
                          e.measurement.Some? && e.measurement == MeasurementOf(job, s.runner.run)))
  {
    hide Finish, Execute, Within;
    SuccessIsReported(job, actions, killedForMemory);
    var s := Execute(job, actions).value;
    if StatusOf(Finish(job, s.supervisor, killedForMemory)) == Succeeded {
      ReachableInvariant(job, f, actions);
      SuccessReportsNone(job, s.supervisor.snapshot, killedForMemory);
      ReportsDiffer();
      ReportOrigin(job, f, s);
      FinalReasonIsNone(job, s.runner.run);
      SnapshotIsFinal(job, f, actions);
      if KeepsFiles(job.stage, f, Succeeded) { CopiedFiles(job, f, s); }
    }
  }

  /** The converse: once a clean run is fully published, a Supervisor that copied the
      finished report ends the job successfully.  The one report that it can copy too
      early is the empty one, and then the job is reported as a sandbox violation. */
  lemma CleanRunSucceedsExactlyWhen(job: Job, f: Freedom, actions: seq<Action>)
    requires Lawful(job.codec) && SparesReport(f) && (job.stage == Events ==> Lasts(f, MeasurementJson))
    requires Within(job, f, actions) && Execute(job, actions).Some?
    requires var s := Execute(job, actions).value;
             && s.supervisor.Accepted? && s.runner.Publishing?
             && Clean(s.runner.run) && !BadMeasurement(job, s.runner.run)
    ensures var s := Execute(job, actions).value;
            && ResultJson in s.supervisor.snapshot
            && var e := Finish(job, s.supervisor, false);
               && (StatusOf(e) == Succeeded <==> s.supervisor.snapshot[ResultJson] != [])
               && (s.supervisor.snapshot[ResultJson] == [] ==> e.reason == SandboxViolation)
  {
    ReachableInvariant(job, f, actions);
    var s := Execute(job, actions).value;
    var run, snapshot := s.runner.run, s.supervisor.snapshot;
    SuccessReportsNone(job, snapshot, false);
    FinalReasonIsNone(job, run);
    ReportsDiffer();
    assert CopiedAt(job, f, run, MeasurementJson, snapshot.Keys, snapshot);
    if snapshot[ResultJson] != [] {
      CopiedReport(job, f, s);
    }
  }

  /** After a capture a snapshot has no report of the exception handler. */
  lemma CopiedReport(job: Job, f: Freedom, s: State)
    requires Inv(job, f, s) && s.supervisor.Accepted? && s.runner.Publishing?
    ensures s.supervisor.snapshot[ResultJson] in {[], ReportOf(job, s.runner.run)}
  {
  }

  /** A timed-out status is either the Supervisor's own deadline, and then the job carries
      no outputs, or the runner's report of its own timeout; and then, when the command
      leaves the published files alone after its end, the outputs are what it published. */
  lemma TimedOutMeans(job: Job, f: Freedom, actions: seq<Action>, killedForMemory: bool)
    requires Lawful(job.codec) && SparesReport(f) && Within(job, f, actions) && Execute(job, actions).Some?
    requires Terminal(Execute(job, actions).value.supervisor)
    ensures SoundSupervisor(job, Execute(job, actions).value.supervisor)
    ensures var s := Execute(job, actions).value;
            var e := Finish(job, s.supervisor, killedForMemory);
            && (s.supervisor.TimedOut? ==> e.outputs == map[] && StatusOf(e) != Succeeded)
            && (StatusOf(e) == StageTimedOut ==>
                  || s.supervisor == TimedOut(true)
                  || (&& s.supervisor.Accepted? && FromRun(s)
                      && s.runner.run.violation == Some(PipeCapture.StageTimeout)
                      && e.outputs == s.supervisor.snapshot - {ResultJson}
                      && (forall n :: Lasts(f, n) ==> SameAt(n, s.supervisor.snapshot, s.files))
                      && (KeepsFiles(job.stage, f, StageTimedOut) ==>
                            CopiesPublication(job, f, s.runner.run, s.supervisor.snapshot))))
  {
    AcceptedIsSound(job, actions);
    var s := Execute(job, actions).value;
    if s.supervisor.Accepted? && StatusOf(Finish(job, s.supervisor, killedForMemory)) == StageTimedOut {
      ReachableInvariant(job, f, actions);
      TimeoutIsReported(job, s.supervisor.snapshot, killedForMemory);
      ReportsDiffer();
      ReportOrigin(job, f, s);
      FinalReasonIsNone(job, s.runner.run);
      SnapshotIsFinal(job, f, actions);
      if KeepsFiles(job.stage, f, StageTimedOut) { CopiedFiles(job, f, s); }
    }
  }

  /** The reason of an accepted report that the runner finished, by what the run was. */
  ghost predicate ReasonOfRun(job: Job, run: Run, r: Reason) {
    && (r == StageTimeout <==> run.violation == Some(PipeCapture.StageTimeout))
    && (r == SandboxViolation <==> run.violation == Some(PipeCapture.SandboxViolation))
    && (r == GpuOom <==> Fails(run) && run.outOfMemory)
    && (r == CompileFailed <==> job.stage == Compile && Fails(run) && !run.outOfMemory)
    && (r == CorrectnessFailed <==> job.stage == Correctness && Fails(run) && !run.outOfMemory)
    && (r == EventsFailed <==>
          job.stage == Events && ((Fails(run) && !run.outOfMemory) || Garbles(job, run)))
    && (r == NoReason <==> run.violation.None? && run.returncode == 0 && !Garbles(job, run))
  }

  lemma ReportedIsReason(job: Job, run: Run, text: string)
    requires ReportsReason(job, run, text)
    ensures ReasonOfRun(job, run, ReasonFromRunner(text, job.stage))
  {
    hide ReasonFromRunner;
    var r := match run.violation
      case Some(StageTimeout) => StageTimeout
      case Some(SandboxViolation) => SandboxViolation
      case None =>
        if Fails(run) && run.outOfMemory then GpuOom
        else if Fails(run) || Garbles(job, run) then StageReason(job.stage)
        else NoReason;
    assert text == CodeText(r);
    ReasonsComeBack(r, "", job.stage);
  }

  /** When the command never writes result.json and leaves a measurement alone after its end,
      a Supervisor that accepted a finished report of a capture ends the job with the reason
      of that run: which violation it was, out of memory, the failure of its stage, or none. */
  lemma FailureMeans(job: Job, f: Freedom, actions: seq<Action>)
    requires Lawful(job.codec) && SparesReport(f) && (job.stage == Events ==> Lasts(f, MeasurementJson))
    requires Within(job, f, actions) && Execute(job, actions).Some?
    requires Execute(job, actions).value.supervisor.Accepted? && Execute(job, actions).value.runner.Publishing?
    ensures var s := Execute(job, actions).value;
            && ResultJson in s.supervisor.snapshot
            && (s.supervisor.snapshot[ResultJson] != [] ==>
                  ReasonOfRun(job, s.runner.run, Finish(job, s.supervisor, false).reason))
            && (s.supervisor.snapshot[ResultJson] == [] ==>
                  Finish(job, s.supervisor, false).reason == SandboxViolation)
  {
    ReachableInvariant(job, f, actions);
    var s := Execute(job, actions).value;
    var run, snapshot := s.runner.run, s.supervisor.snapshot;
    FinalReasonIsReported(job, run);
    ReportedIsReason(job, run, FinalReason(job, run));
    assert CopiedAt(job, f, run, MeasurementJson, snapshot.Keys, snapshot);
    if snapshot[ResultJson] != [] {
      CopiedReport(job, f, s);
      FinishedReason(job, run, snapshot);
    }
  }

  lemma FinishedReason(job: Job, run: Run, snapshot: Files)
    requires Lawful(job.codec) && ResultJson in snapshot && snapshot[ResultJson] == ReportOf(job, run)
    requires PublishesMeasurement(job, run) ==>
               && MeasurementJson in snapshot
               && snapshot[MeasurementJson] == job.codec.render(MeasurementOf(job, run).value)
    requires ReasonOfRun(job, run, ReasonFromRunner(FinalReason(job, run), job.stage))
    ensures Finish(job, Accepted(snapshot), false).reason == ReasonFromRunner(FinalReason(job, run), job.stage)
  {
  }

  lemma TimeoutIsReported(job: Job, snapshot: Files, killedForMemory: bool)
    requires ResultJson in snapshot
    requires StatusOf(Finish(job, Accepted(snapshot), killedForMemory)) == StageTimedOut
    ensures job.codec.parse(snapshot[ResultJson]) == Some(Report("stage_timeout"))
    ensures Finish(job, Accepted(snapshot), killedForMemory).outputs == snapshot - {ResultJson}
  {
    var j := job.codec.parse(snapshot[ResultJson]);
    EmptyIsNotNone();
    if j.Some? { ReasonIsNoneOnlyForNone(if j.value.Report? then j.value.reason else "", job.stage); }
  }

  /** The reader accepts what a run publishes exactly when the files that may grow after
      the capture, and the executable, are still within their limits. */
  lemma PublishedIsAdmissibleWhen(job: Job, run: Run, files: Files)
    requires Published(job, run, files)
    requires forall n :: n in files ==> n in OutputNames(job.stage)
    requires |run.stdout| <= job.policy.stdoutBytes && |run.stderr| <= job.policy.stderrBytes
    requires |files[ResultJson]| <= 64 * 1024
    ensures Admissible(files, job.stage, job.policy) <==>
            && |files[StderrLog]| <= job.policy.stderrBytes
            && (MeasurementJson in files ==> |files[MeasurementJson]| <= job.policy.stdoutBytes)
            && (Candidate in files ==> |files[Candidate]| <= job.policy.executableBytes)
  {
    assert StderrLog in OutputNames(job.stage);
  }
}
