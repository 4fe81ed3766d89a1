/** What each side of the hand-off can always still do. */
module HandoffProgress {
  // The runner can finish its writes or report an exception; the Supervisor can export what
  // is there, poll again, and end.

  import opened Sequences
  import opened OutputEntries
  import opened SandboxHandoff

  /** The state after more actions. */
  function After(job: Job, s: State, actions: seq<Action>): Option<State>
    decreases |actions|
  {
    if actions == [] then Some(s)
    else
      match Step(job, s, actions[0])
      case None => None
      case Some(next) => After(job, next, actions[1..])
  }

  lemma {:induction false} AfterConcat(job: Job, s: State, a: seq<Action>, b: seq<Action>)
    ensures After(job, s, a + b)
            == match After(job, s, a) case None => None case Some(next) => After(job, next, b)
    decreases |a|
  {
    if a == [] {
      assert a + b == b;
    } else {
      assert (a + b)[0] == a[0] && (a + b)[1..] == a[1..] + b;
      match Step(job, s, a[0])
      case None =>
      case Some(next) => AfterConcat(job, next, a[1..], b);
    }
  }

  lemma OneMore(job: Job, s: State, a: Action)
    ensures After(job, s, [a]) == Step(job, s, a)
  {
    assert [a][1..] == [];
  }

  /** A continuation of a run is a run. */
  lemma {:induction false} ExecuteContinues(job: Job, before: seq<Action>, more: seq<Action>)
    requires Execute(job, before).Some?
    ensures Execute(job, before + more) == After(job, Execute(job, before).value, more)
    decreases |more|
  {
    if more == [] {
      assert before + more == before;
    } else {
      var n := |more| - 1;
      var init, last := more[..n], more[n];
      ExecuteContinues(job, before, init);
      assert more == init + [last];
      assert before + more == (before + init) + [last];
      assert ((before + init) + [last])[..|before + init|] == before + init;
      AfterConcat(job, Execute(job, before).value, init, [last]);
      match After(job, Execute(job, before).value, init)
      case None =>
      case Some(next) => OneMore(job, next, last);
    }
  }

  // ----- the order of the Supervisor's steps ------------------------------------------------

  predicate WithinExport(a: Action) { a.CopyFile? || a.SkipFile? }
  predicate EndsExport(a: Action) { a.ExportFails? || a.EndExport? }
  predicate BySupervisor(a: Action) {
    a.BeginExport? || WithinExport(a) || EndsExport(a) || a.Inspect? || a.DeadlinePasses?
  }

  /** The last step of the Supervisor began an export or copied a file of one. */
  predicate ExportIsOpen(actions: seq<Action>)
  {
    actions != []
    && var last := actions[|actions| - 1];
       last.BeginExport? || ((WithinExport(last) || !BySupervisor(last)) && ExportIsOpen(actions[..|actions| - 1]))
  }

  /** In every run the steps of an export follow its beginning, a new export or the deadline
      does not come within one, and the container is inspected only after one. */
  lemma {:induction false} ExportsAreInTurn(job: Job, actions: seq<Action>)
    requires Execute(job, actions).Some?
    ensures Execute(job, actions).value.supervisor.Exporting? <==> ExportIsOpen(actions)
    ensures actions != [] ==>
      var last, before := actions[|actions| - 1], actions[..|actions| - 1];
      && (WithinExport(last) || EndsExport(last) ==> ExportIsOpen(before))
      && (last.BeginExport? || last.Inspect? || last.DeadlinePasses? ==> !ExportIsOpen(before))
  {
    hide Script, HandlerScript, Admissible, Apply;
    if actions != [] { ExportsAreInTurn(job, actions[..|actions| - 1]); }
  }

  // ----- the runner -----------------------------------------------------------------------

  function Writes(n: nat): (r: seq<Action>)
    ensures |r| == n
  {
    if n == 0 then [] else [RunnerWrites] + Writes(n - 1)
  }

  /** Undisturbed, the runner carries out all its writes after a capture. */
  lemma {:induction false} PublicationCompletes(job: Job, s: State, run: Run, ops: seq<Op>)
    requires s.runner == Publishing(run, ops)
    ensures After(job, s, Writes(|ops|)) == Some(s.(files := ApplyAll(ops, s.files), runner := Publishing(run, [])))
    decreases |ops|
  {
    if ops != [] {
      var next := Step(job, s, RunnerWrites).value;
      PublicationCompletes(job, next, run, ops[1..]);
      assert Writes(|ops|)[1..] == Writes(|ops[1..]|);
    }
  }

  /** And those of its exception handler. */
  lemma {:induction false} HandlerCompletes(job: Job, s: State, ops: seq<Op>)
    requires s.runner == Handling(ops)
    ensures After(job, s, Writes(|ops|)) == Some(s.(files := ApplyAll(ops, s.files), runner := Handling([])))
    decreases |ops|
  {
    if ops != [] {
      var next := Step(job, s, RunnerWrites).value;
      HandlerCompletes(job, next, ops[1..]);
      assert Writes(|ops|)[1..] == Writes(|ops[1..]|);
    }
  }

  /** Wherever a command ends, the runner can leave what that run has to leave. */
  lemma EndedRunIsPublished(job: Job, s: State, run: Run)
    requires s.runner.Command?
    ensures exists n: nat ::
              var after := After(job, s, [CommandEnds(run)] + Writes(n));
              && after.Some? && after.value.supervisor == s.supervisor
              && after.value.runner == Publishing(run, []) && LeavesFiles(job, run, s.files, after.value.files)
  {
    hide Script, LeavesFiles, ApplyAll;
    var ops := Script(job, run);
    var next := Step(job, s, CommandEnds(run)).value;
    PublicationCompletes(job, next, run, ops);
    ScriptPublishes(job, run, s.files);
    assert ([CommandEnds(run)] + Writes(|ops|))[1..] == Writes(|ops|);
    assert After(job, s, [CommandEnds(run)] + Writes(|ops|)) == After(job, next, Writes(|ops|));
  }

  /** What the handler leaves: an empty output log, the message and the report of a
      violation, and nothing else changed. */
  ghost predicate ReportsException(job: Job, message: Bytes, before: Files, after: Files) {
    && StdoutLog in after && after[StdoutLog] == []
    && StderrLog in after && after[StderrLog] == message
    && ResultJson in after && after[ResultJson] == job.codec.render(Report("sandbox_violation"))
    && SameAt(MeasurementJson, after, before) && SameAt(Candidate, after, before)
  }

  lemma HandlerReports(job: Job, message: Bytes, files: Files)
    ensures ReportsException(job, message, files, ApplyAll(HandlerScript(job, message), files))
  {
    hide ApplyAll;
    var out, err, report := Write(StdoutLog, []), Write(StderrLog, message), Write(ResultJson, ViolationReport(job));
    assert HandlerScript(job, message) == out + err + report;
    ApplyConcat(out + err, report, files);
    ApplyConcat(out, err, files);
    ApplyWrite(StdoutLog, [], files);
    ApplyWrite(StderrLog, message, files[StdoutLog := []]);
    ApplyWrite(ResultJson, ViolationReport(job), files[StdoutLog := []][StderrLog := message]);
  }

  /** An exception can be reported wherever the runner has not finished. */
  lemma ExceptionIsReported(job: Job, s: State, message: Bytes)
    requires s.runner.Command? || (s.runner.Publishing? && s.runner.ops != [])
    ensures exists n: nat ::
              var after := After(job, s, [RunnerRaises(message)] + Writes(n));
              && after.Some? && after.value.supervisor == s.supervisor
              && ReportsException(job, message, s.files, after.value.files)
  {
    hide HandlerScript, ApplyAll, ReportsException;
    var ops := HandlerScript(job, message);
    var next := Step(job, s, RunnerRaises(message)).value;
    HandlerCompletes(job, next, ops);
    HandlerReports(job, message, s.files);
    assert ([RunnerRaises(message)] + Writes(|ops|))[1..] == Writes(|ops|);
    assert After(job, s, [RunnerRaises(message)] + Writes(|ops|)) == After(job, next, Writes(|ops|));
  }

  // ----- the Supervisor -----------------------------------------------------------------------

  function Copies(names: seq<OutputName>): (r: seq<Action>)
    ensures |r| == |names|
  {
    seq(|names|, i requires 0 <= i < |names| => CopyFile(names[i]))
  }

  ghost predicate Distinct(names: seq<OutputName>) {
    forall i, j :: 0 <= i < j < |names| ==> names[i] != names[j]
  }

  function Taken(copied: Files, files: Files, names: seq<OutputName>): Files
    requires forall i :: 0 <= i < |names| ==> names[i] in files
    decreases |names|
  {
    if names == [] then copied else Taken(copied[names[0] := files[names[0]]], files, names[1..])
  }

  function Left(pending: set<OutputName>, names: seq<OutputName>): set<OutputName>
    decreases |names|
  {
    if names == [] then pending else Left(pending - {names[0]}, names[1..])
  }

  lemma {:induction false} TakenHas(copied: Files, files: Files, names: seq<OutputName>, n: OutputName)
    requires forall i :: 0 <= i < |names| ==> names[i] in files
    requires n in copied ==> n in files && copied[n] == files[n]
    ensures n in Taken(copied, files, names) <==> n in copied || n in names
    ensures n in Taken(copied, files, names) ==> n in files && Taken(copied, files, names)[n] == files[n]
    decreases |names|
  {
    if names != [] { TakenHas(copied[names[0] := files[names[0]]], files, names[1..], n); }
  }

  lemma {:induction false} LeftHas(pending: set<OutputName>, names: seq<OutputName>, n: OutputName)
    ensures n in Left(pending, names) <==> n in pending && n !in names
    decreases |names|
  {
    if names != [] { LeftHas(pending - {names[0]}, names[1..], n); }
  }

  lemma AllTaken(files: Files, names: seq<OutputName>)
    requires files.Keys == set i | 0 <= i < |names| :: names[i]
    ensures forall i :: 0 <= i < |names| ==> names[i] in files
    ensures Taken(map[], files, names) == files && Left(files.Keys, names) == {}
  {
    forall i | 0 <= i < |names| ensures names[i] in files { assert names[i] in files.Keys; }
    forall n
      ensures n in Taken(map[], files, names) <==> n in files
      ensures n in Taken(map[], files, names) ==> Taken(map[], files, names)[n] == files[n]
      ensures n !in Left(files.Keys, names)
    {
      TakenHas(map[], files, names, n);
      LeftHas(files.Keys, names, n);
      assert n in files <==> n in files.Keys;
    }
  }

  lemma {:induction false} CopiesComplete(job: Job, s: State, names: seq<OutputName>)
    requires s.supervisor.Exporting? && Distinct(names)
    requires forall i :: 0 <= i < |names| ==> names[i] in s.supervisor.pending && names[i] in s.files
    ensures After(job, s, Copies(names))
            == Some(s.(supervisor := Exporting(Left(s.supervisor.pending, names),
                                               Taken(s.supervisor.copied, s.files, names))))
    decreases |names|
  {
    if names != [] {
      var n, rest := names[0], names[1..];
      var next := Step(job, s, CopyFile(n)).value;
      assert forall i :: 0 <= i < |rest| ==> rest[i] == names[i + 1];
      CopiesComplete(job, next, rest);
      assert Copies(names)[0] == CopyFile(n) && Copies(names)[1..] == Copies(rest);
    }
  }

  /** An undisturbed export, in any order, ends with what is there: accepted exactly when it
      is admissible and has the report. */
  lemma ExportTakesWhatIsThere(job: Job, s: State, names: seq<OutputName>)
    requires s.supervisor.Polling? && Distinct(names)
    requires s.files.Keys == set i | 0 <= i < |names| :: names[i]
    ensures After(job, s, [BeginExport] + Copies(names) + [EndExport])
            == Some(s.(supervisor := if Admissible(s.files, job.stage, job.policy) && ResultJson in s.files
                                     then Accepted(s.files) else Inspecting))
  {
    hide After, Admissible, Copies;
    var started := s.(supervisor := Exporting(s.files.Keys, map[]));
    var copied := s.(supervisor := Exporting({}, s.files));
    AllTaken(s.files, names);
    CopiesComplete(job, started, names);
    OneMore(job, s, BeginExport);
    OneMore(job, copied, EndExport);
    AfterConcat(job, s, [BeginExport], Copies(names));
    AfterConcat(job, s, [BeginExport] + Copies(names), [EndExport]);
  }

  /** A poll whose export fails leads back to polling while the container runs, and otherwise
      out of the loop. */
  lemma FailedPoll(job: Job, s: State, running: bool)
    requires s.supervisor.Polling?
    ensures After(job, s, [BeginExport, ExportFails, Inspect(running)])
            == Some(s.(supervisor := if running then Polling else Exited))
  {
    var a := s.(supervisor := Exporting(s.files.Keys, map[]));
    var b := s.(supervisor := Inspecting);
    var actions := [BeginExport, ExportFails, Inspect(running)];
    assert actions[1..] == [ExportFails, Inspect(running)] && actions[1..][1..] == [Inspect(running)];
    OneMore(job, b, Inspect(running));
    assert After(job, b, [Inspect(running)]) == Step(job, b, Inspect(running));
    assert After(job, a, [ExportFails, Inspect(running)]) == After(job, b, [Inspect(running)]);
  }

  function Rounds(n: nat): seq<Action> {
    if n == 0 then [] else [BeginExport, ExportFails, Inspect(true)] + Rounds(n - 1)
  }

  /** After any number of such polls the deadline can pass, and then the job ends without
      outputs, as a timeout when the GPU recovers and as a failed recovery otherwise. */
  lemma {:induction false} DeadlineAfterRounds(job: Job, s: State, n: nat, recovered: bool)
    requires s.supervisor.Polling?
    ensures After(job, s, Rounds(n) + [DeadlinePasses(recovered)]) == Some(s.(supervisor := TimedOut(recovered)))
    ensures Finish(job, TimedOut(recovered), false)
            == Execution(if recovered then StageTimeout else GpuRecoveryFailed, map[], None)
  {
    if n == 0 {
      assert Rounds(0) + [DeadlinePasses(recovered)] == [DeadlinePasses(recovered)];
      OneMore(job, s, DeadlinePasses(recovered));
    } else {
      var round := [BeginExport, ExportFails, Inspect(true)];
      var rest := Rounds(n - 1) + [DeadlinePasses(recovered)];
      assert Rounds(n) + [DeadlinePasses(recovered)] == round + rest;
      FailedPoll(job, s, true);
      assert s.(supervisor := Polling) == s;
      AfterConcat(job, s, round, rest);
      DeadlineAfterRounds(job, s, n - 1, recovered);
    }
  }

  /** No run gets stuck: from wherever the Supervisor is, it can still end. */
  lemma EveryRunCanEnd(job: Job, actions: seq<Action>)
    requires Execute(job, actions).Some?
    ensures exists more :: Execute(job, actions + more).Some?
                           && Terminal(Execute(job, actions + more).value.supervisor)
  {
    var s := Execute(job, actions).value;
    var more := CanEnd(job, s);
    ExecuteContinues(job, actions, more);
  }

  lemma CanEnd(job: Job, s: State) returns (more: seq<Action>)
    ensures After(job, s, more).Some? && Terminal(After(job, s, more).value.supervisor)
  {
    if s.supervisor.Polling? {
      more := [DeadlinePasses(true)];
      OneMore(job, s, more[0]);
    } else if s.supervisor.Exporting? {
      more := [ExportFails, Inspect(false)];
      assert more[1..] == [Inspect(false)];
      OneMore(job, s.(supervisor := Inspecting), more[1]);
    } else if s.supervisor.Inspecting? {
      more := [Inspect(false)];
      OneMore(job, s, more[0]);
    } else {
      more := [];
    }
  }
}
