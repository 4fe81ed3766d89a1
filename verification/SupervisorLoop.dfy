/** The Supervisor's poll loop over one job container, from the start of the container to
    the execution result. */
module SupervisorLoop {
  // A poll is what one pass of the loop observes: the exported archive, unless the export
  // failed, and the container state, unless it could not be read.  The deadline passes
  // when the polls are used up.

  import opened Sequences
  import opened OutputEntries
  import opened OutputArchive
  import opened SandboxHandoff

  datatype ContainerState = Unknown | Known(running: bool, killedForMemory: bool)

  datatype Poll = Poll(archive: Option<seq<Member>>, state: ContainerState)

  /** The export of this poll is accepted and has the report. */
  ghost predicate DeliversResult(job: Job, p: Poll) {
    && p.archive.Some?
    && var entries := Entries(p.archive.value, job.stage);
       && Acceptable(entries, job.policy)
       && exists i :: 0 <= i < |entries| && entries[i].Stored? && entries[i].name == ResultJson
  }

  predicate Stopped(p: Poll) { p.state.Known? && !p.state.running }

  /** The loop ends with this poll. */
  ghost predicate Decisive(job: Job, p: Poll) { DeliversResult(job, p) || Stopped(p) }

  /** The state that the loop holds when poll k delivers the result: the one of the poll
      before it. */
  function StateBefore(polls: seq<Poll>, k: nat): ContainerState
    requires k <= |polls|
  {
    if k == 0 then Unknown else polls[k - 1].state
  }

  predicate KilledForMemory(s: ContainerState) { s.Known? && s.killedForMemory }

  function OrReload(s: ContainerState, reloaded: ContainerState): ContainerState {
    if s.Unknown? then reloaded else s
  }

  /** Reads one export; `None` when it fails, is rejected or has no report. */
  method ReadExported(job: Job, archive: Option<seq<Member>>) returns (r: Option<Files>)
    ensures r.Some? <==> DeliversResult(job, Poll(archive, Unknown))
    ensures r.Some? ==> ResultJson in r.value && Holds(r.value, Entries(archive.value, job.stage))
    ensures r.Some? ==> Admissible(r.value, job.stage, job.policy)
  {
    if archive.None? { return None; }
    var read := ReadOutputArchive(archive.value, job.stage, job.policy);
    if !read.Read? { return None; }
    ghost var entries := Entries(archive.value, job.stage);
    ReportIsHeld(read.outputs, entries);
    AcceptedIsAdmissible(archive.value, job.stage, job.policy, read.outputs);
    if ResultJson in read.outputs { return Some(read.outputs); }
    r := None;
  }

  lemma ReportIsHeld(outputs: Files, entries: seq<Entry>)
    requires Holds(outputs, entries)
    ensures ResultJson in outputs
            <==> exists i :: 0 <= i < |entries| && entries[i].Stored? && entries[i].name == ResultJson
  {
    if ResultJson in outputs {
      var i :| 0 <= i < |entries| && Carries(entries[i], ResultJson, outputs[ResultJson]);
    }
  }

  /** The loop of `execute`. */
  method PollUntilDecided(job: Job, polls: seq<Poll>)
    returns (used: nat, outputs: Option<Files>, state: ContainerState)
    ensures used <= |polls|
    ensures forall k :: 0 <= k < used ==> !Decisive(job, polls[k])
    ensures used < |polls| ==> Decisive(job, polls[used])
    ensures outputs.Some? <==> used < |polls| && DeliversResult(job, polls[used])
    ensures outputs.Some? ==>
      && ResultJson in outputs.value && Admissible(outputs.value, job.stage, job.policy)
      && Holds(outputs.value, Entries(polls[used].archive.value, job.stage))
      && state == StateBefore(polls, used)
    ensures outputs.None? && used < |polls| ==> state == polls[used].state
  {
    used, outputs, state := 0, None, Unknown;
    while used < |polls|
      invariant used <= |polls| && outputs.None? && state == StateBefore(polls, used)
      invariant forall k :: 0 <= k < used ==> !Decisive(job, polls[k])
    {
      var poll := polls[used];
      outputs := ReadExported(job, poll.archive);
      assert outputs.Some? <==> DeliversResult(job, poll);
      if outputs.Some? { return; }
      state := poll.state;
      if state.Known? && !state.running { return; }
      used := used + 1;
    }
  }

  /** The container was killed, as far as the loop knows when poll k delivers the result: by
      the state of the poll before it, or when there is none, by the one read then. */
  predicate KnownKilled(polls: seq<Poll>, k: nat, reloaded: ContainerState)
    requires k <= |polls|
  {
    if k > 0 && polls[k - 1].state.Known? then polls[k - 1].state.killedForMemory
    else reloaded.Known? && reloaded.killedForMemory
  }

  predicate ReportsNone(job: Job, outputs: Files) {
    ResultJson in outputs && job.codec.parse(outputs[ResultJson]) == Some(Report("none"))
  }

  /** `execute` after the container has started.  It reports success only for an accepted
      export whose report says none; running out of polls is a timeout without outputs, and
      a container that stops without a report ran out of memory or broke the rules. */
  method ExecuteJob(job: Job, polls: seq<Poll>, recovered: bool, reloaded: ContainerState)
    returns (e: Execution, used: nat)
    ensures used <= |polls|
    ensures forall k :: 0 <= k < used ==> !Decisive(job, polls[k])
    ensures used == |polls| ==> e == Finish(job, TimedOut(recovered), false)
    ensures used < |polls| && DeliversResult(job, polls[used]) ==>
      exists outputs: Files ::
        && Holds(outputs, Entries(polls[used].archive.value, job.stage)) && ResultJson in outputs
        && e == Finish(job, Accepted(outputs), KilledForMemory(OrReload(StateBefore(polls, used), reloaded)))
    ensures used < |polls| && !DeliversResult(job, polls[used]) ==>
      Stopped(polls[used]) && e == Finish(job, Exited, KilledForMemory(polls[used].state))
    ensures StatusOf(e) == Succeeded ==>
      && used < |polls| && DeliversResult(job, polls[used])
      && (exists outputs: Files ::
            Holds(outputs, Entries(polls[used].archive.value, job.stage)) && ReportsNone(job, outputs))
      && (job.stage == Events ==> e.measurement.Some? && IsObject(e.measurement.value))
    ensures used == |polls| ==> e.outputs == map[] && StatusOf(e) != Succeeded
    ensures used == |polls| ==>
      e.measurement.None? && e.reason == if recovered then StageTimeout else GpuRecoveryFailed
    ensures used < |polls| && !DeliversResult(job, polls[used]) ==>
      && e.outputs == map[] && e.measurement.None? && polls[used].state.Known?
      && e.reason == if polls[used].state.killedForMemory then GpuOom else SandboxViolation
    ensures used < |polls| && DeliversResult(job, polls[used]) ==>
      exists outputs: Files ::
        && Holds(outputs, Entries(polls[used].archive.value, job.stage)) && ResultJson in outputs
        && if KnownKilled(polls, used, reloaded)
           then e.reason == GpuOom && e.outputs == outputs && e.measurement.None?
           else Lawful(job.codec) ==> Concludes(job, outputs, e)
  {
    hide Concludes, Admissible, Holds;
    var outputs, state;
    used, outputs, state := PollUntilDecided(job, polls);
    if used == |polls| {
      return Execution(if recovered then StageTimeout else GpuRecoveryFailed, map[], None), used;
    }
    state := OrReload(state, reloaded);
    if outputs.None? {
      return Execution(if KilledForMemory(state) then GpuOom else SandboxViolation, map[], None), used;
    }
    assert Holds(outputs.value, Entries(polls[used].archive.value, job.stage));
    if Lawful(job.codec) { FinishConcludes(job, outputs.value); }
    e := Conclude(job, outputs.value, KilledForMemory(state));
  }

  /** From the copied report to the result. */
  method Conclude(job: Job, snapshot: Files, killedForMemory: bool) returns (e: Execution)
    requires ResultJson in snapshot
    ensures e == Finish(job, Accepted(snapshot), killedForMemory)
    ensures StatusOf(e) == Succeeded ==> ReportsNone(job, snapshot)
    ensures StatusOf(e) == Succeeded && job.stage == Events ==> e.measurement.Some? && IsObject(e.measurement.value)
  {
    ReportedReason(job, snapshot);
    if killedForMemory { return Execution(GpuOom, snapshot, None); }
    var result := job.codec.parse(snapshot[ResultJson]);
    var outputs := snapshot - {ResultJson};
    if result.None? { return Execution(SandboxViolation, outputs, None); }
    if result.value.NotAnObject? { return Execution(SandboxUnavailable, outputs, None); }
    var reason := ReasonFromRunner(if result.value.Report? then result.value.reason else "", job.stage);
    var measurement: Option<Json> := None;
    if reason == NoReason && job.stage == Events {
      var candidate := job.codec.parse(if MeasurementJson in outputs then outputs[MeasurementJson] else []);
      if candidate.Some? && IsObject(candidate.value) {
        measurement := candidate;
      } else {
        reason := EventsFailed;
      }
    }
    e := Execution(reason, outputs, measurement);
  }
}
