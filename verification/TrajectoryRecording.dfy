/** Concurrent recording of finished trajectories. */
module TrajectoryRecording {
  // The replay buffer, the trajectory counter under one lock and the policy cycle under
  // another.
  //
  // A task appends its trajectory, then counts it while holding the trajectory lock, then,
  // if an update is due, enters the policy lock, counts the iteration and runs one policy
  // cycle.  These are the points at which tasks may interleave.

  import opened Sequences
  import opened Rollouts

  datatype Progress =
    | Arrived      // nothing recorded yet
    | Buffered     // the trajectory is in the buffer
    | UpdateDue    // told that an update is due, not yet counted
    | InCycle      // holds the policy lock
    | Recorded

  datatype Action =
    | Arrive(task: nat) | AddToBuffer(task: nat) | Count(task: nat) | EnterCycle(task: nat) | LeaveCycle(task: nat)

  datatype Shared = Shared(buffer: seq<nat>, total: nat, iterations: nat)

  /** `tasks` and `added` describe the run: where each task stands, and the trajectories
      that were added, in order.  A trajectory is named by the task that produced it. */
  datatype State = State(shared: Shared, tasks: map<nat, Progress>, added: seq<nat>)

  const START := State(Shared([], 0, 0), map[], [])

  datatype Settings = Settings(updateFrequency: int, maxSize: int)

  function Pushed(buffer: seq<nat>, t: nat, maxSize: int): seq<nat> {
    var longer := buffer + [t];
    if |longer| > maxSize then longer[1..] else longer
  }

  predicate At(s: State, task: nat, p: Progress) { task in s.tasks && s.tasks[task] == p }

  predicate LockFree(s: State) { forall t :: t in s.tasks ==> s.tasks[t] != InCycle }

  predicate Due(f: int, total: nat) { f > 0 && total % f == 0 }

  predicate Enabled(s: State, a: Action) {
    match a
    case Arrive(t) => t !in s.tasks
    case AddToBuffer(t) => At(s, t, Arrived)
    case Count(t) => At(s, t, Buffered)
    case EnterCycle(t) => At(s, t, UpdateDue) && LockFree(s)
    case LeaveCycle(t) => At(s, t, InCycle)
  }

  function Step(c: Settings, s: State, a: Action): State
    requires Enabled(s, a)
  {
    match a
    case Arrive(t) => s.(tasks := s.tasks[t := Arrived])
    case AddToBuffer(t) =>
      s.(shared := s.shared.(buffer := Pushed(s.shared.buffer, t, c.maxSize)),
         tasks := s.tasks[t := Buffered], added := s.added + [t])
    case Count(t) =>
      var total := s.shared.total + 1;
      s.(shared := s.shared.(total := total),
         tasks := s.tasks[t := if Due(c.updateFrequency, total) then UpdateDue else Recorded])
    case EnterCycle(t) =>
      s.(shared := s.shared.(iterations := s.shared.iterations + 1), tasks := s.tasks[t := InCycle])
    case LeaveCycle(t) => s.(tasks := s.tasks[t := Recorded])
  }

  /** The state after an interleaving of the tasks' actions; `None` when an action was not
      possible at its turn. */
  function Execute(c: Settings, actions: seq<Action>): Option<State>
  {
    if actions == [] then Some(START) else
      var a := actions[|actions| - 1];
      match Execute(c, actions[..|actions| - 1])
      case None => None
      case Some(s) => if Enabled(s, a) then Some(Step(c, s, a)) else None
  }

  // ----- the agent -----------------------------------------------------------------------

  /** The fields that `_record_completed_trajectory` updates.  Each method is one stretch
      of that routine without interruption; the ghost state is the run around it. */
  class RecordingAgent {
    const settings: Settings
    var buffer: seq<nat>
    var totalTrajectories: nat
    var iterationCount: nat
    ghost var tasks: map<nat, Progress>
    ghost var added: seq<nat>

    ghost function Now(): State
      reads this
    {
      State(Shared(buffer, totalTrajectories, iterationCount), tasks, added)
    }

    constructor (settings: Settings)
      ensures Now() == START && this.settings == settings
    {
      this.settings := settings;
      buffer, totalTrajectories, iterationCount := [], 0, 0;
      tasks, added := map[], [];
    }

    method AddTrajectory(t: nat)
      requires Enabled(Now(), AddToBuffer(t))
      modifies this
      ensures Now() == Step(settings, old(Now()), AddToBuffer(t))
    {
      buffer := buffer + [t];
      if |buffer| > settings.maxSize {
        buffer := buffer[1..];
      }
      tasks, added := tasks[t := Buffered], added + [t];
    }

    /** The stretch under the trajectory lock. */
    method CountTrajectory(ghost t: nat) returns (updateDue: bool)
      requires Enabled(Now(), Count(t))
      modifies this
      ensures Now() == Step(settings, old(Now()), Count(t))
      ensures updateDue <==> At(Now(), t, UpdateDue)
    {
      totalTrajectories := totalTrajectories + 1;
      updateDue := settings.updateFrequency > 0 && totalTrajectories % settings.updateFrequency == 0;
      tasks := tasks[t := if updateDue then UpdateDue else Recorded];
    }

    /** The stretch after acquiring the policy lock. */
    method EnterPolicyCycle(ghost t: nat)
      requires Enabled(Now(), EnterCycle(t))
      modifies this
      ensures Now() == Step(settings, old(Now()), EnterCycle(t))
    {
      iterationCount := iterationCount + 1;
      tasks := tasks[t := InCycle];
    }
  }

  // ----- the invariant ---------------------------------------------------------------------

  function TasksAt(s: State, p: Progress): set<nat> {
    set t | t in s.tasks && s.tasks[t] == p
  }

  /** How often the counter has reached a positive multiple of f. */
  function Updates(f: int, total: nat): nat { if f > 0 then total / f else 0 }

  ghost predicate Inv(c: Settings, s: State) {
    && CountsMatch(c, s)
    && (forall t, u :: At(s, t, InCycle) && At(s, u, InCycle) ==> t == u)
    && s.shared.buffer == Last(s.added, if c.maxSize >= 0 then c.maxSize else 0)
  }

  lemma CountingOneMore(f: int, total: nat)
    requires f > 0
    ensures (total + 1) / f == total / f + (if (total + 1) % f == 0 then 1 else 0)
  {
    var q, r := total / f, total % f;
    assert total == q * f + r && 0 <= r < f;
    if r + 1 == f {
      assert total + 1 == (q + 1) * f;
      Quotient(total + 1, f, q + 1, 0);
    } else {
      Quotient(total + 1, f, q, r + 1);
    }
  }

  lemma Quotient(n: nat, f: int, q: nat, r: nat)
    requires f > 0 && n == q * f + r && r < f
    ensures n / f == q && n % f == r
  {
    SmallMultiple(q - n / f, f, n % f - r);
  }

  lemma SmallMultiple(a: int, f: int, d: int)
    requires f > 0 && a * f == d && -f < d < f
    ensures a == 0
  {
    assert a >= 1 ==> (a - 1) * f >= 0;
    assert a <= -1 ==> (-a - 1) * f >= 0;
  }

  lemma Moved(s: State, s': State, t: nat, p: Progress, q: Progress)
    requires s'.tasks == s.tasks[t := q] && p != q
    ensures TasksAt(s', q) == TasksAt(s, q) + {t}
    ensures TasksAt(s', p) == TasksAt(s, p) - {t}
  {
  }

  /** A move between other places does not matter. */
  lemma NotMoved(s: State, s': State, t: nat, p: Progress, q: Progress)
    requires s'.tasks == s.tasks[t := q] && p != q && !At(s, t, p)
    ensures TasksAt(s', p) == TasksAt(s, p)
  {
  }

  ghost predicate CountsMatch(c: Settings, s: State) {
    && s.shared.iterations + |TasksAt(s, UpdateDue)| == Updates(c.updateFrequency, s.shared.total)
    && s.shared.total + |TasksAt(s, Buffered)| == |s.added|
  }

  lemma CountingKeepsCounts(c: Settings, s: State, t: nat)
    requires CountsMatch(c, s) && At(s, t, Buffered)
    ensures CountsMatch(c, Step(c, s, Count(t)))
  {
    var s' := Step(c, s, Count(t));
    if Due(c.updateFrequency, s.shared.total + 1) {
      Moved(s, s', t, Buffered, UpdateDue);
    } else {
      Moved(s, s', t, Buffered, Recorded);
      NotMoved(s, s', t, UpdateDue, Recorded);
    }
    if c.updateFrequency > 0 { CountingOneMore(c.updateFrequency, s.shared.total); }
  }

  lemma CountsKept(c: Settings, s: State, a: Action)
    requires CountsMatch(c, s) && Enabled(s, a)
    ensures CountsMatch(c, Step(c, s, a))
  {
    var s' := Step(c, s, a);
    match a
    case Arrive(t) =>
      NotMoved(s, s', t, UpdateDue, Arrived);
      NotMoved(s, s', t, Buffered, Arrived);
    case AddToBuffer(t) =>
      NotMoved(s, s', t, UpdateDue, Buffered);
      Moved(s, s', t, Arrived, Buffered);
    case Count(t) => CountingKeepsCounts(c, s, t);
    case EnterCycle(t) =>
      NotMoved(s, s', t, Buffered, InCycle);
      Moved(s, s', t, UpdateDue, InCycle);
    case LeaveCycle(t) =>
      NotMoved(s, s', t, UpdateDue, Recorded);
      NotMoved(s, s', t, Buffered, Recorded);
  }

  lemma PushKeepsLast(added: seq<nat>, t: nat, maxSize: int)
    ensures var n := if maxSize >= 0 then maxSize else 0;
            Pushed(Last(added, n), t, maxSize) == Last(added + [t], n)
  {
  }

  lemma StepKeepsInvariant(c: Settings, s: State, a: Action)
    requires Inv(c, s) && Enabled(s, a)
    ensures Inv(c, Step(c, s, a))
  {
    CountsKept(c, s, a);
    PushKeepsLast(s.added, a.task, c.maxSize);
    var s' := Step(c, s, a);
    forall t, u | At(s', t, InCycle) && At(s', u, InCycle) ensures t == u {
      if a.EnterCycle? {
        assert forall v :: !At(s, v, InCycle);
      } else {
        assert At(s, t, InCycle) && At(s, u, InCycle);
      }
    }
  }

  /** Under every interleaving: the iterations plus the updates that are due but not yet
      counted are the multiples reached by the counter, at most one policy cycle runs, and
      the buffer holds the last additions. */
  lemma {:induction false} EveryInterleaving(c: Settings, actions: seq<Action>)
    requires Execute(c, actions).Some?
    ensures var s := Execute(c, actions).value;
            && s.shared.iterations + |TasksAt(s, UpdateDue)| == Updates(c.updateFrequency, s.shared.total)
            && s.shared.total + |TasksAt(s, Buffered)| == |s.added|
            && (forall t, u :: At(s, t, InCycle) && At(s, u, InCycle) ==> t == u)
            && s.shared.buffer == Last(s.added, if c.maxSize >= 0 then c.maxSize else 0)
  {
    if actions != [] {
      var n := |actions| - 1;
      EveryInterleaving(c, actions[..n]);
      StepKeepsInvariant(c, Execute(c, actions[..n]).value, actions[n]);
    }
  }

  // ----- the state as an account of the run -------------------------------------------------

  /** The tasks that appended their trajectories, in order. */
  function AddedBy(actions: seq<Action>): seq<nat> {
    if actions == [] then []
    else
      var last := actions[|actions| - 1];
      AddedBy(actions[..|actions| - 1]) + if last.AddToBuffer? then [last.task] else []
  }

  /** How far a task has come, and how far an action brings its task. */
  function Distance(p: Progress): nat {
    match p
    case Arrived => 0
    case Buffered => 1
    case UpdateDue => 2
    case InCycle => 3
    case Recorded => 4
  }

  function Reaches(a: Action): nat {
    match a
    case Arrive(_) => 0
    case AddToBuffer(_) => 1
    case Count(_) => 2
    case EnterCycle(_) => 3
    case LeaveCycle(_) => 4
  }

  predicate IsDone(s: State, a: Action) { a.task in s.tasks && Distance(s.tasks[a.task]) >= Reaches(a) }

  /** A possible action is not done yet; then it is, and nothing done is undone. */
  lemma StepIsDone(c: Settings, s: State, a: Action)
    requires Enabled(s, a)
    ensures !IsDone(s, a) && IsDone(Step(c, s, a), a)
    ensures forall b :: IsDone(s, b) ==> IsDone(Step(c, s, a), b)
  {
  }

  /** How often a run raised the counter, and how often the iterations. */
  ghost function Counted(actions: seq<Action>): nat { |set i | 0 <= i < |actions| && actions[i].Count?| }
  ghost function Entered(actions: seq<Action>): nat { |set i | 0 <= i < |actions| && actions[i].EnterCycle?| }

  lemma CountedSnoc(actions: seq<Action>, a: Action)
    ensures Counted(actions + [a]) == Counted(actions) + if a.Count? then 1 else 0
  {
    var more := actions + [a];
    assert (set i | 0 <= i < |more| && more[i].Count?)
        == (set i | 0 <= i < |actions| && actions[i].Count?) + if a.Count? then {|actions|} else {};
  }

  lemma EnteredSnoc(actions: seq<Action>, a: Action)
    ensures Entered(actions + [a]) == Entered(actions) + if a.EnterCycle? then 1 else 0
  {
    var more := actions + [a];
    assert (set i | 0 <= i < |more| && more[i].EnterCycle?)
        == (set i | 0 <= i < |actions| && actions[i].EnterCycle?) + if a.EnterCycle? then {|actions|} else {};
  }

  /** The state accounts for the actions of the run: what was appended, and how often the
      counter and the iterations were raised. */
  lemma {:induction false} RunIsAccounted(c: Settings, actions: seq<Action>)
    requires Execute(c, actions).Some?
    ensures var s := Execute(c, actions).value;
            && s.added == AddedBy(actions)
            && s.shared.total == Counted(actions) && s.shared.iterations == Entered(actions)
  {
    hide Counted, Entered, Enabled;
    if actions != [] {
      var n := |actions| - 1;
      RunIsAccounted(c, actions[..n]);
      CountedSnoc(actions[..n], actions[n]);
      EnteredSnoc(actions[..n], actions[n]);
      assert actions == actions[..n] + [actions[n]];
    } else {
      NothingIsCounted();
    }
  }

  lemma NothingIsCounted()
    ensures Counted([]) == 0 && Entered([]) == 0
  {
  }

  /** No action of a run is done twice. */
  lemma {:induction false} NothingIsDoneTwice(c: Settings, actions: seq<Action>)
    requires Execute(c, actions).Some?
    ensures forall i :: 0 <= i < |actions| ==> IsDone(Execute(c, actions).value, actions[i])
    ensures forall i, j :: 0 <= i < j < |actions| ==> actions[i] != actions[j]
  {
    hide IsDone, Enabled, Step;
    if actions != [] {
      var n := |actions| - 1;
      NothingIsDoneTwice(c, actions[..n]);
      StepIsDone(c, Execute(c, actions[..n]).value, actions[n]);
      assert forall i :: 0 <= i < n ==> actions[i] == actions[..n][i];
    }
  }

  /** When every task that arrived has finished, no update was lost or counted twice. */
  lemma QuietRunCountsEveryUpdate(c: Settings, actions: seq<Action>, s: State)
    requires Execute(c, actions) == Some(s)
    requires forall t :: t in s.tasks ==> s.tasks[t] == Recorded
    ensures s.added == AddedBy(actions) && s.shared.total == |s.added|
    ensures s.shared.iterations == Updates(c.updateFrequency, |AddedBy(actions)|)
    ensures Entered(actions) == Updates(c.updateFrequency, Counted(actions))
  {
    EveryInterleaving(c, actions);
    RunIsAccounted(c, actions);
    assert TasksAt(s, UpdateDue) == {} && TasksAt(s, Buffered) == {};
  }
}
