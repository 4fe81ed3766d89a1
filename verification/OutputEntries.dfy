/** The outputs of a sandbox stage and the archive entries that carry them, once member
    names have been interpreted. */
module OutputEntries {
  import opened Sequences

  datatype Kind = RegularFile | Directory | SymbolicLink | HardLink | Device

  datatype Stage = Compile | Correctness | Events

  datatype OutputName = StdoutLog | StderrLog | ResultJson | MeasurementJson | Candidate

  function Text(n: OutputName): string {
    match n
    case StdoutLog => "stdout.log"
    case StderrLog => "stderr.log"
    case ResultJson => "result.json"
    case MeasurementJson => "measurement.json"
    case Candidate => "candidate"
  }

  function OutputNames(stage: Stage): set<OutputName> {
    {StdoutLog, StderrLog, ResultJson}
    + (if stage == Compile then {Candidate} else {})
    + (if stage == Events then {MeasurementJson} else {})
  }

  datatype Policy = Policy(stdoutBytes: nat, stderrBytes: nat, executableBytes: nat)

  function Limit(policy: Policy, n: OutputName): nat {
    match n
    case StdoutLog => policy.stdoutBytes
    case StderrLog => policy.stderrBytes
    case ResultJson => 64 * 1024
    case MeasurementJson => policy.stdoutBytes
    case Candidate => policy.executableBytes
  }

  /** A member of an output archive: the output directory itself, a path that is not
      approved for the stage, or something stored under an approved name. */
  datatype Entry = Ignored | Unapproved | Stored(name: OutputName, kind: Kind, content: Bytes)

  datatype ReadError = UnapprovedPath | NotARegularFile | DuplicateOrOversize

  /** What is wrong with an entry when these names were read before it. */
  function Fault(e: Entry, policy: Policy, read: set<OutputName>): Option<ReadError> {
    match e
    case Ignored => None
    case Unapproved => Some(UnapprovedPath)
    case Stored(n, kind, content) =>
      if kind != RegularFile then Some(NotARegularFile)
      else if n in read || |content| > Limit(policy, n) then Some(DuplicateOrOversize)
      else None
  }

  predicate Sound(e: Entry, policy: Policy) {
    e.Ignored? || (e.Stored? && e.kind == RegularFile && |e.content| <= Limit(policy, e.name))
  }

  /** Everything but the directory is an approved regular file of admissible size, and
      no two files have the same name. */
  ghost predicate Acceptable(entries: seq<Entry>, policy: Policy) {
    && (forall i :: 0 <= i < |entries| ==> Sound(entries[i], policy))
    && (forall i, j :: 0 <= i < j < |entries| && entries[i].Stored? && entries[j].Stored? ==>
          entries[i].name != entries[j].name)
  }

  predicate Carries(e: Entry, n: OutputName, content: Bytes) {
    e.Stored? && e.name == n && e.content == content
  }

  /** The map holds exactly the stored entries. */
  ghost predicate Holds(outputs: map<OutputName, Bytes>, entries: seq<Entry>) {
    && (forall n :: n in outputs ==>
          exists i :: 0 <= i < |entries| && Carries(entries[i], n, outputs[n]))
    && (forall i :: 0 <= i < |entries| && entries[i].Stored? ==>
          entries[i].name in outputs && outputs[entries[i].name] == entries[i].content)
  }

  lemma FaultIsFatal(entries: seq<Entry>, k: nat, policy: Policy, outputs: map<OutputName, Bytes>)
    requires k < |entries| && Holds(outputs, entries[..k])
    requires Fault(entries[k], policy, outputs.Keys).Some?
    ensures !Acceptable(entries, policy)
  {
    var e := entries[k];
    if e.Stored? && e.name in outputs {
      var i :| 0 <= i < k && Carries(entries[..k][i], e.name, outputs[e.name]);
      assert entries[i] == entries[..k][i];
    }
  }

  /** An entry without fault has a name that none of the entries before it has. */
  lemma NewName(outputs: map<OutputName, Bytes>, entries: seq<Entry>, e: Entry, policy: Policy, i: nat)
    requires Holds(outputs, entries) && i < |entries| && entries[i].Stored? && e.Stored?
    requires Fault(e, policy, outputs.Keys).None?
    ensures entries[i].name != e.name
  {
  }

  lemma AcceptableSnoc(outputs: map<OutputName, Bytes>, entries: seq<Entry>, e: Entry, policy: Policy)
    requires Acceptable(entries, policy) && Holds(outputs, entries)
    requires Fault(e, policy, outputs.Keys).None?
    ensures Acceptable(entries + [e], policy)
  {
    var more := entries + [e];
    forall i, j | 0 <= i < j < |more| && more[i].Stored? && more[j].Stored? ensures more[i].name != more[j].name {
      if j == |entries| { NewName(outputs, entries, e, policy, i); }
    }
  }

  lemma HoldsSnoc(outputs: map<OutputName, Bytes>, entries: seq<Entry>, e: Entry, policy: Policy)
    requires Holds(outputs, entries) && e.Stored?
    requires Fault(e, policy, outputs.Keys).None?
    ensures Holds(outputs[e.name := e.content], entries + [e])
  {
    var larger, more := outputs[e.name := e.content], entries + [e];
    forall n | n in larger ensures exists i :: 0 <= i < |more| && Carries(more[i], n, larger[n]) {
      if n == e.name {
        assert Carries(more[|entries|], n, larger[n]);
      } else {
        var i :| 0 <= i < |entries| && Carries(entries[i], n, outputs[n]);
        assert Carries(more[i], n, larger[n]);
      }
    }
    forall i | 0 <= i < |more| && more[i].Stored?
      ensures more[i].name in larger && larger[more[i].name] == more[i].content
    {
      if i < |entries| { NewName(outputs, entries, e, policy, i); }
    }
  }

  lemma HoldsIgnored(outputs: map<OutputName, Bytes>, entries: seq<Entry>, e: Entry)
    requires Holds(outputs, entries) && !e.Stored?
    ensures Holds(outputs, entries + [e])
  {
    var more := entries + [e];
    forall n | n in outputs ensures exists i :: 0 <= i < |more| && Carries(more[i], n, outputs[n]) {
      var i :| 0 <= i < |entries| && Carries(entries[i], n, outputs[n]);
      assert Carries(more[i], n, outputs[n]);
    }
  }

  lemma Extend(outputs: map<OutputName, Bytes>, entries: seq<Entry>, e: Entry, policy: Policy)
    requires Acceptable(entries, policy) && Holds(outputs, entries)
    requires Fault(e, policy, outputs.Keys).None?
    ensures Acceptable(entries + [e], policy)
    ensures Holds(if e.Stored? then outputs[e.name := e.content] else outputs, entries + [e])
  {
    AcceptableSnoc(outputs, entries, e, policy);
    if e.Stored? { HoldsSnoc(outputs, entries, e, policy); } else { HoldsIgnored(outputs, entries, e); }
  }

  lemma AcceptableInAnyOrder(a: seq<Entry>, b: seq<Entry>, policy: Policy)
    requires multiset(a) == multiset(b) && Acceptable(a, policy)
    ensures Acceptable(b, policy)
  {
    forall i | 0 <= i < |b| ensures Sound(b[i], policy) {
      assert b[i] in multiset(a);
    }
    forall i, j | 0 <= i < j < |b| && b[i].Stored? && b[j].Stored? ensures b[i].name != b[j].name {
      var i', j' := PairInPermutation(b, a, i, j);
    }
  }

  lemma HoldsInAnyOrder(
    a: seq<Entry>, b: seq<Entry>, x: map<OutputName, Bytes>, y: map<OutputName, Bytes>)
    requires multiset(a) == multiset(b) && Holds(x, a) && Holds(y, b)
    ensures x == y
  {
    forall n | n in x ensures n in y && x[n] == y[n] {
      var i :| 0 <= i < |a| && Carries(a[i], n, x[n]);
      assert a[i] in multiset(b);
    }
    forall n | n in y ensures n in x {
      var i :| 0 <= i < |b| && Carries(b[i], n, y[n]);
      assert b[i] in multiset(a);
    }
  }

  predicate Admissible(outputs: map<OutputName, Bytes>, stage: Stage, policy: Policy) {
    && (forall n :: n in outputs ==> n in OutputNames(stage))
    && (forall n :: n in outputs ==> |outputs[n]| <= Limit(policy, n))
  }

  /** Which outputs a stage may have, and how large they may be. */
  predicate MayHold(stage: Stage, policy: Policy, n: OutputName, content: Bytes) {
    match n
    case StdoutLog => |content| <= policy.stdoutBytes
    case StderrLog => |content| <= policy.stderrBytes
    case ResultJson => |content| <= 65536
    case MeasurementJson => stage == Events && |content| <= policy.stdoutBytes
    case Candidate => stage == Compile && |content| <= policy.executableBytes
  }

  lemma MayHoldWhenApproved(stage: Stage, policy: Policy, n: OutputName, content: Bytes)
    ensures MayHold(stage, policy, n, content) <==> n in OutputNames(stage) && |content| <= Limit(policy, n)
  {
  }

  lemma AdmissibleExactlyWhen(outputs: map<OutputName, Bytes>, stage: Stage, policy: Policy)
    ensures Admissible(outputs, stage, policy) <==>
            forall n :: n in outputs ==> MayHold(stage, policy, n, outputs[n])
  {
    hide MayHold, OutputNames, Limit;
    forall n | n in outputs
      ensures MayHold(stage, policy, n, outputs[n]) <==> n in OutputNames(stage) && |outputs[n]| <= Limit(policy, n)
    {
      MayHoldWhenApproved(stage, policy, n, outputs[n]);
    }
  }

  function Size(outputs: map<OutputName, Bytes>, n: OutputName): nat {
    if n in outputs then |outputs[n]| else 0
  }

  function TotalSize(outputs: map<OutputName, Bytes>): nat {
    Size(outputs, StdoutLog) + Size(outputs, StderrLog) + Size(outputs, ResultJson)
    + Size(outputs, MeasurementJson) + Size(outputs, Candidate)
  }

  lemma AdmissibleSizeIsBounded(outputs: map<OutputName, Bytes>, stage: Stage, policy: Policy)
    requires Admissible(outputs, stage, policy)
    ensures TotalSize(outputs) <= 64 * 1024 + policy.stdoutBytes + policy.stderrBytes +
              (match stage case Compile => policy.executableBytes
                           case Correctness => 0
                           case Events => policy.stdoutBytes)
  {
  }
}
