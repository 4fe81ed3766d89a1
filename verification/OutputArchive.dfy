/** The Supervisor's reader of a sandbox output archive.  An archive is the list of its
    members; the tar encoding itself is not modelled. */
module OutputArchive {
  import opened Sequences
  import opened PosixPaths
  import opened OutputEntries

  datatype Member = Member(name: string, kind: Kind, content: Bytes)

  /** The parts of a member name without a leading "out". */
  function Reduced(name: string): seq<string> {
    var parts := Parts(Parse(name));
    if parts != [] && parts[0] == "out" then parts[1..] else parts
  }

  /** The normal form of reduced parts whose first part may be a root. */
  function Normal(parts: seq<string>): string {
    if parts != [] && parts[0] in {"/", "//"} then parts[0] + Join(parts[1..]) else Join(parts)
  }

  function NameOf(text: string): Option<OutputName> {
    if text == Text(StdoutLog) then Some(StdoutLog)
    else if text == Text(StderrLog) then Some(StderrLog)
    else if text == Text(ResultJson) then Some(ResultJson)
    else if text == Text(MeasurementJson) then Some(MeasurementJson)
    else if text == Text(Candidate) then Some(Candidate)
    else None
  }

  /** The approved output that a member name denotes; `None` for an unapproved path. */
  function Approved(name: string, stage: Stage): Option<OutputName> {
    var parts := Reduced(name);
    var n := NameOf(Normal(parts));
    if Parse(name).root != "" || ".." in parts || n.None? || n.value !in OutputNames(stage)
    then None else n
  }

  function Interpret(m: Member, stage: Stage): Entry {
    if Reduced(m.name) == [] then Ignored
    else
      match Approved(m.name, stage)
      case None => Unapproved
      case Some(n) => Stored(n, m.kind, m.content)
  }

  function InterpretFor(stage: Stage): Member -> Entry { m => Interpret(m, stage) }

  function Entries(members: seq<Member>, stage: Stage): (e: seq<Entry>) {
    Map(InterpretFor(stage), members)
  }

  datatype ReadResult = Read(outputs: map<OutputName, Bytes>) | Rejected(error: ReadError)

  /** `_read_output_archive`.  It accepts exactly the acceptable archives; a rejection
      reports the fault of the first member that has one. */
  method ReadOutputArchive(members: seq<Member>, stage: Stage, policy: Policy) returns (r: ReadResult)
    ensures r.Read? <==> Acceptable(Entries(members, stage), policy)
    ensures r.Read? ==> Holds(r.outputs, Entries(members, stage))
    ensures r.Rejected? ==> exists i, read ::
      && 0 <= i < |members| && Acceptable(Entries(members, stage)[..i], policy)
      && Holds(read, Entries(members, stage)[..i])
      && Fault(Entries(members, stage)[i], policy, read.Keys) == Some(r.error)
  {
    hide Interpret, Fault;
    var outputs: map<OutputName, Bytes> := map[];
    ghost var entries := Entries(members, stage);
    for k := 0 to |members|
      invariant Acceptable(entries[..k], policy)
      invariant Holds(outputs, entries[..k])
    {
      var entry := Interpret(members[k], stage);
      assert entries[..k + 1] == entries[..k] + [entry];
      var fault := Fault(entry, policy, outputs.Keys);
      if fault.Some? {
        FaultIsFatal(entries, k, policy, outputs);
        return Rejected(fault.value);
      }
      Extend(outputs, entries[..k], entry, policy);
      if entry.Stored? {
        outputs := outputs[entry.name := entry.content];
      }
    }
    assert entries[..|members|] == entries;
    r := Read(outputs);
  }

  /** An entry approved for a stage carries a name of that stage. */
  lemma StoredIsOfStage(m: Member, stage: Stage)
    ensures Interpret(m, stage).Stored? ==> Interpret(m, stage).name in OutputNames(stage)
  {
  }

  lemma AcceptedIsAdmissible(
    members: seq<Member>, stage: Stage, policy: Policy, outputs: map<OutputName, Bytes>)
    requires Acceptable(Entries(members, stage), policy) && Holds(outputs, Entries(members, stage))
    ensures Admissible(outputs, stage, policy)
  {
    hide Interpret, OutputNames, Limit;
    var entries := Entries(members, stage);
    forall n | n in outputs ensures n in OutputNames(stage) && |outputs[n]| <= Limit(policy, n) {
      var i :| 0 <= i < |entries| && Carries(entries[i], n, outputs[n]);
      StoredIsOfStage(members[i], stage);
      assert Sound(entries[i], policy) && entries[i] == Interpret(members[i], stage);
    }
  }

  /** Reordering an archive changes neither whether it is accepted nor what is read, and
      what is read is within the limits of the stage. */
  method ReadReordered(a: seq<Member>, b: seq<Member>, stage: Stage, policy: Policy)
    returns (x: ReadResult, y: ReadResult)
    requires multiset(a) == multiset(b)
    ensures x.Read? <==> y.Read?
    ensures x.Read? ==> x.outputs == y.outputs && Admissible(x.outputs, stage, policy)
    ensures x.Read? <==> Acceptable(Entries(a, stage), policy)
  {
    x := ReadOutputArchive(a, stage, policy);
    y := ReadOutputArchive(b, stage, policy);
    MapPermutes(InterpretFor(stage), a, b);
    if x.Read? {
      AcceptableInAnyOrder(Entries(a, stage), Entries(b, stage), policy);
      HoldsInAnyOrder(Entries(a, stage), Entries(b, stage), x.outputs, y.outputs);
      AcceptedIsAdmissible(a, stage, policy, x.outputs);
    }
    if y.Read? {
      AcceptableInAnyOrder(Entries(b, stage), Entries(a, stage), policy);
    }
  }

  // ----- the archive of an output directory ------------------------------------------

  lemma NamesAreDistinct(n: OutputName)
    ensures NameOf(Text(n)) == Some(n)
    ensures Plain(Text(n)) && Text(n) != "out" && Text(n) != ".." && Text(n)[0] != '/'
  {
    assert Text(StdoutLog)[3] == 'o' && Text(StderrLog)[3] == 'e';
    assert |Text(ResultJson)| == 11 && |Text(MeasurementJson)| == 16 && |Text(Candidate)| == 9;
  }

  lemma NameOfIsText(text: string, n: OutputName)
    ensures NameOf(text) == Some(n) <==> text == Text(n)
  {
    hide Text;
    NamesAreDistinct(n);
  }

  /** A member is approved exactly for a relative path that is the name of an output of the
      stage, or that name in the directory `out`. */
  lemma ApprovedExactlyWhen(name: string, stage: Stage, n: OutputName)
    ensures Approved(name, stage) == Some(n) <==>
      && n in OutputNames(stage) && (name == "" || name[0] != '/')
      && (Components(name, []) == [Text(n)] || Components(name, []) == ["out", Text(n)])
  {
    hide Components, Text, OutputNames, NameOf, Normal, Reduced, Plain;
    NamesAreDistinct(n);
    if Root(name) == "" {
      var reduced := ReducedName(name, Text(n));
      NormalOfPlain(reduced, Text(n));
      NameOfIsText(Normal(reduced), n);
    }
  }

  lemma ReducedName(name: string, text: string) returns (reduced: seq<string>)
    requires Root(name) == "" && text != "out" && text != ".."
    ensures reduced == Reduced(name) && (reduced == [text] ==> ".." !in reduced)
    ensures forall i :: 0 <= i < |reduced| ==> Plain(reduced[i])
    ensures reduced == [text] <==> Components(name, []) == [text] || Components(name, []) == ["out", text]
  {
    hide Components, Plain;
    var c := Components(name, []);
    ComponentsArePlain(name, []);
    assert Parts(Parse(name)) == c;
    reduced := Reduced(name);
    assert c == ["out", text] ==> reduced == [text];
    assert c != [] && c[0] == "out" && reduced == [text] ==> c == ["out"] + reduced;
  }

  /** What a member is: ignored exactly for the relative paths of no component and of `out`
      alone, stored with its kind and content under an approved name, and unapproved
      otherwise. */
  lemma InterpretExactlyWhen(m: Member, stage: Stage)
    ensures Interpret(m, stage).Ignored? <==>
            (m.name == "" || m.name[0] != '/') && (Components(m.name, []) == [] || Components(m.name, []) == ["out"])
    ensures Interpret(m, stage).Stored? ==>
            && Interpret(m, stage).kind == m.kind && Interpret(m, stage).content == m.content
            && Approved(m.name, stage) == Some(Interpret(m, stage).name)
    ensures Interpret(m, stage).Unapproved? ==> Approved(m.name, stage).None?
  {
    hide Components;
    var c := Components(m.name, []);
    if Root(m.name) == "" {
      assert Parts(Parse(m.name)) == c;
      assert c != [] && c[0] == "out" && Reduced(m.name) == [] ==> c == ["out"] + Reduced(m.name);
    }
  }

  lemma NormalOfPlain(parts: seq<string>, text: string)
    requires (forall i :: 0 <= i < |parts| ==> Plain(parts[i])) && Plain(text)
    ensures Normal(parts) == text <==> parts == [text]
  {
    hide Components;
    assert "/"[0] == '/' && "//"[0] == '/';
    assert parts != [] ==> Plain(parts[0]);
    assert Normal(parts) == Join(parts);
    ComponentsOfJoin(parts);
    ComponentsOfPlain(text, []);
    assert [] + text == text;
  }

  /** The member that the export command writes for a file of the output directory. */
  function FileMember(n: OutputName, content: Bytes): Member {
    Member("out/" + Text(n), RegularFile, content)
  }

  lemma ComponentsOfOutput(text: string)
    requires Plain(text)
    ensures Parse("out/" + text).root == "" && Parts(Parse("out/" + text)) == ["out", text]
  {
    hide Components;
    var name := "out/" + text;
    assert name == "out" + "/" + text && name[0] == 'o';
    ComponentsAfterSlash("out", text, []);
    ComponentsOfPlain("out", []);
    ComponentsOfPlain(text, []);
    assert [] + "out" == "out" && [] + text == text;
  }

  lemma FileMemberEntry(n: OutputName, content: Bytes, stage: Stage)
    ensures Interpret(FileMember(n, content), stage) ==
            if n in OutputNames(stage) then Stored(n, RegularFile, content) else Unapproved
  {
    hide Components, Parse, Text, OutputNames;
    NamesAreDistinct(n);
    var name := "out/" + Text(n);
    ComponentsOfOutput(Text(n));
    assert Reduced(name) == [Text(n)];
    assert Text(n) != "/" && Text(n) != "//" by {
      assert "/"[0] == '/' && "//"[0] == '/';
    }
  }

  lemma OutDirectoryIsIgnored(stage: Stage)
    ensures Interpret(Member("out", Directory, []), stage) == Ignored
    ensures Interpret(Member("out/", Directory, []), stage) == Ignored
  {
    ComponentsOfPlain("out", []);
    ComponentsAfterSlash("out", [], []);
    assert [] + "out" == "out" && "out" + "/" + [] == "out/";
    assert "out/"[0] == 'o' && "out"[0] == 'o';
  }

  /** The archive lists the directory itself and then the files, each once. */
  ghost predicate Exports(members: seq<Member>, order: seq<OutputName>, files: map<OutputName, Bytes>) {
    && (forall n :: n in files <==> n in order)
    && (forall i, j :: 0 <= i < j < |order| ==> order[i] != order[j])
    && |members| == |order| + 1
    && members[0] == Member("out", Directory, [])
    && (forall i :: 0 <= i < |order| ==> members[i + 1] == FileMember(order[i], files[order[i]]))
  }

  function ExportEntry(n: OutputName, content: Bytes, stage: Stage): Entry {
    if n in OutputNames(stage) then Stored(n, RegularFile, content) else Unapproved
  }

  lemma ExportEntries(
    members: seq<Member>, order: seq<OutputName>, files: map<OutputName, Bytes>, stage: Stage)
    requires Exports(members, order, files)
    ensures Entries(members, stage)[0] == Ignored
    ensures forall i :: 0 <= i < |order| ==>
              Entries(members, stage)[i + 1] == ExportEntry(order[i], files[order[i]], stage)
  {
    hide Interpret, FileMember, Text;
    OutDirectoryIsIgnored(stage);
    forall i | 0 <= i < |order|
      ensures Entries(members, stage)[i + 1] == ExportEntry(order[i], files[order[i]], stage)
    {
      FileMemberEntry(order[i], files[order[i]], stage);
    }
  }

  /** The reader accepts an exported output directory exactly when its files are
      admissible for the stage, and then returns those files. */
  method ReadExport(
    members: seq<Member>, ghost order: seq<OutputName>, ghost files: map<OutputName, Bytes>,
    stage: Stage, policy: Policy)
    returns (r: ReadResult)
    requires Exports(members, order, files)
    ensures r.Read? <==> Admissible(files, stage, policy)
    ensures r.Read? ==> r.outputs == files
  {
    r := ReadOutputArchive(members, stage, policy);
    ExportEntries(members, order, files, stage);
    EntriesOfFiles(Entries(members, stage), order, files, stage, policy);
    if r.Read? {
      HoldsFiles(Entries(members, stage), order, files, stage, r.outputs);
    }
  }

  lemma EntriesOfFiles(
    entries: seq<Entry>, order: seq<OutputName>, files: map<OutputName, Bytes>, stage: Stage, policy: Policy)
    requires |entries| == |order| + 1 && entries[0] == Ignored
    requires forall n :: n in files <==> n in order
    requires forall i, j :: 0 <= i < j < |order| ==> order[i] != order[j]
    requires forall i :: 0 <= i < |order| ==>
               entries[i + 1] == ExportEntry(order[i], files[order[i]], stage)
    ensures Acceptable(entries, policy) <==> Admissible(files, stage, policy)
  {
    if Admissible(files, stage, policy) {
      forall i | 0 <= i < |entries| ensures Sound(entries[i], policy) {
        if i > 0 { assert entries[i] == ExportEntry(order[i - 1], files[order[i - 1]], stage); }
      }
      forall i, j | 0 <= i < j < |entries| && entries[i].Stored? && entries[j].Stored?
        ensures entries[i].name != entries[j].name
      {
        assert entries[i] == ExportEntry(order[i - 1], files[order[i - 1]], stage);
        assert entries[j] == ExportEntry(order[j - 1], files[order[j - 1]], stage);
      }
    } else {
      var n :| n in files && !(n in OutputNames(stage) && |files[n]| <= Limit(policy, n));
      var i :| 0 <= i < |order| && order[i] == n;
      assert !Sound(entries[i + 1], policy);
    }
  }

  lemma HoldsFiles(
    entries: seq<Entry>, order: seq<OutputName>, files: map<OutputName, Bytes>, stage: Stage,
    outputs: map<OutputName, Bytes>)
    requires |entries| == |order| + 1 && entries[0] == Ignored && Holds(outputs, entries)
    requires forall n :: n in files <==> n in order
    requires forall i :: 0 <= i < |order| ==>
               entries[i + 1] == ExportEntry(order[i], files[order[i]], stage)
    requires forall n :: n in files ==> n in OutputNames(stage)
    ensures outputs == files
  {
    forall n | n in files ensures n in outputs && outputs[n] == files[n] {
      var i :| 0 <= i < |order| && order[i] == n;
      assert entries[i + 1].Stored?;
    }
    forall n | n in outputs ensures n in files {
      var i :| 0 <= i < |entries| && Carries(entries[i], n, outputs[n]);
      assert entries[i] == ExportEntry(order[i - 1], files[order[i - 1]], stage);
    }
  }
}
