/** Synchronizing the generated blocks of the documentation targets with a checkout.

    A check compares the targets, as they are read, with their expected text; a write
    corrects those that differ. */
module DocumentationSync {
  import opened Sequences
  import opened MarkerBlocks

  datatype Target = Target(path: string, marker: string, renderer: string)

  /** The targets of the repository. */
  const TARGETS: seq<Target> := [
    Target("README.md", "PORTFOLIO_STATUS", "root_en"),
    Target("README.zh-CN.md", "PORTFOLIO_STATUS", "root_zh"),
    Target("docs/portfolio/README.md", "PORTFOLIO_PROGRESS", "index_en"),
    Target("docs/portfolio/README.zh-CN.md", "PORTFOLIO_PROGRESS", "index_zh"),
    Target("docs/portfolio/validation.md", "VALIDATION_STATUS", "validation_en"),
    Target("docs/portfolio/validation.zh-CN.md", "VALIDATION_STATUS", "validation_zh"),
    Target("docs/portfolio/architecture.md", "ARCHITECTURE_STATUS", "architecture_en"),
    Target("docs/portfolio/architecture.zh-CN.md", "ARCHITECTURE_STATUS", "architecture_zh"),
    Target("docs/portfolio/rmsnorm-case-study.md", "RMSNORM_STATUS", "rmsnorm_en"),
    Target("docs/portfolio/rmsnorm-case-study.zh-CN.md", "RMSNORM_STATUS", "rmsnorm_zh")
  ]

  /** What is stored under each path. */
  type Files = map<string, string>

  /** `read_text`: every carriage return, with or without a line feed, is read as a line
      feed. */
  function ReadText(raw: string): string {
    if raw == "" then ""
    else if raw[0] == '\r' then
      "\n" + ReadText(if |raw| > 1 && raw[1] == '\n' then raw[2..] else raw[1..])
    else [raw[0]] + ReadText(raw[1..])
  }

  /** The text without the carriage returns that stand before a line feed. */
  function WithoutPairedReturns(raw: string): string {
    if raw == "" then ""
    else
      (if raw[0] == '\r' && |raw| > 1 && raw[1] == '\n' then "" else [raw[0]]) + WithoutPairedReturns(raw[1..])
  }

  function FeedFor(c: char): char { if c == '\r' then '\n' else c }

  /** Reading drops the carriage returns before line feeds and turns the others into line
      feeds, one for one. */
  lemma {:induction false} ReadingMeans(raw: string)
    ensures ReadText(raw) == Map(FeedFor, WithoutPairedReturns(raw))
    decreases |raw|
  {
    if raw != "" {
      var rest := raw[1..];
      if raw[0] == '\r' && |raw| > 1 && raw[1] == '\n' {
        assert rest[0] == '\n' && rest[1..] == raw[2..];
        assert ReadText(raw) == "\n" + ReadText(raw[2..]) == ReadText(rest);
        ReadingMeans(rest);
        assert "" + WithoutPairedReturns(rest) == WithoutPairedReturns(rest);
      } else {
        ReadingMeans(rest);
        MapCons(FeedFor, raw[0], WithoutPairedReturns(rest));
      }
    }
  }

  lemma {:induction false} ReadingDropsReturns(raw: string)
    ensures '\r' !in ReadText(raw)
    decreases |raw|
  {
    if raw != "" {
      if raw[0] == '\r' {
        ReadingDropsReturns(if |raw| > 1 && raw[1] == '\n' then raw[2..] else raw[1..]);
      } else {
        ReadingDropsReturns(raw[1..]);
      }
    }
  }

  lemma {:induction false} ReadingKeepsPlainText(text: string)
    requires '\r' !in text
    ensures ReadText(text) == text
  {
    if text != "" {
      assert text == [text[0]] + text[1..];
      ReadingKeepsPlainText(text[1..]);
    }
  }

  /** What the renderers produce from the evidence; the evidence is not a target. */
  type Renderers = string -> string

  ghost predicate WellFormedTargets(targets: seq<Target>) {
    && (forall i :: 0 <= i < |targets| ==> ProperName(targets[i].marker))
    && (forall i, j :: 0 <= i < j < |targets| ==> targets[i].path != targets[j].path)
  }

  lemma TargetsAreWellFormed()
    ensures WellFormedTargets(TARGETS)
  {
    forall i | 0 <= i < |TARGETS| ensures ProperName(TARGETS[i].marker) {
      ProperMarkers(i);
    }
    forall i, j | 0 <= i < j < |TARGETS| ensures TARGETS[i].path != TARGETS[j].path {
      PathsDiffer(i, j);
    }
  }

  lemma MarkerNames(i: nat)
    requires i < |TARGETS|
    ensures TARGETS[i].marker ==
            if i < 2 then "PORTFOLIO_STATUS" else if i < 4 then "PORTFOLIO_PROGRESS"
            else if i < 6 then "VALIDATION_STATUS" else if i < 8 then "ARCHITECTURE_STATUS"
            else "RMSNORM_STATUS"
  {
  }

  lemma StatusNamesAreProper()
    ensures ProperName("PORTFOLIO_STATUS") && ProperName("PORTFOLIO_PROGRESS")
  {
  }

  lemma OtherNamesAreProper()
    ensures ProperName("VALIDATION_STATUS") && ProperName("ARCHITECTURE_STATUS") && ProperName("RMSNORM_STATUS")
  {
  }

  lemma ProperMarkers(i: nat)
    requires i < |TARGETS|
    ensures ProperName(TARGETS[i].marker)
  {
    MarkerNames(i);
    StatusNamesAreProper();
    OtherNamesAreProper();
  }

  lemma PathsDiffer(i: nat, j: nat)
    requires i < j < |TARGETS|
    ensures TARGETS[i].path != TARGETS[j].path
  {
    var sizes := [9, 15, 24, 30, 28, 34, 30, 36, 36, 42];
    assert forall k :: 0 <= k < 10 ==> |TARGETS[k].path| == sizes[k];
    assert TARGETS[3].path[15] == 'R' && TARGETS[6].path[15] == 'a'
        && TARGETS[7].path[15] == 'a' && TARGETS[8].path[15] == 'r';
  }

  datatype SyncError = MissingTarget(path: string) | BadMarkers(path: string) | Refused | Stale(paths: seq<string>)

  datatype Documents = Documents(expected: Files) | Failed(error: SyncError)

  function Rewritten(files: Files, t: Target, render: Renderers): Option<string> {
    if t.path in files then ReplaceBlock(ReadText(files[t.path]), t.marker, render(t.renderer)) else None
  }

  function RewriteIn(files: Files, render: Renderers): Target -> Option<string> {
    t => Rewritten(files, t, render)
  }

  function PathOf(): Target -> string { (t: Target) => t.path }

  function Paths(targets: seq<Target>): seq<string> { Map(PathOf(), targets) }

  /** The new text of every target, `None` where it is missing or its markers are bad. */
  function Results(files: Files, targets: seq<Target>, render: Renderers): seq<Option<string>> {
    Map(RewriteIn(files, render), targets)
  }

  ghost predicate Distinct(paths: seq<string>) {
    forall i, j :: 0 <= i < j < |paths| ==> paths[i] != paths[j]
  }

  predicate AllSome(results: seq<Option<string>>) {
    forall i :: 0 <= i < |results| ==> results[i].Some?
  }

  /** The map takes each path to its result and has no other path. */
  ghost predicate Collected(expected: Files, paths: seq<string>, results: seq<Option<string>>) {
    && |paths| == |results|
    && (forall i :: 0 <= i < |paths| ==> paths[i] in expected && results[i] == Some(expected[paths[i]]))
    && (forall p :: p in expected ==> p in paths)
  }

  lemma CollectSnoc(expected: Files, paths: seq<string>, results: seq<Option<string>>, p: string, text: string)
    requires Collected(expected, paths, results) && p !in paths
    ensures Collected(expected[p := text], paths + [p], results + [Some(text)])
  {
  }

  lemma CollectedIsUnique(x: Files, y: Files, paths: seq<string>, results: seq<Option<string>>)
    requires Collected(x, paths, results) && Collected(y, paths, results)
    ensures x == y
  {
    forall p | p in x ensures p in y && x[p] == y[p] {
      var i :| 0 <= i < |paths| && paths[i] == p;
      assert results[i] == Some(x[p]) && results[i] == Some(y[p]);
    }
  }

  /** The next target extends the collection. */
  lemma CollectNext(expected: Files, paths: seq<string>, results: seq<Option<string>>, k: nat, text: string)
    requires k < |paths| == |results| && Distinct(paths) && results[k] == Some(text)
    requires Collected(expected, paths[..k], results[..k]) && AllSome(results[..k])
    ensures Collected(expected[paths[k] := text], paths[..k + 1], results[..k + 1]) && AllSome(results[..k + 1])
  {
    TakeSnoc(paths, k);
    TakeSnoc(results, k);
    assert paths[k] !in paths[..k];
    CollectSnoc(expected, paths[..k], results[..k], paths[k], text);
  }

  /** The new text of one document. */
  method ExpectedDocument(files: Files, t: Target, render: Renderers) returns (r: Option<string>, error: SyncError)
    ensures r == Rewritten(files, t, render)
    ensures r.None? ==> error == if t.path in files then BadMarkers(t.path) else MissingTarget(t.path)
  {
    error := BadMarkers(t.path);
    if t.path !in files {
      return None, MissingTarget(t.path);
    }
    var current := ReadText(files[t.path]);
    r := ReplaceBlock(current, t.marker, render(t.renderer));
  }

  method ExpectedDocuments(files: Files, targets: seq<Target>, render: Renderers) returns (r: Documents)
    requires WellFormedTargets(targets)
    ensures r.Documents? <==> AllSome(Results(files, targets, render))
    ensures r.Documents? ==> Collected(r.expected, Paths(targets), Results(files, targets, render))
  {
    var expected: Files := map[];
    ghost var paths, results := Paths(targets), Results(files, targets, render);
    PathsAreDistinct(targets);
    for k := 0 to |targets|
      invariant AllSome(results[..k])
      invariant Collected(expected, paths[..k], results[..k])
    {
      var replaced, error := ExpectedDocument(files, targets[k], render);
      assert results[k] == replaced && paths[k] == targets[k].path;
      if replaced.None? {
        return Failed(error);
      }
      CollectNext(expected, paths, results, k, replaced.value);
      expected := expected[targets[k].path := replaced.value];
    }
    assert paths[..|targets|] == paths && results[..|targets|] == results;
    r := Documents(expected);
  }

  lemma PathsAreDistinct(targets: seq<Target>)
    requires WellFormedTargets(targets)
    ensures Distinct(Paths(targets))
  {
  }

  /** The document, as it is read, differs from the expected one. */
  predicate IsStale(files: Files, expected: Files, p: string) {
    p in files && p in expected && ReadText(files[p]) != expected[p]
  }

  /** The paths whose document differs from the expected one, in order. */
  function Differing(files: Files, expected: Files, paths: seq<string>): seq<string>
  {
    if paths == [] then [] else
      var n := |paths| - 1;
      var p := paths[n];
      var before := Differing(files, expected, paths[..n]);
      if IsStale(files, expected, p) then before + [p] else before
  }

  lemma DifferingSnoc(files: Files, expected: Files, paths: seq<string>, k: nat)
    requires k < |paths|
    ensures Differing(files, expected, paths[..k + 1]) ==
            var before := Differing(files, expected, paths[..k]);
            var p := paths[k];
            if IsStale(files, expected, p) then before + [p] else before
  {
    assert paths[..k + 1][..k] == paths[..k];
  }

  datatype SyncResult = Changed(paths: seq<string>) | Error(error: SyncError)

  /** What a synchronization reports when these are the expected documents. */
  function Verdict(files: Files, expected: Files, paths: seq<string>, valid: bool, write: bool): SyncResult {
    var changed := Differing(files, expected, paths);
    if !valid then Error(Refused)
    else if !write && changed != [] then Error(Stale(changed))
    else Changed(changed)
  }

  /** The files after the stale ones have been written. */
  function Corrected(files: Files, expected: Files): Files {
    map p | p in files :: if IsStale(files, expected, p) then expected[p] else files[p]
  }

  /** The files after the stale ones among these paths have been written. */
  ghost predicate Advanced(files: Files, original: Files, expected: Files, done: seq<string>) {
    && files.Keys == original.Keys
    && forall p :: p in files ==>
         files[p] == if p in done && IsStale(original, expected, p) then expected[p] else original[p]
  }

  lemma AdvanceStep(files: Files, original: Files, expected: Files, done: seq<string>, p: string)
    requires Advanced(files, original, expected, done) && p in expected && p in original && p !in done
    ensures files[p] == original[p]
    ensures IsStale(original, expected, p) ==> Advanced(files[p := expected[p]], original, expected, done + [p])
    ensures !IsStale(original, expected, p) ==> Advanced(files, original, expected, done + [p])
  {
  }

  lemma AdvancedFully(files: Files, original: Files, expected: Files, paths: seq<string>)
    requires Advanced(files, original, expected, paths)
    requires forall p :: p in expected ==> p in paths && p in original
    ensures files == Corrected(original, expected)
  {
  }

  /** A checkout whose target documents the synchronization rewrites.  `valid` is the
      verdict of the link, path and hash validation on the expected documents. */
  class Checkout {
    var files: Files

    constructor (files: Files)
      ensures this.files == files
    {
      this.files := files;
    }

    /** One target: whether it is stale and, in a write, its correction. */
    method CompareTarget(p: string, wanted: Files, write: bool) returns (stale: bool)
      requires p in files && p in wanted
      modifies this
      ensures stale <==> IsStale(old(files), wanted, p)
      ensures files == if write && stale then old(files)[p := wanted[p]] else old(files)
    {
      if ReadText(files[p]) == wanted[p] {
        return false;
      }
      if write {
        files := files[p := wanted[p]];
      }
      stale := true;
    }

    /** The loop over the targets: collects what differs and, in a write, corrects it. */
    method CompareTargets(targets: seq<Target>, wanted: Files, write: bool) returns (changed: seq<string>)
      requires forall i :: 0 <= i < |targets| ==> targets[i].path in files && targets[i].path in wanted
      requires forall p :: p in wanted ==> p in Paths(targets) && p in files
      requires WellFormedTargets(targets)
      modifies this
      ensures changed == Differing(old(files), wanted, Paths(targets))
      ensures files == if write then Corrected(old(files), wanted) else old(files)
    {
      changed := [];
      ghost var original, paths := files, Paths(targets);
      PathsAreDistinct(targets);
      for k := 0 to |targets|
        invariant changed == Differing(original, wanted, paths[..k])
        invariant if write then Advanced(files, original, wanted, paths[..k]) else files == original
      {
        var p := targets[k].path;
        assert paths[k] == p && p !in paths[..k];
        TakeSnoc(paths, k);
        DifferingSnoc(original, wanted, paths, k);
        if write { AdvanceStep(files, original, wanted, paths[..k], p); }
        var stale := CompareTarget(p, wanted, write);
        if stale {
          changed := changed + [p];
        }
      }
      assert paths[..|targets|] == paths;
      if write {
        AdvancedFully(files, original, wanted, paths);
      }
    }

    /** `synchronize`.  A write replaces the targets whose text, as it is read, differs from
        the expected one, and touches no other file; a check reports them and changes
        nothing. */
    method Synchronize(targets: seq<Target>, render: Renderers, valid: Files -> bool, write: bool)
      returns (r: SyncResult, ghost expected: Files)
      requires WellFormedTargets(targets)
      modifies this
      ensures !AllSome(Results(old(files), targets, render)) ==> r.Error? && files == old(files)
      ensures AllSome(Results(old(files), targets, render)) ==>
                && Collected(expected, Paths(targets), Results(old(files), targets, render))
                && r == Verdict(old(files), expected, Paths(targets), valid(expected), write)
                && files == if valid(expected) && write then Corrected(old(files), expected) else old(files)
    {
      var documents := ExpectedDocuments(files, targets, render);
      if documents.Failed? {
        expected := map[];
        return Error(documents.error), expected;
      }
      var wanted := documents.expected;
      expected := wanted;
      if !valid(wanted) {
        return Error(Refused), expected;
      }
      TargetsExist(files, targets, render, wanted);
      var changed := CompareTargets(targets, wanted, write);
      if !write && changed != [] {
        return Error(Stale(changed)), expected;
      }
      r := Changed(changed);
    }
  }

  lemma TargetsExist(files: Files, targets: seq<Target>, render: Renderers, expected: Files)
    requires Collected(expected, Paths(targets), Results(files, targets, render))
    ensures forall i :: 0 <= i < |targets| ==> targets[i].path in files && targets[i].path in expected
    ensures forall p :: p in expected ==> p in Paths(targets) && p in files
  {
    forall i | 0 <= i < |targets| ensures targets[i].path in files && targets[i].path in expected {
      assert Results(files, targets, render)[i] == Rewritten(files, targets[i], render);
      assert Paths(targets)[i] == targets[i].path;
    }
  }

  /** The block survives being read back and has no marker of its own document. */
  ghost predicate CleanBody(body: string, marker: string) {
    FreeOfMarkers(Strip(body), marker) && '\r' !in Strip(body)
  }

  ghost predicate CleanBodies(targets: seq<Target>, render: Renderers) {
    forall i :: 0 <= i < |targets| ==> CleanBody(render(targets[i].renderer), targets[i].marker)
  }

  /** The characters of a replaced document come from it, from the block or are line feeds,
      and the block is in it. */
  lemma ReplacedCharacters(text: string, name: string, body: string, c: char)
    requires ReplaceBlock(text, name, body).Some?
    ensures c in Strip(body) ==> c in ReplaceBlock(text, name, body).value
    ensures c in ReplaceBlock(text, name, body).value ==> c in text || c in Strip(body) || c == '\n'
  {
  }

  /** How a target looks after a write that expected this text for it. */
  ghost predicate WrittenTo(later: Files, files: Files, t: Target, text: string) {
    && t.path in files && t.path in later
    && later[t.path] == if ReadText(files[t.path]) != text then text else files[t.path]
  }

  lemma TargetReadsBack(files: Files, t: Target, render: Renderers, text: string, later: Files)
    requires Rewritten(files, t, render) == Some(text) && WrittenTo(later, files, t, text)
    requires '\r' !in Strip(render(t.renderer))
    ensures ReadText(later[t.path]) == text
  {
    var current := ReadText(files[t.path]);
    ReadingDropsReturns(files[t.path]);
    ReplacedCharacters(current, t.marker, render(t.renderer), '\r');
    ReadingKeepsPlainText(text);
  }

  lemma RewrittenAfterWrite(files: Files, t: Target, render: Renderers, text: string, later: Files)
    requires ProperName(t.marker) && Rewritten(files, t, render) == Some(text) && WrittenTo(later, files, t, text)
    ensures CleanBody(render(t.renderer), t.marker) ==>
              ReadText(later[t.path]) == text && Rewritten(later, t, render) == Some(text)
    ensures !CleanBody(render(t.renderer), t.marker) ==>
              Rewritten(later, t, render) != Some(ReadText(later[t.path]))
  {
    var body := render(t.renderer);
    if '\r' !in Strip(body) {
      TargetReadsBack(files, t, render, text, later);
      UpdateLaws(ReadText(files[t.path]), t.marker, body, body);
    } else {
      ReadingDropsReturns(later[t.path]);
      if Rewritten(later, t, render).Some? {
        ReplacedCharacters(ReadText(later[t.path]), t.marker, body, '\r');
      }
    }
  }

  lemma TargetAfterWrite(expected: Files, files: Files, targets: seq<Target>, render: Renderers, i: nat)
    requires WellFormedTargets(targets) && i < |targets|
    requires Collected(expected, Paths(targets), Results(files, targets, render))
    ensures var later, t := Corrected(files, expected), targets[i];
            && t.path in expected && Results(files, targets, render)[i] == Some(expected[t.path])
            && if CleanBody(render(t.renderer), t.marker)
               then ReadAt(later, t.path) == expected[t.path]
                    && Results(later, targets, render)[i] == Some(expected[t.path])
               else Results(later, targets, render)[i] != Some(ReadAt(later, t.path))
  {
    hide CleanBody, ReadText, ReplaceBlock;
    var later, t := Corrected(files, expected), targets[i];
    TargetsExist(files, targets, render, expected);
    assert Paths(targets)[i] == t.path;
    assert Results(files, targets, render)[i] == Rewritten(files, t, render);
    assert Results(later, targets, render)[i] == Rewritten(later, t, render);
    RewrittenAfterWrite(files, t, render, expected[t.path], later);
  }

  /** After a write the expected documents are the written ones, and nothing is stale,
      exactly when all blocks are clean; otherwise some target is stale or cannot be
      rewritten. */
  lemma ExpectedAfterWrite(expected: Files, files: Files, targets: seq<Target>, render: Renderers)
    requires WellFormedTargets(targets)
    requires Collected(expected, Paths(targets), Results(files, targets, render))
    ensures CleanBodies(targets, render) <==> Settled(Corrected(files, expected), expected, targets, render)
    ensures !CleanBodies(targets, render) ==> Unsettled(Corrected(files, expected), targets, render)
  {
    hide CleanBody, ReadText, Corrected, Rewritten;
    forall i | 0 <= i < |targets|
      ensures var later, t := Corrected(files, expected), targets[i];
              && t.path in expected && Results(files, targets, render)[i] == Some(expected[t.path])
              && if CleanBody(render(t.renderer), t.marker)
                 then ReadAt(later, t.path) == expected[t.path]
                      && Results(later, targets, render)[i] == Some(expected[t.path])
                 else Results(later, targets, render)[i] != Some(ReadAt(later, t.path))
    {
      TargetAfterWrite(expected, files, targets, render, i);
    }
    ExpectedArePaths(expected, targets);
  }

  /** The documents that a check of these files expects are these, and they are there. */
  ghost predicate Settled(files: Files, expected: Files, targets: seq<Target>, render: Renderers) {
    && AllSome(Results(files, targets, render))
    && Collected(expected, Paths(targets), Results(files, targets, render))
    && forall p :: p in expected ==> ReadAt(files, p) == expected[p]
  }

  ghost predicate Unsettled(files: Files, targets: seq<Target>, render: Renderers) {
    exists i :: 0 <= i < |targets| && Results(files, targets, render)[i] != Some(ReadAt(files, targets[i].path))
  }

  function ReadAt(files: Files, p: string): string { if p in files then ReadText(files[p]) else "" }

  lemma ExpectedArePaths(expected: Files, targets: seq<Target>)
    requires forall p :: p in expected ==> p in Paths(targets)
    ensures forall p :: p in expected ==> exists i :: 0 <= i < |targets| && targets[i].path == p
  {
    forall p | p in expected ensures exists i :: 0 <= i < |targets| && targets[i].path == p {
      var i :| 0 <= i < |Paths(targets)| && Paths(targets)[i] == p;
      assert targets[i].path == p;
    }
  }

  lemma {:induction false} NothingDiffers(files: Files, expected: Files, paths: seq<string>)
    requires forall p :: p in expected ==> ReadAt(files, p) == expected[p]
    ensures Differing(files, expected, paths) == []
  {
    if paths != [] { NothingDiffers(files, expected, paths[..|paths| - 1]); }
  }

  lemma {:induction false} SomethingDiffers(files: Files, expected: Files, paths: seq<string>, i: nat)
    requires i < |paths| && IsStale(files, expected, paths[i])
    ensures Differing(files, expected, paths) != []
  {
    var n := |paths| - 1;
    if i < n { SomethingDiffers(files, expected, paths[..n], i); }
  }

  /** A successful write followed by a check of the otherwise unchanged checkout: the
      check passes, with nothing stale, exactly when every generated block is clean: it
      contains no marker of its own document and no carriage return. */
  method WriteThenCheck(checkout: Checkout, targets: seq<Target>, render: Renderers, valid: Files -> bool)
    returns (written: SyncResult, checked: SyncResult)
    requires WellFormedTargets(targets)
    modifies checkout
    ensures written.Changed? ==> (checked.Changed? <==> CleanBodies(targets, render))
    ensures written.Changed? && checked.Changed? ==> checked.paths == []
    ensures written.Changed? <==>
      && AllSome(Results(old(checkout.files), targets, render))
      && exists expected :: valid(expected)
           && Collected(expected, Paths(targets), Results(old(checkout.files), targets, render))
  {
    ghost var before, paths := checkout.files, Paths(targets);
    ghost var expected, expected';
    written, expected := checkout.Synchronize(targets, render, valid, true);
    ghost var after := checkout.files;
    checked, expected' := checkout.Synchronize(targets, render, valid, false);
    if AllSome(Results(before, targets, render)) {
      forall e | Collected(e, paths, Results(before, targets, render)) ensures e == expected {
        CollectedIsUnique(e, expected, paths, Results(before, targets, render));
      }
    }
    if written.Changed? {
      ExpectedAfterWrite(expected, before, targets, render);
      if CleanBodies(targets, render) {
        CollectedIsUnique(expected, expected', paths, Results(after, targets, render));
        NothingDiffers(after, expected, paths);
      } else if AllSome(Results(after, targets, render)) {
        StaleTarget(after, expected', targets, render);
      }
    }
  }

  lemma StaleTarget(files: Files, expected: Files, targets: seq<Target>, render: Renderers)
    requires Collected(expected, Paths(targets), Results(files, targets, render))
    requires Unsettled(files, targets, render)
    ensures Differing(files, expected, Paths(targets)) != []
  {
    var i :| 0 <= i < |targets| && Results(files, targets, render)[i] != Some(ReadAt(files, targets[i].path));
    TargetsExist(files, targets, render, expected);
    assert Paths(targets)[i] == targets[i].path;
    SomethingDiffers(files, expected, Paths(targets), i);
  }

  // ----- blocks that a check finds stale ----------------------------------------------------------

  lemma UncleanBodies()
    ensures !CleanBody("a\rb", "M") && !CleanBody(StartMarker("M"), "M")
  {
    var body, marker := "a\rb", StartMarker("M");
    assert body[0] == 'a' && body[1] == '\r' && body[2] == 'b' && Strip(body) == body;
    assert marker[0] == '<' && marker[|marker| - 1] == '>' && Strip(marker) == marker;
    assert At(marker, marker, 0);
  }

  /** A document with an empty block. */
  const EMPTY_DOCUMENT := StartMarker("M") + EndMarker("M")

  lemma EmptyDocumentIsRewritten(body: string)
    ensures ProperName("M") && ReadText(EMPTY_DOCUMENT) == EMPTY_DOCUMENT
    ensures ReplaceBlock(EMPTY_DOCUMENT, "M", body).Some?
  {
    assert ProperName("M");
    assert '\r' !in StartMarker("M") && '\r' !in EndMarker("M");
    ReadingKeepsPlainText(EMPTY_DOCUMENT);
    EmptyBlock("M");
    ReplaceMeaning(EMPTY_DOCUMENT, "M", body);
  }

  /** The write succeeds for every block, so the blocks of `UncleanBodies` are stale inputs. */
  method WriteThenCheckOne(body: string) returns (written: SyncResult, checked: SyncResult)
    ensures written.Changed? && (checked.Changed? <==> CleanBody(body, "M"))
  {
    EmptyDocumentIsRewritten(body);
    var t := Target("d", "M", "r");
    var render: Renderers := _ => body;
    var files: Files := map["d" := EMPTY_DOCUMENT];
    ghost var expected: Files := map["d" := ReplaceBlock(EMPTY_DOCUMENT, "M", body).value];
    assert Results(files, [t], render)[0] == Rewritten(files, t, render) == Some(expected["d"]);
    assert Paths([t])[0] == "d" && "d" in Paths([t]);
    assert Collected(expected, Paths([t]), Results(files, [t], render));
    var checkout := new Checkout(files);
    var valid: Files -> bool := _ => true;
    assert valid(expected);
    written, checked := WriteThenCheck(checkout, [t], render, valid);
    assert CleanBodies([t], render) <==> CleanBody(render([t][0].renderer), [t][0].marker);
  }
}
