/** The four normalization passes over a launcher, and what a second round of them does. */
module LauncherPasses {
  import opened Delimiters
  import opened SourcePatterns
  import opened StreamSynchronization
  import opened Substitutions

  const RULES: seq<Rule> := [RequireCuda, CudaCheck, DeviceSync, StreamSync]

  function Repeat(rule: Rule, n: nat): (r: seq<Rule>)
    ensures |r| == n && forall i :: 0 <= i < n ==> r[i] == rule
  {
    if n == 0 then [] else Repeat(rule, n - 1) + [rule]
  }

  /** The launcher after the first k passes, and a label for every replacement. */
  function Passes(launcher: string, k: nat): (string, seq<Rule>)
    requires k <= |RULES|
  {
    if k == 0 then (launcher, [])
    else
      var (text, applied) := Passes(launcher, k - 1);
      var (next, count) := Subn(RULES[k - 1], text, 0);
      (next, applied + Repeat(RULES[k - 1], count))
  }

  function Cleaned(launcher: string): string { Passes(launcher, 4).0 }

  function Labels(launcher: string): seq<Rule> { Passes(launcher, 4).1 }

  lemma {:induction false} UnlabelledIsUnchanged(launcher: string, k: nat)
    requires k <= |RULES| && Passes(launcher, k).1 == []
    ensures Passes(launcher, k).0 == launcher
  {
    if k > 0 {
      var (text, applied) := Passes(launcher, k - 1);
      assert |Passes(launcher, k).1| == |applied| + Subn(RULES[k - 1], text, 0).1;
      UnlabelledIsUnchanged(launcher, k - 1);
      NothingReplacedIsUnchanged(RULES[k - 1], text, 0);
    }
  }

  // ----- labels --------------------------------------------------------------------------------

  /** The labels of each rule are as many as its matches in the text that its pass gets. */
  lemma LabelsCountMatches(launcher: string, k: nat) returns (spans: seq<Span>)
    requires k < |RULES|
    ensures var text := Passes(launcher, k).0;
            && LeftmostMatches(RULES[k], text, 0, spans)
            && Passes(launcher, k + 1).0 == Replaced(Replacement(RULES[k]), text, 0, spans)
    ensures multiset(Labels(launcher))[RULES[k]] == |spans|
  {
    hide Passes, LeftmostMatches, Replaced;
    spans := SubnReplacesMatches(RULES[k], Passes(launcher, k).0, 0);
    PassStep(launcher, k);
    LabelsBefore(launcher, k);
    LabelsAfter(launcher, k, |RULES|);
  }

  lemma PassStep(launcher: string, k: nat)
    requires k < |RULES|
    ensures var (text, count) := Subn(RULES[k], Passes(launcher, k).0, 0);
            Passes(launcher, k + 1) == (text, Passes(launcher, k).1 + Repeat(RULES[k], count))
  {
  }

  lemma RulesDiffer(i: nat, j: nat)
    requires i < j < |RULES|
    ensures RULES[i] != RULES[j]
  {
  }

  lemma {:induction false} RepeatCounts(rule: Rule, n: nat, other: Rule)
    ensures multiset(Repeat(rule, n))[other] == if rule == other then n else 0
  {
    if n > 0 { RepeatCounts(rule, n - 1, other); }
  }

  lemma NoLabelsYet(launcher: string)
    ensures Passes(launcher, 0).1 == []
  {
  }

  lemma {:induction false} LabelsBefore(launcher: string, k: nat)
    requires k <= |RULES|
    ensures forall j :: k <= j < |RULES| ==> multiset(Passes(launcher, k).1)[RULES[j]] == 0
  {
    hide Subn, Repeat, Passes;
    if k == 0 {
      NoLabelsYet(launcher);
    } else {
      LabelsBefore(launcher, k - 1);
      PassStep(launcher, k - 1);
      var count := Subn(RULES[k - 1], Passes(launcher, k - 1).0, 0).1;
      forall j | k <= j < |RULES| ensures multiset(Passes(launcher, k).1)[RULES[j]] == 0 {
        RulesDiffer(k - 1, j);
        RepeatCounts(RULES[k - 1], count, RULES[j]);
      }
    }
  }

  lemma {:induction false} LabelsAfter(launcher: string, k: nat, n: nat)
    requires k < n <= |RULES|
    requires multiset(Passes(launcher, k).1)[RULES[k]] == 0
    ensures multiset(Passes(launcher, n).1)[RULES[k]] == Subn(RULES[k], Passes(launcher, k).0, 0).1
  {
    hide Subn, Repeat, Passes;
    PassStep(launcher, n - 1);
    var count := Subn(RULES[n - 1], Passes(launcher, n - 1).0, 0).1;
    RepeatCounts(RULES[n - 1], count, RULES[k]);
    if k < n - 1 {
      RulesDiffer(k, n - 1);
      LabelsAfter(launcher, k, n - 1);
    }
  }

  // ----- device synchronizations ---------------------------------------------------------------

  /** No device synchronization that a rule replaces: neither inside a checking macro or
      function nor as a statement. */
  ghost predicate FreeOfDeviceSync(text: string) {
    FreeOf(REQUIRE, text) && FreeOf(CHECK, text) && FreeOf(SYNC, text)
  }

  /** A rule without a lazy part replaces all matches of its own pattern. */
  lemma OwnMatchesAreReplaced(s: string)
    ensures OnlyReplaced(RequireCuda, REQUIRE, s)
    ensures OnlyReplaced(CudaCheck, CHECK, s)
    ensures OnlyReplaced(DeviceSync, SYNC, s)
  {
    RequireIsTerminated();
    CheckIsTerminated();
    SyncIsTerminated();
    forall q: nat | q <= |s| && MatchAt(REQUIRE, s, q) ensures Hit(RequireCuda, s, q) { MatchedEnd(s, q, REQUIRE); }
    forall q: nat | q <= |s| && MatchAt(CHECK, s, q) ensures Hit(CudaCheck, s, q) { MatchedEnd(s, q, CHECK); }
    forall q: nat | q <= |s| && MatchAt(SYNC, s, q) ensures Hit(DeviceSync, s, q) { MatchedEnd(s, q, SYNC); }
  }

  lemma AfterRequirePass(s: string)
    ensures FreeOf(REQUIRE, Subn(RequireCuda, s, 0).0)
  {
    OwnMatchesAreReplaced(s);
    RequireIsTerminated();
    RequireTextShields();
    PassLeavesNone(RequireCuda, s, 0, 37, REQUIRE);
  }

  lemma AfterCheckPass(s: string)
    requires FreeOf(REQUIRE, s)
    ensures FreeOf(REQUIRE, Subn(CudaCheck, s, 0).0) && FreeOf(CHECK, Subn(CudaCheck, s, 0).0)
  {
    OwnMatchesAreReplaced(s);
    FreeIsOnlyReplaced(CudaCheck, s, REQUIRE);
    RequireIsTerminated();
    CheckIsTerminated();
    CheckTextShieldsRequire();
    CheckTextShieldsCheck();
    PassLeavesNone(CudaCheck, s, 0, 15, REQUIRE);
    PassLeavesNone(CudaCheck, s, 0, 15, CHECK);
  }

  /** The passes that insert a plain call. */
  lemma AfterClearingPass(rule: Rule, s: string)
    requires Replacement(rule) == CLEARED && FreeOf(REQUIRE, s) && FreeOf(CHECK, s) && OnlyReplaced(rule, SYNC, s)
    ensures FreeOfDeviceSync(Subn(rule, s, 0).0)
  {
    FreeIsOnlyReplaced(rule, s, REQUIRE);
    FreeIsOnlyReplaced(rule, s, CHECK);
    RequireIsTerminated();
    CheckIsTerminated();
    SyncIsTerminated();
    ClearedShieldsRequire();
    ClearedShieldsCheck();
    ClearedShieldsSync();
    PassLeavesNone(rule, s, 0, 10, REQUIRE);
    PassLeavesNone(rule, s, 0, 10, CHECK);
    PassLeavesNone(rule, s, 0, 10, SYNC);
  }

  lemma PassesInOrder(launcher: string)
    ensures Passes(launcher, 1).0 == Subn(RequireCuda, launcher, 0).0
    ensures Passes(launcher, 2).0 == Subn(CudaCheck, Passes(launcher, 1).0, 0).0
    ensures Passes(launcher, 3).0 == Subn(DeviceSync, Passes(launcher, 2).0, 0).0
    ensures Cleaned(launcher) == Subn(StreamSync, Passes(launcher, 3).0, 0).0
  {
    assert RULES[0] == RequireCuda && RULES[1] == CudaCheck && RULES[2] == DeviceSync && RULES[3] == StreamSync;
    assert Passes(launcher, 0).0 == launcher;
  }

  /** After all passes no device synchronization of any form is left. */
  lemma CleanedHasNoDeviceSync(launcher: string)
    ensures FreeOfDeviceSync(Cleaned(launcher))
  {
    PassesInOrder(launcher);
    var t2, t3 := Passes(launcher, 2).0, Passes(launcher, 3).0;
    AfterRequirePass(launcher);
    AfterCheckPass(Passes(launcher, 1).0);
    OwnMatchesAreReplaced(t2);
    AfterClearingPass(DeviceSync, t2);
    FreeIsOnlyReplaced(StreamSync, t3, SYNC);
    AfterClearingPass(StreamSync, t3);
  }

  // ----- stream synchronizations -----------------------------------------------------------------

  /** In the text that enters the last pass a kept name stands, with whitespace only in
      between, in front of a match that the pass replaces. */
  ghost predicate GluedIn(launcher: string) { Glued(Passes(launcher, 3).0, 0) }

  /** A stream synchronization is left exactly when such a place exists. */
  lemma CleanedStreamSync(launcher: string)
    ensures HasStreamSync(Cleaned(launcher)) <==> GluedIn(launcher)
  {
    hide Hit, Subn, Glued;
    PassesInOrder(launcher);
    StreamRemainsExactlyWhen(Passes(launcher, 3).0);
  }

  // ----- the passes twice ---------------------------------------------------------------------------

  /** A pass without matches does nothing. */
  lemma IdlePass(rule: Rule, s: string)
    requires forall q: nat :: q <= |s| ==> !Hit(rule, s, q)
    ensures Subn(rule, s, 0) == (s, 0)
  {
    if Subn(rule, s, 0).1 > 0 {
      var q := MatchOfReplacement(rule, s, 0);
    }
    NothingReplacedIsUnchanged(rule, s, 0);
  }

  /** On a text without device synchronizations the first three passes do nothing. */
  lemma FirstPassesIdle(text: string)
    requires FreeOfDeviceSync(text)
    ensures Passes(text, 3) == (text, [])
  {
    forall q: nat | q <= |text|
      ensures !Hit(RequireCuda, text, q) && !Hit(CudaCheck, text, q) && !Hit(DeviceSync, text, q)
    {
      assert !MatchAt(REQUIRE, text, q) && !MatchAt(CHECK, text, q) && !MatchAt(SYNC, text, q);
    }
    IdlePass(RequireCuda, text);
    IdlePass(CudaCheck, text);
    IdlePass(DeviceSync, text);
    IdlePasses(text);
  }

  lemma IdlePasses(text: string)
    requires Subn(RequireCuda, text, 0) == (text, 0) && Subn(CudaCheck, text, 0) == (text, 0)
    requires Subn(DeviceSync, text, 0) == (text, 0)
    ensures Passes(text, 3) == (text, [])
  {
    assert RULES[0] == RequireCuda && RULES[1] == CudaCheck && RULES[2] == DeviceSync;
    IdleStep(text, 0);
    IdleStep(text, 1);
    IdleStep(text, 2);
  }

  lemma IdleStep(text: string, k: nat)
    requires k < |RULES| && Passes(text, k) == (text, []) && Subn(RULES[k], text, 0) == (text, 0)
    ensures Passes(text, k + 1) == (text, [])
  {
    var none: seq<Rule> := [];
    assert Repeat(RULES[k], 0) == none && none + none == none;
    assert Passes(text, k + 1) == (text, none + Repeat(RULES[k], 0));
  }

  /** What the passes do on such a text is what the last pass does. */
  lemma LastPassOnly(text: string)
    requires Passes(text, 3) == (text, [])
    ensures Cleaned(text) == Output(text, 0)
    ensures Labels(text) == [] <==> Subn(StreamSync, text, 0).1 == 0
  {
    hide Subn;
    assert RULES[3] == StreamSync;
    var n := Subn(StreamSync, text, 0).1;
    var none: seq<Rule> := [];
    assert Passes(text, 4) == (Output(text, 0), none + Repeat(StreamSync, n));
  }

  /** The passes change nothing in a launcher that they have cleaned, and apply nothing to it,
      exactly when no name was glued. */
  lemma PassesTwiceExactlyWhen(launcher: string)
    ensures Cleaned(Cleaned(launcher)) == Cleaned(launcher) <==> !GluedIn(launcher)
    ensures Labels(Cleaned(launcher)) == [] <==> !GluedIn(launcher)
  {
    var text := Cleaned(launcher);
    CleanedHasNoDeviceSync(launcher);
    CleanedStreamSync(launcher);
    FirstPassesIdle(text);
    LastPassOnly(text);
    if GluedIn(launcher) {
      AgainReplaces(text);
    } else {
      IdlePass(StreamSync, text);
    }
  }

  lemma AgainReplaces(text: string)
    requires HasStreamSync(text)
    ensures Subn(StreamSync, text, 0).1 > 0 && Output(text, 0) != text
  {
    var q: nat :| q <= |text| && Hit(StreamSync, text, q);
    HitStart(text, q);
    if Subn(StreamSync, text, 0).1 == 0 { NoMatchWithoutReplacement(StreamSync, text, 0, q); }
    ReplacingChanges(text, 0);
    assert text[0..] == text;
  }

  /** A pass without replacements has no match. */
  lemma NothingApplied(rule: Rule, s: string, q: nat)
    requires Subn(rule, s, 0).1 == 0 && q <= |s|
    ensures !Hit(rule, s, q)
  {
    if q < |s| { NoMatchWithoutReplacement(rule, s, 0, q); }
  }

  lemma {:induction false} PassesUnapplied(launcher: string, k: nat, i: nat)
    requires i < k <= |RULES| && Passes(launcher, k).1 == []
    ensures Subn(RULES[i], launcher, 0).1 == 0
    decreases k
  {
    var (text, applied) := Passes(launcher, k - 1);
    assert |Passes(launcher, k).1| == |applied| + Subn(RULES[k - 1], text, 0).1;
    if i == k - 1 { UnlabelledIsUnchanged(launcher, k - 1); } else { PassesUnapplied(launcher, k - 1, i); }
  }

  /** Nothing is applied exactly when the launcher has no synchronization that a rule
      replaces. */
  lemma UnlabelledExactlyWhen(launcher: string)
    ensures Labels(launcher) == [] <==> FreeOfDeviceSync(launcher) && !HasStreamSync(launcher)
  {
    hide Subn, Hit;
    if FreeOfDeviceSync(launcher) && !HasStreamSync(launcher) {
      FirstPassesIdle(launcher);
      LastPassOnly(launcher);
      IdlePass(StreamSync, launcher);
    }
    if Labels(launcher) == [] {
      forall i | 0 <= i < 4 ensures Subn(RULES[i], launcher, 0).1 == 0 { PassesUnapplied(launcher, 4, i); }
      assert RULES[0] == RequireCuda && RULES[1] == CudaCheck && RULES[2] == DeviceSync && RULES[3] == StreamSync;
      OwnMatchesAreReplaced(launcher);
      forall q: nat | q <= |launcher|
        ensures !Hit(RequireCuda, launcher, q) && !Hit(CudaCheck, launcher, q)
        ensures !Hit(DeviceSync, launcher, q) && !Hit(StreamSync, launcher, q)
      {
        NothingApplied(RequireCuda, launcher, q);
        NothingApplied(CudaCheck, launcher, q);
        NothingApplied(DeviceSync, launcher, q);
        NothingApplied(StreamSync, launcher, q);
      }
    }
  }

  // ----- a launcher that the passes change again ---------------------------------

  const BEGINNING := "void launch_gpu_implementation() { "

  /** A launcher with a name in front of a stream synchronization. */
  const GLUED_LAUNCHER: string := BEGINNING + STREAM + " " + (STREAM + "(s); }")

  lemma {:induction false} ScannedThrough(s: string, from: nat, p: nat)
    requires from <= p <= |s| && forall j :: from <= j < p ==> !Hits(s)(j)
    ensures Scanned(s, from, p)
    decreases p - from
  {
    hide Hit, RuleEnd;
    if from < p {
      assert !Hits(s)(from);
      ScannedThrough(s, from + 1, p);
    }
  }

  /** A name, a blank and a call, behind a text without the first two letters of the name. */
  lemma NameBlankCall(pre: string, call: string)
    requires forall j :: 0 <= j < |pre| ==> pre[j] != 'c' || (j + 1 < |pre| && pre[j + 1] != 'u')
    requires Hit(StreamSync, call, 0)
    ensures Glued(pre + STREAM + " " + call, 0)
  {
    hide Hit, RuleEnd, MatchEnd, GluedAt, Scanned;
    var s, p := pre + STREAM + " " + call, |pre|;
    var k := p + 22;
    NameLetters();
    assert s == (pre + STREAM + " ") + call && |pre + STREAM + " "| == k;
    HitShift(pre + STREAM + " ", call, 0);
    MatchNeedsText(call, 0);
    PlaceIsGlued(s, p, k);
    forall j | 0 <= j < p ensures !Hits(s)(j) {
      assert s[j] == pre[j] && (j + 1 < p ==> s[j + 1] == pre[j + 1]);
      if Hit(StreamSync, s, j) { HitStart(s, j); }
    }
    ScannedThrough(s, 0, p);
    forall j | 0 <= j < k ensures !Hits(s)(j) {
      if j >= p { NoHitInGlue(s, p, k, j); }
    }
    ScannedThrough(s, 0, k);
  }

  lemma PlaceIsGlued(s: string, p: nat, k: nat)
    requires k == p + 22 < |s| && Hit(StreamSync, s, k) && s[p..p + 21] == STREAM && s[p + 21] == ' '
    ensures GluedAt(s, p, k)
  {
    hide Hit;
    NameLetters();
    forall j | 0 <= j < 21 ensures s[p + j] == STREAM[j] { assert s[p..p + 21][j] == s[p + j]; }
  }

  lemma CallIsMatch()
    ensures Hit(StreamSync, STREAM + "(s); }", 0)
  {
    var call, tail := STREAM + "(s); }", "(s); }";
    NameLetters();
    assert |tail| == 6 && tail[0] == '(' && tail[1] == 's' && tail[2] == ')' && tail[3] == ';';
    assert forall j :: 0 <= j < 6 ==> call[21 + j] == tail[j];
    assert call[21 + 0] == '(' && call[21 + 1] == 's' && call[21 + 2] == ')' && call[21 + 3] == ';';
    assert SkipSpaces(call, 21) == 21;
    forall j | 0 <= j < 21 ensures call[0 + j] == STREAM[j] {}
    CloseIsClosing();
    CloseAt(call, 23, CLOSE);
    HitFromParts(call, 0, 22, 23);
  }

  lemma {:induction false} LiteralIsInText(s: string, p: nat, items: seq<Item>, i: nat) returns (q: nat)
    requires p <= |s| && MatchAt(items, s, p) && i < |items| && items[i].Lit?
    ensures LitAt(s, q, items[i].text)
    decreases i
  {
    q := p;
    if i > 0 { q := LiteralIsInText(s, ItemEnd(s, p, items[0]).value, items[1..], i - 1); }
  }

  lemma NameHasLetter(s: string, q: nat)
    requires LitAt(s, q, "cudaDeviceSynchronize")
    ensures 'D' in s
  {
    var name := "cudaDeviceSynchronize";
    assert s[q + 4] == name[4] == 'D';
  }

  lemma FreeWithoutLetter(s: string, items: seq<Item>, i: nat)
    requires i < |items| && items[i] == Lit("cudaDeviceSynchronize") && 'D' !in s
    ensures FreeOf(items, s)
  {
    forall p: nat | p <= |s| ensures !MatchAt(items, s, p) {
      if MatchAt(items, s, p) {
        var q := LiteralIsInText(s, p, items, i);
        NameHasLetter(s, q);
      }
    }
  }

  lemma WithoutLetterIsFree(s: string)
    requires 'D' !in s
    ensures FreeOfDeviceSync(s)
  {
    assert REQUIRE[8] == Lit("cudaDeviceSynchronize") && CHECK[4] == REQUIRE[8] && SYNC[0] == REQUIRE[8];
    FreeWithoutLetter(s, REQUIRE, 8);
    FreeWithoutLetter(s, CHECK, 4);
    FreeWithoutLetter(s, SYNC, 0);
  }

  lemma GluedLauncherLetters()
    ensures 'D' !in GLUED_LAUNCHER
    ensures forall j :: 0 <= j < |BEGINNING| ==>
      BEGINNING[j] != 'c' || (j + 1 < |BEGINNING| && BEGINNING[j + 1] != 'u')
  {
    assert 'D' !in BEGINNING && 'D' !in STREAM && 'D' !in " " && 'D' !in "(s); }";
  }

  /** For this launcher repeating the passes is not running them once. */
  lemma PassesTwiceDiffer()
    ensures Cleaned(Cleaned(GLUED_LAUNCHER)) != Cleaned(GLUED_LAUNCHER)
    ensures HasStreamSync(Cleaned(GLUED_LAUNCHER))
  {
    hide Hit, Glued, Subn, FreeOfDeviceSync;
    GluedLauncherLetters();
    WithoutLetterIsFree(GLUED_LAUNCHER);
    FirstPassesIdle(GLUED_LAUNCHER);
    CallIsMatch();
    NameBlankCall(BEGINNING, STREAM + "(s); }");
    PassesTwiceExactlyWhen(GLUED_LAUNCHER);
    CleanedStreamSync(GLUED_LAUNCHER);
  }
}
