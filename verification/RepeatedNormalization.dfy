/** Normalizing a normalized source: the launcher is searched again in the new text. */
module RepeatedNormalization {
  import opened Sequences
  import opened Delimiters
  import opened SourcePatterns
  import opened StreamSynchronization
  import opened LauncherPasses
  import opened DelimiterEdits
  import opened BalancedPatterns
  import opened CudaSource
  import opened LauncherEdits

  // ----- one pass -----------------------------------------------------------------------------------

  /** From p on, every text that the rule removes is balanced in parentheses and in braces. */
  predicate RemovalsBalanced(rule: Rule, s: string, p: nat)
    requires p <= |s|
    decreases |s| - p
  {
    if p == |s| then true
    else if Hit(rule, s, p) then
      Balanced(s, p, RuleEnd(rule, s, p).value) && RemovalsBalanced(rule, s, RuleEnd(rule, s, p).value)
    else RemovalsBalanced(rule, s, p + 1)
  }

  lemma {:induction false} DeviceRemovalsBalanced(rule: Rule, s: string, p: nat)
    requires rule != StreamSync && p <= |s|
    ensures RemovalsBalanced(rule, s, p)
    decreases |s| - p
  {
    hide Balances, RuleEnd;
    if p < |s| {
      if Hit(rule, s, p) {
        DeviceMatchIsBalanced(rule, s, p);
        DeviceRemovalsBalanced(rule, s, RuleEnd(rule, s, p).value);
      } else {
        DeviceRemovalsBalanced(rule, s, p + 1);
      }
    }
  }

  lemma PatternMatchEnds(s: string, p: nat, items: seq<Item>)
    requires p <= |s| && MatchAt(items, s, p) && Terminated(items)
    ensures p + 1 < |s| && s[p] == items[0].text[0] && s[p + 1] == items[0].text[1]
    ensures s[MatchEnd(s, p, items).value - 1] == ';'
  {
    FirstLetters(s, p, items);
    MatchedEnd(s, p, items);
  }

  /** A match of a device rule starts like one of the names and ends with a semicolon. */
  lemma DeviceMatchEnds(rule: Rule, s: string, p: nat)
    requires rule != StreamSync && p <= |s| && Hit(rule, s, p)
    ensures NameStarts(s, p) && s[RuleEnd(rule, s, p).value - 1] == ';'
  {
    hide Terminated, MatchEnd;
    match rule
    case RequireCuda =>
      RequireIsTerminated();
      PatternMatchEnds(s, p, REQUIRE);
    case CudaCheck =>
      CheckIsTerminated();
      PatternMatchEnds(s, p, CHECK);
    case DeviceSync =>
      SyncIsTerminated();
      PatternMatchEnds(s, p, SYNC);
  }

  lemma StreamMatchEnds(s: string, p: nat)
    requires p <= |s| && Hit(StreamSync, s, p)
    ensures NameStarts(s, p) && s[RuleEnd(StreamSync, s, p).value - 1] == ';'
  {
    hide MatchEnd, LazyEnd;
    HitStart(s, p);
    LazyRunEnds(s, MatchEnd(s, p, STREAM_HEAD).value);
  }

  lemma LazyRunEnds(s: string, h: nat)
    requires h <= |s| && LazyEnd(s, h, CLOSE).Some?
    ensures LazyEnd(s, h, CLOSE).value > 0 && s[LazyEnd(s, h, CLOSE).value - 1] == ';'
  {
    hide MatchEnd;
    var m := LazyEndFound(s, h, CLOSE);
    MatchedEnd(s, m, CLOSE);
  }

  /** The source with this text in the place of its launcher. */
  function Around(pre: string, text: string, post: string): string { pre + text + post }

  lemma PartOfAround(pre: string, done: string, t: string, rest: string, post: string)
    ensures var u := Around(pre, done + (t + rest), post);
            var i := |pre| + |done|;
            && u[i..i + |t|] == t && |u| == i + |t| + |rest| + |post|
            && u[..i] == pre + done && u[i + |t|..] == rest + post
  {
    var u := Around(pre, done + (t + rest), post);
    assert u == (pre + done) + t + (rest + post);
  }

  /** Two texts around the same rest are an edit. */
  lemma AroundIsEdit(pre: string, done: string, t: string, t': string, rest: string, post: string)
    requires t != "" && t' != ""
    ensures var i := |pre| + |done|;
            Edit(Around(pre, done + (t + rest), post), Around(pre, done + (t' + rest), post), i, i + |t|, i + |t'|)
  {
    PartOfAround(pre, done, t, rest, post);
    PartOfAround(pre, done, t', rest, post);
    var i := |pre| + |done|;
    var u, u' := Around(pre, done + (t + rest), post), Around(pre, done + (t' + rest), post);
    forall k | 0 <= k < i ensures u[k] == u'[k] { assert u[k] == u[..i][k] && u'[k] == u'[..i][k]; }
    forall k | i + |t| <= k < |u| ensures u[k] == u'[k - (i + |t|) + (i + |t'|)] {
      assert u[k] == u[i + |t|..][k - (i + |t|)];
      assert u'[k - (i + |t|) + (i + |t'|)] == u'[i + |t'|..][k - (i + |t|)];
    }
  }

  /** The only definition in the source starts behind `pre` and ends in front of `post`. */
  ghost predicate Holds(pre: string, text: string, post: string) {
    && AllBalanced(Around(pre, text, post))
    && OnlyLauncher(Around(pre, text, post), |pre|, |pre| + |text|)
  }

  lemma ReplacementSize(rule: Rule)
    ensures |Replacement(rule)| >= 25
  {
  }

  lemma BalancedCopied(text: string, i: nat, t: string, other: string, i': nat)
    requires i + |t| <= |text| && text[i..i + |t|] == t && i' + |t| <= |other| && other[i'..i' + |t|] == t
    requires Balanced(text, i, i + |t|)
    ensures Balanced(other, i', i' + |t|)
  {
    BalancesCopied(PARENTHESES, text, i, i + |t|, 0, other, i');
    BalancesCopied(BRACES, text, i, i + |t|, 0, other, i');
  }

  lemma HitKeepsLauncher(rule: Rule, pre: string, done: string, s: string, p: nat, post: string)
    requires p < |s| && Hit(rule, s, p) && Balanced(s, p, RuleEnd(rule, s, p).value)
    requires Holds(pre, done + s[p..], post)
    ensures Holds(pre, done + (Replacement(rule) + s[RuleEnd(rule, s, p).value..]), post)
  {
    hide Balances, RuleEnd, Replacement, AllBalanced, OnlyLauncher, Edit, Around;
    var e := RuleEnd(rule, s, p).value;
    var t, rest, r := s[p..e], s[e..], Replacement(rule);
    var i := |pre| + |done|;
    var u, u' := Around(pre, done + (t + rest), post), Around(pre, done + (r + rest), post);
    assert s[p..] == t + rest;
    if rule == StreamSync { StreamMatchEnds(s, p); } else { DeviceMatchEnds(rule, s, p); }
    ReplacementSize(rule);
    AroundIsEdit(pre, done, t, r, rest, post);
    PartOfAround(pre, done, t, rest, post);
    PartOfAround(pre, done, r, rest, post);
    assert t == s[p..p + |t|] && r == r[0..0 + |r|];
    BalancedCopied(s, p, t, u, i);
    ReplacementIsBalanced(rule);
    BalancedCopied(r, 0, r, u', i);
    EndsOfPart(u, i, t);
    ReplacementKeepsLauncher(rule, u, u', i, i + |t|, i + |r|, |pre|, |pre| + |done + s[p..]|);
  }

  lemma EndsOfPart(u: string, i: nat, t: string)
    requires i + |t| <= |u| && u[i..i + |t|] == t && |t| >= 2
    ensures u[i] == t[0] && u[i + 1] == t[1] && u[i + |t| - 1] == t[|t| - 1]
  {
    var part := u[i..i + |t|];
    assert part[0] == u[i] && part[1] == u[i + 1] && part[|t| - 1] == u[i + |t| - 1];
  }

  /** A pass over the launcher, standing at p, leaves it the only definition. */
  lemma {:induction false} PassKeepsLauncher(rule: Rule, pre: string, done: string, s: string, p: nat, post: string)
    requires p <= |s| && RemovalsBalanced(rule, s, p) && Holds(pre, done + s[p..], post)
    ensures Holds(pre, done + Subn(rule, s, p).0, post)
    decreases |s| - p
  {
    hide RuleEnd, Balances, Holds, Replacement;
    if p == |s| {
      assert s[p..] == "";
    } else if Hit(rule, s, p) {
      var e := RuleEnd(rule, s, p).value;
      HitKeepsLauncher(rule, pre, done, s, p, post);
      ConcatIsAssociative(done, Replacement(rule), s[e..]);
      PassKeepsLauncher(rule, pre, done + Replacement(rule), s, e, post);
      ConcatIsAssociative(done, Replacement(rule), Subn(rule, s, e).0);
    } else {
      DropHead(s, p);
      ConcatIsAssociative(done, [s[p]], s[p + 1..]);
      PassKeepsLauncher(rule, pre, done + [s[p]], s, p + 1, post);
      ConcatIsAssociative(done, [s[p]], Subn(rule, s, p + 1).0);
    }
  }

  // ----- all passes -------------------------------------------------------------------------------------

  /** Every text that the stream rule removes from the launcher, when its pass comes, is
      balanced in parentheses and in braces. */
  predicate BalancedRemovals(launcher: string) {
    RemovalsBalanced(StreamSync, Passes(launcher, 3).0, 0)
  }

  lemma {:induction false} PassesKeepLauncher(pre: string, launcher: string, post: string, k: nat)
    requires k <= 4 && Holds(pre, launcher, post) && BalancedRemovals(launcher)
    ensures Holds(pre, Passes(launcher, k).0, post)
  {
    hide RemovalsBalanced, Holds, Subn;
    if k > 0 {
      var text := Passes(launcher, k - 1).0;
      PassesKeepLauncher(pre, launcher, post, k - 1);
      if k < 4 { DeviceRemovalsBalanced(RULES[k - 1], text, 0); }
      var none: string := "";
      assert none + text[0..] == text && none + Subn(RULES[k - 1], text, 0).0 == Subn(RULES[k - 1], text, 0).0;
      PassKeepsLauncher(RULES[k - 1], pre, none, text, 0, post);
    }
  }

  /** After normalization the launcher is found again, where it was. */
  lemma LauncherIsFoundAgain(source: string, a: nat, b: nat)
    requires AllBalanced(source) && OnlyLauncher(source, a, b) && a <= b <= |source|
    requires BalancedRemovals(source[a..b])
    ensures var cleaned := Cleaned(source[a..b]);
            var text := source[..a] + cleaned + source[b..];
            AllBalanced(text) && OnlyLauncher(text, a, a + |cleaned|)
  {
    hide Passes, BalancedRemovals, AllBalanced, OnlyLauncher;
    SplitAround(source, a, b);
    assert |source[..a]| == a && |source[a..b]| == b - a;
    assert Holds(source[..a], source[a..b], source[b..]);
    PassesKeepLauncher(source[..a], source[a..b], source[b..], 4);
  }

  /** The second call rewrites the launcher where the first one left it, and it changes
      nothing exactly when no name was glued in the first one. */
  ghost predicate RewritesAgain(source: string, a: nat, b: nat, first: Normalization, second: Normalization)
    requires a <= b <= |source| && first.Normalized?
  {
    && RewritesOnly(first.text, a, a + |Cleaned(source[a..b])|, second)
    && (second == Normalized(first.text, []) <==> !GluedIn(source[a..b]))
  }

  lemma SecondRound(source: string, a: nat, b: nat, first: Normalization, second: Normalization)
    requires RewritesOnly(source, a, b, first)
    requires a + |Cleaned(source[a..b])| <= |first.text|
    requires RewritesOnly(first.text, a, a + |Cleaned(source[a..b])|, second)
    ensures RewritesAgain(source, a, b, first, second)
  {
    hide Passes, GluedIn, FreeOfDeviceSync, HasStreamSync, Cleaned, Labels;
    var launcher := source[a..b];
    var cleaned, text := Cleaned(launcher), first.text;
    var e := a + |cleaned|;
    PassesTwiceExactlyWhen(launcher);
    assert |source[..a]| == a;
    assert text == source[..a] + cleaned + source[b..];
    assert text[a..e] == cleaned;
    if !GluedIn(launcher) { SplitAround(text, a, e); }
  }

  /** One launcher, without a synchronization that a rule replaces. */
  ghost predicate IsNormal(source: string) {
    AllBalanced(source) && exists a: nat, b: nat :: OnlyLauncher(source, a, b) && HasNoSync(source, a, b)
  }

  ghost predicate HasNoSync(source: string, a: nat, b: nat) {
    a <= b <= |source| && FreeOfDeviceSync(source[a..b]) && !HasStreamSync(source[a..b])
  }

  /** The fixed points of normalization. */
  lemma NormalizingKeepsExactly(source: string, r: Normalization)
    requires r.Normalized? <==> AllBalanced(source) && exists a: nat, b: nat :: OnlyLauncher(source, a, b)
    requires forall a: nat, b: nat ::
      AllBalanced(source) && OnlyLauncher(source, a, b) ==> RewritesOnly(source, a, b, r)
    ensures r == Normalized(source, []) <==> IsNormal(source)
  {
    hide AllBalanced, OnlyLauncher, FreeOfDeviceSync, HasStreamSync, Labels, Cleaned, GluedIn;
    forall a: nat, b: nat | AllBalanced(source) && OnlyLauncher(source, a, b)
      ensures r == Normalized(source, []) <==> HasNoSync(source, a, b)
    {
      assert RewritesOnly(source, a, b, r);
      UnlabelledExactlyWhen(source[a..b]);
    }
  }

  /** `normalize_cuda_source` on its own result. */
  method NormalizeTwice(source: string) returns (first: Normalization, second: Normalization)
    ensures first.Normalized? <==> AllBalanced(source) && exists a: nat, b: nat :: OnlyLauncher(source, a, b)
    ensures first.Rejected? ==> second == first
    ensures first.Normalized? && !AllBalanced(first.text) ==> second == Rejected(UnbalancedDelimiters)
    ensures first.Normalized? ==> (second == Normalized(first.text, []) <==> IsNormal(first.text))
    ensures forall a: nat, b: nat :: AllBalanced(source) && OnlyLauncher(source, a, b) ==>
      && RewritesOnly(source, a, b, first)
      && (BalancedRemovals(source[a..b]) ==> RewritesAgain(source, a, b, first, second))
  {
    hide BalancedRemovals, Cleaned, GluedIn, AllBalanced, OnlyLauncher, RewritesAgain, IsNormal;
    first := NormalizeCudaSource(source);
    if first.Rejected? { return first, first; }
    second := NormalizeCudaSource(first.text);
    NormalizingKeepsExactly(first.text, second);
    forall a: nat, b: nat | AllBalanced(source) && OnlyLauncher(source, a, b) && BalancedRemovals(source[a..b])
      ensures RewritesAgain(source, a, b, first, second)
    {
      assert RewritesOnly(source, a, b, first);
      LauncherIsFoundAgain(source, a, b);
      SecondRound(source, a, b, first, second);
    }
  }
}
