/** Sources in which a removed text is not balanced: the second call does not find the
    launcher.

    Each is one launcher with one call that the last pass replaces.  What the pass removes
    contains, in a string, the brace that closes the launcher's body, or the parenthesis
    that closes its parameter list; the delimiter match takes no notice of strings. */
module NormalizationLimits {
  import opened Characters
  import opened Sequences
  import opened Delimiters
  import opened SourcePatterns
  import opened StreamSynchronization
  import opened LauncherPasses
  import opened DelimiterEdits
  import opened BalancedPatterns
  import opened CudaSource
  import opened LauncherEdits
  import opened RepeatedNormalization

  // ----- one call in the text --------------------------------------------------------------------

  function Call(arg: string): string { STREAM + "(" + arg + ");" }

  /** The argument has no semicolon, and each parenthesis that it closes is followed by
      something that does not end the call. */
  predicate IsArgument(arg: string) {
    && ';' !in arg
    && forall k :: 0 <= k < |arg| && arg[k] == ')' ==> k + 1 == |arg| || (arg[k + 1] != ';' && !IsSpace(arg[k + 1]))
  }

  lemma CallLetters(x: string, arg: string, y: string)
    ensures var s, h := x + Call(arg) + y, |x| + 22;
            && |Call(arg)| == 24 + |arg| && |s| == |x| + |Call(arg)| + |y|
            && s[|x|..|x| + 21] == STREAM && s[h - 1] == '(' && s[h..h + |arg|] == arg
            && s[h + |arg|] == ')' && s[h + |arg| + 1] == ';'
  {
    NameLetters();
    var s := x + Call(arg) + y;
    assert s == (x + STREAM + "(") + arg + (");" + y);
    assert s == x + STREAM + ("(" + arg + ");" + y);
    assert (");" + y)[0] == ')' && (");" + y)[1] == ';';
  }

  lemma NoEarlierClosing(s: string, h: nat, arg: string, j: nat)
    requires IsArgument(arg) && h <= j < h + |arg| && h + |arg| + 1 < |s|
    requires s[h..h + |arg|] == arg && s[h + |arg|] == ')'
    ensures s[j] != ';' && !MatchAt(CLOSE, s, j)
  {
    hide MatchEnd;
    assert s[j] == s[h..h + |arg|][j - h] == arg[j - h];
    assert j + 1 < h + |arg| ==> s[j + 1] == s[h..h + |arg|][j + 1 - h] == arg[j + 1 - h];
    if MatchAt(CLOSE, s, j) {
      CloseIsClosing();
      var b := CloseShape(s, j, CLOSE);
    }
  }

  /** The call is a match, all of it. */
  lemma CallIsMatched(x: string, arg: string, y: string)
    requires IsArgument(arg)
    ensures var s := x + Call(arg) + y;
            Hit(StreamSync, s, |x|) && RuleEnd(StreamSync, s, |x|) == Some(|x| + |Call(arg)|)
  {
    hide MatchEnd, IsArgument;
    var s, p := x + Call(arg) + y, |x|;
    var h, m := p + 22, p + 22 + |arg|;
    CallLetters(x, arg, y);
    NameLetters();
    forall j | 0 <= j < 21 ensures s[p + j] == STREAM[j] { assert s[p..p + 21][j] == s[p + j]; }
    assert SkipSpaces(s, p + 21) == p + 21;
    HeadShape(s, p, h);
    forall j | h <= j < m ensures s[j] != ';' && !MatchAt(CLOSE, s, j) { NoEarlierClosing(s, h, arg, j); }
    CloseIsClosing();
    CloseAt(s, m, CLOSE);
    LazyEndIsFirst(s, h, m, CLOSE);
  }

  /** The start of the name is nowhere in the text. */
  predicate Nameless(t: string) { forall j :: 0 <= j < |t| && t[j] == 'c' ==> j + 1 < |t| && t[j + 1] != 'u' }

  predicate StartsName(s: string, j: nat) { j + 1 < |s| && s[j] == 'c' && s[j + 1] == 'u' }

  /** The name starts at the call only. */
  lemma NoOtherStart(x: string, arg: string, y: string, j: nat)
    requires Nameless(x) && Nameless(arg) && Nameless(y) && j != |x|
    ensures !StartsName(x + Call(arg) + y, j)
  {
    var s, h := x + Call(arg) + y, |x| + 22;
    CallLetters(x, arg, y);
    if j < |x| {
      assert s[j] == x[j] && (j + 1 < |x| ==> s[j + 1] == x[j + 1]);
    } else if j < |x| + 21 {
      if s[j] == 'c' { InsideName(s, |x|, j); }
    } else if h <= j < h + |arg| {
      assert s[j] == s[h..h + |arg|][j - h];
      assert j + 1 < h + |arg| ==> s[j + 1] == s[h..h + |arg|][j + 1 - h];
    } else if h + |arg| + 2 <= j < |s| - 1 {
      assert s[j] == y[j - (h + |arg| + 2)] && s[j + 1] == y[j + 1 - (h + |arg| + 2)];
    }
  }

  lemma InsideName(s: string, p: nat, j: nat)
    requires p + 21 < |s| && s[p..p + 21] == STREAM && p < j < p + 21 && s[j] == 'c'
    ensures s[j + 1] != 'u'
  {
    NameLetters();
    forall k | 0 <= k < 21 ensures s[p + k] == STREAM[k] { assert s[p..p + 21][k] == s[p + k]; }
    NameText(s, p, j);
  }

  lemma NoOtherHit(x: string, arg: string, y: string, j: nat)
    requires Nameless(x) && Nameless(arg) && Nameless(y) && j != |x| && j <= |x + Call(arg) + y|
    ensures !Hit(StreamSync, x + Call(arg) + y, j)
  {
    var s := x + Call(arg) + y;
    NoOtherStart(x, arg, y, j);
    if Hit(StreamSync, s, j) { HitStart(s, j); }
  }

  lemma NextInCall(x: string, arg: string, y: string)
    requires IsArgument(arg) && Nameless(x) && Nameless(arg) && Nameless(y)
    ensures var s, e := x + Call(arg) + y, |x| + |Call(arg)|;
            NextHit(s, 0) == |x| && NextHit(s, e) == |s|
  {
    hide Hit, RuleEnd, Nameless, IsArgument;
    var s, e := x + Call(arg) + y, |x| + |Call(arg)|;
    CallIsMatched(x, arg, y);
    forall j: nat | j < |s| && j != |x| ensures !Hit(StreamSync, s, j) { NoOtherHit(x, arg, y, j); }
    NextIs(s, 0, |x|);
    NextIs(s, e, |s|);
  }

  /** The last pass replaces the call and nothing else. */
  lemma CallIsReplaced(x: string, arg: string, y: string)
    requires IsArgument(arg) && Nameless(x) && Nameless(arg) && Nameless(y)
    ensures Output(x + Call(arg) + y, 0) == x + CLEARED + y
  {
    hide Hit, RuleEnd, Subn, Nameless, IsArgument, NextHit, Output;
    var s := x + Call(arg) + y;
    var e := |x| + |Call(arg)|;
    CallIsMatched(x, arg, y);
    NextInCall(x, arg, y);
    KeptToNext(s, 0);
    MatchNeedsText(s, |x|);
    var t := OutputStep(s, |x|);
    KeptToNext(s, e);
    OutputAtEnd(s);
    assert s[0..|x|] == x && s[e..|s|] == y;
  }

  lemma OutputAtEnd(s: string)
    ensures Output(s, |s|) == ""
  {
  }

  lemma NextIs(s: string, p: nat, k: nat)
    requires p <= k <= |s| && (k < |s| ==> Hit(StreamSync, s, k))
    requires forall j: nat :: p <= j < k ==> !Hit(StreamSync, s, j)
    ensures NextHit(s, p) == k
  {
    hide Hit;
    var n := NextHit(s, p);
    if n < k { NextHitIsHit(s, p); }
    if k < n { BeforeNext(s, p, k); }
  }

  /** No name is glued to the call. */
  lemma CallIsNotGlued(x: string, arg: string, y: string)
    requires Nameless(x) && Nameless(arg) && Nameless(y)
    ensures !Glued(x + Call(arg) + y, 0)
  {
    hide Hit, RuleEnd, Scanned, Nameless;
    var s := x + Call(arg) + y;
    forall p: nat, k: nat ensures !GluedAt(s, p, k) {
      if GluedAt(s, p, k) {
        HitStart(s, k);
        NameText(s, p, p);
        NameLetters();
        assert s[p + 0] == STREAM[0] && s[p + 1] == STREAM[1];
        if k == |x| { NoOtherStart(x, arg, y, p); } else { NoOtherStart(x, arg, y, k); }
      }
    }
  }

  // ----- a source that is one launcher ------------------------------------------------------------------

  const OPENING := "void launch_gpu_implementation("

  lemma OpeningLetters()
    ensures |OPENING| == 31 && OPENING[30] == '(' && NoParenthesis(OPENING, 0, 30)
    ensures OPENING == "void" + " " + NAME + "(" && |NAME| == 25
  {
  }

  /** A text that starts like a launcher has its header there. */
  lemma OpeningIsHeader(rest: string)
    ensures var s := OPENING + rest; HeaderEnd(s, 0) == Some(31) && Find(s, '(', 0) == 30
  {
    hide MatchEnd;
    var s := OPENING + rest;
    OpeningLetters();
    HeaderMatches(s);
    FirstLetter(s, 0, INLINE_HEADER, 'i');
    assert s[0] == OPENING[0] == 'v';
    HeaderParenthesis(s, 0);
  }

  lemma HeaderMatches(s: string)
    requires |s| >= 31 && s[..31] == OPENING
    ensures MatchEnd(s, 0, HEADER) == Some(31)
  {
    OpeningLetters();
    HeadersAreDeterministic();
    forall k | 0 <= k < 31 ensures s[k] == OPENING[k] { assert s[..31][k] == s[k]; }
    var items := HEADER;
    assert items[1..] == [SomeSpaces, Lit(NAME), Spaces, Lit("(")] && items[2..] == [Lit(NAME), Spaces, Lit("(")];
    assert items[3..] == [Spaces, Lit("(")] && items[4..] == [Lit("(")] && items[5..] == [];
    HeaderLiterals(s);
    assert ItemMatches(s, 4, SomeSpaces, 5) && ItemMatches(s, 30, Spaces, 30);
    assert Matches(s, 31, items[5..], 31);
    assert Matches(s, 30, items[4..], 31) by { assert ItemMatches(s, 30, items[4..][0], 31); }
    assert Matches(s, 30, items[3..], 31) by { assert ItemMatches(s, 30, items[3..][0], 30); }
    assert Matches(s, 5, items[2..], 31) by { assert ItemMatches(s, 5, items[2..][0], 30); }
    assert Matches(s, 4, items[1..], 31) by { assert ItemMatches(s, 4, items[1..][0], 5); }
    assert Matches(s, 0, items, 31) by { assert ItemMatches(s, 0, items[0], 4); }
    ScannerMatches(s, 0, items, 31);
  }

  lemma HeaderLiterals(s: string)
    requires |s| >= 31 && s[..31] == OPENING
    ensures LitAt(s, 0, "void") && s[4] == ' ' && LitAt(s, 5, NAME) && LitAt(s, 30, "(")
  {
    OpeningLetters();
    forall k | 0 <= k < 31 ensures s[k] == OPENING[k] { assert s[..31][k] == s[k]; }
    forall j | 0 <= j < 25 ensures s[5 + j] == NAME[j] { assert OPENING[5 + j] == NAME[j]; }
  }

  /** No header starts in a text, whatever follows. */
  predicate Headless(t: string) {
    forall k :: 0 <= k < |t| ==> HeadlessAt(t, k)
  }

  predicate HeadlessAt(t: string, k: nat)
    requires k < |t|
  {
    t[k] != 'v' && (t[k] == 'i' ==> k + 1 < |t| && t[k + 1] != 'n')
  }

  lemma HeadlessParts(x: string, y: string)
    requires Headless(x) && Headless(y)
    ensures Headless(x + y)
  {
    var t := x + y;
    forall k | 0 <= k < |t| ensures HeadlessAt(t, k) {
      if k < |x| { assert HeadlessAt(x, k); } else { assert HeadlessAt(y, k - |x|); }
    }
  }

  /** When the header at the start is the only one and its definition takes the whole text,
      the text is one launcher. */
  lemma IsOneLauncher(s: string)
    requires |s| > 0 && HeaderEnd(s, 0).Some? && Headless(s[1..]) && ReadAt(s, 0) == Definition(|s|)
    ensures AllBalanced(s) && OnlyLauncher(s, 0, |s|)
  {
    hide HeaderEnd, ReadAt;
    HeaderParenthesis(s, 0);
    forall q: nat | 0 < q <= |s| ensures ReadAt(s, q) == NoHeader {
      HeaderOfReading(s, q);
      assert q < |s| ==> HeadlessAt(s[1..], q - 1) && s[q] == s[1..][q - 1];
      assert q + 1 < |s| ==> s[q + 1] == s[1..][q];
      if HeaderEnd(s, q).Some? { HeaderStart(s, q); }
    }
  }

  // ----- normalizing such a source --------------------------------------------------------------------------

  /** A source with one call that the passes replace. */
  predicate OneCall(x: string, arg: string, y: string) {
    && IsArgument(arg) && Nameless(x) && Nameless(arg) && Nameless(y)
    && 'D' !in x && 'D' !in arg && 'D' !in y
  }

  lemma CallIsCleaned(x: string, arg: string, y: string)
    requires OneCall(x, arg, y)
    ensures Cleaned(x + Call(arg) + y) == x + CLEARED + y && !GluedIn(x + Call(arg) + y)
  {
    hide IsArgument, Nameless, FreeOfDeviceSync, Passes, Glued;
    var s := x + Call(arg) + y;
    NameHasNoD();
    assert 'D' !in Call(arg);
    WithoutLetterIsFree(s);
    FirstPassesIdle(s);
    LastPassOnly(s);
    CallIsReplaced(x, arg, y);
    CallIsNotGlued(x, arg, y);
  }

  lemma NameHasNoD()
    ensures 'D' !in STREAM && 'D' !in "(" && 'D' !in ");"
  {
  }

  /** One launcher with one call, whose result has a broken definition: normalizing it twice
      fails, although no name was glued. */
  method FailsTheSecondTime(x: string, arg: string, y: string) returns (first: Normalization, second: Normalization)
    requires OneCall(x, arg, y)
    requires var s := x + Call(arg) + y; AllBalanced(s) && OnlyLauncher(s, 0, |s|)
    requires ReadAt(x + CLEARED + y, 0) == Broken
    ensures !GluedIn(x + Call(arg) + y)
    ensures first == Normalized(x + CLEARED + y, Labels(x + Call(arg) + y)) && second == Rejected(UnbalancedDelimiters)
  {
    hide OnlyLauncher, ReadAt, Cleaned, Labels, GluedIn, OneCall, FreeOfDeviceSync, HasStreamSync, BalancedRemovals;
    var s := x + Call(arg) + y;
    CallIsCleaned(x, arg, y);
    first, second := NormalizeTwice(s);
    assert RewritesOnly(s, 0, |s|, first);
    assert s[0..|s|] == s && s[..0] + Cleaned(s) + s[|s|..] == Cleaned(s);
    assert !AllBalanced(first.text);
  }

  // ----- a brace in the removed text ---------------------------------------------------------------------------

  lemma ScanPart(p: Pair, s: string, i: nat, t: string, depth: int)
    requires i + |t| <= |s| && s[i..i + |t|] == t && p.opening !in t && p.closing !in t
    ensures Scan(p, s, i, depth) == Scan(p, s, i + |t|, depth)
  {
    forall k | i <= k < i + |t| ensures Weight(p, s[k]) == 0 { assert s[k] == s[i..i + |t|][k - i] && s[k] in t; }
    ScanPlain(p, s, i, i + |t|, depth);
  }

  lemma ScanEnd(p: Pair, s: string, depth: int)
    ensures Scan(p, s, |s|, depth) == None
  {
  }

  const BODIES := ") { { "

  /** The header and two opened braces. */
  lemma OpenedBodies(rest: string)
    ensures var s := OPENING + BODIES + rest;
            |s| == 37 + |rest| && s[37..] == rest && ReadAt(s, 0) ==
              match Scan(BRACES, s, 37, 2)
              case None => Broken
              case Some(brace) => Definition(brace + 1)
  {
    hide HeaderEnd, MatchEnd;
    var s := OPENING + BODIES + rest;
    OpeningLetters();
    assert s == OPENING + (BODIES + rest);
    OpeningIsHeader(BODIES + rest);
    assert |BODIES| == 6 && BODIES[0] == ')' && BODIES[1] == ' ' && BODIES[2] == '{';
    assert BODIES[3] == ' ' && BODIES[4] == '{';
    assert forall k :: 0 <= k < 6 ==> s[31 + k] == BODIES[k];
    assert s[30] == OPENING[30] && s[31 + 0] == ')' && s[31 + 1] == ' ' && s[31 + 2] == '{';
    assert s[31 + 3] == ' ' && s[31 + 4] == '{';
    assert BODIES[5] == ' ' && s[31 + 5] == ' ';
    assert Scan(PARENTHESES, s, 31, 1) == Some(31);
    assert SkipSpaces(s, 32) == 33;
    assert Scan(BRACES, s, 33, 0) == Scan(BRACES, s, 34, 1) == Scan(BRACES, s, 35, 1) == Scan(BRACES, s, 36, 2);
    assert Scan(BRACES, s, 36, 2) == Scan(BRACES, s, 37, 2);
  }

  lemma TwoBraces(t1: string, t2: string)
    requires '{' !in t1 && '}' !in t1 && '{' !in t2 && '}' !in t2
    ensures var s := OPENING + BODIES + (t1 + "}" + t2 + "}"); ReadAt(s, 0) == Definition(|s|)
  {
    hide ReadAt, HeaderEnd;
    var rest := t1 + "}" + t2 + "}";
    var s, k := OPENING + BODIES + rest, 37 + |t1|;
    OpenedBodies(rest);
    assert s[37..] == rest;
    RestOfTwoBraces(s, t1, t2);
    ScanPart(BRACES, s, 37, t1, 2);
    assert Scan(BRACES, s, k, 2) == Scan(BRACES, s, k + 1, 1);
    ScanPart(BRACES, s, k + 1, t2, 1);
    assert Scan(BRACES, s, |s| - 1, 1) == Some(|s| - 1);
  }

  lemma RestOfTwoBraces(s: string, t1: string, t2: string)
    requires |s| >= 37 && s[37..] == t1 + "}" + t2 + "}"
    ensures var k := 37 + |t1|;
            && |s| == k + |t2| + 2 && s[37..k] == t1 && s[k] == '}'
            && s[k + 1..k + 1 + |t2|] == t2 && s[|s| - 1] == '}'
  {
    var r, n := t1 + "}" + t2 + "}", |t1|;
    assert r[..n] == t1 && r[n] == '}' && r[n + 1..n + 1 + |t2|] == t2 && r[|r| - 1] == '}';
    assert s[37..37 + n] == s[37..][..n] && s[37 + n] == s[37..][n];
    assert s[37 + n + 1..37 + n + 1 + |t2|] == s[37..][n + 1..n + 1 + |t2|];
  }

  lemma OneBrace(t: string)
    requires '{' !in t && '}' !in t
    ensures ReadAt(OPENING + BODIES + (t + "}"), 0) == Broken
  {
    hide ReadAt, HeaderEnd;
    var s := OPENING + BODIES + (t + "}");
    OpenedBodies(t + "}");
    assert s[37..][..|t|] == t && s[37..][|t|] == '}';
    assert s[37..37 + |t|] == s[37..][..|t|];
    ScanPart(BRACES, s, 37, t, 2);
    assert Scan(BRACES, s, |s| - 1, 2) == Scan(BRACES, s, |s|, 1);
    ScanEnd(BRACES, s, 1);
  }

  lemma OpeningIsHeadless()
    ensures Headless(OPENING[1..])
  {
  }

  lemma HeadlessLetters()
    ensures Headless(BODIES) && Headless("(") && Headless(");") && Headless(" }")
    ensures Headless(LISTS) && Headless(CLOSED_LISTS)
  {
  }

  lemma NameIsHeadless()
    ensures Headless(STREAM)
  {
    NameLetters();
  }

  lemma SourceIsHeadless(before: string, arg: string, after: string)
    requires Headless(before) && Headless(arg) && Headless(after)
    ensures Headless((OPENING + before + Call(arg) + after)[1..])
  {
    hide Headless;
    var s := OPENING + before + Call(arg) + after;
    OpeningIsHeadless();
    HeadlessLetters();
    NameIsHeadless();
    HeadlessParts(OPENING[1..], before);
    HeadlessParts(STREAM, "(");
    HeadlessParts(STREAM + "(", arg);
    HeadlessParts(STREAM + "(" + arg, ");");
    HeadlessParts(OPENING[1..] + before, Call(arg));
    HeadlessParts(OPENING[1..] + before + Call(arg), after);
    assert |OPENING| > 0;
    assert s[1..] == OPENING[1..] + before + Call(arg) + after;
  }

  const BRACE := "f(\"}\")"

  lemma BraceLetters()
    ensures OneCall(OPENING + BODIES, BRACE, " }") && Headless(BRACE)
  {
    OpeningIsQuiet();
    assert |BRACE| == 6 && |BODIES| == 6;
    var x := OPENING + BODIES;
    assert forall j :: 0 <= j < |x| ==> x[j] == if j < 31 then OPENING[j] else BODIES[j - 31];
  }

  lemma OpeningIsQuiet()
    ensures Nameless(OPENING) && 'D' !in OPENING && |OPENING| == 31
  {
  }

  lemma CallWithoutBraces()
    ensures '{' !in STREAM && '}' !in STREAM && '{' !in "(f(\"" && '}' !in "(f(\""
    ensures '{' !in "\")); " && '}' !in "\")); "
    ensures '{' !in CLEARED && '}' !in CLEARED
  {
  }

  lemma BraceInParts()
    ensures Call(BRACE) + " }" == STREAM + "(f(\"" + "}" + "\")); " + "}"
  {
    assert "(" + BRACE + ");" + " }" == "(f(\"" + "}" + "\")); " + "}";
  }

  /** A brace in the removed text: the launcher
          void launch_gpu_implementation() { { cudaStreamSynchronize(f("}")); }
      is normalized, but not a second time. */
  method RemovedBraceCounts() returns (first: Normalization, second: Normalization)
    ensures !GluedIn(OPENING + BODIES + Call(BRACE) + " }")
    ensures first.Normalized? && first.text == OPENING + BODIES + CLEARED + " }"
    ensures second == Rejected(UnbalancedDelimiters)
  {
    hide ReadAt, OneCall, Passes, OnlyLauncher, AllBalanced, GluedIn;
    BraceLetters();
    BraceSource();
    BraceResult();
    first, second := FailsTheSecondTime(OPENING + BODIES, BRACE, " }");
  }

  lemma BraceSource()
    ensures var s := OPENING + BODIES + Call(BRACE) + " }"; AllBalanced(s) && OnlyLauncher(s, 0, |s|)
  {
    hide ReadAt, OneCall, Headless, OnlyLauncher, HeaderEnd;
    BraceLetters();
    HeadlessLetters();
    CallWithoutBraces();
    BraceInParts();
    var s, rest := OPENING + BODIES + Call(BRACE) + " }", Call(BRACE) + " }";
    SourceIsHeadless(BODIES, BRACE, " }");
    TwoBraces(STREAM + "(f(\"", "\")); ");
    assert s == OPENING + BODIES + rest;
    OpeningIsHeader(BODIES + rest);
    assert OPENING + (BODIES + rest) == s;
    IsOneLauncher(s);
  }

  lemma BraceResult()
    ensures ReadAt(OPENING + BODIES + CLEARED + " }", 0) == Broken
  {
    hide ReadAt;
    CallWithoutBraces();
    OneBrace(CLEARED + " ");
    assert CLEARED + " " + "}" == CLEARED + " }";
    assert OPENING + BODIES + (CLEARED + " }") == OPENING + BODIES + CLEARED + " }";
  }

  // ----- a parenthesis in the removed text -----------------------------------------------------------------------

  const LISTS := "(/* "
  const CLOSED_LISTS := " */) {}"
  const PARENTHESIS := "\")\""

  lemma ParenthesisLetters()
    ensures OneCall(OPENING + LISTS, PARENTHESIS, CLOSED_LISTS) && Headless(PARENTHESIS)
  {
    OpeningIsQuiet();
    assert |PARENTHESIS| == 3 && |LISTS| == 4 && |CLOSED_LISTS| == 7;
    var x := OPENING + LISTS;
    assert forall j :: 0 <= j < |x| ==> x[j] == if j < 31 then OPENING[j] else LISTS[j - 31];
  }

  /** The header, and what its parameter list depends on. */
  lemma OpenedLists(rest: string)
    ensures var s := OPENING + ("(" + rest);
            |s| == 32 + |rest| && s[32..] == rest && ReadAt(s, 0) ==
              match Scan(PARENTHESES, s, 32, 2)
              case None => Broken
              case Some(close) => ReadBody(s, close)
  {
    hide HeaderEnd, ReadBody;
    var s := OPENING + ("(" + rest);
    OpeningLetters();
    OpeningIsHeader("(" + rest);
    assert s[30] == OPENING[30] && s[31] == ("(" + rest)[0] == '(';
    assert Scan(PARENTHESES, s, 30, 0) == Scan(PARENTHESES, s, 31, 1) == Scan(PARENTHESES, s, 32, 2);
  }

  const MIDDLE := "(\")\")"

  lemma MiddleLetters()
    ensures |MIDDLE| == 5 && MIDDLE[0] == '(' && MIDDLE[1] == '"' && MIDDLE[2] == ')'
    ensures MIDDLE[3] == '"' && MIDDLE[4] == ')'
  {
  }

  lemma ScanMiddle(s: string, i: nat)
    requires i + 5 <= |s| && s[i..i + 5] == MIDDLE
    ensures Scan(PARENTHESES, s, i, 2) == Scan(PARENTHESES, s, i + 5, 1)
  {
    MiddleLetters();
    forall k | 0 <= k < 5 ensures s[i + k] == MIDDLE[k] { assert s[i..i + 5][k] == s[i + k]; }
    assert s[i + 0] == '(' && s[i + 1] == '"' && s[i + 2] == ')' && s[i + 3] == '"' && s[i + 4] == ')';
    assert Scan(PARENTHESES, s, i, 2) == Scan(PARENTHESES, s, i + 1, 3) == Scan(PARENTHESES, s, i + 2, 3);
    assert Scan(PARENTHESES, s, i + 2, 3) == Scan(PARENTHESES, s, i + 3, 2) == Scan(PARENTHESES, s, i + 4, 2);
  }

  const EMPTY_BODY := ") {}"

  lemma BodyIsEmpty(s: string, k: nat)
    requires |s| == k + 4 && s[k..] == EMPTY_BODY
    ensures Scan(PARENTHESES, s, k, 1) == Some(k) && ReadBody(s, k) == Definition(|s|)
  {
    assert |EMPTY_BODY| == 4;
    assert s[k] == EMPTY_BODY[0] && s[k + 1] == EMPTY_BODY[1] && s[k + 2] == EMPTY_BODY[2] && s[k + 3] == EMPTY_BODY[3];
    assert SkipSpaces(s, k + 1) == k + 2;
    assert Scan(BRACES, s, k + 2, 0) == Scan(BRACES, s, k + 3, 1) == Some(k + 3);
  }

  lemma PartsOf(s: string, i: nat, t1: string, m: string, t2: string, end: string)
    requires i <= |s| && s[i..] == t1 + m + t2 + end
    ensures var j := i + |t1|; var k := j + |m|; var e := k + |t2|;
            && e <= |s| && s[i..j] == t1 && s[j..k] == m && s[k..e] == t2 && s[e..] == end
  {
    var r := t1 + m + t2 + end;
    var a, b, c := |t1|, |t1| + |m|, |t1| + |m| + |t2|;
    assert r[..a] == t1 && r[a..b] == m && r[b..c] == t2 && r[c..] == end;
    assert s[i..i + a] == s[i..][..a] && s[i + a..i + b] == s[i..][a..b] && s[i + b..i + c] == s[i..][b..c];
    assert s[i + c..] == s[i..][c..];
  }

  lemma ListsAroundCall(t1: string, t2: string)
    requires '(' !in t1 && ')' !in t1 && '(' !in t2 && ')' !in t2
    ensures var s := OPENING + ("(" + (t1 + MIDDLE + t2 + EMPTY_BODY)); ReadAt(s, 0) == Definition(|s|)
  {
    hide ReadAt, HeaderEnd, ReadBody, Scan;
    var rest := t1 + MIDDLE + t2 + EMPTY_BODY;
    var s := OPENING + ("(" + rest);
    OpenedLists(rest);
    MiddleLetters();
    PartsOf(s, 32, t1, MIDDLE, t2, EMPTY_BODY);
    var j := 32 + |t1|;
    var e := j + 5 + |t2|;
    ScanPart(PARENTHESES, s, 32, t1, 2);
    ScanMiddle(s, j);
    ScanPart(PARENTHESES, s, j + 5, t2, 1);
    assert |EMPTY_BODY| == 4;
    BodyIsEmpty(s, e);
  }

  lemma ListsAroundBalanced(t1: string, m: string, t2: string)
    requires '(' !in t1 && ')' !in t1 && '(' !in t2 && ')' !in t2 && Balanced(m, 0, |m|)
    ensures ReadAt(OPENING + ("(" + (t1 + m + t2 + EMPTY_BODY)), 0) == Broken
  {
    hide ReadAt, HeaderEnd, ReadBody, Balances, Scan;
    var rest := t1 + m + t2 + EMPTY_BODY;
    var s := OPENING + ("(" + rest);
    OpenedLists(rest);
    PartsOf(s, 32, t1, m, t2, EMPTY_BODY);
    var j := 32 + |t1|;
    var k := j + |m|;
    var e := k + |t2|;
    assert m == m[0..0 + |m|];
    BalancedCopied(m, 0, m, s, j);
    ScanPart(PARENTHESES, s, 32, t1, 2);
    ScanOver(PARENTHESES, s, j, k, 0, 2);
    ScanPart(PARENTHESES, s, k, t2, 2);
    assert |EMPTY_BODY| == 4 && |s| == e + 4;
    BodyHasNoList(s, e);
  }

  lemma BodyHasNoList(s: string, e: nat)
    requires |s| == e + 4 && s[e..] == EMPTY_BODY
    ensures Scan(PARENTHESES, s, e, 2) == None
  {
    var t := " {}";
    assert |t| == 3 && EMPTY_BODY == ")" + t;
    assert s[e] == EMPTY_BODY[0] == ')' && s[e + 1..e + 1 + 3] == s[e..][1..] == t;
    assert Scan(PARENTHESES, s, e, 2) == Scan(PARENTHESES, s, e + 1, 1);
    ScanPart(PARENTHESES, s, e + 1, t, 1);
    ScanEnd(PARENTHESES, s, 1);
  }

  lemma CallWithoutLists()
    ensures '(' !in "/* " + STREAM && ')' !in "/* " + STREAM && '(' !in "; */" && ')' !in "; */"
    ensures '(' !in "/* " && ')' !in "/* " && '(' !in " */" && ')' !in " */"
  {
    assert '(' !in STREAM && ')' !in STREAM;
  }

  lemma ParenthesisInParts()
    ensures LISTS + Call(PARENTHESIS) + CLOSED_LISTS == "(" + (("/* " + STREAM) + MIDDLE + "; */" + EMPTY_BODY)
    ensures LISTS + CLEARED + CLOSED_LISTS == "(" + ("/* " + CLEARED + " */" + EMPTY_BODY)
  {
    assert LISTS == "(" + "/* " && CLOSED_LISTS == " */" + EMPTY_BODY;
    assert "(" + PARENTHESIS + ");" == MIDDLE + ";" && ";" + CLOSED_LISTS == "; */" + EMPTY_BODY;
  }

  // A parenthesis in the removed text, inside the parameter list: the launcher
  //     void launch_gpu_implementation((/* cudaStreamSynchronize(")"); */) {}
  // is normalized, but not a second time, although no brace is removed.
  method RemovedParenthesisCounts() returns (first: Normalization, second: Normalization)
    ensures !GluedIn(OPENING + LISTS + Call(PARENTHESIS) + CLOSED_LISTS)
    ensures first.Normalized? && first.text == OPENING + LISTS + CLEARED + CLOSED_LISTS
    ensures second == Rejected(UnbalancedDelimiters)
  {
    hide ReadAt, OneCall, Passes, OnlyLauncher, AllBalanced, GluedIn;
    ParenthesisLetters();
    ParenthesisSource();
    ParenthesisResult();
    first, second := FailsTheSecondTime(OPENING + LISTS, PARENTHESIS, CLOSED_LISTS);
  }

  lemma ParenthesisSource()
    ensures var s := OPENING + LISTS + Call(PARENTHESIS) + CLOSED_LISTS; AllBalanced(s) && OnlyLauncher(s, 0, |s|)
  {
    hide ReadAt, OneCall, Headless, OnlyLauncher, HeaderEnd;
    ParenthesisLetters();
    HeadlessLetters();
    CallWithoutLists();
    ParenthesisInParts();
    var s, rest := OPENING + LISTS + Call(PARENTHESIS) + CLOSED_LISTS, LISTS + Call(PARENTHESIS) + CLOSED_LISTS;
    SourceIsHeadless(LISTS, PARENTHESIS, CLOSED_LISTS);
    ListsAroundCall("/* " + STREAM, "; */");
    OpeningIsHeader(rest);
    assert OPENING + rest == s;
    IsOneLauncher(s);
  }

  lemma ParenthesisResult()
    ensures ReadAt(OPENING + LISTS + CLEARED + CLOSED_LISTS, 0) == Broken
  {
    hide ReadAt, Balances;
    CallWithoutLists();
    ParenthesisInParts();
    ReplacementIsBalanced(StreamSync);
    ListsAroundBalanced("/* ", CLEARED, " */");
    assert OPENING + (LISTS + CLEARED + CLOSED_LISTS) == OPENING + LISTS + CLEARED + CLOSED_LISTS;
  }
}
