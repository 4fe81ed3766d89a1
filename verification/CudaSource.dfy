/** Finding the one launcher definition in CUDA source and removing host synchronizations
    from it. */
module CudaSource {
  import opened Characters
  import opened Sequences
  import opened Delimiters
  import opened SourcePatterns
  import opened StreamSynchronization
  import opened LauncherPasses

  const NAME := "launch_gpu_implementation"
  const HEADER: seq<Item> := [Lit("void"), SomeSpaces, Lit(NAME), Spaces, Lit("(")]
  const INLINE_HEADER: seq<Item> := [Lit("inline"), SomeSpaces] + HEADER

  /** The end of the header pattern at p: `inline` is optional and tried first. */
  function HeaderEnd(s: string, p: nat): (r: Option<nat>)
    requires p <= |s|
    ensures r.Some? ==> p <= r.value <= |s|
  {
    if MatchEnd(s, p, INLINE_HEADER).Some? then MatchEnd(s, p, INLINE_HEADER) else MatchEnd(s, p, HEADER)
  }

  /** `str.find` for a character; the length of the text when there is none. */
  function Find(s: string, c: char, p: nat): (r: nat)
    requires p <= |s|
    ensures p <= r <= |s| && (r < |s| ==> s[r] == c)
    ensures forall k :: p <= k < r ==> s[k] != c
    decreases |s| - p
  {
    if p == |s| || s[p] == c then p else Find(s, c, p + 1)
  }

  lemma HeadersAreDeterministic()
    ensures Deterministic(HEADER) && Deterministic(INLINE_HEADER)
  {
  }

  /** The two alternatives of the header pattern exclude each other. */
  lemma HeaderMeaning(s: string, p: nat, e: nat)
    requires p <= |s|
    ensures HeaderEnd(s, p) == Some(e) <==> Matches(s, p, INLINE_HEADER, e) || Matches(s, p, HEADER, e)
  {
    HeadersAreDeterministic();
    ScannerMatches(s, p, INLINE_HEADER, e);
    ScannerMatches(s, p, HEADER, e);
    FirstLetter(s, p, INLINE_HEADER, 'i');
    FirstLetter(s, p, HEADER, 'v');
  }

  lemma FirstLetter(s: string, p: nat, items: seq<Item>, c: char)
    requires p <= |s| && items != [] && items[0].Lit? && items[0].text != "" && items[0].text[0] == c
    ensures MatchEnd(s, p, items).Some? ==> p < |s| && s[p] == c
  {
    if LitAt(s, p, items[0].text) { assert s[p + 0] == items[0].text[0]; }
  }

  // ----- the shape of a header -------------------------------------------------------------

  predicate NoParenthesis(s: string, a: nat, b: nat) {
    forall k :: a <= k < b && k < |s| ==> s[k] != '('
  }

  lemma LiteralWithoutParenthesis(s: string, p: nat, t: string)
    requires LitAt(s, p, t) && forall k :: 0 <= k < |t| ==> t[k] != '('
    ensures NoParenthesis(s, p, p + |t|)
  {
    forall k | p <= k < p + |t| ensures s[k] != '(' { assert s[p + (k - p)] == t[k - p]; }
  }

  /** A literal, then a run of whitespace that the next literal ends. */
  lemma LiteralAndSpaces(s: string, p: nat, items: seq<Item>) returns (a: nat)
    requires p <= |s| && |items| >= 3 && items[0].Lit? && !items[1].Lit? && Solid(items[2])
    requires forall k :: 0 <= k < |items[0].text| ==> items[0].text[k] != '('
    requires MatchEnd(s, p, items).Some?
    ensures p + |items[0].text| <= a <= |s| && NoParenthesis(s, p, a)
    ensures MatchEnd(s, p, items) == MatchEnd(s, a, items[2..])
  {
    LiteralWithoutParenthesis(s, p, items[0].text);
    var rest := items[1..];
    assert rest[0] == items[1] && rest[1..] == items[2..];
    a := SkipSpaces(s, p + |items[0].text|);
  }

  lemma NameHasNoParenthesis()
    ensures forall k :: 0 <= k < |NAME| ==> NAME[k] != '('
  {
  }

  lemma PlainHeaderShape(s: string, p: nat, items: seq<Item>) returns (o: nat)
    requires p <= |s| && |items| == 5 && items[0] == Lit("void") && !items[1].Lit?
    requires items[2] == Lit(NAME) && !items[3].Lit? && items[4] == Lit(['('])
    requires MatchEnd(s, p, items).Some?
    ensures p < o < |s| && s[o] == '(' && MatchEnd(s, p, items) == Some(o + 1) && NoParenthesis(s, p, o)
  {
    NameHasNoParenthesis();
    var n := LiteralAndSpaces(s, p, items);
    var rest := items[2..];
    o := LiteralAndSpaces(s, n, rest);
    assert rest[2..] == [Lit(['('])];
    assert LitAt(s, o, ['(']) && s[o + 0] == ['('][0];
  }

  /** The first parenthesis from the start of a match is the one that ends the match. */
  lemma HeaderParenthesis(s: string, p: nat)
    requires p <= |s| && HeaderEnd(s, p).Some?
    ensures p < HeaderEnd(s, p).value <= |s| && HeaderEnd(s, p).value == Find(s, '(', p) + 1
  {
    var o: nat;
    if MatchEnd(s, p, INLINE_HEADER).Some? {
      assert INLINE_HEADER[2] == HEADER[0] && INLINE_HEADER[2..] == HEADER;
      var v := LiteralAndSpaces(s, p, INLINE_HEADER);
      o := PlainHeaderShape(s, v, HEADER);
    } else {
      o := PlainHeaderShape(s, p, HEADER);
    }
    FirstParenthesis(s, p, o);
  }

  lemma FirstParenthesis(s: string, p: nat, o: nat)
    requires p <= o < |s| && s[o] == '(' && NoParenthesis(s, p, o)
    ensures Find(s, '(', p) == o
  {
  }

  /** The headers that start inside another header end where that one ends. */
  lemma InnerHeader(s: string, p: nat, q: nat)
    requires p <= q <= |s| && HeaderEnd(s, p).Some? && q < HeaderEnd(s, p).value && HeaderEnd(s, q).Some?
    ensures HeaderEnd(s, q) == HeaderEnd(s, p) && Find(s, '(', q) == Find(s, '(', p)
  {
    HeaderParenthesis(s, p);
    HeaderParenthesis(s, q);
    var o := Find(s, '(', p);
    FirstParenthesis(s, q, o);
  }

  // ----- the launcher definition --------------------------------------------------------------

  datatype Reading = NoHeader | Declaration | Definition(end: nat) | Broken

  /** What comes behind a parameter list: a definition has a brace next, whose match ends it. */
  function ReadBody(s: string, close: nat): Reading {
    var cursor := SkipSpaces(s, close + 1);
    if cursor >= |s| || s[cursor] != '{' then Declaration
    else
      match Matching(BRACES, s, cursor)
      case None => Broken
      case Some(brace) => Definition(brace + 1)
  }

  /** What the header at p starts: the parameter list is closed by the parenthesis that
      balances the first one. */
  function ReadAt(s: string, p: nat): (r: Reading)
    requires p <= |s|
  {
    if HeaderEnd(s, p).None? then NoHeader
    else
      match Matching(PARENTHESES, s, Find(s, '(', p))
      case None => Broken
      case Some(close) => ReadBody(s, close)
  }

  lemma HeaderOfReading(s: string, q: nat)
    requires q <= |s|
    ensures ReadAt(s, q) == NoHeader <==> HeaderEnd(s, q).None?
  {
  }

  datatype Launcher = Launcher(start: nat, end: nat) | NotExactlyOne | UnbalancedDelimiters

  ghost predicate AllBalanced(s: string) {
    forall q: nat :: q <= |s| ==> !ReadAt(s, q).Broken?
  }

  /** The only definition: every other header that starts one is a part of its header. */
  ghost predicate OnlyLauncher(s: string, a: nat, b: nat) {
    && a <= |s| && ReadAt(s, a) == Definition(b)
    && forall q: nat :: q <= |s| && ReadAt(s, q).Definition? ==> a <= q < HeaderEnd(s, a).value
  }

  /** Two definitions with different headers. */
  ghost predicate SeveralLaunchers(s: string) {
    exists p: nat, q: nat ::
      && p <= |s| && q <= |s| && ReadAt(s, p).Definition? && ReadAt(s, q).Definition?
      && HeaderEnd(s, p) != HeaderEnd(s, q)
  }

  ghost predicate NoLauncher(s: string) {
    forall q: nat :: q <= |s| ==> !ReadAt(s, q).Definition?
  }

  /** Headers inside one header read the same. */
  lemma InnerReading(s: string, p: nat, q: nat)
    requires p <= q <= |s| && HeaderEnd(s, p).Some? && q < HeaderEnd(s, p).value
    ensures ReadAt(s, q) == NoHeader || (ReadAt(s, q) == ReadAt(s, p) && HeaderEnd(s, q) == HeaderEnd(s, p))
  {
    if HeaderEnd(s, q).Some? { InnerHeader(s, p, q); }
  }

  /** The spans collected from the headers before p: disjoint headers in ascending order. */
  ghost predicate Collected(s: string, spans: seq<(nat, nat)>, p: nat) {
    && (forall k :: 0 <= k < |spans| ==> IsSpan(s, spans[k], p))
    && forall i, j :: 0 <= i < j < |spans| ==> HeaderEnd(s, spans[i].0).value <= spans[j].0
  }

  ghost predicate IsSpan(s: string, span: (nat, nat), p: nat) {
    && span.0 <= |s| && ReadAt(s, span.0) == Definition(span.1)
    && HeaderEnd(s, span.0).Some? && span.0 < HeaderEnd(s, span.0).value <= p
  }

  ghost predicate Covered(s: string, spans: seq<(nat, nat)>, q: nat)
    requires q <= |s|
  {
    && !ReadAt(s, q).Broken?
    && (ReadAt(s, q).Definition? ==> exists k :: 0 <= k < |spans| && Within(s, spans[k].0, q))
  }

  ghost predicate Within(s: string, a: nat, q: nat) {
    a <= q && a <= |s| && HeaderEnd(s, a).Some? && q < HeaderEnd(s, a).value
  }

  /** The spans after the match of the header pattern at p. */
  function Extended(s: string, spans: seq<(nat, nat)>, p: nat): seq<(nat, nat)>
    requires p <= |s|
  {
    match ReadAt(s, p)
    case Definition(end) => spans + [(p, end)]
    case _ => spans
  }

  lemma CoveredAfter(s: string, spans: seq<(nat, nat)>, p: nat, q: nat)
    requires p <= |s| && HeaderEnd(s, p).Some? && !ReadAt(s, p).Broken? && q < HeaderEnd(s, p).value
    requires q < p ==> Covered(s, spans, q)
    ensures Covered(s, Extended(s, spans, p), q)
  {
    var more := Extended(s, spans, p);
    if q < p {
      if ReadAt(s, q).Definition? {
        var k :| 0 <= k < |spans| && Within(s, spans[k].0, q);
        assert more[k] == spans[k];
      }
    } else {
      InnerReading(s, p, q);
      assert ReadAt(s, p).Definition? ==> Within(s, more[|spans|].0, q);
    }
  }

  lemma CollectStep(s: string, spans: seq<(nat, nat)>, p: nat)
    requires p <= |s| && HeaderEnd(s, p).Some? && !ReadAt(s, p).Broken?
    requires Collected(s, spans, p) && forall q: nat :: q < p ==> Covered(s, spans, q)
    ensures p < HeaderEnd(s, p).value <= |s|
    ensures Collected(s, Extended(s, spans, p), HeaderEnd(s, p).value)
    ensures forall q: nat :: q < HeaderEnd(s, p).value ==> Covered(s, Extended(s, spans, p), q)
  {
    HeaderParenthesis(s, p);
    var e := HeaderEnd(s, p).value;
    var more := Extended(s, spans, p);
    forall k | 0 <= k < |more| ensures IsSpan(s, more[k], e) {
      assert k < |spans| ==> IsSpan(s, spans[k], p);
    }
    forall i, j | 0 <= i < j < |more| ensures HeaderEnd(s, more[i].0).value <= more[j].0 {
      assert IsSpan(s, spans[i], p);
    }
    forall q: nat | q < e ensures Covered(s, more, q) {
      CoveredAfter(s, spans, p, q);
    }
  }

  /** The whole text is covered by no span, by one, or by several. */
  lemma Conclude(s: string, spans: seq<(nat, nat)>)
    requires Collected(s, spans, |s|) && forall q: nat :: q < |s| ==> Covered(s, spans, q)
    ensures AllBalanced(s)
    ensures spans == [] ==> NoLauncher(s)
    ensures |spans| == 1 ==> OnlyLauncher(s, spans[0].0, spans[0].1)
    ensures |spans| > 1 ==> SeveralLaunchers(s)
  {
    if HeaderEnd(s, |s|).Some? { HeaderParenthesis(s, |s|); }
    forall q: nat | q <= |s|
      ensures !ReadAt(s, q).Broken?
      ensures ReadAt(s, q).Definition? ==> exists k :: 0 <= k < |spans| && Within(s, spans[k].0, q)
    {
      assert q < |s| ==> Covered(s, spans, q);
    }
    if |spans| == 1 {
      assert IsSpan(s, spans[0], |s|);
    }
    if |spans| > 1 {
      assert IsSpan(s, spans[0], |s|) && IsSpan(s, spans[1], |s|);
      assert HeaderEnd(s, spans[0].0) != HeaderEnd(s, spans[1].0);
    }
  }

  /** At most one span is the only launcher, and then there are not several. */
  lemma OnlyLauncherIsOne(s: string, a: nat, b: nat)
    requires OnlyLauncher(s, a, b)
    ensures !NoLauncher(s) && !SeveralLaunchers(s)
    ensures forall c: nat, d: nat :: OnlyLauncher(s, c, d) ==> c == a && d == b
  {
    forall q: nat | q <= |s| && ReadAt(s, q).Definition?
      ensures HeaderEnd(s, q) == HeaderEnd(s, a)
    {
      InnerReading(s, a, q);
    }
  }

  /** One match of the header pattern. */
  method ReadHeader(source: string, p: nat) returns (r: Reading)
    requires p <= |source| && HeaderEnd(source, p).Some?
    ensures r == ReadAt(source, p) && !r.NoHeader?
  {
    var opening := Find(source, '(', p);
    var closing := MatchingDelimiter(source, opening, PARENTHESES);
    if closing.None? { return Broken; }
    var cursor := closing.value + 1;
    while cursor < |source| && IsSpace(source[cursor])
      invariant closing.value < cursor
      invariant SkipSpaces(source, closing.value + 1) == SkipSpaces(source, cursor)
    {
      cursor := cursor + 1;
    }
    if cursor >= |source| || source[cursor] != '{' { return Declaration; }
    var brace := MatchingDelimiter(source, cursor, BRACES);
    if brace.None? { return Broken; }
    r := Definition(brace.value + 1);
  }

  /** `find_launch_definition`: one definition is found exactly when there is one and all
      headers are balanced. */
  method FindLaunchDefinition(source: string) returns (r: Launcher)
    ensures r == UnbalancedDelimiters <==> !AllBalanced(source)
    ensures r == NotExactlyOne <==> AllBalanced(source) && (NoLauncher(source) || SeveralLaunchers(source))
    ensures forall a: nat, b: nat :: r == Launcher(a, b) <==> AllBalanced(source) && OnlyLauncher(source, a, b)
  {
    hide HeaderEnd, ReadAt;
    var spans: seq<(nat, nat)> := [];
    var p := 0;
    while p < |source|
      invariant p <= |source|
      invariant Collected(source, spans, p)
      invariant forall q: nat :: q < p ==> Covered(source, spans, q)
    {
      var header := HeaderEnd(source, p);
      if header.Some? {
        HeaderParenthesis(source, p);
        var reading := ReadHeader(source, p);
        if reading.Broken? {
          return UnbalancedDelimiters;
        }
        CollectStep(source, spans, p);
        if reading.Definition? {
          spans := spans + [(p, reading.end)];
        }
        p := header.value;
      } else {
        HeaderOfReading(source, p);
        p := p + 1;
      }
    }
    Conclude(source, spans);
    if |spans| != 1 {
      forall a: nat, b: nat | OnlyLauncher(source, a, b) ensures false { OnlyLauncherIsOne(source, a, b); }
      return NotExactlyOne;
    }
    OnlyLauncherIsOne(source, spans[0].0, spans[0].1);
    r := Launcher(spans[0].0, spans[0].1);
  }

  // ----- normalization --------------------------------------------------------------------------

  lemma SpanIsInside(s: string, a: nat)
    requires a <= |s| && ReadAt(s, a).Definition?
    ensures a < ReadAt(s, a).end <= |s|
  {
    var opening := Find(s, '(', a);
    HeaderParenthesis(s, a);
    ScanMeaning(PARENTHESES, s, opening, opening);
    var close := Matching(PARENTHESES, s, opening).value;
    var cursor := SkipSpaces(s, close + 1);
    ScanMeaning(BRACES, s, cursor, cursor);
  }

  datatype Normalization = Normalized(text: string, applied: seq<Rule>) | Rejected(reason: Launcher)

  /** The contract of `normalize_cuda_source` for the launcher source[a..b]: only that span is
      rewritten, no device synchronization of any form remains in it, stream
      synchronizations remain exactly when names were glued, and without a label nothing
      has changed. */
  ghost predicate RewritesOnly(source: string, a: nat, b: nat, r: Normalization) {
    && a <= b <= |source| && r.Normalized?
    && r.text == source[..a] + Cleaned(source[a..b]) + source[b..]
    && FreeOfDeviceSync(Cleaned(source[a..b]))
    && (HasStreamSync(Cleaned(source[a..b])) <==> GluedIn(source[a..b]))
    && r.applied == Labels(source[a..b])
    && (r.applied == [] ==> r.text == source)
  }

  /** The passes over the launcher. */
  method RewriteLauncher(launcher: string) returns (text: string, applied: seq<Rule>)
    ensures text == Cleaned(launcher) && applied == Labels(launcher)
    ensures FreeOfDeviceSync(text) && (HasStreamSync(text) <==> GluedIn(launcher))
    ensures applied == [] ==> text == launcher
  {
    CleanedHasNoDeviceSync(launcher);
    CleanedStreamSync(launcher);
    text, applied := launcher, [];
    var k := 0;
    while k < |RULES|
      invariant k <= |RULES|
      invariant (text, applied) == Passes(launcher, k)
    {
      var (next, count) := Subn(RULES[k], text, 0);
      assert Passes(launcher, k + 1) == (next, applied + Repeat(RULES[k], count));
      assert applied + [] == applied;
      if count > 0 {
        applied := applied + Repeat(RULES[k], count);
      }
      text := next;
      k := k + 1;
    }
    if applied == [] {
      UnlabelledIsUnchanged(launcher, |RULES|);
    }
  }

  /** `normalize_cuda_source`. */
  method NormalizeCudaSource(source: string) returns (r: Normalization)
    ensures !AllBalanced(source) ==> r == Rejected(UnbalancedDelimiters)
    ensures AllBalanced(source) && (NoLauncher(source) || SeveralLaunchers(source)) ==> r == Rejected(NotExactlyOne)
    ensures r.Normalized? <==> AllBalanced(source) && exists a: nat, b: nat :: OnlyLauncher(source, a, b)
    ensures forall a: nat, b: nat ::
      AllBalanced(source) && OnlyLauncher(source, a, b) ==> RewritesOnly(source, a, b, r)
  {
    var found := FindLaunchDefinition(source);
    if !found.Launcher? {
      return Rejected(found);
    }
    var start, end := found.start, found.end;
    assert OnlyLauncher(source, start, end);
    SpanIsInside(source, start);
    var launcher, applied := RewriteLauncher(source[start..end]);
    SplitAround(source, start, end);
    r := Normalized(source[..start] + launcher + source[end..], applied);
    assert RewritesOnly(source, start, end, r);
  }
}
