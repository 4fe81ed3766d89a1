/** The regular expressions of the source normalization, as explicit scanners.

    Each is a list of literals and runs of whitespace; a run is always followed by a literal
    that does not start with whitespace, so matching needs no backtracking.  The scanners
    are shown to mean what the expressions mean. */
module SourcePatterns {
  import opened Characters
  import opened Sequences
  import opened Delimiters

  datatype Item = Lit(text: string) | Spaces | SomeSpaces

  predicate LitAt(s: string, p: nat, t: string) {
    p + |t| <= |s| && forall j :: 0 <= j < |t| ==> s[p + j] == t[j]
  }

  /** Where one item's match from position p ends. */
  function ItemEnd(s: string, p: nat, item: Item): (r: Option<nat>)
    requires p <= |s|
    ensures r.Some? ==> p <= r.value <= |s|
  {
    match item
    case Lit(t) => if LitAt(s, p, t) then Some(p + |t|) else None
    case Spaces => Some(SkipSpaces(s, p))
    case SomeSpaces => if SkipSpaces(s, p) > p then Some(SkipSpaces(s, p)) else None
  }

  /** Where the match of the items from position p ends. */
  function MatchEnd(s: string, p: nat, items: seq<Item>): (r: Option<nat>)
    requires p <= |s|
    ensures r.Some? ==> p <= r.value <= |s|
    decreases |items|
  {
    if items == [] then Some(p)
    else
      match ItemEnd(s, p, items[0])
      case None => None
      case Some(k) => MatchEnd(s, k, items[1..])
  }

  predicate Solid(item: Item) { item.Lit? && item.text != "" && !IsSpace(item.text[0]) }

  /** Every run of whitespace is followed by a literal that starts with something else. */
  ghost predicate Deterministic(items: seq<Item>) {
    forall i :: 0 <= i < |items| && !items[i].Lit? ==> i + 1 < |items| && Solid(items[i + 1])
  }

  lemma DeterministicTail(items: seq<Item>)
    requires Deterministic(items) && items != []
    ensures Deterministic(items[1..])
  {
    forall i | 0 <= i < |items[1..]| && !items[1..][i].Lit?
      ensures i + 1 < |items[1..]| && Solid(items[1..][i + 1])
    {
      assert items[1..][i] == items[i + 1] && Solid(items[i + 2]);
    }
  }

  lemma {:induction false} SkipIs(w: string, p: nat, k: nat)
    requires p <= k < |w| && !IsSpace(w[k]) && forall j :: p <= j < k ==> IsSpace(w[j])
    ensures SkipSpaces(w, p) == k
    decreases k - p
  {
    if p < k { SkipIs(w, p + 1, k); }
  }

  /** A match from p in s ends where the match from p + d in w ends, when w repeats there
      the text that the match consumes. */
  lemma {:induction false} MatchCopied(s: string, p: nat, items: seq<Item>, w: string, d: int)
    requires p <= |s| && Deterministic(items) && MatchEnd(s, p, items).Some?
    requires 0 <= p + d && MatchEnd(s, p, items).value + d <= |w|
    requires forall k :: p <= k < MatchEnd(s, p, items).value ==> s[k] == w[k + d]
    ensures MatchEnd(w, p + d, items) == Some(MatchEnd(s, p, items).value + d)
    decreases |items|
  {
    if items != [] {
      var k := ItemEnd(s, p, items[0]).value;
      DeterministicTail(items);
      MatchCopied(s, k, items[1..], w, d);
      if !items[0].Lit? {
        assert items[1..][0] == items[1] && Solid(items[1]);
        assert LitAt(s, k, items[1].text) && s[k + 0] == items[1].text[0];
        SkipCopied(s, p, w, d);
      } else {
        LitCopied(s, p, items[0].text, w, d);
      }
    }
  }

  lemma LitCopied(s: string, p: nat, t: string, w: string, d: int)
    requires LitAt(s, p, t) && 0 <= p + d && p + |t| + d <= |w|
    requires forall k :: p <= k < p + |t| ==> s[k] == w[k + d]
    ensures LitAt(w, p + d, t)
  {
    forall j | 0 <= j < |t| ensures w[p + d + j] == t[j] {
      assert s[p + j] == t[j] && s[p + j] == w[p + j + d];
    }
  }

  lemma SkipCopied(s: string, p: nat, w: string, d: int)
    requires p <= |s| && SkipSpaces(s, p) < |s| && 0 <= p + d && SkipSpaces(s, p) + d < |w|
    requires forall k :: p <= k <= SkipSpaces(s, p) ==> s[k] == w[k + d]
    ensures SkipSpaces(w, p + d) == SkipSpaces(s, p) + d
  {
    forall j | p + d <= j < SkipSpaces(s, p) + d ensures IsSpace(w[j]) {
      assert s[j - d] == w[j - d + d];
    }
    SkipIs(w, p + d, SkipSpaces(s, p) + d);
  }

  // ----- what the scanner means ------------------------------------------------------------

  /** The regular-expression meaning of an item: a run may have any length. */
  predicate ItemMatches(s: string, p: nat, item: Item, k: nat) {
    && p <= k <= |s|
    && match item
       case Lit(t) => k == p + |t| && LitAt(s, p, t)
       case Spaces => AllSpaces(s, p, k)
       case SomeSpaces => p < k && AllSpaces(s, p, k)
  }

  predicate AllSpaces(s: string, p: nat, k: nat)
    requires p <= k <= |s|
  {
    forall j :: p <= j < k ==> IsSpace(s[j])
  }

  /** Some way of splitting s[p..e] matches the items one after the other. */
  ghost predicate Matches(s: string, p: nat, items: seq<Item>, e: nat)
    decreases |items|
  {
    if items == [] then p == e <= |s|
    else exists k: nat :: ItemMatches(s, p, items[0], k) && Matches(s, k, items[1..], e)
  }

  /** A run that a solid literal follows is the whole run. */
  lemma RunIsMaximal(s: string, p: nat, items: seq<Item>, k: nat, e: nat)
    requires |items| >= 2 && !items[0].Lit? && Solid(items[1])
    requires ItemMatches(s, p, items[0], k) && Matches(s, k, items[1..], e)
    ensures k == SkipSpaces(s, p)
  {
    var rest := items[1..];
    var m: nat :| ItemMatches(s, k, rest[0], m) && Matches(s, m, rest[1..], e);
    assert s[k + 0] == rest[0].text[0];
    SkipIs(s, p, k);
  }

  /** The scanner finds exactly the match that the regular expression has. */
  lemma {:induction false} ScannerMatches(s: string, p: nat, items: seq<Item>, e: nat)
    requires p <= |s| && Deterministic(items)
    ensures Matches(s, p, items, e) <==> MatchEnd(s, p, items) == Some(e)
    decreases |items|
  {
    if items != [] {
      DeterministicTail(items);
      var end := ItemEnd(s, p, items[0]);
      if end.Some? { ScannerMatches(s, end.value, items[1..], e); }
      if Matches(s, p, items, e) {
        var k: nat :| ItemMatches(s, p, items[0], k) && Matches(s, k, items[1..], e);
        if !items[0].Lit? { RunIsMaximal(s, p, items, k, e); }
      }
      if MatchEnd(s, p, items) == Some(e) {
        assert ItemMatches(s, p, items[0], end.value);
      }
    }
  }

  // ----- the four replacement rules ------------------------------------------------------

  datatype Rule = RequireCuda | CudaCheck | DeviceSync | StreamSync

  /** `()` with whitespace and a semicolon: the rest of a statement-form call. */
  const EMPTY_CALL: seq<Item> := [Lit("("), Spaces, Lit(")"), Spaces, Lit(";")]

  const SYNC: seq<Item> := [Lit("cudaDeviceSynchronize"), Spaces] + EMPTY_CALL

  const NESTED_SYNC: seq<Item> := [
    Lit("cudaDeviceSynchronize"), Spaces, Lit("("), Spaces, Lit(")"), Spaces, Lit(")"), Spaces, Lit(";")]

  const REQUIRE: seq<Item> := [
    Lit("require_cuda"), Spaces, Lit("("), Spaces, Lit("\"cudaDeviceSynchronize\""), Spaces, Lit(","), Spaces]
    + NESTED_SYNC

  const CHECK: seq<Item> := [Lit("CUDA_CHECK"), Spaces, Lit("("), Spaces] + NESTED_SYNC

  const STREAM_HEAD: seq<Item> := [Lit("cudaStreamSynchronize"), Spaces, Lit("(")]

  const CLOSE: seq<Item> := [Lit(")"), Spaces, Lit(";")]

  predicate MatchAt(items: seq<Item>, s: string, p: nat)
    requires p <= |s|
  {
    MatchEnd(s, p, items).Some?
  }

  /** The end of the shortest run without semicolons that a closing pattern ends. */
  function LazyEnd(s: string, p: nat, closing: seq<Item>): (r: Option<nat>)
    requires p <= |s|
    ensures r.Some? ==> p <= r.value <= |s|
    decreases |s| - p
  {
    if p == |s| then None
    else if MatchAt(closing, s, p) then MatchEnd(s, p, closing)
    else if s[p] == ';' then None
    else LazyEnd(s, p + 1, closing)
  }

  /** Position m closes the run from p on, and no earlier one does. */
  ghost predicate FirstClosing(s: string, p: nat, m: nat, closing: seq<Item>) {
    && p <= m < |s| && MatchAt(closing, s, m)
    && forall j :: p <= j < m ==> s[j] != ';' && !MatchAt(closing, s, j)
  }

  /** The end of the first closing after a run without semicolons. */
  lemma {:induction false} LazyEndIsFirst(s: string, p: nat, m: nat, closing: seq<Item>)
    requires FirstClosing(s, p, m, closing)
    ensures LazyEnd(s, p, closing) == MatchEnd(s, m, closing)
    decreases m - p
  {
    if p < m {
      assert FirstClosing(s, p + 1, m, closing);
      LazyEndIsFirst(s, p + 1, m, closing);
    }
  }

  /** Without an end, no closing can be reached without passing a semicolon. */
  lemma {:induction false} NoLazyEnd(s: string, p: nat, m: nat, closing: seq<Item>)
    requires p <= m < |s| && LazyEnd(s, p, closing).None? && forall j :: p <= j < m ==> s[j] != ';'
    ensures !MatchAt(closing, s, m)
    decreases m - p
  {
    if p < m { NoLazyEnd(s, p + 1, m, closing); }
  }

  /** Where the shortest run ends when there is one. */
  lemma {:induction false} LazyEndFound(s: string, p: nat, closing: seq<Item>) returns (m: nat)
    requires p <= |s| && LazyEnd(s, p, closing).Some?
    ensures FirstClosing(s, p, m, closing) && LazyEnd(s, p, closing) == MatchEnd(s, m, closing)
    decreases |s| - p
  {
    assert p < |s|;
    m := p;
    if !MatchAt(closing, s, p) { m := LazyEndFound(s, p + 1, closing); }
  }

  lemma RequireIsDeterministic()
    ensures Deterministic(REQUIRE)
  {
    var head := [
      Lit("require_cuda"), Spaces, Lit("("), Spaces, Lit("\"cudaDeviceSynchronize\""), Spaces, Lit(","), Spaces];
    assert REQUIRE == head + NESTED_SYNC;
    assert head[2].text == "(" && head[4].text[0] == '"' && head[6].text == ",";
    NestedIsDeterministic();
    DeterministicConcat(head, NESTED_SYNC);
  }

  lemma DeterministicConcat(a: seq<Item>, b: seq<Item>)
    requires forall i :: 0 <= i < |a| && !a[i].Lit? ==> i + 1 == |a| || Solid(a[i + 1])
    requires b != [] && Solid(b[0]) && Deterministic(b)
    ensures Deterministic(a + b)
  {
    var c := a + b;
    forall i | 0 <= i < |c| && !c[i].Lit? ensures i + 1 < |c| && Solid(c[i + 1]) {
      if i >= |a| { assert c[i] == b[i - |a|]; }
    }
  }

  lemma NestedIsDeterministic()
    ensures Deterministic(NESTED_SYNC)
  {
  }

  lemma CheckIsDeterministic()
    ensures Deterministic(CHECK)
  {
  }

  lemma SyncIsDeterministic()
    ensures Deterministic(SYNC)
  {
  }

  lemma StreamIsDeterministic()
    ensures Deterministic(STREAM_HEAD) && Deterministic(CLOSE)
  {
  }

  /** The stream pattern as a regular expression: its head, a run without semicolons and
      its closing. */
  ghost predicate StreamText(s: string, p: nat, h: nat, m: nat, e: nat) {
    && Matches(s, p, STREAM_HEAD, h) && h <= m <= |s| && Matches(s, m, CLOSE, e)
    && forall j :: h <= j < m ==> s[j] != ';'
  }

  /** The run is lazy: no shorter one can be closed. */
  ghost predicate ShortestStreamText(s: string, p: nat, h: nat, m: nat, e: nat) {
    && StreamText(s, p, h, m, e)
    && forall m': nat, e': nat :: m' < m ==> !StreamText(s, p, h, m', e')
  }

  lemma ClosingMeans(s: string, m: nat, e: nat)
    requires m <= |s|
    ensures Matches(s, m, CLOSE, e) <==> MatchEnd(s, m, CLOSE) == Some(e)
    ensures Matches(s, m, CLOSE, e) ==> m < |s| && s[m] == ')'
  {
    StreamIsDeterministic();
    ScannerMatches(s, m, CLOSE, e);
    if LitAt(s, m, ")") { assert s[m + 0] == ")"[0]; }
  }

  /** The stream rule means its pattern, with the lazy run as short as possible. */
  lemma StreamPatternMatches(s: string, p: nat, e: nat)
    requires p <= |s|
    ensures RuleEnd(StreamSync, s, p) == Some(e) <==>
      exists h: nat, m: nat :: ShortestStreamText(s, p, h, m, e)
  {
    if RuleEnd(StreamSync, s, p) == Some(e) {
      var h := MatchEnd(s, p, STREAM_HEAD).value;
      var m := LazyEndFound(s, h, CLOSE);
      StreamIsDeterministic();
      ScannerMatches(s, p, STREAM_HEAD, h);
      ClosingMeans(s, m, e);
      forall m': nat, e': nat | m' < m ensures !StreamText(s, p, h, m', e') {
        if StreamText(s, p, h, m', e') { ClosingMeans(s, m', e'); }
      }
      assert ShortestStreamText(s, p, h, m, e);
    }
    if h: nat, m: nat :| ShortestStreamText(s, p, h, m, e) {
      ShortestIsScanned(s, p, h, m, e);
    }
  }

  lemma StreamTextParts(s: string, p: nat, h: nat, m: nat, e: nat)
    requires StreamText(s, p, h, m, e)
    ensures Matches(s, p, STREAM_HEAD, h) && h <= m <= |s| && Matches(s, m, CLOSE, e)
    ensures forall j :: h <= j < m ==> s[j] != ';'
  {
  }

  lemma EarlierText(s: string, p: nat, h: nat, m: nat, e: nat, j: nat, e': nat)
    requires StreamText(s, p, h, m, e) && h <= j <= m && Matches(s, j, CLOSE, e')
    ensures StreamText(s, p, h, j, e')
  {
  }

  lemma ShortestIsScanned(s: string, p: nat, h: nat, m: nat, e: nat)
    requires p <= |s| && ShortestStreamText(s, p, h, m, e)
    ensures RuleEnd(StreamSync, s, p) == Some(e)
  {
    hide LazyEnd, ItemEnd, Matches, StreamText;
    StreamTextParts(s, p, h, m, e);
    StreamIsDeterministic();
    ScannerMatches(s, p, STREAM_HEAD, h);
    ClosingMeans(s, m, e);
    forall j | h <= j < m ensures !MatchAt(CLOSE, s, j) {
      if MatchAt(CLOSE, s, j) {
        ClosingMeans(s, j, MatchEnd(s, j, CLOSE).value);
        EarlierText(s, p, h, m, e, j, MatchEnd(s, j, CLOSE).value);
      }
    }
    assert FirstClosing(s, h, m, CLOSE);
    LazyEndIsFirst(s, h, m, CLOSE);
  }

  /** Every pattern of the rules means what its scanner finds. */
  lemma RulePatternsMatch(s: string, p: nat, e: nat)
    requires p <= |s|
    ensures RuleEnd(RequireCuda, s, p) == Some(e) <==> Matches(s, p, REQUIRE, e)
    ensures RuleEnd(CudaCheck, s, p) == Some(e) <==> Matches(s, p, CHECK, e)
    ensures RuleEnd(DeviceSync, s, p) == Some(e) <==> Matches(s, p, SYNC, e)
  {
    RequireIsDeterministic();
    CheckIsDeterministic();
    SyncIsDeterministic();
    ScannerMatches(s, p, REQUIRE, e);
    ScannerMatches(s, p, CHECK, e);
    ScannerMatches(s, p, SYNC, e);
  }

  function RuleEnd(rule: Rule, s: string, p: nat): (r: Option<nat>)
    requires p <= |s|
    ensures r.Some? ==> p <= r.value <= |s|
  {
    match rule
    case RequireCuda => MatchEnd(s, p, REQUIRE)
    case CudaCheck => MatchEnd(s, p, CHECK)
    case DeviceSync => MatchEnd(s, p, SYNC)
    case StreamSync =>
      match MatchEnd(s, p, STREAM_HEAD)
      case None => None
      case Some(h) => LazyEnd(s, h, CLOSE)
  }

  const CLEARED: string := "(void)cudaGetLastError();"

  const QUOTED := "require_cuda(\"cudaGetLastError\", "
  const LAST_CALL := "cudaGetLastError());"

  function Replacement(rule: Rule): string {
    match rule
    case RequireCuda => QUOTED + LAST_CALL
    case CudaCheck => "CUDA_CHECK(cudaGetLastError());"
    case DeviceSync => CLEARED
    case StreamSync => CLEARED
  }

  /** A match at p; the patterns are never empty. */
  predicate Hit(rule: Rule, s: string, p: nat)
    requires p <= |s|
  {
    RuleEnd(rule, s, p).Some? && RuleEnd(rule, s, p).value > p
  }

  /** `pattern.subn` from position p on: the text with all matches replaced from left to
      right, and the number of replacements. */
  function Subn(rule: Rule, s: string, p: nat): (string, nat)
    requires p <= |s|
    decreases |s| - p
  {
    if p == |s| then ("", 0)
    else if Hit(rule, s, p) then
      var (t, k) := Subn(rule, s, RuleEnd(rule, s, p).value);
      (Replacement(rule) + t, k + 1)
    else
      var (t, k) := Subn(rule, s, p + 1);
      ([s[p]] + t, k)
  }

  lemma CountStep(rule: Rule, s: string, p: nat)
    requires p < |s|
    ensures Hit(rule, s, p) ==> Subn(rule, s, p).1 > 0
    ensures !Hit(rule, s, p) ==> Subn(rule, s, p).1 == Subn(rule, s, p + 1).1
  {
  }

  /** A pass that replaces nothing has no match anywhere. */
  lemma {:induction false} NoMatchWithoutReplacement(rule: Rule, s: string, p: nat, q: nat)
    requires p <= q < |s| && Subn(rule, s, p).1 == 0
    ensures !Hit(rule, s, q)
    decreases q - p
  {
    hide Subn, RuleEnd;
    CountStep(rule, s, p);
    if p < q { NoMatchWithoutReplacement(rule, s, p + 1, q); }
  }

  /** A pass that replaces something has a match somewhere. */
  lemma {:induction false} MatchOfReplacement(rule: Rule, s: string, p: nat) returns (q: nat)
    requires p <= |s| && Subn(rule, s, p).1 > 0
    ensures p <= q < |s| && Hit(rule, s, q)
    decreases |s| - p
  {
    CountStep(rule, s, p);
    q := p;
    if !Hit(rule, s, p) { q := MatchOfReplacement(rule, s, p + 1); }
  }

  /** A pass without replacements changes nothing. */
  lemma {:induction false} NothingReplacedIsUnchanged(rule: Rule, s: string, p: nat)
    requires p <= |s| && Subn(rule, s, p).1 == 0
    ensures Subn(rule, s, p).0 == s[p..]
    decreases |s| - p
  {
    if p < |s| {
      assert !Hit(rule, s, p);
      NothingReplacedIsUnchanged(rule, s, p + 1);
      DropHead(s, p);
    }
  }

  // ----- what a pass leaves ------------------------------------------------------------------

  /** The pattern matches nowhere in the text. */
  ghost predicate FreeOf(items: seq<Item>, s: string) {
    forall p: nat :: p <= |s| ==> !MatchAt(items, s, p)
  }

  /** The letter of `cudaGetLastError` that no pattern has. */
  const MARK := 'G'

  /** A pattern of two letters or more that ends with a semicolon and lacks the mark. */
  ghost predicate Terminated(items: seq<Item>) {
    && Deterministic(items) && items != [] && items[|items| - 1] == Lit([';'])
    && items[0].Lit? && |items[0].text| >= 2
    && forall i :: 0 <= i < |items| && items[i].Lit? ==> MARK !in items[i].text
  }

  /** The mark at g comes before any semicolon, and no match starts behind it. */
  ghost predicate Shields(r: string, g: nat, items: seq<Item>)
    requires items != [] && items[0].Lit? && |items[0].text| >= 2
  {
    && g < |r| && r[g] == MARK && (forall j :: 0 <= j < g ==> r[j] != ';')
    && forall j :: g < j < |r| ==>
         r[j] != items[0].text[0] || (j + 1 < |r| && r[j + 1] != items[0].text[1])
  }

  lemma {:induction false} MatchedText(s: string, p: nat, items: seq<Item>, k: nat)
    requires p <= |s| && MatchAt(items, s, p) && p <= k < MatchEnd(s, p, items).value
    requires forall i :: 0 <= i < |items| && items[i].Lit? ==> MARK !in items[i].text
    ensures s[k] != MARK
    decreases |items|
  {
    if items != [] {
      var e := ItemEnd(s, p, items[0]).value;
      if k >= e {
        MatchedText(s, e, items[1..], k);
      } else if items[0].Lit? {
        assert s[p + (k - p)] == items[0].text[k - p];
      }
    }
  }

  lemma {:induction false} MatchedEnd(s: string, p: nat, items: seq<Item>)
    requires p <= |s| && MatchAt(items, s, p) && items != [] && items[|items| - 1] == Lit([';'])
    ensures p < MatchEnd(s, p, items).value && s[MatchEnd(s, p, items).value - 1] == ';'
    decreases |items|
  {
    if |items| == 1 {
      assert items[1..] == [] && LitAt(s, p, [';']) && s[p + 0] == [';'][0];
    } else {
      MatchedEnd(s, ItemEnd(s, p, items[0]).value, items[1..]);
    }
  }

  lemma NoMatchAtEnd(s: string, items: seq<Item>)
    requires Terminated(items)
    ensures !MatchAt(items, s, |s|)
  {
    if MatchAt(items, s, |s|) { MatchedEnd(s, |s|, items); }
  }

  lemma StopsBeforeMark(v: string, n: nat, g: nat, q: nat, items: seq<Item>)
    requires Terminated(items) && q <= n + g < |v| && v[n + g] == MARK && MatchAt(items, v, q)
    requires forall j :: n <= j < n + g ==> v[j] != ';'
    ensures q < n && MatchEnd(v, q, items).value <= n
  {
    MatchedEnd(v, q, items);
    if MatchEnd(v, q, items).value > n + g { MatchedText(v, q, items, n + g); }
  }

  lemma InsertedText(u: string, r: string, t: string, g: nat)
    requires g < |r|
    ensures var v := u + r + t;
            |u| + g < |v| && v[|u| + g] == r[g] && forall j :: 0 <= j < g ==> v[|u| + j] == r[j]
  {
  }

  /** A match that starts before an inserted text ends before it. */
  lemma StopsBeforeInserted(u: string, r: string, t: string, g: nat, q: nat, items: seq<Item>)
    requires Terminated(items) && Shields(r, g, items) && q <= |u| + g && MatchAt(items, u + r + t, q)
    ensures q < |u| && MatchEnd(u + r + t, q, items).value <= |u|
  {
    var v := u + r + t;
    InsertedText(u, r, t, g);
    forall j | |u| <= j < |u| + g ensures v[j] != ';' { assert v[|u| + (j - |u|)] == r[j - |u|]; }
    StopsBeforeMark(v, |u|, g, q, items);
  }

  /** No match starts inside an inserted text. */
  lemma NoMatchInside(r: string, t: string, g: nat, q: nat, items: seq<Item>)
    requires Terminated(items) && Shields(r, g, items) && q < |r|
    ensures !MatchAt(items, r + t, q)
  {
    if MatchAt(items, r + t, q) {
      if q <= g {
        assert "" + r + t == r + t;
        StopsBeforeInserted("", r, t, g, q, items);
      } else {
        FirstLetters(r + t, q, items);
      }
    }
  }

  lemma FirstLetters(s: string, q: nat, items: seq<Item>)
    requires q <= |s| && items != [] && items[0].Lit? && |items[0].text| >= 2 && MatchAt(items, s, q)
    ensures q + 1 < |s| && s[q] == items[0].text[0] && s[q + 1] == items[0].text[1]
  {
    assert s[q + 0] == items[0].text[0] && s[q + 1] == items[0].text[1];
  }

  lemma MatchBeforeInserted(u: string, r: string, t: string, rest: string, g: nat, q: nat, items: seq<Item>)
    requires Terminated(items) && Shields(r, g, items) && q <= |u| && MatchAt(items, u + r + t, q)
    ensures MatchAt(items, u + rest, q)
  {
    StopsBeforeInserted(u, r, t, g, q, items);
    MatchCopied(u + r + t, q, items, u + rest, 0);
  }

  /** A match that starts in a kept prefix was there before the replacements. */
  lemma {:induction false} MatchWasThere(rule: Rule, s: string, p: nat, u: string, g: nat, q: nat, items: seq<Item>)
    requires Terminated(items) && Shields(Replacement(rule), g, items) && p <= |s| && q <= |u|
    requires MatchAt(items, u + Subn(rule, s, p).0, q)
    ensures MatchAt(items, u + s[p..], q)
    decreases |s| - p
  {
    if p == |s| {
      assert s[p..] == "";
    } else if Hit(rule, s, p) {
      var t := Subn(rule, s, RuleEnd(rule, s, p).value).0;
      ConcatIsAssociative(u, Replacement(rule), t);
      MatchBeforeInserted(u, Replacement(rule), t, s[p..], g, q, items);
    } else {
      ConcatIsAssociative(u, [s[p]], Subn(rule, s, p + 1).0);
      ConcatIsAssociative(u, [s[p]], s[p + 1..]);
      DropHead(s, p);
      MatchWasThere(rule, s, p + 1, u + [s[p]], g, q, items);
    }
  }

  lemma FreeAfterPrefix(head: string, t: string, items: seq<Item>)
    requires Deterministic(items) && FreeOf(items, t)
    requires forall q: nat :: q < |head| ==> !MatchAt(items, head + t, q)
    ensures FreeOf(items, head + t)
  {
    forall q: nat | |head| <= q <= |head + t| ensures !MatchAt(items, head + t, q) {
      assert !MatchAt(items, t, q - |head|);
      if MatchAt(items, head + t, q) {
        MatchCopied(head + t, q, items, t, -|head|);
      }
    }
  }

  lemma FreeAfterKept(c: char, t: string, items: seq<Item>)
    requires Deterministic(items) && FreeOf(items, t) && !MatchAt(items, [c] + t, 0)
    ensures FreeOf(items, [c] + t)
  {
    FreeAfterPrefix([c], t, items);
  }

  lemma FreeAfterInserted(r: string, t: string, g: nat, items: seq<Item>)
    requires Terminated(items) && Shields(r, g, items) && FreeOf(items, t)
    ensures FreeOf(items, r + t)
  {
    forall q: nat | q < |r| ensures !MatchAt(items, r + t, q) {
      NoMatchInside(r, t, g, q, items);
    }
    FreeAfterPrefix(r, t, items);
  }

  lemma EmptyTextIsFree(items: seq<Item>)
    requires Terminated(items)
    ensures FreeOf(items, "")
  {
    NoMatchAtEnd("", items);
  }

  lemma FreeAfterStep(rule: Rule, s: string, p: nat, g: nat, items: seq<Item>)
    requires Terminated(items) && Shields(Replacement(rule), g, items) && OnlyReplaced(rule, items, s)
    requires p < |s|
    requires FreeOf(items, Subn(rule, s, if Hit(rule, s, p) then RuleEnd(rule, s, p).value else p + 1).0)
    ensures FreeOf(items, Subn(rule, s, p).0)
  {
    if Hit(rule, s, p) {
      FreeAfterInserted(Replacement(rule), Subn(rule, s, RuleEnd(rule, s, p).value).0, g, items);
    } else {
      NoMatchWhereKept(rule, s, p, g, items);
      FreeAfterKept(s[p], Subn(rule, s, p + 1).0, items);
    }
  }

  /** Wherever the pattern matches, the rule replaces. */
  ghost predicate OnlyReplaced(rule: Rule, items: seq<Item>, s: string) {
    forall q: nat :: q <= |s| && MatchAt(items, s, q) ==> Hit(rule, s, q)
  }

  lemma NoMatchWhereKept(rule: Rule, s: string, p: nat, g: nat, items: seq<Item>)
    requires Terminated(items) && Shields(Replacement(rule), g, items) && OnlyReplaced(rule, items, s)
    requires p < |s| && !Hit(rule, s, p)
    ensures !MatchAt(items, Subn(rule, s, p).0, 0)
  {
    var out := Subn(rule, s, p).0;
    assert "" + out == out;
    if MatchAt(items, out, 0) {
      MatchWasThere(rule, s, p, "", g, 0, items);
      MatchCopied("" + s[p..], 0, items, s, p);
    }
  }

  /** A pass leaves no match of a pattern whose matches it replaces, and creates none of a
      pattern that has no match before it. */
  lemma {:induction false} PassLeavesNone(rule: Rule, s: string, p: nat, g: nat, items: seq<Item>)
    requires Terminated(items) && Shields(Replacement(rule), g, items) && OnlyReplaced(rule, items, s)
    requires p <= |s|
    ensures FreeOf(items, Subn(rule, s, p).0)
    decreases |s| - p
  {
    if p == |s| {
      EmptyTextIsFree(items);
    } else {
      PassLeavesNone(rule, s, if Hit(rule, s, p) then RuleEnd(rule, s, p).value else p + 1, g, items);
      FreeAfterStep(rule, s, p, g, items);
    }
  }

  lemma FreeIsOnlyReplaced(rule: Rule, s: string, items: seq<Item>)
    requires FreeOf(items, s)
    ensures OnlyReplaced(rule, items, s)
  {
  }

  // ----- the patterns and the replacement texts -------------------------------------------------

  lemma NamesLackTheMark()
    ensures MARK !in "cudaDeviceSynchronize" && MARK !in "\"cudaDeviceSynchronize\""
    ensures MARK !in "require_cuda" && MARK !in "CUDA_CHECK"
  {
  }

  lemma RequireIsTerminated()
    ensures Terminated(REQUIRE)
  {
    RequireIsDeterministic();
    NamesLackTheMark();
  }

  lemma CheckIsTerminated()
    ensures Terminated(CHECK)
  {
    CheckIsDeterministic();
    NamesLackTheMark();
  }

  lemma SyncIsTerminated()
    ensures Terminated(SYNC)
  {
    SyncIsDeterministic();
    NamesLackTheMark();
  }

  lemma RequireTextShields()
    ensures Shields(Replacement(RequireCuda), 37, REQUIRE)
  {
    assert |QUOTED| == 33 && |LAST_CALL| == 20;
    assert forall j :: 0 <= j < 33 ==> QUOTED[j] != ';';
    assert LAST_CALL[4] == MARK && forall j :: 0 <= j < 4 ==> LAST_CALL[j] != ';';
    assert forall j :: 4 < j < 20 ==> LAST_CALL[j] != 'r' || (j + 1 < 20 && LAST_CALL[j + 1] != 'e');
    var r := Replacement(RequireCuda);
    assert forall j :: 33 <= j < 53 ==> r[j] == LAST_CALL[j - 33];
  }

  lemma CheckTextShieldsRequire()
    ensures Shields(Replacement(CudaCheck), 15, REQUIRE)
  {
    assert |Replacement(CudaCheck)| == 31;
  }

  lemma CheckTextShieldsCheck()
    ensures Shields(Replacement(CudaCheck), 15, CHECK)
  {
    assert |Replacement(CudaCheck)| == 31;
  }

  lemma ClearedShieldsRequire()
    ensures Shields(CLEARED, 10, REQUIRE)
  {
    assert |CLEARED| == 25;
  }

  lemma ClearedShieldsCheck()
    ensures Shields(CLEARED, 10, CHECK)
  {
    assert |CLEARED| == 25;
  }

  lemma ClearedShieldsSync()
    ensures Shields(CLEARED, 10, SYNC)
  {
    assert |CLEARED| == 25;
  }
}
