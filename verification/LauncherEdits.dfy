/** Replacing a synchronization inside the launcher leaves it the only definition.

    Headers in front of the replaced part and behind it read as before, as far as both texts
    are balanced.  No header starts in an inserted text, and one that reaches into an
    inserted text is a declaration, because the text starts with `(void)`. */
module LauncherEdits {
  import opened Characters
  import opened Sequences
  import opened Delimiters
  import opened SourcePatterns
  import opened StreamSynchronization
  import opened DelimiterEdits
  import opened CudaSource

  // ----- headers have none of the names that are replaced --------------------------------------

  /** The first two letters of a name that a rule replaces. */
  predicate NameStarts(s: string, k: nat) {
    && k + 1 < |s|
    && ((s[k] == 'c' && s[k + 1] == 'u') || (s[k] == 'r' && s[k + 1] == 'e') || (s[k] == 'C' && s[k + 1] == 'U'))
  }

  predicate Innocent(t: string) { forall k :: 0 <= k < |t| ==> InnocentAt(t, k) }

  predicate InnocentAt(t: string, k: nat)
    requires k < |t|
  {
    t[k] != 'r' && t[k] != 'C' && (t[k] == 'c' ==> k + 1 < |t| && t[k + 1] != 'u')
  }

  predicate InnocentItems(items: seq<Item>) {
    forall i :: 0 <= i < |items| && items[i].Lit? ==> Innocent(items[i].text)
  }

  lemma {:induction false} InnocentMatch(s: string, p: nat, items: seq<Item>, k: nat)
    requires p <= |s| && MatchAt(items, s, p) && p <= k < MatchEnd(s, p, items).value && InnocentItems(items)
    ensures !NameStarts(s, k)
    decreases |items|
  {
    if items != [] {
      var e := ItemEnd(s, p, items[0]).value;
      if k >= e {
        InnocentMatch(s, e, items[1..], k);
      } else if items[0].Lit? {
        InnocentLiteral(s, p, items[0].text, k);
      }
    }
  }

  lemma InnocentLiteral(s: string, p: nat, t: string, k: nat)
    requires LitAt(s, p, t) && Innocent(t) && p <= k < p + |t|
    ensures !NameStarts(s, k)
  {
    var j := k - p;
    assert InnocentAt(t, j) && s[p + j] == t[j];
    if t[j] == 'c' { assert s[p + (j + 1)] == t[j + 1]; }
  }

  lemma LiteralsAreInnocent()
    ensures Innocent("void") && Innocent("(") && Innocent("inline") && Innocent(NAME)
  {
    assert |NAME| == 25;
  }

  lemma HeaderIsInnocent()
    ensures InnocentItems(HEADER) && InnocentItems(INLINE_HEADER)
  {
    hide Innocent;
    LiteralsAreInnocent();
    var items := INLINE_HEADER;
    assert |HEADER| == 5 && |items| == 7 && forall i :: 2 <= i < 7 ==> items[i] == HEADER[i - 2];
  }

  lemma HeaderLetters(s: string, q: nat, k: nat)
    requires q <= |s| && HeaderEnd(s, q).Some? && q <= k < HeaderEnd(s, q).value
    ensures !NameStarts(s, k)
  {
    HeaderIsInnocent();
    InnocentMatch(s, q, if MatchAt(INLINE_HEADER, s, q) then INLINE_HEADER else HEADER, k);
  }

  // ----- headers outside of the replaced part --------------------------------------------------

  /** A header depends on its own text. */
  lemma HeaderCopied(s: string, t: string, q: nat)
    requires q <= |s| && HeaderEnd(s, q).Some? && HeaderEnd(s, q).value <= |t|
    requires forall k :: 0 <= k < HeaderEnd(s, q).value ==> s[k] == t[k]
    ensures HeaderEnd(t, q) == HeaderEnd(s, q)
  {
    hide MatchEnd, Matches, Deterministic;
    HeadersAreDeterministic();
    HeaderParenthesis(s, q);
    if MatchAt(INLINE_HEADER, s, q) {
      MatchCopied(s, q, INLINE_HEADER, t, 0);
    } else {
      MatchCopied(s, q, HEADER, t, 0);
      FirstLetter(s, q, HEADER, 'v');
      FirstLetter(t, q, INLINE_HEADER, 'i');
    }
  }

  lemma HeaderBehind(u: string, u': string, i: nat, j: nat, j': nat, q: nat)
    requires Edit(u, u', i, j, j') && j <= q <= |u|
    ensures HeaderEnd(u', q - j + j') == MovedIfSome(HeaderEnd(u, q), j, j')
  {
    hide MatchEnd, Edit;
    assert |u'| - j' == |u| - j && j' <= |u'| by { EditSizes(u, u', i, j, j'); }
    MatchBehind(u, u', i, j, j', q, INLINE_HEADER);
    MatchBehind(u, u', i, j, j', q, HEADER);
  }

  lemma EditSizes(u: string, u': string, i: nat, j: nat, j': nat)
    requires Edit(u, u', i, j, j')
    ensures j <= |u| && j' <= |u'| && |u'| - j' == |u| - j && u[j..] == u'[j'..]
  {
  }

  lemma MatchBehind(u: string, u': string, i: nat, j: nat, j': nat, q: nat, items: seq<Item>)
    requires Edit(u, u', i, j, j') && j <= q <= |u|
    ensures q - j + j' <= |u'| && MatchEnd(u', q - j + j', items) == MovedIfSome(MatchEnd(u, q, items), j, j')
  {
    hide MatchEnd, Edit;
    EditSizes(u, u', i, j, j');
    var t := u[j..];
    assert u == u[..j] + t && u' == u'[..j'] + t;
    MatchShift(u[..j], t, q - j, items);
    MatchShift(u'[..j'], t, q - j, items);
  }

  function MovedReading(r: Reading, j: nat, j': nat): Reading {
    match r
    case Definition(end) => Definition(Moved(end, j, j'))
    case _ => r
  }

  /** Neither whitespace nor the brace of a body. */
  predicate NotABody(s: string, i: nat) { i < |s| && !IsSpace(s[i]) && s[i] != '{' }

  lemma BodyBefore(u: string, u': string, i: nat, j: nat, j': nat, close: nat)
    requires Edit(u, u', i, j, j') && Balanced(u, i, j) && Balanced(u', i, j')
    requires NotABody(u, i) && NotABody(u', i) && close < i
    ensures ReadBody(u', close) == MovedReading(ReadBody(u, close), j, j')
  {
    hide Balances, Scan, SkipSpaces;
    SpacesBefore(u, u', i, j, j', close + 1);
    var cursor := SkipSpaces(u, close + 1);
    if cursor < i && u[cursor] == '{' { MatchingBefore(BRACES, u, u', i, j, j', cursor); }
  }

  lemma BodyBehind(u: string, u': string, i: nat, j: nat, j': nat, close: nat)
    requires Edit(u, u', i, j, j') && j <= close < |u|
    ensures ReadBody(u', close - j + j') == MovedReading(ReadBody(u, close), j, j')
  {
    hide Scan, SkipSpaces;
    SpacesBehind(u, u', i, j, j', close + 1);
    var cursor := SkipSpaces(u, close + 1);
    if cursor < |u| { MatchingBehind(BRACES, u, u', i, j, j', cursor); }
  }

  /** What a header before the replaced part starts does not change. */
  lemma ReadBefore(u: string, u': string, i: nat, j: nat, j': nat, q: nat)
    requires Edit(u, u', i, j, j') && Balanced(u, i, j) && Balanced(u', i, j')
    requires NotABody(u, i) && NotABody(u', i)
    requires q <= |u| && HeaderEnd(u, q).Some? && HeaderEnd(u, q).value <= i
    ensures q <= |u'| && HeaderEnd(u', q) == HeaderEnd(u, q)
    ensures ReadAt(u', q) == MovedReading(ReadAt(u, q), j, j')
  {
    hide HeaderEnd, Matching, Find, ReadBody;
    HeaderParenthesis(u, q);
    HeaderCopied(u, u', q);
    HeaderParenthesis(u', q);
    MatchingBefore(PARENTHESES, u, u', i, j, j', Find(u, '(', q));
    var close := Matching(PARENTHESES, u, Find(u, '(', q));
    if close.Some? {
      if close.value < i {
        BodyBefore(u, u', i, j, j', close.value);
      } else {
        BodyBehind(u, u', i, j, j', close.value);
      }
    }
  }

  lemma ReadBehind(u: string, u': string, i: nat, j: nat, j': nat, q: nat)
    requires Edit(u, u', i, j, j') && j <= q <= |u|
    ensures ReadAt(u', q - j + j') == MovedReading(ReadAt(u, q), j, j')
  {
    hide HeaderEnd, Matching, Find, ReadBody;
    HeaderBehind(u, u', i, j, j', q);
    if HeaderEnd(u, q).Some? {
      HeaderParenthesis(u, q);
      HeaderParenthesis(u', q - j + j');
      MatchingBehind(PARENTHESES, u, u', i, j, j', Find(u, '(', q));
      var close := Matching(PARENTHESES, u, Find(u, '(', q));
      if close.Some? { BodyBehind(u, u', i, j, j', close.value); }
    }
  }

  // ----- headers in the inserted text -----------------------------------------------------------

  const VOID_REST := "oid)cudaGetLastError();"
  const CHECK_TEXT := "CUDA_CHECK(cudaGetLastError());"

  /** Neither letter that could start a header. */
  predicate Lacks(t: string) { 'n' !in t && 'v' !in t }

  lemma QuotedLacks()
    ensures Lacks(QUOTED)
  {
  }

  lemma LastCallLacks()
    ensures Lacks(LAST_CALL)
  {
  }

  lemma CheckTextLacks()
    ensures Lacks(CHECK_TEXT)
  {
  }

  lemma VoidRestLacks()
    ensures Lacks(VOID_REST)
  {
  }

  lemma ClearedText()
    ensures |CLEARED| == 25 && CLEARED == "(v" + VOID_REST && CLEARED[5] == ')' && CLEARED[24] == ';'
  {
    assert |VOID_REST| == 23;
  }

  predicate StartsNoHeader(r: string, k: nat)
    requires k < |r|
  {
    r[|r| - 1] == ';' && r[k] != 'n' && (r[k] == 'v' ==> k + 4 < |r| && r[k + 4] == ')')
  }

  lemma RequireLetters(k: nat)
    requires k < |QUOTED + LAST_CALL|
    ensures StartsNoHeader(QUOTED + LAST_CALL, k)
  {
    var r := QUOTED + LAST_CALL;
    QuotedLacks();
    LastCallLacks();
    assert |QUOTED| == 33 && |LAST_CALL| == 20 && LAST_CALL[19] == ';' && r[52] == LAST_CALL[19];
    assert if k < 33 then r[k] in QUOTED else r[k] in LAST_CALL;
  }

  lemma CheckLetters(k: nat)
    requires k < |CHECK_TEXT|
    ensures StartsNoHeader(CHECK_TEXT, k)
  {
    CheckTextLacks();
    assert |CHECK_TEXT| == 31 && CHECK_TEXT[30] == ';' && CHECK_TEXT[k] in CHECK_TEXT;
  }

  lemma ClearedStarts(k: nat)
    requires k < |CLEARED|
    ensures StartsNoHeader(CLEARED, k)
  {
    ClearedText();
    VoidRestLacks();
    assert k >= 2 ==> CLEARED[k] == VOID_REST[k - 2] && CLEARED[k] in VOID_REST;
  }

  /** No header starts in an inserted text: only one of them has a `v`, and that in front of
      `oid)`, and none of them has an `n`. */
  lemma ReplacementLetters(rule: Rule, k: nat)
    requires k < |Replacement(rule)|
    ensures StartsNoHeader(Replacement(rule), k)
  {
    hide StartsNoHeader;
    match rule
    case RequireCuda => RequireLetters(k);
    case CudaCheck => CheckLetters(k);
    case _ => ClearedStarts(k);
  }

  lemma HeaderStart(s: string, q: nat)
    requires q <= |s| && HeaderEnd(s, q).Some?
    ensures q < |s|
    ensures (s[q] == 'i' && q + 1 < |s| && s[q + 1] == 'n') || (s[q] == 'v' && q + 4 < |s| && IsSpace(s[q + 4]))
  {
    if MatchAt(INLINE_HEADER, s, q) {
      var t := "inline";
      assert LitAt(s, q, t) && s[q + 0] == t[0] && s[q + 1] == t[1];
    } else {
      FirstLetter(s, q, HEADER, 'v');
      assert |"void"| == 4 && HEADER[1..][0] == SomeSpaces;
      assert MatchEnd(s, q, HEADER) == MatchEnd(s, q + 4, HEADER[1..]);
      assert ItemEnd(s, q + 4, HEADER[1..][0]).Some?;
    }
  }

  lemma NoHeaderInserted(rule: Rule, s: string, i: nat, e: nat, q: nat)
    requires i <= q < e <= |s| && s[i..e] == Replacement(rule)
    ensures HeaderEnd(s, q).None?
  {
    hide HeaderEnd, Replacement;
    var r := Replacement(rule);
    assert s[q] == s[i..e][q - i] == r[q - i];
    ReplacementLetters(rule, q - i);
    if q + 1 < e {
      assert s[q + 1] == s[i..e][q + 1 - i];
      ReplacementLetters(rule, q + 1 - i);
    }
    assert q + 4 < e ==> s[q + 4] == s[i..e][q + 4 - i];
    if HeaderEnd(s, q).Some? { HeaderStart(s, q); }
  }

  lemma ReplacementStarts(rule: Rule, s: string, i: nat, e: nat)
    requires i < e <= |s| && s[i..e] == Replacement(rule)
    ensures NotABody(s, i)
    ensures
      || NameStarts(s, i)
      || (i + 25 == e && s[i] == '(' && s[i + 5] == ')' && s[i + 6] == 'c' && Plain(PARENTHESES, s, i + 1, i + 5))
  {
    var r := Replacement(rule);
    assert |r| >= 25 && s[i] == s[i..e][0] && s[i + 1] == s[i..e][1];
    if rule == DeviceSync || rule == StreamSync {
      assert |CLEARED| == 25;
      assert forall k :: 0 <= k < 7 ==> s[i + k] == s[i..e][k];
      assert s[i + 5] == CLEARED[5] && s[i + 6] == CLEARED[6];
      forall k | i + 1 <= k < i + 5 ensures Weight(PARENTHESES, s[k]) == 0 {
        assert s[k] == s[i..e][k - i] == CLEARED[k - i];
      }
    }
  }

  /** A header that reaches into the inserted text ends with its first parenthesis, and is a
      declaration. */
  lemma HeaderIntoInserted(rule: Rule, s: string, i: nat, e: nat, q: nat)
    requires q < i < e <= |s| && s[i..e] == Replacement(rule)
    requires HeaderEnd(s, q).Some? && HeaderEnd(s, q).value > i
    ensures ReadAt(s, q) == Declaration
  {
    hide HeaderEnd;
    ReplacementStarts(rule, s, i, e);
    HeaderLetters(s, q, i);
    HeaderParenthesis(s, q);
    assert Find(s, '(', q) == i;
    ScanPlain(PARENTHESES, s, i + 1, i + 5, 1);
    assert Scan(PARENTHESES, s, i + 5, 1) == Some(i + 5);
    assert Matching(PARENTHESES, s, i) == Some(i + 5);
    assert SkipSpaces(s, i + 6) == i + 6;
  }

  // ----- one replacement ----------------------------------------------------------------------------

  /** u' is u with a balanced part replaced by the text of the rule. */
  ghost predicate Replaced(rule: Rule, u: string, u': string, i: nat, j: nat, j': nat) {
    && Edit(u, u', i, j, j') && Balanced(u, i, j) && Balanced(u', i, j')
    && NameStarts(u, i) && u'[i..j'] == Replacement(rule)
  }

  /** What is read afterwards outside of the inserted text: the same as before, or a new
      declaration. */
  lemma ReadAfter(rule: Rule, u: string, u': string, i: nat, j: nat, j': nat, q': nat)
    requires Replaced(rule, u, u', i, j, j') && q' <= |u'|
    ensures var r := ReadAt(u', q');
            || r == NoHeader || r == Declaration
            || (exists q: nat :: q <= |u| && q' == Moved(q, j, j') && HeaderEnd(u, q).Some? && (q < i || q >= j)
                                 && r == MovedReading(ReadAt(u, q), j, j'))
  {
    hide HeaderEnd, ReadAt, Balances, Replacement;
    ReplacementStarts(rule, u', i, j');
    if q' >= j' {
      ReadBehind(u, u', i, j, j', q' - j' + j);
      HeaderOfReading(u, q' - j' + j);
      assert q' == Moved(q' - j' + j, j, j');
    } else if q' >= i {
      NoHeaderInserted(rule, u', i, j', q');
      HeaderOfReading(u', q');
    } else if HeaderEnd(u', q').None? {
      HeaderOfReading(u', q');
    } else if HeaderEnd(u', q').value > i {
      HeaderIntoInserted(rule, u', i, j', q');
    } else {
      HeaderCopied(u', u, q');
      ReadBefore(u, u', i, j, j', q');
      assert q' == Moved(q', j, j');
    }
  }

  /** The definition's own header is in front of the replaced part, and its end behind it. */
  lemma LauncherAround(u: string, i: nat, j: nat, a: nat, b: nat)
    requires a <= i < j <= b && j <= |u| && NameStarts(u, i) && u[j - 1] == ';'
    requires a <= |u| && ReadAt(u, a) == Definition(b)
    ensures HeaderEnd(u, a).Some? && HeaderEnd(u, a).value <= i && j < b
  {
    if HeaderEnd(u, a).value > i { HeaderLetters(u, a, i); }
    LauncherEnd(u, a);
  }

  /** A definition ends with its brace. */
  lemma LauncherEnd(s: string, a: nat)
    requires a <= |s| && ReadAt(s, a).Definition?
    ensures 0 < ReadAt(s, a).end <= |s| && s[ReadAt(s, a).end - 1] == '}'
  {
    var opening := Find(s, '(', a);
    HeaderParenthesis(s, a);
    ScanMeaning(PARENTHESES, s, opening, opening);
    var close := Matching(PARENTHESES, s, opening).value;
    var cursor := SkipSpaces(s, close + 1);
    ScanMeaning(BRACES, s, cursor, cursor);
  }

  /** After the replacement the same definition is the only one, and everything is balanced. */
  lemma ReplacementKeepsLauncher(rule: Rule, u: string, u': string, i: nat, j: nat, j': nat, a: nat, b: nat)
    requires Replaced(rule, u, u', i, j, j') && u[j - 1] == ';' && a <= i && j <= b
    requires AllBalanced(u) && OnlyLauncher(u, a, b)
    ensures AllBalanced(u') && OnlyLauncher(u', a, b - j + j')
  {
    hide HeaderEnd, ReadAt, Balances, Replacement;
    LauncherAround(u, i, j, a, b);
    ReplacementStarts(rule, u', i, j');
    ReadBefore(u, u', i, j, j', a);
    forall q': nat | q' <= |u'|
      ensures !ReadAt(u', q').Broken?
      ensures ReadAt(u', q').Definition? ==> a <= q' < HeaderEnd(u', a).value
    {
      ReadAfter(rule, u, u', i, j, j', q');
    }
  }
}
