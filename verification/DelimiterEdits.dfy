/** Replacing a balanced part of a text by another balanced text does not change how
    delimiters match outside of it.

    A part is balanced when, read from its start, it never closes more than it has opened and
    closes all it has opened.  A scan that is inside something passes such a part at the
    depth at which it reaches it. */
module DelimiterEdits {
  import opened Characters
  import opened Sequences
  import opened Delimiters
  import opened SourcePatterns

  /** text[i..j], entered at depth d, never falls below zero and ends at zero. */
  predicate Balances(p: Pair, text: string, i: nat, j: nat, d: int)
    requires i <= j <= |text|
    decreases j - i
  {
    d >= 0 && if i == j then d == 0 else Balances(p, text, i + 1, j, d + Weight(p, text[i]))
  }

  predicate Balanced(text: string, i: nat, j: nat)
    requires i <= j <= |text|
  {
    Balances(PARENTHESES, text, i, j, 0) && Balances(BRACES, text, i, j, 0)
  }

  predicate Plain(p: Pair, text: string, i: nat, j: nat) {
    forall k :: i <= k < j && k < |text| ==> Weight(p, text[k]) == 0
  }

  lemma {:induction false} PlainRun(p: Pair, text: string, i: nat, k: nat, j: nat, d: int)
    requires i <= k <= j <= |text| && Plain(p, text, i, k) && d >= 0
    ensures Balances(p, text, i, j, d) == Balances(p, text, k, j, d)
    decreases k - i
  {
    if i < k { PlainRun(p, text, i + 1, k, j, d); }
  }

  lemma {:induction false} ScanPlain(p: Pair, text: string, i: nat, k: nat, depth: int)
    requires i <= k <= |text| && Plain(p, text, i, k)
    ensures Scan(p, text, i, depth) == Scan(p, text, k, depth)
    decreases k - i
  {
    if i < k { ScanPlain(p, text, i + 1, k, depth); }
  }

  /** A scan that is inside something passes a balanced part. */
  lemma {:induction false} ScanOver(p: Pair, text: string, i: nat, j: nat, d: int, depth: int)
    requires i <= j <= |text| && Balances(p, text, i, j, d) && depth >= 1
    ensures Scan(p, text, i, depth + d) == Scan(p, text, j, depth)
    decreases j - i
  {
    if i < j { ScanOver(p, text, i + 1, j, d + Weight(p, text[i]), depth); }
  }

  lemma {:induction false} BalancesCopied(p: Pair, text: string, i: nat, j: nat, d: int, other: string, i': nat)
    requires i <= j <= |text| && i' + (j - i) <= |other| && text[i..j] == other[i'..i' + (j - i)]
    ensures Balances(p, text, i, j, d) == Balances(p, other, i', i' + (j - i), d)
    decreases j - i
  {
    if i < j {
      assert text[i..j][0] == text[i] && other[i'..i' + (j - i)][0] == other[i'];
      assert text[i + 1..j] == text[i..j][1..] && other[i' + 1..i' + (j - i)] == other[i'..i' + (j - i)][1..];
      BalancesCopied(p, text, i + 1, j, d + Weight(p, text[i]), other, i' + 1);
    }
  }

  // ----- one replacement ------------------------------------------------------------------------

  /** u' is u with u[i..j] replaced by u'[i..j']. */
  predicate Edit(u: string, u': string, i: nat, j: nat, j': nat) {
    && i < j <= |u| && i < j' <= |u'| && |u| - j == |u'| - j'
    && (forall k :: 0 <= k < i ==> u[k] == u'[k])
    && (forall k :: j <= k < |u| ==> u[k] == u'[k - j + j'])
  }

  /** Where a position outside of the replaced part is afterwards. */
  function Moved(k: nat, j: nat, j': nat): nat { if k < j then k else k - j + j' }

  function MovedIfSome(r: Option<nat>, j: nat, j': nat): Option<nat> {
    match r
    case None => None
    case Some(k) => Some(Moved(k, j, j'))
  }

  predicate Outside(u: string, r: Option<nat>, i: nat, j: nat) { r.Some? ==> r.value < i || j <= r.value < |u| }

  lemma {:induction false} ScanBehind(p: Pair, u: string, u': string, i: nat, j: nat, j': nat, k: nat, depth: int)
    requires Edit(u, u', i, j, j') && j <= k <= |u|
    ensures Scan(p, u', k - j + j', depth) == MovedIfSome(Scan(p, u, k, depth), j, j')
    ensures Scan(p, u, k, depth).Some? ==> j <= Scan(p, u, k, depth).value < |u|
    decreases |u| - k
  {
    if k < |u| { ScanBehind(p, u, u', i, j, j', k + 1, depth + Weight(p, u[k])); }
  }

  lemma {:induction false} ScanBefore(p: Pair, u: string, u': string, i: nat, j: nat, j': nat, k: nat, depth: int)
    requires Edit(u, u', i, j, j') && Balances(p, u, i, j, 0) && Balances(p, u', i, j', 0)
    requires k <= i && depth >= 1
    ensures Scan(p, u', k, depth) == MovedIfSome(Scan(p, u, k, depth), j, j')
    ensures Outside(u, Scan(p, u, k, depth), i, j)
    decreases i - k
  {
    if k < i {
      var d := depth + Weight(p, u[k]);
      if !(Weight(p, u[k]) == -1 && d == 0) {
        ScanBefore(p, u, u', i, j, j', k + 1, d);
      }
    } else {
      ScanOver(p, u, i, j, 0, depth);
      ScanOver(p, u', i, j', 0, depth);
      ScanBehind(p, u, u', i, j, j', j, depth);
    }
  }

  /** A delimiter before the replaced part has the same match, moved. */
  lemma MatchingBefore(p: Pair, u: string, u': string, i: nat, j: nat, j': nat, start: nat)
    requires Edit(u, u', i, j, j') && Balances(p, u, i, j, 0) && Balances(p, u', i, j', 0)
    requires start < i && u[start] == p.opening
    ensures Matching(p, u', start) == MovedIfSome(Matching(p, u, start), j, j')
    ensures Outside(u, Matching(p, u, start), i, j)
  {
    ScanBefore(p, u, u', i, j, j', start + 1, 1);
  }

  /** So does one behind it. */
  lemma MatchingBehind(p: Pair, u: string, u': string, i: nat, j: nat, j': nat, start: nat)
    requires Edit(u, u', i, j, j') && j <= start <= |u|
    ensures Matching(p, u', start - j + j') == MovedIfSome(Matching(p, u, start), j, j')
    ensures Matching(p, u, start).Some? ==> j <= Matching(p, u, start).value < |u|
  {
    ScanBehind(p, u, u', i, j, j', start, 0);
  }

  /** The run of whitespace before the replaced part does not reach into it. */
  lemma SpacesBefore(u: string, u': string, i: nat, j: nat, j': nat, k: nat)
    requires Edit(u, u', i, j, j') && k <= i && !IsSpace(u[i]) && !IsSpace(u'[i])
    ensures SkipSpaces(u', k) == SkipSpaces(u, k) <= i
  {
    SkipIs(u', k, SkipSpaces(u, k));
  }

  lemma {:induction false} SpacesBehind(u: string, u': string, i: nat, j: nat, j': nat, k: nat)
    requires Edit(u, u', i, j, j') && j <= k <= |u|
    ensures SkipSpaces(u', k - j + j') == SkipSpaces(u, k) - j + j'
    decreases |u| - k
  {
    if k < |u| && IsSpace(u[k]) { SpacesBehind(u, u', i, j, j', k + 1); }
  }
}
