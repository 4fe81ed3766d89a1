/** Which stream synchronizations the last normalization pass leaves.

    The pass replaces every match of its pattern, but a name that stands in front of a
    replaced match, with nothing but whitespace in between, becomes the start of a new one:
    the inserted text starts with a parenthesis and ends like a call. */
module StreamSynchronization {
  import opened Characters
  import opened Sequences
  import opened Delimiters
  import opened SourcePatterns

  const STREAM := "cudaStreamSynchronize"

  /** What the pass makes of s from position p on. */
  function Output(s: string, p: nat): string
    requires p <= |s|
  {
    Subn(StreamSync, s, p).0
  }

  // ----- the shape of a match --------------------------------------------------------------

  /** The name, whitespace and a parenthesis, which ends at h. */
  predicate HeadAt(s: string, p: nat, h: nat) {
    && p + 22 <= h <= |s| && LitAt(s, p, STREAM)
    && SkipSpaces(s, p + 21) == h - 1 && s[h - 1] == '('
  }

  lemma HeadShape(s: string, p: nat, h: nat)
    requires p <= |s|
    ensures MatchEnd(s, p, STREAM_HEAD) == Some(h) <==> HeadAt(s, p, h)
  {
    assert |STREAM| == 21;
    assert STREAM_HEAD[1..][0] == Spaces && STREAM_HEAD[1..][1..] == [Lit("(")];
    if LitAt(s, p, STREAM) {
      var a := SkipSpaces(s, p + 21);
      assert [Lit("(")][1..] == [];
      ParenthesisAt(s, a);
    }
  }

  lemma ParenthesisAt(s: string, a: nat)
    ensures LitAt(s, a, "(") <==> a < |s| && s[a] == '('
  {
    var t := "(";
    assert t[0] == '(';
    if LitAt(s, a, t) { assert s[a + 0] == t[0]; }
  }

  /** The parts of a match: the head ends at h and the closing is at m. */
  ghost predicate HitParts(s: string, p: nat, h: nat, m: nat) {
    && HeadAt(s, p, h) && h <= m < |s|
    && MatchAt(CLOSE, s, m) && forall j :: h <= j < m ==> s[j] != ';'
  }

  lemma HitFromParts(s: string, p: nat, h: nat, m: nat)
    requires HitParts(s, p, h, m)
    ensures Hit(StreamSync, s, p)
  {
    HeadShape(s, p, h);
    if LazyEnd(s, h, CLOSE).None? { NoLazyEnd(s, h, m, CLOSE); }
  }

  lemma PartsOfHit(s: string, p: nat) returns (h: nat, m: nat)
    requires p <= |s| && Hit(StreamSync, s, p)
    ensures HitParts(s, p, h, m)
  {
    h := MatchEnd(s, p, STREAM_HEAD).value;
    HeadShape(s, p, h);
    m := LazyEndFound(s, h, CLOSE);
  }

  /** A head has no semicolon. */
  lemma HeadText(s: string, p: nat, h: nat)
    requires HeadAt(s, p, h)
    ensures s[p] == 'c' && forall j :: p <= j < h ==> s[j] != ';'
  {
    NameText(s, p, p);
    forall j | p <= j < h ensures s[j] != ';' { NameText(s, p, j); }
  }

  lemma NameText(s: string, p: nat, j: nat)
    requires LitAt(s, p, STREAM) && p <= j
    ensures s[p] == 'c'
    ensures j < p + 21 ==> s[j] != ';' && s[j] != '(' && !IsSpace(s[j])
    ensures p < j < p + 21 && s[j] == 'c' ==> j + 1 < |s| && s[j + 1] != 'u'
  {
    NameLetters();
    assert s[p + 0] == STREAM[0];
    if j < p + 21 {
      assert s[p + (j - p)] == STREAM[j - p];
      if j + 1 < p + 21 { assert s[p + (j + 1 - p)] == STREAM[j + 1 - p]; }
    }
  }

  lemma NameLetters()
    ensures |STREAM| == 21 && STREAM[0] == 'c' && STREAM[1] == 'u' && STREAM[4] == 'S'
    ensures forall j :: 0 <= j < 21 ==> STREAM[j] != ';' && STREAM[j] != '(' && !IsSpace(STREAM[j])
    ensures forall j :: 0 < j < 21 && STREAM[j] == 'c' ==> j < 20 && STREAM[j + 1] != 'u'
  {
  }

  // ----- matches depend on the text that follows ----------------------------------------------

  function Shifted(r: Option<nat>, d: nat): Option<nat> {
    match r
    case None => None
    case Some(k) => Some(k + d)
  }

  lemma {:induction false} SpacesShift(x: string, t: string, p: nat)
    requires p <= |t|
    ensures SkipSpaces(x + t, |x| + p) == |x| + SkipSpaces(t, p)
    decreases |t| - p
  {
    if p < |t| {
      assert (x + t)[|x| + p] == t[p];
      if IsSpace(t[p]) { SpacesShift(x, t, p + 1); }
    }
  }

  lemma ItemShift(x: string, t: string, p: nat, item: Item)
    requires p <= |t|
    ensures ItemEnd(x + t, |x| + p, item) == Shifted(ItemEnd(t, p, item), |x|)
  {
    SpacesShift(x, t, p);
    if item.Lit? {
      assert (x + t)[|x|..] == t;
      assert LitAt(x + t, |x| + p, item.text) <==> LitAt(t, p, item.text);
    }
  }

  lemma {:induction false} MatchShift(x: string, t: string, p: nat, items: seq<Item>)
    requires p <= |t|
    ensures MatchEnd(x + t, |x| + p, items) == Shifted(MatchEnd(t, p, items), |x|)
    decreases |items|
  {
    if items != [] {
      ItemShift(x, t, p, items[0]);
      if ItemEnd(t, p, items[0]).Some? { MatchShift(x, t, ItemEnd(t, p, items[0]).value, items[1..]); }
    }
  }

  lemma {:induction false} LazyShift(x: string, t: string, p: nat, closing: seq<Item>)
    requires p <= |t|
    ensures LazyEnd(x + t, |x| + p, closing) == Shifted(LazyEnd(t, p, closing), |x|)
    decreases |t| - p
  {
    if p < |t| {
      assert (x + t)[|x| + p] == t[p];
      MatchShift(x, t, p, closing);
      LazyShift(x, t, p + 1, closing);
    }
  }

  /** A head, and a lazy run that the closing pattern ends. */
  predicate RunAt(s: string, p: nat, head: seq<Item>, closing: seq<Item>)
    requires p <= |s|
  {
    match MatchEnd(s, p, head)
    case None => false
    case Some(h) => LazyEnd(s, h, closing).Some?
  }

  lemma RunShift(x: string, t: string, p: nat, head: seq<Item>, closing: seq<Item>)
    requires p <= |t|
    ensures RunAt(x + t, |x| + p, head, closing) <==> RunAt(t, p, head, closing)
  {
    MatchShift(x, t, p, head);
    match MatchEnd(t, p, head)
    case None =>
    case Some(h) => LazyShift(x, t, h, closing);
  }

  lemma HitIsRun(s: string, p: nat)
    requires p <= |s|
    ensures Hit(StreamSync, s, p) <==> RunAt(s, p, STREAM_HEAD, CLOSE)
  {
    if MatchEnd(s, p, STREAM_HEAD).Some? { HeadShape(s, p, MatchEnd(s, p, STREAM_HEAD).value); }
  }

  /** Whether there is a match depends on the text from there on. */
  lemma HitShift(x: string, t: string, p: nat)
    requires p <= |t|
    ensures Hit(StreamSync, x + t, |x| + p) <==> Hit(StreamSync, t, p)
  {
    HitIsRun(t, p);
    HitIsRun(x + t, |x| + p);
    RunShift(x, t, p, STREAM_HEAD, CLOSE);
  }

  lemma HitOfSuffix(s: string, p: nat)
    requires p <= |s|
    ensures Hit(StreamSync, s, p) <==> Hit(StreamSync, s[p..], 0)
  {
    assert s == s[..p] + s[p..];
    HitShift(s[..p], s[p..], 0);
  }

  // ----- scan positions -------------------------------------------------------------------------

  /** The pass, standing at `from`, comes to position p. */
  predicate Scanned(s: string, from: nat, p: nat)
    requires from <= |s|
    decreases |s| - from
  {
    from == p
    || (from < p && from < |s|
        && if Hit(StreamSync, s, from) then Scanned(s, RuleEnd(StreamSync, s, from).value, p)
           else Scanned(s, from + 1, p))
  }

  /** A name at p, then whitespace only, then a match at k. */
  predicate GluedAt(s: string, p: nat, k: nat) {
    && LitAt(s, p, STREAM) && p + 21 <= k < |s| && Hit(StreamSync, s, k)
    && forall j :: p + 21 <= j < k ==> IsSpace(s[j])
  }

  /** A kept name stands, with whitespace only in between, in front of a match that the pass
      replaces. */
  ghost predicate Glued(s: string, from: nat)
    requires from <= |s|
  {
    exists p: nat, k: nat :: GluedAt(s, p, k) && Scanned(s, from, p) && Scanned(s, from, k)
  }

  lemma HitStart(s: string, p: nat)
    requires p <= |s| && Hit(StreamSync, s, p)
    ensures p + 22 <= |s| && s[p] == 'c' && s[p + 1] == 'u' && s[p + 4] == 'S' && LitAt(s, p, STREAM)
    ensures SkipSpaces(s, p + 21) < |s| && s[SkipSpaces(s, p + 21)] == '('
  {
    hide RuleEnd, MatchEnd, LazyEnd;
    var h, m := PartsOfHit(s, p);
    NameLetters();
    assert s[p + 0] == STREAM[0] && s[p + 1] == STREAM[1] && s[p + 4] == STREAM[4];
  }

  /** Between the name and the match there is no other match. */
  lemma NoStartInGlue(s: string, p: nat, k: nat, j: nat)
    requires LitAt(s, p, STREAM) && p + 21 <= k < |s| && s[k] == 'c' && p <= j < k
    requires forall i :: p + 21 <= i < k ==> IsSpace(s[i])
    ensures s[j] == 'c' && s[j + 1] == 'u' ==> j == p && SkipSpaces(s, p + 21) == k
  {
    SkipIs(s, p + 21, k);
    NameText(s, p, j);
  }

  lemma NoHitInGlue(s: string, p: nat, k: nat, j: nat)
    requires GluedAt(s, p, k) && p <= j < k
    ensures !Hit(StreamSync, s, j)
  {
    hide RuleEnd, MatchEnd, LazyEnd, Hit;
    HitStart(s, k);
    NoStartInGlue(s, p, k, j);
    if Hit(StreamSync, s, j) { HitStart(s, j); }
  }

  /** The first position from p on with a property, or the end. */
  function NextIn(has: nat -> bool, p: nat, n: nat): (k: nat)
    requires p <= n
    ensures p <= k <= n
    decreases n - p
  {
    if p == n || has(p) then p else NextIn(has, p + 1, n)
  }

  lemma {:induction false} NextInIsFirst(has: nat -> bool, p: nat, n: nat)
    requires p <= n
    ensures NextIn(has, p, n) < n ==> has(NextIn(has, p, n))
    ensures forall j: nat :: p <= j < NextIn(has, p, n) ==> !has(j)
    decreases n - p
  {
    if p < n && !has(p) { NextInIsFirst(has, p + 1, n); }
  }

  function Hits(s: string): nat -> bool { (p: nat) => p <= |s| && Hit(StreamSync, s, p) }

  /** The position of the next match, or the end. */
  function NextHit(s: string, p: nat): (k: nat)
    requires p <= |s|
    ensures p <= k <= |s|
  {
    NextIn(Hits(s), p, |s|)
  }

  lemma NextHitIsHit(s: string, p: nat)
    requires p <= |s| && NextHit(s, p) < |s|
    ensures Hit(StreamSync, s, NextHit(s, p))
  {
    NextInIsFirst(Hits(s), p, |s|);
    assert Hits(s)(NextHit(s, p));
  }

  lemma BeforeNext(s: string, p: nat, j: nat)
    requires p <= j < |s| && j < NextHit(s, p)
    ensures !Hit(StreamSync, s, j)
  {
    NextInIsFirst(Hits(s), p, |s|);
    assert !Hits(s)(j);
  }

  lemma NextStep(s: string, p: nat)
    requires p < |s|
    ensures if Hit(StreamSync, s, p) then NextHit(s, p) == p else NextHit(s, p) == NextHit(s, p + 1) > p
  {
    assert Hits(s)(p) == Hit(StreamSync, s, p);
  }

  lemma KeptStep(s: string, p: nat)
    requires p < |s| && !Hit(StreamSync, s, p)
    ensures Output(s, p) == [s[p]] + Output(s, p + 1)
    ensures forall k :: k > p && Scanned(s, p + 1, k) ==> Scanned(s, p, k)
  {
  }

  /** Up to the next match everything is kept. */
  lemma {:induction false} KeptToNext(s: string, p: nat)
    requires p <= |s|
    ensures Output(s, p) == s[p..NextHit(s, p)] + Output(s, NextHit(s, p)) && Scanned(s, p, NextHit(s, p))
    decreases |s| - p
  {
    var k := NextHit(s, p);
    if p < |s| { NextStep(s, p); }
    if p < k {
      KeptToNext(s, p + 1);
      KeptStep(s, p);
      JoinKept(s, p, k, Output(s, k));
    } else {
      assert s[p..p] + Output(s, p) == Output(s, p);
    }
  }

  lemma JoinKept(s: string, p: nat, k: nat, t: string)
    requires p < k <= |s|
    ensures [s[p]] + (s[p + 1..k] + t) == s[p..k] + t
  {
    assert s[p..k] == [s[p]] + s[p + 1..k];
  }

  lemma NextOfGlue(s: string, p: nat, k: nat)
    requires GluedAt(s, p, k)
    ensures NextHit(s, p) == k
  {
    var n := NextHit(s, p);
    if n < k {
      NoHitInGlue(s, p, k, n);
      NextHitIsHit(s, p);
    }
    if k < n { BeforeNext(s, p, k); }
  }

  // ----- the closing pattern and the inserted text -----------------------------------------------

  /** A run of whitespace and one character. */
  lemma SpacedCharacter(s: string, p: nat, items: seq<Item>, c: char) returns (a: nat)
    requires p <= |s| && |items| == 2 && items[0] == Spaces && items[1] == Lit([c])
    requires MatchAt(items, s, p)
    ensures p <= a < |s| && s[a] == c && forall k :: p <= k < a ==> IsSpace(s[k])
    ensures MatchEnd(s, p, items) == Some(a + 1)
  {
    a := SkipSpaces(s, p);
    assert items[1..][0] == Lit([c]) && items[1..][1..] == [];
    assert MatchEnd(s, p, items) == MatchEnd(s, a, items[1..]);
    assert LitAt(s, a, [c]) && s[a + 0] == [c][0];
    assert MatchEnd(s, a, items[1..]) == MatchEnd(s, a + 1, []);
  }

  predicate IsClosing(items: seq<Item>) {
    |items| == 3 && items[0] == Lit([')']) && items[1] == Spaces && items[2] == Lit([';'])
  }

  lemma CloseIsClosing()
    ensures IsClosing(CLOSE)
  {
  }

  lemma CloseShape(v: string, m: nat, closing: seq<Item>) returns (b: nat)
    requires IsClosing(closing) && m <= |v| && MatchAt(closing, v, m)
    ensures m < b < |v| && v[m] == ')' && v[b] == ';' && MatchEnd(v, m, closing) == Some(b + 1)
    ensures forall j :: m < j < b ==> IsSpace(v[j])
  {
    assert LitAt(v, m, [')']) && v[m + 0] == [')'][0];
    b := SpacedCharacter(v, m + 1, closing[1..], ';');
  }

  lemma CloseAt(v: string, m: nat, closing: seq<Item>)
    requires IsClosing(closing) && m + 1 < |v| && v[m] == ')' && v[m + 1] == ';'
    ensures MatchAt(closing, v, m) && MatchEnd(v, m, closing) == Some(m + 2)
  {
    var rest := closing[1..];
    assert rest[0] == Spaces && rest[1..][0] == Lit([';']) && rest[1..][1..] == [];
    assert LitAt(v, m, [')']) && LitAt(v, m + 1, [';']);
    assert SkipSpaces(v, m + 1) == m + 1;
    assert MatchEnd(v, m, closing) == MatchEnd(v, m + 1, rest);
    assert MatchEnd(v, m + 1, rest) == MatchEnd(v, m + 1, rest[1..]);
  }

  lemma ClearedLetters()
    ensures |CLEARED| == 25 && CLEARED[0] == '(' && CLEARED[23] == ')' && CLEARED[24] == ';'
    ensures forall j :: 0 <= j < 24 ==> CLEARED[j] != ';'
    ensures forall j :: 0 <= j < 24 && CLEARED[j] == 'c' ==> j == 6
    ensures CLEARED[10] == 'G'
  {
  }

  /** An inserted text closes the run that reaches it. */
  lemma ClearedCloses(u: string, t: string)
    ensures var v := u + CLEARED + t;
            && |u| + 24 < |v| && v[|u|] == '(' && MatchAt(CLOSE, v, |u| + 23)
            && forall j :: |u| <= j < |u| + 23 ==> v[j] != ';'
  {
    var v := u + CLEARED + t;
    ClearedLetters();
    forall j | 0 <= j < 25 ensures v[|u| + j] == CLEARED[j] {}
    forall j | |u| <= j < |u| + 23 ensures v[j] != ';' { assert v[|u| + (j - |u|)] == CLEARED[j - |u|]; }
    assert v[|u| + 0] == '(' && v[|u| + 23] == ')' && v[|u| + 24] == ';';
    CloseIsClosing();
    CloseAt(v, |u| + 23, CLOSE);
  }

  // ----- one step of the pass --------------------------------------------------------------------

  /** The scan position after p. */
  function NextScan(s: string, p: nat): (e: nat)
    requires p < |s|
    ensures p < e <= |s|
  {
    if Hit(StreamSync, s, p) then RuleEnd(StreamSync, s, p).value else p + 1
  }

  lemma OutputStep(s: string, p: nat) returns (x: string)
    requires p < |s|
    ensures Output(s, p) == x + Output(s, NextScan(s, p))
    ensures x == if Hit(StreamSync, s, p) then CLEARED else [s[p]]
  {
    x := if Hit(StreamSync, s, p) then CLEARED else [s[p]];
  }

  lemma ScannedStep(s: string, from: nat, p: nat)
    requires from <= |s| && Scanned(s, from, p) && from != p
    ensures from < |s| && Scanned(s, NextScan(s, from), p)
  {
  }

  // ----- a kept name makes a match ------------------------------------------------------------------

  /** A name, whitespace and an inserted text are a match. */
  lemma GluedNameMatches(u: string, t: string)
    requires |u| >= 21 && LitAt(u, 0, STREAM) && forall j :: 21 <= j < |u| ==> IsSpace(u[j])
    ensures Hit(StreamSync, u + CLEARED + t, 0)
  {
    var v := u + CLEARED + t;
    ClearedCloses(u, t);
    NameLetters();
    assert v[..|u|] == u;
    assert forall j :: 0 <= j < |u| ==> v[j] == u[j];
    SkipIs(v, 21, |u|);
    assert HeadAt(v, 0, |u| + 1);
    HitFromParts(v, 0, |u| + 1, |u| + 23);
  }

  lemma GluedNameIsKept(s: string, p: nat, k: nat) returns (t: string)
    requires GluedAt(s, p, k)
    ensures Output(s, p) == s[p..k] + CLEARED + t && Hit(StreamSync, Output(s, p), 0)
  {
    NextOfGlue(s, p, k);
    KeptToNext(s, p);
    t := Output(s, RuleEnd(StreamSync, s, k).value);
    ConcatIsAssociative(s[p..k], CLEARED, t);
    var u := s[p..k];
    NameLetters();
    forall j | 0 <= j < 21 ensures u[0 + j] == STREAM[j] { assert s[p + j] == STREAM[j]; }
    GluedNameMatches(u, t);
  }

  /** The output from a later scan position on is a suffix of the output. */
  lemma {:induction false} OutputFromScanned(s: string, from: nat, p: nat) returns (x: string)
    requires from <= |s| && p <= |s| && Scanned(s, from, p)
    ensures Output(s, from) == x + Output(s, p)
    decreases |s| - from
  {
    hide Hit, RuleEnd, Scanned, Subn;
    if from == p {
      x := "";
      assert x + Output(s, p) == Output(s, p);
    } else {
      ScannedStep(s, from, p);
      var head := OutputStep(s, from);
      var tail := OutputFromScanned(s, NextScan(s, from), p);
      x := head + tail;
      ConcatIsAssociative(head, tail, Output(s, p));
    }
  }

  lemma GlueMakesMatch(s: string, from: nat, p: nat, k: nat) returns (q: nat)
    requires from <= |s| && GluedAt(s, p, k) && Scanned(s, from, p)
    ensures q < |Output(s, from)| && Hit(StreamSync, Output(s, from), q)
  {
    var x := OutputFromScanned(s, from, p);
    var t := GluedNameIsKept(s, p, k);
    HitShift(x, Output(s, p), 0);
    q := |x|;
  }

  // ----- every match that is left was made this way -----------------------------------------------

  /** No match starts inside an inserted text. */
  lemma NoMatchInsideCleared(t: string, q: nat)
    requires q < 25
    ensures !Hit(StreamSync, CLEARED + t, q)
  {
    ClearedLetters();
    NameLetters();
    var v := CLEARED + t;
    assert v[q] == CLEARED[q] && v[6 + 4] == CLEARED[10];
    if Hit(StreamSync, v, q) { HitStart(v, q); }
  }

  /** A name at the start of kept text that an inserted text follows lies in that text, and
      its whitespace ends at the latest with it. */
  lemma HeadInKept(u: string, t: string, h: nat)
    requires HeadAt(u + CLEARED + t, 0, h)
    ensures 21 <= |u| && 22 <= h <= |u| + 1 && LitAt(u, 0, STREAM)
    ensures forall j :: 21 <= j < h - 1 ==> IsSpace(u[j])
    ensures h <= |u| ==> u[h - 1] == '('
  {
    var v := u + CLEARED + t;
    assert |STREAM| == 21;
    assert |u| < 21 ==> v[0 + |u|] == STREAM[|u|];
    ClearedCloses(u, t);
    NameLetters();
    assert forall j :: 0 <= j < |u| ==> v[j] == u[j];
    forall j | 0 <= j < 21 ensures u[0 + j] == STREAM[j] { assert v[0 + j] == STREAM[j]; }
  }

  /** A run that ends in the first part u of the text, or leaves it without a semicolon. */
  lemma RunInPrefix(v: string, u: string, h: nat, m: nat, closing: seq<Item>)
    requires u <= v && h <= |u| && h <= m < |v|
    requires IsClosing(closing) && Deterministic(closing) && MatchAt(closing, v, m)
    requires forall j :: h <= j < m ==> v[j] != ';'
    ensures (m < |u| && MatchAt(closing, u, m)) || forall j :: h <= j < |u| ==> u[j] != ';'
    ensures forall j :: h <= j < m && j < |u| ==> u[j] != ';'
  {
    hide MatchEnd, Deterministic, IsClosing;
    assert forall j :: 0 <= j < |u| ==> v[j] == u[j];
    var b := CloseShape(v, m, closing);
    if b < |u| {
      MatchCopied(v, m, closing, u, 0);
    } else {
      forall j | h <= j < |u| ensures u[j] != ';' {
        assert j < m ==> v[j] != ';';
        assert m < j < b ==> IsSpace(v[j]);
      }
    }
  }

  lemma RunInKept(u: string, t: string, h: nat, m: nat)
    requires HitParts(u + CLEARED + t, 0, h, m) && h <= |u|
    ensures (m < |u| && MatchAt(CLOSE, u, m)) || forall j :: h <= j < |u| ==> u[j] != ';'
    ensures forall j :: h <= j < m && j < |u| ==> u[j] != ';'
  {
    var v := u + CLEARED + t;
    assert v[..|u|] == u;
    CloseIsClosing();
    StreamIsDeterministic();
    RunInPrefix(v, u, h, m, CLOSE);
  }

  lemma HeadCopied(u: string, s: string, p: nat, h: nat)
    requires 22 <= h <= |u| && p + |u| <= |s| && u == s[p..p + |u|] && LitAt(u, 0, STREAM)
    requires u[h - 1] == '(' && forall j :: 21 <= j < h - 1 ==> IsSpace(u[j])
    ensures HeadAt(s, p, p + h)
  {
    NameLetters();
    assert forall j :: 0 <= j < |u| ==> s[p + j] == u[j];
    forall j | 0 <= j < 21 ensures s[p + j] == STREAM[j] { assert u[0 + j] == STREAM[j]; }
    forall j | p + 21 <= j < p + h - 1 ensures IsSpace(s[j]) { assert s[p + (j - p)] == u[j - p]; }
    assert s[p + (h - 1)] == '(';
    SkipIs(s, p + 21, p + h - 1);
  }

  lemma RunKeptInside(s: string, p: nat, u: string, h: nat, m: nat)
    requires p + |u| <= |s| && u == s[p..p + |u|] && HeadAt(s, p, p + h) && h <= m < |u|
    requires MatchAt(CLOSE, u, m) && forall j :: h <= j < m ==> u[j] != ';'
    ensures Hit(StreamSync, s, p)
  {
    hide Hit, RuleEnd, MatchEnd, HeadAt;
    StreamIsDeterministic();
    ClosingCopied(s, p, u, m, CLOSE);
    forall j | p + h <= j < p + m ensures s[j] != ';' { assert u[j - p] != ';'; }
    HitFromParts(s, p, p + h, p + m);
  }

  lemma ClosingCopied(s: string, p: nat, u: string, m: nat, closing: seq<Item>)
    requires p + |u| <= |s| && u == s[p..p + |u|] && m < |u| && Deterministic(closing) && MatchAt(closing, u, m)
    ensures MatchAt(closing, s, p + m)
  {
    assert forall j :: 0 <= j < |u| ==> s[p + j] == u[j];
    MatchCopied(u, m, closing, s, p);
  }

  lemma RunKeptAcross(s: string, p: nat, k: nat, h: nat)
    requires HeadAt(s, p, h) && h <= k < |s| && Hit(StreamSync, s, k)
    requires forall j :: h <= j < k ==> s[j] != ';'
    ensures Hit(StreamSync, s, p)
  {
    hide Hit, RuleEnd, MatchEnd;
    var h', m' := PartsOfHit(s, k);
    HeadText(s, k, h');
    HitFromParts(s, p, h, m');
  }

  /** If the head and the run were kept text already, the match was there before. */
  lemma KeptHeadIsMatch(s: string, p: nat, k: nat, t: string, h: nat, m: nat)
    requires p <= k < |s| && Hit(StreamSync, s, k) && h <= k - p
    requires HitParts(s[p..k] + CLEARED + t, 0, h, m)
    ensures Hit(StreamSync, s, p)
  {
    hide Hit, RuleEnd, MatchEnd;
    var u := s[p..k];
    HeadInKept(u, t, h);
    HeadCopied(u, s, p, h);
    RunInKept(u, t, h, m);
    if m < |u| && MatchAt(CLOSE, u, m) {
      RunKeptInside(s, p, u, h, m);
    } else {
      forall j | p + h <= j < k ensures s[j] != ';' { assert u[j - p] != ';'; }
      RunKeptAcross(s, p, k, p + h);
    }
  }

  /** A match at a kept character is a kept name in front of a replaced match. */
  lemma MatchAtKept(s: string, p: nat) returns (k: nat)
    requires p < |s| && !Hit(StreamSync, s, p) && Hit(StreamSync, Output(s, p), 0)
    ensures GluedAt(s, p, k) && Scanned(s, p, p) && Scanned(s, p, k)
  {
    hide RuleEnd, Hit;
    k := NextHit(s, p);
    KeptToNext(s, p);
    assert k == |s| ==> s[p..k] + Output(s, k) == s[p..];
    HitOfSuffix(s, p);
    NextHitIsHit(s, p);
    var x := OutputStep(s, k);
    var t := Output(s, NextScan(s, k));
    ConcatIsAssociative(s[p..k], CLEARED, t);
    var h, m := PartsOfHit(s[p..k] + CLEARED + t, 0);
    GlueFromParts(s, p, k, t, h, m);
  }

  lemma GlueFromParts(s: string, p: nat, k: nat, t: string, h: nat, m: nat)
    requires p <= k < |s| && Hit(StreamSync, s, k) && !Hit(StreamSync, s, p)
    requires HitParts(s[p..k] + CLEARED + t, 0, h, m)
    ensures GluedAt(s, p, k)
  {
    hide RuleEnd, Hit;
    var u := s[p..k];
    HeadInKept(u, t, h);
    if h <= |u| { KeptHeadIsMatch(s, p, k, t, h, m); }
    NameLetters();
    assert forall j :: 0 <= j < |u| ==> s[p + j] == u[j];
    forall j | 0 <= j < 21 ensures s[p + j] == STREAM[j] { assert u[0 + j] == STREAM[j]; }
    forall j | p + 21 <= j < k ensures IsSpace(s[j]) { assert s[p + (j - p)] == u[j - p]; }
  }

  lemma MatchNeedsText(s: string, p: nat)
    requires p <= |s|
    ensures Hit(StreamSync, s, p) ==> p + 22 <= |s|
  {
    if Hit(StreamSync, s, p) { HitStart(s, p); }
  }

  lemma MatchInSuffix(out: string, x: string, rest: string, q: nat)
    requires out == x + rest && |x| <= q <= |out| && Hit(StreamSync, out, q)
    ensures Hit(StreamSync, rest, q - |x|)
  {
    hide Hit, RuleEnd;
    HitShift(x, rest, q - |x|);
  }

  lemma {:induction false} MatchComesFromGlue(s: string, p: nat, q: nat)
    requires p <= |s| && q <= |Output(s, p)| && Hit(StreamSync, Output(s, p), q)
    ensures Glued(s, p)
    decreases |s| - p
  {
    hide Hit, RuleEnd, Scanned, GluedAt;
    MatchNeedsText(Output(s, p), q);
    if p < |s| {
      var x := OutputStep(s, p);
      var rest := Output(s, NextScan(s, p));
      if q >= |x| {
        MatchInSuffix(Output(s, p), x, rest, q);
        MatchComesFromGlue(s, NextScan(s, p), q - |x|);
        GluedEarlier(s, p, NextScan(s, p));
      } else {
        MatchAtStart(s, p, q, x);
      }
    }
  }

  lemma MatchAtStart(s: string, p: nat, q: nat, x: string)
    requires p < |s| && q < |x| && x == if Hit(StreamSync, s, p) then CLEARED else [s[p]]
    requires Output(s, p) == x + Output(s, NextScan(s, p)) && Hit(StreamSync, Output(s, p), q)
    ensures Glued(s, p)
  {
    hide Hit, RuleEnd, Subn, GluedAt, Scanned;
    ClearedLetters();
    if Hit(StreamSync, s, p) {
      NoMatchInsideCleared(Output(s, NextScan(s, p)), q);
    } else {
      var k := MatchAtKept(s, p);
    }
  }

  lemma GluedEarlier(s: string, p: nat, next: nat)
    requires p < |s| && next == NextScan(s, p) && Glued(s, next)
    ensures Glued(s, p)
  {
    var a: nat, k: nat :| GluedAt(s, a, k) && Scanned(s, next, a) && Scanned(s, next, k);
    ScannedIsLater(s, next, a);
    ScannedIsLater(s, next, k);
    assert GluedAt(s, a, k) && Scanned(s, p, a) && Scanned(s, p, k);
  }

  lemma ScannedIsLater(s: string, from: nat, p: nat)
    requires from <= |s| && Scanned(s, from, p)
    ensures from <= p
  {
  }

  /** The stream pattern matches somewhere. */
  ghost predicate HasStreamSync(text: string) {
    exists q: nat :: q <= |text| && Hit(StreamSync, text, q)
  }

  /** What the pass leaves: its output has a match exactly when a kept name stood, with
      whitespace only in between, in front of a match that the pass replaced. */
  lemma StreamRemainsExactlyWhen(s: string)
    ensures HasStreamSync(Output(s, 0)) <==> Glued(s, 0)
  {
    hide Hit, RuleEnd, Subn, GluedAt, Scanned;
    if HasStreamSync(Output(s, 0)) {
      var q: nat :| q <= |Output(s, 0)| && Hit(StreamSync, Output(s, 0), q);
      MatchComesFromGlue(s, 0, q);
    }
    if Glued(s, 0) {
      var p: nat, k: nat :| GluedAt(s, p, k) && Scanned(s, 0, p) && Scanned(s, 0, k);
      var q := GlueMakesMatch(s, 0, p, k);
    }
  }

  /** A pass that replaces something changes the text. */
  lemma {:induction false} ReplacingChanges(s: string, p: nat)
    requires p <= |s| && Subn(StreamSync, s, p).1 > 0
    ensures Output(s, p) != s[p..]
    decreases |s| - p
  {
    CountStep(StreamSync, s, p);
    DropHead(s, p);
    if Hit(StreamSync, s, p) {
      HitStart(s, p);
      ClearedLetters();
      assert Output(s, p)[0] == CLEARED[0];
    } else {
      KeptStep(s, p);
      ReplacingChanges(s, p + 1);
      assert Output(s, p)[1..] == Output(s, p + 1) && s[p..][1..] == s[p + 1..];
    }
  }
}
