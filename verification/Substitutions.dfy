/** What a pass replaces: the disjoint leftmost matches of its pattern. */
module Substitutions {
  import opened Sequences
  import opened SourcePatterns

  datatype Span = Span(start: nat, end: nat)

  /** The spans follow each other within the text from p on. */
  ghost predicate InOrder(spans: seq<Span>, p: nat, n: nat)
  {
    if spans == [] then p <= n
    else p <= spans[0].start <= spans[0].end && InOrder(spans[1..], spans[0].end, n)
  }

  lemma {:induction false} InOrderEnds(spans: seq<Span>, p: nat, n: nat)
    requires InOrder(spans, p, n)
    ensures p <= n && forall k :: 0 <= k < |spans| ==> p <= spans[k].start <= spans[k].end <= n
  {
    if spans != [] {
      InOrderEnds(spans[1..], spans[0].end, n);
      assert forall k :: 1 <= k < |spans| ==> spans[k] == spans[1..][k - 1];
    }
  }

  /** The rule matches exactly this part of the text. */
  predicate IsMatch(rule: Rule, s: string, span: Span) {
    span.start < span.end && span.start <= |s| && RuleEnd(rule, s, span.start) == Some(span.end)
  }

  /** The spans are matches, in order and disjoint, and none is skipped: wherever the rule
      matches from p on, the match starts within one of them. */
  ghost predicate LeftmostMatches(rule: Rule, s: string, p: nat, spans: seq<Span>) {
    && InOrder(spans, p, |s|)
    && (forall k :: 0 <= k < |spans| ==> IsMatch(rule, s, spans[k]))
    && forall m: Span :: p <= m.start && IsMatch(rule, s, m) ==> StartsWithin(spans, m.start)
  }

  predicate StartsWithin(spans: seq<Span>, q: nat) {
    exists k :: 0 <= k < |spans| && spans[k].start <= q < spans[k].end
  }

  /** The text from p on with the spans replaced. */
  ghost function Replaced(replacement: string, s: string, p: nat, spans: seq<Span>): string
    requires InOrder(spans, p, |s|)
    decreases |spans|
  {
    if spans == [] then s[p..]
    else
      InOrderEnds(spans, p, |s|);
      s[p..spans[0].start] + replacement + Replaced(replacement, s, spans[0].end, spans[1..])
  }

  lemma NoMatchHere(rule: Rule, s: string, p: nat, spans: seq<Span>)
    requires p < |s| && !Hit(rule, s, p) && LeftmostMatches(rule, s, p + 1, spans)
    ensures LeftmostMatches(rule, s, p, spans)
  {
    hide RuleEnd;
    forall m: Span | p <= m.start && IsMatch(rule, s, m) ensures StartsWithin(spans, m.start) {
      assert m.start != p;
    }
  }

  lemma KeptHere(replacement: string, s: string, p: nat, spans: seq<Span>)
    requires p < |s| && InOrder(spans, p + 1, |s|)
    ensures InOrder(spans, p, |s|)
    ensures Replaced(replacement, s, p, spans) == [s[p]] + Replaced(replacement, s, p + 1, spans)
  {
    DropHead(s, p);
    if spans != [] {
      InOrderEnds(spans, p + 1, |s|);
      var q := spans[0].start;
      DropHead(s[..q], p);
      assert s[..q][p..] == s[p..q] && s[..q][p + 1..] == s[p + 1..q];
      Regroup([s[p]], s[p + 1..q], replacement, Replaced(replacement, s, spans[0].end, spans[1..]));
    }
  }

  lemma Regroup(a: string, b: string, c: string, d: string)
    ensures (a + b) + c + d == a + (b + c + d)
  {
  }

  lemma MatchHere(rule: Rule, s: string, p: nat, end: nat, rest: seq<Span>)
    requires IsMatch(rule, s, Span(p, end)) && end <= |s| && LeftmostMatches(rule, s, end, rest)
    ensures LeftmostMatches(rule, s, p, [Span(p, end)] + rest)
  {
    hide RuleEnd, InOrder;
    var spans := [Span(p, end)] + rest;
    InOrderCons(p, end, rest, |s|);
    assert spans[0] == Span(p, end);
    assert forall k :: 1 <= k < |spans| ==> spans[k] == rest[k - 1];
    forall m: Span | p <= m.start && IsMatch(rule, s, m) ensures StartsWithin(spans, m.start) {
      if m.start >= end {
        assert StartsWithin(rest, m.start);
        var k :| 0 <= k < |rest| && rest[k].start <= m.start < rest[k].end;
        assert spans[k + 1] == rest[k];
      }
    }
  }

  lemma InOrderCons(p: nat, end: nat, rest: seq<Span>, n: nat)
    requires p <= end && InOrder(rest, end, n)
    ensures InOrder([Span(p, end)] + rest, p, n)
  {
    assert ([Span(p, end)] + rest)[1..] == rest;
  }

  lemma ReplacedHere(replacement: string, s: string, p: nat, end: nat, rest: seq<Span>)
    requires p <= end && InOrder(rest, end, |s|)
    ensures InOrder([Span(p, end)] + rest, p, |s|)
    ensures Replaced(replacement, s, p, [Span(p, end)] + rest) == replacement + Replaced(replacement, s, end, rest)
  {
    InOrderCons(p, end, rest, |s|);
    InOrderEnds([Span(p, end)] + rest, p, |s|);
    assert ([Span(p, end)] + rest)[1..] == rest;
    assert s[p..p] + replacement == replacement;
  }

  lemma AtEnd(rule: Rule, s: string)
    ensures LeftmostMatches(rule, s, |s|, []) && Replaced(Replacement(rule), s, |s|, []) == ""
  {
    hide IsMatch, Replacement;
    forall m: Span ensures IsMatch(rule, s, m) ==> m.start < |s| {
      MatchEndsWithin(rule, s, m);
    }
  }

  lemma MatchEndsWithin(rule: Rule, s: string, m: Span)
    ensures IsMatch(rule, s, m) ==> m.start < |s|
  {
    hide RuleEnd;
    assert IsMatch(rule, s, m) ==> RuleEnd(rule, s, m.start).value <= |s|;
  }

  /** A pass replaces the disjoint leftmost matches, and counts them. */
  lemma {:induction false} SubnReplacesMatches(rule: Rule, s: string, p: nat) returns (spans: seq<Span>)
    requires p <= |s|
    ensures LeftmostMatches(rule, s, p, spans)
    ensures Subn(rule, s, p) == (Replaced(Replacement(rule), s, p, spans), |spans|)
    decreases |s| - p
  {
    hide RuleEnd, LeftmostMatches, Replaced, InOrder, Replacement;
    spans := [];
    AtEnd(rule, s);
    if p < |s| && Hit(rule, s, p) {
      var end := RuleEnd(rule, s, p).value;
      var rest := SubnReplacesMatches(rule, s, end);
      spans := [Span(p, end)] + rest;
      MatchHere(rule, s, p, end, rest);
      MatchesInOrder(rule, s, end, rest);
      ReplacedHere(Replacement(rule), s, p, end, rest);
    } else if p < |s| {
      spans := SubnReplacesMatches(rule, s, p + 1);
      NoMatchHere(rule, s, p, spans);
      MatchesInOrder(rule, s, p + 1, spans);
      KeptHere(Replacement(rule), s, p, spans);
    }
  }

  lemma MatchesInOrder(rule: Rule, s: string, p: nat, spans: seq<Span>)
    requires LeftmostMatches(rule, s, p, spans)
    ensures InOrder(spans, p, |s|)
  {
  }

  /** There is only one such list of matches. */
  lemma {:induction false} LeftmostMatchesAreUnique(rule: Rule, s: string, p: nat, a: seq<Span>, b: seq<Span>)
    requires LeftmostMatches(rule, s, p, a) && LeftmostMatches(rule, s, p, b)
    ensures a == b
    decreases |a|
  {
    hide RuleEnd;
    if a == [] {
      if b != [] { FirstStartsWithin(rule, s, p, b, a); }
    } else {
      FirstStartsWithin(rule, s, p, a, b);
      FirstStartsWithin(rule, s, p, b, a);
      assert a[0] == b[0];
      TailMatches(rule, s, p, a);
      TailMatches(rule, s, p, b);
      LeftmostMatchesAreUnique(rule, s, a[0].end, a[1..], b[1..]);
      assert a == [a[0]] + a[1..] && b == [b[0]] + b[1..];
    }
  }

  lemma FirstStartsWithin(rule: Rule, s: string, p: nat, a: seq<Span>, b: seq<Span>)
    requires LeftmostMatches(rule, s, p, a) && LeftmostMatches(rule, s, p, b) && a != []
    ensures b != [] && b[0].start <= a[0].start
  {
    hide RuleEnd, InOrder;
    MatchesInOrder(rule, s, p, a);
    MatchesInOrder(rule, s, p, b);
    InOrderEnds(a, p, |s|);
    assert IsMatch(rule, s, a[0]) && StartsWithin(b, a[0].start);
    var k :| 0 <= k < |b| && b[k].start <= a[0].start < b[k].end;
    FirstIsFirst(b, p, |s|, k);
  }

  lemma FirstIsFirst(spans: seq<Span>, p: nat, n: nat, k: nat)
    requires InOrder(spans, p, n) && k < |spans|
    ensures spans[0].start <= spans[k].start
  {
    if k > 0 {
      InOrderEnds(spans[1..], spans[0].end, n);
      assert spans[k] == spans[1..][k - 1];
    }
  }

  lemma TailMatches(rule: Rule, s: string, p: nat, spans: seq<Span>)
    requires LeftmostMatches(rule, s, p, spans) && spans != []
    ensures LeftmostMatches(rule, s, spans[0].end, spans[1..])
  {
    hide RuleEnd, IsMatch;
    var rest := spans[1..];
    InOrderEnds(spans, p, |s|);
    forall m: Span | spans[0].end <= m.start && IsMatch(rule, s, m) ensures StartsWithin(rest, m.start) {
      assert StartsWithin(spans, m.start);
      var k :| 0 <= k < |spans| && spans[k].start <= m.start < spans[k].end;
      assert spans[k] == rest[k - 1];
    }
  }
}
