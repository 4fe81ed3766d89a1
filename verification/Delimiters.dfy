/** Delimiter matching in source text. */
module Delimiters {
  import opened Characters
  import opened Sequences

  datatype Pair = Pair(opening: char, closing: char)

  function Weight(p: Pair, c: char): int {
    if c == p.opening then 1 else if c == p.closing then -1 else 0
  }

  /** Openings minus closings in text[start..i]. */
  function Depth(p: Pair, text: string, start: nat, i: nat): int
    requires i <= |text|
  {
    if i <= start then 0 else Depth(p, text, start, i - 1) + Weight(p, text[i - 1])
  }

  /** The depth comes back to zero with the closing delimiter at i. */
  predicate Closes(p: Pair, text: string, start: nat, i: nat) {
    && start <= i < |text| && Weight(p, text[i]) == -1
    && Depth(p, text, start, i + 1) == 0
  }

  ghost predicate FirstClose(p: Pair, text: string, start: nat, i: nat) {
    Closes(p, text, start, i) && forall j: nat :: j < i ==> !Closes(p, text, start, j)
  }

  /** The scan from i on, at the given depth. */
  function Scan(p: Pair, text: string, i: nat, depth: int): (r: Option<nat>)
    decreases |text| - i
  {
    if i >= |text| then None
    else
      var d := depth + Weight(p, text[i]);
      if Weight(p, text[i]) == -1 && d == 0 then Some(i) else Scan(p, text, i + 1, d)
  }

  function Matching(p: Pair, text: string, start: nat): Option<nat> { Scan(p, text, start, 0) }

  lemma {:induction false} ScanMeaning(p: Pair, text: string, start: nat, i: nat)
    requires start <= i <= |text|
    requires forall j: nat :: j < i ==> !Closes(p, text, start, j)
    ensures var r := Scan(p, text, i, Depth(p, text, start, i));
            && (r.Some? ==> FirstClose(p, text, start, r.value))
            && (r.None? ==> forall j: nat :: !Closes(p, text, start, j))
    decreases |text| - i
  {
    if i < |text| && !Closes(p, text, start, i) {
      ScanMeaning(p, text, start, i + 1);
    }
  }

  /** `_matching_delimiter`: the first position at which the depth returns to zero, and
      failure exactly when there is none. */
  method MatchingDelimiter(text: string, start: nat, p: Pair) returns (r: Option<nat>)
    ensures r == Matching(p, text, start)
    ensures r.Some? ==> FirstClose(p, text, start, r.value)
    ensures r.None? ==> forall j: nat :: !Closes(p, text, start, j)
  {
    if start <= |text| { ScanMeaning(p, text, start, start); }
    var depth := 0;
    var index := start;
    while index < |text|
      invariant start <= |text| ==> index <= |text|
      invariant Matching(p, text, start) == Scan(p, text, index, depth)
    {
      var c := text[index];
      if c == p.opening {
        depth := depth + 1;
      } else if c == p.closing {
        depth := depth - 1;
        if depth == 0 {
          return Some(index);
        }
      }
      index := index + 1;
    }
    r := None;
  }

  /** Every shorter prefix is open and this one is closed. */
  ghost predicate BalancedAt(p: Pair, text: string, start: nat, i: nat) {
    && start < i < |text| && Depth(p, text, start, i + 1) == 0
    && forall k :: start < k <= i ==> Depth(p, text, start, k) > 0
  }

  lemma {:induction false} OpenUntilFirstClose(p: Pair, text: string, start: nat, i: nat, k: nat)
    requires start < k <= i < |text| && text[start] == p.opening
    requires forall j: nat :: j < i ==> !Closes(p, text, start, j)
    ensures Depth(p, text, start, k) > 0
  {
    if k > start + 1 {
      OpenUntilFirstClose(p, text, start, i, k - 1);
      assert !Closes(p, text, start, k - 1);
    } else {
      assert Depth(p, text, start, start) == 0;
    }
  }

  /** From an opening delimiter the match is the one position where the depth returns to
      zero with every shorter prefix positive; matching fails exactly when there is none. */
  lemma MatchIsBalancedPosition(p: Pair, text: string, start: nat)
    requires start < |text| && text[start] == p.opening
    ensures forall i: nat :: Matching(p, text, start) == Some(i) <==> BalancedAt(p, text, start, i)
    ensures Matching(p, text, start).None? <==> forall i: nat :: !BalancedAt(p, text, start, i)
  {
    ScanMeaning(p, text, start, start);
    var r := Matching(p, text, start);
    if r.Some? {
      var i := r.value;
      assert !Closes(p, text, start, start);
      assert i > start;
      forall k | start < k <= i ensures Depth(p, text, start, k) > 0 {
        OpenUntilFirstClose(p, text, start, i, k);
      }
      assert BalancedAt(p, text, start, i);
    }
    forall j: nat | BalancedAt(p, text, start, j) ensures r == Some(j) {
      assert Depth(p, text, start, j) > 0;
      assert Closes(p, text, start, j);
    }
  }

  // ----- the end of a call statement ----------------------------------------------------

  function SkipSpaces(text: string, i: nat): (k: nat)
    ensures i <= k && (i <= |text| ==> k <= |text|)
    ensures forall j :: i <= j < k ==> j < |text| && IsSpace(text[j])
    ensures k < |text| ==> !IsSpace(text[k])
    decreases |text| - i
  {
    if i < |text| && IsSpace(text[i]) then SkipSpaces(text, i + 1) else i
  }

  const PARENTHESES := Pair('(', ')')
  const BRACES := Pair('{', '}')

  datatype CallEnd = EndsAt(position: nat) | NotTerminated | Unbalanced

  /** `_balanced_call_end`: its closing parenthesis is the one that `_matching_delimiter`
      finds, and a semicolon must follow. */
  method BalancedCallEnd(text: string, opening: nat) returns (r: CallEnd)
    ensures match Matching(PARENTHESES, text, opening)
            case None => r == Unbalanced
            case Some(i) =>
              var k := SkipSpaces(text, i + 1);
              r == if k < |text| && text[k] == ';' then EndsAt(k + 1) else NotTerminated
  {
    var depth := 0;
    var index := opening;
    while index < |text|
      invariant Matching(PARENTHESES, text, opening) == Scan(PARENTHESES, text, index, depth)
    {
      var c := text[index];
      if c == '(' {
        depth := depth + 1;
      } else if c == ')' {
        depth := depth - 1;
        if depth == 0 {
          var cursor := index + 1;
          while cursor < |text| && IsSpace(text[cursor])
            invariant index + 1 <= cursor <= |text|
            invariant SkipSpaces(text, index + 1) == SkipSpaces(text, cursor)
          {
            cursor := cursor + 1;
          }
          if cursor >= |text| || text[cursor] != ';' {
            return NotTerminated;
          }
          return EndsAt(cursor + 1);
        }
      }
      index := index + 1;
    }
    r := Unbalanced;
  }
}
