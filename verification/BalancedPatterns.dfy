/** The delimiters of what the device rules remove and of what all rules insert.

    Both are balanced in parentheses and in braces.  For a pattern this is a property of its
    list of literals, for an inserted text one of its characters.  The stream rule is left
    out: its lazy run may remove any text without a semicolon. */
module BalancedPatterns {
  import opened Delimiters
  import opened SourcePatterns
  import opened DelimiterEdits

  // ----- what the device rules remove is balanced ---------------------------------------------------

  /** The delimiters among the literals, entered at depth d, never fall below zero and end
      at zero; a literal is one character or has no delimiter. */
  predicate Nested(p: Pair, items: seq<Item>, d: int)
  {
    d >= 0
    && if items == [] then d == 0
       else if items[0].Lit? && |items[0].text| == 1 then Nested(p, items[1..], d + Weight(p, items[0].text[0]))
       else (items[0].Lit? ==> Plain(p, items[0].text, 0, |items[0].text|)) && Nested(p, items[1..], d)
  }

  lemma {:induction false} MatchBalances(p: Pair, s: string, q: nat, items: seq<Item>, d: int)
    requires p in {PARENTHESES, BRACES} && q <= |s| && MatchAt(items, s, q) && Nested(p, items, d)
    ensures Balances(p, s, q, MatchEnd(s, q, items).value, d)
    decreases |items|
  {
    if items != [] {
      var k, e := ItemEnd(s, q, items[0]).value, MatchEnd(s, q, items).value;
      if items[0].Lit? && |items[0].text| == 1 {
        assert s[q + 0] == items[0].text[0];
        MatchBalances(p, s, k, items[1..], d + Weight(p, items[0].text[0]));
      } else {
        if items[0].Lit? { PlainLiteral(p, s, q, items[0].text); }
        MatchBalances(p, s, k, items[1..], d);
        PlainRun(p, s, q, k, e, d);
      }
    }
  }

  lemma PlainLiteral(p: Pair, s: string, q: nat, t: string)
    requires LitAt(s, q, t) && Plain(p, t, 0, |t|)
    ensures Plain(p, s, q, q + |t|)
  {
    forall k | q <= k < q + |t| ensures Weight(p, s[k]) == 0 { assert s[q + (k - q)] == t[k - q]; }
  }

  lemma NamesArePlain(p: Pair)
    requires p in {PARENTHESES, BRACES}
    ensures Plain(p, "cudaDeviceSynchronize", 0, 21) && Plain(p, "\"cudaDeviceSynchronize\"", 0, 23)
    ensures Plain(p, "require_cuda", 0, 12) && Plain(p, "CUDA_CHECK", 0, 10)
  {
    assert |"cudaDeviceSynchronize"| == 21 && |"\"cudaDeviceSynchronize\""| == 23;
  }

  lemma CharacterFirst(p: Pair, c: char, rest: seq<Item>, d: int)
    requires d >= 0 && Nested(p, rest, d + Weight(p, c))
    ensures Nested(p, [Lit([c])] + rest, d)
  {
    assert ([Lit([c])] + rest)[1..] == rest;
  }

  lemma PlainFirst(p: Pair, item: Item, rest: seq<Item>, d: int)
    requires d >= 0 && Nested(p, rest, d) && (item.Lit? ==> |item.text| != 1 && Plain(p, item.text, 0, |item.text|))
    ensures Nested(p, [item] + rest, d)
  {
    assert ([item] + rest)[1..] == rest;
  }

  const CLOSED: seq<Item> := [Lit(")"), Spaces, Lit(";")]

  lemma SyncIsNested(p: Pair)
    requires p in {PARENTHESES, BRACES}
    ensures Nested(p, SYNC, 0) && Nested(p, NESTED_SYNC, Weight(p, '('))
  {
    hide Nested, Plain;
    var name := Lit("cudaDeviceSynchronize");
    NamesArePlain(p);
    assert |name.text| == 21;
    CallsAreNested(p);
    PlainFirst(p, Spaces, EMPTY_CALL, 0);
    PlainFirst(p, name, [Spaces] + EMPTY_CALL, 0);
    assert SYNC == [name] + ([Spaces] + EMPTY_CALL);
    PlainFirst(p, Spaces, NESTED_CALL, Weight(p, '('));
    PlainFirst(p, name, [Spaces] + NESTED_CALL, Weight(p, '('));
    assert NESTED_SYNC == [name] + ([Spaces] + NESTED_CALL);
  }

  const NESTED_CALL: seq<Item> := [Lit("("), Spaces, Lit(")"), Spaces, Lit(")"), Spaces, Lit(";")]

  lemma CallsAreNested(p: Pair)
    requires p in {PARENTHESES, BRACES}
    ensures Nested(p, EMPTY_CALL, 0) && Nested(p, NESTED_CALL, Weight(p, '('))
  {
    hide Nested, Plain;
    var w := Weight(p, '(');
    ClosedIsNested(p);
    PlainFirst(p, Spaces, CLOSED, w);
    CharacterFirst(p, '(', [Spaces] + CLOSED, 0);
    assert EMPTY_CALL == [Lit(['('])] + ([Spaces] + CLOSED);
    CharacterFirst(p, ')', [Spaces] + CLOSED, w + w);
    var inner := [Lit([')'])] + ([Spaces] + CLOSED);
    PlainFirst(p, Spaces, inner, w + w);
    CharacterFirst(p, '(', [Spaces] + inner, w);
    assert NESTED_CALL == [Lit(['('])] + ([Spaces] + inner);
  }

  lemma ClosedIsNested(p: Pair)
    requires p in {PARENTHESES, BRACES}
    ensures Nested(p, CLOSED, Weight(p, '('))
  {
    var none: seq<Item> := [];
    CharacterFirst(p, ';', none, 0);
    PlainFirst(p, Spaces, [Lit([';'])] + none, 0);
    CharacterFirst(p, ')', [Spaces] + ([Lit([';'])] + none), Weight(p, '('));
    assert CLOSED == [Lit([')'])] + ([Spaces] + ([Lit([';'])] + none));
  }

  const NESTED_ARGUMENT: seq<Item> := [Spaces] + NESTED_SYNC

  lemma CheckIsNested(p: Pair)
    requires p in {PARENTHESES, BRACES}
    ensures Nested(p, CHECK, 0)
  {
    hide Nested, Plain;
    NamesArePlain(p);
    SyncIsNested(p);
    var check := Lit("CUDA_CHECK");
    assert |check.text| == 10;
    ArgumentIsNested(p, check, NESTED_SYNC);
    assert CHECK == [check] + ([Spaces] + ([Lit(['('])] + ([Spaces] + NESTED_SYNC)));
  }

  const QUOTED_ARGUMENT: seq<Item> := [Lit("\"cudaDeviceSynchronize\""), Spaces, Lit(",")] + NESTED_ARGUMENT

  lemma QuotedArgumentIsNested(p: Pair)
    requires p in {PARENTHESES, BRACES}
    ensures Nested(p, QUOTED_ARGUMENT, Weight(p, '('))
  {
    hide Nested, Plain;
    NamesArePlain(p);
    SyncIsNested(p);
    var w, quoted := Weight(p, '('), Lit("\"cudaDeviceSynchronize\"");
    assert |quoted.text| == 23;
    PlainFirst(p, Spaces, NESTED_SYNC, w);
    CharacterFirst(p, ',', NESTED_ARGUMENT, w);
    PlainFirst(p, Spaces, [Lit([','])] + NESTED_ARGUMENT, w);
    PlainFirst(p, quoted, [Spaces] + ([Lit([','])] + NESTED_ARGUMENT), w);
    assert QUOTED_ARGUMENT == [quoted] + ([Spaces] + ([Lit([','])] + NESTED_ARGUMENT));
  }

  lemma RequireInParts()
    ensures REQUIRE == [Lit("require_cuda")] + ([Spaces] + ([Lit(['('])] + ([Spaces] + QUOTED_ARGUMENT)))
  {
    assert QUOTED_ARGUMENT == [Lit("\"cudaDeviceSynchronize\""), Spaces, Lit(","), Spaces] + NESTED_SYNC;
  }

  lemma RequireIsNested(p: Pair)
    requires p in {PARENTHESES, BRACES}
    ensures Nested(p, REQUIRE, 0)
  {
    hide Nested, Plain;
    NamesArePlain(p);
    QuotedArgumentIsNested(p);
    RequireInParts();
    var require, argument := Lit("require_cuda"), QUOTED_ARGUMENT;
    assert |require.text| == 12;
    ArgumentIsNested(p, require, argument);
  }

  /** A name and its parenthesized argument. */
  lemma ArgumentIsNested(p: Pair, name: Item, argument: seq<Item>)
    requires p in {PARENTHESES, BRACES} && Nested(p, argument, Weight(p, '('))
    requires name.Lit? && |name.text| > 1 && Plain(p, name.text, 0, |name.text|)
    ensures Nested(p, [name] + ([Spaces] + ([Lit(['('])] + ([Spaces] + argument))), 0)
  {
    hide Nested, Plain;
    PlainFirst(p, Spaces, argument, Weight(p, '('));
    CharacterFirst(p, '(', [Spaces] + argument, 0);
    PlainFirst(p, Spaces, [Lit(['('])] + ([Spaces] + argument), 0);
    PlainFirst(p, name, [Spaces] + ([Lit(['('])] + ([Spaces] + argument)), 0);
  }

  /** The whole texts that the device rules replace are balanced. */
  lemma DeviceMatchIsBalanced(rule: Rule, s: string, p: nat)
    requires rule != StreamSync && p <= |s| && Hit(rule, s, p)
    ensures Balanced(s, p, RuleEnd(rule, s, p).value)
  {
    hide Balances, Nested, MatchEnd;
    forall p | p in {PARENTHESES, BRACES} ensures Nested(p, REQUIRE, 0) && Nested(p, CHECK, 0) && Nested(p, SYNC, 0) {
      RequireIsNested(p);
      CheckIsNested(p);
      SyncIsNested(p);
    }
    var items := if rule == RequireCuda then REQUIRE else if rule == CudaCheck then CHECK else SYNC;
    MatchBalances(PARENTHESES, s, p, items, 0);
    MatchBalances(BRACES, s, p, items, 0);
  }

  // ----- the inserted texts are balanced -----------------------------------------------------------------

  predicate Whole(p: Pair, t: string, d: int) { Balances(p, t, 0, |t|, d) }

  lemma CharacterAhead(p: Pair, c: char, t: string, d: int)
    requires d >= 0 && Whole(p, t, d + Weight(p, c))
    ensures Whole(p, [c] + t, d)
  {
    var s := [c] + t;
    assert t[0..|t|] == s[1..1 + |t|];
    BalancesCopied(p, t, 0, |t|, d + Weight(p, c), s, 1);
  }

  lemma PlainAhead(p: Pair, x: string, t: string, d: int)
    requires d >= 0 && Plain(p, x, 0, |x|) && Whole(p, t, d)
    ensures Whole(p, x + t, d)
  {
    var s := x + t;
    assert t[0..|t|] == s[|x|..|x| + |t|];
    BalancesCopied(p, t, 0, |t|, d, s, |x|);
    PlainRun(p, s, 0, |x|, |s|, d);
  }

  const GET_ERROR := "cudaGetLastError"

  lemma WordsArePlain(p: Pair)
    requires p in {PARENTHESES, BRACES}
    ensures Plain(p, GET_ERROR, 0, 16) && Plain(p, "\"cudaGetLastError\", ", 0, 20) && Plain(p, "void", 0, 4)
  {
    assert |GET_ERROR| == 16 && |"\"cudaGetLastError\", "| == 20;
  }

  /** An empty call behind n open parentheses, which are closed. */
  lemma CallsAreWhole(p: Pair)
    requires p in {PARENTHESES, BRACES}
    ensures Whole(p, GET_ERROR + "();", 0) && Whole(p, GET_ERROR + "());", Weight(p, '('))
  {
    hide Balances, Plain;
    var w := Weight(p, '(');
    WordsArePlain(p);
    assert |GET_ERROR| == 16;
    assert Whole(p, "", 0) by { EmptyIsWhole(p); }
    CharacterAhead(p, ';', "", 0);
    CharacterAhead(p, ')', [';'] + "", w);
    var closed := [')'] + ([';'] + "");
    CharacterAhead(p, '(', closed, 0);
    assert "();" == ['('] + closed;
    PlainAhead(p, GET_ERROR, "();", 0);
    CharacterAhead(p, ')', closed, w + w);
    CharacterAhead(p, '(', [')'] + closed, w);
    assert "());" == ['('] + ([')'] + closed);
    PlainAhead(p, GET_ERROR, "());", w);
  }

  lemma EmptyIsWhole(p: Pair)
    ensures Whole(p, "", 0)
  {
  }

  lemma ClearedInParts()
    ensures CLEARED == ['('] + ("void" + ([')'] + (GET_ERROR + "();")))
  {
  }

  lemma CheckTextInParts()
    ensures Replacement(CudaCheck) == "CUDA_CHECK" + (['('] + (GET_ERROR + "());"))
  {
  }

  lemma LastCallInParts()
    ensures LAST_CALL == GET_ERROR + "());"
  {
  }

  lemma QuotedInParts()
    ensures QUOTED == "require_cuda" + (['('] + "\"cudaGetLastError\", ")
  {
  }

  lemma ReplacementIsBalanced(rule: Rule)
    ensures Balanced(Replacement(rule), 0, |Replacement(rule)|)
  {
    ReplacementIsWhole(rule, PARENTHESES);
    ReplacementIsWhole(rule, BRACES);
  }

  lemma ReplacementIsWhole(rule: Rule, p: Pair)
    requires p in {PARENTHESES, BRACES}
    ensures Whole(p, Replacement(rule), 0)
  {
    hide Balances, Plain;
    var w := Weight(p, '(');
    NamesArePlain(p);
    WordsArePlain(p);
    CallsAreWhole(p);
    match rule
    case RequireCuda =>
      LastCallInParts();
      QuotedInParts();
      assert QUOTED + LAST_CALL == "require_cuda" + (['('] + ("\"cudaGetLastError\", " + (GET_ERROR + "());")));
      assert |"\"cudaGetLastError\", "| == 20 && |"require_cuda"| == 12;
      PlainAhead(p, "\"cudaGetLastError\", ", GET_ERROR + "());", w);
      CharacterAhead(p, '(', "\"cudaGetLastError\", " + (GET_ERROR + "());"), 0);
      PlainAhead(p, "require_cuda", ['('] + ("\"cudaGetLastError\", " + (GET_ERROR + "());")), 0);
    case CudaCheck =>
      CheckTextInParts();
      assert |"CUDA_CHECK"| == 10;
      CharacterAhead(p, '(', GET_ERROR + "());", 0);
      PlainAhead(p, "CUDA_CHECK", ['('] + (GET_ERROR + "());"), 0);
    case _ =>
      ClearedInParts();
      CharacterAhead(p, ')', GET_ERROR + "();", w);
      PlainAhead(p, "void", [')'] + (GET_ERROR + "();"), w);
      CharacterAhead(p, '(', "void" + ([')'] + (GET_ERROR + "();")), 0);
  }
}
