/** The whole pipeline, text to value: how the lexer, the parser and the
    evaluator fit together. */
module Pipeline {
  import opened Wrappers
  import opened Tokens
  import opened Ast
  import opened Lexer
  import opened Parsing
  import opened Eval
  import opened Printer

  /** The tokens of the prefix form are `Plus` and the leaves, and every leaf
      appears there. */
  lemma {:induction false} PrefixTokens(e: Expr)
    ensures forall k :: 0 <= k < |Prefix(e)| ==>
      Prefix(e)[k] == Token.Plus || (Prefix(e)[k].Int? && Prefix(e)[k].value in Leaves(e))
    ensures forall x :: x in Leaves(e) ==> Int(x) in Prefix(e)
  {
    match e
    case Num(n) =>
    case Plus(l, r) =>
      PrefixTokens(l);
      PrefixTokens(r);
      var pl, pr := Prefix(l), Prefix(r);
      assert Prefix(e) == [Token.Plus] + pl + pr;
      forall k | 0 <= k < |Prefix(e)|
        ensures Prefix(e)[k] == Token.Plus || (Prefix(e)[k].Int? && Prefix(e)[k].value in Leaves(e))
      {
        if 1 <= k < 1 + |pl| {
          assert Prefix(e)[k] == pl[k - 1];
        } else if k >= 1 + |pl| {
          assert Prefix(e)[k] == pr[k - 1 - |pl|];
        }
      }
  }

  /** Printing a tree and parsing the text back gives the same tree, for
      every tree with non-negative leaves: by `ParsedLeavesNonNegative`,
      exactly the trees the parser can return from text. */
  lemma ShowRoundTrip(e: Expr)
    requires NonNegativeLeaves(e)
    ensures ParseSource(Show(e)) == Success(e)
  {
    PrefixTokens(e);
    assert AllPrintable(Prefix(e)) by {
      forall k | 0 <= k < |Prefix(e)|
        ensures Printable(Prefix(e)[k])
      {
        if Prefix(e)[k].Int? {
          var x := Prefix(e)[k].value;
          var i :| 0 <= i < |Leaves(e)| && Leaves(e)[i] == x;
        }
      }
    }
    LexRender(Prefix(e));
    var p := New(Lex(Show(e))).value;
    ParseExprPrefix(p, e, []);
    assert Prefix(e) + [] == Prefix(e);
  }

  /** Text that lexes to exactly the prefix form of a tree parses to that
      tree. */
  lemma ParseLexedPrefix(code: seq<char>, e: Expr)
    requires Lex(code) == Stream(Prefix(e), EndOfInput)
    ensures ParseSource(code) == Success(e)
  {
    assert Prefix(e) + [] == Prefix(e);
    ParseExprPrefix(New(Lex(code)).value, e, []);
  }

  /** Every tree parsed from text has non-negative leaves. */
  lemma ParsedLeavesNonNegative(code: seq<char>, e: Expr)
    requires ParseSource(code) == Success(e)
    ensures NonNegativeLeaves(e)
  {
    var p := New(Lex(code)).value;
    var rest := Pending(ParseExpr(p).value.1);
    assert Lex(code).tokens == Prefix(e) + rest;
    LexNonNegative(code);
    PrefixTokens(e);
    forall k | 0 <= k < |Leaves(e)|
      ensures Leaves(e)[k] >= 0
    {
      var x := Leaves(e)[k];
      var i :| 0 <= i < |Prefix(e)| && Prefix(e)[i] == Int(x);
      assert Lex(code).tokens[i] == Int(x);
    }
  }

  /** A parsed tree can be evaluated as soon as its total fits an `i32`, and
      its value is then non-negative. */
  lemma EvaluateParsed(code: seq<char>, e: Expr)
    requires ParseSource(code) == Success(e)
    requires Sum(Leaves(e)) <= I32_MAX
    ensures Fits(e) && Calculate(e) >= 0
  {
    ParsedLeavesNonNegative(code, e);
    NonNegativeFits(e);
    SumNonNegative(Leaves(e));
  }

  /** Text to value: the printed form of a tree parses back to it and
      evaluates to the sum of its leaves. */
  lemma EndToEnd(e: Expr)
    requires NonNegativeLeaves(e)
    requires Sum(Leaves(e)) <= I32_MAX
    ensures ParseSource(Show(e)) == Success(e)
    ensures Fits(e) && Calculate(e) as int == Sum(Leaves(e))
  {
    ShowRoundTrip(e);
    EvaluateParsed(Show(e), e);
  }

  /** Text whose tokens stop inside an expression fails with `UnexpectedEof`,
      whether the text ended or a digit run overflowed an `i32`. */
  lemma TruncatedSource(code: seq<char>, e: Expr)
    requires !Lex(code).stop.Unrecognised?
    requires |Lex(code).tokens| < |Prefix(e)|
    requires Lex(code).tokens == Prefix(e)[..|Lex(code).tokens|]
    ensures ParseSource(code) == Failure(Syntax(UnexpectedEof))
  {
    var p := New(Lex(code)).value;
    ParseExprTruncated(p, e);
  }
}
