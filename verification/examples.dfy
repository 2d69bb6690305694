/** The source's unit tests, and the quirks they do not show, as lemmas about
    concrete inputs. Each input text is a parameter fixed by a precondition
    such as `requires s == "+ 1 2"` rather than a literal argument: on a
    literal, the verifier unfolds `Lex`, `Render` and `Digits` completely,
    which costs far more than the small step lemmas these proofs use. */
module Examples {
  import opened Wrappers
  import opened Tokens
  import opened Ast
  import opened Decimal
  import opened Lexer
  import opened Parsing
  import opened Eval
  import opened Printer
  import opened Pipeline

  lemma LexUnnestedAddition(s: seq<char>)
    requires s == "+ 1 2"
    ensures Lex(s) == Stream([Token.Plus, Int(1), Int(2)], EndOfInput)
  {
    var ts := [Token.Plus, Int(1), Int(2)];
    assert Render(ts) == s;
    LexRender(ts);
  }

  lemma LexWhitespaceOnly(s: seq<char>)
    requires s == "     \r\r\n\n\t  \n\n\n\t    "
    ensures Lex(s) == Stream([], EndOfInput)
  {
    WhitespaceText(s);
    SeparatorsOnlyIsEnd(s);
  }

  lemma WhitespaceText(s: seq<char>)
    requires s == "     \r\r\n\n\t  \n\n\n\t    "
    ensures forall k :: 0 <= k < |s| ==> IsSeparator(s[k])
  {
  }

  /** `(1)` lexes to three tokens and leaves nothing unread. */
  lemma LexParenthesised(s: seq<char>)
    requires s == "(1)"
    ensures AcceptNextToken(s) == Success((LeftParen, s[1..]))
    ensures AcceptNextToken(s[1..]) == Success((Int(1), s[2..]))
    ensures AcceptNextToken(s[2..]) == Success((RightParen, []))
    ensures Lex(s) == Stream([LeftParen, Int(1), RightParen], EndOfInput)
  {
    ParenthesisedSteps(s, s[1..], s[2..]);
    LexThreeTokens(s, s[1..], s[2..], LeftParen, Int(1), RightParen);
  }

  lemma ParenthesisedSteps(s: seq<char>, r1: seq<char>, r2: seq<char>)
    requires s == "(1)" && r1 == s[1..] && r2 == s[2..]
    ensures AcceptNextToken(s) == Success((LeftParen, r1))
    ensures AcceptNextToken(r1) == Success((Int(1), r2))
    ensures AcceptNextToken(r2) == Success((RightParen, []))
  {
    FirstCharacter(s);
    assert r1 == "1" + r2 && r2 == ")";
    DigitRunSplit("1", r2);
    assert Value("1") == 1;
    FirstCharacter(r2);
    assert r2[1..] == [];
  }

  /** Three successful steps of `accept_next_token` that use up the input. */
  lemma LexThreeTokens(s0: seq<char>, s1: seq<char>, s2: seq<char>, t0: Token, t1: Token, t2: Token)
    requires AcceptNextToken(s0) == Success((t0, s1))
    requires AcceptNextToken(s1) == Success((t1, s2))
    requires AcceptNextToken(s2) == Success((t2, []))
    ensures Lex(s0) == Stream([t0, t1, t2], EndOfInput)
  {
    assert Lex(s2) == Stream([t2], EndOfInput);
    assert Lex(s1) == Stream([t1, t2], EndOfInput);
  }

  /** A leading `9` aborts, while a `9` inside a number is an ordinary digit. */
  lemma LexLeadingNine(nine: seq<char>, nineteen: seq<char>)
    requires nine == "9" && nineteen == "19"
    ensures Lex(nine) == Stream([], Unrecognised('9'))
    ensures Lex(nineteen) == Stream([Int(19)], EndOfInput)
  {
    FirstCharacter(nine);
    assert Text(Int(19)) == nineteen;
    LexRender([Int(19)]);
  }

  /** `1` parses to a leaf. */
  lemma ParseOne(s: seq<char>)
    requires s == "1"
    ensures ParseSource(s) == Success(Num(1))
  {
    DigitRunSplit(s, []);
    assert s + [] == s;
    assert Value(s) == 1;
    assert Lex(s) == Stream(Prefix(Num(1)), EndOfInput);
    ParseLexedPrefix(s, Num(1));
  }

  /** `+ 1 2` parses to the sum of two leaves. */
  lemma ParseUnnestedAddition(s: seq<char>)
    requires s == "+ 1 2"
    ensures ParseSource(s) == Success(Expr.Plus(Num(1), Num(2)))
  {
    var e := Expr.Plus(Num(1), Num(2));
    LexUnnestedAddition(s);
    UnnestedPrefix(e);
    ParseLexedPrefix(s, e);
  }

  lemma UnnestedPrefix(e: Expr)
    requires e == Expr.Plus(Num(1), Num(2))
    ensures Prefix(e) == [Token.Plus, Int(1), Int(2)]
  {
  }

  /** `+ 1` stops inside the sum: `UnexpectedEof`. */
  lemma ParseMissingOperand(s: seq<char>)
    requires s == "+ 1"
    ensures ParseSource(s) == Failure(Syntax(UnexpectedEof))
  {
    var ts := [Token.Plus, Int(1)];
    assert Render(ts) == s;
    LexRender(ts);
    var e := Expr.Plus(Num(1), Num(1));
    assert Lex(s).tokens == Prefix(e)[..2];
    TruncatedSource(s, e);
  }

  /** A closing parenthesis where an expression must start. */
  lemma ParseStrayParenthesis(ts: seq<Token>)
    requires ts == [RightParen, Int(1)]
    ensures ParseExpr(New(Stream(ts, EndOfInput)).value) == Failure(Syntax(UnexpectedToken(RightParen)))
  {
    ParseExprRejects(New(Stream(ts, EndOfInput)).value);
  }

  /** The evaluator's tests: `Plus(Num 1, Num 2)` is 3 and
      `Plus(Num 1, Plus(Num 2, Num 3))` is 6. */
  lemma CalculateSmall(a: Expr, b: Expr)
    requires a == Expr.Plus(Num(1), Num(2))
    requires b == Expr.Plus(Num(1), Expr.Plus(Num(2), Num(3)))
    ensures Fits(a) && Calculate(a) == 3
    ensures Fits(b) && Calculate(b) == 6
  {
  }
}
