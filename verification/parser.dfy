/** The recursive-descent parser (src/parser.rs) for the prefix grammar
      Expr := Int | "+" Expr Expr
    with a one-slot lookahead. Parentheses are lexed but never parsed.

    The parser pulls tokens from a `Stream` (see `Lexer.Lex`): the sequence of
    tokens that successive `next_token` calls return, ending with the reason
    the first failing call failed. The source pulls them lazily; since the
    lexer is deterministic and the parser pulls them in order, the k-th pull
    returns the k-th token of the stream, and a pull past the last token is
    where the source either sees `None` or aborts in `unreachable!()`. */
module Parsing {
  import opened Wrappers
  import opened Tokens
  import opened Ast
  import opened Lexer

  datatype SyntaxError = UnexpectedEof | UnexpectedToken(found: Token)

  /** Everything that ends a parse: a syntax error, or the lexer aborting in
      its `unreachable!()` arm on character `c` while the parser pulled the
      next token. */
  datatype ParseFailure = Syntax(error: SyntaxError) | LexerPanic(c: char)

  datatype Parser = Parser(lexer: Stream, lookahead: Option<Token>)

  /** The tokens the parser has yet to consume: the lookahead, then the ones
      not yet pulled. */
  function Pending(p: Parser): seq<Token> {
    (if p.lookahead.Some? then [p.lookahead.value] else []) + p.lexer.tokens
  }

  /** Reachable parser states: once the lookahead is empty the lexer has
      nothing left to give. */
  predicate Valid(p: Parser) {
    p.lookahead.None? ==> p.lexer.tokens == []
  }

  /** The token sequence the grammar derives for `e`: an `Int` per leaf and a
      `Plus` before the operands of every interior node. */
  function Prefix(e: Expr): (ts: seq<Token>)
    ensures |ts| >= 1
  {
    match e
    case Num(n) => [Int(n)]
    case Plus(l, r) => [Token.Plus] + Prefix(l) + Prefix(r)
  }

  function Lift<T>(r: Result<T, SyntaxError>): Result<T, ParseFailure> {
    match r
    case Success(v) => Success(v)
    case Failure(e) => Failure(Syntax(e))
  }

  /** One `next_token` call on the lexer. */
  function Pull(lexer: Stream): (r: Result<(Option<Token>, Stream), ParseFailure>)
    ensures r.Failure? <==> lexer.tokens == [] && lexer.stop.Unrecognised?
    ensures r.Failure? ==> r.error == LexerPanic(lexer.stop.c)
    ensures r.Success? ==>
      && r.value.1.stop == lexer.stop
      && (r.value.0.None? <==> lexer.tokens == [])
      && (if r.value.0.Some? then [r.value.0.value] else []) + r.value.1.tokens == lexer.tokens
  {
    if |lexer.tokens| > 0 then Success((Some(lexer.tokens[0]), Stream(lexer.tokens[1..], lexer.stop)))
    else if lexer.stop.Unrecognised? then Failure(LexerPanic(lexer.stop.c))
    else Success((None, lexer))
  }

  /** Pulling from the lexer of `s` is one call of `next_token` on `s`: the
      panic propagates, the end of the tokens is `None` and leaves the lexer
      where it was, and otherwise the token comes with the lexer of the rest. */
  lemma PullLex(s: seq<char>)
    ensures Panics(s) ==> Pull(Lex(s)) == Failure(LexerPanic(AcceptNextToken(s).error.c))
    ensures !Panics(s) && NextToken(s).None? ==> Pull(Lex(s)) == Success((None, Lex(s)))
    ensures !Panics(s) && NextToken(s).Some? ==>
      Pull(Lex(s)) == Success((Some(NextToken(s).value.0), Lex(NextToken(s).value.1)))
  {
    match AcceptNextToken(s)
    case Success((t, rest)) =>
      assert Lex(s) == Stream([t] + Lex(rest).tokens, Lex(rest).stop);
      assert ([t] + Lex(rest).tokens)[1..] == Lex(rest).tokens;
    case Failure(e) =>
  }

  /** `Parser::new`: pulls exactly one token into the lookahead. */
  function New(lexer: Stream): (r: Result<Parser, ParseFailure>)
    ensures r.Success? <==> !(lexer.tokens == [] && lexer.stop.Unrecognised?)
    ensures r.Failure? ==> r.error == LexerPanic(lexer.stop.c)
    ensures r.Success? ==>
      && Valid(r.value)
      && Pending(r.value) == lexer.tokens
      && r.value.lexer.stop == lexer.stop
      && r.value.lookahead == (if lexer.tokens == [] then None else Some(lexer.tokens[0]))
  {
    var pulled :- Pull(lexer);
    Success(Parser(pulled.1, pulled.0))
  }

  function LookaheadRef(p: Parser): (r: Result<Token, SyntaxError>)
    ensures r.Success? <==> p.lookahead.Some?
    ensures r.Success? ==> p.lookahead == Some(r.value)
    ensures r.Failure? ==> r.error == UnexpectedEof
  {
    match p.lookahead
    case None => Failure(UnexpectedEof)
    case Some(t) => Success(t)
  }

  /** In a reachable state, `lookahead_ref` succeeds exactly when tokens are
      pending, and then returns the first of them. */
  lemma LookaheadPending(p: Parser)
    requires Valid(p)
    ensures LookaheadRef(p).Success? <==> Pending(p) != []
    ensures Pending(p) != [] ==> LookaheadRef(p).value == Pending(p)[0]
  {
  }

  function MatchToken(p: Parser, t: Token): (r: Result<bool, SyntaxError>)
    ensures r.Failure? <==> p.lookahead.None?
    ensures r.Failure? ==> r.error == UnexpectedEof
    ensures r.Success? ==> (r.value <==> p.lookahead == Some(t))
  {
    var found :- LookaheadRef(p);
    Success(found == t)
  }

  /** `advance`: the next token replaces the lookahead. */
  function Advance(p: Parser): (r: Result<Parser, ParseFailure>)
    ensures r.Failure? <==> p.lexer.tokens == [] && p.lexer.stop.Unrecognised?
    ensures r.Failure? ==> r.error == LexerPanic(p.lexer.stop.c)
    ensures r.Success? ==>
      && Valid(r.value)
      && Pending(r.value) == p.lexer.tokens
      && r.value.lexer.stop == p.lexer.stop
  {
    var pulled :- Pull(p.lexer);
    Success(Parser(pulled.1, pulled.0))
  }

  /** `consume`: advances only when the lookahead is `t`. */
  function Consume(p: Parser, t: Token): (r: Result<Parser, ParseFailure>)
    ensures r.Success? ==>
      && p.lookahead == Some(t)
      && Pending(p) == [t] + Pending(r.value)
      && Valid(r.value)
      && r.value.lexer.stop == p.lexer.stop
    ensures p.lookahead.None? ==> r == Failure(Syntax(UnexpectedEof))
    ensures p.lookahead.Some? && p.lookahead.value != t ==>
      r == Failure(Syntax(UnexpectedToken(p.lookahead.value)))
    ensures p.lookahead == Some(t) ==>
      r.Success? || (p.lexer.stop.Unrecognised? && r == Failure(LexerPanic(p.lexer.stop.c)))
  {
    match p.lookahead
    case None => Failure(Syntax(UnexpectedEof))
    case Some(found) =>
      if found == t then Advance(Parser(p.lexer, None))
      else Failure(Syntax(UnexpectedToken(found)))
  }

  function ParseInt(p: Parser): (r: Result<(i32, Parser), ParseFailure>)
    ensures r.Success? ==>
      && p.lookahead == Some(Int(r.value.0))
      && Pending(p) == [Int(r.value.0)] + Pending(r.value.1)
      && Valid(r.value.1)
      && r.value.1.lexer.stop == p.lexer.stop
    ensures p.lookahead.None? ==> r == Failure(Syntax(UnexpectedEof))
    ensures p.lookahead.Some? && !p.lookahead.value.Int? ==>
      r == Failure(Syntax(UnexpectedToken(p.lookahead.value)))
    ensures p.lookahead.Some? && p.lookahead.value.Int? ==>
      r.Success? || (p.lexer.stop.Unrecognised? && r == Failure(LexerPanic(p.lexer.stop.c)))
  {
    match p.lookahead
    case None => Failure(Syntax(UnexpectedEof))
    case Some(Int(n)) =>
      var next :- Advance(Parser(p.lexer, None));
      Success((n, next))
    case Some(found) => Failure(Syntax(UnexpectedToken(found)))
  }

  /** The sequence step behind the `+` case of `parse_expr`: consuming `+`,
      then a left operand, then a right one, consumes their concatenation. */
  lemma Regroup(p0: seq<Token>, p1: seq<Token>, p2: seq<Token>, p3: seq<Token>, a: seq<Token>, b: seq<Token>)
    requires p0 == [Token.Plus] + p1 && p1 == a + p2 && p2 == b + p3
    ensures p0 == [Token.Plus] + a + b + p3
  {
    calc {
      p0;
      [Token.Plus] + (a + (b + p3));
      ([Token.Plus] + a + b) + p3;
    }
  }

  /** `parse_expr`: on success the consumed tokens are exactly the prefix
      form of the returned tree. */
  function ParseExpr(p: Parser): (r: Result<(Expr, Parser), ParseFailure>)
    ensures r.Success? ==>
      && Pending(p) == Prefix(r.value.0) + Pending(r.value.1)
      && Valid(r.value.1)
      && r.value.1.lexer.stop == p.lexer.stop
    decreases |Pending(p)|
  {
    var isPlus :- Lift(MatchToken(p, Token.Plus));
    if isPlus then
      var afterPlus :- Consume(p, Token.Plus);
      var left :- ParseExpr(afterPlus);
      var right :- ParseExpr(left.1);
      var e := Expr.Plus(left.0, right.0);
      Regroup(Pending(p), Pending(afterPlus), Pending(left.1), Pending(right.1), Prefix(left.0), Prefix(right.0));
      Success((e, right.1))
    else
      var num :- ParseInt(p);
      Success((Num(num.0), num.1))
  }

  /** What `parse_expr` refuses: no lookahead is `UnexpectedEof`, and a
      parenthesis where an expression must start is `UnexpectedToken`
      carrying it. */
  lemma ParseExprRejects(p: Parser)
    ensures p.lookahead.None? ==> ParseExpr(p) == Failure(Syntax(UnexpectedEof))
    ensures p.lookahead == Some(LeftParen) ==> ParseExpr(p) == Failure(Syntax(UnexpectedToken(LeftParen)))
    ensures p.lookahead == Some(RightParen) ==> ParseExpr(p) == Failure(Syntax(UnexpectedToken(RightParen)))
  {
  }

  /** What the source's tests do: `Parser::new(Lexer::new(code)).parse_expr()`. */
  function ParseSource(code: seq<char>): Result<Expr, ParseFailure> {
    var p :- New(Lex(code));
    var parsed :- ParseExpr(p);
    Success(parsed.0)
  }

  /** The grammar has no parentheses: no prefix form contains one. */
  lemma {:induction false} PrefixHasNoParens(e: Expr)
    ensures forall k :: 0 <= k < |Prefix(e)| ==> !Prefix(e)[k].LeftParen? && !Prefix(e)[k].RightParen?
  {
    match e
    case Num(_) =>
    case Plus(l, r) =>
      PrefixHasNoParens(l);
      PrefixHasNoParens(r);
      assert Prefix(e) == [Token.Plus] + (Prefix(l) + Prefix(r));
  }

  /** Round trip: a parser whose pending tokens are the prefix form of `e`
      followed by anything returns `e` and leaves exactly the trailing tokens.
      Trailing input is not an error. The one exception is laziness showing
      through: when nothing trails and the lexer stopped at an unrecognised
      character, the pull after the last token aborts. */
  lemma {:induction false} ParseExprPrefix(p: Parser, e: Expr, rest: seq<Token>)
    requires Valid(p)
    requires Pending(p) == Prefix(e) + rest
    ensures rest == [] && p.lexer.stop.Unrecognised? ==>
      ParseExpr(p) == Failure(LexerPanic(p.lexer.stop.c))
    ensures rest != [] || !p.lexer.stop.Unrecognised? ==>
      && ParseExpr(p).Success?
      && ParseExpr(p).value.0 == e
      && Pending(ParseExpr(p).value.1) == rest
    decreases e, 1
  {
    assert p.lookahead.Some?;
    assert Pending(p)[0] == Prefix(e)[0] && Pending(p)[1..] == Prefix(e)[1..] + rest;
    if e.Num? {
      assert MatchToken(p, Token.Plus) == Success(false);
    } else {
      ParsePlusPrefix(p, e, rest);
    }
  }

  lemma {:induction false} ParsePlusPrefix(p: Parser, e: Expr, rest: seq<Token>)
    requires e.Plus? && Valid(p)
    requires p.lookahead == Some(Token.Plus) && p.lexer.tokens == Prefix(e.left) + Prefix(e.right) + rest
    ensures rest == [] && p.lexer.stop.Unrecognised? ==>
      ParseExpr(p) == Failure(LexerPanic(p.lexer.stop.c))
    ensures rest != [] || !p.lexer.stop.Unrecognised? ==>
      && ParseExpr(p).Success?
      && ParseExpr(p).value.0 == e
      && Pending(ParseExpr(p).value.1) == rest
    decreases e, 0
  {
    assert MatchToken(p, Token.Plus) == Success(true);
    var p1 := Consume(p, Token.Plus).value;
    assert Pending(p1) == Prefix(e.left) + (Prefix(e.right) + rest);
    ParseExprPrefix(p1, e.left, Prefix(e.right) + rest);
    var p2 := ParseExpr(p1).value.1;
    ParseExprPrefix(p2, e.right, rest);
  }

  /** Input that stops inside an expression, at the end of the input or at a
      digit run too large for an `i32` (both reach the parser as `None`),
      fails with `UnexpectedEof`. */
  lemma {:induction false} ParseExprTruncated(p: Parser, e: Expr)
    requires Valid(p) && !p.lexer.stop.Unrecognised?
    requires |Pending(p)| < |Prefix(e)| && Pending(p) == Prefix(e)[..|Pending(p)|]
    ensures ParseExpr(p) == Failure(Syntax(UnexpectedEof))
    decreases e, 1
  {
    if Pending(p) != [] && e.Plus? {
      TruncatedPlus(p, e);
    }
  }

  lemma {:induction false} TruncatedPlus(p: Parser, e: Expr)
    requires e.Plus? && Valid(p) && !p.lexer.stop.Unrecognised?
    requires Pending(p) != [] && |Pending(p)| < |Prefix(e)| && Pending(p) == Prefix(e)[..|Pending(p)|]
    ensures ParseExpr(p) == Failure(Syntax(UnexpectedEof))
    decreases e, 0
  {
    var body := Prefix(e.left) + Prefix(e.right);
    TruncatedTail(Pending(p), Token.Plus, body);
    assert p.lookahead == Some(Token.Plus);
    assert MatchToken(p, Token.Plus) == Success(true);
    var p1 := Consume(p, Token.Plus).value;
    var pending1 := Pending(p1);
    assert pending1 == body[..|pending1|];
    TruncatedSplit(pending1, Prefix(e.left), Prefix(e.right));
    if |pending1| < |Prefix(e.left)| {
      ParseExprTruncated(p1, e.left);
    } else {
      var q := pending1[|Prefix(e.left)|..];
      ParseExprPrefix(p1, e.left, q);
      var p2 := ParseExpr(p1).value.1;
      ParseExprTruncated(p2, e.right);
    }
  }

  /** A proper, non-empty initial part of `[t] + body` starts with `t` and
      continues with an initial part of `body`. */
  lemma TruncatedTail(ts: seq<Token>, t: Token, body: seq<Token>)
    requires 0 < |ts| <= |body| && ts == ([t] + body)[..|ts|]
    ensures ts[0] == t && ts[1..] == body[..|ts| - 1]
  {
    assert ts[0] == ([t] + body)[0];
  }

  /** A proper initial part of `a + b` is either an initial part of `a`, or
      all of `a` followed by a proper initial part of `b`. */
  lemma TruncatedSplit(ts: seq<Token>, a: seq<Token>, b: seq<Token>)
    requires |ts| < |a| + |b| && ts == (a + b)[..|ts|]
    ensures |ts| < |a| ==> ts == a[..|ts|]
    ensures |ts| >= |a| ==>
      && ts == a + ts[|a|..]
      && |ts[|a|..]| < |b|
      && ts[|a|..] == b[..|ts| - |a|]
  {
    if |ts| >= |a| {
      assert ts[..|a|] == a;
    }
  }

  /** The prefix form is unambiguous: two trees whose prefix forms start two
      equal token sequences are the same tree, with the same tokens after. */
  lemma PrefixUnambiguous(e1: Expr, rest1: seq<Token>, e2: Expr, rest2: seq<Token>)
    requires Prefix(e1) + rest1 == Prefix(e2) + rest2
    ensures e1 == e2 && rest1 == rest2
  {
    var ts := Prefix(e1) + rest1;
    var p := Parser(Stream(ts[1..], EndOfInput), Some(ts[0]));
    assert Pending(p) == ts;
    ParseExprPrefix(p, e1, rest1);
    ParseExprPrefix(p, e2, rest2);
  }

  /** The parser over a bare token sequence: parsing the prefix form of any
      tree followed by arbitrary tokens yields that tree and leaves the
      trailing tokens unconsumed. */
  lemma ParseTokensPrefix(e: Expr, rest: seq<Token>)
    ensures New(Stream(Prefix(e) + rest, EndOfInput)).Success?
    ensures var r := ParseExpr(New(Stream(Prefix(e) + rest, EndOfInput)).value);
      r.Success? && r.value.0 == e && Pending(r.value.1) == rest
  {
    var p := New(Stream(Prefix(e) + rest, EndOfInput)).value;
    ParseExprPrefix(p, e, rest);
  }
}
