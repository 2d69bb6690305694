/** The lexer (src/lexer.rs). The source keeps a `Peekable<Chars>` cursor; here
    the lexer state is the remaining input, so every operation takes the
    unread characters and, on success, returns the token together with the
    characters still unread. */
module Lexer {
  import opened Wrappers
  import opened Tokens
  import opened Decimal

  /** Why `accept_next_token` produced no token. `EndOfInput` and `BadInt`
      are the two `Err(())` outcomes; `Unrecognised` is the `unreachable!()`
      arm, which aborts the source program. */
  datatype LexError = EndOfInput | BadInt | Unrecognised(c: char)

  /** The lexer's output as the parser sees it: the tokens that successive
      calls of `next_token` return, and the reason the first failing call
      failed. */
  datatype Stream = Stream(tokens: seq<Token>, stop: LexError)

  /** The four characters the dispatch of `accept_next_token` treats as
      whitespace. */
  predicate IsSeparator(c: char) {
    c == ' ' || c == '\n' || c == '\r' || c == '\t'
  }

  /** `char::is_ascii_whitespace`, used by the skipping loop: it also accepts
      form feed, which the dispatch does not. */
  predicate IsAsciiWhitespace(c: char) {
    IsSeparator(c) || c == '\U{C}'
  }

  /** The exclusive range pattern `'0'..'9'`: a `9` cannot start an integer. */
  predicate StartsInt(c: char) {
    '0' <= c < '9'
  }

  /** True when the digit run that `accept_int` would collect from `s` is
      immediately followed by something other than a digit. */
  predicate EndsRun(s: seq<char>) {
    s == [] || !IsDigit(s[0])
  }

  /** `rest` is what remains of `s` after at least one character was read. */
  predicate Consumed(s: seq<char>, rest: seq<char>) {
    |rest| < |s| && rest == s[|s| - |rest|..]
  }

  /** The input left after the `while … is_ascii_whitespace()` loop. */
  function SkipWhitespace(s: seq<char>): (r: seq<char>)
    ensures |r| <= |s| && r == s[|s| - |r|..]
    ensures forall k :: 0 <= k < |s| - |r| ==> IsAsciiWhitespace(s[k])
    ensures r == [] || !IsAsciiWhitespace(r[0])
  {
    if |s| > 0 && IsAsciiWhitespace(s[0]) then SkipWhitespace(s[1..]) else s
  }

  /** The length of the leading run of digits of `s` (`is_numeric`,
      restricted to ASCII). */
  function RunLength(s: seq<char>): (n: nat)
    ensures n <= |s|
    ensures forall k :: 0 <= k < n ==> IsDigit(s[k])
    ensures n == |s| || !IsDigit(s[n])
  {
    if |s| > 0 && IsDigit(s[0]) then 1 + RunLength(s[1..]) else 0
  }

  /** The maximal leading run of digits and the input after it. */
  function DigitRun(s: seq<char>): (r: (seq<char>, seq<char>))
    ensures r.0 + r.1 == s
    ensures AllDigits(r.0)
    ensures EndsRun(r.1)
  {
    var n := RunLength(s);
    assert s[..n] + s[n..] == s;
    (s[..n], s[n..])
  }

  /** `str::parse::<i32>` applied to a digit string. */
  function ParseI32(ds: seq<char>): (r: Option<i32>)
    requires AllDigits(ds)
    ensures r.Some? <==> |ds| > 0 && Value(ds) <= I32_MAX
    ensures r.Some? ==> r.value as int == Value(ds)
  {
    if |ds| > 0 && Value(ds) <= I32_MAX then Some(Value(ds) as i32) else None
  }

  function AcceptSingle(s: seq<char>, t: Token): (r: Result<(Token, seq<char>), LexError>)
    requires |s| > 0
    ensures r.Success? && r.value.0 == t
    ensures |r.value.1| == |s| - 1 && r.value.1 == s[1..]
  {
    Success((t, s[1..]))
  }

  function AcceptInt(s: seq<char>): (r: Result<(Token, seq<char>), LexError>)
    requires |s| > 0 && StartsInt(s[0])
    ensures r.Success? ==> |r.value.1| < |s|
    ensures r.Success? ==>
      var used := s[..|s| - |r.value.1|];
      && used + r.value.1 == s
      && AllDigits(used)
      && EndsRun(r.value.1)
      && r.value.0.Int?
      && r.value.0.value as int == Value(used)
    ensures r.Failure? ==> r.error == BadInt && I32_MAX < Value(DigitRun(s).0)
  {
    var (run, rest) := DigitRun(s);
    assert s[..|s| - |rest|] == run;
    match ParseI32(run)
    case Some(n) => Success((Int(n), rest))
    case None => Failure(BadInt)
  }

  function IgnoreWhiteAndAcceptNext(s: seq<char>): (r: Result<(Token, seq<char>), LexError>)
    requires |s| > 0 && IsSeparator(s[0])
    ensures r.Success? ==> Consumed(s, r.value.1)
    ensures r.Success? && r.value.0.Int? ==> r.value.0.value >= 0
    ensures r == AcceptNextToken(SkipWhitespace(s))
    decreases |s|, 0
  {
    var rest := SkipWhitespace(s);
    assert |rest| < |s|;
    AcceptNextToken(rest)
  }

  /** `accept_next_token`: one token from the front of `s`, skipping leading
      whitespace. */
  function AcceptNextToken(s: seq<char>): (r: Result<(Token, seq<char>), LexError>)
    ensures r.Success? ==> Consumed(s, r.value.1)
    ensures r.Success? && r.value.0.Int? ==> r.value.0.value >= 0
    decreases |s|, 1
  {
    if |s| == 0 then Failure(EndOfInput)
    else if IsSeparator(s[0]) then IgnoreWhiteAndAcceptNext(s)
    else if StartsInt(s[0]) then AcceptInt(s)
    else if s[0] == '+' then AcceptSingle(s, Plus)
    else if s[0] == '(' then AcceptSingle(s, LeftParen)
    else if s[0] == ')' then AcceptSingle(s, RightParen)
    else Failure(Unrecognised(s[0]))
  }

  /** True when lexing the front of `s` reaches the `unreachable!()` arm. */
  predicate Panics(s: seq<char>) {
    var r := AcceptNextToken(s);
    r.Failure? && r.error.Unrecognised?
  }

  /** `next_token`: both failures of `accept_next_token` become `None`, so a
      digit run that does not fit an `i32` cannot be told apart from the end
      of the input. */
  function NextToken(s: seq<char>): (r: Option<(Token, seq<char>)>)
    requires !Panics(s)
    ensures r.None? <==> AcceptNextToken(s) == Failure(EndOfInput) || AcceptNextToken(s) == Failure(BadInt)
    ensures r.Some? ==> AcceptNextToken(s) == Success(r.value)
  {
    match AcceptNextToken(s)
    case Success(tr) => Some(tr)
    case Failure(_) => None
  }

  /** The iterator run to its first `None` (or abort): the token stream a
      parser built on `Lexer::new(s)` pulls from. */
  function Lex(s: seq<char>): (r: Stream)
    ensures |r.tokens| <= |s|
    decreases |s|
  {
    match AcceptNextToken(s)
    case Success((t, rest)) =>
      var tail := Lex(rest);
      Stream([t] + tail.tokens, tail.stop)
    case Failure(e) => Stream([], e)
  }

  /** Every integer the lexer produces is non-negative: only digits are
      collected and there is no sign. */
  lemma {:induction false} LexNonNegative(s: seq<char>)
    ensures forall k :: 0 <= k < |Lex(s).tokens| && Lex(s).tokens[k].Int? ==> Lex(s).tokens[k].value >= 0
    decreases |s|
  {
    match AcceptNextToken(s)
    case Success((t, rest)) =>
      LexNonNegative(rest);
      assert Lex(s).tokens == [t] + Lex(rest).tokens;
    case Failure(_) =>
  }

  /** The digit run is maximal: it stops exactly where the digits do. */
  lemma {:induction false} DigitRunSplit(ds: seq<char>, u: seq<char>)
    requires AllDigits(ds) && EndsRun(u)
    ensures DigitRun(ds + u) == (ds, u)
  {
    if |ds| > 0 {
      assert (ds + u)[1..] == ds[1..] + u;
      DigitRunSplit(ds[1..], u);
      assert [ds[0]] + ds[1..] == ds;
    } else {
      assert ds + u == u;
    }
  }

  /** A digit run too large for an `i32` gives `None`, exactly like the end of
      the input. */
  lemma OverflowIsNone(ds: seq<char>, u: seq<char>)
    requires |ds| > 0 && AllDigits(ds) && StartsInt(ds[0]) && EndsRun(u)
    requires Value(ds) > I32_MAX
    ensures AcceptNextToken(ds + u) == Failure(BadInt)
    ensures NextToken(ds + u) == None && NextToken([]) == None
  {
    DigitRunSplit(ds, u);
    assert (ds + u)[0] == ds[0];
  }

  /** `accept_next_token` reports end of input only when nothing but
      whitespace is left. */
  lemma {:induction false} EndOfInputOnlyAfterWhitespace(s: seq<char>)
    requires AcceptNextToken(s) == Failure(EndOfInput)
    ensures forall k :: 0 <= k < |s| ==> IsAsciiWhitespace(s[k])
    decreases |s|
  {
    if |s| > 0 && IsSeparator(s[0]) {
      var rest := SkipWhitespace(s);
      EndOfInputOnlyAfterWhitespace(rest);
      assert rest == [];
    }
  }

  /** Empty input, and input made only of the four separator characters,
      yields no token. */
  lemma SeparatorsOnlyIsEnd(s: seq<char>)
    requires forall k :: 0 <= k < |s| ==> IsSeparator(s[k])
    ensures AcceptNextToken(s) == Failure(EndOfInput)
    ensures Lex(s) == Stream([], EndOfInput)
  {
    if |s| > 0 {
      assert SkipWhitespace(s) == [];
    }
  }

  /** Where lexing aborts: at a character of the input that is neither
      whitespace the dispatch accepts, nor `0`-`8`, nor a symbol. */
  lemma {:induction false} PanicCharacter(s: seq<char>)
    requires Panics(s)
    ensures var c := AcceptNextToken(s).error.c;
      && c in s
      && !IsSeparator(c) && !StartsInt(c)
      && c != '+' && c != '(' && c != ')'
    decreases |s|
  {
    if IsSeparator(s[0]) {
      var rest := SkipWhitespace(s);
      PanicCharacter(rest);
      var c := AcceptNextToken(s).error.c;
      var i :| 0 <= i < |rest| && rest[i] == c;
      assert s[|s| - |rest| + i] == c;
    }
  }

  /** How the first character decides the token: each symbol is one token
      advancing one character, and a `9` or a form feed in first position
      reaches the `unreachable!()` arm. */
  lemma FirstCharacter(s: seq<char>)
    requires |s| > 0
    ensures s[0] == '+' ==> AcceptNextToken(s) == Success((Plus, s[1..]))
    ensures s[0] == '(' ==> AcceptNextToken(s) == Success((LeftParen, s[1..]))
    ensures s[0] == ')' ==> AcceptNextToken(s) == Success((RightParen, s[1..]))
    ensures s[0] == '9' ==> AcceptNextToken(s) == Failure(Unrecognised('9'))
    ensures s[0] == '\U{C}' ==> AcceptNextToken(s) == Failure(Unrecognised('\U{C}'))
  {
  }
}
