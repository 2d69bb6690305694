/** Printing tokens and trees back to source text, the partner of the lexer:
    lexing printed tokens gives the tokens back, provided each one is
    something the lexer can produce. */
module Printer {
  import opened Wrappers
  import opened Tokens
  import opened Ast
  import opened Decimal
  import opened Lexer
  import Parsing

  /** The text of a token. A number whose digits start with `9` gets a
      leading zero, since the lexer cannot start a number with `9`. */
  function Text(t: Token): (s: seq<char>)
    ensures |s| > 0 && !IsAsciiWhitespace(s[0])
  {
    match t
    case Int(n) =>
      if n < 0 then "-" + Digits(-(n as int))
      else if Digits(n as nat)[0] == '9' then ['0'] + Digits(n as nat)
      else Digits(n as nat)
    case Plus => "+"
    case LeftParen => "("
    case RightParen => ")"
  }

  /** Tokens the lexer can produce: symbols, and non-negative integers. */
  predicate Printable(t: Token) {
    t.Int? ==> t.value >= 0
  }

  predicate AllPrintable(ts: seq<Token>) {
    forall k :: 0 <= k < |ts| ==> Printable(ts[k])
  }

  /** The tokens' texts separated by single spaces. */
  function Render(ts: seq<Token>): (s: seq<char>)
    ensures |ts| > 0 ==> |s| > 0 && s[0] == Text(ts[0])[0]
  {
    if |ts| == 0 then []
    else if |ts| == 1 then Text(ts[0])
    else Text(ts[0]) + " " + Render(ts[1..])
  }

  /** The prefix-notation text of a tree. */
  function Show(e: Expr): seq<char> {
    Render(Parsing.Prefix(e))
  }

  /** The text of a printable token, followed by a separator or nothing,
      lexes to exactly that token. */
  lemma TextAccepted(t: Token, u: seq<char>)
    requires Printable(t)
    requires u == [] || IsSeparator(u[0])
    ensures AcceptNextToken(Text(t) + u) == Success((t, u))
  {
    var s := Text(t) + u;
    if t.Int? {
      var ds := Digits(t.value as nat);
      ValueOfDigits(t.value as nat);
      if ds[0] == '9' {
        var z := ['0'] + ds;
        assert Text(t) == z;
        ValueLeadingZero(ds);
        DigitRunSplit(z, u);
        assert s[0] == '0';
      } else {
        assert Text(t) == ds;
        DigitRunSplit(ds, u);
        assert s[0] == ds[0];
      }
    } else {
      assert s[1..] == u;
    }
  }

  lemma {:induction false} SkipWhitespaceAppend(w: seq<char>, t: seq<char>)
    requires forall k :: 0 <= k < |w| ==> IsAsciiWhitespace(w[k])
    ensures SkipWhitespace(w + t) == SkipWhitespace(t)
  {
    if |w| > 0 {
      assert (w + t)[1..] == w[1..] + t;
      SkipWhitespaceAppend(w[1..], t);
    } else {
      assert w + t == t;
    }
  }

  /** A run of whitespace the lexer skips between tokens: it must start with
      a separator, since a form feed in front of a token is not dispatched. */
  predicate Gap(w: seq<char>) {
    |w| > 0 && IsSeparator(w[0]) && forall k :: 0 <= k < |w| ==> IsAsciiWhitespace(w[k])
  }

  /** Whitespace is skipped whatever its amount: any two non-empty runs of
      whitespace starting with a separator lex the rest of the input alike. */
  lemma LexWhitespaceAmount(w1: seq<char>, w2: seq<char>, t: seq<char>)
    requires Gap(w1) && Gap(w2)
    ensures Lex(w1 + t) == Lex(w2 + t)
  {
    SkipWhitespaceAppend(w1, t);
    SkipWhitespaceAppend(w2, t);
    assert AcceptNextToken(w1 + t) == AcceptNextToken(SkipWhitespace(t)) by {
      assert (w1 + t)[0] == w1[0];
    }
    assert AcceptNextToken(w2 + t) == AcceptNextToken(SkipWhitespace(t)) by {
      assert (w2 + t)[0] == w2[0];
    }
  }

  /** A single separator in front of text that does not start with
      whitespace is skipped. */
  lemma LexLeadingSeparator(c: char, t: seq<char>)
    requires IsSeparator(c)
    requires t == [] || !IsAsciiWhitespace(t[0])
    ensures Lex([c] + t) == Lex(t)
  {
    SkipSeparator(c, t);
    LexSameStep([c] + t, t);
  }

  lemma SkipSeparator(c: char, t: seq<char>)
    requires IsSeparator(c)
    requires t == [] || !IsAsciiWhitespace(t[0])
    ensures AcceptNextToken([c] + t) == AcceptNextToken(t)
  {
    var s := [c] + t;
    assert s[1..] == t;
    assert SkipWhitespace(s) == t;
  }

  /** `Lex` depends on its input only through the first step. */
  lemma LexSameStep(a: seq<char>, b: seq<char>)
    requires AcceptNextToken(a) == AcceptNextToken(b)
    ensures Lex(a) == Lex(b)
  {
  }

  lemma LexAfterText(t: Token, u: seq<char>)
    requires Printable(t)
    requires u == [] || IsSeparator(u[0])
    ensures Lex(Text(t) + u) == Stream([t] + Lex(u).tokens, Lex(u).stop)
  {
    TextAccepted(t, u);
  }

  /** A printable token, one space, then text that does not start with
      whitespace: the token, then whatever that text lexes to. */
  lemma LexTextSpace(t: Token, tail: seq<char>)
    requires Printable(t)
    requires tail == [] || !IsAsciiWhitespace(tail[0])
    ensures Lex(Text(t) + ([' '] + tail)) == Stream([t] + Lex(tail).tokens, Lex(tail).stop)
  {
    LexAfterText(t, [' '] + tail);
    LexLeadingSeparator(' ', tail);
  }

  /** One step of `LexRender`: the first token, then whatever the rest lexes to. */
  lemma LexRenderStep(ts: seq<Token>)
    requires |ts| >= 2 && Printable(ts[0])
    ensures var tail := Lex(Render(ts[1..]));
      Lex(Render(ts)) == Stream([ts[0]] + tail.tokens, tail.stop)
  {
    RenderStep(ts);
    LexTextSpace(ts[0], Render(ts[1..]));
  }

  lemma RenderStep(ts: seq<Token>)
    requires |ts| >= 2
    ensures Render(ts) == Text(ts[0]) + ([' '] + Render(ts[1..]))
  {
    assert Text(ts[0]) + " " + Render(ts[1..]) == Text(ts[0]) + ([' '] + Render(ts[1..]));
  }

  /** Lexing the text of printable tokens separated by spaces gives back
      exactly those tokens, then end of input. */
  lemma {:induction false} LexRender(ts: seq<Token>)
    requires AllPrintable(ts)
    ensures Lex(Render(ts)) == Stream(ts, EndOfInput)
  {
    if |ts| == 0 {
    } else if |ts| == 1 {
      LexAfterText(ts[0], []);
      assert Text(ts[0]) + [] == Text(ts[0]);
    } else {
      assert AllPrintable(ts[1..]) by {
        forall k | 0 <= k < |ts| - 1
          ensures Printable(ts[1..][k])
        {
          assert ts[1..][k] == ts[k + 1];
        }
      }
      LexRenderStep(ts);
      LexRender(ts[1..]);
      assert [ts[0]] + ts[1..] == ts;
    }
  }

  /** The gaps after each token: every one a `Gap`, except that the last may
      be empty. */
  predicate Gaps(gaps: seq<seq<char>>) {
    forall i :: 0 <= i < |gaps| ==> Gap(gaps[i]) || (i == |gaps| - 1 && gaps[i] == [])
  }

  /** The text of `ts`, each token followed by its gap. */
  function Join(ts: seq<Token>, gaps: seq<seq<char>>): (s: seq<char>)
    requires |gaps| == |ts|
    ensures |ts| > 0 ==> |s| > 0 && s[0] == Text(ts[0])[0]
  {
    if |ts| == 0 then [] else Text(ts[0]) + (gaps[0] + Join(ts[1..], gaps[1..]))
  }

  /** A gap in front of text that does not start with whitespace is skipped. */
  lemma LexGap(w: seq<char>, rest: seq<char>)
    requires Gap(w)
    requires rest == [] || !IsAsciiWhitespace(rest[0])
    ensures Lex(w + rest) == Lex(rest)
  {
    SkipWhitespaceAppend(w, rest);
    assert (w + rest)[0] == w[0];
    LexSameStep(w + rest, rest);
  }

  /** One step of `LexJoin`: the first token, then whatever the rest lexes to. */
  lemma LexJoinStep(ts: seq<Token>, gaps: seq<seq<char>>)
    requires |ts| >= 2 && |gaps| == |ts| && Printable(ts[0]) && Gap(gaps[0])
    ensures var tail := Lex(Join(ts[1..], gaps[1..]));
      Lex(Join(ts, gaps)) == Stream([ts[0]] + tail.tokens, tail.stop)
  {
    var rest := Join(ts[1..], gaps[1..]);
    assert (gaps[0] + rest)[0] == gaps[0][0];
    LexAfterText(ts[0], gaps[0] + rest);
    LexGap(gaps[0], rest);
  }

  /** Whitespace between tokens is skipped whatever its amount: printable
      tokens separated by any gaps, with optional whitespace before the first
      and after the last, lex to exactly those tokens, then end of input. */
  lemma LexJoin(lead: seq<char>, ts: seq<Token>, gaps: seq<seq<char>>)
    requires AllPrintable(ts) && |gaps| == |ts| && Gaps(gaps)
    requires lead == [] || Gap(lead)
    ensures Lex(lead + Join(ts, gaps)) == Stream(ts, EndOfInput)
  {
    LexJoined(ts, gaps);
    if lead == [] {
      assert lead + Join(ts, gaps) == Join(ts, gaps);
    } else {
      LexGap(lead, Join(ts, gaps));
    }
  }

  lemma {:induction false} LexJoined(ts: seq<Token>, gaps: seq<seq<char>>)
    requires AllPrintable(ts) && |gaps| == |ts| && Gaps(gaps)
    ensures Lex(Join(ts, gaps)) == Stream(ts, EndOfInput)
    decreases |ts|
  {
    if |ts| == 1 {
      LexLastToken(ts, gaps);
    } else if |ts| >= 2 {
      JoinTail(ts, gaps);
      LexJoinStep(ts, gaps);
      LexJoined(ts[1..], gaps[1..]);
      assert [ts[0]] + ts[1..] == ts;
    }
  }

  /** The last token, followed by its gap or by nothing. */
  lemma LexLastToken(ts: seq<Token>, gaps: seq<seq<char>>)
    requires |ts| == 1 && |gaps| == 1 && Printable(ts[0])
    requires Gap(gaps[0]) || gaps[0] == []
    ensures Lex(Join(ts, gaps)) == Stream(ts, EndOfInput)
  {
    assert Join(ts, gaps) == Text(ts[0]) + gaps[0];
    LexAfterText(ts[0], gaps[0]);
    if gaps[0] != [] {
      LexGap(gaps[0], []);
      assert gaps[0] + [] == gaps[0];
    }
  }

  /** Dropping the first token keeps the hypotheses of `LexJoined`, and with
      two tokens or more the first gap is not empty. */
  lemma JoinTail(ts: seq<Token>, gaps: seq<seq<char>>)
    requires |ts| >= 2 && AllPrintable(ts) && |gaps| == |ts| && Gaps(gaps)
    ensures AllPrintable(ts[1..]) && Gaps(gaps[1..])
    ensures Printable(ts[0]) && Gap(gaps[0])
  {
    forall k | 0 <= k < |ts| - 1
      ensures Printable(ts[1..][k])
    {
      assert ts[1..][k] == ts[k + 1];
    }
    forall i | 0 <= i < |gaps| - 1
      ensures Gap(gaps[1..][i]) || (i == |gaps| - 2 && gaps[1..][i] == [])
    {
      assert gaps[1..][i] == gaps[i + 1];
    }
  }
}
