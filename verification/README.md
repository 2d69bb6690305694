# Prefix-addition calculator: lexer, parser and evaluator

This project is a Dafny model of a small Rust calculator for prefix addition.
The core is five files:
- `src/token.rs`
- `src/ast.rs`
- `src/lexer.rs`: turns text into tokens.
- `src/parser.rs`: a recursive-descent parser with one token of lookahead that builds a tree for the grammar `Expr := Int | "+" Expr Expr`.
- `src/eval.rs`: sums the tree.

## Modules

| module | file | what it holds |
|---|---|---|
| `Wrappers` | `wrappers.dfy` | `Option` and `Result`. `Result` supports `:-`, which plays the role of Rust's `?`. |
| `Tokens` | `tokens.dfy` | The `i32` range as a newtype, and `Token` with its four variants. |
| `Ast` | `ast.dfy` | `Expr`, with `Num` and `Plus` only. |
| `Decimal` | `decimal.dfy` | The value of a digit string, and the canonical digit string of a number. |
| `Lexer` | `lexer.dfy` | The lexer. |
| `Parsing` | `parser.dfy` | The parser. |
| `Eval` | `eval.dfy` | `calculate`. |
| `Printer` | `printer.dfy` | Prints tokens and trees back as text, with single spaces between tokens, and with any whitespace between tokens (`Join`). The source has no printer. It serves as the independent partner of the lexer and the parser: lexing printed text gives back the tokens (`LexRender`). |
| `Pipeline` | `pipeline.dfy` | The three stages together, from text to value. |
| `Examples` | `examples.dfy` | The source's unit tests, and a few quirks, as lemmas about concrete inputs. |

### How the lexer is modelled

The lexer state is the unread input, a `seq<char>`. This stands in for the
`Peekable<Chars>` cursor.

`AcceptNextToken` returns the token and the input left after it. Its dispatch
matches the source arm for arm:
- The first character is looked at. Empty input is `EndOfInput`, which is the
  `Err(())` from `ok_or(())?`.
- Space, `\n`, `\r` and `\t` lead to the whitespace loop.
- `'0'..'9'` leads to `accept_int`. This is Rust's exclusive range, so `9` is
  not included.
- `+`, `(` and `)` are single-character tokens.
- Anything else is the `unreachable!()` arm, which aborts the program. It is
  modelled as `Unrecognised(c)`.

Three quirks of the code are kept as written:
- A `9` cannot start a number, although it can continue one. `LexLeadingNine`
  shows both.
- The whitespace loop skips `is_ascii_whitespace` characters. Form feed is one
  of them, but the dispatch does not accept form feed. So a form feed after a
  space is skipped, while a form feed in first position aborts.
- `next_token` turns both `Err(())` outcomes into `None`. The end of the input
  and an overflowing digit run therefore look the same to the parser
  (`NextToken`, `OverflowIsNone`).

### How the parser is modelled

The parser pulls tokens lazily. The model describes that lazy lexer eagerly:
`Lex(code)` is a `Stream` holding the tokens that successive `next_token`
calls return, together with the reason the first failing call failed.

The parser pulls tokens in order and stops pulling once its lookahead is
empty. Because of that, the parser observes exactly this stream. Pulling past
the last token gives `None` when the lexer stopped at the end of the input or
at an overflow, and aborts (`LexerPanic`) when it stopped at an unrecognised
character.

A parser state is the remaining stream plus the lookahead. `Pending` is the
sequence of tokens not yet consumed.

### How the evaluator is modelled

`Calculate` returns an `i32`. Its precondition `Fits` says that every addition
it performs stays within `i32`. Under that precondition, the result equals the
mathematical sum of the leaves.

### Where the code disagrees with itself

The model follows what each line does:
- `calculate` matches an `Expr::Parened` arm (src/eval.rs:7), but `Expr` in
  src/ast.rs:2-5 declares only `Num` and `Plus`. The model's `Expr` has the
  two declared variants.
- The lexer produces `(` and `)` tokens (src/lexer.rs:30-31), but
  `parse_expr` accepts neither: a parenthesis where an expression starts is
  `UnexpectedToken` (src/parser.rs:78).
- The pattern `'0'..'9'` at src/lexer.rs:28 is an exclusive range, so `9`
  cannot start a number. Yet the digit loop at src/lexer.rs:59 accepts `9`
  after the first digit. The model keeps both: `"9"` aborts while `"19"`
  lexes to `Int(19)`. The printer writes a number whose digits start with `9`
  with a leading zero (`"09"`), which the lexer reads back as that number.

## Model

| member | source | states |
|---|---|---|
| Lexer.SkipWhitespace | src/lexer.rs:49-52 | The loop leaves a suffix of the input. Every character it dropped is ASCII whitespace, form feed included. What remains does not start with ASCII whitespace. |
| Lexer.DigitRun | src/lexer.rs:57-61 | Splits the input into a leading run of digits and the rest. The run followed by the rest is the input, and the rest does not start with a digit, so the run is maximal. |
| Lexer.DigitRunSplit | src/lexer.rs:59-61 | The digit loop stops exactly where the digits stop: digits followed by a non-digit split there. |
| Lexer.ParseI32 | src/lexer.rs:63 | `parse::<i32>` on a digit run succeeds exactly when the run is non-empty and its decimal value is at most 2^31-1. When it succeeds, it holds that value. |
| Lexer.AcceptSingle | src/lexer.rs:41-45 | Gives the requested token and advances exactly one character. |
| Lexer.AcceptInt | src/lexer.rs:57-64 | On success, the consumed text is a maximal run of digits and the token is `Int` of its decimal value. The only failure is `BadInt`, and it happens only when that value exceeds the `i32` maximum. |
| Lexer.IgnoreWhiteAndAcceptNext | src/lexer.rs:49-55 | Its result is the dispatch applied to the input after the whitespace is skipped. A success consumes at least one character. |
| Lexer.AcceptNextToken | src/lexer.rs:25-36 | Every successful call consumes at least one character, so iterating terminates. Every `Int` it yields is non-negative. |
| Lexer.NextToken | src/lexer.rs:21-23 | `None` exactly when the underlying call failed with `EndOfInput` or `BadInt`, so both errors collapse into one. `Some` carries the token and the rest of the input. |
| Lexer.Lex | src/lexer.rs:67-73 | Iterating yields at most one token per input character. |
| Lexer.LexNonNegative | src/lexer.rs:57-63 | Every `Int` in the token stream of any input is non-negative. |
| Lexer.OverflowIsNone | src/lexer.rs:21-23 | A digit run that starts with `0`-`8`, is too large for `i32` and is followed by a non-digit gives `BadInt`. A run starting with `9` aborts instead. `next_token` then returns `None`, the same as on empty input. |
| Lexer.EndOfInputOnlyAfterWhitespace | src/lexer.rs:26 | `EndOfInput` is reported only when the rest of the input is all ASCII whitespace. |
| Lexer.SeparatorsOnlyIsEnd | src/lexer.rs:101-106 | Input made only of spaces, tabs, `\r` and `\n` (or empty input) yields no token: `EndOfInput` and an empty stream. |
| Lexer.PanicCharacter | src/lexer.rs:32 | When lexing aborts, the offending character occurs in the input. It is not an accepted separator, not `0`-`8`, and not `+`, `(` or `)`. |
| Lexer.FirstCharacter | src/lexer.rs:27-32 | `+`, `(` and `)` each yield their token and advance one character. A leading `9` or form feed reaches `unreachable!()`. |
| Printer.TextAccepted | src/lexer.rs:25-64 | The printed text of a symbol or a non-negative integer, followed by the end of input or a separator, lexes to exactly that token and leaves the rest. A leading `9` is printed after a `0`. |
| Printer.LexLeadingSeparator | src/lexer.rs:49-55 | A separator in front of text that does not start with whitespace does not change what lexing yields. |
| Printer.LexWhitespaceAmount | src/lexer.rs:49-55 | Any two runs of ASCII whitespace that start with a separator, put in front of the same text, lex alike. |
| Printer.LexRender | src/lexer.rs:67-73 | Printable tokens (symbols and non-negative integers) joined by single spaces lex back to exactly those tokens, followed by end of input. |
| Printer.LexJoin | src/lexer.rs:49-55 | Whitespace between tokens is skipped whatever its amount. Printable tokens separated by any runs of ASCII whitespace that start with a space, tab, `\r` or `\n` lex to exactly those tokens, followed by end of input. Such a run may also come before the first token or after the last. |
| Printer.LexJoined | src/lexer.rs:49-55 | The inductive core of `LexJoin`, without leading whitespace: printable tokens, each followed by its gap (the last gap may be empty), lex to exactly those tokens, followed by end of input. |
| Printer.LexGap | src/lexer.rs:49-55 | A run of ASCII whitespace starting with a separator, in front of text that does not start with whitespace, is skipped entirely. |
| Parsing.PullLex | src/lexer.rs:21-23 | Pulling from the token stream of a text is one `next_token` call on that text. An abort on the first character becomes `LexerPanic` with that character. A first step that fails otherwise gives `None` and leaves the stream unchanged. A token comes with the stream of the remaining text. |
| Parsing.Pull | src/lexer.rs:21-23 | One `next_token` call on the stream. It aborts only when the stream is exhausted and the lexer stopped on an unrecognised character. Otherwise it yields the next token, or `None` when none is left, and the rest. |
| Parsing.New | src/parser.rs:15-20 | Constructing a parser pulls exactly one token into the lookahead, leaving the pending tokens equal to the stream's. It aborts only when the first `next_token` call reaches `unreachable!()`: the first character not skipped as whitespace is unrecognised. |
| Parsing.LookaheadRef | src/parser.rs:22-25 | No lookahead is `UnexpectedEof`. Otherwise it returns the lookahead. |
| Parsing.LookaheadPending | src/parser.rs:22-25 | In a reachable parser state, `lookahead_ref` succeeds exactly when tokens are pending, and then returns the first pending token. |
| Parsing.MatchToken | src/parser.rs:27-30 | Fails with `UnexpectedEof` exactly when there is no lookahead. Otherwise it tells whether the lookahead equals the token. |
| Parsing.Advance | src/parser.rs:40-43 | The next token of the stream replaces the lookahead. The pending tokens become the rest of the stream. |
| Parsing.Consume | src/parser.rs:45-56 | Advances only when the lookahead equals the token, consuming exactly that one token. Otherwise it gives `UnexpectedEof` (no lookahead) or `UnexpectedToken(found)`. With a matching lookahead, the only possible failure is a lexer abort, so the call at line 60 never gives a syntax error. |
| Parsing.ParseInt | src/parser.rs:70-80 | A lookahead `Int(n)` yields `n` and consumes exactly that token, unless the pull after it reaches `unreachable!()`, which aborts with that character. No lookahead is `UnexpectedEof`, and any other token is `UnexpectedToken` carrying it. |
| Parsing.ParseExpr | src/parser.rs:58-68 | On success, the consumed tokens are exactly the prefix form of the returned tree, and the parser state remains reachable. |
| Parsing.ParseExprRejects | src/parser.rs:70-80 | An empty lookahead where an expression must start is `UnexpectedEof`. A `(` or `)` there is `UnexpectedToken` carrying it. |
| Parsing.PrefixHasNoParens | src/parser.rs:58-80 | The grammar the parser accepts contains no parenthesis token. |
| Parsing.ParseExprPrefix | src/parser.rs:58-80 | Round trip: pending tokens that are the prefix form of `e` followed by any tokens parse to `e` and leave exactly the trailing tokens. Trailing input is not an error. The exception is when nothing trails and the lexer stopped at an unrecognised character: the final pull aborts. |
| Parsing.ParsePlusPrefix | src/parser.rs:59-65 | The `+` case of the round trip: `+` is consumed, then the left operand is parsed in full, then the right. |
| Parsing.ParseExprTruncated | src/parser.rs:58-80 | A proper initial part of a prefix form, when the lexer stopped at the end of input or at an overflow, fails with `UnexpectedEof`. |
| Parsing.TruncatedPlus | src/parser.rs:59-65 | The `+` case of truncation: the input runs out inside the left operand or inside the right one. |
| Parsing.PrefixUnambiguous | src/parser.rs:58-68 | Two trees whose prefix forms start the same token sequence are the same tree, with the same tokens after. |
| Parsing.ParseTokensPrefix | src/parser.rs:15-20 | A parser built on a stream whose tokens are a prefix form followed by anything parses that tree and leaves the trailing tokens. |
| Eval.Calculate | src/eval.rs:3-9 | When every partial sum fits in `i32`, the value is the mathematical sum of all leaves. |
| Eval.CalculateArms | src/eval.rs:4-6 | `Num(n)` evaluates to `n`, and `Plus(l, r)` to the value of `l` plus the value of `r`. |
| Eval.NonNegativeFits | src/eval.rs:6 | With non-negative leaves, a total within `i32` guarantees that every addition stays within `i32`. |
| Pipeline.ShowRoundTrip | src/parser.rs:58-80 | Printing any tree with non-negative leaves, then lexing and parsing the text, gives back the same tree. With `ParsedLeavesNonNegative`, this says the parser returns from text exactly the trees with non-negative leaves. |
| Pipeline.ParseLexedPrefix | src/parser.rs:58-68 | Text that lexes to exactly the prefix form of a tree parses to that tree. |
| Pipeline.ParsedLeavesNonNegative | src/lexer.rs:57-63 | Every tree parsed from text has non-negative leaves. |
| Pipeline.EvaluateParsed | src/eval.rs:3-9 | A tree parsed from text can be evaluated as soon as its total fits in `i32`, and its value is then non-negative. |
| Pipeline.EndToEnd | src/eval.rs:3-9 | The printed form of any tree with non-negative leaves whose total fits in `i32` parses back to it and evaluates to the sum of its leaves. |
| Pipeline.TruncatedSource | src/parser.rs:40-43 | Text whose tokens stop inside an expression fails with `UnexpectedEof`, both when the text ends and when a digit run overflows. |
| Examples.LexUnnestedAddition | src/lexer.rs:91-99 | `"+ 1 2"` lexes to `Plus, Int(1), Int(2)`, then end of input. |
| Examples.LexWhitespaceOnly | src/lexer.rs:101-106 | The test's whitespace-only text yields no token. |
| Examples.LexParenthesised | src/lexer.rs:108-116 | `"(1)"` yields `LeftParen, Int(1), RightParen`, each advancing past its text, and leaves nothing unread. |
| Examples.LexLeadingNine | src/lexer.rs:28 | `"9"` aborts, while `"19"` lexes to `Int(19)`. |
| Examples.ParseOne | src/parser.rs:87-93 | `"1"` parses to `Num(1)`. |
| Examples.ParseUnnestedAddition | src/parser.rs:95-104 | `"+ 1 2"` parses to `Plus(Num(1), Num(2))`. |
| Examples.ParseMissingOperand | src/parser.rs:23-25 | `"+ 1"` fails with `UnexpectedEof`. |
| Examples.ParseStrayParenthesis | src/parser.rs:78 | A stream starting with `)` fails with `UnexpectedToken(RightParen)`. |
| Examples.CalculateSmall | src/eval.rs:15-32 | `Plus(Num 1, Num 2)` evaluates to 3, and `Plus(Num 1, Plus(Num 2, Num 3))` to 6. |

The `single_num` lexer test (`"1 23 4 567 0"`) is covered by
`Printer.LexRender`. That lemma holds for every list of printable tokens, and
this text is the rendering of `1, 23, 4, 567, 0`.

## Left out

- The `Expr::Parened` arm of `calculate` (src/eval.rs:7) is not modelled. `src/ast.rs` declares no such variant, so the model follows the tree type as declared.
- `match_int` (src/parser.rs:32-38) is not modelled. Nothing calls it.
- `char::is_numeric` also accepts non-ASCII numerals. The model treats only `0`-`9` as digits. The standard library's numeral tables and `parse`'s handling of such characters are outside this model.
- Eval.Calculate: does not model `i32` overflow. Its precondition requires every partial sum to fit. Unchecked `+` panics in debug builds and wraps in release builds, and the build mode is not part of the source.
- Lexer.Lex: its own contract only bounds the number of tokens. What the tokens are is stated by `LexNonNegative`, `LexRender`, `TextAccepted` and the example lemmas.
- What the lexer does when called again after a failing call is not modelled. After `BadInt` the digits are already consumed. The parser never pulls again after a `None` lookahead, so the stream ends at the first failure.
- The `Iterator` impl, `Box`, borrowing, and the derived `Debug`/`PartialEq` are not modelled separately. Dafny datatypes are finite trees with structural equality, which is what the derives provide.
- The abort in `unreachable!()` is a value (`Unrecognised`, `LexerPanic`), not a process exit.
