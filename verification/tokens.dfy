/** The lexical vocabulary (src/token.rs): four closed variants, structural
    equality (Dafny datatype equality is structural, like the derived
    `PartialEq`), no position information. */
module Tokens {

  const I32_MIN: int := -0x8000_0000
  const I32_MAX: int := 0x7FFF_FFFF

  /** Rust's `i32`: the payload type of `Token::Int` and `Expr::Num`. */
  newtype i32 = x: int | I32_MIN <= x <= I32_MAX

  predicate InI32(x: int) {
    I32_MIN <= x <= I32_MAX
  }

  datatype Token = Int(value: i32) | Plus | LeftParen | RightParen
}
