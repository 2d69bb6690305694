/** The syntax tree (src/ast.rs): a leaf `Num` or an interior `Plus` owning an
    ordered pair of children. Dafny datatypes are finite and acyclic, which is
    what the single-owner `Box` children give in the source. There is no
    `Parened` variant. */
module Ast {
  import opened Tokens

  datatype Expr = Num(value: i32) | Plus(left: Expr, right: Expr)
}
