/** The evaluator (src/eval.rs): structural recursion summing the tree.

    The source adds with unchecked `i32` `+`; the model asks that every
    partial sum fit in an `i32` (`Fits`), and proves that for trees with
    non-negative leaves, such as every tree the parser builds from text,
    this holds exactly when the total does. */
module Eval {
  import opened Tokens
  import opened Ast

  /** The leaves of `e`, left to right. */
  function Leaves(e: Expr): seq<i32> {
    match e
    case Num(n) => [n]
    case Plus(l, r) => Leaves(l) + Leaves(r)
  }

  /** The mathematical sum of a sequence of `i32` values. */
  function Sum(xs: seq<i32>): int {
    if |xs| == 0 then 0 else xs[0] as int + Sum(xs[1..])
  }

  lemma {:induction false} SumAppend(a: seq<i32>, b: seq<i32>)
    ensures Sum(a + b) == Sum(a) + Sum(b)
  {
    if |a| > 0 {
      assert (a + b)[1..] == a[1..] + b;
      SumAppend(a[1..], b);
    } else {
      assert a + b == b;
    }
  }

  predicate NonNegativeLeaves(e: Expr) {
    forall k :: 0 <= k < |Leaves(e)| ==> Leaves(e)[k] >= 0
  }

  /** Every addition performed while evaluating `e` stays within `i32`. */
  predicate Fits(e: Expr) {
    match e
    case Num(_) => true
    case Plus(l, r) => Fits(l) && Fits(r) && InI32(Sum(Leaves(l)) + Sum(Leaves(r)))
  }

  /** `calculate`: the value of a tree is the sum of its leaves. */
  function Calculate(e: Expr): (v: i32)
    requires Fits(e)
    ensures v as int == Sum(Leaves(e))
  {
    match e
    case Num(n) => n
    case Plus(l, r) =>
      SumAppend(Leaves(l), Leaves(r));
      (Calculate(l) as int + Calculate(r) as int) as i32
  }

  /** The two arms of `calculate`: a leaf is its own value, and a sum node
      adds the values of its operands. */
  lemma CalculateArms(n: i32, l: Expr, r: Expr)
    ensures Calculate(Num(n)) == n
    ensures Fits(Expr.Plus(l, r)) ==> Calculate(Expr.Plus(l, r)) as int == Calculate(l) as int + Calculate(r) as int
  {
  }

  lemma {:induction false} SumNonNegative(xs: seq<i32>)
    requires forall k :: 0 <= k < |xs| ==> xs[k] >= 0
    ensures Sum(xs) >= 0
  {
    if |xs| > 0 {
      SumNonNegative(xs[1..]);
    }
  }

  /** With non-negative leaves, no partial sum exceeds the total, so a total
      that fits an `i32` is enough for `Calculate` to be defined. */
  lemma {:induction false} NonNegativeFits(e: Expr)
    requires NonNegativeLeaves(e)
    requires Sum(Leaves(e)) <= I32_MAX
    ensures Fits(e)
  {
    match e
    case Num(_) =>
    case Plus(l, r) =>
      NonNegativeOperands(l, r);
      NonNegativeFits(l);
      NonNegativeFits(r);
  }

  /** The operands of a sum node with non-negative leaves have non-negative
      leaves, and their totals are bounded by the node's. */
  lemma NonNegativeOperands(l: Expr, r: Expr)
    requires NonNegativeLeaves(Expr.Plus(l, r))
    ensures NonNegativeLeaves(l) && NonNegativeLeaves(r)
    ensures 0 <= Sum(Leaves(l)) && 0 <= Sum(Leaves(r))
    ensures Sum(Leaves(l)) + Sum(Leaves(r)) == Sum(Leaves(Expr.Plus(l, r)))
  {
    var ls, rs := Leaves(l), Leaves(r);
    var all := Leaves(Expr.Plus(l, r));
    assert all == ls + rs;
    forall k | 0 <= k < |ls|
      ensures ls[k] >= 0
    {
      assert ls[k] == all[k];
    }
    forall k | 0 <= k < |rs|
      ensures rs[k] >= 0
    {
      assert rs[k] == all[|ls| + k];
    }
    SumAppend(ls, rs);
    SumNonNegative(ls);
    SumNonNegative(rs);
  }
}
