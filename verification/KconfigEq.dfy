/**
 Structural comparison of expressions by cancelling equal operands, and factoring out common
 operands (scripts/kconfig/expr.c: __expr_eliminate_eq, expr_eliminate_eq, expr_eq, expr_extract_eq).
 */
module KconfigEq {
  import opened Options
  import opened KconfigExpr

  /** __expr_eliminate_eq: cancel pairwise equal operands of two op-chains. */
  function CancelOperands(op: Op, e1: Expr, e2: Expr): (r: (Expr, Expr))
    ensures Size(r.0) <= Size(e1) && Size(r.1) <= Size(e2)
    decreases Size(e1) + Size(e2), if IsOp(op, e1) || IsOp(op, e2) then 0 else 3
  {
    if IsOp(op, e1) then
      var (l, f2) := CancelOperands(op, e1.l, e2);
      var (r, g2) := CancelOperands(op, e1.r, f2);
      (Bin(op, l, r), g2)
    else if IsOp(op, e2) then
      var (f1, l) := CancelOperands(op, e1, e2.l);
      var (g1, r) := CancelOperands(op, f1, e2.r);
      (g1, Bin(op, l, r))
    else if e1.Sym? && e1 == e2 && HasYesNoFlag(e1.s) then (e1, e2)
    else if !Eq(e1, e2) then (e1, e2)
    else (Neutral(op), Neutral(op))
  }

  /** expr_eliminate_eq */
  function Cancel(e1: Expr, e2: Expr): (r: (Expr, Expr))
    ensures Size(r.0) <= Size(e1) && Size(r.1) <= Size(e2)
    decreases Size(e1) + Size(e2), 1
  {
    var (f1, f2) := if e1.Bin? then CancelOperands(e1.op, e1, e2) else (e1, e2);
    var (g1, g2) := if f2.Bin? && !IsOp(f2.op, f1) then CancelOperands(f2.op, f1, f2) else (f1, f2);
    (EliminateYn(g1), EliminateYn(g2))
  }

  /** expr_eq */
  function Eq(e1: Expr, e2: Expr): bool
    decreases Size(e1) + Size(e2), 2
  {
    match e1
    case Cmp(_, _, _) => e1 == e2
    case Sym(_) => e1 == e2
    case Not(x) => e2.Not? && Eq(x, e2.e)
    case Bin(op, _, _) =>
      IsOp(op, e2) &&
      var (f1, f2) := Cancel(e1, e2);
      f1.Sym? && f1 == f2
  }

  /** Symbols, comparisons and negated symbols are compared by identity. */
  lemma EqIsIdentity(x: Expr, y: Expr)
    requires x.Sym? || x.Cmp? || (x.Not? && x.e.Sym?)
    ensures Eq(x, y) <==> x == y
  {
    if x.Not? && y.Not? { assert Eq(x.e, y.e) <==> x.e == y.e; }
  }

  /** Both inputs are op(common part, remainder): v is the value of the part that was cancelled. */
  ghost predicate SplitBy(op: Op, v: Tri, a: Tri, a': Tri, b: Tri, b': Tri) {
    a == Combine(op, v, a') && b == Combine(op, v, b')
  }

  /** Splitting the two operands of a chain one after the other splits the chain. */
  lemma SplitChain(op: Op, v1: Tri, v2: Tri, l: Tri, l': Tri, r: Tri, r': Tri, b: Tri, b': Tri, c: Tri)
    requires SplitBy(op, v1, l, l', b, b') && SplitBy(op, v2, r, r', b', c)
    ensures SplitBy(op, Combine(op, v1, v2), Combine(op, l, r), Combine(op, l', r'), b, c)
  {
  }

  lemma {:induction false} CancelOperandsSound(op: Op, e1: Expr, e2: Expr, env: Env) returns (v: Tri)
    requires Valid(env)
    ensures var (r1, r2) := CancelOperands(op, e1, e2);
            SplitBy(op, v, Value(e1, env), Value(r1, env), Value(e2, env), Value(r2, env))
    decreases Size(e1) + Size(e2), if IsOp(op, e1) || IsOp(op, e2) then 0 else 3
  {
    ConstantValues(op, env);
    if IsOp(op, e1) {
      var (l, f2) := CancelOperands(op, e1.l, e2);
      var (r, g2) := CancelOperands(op, e1.r, f2);
      var v1 := CancelOperandsSound(op, e1.l, e2, env);
      var v2 := CancelOperandsSound(op, e1.r, f2, env);
      v := Combine(op, v1, v2);
      SplitChain(op, v1, v2, Value(e1.l, env), Value(l, env), Value(e1.r, env), Value(r, env),
                 Value(e2, env), Value(f2, env), Value(g2, env));
    } else if IsOp(op, e2) {
      var (f1, l) := CancelOperands(op, e1, e2.l);
      var (g1, r) := CancelOperands(op, f1, e2.r);
      var v1 := CancelOperandsSound(op, e1, e2.l, env);
      var v2 := CancelOperandsSound(op, f1, e2.r, env);
      v := Combine(op, v1, v2);
      SplitChain(op, v1, v2, Value(e2.l, env), Value(l, env), Value(e2.r, env), Value(r, env),
                 Value(e1, env), Value(f1, env), Value(g1, env));
    } else if (e1.Sym? && e1 == e2 && HasYesNoFlag(e1.s)) || !Eq(e1, e2) {
      v := Unit(op);
    } else {
      EqSound(e1, e2, env);
      v := Value(e1, env);
    }
  }

  /** Cancellation preserves the order of the two values in this sense: the first pass splits both
      sides by one common value, the second, with the other operator, splits what is left. */
  lemma {:induction false} CancelSound(e1: Expr, e2: Expr, env: Env) returns (op: Op, v: Tri, w: Tri)
    requires Valid(env)
    ensures var (r1, r2) := Cancel(e1, e2);
            && Value(e1, env) == Combine(op, v, Combine(Dual(op), w, Value(r1, env)))
            && Value(e2, env) == Combine(op, v, Combine(Dual(op), w, Value(r2, env)))
    decreases Size(e1) + Size(e2), 1
  {
    var (f1, f2) := if e1.Bin? then CancelOperands(e1.op, e1, e2) else (e1, e2);
    var (g1, g2) := if f2.Bin? && !IsOp(f2.op, f1) then CancelOperands(f2.op, f1, f2) else (f1, f2);
    EliminateYnPreservesValue(g1, env);
    EliminateYnPreservesValue(g2, env);
    op := if e1.Bin? then e1.op else if f2.Bin? then Dual(f2.op) else AndOp;
    v, w := Unit(op), Unit(Dual(op));
    if e1.Bin? {
      v := CancelOperandsSound(e1.op, e1, e2, env);
      assert f1.Bin? && f1.op == e1.op;
    }
    if f2.Bin? && !IsOp(f2.op, f1) {
      w := CancelOperandsSound(f2.op, f1, f2, env);
    }
  }

  /** expr_eq is sound for all three values: equal expressions have the same value everywhere. */
  lemma {:induction false} EqSound(e1: Expr, e2: Expr, env: Env)
    requires Valid(env) && Eq(e1, e2)
    ensures Value(e1, env) == Value(e2, env)
    decreases Size(e1) + Size(e2), 2
  {
    match e1
    case Cmp(_, _, _) =>
    case Sym(_) =>
    case Not(x) => EqSound(x, e2.e, env);
    case Bin(_, _, _) => var _, _, _ := CancelSound(e1, e2, env);
  }

  /** When cancelling leaves the constant y on the right, the left side implies the right side. */
  lemma CancelToYesIsImplication(e1: Expr, e2: Expr, env: Env)
    requires Valid(env) && Cancel(e1, e2).1 == YES
    ensures Value(e1, env) <= Value(e2, env)
  {
    var op, v, w := CancelSound(e1, e2, env);
    ConstantValues(AndOp, env);
    CommonPartIsMonotone(op, v, w, Value(Cancel(e1, e2).0, env));
  }

  lemma CommonPartIsMonotone(op: Op, v: Tri, w: Tri, x: Tri)
    ensures Combine(op, v, Combine(Dual(op), w, x)) <= Combine(op, v, Combine(Dual(op), w, 2))
  {
  }

  // ----- factoring -----

  datatype Factored = Factored(common: Option<Expr>, rest1: Expr, rest2: Expr)

  /** expr_extract_eq: move pairwise equal operands of two op-chains to the common factor. */
  function ExtractOperands(op: Op, common: Option<Expr>, e1: Expr, e2: Expr): (f: Factored)
    ensures Size(f.rest1) <= Size(e1) && Size(f.rest2) <= Size(e2)
    decreases Size(e1) + Size(e2)
  {
    if IsOp(op, e1) then
      var a := ExtractOperands(op, common, e1.l, e2);
      var b := ExtractOperands(op, a.common, e1.r, a.rest2);
      Factored(b.common, Bin(op, a.rest1, b.rest1), b.rest2)
    else if IsOp(op, e2) then
      var a := ExtractOperands(op, common, e1, e2.l);
      var b := ExtractOperands(op, a.common, a.rest1, e2.r);
      Factored(b.common, b.rest1, Bin(op, a.rest2, b.rest2))
    else if Eq(e1, e2) then
      Factored(Some(if common.Some? then Bin(op, common.value, e1) else e1), Neutral(op), Neutral(op))
    else Factored(common, e1, e2)
  }

  /** expr_extract_eq_and and expr_extract_eq_or */
  function Extract(op: Op, e1: Expr, e2: Expr): Factored {
    var f := ExtractOperands(op, None, e1, e2);
    if f.common.Some? then f.(rest1 := EliminateYn(f.rest1), rest2 := EliminateYn(f.rest2)) else f
  }

  function CommonValue(op: Op, c: Option<Expr>, env: Env): Tri {
    if c.Some? then Value(c.value, env) else Unit(op)
  }

  lemma CombineAssociates(op: Op, a: Tri, b: Tri, c: Tri)
    ensures Combine(op, Combine(op, a, b), c) == Combine(op, a, Combine(op, b, c))
  {
  }

  lemma {:induction false} ExtractOperandsSound(op: Op, c: Option<Expr>, e1: Expr, e2: Expr, env: Env) returns (v: Tri)
    requires Valid(env)
    ensures var f := ExtractOperands(op, c, e1, e2);
            && CommonValue(op, f.common, env) == Combine(op, CommonValue(op, c, env), v)
            && SplitBy(op, v, Value(e1, env), Value(f.rest1, env), Value(e2, env), Value(f.rest2, env))
    decreases Size(e1) + Size(e2)
  {
    ConstantValues(op, env);
    if IsOp(op, e1) {
      var a := ExtractOperands(op, c, e1.l, e2);
      var b := ExtractOperands(op, a.common, e1.r, a.rest2);
      var v1 := ExtractOperandsSound(op, c, e1.l, e2, env);
      var v2 := ExtractOperandsSound(op, a.common, e1.r, a.rest2, env);
      v := Combine(op, v1, v2);
      CombineAssociates(op, CommonValue(op, c, env), v1, v2);
      SplitChain(op, v1, v2, Value(e1.l, env), Value(a.rest1, env), Value(e1.r, env), Value(b.rest1, env),
                 Value(e2, env), Value(a.rest2, env), Value(b.rest2, env));
    } else if IsOp(op, e2) {
      var a := ExtractOperands(op, c, e1, e2.l);
      var b := ExtractOperands(op, a.common, a.rest1, e2.r);
      var v1 := ExtractOperandsSound(op, c, e1, e2.l, env);
      var v2 := ExtractOperandsSound(op, a.common, a.rest1, e2.r, env);
      v := Combine(op, v1, v2);
      CombineAssociates(op, CommonValue(op, c, env), v1, v2);
      SplitChain(op, v1, v2, Value(e2.l, env), Value(a.rest2, env), Value(e2.r, env), Value(b.rest2, env),
                 Value(e1, env), Value(a.rest1, env), Value(b.rest1, env));
    } else {
      v := ExtractOperandSound(op, c, e1, e2, env);
    }
  }

  lemma ExtractOperandSound(op: Op, c: Option<Expr>, e1: Expr, e2: Expr, env: Env) returns (v: Tri)
    requires Valid(env) && !IsOp(op, e1) && !IsOp(op, e2)
    ensures var f := ExtractOperands(op, c, e1, e2);
            && CommonValue(op, f.common, env) == Combine(op, CommonValue(op, c, env), v)
            && SplitBy(op, v, Value(e1, env), Value(f.rest1, env), Value(e2, env), Value(f.rest2, env))
  {
    ConstantValues(op, env);
    if Eq(e1, e2) {
      EqSound(e1, e2, env);
      v := Value(e1, env);
    } else {
      v := Unit(op);
    }
  }

  /** Factoring is exact for all three values: both inputs are op(common factor, rest). */
  lemma ExtractSound(op: Op, e1: Expr, e2: Expr, env: Env)
    requires Valid(env)
    ensures var f := Extract(op, e1, e2);
            SplitBy(op, CommonValue(op, f.common, env),
                    Value(e1, env), Value(f.rest1, env), Value(e2, env), Value(f.rest2, env))
  {
    var g := ExtractOperands(op, None, e1, e2);
    var v := ExtractOperandsSound(op, None, e1, e2, env);
    EliminateYnPreservesValue(g.rest1, env);
    EliminateYnPreservesValue(g.rest2, env);
  }
}
