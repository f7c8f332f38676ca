/**
 Pushing negations inward and simplifying comparisons of boolean symbols
 (scripts/kconfig/expr.c: expr_transform).
 */
module KconfigTransform {
  import opened KconfigExpr

  /** Decreases at every rewriting step; a De Morgan step trades 2(x + y + 1) for 2x + 2y + 1. */
  function Weight(e: Expr): (w: nat)
    ensures w > 0
  {
    match e
    case Sym(_) => 1
    case Cmp(_, _, _) => 2
    case Not(x) => 2 * Weight(x)
    case Bin(_, l, r) => Weight(l) + Weight(r) + 1
  }

  lemma DeMorganIsLighter(op: Op, l: Expr, r: Expr)
    ensures Weight(Bin(Dual(op), Not(l), Not(r))) < 2 * Weight(Bin(op, l, r))
  {
    assert Weight(Not(l)) == 2 * Weight(l) && Weight(Not(r)) == 2 * Weight(r);
  }

  /** Comparisons of a boolean symbol with y, m or n become the symbol, its negation or a constant. */
  function TransformComparison(e: Expr): Expr
    requires e.Cmp?
  {
    if KindOf(e.left) != Boolean || !IsTristateConstant(e.right) then e
    else if e.right.SymbolMod? then Sym(if e.equal then SymbolNo else SymbolYes)
    else if e.equal == e.right.SymbolYes? then Sym(e.left)
    else Not(Sym(e.left))
  }

  /** expr_transform */
  function Transform(e: Expr): (r: Expr)
    ensures Weight(r) <= Weight(e)
    decreases Weight(e)
  {
    match e
    case Sym(_) => e
    case Cmp(_, _, _) => TransformComparison(e)
    case Bin(op, l, r) => Bin(op, Transform(l), Transform(r))
    case Not(x) =>
      match Transform(x)
      case Not(y) => Transform(y)
      case Cmp(equal, a, b) => Cmp(!equal, a, b)
      case Bin(op, l, r) => DeMorganIsLighter(op, l, r); Transform(Bin(Dual(op), Not(l), Not(r)))
      case Sym(SymbolYes) => NO
      case Sym(SymbolMod) => Sym(SymbolMod)
      case Sym(SymbolNo) => YES
      case Sym(s) => Not(Sym(s))
  }

  /** The normal form: negation only on symbols other than y, m and n, and no boolean symbol
      compared with y, m or n. */
  predicate Normal(e: Expr) {
    match e
    case Sym(_) => true
    case Cmp(_, a, b) => !(KindOf(a) == Boolean && IsTristateConstant(b))
    case Not(x) => x.Sym? && !IsTristateConstant(x.s)
    case Bin(_, l, r) => Normal(l) && Normal(r)
  }

  lemma {:induction false} TransformIsNormal(e: Expr)
    ensures Normal(Transform(e))
    decreases Weight(e)
  {
    match e
    case Sym(_) =>
    case Cmp(_, _, _) =>
    case Bin(_, l, r) => TransformIsNormal(l); TransformIsNormal(r);
    case Not(x) =>
      TransformIsNormal(x);
      match Transform(x)
      case Bin(op, l, r) => DeMorganIsLighter(op, l, r); TransformIsNormal(Bin(Dual(op), Not(l), Not(r)));
      case Not(y) => TransformIsNormal(y);
      case _ =>
  }

  /** Expressions in normal form are left alone, so transforming twice changes nothing more. */
  lemma {:induction false} TransformFixesNormal(e: Expr)
    requires Normal(e)
    ensures Transform(e) == e
  {
    match e
    case Bin(_, l, r) => TransformFixesNormal(l); TransformFixesNormal(r);
    case _ =>
  }

  lemma TransformIsIdempotent(e: Expr)
    ensures Transform(Transform(e)) == Transform(e)
  {
    TransformIsNormal(e);
    TransformFixesNormal(Transform(e));
  }

  lemma ComparisonPreservesValue(e: Expr, env: Env)
    requires Valid(env) && e.Cmp?
    ensures Value(TransformComparison(e), env) == Value(e, env)
    ensures NoMod(TransformComparison(e), env)
  {
    assert ValidSymbol(env, e.left) && ValidSymbol(env, e.right);
    ConstantValues(AndOp, env);
  }

  /** The value is preserved for all three values of every tristate symbol. */
  lemma {:induction false} TransformPreservesValue(e: Expr, env: Env)
    requires Valid(env)
    ensures Value(Transform(e), env) == Value(e, env)
    decreases Weight(e)
  {
    match e
    case Sym(_) =>
    case Cmp(_, _, _) => ComparisonPreservesValue(e, env);
    case Bin(_, l, r) => TransformPreservesValue(l, env); TransformPreservesValue(r, env);
    case Not(x) =>
      TransformPreservesValue(x, env);
      match Transform(x)
      case Bin(op, l, r) => DeMorganIsLighter(op, l, r); TransformPreservesValue(Bin(Dual(op), Not(l), Not(r)), env);
      case Not(y) => TransformPreservesValue(y, env);
      case Sym(s) => assert ValidSymbol(env, s) && ValidSymbol(env, SymbolYes) && ValidSymbol(env, SymbolNo);
      case _ =>
  }

  lemma {:induction false} TransformKeepsNoMod(e: Expr, env: Env)
    requires Valid(env) && NoMod(e, env)
    ensures NoMod(Transform(e), env)
    decreases Weight(e)
  {
    match e
    case Sym(_) =>
    case Cmp(_, _, _) => ComparisonPreservesValue(e, env);
    case Bin(_, l, r) => TransformKeepsNoMod(l, env); TransformKeepsNoMod(r, env);
    case Not(x) =>
      TransformKeepsNoMod(x, env);
      match Transform(x)
      case Bin(op, l, r) => DeMorganIsLighter(op, l, r); TransformKeepsNoMod(Bin(Dual(op), Not(l), Not(r)), env);
      case Not(y) => TransformKeepsNoMod(y, env);
      case Sym(s) => assert ValidSymbol(env, SymbolYes) && ValidSymbol(env, SymbolNo);
      case _ =>
  }
}
