/**
 Turning an expression into a test of its value, and the test that nests menu entries
 (scripts/kconfig/expr.c: expr_trans_compare, expr_trans_bool, expr_contains_symbol,
 expr_depends_symbol; scripts/kconfig/menu.c: the nesting loop of menu_finalize).
 */
module KconfigCompare {
  import opened Options
  import opened KconfigExpr
  import opened KconfigEq
  import opened KconfigTransform
  import opened KconfigDups

  /** The expression is compared with y or with n; no caller compares with m. */
  datatype Target = ToYes | ToNo

  function TargetSymbol(t: Target): Symbol {
    if t.ToYes? then SymbolYes else SymbolNo
  }

  function Negate(e: Expr, negate: bool): Expr {
    if negate then Not(e) else e
  }

  /** expr_trans_compare of an existing expression */
  function TransCompare(e: Expr, equal: bool, t: Target): Expr {
    match e
    case Bin(op, l, r) =>
      Negate(Bin(if t.ToYes? then op else Dual(op), TransCompare(l, true, t), TransCompare(r, true, t)), !equal)
    case Not(x) => TransCompare(x, !equal, t)
    case Cmp(_, _, _) => Negate(e, equal != t.ToYes?)
    case Sym(s) => Cmp(equal, s, TargetSymbol(t))
  }

  /** expr_trans_compare; a missing expression gives the constant itself, negated for "unequal". */
  function TransCompareOrMissing(e: Option<Expr>, equal: bool, t: Target): Expr {
    match e
    case None => Negate(Sym(TargetSymbol(t)), !equal)
    case Some(x) => TransCompare(x, equal, t)
  }

  function TargetValue(t: Target): Tri {
    if t.ToYes? then 2 else 0
  }

  function Truth(b: bool): Tri {
    if b then 2 else 0
  }

  /** Every symbol standing on its own is boolean, tristate or one of y, m, n. */
  predicate Logical(e: Expr) {
    match e
    case Sym(s) => IsTristateConstant(s) || KindOf(s) == Boolean || KindOf(s) == Tristate
    case Not(x) => Logical(x)
    case Bin(_, l, r) => Logical(l) && Logical(r)
    case Cmp(_, _, _) => true
  }

  /** No negated operand has the value m. */
  predicate NoNegatedMod(e: Expr, env: Env) {
    match e
    case Not(x) => Value(x, env) != 1 && NoNegatedMod(x, env)
    case Bin(_, l, r) => NoNegatedMod(l, env) && NoNegatedMod(r, env)
    case _ => true
  }

  /** The assignment as the translation reads it: a symbol has the value compared with if its string
      says so, and the opposite one otherwise, so that m counts as n against y and as y against n. */
  function Read(env: Env, t: Target): Env {
    Env(s => ReadSymbol(env, t, s), env.str)
  }

  function ReadSymbol(env: Env, t: Target, s: Symbol): Tri {
    if env.str(s) == env.str(TargetSymbol(t)) then TargetValue(t) else 2 - TargetValue(t)
  }

  lemma ReadOfSymbol(s: Symbol, t: Target, env: Env)
    requires Valid(env) && Logical(Sym(s))
    ensures Read(env, t).tri(s) == if env.tri(s) == 1 then 2 - TargetValue(t) else env.tri(s)
  {
    assert ValidSymbol(env, s) && ValidSymbol(env, TargetSymbol(t));
  }

  lemma {:induction false} ReadIsTwoValued(e: Expr, t: Target, env: Env)
    ensures NoMod(e, Read(env, t)) && Value(e, Read(env, t)) != 1
  {
    match e
    case Not(x) => ReadIsTwoValued(x, t, env);
    case Bin(_, l, r) => ReadIsTwoValued(l, t, env); ReadIsTwoValued(r, t, env);
    case _ =>
  }

  /** For every expression and assignment: the translated expression is y exactly when the comparison
      holds of the value under the assignment as read, and n otherwise. */
  lemma {:induction false} TransCompareReads(e: Expr, equal: bool, t: Target, env: Env)
    ensures Value(TransCompare(e, equal, t), env) == Truth((Value(e, Read(env, t)) == TargetValue(t)) == equal)
  {
    match e
    case Not(x) => TransCompareReads(x, !equal, t, env); ReadIsTwoValued(x, t, env);
    case Bin(_, l, r) =>
      TransCompareReads(l, true, t, env);
      TransCompareReads(r, true, t, env);
      ReadIsTwoValued(l, t, env);
      ReadIsTwoValued(r, t, env);
    case _ =>
  }

  /** Reading m as n or y does not change how the expression compares with the target. */
  predicate ReadsRight(e: Expr, t: Target, env: Env) {
    (Value(e, Read(env, t)) == TargetValue(t)) == (Value(e, env) == TargetValue(t))
  }

  /** Values other than m are read as they are: whatever an m stands for, they are what they are. */
  lemma {:induction false} ReadKeepsValue(e: Expr, t: Target, env: Env)
    requires Valid(env) && Logical(e)
    ensures Kept(Value(e, env), Value(e, Read(env, t)))
    ensures ReadsRight(e, t, env) <==> !(Value(e, env) == 1 && Value(e, Read(env, t)) == TargetValue(t))
  {
    match e
    case Sym(s) => ReadOfSymbol(s, t, env);
    case Cmp(_, _, _) =>
    case Not(x) => ReadKeepsValue(x, t, env);
    case Bin(_, l, r) => ReadKeepsValue(l, t, env); ReadKeepsValue(r, t, env);
  }

  /** The translation says of the expression's value what it should if and only if the expression
      reads right. */
  lemma TransCompareRightExactly(e: Expr, equal: bool, t: Target, env: Env)
    ensures Value(TransCompare(e, equal, t), env) == Truth((Value(e, env) == TargetValue(t)) == equal) <==>
              ReadsRight(e, t, env)
  {
    TransCompareReads(e, equal, t, env);
  }

  /** A negation reads right if and only if its operand reads right and is not m, or reads wrong and
      is m. */
  lemma TransCompareNegation(x: Expr, t: Target, env: Env)
    ensures ReadsRight(Not(x), t, env) <==> (ReadsRight(x, t, env) <==> Value(x, env) != 1)
  {
    ReadIsTwoValued(x, t, env);
  }

  /** Without a negated operand at m every expression reads right. */
  lemma {:induction false} NoNegatedModReadsRight(e: Expr, t: Target, env: Env)
    requires Valid(env) && Logical(e) && NoNegatedMod(e, env)
    ensures ReadsRight(e, t, env)
  {
    match e
    case Sym(s) => ReadOfSymbol(s, t, env);
    case Cmp(_, _, _) =>
    case Not(x) => NoNegatedModReadsRight(x, t, env); TransCompareNegation(x, t, env);
    case Bin(_, l, r) =>
      NoNegatedModReadsRight(l, t, env);
      NoNegatedModReadsRight(r, t, env);
      ReadIsTwoValued(l, t, env);
      ReadIsTwoValued(r, t, env);
  }

  /** So the translation of such an expression is y exactly when the comparison holds of its value. */
  lemma TransCompareExact(e: Expr, equal: bool, t: Target, env: Env)
    requires Valid(env) && Logical(e) && NoNegatedMod(e, env)
    ensures Value(TransCompare(e, equal, t), env) == Truth((Value(e, env) == TargetValue(t)) == equal)
  {
    NoNegatedModReadsRight(e, t, env);
    TransCompareRightExactly(e, equal, t, env);
  }

  /** A negated m reads wrong: n and y compare as they should, m compares as y and as n alike. */
  lemma NegatedModReadsWrong(a: Symbol, t: Target, env: Env)
    requires Valid(env) && KindOf(a) == Tristate && env.tri(a) == 1
    ensures !ReadsRight(Not(Sym(a)), t, env) && ReadsRight(Not(Not(Sym(a))), t, env)
  {
    ReadOfSymbol(a, t, env);
    TransCompareNegation(Sym(a), t, env);
    TransCompareNegation(Not(Sym(a)), t, env);
  }

  /** Whatever the assignment, the translation has no symbol left that could be m. */
  lemma {:induction false} TransCompareNoMod(e: Expr, equal: bool, t: Target, env: Env)
    ensures NoMod(TransCompare(e, equal, t), env)
  {
    match e
    case Not(x) => TransCompareNoMod(x, !equal, t, env);
    case Bin(_, l, r) => TransCompareNoMod(l, true, t, env); TransCompareNoMod(r, true, t, env);
    case _ =>
  }

  /** expr_trans_bool: a tristate symbol compared unequal to n becomes the symbol. */
  function TransBool(e: Expr): Expr {
    match e
    case Bin(op, l, r) => Bin(op, TransBool(l), TransBool(r))
    case Not(x) => Not(TransBool(x))
    case Cmp(equal, a, b) => if !equal && KindOf(a) == Tristate && b.SymbolNo? then Sym(a) else e
    case Sym(_) => e
  }

  /** On normal forms expr_trans_bool never raises the value and keeps it n exactly when it was n. */
  lemma {:induction false} TransBoolLowers(e: Expr, env: Env)
    requires Valid(env) && Normal(e)
    ensures Value(TransBool(e), env) <= Value(e, env)
    ensures Value(TransBool(e), env) == 0 <==> Value(e, env) == 0
  {
    match e
    case Bin(_, l, r) => TransBoolLowers(l, env); TransBoolLowers(r, env);
    case Cmp(_, a, b) => assert ValidSymbol(env, a) && ValidSymbol(env, b);
    case _ =>
  }

  /** No tristate symbol is compared unequal to n. */
  predicate NoSetTest(e: Expr) {
    match e
    case Cmp(equal, a, b) => equal || KindOf(a) != Tristate || !b.SymbolNo?
    case Not(x) => NoSetTest(x)
    case Bin(_, l, r) => NoSetTest(l) && NoSetTest(r)
    case Sym(_) => true
  }

  /** expr_trans_bool leaves no such comparison, and changes nothing when there was none. */
  lemma {:induction false} TransBoolIsComplete(e: Expr)
    ensures NoSetTest(TransBool(e))
    ensures NoSetTest(e) <==> TransBool(e) == e
  {
    match e
    case Not(x) => TransBoolIsComplete(x);
    case Bin(_, l, r) => TransBoolIsComplete(l); TransBoolIsComplete(r);
    case _ =>
  }

  // ----- dependence of an expression on a symbol -----

  /** expr_contains_symbol */
  predicate Contains(e: Expr, s: Symbol) {
    match e
    case Sym(x) => x == s
    case Cmp(_, a, b) => a == s || b == s
    case Not(x) => Contains(x, s)
    case Bin(_, l, r) => Contains(l, s) || Contains(r, s)
  }

  /** expr_depends_symbol */
  predicate Depends(e: Expr, s: Symbol) {
    match e
    case Bin(AndOp, l, r) => Depends(l, s) || Depends(r, s)
    case Sym(x) => x == s
    case Cmp(true, a, b) => a == s && (b.SymbolYes? || b.SymbolMod?)
    case Cmp(false, a, b) => a == s && b.SymbolNo?
    case _ => false
  }

  /** x is e or a part of it. */
  predicate Within(x: Expr, e: Expr) {
    || x == e
    || (e.Not? && Within(x, e.e))
    || (e.Bin? && (Within(x, e.l) || Within(x, e.r)))
  }

  /** expr_contains_symbol finds exactly the symbols that stand alone or on either side of a
      comparison somewhere in the expression. */
  lemma {:induction false} ContainsExactly(e: Expr, s: Symbol)
    ensures Contains(e, s) <==>
              || Within(Sym(s), e)
              || (exists equal, a :: Within(Cmp(equal, s, a), e))
              || (exists equal, a :: Within(Cmp(equal, a, s), e))
  {
    match e
    case Cmp(equal, a, b) => assert Within(Cmp(equal, a, b), e);
    case Not(x) => ContainsExactly(x, s);
    case Bin(_, l, r) => ContainsExactly(l, s); ContainsExactly(r, s);
    case _ =>
  }

  /** expr_depends_symbol finds exactly the operands s, s = y, s = m and s != n. */
  lemma {:induction false} DependsExactly(e: Expr, s: Symbol)
    ensures Depends(e, s) <==>
              || AndOperand(e, Sym(s))
              || AndOperand(e, Cmp(true, s, SymbolYes))
              || AndOperand(e, Cmp(true, s, SymbolMod))
              || AndOperand(e, Cmp(false, s, SymbolNo))
  {
    if IsOp(AndOp, e) {
      DependsExactly(e.l, s);
      DependsExactly(e.r, s);
    }
  }

  /** An expression without the symbol has the same value whatever the symbol's value is. */
  lemma {:induction false} ContainsIsNecessary(e: Expr, s: Symbol, env: Env, env': Env)
    requires !Contains(e, s)
    requires forall x | x != s :: env.tri(x) == env'.tri(x) && env.str(x) == env'.str(x)
    ensures Value(e, env) == Value(e, env')
  {
    match e
    case Not(x) => ContainsIsNecessary(x, s, env, env');
    case Bin(_, l, r) => ContainsIsNecessary(l, s, env, env'); ContainsIsNecessary(r, s, env, env');
    case _ =>
  }

  /** The symbol is not n: neither its tristate value nor, for the other types, its text. */
  predicate IsSet(s: Symbol, env: Env) {
    env.tri(s) != 0 || env.str(s) != "n"
  }

  /** An expression that depends on a symbol is n unless the symbol is set; for a boolean or tristate
      symbol that is, unless its value is m or y. */
  lemma {:induction false} DependsIsImplication(e: Expr, s: Symbol, env: Env)
    requires Valid(env) && Depends(e, s)
    ensures Value(e, env) != 0 ==> IsSet(s, env)
    ensures Value(e, env) != 0 && Logical(Sym(s)) ==> env.tri(s) != 0
  {
    match e
    case Bin(_, l, r) =>
      if Depends(l, s) { DependsIsImplication(l, s, env); } else { DependsIsImplication(r, s, env); }
    case Cmp(_, a, b) => assert ValidSymbol(env, a) && ValidSymbol(env, b);
    case _ =>
  }

  /** The tristate value of a string symbol says nothing about its text: where the text is y, s = y
      depends on s and is y. */
  lemma StringSymbolIsSet(s: Symbol, env: Env)
    requires Valid(env) && KindOf(s) == String && env.str(s) == "y"
    ensures Depends(Cmp(true, s, SymbolYes), s) && Value(Cmp(true, s, SymbolYes), env) == 2 && env.tri(s) == 0
  {
    assert ValidSymbol(env, s) && ValidSymbol(env, SymbolYes);
  }

  // ----- the nesting test -----

  /** "e is visible" in the form in which two visibilities are compared. */
  function Visibility(e: Option<Expr>): Expr {
    EliminateDups(Transform(TransCompareOrMissing(e, false, ToNo)))
  }

  /** Whether the entry with visibility dep nests below the entry for sym with visibility base. */
  predicate Nests(base: Option<Expr>, sym: Symbol, dep: Option<Expr>) {
    dep.Some? && Contains(dep.value, sym) &&
    (Depends(dep.value, sym) || Cancel(Visibility(dep), Visibility(base)).1 == YES)
  }

  /** What the nesting test takes a visibility for; a missing one counts as visible. */
  predicate ReadAsVisible(e: Option<Expr>, env: Env) {
    ValueOrYes(e, Read(env, ToNo)) != 0
  }

  predicate IsVisible(e: Option<Expr>, env: Env) {
    ValueOrYes(e, env) != 0
  }

  /** For every expression and assignment: the form that is compared is y exactly when the visibility
      is read as visible, and n otherwise. */
  lemma VisibilityReads(e: Option<Expr>, env: Env)
    requires Valid(env)
    ensures Value(Visibility(e), env) == Truth(ReadAsVisible(e, env))
  {
    var c := TransCompareOrMissing(e, false, ToNo);
    ConstantValues(AndOp, env);
    if e.Some? {
      TransCompareReads(e.value, false, ToNo, env);
      TransCompareNoMod(e.value, false, ToNo, env);
    }
    TransformPreservesValue(c, env);
    TransformKeepsNoMod(c, env);
    EliminateDupsOnTwoValues(Transform(c), env);
  }

  /** It tells whether the entry is visible if and only if the visibility reads right. */
  lemma VisibilityExact(e: Option<Expr>, env: Env)
    requires Valid(env)
    ensures Value(Visibility(e), env) == Truth(IsVisible(e, env)) <==> e == None || ReadsRight(e.value, ToNo, env)
  {
    VisibilityReads(e, env);
  }

  /** For every assignment and every type of symbol: an entry is nested only below an entry it implies.
      If it depends on the outer symbol, it is visible only when that symbol is set; otherwise, whenever
      it is read as visible, so is the outer entry. */
  lemma NestingIsImplication(base: Option<Expr>, sym: Symbol, dep: Option<Expr>, env: Env)
    requires Valid(env) && Nests(base, sym, dep)
    ensures if Depends(dep.value, sym) then IsVisible(dep, env) ==> IsSet(sym, env)
            else ReadAsVisible(dep, env) ==> ReadAsVisible(base, env)
  {
    if Depends(dep.value, sym) {
      DependsIsImplication(dep.value, sym, env);
    } else {
      VisibilityReads(dep, env);
      VisibilityReads(base, env);
      CancelToYesIsImplication(Visibility(dep), Visibility(base), env);
    }
  }

  ghost predicate LogicalOrMissing(e: Option<Expr>) {
    e.Some? ==> Logical(e.value)
  }

  /** Where the entry does not depend on the outer symbol, visible implies outer entry visible if both
      visibilities read right. If they are built from boolean and tristate symbols, it does if and only
      if the inner one reads right or the outer entry is visible anyway; in particular whenever the inner
      visibility is y, or read as visible. */
  lemma NestingImpliesVisible(base: Option<Expr>, sym: Symbol, dep: Option<Expr>, env: Env)
    requires Valid(env) && Nests(base, sym, dep) && !Depends(dep.value, sym)
    ensures ReadsRight(dep.value, ToNo, env) && (base.Some? ==> ReadsRight(base.value, ToNo, env)) ==>
              (IsVisible(dep, env) ==> IsVisible(base, env))
    ensures LogicalOrMissing(dep) && LogicalOrMissing(base) ==>
              ((IsVisible(dep, env) ==> IsVisible(base, env)) <==>
               ReadsRight(dep.value, ToNo, env) || IsVisible(base, env))
    ensures LogicalOrMissing(dep) && LogicalOrMissing(base) ==>
              (ReadAsVisible(dep, env) || Value(dep.value, env) == 2 ==> IsVisible(base, env))
  {
    NestingIsImplication(base, sym, dep, env);
    ReadIsTwoValued(dep.value, ToNo, env);
    if LogicalOrMissing(dep) && LogicalOrMissing(base) {
      ReadKeepsValue(dep.value, ToNo, env);
      if base.Some? { ReadKeepsValue(base.value, ToNo, env); }
    }
  }
}
