/**
 Joining two operands of a chain into one (scripts/kconfig/expr.c: expr_join_or, expr_join_and).
 */
module KconfigJoin {
  import opened Options
  import opened KconfigExpr
  import opened KconfigEq

  /** The symbol an operand is about; a first operand may be a negated comparison, a second may not. */
  function SubjectOfFirst(e: Expr): Option<Symbol> {
    match e
    case Sym(s) => Some(s)
    case Cmp(_, a, _) => Some(a)
    case Not(Sym(s)) => Some(s)
    case Not(Cmp(_, a, _)) => Some(a)
    case _ => None
  }

  function SubjectOfSecond(e: Expr): Option<Symbol> {
    match e
    case Sym(s) => Some(s)
    case Cmp(_, a, _) => Some(a)
    case Not(Sym(s)) => Some(s)
    case _ => None
  }

  /** The symbol both operands are about, when they are about the same boolean or tristate symbol. */
  function Subject(e1: Expr, e2: Expr): Option<Symbol> {
    var s1, s2 := SubjectOfFirst(e1), SubjectOfSecond(e2);
    if s1.Some? && s1 == s2 && (KindOf(s1.value) == Boolean || KindOf(s1.value) == Tristate) then s1 else None
  }

  /** One operand compares with a (equal or unequal as told), the other with b. */
  predicate ComparePair(e1: Expr, e2: Expr, equal: bool, a: Symbol, b: Symbol) {
    && e1.Cmp? && e2.Cmp? && e1.equal == equal && e2.equal == equal
    && ((e1.right == a && e2.right == b) || (e1.right == b && e2.right == a))
  }

  /** One operand is the bare symbol, the other compares it with a. */
  predicate SymbolAndCompare(e1: Expr, e2: Expr, equal: bool, a: Symbol) {
    || (e1.Sym? && e2.Cmp? && e2.equal == equal && e2.right == a)
    || (e2.Sym? && e1.Cmp? && e1.equal == equal && e1.right == a)
  }

  /** expr_join_or */
  function JoinOr(e1: Expr, e2: Expr): Option<Expr> {
    if Eq(e1, e2) then Some(e1)
    else match Subject(e1, e2)
      case None => None
      case Some(s) =>
        if KindOf(s) == Tristate then
          if ComparePair(e1, e2, true, SymbolYes, SymbolMod) then Some(Cmp(false, s, SymbolNo))
          else if ComparePair(e1, e2, true, SymbolYes, SymbolNo) then Some(Cmp(false, s, SymbolMod))
          else if ComparePair(e1, e2, true, SymbolMod, SymbolNo) then Some(Cmp(false, s, SymbolYes))
          else None
        else if (e1.Not? && e1.e.Sym? && e2.Sym?) || (e2.Not? && e2.e.Sym? && e1.Sym?) then Some(YES)
        else None
  }

  /** a = b and a != c, both b and c constants */
  predicate ConstantPair(eq: Expr, ne: Expr) {
    eq.Cmp? && eq.equal && ne.Cmp? && !ne.equal && IsConst(eq.right) && IsConst(ne.right)
  }

  /** expr_join_and */
  function JoinAnd(e1: Expr, e2: Expr): Option<Expr> {
    if Eq(e1, e2) then Some(e1)
    else match Subject(e1, e2)
      case None => None
      case Some(s) =>
        if SymbolAndCompare(e1, e2, true, SymbolYes) then Some(Cmp(true, s, SymbolYes))
        else if SymbolAndCompare(e1, e2, false, SymbolNo) then Some(Sym(s))
        else if SymbolAndCompare(e1, e2, false, SymbolMod) then Some(Cmp(true, s, SymbolYes))
        else if KindOf(s) != Tristate then None
        else if ConstantPair(e1, e2) then Some(if e1.right != e2.right then Cmp(true, s, e1.right) else NO)
        else if ConstantPair(e2, e1) then Some(if e2.right != e1.right then Cmp(true, s, e2.right) else NO)
        else if ComparePair(e1, e2, false, SymbolYes, SymbolNo) then Some(Cmp(true, s, SymbolMod))
        else if ComparePair(e1, e2, false, SymbolYes, SymbolMod) then Some(Cmp(true, s, SymbolNo))
        else if ComparePair(e1, e2, false, SymbolMod, SymbolNo) then Some(Cmp(true, s, SymbolYes))
        else None
  }

  function Join(op: Op, e1: Expr, e2: Expr): Option<Expr> {
    if op.AndOp? then JoinAnd(e1, e2) else JoinOr(e1, e2)
  }

  // ----- which operands are joined, read off the operands alone -----

  /** x and y compare the tristate symbol s with two different ones of y, m and n. */
  predicate TwoOfThree(equal: bool, s: Symbol, b: Symbol, c: Symbol, x: Expr, y: Expr) {
    && KindOf(s) == Tristate && IsTristateConstant(b) && IsTristateConstant(c) && b != c
    && x == Cmp(equal, s, b) && y == Cmp(equal, s, c)
  }

  /** Under "or": two of s=y, s=m and s=n, or s and !s for a boolean symbol. Under "and": s with s=y,
      s!=n or s!=m, s=b with s!=c for constants b and c, or two of s!=y, s!=m and s!=n. */
  predicate SaysTwice(op: Op, s: Symbol, b: Symbol, c: Symbol, x: Expr, y: Expr) {
    match op
    case OrOp =>
      || TwoOfThree(true, s, b, c, x, y)
      || (KindOf(s) == Boolean && x == Sym(s) && y == Not(Sym(s)))
    case AndOp =>
      || TwoOfThree(false, s, b, c, x, y)
      || (KindOf(s) == Tristate && IsConst(b) && IsConst(c) && x == Cmp(true, s, b) && y == Cmp(false, s, c))
      || ((KindOf(s) == Boolean || KindOf(s) == Tristate) && x == Sym(s) &&
          (y == Cmp(true, s, SymbolYes) || y == Cmp(false, s, SymbolNo) || y == Cmp(false, s, SymbolMod)))
  }

  /** The operands compare equal, or they say something twice about one symbol, in either order. */
  ghost predicate Joinable(op: Op, x: Expr, y: Expr) {
    Eq(x, y) || exists s, b, c :: SaysTwice(op, s, b, c, x, y) || SaysTwice(op, s, b, c, y, x)
  }

  lemma JoinsSomething(op: Op, x: Expr, y: Expr)
    requires Join(op, x, y).Some? && !Eq(x, y)
    ensures exists s, b, c :: SaysTwice(op, s, b, c, x, y) || SaysTwice(op, s, b, c, y, x)
  {
    var s := Subject(x, y).value;
    var b := if x.Cmp? then x.right else SymbolYes;
    var c := if y.Cmp? then y.right else SymbolYes;
    assert SaysTwice(op, s, b, c, x, y) || SaysTwice(op, s, c, b, y, x);
  }

  /** Exactly these operands are joined, and all others are refused. */
  lemma JoinsExactly(op: Op, x: Expr, y: Expr)
    ensures Join(op, x, y).Some? <==> Joinable(op, x, y)
  {
    if Join(op, x, y).Some? && !Eq(x, y) { JoinsSomething(op, x, y); }
  }

  lemma SubjectFacts(e1: Expr, e2: Expr, env: Env)
    requires Valid(env) && Subject(e1, e2).Some?
    ensures var s := Subject(e1, e2).value;
            && ValidSymbol(env, s)
            && (e1.Sym? ==> e1.s == s) && (e2.Sym? ==> e2.s == s)
            && (e1.Cmp? ==> e1.left == s && ValidSymbol(env, e1.right))
            && (e2.Cmp? ==> e2.left == s && ValidSymbol(env, e2.right))
            && ValidSymbol(env, SymbolYes) && ValidSymbol(env, SymbolMod) && ValidSymbol(env, SymbolNo)
  {
  }

  lemma ConstantsDiffer(a: Symbol, b: Symbol, env: Env)
    requires Valid(env) && IsConst(a) && IsConst(b) && a != b
    ensures env.str(a) != env.str(b)
  {
    assert ValidSymbol(env, a) && ValidSymbol(env, b);
    if a.Constant? && b.Constant? { assert a.id != b.id; }
  }

  lemma JoinOrExact(e1: Expr, e2: Expr, env: Env)
    requires Valid(env) && JoinOr(e1, e2).Some?
    ensures Value(JoinOr(e1, e2).value, env) == Combine(OrOp, Value(e1, env), Value(e2, env))
    ensures NoMod(e1, env) && NoMod(e2, env) ==> NoMod(JoinOr(e1, e2).value, env)
  {
    if Eq(e1, e2) {
      EqSound(e1, e2, env);
    } else {
      SubjectFacts(e1, e2, env);
    }
  }

  lemma JoinSymbolAndCompareExact(e1: Expr, e2: Expr, env: Env)
    requires Valid(env) && !Eq(e1, e2) && Subject(e1, e2).Some? && JoinAnd(e1, e2).Some? && (e1.Sym? || e2.Sym?)
    ensures Value(JoinAnd(e1, e2).value, env) == Combine(AndOp, Value(e1, env), Value(e2, env))
    ensures NoMod(e1, env) && NoMod(e2, env) ==> NoMod(JoinAnd(e1, e2).value, env)
  {
    SubjectFacts(e1, e2, env);
  }

  lemma JoinAndExact(e1: Expr, e2: Expr, env: Env)
    requires Valid(env) && JoinAnd(e1, e2).Some?
    ensures Value(JoinAnd(e1, e2).value, env) == Combine(AndOp, Value(e1, env), Value(e2, env))
    ensures NoMod(e1, env) && NoMod(e2, env) ==> NoMod(JoinAnd(e1, e2).value, env)
  {
    if Eq(e1, e2) {
      EqSound(e1, e2, env);
    } else if e1.Sym? || e2.Sym? {
      JoinSymbolAndCompareExact(e1, e2, env);
    } else {
      SubjectFacts(e1, e2, env);
      if e1.Cmp? && e2.Cmp? && IsConst(e1.right) && IsConst(e2.right) && e1.right != e2.right {
        ConstantsDiffer(e1.right, e2.right, env);
      }
    }
  }

  /** A joined operand has, for all three values, the value of the two operands combined. */
  lemma JoinExact(op: Op, e1: Expr, e2: Expr, env: Env)
    requires Valid(env) && Join(op, e1, e2).Some?
    ensures Value(Join(op, e1, e2).value, env) == Combine(op, Value(e1, env), Value(e2, env))
    ensures NoMod(e1, env) && NoMod(e2, env) ==> NoMod(Join(op, e1, e2).value, env)
  {
    if op.AndOp? { JoinAndExact(e1, e2, env); } else { JoinOrExact(e1, e2, env); }
  }

  /** Joining never makes the operands bigger, and yields no new and/or node. */
  lemma JoinShape(op: Op, e1: Expr, e2: Expr)
    requires Join(op, e1, e2).Some?
    ensures var t := Join(op, e1, e2).value;
            && Size(t) + 1 <= Size(e1) + Size(e2)
            && (t == e1 || !t.Bin?)
  {
  }
}
