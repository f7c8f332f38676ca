/**
 Dependency expressions of the configuration language (scripts/kconfig/expr.h, expr.c) and their
 three-valued meaning.
 */
module KconfigExpr {
  import opened Options

  /** n = 0, m = 1, y = 2. */
  type Tri = v: int | 0 <= v <= 2

  datatype SymbolType = UnknownType | Boolean | Tristate | Int | Hex | String | Other

  /** The three built-in constants, a quoted constant, or a configuration symbol. */
  datatype Symbol =
    | SymbolYes | SymbolMod | SymbolNo
    | Constant(id: nat)
    | Config(name: string, kind: SymbolType)

  function KindOf(s: Symbol): SymbolType {
    if s.Config? then s.kind else UnknownType
  }

  predicate IsTristateConstant(s: Symbol) {
    s.SymbolYes? || s.SymbolMod? || s.SymbolNo?
  }

  /** flags & SYMBOL_CONST */
  predicate IsConst(s: Symbol) {
    !s.Config?
  }

  /** flags & (SYMBOL_YES|SYMBOL_NO); a quoted constant carries all three constant flags. */
  predicate HasYesNoFlag(s: Symbol) {
    s.SymbolYes? || s.SymbolNo? || s.Constant?
  }

  datatype Op = AndOp | OrOp

  datatype Expr =
    | Sym(s: Symbol)
    | Not(e: Expr)
    | Bin(op: Op, l: Expr, r: Expr)            // E_AND, E_OR
    | Cmp(equal: bool, left: Symbol, right: Symbol) // E_EQUAL, E_UNEQUAL

  const YES := Sym(SymbolYes)
  const NO := Sym(SymbolNo)

  predicate IsOp(op: Op, e: Expr) {
    e.Bin? && e.op == op
  }

  function Dual(op: Op): Op {
    if op.AndOp? then OrOp else AndOp
  }

  /** The constant that leaves an operand of op unchanged, and the one that decides it. */
  function Neutral(op: Op): Expr {
    if op.AndOp? then YES else NO
  }

  function Absorbing(op: Op): Expr {
    if op.AndOp? then NO else YES
  }

  /** x is one of the operands that "and" nodes at the top of e put together. */
  predicate AndOperand(e: Expr, x: Expr) {
    if IsOp(AndOp, e) then AndOperand(e.l, x) || AndOperand(e.r, x) else e == x
  }

  /** Number of expression nodes. */
  function Size(e: Expr): (n: nat)
    ensures n > 0
  {
    match e
    case Sym(_) => 1
    case Cmp(_, _, _) => 1
    case Not(x) => 1 + Size(x)
    case Bin(_, l, r) => 1 + Size(l) + Size(r)
  }

  // ----- meaning -----

  /** The calculated value of every symbol: its tristate and its string. */
  datatype Env = Env(tri: Symbol -> Tri, str: Symbol -> string)

  function TriName(v: Tri): string {
    if v == 0 then "n" else if v == 1 then "m" else "y"
  }

  /** What sym_calc_value and sym_get_string_value guarantee of one symbol. */
  predicate ValidSymbol(env: Env, s: Symbol) {
    match s
    case SymbolYes => env.tri(s) == 2 && env.str(s) == "y"
    case SymbolMod => env.tri(s) == 1 && env.str(s) == "m"
    case SymbolNo => env.tri(s) == 0 && env.str(s) == "n"
    case Constant(_) => env.tri(s) == 0 && env.str(s) != "y" && env.str(s) != "m" && env.str(s) != "n"
    case Config(_, Boolean) => env.tri(s) != 1 && env.str(s) == TriName(env.tri(s))
    case Config(_, Tristate) => env.str(s) == TriName(env.tri(s))
    case Config(_, _) => env.tri(s) == 0
  }

  /** sym_lookup makes one constant per text, and maps "y", "m" and "n" to the built-in ones. */
  ghost predicate Valid(env: Env) {
    && (forall s :: ValidSymbol(env, s))
    && (forall i, j | i != j :: env.str(Constant(i)) != env.str(Constant(j)))
  }

  function Combine(op: Op, a: Tri, b: Tri): Tri {
    match op
    case AndOp => if a < b then a else b
    case OrOp => if a > b then a else b
  }

  /** expr_calc_value */
  function Value(e: Expr, env: Env): Tri {
    match e
    case Sym(s) => env.tri(s)
    case Not(x) => 2 - Value(x, env)
    case Bin(op, l, r) => Combine(op, Value(l, env), Value(r, env))
    case Cmp(equal, a, b) => if (env.str(a) == env.str(b)) == equal then 2 else 0
  }

  /** A missing expression counts as y. */
  function ValueOrYes(e: Option<Expr>, env: Env): Tri {
    match e
    case None => 2
    case Some(x) => Value(x, env)
  }

  /** The neutral value of op: y for and, n for or. */
  function Unit(op: Op): Tri {
    if op.AndOp? then 2 else 0
  }

  lemma ConstantValues(op: Op, env: Env)
    requires Valid(env)
    ensures Value(Neutral(op), env) == Unit(op)
    ensures Value(Absorbing(op), env) == 2 - Unit(op)
  {
    assert ValidSymbol(env, SymbolYes) && ValidSymbol(env, SymbolNo);
  }

  /** No symbol standing on its own in e has the value m. */
  predicate NoMod(e: Expr, env: Env) {
    match e
    case Sym(s) => env.tri(s) != 1
    case Not(x) => NoMod(x, env)
    case Bin(_, l, r) => NoMod(l, env) && NoMod(r, env)
    case Cmp(_, _, _) => true
  }

  lemma {:induction false} NoModTwoValued(e: Expr, env: Env)
    requires NoMod(e, env)
    ensures Value(e, env) != 1
  {
    match e
    case Sym(_) =>
    case Cmp(_, _, _) =>
    case Not(x) => NoModTwoValued(x, env);
    case Bin(_, l, r) => NoModTwoValued(l, env); NoModTwoValued(r, env);
  }

  // ----- removing the constants y and n -----

  /** expr_eliminate_yn */
  function EliminateYn(e: Expr): (r: Expr)
    ensures Size(r) <= Size(e)
  {
    match e
    case Bin(op, l, r) =>
      var l', r' := EliminateYn(l), EliminateYn(r);
      if l' == Absorbing(op) then Absorbing(op)
      else if l' == Neutral(op) then r'
      else if r' == Absorbing(op) then Absorbing(op)
      else if r' == Neutral(op) then l'
      else Bin(op, l', r')
    case _ => e
  }

  lemma {:induction false} EliminateYnPreservesValue(e: Expr, env: Env)
    requires Valid(env)
    ensures Value(EliminateYn(e), env) == Value(e, env)
  {
    match e
    case Bin(op, l, r) =>
      EliminateYnPreservesValue(l, env);
      EliminateYnPreservesValue(r, env);
      ConstantValues(op, env);
    case _ =>
  }

  /** Some and/or node reachable through and/or nodes has the constant y or n as an operand. */
  predicate HasConstantOperand(e: Expr) {
    e.Bin? && (e.l == YES || e.l == NO || e.r == YES || e.r == NO || HasConstantOperand(e.l) || HasConstantOperand(e.r))
  }

  /** Removing constants leaves none behind, and shrinks the expression exactly when there was one. */
  lemma {:induction false} EliminateYnReduces(e: Expr)
    ensures !HasConstantOperand(EliminateYn(e))
    ensures HasConstantOperand(e) ==> Size(EliminateYn(e)) < Size(e)
    ensures !HasConstantOperand(e) ==> EliminateYn(e) == e
  {
    match e
    case Bin(op, l, r) =>
      EliminateYnReduces(l);
      EliminateYnReduces(r);
    case _ =>
  }

  lemma {:induction false} EliminateYnKeepsNoMod(e: Expr, env: Env)
    requires NoMod(e, env)
    ensures NoMod(EliminateYn(e), env)
  {
    match e
    case Bin(op, l, r) =>
      EliminateYnKeepsNoMod(l, env);
      EliminateYnKeepsNoMod(r, env);
    case _ =>
  }
}
