/**
 Eliminating duplicate and contradictory operands (scripts/kconfig/expr.c: expr_eliminate_dups1,
 expr_eliminate_dups2, expr_eliminate_dups).
 */
module KconfigDups {
  import opened Options
  import opened KconfigExpr
  import opened KconfigEq
  import opened KconfigTransform
  import opened KconfigJoin
  import opened KconfigChain

  /** The rewritten chain and by how much trans_count grew. */
  datatype Pass = Pass(e: Expr, changes: nat) {
    function Then(that: Pass): Pass {
      Pass(that.e, changes + that.changes)
    }
  }

  /** What one pass over a chain does to its shape: nothing when it reports no change, and otherwise
      it has shrunk the chain or left a constant for the constant remover. */
  predicate Shrinks(op: Op, e: Expr, p: Pass) {
    && SameChain(op, e, p.e)
    && Size(p.e) <= Size(e)
    && (p.changes == 0 ==> p.e == e)
    && (p.changes > 0 ==> Size(p.e) < Size(e) || HasConstantOperand(p.e))
  }

  lemma ShrinksNot(op: Op, e: Expr)
    ensures Shrinks(op, e, Pass(e, 0))
  {
    SameChainReflexive(op, e);
  }

  lemma ShrinksTwice(op: Op, e: Expr, a: Pass, b: Pass)
    requires Shrinks(op, e, a) && Shrinks(op, a.e, b)
    ensures Shrinks(op, e, a.Then(b))
  {
    SameChainTransitive(op, e, a.e, b.e);
  }

  predicate IsOperand(op: Op, e: Expr, p: Path) {
    OnChain(op, e, p) && !IsOp(op, At(op, e, p))
  }

  /** Replacing an operand by what an inner pass made of it. */
  lemma ShrinksInside(op: Op, e: Expr, p: Path, inner: Pass)
    requires IsOp(op, e) && IsOperand(op, e, p)
    requires At(op, e, p).Bin? && Shrinks(At(op, e, p).op, At(op, e, p), inner)
    ensures Shrinks(op, e, Pass(Put(op, e, p, inner.e), inner.changes))
    ensures IsOperand(op, Put(op, e, p, inner.e), p) && At(op, Put(op, e, p, inner.e), p) == inner.e
  {
    PutSameChain(op, e, p, inner.e);
    PutSize(op, e, p, inner.e);
    PutAt(op, e, p);
    if HasConstantOperand(inner.e) { PutConstant(op, e, p, inner.e); }
  }

  /** Both slots are still there after a pass, and going down from the first brings it closer to an
      operand. */
  lemma NextSlot(op: Op, e: Expr, e': Expr, p: Path, d: Dir, q: Path)
    requires SameChain(op, e, e') && IsOp(op, e) && OnChain(op, e, p) && OnChain(op, e, q) && IsOp(op, At(op, e, p))
    ensures IsOp(op, e') && OnChain(op, e', p + [d]) && OnChain(op, e', q)
    ensures ChainSize(op, At(op, e', p + [d])) < ChainSize(op, At(op, e, p))
    ensures ChainSize(op, At(op, e', q)) == ChainSize(op, At(op, e, q))
  {
    SameChainSlot(op, e, e', p);
    SameChainSlot(op, e, e', q);
    SameChainSize(op, At(op, e, p), At(op, e', p));
    SameChainSize(op, At(op, e, q), At(op, e', q));
    AtExtend(op, e', p, d);
  }

  // ----- first pass: join pairs of operands -----

  /** Replace two operands by one, when they can be joined. */
  function JoinSlots(op: Op, e: Expr, p1: Path, p2: Path): (r: Pass)
    requires IsOperand(op, e, p1) && IsOperand(op, e, p2) && p1 != p2
    ensures Shrinks(op, e, r)
  {
    ShrinksNot(op, e);
    match Join(op, At(op, e, p1), At(op, e, p2))
    case None => Pass(e, 0)
    case Some(t) =>
      JoinSlotsShrinks(op, e, p1, p2, t);
      Pass(Put(op, Put(op, e, p1, Neutral(op)), p2, t), 1)
  }

  lemma JoinSlotsShrinks(op: Op, e: Expr, p1: Path, p2: Path, t: Expr)
    requires IsOperand(op, e, p1) && IsOperand(op, e, p2) && p1 != p2
    requires Join(op, At(op, e, p1), At(op, e, p2)) == Some(t)
    ensures OnChain(op, Put(op, e, p1, Neutral(op)), p2)
    ensures Shrinks(op, e, Pass(Put(op, Put(op, e, p1, Neutral(op)), p2, t), 1))
  {
    var n := Neutral(op);
    var f := Put(op, e, p1, n);
    JoinShape(op, At(op, e, p1), At(op, e, p2));
    PutElsewhere(op, e, p1, p2, n);
    PutSameChain(op, e, p1, n);
    PutSameChain(op, f, p2, t);
    SameChainTransitive(op, e, f, Put(op, f, p2, t));
    PutSize(op, e, p1, n);
    PutSize(op, f, p2, t);
    PutElsewhere(op, f, p2, p1, t);
    var g := Put(op, f, p2, t);
    PutAt(op, g, p1);
    PutConstant(op, g, p1, n);
  }

  /** expr_eliminate_dups1, with e the root of the chain and ep1, ep2 the slots p1, p2. */
  function Dups1(op: Op, e: Expr, p1: Path, p2: Path): (r: Pass)
    requires IsOp(op, e) && OnChain(op, e, p1) && OnChain(op, e, p2)
    ensures Shrinks(op, e, r)
    decreases Size(e), ChainSize(op, At(op, e, p1)), ChainSize(op, At(op, e, p2)), 1
  {
    ShrinksNot(op, e);
    SameChainReflexive(op, e);
    if IsOp(op, At(op, e, p1)) then
      NextSlot(op, e, e, p1, L, p2);
      var a := Dups1(op, e, p1 + [L], p2);
      NextSlot(op, e, a.e, p1, R, p2);
      var b := Dups1(op, a.e, p1 + [R], p2);
      ShrinksTwice(op, e, a, b);
      a.Then(b)
    else if IsOp(op, At(op, e, p2)) then
      NextSlot(op, e, e, p2, L, p1);
      var a := Dups1(op, e, p1, p2 + [L]);
      NextSlot(op, e, a.e, p2, R, p1);
      var b := Dups1(op, a.e, p1, p2 + [R]);
      ShrinksTwice(op, e, a, b);
      a.Then(b)
    else if p1 == p2 then Pass(e, 0)
    else
      var a := Dups1Inside(op, e, p1);
      SameChainSlot(op, e, a.e, p1);
      SameChainSlot(op, e, a.e, p2);
      var b := JoinSlots(op, a.e, p1, p2);
      ShrinksTwice(op, e, a, b);
      a.Then(b)
  }

  /** Run the pass on an operand that is itself a chain of the other operator. */
  function Dups1Inside(op: Op, e: Expr, p: Path): (r: Pass)
    requires IsOp(op, e) && IsOperand(op, e, p)
    ensures Shrinks(op, e, r)
    decreases Size(e), 0, 0, 0
  {
    var e1 := At(op, e, p);
    ShrinksNot(op, e);
    PutSize(op, e, p, e1);
    if e1.Bin? then
      var inner := Dups1(e1.op, e1, [], []);
      ShrinksInside(op, e, p, inner);
      Pass(Put(op, e, p, inner.e), inner.changes)
    else Pass(e, 0)
  }

  lemma JoinSlotsPreservesValue(op: Op, e: Expr, p1: Path, p2: Path, env: Env)
    requires Valid(env) && IsOperand(op, e, p1) && IsOperand(op, e, p2) && p1 != p2
    ensures Value(JoinSlots(op, e, p1, p2).e, env) == Value(e, env)
    ensures NoMod(e, env) ==> NoMod(JoinSlots(op, e, p1, p2).e, env)
  {
    var e1, e2 := At(op, e, p1), At(op, e, p2);
    if Join(op, e1, e2).Some? {
      var t, n := Join(op, e1, e2).value, Neutral(op);
      var f := Put(op, e, p1, n);
      JoinExact(op, e1, e2, env);
      ConstantValues(op, env);
      PutElsewhere(op, e, p1, p2, n);
      AtValue(op, e, p1, env);
      PutValue(op, e, p1, n, env);
      AtValue(op, f, p2, env);
      PutValue(op, f, p2, t, env);
      if NoMod(e, env) {
        ChainNoMod(op, e, p1, n, env);
        ChainNoMod(op, e, p2, n, env);
        ChainNoMod(op, f, p2, t, env);
      }
    }
  }

  /** Joining operands pairwise preserves the value for all three values of every symbol. */
  lemma {:induction false} Dups1PreservesValue(op: Op, e: Expr, p1: Path, p2: Path, env: Env)
    requires Valid(env) && IsOp(op, e) && OnChain(op, e, p1) && OnChain(op, e, p2)
    ensures Value(Dups1(op, e, p1, p2).e, env) == Value(e, env)
    ensures NoMod(e, env) ==> NoMod(Dups1(op, e, p1, p2).e, env)
    decreases Size(e), ChainSize(op, At(op, e, p1)), ChainSize(op, At(op, e, p2)), 1
  {
    SameChainReflexive(op, e);
    if IsOp(op, At(op, e, p1)) {
      NextSlot(op, e, e, p1, L, p2);
      var a := Dups1(op, e, p1 + [L], p2);
      Dups1PreservesValue(op, e, p1 + [L], p2, env);
      NextSlot(op, e, a.e, p1, R, p2);
      Dups1PreservesValue(op, a.e, p1 + [R], p2, env);
    } else if IsOp(op, At(op, e, p2)) {
      NextSlot(op, e, e, p2, L, p1);
      var a := Dups1(op, e, p1, p2 + [L]);
      Dups1PreservesValue(op, e, p1, p2 + [L], env);
      NextSlot(op, e, a.e, p2, R, p1);
      Dups1PreservesValue(op, a.e, p1, p2 + [R], env);
    } else if p1 != p2 {
      var a := Dups1Inside(op, e, p1);
      Dups1InsidePreservesValue(op, e, p1, env);
      SameChainSlot(op, e, a.e, p1);
      SameChainSlot(op, e, a.e, p2);
      JoinSlotsPreservesValue(op, a.e, p1, p2, env);
    }
  }

  lemma {:induction false} Dups1InsidePreservesValue(op: Op, e: Expr, p: Path, env: Env)
    requires Valid(env) && IsOp(op, e) && IsOperand(op, e, p)
    ensures Value(Dups1Inside(op, e, p).e, env) == Value(e, env)
    ensures NoMod(e, env) ==> NoMod(Dups1Inside(op, e, p).e, env)
    decreases Size(e), 0, 0, 0
  {
    var e1 := At(op, e, p);
    if e1.Bin? {
      PutSize(op, e, p, e1);
      var inner := Dups1(e1.op, e1, [], []);
      Dups1PreservesValue(e1.op, e1, [], [], env);
      AtValue(op, e, p, env);
      PutValue(op, e, p, inner.e, env);
      if NoMod(e, env) { ChainNoMod(op, e, p, inner.e, env); }
    }
  }

  // ----- second pass: operands contradicted by the rest of the chain -----

  /** All of !e1 can be factored out of e2: (a || b) against !a && !b, or a && b against !a || !b. */
  predicate Contradicts(op: Op, e1: Expr, e2: Expr) {
    Extract(op, Transform(Not(e1)), e2).rest1 == Neutral(op)
  }

  /** expr_eliminate_dups2; unlike the first pass it goes on to compare an operand with the inner
      nodes of the chain. */
  function Dups2(op: Op, e: Expr, p1: Path, p2: Path): (r: Pass)
    requires IsOp(op, e) && OnChain(op, e, p1) && OnChain(op, e, p2)
    ensures Shrinks(op, e, r)
    decreases Size(e), ChainSize(op, At(op, e, p1)), ChainSize(op, At(op, e, p2)), 1
  {
    ShrinksNot(op, e);
    SameChainReflexive(op, e);
    if IsOp(op, At(op, e, p1)) then
      NextSlot(op, e, e, p1, L, p2);
      var a := Dups2(op, e, p1 + [L], p2);
      NextSlot(op, e, a.e, p1, R, p2);
      var b := Dups2(op, a.e, p1 + [R], p2);
      ShrinksTwice(op, e, a, b);
      a.Then(b)
    else if IsOp(op, At(op, e, p2)) then
      NextSlot(op, e, e, p2, L, p1);
      var a := Dups2(op, e, p1, p2 + [L]);
      NextSlot(op, e, a.e, p2, R, p1);
      var b := Dups2(op, a.e, p1, p2 + [R]);
      ShrinksTwice(op, e, a, b);
      var ab := a.Then(b);
      SameChainSlot(op, e, ab.e, p1);
      SameChainSlot(op, e, ab.e, p2);
      var c := Dups2Here(op, ab.e, p1, p2);
      ShrinksTwice(op, e, ab, c);
      ab.Then(c)
    else if p1 == p2 then Pass(e, 0)
    else Dups2Here(op, e, p1, p2)
  }

  /** Simplify the operand itself, then drop it if slot p2 contradicts it. */
  function Dups2Here(op: Op, e: Expr, p1: Path, p2: Path): (r: Pass)
    requires IsOp(op, e) && IsOperand(op, e, p1) && OnChain(op, e, p2)
    ensures Shrinks(op, e, r)
    decreases Size(e), 0, 0, 0
  {
    var e1 := At(op, e, p1);
    ShrinksNot(op, e);
    PutSize(op, e, p1, e1);
    if e1.Bin? then
      var inner := Dups2(e1.op, e1, [], []);
      ShrinksInside(op, e, p1, inner);
      var f := Put(op, e, p1, inner.e);
      SameChainSlot(op, e, f, p2);
      if Contradicts(op, inner.e, At(op, f, p2)) then
        DropShrinks(op, f, p1);
        ShrinksTwice(op, e, Pass(f, inner.changes), Pass(Put(op, f, p1, Absorbing(op)), 1));
        Pass(Put(op, f, p1, Absorbing(op)), inner.changes + 1)
      else Pass(f, inner.changes)
    else Pass(e, 0)
  }

  lemma DropShrinks(op: Op, f: Expr, p: Path)
    requires IsOperand(op, f, p) && At(op, f, p).Bin?
    ensures Shrinks(op, f, Pass(Put(op, f, p, Absorbing(op)), 1))
  {
    PutSameChain(op, f, p, Absorbing(op));
    PutSize(op, f, p, Absorbing(op));
  }

  /** For all three values: dropping a contradicted operand is exact unless the chain has the value m,
      which takes an operand with the value m. */
  lemma DropIsExactUnlessMod(op: Op, f: Expr, p1: Path, p2: Path, env: Env)
    requires Valid(env) && IsOperand(op, f, p1) && OnChain(op, f, p2)
    requires Contradicts(op, At(op, f, p1), At(op, f, p2))
    ensures Value(Put(op, f, p1, Absorbing(op)), env) == Value(f, env) <==> Value(f, env) != 1
    ensures Value(f, env) == 1 ==> Value(At(op, f, p1), env) == 1
    ensures Value(Put(op, f, p1, Absorbing(op)), env) == 2 - Unit(op)
  {
    var e1, e2 := At(op, f, p1), At(op, f, p2);
    ConstantValues(op, env);
    TransformPreservesValue(Not(e1), env);
    ExtractSound(op, Transform(Not(e1)), e2, env);
    AtValue(op, f, p1, env);
    AtValue(op, f, p2, env);
    PutValue(op, f, p1, Absorbing(op), env);
  }

  /** a || b under an "and", a && b under an "or" */
  function Either(op: Op, a: Symbol, b: Symbol): Expr {
    Bin(Dual(op), Sym(a), Sym(b))
  }

  /** !a && !b under an "and", !a || !b under an "or" */
  function Neither(op: Op, a: Symbol, b: Symbol): Expr {
    Bin(op, Not(Sym(a)), Not(Sym(b)))
  }

  function Clash(op: Op, a: Symbol, b: Symbol): Expr {
    Bin(op, Either(op, a, b), Neither(op, a, b))
  }

  lemma ContradictionOfPair(op: Op, a: Symbol, b: Symbol)
    requires a != b && !IsTristateConstant(a) && !IsTristateConstant(b)
    ensures Contradicts(op, Either(op, a, b), Neither(op, a, b))
  {
    var na, nb, u := Not(Sym(a)), Not(Sym(b)), Neutral(op);
    TransformFixesNormal(Bin(op, na, nb));
    TransformFixesNormal(Either(op, a, b));
    assert Transform(Not(Either(op, a, b))) == Bin(op, na, nb);
    EqIsIdentity(na, na);
    EqIsIdentity(nb, nb);
    EqIsIdentity(na, nb);
    EqIsIdentity(nb, na);
    EqIsIdentity(u, nb);
    EqIsIdentity(nb, u);
    var f1 := ExtractOperands(op, None, na, Bin(op, na, nb));
    assert ExtractOperands(op, None, na, na) == Factored(Some(na), u, u);
    assert ExtractOperands(op, Some(na), u, nb) == Factored(Some(na), u, nb);
    assert f1 == Factored(Some(na), u, Bin(op, u, nb));
    var f2 := ExtractOperands(op, Some(na), nb, Bin(op, u, nb));
    assert ExtractOperands(op, Some(na), nb, u) == Factored(Some(na), nb, u);
    assert ExtractOperands(op, Some(na), nb, nb) == Factored(Some(Bin(op, na, nb)), u, u);
    assert f2.rest1 == u;
    assert ExtractOperands(op, None, Bin(op, na, nb), Bin(op, na, nb)).rest1 == Bin(op, u, u);
  }

  /** At m the second pass changes the value: the clash of a and b is m when a is m and b is n under
      the "and", y under the "or", and the pass replaces its first operand by n or y. */
  lemma DropLosesMod(op: Op, a: Symbol, b: Symbol, env: Env)
    requires Valid(env) && KindOf(a) == Tristate && KindOf(b) == Tristate && a != b
    requires env.tri(a) == 1 && env.tri(b) == 2 - Unit(op)
    ensures Contradicts(op, Either(op, a, b), Neither(op, a, b)) && Value(Clash(op, a, b), env) == 1
    ensures Value(Bin(op, Absorbing(op), Neither(op, a, b)), env) == 2 - Unit(op)
  {
    ContradictionOfPair(op, a, b);
    ConstantValues(op, env);
    assert Value(Not(Sym(a)), env) == 1 && Value(Not(Sym(b)), env) == Unit(op);
    assert Value(Neither(op, a, b), env) == 1 && Value(Either(op, a, b), env) == 1;
  }

  /** The value v' replaces v, and differs from it only if v is m. */
  predicate Kept(v: Tri, v': Tri) {
    v == 1 || v' == v
  }

  /** Whatever is kept in an operand is kept in the chain. */
  lemma KeptInChain(op: Op, v: Tri, v': Tri, rest: Tri)
    requires Kept(v, v')
    ensures Kept(Combine(op, v, rest), Combine(op, v', rest))
  {
  }

  /** For all three values of every symbol: dropping contradicted operands changes no value but m. */
  lemma {:induction false} Dups2PreservesValue(op: Op, e: Expr, p1: Path, p2: Path, env: Env)
    requires Valid(env) && IsOp(op, e) && OnChain(op, e, p1) && OnChain(op, e, p2)
    ensures Kept(Value(e, env), Value(Dups2(op, e, p1, p2).e, env))
    ensures NoMod(e, env) ==> NoMod(Dups2(op, e, p1, p2).e, env)
    decreases Size(e), ChainSize(op, At(op, e, p1)), ChainSize(op, At(op, e, p2)), 1
  {
    SameChainReflexive(op, e);
    if IsOp(op, At(op, e, p1)) {
      NextSlot(op, e, e, p1, L, p2);
      var a := Dups2(op, e, p1 + [L], p2);
      Dups2PreservesValue(op, e, p1 + [L], p2, env);
      NextSlot(op, e, a.e, p1, R, p2);
      Dups2PreservesValue(op, a.e, p1 + [R], p2, env);
    } else if IsOp(op, At(op, e, p2)) {
      NextSlot(op, e, e, p2, L, p1);
      var a := Dups2(op, e, p1, p2 + [L]);
      Dups2PreservesValue(op, e, p1, p2 + [L], env);
      NextSlot(op, e, a.e, p2, R, p1);
      var b := Dups2(op, a.e, p1, p2 + [R]);
      Dups2PreservesValue(op, a.e, p1, p2 + [R], env);
      SameChainTransitive(op, e, a.e, b.e);
      SameChainSlot(op, e, b.e, p1);
      SameChainSlot(op, e, b.e, p2);
      Dups2HerePreservesValue(op, b.e, p1, p2, env);
    } else if p1 != p2 {
      Dups2HerePreservesValue(op, e, p1, p2, env);
    }
  }

  lemma {:induction false} Dups2HerePreservesValue(op: Op, e: Expr, p1: Path, p2: Path, env: Env)
    requires Valid(env) && IsOp(op, e) && IsOperand(op, e, p1) && OnChain(op, e, p2)
    ensures Kept(Value(e, env), Value(Dups2Here(op, e, p1, p2).e, env))
    ensures NoMod(e, env) ==> NoMod(Dups2Here(op, e, p1, p2).e, env)
    decreases Size(e), 0, 0, 0
  {
    var e1 := At(op, e, p1);
    if e1.Bin? {
      PutSize(op, e, p1, e1);
      var inner := Dups2(e1.op, e1, [], []);
      Dups2PreservesValue(e1.op, e1, [], [], env);
      AtValue(op, e, p1, env);
      PutValue(op, e, p1, inner.e, env);
      KeptInChain(op, Value(e1, env), Value(inner.e, env), Rest(op, e, p1, env));
      var f := Put(op, e, p1, inner.e);
      ShrinksInside(op, e, p1, inner);
      SameChainSlot(op, e, f, p2);
      if Contradicts(op, inner.e, At(op, f, p2)) {
        DropIsExactUnlessMod(op, f, p1, p2, env);
      }
      if NoMod(e, env) {
        Dups2HereKeepsNoMod(op, e, p1, inner.e, env);
      }
    }
  }

  lemma Dups2HereKeepsNoMod(op: Op, e: Expr, p: Path, x: Expr, env: Env)
    requires Valid(env) && NoMod(e, env) && IsOperand(op, e, p) && !IsOp(op, x)
    requires NoMod(At(op, e, p), env) ==> NoMod(x, env)
    ensures var f := Put(op, e, p, x); NoMod(f, env) && OnChain(op, f, p) && NoMod(Put(op, f, p, Absorbing(op)), env)
  {
    ChainNoMod(op, e, p, x, env);
    PutSameChain(op, e, p, x);
    ConstantValues(op, env);
    ChainNoMod(op, Put(op, e, p, x), p, Absorbing(op), env);
  }

  // ----- both passes to a fixpoint -----

  /** One round of expr_eliminate_dups. */
  function Round(e: Expr): (r: Pass)
    ensures r.changes == 0 ==> r.e == e
    ensures r.changes > 0 ==> Size(r.e) < Size(e) || (Size(r.e) == Size(e) && HasConstantOperand(r.e))
  {
    if e.Bin? then
      var a := Dups1(e.op, e, [], []);
      var b := Dups2(e.op, a.e, [], []);
      ShrinksTwice(e.op, e, a, b);
      a.Then(b)
    else Pass(e, 0)
  }

  /** expr_eliminate_dups, as the fixpoint it computes */
  function EliminateDups(e: Expr): Expr
    decreases Size(e)
  {
    var p := Round(e);
    if p.changes == 0 then e
    else
      EliminateYnReduces(p.e);
      EliminateDups(EliminateYn(p.e))
  }

  /** The loop of expr_eliminate_dups terminates, because every round that reports a change leaves a
      smaller expression once the constants are removed. */
  method EliminateDupsLoop(e0: Expr) returns (e: Expr)
    ensures e == EliminateDups(e0)
    ensures Round(e).changes == 0
  {
    e := e0;
    while true
      invariant EliminateDups(e) == EliminateDups(e0)
      decreases Size(e)
    {
      var p := Round(e);
      if p.changes == 0 { break; }
      EliminateYnReduces(p.e);
      e := EliminateYn(p.e);
    }
  }

  /** For all three values of every symbol: expr_eliminate_dups changes no value but m. */
  lemma {:induction false} EliminateDupsPreservesValue(e: Expr, env: Env)
    requires Valid(env)
    ensures Kept(Value(e, env), Value(EliminateDups(e), env))
    ensures NoMod(e, env) ==> NoMod(EliminateDups(e), env)
    decreases Size(e)
  {
    var p := Round(e);
    if p.changes != 0 {
      var a := Dups1(e.op, e, [], []);
      Dups1PreservesValue(e.op, e, [], [], env);
      Dups2PreservesValue(e.op, a.e, [], [], env);
      EliminateYnPreservesValue(p.e, env);
      if NoMod(p.e, env) { EliminateYnKeepsNoMod(p.e, env); }
      EliminateYnReduces(p.e);
      EliminateDupsPreservesValue(EliminateYn(p.e), env);
    }
  }

  /** In particular the value is the same when no symbol standing on its own is m. */
  lemma EliminateDupsOnTwoValues(e: Expr, env: Env)
    requires Valid(env) && NoMod(e, env)
    ensures Value(EliminateDups(e), env) == Value(e, env) && NoMod(EliminateDups(e), env)
  {
    EliminateDupsPreservesValue(e, env);
    NoModTwoValued(e, env);
  }

  // ----- what is left when a round reports no change -----

  /** No two operands compare equal or say something twice about a symbol, no operand is contradicted
      by another slot of the chain, and the same holds inside every operand. */
  ghost predicate Clean(e: Expr)
    decreases Size(e)
  {
    e.Bin? ==>
      && (forall q1, q2 | IsOperand(e.op, e, q1) && IsOperand(e.op, e, q2) && q1 != q2 ::
            !Joinable(e.op, At(e.op, e, q1), At(e.op, e, q2)))
      && (forall q1, q2 | IsOperand(e.op, e, q1) && At(e.op, e, q1).Bin? && OnChain(e.op, e, q2) && q1 != q2 ::
            !Contradicts(e.op, At(e.op, e, q1), At(e.op, e, q2)))
      && (forall q | IsOperand(e.op, e, q) :: PutSize(e.op, e, q, e); Clean(At(e.op, e, q)))
  }

  lemma Below(p: Path, q: Path) returns (d: Dir)
    requires p <= q && p != q
    ensures p + [d] <= q
  {
    assert p == q[..|p|] && q == q[..|q|];
    d := q[|p|];
  }

  lemma Quiet1First(op: Op, e: Expr, p1: Path, p2: Path, d: Dir)
    requires IsOp(op, e) && OnChain(op, e, p1) && OnChain(op, e, p2) && Dups1(op, e, p1, p2).changes == 0
    requires IsOp(op, At(op, e, p1))
    ensures OnChain(op, e, p1 + [d]) && ChainSize(op, At(op, e, p1 + [d])) < ChainSize(op, At(op, e, p1))
    ensures Dups1(op, e, p1 + [d], p2).changes == 0
  {
    SameChainReflexive(op, e);
    NextSlot(op, e, e, p1, L, p2);
    NextSlot(op, e, e, p1, R, p2);
    assert Dups1(op, e, p1 + [L], p2).e == e;
  }

  lemma Quiet1Second(op: Op, e: Expr, p1: Path, p2: Path, d: Dir)
    requires IsOp(op, e) && IsOperand(op, e, p1) && OnChain(op, e, p2) && Dups1(op, e, p1, p2).changes == 0
    requires IsOp(op, At(op, e, p2))
    ensures OnChain(op, e, p2 + [d]) && ChainSize(op, At(op, e, p2 + [d])) < ChainSize(op, At(op, e, p2))
    ensures Dups1(op, e, p1, p2 + [d]).changes == 0
  {
    SameChainReflexive(op, e);
    NextSlot(op, e, e, p2, L, p1);
    NextSlot(op, e, e, p2, R, p1);
    assert Dups1(op, e, p1, p2 + [L]).e == e;
  }

  lemma {:induction false} Dups1TriesAllPairs(op: Op, e: Expr, p1: Path, p2: Path, q1: Path, q2: Path)
    requires IsOp(op, e) && OnChain(op, e, p1) && OnChain(op, e, p2) && Dups1(op, e, p1, p2).changes == 0
    requires p1 <= q1 && p2 <= q2 && IsOperand(op, e, q1) && IsOperand(op, e, q2) && q1 != q2
    ensures Join(op, At(op, e, q1), At(op, e, q2)) == None
    ensures Dups1Inside(op, e, q1).changes == 0
    decreases ChainSize(op, At(op, e, p1)), ChainSize(op, At(op, e, p2))
  {
    if IsOp(op, At(op, e, p1)) {
      var d := Below(p1, q1);
      Quiet1First(op, e, p1, p2, d);
      Dups1TriesAllPairs(op, e, p1 + [d], p2, q1, q2);
    } else if IsOp(op, At(op, e, p2)) {
      var d := Below(p2, q2);
      Quiet1Second(op, e, p1, p2, d);
      Dups1TriesAllPairs(op, e, p1, p2 + [d], q1, q2);
    } else {
      OperandIsLowest(op, e, p1, q1);
      OperandIsLowest(op, e, p2, q2);
    }
  }

  lemma {:induction false} OperandIsLowest(op: Op, e: Expr, p: Path, q: Path)
    requires IsOperand(op, e, p) && p <= q && OnChain(op, e, q)
    ensures p == q
  {
    if p != [] { OperandIsLowest(op, Child(e, p[0]), p[1..], q[1..]); }
  }

  lemma Quiet2First(op: Op, e: Expr, p1: Path, p2: Path, d: Dir)
    requires IsOp(op, e) && OnChain(op, e, p1) && OnChain(op, e, p2) && Dups2(op, e, p1, p2).changes == 0
    requires IsOp(op, At(op, e, p1))
    ensures OnChain(op, e, p1 + [d]) && ChainSize(op, At(op, e, p1 + [d])) < ChainSize(op, At(op, e, p1))
    ensures Dups2(op, e, p1 + [d], p2).changes == 0
  {
    SameChainReflexive(op, e);
    NextSlot(op, e, e, p1, L, p2);
    NextSlot(op, e, e, p1, R, p2);
    assert Dups2(op, e, p1 + [L], p2).e == e;
  }

  lemma Quiet2Second(op: Op, e: Expr, p1: Path, p2: Path, d: Dir)
    requires IsOp(op, e) && IsOperand(op, e, p1) && OnChain(op, e, p2) && Dups2(op, e, p1, p2).changes == 0
    requires IsOp(op, At(op, e, p2))
    ensures OnChain(op, e, p2 + [d]) && ChainSize(op, At(op, e, p2 + [d])) < ChainSize(op, At(op, e, p2))
    ensures Dups2(op, e, p1, p2 + [d]).changes == 0
  {
    SameChainReflexive(op, e);
    NextSlot(op, e, e, p2, L, p1);
    NextSlot(op, e, e, p2, R, p1);
    assert Dups2(op, e, p1, p2 + [L]).e == e;
  }

  lemma {:induction false} Dups2TriesAllPairs(op: Op, e: Expr, p1: Path, p2: Path, q1: Path, q2: Path)
    requires IsOp(op, e) && OnChain(op, e, p1) && OnChain(op, e, p2) && Dups2(op, e, p1, p2).changes == 0
    requires p1 <= q1 && p2 <= q2 && IsOperand(op, e, q1) && OnChain(op, e, q2) && q1 != q2
    ensures Dups2Here(op, e, q1, q2).changes == 0
    decreases ChainSize(op, At(op, e, p1)), ChainSize(op, At(op, e, p2))
  {
    if IsOp(op, At(op, e, p1)) {
      var d := Below(p1, q1);
      Quiet2First(op, e, p1, p2, d);
      Dups2TriesAllPairs(op, e, p1 + [d], p2, q1, q2);
    } else {
      OperandIsLowest(op, e, p1, q1);
      if !IsOp(op, At(op, e, p2)) {
        OperandIsLowest(op, e, p2, q2);
      } else if p2 != q2 {
        var d := Below(p2, q2);
        Quiet2Second(op, e, p1, p2, d);
        Dups2TriesAllPairs(op, e, p1, p2 + [d], q1, q2);
      } else {
        Quiet2Second(op, e, p1, p2, L);
        Quiet2Second(op, e, p1, p2, R);
      }
    }
  }

  lemma QuietStepIsClean(op: Op, e: Expr, q1: Path, q2: Path)
    requires IsOp(op, e) && IsOperand(op, e, q1) && OnChain(op, e, q2)
    requires Dups2Here(op, e, q1, q2).changes == 0 && At(op, e, q1).Bin?
    ensures !Contradicts(op, At(op, e, q1), At(op, e, q2))
    ensures Dups2(At(op, e, q1).op, At(op, e, q1), [], []).changes == 0
  {
    PutAt(op, e, q1);
  }

  /** A chain has at least two operands, so every operand is tried against another. */
  lemma {:induction false} OtherOperand(op: Op, e: Expr, q: Path) returns (q2: Path)
    requires IsOp(op, e) && IsOperand(op, e, q)
    ensures IsOperand(op, e, q2) && q2 != q
  {
    var d := if q[0].L? then R else L;
    q2 := [d] + SomeOperand(op, Child(e, d));
  }

  ghost function SomeOperand(op: Op, e: Expr): (q: Path)
    ensures IsOperand(op, e, q)
  {
    if IsOp(op, e) then [L] + SomeOperand(op, e.l) else []
  }

  /** When a round changes nothing, nothing is left to join or to drop at any depth. */
  lemma {:induction false} QuietRoundIsClean(e: Expr)
    requires Round(e).changes == 0
    ensures Clean(e)
    decreases Size(e), 0
  {
    if e.Bin? {
      var op := e.op;
      assert Dups1(op, e, [], []).changes == 0 && Dups2(op, e, [], []).changes == 0;
      forall q1, q2 | IsOperand(op, e, q1) && IsOperand(op, e, q2) && q1 != q2
        ensures !Joinable(op, At(op, e, q1), At(op, e, q2))
      {
        Dups1TriesAllPairs(op, e, [], [], q1, q2);
        JoinsExactly(op, At(op, e, q1), At(op, e, q2));
      }
      forall q1, q2 | IsOperand(op, e, q1) && At(op, e, q1).Bin? && OnChain(op, e, q2) && q1 != q2
        ensures !Contradicts(op, At(op, e, q1), At(op, e, q2))
      {
        Dups2TriesAllPairs(op, e, [], [], q1, q2);
        QuietStepIsClean(op, e, q1, q2);
      }
      forall q | IsOperand(op, e, q) ensures Clean(At(op, e, q)) {
        var q2 := OtherOperand(op, e, q);
        PutSize(op, e, q, e);
        QuietOperandIsClean(op, e, q, q2);
      }
    }
  }

  lemma {:induction false} QuietOperandIsClean(op: Op, e: Expr, q: Path, q2: Path)
    requires IsOp(op, e) && Dups1(op, e, [], []).changes == 0 && Dups2(op, e, [], []).changes == 0
    requires IsOperand(op, e, q) && IsOperand(op, e, q2) && q != q2 && Size(At(op, e, q)) < Size(e)
    ensures Clean(At(op, e, q))
    decreases Size(At(op, e, q)), 1
  {
    Dups1TriesAllPairs(op, e, [], [], q, q2);
    Dups2TriesAllPairs(op, e, [], [], q, q2);
    if At(op, e, q).Bin? { QuietStepIsClean(op, e, q, q2); }
    QuietRoundIsClean(At(op, e, q));
  }

  /** expr_eliminate_dups leaves nothing it could still eliminate. */
  lemma {:induction false} EliminateDupsIsClean(e: Expr)
    ensures Clean(EliminateDups(e))
    decreases Size(e)
  {
    var p := Round(e);
    if p.changes == 0 {
      QuietRoundIsClean(e);
    } else {
      EliminateYnReduces(p.e);
      EliminateDupsIsClean(EliminateYn(p.e));
    }
  }
}
