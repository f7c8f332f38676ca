/**
 The expressions that expr_eliminate_dups (scripts/kconfig/expr.c) leaves alone, and an expression
 whose value it changes.
 */
module KconfigFixpoint {
  import opened Options
  import opened KconfigExpr
  import opened KconfigEq
  import opened KconfigTransform
  import opened KconfigJoin
  import opened KconfigChain
  import opened KconfigDups

  // ----- the passes are quiet where there is nothing to do -----

  ghost predicate NothingToJoin(op: Op, e: Expr) {
    forall q1, q2 | IsOperand(op, e, q1) && IsOperand(op, e, q2) && q1 != q2 ::
      Join(op, At(op, e, q1), At(op, e, q2)) == None
  }

  ghost predicate QuietInside1(op: Op, e: Expr) {
    IsOp(op, e) && forall q | IsOperand(op, e, q) :: Dups1Inside(op, e, q).changes == 0
  }

  lemma {:induction false} Dups1IsQuiet(op: Op, e: Expr, p1: Path, p2: Path)
    requires NothingToJoin(op, e) && QuietInside1(op, e) && OnChain(op, e, p1) && OnChain(op, e, p2)
    ensures Dups1(op, e, p1, p2) == Pass(e, 0)
    decreases ChainSize(op, At(op, e, p1)), ChainSize(op, At(op, e, p2))
  {
    SameChainReflexive(op, e);
    if IsOp(op, At(op, e, p1)) {
      NextSlot(op, e, e, p1, L, p2);
      NextSlot(op, e, e, p1, R, p2);
      Dups1IsQuiet(op, e, p1 + [L], p2);
      Dups1IsQuiet(op, e, p1 + [R], p2);
    } else if IsOp(op, At(op, e, p2)) {
      NextSlot(op, e, e, p2, L, p1);
      NextSlot(op, e, e, p2, R, p1);
      Dups1IsQuiet(op, e, p1, p2 + [L]);
      Dups1IsQuiet(op, e, p1, p2 + [R]);
    } else if p1 != p2 {
      assert Dups1Inside(op, e, p1) == Pass(e, 0);
    }
  }

  ghost predicate QuietHere2(op: Op, e: Expr, p: Path) {
    IsOp(op, e) && IsOperand(op, e, p) &&
    forall q | OnChain(op, e, q) && p != q :: Dups2Here(op, e, p, q).changes == 0
  }

  lemma {:induction false} Dups2IsQuietAt(op: Op, e: Expr, p1: Path, p2: Path)
    requires QuietHere2(op, e, p1) && OnChain(op, e, p2)
    ensures Dups2(op, e, p1, p2) == Pass(e, 0)
    decreases ChainSize(op, At(op, e, p2))
  {
    SameChainReflexive(op, e);
    if IsOp(op, At(op, e, p2)) {
      NextSlot(op, e, e, p2, L, p1);
      NextSlot(op, e, e, p2, R, p1);
      Dups2IsQuietAt(op, e, p1, p2 + [L]);
      Dups2IsQuietAt(op, e, p1, p2 + [R]);
    }
  }

  lemma {:induction false} Dups2IsQuiet(op: Op, e: Expr, p1: Path, p2: Path)
    requires IsOp(op, e) && (forall p | IsOperand(op, e, p) :: QuietHere2(op, e, p))
    requires OnChain(op, e, p1) && OnChain(op, e, p2)
    ensures Dups2(op, e, p1, p2) == Pass(e, 0)
    decreases ChainSize(op, At(op, e, p1))
  {
    if IsOp(op, At(op, e, p1)) {
      SameChainReflexive(op, e);
      NextSlot(op, e, e, p1, L, p2);
      NextSlot(op, e, e, p1, R, p2);
      Dups2IsQuiet(op, e, p1 + [L], p2);
      Dups2IsQuiet(op, e, p1 + [R], p2);
    } else {
      Dups2IsQuietAt(op, e, p1, p2);
    }
  }

  /** Nothing to do, at any depth: then a round does nothing. */
  lemma {:induction false} CleanIsQuiet(e: Expr)
    requires Clean(e)
    ensures Round(e).changes == 0
    decreases Size(e)
  {
    if e.Bin? {
      var op := e.op;
      forall q | IsOperand(op, e, q) ensures Dups1Inside(op, e, q).changes == 0 && QuietHere2(op, e, q) {
        PutSize(op, e, q, e);
        CleanIsQuiet(At(op, e, q));
        QuietOperand(op, e, q);
      }
      forall q1, q2 | IsOperand(op, e, q1) && IsOperand(op, e, q2) && q1 != q2
        ensures Join(op, At(op, e, q1), At(op, e, q2)) == None
      {
        JoinsExactly(op, At(op, e, q1), At(op, e, q2));
      }
      assert NothingToJoin(op, e);
      Dups1IsQuiet(op, e, [], []);
      Dups2IsQuiet(op, e, [], []);
    }
  }

  lemma QuietOperand(op: Op, e: Expr, q: Path)
    requires IsOp(op, e) && IsOperand(op, e, q) && Round(At(op, e, q)).changes == 0 && Clean(e)
    ensures Dups1Inside(op, e, q).changes == 0 && QuietHere2(op, e, q)
  {
    PutAt(op, e, q);
    var x := At(op, e, q);
    if x.Bin? {
      assert Dups1(x.op, x, [], []) == Pass(x, 0) && Dups2(x.op, x, [], []) == Pass(x, 0);
    }
    forall q2 | OnChain(op, e, q2) && q != q2 ensures Dups2Here(op, e, q, q2).changes == 0 {}
  }

  /** expr_eliminate_dups changes an expression exactly when somewhere in it two operands can be
      joined or one operand contradicts another slot. */
  lemma FixpointsAreClean(e: Expr)
    ensures EliminateDups(e) == e <==> Clean(e)
  {
    if Clean(e) {
      CleanIsQuiet(e);
    } else {
      EliminateDupsIsClean(e);
    }
  }

  lemma EliminateDupsIsIdempotent(e: Expr)
    ensures EliminateDups(EliminateDups(e)) == EliminateDups(e)
  {
    EliminateDupsIsClean(e);
    FixpointsAreClean(EliminateDups(e));
  }

  // ----- (a || b) && (!a && !b), and (a && b) || (!a || !b) -----

  lemma OperandsOfPair(op: Op, x: Expr, y: Expr, q: Path)
    requires IsOperand(op, Bin(op, x, y), q) && !IsOp(op, x) && !IsOp(op, y)
    ensures q == [L] || q == [R]
  {
    assert q == [q[0]] + q[1..];
    OperandIsLowest(op, Child(Bin(op, x, y), q[0]), [], q[1..]);
  }

  lemma OperandsOfTriple(op: Op, x: Expr, a: Symbol, b: Symbol, q: Path)
    requires IsOperand(op, Bin(op, x, Neither(op, a, b)), q) && !IsOp(op, x)
    ensures q == [L] || q == [R, L] || q == [R, R]
  {
    assert q == [q[0]] + q[1..];
    if q[0].L? {
      OperandIsLowest(op, x, [], q[1..]);
    } else {
      OperandsOfPair(op, Not(Sym(a)), Not(Sym(b)), q[1..]);
    }
  }

  lemma Slots(op: Op, x: Expr, a: Symbol, b: Symbol)
    ensures var e := Bin(op, x, Neither(op, a, b));
            && OnChain(op, e, [L]) && At(op, e, [L]) == x
            && OnChain(op, e, [R]) && At(op, e, [R]) == Neither(op, a, b)
            && OnChain(op, e, [R, L]) && At(op, e, [R, L]) == Not(Sym(a))
            && OnChain(op, e, [R, R]) && At(op, e, [R, R]) == Not(Sym(b))
  {
    assert [R, L][1..] == [L] && [R, R][1..] == [R];
    assert OnChain(op, Neither(op, a, b), [L]) && OnChain(op, Neither(op, a, b), [R]);
    assert At(op, Neither(op, a, b), [L]) == Not(Sym(a)) && At(op, Neither(op, a, b), [R]) == Not(Sym(b));
  }

  /** Two operands that are no chains and cannot be joined. */
  lemma PairIsQuiet(op: Op, x: Expr, y: Expr)
    requires !x.Bin? && !y.Bin? && Join(op, x, y) == None && Join(op, y, x) == None
    ensures Dups1(op, Bin(op, x, y), [], []) == Pass(Bin(op, x, y), 0)
    ensures Dups2(op, Bin(op, x, y), [], []) == Pass(Bin(op, x, y), 0)
    ensures EliminateDups(Bin(op, x, y)) == Bin(op, x, y)
  {
    var e := Bin(op, x, y);
    forall q | IsOperand(op, e, q)
      ensures (q == [L] || q == [R]) && !At(op, e, q).Bin? && QuietHere2(op, e, q)
    {
      OperandsOfPair(op, x, y, q);
    }
    assert At(op, e, [L]) == x && At(op, e, [R]) == y;
    Dups1IsQuiet(op, e, [], []);
    Dups2IsQuiet(op, e, [], []);
  }

  lemma EitherIsQuiet(op: Op, a: Symbol, b: Symbol)
    requires a != b
    ensures Dups1(Dual(op), Either(op, a, b), [], []) == Pass(Either(op, a, b), 0)
    ensures Dups2(Dual(op), Either(op, a, b), [], []) == Pass(Either(op, a, b), 0)
  {
    EqIsIdentity(Sym(a), Sym(b));
    EqIsIdentity(Sym(b), Sym(a));
    PairIsQuiet(Dual(op), Sym(a), Sym(b));
  }

  lemma NothingJoins(op: Op, a: Symbol, b: Symbol)
    requires a != b
    ensures NothingToJoin(op, Clash(op, a, b))
  {
    var e := Clash(op, a, b);
    var na, nb := Not(Sym(a)), Not(Sym(b));
    EqIsIdentity(na, nb);
    EqIsIdentity(nb, na);
    assert Join(op, na, nb) == None && Join(op, nb, na) == None;
    assert Join(op, Either(op, a, b), na) == None && Join(op, na, Either(op, a, b)) == None;
    assert Join(op, Either(op, a, b), nb) == None && Join(op, nb, Either(op, a, b)) == None;
    forall q | IsOperand(op, e, q) ensures q == [L] || q == [R, L] || q == [R, R] {
      OperandsOfTriple(op, Either(op, a, b), a, b, q);
    }
    Slots(op, Either(op, a, b), a, b);
  }

  lemma FirstPassIsQuiet(op: Op, a: Symbol, b: Symbol)
    requires a != b
    ensures var e := Clash(op, a, b); Dups1(op, e, [], []) == Pass(e, 0)
  {
    var e := Clash(op, a, b);
    forall q | IsOperand(op, e, q) ensures Dups1Inside(op, e, q).changes == 0 {
      OperandsOfTriple(op, Either(op, a, b), a, b, q);
      Slots(op, Either(op, a, b), a, b);
      EitherIsQuiet(op, a, b);
    }
    NothingJoins(op, a, b);
    Dups1IsQuiet(op, e, [], []);
  }

  /** Neither operand of the second chain alone is enough for a contradiction. */
  lemma OneIsNoContradiction(op: Op, a: Symbol, b: Symbol)
    requires a != b && !IsTristateConstant(a) && !IsTristateConstant(b)
    ensures !Contradicts(op, Either(op, a, b), Not(Sym(a))) && !Contradicts(op, Either(op, a, b), Not(Sym(b)))
  {
    var na, nb := Not(Sym(a)), Not(Sym(b));
    TransformFixesNormal(Neither(op, a, b));
    TransformFixesNormal(Either(op, a, b));
    assert Transform(Not(Either(op, a, b))) == Neither(op, a, b);
    EqIsIdentity(na, na);
    EqIsIdentity(nb, nb);
    EqIsIdentity(na, nb);
    EqIsIdentity(nb, Neutral(op));
    assert ExtractOperands(op, None, na, na) == Factored(Some(na), Neutral(op), Neutral(op));
    assert ExtractOperands(op, Some(na), nb, Neutral(op)) == Factored(Some(na), nb, Neutral(op));
    assert ExtractOperands(op, None, Neither(op, a, b), na).rest1 == Bin(op, Neutral(op), nb);
    assert ExtractOperands(op, None, na, nb) == Factored(None, na, nb);
    assert ExtractOperands(op, None, nb, nb) == Factored(Some(nb), Neutral(op), Neutral(op));
    assert ExtractOperands(op, None, Neither(op, a, b), nb).rest1 == Bin(op, na, Neutral(op));
    assert EliminateYn(na) == na && EliminateYn(nb) == nb && EliminateYn(Neutral(op)) == Neutral(op);
    assert EliminateYn(Bin(op, Neutral(op), nb)) == nb && EliminateYn(Bin(op, na, Neutral(op))) == na;
    assert Extract(op, Neither(op, a, b), na).rest1 == nb;
    assert Extract(op, Neither(op, a, b), nb).rest1 == na;
  }

  lemma AgainstNeither(op: Op, a: Symbol, b: Symbol)
    requires a != b && !IsTristateConstant(a) && !IsTristateConstant(b)
    ensures var e := Clash(op, a, b);
            && OnChain(op, e, [L]) && OnChain(op, e, [R])
            && Dups2(op, e, [L], [R]) == Pass(Bin(op, Absorbing(op), Neither(op, a, b)), 1)
  {
    var e := Clash(op, a, b);
    Slots(op, Either(op, a, b), a, b);
    EitherIsQuiet(op, a, b);
    OneIsNoContradiction(op, a, b);
    ContradictionOfPair(op, a, b);
    PutAt(op, e, [L]);
    assert [R] + [L] == [R, L] && [R] + [R] == [R, R];
    assert Put(op, e, [L], Absorbing(op)) == Bin(op, Absorbing(op), Neither(op, a, b));
    assert Dups2(op, e, [L], [R, L]) == Pass(e, 0);
    assert Dups2(op, e, [L], [R, R]) == Pass(e, 0);
    assert Contradicts(op, Either(op, a, b), At(op, e, [R]));
    assert Dups2Here(op, e, [L], [R]) == Pass(Bin(op, Absorbing(op), Neither(op, a, b)), 1);
  }

  /** An operand that is no chain is not touched. */
  lemma NoChainIsQuiet(op: Op, a: Symbol, b: Symbol, p: Path, p2: Path)
    requires var e := Bin(op, Absorbing(op), Neither(op, a, b)); OnChain(op, e, p) && OnChain(op, e, p2)
    ensures var e := Bin(op, Absorbing(op), Neither(op, a, b)); Dups2(op, e, p, p2) == Pass(e, 0)
  {
    var e := Bin(op, Absorbing(op), Neither(op, a, b));
    forall q | IsOperand(op, e, q) ensures QuietHere2(op, e, q) {
      OperandsOfTriple(op, Absorbing(op), a, b, q);
      Slots(op, Absorbing(op), a, b);
    }
    Dups2IsQuiet(op, e, p, p2);
  }

  lemma SecondPassDrops(op: Op, a: Symbol, b: Symbol)
    requires a != b && !IsTristateConstant(a) && !IsTristateConstant(b)
    ensures var e := Clash(op, a, b);
            Dups2(op, e, [], []) == Pass(Bin(op, Absorbing(op), Neither(op, a, b)), 1)
  {
    var e, e' := Clash(op, a, b), Bin(op, Absorbing(op), Neither(op, a, b));
    Slots(op, Either(op, a, b), a, b);
    Slots(op, Absorbing(op), a, b);
    AgainstNeither(op, a, b);
    NoChainIsQuiet(op, a, b, [R], []);
    assert [] + [L] == [L] && [] + [R] == [R];
    assert Dups2(op, e, [L], [L]) == Pass(e, 0);
    assert Dups2Here(op, e', [L], []) == Pass(e', 0);
    assert Dups2(op, e, [L], []) == Pass(e', 1);
  }

  /** expr_eliminate_dups makes (a || b) && (!a && !b) the constant n, and (a && b) || (!a || !b) the
      constant y; that is right exactly where the value is not m. */
  lemma ClashBecomesConstant(op: Op, a: Symbol, b: Symbol, env: Env)
    requires Valid(env) && a != b && !IsTristateConstant(a) && !IsTristateConstant(b)
    ensures EliminateDups(Clash(op, a, b)) == Absorbing(op)
    ensures Value(EliminateDups(Clash(op, a, b)), env) == Value(Clash(op, a, b), env) <==>
              Value(Clash(op, a, b), env) != 1
  {
    FirstPassIsQuiet(op, a, b);
    SecondPassDrops(op, a, b);
    assert EliminateYn(Bin(op, Absorbing(op), Neither(op, a, b))) == Absorbing(op);
    assert EliminateDups(Absorbing(op)) == Absorbing(op);
    ConstantValues(op, env);
    EliminateDupsPreservesValue(Clash(op, a, b), env);
  }

  /** It is wrong where a is m, and b is n under the "and" and y under the "or". */
  lemma EliminateDupsLosesMod(op: Op, a: Symbol, b: Symbol, env: Env)
    requires Valid(env) && KindOf(a) == Tristate && KindOf(b) == Tristate && a != b
    requires env.tri(a) == 1 && env.tri(b) == 2 - Unit(op)
    ensures Value(Clash(op, a, b), env) == 1 && Value(EliminateDups(Clash(op, a, b)), env) == 2 - Unit(op)
  {
    ClashBecomesConstant(op, a, b, env);
    DropLosesMod(op, a, b, env);
    ConstantValues(op, env);
  }
}
