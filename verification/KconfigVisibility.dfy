/**
 The form in which menu_finalize (scripts/kconfig/menu.c) compares two visibilities, and what the
 comparison decides: expr_eliminate_dups of expr_transform of expr_trans_compare, then expr_eliminate_eq.
 */
module KconfigVisibility {
  import opened Options
  import opened KconfigExpr
  import opened KconfigEq
  import opened KconfigEquivalence
  import opened KconfigImplied
  import opened KconfigTransform
  import opened KconfigJoin
  import opened KconfigChain
  import opened KconfigDups
  import opened KconfigCompare

  // ----- eliminating duplicates keeps the normal form -----

  /** In normal form, and unless q with no quoted constant standing on its own. */
  predicate Fits(e: Expr, q: bool) {
    Normal(e) && (q || NoQuotes(e))
  }

  lemma {:induction false} NormalSlots(q: bool, op: Op, e: Expr, p: Path, x: Expr)
    requires OnChain(op, e, p) && Fits(e, q)
    ensures Fits(At(op, e, p), q)
    ensures Fits(x, q) ==> Fits(Put(op, e, p, x), q)
  {
    if p != [] { NormalSlots(q, op, Child(e, p[0]), p[1..], x); }
  }

  /** No boolean symbol is compared with y, m or n, so none is in what comparisons are joined to. */
  lemma JoinIsNormal(q: bool, op: Op, x: Expr, y: Expr)
    requires Fits(x, q) && Fits(y, q) && Join(op, x, y).Some?
    ensures Fits(Join(op, x, y).value, q)
  {
  }

  lemma JoinSlotsKeepsNormal(q: bool, op: Op, e: Expr, p1: Path, p2: Path)
    requires IsOperand(op, e, p1) && IsOperand(op, e, p2) && p1 != p2 && Fits(e, q)
    ensures Fits(JoinSlots(op, e, p1, p2).e, q)
  {
    var e1, e2 := At(op, e, p1), At(op, e, p2);
    NormalSlots(q, op, e, p1, Neutral(op));
    NormalSlots(q, op, e, p2, e2);
    if Join(op, e1, e2).Some? {
      var f := Put(op, e, p1, Neutral(op));
      JoinIsNormal(q, op, e1, e2);
      PutElsewhere(op, e, p1, p2, Neutral(op));
      NormalSlots(q, op, f, p2, Join(op, e1, e2).value);
    }
  }

  lemma {:induction false} Dups1KeepsNormal(q: bool, op: Op, e: Expr, p1: Path, p2: Path)
    requires IsOp(op, e) && OnChain(op, e, p1) && OnChain(op, e, p2) && Fits(e, q)
    ensures Fits(Dups1(op, e, p1, p2).e, q)
    decreases Size(e), ChainSize(op, At(op, e, p1)), ChainSize(op, At(op, e, p2)), 1
  {
    SameChainReflexive(op, e);
    if IsOp(op, At(op, e, p1)) {
      NextSlot(op, e, e, p1, L, p2);
      var a := Dups1(op, e, p1 + [L], p2);
      Dups1KeepsNormal(q, op, e, p1 + [L], p2);
      NextSlot(op, e, a.e, p1, R, p2);
      Dups1KeepsNormal(q, op, a.e, p1 + [R], p2);
    } else if IsOp(op, At(op, e, p2)) {
      NextSlot(op, e, e, p2, L, p1);
      var a := Dups1(op, e, p1, p2 + [L]);
      Dups1KeepsNormal(q, op, e, p1, p2 + [L]);
      NextSlot(op, e, a.e, p2, R, p1);
      Dups1KeepsNormal(q, op, a.e, p1, p2 + [R]);
    } else if p1 != p2 {
      var a := Dups1Inside(op, e, p1);
      Dups1InsideKeepsNormal(q, op, e, p1);
      SameChainSlot(op, e, a.e, p1);
      SameChainSlot(op, e, a.e, p2);
      JoinSlotsKeepsNormal(q, op, a.e, p1, p2);
    }
  }

  lemma {:induction false} Dups1InsideKeepsNormal(q: bool, op: Op, e: Expr, p: Path)
    requires IsOp(op, e) && IsOperand(op, e, p) && Fits(e, q)
    ensures Fits(Dups1Inside(op, e, p).e, q)
    decreases Size(e), 0, 0, 0
  {
    var e1 := At(op, e, p);
    NormalSlots(q, op, e, p, e1);
    if e1.Bin? {
      PutSize(op, e, p, e1);
      var inner := Dups1(e1.op, e1, [], []);
      Dups1KeepsNormal(q, e1.op, e1, [], []);
      NormalSlots(q, op, e, p, inner.e);
    }
  }

  lemma {:induction false} Dups2KeepsNormal(q: bool, op: Op, e: Expr, p1: Path, p2: Path)
    requires IsOp(op, e) && OnChain(op, e, p1) && OnChain(op, e, p2) && Fits(e, q)
    ensures Fits(Dups2(op, e, p1, p2).e, q)
    decreases Size(e), ChainSize(op, At(op, e, p1)), ChainSize(op, At(op, e, p2)), 1
  {
    SameChainReflexive(op, e);
    if IsOp(op, At(op, e, p1)) {
      NextSlot(op, e, e, p1, L, p2);
      var a := Dups2(op, e, p1 + [L], p2);
      Dups2KeepsNormal(q, op, e, p1 + [L], p2);
      NextSlot(op, e, a.e, p1, R, p2);
      Dups2KeepsNormal(q, op, a.e, p1 + [R], p2);
    } else if IsOp(op, At(op, e, p2)) {
      NextSlot(op, e, e, p2, L, p1);
      var a := Dups2(op, e, p1, p2 + [L]);
      Dups2KeepsNormal(q, op, e, p1, p2 + [L]);
      NextSlot(op, e, a.e, p2, R, p1);
      var b := Dups2(op, a.e, p1, p2 + [R]);
      Dups2KeepsNormal(q, op, a.e, p1, p2 + [R]);
      SameChainTransitive(op, e, a.e, b.e);
      SameChainSlot(op, e, b.e, p1);
      SameChainSlot(op, e, b.e, p2);
      Dups2HereKeepsNormal(q, op, b.e, p1, p2);
    } else if p1 != p2 {
      Dups2HereKeepsNormal(q, op, e, p1, p2);
    }
  }

  lemma {:induction false} Dups2HereKeepsNormal(q: bool, op: Op, e: Expr, p1: Path, p2: Path)
    requires IsOp(op, e) && IsOperand(op, e, p1) && OnChain(op, e, p2) && Fits(e, q)
    ensures Fits(Dups2Here(op, e, p1, p2).e, q)
    decreases Size(e), 0, 0, 0
  {
    var e1 := At(op, e, p1);
    NormalSlots(q, op, e, p1, e1);
    if e1.Bin? {
      PutSize(op, e, p1, e1);
      var inner := Dups2(e1.op, e1, [], []);
      Dups2KeepsNormal(q, e1.op, e1, [], []);
      var f := Put(op, e, p1, inner.e);
      ShrinksInside(op, e, p1, inner);
      NormalSlots(q, op, e, p1, inner.e);
      SameChainSlot(op, e, f, p1);
      NormalSlots(q, op, f, p1, Absorbing(op));
    }
  }

  lemma {:induction false} EliminateYnKeepsNormal(q: bool, e: Expr)
    requires Fits(e, q)
    ensures Fits(EliminateYn(e), q)
  {
    if e.Bin? {
      EliminateYnKeepsNormal(q, e.l);
      EliminateYnKeepsNormal(q, e.r);
    }
  }

  /** On normal forms the constants y and n are operands nowhere, or at the top of some chain. */
  lemma {:induction false} ReducedNormal(e: Expr)
    requires Normal(e)
    ensures Reduced(e) <==> !HasConstantOperand(e)
  {
    if e.Bin? {
      ReducedNormal(e.l);
      ReducedNormal(e.r);
    }
  }

  /** expr_eliminate_dups keeps the normal form, and keeps it free of the constants y and n. */
  lemma {:induction false} EliminateDupsKeepsNormal(q: bool, e: Expr)
    requires Fits(e, q)
    ensures Fits(EliminateDups(e), q)
    ensures Reduced(e) ==> Reduced(EliminateDups(e))
    decreases Size(e)
  {
    var p := Round(e);
    if p.changes != 0 {
      var a := Dups1(e.op, e, [], []);
      Dups1KeepsNormal(q, e.op, e, [], []);
      Dups2KeepsNormal(q, e.op, a.e, [], []);
      EliminateYnKeepsNormal(q, p.e);
      EliminateYnReduces(p.e);
      ReducedNormal(EliminateYn(p.e));
      EliminateDupsKeepsNormal(q, EliminateYn(p.e));
    }
  }

  // ----- the form that is compared -----

  /** No boolean symbol is compared with m. */
  predicate NoModTest(e: Expr) {
    match e
    case Cmp(_, a, b) => !(KindOf(a) == Boolean && b.SymbolMod?)
    case Not(x) => NoModTest(x)
    case Bin(_, l, r) => NoModTest(l) && NoModTest(r)
    case Sym(_) => true
  }

  /** Neither y nor n stands on its own. */
  predicate NoYesOrNo(e: Expr) {
    match e
    case Sym(s) => s.Config?
    case Not(x) => NoYesOrNo(x)
    case Bin(_, l, r) => NoYesOrNo(l) && NoYesOrNo(r)
    case Cmp(_, _, _) => true
  }

  /** The translation consists of comparisons only. */
  lemma {:induction false} TransCompareIsTests(e: Expr, equal: bool, t: Target)
    ensures var c := TransCompare(e, equal, t); NoYesOrNo(c) && NoQuotes(c) && (NoModTest(e) ==> NoModTest(c))
  {
    match e
    case Not(x) => TransCompareIsTests(x, !equal, t);
    case Bin(_, l, r) => TransCompareIsTests(l, true, t); TransCompareIsTests(r, true, t);
    case _ =>
  }

  lemma {:induction false} TestsHaveNoConstant(e: Expr)
    requires NoYesOrNo(e) && NoModTest(e)
    ensures var r := Transform(e); NoYesOrNo(r) && NoModTest(r) && Reduced(r) && !IsYesOrNo(r)
    decreases Weight(e)
  {
    match e
    case Sym(_) =>
    case Cmp(_, _, _) =>
    case Bin(_, l, r) => TestsHaveNoConstant(l); TestsHaveNoConstant(r);
    case Not(x) =>
      TestsHaveNoConstant(x);
      match Transform(x)
      case Bin(op, l, r) => DeMorganIsLighter(op, l, r); TestsHaveNoConstant(Bin(Dual(op), Not(l), Not(r)));
      case Not(y) => TestsHaveNoConstant(y);
      case _ =>
  }

  lemma {:induction false} TransformKeepsNoQuotes(e: Expr)
    requires NoQuotes(e)
    ensures NoQuotes(Transform(e))
    decreases Weight(e)
  {
    match e
    case Sym(_) =>
    case Cmp(_, _, _) =>
    case Bin(_, l, r) => TransformKeepsNoQuotes(l); TransformKeepsNoQuotes(r);
    case Not(x) =>
      TransformKeepsNoQuotes(x);
      match Transform(x)
      case Bin(op, l, r) => DeMorganIsLighter(op, l, r); TransformKeepsNoQuotes(Bin(Dual(op), Not(l), Not(r)));
      case Not(y) => TransformKeepsNoQuotes(y);
      case _ =>
  }

  ghost predicate NoModTestOrMissing(e: Option<Expr>) {
    e.Some? ==> NoModTest(e.value)
  }

  /** The compared form is normal, has nothing left to eliminate and no quoted constant on its own;
      without a boolean symbol compared with m it is free of the constants y and n. */
  lemma VisibilityForm(e: Option<Expr>)
    ensures Normal(Visibility(e)) && Clean(Visibility(e)) && NoQuotes(Visibility(e))
    ensures NoModTestOrMissing(e) ==> Reduced(Visibility(e))
  {
    var c := TransCompareOrMissing(e, false, ToNo);
    if e.Some? { TransCompareIsTests(e.value, false, ToNo); }
    TransformIsNormal(c);
    TransformKeepsNoQuotes(c);
    EliminateDupsKeepsNormal(false, Transform(c));
    EliminateDupsIsClean(Transform(c));
    if e.Some? && NoModTest(e.value) { TestsHaveNoConstant(c); }
  }

  // ----- no operand is repeated -----

  lemma {:induction false} FindSlot(op: Op, e: Expr, x: Expr) returns (q: Path)
    requires Occurrences(op, e, x) >= 1
    ensures IsOperand(op, e, q) && Eq(At(op, e, q), x)
  {
    if IsOp(op, e) {
      if Occurrences(op, e.l, x) >= 1 {
        q := FindSlot(op, e.l, x);
        q := [L] + q;
      } else {
        q := FindSlot(op, e.r, x);
        q := [R] + q;
      }
    } else {
      q := [];
    }
  }

  lemma {:induction false} FindTwoSlots(op: Op, e: Expr, x: Expr) returns (q1: Path, q2: Path)
    requires Occurrences(op, e, x) >= 2
    ensures IsOperand(op, e, q1) && IsOperand(op, e, q2) && q1 != q2
    ensures Eq(At(op, e, q1), x) && Eq(At(op, e, q2), x)
  {
    if Occurrences(op, e.l, x) == 0 {
      var p1, p2 := FindTwoSlots(op, e.r, x);
      q1, q2 := [R] + p1, [R] + p2;
      assert q1[1..] == p1 && q2[1..] == p2;
    } else if Occurrences(op, e.r, x) == 0 {
      var p1, p2 := FindTwoSlots(op, e.l, x);
      q1, q2 := [L] + p1, [L] + p2;
      assert q1[1..] == p1 && q2[1..] == p2;
    } else {
      var p1 := FindSlot(op, e.l, x);
      var p2 := FindSlot(op, e.r, x);
      q1, q2 := [L] + p1, [R] + p2;
      assert q1[1..] == p1 && q2[1..] == p2;
    }
  }

  lemma {:induction false} SlotIsReduced(op: Op, e: Expr, q: Path)
    requires OnChain(op, e, q) && Reduced(e)
    ensures Reduced(At(op, e, q))
  {
    if q != [] { SlotIsReduced(op, Child(e, q[0]), q[1..]); }
  }

  lemma CleanSlotsDiffer(op: Op, e: Expr, q1: Path, q2: Path)
    requires IsOp(op, e) && Clean(e) && IsOperand(op, e, q1) && IsOperand(op, e, q2) && q1 != q2
    ensures !Eq(At(op, e, q1), At(op, e, q2))
  {
    assert !Joinable(op, At(op, e, q1), At(op, e, q2));
  }

  lemma CleanHasNoRepeats(e: Expr)
    requires Clean(e) && Reduced(e)
    ensures NoRepeats(e)
  {
    forall x | Reduced(x) ensures Occurrences(AndOp, e, x) <= 1 {
      if Occurrences(AndOp, e, x) >= 2 {
        var q1, q2 := FindTwoSlots(AndOp, e, x);
        SlotIsReduced(AndOp, e, q1);
        SlotIsReduced(AndOp, e, q2);
        CleanSlotsDiffer(AndOp, e, q1, q2);
        EqIsEquivalence(At(AndOp, e, q2), x, x);
        EqIsEquivalence(At(AndOp, e, q1), x, At(AndOp, e, q2));
      }
    }
  }

  // ----- the nesting test -----

  /** One of the operands is the symbol, or compares it equal to y or m or unequal to n. */
  predicate RequiresSymbol(e: Expr, s: Symbol) {
    || AndOperand(e, Sym(s))
    || AndOperand(e, Cmp(true, s, SymbolYes))
    || AndOperand(e, Cmp(true, s, SymbolMod))
    || AndOperand(e, Cmp(false, s, SymbolNo))
  }

  /** b is always visible, or a is an "and" that has all operands of b. */
  ghost predicate RequiresAll(a: Expr, b: Expr) {
    b == YES || (IsOp(AndOp, a) && HasOperandsOf(a, b))
  }

  lemma VisibilitiesCancel(base: Option<Expr>, dep: Option<Expr>)
    requires NoModTestOrMissing(base) && NoModTestOrMissing(dep)
    ensures Cancel(Visibility(dep), Visibility(base)).1 == YES <==> RequiresAll(Visibility(dep), Visibility(base))
  {
    VisibilityForm(dep);
    VisibilityForm(base);
    CleanCancels(Visibility(dep), Visibility(base));
  }

  lemma CleanCancels(a: Expr, b: Expr)
    requires Reduced(a) && Reduced(b) && NoQuotes(a) && NoQuotes(b) && Clean(b)
    ensures Cancel(a, b).1 == YES <==> RequiresAll(a, b)
  {
    CleanHasNoRepeats(b);
    CancelsToYesExactly(a, b);
  }

  /** An entry nests exactly when its visibility mentions the symbol, and either has the symbol among its
      operands or has, in the compared form, all operands of the outer visibility. */
  lemma NestsExactly(base: Option<Expr>, sym: Symbol, dep: Expr)
    requires NoModTestOrMissing(base) && NoModTest(dep)
    ensures Nests(base, sym, Some(dep)) <==>
              && Contains(dep, sym)
              && (RequiresSymbol(dep, sym) || RequiresAll(Visibility(Some(dep)), Visibility(base)))
  {
    VisibilitiesCancel(base, Some(dep));
    DependsExactly(dep, sym);
  }

  lemma {:induction false} RequiredIsContained(e: Expr, s: Symbol)
    requires RequiresSymbol(e, s)
    ensures Contains(e, s)
  {
    if IsOp(AndOp, e) {
      if RequiresSymbol(e.l, s) { RequiredIsContained(e.l, s); } else { RequiredIsContained(e.r, s); }
    }
  }

  /** Whatever the outer visibility is, an entry that has the symbol among its operands nests. */
  lemma RequiringSymbolNests(base: Option<Expr>, sym: Symbol, dep: Expr)
    requires RequiresSymbol(dep, sym)
    ensures Nests(base, sym, Some(dep))
  {
    RequiredIsContained(dep, sym);
    DependsExactly(dep, sym);
  }
}
