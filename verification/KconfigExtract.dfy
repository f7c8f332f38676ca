/**
 What expr_extract_eq (scripts/kconfig/expr.c) factors out of two chains, and from that when the second
 pass of expr_eliminate_dups takes an operand for contradicted.
 */
module KconfigExtract {
  import opened Options
  import opened KconfigExpr
  import opened KconfigEq
  import opened KconfigEquivalence
  import opened KconfigTransform
  import opened KconfigDups

  /** How many operands of the op-chain e compare equal to x. */
  function Copies(op: Op, e: Expr, x: Expr): nat {
    if IsOp(op, e) then Copies(op, e.l, x) + Copies(op, e.r, x)
    else if e != Neutral(op) && Eq(e, x) then 1
    else 0
  }

  function CommonCopies(op: Op, c: Option<Expr>, x: Expr): nat {
    if c.Some? then Copies(op, c.value, x) else 0
  }

  function Fewer(a: nat, b: nat): nat {
    if a < b then a else b
  }

  /** Counted for operand x: n more in the common factor than in c, n fewer on each side. */
  predicate Moved(op: Op, c: Option<Expr>, e1: Expr, e2: Expr, f: Factored, x: Expr, n: nat) {
    && CommonCopies(op, f.common, x) == CommonCopies(op, c, x) + n
    && Copies(op, e1, x) == Copies(op, f.rest1, x) + n
    && Copies(op, e2, x) == Copies(op, f.rest2, x) + n
  }

  /** Nothing more can be moved. */
  predicate Exhausted(op: Op, f: Factored, x: Expr) {
    Copies(op, f.rest1, x) == 0 || Copies(op, f.rest2, x) == 0
  }

  lemma {:induction false} ExtractKeepsReduced(op: Op, c: Option<Expr>, e1: Expr, e2: Expr)
    requires ReducedChain(op, e1) && ReducedChain(op, e2)
    ensures var f := ExtractOperands(op, c, e1, e2); ReducedChain(op, f.rest1) && ReducedChain(op, f.rest2)
    decreases Size(e1) + Size(e2)
  {
    if IsOp(op, e1) {
      var a := ExtractOperands(op, c, e1.l, e2);
      ExtractKeepsReduced(op, c, e1.l, e2);
      ExtractKeepsReduced(op, a.common, e1.r, a.rest2);
    } else if IsOp(op, e2) {
      var a := ExtractOperands(op, c, e1, e2.l);
      ExtractKeepsReduced(op, c, e1, e2.l);
      ExtractKeepsReduced(op, a.common, a.rest1, e2.r);
    }
  }

  /** Operands that compare equal count alike; otherwise not both count. */
  lemma CopiesOfOperands(op: Op, e1: Expr, e2: Expr, x: Expr)
    requires !IsOp(op, e1) && !IsOp(op, e2) && ReducedChain(op, e1) && ReducedChain(op, e2) && Reduced(x)
    ensures if Eq(e1, e2) then Copies(op, e1, x) == Copies(op, e2, x)
            else Copies(op, e1, x) == 0 || Copies(op, e2, x) == 0
  {
    OneCopy(op, e1, x);
    OneCopy(op, e2, x);
    if e1 != Neutral(op) && e2 != Neutral(op) {
      EqualAlike(Size(e1) + Size(e2) + Size(x), e1, e2, x);
    }
  }

  lemma OneCopy(op: Op, e: Expr, x: Expr)
    requires !IsOp(op, e)
    ensures Copies(op, e, x) == if e != Neutral(op) && Eq(e, x) then 1 else 0
  {
  }

  function Gather(op: Op, c: Option<Expr>, e: Expr): Option<Expr> {
    Some(if c.Some? then Bin(op, c.value, e) else e)
  }

  lemma GatherCopies(op: Op, c: Option<Expr>, e: Expr, x: Expr)
    ensures CommonCopies(op, Gather(op, c, e), x) == CommonCopies(op, c, x) + Copies(op, e, x)
    ensures Copies(op, Neutral(op), x) == 0
  {
  }

  lemma ExtractOfOperands(op: Op, c: Option<Expr>, e1: Expr, e2: Expr)
    requires !IsOp(op, e1) && !IsOp(op, e2)
    ensures ExtractOperands(op, c, e1, e2) ==
              if Eq(e1, e2) then Factored(Gather(op, c, e1), Neutral(op), Neutral(op)) else Factored(c, e1, e2)
  {
  }

  lemma ExtractMovesOperand(op: Op, c: Option<Expr>, e1: Expr, e2: Expr, x: Expr) returns (n: nat)
    requires !IsOp(op, e1) && !IsOp(op, e2) && ReducedChain(op, e1) && ReducedChain(op, e2) && Reduced(x)
    ensures var f := ExtractOperands(op, c, e1, e2); Moved(op, c, e1, e2, f, x, n) && Exhausted(op, f, x)
  {
    CopiesOfOperands(op, e1, e2, x);
    ExtractOfOperands(op, c, e1, e2);
    GatherCopies(op, c, e1, x);
    n := if Eq(e1, e2) then Copies(op, e1, x) else 0;
  }

  lemma LeftMoves(op: Op, c: Option<Expr>, l: Expr, r: Expr, e2: Expr, a: Factored, b: Factored, x: Expr,
                  n: nat, m: nat)
    requires Moved(op, c, l, e2, a, x, n) && Exhausted(op, a, x)
    requires Moved(op, a.common, r, a.rest2, b, x, m) && Exhausted(op, b, x)
    ensures var f := Factored(b.common, Bin(op, a.rest1, b.rest1), b.rest2);
            Moved(op, c, Bin(op, l, r), e2, f, x, n + m) && Exhausted(op, f, x)
  {
  }

  lemma RightMoves(op: Op, c: Option<Expr>, e1: Expr, l: Expr, r: Expr, a: Factored, b: Factored, x: Expr,
                   n: nat, m: nat)
    requires Moved(op, c, e1, l, a, x, n) && Exhausted(op, a, x)
    requires Moved(op, a.common, a.rest1, r, b, x, m) && Exhausted(op, b, x)
    ensures var f := Factored(b.common, b.rest1, Bin(op, a.rest2, b.rest2));
            Moved(op, c, e1, Bin(op, l, r), f, x, n + m) && Exhausted(op, f, x)
  {
  }

  /** Of every operand as many copies are moved to the common factor as both chains have. */
  lemma {:induction false} ExtractMoves(op: Op, c: Option<Expr>, e1: Expr, e2: Expr, x: Expr) returns (n: nat)
    requires ReducedChain(op, e1) && ReducedChain(op, e2) && Reduced(x)
    ensures var f := ExtractOperands(op, c, e1, e2); Moved(op, c, e1, e2, f, x, n) && Exhausted(op, f, x)
    decreases Size(e1) + Size(e2)
  {
    if IsOp(op, e1) {
      var a := ExtractOperands(op, c, e1.l, e2);
      var n1 := ExtractMoves(op, c, e1.l, e2, x);
      ExtractKeepsReduced(op, c, e1.l, e2);
      var n2 := ExtractMoves(op, a.common, e1.r, a.rest2, x);
      n := n1 + n2;
      LeftMoves(op, c, e1.l, e1.r, e2, a, ExtractOperands(op, a.common, e1.r, a.rest2), x, n1, n2);
    } else if IsOp(op, e2) {
      var a := ExtractOperands(op, c, e1, e2.l);
      var n1 := ExtractMoves(op, c, e1, e2.l, x);
      ExtractKeepsReduced(op, c, e1, e2.l);
      var n2 := ExtractMoves(op, a.common, a.rest1, e2.r, x);
      n := n1 + n2;
      RightMoves(op, c, e1, e2.l, e2.r, a, ExtractOperands(op, a.common, a.rest1, e2.r), x, n1, n2);
    } else {
      n := ExtractMovesOperand(op, c, e1, e2, x);
    }
  }

  /** expr_extract_eq on two chains of reduced operands: the common factor has every operand as often as
      both chains have it, and each rest has what its chain has more of. */
  lemma ExtractIsIntersection(op: Op, e1: Expr, e2: Expr, x: Expr)
    requires ReducedChain(op, e1) && ReducedChain(op, e2) && Reduced(x)
    ensures var f, n1, n2 := ExtractOperands(op, None, e1, e2), Copies(op, e1, x), Copies(op, e2, x);
            && CommonCopies(op, f.common, x) == Fewer(n1, n2)
            && Copies(op, f.rest1, x) == Surplus(n1, n2) && Copies(op, f.rest2, x) == Surplus(n2, n1)
  {
    var _ := ExtractMoves(op, None, e1, e2, x);
  }

  // ----- when an operand is contradicted -----

  lemma {:induction false} NothingExtracted(op: Op, c: Option<Expr>, e1: Expr, e2: Expr)
    requires ExtractOperands(op, c, e1, e2).common.None?
    ensures c.None? && ExtractOperands(op, c, e1, e2) == Factored(None, e1, e2)
    decreases Size(e1) + Size(e2)
  {
    if IsOp(op, e1) {
      var a := ExtractOperands(op, c, e1.l, e2);
      NothingExtracted(op, a.common, e1.r, a.rest2);
      NothingExtracted(op, c, e1.l, e2);
    } else if IsOp(op, e2) {
      var a := ExtractOperands(op, c, e1, e2.l);
      NothingExtracted(op, a.common, a.rest1, e2.r);
      NothingExtracted(op, c, e1, e2.l);
    }
  }

  /** What is moved compared equal, so it is lean. */
  lemma {:induction false} ExtractKeepsLean(op: Op, c: Option<Expr>, e1: Expr, e2: Expr)
    requires ReducedChain(op, e1) && ReducedChain(op, e2)
    ensures LeanOperands(op, ExtractOperands(op, c, e1, e2).rest1) <==> LeanOperands(op, e1)
    decreases Size(e1) + Size(e2)
  {
    if IsOp(op, e1) {
      var a := ExtractOperands(op, c, e1.l, e2);
      ExtractKeepsReduced(op, c, e1.l, e2);
      ExtractKeepsLean(op, c, e1.l, e2);
      ExtractKeepsLean(op, a.common, e1.r, a.rest2);
    } else if IsOp(op, e2) {
      var a := ExtractOperands(op, c, e1, e2.l);
      ExtractKeepsReduced(op, c, e1, e2.l);
      ExtractKeepsLean(op, c, e1, e2.l);
      ExtractKeepsLean(op, a.common, a.rest1, e2.r);
    } else {
      ExtractOfOperands(op, c, e1, e2);
      if Eq(e1, e2) { EqualAreLean(e1, e2); }
    }
  }

  lemma {:induction false} EliminateYnKeepsCopies(op: Op, e: Expr, x: Expr)
    requires ReducedChain(op, e)
    ensures Copies(op, EliminateYn(e), x) == Copies(op, e, x)
  {
    if IsOp(op, e) {
      EliminateYnKeepsQuotes(op, e.l);
      EliminateYnKeepsQuotes(op, e.r);
      EliminateYnKeepsCopies(op, e.l, x);
      EliminateYnKeepsCopies(op, e.r, x);
    } else if e != Neutral(op) {
      ReducedHasNoConstant(e);
    }
  }

  ghost predicate NoCopies(op: Op, e: Expr) {
    forall x | Reduced(x) :: Copies(op, e, x) == 0
  }

  /** A chain comes down to the neutral constant exactly when it has no other operand. */
  lemma {:induction false} NeutralIsEmpty(op: Op, e: Expr)
    requires ReducedChain(op, e)
    ensures EliminateYn(e) == Neutral(op) <==> NoCopies(op, e) && LeanOperands(op, e)
  {
    if EliminateYn(e) == Neutral(op) {
      forall x ensures Copies(op, e, x) == 0 { EliminateYnKeepsCopies(op, e, x); }
      SymbolIsLean(op, e);
    } else if NoCopies(op, e) && LeanOperands(op, e) {
      EmptyComesDown(op, e);
    }
  }

  lemma {:induction false} EmptyComesDown(op: Op, e: Expr)
    requires ReducedChain(op, e) && NoCopies(op, e) && LeanOperands(op, e)
    ensures EliminateYn(e) == Neutral(op)
  {
    if IsOp(op, e) {
      forall x | Reduced(x) ensures Copies(op, e.l, x) == 0 && Copies(op, e.r, x) == 0 {
        assert Copies(op, e, x) == 0;
      }
      EmptyComesDown(op, e.l);
      EmptyComesDown(op, e.r);
    } else if e != Neutral(op) {
      OneCopy(op, e, e);
      assert Copies(op, e, e) == 0;
      EqIsReflexiveExactly(e);
    }
  }

  /** Every operand of t occurs in e at least as often. */
  ghost predicate Covers(op: Op, e: Expr, t: Expr) {
    forall x | Reduced(x) :: Copies(op, t, x) <= Copies(op, e, x)
  }

  lemma ChainOrOperand(op: Op, t: Expr)
    requires Reduced(t) && !IsYesOrNo(t)
    ensures ReducedChain(op, t)
  {
    if IsOp(op, t) { ChainOfReduced(op, t, Size(t)); }
  }

  lemma RestOf(op: Op, t: Expr, e: Expr)
    requires Reduced(t)
    ensures Extract(op, t, e).rest1 == EliminateYn(ExtractOperands(op, None, t, e).rest1)
  {
    if ExtractOperands(op, None, t, e).common.None? {
      NothingExtracted(op, None, t, e);
      ReducedHasNoConstant(t);
    }
  }

  lemma RestIsEmpty(op: Op, t: Expr, e: Expr)
    requires ReducedChain(op, t) && ReducedChain(op, e)
    ensures NoCopies(op, ExtractOperands(op, None, t, e).rest1) <==> Covers(op, e, t)
  {
    var r := ExtractOperands(op, None, t, e).rest1;
    forall x | Reduced(x) ensures Copies(op, r, x) == 0 <==> Copies(op, t, x) <= Copies(op, e, x) {
      ExtractIsIntersection(op, t, e, x);
    }
  }

  /** All of t is factored out exactly when e covers it. */
  lemma FactoredOutExactly(op: Op, t: Expr, e: Expr)
    requires Reduced(t) && !IsYesOrNo(t) && ReducedChain(op, e)
    ensures Extract(op, t, e).rest1 == Neutral(op) <==> Covers(op, e, t) && LeanOperands(op, t)
  {
    ChainOrOperand(op, t);
    RestOf(op, t, e);
    RestIsEmpty(op, t, e);
    ExtractKeepsReduced(op, None, t, e);
    ExtractKeepsLean(op, None, t, e);
    NeutralIsEmpty(op, ExtractOperands(op, None, t, e).rest1);
  }

  /** The negation of a chain without constants, in normal form, is one too. */
  lemma {:induction false} NegationIsReduced(e: Expr)
    requires Normal(e) && Reduced(e)
    ensures Reduced(Transform(Not(e))) && (IsYesOrNo(Transform(Not(e))) <==> IsYesOrNo(e))
    decreases e
  {
    TransformFixesNormal(e);
    if e.Bin? {
      NegationIsReduced(e.l);
      NegationIsReduced(e.r);
    }
  }

  /** An operand is taken for contradicted by a slot of its chain exactly when the slot has every operand
      of the negated operand, as often as the negation has it. */
  lemma ContradictsExactly(op: Op, e1: Expr, e2: Expr)
    requires Normal(e1) && Reduced(e1) && e1.Bin? && ReducedChain(op, e2)
    ensures var t := Transform(Not(e1)); Contradicts(op, e1, e2) <==> Covers(op, e2, t) && LeanOperands(op, t)
  {
    NegationIsReduced(e1);
    FactoredOutExactly(op, Transform(Not(e1)), e2);
  }
}
