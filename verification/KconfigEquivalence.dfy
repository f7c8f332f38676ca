/**
 What expr_eq (scripts/kconfig/expr.c) decides: when it is reflexive, symmetric and transitive, and which
 chains it takes for equal.
 */
module KconfigEquivalence {
  import opened KconfigExpr
  import opened KconfigEq

  /** A quoted constant; cancelling never removes one. */
  predicate IsQuote(e: Expr) {
    e.Sym? && e.s.Constant?
  }

  predicate IsYesOrNo(e: Expr) {
    e == YES || e == NO
  }

  /** No and/or node has the constant y or n as an operand, at any depth. */
  predicate Reduced(e: Expr) {
    match e
    case Not(x) => Reduced(x)
    case Bin(_, l, r) => Reduced(l) && Reduced(r) && !IsYesOrNo(l) && !IsYesOrNo(r)
    case _ => true
  }

  /** The quoted constants among the operands of an op-chain, in order. */
  function Quotes(op: Op, e: Expr): seq<Expr> {
    if IsOp(op, e) then Quotes(op, e.l) + Quotes(op, e.r) else if IsQuote(e) then [e] else []
  }

  /** Every chain has at most one quoted constant, at any depth. */
  predicate Lean(e: Expr) {
    match e
    case Not(x) => Lean(x)
    case Bin(op, l, r) => Lean(l) && Lean(r) && |Quotes(op, e)| <= 1
    case _ => true
  }

  /** A chain of reduced operands, with neutral constants where operands have been cancelled. */
  predicate ReducedChain(op: Op, e: Expr) {
    if IsOp(op, e) then ReducedChain(op, e.l) && ReducedChain(op, e.r)
    else e == Neutral(op) || (Reduced(e) && !IsYesOrNo(e))
  }

  predicate LeanOperands(op: Op, e: Expr) {
    if IsOp(op, e) then LeanOperands(op, e.l) && LeanOperands(op, e.r) else Lean(e)
  }

  /** All operands are smaller than n. */
  predicate OperandsBelow(op: Op, e: Expr, n: nat) {
    if IsOp(op, e) then OperandsBelow(op, e.l, n) && OperandsBelow(op, e.r, n) else Size(e) < n
  }

  lemma {:induction false} ChainOfReduced(op: Op, e: Expr, n: nat)
    requires Reduced(e) && IsOp(op, e) && Size(e) <= n
    ensures ReducedChain(op, e) && OperandsBelow(op, e, n)
  {
    if IsOp(op, e.l) { ChainOfReduced(op, e.l, n); }
    if IsOp(op, e.r) { ChainOfReduced(op, e.r, n); }
  }

  lemma {:induction false} LeanOfChain(op: Op, e: Expr)
    requires IsOp(op, e)
    ensures Lean(e) <==> LeanOperands(op, e) && |Quotes(op, e)| <= 1
  {
    if IsOp(op, e.l) { LeanOfChain(op, e.l); }
    if IsOp(op, e.r) { LeanOfChain(op, e.r); }
  }

  // ----- what cancelling keeps -----

  lemma {:induction false} CancelKeepsReduced(op: Op, e1: Expr, e2: Expr, n: nat)
    requires ReducedChain(op, e1) && ReducedChain(op, e2) && OperandsBelow(op, e1, n) && OperandsBelow(op, e2, n)
    ensures var (r1, r2) := CancelOperands(op, e1, e2);
            ReducedChain(op, r1) && ReducedChain(op, r2) && OperandsBelow(op, r1, n) && OperandsBelow(op, r2, n)
    decreases Size(e1) + Size(e2)
  {
    if IsOp(op, e1) {
      CancelKeepsReduced(op, e1.l, e2, n);
      CancelKeepsReduced(op, e1.r, CancelOperands(op, e1.l, e2).1, n);
    } else if IsOp(op, e2) {
      CancelKeepsReduced(op, e1, e2.l, n);
      CancelKeepsReduced(op, CancelOperands(op, e1, e2.l).0, e2.r, n);
    }
  }

  lemma {:induction false} CancelKeepsLean(op: Op, e1: Expr, e2: Expr)
    requires LeanOperands(op, e1) && LeanOperands(op, e2)
    ensures LeanOperands(op, CancelOperands(op, e1, e2).0) && LeanOperands(op, CancelOperands(op, e1, e2).1)
    decreases Size(e1) + Size(e2)
  {
    if IsOp(op, e1) {
      CancelKeepsLean(op, e1.l, e2);
      CancelKeepsLean(op, e1.r, CancelOperands(op, e1.l, e2).1);
    } else if IsOp(op, e2) {
      CancelKeepsLean(op, e1, e2.l);
      CancelKeepsLean(op, CancelOperands(op, e1, e2.l).0, e2.r);
    }
  }

  lemma {:induction false} CancelKeepsQuotes(op: Op, e1: Expr, e2: Expr)
    ensures Quotes(op, CancelOperands(op, e1, e2).0) == Quotes(op, e1)
    ensures Quotes(op, CancelOperands(op, e1, e2).1) == Quotes(op, e2)
    decreases Size(e1) + Size(e2)
  {
    if IsOp(op, e1) {
      CancelKeepsQuotes(op, e1.l, e2);
      CancelKeepsQuotes(op, e1.r, CancelOperands(op, e1.l, e2).1);
    } else if IsOp(op, e2) {
      CancelKeepsQuotes(op, e1, e2.l);
      CancelKeepsQuotes(op, CancelOperands(op, e1, e2.l).0, e2.r);
    }
  }

  lemma {:induction false} CancelKeepsChain(op: Op, e1: Expr, e2: Expr)
    ensures IsOp(op, e1) ==> IsOp(op, CancelOperands(op, e1, e2).0)
    ensures IsOp(op, e2) ==> IsOp(op, CancelOperands(op, e1, e2).1)
    decreases Size(e1) + Size(e2)
  {
    if IsOp(op, e1) {
      CancelKeepsChain(op, e1.l, e2);
      CancelKeepsChain(op, e1.r, CancelOperands(op, e1.l, e2).1);
    }
  }

  lemma EqOnChains(op: Op, e1: Expr, e2: Expr)
    requires IsOp(op, e1) && IsOp(op, e2)
    ensures var (f1, f2) := CancelOperands(op, e1, e2);
            Eq(e1, e2) <==> EliminateYn(f1).Sym? && EliminateYn(f1) == EliminateYn(f2)
  {
    CancelKeepsChain(op, e1, e2);
  }

  // ----- what removing the constants keeps -----

  lemma {:induction false} ReducedHasNoConstant(e: Expr)
    requires Reduced(e)
    ensures EliminateYn(e) == e
  {
    if e.Bin? {
      ReducedHasNoConstant(e.l);
      ReducedHasNoConstant(e.r);
    }
  }

  lemma {:induction false} EliminateYnKeepsQuotes(op: Op, e: Expr)
    requires ReducedChain(op, e)
    ensures ReducedChain(op, EliminateYn(e)) && Quotes(op, EliminateYn(e)) == Quotes(op, e)
  {
    if IsOp(op, e) {
      EliminateYnKeepsQuotes(op, e.l);
      EliminateYnKeepsQuotes(op, e.r);
    } else if e != Neutral(op) {
      ReducedHasNoConstant(e);
    }
  }

  // ----- only lean expressions compare equal -----

  /** A chain that comes down to a symbol had nothing but symbols for operands. */
  lemma {:induction false} SymbolIsLean(op: Op, e: Expr)
    requires ReducedChain(op, e) && EliminateYn(e).Sym?
    ensures LeanOperands(op, e)
  {
    if IsOp(op, e) {
      EliminateYnKeepsQuotes(op, e.l);
      EliminateYnKeepsQuotes(op, e.r);
      SymbolIsLean(op, e.l);
      SymbolIsLean(op, e.r);
    } else if e != Neutral(op) {
      ReducedHasNoConstant(e);
    }
  }

  /** What is cancelled compared equal, so it is lean; what is not cancelled is left over. */
  lemma {:induction false} LeanBeforeCancel(op: Op, e1: Expr, e2: Expr)
    requires ReducedChain(op, e1) && ReducedChain(op, e2)
    ensures LeanOperands(op, CancelOperands(op, e1, e2).0) ==> LeanOperands(op, e1)
    ensures LeanOperands(op, CancelOperands(op, e1, e2).1) ==> LeanOperands(op, e2)
    decreases Size(e1) + Size(e2), if IsOp(op, e1) || IsOp(op, e2) then 0 else 3
  {
    var n := Size(e1) + Size(e2);
    OperandsAreBelow(op, e1, n);
    OperandsAreBelow(op, e2, n);
    if IsOp(op, e1) {
      CancelKeepsReduced(op, e1.l, e2, n);
      LeanBeforeCancel(op, e1.l, e2);
      LeanBeforeCancel(op, e1.r, CancelOperands(op, e1.l, e2).1);
    } else if IsOp(op, e2) {
      CancelKeepsReduced(op, e1, e2.l, n);
      LeanBeforeCancel(op, e1, e2.l);
      LeanBeforeCancel(op, CancelOperands(op, e1, e2.l).0, e2.r);
    } else if Eq(e1, e2) {
      EqualAreLean(e1, e2);
    }
  }

  lemma {:induction false} EqualAreLean(e1: Expr, e2: Expr)
    requires Reduced(e1) && Reduced(e2) && Eq(e1, e2)
    ensures Lean(e1) && Lean(e2)
    decreases Size(e1) + Size(e2), 2
  {
    match e1
    case Not(x) => EqualAreLean(x, e2.e);
    case Bin(op, _, _) => EqualChainsAreLean(op, e1, e2);
    case _ =>
  }

  lemma {:induction false} EqualChainsAreLean(op: Op, e1: Expr, e2: Expr)
    requires IsOp(op, e1) && IsOp(op, e2) && Reduced(e1) && Reduced(e2) && Eq(e1, e2)
    ensures Lean(e1) && Lean(e2)
    decreases Size(e1) + Size(e2), 1
  {
    var n := Size(e1) + Size(e2);
    ChainOfReduced(op, e1, n);
    ChainOfReduced(op, e2, n);
    EqualHaveSameQuotes(op, e1, e2);
    LeanBeforeCancel(op, e1, e2);
    ResidueIsLean(op, e1, e2, n);
    LeanOfChain(op, e1);
    LeanOfChain(op, e2);
  }

  lemma ResidueIsLean(op: Op, e1: Expr, e2: Expr, n: nat)
    requires IsOp(op, e1) && IsOp(op, e2) && ReducedChain(op, e1) && ReducedChain(op, e2) && Eq(e1, e2)
    requires OperandsBelow(op, e1, n) && OperandsBelow(op, e2, n)
    ensures var (f1, f2) := CancelOperands(op, e1, e2); LeanOperands(op, f1) && LeanOperands(op, f2)
  {
    var (f1, f2) := CancelOperands(op, e1, e2);
    EqOnChains(op, e1, e2);
    CancelKeepsReduced(op, e1, e2, n);
    SymbolIsLean(op, f1);
    SymbolIsLean(op, f2);
  }

  lemma EqualHaveSameQuotes(op: Op, e1: Expr, e2: Expr)
    requires IsOp(op, e1) && IsOp(op, e2) && ReducedChain(op, e1) && ReducedChain(op, e2) && Eq(e1, e2)
    ensures Quotes(op, e1) == Quotes(op, e2) && |Quotes(op, e1)| <= 1
  {
    var (f1, f2) := CancelOperands(op, e1, e2);
    var n := Size(e1) + Size(e2);
    OperandsAreBelow(op, e1, n);
    OperandsAreBelow(op, e2, n);
    EqOnChains(op, e1, e2);
    CancelKeepsReduced(op, e1, e2, n);
    CancelKeepsQuotes(op, e1, e2);
    EliminateYnKeepsQuotes(op, f1);
    EliminateYnKeepsQuotes(op, f2);
  }

  lemma {:induction false} OperandsAreBelow(op: Op, e: Expr, n: nat)
    requires Size(e) < n
    ensures OperandsBelow(op, e, n)
  {
    if IsOp(op, e) {
      OperandsAreBelow(op, e.l, n);
      OperandsAreBelow(op, e.r, n);
    }
  }

  // ----- counting operands -----

  /** How many operands of the op-chain e compare equal to x, constants aside. */
  function Occurrences(op: Op, e: Expr, x: Expr): nat {
    if IsOp(op, e) then Occurrences(op, e.l, x) + Occurrences(op, e.r, x)
    else if e != Neutral(op) && !IsQuote(e) && Eq(e, x) then 1
    else 0
  }

  function Surplus(a: nat, b: nat): nat {
    if a > b then a - b else 0
  }

  /** r1 holds what e1 has more of than e2, and r2 the reverse, counted for operand x. */
  predicate IsSurplus(op: Op, e1: Expr, e2: Expr, r1: Expr, r2: Expr, x: Expr) {
    && Occurrences(op, r1, x) == Surplus(Occurrences(op, e1, x), Occurrences(op, e2, x))
    && Occurrences(op, r2, x) == Surplus(Occurrences(op, e2, x), Occurrences(op, e1, x))
  }

  lemma SurplusOfChain(op: Op, l0: Expr, l: Expr, r0: Expr, r: Expr, e: Expr, f: Expr, g: Expr, x: Expr)
    requires IsSurplus(op, l0, e, l, f, x) && IsSurplus(op, r0, f, r, g, x)
    ensures IsSurplus(op, Bin(op, l0, r0), e, Bin(op, l, r), g, x)
  {
  }

  lemma {:induction false} EliminateYnKeepsOccurrences(op: Op, e: Expr, x: Expr)
    requires ReducedChain(op, e)
    ensures Occurrences(op, EliminateYn(e), x) == Occurrences(op, e, x)
  {
    if IsOp(op, e) {
      EliminateYnKeepsQuotes(op, e.l);
      EliminateYnKeepsQuotes(op, e.r);
      EliminateYnKeepsOccurrences(op, e.l, x);
      EliminateYnKeepsOccurrences(op, e.r, x);
    } else if e != Neutral(op) {
      ReducedHasNoConstant(e);
    }
  }

  // ----- symmetric, transitive, and reflexive where lean, by induction on the size -----

  lemma {:induction false} EqReflexiveBelow(n: nat, e: Expr)
    requires Reduced(e) && Lean(e) && Size(e) <= n
    ensures Eq(e, e)
    decreases n, 3
  {
    match e
    case Not(x) => EqReflexiveBelow(n - 1, x);
    case Bin(op, _, _) =>
      ChainOfReduced(op, e, n);
      LeanOfChain(op, e);
      SameOperandsMakeEqual(n, op, e, e);
    case _ =>
  }

  lemma {:induction false} EqSymmetricBelow(n: nat, a: Expr, b: Expr)
    requires Reduced(a) && Reduced(b) && Size(a) <= n && Size(b) <= n && Eq(a, b)
    ensures Eq(b, a)
    decreases n, 3
  {
    match a
    case Not(x) => EqSymmetricBelow(n - 1, x, b.e);
    case Bin(op, _, _) =>
      EqualChains(n, op, a, b);
      forall x | Reduced(x) && Size(x) < n ensures Occurrences(op, b, x) == Occurrences(op, a, x) {
        EqualHaveSameOperands(n, op, a, b, x);
      }
      SameOperandsMakeEqual(n, op, b, a);
    case _ =>
  }

  lemma {:induction false} EqTransitiveBelow(n: nat, a: Expr, b: Expr, c: Expr)
    requires Reduced(a) && Reduced(b) && Reduced(c) && Size(a) <= n && Size(b) <= n && Size(c) <= n
    requires Eq(a, b) && Eq(b, c)
    ensures Eq(a, c)
    decreases n, 3
  {
    match a
    case Not(x) => EqTransitiveBelow(n - 1, x, b.e, c.e);
    case Bin(op, _, _) =>
      EqualChains(n, op, a, b);
      EqualChains(n, op, b, c);
      forall x | Reduced(x) && Size(x) < n ensures Occurrences(op, a, x) == Occurrences(op, c, x) {
        EqualHaveSameOperands(n, op, a, b, x);
        EqualHaveSameOperands(n, op, b, c, x);
      }
      SameOperandsMakeEqual(n, op, a, c);
    case _ =>
  }

  lemma EqualChains(n: nat, op: Op, a: Expr, b: Expr)
    requires IsOp(op, a) && IsOp(op, b) && Reduced(a) && Reduced(b) && Size(a) <= n && Size(b) <= n && Eq(a, b)
    ensures ReducedChain(op, a) && OperandsBelow(op, a, n) && LeanOperands(op, a)
    ensures ReducedChain(op, b) && OperandsBelow(op, b, n) && LeanOperands(op, b)
    ensures Quotes(op, a) == Quotes(op, b) && |Quotes(op, a)| <= 1
  {
    ChainOfReduced(op, a, n);
    ChainOfReduced(op, b, n);
    EqualAreLean(a, b);
    LeanOfChain(op, a);
    LeanOfChain(op, b);
    EqualHaveSameQuotes(op, a, b);
  }

  /** Operands that compare equal compare alike with x; otherwise not both are equal to x. */
  lemma {:induction false} EqualAlike(n: nat, e1: Expr, e2: Expr, x: Expr)
    requires Reduced(e1) && Reduced(e2) && Reduced(x) && Size(e1) <= n && Size(e2) <= n && Size(x) <= n
    ensures if Eq(e1, e2) then Eq(e1, x) <==> Eq(e2, x) else !(Eq(e1, x) && Eq(e2, x))
    decreases n, 4
  {
    if Eq(e1, e2) {
      EqSymmetricBelow(n, e1, e2);
      if Eq(e1, x) { EqTransitiveBelow(n, e2, e1, x); }
      if Eq(e2, x) { EqTransitiveBelow(n, e1, e2, x); }
    } else if Eq(e1, x) && Eq(e2, x) {
      EqSymmetricBelow(n, e2, x);
      EqTransitiveBelow(n, e1, x, e2);
    }
  }

  predicate IsConstantOperand(op: Op, e: Expr) {
    e == Neutral(op) || IsQuote(e)
  }

  /** Two operands cancel exactly when they compare equal and are no constants. */
  lemma CancelOfOperands(op: Op, e1: Expr, e2: Expr)
    requires !IsOp(op, e1) && !IsOp(op, e2) && ReducedChain(op, e1) && ReducedChain(op, e2)
    ensures CancelOperands(op, e1, e2) ==
              if Eq(e1, e2) && !IsConstantOperand(op, e1) then (Neutral(op), Neutral(op)) else (e1, e2)
    ensures IsConstantOperand(op, e1) || IsConstantOperand(op, e2) ==> (Eq(e1, e2) <==> e1 == e2)
  {
  }

  lemma OneOperand(op: Op, e: Expr, x: Expr)
    requires !IsOp(op, e)
    ensures Occurrences(op, e, x) == if !IsConstantOperand(op, e) && Eq(e, x) then 1 else 0
  {
  }

  lemma {:induction false} OperandCounts(n: nat, op: Op, e1: Expr, e2: Expr, x: Expr)
    requires !IsOp(op, e1) && !IsOp(op, e2) && ReducedChain(op, e1) && ReducedChain(op, e2) && Reduced(x)
    requires Size(e1) <= n && Size(e2) <= n && Size(x) <= n
    ensures if Eq(e1, e2) && !IsConstantOperand(op, e1) then Occurrences(op, e1, x) == Occurrences(op, e2, x)
            else Occurrences(op, e1, x) == 0 || Occurrences(op, e2, x) == 0
    decreases n, 5
  {
    OneOperand(op, e1, x);
    OneOperand(op, e2, x);
    CancelOfOperands(op, e1, e2);
    if !IsConstantOperand(op, e1) && !IsConstantOperand(op, e2) {
      EqualAlike(n, e1, e2, x);
    }
  }

  lemma {:induction false} SurplusOfOperands(n: nat, op: Op, e1: Expr, e2: Expr, x: Expr)
    requires !IsOp(op, e1) && !IsOp(op, e2) && ReducedChain(op, e1) && ReducedChain(op, e2) && Reduced(x)
    requires Size(e1) < n && Size(e2) < n && Size(x) < n
    ensures IsSurplus(op, e1, e2, CancelOperands(op, e1, e2).0, CancelOperands(op, e1, e2).1, x)
    decreases n, 0
  {
    OperandCounts(n - 1, op, e1, e2, x);
    CancelOfOperands(op, e1, e2);
    SurplusIf(op, Eq(e1, e2) && !IsConstantOperand(op, e1), e1, e2, x);
  }

  lemma SurplusIf(op: Op, cancel: bool, e1: Expr, e2: Expr, x: Expr)
    requires if cancel then Occurrences(op, e1, x) == Occurrences(op, e2, x)
             else Occurrences(op, e1, x) == 0 || Occurrences(op, e2, x) == 0
    ensures var (r1, r2) := if cancel then (Neutral(op), Neutral(op)) else (e1, e2);
            IsSurplus(op, e1, e2, r1, r2, x)
  {
    OneOperand(op, Neutral(op), x);
  }

  lemma {:induction false} SurplusBelow(n: nat, op: Op, e1: Expr, e2: Expr, x: Expr)
    requires ReducedChain(op, e1) && ReducedChain(op, e2) && OperandsBelow(op, e1, n) && OperandsBelow(op, e2, n)
    requires Reduced(x) && Size(x) < n
    ensures IsSurplus(op, e1, e2, CancelOperands(op, e1, e2).0, CancelOperands(op, e1, e2).1, x)
    decreases n, 1, Size(e1) + Size(e2)
  {
    if IsOp(op, e1) {
      var (l, f2) := CancelOperands(op, e1.l, e2);
      var (r, g2) := CancelOperands(op, e1.r, f2);
      CancelKeepsReduced(op, e1.l, e2, n);
      SurplusBelow(n, op, e1.l, e2, x);
      SurplusBelow(n, op, e1.r, f2, x);
      SurplusOfChain(op, e1.l, l, e1.r, r, e2, f2, g2, x);
    } else if IsOp(op, e2) {
      var (f1, l) := CancelOperands(op, e1, e2.l);
      var (g1, r) := CancelOperands(op, f1, e2.r);
      CancelKeepsReduced(op, e1, e2.l, n);
      SurplusBelow(n, op, e1, e2.l, x);
      SurplusBelow(n, op, f1, e2.r, x);
      SurplusOfChain(op, e2.l, l, e2.r, r, e1, f1, g1, x);
    } else {
      SurplusOfOperands(n, op, e1, e2, x);
    }
  }

  lemma {:induction false} EqualHaveSameOperands(n: nat, op: Op, e1: Expr, e2: Expr, x: Expr)
    requires IsOp(op, e1) && IsOp(op, e2) && Eq(e1, e2) && ReducedChain(op, e1) && ReducedChain(op, e2)
    requires OperandsBelow(op, e1, n) && OperandsBelow(op, e2, n) && Reduced(x) && Size(x) < n
    ensures Occurrences(op, e1, x) == Occurrences(op, e2, x)
    decreases n, 2
  {
    var (f1, f2) := CancelOperands(op, e1, e2);
    EqOnChains(op, e1, e2);
    CancelKeepsReduced(op, e1, e2, n);
    SurplusBelow(n, op, e1, e2, x);
    EliminateYnKeepsOccurrences(op, f1, x);
    EliminateYnKeepsOccurrences(op, f2, x);
  }

  /** A chain in which only constants are left comes down to its quoted constant, or the neutral one. */
  lemma {:induction false} OnlyConstantsLeft(n: nat, op: Op, e: Expr)
    requires ReducedChain(op, e) && OperandsBelow(op, e, n) && LeanOperands(op, e) && |Quotes(op, e)| <= 1
    requires forall x | Reduced(x) && Size(x) < n :: Occurrences(op, e, x) == 0
    ensures EliminateYn(e) == if Quotes(op, e) == [] then Neutral(op) else Quotes(op, e)[0]
    ensures EliminateYn(e).Sym?
    decreases n, 1, Size(e)
  {
    if IsOp(op, e) {
      forall x | Reduced(x) && Size(x) < n ensures Occurrences(op, e.l, x) == 0 && Occurrences(op, e.r, x) == 0 {
        assert Occurrences(op, e, x) == 0;
      }
      OnlyConstantsLeft(n, op, e.l);
      OnlyConstantsLeft(n, op, e.r);
    } else if !IsConstantOperand(op, e) {
      assert Occurrences(op, e, e) == 0;
      EqReflexiveBelow(n - 1, e);
    }
  }

  lemma {:induction false} SameOperandsMakeEqual(n: nat, op: Op, e1: Expr, e2: Expr)
    requires IsOp(op, e1) && IsOp(op, e2) && ReducedChain(op, e1) && ReducedChain(op, e2)
    requires OperandsBelow(op, e1, n) && OperandsBelow(op, e2, n) && LeanOperands(op, e1) && LeanOperands(op, e2)
    requires Quotes(op, e1) == Quotes(op, e2) && |Quotes(op, e1)| <= 1
    requires forall x | Reduced(x) && Size(x) < n :: Occurrences(op, e1, x) == Occurrences(op, e2, x)
    ensures Eq(e1, e2)
    decreases n, 2
  {
    var (f1, f2) := CancelOperands(op, e1, e2);
    EqOnChains(op, e1, e2);
    CancelKeepsReduced(op, e1, e2, n);
    CancelKeepsLean(op, e1, e2);
    CancelKeepsQuotes(op, e1, e2);
    forall x | Reduced(x) && Size(x) < n ensures Occurrences(op, f1, x) == Occurrences(op, f2, x) == 0 {
      assert Occurrences(op, e1, x) == Occurrences(op, e2, x);
      SurplusBelow(n, op, e1, e2, x);
    }
    OnlyConstantsLeft(n, op, f1);
    OnlyConstantsLeft(n, op, f2);
  }

  // ----- the results -----

  /** A reduced expression compares equal to itself if and only if none of its chains has two quoted
      constants. */
  lemma EqIsReflexiveExactly(e: Expr)
    requires Reduced(e)
    ensures Eq(e, e) <==> Lean(e)
  {
    if Lean(e) {
      EqReflexiveBelow(Size(e), e);
    } else if Eq(e, e) {
      EqualAreLean(e, e);
    }
  }

  /** On all reduced expressions comparison is symmetric and transitive. */
  lemma EqIsEquivalence(a: Expr, b: Expr, c: Expr)
    requires Reduced(a) && Reduced(b) && Reduced(c)
    ensures Eq(a, b) ==> Eq(b, a)
    ensures Eq(a, b) && Eq(b, c) ==> Eq(a, c)
  {
    var n := Size(a) + Size(b) + Size(c);
    if Eq(a, b) {
      EqSymmetricBelow(n, a, b);
      if Eq(b, c) { EqTransitiveBelow(n, a, b, c); }
    }
  }

  /** Cancelling leaves on each side what the other side did not have, and every quoted constant. */
  lemma CancelLeavesSurplus(op: Op, e1: Expr, e2: Expr, x: Expr)
    requires ReducedChain(op, e1) && ReducedChain(op, e2) && Reduced(x)
    ensures var (r1, r2) := CancelOperands(op, e1, e2);
            && IsSurplus(op, e1, e2, r1, r2, x)
            && Quotes(op, r1) == Quotes(op, e1) && Quotes(op, r2) == Quotes(op, e2)
  {
    var n := Size(e1) + Size(e2) + Size(x) + 1;
    OperandsAreBelow(op, e1, n);
    OperandsAreBelow(op, e2, n);
    SurplusBelow(n, op, e1, e2, x);
    CancelKeepsQuotes(op, e1, e2);
  }

  ghost predicate SameOperands(op: Op, e1: Expr, e2: Expr) {
    forall x | Reduced(x) :: Occurrences(op, e1, x) == Occurrences(op, e2, x)
  }

  /** expr_eq decides equality up to neutral constants and the order of operands, at every depth: two
      chains of reduced operands are equal exactly when they have equal operands the same number of times
      and the same quoted constant or none, and every operand is lean. */
  lemma EqDecidesOperands(op: Op, e1: Expr, e2: Expr)
    requires IsOp(op, e1) && IsOp(op, e2) && ReducedChain(op, e1) && ReducedChain(op, e2)
    ensures Eq(e1, e2) <==>
              && SameOperands(op, e1, e2)
              && Quotes(op, e1) == Quotes(op, e2) && |Quotes(op, e1)| <= 1
              && LeanOperands(op, e1) && LeanOperands(op, e2)
  {
    var n := Size(e1) + Size(e2);
    OperandsAreBelow(op, e1, n);
    OperandsAreBelow(op, e2, n);
    if Eq(e1, e2) {
      EqualHaveSameQuotes(op, e1, e2);
      ResidueIsLean(op, e1, e2, n);
      LeanBeforeCancel(op, e1, e2);
      forall x | Reduced(x) ensures Occurrences(op, e1, x) == Occurrences(op, e2, x) {
        var m := n + Size(x);
        OperandsAreBelow(op, e1, m);
        OperandsAreBelow(op, e2, m);
        EqualHaveSameOperands(m, op, e1, e2, x);
      }
    } else if SameOperands(op, e1, e2) && Quotes(op, e1) == Quotes(op, e2) && |Quotes(op, e1)| <= 1 &&
              LeanOperands(op, e1) && LeanOperands(op, e2) {
      SameOperandsMakeEqual(n, op, e1, e2);
    }
  }

  /** The input for reflexivity: two quoted constants in a chain are not cancelled. */
  lemma EqIsNotReflexive(op: Op, i: nat, j: nat)
    ensures var e := Bin(op, Sym(Constant(i)), Sym(Constant(j))); Reduced(e) && !Eq(e, e)
  {
    var a, b := Sym(Constant(i)), Sym(Constant(j));
    assert Quotes(op, a) == [a] && Quotes(op, b) == [b];
    assert |Quotes(op, Bin(op, a, b))| == 2;
    EqIsReflexiveExactly(Bin(op, a, b));
  }

  /** n || n */
  const NO_OR_NO := Bin(OrOp, NO, NO)

  lemma NoOrNoEqualsItself()
    ensures EliminateYn(NO_OR_NO) == NO && Eq(NO_OR_NO, NO_OR_NO)
  {
    EqOnChains(OrOp, NO_OR_NO, NO_OR_NO);
    assert CancelOperands(OrOp, NO, NO) == (NO, NO);
    assert CancelOperands(OrOp, NO, NO_OR_NO) == (NO, NO_OR_NO);
    assert CancelOperands(OrOp, NO_OR_NO, NO_OR_NO) == (NO_OR_NO, NO_OR_NO);
  }

  lemma FirstComesDown(a: Symbol)
    requires a.Config?
    ensures Eq(Bin(AndOp, NO_OR_NO, Sym(a)), Bin(AndOp, NO, Sym(a)))
  {
    var x, m, f := Bin(AndOp, NO_OR_NO, Sym(a)), Bin(AndOp, NO, Sym(a)), Bin(AndOp, NO, YES);
    assert CancelOperands(AndOp, NO_OR_NO, NO) == (NO_OR_NO, NO);
    assert CancelOperands(AndOp, NO_OR_NO, Sym(a)) == (NO_OR_NO, Sym(a));
    assert CancelOperands(AndOp, NO_OR_NO, m) == (NO_OR_NO, m);
    assert CancelOperands(AndOp, Sym(a), NO) == (Sym(a), NO);
    assert CancelOperands(AndOp, Sym(a), Sym(a)) == (YES, YES);
    assert CancelOperands(AndOp, Sym(a), m) == (YES, f);
    NoOrNoEqualsItself();
    EqOnChains(AndOp, x, m);
    assert EliminateYn(YES) == YES && EliminateYn(NO) == NO;
    assert EliminateYn(Bin(AndOp, NO_OR_NO, YES)) == NO && EliminateYn(f) == NO;
  }

  lemma SecondComesDown(a: Symbol, b: Symbol)
    requires a.Config? && b.Config? && a != b
    ensures Eq(Bin(AndOp, NO, Sym(a)), Bin(AndOp, NO_OR_NO, Sym(b)))
  {
    var m, y := Bin(AndOp, NO, Sym(a)), Bin(AndOp, NO_OR_NO, Sym(b));
    assert CancelOperands(AndOp, NO, NO_OR_NO) == (NO, NO_OR_NO);
    assert CancelOperands(AndOp, NO, Sym(b)) == (NO, Sym(b));
    assert CancelOperands(AndOp, NO, y) == (NO, y);
    assert CancelOperands(AndOp, Sym(a), NO_OR_NO) == (Sym(a), NO_OR_NO);
    assert CancelOperands(AndOp, Sym(a), Sym(b)) == (Sym(a), Sym(b));
    assert CancelOperands(AndOp, Sym(a), y) == (Sym(a), y);
    NoOrNoEqualsItself();
    EqOnChains(AndOp, m, y);
    assert EliminateYn(NO) == NO;
    assert EliminateYn(m) == NO && EliminateYn(y) == NO;
  }

  lemma SymbolsAreLeft(a: Symbol, b: Symbol)
    requires a.Config? && b.Config? && a != b
    ensures !Eq(Bin(AndOp, NO_OR_NO, Sym(a)), Bin(AndOp, NO_OR_NO, Sym(b)))
  {
    var x, y, f := Bin(AndOp, NO_OR_NO, Sym(a)), Bin(AndOp, NO_OR_NO, Sym(b)), Bin(AndOp, YES, Sym(b));
    NoOrNoEqualsItself();
    assert CancelOperands(AndOp, NO_OR_NO, NO_OR_NO) == (YES, YES);
    assert CancelOperands(AndOp, YES, Sym(b)) == (YES, Sym(b));
    assert CancelOperands(AndOp, NO_OR_NO, y) == (YES, f);
    assert CancelOperands(AndOp, Sym(a), YES) == (Sym(a), YES);
    assert CancelOperands(AndOp, Sym(a), Sym(b)) == (Sym(a), Sym(b));
    assert CancelOperands(AndOp, Sym(a), f) == (Sym(a), f);
    EqOnChains(AndOp, x, y);
    assert EliminateYn(YES) == YES && EliminateYn(Sym(a)) == Sym(a) && EliminateYn(Sym(b)) == Sym(b);
    assert EliminateYn(Bin(AndOp, YES, Sym(a))) == Sym(a) && EliminateYn(f) == Sym(b);
  }

  /** Where the constants y and n have not been removed, comparison need not be transitive: (n || n) && a
      equals n && a, which equals (n || n) && b, because all come down to n; but between the first and
      the last (n || n) is cancelled, which leaves a and b. */
  lemma EqIsNotTransitive(a: Symbol, b: Symbol)
    requires a.Config? && b.Config? && a != b
    ensures Eq(Bin(AndOp, NO_OR_NO, Sym(a)), Bin(AndOp, NO, Sym(a)))
    ensures Eq(Bin(AndOp, NO, Sym(a)), Bin(AndOp, NO_OR_NO, Sym(b)))
    ensures !Eq(Bin(AndOp, NO_OR_NO, Sym(a)), Bin(AndOp, NO_OR_NO, Sym(b)))
  {
    FirstComesDown(a);
    SecondComesDown(a, b);
    SymbolsAreLeft(a, b);
  }
}
