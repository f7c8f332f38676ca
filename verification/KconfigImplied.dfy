/**
 What expr_eliminate_eq (scripts/kconfig/expr.c) leaves of its two sides, and when it leaves y on the
 right: exactly when the left side is an "and" that has every operand of the right side.
 */
module KconfigImplied {
  import opened KconfigExpr
  import opened KconfigEq
  import opened KconfigEquivalence

  /** No quoted constant stands on its own. */
  predicate NoQuotes(e: Expr) {
    match e
    case Sym(s) => !s.Constant?
    case Not(x) => NoQuotes(x)
    case Bin(_, l, r) => NoQuotes(l) && NoQuotes(r)
    case Cmp(_, _, _) => true
  }

  lemma {:induction false} NoQuotesInChain(op: Op, e: Expr)
    requires NoQuotes(e)
    ensures Quotes(op, e) == [] && Lean(e) && LeanOperands(op, e)
    decreases e
  {
    match e
    case Not(x) => NoQuotesInChain(op, x);
    case Bin(o, l, r) =>
      NoQuotesInChain(o, l);
      NoQuotesInChain(o, r);
      NoQuotesInChain(op, l);
      NoQuotesInChain(op, r);
    case _ =>
  }

  /** The number of operands of the op-chain e, cancelled ones aside. */
  function Width(op: Op, e: Expr): nat {
    if IsOp(op, e) then Width(op, e.l) + Width(op, e.r) else if e == Neutral(op) then 0 else 1
  }

  /** Operands are cancelled in pairs. */
  lemma {:induction false} CancelsInPairs(op: Op, e1: Expr, e2: Expr)
    ensures var (r1, r2) := CancelOperands(op, e1, e2);
            Width(op, e1) + Width(op, r2) == Width(op, r1) + Width(op, e2)
    decreases Size(e1) + Size(e2)
  {
    if IsOp(op, e1) {
      CancelsInPairs(op, e1.l, e2);
      CancelsInPairs(op, e1.r, CancelOperands(op, e1.l, e2).1);
    } else if IsOp(op, e2) {
      CancelsInPairs(op, e1, e2.l);
      CancelsInPairs(op, CancelOperands(op, e1, e2.l).0, e2.r);
    } else if Eq(e1, e2) {
      assert e1 == Neutral(op) <==> e2 == Neutral(op);
    }
  }

  lemma {:induction false} WidthOfReduced(op: Op, e: Expr)
    requires Reduced(e) && !IsYesOrNo(e)
    ensures Width(op, e) >= if IsOp(op, e) then 2 else 1
  {
    if IsOp(op, e) {
      WidthOfReduced(op, e.l);
      WidthOfReduced(op, e.r);
    }
  }

  /** A chain with an operand left does not come down to the neutral constant. */
  lemma {:induction false} NeutralHasNoWidth(op: Op, e: Expr)
    requires ReducedChain(op, e)
    ensures EliminateYn(e) == Neutral(op) <==> Width(op, e) == 0
    ensures EliminateYn(e) != Absorbing(op)
  {
    if IsOp(op, e) {
      EliminateYnKeepsQuotes(op, e.l);
      EliminateYnKeepsQuotes(op, e.r);
      NeutralHasNoWidth(op, e.l);
      NeutralHasNoWidth(op, e.r);
    } else if e != Neutral(op) {
      ReducedHasNoConstant(e);
    }
  }

  lemma {:induction false} YesIsNotCancelled(op: Op, e: Expr)
    ensures CancelOperands(op, e, YES) == (e, YES)
  {
    if IsOp(op, e) {
      YesIsNotCancelled(op, e.l);
      YesIsNotCancelled(op, e.r);
    }
  }

  lemma {:induction false} NoIsNotCancelled(op: Op, e: Expr)
    ensures CancelOperands(op, e, NO) == (e, NO)
  {
    if IsOp(op, e) {
      NoIsNotCancelled(op, e.l);
      NoIsNotCancelled(op, e.r);
    }
  }

  /** A single operand is cancelled, or nothing changes. */
  lemma {:induction false} CancelAgainstOne(op: Op, e1: Expr, e2: Expr)
    requires !IsOp(op, e2)
    ensures var (r1, r2) := CancelOperands(op, e1, e2); r2 == Neutral(op) || (r1 == e1 && r2 == e2)
    decreases Size(e1)
  {
    if IsOp(op, e1) {
      CancelAgainstOne(op, e1.l, e2);
      var f2 := CancelOperands(op, e1.l, e2).1;
      if f2 == e2 {
        CancelAgainstOne(op, e1.r, e2);
      } else if op.AndOp? {
        YesIsNotCancelled(op, e1.r);
      } else {
        NoIsNotCancelled(op, e1.r);
      }
    }
  }

  lemma ChainOf(op: Op, e: Expr)
    requires Reduced(e) && e != Absorbing(op)
    ensures ReducedChain(op, e)
  {
    if IsOp(op, e) { ChainOfReduced(op, e, Size(e)); }
  }

  /** One operand does not cancel a whole "and" chain. */
  lemma OneDoesNotCancelChain(a: Expr, b: Expr)
    requires Reduced(a) && Reduced(b) && !IsOp(AndOp, a) && IsOp(AndOp, b)
    ensures EliminateYn(CancelOperands(AndOp, a, b).1) != YES
  {
    ChainOf(AndOp, b);
    if a == NO {
      NoCancelsNothing(b);
      ReducedHasNoConstant(b);
    } else {
      ChainOf(AndOp, a);
      CancelKeepsReducedChain(AndOp, a, b);
      CancelsInPairs(AndOp, a, b);
      WidthOfReduced(AndOp, b);
      NeutralHasNoWidth(AndOp, CancelOperands(AndOp, a, b).1);
    }
  }

  lemma {:induction false} NoCancelsNothing(b: Expr)
    ensures CancelOperands(AndOp, NO, b) == (NO, b)
  {
    if IsOp(AndOp, b) {
      NoCancelsNothing(b.l);
      NoCancelsNothing(b.r);
    }
  }

  /** Cancelling in an "or" chain never leaves y. */
  lemma OrLeavesNoYes(a: Expr, b: Expr)
    requires Reduced(a) && Reduced(b) && b != YES
    ensures EliminateYn(CancelOperands(OrOp, a, b).1) != YES
  {
    ChainOf(OrOp, b);
    if a == YES {
      YesCancelsNothing(b);
      ReducedHasNoConstant(b);
    } else {
      ChainOf(OrOp, a);
      CancelKeepsReducedChain(OrOp, a, b);
      NeutralHasNoWidth(OrOp, CancelOperands(OrOp, a, b).1);
    }
  }

  lemma {:induction false} YesCancelsNothing(b: Expr)
    ensures CancelOperands(OrOp, YES, b) == (YES, b)
  {
    if IsOp(OrOp, b) {
      YesCancelsNothing(b.l);
      YesCancelsNothing(b.r);
    }
  }

  /** Unless the left side is an "and", y is left only where it was. */
  lemma OnlyAndCancels(a: Expr, b: Expr)
    requires Reduced(a) && Reduced(b) && !IsOp(AndOp, a)
    ensures Cancel(a, b).1 == YES <==> b == YES
  {
    if b == YES {
      if a.Bin? { YesIsNotCancelled(a.op, a); }
    } else if IsOp(OrOp, a) {
      OrLeavesNoYes(a, b);
      CancelKeepsChain(OrOp, a, b);
      if !IsOp(OrOp, b) { CancelAgainstOne(OrOp, a, b); }
      if IsOp(AndOp, b) { OneDoesNotCancelChain(a, b); }
    } else if IsOp(AndOp, b) {
      OneDoesNotCancelChain(a, b);
    } else if b.Bin? {
      OrLeavesNoYes(a, b);
    }
  }

  /** No operand of b occurs more often than in a. */
  ghost predicate NoMoreThan(b: Expr, a: Expr) {
    forall x | Reduced(x) :: Occurrences(AndOp, b, x) <= Occurrences(AndOp, a, x)
  }

  lemma {:induction false} NoDoesNotOccur(e: Expr)
    requires ReducedChain(AndOp, e)
    ensures Occurrences(AndOp, e, NO) == 0
  {
    if IsOp(AndOp, e) {
      NoDoesNotOccur(e.l);
      NoDoesNotOccur(e.r);
    }
  }

  ghost predicate NoneLeft(e: Expr) {
    forall x | Reduced(x) :: Occurrences(AndOp, e, x) == 0
  }

  lemma NoneLeftExactly(a: Expr, b: Expr)
    requires ReducedChain(AndOp, a) && ReducedChain(AndOp, b)
    ensures NoneLeft(CancelOperands(AndOp, a, b).1) <==> NoMoreThan(b, a)
  {
    var r := CancelOperands(AndOp, a, b).1;
    forall x | Reduced(x)
      ensures Occurrences(AndOp, r, x) == 0 <==> Occurrences(AndOp, b, x) <= Occurrences(AndOp, a, x)
    {
      CancelLeavesSurplus(AndOp, a, b, x);
    }
  }

  lemma YesHasNoneLeft(r: Expr)
    requires ReducedChain(AndOp, r) && EliminateYn(r) == YES
    ensures NoneLeft(r)
  {
    forall x | Reduced(x) ensures Occurrences(AndOp, r, x) == 0 { EliminateYnKeepsOccurrences(AndOp, r, x); }
  }

  lemma CancelKeepsReducedChain(op: Op, a: Expr, b: Expr)
    requires ReducedChain(op, a) && ReducedChain(op, b)
    ensures ReducedChain(op, CancelOperands(op, a, b).1)
  {
    var n := Size(a) + Size(b);
    OperandsAreBelow(op, a, n);
    OperandsAreBelow(op, b, n);
    CancelKeepsReduced(op, a, b, n);
  }

  /** What an "and" leaves of the right side comes down to y exactly when no operand is left. */
  lemma RestIsYes(a: Expr, b: Expr)
    requires ReducedChain(AndOp, a) && ReducedChain(AndOp, b) && NoQuotes(b)
    ensures EliminateYn(CancelOperands(AndOp, a, b).1) == YES <==> NoMoreThan(b, a)
  {
    NoneLeftExactly(a, b);
    CancelKeepsReducedChain(AndOp, a, b);
    if NoMoreThan(b, a) {
      NothingLeft(a, b);
    } else if EliminateYn(CancelOperands(AndOp, a, b).1) == YES {
      YesHasNoneLeft(CancelOperands(AndOp, a, b).1);
    }
  }

  lemma NothingLeft(a: Expr, b: Expr)
    requires ReducedChain(AndOp, a) && ReducedChain(AndOp, b) && NoQuotes(b)
    requires NoneLeft(CancelOperands(AndOp, a, b).1)
    ensures EliminateYn(CancelOperands(AndOp, a, b).1) == YES
  {
    var r := CancelOperands(AndOp, a, b).1;
    CancelKeepsReducedChain(AndOp, a, b);
    OperandsAreBelow(AndOp, r, Size(r) + 1);
    CancelKeepsQuotes(AndOp, a, b);
    NoQuotesInChain(AndOp, b);
    RightKeepsLean(a, b);
    OnlyConstantsLeft(Size(r) + 1, AndOp, r);
  }

  lemma {:induction false} RightKeepsLean(a: Expr, b: Expr)
    requires LeanOperands(AndOp, b)
    ensures LeanOperands(AndOp, CancelOperands(AndOp, a, b).1)
    decreases Size(a) + Size(b)
  {
    if IsOp(AndOp, a) {
      RightKeepsLean(a.l, b);
      RightKeepsLean(a.r, CancelOperands(AndOp, a.l, b).1);
    } else if IsOp(AndOp, b) {
      RightKeepsLean(a, b.l);
      RightKeepsLean(CancelOperands(AndOp, a, b.l).0, b.r);
    }
  }

  /** An "and" on the left cancels the right side down to y exactly when it has all its operands. */
  lemma AndCancelsExactly(a: Expr, b: Expr)
    requires Reduced(a) && Reduced(b) && NoQuotes(b) && IsOp(AndOp, a)
    ensures Cancel(a, b).1 == YES <==> NoMoreThan(b, a)
  {
    ChainOf(AndOp, a);
    CancelKeepsChain(AndOp, a, b);
    if b == NO {
      NoIsNotCancelled(AndOp, a);
      NoDoesNotOccur(a);
      assert Occurrences(AndOp, b, NO) == 1;
    } else {
      ChainOf(AndOp, b);
      RestIsYes(a, b);
      if !IsOp(AndOp, b) { CancelAgainstOne(AndOp, a, b); }
      if IsOp(OrOp, b) && CancelOperands(AndOp, a, b) == (a, b) { OrIsLeft(a, b); }
    }
  }

  lemma OrIsLeft(a: Expr, b: Expr)
    requires Reduced(a) && Reduced(b) && IsOp(AndOp, a) && IsOp(OrOp, b)
    requires CancelOperands(AndOp, a, b) == (a, b)
    ensures Cancel(a, b).1 != YES && EliminateYn(b) != YES
  {
    OrLeavesNoYes(a, b);
    ReducedHasNoConstant(b);
  }

  /** Every operand of b compares equal to one of a. */
  ghost predicate HasOperandsOf(a: Expr, b: Expr) {
    forall y | AndOperand(b, y) :: exists x :: AndOperand(a, x) && Eq(x, y)
  }

  ghost predicate NoRepeats(e: Expr) {
    forall x | Reduced(x) :: Occurrences(AndOp, e, x) <= 1
  }

  lemma {:induction false} OperandIsReduced(e: Expr, x: Expr)
    requires ReducedChain(AndOp, e) && NoQuotes(e) && AndOperand(e, x)
    ensures Reduced(x) && NoQuotes(x) && !IsOp(AndOp, x)
  {
    if IsOp(AndOp, e) {
      if AndOperand(e.l, x) { OperandIsReduced(e.l, x); } else { OperandIsReduced(e.r, x); }
    }
  }

  lemma {:induction false} Occurs(e: Expr, x: Expr, y: Expr)
    requires AndOperand(e, y) && y != YES && !IsQuote(y) && Eq(y, x)
    ensures Occurrences(AndOp, e, x) > 0
  {
    if IsOp(AndOp, e) {
      if AndOperand(e.l, y) { Occurs(e.l, x, y); } else { Occurs(e.r, x, y); }
    }
  }

  lemma {:induction false} FindOperand(e: Expr, x: Expr) returns (y: Expr)
    requires Occurrences(AndOp, e, x) > 0
    ensures AndOperand(e, y) && y != YES && !IsQuote(y) && Eq(y, x)
  {
    if IsOp(AndOp, e) {
      if Occurrences(AndOp, e.l, x) > 0 { y := FindOperand(e.l, x); } else { y := FindOperand(e.r, x); }
    } else {
      y := e;
    }
  }

  /** Where no operand is repeated, counting comes down to having. */
  lemma CountingIsHaving(a: Expr, b: Expr)
    requires Reduced(a) && Reduced(b) && IsOp(AndOp, a) && !IsYesOrNo(b) && NoQuotes(a) && NoQuotes(b) && NoRepeats(b)
    ensures NoMoreThan(b, a) <==> HasOperandsOf(a, b)
  {
    ChainOf(AndOp, a);
    ChainOf(AndOp, b);
    if NoMoreThan(b, a) {
      forall y | AndOperand(b, y) ensures exists x :: AndOperand(a, x) && Eq(x, y) {
        var x := OperandIsHad(a, b, y);
      }
    }
    if HasOperandsOf(a, b) {
      forall x | Reduced(x) ensures Occurrences(AndOp, b, x) <= Occurrences(AndOp, a, x) {
        if Occurrences(AndOp, b, x) > 0 { OperandIsCounted(a, b, x); }
      }
    }
  }

  lemma {:induction false} OperandIsNoConstant(e: Expr, x: Expr)
    requires Reduced(e) && !IsYesOrNo(e) && AndOperand(e, x)
    ensures !IsYesOrNo(x)
  {
    if IsOp(AndOp, e) {
      if AndOperand(e.l, x) { OperandIsNoConstant(e.l, x); } else { OperandIsNoConstant(e.r, x); }
    }
  }

  lemma OperandIsHad(a: Expr, b: Expr, y: Expr) returns (x: Expr)
    requires Reduced(b) && !IsYesOrNo(b) && ReducedChain(AndOp, b) && NoQuotes(b)
    requires NoMoreThan(b, a) && AndOperand(b, y)
    ensures AndOperand(a, x) && Eq(x, y)
  {
    OperandIsReduced(b, y);
    OperandIsNoConstant(b, y);
    NoQuotesInChain(AndOp, y);
    EqIsReflexiveExactly(y);
    Occurs(b, y, y);
    assert Occurrences(AndOp, b, y) <= Occurrences(AndOp, a, y);
    x := FindOperand(a, y);
  }

  lemma OperandIsCounted(a: Expr, b: Expr, x: Expr)
    requires Reduced(a) && ReducedChain(AndOp, a) && IsOp(AndOp, a) && NoQuotes(a)
    requires ReducedChain(AndOp, b) && NoQuotes(b) && HasOperandsOf(a, b) && Reduced(x) && Occurrences(AndOp, b, x) > 0
    ensures Occurrences(AndOp, a, x) > 0
  {
    var y := FindOperand(b, x);
    var z :| AndOperand(a, z) && Eq(z, y);
    OperandIsReduced(b, y);
    OperandIsReduced(a, z);
    OperandIsNoConstant(a, z);
    EqIsEquivalence(z, y, x);
    Occurs(a, x, z);
  }

  /** expr_eliminate_eq leaves y on the right exactly when it was there, or the left side is an "and"
      that has every operand of the right side. */
  lemma CancelsToYesExactly(a: Expr, b: Expr)
    requires Reduced(a) && Reduced(b) && NoQuotes(a) && NoQuotes(b) && NoRepeats(b)
    ensures Cancel(a, b).1 == YES <==> b == YES || (IsOp(AndOp, a) && HasOperandsOf(a, b))
  {
    if !IsOp(AndOp, a) {
      OnlyAndCancels(a, b);
    } else {
      AndCancelsExactly(a, b);
      if b == NO {
        NoIsNotHad(a);
      } else if b != YES {
        CountingIsHaving(a, b);
      }
    }
  }

  lemma NoIsNotHad(a: Expr)
    requires Reduced(a) && IsOp(AndOp, a) && NoQuotes(a)
    ensures !HasOperandsOf(a, NO) && !NoMoreThan(NO, a)
  {
    ChainOf(AndOp, a);
    NoDoesNotOccur(a);
    assert Occurrences(AndOp, NO, NO) == 1;
    if HasOperandsOf(a, NO) {
      assert AndOperand(NO, NO);
      var x :| AndOperand(a, x) && Eq(x, NO);
      OperandIsNoConstant(a, x);
    }
  }

  // ----- what expr_eliminate_eq leaves on either side -----

  /** The operator whose operands the two sides are compared by: that of the left chain, unless the right
      side is a chain of the other operator and no operand of the left one; then that of the right chain. */
  predicate ComparedBy(op: Op, e1: Expr, e2: Expr) {
    if IsOp(op, e1) then !IsOp(Dual(op), e2) || Occurrences(op, e1, e2) > 0
    else IsOp(op, e2) && (e1.Bin? ==> Occurrences(e1.op, e1, e2) == 0)
  }

  /** A chain of the other operator is cancelled against an operand that compares equal to it. */
  lemma {:induction false} CancelAgainstChain(op: Op, e1: Expr, e2: Expr)
    requires IsOp(Dual(op), e2)
    ensures if Occurrences(op, e1, e2) > 0 then CancelOperands(op, e1, e2).1 == Neutral(op)
            else CancelOperands(op, e1, e2) == (e1, e2)
    decreases Size(e1)
  {
    if IsOp(op, e1) {
      CancelAgainstChain(op, e1.l, e2);
      if Occurrences(op, e1.l, e2) == 0 {
        CancelAgainstChain(op, e1.r, e2);
      } else if op.AndOp? {
        YesIsNotCancelled(op, e1.r);
      } else {
        NoIsNotCancelled(op, e1.r);
      }
    }
  }

  /** Both sides are compared by the operands of one operator only. */
  lemma CancelIsOnePass(op: Op, e1: Expr, e2: Expr)
    requires ComparedBy(op, e1, e2)
    ensures var (f1, f2) := CancelOperands(op, e1, e2); Cancel(e1, e2) == (EliminateYn(f1), EliminateYn(f2))
  {
    CancelKeepsChain(op, e1, e2);
    if IsOp(op, e1) {
      if IsOp(Dual(op), e2) {
        CancelAgainstChain(op, e1, e2);
      } else if !IsOp(op, e2) {
        CancelAgainstOne(op, e1, e2);
      }
    } else if e1.Bin? {
      assert e1.op == Dual(op);
      CancelAgainstChain(e1.op, e1, e2);
    }
  }

  /** expr_eliminate_eq leaves on each side the operands the other side did not have, counted. */
  lemma CancelRemovesCommon(op: Op, e1: Expr, e2: Expr, x: Expr)
    requires ComparedBy(op, e1, e2) && Reduced(e1) && Reduced(e2) && Reduced(x)
    requires e1 != Absorbing(op) && e2 != Absorbing(op)
    ensures var (r1, r2) := Cancel(e1, e2); IsSurplus(op, e1, e2, r1, r2, x)
  {
    var (f1, f2) := CancelOperands(op, e1, e2);
    ChainOf(op, e1);
    ChainOf(op, e2);
    CancelIsOnePass(op, e1, e2);
    CancelLeavesSurplus(op, e1, e2, x);
    var n := Size(e1) + Size(e2);
    OperandsAreBelow(op, e1, n);
    OperandsAreBelow(op, e2, n);
    CancelKeepsReduced(op, e1, e2, n);
    EliminateYnKeepsOccurrences(op, f1, x);
    EliminateYnKeepsOccurrences(op, f2, x);
  }
}
