/**
 Slots in a chain of equal operators. The duplicate eliminator walks one chain with two slot
 pointers that both start at its root, so a slot is modelled as a path into one shared tree.
 */
module KconfigChain {
  import opened KconfigExpr

  datatype Dir = L | R
  type Path = seq<Dir>

  function Child(e: Expr, d: Dir): Expr
    requires e.Bin?
  {
    if d.L? then e.l else e.r
  }

  /** p leads through op nodes only, so it names a slot of the op-chain e. */
  predicate OnChain(op: Op, e: Expr, p: Path) {
    p == [] || (IsOp(op, e) && OnChain(op, Child(e, p[0]), p[1..]))
  }

  function At(op: Op, e: Expr, p: Path): Expr
    requires OnChain(op, e, p)
  {
    if p == [] then e else At(op, Child(e, p[0]), p[1..])
  }

  function Put(op: Op, e: Expr, p: Path, x: Expr): Expr
    requires OnChain(op, e, p)
  {
    if p == [] then x
    else if p[0].L? then Bin(op, Put(op, e.l, p[1..], x), e.r)
    else Bin(op, e.l, Put(op, e.r, p[1..], x))
  }

  /** The value of everything in the chain but slot p. */
  function Rest(op: Op, e: Expr, p: Path, env: Env): Tri
    requires OnChain(op, e, p)
  {
    if p == [] then Unit(op)
    else Combine(op, Rest(op, Child(e, p[0]), p[1..], env), Value(if p[0].L? then e.r else e.l, env))
  }

  lemma {:induction false} PutValue(op: Op, e: Expr, p: Path, x: Expr, env: Env)
    requires OnChain(op, e, p)
    ensures Value(Put(op, e, p, x), env) == Combine(op, Value(x, env), Rest(op, e, p, env))
  {
    if p != [] { PutValue(op, Child(e, p[0]), p[1..], x, env); }
  }

  lemma {:induction false} PutAt(op: Op, e: Expr, p: Path)
    requires OnChain(op, e, p)
    ensures Put(op, e, p, At(op, e, p)) == e
  {
    if p != [] { PutAt(op, Child(e, p[0]), p[1..]); }
  }

  lemma AtValue(op: Op, e: Expr, p: Path, env: Env)
    requires OnChain(op, e, p)
    ensures Value(e, env) == Combine(op, Value(At(op, e, p), env), Rest(op, e, p, env))
  {
    PutAt(op, e, p);
    PutValue(op, e, p, At(op, e, p), env);
  }

  lemma {:induction false} PutSize(op: Op, e: Expr, p: Path, x: Expr)
    requires OnChain(op, e, p)
    ensures Size(Put(op, e, p, x)) + Size(At(op, e, p)) == Size(e) + Size(x)
    ensures p != [] ==> Size(At(op, e, p)) < Size(e)
  {
    if p != [] { PutSize(op, Child(e, p[0]), p[1..], x); }
  }

  lemma {:induction false} ChainNoMod(op: Op, e: Expr, p: Path, x: Expr, env: Env)
    requires OnChain(op, e, p) && NoMod(e, env)
    ensures NoMod(At(op, e, p), env)
    ensures NoMod(x, env) ==> NoMod(Put(op, e, p, x), env)
  {
    if p != [] { ChainNoMod(op, Child(e, p[0]), p[1..], x, env); }
  }

  /** The chains have op nodes at the same places. */
  predicate SameChain(op: Op, e: Expr, e': Expr) {
    if IsOp(op, e) then IsOp(op, e') && SameChain(op, e.l, e'.l) && SameChain(op, e.r, e'.r)
    else !IsOp(op, e')
  }

  lemma {:induction false} SameChainReflexive(op: Op, e: Expr)
    ensures SameChain(op, e, e)
  {
    if IsOp(op, e) { SameChainReflexive(op, e.l); SameChainReflexive(op, e.r); }
  }

  lemma {:induction false} SameChainTransitive(op: Op, a: Expr, b: Expr, c: Expr)
    requires SameChain(op, a, b) && SameChain(op, b, c)
    ensures SameChain(op, a, c)
  {
    if IsOp(op, a) { SameChainTransitive(op, a.l, b.l, c.l); SameChainTransitive(op, a.r, b.r, c.r); }
  }

  lemma {:induction false} SameChainSlot(op: Op, e: Expr, e': Expr, p: Path)
    requires SameChain(op, e, e') && OnChain(op, e, p)
    ensures OnChain(op, e', p) && SameChain(op, At(op, e, p), At(op, e', p))
  {
    if p != [] { SameChainSlot(op, Child(e, p[0]), Child(e', p[0]), p[1..]); }
  }

  /** Replacing an operand by an operand keeps the chain. */
  lemma {:induction false} PutSameChain(op: Op, e: Expr, p: Path, x: Expr)
    requires OnChain(op, e, p) && !IsOp(op, At(op, e, p)) && !IsOp(op, x)
    ensures SameChain(op, e, Put(op, e, p, x))
    ensures OnChain(op, Put(op, e, p, x), p) && At(op, Put(op, e, p, x), p) == x
  {
    if p != [] {
      PutSameChain(op, Child(e, p[0]), p[1..], x);
      SameChainReflexive(op, if p[0].L? then e.r else e.l);
    }
  }

  /** Replacing one operand leaves every other operand alone. */
  lemma {:induction false} PutElsewhere(op: Op, e: Expr, p: Path, q: Path, x: Expr)
    requires OnChain(op, e, p) && OnChain(op, e, q) && p != q
    requires !IsOp(op, At(op, e, p)) && !IsOp(op, At(op, e, q)) && !IsOp(op, x)
    ensures OnChain(op, Put(op, e, p, x), q) && At(op, Put(op, e, p, x), q) == At(op, e, q)
  {
    if p != [] && q != [] && p[0] == q[0] {
      assert p == [p[0]] + p[1..] && q == [q[0]] + q[1..];
      PutElsewhere(op, Child(e, p[0]), p[1..], q[1..], x);
    }
  }

  /** A constant y or n in a proper slot is there for the constant remover to take. */
  lemma {:induction false} PutConstant(op: Op, e: Expr, p: Path, x: Expr)
    requires OnChain(op, e, p) && p != [] && (x == YES || x == NO || HasConstantOperand(x))
    ensures HasConstantOperand(Put(op, e, p, x))
  {
    if |p| > 1 { PutConstant(op, Child(e, p[0]), p[1..], x); }
  }

  lemma {:induction false} AtExtend(op: Op, e: Expr, p: Path, d: Dir)
    requires OnChain(op, e, p) && IsOp(op, At(op, e, p))
    ensures OnChain(op, e, p + [d]) && At(op, e, p + [d]) == Child(At(op, e, p), d)
  {
    if p == [] {
    } else {
      assert (p + [d])[1..] == p[1..] + [d];
      AtExtend(op, Child(e, p[0]), p[1..], d);
    }
  }

  /** Number of op nodes at the top of e. */
  function ChainSize(op: Op, e: Expr): nat {
    if IsOp(op, e) then 1 + ChainSize(op, e.l) + ChainSize(op, e.r) else 0
  }

  lemma {:induction false} SameChainSize(op: Op, e: Expr, e': Expr)
    requires SameChain(op, e, e')
    ensures ChainSize(op, e) == ChainSize(op, e')
  {
    if IsOp(op, e) { SameChainSize(op, e.l, e'.l); SameChainSize(op, e.r, e'.r); }
  }
}
