/**
 The menu tree with the nesting test of menu_finalize (scripts/kconfig/menu.c) put in: what it means
 for an entry to have been nested below another, and where that goes wrong.
 */
module KconfigNesting {
  import opened Options
  import opened KconfigExpr
  import opened KconfigEq
  import opened KconfigTransform
  import opened KconfigJoin
  import opened KconfigDups
  import opened KconfigFixpoint
  import opened KconfigImplied
  import opened KconfigCompare
  import opened KconfigVisibility
  import opened KconfigMenu

  datatype Prompt = Prompt(visible: Option<Expr>, hasText: bool)

  /** What menu_finalize looks at in an entry: its symbol, its prompt and its dependencies. */
  datatype Entry = Entry(sym: Option<Symbol>, prompt: Option<Prompt>, dep: Option<Expr>)

  /** The visibility that an outer entry is tested with. */
  function OuterVisibility(e: Entry): Option<Expr> {
    if e.prompt.Some? then e.prompt.value.visible else None
  }

  /** The visibility that an entry behind it is tested with. */
  function InnerVisibility(e: Entry): Option<Expr> {
    if e.prompt.Some? then e.prompt.value.visible else e.dep
  }

  predicate NestsBelow(outer: Entry, inner: Entry) {
    outer.sym.Some? && Nests(OuterVisibility(outer), outer.sym.value, InnerVisibility(inner))
  }

  function FactsOf(entries: Id -> Entry): Facts {
    Facts((i: Id) => entries(i).sym.Some?,
          (i: Id) => entries(i).prompt.Some? && entries(i).prompt.value.hasText,
          (p: Id, i: Id) => NestsBelow(entries(p), entries(i)))
  }

  /** What nesting promises of an entry: it is visible only when the outer symbol is set, if it depends
      on that. Otherwise it is read as visible only when the outer entry is; and if both visibilities are
      built from boolean and tristate symbols, it is y, or read as visible, only when the outer entry is
      visible. */
  ghost predicate Implies(inner: Entry, outer: Entry, env: Env) {
    outer.sym.Some? && InnerVisibility(inner).Some? &&
    var dep, base := InnerVisibility(inner), OuterVisibility(outer);
    if Depends(dep.value, outer.sym.value) then IsVisible(dep, env) ==> IsSet(outer.sym.value, env)
    else
      && (ReadAsVisible(dep, env) ==> ReadAsVisible(base, env))
      && (LogicalOrMissing(dep) && LogicalOrMissing(base) ==>
            (ReadAsVisible(dep, env) || Value(dep.value, env) == 2 ==> IsVisible(base, env)))
  }

  lemma NestedImplies(outer: Entry, inner: Entry, env: Env)
    requires Valid(env) && NestsBelow(outer, inner)
    ensures Implies(inner, outer, env)
  {
    var dep, base := InnerVisibility(inner), OuterVisibility(outer);
    NestingIsImplication(base, outer.sym.value, dep, env);
    if !Depends(dep.value, outer.sym.value) {
      NestingImpliesVisible(base, outer.sym.value, dep, env);
    }
  }

  /** The entries that menu_finalize takes up below the symbol entry t are in its list in the finished
      tree, each implies t under every assignment, and the entry that stays behind t does not nest. */
  lemma TakenEntriesImply(entries: Id -> Entry, t: Tree, rest: seq<Tree>, u: Tree, env: Env) returns (k: nat)
    requires Valid(env) && t.kids == [] && entries(t.id).sym.Some?
    requires u in Absorb(FactsOf(entries), t.id, rest).0
    ensures var (t', rest') := Finalize(FactsOf(entries), t, rest);
            && k < |t'.kids| && t'.kids[k].id == u.id
            && Implies(entries(u.id), entries(t.id), env)
            && (rest' == [] || !NestsBelow(entries(t.id), entries(rest'[0].id)))
  {
    var x := FactsOf(entries);
    AbsorbIsMaximal(x, t.id, rest);
    NestedImplies(entries(t.id), entries(u.id), env);
    k := FlattenKeepsEntries(x, Absorb(x, t.id, rest).0, u);
  }

  // ----- which entries are taken up -----

  /** Whatever the visibility of the symbol's own entry: an entry right behind it that has the symbol
      among the operands of its prompt's visibility, or of its dependencies if it has no prompt, is the
      first of the symbol's list in the finished tree. */
  lemma DependentEntryIsTaken(entries: Id -> Entry, s: Symbol, t: Tree, rest: seq<Tree>, v: Expr)
    requires t.kids == [] && entries(t.id).sym == Some(s) && rest != []
    requires var u := entries(rest[0].id); Some(v) == if u.prompt.Some? then u.prompt.value.visible else u.dep
    requires || AndOperand(v, Sym(s)) || AndOperand(v, Cmp(true, s, SymbolYes))
             || AndOperand(v, Cmp(true, s, SymbolMod)) || AndOperand(v, Cmp(false, s, SymbolNo))
    ensures var t' := Finalize(FactsOf(entries), t, rest).0; t'.kids != [] && t'.kids[0].id == rest[0].id
  {
    RequiringSymbolNests(OuterVisibility(entries(t.id)), s, v);
    NextEntryIsTaken(FactsOf(entries), t, rest);
  }

  /** The entry right behind a symbol's is taken up exactly when its visibility v mentions the symbol, and
      either has the symbol among its operands or has all operands of the outer visibility, both in the
      form in which they are compared. */
  lemma NextEntryTakenExactly(entries: Id -> Entry, s: Symbol, t: Tree, rest: seq<Tree>, v: Expr, base: Option<Expr>)
    requires t.kids == [] && entries(t.id).sym == Some(s) && rest != []
    requires var u := entries(rest[0].id); Some(v) == if u.prompt.Some? then u.prompt.value.visible else u.dep
    requires var u := entries(t.id); base == if u.prompt.Some? then u.prompt.value.visible else None
    requires NoModTest(v) && NoModTestOrMissing(base)
    ensures var kids := Finalize(FactsOf(entries), t, rest).0.kids;
            && (kids != [] ==> kids[0].id == rest[0].id)
            && (kids != [] <==>
                  Contains(v, s) && (RequiresSymbol(v, s) || RequiresAll(Visibility(Some(v)), Visibility(base))))
  {
    NestsExactly(base, s, v);
    NextEntryIsTaken(FactsOf(entries), t, rest);
  }

  /** An entry with neither prompt nor dependencies, or with a prompt that is always visible, is not. */
  lemma UnconditionalIsNotTaken(entries: Id -> Entry, t: Tree, rest: seq<Tree>)
    requires t.kids == [] && entries(t.id).sym.Some? && rest != []
    requires var u := entries(rest[0].id); None == if u.prompt.Some? then u.prompt.value.visible else u.dep
    ensures Finalize(FactsOf(entries), t, rest) == (t, rest)
  {
    NextEntryIsTaken(FactsOf(entries), t, rest);
  }

  /** In the finished tree only entries whose prompt has a text have a list. */
  lemma ListsHaveText(entries: Id -> Entry, t: Tree, rest: seq<Tree>, k: Tree)
    requires k in Finalize(FactsOf(entries), t, rest).0.kids && k.kids != []
    ensures entries(k.id).prompt.Some? && entries(k.id).prompt.value.hasText
  {
    FinalizeHidesNothing(FactsOf(entries), t, rest);
    ListHasPrompt(FactsOf(entries), Finalize(FactsOf(entries), t, rest).0.kids, k);
  }

  /** Having all operands of the outer visibility is not enough: two visibilities that come down to the
      same single test are not compared, so an entry visible if !s does not nest below s with !s. */
  lemma EqualSingleTestsDoNotNest(s: Symbol)
    requires KindOf(s) == Tristate
    ensures var v := Some(Not(Sym(s)));
            && Contains(v.value, s) && HasOperandsOf(Visibility(v), Visibility(v)) && !Nests(v, s, v)
  {
    var e := Not(Sym(s));
    assert TransCompare(e, false, ToNo) == IsNo(s);
    VisibilityOfIsNo(s);
    assert Visibility(Some(e)) == IsNo(s);
    EqIsIdentity(IsNo(s), IsNo(s));
    assert AndOperand(IsNo(s), IsNo(s));
    NestsExactly(Some(e), s, e);
  }

  // ----- a nested entry that is visible below a hidden one -----

  /** !s && !a */
  function UnsetBoth(s: Symbol, a: Symbol): Expr {
    Bin(AndOp, Not(Sym(s)), Not(Sym(a)))
  }

  /** a = n */
  function IsNo(a: Symbol): Expr {
    Cmp(true, a, SymbolNo)
  }

  lemma VisibilityOfIsNo(a: Symbol)
    requires KindOf(a) == Tristate
    ensures Visibility(Some(IsNo(a))) == IsNo(a)
  {
    assert TransCompare(IsNo(a), false, ToNo) == IsNo(a);
    assert Transform(IsNo(a)) == IsNo(a);
  }

  lemma TransformOfNotSet(a: Symbol)
    requires KindOf(a) == Tristate
    ensures Transform(Not(Cmp(false, a, SymbolNo))) == IsNo(a)
  {
    assert TransformComparison(Cmp(false, a, SymbolNo)) == Cmp(false, a, SymbolNo);
  }

  lemma VisibilityOfUnsetBoth(s: Symbol, a: Symbol)
    requires KindOf(s) == Tristate && KindOf(a) == Tristate && s != a
    ensures Visibility(Some(UnsetBoth(s, a))) == Bin(AndOp, IsNo(s), IsNo(a))
  {
    var l, r := Cmp(false, s, SymbolNo), Cmp(false, a, SymbolNo);
    assert TransCompare(Not(Sym(s)), true, ToNo) == l && TransCompare(Not(Sym(a)), true, ToNo) == r;
    assert TransCompare(UnsetBoth(s, a), false, ToNo) == Not(Bin(OrOp, l, r));
    TransformOfNotSet(s);
    TransformOfNotSet(a);
    assert Transform(Not(Bin(OrOp, l, r))) == Bin(AndOp, IsNo(s), IsNo(a));
    EqIsIdentity(IsNo(s), IsNo(a));
    EqIsIdentity(IsNo(a), IsNo(s));
    PairIsQuiet(AndOp, IsNo(s), IsNo(a));
  }

  lemma UnsetBothNests(s: Symbol, a: Symbol)
    requires KindOf(s) == Tristate && KindOf(a) == Tristate && s != a
    ensures Nests(Some(IsNo(a)), s, Some(UnsetBoth(s, a))) && !Depends(UnsetBoth(s, a), s)
  {
    VisibilityOfIsNo(a);
    VisibilityOfUnsetBoth(s, a);
    var e1, e2 := Bin(AndOp, IsNo(s), IsNo(a)), IsNo(a);
    EqIsIdentity(IsNo(s), IsNo(a));
    EqIsIdentity(IsNo(a), IsNo(a));
    assert CancelOperands(AndOp, IsNo(s), e2) == (IsNo(s), e2);
    assert CancelOperands(AndOp, IsNo(a), e2) == (YES, YES);
    assert CancelOperands(AndOp, e1, e2) == (Bin(AndOp, IsNo(s), YES), YES);
    assert Cancel(e1, e2).1 == YES;
  }

  lemma UnsetBothValue(s: Symbol, a: Symbol, env: Env)
    requires Valid(env) && KindOf(a) == Tristate && env.tri(a) == 1 && env.tri(s) == 0
    ensures Value(UnsetBoth(s, a), env) == 1 && Value(IsNo(a), env) == 0
  {
    assert ValidSymbol(env, a) && ValidSymbol(env, SymbolNo);
    var x, y := Not(Sym(s)), Not(Sym(a));
    assert Value(Sym(s), env) == 0 && Value(Sym(a), env) == 1;
    assert Value(x, env) == 2 && Value(y, env) == 1;
    assert Value(Bin(AndOp, x, y), env) == Combine(AndOp, 2, 1);
  }

  /** An entry with the visibility !s && !a nests below the entry of s with the visibility a = n, but
      where a is m and s is n it is visible and the outer entry is not. */
  lemma NestingLosesMod(s: Symbol, a: Symbol, env: Env)
    requires Valid(env) && KindOf(s) == Tristate && KindOf(a) == Tristate && s != a
    requires env.tri(a) == 1 && env.tri(s) == 0
    ensures Nests(Some(IsNo(a)), s, Some(UnsetBoth(s, a))) && !Depends(UnsetBoth(s, a), s)
    ensures Value(UnsetBoth(s, a), env) == 1 && Value(IsNo(a), env) == 0
    ensures !ReadsRight(UnsetBoth(s, a), ToNo, env)
  {
    UnsetBothNests(s, a);
    UnsetBothValue(s, a, env);
    NestingImpliesVisible(Some(IsNo(a)), s, Some(UnsetBoth(s, a)), env);
  }
}
