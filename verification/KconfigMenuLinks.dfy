/**
 The menu tree in memory: menu_finalize (scripts/kconfig/menu.c) works on next, list and parent
 pointers, and conf_write (scripts/kconfig/confdata.c) walks the result without a stack.
 */
module KconfigMenuLinks {
  import opened KconfigMenu

  datatype Ptr = Null | To(id: Id)

  /** The three pointers of struct menu. */
  datatype Links = Links(next: Ptr, list: Ptr, parent: Ptr)

  type Memory = map<Id, Links>

  function First(f: seq<Tree>, end: Ptr): Ptr {
    if f == [] then end else To(f[0].id)
  }

  /** The memory holds the entries f as a list that ends in end; every entry in the list has the
      parent pointer owner, and so on downwards. */
  ghost predicate Chain(mem: Memory, f: seq<Tree>, owner: Ptr, end: Ptr)
    decreases f
  {
    f == [] ||
    (&& f[0].id in mem
     && mem[f[0].id] == Links(First(f[1..], end), First(f[0].kids, Null), owner)
     && Chain(mem, f[0].kids, To(f[0].id), Null)
     && Chain(mem, f[1..], owner, end))
  }

  ghost predicate Distinct(s: seq<Id>) {
    forall i, j | 0 <= i < j < |s| :: s[i] != s[j]
  }

  /** The two memories differ at most at the given entries. */
  ghost predicate OnlyChanges(m: Memory, m': Memory, ids: seq<Id>) {
    m'.Keys == m.Keys && forall i <- m :: i in ids || m'[i] == m[i]
  }

  /** A list is not affected by changes elsewhere. */
  lemma {:induction false} ChainFrame(m: Memory, m': Memory, f: seq<Tree>, owner: Ptr, end: Ptr)
    requires Chain(m, f, owner, end) && m'.Keys == m.Keys && forall i <- Preorder(f) :: i in m && m'[i] == m[i]
    ensures Chain(m', f, owner, end)
    decreases f
  {
    if f != [] {
      assert f[0].id in Preorder(f) && forall i <- Preorder(f[0].kids) :: i in Preorder(f);
      assert forall i <- Preorder(f[1..]) :: i in Preorder(f);
      ChainFrame(m, m', f[0].kids, To(f[0].id), Null);
      ChainFrame(m, m', f[1..], owner, end);
    }
  }

  lemma {:induction false} ChainInMemory(m: Memory, f: seq<Tree>, owner: Ptr, end: Ptr)
    requires Chain(m, f, owner, end)
    ensures forall i <- Preorder(f) :: i in m
    decreases f
  {
    if f != [] {
      ChainInMemory(m, f[0].kids, To(f[0].id), Null);
      ChainInMemory(m, f[1..], owner, end);
    }
  }

  lemma {:induction false} ChainConcat(m: Memory, f: seq<Tree>, g: seq<Tree>, owner: Ptr, end: Ptr)
    ensures Chain(m, f + g, owner, end) <==> Chain(m, f, owner, First(g, end)) && Chain(m, g, owner, end)
    decreases f
  {
    if f == [] {
      assert f + g == g;
    } else {
      assert (f + g)[0] == f[0] && (f + g)[1..] == f[1..] + g;
      ChainConcat(m, f[1..], g, owner, end);
    }
  }

  lemma ChainCons(m: Memory, t: Tree, f: seq<Tree>, owner: Ptr, end: Ptr)
    ensures Chain(m, [t] + f, owner, end) <==>
              t.id in m && m[t.id] == Links(First(f, end), First(t.kids, Null), owner) &&
              Chain(m, t.kids, To(t.id), Null) && Chain(m, f, owner, end)
  {
    assert ([t] + f)[1..] == f;
  }

  lemma DistinctConcat(s: seq<Id>, t: seq<Id>)
    requires Distinct(s + t)
    ensures Distinct(s) && Distinct(t) && forall i <- s :: i !in t
  {
    forall i, j | 0 <= i < j < |s| ensures s[i] != s[j] { assert (s + t)[i] != (s + t)[j]; }
    forall i, j | 0 <= i < j < |t| ensures t[i] != t[j] { assert (s + t)[|s| + i] != (s + t)[|s| + j]; }
    forall i <- s ensures i !in t {
      var k :| 0 <= k < |s| && s[k] == i;
      forall j | 0 <= j < |t| ensures t[j] != i { assert (s + t)[k] != (s + t)[|s| + j]; }
    }
  }

  // ----- single pointer updates -----

  function SetNext(m: Memory, i: Id, p: Ptr): Memory
    requires i in m
  {
    m[i := m[i].(next := p)]
  }

  function SetList(m: Memory, i: Id, p: Ptr): Memory
    requires i in m
  {
    m[i := m[i].(list := p)]
  }

  function SetParent(m: Memory, i: Id, p: Ptr): Memory
    requires i in m
  {
    m[i := m[i].(parent := p)]
  }

  lemma LastInPreorder(f: seq<Tree>)
    requires f != []
    ensures f[|f| - 1].id in Preorder(f)
  {
    assert f == f[..|f| - 1] + [f[|f| - 1]];
    PreorderConcat(f[..|f| - 1], [f[|f| - 1]]);
    PreorderCons(f[|f| - 1], []);
    assert [f[|f| - 1]] + [] == [f[|f| - 1]];
  }

  /** Making the last entry of a list point elsewhere. */
  lemma {:induction false} ChainSetEnd(m: Memory, f: seq<Tree>, owner: Ptr, end: Ptr, end': Ptr)
    requires f != [] && Chain(m, f, owner, end) && Distinct(Preorder(f))
    ensures var last := f[|f| - 1].id; last in m && Chain(SetNext(m, last, end'), f, owner, end')
    decreases f
  {
    var t, last := f[0], f[|f| - 1].id;
    assert f == [t] + f[1..];
    PreorderCons(t, f[1..]);
    DistinctConcat([t.id] + Preorder(t.kids), Preorder(f[1..]));
    DistinctConcat([t.id], Preorder(t.kids));
    ChainInMemory(m, t.kids, To(t.id), Null);
    if |f| == 1 {
      ChainFrame(m, SetNext(m, last, end'), t.kids, To(t.id), Null);
    } else {
      ChainSetEnd(m, f[1..], owner, end, end');
      assert f[1..][|f| - 2] == f[|f| - 1];
      LastInPreorder(f[1..]);
      ChainFrame(m, SetNext(m, last, end'), t.kids, To(t.id), Null);
    }
  }

  /** Giving the first entry of a list another parent. */
  lemma ChainSetParent(m: Memory, t: Tree, f: seq<Tree>, owner: Ptr, end: Ptr, owner': Ptr)
    requires Chain(m, [t] + f, owner, end) && Distinct(Preorder([t] + f))
    ensures t.id in m
    ensures var m' := SetParent(m, t.id, owner'); Chain(m', [t], owner', First(f, end)) && Chain(m', f, owner, end)
  {
    ChainCons(m, t, f, owner, end);
    var m' := SetParent(m, t.id, owner');
    PreorderCons(t, f);
    DistinctConcat([t.id] + Preorder(t.kids), Preorder(f));
    DistinctConcat([t.id], Preorder(t.kids));
    ChainInMemory(m, t.kids, To(t.id), Null);
    ChainInMemory(m, f, owner, end);
    ChainFrame(m, m', t.kids, To(t.id), Null);
    ChainFrame(m, m', f, owner, end);
    ChainCons(m', t, [], owner', First(f, end));
    assert [t] + [] == [t];
  }

  // ----- a list in two parts -----

  /** The entries a, with parent pointer p, followed in the same list by the entries b, with parent
      pointer q. */
  ghost predicate TwoParts(m: Memory, a: seq<Tree>, p: Ptr, b: seq<Tree>, q: Ptr) {
    Chain(m, a, p, First(b, Null)) && Chain(m, b, q, Null) && Distinct(Preorder(a) + Preorder(b))
  }

  /** Changes within b that keep its first entry do not affect a. */
  lemma FirstPartStays(m: Memory, m': Memory, a: seq<Tree>, p: Ptr, b: seq<Tree>, q: Ptr, b': seq<Tree>)
    requires TwoParts(m, a, p, b, q) && OnlyChanges(m, m', Preorder(b)) && Chain(m', b', q, Null)
    requires First(b', Null) == First(b, Null) && Preorder(b') == Preorder(b)
    ensures TwoParts(m', a, p, b', q)
  {
    DistinctConcat(Preorder(a), Preorder(b));
    ChainInMemory(m, a, p, First(b, Null));
    ChainFrame(m, m', a, p, First(b, Null));
  }

  /** Moving the border behind the first entry of b, when that entry has the parent pointer p. */
  lemma MoveBorder(m: Memory, a: seq<Tree>, p: Ptr, t: Tree, b: seq<Tree>, q: Ptr)
    requires Chain(m, a, p, To(t.id)) && Chain(m, [t], p, First(b, Null)) && Chain(m, b, q, Null)
    requires Distinct(Preorder(a) + Preorder([t] + b))
    ensures TwoParts(m, a + [t], p, b, q)
    ensures Preorder(a + [t]) + Preorder(b) == Preorder(a) + Preorder([t] + b)
  {
    ChainConcat(m, a, [t], p, First(b, Null));
    PreorderConcat(a, [t]);
    PreorderConcat([t], b);
    assert Preorder(a) + (Preorder([t]) + Preorder(b)) == Preorder(a) + Preorder([t]) + Preorder(b);
  }

  /** Giving the first entry of b the parent pointer p, it joins a. */
  lemma AdoptFirst(m: Memory, a: seq<Tree>, p: Ptr, t: Tree, b: seq<Tree>, q: Ptr)
    requires TwoParts(m, a, p, [t] + b, q)
    ensures t.id in m && m[t.id].next == First(b, Null) && t.id in Preorder([t] + b)
    ensures TwoParts(SetParent(m, t.id, p), a + [t], p, b, q)
    ensures Preorder(a + [t]) + Preorder(b) == Preorder(a) + Preorder([t] + b)
  {
    DistinctConcat(Preorder(a), Preorder([t] + b));
    ChainCons(m, t, b, q, Null);
    PreorderCons(t, b);
    ChainSetParent(m, t, b, q, Null, p);
    var m' := SetParent(m, t.id, p);
    ChainInMemory(m, a, p, To(t.id));
    ChainFrame(m, m', a, p, To(t.id));
    MoveBorder(m', a, p, t, b, q);
  }

  /** The list f is being gone through: a is done, b is left, and only entries of f have changed. */
  ghost predicate Passing(m0: Memory, m: Memory, f: seq<Tree>, a: seq<Tree>, p: Ptr, b: seq<Tree>, q: Ptr) {
    TwoParts(m, a, p, b, q) && Preorder(a) + Preorder(b) == Preorder(f) && OnlyChanges(m0, m, Preorder(f))
  }

  lemma PassingStarts(m: Memory, f: seq<Tree>, p: Ptr, q: Ptr)
    requires Chain(m, f, q, Null) && Distinct(Preorder(f))
    ensures Passing(m, m, f, [], p, f, q)
  {
    assert Preorder([]) + Preorder(f) == Preorder(f);
  }

  lemma PassingEnds(m0: Memory, m: Memory, f: seq<Tree>, a: seq<Tree>, p: Ptr, q: Ptr)
    requires Passing(m0, m, f, a, p, [], q)
    ensures Chain(m, a, p, Null) && Distinct(Preorder(a)) && Preorder(a) == Preorder(f)
    ensures OnlyChanges(m0, m, Preorder(f))
  {
    assert Preorder(a) + Preorder([]) == Preorder(a);
  }

  /** One entry of the rest joins the part that is done. */
  lemma PassingAdopts(m0: Memory, m: Memory, f: seq<Tree>, a: seq<Tree>, p: Ptr, b: seq<Tree>, q: Ptr)
    requires Passing(m0, m, f, a, p, b, q) && b != []
    ensures b[0].id in m && m[b[0].id].next == First(b[1..], Null)
    ensures Passing(m0, SetParent(m, b[0].id, p), f, a + [b[0]], p, b[1..], q)
  {
    assert b == [b[0]] + b[1..];
    AdoptFirst(m, a, p, b[0], b[1..], q);
    assert forall i <- Preorder(b) :: i in Preorder(f);
  }

  /** The first n entries of the list have the parent pointer p. */
  ghost predicate Adopted(m0: Memory, m: Memory, f: seq<Tree>, n: nat, p: Ptr, q: Ptr) {
    n <= |f| && Passing(m0, m, f, f[..n], p, f[n..], q)
  }

  function AtOrNull(f: seq<Tree>, n: nat): Ptr {
    if n < |f| then To(f[n].id) else Null
  }

  lemma AdoptedStarts(m: Memory, f: seq<Tree>, p: Ptr, q: Ptr)
    requires Chain(m, f, q, Null) && Distinct(Preorder(f))
    ensures Adopted(m, m, f, 0, p, q)
  {
    PassingStarts(m, f, p, q);
    assert f[..0] == [] && f[0..] == f;
  }

  lemma AdoptedStep(m0: Memory, m: Memory, f: seq<Tree>, n: nat, p: Ptr, q: Ptr)
    requires Adopted(m0, m, f, n, p, q) && n < |f|
    ensures f[n].id in m && m[f[n].id].next == AtOrNull(f, n + 1)
    ensures Adopted(m0, SetParent(m, f[n].id, p), f, n + 1, p, q)
  {
    PassingAdopts(m0, m, f, f[..n], p, f[n..], q);
    assert f[..n + 1] == f[..n] + [f[n]] && f[n + 1..] == f[n..][1..];
  }

  lemma AdoptedEnds(m0: Memory, m: Memory, f: seq<Tree>, p: Ptr, q: Ptr)
    requires Adopted(m0, m, f, |f|, p, q)
    ensures Chain(m, f, p, Null) && OnlyChanges(m0, m, Preorder(f))
  {
    assert f[..|f|] == f && f[|f|..] == [];
    PassingEnds(m0, m, f, f, p, q);
  }

  /** One entry of the rest joins the part that is done as it is. */
  lemma PassingMoves(m0: Memory, m: Memory, f: seq<Tree>, a: seq<Tree>, p: Ptr, b: seq<Tree>)
    requires Passing(m0, m, f, a, p, b, p) && b != []
    ensures b[0].id in m && m[b[0].id].next == First(b[1..], Null)
    ensures Passing(m0, m, f, a + [b[0]], p, b[1..], p)
  {
    assert b == [b[0]] + b[1..];
    ChainConcat(m, [b[0]], b[1..], p, Null);
    MoveBorder(m, a, p, b[0], b[1..], p);
  }

  /** The rest may be changed, as long as its first entry stays in front and its order is kept. */
  lemma PassingChanges(m0: Memory, m: Memory, m': Memory, f: seq<Tree>, a: seq<Tree>, p: Ptr,
                       b: seq<Tree>, q: Ptr, b': seq<Tree>)
    requires Passing(m0, m, f, a, p, b, q) && OnlyChanges(m, m', Preorder(b)) && Chain(m', b', q, Null)
    requires First(b', Null) == First(b, Null) && Preorder(b') == Preorder(b)
    ensures Passing(m0, m', f, a, p, b', q)
  {
    FirstPartStays(m, m', a, p, b, q, b');
    assert forall i <- Preorder(b) :: i in Preorder(f);
  }

  /** One step of a loop over the list: the rest is changed, and its first entry joins the part that
      is done. */
  lemma PassingStep(m0: Memory, m: Memory, m': Memory, f: seq<Tree>, a: seq<Tree>, p: Ptr, b: seq<Tree>, b': seq<Tree>)
    requires Passing(m0, m, f, a, p, b, p) && OnlyChanges(m, m', Preorder(b)) && Chain(m', b', p, Null)
    requires b' != [] && First(b', Null) == First(b, Null) && Preorder(b') == Preorder(b)
    ensures b'[0].id in m' && m'[b'[0].id].next == First(b'[1..], Null)
    ensures Passing(m0, m', f, a + [b'[0]], p, b'[1..], p)
  {
    PassingChanges(m0, m, m', f, a, p, b, p, b');
    PassingMoves(m0, m', f, a, p, b');
  }

  lemma PassingAdoptsStep(m0: Memory, m: Memory, m': Memory, f: seq<Tree>, a: seq<Tree>, p: Ptr,
                          b: seq<Tree>, q: Ptr, b': seq<Tree>)
    requires Passing(m0, m, f, a, p, b, q) && OnlyChanges(m, m', Preorder(b)) && Chain(m', b', q, Null)
    requires b' != [] && First(b', Null) == First(b, Null) && Preorder(b') == Preorder(b)
    ensures b'[0].id in m' && SetParent(m', b'[0].id, p)[b'[0].id].next == First(b'[1..], Null)
    ensures Passing(m0, SetParent(m', b'[0].id, p), f, a + [b'[0]], p, b'[1..], q)
  {
    PassingChanges(m0, m, m', f, a, p, b, q, b');
    PassingAdopts(m0, m', f, a, p, b', q);
  }

  lemma Regroup(s: seq<Tree>, a: seq<Tree>, t: Tree, r: seq<Tree>, r': seq<Tree>)
    requires s == a + r && r == [t] + r'
    ensures s == a + [t] + r'
  {
  }

  // ----- pointers that change hands -----

  /** The three assignments that put the list of menu, which ends in last, behind menu. */
  function Spliced(m: Memory, menu: Id, last: Id): Memory
    requires menu in m && last in m
  {
    var m1 := SetNext(m, last, m[menu].next);
    var m2 := SetNext(m1, menu, m1[menu].list);
    SetList(m2, menu, Null)
  }

  lemma SplicedChain(m0: Memory, m: Memory, t: Tree, last: Id, rest: seq<Tree>, p: Ptr)
    requires Chain(m0, [t] + rest, p, Null) && Distinct(Preorder([t] + rest))
    requires t.kids != [] && last == t.kids[|t.kids| - 1].id
    requires OnlyChanges(m0, m, Preorder(t.kids)) && Chain(m, t.kids, p, Null)
    ensures t.id in m && last in m
    ensures Chain(Spliced(m, t.id, last), [Tree(t.id, [])] + (t.kids + rest), p, Null)
  {
    ChainCons(m0, t, rest, p, Null);
    PreorderCons(t, rest);
    DistinctConcat([t.id] + Preorder(t.kids), Preorder(rest));
    DistinctConcat([t.id], Preorder(t.kids));
    LastInPreorder(t.kids);
    assert t.id !in Preorder(t.kids) && t.id !in Preorder(rest) by { assert t.id in [t.id] + Preorder(t.kids); }
    assert last in [t.id] + Preorder(t.kids);
    var end := First(rest, Null);
    ChainSetEnd(m, t.kids, p, Null, end);
    var m1 := SetNext(m, last, end);
    var m' := Spliced(m, t.id, last);
    ChainInMemory(m1, t.kids, p, end);
    ChainFrame(m1, m', t.kids, p, end);
    ChainInMemory(m0, rest, p, Null);
    ChainFrame(m0, m', rest, p, Null);
    ChainConcat(m', t.kids, rest, p, Null);
    ChainCons(m', Tree(t.id, []), t.kids + rest, p, Null);
  }

  lemma SplicedOrder(t: Tree, rest: seq<Tree>)
    ensures Preorder([Tree(t.id, [])] + (t.kids + rest)) == Preorder([t] + rest)
  {
    PreorderCons(t, rest);
    PreorderCons(Tree(t.id, []), t.kids + rest);
    PreorderConcat(t.kids, rest);
  }

  lemma SplicedChanges(m0: Memory, m: Memory, t: Tree, last: Id, rest: seq<Tree>)
    requires OnlyChanges(m0, m, Preorder(t.kids)) && t.kids != [] && last == t.kids[|t.kids| - 1].id
    requires t.id in m && last in m
    ensures OnlyChanges(m0, Spliced(m, t.id, last), Preorder([t] + rest))
  {
    LastInPreorder(t.kids);
    ChangesWithin(m0, Spliced(m, t.id, last), t, rest);
  }

  lemma ChangesWithin(m: Memory, m': Memory, t: Tree, rest: seq<Tree>)
    requires m'.Keys == m.Keys && forall i <- m :: i == t.id || i in Preorder(t.kids) || m'[i] == m[i]
    ensures OnlyChanges(m, m', Preorder([t] + rest))
  {
    PreorderCons(t, rest);
    forall i <- m ensures i in Preorder([t] + rest) || m'[i] == m[i] {
      if i == t.id {
        assert Preorder([t] + rest)[0] == i;
      }
    }
  }

  /** The three assignments that make the entries between parent and the one behind last the list of
      parent. */
  function Taken(m: Memory, parent: Id, last: Id): Memory
    requires parent in m && last in m
  {
    var m1 := SetList(m, parent, m[parent].next);
    var m2 := SetNext(m1, parent, m1[last].next);
    SetNext(m2, last, Null)
  }

  lemma TakenChain(m0: Memory, m: Memory, parent: Id, rest: seq<Tree>, a: seq<Tree>, b: seq<Tree>, q: Ptr)
    requires parent in m0 && m0[parent] == Links(First(rest, Null), Null, q) && parent !in Preorder(rest)
    requires Passing(m0, m, rest, a, To(parent), b, q) && First(a, First(b, Null)) == First(rest, Null)
    ensures parent in m
    ensures a == [] ==> Chain(m, [Tree(parent, a)] + b, q, Null)
    ensures a != [] ==> a[|a| - 1].id in m && Chain(Taken(m, parent, a[|a| - 1].id), [Tree(parent, a)] + b, q, Null)
    ensures a != [] ==> OnlyChanges(m0, Taken(m, parent, a[|a| - 1].id), [parent] + Preorder(rest))
  {
    assert m[parent] == m0[parent];
    if a == [] {
      ChainCons(m, Tree(parent, a), b, q, Null);
    } else {
      TakenSome(m, parent, a, b, q);
      LastInPreorder(a);
      assert a[|a| - 1].id in Preorder(rest) by { assert a[|a| - 1].id in Preorder(a) + Preorder(b); }
    }
  }

  lemma TakenSome(m: Memory, parent: Id, a: seq<Tree>, b: seq<Tree>, q: Ptr)
    requires a != [] && TwoParts(m, a, To(parent), b, q)
    requires parent in m && parent !in Preorder(a) + Preorder(b) && m[parent] == Links(To(a[0].id), Null, q)
    ensures a[|a| - 1].id in m && Chain(Taken(m, parent, a[|a| - 1].id), [Tree(parent, a)] + b, q, Null)
  {
    var last := a[|a| - 1].id;
    var end := First(b, Null);
    DistinctConcat(Preorder(a), Preorder(b));
    LastInPreorder(a);
    LastPointsTo(m, a, To(parent), end);
    ChainSetEnd(m, a, To(parent), end, Null);
    var m1 := SetNext(m, last, Null);
    var m' := Taken(m, parent, last);
    ChainInMemory(m1, a, To(parent), Null);
    ChainFrame(m1, m', a, To(parent), Null);
    ChainInMemory(m, b, q, Null);
    ChainFrame(m, m', b, q, Null);
    ChainCons(m', Tree(parent, a), b, q, Null);
  }

  lemma LastPointsTo(m: Memory, f: seq<Tree>, owner: Ptr, end: Ptr)
    requires f != [] && Chain(m, f, owner, end)
    ensures f[|f| - 1].id in m && m[f[|f| - 1].id].next == end
  {
    var init, t := f[..|f| - 1], f[|f| - 1];
    assert f == init + [t] && [t] == [t] + [];
    ChainConcat(m, init, [t], owner, end);
    ChainCons(m, t, [], owner, end);
  }

  /** The list below the first entry may be changed. */
  lemma ListChanges(m: Memory, m': Memory, id: Id, f: seq<Tree>, f': seq<Tree>, rest: seq<Tree>, owner: Ptr)
    requires Chain(m, [Tree(id, f)] + rest, owner, Null) && Distinct(Preorder([Tree(id, f)] + rest))
    requires OnlyChanges(m, m', Preorder(f)) && Chain(m', f', To(id), Null) && First(f', Null) == First(f, Null)
    ensures Chain(m', [Tree(id, f')] + rest, owner, Null) && OnlyChanges(m, m', Preorder([Tree(id, f)] + rest))
  {
    ChainCons(m, Tree(id, f), rest, owner, Null);
    PreorderCons(Tree(id, f), rest);
    DistinctConcat([id] + Preorder(f), Preorder(rest));
    DistinctConcat([id], Preorder(f));
    ChainInMemory(m, rest, owner, Null);
    ChainFrame(m, m', rest, owner, Null);
    ChainCons(m', Tree(id, f'), rest, owner, Null);
  }

  lemma ListBelow(m: Memory, t: Tree, rest: seq<Tree>, owner: Ptr)
    requires Chain(m, [t] + rest, owner, Null) && Distinct(Preorder([t] + rest))
    ensures t.id in m && m[t.id].list == First(t.kids, Null) && m[t.id].next == First(rest, Null)
    ensures Chain(m, t.kids, To(t.id), Null) && Distinct(Preorder(t.kids))
  {
    ChainCons(m, t, rest, owner, Null);
    PreorderCons(t, rest);
    DistinctConcat([t.id] + Preorder(t.kids), Preorder(rest));
    DistinctConcat([t.id], Preorder(t.kids));
  }

  lemma EntriesBehind(m: Memory, t: Tree, rest: seq<Tree>, owner: Ptr)
    requires Chain(m, [t] + rest, owner, Null) && Distinct(Preorder([t] + rest))
    ensures t.id in m && m[t.id] == Links(First(rest, Null), First(t.kids, Null), owner)
    ensures t.id !in Preorder(rest) && Chain(m, rest, owner, Null) && Distinct(Preorder(rest))
  {
    ChainCons(m, t, rest, owner, Null);
    PreorderCons(t, rest);
    DistinctConcat([t.id] + Preorder(t.kids), Preorder(rest));
    assert t.id in [t.id] + Preorder(t.kids);
  }

  lemma RestIsDistinct(m: Memory, a: seq<Tree>, p: Ptr, b: seq<Tree>, q: Ptr)
    requires TwoParts(m, a, p, b, q)
    ensures Distinct(Preorder(b))
  {
    DistinctConcat(Preorder(a), Preorder(b));
  }

  // ----- one step of the loops, on trees -----

  /** The list f after its first entry has been finalized. */
  function FinalizeFirst(x: Facts, f: seq<Tree>): (r: seq<Tree>)
    requires f != []
    ensures r != [] && r[0].id == f[0].id
  {
    var (t, rest) := Finalize(x, f[0], f[1..]);
    [t] + rest
  }

  lemma FinalizeFirstFacts(x: Facts, f: seq<Tree>)
    requires f != []
    ensures var r := FinalizeFirst(x, f);
            && Preorder(r) == Preorder(f)
            && FinalizeAll(x, f) == [r[0]] + FinalizeAll(x, r[1..])
            && Count([f[0]]) + Count(f[1..]) == Count(f)
            && Count(r[1..]) < Count(f)
  {
    var (t, rest) := Finalize(x, f[0], f[1..]);
    FinalizeKeepsOrder(x, f[0], f[1..]);
    assert [f[0]] + f[1..] == f && ([t] + rest)[1..] == rest;
    CountSplit(f);
    CountOne(t);
  }

  /** Of the entries behind p, a have been taken up and b are left to look at. */
  ghost predicate Absorbed(x: Facts, p: Id, rest: seq<Tree>, a: seq<Tree>, b: seq<Tree>) {
    Absorb(x, p, rest).0 == a + Absorb(x, p, b).0 && Absorb(x, p, rest).1 == Absorb(x, p, b).1
  }

  lemma AbsorbedStep(x: Facts, p: Id, rest: seq<Tree>, a: seq<Tree>, b: seq<Tree>)
    requires Absorbed(x, p, rest, a, b) && b != [] && x.nests(p, b[0].id)
    ensures var b' := FinalizeFirst(x, b); Absorbed(x, p, rest, a + [b'[0]], b'[1..])
  {
    var b' := FinalizeFirst(x, b);
    AbsorbFirst(x, p, b);
    Regroup(Absorb(x, p, rest).0, a, b'[0], Absorb(x, p, b).0, Absorb(x, p, b'[1..]).0);
  }

  lemma AbsorbFirst(x: Facts, p: Id, b: seq<Tree>)
    requires b != [] && x.nests(p, b[0].id)
    ensures var b' := FinalizeFirst(x, b);
            && Absorb(x, p, b).0 == [b'[0]] + Absorb(x, p, b'[1..]).0
            && Absorb(x, p, b).1 == Absorb(x, p, b'[1..]).1
  {
    var (t, left) := Finalize(x, b[0], b[1..]);
    assert ([t] + left)[1..] == left;
  }

  lemma AbsorbedEnds(x: Facts, p: Id, rest: seq<Tree>, a: seq<Tree>, b: seq<Tree>)
    requires Absorbed(x, p, rest, a, b) && (b == [] || !x.nests(p, b[0].id))
    ensures Absorb(x, p, rest) == (a, b)
  {
    assert a + [] == a;
  }

  // ----- the program -----

  class Menus {
    const x: Facts
    var mem: Memory

    constructor (x: Facts, mem: Memory)
      ensures this.x == x && this.mem == mem
    {
      this.x := x;
      this.mem := mem;
    }

    /** The inner loop of the flattening: the entries in the list of menu get the parent pointer p. */
    method Adopt(menu: Id, p: Ptr, ghost kids: seq<Tree>) returns (last: Id)
      requires menu in mem && mem[menu].list == First(kids, Null) && kids != []
      requires Chain(mem, kids, To(menu), Null) && Distinct(Preorder(kids))
      modifies this
      ensures Chain(mem, kids, p, Null) && last == kids[|kids| - 1].id
      ensures OnlyChanges(old(mem), mem, Preorder(kids))
    {
      last := mem[menu].list.id;
      ghost var n := 0;
      AdoptedStarts(mem, kids, p, To(menu));
      while true
        invariant 0 <= n < |kids| && last == kids[n].id
        invariant Adopted(old(mem), mem, kids, n, p, To(menu))
        decreases |kids| - n
      {
        AdoptedStep(old(mem), mem, kids, n, p, To(menu));
        mem := SetParent(mem, last, p);
        n := n + 1;
        assert mem[last].next == AtOrNull(kids, n);
        if mem[last].next == Null {
          break;
        }
        last := mem[last].next.id;
      }
      assert n == |kids|;
      AdoptedEnds(old(mem), mem, kids, p, To(menu));
    }

    /** The body of the flattening loop: the list below an entry without a prompt moves up behind it. */
    method FlattenEntry(parent: Id, menu: Id, ghost b: seq<Tree>) returns (ghost b': seq<Tree>)
      requires b != [] && menu == b[0].id && Chain(mem, b, To(parent), Null) && Distinct(Preorder(b))
      modifies this
      ensures Chain(mem, b', To(parent), Null) && OnlyChanges(old(mem), mem, Preorder(b))
      ensures Preorder(b') == Preorder(b) && b' != [] && b'[0].id == menu
      ensures Flatten(x, b) == [b'[0]] + Flatten(x, b'[1..]) && Count(b'[1..]) < Count(b)
    {
      b' := b;
      if mem[menu].list != Null && !x.hasPrompt(menu) {
        ghost var t, rest := b[0], b[1..];
        assert b == [t] + rest;
        ListBelow(mem, t, rest, To(parent));
        var last := Adopt(menu, To(parent), t.kids);
        SplicedChain(old(mem), mem, t, last, rest, To(parent));
        SplicedChanges(old(mem), mem, t, last, rest);
        SplicedOrder(t, rest);
        mem := SetNext(mem, last, mem[menu].next);
        mem := SetNext(mem, menu, mem[menu].list);
        mem := SetList(mem, menu, Null);
        b' := [Tree(menu, [])] + (t.kids + rest);
        CountConcat(t.kids, rest);
        assert b'[1..] == t.kids + rest;
      }
    }

    /** The loop that flattens the list of parent. */
    method FlattenChildren(parent: Id, ghost kids: seq<Tree>)
      requires parent in mem && mem[parent].list == First(kids, Null)
      requires Chain(mem, kids, To(parent), Null) && Distinct(Preorder(kids))
      modifies this
      ensures Chain(mem, Flatten(x, kids), To(parent), Null)
      ensures OnlyChanges(old(mem), mem, Preorder(kids))
    {
      var menu := mem[parent].list;
      ghost var a, b: seq<Tree> := [], kids;
      PassingStarts(mem, kids, To(parent), To(parent));
      while menu != Null
        invariant menu == First(b, Null)
        invariant Passing(old(mem), mem, kids, a, To(parent), b, To(parent))
        invariant Flatten(x, kids) == a + Flatten(x, b)
        decreases Count(b)
      {
        RestIsDistinct(mem, a, To(parent), b, To(parent));
        ghost var m := mem;
        ghost var b' := FlattenEntry(parent, menu.id, b);
        PassingStep(old(mem), m, mem, kids, a, To(parent), b, b');
        Regroup(Flatten(x, kids), a, b'[0], Flatten(x, b), Flatten(x, b'[1..]));
        menu := mem[menu.id].next;
        a, b := a + [b'[0]], b'[1..];
      }
      PassingEnds(old(mem), mem, kids, a, To(parent), To(parent));
      assert Flatten(x, kids) == a;
    }

    /** The loop that finalizes the entries in the list of parent. */
    method FinalizeChildren(parent: Id, ghost kids: seq<Tree>)
      requires parent in mem && mem[parent].list == First(kids, Null)
      requires Chain(mem, kids, To(parent), Null) && Distinct(Preorder(kids))
      modifies this
      ensures Chain(mem, FinalizeAll(x, kids), To(parent), Null)
      ensures OnlyChanges(old(mem), mem, Preorder(kids))
      decreases Count(kids), 2
    {
      var menu := mem[parent].list;
      ghost var a, b: seq<Tree> := [], kids;
      PassingStarts(mem, kids, To(parent), To(parent));
      while menu != Null
        invariant menu == First(b, Null)
        invariant Passing(old(mem), mem, kids, a, To(parent), b, To(parent))
        invariant FinalizeAll(x, kids) == a + FinalizeAll(x, b)
        invariant Count(b) <= Count(kids)
        decreases Count(b)
      {
        RestIsDistinct(mem, a, To(parent), b, To(parent));
        ghost var m := mem;
        ghost var b' := FinalizeFirst(x, b);
        FinalizeFirstFacts(x, b);
        MenuFinalize(menu.id, b[0], b[1..], To(parent));
        PassingStep(old(mem), m, mem, kids, a, To(parent), b, b');
        Regroup(FinalizeAll(x, kids), a, b'[0], FinalizeAll(x, b), FinalizeAll(x, b'[1..]));
        menu := mem[menu.id].next;
        a, b := a + [b'[0]], b'[1..];
      }
      PassingEnds(old(mem), mem, kids, a, To(parent), To(parent));
      assert FinalizeAll(x, kids) == a;
    }

    /** The loop over the entries behind parent that nest below it. */
    method AbsorbEntries(parent: Id, ghost rest: seq<Tree>, ghost owner: Ptr)
      returns (last: Ptr, ghost a: seq<Tree>, ghost b: seq<Tree>)
      requires parent in mem && mem[parent].next == First(rest, Null)
      requires Chain(mem, rest, owner, Null) && Distinct(Preorder(rest))
      modifies this
      ensures Absorb(x, parent, rest) == (a, b) && First(a, First(b, Null)) == First(rest, Null)
      ensures last == if a == [] then Null else To(a[|a| - 1].id)
      ensures Passing(old(mem), mem, rest, a, To(parent), b, owner)
      decreases Count(rest), 2
    {
      var menu := mem[parent].next;
      last := Null;
      a, b := [], rest;
      PassingStarts(mem, rest, To(parent), owner);
      while menu != Null
        invariant menu == First(b, Null) && First(a, First(b, Null)) == First(rest, Null)
        invariant last == if a == [] then Null else To(a[|a| - 1].id)
        invariant Passing(old(mem), mem, rest, a, To(parent), b, owner)
        invariant Absorbed(x, parent, rest, a, b)
        invariant Count(b) <= Count(rest)
        decreases Count(b)
      {
        if !x.nests(parent, menu.id) {
          break;
        }
        RestIsDistinct(mem, a, To(parent), b, owner);
        ghost var m := mem;
        ghost var b' := FinalizeFirst(x, b);
        FinalizeFirstFacts(x, b);
        MenuFinalize(menu.id, b[0], b[1..], owner);
        PassingAdoptsStep(old(mem), m, mem, rest, a, To(parent), b, owner, b');
        mem := SetParent(mem, menu.id, To(parent));
        AbsorbedStep(x, parent, rest, a, b);
        last := menu;
        menu := mem[menu.id].next;
        a, b := a + [b'[0]], b'[1..];
      }
      AbsorbedEnds(x, parent, rest, a, b);
    }

    /** The entries behind parent that nest below it become its list. */
    method AbsorbFollowing(parent: Id, ghost rest: seq<Tree>, ghost owner: Ptr)
      requires parent in mem && mem[parent] == Links(First(rest, Null), Null, owner) && parent !in Preorder(rest)
      requires Chain(mem, rest, owner, Null) && Distinct(Preorder(rest))
      modifies this
      ensures var (taken, left) := Absorb(x, parent, rest); Chain(mem, [Tree(parent, taken)] + left, owner, Null)
      ensures OnlyChanges(old(mem), mem, [parent] + Preorder(rest))
      decreases Count(rest), 3
    {
      ghost var a, b: seq<Tree>;
      var last;
      last, a, b := AbsorbEntries(parent, rest, owner);
      TakenChain(old(mem), mem, parent, rest, a, b, owner);
      if last != Null {
        mem := SetList(mem, parent, mem[parent].next);
        mem := SetNext(mem, parent, mem[last.id].next);
        mem := SetNext(mem, last.id, Null);
      }
    }

    /** The first part of menu_finalize: the list of parent is finalized or, where there is none, made
        up of the entries behind parent that nest below it. */
    method CollectChildren(parent: Id, ghost t: Tree, ghost rest: seq<Tree>, ghost owner: Ptr)
      returns (ghost kids: seq<Tree>, ghost left: seq<Tree>)
      requires parent == t.id && Chain(mem, [t] + rest, owner, Null) && Distinct(Preorder([t] + rest))
      modifies this
      ensures Chain(mem, [Tree(parent, kids)] + left, owner, Null)
      ensures Preorder([Tree(parent, kids)] + left) == Preorder([t] + rest)
      ensures Finalize(x, t, rest) == (Tree(parent, Flatten(x, kids)), left)
      ensures OnlyChanges(old(mem), mem, Preorder([t] + rest))
      decreases Count([t]) + Count(rest), 0
    {
      ListBelow(mem, t, rest, owner);
      EntriesBehind(mem, t, rest, owner);
      CountOne(t);
      kids, left := t.kids, rest;
      if mem[parent].list != Null {
        FinalizeChildren(parent, t.kids);
        kids := FinalizeAll(x, t.kids);
        ListChanges(old(mem), mem, parent, t.kids, kids, rest, owner);
        FinalizeAllKeepsOrder(x, t.kids);
      } else if x.hasSymbol(parent) {
        AbsorbFollowing(parent, rest, owner);
        kids, left := Absorb(x, parent, rest).0, Absorb(x, parent, rest).1;
        AbsorbKeepsOrder(x, parent, rest);
        PreorderCons(t, rest);
      }
      SameOrder(t, rest, Tree(parent, kids), left);
    }

    /** menu_finalize. */
    method MenuFinalize(parent: Id, ghost t: Tree, ghost rest: seq<Tree>, ghost owner: Ptr)
      requires parent == t.id && Chain(mem, [t] + rest, owner, Null) && Distinct(Preorder([t] + rest))
      modifies this
      ensures var (t', rest') := Finalize(x, t, rest); Chain(mem, [t'] + rest', owner, Null)
      ensures OnlyChanges(old(mem), mem, Preorder([t] + rest))
      decreases Count([t]) + Count(rest), 1
    {
      ghost var kids, left := CollectChildren(parent, t, rest, owner);
      ghost var m := mem;
      ListBelow(mem, Tree(parent, kids), left, owner);
      FlattenChildren(parent, kids);
      ListChanges(m, mem, parent, kids, Flatten(x, kids), left, owner);
    }
  }
}
