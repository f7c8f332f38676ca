/**
 The menu tree: how menu_finalize (scripts/kconfig/menu.c) re-links it, on trees.
 */
module KconfigMenu {

  type Id = nat

  datatype Tree = Tree(id: Id, kids: seq<Tree>)

  /** What menu_finalize asks about entries: has it a symbol, has it a prompt with a text, and does
      the second entry nest below the first (the dependency test). The answers do not matter here. */
  datatype Facts = Facts(hasSymbol: Id -> bool, hasPrompt: Id -> bool, nests: (Id, Id) -> bool)

  function Count(f: seq<Tree>): nat {
    if f == [] then 0 else 1 + Count(f[0].kids) + Count(f[1..])
  }

  /** The entries in the order in which they appear in the source. */
  function Preorder(f: seq<Tree>): seq<Id> {
    if f == [] then [] else [f[0].id] + Preorder(f[0].kids) + Preorder(f[1..])
  }

  /** menu_finalize of the first entry of a list, given the entries behind it: the finished entry and
      the entries still behind it. */
  function Finalize(x: Facts, t: Tree, rest: seq<Tree>): (r: (Tree, seq<Tree>))
    ensures Count([r.0]) + Count(r.1) == Count([t]) + Count(rest) && Count(r.1) <= Count(rest)
    ensures r.0.id == t.id
    decreases Count([t]) + Count(rest), 0
  {
    CountOne(t);
    if t.kids != [] then
      var kids := FinalizeAll(x, t.kids);
      var r := Tree(t.id, Flatten(x, kids));
      CountOne(r);
      (r, rest)
    else if x.hasSymbol(t.id) then
      var (taken, left) := Absorb(x, t.id, rest);
      var r := Tree(t.id, Flatten(x, taken));
      CountOne(r);
      (r, left)
    else (t, rest)
  }

  /** The loop that finalizes the entries of a list; each may take up some of those behind it. */
  function FinalizeAll(x: Facts, f: seq<Tree>): (r: seq<Tree>)
    ensures Count(r) == Count(f)
    decreases Count(f), 1
  {
    if f == [] then []
    else
      CountSplit(f);
      var (t, rest) := Finalize(x, f[0], f[1..]);
      CountOne(t);
      var more := FinalizeAll(x, rest);
      assert ([t] + more)[1..] == more;
      [t] + more
  }

  /** The loop over the following entries that nest below p. */
  function Absorb(x: Facts, p: Id, rest: seq<Tree>): (r: (seq<Tree>, seq<Tree>))
    ensures Count(r.0) + Count(r.1) == Count(rest)
    decreases Count(rest), 1
  {
    if rest == [] || !x.nests(p, rest[0].id) then ([], rest)
    else
      CountSplit(rest);
      var (t, left) := Finalize(x, rest[0], rest[1..]);
      CountOne(t);
      var (more, left') := Absorb(x, p, left);
      assert ([t] + more)[1..] == more;
      ([t] + more, left')
  }

  /** The last loop: the entries below an entry without a prompt move up behind it. */
  function Flatten(x: Facts, f: seq<Tree>): (r: seq<Tree>)
    ensures Count(r) == Count(f)
    decreases Count(f), |f|
  {
    if f == [] then []
    else if f[0].kids != [] && !x.hasPrompt(f[0].id) then
      CountConcat(f[0].kids, f[1..]);
      var more := Flatten(x, f[0].kids + f[1..]);
      assert ([Tree(f[0].id, [])] + more)[1..] == more;
      [Tree(f[0].id, [])] + more
    else
      var more := Flatten(x, f[1..]);
      assert ([f[0]] + more)[1..] == more;
      [f[0]] + more
  }

  lemma CountOne(t: Tree)
    ensures Count([t]) == 1 + Count(t.kids)
  {
    assert [t][1..] == [];
  }

  lemma CountSplit(f: seq<Tree>)
    requires f != []
    ensures Count([f[0]]) + Count(f[1..]) == Count(f)
  {
    CountOne(f[0]);
  }

  lemma {:induction false} CountConcat(f: seq<Tree>, g: seq<Tree>)
    ensures Count(f + g) == Count(f) + Count(g)
  {
    if f == [] {
      assert f + g == g;
    } else {
      assert (f + g)[1..] == f[1..] + g;
      CountConcat(f[1..], g);
    }
  }

  // ----- the order is preserved -----

  lemma {:induction false} PreorderConcat(f: seq<Tree>, g: seq<Tree>)
    ensures Preorder(f + g) == Preorder(f) + Preorder(g)
  {
    if f == [] {
      assert f + g == g;
    } else {
      assert (f + g)[1..] == f[1..] + g;
      PreorderConcat(f[1..], g);
    }
  }

  lemma PreorderCons(t: Tree, f: seq<Tree>)
    ensures Preorder([t] + f) == [t.id] + Preorder(t.kids) + Preorder(f)
  {
    assert ([t] + f)[1..] == f;
  }

  lemma SameOrder(t: Tree, rest: seq<Tree>, t': Tree, rest': seq<Tree>)
    requires t'.id == t.id && Preorder(t'.kids) + Preorder(rest') == Preorder(t.kids) + Preorder(rest)
    ensures Preorder([t'] + rest') == Preorder([t] + rest)
  {
    FirstThenRest(t, rest);
    FirstThenRest(t', rest');
  }

  lemma FirstThenRest(t: Tree, f: seq<Tree>)
    ensures Preorder([t] + f) == [t.id] + (Preorder(t.kids) + Preorder(f))
  {
    PreorderCons(t, f);
  }

  lemma {:induction false} FlattenKeepsOrder(x: Facts, f: seq<Tree>)
    ensures Preorder(Flatten(x, f)) == Preorder(f)
    decreases Count(f), |f|
  {
    if f != [] {
      if f[0].kids != [] && !x.hasPrompt(f[0].id) {
        CountConcat(f[0].kids, f[1..]);
        FlattenKeepsOrder(x, f[0].kids + f[1..]);
        PreorderConcat(f[0].kids, f[1..]);
        PreorderCons(Tree(f[0].id, []), Flatten(x, f[0].kids + f[1..]));
      } else {
        FlattenKeepsOrder(x, f[1..]);
        PreorderCons(f[0], Flatten(x, f[1..]));
      }
    }
  }

  /** menu_finalize re-parents and flattens, but the entries stay in source order. */
  lemma {:induction false} FinalizeKeepsOrder(x: Facts, t: Tree, rest: seq<Tree>)
    ensures var (t', rest') := Finalize(x, t, rest); Preorder([t'] + rest') == Preorder([t] + rest)
    decreases Count([t]) + Count(rest), 0
  {
    var (t', rest') := Finalize(x, t, rest);
    CountOne(t);
    if t.kids != [] {
      FinalizeAllKeepsOrder(x, t.kids);
      FlattenKeepsOrder(x, FinalizeAll(x, t.kids));
    } else if x.hasSymbol(t.id) {
      AbsorbKeepsOrder(x, t.id, rest);
      FlattenKeepsOrder(x, Absorb(x, t.id, rest).0);
    }
    SameOrder(t, rest, t', rest');
  }

  lemma {:induction false} FinalizeAllKeepsOrder(x: Facts, f: seq<Tree>)
    ensures Preorder(FinalizeAll(x, f)) == Preorder(f)
    decreases Count(f), 1
  {
    if f != [] {
      CountSplit(f);
      var (t, rest) := Finalize(x, f[0], f[1..]);
      CountOne(t);
      FinalizeKeepsOrder(x, f[0], f[1..]);
      FinalizeAllKeepsOrder(x, rest);
      PreorderCons(t, FinalizeAll(x, rest));
      PreorderCons(t, rest);
      assert [f[0]] + f[1..] == f;
    }
  }

  lemma {:induction false} AbsorbKeepsOrder(x: Facts, p: Id, rest: seq<Tree>)
    ensures var (taken, left) := Absorb(x, p, rest); Preorder(taken) + Preorder(left) == Preorder(rest)
    decreases Count(rest), 1
  {
    if rest != [] && x.nests(p, rest[0].id) {
      CountSplit(rest);
      var (t, left) := Finalize(x, rest[0], rest[1..]);
      CountOne(t);
      FinalizeKeepsOrder(x, rest[0], rest[1..]);
      AbsorbKeepsOrder(x, p, left);
      var (more, left') := Absorb(x, p, left);
      PreorderCons(t, more);
      PreorderCons(t, left);
      assert [rest[0]] + rest[1..] == rest;
    }
  }

  // ----- where the entries end up -----

  /** An entry takes up the longest run of following entries that nest below it. */
  lemma {:induction false} AbsorbIsMaximal(x: Facts, p: Id, rest: seq<Tree>)
    ensures var (taken, left) := Absorb(x, p, rest);
            && (forall i | 0 <= i < |taken| :: x.nests(p, taken[i].id))
            && (left == [] || !x.nests(p, left[0].id))
    decreases Count(rest)
  {
    if rest != [] && x.nests(p, rest[0].id) {
      CountSplit(rest);
      var (t, left) := Finalize(x, rest[0], rest[1..]);
      CountOne(t);
      AbsorbIsMaximal(x, p, left);
    }
  }

  /** Entries with a prompt, or with nothing below them, stay as they are. */
  lemma {:induction false} FlattenKeepsOthers(x: Facts, f: seq<Tree>, t: Tree)
    requires t in f && (t.kids == [] || x.hasPrompt(t.id))
    ensures t in Flatten(x, f)
    decreases Count(f), |f|
  {
    if f[0].kids != [] && !x.hasPrompt(f[0].id) {
      CountConcat(f[0].kids, f[1..]);
      FlattenKeepsOthers(x, f[0].kids + f[1..], t);
    } else if t != f[0] {
      FlattenKeepsOthers(x, f[1..], t);
    }
  }

  /** No entry of the list leaves it. */
  lemma {:induction false} FlattenKeepsEntries(x: Facts, f: seq<Tree>, t: Tree) returns (k: nat)
    requires t in f
    ensures k < |Flatten(x, f)| && Flatten(x, f)[k].id == t.id
    decreases Count(f), |f|
  {
    k := 0;
    if t != f[0] {
      if f[0].kids != [] && !x.hasPrompt(f[0].id) {
        CountConcat(f[0].kids, f[1..]);
        k := FlattenKeepsEntries(x, f[0].kids + f[1..], t);
      } else {
        k := FlattenKeepsEntries(x, f[1..], t);
      }
      k := k + 1;
    }
  }

  /** Every entry with a list below it has a prompt, all the way down. */
  ghost predicate NothingHidden(x: Facts, f: seq<Tree>) {
    f == [] || ((f[0].kids == [] || x.hasPrompt(f[0].id)) && NothingHidden(x, f[0].kids) && NothingHidden(x, f[1..]))
  }

  ghost predicate NothingHiddenBelow(x: Facts, f: seq<Tree>) {
    forall i | 0 <= i < |f| :: NothingHidden(x, f[i].kids)
  }

  lemma {:induction false} ListHasPrompt(x: Facts, f: seq<Tree>, t: Tree)
    requires NothingHidden(x, f) && t in f && t.kids != []
    ensures x.hasPrompt(t.id)
  {
    if t != f[0] { ListHasPrompt(x, f[1..], t); }
  }

  lemma {:induction false} KidsOfKids(x: Facts, f: seq<Tree>)
    requires NothingHidden(x, f)
    ensures NothingHiddenBelow(x, f)
  {
    if f != [] {
      KidsOfKids(x, f[1..]);
    }
  }

  lemma {:induction false} FlattenHidesNothing(x: Facts, f: seq<Tree>)
    requires NothingHiddenBelow(x, f)
    ensures NothingHidden(x, Flatten(x, f))
    decreases Count(f), |f|
  {
    if f != [] {
      if f[0].kids != [] && !x.hasPrompt(f[0].id) {
        var g := f[0].kids + f[1..];
        CountConcat(f[0].kids, f[1..]);
        KidsOfKids(x, f[0].kids);
        FlattenHidesNothing(x, g);
        assert ([Tree(f[0].id, [])] + Flatten(x, g))[1..] == Flatten(x, g);
      } else {
        FlattenHidesNothing(x, f[1..]);
        assert ([f[0]] + Flatten(x, f[1..]))[1..] == Flatten(x, f[1..]);
      }
    }
  }

  /** In the finished tree no list is left below an entry without a prompt, at any depth. */
  lemma {:induction false} FinalizeHidesNothing(x: Facts, t: Tree, rest: seq<Tree>)
    ensures NothingHidden(x, Finalize(x, t, rest).0.kids)
    decreases Count([t]) + Count(rest), 0
  {
    CountOne(t);
    if t.kids != [] {
      FinalizeAllHidesNothing(x, t.kids);
      FlattenHidesNothing(x, FinalizeAll(x, t.kids));
    } else if x.hasSymbol(t.id) {
      AbsorbHidesNothing(x, t.id, rest);
      FlattenHidesNothing(x, Absorb(x, t.id, rest).0);
    }
  }

  lemma {:induction false} FinalizeAllHidesNothing(x: Facts, f: seq<Tree>)
    ensures NothingHiddenBelow(x, FinalizeAll(x, f))
    decreases Count(f), 1
  {
    if f != [] {
      CountSplit(f);
      var (t, rest) := Finalize(x, f[0], f[1..]);
      CountOne(t);
      FinalizeHidesNothing(x, f[0], f[1..]);
      FinalizeAllHidesNothing(x, rest);
    }
  }

  lemma {:induction false} AbsorbHidesNothing(x: Facts, p: Id, rest: seq<Tree>)
    ensures NothingHiddenBelow(x, Absorb(x, p, rest).0)
    decreases Count(rest), 1
  {
    if rest != [] && x.nests(p, rest[0].id) {
      CountSplit(rest);
      var (t, left) := Finalize(x, rest[0], rest[1..]);
      CountOne(t);
      FinalizeHidesNothing(x, rest[0], rest[1..]);
      AbsorbHidesNothing(x, p, left);
    }
  }

  /** The entries that are not taken up are the last ones, as they were. */
  lemma {:induction false} AbsorbLeavesSuffix(x: Facts, p: Id, rest: seq<Tree>) returns (k: nat)
    ensures k <= |rest| && Absorb(x, p, rest).1 == rest[k..]
    ensures k > 0 <==> rest != [] && x.nests(p, rest[0].id)
    decreases Count(rest), 1
  {
    k := 0;
    if rest != [] && x.nests(p, rest[0].id) {
      CountSplit(rest);
      var (t, left) := Finalize(x, rest[0], rest[1..]);
      CountOne(t);
      var i := FinalizeLeavesSuffix(x, rest[0], rest[1..]);
      var j := AbsorbLeavesSuffix(x, p, left);
      assert left[j..] == rest[1 + i + j..];
      k := 1 + i + j;
    }
  }

  /** An entry takes up some of those behind it exactly when it is a symbol without a list of its own
      and the next entry nests below it. */
  lemma {:induction false} FinalizeLeavesSuffix(x: Facts, t: Tree, rest: seq<Tree>) returns (k: nat)
    ensures k <= |rest| && Finalize(x, t, rest).1 == rest[k..]
    ensures k > 0 <==> t.kids == [] && x.hasSymbol(t.id) && rest != [] && x.nests(t.id, rest[0].id)
    decreases Count([t]) + Count(rest), 0
  {
    CountOne(t);
    k := 0;
    if t.kids == [] && x.hasSymbol(t.id) {
      k := AbsorbLeavesSuffix(x, t.id, rest);
    }
  }

  /** A symbol without a list of its own takes up the entry behind it exactly when that nests below it;
      the entry is then the first of its list. */
  lemma NextEntryIsTaken(x: Facts, t: Tree, rest: seq<Tree>)
    requires t.kids == [] && x.hasSymbol(t.id) && rest != []
    ensures var (t', rest') := Finalize(x, t, rest);
            if x.nests(t.id, rest[0].id) then t'.kids != [] && t'.kids[0].id == rest[0].id
            else t'.kids == [] && rest' == rest
  {
    var (taken, left) := Absorb(x, t.id, rest);
    if x.nests(t.id, rest[0].id) {
      assert taken != [] && taken[0].id == rest[0].id;
    } else {
      assert taken == [] && left == rest;
    }
  }

  /** Neighbours in a finished list: a symbol that came without a list of its own has taken up all it
      can, so the entry behind it does not nest below it. */
  lemma {:induction false} NeighboursDoNotNest(x: Facts, f: seq<Tree>, i: nat) returns (k: nat)
    requires i < |FinalizeAll(x, f)|
    ensures k < |f| && FinalizeAll(x, f)[i].id == f[k].id
    ensures f[k].kids == [] && x.hasSymbol(f[k].id) && i + 1 < |FinalizeAll(x, f)| ==>
              !x.nests(f[k].id, FinalizeAll(x, f)[i + 1].id)
    decreases Count(f), 1
  {
    CountSplit(f);
    var (t, rest) := Finalize(x, f[0], f[1..]);
    CountOne(t);
    if i == 0 {
      k := 0;
      if f[0].kids == [] && x.hasSymbol(f[0].id) {
        AbsorbIsMaximal(x, f[0].id, f[1..]);
      }
    } else {
      var j := FinalizeLeavesSuffix(x, f[0], f[1..]);
      k := NeighboursDoNotNest(x, rest, i - 1);
      k := 1 + j + k;
    }
  }
}
