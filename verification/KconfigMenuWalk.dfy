/**
 The walk of conf_write (scripts/kconfig/confdata.c) over the linked menu tree: it keeps no stack and
 finds its way up through the parent pointers.
 */
module KconfigMenuWalk {
  import opened KconfigMenu
  import opened KconfigMenuLinks

  /** An entry above the current one, and the entries behind it. */
  datatype Above = Above(id: Id, behind: seq<Tree>)

  ghost function Owner(root: Id, path: seq<Above>): Ptr {
    if path == [] then To(root) else To(path[0].id)
  }

  /** The pointers lead from entry to entry up the path and end at the root. */
  ghost predicate LeadsUp(mem: Memory, root: Id, path: seq<Above>) {
    if path == [] then
      root in mem && mem[root].next == Null && mem[root].parent == Null
    else
      && path[0].id in mem
      && mem[path[0].id].next == First(path[0].behind, Null)
      && mem[path[0].id].parent == Owner(root, path[1..])
      && Chain(mem, path[0].behind, Owner(root, path[1..]), Null)
      && LeadsUp(mem, root, path[1..])
  }

  /** What is still to come behind the entries of a path. */
  ghost function Pending(path: seq<Above>): seq<Id> {
    if path == [] then [] else Preorder(path[0].behind) + Pending(path[1..])
  }

  /** The walk stands at the first entry of b, below path. */
  ghost predicate At(mem: Memory, root: Id, menu: Ptr, b: seq<Tree>, path: seq<Above>) {
    && menu == First(b, Null)
    && Chain(mem, b, Owner(root, path), Null)
    && LeadsUp(mem, root, path)
    && (b == [] ==> path == [])
  }

  /** Up from an entry with nothing behind it, to the next entry behind one of those above. */
  method Climb(mem: Memory, root: Id, from: Id, ghost path: seq<Above>)
    returns (menu: Ptr, ghost b: seq<Tree>, ghost path': seq<Above>)
    requires from in mem && mem[from].parent == Owner(root, path) && LeadsUp(mem, root, path)
    ensures At(mem, root, menu, b, path') && Preorder(b) + Pending(path') == Pending(path)
  {
    menu := mem[from].parent;
    b, path' := [], path;
    while menu != Null
      invariant LeadsUp(mem, root, path') && Pending(path') == Pending(path)
      invariant if menu == Null then path' == [] else menu == Owner(root, path')
      decreases |path'|, menu != Null
    {
      if mem[menu.id].next != Null {
        menu := mem[menu.id].next;
        b, path' := path'[0].behind, path'[1..];
        return;
      }
      menu := mem[menu.id].parent;
      if path' != [] {
        path' := path'[1..];
      }
    }
  }

  /** The entries from the first one of b on. */
  ghost function Remaining(b: seq<Tree>, path: seq<Above>): seq<Id> {
    Preorder(b) + Pending(path)
  }

  /** Down into the list of an entry. */
  lemma Descend(mem: Memory, root: Id, b: seq<Tree>, path: seq<Above>)
    requires b != [] && At(mem, root, To(b[0].id), b, path) && b[0].kids != []
    ensures At(mem, root, First(b[0].kids, Null), b[0].kids, [Above(b[0].id, b[1..])] + path)
  {
    var up := [Above(b[0].id, b[1..])] + path;
    assert up[1..] == path;
  }

  lemma DescendOrder(b: seq<Tree>, path: seq<Above>)
    requires b != []
    ensures Remaining(b, path) == [b[0].id] + Remaining(b[0].kids, [Above(b[0].id, b[1..])] + path)
  {
    var i, s, t, u := [b[0].id], Preorder(b[0].kids), Preorder(b[1..]), Pending(path);
    var up := [Above(b[0].id, b[1..])] + path;
    assert up[1..] == path && up[0].behind == b[1..];
    assert Preorder(b) == i + s + t;
    assert Pending(up) == t + u;
    Reassociate(i, s, t, u);
  }

  lemma Reassociate(i: seq<Id>, s: seq<Id>, t: seq<Id>, u: seq<Id>)
    ensures i + s + t + u == i + (s + (t + u))
  {
  }

  lemma Append(s: seq<Id>, i: Id, t: seq<Id>)
    ensures s + ([i] + t) == (s + [i]) + t
  {
  }

  /** On to the entry behind, when there is no list. */
  lemma Pass(mem: Memory, root: Id, b: seq<Tree>, path: seq<Above>)
    requires b != [] && At(mem, root, To(b[0].id), b, path) && b[0].kids == []
    ensures Remaining(b, path) == [b[0].id] + Remaining(b[1..], path)
    ensures b[1..] != [] ==> At(mem, root, First(b[1..], Null), b[1..], path)
    ensures b[1..] == [] ==> Remaining(b, path) == [b[0].id] + Pending(path)
  {
    assert b == [b[0]] + b[1..];
    FirstThenRest(b[0], b[1..]);
    var more, up := Preorder(b[1..]), Pending(path);
    assert [b[0].id] + (Preorder([]) + more) + up == [b[0].id] + (more + up);
  }

  /** From one entry to the next: into its list, else to the one behind it, else up. */
  method Advance(mem: Memory, root: Id, menu: Id, ghost b: seq<Tree>, ghost path: seq<Above>)
    returns (next: Ptr, ghost b': seq<Tree>, ghost path': seq<Above>)
    requires At(mem, root, To(menu), b, path)
    ensures At(mem, root, next, b', path') && Remaining(b, path) == [menu] + Remaining(b', path')
  {
    var entry := mem[menu];
    if entry.list != Null {
      Descend(mem, root, b, path);
      DescendOrder(b, path);
      next, b', path' := entry.list, b[0].kids, [Above(menu, b[1..])] + path;
    } else {
      Pass(mem, root, b, path);
      if entry.next != Null {
        next, b', path' := entry.next, b[1..], path;
      } else {
        next, b', path' := Climb(mem, root, menu, path);
      }
    }
  }

  /** The walk of conf_write from the first entry below root. */
  method Walk(mem: Memory, root: Id, ghost kids: seq<Tree>) returns (visited: seq<Id>)
    requires root in mem && mem[root] == Links(Null, First(kids, Null), Null) && Chain(mem, kids, To(root), Null)
    ensures visited == Preorder(kids)
  {
    var menu := mem[root].list;
    visited := [];
    ghost var b, path: seq<Above> := kids, [];
    assert Remaining(kids, []) == Preorder(kids);
    while menu != Null
      invariant At(mem, root, menu, b, path)
      invariant visited + Remaining(b, path) == Preorder(kids)
      decreases |Preorder(kids)| - |visited|
    {
      ghost var before, entry := visited, menu.id;
      visited := visited + [menu.id];
      menu, b, path := Advance(mem, root, menu.id, b, path);
      Append(before, entry, Remaining(b, path));
    }
    assert Remaining(b, path) == [];
  }

  /** Finalizing the tree and then writing the configuration goes through the entries in the order in
      which they were read. */
  method FinalizeAndWalk(menus: Menus, root: Id, ghost kids: seq<Tree>) returns (visited: seq<Id>)
    requires Chain(menus.mem, [Tree(root, kids)], Null, Null) && Distinct(Preorder([Tree(root, kids)]))
    modifies menus
    ensures visited == Preorder(kids)
  {
    ghost var t := Tree(root, kids);
    ghost var r := Finalize(menus.x, t, []);
    assert [t] + [] == [t];
    menus.MenuFinalize(root, t, [], Null);
    FinalizeKeepsOrder(menus.x, t, []);
    assert r.1 == [];
    FirstThenRest(t, []);
    FirstThenRest(r.0, []);
    ChainCons(menus.mem, r.0, [], Null, Null);
    SameTail(root, Preorder(kids), Preorder(r.0.kids));
    visited := Walk(menus.mem, root, r.0.kids);
  }

  lemma SameTail(i: Id, s: seq<Id>, s': seq<Id>)
    requires [i] + (s + []) == [i] + (s' + [])
    ensures s == s'
  {
    assert s == ([i] + (s + []))[1..] == ([i] + (s' + []))[1..] == s';
  }
}
