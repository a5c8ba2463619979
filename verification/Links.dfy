/**
 The child links of the nodes, one map from names to identities per node, and when
 they spell out a given tree of positions.  Each edit of the links made by the file
 system is matched with the edit of the tree it amounts to.
 */
module Links {
  import opened PathUtility
  import opened Positions
  import opened TreeModel

  type Kids = seq<map<Name, nat>>

  /** Below the node at `c`, the name `s` is linked exactly when the longer position exists. */
  ghost predicate LinkAt(tree: Tree, kids: Kids, c: Position, s: Name)
    requires c in tree && tree[c] < |kids|
  {
    && (s in kids[tree[c]] <==> c + [s] in tree)
    && (s in kids[tree[c]] ==> kids[tree[c]][s] == tree[c + [s]])
  }

  ghost predicate Linked(tree: Tree, kids: Kids) {
    && (forall c :: c in tree ==> tree[c] < |kids|)
    && (forall i, s :: 0 <= i < |kids| && s in kids[i] ==> kids[i][s] < |kids|)
    && (forall c, s :: c in tree ==> LinkAt(tree, kids, c, s))
  }

  lemma {:induction false} ChildPosition(c: Position, s: Name)
    ensures Parent(c + [s]) == c && Leaf(c + [s]) == s
    ensures Above(c, c + [s])
  {
  }

  lemma {:induction false} ParentAndLeaf(c: Position)
    requires c != []
    ensures Parent(c) + [Leaf(c)] == c && Above(Parent(c), c)
  {
  }

  lemma {:induction false} SameChild(c: Position, s: Name, d: Position, n: Name)
    ensures c + [s] == d + [n] <==> c == d && s == n
  {
    ChildPosition(c, s);
    ChildPosition(d, n);
  }

  function Attach(kids: Kids, up: nat, s: Name, id: nat): (r: Kids)
    requires up < |kids|
  {
    var links: map<Name, nat> := kids[up][s := id];
    kids[up := links]
  }

  function Detach(kids: Kids, up: nat, s: Name): (r: Kids)
    requires up < |kids|
  {
    var links: map<Name, nat> := kids[up] - {s};
    kids[up := links]
  }

  lemma {:induction false} AttachNewLinked(tree: Tree, kids: Kids, c: Position, s: Name)
    requires Linked(tree, kids) && OneParentEach(tree) && PrefixClosed(tree)
    requires c in tree && c + [s] !in tree
    ensures Linked(tree[c + [s] := |kids|], Attach(kids, tree[c], s, |kids|) + [map[]])
  {
    var tree', kids' := tree[c + [s] := |kids|], Attach(kids, tree[c], s, |kids|) + [map[]];
    forall d, n | d in tree'
      ensures LinkAt(tree', kids', d, n)
    {
      SameChild(c, s, d, n);
      if d == c + [s] {
        ChildPosition(d, n);
        ChildPosition(c, s);
        assert Above(c + [s], d + [n]);
      } else {
        assert LinkAt(tree, kids, d, n);
      }
    }
  }

  lemma {:induction false} DetachLinked(tree: Tree, kids: Kids, e: Position)
    requires Linked(tree, kids) && OneParentEach(tree)
    requires e in tree && e != [] && Parent(e) in tree
    ensures Linked(Without(tree, e), Detach(kids, tree[Parent(e)], Leaf(e)))
  {
    var tree', kids' := Without(tree, e), Detach(kids, tree[Parent(e)], Leaf(e));
    ParentAndLeaf(e);
    forall d, n | d in tree'
      ensures LinkAt(tree', kids', d, n)
    {
      SameChild(Parent(e), Leaf(e), d, n);
      assert LinkAt(tree, kids, d, n);
      assert Above(e, d + [n]) <==> Above(e, d) || e == d + [n];
    }
  }

  /** The two link edits of a rename. */
  function Relink(kids: Kids, oldUp: nat, oldName: Name, newUp: nat, newName: Name, id: nat): Kids
    requires oldUp < |kids| && newUp < |kids|
  {
    Attach(Detach(kids, oldUp, oldName), newUp, newName, id)
  }

  lemma {:induction false} RelinkLinked(tree: Tree, kids: Kids, from: Position, to: Position)
    requires Linked(tree, kids) && OneParentEach(tree) && Movable(tree, from, to)
    requires Parent(from) in tree
    ensures Linked(Moved(tree, from, to),
                   Relink(kids, tree[Parent(from)], Leaf(from), tree[Parent(to)], Leaf(to), tree[from]))
  {
    var tree' := Moved(tree, from, to);
    var kids' := Relink(kids, tree[Parent(from)], Leaf(from), tree[Parent(to)], Leaf(to), tree[from]);
    forall d | d in tree'
      ensures tree'[d] < |kids'|
    {
      MovedLookup(tree, from, to, d);
    }
    forall d, n | d in tree'
      ensures LinkAt(tree', kids', d, n)
    {
      MovedLookup(tree, from, to, d);
      MovedLookup(tree, from, to, d + [n]);
      if Above(to, d) {
        LinkBelowTarget(tree, kids, from, to, d, n);
      } else {
        LinkOutsideTarget(tree, kids, from, to, d, n);
      }
    }
  }

  lemma {:induction false} LinkBelowTarget(tree: Tree, kids: Kids, from: Position, to: Position, d: Position, n: Name)
    requires Linked(tree, kids) && OneParentEach(tree) && Movable(tree, from, to)
    requires Parent(from) in tree
    requires Above(to, d) && d in Moved(tree, from, to) && Moved(tree, from, to)[d] < |kids|
    ensures LinkAt(Moved(tree, from, to),
                   Relink(kids, tree[Parent(from)], Leaf(from), tree[Parent(to)], Leaf(to), tree[from]), d, n)
  {
    MovedLookup(tree, from, to, d);
    MovedLookup(tree, from, to, d + [n]);
    var source := Rebase(d, to, from);
    RebaseChild(d, n, to, from);
    assert LinkAt(tree, kids, source, n);
    assert source != Parent(from) by {
      assert |source| >= |from|;
    }
    assert source != Parent(to) by {
      TargetParentOutsideSource(from, to, []);
      assert from + [] == from;
    }
  }

  lemma {:induction false} RebaseChild(c: Position, n: Name, from: Position, to: Position)
    requires Above(from, c)
    ensures Above(from, c + [n]) && Rebase(c + [n], from, to) == Rebase(c, from, to) + [n]
  {
    assert (c + [n])[|from|..] == c[|from|..] + [n];
  }

  lemma {:induction false} LinkOutsideTarget(tree: Tree, kids: Kids, from: Position, to: Position, d: Position, n: Name)
    requires Linked(tree, kids) && OneParentEach(tree) && Movable(tree, from, to)
    requires Parent(from) in tree
    requires !Above(to, d) && d in Moved(tree, from, to) && Moved(tree, from, to)[d] < |kids|
    ensures LinkAt(Moved(tree, from, to),
                   Relink(kids, tree[Parent(from)], Leaf(from), tree[Parent(to)], Leaf(to), tree[from]), d, n)
  {
    MovedLookup(tree, from, to, d);
    MovedLookup(tree, from, to, d + [n]);
    ParentAndLeaf(from);
    ParentAndLeaf(to);
    SameChild(Parent(from), Leaf(from), d, n);
    SameChild(Parent(to), Leaf(to), d, n);
    assert LinkAt(tree, kids, d, n);
    assert Above(to, d + [n]) <==> d + [n] == to;
    assert Above(from, d + [n]) <==> d + [n] == from;
    assert Rebase(to, to, from) == from;
  }

  /** The node reached from node `id` along `names`. */
  function Follow(kids: Kids, id: nat, names: Position): Option<nat>
    decreases |names|
  {
    if names == [] then Some(id)
    else if id < |kids| && names[0] in kids[id] then Follow(kids, kids[id][names[0]], names[1..])
    else None
  }

  /** Why a move below itself must not happen: the two link edits would close a cycle
      through the moved node, so that a walk over its descendants never ends. */
  lemma {:induction false} MoveIntoItselfClosesCycle(tree: Tree, kids: Kids, from: Position, to: Position)
    requires Linked(tree, kids) && OneParentEach(tree) && PrefixClosed(tree)
    requires from != [] && from in tree && to != [] && Parent(to) in tree
    requires Above(from, to) && from != to
    requires Parent(from) in tree
    ensures var kids' := Relink(kids, tree[Parent(from)], Leaf(from), tree[Parent(to)], Leaf(to), tree[from]);
            to[|from|..] != [] && Follow(kids', tree[from], to[|from|..]) == Some(tree[from])
  {
    FollowIntoCycle(tree, kids, from, to, from);
  }

  lemma {:induction false} FollowIntoCycle(tree: Tree, kids: Kids, from: Position, to: Position, at: Position)
    requires Linked(tree, kids) && OneParentEach(tree) && PrefixClosed(tree)
    requires from != [] && from in tree && to != [] && Parent(to) in tree
    requires Above(from, to) && from != to
    requires Parent(from) in tree
    requires Above(from, at) && Above(at, to) && at != to && at in tree
    ensures Follow(Relink(kids, tree[Parent(from)], Leaf(from), tree[Parent(to)], Leaf(to), tree[from]),
                   tree[at], to[|at|..]) == Some(tree[from])
    decreases |to| - |at|
  {
    var kids' := Relink(kids, tree[Parent(from)], Leaf(from), tree[Parent(to)], Leaf(to), tree[from]);
    var name := to[|at|];
    var next := at + [name];
    assert to[|at|..][1..] == to[|next|..];
    assert at != Parent(from);
    if next == to {
      ChildPosition(at, name);
    } else {
      assert |next| < |to| && next == to[..|next|];
      assert Above(next, Parent(to));
      assert at != Parent(to);
      assert LinkAt(tree, kids, at, name);
      FollowIntoCycle(tree, kids, from, to, next);
    }
  }

  /** So every rename that moves an entry below itself, once its target's parent is made,
      leaves the moved node its own descendant: the recursive path rewrite visits it again. */
  lemma {:induction false} RenameIntoItselfClosesCycle(fs: Fs, kids: Kids, from: string, to: string)
    requires WellFormed(fs) && MovesIntoItself(fs, from, to)
    requires Linked(CreatePath(fs, ParentPath(to), true).tree, kids)
    ensures var (mid, f, t) := (CreatePath(fs, ParentPath(to), true), EntryOf(from), EntryOf(to));
            && f != [] && t != [] && f in mid.tree && Parent(f) in mid.tree && Parent(t) in mid.tree
            && mid.tree[Parent(f)] < |kids| && mid.tree[Parent(t)] < |kids|
            && t[|f|..] != []
            && var kids' := Relink(kids, mid.tree[Parent(f)], Leaf(f), mid.tree[Parent(t)], Leaf(t), mid.tree[f]);
               Follow(kids', mid.tree[f], t[|f|..]) == Some(mid.tree[f])
  {
    var mid, f, t := CreatePath(fs, ParentPath(to), true), EntryOf(from), EntryOf(to);
    CreatePathCorrect(fs, ParentPath(to), true);
    ParentPathComponents(to);
    hide CreatePath, Components, ParentPath, Relink, Follow, LinkAt;
    ParentAndLeaf(f);
    MoveIntoItselfClosesCycle(mid.tree, kids, f, t);
  }

  lemma {:induction false} LiteralNames()
    ensures Components("/a") == EntryOf("/a") == ["a"] && EntryOf("/a/b") == ["a", "b"]
    ensures GetDirName("/a/b") == "/a" && ParentPath("/a/b") == "/a" && !TrailingSeparator("/a")
  {
    assert "/a" == "" + "/" + "a" && "/a/b" == "/a" + "/" + "b";
    SplitName("");
    SplitName("a");
    DirAndFileNameOf("", "a");
    DirAndFileNameOf("/a", "b");
  }

  /** The shortest such call: after `mkdir("/a")`, `rename("/a", "/a/b")` makes node 1 its
      own child "b". */
  lemma {:induction false} RenameBelowItselfExample()
    ensures WellFormed(EMPTY_FS)
    ensures var fs := CreatePath(EMPTY_FS, "/a", true);
            && MovesIntoItself(fs, "/a", "/a/b")
            && CreatePath(fs, ParentPath("/a/b"), true).tree == map[[] := 0, ["a"] := 1]
            && Linked(map[[] := 0, ["a"] := 1], [map["a" := 1], map[]])
            && Relink([map["a" := 1], map[]], 0, "a", 1, "b", 1) == [map[], map["b" := 1]]
  {
    LiteralNames();
    hide Components, EntryOf, GetDirName, TrailingSeparator, ParentPath;
    var fs := CreatePath(EMPTY_FS, "/a", true);
    var c := ["a"];
    assert [] + [c[0]] == c && c[1..] == [];
    assert fs == CreateStep(EMPTY_FS, c, true, true);
    assert fs.tree == map[[] := 0, c := 1];
    assert CreatePath(fs, "/a", true) == CreateStep(fs, c, true, true);
    assert Above(c, ["a", "b"]) && c != ["a", "b"];
    ExampleLinked();
  }

  lemma {:induction false} ExampleLinked()
    ensures Linked(map[[] := 0, ["a"] := 1], [map["a" := 1], map[]])
    ensures Relink([map["a" := 1], map[]], 0, "a", 1, "b", 1) == [map[], map["b" := 1]]
  {
    var tree: Tree, kids: Kids := map[[] := 0, ["a"] := 1], [map["a" := 1], map[]];
    forall c, n | c in tree
      ensures LinkAt(tree, kids, c, n)
    {
      assert [] + [n] == ["a"] <==> n == "a" by { assert ([] + [n])[0] == n; }
      assert |["a"] + [n]| == 2;
    }
    assert Detach(kids, 0, "a") == [map[], map[]];
  }
}
