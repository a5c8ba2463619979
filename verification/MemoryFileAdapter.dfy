/**
 The in-memory file system as it is built: nodes with child maps and a cached path,
 changed in place.  Every method is proved to change `State()` exactly as the
 operation of the same name in `TreeModel` does, and to keep each node's name and
 cached path equal to what its position prints as.
 */
module MemoryFileAdapter {
  import opened Availability
  import opened Bytes
  import opened PathUtility
  import opened Positions
  import opened TreeModel
  import opened Links

  class Node {
    ghost const id: nat
    var name: string
    var path: string
    var isDirectory: bool
    var data: seq<byte>
    var children: map<Name, Node>

    constructor (ghost id: nat, name: string, path: string, isDirectory: bool)
      ensures this.id == id && this.name == name && this.path == path
      ensures this.isDirectory == isDirectory && data == [] && children == map[]
    {
      this.id := id;
      this.name := name;
      this.path := path;
      this.isDirectory := isDirectory;
      data := [];
      children := map[];
    }
  }

  /** The fields of a node at one moment, but for its cached path. */
  datatype Record = Record(name: string, isDirectory: bool, data: seq<byte>, children: map<Name, Node>)

  ghost function RecordOf(n: Node): Record
    reads n`name, n`isDirectory, n`data, n`children
  {
    Record(n.name, n.isDirectory, n.data, n.children)
  }

  ghost function Snapshot(nodes: seq<Node>): (r: seq<Record>)
    reads nodes`name, nodes`isDirectory, nodes`data, nodes`children
    ensures |r| == |nodes|
    ensures forall i :: 0 <= i < |nodes| ==> r[i] == RecordOf(nodes[i])
  {
    if nodes == [] then []
    else Snapshot(nodes[..|nodes| - 1]) + [RecordOf(nodes[|nodes| - 1])]
  }

  ghost function Contents(records: seq<Record>): (r: seq<FileState>)
    ensures |r| == |records|
    ensures forall i :: 0 <= i < |r| ==> r[i] == FileState(records[i].isDirectory, records[i].data)
  {
    seq(|records|, i requires 0 <= i < |records| => FileState(records[i].isDirectory, records[i].data))
  }

  /** The record of node `i` links to the very nodes that `kids` lists. */
  ghost predicate Coupled(all: seq<Node>, records: seq<Record>, kids: Kids, i: nat)
    requires i < |records| && i < |kids|
  {
    && records[i].children.Keys == kids[i].Keys
    && forall s :: s in kids[i] ==> kids[i][s] < |all| && records[i].children[s] == all[kids[i][s]]
  }

  /** Nodes, links and tree describe one another. */
  ghost predicate Shape(root: Node, tree: Tree, kids: Kids, all: seq<Node>, records: seq<Record>) {
    && |kids| == |all| == |records| > 0 && all[0] == root
    && (forall i :: 0 <= i < |all| ==> all[i].id == i)
    && WellFormed(Fs(tree, Contents(records)))
    && Linked(tree, kids)
    && (forall i :: 0 <= i < |all| ==> Coupled(all, records, kids, i))
  }

  ghost predicate Named(tree: Tree, records: seq<Record>) {
    forall c :: c in tree && c != [] && tree[c] < |records| ==> records[tree[c]].name == Leaf(c)
  }

  /** The representation invariant but for the cached paths. */
  ghost predicate Consistent(root: Node, tree: Tree, kids: Kids, all: seq<Node>, records: seq<Record>) {
    && Shape(root, tree, kids, all, records)
    && Named(tree, records)
  }

  lemma {:induction false} RootAlone(tree: Tree, kids: Kids, all: seq<Node>, records: seq<Record>)
    requires tree == map[[] := 0] && kids == [map[]] && |all| == |records| == 1 && all[0].id == 0
    requires records[0].isDirectory && records[0].data == [] && records[0].children == map[]
    ensures Consistent(all[0], tree, kids, all, records)
    ensures Fs(tree, Contents(records)) == EMPTY_FS
  {
    assert Contents(records) == [FileState(true, [])];
    forall c, s | c in tree
      ensures LinkAt(tree, kids, c, s)
    {
      assert |[] + [s]| == 1;
    }
    assert Coupled(all, records, kids, 0);
  }

  class MemoryFileSystem {
    var root: Node
    /** Where each reachable node hangs, as an index into `all`. */
    ghost var tree: Tree
    /** Every node made so far, reachable or only held by a handle. */
    ghost var all: seq<Node>
    ghost var kids: Kids

    ghost function State(): Fs
      reads this, all`name, all`isDirectory, all`data, all`children
    {
      Fs(tree, Contents(Snapshot(all)))
    }

    ghost predicate Placed()
      reads this, all`name, all`isDirectory, all`data, all`children
    {
      Consistent(root, tree, kids, all, Snapshot(all))
    }

    /** The node at `c` caches the path that `c` prints as. */
    ghost predicate PathIsRight(c: Position)
      reads this, all`path
    {
      c in tree && tree[c] < |all| && all[tree[c]].path == PathOf(c)
    }

    ghost predicate Valid()
      reads this, all
    {
      && Placed()
      && forall c :: c in tree ==> PathIsRight(c)
    }

    constructor ()
      ensures Valid() && State() == EMPTY_FS
      ensures fresh(all)
    {
      var r := new Node(0, "/", "/", true);
      root := r;
      tree, all, kids := map[[] := 0], [r], [map[]];
      new;
      hide Consistent, PathOf, Contents, Snapshot;
      RootAlone(tree, kids, all, Snapshot(all));
      EmptyPath();
    }

    lemma {:induction false} EmptyPath()
      ensures PathOf([]) == "/"
    {
    }

    lemma {:induction false} ChildOf(at: Position, s: Name)
      requires Placed() && at in tree
      ensures tree[at] < |all|
      ensures s in all[tree[at]].children <==> at + [s] in tree
      ensures s in all[tree[at]].children ==>
              && at + [s] in tree && tree[at + [s]] < |all|
              && all[tree[at]].children[s] == all[tree[at + [s]]]
    {
      assert Coupled(all, Snapshot(all), kids, tree[at]);
      assert LinkAt(tree, kids, at, s);
    }

    lemma {:induction false} RootIsPlaced()
      requires Placed()
      ensures [] in tree && 0 < |all| && tree[[]] == 0 && all[0] == root
      ensures PrefixClosed(tree)
    {
    }

    /** The node a path leads to, or null: decided by the components of the path alone. */
    method FindNode(path: string) returns (node: Node?)
      requires Valid()
      ensures node != null <==> Components(path) in tree
      ensures node != null ==> tree[Components(path)] < |all| && node == all[tree[Components(path)]]
    {
      hide Consistent, Split;
      RootIsPlaced();
      if path == "" || path == "/" {
        NoNames();
        return root;
      }
      var p := DropOneSeparator(path);
      var current := root;
      ghost var at: Position := [];
      var pos := 0;
      assert p[pos..] == p && at + Split(p[pos..]) == Components(path);
      while pos < |p|
        invariant 0 <= pos <= |p|
        invariant at in tree && tree[at] < |all| && current == all[tree[at]]
        invariant at + Split(p[pos..]) == Components(path)
      {
        ghost var rest := Split(p[pos..]);
        var part, _, after := TakeName(p, pos);
        ConsumeName(at, rest);
        ChildOf(at, part);
        pos := after;
        if part !in current.children {
          return null;
        }
        at := at + [part];
        current := current.children[part];
      }
      assert p[|p|..] == "";
      NoNames();
      assert at + [] == at;
      return current;
    }

    /** Nothing made so far is forgotten or replaced, and what is new is freshly allocated. */
    twostate predicate Grown()
      reads this
    {
      && root == old(root)
      && |old(all)| <= |all|
      && (forall i :: 0 <= i < |old(all)| ==> all[i] == old(all)[i])
      && forall i :: |old(all)| <= i < |all| ==> fresh(all[i])
    }

    twostate lemma {:induction false} GrownVia(new mid: seq<Node>)
      requires |old(all)| <= |mid| <= |all| && root == old(root)
      requires forall i :: 0 <= i < |old(all)| ==> mid[i] == old(all)[i]
      requires forall i :: 0 <= i < |mid| ==> all[i] == mid[i]
      requires forall i :: |old(all)| <= i < |mid| ==> fresh(mid[i])
      requires forall i :: |mid| <= i < |all| ==> fresh(all[i])
      ensures Grown()
    {
    }

    /** Hang a new node under `up`, which sits at position `at`. */
    method AttachNew(up: Node, ghost at: Position, name: Name, directory: bool) returns (node: Node)
      requires Valid() && at in tree && up == all[tree[at]]
      requires at + [name] !in tree && '/' !in name
      modifies this`tree, this`all, this`kids, up`children
      ensures Valid() && Grown()
      ensures State() == CreateStep(old(State()), at + [name], directory, false)
      ensures at + [name] in tree && tree[at + [name]] < |all| && node == all[tree[at + [name]]]
    {
      hide State, Placed, CreateStep, JoinTwo, PathOf;
      ChildOf(at, name);
      assert PathIsRight(at);
      PathOfChild(at, name);
      node := new Node(|all|, name, JoinTwo(up.path, name), directory);
      LinkNew(up, at, name, node);
      PathsStay(at + [name]);
    }

    twostate lemma {:induction false} PathsStay(c: Position)
      requires forall d :: d in old(tree) ==> old(PathIsRight(d))
      requires |old(all)| <= |all| && forall i :: 0 <= i < |old(all)| ==> all[i] == old(all)[i] && all[i].path == old(all[i].path)
      requires tree == old(tree)[c := |old(all)|] && |old(all)| < |all| && all[|old(all)|].path == PathOf(c)
      ensures forall d :: d in tree ==> PathIsRight(d)
    {
      hide PathOf;
      forall d | d in tree
        ensures PathIsRight(d)
      {
        assert d != c ==> old(PathIsRight(d));
      }
    }

    /** The link to a new node, and with it the node's place in the tree. */
    method LinkNew(up: Node, ghost at: Position, name: Name, node: Node)
      requires Placed() && at in tree && tree[at] < |all| && up == all[tree[at]]
      requires at + [name] !in tree && '/' !in name
      requires node.id == |all| && node !in all && node.name == name && node.data == [] && node.children == map[]
      modifies this`tree, this`all, this`kids, up`children
      ensures Placed() && all == old(all) + [node] && tree == old(tree)[at + [name] := |old(all)|]
      ensures State() == CreateStep(old(State()), at + [name], node.isDirectory, false)
    {
      hide Consistent, CreateStep, Attach, Contents, Snapshot;
      Indexed(root, tree, kids, all, Snapshot(all), at);
      ghost var id, nodes, records := tree[at], all, Snapshot(all);
      ghost var r := RecordOf(node);
      AttachedConsistent(root, tree, kids, all, records, at, name, node, r);
      up.children := up.children[name := node];
      kids, tree, all := Attach(kids, id, name, |all|) + [map[]], tree[at + [name] := |all|], all + [node];
      forall i | 0 <= i < |nodes|
        ensures RecordOf(nodes[i]) == Attached(records, id, name, node, r)[i]
      {
        assert records[i] == old(RecordOf(nodes[i]));
      }
      SnapshotIs(all, Attached(records, id, name, node, r));
    }

    /** Turn the node at `at` into a directory, whatever it was. */
    method MarkDirectory(node: Node, ghost at: Position)
      requires Valid() && at in tree && tree[at] < |all| && node == all[tree[at]]
      modifies node`isDirectory
      ensures Valid()
      ensures State() == CreateStep(old(State()), at, true, true)
    {
      hide Consistent, Contents, Snapshot;
      Indexed(root, tree, kids, all, Snapshot(all), at);
      ghost var id, records := tree[at], Snapshot(all);
      MarkedConsistent(root, tree, kids, all, records, at);
      node.isDirectory := true;
      assert Snapshot(all) == Marked(records, id) by {
        forall i | 0 <= i < |all|
          ensures RecordOf(all[i]) == Marked(records, id)[i]
        {
          assert records[i] == old(RecordOf(all[i]));
        }
        SnapshotIs(all, Marked(records, id));
      }
    }

    /** One turn of the creation loop: find or make the child `part`. */
    method Advance(up: Node, ghost at: Position, part: Name, last: bool, asDirectory: bool) returns (node: Node)
      requires Valid() && at in tree && tree[at] < |all| && up == all[tree[at]] && '/' !in part
      modifies this`tree, this`all, this`kids, all
      ensures Valid() && Grown()
      ensures State() == CreateStep(old(State()), at + [part], !last || asDirectory, last && asDirectory)
      ensures at + [part] in tree && tree[at + [part]] < |all| && node == all[tree[at + [part]]]
    {
      hide Consistent, State, Placed, CreateStep, WellFormed, PrefixClosed;
      ghost var before := State();
      StateIsWellFormed();
      ChildOf(at, part);
      if part !in up.children {
        node := AttachNew(up, at, part, !last || asDirectory);
        CreateStepOfMissing(before, at + [part], !last || asDirectory, last && asDirectory);
      } else {
        node := up.children[part];
        if last && asDirectory {
          MarkDirectory(node, at + [part]);
        }
        CreateStepOfPresent(before, at + [part], !last || asDirectory, last && asDirectory);
      }
    }

    /** The node at a path, with every missing node on the way made. */
    method CreatePath(path: string, asDirectory: bool) returns (node: Node)
      requires Valid()
      modifies this`tree, this`all, this`kids, all
      ensures Valid() && Grown()
      ensures State() == TreeModel.CreatePath(old(State()), path, asDirectory)
      ensures Components(path) in tree && tree[Components(path)] < |all| && node == all[tree[Components(path)]]
    {
      hide Consistent, State, Placed, Split, CreateStep, CreateAlong, PathOf, PrefixClosed;
      RootIsPlaced();
      NoNames();
      hide Valid;
      var p := DropOneSeparator(path);
      ghost var trailing := EndsWithSeparator(p);
      if p == "" {
        CreateAlongEnds(State(), [], trailing, asDirectory);
        return root;
      }
      var current := root;
      ghost var at: Position := [];
      var pos := 0;
      assert p[pos..] == p && at + Split(p) == Components(path);
      assert TreeModel.CreatePath(State(), path, asDirectory) == CreateAlong(State(), at, Split(p), trailing, asDirectory);
      hide Components, DropOneSeparator, NextSeparator, EndsWithSeparator, TreeModel.CreatePath;
      while pos < |p|
        invariant 0 <= pos <= |p|
        invariant Valid() && Grown()
        invariant at in tree && tree[at] < |all| && current == all[tree[at]]
        invariant at + Split(p[pos..]) == Components(path)
        invariant CreateAlong(State(), at, Split(p[pos..]), trailing, asDirectory)
               == TreeModel.CreatePath(old(State()), path, asDirectory)
      {
        ghost var rest := Split(p[pos..]);
        var part, last, after := TakeName(p, pos);
        ConsumeName(at, rest);
        CreateAlongUnrolls(State(), at, rest, trailing, asDirectory);
        pos := after;
        ghost var mid := all;
        current := Advance(current, at, part, last, asDirectory);
        GrownVia(mid);
        at := at + [part];
      }
      assert p[|p|..] == "";
      assert at + [] == at;
      CreateAlongEnds(State(), at, trailing, asDirectory);
      return current;
    }

    method Exists(path: string) returns (found: bool)
      requires Valid()
      ensures found <==> Components(path) in State().tree
    {
      var node := FindNode(path);
      return node != null;
    }

    method Mkdir(path: string) returns (ok: bool)
      requires Valid()
      modifies this`tree, this`all, this`kids, all
      ensures Valid() && Grown()
      ensures ok && State() == TreeModel.CreatePath(old(State()), path, true)
    {
      var _ := CreatePath(path, true);
      return true;
    }

    /** Cut the link to the node at `e`, and with it everything below. */
    method Unlink(parent: Node, ghost e: Position, name: Name)
      requires Valid() && e != [] && e in tree && Leaf(e) == name
      requires Parent(e) in tree && tree[Parent(e)] < |all| && parent == all[tree[Parent(e)]]
      modifies this`tree, this`kids, parent`children
      ensures Valid()
      ensures State() == Fs(Without(old(State()).tree, e), old(State()).files)
    {
      hide Consistent, Contents, Snapshot, Detach, PathOf;
      Indexed(root, tree, kids, all, Snapshot(all), Parent(e));
      ghost var id, records := tree[Parent(e)], Snapshot(all);
      DetachedConsistent(root, tree, kids, all, records, e);
      parent.children := parent.children - {name};
      kids, tree := Detach(kids, id, name), Without(tree, e);
      assert Snapshot(all) == Detached(records, id, name) by {
        forall i | 0 <= i < |all|
          ensures RecordOf(all[i]) == Detached(records, id, name)[i]
        {
          assert records[i] == old(RecordOf(all[i]));
        }
        SnapshotIs(all, Detached(records, id, name));
      }
      assert forall c :: c in tree ==> old(PathIsRight(c));
    }

    /** The node whose child map holds the entry of `path`, or null when there is none. */
    method FindEntry(path: string) returns (parent: Node?)
      requires Valid()
      ensures parent != null <==> EntryOf(path) in tree
      ensures parent != null ==>
              && Parent(EntryOf(path)) in tree && tree[Parent(EntryOf(path))] < |all|
              && parent == all[tree[Parent(EntryOf(path))]]
              && GetFileName(path) in parent.children
    {
      hide Consistent, Contents, Snapshot, PathOf, GetDirName, GetFileName, Components;
      ghost var e := EntryOf(path);
      ParentPathComponents(path);
      ParentAndLeaf(e);
      ParentIsPlaced(e);
      parent := FindNode(ParentPath(path));
      if parent == null {
        return null;
      }
      ChildOf(Parent(e), GetFileName(path));
      if GetFileName(path) !in parent.children {
        return null;
      }
    }

    method Remove(path: string) returns (ok: bool)
      requires Valid()
      modifies this`tree, this`kids, all`children
      ensures Valid()
      ensures (State(), ok) == TreeModel.Remove(old(State()), path)
    {
      hide Consistent, Contents, Snapshot, PathOf, Without, GetDirName, GetFileName, Components;
      if path == "" || path == "/" {
        return false;
      }
      var parent := FindEntry(path);
      if parent == null {
        return false;
      }
      Unlink(parent, EntryOf(path), GetFileName(path));
      return true;
    }

    lemma {:induction false} ParentIsPlaced(c: Position)
      requires Placed() && c != []
      ensures c in tree ==> Parent(c) in tree
    {
      assert Above(Parent(c), c);
    }

    ghost function Below(at: Position): set<Position>
      reads this`tree
    {
      set c | c in tree && Above(at, c)
    }

    /** The recursive rewrite: everything at or below `at` gets its own path, nothing
        else changes, and the recursion ends because the subtree is finite. */
    method UpdatePaths(n: Node, parentPath: string, ghost at: Position)
      requires Placed() && at != [] && at in tree && tree[at] < |all| && n == all[tree[at]]
      requires parentPath == PathOf(Parent(at))
      modifies all`path
      ensures Placed() && State() == old(State())
      ensures forall c :: c in Below(at) ==> PathIsRight(c)
      ensures forall c :: c in tree && !Above(at, c) && old(PathIsRight(c)) ==> PathIsRight(c)
      decreases Below(at)
    {
      hide Consistent, State, Placed, JoinTwo;
      NodeAt(at);
      n.path := JoinTwo(parentPath, n.name);
      assert PathIsRight(at);
      hide PathOf;
      var pending := n.children.Keys;
      forall c | c in Below(at) && c != at
        ensures c[|at|] in pending
      {
        FirstStep(at, c);
      }
      while pending != {}
        invariant pending <= n.children.Keys
        invariant PathIsRight(at)
        invariant forall c :: c in Below(at) && c != at && c[|at|] !in pending ==> PathIsRight(c)
        invariant forall c :: c in tree && !Above(at, c) && old(PathIsRight(c)) ==> PathIsRight(c)
        decreases pending
      {
        var s :| s in pending;
        ChildOf(at, s);
        BelowChild(at, s);
        UpdatePaths(n.children[s], n.path, at + [s]);
        pending := pending - {s};
      }
    }

    lemma {:induction false} NodeAt(at: Position)
      requires Placed() && at in tree && at != []
      ensures tree[at] < |all| && all[tree[at]].name == Leaf(at)
      ensures forall c :: c in tree && c != at ==> tree[c] < |all| && all[tree[c]] != all[tree[at]]
    {
      assert Snapshot(all)[tree[at]] == RecordOf(all[tree[at]]);
      forall c | c in tree && c != at
        ensures tree[c] < |all| && all[tree[c]] != all[tree[at]]
      {
        assert all[tree[c]].id == tree[c];
        assert all[tree[at]].id == tree[at];
      }
    }

    lemma {:induction false} FirstStep(at: Position, c: Position)
      requires Placed() && at in tree && tree[at] < |all| && c in tree && Above(at, c) && c != at
      ensures c[|at|] in all[tree[at]].children
    {
      assert Above(at + [c[|at|]], c);
      ChildOf(at, c[|at|]);
    }

    lemma {:induction false} BelowChild(at: Position, s: Name)
      requires at in tree
      ensures Parent(at + [s]) == at
      ensures Below(at + [s]) < Below(at)
      ensures !Above(at + [s], at)
      ensures forall c :: Above(at, c) && c != at ==> (c[|at|] == s <==> Above(at + [s], c))
    {
      assert forall c :: Above(at + [s], c) ==> Above(at, c);
      assert at in Below(at) && at !in Below(at + [s]);
    }

    /** Rehang the node at `from` below `newUp` under the name `destName`; the paths
        cached in it and below it are stale afterwards. */
    method Rehang(oldUp: Node, srcName: Name, newUp: Node, destName: Name, ghost from: Position, ghost to: Position)
        returns (node: Node)
      requires Valid() && from != [] && to != [] && Movable(tree, from, to) && SlashFree(to)
      requires Parent(from) in tree && tree[Parent(from)] < |all| && oldUp == all[tree[Parent(from)]]
      requires tree[Parent(to)] < |all| && newUp == all[tree[Parent(to)]]
      requires srcName == Leaf(from) && destName == Leaf(to) && srcName in oldUp.children
      modifies this`tree, this`kids, all`name, all`children
      ensures Placed() && tree == Moved(old(tree), from, to)
      ensures State() == Fs(tree, old(State()).files)
      ensures old(tree)[from] < |all| && node == all[old(tree)[from]]
    {
      hide Consistent, Contents, Snapshot, Relink, PathOf, Moved, Relocated;
      ParentAndLeaf(from);
      ChildOf(Parent(from), srcName);
      Indexed(root, tree, kids, all, Snapshot(all), from);
      ghost var records, sp, tp, id := Snapshot(all), tree[Parent(from)], tree[Parent(to)], tree[from];
      RelocatedConsistent(root, tree, kids, all, records, from, to);
      node := oldUp.children[srcName];
      oldUp.children := oldUp.children - {srcName};
      node.name := destName;
      newUp.children := newUp.children[destName := node];
      kids, tree := Relink(kids, sp, srcName, tp, destName, id), Moved(tree, from, to);
      assert Snapshot(all) == Relocated(records, sp, srcName, id, tp, destName, node) by {
        forall i | 0 <= i < |all|
          ensures RecordOf(all[i]) == Relocated(records, sp, srcName, id, tp, destName, node)[i]
        {
          assert records[i] == old(RecordOf(all[i]));
          assert all[i].children == Rewired(old(all[i].children), i == sp, srcName, i == tp, destName, node);
        }
        SnapshotIs(all, Relocated(records, sp, srcName, id, tp, destName, node));
      }
    }

    /** Move the node at `from` below `newUp` under the name `destName`. */
    method Relocate(oldUp: Node, srcName: Name, newUp: Node, destName: Name, ghost from: Position, ghost to: Position)
      requires Valid() && from != [] && to != [] && Movable(tree, from, to) && SlashFree(to)
      requires Parent(from) in tree && tree[Parent(from)] < |all| && oldUp == all[tree[Parent(from)]]
      requires tree[Parent(to)] < |all| && newUp == all[tree[Parent(to)]]
      requires srcName == Leaf(from) && destName == Leaf(to) && srcName in oldUp.children
      modifies this`tree, this`kids, all
      ensures Valid()
      ensures State() == Fs(Moved(old(State()).tree, from, to), old(State()).files)
    {
      hide Consistent, Contents, Snapshot, PathOf, Moved;
      assert PathIsRight(Parent(to));
      MovedLookup(tree, from, to, to);
      RebaseSuffix(to, from, []);
      assert to + [] == to && from + [] == from;
      var node := Rehang(oldUp, srcName, newUp, destName, from, to);
      forall c | c in tree && !Above(to, c)
        ensures PathIsRight(c)
      {
        MovedLookup(old(tree), from, to, c);
        assert old(PathIsRight(c));
      }
      UpdatePaths(node, newUp.path, to);
    }

    method Rename(from: string, to: string) returns (ok: bool)
      requires Valid() && !MovesIntoItself(State(), from, to)
      modifies this`tree, this`all, this`kids, all
      ensures Valid() && Grown()
      ensures (State(), ok) == TreeModel.Rename(old(State()), from, to)
    {
      hide Consistent, State, Placed, TreeModel.Rename, TreeModel.CreatePath, Moved, Components, EntryOf, ParentPath, WellFormed,
           PrefixClosed, MovesIntoItself, PathOf, GetFileName;
      StateIsWellFormed();
      RenameCases(State(), from, to);
      var src := FindNode(from);
      if src == null {
        return false;
      }
      var sourceParent := FindEntry(from);
      if sourceParent == null {
        return false;
      }
      MoveEntry(sourceParent, from, to);
      return true;
    }

    /** The part of `rename` past its guards. */
    method MoveEntry(sourceParent: Node, from: string, to: string)
      requires Valid() && CanRename(State(), from) && !MovesIntoItself(State(), from, to)
      requires Parent(EntryOf(from)) in tree && tree[Parent(EntryOf(from))] < |all|
      requires sourceParent == all[tree[Parent(EntryOf(from))]] && GetFileName(from) in sourceParent.children
      modifies this`tree, this`all, this`kids, all
      ensures Valid() && Grown()
      ensures var mid := TreeModel.CreatePath(old(State()), ParentPath(to), true);
              State() == Fs(Moved(mid.tree, EntryOf(from), EntryOf(to)), mid.files)
    {
      hide Consistent, Contents, Snapshot, PathOf, Moved, GetDirName, GetFileName, Components, TreeModel.CreatePath,
           WellFormed, PrefixClosed, SlashFree, State, Placed;
      ghost var f, t := EntryOf(from), EntryOf(to);
      StateIsWellFormed();
      CreationKeeps(State(), ParentPath(to));
      ComponentsSlashFree(to);
      ParentPathComponents(to);
      ParentAndLeaf(f);
      var targetParent := CreatePath(ParentPath(to), true);
      StateIsWellFormed();
      ChildOf(Parent(f), GetFileName(from));
      ghost var mid := all;
      Relocate(sourceParent, GetFileName(from), targetParent, GetFileName(to), f, t);
      assert Grown() by {
        assert all == mid;
        GrownVia(mid);
      }
    }

    /** What a write to one node means for the whole file system. */
    twostate lemma {:induction false} NodeWritten(id: nat)
      requires old(Valid()) && id < |all|
      requires root == old(root) && tree == old(tree) && all == old(all) && kids == old(kids)
      requires forall i :: 0 <= i < |all| ==>
        && all[i].name == old(all[i].name) && all[i].path == old(all[i].path)
        && all[i].isDirectory == old(all[i].isDirectory) && all[i].children == old(all[i].children)
        && (all[i] != all[id] ==> all[i].data == old(all[i].data))
      ensures Valid()
      ensures State() == Fs(tree, old(State()).files[id := old(State()).files[id].(data := all[id].data)])
    {
      hide Consistent, Contents, Snapshot;
      ghost var records := old(Snapshot(all));
      RewrittenConsistent(root, tree, kids, all, records, id, all[id].data);
      assert Snapshot(all) == Rewritten(records, id, all[id].data) by {
        forall i | 0 <= i < |all|
          ensures RecordOf(all[i]) == Rewritten(records, id, all[id].data)[i]
        {
          assert records[i] == old(RecordOf(all[i]));
        }
        SnapshotIs(all, Rewritten(records, id, all[id].data));
      }
      assert forall c :: c in tree ==> old(PathIsRight(c));
    }

    lemma {:induction false} StateIsWellFormed()
      requires Placed()
      ensures WellFormed(State()) && State().tree == tree && |State().files| == |all|
      ensures forall i :: 0 <= i < |all| ==> State().files[i] == FileState(all[i].isDirectory, all[i].data)
      ensures PrefixClosed(tree)
      ensures forall c :: c in tree ==> tree[c] < |all|
    {
    }

    /** `open`: the handle, or null when there is no file to open. */
    method Open(path: string, mode: OpenMode) returns (file: MemoryFile?)
      requires Valid()
      modifies this`tree, this`all, this`kids, all
      ensures Valid() && Grown() && WellFormed(old(State()))
      ensures var (fs, id) := TreeModel.Open(old(State()), path, mode);
              && State() == fs
              && (file == null <==> id == None)
              && (file != null ==>
                    && fresh(file) && id.value < |all| && file.node == all[id.value]
                    && file.position == 0 && file.mode == mode && file.path == path
                    && (Components(path) != [] ==> file.name == Leaf(Components(path))))
    {
      hide Consistent, State, Placed, PathOf, Components, TreeModel.CreatePath, TreeModel.Open, WellFormed, PrefixClosed;
      OpenCases(State(), path, mode) by {
        StateIsWellFormed();
      }
      var node := FindOrMake(path, mode);
      if node == null {
        return null;
      }
      TreeIsState();
      KindOf(Components(path));
      if node.isDirectory {
        return null;
      }
      if Components(path) != [] {
        NodeAt(Components(path));
      }
      file := new MemoryFile(node, node.name, path, mode);
    }

    lemma {:induction false} TreeIsState()
      requires Placed()
      ensures State().tree == tree && |State().files| == |all|
    {
    }

    /** The part of `open` that finds the node or, unless only reading, makes it. */
    method FindOrMake(path: string, mode: OpenMode) returns (node: Node?)
      requires Valid()
      modifies this`tree, this`all, this`kids, all
      ensures Valid() && Grown() && WellFormed(old(State()))
      ensures node == null <==> Components(path) !in old(State()).tree && mode == OpenMode.Read
      ensures State() == if node == null || Components(path) in old(State()).tree then old(State())
                         else TreeModel.CreatePath(old(State()), path, false)
      ensures node != null ==> Components(path) in tree && tree[Components(path)] < |all| && node == all[tree[Components(path)]]
    {
      hide Consistent, State, Placed, PathOf, Components, TreeModel.CreatePath, WellFormed, PrefixClosed;
      StateIsWellFormed();
      node := FindNode(path);
      if node == null && mode != OpenMode.Read {
        node := CreatePath(path, false);
      }
    }

    lemma {:induction false} KindOf(c: Position)
      requires Placed() && c in tree
      ensures tree[c] < |all| == |State().files|
      ensures State().files[tree[c]] == FileState(all[tree[c]].isDirectory, all[tree[c]].data)
    {
      assert Snapshot(all)[tree[c]] == RecordOf(all[tree[c]]);
    }

    /** Looking up the path cached in the node at `c` finds that very node. */
    ghost predicate LeadsBack(c: Position)
      reads this, all`path
    {
      && c in tree && tree[c] < |all|
      && var d := Components(all[tree[c]].path);
         d in tree && tree[d] < |all| && all[tree[d]] == all[tree[c]]
    }

    /** It does exactly when no name on the way to the node is empty. */
    lemma {:induction false} CachedPathLeadsBack(c: Position)
      requires Valid() && c in tree
      ensures LeadsBack(c) <==> NoEmptyName(c)
    {
      hide PathOf, Components, NoEmptyName;
      assert PathIsRight(c);
      assert SlashFree(c);
      PathOfIsFoundExactly(c);
      var d := Components(PathOf(c));
      assert d in tree ==> all[tree[d]].id == tree[d];
      assert all[tree[c]].id == tree[c];
    }

    lemma {:induction false} AllLeadBackExactly()
      requires Valid()
      ensures (forall c :: c in tree ==> LeadsBack(c)) <==> AllNamed(State())
    {
      hide LeadsBack, Consistent;
      StateIsWellFormed();
      forall c | c in tree
        ensures LeadsBack(c) <==> NoEmptyName(c)
      {
        CachedPathLeadsBack(c);
      }
    }
  }

  /** An open handle: it holds the node itself, not its path. */
  class MemoryFile {
    const node: Node
    const name: string
    const path: string
    const mode: OpenMode
    var position: nat
    var closed: bool

    constructor (node: Node, name: string, path: string, mode: OpenMode)
      ensures this.node == node && this.name == name && this.path == path && this.mode == mode
      ensures position == 0 && !closed
    {
      this.node := node;
      this.name := name;
      this.path := path;
      this.mode := mode;
      position, closed := 0, false;
    }

    method Close()
      modifies this`closed
      ensures closed
    {
      closed := true;
    }

    method Size() returns (size: nat)
      ensures size == |node.data|
    {
      return |node.data|;
    }

    method Available() returns (a: ByteAvailability)
      ensures a == if position >= |node.data| then EXHAUSTED_RESULT else Count(|node.data| - position)
    {
      if position >= |node.data| {
        return EXHAUSTED_RESULT;
      }
      return AvailableBytes(|node.data| - position);
    }

    /** Copies the next bytes to the front of `buffer`; neither the mode nor `closed` matters. */
    method Peek(buffer: array<byte>) returns (n: nat)
      modifies buffer
      ensures n == if position < |node.data| then Min(buffer.Length, |node.data| - position) else 0
      ensures forall k :: 0 <= k < n ==> buffer[k] == node.data[position + k]
      ensures n == |Slice(node.data, position, buffer.Length)| <= buffer.Length
      ensures buffer[..n] == Slice(node.data, position, buffer.Length)
      ensures buffer[n..] == old(buffer[n..])
    {
      if position >= |node.data| {
        return 0;
      }
      n := Min(buffer.Length, |node.data| - position);
      forall i | 0 <= i < n {
        buffer[i] := node.data[position + i];
      }
    }

    method Read(buffer: array<byte>) returns (n: nat)
      modifies this`position, buffer
      ensures n == if old(position) < |node.data| then Min(buffer.Length, |node.data| - old(position)) else 0
      ensures forall k :: 0 <= k < n ==> buffer[k] == node.data[old(position) + k]
      ensures n == |Slice(node.data, old(position), buffer.Length)| <= buffer.Length
      ensures buffer[..n] == Slice(node.data, old(position), buffer.Length)
      ensures buffer[n..] == old(buffer[n..])
      ensures position == old(position) + n
    {
      n := Peek(buffer);
      position := position + n;
    }

    /** Extends the file when the write goes past its end, then overwrites in place. */
    method Write(bytes: seq<byte>) returns (n: nat)
      modifies this`position, node`data
      ensures n == if mode == OpenMode.Read then 0 else |bytes|
      ensures position == old(position) + n
      ensures node.data == if mode == OpenMode.Read then old(node.data)
                           else Written(old(node.data), old(position), bytes)
    {
      if mode == OpenMode.Read {
        return 0;
      }
      var need := position + |bytes|;
      if |node.data| < need {
        node.data := node.data + seq(need - |node.data|, _ => 0 as byte);
      }
      node.data := node.data[..position] + bytes + node.data[need..];
      position := need;
      return |bytes|;
    }
  }

  lemma {:induction false} RenameCases(fs: Fs, from: string, to: string)
    ensures !CanRename(fs, from) ==> TreeModel.Rename(fs, from, to) == (fs, false)
    ensures CanRename(fs, from) ==>
            var mid := TreeModel.CreatePath(fs, ParentPath(to), true);
            TreeModel.Rename(fs, from, to) == (Fs(Moved(mid.tree, EntryOf(from), EntryOf(to)), mid.files), true)
  {
  }

  lemma {:induction false} OpenCases(fs: Fs, path: string, mode: OpenMode)
    requires WellFormed(fs)
    ensures Components(path) !in fs.tree && mode == OpenMode.Read ==> TreeModel.Open(fs, path, mode) == (fs, None)
    ensures Components(path) in fs.tree || mode != OpenMode.Read ==>
            var c := Components(path);
            var r := if c in fs.tree then fs else TreeModel.CreatePath(fs, path, false);
            && c in r.tree && r.tree[c] < |r.files|
            && TreeModel.Open(fs, path, mode) == (r, if r.files[r.tree[c]].isDirectory then None else Some(r.tree[c]))
  {
    CreatePathCorrect(fs, path, false);
  }

  /** Creating a path leaves every known position and the kinds of all but the last in place. */
  lemma {:induction false} CreationKeeps(fs: Fs, path: string)
    requires WellFormed(fs)
    ensures var r := TreeModel.CreatePath(fs, path, true);
            && (forall c :: c in fs.tree ==> c in r.tree && r.tree[c] == fs.tree[c])
            && Components(path) in r.tree
  {
    CreatePathCorrect(fs, path, true);
  }

  ghost function Rewired(children: map<Name, Node>, cut: bool, srcName: Name, linked: bool, destName: Name, node: Node): map<Name, Node> {
    var kept := if cut then children - {srcName} else children;
    if linked then kept[destName := node] else kept
  }

  /** The records after the link edits of a rename. */
  ghost function Relocated(records: seq<Record>, sp: nat, srcName: Name, id: nat, tp: nat, destName: Name, node: Node): (r: seq<Record>)
    requires sp < |records| && id < |records| && tp < |records|
    ensures |r| == |records|
    ensures forall i :: 0 <= i < |r| ==>
              && r[i].name == (if i == id then destName else records[i].name)
              && r[i].isDirectory == records[i].isDirectory
              && r[i].data == records[i].data
              && r[i].children == Rewired(records[i].children, i == sp, srcName, i == tp, destName, node)
  {
    var cut := records[sp := records[sp].(children := records[sp].children - {srcName})];
    var renamed := cut[id := cut[id].(name := destName)];
    renamed[tp := renamed[tp].(children := renamed[tp].children[destName := node])]
  }

  lemma {:induction false} RelocatedConsistent(root: Node, tree: Tree, kids: Kids, all: seq<Node>, records: seq<Record>,
                            from: Position, to: Position)
    requires Consistent(root, tree, kids, all, records)
    requires Movable(tree, from, to) && SlashFree(to) && Parent(from) in tree
    ensures var (sp, tp, id) := (tree[Parent(from)], tree[Parent(to)], tree[from]);
            && sp < |all| == |records| == |kids| && tp < |all| && id < |all|
            && Consistent(root, Moved(tree, from, to), Relink(kids, sp, Leaf(from), tp, Leaf(to), id), all,
                          Relocated(records, sp, Leaf(from), id, tp, Leaf(to), all[id]))
            && Contents(Relocated(records, sp, Leaf(from), id, tp, Leaf(to), all[id])) == Contents(records)
  {
    hide Moved, Relink, WellFormed, Coupled, LinkAt, OneParentEach, PrefixClosed;
    var sp, tp, id := tree[Parent(from)], tree[Parent(to)], tree[from];
    var tree', kids' := Moved(tree, from, to), Relink(kids, sp, Leaf(from), tp, Leaf(to), id);
    var records' := Relocated(records, sp, Leaf(from), id, tp, Leaf(to), all[id]);
    TreeParts(Fs(tree, Contents(records)));
    RelocatedNames(tree, records, from, to, all[id]);
    RelinkLength(kids, sp, Leaf(from), tp, Leaf(to), id);
    forall i | 0 <= i < |all|
      ensures Coupled(all, records', kids', i)
    {
      RelocatedCoupled(all, records, kids, sp, Leaf(from), id, tp, Leaf(to), i);
    }
    assert Contents(records') == Contents(records);
    MovedWellFormed(Fs(tree, Contents(records)), from, to);
    RelinkLinked(tree, kids, from, to);
  }

  lemma {:induction false} TreeParts(fs: Fs)
    requires WellFormed(fs)
    ensures OneParentEach(fs.tree) && PrefixClosed(fs.tree)
    ensures forall c :: c in fs.tree ==> fs.tree[c] < |fs.files|
  {
  }

  lemma {:induction false} RelinkLength(kids: Kids, oldUp: nat, oldName: Name, newUp: nat, newName: Name, id: nat)
    requires oldUp < |kids| && newUp < |kids|
    ensures |Relink(kids, oldUp, oldName, newUp, newName, id)| == |kids|
  {
  }

  lemma {:induction false} RelocatedCoupled(all: seq<Node>, records: seq<Record>, kids: Kids,
                                            sp: nat, srcName: Name, id: nat, tp: nat, destName: Name, i: nat)
    requires sp < |all| == |records| == |kids| && id < |all| && tp < |all| && i < |all|
    requires Coupled(all, records, kids, i)
    ensures Coupled(all, Relocated(records, sp, srcName, id, tp, destName, all[id]), Relink(kids, sp, srcName, tp, destName, id), i)
  {
  }

  lemma {:induction false} RelocatedNames(tree: Tree, records: seq<Record>, from: Position, to: Position, node: Node)
    requires OneParentEach(tree) && Named(tree, records) && Movable(tree, from, to) && Parent(from) in tree
    requires forall c :: c in tree ==> tree[c] < |records|
    ensures Named(Moved(tree, from, to),
                  Relocated(records, tree[Parent(from)], Leaf(from), tree[from], tree[Parent(to)], Leaf(to), node))
  {
    hide Moved, Relocated;
    var tree' := Moved(tree, from, to);
    forall c | c in tree' && c != []
      ensures tree'[c] < |records|
      ensures if tree'[c] == tree[from] then Leaf(to) == Leaf(c) else records[tree'[c]].name == Leaf(c)
    {
      MovedLookup(tree, from, to, c);
      if Above(to, c) {
        SameLeaf(c, to, from);
      } else {
        assert Above(from, from);
      }
    }
  }

  lemma {:induction false} SameLeaf(c: Position, from: Position, to: Position)
    requires Above(from, c) && to != [] && from != []
    ensures c != from ==> Rebase(c, from, to) != to && Leaf(Rebase(c, from, to)) == Leaf(c)
    ensures c == from ==> Rebase(c, from, to) == to
    ensures Rebase(c, from, to) != []
  {
  }

  ghost function Rewritten(records: seq<Record>, id: nat, data: seq<byte>): seq<Record>
    requires id < |records|
  {
    records[id := records[id].(data := data)]
  }

  /** Changing the bytes of one node keeps the invariant. */
  lemma {:induction false} RewrittenConsistent(root: Node, tree: Tree, kids: Kids, all: seq<Node>, records: seq<Record>, id: nat, data: seq<byte>)
    requires Consistent(root, tree, kids, all, records) && id < |records|
    ensures Consistent(root, tree, kids, all, Rewritten(records, id, data))
    ensures Contents(Rewritten(records, id, data)) == Contents(records)[id := Contents(records)[id].(data := data)]
    ensures |records| == |all| && forall i :: 0 <= i < |all| ==> all[i].id == i
  {
    var records' := Rewritten(records, id, data);
    forall i | 0 <= i < |all|
      ensures Coupled(all, records', kids, i)
    {
      assert Coupled(all, records, kids, i);
    }
    assert Contents(records') == Contents(records)[id := Contents(records)[id].(data := data)];
  }

  ghost function Detached(records: seq<Record>, id: nat, name: Name): seq<Record>
    requires id < |records|
  {
    records[id := records[id].(children := records[id].children - {name})]
  }

  lemma {:induction false} DetachedConsistent(root: Node, tree: Tree, kids: Kids, all: seq<Node>, records: seq<Record>, e: Position)
    requires Consistent(root, tree, kids, all, records)
    requires e != [] && e in tree && Parent(e) in tree
    ensures tree[Parent(e)] < |records| == |kids|
    ensures Consistent(root, Without(tree, e), Detach(kids, tree[Parent(e)], Leaf(e)), all,
                       Detached(records, tree[Parent(e)], Leaf(e)))
    ensures Contents(Detached(records, tree[Parent(e)], Leaf(e))) == Contents(records)
  {
    var tree', kids' := Without(tree, e), Detach(kids, tree[Parent(e)], Leaf(e));
    var records' := Detached(records, tree[Parent(e)], Leaf(e));
    assert Contents(records') == Contents(records);
    assert WellFormed(Fs(tree', Contents(records'))) by {
      WithoutWellFormed(Fs(tree, Contents(records)), e);
    }
    assert Linked(tree', kids') by {
      DetachLinked(tree, kids, e);
    }
    forall i | 0 <= i < |all|
      ensures Coupled(all, records', kids', i)
    {
      assert Coupled(all, records, kids, i);
    }
  }

  lemma {:induction false} CreateAlongUnrolls(fs: Fs, at: Position, rest: Position, trailing: bool, asDirectory: bool)
    requires rest != []
    ensures CreateAlong(fs, at, rest, trailing, asDirectory)
      == (var last := |rest| == 1 && !trailing;
          CreateAlong(CreateStep(fs, at + [rest[0]], !last || asDirectory, last && asDirectory),
                      at + [rest[0]], rest[1..], trailing, asDirectory))
  {
  }

  lemma {:induction false} CreateAlongEnds(fs: Fs, at: Position, trailing: bool, asDirectory: bool)
    ensures CreateAlong(fs, at, [], trailing, asDirectory) == fs
  {
  }

  lemma {:induction false} CreateStepOfMissing(fs: Fs, c: Position, directory: bool, mark: bool)
    requires c !in fs.tree
    ensures CreateStep(fs, c, directory, mark) == CreateStep(fs, c, directory, false)
  {
  }

  lemma {:induction false} CreateStepOfPresent(fs: Fs, c: Position, directory: bool, mark: bool)
    requires c in fs.tree
    ensures CreateStep(fs, c, directory, mark) == if mark then CreateStep(fs, c, true, true) else fs
  {
  }

  ghost function Marked(records: seq<Record>, id: nat): seq<Record>
    requires id < |records|
  {
    records[id := records[id].(isDirectory := true)]
  }

  lemma {:induction false} MarkedConsistent(root: Node, tree: Tree, kids: Kids, all: seq<Node>, records: seq<Record>, at: Position)
    requires Consistent(root, tree, kids, all, records) && at in tree
    ensures tree[at] < |records|
    ensures Consistent(root, tree, kids, all, Marked(records, tree[at]))
    ensures Fs(tree, Contents(Marked(records, tree[at]))) == CreateStep(Fs(tree, Contents(records)), at, true, true)
  {
    var records' := Marked(records, tree[at]);
    assert Contents(records') == Contents(records)[tree[at] := Contents(records)[tree[at]].(isDirectory := true)];
    forall i | 0 <= i < |all|
      ensures Coupled(all, records', kids, i)
    {
      assert Coupled(all, records, kids, i);
    }
  }

  lemma {:induction false} Indexed(root: Node, tree: Tree, kids: Kids, all: seq<Node>, records: seq<Record>, at: Position)
    requires Consistent(root, tree, kids, all, records) && at in tree
    ensures |kids| == |all| == |records| && tree[at] < |all|
    ensures forall i :: 0 <= i < |all| ==> all[i].id == i
  {
  }

  lemma {:induction false} SnapshotIs(nodes: seq<Node>, records: seq<Record>)
    requires |nodes| == |records|
    requires forall i :: 0 <= i < |nodes| ==> RecordOf(nodes[i]) == records[i]
    ensures Snapshot(nodes) == records
  {
  }

  /** The records after a new node with record `r` was linked as `name` below node `id`. */
  ghost function Attached(records: seq<Record>, id: nat, name: Name, node: Node, r: Record): seq<Record>
    requires id < |records|
  {
    records[id := records[id].(children := records[id].children[name := node])] + [r]
  }

  lemma {:induction false} AttachedContents(tree: Tree, records: seq<Record>, at: Position, name: Name, node: Node, r: Record)
    requires at in tree && tree[at] < |records| && at + [name] !in tree && r.data == []
    ensures Fs(tree[at + [name] := |records|], Contents(Attached(records, tree[at], name, node, r)))
      == CreateStep(Fs(tree, Contents(records)), at + [name], r.isDirectory, false)
  {
    assert Contents(Attached(records, tree[at], name, node, r)) == Contents(records) + [FileState(r.isDirectory, [])];
  }

  lemma {:induction false} AttachedShape(root: Node, tree: Tree, kids: Kids, all: seq<Node>, records: seq<Record>,
                      at: Position, name: Name, node: Node, r: Record)
    requires Shape(root, tree, kids, all, records)
    requires at in tree && at + [name] !in tree && '/' !in name
    requires node.id == |all| && r.data == [] && r.children == map[]
    ensures Shape(root, tree[at + [name] := |all|], Attach(kids, tree[at], name, |all|) + [map[]], all + [node],
                  Attached(records, tree[at], name, node, r))
  {
    var tree', kids', all' := tree[at + [name] := |all|], Attach(kids, tree[at], name, |all|) + [map[]], all + [node];
    var records' := Attached(records, tree[at], name, node, r);
    assert WellFormed(Fs(tree', Contents(records'))) by {
      AttachedContents(tree, records, at, name, node, r);
      CreateStepCorrect(Fs(tree, Contents(records)), at, name, r.isDirectory, false);
    }
    assert Linked(tree', kids') by {
      AttachNewLinked(tree, kids, at, name);
    }
    forall i | 0 <= i < |all'|
      ensures Coupled(all', records', kids', i)
    {
      assert i < |all| ==> Coupled(all, records, kids, i);
    }
  }

  lemma {:induction false} AttachedNames(tree: Tree, records: seq<Record>, at: Position, name: Name, node: Node, r: Record)
    requires Named(tree, records)
    requires at in tree && at + [name] !in tree && (forall c :: c in tree ==> tree[c] < |records|)
    requires r.name == name
    ensures Named(tree[at + [name] := |records|], Attached(records, tree[at], name, node, r))
  {
    var tree', records' := tree[at + [name] := |records|], Attached(records, tree[at], name, node, r);
    ChildPosition(at, name);
  }

  lemma {:induction false} AttachedConsistent(root: Node, tree: Tree, kids: Kids, all: seq<Node>, records: seq<Record>,
                           at: Position, name: Name, node: Node, r: Record)
    requires Consistent(root, tree, kids, all, records)
    requires at in tree && at + [name] !in tree && '/' !in name
    requires node.id == |all| && r.data == [] && r.children == map[]
    requires r.name == name
    ensures tree[at] < |all| == |records| == |kids|
    ensures Consistent(root, tree[at + [name] := |all|], Attach(kids, tree[at], name, |all|) + [map[]], all + [node],
                       Attached(records, tree[at], name, node, r))
    ensures Fs(tree[at + [name] := |all|], Contents(Attached(records, tree[at], name, node, r)))
      == CreateStep(Fs(tree, Contents(records)), at + [name], r.isDirectory, false)
  {
    AttachedShape(root, tree, kids, all, records, at, name, node, r);
    AttachedNames(tree, records, at, name, node, r);
    AttachedContents(tree, records, at, name, node, r);
  }

  lemma {:induction false} NoNames()
    ensures Split("") == [] && Components("") == [] && Components("/") == []
  {
  }

  lemma {:induction false} ConsumeName(at: Position, rest: Position)
    requires rest != []
    ensures (at + [rest[0]]) + rest[1..] == at + rest
    ensures Above(at + [rest[0]], at + rest)
  {
  }

  lemma {:induction false} LastNameAt(p: string, pos: nat)
    requires pos < |p| && NextSeparator(p, pos) == |p|
    ensures Split(p[pos..]) == [p[pos..]] && '/' !in p[pos..]
  {
    hide Split, NextSeparator;
    SuffixSeparator(p, pos);
    SplitFirst(p[pos..]);
    assert p[pos..][..|p| - pos] == p[pos..];
  }

  lemma {:induction false} NameAt(p: string, pos: nat, next: nat)
    requires pos < |p| && next == NextSeparator(p, pos) < |p|
    ensures pos <= next && '/' !in p[pos..next]
    ensures Split(p[pos..]) == [p[pos..next]] + Split(p[next + 1..])
    ensures next + 1 < |p| ==> Split(p[next + 1..]) != []
  {
    hide Split, NextSeparator;
    SuffixSeparator(p, pos);
    SplitFirst(p[pos..]);
    assert p[pos..][..next - pos] == p[pos..next];
    assert p[pos..][next - pos + 1..] == p[next + 1..];
    if next + 1 < |p| {
      SplitFirst(p[next + 1..]);
    }
  }

  lemma {:induction false} SuffixSeparator(p: string, pos: nat)
    requires pos < |p|
    ensures NextSeparator(p[pos..], 0) == NextSeparator(p, pos) - pos
  {
    var next, first := NextSeparator(p, pos), NextSeparator(p[pos..], 0);
    assert next < |p| ==> p[pos..][next - pos] == '/';
    assert first < |p| - pos ==> p[pos + first] == '/';
    assert forall k :: 0 <= k < |p| - pos ==> p[pos..][k] == p[pos + k];
  }

  /** One turn of the splitting loop: the next component, whether it is the last one
      with no separator after it, and where to go on. */
  method TakeName(p: string, pos: nat) returns (part: Name, last: bool, after: nat)
    requires pos < |p|
    ensures pos < after <= |p|
    ensures Split(p[pos..]) != [] && part == Split(p[pos..])[0]
    ensures Split(p[after..]) == Split(p[pos..])[1..]
    ensures last <==> |Split(p[pos..])| == 1 && !EndsWithSeparator(p)
    ensures '/' !in part
  {
    hide Split, NextSeparator;
    NoNames();
    var next := NextSeparator(p, pos);
    if next == |p| {
      part, last, after := p[pos..], true, |p|;
      LastNameAt(p, pos);
      assert p[|p|..] == "";
      assert p[|p| - 1] == part[|part| - 1];
    } else {
      part, last, after := p[pos..next], false, next + 1;
      NameAt(p, pos, next);
      assert next + 1 == |p| ==> EndsWithSeparator(p);
    }
  }
}
