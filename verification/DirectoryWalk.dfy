/**
 `list` over the real nodes: a depth-first walk that hands each entry to a callback
 and stops at its first false answer.
 */
module DirectoryWalk {
  import opened Positions
  import opened TreeModel
  import opened Listing
  import opened MemoryFileAdapter

  function EntryAt(fs: Fs, c: Position): DirectoryEntry
  {
    DirectoryEntry(if c == [] then "/" else Leaf(c), PathOf(c), IsDir(fs, c))
  }

  function Entries(fs: Fs, cs: seq<Position>): seq<DirectoryEntry> {
    if cs == [] then [] else [EntryAt(fs, cs[0])] + Entries(fs, cs[1..])
  }

  lemma {:induction false} EntriesConcat(fs: Fs, a: seq<Position>, b: seq<Position>)
    ensures Entries(fs, a + b) == Entries(fs, a) + Entries(fs, b)
    decreases |a|
  {
    if a == [] {
      assert a + b == b;
    } else {
      assert (a + b)[1..] == a[1..] + b;
      EntriesConcat(fs, a[1..], b);
    }
  }

  /** The least key, as the ordered map yields it first. */
  method FirstKey(names: set<Name>) returns (m: Name)
    requires names != {}
    ensures m == Least(names)
    ensures m in names && forall n :: n in names && n != m ==> exists k :: LessAt(m, n, k)
  {
    m :| m in names;
    var rest := names - {m};
    while rest != {}
      invariant rest <= names && m in names && m !in rest
      invariant forall n :: n in names && n !in rest ==> n == m || NameLess(m, n)
      decreases rest
    {
      var n :| n in rest;
      forall k
        ensures NameLess(n, m) && NameLess(m, k) ==> NameLess(n, k)
        ensures k == m || NameLess(m, k) || NameLess(k, m)
      {
        NameLessIsOrder(n, m, k);
        NameLessIsOrder(k, m, k);
      }
      if NameLess(n, m) {
        m := n;
      }
      rest := rest - {n};
    }
    LeastIsUnique(m, Least(names), names);
    forall n | n in names && n != m
      ensures exists k :: LessAt(m, n, k)
    {
      NameLessExactly(m, n);
    }
  }

  /** The listing of several children is the first one, what is below it, and the others. */
  lemma {:induction false} FirstChildListed(fs: Fs, c: Position, names: set<Name>, recursive: bool)
    requires c in fs.tree && names != {}
    requires forall n :: n in names ==> c + [n] in fs.tree
    ensures c + [Least(names)] in fs.tree
    ensures var m := Least(names);
            var below := if recursive && IsDir(fs, c + [m]) then ListAll(fs, c + [m], recursive) else [];
            ListFrom(fs, c, SortedNames(names), recursive)
            == [c + [m]] + below + ListFrom(fs, c, SortedNames(names - {m}), recursive)
  {
    hide ListAll, IsDir;
    var m := Least(names);
    assert SortedNames(names) == [m] + SortedNames(names - {m});
    assert SortedNames(names)[1..] == SortedNames(names - {m});
  }

  lemma {:induction false} EntriesOfParts(fs: Fs, d: Position, below: seq<Position>, rest: seq<Position>)
    ensures Entries(fs, [d] + below + rest) == [EntryAt(fs, d)] + (Entries(fs, below) + Entries(fs, rest))
  {
    assert [d] + below + rest == [d] + (below + rest);
    EntriesConcat(fs, below, rest);
    assert ([d] + (below + rest))[1..] == below + rest;
    hide EntryAt;
  }

  lemma {:induction false} DeliverHead<E>(e: E, below: seq<E>, rest: seq<E>, heard: seq<E>, accept: seq<E> -> bool)
    ensures var now := heard + [e];
            Deliver([e] + (below + rest), heard, accept)
            == if !accept(now) then (now, false)
               else if !Deliver(below, now, accept).1 then Deliver(below, now, accept)
               else Deliver(rest, Deliver(below, now, accept).0, accept)
  {
    assert ([e] + (below + rest))[1..] == below + rest;
    DeliverConcat(below, rest, heard + [e], accept);
  }

  /** What the walk does with the first child: its entry, then what is below it. */
  lemma {:induction false} DeliverFirstChild(fs: Fs, c: Position, names: set<Name>, recursive: bool,
                                             heard: seq<DirectoryEntry>, accept: seq<DirectoryEntry> -> bool)
    requires c in fs.tree && names != {}
    requires forall n :: n in names ==> c + [n] in fs.tree
    ensures var m := Least(names);
            var d := c + [m];
            var now := heard + [EntryAt(fs, d)];
            var below := if recursive && IsDir(fs, d) then Deliver(Entries(fs, ListAll(fs, d, recursive)), now, accept) else (now, true);
            Deliver(Entries(fs, ListFrom(fs, c, SortedNames(names), recursive)), heard, accept)
            == if !accept(now) then (now, false)
               else if !below.1 then below
               else Deliver(Entries(fs, ListFrom(fs, c, SortedNames(names - {m}), recursive)), below.0, accept)
  {
    hide Deliver, Entries, EntryAt, ListFrom, ListAll, SortedNames, IsDir;
    var m := Least(names);
    var d := c + [m];
    FirstChildListed(fs, c, names, recursive);
    var below := if recursive && IsDir(fs, d) then ListAll(fs, d, recursive) else [];
    var rest := ListFrom(fs, c, SortedNames(names - {m}), recursive);
    EntriesOfParts(fs, d, below, rest);
    DeliverHead(EntryAt(fs, d), Entries(fs, below), Entries(fs, rest), heard, accept);
    NothingToDeliver(fs, heard + [EntryAt(fs, d)], accept);
  }

  lemma {:induction false} NothingToDeliver(fs: Fs, heard: seq<DirectoryEntry>, accept: seq<DirectoryEntry> -> bool)
    ensures Deliver(Entries(fs, []), heard, accept) == (heard, true)
  {
  }

  lemma {:induction false} EntryOfNode(fs: MemoryFileSystem, c: Position)
    requires fs.Valid() && c in fs.tree && c != []
    ensures fs.tree[c] < |fs.all|
    ensures var n := fs.all[fs.tree[c]];
            DirectoryEntry(n.name, n.path, n.isDirectory) == EntryAt(fs.State(), c)
  {
    fs.NodeAt(c);
    fs.KindOf(c);
    assert fs.PathIsRight(c);
  }

  lemma {:induction false} ChildKeys(fs: MemoryFileSystem, c: Position)
    requires fs.Valid() && c in fs.tree
    ensures fs.tree[c] < |fs.all|
    ensures fs.all[fs.tree[c]].children.Keys == ChildNames(fs.State(), c)
  {
    forall n
      ensures n in fs.all[fs.tree[c]].children <==> n in ChildNames(fs.State(), c)
    {
      fs.ChildOf(c, n);
      ChildNamesAre(fs.State(), c, n);
    }
  }

  method Walk(fs: MemoryFileSystem, n: Node, ghost at: Position, recursive: bool,
              heard: seq<DirectoryEntry>, accept: seq<DirectoryEntry> -> bool)
      returns (all: seq<DirectoryEntry>, ok: bool)
    requires fs.Valid() && at in fs.tree && fs.tree[at] < |fs.all| && n == fs.all[fs.tree[at]]
    ensures at in fs.State().tree
    ensures (all, ok) == Deliver(Entries(fs.State(), ListAll(fs.State(), at, recursive)), heard, accept)
    decreases Subtree(fs.State(), at)
  {
    hide MemoryFileSystem.State, MemoryFileSystem.Valid, Entries, Deliver, ListFrom, ListAll, EntryAt, SortedNames,
         Subtree, IsLeast, IsDir, ChildNames;
    TreeIs(fs);
    ghost var state := fs.State();
    ghost var goal := Deliver(Entries(state, ListAll(state, at, recursive)), heard, accept);
    all, ok := heard, true;
    var remaining := n.children.Keys;
    ListAllUnfolds(fs, at, recursive);
    while remaining != {}
      invariant remaining <= n.children.Keys
      invariant forall s :: s in remaining ==> at + [s] in state.tree
      invariant Deliver(Entries(state, ListFrom(state, at, SortedNames(remaining), recursive)), all, accept) == goal
      decreases remaining
    {
      DeliverFirstChild(state, at, remaining, recursive, all, accept);
      var s := FirstKey(remaining);
      assert s in remaining by { LeastIsIn(remaining); }
      ChildFacts(fs, at, s);
      var child := n.children[s];
      all := all + [DirectoryEntry(child.name, child.path, child.isDirectory)];
      if !accept(all) {
        return all, false;
      }
      if recursive && child.isDirectory {
        SubtreeShrinks(state, at, s);
        all, ok := Walk(fs, child, at + [s], recursive, all, accept);
        if !ok {
          return all, false;
        }
      }
      remaining := remaining - {s};
    }
    DeliverNothing(state, at, recursive, all, accept);
  }

  lemma {:induction false} ChildFacts(fs: MemoryFileSystem, at: Position, s: Name)
    requires fs.Valid() && at in fs.tree && fs.tree[at] < |fs.all| && s in fs.all[fs.tree[at]].children
    ensures at + [s] in fs.tree && fs.tree[at + [s]] < |fs.all|
    ensures var child := fs.all[fs.tree[at]].children[s];
            && child == fs.all[fs.tree[at + [s]]]
            && DirectoryEntry(child.name, child.path, child.isDirectory) == EntryAt(fs.State(), at + [s])
            && child.isDirectory == IsDir(fs.State(), at + [s])
  {
    fs.ChildOf(at, s);
    EntryOfNode(fs, at + [s]);
    KindAt(fs, at + [s]);
  }

  lemma {:induction false} LeastIsIn(names: set<Name>)
    requires names != {}
    ensures Least(names) in names
  {
  }

  lemma {:induction false} TreeIs(fs: MemoryFileSystem)
    requires fs.Valid()
    ensures fs.State().tree == fs.tree
  {
  }

  lemma {:induction false} ListAllUnfolds(fs: MemoryFileSystem, c: Position, recursive: bool)
    requires fs.Valid() && c in fs.tree
    ensures fs.tree[c] < |fs.all|
    ensures forall s :: s in fs.all[fs.tree[c]].children.Keys ==> c + [s] in fs.State().tree
    ensures ListAll(fs.State(), c, recursive)
         == ListFrom(fs.State(), c, SortedNames(fs.all[fs.tree[c]].children.Keys), recursive)
  {
    ChildKeys(fs, c);
    forall s
      ensures s in fs.all[fs.tree[c]].children.Keys ==> c + [s] in fs.State().tree
    {
      ChildNamesAre(fs.State(), c, s);
    }
  }

  lemma {:induction false} KindAt(fs: MemoryFileSystem, c: Position)
    requires fs.Valid() && c in fs.tree
    ensures fs.tree[c] < |fs.all|
    ensures fs.all[fs.tree[c]].isDirectory == IsDir(fs.State(), c)
  {
    fs.KindOf(c);
  }

  lemma {:induction false} DeliverNothing(fs: Fs, c: Position, recursive: bool,
                                          heard: seq<DirectoryEntry>, accept: seq<DirectoryEntry> -> bool)
    requires c in fs.tree
    ensures Deliver(Entries(fs, ListFrom(fs, c, SortedNames({}), recursive)), heard, accept) == (heard, true)
  {
  }

  /** The result of `list`: false for a missing path, one entry for a file, the walk of
      everything visible below a directory. */
  ghost function Listed(fs: Fs, path: string, recursive: bool, accept: seq<DirectoryEntry> -> bool): (seq<DirectoryEntry>, bool)
  {
    var c := Components(path);
    if c !in fs.tree then ([], false)
    else if !IsDir(fs, c) then Deliver([EntryAt(fs, c)], [], accept)
    else Deliver(Entries(fs, ListAll(fs, c, recursive)), [], accept)
  }

  /** The three cases: nothing is heard of a missing path, a file is its own one entry, and of
      a directory the walk is delivered. */
  lemma {:induction false} ListedCases(fs: Fs, path: string, recursive: bool, accept: seq<DirectoryEntry> -> bool)
    ensures var (heard, ok) := Listed(fs, path, recursive, accept);
            var c := Components(path);
            && (c !in fs.tree ==> heard == [] && !ok)
            && (c in fs.tree && !IsDir(fs, c) ==>
                  && heard == [DirectoryEntry(if c == [] then "/" else Leaf(c), PathOf(c), false)]
                  && ok == accept(heard))
            && (IsDir(fs, c) ==> (heard, ok) == Deliver(Entries(fs, ListAll(fs, c, recursive)), [], accept))
  {
    hide Components, ListAll, Deliver, Entries;
    if Components(path) in fs.tree && !IsDir(fs, Components(path)) {
      DeliverOne(EntryAt(fs, Components(path)), accept);
    }
  }

  method List(fs: MemoryFileSystem, path: string, recursive: bool, accept: seq<DirectoryEntry> -> bool)
      returns (heard: seq<DirectoryEntry>, ok: bool)
    requires fs.Valid()
    ensures (heard, ok) == Listed(fs.State(), path, recursive, accept)
  {
    hide MemoryFileSystem.State, MemoryFileSystem.Placed, Entries, ListAll, EntryAt, Components, IsDir;
    fs.StateIsWellFormed();
    var node := fs.FindNode(path);
    if node == null {
      return [], false;
    }
    ghost var c := Components(path);
    KindAt(fs, c);
    if !node.isDirectory {
      RootIsDir(fs);
      EntryOfNode(fs, c);
      heard := [DirectoryEntry(node.name, node.path, false)];
      ok := accept(heard);
      DeliverOne(heard[0], accept);
    } else {
      heard, ok := Walk(fs, node, c, recursive, [], accept);
    }
  }

  lemma {:induction false} RootIsDir(fs: MemoryFileSystem)
    requires fs.Valid()
    ensures IsDir(fs.State(), [])
  {
    fs.StateIsWellFormed();
  }

  lemma {:induction false} DeliverOne<E>(e: E, accept: seq<E> -> bool)
    ensures Deliver([e], [], accept) == ([e], accept([e]))
  {
    assert [] + [e] == [e];
  }
}
