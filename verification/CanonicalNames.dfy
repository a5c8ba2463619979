/**
 When cached paths stay true: which calls keep every name of the tree non-empty, so
 that looking up the path a node caches finds that node.
 */
module CanonicalNames {
  import opened PathUtility
  import opened Positions
  import opened TreeModel
  import opened Runs

  lemma {:induction false} PrefixNamed(d: Position, c: Position)
    requires Above(d, c) && NoEmptyName(c)
    ensures NoEmptyName(d)
  {
    forall i | 0 <= i < |d|
      ensures d[i] != ""
    {
      assert d[i] == c[i];
    }
  }

  /** Creation keeps all names non-empty exactly when it adds nothing or names nothing "". */
  lemma {:induction false} CreationKeepsNamesExactly(fs: Fs, path: string, asDirectory: bool)
    requires WellFormed(fs) && AllNamed(fs)
    ensures AllNamed(CreatePath(fs, path, asDirectory))
      <==> Components(path) in fs.tree || NoEmptyName(Components(path))
  {
    CreatePathCorrect(fs, path, asDirectory);
    hide CreatePath, Components, TrailingSeparator, Marks, WellFormed, NoEmptyName;
    var c, r := Components(path), CreatePath(fs, path, asDirectory);
    forall d | d in r.tree && (c in fs.tree || NoEmptyName(c))
      ensures NoEmptyName(d)
    {
      if d !in fs.tree {
        CreatedInOldTree(fs, r, c, TrailingSeparator(path) || asDirectory, Marks(path, asDirectory), d);
        PrefixNamed(d, c);
      }
    }
  }

  /** A new position is above the created one, which was absent. */
  lemma {:induction false} CreatedInOldTree(fs: Fs, r: Fs, c: Position, directory: bool, mark: bool, d: Position)
    requires WellFormed(fs) && Created(fs, r, c, directory, mark) && d in r.tree && d !in fs.tree
    ensures Above(d, c) && c !in fs.tree
  {
  }

  lemma {:induction false} RemovalKeepsNames(fs: Fs, path: string)
    requires AllNamed(fs)
    ensures AllNamed(Remove(fs, path).0)
  {
  }

  /** Which positions a rename leaves. */
  lemma {:induction false} RenamedTree(fs: Fs, from: string, to: string, d: Position)
    requires WellFormed(fs) && CanRename(fs, from) && !MovesIntoItself(fs, from, to)
    ensures EntryOf(to) in Rename(fs, from, to).0.tree
    ensures var (f, t, r) := (EntryOf(from), EntryOf(to), Rename(fs, from, to).0);
            d in r.tree ==> if Above(t, d) then f + d[|t|..] in fs.tree else d in fs.tree || Above(d, t)
  {
    hide Rename, EntryOf, WellFormed, Components, MovesIntoItself, Rebase;
    var f, t := EntryOf(from), EntryOf(to);
    RenameRelocates(fs, from, to, []);
    assert t + [] == t && f + [] == f;
    if Above(t, d) {
      RenameRelocates(fs, from, to, d[|t|..]);
      assert d == t + d[|t|..];
    } else {
      RenameKeepsTheRest(fs, from, to, d);
    }
  }

  lemma {:induction false} NamedParts(x: Position, y: Position)
    ensures NoEmptyName(x + y) <==> NoEmptyName(x) && NoEmptyName(y)
  {
    assert forall i :: 0 <= i < |x| ==> x[i] == (x + y)[i];
    assert forall i :: 0 <= i < |y| ==> y[i] == (x + y)[|x| + i];
  }

  /** A rename past its guards keeps all names non-empty exactly when its target entry
      has none. */
  lemma {:induction false} RenamingKeepsNamesExactly(fs: Fs, from: string, to: string)
    requires WellFormed(fs) && AllNamed(fs) && CanRename(fs, from) && !MovesIntoItself(fs, from, to)
    ensures AllNamed(Rename(fs, from, to).0) <==> NoEmptyName(EntryOf(to))
  {
    hide Rename, EntryOf, WellFormed, Components, CanRename, MovesIntoItself, NoEmptyName;
    var f, t, r := EntryOf(from), EntryOf(to), Rename(fs, from, to).0;
    RenamedTree(fs, from, to, t);
    if NoEmptyName(t) {
      forall d | d in r.tree
        ensures NoEmptyName(d)
      {
        RenamedTree(fs, from, to, d);
        if Above(t, d) {
          NamedParts(f, d[|t|..]);
          NamedParts(t, d[|t|..]);
          assert d == t + d[|t|..];
        } else if d !in fs.tree {
          PrefixNamed(d, t);
        }
      }
    }
  }

  // -------------------------------------------------------------------- runs

  /** The command makes no empty name, as can be told from its strings and, where it
      would only find what is there, from the tree. */
  predicate KeepsNames(fs: Fs, c: Command) {
    match c
    case Mkdir(path) => Components(path) in fs.tree || NoEmptyName(Components(path))
    case OpenFile(path, mode) => mode == Read || Components(path) in fs.tree || NoEmptyName(Components(path))
    case RenamePath(from, to) => !CanRename(fs, from) || NoEmptyName(EntryOf(to))
    case _ => true
  }

  /** One command keeps all names non-empty exactly then. */
  lemma {:induction false} StepKeepsNamesExactly(w: World, c: Command)
    requires Runs.Consistent(w) && AllNamed(w.fs) && Legal(w, c)
    ensures AllNamed(Next(w, c).fs) <==> KeepsNames(w.fs, c)
  {
    hide CreatePath, Rename, Remove, Components, EntryOf, WellFormed, NoEmptyName, AllNamed;
    match c {
      case Mkdir(path) => CreationKeepsNamesExactly(w.fs, path, true);
      case OpenFile(path, mode) => CreationKeepsNamesExactly(w.fs, path, false);
      case RemovePath(path) => RemovalKeepsNames(w.fs, path);
      case RenamePath(from, to) =>
        if CanRename(w.fs, from) {
          RenamingKeepsNamesExactly(w.fs, from, to);
        } else {
          RenameCorrect(w.fs, from, to);
        }
      case _ =>
        assert Next(w, c).fs.tree == w.fs.tree;
        SameTreeSameNames(w.fs, Next(w, c).fs);
    }
  }

  lemma {:induction false} SameTreeSameNames(fs: Fs, r: Fs)
    requires fs.tree == r.tree
    ensures AllNamed(fs) <==> AllNamed(r)
  {
  }

  /** All paths of the command are canonical, and a rename's target is not the root. */
  predicate CanonicalCommand(c: Command) {
    match c
    case Mkdir(path) => Canonical(path)
    case OpenFile(path, _) => Canonical(path)
    case RemovePath(path) => Canonical(path)
    case RenamePath(from, to) => Canonical(from) && Canonical(to) && to != "/"
    case _ => true
  }

  lemma {:induction false} CanonicalNamed(path: string)
    requires Canonical(path)
    ensures NoEmptyName(Components(path))
  {
    PrintInvertsSplitExactly(path);
    ComponentsSlashFree(path);
    PathOfIsFoundExactly(Components(path));
  }

  lemma {:induction false} CanonicalCommandKeepsNames(fs: Fs, c: Command)
    requires CanonicalCommand(c)
    ensures KeepsNames(fs, c)
  {
    hide Canonical, Components, EntryOf, NoEmptyName;
    match c {
      case Mkdir(path) => CanonicalNamed(path);
      case OpenFile(path, _) => CanonicalNamed(path);
      case RenamePath(from, to) =>
        CanonicalNamed(to);
        CanonicalEntry(to);
      case _ =>
    }
  }

  /** Over any run of canonical commands no name ever becomes empty. */
  lemma {:induction false} CanonicalRunKeepsNames(w: World, run: seq<Command>)
    requires Runs.Consistent(w) && LegalRun(w, run) && AllNamed(w.fs)
    requires forall k :: 0 <= k < |run| ==> CanonicalCommand(run[k])
    ensures AllNamed(Run(w, run).0.fs)
    decreases |run|
  {
    if run == [] {
      assert Run(w, run).0 == w;
    } else {
      hide CanonicalCommand, Consistent, Legal, AllNamed;
      CanonicalCommandKeepsNames(w.fs, run[0]);
      StepKeepsNamesExactly(w, run[0]);
      CanonicalRunKeepsNames(Next(w, run[0]), run[1..]);
    }
  }

  /** The run that hangs a node at the empty name, though each of its paths is canonical. */
  const RENAME_ONTO_ROOT := [Mkdir("/a"), RenamePath("/a", "/")]

  const EMPTY_WORLD := World(EMPTY_FS, [])

  lemma {:induction false} EmptyWorldIsConsistent()
    ensures WellFormed(EMPTY_FS) && Runs.Consistent(EMPTY_WORLD) && AllNamed(EMPTY_FS)
  {
  }

  lemma {:induction false} RootNames()
    ensures Canonical("/a") && Canonical("/")
    ensures Components("/a") == ["a"] && EntryOf("/a") == ["a"]
    ensures EntryOf("/") == [""] && Components("/") == []
  {
    SplitName("a");
    assert "/a" == "" + "/" + "a" && "/" == "" + "/" + "";
    DirAndFileNameOf("", "a");
    DirAndFileNameOf("", "");
    SplitName("");
  }

  /** Canonical paths alone do not keep names non-empty: a rename onto "/" hangs the node
      at the empty name, where it caches the path "/" that leads to the root instead. */
  lemma {:induction false} RenameOntoRootMakesEmptyName()
    ensures Runs.Consistent(EMPTY_WORLD) && LegalRun(EMPTY_WORLD, RENAME_ONTO_ROOT)
    ensures [""] in Run(EMPTY_WORLD, RENAME_ONTO_ROOT).0.fs.tree
    ensures PathOf([""]) == "/" && Components("/") == []
    ensures !AllNamed(Run(EMPTY_WORLD, RENAME_ONTO_ROOT).0.fs)
  {
    hide Runs.Consistent, LegalRun, Run, AllNamed, PathOf;
    EmptyWorldIsConsistent();
    RootNames();
    MkdirThenRename();
    RunOfTwo(EMPTY_WORLD, Mkdir("/a"), RenamePath("/a", "/"));
    PathOfChild([], "");
    assert [] + [""] == [""];
    var last := Run(EMPTY_WORLD, RENAME_ONTO_ROOT).0.fs;
    assert PathOf([]) == "/" && !AllNamed(last) by { NotAllNamed(last, [""], 0); }
  }

  lemma {:induction false} NotAllNamed(fs: Fs, c: Position, i: nat)
    requires c in fs.tree && i < |c| && c[i] == ""
    ensures PathOf([]) == "/" && !AllNamed(fs)
  {
  }

  lemma {:induction false} MkdirThenRename()
    ensures Runs.Consistent(EMPTY_WORLD)
    ensures Legal(Next(EMPTY_WORLD, Mkdir("/a")), RenamePath("/a", "/"))
    ensures [""] in Next(Next(EMPTY_WORLD, Mkdir("/a")), RenamePath("/a", "/")).fs.tree
  {
    EmptyWorldIsConsistent();
    RootNames();
    hide Components, EntryOf, CreatePath, Rename, Canonical, Runs.Consistent, WellFormed;
    var w := Next(EMPTY_WORLD, Mkdir("/a"));
    CreatePathCorrect(EMPTY_FS, "/a", true);
    assert WellFormed(w.fs) by { NextIsWellFormed(w); }
    assert ["a"][0] != [""][0];
    assert !Above(["a"], [""]);
    RenamedTree(w.fs, "/a", "/", []);
  }

  lemma {:induction false} NextIsWellFormed(w: World)
    requires Runs.Consistent(w)
    ensures WellFormed(w.fs)
  {
  }
}
