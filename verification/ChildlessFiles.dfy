/**
 When no path passes through a file: which calls keep files childless, so that a listing
 of the root, which enters directories only, shows all that exists.
 */
module ChildlessFiles {
  import opened PathUtility
  import opened Positions
  import opened TreeModel
  import opened Runs
  import opened Listing
  import opened CanonicalNames

  /** No existing node at or above `c` is a file. */
  predicate NoFileAbove(fs: Fs, c: Position) {
    forall i :: 0 <= i <= |c| && c[..i] in fs.tree ==> IsDir(fs, c[..i])
  }

  lemma {:induction false} FileAbove(fs: Fs, c: Position)
    ensures NoFileAbove(fs, c) <==> forall d :: d in fs.tree && Above(d, c) ==> IsDir(fs, d)
  {
    hide IsDir;
    if NoFileAbove(fs, c) {
      forall d | d in fs.tree && Above(d, c)
        ensures IsDir(fs, d)
      {
        assert d == c[..|d|];
      }
    } else {
      var i :| 0 <= i <= |c| && c[..i] in fs.tree && !IsDir(fs, c[..i]);
      assert Above(c[..i], c);
    }
  }

  /** Creation looks at no kind on its way, so it can hang a node below a file: it keeps
      files childless exactly when it adds nothing or meets no file above the new node. */
  lemma {:induction false} CreationKeepsFilesChildless(fs: Fs, path: string, asDirectory: bool)
    requires WellFormed(fs) && OnlyDirectoriesHaveChildren(fs)
    ensures OnlyDirectoriesHaveChildren(CreatePath(fs, path, asDirectory))
      <==> Components(path) in fs.tree || NoFileAbove(fs, Components(path))
  {
    CreatePathCorrect(fs, path, asDirectory);
    FileAbove(fs, Components(path));
    hide CreatePath, Components, TrailingSeparator, Marks, WellFormed, Created, IsDir, NoFileAbove;
    var c, r := Components(path), CreatePath(fs, path, asDirectory);
    var directory, mark := TrailingSeparator(path) || asDirectory, Marks(path, asDirectory);
    if c in fs.tree || NoFileAbove(fs, c) {
      forall e | e in r.tree && e != []
        ensures IsDir(r, Parent(e))
      {
        ParentInCreated(fs, r, c, directory, mark, e);
      }
    } else {
      var d :| d in fs.tree && Above(d, c) && !IsDir(fs, d);
      ChildOfFile(fs, r, c, directory, mark, d);
    }
  }

  lemma {:induction false} ChildOfFile(fs: Fs, r: Fs, c: Position, directory: bool, mark: bool, d: Position)
    requires WellFormed(fs) && Created(fs, r, c, directory, mark)
    requires c !in fs.tree && d in fs.tree && Above(d, c) && !IsDir(fs, d)
    ensures !OnlyDirectoriesHaveChildren(r)
  {
    var child := c[..|d| + 1];
    assert Parent(child) == d && Above(child, c);
    CreatedAt(fs, r, c, directory, mark, d);
    assert child in r.tree && child != [];
  }

  lemma {:induction false} ParentInCreated(fs: Fs, r: Fs, c: Position, directory: bool, mark: bool, e: Position)
    requires WellFormed(fs) && OnlyDirectoriesHaveChildren(fs) && Created(fs, r, c, directory, mark)
    requires c in fs.tree || NoFileAbove(fs, c)
    requires e in r.tree && e != []
    ensures IsDir(r, Parent(e))
  {
    var up := Parent(e);
    assert Above(up, e);
    FileAbove(fs, c);
    CreatedAt(fs, r, c, directory, mark, up);
    if e !in fs.tree {
      assert Above(e, c) && Above(up, c) && up != c;
    }
  }

  // ---------------------------------------------------------------- renaming

  /** A move keeps files childless exactly when the new parent is a directory. */
  lemma {:induction false} MoveKeepsFilesChildless(fs: Fs, from: Position, to: Position)
    requires WellFormed(fs) && OnlyDirectoriesHaveChildren(fs) && Movable(fs.tree, from, to)
    ensures OnlyDirectoriesHaveChildren(fs.(tree := Moved(fs.tree, from, to))) <==> IsDir(fs, Parent(to))
  {
    hide Moved, WellFormed, Rebase;
    var r := fs.(tree := Moved(fs.tree, from, to));
    StaysPut(fs.tree, from, to, Parent(to));
    MovedLookup(fs.tree, from, to, to);
    RebaseSuffix(to, from, []);
    assert to + [] == to && from + [] == from && Above(to, to);
    assert IsDir(r, Parent(to)) == IsDir(fs, Parent(to));
    if IsDir(fs, Parent(to)) {
      forall e | e in r.tree && e != []
        ensures IsDir(r, Parent(e))
      {
        ParentInMoved(fs, from, to, e);
      }
    }
  }

  /** Positions not below source or target stay. */
  lemma {:induction false} StaysPut(tree: Tree, from: Position, to: Position, d: Position)
    requires to != [] && (Above(from, to) ==> from == to) && d in tree && Above(d, Parent(to))
    ensures !Above(to, d) && !Above(from, d)
    ensures d in Moved(tree, from, to) && Moved(tree, from, to)[d] == tree[d]
  {
    TargetParentOutsideSource(from, to, []);
    assert from + [] == from;
    MovedLookup(tree, from, to, d);
  }

  lemma {:induction false} ParentInMoved(fs: Fs, from: Position, to: Position, e: Position)
    requires WellFormed(fs) && OnlyDirectoriesHaveChildren(fs) && Movable(fs.tree, from, to) && IsDir(fs, Parent(to))
    requires e in Moved(fs.tree, from, to) && e != []
    ensures IsDir(fs.(tree := Moved(fs.tree, from, to)), Parent(e))
  {
    hide Moved, WellFormed, OnlyDirectoriesHaveChildren;
    var up := Parent(e);
    MovedLookup(fs.tree, from, to, e);
    MovedLookup(fs.tree, from, to, up);
    if e == to {
      StaysPut(fs.tree, from, to, up);
    } else if Above(to, e) {
      BelowTarget(from, to, e);
      DirectoryAbove(fs, Rebase(e, to, from));
    } else {
      DirectoryAbove(fs, e);
      assert !Above(to, up) && !Above(from, up) by {
        assert Above(up, e);
      }
    }
  }

  lemma {:induction false} BelowTarget(from: Position, to: Position, e: Position)
    requires Above(to, e) && e != to && from != []
    ensures Above(to, Parent(e)) && Rebase(e, to, from) != []
    ensures Parent(Rebase(e, to, from)) == Rebase(Parent(e), to, from)
  {
  }

  lemma {:induction false} DirectoryAbove(fs: Fs, e: Position)
    requires OnlyDirectoriesHaveChildren(fs) && e in fs.tree && e != []
    ensures IsDir(fs, Parent(e))
  {
  }

  /** Making the parent of a rename target below a file leaves a file with a child. */
  lemma {:induction false} ChildOfFileStays(fs: Fs, from: Position, to: Position)
    requires WellFormed(fs) && Movable(fs.tree, from, to)
    requires !OnlyDirectoriesHaveChildren(fs)
    requires forall e :: e in fs.tree && e != [] && !IsDir(fs, Parent(e)) ==> Above(e, Parent(to))
    ensures !OnlyDirectoriesHaveChildren(fs.(tree := Moved(fs.tree, from, to)))
  {
    hide Moved, WellFormed;
    var e :| e in fs.tree && e != [] && !IsDir(fs, Parent(e));
    assert Above(Parent(e), e) && Above(Parent(e), Parent(to));
    ParentExists(fs, e);
    StaysPut(fs.tree, from, to, e);
    StaysPut(fs.tree, from, to, Parent(e));
    var r := fs.(tree := Moved(fs.tree, from, to));
    assert IsDir(r, Parent(e)) == IsDir(fs, Parent(e));
  }

  lemma {:induction false} ParentExists(fs: Fs, e: Position)
    requires WellFormed(fs) && e in fs.tree && e != []
    ensures Parent(e) in fs.tree
  {
    assert Above(Parent(e), e);
  }

  /** The condition under which a rename past its guards keeps files childless: its target's
      parent is a directory, or becomes one, or is made below directories only. */
  predicate TargetParentIsFine(fs: Fs, to: string) {
    var up := Parent(EntryOf(to));
    if up in fs.tree then IsDir(fs, up) || Marks(ParentPath(to), true) else NoFileAbove(fs, up)
  }

  lemma {:induction false} RenamingKeepsFilesChildless(fs: Fs, from: string, to: string)
    requires WellFormed(fs) && OnlyDirectoriesHaveChildren(fs) && CanRename(fs, from) && !MovesIntoItself(fs, from, to)
    ensures OnlyDirectoriesHaveChildren(Rename(fs, from, to).0) <==> TargetParentIsFine(fs, to)
  {
    var f, t, mid := EntryOf(from), EntryOf(to), CreatePath(fs, ParentPath(to), true);
    var up := Parent(t);
    CreatePathCorrect(fs, ParentPath(to), true);
    ParentPathComponents(to);
    CreationKeepsFilesChildless(fs, ParentPath(to), true);
    hide CreatePath, Components, EntryOf, ParentPath, Marks, MovesIntoItself, NoFileAbove, OnlyDirectoriesHaveChildren;
    TargetParentMade(fs, mid, up, Marks(ParentPath(to), true));
    assert Rename(fs, from, to).0 == mid.(tree := Moved(mid.tree, f, t));
    assert Movable(mid.tree, f, t);
    hide WellFormed, Rename, IsDir, Moved, Movable, Created;
    if OnlyDirectoriesHaveChildren(mid) {
      MoveKeepsFilesChildless(mid, f, t);
    } else {
      NewChildOfFile(fs, mid, up, Marks(ParentPath(to), true));
      ChildOfFileStays(mid, f, t);
    }
  }

  lemma {:induction false} TargetParentMade(fs: Fs, mid: Fs, up: Position, mark: bool)
    requires WellFormed(fs) && Created(fs, mid, up, true, mark) && up in mid.tree
    ensures IsDir(mid, up) <==> (up !in fs.tree || IsDir(fs, up) || mark)
  {
    CreatedAt(fs, mid, up, true, mark, up);
  }

  /** Creation gives children to files only on its way. */
  lemma {:induction false} NewChildOfFile(fs: Fs, r: Fs, c: Position, mark: bool)
    requires WellFormed(fs) && OnlyDirectoriesHaveChildren(fs) && Created(fs, r, c, true, mark)
    ensures forall e :: e in r.tree && e != [] && !IsDir(r, Parent(e)) ==> Above(e, c)
  {
    forall e | e in r.tree && e != [] && !IsDir(r, Parent(e))
      ensures Above(e, c)
    {
      if e in fs.tree {
        ParentExists(fs, e);
        DirectoryAbove(fs, e);
        CreatedAt(fs, r, c, true, mark, Parent(e));
      }
    }
  }

  // -------------------------------------------------------------------- runs

  /** The command hangs no node below a file, as can be told from its strings and the kinds
      of the nodes on its way. */
  predicate KeepsFilesChildless(fs: Fs, c: Command) {
    match c
    case Mkdir(path) => Components(path) in fs.tree || NoFileAbove(fs, Components(path))
    case OpenFile(path, mode) => mode == Read || Components(path) in fs.tree || NoFileAbove(fs, Components(path))
    case RenamePath(from, to) => !CanRename(fs, from) || TargetParentIsFine(fs, to)
    case _ => true
  }

  lemma {:induction false} RemovalKeepsFilesChildless(fs: Fs, path: string)
    requires WellFormed(fs) && OnlyDirectoriesHaveChildren(fs)
    ensures OnlyDirectoriesHaveChildren(Remove(fs, path).0)
  {
    hide EntryOf;
    var r, e := Remove(fs, path).0, EntryOf(path);
    forall c | c in r.tree && c != []
      ensures IsDir(r, Parent(c))
    {
      ParentExists(fs, c);
      DirectoryAbove(fs, c);
      assert Above(Parent(c), c);
      assert Above(e, Parent(c)) ==> Above(e, c);
    }
  }

  lemma {:induction false} SameKindsSameChildren(fs: Fs, r: Fs)
    requires r.tree == fs.tree && |r.files| == |fs.files|
    requires forall i :: 0 <= i < |fs.files| ==> r.files[i].isDirectory == fs.files[i].isDirectory
    ensures OnlyDirectoriesHaveChildren(fs) <==> OnlyDirectoriesHaveChildren(r)
  {
    assert forall c :: IsDir(fs, c) <==> IsDir(r, c);
  }

  lemma {:induction false} OpeningKeepsFilesChildless(fs: Fs, path: string, mode: OpenMode)
    requires WellFormed(fs) && OnlyDirectoriesHaveChildren(fs)
    ensures OnlyDirectoriesHaveChildren(Open(fs, path, mode).0)
      <==> mode == Read || Components(path) in fs.tree || NoFileAbove(fs, Components(path))
  {
    CreationKeepsFilesChildless(fs, path, false);
    hide CreatePath, Components, OnlyDirectoriesHaveChildren, NoFileAbove, WellFormed;
  }

  /** One command keeps files childless exactly then. */
  lemma {:induction false} StepKeepsFilesChildlessExactly(w: World, c: Command)
    requires Runs.Consistent(w) && OnlyDirectoriesHaveChildren(w.fs) && Legal(w, c)
    ensures OnlyDirectoriesHaveChildren(Next(w, c).fs) <==> KeepsFilesChildless(w.fs, c)
  {
    hide CreatePath, Rename, Remove, Open, Components, EntryOf, WellFormed, OnlyDirectoriesHaveChildren, NoFileAbove,
         TargetParentIsFine;
    match c {
      case Mkdir(path) => CreationKeepsFilesChildless(w.fs, path, true);
      case OpenFile(path, mode) => OpeningKeepsFilesChildless(w.fs, path, mode);
      case RemovePath(path) => RemovalKeepsFilesChildless(w.fs, path);
      case RenamePath(from, to) =>
        if CanRename(w.fs, from) {
          RenamingKeepsFilesChildless(w.fs, from, to);
        } else {
          RenameCorrect(w.fs, from, to);
        }
      case _ =>
        HandleStepKeeps(w, c);
        SameKindsSameChildren(w.fs, Next(w, c).fs);
    }
  }

  /** Every command of the run meets the condition when its turn comes. */
  ghost predicate RunMeetsNoFile(w: World, run: seq<Command>)
    requires Runs.Consistent(w) && LegalRun(w, run)
    decreases |run|
  {
    run == [] || (KeepsFilesChildless(w.fs, run[0]) && RunMeetsNoFile(Next(w, run[0]), run[1..]))
  }

  /** Files are childless before, during and after the run. */
  ghost predicate AlwaysChildless(w: World, run: seq<Command>)
    requires Runs.Consistent(w) && LegalRun(w, run)
    decreases |run|
  {
    && OnlyDirectoriesHaveChildren(w.fs)
    && (run == [] || AlwaysChildless(Next(w, run[0]), run[1..]))
  }

  /** A run leaves files childless all the way exactly when each command meets the condition. */
  lemma {:induction false} RunKeepsFilesChildlessExactly(w: World, run: seq<Command>)
    requires Runs.Consistent(w) && LegalRun(w, run) && OnlyDirectoriesHaveChildren(w.fs)
    ensures AlwaysChildless(w, run) <==> RunMeetsNoFile(w, run)
    ensures RunMeetsNoFile(w, run) ==> OnlyDirectoriesHaveChildren(Run(w, run).0.fs)
    decreases |run|
  {
    hide OnlyDirectoriesHaveChildren, KeepsFilesChildless, Consistent, Legal;
    if run == [] {
      assert Run(w, run).0 == w;
    } else {
      StepKeepsFilesChildlessExactly(w, run[0]);
      if KeepsFilesChildless(w.fs, run[0]) {
        RunKeepsFilesChildlessExactly(Next(w, run[0]), run[1..]);
      } else {
        NotAlways(Next(w, run[0]), run[1..]);
      }
    }
  }

  lemma {:induction false} NotAlways(w: World, run: seq<Command>)
    requires Runs.Consistent(w) && LegalRun(w, run) && !OnlyDirectoriesHaveChildren(w.fs)
    ensures !AlwaysChildless(w, run)
  {
  }

  lemma {:induction false} EmptyIsChildless()
    ensures WellFormed(EMPTY_FS) && OnlyDirectoriesHaveChildren(EMPTY_FS)
  {
  }

  /** After a run of canonical commands that rename nothing onto the root and meet no file
      on their way, listing the root shows exactly the canonical paths that exist. */
  lemma {:induction false} CanonicalRunShowsWhatExists(w: World, run: seq<Command>)
    requires Runs.Consistent(w) && LegalRun(w, run) && AllNamed(w.fs) && OnlyDirectoriesHaveChildren(w.fs)
    requires (forall k :: 0 <= k < |run| ==> CanonicalCommand(run[k])) && RunMeetsNoFile(w, run)
    ensures WellFormed(Run(w, run).0.fs) && ShowsWhatExists(Run(w, run).0.fs)
  {
    hide OnlyDirectoriesHaveChildren, CanonicalCommand, LegalRun, ShowsWhatExists, AllNamed, RunMeetsNoFile, WellFormed;
    RunKeeps(w, run);
    CanonicalRunKeepsNames(w, run);
    RunKeepsFilesChildlessExactly(w, run);
    NextIsWellFormed(Run(w, run).0);
    ShowsWhatExistsGivenNames(Run(w, run).0.fs);
  }

  // ----------------------------------------------------- a file with a child

  /** Two commands with canonical paths that hang a directory below a file. */
  const MKDIR_BELOW_FILE := [OpenFile("/f", Write), Mkdir("/f/x")]

  lemma {:induction false} FileNames()
    ensures Canonical("/f") && Canonical("/f/x")
    ensures Components("/f") == ["f"] && Components("/f/x") == ["f", "x"] && !TrailingSeparator("/f")
  {
    assert "/f" == "" + "/" + "f" && "/f/x" == "/f" + "/" + "x";
    SplitName("f");
    SplitName("x");
    ComponentsAround("", "f");
    ComponentsAround("/f", "x");
  }

  lemma {:induction false} OpenedFile()
    ensures Runs.Consistent(EMPTY_WORLD)
    ensures var w := Next(EMPTY_WORLD, OpenFile("/f", Write));
            WellFormed(w.fs) && OnlyDirectoriesHaveChildren(w.fs) && ["f"] in w.fs.tree && !IsDir(w.fs, ["f"])
            && ["f", "x"] !in w.fs.tree
  {
    EmptyWorldIsConsistent();
    EmptyIsChildless();
    FileNames();
    hide CreatePath, Components, TrailingSeparator, Runs.Consistent, Canonical;
    var w, c := Next(EMPTY_WORLD, OpenFile("/f", Write)), ["f"];
    CreatePathCorrect(EMPTY_FS, "/f", false);
    assert w.fs == CreatePath(EMPTY_FS, "/f", false);
    assert !Marks("/f", false);
    assert !Above(["f", "x"], c);
    CreatedAt(EMPTY_FS, w.fs, c, false, false, c);
    FirstFileIsChildless(w.fs);
  }

  lemma {:induction false} FirstFileIsChildless(fs: Fs)
    requires WellFormed(fs) && forall d :: d in fs.tree ==> Above(d, ["f"])
    ensures OnlyDirectoriesHaveChildren(fs)
  {
    forall d | d in fs.tree && d != []
      ensures IsDir(fs, Parent(d))
    {
      assert |d| == 1 && Parent(d) == [];
    }
  }

  /** Canonical paths do not keep files childless: the run is legal and leaves a
      node that the listing of the root does not show. */
  lemma {:induction false} MkdirBelowFile()
    ensures Runs.Consistent(EMPTY_WORLD) && LegalRun(EMPTY_WORLD, MKDIR_BELOW_FILE)
    ensures forall k :: 0 <= k < |MKDIR_BELOW_FILE| ==> CanonicalCommand(MKDIR_BELOW_FILE[k])
    ensures WellFormed(Run(EMPTY_WORLD, MKDIR_BELOW_FILE).0.fs)
    ensures ["f", "x"] in Run(EMPTY_WORLD, MKDIR_BELOW_FILE).0.fs.tree
    ensures !OnlyDirectoriesHaveChildren(Run(EMPTY_WORLD, MKDIR_BELOW_FILE).0.fs)
    ensures !ShowsWhatExists(Run(EMPTY_WORLD, MKDIR_BELOW_FILE).0.fs)
  {
    hide Runs.Consistent, LegalRun, Run, ShowsWhatExists, OnlyDirectoriesHaveChildren, Canonical, Components, WellFormed, Step;
    FileNames();
    OpenedFile();
    MkdirMeetsFile(Next(EMPTY_WORLD, OpenFile("/f", Write)));
    RunOfTwo(EMPTY_WORLD, OpenFile("/f", Write), Mkdir("/f/x"));
    var last := Run(EMPTY_WORLD, MKDIR_BELOW_FILE).0;
    NextIsWellFormed(last);
    EmptyWorldIsConsistent();
    CanonicalRunKeepsNames(EMPTY_WORLD, MKDIR_BELOW_FILE);
    ShowsWhatExistsGivenNames(last.fs);
  }

  lemma {:induction false} MkdirMeetsFile(w: World)
    requires Runs.Consistent(w) && OnlyDirectoriesHaveChildren(w.fs)
    requires ["f"] in w.fs.tree && !IsDir(w.fs, ["f"]) && ["f", "x"] !in w.fs.tree
    ensures Legal(w, Mkdir("/f/x"))
    ensures ["f", "x"] in Next(w, Mkdir("/f/x")).fs.tree && !OnlyDirectoriesHaveChildren(Next(w, Mkdir("/f/x")).fs)
  {
    hide CreatePath, Components, WellFormed, OnlyDirectoriesHaveChildren, IsDir;
    FileNames();
    assert ["f", "x"][..1] == ["f"];
    NextIsWellFormed(w);
    CreatePathCorrect(w.fs, "/f/x", true);
    StepKeepsFilesChildlessExactly(w, Mkdir("/f/x"));
  }
}
