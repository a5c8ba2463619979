/**
 A client that holds only a scoped view of the in-memory tree, and the handles it
 opened through it: what any run of its commands can do outside the scope.
 */
module ScopeIsolation {
  import opened PathUtility
  import opened Positions
  import opened TreeModel
  import opened Runs
  import opened ScopePaths

  /** The scoped view refuses empty paths before it translates any. */
  predicate Refused(c: Command) {
    match c
    case Mkdir(path) => path == ""
    case OpenFile(path, _) => path == ""
    case RemovePath(path) => path == ""
    case RenamePath(from, to) => from == "" || to == ""
    case _ => false
  }

  function Scoped(root: string, c: Command): Command {
    match c
    case Mkdir(path) => Mkdir(ScopePath(root, path))
    case OpenFile(path, mode) => OpenFile(ScopePath(root, path), mode)
    case RemovePath(path) => RemovePath(ScopePath(root, path))
    case RenamePath(from, to) => RenamePath(ScopePath(root, from), ScopePath(root, to))
    case _ => c
  }

  predicate ScopedLegal(root: string, w: World, c: Command) {
    Refused(c) || Legal(w, Scoped(root, c))
  }

  ghost function ScopedNext(root: string, w: World, c: Command): (w': World)
    requires Runs.Consistent(w) && ScopedLegal(root, w, c)
    ensures Runs.Consistent(w')
  {
    if Refused(c) then w else Next(w, Scoped(root, c))
  }

  /** What the client is told. */
  ghost function ScopedReply(root: string, w: World, c: Command): Reply
    requires Runs.Consistent(w) && ScopedLegal(root, w, c)
  {
    if !Refused(c) then Step(w, Scoped(root, c)).1
    else if c.OpenFile? then Opened(None)
    else Done(false)
  }

  /** No handle of the client is on a file that hangs where the scope does not reach. */
  ghost predicate HandlesInside(root: string, w: World) {
    forall p :: !Reached(root, p) ==> HandlesElsewhere(w, p)
  }

  ghost predicate HandlesElsewhere(w: World, p: Position) {
    p in w.fs.tree ==> forall h :: 0 <= h < |w.handles| ==> w.fs.tree[p] != w.handles[h].id
  }

  /** The position outside the scope keeps its file and bytes and is at most turned into
      a directory; a new one is an empty directory on the way to the scope. */
  ghost predicate KeptOutside(w: World, w': World, scope: Position, p: Position)
    requires Runs.Consistent(w) && Runs.Consistent(w')
  {
    && (p in w.fs.tree ==>
          && p in w'.fs.tree && w'.fs.tree[p] == w.fs.tree[p]
          && w'.fs.files[w'.fs.tree[p]].data == w.fs.files[w.fs.tree[p]].data
          && (w'.fs.files[w'.fs.tree[p]].isDirectory <==>
                w.fs.files[w.fs.tree[p]].isDirectory
                || (scope != [] && p == Parent(scope) && w'.fs.files[w'.fs.tree[p]].isDirectory)))
    && (p in w'.fs.tree && p !in w.fs.tree ==>
          Above(p, scope) && w'.fs.files[w'.fs.tree[p]] == FileState(true, []))
  }

  lemma {:induction false} AboveIsLinear(p: Position, q: Position, c: Position)
    requires Above(p, c) && Above(q, c)
    ensures Above(p, q) || Above(q, p)
  {
    if |p| <= |q| {
      assert p == c[..|p|] == q[..|p|];
    } else {
      assert q == c[..|q|] == p[..|q|];
    }
  }

  lemma {:induction false} CreationOutside(fs: Fs, path: string, asDirectory: bool, scope: Position, p: Position)
    requires WellFormed(fs) && Above(scope, Components(path)) && !Above(scope, p)
    ensures var r := CreatePath(fs, path, asDirectory);
            && WellFormed(r)
            && (p in fs.tree ==> p in r.tree && r.tree[p] == fs.tree[p] && r.files[r.tree[p]] == fs.files[fs.tree[p]])
            && (p in r.tree && p !in fs.tree ==>
                  Above(p, scope) && r.tree[p] >= |fs.files| && r.files[r.tree[p]] == FileState(true, []))
  {
    CreatePathCorrect(fs, path, asDirectory);
    var r := CreatePath(fs, path, asDirectory);
    if p in r.tree {
      CreatedAt(fs, r, Components(path), TrailingSeparator(path) || asDirectory, Marks(path, asDirectory), p);
      if p !in fs.tree {
        AboveIsLinear(p, scope, Components(path));
      }
    }
  }

  lemma {:induction false} RemovalOutside(fs: Fs, path: string, p: Position)
    requires WellFormed(fs) && !Above(EntryOf(path), p)
    ensures var r := Remove(fs, path).0;
            && r.files == fs.files
            && (p in r.tree <==> p in fs.tree) && (p in fs.tree ==> r.tree[p] == fs.tree[p])
  {
  }

  /** What a rename between two entries that are not above `p` can do to `p`: turn it into
      a directory, when it is the parent of the target, or make it, on the way there. */
  lemma {:induction false} RenamingOutside(fs: Fs, from: string, to: string, scope: Position, p: Position)
    requires WellFormed(fs) && !MovesIntoItself(fs, from, to) && CanRename(fs, from)
    requires !Above(EntryOf(from), p) && !Above(EntryOf(to), p) && !Above(scope, p)
    requires Above(scope, EntryOf(to)) || Above(Parent(EntryOf(to)), scope)
    ensures var r := Rename(fs, from, to).0;
            && WellFormed(r)
            && (p in fs.tree ==>
                  && p in r.tree && r.tree[p] == fs.tree[p]
                  && r.files[r.tree[p]].data == fs.files[fs.tree[p]].data
                  && (r.files[r.tree[p]].isDirectory <==>
                        fs.files[fs.tree[p]].isDirectory || (p == Parent(EntryOf(to)) && Marks(ParentPath(to), true))))
            && (p in r.tree && p !in fs.tree ==>
                  Above(p, scope) && r.tree[p] >= |fs.files| && r.files[r.tree[p]] == FileState(true, []))
  {
    var f, t := EntryOf(from), EntryOf(to);
    RenameCorrect(fs, from, to);
    RenameKeepsTheRest(fs, from, to, p);
    NewIdOutside(fs, from, to, p);
    hide Rename, CreatePath, EntryOf, ParentPath, Marks, WellFormed, MovesIntoItself, CanRename;
    if p in Rename(fs, from, to).0.tree && p !in fs.tree {
      if Above(scope, t) {
        AboveIsLinear(p, scope, t);
      } else {
        assert Above(p, Parent(t));
      }
    }
  }

  lemma {:induction false} NewIdOutside(fs: Fs, from: string, to: string, p: Position)
    requires WellFormed(fs) && !MovesIntoItself(fs, from, to) && CanRename(fs, from) && !Above(EntryOf(to), p)
    ensures var r := Rename(fs, from, to).0; p in r.tree && p !in fs.tree ==> r.tree[p] >= |fs.files|
  {
    CreatePathCorrect(fs, ParentPath(to), true);
    MovedLookup(CreatePath(fs, ParentPath(to), true).tree, EntryOf(from), EntryOf(to), p);
  }

  /** A rename within the scope marks a position outside only as the parent of the scope,
      which it does for no root with a doubled or a trailing separator at its end. */
  lemma {:induction false} MarkedOutside(root: string, path: string)
    requires var to := ScopePath(root, path); Marks(ParentPath(to), true) && !Above(Components(root), Parent(EntryOf(to)))
    ensures Components(root) != [] && Parent(EntryOf(ScopePath(root, path))) == Parent(Components(root))
    ensures GetFileName(root) != "" && !EndsWithSeparator(GetDirName(root))
  {
    hide Split, GetFileName, LastSeparator, Base;
    ScopedEntryCases(root, path);
    if EndsWithSeparator(GetDirName(root)) {
      NeverMarked(GetDirName(root));
    } else {
      hide ScopePath, Components, Marks, ParentPath, GetDirName;
      var t := EntryOf(ScopePath(root, path));
      ScopedEntryContained(root, path);
      AboveOrSame(Components(root), t);
      ScopedPathsInside(root, path);
    }
  }

  lemma {:induction false} AboveOrSame(c: Position, t: Position)
    requires Above(c, t) && t != [] && !Above(c, Parent(t))
    ensures c == t
  {
  }

  lemma {:induction false} NeverMarked(dir: string)
    requires EndsWithSeparator(dir)
    ensures !Marks(dir, true)
  {
  }

  /** For a root without a doubled separator at its end, every path the client can name is
      at or below it. */
  lemma {:induction false} ScopedPathsInside(root: string, path: string)
    requires !EndsWithSeparator(GetDirName(root))
    ensures Above(Components(root), Components(ScopePath(root, path)))
    ensures Above(Components(root), EntryOf(ScopePath(root, path)))
    ensures EntryOf(ScopePath(root, path)) == Components(root) ==> GetFileName(root) != ""
  {
    ScopedComponents(root, path);
    ScopedEntryContained(root, path);
    ScopePathIs(root, path);
    if StripLeading(path) != "" {
      StripLeadingStrips(path);
      EntryBelow(root, StripLeading(path));
    } else if GetFileName(root) == "" {
      EntryIsWhatLookupFinds(root);
    }
  }

  ghost predicate KindKept(w: World, w': World, p: Position)
    requires Runs.Consistent(w) && Runs.Consistent(w')
  {
    p in w.fs.tree && p in w'.fs.tree ==>
      w'.fs.files[w'.fs.tree[p]].isDirectory == w.fs.files[w.fs.tree[p]].isDirectory
  }

  /** The scope's parent is not a file. */
  ghost predicate ParentIsNoFile(fs: Fs, scope: Position)
    requires WellFormed(fs)
  {
    scope != [] && Parent(scope) in fs.tree ==> fs.files[fs.tree[Parent(scope)]].isDirectory
  }

  lemma {:induction false} OpeningOutside(fs: Fs, path: string, mode: OpenMode, scope: Position, p: Position)
    requires WellFormed(fs) && Above(scope, Components(path)) && !Above(scope, p)
    ensures var (r, id) := Open(fs, path, mode);
            && WellFormed(r)
            && (p in fs.tree ==> p in r.tree && r.tree[p] == fs.tree[p] && r.files[r.tree[p]] == fs.files[fs.tree[p]])
            && (p in r.tree && p !in fs.tree ==>
                  Above(p, scope) && r.tree[p] >= |fs.files| && r.files[r.tree[p]] == FileState(true, []))
            && (id.Some? ==> Components(path) in r.tree && r.tree[Components(path)] == id.value)
  {
    hide CreatePath, ViewOf, WithAncestors, Above;
    OpenCorrect(fs, path, mode);
    CreationOutside(fs, path, false, scope, p);
  }

  lemma {:induction false} ReachIsBelow(root: string, p: Position)
    requires !Reached(root, p)
    ensures !Above(Components(root), p)
  {
  }

  lemma {:induction false} ScopedMkdir(root: string, w: World, c: Command, p: Position)
    requires c.Mkdir? && Runs.Consistent(w) && ScopedLegal(root, w, c) && HandlesInside(root, w) && !Reached(root, p)
    ensures KeptOutside(w, ScopedNext(root, w, c), Components(root), p)
    ensures KindKept(w, ScopedNext(root, w, c), p)
    ensures HandlesElsewhere(ScopedNext(root, w, c), p)
  {
    hide CreatePath, Components, ScopePath, EntryOf, Reached;
    var scope, w' := Components(root), ScopedNext(root, w, c);
    ReachIsBelow(root, p);
    if !Refused(c) {
      ScopedComponents(root, c.path);
      CreationOutside(w.fs, ScopePath(root, c.path), true, scope, p);
      OldHandlesOutside(root, w, w', p);
    }
  }

  lemma {:induction false} ScopedOpen(root: string, w: World, c: Command, p: Position)
    requires c.OpenFile? && Runs.Consistent(w) && ScopedLegal(root, w, c) && HandlesInside(root, w) && !Reached(root, p)
    ensures KeptOutside(w, ScopedNext(root, w, c), Components(root), p)
    ensures KindKept(w, ScopedNext(root, w, c), p)
    ensures HandlesElsewhere(ScopedNext(root, w, c), p)
  {
    hide Open, Components, ScopePath, EntryOf, Reached;
    var scope, w' := Components(root), ScopedNext(root, w, c);
    ReachIsBelow(root, p);
    if !Refused(c) {
      var path := ScopePath(root, c.path);
      ScopedComponents(root, c.path);
      OpeningOutside(w.fs, path, c.mode, scope, p);
      NewHandleOutside(root, w, w', p, Components(path));
    }
  }

  lemma {:induction false} ScopedRemove(root: string, w: World, c: Command, p: Position)
    requires c.RemovePath? && Runs.Consistent(w) && ScopedLegal(root, w, c) && HandlesInside(root, w) && !Reached(root, p)
    ensures KeptOutside(w, ScopedNext(root, w, c), Components(root), p)
    ensures KindKept(w, ScopedNext(root, w, c), p)
    ensures HandlesElsewhere(ScopedNext(root, w, c), p)
  {
    hide Components, ScopePath, EntryOf, Reached, Without;
    var w' := ScopedNext(root, w, c);
    if !Refused(c) {
      NotBelowEntry(root, c.path, p);
      RemovalOutside(w.fs, ScopePath(root, c.path), p);
      OldHandlesOutside(root, w, w', p);
    }
  }

  lemma {:induction false} NotBelowEntry(root: string, path: string, p: Position)
    requires !Reached(root, p)
    ensures !Above(EntryOf(ScopePath(root, path)), p)
  {
    hide Reached, ScopePath, EntryOf;
    if Above(EntryOf(ScopePath(root, path)), p) {
      ReachedBelow(root, path, p);
    }
  }

  /** Every entry a local path cuts is in the scope or hangs beside it. */
  lemma {:induction false} EntryNearScope(root: string, path: string)
    ensures var e := EntryOf(ScopePath(root, path)); Above(Components(root), e) || Above(Parent(e), Components(root))
  {
    hide Components, ScopePath, CutsOutside;
    ScopedEntryReach(root, path);
    if CutsOutside(root, EntryOf(ScopePath(root, path))) {
      CutBesideScope(root, EntryOf(ScopePath(root, path)));
    }
  }

  lemma {:induction false} ScopedRename(root: string, w: World, c: Command, p: Position)
    requires c.RenamePath? && Runs.Consistent(w) && ScopedLegal(root, w, c) && HandlesInside(root, w) && !Reached(root, p)
    ensures KeptOutside(w, ScopedNext(root, w, c), Components(root), p)
    ensures GetFileName(root) == "" || EndsWithSeparator(GetDirName(root)) ==> KindKept(w, ScopedNext(root, w, c), p)
    ensures HandlesElsewhere(ScopedNext(root, w, c), p)
  {
    hide Rename, CanRename, MovesIntoItself, Components, ScopePath, EntryOf, Reached, Marks, ParentPath, GetDirName, GetFileName,
         WellFormed;
    var scope, w' := Components(root), ScopedNext(root, w, c);
    ReachIsBelow(root, p);
    if !Refused(c) {
      var from, to := ScopePath(root, c.from), ScopePath(root, c.to);
      RenameRefused(w.fs, from, to);
      if CanRename(w.fs, from) {
        NotBelowEntry(root, c.from, p);
        NotBelowEntry(root, c.to, p);
        EntryNearScope(root, c.to);
        RenamingOutside(w.fs, from, to, scope, p);
        if p == Parent(EntryOf(to)) && Marks(ParentPath(to), true) {
          MarkedOutside(root, c.to);
        }
      }
      OldHandlesOutside(root, w, w', p);
    }
  }

  lemma {:induction false} RenameRefused(fs: Fs, from: string, to: string)
    ensures !CanRename(fs, from) ==> Rename(fs, from, to) == (fs, false)
  {
  }

  /** What one command through the scope, or through a handle, does where the scope does
      not reach, for every root. */
  lemma {:induction false} ScopedStep(root: string, w: World, c: Command, p: Position)
    requires Runs.Consistent(w) && ScopedLegal(root, w, c) && HandlesInside(root, w) && !Reached(root, p)
    ensures KeptOutside(w, ScopedNext(root, w, c), Components(root), p)
    ensures GetFileName(root) == "" || EndsWithSeparator(GetDirName(root)) ==> KindKept(w, ScopedNext(root, w, c), p)
    ensures HandlesElsewhere(ScopedNext(root, w, c), p)
  {
    match c {
      case Mkdir(_) => ScopedMkdir(root, w, c, p);
      case OpenFile(_, _) => ScopedOpen(root, w, c, p);
      case RemovePath(_) => ScopedRemove(root, w, c, p);
      case RenamePath(_, _) => ScopedRename(root, w, c, p);
      case _ =>
        hide Components, Reached, GetDirName, GetFileName;
        HandleStep(root, w, c, p);
    }
  }

  lemma {:induction false} HandleStep(root: string, w: World, c: Command, p: Position)
    requires c.ReadFrom? || c.PeekAt? || c.WriteTo? || c.CloseHandle?
    requires Runs.Consistent(w) && ScopedLegal(root, w, c) && HandlesInside(root, w) && !Reached(root, p)
    ensures KeptOutside(w, ScopedNext(root, w, c), Components(root), p)
    ensures KindKept(w, ScopedNext(root, w, c), p)
    ensures HandlesElsewhere(ScopedNext(root, w, c), p)
  {
    hide Components, Reached, Step, Runs.Consistent;
    assert HandlesElsewhere(w, p);
    var w' := ScopedNext(root, w, c);
    HandleStepKeeps(w, c);
    OldHandlesOutside(root, w, w', p);
    ConsistentTree(w, p);
  }

  lemma {:induction false} ConsistentTree(w: World, p: Position)
    requires Runs.Consistent(w)
    ensures p in w.fs.tree ==> w.fs.tree[p] < |w.fs.files|
  {
  }

  lemma {:induction false} OldHandlesOutside(root: string, w: World, w': World, p: Position)
    requires Runs.Consistent(w) && HandlesInside(root, w) && !Reached(root, p)
    requires |w'.handles| == |w.handles| && forall h :: 0 <= h < |w.handles| ==> w'.handles[h].id == w.handles[h].id
    requires p in w'.fs.tree ==> (p in w.fs.tree && w'.fs.tree[p] == w.fs.tree[p]) || w'.fs.tree[p] >= |w.fs.files|
    ensures HandlesElsewhere(w', p)
  {
    hide Reached;
    forall h | p in w'.fs.tree && 0 <= h < |w'.handles|
      ensures w'.fs.tree[p] != w'.handles[h].id
    {
      assert HandleInside(w, h) && HandlesElsewhere(w, p);
    }
  }

  lemma {:induction false} NewHandleOutside(root: string, w: World, w': World, p: Position, c: Position)
    requires Runs.Consistent(w) && Runs.Consistent(w') && HandlesInside(root, w) && !Reached(root, p) && Above(Components(root), c)
    requires |w.handles| <= |w'.handles| <= |w.handles| + 1
    requires forall h :: 0 <= h < |w.handles| ==> w'.handles[h].id == w.handles[h].id
    requires |w'.handles| > |w.handles| ==> c in w'.fs.tree && w'.handles[|w.handles|].id == w'.fs.tree[c]
    requires p in w'.fs.tree ==> (p in w.fs.tree && w'.fs.tree[p] == w.fs.tree[p]) || w'.fs.tree[p] >= |w.fs.files|
    ensures HandlesElsewhere(w', p)
  {
    ReachIsBelow(root, p);
    hide Reached, Components;
    forall h | p in w'.fs.tree && 0 <= h < |w'.handles|
      ensures w'.fs.tree[p] != w'.handles[h].id
    {
      assert HandlesElsewhere(w, p);
      assert h < |w.handles| ==> HandleInside(w, h);
    }
  }

  lemma {:induction false} ScopedStepKeepsHandles(root: string, w: World, c: Command)
    requires Runs.Consistent(w) && ScopedLegal(root, w, c) && HandlesInside(root, w)
    ensures HandlesInside(root, ScopedNext(root, w, c))
  {
    hide Reached, Runs.Consistent, ScopedNext, ScopedLegal;
    forall p | !Reached(root, p)
      ensures HandlesElsewhere(ScopedNext(root, w, c), p)
    {
      ScopedStep(root, w, c, p);
    }
  }

  // -------------------------------------------------------------------- runs

  ghost predicate ScopedLegalRun(root: string, w: World, run: seq<Command>)
    requires Runs.Consistent(w)
    decreases |run|
  {
    run == [] || (ScopedLegal(root, w, run[0]) && ScopedLegalRun(root, ScopedNext(root, w, run[0]), run[1..]))
  }

  ghost function ScopedRun(root: string, w: World, run: seq<Command>): (w': World)
    requires Runs.Consistent(w) && ScopedLegalRun(root, w, run)
    ensures Runs.Consistent(w')
    decreases |run|
  {
    if run == [] then w else ScopedRun(root, ScopedNext(root, w, run[0]), run[1..])
  }

  ghost function ScopedReplies(root: string, w: World, run: seq<Command>): seq<Reply>
    requires Runs.Consistent(w) && ScopedLegalRun(root, w, run)
    decreases |run|
  {
    if run == [] then []
    else [ScopedReply(root, w, run[0])] + ScopedReplies(root, ScopedNext(root, w, run[0]), run[1..])
  }

  lemma {:induction false} KeptTwice(w: World, mid: World, w': World, scope: Position, p: Position)
    requires Runs.Consistent(w) && Runs.Consistent(mid) && Runs.Consistent(w')
    requires KeptOutside(w, mid, scope, p) && KeptOutside(mid, w', scope, p)
    ensures KeptOutside(w, w', scope, p)
    ensures KindKept(w, mid, p) && KindKept(mid, w', p) ==> KindKept(w, w', p)
  {
    hide WellFormed;
  }

  lemma {:induction false} ParentUnreached(root: string)
    requires Components(root) != []
    ensures !Reached(root, Parent(Components(root)))
  {
    if EndsWithSeparator(GetDirName(root)) {
      DoubledSeparatorRoot(root);
      hide Components, GetDirName, GetFileName, EntryOf;
      var c := Components(GetDirName(root));
      if GetFileName(root) == "" {
        assert Parent(Components(root)) == c;
      } else {
        assert Parent(Components(root)) == c + [""];
        assert (c + [""])[..|c| + 1] == c + [""];
      }
    }
  }

  lemma {:induction false} ParentStaysNoFile(w: World, w': World, scope: Position)
    requires Runs.Consistent(w) && Runs.Consistent(w') && ParentIsNoFile(w.fs, scope)
    requires scope != [] ==> KeptOutside(w, w', scope, Parent(scope))
    ensures ParentIsNoFile(w'.fs, scope)
  {
    hide WellFormed;
  }

  lemma {:induction false} StepKeepsKind(root: string, w: World, c: Command, p: Position)
    requires Runs.Consistent(w) && ScopedLegal(root, w, c) && HandlesInside(root, w) && !Reached(root, p)
    requires ParentIsNoFile(w.fs, Components(root)) || GetFileName(root) == "" || EndsWithSeparator(GetDirName(root))
    ensures KindKept(w, ScopedNext(root, w, c), p)
    ensures ParentIsNoFile(w.fs, Components(root)) ==> ParentIsNoFile(ScopedNext(root, w, c).fs, Components(root))
  {
    hide Reached, Components, GetDirName, GetFileName, ScopedNext, ScopedLegal, HandlesInside, WellFormed;
    var w' := ScopedNext(root, w, c);
    ScopedStep(root, w, c, p);
    if Components(root) != [] {
      ParentUnreached(root);
      ScopedStep(root, w, c, Parent(Components(root)));
    }
    if ParentIsNoFile(w.fs, Components(root)) {
      ParentStaysNoFile(w, w', Components(root));
    }
    ConsistentTree(w, p);
  }

  /** Isolation over every run, handles included, for every root: where the scope does not
      reach, each position keeps its file and its bytes, nothing appears but the missing
      ancestors of the scope, and kinds change at most for the scope's parent. */
  lemma {:induction false} ScopedRunIsolates(root: string, w: World, run: seq<Command>, p: Position)
    requires Runs.Consistent(w) && HandlesInside(root, w) && ScopedLegalRun(root, w, run) && !Reached(root, p)
    ensures HandlesInside(root, ScopedRun(root, w, run))
    ensures KeptOutside(w, ScopedRun(root, w, run), Components(root), p)
    ensures ParentIsNoFile(w.fs, Components(root)) || GetFileName(root) == "" || EndsWithSeparator(GetDirName(root)) ==>
              KindKept(w, ScopedRun(root, w, run), p)
    decreases |run|
  {
    if run == [] {
      assert ScopedRun(root, w, run) == w;
      ConsistentTree(w, p);
    } else {
      hide Reached, Components, GetDirName, GetFileName, ScopedNext, ScopedLegal, HandlesInside, Runs.Consistent, KeptOutside,
           KindKept, ParentIsNoFile;
      var w' := ScopedNext(root, w, run[0]);
      ScopedStep(root, w, run[0], p);
      ScopedStepKeepsHandles(root, w, run[0]);
      if ParentIsNoFile(w.fs, Components(root)) || GetFileName(root) == "" || EndsWithSeparator(GetDirName(root)) {
        StepKeepsKind(root, w, run[0], p);
      }
      ScopedRunIsolates(root, w', run[1..], p);
      KeptTwice(w, w', ScopedRun(root, w', run[1..]), Components(root), p);
    }
  }

  lemma {:induction false} ReachIsScope(root: string, p: Position)
    requires !EndsWithSeparator(GetDirName(root))
    ensures Reached(root, p) <==> Above(Components(root), p)
  {
  }

  // ------------------------------------------------------- where isolation fails

  lemma {:induction false} ScopedRunOfOne(root: string, w: World, a: Command)
    requires Runs.Consistent(w) && ScopedLegal(root, w, a)
    ensures ScopedLegalRun(root, w, [a]) && ScopedRun(root, w, [a]) == ScopedNext(root, w, a)
  {
    hide Runs.Consistent, ScopedLegal, ScopedNext;
    assert [a][1..] == [];
  }

  lemma {:induction false} ScopedRunThenOne(root: string, w: World, a: Command, rest: seq<Command>)
    requires Runs.Consistent(w) && ScopedLegal(root, w, a) && ScopedLegalRun(root, ScopedNext(root, w, a), rest)
    ensures ScopedLegalRun(root, w, [a] + rest)
    ensures ScopedRun(root, w, [a] + rest) == ScopedRun(root, ScopedNext(root, w, a), rest)
  {
    hide Runs.Consistent, ScopedLegal, ScopedNext;
    assert ([a] + rest)[1..] == rest;
  }

  /** A world that holds the entry `e` and no handles. */
  ghost function WorldWith(e: Position): (w: World)
    requires SlashFree(e)
    ensures Runs.Consistent(w) && e in w.fs.tree && w.handles == []
  {
    CreateAlongCorrect(EMPTY_FS, [], e, true, true);
    assert [] + e == e && Above(e, e);
    World(CreateAlong(EMPTY_FS, [], e, true, true), [])
  }

  lemma {:induction false} CutIsSlashFree(root: string, e: Position)
    requires CutsOutside(root, e)
    ensures SlashFree(e)
  {
    hide EntryOf, ScopePath, Components, CutsOutside;
    CutByPath(root, e);
    ComponentsSlashFree(ScopePath(root, CuttingPath(root, e)));
  }

  /** For a root such as "/a//b" a scoped `remove` takes away an entry outside the scope. */
  lemma {:induction false} RemovalEscapes(root: string, e: Position)
    requires CutsOutside(root, e) && SlashFree(e)
    ensures var w, run := WorldWith(e), [RemovePath(CuttingPath(root, e))];
            && HandlesInside(root, w) && ScopedLegalRun(root, w, run) && !Above(Components(root), e)
            && !KeptOutside(w, ScopedRun(root, w, run), Components(root), e)
  {
    hide EntryOf, ScopePath, Components, GetDirName, GetFileName, CuttingPath, WorldWith, Reached, Runs.Consistent, WellFormed;
    var w, c := WorldWith(e), RemovePath(CuttingPath(root, e));
    CutByPath(root, e);
    EntryNeverRoot(ScopePath(root, CuttingPath(root, e)), e);
    ScopedRunOfOne(root, w, c);
    assert Above(e, e);
    assert e !in ScopedNext(root, w, c).fs.tree;
  }

  lemma {:induction false} EntryNeverRoot(path: string, e: Position)
    requires EntryOf(path) == e && e != [] && Leaf(e) != ""
    ensures path != "" && path != "/"
  {
    hide EntryOf;
    EntryOfRoot();
  }

  lemma {:induction false} EntryOfRoot()
    ensures EntryOf("") == [""] && EntryOf("/") == [""]
  {
    hide Split, GetDirName, GetFileName;
    NoSeparatorInEmpty();
    SplitName("");
    assert "/" == "" + "/" + "";
    DirAndFileNameOf("", "");
  }

  lemma {:induction false} NoSeparatorInEmpty()
    ensures GetDirName("") == "" && GetFileName("") == ""
  {
  }

  /** Every run of every client leaves alone all that is outside the scope, if and only if
      the directory name of the scope's root does not end with a separator. */
  lemma {:induction false} IsolationExactly(root: string)
    ensures (forall w, run, p :: Runs.Consistent(w) && HandlesInside(root, w) && ScopedLegalRun(root, w, run)
                                 && !Above(Components(root), p) ==>
               KeptOutside(w, ScopedRun(root, w, run), Components(root), p))
      <==> !EndsWithSeparator(GetDirName(root))
  {
    hide Components, GetDirName, GetFileName, Reached, CuttingPath, WorldWith, HandlesInside, Runs.Consistent, ScopedLegalRun,
         ScopedRun, KeptOutside;
    if EndsWithSeparator(GetDirName(root)) {
      var e := SomeCut(root);
      CutIsSlashFree(root, e);
      RemovalEscapes(root, e);
    } else {
      forall w, run, p | Runs.Consistent(w) && HandlesInside(root, w) && ScopedLegalRun(root, w, run) && !Above(Components(root), p)
        ensures KeptOutside(w, ScopedRun(root, w, run), Components(root), p)
      {
        ReachIsScope(root, p);
        ScopedRunIsolates(root, w, run, p);
      }
    }
  }

  lemma {:induction false} SomeCut(root: string) returns (e: Position)
    requires EndsWithSeparator(GetDirName(root))
    ensures CutsOutside(root, e)
  {
    DoubledSeparatorRoot(root);
    hide Components, GetDirName, GetFileName, EntryOf;
    var name := if GetFileName(root) == "" then "x" else GetFileName(root);
    e := Components(GetDirName(root)) + [name];
  }

  // --------------------------------------------------- where kinds change outside

  /** The run by which a scope turns the file it hangs below into a directory. */
  const PARENT_MARKING_RUN := [Mkdir("/x"), RenamePath("/x", "/")]

  lemma {:induction false} ParentCanBeMarked(root: string, w: World)
    requires !EndsWithSeparator(GetDirName(root)) && GetFileName(root) != ""
    requires Runs.Consistent(w) && !ParentIsNoFile(w.fs, Components(root))
    ensures ScopedLegalRun(root, w, PARENT_MARKING_RUN)
    ensures !KindKept(w, ScopedRun(root, w, PARENT_MARKING_RUN), Parent(Components(root)))
  {
    hide WellFormed, CreatePath, ScopePath, Components, EntryOf, Runs.Consistent, GetDirName, GetFileName;
    MarkingMkdir(root, w);
    var w1 := ScopedNext(root, w, Mkdir("/x"));
    MarkingRename(root, w1);
    var run := PARENT_MARKING_RUN;
    assert run[1..] == [RenamePath("/x", "/")] && run[1..][1..] == [];
    assert ScopedRun(root, w1, run[1..]) == ScopedNext(root, w1, RenamePath("/x", "/"));
  }

  lemma {:induction false} MarkingMkdir(root: string, w: World)
    requires !EndsWithSeparator(GetDirName(root)) && GetFileName(root) != ""
    requires Runs.Consistent(w) && !ParentIsNoFile(w.fs, Components(root))
    ensures var w1 := ScopedNext(root, w, Mkdir("/x"));
            && Components(ScopePath(root, "/x")) in w1.fs.tree
            && !ParentIsNoFile(w1.fs, Components(root))
  {
    var scope, x := Components(root), ScopePath(root, "/x");
    MarkingNames(root);
    assert !Above(scope, Parent(scope));
    CreationOutside(w.fs, x, true, scope, Parent(scope));
    CreatePathCorrect(w.fs, x, true);
    assert ScopedNext(root, w, Mkdir("/x")).fs == CreatePath(w.fs, x, true);
  }

  lemma {:induction false} MarkingNames(root: string)
    requires !EndsWithSeparator(GetDirName(root)) && GetFileName(root) != ""
    ensures ScopePath(root, "/") == root && EntryOf(root) == Components(root)
    ensures Components(ScopePath(root, "/x")) == Components(root) + ["x"]
    ensures EntryOf(ScopePath(root, "/x")) == Components(root) + ["x"]
    ensures ScopePath(root, "/x") != ""
  {
    StripLeadingOne("x");
    StripLeadingStrips("x");
    assert "/" + "x" == "/x";
    ScopePathIs(root, "/x");
    StripLeadingOne("");
    assert "/" + "" == "/";
    ScopePathIs(root, "/");
    EntryJustBelow(root, "x");
    assert Components(root) + [] == Components(root);
    ScopedComponents(root, "/x");
    SplitName("x");
    EntryIsWhatLookupFinds(root);
  }

  lemma {:induction false} MarkingRename(root: string, w: World)
    requires !EndsWithSeparator(GetDirName(root)) && GetFileName(root) != ""
    requires Runs.Consistent(w) && Components(ScopePath(root, "/x")) in w.fs.tree
    requires !ParentIsNoFile(w.fs, Components(root))
    ensures ScopedLegal(root, w, RenamePath("/x", "/"))
    ensures var w', p := ScopedNext(root, w, RenamePath("/x", "/")), Parent(Components(root));
            p in w'.fs.tree && w'.fs.files[w'.fs.tree[p]].isDirectory
  {
    hide Components, EntryOf, ScopePath, GetDirName, GetFileName, Rename, Marks, ParentPath, TrailingSeparator, ScopedLegal, ScopedNext,
         Runs.Consistent, WellFormed;
    var scope := Components(root);
    ConsistentFs(w);
    MarkingNames(root);
    NoFileMeansNamed(w.fs, scope);
    ParentMarked(root);
    ScopedPathNext(root, w, "/x", "/");
    assert ["x"] != [] && !Above(scope + ["x"], scope);
    assert !Above(scope, Parent(scope));
    RenamingOutside(w.fs, ScopePath(root, "/x"), root, scope, Parent(scope));
  }

  lemma {:induction false} NoFileMeansNamed(fs: Fs, scope: Position)
    requires WellFormed(fs) && !ParentIsNoFile(fs, scope)
    ensures scope != [] && Parent(scope) != [] && Parent(scope) in fs.tree
  {
  }

  lemma {:induction false} ParentMarked(root: string)
    requires !EndsWithSeparator(GetDirName(root)) && Components(root) != [] && Parent(Components(root)) != []
    requires EntryOf(root) == Components(root)
    ensures Marks(ParentPath(root), true)
  {
    ParentPathComponents(root);
  }

  /** Replacing an entry outside the scope by something of the other kind. */
  function FlippingRun(root: string, e: Position, isDirectory: bool): seq<Command>
    requires CutsOutside(root, e)
  {
    [RemovePath("/x/y"), if isDirectory then OpenFile("/x/y", Write) else Mkdir("/x/y"), RenamePath("/x/y", CuttingPath(root, e))]
  }

  lemma {:induction false} LocalNames()
    ensures StripLeading("/x/y") == "x" + "/" + "y"
    ensures Split("x" + "/" + "y") == ["x", "y"] && Split("x") == ["x"]
    ensures '/' !in "y" && !StartsWithSeparator("x")
  {
    var relative := "x" + "/" + "y";
    assert "/x/y" == "/" + relative;
    StripLeadingOne(relative);
    StripLeadingStrips(relative);
    SplitLeadingName("x", "y");
    SplitName("x");
    SplitName("y");
  }

  lemma {:induction false} NoTrailing(base: string, relative: string)
    requires relative != "" && !EndsWithSeparator(relative)
    ensures !TrailingSeparator(base + relative)
  {
    assert (base + relative)[|base + relative| - 1] == relative[|relative| - 1];
  }

  /** The local path "/x/y" is looked up and cut at the same place, two names below the root. */
  lemma {:induction false} TwoBelow(root: string)
    ensures var c, path := Components(root) + ["x", "y"], ScopePath(root, "/x/y");
            && Components(path) == c && EntryOf(path) == c && !TrailingSeparator(path)
  {
    hide Components, EntryOf, ScopePath, StripLeading, Split, TrailingSeparator, Base;
    LocalNames();
    ScopePathIs(root, "/x/y");
    ScopedComponents(root, "/x/y");
    EntryThrough(root, "x", "y");
    NoTrailing(Base(root), "x" + "/" + "y");
    assert (Components(root) + ["x"]) + ["y"] == Components(root) + ["x", "y"];
  }

  lemma {:induction false} ScopedPathNext(root: string, w: World, path: string, other: string)
    requires Runs.Consistent(w) && path != "" && other != ""
    ensures ScopedLegal(root, w, RemovePath(path)) && ScopedLegal(root, w, Mkdir(path)) && ScopedLegal(root, w, OpenFile(path, Write))
    ensures ScopedNext(root, w, RemovePath(path)).fs == Remove(w.fs, ScopePath(root, path)).0
    ensures ScopedNext(root, w, Mkdir(path)).fs == CreatePath(w.fs, ScopePath(root, path), true)
    ensures ScopedNext(root, w, OpenFile(path, Write)).fs == Open(w.fs, ScopePath(root, path), Write).0
    ensures !MovesIntoItself(w.fs, ScopePath(root, path), ScopePath(root, other)) ==>
              && ScopedLegal(root, w, RenamePath(path, other))
              && ScopedNext(root, w, RenamePath(path, other)).fs == Rename(w.fs, ScopePath(root, path), ScopePath(root, other)).0
  {
    hide ScopePath, Open, CreatePath, Remove, Rename, MovesIntoItself, WellFormed;
  }

  /** After the first two commands a node of the chosen kind is at "/x/y". */
  lemma {:induction false} FlippingNode(root: string, w: World, isDirectory: bool)
    requires Runs.Consistent(w)
    ensures var a, b := RemovePath("/x/y"), if isDirectory then OpenFile("/x/y", Write) else Mkdir("/x/y");
            && ScopedLegal(root, w, a)
            && var w1 := ScopedNext(root, w, a);
            && ScopedLegal(root, w1, b)
            && var w2, c := ScopedNext(root, w1, b), Components(ScopePath(root, "/x/y"));
            && c in w2.fs.tree && w2.fs.tree[c] < |w2.fs.files|
            && w2.fs.files[w2.fs.tree[c]].isDirectory == !isDirectory
  {
    hide Components, EntryOf, ScopePath, TrailingSeparator, ScopedLegal, ScopedNext, Open, CreatePath, Remove, Runs.Consistent,
         WellFormed;
    TwoBelow(root);
    var path := ScopePath(root, "/x/y");
    ScopedPathNext(root, w, "/x/y", "/");
    var w1 := ScopedNext(root, w, RemovePath("/x/y"));
    FirstRemoved(w.fs, path);
    ScopedPathNext(root, w1, "/x/y", "/");
    ConsistentFs(w1);
    ThenMade(w1.fs, path, !isDirectory);
  }

  lemma {:induction false} FirstRemoved(fs: Fs, path: string)
    requires Components(path) == EntryOf(path) && |Components(path)| >= 2
    ensures Components(path) !in Remove(fs, path).0.tree
  {
    hide EntryOf;
    assert Above(Components(path), Components(path));
    assert Components("") == [] && Components("/") == [];
  }

  lemma {:induction false} ThenMade(fs: Fs, path: string, asDirectory: bool)
    requires WellFormed(fs) && Components(path) !in fs.tree && !TrailingSeparator(path)
    ensures var r, c := if asDirectory then CreatePath(fs, path, true) else Open(fs, path, Write).0, Components(path);
            WellFormed(r) && c in r.tree && r.tree[c] < |r.files| && r.files[r.tree[c]].isDirectory == asDirectory
  {
    CreatePathCorrect(fs, path, asDirectory);
    hide CreatePath, Components, TrailingSeparator;
    CreatedAt(fs, CreatePath(fs, path, asDirectory), Components(path), asDirectory, Marks(path, asDirectory), Components(path));
  }

  /** Then the rename puts it where the entry was. */
  lemma {:induction false} FlippingRename(root: string, w: World, e: Position)
    requires Runs.Consistent(w) && CutsOutside(root, e)
    requires Components(ScopePath(root, "/x/y")) in w.fs.tree
    ensures var c, id := RenamePath("/x/y", CuttingPath(root, e)), w.fs.tree[Components(ScopePath(root, "/x/y"))];
            && id < |w.fs.files|
            && ScopedLegal(root, w, c)
            && var w' := ScopedNext(root, w, c);
            && e in w'.fs.tree && w'.fs.tree[e] < |w'.fs.files|
            && w'.fs.files[w'.fs.tree[e]] == w.fs.files[id]
  {
    hide Components, EntryOf, ScopePath, CuttingPath, CutsOutside, TrailingSeparator, WellFormed, Rename, ScopedLegal, ScopedNext,
         Runs.Consistent;
    TwoBelow(root);
    CutByPath(root, e);
    var from, to := ScopePath(root, "/x/y"), ScopePath(root, CuttingPath(root, e));
    var f := Components(from);
    assert Above(Components(root), f);
    assert !Above(f, e);
    ConsistentTree(w, f);
    ConsistentFs(w);
    ScopedPathNext(root, w, "/x/y", CuttingPath(root, e));
    RenameRelocates(w.fs, from, to, []);
    assert e + [] == e && f + [] == f;
    ConsistentTree(ScopedNext(root, w, RenamePath("/x/y", CuttingPath(root, e))), e);
  }

  lemma {:induction false} ConsistentFs(w: World)
    requires Runs.Consistent(w)
    ensures WellFormed(w.fs)
  {
  }

  lemma {:induction false} KindCanBeFlipped(root: string, w: World, e: Position)
    requires Runs.Consistent(w) && CutsOutside(root, e) && e in w.fs.tree
    ensures w.fs.tree[e] < |w.fs.files|
    ensures var run := FlippingRun(root, e, w.fs.files[w.fs.tree[e]].isDirectory);
            ScopedLegalRun(root, w, run) && !KindKept(w, ScopedRun(root, w, run), e)
  {
    hide Components, ScopePath, CuttingPath, CutsOutside, ScopedNext, ScopedLegal, Runs.Consistent, WellFormed;
    ConsistentTree(w, e);
    var isDirectory := w.fs.files[w.fs.tree[e]].isDirectory;
    var a, b := RemovePath("/x/y"), if isDirectory then OpenFile("/x/y", Write) else Mkdir("/x/y");
    var c := RenamePath("/x/y", CuttingPath(root, e));
    FlippingNode(root, w, isDirectory);
    var w1 := ScopedNext(root, w, a);
    var w2 := ScopedNext(root, w1, b);
    FlippingRename(root, w2, e);
    ScopedRunOfOne(root, w2, c);
    ScopedRunThenOne(root, w1, b, [c]);
    ScopedRunThenOne(root, w, a, [b] + [c]);
    assert FlippingRun(root, e, isDirectory) == [a] + ([b] + [c]);
    ConsistentFs(w);
    ConsistentFs(ScopedNext(root, w2, c));
  }

  /** All kinds outside the scope are safe from every run exactly when the scope can cut no
      entry outside that exists, and its parent is not a file or its root is written with a
      trailing or a doubled separator at its end. */
  lemma {:induction false} KindsKeptExactly(root: string, w: World)
    requires Runs.Consistent(w) && HandlesInside(root, w)
    ensures (forall run, p :: ScopedLegalRun(root, w, run) && !Above(Components(root), p) ==> KindKept(w, ScopedRun(root, w, run), p))
      <==> (forall e :: CutsOutside(root, e) ==> e !in w.fs.tree)
           && (ParentIsNoFile(w.fs, Components(root)) || GetFileName(root) == "" || EndsWithSeparator(GetDirName(root)))
  {
    hide Components, GetDirName, GetFileName, HandlesInside, Runs.Consistent, ScopedLegalRun, ScopedRun, WellFormed;
    ConsistentFs(w);
    if e :| CutsOutside(root, e) && e in w.fs.tree {
      KindCanBeFlipped(root, w, e);
      CutByPath(root, e);
    } else if ParentIsNoFile(w.fs, Components(root)) || GetFileName(root) == "" || EndsWithSeparator(GetDirName(root)) {
      forall run, p | ScopedLegalRun(root, w, run) && !Above(Components(root), p)
        ensures KindKept(w, ScopedRun(root, w, run), p)
      {
        KindIsSafe(root, w, run, p);
      }
    } else {
      ParentCanBeMarked(root, w);
      assert !Above(Components(root), Parent(Components(root)));
    }
  }

  lemma {:induction false} KindIsSafe(root: string, w: World, run: seq<Command>, p: Position)
    requires Runs.Consistent(w) && HandlesInside(root, w) && ScopedLegalRun(root, w, run) && !Above(Components(root), p)
    requires forall e :: CutsOutside(root, e) ==> e !in w.fs.tree
    requires ParentIsNoFile(w.fs, Components(root)) || GetFileName(root) == "" || EndsWithSeparator(GetDirName(root))
    ensures KindKept(w, ScopedRun(root, w, run), p)
  {
    hide Components, GetDirName, GetFileName, HandlesInside, ScopedLegalRun, ScopedRun, CutsOutside;
    if Reached(root, p) {
      assert Above(p[..|Components(GetDirName(root))| + 1], p);
    } else {
      ScopedRunIsolates(root, w, run, p);
    }
  }
}
