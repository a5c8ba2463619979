/**
 `ensureDirectory`: create a directory by way of its parent.  Over the in-memory tree
 the recursion amounts to at most one `mkdir` of the whole path.
 */
module EnsureDirectory {
  import opened PathUtility
  import opened Positions
  import opened TreeModel
  import opened MemoryFileAdapter

  /** The parent the recursion turns to. */
  function EnsuredParent(path: string): string {
    if GetDirName(path) == "" && StartsWithSeparator(path) then "/" else GetDirName(path)
  }

  lemma {:induction false} EnsuredParentIsShorter(path: string)
    requires path != "" && path != "/"
    ensures |EnsuredParent(path)| < |path|
    ensures Components(EnsuredParent(path)) == Components(GetDirName(path))
  {
  }

  /** Some directory name on the way up, or the path itself, exists or counts as a root. */
  predicate Anchored(fs: Fs, path: string)
    decreases |path|
  {
    path != "" && (
      || Components(path) in fs.tree
      || IsRoot(path)
      || (EnsuredParentIsShorter(path); Anchored(fs, EnsuredParent(path))))
  }

  lemma {:induction false} AbsolutePathsAreAnchored(fs: Fs, path: string)
    requires [] in fs.tree && StartsWithSeparator(path)
    ensures Anchored(fs, path)
    decreases |path|
  {
    if path != "/" {
      EnsuredParentIsShorter(path);
      AbsolutePathsAreAnchored(fs, EnsuredParent(path));
    }
  }

  /** The path up to its first separator. */
  function FirstName(path: string): string {
    path[..NextSeparator(path, 0)]
  }

  lemma {:induction false} RelativeNames(path: string)
    requires path != "" && !StartsWithSeparator(path)
    ensures Components(path) != [] && Components(path)[0] == FirstName(path)
    ensures NextSeparator(path, 0) == |path| ==> Components(path) == [path]
  {
    SplitFirst(path);
    hide Split, NextSeparator;
  }

  /** The directory name of a relative path is empty or starts with the same name. */
  lemma {:induction false} SameFirstName(path: string)
    requires path != "" && !StartsWithSeparator(path)
    ensures GetDirName(path) == "" <==> NextSeparator(path, 0) == |path|
    ensures GetDirName(path) == "" ==> FirstName(path) == path
    ensures GetDirName(path) != "" ==>
              !StartsWithSeparator(GetDirName(path)) && FirstName(GetDirName(path)) == FirstName(path)
  {
    var k, n := LastSeparator(path), NextSeparator(path, 0);
    if k >= 0 {
      var dir := path[..k];
      assert n <= k && k != 0 && dir[0] == path[0];
      hide LastSeparator, NextSeparator;
      FirstSeparatorIs(dir, n);
      assert dir[..n] == path[..n];
    }
  }

  lemma {:induction false} FirstSeparatorIs(p: string, n: nat)
    requires n <= |p| && (forall i :: 0 <= i < n ==> p[i] != '/') && (n < |p| ==> p[n] == '/')
    ensures NextSeparator(p, 0) == n
  {
    hide NextSeparator;
  }

  /** A relative path can only count as a root by its first name. */
  lemma {:induction false} RootByFirstName(path: string)
    requires !StartsWithSeparator(path) && IsRoot(path)
    ensures IsRoot(FirstName(path))
  {
    var n := NextSeparator(path, 0);
    assert n < |path| ==> path[n] == '/';
    hide NextSeparator;
    assert forall i :: 0 <= i < n ==> path[..n][i] == path[i];
  }

  /** The condition in closed form: an absolute path, or one whose first name exists or
      counts as a root. */
  lemma {:induction false} AnchoredExactly(fs: Fs, path: string)
    requires WellFormed(fs)
    ensures Anchored(fs, path)
      <==> path != "" && (StartsWithSeparator(path) || [FirstName(path)] in fs.tree || IsRoot(FirstName(path)))
    decreases |path|
  {
    if path == "" {
    } else if StartsWithSeparator(path) {
      AbsolutePathsAreAnchored(fs, path);
    } else {
      RelativeNames(path);
      SameFirstName(path);
      EnsuredParentIsShorter(path);
      AnchoredExactly(fs, GetDirName(path));
      if Components(path) in fs.tree {
        FirstNameExists(fs, Components(path));
      }
      hide Components, IsRoot, FirstName, GetDirName, WellFormed;
      if IsRoot(path) {
        RootByFirstName(path);
      }
    }
  }

  lemma {:induction false} FirstNameExists(fs: Fs, c: Position)
    requires WellFormed(fs) && c != [] && c in fs.tree
    ensures [c[0]] in fs.tree
  {
    assert Above([c[0]], c);
  }

  /** Making an absent parent first, as a directory, does not change what `mkdir` leaves. */
  lemma {:induction false} ParentFirst(fs: Fs, parent: string, path: string)
    requires WellFormed(fs)
    requires Components(parent) <= Components(path)
    requires Components(parent) !in fs.tree && Components(path) !in fs.tree
    ensures CreatePath(CreatePath(fs, parent, true), path, true) == CreatePath(fs, path, true)
  {
    var x, c := Components(parent), Components(path);
    var y := c[|x|..];
    assert c == x + y && [] + x == x && [] + c == c;
    ComponentsSlashFree(parent);
    ComponentsSlashFree(path);
    var mid := CreateAlong(fs, [], x, true, true);
    TrailingIrrelevant(fs, [], x);
    assert CreatePath(fs, parent, true) == mid;
    CreatePathCorrect(fs, parent, true);
    TrailingIrrelevant(fs, [], c);
    NewOnesAreDirectories(fs, parent, c);
    TrailingIrrelevant(mid, [], c);
    CreateAlongSplit(mid, [], x, y);
    CreateAlongPresent(mid, [], x, true, true);
    CreateAlongSplit(fs, [], x, y);
  }

  lemma {:induction false} NewOnesAreDirectories(fs: Fs, path: string, c: Position)
    requires WellFormed(fs) && c !in fs.tree
    ensures WellFormed(CreatePath(fs, path, true))
    ensures c in CreatePath(fs, path, true).tree ==>
            CreatePath(fs, path, true).files[CreatePath(fs, path, true).tree[c]].isDirectory
  {
    CreatePathCorrect(fs, path, true);
    if c in CreatePath(fs, path, true).tree {
      CreatedAt(fs, CreatePath(fs, path, true), Components(path), true, Marks(path, true), c);
    }
  }

  /** What `ensureDirectory` leaves: nothing new if the path was there, otherwise exactly
      what one `mkdir` of it would. */
  function Ensured(fs: Fs, path: string): Fs {
    if Anchored(fs, path) && Components(path) !in fs.tree && !IsRoot(path) then CreatePath(fs, path, true) else fs
  }

  lemma {:induction false} EnsuredThroughParent(fs: Fs, path: string)
    requires WellFormed(fs) && path != "" && Components(path) !in fs.tree && !IsRoot(path)
    ensures Anchored(fs, path) <==> Anchored(fs, EnsuredParent(path))
    ensures Anchored(fs, path) ==> CreatePath(Ensured(fs, EnsuredParent(path)), path, true) == Ensured(fs, path)
    ensures !Anchored(fs, path) ==> Ensured(fs, EnsuredParent(path)) == fs
  {
    EnsuredParentIsShorter(path);
    DirNameIsPrefix(path);
    var parent := EnsuredParent(path);
    if Anchored(fs, path) && Components(parent) !in fs.tree && !IsRoot(parent) {
      ParentFirst(fs, parent, path);
    }
  }

  method Ensure(fs: MemoryFileSystem, path: string) returns (ok: bool)
    requires fs.Valid()
    modifies fs, fs.all
    ensures fs.Valid() && fs.Grown()
    ensures ok <==> Anchored(old(fs.State()), path)
    ensures fs.State() == Ensured(old(fs.State()), path)
    decreases |path|
  {
    hide MemoryFileSystem.State, MemoryFileSystem.Placed, WellFormed, Components, CreatePath, IsRoot, EnsuredParent;
    if path == "" {
      return false;
    }
    fs.StateIsWellFormed();
    var found := fs.Exists(path);
    if found {
      return true;
    }
    if IsRoot(path) {
      return true;
    }
    assert path != "/" by { SlashIsRoot(); }
    EnsuredParentIsShorter(path);
    EnsuredThroughParent(fs.State(), path);
    ghost var mid := fs.all;
    var up := Ensure(fs, EnsuredParent(path));
    if up {
      mid := fs.all;
      ok := fs.Mkdir(path);
      fs.GrownVia(mid);
    } else {
      ok := false;
    }
  }

  lemma {:induction false} SlashIsRoot()
    ensures IsRoot("/")
  {
  }

  /** For every absolute path, whatever slashes it carries, `ensureDirectory` succeeds and
      is `mkdir` when the path is absent and nothing when it is present. */
  lemma {:induction false} EnsureAbsolute(fs: Fs, path: string)
    requires WellFormed(fs) && StartsWithSeparator(path)
    ensures Anchored(fs, path)
    ensures Ensured(fs, path) == if Components(path) in fs.tree then fs else CreatePath(fs, path, true)
  {
    AbsolutePathsAreAnchored(fs, path);
  }

  /** A reported success means that the path is there afterwards exactly when it was
      there before or does not count as a root: every path on a drive letter counts as
      one, and so does ".". */
  lemma {:induction false} SuccessMeansPresentExactly(fs: Fs, path: string)
    requires WellFormed(fs)
    ensures (Anchored(fs, path) ==> Components(path) in Ensured(fs, path).tree)
      <==> Components(path) in fs.tree || !IsRoot(path)
  {
    CreatePathCorrect(fs, path, true);
  }

  lemma {:induction false} DrivePathIsReportedButNotMade()
    ensures IsRoot("C:/root")
    ensures Anchored(EMPTY_FS, "C:/root") && Ensured(EMPTY_FS, "C:/root") == EMPTY_FS
    ensures Components("C:/root") == ["C:", "root"] && Components("C:/root") !in EMPTY_FS.tree
  {
    assert "C:/root" == "C:" + "/" + "root";
    SplitLeadingName("C:", "root");
    SplitName("root");
  }
}
