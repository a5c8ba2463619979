/**
 The in-memory file system as a value: a prefix-closed tree of positions naming
 file identities, and a store from identities to contents.  An identity that no
 position names any more stays in the store, because open handles may still hold it.
 `View` forgets the identities: the plain map from positions to contents that the
 operations are then proved to update.
 */
module TreeModel {
  import opened Bytes
  import opened PathUtility
  import opened Positions

  datatype FileState = FileState(isDirectory: bool, data: seq<byte>)
  type Tree = map<Position, nat>
  datatype Fs = Fs(tree: Tree, files: seq<FileState>)
  type View = map<Position, FileState>

  datatype OpenMode = Read | Write | ReadWrite
  datatype Option<T> = None | Some(value: T)

  const EMPTY_FS := Fs(map[[] := 0], [FileState(true, [])])

  ghost predicate WellFormed(fs: Fs) {
    && [] in fs.tree && fs.tree[[]] == 0 && 0 < |fs.files| && fs.files[0].isDirectory
    && (forall c :: c in fs.tree ==> fs.tree[c] < |fs.files| && SlashFree(c))
    && OneParentEach(fs.tree)
    && PrefixClosed(fs.tree)
  }

  /** No file hangs at two positions. */
  ghost predicate OneParentEach(tree: Tree) {
    forall c, d :: c in tree && d in tree && tree[c] == tree[d] ==> c == d
  }

  ghost predicate PrefixClosed<T>(tree: map<Position, T>) {
    forall c, d :: c in tree && Above(d, c) ==> d in tree
  }

  /** No existing position has an empty name on the way to it. */
  ghost predicate AllNamed(fs: Fs) {
    forall c :: c in fs.tree ==> NoEmptyName(c)
  }

  function ViewOf(fs: Fs): View
    requires WellFormed(fs)
  {
    map c | c in fs.tree :: fs.files[fs.tree[c]]
  }

  // ---------------------------------------------------------------- creation

  predicate TrailingSeparator(path: string) {
    EndsWithSeparator(DropOneSeparator(path))
  }

  /** A single "/" is the root's own path, not a trailing separator. */
  lemma {:induction false} TrailingSeparatorExactly(path: string)
    ensures TrailingSeparator(path) <==> |path| >= 2 && path[|path| - 1] == '/'
    ensures Components(path) == [] <==> path == "" || path == "/"
  {
    var p := DropOneSeparator(path);
    if p != "" {
      SplitFirst(p);
      assert p[|p| - 1] == path[|path| - 1];
    }
  }

  /** One turn of the creation loop at position `c`: `directory` is the kind of a new
      node, `mark` turns an existing one into a directory. */
  function CreateStep(fs: Fs, c: Position, directory: bool, mark: bool): Fs {
    if c !in fs.tree then
      Fs(fs.tree[c := |fs.files|], fs.files + [FileState(directory, [])])
    else if mark && fs.tree[c] < |fs.files| then
      fs.(files := fs.files[fs.tree[c] := fs.files[fs.tree[c]].(isDirectory := true)])
    else fs
  }

  function CreateAlong(fs: Fs, at: Position, rest: Position, trailing: bool, asDirectory: bool): Fs
    decreases |rest|
  {
    if rest == [] then fs
    else
      var last := |rest| == 1 && !trailing;
      var c := at + [rest[0]];
      CreateAlong(CreateStep(fs, c, !last || asDirectory, last && asDirectory), c, rest[1..], trailing, asDirectory)
  }

  function CreatePath(fs: Fs, path: string, asDirectory: bool): Fs {
    CreateAlong(fs, [], Components(path), TrailingSeparator(path), asDirectory)
  }

  /** The plain-map meaning of creation: every missing ancestor of `c` appears as an
      empty directory, `c` itself with kind `directory`; `mark` upgrades an existing `c`. */
  function WithAncestors(v: View, c: Position, directory: bool, mark: bool): View {
    map d | d in v.Keys + Ancestors(c) ::
      if d !in v then FileState(d != c || directory, [])
      else if d == c && mark then v[d].(isDirectory := true)
      else v[d]
  }

  function Ancestors(c: Position): set<Position> {
    set i | 0 <= i <= |c| :: c[..i]
  }

  ghost predicate Created(fs: Fs, r: Fs, c: Position, directory: bool, mark: bool) {
    && WellFormed(r)
    && (forall d :: d in r.tree <==> d in fs.tree || Above(d, c))
    && (forall d :: d in fs.tree ==> r.tree[d] == fs.tree[d])
    && |fs.files| <= |r.files|
    && (forall i :: 0 <= i < |fs.files| ==>
          r.files[i] == if mark && c in fs.tree && fs.tree[c] == i
                        then fs.files[i].(isDirectory := true) else fs.files[i])
    && (forall d :: d in r.tree && d !in fs.tree ==>
          r.tree[d] >= |fs.files| && r.files[r.tree[d]] == FileState(d != c || directory, []))
  }

  lemma {:induction false} CreateStepCorrect(fs: Fs, at: Position, name: Name, directory: bool, mark: bool)
    requires WellFormed(fs) && at in fs.tree && '/' !in name
    ensures Created(fs, CreateStep(fs, at + [name], directory, mark), at + [name], directory, mark)
  {
    var c := at + [name];
    var r := CreateStep(fs, c, directory, mark);
    assert forall d :: Above(d, c) ==> d == c || Above(d, at);
    assert SlashFree(c) by {
      assert SlashFree(at);
    }
  }

  /** Creating an ancestor of `c` as a directory first does not change what creating `c` means. */
  lemma {:induction false} CreatedTwice(fs: Fs, mid: Fs, r: Fs, d: Position, c: Position, directory: bool, mark: bool)
    requires WellFormed(fs)
    requires Above(d, c) && d != c
    requires Created(fs, mid, d, true, false)
    requires Created(mid, r, c, directory, mark)
    ensures Created(fs, r, c, directory, mark)
  {
    assert forall e :: Above(e, d) ==> Above(e, c);
    forall e | e in r.tree && e !in fs.tree
      ensures r.tree[e] >= |fs.files| && r.files[r.tree[e]] == FileState(e != c || directory, [])
    {
      if e in mid.tree {
        assert e != c by { assert |d| < |c|; }
      }
    }
  }

  /** Creation along any component list: which positions appear, that nothing that was
      there moves or changes, and the kind of every new node. */
  lemma {:induction false} CreateAlongCorrect(fs: Fs, at: Position, rest: Position, trailing: bool, asDirectory: bool)
    requires WellFormed(fs) && at in fs.tree && SlashFree(rest)
    ensures Created(fs, CreateAlong(fs, at, rest, trailing, asDirectory), at + rest,
                    trailing || asDirectory, rest != [] && !trailing && asDirectory)
    decreases |rest|
  {
    if rest == [] {
      NothingCreated(fs, at, trailing || asDirectory);
      assert at + rest == at;
    } else {
      var last := |rest| == 1 && !trailing;
      var c, rest' := at + [rest[0]], rest[1..];
      var mid := CreateStep(fs, c, !last || asDirectory, last && asDirectory);
      CreateStepCorrect(fs, at, rest[0], !last || asDirectory, last && asDirectory);
      assert c + rest' == at + rest;
      if |rest| == 1 {
        assert c == at + rest;
      } else {
        var r := CreateAlong(mid, c, rest', trailing, asDirectory);
        CreateAlongCorrect(mid, c, rest', trailing, asDirectory);
        CreatedTwice(fs, mid, r, c, at + rest, trailing || asDirectory, !trailing && asDirectory);
      }
    }
  }

  lemma {:induction false} NothingCreated(fs: Fs, c: Position, directory: bool)
    requires WellFormed(fs) && c in fs.tree
    ensures Created(fs, fs, c, directory, false)
  {
  }

  predicate Marks(path: string, asDirectory: bool) {
    Components(path) != [] && !TrailingSeparator(path) && asDirectory
  }

  lemma {:induction false} CreatePathCorrect(fs: Fs, path: string, asDirectory: bool)
    requires WellFormed(fs)
    ensures Created(fs, CreatePath(fs, path, asDirectory), Components(path),
                    TrailingSeparator(path) || asDirectory, Marks(path, asDirectory))
    ensures Components(path) in CreatePath(fs, path, asDirectory).tree
  {
    ComponentsSlashFree(path);
    CreateAlongCorrect(fs, [], Components(path), TrailingSeparator(path), asDirectory);
    assert [] + Components(path) == Components(path);
    assert Above(Components(path), Components(path));
  }

  lemma {:induction false} CreatedOnView(fs: Fs, r: Fs, c: Position, directory: bool, mark: bool)
    requires WellFormed(fs) && Created(fs, r, c, directory, mark)
    ensures ViewOf(r) == WithAncestors(ViewOf(fs), c, directory, mark)
  {
    var v := WithAncestors(ViewOf(fs), c, directory, mark);
    forall d
      ensures d in r.tree <==> d in v
      ensures d in r.tree ==> r.files[r.tree[d]] == v[d]
    {
      AncestorsAreAbove(c);
      if d in r.tree {
        CreatedAt(fs, r, c, directory, mark, d);
      }
    }
    hide Created, WithAncestors;
    ViewIs(r, v);
  }

  /** What creation leaves at one position. */
  lemma {:induction false} CreatedAt(fs: Fs, r: Fs, c: Position, directory: bool, mark: bool, d: Position)
    requires WellFormed(fs) && Created(fs, r, c, directory, mark) && d in r.tree
    ensures r.tree[d] < |r.files|
    ensures d in fs.tree ==> r.tree[d] == fs.tree[d] < |fs.files|
    ensures r.files[r.tree[d]] ==
            if d !in fs.tree then FileState(d != c || directory, [])
            else if d == c && mark then fs.files[fs.tree[d]].(isDirectory := true)
            else fs.files[fs.tree[d]]
  {
  }

  lemma {:induction false} AncestorsAreAbove(c: Position)
    ensures forall d :: d in Ancestors(c) <==> Above(d, c)
  {
    forall d | Above(d, c)
      ensures d in Ancestors(c)
    {
      assert d == c[..|d|];
    }
  }

  /** Creation on the plain map, for every path string. */
  lemma {:induction false} CreatePathOnView(fs: Fs, path: string, asDirectory: bool)
    requires WellFormed(fs)
    ensures WellFormed(CreatePath(fs, path, asDirectory))
    ensures ViewOf(CreatePath(fs, path, asDirectory))
      == WithAncestors(ViewOf(fs), Components(path), TrailingSeparator(path) || asDirectory, Marks(path, asDirectory))
  {
    CreatePathCorrect(fs, path, asDirectory);
    CreatedOnView(fs, CreatePath(fs, path, asDirectory), Components(path),
                  TrailingSeparator(path) || asDirectory, Marks(path, asDirectory));
  }

  /** Creation position by position: ancestors that were missing are directories; the kind of
      the target is decided by the last character of the path and by what was asked for. */
  lemma {:induction false} CreatePathExactly(fs: Fs, path: string, asDirectory: bool, d: Position)
    requires WellFormed(fs)
    ensures var (r, c) := (CreatePath(fs, path, asDirectory), Components(path));
            var trailing := |path| >= 2 && path[|path| - 1] == '/';
            && (d in r.tree <==> d in fs.tree || d <= c)
            && (d in fs.tree ==>
                  && r.tree[d] == fs.tree[d] < |fs.files| <= |r.files|
                  && r.files[r.tree[d]].data == fs.files[fs.tree[d]].data
                  && (r.files[r.tree[d]].isDirectory <==>
                        fs.files[fs.tree[d]].isDirectory || (d == c && c != [] && asDirectory && !trailing)))
            && (d !in fs.tree && d <= c ==>
                  && r.tree[d] < |r.files|
                  && r.files[r.tree[d]] == FileState(d != c || asDirectory || trailing, []))
  {
    CreatePathCorrect(fs, path, asDirectory);
    TrailingSeparatorExactly(path);
    var r, c := CreatePath(fs, path, asDirectory), Components(path);
    hide CreatePath, Components, TrailingSeparator;
    assert d in r.tree <==> d in fs.tree || Above(d, c);
    if d in r.tree {
      CreatedAt(fs, r, c, TrailingSeparator(path) || asDirectory, Marks(path, asDirectory), d);
    }
  }

  lemma {:induction false} CreateAlongPresent(fs: Fs, at: Position, rest: Position, trailing: bool, asDirectory: bool)
    requires WellFormed(fs) && at + rest in fs.tree
    requires rest != [] && !trailing && asDirectory ==> fs.files[fs.tree[at + rest]].isDirectory
    ensures CreateAlong(fs, at, rest, trailing, asDirectory) == fs
    decreases |rest|
  {
    if rest == [] {
    } else {
      var c := at + [rest[0]];
      assert c + rest[1..] == at + rest;
      assert Above(c, at + rest);
      assert |rest| == 1 ==> c == at + rest;
      CreateAlongPresent(fs, c, rest[1..], trailing, asDirectory);
    }
  }

  /** A second creation of the same path changes nothing, whatever the slashes. */
  lemma {:induction false} CreatePathTwice(fs: Fs, path: string, asDirectory: bool)
    requires WellFormed(fs)
    ensures var r := CreatePath(fs, path, asDirectory); CreatePath(r, path, asDirectory) == r
  {
    var c, r := Components(path), CreatePath(fs, path, asDirectory);
    CreatePathCorrect(fs, path, asDirectory);
    assert [] + c == c;
    CreateAlongPresent(r, [], c, TrailingSeparator(path), asDirectory);
  }

  lemma {:induction false} CreateAlongSplit(fs: Fs, at: Position, x: Position, y: Position)
    ensures CreateAlong(fs, at, x + y, true, true) == CreateAlong(CreateAlong(fs, at, x, true, true), at + x, y, true, true)
    decreases |x|
  {
    if x == [] {
      assert x + y == y && at + x == at;
    } else {
      var c := at + [x[0]];
      assert (x + y)[1..] == x[1..] + y;
      assert at + x == c + x[1..];
      CreateAlongSplit(CreateStep(fs, c, true, false), c, x[1..], y);
    }
  }

  /** Whether the last separator is trailing matters to `mkdir` only when it would turn
      an existing file into a directory. */
  lemma {:induction false} TrailingIrrelevant(fs: Fs, at: Position, rest: Position)
    requires WellFormed(fs) && at in fs.tree && SlashFree(rest)
    requires at + rest in fs.tree ==> fs.files[fs.tree[at + rest]].isDirectory
    ensures CreateAlong(fs, at, rest, false, true) == CreateAlong(fs, at, rest, true, true)
    decreases |rest|
  {
    if rest == [] {
    } else {
      var c, rest' := at + [rest[0]], rest[1..];
      var mid := CreateStep(fs, c, true, false);
      CreateStepCorrect(fs, at, rest[0], true, false);
      assert c + rest' == at + rest;
      if |rest| == 1 {
        assert c == at + rest;
      } else {
        assert mid == CreateStep(fs, c, true, false);
        assert at + rest in mid.tree ==> at + rest in fs.tree by {
          assert |at + rest| > |c|;
        }
        TrailingIrrelevant(mid, c, rest');
      }
    }
  }

  // ---------------------------------------------------------------- removal

  /** `m` without `e` and everything below it. */
  function Without<T>(m: map<Position, T>, e: Position): map<Position, T> {
    map c | c in m && !Above(e, c) :: m[c]
  }

  function Remove(fs: Fs, path: string): (Fs, bool) {
    if path == "" || path == "/" || EntryOf(path) !in fs.tree then (fs, false)
    else (fs.(tree := Without(fs.tree, EntryOf(path))), true)
  }

  lemma {:induction false} WithoutWellFormed(fs: Fs, e: Position)
    requires WellFormed(fs) && e != []
    ensures WellFormed(fs.(tree := Without(fs.tree, e)))
    ensures ViewOf(fs.(tree := Without(fs.tree, e))) == Without(ViewOf(fs), e)
  {
    var t' := Without(fs.tree, e);
    assert !Above(e, []);
    forall c, d | c in t' && Above(d, c)
      ensures d in t'
    {
      assert Above(e, d) ==> Above(e, c);
    }
  }

  lemma {:induction false} RemoveCorrect(fs: Fs, path: string)
    requires WellFormed(fs)
    ensures var (r, ok) := Remove(fs, path);
            && WellFormed(r)
            && r.files == fs.files
            && (ok <==> path != "" && path != "/" && EntryOf(path) in fs.tree)
            && ViewOf(r) == if ok then Without(ViewOf(fs), EntryOf(path)) else ViewOf(fs)
  {
    WithoutWellFormed(fs, EntryOf(path));
  }

  /** Removal position by position. */
  lemma {:induction false} RemoveExactly(fs: Fs, path: string, d: Position)
    requires WellFormed(fs)
    ensures var ((r, ok), e) := (Remove(fs, path), Components(GetDirName(path)) + [GetFileName(path)]);
            && (ok <==> path != "" && path != "/" && e in fs.tree)
            && (d in r.tree <==> d in fs.tree && !(ok && e <= d))
            && (d in r.tree ==> r.tree[d] == fs.tree[d])
            && r.files == fs.files
  {
    hide Components, GetDirName, GetFileName;
  }

  lemma {:induction false} TrailingSeparatorNames()
    ensures Components("/a") == ["a"] && Components("/a/") == ["a"] && EntryOf("/a/") == ["a", ""]
  {
    hide Split, GetDirName, GetFileName;
    assert "/a/" == "/a" + "/" + "" && "/a" == "" + "/" + "a";
    SplitName("");
    SplitName("a");
    ComponentsAround("", "a");
    ComponentsAround("/a", "");
    DirAndFileNameOf("/a", "");
  }

  /** Lookup finds what removal does not: after `mkdir("/a")`, `exists("/a/")` is true and
      `remove("/a/")` is false. */
  lemma {:induction false} TrailingSeparatorExample()
    ensures var fs := CreatePath(EMPTY_FS, "/a", true);
            && WellFormed(fs) && Components("/a/") in fs.tree
            && EntryOf("/a/") != Components("/a/") && Remove(fs, "/a/") == (fs, false)
  {
    hide CreatePath, Components, EntryOf, TrailingSeparator;
    TrailingSeparatorNames();
    CreatePathCorrect(EMPTY_FS, "/a", true);
    assert !Above(["a", ""], ["a"]);
  }

  // ---------------------------------------------------------------- renaming

  /** The position below `to` that corresponds to `c` below `from`. */
  function Rebase(c: Position, from: Position, to: Position): (r: Position)
    requires Above(from, c)
    ensures Above(to, r)
    ensures from + r[|to|..] == c
  {
    assert from + c[|from|..] == c;
    assert (to + c[|from|..])[|to|..] == c[|from|..];
    to + c[|from|..]
  }

  /** `m` with the subtree at `from` hung at `to`, in place of whatever was there. */
  function Moved<T>(m: map<Position, T>, from: Position, to: Position): map<Position, T> {
    Without(Without(m, from), to)
    + map k | k in (set c | c in m && Above(from, c) :: Rebase(c, from, to)) :: m[Rebase(k, to, from)]
  }

  lemma {:induction false} MovedLookup<T>(m: map<Position, T>, from: Position, to: Position, k: Position)
    ensures k in Moved(m, from, to) <==>
            if Above(to, k) then Rebase(k, to, from) in m else k in m && !Above(from, k)
    ensures k in Moved(m, from, to) ==>
            Moved(m, from, to)[k] == m[if Above(to, k) then Rebase(k, to, from) else k]
  {
    if Above(to, k) && Rebase(k, to, from) in m {
      assert k == Rebase(Rebase(k, to, from), from, to);
    }
  }

  function ParentPath(path: string): string {
    if GetDirName(path) == "" then "/" else GetDirName(path)
  }

  lemma {:induction false} ParentPathComponents(path: string)
    ensures Components(ParentPath(path)) == Parent(EntryOf(path))
  {
  }

  predicate CanRename(fs: Fs, from: string) {
    Components(from) in fs.tree && EntryOf(from) in fs.tree
  }

  /** `rename` does not guard against a move below itself: the links would then form
      a cycle and the recursive path rewrite would not return. */
  predicate MovesIntoItself(fs: Fs, from: string, to: string) {
    && CanRename(fs, from)
    && Above(EntryOf(from), EntryOf(to))
    && EntryOf(from) != EntryOf(to)
  }

  function Rename(fs: Fs, from: string, to: string): (Fs, bool) {
    if !CanRename(fs, from) then (fs, false)
    else
      var mid := CreatePath(fs, ParentPath(to), true);
      (mid.(tree := Moved(mid.tree, EntryOf(from), EntryOf(to))), true)
  }

  ghost predicate Movable<T>(m: map<Position, T>, from: Position, to: Position) {
    && PrefixClosed(m)
    && from != [] && to != [] && from in m && Parent(to) in m
    && (Above(from, to) ==> from == to)
  }

  lemma {:induction false} MovedPrefixClosed<T>(m: map<Position, T>, from: Position, to: Position)
    requires Movable(m, from, to)
    ensures PrefixClosed(Moved(m, from, to))
  {
    var m' := Moved(m, from, to);
    forall c, d | c in m' && Above(d, c)
      ensures d in m'
    {
      MovedLookup(m, from, to, c);
      MovedLookup(m, from, to, d);
      if Above(to, d) {
        assert Above(Rebase(d, to, from), Rebase(c, to, from));
      } else if Above(to, c) {
        assert Above(d, Parent(to));
        if Above(from, d) {
          assert Above(from, to);
        }
      } else {
        assert Above(from, d) ==> Above(from, c);
      }
    }
  }

  lemma {:induction false} MovedOneParentEach(tree: Tree, from: Position, to: Position)
    requires OneParentEach(tree)
    ensures OneParentEach(Moved(tree, from, to))
  {
    var t' := Moved(tree, from, to);
    forall c, d | c in t' && d in t' && t'[c] == t'[d]
      ensures c == d
    {
      MovedLookup(tree, from, to, c);
      MovedLookup(tree, from, to, d);
      if Above(to, c) && Above(to, d) {
        assert c == Rebase(Rebase(c, to, from), from, to);
      }
    }
  }

  lemma {:induction false} RebaseSlashFree(c: Position, from: Position, to: Position)
    requires Above(to, c) && SlashFree(to) && SlashFree(Rebase(c, to, from))
    ensures SlashFree(c)
  {
    forall i | |to| <= i < |c|
      ensures '/' !in c[i]
    {
      assert c[i] == Rebase(c, to, from)[i - |to| + |from|];
    }
  }

  lemma {:induction false} MovedWellFormed(fs: Fs, from: Position, to: Position)
    requires WellFormed(fs) && SlashFree(to) && Movable(fs.tree, from, to)
    ensures WellFormed(fs.(tree := Moved(fs.tree, from, to)))
  {
    var t' := Moved(fs.tree, from, to);
    MovedLookup(fs.tree, from, to, []);
    MovedPrefixClosed(fs.tree, from, to);
    MovedOneParentEach(fs.tree, from, to);
    forall c | c in t'
      ensures t'[c] < |fs.files| && SlashFree(c)
    {
      MovedLookup(fs.tree, from, to, c);
      if Above(to, c) {
        RebaseSlashFree(c, from, to);
      }
    }
  }

  /** The plain map once the parent of a rename target exists. */
  function WithTargetParent(v: View, to: string): View {
    WithAncestors(v, Parent(EntryOf(to)), true, Marks(ParentPath(to), true))
  }

  /** Rename on the plain map: the subtree at `from`'s entry reappears at `to`'s entry,
      after the missing ancestors of `to` were made. */
  lemma {:induction false} RenameCorrect(fs: Fs, from: string, to: string)
    requires WellFormed(fs) && !MovesIntoItself(fs, from, to)
    ensures var (r, ok) := Rename(fs, from, to);
            && WellFormed(r)
            && (ok <==> Components(from) in fs.tree && EntryOf(from) in fs.tree)
            && (!ok ==> r == fs)
            && (ok ==> ViewOf(r) == Moved(WithTargetParent(ViewOf(fs), to), EntryOf(from), EntryOf(to)))
  {
    if CanRename(fs, from) {
      var f, t := EntryOf(from), EntryOf(to);
      var mid := CreatePath(fs, ParentPath(to), true);
      CreatePathCorrect(fs, ParentPath(to), true);
      CreatePathOnView(fs, ParentPath(to), true);
      ComponentsSlashFree(to);
      ParentPathComponents(to);
      MovedWellFormed(mid, f, t);
      MovedOnView(mid, f, t);
    }
  }

  lemma {:induction false} MovedOnView(fs: Fs, from: Position, to: Position)
    requires WellFormed(fs) && WellFormed(fs.(tree := Moved(fs.tree, from, to)))
    ensures ViewOf(fs.(tree := Moved(fs.tree, from, to))) == Moved(ViewOf(fs), from, to)
  {
    var fs' := fs.(tree := Moved(fs.tree, from, to));
    forall c
      ensures c in fs'.tree <==> c in Moved(ViewOf(fs), from, to)
      ensures c in fs'.tree ==> fs'.files[fs'.tree[c]] == Moved(ViewOf(fs), from, to)[c]
    {
      MovedOnViewAt(fs, from, to, c);
    }
    ViewIs(fs', Moved(ViewOf(fs), from, to));
  }

  lemma {:induction false} ViewIs(fs: Fs, v: View)
    requires WellFormed(fs)
    requires forall c :: c in fs.tree <==> c in v
    requires forall c :: c in fs.tree ==> fs.files[fs.tree[c]] == v[c]
    ensures ViewOf(fs) == v
  {
  }

  lemma {:induction false} MovedOnViewAt(fs: Fs, from: Position, to: Position, c: Position)
    requires WellFormed(fs) && WellFormed(fs.(tree := Moved(fs.tree, from, to)))
    ensures var t' := Moved(fs.tree, from, to);
            var m := Moved(ViewOf(fs), from, to);
            && (c in t' <==> c in m)
            && (c in t' ==> fs.files[t'[c]] == m[c])
  {
    var v := ViewOf(fs);
    MovedLookup(fs.tree, from, to, c);
    MovedLookup(v, from, to, c);
    var c' := if Above(to, c) then Rebase(c, to, from) else c;
    assert c' in v <==> c' in fs.tree;
  }

  lemma {:induction false} TargetParentOutsideSource(from: Position, to: Position, s: Position)
    requires to != [] && (Above(from, to) ==> from == to)
    ensures !Above(from + s, Parent(to))
  {
    assert Above(from, from + s);
  }

  lemma {:induction false} RebaseSuffix(from: Position, to: Position, s: Position)
    ensures Above(from, from + s) && Rebase(from + s, from, to) == to + s
  {
    assert (from + s)[|from|..] == s;
  }

  /** Every descendant of the moved entry is found, as the same file with the same
      contents, at the corresponding place under the target, and nothing else is there. */
  lemma {:induction false} RenameRelocates(fs: Fs, from: string, to: string, s: Position)
    requires WellFormed(fs) && !MovesIntoItself(fs, from, to) && CanRename(fs, from)
    ensures WellFormed(Rename(fs, from, to).0)
    ensures var (f, t, r) := (EntryOf(from), EntryOf(to), Rename(fs, from, to).0);
            && (t + s in r.tree <==> f + s in fs.tree)
            && (t + s in r.tree ==>
                  && r.tree[t + s] == fs.tree[f + s]
                  && r.files[r.tree[t + s]] == fs.files[fs.tree[f + s]])
  {
    var f, t := EntryOf(from), EntryOf(to);
    var mid := CreatePath(fs, ParentPath(to), true);
    CreatePathCorrect(fs, ParentPath(to), true);
    ParentPathComponents(to);
    RenameCorrect(fs, from, to);
    var source, target := f + s, t + s;
    MovedLookup(mid.tree, f, t, target);
    RebaseSuffix(t, f, s);
    TargetParentOutsideSource(f, t, s);
    assert source in mid.tree <==> source in fs.tree;
    if source in fs.tree {
      CreatedAt(fs, mid, Parent(t), true, Marks(ParentPath(to), true), source);
    }
  }

  /** Positions under neither entry keep their file and its bytes; new ones are exactly
      the missing ancestors of the target; what is under the source only is gone. */
  lemma {:induction false} RenameKeepsTheRest(fs: Fs, from: string, to: string, c: Position)
    requires WellFormed(fs) && !MovesIntoItself(fs, from, to) && CanRename(fs, from)
    requires !Above(EntryOf(to), c)
    ensures WellFormed(Rename(fs, from, to).0)
    ensures var (f, t, r) := (EntryOf(from), EntryOf(to), Rename(fs, from, to).0);
            && (c in r.tree <==> !Above(f, c) && (c in fs.tree || Above(c, t)))
            && (c in r.tree && c in fs.tree ==>
                  && r.tree[c] == fs.tree[c]
                  && r.files[r.tree[c]].data == fs.files[fs.tree[c]].data
                  && (r.files[r.tree[c]].isDirectory <==>
                        fs.files[fs.tree[c]].isDirectory || (c == Parent(t) && Marks(ParentPath(to), true))))
            && (c in r.tree && c !in fs.tree ==> r.files[r.tree[c]] == FileState(true, []))
  {
    RenameCorrect(fs, from, to);
    CreatePathCorrect(fs, ParentPath(to), true);
    ParentPathComponents(to);
    hide CreatePath, EntryOf, Components, ParentPath, Marks, WellFormed, MovesIntoItself, Moved, TrailingSeparator, ViewOf,
         WithTargetParent, WithAncestors, Rebase;
    var f, t := EntryOf(from), EntryOf(to);
    var mid := CreatePath(fs, ParentPath(to), true);
    assert c in mid.tree <==> c in fs.tree || Above(c, Parent(t));
    if c in mid.tree {
      CreatedAt(fs, mid, Parent(t), true, Marks(ParentPath(to), true), c);
    }
    MovedLookup(mid.tree, f, t, c);
    assert Above(c, Parent(t)) <==> Above(c, t) && c != t;
  }

  // ---------------------------------------------------------------- opening

  /** `open`: the resulting state and the identity of the opened file, if any. */
  function Open(fs: Fs, path: string, mode: OpenMode): (Fs, Option<nat>)
    requires WellFormed(fs)
  {
    CreatePathCorrect(fs, path, false);
    var c := Components(path);
    if c !in fs.tree && mode == Read then (fs, None)
    else
      var r := if c in fs.tree then fs else CreatePath(fs, path, false);
      (r, if r.files[r.tree[c]].isDirectory then None else Some(r.tree[c]))
  }

  /** A handle is obtained exactly for a file; a missing path is created only when
      opened for writing, and is then a directory if it ends with a separator. */
  lemma {:induction false} OpenCorrect(fs: Fs, path: string, mode: OpenMode)
    requires WellFormed(fs)
    ensures var (r, id) := Open(fs, path, mode);
            var c := Components(path);
            && WellFormed(r)
            && ViewOf(r) == (if c in fs.tree || mode == Read then ViewOf(fs)
                             else WithAncestors(ViewOf(fs), c, TrailingSeparator(path), false))
            && (id.Some? <==> if c in fs.tree then !fs.files[fs.tree[c]].isDirectory
                              else mode != Read && !TrailingSeparator(path))
            && (id.Some? ==> c in r.tree && r.tree[c] == id.value && !r.files[id.value].isDirectory)
  {
    CreatePathCorrect(fs, path, false);
    CreatePathOnView(fs, path, false);
  }

  // ------------------------------------------------------ reading and writing

  /** The bytes a read of at most `count` bytes at `position` delivers. */
  function Slice(data: seq<byte>, position: nat, count: nat): seq<byte> {
    if position >= |data| then [] else data[position..position + Min(count, |data| - position)]
  }

  /** How many bytes that is, and which. */
  lemma {:induction false} SliceAt(data: seq<byte>, position: nat, count: nat)
    ensures position < |data| && count <= |data| - position ==> |Slice(data, position, count)| == count
    ensures position < |data| && count > |data| - position ==> |Slice(data, position, count)| == |data| - position
    ensures position >= |data| ==> Slice(data, position, count) == []
    ensures forall k :: 0 <= k < |Slice(data, position, count)| ==>
              position + k < |data| && Slice(data, position, count)[k] == data[position + k]
  {
  }

  /** The bytes after writing `bytes` at `pos`: the file is first extended with zeros
      up to the end of the write, never shortened. */
  function Written(data: seq<byte>, pos: nat, bytes: seq<byte>): seq<byte> {
    var need := pos + |bytes|;
    var room := if |data| < need then data + seq(need - |data|, _ => 0 as byte) else data;
    room[..pos] + bytes + room[need..]
  }

  /** Inside the file a write replaces exactly the bytes from `pos` on, and appends the rest. */
  lemma {:induction false} WrittenAt(data: seq<byte>, pos: nat, bytes: seq<byte>, k: nat)
    requires pos <= |data|
    ensures |Written(data, pos, bytes)| == if |data| < pos + |bytes| then pos + |bytes| else |data|
    ensures k < |Written(data, pos, bytes)| ==>
            Written(data, pos, bytes)[k] == if pos <= k < pos + |bytes| then bytes[k - pos] else data[k]
  {
  }
}
