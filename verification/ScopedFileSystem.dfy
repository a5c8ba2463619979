/**
 The scoped view as an object over an in-memory file system: it translates every path,
 delegates, and translates back what it shows.
 */
module ScopedFileSystem {
  import opened Availability
  import opened Bytes
  import opened PathUtility
  import opened Positions
  import opened TreeModel
  import opened MemoryFileAdapter
  import opened Listing
  import opened DirectoryWalk
  import opened ScopePaths

  /** A handle as the scope shows it: everything but the path is the inner handle's. */
  class ScopedFile {
    const inner: MemoryFile
    const exposedPath: string

    constructor (inner: MemoryFile, exposedPath: string)
      ensures this.inner == inner && this.exposedPath == exposedPath
    {
      this.inner := inner;
      this.exposedPath := exposedPath;
    }

    method Close()
      modifies inner`closed
      ensures inner.closed
    {
      inner.Close();
    }

    method Size() returns (size: nat)
      ensures size == |inner.node.data|
    {
      size := inner.Size();
    }

    method Available() returns (a: ByteAvailability)
      ensures a == if inner.position >= |inner.node.data| then EXHAUSTED_RESULT else Count(|inner.node.data| - inner.position)
    {
      a := inner.Available();
    }

    method Peek(buffer: array<byte>) returns (n: nat)
      modifies buffer
      ensures n == if inner.position < |inner.node.data| then Min(buffer.Length, |inner.node.data| - inner.position) else 0
      ensures forall k :: 0 <= k < n ==> buffer[k] == inner.node.data[inner.position + k]
      ensures n == |Slice(inner.node.data, inner.position, buffer.Length)| <= buffer.Length
      ensures buffer[..n] == Slice(inner.node.data, inner.position, buffer.Length)
      ensures buffer[n..] == old(buffer[n..])
    {
      n := inner.Peek(buffer);
    }

    method Read(buffer: array<byte>) returns (n: nat)
      modifies inner`position, buffer
      ensures n == if old(inner.position) < |inner.node.data| then Min(buffer.Length, |inner.node.data| - old(inner.position)) else 0
      ensures forall k :: 0 <= k < n ==> buffer[k] == inner.node.data[old(inner.position) + k]
      ensures n == |Slice(inner.node.data, old(inner.position), buffer.Length)| <= buffer.Length
      ensures buffer[..n] == Slice(inner.node.data, old(inner.position), buffer.Length)
      ensures buffer[n..] == old(buffer[n..])
      ensures inner.position == old(inner.position) + n
    {
      n := inner.Read(buffer);
    }

    method Write(bytes: seq<byte>) returns (n: nat)
      modifies inner`position, inner.node`data
      ensures n == if inner.mode == OpenMode.Read then 0 else |bytes|
      ensures inner.position == old(inner.position) + n
      ensures inner.node.data == if inner.mode == OpenMode.Read then old(inner.node.data)
                                 else Written(old(inner.node.data), old(inner.position), bytes)
    {
      n := inner.Write(bytes);
    }
  }

  /** An entry as the scope shows it. */
  function ExposeEntry(root: string, e: DirectoryEntry): DirectoryEntry {
    var path := ExposePath(root, e.path);
    DirectoryEntry(if path == "/" then path else GetFileName(path), path, e.isDirectory)
  }

  function ExposeAll(root: string, es: seq<DirectoryEntry>): (r: seq<DirectoryEntry>)
    ensures |r| == |es|
    ensures forall i :: 0 <= i < |es| ==> r[i] == ExposeEntry(root, es[i])
  {
    if es == [] then [] else [ExposeEntry(root, es[0])] + ExposeAll(root, es[1..])
  }

  /** Translating inside the callback is translating the list. */
  lemma {:induction false} DeliverExposed(root: string, entries: seq<DirectoryEntry>, heard: seq<DirectoryEntry>,
                                          accept: seq<DirectoryEntry> -> bool)
    ensures var (inner, ok) := Deliver(entries, heard, (h: seq<DirectoryEntry>) => accept(ExposeAll(root, h)));
            Deliver(ExposeAll(root, entries), ExposeAll(root, heard), accept) == (ExposeAll(root, inner), ok)
    decreases |entries|
  {
    if entries == [] {
    } else {
      var now := heard + [entries[0]];
      assert ExposeAll(root, now) == ExposeAll(root, heard) + [ExposeEntry(root, entries[0])];
      assert ExposeAll(root, entries)[1..] == ExposeAll(root, entries[1..]);
      DeliverExposed(root, entries[1..], now, accept);
    }
  }

  /** Through a canonical scope the subtree below the root looks like a tree of its own. */
  lemma {:induction false} ExposedEntryIsLocal(fs: Fs, r: Position, s: Position)
    requires SlashFree(r) && NoEmptyName(r) && SlashFree(s) && NoEmptyName(s)
    ensures ExposeEntry(PathOf(r), EntryAt(fs, r + s))
         == DirectoryEntry(if s == [] then "/" else Leaf(s), PathOf(s), IsDir(fs, r + s))
  {
    CanonicalScopeIsSubtree(r, s);
    PathOfIsCanonical(s);
    if s != [] {
      DirAndFileOfPosition(s);
    }
  }

  class ScopedFileSystem {
    const rootPath: string
    const inner: MemoryFileSystem

    constructor (rootPath: string, inner: MemoryFileSystem)
      ensures this.rootPath == rootPath && this.inner == inner
    {
      this.rootPath := rootPath;
      this.inner := inner;
    }

    method Exists(path: string) returns (found: bool)
      requires inner.Valid()
      ensures found <==> path != "" && Components(rootPath) + Split(StripLeading(path)) in inner.State().tree
    {
      hide MemoryFileSystem.State, MemoryFileSystem.Placed, ScopePath, Components;
      if path == "" {
        return false;
      }
      ScopedComponents(rootPath, path);
      var p := ToInner(rootPath, path);
      found := inner.Exists(p);
    }

    method Mkdir(path: string) returns (ok: bool)
      requires inner.Valid()
      modifies inner`tree, inner`all, inner`kids, inner.all
      ensures inner.Valid() && inner.Grown()
      ensures ok <==> path != ""
      ensures inner.State() == if ok then CreatePath(old(inner.State()), ScopePath(rootPath, path), true) else old(inner.State())
    {
      hide MemoryFileSystem.State, MemoryFileSystem.Placed, ScopePath, CreatePath;
      if path == "" {
        return false;
      }
      var p := ToInner(rootPath, path);
      ok := inner.Mkdir(p);
    }

    method Open(path: string, mode: OpenMode) returns (file: ScopedFile?)
      requires inner.Valid()
      modifies inner`tree, inner`all, inner`kids, inner.all
      ensures inner.Valid() && inner.Grown() && WellFormed(old(inner.State()))
      ensures path == "" ==> file == null && inner.State() == old(inner.State())
      ensures path != "" ==>
        var (fs, id) := TreeModel.Open(old(inner.State()), ScopePath(rootPath, path), mode);
        && inner.State() == fs
        && (file == null <==> id == None)
        && (file != null ==>
              && fresh(file) && fresh(file.inner) && id.value < |inner.all| && file.inner.node == inner.all[id.value]
              && file.inner.position == 0 && file.inner.mode == mode && file.inner.path == ScopePath(rootPath, path)
              && (Components(ScopePath(rootPath, path)) != [] ==>
                    file.inner.name == Leaf(Components(ScopePath(rootPath, path))))
              && (rootPath != "" ==> file.exposedPath == "/" + StripLeading(path)))
    {
      hide MemoryFileSystem.State, MemoryFileSystem.Placed, WellFormed, TreeModel.Open, ScopePath, ExposePath, StripLeading, Components;
      inner.StateIsWellFormed();
      if path == "" {
        return null;
      }
      var p := ToInner(rootPath, path);
      var innerFile := inner.Open(p, mode);
      if innerFile == null {
        return null;
      }
      file := new ScopedFile(innerFile, ExposePath(rootPath, innerFile.path));
      if rootPath != "" {
        ExposeUndoesScope(rootPath, path);
      }
    }

    method Remove(path: string) returns (ok: bool)
      requires inner.Valid()
      modifies inner`tree, inner`all, inner`kids, inner.all
      ensures inner.Valid() && inner.Grown()
      ensures path == "" ==> !ok && inner.State() == old(inner.State())
      ensures path != "" ==> (inner.State(), ok) == TreeModel.Remove(old(inner.State()), ScopePath(rootPath, path))
    {
      hide MemoryFileSystem.State, MemoryFileSystem.Placed, ScopePath, TreeModel.Remove;
      if path == "" {
        return false;
      }
      var p := ToInner(rootPath, path);
      ok := inner.Remove(p);
    }

    method Rename(from: string, to: string) returns (ok: bool)
      requires inner.Valid()
      requires from != "" && to != "" ==> !MovesIntoItself(inner.State(), ScopePath(rootPath, from), ScopePath(rootPath, to))
      modifies inner`tree, inner`all, inner`kids, inner.all
      ensures inner.Valid() && inner.Grown()
      ensures from == "" || to == "" ==> !ok && inner.State() == old(inner.State())
      ensures from != "" && to != "" ==>
        (inner.State(), ok) == TreeModel.Rename(old(inner.State()), ScopePath(rootPath, from), ScopePath(rootPath, to))
    {
      hide MemoryFileSystem.State, MemoryFileSystem.Placed, WellFormed, TreeModel.Rename, ScopePath, MovesIntoItself;
      if from == "" || to == "" {
        return false;
      }
      var f := ToInner(rootPath, from);
      var t := ToInner(rootPath, to);
      ok := inner.Rename(f, t);
    }

    /** The callback hears the inner listing, entry by entry as the scope shows it. */
    method List(path: string, recursive: bool, accept: seq<DirectoryEntry> -> bool)
        returns (heard: seq<DirectoryEntry>, ok: bool)
      requires inner.Valid()
      ensures path == "" ==> heard == [] && !ok
      ensures path != "" ==>
        var c, fs := Components(ScopePath(rootPath, path)), inner.State();
        (heard, ok) == if c !in fs.tree then ([], false)
          else Deliver(ExposeAll(rootPath, if IsDir(fs, c) then Entries(fs, ListAll(fs, c, recursive)) else [EntryAt(fs, c)]), [], accept)
    {
      hide MemoryFileSystem.State, MemoryFileSystem.Placed, Entries, ListAll, EntryAt, IsDir, Deliver, ScopePath, Components;
      if path == "" {
        return [], false;
      }
      var p := ToInner(rootPath, path);
      var exposing := (h: seq<DirectoryEntry>) => accept(ExposeAll(rootPath, h));
      heard, ok := DirectoryWalk.List(inner, p, recursive, exposing);
      ghost var c, fs := Components(p), inner.State();
      if c in fs.tree {
        DeliverExposed(rootPath, if IsDir(fs, c) then Entries(fs, ListAll(fs, c, recursive)) else [EntryAt(fs, c)], [], accept);
      }
      heard := ExposeAll(rootPath, heard);
    }

    /** A scope within the scope skips this layer: it translates straight to the inner
        file system, to the same paths as through both layers. */
    method GetScoped(path: string) returns (scoped: ScopedFileSystem?)
      requires inner.Valid()
      ensures scoped != null <==> path != "" && Components(ScopePath(rootPath, path)) in inner.State().tree
      ensures scoped != null ==>
        && fresh(scoped) && scoped.inner == inner
        && forall p :: ScopePath(scoped.rootPath, p) == ScopePath(rootPath, ScopePath(path, p))
    {
      hide MemoryFileSystem.State, MemoryFileSystem.Placed, ScopePath, Components;
      if path == "" {
        return null;
      }
      var scopedRoot := ToInner(rootPath, path);
      var found := inner.Exists(scopedRoot);
      if !found {
        return null;
      }
      forall p
        ensures ScopePath(scopedRoot, p) == ScopePath(rootPath, ScopePath(path, p))
      {
        NestedScopesFlatten(rootPath, path, p);
      }
      scoped := new ScopedFileSystem(scopedRoot, inner);
    }
  }
}
