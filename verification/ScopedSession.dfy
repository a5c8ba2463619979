/**
 A client that holds a scope and the files it opened through it, over the real objects.
 Each run is proved to reply and end as the runs of `ScopeIsolation` do, and so to leave
 alone what the scope does not reach.
 */
module ScopedSession {
  import opened Bytes
  import opened Positions
  import opened TreeModel
  import opened Runs
  import opened MemoryFileAdapter
  import opened Session
  import opened ScopePaths
  import opened ScopeIsolation
  import opened ScopedFileSystem

  ghost function InnerFiles(files: seq<ScopedFile>): (r: seq<MemoryFile>)
    ensures |r| == |files|
    ensures forall h :: 0 <= h < |files| ==> r[h] == files[h].inner
  {
    seq(|files|, h requires 0 <= h < |files| => files[h].inner)
  }

  class ScopedSession {
    const scope: ScopedFileSystem
    const fs: MemoryFileSystem
    var files: seq<ScopedFile>
    ghost var ids: seq<nat>

    ghost predicate Bound()
      reads this, fs`all
    {
      && scope.inner == fs
      && |ids| == |files|
      && (forall h :: 0 <= h < |files| ==> ids[h] < |fs.all| && files[h].inner.node == fs.all[ids[h]])
      && (forall g, h :: 0 <= g < h < |files| ==> files[g].inner != files[h].inner)
    }

    ghost function Abs(): World
      requires Bound()
      reads this, fs, fs.all, InnerFiles(files)`position
    {
      World(fs.State(), HandleStates(InnerFiles(files), ids))
    }

    ghost predicate Valid()
      reads this, fs, fs.all, InnerFiles(files)`position
    {
      fs.Valid() && Bound() && Runs.Consistent(Abs())
    }

    /** From `w` the command led here and replied `r`. */
    ghost predicate Acted(w: World, c: Command, r: Reply)
      requires Bound() && Runs.Consistent(w)
      reads this, fs, fs.all, InnerFiles(files)`position
    {
      && ScopedLegal(scope.rootPath, w, c)
      && Abs() == ScopedNext(scope.rootPath, w, c)
      && r == ScopedReply(scope.rootPath, w, c)
    }

    /** The states of the handles after one of them moved alone. */
    twostate lemma {:induction false} OneFileMoved(h: nat)
      requires old(Bound()) && files == old(files) && ids == old(ids) && h < |files|
      requires forall k :: 0 <= k < |files| && k != h ==> files[k].inner.position == old(files[k].inner.position)
      ensures HandleStates(InnerFiles(files), ids)
           == old(HandleStates(InnerFiles(files), ids))[h := Handle(ids[h], files[h].inner.position, files[h].inner.mode)]
    {
      hide HandleStates;
    }

    /** A handle shows the state machine's bytes. */
    lemma {:induction false} FileIs(h: nat)
      requires Valid() && h < |files|
      ensures h < |Abs().handles| && Abs().handles[h] == Handle(ids[h], files[h].inner.position, files[h].inner.mode)
      ensures ids[h] < |Abs().fs.files| && DataOf(Abs(), h) == files[h].inner.node.data
      ensures Abs().fs == fs.State() && Abs().fs.tree == fs.tree && Abs().handles == HandleStates(InnerFiles(files), ids)
    {
      hide MemoryFileSystem.State, MemoryFileSystem.Placed, WellFormed, HandleStates, Runs.Consistent;
      fs.StateIsWellFormed();
    }

    constructor (rootPath: string, fs: MemoryFileSystem)
      requires fs.Valid()
      ensures Valid() && this.fs == fs && scope.rootPath == rootPath && Abs() == World(fs.State(), [])
      ensures HandlesInside(rootPath, Abs())
    {
      hide MemoryFileSystem.State, MemoryFileSystem.Placed, WellFormed, Reached;
      this.fs := fs;
      var s := new ScopedFileSystem(rootPath, fs);
      scope, files, ids := s, [], [];
      new;
      fs.StateIsWellFormed();
    }

    method Mkdir(path: string) returns (r: Reply)
      requires Valid()
      modifies fs, fs.all
      ensures Valid() && fs.Grown()
      ensures Acted(old(Abs()), Command.Mkdir(path), r)
    {
      hide MemoryFileSystem.State, MemoryFileSystem.Placed, WellFormed, CreatePath, HandleStates, ScopePath, Runs.Consistent;
      ghost var w' := ScopedNext(scope.rootPath, Abs(), Command.Mkdir(path));
      var ok := scope.Mkdir(path);
      r := Done(ok);
      assert Abs() == w';
    }

    method Remove(path: string) returns (r: Reply)
      requires Valid()
      modifies fs, fs.all
      ensures Valid() && fs.Grown()
      ensures Acted(old(Abs()), RemovePath(path), r)
    {
      hide MemoryFileSystem.State, MemoryFileSystem.Placed, WellFormed, TreeModel.Remove, HandleStates, ScopePath, Runs.Consistent;
      ghost var w' := ScopedNext(scope.rootPath, Abs(), RemovePath(path));
      var ok := scope.Remove(path);
      r := Done(ok);
      assert Abs() == w';
    }

    method Rename(from: string, to: string) returns (r: Reply)
      requires Valid() && ScopedLegal(scope.rootPath, Abs(), RenamePath(from, to))
      modifies fs, fs.all
      ensures Valid() && fs.Grown()
      ensures Acted(old(Abs()), RenamePath(from, to), r)
    {
      hide MemoryFileSystem.State, MemoryFileSystem.Placed, WellFormed, TreeModel.Rename, HandleStates, ScopePath, Runs.Consistent,
           MovesIntoItself;
      ghost var w' := ScopedNext(scope.rootPath, Abs(), RenamePath(from, to));
      var ok := scope.Rename(from, to);
      r := Done(ok);
      assert Abs() == w';
    }

    method Open(path: string, mode: OpenMode) returns (r: Reply)
      requires Valid()
      modifies this`files, this`ids, fs, fs.all
      ensures Valid() && fs.Grown() && old(files) <= files
      ensures forall h :: |old(files)| <= h < |files| ==> fresh(files[h].inner)
      ensures Acted(old(Abs()), OpenFile(path, mode), r)
    {
      hide MemoryFileSystem.State, MemoryFileSystem.Placed, WellFormed, TreeModel.Open, Components, HandleStates, ScopePath,
           Runs.Consistent, Step, ExposePath, StripLeading, MemoryFileSystem.Valid, PathOf;
      ghost var w' := ScopedNext(scope.rootPath, Abs(), OpenFile(path, mode));
      OpenSteps(Abs(), ScopePath(scope.rootPath, path), mode);
      ghost var id := TreeModel.Open(fs.State(), ScopePath(scope.rootPath, path), mode).1;
      ghost var states := HandleStates(InnerFiles(files), ids);
      var file := scope.Open(path, mode);
      if file == null {
        r := Opened(None);
        assert Bound() && Abs() == w';
      } else {
        r := Opened(Some(|files|));
        files, ids := files + [file], ids + [id.value];
        assert HandleStates(InnerFiles(files), ids) == states + [Handle(id.value, 0, mode)];
        assert Bound();
        assert Abs() == w';
      }
    }

    method Read(h: nat, count: nat) returns (r: Reply)
      requires Valid() && h < |files|
      modifies InnerFiles(files)`position
      ensures Valid()
      ensures Acted(old(Abs()), ReadFrom(h, count), r)
    {
      hide MemoryFileSystem.State, MemoryFileSystem.Placed, MemoryFileSystem.Valid, WellFormed, Slice, HandleStates, Runs.Consistent,
           Step, DataOf;
      ghost var w' := ScopedNext(scope.rootPath, Abs(), ReadFrom(h, count));
      FileIs(h);
      ReadSteps(Abs(), h, count);
      var buffer := new byte[count];
      var n := files[h].Read(buffer);
      r := Delivered(buffer[..n]);
      OneFileMoved(h);
      assert Abs() == w';
    }

    method Peek(h: nat, count: nat) returns (r: Reply)
      requires Valid() && h < |files|
      ensures Acted(old(Abs()), PeekAt(h, count), r)
    {
      hide MemoryFileSystem.State, MemoryFileSystem.Placed, WellFormed, Slice, HandleStates, Runs.Consistent, Step, DataOf;
      FileIs(h);
      ReadSteps(Abs(), h, count);
      var buffer := new byte[count];
      var n := files[h].Peek(buffer);
      r := Delivered(buffer[..n]);
    }

    method Write(h: nat, bytes: seq<byte>) returns (r: Reply)
      requires Valid() && h < |files|
      modifies InnerFiles(files)`position, fs.all`data
      ensures Valid()
      ensures Acted(old(Abs()), WriteTo(h, bytes), r)
    {
      hide MemoryFileSystem.State, MemoryFileSystem.Placed, WellFormed, Written, HandleStates, Runs.Consistent, Step, DataOf;
      ghost var w' := ScopedNext(scope.rootPath, Abs(), WriteTo(h, bytes));
      FileIs(h);
      WriteSteps(Abs(), h, bytes);
      var n := files[h].Write(bytes);
      fs.NodeWritten(ids[h]);
      r := Accepted(n);
      OneFileMoved(h);
      assert Abs() == w';
    }

    method Close(h: nat) returns (r: Reply)
      requires Valid() && h < |files|
      modifies InnerFiles(files)`closed
      ensures Valid()
      ensures Acted(old(Abs()), CloseHandle(h), r)
    {
      hide MemoryFileSystem.State, MemoryFileSystem.Placed, WellFormed, HandleStates, Runs.Consistent;
      files[h].Close();
      r := Done(true);
    }

    method Execute(c: Command) returns (r: Reply)
      requires Valid() && ScopedLegal(scope.rootPath, Abs(), c)
      modifies this`files, this`ids, fs, fs.all, InnerFiles(files)
      ensures Valid()
      ensures forall i :: 0 <= i < |fs.all| ==> fresh(fs.all[i]) || fs.all[i] in old(fs.all)
      ensures forall h :: 0 <= h < |files| ==> fresh(files[h].inner) || files[h].inner in old(InnerFiles(files))
      ensures Acted(old(Abs()), c, r)
    {
      hide MemoryFileSystem.State, MemoryFileSystem.Placed, WellFormed, HandleStates, Runs.Consistent, Acted, MovesIntoItself, ScopePath;
      match c {
        case Mkdir(path) => r := Mkdir(path);
        case OpenFile(path, mode) => r := Open(path, mode);
        case RemovePath(path) => r := Remove(path);
        case RenamePath(from, to) => r := Rename(from, to);
        case ReadFrom(h, count) => r := Read(h, count);
        case PeekAt(h, count) => r := Peek(h, count);
        case WriteTo(h, bytes) => r := Write(h, bytes);
        case CloseHandle(h) => r := Close(h);
      }
    }

    /** Any run through the scope replies and ends as the scoped run of the state machine
        does; started without handles outside, it leaves alone what the scope does not
        reach. */
    method ExecuteAll(run: seq<Command>) returns (replies: seq<Reply>)
      requires Valid() && ScopedLegalRun(scope.rootPath, Abs(), run)
      modifies this`files, this`ids, fs, fs.all, InnerFiles(files)
      ensures Valid()
      ensures Abs() == ScopedRun(scope.rootPath, old(Abs()), run)
      ensures replies == ScopedReplies(scope.rootPath, old(Abs()), run)
      ensures HandlesInside(scope.rootPath, old(Abs())) ==>
        forall p :: !Reached(scope.rootPath, p) ==> KeptOutside(old(Abs()), Abs(), Components(scope.rootPath), p)
      decreases |run|
    {
      hide MemoryFileSystem.State, MemoryFileSystem.Placed, WellFormed, HandleStates, Runs.Consistent, ScopedLegal, ScopedNext,
           ScopedReply, HandlesInside, Reached, KeptOutside, Components;
      if run == [] {
        replies := [];
      } else {
        var first := Execute(run[0]);
        var rest := ExecuteAll(run[1..]);
        replies := [first] + rest;
      }
      if HandlesInside(scope.rootPath, old(Abs())) {
        forall p | !Reached(scope.rootPath, p)
          ensures KeptOutside(old(Abs()), Abs(), Components(scope.rootPath), p)
        {
          ScopedRunIsolates(scope.rootPath, old(Abs()), run, p);
        }
      }
    }
  }
}
