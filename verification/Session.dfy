/**
 A client driving the real objects: one file system and the handles it opened.
 Each command, and so each run, is proved to have the replies and the final state
 of the state machine in `Runs`.
 */
module Session {
  import opened Bytes
  import opened Positions
  import opened TreeModel
  import opened Runs
  import opened CanonicalNames
  import opened Listing
  import opened ChildlessFiles
  import opened MemoryFileAdapter

  ghost function HandleStates(files: seq<MemoryFile>, ids: seq<nat>): (r: seq<Handle>)
    requires |files| == |ids|
    reads files`position
    ensures |r| == |files|
    ensures forall h :: 0 <= h < |files| ==> r[h] == Handle(ids[h], files[h].position, files[h].mode)
  {
    if files == [] then []
    else
      var last := |files| - 1;
      HandleStates(files[..last], ids[..last]) + [Handle(ids[last], files[last].position, files[last].mode)]
  }

  class Session {
    const fs: MemoryFileSystem
    var handles: seq<MemoryFile>
    ghost var ids: seq<nat>

    ghost predicate Bound()
      reads this, fs`all, handles`position
    {
      && |ids| == |handles|
      && (forall h :: 0 <= h < |handles| ==> ids[h] < |fs.all| && handles[h].node == fs.all[ids[h]])
      && (forall g, h :: 0 <= g < h < |handles| ==> handles[g] != handles[h])
    }

    ghost function Abs(): World
      requires Bound()
      reads this, fs, fs.all, handles`position
    {
      World(fs.State(), HandleStates(handles, ids))
    }

    ghost predicate Valid()
      reads this, fs, fs.all, handles`position
    {
      fs.Valid() && Bound() && Runs.Consistent(Abs())
    }

    /** The states of the handles after one of them moved alone. */
    twostate lemma {:induction false} OneHandleMoved(h: nat)
      requires old(Bound()) && handles == old(handles) && ids == old(ids) && h < |handles|
      requires forall k :: 0 <= k < |handles| && k != h ==> handles[k].position == old(handles[k].position)
      ensures HandleStates(handles, ids) == old(HandleStates(handles, ids))[h := Handle(ids[h], handles[h].position, handles[h].mode)]
    {
      hide HandleStates;
    }

    /** A handle shows the state machine's bytes. */
    lemma {:induction false} HandleIs(h: nat)
      requires Valid() && h < |handles|
      ensures h < |Abs().handles| && Abs().handles[h] == Handle(ids[h], handles[h].position, handles[h].mode)
      ensures ids[h] < |Abs().fs.files| && DataOf(Abs(), h) == handles[h].node.data
      ensures Abs().fs == fs.State() && Abs().fs.tree == fs.tree && Abs().handles == HandleStates(handles, ids)
    {
      hide MemoryFileSystem.State, MemoryFileSystem.Placed, WellFormed, HandleStates, Runs.Consistent;
      fs.StateIsWellFormed();
    }

    constructor ()
      ensures Valid() && Abs() == World(EMPTY_FS, [])
      ensures fresh(fs) && fresh(fs.all)
    {
      hide MemoryFileSystem.State, MemoryFileSystem.Placed, WellFormed;
      fs := new MemoryFileSystem();
      handles, ids := [], [];
      new;
      fs.StateIsWellFormed();
    }

    method Mkdir(path: string) returns (r: Reply)
      requires Valid()
      modifies fs, fs.all
      ensures Valid() && fs.Grown()
      ensures (Abs(), r) == Step(old(Abs()), Command.Mkdir(path))
    {
      hide MemoryFileSystem.State, MemoryFileSystem.Placed, WellFormed, CreatePath, HandleStates, Runs.Consistent;
      NextIsConsistent(Abs(), Command.Mkdir(path));
      var ok := fs.Mkdir(path);
      r := Done(ok);
    }

    method Remove(path: string) returns (r: Reply)
      requires Valid()
      modifies fs, fs.all
      ensures Valid() && fs.Grown()
      ensures (Abs(), r) == Step(old(Abs()), RemovePath(path))
    {
      hide MemoryFileSystem.State, MemoryFileSystem.Placed, WellFormed, TreeModel.Remove, HandleStates, Runs.Consistent;
      NextIsConsistent(Abs(), RemovePath(path));
      var ok := fs.Remove(path);
      r := Done(ok);
    }

    method Rename(from: string, to: string) returns (r: Reply)
      requires Valid() && Legal(Abs(), RenamePath(from, to))
      modifies fs, fs.all
      ensures Valid() && fs.Grown()
      ensures (Abs(), r) == Step(old(Abs()), RenamePath(from, to))
    {
      hide MemoryFileSystem.State, MemoryFileSystem.Placed, WellFormed, TreeModel.Rename, HandleStates, Runs.Consistent,
           MovesIntoItself;
      NextIsConsistent(Abs(), RenamePath(from, to));
      var ok := fs.Rename(from, to);
      r := Done(ok);
    }

    method Open(path: string, mode: OpenMode) returns (r: Reply)
      requires Valid()
      modifies this`handles, this`ids, fs, fs.all
      ensures Valid() && fs.Grown() && old(handles) <= handles
      ensures forall h :: |old(handles)| <= h < |handles| ==> fresh(handles[h])
      ensures (Abs(), r) == Step(old(Abs()), OpenFile(path, mode))
    {
      hide MemoryFileSystem.State, MemoryFileSystem.Placed, WellFormed, TreeModel.Open, Components, HandleStates, Runs.Consistent,
           Step, PathOf;
      NextIsConsistent(Abs(), OpenFile(path, mode));
      OpenSteps(Abs(), path, mode);
      ghost var id := TreeModel.Open(fs.State(), path, mode).1;
      ghost var states := HandleStates(handles, ids);
      var file := fs.Open(path, mode);
      if file == null {
        r := Opened(None);
      } else {
        r := Opened(Some(|handles|));
        handles, ids := handles + [file], ids + [id.value];
        assert HandleStates(handles, ids) == states + [Handle(id.value, 0, mode)];
      }
    }

    method Read(h: nat, count: nat) returns (r: Reply)
      requires Valid() && h < |handles|
      modifies handles`position
      ensures Valid()
      ensures (Abs(), r) == Step(old(Abs()), ReadFrom(h, count))
    {
      hide MemoryFileSystem.State, MemoryFileSystem.Placed, WellFormed, Slice, HandleStates, Runs.Consistent, Step, DataOf;
      NextIsConsistent(Abs(), ReadFrom(h, count));
      HandleIs(h);
      ReadSteps(Abs(), h, count);
      var buffer := new byte[count];
      var n := handles[h].Read(buffer);
      r := Delivered(buffer[..n]);
      OneHandleMoved(h);
    }

    method Peek(h: nat, count: nat) returns (r: Reply)
      requires Valid() && h < |handles|
      ensures (Abs(), r) == Step(old(Abs()), PeekAt(h, count))
    {
      hide MemoryFileSystem.State, MemoryFileSystem.Placed, WellFormed, Slice, HandleStates, Runs.Consistent, Step, DataOf;
      HandleIs(h);
      ReadSteps(Abs(), h, count);
      var buffer := new byte[count];
      var n := handles[h].Peek(buffer);
      r := Delivered(buffer[..n]);
    }

    method Write(h: nat, bytes: seq<byte>) returns (r: Reply)
      requires Valid() && h < |handles|
      modifies handles`position, fs.all`data
      ensures Valid()
      ensures (Abs(), r) == Step(old(Abs()), WriteTo(h, bytes))
    {
      hide MemoryFileSystem.State, MemoryFileSystem.Placed, WellFormed, Written, HandleStates, Runs.Consistent, Step, DataOf;
      NextIsConsistent(Abs(), WriteTo(h, bytes));
      HandleIs(h);
      WriteSteps(Abs(), h, bytes);
      var n := handles[h].Write(bytes);
      fs.NodeWritten(ids[h]);
      r := Accepted(n);
      OneHandleMoved(h);
    }

    method Close(h: nat) returns (r: Reply)
      requires Valid() && h < |handles|
      modifies handles`closed
      ensures Valid()
      ensures (Abs(), r) == Step(old(Abs()), CloseHandle(h))
    {
      hide MemoryFileSystem.State, MemoryFileSystem.Placed, WellFormed, HandleStates, Runs.Consistent;
      handles[h].Close();
      r := Done(true);
    }

    method Execute(c: Command) returns (r: Reply)
      requires Valid() && Legal(Abs(), c)
      modifies this`handles, this`ids, fs, fs.all, handles
      ensures Valid()
      ensures forall i :: |old(fs.all)| <= i < |fs.all| ==> fresh(fs.all[i])
      ensures forall i :: 0 <= i < |fs.all| ==> fresh(fs.all[i]) || fs.all[i] in old(fs.all)
      ensures forall h :: 0 <= h < |handles| ==> fresh(handles[h]) || handles[h] in old(handles)
      ensures (Abs(), r) == Step(old(Abs()), c)
    {
      hide MemoryFileSystem.State, MemoryFileSystem.Placed, WellFormed, HandleStates, Runs.Consistent, Step, MovesIntoItself;
      match c {
        case Mkdir(path) => r := Mkdir(path);
        case OpenFile(path, mode) => r := Open(path, mode);
        case RemovePath(path) => r := Remove(path);
        case RenamePath(from, to) => r := Rename(from, to);
        case ReadFrom(h, count) => r := Read(h, count);
        case PeekAt(h, count) => r := Peek(h, count);
        case WriteTo(h, bytes) => r := Write(h, bytes);
        case CloseHandle(h) => r := Close(h);
      }
    }

    /** Any run on the real objects replies and ends as the state machine does. */
    method ExecuteAll(run: seq<Command>) returns (replies: seq<Reply>)
      requires Valid() && LegalRun(Abs(), run)
      modifies this`handles, this`ids, fs, fs.all, handles
      ensures Valid()
      ensures (Abs(), replies) == Run(old(Abs()), run)
      ensures AllNamed(old(Abs()).fs) && (forall k :: 0 <= k < |run| ==> CanonicalCommand(run[k])) ==>
        forall c :: c in fs.tree ==> fs.LeadsBack(c)
      ensures AllNamed(old(Abs()).fs) && OnlyDirectoriesHaveChildren(old(Abs()).fs)
              && (forall k :: 0 <= k < |run| ==> CanonicalCommand(run[k])) && RunMeetsNoFile(old(Abs()), run) ==>
        WellFormed(Abs().fs) && ShowsWhatExists(Abs().fs)
      decreases |run|
    {
      hide MemoryFileSystem.State, MemoryFileSystem.Placed, WellFormed, HandleStates, Runs.Consistent, Step, Legal, AllNamed,
           OnlyDirectoriesHaveChildren, RunMeetsNoFile, ShowsWhatExists, CanonicalCommand;
      if run == [] {
        replies := [];
      } else {
        var first := Execute(run[0]);
        var rest := ExecuteAll(run[1..]);
        replies := [first] + rest;
      }
      if AllNamed(old(Abs()).fs) && forall k :: 0 <= k < |run| ==> CanonicalCommand(run[k]) {
        CanonicalRunKeepsNames(old(Abs()), run);
        fs.AllLeadBackExactly();
        if OnlyDirectoriesHaveChildren(old(Abs()).fs) && RunMeetsNoFile(old(Abs()), run) {
          CanonicalRunShowsWhatExists(old(Abs()), run);
        }
      }
    }
  }

  lemma {:induction false} NextIsConsistent(w: World, c: Command)
    requires Runs.Consistent(w) && Legal(w, c)
    ensures Runs.Consistent(Step(w, c).0)
  {
    StepCorrect(w, c);
  }
}
