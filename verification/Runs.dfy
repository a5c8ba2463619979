/**
 A client of the in-memory file system: a sequence of path operations and of reads
 and writes through open handles, as a state machine over values.  A handle holds a
 file identity, never a path.
 */
module Runs {
  import opened Bytes
  import opened Positions
  import opened TreeModel

  datatype Handle = Handle(id: nat, position: nat, mode: OpenMode)
  datatype World = World(fs: Fs, handles: seq<Handle>)

  datatype Command =
    | Mkdir(path: string)
    | OpenFile(path: string, mode: OpenMode)
    | RemovePath(path: string)
    | RenamePath(from: string, to: string)
    | ReadFrom(handle: nat, count: nat)
    | PeekAt(handle: nat, count: nat)
    | WriteTo(handle: nat, bytes: seq<byte>)
    | CloseHandle(handle: nat)

  datatype Reply =
    | Done(ok: bool)
    | Opened(handle: Option<nat>)
    | Delivered(bytes: seq<byte>)
    | Accepted(count: nat)

  ghost predicate Consistent(w: World) {
    && WellFormed(w.fs)
    && forall h :: 0 <= h < |w.handles| ==> HandleInside(w, h)
  }

  /** The handle's file exists in the store and its position is within it. */
  ghost predicate HandleInside(w: World, h: nat)
    requires h < |w.handles|
  {
    && w.handles[h].id < |w.fs.files|
    && w.handles[h].position <= |w.fs.files[w.handles[h].id].data|
  }

  /** Commands name an open handle, and a rename does not move a node below itself. */
  predicate Legal(w: World, c: Command) {
    match c
    case RenamePath(from, to) => !MovesIntoItself(w.fs, from, to)
    case ReadFrom(h, _) => h < |w.handles|
    case PeekAt(h, _) => h < |w.handles|
    case WriteTo(h, _) => h < |w.handles|
    case CloseHandle(h) => h < |w.handles|
    case _ => true
  }

  function DataOf(w: World, h: nat): seq<byte>
    requires h < |w.handles| && w.handles[h].id < |w.fs.files|
  {
    w.fs.files[w.handles[h].id].data
  }

  function Step(w: World, c: Command): (World, Reply)
    requires Consistent(w) && Legal(w, c)
  {
    assert forall h :: 0 <= h < |w.handles| ==> HandleInside(w, h);
    match c
    case Mkdir(path) =>
      (w.(fs := CreatePath(w.fs, path, true)), Done(true))
    case OpenFile(path, mode) =>
      var (fs, id) := Open(w.fs, path, mode);
      if id == None then (w.(fs := fs), Opened(None))
      else (World(fs, w.handles + [Handle(id.value, 0, mode)]), Opened(Some(|w.handles|)))
    case RemovePath(path) =>
      var (fs, ok) := Remove(w.fs, path);
      (w.(fs := fs), Done(ok))
    case RenamePath(from, to) =>
      var (fs, ok) := Rename(w.fs, from, to);
      (w.(fs := fs), Done(ok))
    case ReadFrom(h, count) =>
      assert HandleInside(w, h);
      var bytes := Slice(DataOf(w, h), w.handles[h].position, count);
      (w.(handles := w.handles[h := w.handles[h].(position := w.handles[h].position + |bytes|)]), Delivered(bytes))
    case PeekAt(h, count) =>
      assert HandleInside(w, h);
      (w, Delivered(Slice(DataOf(w, h), w.handles[h].position, count)))
    case WriteTo(h, bytes) =>
      assert HandleInside(w, h);
      if w.handles[h].mode == Read then (w, Accepted(0))
      else
        var handle := w.handles[h];
        var file := w.fs.files[handle.id];
        var written := file.(data := Written(file.data, handle.position, bytes));
        (World(w.fs.(files := w.fs.files[handle.id := written]),
               w.handles[h := handle.(position := handle.position + |bytes|)]), Accepted(|bytes|))
    case CloseHandle(h) => (w, Done(true))
  }

  /** Everything the invariants say about one step. */
  ghost predicate StepKeeps(w: World, c: Command, w': World) {
    && Consistent(w')
    && |w.handles| <= |w'.handles|
    && (forall h :: 0 <= h < |w.handles| ==> w'.handles[h].id == w.handles[h].id && w'.handles[h].mode == w.handles[h].mode)
    && |w.fs.files| <= |w'.fs.files|
    && (forall i :: 0 <= i < |w.fs.files| ==> |w.fs.files[i].data| <= |w'.fs.files[i].data|)
    && (forall i :: 0 <= i < |w.fs.files| && !Writes(w, c, i) ==> w'.fs.files[i].data == w.fs.files[i].data)
    && (forall i :: 0 <= i < |w.fs.files| && w.fs.files[i].isDirectory ==> w'.fs.files[i].isDirectory)
  }

  /** The command writes to file `i` through one of its handles. */
  predicate Writes(w: World, c: Command, i: nat) {
    c.WriteTo? && c.handle < |w.handles| && w.handles[c.handle].id == i && w.handles[c.handle].mode != Read
  }

  /** The store only grows, and no bytes in it change. */
  ghost predicate StoreKept(fs: Fs, r: Fs) {
    && WellFormed(r)
    && |fs.files| <= |r.files|
    && forall i :: 0 <= i < |fs.files| ==>
         && r.files[i].data == fs.files[i].data
         && (fs.files[i].isDirectory ==> r.files[i].isDirectory)
  }

  lemma {:induction false} PathsKeepStore(fs: Fs, path: string, asDirectory: bool)
    requires WellFormed(fs)
    ensures StoreKept(fs, CreatePath(fs, path, asDirectory)) && StoreKept(fs, Remove(fs, path).0)
  {
    hide CreatePath, Remove, Components, EntryOf, TrailingSeparator, Marks, WellFormed, ViewOf, Without;
    CreatePathCorrect(fs, path, asDirectory);
    RemoveCorrect(fs, path);
  }

  lemma {:induction false} RenameKeepsStore(fs: Fs, from: string, to: string)
    requires WellFormed(fs) && !MovesIntoItself(fs, from, to)
    ensures StoreKept(fs, Rename(fs, from, to).0)
  {
    RenameCorrect(fs, from, to);
    PathsKeepStore(fs, ParentPath(to), true);
    hide CreatePath, Moved, WellFormed, CanRename, MovesIntoItself, ParentPath;
  }

  lemma {:induction false} OpenKeepsStore(fs: Fs, path: string, mode: OpenMode)
    requires WellFormed(fs)
    ensures StoreKept(fs, Open(fs, path, mode).0)
    ensures Open(fs, path, mode).1.Some? ==> Open(fs, path, mode).1.value < |Open(fs, path, mode).0.files|
  {
    OpenCorrect(fs, path, mode);
    PathsKeepStore(fs, path, false);
    hide CreatePath, Components, TrailingSeparator, ViewOf, WithAncestors;
  }

  /** Handles stay within their files while the store is kept. */
  lemma {:induction false} StoreKeptStep(w: World, c: Command, w': World)
    requires Consistent(w) && StoreKept(w.fs, w'.fs)
    requires |w.handles| <= |w'.handles| && w'.handles[..|w.handles|] == w.handles
    requires forall h :: |w.handles| <= h < |w'.handles| ==> w'.handles[h].id < |w'.fs.files| && w'.handles[h].position == 0
    ensures StepKeeps(w, c, w')
  {
    hide WellFormed;
    forall h | 0 <= h < |w'.handles|
      ensures HandleInside(w', h)
    {
      if h < |w.handles| {
        assert HandleInside(w, h) && w'.handles[h] == w'.handles[..|w.handles|][h] == w.handles[h];
      }
    }
    assert forall h :: 0 <= h < |w.handles| ==> w'.handles[h] == w'.handles[..|w.handles|][h];
  }

  lemma {:induction false} StepOfPathCommand(w: World, c: Command)
    requires Consistent(w) && Legal(w, c)
    requires c.Mkdir? || c.RemovePath? || c.RenamePath?
    ensures StepKeeps(w, c, Step(w, c).0)
  {
    hide CreatePath, Remove, Rename, StoreKept, WellFormed, MovesIntoItself, StepKeeps;
    match c {
      case Mkdir(path) => PathsKeepStore(w.fs, path, true);
      case RemovePath(path) => PathsKeepStore(w.fs, path, true);
      case RenamePath(from, to) => RenameKeepsStore(w.fs, from, to);
    }
    StoreKeptStep(w, c, Step(w, c).0);
  }

  lemma {:induction false} StepOfOpen(w: World, c: Command)
    requires Consistent(w) && c.OpenFile?
    ensures StepKeeps(w, c, Step(w, c).0)
  {
    hide Open, StoreKept, WellFormed, StepKeeps;
    OpenKeepsStore(w.fs, c.path, c.mode);
    StoreKeptStep(w, c, Step(w, c).0);
  }

  lemma {:induction false} StepOfReader(w: World, c: Command)
    requires Consistent(w) && Legal(w, c) && (c.ReadFrom? || c.PeekAt? || c.CloseHandle?)
    ensures StepKeeps(w, c, Step(w, c).0)
  {
    var w' := Step(w, c).0;
    forall h | 0 <= h < |w'.handles|
      ensures HandleInside(w', h)
    {
      assert HandleInside(w, h);
    }
  }

  lemma {:induction false} WrittenIsLonger(data: seq<byte>, position: nat, bytes: seq<byte>)
    requires position <= |data|
    ensures |Written(data, position, bytes)| >= |data| && |Written(data, position, bytes)| >= position + |bytes|
  {
    WrittenAt(data, position, bytes, 0);
  }

  /** One file got other bytes, no fewer, and the handle that wrote them stands within. */
  lemma {:induction false} OneFileLonger(w: World, c: Command, h: nat, data: seq<byte>, position: nat)
    requires Consistent(w) && h < |w.handles| && c.WriteTo? && c.handle == h && w.handles[h].mode != Read
    requires w.handles[h].id < |w.fs.files| && |DataOf(w, h)| <= |data| && position <= |data|
    ensures var k := w.handles[h];
            StepKeeps(w, c, World(w.fs.(files := w.fs.files[k.id := w.fs.files[k.id].(data := data)]),
                                  w.handles[h := k.(position := position)]))
  {
    var k := w.handles[h];
    var w' := World(w.fs.(files := w.fs.files[k.id := w.fs.files[k.id].(data := data)]), w.handles[h := k.(position := position)]);
    SameTreeWellFormed(w.fs, w'.fs);
    hide WellFormed;
    forall i | 0 <= i < |w'.handles|
      ensures HandleInside(w', i)
    {
      assert HandleInside(w, i);
    }
  }

  lemma {:induction false} StepOfWriter(w: World, c: Command)
    requires Consistent(w) && Legal(w, c) && c.WriteTo?
    ensures StepKeeps(w, c, Step(w, c).0)
  {
    hide WellFormed, Written, StepKeeps;
    var k := w.handles[c.handle];
    assert HandleInside(w, c.handle);
    if k.mode == Read {
      NothingChanged(w, c);
    } else {
      WrittenIsLonger(DataOf(w, c.handle), k.position, c.bytes);
      OneFileLonger(w, c, c.handle, Written(DataOf(w, c.handle), k.position, c.bytes), k.position + |c.bytes|);
    }
  }

  lemma {:induction false} NothingChanged(w: World, c: Command)
    requires Consistent(w)
    ensures StepKeeps(w, c, w)
  {
    hide WellFormed;
  }

  lemma {:induction false} SameTreeWellFormed(fs: Fs, r: Fs)
    requires WellFormed(fs) && r.tree == fs.tree && |r.files| == |fs.files|
    requires r.files[0].isDirectory == fs.files[0].isDirectory
    ensures WellFormed(r)
  {
  }

  lemma {:induction false} StepCorrect(w: World, c: Command)
    requires Consistent(w) && Legal(w, c)
    ensures StepKeeps(w, c, Step(w, c).0)
  {
    match c
    case OpenFile(_, _) => StepOfOpen(w, c);
    case ReadFrom(_, _) => StepOfReader(w, c);
    case PeekAt(_, _) => StepOfReader(w, c);
    case CloseHandle(_) => StepOfReader(w, c);
    case WriteTo(_, _) => StepOfWriter(w, c);
    case _ => StepOfPathCommand(w, c);
  }

  ghost function Next(w: World, c: Command): (w': World)
    requires Consistent(w) && Legal(w, c)
    ensures StepKeeps(w, c, w')
  {
    StepCorrect(w, c);
    Step(w, c).0
  }

  /** What the state machine does with a handle, spelled out. */
  lemma {:induction false} ReadSteps(w: World, h: nat, count: nat)
    requires Consistent(w) && h < |w.handles|
    ensures w.handles[h].id < |w.fs.files|
    ensures var k := w.handles[h];
            var read := Slice(DataOf(w, h), k.position, count);
            && Step(w, PeekAt(h, count)) == (w, Delivered(read))
            && Step(w, ReadFrom(h, count)) ==
               (World(w.fs, w.handles[h := Handle(k.id, k.position + |read|, k.mode)]), Delivered(read))
  {
    hide Slice, WellFormed;
    assert HandleInside(w, h);
  }

  lemma {:induction false} OpenSteps(w: World, path: string, mode: OpenMode)
    requires Consistent(w)
    ensures WellFormed(w.fs)
    ensures var (fs, id) := Open(w.fs, path, mode);
            Step(w, OpenFile(path, mode)) ==
            if id == None then (World(fs, w.handles), Opened(None))
            else (World(fs, w.handles + [Handle(id.value, 0, mode)]), Opened(Some(|w.handles|)))
  {
    hide Open, WellFormed;
  }

  lemma {:induction false} WriteSteps(w: World, h: nat, bytes: seq<byte>)
    requires Consistent(w) && h < |w.handles|
    ensures w.handles[h].id < |w.fs.files|
    ensures var k := w.handles[h];
            var n := if k.mode == Read then 0 else |bytes|;
            var data := if k.mode == Read then DataOf(w, h) else Written(DataOf(w, h), k.position, bytes);
            Step(w, WriteTo(h, bytes)) ==
            (World(Fs(w.fs.tree, w.fs.files[k.id := w.fs.files[k.id].(data := data)]),
                   w.handles[h := Handle(k.id, k.position + n, k.mode)]), Accepted(n))
  {
    hide Written, WellFormed;
    assert HandleInside(w, h);
    var k := w.handles[h];
    assert w.fs.files == w.fs.files[k.id := w.fs.files[k.id]];
    assert w.handles == w.handles[h := k];
  }

  /** A command through a handle touches no name, no kind, and only the bytes of its file. */
  lemma {:induction false} HandleStepKeeps(w: World, c: Command)
    requires Consistent(w) && Legal(w, c) && (c.ReadFrom? || c.PeekAt? || c.WriteTo? || c.CloseHandle?)
    ensures var w' := Next(w, c);
            && w'.fs.tree == w.fs.tree && |w'.fs.files| == |w.fs.files| && |w'.handles| == |w.handles|
            && (forall h :: 0 <= h < |w.handles| ==> w'.handles[h].id == w.handles[h].id)
            && (forall i :: 0 <= i < |w.fs.files| ==> w'.fs.files[i].isDirectory == w.fs.files[i].isDirectory)
            && (forall i :: 0 <= i < |w.fs.files| && (forall h :: 0 <= h < |w.handles| ==> w.handles[h].id != i) ==>
                  w'.fs.files[i] == w.fs.files[i])
  {
    hide WellFormed, Written, Slice;
    if c.WriteTo? {
      assert HandleInside(w, c.handle);
    }
  }

  // --------------------------------------------------- the plain map of contents

  predicate IsPathCommand(c: Command) {
    c.Mkdir? || c.OpenFile? || c.RemovePath? || c.RenamePath?
  }

  /** The path operations on the plain map from positions to contents, with their outcome. */
  function MapStep(v: View, c: Command): (View, bool)
    requires IsPathCommand(c)
  {
    match c
    case Mkdir(path) => (WithAncestors(v, Components(path), true, Marks(path, true)), true)
    case OpenFile(path, mode) =>
      var p := Components(path);
      if p in v then (v, !v[p].isDirectory)
      else if mode == Read then (v, false)
      else (WithAncestors(v, p, TrailingSeparator(path), false), !TrailingSeparator(path))
    case RemovePath(path) =>
      if path == "" || path == "/" || EntryOf(path) !in v then (v, false)
      else (Without(v, EntryOf(path)), true)
    case RenamePath(from, to) =>
      if Components(from) !in v || EntryOf(from) !in v then (v, false)
      else (Moved(WithTargetParent(v, to), EntryOf(from), EntryOf(to)), true)
  }

  predicate Succeeded(r: Reply) {
    match r
    case Done(ok) => ok
    case Opened(handle) => handle.Some?
    case _ => true
  }

  /** Identities are invisible to the path operations: they act on the plain map. */
  lemma {:induction false} PathCommandOnMap(w: World, c: Command)
    requires Consistent(w) && Legal(w, c) && IsPathCommand(c)
    ensures WellFormed(Next(w, c).fs)
    ensures MapStep(ViewOf(w.fs), c) == (ViewOf(Next(w, c).fs), Succeeded(Step(w, c).1))
  {
    match c {
      case Mkdir(path) => CreatePathOnView(w.fs, path, true);
      case OpenFile(path, mode) =>
        OpenCorrect(w.fs, path, mode);
      case RemovePath(path) => RemoveCorrect(w.fs, path);
      case RenamePath(from, to) => RenameCorrect(w.fs, from, to);
    }
  }

  /** A write through a handle changes the plain map at the one position that names the
      handle's file, and not at all when the file was removed. */
  lemma {:induction false} WriteOnMap(w: World, h: nat, bytes: seq<byte>, p: Position)
    requires Consistent(w) && h < |w.handles| && w.handles[h].mode != Read
    ensures WellFormed(Next(w, WriteTo(h, bytes)).fs)
    ensures var v, v' := ViewOf(w.fs), ViewOf(Next(w, WriteTo(h, bytes)).fs);
            && (p in v' <==> p in v)
            && (p in v ==> v'[p] == if w.fs.tree[p] == w.handles[h].id
                                    then v[p].(data := Written(v[p].data, w.handles[h].position, bytes)) else v[p])
  {
    assert HandleInside(w, h);
  }

  /** The outcomes of a run of path operations, and the map it leaves, can be told from
      the plain map alone. */
  ghost function MapRun(v: View, run: seq<Command>): (View, seq<bool>)
    requires forall k :: 0 <= k < |run| ==> IsPathCommand(run[k])
    decreases |run|
  {
    if run == [] then (v, [])
    else
      var (v', ok) := MapStep(v, run[0]);
      var (last, oks) := MapRun(v', run[1..]);
      (last, [ok] + oks)
  }

  // -------------------------------------------------------------------- runs

  ghost predicate LegalRun(w: World, run: seq<Command>)
    requires Consistent(w)
    decreases |run|
  {
    run == [] || (
      && Legal(w, run[0])
      && LegalRun(Next(w, run[0]), run[1..]))
  }

  ghost function Run(w: World, run: seq<Command>): (World, seq<Reply>)
    requires Consistent(w) && LegalRun(w, run)
    decreases |run|
  {
    if run == [] then (w, [])
    else
      var (last, replies) := Run(Next(w, run[0]), run[1..]);
      (last, [Step(w, run[0]).1] + replies)
  }

  lemma {:induction false} RunOfTwo(w: World, a: Command, b: Command)
    requires Consistent(w) && Legal(w, a) && Legal(Next(w, a), b)
    ensures LegalRun(w, [a, b]) && Run(w, [a, b]).0 == Next(Next(w, a), b)
  {
    hide Consistent, Legal;
    var run := [a, b];
    assert run[1..] == [b] && run[1..][1..] == [];
    assert Run(Next(w, a), [b]).0 == Next(Next(w, a), b) by {
      assert [b][1..] == [];
    }
  }

  function Outcomes(replies: seq<Reply>): seq<bool> {
    if replies == [] then [] else [Succeeded(replies[0])] + Outcomes(replies[1..])
  }

  /** Runs of path operations agree with the plain map, outcome by outcome. */
  lemma {:induction false} PathRunOnMap(w: World, run: seq<Command>)
    requires Consistent(w) && LegalRun(w, run)
    requires forall k :: 0 <= k < |run| ==> IsPathCommand(run[k])
    ensures var (last, replies) := Run(w, run);
            && WellFormed(last.fs) && |replies| == |run|
            && MapRun(ViewOf(w.fs), run) == (ViewOf(last.fs), Outcomes(replies))
    decreases |run|
  {
    if run == [] {
    } else {
      PathCommandOnMap(w, run[0]);
      PathRunOnMap(Next(w, run[0]), run[1..]);
      var rest := Run(Next(w, run[0]), run[1..]).1;
      assert ([Step(w, run[0]).1] + rest)[1..] == rest;
      hide MapStep, Step, ViewOf, Consistent, Legal;
    }
  }

  /** Some command of the run writes to file `i`. */
  ghost predicate RunWrites(w: World, run: seq<Command>, i: nat)
    requires Consistent(w) && LegalRun(w, run)
    decreases |run|
  {
    run != [] && (
      || Writes(w, run[0], i)
      || RunWrites(Next(w, run[0]), run[1..], i))
  }

  /** Over any run: no handle ever points outside its file, files never shrink, a handle
      stays with the file it was opened on, and a file's bytes change only by writes
      through handles on that file, whatever is renamed or removed meanwhile. */
  lemma {:induction false} RunKeeps(w: World, run: seq<Command>)
    requires Consistent(w) && LegalRun(w, run)
    ensures var w' := Run(w, run).0;
            && Consistent(w')
            && |w.handles| <= |w'.handles|
            && (forall h :: 0 <= h < |w.handles| ==> w'.handles[h].id == w.handles[h].id && w'.handles[h].mode == w.handles[h].mode)
            && |w.fs.files| <= |w'.fs.files|
            && (forall i :: 0 <= i < |w.fs.files| ==> |w.fs.files[i].data| <= |w'.fs.files[i].data|)
            && (forall i :: 0 <= i < |w.fs.files| && !RunWrites(w, run, i) ==> w'.fs.files[i].data == w.fs.files[i].data)
    decreases |run|
  {
    if run == [] {
    } else {
      RunKeeps(Next(w, run[0]), run[1..]);
    }
  }

  /** The run never moves the position of handle `h`. */
  predicate LeavesAlone(run: seq<Command>, h: nat) {
    forall k :: 0 <= k < |run| ==> !(run[k].ReadFrom? && run[k].handle == h) && !(run[k].WriteTo? && run[k].handle == h)
  }

  lemma {:induction false} RunLeavesPosition(w: World, run: seq<Command>, h: nat)
    requires Consistent(w) && LegalRun(w, run) && h < |w.handles| && LeavesAlone(run, h)
    ensures h < |Run(w, run).0.handles| && Run(w, run).0.handles[h] == w.handles[h]
    decreases |run|
  {
    if run == [] {
    } else {
      var w' := Next(w, run[0]);
      assert w'.handles[h] == w.handles[h];
      assert LeavesAlone(run[1..], h);
      RunLeavesPosition(w', run[1..], h);
    }
  }

  // ------------------------------------------------------------ reading a file

  /** Reads of these sizes through one handle. */
  function ReadsOf(h: nat, sizes: seq<nat>): seq<Command> {
    if sizes == [] then [] else [ReadFrom(h, sizes[0])] + ReadsOf(h, sizes[1..])
  }

  /** The delivered bytes of the replies, one after the other. */
  function Heard(replies: seq<Reply>): seq<byte> {
    if replies == [] then []
    else (match replies[0] case Delivered(bytes) => bytes case _ => []) + Heard(replies[1..])
  }

  /** A read delivers as many bytes as it asks for or as are left, those at its position, and
      moves on by their number; it delivers none only when it asks for none or stands at the
      end. */
  lemma {:induction false} ReadDelivers(w: World, h: nat, count: nat)
    requires Consistent(w) && h < |w.handles|
    ensures w.handles[h].id < |w.fs.files| && w.handles[h].position <= |DataOf(w, h)|
    ensures var (data, position) := (DataOf(w, h), w.handles[h].position);
            var n := Min(count, |data| - position);
            && Step(w, ReadFrom(h, count)) ==
               (w.(handles := w.handles[h := w.handles[h].(position := position + n)]), Delivered(data[position..position + n]))
            && (Step(w, ReadFrom(h, count)).1 == Delivered([]) <==> count == 0 || position == |data|)
  {
    hide WellFormed;
    assert HandleInside(w, h);
  }

  /** Consecutive reads of any sizes deliver the file from where the handle stands, up to the
      sum of the sizes or to the end, whichever comes first. */
  lemma {:induction false} ReadsDeliverFile(w: World, h: nat, sizes: seq<nat>)
    requires Consistent(w) && h < |w.handles|
    ensures w.handles[h].id < |w.fs.files| && w.handles[h].position <= |DataOf(w, h)|
    ensures LegalRun(w, ReadsOf(h, sizes))
    ensures var (last, replies) := Run(w, ReadsOf(h, sizes));
            var (data, position) := (DataOf(w, h), w.handles[h].position);
            var n := Min(Sum(sizes), |data| - position);
            && Heard(replies) == data[position..position + n]
            && last == w.(handles := w.handles[h := w.handles[h].(position := position + n)])
    decreases |sizes|, 1
  {
    hide Consistent, Step;
    ReadDelivers(w, h, 0);
    if sizes == [] {
      assert w.handles[h := w.handles[h]] == w.handles;
    } else {
      ReadDelivers(w, h, sizes[0]);
      ReadsStep(w, h, sizes);
    }
  }

  lemma {:induction false} ReadsStep(w: World, h: nat, sizes: seq<nat>)
    requires Consistent(w) && h < |w.handles| && sizes != []
    ensures w.handles[h].id < |w.fs.files| && w.handles[h].position <= |DataOf(w, h)|
    ensures LegalRun(w, ReadsOf(h, sizes))
    ensures var (last, replies) := Run(w, ReadsOf(h, sizes));
            var (data, position) := (DataOf(w, h), w.handles[h].position);
            var n := Min(Sum(sizes), |data| - position);
            && Heard(replies) == data[position..position + n]
            && last == w.(handles := w.handles[h := w.handles[h].(position := position + n)])
    decreases |sizes|, 0
  {
    hide Consistent, Step, Heard, Run, LegalRun, Sum, Min, DataOf, Next;
    ReadDelivers(w, h, sizes[0]);
    var c, rest := ReadFrom(h, sizes[0]), ReadsOf(h, sizes[1..]);
    var data, position := DataOf(w, h), w.handles[h].position;
    var n := Min(sizes[0], |data| - position);
    NextReads(w, h, sizes[0], n);
    var w' := Next(w, c);
    ReadsDeliverFile(w', h, sizes[1..]);
    var m := Min(Sum(sizes[1..]), |data| - position - n);
    RunFirst(w, c, rest);
    HeardFirst(Step(w, c).1, Run(w', rest).1);
    SumFirst(sizes, |data| - position);
    TwoSlices(data, position, n, m);
    assert ReadsOf(h, sizes) == [c] + rest;
    assert w.handles[h := w'.handles[h]][h := w'.handles[h].(position := position + n + m)]
        == w.handles[h := w.handles[h].(position := position + n + m)];
  }

  lemma {:induction false} NextReads(w: World, h: nat, count: nat, n: nat)
    requires Consistent(w) && h < |w.handles| && w.handles[h].id < |w.fs.files|
    requires Step(w, ReadFrom(h, count)).0 == w.(handles := w.handles[h := w.handles[h].(position := w.handles[h].position + n)])
    ensures Legal(w, ReadFrom(h, count))
    ensures Next(w, ReadFrom(h, count)) == w.(handles := w.handles[h := w.handles[h].(position := w.handles[h].position + n)])
    ensures DataOf(Next(w, ReadFrom(h, count)), h) == DataOf(w, h)
  {
    hide Consistent, Step;
  }

  lemma {:induction false} RunFirst(w: World, c: Command, rest: seq<Command>)
    requires Consistent(w) && Legal(w, c) && LegalRun(Next(w, c), rest)
    ensures LegalRun(w, [c] + rest)
    ensures Run(w, [c] + rest) == (Run(Next(w, c), rest).0, [Step(w, c).1] + Run(Next(w, c), rest).1)
  {
    hide Consistent, Legal, Step, Next;
    assert ([c] + rest)[1..] == rest;
  }

  lemma {:induction false} SumFirst(sizes: seq<nat>, left: nat)
    requires sizes != []
    ensures Min(Sum(sizes), left) == Min(sizes[0], left) + Min(Sum(sizes[1..]), left - Min(sizes[0], left))
  {
  }

  lemma {:induction false} TwoSlices<T>(data: seq<T>, position: nat, n: nat, m: nat)
    requires position + n + m <= |data|
    ensures data[position..position + n] + data[position + n..position + n + m] == data[position..position + n + m]
  {
  }

  lemma {:induction false} HeardFirst(reply: Reply, replies: seq<Reply>)
    ensures reply.Delivered? ==> Heard([reply] + replies) == reply.bytes + Heard(replies)
  {
    assert ([reply] + replies)[1..] == replies;
  }

  /** What one handle writes, another handle on the same file reads back, wherever it
      stands and whatever it asks for, after any run in between that neither writes that
      file nor moves the reader: in particular after the file was renamed or removed. */
  lemma {:induction false} WriteIsSeenThroughOtherHandles(w: World, writer: nat, bytes: seq<byte>, run: seq<Command>,
                                                          reader: nat, count: nat)
    requires Consistent(w) && writer < |w.handles| && reader < |w.handles| && reader != writer
    requires w.handles[writer].mode != Read && w.handles[reader].id == w.handles[writer].id
    requires LegalRun(Next(w, WriteTo(writer, bytes)), run) && LeavesAlone(run, reader)
    requires !RunWrites(Next(w, WriteTo(writer, bytes)), run, w.handles[writer].id)
    ensures w.handles[writer].id < |w.fs.files|
    ensures var last := Run(Next(w, WriteTo(writer, bytes)), run).0;
            var position := w.handles[writer].position;
            var written := Written(DataOf(w, writer), position, bytes);
            && Consistent(last) && reader < |last.handles|
            && Step(last, ReadFrom(reader, count)).1 == Delivered(Slice(written, w.handles[reader].position, count))
            && (w.handles[reader].position == position && count == |bytes| ==>
                  Step(last, ReadFrom(reader, count)).1 == Delivered(bytes))
  {
    assert HandleInside(w, writer);
    DataAfterWrite(w, writer, bytes);
    WrittenSlice(DataOf(w, writer), w.handles[writer].position, bytes);
    hide Written, Slice, Legal, WellFormed, Step, RunWrites;
    var w1 := Next(w, WriteTo(writer, bytes));
    RunKeeps(w1, run);
    RunLeavesPosition(w1, run, reader);
    ReadSteps(Run(w1, run).0, reader, count);
  }

  lemma {:induction false} DataAfterWrite(w: World, h: nat, bytes: seq<byte>)
    requires Consistent(w) && h < |w.handles| && w.handles[h].mode != Read
    ensures w.handles[h].id < |w.fs.files|
    ensures var w' := Next(w, WriteTo(h, bytes));
            && |w'.fs.files| == |w.fs.files|
            && w'.fs.files[w.handles[h].id].data == Written(DataOf(w, h), w.handles[h].position, bytes)
            && |w'.handles| == |w.handles|
            && forall k :: 0 <= k < |w.handles| && k != h ==> w'.handles[k] == w.handles[k]
  {
    assert HandleInside(w, h);
  }

  lemma {:induction false} WrittenSlice(data: seq<byte>, position: nat, bytes: seq<byte>)
    requires position <= |data|
    ensures Slice(Written(data, position, bytes), position, |bytes|) == bytes
  {
    WrittenAt(data, position, bytes, 0);
    var written := Written(data, position, bytes);
    if position < |written| {
      forall k | 0 <= k < |bytes|
        ensures written[position..position + |bytes|][k] == bytes[k]
      {
        WrittenAt(data, position, bytes, position + k);
      }
      assert written[position..position + |bytes|] == bytes;
    }
  }
}
