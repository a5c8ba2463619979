/**
 Runs with handles on the plain map: all a client can observe of a run follows from the
 map from positions to contents, the position each handle's file is at now, and the bytes
 of the removed files that handles still hold.
 */
module MixedRuns {
  import opened Bytes
  import opened Positions
  import opened TreeModel
  import opened Runs

  /** A handle as the map sees it: where its file is or, when that was removed, which
      handle was the first one on it. */
  datatype Cursor =
    | At(position: Position, offset: nat, mode: OpenMode)
    | Lost(leader: nat, offset: nat, mode: OpenMode)

  /** `lost` holds the bytes of removed files, by the first handle on each. */
  datatype Desk = Desk(view: View, cursors: seq<Cursor>, lost: map<nat, seq<byte>>)

  // ------------------------------------------------------------ the desk alone

  /** The first cursor at the position, or one past the last. */
  function FirstAt(cursors: seq<Cursor>, p: Position): (k: nat)
    ensures k <= |cursors|
    ensures k < |cursors| ==> cursors[k].At? && cursors[k].position == p
    ensures forall i :: 0 <= i < k ==> !(cursors[i].At? && cursors[i].position == p)
  {
    if cursors == [] then 0
    else if cursors[0].At? && cursors[0].position == p then 0
    else 1 + FirstAt(cursors[1..], p)
  }

  /** What becomes of a cursor when some positions go and the others move. */
  function Carried(cursors: seq<Cursor>, k: Cursor, gone: Position -> bool, moved: Position -> Position): Cursor {
    if k.Lost? then k
    else if gone(k.position) then Lost(FirstAt(cursors, k.position), k.offset, k.mode)
    else k.(position := moved(k.position))
  }

  function CarriedAll(cursors: seq<Cursor>, gone: Position -> bool, moved: Position -> Position): (r: seq<Cursor>)
    ensures |r| == |cursors|
    ensures forall h :: 0 <= h < |r| ==> r[h] == Carried(cursors, cursors[h], gone, moved)
  {
    seq(|cursors|, h requires 0 <= h < |cursors| => Carried(cursors, cursors[h], gone, moved))
  }

  /** The cursor is the first one on a file that goes. */
  predicate Leads(d: Desk, k: nat, gone: Position -> bool) {
    && k < |d.cursors| && d.cursors[k].At? && gone(d.cursors[k].position)
    && FirstAt(d.cursors, d.cursors[k].position) == k
    && d.cursors[k].position in d.view
  }

  function Carry(d: Desk, view: View, gone: Position -> bool, moved: Position -> Position): Desk {
    Desk(view, CarriedAll(d.cursors, gone, moved),
         d.lost + map k | 0 <= k < |d.cursors| && Leads(d, k, gone) :: d.view[d.cursors[k].position].data)
  }

  function BytesOf(d: Desk, h: nat): seq<byte>
    requires h < |d.cursors|
  {
    match d.cursors[h]
    case At(p, _, _) => if p in d.view then d.view[p].data else []
    case Lost(l, _, _) => if l in d.lost then d.lost[l] else []
  }

  /** The desk with other bytes for the file of a handle. */
  function WithBytes(d: Desk, h: nat, bytes: seq<byte>): Desk
    requires h < |d.cursors|
  {
    match d.cursors[h]
    case At(p, _, _) => if p in d.view then d.(view := d.view[p := d.view[p].(data := bytes)]) else d
    case Lost(l, _, _) => d.(lost := d.lost[l := bytes])
  }

  function Advanced(d: Desk, h: nat, n: nat): Desk
    requires h < |d.cursors|
  {
    d.(cursors := d.cursors[h := d.cursors[h].(offset := d.cursors[h].offset + n)])
  }

  /** The commands a client with these handles can give. */
  predicate DeskLegal(d: Desk, c: Command) {
    match c
    case ReadFrom(h, _) => h < |d.cursors|
    case PeekAt(h, _) => h < |d.cursors|
    case WriteTo(h, _) => h < |d.cursors|
    case CloseHandle(h) => h < |d.cursors|
    case _ => true
  }

  function Nowhere(): Position -> bool {
    p => false
  }

  function Unmoved(): Position -> Position {
    p => p
  }

  function AtOrBelow(e: Position): Position -> bool {
    p => Above(e, p)
  }

  /** What a move replaces, and where it takes the rest. */
  function Replaced(from: Position, to: Position): Position -> bool {
    p => Above(to, p) && !Above(from, p)
  }

  function Following(from: Position, to: Position): Position -> Position {
    p => if Above(from, p) then Rebase(p, from, to) else p
  }

  /** One command on the desk, with its reply. */
  function DeskStep(d: Desk, c: Command): (Desk, Reply)
    requires DeskLegal(d, c)
  {
    match c
    case Mkdir(_) => (d.(view := MapStep(d.view, c).0), Done(true))
    case OpenFile(path, mode) =>
      var (v, ok) := MapStep(d.view, c);
      if ok then (d.(view := v, cursors := d.cursors + [At(Components(path), 0, mode)]), Opened(Some(|d.cursors|)))
      else (d.(view := v), Opened(None))
    case RemovePath(path) =>
      var (v, ok) := MapStep(d.view, c);
      (if ok then Carry(d, v, AtOrBelow(EntryOf(path)), Unmoved()) else d, Done(ok))
    case RenamePath(from, to) =>
      var (v, ok) := MapStep(d.view, c);
      var f, t := EntryOf(from), EntryOf(to);
      (if ok then Carry(d, v, Replaced(f, t), Following(f, t)) else d, Done(ok))
    case ReadFrom(h, count) =>
      var bytes := Slice(BytesOf(d, h), d.cursors[h].offset, count);
      (Advanced(d, h, |bytes|), Delivered(bytes))
    case PeekAt(h, count) =>
      (d, Delivered(Slice(BytesOf(d, h), d.cursors[h].offset, count)))
    case WriteTo(h, bytes) =>
      if d.cursors[h].mode == Read then (d, Accepted(0))
      else (Advanced(WithBytes(d, h, Written(BytesOf(d, h), d.cursors[h].offset, bytes)), h, |bytes|), Accepted(|bytes|))
    case CloseHandle(_) => (d, Done(true))
  }

  // ------------------------------------------------------- the desk of a world

  /** The first handle on the file, or one past the last. */
  function FirstOn(handles: seq<Handle>, id: nat): (k: nat)
    ensures k <= |handles|
    ensures k < |handles| ==> handles[k].id == id
    ensures forall i :: 0 <= i < k ==> handles[i].id != id
  {
    if handles == [] then 0
    else if handles[0].id == id then 0
    else 1 + FirstOn(handles[1..], id)
  }

  ghost predicate Somewhere(tree: Tree, id: nat) {
    exists p :: p in tree && tree[p] == id
  }

  ghost function CursorOf(tree: Tree, handles: seq<Handle>, k: Handle): Cursor {
    if Somewhere(tree, k.id) then
      var p :| p in tree && tree[p] == k.id;
      At(p, k.position, k.mode)
    else Lost(FirstOn(handles, k.id), k.position, k.mode)
  }

  ghost function CursorsOf(tree: Tree, handles: seq<Handle>): (r: seq<Cursor>)
    ensures |r| == |handles|
    ensures forall h :: 0 <= h < |handles| ==> r[h] == CursorOf(tree, handles, handles[h])
  {
    seq(|handles|, h requires 0 <= h < |handles| => CursorOf(tree, handles, handles[h]))
  }

  ghost predicate LeadsLost(w: World, k: nat) {
    && k < |w.handles| && w.handles[k].id < |w.fs.files|
    && !Somewhere(w.fs.tree, w.handles[k].id) && FirstOn(w.handles, w.handles[k].id) == k
  }

  ghost function LostOf(w: World): map<nat, seq<byte>> {
    map k | 0 <= k < |w.handles| && LeadsLost(w, k) :: w.fs.files[w.handles[k].id].data
  }

  ghost function DeskOf(w: World): Desk
    requires Runs.Consistent(w)
  {
    Desk(ViewOf(w.fs), CursorsOf(w.fs.tree, w.handles), LostOf(w))
  }

  lemma {:induction false} ConsistentParts(w: World)
    requires Runs.Consistent(w)
    ensures WellFormed(w.fs) && OneParentEach(w.fs.tree)
    ensures forall c :: c in w.fs.tree ==> w.fs.tree[c] < |w.fs.files|
    ensures forall h :: 0 <= h < |w.handles| ==> w.handles[h].id < |w.fs.files|
  {
    forall h | 0 <= h < |w.handles|
      ensures w.handles[h].id < |w.fs.files|
    {
      assert HandleInside(w, h);
    }
  }

  /** The one place a file is at. */
  lemma {:induction false} CursorIs(tree: Tree, handles: seq<Handle>, k: Handle, p: Position)
    requires OneParentEach(tree) && p in tree && tree[p] == k.id
    ensures CursorOf(tree, handles, k) == At(p, k.position, k.mode)
  {
    assert Somewhere(tree, k.id);
  }

  lemma {:induction false} CursorParts(tree: Tree, handles: seq<Handle>, k: Handle)
    ensures var c := CursorOf(tree, handles, k);
            && c.offset == k.position && c.mode == k.mode
            && (c.At? <==> Somewhere(tree, k.id))
            && (c.At? ==> c.position in tree && tree[c.position] == k.id)
            && (c.Lost? ==> c.leader == FirstOn(handles, k.id))
  {
  }

  /** Handles are on one file exactly when their cursors are at one place. */
  lemma {:induction false} FirstAtIsFirstOn(tree: Tree, handles: seq<Handle>, p: Position)
    requires OneParentEach(tree) && p in tree
    ensures FirstAt(CursorsOf(tree, handles), p) == FirstOn(handles, tree[p])
  {
    hide CursorOf;
    var cursors := CursorsOf(tree, handles);
    forall h | 0 <= h < |handles|
      ensures cursors[h].At? && cursors[h].position == p <==> handles[h].id == tree[p]
    {
      CursorParts(tree, handles, handles[h]);
      if handles[h].id == tree[p] {
        CursorIs(tree, handles, handles[h], p);
      }
    }
  }

  lemma {:induction false} FirstOnSameIds(a: seq<Handle>, b: seq<Handle>, id: nat)
    requires |a| <= |b| && forall h :: 0 <= h < |a| ==> b[h].id == a[h].id
    ensures FirstOn(a, id) < |a| ==> FirstOn(b, id) == FirstOn(a, id)
    ensures |a| == |b| ==> FirstOn(b, id) == FirstOn(a, id)
  {
  }

  lemma {:induction false} LeaderExists(handles: seq<Handle>, h: nat)
    requires h < |handles|
    ensures FirstOn(handles, handles[h].id) <= h
  {
  }

  // ------------------------------------------------------------ path commands

  /** Of the old files just those at positions not `gone` are still somewhere, moved along,
      and none has other bytes. */
  ghost predicate Carries(fs: Fs, r: Fs, gone: Position -> bool, moved: Position -> Position) {
    && |fs.files| <= |r.files|
    && (forall i :: 0 <= i < |fs.files| ==> r.files[i].data == fs.files[i].data)
    && (forall p :: p in fs.tree && !gone(p) ==> moved(p) in r.tree && r.tree[moved(p)] == fs.tree[p])
    && (forall q :: q in r.tree && r.tree[q] < |fs.files| ==> StillAt(fs, gone, r.tree[q]))
  }

  ghost predicate StillAt(fs: Fs, gone: Position -> bool, id: nat) {
    exists p :: p in fs.tree && !gone(p) && fs.tree[p] == id
  }

  lemma {:induction false} CarriedPlace(fs: Fs, r: Fs, gone: Position -> bool, moved: Position -> Position, p: Position)
    requires OneParentEach(fs.tree) && Carries(fs, r, gone, moved) && p in fs.tree && fs.tree[p] < |fs.files|
    ensures gone(p) <==> !Somewhere(r.tree, fs.tree[p])
    ensures !gone(p) ==> moved(p) in r.tree && r.tree[moved(p)] == fs.tree[p]
  {
    if Somewhere(r.tree, fs.tree[p]) {
      var q :| q in r.tree && r.tree[q] == fs.tree[p];
      assert StillAt(fs, gone, r.tree[q]);
    }
  }

  lemma {:induction false} NowhereStays(fs: Fs, r: Fs, gone: Position -> bool, moved: Position -> Position, id: nat)
    requires Carries(fs, r, gone, moved) && id < |fs.files|
    ensures Somewhere(r.tree, id) ==> Somewhere(fs.tree, id)
  {
    if Somewhere(r.tree, id) {
      var q :| q in r.tree && r.tree[q] == id;
      assert StillAt(fs, gone, r.tree[q]);
    }
  }

  lemma {:induction false} CarriedCursor(fs: Fs, r: Fs, handles: seq<Handle>, gone: Position -> bool, moved: Position -> Position, h: nat)
    requires OneParentEach(fs.tree) && OneParentEach(r.tree) && Carries(fs, r, gone, moved)
    requires h < |handles| && handles[h].id < |fs.files|
    ensures CursorOf(r.tree, handles, handles[h])
         == Carried(CursorsOf(fs.tree, handles), CursorOf(fs.tree, handles, handles[h]), gone, moved)
  {
    hide CursorOf, Carries, Somewhere;
    var k := handles[h];
    CursorParts(fs.tree, handles, k);
    CursorParts(r.tree, handles, k);
    if Somewhere(fs.tree, k.id) {
      var p := CursorOf(fs.tree, handles, k).position;
      CarriedPlace(fs, r, gone, moved, p);
      FirstAtIsFirstOn(fs.tree, handles, p);
      if !gone(p) {
        CursorIs(r.tree, handles, k, moved(p));
      }
    } else {
      NowhereStays(fs, r, gone, moved, k.id);
    }
  }

  /** Which handles lead on removed files after the command. */
  lemma {:induction false} CarriedLeader(w: World, w': World, gone: Position -> bool, moved: Position -> Position, k: nat)
    requires Runs.Consistent(w) && Runs.Consistent(w') && w'.handles == w.handles && Carries(w.fs, w'.fs, gone, moved)
    requires k < |w.handles|
    ensures LeadsLost(w', k) <==> LeadsLost(w, k) || Leads(DeskOf(w), k, gone)
    ensures !(LeadsLost(w, k) && Leads(DeskOf(w), k, gone))
    ensures Leads(DeskOf(w), k, gone) ==>
              w.handles[k].id < |w.fs.files|
              && DeskOf(w).view[DeskOf(w).cursors[k].position].data == w.fs.files[w.handles[k].id].data
  {
    hide CursorOf, Carries, Somewhere, WellFormed, Runs.Consistent;
    ConsistentParts(w);
    ConsistentParts(w');
    DataKept(w.fs, w'.fs, gone, moved);
    var id := w.handles[k].id;
    CursorParts(w.fs.tree, w.handles, w.handles[k]);
    if Somewhere(w.fs.tree, id) {
      var p := CursorOf(w.fs.tree, w.handles, w.handles[k]).position;
      CarriedPlace(w.fs, w'.fs, gone, moved, p);
      FirstAtIsFirstOn(w.fs.tree, w.handles, p);
    } else {
      NowhereStays(w.fs, w'.fs, gone, moved, id);
    }
  }

  lemma {:induction false} DataKept(fs: Fs, r: Fs, gone: Position -> bool, moved: Position -> Position)
    requires Carries(fs, r, gone, moved)
    ensures |fs.files| <= |r.files| && forall i :: 0 <= i < |fs.files| ==> r.files[i].data == fs.files[i].data
  {
  }

  lemma {:induction false} CarriedLost(w: World, w': World, gone: Position -> bool, moved: Position -> Position)
    requires Runs.Consistent(w) && Runs.Consistent(w') && w'.handles == w.handles && Carries(w.fs, w'.fs, gone, moved)
    ensures LostOf(w') == Carry(DeskOf(w), ViewOf(w'.fs), gone, moved).lost
  {
    hide CursorOf, Carries, Somewhere, WellFormed, Runs.Consistent, Leads, LeadsLost, ViewOf;
    ConsistentParts(w');
    var lost := Carry(DeskOf(w), ViewOf(w'.fs), gone, moved).lost;
    DataKept(w.fs, w'.fs, gone, moved);
    forall k: nat
      ensures k in LostOf(w') <==> k in lost
      ensures k in lost ==> LostOf(w')[k] == lost[k]
    {
      LeadersAreHandles(w, k);
      LeadersAreHandles(w', k);
      if k < |w.handles| {
        CarriedLeader(w, w', gone, moved, k);
      }
    }
    assert LostOf(w') == lost;
  }

  lemma {:induction false} LeadersAreHandles(w: World, k: nat)
    ensures LeadsLost(w, k) ==> k < |w.handles| && w.handles[k].id < |w.fs.files|
  {
  }

  lemma {:induction false} CarriedDesk(w: World, w': World, gone: Position -> bool, moved: Position -> Position)
    requires Runs.Consistent(w) && Runs.Consistent(w') && w'.handles == w.handles && Carries(w.fs, w'.fs, gone, moved)
    ensures DeskOf(w') == Carry(DeskOf(w), ViewOf(w'.fs), gone, moved)
  {
    hide CursorOf, Carries, WellFormed, Runs.Consistent, LostOf, ViewOf, Carried;
    ConsistentParts(w);
    ConsistentParts(w');
    CarriedLost(w, w', gone, moved);
    forall h | 0 <= h < |w.handles|
      ensures DeskOf(w').cursors[h] == Carried(DeskOf(w).cursors, DeskOf(w).cursors[h], gone, moved)
    {
      CarriedCursor(w.fs, w'.fs, w.handles, gone, moved, h);
    }
    assert DeskOf(w').cursors == CarriedAll(DeskOf(w).cursors, gone, moved);
  }

  /** Nothing goes and nothing moves. */
  lemma {:induction false} CarryNothing(d: Desk, view: View)
    ensures Carry(d, view, Nowhere(), Unmoved()) == d.(view := view)
  {
    assert CarriedAll(d.cursors, Nowhere(), Unmoved()) == d.cursors;
    assert forall k: nat :: !Leads(d, k, Nowhere());
    assert Carry(d, view, Nowhere(), Unmoved()).lost == d.lost;
  }

  lemma {:induction false} NothingGone(p: Position)
    ensures !Nowhere()(p) && Unmoved()(p) == p
  {
  }

  lemma {:induction false} CreationCarries(fs: Fs, path: string, asDirectory: bool)
    requires WellFormed(fs)
    ensures Carries(fs, CreatePath(fs, path, asDirectory), Nowhere(), Unmoved())
  {
    CreatePathCorrect(fs, path, asDirectory);
    hide CreatePath, Components, TrailingSeparator, Marks, WellFormed, ViewOf, WithAncestors;
    var r := CreatePath(fs, path, asDirectory);
    forall q | q in r.tree && r.tree[q] < |fs.files|
      ensures StillAt(fs, Nowhere(), r.tree[q])
    {
      NothingGone(q);
      assert q in fs.tree;
    }
  }

  lemma {:induction false} RemovalCarries(fs: Fs, e: Position)
    requires WellFormed(fs)
    ensures Carries(fs, fs.(tree := Without(fs.tree, e)), AtOrBelow(e), Unmoved())
  {
    var r := fs.(tree := Without(fs.tree, e));
    forall q | q in r.tree && r.tree[q] < |fs.files|
      ensures StillAt(fs, AtOrBelow(e), r.tree[q])
    {
      assert q in fs.tree && !AtOrBelow(e)(q) && fs.tree[q] == r.tree[q];
    }
  }

  lemma {:induction false} MoveCarries(fs: Fs, mid: Fs, f: Position, t: Position)
    requires Carries(fs, mid, Nowhere(), Unmoved())
    requires forall q :: q in mid.tree && mid.tree[q] < |fs.files| ==> q in fs.tree && fs.tree[q] == mid.tree[q]
    ensures Carries(fs, mid.(tree := Moved(mid.tree, f, t)), Replaced(f, t), Following(f, t))
  {
    hide Moved;
    var gone, moved := Replaced(f, t), Following(f, t);
    var r := mid.(tree := Moved(mid.tree, f, t));
    forall p | p in fs.tree && !gone(p)
      ensures moved(p) in r.tree && r.tree[moved(p)] == fs.tree[p]
    {
      NothingGone(p);
      assert Unmoved()(p) in mid.tree && mid.tree[p] == fs.tree[p];
      MovedLookup(mid.tree, f, t, moved(p));
      if Above(f, p) {
        MovedBack(f, t, p);
      }
    }
    forall q | q in r.tree && r.tree[q] < |fs.files|
      ensures StillAt(fs, gone, r.tree[q])
    {
      MovedLookup(mid.tree, f, t, q);
      var p := if Above(t, q) then Rebase(q, t, f) else q;
      assert p in fs.tree && fs.tree[p] == r.tree[q];
      assert !gone(p);
    }
  }

  lemma {:induction false} MovedBack(f: Position, t: Position, p: Position)
    requires Above(f, p)
    ensures Above(t, Rebase(p, f, t)) && Rebase(Rebase(p, f, t), t, f) == p
  {
  }

  lemma {:induction false} RenamingCarries(fs: Fs, from: string, to: string)
    requires WellFormed(fs) && CanRename(fs, from)
    ensures Carries(fs, Rename(fs, from, to).0, Replaced(EntryOf(from), EntryOf(to)), Following(EntryOf(from), EntryOf(to)))
  {
    var mid := CreatePath(fs, ParentPath(to), true);
    CreationCarries(fs, ParentPath(to), true);
    CreatePathCorrect(fs, ParentPath(to), true);
    assert forall q :: q in mid.tree && mid.tree[q] < |fs.files| ==> q in fs.tree && fs.tree[q] == mid.tree[q];
    hide CreatePath, Carries, EntryOf, ParentPath;
    MoveCarries(fs, mid, EntryOf(from), EntryOf(to));
  }

  // -------------------------------------------------------------------- steps

  ghost predicate StepOnDesk(w: World, c: Command)
    requires Runs.Consistent(w) && Legal(w, c)
  {
    && DeskLegal(DeskOf(w), c)
    && DeskStep(DeskOf(w), c) == (DeskOf(Next(w, c)), Step(w, c).1)
  }

  lemma {:induction false} MkdirOnDesk(w: World, path: string)
    requires Runs.Consistent(w)
    ensures StepOnDesk(w, Mkdir(path))
  {
    hide CreatePath, MapStep, ViewOf, WellFormed, Runs.Consistent, Carries, Carry, DeskOf;
    var w' := Next(w, Mkdir(path));
    ConsistentParts(w);
    PathCommandOnMap(w, Mkdir(path));
    CreationCarries(w.fs, path, true);
    CarriedDesk(w, w', Nowhere(), Unmoved());
    CarryNothing(DeskOf(w), ViewOf(w'.fs));
    DeskView(w);
  }

  lemma {:induction false} DeskView(w: World)
    requires Runs.Consistent(w)
    ensures DeskOf(w).view == ViewOf(w.fs) && |DeskOf(w).cursors| == |w.handles|
  {
  }

  lemma {:induction false} RemoveOnDesk(w: World, path: string)
    requires Runs.Consistent(w)
    ensures StepOnDesk(w, RemovePath(path))
  {
    hide EntryOf, MapStep, ViewOf, Without, WellFormed, Runs.Consistent, Carries, Carry, DeskOf;
    var w' := Next(w, RemovePath(path));
    ConsistentParts(w);
    DeskView(w);
    PathCommandOnMap(w, RemovePath(path));
    RemovalCarries(w.fs, EntryOf(path));
    if Remove(w.fs, path).1 {
      CarriedDesk(w, w', AtOrBelow(EntryOf(path)), Unmoved());
    } else {
      assert w' == w;
    }
  }

  lemma {:induction false} RenameOnDesk(w: World, from: string, to: string)
    requires Runs.Consistent(w) && Legal(w, RenamePath(from, to))
    ensures StepOnDesk(w, RenamePath(from, to))
  {
    hide CreatePath, EntryOf, Components, MapStep, ViewOf, Rename, MovesIntoItself, WellFormed, Runs.Consistent, Carries, Carry, DeskOf;
    var w' := Next(w, RenamePath(from, to));
    ConsistentParts(w);
    DeskView(w);
    PathCommandOnMap(w, RenamePath(from, to));
    RenameCorrect(w.fs, from, to);
    if CanRename(w.fs, from) {
      RenamingCarries(w.fs, from, to);
      CarriedDesk(w, w', Replaced(EntryOf(from), EntryOf(to)), Following(EntryOf(from), EntryOf(to)));
    } else {
      assert w' == w;
    }
  }

  /** A new handle on a file that is somewhere. */
  lemma {:induction false} NewCursor(w: World, w': World, id: nat, mode: OpenMode, p: Position)
    requires Runs.Consistent(w) && Runs.Consistent(w') && w' == World(w.fs, w.handles + [Handle(id, 0, mode)])
    requires p in w.fs.tree && w.fs.tree[p] == id
    ensures DeskOf(w') == DeskOf(w).(cursors := DeskOf(w).cursors + [At(p, 0, mode)])
  {
    hide CursorOf, WellFormed, Runs.Consistent, ViewOf, FirstOn;
    ConsistentParts(w);
    CursorIs(w.fs.tree, w'.handles, Handle(id, 0, mode), p);
    forall h | 0 <= h < |w.handles|
      ensures DeskOf(w').cursors[h] == DeskOf(w).cursors[h]
      ensures LeadsLost(w', h) <==> LeadsLost(w, h)
    {
      LeaderExists(w.handles, h);
      FirstOnSameIds(w.handles, w'.handles, w.handles[h].id);
      CursorFrom(w.fs.tree, w.handles, w'.handles, w.handles[h]);
    }
    assert DeskOf(w').cursors == DeskOf(w).cursors + [At(p, 0, mode)];
    assert !LeadsLost(w', |w.handles|) by { assert Somewhere(w.fs.tree, id); }
    assert forall k: nat :: LeadsLost(w', k) <==> LeadsLost(w, k);
    assert LostOf(w') == LostOf(w);
  }

  lemma {:induction false} CursorFrom(tree: Tree, a: seq<Handle>, b: seq<Handle>, k: Handle)
    requires FirstOn(a, k.id) == FirstOn(b, k.id)
    ensures CursorOf(tree, a, k) == CursorOf(tree, b, k)
  {
  }

  lemma {:induction false} OpeningCarries(fs: Fs, path: string, mode: OpenMode)
    requires WellFormed(fs)
    ensures Carries(fs, Open(fs, path, mode).0, Nowhere(), Unmoved())
    ensures WellFormed(Open(fs, path, mode).0)
    ensures Open(fs, path, mode).1.Some? ==>
              Components(path) in Open(fs, path, mode).0.tree
              && Open(fs, path, mode).0.tree[Components(path)] == Open(fs, path, mode).1.value
  {
    CreationCarries(fs, path, false);
    NothingCarries(fs);
    OpenCorrect(fs, path, mode);
    hide Carries, CreatePath, Components, WellFormed, ViewOf, WithAncestors, TrailingSeparator;
  }

  lemma {:induction false} NothingCarries(fs: Fs)
    ensures Carries(fs, fs, Nowhere(), Unmoved())
  {
    forall q | q in fs.tree && fs.tree[q] < |fs.files|
      ensures StillAt(fs, Nowhere(), fs.tree[q])
    {
      NothingGone(q);
    }
  }

  lemma {:induction false} OpenOnDesk(w: World, path: string, mode: OpenMode)
    requires Runs.Consistent(w)
    ensures StepOnDesk(w, OpenFile(path, mode))
  {
    hide Open, Components, MapStep, ViewOf, WellFormed, Runs.Consistent, Carries, Carry, DeskOf;
    var c := OpenFile(path, mode);
    var w' := Next(w, c);
    ConsistentParts(w);
    DeskView(w);
    PathCommandOnMap(w, c);
    OpeningCarries(w.fs, path, mode);
    var (fs, id) := Open(w.fs, path, mode);
    var mid := World(fs, w.handles);
    HandlesCarried(w, mid);
    CarriedDesk(w, mid, Nowhere(), Unmoved());
    CarryNothing(DeskOf(w), ViewOf(fs));
    if id.Some? {
      NewCursor(mid, w', id.value, mode, Components(path));
    }
  }

  lemma {:induction false} HandlesCarried(w: World, w': World)
    requires Runs.Consistent(w) && w'.handles == w.handles && WellFormed(w'.fs) && Carries(w.fs, w'.fs, Nowhere(), Unmoved())
    ensures Runs.Consistent(w')
  {
    hide WellFormed;
    forall h | 0 <= h < |w'.handles|
      ensures HandleInside(w', h)
    {
      assert HandleInside(w, h);
    }
  }

  /** A handle sees on the desk the bytes of its file, removed or not. */
  lemma {:induction false} BytesExactly(w: World, h: nat)
    requires Runs.Consistent(w) && h < |w.handles|
    ensures w.handles[h].id < |w.fs.files| && |DeskOf(w).cursors| == |w.handles|
    ensures BytesOf(DeskOf(w), h) == DataOf(w, h)
    ensures DeskOf(w).cursors[h] == CursorOf(w.fs.tree, w.handles, w.handles[h])
    ensures DeskOf(w).cursors[h].offset == w.handles[h].position && DeskOf(w).cursors[h].mode == w.handles[h].mode
    ensures DeskOf(w).cursors[h].Lost? ==> LeadsLost(w, DeskOf(w).cursors[h].leader)
  {
    hide CursorOf, WellFormed, Runs.Consistent, Somewhere;
    ConsistentParts(w);
    CursorParts(w.fs.tree, w.handles, w.handles[h]);
    LeaderExists(w.handles, h);
  }

  /** One handle moved on. */
  lemma {:induction false} AdvancedDesk(w: World, w': World, h: nat, n: nat)
    requires Runs.Consistent(w) && Runs.Consistent(w') && h < |w.handles|
    requires w' == w.(handles := w.handles[h := w.handles[h].(position := w.handles[h].position + n)])
    ensures h < |DeskOf(w).cursors| && DeskOf(w') == Advanced(DeskOf(w), h, n)
  {
    hide CursorOf, WellFormed, Runs.Consistent, ViewOf, FirstOn, Somewhere;
    ConsistentParts(w);
    forall k | 0 <= k < |w.handles|
      ensures DeskOf(w').cursors[k] == Advanced(DeskOf(w), h, n).cursors[k]
      ensures LeadsLost(w', k) <==> LeadsLost(w, k)
    {
      FirstOnSameIds(w.handles, w'.handles, w.handles[k].id);
      CursorParts(w.fs.tree, w.handles, w.handles[k]);
      CursorParts(w.fs.tree, w'.handles, w'.handles[k]);
      if Somewhere(w.fs.tree, w.handles[k].id) {
        CursorIs(w.fs.tree, w'.handles, w'.handles[k], CursorOf(w.fs.tree, w.handles, w.handles[k]).position);
      }
    }
    assert DeskOf(w').cursors == Advanced(DeskOf(w), h, n).cursors;
    assert forall k: nat :: LeadsLost(w', k) <==> LeadsLost(w, k);
    assert LostOf(w') == LostOf(w);
  }

  /** The world with other bytes in the file of a handle. */
  function Rewritten(w: World, h: nat, data: seq<byte>): World
    requires h < |w.handles| && w.handles[h].id < |w.fs.files|
  {
    w.(fs := w.fs.(files := w.fs.files[w.handles[h].id := w.fs.files[w.handles[h].id].(data := data)]))
  }

  lemma {:induction false} RewrittenIsConsistent(w: World, h: nat, data: seq<byte>)
    requires Runs.Consistent(w) && h < |w.handles| && w.handles[h].id < |w.fs.files| && |DataOf(w, h)| <= |data|
    ensures Runs.Consistent(Rewritten(w, h, data))
  {
    var w' := Rewritten(w, h, data);
    SameTreeWellFormed(w.fs, w'.fs);
    hide WellFormed;
    forall k | 0 <= k < |w'.handles|
      ensures HandleInside(w', k)
    {
      assert HandleInside(w, k);
    }
  }

  lemma {:induction false} RewrittenView(fs: Fs, id: nat, data: seq<byte>)
    requires WellFormed(fs) && id < |fs.files|
    ensures var r := fs.(files := fs.files[id := fs.files[id].(data := data)]);
            && WellFormed(r)
            && (!Somewhere(fs.tree, id) ==> ViewOf(r) == ViewOf(fs))
            && forall p :: p in fs.tree && fs.tree[p] == id ==> ViewOf(r) == ViewOf(fs)[p := ViewOf(fs)[p].(data := data)]
  {
    var r := fs.(files := fs.files[id := fs.files[id].(data := data)]);
    SameTreeWellFormed(fs, r);
    if !Somewhere(fs.tree, id) {
      ViewIs(r, ViewOf(fs));
    }
    forall p | p in fs.tree && fs.tree[p] == id
      ensures ViewOf(r) == ViewOf(fs)[p := ViewOf(fs)[p].(data := data)]
    {
      ViewIs(r, ViewOf(fs)[p := ViewOf(fs)[p].(data := data)]);
    }
  }

  lemma {:induction false} RewrittenLost(w: World, h: nat, data: seq<byte>)
    requires Runs.Consistent(w) && h < |w.handles| && w.handles[h].id < |w.fs.files|
    ensures var k := CursorOf(w.fs.tree, w.handles, w.handles[h]);
            LostOf(Rewritten(w, h, data)) == if k.Lost? then LostOf(w)[k.leader := data] else LostOf(w)
  {
    hide CursorOf, WellFormed, Runs.Consistent, Somewhere, FirstOn;
    var w', id := Rewritten(w, h, data), w.handles[h].id;
    CursorParts(w.fs.tree, w.handles, w.handles[h]);
    LeaderExists(w.handles, h);
    var leader := FirstOn(w.handles, id);
    assert forall k: nat :: LeadsLost(w', k) <==> LeadsLost(w, k);
    assert forall k: nat :: LeadsLost(w, k) && k != leader ==> w.handles[k].id != id;
    assert LeadsLost(w, leader) <==> !Somewhere(w.fs.tree, id);
    if Somewhere(w.fs.tree, id) {
      assert LostOf(w') == LostOf(w);
    } else {
      assert LostOf(w') == LostOf(w)[leader := data];
    }
  }

  lemma {:induction false} RewrittenDesk(w: World, h: nat, data: seq<byte>)
    requires Runs.Consistent(w) && h < |w.handles| && w.handles[h].id < |w.fs.files| && |DataOf(w, h)| <= |data|
    ensures h < |DeskOf(w).cursors|
    ensures Runs.Consistent(Rewritten(w, h, data))
    ensures DeskOf(Rewritten(w, h, data)) == WithBytes(DeskOf(w), h, data)
  {
    hide CursorOf, WellFormed, Runs.Consistent, Somewhere, LostOf, ViewOf;
    var w' := Rewritten(w, h, data);
    RewrittenIsConsistent(w, h, data);
    ConsistentParts(w);
    RewrittenView(w.fs, w.handles[h].id, data);
    RewrittenLost(w, h, data);
    DeskView(w);
    DeskKeys(w);
    CursorParts(w.fs.tree, w.handles, w.handles[h]);
    assert DeskOf(w').cursors == DeskOf(w).cursors;
  }

  lemma {:induction false} DeskKeys(w: World)
    requires Runs.Consistent(w)
    ensures WellFormed(w.fs) && ViewOf(w.fs).Keys == w.fs.tree.Keys
  {
  }

  lemma {:induction false} ReadOnDesk(w: World, h: nat, count: nat)
    requires Runs.Consistent(w) && h < |w.handles|
    ensures StepOnDesk(w, ReadFrom(h, count)) && StepOnDesk(w, PeekAt(h, count))
  {
    hide WellFormed, CursorOf, Slice, Runs.Consistent, Step, BytesOf, DeskOf, DataOf;
    BytesExactly(w, h);
    ReadSteps(w, h, count);
    var bytes := Slice(DataOf(w, h), w.handles[h].position, count);
    AdvancedDesk(w, Next(w, ReadFrom(h, count)), h, |bytes|);
  }

  lemma {:induction false} WriteOnDesk(w: World, h: nat, bytes: seq<byte>)
    requires Runs.Consistent(w) && h < |w.handles|
    ensures StepOnDesk(w, WriteTo(h, bytes))
  {
    hide WellFormed, CursorOf, Written, Runs.Consistent, Step, BytesOf, DeskOf, WithBytes;
    BytesExactly(w, h);
    HandleIsInside(w, h);
    var k := w.handles[h];
    if k.mode == Read {
      WriteRefused(w, h, bytes);
    } else {
      var data := Written(DataOf(w, h), k.position, bytes);
      WrittenIsLonger(DataOf(w, h), k.position, bytes);
      WriteDone(w, h, bytes);
      RewrittenDesk(w, h, data);
      AdvancedDesk(Rewritten(w, h, data), Next(w, WriteTo(h, bytes)), h, |bytes|);
      WithBytesCursors(DeskOf(w), h, data);
    }
  }

  lemma {:induction false} WithBytesCursors(d: Desk, h: nat, bytes: seq<byte>)
    requires h < |d.cursors|
    ensures WithBytes(d, h, bytes).cursors == d.cursors
  {
  }

  lemma {:induction false} HandleIsInside(w: World, h: nat)
    requires Runs.Consistent(w) && h < |w.handles|
    ensures w.handles[h].id < |w.fs.files| && w.handles[h].position <= |DataOf(w, h)|
  {
    assert HandleInside(w, h);
  }

  lemma {:induction false} WriteRefused(w: World, h: nat, bytes: seq<byte>)
    requires Runs.Consistent(w) && h < |w.handles| && w.handles[h].mode == Read
    ensures Step(w, WriteTo(h, bytes)) == (w, Accepted(0))
  {
    hide WellFormed;
  }

  lemma {:induction false} WriteDone(w: World, h: nat, bytes: seq<byte>)
    requires Runs.Consistent(w) && h < |w.handles| && w.handles[h].mode != Read
    ensures w.handles[h].id < |w.fs.files|
    ensures var k := w.handles[h];
            Step(w, WriteTo(h, bytes)) ==
            (Rewritten(w, h, Written(DataOf(w, h), k.position, bytes)).(handles := w.handles[h := k.(position := k.position + |bytes|)]),
             Accepted(|bytes|))
  {
    hide WellFormed, Written;
    assert HandleInside(w, h);
  }

  lemma {:induction false} CloseOnDesk(w: World, h: nat)
    requires Runs.Consistent(w) && h < |w.handles|
    ensures StepOnDesk(w, CloseHandle(h))
  {
    hide WellFormed, ViewOf, LostOf;
  }

  /** Every command, whatever was removed before it, acts on the desk alone and replies as
      the desk tells. */
  lemma {:induction false} DeskStepCorrect(w: World, c: Command)
    requires Runs.Consistent(w) && Legal(w, c)
    ensures StepOnDesk(w, c)
  {
    hide StepOnDesk;
    match c
    case Mkdir(path) => MkdirOnDesk(w, path);
    case OpenFile(path, mode) => OpenOnDesk(w, path, mode);
    case RemovePath(path) => RemoveOnDesk(w, path);
    case RenamePath(from, to) => RenameOnDesk(w, from, to);
    case ReadFrom(h, count) => ReadOnDesk(w, h, count);
    case PeekAt(h, count) => ReadOnDesk(w, h, count);
    case WriteTo(h, bytes) => WriteOnDesk(w, h, bytes);
    case CloseHandle(h) => CloseOnDesk(w, h);
  }

  // --------------------------------------------------------------------- runs

  predicate DeskLegalRun(d: Desk, run: seq<Command>)
    decreases |run|
  {
    run == [] || (DeskLegal(d, run[0]) && DeskLegalRun(DeskStep(d, run[0]).0, run[1..]))
  }

  function DeskRun(d: Desk, run: seq<Command>): (Desk, seq<Reply>)
    requires DeskLegalRun(d, run)
    decreases |run|
  {
    if run == [] then (d, [])
    else
      var (d', reply) := DeskStep(d, run[0]);
      var (last, replies) := DeskRun(d', run[1..]);
      (last, [reply] + replies)
  }

  /** Every run, handle writes included, leaves the plain map, and gives exactly the replies,
      that the desk tells. */
  lemma {:induction false} RunOnDesk(w: World, run: seq<Command>)
    requires Runs.Consistent(w) && LegalRun(w, run)
    ensures DeskLegalRun(DeskOf(w), run) && Runs.Consistent(Run(w, run).0)
    ensures DeskRun(DeskOf(w), run) == (DeskOf(Run(w, run).0), Run(w, run).1)
    decreases |run|
  {
    hide Runs.Consistent, Legal, DeskStep, DeskOf, Step, DeskLegal;
    if run == [] {
      assert Run(w, run) == (w, []);
    } else {
      DeskStepCorrect(w, run[0]);
      RunOnDesk(Next(w, run[0]), run[1..]);
    }
  }
}
