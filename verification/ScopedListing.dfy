/**
 What a client sees that lists the root of its scope, beside what it can find there.
 */
module ScopedListing {
  import opened Positions
  import opened TreeModel
  import opened Listing
  import opened DirectoryWalk
  import opened ScopePaths
  import opened ScopedFileSystem

  /** The entries a recursive listing of the scope's own root delivers to a callback that
      wants them all. */
  ghost function RootEntries(fs: Fs, root: string): seq<DirectoryEntry> {
    var c := Components(ScopePath(root, "/"));
    if c !in fs.tree then []
    else ExposeAll(root, if IsDir(fs, c) then Entries(fs, ListAll(fs, c, true)) else [EntryAt(fs, c)])
  }

  ghost predicate ScopeShows(fs: Fs, root: string, p: string) {
    exists i :: 0 <= i < |RootEntries(fs, root)| && RootEntries(fs, root)[i].path == p
  }

  /** The scope shows just the canonical paths that it says exist, but its root's own. */
  ghost predicate ScopeShowsWhatExists(fs: Fs, root: string) {
    forall p :: ScopeShows(fs, root, p) <==> Canonical(p) && Components(ScopePath(root, p)) in fs.tree && p != "/"
  }

  lemma {:induction false} EntriesAre(fs: Fs, cs: seq<Position>)
    ensures |Entries(fs, cs)| == |cs|
    ensures forall i :: 0 <= i < |cs| ==> Entries(fs, cs)[i] == EntryAt(fs, cs[i])
    decreases |cs|
  {
    hide EntryAt;
    if cs == [] {
    } else {
      EntriesAre(fs, cs[1..]);
    }
  }

  /** A callback that never declines hears everything. */
  lemma {:induction false} WillingCallbackHearsAll<E>(entries: seq<E>, accept: seq<E> -> bool)
    requires forall h :: accept(h)
    ensures Deliver(entries, [], accept) == (entries, true)
  {
    DeliverStopsAtFirstFalse(entries, [], accept);
    var all := Deliver(entries, [], accept).0;
    assert all == [] + entries[..|all|];
    assert Deliver(entries, [], accept).1 ==> all == entries;
  }

  lemma {:induction false} ScopeRoot(r: Position)
    requires SlashFree(r) && NoEmptyName(r)
    ensures Components(ScopePath(PathOf(r), "/")) == r
  {
    CanonicalScopeIsSubtree(r, []);
    assert r + [] == r && PathOf([]) == "/";
    PathOfIsFoundExactly(r);
  }

  lemma {:induction false} LocalLookup(r: Position, s: Position)
    requires SlashFree(r) && NoEmptyName(r) && SlashFree(s) && NoEmptyName(s)
    ensures Components(ScopePath(PathOf(r), PathOf(s))) == r + s
    ensures Canonical(PathOf(s)) && (PathOf(s) == "/" <==> s == [])
    ensures forall fs :: ExposeEntry(PathOf(r), EntryAt(fs, r + s)).path == PathOf(s)
  {
    CanonicalScopeIsSubtree(r, s);
    PathOfIsCanonical(s);
    NamesJoin(r, s);
    PathOfIsFoundExactly(r + s);
    forall fs
      ensures ExposeEntry(PathOf(r), EntryAt(fs, r + s)).path == PathOf(s)
    {
      ExposedEntryIsLocal(fs, r, s);
    }
  }

  lemma {:induction false} NamesJoin(r: Position, s: Position)
    ensures SlashFree(r + s) <==> SlashFree(r) && SlashFree(s)
    ensures NoEmptyName(r + s) <==> NoEmptyName(r) && NoEmptyName(s)
  {
    assert forall i :: 0 <= i < |r| ==> (r + s)[i] == r[i];
    assert forall i :: 0 <= i < |s| ==> (r + s)[|r| + i] == s[i];
  }

  /** With files childless all that is below a directory is visible from it. */
  lemma {:induction false} BelowIsListed(fs: Fs, c: Position, d: Position)
    requires WellFormed(fs) && OnlyDirectoriesHaveChildren(fs) && c in fs.tree
    ensures d in ListAll(fs, c, true) <==> d in fs.tree && Above(c, d) && d != c
  {
    hide ListAll;
    ListAllExact(fs, c, true, d);
    if d in fs.tree && Above(c, d) && d != c {
      forall e | Above(e, d) && Above(c, e) && e != c && e != d
        ensures IsDir(fs, e)
      {
        var child := d[..|e| + 1];
        assert Above(child, d) && Parent(child) == e && child in fs.tree;
      }
    }
  }

  lemma {:induction false} DirectoryShows(fs: Fs, r: Position, p: string)
    requires WellFormed(fs) && OnlyDirectoriesHaveChildren(fs) && AllNamed(fs) && IsDir(fs, r)
    ensures ScopeShows(fs, PathOf(r), p) <==> Canonical(p) && Components(ScopePath(PathOf(r), p)) in fs.tree && p != "/"
  {
    hide Components, ScopePath, PathOf, EntryAt, ListAll, Entries, ExposeAll, Canonical, ExposeEntry;
    ScopeRoot(r);
    var cs, es := ListAll(fs, r, true), RootEntries(fs, PathOf(r));
    EntriesAre(fs, cs);
    if ScopeShows(fs, PathOf(r), p) {
      var i :| 0 <= i < |es| && es[i].path == p;
      BelowIsListed(fs, r, cs[i]);
      var s := cs[i][|r|..];
      assert cs[i] == r + s && cs[i] in cs && s != [];
      NamesJoin(r, s);
      LocalLookup(r, s);
    }
    if Canonical(p) && Components(ScopePath(PathOf(r), p)) in fs.tree && p != "/" {
      var s := Components(p);
      NamedString(p);
      LocalLookup(r, s);
      BelowIsListed(fs, r, r + s);
      var i :| 0 <= i < |cs| && cs[i] == r + s;
      assert es[i].path == p;
    }
  }

  lemma {:induction false} NamedString(p: string)
    requires Canonical(p)
    ensures SlashFree(Components(p)) && NoEmptyName(Components(p)) && PathOf(Components(p)) == p
    ensures Components(p) == [] ==> p == "/"
  {
    PrintInvertsSplitExactly(p);
    ComponentsSlashFree(p);
    PathOfIsFoundExactly(Components(p));
    PathOfIsCanonical(Components(p));
  }

  lemma {:induction false} AbsentShows(fs: Fs, r: Position, p: string)
    requires WellFormed(fs) && r !in fs.tree && SlashFree(r) && NoEmptyName(r)
    ensures !ScopeShows(fs, PathOf(r), p)
    ensures Canonical(p) ==> Components(ScopePath(PathOf(r), p)) !in fs.tree
  {
    hide Components, ScopePath, PathOf, Canonical;
    ScopeRoot(r);
    if Canonical(p) {
      NamedString(p);
      LocalLookup(r, Components(p));
      assert Above(r, r + Components(p));
    }
  }

  lemma {:induction false} FileShows(fs: Fs, r: Position)
    requires WellFormed(fs) && r in fs.tree && !IsDir(fs, r) && SlashFree(r) && NoEmptyName(r)
    ensures ScopeShows(fs, PathOf(r), "/")
  {
    hide Components, ScopePath, PathOf, EntryAt, ExposeEntry;
    ScopeRoot(r);
    LocalLookup(r, []);
    RootPrinted();
    assert r + [] == r;
    assert RootEntries(fs, PathOf(r))[0].path == "/";
  }

  lemma {:induction false} RootPrinted()
    ensures PathOf([]) == "/"
  {
  }

  /** Through a canonical root, with files childless and no empty name, listing the scope
      shows exactly the canonical local paths that its `exists` accepts, if and only if the
      scope is not on a file. */
  lemma {:induction false} ScopeShowsWhatExistsExactly(fs: Fs, r: Position)
    requires WellFormed(fs) && OnlyDirectoriesHaveChildren(fs) && AllNamed(fs) && SlashFree(r) && NoEmptyName(r)
    ensures ScopeShowsWhatExists(fs, PathOf(r)) <==> (r in fs.tree ==> IsDir(fs, r))
  {
    hide ScopeShows, Components, ScopePath, PathOf, Canonical, OnlyDirectoriesHaveChildren, AllNamed, IsDir, WellFormed;
    if r in fs.tree && !IsDir(fs, r) {
      FileShows(fs, r);
    } else {
      forall p
        ensures ScopeShows(fs, PathOf(r), p) <==> Canonical(p) && Components(ScopePath(PathOf(r), p)) in fs.tree && p != "/"
      {
        if r in fs.tree {
          DirectoryShows(fs, r, p);
        } else {
          AbsentShows(fs, r, p);
        }
      }
    }
  }
}
