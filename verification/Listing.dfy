/**
 Listing a directory: which entries the callback hears, in which order, and when it
 stops hearing them.
 */
module Listing {
  import opened PathUtility
  import opened Positions
  import opened TreeModel

  // ------------------------------------------------------------------ orders

  /** The key order of the child maps: characters compared from the left. */
  predicate NameLess(a: Name, b: Name) {
    b != "" && (a == "" || a[0] < b[0] || (a[0] == b[0] && NameLess(a[1..], b[1..])))
  }

  /** Depth-first order: an ancestor comes before its descendants, siblings in key order. */
  predicate Precedes(c: Position, d: Position) {
    d != [] && (c == [] || NameLess(c[0], d[0]) || (c[0] == d[0] && Precedes(c[1..], d[1..])))
  }

  lemma {:induction false} NameLessIsOrder(a: Name, b: Name, c: Name)
    ensures !NameLess(a, a)
    ensures a == b || NameLess(a, b) || NameLess(b, a)
    ensures NameLess(a, b) && NameLess(b, c) ==> NameLess(a, c)
    decreases |a|
  {
    if a == "" {
    } else {
      NameLessIsOrder(a[1..], if b == "" then "" else b[1..], if c == "" then "" else c[1..]);
      if b != "" && a[0] == b[0] && a[1..] == b[1..] {
        assert a == [a[0]] + a[1..] && b == [b[0]] + b[1..];
      }
    }
  }

  /** `a` and `b` agree before `k`, where `a` ends or has the smaller character. */
  predicate LessAt(a: Name, b: Name, k: nat) {
    k < |b| && k <= |a| && a[..k] == b[..k] && (k == |a| || a[k] < b[k])
  }

  /** The key order in one step: the first difference decides, and a proper prefix comes
      first. */
  lemma {:induction false} NameLessExactly(a: Name, b: Name)
    ensures NameLess(a, b) <==> exists k :: LessAt(a, b, k)
    decreases |a|
  {
    if b == "" || a == "" || a[0] != b[0] {
      LessAtFront(a, b);
    } else {
      NameLessExactly(a[1..], b[1..]);
      forall k: nat
        ensures LessAt(a[1..], b[1..], k) <==> LessAt(a, b, k + 1)
      {
        LessAtShifts(a, b, k);
      }
      if k: nat :| LessAt(a, b, k) {
        assert k != 0;
        assert LessAt(a[1..], b[1..], k - 1);
      }
      if k: nat :| LessAt(a[1..], b[1..], k) {
        assert LessAt(a, b, k + 1);
      }
    }
  }

  lemma {:induction false} LessAtFront(a: Name, b: Name)
    requires b == "" || a == "" || a[0] != b[0]
    ensures (exists k :: LessAt(a, b, k)) <==> b != "" && (a == "" || a[0] < b[0])
  {
    if b != "" && (a == "" || a[0] < b[0]) {
      assert LessAt(a, b, 0);
    }
    forall k: nat | LessAt(a, b, k)
      ensures k == 0
    {
      SharedFirst(a, b, k);
    }
  }

  lemma {:induction false} SharedFirst(a: Name, b: Name, k: nat)
    requires LessAt(a, b, k)
    ensures k == 0 || (a != "" && b != "" && a[0] == b[0])
  {
    if k > 0 {
      assert a[0] == a[..k][0] && b[0] == b[..k][0];
    }
  }

  lemma {:induction false} LessAtShifts(a: Name, b: Name, k: nat)
    requires a != "" && b != "" && a[0] == b[0]
    ensures LessAt(a[1..], b[1..], k) <==> LessAt(a, b, k + 1)
  {
    if k < |b| - 1 && k <= |a| - 1 {
      assert a[..k + 1] == [a[0]] + a[1..][..k];
      assert b[..k + 1] == [b[0]] + b[1..][..k];
    }
  }

  /** `c` and `d` agree before `k`, where `c` ends or has the name that is less. */
  ghost predicate ComesBeforeAt(c: Position, d: Position, k: nat) {
    && k < |d| && k <= |c| && c[..k] == d[..k]
    && (k == |c| || exists i :: LessAt(c[k], d[k], i))
  }

  /** The listing order in one step: the first name that differs decides, and an ancestor
      comes first. */
  lemma {:induction false} PrecedesExactly(c: Position, d: Position)
    ensures Precedes(c, d) <==> exists k :: ComesBeforeAt(c, d, k)
    decreases |c|
  {
    hide NameLess, LessAt;
    if d == [] {
      assert forall k :: !ComesBeforeAt(c, d, k);
    } else if c == [] {
      assert ComesBeforeAt(c, d, 0);
    } else {
      NameLessExactly(c[0], d[0]);
      PrecedesExactly(c[1..], d[1..]);
      NameLessIsOrder(c[0], d[0], d[0]);
      forall k: nat
        ensures c[0] == d[0] ==> (ComesBeforeAt(c[1..], d[1..], k) <==> ComesBeforeAt(c, d, k + 1))
      {
        ComesBeforeShifts(c, d, k);
      }
      if Precedes(c, d) {
        if NameLess(c[0], d[0]) {
          assert ComesBeforeAt(c, d, 0);
        } else {
          var k: nat :| ComesBeforeAt(c[1..], d[1..], k);
          assert ComesBeforeAt(c, d, k + 1);
        }
      }
      if k: nat :| ComesBeforeAt(c, d, k) {
        if k > 0 {
          assert c[0] == c[..k][0] == d[..k][0] == d[0];
          assert ComesBeforeAt(c[1..], d[1..], k - 1);
        }
      }
    }
  }

  lemma {:induction false} ComesBeforeShifts(c: Position, d: Position, k: nat)
    requires c != [] && d != []
    ensures c[0] == d[0] ==> (ComesBeforeAt(c[1..], d[1..], k) <==> ComesBeforeAt(c, d, k + 1))
  {
    hide LessAt;
    if k < |d| - 1 && k <= |c| - 1 {
      assert c[..k + 1] == [c[0]] + c[1..][..k];
      assert d[..k + 1] == [d[0]] + d[1..][..k];
    }
  }

  lemma {:induction false} PrecedesIrreflexive(c: Position)
    ensures !Precedes(c, c)
    decreases |c|
  {
    if c == [] {
    } else {
      NameLessIsOrder(c[0], c[0], c[0]);
      PrecedesIrreflexive(c[1..]);
    }
  }

  /** Below a common ancestor the first differing name decides. */
  lemma {:induction false} PrecedesBelow(c: Position, d: Position, e: Position)
    requires Above(c, d) && Above(c, e) && c != e
    requires c == d || NameLess(d[|c|], e[|c|])
    ensures Precedes(d, e)
    decreases |c|
  {
    if c == [] {
    } else {
      PrecedesBelow(c[1..], d[1..], e[1..]);
    }
  }

  // ------------------------------------------------------------- sorted names

  ghost predicate IsLeast(m: Name, names: set<Name>) {
    m in names && forall n :: n in names ==> n == m || NameLess(m, n)
  }

  lemma {:induction false} LeastExists(names: set<Name>) returns (m: Name)
    requires names != {}
    ensures IsLeast(m, names)
    decreases names
  {
    var n :| n in names;
    if names == {n} {
      m := n;
    } else {
      var rest := LeastExists(names - {n});
      NameLessIsOrder(n, rest, rest);
      m := if NameLess(n, rest) then n else rest;
      forall k | k in names
        ensures k == m || NameLess(m, k)
      {
        NameLessIsOrder(n, rest, k);
      }
    }
  }

  lemma {:induction false} LeastIsUnique(m: Name, n: Name, names: set<Name>)
    requires IsLeast(m, names) && IsLeast(n, names)
    ensures m == n
  {
    NameLessIsOrder(m, n, m);
  }

  ghost function Least(names: set<Name>): (m: Name)
    requires names != {}
    ensures IsLeast(m, names)
  {
    assert exists m :: IsLeast(m, names) by { var m := LeastExists(names); }
    var m :| IsLeast(m, names);
    m
  }

  ghost function SortedNames(names: set<Name>): (r: seq<Name>)
    ensures forall n :: n in r <==> n in names
    decreases names
  {
    if names == {} then [] else [Least(names)] + SortedNames(names - {Least(names)})
  }

  ghost predicate Ascending(names: seq<Name>) {
    forall i, j :: 0 <= i < j < |names| ==> NameLess(names[i], names[j])
  }

  lemma {:induction false} SortedNamesAscend(names: set<Name>)
    ensures Ascending(SortedNames(names))
    decreases names
  {
    if names != {} {
      var m := Least(names);
      SortedNamesAscend(names - {m});
      var rest := SortedNames(names - {m});
      forall j | 0 <= j < |rest|
        ensures NameLess(m, rest[j])
      {
        assert rest[j] in rest;
      }
    }
  }

  // --------------------------------------------------------------- the listing

  datatype DirectoryEntry = DirectoryEntry(name: Name, path: string, isDirectory: bool)

  ghost function ChildNames(fs: Fs, c: Position): set<Name> {
    set d | d in fs.tree && d != [] && Parent(d) == c :: Leaf(d)
  }

  lemma {:induction false} ChildNamesAre(fs: Fs, c: Position, n: Name)
    ensures n in ChildNames(fs, c) <==> c + [n] in fs.tree
  {
    assert Parent(c + [n]) == c && Leaf(c + [n]) == n;
    if n in ChildNames(fs, c) {
      var d :| d in fs.tree && d != [] && Parent(d) == c && Leaf(d) == n;
      assert d == c + [n];
    }
  }

  ghost function Subtree(fs: Fs, c: Position): set<Position> {
    set d | d in fs.tree && Above(c, d)
  }

  lemma {:induction false} SubtreeShrinks(fs: Fs, c: Position, n: Name)
    requires c in fs.tree
    ensures Subtree(fs, c + [n]) < Subtree(fs, c)
  {
    assert forall d :: Above(c + [n], d) ==> Above(c, d);
    assert c in Subtree(fs, c) && c !in Subtree(fs, c + [n]);
  }

  predicate IsDir(fs: Fs, c: Position)
  {
    c in fs.tree && fs.tree[c] < |fs.files| && fs.files[fs.tree[c]].isDirectory
  }

  /** The entries below `c` whose first name is one of `names`, in visiting order. */
  ghost function ListFrom(fs: Fs, c: Position, names: seq<Name>, recursive: bool): seq<Position>
    requires c in fs.tree
    requires forall n :: n in names ==> c + [n] in fs.tree
    decreases Subtree(fs, c), |names|
  {
    if names == [] then []
    else
      var d := c + [names[0]];
      assert d in fs.tree by { assert names[0] in names; }
      SubtreeShrinks(fs, c, names[0]);
      var below := if recursive && IsDir(fs, d) then ListAll(fs, d, recursive) else [];
      [d] + below + ListFrom(fs, c, names[1..], recursive)
  }

  ghost function ListAll(fs: Fs, c: Position, recursive: bool): seq<Position>
    requires c in fs.tree
    decreases Subtree(fs, c), |SortedNames(ChildNames(fs, c))| + 1
  {
    assert forall n :: n in SortedNames(ChildNames(fs, c)) ==> c + [n] in fs.tree by {
      forall n { ChildNamesAre(fs, c, n); }
    }
    ListFrom(fs, c, SortedNames(ChildNames(fs, c)), recursive)
  }

  /** `d` is below `c`, and every node strictly between is a directory that the
      recursion enters. */
  ghost predicate Visible(fs: Fs, c: Position, d: Position, recursive: bool) {
    && d in fs.tree && Above(c, d) && c != d
    && forall e :: Above(e, d) && Above(c, e) && e != c && e != d ==> recursive && IsDir(fs, e)
  }

  lemma {:induction false} VisibleByFirstStep(fs: Fs, c: Position, d: Position, recursive: bool)
    requires PrefixClosed(fs.tree) && Above(c, d) && c != d
    ensures var next := c + [d[|c|]];
            Visible(fs, c, d, recursive) <==>
            d in fs.tree && (d == next || (recursive && IsDir(fs, next) && Visible(fs, next, d, recursive)))
  {
    var next := c + [d[|c|]];
    assert Above(next, d) && Above(c, next);
    if Visible(fs, c, d, recursive) && d != next {
      forall e | Above(e, d) && Above(next, e) && e != next && e != d
        ensures recursive && IsDir(fs, e)
      {
        assert Above(c, e);
      }
    }
    if d in fs.tree && (d == next || (recursive && IsDir(fs, next) && Visible(fs, next, d, recursive))) {
      forall e | Above(e, d) && Above(c, e) && e != c && e != d
        ensures recursive && IsDir(fs, e)
      {
        assert e[|c|] == d[|c|];
        assert Above(next, e);
      }
    }
  }

  lemma {:induction false} VisibleIsBelow(fs: Fs, c: Position, d: Position, recursive: bool)
    ensures Visible(fs, c, d, recursive) ==> d in fs.tree && Above(c, d) && c != d
  {
  }

  /** Which positions the first child adds to the listing of the others. */
  lemma {:induction false} ListFromMembers(fs: Fs, c: Position, names: seq<Name>, recursive: bool, d: Position)
    requires c in fs.tree && names != []
    requires forall n :: n in names ==> c + [n] in fs.tree
    ensures names[0] in names && c + [names[0]] in fs.tree
    ensures var next := c + [names[0]];
            d in ListFrom(fs, c, names, recursive) <==>
            || d == next
            || (recursive && IsDir(fs, next) && d in ListAll(fs, next, recursive))
            || d in ListFrom(fs, c, names[1..], recursive)
  {
    hide ListAll, IsDir;
  }

  lemma {:induction false} ListFromExact(fs: Fs, c: Position, names: seq<Name>, recursive: bool, d: Position)
    requires PrefixClosed(fs.tree) && c in fs.tree
    requires forall n :: n in names ==> c + [n] in fs.tree
    ensures d in ListFrom(fs, c, names, recursive) <==> Visible(fs, c, d, recursive) && d[|c|] in names
    decreases Subtree(fs, c), |names|
  {
    if names == [] {
    } else {
      hide Visible, ListFrom, ListAll, IsDir, PrefixClosed;
      var next := c + [names[0]];
      ListFromMembers(fs, c, names, recursive, d);
      SubtreeShrinks(fs, c, names[0]);
      ListFromExact(fs, c, names[1..], recursive, d);
      if recursive && IsDir(fs, next) {
        ListAllExact(fs, next, recursive, d);
      }
      FirstStepIs(fs, c, names, recursive, d);
    }
  }

  lemma {:induction false} FirstStepIs(fs: Fs, c: Position, names: seq<Name>, recursive: bool, d: Position)
    requires PrefixClosed(fs.tree) && names != [] && c + [names[0]] in fs.tree
    ensures var next := c + [names[0]];
            (Visible(fs, c, d, recursive) && d[|c|] in names) <==>
            || d == next
            || (recursive && IsDir(fs, next) && Visible(fs, next, d, recursive))
            || (Visible(fs, c, d, recursive) && d[|c|] in names[1..])
  {
    hide IsDir, Visible, PrefixClosed;
    var next := c + [names[0]];
    VisibleIsBelow(fs, c, d, recursive);
    VisibleIsBelow(fs, next, d, recursive);
    if Above(c, d) && c != d {
      VisibleByFirstStep(fs, c, d, recursive);
      assert d[|c|] == names[0] <==> Above(next, d);
      assert d[|c|] in names <==> d[|c|] == names[0] || d[|c|] in names[1..];
    }
  }

  /** The listing holds exactly the visible descendants. */
  lemma {:induction false} ListAllExact(fs: Fs, c: Position, recursive: bool, d: Position)
    requires PrefixClosed(fs.tree) && c in fs.tree
    ensures d in ListAll(fs, c, recursive) <==> Visible(fs, c, d, recursive)
    decreases Subtree(fs, c), |SortedNames(ChildNames(fs, c))| + 1
  {
    var names := SortedNames(ChildNames(fs, c));
    forall n
      ensures n in names <==> c + [n] in fs.tree
    {
      ChildNamesAre(fs, c, n);
    }
    ListFromExact(fs, c, names, recursive, d);
    if Visible(fs, c, d, recursive) {
      assert Above(c + [d[|c|]], d);
    }
  }

  ghost predicate InOrder(r: seq<Position>) {
    forall i, j :: 0 <= i < j < |r| ==> Precedes(r[i], r[j])
  }

  lemma {:induction false} ListFromInOrder(fs: Fs, c: Position, names: seq<Name>, recursive: bool)
    requires PrefixClosed(fs.tree) && c in fs.tree && Ascending(names)
    requires forall n :: n in names ==> c + [n] in fs.tree
    ensures InOrder(ListFrom(fs, c, names, recursive))
    decreases Subtree(fs, c), |names|
  {
    if names == [] {
    } else {
      var next := c + [names[0]];
      assert next in fs.tree by { assert names[0] in names; }
      SubtreeShrinks(fs, c, names[0]);
      var below := if recursive && IsDir(fs, next) then ListAll(fs, next, recursive) else [];
      var rest := ListFrom(fs, c, names[1..], recursive);
      ListFromInOrder(fs, c, names[1..], recursive);
      if recursive && IsDir(fs, next) {
        ListAllInOrder(fs, next, recursive);
      }
      forall d | d in [next] + below
        ensures Above(next, d) && (d in below ==> d != next)
      {
        if d in below {
          ListAllExact(fs, next, recursive, d);
        }
      }
      forall d, e | d in [next] + below && e in rest
        ensures Precedes(d, e)
      {
        ListFromExact(fs, c, names[1..], recursive, e);
        var k :| 0 <= k < |names[1..]| && names[1..][k] == e[|c|];
        assert names[1..][k] == names[k + 1];
        assert Above(next, d);
        PrecedesBelow(c, d, e);
      }
      forall d | d in below
        ensures Precedes(next, d)
      {
        PrecedesBelow(next, next, d);
      }
      InOrderConcat([next], below);
      InOrderConcat([next] + below, rest);
    }
  }

  lemma {:induction false} InOrderConcat(a: seq<Position>, b: seq<Position>)
    requires InOrder(a) && InOrder(b)
    requires forall d, e :: d in a && e in b ==> Precedes(d, e)
    ensures InOrder(a + b)
  {
  }

  /** The listing is strictly ascending in depth-first order: parents before children,
      siblings in key order, and no entry twice. */
  lemma {:induction false} ListAllInOrder(fs: Fs, c: Position, recursive: bool)
    requires PrefixClosed(fs.tree) && c in fs.tree
    ensures InOrder(ListAll(fs, c, recursive))
    ensures forall i, j :: 0 <= i < j < |ListAll(fs, c, recursive)| ==> ListAll(fs, c, recursive)[i] != ListAll(fs, c, recursive)[j]
    decreases Subtree(fs, c), |SortedNames(ChildNames(fs, c))| + 1
  {
    var names := SortedNames(ChildNames(fs, c));
    forall n
      ensures n in names <==> c + [n] in fs.tree
    {
      ChildNamesAre(fs, c, n);
    }
    SortedNamesAscend(ChildNames(fs, c));
    ListFromInOrder(fs, c, names, recursive);
    forall d
      ensures !Precedes(d, d)
    {
      PrecedesIrreflexive(d);
    }
  }

  /** In the terms of names and characters: of two entries the earlier one is an ancestor, or
      its name is the less one where they first differ. */
  lemma {:induction false} ListedInKeyOrder(fs: Fs, c: Position, recursive: bool, i: nat, j: nat)
    requires PrefixClosed(fs.tree) && c in fs.tree && i < j < |ListAll(fs, c, recursive)|
    ensures exists k :: ComesBeforeAt(ListAll(fs, c, recursive)[i], ListAll(fs, c, recursive)[j], k)
  {
    hide ListAll, Precedes, ComesBeforeAt;
    ListAllInOrder(fs, c, recursive);
    PrecedesExactly(ListAll(fs, c, recursive)[i], ListAll(fs, c, recursive)[j]);
  }

  /** Siblings "a" and "b" are shown in this order, after any in upper case. */
  lemma {:induction false} KeyOrderExample()
    ensures NameLess("a", "b") && !NameLess("b", "a") && NameLess("a", "ab") && NameLess("B", "a")
  {
  }

  /** No path passes through a file. */
  ghost predicate OnlyDirectoriesHaveChildren(fs: Fs) {
    forall c :: c in fs.tree && c != [] ==> IsDir(fs, Parent(c))
  }

  /** Then a recursive listing of the root holds exactly the existing positions but the root. */
  lemma {:induction false} WholeTreeListed(fs: Fs, d: Position)
    requires WellFormed(fs) && OnlyDirectoriesHaveChildren(fs)
    ensures d in ListAll(fs, [], true) <==> d in fs.tree && d != []
  {
    ListAllExact(fs, [], true, d);
    if d in fs.tree && d != [] {
      assert Above([], d);
      forall e | Above(e, d) && e != [] && e != d
        ensures IsDir(fs, e)
      {
        var child := d[..|e| + 1];
        assert Above(child, d) && Parent(child) == e;
      }
    }
  }

  /** And only then: otherwise some existing position is never visited. */
  lemma {:induction false} WholeTreeListedExactly(fs: Fs)
    requires WellFormed(fs)
    ensures (forall d :: d in ListAll(fs, [], true) <==> d in fs.tree && d != []) <==> OnlyDirectoriesHaveChildren(fs)
  {
    if OnlyDirectoriesHaveChildren(fs) {
      forall d
        ensures d in ListAll(fs, [], true) <==> d in fs.tree && d != []
      {
        WholeTreeListed(fs, d);
      }
    } else {
      var c :| c in fs.tree && c != [] && !IsDir(fs, Parent(c));
      ListAllExact(fs, [], true, c);
      assert Above(Parent(c), c) && Above([], Parent(c));
      assert Parent(c) in fs.tree;
    }
  }

  /** The recursive listing of the root shows an entry with this path. */
  ghost predicate Shows(fs: Fs, p: string)
    requires WellFormed(fs)
  {
    exists d :: d in ListAll(fs, [], true) && PathOf(d) == p
  }

  /** The paths it shows are just the canonical ones that exist, but the root's own. */
  ghost predicate ShowsWhatExists(fs: Fs)
    requires WellFormed(fs)
  {
    forall p :: Shows(fs, p) <==> Canonical(p) && Components(p) in fs.tree && p != "/"
  }

  lemma {:induction false} NamedPositionsShown(fs: Fs)
    requires WellFormed(fs) && OnlyDirectoriesHaveChildren(fs) && AllNamed(fs)
    ensures ShowsWhatExists(fs)
  {
    hide Components, PathOf, Canonical, ListAll, OnlyDirectoriesHaveChildren;
    forall p
      ensures Shows(fs, p) <==> Canonical(p) && Components(p) in fs.tree && p != "/"
    {
      if Shows(fs, p) {
        var d :| d in ListAll(fs, [], true) && PathOf(d) == p;
        WholeTreeListed(fs, d);
        PathOfIsFoundExactly(d);
        PathOfIsCanonical(d);
      }
      if Canonical(p) && Components(p) in fs.tree && p != "/" {
        WholeTreeListed(fs, Components(p));
        PrintInvertsSplitExactly(p);
        RootPrints();
      }
    }
  }

  lemma {:induction false} RootPrints()
    ensures PathOf([]) == "/"
  {
  }

  lemma {:induction false} ChildOfFileHidden(fs: Fs, c: Position)
    requires WellFormed(fs) && AllNamed(fs) && c in fs.tree && c != [] && !IsDir(fs, Parent(c))
    ensures !ShowsWhatExists(fs)
  {
    hide Components, PathOf, Canonical, ListAll, IsDir;
    var p := PathOf(c);
    PathOfIsCanonical(c);
    PathOfIsFoundExactly(c);
    if Shows(fs, p) {
      var d :| d in ListAll(fs, [], true) && PathOf(d) == p;
      ListAllExact(fs, [], true, d);
      PathOfIsFoundExactly(d);
      assert d == c;
      assert Above(Parent(c), c) && Above([], Parent(c)) && Parent(c) in fs.tree;
      RootIsDirectory(fs);
    }
  }

  lemma {:induction false} RootIsDirectory(fs: Fs)
    requires WellFormed(fs)
    ensures IsDir(fs, [])
  {
  }

  /** An empty name shows as the path of another entry. */
  lemma {:induction false} EmptyNameShows(fs: Fs, c: Position, i: nat)
    requires WellFormed(fs) && OnlyDirectoriesHaveChildren(fs)
    requires c in fs.tree && i < |c| && c[i] == ""
    ensures !ShowsWhatExists(fs)
  {
    hide Components, PathOf, ListAll, OnlyDirectoriesHaveChildren;
    var d := c[..i + 1];
    assert Above(d, c);
    WholeTreeListed(fs, d);
    assert d == d[..i] + [""];
    PathOfChild(d[..i], "");
    assert SlashFree(d[..i]) by { assert Above(d[..i], c); }
    PathOfStarts(d[..i]);
    assert EndsWithSeparator(PathOf(d));
    assert Shows(fs, PathOf(d));
  }

  /** With no empty name the listing of the root shows exactly the existing canonical
      paths if and only if files are childless. */
  lemma {:induction false} ShowsWhatExistsGivenNames(fs: Fs)
    requires WellFormed(fs) && AllNamed(fs)
    ensures ShowsWhatExists(fs) <==> OnlyDirectoriesHaveChildren(fs)
  {
    hide ShowsWhatExists, IsDir;
    if OnlyDirectoriesHaveChildren(fs) {
      NamedPositionsShown(fs);
    } else {
      var c :| c in fs.tree && c != [] && !IsDir(fs, Parent(c));
      ChildOfFileHidden(fs, c);
    }
  }

  /** With files childless it does if and only if no name is empty. */
  lemma {:induction false} ShowsWhatExistsGivenChildlessFiles(fs: Fs)
    requires WellFormed(fs) && OnlyDirectoriesHaveChildren(fs)
    ensures ShowsWhatExists(fs) <==> AllNamed(fs)
  {
    hide ShowsWhatExists, OnlyDirectoriesHaveChildren;
    if AllNamed(fs) {
      NamedPositionsShown(fs);
    } else {
      var c :| c in fs.tree && !NoEmptyName(c);
      var i :| 0 <= i < |c| && c[i] == "";
      EmptyNameShows(fs, c, i);
    }
  }

  // ------------------------------------------------------------- the callback

  /** What a callback hears of `entries` after `heard`: its answer may depend on all it
      has heard, and a false answer ends the delivery. */
  function Deliver<E>(entries: seq<E>, heard: seq<E>, accept: seq<E> -> bool): (seq<E>, bool)
    decreases |entries|
  {
    if entries == [] then (heard, true)
    else
      var now := heard + [entries[0]];
      if accept(now) then Deliver(entries[1..], now, accept) else (now, false)
  }

  lemma {:induction false} DeliverConcat<E>(a: seq<E>, b: seq<E>, heard: seq<E>, accept: seq<E> -> bool)
    ensures Deliver(a + b, heard, accept)
         == (if Deliver(a, heard, accept).1 then Deliver(b, Deliver(a, heard, accept).0, accept) else Deliver(a, heard, accept))
    decreases |a|
  {
    if a == [] {
      assert a + b == b;
    } else {
      assert (a + b)[1..] == a[1..] + b;
      DeliverConcat(a[1..], b, heard + [a[0]], accept);
    }
  }

  /** The callback hears a prefix of the entries, up to and including its first false
      answer; the delivery fails exactly when there is one. */
  lemma {:induction false} DeliverStopsAtFirstFalse<E>(entries: seq<E>, heard: seq<E>, accept: seq<E> -> bool)
    ensures var (all, ok) := Deliver(entries, heard, accept);
            && |heard| <= |all| <= |heard| + |entries|
            && all == heard + entries[..|all| - |heard|]
            && (forall k :: |heard| < k < |all| ==> accept(all[..k]))
            && (ok ==> |all| == |heard| + |entries| && (entries != [] ==> accept(all)))
            && (!ok ==> entries != [] && |all| > |heard| && !accept(all))
    decreases |entries|
  {
    if entries == [] {
      assert heard + entries[..0] == heard;
    } else {
      var now := heard + [entries[0]];
      if accept(now) {
        DeliverStopsAtFirstFalse(entries[1..], now, accept);
        var all := Deliver(entries[1..], now, accept).0;
        assert all[..|now|] == now;
        assert entries[..|all| - |heard|] == [entries[0]] + entries[1..][..|all| - |now|];
      } else {
        assert entries[..1] == [entries[0]];
      }
    }
  }
}
