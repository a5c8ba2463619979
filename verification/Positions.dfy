/**
 How the in-memory tree reads a path string: a sequence of component names.
 `Components` is what the lookup loop walks, `EntryOf` is the parent/name pair
 that `remove` and `rename` act on, and `PathOf` prints a position back.
 */
module Positions {
  import opened PathUtility

  type Name = string
  type Position = seq<Name>

  function Parent(c: Position): Position
    requires c != []
  {
    c[..|c| - 1]
  }

  function Leaf(c: Position): Name
    requires c != []
  {
    c[|c| - 1]
  }

  /** `d` is `c` itself or one of its ancestors. */
  predicate Above(d: Position, c: Position) {
    d <= c
  }

  /** The names cut out of `p` at its separators; a final empty name is dropped. */
  function Split(p: string): Position
    decreases |p|
  {
    if p == "" then []
    else
      var next := NextSeparator(p, 0);
      if next == |p| then [p] else [p[..next]] + Split(p[next + 1..])
  }

  function Components(path: string): Position {
    Split(DropOneSeparator(path))
  }

  /** The position whose parent link `remove(path)` and `rename(path, _)` cut. */
  function EntryOf(path: string): Position {
    Components(GetDirName(path)) + [GetFileName(path)]
  }

  function PathOf(c: Position): string {
    if c == [] then "/" else JoinTwo(PathOf(Parent(c)), Leaf(c))
  }

  lemma {:induction false} PathOfChild(c: Position, name: Name)
    ensures PathOf(c + [name]) == JoinTwo(PathOf(c), name)
  {
    assert Parent(c + [name]) == c;
  }

  predicate SlashFree(c: Position) {
    forall i :: 0 <= i < |c| ==> '/' !in c[i]
  }

  predicate NoEmptyName(c: Position) {
    forall i :: 0 <= i < |c| ==> c[i] != ""
  }

  function DropEmptyNames(c: Position): Position {
    if c == [] then []
    else DropEmptyNames(Parent(c)) + (if Leaf(c) == "" then [] else [Leaf(c)])
  }

  /** A leading separator, no doubled one, and no trailing one. */
  predicate Canonical(p: string) {
    && StartsWithSeparator(p)
    && (p == "/" || !EndsWithSeparator(p))
    && forall i :: 0 <= i < |p| - 1 ==> p[i] != '/' || p[i + 1] != '/'
  }

  lemma {:induction false} SplitSlashFree(p: string)
    ensures SlashFree(Split(p))
    decreases |p|
  {
    var next := NextSeparator(p, 0);
    if p != "" && next < |p| {
      SplitSlashFree(p[next + 1..]);
    }
  }

  lemma {:induction false} SplitName(name: string)
    requires '/' !in name
    ensures Split(name) == if name == "" then [] else [name]
  {
    if name != "" {
      assert NextSeparator(name, 0) == |name|;
    }
  }

  lemma {:induction false} SplitLeadingName(name: string, rest: string)
    requires '/' !in name
    ensures Split(name + "/" + rest) == [name] + Split(rest)
  {
    var p := name + "/" + rest;
    var next := NextSeparator(p, 0);
    assert p[|name|] == '/';
    assert forall k :: 0 <= k < |name| ==> p[k] == name[k] && name[k] in name;
    assert next == |name|;
    assert p[..next] == name && p[next + 1..] == rest;
  }

  /** The first name, and what is left after its separator. */
  lemma {:induction false} SplitFirst(p: string)
    requires p != ""
    ensures var next := NextSeparator(p, 0);
            && '/' !in p[..next]
            && (next == |p| ==> p[..next] == p && Split(p) == [p])
            && (next < |p| ==> p == p[..next] + "/" + p[next + 1..] && Split(p) == [p[..next]] + Split(p[next + 1..]))
  {
  }

  lemma {:induction false} SeparatorFound(p: string)
    requires EndsWithSeparator(p)
    ensures NextSeparator(p, 0) < |p|
  {
  }

  /** Splitting is a homomorphism at every separator. */
  lemma {:induction false} SplitAppend(p: string, q: string)
    requires p == "" || EndsWithSeparator(p)
    ensures Split(p + q) == Split(p) + Split(q)
    decreases |p|
  {
    if p == "" {
      assert p + q == q;
    } else {
      hide Split;
      SplitFirst(p);
      SeparatorFound(p);
      var next := NextSeparator(p, 0);
      var name, rest := p[..next], p[next + 1..];
      calc {
        Split(p + q);
        { ConcatAssociative(name + "/", rest, q); SplitLeadingName(name, rest + q); }
        [name] + Split(rest + q);
        { SplitAppend(rest, q); ConcatAssociative([name], Split(rest), Split(q)); }
        ([name] + Split(rest)) + Split(q);
        Split(p) + Split(q);
      }
    }
  }

  /** A trailing separator after a name is invisible to the splitter. */
  lemma {:induction false} SplitTrailing(p: string)
    requires p != "" && !EndsWithSeparator(p)
    ensures Split(p + "/") == Split(p)
    decreases |p|
  {
    SplitName("");
    hide Split;
    SplitFirst(p);
    var next := NextSeparator(p, 0);
    var name := p[..next];
    if next == |p| {
      assert p + "/" == name + "/" + "";
      SplitLeadingName(name, "");
    } else {
      var rest := p[next + 1..];
      ConcatAssociative(name + "/", rest, "/");
      SplitLeadingName(name, rest + "/");
      assert rest != "" && rest[|rest| - 1] == p[|p| - 1];
      SplitTrailing(rest);
    }
  }

  lemma {:induction false} SplitBase(p: string)
    ensures Split(Base(p)) == Split(p)
  {
    if p != "" && !EndsWithSeparator(p) {
      SplitTrailing(p);
    }
  }

  /** Appending below a prefix appends the names, whatever slashes the prefix carries. */
  lemma {:induction false} ComponentsBelow(root: string, rel: string)
    requires root != "" || !StartsWithSeparator(rel)
    ensures Components(Base(root) + rel) == Components(root) + Split(rel)
  {
    hide Split;
    if root == "" {
      assert Base(root) + rel == rel;
      SplitName("");
    } else {
      var base := DropOneSeparator(Base(root));
      DropFromConcat(Base(root), rel);
      SplitAppend(base, rel);
      SplitDroppedBase(root);
    }
  }

  lemma {:induction false} SplitDroppedBase(root: string)
    requires root != ""
    ensures Split(DropOneSeparator(Base(root))) == Components(root)
  {
    hide Split;
    if !EndsWithSeparator(root) {
      DropFromConcat(root, "/");
      SplitBase(DropOneSeparator(root));
    }
  }

  lemma {:induction false} ComponentsAround(dir: string, file: string)
    ensures Components(dir + "/" + file) == Components(dir) + (if EndsWithSeparator(dir) then [""] else []) + Split(file)
  {
    hide Split;
    SplitName("");
    if dir == "" {
      assert DropOneSeparator(dir + "/" + file) == file;
    } else if EndsWithSeparator(dir) {
      assert dir + "/" + file == Base(dir) + ("/" + file);
      ComponentsBelow(dir, "/" + file);
      assert "" + "/" + file == "/" + file;
      SplitLeadingName("", file);
    } else {
      ComponentsBelow(dir, file);
    }
  }

  /** The three shapes of a path around its last separator. */
  lemma {:induction false} ComponentsByDirName(path: string)
    ensures var dir, file := GetDirName(path), GetFileName(path);
            Components(path) == Components(dir) + (if EndsWithSeparator(dir) then [""] else []) + Split(file)
  {
    hide Split, LastSeparator, GetDirName, GetFileName;
    DirAndFileName(path);
    SplitName("");
    if LastSeparator(path) == -1 {
      assert DropOneSeparator(path) == path by { NoSeparatorAtFront(path); }
    } else {
      ComponentsAround(GetDirName(path), GetFileName(path));
    }
  }

  lemma {:induction false} NoSeparatorAtFront(path: string)
    requires LastSeparator(path) == -1
    ensures !StartsWithSeparator(path)
  {
  }

  /** `remove` and `rename` cut the link of the very node that lookup finds exactly
      when the last two names are both empty or both non-empty. */
  lemma {:induction false} EntryIsWhatLookupFinds(path: string)
    ensures EntryOf(path) == Components(path)
      <==> (GetFileName(path) == "" <==> EndsWithSeparator(GetDirName(path)))
  {
    hide Split, LastSeparator, GetDirName, GetFileName, Components;
    var dir, file := GetDirName(path), GetFileName(path);
    DirAndFileName(path);
    ComponentsByDirName(path);
    SplitName(file);
    assert file != "" && EndsWithSeparator(dir) ==> |EntryOf(path)| != |Components(path)|;
    assert file == "" && !EndsWithSeparator(dir) ==> |EntryOf(path)| != |Components(path)|;
  }

  lemma {:induction false} CanonicalEntry(path: string)
    requires Canonical(path) && path != "/"
    ensures EntryOf(path) == Components(path)
  {
    DirAndFileName(path);
    var k := LastSeparator(path);
    assert k >= 0 && k < |path| - 1;
    assert k > 0 ==> path[k] == '/' && path[k - 1] != '/';
    EntryIsWhatLookupFinds(path);
  }

  lemma {:induction false} DirNameIsPrefix(path: string)
    ensures Components(GetDirName(path)) <= Components(path)
  {
    ComponentsByDirName(path);
  }

  lemma {:induction false} ComponentsSlashFree(path: string)
    ensures SlashFree(Components(path))
    ensures SlashFree(EntryOf(path))
  {
    SplitSlashFree(DropOneSeparator(path));
    SplitSlashFree(DropOneSeparator(GetDirName(path)));
    DirAndFileName(path);
    hide Split, LastSeparator, GetDirName, GetFileName, DropOneSeparator;
  }

  lemma {:induction false} PathOfStarts(c: Position)
    requires SlashFree(c)
    ensures StartsWithSeparator(PathOf(c))
  {
    if c == [] {
    } else {
      PathOfStarts(Parent(c));
    }
  }

  /** Reading back a printed position loses exactly its empty names. */
  lemma {:induction false} ComponentsOfPathOf(c: Position)
    requires SlashFree(c)
    ensures Components(PathOf(c)) == DropEmptyNames(c)
  {
    if c == [] {
    } else {
      var up, name := PathOf(Parent(c)), Leaf(c);
      PathOfStarts(Parent(c));
      ComponentsOfPathOf(Parent(c));
      assert DropOneSeparator(name) == name;
      ComponentsBelow(up, name);
      SplitName(name);
    }
  }

  lemma {:induction false} DropEmptyNamesIsIdentity(c: Position)
    ensures |DropEmptyNames(c)| <= |c|
    ensures DropEmptyNames(c) == c <==> NoEmptyName(c)
  {
    if c == [] {
    } else {
      DropEmptyNamesIsIdentity(Parent(c));
      assert c == Parent(c) + [Leaf(c)];
      if NoEmptyName(c) {
        assert NoEmptyName(Parent(c));
      } else if NoEmptyName(Parent(c)) {
        assert Leaf(c) == "";
      } else {
        assert DropEmptyNames(Parent(c)) != Parent(c);
        assert Leaf(c) != "" ==> Parent(DropEmptyNames(c)) == DropEmptyNames(Parent(c));
      }
    }
  }

  /** A printed position leads back to itself exactly when none of its names is empty. */
  lemma {:induction false} PathOfIsFoundExactly(c: Position)
    requires SlashFree(c)
    ensures Components(PathOf(c)) == c <==> NoEmptyName(c)
  {
    ComponentsOfPathOf(c);
    DropEmptyNamesIsIdentity(c);
  }

  lemma {:induction false} CanonicalChild(up: string, name: Name)
    requires Canonical(up) && name != "" && '/' !in name
    ensures JoinTwo(up, name) == (if up == "/" then "" else up) + "/" + name
    ensures Canonical(JoinTwo(up, name)) && JoinTwo(up, name) != "/"
  {
    var front, p := (if up == "/" then "" else up) + "/", JoinTwo(up, name);
    assert forall i :: 0 <= i < |name| ==> name[i] in name;
    assert p == front + name;
    forall i | 0 <= i < |p| - 1
      ensures p[i] != '/' || p[i + 1] != '/'
    {
      assert i >= |front| ==> p[i] == name[i - |front|];
      assert i + 1 >= |front| ==> p[i + 1] == name[i + 1 - |front|];
      assert i + 1 < |front| ==> p[i] == up[i];
    }
  }

  lemma {:induction false} PathOfIsCanonical(c: Position)
    requires SlashFree(c) && NoEmptyName(c)
    ensures Canonical(PathOf(c))
    ensures c != [] ==> PathOf(c) == (if |c| == 1 then "" else PathOf(Parent(c))) + "/" + Leaf(c)
    ensures PathOf(c) == "/" <==> c == []
  {
    if c == [] {
    } else {
      PathOfIsCanonical(Parent(c));
      hide Canonical, JoinTwo;
      CanonicalChild(PathOf(Parent(c)), Leaf(c));
    }
  }

  /** Printing inverts splitting exactly on canonical paths. */
  lemma {:induction false} PrintInvertsSplitExactly(p: string)
    ensures PathOf(Components(p)) == p <==> Canonical(p)
  {
    if Canonical(p) {
      CanonicalPrintsBack(p);
    }
    if PathOf(Components(p)) == p {
      ComponentsSlashFree(p);
      PathOfIsFoundExactly(Components(p));
      PathOfIsCanonical(Components(p));
    }
  }

  lemma {:induction false} CanonicalParts(p: string)
    requires Canonical(p) && p != "/"
    ensures var dir, file := GetDirName(p), GetFileName(p);
            && p == dir + "/" + file && file != "" && '/' !in file
            && |dir| < |p| && (dir == "" || (Canonical(dir) && dir != "/"))
  {
    var k := LastSeparator(p);
    DirAndFileName(p);
    assert p[0] == '/' && 0 <= k < |p| - 1;
    var dir := p[..k];
    if k > 0 {
      assert p[k] == '/' && p[k - 1] != '/';
      assert forall i :: 0 <= i < |dir| ==> dir[i] == p[i];
    }
  }

  lemma {:induction false} CanonicalPrintsBack(p: string)
    requires Canonical(p)
    ensures PathOf(Components(p)) == p
    decreases |p|
  {
    if p == "/" {
      SplitName("");
    } else {
      CanonicalParts(p);
      CanonicalEntry(p);
      var dir, file := GetDirName(p), GetFileName(p);
      hide Canonical, GetDirName, GetFileName, Split;
      PathOfChild(Components(dir), file);
      if dir == "" {
        SplitName("");
        assert PathOf([]) == "/";
      } else {
        CanonicalPrintsBack(dir);
        NotTrailing(dir);
      }
      assert !StartsWithSeparator(file);
    }
  }

  lemma {:induction false} NotTrailing(p: string)
    requires Canonical(p) && p != "/"
    ensures p != "" && !EndsWithSeparator(p)
  {
  }

  /** On canonical paths the printed parent and last name are dirname and filename. */
  lemma {:induction false} DirAndFileOfPosition(c: Position)
    requires SlashFree(c) && NoEmptyName(c) && c != []
    ensures GetFileName(PathOf(c)) == Leaf(c)
    ensures GetDirName(PathOf(c)) == if |c| == 1 then "" else PathOf(Parent(c))
    ensures EntryOf(PathOf(c)) == c
  {
    PathOfIsCanonical(c);
    DirAndFileNameOf(if |c| == 1 then "" else PathOf(Parent(c)), Leaf(c));
    PathOfIsFoundExactly(c);
    CanonicalEntry(PathOf(c));
  }
}
