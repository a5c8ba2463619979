/**
 The string translation between a scoped view and the file system below it, for every
 root and every path, whatever separators they carry.
 */
module ScopePaths {
  import opened PathUtility
  import opened Positions

  function StripLeading(p: string): string {
    if StartsWithSeparator(p) then StripLeading(p[1..]) else p
  }

  function ScopePath(root: string, path: string): string {
    var relative := StripLeading(path);
    if relative == "" then root
    else if root == "/" then JoinTwo("/", relative)
    else JoinTwo(root, relative)
  }

  /** The stripping loop, by repeated relativising against the root. */
  method ToInner(root: string, path: string) returns (inner: string)
    ensures inner == ScopePath(root, path)
  {
    var relative := MakeRelative(path, "/");
    assert relative == DropOneSeparator(path);
    while relative != "" && relative[0] == '/'
      invariant StripLeading(relative) == StripLeading(path)
      decreases |relative|
    {
      relative := MakeRelative(relative, "/");
    }
    if relative == "" {
      return root;
    }
    if root == "/" {
      return JoinTwo("/", relative);
    }
    return JoinTwo(root, relative);
  }

  function ExposePath(root: string, path: string): string {
    if root == "/" then path
    else if path == root then "/"
    else
      var relative := MakeRelative(path, root, true);
      if relative != path then relative else path
  }

  lemma {:induction false} StripLeadingStrips(p: string)
    ensures !StartsWithSeparator(StripLeading(p))
    ensures !StartsWithSeparator(p) ==> StripLeading(p) == p
    ensures |StripLeading(p)| <= |p|
    decreases |p|
  {
    if StartsWithSeparator(p) {
      StripLeadingStrips(p[1..]);
    }
  }

  /** Leading separators are stripped off a concatenation up to the first other character. */
  lemma {:induction false} StripLeadingConcat(p: string, q: string)
    ensures StripLeading(p + q) == if StripLeading(p) == "" then StripLeading(q) else StripLeading(p) + q
    decreases |p|
  {
    if p == "" {
      assert p + q == q;
    } else if StartsWithSeparator(p) {
      assert (p + q)[1..] == p[1..] + q;
      StripLeadingConcat(p[1..], q);
    }
  }

  lemma {:induction false} ScopePathIs(root: string, path: string)
    ensures ScopePath(root, path) == if StripLeading(path) == "" then root else Base(root) + StripLeading(path)
  {
    StripLeadingStrips(path);
  }

  /** Character by character: with `k` separators in front, what follows them is put below the
      root with one separator between, or none when the root ends with one or is empty. */
  lemma {:induction false} ScopePathExactly(root: string, path: string, k: nat)
    requires k <= |path| && (forall i :: 0 <= i < k ==> path[i] == '/') && (k < |path| ==> path[k] != '/')
    ensures StripLeading(path) == path[k..]
    ensures ScopePath(root, path) ==
            if k == |path| then root
            else if root == "" || root[|root| - 1] == '/' then root + path[k..]
            else root + "/" + path[k..]
    decreases k
  {
    if k > 0 {
      assert path[1..][k - 1..] == path[k..];
      ScopePathExactly(root, path[1..], k - 1);
    }
    ScopePathIs(root, path);
  }

  /** Exposing undoes scoping up to leading separators, for every non-empty root. */
  lemma {:induction false} ExposeUndoesScope(root: string, path: string)
    requires root != ""
    ensures ExposePath(root, ScopePath(root, path)) == "/" + StripLeading(path)
  {
    var relative := StripLeading(path);
    StripLeadingStrips(path);
    ScopePathIs(root, path);
    if relative != "" {
      MakeRelativeUndoesJoin(root, relative);
      assert JoinTwo(root, relative) == Base(root) + relative;
      assert |Base(root) + relative| > |relative| + 1 || root == "/";
    }
  }

  /** What is not at or below the root is shown as it is. */
  lemma {:induction false} ExposePathExactly(root: string, path: string)
    ensures root == "/" ==> ExposePath(root, path) == path
    ensures root != "/" && path == root ==> ExposePath(root, path) == "/"
    ensures forall rest :: root != "/" && root != "" && path == Base(root) + rest && path != root ==> ExposePath(root, path) == "/" + rest
    ensures root != "/" && root != "" && path != root && !(Base(root) <= path) ==> ExposePath(root, path) == path
  {
    MakeRelativeExactly(path, root, true);
  }

  /** Scoping undoes exposing for the root itself and everything properly below it. */
  lemma {:induction false} ScopeUndoesExpose(root: string, rest: string)
    requires root != "" && !StartsWithSeparator(rest)
    ensures ScopePath(root, ExposePath(root, root)) == root
    ensures rest != "" ==> ScopePath(root, ExposePath(root, Base(root) + rest)) == Base(root) + rest
  {
    StripLeadingStrips(rest);
    StripLeadingOne("");
    StripLeadingOne(rest);
    ScopePathIs(root, "/");
    ScopePathIs(root, "/" + rest);
    if rest != "" {
      ScopePathIs(root, rest);
      ExposeUndoesScope(root, rest);
    }
  }

  lemma {:induction false} StripLeadingOne(p: string)
    ensures StripLeading("/" + p) == StripLeading(p)
  {
    assert ("/" + p)[1..] == p;
  }

  /** Dropping the middle layer of two nested scopes changes no path, for all roots. */
  lemma {:induction false} NestedScopesFlatten(outer: string, inner: string, path: string)
    ensures ScopePath(ScopePath(outer, inner), path) == ScopePath(outer, ScopePath(inner, path))
  {
    hide ScopePath, StripLeading, Base;
    var r, p := StripLeading(inner), StripLeading(path);
    ScopePathIs(outer, inner);
    ScopePathIs(inner, path);
    ScopePathIs(ScopePath(outer, inner), path);
    ScopePathIs(outer, ScopePath(inner, path));
    StripLeadingStrips(p);
    StripLeadingStrips(path);
    StripLeadingConcat(Base(inner), p);
    StripBase(inner);
    BaseOfParts(outer, r);
    if r != "" {
      ConcatAssociative(Base(outer), Base(r), p);
    }
  }

  lemma {:induction false} BaseOfParts(x: string, y: string)
    ensures Base("") == "" && (y != "" ==> Base(y) != "")
    ensures y != "" ==> Base(Base(x) + y) == Base(x) + Base(y)
    ensures Base(Base(x)) == Base(x)
  {
    if y != "" {
      assert (Base(x) + y)[|Base(x) + y| - 1] == y[|y| - 1];
      assert Base(x) + (y + "/") == (Base(x) + y) + "/";
    }
  }

  lemma {:induction false} StripBase(p: string)
    ensures StripLeading(Base(p)) == Base(StripLeading(p))
  {
    StripLeadingStrips(p);
    if p != "" && !EndsWithSeparator(p) {
      StripLeadingConcat(p, "/");
      StripLeadingKeepsEnd(p);
    } else {
      StripLeadingKeepsEnd(p);
    }
  }

  lemma {:induction false} StripLeadingKeepsEnd(p: string)
    ensures StripLeading(p) != "" ==> StripLeading(p)[|StripLeading(p)| - 1] == p[|p| - 1]
    ensures StripLeading(p) == "" ==> p == "" || EndsWithSeparator(p)
    decreases |p|
  {
    if StartsWithSeparator(p) {
      StripLeadingKeepsEnd(p[1..]);
    }
  }

  // --------------------------------------------------------------- positions

  /** Every scoped path is read at or below the root's position. */
  lemma {:induction false} ScopedComponents(root: string, path: string)
    ensures Components(ScopePath(root, path)) == Components(root) + Split(StripLeading(path))
  {
    StripLeadingStrips(path);
    ScopePathIs(root, path);
    ComponentsBelow(root, StripLeading(path));
    SplitName("");
  }

  /** Every entry that a scoped `remove` or `rename` can cut is at or below the root,
      exactly when the root's directory name does not end with a separator. */
  lemma {:induction false} ScopedEntriesContained(root: string)
    ensures (forall p :: Above(Components(root), EntryOf(ScopePath(root, p)))) <==> !EndsWithSeparator(GetDirName(root))
  {
    if EndsWithSeparator(GetDirName(root)) {
      ScopedEntryEscapes(root);
    } else {
      forall p
        ensures Above(Components(root), EntryOf(ScopePath(root, p)))
      {
        ScopedEntryContained(root, p);
      }
    }
  }

  /** With a doubled separator before the root's last name, removing the scope's root cuts
      a link outside it; with a doubled one at the end, removing any name does. */
  lemma {:induction false} ScopedEntryEscapes(root: string)
    requires EndsWithSeparator(GetDirName(root))
    ensures GetFileName(root) != "" ==> !Above(Components(root), EntryOf(ScopePath(root, "/")))
    ensures GetFileName(root) == "" ==> !Above(Components(root), EntryOf(ScopePath(root, "x")))
  {
    DoubledSeparatorRoot(root);
    hide Components, GetDirName, GetFileName, EntryOf, ScopePath;
    CutByPath(root, Components(GetDirName(root)) + [if GetFileName(root) == "" then "x" else GetFileName(root)]);
  }

  lemma {:induction false} ScopedEntryContained(root: string, path: string)
    requires !EndsWithSeparator(GetDirName(root))
    ensures Above(Components(root), EntryOf(ScopePath(root, path)))
  {
    hide Split, GetDirName, GetFileName, LastSeparator, Components, ScopePath, StripLeading, Base;
    var dir, file, relative := GetDirName(root), GetFileName(root), StripLeading(path);
    DirAndFileName(root);
    ComponentsByDirName(root);
    SplitName(file);
    StripLeadingStrips(path);
    ScopePathIs(root, path);
    if relative != "" {
      EntryBelow(root, relative);
    }
  }

  lemma {:induction false} EntryBelow(root: string, relative: string)
    requires !EndsWithSeparator(GetDirName(root))
    requires relative != "" && !StartsWithSeparator(relative)
    ensures Above(Components(root), EntryOf(Base(root) + relative))
    ensures EntryOf(Base(root) + relative) != Components(root)
  {
    var up, name := SplitLast(relative);
    if name == relative {
      EntryJustBelow(root, name);
    } else {
      EntryThrough(root, up, name);
    }
  }

  lemma {:induction false} SplitLast(p: string) returns (up: string, name: string)
    requires !StartsWithSeparator(p)
    ensures '/' !in name && !StartsWithSeparator(up)
    ensures p == name || p == up + "/" + name
  {
    DirAndFileName(p);
    DirStart(p);
    up, name := GetDirName(p), GetFileName(p);
  }

  lemma {:induction false} DirStart(p: string)
    requires !StartsWithSeparator(p)
    ensures !StartsWithSeparator(GetDirName(p))
  {
    var k := LastSeparator(p);
    if k > 0 {
      assert p[..k][0] == p[0];
    }
  }

  lemma {:induction false} EntryThrough(root: string, up: string, name: string)
    requires !StartsWithSeparator(up) && '/' !in name
    ensures EntryOf(Base(root) + (up + "/" + name)) == Components(root) + Split(up) + [name]
  {
    var full := Base(root) + up;
    ConcatAssociative(Base(root), up + "/", name);
    ConcatAssociative(Base(root), up, "/");
    DirAndFileNameOf(full, name);
    ComponentsBelow(root, up);
    hide Split, Base, Components, GetDirName, GetFileName, LastSeparator;
  }

  lemma {:induction false} EntryJustBelow(root: string, name: string)
    requires !EndsWithSeparator(GetDirName(root)) && '/' !in name
    ensures EntryOf(Base(root) + name) == Components(root) + [] + [name]
  {
    assert Components(root) + [] == Components(root);
    if root == "" {
      assert Base(root) + name == name;
      DirAndFileName(name);
      assert LastSeparator(name) == -1;
    } else if EndsWithSeparator(root) {
      DirOfTrailing(root);
      hide Split, Components, GetDirName, GetFileName, LastSeparator;
      DirAndFileNameOf(GetDirName(root), name);
    } else {
      hide Split, Components, GetDirName, GetFileName, LastSeparator;
      DirAndFileNameOf(root, name);
    }
  }

  lemma {:induction false} DirOfTrailing(root: string)
    requires EndsWithSeparator(root) && !EndsWithSeparator(GetDirName(root))
    ensures Components(GetDirName(root)) == Components(root) && GetDirName(root) + "/" == root
  {
    DirAndFileName(root);
    ComponentsByDirName(root);
    SplitName("");
    assert LastSeparator(root) == |root| - 1;
  }

  /** The entries outside the scope that its paths can cut: none, unless the root's
      directory name ends with a separator. */
  predicate CutsOutside(root: string, e: Position) {
    && EndsWithSeparator(GetDirName(root))
    && e != [] && Parent(e) == Components(GetDirName(root))
    && (if GetFileName(root) != "" then Leaf(e) == GetFileName(root) else Leaf(e) != "" && '/' !in Leaf(e))
  }

  /** The path by which the scope names the entry. */
  function CuttingPath(root: string, e: Position): string
    requires CutsOutside(root, e)
  {
    if GetFileName(root) != "" then "/" else Leaf(e)
  }

  lemma {:induction false} NameInDirectory(dir: string, name: string)
    requires '/' !in name
    ensures GetDirName(dir + "/" + name) == dir
    ensures EntryOf(dir + "/" + name) == Components(dir) + [name]
  {
    DirAndFileNameOf(dir, name);
  }

  /** How such a root is read. */
  lemma {:induction false} DoubledSeparatorRoot(root: string)
    requires EndsWithSeparator(GetDirName(root))
    ensures var dir, file := GetDirName(root), GetFileName(root);
            && root == dir + "/" + file && '/' !in file
            && Components(root) == Components(dir) + [""] + (if file == "" then [] else [file])
            && EntryOf(root) == Components(dir) + [file]
            && (file == "" ==> Base(root) == root)
  {
    DirAndFileName(root);
    ComponentsByDirName(root);
    SplitName(GetFileName(root));
    hide Components, GetDirName, GetFileName, LastSeparator;
  }

  lemma {:induction false} CutByPath(root: string, e: Position)
    requires CutsOutside(root, e)
    ensures CuttingPath(root, e) != "" && EntryOf(ScopePath(root, CuttingPath(root, e))) == e
    ensures !Above(Components(root), e)
  {
    hide Components, GetDirName, GetFileName, Split, ScopePath, EntryOf, StripLeading, Base;
    var dir, path := GetDirName(root), CuttingPath(root, e);
    DoubledSeparatorRoot(root);
    StripLeadingOne("");
    assert "/" + "" == "/";
    StripLeadingStrips("");
    StripLeadingStrips(path);
    ScopePathIs(root, path);
    assert e == Components(dir) + [Leaf(e)];
    assert Components(root)[|Components(dir)|] == "";
    assert e[|Components(dir)|] == Leaf(e) != "";
    if GetFileName(root) == "" {
      assert dir + "/" + "" + path == dir + "/" + path;
      NameInDirectory(dir, path);
    }
  }

  /** Which entry a local path cuts, by its last separator. */
  lemma {:induction false} ScopedEntryCases(root: string, path: string)
    ensures var e := EntryOf(ScopePath(root, path));
            || (e != [] && Above(Components(root), Parent(e)))
            || (e == EntryOf(root) && ScopePath(root, path) == root)
            || (GetFileName(root) == "" && EndsWithSeparator(root) && StripLeading(path) != "" && '/' !in StripLeading(path)
                && GetDirName(ScopePath(root, path)) == GetDirName(root)
                && e == Components(GetDirName(root)) + [StripLeading(path)])
  {
    var relative := StripLeading(path);
    StripLeadingStrips(path);
    ScopePathIs(root, path);
    if relative != "" {
      var up, name := SplitLast(relative);
      if name != relative {
        EntryThrough(root, up, name);
      } else {
        EntryOfName(root, name);
      }
    }
  }

  lemma {:induction false} EntryOfName(root: string, name: string)
    requires '/' !in name && name != ""
    ensures var e := EntryOf(Base(root) + name);
            || (e != [] && Parent(e) == Components(root))
            || (GetFileName(root) == "" && EndsWithSeparator(root)
                && GetDirName(Base(root) + name) == GetDirName(root)
                && e == Components(GetDirName(root)) + [name])
  {
    DirAndFileName(root);
    DirAndFileName(name);
    assert LastSeparator(name) == -1;
    hide Components, GetDirName, GetFileName, LastSeparator;
    if root == "" {
      assert Base(root) + name == name;
      assert EntryOf(name) == Components("") + [name];
    } else if EndsWithSeparator(root) {
      TrailingRoot(root);
      assert Base(root) + name == GetDirName(root) + "/" + name;
      NameInDirectory(GetDirName(root), name);
    } else {
      NameInDirectory(root, name);
    }
  }

  lemma {:induction false} TrailingRoot(root: string)
    requires EndsWithSeparator(root)
    ensures GetFileName(root) == "" && root == GetDirName(root) + "/"
  {
    assert LastSeparator(root) == |root| - 1;
  }

  /** Every entry a local path cuts is in the scope or one of those. */
  lemma {:induction false} ScopedEntryReach(root: string, path: string)
    ensures var e := EntryOf(ScopePath(root, path)); Above(Components(root), e) || CutsOutside(root, e)
  {
    hide Components, GetDirName, GetFileName, Split, ScopePath, EntryOf, Base;
    if EndsWithSeparator(GetDirName(root)) {
      ScopedEntryCases(root, path);
      DoubledSeparatorRoot(root);
    } else {
      ScopedEntryContained(root, path);
    }
  }

  lemma {:induction false} CutsOutsideExactly(root: string, e: Position)
    ensures CutsOutside(root, e) <==> !Above(Components(root), e) && exists path :: EntryOf(ScopePath(root, path)) == e
  {
    hide CutsOutside, EntryOf, ScopePath, Components;
    if CutsOutside(root, e) {
      CutByPath(root, e);
    }
    if !Above(Components(root), e) && exists path :: EntryOf(ScopePath(root, path)) == e {
      var path :| EntryOf(ScopePath(root, path)) == e;
      ScopedEntryReach(root, path);
    }
  }

  /** All a scope can reach: what is below its root, and below the entries outside that it
      can cut.  For a root whose directory name does not end with a separator that is the
      scope alone. */
  predicate Reached(root: string, p: Position) {
    || Above(Components(root), p)
    || (&& |p| > |Components(GetDirName(root))|
        && CutsOutside(root, p[..|Components(GetDirName(root))| + 1]))
  }

  lemma {:induction false} ReachedBelow(root: string, path: string, p: Position)
    requires Above(EntryOf(ScopePath(root, path)), p)
    ensures Reached(root, p)
  {
    hide EntryOf, ScopePath, Components, GetDirName, GetFileName;
    var e := EntryOf(ScopePath(root, path));
    ScopedEntryReach(root, path);
    if CutsOutside(root, e) {
      assert p[..|e|] == e;
    }
  }

  /** The shortest such root: the scope at "/a//b" cuts "/a/b" when it removes "/". */
  lemma {:induction false} DoubledRootExample()
    ensures Components("/a//b") == ["a", "", "b"]
    ensures CutsOutside("/a//b", ["a", "b"]) && CuttingPath("/a//b", ["a", "b"]) == "/"
  {
    hide Split, Components, GetDirName, GetFileName;
    LiteralParts();
    DirAndFileNameOf("/a/", "b");
    SplitName("");
    SplitName("a");
    SplitName("b");
    EmptyComponents();
    ComponentsAround("", "a");
    ComponentsAround("/a", "");
    ComponentsAround("/a/", "b");
    assert ["a", "b"] == ["a"] + ["b"] && Components("/a/") == ["a"];
    assert (["a"] + [""]) + ["b"] == ["a", "", "b"];
  }

  lemma {:induction false} EmptyComponents()
    ensures Components("") == []
  {
  }

  lemma {:induction false} LiteralParts()
    ensures "/a//b" == "/a/" + "/" + "b" && "/a/" == "/a" + "/" + "" && "/a" == "" + "/" + "a"
    ensures EndsWithSeparator("/a/") && !EndsWithSeparator("/a")
    ensures '/' !in "a" && '/' !in "b"
  {
  }

  lemma {:induction false} CutBesideScope(root: string, e: Position)
    requires CutsOutside(root, e)
    ensures Above(Parent(e), Components(root))
  {
    DirNameIsPrefix(root);
  }

  /** Scoping a printed position prints the position below the root, and exposing it
      prints the position back: through a canonical scope the subtree reads as a tree
      of its own. */
  lemma {:induction false} CanonicalScopeIsSubtree(r: Position, s: Position)
    requires SlashFree(r) && NoEmptyName(r) && SlashFree(s) && NoEmptyName(s)
    ensures ScopePath(PathOf(r), PathOf(s)) == PathOf(r + s)
    ensures ExposePath(PathOf(r), PathOf(r + s)) == PathOf(s)
  {
    PrintBelow(r, s);
    PathOfIsCanonical(r);
    PathOfIsCanonical(s);
    ExposeUndoesScope(PathOf(r), PathOf(s));
    CanonicalStrips(PathOf(s));
  }

  lemma {:induction false} CanonicalStrips(p: string)
    requires Canonical(p)
    ensures StripLeading(p) == p[1..] && "/" + StripLeading(p) == p
  {
    StripLeadingOne(p[1..]);
    assert p == "/" + p[1..];
    StripLeadingStrips(p[1..]);
    if p != "/" {
      assert p[0] != '/' || p[1] != '/';
    }
  }

  lemma {:induction false} PrintChild(c: Position, name: Name)
    requires SlashFree(c + [name]) && NoEmptyName(c + [name])
    ensures SlashFree(c) && NoEmptyName(c)
    ensures PathOf(c + [name]) == (if c == [] then "" else PathOf(c)) + "/" + name
    ensures PathOf(c + [name]) == Base(PathOf(c)) + name
  {
    forall i | 0 <= i < |c|
      ensures '/' !in c[i] && c[i] != ""
    {
      assert c[i] == (c + [name])[i];
    }
    assert Parent(c + [name]) == c && Leaf(c + [name]) == name;
    PathOfIsCanonical(c + [name]);
    PathOfIsCanonical(c);
  }

  /** Printing a longer position appends to the printed shorter one. */
  lemma {:induction false} PrintAppends(r: Position, s: Position)
    requires SlashFree(r) && NoEmptyName(r) && SlashFree(s) && NoEmptyName(s) && s != []
    ensures PathOf(s) != "" && PathOf(r + s) == Base(PathOf(r)) + PathOf(s)[1..]
    decreases |s|
  {
    var up, name := Parent(s), Leaf(s);
    ConcatAssociative(r, up, [name]);
    assert up + [name] == s;
    PrintChild(up, name);
    PrintChild(r + up, name);
    if up == [] {
      assert r + up == r;
      assert ("/" + name)[1..] == name;
    } else {
      PrintAppends(r, up);
      hide PathOf, Base, Parent, Leaf, SlashFree, NoEmptyName;
      PrintFurther(Base(PathOf(r)), PathOf(up), name);
    }
  }

  lemma {:induction false} PrintBelow(r: Position, s: Position)
    requires SlashFree(r) && NoEmptyName(r) && SlashFree(s) && NoEmptyName(s)
    ensures Canonical(PathOf(s))
    ensures ScopePath(PathOf(r), PathOf(s)) == PathOf(r + s)
  {
    PathOfIsCanonical(s);
    CanonicalStrips(PathOf(s));
    ScopePathIs(PathOf(r), PathOf(s));
    if s == [] {
      assert r + s == r;
    } else {
      PrintAppends(r, s);
    }
  }

  lemma {:induction false} PrintFurther(base: string, up: string, name: string)
    requires up != ""
    ensures (up + "/" + name)[1..] == up[1..] + "/" + name
    ensures base + (up[1..] + "/" + name) == (base + up[1..]) + "/" + name
  {
  }
}
