/**
 The string algebra on '/'-separated paths that every file system of the
 platform layer is built on.  All statements are about arbitrary strings:
 doubled, leading and trailing separators included.
 */
module PathUtility {

  /** Index of the first separator at or after `pos`, or `|p|` when there is none. */
  function NextSeparator(p: string, pos: nat): (r: nat)
    requires pos <= |p|
    ensures pos <= r <= |p|
    ensures forall k :: pos <= k < r ==> p[k] != '/'
    ensures r < |p| ==> p[r] == '/'
    decreases |p| - pos
  {
    if pos == |p| || p[pos] == '/' then pos else NextSeparator(p, pos + 1)
  }

  /** Index of the last separator, or -1 when there is none. */
  function LastSeparator(p: string): (r: int)
    ensures -1 <= r < |p|
    ensures r >= 0 ==> p[r] == '/'
    ensures forall k :: r < k < |p| ==> p[k] != '/'
  {
    if p == "" then -1
    else if p[|p| - 1] == '/' then |p| - 1
    else LastSeparator(p[..|p| - 1])
  }

  predicate EndsWithSeparator(p: string) {
    p != "" && p[|p| - 1] == '/'
  }

  predicate StartsWithSeparator(p: string) {
    p != "" && p[0] == '/'
  }

  /** `p` without its first character when that character is a separator. */
  function DropOneSeparator(p: string): string {
    if StartsWithSeparator(p) then p[1..] else p
  }

  predicate IsAlpha(c: char) {
    'a' <= c <= 'z' || 'A' <= c <= 'Z'
  }

  predicate IsRoot(path: string) {
    || path == "/"
    || path == "."
    || (&& |path| >= 2
        && IsAlpha(path[0])
        && path[1] == ':'
        && (|path| == 2 || path[2] == '/' || path[2] == '\\'))
  }

  function GetFileName(path: string): string {
    path[LastSeparator(path) + 1..]
  }

  function GetDirName(path: string): string {
    if LastSeparator(path) == -1 then "" else path[..LastSeparator(path)]
  }

  /** `p` made ready for one more segment: unless empty, it ends with a separator. */
  function Base(p: string): string {
    if p != "" && !EndsWithSeparator(p) then p + "/" else p
  }

  /** The binary `join`: one separator between the two segments unless the first is empty. */
  function JoinTwo(a: string, b: string): string {
    Base(a) + DropOneSeparator(b)
  }

  /** The n-ary `join` as the left fold of the binary one. */
  function JoinAll(paths: seq<string>): string {
    if paths == [] then ""
    else if |paths| == 1 then paths[0]
    else JoinTwo(JoinAll(paths[..|paths| - 1]), paths[|paths| - 1])
  }

  function MakeRelative(path: string, base: string, includeLeadingSeparator: bool := false): string {
    if base == "" then path
    else if path == base then ""
    else if |path| > |base| && base <= path && (path[|base|] == '/' || EndsWithSeparator(base)) then
      path[|base| + (if EndsWithSeparator(base) then 0 else 1) - (if includeLeadingSeparator then 1 else 0)..]
    else path
  }

  /** What counts as a root, by the length of the path: "/" and ".", a drive letter with its
      colon, and whatever follows that after a slash of either kind. */
  lemma {:induction false} IsRootExactly(path: string)
    ensures |path| == 0 ==> !IsRoot(path)
    ensures |path| == 1 ==> (IsRoot(path) <==> path[0] == '/' || path[0] == '.')
    ensures |path| == 2 ==> (IsRoot(path) <==> ('a' <= path[0] <= 'z' || 'A' <= path[0] <= 'Z') && path[1] == ':')
    ensures |path| >= 3 ==>
      (IsRoot(path) <==>
       ('a' <= path[0] <= 'z' || 'A' <= path[0] <= 'Z') && path[1] == ':' && (path[2] == '/' || path[2] == '\\'))
  {
  }

  lemma {:induction false} IsRootExamples()
    ensures IsRoot("/") && IsRoot(".") && IsRoot("C:") && IsRoot("c:/") && IsRoot("C:\\") && IsRoot("C:/root")
    ensures !IsRoot("") && !IsRoot("/root") && !IsRoot("root") && !IsRoot("C:root") && !IsRoot("1:/") && !IsRoot("..")
  {
  }

  /** One separator between the segments, none before the first, none doubled. */
  lemma {:induction false} JoinExamples()
    ensures JoinTwo("a", "b") == JoinTwo("a/", "b") == JoinTwo("a", "/b") == JoinTwo("a/", "/b") == "a/b"
    ensures JoinTwo("", "b") == JoinTwo("", "/b") == "b" && JoinTwo("a", "") == "a/" && JoinTwo("/", "a") == "/a"
  {
  }

  lemma {:induction false} JoinAllSteps(paths: seq<string>)
    ensures JoinAll(paths[..0]) == ""
    ensures forall i :: 0 <= i < |paths| ==>
      JoinAll(paths[..i + 1]) == if i == 0 then paths[i] else JoinTwo(JoinAll(paths[..i]), paths[i])
  {
    forall i | 0 <= i < |paths|
      ensures JoinAll(paths[..i + 1]) == if i == 0 then paths[i] else JoinTwo(JoinAll(paths[..i]), paths[i])
    {
      assert paths[..i + 1][..i] == paths[..i];
    }
  }

  /** The two-pass `join`: `reserved` is the capacity computed by the first pass. */
  method Join(paths: seq<string>) returns (result: string, reserved: nat)
    ensures result == JoinAll(paths)
    ensures |result| <= reserved
  {
    hide JoinAll;
    JoinAllSteps(paths);
    reserved := 0;
    var isFirstSegment := true;
    for i := 0 to |paths|
      invariant isFirstSegment == (i == 0)
      invariant |JoinAll(paths[..i])| <= reserved
    {
      var segment := paths[i];
      if segment != "" && !isFirstSegment && segment[0] == '/' {
        reserved := reserved + |segment| - 1;
      } else {
        reserved := reserved + |segment|;
      }
      reserved := reserved + 1;
      isFirstSegment := false;
    }
    assert paths[..|paths|] == paths;

    result := "";
    isFirstSegment := true;
    for i := 0 to |paths|
      invariant isFirstSegment == (i == 0)
      invariant result == JoinAll(paths[..i])
    {
      if result != "" && result[|result| - 1] != '/' {
        result := result + "/";
      }
      var segment := paths[i];
      if segment != "" && !isFirstSegment && segment[0] == '/' {
        segment := segment[1..];
      }
      result := result + segment;
      isFirstSegment := false;
    }
  }

  /** A path is its directory name and its file name around its last separator. */
  lemma {:induction false} DirAndFileName(path: string)
    ensures LastSeparator(path) >= 0 ==> path == GetDirName(path) + "/" + GetFileName(path)
    ensures LastSeparator(path) == -1 ==> GetDirName(path) == "" && GetFileName(path) == path
    ensures '/' !in GetFileName(path)
  {
    var k := LastSeparator(path);
    if k >= 0 {
      assert path == path[..k] + [path[k]] + path[k + 1..];
    }
  }

  /** The dir/file split is the only one whose file part has no separator. */
  lemma {:induction false} DirAndFileNameOf(dir: string, file: string)
    requires '/' !in file
    ensures GetDirName(dir + "/" + file) == dir
    ensures GetFileName(dir + "/" + file) == file
  {
    var path := dir + "/" + file;
    var k := LastSeparator(path);
    assert path[|dir|] == '/';
    assert k >= |dir|;
    assert path[|dir| + 1..] == file;
    assert forall i :: |dir| < i < |path| ==> path[i] == file[i - |dir| - 1];
    assert k == |dir|;
    assert path[..k] == dir;
  }

  lemma {:induction false} ConcatAssociative<T>(x: seq<T>, y: seq<T>, z: seq<T>)
    ensures (x + y) + z == x + (y + z)
  {
  }

  /** Binary join is associative exactly when the middle segment is non-empty or the
      last one does not start with two separators. */
  lemma {:induction false} JoinAssociative(a: string, b: string, c: string)
    ensures JoinTwo(JoinTwo(a, b), c) == JoinTwo(a, JoinTwo(b, c))
      <==> (b != "" || !("//" <= c))
  {
    if b != "" {
      JoinAssociativeAround(a, b, c);
    } else {
      var once := DropOneSeparator(c);
      assert JoinTwo(a, "") == Base(a) && Base(Base(a)) == Base(a);
      assert JoinTwo("", c) == once;
      SameHead(Base(a), once, DropOneSeparator(once));
      assert "//" <= c <==> StartsWithSeparator(c) && StartsWithSeparator(once);
    }
  }

  /** The shortest segments for which it is not. */
  lemma {:induction false} JoinAssociativeExample()
    ensures JoinTwo(JoinTwo("a", ""), "//b") == "a//b" && JoinTwo("a", JoinTwo("", "//b")) == "a/b"
  {
  }

  lemma {:induction false} JoinAssociativeAround(a: string, b: string, c: string)
    requires b != ""
    ensures JoinTwo(JoinTwo(a, b), c) == JoinTwo(a, JoinTwo(b, c))
  {
    var b' := DropOneSeparator(b);
    var c' := DropOneSeparator(c);
    var ab := Base(a) + b';
    var sep := if EndsWithSeparator(b) then "" else "/";
    assert Base(ab) == ab + sep by {
      BaseOfSuffix(Base(a), b, b');
    }
    calc {
      JoinTwo(JoinTwo(a, b), c);
      (ab + sep) + c';
      { ConcatAssociative(ab, sep, c'); ConcatAssociative(Base(a), b', sep + c'); }
      Base(a) + (b' + (sep + c'));
      { DropFromConcat(b, sep + c'); }
      Base(a) + DropOneSeparator(b + (sep + c'));
      { assert b + (sep + c') == JoinTwo(b, c); }
      JoinTwo(a, JoinTwo(b, c));
    }
  }

  lemma {:induction false} DropFromConcat(x: string, y: string)
    requires x != ""
    ensures DropOneSeparator(x + y) == DropOneSeparator(x) + y
  {
  }

  lemma {:induction false} BaseOfSuffix(a: string, b: string, b': string)
    requires b != "" && b' == DropOneSeparator(b)
    requires a == "" || EndsWithSeparator(a)
    ensures Base(a + b') == a + b' + (if EndsWithSeparator(b) then "" else "/")
  {
    if b' == "" {
      assert a + b' == a;
    } else {
      assert (a + b')[|a + b'| - 1] == b[|b| - 1];
    }
  }

  lemma {:induction false} SameHead(h: string, x: string, y: string)
    ensures h + x == h + y <==> x == y
  {
    if h + x == h + y {
      assert x == (h + x)[|h|..] == (h + y)[|h|..] == y;
    }
  }

  /** The rest of a path properly below the base, nothing for the base itself, and the path
      as it is when it is beside the base. */
  lemma {:induction false} MakeRelativeExactly(path: string, base: string, leading: bool)
    ensures base == "" ==> MakeRelative(path, base, leading) == path
    ensures base != "" && path == base ==> MakeRelative(path, base, leading) == ""
    ensures forall rest :: base != "" && path == Base(base) + rest && path != base ==>
              MakeRelative(path, base, leading) == (if leading then "/" else "") + rest
    ensures base != "" && path != base && !(Base(base) <= path) ==> MakeRelative(path, base, leading) == path
  {
    forall rest | base != "" && path == Base(base) + rest && path != base
      ensures MakeRelative(path, base, leading) == (if leading then "/" else "") + rest
    {
      RelativeRest(path, base, rest, leading);
    }
    if base != "" && path != base && base <= path && |path| > |base| && (path[|base|] == '/' || EndsWithSeparator(base)) {
      assert Base(base) <= path by {
        assert path[..|base|] == base;
        assert !EndsWithSeparator(base) ==> path[..|base| + 1] == base + "/";
      }
    }
  }

  lemma {:induction false} RelativeRest(path: string, base: string, rest: string, leading: bool)
    requires base != "" && path == Base(base) + rest && path != base
    ensures MakeRelative(path, base, leading) == (if leading then "/" else "") + rest
  {
    var n := |Base(base)|;
    assert path[n..] == rest;
    assert path[n - 1..] == "/" + rest;
    assert EndsWithSeparator(base) ==> rest != "";
    assert base <= path by { assert path[..|base|] == base; }
  }

  /** Relativising undoes joining, for every base and every remainder that does not
      itself start with a separator. */
  lemma {:induction false} MakeRelativeUndoesJoin(base: string, r: string)
    requires base != "" && !StartsWithSeparator(r)
    ensures MakeRelative(JoinTwo(base, r), base) == r
    ensures r != "" ==> MakeRelative(JoinTwo(base, r), base, true) == "/" + r
  {
    var path := JoinTwo(base, r);
    if EndsWithSeparator(base) {
      assert path == base + r;
      assert path[|base|..] == r;
      if r != "" {
        assert path[|base| - 1..] == "/" + r;
      }
    } else {
      assert path == base + "/" + r;
      assert path[|base| + 1..] == r;
      assert path[|base|..] == "/" + r;
    }
  }
}
