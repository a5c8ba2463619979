/**
 Byte sources as values: a leaf holds the bytes that can be read now and what it will
 report once they are gone; a concatenation holds its parts.  `Drain` is the one stream
 that reading amounts to.
 */
module ByteStreamModel {
  import opened Bytes
  import opened Availability
  import opened PathUtility

  /** What a source with nothing to deliver reports. */
  type Idle = a: ByteAvailability | !HasAvailableBytes(a) && (IsExhausted(a) ==> a == EXHAUSTED_RESULT)
    witness EXHAUSTED_RESULT

  /** A bytewise leaf shows at most one byte at a time. */
  datatype Source = Leaf(rest: seq<byte>, idle: Idle, bytewise: bool) | Concat(parts: seq<Source>)

  /** All bytes that reading can deliver now, and the report once they are read: the
      parts one after the other, up to the first that is not exhausted. */
  function Drain(s: Source): (seq<byte>, Idle) {
    match s
    case Leaf(rest, idle, _) => (rest, idle)
    case Concat(parts) => DrainAll(parts)
  }

  function DrainAll(parts: seq<Source>): (seq<byte>, Idle) {
    if parts == [] then ([], EXHAUSTED_RESULT)
    else
      var (bytes, idle) := Drain(parts[0]);
      if !IsExhausted(idle) then (bytes, idle)
      else
        var (more, end) := DrainAll(parts[1..]);
        (bytes + more, end)
  }

  /** The bytes that the part being read holds: what `available` counts and `peek` shows. */
  function Front(s: Source): seq<byte> {
    match s
    case Leaf(rest, _, _) => rest
    case Concat(parts) => FrontOf(parts)
  }

  function FrontOf(parts: seq<Source>): seq<byte> {
    if parts == [] then []
    else if Drain(parts[0]) == ([], EXHAUSTED_RESULT) then FrontOf(parts[1..])
    else Front(parts[0])
  }

  /** What `peek` shows of at most `length` bytes: of the part being read, what that part
      shows. */
  function Shown(s: Source, length: nat): seq<byte> {
    match s
    case Leaf(rest, _, bytewise) => rest[..Min(length, if bytewise then Min(1, |rest|) else |rest|)]
    case Concat(parts) => ShownOf(parts, length)
  }

  function ShownOf(parts: seq<Source>, length: nat): seq<byte> {
    if parts == [] then []
    else if Drain(parts[0]) == ([], EXHAUSTED_RESULT) then ShownOf(parts[1..], length)
    else Shown(parts[0], length)
  }

  /** The report of `available`. */
  function Report(s: Source): ByteAvailability {
    if Front(s) != [] then Count(|Front(s)|) else Drain(s).1
  }

  /** The source after `k` bytes were read. */
  function Consume(s: Source, k: nat): Source
    requires k <= |Drain(s).0|
  {
    match s
    case Leaf(rest, idle, bytewise) => Leaf(rest[k..], idle, bytewise)
    case Concat(parts) => Concat(ConsumeAll(parts, k))
  }

  function ConsumeAll(parts: seq<Source>, k: nat): (r: seq<Source>)
    requires k <= |DrainAll(parts).0|
    ensures |r| == |parts|
  {
    if parts == [] then []
    else
      var n := Min(k, |Drain(parts[0]).0|);
      [Consume(parts[0], n)] + (if k == n then parts[1..] else ConsumeAll(parts[1..], k - n))
  }

  /** Reading `k` bytes takes exactly the first `k` off the stream. */
  lemma {:induction false} ConsumeTakesPrefix(s: Source, k: nat)
    requires k <= |Drain(s).0|
    ensures Drain(Consume(s, k)) == (Drain(s).0[k..], Drain(s).1)
    decreases s
  {
    if s.Concat? {
      ConsumeAllTakesPrefix(s.parts, k);
    }
  }

  lemma {:induction false} ConsumeAllTakesPrefix(parts: seq<Source>, k: nat)
    requires k <= |DrainAll(parts).0|
    ensures DrainAll(ConsumeAll(parts, k)) == (DrainAll(parts).0[k..], DrainAll(parts).1)
    decreases parts, 1
  {
    if parts != [] {
      assert parts == [parts[0]] + parts[1..];
      ConsumeAllTakesPrefixStep(parts, parts[0], parts[1..], k);
    }
  }

  lemma {:induction false} ConsumeAllTakesPrefixStep(parts: seq<Source>, first: Source, others: seq<Source>, k: nat)
    requires parts != [] && first == parts[0] && others == parts[1..] && parts == [first] + others
    requires k <= |DrainAll(parts).0|
    ensures DrainAll(ConsumeAll(parts, k)) == (DrainAll(parts).0[k..], DrainAll(parts).1)
    decreases parts, 0
  {
    hide ConsumeAll, DrainAll, Drain, Consume;
    var (bytes, idle) := Drain(first);
    var n := Min(k, |bytes|);
    DrainAllCons(first, others);
    ConsumeAllCons(first, others, k);
    ConsumeTakesPrefix(first, n);
    DrainAllCons(Consume(first, n), if k == n then others else ConsumeAll(others, k - n));
    if k > n {
      ConsumeAllTakesPrefix(others, k - n);
    }
    if IsExhausted(idle) {
      var more := DrainAll(others).0;
      assert (bytes + more)[k..] == bytes[n..] + more[k - n..];
    }
  }

  /** Reading in two steps is reading at once. */
  lemma {:induction false} ConsumeTwice(s: Source, j: nat, k: nat)
    requires j + k <= |Drain(s).0|
    ensures k <= |Drain(Consume(s, j)).0|
    ensures Consume(Consume(s, j), k) == Consume(s, j + k)
    decreases s
  {
    ConsumeTakesPrefix(s, j);
    if s.Concat? {
      ConsumeAllTwice(s.parts, j, k);
    }
  }

  lemma {:induction false} ConsumeAllCons(first: Source, rest: seq<Source>, k: nat)
    requires k <= |DrainAll([first] + rest).0|
    ensures var n := Min(k, |Drain(first).0|);
            && (k > n ==> k - n <= |DrainAll(rest).0|)
            && ConsumeAll([first] + rest, k)
            == [Consume(first, n)] + (if k == n then rest else ConsumeAll(rest, k - n))
  {
    assert ([first] + rest)[1..] == rest;
  }

  lemma {:induction false} DrainAllCons(first: Source, rest: seq<Source>)
    ensures DrainAll([first] + rest) ==
            if IsExhausted(Drain(first).1) then (Drain(first).0 + DrainAll(rest).0, DrainAll(rest).1) else Drain(first)
  {
    assert ([first] + rest)[1..] == rest;
  }

  lemma {:induction false} ConsumeAllTwice(parts: seq<Source>, j: nat, k: nat)
    requires j + k <= |DrainAll(parts).0|
    ensures k <= |DrainAll(ConsumeAll(parts, j)).0|
    ensures ConsumeAll(ConsumeAll(parts, j), k) == ConsumeAll(parts, j + k)
    decreases parts, 1
  {
    ConsumeAllTakesPrefix(parts, j);
    if parts != [] {
      assert parts == [parts[0]] + parts[1..];
      ConsumeAllTwiceStep(parts, parts[0], parts[1..], j, k);
    }
  }

  lemma {:induction false} ConsumeAllTwiceStep(parts: seq<Source>, first: Source, others: seq<Source>, j: nat, k: nat)
    requires parts != [] && first == parts[0] && others == parts[1..] && parts == [first] + others
    requires j + k <= |DrainAll(parts).0| && k <= |DrainAll(ConsumeAll(parts, j)).0|
    ensures ConsumeAll(ConsumeAll(parts, j), k) == ConsumeAll(parts, j + k)
    decreases parts, 0
  {
    hide ConsumeAll, DrainAll, Drain, Consume;
    var size := |Drain(first).0|;
    var m, n := Min(j, size), Min(j + k, size);
    ConsumeAllCons(first, others, j);
    ConsumeAllCons(first, others, j + k);
    DrainAllCons(first, others);
    ConsumeTakesPrefix(first, m);
    ConsumeTwice(first, m, n - m);
    if j > m {
      ConsumeAllTwice(others, j - m, k);
    }
    var first', rest := Consume(first, m), if j == m then others else ConsumeAll(others, j - m);
    ConsumeAllCons(first', rest, k);
  }

  lemma {:induction false} ConsumeAllNothing(parts: seq<Source>)
    ensures ConsumeAll(parts, 0) == parts
    decreases parts
  {
    if parts != [] {
      ConsumeNothing(parts[0]);
    }
  }

  lemma {:induction false} ConsumeNothing(s: Source)
    ensures Consume(s, 0) == s
    decreases s
  {
    if s.Concat? {
      ConsumeAllNothing(s.parts);
    }
  }

  /** `available` counts and `peek` shows a prefix of the stream, which is empty only when
      the stream is; then `available` reports how the stream ends. */
  lemma {:induction false} FrontIsPrefix(s: Source)
    ensures Front(s) <= Drain(s).0
    ensures Front(s) == [] <==> Drain(s).0 == []
    ensures HasAvailableBytes(Report(s)) <==> Drain(s).0 != []
    ensures IsExhausted(Report(s)) <==> Drain(s) == ([], EXHAUSTED_RESULT)
    decreases s
  {
    if s.Concat? {
      FrontOfIsPrefix(s.parts);
    }
  }

  lemma {:induction false} FrontOfIsPrefix(parts: seq<Source>)
    ensures FrontOf(parts) <= DrainAll(parts).0
    ensures FrontOf(parts) == [] <==> DrainAll(parts).0 == []
    decreases parts
  {
    if parts == [] {
    } else {
      FrontIsPrefix(parts[0]);
      FrontOfIsPrefix(parts[1..]);
    }
  }

  /** What is shown is a prefix of the stream that fits, empty only when it must be. */
  lemma {:induction false} ShownIsPrefix(s: Source, length: nat)
    ensures Shown(s, length) <= Front(s) && |Shown(s, length)| <= length
    ensures Shown(s, length) == [] <==> length == 0 || Front(s) == []
    ensures s.Leaf? && !s.bytewise ==> |Shown(s, length)| == Min(length, |s.rest|)
    decreases s
  {
    match s
    case Leaf(_, _, _) =>
    case Concat(parts) => ShownOfIsPrefix(parts, length);
  }

  lemma {:induction false} ShownOfIsPrefix(parts: seq<Source>, length: nat)
    ensures ShownOf(parts, length) <= FrontOf(parts) && |ShownOf(parts, length)| <= length
    ensures ShownOf(parts, length) == [] <==> length == 0 || FrontOf(parts) == []
    decreases parts
  {
    if parts == [] {
    } else {
      ShownIsPrefix(parts[0], length);
      ShownOfIsPrefix(parts[1..], length);
    }
  }

  /** A leaf reports how many bytes it holds, or its idle report when it holds none. */
  lemma {:induction false} ReportOfLeaf(rest: seq<byte>, idle: Idle, bytewise: bool)
    ensures Report(Leaf(rest, idle, bytewise)) == if rest != [] then Count(|rest|) else idle
    ensures Front(Leaf(rest, idle, bytewise)) == rest && Drain(Leaf(rest, idle, bytewise)) == (rest, idle)
    ensures rest != [] ==> forall n :: n > 0 ==>
              |Shown(Leaf(rest, idle, bytewise), n)| == if bytewise then 1 else Min(n, |rest|)
  {
  }

  /** A concatenation reports, and holds in front, what its first part does that is not
      exhausted: its count, or that it has none now, or its error; with none it is exhausted. */
  lemma {:induction false} ReportOfParts(parts: seq<Source>)
    ensures (forall j :: 0 <= j < |parts| ==> IsExhausted(Report(parts[j]))) ==>
              Report(Concat(parts)) == EXHAUSTED_RESULT && Front(Concat(parts)) == []
    ensures forall i :: 0 <= i < |parts| && !IsExhausted(Report(parts[i]))
                        && (forall j :: 0 <= j < i ==> IsExhausted(Report(parts[j]))) ==>
              && Report(Concat(parts)) == Report(parts[i]) && Front(Concat(parts)) == Front(parts[i])
              && forall n :: Shown(Concat(parts), n) == Shown(parts[i], n)
  {
    hide Report, Front, Drain, DrainAll, FrontOf, ShownOf;
    forall j | 0 <= j < |parts|
      ensures IsExhausted(Report(parts[j])) <==> Drain(parts[j]) == ([], EXHAUSTED_RESULT)
    {
      FrontIsPrefix(parts[j]);
    }
    if forall j :: 0 <= j < |parts| ==> IsExhausted(Report(parts[j])) {
      NoPart(parts);
    }
    forall i | 0 <= i < |parts| && !IsExhausted(Report(parts[i])) && (forall j :: 0 <= j < i ==> IsExhausted(Report(parts[j])))
      ensures Report(Concat(parts)) == Report(parts[i]) && Front(Concat(parts)) == Front(parts[i])
      ensures forall n :: Shown(Concat(parts), n) == Shown(parts[i], n)
    {
      CurrentPart(parts, i);
      forall n ensures Shown(Concat(parts), n) == Shown(parts[i], n) {
        ShownOfFrom(parts, i, n);
      }
    }
  }

  /** The stream of a concatenation: nothing without parts, that of a single part, and of two
      lists of parts the one after the other, unless the first ends otherwise than exhausted. */
  lemma {:induction false} StreamOfParts(s: Source, a: seq<Source>, b: seq<Source>)
    ensures Drain(Concat([])) == ([], EXHAUSTED_RESULT) && Drain(Concat([s])) == Drain(s)
    ensures !IsExhausted(Drain(Concat(a)).1) ==> Drain(Concat(a + b)) == Drain(Concat(a))
    ensures IsExhausted(Drain(Concat(a)).1) ==>
              Drain(Concat(a + b)) == (Drain(Concat(a)).0 + Drain(Concat(b)).0, Drain(Concat(b)).1)
  {
    DrainAllConcat(a, b);
    DrainAllCons(s, []);
    assert [s] + [] == [s] && Drain(s).0 + [] == Drain(s).0;
  }

  // --------------------------------------------------------------- flattening

  function Leaves(s: Source): seq<Source> {
    match s
    case Leaf(_, _, _) => [s]
    case Concat(parts) => LeavesOf(parts)
  }

  function LeavesOf(parts: seq<Source>): seq<Source> {
    if parts == [] then [] else Leaves(parts[0]) + LeavesOf(parts[1..])
  }

  lemma {:induction false} DrainAllConcat(a: seq<Source>, b: seq<Source>)
    ensures DrainAll(a + b) ==
            if IsExhausted(DrainAll(a).1) then (DrainAll(a).0 + DrainAll(b).0, DrainAll(b).1) else DrainAll(a)
    decreases |a|
  {
    if a == [] {
      assert a + b == b && [] + DrainAll(b).0 == DrainAll(b).0;
    } else {
      assert (a + b)[1..] == a[1..] + b;
      DrainAllConcat(a[1..], b);
      var bytes := Drain(a[0]).0;
      assert bytes + (DrainAll(a[1..]).0 + DrainAll(b).0) == (bytes + DrainAll(a[1..]).0) + DrainAll(b).0;
    }
  }

  lemma {:induction false} FrontOfConcat(a: seq<Source>, b: seq<Source>)
    ensures FrontOf(a + b) == if DrainAll(a) == ([], EXHAUSTED_RESULT) then FrontOf(b) else FrontOf(a)
    decreases |a|
  {
    if a == [] {
      assert a + b == b;
    } else {
      assert (a + b)[1..] == a[1..] + b;
      FrontOfConcat(a[1..], b);
      var more := DrainAll(a[1..]).0;
      assert Drain(a[0]).0 == [] ==> Drain(a[0]).0 + more == more;
      assert |Drain(a[0]).0 + more| == |Drain(a[0]).0| + |more|;
    }
  }

  lemma {:induction false} ConsumeAllConcat(a: seq<Source>, b: seq<Source>, k: nat)
    requires k <= |DrainAll(a + b).0|
    ensures var n := Min(k, |DrainAll(a).0|);
            && (k > n ==> k - n <= |DrainAll(b).0|)
            && ConsumeAll(a + b, k) == ConsumeAll(a, n) + (if k == n then b else ConsumeAll(b, k - n))
    decreases |a|, 1
  {
    if a == [] {
      assert a + b == b;
      ConsumeAllNothing(b);
    } else {
      hide ConsumeAll, DrainAll, Drain, Consume;
      assert a == [a[0]] + a[1..];
      ConsumeAllConcatStep(a[0], a[1..], b, k);
    }
  }

  lemma {:induction false} ConsumeAllConcatStep(first: Source, others: seq<Source>, b: seq<Source>, k: nat)
    requires k <= |DrainAll(([first] + others) + b).0|
    ensures var a := [first] + others;
            var n := Min(k, |DrainAll(a).0|);
            && (k > n ==> k - n <= |DrainAll(b).0|)
            && ConsumeAll(a + b, k) == ConsumeAll(a, n) + (if k == n then b else ConsumeAll(b, k - n))
    decreases |others| + 1, 0
  {
    hide ConsumeAll, DrainAll, Drain, Consume;
    var size := |Drain(first).0|;
    ConcatAssociative([first], others, b);
    DrainAllConcat([first] + others, b);
    DrainAllCons(first, others);
    ConsumeAllCons(first, others + b, k);
    if k <= size {
      ConsumeAllCons(first, others, k);
      ConcatAssociative([Consume(first, k)], others, b);
    } else {
      DrainAllCons(first, others + b);
      ConsumeAllConcat(others, b, k - size);
      ConsumeAllNothing(others);
      var n1 := Min(k - size, |DrainAll(others).0|);
      ConsumeAllCons(first, others, size + n1);
      ConcatAssociative([Consume(first, size)], ConsumeAll(others, n1), if k - size == n1 then b else ConsumeAll(b, k - size - n1));
    }
  }

  /** A nested concatenation and the flat one over its leaves cannot be told apart: they
      have the same stream, the same reports and peeks, and stay related by any read. */
  lemma {:induction false} FlatteningIsInvisible(s: Source)
    ensures Drain(Concat(Leaves(s))) == Drain(s)
    ensures Front(Concat(Leaves(s))) == Front(s)
    ensures Report(Concat(Leaves(s))) == Report(s)
    decreases s
  {
    match s
    case Leaf(rest, idle, _) =>
      assert [s][1..] == [];
      assert rest + [] == rest;
      assert DrainAll([s]) == (rest, idle);
      assert FrontOf([s]) == if Drain(s) == ([], EXHAUSTED_RESULT) then FrontOf([]) else Front(s);
    case Concat(parts) => FlatteningAllIsInvisible(parts);
  }

  lemma {:induction false} FlatteningAllIsInvisible(parts: seq<Source>)
    ensures DrainAll(LeavesOf(parts)) == DrainAll(parts)
    ensures FrontOf(LeavesOf(parts)) == FrontOf(parts)
    decreases parts
  {
    if parts == [] {
    } else {
      FlatteningIsInvisible(parts[0]);
      FlatteningAllIsInvisible(parts[1..]);
      DrainAllConcat(Leaves(parts[0]), LeavesOf(parts[1..]));
      FrontOfConcat(Leaves(parts[0]), LeavesOf(parts[1..]));
    }
  }

  lemma {:induction false} ShownOfConcat(a: seq<Source>, b: seq<Source>, length: nat)
    ensures ShownOf(a + b, length) == if DrainAll(a) == ([], EXHAUSTED_RESULT) then ShownOf(b, length) else ShownOf(a, length)
    decreases |a|
  {
    if a == [] {
      assert a + b == b;
    } else {
      assert (a + b)[1..] == a[1..] + b;
      ShownOfConcat(a[1..], b, length);
      assert |Drain(a[0]).0 + DrainAll(a[1..]).0| == |Drain(a[0]).0| + |DrainAll(a[1..]).0|;
      assert [] + DrainAll(a[1..]).0 == DrainAll(a[1..]).0;
    }
  }

  /** Nor does any peek tell them apart. */
  lemma {:induction false} FlatteningShowsTheSame(s: Source, length: nat)
    ensures Shown(Concat(Leaves(s)), length) == Shown(s, length)
    decreases s
  {
    match s
    case Leaf(rest, idle, _) =>
      assert [s][1..] == [];
      assert ShownOf([s], length) == if Drain(s) == ([], EXHAUSTED_RESULT) then ShownOf([], length) else Shown(s, length);
    case Concat(parts) => FlatteningAllShowsTheSame(parts, length);
  }

  lemma {:induction false} FlatteningAllShowsTheSame(parts: seq<Source>, length: nat)
    ensures ShownOf(LeavesOf(parts), length) == ShownOf(parts, length)
    decreases parts
  {
    if parts == [] {
    } else {
      FlatteningIsInvisible(parts[0]);
      FlatteningShowsTheSame(parts[0], length);
      FlatteningAllShowsTheSame(parts[1..], length);
      ShownOfConcat(Leaves(parts[0]), LeavesOf(parts[1..]), length);
    }
  }

  lemma {:induction false} FlatteningSurvivesReads(s: Source, k: nat)
    requires k <= |Drain(s).0|
    ensures k <= |Drain(Concat(Leaves(s))).0|
    ensures Consume(Concat(Leaves(s)), k) == Concat(Leaves(Consume(s, k)))
    decreases s
  {
    FlatteningIsInvisible(s);
    match s
    case Leaf(rest, idle, _) =>
      assert [s][1..] == [];
    case Concat(parts) => FlatteningAllSurvivesReads(parts, k);
  }

  lemma {:induction false} FlatteningAllSurvivesReads(parts: seq<Source>, k: nat)
    requires k <= |DrainAll(parts).0|
    ensures k <= |DrainAll(LeavesOf(parts)).0|
    ensures ConsumeAll(LeavesOf(parts), k) == LeavesOf(ConsumeAll(parts, k))
    decreases parts, 1
  {
    FlatteningAllIsInvisible(parts);
    if parts == [] {
    } else {
      assert parts == [parts[0]] + parts[1..];
      FlatteningStep(parts, parts[0], parts[1..], k);
    }
  }

  lemma {:induction false} LeavesOfCons(first: Source, others: seq<Source>)
    ensures LeavesOf([first] + others) == Leaves(first) + LeavesOf(others)
  {
    assert ([first] + others)[1..] == others;
  }

  lemma {:induction false} FlatteningStep(parts: seq<Source>, first: Source, others: seq<Source>, k: nat)
    requires parts != [] && first == parts[0] && others == parts[1..] && parts == [first] + others
    requires k <= |DrainAll(parts).0| && k <= |DrainAll(LeavesOf(parts)).0|
    ensures ConsumeAll(LeavesOf(parts), k) == LeavesOf(ConsumeAll(parts, k))
    decreases parts, 0
  {
    hide ConsumeAll, DrainAll, Drain, Consume, Leaves, LeavesOf, Min;
    var n := Min(k, |Drain(first).0|);
    FlatteningIsInvisible(first);
    FlatteningSurvivesReads(first, n);
    DrainAllLeaves(first);
    LeavesOfCons(first, others);
    ConsumeAllConcat(Leaves(first), LeavesOf(others), k);
    ConsumeAllCons(first, others, k);
    ConsumeLeaves(first, n);
    if k == n {
      LeavesOfCons(Consume(first, n), others);
    } else {
      LeavesOfCons(Consume(first, n), ConsumeAll(others, k - n));
      FlatteningAllSurvivesReads(others, k - n);
    }
  }

  lemma {:induction false} DrainAllLeaves(s: Source)
    ensures DrainAll(Leaves(s)) == Drain(Concat(Leaves(s)))
  {
  }

  lemma {:induction false} ConsumeLeaves(s: Source, n: nat)
    requires n <= |Drain(s).0| && n <= |Drain(Concat(Leaves(s))).0|
    requires Consume(Concat(Leaves(s)), n) == Concat(Leaves(Consume(s, n)))
    ensures n <= |DrainAll(Leaves(s)).0| && ConsumeAll(Leaves(s), n) == Leaves(Consume(s, n))
  {
  }

  // ------------------------------------------------------------------- reads

  /** The bytes delivered by a sequence of reads of the given sizes. */
  function Reads(s: Source, sizes: seq<nat>): (seq<byte>, Source)
    decreases |sizes|
  {
    if sizes == [] then ([], s)
    else
      var n := Min(sizes[0], |Drain(s).0|);
      var (more, last) := Reads(Consume(s, n), sizes[1..]);
      (Drain(s).0[..n] + more, last)
  }

  /** How a stream is chopped into reads does not matter: only the total does. */
  lemma {:induction false} ReadSizesDoNotMatter(s: Source, sizes: seq<nat>)
    ensures var n := Min(Sum(sizes), |Drain(s).0|);
            Reads(s, sizes) == (Drain(s).0[..n], Consume(s, n))
    decreases |sizes|, 1
  {
    if sizes == [] {
      ConsumeNothing(s);
    } else {
      ReadSizesStep(s, sizes);
    }
  }

  lemma {:induction false} ReadSizesStep(s: Source, sizes: seq<nat>)
    requires sizes != []
    ensures var n := Min(Sum(sizes), |Drain(s).0|);
            Reads(s, sizes) == (Drain(s).0[..n], Consume(s, n))
    decreases |sizes|, 0
  {
    hide Drain, Consume;
    var bytes := Drain(s).0;
    var n := Min(sizes[0], |bytes|);
    ConsumeTakesPrefix(s, n);
    ReadSizesDoNotMatter(Consume(s, n), sizes[1..]);
    var m := Min(Sum(sizes[1..]), |bytes| - n);
    TakeTwice(bytes, n, m);
    ConsumeTwice(s, n, m);
  }

  lemma {:induction false} TakeTwice(bytes: seq<byte>, n: nat, m: nat)
    requires n + m <= |bytes|
    ensures bytes[..n] + bytes[n..][..m] == bytes[..n + m]
  {
  }

  // ------------------------------------------------------- reading at an index

  ghost predicate DrainedBefore(parts: seq<Source>, i: nat)
    requires i <= |parts|
  {
    forall j :: 0 <= j < i ==> Drain(parts[j]) == ([], EXHAUSTED_RESULT)
  }

  /** Once the parts before `i` are drained, the stream is that of the parts from `i` on. */
  lemma {:induction false} DrainAllFrom(parts: seq<Source>, i: nat)
    requires i <= |parts| && DrainedBefore(parts, i)
    ensures DrainAll(parts) == DrainAll(parts[i..])
    ensures FrontOf(parts) == FrontOf(parts[i..])
    decreases i
  {
    if i == 0 {
      assert parts[0..] == parts;
    } else {
      assert parts[1..][i - 1..] == parts[i..];
      DrainAllFrom(parts[1..], i - 1);
      var more := DrainAll(parts[1..]).0;
      assert [] + more == more;
    }
  }

  /** And what is shown is what part `i` shows, unless it is drained too. */
  lemma {:induction false} ShownOfFrom(parts: seq<Source>, i: nat, length: nat)
    requires i < |parts| && DrainedBefore(parts, i) && Drain(parts[i]) != ([], EXHAUSTED_RESULT)
    ensures ShownOf(parts, length) == Shown(parts[i], length)
    decreases i
  {
    if i > 0 {
      ShownOfFrom(parts[1..], i - 1, length);
    }
  }

  lemma {:induction false} ConsumeAllAt(parts: seq<Source>, i: nat, n: nat)
    requires i < |parts| && DrainedBefore(parts, i) && n <= |Drain(parts[i]).0|
    ensures n <= |DrainAll(parts).0|
    ensures ConsumeAll(parts, n) == parts[i := Consume(parts[i], n)]
    decreases i
  {
    hide Drain, DrainAll, Consume, ConsumeAll;
    var first, others := parts[0], parts[1..];
    assert parts == [first] + others;
    DrainAllCons(first, others);
    if n == 0 {
      ConsumeAllNothing(parts);
      ConsumeNothing(parts[i]);
    } else if i == 0 {
      ConsumeAllCons(first, others, n);
    } else {
      assert others[i - 1] == parts[i];
      ConsumeAllAt(others, i - 1, n);
      assert [] + DrainAll(others).0 == DrainAll(others).0;
      ConsumeAllCons(first, others, n);
      ConsumeNothing(first);
    }
  }

  /** With everything before part `i` drained, part `i` decides the report, unless it is
      exhausted too. */
  lemma {:induction false} CurrentPart(parts: seq<Source>, i: nat)
    requires i < |parts| && DrainedBefore(parts, i)
    ensures IsExhausted(Report(parts[i])) ==> DrainedBefore(parts, i + 1)
    ensures !IsExhausted(Report(parts[i])) ==>
              && Report(Concat(parts)) == Report(parts[i])
              && Front(Concat(parts)) == Front(parts[i])
  {
    DrainAllFrom(parts, i);
    FrontIsPrefix(parts[i]);
    assert parts[i..][0] == parts[i];
  }

  lemma {:induction false} NoPart(parts: seq<Source>)
    requires DrainedBefore(parts, |parts|)
    ensures Report(Concat(parts)) == EXHAUSTED_RESULT && Front(Concat(parts)) == []
  {
    DrainAllFrom(parts, |parts|);
    assert parts[|parts|..] == [];
  }
}
