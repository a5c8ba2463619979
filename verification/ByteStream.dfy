/**
 Byte sources as objects: a span over bytes in memory, a device read one byte at a
 time, and a concatenation that owns other sources.  Each method is proved to report,
 deliver and leave what `ByteStreamModel` says of the source's state.
 */
module ByteStream {
  import opened Bytes
  import opened Availability
  import opened ByteStreamModel

  datatype Kind = SpanSource | SingleByteSource | ConcatSource

  class ByteSource {
    const kind: Kind
    const data: seq<byte>
    var position: nat
    var pending: seq<byte>
    const idle: Idle
    const sources: seq<ByteSource>
    var currentIndex: nat
    ghost const Repr: set<ByteSource>

    /** Ownership: a concatenation owns its parts, and no two of them share anything. */
    ghost predicate Owned()
      decreases Repr
    {
      && this in Repr
      && (forall i :: 0 <= i < |sources| ==> sources[i].Repr < Repr && this !in sources[i].Repr && sources[i].Owned())
      && (forall i, j :: 0 <= i < j < |sources| ==> sources[i].Repr !! sources[j].Repr)
    }

    lemma {:induction false} OwnsParts()
      requires Owned()
      ensures this in Repr
      ensures forall i :: 0 <= i < |sources| ==> sources[i].Repr < Repr && this !in sources[i].Repr && sources[i].Owned()
      ensures forall i, j :: 0 <= i < j < |sources| ==> sources[i].Repr !! sources[j].Repr
    {
    }

    ghost function State(): Source
      requires Owned()
      reads Repr
      decreases Repr, |sources| + 2
    {
      match kind
      case SpanSource => Leaf(if position <= |data| then data[position..] else [], EXHAUSTED_RESULT, false)
      case SingleByteSource => Leaf(pending, idle, true)
      case ConcatSource => Concat(States())
    }

    /** The states of the first `n` parts. */
    ghost function StatesTo(n: nat): (r: seq<Source>)
      requires Owned() && n <= |sources|
      reads Repr
      ensures |r| == n
      ensures forall j :: 0 <= j < n ==> r[j] == sources[j].State()
      decreases Repr, n
    {
      hide Owned;
      OwnsParts();
      if n == 0 then [] else StatesTo(n - 1) + [sources[n - 1].State()]
    }

    ghost function States(): seq<Source>
      requires Owned()
      reads Repr
      decreases Repr, |sources| + 1
    {
      StatesTo(|sources|)
    }

    ghost predicate Valid()
      reads Repr
      decreases Repr
    {
      && Owned()
      && (kind == SpanSource ==> position <= |data|)
      && (kind == ConcatSource ==>
            && currentIndex <= |sources|
            && (forall i :: 0 <= i < |sources| ==> sources[i].Valid())
            && DrainedBefore(States(), currentIndex))
    }

    constructor Span(data: seq<byte>)
      ensures Valid() && fresh(Repr) && State() == Leaf(data, EXHAUSTED_RESULT, false)
    {
      kind, this.data, sources, idle := SpanSource, data, [], EXHAUSTED_RESULT;
      position, pending, currentIndex := 0, [], 0;
      Repr := {this};
    }

    constructor SingleByte(pending: seq<byte>, idle: Idle)
      ensures Valid() && fresh(Repr) && State() == Leaf(pending, idle, true)
    {
      kind, data, sources, this.idle := SingleByteSource, [], [], idle;
      position, this.pending, currentIndex := 0, pending, 0;
      Repr := {this};
    }

    constructor Concatenation(sources: seq<ByteSource>)
      requires forall i :: 0 <= i < |sources| ==> sources[i].Valid()
      requires forall i, j :: 0 <= i < j < |sources| ==> sources[i].Repr !! sources[j].Repr
      ensures Valid() && this.sources == sources
      ensures fresh(this) && Repr == {this} + (set i, o | 0 <= i < |sources| && o in sources[i].Repr :: o)
      ensures State() == Concat(States())
      ensures forall i :: 0 <= i < |sources| ==> States()[i] == old(sources[i].State())
    {
      kind, data, this.sources, idle := ConcatSource, [], sources, EXHAUSTED_RESULT;
      position, pending, currentIndex := 0, [], 0;
      Repr := {this} + (set i, o | 0 <= i < |sources| && o in sources[i].Repr :: o);
      new;
      assert forall i :: 0 <= i < |sources| ==> forall o :: o in sources[i].Repr ==> allocated(o);
    }

    /** A call on one part, by its effect on the part, is a call on the whole. */
    twostate lemma {:induction false} OnePartMoved(i: nat)
      requires old(Valid()) && kind == ConcatSource && i < |sources|
      requires Owned() && sources[i].Valid() && currentIndex == old(currentIndex) <= i
      requires forall o :: o in Repr && o !in sources[i].Repr ==> unchanged(o)
      ensures Valid() && States() == old(States())[i := sources[i].State()]
    {
      hide Drain;
      forall j | 0 <= j < |sources| && j != i
        ensures sources[j].Valid() && sources[j].State() == old(sources[j].State())
      {
        assert sources[j].Repr !! sources[i].Repr;
      }
      assert States() == old(States())[i := sources[i].State()];
      assert DrainedBefore(States(), currentIndex);
    }

    /** What `available` and `read` of a concatenation look at: skip the parts that are
        exhausted for good, report the first other one. */
    method CurrentAvailability() returns (a: ByteAvailability)
      requires Valid() && kind == ConcatSource
      modifies Repr
      ensures Valid() && States() == old(States())
      ensures a == Report(State())
      ensures Front(State()) != [] ==> currentIndex < |sources| && Front(State()) == Front(sources[currentIndex].State())
      decreases Repr, 0
    {
      hide Drain, DrainAll, Front, FrontOf, Owned;
      OwnsParts();
      while currentIndex < |sources|
        invariant Valid() && States() == old(States())
        decreases |sources| - currentIndex
      {
        ghost var states := States();
        a := AskPart();
        CurrentPart(states, currentIndex);
        if IsExhausted(a) {
          currentIndex := currentIndex + 1;
          assert States() == states;
          continue;
        }
        return a;
      }
      NoPart(States());
      a := EXHAUSTED_RESULT;
    }

    method AskPart() returns (a: ByteAvailability)
      requires Valid() && kind == ConcatSource && currentIndex < |sources|
      modifies sources[currentIndex].Repr
      ensures Valid() && States() == old(States()) && currentIndex == old(currentIndex)
      ensures a == Report(States()[currentIndex])
      decreases sources[currentIndex].Repr, 3
    {
      a := sources[currentIndex].Available();
      OnePartMoved(currentIndex);
    }

    method Available() returns (a: ByteAvailability)
      requires Valid()
      modifies Repr
      ensures Valid() && State() == old(State())
      ensures a == Report(State())
      ensures kind == SpanSource ==> a == if position < |data| then Count(|data| - position) else EXHAUSTED_RESULT
      ensures kind == SingleByteSource ==> a == if pending != [] then Count(|pending|) else idle
      decreases Repr, 1
    {
      match kind {
        case SpanSource =>
          if position >= |data| {
            return EXHAUSTED_RESULT;
          }
          a := AvailableBytes(|data| - position);
        case SingleByteSource =>
          a := if pending != [] then AvailableBytes(|pending|) else idle;
        case ConcatSource =>
          a := CurrentAvailability();
      }
    }

    /** Shows bytes without taking them: a span as many as fit, a device at most one, a
        concatenation those of the part being read. */
    method Peek(buffer: array<byte>, offset: nat, length: nat) returns (n: nat)
      requires Valid() && offset + length <= buffer.Length
      modifies Repr, buffer
      ensures Valid() && State() == old(State())
      ensures n == |Shown(State(), length)| <= length
      ensures Filled(buffer[..], old(buffer[..]), offset, Shown(State(), length))
      decreases Repr, 1
    {
      hide Drain, DrainAll, FrontOf, ShownOf, Report, Owned, Filled;
      ShownIsPrefix(State(), length);
      FilledWithNothing(buffer[..], offset);
      match kind {
        case SpanSource =>
          n := PeekSpan(buffer, offset, length);
        case SingleByteSource =>
          if length == 0 || pending == [] {
            return 0;
          }
          FilledByOne(buffer[..][offset := pending[0]], buffer[..], buffer[..], offset, pending, 0);
          buffer[offset] := pending[0];
          n := 1;
        case ConcatSource =>
          var a := CurrentAvailability();
          ReportHasBytes(State());
          if !HasAvailableBytes(a) || length == 0 {
            return 0;
          }
          CurrentShown(States(), currentIndex, length);
          OwnsParts();
          n := PeekPart(buffer, offset, length);
      }
    }

    method PeekSpan(buffer: array<byte>, offset: nat, length: nat) returns (n: nat)
      requires kind == SpanSource && position <= |data| && offset + length <= buffer.Length
      modifies buffer
      ensures n == Min(length, |data| - position)
      ensures Filled(buffer[..], old(buffer[..]), offset, data[position..][..n])
    {
      if length == 0 || position >= |data| {
        return 0;
      }
      n := Min(length, |data| - position);
      forall k | 0 <= k < n {
        buffer[offset + k] := data[position + k];
      }
    }

    method PeekPart(buffer: array<byte>, offset: nat, length: nat) returns (n: nat)
      requires Valid() && kind == ConcatSource && currentIndex < |sources|
      requires offset + length <= buffer.Length
      modifies sources[currentIndex].Repr, buffer
      ensures Valid() && States() == old(States()) && currentIndex == old(currentIndex)
      ensures n == |Shown(States()[currentIndex], length)| <= length
      ensures Filled(buffer[..], old(buffer[..]), offset, Shown(States()[currentIndex], length))
      decreases sources[currentIndex].Repr, 3
    {
      n := sources[currentIndex].Peek(buffer, offset, length);
      OnePartMoved(currentIndex);
    }

    /** Delivers exactly the next bytes of the one stream the source amounts to, as many
        as fit and are there, and takes just those. */
    method Read(buffer: array<byte>, offset: nat, length: nat) returns (n: nat)
      requires Valid() && offset + length <= buffer.Length
      modifies Repr, buffer
      ensures Valid()
      ensures n == Min(length, |Drain(old(State())).0|) && State() == Consume(old(State()), n)
      ensures Filled(buffer[..], old(buffer[..]), offset, Drain(old(State())).0[..n])
      decreases Repr, 2
    {
      match kind {
        case SpanSource =>
          n := Peek(buffer, offset, length);
          position := position + n;
        case SingleByteSource => n := ReadByBytes(buffer, offset, length);
        case ConcatSource => n := ReadParts(buffer, offset, length);
      }
    }

    /** The device's next byte, or -1 when it has none now. */
    method ReadSingleByte() returns (value: int)
      modifies this`pending
      ensures old(pending) == [] ==> value == -1 && pending == []
      ensures old(pending) != [] ==> value == old(pending)[0] as int && pending == old(pending)[1..]
    {
      if pending == [] {
        return -1;
      }
      value := pending[0] as int;
      pending := pending[1..];
    }

    method ReadByBytes(buffer: array<byte>, offset: nat, length: nat) returns (total: nat)
      requires Valid() && kind == SingleByteSource && offset + length <= buffer.Length
      modifies this`pending, buffer
      ensures Valid()
      ensures total == Min(length, |old(pending)|) && pending == old(pending)[total..]
      ensures Filled(buffer[..], old(buffer[..]), offset, old(pending)[..total])
    {
      hide Owned, State, States, StatesTo, Filled;
      total := 0;
      FilledWithNothing(buffer[..], offset);
      while total < length
        invariant total <= length && total <= |old(pending)| && pending == old(pending)[total..]
        invariant Filled(buffer[..], old(buffer[..]), offset, old(pending)[..total])
      {
        ghost var soFar := buffer[..];
        var value := ReadSingleByte();
        if value < 0 {
          break;
        }
        buffer[offset + total] := value as byte;
        FilledByOne(buffer[..], soFar, old(buffer[..]), offset, old(pending), total);
        total := total + 1;
      }
    }

    method ReadParts(buffer: array<byte>, offset: nat, length: nat) returns (total: nat)
      requires Valid() && kind == ConcatSource && offset + length <= buffer.Length
      modifies Repr, buffer
      ensures Valid()
      ensures total == Min(length, |Drain(old(State())).0|) && State() == Consume(old(State()), total)
      ensures Filled(buffer[..], old(buffer[..]), offset, Drain(old(State())).0[..total])
      decreases Repr, 1
    {
      hide Drain, DrainAll, Front, FrontOf, Consume, ConsumeAll, Report, Filled;
      ghost var stream := Drain(State()).0;
      total := 0;
      ConsumeNothing(State());
      FilledWithNothing(buffer[..], offset);
      while total < length
        invariant Valid() && total <= length && total <= |stream|
        invariant State() == Consume(old(State()), total)
        invariant Filled(buffer[..], old(buffer[..]), offset, stream[..total])
      {
        ghost var soFar := buffer[..];
        ConsumeTakesPrefix(old(State()), total);
        var n := ReadTurn(buffer, offset + total, length - total);
        ConsumeTwice(old(State()), total, n);
        FilledFurther(buffer[..], soFar, old(buffer[..]), offset, stream, total, n);
        if n == 0 {
          break;
        }
        total := total + n;
      }
    }

    /** One turn of the loop: nothing when the current part cannot deliver, otherwise what
        that part has, up to `length`. */
    method ReadTurn(buffer: array<byte>, offset: nat, length: nat) returns (n: nat)
      requires Valid() && kind == ConcatSource && offset + length <= buffer.Length
      modifies Repr, buffer
      ensures Valid()
      ensures n <= length && n <= |Drain(old(State())).0| && State() == Consume(old(State()), n)
      ensures n == 0 <==> length == 0 || Drain(old(State())).0 == []
      ensures Filled(buffer[..], old(buffer[..]), offset, Drain(old(State())).0[..n])
      decreases Repr, 0
    {
      hide Drain, DrainAll, Front, FrontOf, Consume, ConsumeAll, Report, Filled;
      var a := CurrentAvailability();
      FrontIsPrefix(State());
      ConsumeNothing(State());
      FilledWithNothing(buffer[..], offset);
      assert Drain(State()).0[..0] == [];
      if !HasAvailableBytes(a) {
        return 0;
      }
      ghost var states := States();
      FrontIsPrefix(states[currentIndex]);
      n := ReadPart(buffer, offset, length);
      PartPrefix(states, currentIndex);
      assert Drain(Concat(states)).0[..n] == Drain(states[currentIndex]).0[..n];
      ConsumeAllAt(states, currentIndex, n);
      ConsumeIntoParts(states, n);
    }

    method ReadPart(buffer: array<byte>, offset: nat, length: nat) returns (n: nat)
      requires Valid() && kind == ConcatSource && currentIndex < |sources|
      requires offset + length <= buffer.Length
      modifies sources[currentIndex].Repr, buffer
      ensures Valid() && currentIndex == old(currentIndex)
      ensures n == Min(length, |Drain(old(States())[currentIndex]).0|)
      ensures States() == old(States())[currentIndex := Consume(old(States())[currentIndex], n)]
      ensures Filled(buffer[..], old(buffer[..]), offset, Drain(old(States())[currentIndex]).0[..n])
      decreases sources[currentIndex].Repr, 3
    {
      n := sources[currentIndex].Read(buffer, offset, length);
      OnePartMoved(currentIndex);
    }
  }

  lemma {:induction false} PartPrefix(parts: seq<Source>, i: nat)
    requires i < |parts| && DrainedBefore(parts, i)
    ensures Drain(parts[i]).0 <= Drain(Concat(parts)).0
  {
    DrainAllFrom(parts, i);
    assert parts[i..][0] == parts[i];
  }

  lemma {:induction false} ConsumeIntoParts(parts: seq<Source>, n: nat)
    requires n <= |Drain(Concat(parts)).0|
    ensures n <= |DrainAll(parts).0| && Consume(Concat(parts), n) == Concat(ConsumeAll(parts, n))
  {
  }

  /** Two adjacent fills are one. */
  lemma {:induction false} FilledFurther(after: seq<byte>, mid: seq<byte>, before: seq<byte>, offset: nat,
                                         stream: seq<byte>, total: nat, n: nat)
    requires |before| == |mid| == |after| && offset + total + n <= |before| && total + n <= |stream|
    requires Filled(mid, before, offset, stream[..total])
    requires Filled(after, mid, offset + total, stream[total..][..n])
    ensures Filled(after, before, offset, stream[..total + n])
  {
    assert stream[..total + n] == stream[..total] + stream[total..][..n];
  }

  lemma {:induction false} FilledByOne(after: seq<byte>, mid: seq<byte>, before: seq<byte>, offset: nat,
                                       stream: seq<byte>, total: nat)
    requires |before| == |mid| && offset + total < |before| && total < |stream|
    requires Filled(mid, before, offset, stream[..total]) && after == mid[offset + total := stream[total]]
    ensures Filled(after, before, offset, stream[..total + 1])
  {
    assert stream[..total + 1] == stream[..total] + [stream[total]];
  }

  lemma {:induction false} FilledWithNothing(buffer: seq<byte>, offset: nat)
    requires offset <= |buffer|
    ensures Filled(buffer, buffer, offset, [])
  {
  }

  /** `after` holds `bytes` from `offset` on and is otherwise as `before`. */
  ghost predicate Filled(after: seq<byte>, before: seq<byte>, offset: nat, bytes: seq<byte>)
    requires offset + |bytes| <= |before|
  {
    after == before[..offset] + bytes + before[offset + |bytes|..]
  }

  lemma {:induction false} ReportHasBytes(s: Source)
    ensures HasAvailableBytes(Report(s)) <==> Front(s) != []
  {
    FrontIsPrefix(s);
  }

  /** Drains a source through a 256-byte buffer, up to `maxLength` bytes. */
  method ReadAsVector(source: ByteSource, maxLength: nat) returns (result: seq<byte>)
    requires source.Valid()
    modifies source.Repr
    ensures source.Valid() && |result| <= maxLength
    ensures result == Drain(old(source.State())).0[..Min(maxLength, |Drain(old(source.State())).0|)]
    ensures source.State() == Consume(old(source.State()), |result|)
  {
    hide Drain, Consume, Report;
    ghost var stream := Drain(source.State()).0;
    ConsumeNothing(source.State());
    var _ := source.Available();
    var buffer := new byte[256];
    var totalRead := 0;
    result := [];
    while totalRead < maxLength
      invariant source.Valid() && totalRead == |result| <= maxLength && totalRead <= |stream|
      invariant result == stream[..totalRead]
      invariant source.State() == Consume(old(source.State()), totalRead)
    {
      var chunkSize := Min(256, maxLength - totalRead);
      ghost var before := buffer[..];
      ConsumeTakesPrefix(old(source.State()), totalRead);
      var bytesRead := source.Read(buffer, 0, chunkSize);
      ConsumeTwice(old(source.State()), totalRead, bytesRead);
      if bytesRead == 0 {
        break;
      }
      assert buffer[..bytesRead] == stream[totalRead..][..bytesRead];
      TakeTwice(stream, totalRead, bytesRead);
      result := result + buffer[..bytesRead];
      totalRead := totalRead + bytesRead;
    }
  }

  lemma {:induction false} CurrentShown(parts: seq<Source>, i: nat, length: nat)
    requires i < |parts| && DrainedBefore(parts, i) && Front(parts[i]) != []
    ensures Shown(Concat(parts), length) == Shown(parts[i], length)
  {
    FrontIsPrefix(parts[i]);
    ShownOfFrom(parts, i, length);
  }
}
