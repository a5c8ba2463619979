/**
 The datagram peer as a state machine: the events are the calls on it, each carrying
 what the kernel answered, and the trace records what was taken, delivered and sent.
 */
module SocketPeerModel {
  import opened Bytes
  import opened Availability
  import opened Sockets

  /** `remote` is the sender reported for the last packet, none after a stop. */
  datatype Remote = NoRemote | From(address: Address)

  datatype Peer = Peer(open: bool, inbound: seq<byte>, offset: nat, outbound: seq<byte>, destination: Lookup, remote: Remote)

  const STOPPED := Peer(false, [], 0, [], Unresolved, NoRemote)

  /** What the kernel answered to a parse: the query and, if it was made, the receive. */
  datatype Answer =
    | QueryFailed(errorCode: int)
    | NothingPending
    | ReceiveFailed(retry: bool, errorCode: int)
    | Received(datagram: Datagram, retry: bool, errorCode: int)

  datatype Event =
    | Begin(bound: bool)
    | Stop
    | BeginPacket(resolved: Lookup)
    | WriteBytes(bytes: seq<byte>)
    | EndPacket(accepted: bool)
    | ParsePacket(answer: Answer)
    | ReadBytes(count: nat)

  /** Since the peer last began: the datagrams taken from the kernel and the chunks
      handed to the reader; since ever: the packets sent. */
  datatype Trace = Trace(taken: seq<Datagram>, delivered: seq<seq<byte>>, sent: seq<Packet>)

  const NOTHING := Trace([], [], [])

  function Unread(p: Peer): seq<byte> {
    if p.offset >= |p.inbound| then [] else p.inbound[p.offset..]
  }

  /** The receive is only attempted on an open socket with nothing left unread. */
  predicate AsksKernel(p: Peer) {
    p.open && p.offset >= |p.inbound|
  }

  function AfterRead(p: Peer, n: nat): Peer {
    if p.offset + n >= |p.inbound| then p.(inbound := [], offset := 0) else p.(offset := p.offset + n)
  }

  function Report(p: Peer): ByteAvailability {
    if Unread(p) != [] then AvailableBytes(|Unread(p)|)
    else if p.open then TEMPORARILY_UNAVAILABLE_RESULT else EXHAUSTED_RESULT
  }

  /** The result of `parsePacket`. */
  function Parsed(p: Peer, answer: Answer): ByteAvailability {
    if !AsksKernel(p) then (if p.open then AvailableBytes(|Unread(p)|) else EXHAUSTED_RESULT)
    else match answer
      case QueryFailed(code) => ErrorResult(code)
      case NothingPending => TEMPORARILY_UNAVAILABLE_RESULT
      case ReceiveFailed(retry, code) => if retry then TEMPORARILY_UNAVAILABLE_RESULT else ErrorResult(code)
      case Received(d, retry, code) =>
        if d.bytes != [] then AvailableBytes(|d.bytes|)
        else if retry then TEMPORARILY_UNAVAILABLE_RESULT else ErrorResult(code)
  }

  /** The packet that `endPacket` offers to the kernel. */
  function Offered(p: Peer): Packet
    requires p.destination.Resolved?
  {
    Packet(p.outbound[..Min(|p.outbound|, INT_MAX)], p.destination.address)
  }

  function Step(p: Peer, t: Trace, e: Event): (Peer, Trace) {
    match e
    case Begin(bound) => (STOPPED.(open := bound), t.(taken := [], delivered := []))
    case Stop => (STOPPED, t.(taken := [], delivered := []))
    case BeginPacket(resolved) => (p.(outbound := [], destination := if p.open then resolved else Unresolved), t)
    case WriteBytes(bytes) => (p.(outbound := p.outbound + bytes), t)
    case EndPacket(accepted) =>
      if !p.open || p.destination == Unresolved then (p, t)
      else (p.(outbound := [], destination := Unresolved), if accepted then t.(sent := t.sent + [Offered(p)]) else t)
    case ParsePacket(answer) =>
      if !AsksKernel(p) || !answer.Received? then (p, t)
      else
        var d := answer.datagram;
        (if d.bytes == [] then p else p.(inbound := d.bytes, offset := 0, remote := From(d.sender)),
         t.(taken := t.taken + [d]))
    case ReadBytes(count) =>
      var n := Min(count, |Unread(p)|);
      (AfterRead(p, n), t.(delivered := t.delivered + [Unread(p)[..n]]))
  }

  /** State and trace after a whole history. */
  function After(es: seq<Event>): (Peer, Trace) {
    if es == [] then (STOPPED, NOTHING)
    else
      var (p, t) := After(es[..|es| - 1]);
      Step(p, t, es[|es| - 1])
  }

  // ------------------------------------------------------------------ inbound

  function Content(ds: seq<Datagram>): seq<byte> {
    if ds == [] then [] else Content(ds[..|ds| - 1]) + ds[|ds| - 1].bytes
  }

  function Joined(chunks: seq<seq<byte>>): seq<byte> {
    if chunks == [] then [] else Joined(chunks[..|chunks| - 1]) + chunks[|chunks| - 1]
  }

  /** The last datagram taken that had any bytes. */
  function LastNonEmpty(ds: seq<Datagram>): (r: seq<Datagram>)
    ensures |r| <= 1
  {
    if ds == [] then []
    else if ds[|ds| - 1].bytes != [] then [ds[|ds| - 1]]
    else LastNonEmpty(ds[..|ds| - 1])
  }

  /** Everything taken from the kernel is delivered or still unread, in order; what is
      unread is the tail of one datagram, whose sender is the one reported. */
  ghost predicate InboundExact(p: Peer, t: Trace) {
    && Joined(t.delivered) + Unread(p) == Content(t.taken)
    && (Unread(p) != [] ==> LastNonEmpty(t.taken) != [] && p.inbound == LastNonEmpty(t.taken)[0].bytes)
    && (p.offset < |p.inbound| || p.inbound == [])
    && p.remote == (if LastNonEmpty(t.taken) == [] then NoRemote else From(LastNonEmpty(t.taken)[0].sender))
    && (!p.open ==> Unread(p) == [])
  }

  lemma {:induction false} UnreadAfterRead(p: Peer, n: nat)
    requires n <= |Unread(p)| && (p.offset < |p.inbound| || p.inbound == [])
    ensures var p' := AfterRead(p, n);
            && Unread(p') == Unread(p)[n..]
            && (Unread(p') != [] ==> p'.inbound == p.inbound)
            && (p'.offset < |p'.inbound| || p'.inbound == [])
            && p'.remote == p.remote && p'.open == p.open
  {
  }

  lemma {:induction false} InboundRead(p: Peer, t: Trace, count: nat)
    requires InboundExact(p, t)
    ensures InboundExact(Step(p, t, ReadBytes(count)).0, Step(p, t, ReadBytes(count)).1)
  {
    hide Joined, Content, LastNonEmpty, AfterRead, Unread;
    var n := Min(count, |Unread(p)|);
    UnreadAfterRead(p, n);
    JoinedGrows(t.delivered, Unread(p)[..n]);
    TakeAndRest(Joined(t.delivered), Unread(p), n);
  }

  lemma {:induction false} JoinedGrows(chunks: seq<seq<byte>>, chunk: seq<byte>)
    ensures Joined(chunks + [chunk]) == Joined(chunks) + chunk
  {
    assert (chunks + [chunk])[..|chunks|] == chunks;
  }

  lemma {:induction false} TakeAndRest(x: seq<byte>, u: seq<byte>, n: nat)
    requires n <= |u|
    ensures (x + u[..n]) + u[n..] == x + u
  {
  }

  lemma {:induction false} InboundParse(p: Peer, t: Trace, d: Datagram)
    requires InboundExact(p, t) && AsksKernel(p)
    ensures var p' := if d.bytes == [] then p else p.(inbound := d.bytes, offset := 0, remote := From(d.sender));
            InboundExact(p', t.(taken := t.taken + [d]))
  {
    var taken := t.taken + [d];
    assert taken[..|taken| - 1] == t.taken;
    assert Joined(t.delivered) + [] == Joined(t.delivered);
    assert Content(t.taken) + [] == Content(t.taken);
  }

  lemma {:induction false} InboundStep(p: Peer, t: Trace, e: Event)
    requires InboundExact(p, t)
    ensures InboundExact(Step(p, t, e).0, Step(p, t, e).1)
  {
    match e {
      case ReadBytes(count) => InboundRead(p, t, count);
      case ParsePacket(answer) =>
        if AsksKernel(p) && answer.Received? {
          InboundParse(p, t, answer.datagram);
        }
      case _ =>
    }
  }

  /** Inbound discipline over every history. */
  lemma {:induction false} InboundOverRuns(es: seq<Event>)
    ensures InboundExact(After(es).0, After(es).1)
    decreases |es|
  {
    if es == [] {
    } else {
      InboundOverRuns(es[..|es| - 1]);
      var (p, t) := After(es[..|es| - 1]);
      InboundStep(p, t, es[|es| - 1]);
    }
  }

  lemma {:induction false} ReadStaysWithin(p: Peer, t: Trace, count: nat)
    requires InboundExact(p, t)
    ensures var t' := Step(p, t, ReadBytes(count)).1;
            && |t'.delivered| == |t.delivered| + 1
            && var chunk := t'.delivered[|t.delivered|];
               && |chunk| <= count
               && (chunk != [] ==>
                     && LastNonEmpty(t.taken) != []
                     && p.offset + |chunk| <= |LastNonEmpty(t.taken)[0].bytes|
                     && chunk == LastNonEmpty(t.taken)[0].bytes[p.offset..p.offset + |chunk|])
  {
    hide Joined, Content, LastNonEmpty, AfterRead;
  }

  lemma {:induction false} NoFetchWhileUnread(p: Peer, t: Trace, answer: Answer)
    requires InboundExact(p, t) && Joined(t.delivered) != Content(t.taken)
    ensures Step(p, t, ParsePacket(answer)) == (p, t)
  {
    hide Joined, Content, LastNonEmpty;
    assert Unread(p) == [] ==> Joined(t.delivered) + Unread(p) == Joined(t.delivered);
  }

  /** A read stays within the datagram being read, and a datagram is fetched only when
      none is partly unread. */
  lemma {:induction false} ReadsStayWithinDatagrams(es: seq<Event>, count: nat, answer: Answer)
    ensures var (p, t) := After(es);
            var t' := Step(p, t, ReadBytes(count)).1;
            && |t'.delivered| == |t.delivered| + 1
            && var chunk := t'.delivered[|t.delivered|];
               && |chunk| <= count
               && (chunk != [] ==>
                     && LastNonEmpty(t.taken) != []
                     && p.offset + |chunk| <= |LastNonEmpty(t.taken)[0].bytes|
                     && chunk == LastNonEmpty(t.taken)[0].bytes[p.offset..p.offset + |chunk|])
    ensures var (p, t) := After(es);
            Joined(t.delivered) != Content(t.taken) ==> Step(p, t, ParsePacket(answer)) == (p, t)
  {
    hide After, Step, InboundExact, Joined, Content, LastNonEmpty;
    InboundOverRuns(es);
    var (p, t) := After(es);
    ReadStaysWithin(p, t, count);
    if Joined(t.delivered) != Content(t.taken) {
      NoFetchWhileUnread(p, t, answer);
    }
  }

  lemma {:induction false} UnreadCount(p: Peer, t: Trace)
    requires InboundExact(p, t)
    ensures |Unread(p)| == |Content(t.taken)| - |Joined(t.delivered)|
    ensures Joined(t.delivered) == Content(t.taken) <==> Unread(p) == []
    ensures Unread(p) != [] ==> p.open && !AsksKernel(p)
    ensures p.open && Unread(p) == [] ==> AsksKernel(p)
  {
    hide Joined, Content, LastNonEmpty;
    assert Unread(p) == [] ==> Joined(t.delivered) + Unread(p) == Joined(t.delivered);
  }

  /** What `parsePacket` answers after every history: exhausted exactly when the peer is not
      open; with bytes unread their number; otherwise what the kernel answers, where a
      datagram with bytes counts with all of them and a refusal is temporary or an error. */
  lemma {:induction false} ParseAnswers(es: seq<Event>, answer: Answer)
    ensures var (p, t) := After(es);
            var r := Parsed(p, answer);
            && (IsExhausted(r) <==> !p.open)
            && (Joined(t.delivered) != Content(t.taken) ==> r.Count? && r.count == |Content(t.taken)| - |Joined(t.delivered)|)
            && (p.open && Joined(t.delivered) == Content(t.taken) ==>
                  match answer
                  case QueryFailed(code) => r == Unavailable(Error, code)
                  case NothingPending => r == Unavailable(TemporarilyUnavailable, 0)
                  case ReceiveFailed(retry, code) =>
                    r == if retry then Unavailable(TemporarilyUnavailable, 0) else Unavailable(Error, code)
                  case Received(d, retry, code) =>
                    r == if d.bytes != [] then Count(|d.bytes|)
                         else if retry then Unavailable(TemporarilyUnavailable, 0) else Unavailable(Error, code))
  {
    hide Joined, Content, After, InboundExact;
    InboundOverRuns(es);
    UnreadCount(After(es).0, After(es).1);
  }

  /** What `available` answers after every history. */
  lemma {:induction false} ReportAnswers(es: seq<Event>)
    ensures var (p, t) := After(es);
            if Joined(t.delivered) != Content(t.taken)
            then Report(p).Count? && Report(p).count == |Content(t.taken)| - |Joined(t.delivered)|
            else Report(p) == Unavailable(if p.open then TemporarilyUnavailable else Exhausted, 0)
  {
    hide Joined, Content, After, InboundExact;
    InboundOverRuns(es);
    UnreadCount(After(es).0, After(es).1);
  }

  // ----------------------------------------------------------------- outbound

  /** The bytes written by the events, in order. */
  function Payload(es: seq<Event>): seq<byte> {
    if es == [] then []
    else Payload(es[..|es| - 1]) + if es[|es| - 1].WriteBytes? then es[|es| - 1].bytes else []
  }

  predicate IsControl(e: Event) {
    e.Begin? || e.Stop? || e.BeginPacket? || e.EndPacket?
  }

  /** One past the index of the last event that starts or ends a packet or the socket. */
  function LastControl(es: seq<Event>): (k: nat)
    ensures k <= |es|
    ensures k > 0 ==> IsControl(es[k - 1])
    ensures forall i :: k <= i < |es| ==> !IsControl(es[i])
  {
    if es == [] then 0
    else if IsControl(es[|es| - 1]) then |es|
    else LastControl(es[..|es| - 1])
  }

  /** A packet is open exactly when the last control event was a `beginPacket` that
      resolved its address on an open socket, and it then holds precisely the writes
      since.  So `endPacket` offers exactly those bytes to that address, and offers
      nothing after a failed, missing or already ended `beginPacket`. */
  ghost predicate PacketIsOpen(es: seq<Event>) {
    var p, k := After(es).0, LastControl(es);
    && p.destination == (if k > 0 && es[k - 1].BeginPacket? && p.open then es[k - 1].resolved else Unresolved)
    && (p.destination.Resolved? ==> p.outbound == Payload(es[k..]))
    && (k > 0 && es[k - 1].BeginPacket? ==> p.outbound == Payload(es[k..]))
  }

  /** It is so after every history. */
  lemma {:induction false} OutboundExact(es: seq<Event>)
    ensures PacketIsOpen(es)
    decreases |es|
  {
    if es == [] {
    } else {
      OutboundExact(es[..|es| - 1]);
      OutboundExactStep(es, es[..|es| - 1], es[|es| - 1]);
    }
  }

  lemma {:induction false} AfterLast(es: seq<Event>)
    requires es != []
    ensures var (p, t) := After(es[..|es| - 1]);
            After(es) == Step(p, t, es[|es| - 1])
    ensures LastControl(es) == if IsControl(es[|es| - 1]) then |es| else LastControl(es[..|es| - 1])
  {
    hide Step, IsControl;
  }

  lemma {:induction false} OutboundExactStep(es: seq<Event>, before: seq<Event>, e: Event)
    requires es != [] && before == es[..|es| - 1] && e == es[|es| - 1] && PacketIsOpen(before)
    ensures PacketIsOpen(es)
  {
    hide After, LastControl, Payload;
    AfterLast(es);
    var (p, t) := After(before);
    var k := LastControl(es);
    if IsControl(e) {
      assert es[k..] == [];
      NoPayload();
    } else {
      hide Step;
      NonControlKeepsPacket(p, t, e);
      PayloadGrows(es, k);
      assert k > 0 ==> es[k - 1] == before[k - 1];
      assert PacketIsOpen(es);
    }
  }

  lemma {:induction false} NoPayload()
    ensures Payload([]) == []
  {
  }

  lemma {:induction false} NonControlKeepsPacket(p: Peer, t: Trace, e: Event)
    requires !IsControl(e)
    ensures var p' := Step(p, t, e).0;
            && p'.open == p.open && p'.destination == p.destination
            && p'.outbound == p.outbound + if e.WriteBytes? then e.bytes else []
  {
  }

  lemma {:induction false} PayloadGrows(es: seq<Event>, k: nat)
    requires k < |es|
    ensures Payload(es[k..]) == Payload(es[..|es| - 1][k..]) + if es[|es| - 1].WriteBytes? then es[|es| - 1].bytes else []
  {
    assert es[k..][..|es[k..]| - 1] == es[..|es| - 1][k..];
  }

  /** What the last event adds to the log of sent packets. */
  lemma {:induction false} SentExactly(es: seq<Event>, accepted: bool)
    ensures var (p, t) := After(es);
            var k := LastControl(es);
            After(es + [EndPacket(accepted)]).1.sent == t.sent +
              if accepted && p.open && k > 0 && es[k - 1].BeginPacket? && es[k - 1].resolved.Resolved?
              then [Packet(Payload(es[k..])[..Min(|Payload(es[k..])|, INT_MAX)], es[k - 1].resolved.address)] else []
  {
    OutboundExact(es);
    var now := es + [EndPacket(accepted)];
    assert now[..|now| - 1] == es;
    AfterLast(now);
    hide After, LastControl, Payload;
  }

  function SuccessfulBegins(es: seq<Event>): nat {
    if es == [] then 0
    else
      var before, e := es[..|es| - 1], es[|es| - 1];
      var succeeds := e.BeginPacket? && e.resolved.Resolved? && After(before).0.open;
      SuccessfulBegins(before) + (if succeeds then 1 else 0)
  }

  lemma {:induction false} BeginsLast(es: seq<Event>)
    requires es != []
    ensures SuccessfulBegins(es) == SuccessfulBegins(es[..|es| - 1]) +
              if es[|es| - 1].BeginPacket? && es[|es| - 1].resolved.Resolved? && After(es[..|es| - 1]).0.open then 1 else 0
  {
    hide After;
  }

  /** At most one packet is sent for each successful `beginPacket`. */
  lemma {:induction false} OnePacketPerBegin(es: seq<Event>)
    ensures var (p, t) := After(es);
            |t.sent| + (if p.destination.Resolved? then 1 else 0) <= SuccessfulBegins(es)
    decreases |es|
  {
    if es == [] {
    } else {
      OnePacketPerBegin(es[..|es| - 1]);
      AfterLast(es);
      BeginsLast(es);
      hide After, SuccessfulBegins, LastControl;
      var (p, t) := After(es);
      assert |t.sent| + (if p.destination.Resolved? then 1 else 0) <= SuccessfulBegins(es);
    }
  }
}
