/**
 The datagram peer as an object over the kernel.  Each call appends one event to the
 peer's history and leaves the fields as `SocketPeerModel` says after that history, so
 its theorems hold of every run; no call changes which other handles are open.
 */
module SocketPeer {
  import opened Bytes
  import opened Availability
  import opened Sockets
  import opened SocketPeerModel

  const EINTR := 4
  const EAGAIN := 11
  const ETIMEDOUT := 110

  predicate IsWouldBlock(errorCode: int) {
    errorCode == EAGAIN || errorCode == ETIMEDOUT
  }

  predicate IsInterrupted(errorCode: int) {
    errorCode == EINTR
  }

  /** The answer is the kernel's: an error only after a refused call, and nothing pending
      only when no datagram with bytes is at the head of the queue; trying again helps only
      against a call that would block, timed out or was interrupted. */
  ghost predicate Truthful(answer: Answer, queue: seq<Datagram>, failures: int) {
    && failures == (if answer.QueryFailed? || answer.ReceiveFailed? then 1 else 0)
    && (answer.NothingPending? ==> queue == [] || queue[0].bytes == [])
    && (answer.ReceiveFailed? || answer.Received? ==>
          (answer.retry <==> answer.errorCode == EAGAIN || answer.errorCode == ETIMEDOUT || answer.errorCode == EINTR))
  }

  class PosixSocketPeer {
    const kernel: Kernel
    const socket: SocketHandleOwner
    var inboundPacket: seq<byte>
    var inboundOffset: nat
    var outboundPacket: seq<byte>
    var outboundDestination: Lookup
    var remote: Remote
    ghost var history: seq<Event>

    ghost function Fields(): Peer
      reads this, socket
    {
      Peer(socket.handle != INVALID_HANDLE, inboundPacket, inboundOffset, outboundPacket, outboundDestination, remote)
    }

    ghost predicate Valid()
      reads this, socket, kernel
    {
      && kernel.Valid() && socket.kernel == kernel && socket.Held() <= kernel.open
      && Fields() == After(history).0
    }

    /** A socket just opened has received nothing. */
    ghost predicate NothingQueued()
      reads socket, kernel
    {
      socket.handle in kernel.queues && kernel.queues[socket.handle] == []
    }

    /** The open handles that are not this peer's. */
    ghost function Others(): set<int>
      reads this, socket, kernel
    {
      kernel.open - socket.Held()
    }

    constructor (kernel: Kernel)
      requires kernel.Valid()
      ensures Valid() && this.kernel == kernel && history == [] && fresh(socket)
      ensures Others() == kernel.open
    {
      this.kernel := kernel;
      var owner := new SocketHandleOwner(kernel, INVALID_HANDLE);
      socket := owner;
      inboundPacket, inboundOffset, outboundPacket := [], 0, [];
      outboundDestination, remote, history := Unresolved, NoRemote, [];
    }

    ghost method Record(e: Event)
      modifies this`history
      ensures history == old(history) + [e]
      ensures After(history) == Step(After(old(history)).0, After(old(history)).1, e)
    {
      history := history + [e];
      assert history[..|history| - 1] == old(history);
    }

    /** Clears every field and closes the socket. */
    method Clear()
      requires kernel.Valid() && socket.kernel == kernel && socket.Held() <= kernel.open
      modifies this, socket, kernel
      ensures kernel.Valid() && Fields() == STOPPED && history == old(history)
      ensures kernel.open == old(Others()) && kernel.sent == old(kernel.sent) && kernel.failures == old(kernel.failures)
      ensures kernel.State() == Without(old(kernel.State()), old(socket.Held())) && socket.handle == INVALID_HANDLE
      ensures old(kernel.log) <= kernel.log
    {
      socket.Reset(INVALID_HANDLE);
      inboundPacket := [];
      inboundOffset := 0;
      outboundPacket := [];
      outboundDestination := Unresolved;
      remote := NoRemote;
    }

    method Stop()
      requires Valid()
      modifies this, socket, kernel
      ensures Valid() && history == old(history) + [Event.Stop]
      ensures Others() == old(Others()) && kernel.open == Others() && kernel.sent == old(kernel.sent)
      ensures socket.handle == INVALID_HANDLE
      ensures old(kernel.log) <= kernel.log
    {
      Clear();
      Record(Event.Stop);
    }

    /** Every early return leaves no handle behind: the local owner closes what it holds. */
    method OpenSocket(port: nat) returns (ok: bool)
      requires kernel.Valid() && socket.kernel == kernel && socket.Held() <= kernel.open
      modifies this, socket, kernel
      ensures kernel.Valid() && socket.Held() <= kernel.open && history == old(history)
      ensures Fields() == STOPPED.(open := ok)
      ensures kernel.failures >= old(kernel.failures) && (ok <==> kernel.failures == old(kernel.failures))
      ensures ok ==> IsSetUp(port, [])
      ensures Others() == old(Others()) && kernel.sent == old(kernel.sent)
      ensures ok ==> NothingQueued()
      ensures old(kernel.log) <= kernel.log
    {
      hide Kernel.Valid, WithSocket, Without;
      Clear();
      ghost var cleared := kernel.State();
      var bindAddress := kernel.Resolve("", port);
      if bindAddress == Unresolved {
        return false;
      }
      var socketHandle := BoundTo(bindAddress.address);
      if socketHandle == null {
        return false;
      }
      NothingClosed(kernel.State());
      OpenOfWith(cleared, socketHandle.handle, kernel.asked[socketHandle.handle]);
      socket.MoveFrom(socketHandle);
      socketHandle.Destroy();
      return true;
    }

    lemma {:induction false} OpenOfWith(s: Sockets, h: int, requests: seq<Asked>)
      ensures WithSocket(s, h, requests).open == s.open + {h} && WithSocket(s, h, requests).sent == s.sent
      ensures h in WithSocket(s, h, requests).queues && WithSocket(s, h, requests).queues[h] == []
    {
    }

    /** A bound socket, or null with nothing left open. */
    method BoundTo(address: Address) returns (owner: SocketHandleOwner?)
      requires kernel.Valid()
      modifies kernel
      ensures kernel.Valid() && old(kernel.log) <= kernel.log
      ensures owner == null ==> kernel.State() == old(kernel.State()) && kernel.failures > old(kernel.failures)
      ensures owner != null ==>
        && fresh(owner) && owner.kernel == kernel && kernel.failures == old(kernel.failures)
        && owner.handle !in old(kernel.open) && owner.handle != INVALID_HANDLE
        && owner.handle in kernel.open && owner.handle in kernel.asked
        && kernel.State() == WithSocket(old(kernel.State()), owner.handle, kernel.asked[owner.handle])
        && Prepared(kernel.asked[owner.handle], [Granted(Bind(address)), Granted(NonBlocking)])
    {
      KeysOf(kernel);
      hide Kernel.Valid, WithSocket, Without, Keyed;
      ghost var before := kernel.State();
      var created := kernel.Socket();
      owner := new SocketHandleOwner(kernel, created);
      if owner.handle == INVALID_HANDLE {
        return null;
      }
      var bound := BindTo(created, address, before);
      if !bound {
        OpenedAndClosed(before, created, kernel.asked[created]);
        owner.Destroy();
        return null;
      }
    }

    /** Reuses the address if it can, binds, and stops blocking. */
    method BindTo(h: int, address: Address, ghost before: Sockets) returns (ok: bool)
      requires kernel.Valid() && kernel.State() == WithSocket(before, h, [])
      modifies kernel`failures, kernel`asked
      ensures kernel.Valid() && h in kernel.open && h in kernel.asked
      ensures kernel.State() == WithSocket(before, h, kernel.asked[h])
      ensures kernel.failures >= old(kernel.failures) && (ok <==> kernel.failures == old(kernel.failures))
      ensures ok ==> Prepared(kernel.asked[h], [Granted(Bind(address)), Granted(NonBlocking)])
    {
      hide Kernel.Valid, WithSocket, Kernel.State;
      var _, g := Ask(kernel, h, ReuseAddress, before, []);
      var isBound, g1 := Ask(kernel, h, Bind(address), before, g);
      if !isBound {
        return false;
      }
      var nonBlocking, g2 := Ask(kernel, h, NonBlocking, before, g1);
      ok := nonBlocking;
    }

    /** The peer's socket was bound to the port, set non-blocking, and asked nothing else. */
    ghost predicate IsSetUp(port: nat, more: seq<Asked>)
      reads socket, kernel
    {
      && socket.handle in kernel.asked
      && Prepared(kernel.asked[socket.handle], [Granted(Bind(Address("", port))), Granted(NonBlocking)] + more)
    }

    method Begin(port: nat) returns (ok: bool)
      requires Valid()
      modifies this, socket, kernel
      ensures Valid() && history == old(history) + [Event.Begin(ok)]
      ensures kernel.failures >= old(kernel.failures) && (ok <==> kernel.failures == old(kernel.failures))
      ensures ok ==> IsSetUp(port, [])
      ensures Others() == old(Others()) && kernel.sent == old(kernel.sent)
      ensures ok ==> NothingQueued()
      ensures old(kernel.log) <= kernel.log
    {
      ok := OpenSocket(port);
      Record(Event.Begin(ok));
    }

    /** Joining the group may fail with the socket left open. */
    method BeginMulticast(multicastAddress: string, port: nat) returns (ok: bool, ghost isOpen: bool)
      requires Valid()
      modifies this, socket, kernel
      ensures Valid() && history == old(history) + [Event.Begin(isOpen)]
      ensures ok ==> isOpen
      ensures kernel.failures >= old(kernel.failures) && (ok <==> kernel.failures == old(kernel.failures))
      ensures ok ==> IsSetUp(port, [Granted(JoinGroup(Address(multicastAddress, port)))])
      ensures Others() == old(Others()) && kernel.sent == old(kernel.sent)
      ensures isOpen ==> NothingQueued()
      ensures old(kernel.log) <= kernel.log
    {
      hide Kernel.Valid, After, WithSocket, Without;
      ok := OpenSocket(port);
      isOpen := ok;
      Record(Event.Begin(ok));
      if !ok {
        return;
      }
      ghost var soFar := [Granted(Bind(Address("", port))), Granted(NonBlocking)];
      assert soFar + [] == soFar;
      PreparedMore(kernel.asked[socket.handle], soFar, Granted(JoinGroup(Address(multicastAddress, port))));
      var group := kernel.Resolve(multicastAddress, port);
      if group == Unresolved {
        ok := false;
        return;
      }
      ok := kernel.Configure(socket.handle, JoinGroup(group.address));
    }

    method BeginPacket(address: string, port: nat) returns (ok: bool)
      requires Valid()
      modifies this, kernel`failures
      ensures Valid() && |history| == |old(history)| + 1 && old(history) <= history
      ensures old(Fields()).open && !ok ==> kernel.failures > old(kernel.failures)
      ensures history[|old(history)|].BeginPacket?
      ensures history[|old(history)|].resolved.Resolved? ==> history[|old(history)|].resolved.address == Address(address, port)
      ensures ok <==> socket.handle != INVALID_HANDLE && history[|old(history)|].resolved.Resolved?
    {
      outboundPacket := [];
      outboundDestination := Unresolved;
      if socket.handle == INVALID_HANDLE {
        Record(Event.BeginPacket(Unresolved));
        return false;
      }
      outboundDestination := kernel.Resolve(address, port);
      Record(Event.BeginPacket(outboundDestination));
      ok := outboundDestination.Resolved?;
    }

    method Write(bytes: seq<byte>) returns (n: nat)
      requires Valid()
      modifies this
      ensures Valid() && history == old(history) + [WriteBytes(bytes)] && n == |bytes|
    {
      outboundPacket := outboundPacket + bytes;
      Record(WriteBytes(bytes));
      return |bytes|;
    }

    /** What reaches the kernel is what the trace of the history gains. */
    method EndPacket() returns (ok: bool)
      requires Valid()
      modifies this, kernel`sent, kernel`failures
      ensures Valid() && history == old(history) + [Event.EndPacket(ok)]
      ensures ok ==> old(Fields()).open && old(Fields()).destination.Resolved?
      ensures !ok && old(Fields()).open && old(Fields()).destination.Resolved? ==> kernel.failures > old(kernel.failures)
      ensures old(kernel.sent) <= kernel.sent
      ensures After(history).1.sent == After(old(history)).1.sent + kernel.sent[|old(kernel.sent)|..]
    {
      if socket.handle == INVALID_HANDLE || outboundDestination == Unresolved {
        ok := false;
        Record(Event.EndPacket(false));
        return;
      }
      ok := kernel.Send(socket.handle, outboundDestination.address, outboundPacket[..Min(|outboundPacket|, INT_MAX)]);
      outboundPacket := [];
      outboundDestination := Unresolved;
      Record(Event.EndPacket(ok));
    }

    /** Takes the next datagram whole, but only when nothing is left unread. */
    method ParsePacket() returns (r: ByteAvailability, ghost answer: Answer)
      requires Valid()
      modifies this, kernel`queues, kernel`failures
      ensures Valid() && history == old(history) + [Event.ParsePacket(answer)]
      ensures r == Parsed(old(Fields()), answer)
      ensures AsksKernel(old(Fields())) ==> Truthful(answer, old(kernel.queues)[socket.handle], kernel.failures - old(kernel.failures))
      ensures AsksKernel(old(Fields())) && answer.Received? ==>
        && old(kernel.queues)[socket.handle] == [answer.datagram] + kernel.queues[socket.handle]
        && kernel.queues == old(kernel.queues)[socket.handle := kernel.queues[socket.handle]]
      ensures !(AsksKernel(old(Fields())) && answer.Received?) ==> kernel.queues == old(kernel.queues)
    {
      answer := NothingPending;
      if socket.handle == INVALID_HANDLE {
        r := EXHAUSTED_RESULT;
      } else if inboundOffset < |inboundPacket| {
        r := AvailableBytes(|inboundPacket| - inboundOffset);
      } else {
        r, answer := Fetch();
      }
      Record(Event.ParsePacket(answer));
    }

    /** The part of `parsePacket` that talks to the kernel. */
    method Fetch() returns (r: ByteAvailability, ghost answer: Answer)
      requires Valid() && AsksKernel(Fields())
      modifies this`inboundPacket, this`inboundOffset, this`remote, kernel`queues, kernel`failures
      ensures kernel.Valid()
      ensures Fields() == Step(old(Fields()), NOTHING, Event.ParsePacket(answer)).0
      ensures r == Parsed(old(Fields()), answer)
      ensures Truthful(answer, old(kernel.queues)[socket.handle], kernel.failures - old(kernel.failures))
      ensures answer.Received? ==>
        && old(kernel.queues)[socket.handle] == [answer.datagram] + kernel.queues[socket.handle]
        && kernel.queues == old(kernel.queues)[socket.handle := kernel.queues[socket.handle]]
      ensures !answer.Received? ==> kernel.queues == old(kernel.queues)
    {
      hide After, WellLogged, OpenAfter, Truthful;
      var queried, count, queryError := kernel.Pending(socket.handle);
      if !queried {
        answer := QueryFailed(queryError);
        RefusedIsTruthful(answer, kernel.queues[socket.handle]);
        return ErrorResult(queryError), answer;
      }
      if count == 0 {
        answer := NothingPending;
        NoneIsTruthful(kernel.queues[socket.handle]);
        return TEMPORARILY_UNAVAILABLE_RESULT, answer;
      }
      r, answer := Take(count);
    }

    lemma {:induction false} RefusedIsTruthful(answer: Answer, queue: seq<Datagram>)
      requires answer.QueryFailed?
      ensures Truthful(answer, queue, 1)
    {
    }

    lemma {:induction false} NoneIsTruthful(queue: seq<Datagram>)
      requires queue == [] || queue[0].bytes == []
      ensures Truthful(NothingPending, queue, 0)
    {
    }

    lemma {:induction false} ReceiveIsTruthful(answer: Answer, queue: seq<Datagram>)
      requires answer.ReceiveFailed? || answer.Received?
      requires answer.retry <==> IsWouldBlock(answer.errorCode) || IsInterrupted(answer.errorCode)
      ensures Truthful(answer, queue, if answer.ReceiveFailed? then 1 else 0)
    {
    }

    lemma {:induction false} ParseOutcome(p: Peer, answer: Answer)
      requires AsksKernel(p) && (answer.ReceiveFailed? || answer.Received?)
      ensures Step(p, NOTHING, Event.ParsePacket(answer)).0 ==
              if answer.Received? && answer.datagram.bytes != []
              then p.(inbound := answer.datagram.bytes, offset := 0, remote := From(answer.datagram.sender)) else p
      ensures Parsed(p, answer) ==
              if answer.Received? && answer.datagram.bytes != [] then AvailableBytes(|answer.datagram.bytes|)
              else if answer.retry then TEMPORARILY_UNAVAILABLE_RESULT else ErrorResult(answer.errorCode)
    {
    }

    /** Receives into a buffer that fits the datagram at the head of the queue. */
    method Take(count: nat) returns (r: ByteAvailability, ghost answer: Answer)
      requires kernel.Valid() && socket.kernel == kernel && AsksKernel(Fields()) && socket.handle in kernel.open
      requires count <= INT_MAX
      requires socket.handle in kernel.queues && kernel.queues[socket.handle] != [] ==> count >= |kernel.queues[socket.handle][0].bytes|
      modifies this`inboundPacket, this`inboundOffset, this`remote, kernel`queues, kernel`failures
      ensures kernel.Valid() && socket.handle in old(kernel.queues) && socket.handle in kernel.queues
      ensures Fields() == Step(old(Fields()), NOTHING, Event.ParsePacket(answer)).0
      ensures r == Parsed(old(Fields()), answer)
      ensures Truthful(answer, old(kernel.queues)[socket.handle], kernel.failures - old(kernel.failures))
      ensures answer.Received? ==>
        && old(kernel.queues)[socket.handle] == [answer.datagram] + kernel.queues[socket.handle]
        && kernel.queues == old(kernel.queues)[socket.handle := kernel.queues[socket.handle]]
      ensures !answer.Received? ==> kernel.queues == old(kernel.queues)
    {
      KeysOf(kernel);
      hide After, Kernel.Valid, Step, Parsed, Truthful, AsksKernel;
      ghost var before, queue := Fields(), kernel.queues[socket.handle];
      var result, datagram, errorCode := kernel.Receive(socket.handle, Min(count, INT_MAX));
      KeysOf(kernel);
      var retry := IsWouldBlock(errorCode) || IsInterrupted(errorCode);
      if result < 0 {
        answer := ReceiveFailed(retry, errorCode);
      } else {
        assert datagram == old(kernel.queues)[socket.handle][0];
        answer := Received(datagram, retry, errorCode);
      }
      ParseOutcome(before, answer);
      ReceiveIsTruthful(answer, queue);
      if result <= 0 {
        r := if retry then TEMPORARILY_UNAVAILABLE_RESULT else ErrorResult(errorCode);
        return;
      }
      inboundPacket := datagram.bytes;
      inboundOffset := 0;
      remote := From(datagram.sender);
      r := AvailableBytes(|inboundPacket|);
    }

    method Available() returns (r: ByteAvailability)
      requires Valid()
      ensures r == Report(Fields())
    {
      if inboundOffset < |inboundPacket| {
        return AvailableBytes(|inboundPacket| - inboundOffset);
      }
      return if socket.handle != INVALID_HANDLE then TEMPORARILY_UNAVAILABLE_RESULT else EXHAUSTED_RESULT;
    }

    method Peek(buffer: array<byte>) returns (n: nat)
      requires Valid()
      modifies buffer
      ensures n == Min(buffer.Length, |Unread(Fields())|)
      ensures buffer[..n] == Unread(Fields())[..n] && buffer[n..] == old(buffer[n..])
    {
      if buffer.Length == 0 || inboundOffset >= |inboundPacket| {
        return 0;
      }
      n := Min(buffer.Length, |inboundPacket| - inboundOffset);
      forall i | 0 <= i < n {
        buffer[i] := inboundPacket[inboundOffset + i];
      }
    }

    method Read(buffer: array<byte>) returns (n: nat)
      requires Valid()
      modifies this, buffer
      ensures Valid() && history == old(history) + [ReadBytes(buffer.Length)]
      ensures n == Min(buffer.Length, |Unread(old(Fields()))|)
      ensures buffer[..n] == Unread(old(Fields()))[..n] && buffer[n..] == old(buffer[n..])
      ensures After(history).1.delivered == After(old(history)).1.delivered + [buffer[..n]]
    {
      n := Peek(buffer);
      inboundOffset := inboundOffset + n;
      if inboundOffset >= |inboundPacket| {
        inboundPacket := [];
        inboundOffset := 0;
      }
      Record(ReadBytes(buffer.Length));
    }
  }
}
