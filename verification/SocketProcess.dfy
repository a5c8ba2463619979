/**
 A process that owns sockets through a server, a peer and any number of clients, and
 the ownership discipline its operations keep over every run: each open handle has
 exactly one owner, and none is lost on any early return.
 */
module SocketProcess {
  import opened Bytes
  import opened PathUtility
  import opened Sockets
  import opened SocketPeerModel
  import opened SocketPeer

  class PosixSocketClient {
    const socket: SocketHandleOwner

    constructor (kernel: Kernel, handle: int)
      ensures fresh(socket) && socket.kernel == kernel && socket.handle == handle
    {
      var owner := new SocketHandleOwner(kernel, handle);
      socket := owner;
    }
  }

  /** The open handles that are not `o`'s. */
  ghost function Beside(o: SocketHandleOwner): set<int>
    reads o, o.kernel
  {
    o.kernel.open - o.Held()
  }

  /** What left the queue was taken. */
  ghost predicate TakenFrom(queue: seq<Datagram>, queue': seq<Datagram>, taken: seq<Datagram>, taken': seq<Datagram>) {
    taken' + queue' == taken + queue
  }

  lemma {:induction false} ParseTakes(p: Peer, t: Trace, answer: Answer, queue: seq<Datagram>, queue': seq<Datagram>)
    requires AsksKernel(p) && answer.Received? ==> queue == [answer.datagram] + queue'
    requires !(AsksKernel(p) && answer.Received?) ==> queue == queue'
    ensures TakenFrom(queue, queue', t.taken, Step(p, t, ParsePacket(answer)).1.taken)
    ensures Step(p, t, ParsePacket(answer)).1.sent == t.sent
  {
    if AsksKernel(p) && answer.Received? {
      assert (t.taken + [answer.datagram]) + queue' == t.taken + ([answer.datagram] + queue');
    }
  }

  lemma {:induction false} SentByParse(p: Peer, t: Trace, answer: Answer)
    ensures Step(p, t, ParsePacket(answer)).1.sent == t.sent
  {
  }

  /** The other calls take nothing. */
  lemma {:induction false} OthersTakeNothing(p: Peer, t: Trace, e: Event)
    requires e.BeginPacket? || e.WriteBytes? || e.EndPacket? || e.ReadBytes?
    ensures Step(p, t, e).1.taken == t.taken
    ensures !e.EndPacket? ==> Step(p, t, e).1.sent == t.sent
    ensures forall queue :: TakenFrom(queue, queue, t.taken, Step(p, t, e).1.taken)
  {
  }

  lemma {:induction false} PrefixAndRest<T>(before: seq<T>, after: seq<T>)
    requires before <= after
    ensures after == before + after[|before|..]
  {
  }

  lemma {:induction false} ContentOfParts(a: seq<Datagram>, b: seq<Datagram>)
    ensures Content(a + b) == Content(a) + Content(b)
    decreases |b|
  {
    if b == [] {
      assert a + b == a;
    } else {
      assert (a + b)[..|a + b| - 1] == a + b[..|b| - 1];
      ContentOfParts(a, b[..|b| - 1]);
    }
  }

  lemma {:induction false} LastStep(es: seq<Event>, before: seq<Event>)
    requires |es| == |before| + 1 && before <= es
    ensures After(es) == Step(After(before).0, After(before).1, es[|before|])
  {
    hide Step;
    assert es[..|es| - 1] == before;
  }

  class PosixSocketServer {
    const kernel: Kernel
    const listener: SocketHandleOwner

    constructor (kernel: Kernel)
      ensures this.kernel == kernel && fresh(listener) && listener.kernel == kernel && listener.handle == INVALID_HANDLE
    {
      this.kernel := kernel;
      var owner := new SocketHandleOwner(kernel, INVALID_HANDLE);
      listener := owner;
    }

    /** Does nothing when already listening; otherwise listens, or leaves no handle behind. */
    method Begin(port: nat)
      requires kernel.Valid() && listener.kernel == kernel && listener.Held() <= kernel.open
      modifies listener, kernel
      ensures kernel.Valid() && old(kernel.log) <= kernel.log && kernel.failures >= old(kernel.failures)
      ensures listener.handle == INVALID_HANDLE <==> kernel.failures > old(kernel.failures)
      ensures old(listener.handle) != INVALID_HANDLE || listener.handle == INVALID_HANDLE ==>
        listener.handle == old(listener.handle) && kernel.State() == old(kernel.State())
      ensures old(listener.handle) == INVALID_HANDLE && listener.handle != INVALID_HANDLE ==>
        && listener.handle !in old(kernel.open) && listener.handle in kernel.asked
        && kernel.State() == WithSocket(old(kernel.State()), listener.handle, kernel.asked[listener.handle])
        && Prepared(kernel.asked[listener.handle], [Granted(Bind(Address("", port))), Granted(Request.Listen), Granted(NonBlocking)])
    {
      hide Kernel.Valid, WithSocket, Without;
      if listener.handle != INVALID_HANDLE {
        return;
      }
      var bindAddress := kernel.Resolve("", port);
      if bindAddress == Unresolved {
        return;
      }
      var owner := ListeningOn(bindAddress.address);
      if owner == null {
        return;
      }
      NothingClosed(kernel.State());
      listener.MoveFrom(owner);
      owner.Destroy();
    }

    /** A listening socket, or null with nothing left open. */
    method ListeningOn(address: Address) returns (owner: SocketHandleOwner?)
      requires kernel.Valid()
      modifies kernel
      ensures kernel.Valid() && old(kernel.log) <= kernel.log
      ensures owner == null ==> kernel.State() == old(kernel.State()) && kernel.failures > old(kernel.failures)
      ensures owner != null ==>
        && fresh(owner) && owner.kernel == kernel && kernel.failures == old(kernel.failures)
        && owner.handle !in old(kernel.open) && owner.handle != INVALID_HANDLE
        && owner.handle in kernel.open && owner.handle in kernel.asked
        && kernel.State() == WithSocket(old(kernel.State()), owner.handle, kernel.asked[owner.handle])
        && Prepared(kernel.asked[owner.handle], [Granted(Bind(address)), Granted(Request.Listen), Granted(NonBlocking)])
    {
      KeysOf(kernel);
      hide Kernel.Valid, WithSocket, Without, Keyed;
      ghost var before := kernel.State();
      var created := kernel.Socket();
      owner := new SocketHandleOwner(kernel, created);
      if owner.handle == INVALID_HANDLE {
        return null;
      }
      var listening := Listen(created, address, before);
      if !listening {
        OpenedAndClosed(before, created, kernel.asked[created]);
        owner.Destroy();
        return null;
      }
    }

    /** Reuses the address if it can, binds, listens, and stops blocking. */
    method Listen(h: int, address: Address, ghost before: Sockets) returns (ok: bool)
      requires kernel.Valid() && kernel.State() == WithSocket(before, h, [])
      modifies kernel`failures, kernel`asked
      ensures kernel.Valid() && h in kernel.open && h in kernel.asked
      ensures kernel.State() == WithSocket(before, h, kernel.asked[h])
      ensures kernel.failures >= old(kernel.failures) && (ok <==> kernel.failures == old(kernel.failures))
      ensures ok ==> Prepared(kernel.asked[h], [Granted(Bind(address)), Granted(Request.Listen), Granted(NonBlocking)])
    {
      hide Kernel.Valid, WithSocket, Kernel.State;
      var _, g := Ask(kernel, h, ReuseAddress, before, []);
      var isBound, g1 := Ask(kernel, h, Bind(address), before, g);
      if !isBound {
        return false;
      }
      var isListening, g2 := Ask(kernel, h, Request.Listen, before, g1);
      if !isListening {
        return false;
      }
      var nonBlocking, g3 := Ask(kernel, h, NonBlocking, before, g2);
      ok := nonBlocking;
    }

    method Accept() returns (client: PosixSocketClient?)
      requires kernel.Valid() && listener.kernel == kernel && listener.Held() <= kernel.open
      modifies kernel
      ensures kernel.Valid() && old(kernel.log) <= kernel.log
      ensures client == null ==> kernel.State() == old(kernel.State())
      ensures client == null && listener.handle != INVALID_HANDLE ==> kernel.failures > old(kernel.failures)
      ensures client != null ==>
        && fresh(client) && fresh(client.socket) && client.socket.kernel == kernel && kernel.failures == old(kernel.failures)
        && client.socket.handle !in old(kernel.open) && client.socket.handle != INVALID_HANDLE
        && kernel.State() == WithSocket(old(kernel.State()), client.socket.handle, [])
    {
      if listener.handle == INVALID_HANDLE {
        return null;
      }
      var accepted := kernel.Accept(listener.handle);
      if accepted == INVALID_HANDLE {
        return null;
      }
      client := new PosixSocketClient(kernel, accepted);
    }

    method End()
      requires kernel.Valid() && listener.kernel == kernel && listener.Held() <= kernel.open
      modifies listener, kernel
      ensures kernel.Valid() && listener.handle == INVALID_HANDLE && old(kernel.log) <= kernel.log
      ensures kernel.State() == Without(old(kernel.State()), old(listener.Held()))
    {
      listener.Reset(INVALID_HANDLE);
    }
  }

  /** A connected client, or null with nothing left open: the handle is released into the
      client only once the connection stands. */
  method CreateClient(kernel: Kernel, address: string, port: nat) returns (client: PosixSocketClient?)
    requires kernel.Valid()
    modifies kernel
    ensures kernel.Valid() && old(kernel.log) <= kernel.log
    ensures client == null ==> kernel.State() == old(kernel.State()) && kernel.failures > old(kernel.failures)
    ensures client != null ==>
      && fresh(client) && fresh(client.socket) && client.socket.kernel == kernel && kernel.failures == old(kernel.failures)
      && client.socket.handle !in old(kernel.open) && client.socket.handle != INVALID_HANDLE
      && kernel.State() == WithSocket(old(kernel.State()), client.socket.handle, [Granted(Connect(Address(address, port)))])
  {
    hide Kernel.Valid, WithSocket, Without;
    var remote := kernel.Resolve(address, port);
    if remote == Unresolved {
      return null;
    }
    var socketHandle := ConnectedTo(kernel, remote.address);
    if socketHandle == null {
      return null;
    }
    var h := socketHandle.Release();
    client := new PosixSocketClient(kernel, h);
    NothingClosed(kernel.State());
    socketHandle.Destroy();
  }

  /** A socket with a standing connection, or null with nothing left open. */
  method ConnectedTo(kernel: Kernel, address: Address) returns (owner: SocketHandleOwner?)
    requires kernel.Valid()
    modifies kernel
    ensures kernel.Valid() && old(kernel.log) <= kernel.log
    ensures owner == null ==> kernel.State() == old(kernel.State()) && kernel.failures > old(kernel.failures)
    ensures owner != null ==>
      && fresh(owner) && owner.kernel == kernel && kernel.failures == old(kernel.failures)
      && owner.handle !in old(kernel.open) && owner.handle != INVALID_HANDLE
      && kernel.State() == WithSocket(old(kernel.State()), owner.handle, [Granted(Connect(address))])
  {
    KeysOf(kernel);
    hide Kernel.Valid, WithSocket, Without, Asking, Keyed;
    ghost var before := kernel.State();
    var created := kernel.Socket();
    owner := new SocketHandleOwner(kernel, created);
    if owner.handle == INVALID_HANDLE {
      return null;
    }
    var connected, asked := Ask(kernel, created, Connect(address), before, []);
    if !connected {
      OpenedAndClosed(before, created, asked);
      owner.Destroy();
      return null;
    }
    assert asked == [Granted(Connect(address))];
  }

  datatype Command =
    | ServerBegin(port: nat)
    | ServerEnd
    | ServerAccept
    | PeerBegin(port: nat)
    | PeerBeginMulticast(address: string, port: nat)
    | PeerStop
    | ClientConnect(address: string, port: nat)
    | ClientStop(client: nat)
    | ClientDestroy(client: nat)
    | ClientMove(target: nat, from: nat)
    | ClientHandOver(client: nat)
    | PacketBegin(address: string, port: nat)
    | PacketWrite(bytes: seq<byte>)
    | PacketEnd
    | PacketParse
    | PacketRead(count: nat)
    | DatagramArrives(datagram: Datagram)

  /** The event that a call on the peer adds to its history. */
  predicate Records(c: Command, e: Event) {
    match c
    case PeerBegin(_) => e.Begin?
    case PeerBeginMulticast(_, _) => e.Begin?
    case PeerStop => e == Event.Stop
    case PacketBegin(address, port) => e.BeginPacket? && (e.resolved.Resolved? ==> e.resolved.address == Address(address, port))
    case PacketWrite(bytes) => e == WriteBytes(bytes)
    case PacketEnd => e.EndPacket?
    case PacketParse => e.ParsePacket?
    case PacketRead(count) => e == ReadBytes(count)
    case _ => false
  }

  /** One entry for each command: the event it added to the peer's history, the datagram it
      put into the peer's queue, or nothing that concerns the peer. */
  datatype Entry = Called(event: Event) | Arrived(datagram: Datagram) | Quiet

  function Calls(tape: seq<Entry>): seq<Event> {
    if tape == [] then []
    else Calls(tape[..|tape| - 1]) + if tape[|tape| - 1].Called? then [tape[|tape| - 1].event] else []
  }

  /** The datagrams that arrived since the peer last began or stopped. */
  function Arrivals(tape: seq<Entry>): seq<Datagram> {
    if tape == [] then []
    else
      var before := Arrivals(tape[..|tape| - 1]);
      match tape[|tape| - 1]
      case Called(e) => if e.Begin? || e.Stop? then [] else before
      case Arrived(d) => before + [d]
      case Quiet => before
  }

  lemma {:induction false} OneMoreEntry(tape: seq<Entry>, e: Entry)
    ensures Calls(tape + [e]) == Calls(tape) + if e.Called? then [e.event] else []
    ensures Arrivals(tape + [e]) ==
            match e
            case Called(event) => if event.Begin? || event.Stop? then [] else Arrivals(tape)
            case Arrived(d) => Arrivals(tape) + [d]
            case Quiet => Arrivals(tape)
  {
    assert (tape + [e])[..|tape|] == tape;
  }

  /** The entry that a command puts on the tape while the peer is open or not. */
  predicate Matches(c: Command, e: Entry, open: bool) {
    match c
    case DatagramArrives(d) => e == if open && |d.bytes| <= INT_MAX then Arrived(d) else Quiet
    case _ => if ConcernsPeer(c) then e.Called? && Records(c, e.event) else e == Quiet
  }

  /** Entry `n` is the one for the command. */
  predicate EntryFits(c: Command, tape: seq<Entry>, n: nat) {
    n < |tape| && Matches(c, tape[n], After(Calls(tape[..n])).0.open)
  }

  lemma {:induction false} StillFits(c: Command, before: seq<Entry>, tape: seq<Entry>, n: nat)
    requires EntryFits(c, before, n) && before <= tape
    ensures EntryFits(c, tape, n)
  {
    assert tape[..n] == before[..n];
  }

  lemma {:induction false} FitsAtEnd(c: Command, before: seq<Entry>, tape: seq<Entry>)
    requires before <= tape && |tape| == |before| + 1
    requires Matches(c, tape[|before|], After(Calls(before)).0.open)
    ensures EntryFits(c, tape, |before|)
  {
    assert tape[..|before|] == before;
  }

  predicate ConcernsPeer(c: Command) {
    StartsPeer(c) || c.PacketBegin? || c.PacketWrite? || c.PacketEnd? || c.PacketParse? || c.PacketRead?
  }

  predicate StartsPeer(c: Command) {
    c.PeerBegin? || c.PeerBeginMulticast? || c.PeerStop?
  }

  class SocketProcess {
    const kernel: Kernel
    const server: PosixSocketServer
    const peer: PosixSocketPeer
    var clients: seq<PosixSocketClient>
    /** Every owner object of the process. */
    ghost var everyone: set<SocketHandleOwner>
    ghost var ownerOf: map<int, SocketHandleOwner>
    /** What happened to the peer, command by command. */
    ghost var tape: seq<Entry>
    /** What the kernel had sent before. */
    ghost const earlier: seq<Packet>

    /** Each open handle is held by exactly one owner, and owners hold open handles only. */
    ghost predicate ExactlyOneOwner()
      reads this`everyone, this`ownerOf, kernel, everyone
    {
      && ownerOf.Keys == kernel.open
      && (forall h :: h in ownerOf ==> ownerOf[h] in everyone && ownerOf[h].handle == h)
      && (forall o :: o in everyone ==> o.kernel == kernel && KnownAs(o))
    }

    ghost predicate KnownAs(o: SocketHandleOwner)
      reads this`ownerOf, o
    {
      o.handle != INVALID_HANDLE ==> o.handle in ownerOf && ownerOf[o.handle] == o
    }

    ghost function ClientSockets(): set<SocketHandleOwner>
      reads this`clients
    {
      set i | 0 <= i < |clients| :: clients[i].socket
    }

    /** The owners are those of the server, the peer and the clients, all different. */
    ghost predicate Rooted()
      reads this`clients, this`everyone
    {
      && everyone == {server.listener, peer.socket} + ClientSockets()
      && server.listener != peer.socket && server.listener !in ClientSockets() && peer.socket !in ClientSockets()
      && (forall i, j :: 0 <= i < j < |clients| ==> clients[i].socket != clients[j].socket)
    }

    lemma {:induction false} OwnersDiffer()
      requires Rooted()
      ensures server.listener in everyone && peer.socket in everyone && server.listener != peer.socket
      ensures forall i :: 0 <= i < |clients| ==>
        clients[i].socket in everyone && clients[i].socket != server.listener && clients[i].socket != peer.socket
      ensures forall i, j :: 0 <= i < j < |clients| ==> clients[i].socket != clients[j].socket
    {
      assert forall i :: 0 <= i < |clients| ==> clients[i].socket in ClientSockets();
    }

    ghost predicate Valid()
      reads this`clients, this`everyone, this`ownerOf, kernel, everyone, peer, peer.socket
    {
      && Rooted() && ExactlyOneOwner() && kernel.Valid()
      && server.kernel == kernel && peer.kernel == kernel && peer.Valid()
    }

    /** All that was sent, and all that arrived for the peer, is accounted for. */
    ghost predicate Ledger()
      reads this`tape, kernel, peer, peer.socket
    {
      && peer.history == Calls(tape)
      && kernel.sent == earlier + After(peer.history).1.sent
      && (peer.socket.handle != INVALID_HANDLE ==>
            && peer.socket.handle in kernel.queues
            && After(peer.history).1.taken + kernel.queues[peer.socket.handle] == Arrivals(tape))
    }

    constructor (kernel: Kernel)
      requires kernel.Valid() && kernel.open == {}
      ensures Valid() && Ledger() && this.kernel == kernel && clients == [] && tape == []
      ensures fresh(everyone) && fresh(peer)
    {
      this.kernel := kernel;
      var s := new PosixSocketServer(kernel);
      var p := new PosixSocketPeer(kernel);
      server, peer, clients := s, p, [];
      everyone, ownerOf := {s.listener, p.socket}, map[];
      tape, earlier := [], kernel.sent;
    }

    /** After one owner closed what it held or took a new handle, and nothing else moved,
        the ownership map is right again. */
    ghost method Settle(o: SocketHandleOwner)
      requires o in everyone && o.Held() <= kernel.open && INVALID_HANDLE !in kernel.open
      requires forall p :: p in everyone ==> p.kernel == kernel && (p != o ==> KnownAs(p))
      requires forall h :: h in ownerOf && ownerOf[h] != o ==> ownerOf[h] in everyone && ownerOf[h].handle == h
      requires kernel.open - o.Held() == set h | h in ownerOf && ownerOf[h] != o
      modifies this`ownerOf
      ensures ExactlyOneOwner()
    {
      ghost var others := set h | h in ownerOf && ownerOf[h] != o;
      assert forall h :: h in kernel.open ==> h in o.Held() || h in others;
      assert forall h :: h in others ==> h in kernel.open && h !in o.Held();
      ownerOf := map h | h in kernel.open :: OwnerNow(o, h);
      assert forall p :: p in everyone && p != o && p.handle != INVALID_HANDLE ==> p.handle in others;
    }

    /** The same after what `b` held went to `a`. */
    ghost method SettleTwo(a: SocketHandleOwner, b: SocketHandleOwner)
      requires a in everyone && b in everyone && b.handle == INVALID_HANDLE
      requires a.Held() <= kernel.open && INVALID_HANDLE !in kernel.open
      requires forall p :: p in everyone ==> p.kernel == kernel && (p != a && p != b ==> KnownAs(p))
      requires forall h :: h in ownerOf && ownerOf[h] != a && ownerOf[h] != b ==> ownerOf[h] in everyone && ownerOf[h].handle == h
      requires kernel.open - a.Held() == set h | h in ownerOf && ownerOf[h] != a && ownerOf[h] != b
      modifies this`ownerOf
      ensures ExactlyOneOwner()
    {
      ghost var others := set h | h in ownerOf && ownerOf[h] != a && ownerOf[h] != b;
      ownerOf := map h | h in ownerOf && h in others :: ownerOf[h];
      assert kernel.open - a.Held() == set h | h in ownerOf && ownerOf[h] != a;
      Settle(a);
    }

    ghost function OwnerNow(o: SocketHandleOwner, h: int): SocketHandleOwner
      requires h in o.Held() || h in ownerOf
      reads this`ownerOf, o
    {
      if h in o.Held() then o else ownerOf[h]
    }

    /** The handles of all owners but one. */
    lemma {:induction false} BesideIsOthers(o: SocketHandleOwner)
      requires Valid() && o in everyone
      ensures Beside(o) == set h | h in ownerOf && ownerOf[h] != o
    {
      forall h
        ensures h in Beside(o) <==> h in ownerOf && ownerOf[h] != o
      {
        assert KnownAs(o);
      }
    }

    lemma {:induction false} BesideIsOthersOfTwo(a: SocketHandleOwner, b: SocketHandleOwner)
      requires Valid() && a in everyone && b in everyone
      ensures kernel.open - a.Held() - b.Held() == set h | h in ownerOf && ownerOf[h] != a && ownerOf[h] != b
    {
      forall h
        ensures h in kernel.open - a.Held() - b.Held() <==> h in ownerOf && ownerOf[h] != a && ownerOf[h] != b
      {
        assert KnownAs(a) && KnownAs(b);
      }
    }

    /** Nothing was sent, and the peer and what waits for it are as they were. */
    twostate predicate PeerUntouched()
      reads kernel, peer, peer.socket
    {
      && kernel.sent == old(kernel.sent) && unchanged(peer) && unchanged(peer.socket)
      && KeepsQueues(old(kernel.queues), kernel.queues, peer.socket.Held())
    }

    twostate lemma {:induction false} QueuesKeptForPeer(handles: set<int>)
      requires unchanged(peer) && unchanged(peer.socket) && kernel.sent == old(kernel.sent)
      requires KeepsQueues(old(kernel.queues), kernel.queues, handles) && peer.socket.Held() <= handles
      ensures PeerUntouched()
    {
    }

    twostate lemma {:induction false} KernelUnchangedForPeer()
      requires unchanged(peer) && unchanged(peer.socket) && unchanged(kernel)
      ensures PeerUntouched()
    {
    }

    lemma {:induction false} PeerIsBeside(o: SocketHandleOwner)
      requires Valid() && o in everyone && o != peer.socket
      ensures peer.socket.Held() <= Beside(o) && peer.socket.Held() <= kernel.open
    {
      assert KnownAs(o) && KnownAs(peer.socket);
    }

    method BeginServer(port: nat)
      requires Valid()
      modifies this`ownerOf, server.listener, kernel
      ensures Valid() && old(kernel.log) <= kernel.log
      ensures server.listener.handle == INVALID_HANDLE ==> kernel.failures > old(kernel.failures)
      ensures PeerUntouched()
    {
      hide Kernel.Valid, PosixSocketPeer.Valid, PeerUntouched, KeepsQueues, Rooted, ClientSockets;
      OwnersDiffer();
      BesideIsOthers(server.listener);
      PeerIsBeside(server.listener);
      ghost var open := kernel.open;
      server.Begin(port);
      QueuesKeptForPeer(open);
      PeerStays();
      NoInvalidHandle();
      Settle(server.listener);
    }

    method EndServer()
      requires Valid()
      modifies this`ownerOf, server.listener, kernel
      ensures Valid() && old(kernel.log) <= kernel.log
      ensures server.listener.handle == INVALID_HANDLE
      ensures PeerUntouched()
    {
      hide Kernel.Valid, PosixSocketPeer.Valid, PeerUntouched, KeepsQueues, Rooted, ClientSockets;
      OwnersDiffer();
      BesideIsOthers(server.listener);
      PeerIsBeside(server.listener);
      ghost var beside := Beside(server.listener);
      server.End();
      QueuesKeptForPeer(beside);
      PeerStays();
      NoInvalidHandle();
      Settle(server.listener);
    }

    /** A new client joins the process with the handle that was made for it. */
    method Adopt(client: PosixSocketClient, ghost before: set<int>)
      requires Rooted() && kernel.Valid() && client.socket !in everyone
      requires client.socket.kernel == kernel && client.socket.handle != INVALID_HANDLE
      requires client.socket.handle !in before && kernel.open == before + {client.socket.handle}
      requires ownerOf.Keys == before
      requires forall h :: h in ownerOf ==> ownerOf[h] in everyone && ownerOf[h].handle == h
      requires forall o :: o in everyone ==> o.kernel == kernel && KnownAs(o)
      modifies this`ownerOf, this`clients, this`everyone
      ensures ExactlyOneOwner() && Rooted()
      ensures clients == old(clients) + [client] && everyone == old(everyone) + {client.socket}
    {
      ghost var o := client.socket;
      Join(client);
      assert (set h | h in ownerOf && ownerOf[h] != o) == before by {
        assert forall h :: h in before <==> h in ownerOf && ownerOf[h] != o;
      }
      assert kernel.open - o.Held() == before;
      Settle(o);
    }

    method AcceptClient()
      requires Valid()
      modifies this`ownerOf, this`clients, this`everyone, kernel
      ensures Valid() && old(kernel.log) <= kernel.log && fresh(everyone - old(everyone))
      ensures old(clients) <= clients && |clients| <= |old(clients)| + 1
      ensures clients == old(clients) && server.listener.handle != INVALID_HANDLE ==> kernel.failures > old(kernel.failures)
      ensures PeerUntouched()
    {
      hide Kernel.Valid, PeerUntouched, PosixSocketPeer.Valid, KeepsQueues, Rooted, ClientSockets;
      OwnersDiffer();
      assert KnownAs(server.listener);
      PeerIsBeside(server.listener);
      ghost var before := kernel.open;
      var client := server.Accept();
      QueuesKeptForPeer(before);
      PeerStays();
      if client != null {
        Adopt(client, before);
      }
    }

    method ConnectClient(address: string, port: nat)
      requires Valid()
      modifies this`ownerOf, this`clients, this`everyone, kernel
      ensures Valid() && old(kernel.log) <= kernel.log && fresh(everyone - old(everyone))
      ensures old(clients) <= clients && |clients| <= |old(clients)| + 1
      ensures clients == old(clients) ==> kernel.failures > old(kernel.failures)
      ensures PeerUntouched()
    {
      hide Kernel.Valid, PeerUntouched, PosixSocketPeer.Valid;
      PeerIsBeside(server.listener);
      ghost var before := kernel.open;
      var client := CreateClient(kernel, address, port);
      QueuesKeptForPeer(before);
      PeerStays();
      if client != null {
        Adopt(client, before);
      }
    }

    method StopClient(i: nat)
      requires Valid() && i < |clients|
      modifies this`ownerOf, clients[i].socket, kernel
      ensures Valid() && old(kernel.log) <= kernel.log
      ensures clients[i].socket.handle == INVALID_HANDLE
      ensures PeerUntouched()
    {
      hide Kernel.Valid, PosixSocketPeer.Valid, PeerUntouched;
      var o := clients[i].socket;
      assert o in ClientSockets() && KnownAs(o);
      BesideIsOthers(o);
      PeerIsBeside(o);
      ghost var beside := Beside(o);
      o.Reset(INVALID_HANDLE);
      QueuesKeptForPeer(beside);
      PeerStays();
      NoInvalidHandle();
      Settle(o);
    }

    /** An owner that holds nothing is forgotten. */
    method Drop(i: nat)
      requires Rooted() && ExactlyOneOwner() && i < |clients| && clients[i].socket.handle == INVALID_HANDLE
      requires INVALID_HANDLE !in kernel.open
      modifies this`clients, this`everyone
      ensures Rooted() && ExactlyOneOwner() && clients == old(clients[..i] + clients[i + 1..])
      ensures everyone <= old(everyone)
    {
      hide KnownAs;
      ghost var o := clients[i].socket;
      assert o in ClientSockets();
      clients := clients[..i] + clients[i + 1..];
      everyone := everyone - {o};
      assert ClientSockets() == old(ClientSockets()) - {o} by {
        forall p
          ensures p in ClientSockets() <==> p in old(ClientSockets()) && p != o
        {
          if p in old(ClientSockets()) && p != o {
            var j :| 0 <= j < |old(clients)| && old(clients)[j].socket == p;
            assert clients[if j < i then j else j - 1] == old(clients)[j];
          }
        }
      }
    }

    method DestroyClient(i: nat)
      requires Valid() && i < |clients|
      modifies this`ownerOf, this`clients, this`everyone, clients[i].socket, kernel
      ensures Valid() && old(kernel.log) <= kernel.log && everyone <= old(everyone)
      ensures clients == old(clients[..i] + clients[i + 1..])
      ensures PeerUntouched()
    {
      StopClient(i);
      Drop(i);
    }

    /** Move assignment between two owners: the target closes what it held, once, and takes
        over what the other held; moving to itself does nothing. */
    method MoveClient(target: nat, from: nat)
      requires Valid() && target < |clients| && from < |clients|
      modifies this`ownerOf, clients[target].socket, clients[from].socket, kernel
      ensures Valid()
      ensures target == from ==> clients[from].socket.handle == old(clients[from].socket.handle)
      ensures target != from ==>
        clients[target].socket.handle == old(clients[from].socket.handle) && clients[from].socket.handle == INVALID_HANDLE
      ensures kernel.log == old(kernel.log) +
        if target == from || old(clients[target].socket.handle) == INVALID_HANDLE then []
        else [Closed(old(clients[target].socket.handle))]
      ensures PeerUntouched()
    {
      hide Kernel.Valid, PosixSocketPeer.Valid, PeerUntouched, KeepsQueues, Rooted, ClientSockets;
      OwnersDiffer();
      var a, b := clients[target].socket, clients[from].socket;
      assert KnownAs(a) && KnownAs(b);
      BesideIsOthersOfTwo(a, b);
      PeerIsBeside(a);
      ghost var beside := Beside(a);
      a.MoveFrom(b);
      QueuesKeptForPeer(beside);
      NoInvalidHandle();
      PeerStays();
      if target == from {
        OwnersStay();
      } else {
        SettleTwo(a, b);
      }
    }

    twostate lemma {:induction false} PeerStays()
      requires old(Valid()) && kernel.Valid() && unchanged(peer) && unchanged(peer.socket)
      requires old(peer.socket.handle) in old(kernel.open) ==> peer.socket.handle in kernel.open
      ensures peer.Valid()
    {
      hide Kernel.Valid;
    }

    lemma {:induction false} NoInvalidHandle()
      requires kernel.Valid()
      ensures INVALID_HANDLE !in kernel.open
    {
    }

    /** Move construction: a new client takes over what the old one held; nothing is opened
        or closed. */
    method HandOver(i: nat)
      requires Valid() && i < |clients|
      modifies this`ownerOf, this`clients, this`everyone, clients[i].socket
      ensures Valid() && fresh(everyone - old(everyone))
      ensures |clients| == |old(clients)| + 1 && old(clients) <= clients
      ensures clients[|old(clients)|].socket.handle == old(clients[i].socket.handle) && clients[i].socket.handle == INVALID_HANDLE
      ensures PeerUntouched()
    {
      hide Kernel.Valid, PeerUntouched, PosixSocketPeer.Valid, KeepsQueues;
      var o := clients[i].socket;
      assert o in ClientSockets() && KnownAs(o);
      BesideIsOthers(o);
      NoInvalidHandle();
      var h := o.Release();
      var client := new PosixSocketClient(kernel, h);
      Join(client);
      SettleTwo(client.socket, o);
      KernelUnchangedForPeer();
      PeerStays();
    }

    /** A new owner joins. */
    method Join(client: PosixSocketClient)
      requires Rooted() && client.socket !in everyone
      modifies this`clients, this`everyone
      ensures Rooted() && clients == old(clients) + [client] && everyone == old(everyone) + {client.socket}
    {
      everyone := everyone + {client.socket};
      clients := clients + [client];
      assert ClientSockets() == old(ClientSockets()) + {client.socket} by {
        assert clients[|clients| - 1].socket == client.socket;
        assert forall i :: 0 <= i < |old(clients)| ==> clients[i] == old(clients)[i];
      }
    }

    /** What the call added to the peer's history, and that what the kernel sent and gave is
        what the history's trace gained. */
    twostate predicate Exchanged(c: Command)
      reads peer, peer.socket, kernel
    {
      && |peer.history| == |old(peer.history)| + 1 && old(peer.history) <= peer.history
      && Records(c, peer.history[|old(peer.history)|])
      && old(kernel.sent) <= kernel.sent
      && After(peer.history).1.sent == After(old(peer.history)).1.sent + kernel.sent[|old(kernel.sent)|..]
      && unchanged(peer.socket)
      && (peer.socket.handle in old(kernel.queues) ==>
            peer.socket.handle in kernel.queues
            && TakenFrom(old(kernel.queues)[peer.socket.handle], kernel.queues[peer.socket.handle],
                         After(old(peer.history)).1.taken, After(peer.history).1.taken))
    }

    method ExchangeBegin(address: string, port: nat)
      requires peer.Valid() && peer.kernel == kernel
      modifies peer, kernel`failures
      ensures peer.Valid() && Exchanged(PacketBegin(address, port))
    {
      hide Kernel.Valid, Step, TakenFrom;
      var _ := peer.BeginPacket(address, port);
      LastStep(peer.history, old(peer.history));
      OthersTakeNothing(After(old(peer.history)).0, After(old(peer.history)).1, peer.history[|old(peer.history)|]);
    }

    method ExchangeWrite(bytes: seq<byte>)
      requires peer.Valid() && peer.kernel == kernel
      modifies peer
      ensures peer.Valid() && Exchanged(PacketWrite(bytes))
    {
      hide Kernel.Valid, Step, TakenFrom;
      var _ := peer.Write(bytes);
      LastStep(peer.history, old(peer.history));
      OthersTakeNothing(After(old(peer.history)).0, After(old(peer.history)).1, peer.history[|old(peer.history)|]);
    }

    method ExchangeEnd()
      requires peer.Valid() && peer.kernel == kernel
      modifies peer, kernel`sent, kernel`failures
      ensures peer.Valid() && Exchanged(PacketEnd)
    {
      hide Kernel.Valid, Step, TakenFrom;
      var _ := peer.EndPacket();
      LastStep(peer.history, old(peer.history));
      OthersTakeNothing(After(old(peer.history)).0, After(old(peer.history)).1, peer.history[|old(peer.history)|]);
    }

    method ExchangeParse()
      requires peer.Valid() && peer.kernel == kernel
      modifies peer, kernel`queues, kernel`failures
      ensures peer.Valid() && Exchanged(PacketParse)
    {
      hide Kernel.Valid, Step, TakenFrom;
      assert peer.Fields() == After(peer.history).0;
      ghost var before, handle := After(peer.history), peer.socket.handle;
      ghost var queues := kernel.queues;
      OpenHasQueue();
      var _, answer := peer.ParsePacket();
      LastStep(peer.history, old(peer.history));
      if handle in queues && handle in kernel.queues {
        ParseTakes(before.0, before.1, answer, queues[handle], kernel.queues[handle]);
      } else {
        SentByParse(before.0, before.1, answer);
      }
      assert kernel.sent[|old(kernel.sent)|..] == [];
    }

    method ExchangeRead(count: nat)
      requires peer.Valid() && peer.kernel == kernel
      modifies peer
      ensures peer.Valid() && Exchanged(PacketRead(count))
    {
      hide Kernel.Valid, Step, TakenFrom, PosixSocketPeer.Valid, Unread, After;
      var buffer := new byte[count];
      var _ := peer.Read(buffer);
      LastStep(peer.history, old(peer.history));
      OthersTakeNothing(After(old(peer.history)).0, After(old(peer.history)).1, peer.history[|old(peer.history)|]);
      assert kernel.sent[|old(kernel.sent)|..] == [];
    }

    /** The packet calls touch no handle. */
    method Exchange(c: Command)
      requires Valid() && (c.PacketBegin? || c.PacketWrite? || c.PacketEnd? || c.PacketParse? || c.PacketRead?)
      modifies peer, kernel`queues, kernel`sent, kernel`failures
      ensures Valid() && Exchanged(c)
    {
      hide Kernel.Valid, KnownAs, ExactlyOneOwner, Rooted, PosixSocketPeer.Valid, Exchanged;
      match c {
        case PacketBegin(address, port) => ExchangeBegin(address, port);
        case PacketWrite(bytes) => ExchangeWrite(bytes);
        case PacketEnd => ExchangeEnd();
        case PacketParse => ExchangeParse();
        case PacketRead(count) => ExchangeRead(count);
      }
      KernelStaysValid();
      OwnersStay();
    }

    lemma {:induction false} OpenHasQueue()
      requires peer.Valid() && peer.kernel == kernel
      ensures peer.socket.handle != INVALID_HANDLE ==> peer.socket.handle in kernel.queues
    {
    }

    lemma {:induction false} KernelStaysValid()
      requires peer.Valid() && peer.kernel == kernel
      ensures kernel.Valid()
    {
    }

    twostate lemma {:induction false} OwnersStay()
      requires old(Valid()) && unchanged(this) && forall o :: o in everyone ==> unchanged(o)
      requires kernel.Valid() && peer.Valid() && kernel.open == old(kernel.open)
      ensures Valid()
    {
      hide Kernel.Valid, PosixSocketPeer.Valid;
      assert forall o :: o in everyone ==> old(KnownAs(o));
    }

    /** The datagram reached the peer's queue, if the peer is open and it is one. */
    twostate predicate Delivered(datagram: Datagram)
      reads peer, peer.socket, kernel
    {
      && unchanged(peer) && unchanged(peer.socket) && kernel.sent == old(kernel.sent)
      && (if peer.socket.handle != INVALID_HANDLE && |datagram.bytes| <= INT_MAX then
            peer.socket.handle in old(kernel.queues)
            && kernel.queues == old(kernel.queues)[peer.socket.handle := old(kernel.queues)[peer.socket.handle] + [datagram]]
          else kernel.queues == old(kernel.queues))
    }

    /** The network delivers a datagram to the peer's socket, if it is open. */
    method Deliver(datagram: Datagram)
      requires Valid()
      modifies kernel`queues
      ensures Valid() && Delivered(datagram)
    {
      if peer.socket.handle != INVALID_HANDLE && |datagram.bytes| <= INT_MAX {
        assert KnownAs(peer.socket);
        kernel.Arrive(peer.socket.handle, datagram);
      }
    }

    /** The peer has a new socket or none, and its trace starts anew but for what was sent. */
    twostate predicate Restarted(c: Command)
      reads peer, peer.socket, kernel
    {
      && |peer.history| == |old(peer.history)| + 1 && old(peer.history) <= peer.history
      && Records(c, peer.history[|old(peer.history)|])
      && kernel.sent == old(kernel.sent)
      && (peer.socket.handle != INVALID_HANDLE ==> peer.socket.handle in kernel.queues && kernel.queues[peer.socket.handle] == [])
    }

    method BeginPeer(port: nat)
      requires Valid()
      modifies this`ownerOf, peer, peer.socket, kernel
      ensures Valid() && old(kernel.log) <= kernel.log
      ensures peer.socket.handle == INVALID_HANDLE ==> kernel.failures > old(kernel.failures)
      ensures Restarted(PeerBegin(port))
    {
      BesideIsOthers(peer.socket);
      var _ := peer.Begin(port);
      Settle(peer.socket);
    }

    method BeginPeerMulticast(address: string, port: nat)
      requires Valid()
      modifies this`ownerOf, peer, peer.socket, kernel
      ensures Valid() && old(kernel.log) <= kernel.log
      ensures peer.socket.handle == INVALID_HANDLE ==> kernel.failures > old(kernel.failures)
      ensures Restarted(PeerBeginMulticast(address, port))
    {
      BesideIsOthers(peer.socket);
      var _, _ := peer.BeginMulticast(address, port);
      Settle(peer.socket);
    }

    method StopPeer()
      requires Valid()
      modifies this`ownerOf, peer, peer.socket, kernel
      ensures Valid() && old(kernel.log) <= kernel.log
      ensures peer.socket.handle == INVALID_HANDLE
      ensures Restarted(PeerStop)
    {
      BesideIsOthers(peer.socket);
      peer.Stop();
      Settle(peer.socket);
    }

    /** A handle is open exactly when the server, the peer or a client holds it, and no two
        of them hold the same one. */
    lemma {:induction false} OneOwnerEach(h: int)
      requires Valid() && h != INVALID_HANDLE
      ensures h in kernel.open <==> exists o :: o in everyone && o.handle == h
      ensures forall o, p :: o in everyone && p in everyone && o.handle == h && p.handle == h ==> o == p
    {
      if h in kernel.open {
        assert ownerOf[h].handle == h;
      }
      forall o | o in everyone && o.handle == h
        ensures h in ownerOf && ownerOf[h] == o
      {
        assert KnownAs(o);
      }
    }

    /** What the command did, or the kernel refused a call. */
    twostate predicate Done(c: Command)
      reads this`clients, kernel, server.listener, peer, peer.socket, set x | x in clients :: x.socket
    {
      var refused := kernel.failures > old(kernel.failures);
      match c
      case ServerBegin(_) => server.listener.handle != INVALID_HANDLE || refused
      case ServerEnd => server.listener.handle == INVALID_HANDLE
      case ServerAccept => |clients| == |old(clients)| + 1 || server.listener.handle == INVALID_HANDLE || refused
      case PeerBegin(_) => peer.socket.handle != INVALID_HANDLE || refused
      case PeerBeginMulticast(_, _) => peer.socket.handle != INVALID_HANDLE || refused
      case PeerStop => peer.socket.handle == INVALID_HANDLE
      case ClientConnect(_, _) => |clients| == |old(clients)| + 1 || refused
      case ClientStop(i) => i < |clients| ==> clients[i].socket.handle == INVALID_HANDLE
      case ClientDestroy(i) => i < |old(clients)| ==> clients == old(clients)[..i] + old(clients)[i + 1..]
      case ClientMove(t, f) =>
        t < |old(clients)| && f < |old(clients)| && t != f ==>
          && clients == old(clients)
          && clients[t].socket.handle == old(clients[f].socket.handle) && clients[f].socket.handle == INVALID_HANDLE
      case ClientHandOver(i) => i < |old(clients)| ==> |clients| == |old(clients)| + 1 && clients[i].socket.handle == INVALID_HANDLE
      case DatagramArrives(_) => kernel.open == old(kernel.open)
      case _ => |peer.history| == |old(peer.history)| + 1
    }

    /** What the command did to the peer, its queue and the sent packets. */
    twostate predicate Traced(c: Command)
      reads peer, peer.socket, kernel
    {
      if c.DatagramArrives? then Delivered(c.datagram)
      else if StartsPeer(c) then Restarted(c)
      else if ConcernsPeer(c) then Exchanged(c)
      else PeerUntouched()
    }

    method Perform(c: Command)
      requires Valid()
      modifies this`ownerOf, this`clients, this`everyone, everyone, peer, kernel
      ensures Valid() && old(kernel.log) <= kernel.log && fresh(everyone - old(everyone))
      ensures Done(c) && Traced(c)
    {
      hide Valid, Done, Traced;
      OwnersAreMembers();
      if c.DatagramArrives? || ConcernsPeer(c) {
        PerformOnPeer(c);
      } else {
        PerformBesidePeer(c);
      }
    }

    method PerformOnPeer(c: Command)
      requires Valid() && (c.DatagramArrives? || ConcernsPeer(c))
      modifies this`ownerOf, peer, peer.socket, kernel
      ensures Valid() && old(kernel.log) <= kernel.log
      ensures Done(c) && Traced(c)
    {
      hide Valid, Restarted, Exchanged, Delivered;
      if c.PeerBegin? {
        BeginPeer(c.port);
      } else if c.PeerBeginMulticast? {
        BeginPeerMulticast(c.address, c.port);
      } else if c.PeerStop? {
        StopPeer();
      } else if c.DatagramArrives? {
        Deliver(c.datagram);
      } else {
        Exchange(c);
      }
      HistoryGrew(c);
    }

    method PerformBesidePeer(c: Command)
      requires Valid() && !c.DatagramArrives? && !ConcernsPeer(c)
      modifies this`ownerOf, this`clients, this`everyone, everyone, kernel
      ensures Valid() && old(kernel.log) <= kernel.log && fresh(everyone - old(everyone))
      ensures Done(c) && Traced(c)
    {
      hide Valid, PeerUntouched;
      OwnersAreMembers();
      if c.ServerBegin? {
        BeginServer(c.port);
      } else if c.ServerEnd? {
        EndServer();
      } else if c.ServerAccept? {
        AcceptClient();
      } else if c.ClientConnect? {
        ConnectClient(c.address, c.port);
      } else {
        PerformOnClient(c);
      }
    }

    twostate lemma {:induction false} HistoryGrew(c: Command)
      requires Traced(c)
      ensures ConcernsPeer(c) ==> |peer.history| == |old(peer.history)| + 1
    {
    }

    /** One command, with its entry on the tape. */
    method Execute(c: Command)
      requires Valid() && Ledger()
      modifies this, everyone, peer, kernel
      ensures Valid() && Ledger() && old(kernel.log) <= kernel.log && fresh(everyone - old(everyone))
      ensures Done(c)
      ensures |tape| == |old(tape)| + 1 && old(tape) <= tape
      ensures Matches(c, tape[|old(tape)|], After(Calls(old(tape))).0.open)
    {
      hide Valid, Ledger, Done, Traced, Matches;
      ghost var open := peer.socket.handle != INVALID_HANDLE;
      OpenAsHistorySays();
      Perform(c);
      tape := tape + [EntryOf(c, open, old(peer.history))];
      LedgerStep(c);
    }

    lemma {:induction false} OpenAsHistorySays()
      requires Valid() && Ledger()
      ensures After(Calls(tape)).0.open == (peer.socket.handle != INVALID_HANDLE)
    {
    }

    ghost function EntryOf(c: Command, open: bool, before: seq<Event>): Entry
      reads peer`history
    {
      if c.DatagramArrives? then if open && |c.datagram.bytes| <= INT_MAX then Arrived(c.datagram) else Quiet
      else if ConcernsPeer(c) && |before| < |peer.history| then Called(peer.history[|before|])
      else Quiet
    }

    twostate lemma {:induction false} LedgerStep(c: Command)
      requires old(Ledger()) && Traced(c)
      requires tape == old(tape) + [EntryOf(c, old(peer.socket.handle) != INVALID_HANDLE, old(peer.history))]
      ensures Ledger()
      ensures Matches(c, tape[|old(tape)|], old(peer.socket.handle) != INVALID_HANDLE)
    {
      hide Ledger, Restarted, Exchanged, PeerUntouched, Delivered, Records;
      HistoryGrew(c);
      if c.DatagramArrives? {
        LedgerDelivered(c.datagram);
      } else if StartsPeer(c) {
        LedgerRestarted(c);
      } else if ConcernsPeer(c) {
        LedgerExchanged(c);
      } else {
        LedgerUntouched();
      }
    }

    twostate lemma {:induction false} LedgerDelivered(datagram: Datagram)
      requires old(Ledger()) && Delivered(datagram)
      requires tape == old(tape) +
        [if old(peer.socket.handle) != INVALID_HANDLE && |datagram.bytes| <= INT_MAX then Arrived(datagram) else Quiet]
      ensures Ledger()
    {
      hide After, Calls, Arrivals;
      OneMoreEntry(old(tape), tape[|old(tape)|]);
      var taken, waiting := After(peer.history).1.taken, [datagram];
      if peer.socket.handle != INVALID_HANDLE && |datagram.bytes| <= INT_MAX {
        var queue := old(kernel.queues)[peer.socket.handle];
        ConcatAssociative(taken, queue, waiting);
      }
    }

    twostate lemma {:induction false} LedgerRestarted(c: Command)
      requires old(Ledger()) && StartsPeer(c) && Restarted(c)
      requires |old(peer.history)| < |peer.history| && tape == old(tape) + [Called(peer.history[|old(peer.history)|])]
      ensures Ledger() && Records(c, peer.history[|old(peer.history)|])
    {
      hide After, Calls, Arrivals;
      OneMoreEntry(old(tape), tape[|old(tape)|]);
      LastStep(peer.history, old(peer.history));
      PrefixAndRest(old(peer.history), peer.history);
      assert peer.history[|old(peer.history)|..] == [peer.history[|old(peer.history)|]];
    }

    twostate lemma {:induction false} LedgerExchanged(c: Command)
      requires old(Ledger()) && ConcernsPeer(c) && !StartsPeer(c) && Exchanged(c)
      requires |old(peer.history)| < |peer.history| && tape == old(tape) + [Called(peer.history[|old(peer.history)|])]
      ensures Ledger() && Records(c, peer.history[|old(peer.history)|])
    {
      hide After, Calls, Arrivals, Step;
      var n := |old(peer.history)|;
      OneMoreEntry(old(tape), Called(peer.history[n]));
      PrefixAndRest(old(peer.history), peer.history);
      assert peer.history[n..] == [peer.history[n]];
      var gained := kernel.sent[|old(kernel.sent)|..];
      PrefixAndRest(old(kernel.sent), kernel.sent);
      ConcatAssociative(earlier, After(old(peer.history)).1.sent, gained);
    }

    twostate lemma {:induction false} LedgerUntouched()
      requires old(Ledger()) && PeerUntouched() && tape == old(tape) + [Quiet]
      ensures Ledger()
    {
      hide After, Calls, Arrivals;
      OneMoreEntry(old(tape), Quiet);
      assert peer.socket.handle != INVALID_HANDLE ==> peer.socket.handle in peer.socket.Held();
    }

    /** The commands that name clients; one that names a client the process does not have
        does nothing. */
    method PerformOnClient(c: Command)
      requires Valid() && (c.ClientStop? || c.ClientDestroy? || c.ClientMove? || c.ClientHandOver?)
      modifies this`ownerOf, this`clients, this`everyone, set x | x in clients :: x.socket, kernel
      ensures Valid() && old(kernel.log) <= kernel.log && fresh(everyone - old(everyone))
      ensures Done(c) && PeerUntouched()
    {
      hide Valid;
      match c {
        case ClientStop(i) =>
          if i < |clients| {
            StopClient(i);
          }
        case ClientDestroy(i) =>
          if i < |clients| {
            DestroyClient(i);
          }
        case ClientMove(t, f) =>
          if t < |clients| && f < |clients| {
            MoveClient(t, f);
          }
        case ClientHandOver(i) =>
          if i < |clients| {
            HandOver(i);
          }
      }
    }

    lemma {:induction false} OwnersAreMembers()
      requires Valid()
      ensures server.listener in everyone && peer.socket in everyone
      ensures forall i :: 0 <= i < |clients| ==> clients[i].socket in everyone
    {
      assert forall i :: 0 <= i < |clients| ==> clients[i].socket in ClientSockets();
    }

    /** Any run of operations, whatever the kernel answers: the tape has an entry for each
        command; what was sent is what its calls on the peer amount to, and what arrived for
        the peer is delivered, unread or still queued, in order. */
    method ExecuteAll(commands: seq<Command>)
      requires Valid() && Ledger()
      modifies this, everyone, peer, kernel
      ensures Valid() && Ledger() && old(kernel.log) <= kernel.log && fresh(everyone - old(everyone))
      ensures |tape| == |old(tape)| + |commands| && old(tape) <= tape
      ensures forall k :: 0 <= k < |commands| ==> EntryFits(commands[k], tape, |old(tape)| + k)
      ensures kernel.sent == earlier + After(Calls(tape)).1.sent
      ensures After(Calls(tape)).0.open ==>
        && peer.socket.handle in kernel.queues
        && Joined(After(Calls(tape)).1.delivered) + Unread(After(Calls(tape)).0) + Content(kernel.queues[peer.socket.handle])
           == Content(Arrivals(tape))
    {
      hide Valid, Ledger, Matches, After, Calls, Done, EntryFits;
      for k := 0 to |commands|
        invariant Valid() && Ledger() && old(kernel.log) <= kernel.log && fresh(everyone - old(everyone))
        invariant |tape| == |old(tape)| + k && old(tape) <= tape
        invariant forall j :: 0 <= j < k ==> EntryFits(commands[j], tape, |old(tape)| + j)
      {
        ghost var before := tape;
        Execute(commands[k]);
        FitsAtEnd(commands[k], before, tape);
        forall j | 0 <= j < k
          ensures EntryFits(commands[j], tape, |old(tape)| + j)
        {
          StillFits(commands[j], before, tape, |old(tape)| + j);
        }
      }
      AllAccountedFor();
    }

    lemma {:induction false} AllAccountedFor()
      requires Valid() && Ledger()
      ensures kernel.sent == earlier + After(Calls(tape)).1.sent
      ensures After(Calls(tape)).0.open ==>
        && peer.socket.handle in kernel.queues
        && Joined(After(Calls(tape)).1.delivered) + Unread(After(Calls(tape)).0) + Content(kernel.queues[peer.socket.handle])
           == Content(Arrivals(tape))
    {
      hide Arrivals, Joined, Content, Unread;
      OpenAsHistorySays();
      InboundOverRuns(Calls(tape));
      if After(Calls(tape)).0.open {
        ContentOfParts(After(Calls(tape)).1.taken, kernel.queues[peer.socket.handle]);
      }
    }

    /** When every object is stopped or destroyed nothing is left open, and the kernel saw
        each hand-out answered by exactly one close. */
    method Shutdown()
      requires Valid()
      modifies this, everyone, peer, kernel
      ensures Valid() && old(kernel.log) <= kernel.log && clients == [] && kernel.open == {}
      ensures forall h :: Count(kernel.log, Opened(h)) == Count(kernel.log, Closed(h))
    {
      OwnersAreMembers();
      while clients != []
        invariant Valid() && old(kernel.log) <= kernel.log && everyone <= old(everyone)
        decreases |clients|
      {
        OwnersAreMembers();
        DestroyClient(0);
      }
      OwnersAreMembers();
      StopPeer();
      EndServer();
      NothingLeft();
    }

    lemma {:induction false} NothingLeft()
      requires Valid() && clients == [] && peer.socket.handle == server.listener.handle == INVALID_HANDLE
      ensures kernel.open == {}
      ensures forall h :: Count(kernel.log, Opened(h)) == Count(kernel.log, Closed(h))
    {
      forall h
        ensures h !in kernel.open
      {
        if h != INVALID_HANDLE {
          OneOwnerEach(h);
        }
      }
      forall h
        ensures Count(kernel.log, Opened(h)) == Count(kernel.log, Closed(h))
      {
        ClosedExactlyOnce(kernel.log, h);
      }
    }
  }
}
