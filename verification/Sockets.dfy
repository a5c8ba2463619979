/**
 The part of the operating system that sockets depend on, as an object whose calls may
 fail at any time, and the handle owner that keeps every handle closed exactly once.
 A call on a handle requires it to be open, so each use of a closed one is ruled out.
 */
module Sockets {
  import opened Bytes

  const INVALID_HANDLE := -1
  const INT_MAX := 0x7fff_ffff

  lemma {:induction false} Limits()
    ensures INVALID_HANDLE == -1 && INT_MAX == 2147483647
  {
  }

  datatype Address = Address(host: string, port: nat)
  datatype Datagram = Datagram(bytes: seq<byte>, sender: Address)
  datatype Packet = Packet(bytes: seq<byte>, destination: Address)
  datatype Lookup = Unresolved | Resolved(address: Address)

  /** What can be asked of an open socket. */
  datatype Request =
    | ReuseAddress
    | Bind(address: Address)
    | Listen
    | NonBlocking
    | Connect(address: Address)
    | JoinGroup(address: Address)

  /** A request and the answer to it. */
  datatype Asked = Asked(request: Request, granted: bool)

  function Granted(request: Request): Asked {
    Asked(request, true)
  }

  /** The socket was first asked to reuse its address, whatever the answer, and then `rest`. */
  predicate Prepared(asked: seq<Asked>, rest: seq<Asked>) {
    asked != [] && asked[0].request == ReuseAddress && asked[1..] == rest
  }

  datatype Call = Opened(handle: int) | Closed(handle: int)

  /** The handles open after a history of calls. */
  function OpenAfter(log: seq<Call>): set<int> {
    if log == [] then {}
    else
      var before := OpenAfter(log[..|log| - 1]);
      match log[|log| - 1]
      case Opened(h) => before + {h}
      case Closed(h) => before - {h}
  }

  /** No handle is handed out while open, and none is closed but when open. */
  predicate WellLogged(log: seq<Call>) {
    log == [] || (
      && WellLogged(log[..|log| - 1])
      && (match log[|log| - 1]
          case Opened(h) => h !in OpenAfter(log[..|log| - 1])
          case Closed(h) => h in OpenAfter(log[..|log| - 1])))
  }

  function Count(log: seq<Call>, c: Call): nat {
    if log == [] then 0 else Count(log[..|log| - 1], c) + if log[|log| - 1] == c then 1 else 0
  }

  /** In a well-formed history every hand-out of a handle is matched by exactly one close,
      except for one hand-out of each handle still open. */
  lemma {:induction false} ClosedExactlyOnce(log: seq<Call>, h: int)
    requires WellLogged(log)
    ensures Count(log, Opened(h)) == Count(log, Closed(h)) + if h in OpenAfter(log) then 1 else 0
    decreases |log|
  {
    if log == [] {
    } else {
      ClosedExactlyOnce(log[..|log| - 1], h);
    }
  }

  /** The queues of these handles are as they were. */
  ghost predicate KeepsQueues(before: map<int, seq<Datagram>>, after: map<int, seq<Datagram>>, handles: set<int>) {
    forall h :: h in handles && h in before ==> h in after && after[h] == before[h]
  }

  /** The sockets of the system: the open ones, what waits for and was asked of each, and
      what was sent. */
  datatype Sockets = Sockets(open: set<int>, queues: map<int, seq<Datagram>>, asked: map<int, seq<Asked>>, sent: seq<Packet>)

  /** With one more socket, which was asked this. */
  ghost function WithSocket(s: Sockets, h: int, asked: seq<Asked>): Sockets {
    Sockets(s.open + {h}, s.queues[h := []], s.asked[h := asked], s.sent)
  }

  ghost function Without(s: Sockets, handles: set<int>): Sockets {
    Sockets(s.open - handles, s.queues - handles, s.asked - handles, s.sent)
  }

  ghost function Asking(s: Sockets, h: int, more: Asked): Sockets
    requires h in s.asked
  {
    s.(asked := s.asked[h := s.asked[h] + [more]])
  }

  ghost predicate Keyed(s: Sockets) {
    s.queues.Keys == s.open && s.asked.Keys == s.open && INVALID_HANDLE !in s.open
  }

  lemma {:induction false} AskedOneMore(s: Sockets, h: int, asked: seq<Asked>, more: Asked)
    ensures h in WithSocket(s, h, asked).asked && h in WithSocket(s, h, asked).open
    ensures WithSocket(s, h, asked).asked[h] == asked
    ensures Asking(WithSocket(s, h, asked), h, more) == WithSocket(s, h, asked + [more])
  {
  }

  lemma {:induction false} PreparedMore(asked: seq<Asked>, rest: seq<Asked>, more: Asked)
    requires Prepared(asked, rest)
    ensures Prepared(asked + [more], rest + [more])
  {
    assert (asked + [more])[1..] == asked[1..] + [more];
  }

  lemma {:induction false} PreparedFirst(granted: bool)
    ensures Prepared([Asked(ReuseAddress, granted)], [])
  {
  }

  /** Opening a socket and closing it leaves all as it was. */
  lemma {:induction false} OpenedAndClosed(s: Sockets, h: int, asked: seq<Asked>)
    requires Keyed(s) && h !in s.open
    ensures Without(WithSocket(s, h, asked), {h}) == s
  {
    var r := Without(WithSocket(s, h, asked), {h});
    assert r.open == s.open;
    assert r.queues == s.queues;
    assert r.asked == s.asked;
  }

  lemma {:induction false} NothingClosed(s: Sockets)
    ensures Without(s, {}) == s
  {
  }

  class Kernel {
    var open: set<int>
    ghost var log: seq<Call>
    var queues: map<int, seq<Datagram>>
    ghost var sent: seq<Packet>
    /** How many calls were refused so far, requests to reuse an address aside. */
    ghost var failures: nat
    /** What each open socket was asked, in order. */
    ghost var asked: map<int, seq<Asked>>

    ghost function State(): Sockets
      reads this`open, this`queues, this`asked, this`sent
    {
      Sockets(open, queues, asked, sent)
    }

    ghost predicate Valid()
      reads this
    {
      && INVALID_HANDLE !in open
      && WellLogged(log) && OpenAfter(log) == open
      && queues.Keys == open && asked.Keys == open
      && forall h, i :: h in queues && 0 <= i < |queues[h]| ==> |queues[h][i].bytes| <= INT_MAX
    }

    constructor ()
      ensures Valid() && open == {} && log == [] && sent == []
    {
      open, log, queues, sent, failures, asked := {}, [], map[], [], 0, map[];
    }

    method HandOut() returns (h: int)
      requires Valid()
      modifies this
      ensures Valid()
      ensures h == INVALID_HANDLE ==> State() == old(State()) && log == old(log)
      ensures failures == old(failures) + if h == INVALID_HANDLE then 1 else 0
      ensures h != INVALID_HANDLE ==>
        && h !in old(open) && log == old(log) + [Opened(h)] && State() == WithSocket(old(State()), h, [])
    {
      var fails: bool := *;
      if fails {
        failures := failures + 1;
        return INVALID_HANDLE;
      }
      h := SomeFreeHandle(open);
      open := open + {h};
      log := log + [Opened(h)];
      queues, asked := queues[h := []], asked[h := []];
      assert log[..|log| - 1] == old(log);
    }

    /** `socket` */
    method Socket() returns (h: int)
      requires Valid()
      modifies this
      ensures Valid()
      ensures h == INVALID_HANDLE ==> State() == old(State()) && log == old(log)
      ensures failures == old(failures) + if h == INVALID_HANDLE then 1 else 0
      ensures h != INVALID_HANDLE ==>
        && h !in old(open) && log == old(log) + [Opened(h)] && State() == WithSocket(old(State()), h, [])
    {
      h := HandOut();
    }

    /** `accept` */
    method Accept(listener: int) returns (h: int)
      requires Valid() && listener in open
      modifies this
      ensures Valid()
      ensures h == INVALID_HANDLE ==> State() == old(State()) && log == old(log)
      ensures failures == old(failures) + if h == INVALID_HANDLE then 1 else 0
      ensures h != INVALID_HANDLE ==>
        && h !in old(open) && log == old(log) + [Opened(h)] && State() == WithSocket(old(State()), h, [])
    {
      h := HandOut();
    }

    /** `close` */
    method Close(h: int)
      requires Valid() && h in open
      modifies this
      ensures Valid() && failures == old(failures)
      ensures State() == Without(old(State()), {h}) && log == old(log) + [Closed(h)]
    {
      open := open - {h};
      log := log + [Closed(h)];
      queues, asked := queues - {h}, asked - {h};
      assert log[..|log| - 1] == old(log);
    }

    /** `bind`, `listen`, `connect`, `fcntl`, `setsockopt`: any of them may be refused. */
    method Configure(h: int, request: Request) returns (ok: bool)
      requires Valid() && h in open
      modifies this`failures, this`asked
      ensures Valid() && failures == old(failures) + if ok || request.ReuseAddress? then 0 else 1
      ensures h in old(asked) && State() == Asking(old(State()), h, Asked(request, ok))
    {
      ok := *;
      failures := failures + if ok || request.ReuseAddress? then 0 else 1;
      asked := asked[h := asked[h] + [Asked(request, ok)]];
    }

    /** `getaddrinfo` */
    method Resolve(host: string, port: nat) returns (r: Lookup)
      requires Valid()
      modifies this`failures
      ensures Valid() && failures == old(failures) + if r == Unresolved then 1 else 0
      ensures r.Resolved? ==> r.address == Address(host, port)
    {
      var fails: bool := *;
      failures := failures + if fails then 1 else 0;
      r := if fails then Unresolved else Resolved(Address(host, port));
    }

    /** `ioctl(FIONREAD)`: at least the size of the datagram at the head of the queue. */
    method Pending(h: int) returns (ok: bool, count: nat, errorCode: int)
      requires Valid() && h in open
      modifies this`failures
      ensures Valid() && failures == old(failures) + if ok then 0 else 1
      ensures count <= INT_MAX
      ensures ok && queues[h] == [] ==> count == 0
      ensures ok && queues[h] != [] ==> count >= |queues[h][0].bytes|
    {
      ok, count, errorCode := *, 0, *;
      failures := failures + if ok then 0 else 1;
      if ok && queues[h] != [] {
        assert |queues[h][0].bytes| <= INT_MAX;
        count :| |queues[h][0].bytes| <= count <= INT_MAX;
      }
    }

    /** `recvfrom`: takes the datagram at the head, cut to `capacity`, or fails. */
    method Receive(h: int, capacity: nat) returns (result: int, datagram: Datagram, errorCode: int)
      requires Valid() && h in open
      modifies this`queues, this`failures
      ensures Valid() && failures == old(failures) + if result < 0 then 1 else 0
      ensures result < 0 ==> queues == old(queues)
      ensures result >= 0 ==>
        && old(queues)[h] != [] && queues == old(queues)[h := old(queues)[h][1..]]
        && result == Min(capacity, |old(queues)[h][0].bytes|)
        && datagram == Datagram(old(queues)[h][0].bytes[..result], old(queues)[h][0].sender)
    {
      var fails: bool := *;
      errorCode := *;
      datagram := Datagram([], Address("", 0));
      if fails || queues[h] == [] {
        failures := failures + 1;
        return -1, datagram, errorCode;
      }
      var head := queues[h][0];
      result := Min(capacity, |head.bytes|);
      datagram := Datagram(head.bytes[..result], head.sender);
      queues := queues[h := queues[h][1..]];
    }

    /** `sendto`: hands the whole datagram over, or fails. */
    method Send(h: int, destination: Address, bytes: seq<byte>) returns (accepted: bool)
      requires Valid() && h in open
      modifies this`sent, this`failures
      ensures Valid() && failures == old(failures) + if accepted then 0 else 1
      ensures sent == old(sent) + if accepted then [Packet(bytes, destination)] else []
    {
      accepted := *;
      failures := failures + if accepted then 0 else 1;
      if accepted {
        sent := sent + [Packet(bytes, destination)];
      }
    }

    /** A datagram reaches the socket. */
    method Arrive(h: int, datagram: Datagram)
      requires Valid() && h in open && |datagram.bytes| <= INT_MAX
      modifies this`queues
      ensures Valid() && queues == old(queues)[h := old(queues)[h] + [datagram]]
    {
      queues := queues[h := queues[h] + [datagram]];
    }
  }

  lemma {:induction false} KeysOf(kernel: Kernel)
    requires kernel.Valid()
    ensures Keyed(kernel.State())
  {
  }

  /** One more request to a socket just opened. */
  method Ask(kernel: Kernel, h: int, request: Request, ghost before: Sockets, ghost asked: seq<Asked>)
      returns (ok: bool, ghost now: seq<Asked>)
    requires kernel.Valid() && kernel.State() == WithSocket(before, h, asked)
    modifies kernel`failures, kernel`asked
    ensures kernel.Valid() && now == asked + [Asked(request, ok)]
    ensures kernel.State() == WithSocket(before, h, now)
    ensures h in kernel.open && h in kernel.asked && kernel.asked[h] == now
    ensures kernel.failures == old(kernel.failures) + if ok || request.ReuseAddress? then 0 else 1
  {
    hide Kernel.Valid, WithSocket, Asking;
    AskedOneMore(before, h, asked, Asked(request, true));
    AskedOneMore(before, h, asked, Asked(request, false));
    ok := kernel.Configure(h, request);
    now := asked + [Asked(request, ok)];
    AskedOneMore(before, h, now, Asked(request, ok));
  }

  method SomeFreeHandle(open: set<int>) returns (h: int)
    ensures h >= 0 && h !in open
  {
    h := 0;
    var rest := open;
    while h in rest
      invariant h >= 0 && forall k :: k in open && k !in rest ==> k < h
      decreases rest
    {
      rest := rest - {h};
      h := h + 1;
    }
  }

  /** The only holder of an open handle; closing it is the owner's job alone. */
  class SocketHandleOwner {
    const kernel: Kernel
    var handle: int

    ghost function Held(): set<int>
      reads this`handle
    {
      if handle == INVALID_HANDLE then {} else {handle}
    }

    constructor (kernel: Kernel, handle: int)
      ensures this.kernel == kernel && this.handle == handle
    {
      this.kernel := kernel;
      this.handle := handle;
    }

    method Release() returns (h: int)
      modifies this`handle
      ensures h == old(handle) && handle == INVALID_HANDLE
    {
      h := handle;
      handle := INVALID_HANDLE;
    }

    /** Closes what is held, if anything, and holds `h` instead, whatever `h` is: resetting
        to the very handle held closes it and keeps its number. */
    method Reset(h: int)
      requires kernel.Valid() && Held() <= kernel.open
      modifies this`handle, kernel
      ensures kernel.Valid() && handle == h && kernel.failures == old(kernel.failures)
      ensures kernel.State() == Without(old(kernel.State()), old(Held()))
      ensures kernel.log == old(kernel.log) + if old(handle) == INVALID_HANDLE then [] else [Closed(old(handle))]
    {
      NothingClosed(kernel.State());
      if handle != INVALID_HANDLE {
        kernel.Close(handle);
      }
      handle := h;
    }

    /** Move assignment: the source is left empty; moving to itself does nothing. */
    method MoveFrom(other: SocketHandleOwner)
      requires kernel.Valid() && other.kernel == kernel && Held() <= kernel.open && other.Held() <= kernel.open
      requires other != this ==> other.Held() !! Held()
      modifies this`handle, other`handle, kernel
      ensures kernel.Valid() && kernel.failures == old(kernel.failures)
      ensures other == this ==> handle == old(handle) && kernel.State() == old(kernel.State())
      ensures other != this ==>
        && handle == old(other.handle) && other.handle == INVALID_HANDLE
        && kernel.State() == Without(old(kernel.State()), old(Held()))
      ensures kernel.log == old(kernel.log) + if other == this || old(handle) == INVALID_HANDLE then [] else [Closed(old(handle))]
    {
      if other != this {
        var h := other.Release();
        Reset(h);
      }
    }

    /** The destructor. */
    method Destroy()
      requires kernel.Valid() && Held() <= kernel.open
      modifies this`handle, kernel
      ensures kernel.Valid() && handle == INVALID_HANDLE && kernel.failures == old(kernel.failures)
      ensures kernel.State() == Without(old(kernel.State()), old(Held()))
      ensures kernel.log == old(kernel.log) + if old(handle) == INVALID_HANDLE then [] else [Closed(old(handle))]
    {
      Reset(INVALID_HANDLE);
    }
  }
}
