/**
 * ru.maklas.mnet2.ServerSocket with its receive thread and UDP I/O stripped
 * away: each received datagram and each `update` call is one atomic step.
 *
 * The socket map (`SocketMap.sockets`, a list of wrapped sockets) is the
 * sequence `sockets` in its iteration order; the request queue
 * (`AtomicQueue<ConnectionRequest>`) is the sequence `requests`, head first.
 * The collaborators whose code is not part of this model (`SocketImpl`,
 * `Connection`, the authenticator, the serializer, the discovery handler, the
 * UDP socket) are reached only through calls, which the server appends to
 * the trace `calls` in the order it makes them.
 */
module Server {
  import opened JavaInts
  import opened Wrappers
  import opened PacketType
  import opened PacketBatch

  // ---------------------------------------------------------------- entities

  /** An `InetAddress`, by its raw address bytes. */
  type Address = seq<int8>

  /** A remote end: the address and port a datagram came from. */
  datatype Peer = Peer(address: Address, port: int)

  /** A user object the serializer produced, known only by its identity. */
  datatype Obj = Obj(id: nat)

  /** The fields of a `SocketImpl` the server's watchdog reads. */
  datatype Watchdog = Watchdog(lastTimeReceivedMsg: int, inactivityTimeout: int, connected: bool)

  /** A mapped socket: the peer it talks to and its watchdog fields. */
  datatype SocketRecord = SocketRecord(peer: Peer, state: Watchdog)

  /** `ServerSocket.ConnectionRequest`: who asked, and the user payload or `null`. */
  datatype ConnectionRequest = ConnectionRequest(peer: Peer, userRequest: Option<Obj>)

  /**
   * What the authenticator did with a `Connection`: accepted it (the
   * connection then registers its socket, whose watchdog fields it sets),
   * rejected it, or made no choice.
   */
  datatype Decision = Accepted(state: Watchdog) | Rejected | Undecided

  /** `ServerAuthenticator.acceptConnection`, as a choice per request. */
  type Authenticator = ConnectionRequest -> Decision

  /** `serializer.deserialize(buffer, 1, len - 1)` on those bytes; `None` when it throws. */
  type Deserializer = seq<int8> -> Option<Obj>

  /** `DCType`: why a socket is disconnected. */
  datatype DCType = TimeOut | ServerShutdown

  /** A call the server makes into code outside this model. */
  datatype Call =
    | SendDiscovery(to: Address)                                   // udp.send of the discovery handler's datagram, its address set to the sender's
    | ReceiveData(peer: Peer, buffer: seq<int8>, packetType: int8, len: int)  // mSocket.receiveData(buffer, type, len)
    | QueueDisconnection(peer: Peer, reason: DCType)               // socket.queue.put(new DisconnectionPacket(TIMED_OUT, TIME_OUT))
    | CheckResendAndPing(peer: Peer)                               // socket.checkResendAndPing()
    | AcceptConnection(peer: Peer, userRequest: Option<Obj>)       // new SocketImpl, new Connection, authenticator.acceptConnection(conn)
    | RejectConnection(peer: Peer)                                 // conn.reject(null)
    | CloseSocket(peer: Peer, reason: DCType)                      // socket.close(reason)
    | CloseUdp                                                     // udp.close()

  /** The socket a call is about, if any. */
  function Target(c: Call): Option<Peer>
  {
    match c
    case SendDiscovery(_) => None
    case ReceiveData(p, _, _, _) => Some(p)
    case QueueDisconnection(p, _) => Some(p)
    case CheckResendAndPing(p) => Some(p)
    case AcceptConnection(p, _) => Some(p)
    case RejectConnection(p) => Some(p)
    case CloseSocket(p, _) => Some(p)
    case CloseUdp => None
  }

  /** The calls of `calls` about `peer`, in order. */
  function CallsFor(calls: seq<Call>, peer: Peer): (r: seq<Call>)
    ensures |r| <= |calls|
  {
    CallsIn(calls, peer, |calls|)
  }

  /** The calls among the first `hi` of `calls` that are about `peer`, in order. */
  function CallsIn(calls: seq<Call>, peer: Peer, hi: nat): (r: seq<Call>)
    requires hi <= |calls|
    ensures |r| <= hi
    decreases hi
  {
    if hi == 0 then []
    else CallsIn(calls, peer, hi - 1) + (if Target(calls[hi - 1]) == Some(peer) then [calls[hi - 1]] else [])
  }

  // ---------------------------------------------------------------- the socket map

  /** No two mapped sockets talk to the same peer. */
  predicate UniquePeers(sockets: seq<SocketRecord>)
  {
    forall i, j :: 0 <= i < j < |sockets| ==> sockets[i].peer != sockets[j].peer
  }

  /** `socketMap.get(address, port)` among the first `hi` sockets: where the socket for `peer` sits, if any. */
  function IndexOf(sockets: seq<SocketRecord>, peer: Peer, hi: nat): (r: Option<nat>)
    requires hi <= |sockets|
    ensures r.Some? ==> r.value < hi && sockets[r.value].peer == peer
    ensures r.None? ==> forall i :: 0 <= i < hi ==> sockets[i].peer != peer
    decreases hi
  {
    if hi == 0 then None
    else if sockets[hi - 1].peer == peer then Some(hi - 1)
    else IndexOf(sockets, peer, hi - 1)
  }

  /** `socketMap.get(address, port) != null`. */
  predicate Mapped(sockets: seq<SocketRecord>, peer: Peer)
  {
    IndexOf(sockets, peer, |sockets|).Some?
  }

  /** With unique peers, the socket found for a peer is the only one it has. */
  lemma IndexOfUnique(sockets: seq<SocketRecord>, i: nat)
    requires UniquePeers(sockets) && i < |sockets|
    ensures IndexOf(sockets, sockets[i].peer, |sockets|) == Some(i)
  {
    var r := IndexOf(sockets, sockets[i].peer, |sockets|);
    assert sockets[r.value].peer == sockets[i].peer;
  }

  /** Picking out one peer's calls distributes over concatenation. */
  lemma CallsForAppend(a: seq<Call>, b: seq<Call>, peer: Peer)
    ensures CallsFor(a + b, peer) == CallsFor(a, peer) + CallsFor(b, peer)
  {
    CallsInAppend(a, b, peer, |b|);
  }

  lemma {:induction false} CallsInAppend(a: seq<Call>, b: seq<Call>, peer: Peer, k: nat)
    requires k <= |b|
    ensures CallsIn(a + b, peer, |a| + k) == CallsIn(a, peer, |a|) + CallsIn(b, peer, k)
    decreases k
  {
    if k == 0 {
      CallsInPrefix(a, b, peer, |a|);
    } else {
      CallsInAppend(a, b, peer, k - 1);
      assert (a + b)[|a| + k - 1] == b[k - 1];
    }
  }

  lemma {:induction false} CallsInPrefix(a: seq<Call>, b: seq<Call>, peer: Peer, k: nat)
    requires k <= |a|
    ensures CallsIn(a + b, peer, k) == CallsIn(a, peer, k)
    decreases k
  {
    if k > 0 {
      CallsInPrefix(a, b, peer, k - 1);
      assert (a + b)[k - 1] == a[k - 1];
    }
  }

  /** Calls all about `owner` are all of `owner`'s calls, and none of any other peer's. */
  lemma CallsForOwned(calls: seq<Call>, owner: Peer, peer: Peer)
    requires Owned(calls, owner)
    ensures CallsFor(calls, peer) == if peer == owner then calls else []
  {
    CallsInOwned(calls, owner, peer, |calls|);
    if peer == owner {
      assert CallsFor(calls, peer) == calls;
    }
  }

  lemma {:induction false} CallsInOwned(calls: seq<Call>, owner: Peer, peer: Peer, hi: nat)
    requires hi <= |calls| && Owned(calls, owner)
    ensures peer != owner ==> CallsIn(calls, peer, hi) == []
    ensures peer == owner ==> |CallsIn(calls, peer, hi)| == hi && forall i :: 0 <= i < hi ==> CallsIn(calls, peer, hi)[i] == calls[i]
    decreases hi
  {
    if hi > 0 {
      CallsInOwned(calls, owner, peer, hi - 1);
      assert Target(calls[hi - 1]) == Some(owner);
    }
  }

  // ---------------------------------------------------------------- one received datagram

  /** Where `run` sends one received datagram. */
  datatype Route =
    | Ignore                 // `continue`: nothing happens
    | AnswerDiscovery        // the discovery handler's reply is sent back
    | Forward(index: nat)    // handed to the mapped socket at that index
    | Enqueue                // queued as a connection request

  /**
   * `run`'s dispatch on `type = buffer[0]` and `len`, for the tags
   * `discovery` and `connectionRequest` and a datagram from `from`.
   */
  function RouteOf(packetType: int8, len: int, sockets: seq<SocketRecord>, from: Peer,
                   discovery: int8, connectionRequest: int8, hasDiscoverer: bool): (r: Route)
    ensures r == AnswerDiscovery ==> packetType == discovery && hasDiscoverer
    ensures r.Forward? ==> packetType != discovery && len > 5 && r.index < |sockets| && sockets[r.index].peer == from
    ensures r == Enqueue ==> packetType == connectionRequest && packetType != discovery && len > 5 && !Mapped(sockets, from)
  {
    if packetType == discovery then
      if hasDiscoverer then AnswerDiscovery else Ignore
    else if len <= 5 then Ignore
    else match IndexOf(sockets, from, |sockets|)
      case Some(i) => Forward(i)
      case None => if packetType == connectionRequest then Enqueue else Ignore
  }

  /**
   * A discovery datagram is answered exactly when there is a handler,
   * whatever its length and whoever sent it: the socket map is not consulted.
   */
  lemma DiscoveryIgnoresMapAndLength(len1: int, len2: int, sockets1: seq<SocketRecord>, sockets2: seq<SocketRecord>,
                                     from1: Peer, from2: Peer, discovery: int8, connectionRequest: int8, hasDiscoverer: bool)
    ensures var r := RouteOf(discovery, len1, sockets1, from1, discovery, connectionRequest, hasDiscoverer);
      && r == RouteOf(discovery, len2, sockets2, from2, discovery, connectionRequest, hasDiscoverer)
      && (r == AnswerDiscovery <==> hasDiscoverer)
      && (r == Ignore <==> !hasDiscoverer)
  {
  }

  /** Any other datagram of at most 5 bytes is dropped. */
  lemma ShortDatagramIgnored(packetType: int8, len: int, sockets: seq<SocketRecord>, from: Peer,
                             discovery: int8, connectionRequest: int8, hasDiscoverer: bool)
    requires packetType != discovery && len <= 5
    ensures RouteOf(packetType, len, sockets, from, discovery, connectionRequest, hasDiscoverer) == Ignore
  {
  }

  /** A datagram from a mapped peer goes to that peer's socket, even a connection request. */
  lemma MappedPeerForwarded(packetType: int8, len: int, sockets: seq<SocketRecord>, i: nat,
                            discovery: int8, connectionRequest: int8, hasDiscoverer: bool)
    requires UniquePeers(sockets) && i < |sockets|
    requires packetType != discovery && len > 5
    ensures RouteOf(packetType, len, sockets, sockets[i].peer, discovery, connectionRequest, hasDiscoverer) == Forward(i)
  {
    IndexOfUnique(sockets, i);
  }

  /**
   * A datagram is queued as a connection request exactly when it is a long
   * enough connection request (not a discovery) from a peer with no socket.
   */
  lemma EnqueuedIff(packetType: int8, len: int, sockets: seq<SocketRecord>, from: Peer,
                    discovery: int8, connectionRequest: int8, hasDiscoverer: bool)
    ensures RouteOf(packetType, len, sockets, from, discovery, connectionRequest, hasDiscoverer) == Enqueue
        <==> packetType == connectionRequest && packetType != discovery && len > 5 && forall i :: 0 <= i < |sockets| ==> sockets[i].peer != from
  {
    if forall i :: 0 <= i < |sockets| ==> sockets[i].peer != from {
      assert IndexOf(sockets, from, |sockets|).None?;
    }
  }

  /** A routed datagram only ever reaches a socket that exists. */
  lemma ForwardInRange(packetType: int8, len: int, sockets: seq<SocketRecord>, from: Peer,
                       discovery: int8, connectionRequest: int8, hasDiscoverer: bool)
    ensures var r := RouteOf(packetType, len, sockets, from, discovery, connectionRequest, hasDiscoverer);
      r.Forward? ==> r.index < |sockets| && sockets[r.index].peer == from
  {
  }

  /** The calls `run` makes for one datagram, given its route and the buffer after the receive. */
  function RouteCalls(route: Route, sockets: seq<SocketRecord>, from: Peer, buffer: seq<int8>, len: int): seq<Call>
    requires route.Forward? ==> route.index < |sockets|
    requires |buffer| > 0
  {
    match route
    case Ignore => []
    case AnswerDiscovery => [SendDiscovery(from.address)]
    case Forward(i) => [ReceiveData(sockets[i].peer, buffer, buffer[0], len)]
    case Enqueue => []
  }

  // ---------------------------------------------------------------- the watchdog sweep

  /**
   * `updateDCAndSockets`' action on one socket: a `TIMED_OUT` disconnection
   * once more than `inactivityTimeout` ms have passed since it last heard
   * from its peer (Java `long` subtraction), else a resend and ping check
   * if it is connected.
   */
  function SweepAction(socket: SocketRecord, now: int): (r: seq<Call>)
    ensures Owned(r, socket.peer)
  {
    if Wrap64(now - socket.state.lastTimeReceivedMsg) > socket.state.inactivityTimeout then
      [QueueDisconnection(socket.peer, TimeOut)]
    else if socket.state.connected then
      [CheckResendAndPing(socket.peer)]
    else
      []
  }

  /** The sweep's calls over the first `hi` mapped sockets, in map order. */
  function SweepCalls(sockets: seq<SocketRecord>, now: int, hi: nat): seq<Call>
    requires hi <= |sockets|
  {
    ForEach(sockets, s => SweepAction(s, now), hi)
  }

  /** Each mapped socket gets exactly the sweep action for it, and no other socket's. */
  lemma SweepPerSocket(sockets: seq<SocketRecord>, now: int, peer: Peer)
    requires UniquePeers(sockets)
    ensures CallsFor(SweepCalls(sockets, now, |sockets|), peer) ==
      match IndexOf(sockets, peer, |sockets|)
      case Some(i) => SweepAction(sockets[i], now)
      case None => []
  {
    ForEachPerSocket(sockets, s => SweepAction(s, now), peer);
  }

  /**
   * The timeout is strict: a socket that last heard from its peer exactly
   * `inactivityTimeout` ms ago is kept (and pinged if connected), one more
   * millisecond and it is timed out.
   */
  lemma TimeoutBoundary(socket: SocketRecord)
    requires IsInt64(socket.state.lastTimeReceivedMsg) && 0 <= socket.state.inactivityTimeout < 0x8000_0000
    requires IsInt64(socket.state.lastTimeReceivedMsg + socket.state.inactivityTimeout + 1)
    ensures var last, timeout := socket.state.lastTimeReceivedMsg, socket.state.inactivityTimeout;
      && SweepAction(socket, last + timeout) == (if socket.state.connected then [CheckResendAndPing(socket.peer)] else [])
      && SweepAction(socket, last + timeout + 1) == [QueueDisconnection(socket.peer, TimeOut)]
  {
    var timeout := socket.state.inactivityTimeout;
    Wrap64Unique(timeout, timeout, 0);
    Wrap64Unique(timeout + 1, timeout + 1, 0);
  }

  // ---------------------------------------------------------------- closing

  /** `close`'s calls over the first `hi` sockets `getSockets` listed. */
  function CloseCalls(sockets: seq<SocketRecord>, hi: nat): seq<Call>
    requires hi <= |sockets|
  {
    ForEach(sockets, (s: SocketRecord) => [CloseSocket(s.peer, ServerShutdown)], hi)
  }

  /** `close` closes every mapped socket exactly once, with `SERVER_SHUTDOWN`. */
  lemma CloseEverySocketOnce(sockets: seq<SocketRecord>, peer: Peer)
    requires UniquePeers(sockets)
    ensures CallsFor(CloseCalls(sockets, |sockets|), peer) ==
      if Mapped(sockets, peer) then [CloseSocket(peer, ServerShutdown)] else []
  {
    var close := (s: SocketRecord) => [CloseSocket(s.peer, ServerShutdown)];
    forall j | 0 <= j < |sockets| ensures Owned(close(sockets[j]), sockets[j].peer) {
    }
    ForEachPerSocket(sockets, close, peer);
  }

  // ---------------------------------------------------------------- one call per socket

  /** Every call in `calls` is about `owner`. */
  predicate Owned(calls: seq<Call>, owner: Peer)
  {
    forall i :: 0 <= i < |calls| ==> Target(calls[i]) == Some(owner)
  }

  /** The calls a loop over the first `hi` sockets makes, `f` of each in turn. */
  function ForEach(sockets: seq<SocketRecord>, f: SocketRecord -> seq<Call>, hi: nat): seq<Call>
    requires hi <= |sockets|
    decreases hi
  {
    if hi == 0 then [] else ForEach(sockets, f, hi - 1) + f(sockets[hi - 1])
  }

  /** A peer with no socket among the first `hi` receives none of their calls. */
  lemma {:induction false} ForEachOther(sockets: seq<SocketRecord>, f: SocketRecord -> seq<Call>, hi: nat, peer: Peer)
    requires hi <= |sockets|
    requires forall j :: 0 <= j < hi ==> Owned(f(sockets[j]), sockets[j].peer) && sockets[j].peer != peer
    ensures CallsFor(ForEach(sockets, f, hi), peer) == []
    decreases hi
  {
    if hi > 0 {
      var before, act := ForEach(sockets, f, hi - 1), f(sockets[hi - 1]);
      ForEachOther(sockets, f, hi - 1, peer);
      CallsForAppend(before, act, peer);
      CallsForOwned(act, sockets[hi - 1].peer, peer);
    }
  }

  /** With unique peers, the peer of socket `i` receives exactly that socket's calls. */
  lemma {:induction false} ForEachOwn(sockets: seq<SocketRecord>, f: SocketRecord -> seq<Call>, hi: nat, i: nat)
    requires i < hi <= |sockets| && UniquePeers(sockets)
    requires forall j :: 0 <= j < hi ==> Owned(f(sockets[j]), sockets[j].peer)
    ensures CallsFor(ForEach(sockets, f, hi), sockets[i].peer) == f(sockets[i])
    decreases hi
  {
    var peer := sockets[i].peer;
    var before, act := ForEach(sockets, f, hi - 1), f(sockets[hi - 1]);
    CallsForAppend(before, act, peer);
    CallsForOwned(act, sockets[hi - 1].peer, peer);
    if i == hi - 1 {
      ForEachOther(sockets, f, hi - 1, peer);
      assert CallsFor(ForEach(sockets, f, hi), peer) == [] + act;
    } else {
      ForEachOwn(sockets, f, hi - 1, i);
      assert sockets[i].peer != sockets[hi - 1].peer;
    }
  }

  /** With unique peers, a peer receives just its own socket's calls, or none. */
  lemma ForEachPerSocket(sockets: seq<SocketRecord>, f: SocketRecord -> seq<Call>, peer: Peer)
    requires UniquePeers(sockets)
    requires forall j :: 0 <= j < |sockets| ==> Owned(f(sockets[j]), sockets[j].peer)
    ensures CallsFor(ForEach(sockets, f, |sockets|), peer) ==
      match IndexOf(sockets, peer, |sockets|)
      case Some(i) => f(sockets[i])
      case None => []
  {
    match IndexOf(sockets, peer, |sockets|)
    case Some(i) => ForEachOwn(sockets, f, |sockets|, i);
    case None => ForEachOther(sockets, f, |sockets|, peer);
  }

  // ---------------------------------------------------------------- admission

  /** What admission has done so far: the socket map and the calls made. */
  datatype Admission = Admission(sockets: seq<SocketRecord>, calls: seq<Call>)

  /**
   * `processAuth`'s body for a request from an unmapped peer: a half-open
   * socket and a `Connection` handed to the authenticator; an accepted
   * connection registers its socket, one left undecided is rejected.
   */
  function Admit(a: Admission, req: ConnectionRequest, authenticator: Authenticator): Admission
  {
    var asked := a.calls + [AcceptConnection(req.peer, req.userRequest)];
    match authenticator(req)
    case Accepted(state) => Admission(a.sockets + [SocketRecord(req.peer, state)], asked)
    case Rejected => Admission(a.sockets, asked)
    case Undecided => Admission(a.sockets, asked + [RejectConnection(req.peer)])
  }

  /** One request as the drain should handle it: dropped if its peer is mapped, else admitted. */
  function AdmitStep(a: Admission, req: ConnectionRequest, authenticator: Authenticator): Admission
  {
    if Mapped(a.sockets, req.peer) then a else Admit(a, req, authenticator)
  }

  /** The first `hi` requests of `queue`, handled in order. */
  function AdmitAll(a: Admission, queue: seq<ConnectionRequest>, hi: nat, authenticator: Authenticator): Admission
    requires hi <= |queue|
    decreases hi
  {
    if hi == 0 then a else AdmitStep(AdmitAll(a, queue, hi - 1, authenticator), queue[hi - 1], authenticator)
  }

  /** Admission keeps every socket and every call it started with, and adds a socket to an unmapped peer only. */
  lemma AdmitStepGrows(a: Admission, req: ConnectionRequest, authenticator: Authenticator)
    ensures var b := AdmitStep(a, req, authenticator);
      && a.sockets <= b.sockets && |b.sockets| <= |a.sockets| + 1
      && a.calls <= b.calls
      && (UniquePeers(a.sockets) ==> UniquePeers(b.sockets))
      && (authenticator(req).Accepted? ==> Mapped(b.sockets, req.peer))
  {
    var b := AdmitStep(a, req, authenticator);
    if !Mapped(a.sockets, req.peer) && authenticator(req).Accepted? {
      var n := |a.sockets|;
      assert b.sockets[n].peer == req.peer;
      assert IndexOf(b.sockets, req.peer, |b.sockets|) == Some(n);
      assert forall i :: 0 <= i < n ==> a.sockets[i].peer != req.peer;
      assert forall i :: 0 <= i < n ==> b.sockets[i] == a.sockets[i];
    }
  }

  /** A peer mapped before a step is still mapped after it. */
  lemma AdmitStepKeepsMapped(a: Admission, req: ConnectionRequest, authenticator: Authenticator, peer: Peer)
    requires Mapped(a.sockets, peer)
    ensures Mapped(AdmitStep(a, req, authenticator).sockets, peer)
  {
    var b := AdmitStep(a, req, authenticator);
    AdmitStepGrows(a, req, authenticator);
    var i := IndexOf(a.sockets, peer, |a.sockets|).value;
    assert b.sockets[i] == a.sockets[i];
  }

  /**
   * Draining the queue never removes a socket and never maps a peer twice;
   * afterwards every request the authenticator accepted has its peer mapped.
   */
  lemma {:induction false} AdmitAllInvariant(a: Admission, queue: seq<ConnectionRequest>, hi: nat, authenticator: Authenticator)
    requires hi <= |queue| && UniquePeers(a.sockets)
    ensures var b := AdmitAll(a, queue, hi, authenticator);
      && UniquePeers(b.sockets)
      && a.sockets <= b.sockets
      && a.calls <= b.calls
      && forall k :: 0 <= k < hi && authenticator(queue[k]).Accepted? ==> Mapped(b.sockets, queue[k].peer)
    decreases hi
  {
    if hi > 0 {
      var m := AdmitAll(a, queue, hi - 1, authenticator);
      var b := AdmitAll(a, queue, hi, authenticator);
      AdmitAllInvariant(a, queue, hi - 1, authenticator);
      AdmitStepGrows(m, queue[hi - 1], authenticator);
      forall k | 0 <= k < hi && authenticator(queue[k]).Accepted?
        ensures Mapped(b.sockets, queue[k].peer)
      {
        if k < hi - 1 {
          AdmitStepKeepsMapped(m, queue[hi - 1], authenticator, queue[k].peer);
        }
      }
    }
  }

  /** Requests whose peers all have a socket already change nothing: no connection, no call. */
  lemma {:induction false} AdmitAllSkipsMapped(a: Admission, queue: seq<ConnectionRequest>, hi: nat, authenticator: Authenticator)
    requires hi <= |queue|
    requires forall k :: 0 <= k < hi ==> Mapped(a.sockets, queue[k].peer)
    ensures AdmitAll(a, queue, hi, authenticator) == a
    decreases hi
  {
    if hi > 0 {
      AdmitAllSkipsMapped(a, queue, hi - 1, authenticator);
    }
  }

  /** Each request yields at most one connection, followed by at most its default rejection. */
  lemma {:induction false} AdmitAllCallBound(a: Admission, queue: seq<ConnectionRequest>, hi: nat, authenticator: Authenticator)
    requires hi <= |queue|
    ensures |AdmitAll(a, queue, hi, authenticator).calls| <= |a.calls| + 2 * hi
    ensures |AdmitAll(a, queue, hi, authenticator).sockets| <= |a.sockets| + hi
    decreases hi
  {
    if hi > 0 {
      AdmitAllCallBound(a, queue, hi - 1, authenticator);
    }
  }

  // ---------------------------------------------------------------- admission as written

  /**
   * The state of `processAuth`'s loop as the source writes it, over the
   * queue's contents when the drain starts: `poll` holds `queue[next]`, and
   * `next == |queue|` stands for `poll == null`.
   */
  datatype AuthLoop = AuthLoop(admission: Admission, queue: seq<ConnectionRequest>, next: nat)

  /**
   * One pass of the loop body as written: for a mapped peer, `continue` goes
   * back to the test without polling, so the state is unchanged.
   */
  function AuthIteration(l: AuthLoop, authenticator: Authenticator): (r: AuthLoop)
    requires l.next < |l.queue|
    ensures r.queue == l.queue
    ensures Mapped(l.admission.sockets, l.queue[l.next].peer) <==> r.next == l.next
    ensures r.next == l.next ==> r == l
    ensures r.next != l.next ==> r.next == l.next + 1
  {
    var req := l.queue[l.next];
    if Mapped(l.admission.sockets, req.peer) then l
    else AuthLoop(Admit(l.admission, req, authenticator), l.queue, l.next + 1)
  }

  /** At most `n` passes of the loop as written, stopping when `poll == null`. */
  function AuthIterate(l: AuthLoop, n: nat, authenticator: Authenticator): (r: AuthLoop)
    ensures r.queue == l.queue
    ensures l.next <= r.next <= l.next + n
    decreases n
  {
    if n == 0 || l.next >= |l.queue| then l else AuthIterate(AuthIteration(l, authenticator), n - 1, authenticator)
  }

  /** Once `poll` holds a request from a mapped peer, the loop as written never leaves that state. */
  lemma {:induction false} MappedRequestSpins(l: AuthLoop, n: nat, authenticator: Authenticator)
    requires l.next < |l.queue| && Mapped(l.admission.sockets, l.queue[l.next].peer)
    ensures AuthIterate(l, n, authenticator) == l
    decreases n
  {
    if n > 0 {
      MappedRequestSpins(l, n - 1, authenticator);
    }
  }

  /**
   * Two requests from the same new peer that the authenticator accepts: the
   * first connects it, and from then on the loop as written spins on the
   * second with `poll != null` for ever.
   */
  lemma DuplicateRequestSpins(start: Admission, req: ConnectionRequest, authenticator: Authenticator, n: nat)
    requires !Mapped(start.sockets, req.peer) && authenticator(req).Accepted?
    ensures var l := AuthIterate(AuthLoop(start, [req, req], 0), n + 1, authenticator);
      && l.next == 1 < |l.queue|
      && l.admission == Admit(start, req, authenticator)
  {
    var l0 := AuthLoop(start, [req, req], 0);
    var l1 := AuthIteration(l0, authenticator);
    AdmitStepGrows(start, req, authenticator);
    assert l1 == AuthLoop(Admit(start, req, authenticator), [req, req], 1);
    MappedRequestSpins(l1, n, authenticator);
  }

  /** The request `queue[j]` comes from a peer with no socket when its turn comes. */
  predicate NewAtItsTurn(a: Admission, queue: seq<ConnectionRequest>, j: nat, authenticator: Authenticator)
    requires j < |queue|
  {
    !Mapped(AdmitAll(a, queue, j, authenticator).sockets, queue[j].peer)
  }

  /**
   * When no request is for an already mapped peer at its turn, the loop as
   * written ends, and does what the corrected drain does.
   */
  lemma {:induction false} AsWrittenAgreesWithoutDuplicates(a: Admission, queue: seq<ConnectionRequest>, k: nat, authenticator: Authenticator)
    requires k <= |queue|
    requires forall j :: k <= j < |queue| ==> NewAtItsTurn(a, queue, j, authenticator)
    ensures AuthIterate(AuthLoop(AdmitAll(a, queue, k, authenticator), queue, k), |queue| - k, authenticator)
         == AuthLoop(AdmitAll(a, queue, |queue|, authenticator), queue, |queue|)
    decreases |queue| - k
  {
    if k < |queue| {
      var l := AuthLoop(AdmitAll(a, queue, k, authenticator), queue, k);
      var l1 := AuthLoop(AdmitAll(a, queue, k + 1, authenticator), queue, k + 1);
      assert NewAtItsTurn(a, queue, k, authenticator);
      assert AuthIteration(l, authenticator) == l1;
      AsWrittenAgreesWithoutDuplicates(a, queue, k + 1, authenticator);
    }
  }

  // ---------------------------------------------------------------- the server

  /** A caller's `ArrayList<Socket>`, which `getSockets` refills in place. */
  class SocketList {
    var items: seq<SocketRecord>

    constructor()
      ensures items == []
    {
      items := [];
    }
  }

  class ServerSocket {
    /** The `bufferSize` of the receive buffer `run` allocates. */
    const bufferSize: int
    const inactivityTimeout: int
    const pingFrequency: int
    const resendFrequency: int
    /** The tags `mnet2.PacketType.discovery` and `connectionRequest`, whose values are not part of this model. */
    const discovery: int8
    const connectionRequest: int8
    /** `discoverer != null`. */
    const hasDiscoverer: bool
    /** `run`'s receive buffer, which each `udp.receive` overwrites from index 0. */
    const buffer: array<int8>

    /** `socketMap.sockets`, in iteration order. */
    var sockets: seq<SocketRecord>
    /** `connectionRequests`, head first. */
    var requests: seq<ConnectionRequest>
    /** The calls made so far into the sockets, the authenticator, the connections and the UDP socket. */
    var calls: seq<Call>
    /** `udp.isClosed()`. */
    var udpClosed: bool

    predicate Valid()
      reads this
    {
      buffer.Length == bufferSize > 0 && UniquePeers(sockets)
    }

    /** `ServerSocket(udp, bufferSize, inactivityTimeout, pingFrequency, resendFrequency, authenticator, serializerSupplier, discoverer)`. */
    constructor(bufferSize: int, inactivityTimeout: int, pingFrequency: int, resendFrequency: int,
                discovery: int8, connectionRequest: int8, hasDiscoverer: bool)
      requires bufferSize > 0
      ensures Valid() && fresh(buffer)
      ensures this.bufferSize == bufferSize && this.inactivityTimeout == inactivityTimeout
      ensures this.pingFrequency == pingFrequency && this.resendFrequency == resendFrequency
      ensures this.discovery == discovery && this.connectionRequest == connectionRequest && this.hasDiscoverer == hasDiscoverer
      ensures sockets == [] && requests == [] && calls == [] && !udpClosed
    {
      this.bufferSize := bufferSize;
      this.inactivityTimeout := inactivityTimeout;
      this.pingFrequency := pingFrequency;
      this.resendFrequency := resendFrequency;
      this.discovery := discovery;
      this.connectionRequest := connectionRequest;
      this.hasDiscoverer := hasDiscoverer;
      buffer := new int8[bufferSize];
      sockets := [];
      requests := [];
      calls := [];
      udpClosed := false;
    }

    /**
     * One pass of `run`'s loop for a received `datagram` from `from`: the
     * buffer takes the datagram's first `bufferSize` bytes, and `buffer[0]`
     * decides where it goes. Once the UDP socket is closed, `receive`
     * throws and the loop has ended: nothing happens.
     */
    method Receive(datagram: seq<int8>, from: Peer, deserialize: Deserializer)
      requires Valid()
      modifies this, buffer
      ensures Valid()
      ensures sockets == old(sockets) && udpClosed == old(udpClosed)
      ensures old(udpClosed) ==> buffer[..] == old(buffer[..]) && requests == old(requests) && calls == old(calls)
      ensures !old(udpClosed) ==>
        var len := if |datagram| <= bufferSize then |datagram| else bufferSize;
        var route := RouteOf(buffer[0], len, sockets, from, discovery, connectionRequest, hasDiscoverer);
        && buffer[..] == Overwrite(old(buffer[..]), 0, datagram[..len])
        && (route.Forward? ==> route.index < |sockets|)
        && requests == old(requests) + (if route == Enqueue then [ConnectionRequest(from, deserialize(buffer[1..len]))] else [])
        && calls == old(calls) + RouteCalls(route, sockets, from, buffer[..], len)
    {
      if udpClosed {
        return;
      }
      var len := if |datagram| <= bufferSize then |datagram| else bufferSize;
      ArrayCopy(datagram[..len], buffer, 0);
      var packetType := buffer[0];
      if packetType == discovery {
        if !hasDiscoverer {
          return;
        }
        calls := calls + [SendDiscovery(from.address)];
        return;
      }
      if len <= 5 {
        return;
      }
      var found := IndexOf(sockets, from, |sockets|);
      if found.Some? {
        calls := calls + [ReceiveData(sockets[found.value].peer, buffer[..], packetType, len)];
      } else if packetType == connectionRequest {
        var req := deserialize(buffer[1..len]);
        requests := requests + [ConnectionRequest(from, req)];
      }
    }

    /** `connectionRequests.poll()`: the head of the queue, removed, or `null` when it is empty. */
    method Poll() returns (r: Option<ConnectionRequest>)
      modifies this
      ensures sockets == old(sockets) && calls == old(calls) && udpClosed == old(udpClosed)
      ensures old(requests) == [] ==> r == None && requests == []
      ensures old(requests) != [] ==> r == Some(old(requests)[0]) && requests == old(requests)[1..]
    {
      if requests == [] {
        return None;
      }
      r := Some(requests[0]);
      requests := requests[1..];
    }

    /**
     * `processAuth`'s body for one polled request: dropped if its peer has a
     * socket, else a `Connection` for the authenticator, rejected if it
     * makes no choice.
     */
    method HandleRequest(req: ConnectionRequest, authenticator: Authenticator)
      requires Valid()
      modifies this
      ensures Valid()
      ensures requests == old(requests) && udpClosed == old(udpClosed)
      ensures Admission(sockets, calls) == AdmitStep(Admission(old(sockets), old(calls)), req, authenticator)
    {
      AdmitStepGrows(Admission(sockets, calls), req, authenticator);
      if Mapped(sockets, req.peer) {
        return;
      }
      calls := calls + [AcceptConnection(req.peer, req.userRequest)];
      var decision := authenticator(req);
      match decision {
        case Accepted(state) =>
          sockets := sockets + [SocketRecord(req.peer, state)];
        case Rejected =>
        case Undecided =>
          calls := calls + [RejectConnection(req.peer)];
      }
    }

    /**
     * `processAuth` with the `poll` moved ahead of the duplicate check, so
     * that a request from a mapped peer is dropped and the drain goes on:
     * every queued request is handled in order, and the queue ends empty.
     */
    method ProcessAuth(authenticator: Authenticator)
      requires Valid()
      modifies this
      ensures Valid()
      ensures udpClosed == old(udpClosed) && requests == []
      ensures Admission(sockets, calls) == AdmitAll(Admission(old(sockets), old(calls)), old(requests), |old(requests)|, authenticator)
    {
      ghost var queue := requests;
      ghost var start := Admission(sockets, calls);
      ghost var i := 0;
      var poll := Poll();
      while poll.Some?
        invariant Valid() && udpClosed == old(udpClosed)
        invariant 0 <= i <= |queue|
        invariant poll.Some? <==> i < |queue|
        invariant poll.Some? ==> poll.value == queue[i]
        invariant |requests| == if i < |queue| then |queue| - i - 1 else 0
        invariant forall k :: 0 <= k < |requests| ==> requests[k] == queue[i + 1 + k]
        invariant Admission(sockets, calls) == AdmitAll(start, queue, i, authenticator)
        decreases |requests| + (if poll.Some? then 1 else 0)
      {
        HandleRequest(poll.value, authenticator);
        poll := Poll();
        i := i + 1;
      }
    }

    /** `updateDCAndSockets` at time `now`: one watchdog action per mapped socket, in map order. */
    method Sweep(now: int)
      requires Valid()
      modifies this
      ensures Valid()
      ensures sockets == old(sockets) && requests == old(requests) && udpClosed == old(udpClosed)
      ensures calls == old(calls) + SweepCalls(sockets, now, |sockets|)
    {
      var i := 0;
      while i < |sockets|
        invariant 0 <= i <= |sockets|
        invariant sockets == old(sockets) && requests == old(requests) && udpClosed == old(udpClosed)
        invariant calls == old(calls) + SweepCalls(sockets, now, i)
      {
        var socket := sockets[i];
        if Wrap64(now - socket.state.lastTimeReceivedMsg) > socket.state.inactivityTimeout {
          calls := calls + [QueueDisconnection(socket.peer, TimeOut)];
        } else if socket.state.connected {
          calls := calls + [CheckResendAndPing(socket.peer)];
        }
        i := i + 1;
      }
    }

    /** `update()` at time `now`: the watchdog sweep, then the admission drain. */
    method Update(now: int, authenticator: Authenticator)
      requires Valid()
      modifies this
      ensures Valid()
      ensures udpClosed == old(udpClosed) && requests == []
      ensures Admission(sockets, calls) ==
        AdmitAll(Admission(old(sockets), old(calls) + SweepCalls(old(sockets), now, |old(sockets)|)), old(requests), |old(requests)|, authenticator)
    {
      Sweep(now);
      ProcessAuth(authenticator);
    }

    /**
     * `getSockets(list)`: the caller's own list is cleared and refilled with
     * every mapped socket in map order, then returned.
     */
    method GetSockets(list: SocketList) returns (r: SocketList)
      modifies list
      ensures r == list && list.items == sockets
    {
      if |list.items| > 0 {
        list.items := [];
      }
      var i := 0;
      while i < |sockets|
        invariant 0 <= i <= |sockets| && |list.items| == i
        invariant forall k :: 0 <= k < i ==> list.items[k] == sockets[k]
      {
        list.items := list.items + [sockets[i]];
        i := i + 1;
      }
      r := list;
    }

    /** `getSockets()`: the same, into a new list. */
    method AllSockets() returns (r: SocketList)
      ensures fresh(r) && r.items == sockets
    {
      r := new SocketList();
      r := GetSockets(r);
    }

    /** `close()`: every mapped socket closed with `SERVER_SHUTDOWN`, in map order, then the UDP socket. */
    method Close()
      requires Valid()
      modifies this
      ensures Valid()
      ensures sockets == old(sockets) && requests == old(requests) && udpClosed
      ensures calls == old(calls) + CloseCalls(sockets, |sockets|) + [CloseUdp]
    {
      var list := AllSockets();
      var i := 0;
      while i < |list.items|
        invariant 0 <= i <= |list.items| && list.items == sockets
        invariant sockets == old(sockets) && requests == old(requests) && udpClosed == old(udpClosed)
        invariant calls == old(calls) + CloseCalls(sockets, i)
      {
        calls := calls + [CloseSocket(list.items[i].peer, ServerShutdown)];
        i := i + 1;
      }
      calls := calls + [CloseUdp];
      udpClosed := true;
    }
  }
}
