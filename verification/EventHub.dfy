// The in-process registry that fans events out to connected clients.

module EventHub {
  import opened Common
  import opened EventProtocol

  datatype Frame =
    | Accept(eventProtocol: int)
    | Refuse(reason: RefusalReason)
    | EventFrame(seqNo: nat, event: ServerEvent)

  datatype ReadyState = Open | Closing | Closed

  /** A socket's ready state and the frames written to it so far. */
  datatype Socket = Socket(ready: ReadyState, sent: seq<Frame>)

  /** `close` and `terminate`: no further frame is written; the close event comes later. */
  function Shut(socket: Socket): Socket {
    if socket.ready.Open? then socket.(ready := Closing) else socket
  }

  /** A frame sent to a socket that is no longer open is lost. */
  function SentTo(sockets: map<int, Socket>, id: int, frame: Frame): map<int, Socket>
    requires id in sockets
  {
    var socket := sockets[id];
    if socket.ready.Open? then sockets[id := socket.(sent := socket.sent + [frame])] else sockets
  }

  /** The sockets of the process, by id. */
  class Network {
    var sockets: map<int, Socket>

    constructor ()
      ensures sockets == map[]
    {
      sockets := map[];
    }

    method Add(id: int)
      requires id !in sockets
      modifies this
      ensures sockets == old(sockets)[id := Socket(Open, [])]
    {
      sockets := sockets[id := Socket(Open, [])];
    }

    method Close(id: int)
      requires id in sockets
      modifies this
      ensures sockets == old(sockets)[id := Shut(old(sockets)[id])]
    {
      if sockets[id].ready.Open? {
        sockets := sockets[id := sockets[id].(ready := Closing)];
      }
    }

    /** The socket is gone; its close event is about to run. */
    method MarkClosed(id: int)
      requires id in sockets
      modifies this
      ensures sockets == old(sockets)[id := old(sockets)[id].(ready := Closed)]
    {
      sockets := sockets[id := sockets[id].(ready := Closed)];
    }

    method Send(id: int, frame: Frame)
      requires id in sockets
      modifies this
      ensures sockets == SentTo(old(sockets), id, frame)
    {
      var socket := sockets[id];
      if socket.ready.Open? {
        sockets := sockets[id := socket.(sent := socket.sent + [frame])];
      }
    }
  }

  /** Live connections per client, each with the capabilities it advertised. */
  type Registry = map<int, map<int, set<string>>>

  predicate Registered(registry: Registry, clientId: int, socket: int) {
    clientId in registry && socket in registry[clientId]
  }

  ghost predicate AllPresent(registry: Registry, sockets: map<int, Socket>) {
    forall c, s | Registered(registry, c, s) :: s in sockets
  }

  lemma ConnectionsPresent(registry: Registry, sockets: map<int, Socket>, c: int)
    requires AllPresent(registry, sockets) && c in registry
    ensures registry[c].Keys <= sockets.Keys
  {
    forall s | s in registry[c] ensures s in sockets {
      assert Registered(registry, c, s);
    }
  }

  /** No client is listed without a connection. */
  ghost predicate Pruned(registry: Registry) {
    forall c | c in registry :: registry[c] != map[]
  }

  /** A socket belongs to one client. */
  ghost predicate Exclusive(registry: Registry) {
    forall c, d, s :: Registered(registry, c, s) && Registered(registry, d, s) ==> c == d
  }

  function WithConnection(registry: Registry, clientId: int, socket: int, capabilities: set<string>): Registry {
    registry[clientId := (if clientId in registry then registry[clientId] else map[])[socket := capabilities]]
  }

  function WithoutConnection(registry: Registry, clientId: int, socket: int): Registry {
    if clientId !in registry then registry
    else
      var conns := registry[clientId] - {socket};
      if conns == map[] then registry - {clientId} else registry[clientId := conns]
  }

  /** Registering adds this connection or refreshes its capabilities, and touches no other. */
  lemma RegisterMeaning(registry: Registry, clientId: int, socket: int, capabilities: set<string>, c: int, s: int)
    ensures var after := WithConnection(registry, clientId, socket, capabilities);
            && (Registered(after, c, s) <==> Registered(registry, c, s) || (c == clientId && s == socket))
            && (Registered(after, c, s) ==>
                  after[c][s] == if c == clientId && s == socket then capabilities else registry[c][s])
    ensures Pruned(registry) ==> Pruned(WithConnection(registry, clientId, socket, capabilities))
  {
    assert socket in WithConnection(registry, clientId, socket, capabilities)[clientId];
  }

  /** Unregistering removes this connection only, and the client with its last one. */
  lemma UnregisterMeaning(registry: Registry, clientId: int, socket: int, c: int, s: int)
    ensures var after := WithoutConnection(registry, clientId, socket);
            && (Registered(after, c, s) <==> Registered(registry, c, s) && !(c == clientId && s == socket))
            && (Registered(after, c, s) ==> after[c][s] == registry[c][s])
    ensures Pruned(registry) ==> Pruned(WithoutConnection(registry, clientId, socket))
  {
    if Registered(registry, clientId, s) && s != socket {
      assert s in registry[clientId] - {socket};
    }
  }

  /** The sockets of one client that an event is written to. */
  function Reached(sockets: map<int, Socket>, conns: map<int, set<string>>, event: ServerEvent): set<int> {
    set s | s in conns && s in sockets && sockets[s].ready.Open? && Capable(conns[s], event)
  }

  ghost predicate ReachedUnder(
    sockets: map<int, Socket>, registry: Registry, event: ServerEvent, clientId: int, s: int)
  {
    clientId in registry && s in Reached(sockets, registry[clientId], event)
  }

  /** The sockets of any client that an event is written to. */
  ghost function ReachedByAny(sockets: map<int, Socket>, registry: Registry, event: ServerEvent): set<int> {
    set s | s in sockets && exists c :: ReachedUnder(sockets, registry, event, c, s)
  }

  function Deliver(sockets: map<int, Socket>, reached: set<int>, frame: Frame): map<int, Socket> {
    map s | s in sockets :: if s in reached then sockets[s].(sent := sockets[s].sent + [frame]) else sockets[s]
  }

  lemma DeliverTwice(sockets: map<int, Socket>, a: set<int>, b: set<int>, frame: Frame)
    requires a !! b
    ensures Deliver(Deliver(sockets, a, frame), b, frame) == Deliver(sockets, a + b, frame)
  {
  }

  lemma DeliverOne(sockets: map<int, Socket>, reached: set<int>, id: int, frame: Frame)
    requires id in sockets && id !in reached && sockets[id].ready.Open?
    ensures Deliver(sockets, reached + {id}, frame) == SentTo(Deliver(sockets, reached, frame), id, frame)
  {
  }

  lemma DeliverLooks(sockets: map<int, Socket>, reached: set<int>, frame: Frame, id: int)
    requires id in sockets
    ensures Deliver(sockets, reached, frame).Keys == sockets.Keys
    ensures Deliver(sockets, reached, frame)[id].ready == sockets[id].ready
  {
  }

  lemma NothingReached(sockets: map<int, Socket>, conns: map<int, set<string>>, event: ServerEvent, frame: Frame)
    ensures Writing(sockets, sockets, conns, event, frame, conns.Keys, 0)
  {
    assert Reached(sockets, conns, event) - conns.Keys == {};
    assert Deliver(sockets, {}, frame) == sockets;
  }

  /** The sockets after writing to the connections that are no longer to do. */
  ghost predicate Writing(
    start: map<int, Socket>, sockets: map<int, Socket>, conns: map<int, set<string>>, event: ServerEvent, frame: Frame,
    todo: set<int>, delivered: int)
  {
    var reached := Reached(start, conns, event) - todo;
    sockets == Deliver(start, reached, frame) && delivered == |reached|
  }

  /** Writing to one more connection, if it is open and capable. */
  lemma WriteNext(
    start: map<int, Socket>, sockets: map<int, Socket>, conns: map<int, set<string>>, event: ServerEvent, frame: Frame,
    todo: set<int>, delivered: int, id: int)
    requires Writing(start, sockets, conns, event, frame, todo, delivered)
    requires id in todo && id in conns && id in start
    ensures id in sockets
    ensures var hit := sockets[id].ready.Open? && Capable(conns[id], event);
            Writing(start, if hit then SentTo(sockets, id, frame) else sockets, conns, event, frame,
                    todo - {id}, if hit then delivered + 1 else delivered)
  {
    var reached := Reached(start, conns, event) - todo;
    hide Capable, Deliver, Reached, SentTo;
    ReachedStep(start, conns, event, todo, id);
    DeliverLooks(start, reached, frame, id);
    if sockets[id].ready.Open? && Capable(conns[id], event) {
      DeliverOne(start, reached, id, frame);
    }
  }

  lemma AllWritten(
    start: map<int, Socket>, sockets: map<int, Socket>, conns: map<int, set<string>>, event: ServerEvent, frame: Frame,
    delivered: int)
    requires Writing(start, sockets, conns, event, frame, {}, delivered)
    ensures sockets == Deliver(start, Reached(start, conns, event), frame)
    ensures delivered == |Reached(start, conns, event)|
  {
    assert Reached(start, conns, event) - {} == Reached(start, conns, event);
  }

  lemma ReachedStep(
    sockets: map<int, Socket>, conns: map<int, set<string>>, event: ServerEvent, todo: set<int>, id: int)
    requires id in todo && id in conns && id in sockets
    ensures var hit := sockets[id].ready.Open? && Capable(conns[id], event);
            Reached(sockets, conns, event) - (todo - {id})
            == (Reached(sockets, conns, event) - todo) + (if hit then {id} else {})
    ensures id !in Reached(sockets, conns, event) - todo
  {
  }

  function Only(registry: Registry, clients: set<int>): Registry {
    map c | c in registry && c in clients :: registry[c]
  }

  /** Writing to one more client reaches its capable sockets, none of them a second time. */
  lemma BroadcastStep(
    sockets: map<int, Socket>, registry: Registry, done: set<int>, c: int, event: ServerEvent, frame: Frame)
    requires Exclusive(registry) && c in registry && c !in done
    ensures var before := ReachedByAny(sockets, Only(registry, done), event);
            var delivered := Deliver(sockets, before, frame);
            && Reached(delivered, registry[c], event) == Reached(sockets, registry[c], event)
            && before !! Reached(sockets, registry[c], event)
            && ReachedByAny(sockets, Only(registry, done + {c}), event) == before + Reached(sockets, registry[c], event)
  {
    var before := ReachedByAny(sockets, Only(registry, done), event);
    var more := Only(registry, done + {c});
    forall s | s in before ensures s !in Reached(sockets, registry[c], event) {
      var d :| ReachedUnder(sockets, Only(registry, done), event, d, s);
      assert d != c && Registered(registry, d, s);
      assert !Registered(registry, c, s);
    }
    forall s ensures s in ReachedByAny(sockets, more, event) <==> s in before + Reached(sockets, registry[c], event) {
      if s in ReachedByAny(sockets, more, event) {
        var d :| ReachedUnder(sockets, more, event, d, s);
        assert d != c ==> ReachedUnder(sockets, Only(registry, done), event, d, s);
      }
      if s in before {
        var d :| ReachedUnder(sockets, Only(registry, done), event, d, s);
        assert ReachedUnder(sockets, more, event, d, s);
      }
      if s in Reached(sockets, registry[c], event) {
        assert ReachedUnder(sockets, more, event, c, s);
      }
    }
  }

  /** The state of a broadcast after the clients in `done`. */
  ghost predicate BroadcastSoFar(
    start: map<int, Socket>, now: map<int, Socket>, registry: Registry, done: set<int>,
    event: ServerEvent, frame: Frame, delivered: nat)
  {
    var reached := ReachedByAny(start, Only(registry, done), event);
    now == Deliver(start, reached, frame) && delivered == |reached|
  }

  lemma BroadcastBegins(start: map<int, Socket>, registry: Registry, event: ServerEvent, frame: Frame)
    ensures BroadcastSoFar(start, start, registry, {}, event, frame, 0)
  {
    assert ReachedByAny(start, Only(registry, {}), event) == {};
    NothingReached(start, map[], event, frame);
  }

  lemma BroadcastContinues(
    start: map<int, Socket>, now: map<int, Socket>, registry: Registry, done: set<int>,
    event: ServerEvent, frame: Frame, delivered: nat, c: int)
    requires Exclusive(registry) && c in registry && c !in done
    requires BroadcastSoFar(start, now, registry, done, event, frame, delivered)
    ensures now.Keys == start.Keys
    ensures var reached := Reached(now, registry[c], event);
            BroadcastSoFar(start, Deliver(now, reached, frame), registry, done + {c},
                           event, frame, delivered + |reached|)
  {
    hide Reached, Only, ReachedByAny, Exclusive;
    var before := ReachedByAny(start, Only(registry, done), event);
    BroadcastStep(start, registry, done, c, event, frame);
    DeliverTwice(start, before, Reached(start, registry[c], event), frame);
  }

  lemma BroadcastEnds(
    start: map<int, Socket>, now: map<int, Socket>, registry: Registry, done: set<int>,
    event: ServerEvent, frame: Frame, delivered: nat)
    requires done == registry.Keys && BroadcastSoFar(start, now, registry, done, event, frame, delivered)
    ensures var reached := ReachedByAny(start, registry, event);
            now == Deliver(start, reached, frame) && delivered == |reached|
  {
    assert Only(registry, done) == registry;
  }

  class EventHub {
    const net: Network
    var byClient: Registry
    /** Stamped onto each published frame. */
    var seqNo: nat

    constructor (net: Network)
      ensures this.net == net && byClient == map[] && seqNo == 0
    {
      this.net := net;
      byClient, seqNo := map[], 0;
    }

    method Register(clientId: int, socket: int, capabilities: set<string>)
      modifies this`byClient
      ensures byClient == WithConnection(old(byClient), clientId, socket, capabilities)
    {
      if clientId !in byClient {
        byClient := byClient[clientId := map[socket := capabilities]];
      } else {
        byClient := byClient[clientId := byClient[clientId][socket := capabilities]];
      }
    }

    method Unregister(clientId: int, socket: int)
      modifies this`byClient
      ensures byClient == WithoutConnection(old(byClient), clientId, socket)
    {
      if clientId !in byClient {
        return;
      }
      var conns := byClient[clientId] - {socket};
      if conns == map[] {
        byClient := byClient - {clientId};
      } else {
        byClient := byClient[clientId := conns];
      }
    }

    /** Write a frame to every open connection whose capabilities suffice. */
    method Write(conns: map<int, set<string>>, frame: Frame, event: ServerEvent) returns (delivered: nat)
      requires conns.Keys <= net.sockets.Keys
      modifies net
      ensures net.sockets == Deliver(old(net.sockets), Reached(old(net.sockets), conns, event), frame)
      ensures delivered == |Reached(old(net.sockets), conns, event)|
    {
      delivered := 0;
      var todo := conns.Keys;
      ghost var start := net.sockets;
      NothingReached(start, conns, event, frame);
      hide Capable, Deliver, Reached, SentTo, Writing;
      while todo != {}
        invariant todo <= conns.Keys
        invariant Writing(start, net.sockets, conns, event, frame, todo, delivered)
        decreases |todo|
      {
        var socket := Pick(todo);
        WriteNext(start, net.sockets, conns, event, frame, todo, delivered, socket);
        todo := todo - {socket};
        if net.sockets[socket].ready.Open? && Capable(conns[socket], event) {
          net.Send(socket, frame);
          delivered := delivered + 1;
        }
      }
      AllWritten(start, net.sockets, conns, event, frame, delivered);
    }

    /** Publish to one client; an offline client costs no sequence number. */
    method PublishToClient(clientId: int, event: ServerEvent) returns (delivered: nat)
      requires AllPresent(byClient, net.sockets)
      modifies net, this`seqNo
      ensures seqNo == old(seqNo) + if clientId in byClient then 1 else 0
      ensures var conns := if clientId in byClient then byClient[clientId] else map[];
              var reached := Reached(old(net.sockets), conns, event);
              net.sockets == Deliver(old(net.sockets), reached, EventFrame(seqNo, event)) && delivered == |reached|
    {
      if clientId !in byClient {
        assert Reached(net.sockets, map[], event) == {};
        return 0;
      }
      seqNo := seqNo + 1;
      ConnectionsPresent(byClient, net.sockets, clientId);
      delivered := Write(byClient[clientId], EventFrame(seqNo, event), event);
    }

    /** Publish to every client; all recipients share one sequence number. */
    method Broadcast(event: ServerEvent) returns (delivered: nat)
      requires Exclusive(byClient)
      requires AllPresent(byClient, net.sockets)
      modifies net, this`seqNo
      ensures seqNo == old(seqNo) + 1
      ensures var reached := ReachedByAny(old(net.sockets), byClient, event);
              net.sockets == Deliver(old(net.sockets), reached, EventFrame(seqNo, event)) && delivered == |reached|
    {
      seqNo := seqNo + 1;
      ghost var start := net.sockets;
      delivered := WriteAll(EventFrame(seqNo, event), event);
      BroadcastEnds(start, net.sockets, byClient, byClient.Keys, event, EventFrame(seqNo, event), delivered);
    }

    /** One frame to the capable sockets of every client. */
    method WriteAll(frame: Frame, event: ServerEvent) returns (delivered: nat)
      requires Exclusive(byClient)
      requires AllPresent(byClient, net.sockets)
      modifies net
      ensures BroadcastSoFar(old(net.sockets), net.sockets, byClient, byClient.Keys, event, frame, delivered)
    {
      delivered := 0;
      var todo := byClient.Keys;
      ghost var start := net.sockets;
      ghost var done: set<int> := {};
      BroadcastBegins(start, byClient, event, frame);
      hide BroadcastSoFar, Deliver, Reached, Exclusive, AllPresent;
      while todo != {}
        invariant todo <= byClient.Keys && done == byClient.Keys - todo
        invariant BroadcastSoFar(start, net.sockets, byClient, done, event, frame, delivered)
        decreases |todo|
      {
        var c := Pick(todo);
        todo := todo - {c};
        BroadcastContinues(start, net.sockets, byClient, done, event, frame, delivered, c);
        ConnectionsPresent(byClient, start, c);
        var written := Write(byClient[c], frame, event);
        delivered := delivered + written;
        done := done + {c};
      }
      assert done == byClient.Keys;
    }

    method IsClientLive(clientId: int) returns (live: bool)
      requires Pruned(byClient)
      ensures live <==> exists s :: Registered(byClient, clientId, s)
    {
      live := clientId in byClient;
      if live {
        var s := Pick(byClient[clientId].Keys);
        assert Registered(byClient, clientId, s);
      }
    }
  }
}
