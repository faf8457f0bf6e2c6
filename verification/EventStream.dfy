// The event-stream endpoint: the settle-once handshake, registration, liveness and
// fan-out, over every interleaving of socket events, timers and publishers.

module EventStream {
  import opened Common
  import opened EventProtocol
  import opened EventHub

  /** What the heartbeat of a connection did and heard, in order. */
  datatype Beat = Ping | Pong | Terminate

  /** One connection's handshake and heartbeat state. */
  datatype Connection = Connection(
    clientId: int,
    settled: bool,
    helloTimer: bool,                // armed
    accepted: Option<set<string>>,   // the capabilities advertised, once accepted
    alive: bool,
    beats: seq<Beat>)

  datatype System = System(
    sockets: map<int, Socket>, connections: map<int, Connection>, byClient: Registry, seqNo: nat)

  datatype Options = Options(serverProtocol: int, compatWindow: real)

  datatype Event =
    | Connect(socket: int, clientId: int)
    | HelloTimeout(socket: int)
    | Message(socket: int, hello: Option<HelloFrame>, bookkeepingFails: bool)
    | PongReceived(socket: int)
    | HeartbeatTick(socket: int)
    | PeerClosing(socket: int)
    | SocketClosed(socket: int)
    | Publish(clientId: int, event: ServerEvent)
    | BroadcastAll(event: ServerEvent)

  const START := System(map[], map[], map[], 0)

  predicate NotClosed(s: System, id: int) {
    id in s.sockets && id in s.connections && !s.sockets[id].ready.Closed?
  }

  /** A new socket is new; a timer fires while armed; nothing happens on a socket after its close event. */
  predicate Enabled(s: System, e: Event) {
    match e
    case Connect(id, _) => id !in s.sockets && id !in s.connections
    case HelloTimeout(id) => NotClosed(s, id) && s.connections[id].helloTimer
    case Message(id, _, _) => NotClosed(s, id)
    case PongReceived(id) => NotClosed(s, id)
    case HeartbeatTick(id) => NotClosed(s, id) && s.connections[id].accepted.Some?
    case PeerClosing(id) => NotClosed(s, id)
    case SocketClosed(id) => NotClosed(s, id)
    case Publish(_, _) | BroadcastAll(_) => true
  }

  function SendOn(socket: Socket, frame: Frame): Socket {
    if socket.ready.Open? then socket.(sent := socket.sent + [frame]) else socket
  }

  /** A refusal is sent and the socket closed, unless a write in between throws and the close is never reached. */
  function Refused(s: System, id: int, reason: RefusalReason, writeThrows: bool): System
    requires NotClosed(s, id)
  {
    var sent := SendOn(s.sockets[id], Refuse(reason));
    s.(sockets := s.sockets[id := if writeThrows then sent else Shut(sent)],
       connections := s.connections[id := s.connections[id].(settled := true, helloTimer := false)])
  }

  /** Only a client that is too old is flagged for an update, and the write of that flag may throw. */
  predicate FlagThrows(reason: RefusalReason, bookkeepingFails: bool) {
    reason.ClientTooOld? && bookkeepingFails
  }

  function Accepted(s: System, id: int, hello: HelloFrame): System
    requires NotClosed(s, id)
  {
    var c := s.connections[id];
    s.(sockets := s.sockets[id := SendOn(s.sockets[id], Accept(hello.eventProtocol))],
       connections := s.connections[id := c.(settled := true, helloTimer := false,
                                             accepted := Some(hello.capabilities), alive := true)],
       byClient := WithConnection(s.byClient, c.clientId, id, hello.capabilities))
  }

  /** The first message is the hello; once the handshake is settled messages are ignored. */
  function OnMessage(s: System, id: int, hello: Option<HelloFrame>, bookkeepingFails: bool, options: Options): System
    requires NotClosed(s, id)
  {
    var c := s.connections[id];
    if c.settled then s
    else
      match Negotiate(hello, options.serverProtocol, options.compatWindow)
      case RefuseHello(reason) => Refused(s, id, reason, FlagThrows(reason, bookkeepingFails))
      case AcceptHello(_) =>
        if bookkeepingFails then
          s.(sockets := s.sockets[id := Shut(s.sockets[id])],
             connections := s.connections[id := c.(settled := true, helloTimer := false)])
        else Accepted(s, id, hello.value)
  }

  function OnTick(s: System, id: int): System
    requires NotClosed(s, id)
  {
    var c := s.connections[id];
    if !c.alive then
      s.(sockets := s.sockets[id := Shut(s.sockets[id])],
         connections := s.connections[id := c.(beats := c.beats + [Terminate])])
    else s.(connections := s.connections[id := c.(alive := false, beats := c.beats + [Ping])])
  }

  function OnClose(s: System, id: int): System
    requires NotClosed(s, id)
  {
    var c := s.connections[id];
    s.(sockets := s.sockets[id := s.sockets[id].(ready := Closed)],
       connections := s.connections[id := c.(helloTimer := false)],
       byClient := if c.accepted.Some? then WithoutConnection(s.byClient, c.clientId, id) else s.byClient)
  }

  function ConnsOf(registry: Registry, clientId: int): map<int, set<string>> {
    if clientId in registry then registry[clientId] else map[]
  }

  ghost function Apply(s: System, e: Event, options: Options): System
    requires Enabled(s, e)
  {
    match e
    case Connect(id, clientId) =>
      s.(sockets := s.sockets[id := Socket(Open, [])],
         connections := s.connections[id := Connection(clientId, false, true, None, true, [])])
    case HelloTimeout(id) =>
      var c := s.connections[id];
      if c.settled then s.(connections := s.connections[id := c.(helloTimer := false)])
      else Refused(s, id, MalformedHello, false)
    case Message(id, hello, fails) => OnMessage(s, id, hello, fails, options)
    case PongReceived(id) =>
      var c := s.connections[id];
      if c.accepted.None? then s
      else s.(connections := s.connections[id := c.(alive := true, beats := c.beats + [Pong])])
    case HeartbeatTick(id) => OnTick(s, id)
    case PeerClosing(id) => s.(sockets := s.sockets[id := Shut(s.sockets[id])])
    case SocketClosed(id) => OnClose(s, id)
    case Publish(clientId, event) =>
      var seqNo := s.seqNo + if clientId in s.byClient then 1 else 0;
      var reached := Reached(s.sockets, ConnsOf(s.byClient, clientId), event);
      s.(sockets := Deliver(s.sockets, reached, EventFrame(seqNo, event)), seqNo := seqNo)
    case BroadcastAll(event) =>
      s.(sockets := Deliver(s.sockets, ReachedByAny(s.sockets, s.byClient, event), EventFrame(s.seqNo + 1, event)),
         seqNo := s.seqNo + 1)
  }

  ghost predicate Runs(s: System, events: seq<Event>, options: Options)
    decreases |events|
  {
    events == [] || (Enabled(s, events[0]) && Runs(Apply(s, events[0], options), events[1..], options))
  }

  ghost function Run(s: System, events: seq<Event>, options: Options): System
    requires Runs(s, events, options)
    decreases |events|
  {
    if events == [] then s else Run(Apply(s, events[0], options), events[1..], options)
  }

  // ----- what every step keeps -----

  /** Everything after the first frame is an event the peer asked to be able to receive, in sequence order. */
  ghost predicate EventsRight(sent: seq<Frame>, caps: set<string>, seqNo: nat) {
    && (forall i | 1 <= i < |sent| :: sent[i].EventFrame? && sent[i].seqNo <= seqNo && Capable(caps, sent[i].event))
    && (forall i, j | 1 <= i < j < |sent| :: sent[i].seqNo < sent[j].seqNo)
  }

  ghost predicate SentRight(socket: Socket, c: Connection, seqNo: nat) {
    match c.accepted
    case None =>
      && (!c.settled ==> socket.sent == [])
      && (c.settled && socket.ready.Open? ==> socket.sent == [Refuse(ClientTooOld)])
      && |socket.sent| <= 1
      && (forall frame | frame in socket.sent :: frame.Refuse?)
    case Some(caps) =>
      && c.settled
      && (socket.sent == [] ==> !socket.ready.Open?)
      && (socket.sent != [] ==> socket.sent[0].Accept?)
      && EventsRight(socket.sent, caps, seqNo)
  }

  /** Nothing yet, or a pong just before position `k`. */
  predicate HeardBefore(beats: seq<Beat>, k: int) {
    k <= 0 || k > |beats| || beats[k - 1].Pong?
  }

  /** A tick pings exactly when the peer answered since the tick before, and otherwise terminates it. */
  ghost predicate BeatsRight(socket: Socket, c: Connection) {
    && (c.accepted.None? ==> c.alive && c.beats == [])
    && (c.alive <==> HeardBefore(c.beats, |c.beats|))
    && (forall k | 0 <= k < |c.beats| && !c.beats[k].Pong? ::
          c.beats[k].Ping? <==> HeardBefore(c.beats, k))
    && (Terminate in c.beats ==> !socket.ready.Open?)
  }

  ghost predicate ConnectionRight(s: System, id: int) {
    id in s.sockets && id in s.connections ==>
      var socket, c := s.sockets[id], s.connections[id];
      && SentRight(socket, c, s.seqNo)
      && BeatsRight(socket, c)
      && (c.helloTimer <==> !c.settled && !socket.ready.Closed?)
  }

  /** In the hub under this client: accepted on a connection of that client, and its close event not seen. */
  predicate Live(s: System, clientId: int, id: int) {
    && NotClosed(s, id)
    && s.connections[id].clientId == clientId
    && s.connections[id].accepted.Some?
  }

  ghost predicate RegistryRight(s: System) {
    && Pruned(s.byClient)
    && (forall c, id :: Registered(s.byClient, c, id) <==> Live(s, c, id))
    && (forall c, id | Registered(s.byClient, c, id) && Live(s, c, id) ::
          s.byClient[c][id] == s.connections[id].accepted.value)
  }

  ghost predicate Inv(s: System) {
    && s.sockets.Keys == s.connections.Keys
    && RegistryRight(s)
    && (forall id :: ConnectionRight(s, id))
  }

  lemma InvGivesHub(s: System)
    requires RegistryRight(s)
    ensures Exclusive(s.byClient) && AllPresent(s.byClient, s.sockets)
  {
    forall c, id | Registered(s.byClient, c, id) ensures Live(s, c, id) {
    }
  }

  /** A step on one connection that leaves the hub alone. */
  lemma OneConnectionKeeps(s: System, s': System, id: int)
    requires Inv(s) && s'.byClient == s.byClient && s'.seqNo == s.seqNo
    requires s'.sockets.Keys == s'.connections.Keys && id in s'.sockets
    requires s'.sockets == s.sockets[id := s'.sockets[id]] && s'.connections == s.connections[id := s'.connections[id]]
    requires ConnectionRight(s', id)
    requires forall c :: Live(s', c, id) <==> Live(s, c, id)
    requires id in s.connections ==> s'.connections[id].accepted == s.connections[id].accepted
    ensures Inv(s')
  {
    hide SentRight, BeatsRight;
    forall other ensures ConnectionRight(s', other) {
      assert ConnectionRight(s, other);
    }
    forall c, other ensures Live(s', c, other) <==> Live(s, c, other) {
    }
  }

  lemma AcceptKeeps(s: System, id: int, hello: HelloFrame)
    requires Inv(s) && NotClosed(s, id) && !s.connections[id].settled
    ensures Inv(Accepted(s, id, hello))
  {
    var s' := Accepted(s, id, hello);
    var clientId := s.connections[id].clientId;
    assert ConnectionRight(s, id);
    assert ConnectionRight(s', id);
    hide SentRight, BeatsRight, Pruned;
    forall other ensures ConnectionRight(s', other) {
      assert ConnectionRight(s, other);
    }
    forall c, other
      ensures Registered(s'.byClient, c, other) <==> Live(s', c, other)
      ensures Registered(s'.byClient, c, other) && Live(s', c, other) ==>
                s'.byClient[c][other] == s'.connections[other].accepted.value {
      RegisterMeaning(s.byClient, clientId, id, hello.capabilities, c, other);
      assert Registered(s.byClient, c, other) <==> Live(s, c, other);
    }
    RegisterMeaning(s.byClient, clientId, id, hello.capabilities, clientId, id);
  }

  lemma CloseKeeps(s: System, id: int)
    requires Inv(s) && NotClosed(s, id)
    ensures Inv(OnClose(s, id))
  {
    var s' := OnClose(s, id);
    var clientId := s.connections[id].clientId;
    assert ConnectionRight(s, id);
    assert ConnectionRight(s', id);
    hide SentRight, BeatsRight, Pruned;
    forall other ensures ConnectionRight(s', other) {
      assert ConnectionRight(s, other);
    }
    forall c, other
      ensures Registered(s'.byClient, c, other) <==> Live(s', c, other)
      ensures Registered(s'.byClient, c, other) && Live(s', c, other) ==>
                s'.byClient[c][other] == s'.connections[other].accepted.value {
      UnregisterMeaning(s.byClient, clientId, id, c, other);
      assert Registered(s.byClient, c, other) <==> Live(s, c, other);
    }
    UnregisterMeaning(s.byClient, clientId, id, clientId, id);
  }

  /** Writing an event frame keeps each connection right: only accepted, open, capable ones get it. */
  lemma DeliverKeeps(s: System, reached: set<int>, seqNo: nat, event: ServerEvent)
    requires Inv(s) && s.seqNo <= seqNo && (reached != {} ==> s.seqNo < seqNo)
    requires forall id | id in reached ::
               NotClosed(s, id) && s.sockets[id].ready.Open?
               && s.connections[id].accepted.Some? && Capable(s.connections[id].accepted.value, event)
    ensures Inv(s.(sockets := Deliver(s.sockets, reached, EventFrame(seqNo, event)), seqNo := seqNo))
  {
    var s' := s.(sockets := Deliver(s.sockets, reached, EventFrame(seqNo, event)), seqNo := seqNo);
    forall id ensures ConnectionRight(s', id) {
      assert ConnectionRight(s, id);
    }
    forall c, id ensures Live(s', c, id) <==> Live(s, c, id) {
    }
  }

  lemma ReachedIsLive(s: System, clientId: int, event: ServerEvent, id: int)
    requires Inv(s)
    ensures id in Reached(s.sockets, ConnsOf(s.byClient, clientId), event)
            <==> Receives(s, clientId, event, id)
  {
    assert Registered(s.byClient, clientId, id) <==> Live(s, clientId, id);
  }

  predicate Receives(s: System, clientId: int, event: ServerEvent, id: int) {
    Live(s, clientId, id) && s.sockets[id].ready.Open? && Capable(s.connections[id].accepted.value, event)
  }

  /** The client's accepted, open connections that can honour the event. */
  ghost function Receivers(s: System, clientId: int, event: ServerEvent): set<int> {
    set id | id in s.sockets && Receives(s, clientId, event, id)
  }

  predicate ReceivesAny(s: System, event: ServerEvent, id: int) {
    && NotClosed(s, id) && s.connections[id].accepted.Some? && s.sockets[id].ready.Open?
    && Capable(s.connections[id].accepted.value, event)
  }

  /** Every client's accepted, open connections that can honour the event. */
  ghost function AllReceivers(s: System, event: ServerEvent): set<int> {
    set id | id in s.sockets && ReceivesAny(s, event, id)
  }

  lemma ReachedByAnySet(s: System, event: ServerEvent)
    requires Inv(s)
    ensures ReachedByAny(s.sockets, s.byClient, event) == AllReceivers(s, event)
  {
    forall id ensures id in ReachedByAny(s.sockets, s.byClient, event) <==> id in AllReceivers(s, event) {
      ReachedByAnyIsLive(s, event, id);
    }
  }

  lemma ReachedSet(s: System, clientId: int, event: ServerEvent)
    requires Inv(s)
    ensures Reached(s.sockets, ConnsOf(s.byClient, clientId), event) == Receivers(s, clientId, event)
  {
    forall id ensures id in Reached(s.sockets, ConnsOf(s.byClient, clientId), event)
           <==> id in Receivers(s, clientId, event) {
      ReachedIsLive(s, clientId, event, id);
    }
  }

  lemma ReachedByAnyIsLive(s: System, event: ServerEvent, id: int)
    requires Inv(s)
    ensures id in ReachedByAny(s.sockets, s.byClient, event)
            <==> ReceivesAny(s, event, id)
  {
    if id in ReachedByAny(s.sockets, s.byClient, event) {
      var c :| ReachedUnder(s.sockets, s.byClient, event, c, id);
      ReachedIsLive(s, c, event, id);
    }
    if NotClosed(s, id) && s.connections[id].accepted.Some? {
      var c := s.connections[id].clientId;
      ReachedIsLive(s, c, event, id);
      assert Registered(s.byClient, c, id);
      assert s.sockets[id].ready.Open? && Capable(s.connections[id].accepted.value, event)
             ==> ReachedUnder(s.sockets, s.byClient, event, c, id);
    }
  }

  lemma PublishKeeps(s: System, e: Event, options: Options)
    requires Inv(s) && (e.Publish? || e.BroadcastAll?)
    ensures Inv(Apply(s, e, options))
  {
    hide Inv;
    if e.Publish? {
      var reached := Reached(s.sockets, ConnsOf(s.byClient, e.clientId), e.event);
      forall id | id in reached
        ensures NotClosed(s, id) && s.sockets[id].ready.Open?
                && s.connections[id].accepted.Some? && Capable(s.connections[id].accepted.value, e.event) {
        ReachedIsLive(s, e.clientId, e.event, id);
      }
      DeliverKeeps(s, reached, Apply(s, e, options).seqNo, e.event);
    } else {
      var reached := ReachedByAny(s.sockets, s.byClient, e.event);
      forall id | id in reached
        ensures NotClosed(s, id) && s.sockets[id].ready.Open?
                && s.connections[id].accepted.Some? && Capable(s.connections[id].accepted.value, e.event) {
        ReachedByAnyIsLive(s, e.event, id);
      }
      DeliverKeeps(s, reached, s.seqNo + 1, e.event);
    }
  }

  lemma TickKeepsBeats(socket: Socket, c: Connection, socket': Socket, c': Connection)
    requires BeatsRight(socket, c) && c.accepted.Some?
    requires if c.alive then socket' == socket && c' == c.(alive := false, beats := c.beats + [Ping])
             else socket' == Shut(socket) && c' == c.(beats := c.beats + [Terminate])
    ensures BeatsRight(socket', c')
  {
    var n := |c.beats|;
    assert forall k | 0 <= k < n :: c'.beats[k] == c.beats[k];
    assert forall k | 0 <= k <= n :: HeardBefore(c'.beats, k) == HeardBefore(c.beats, k);
  }

  lemma PongKeepsBeats(socket: Socket, c: Connection)
    requires BeatsRight(socket, c) && c.accepted.Some?
    ensures BeatsRight(socket, c.(alive := true, beats := c.beats + [Pong]))
  {
    var n, beats := |c.beats|, c.beats + [Pong];
    assert forall k | 0 <= k < n :: beats[k] == c.beats[k];
    assert forall k | 0 <= k <= n :: HeardBefore(beats, k) == HeardBefore(c.beats, k);
  }

  lemma StepKeeps(s: System, e: Event, options: Options)
    requires Inv(s) && Enabled(s, e)
    ensures Inv(Apply(s, e, options))
  {
    match e
    case Publish(_, _) => PublishKeeps(s, e, options);
    case BroadcastAll(_) => PublishKeeps(s, e, options);
    case SocketClosed(id) => CloseKeeps(s, id);
    case Message(id, hello, fails) => {
      assert ConnectionRight(s, id);
      var s' := OnMessage(s, id, hello, fails, options);
      if s'.byClient != s.byClient || s'.connections[id].accepted.Some? {
        if !s.connections[id].settled {
          AcceptKeeps(s, id, hello.value);
        }
      } else {
        OneConnectionKeeps(s, s', id);
      }
    }
    case HeartbeatTick(id) => {
      var s' := OnTick(s, id);
      assert ConnectionRight(s, id);
      TickKeepsBeats(s.sockets[id], s.connections[id], s'.sockets[id], s'.connections[id]);
      OneConnectionKeeps(s, s', id);
    }
    case PongReceived(id) => {
      assert ConnectionRight(s, id);
      if s.connections[id].accepted.Some? {
        var s' := Apply(s, e, options);
        PongKeepsBeats(s.sockets[id], s.connections[id]);
        OneConnectionKeeps(s, s', id);
      }
    }
    case _ => {
      assert ConnectionRight(s, e.socket);
      OneConnectionKeeps(s, Apply(s, e, options), e.socket);
    }
  }

  lemma {:induction false} RunKeeps(s: System, events: seq<Event>, options: Options)
    requires Inv(s) && Runs(s, events, options)
    ensures Inv(Run(s, events, options))
    decreases |events|
  {
    if events != [] {
      StepKeeps(s, events[0], options);
      RunKeeps(Apply(s, events[0], options), events[1..], options);
    }
  }

  // ----- over whole runs -----

  lemma Reachable(events: seq<Event>, options: Options)
    requires Runs(START, events, options)
    ensures Inv(Run(START, events, options))
  {
    RunKeeps(START, events, options);
  }

  /**
   * What can happen after any run: a connection under a new id; on a socket not yet closed
   * anything, save that the handshake times out only while it waits and the heartbeat ticks
   * only once it is accepted.
   */
  lemma EnabledExactly(events: seq<Event>, options: Options, id: int)
    requires Runs(START, events, options)
    ensures var s := Run(START, events, options);
            var open := id in s.sockets && s.sockets[id].ready != Closed;
            && (id in s.sockets <==> id in s.connections)
            && (forall clientId :: Enabled(s, Connect(id, clientId)) <==> id !in s.sockets)
            && (Enabled(s, HelloTimeout(id)) <==> open && !s.connections[id].settled)
            && (forall hello, fails :: Enabled(s, Message(id, hello, fails)) <==> open)
            && (Enabled(s, HeartbeatTick(id)) <==> open && s.connections[id].accepted.Some?)
            && (Enabled(s, PongReceived(id)) <==> open)
            && (Enabled(s, PeerClosing(id)) <==> open)
            && (Enabled(s, SocketClosed(id)) <==> open)
  {
    Reachable(events, options);
    var s := Run(START, events, options);
    assert ConnectionRight(s, id);
    hide Run, SentRight, BeatsRight, RegistryRight;
  }

  /**
   * At most one handshake frame is ever sent, before anything else; an event frame is
   * sent only after an accept, and sequence numbers strictly increase.
   */
  lemma HandshakeFirst(events: seq<Event>, options: Options, id: int)
    requires Runs(START, events, options) && id in Run(START, events, options).sockets
    ensures var sent := Run(START, events, options).sockets[id].sent;
            && (sent != [] ==> !sent[0].EventFrame?)
            && (|sent| > 1 ==> sent[0].Accept?)
            && (forall i | 1 <= i < |sent| :: sent[i].EventFrame?)
            && (forall i, j | 1 <= i < j < |sent| :: sent[i].seqNo < sent[j].seqNo)
  {
    Reachable(events, options);
    var s := Run(START, events, options);
    assert ConnectionRight(s, id);
    assert s.sockets[id].sent != [] ==> s.sockets[id].sent[0] in s.sockets[id].sent;
  }

  /** The handshake is over, the client was not accepted, and yet its socket is open. */
  predicate LeftOpen(s: System, id: int) {
    && id in s.sockets && id in s.connections
    && s.connections[id].settled && s.connections[id].accepted.None? && s.sockets[id].ready.Open?
  }

  /** Only one refusal can leave its socket open: that of a client too old, which stays unregistered and untimed. */
  lemma LeftOpenOnlyTooOld(events: seq<Event>, options: Options, id: int)
    requires Runs(START, events, options) && LeftOpen(Run(START, events, options), id)
    ensures var s := Run(START, events, options);
            && s.sockets[id].sent == [Refuse(ClientTooOld)]
            && !s.connections[id].helloTimer
            && forall clientId :: !Registered(s.byClient, clientId, id)
  {
    Reachable(events, options);
    var s := Run(START, events, options);
    assert ConnectionRight(s, id);
    forall clientId ensures !Registered(s.byClient, clientId, id) {
      assert !Live(s, clientId, id);
    }
  }

  /** A hello leaves the socket open and unaccepted exactly when it is too old and the write of its flag throws. */
  lemma LeftOpenExactly(s: System, id: int, hello: Option<HelloFrame>, fails: bool, options: Options)
    requires NotClosed(s, id) && !s.connections[id].settled && s.connections[id].accepted.None?
    requires s.sockets[id].ready.Open?
    ensures LeftOpen(Apply(s, Message(id, hello, fails), options), id)
            <==> Negotiate(hello, options.serverProtocol, options.compatWindow) == RefuseHello(ClientTooOld) && fails
  {
  }

  lemma SomeKey<K, V>(m: map<K, V>) returns (k: K)
    requires m != map[]
    ensures k in m
  {
    k :| k in m;
  }

  /** A socket is in the hub exactly while accepted and not closed, under its own client only. */
  lemma InHubExactly(events: seq<Event>, options: Options, clientId: int, id: int)
    requires Runs(START, events, options)
    ensures var s := Run(START, events, options);
            && (Registered(s.byClient, clientId, id) <==> Live(s, clientId, id))
            && (clientId in s.byClient <==> exists other :: Live(s, clientId, other))
  {
    Reachable(events, options);
    var s := Run(START, events, options);
    if clientId in s.byClient {
      assert s.byClient[clientId] != map[];
      var other := SomeKey(s.byClient[clientId]);
      assert Registered(s.byClient, clientId, other);
    }
    if other :| Live(s, clientId, other) {
      assert Registered(s.byClient, clientId, other);
    }
  }

  /** A published event reaches exactly the client's accepted, open connections that can honour it. */
  lemma PublishReachesExactly(events: seq<Event>, options: Options, clientId: int, event: ServerEvent, id: int)
    requires Runs(START, events, options) && id in Run(START, events, options).sockets
    ensures var s := Run(START, events, options);
            var s' := Apply(s, Publish(clientId, event), options);
            var gets := Receives(s, clientId, event, id);
            && s'.sockets[id] == (if gets then SendOn(s.sockets[id], EventFrame(s'.seqNo, event)) else s.sockets[id])
            && (gets ==> s'.seqNo == s.seqNo + 1)
  {
    Reachable(events, options);
    var s := Run(START, events, options);
    ReachedIsLive(s, clientId, event, id);
    assert Registered(s.byClient, clientId, id) <==> Live(s, clientId, id);
  }

  /** A broadcast reaches exactly the accepted, open, capable connections of every client, each once. */
  lemma BroadcastReachesExactly(events: seq<Event>, options: Options, event: ServerEvent, id: int)
    requires Runs(START, events, options) && id in Run(START, events, options).sockets
    ensures var s := Run(START, events, options);
            var s' := Apply(s, BroadcastAll(event), options);
            var gets := ReceivesAny(s, event, id);
            s'.sockets[id] == if gets then SendOn(s.sockets[id], EventFrame(s.seqNo + 1, event)) else s.sockets[id]
  {
    Reachable(events, options);
    ReachedByAnyIsLive(Run(START, events, options), event, id);
  }

  /** What a client must have advertised to act on an event. */
  predicate CanActOn(advertised: set<string>, event: ServerEvent) {
    match event
    case ForceClose(_, _) => "per_app_close" in advertised
    case SessionLock(_) => "session_budget" in advertised
    case LockoutCleared(_) => "session_budget" in advertised
    case GrantApplied(_) => true
    case PolicyChanged(_) => true
  }

  /** An accepted, open connection that can act on the event. */
  ghost predicate Listening(s: System, id: int, event: ServerEvent) {
    && id in s.sockets && id in s.connections
    && s.sockets[id].ready == Open
    && s.connections[id].accepted.Some? && CanActOn(s.connections[id].accepted.value, event)
  }

  /**
   * After any run: a published event is written, with the next sequence number, to the
   * client's listening connections, and every other connection is left as it was.
   */
  lemma PublishPlainly(events: seq<Event>, options: Options, clientId: int, event: ServerEvent, id: int)
    requires Runs(START, events, options) && id in Run(START, events, options).sockets
    ensures var s := Run(START, events, options);
            var s' := Apply(s, Publish(clientId, event), options);
            && id in s.connections
            && s'.seqNo == s.seqNo + (if exists other :: Live(s, clientId, other) then 1 else 0)
            && s'.sockets[id].ready == s.sockets[id].ready
            && s'.sockets[id].sent
               == s.sockets[id].sent
                  + if s.connections[id].clientId == clientId && Listening(s, id, event)
                    then [EventFrame(s.seqNo + 1, event)] else []
  {
    PublishReachesExactly(events, options, clientId, event, id);
    InHubExactly(events, options, clientId, id);
    Reachable(events, options);
    assert forall sent: seq<Frame> :: sent + [] == sent;
  }

  /** A broadcast is written to every client's listening connections, once each. */
  lemma BroadcastPlainly(events: seq<Event>, options: Options, event: ServerEvent, id: int)
    requires Runs(START, events, options) && id in Run(START, events, options).sockets
    ensures var s := Run(START, events, options);
            var s' := Apply(s, BroadcastAll(event), options);
            && id in s.connections
            && s'.sockets[id].ready == s.sockets[id].ready
            && s'.sockets[id].sent
               == s.sockets[id].sent + if Listening(s, id, event) then [EventFrame(s.seqNo + 1, event)] else []
  {
    BroadcastReachesExactly(events, options, event, id);
    Reachable(events, options);
    assert forall sent: seq<Frame> :: sent + [] == sent;
  }

  /**
   * What the opening message does to a waiting connection whose socket is open: inside the
   * version window it is accepted with what it advertised, or shut when its bookkeeping
   * fails; otherwise it is refused with the reason, and shut.
   */
  lemma HelloOutcome(s: System, id: int, hello: Option<HelloFrame>, fails: bool, options: Options)
    requires NotClosed(s, id) && !s.connections[id].settled && s.connections[id].accepted.None?
    requires s.sockets[id] == Socket(Open, [])
    ensures var s' := Apply(s, Message(id, hello, fails), options);
            var socket, c := s'.sockets[id], s'.connections[id];
            var oldest := options.serverProtocol - CompatWindow(options.compatWindow);
            && c.settled && !c.helloTimer && c.clientId == s.connections[id].clientId
            && match hello
               case None => socket == Socket(Closing, [Refuse(MalformedHello)]) && c.accepted.None?
               case Some(h) =>
                 if h.eventProtocol > options.serverProtocol then
                   socket == Socket(Closing, [Refuse(ServerTooOld)]) && c.accepted.None?
                 else if h.eventProtocol < oldest then
                   socket == Socket(if fails then Open else Closing, [Refuse(ClientTooOld)]) && c.accepted.None?
                 else if fails then socket == Socket(Closing, []) && c.accepted.None?
                 else socket == Socket(Open, [Accept(h.eventProtocol)]) && c.accepted == Some(h.capabilities)
  {
  }

  /** A connection that says nothing in time is refused and shut. */
  lemma TimeoutOutcome(s: System, id: int, options: Options)
    requires Enabled(s, HelloTimeout(id)) && !s.connections[id].settled && s.sockets[id] == Socket(Open, [])
    ensures var s' := Apply(s, HelloTimeout(id), options);
            && s'.sockets[id] == Socket(Closing, [Refuse(MalformedHello)])
            && s'.connections[id].settled && !s'.connections[id].helloTimer
  {
  }

  /** Since position `j` the heartbeat pinged and heard nothing back up to position `k`. */
  ghost predicate UnansweredSince(beats: seq<Beat>, j: int, k: int) {
    0 <= j < k <= |beats| && beats[j].Ping? && forall m | j < m < k :: beats[m].Terminate?
  }

  lemma {:induction false} LastPing(beats: seq<Beat>, k: nat) returns (j: nat)
    requires k < |beats| && !beats[k].Pong? && !beats[k].Ping?
    requires forall m | 0 <= m < |beats| && !beats[m].Pong? :: beats[m].Ping? <==> HeardBefore(beats, m)
    ensures UnansweredSince(beats, j, k)
  {
    assert !HeardBefore(beats, k);
    if beats[k - 1].Ping? {
      j := k - 1;
    } else {
      j := LastPing(beats, k - 1);
      forall m | j < m < k ensures beats[m].Terminate? {
        if m == k - 1 {
          assert beats[m].Terminate?;
        }
      }
    }
  }

  /**
   * A peer is terminated by a tick only when an earlier tick pinged it and no pong came
   * in between; and a tick that finds a pong, or no ping yet, pings instead.
   */
  lemma TerminatedOnlyUnanswered(events: seq<Event>, options: Options, id: int, k: nat)
    requires Runs(START, events, options) && id in Run(START, events, options).connections
    requires k < |Run(START, events, options).connections[id].beats|
    ensures var beats := Run(START, events, options).connections[id].beats;
            && (beats[k].Terminate? ==> exists j :: UnansweredSince(beats, j, k))
            && (beats[k].Ping? ==> HeardBefore(beats, k))
  {
    Reachable(events, options);
    var s := Run(START, events, options);
    assert ConnectionRight(s, id);
    var beats := s.connections[id].beats;
    if beats[k].Terminate? {
      var j := LastPing(beats, k);
    }
  }

  /**
   * A tick on an accepted connection pings a peer that has answered, or was never asked,
   * since the last tick; a peer that has not is cut off, and told nothing more.
   */
  lemma TickOutcome(events: seq<Event>, options: Options, id: int)
    requires Runs(START, events, options) && Enabled(Run(START, events, options), HeartbeatTick(id))
    ensures var s := Run(START, events, options);
            var s' := Apply(s, HeartbeatTick(id), options);
            var beats := s.connections[id].beats;
            var silent := beats != [] && !beats[|beats| - 1].Pong?;
            && s'.connections[id].beats == beats + [if silent then Terminate else Ping]
            && s'.sockets[id].sent == s.sockets[id].sent
            && s'.sockets[id].ready == if silent && s.sockets[id].ready == Open then Closing else s.sockets[id].ready
  {
    Reachable(events, options);
    assert ConnectionRight(Run(START, events, options), id);
    hide Run, SentRight;
  }

  /** A closed socket is closed for good: no timer is armed on it, and no client is reached through it. */
  lemma CloseOutcome(events: seq<Event>, options: Options, id: int)
    requires Runs(START, events, options) && Enabled(Run(START, events, options), SocketClosed(id))
    ensures var s := Run(START, events, options);
            var s' := Apply(s, SocketClosed(id), options);
            && s'.sockets[id] == Socket(Closed, s.sockets[id].sent)
            && !s'.connections[id].helloTimer
            && forall clientId :: !Registered(s'.byClient, clientId, id)
  {
    Reachable(events, options);
    var s := Run(START, events, options);
    assert NotClosed(s, id);
    StepKeeps(s, SocketClosed(id), options);
    hide Run, Inv;
    var s' := Apply(s, SocketClosed(id), options);
    assert !NotClosed(s', id);
    RegistryOf(s');
  }

  lemma RegistryOf(s: System)
    requires Inv(s)
    ensures forall clientId, id :: Registered(s.byClient, clientId, id) <==> Live(s, clientId, id)
  {
  }

  /** What happens on one connection leaves every other one alone. */
  lemma OthersUntouched(s: System, e: Event, options: Options, other: int)
    requires Enabled(s, e) && !e.Publish? && !e.BroadcastAll? && other != e.socket
    ensures var s' := Apply(s, e, options);
            && (other in s'.sockets <==> other in s.sockets) && (other in s'.connections <==> other in s.connections)
            && (other in s.sockets ==> s'.sockets[other] == s.sockets[other])
            && (other in s.connections ==> s'.connections[other] == s.connections[other])
            && s'.seqNo == s.seqNo
            && forall clientId :: Registered(s'.byClient, clientId, other) <==> Registered(s.byClient, clientId, other)
  {
    forall clientId
      ensures Registered(Apply(s, e, options).byClient, clientId, other) <==> Registered(s.byClient, clientId, other) {
      if e.socket in s.connections {
        var c := s.connections[e.socket];
        UnregisterMeaning(s.byClient, c.clientId, e.socket, clientId, other);
        if e.Message? && e.hello.Some? {
          RegisterMeaning(s.byClient, c.clientId, e.socket, e.hello.value.capabilities, clientId, other);
        }
      }
      hide WithConnection, WithoutConnection;
    }
  }

  // ----- the endpoint, handler by handler -----

  class Endpoint {
    const net: Network
    const hub: EventHub
    const options: Options
    var connections: map<int, Connection>

    ghost function Model(): System
      reads this, net, hub
    {
      System(net.sockets, connections, hub.byClient, hub.seqNo)
    }

    ghost predicate Valid()
      reads this, net, hub
    {
      hub.net == net && Inv(Model())
    }

    constructor (options: Options)
      ensures Valid() && fresh(net) && fresh(hub) && Model() == START && this.options == options
    {
      var network := new Network();
      net := network;
      hub := new EventHub(network);
      this.options := options;
      connections := map[];
    }

    /** An authenticated client opens a socket: arm the hello timer. */
    method OnConnect(id: int, clientId: int)
      requires Valid() && Enabled(Model(), Connect(id, clientId))
      modifies this, net
      ensures Valid() && Model() == Apply(old(Model()), Connect(id, clientId), options)
    {
      StepKeeps(Model(), Connect(id, clientId), options);
      hide Inv;
      net.Add(id);
      connections := connections[id := Connection(clientId, false, true, None, true, [])];
    }

    /** Settle the handshake with a refusal. */
    method Refuse(id: int, reason: RefusalReason, writeThrows: bool)
      requires hub.net == net && NotClosed(Model(), id)
      modifies this, net
      ensures Model() == Refused(old(Model()), id, reason, writeThrows)
    {
      connections := connections[id := connections[id].(settled := true, helloTimer := false)];
      net.Send(id, Frame.Refuse(reason));
      if writeThrows {
        assert net.sockets == old(net.sockets)[id := SendOn(old(net.sockets)[id], Frame.Refuse(reason))];
        return;
      }
      net.Close(id);
      assert net.sockets == old(net.sockets)[id := Shut(SendOn(old(net.sockets)[id], Frame.Refuse(reason)))];
    }

    /** Settle the handshake with an accept: send it, register, start the heartbeat. */
    method Admit(id: int, hello: HelloFrame)
      requires hub.net == net && NotClosed(Model(), id)
      modifies this, net, hub
      ensures hub.net == net && Model() == Accepted(old(Model()), id, hello)
    {
      net.Send(id, Accept(hello.eventProtocol));
      assert net.sockets == old(net.sockets)[id := SendOn(old(net.sockets)[id], Accept(hello.eventProtocol))];
      hub.Register(connections[id].clientId, id, hello.capabilities);
      connections := connections[id := connections[id].(settled := true, helloTimer := false,
                                                        accepted := Some(hello.capabilities), alive := true)];
    }

    method OnHelloTimeout(id: int)
      requires Valid() && Enabled(Model(), HelloTimeout(id))
      modifies this, net
      ensures Valid() && Model() == Apply(old(Model()), HelloTimeout(id), options)
    {
      StepKeeps(Model(), HelloTimeout(id), options);
      hide Inv;
      if connections[id].settled {
        connections := connections[id := connections[id].(helloTimer := false)];
        return;
      }
      Refuse(id, MalformedHello, false);
    }

    method OnMessage(id: int, hello: Option<HelloFrame>, bookkeepingFails: bool)
      requires Valid() && Enabled(Model(), Message(id, hello, bookkeepingFails))
      modifies this, net, hub
      ensures Valid() && Model() == Apply(old(Model()), Message(id, hello, bookkeepingFails), options)
    {
      StepKeeps(Model(), Message(id, hello, bookkeepingFails), options);
      hide Inv, Refused, Accepted;
      if connections[id].settled {
        return;
      }
      var result := Negotiate(hello, options.serverProtocol, options.compatWindow);
      if result.RefuseHello? {
        Refuse(id, result.reason, result.reason.ClientTooOld? && bookkeepingFails);
        return;
      }
      if bookkeepingFails {
        connections := connections[id := connections[id].(settled := true, helloTimer := false)];
        net.Close(id);
        return;
      }
      Admit(id, hello.value);
    }

    method OnPong(id: int)
      requires Valid() && Enabled(Model(), PongReceived(id))
      modifies this
      ensures Valid() && Model() == Apply(old(Model()), PongReceived(id), options)
    {
      StepKeeps(Model(), PongReceived(id), options);
      hide Inv;
      if connections[id].accepted.Some? {
        connections := connections[id := connections[id].(alive := true, beats := connections[id].beats + [Pong])];
      }
    }

    method OnTick(id: int)
      requires Valid() && Enabled(Model(), HeartbeatTick(id))
      modifies this, net
      ensures Valid() && Model() == Apply(old(Model()), HeartbeatTick(id), options)
    {
      StepKeeps(Model(), HeartbeatTick(id), options);
      hide Inv;
      if !connections[id].alive {
        connections := connections[id := connections[id].(beats := connections[id].beats + [Terminate])];
        net.Close(id);
        return;
      }
      connections := connections[id := connections[id].(alive := false, beats := connections[id].beats + [Ping])];
    }

    method OnClose(id: int)
      requires Valid() && Enabled(Model(), SocketClosed(id))
      modifies this, net, hub
      ensures Valid() && Model() == Apply(old(Model()), SocketClosed(id), options)
    {
      StepKeeps(Model(), SocketClosed(id), options);
      hide Inv;
      net.MarkClosed(id);
      connections := connections[id := connections[id].(helloTimer := false)];
      if connections[id].accepted.Some? {
        hub.Unregister(connections[id].clientId, id);
      }
    }

    method OnPublish(clientId: int, event: ServerEvent) returns (delivered: nat)
      requires Valid()
      modifies net, hub
      ensures Valid() && Model() == Apply(old(Model()), Publish(clientId, event), options)
      ensures delivered == |Receivers(old(Model()), clientId, event)|
    {
      StepKeeps(Model(), Publish(clientId, event), options);
      InvGivesHub(Model());
      ReachedSet(Model(), clientId, event);
      hide Inv;
      delivered := hub.PublishToClient(clientId, event);
    }

    method OnBroadcast(event: ServerEvent) returns (delivered: nat)
      requires Valid()
      modifies net, hub
      ensures Valid() && Model() == Apply(old(Model()), BroadcastAll(event), options)
      ensures delivered == |AllReceivers(old(Model()), event)|
    {
      StepKeeps(Model(), BroadcastAll(event), options);
      InvGivesHub(Model());
      ReachedByAnySet(Model(), event);
      hide Inv;
      delivered := hub.Broadcast(event);
    }
  }
}
