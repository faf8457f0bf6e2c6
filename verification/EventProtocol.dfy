// The event-stream handshake's version window and the capability gate of each event.

module EventProtocol {
  import opened Common

  // ----- version negotiation -----

  datatype HelloFrame = HelloFrame(eventProtocol: int, capabilities: set<string>)

  datatype RefusalReason = ClientTooOld | ServerTooOld | MalformedHello

  datatype Negotiation = AcceptHello(eventProtocol: int) | RefuseHello(reason: RefusalReason)

  /** Math.trunc. */
  function Truncate(x: real): int {
    if x < 0.0 then -((-x).Floor) else x.Floor
  }

  /** How many versions below the server's are accepted; never less than one. */
  function CompatWindow(configured: real): int {
    Max(1, Truncate(configured))
  }

  function Negotiate(hello: Option<HelloFrame>, serverProtocol: int, compatWindow: real): Negotiation {
    if hello.None? then RefuseHello(MalformedHello)
    else
      var oldestAccepted := serverProtocol - CompatWindow(compatWindow);
      var client := hello.value.eventProtocol;
      if client > serverProtocol then RefuseHello(ServerTooOld)
      else if client >= oldestAccepted then AcceptHello(client)
      else RefuseHello(ClientTooOld)
  }

  /** A hello is accepted, in its own dialect, exactly inside the window; outside, the reason names the side behind. */
  lemma NegotiateWindow(hello: Option<HelloFrame>, serverProtocol: int, compatWindow: real)
    ensures var verdict := Negotiate(hello, serverProtocol, compatWindow);
            && (verdict == RefuseHello(MalformedHello) <==> hello.None?)
            && (hello.Some? ==>
                  var behind := serverProtocol - hello.value.eventProtocol;
                  && (verdict == RefuseHello(ServerTooOld) <==> behind < 0)
                  && (verdict == RefuseHello(ClientTooOld) <==> behind > 1 && behind as real > compatWindow)
                  && (verdict.AcceptHello? ==> verdict.eventProtocol == hello.value.eventProtocol))
  {
  }

  /** Upgrading the server by one version, whatever the window, keeps every client that spoke its dialect. */
  lemma ServerUpgradesFirst(hello: HelloFrame, serverProtocol: int, compatWindow: real)
    requires hello.eventProtocol == serverProtocol
    ensures Negotiate(Some(hello), serverProtocol, compatWindow) == AcceptHello(serverProtocol)
    ensures Negotiate(Some(hello), serverProtocol + 1, compatWindow) == AcceptHello(serverProtocol)
  {
  }

  // ----- the capability gate -----

  datatype ServerEvent =
    | GrantApplied(userId: int)
    | PolicyChanged(userId: int)
    | ForceClose(userId: int, activityId: int)
    | SessionLock(userId: int)
    | LockoutCleared(userId: int)

  const PER_APP_CLOSE := "per_app_close"
  const SESSION_BUDGET := "session_budget"

  /** The capability a client must have advertised to be sent the event; none for a baseline event. */
  function CapabilityForEvent(event: ServerEvent): Option<string> {
    match event
    case ForceClose(_, _) => Some(PER_APP_CLOSE)
    case SessionLock(_) | LockoutCleared(_) => Some(SESSION_BUDGET)
    case GrantApplied(_) | PolicyChanged(_) => None
  }

  predicate Capable(caps: set<string>, event: ServerEvent) {
    var required := CapabilityForEvent(event);
    required.None? || required.value in caps
  }
}
