/** The endpoint object: its connection state machine and the handlers of its receive loop. */
module Protocol {
  import opened Session

  class ConnectionStateMachine {
    var current: State

    constructor ()
      ensures current == NotConnected
    {
      current := NotConnected;
    }

    /** An event that does not suit the current state is refused and changes nothing. */
    method Event(e: Event) returns (ok: bool)
      modifies this
      ensures ok == Fire(old(current), e).Some? && current == After(old(current), e)
    {
      ok := Fire(current, e).Some?;
      if ok {
        current := Fire(current, e).value;
      }
    }
  }

  class HsmsProtocol {
    const connectionState: ConnectionStateMachine
    var sessionId: int
    var connected: bool
    /** The transport session is set. */
    var hasSession: bool
    ghost var loop: Loop
    ghost var cleared: nat

    /** The endpoint of the two-party system this object is. */
    ghost function View(): Endpoint
      reads this, connectionState
    {
      Endpoint(sessionId, connected, connectionState.current, loop, cleared)
    }

    constructor (sessionId: int)
      ensures View() == Endpoint(sessionId, false, NotConnected, Off, 0) && !hasSession && fresh(connectionState)
    {
      this.sessionId, connected, hasSession, loop, cleared := sessionId, false, false, Off, 0;
      connectionState := new ConnectionStateMachine();
    }

    method SetSession(present: bool)
      modifies `hasSession
      ensures hasSession == present && View() == old(View())
    {
      hasSession := present;
    }

    /** Both steps of coming up: the flag, then the state; the receive loop starts afterwards. */
    method OnConnectionEstablished()
      requires IsDown(View())
      modifies this, connectionState
      ensures View() == old(View()).(connected := true, state := NotSelected, loop := Idle) &&
        hasSession == old(hasSession)
    {
      connected := true;
      var _ := connectionState.Event(Connect);
      loop := Idle;
    }

    method EnsureReady(requireSelected: bool) returns (ok: bool)
      ensures ok <==> connected && hasSession && (requireSelected ==> Ready(View()))
    {
      ok := connected && hasSession && (!requireSelected || connectionState.current == Selected);
    }

    /** Accepts its own session identifier and the wildcard, and adopts any other as long as it has none itself. */
    method HandleSelectReq(session: nat) returns (sent: seq<Frame>, crashed: bool, closed: bool)
      requires loop == Idle
      modifies this, connectionState
      ensures var r := OnControl(old(View()), SelectReq(session));
        sent == r.sent && crashed == r.crashed && closed == r.broken && View() == Settled(r.e)
      ensures hasSession == old(hasSession)
    {
      var expectedSession := Low16(sessionId);
      crashed, closed := false, false;
      if session != expectedSession {
        var acceptMismatch := false;
        if session == WILDCARD {
          acceptMismatch := true;
        } else if expectedSession == 0 || expectedSession == WILDCARD {
          sessionId := session;
          acceptMismatch := true;
        }
        if !acceptMismatch {
          sent, closed := [SelectRsp(DENIED)], true;
          connected := false;
          var _ := connectionState.Event(Disconnect);
          return;
        }
      }
      if !connected {
        loop := Off;
        return [], true, false;
      }
      sent := [SelectRsp(ACCEPTED)];
      var _ := connectionState.Event(Select);
    }

    /**
     * What a control message makes the endpoint send, whether that panics, whether it closes the connection, and
     * whether the message is a reply to hand to the transaction that waits for it.
     */
    method HandleHsmsRequests(f: Frame) returns (sent: seq<Frame>, crashed: bool, closed: bool, forWaiter: bool)
      requires !f.DataFrame? && loop == Idle
      modifies this, connectionState
      ensures var r := OnControl(old(View()), f);
        sent == r.sent && crashed == r.crashed && closed == r.broken && View() == Settled(r.e)
      ensures hasSession == (old(hasSession) && !f.SeparateReq?)
      ensures forWaiter <==> f.SelectRsp? || f.DeselectRsp? || f.LinktestRsp? || f.RejectReq?
    {
      sent, crashed, closed, forWaiter := [], false, false, false;
      match f
      case SelectReq(session) =>
        sent, crashed, closed := HandleSelectReq(session);
      case SelectRsp(status) =>
        forWaiter := true;
        if status != ACCEPTED {
          connected := false;
          var _ := connectionState.Event(Disconnect);
          closed := true;
          return;
        }
        var _ := connectionState.Event(Select);
      case DeselectReq =>
        if !connected {
          loop := Off;
          return [], true, false, false;
        }
        sent := [DeselectRsp];
        var _ := connectionState.Event(Deselect);
      case DeselectRsp =>
        var _ := connectionState.Event(Deselect);
        forWaiter := true;
      case LinktestReq =>
        if !connected {
          loop := Off;
          return [], true, false, false;
        }
        sent := [LinktestRsp];
      case LinktestRsp =>
        forWaiter := true;
      case RejectReq =>
        forWaiter := true;
      case SeparateReq =>
        connected := false;
        var _ := connectionState.Event(Disconnect);
        closed := true;
        SetSession(false);
    }
  }
}
