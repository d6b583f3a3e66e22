/** HSMS sessions: the connection states, one endpoint's reaction to a frame, and two endpoints over FIFO streams. */
module Session {
  import opened Wrappers

  // The connection states and their event table

  datatype State = NotConnected | NotSelected | Selected

  datatype Event = Connect | Disconnect | Select | Deselect | TimeoutT7

  /** None when the event does not suit the state, which then stays as it is. */
  function Fire(s: State, e: Event): Option<State> {
    match e
    case Connect => if s == NotConnected then Some(NotSelected) else None
    case Disconnect => if s != NotConnected then Some(NotConnected) else None
    case Select => if s == NotSelected then Some(Selected) else None
    case Deselect => if s == Selected then Some(NotSelected) else None
    case TimeoutT7 => if s == NotSelected then Some(NotConnected) else None
  }

  function After(s: State, e: Event): State {
    if Fire(s, e).Some? then Fire(s, e).value else s
  }

  // Frames and endpoints

  const WILDCARD := 0xFFFF
  const ACCEPTED := 0
  const DENIED := 1

  datatype Frame =
    | SelectReq(session: nat) | SelectRsp(status: nat)
    | DeselectReq | DeselectRsp
    | LinktestReq | LinktestRsp
    | RejectReq
    | SeparateReq
    | DataFrame(id: nat)

  /** The receive loop is off, waits for a frame, has answered but not yet changed state, or runs a data handler. */
  datatype Loop = Off | Idle | Pending(event: Event) | Handling(id: nat)

  /** `cleared` counts application threads that passed the check for SELECTED and have not returned yet. */
  datatype Endpoint = Endpoint(sessionId: int, connected: bool, state: State, loop: Loop, cleared: nat)

  function Low16(sessionId: int): nat {
    sessionId % 0x1_0000
  }

  /**
   * How a received frame changes an endpoint; `crashed` when answering it panics, `broken` when it ends the session.
   */
  datatype Reaction = Reaction(e: Endpoint, sent: seq<Frame>, crashed: bool, broken: bool)

  function Unselectable(e: Endpoint): Endpoint {
    e.(connected := false, state := After(e.state, Disconnect))
  }

  /** The answer is sent first; the change of state waits as a pending event of the loop. */
  function Answer(e: Endpoint, response: Frame, event: Option<Event>): Reaction {
    if !e.connected then Reaction(e.(loop := Off), [], true, false)
    else Reaction(if event.Some? then e.(loop := Pending(event.value)) else e, [response], false, false)
  }

  function OnSelectReq(e: Endpoint, session: nat): Reaction {
    var expected := Low16(e.sessionId);
    if session == expected || session == WILDCARD then Answer(e, SelectRsp(ACCEPTED), Some(Select))
    else if expected == 0 || expected == WILDCARD then
      Answer(e.(sessionId := session), SelectRsp(ACCEPTED), Some(Select))
    else Reaction(Unselectable(e), [SelectRsp(DENIED)], false, true)
  }

  function OnControl(e: Endpoint, f: Frame): Reaction
    requires !f.DataFrame?
  {
    match f
    case SelectReq(session) => OnSelectReq(e, session)
    case SelectRsp(status) =>
      if status != ACCEPTED then Reaction(Unselectable(e), [], false, true)
      else Reaction(e.(state := After(e.state, Select)), [], false, false)
    case DeselectReq => Answer(e, DeselectRsp, Some(Deselect))
    case DeselectRsp => Reaction(e.(state := After(e.state, Deselect)), [], false, false)
    case LinktestReq => Answer(e, LinktestRsp, None)
    case LinktestRsp => Reaction(e, [], false, false)
    case RejectReq => Reaction(e, [], false, false)
    case SeparateReq => Reaction(Unselectable(e), [], false, true)
  }

  /** The pending change of state. */
  function Settled(e: Endpoint): Endpoint {
    if e.loop.Pending? then e.(state := After(e.state, e.loop.event), loop := Idle) else e
  }

  predicate Ready(e: Endpoint) {
    e.connected && e.state == Selected
  }

  // Two endpoints

  datatype Side = Active | Passive

  /**
   * `toA` and `toP` are the frames in flight; `sentA`, `gotA` and so on the data messages each side has sent and
   * taken up for processing over this connection, `lost` those a side threw away because it was not SELECTED.
   * `clean` holds until the session is disrupted.
   */
  datatype System = System(
    a: Endpoint, p: Endpoint, toA: seq<Frame>, toP: seq<Frame>,
    sentA: seq<nat>, sentP: seq<nat>, gotA: seq<nat>, gotP: seq<nat>, lost: seq<nat>,
    clean: bool, crashed: bool)

  function End(s: System, side: Side): Endpoint {
    if side == Active then s.a else s.p
  }

  function With(s: System, side: Side, e: Endpoint): System {
    if side == Active then s.(a := e) else s.(p := e)
  }

  function Inbox(s: System, side: Side): seq<Frame> {
    if side == Active then s.toA else s.toP
  }

  function WithInbox(s: System, side: Side, frames: seq<Frame>): System {
    if side == Active then s.(toA := frames) else s.(toP := frames)
  }

  /** Appends frames to the stream towards the other side. */
  function Emit(s: System, side: Side, frames: seq<Frame>): System {
    if side == Active then s.(toP := s.toP + frames) else s.(toA := s.toA + frames)
  }

  function EmitData(s: System, side: Side, id: nat): System {
    var t := Emit(s, side, [DataFrame(id)]);
    if side == Active then t.(sentA := t.sentA + [id]) else t.(sentP := t.sentP + [id])
  }

  function TakeUp(s: System, side: Side, id: nat): System {
    if side == Active then s.(gotA := s.gotA + [id]) else s.(gotP := s.gotP + [id])
  }

  datatype Action =
    | Attach(side: Side)                 // the transport is up
    | Establish(side: Side)              // leave NOT-CONNECTED and start the receive loop
    | AskSelect                          // a select.req of the active side, however late it is sent
    | Linktest(side: Side)
    | ReceiveFrame(side: Side)           // one turn of the receive loop, up to the answer
    | Finish(side: Side)                 // the change of state that follows the answer
    | Respond(side: Side, id: nat)       // the handler's response, sent without a check
    | NoResponse(side: Side)
    | PassCheck(side: Side)              // an application thread finds the session ready
    | SendData(side: Side, id: nat)      // and sends
    | Return(side: Side)
    | AskDeselect(side: Side)            // disruptions from here on
    | Separate(side: Side)
    | ExpireT7(side: Side)
    | LoseConnection(side: Side)
    | Reconnect(peer: Option<int>)       // a new connection, from the same active side or from another one

  function Received(s: System, side: Side): System
    requires End(s, side).loop == Idle && Inbox(s, side) != []
  {
    var e, f := End(s, side), Inbox(s, side)[0];
    var t := WithInbox(s, side, Inbox(s, side)[1..]);
    if f.DataFrame? then
      if e.state == Selected then TakeUp(With(t, side, e.(loop := Handling(f.id))), side, f.id)
      else t.(lost := t.lost + [f.id])
    else
      var r := OnControl(e, f);
      Emit(With(t, side, r.e), side, r.sent).(crashed := t.crashed || r.crashed, clean := t.clean && !r.broken)
  }

  function NewConnection(a: Endpoint, p: Endpoint): System {
    System(a, p, [], [], [], [], [], [], [], a.cleared == 0 && p.cleared == 0, false)
  }

  predicate IsDown(e: Endpoint) {
    e.loop == Off && e.state == NotConnected && !e.connected
  }

  predicate Enabled(s: System, action: Action) {
    match action
    case Attach(side) => IsDown(End(s, side))
    case Establish(side) => End(s, side).loop == Off && End(s, side).connected && End(s, side).state == NotConnected
    case AskSelect => s.a.connected
    case Linktest(side) => End(s, side).connected
    case ReceiveFrame(side) => End(s, side).loop == Idle && Inbox(s, side) != []
    case Finish(side) => End(s, side).loop.Pending?
    case Respond(side, _) => End(s, side).loop.Handling?
    case NoResponse(side) => End(s, side).loop.Handling?
    case PassCheck(side) => Ready(End(s, side))
    case SendData(side, _) => End(s, side).cleared > 0 && End(s, side).connected
    case Return(side) => End(s, side).cleared > 0
    case AskDeselect(side) => End(s, side).connected
    case Separate(side) => End(s, side).connected
    case ExpireT7(side) => End(s, side).state == NotSelected
    case LoseConnection(side) => End(s, side).loop == Idle
    case Reconnect(peer) => IsDown(s.p) && (peer.None? ==> IsDown(s.a))
  }

  function Apply(s: System, action: Action): System
    requires Enabled(s, action)
  {
    match action
    case Attach(side) => With(s, side, End(s, side).(connected := true))
    case Establish(side) => With(s, side, End(s, side).(state := After(End(s, side).state, Connect), loop := Idle))
    case AskSelect => Emit(s, Active, [SelectReq(Low16(s.a.sessionId))])
    case Linktest(side) => Emit(s, side, [LinktestReq])
    case ReceiveFrame(side) => Received(s, side)
    case Finish(side) => With(s, side, Settled(End(s, side)))
    case Respond(side, id) => With(EmitData(s, side, id), side, End(s, side).(loop := Idle))
    case NoResponse(side) => With(s, side, End(s, side).(loop := Idle))
    case PassCheck(side) => With(s, side, End(s, side).(cleared := End(s, side).cleared + 1))
    case SendData(side, id) => EmitData(s, side, id)
    case Return(side) => With(s, side, End(s, side).(cleared := End(s, side).cleared - 1))
    case AskDeselect(side) => Emit(s, side, [DeselectReq]).(clean := false)
    case Separate(side) => Emit(s, side, [SeparateReq]).(clean := false)
    case ExpireT7(side) =>
      With(s, side, End(s, side).(connected := false, state := After(End(s, side).state, TimeoutT7))).(clean := false)
    case LoseConnection(side) => With(s, side, Unselectable(End(s, side)).(loop := Off)).(clean := false)
    case Reconnect(peer) =>
      NewConnection(if peer.None? then s.a else Endpoint(peer.value, false, NotConnected, Off, 0), s.p)
  }

  /** Actions that are not enabled are skipped. */
  function Run(s: System, actions: seq<Action>): System {
    if actions == [] then s
    else
      var t := Run(s, actions[..|actions| - 1]);
      var last := actions[|actions| - 1];
      if Enabled(t, last) then Apply(t, last) else t
  }

  function Start(activeSession: int, passiveSession: int): System {
    NewConnection(Endpoint(activeSession, false, NotConnected, Off, 0),
      Endpoint(passiveSession, false, NotConnected, Off, 0))
  }

  // Session identifiers agree whenever both sides are selected

  /** The passive side has accepted a select.req on this connection. */
  predicate HasAccepted(p: Endpoint) {
    p.state == Selected || p.loop == Pending(Select)
  }

  predicate Agree(a: Endpoint, p: Endpoint) {
    Low16(a.sessionId) == Low16(p.sessionId) || Low16(a.sessionId) == WILDCARD
  }

  /** Only the active side asks, and with its own session identifier. */
  predicate FromActive(f: Frame, session: nat) {
    match f
    case SelectReq(asked) => asked == session
    case SelectRsp(_) => false
    case _ => true
  }

  predicate AllFromActive(frames: seq<Frame>, session: nat) {
    forall i | 0 <= i < |frames| :: FromActive(frames[i], session)
  }

  predicate NoneAsks(frames: seq<Frame>) {
    forall i | 0 <= i < |frames| :: !frames[i].SelectReq?
  }

  predicate SessionInv(s: System) {
    && AllFromActive(s.toP, Low16(s.a.sessionId)) && NoneAsks(s.toA)
    && s.a.loop != Pending(Select)
    && (HasAccepted(s.p) ==> Agree(s.a, s.p))
  }

  lemma ActiveKeepsSession(s: System)
    requires SessionInv(s) && Enabled(s, ReceiveFrame(Active))
    ensures SessionInv(Received(s, Active))
  {
    hide Low16, AllFromActive;
    var f := s.toA[0];
    assert !f.SelectReq?;
    assert NoneAsks(s.toA[1..]);
    if !f.DataFrame? {
      ActiveSends(s.a, f, s.toP);
    }
  }

  /** What the active side answers is never an answer to a select.req. */
  lemma ActiveSends(a: Endpoint, f: Frame, toP: seq<Frame>)
    requires !f.DataFrame? && !f.SelectReq? && AllFromActive(toP, Low16(a.sessionId))
    ensures AllFromActive(toP + OnControl(a, f).sent, Low16(a.sessionId)) && OnControl(a, f).e.sessionId == a.sessionId
  {
  }

  lemma PassiveKeepsSession(s: System)
    requires SessionInv(s) && Enabled(s, ReceiveFrame(Passive))
    ensures SessionInv(Received(s, Passive))
  {
    hide NoneAsks;
    var f := s.toP[0];
    assert FromActive(f, Low16(s.a.sessionId));
    assert AllFromActive(s.toP[1..], Low16(s.a.sessionId));
    if !f.DataFrame? {
      PassiveSends(s.p, f, s.toA);
    }
  }

  lemma PassiveSends(p: Endpoint, f: Frame, toA: seq<Frame>)
    requires !f.DataFrame? && NoneAsks(toA)
    ensures NoneAsks(toA + OnControl(p, f).sent)
  {
  }

  lemma SentKeepsSession(s: System, side: Side, f: Frame)
    requires SessionInv(s) && !f.SelectRsp? && (f.SelectReq? ==> side == Active && f.session == Low16(s.a.sessionId))
    ensures SessionInv(Emit(s, side, [f]))
  {
  }

  predicate IsSending(action: Action) {
    || action.AskSelect? || action.Linktest? || action.Respond? || action.SendData? || action.AskDeselect?
    || action.Separate?
  }

  lemma SendingKeepsSession(s: System, action: Action)
    requires SessionInv(s) && Enabled(s, action) && IsSending(action)
    ensures SessionInv(Apply(s, action))
  {
    hide AllFromActive, NoneAsks, Low16;
    match action
    case AskSelect => SentKeepsSession(s, Active, SelectReq(Low16(s.a.sessionId)));
    case Linktest(side) => SentKeepsSession(s, side, LinktestReq);
    case Respond(side, id) => SentKeepsSession(s, side, DataFrame(id));
    case SendData(side, id) => SentKeepsSession(s, side, DataFrame(id));
    case AskDeselect(side) => SentKeepsSession(s, side, DeselectReq);
    case Separate(side) => SentKeepsSession(s, side, SeparateReq);
  }

  lemma QuietKeepsSession(s: System, action: Action)
    requires SessionInv(s) && Enabled(s, action) && !IsSending(action) && !action.ReceiveFrame?
    ensures SessionInv(Apply(s, action))
  {
    hide AllFromActive, NoneAsks, Low16;
    if action.Reconnect? {
      NothingInFlight(Low16(Apply(s, action).a.sessionId));
    }
  }

  lemma ApplyKeepsSession(s: System, action: Action)
    requires SessionInv(s) && Enabled(s, action)
    ensures SessionInv(Apply(s, action))
  {
    if action == ReceiveFrame(Active) {
      ActiveKeepsSession(s);
    } else if action == ReceiveFrame(Passive) {
      PassiveKeepsSession(s);
    } else if IsSending(action) {
      SendingKeepsSession(s, action);
    } else {
      QuietKeepsSession(s, action);
    }
  }

  lemma NothingInFlight(session: nat)
    ensures AllFromActive([], session) && NoneAsks([])
  {
  }

  lemma {:induction false} RunKeepsSession(s: System, actions: seq<Action>)
    requires SessionInv(s)
    ensures SessionInv(Run(s, actions))
  {
    hide SessionInv, Apply, Enabled;
    if actions != [] {
      var t := Run(s, actions[..|actions| - 1]);
      RunKeepsSession(s, actions[..|actions| - 1]);
      if Enabled(t, actions[|actions| - 1]) {
        ApplyKeepsSession(t, actions[|actions| - 1]);
      }
    }
  }

  /** In every run, across denial, adoption, loss and reconnection. */
  lemma SelectedSessionsAgree(activeSession: int, passiveSession: int, actions: seq<Action>)
    ensures var s := Run(Start(activeSession, passiveSession), actions);
      s.a.state == Selected && s.p.state == Selected ==>
        Low16(s.a.sessionId) == Low16(s.p.sessionId) || Low16(s.a.sessionId) == WILDCARD
  {
    hide Run, AllFromActive, NoneAsks;
    NothingInFlight(Low16(activeSession));
    RunKeepsSession(Start(activeSession, passiveSession), actions);
  }
}
