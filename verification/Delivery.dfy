/** As long as a session is not disrupted, every data message arrives, in order, at a side that is SELECTED. */
module Delivery {
  import opened Wrappers
  import opened Session

  // Frames in flight

  /** The data messages among the frames, in order. */
  function Datas(frames: seq<Frame>): seq<nat> {
    if frames == [] then []
    else (if frames[0].DataFrame? then [frames[0].id] else []) + Datas(frames[1..])
  }

  predicate HasAcceptance(frames: seq<Frame>) {
    frames != [] && (frames[0] == SelectRsp(ACCEPTED) || HasAcceptance(frames[1..]))
  }

  /** No data message before the accepting select.rsp. */
  predicate AcceptanceFirst(frames: seq<Frame>) {
    frames == [] || frames[0] == SelectRsp(ACCEPTED) || (!frames[0].DataFrame? && AcceptanceFirst(frames[1..]))
  }

  predicate IsCalm(f: Frame) {
    match f
    case SelectRsp(status) => status == ACCEPTED
    case DeselectReq => false
    case DeselectRsp => false
    case SeparateReq => false
    case _ => true
  }

  predicate Calm(frames: seq<Frame>) {
    forall i | 0 <= i < |frames| :: IsCalm(frames[i])
  }

  lemma {:induction false} DatasSnoc(frames: seq<Frame>, f: Frame)
    ensures Datas(frames + [f]) == Datas(frames) + if f.DataFrame? then [f.id] else []
  {
    if frames == [] {
      assert (frames + [f])[1..] == [];
    } else {
      DatasSnoc(frames[1..], f);
      assert (frames + [f])[1..] == frames[1..] + [f];
    }
  }

  lemma {:induction false} AcceptanceSnoc(frames: seq<Frame>, f: Frame)
    ensures HasAcceptance(frames + [f]) <==> HasAcceptance(frames) || f == SelectRsp(ACCEPTED)
    ensures AcceptanceFirst(frames) && (HasAcceptance(frames) || !f.DataFrame?) ==> AcceptanceFirst(frames + [f])
  {
    if frames == [] {
      assert (frames + [f])[1..] == [];
    } else {
      AcceptanceSnoc(frames[1..], f);
      assert (frames + [f])[1..] == frames[1..] + [f];
    }
  }

  lemma {:induction false} NoDataBefore(frames: seq<Frame>)
    requires Datas(frames) == []
    ensures AcceptanceFirst(frames)
  {
    if frames != [] {
      NoDataBefore(frames[1..]);
    }
  }

  // The invariant of an undisrupted session

  /** A side that sends data, or may still do so. */
  predicate Sends(e: Endpoint, outbox: seq<Frame>) {
    e.cleared > 0 || e.loop.Handling? || Datas(outbox) != []
  }

  predicate Attached(e: Endpoint) {
    && (e.state != NotConnected ==> e.connected)
    && (e.loop != Off ==> e.state != NotConnected)
  }

  predicate Delivered(s: System) {
    && s.sentA == s.gotP + Datas(s.toP)
    && s.sentP == s.gotA + Datas(s.toA)
    && s.lost == [] && !s.crashed
  }

  predicate Selection(s: System) {
    && (s.a.state == Selected ==> HasAccepted(s.p))
    && (HasAcceptance(s.toA) ==> HasAccepted(s.p))
    && (HasAccepted(s.p) && s.a.state != Selected ==> HasAcceptance(s.toA) && AcceptanceFirst(s.toA))
    && (Sends(s.a, s.toP) ==> s.a.state == Selected)
    && (Sends(s.p, s.toA) ==> s.p.state == Selected)
  }

  predicate Undisrupted(s: System) {
    && Delivered(s) && Selection(s)
    && Calm(s.toA) && Calm(s.toP)
    && Attached(s.a) && Attached(s.p)
    && !s.a.loop.Pending? && (s.p.loop.Pending? ==> s.p.loop == Pending(Select))
  }

  predicate Inv(s: System) {
    SessionInv(s) && (s.clean ==> Undisrupted(s))
  }

  // Each action keeps it

  lemma ControlKeeps(s: System, side: Side, f: Frame)
    requires Undisrupted(s) && (f.LinktestReq? || f.LinktestRsp? || (f.SelectReq? && side == Active))
    ensures Undisrupted(Emit(s, side, [f]))
  {
    hide Datas, HasAcceptance, AcceptanceFirst, IsCalm;
    QuietFrames(f);
    var frames := if side == Active then s.toP else s.toA;
    DatasSnoc(frames, f);
    AcceptanceSnoc(frames, f);
  }

  lemma QuietFrames(f: Frame)
    requires f.LinktestReq? || f.LinktestRsp? || f.SelectReq? || f.DataFrame?
    ensures IsCalm(f)
  {
  }

  lemma DataKeeps(s: System, side: Side, id: nat)
    requires Undisrupted(s) && Sends(End(s, side), if side == Active then s.toP else s.toA)
    ensures Undisrupted(EmitData(s, side, id))
  {
    hide Datas, HasAcceptance, AcceptanceFirst, IsCalm;
    QuietFrames(DataFrame(id));
    var frames := if side == Active then s.toP else s.toA;
    DatasSnoc(frames, DataFrame(id));
    AcceptanceSnoc(frames, DataFrame(id));
  }

  predicate IsLocal(action: Action) {
    action.Attach? || action.Establish? || action.NoResponse? || action.PassCheck? || action.Return? || action.Finish?
  }

  lemma LocalKeeps(s: System, action: Action)
    requires Undisrupted(s) && IsLocal(action) && Enabled(s, action)
    ensures Undisrupted(Apply(s, action))
  {
    hide Datas, HasAcceptance, AcceptanceFirst, Calm;
  }

  /** What taking the first frame off a stream does to it. */
  lemma FirstFrame(frames: seq<Frame>)
    requires frames != []
    ensures Datas(frames) == (if frames[0].DataFrame? then [frames[0].id] else []) + Datas(frames[1..])
    ensures HasAcceptance(frames) <==> frames[0] == SelectRsp(ACCEPTED) || HasAcceptance(frames[1..])
    ensures AcceptanceFirst(frames) <==>
      frames[0] == SelectRsp(ACCEPTED) || (!frames[0].DataFrame? && AcceptanceFirst(frames[1..]))
    ensures Calm(frames) ==> IsCalm(frames[0]) && Calm(frames[1..])
  {
    hide IsCalm;
  }

  lemma NothingSent(frames: seq<Frame>)
    ensures frames + [] == frames
  {
  }

  lemma CalmSnoc(frames: seq<Frame>, f: Frame)
    requires Calm(frames) && IsCalm(f)
    ensures Calm(frames + [f])
  {
    hide IsCalm;
  }

  lemma ActiveTurnKeeps(s: System)
    requires Undisrupted(s) && SessionInv(s) && Enabled(s, ReceiveFrame(Active)) && Received(s, Active).clean
    ensures Undisrupted(Received(s, Active))
  {
    hide Datas, HasAcceptance, AcceptanceFirst, Calm, AllFromActive;
    var f := s.toA[0];
    assert !f.SelectReq?;
    FirstFrame(s.toA);
    NothingSent(s.toP);
    if f.DataFrame? {
      ActiveDataKeeps(s);
    } else if f.LinktestReq? {
      CalmSnoc(s.toP, LinktestRsp);
      DatasSnoc(s.toP, LinktestRsp);
    }
  }

  lemma ActiveDataKeeps(s: System)
    requires Undisrupted(s) && Enabled(s, ReceiveFrame(Active)) && s.toA[0].DataFrame?
    ensures Undisrupted(Received(s, Active))
  {
    hide Datas, HasAcceptance, AcceptanceFirst, Calm;
    FirstFrame(s.toA);
  }

  lemma PassiveTurnKeeps(s: System)
    requires Undisrupted(s) && SessionInv(s) && Enabled(s, ReceiveFrame(Passive)) && Received(s, Passive).clean
    ensures Undisrupted(Received(s, Passive))
  {
    hide Datas, AcceptanceFirst, HasAcceptance, Calm, Undisrupted, OnControl;
    var f := s.toP[0];
    assert FromActive(f, Low16(s.a.sessionId));
    match f
    case DataFrame(_) =>
      PassiveDataKeeps(s);
    case SelectReq(_) =>
      PassiveSelectKeeps(s);
    case _ =>
      PassiveControlKeeps(s);
  }

  lemma PassiveDataKeeps(s: System)
    requires Undisrupted(s) && Enabled(s, ReceiveFrame(Passive)) && s.toP[0].DataFrame?
    ensures Undisrupted(Received(s, Passive))
  {
    hide Datas, HasAcceptance, AcceptanceFirst, Calm;
    FirstFrame(s.toP);
  }

  lemma PassiveSelectKeeps(s: System)
    requires Undisrupted(s) && Enabled(s, ReceiveFrame(Passive)) && s.toP[0].SelectReq? && Received(s, Passive).clean
    ensures Undisrupted(Received(s, Passive))
  {
    hide Datas, HasAcceptance, AcceptanceFirst, Calm;
    FirstFrame(s.toP);
    CalmSnoc(s.toA, SelectRsp(ACCEPTED));
    DatasSnoc(s.toA, SelectRsp(ACCEPTED));
    AcceptanceSnoc(s.toA, SelectRsp(ACCEPTED));
    if Datas(s.toA) == [] {
      NoDataBefore(s.toA);
    }
  }

  lemma PassiveControlKeeps(s: System)
    requires Undisrupted(s) && Enabled(s, ReceiveFrame(Passive)) && Received(s, Passive).clean
    requires !s.toP[0].SelectReq? && !s.toP[0].SelectRsp? && !s.toP[0].DataFrame?
    ensures Undisrupted(Received(s, Passive))
  {
    hide Datas, HasAcceptance, AcceptanceFirst, Calm;
    FirstFrame(s.toP);
    NothingSent(s.toA);
    if s.toP[0].LinktestReq? {
      CalmSnoc(s.toA, LinktestRsp);
      DatasSnoc(s.toA, LinktestRsp);
      AcceptanceSnoc(s.toA, LinktestRsp);
    }
  }

  lemma RespondKeeps(s: System, side: Side, id: nat)
    requires Undisrupted(s) && Enabled(s, Respond(side, id))
    ensures Undisrupted(Apply(s, Respond(side, id)))
  {
    hide Datas, HasAcceptance, AcceptanceFirst, Calm;
    DataKeeps(s, side, id);
  }

  lemma ReconnectStarts(s: System, peer: Option<int>)
    requires Enabled(s, Reconnect(peer)) && Apply(s, Reconnect(peer)).clean
    ensures Undisrupted(Apply(s, Reconnect(peer)))
  {
  }

  lemma ApplyKeeps(s: System, action: Action)
    requires Inv(s) && Enabled(s, action)
    ensures Inv(Apply(s, action))
  {
    hide Undisrupted, SessionInv;
    ApplyKeepsSession(s, action);
    if Apply(s, action).clean {
      ApplyKeepsClean(s, action);
    }
  }

  lemma ApplyKeepsClean(s: System, action: Action)
    requires Inv(s) && Enabled(s, action) && Apply(s, action).clean
    ensures Undisrupted(Apply(s, action))
  {
    hide Undisrupted, SessionInv, OnControl;
    match action
    case Reconnect(peer) =>
      ReconnectStarts(s, peer);
    case ReceiveFrame(side) =>
      if side == Active {
        ActiveTurnKeeps(s);
      } else {
        PassiveTurnKeeps(s);
      }
    case AskSelect =>
      AskSelectKeeps(s);
    case Linktest(side) =>
      ControlKeeps(s, side, LinktestReq);
    case Respond(side, id) =>
      RespondKeeps(s, side, id);
    case SendData(side, id) =>
      DataKeeps(s, side, id);
    case _ =>
      LocalKeeps(s, action);
  }

  lemma AskSelectKeeps(s: System)
    requires Undisrupted(s) && Enabled(s, AskSelect)
    ensures Undisrupted(Apply(s, AskSelect))
  {
    hide Datas, HasAcceptance, AcceptanceFirst, Calm;
    ControlKeeps(s, Active, SelectReq(Low16(s.a.sessionId)));
  }

  lemma {:induction false} RunKeeps(s: System, actions: seq<Action>)
    requires Inv(s)
    ensures Inv(Run(s, actions))
  {
    hide Inv, Apply, Enabled;
    if actions != [] {
      var t := Run(s, actions[..|actions| - 1]);
      RunKeeps(s, actions[..|actions| - 1]);
      if Enabled(t, actions[|actions| - 1]) {
        ApplyKeeps(t, actions[|actions| - 1]);
      }
    }
  }

  /**
   * In every run, while the session is not disrupted: nothing sent is lost, each side has taken up exactly what the
   * other has sent, in order, but for what is still in flight, and a data message next in line finds its receiver
   * SELECTED.
   */
  lemma NothingLost(activeSession: int, passiveSession: int, actions: seq<Action>)
    ensures var s := Run(Start(activeSession, passiveSession), actions);
      s.clean ==>
        && s.lost == [] && !s.crashed
        && s.sentA == s.gotP + Datas(s.toP) && s.sentP == s.gotA + Datas(s.toA)
        && (s.toP != [] && s.toP[0].DataFrame? && s.p.loop == Idle ==> s.p.state == Selected)
        && (s.toA != [] && s.toA[0].DataFrame? && s.a.loop == Idle ==> s.a.state == Selected)
  {
    hide Run, Datas, HasAcceptance, Calm, SessionInv;
    var s := Run(Start(activeSession, passiveSession), actions);
    StartInv(activeSession, passiveSession);
    RunKeeps(Start(activeSession, passiveSession), actions);
    if s.clean {
      NextInLine(s);
    }
  }

  lemma StartInv(activeSession: int, passiveSession: int)
    ensures Inv(Start(activeSession, passiveSession))
  {
  }

  lemma NextInLine(s: System)
    requires Undisrupted(s)
    ensures s.toP != [] && s.toP[0].DataFrame? && s.p.loop == Idle ==> s.p.state == Selected
    ensures s.toA != [] && s.toA[0].DataFrame? && s.a.loop == Idle ==> s.a.state == Selected
  {
    hide HasAcceptance, Calm;
    if s.toP != [] {
      FirstFrame(s.toP);
    }
    if s.toA != [] {
      FirstFrame(s.toA);
    }
  }

  // A thread that passed the check on one connection and sends on the next

  lemma Extended(start: System, actions: seq<Action>, action: Action)
    requires Enabled(Run(start, actions), action)
    ensures Run(start, actions + [action]) == Apply(Run(start, actions), action)
  {
    hide Enabled, Apply;
    assert (actions + [action])[..|actions + [action]| - 1] == actions;
  }

  lemma Selects(start: System) returns (actions: seq<Action>)
    requires start == Start(1, 1)
    ensures var s := Run(start, actions);
      && s.a == Endpoint(1, true, Selected, Idle, 0) && s.p == Endpoint(1, true, Selected, Idle, 0)
      && s.lost == []
  {
    hide Run;
    actions := [];
    assert Run(start, actions) == start by {
      EmptyRun(start);
    }
    Extended(start, actions, Attach(Active)); actions := actions + [Attach(Active)];
    Extended(start, actions, Attach(Passive)); actions := actions + [Attach(Passive)];
    Extended(start, actions, Establish(Active)); actions := actions + [Establish(Active)];
    Extended(start, actions, Establish(Passive)); actions := actions + [Establish(Passive)];
    Extended(start, actions, AskSelect); actions := actions + [AskSelect];
    Extended(start, actions, ReceiveFrame(Passive)); actions := actions + [ReceiveFrame(Passive)];
    Extended(start, actions, Finish(Passive)); actions := actions + [Finish(Passive)];
    Extended(start, actions, ReceiveFrame(Active)); actions := actions + [ReceiveFrame(Active)];
  }

  lemma EmptyRun(start: System)
    ensures Run(start, []) == start
  {
  }

  /** A thread passes the check, both sides lose the connection and connect again. */
  lemma CarriesOver(start: System, selected: seq<Action>) returns (actions: seq<Action>)
    requires var s := Run(start, selected);
      s.a == Endpoint(1, true, Selected, Idle, 0) && s.p == Endpoint(1, true, Selected, Idle, 0)
    ensures Enabled(Run(start, actions), Reconnect(None))
    ensures Run(start, actions + [Reconnect(None)])
         == NewConnection(Endpoint(1, false, NotConnected, Off, 1), Endpoint(1, false, NotConnected, Off, 0))
  {
    hide Run;
    actions := selected;
    Extended(start, actions, PassCheck(Active)); actions := actions + [PassCheck(Active)];
    Extended(start, actions, LoseConnection(Active)); actions := actions + [LoseConnection(Active)];
    Extended(start, actions, LoseConnection(Passive)); actions := actions + [LoseConnection(Passive)];
    Extended(start, actions, Reconnect(None));
  }

  /** From `side`, by a thread that passed the check on an earlier connection: nothing in it disrupts the new one. */
  function LateSend(side: Side, id: nat): seq<Action> {
    var other := if side == Active then Passive else Active;
    [Attach(side), Attach(other), Establish(other), SendData(side, id), ReceiveFrame(other)]
  }

  /** The thread's message arrives at a side that has not been selected yet, and is lost. */
  lemma LateSendLost(start: System, before: seq<Action>, a: Endpoint, p: Endpoint, clean: bool, side: Side, id: nat)
    requires IsDown(a) && IsDown(p) && (if side == Active then a else p).cleared > 0
    requires Run(start, before) == NewConnection(a, p).(clean := clean)
    ensures var s := Run(start, before + LateSend(side, id)); s.lost == [id] && s.clean == clean
  {
    hide Run;
    var other := if side == Active then Passive else Active;
    var actions := before;
    Extended(start, actions, Attach(side)); actions := actions + [Attach(side)];
    Extended(start, actions, Attach(other)); actions := actions + [Attach(other)];
    Extended(start, actions, Establish(other)); actions := actions + [Establish(other)];
    Extended(start, actions, SendData(side, id)); actions := actions + [SendData(side, id)];
    Extended(start, actions, ReceiveFrame(other)); actions := actions + [ReceiveFrame(other)];
    assert actions == before + LateSend(side, id);
  }

  /** That happens in a run from the start. */
  lemma CarriedOver() returns (actions: seq<Action>)
    ensures Run(Start(1, 1), actions + [Reconnect(None)] + LateSend(Active, 7)).lost == [7]
  {
    hide Run, Apply, Enabled;
    actions := Selects(Start(1, 1));
    actions := CarriesOver(Start(1, 1), actions);
    var a, p := Endpoint(1, false, NotConnected, Off, 1), Endpoint(1, false, NotConnected, Off, 0);
    LateSendLost(Start(1, 1), actions + [Reconnect(None)], a, p, NewConnection(a, p).clean, Active, 7);
  }

  /** A new connection that counts as undisrupted, whatever threads are carried over to it. */
  function Fresh(a: Endpoint, p: Endpoint): System {
    NewConnection(a, p).(clean := true)
  }

  /**
   * A new connection loses no message in any run before its first disruption exactly when no thread is carried over
   * to it.
   */
  lemma LosesNothingIff(a: Endpoint, p: Endpoint)
    requires IsDown(a) && IsDown(p)
    ensures (forall actions :: Run(Fresh(a, p), actions).clean ==> Run(Fresh(a, p), actions).lost == [])
        <==> a.cleared == 0 && p.cleared == 0
  {
    hide Run, LateSend;
    if a.cleared == 0 && p.cleared == 0 {
      assert Fresh(a, p) == Start(a.sessionId, p.sessionId);
      forall actions {
        NothingLost(a.sessionId, p.sessionId, actions);
      }
    } else {
      var side := if a.cleared > 0 then Active else Passive;
      EmptyRun(Fresh(a, p));
      LateSendLost(Fresh(a, p), [], a, p, true, side, 7);
      assert Run(Fresh(a, p), [] + LateSend(side, 7)).lost == [7];
    }
  }
}
