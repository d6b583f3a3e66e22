/** What becomes of every request for control: each is answered, whatever happens on its connection. */
module Answers {
  import opened Wrappers
  import opened Session
  import Delivery

  datatype Request = SelectRequest | DeselectRequest | LinktestRequest

  /** `f` asks for `q`, or is an answer to such a frame. */
  predicate Is(f: Frame, q: Request, asks: bool) {
    match q
    case SelectRequest => if asks then f.SelectReq? else f.SelectRsp?
    case DeselectRequest => if asks then f.DeselectReq? else f.DeselectRsp?
    case LinktestRequest => if asks then f.LinktestReq? else f.LinktestRsp?
  }

  function Count(frames: seq<Frame>, q: Request, asks: bool): nat {
    if frames == [] then 0 else (if Is(frames[0], q, asks) then 1 else 0) + Count(frames[1..], q, asks)
  }

  lemma {:induction false} CountConcat(a: seq<Frame>, b: seq<Frame>, q: Request, asks: bool)
    ensures Count(a + b, q, asks) == Count(a, q, asks) + Count(b, q, asks)
  {
    if a == [] {
      assert a + b == b;
    } else {
      assert (a + b)[1..] == a[1..] + b;
      CountConcat(a[1..], b, q, asks);
    }
  }

  lemma CountOne(f: Frame, q: Request, asks: bool)
    ensures Count([f], q, asks) == if Is(f, q, asks) then 1 else 0
  {
  }

  // Keeping account of a run

  function Other(side: Side): Side {
    if side == Active then Passive else Active
  }

  /** Asked for its own session, for any, or by a peer to one that has no session id of its own. */
  predicate Acceptable(e: Endpoint, session: nat) {
    var own := e.sessionId % 0x1_0000;
    session == own || session == 0xFFFF || own == 0 || own == 0xFFFF
  }

  /** The session is over: another was asked for, the peer denies or separates. */
  predicate Ends(e: Endpoint, f: Frame) {
    match f
    case SelectReq(session) => !Acceptable(e, session)
    case SelectRsp(status) => status != 0
    case SeparateReq => true
    case _ => false
  }

  /** A request that is not refused, at a side that is not connected any more. */
  predicate Panics(e: Endpoint, f: Frame) {
    !e.connected && (f.SelectReq? || f.DeselectReq? || f.LinktestReq?) && !Ends(e, f)
  }

  /**
   * On one connection, how often a side has asked, how many answers it has taken up, and how many of its requests
   * were taken up by a peer that panicked over the answer, because its session was not connected any more.
   */
  datatype Account = Account(asked: nat, answered: nat, panicked: nat)

  function Tally(s: System, actions: seq<Action>, side: Side, q: Request): Account {
    if actions == [] then Account(0, 0, 0)
    else
      var front, last := actions[..|actions| - 1], actions[|actions| - 1];
      if Enabled(Run(s, front), last) then Entered(Tally(s, front, side, q), Run(s, front), last, side, q)
      else Tally(s, front, side, q)
  }

  function Entered(account: Account, s: System, action: Action, side: Side, q: Request): Account
    requires Enabled(s, action)
  {
    match action
    case Reconnect(_) => Account(0, 0, 0)
    case AskSelect => if side == Active && q == SelectRequest then account.(asked := account.asked + 1) else account
    case AskDeselect(asking) =>
      if side == asking && q == DeselectRequest then account.(asked := account.asked + 1) else account
    case Linktest(asking) =>
      if side == asking && q == LinktestRequest then account.(asked := account.asked + 1) else account
    case ReceiveFrame(receiver) =>
      var e, f := End(s, receiver), Inbox(s, receiver)[0];
      if receiver == side && Is(f, q, false) then account.(answered := account.answered + 1)
      else if receiver != side && Is(f, q, true) && Panics(e, f) then
        account.(panicked := account.panicked + 1)
      else account
    case _ => account
  }

  /** Every request is still in flight, or its answer is, or was taken up; or it was the peer's last. */
  predicate Balanced(s: System, account: Account, side: Side, q: Request) {
    && account.asked == Count(Inbox(s, Other(side)), q, true) + Count(Inbox(s, side), q, false) + account.answered
      + account.panicked
    && (account.panicked > 0 ==> s.crashed)
  }

  lemma SentBalances(s: System, account: Account, from: Side, f: Frame, side: Side, q: Request)
    requires Balanced(s, account, side, q) && !Is(f, q, false)
    ensures Balanced(Emit(s, from, [f]), if from == side && Is(f, q, true) then account.(asked := account.asked + 1)
              else account, side, q)
  {
    hide Count, Is;
    CountOne(f, q, true);
    CountOne(f, q, false);
    CountConcat(Inbox(s, Other(from)), [f], q, true);
    CountConcat(Inbox(s, Other(from)), [f], q, false);
  }

  // What a frame is answered with

  /** The answer to a request, and to nothing else; it is not given when giving it panics. */
  lemma Sends(e: Endpoint, f: Frame, q: Request)
    requires !f.DataFrame?
    ensures var r := OnControl(e, f);
      && Count(r.sent, q, true) == 0
      && Count(r.sent, q, false) == (if Is(f, q, true) && !Panics(e, f) then 1 else 0)
      && r.crashed == Panics(e, f)
  {
    hide Count;
    Nothing(q);
    CountOne(SelectRsp(ACCEPTED), q, true);
    CountOne(SelectRsp(ACCEPTED), q, false);
    CountOne(SelectRsp(DENIED), q, true);
    CountOne(SelectRsp(DENIED), q, false);
    CountOne(DeselectRsp, q, true);
    CountOne(DeselectRsp, q, false);
    CountOne(LinktestRsp, q, true);
    CountOne(LinktestRsp, q, false);
  }

  lemma Nothing(q: Request)
    ensures Count([], q, true) == Count([], q, false) == 0
  {
  }

  lemma TakenOut(frames: seq<Frame>, q: Request, asks: bool)
    requires frames != []
    ensures Count(frames, q, asks) == (if Is(frames[0], q, asks) then 1 else 0) + Count(frames[1..], q, asks)
  {
  }

  lemma InboxesAfter(s: System, receiver: Side)
    requires Enabled(s, ReceiveFrame(receiver))
    ensures var f, t := Inbox(s, receiver)[0], Received(s, receiver);
      && Inbox(t, receiver) == Inbox(s, receiver)[1..]
      && Inbox(t, Other(receiver)) == Inbox(s, Other(receiver))
        + (if f.DataFrame? then [] else OnControl(End(s, receiver), f).sent)
      && t.crashed == (s.crashed || (!f.DataFrame? && OnControl(End(s, receiver), f).crashed))
  {
    hide OnControl;
    assert Inbox(s, Other(receiver)) + [] == Inbox(s, Other(receiver));
  }

  lemma TurnBalances(s: System, account: Account, receiver: Side, side: Side, q: Request)
    requires Enabled(s, ReceiveFrame(receiver)) && Balanced(s, account, side, q)
    ensures Balanced(Received(s, receiver), Entered(account, s, ReceiveFrame(receiver), side, q), side, q)
  {
    hide Count, OnControl, Panics, Received;
    var e, f, other := End(s, receiver), Inbox(s, receiver)[0], Other(receiver);
    InboxesAfter(s, receiver);
    TakenOut(Inbox(s, receiver), q, true);
    TakenOut(Inbox(s, receiver), q, false);
    Nothing(q);
    var sent := if f.DataFrame? then [] else OnControl(e, f).sent;
    CountConcat(Inbox(s, other), sent, q, true);
    CountConcat(Inbox(s, other), sent, q, false);
    if !f.DataFrame? {
      Sends(e, f, q);
    }
  }

  lemma SameStreams(s: System, t: System, account: Account, side: Side, q: Request)
    requires Balanced(s, account, side, q)
    requires t.toA == s.toA && t.toP == s.toP && t.crashed == s.crashed
    ensures Balanced(t, account, side, q)
  {
  }

  lemma SendingBalances(s: System, account: Account, action: Action, side: Side, q: Request)
    requires Enabled(s, action) && IsSending(action) && Balanced(s, account, side, q)
    ensures Balanced(Apply(s, action), Entered(account, s, action, side, q), side, q)
  {
    hide Count, Balanced;
    var after := Entered(account, s, action, side, q);
    match action
    case AskSelect =>
      SentBalances(s, account, Active, SelectReq(Low16(s.a.sessionId)), side, q);
    case AskDeselect(from) =>
      SentBalances(s, account, from, DeselectReq, side, q);
      SameStreams(Emit(s, from, [DeselectReq]), Apply(s, action), after, side, q);
    case Linktest(from) =>
      SentBalances(s, account, from, LinktestReq, side, q);
    case Separate(from) =>
      SentBalances(s, account, from, SeparateReq, side, q);
      SameStreams(Emit(s, from, [SeparateReq]), Apply(s, action), after, side, q);
    case Respond(from, id) =>
      SentBalances(s, account, from, DataFrame(id), side, q);
      SameStreams(Emit(s, from, [DataFrame(id)]), Apply(s, action), after, side, q);
    case SendData(from, id) =>
      SentBalances(s, account, from, DataFrame(id), side, q);
      SameStreams(Emit(s, from, [DataFrame(id)]), Apply(s, action), after, side, q);
  }

  lemma ApplyBalances(s: System, account: Account, action: Action, side: Side, q: Request)
    requires Enabled(s, action) && Balanced(s, account, side, q)
    ensures Balanced(Apply(s, action), Entered(account, s, action, side, q), side, q)
  {
    hide Count, Balanced, Received;
    if IsSending(action) {
      SendingBalances(s, account, action, side, q);
    } else if action.ReceiveFrame? {
      TurnBalances(s, account, action.side, side, q);
    } else if action.Reconnect? {
      StartsBalanced(Apply(s, action), side, q);
    } else {
      SameStreams(s, Apply(s, action), account, side, q);
    }
  }

  lemma StartsBalanced(s: System, side: Side, q: Request)
    requires s.toA == [] && s.toP == []
    ensures Balanced(s, Account(0, 0, 0), side, q)
  {
  }

  /**
   * In every run, on every connection and for both sides: each request sent is in flight, or its answer is, or the
   * answer was taken up; only where the peer panicked is it none of these.
   */
  lemma {:induction false} AlwaysAnswered(activeSession: int, passiveSession: int, actions: seq<Action>, side: Side,
                                          q: Request)
    ensures var s := Run(Start(activeSession, passiveSession), actions);
      var account := Tally(Start(activeSession, passiveSession), actions, side, q);
      && account.asked == Count(Inbox(s, Other(side)), q, true) + Count(Inbox(s, side), q, false) + account.answered
        + account.panicked
      && (account.panicked > 0 ==> s.crashed)
  {
    RunBalances(Start(activeSession, passiveSession), actions, side, q);
  }

  lemma {:induction false} RunBalances(start: System, actions: seq<Action>, side: Side, q: Request)
    requires start.toA == [] && start.toP == []
    ensures Balanced(Run(start, actions), Tally(start, actions, side, q), side, q)
  {
    hide Balanced, Entered, Enabled, Apply;
    if actions == [] {
      StartsBalanced(start, side, q);
    } else {
      var front, last := actions[..|actions| - 1], actions[|actions| - 1];
      RunBalances(start, front, side, q);
      if Enabled(Run(start, front), last) {
        ApplyBalances(Run(start, front), Tally(start, front, side, q), last, side, q);
      }
    }
  }

  // Which events lead where

  /** SELECTED is reached from NOT-SELECTED alone, and left for it or for NOT-CONNECTED; nothing else moves. */
  lemma EventsLead(s: State, e: Event)
    ensures Fire(s, e) == Some(Selected) <==> s == NotSelected && e == Select
    ensures Fire(s, e) == Some(NotSelected) <==> (s == NotConnected && e == Connect) || (s == Selected && e == Deselect)
    ensures Fire(s, e) == Some(NotConnected) <==>
      (s != NotConnected && e == Disconnect) || (s == NotSelected && e == TimeoutT7)
    ensures After(s, e) == s <==> Fire(s, e) == None
  {
  }

  // What a control frame does to the side that takes it up

  function Reply(e: Endpoint, f: Frame): seq<Frame> {
    match f
    case SelectReq(_) => if Ends(e, f) then [SelectRsp(1)] else if Panics(e, f) then [] else [SelectRsp(0)]
    case DeselectReq => if Panics(e, f) then [] else [DeselectRsp]
    case LinktestReq => if Panics(e, f) then [] else [LinktestRsp]
    case _ => []
  }

  /** Where the frame leaves the side, once a change of state that follows an answer is done. */
  function Outcome(e: Endpoint, f: Frame): Endpoint {
    if Ends(e, f) then e.(connected := false, state := NotConnected)
    else
      match f
      case SelectReq(session) =>
        var own := e.sessionId % 0x1_0000;
        e.(state := if e.state == NotSelected then Selected else e.state,
           sessionId := if session == own || session == 0xFFFF then e.sessionId else session)
      case SelectRsp(_) => e.(state := if e.state == NotSelected then Selected else e.state)
      case DeselectReq => e.(state := if e.state == Selected then NotSelected else e.state)
      case DeselectRsp => e.(state := if e.state == Selected then NotSelected else e.state)
      case _ => e
  }

  /** One turn of the receive loop, with the change of state that follows its answer. */
  function Turned(s: System, side: Side): System
    requires Enabled(s, ReceiveFrame(side))
  {
    var t := Apply(s, ReceiveFrame(side));
    if Enabled(t, Finish(side)) then Apply(t, Finish(side)) else t
  }

  lemma Reacts(e: Endpoint, f: Frame)
    requires !f.DataFrame? && e.loop == Idle
    ensures var r := OnControl(e, f);
      && r.sent == Reply(e, f) && r.crashed == Panics(e, f) && r.broken == Ends(e, f)
      && (!Panics(e, f) ==> Settled(r.e) == Outcome(e, f))
      && (r.sent != [] && !Ends(e, f) ==> r.e.state == e.state)
  {
  }

  /**
   * A select.req is accepted for the side's own session, for any, or when the side has none and adopts it; a request
   * is answered before it moves the state; what ends the session disrupts it. Nothing else moves.
   */
  lemma TurnEffect(s: System, side: Side)
    requires Enabled(s, ReceiveFrame(side)) && !Inbox(s, side)[0].DataFrame?
    ensures var e, f, t, u := End(s, side), Inbox(s, side)[0], Apply(s, ReceiveFrame(side)), Turned(s, side);
      && u == WithInbox(With(Emit(s, side, Reply(e, f)), side, End(u, side)), side, Inbox(s, side)[1..])
                .(clean := s.clean && !Ends(e, f), crashed := s.crashed || Panics(e, f))
      && (!Panics(e, f) ==> End(u, side) == Outcome(e, f))
      && (Reply(e, f) != [] && !Ends(e, f) ==> End(t, side).state == e.state)
  {
    hide OnControl, Reply, Ends, Panics, Outcome;
    Reacts(End(s, side), Inbox(s, side)[0]);
  }

  /** A data message is handed to a handler by a side that is SELECTED, and lost otherwise. */
  lemma DataEffect(s: System, side: Side)
    requires Enabled(s, ReceiveFrame(side)) && Inbox(s, side)[0].DataFrame?
    ensures var e, id, t := End(s, side), Inbox(s, side)[0].id, Apply(s, ReceiveFrame(side));
      && Inbox(t, side) == Inbox(s, side)[1..] && Inbox(t, Other(side)) == Inbox(s, Other(side))
      && End(t, Other(side)) == End(s, Other(side)) && t.clean == s.clean && t.crashed == s.crashed
      && t.sentA == s.sentA && t.sentP == s.sentP
      && if e.state == Selected then
           && End(t, side) == e.(loop := Handling(id)) && t.lost == s.lost
           && t.gotA == s.gotA + (if side == Active then [id] else [])
           && t.gotP == s.gotP + (if side == Passive then [id] else [])
         else End(t, side) == e && t.lost == s.lost + [id] && t.gotA == s.gotA && t.gotP == s.gotP
  {
    assert s.gotA + [] == s.gotA && s.gotP + [] == s.gotP;
  }

  /** A handler sends one response or none, unchecked, and the receive loop goes on. */
  lemma HandlerEffect(s: System, side: Side, id: nat)
    requires End(s, side).loop.Handling?
    ensures var t, u := Apply(s, Respond(side, id)), Apply(s, NoResponse(side));
      && End(t, side) == End(u, side) == End(s, side).(loop := Idle)
      && Inbox(t, Other(side)) == Inbox(s, Other(side)) + [DataFrame(id)]
      && Inbox(u, Other(side)) == Inbox(s, Other(side))
      && Inbox(t, side) == Inbox(u, side) == Inbox(s, side)
  {
  }

  /** A request taken up as the session ends on its receiver: it is not answered, and its receiver panics. */
  lemma UnansweredReached() returns (actions: seq<Action>)
    ensures var s := Run(Start(1, 1), actions);
      s.crashed && Tally(Start(1, 1), actions, Active, LinktestRequest) == Account(1, 0, 1)
  {
    hide Run, Tally;
    var start := Start(1, 1);
    actions := [];
    Delivery.EmptyRun(start);
    NothingEntered(start, Active, LinktestRequest);
    Step(start, actions, Attach(Active)); actions := actions + [Attach(Active)];
    Step(start, actions, Attach(Passive)); actions := actions + [Attach(Passive)];
    Step(start, actions, Establish(Passive)); actions := actions + [Establish(Passive)];
    Step(start, actions, Linktest(Active)); actions := actions + [Linktest(Active)];
    Step(start, actions, ExpireT7(Passive)); actions := actions + [ExpireT7(Passive)];
    Step(start, actions, ReceiveFrame(Passive)); actions := actions + [ReceiveFrame(Passive)];
  }

  lemma NothingEntered(start: System, side: Side, q: Request)
    ensures Tally(start, [], side, q) == Account(0, 0, 0)
  {
  }

  lemma Step(start: System, actions: seq<Action>, action: Action)
    requires Enabled(Run(start, actions), action)
    ensures Run(start, actions + [action]) == Apply(Run(start, actions), action)
    ensures Tally(start, actions + [action], Active, LinktestRequest)
         == Entered(Tally(start, actions, Active, LinktestRequest), Run(start, actions), action, Active,
                    LinktestRequest)
  {
    hide Enabled, Apply, Entered;
    assert (actions + [action])[..|actions|] == actions;
  }
}
