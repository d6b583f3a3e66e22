/** Matching replies to requests by system bytes: a wrapping counter and a map of queues. */
module Transactions {
  import opened Wrappers

  const IDS: nat := 0x1_0000_0000

  datatype Message = Message(system: nat, payload: nat)

  /** A transaction has an id, then a queue in the map, then none; its waiter keeps its own queue throughout. */
  datatype Phase = Begun | Open | Closed

  /** `number` counts system ids since the start; `delivered` and `returned` are the queue's history. */
  datatype Txn = Txn(number: nat, phase: Phase, queue: seq<Message>, delivered: seq<Message>, returned: seq<Message>)

  datatype Delivery = Delivery(message: Message, to: Option<nat>)

  /** `queues` maps a system id to the transaction whose queue is registered under it. */
  datatype Table = Table(first: nat, issued: nat, queues: map<nat, nat>, txns: seq<Txn>, log: seq<Delivery>)

  /** The id allocation `number` hands out, counting up from a random start and wrapping at 32 bits. */
  function IdOf(first: nat, number: nat): (id: nat)
    ensures id < IDS
  {
    (first + number) % IDS
  }

  function Id(t: Table, k: nat): nat
    requires k < |t.txns|
  {
    IdOf(t.first, t.txns[k].number)
  }

  predicate Live(txn: Txn) {
    txn.phase != Closed
  }

  datatype Action =
    | Allocate               // a message that waits for no reply
    | Begin                  // a transaction takes its id
    | Register(k: nat)       // and registers its queue
    | Deliver(m: Message)    // the receive loop looks the queue up, or hands the message to a handler
    | Take(k: nat)           // the waiter gets the oldest message
    | End(k: nat)            // the entry under its id is deleted

  predicate Enabled(t: Table, action: Action) {
    match action
    case Allocate => true
    case Begin => true
    case Register(k) => k < |t.txns| && t.txns[k].phase == Begun
    case Deliver(m) => m.system in t.queues ==> t.queues[m.system] < |t.txns|
    case Take(k) => k < |t.txns| && t.txns[k].phase == Open && t.txns[k].queue != []
    case End(k) => k < |t.txns| && t.txns[k].phase == Open
  }

  function Apply(t: Table, action: Action): Table
    requires Enabled(t, action)
  {
    match action
    case Allocate => t.(issued := t.issued + 1)
    case Begin => t.(issued := t.issued + 1, txns := t.txns + [Txn(t.issued + 1, Begun, [], [], [])])
    case Register(k) => t.(queues := t.queues[Id(t, k) := k], txns := t.txns[k := t.txns[k].(phase := Open)])
    case Deliver(m) =>
      if m.system in t.queues then
        var k := t.queues[m.system];
        var txn := t.txns[k];
        t.(txns := t.txns[k := txn.(queue := txn.queue + [m], delivered := txn.delivered + [m])],
           log := t.log + [Delivery(m, Some(k))])
      else t.(log := t.log + [Delivery(m, None)])
    case Take(k) =>
      var txn := t.txns[k];
      t.(txns := t.txns[k := txn.(queue := txn.queue[1..], returned := txn.returned + [txn.queue[0]])])
    case End(k) => t.(queues := t.queues - {Id(t, k)}, txns := t.txns[k := t.txns[k].(phase := Closed)])
  }

  function Start(first: nat): Table {
    Table(first, 0, map[], [], [])
  }

  function Run(t: Table, actions: seq<Action>): Table {
    if actions == [] then t
    else
      var u := Run(t, actions[..|actions| - 1]);
      var last := actions[|actions| - 1];
      if Enabled(u, last) then Apply(u, last) else u
  }

  /** Fewer than 2^32 ids have been handed out since any live transaction took its own. */
  predicate Spaced(t: Table) {
    forall k | 0 <= k < |t.txns| && Live(t.txns[k]) :: t.issued - t.txns[k].number < IDS
  }

  /** The spacing holds throughout a run. */
  predicate SpacedRun(t: Table, actions: seq<Action>) {
    forall i | 0 <= i <= |actions| :: Spaced(Run(t, actions[..i]))
  }

  // What holds in every run

  predicate Numbered(t: Table) {
    && (forall k | 0 <= k < |t.txns| :: t.txns[k].number <= t.issued)
    && (forall j, k | 0 <= j < k < |t.txns| :: t.txns[j].number < t.txns[k].number)
  }

  /** An entry leads to a transaction with that id. */
  predicate Entries(t: Table) {
    forall id | id in t.queues ::
      t.queues[id] < |t.txns| && Id(t, t.queues[id]) == id && t.txns[t.queues[id]].phase != Begun
  }

  predicate Unused(t: Table) {
    forall k | 0 <= k < |t.txns| && t.txns[k].phase == Begun :: t.txns[k].queue == []
  }

  /** The messages handed to transaction `k`, in order. */
  function Handed(log: seq<Delivery>, k: nat): seq<Message> {
    if log == [] then []
    else Handed(log[..|log| - 1], k) + if log[|log| - 1].to == Some(k) then [log[|log| - 1].message] else []
  }

  /** Queues hand out in order what was put, nothing is lost or doubled, and all of it carries the transaction's id. */
  predicate Queued(t: Table) {
    forall k | 0 <= k < |t.txns| ::
      && t.txns[k].delivered == t.txns[k].returned + t.txns[k].queue
      && t.txns[k].delivered == Handed(t.log, k)
      && forall i | 0 <= i < |t.txns[k].delivered| :: t.txns[k].delivered[i].system == Id(t, k)
  }

  predicate LogBound(t: Table) {
    forall i | 0 <= i < |t.log| :: t.log[i].to.Some? ==> t.log[i].to.value < |t.txns|
  }

  predicate Inv(t: Table) {
    Numbered(t) && Entries(t) && Unused(t) && Queued(t) && LogBound(t)
  }

  /** One entry for each open transaction, and none besides. */
  predicate OneToOne(t: Table) {
    && (forall id | id in t.queues ::
      t.queues[id] < |t.txns| && t.txns[t.queues[id]].phase == Open && Id(t, t.queues[id]) == id)
    && (forall k | 0 <= k < |t.txns| && t.txns[k].phase == Open :: Id(t, k) in t.queues && t.queues[Id(t, k)] == k)
  }

  lemma {:induction false} NoneHanded(log: seq<Delivery>, k: nat)
    requires forall i | 0 <= i < |log| :: log[i].to.Some? ==> log[i].to.value < k
    ensures Handed(log, k) == []
  {
    if log != [] {
      NoneHanded(log[..|log| - 1], k);
    }
  }

  lemma HandedSnoc(log: seq<Delivery>, d: Delivery, k: nat)
    ensures Handed(log + [d], k) == Handed(log, k) + if d.to == Some(k) then [d.message] else []
  {
    assert (log + [d])[..|log|] == log;
  }

  lemma BeginKeeps(t: Table)
    requires Inv(t)
    ensures Inv(Apply(t, Begin))
  {
    NoneHanded(t.log, |t.txns|);
  }

  lemma RegisterKeeps(t: Table, k: nat)
    requires Inv(t) && Enabled(t, Register(k))
    ensures Inv(Apply(t, Register(k)))
  {
    hide Handed;
  }

  lemma DeliverKeeps(t: Table, m: Message)
    requires Inv(t) && Enabled(t, Deliver(m))
    ensures Inv(Apply(t, Deliver(m)))
  {
    hide Handed;
    var d := Delivery(m, if m.system in t.queues then Some(t.queues[m.system]) else None);
    forall k | 0 <= k < |t.txns| ensures Handed(t.log + [d], k) == Handed(t.log, k) + if d.to == Some(k) then [m]
      else [] {
      HandedSnoc(t.log, d, k);
    }
  }

  lemma TakeKeeps(t: Table, k: nat)
    requires Inv(t) && Enabled(t, Take(k))
    ensures Inv(Apply(t, Take(k)))
  {
    hide Handed;
    var txn := t.txns[k];
    assert txn.returned + txn.queue == (txn.returned + [txn.queue[0]]) + txn.queue[1..];
  }

  lemma EndKeeps(t: Table, k: nat)
    requires Inv(t) && Enabled(t, End(k))
    ensures Inv(Apply(t, End(k)))
  {
    hide Handed;
  }

  lemma ApplyKeeps(t: Table, action: Action)
    requires Inv(t) && Enabled(t, action)
    ensures Inv(Apply(t, action))
  {
    hide Inv, Handed;
    match action
    case Allocate => AllocateKeeps(t);
    case Begin => BeginKeeps(t);
    case Register(k) => RegisterKeeps(t, k);
    case Deliver(m) => DeliverKeeps(t, m);
    case Take(k) => TakeKeeps(t, k);
    case End(k) => EndKeeps(t, k);
  }

  lemma AllocateKeeps(t: Table)
    requires Inv(t)
    ensures Inv(Apply(t, Allocate))
  {
    hide Handed;
  }

  lemma {:induction false} RunKeeps(first: nat, actions: seq<Action>)
    ensures Inv(Run(Start(first), actions))
  {
    hide Inv, Apply, Enabled;
    if actions == [] {
      StartInv(first);
    } else {
      var u := Run(Start(first), actions[..|actions| - 1]);
      RunKeeps(first, actions[..|actions| - 1]);
      if Enabled(u, actions[|actions| - 1]) {
        ApplyKeeps(u, actions[|actions| - 1]);
      }
    }
  }

  lemma StartInv(first: nat)
    ensures Inv(Start(first)) && OneToOne(Start(first))
  {
  }

  /**
   * In every run, wrapped around or not: a waiter gets the messages put into its queue in order, once each, those the
   * log hands to this transaction and no other, and each of them carries the system bytes of its request.
   */
  lemma WaitersGetTheirOwn(first: nat, actions: seq<Action>, k: nat)
    requires k < |Run(Start(first), actions).txns|
    ensures var t := Run(Start(first), actions);
      && t.txns[k].returned + t.txns[k].queue == Handed(t.log, k)
      && forall i | 0 <= i < |t.txns[k].returned| :: t.txns[k].returned[i].system == Id(t, k)
  {
    hide Run, Handed;
    RunKeeps(first, actions);
    var txn := Run(Start(first), actions).txns[k];
    assert forall i | 0 <= i < |txn.returned| :: txn.returned[i] == txn.delivered[i];
  }

  /** The messages that arrive, in order. */
  function Arrivals(actions: seq<Action>): seq<Message> {
    if actions == [] then []
    else
      var last := actions[|actions| - 1];
      Arrivals(actions[..|actions| - 1]) + if last.Deliver? then [last.m] else []
  }

  function Logged(log: seq<Delivery>): seq<Message> {
    seq(|log|, i requires 0 <= i < |log| => log[i].message)
  }

  /** Every message that arrives is accounted for once and in order, given to a transaction or to the handlers. */
  lemma {:induction false} ArrivalsLogged(first: nat, actions: seq<Action>)
    ensures Logged(Run(Start(first), actions).log) == Arrivals(actions)
  {
    hide Inv, Apply, Enabled, Logged;
    if actions == [] {
      NothingLogged();
    } else {
      var front, last := actions[..|actions| - 1], actions[|actions| - 1];
      ArrivalsLogged(first, front);
      RunKeeps(first, front);
      StepLogged(Run(Start(first), front), last);
      assert Arrivals(front) + [] == Arrivals(front);
    }
  }

  lemma NothingLogged()
    ensures Logged([]) == []
  {
  }

  /** What a step adds to the log, and to whom a message goes. */
  lemma StepLogged(t: Table, action: Action)
    requires Inv(t)
    ensures action.Deliver? ==> Enabled(t, action)
    ensures Enabled(t, action) ==>
      var u := Apply(t, action);
      && Logged(u.log) == Logged(t.log) + (if action.Deliver? then [action.m] else [])
      && (action.Deliver? ==>
            u.log[|u.log| - 1].to == if action.m.system in t.queues then Some(t.queues[action.m.system]) else None)
  {
    hide Handed, IdOf;
    assert Logged(t.log) + [] == Logged(t.log);
  }

  // Wrap-around

  /** Two allocations share an id exactly when a whole number of turns lies between them. */
  lemma SameIdIff(first: nat, a: nat, b: nat)
    requires a <= b
    ensures IdOf(first, a) == IdOf(first, b) <==> (b - a) % IDS == 0
  {
    var x, y := first + a, first + b;
    assert y - x == b - a;
    assert x == x / IDS * IDS + x % IDS && y == y / IDS * IDS + y % IDS;
    if x % IDS == y % IDS {
      assert y - x == (y / IDS - x / IDS) * IDS;
    }
  }

  lemma LiveIdsDistinct(t: Table, j: nat, k: nat)
    requires Numbered(t) && Spaced(t) && j < k < |t.txns| && Live(t.txns[j])
    ensures Id(t, j) != Id(t, k)
  {
    hide IdOf;
    SameIdIff(t.first, t.txns[j].number, t.txns[k].number);
  }

  /** No open transaction has the id under which `k` is about to register. */
  predicate IdFree(t: Table, k: nat)
    requires k < |t.txns|
  {
    forall j | 0 <= j < |t.txns| && t.txns[j].phase == Open :: Id(t, j) != Id(t, k)
  }

  lemma RegisterOneToOneIff(t: Table, k: nat)
    requires OneToOne(t) && Enabled(t, Register(k))
    ensures OneToOne(Apply(t, Register(k))) <==> IdFree(t, k)
  {
    hide IdOf;
    var u := Apply(t, Register(k));
    forall j | 0 <= j < |t.txns| ensures Id(u, j) == Id(t, j) {
    }
    if OneToOne(u) {
      forall j | 0 <= j < |t.txns| && t.txns[j].phase == Open ensures Id(t, j) != Id(t, k) {
        assert u.txns[j].phase == Open && u.txns[k].phase == Open && j != k;
      }
    }
  }

  lemma OtherOneToOne(t: Table, action: Action)
    requires OneToOne(t) && Enabled(t, action) && !action.Register?
    ensures OneToOne(Apply(t, action))
  {
    hide IdOf;
  }

  /** No transaction is ever registered under the id of one that is still open. */
  predicate NeverShared(first: nat, actions: seq<Action>) {
    forall i | 0 <= i < |actions| && actions[i].Register? ::
      RegistersFree(Run(Start(first), actions[..i]), actions[i].k)
  }

  predicate RegistersFree(t: Table, k: nat) {
    Enabled(t, Register(k)) ==> IdFree(t, k)
  }

  predicate AlwaysOneToOne(first: nat, actions: seq<Action>) {
    forall i | 0 <= i <= |actions| :: OneToOne(Run(Start(first), actions[..i]))
  }

  lemma StepOneToOneIff(t: Table, action: Action)
    requires OneToOne(t)
    ensures OneToOne(if Enabled(t, action) then Apply(t, action) else t) <==>
      (action.Register? ==> RegistersFree(t, action.k))
  {
    hide IdFree, OneToOne;
    if Enabled(t, action) {
      if action.Register? {
        RegisterOneToOneIff(t, action.k);
      } else {
        OtherOneToOne(t, action);
      }
    }
  }

  /**
   * The map holds one entry for each open transaction and none besides, all through a run, exactly when no
   * transaction is registered under the id of one that is still open.
   */
  lemma {:induction false} OneToOneIff(first: nat, actions: seq<Action>)
    ensures AlwaysOneToOne(first, actions) <==> NeverShared(first, actions)
  {
    hide OneToOne, Apply, Enabled, RegistersFree;
    assert actions[..|actions|] == actions;
    if actions == [] {
      NoneOpen(first);
      return;
    }
    var before, last := actions[..|actions| - 1], actions[|actions| - 1];
    assert forall i | 0 <= i <= |before| :: before[..i] == actions[..i];
    OneToOneIff(first, before);
    if AlwaysOneToOne(first, actions) {
      assert forall i | 0 <= i <= |before| :: OneToOne(Run(Start(first), actions[..i]));
    }
    if NeverShared(first, actions) {
      assert forall i | 0 <= i < |before| && before[i].Register? :: before[i] == actions[i];
    }
    if AlwaysOneToOne(first, before) {
      assert before[..|before|] == before;
      StepOneToOneIff(Run(Start(first), before), last);
    }
  }

  lemma NoneOpen(first: nat)
    ensures AlwaysOneToOne(first, []) && NeverShared(first, [])
  {
    StartInv(first);
  }

  /** Where the bound holds, no id is shared. */
  lemma SpacedFree(t: Table, k: nat)
    requires Inv(t) && Spaced(t) && Enabled(t, Register(k))
    ensures IdFree(t, k)
  {
    hide IdOf, Queued, LogBound;
    forall j | 0 <= j < |t.txns| && t.txns[j].phase == Open ensures Id(t, j) != Id(t, k) {
      if j < k {
        LiveIdsDistinct(t, j, k);
      } else {
        LiveIdsDistinct(t, k, j);
      }
    }
  }

  lemma ApplyOneToOne(t: Table, action: Action)
    requires Inv(t) && Spaced(t) && OneToOne(t) && Enabled(t, action)
    ensures OneToOne(Apply(t, action))
  {
    if action.Register? {
      SpacedFree(t, action.k);
      RegisterOneToOneIff(t, action.k);
    } else {
      OtherOneToOne(t, action);
    }
  }

  /**
   * In every run in which fewer than 2^32 ids are handed out while a transaction lives: the ids of live transactions
   * differ, and the map holds one entry for each open transaction and none besides.
   */
  lemma {:induction false} SpacedRunOneToOne(first: nat, actions: seq<Action>)
    requires SpacedRun(Start(first), actions)
    ensures var t := Run(Start(first), actions);
      && OneToOne(t)
      && forall j, k | 0 <= j < k < |t.txns| && Live(t.txns[j]) && Live(t.txns[k]) :: Id(t, j) != Id(t, k)
  {
    hide Inv, OneToOne, Apply, Enabled, Spaced, IdOf;
    var t := Run(Start(first), actions);
    assert actions[..|actions|] == actions;
    if actions == [] {
      StartInv(first);
    } else {
      var before := actions[..|actions| - 1];
      assert forall i | 0 <= i <= |before| :: before[..i] == actions[..i];
      SpacedRunOneToOne(first, before);
      RunKeeps(first, before);
      if Enabled(Run(Start(first), before), actions[|actions| - 1]) {
        ApplyOneToOne(Run(Start(first), before), actions[|actions| - 1]);
      }
    }
    RunKeeps(first, actions);
    AllLiveDistinct(t);
  }

  lemma AllLiveDistinct(t: Table)
    requires Inv(t) && Spaced(t)
    ensures forall j, k | 0 <= j < k < |t.txns| && Live(t.txns[j]) && Live(t.txns[k]) :: Id(t, j) != Id(t, k)
  {
    hide IdOf, Spaced, Numbered, Entries, Queued, LogBound;
    forall j, k | 0 <= j < k < |t.txns| && Live(t.txns[j]) && Live(t.txns[k]) ensures Id(t, j) != Id(t, k) {
      LiveIdsDistinct(t, j, k);
    }
  }

  /** After such a run, a reply goes to the queue of the open transaction that asked, and to nothing else. */
  lemma ReplyReachesItsWaiter(first: nat, actions: seq<Action>, m: Message, k: nat)
    requires NeverShared(first, actions)
    requires var t := Run(Start(first), actions); k < |t.txns| && t.txns[k].phase == Open && m.system == Id(t, k)
    ensures var t, u := Run(Start(first), actions), Run(Start(first), actions + [Deliver(m)]);
      && |u.txns| == |t.txns| && u.txns[k].queue == t.txns[k].queue + [m]
      && (forall j | 0 <= j < |t.txns| && j != k :: u.txns[j] == t.txns[j])
      && u.log == t.log + [Delivery(m, Some(k))]
  {
    hide IdOf;
    OneToOneIff(first, actions);
    assert actions[..|actions|] == actions;
    assert OneToOne(Run(Start(first), actions[..|actions|]));
    assert (actions + [Deliver(m)])[..|actions|] == actions;
  }

  /**
   * One turn of the counter later the bound cannot be dropped: registering the later transaction takes the entry of the
   * earlier one over, so that replies to the earlier go to the later, and ending the earlier leaves the later without
   * one.
   */
  lemma WrapTakesOver(t: Table, j: nat, k: nat, m: Message)
    requires Inv(t) && j < k < |t.txns| && t.txns[j].phase == Open && t.txns[k].phase == Begun
    requires t.txns[k].number == t.txns[j].number + IDS && m.system == Id(t, j)
    ensures var u := Apply(t, Register(k));
      && Enabled(u, Deliver(m)) && Apply(u, Deliver(m)).log == t.log + [Delivery(m, Some(k))]
      && Enabled(u, End(j)) && Id(u, k) !in Apply(u, End(j)).queues
  {
    hide IdOf, Queued;
    SameIdIff(t.first, t.txns[j].number, t.txns[k].number);
  }

  function Allocations(n: nat): seq<Action> {
    if n == 0 then [] else Allocations(n - 1) + [Allocate]
  }

  lemma {:induction false} RunConcat(t: Table, a: seq<Action>, b: seq<Action>)
    ensures Run(t, a + b) == Run(Run(t, a), b)
  {
    hide Enabled, Apply;
    if b == [] {
      assert a + b == a;
    } else {
      RunConcat(t, a, b[..|b| - 1]);
      assert (a + b)[..|a + b| - 1] == a + b[..|b| - 1];
    }
  }

  lemma {:induction false} ManyAllocations(t: Table, n: nat)
    ensures Run(t, Allocations(n)) == t.(issued := t.issued + n)
  {
    if n > 0 {
      ManyAllocations(t, n - 1);
      assert Allocations(n)[..n - 1] == Allocations(n - 1) by {
        AllocationsLength(n - 1);
      }
      AllocationsLength(n - 1);
    }
  }

  lemma {:induction false} AllocationsLength(n: nat)
    ensures |Allocations(n)| == n
  {
    if n > 0 {
      AllocationsLength(n - 1);
    }
  }

  /** Such a state is reached by waiting long enough. */
  lemma WrapIsReached(first: nat) returns (actions: seq<Action>)
    ensures var t := Run(Start(first), actions);
      |t.txns| == 2 && t.txns[0].phase == Open && t.txns[1].phase == Begun && t.txns[1].number == t.txns[0].number + IDS
  {
    hide Run, Allocations;
    var start := Start(first);
    var one := OpenFirst(start);
    actions := one + Allocations(IDS - 1);
    RunConcat(start, one, Allocations(IDS - 1));
    ManyAllocations(Run(start, one), IDS - 1);
    RunOne(Run(start, actions), Begin);
    RunConcat(start, actions, [Begin]);
    actions := actions + [Begin];
  }

  lemma RunOne(t: Table, action: Action)
    requires Enabled(t, action)
    ensures Run(t, [action]) == Apply(t, action)
  {
    assert [action][..0] == [];
  }

  lemma OpenFirst(start: Table) returns (actions: seq<Action>)
    requires start.txns == [] && start.issued == 0
    ensures var t := Run(start, actions);
      |t.txns| == 1 && t.txns[0].phase == Open && t.txns[0].number == 1 && t.issued == 1
  {
    hide Run, IdOf;
    RunOne(start, Begin);
    RunOne(Apply(start, Begin), Register(0));
    RunConcat(start, [Begin], [Register(0)]);
    actions := [Begin] + [Register(0)];
  }
}
