/** The queues of waiting transactions and the map they are registered in. */
module Queues {
  import opened Wrappers
  import opened Transactions

  function Reversed<T>(s: seq<T>): (r: seq<T>)
    ensures |r| == |s|
    ensures forall i | 0 <= i < |s| :: r[i] == s[|s| - 1 - i]
  {
    if s == [] then [] else Reversed(s[1..]) + [s[0]]
  }

  /** New items go to the front of the list, the oldest is at its back. */
  class Deque<T> {
    var container: seq<T>
    ghost const owner: nat

    /** The items, oldest first. */
    ghost function Contents(): seq<T>
      reads this
    {
      Reversed(container)
    }

    constructor (ghost owner: nat)
      ensures Contents() == [] && this.owner == owner
    {
      container := [];
      this.owner := owner;
    }

    method Put(item: T)
      modifies this
      ensures Contents() == old(Contents()) + [item]
    {
      container := [item] + container;
    }

    /** What a waiter gets: the oldest item, or None when the time is up and there is none. */
    method Get() returns (r: Option<T>)
      modifies this
      ensures old(Contents()) == [] ==> r == None && Contents() == []
      ensures old(Contents()) != [] ==> r == Some(old(Contents())[0]) && Contents() == old(Contents())[1..]
    {
      if |container| == 0 {
        return None;
      }
      r := Some(container[|container| - 1]);
      container := container[..|container| - 1];
    }
  }

  class TransactionTable {
    var systemCounter: nat
    var systemQueues: map<nat, Deque<Message>>

    /** The counter and the registered queues are those of `t`. */
    ghost predicate Represents(t: Table)
      reads this, systemQueues.Values
    {
      && systemCounter == IdOf(t.first, t.issued)
      && systemQueues.Keys == t.queues.Keys
      && forall id | id in systemQueues ::
        && systemQueues[id].owner == t.queues[id] < |t.txns|
        && systemQueues[id].Contents() == t.txns[t.queues[id]].queue
    }

    constructor (seed: nat)
      ensures Represents(Start(seed))
    {
      systemCounter := seed % IDS;
      systemQueues := map[];
    }

    /** The next id; the counter is 32 bits wide, so that its check against a larger limit never holds. */
    method GetNextSystemCounter(ghost t: Table) returns (id: nat)
      requires Represents(t)
      modifies `systemCounter
      ensures Represents(Apply(t, Allocate)) && Represents(Apply(t, Begin)) && id == IdOf(t.first, t.issued + 1)
    {
      Wraps(t.first + t.issued);
      systemCounter := (systemCounter + 1) % IDS;
      id := systemCounter;
    }

    method CreateQueue(systemId: nat, ghost t: Table, ghost k: nat) returns (queue: Deque<Message>)
      requires Represents(t) && Inv(t) && Enabled(t, Register(k)) && systemId == Id(t, k)
      modifies `systemQueues
      ensures fresh(queue) && queue.owner == k && queue.Contents() == []
      ensures systemQueues == old(systemQueues)[systemId := queue]
      ensures Represents(Apply(t, Register(k)))
    {
      hide Queued, LogBound, Numbered, IdOf;
      queue := new Deque<Message>(k);
      systemQueues := systemQueues[systemId := queue];
    }

    method RemoveQueue(systemId: nat, ghost t: Table, ghost k: nat)
      requires Represents(t) && Enabled(t, End(k)) && systemId == Id(t, k)
      modifies `systemQueues
      ensures systemQueues == old(systemQueues) - {systemId}
      ensures Represents(Apply(t, End(k)))
    {
      hide IdOf;
      systemQueues := systemQueues - {systemId};
    }

    /** A received message goes to the queue registered under its system bytes; true when it is left to the handlers. */
    method Dispatch(m: Message, ghost t: Table) returns (unmatched: bool)
      requires Represents(t) && Inv(t)
      modifies systemQueues.Values
      ensures Enabled(t, Deliver(m)) && Represents(Apply(t, Deliver(m)))
      ensures unmatched <==> m.system !in t.queues
      ensures systemQueues == old(systemQueues)
    {
      hide Queued, LogBound, Numbered, IdOf, Unused;
      unmatched := m.system !in systemQueues;
      if !unmatched {
        var queue := systemQueues[m.system];
        assert forall id | id in systemQueues && id != m.system :: systemQueues[id] != queue;
        queue.Put(m);
      }
    }
  }

  lemma Wraps(n: nat)
    ensures (n % IDS + 1) % IDS == (n + 1) % IDS
  {
  }
}
