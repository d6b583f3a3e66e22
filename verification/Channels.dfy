/** Channels: sessions under keys, each with a callback that takes it out when it is closed. */
module Channels {
  import opened CloseCallbacks

  /** The callback of a channel removes its key. */
  const REMOVE_KEY := 0

  class Channel {
    var sessions: map<Key, Session>
    /** Every session that was ever put. */
    ghost var members: set<Session>

    /** The list elements of all members. */
    ghost function Nodes(): set<CloseCallback>
      reads this, members
    {
      set s, i | s in members && 0 <= i < |s.nodes| :: s.nodes[i]
    }

    ghost predicate Holds(s: Session, k: Key)
      reads this
    {
      k in sessions && sessions[k] == s
    }

    /** Exactly one callback for every key that maps to the session, none for other keys. */
    ghost predicate Registered(s: Session)
      reads this, s
    {
      forall k :: Count(s.Callbacks(), this, k) == if Holds(s, k) then 1 else 0
    }

    ghost predicate Valid()
      reads this, members, Nodes()
    {
      && sessions.Values <= members
      && (forall s | s in members :: s.Valid())
      && forall s | s in members && !s.closeFlag :: Registered(s)
    }

    constructor ()
      ensures Valid() && sessions == map[] && members == {}
    {
      sessions, members := map[], {};
    }

    /** The callbacks of a session once its callback for `key` is gone. */
    ghost function Dropped(s: Session, key: Key): seq<Callback>
      reads this, s
    {
      if Holds(s, key) && !s.closeFlag then RemoveFirst(s.Callbacks(), this, key) else s.Callbacks()
    }

    /** `cs` with the callback for `key`, in case `s` is `session` and open. */
    ghost function Added(cs: seq<Callback>, s: Session, session: Session, key: Key): seq<Callback>
      reads s
    {
      if s == session && !s.closeFlag then cs + [Callback(this, key, REMOVE_KEY)] else cs
    }

    method RemoveSession(key: Key, session: Session)
      requires Valid() && key in sessions && session == sessions[key]
      modifies `sessions, session, session.nodes
      ensures Valid() && sessions == old(sessions) - {key}
      ensures forall s | s in members :: s.closeFlag == old(s.closeFlag) && s.Callbacks() == old(Dropped(s, key))
      ensures Nodes() <= old(Nodes()) && forall n | n in session.nodes :: n in old(session.nodes)
    {
      hide RemoveFirst, Count, Session.Valid, Session.Callbacks;
      ghost var was := session.Callbacks();
      forall s | s in members && s != session ensures forall i, j | 0 <= i < |s.nodes| && 0 <= j < |session.nodes| ::
        s.nodes[i] != session.nodes[j] {
        NodesApart(s, session);
      }
      session.RemoveCloseCallback(this, key);
      sessions := sessions - {key};
      assert forall s | s in members && s != session ::
        s.Valid() && s.closeFlag == old(s.closeFlag) && s.Callbacks() == old(s.Callbacks());
      forall k ensures !session.closeFlag ==> Count(session.Callbacks(), this, k) == if Holds(session, k) then 1
        else 0 {
        CountRemoved(was, this, key, this, k);
      }
      forall n | n in Nodes() ensures n in old(Nodes()) {
        var s, i :| s in members && 0 <= i < |s.nodes| && n == s.nodes[i];
        assert n in old(s.nodes);
      }
    }


    /** Maps a free key to a session and gives the session its callback. */
    method Enter(key: Key, session: Session)
      requires Valid() && key !in sessions && session in members
      modifies `sessions, session, session.nodes
      ensures Valid() && sessions == old(sessions)[key := session]
      ensures forall s | s in members ::
        s.closeFlag == old(s.closeFlag) && s.Callbacks() == Added(old(s.Callbacks()), s, session, key)
      ensures forall n | n in Nodes() :: n in old(Nodes()) || fresh(n)
    {
      hide RemoveFirst, Count, Session.Valid, Session.Callbacks;
      ghost var was := session.Callbacks();
      forall s | s in members && s != session ensures forall i, j | 0 <= i < |s.nodes| && 0 <= j < |session.nodes| ::
        s.nodes[i] != session.nodes[j] {
        NodesApart(s, session);
      }
      session.AddCloseCallback(this, key, REMOVE_KEY);
      sessions := sessions[key := session];
      assert forall s | s in members && s != session ::
        s.Valid() && s.closeFlag == old(s.closeFlag) && s.Callbacks() == old(s.Callbacks());
      forall k ensures !session.closeFlag ==> Count(session.Callbacks(), this, k) == if Holds(session, k) then 1
        else 0 {
        CountAdded(was, Callback(this, key, REMOVE_KEY), this, k);
      }
      forall n | n in Nodes() ensures n in old(Nodes()) || fresh(n) {
        var s, i :| s in members && 0 <= i < |s.nodes| && n == s.nodes[i];
        assert n in old(s.nodes) || fresh(n);
      }
    }

    ghost method Admit(session: Session)
      requires Valid() && session.Valid()
      requires session !in members ==> forall k :: Count(session.Callbacks(), this, k) == 0
      modifies `members
      ensures Valid() && members == old(members) + {session}
    {
      hide Count, Session.Valid, Session.Callbacks;
      members := members + {session};
    }

    method Put(key: Key, session: Session)
      requires Valid() && session.Valid()
      requires session !in members ==> forall k :: Count(session.Callbacks(), this, k) == 0
      modifies this, members, session, session.nodes, Nodes()
      ensures Valid() && sessions == old(sessions)[key := session] && members == old(members) + {session}
      ensures forall n | n in Nodes() :: n in old(Nodes()) || n in old(session.nodes) || fresh(n)
      ensures forall s | s in old(members) || s == session ::
        s.closeFlag == old(s.closeFlag) && s.Callbacks() == Added(old(Dropped(s, key)), s, session, key)
    {
      hide RemoveFirst, Count, Session.Valid, Session.Callbacks, Registered;
      Admit(session);
      var removed := Remove(key);
      Enter(key, session);
    }

    /** Whether the key was there. */
    method Remove(key: Key) returns (exists_: bool)
      requires Valid()
      modifies this, members, Nodes()
      ensures Valid() && members == old(members) && exists_ == (key in old(sessions)) &&
        sessions == old(sessions) - {key}
      ensures forall s | s in members :: s.closeFlag == old(s.closeFlag) && s.Callbacks() == old(Dropped(s, key))
      ensures Nodes() <= old(Nodes())
    {
      hide RemoveFirst, Count, Session.Valid, Session.Callbacks;
      exists_ := key in sessions;
      if exists_ {
        RemoveSession(key, sessions[key]);
      }
    }

    ghost function Without(called: seq<Callback>): map<Key, Session>
      reads this
    {
      map k | k in sessions && !Has(called, this, k) :: sessions[k]
    }

    /** What the callbacks of a closed session do to this channel. */
    method RunCallbacks(called: seq<Callback>)
      requires Valid()
      modifies this, members, Nodes()
      ensures Valid() && members == old(members) && sessions == old(Without(called))
      ensures forall s | s in members :: s.closeFlag == old(s.closeFlag)
      ensures Nodes() <= old(Nodes())
    {
      hide RemoveFirst, Count, Session.Valid, Session.Callbacks, Has;
      NoneHas();
      for i := 0 to |called|
        invariant Valid() && members == old(members) && sessions == old(Without(called[..i]))
        invariant forall s | s in members :: s.closeFlag == old(s.closeFlag)
        invariant Nodes() <= old(Nodes())
      {
        assert called[..i + 1] == called[..i] + [called[i]];
        forall k {
          HasSnoc(called[..i], called[i], this, k);
        }
        if called[i].handler == this {
          var removed := Remove(called[i].key);
        }
      }
      assert called[..|called|] == called;
    }

    /** A session that is closed leaves the channel, and no other session does. */
    method CloseSession(session: Session)
      requires Valid() && session in members && !session.closeFlag
      modifies this, members, Nodes()
      ensures Valid() && session.closeFlag && sessions == map k | k in old(sessions) && old(sessions)[k] != session ::
        old(sessions)[k]
    {
      hide RemoveFirst, Count, Session.Callbacks, Session.Valid, Has;
      forall k ensures Has(session.Callbacks(), this, k) <==> Holds(session, k) {
        HasIffCounted(session.Callbacks(), this, k);
      }
      var first := session.Close();
      var called := session.InvokeCloseCallbacks();
      RunCallbacks(called);
    }

    /**
     * A session is put after the first `i` callbacks of a closed one have run and before the others: those take out
     * every key they name, so that the session that was put stays exactly when its key is not one of theirs.
     */
    method ReplaceWhileClosing(session: Session, key: Key, other: Session, i: nat)
      requires Valid() && session in members && !session.closeFlag && other in members
      requires i <= |session.Callbacks()|
      modifies this, members, Nodes()
      ensures Valid()
      ensures (key in sessions && sessions[key] == other) <==> !Has(old(session.Callbacks())[i..], this, key)
      ensures var before := old(Without(session.Callbacks()[..i]))[key := other];
        sessions == map k | k in before && !Has(old(session.Callbacks())[i..], this, k) :: before[k]
      ensures forall s | s in old(members) && s != session :: s.closeFlag == old(s.closeFlag)
    {
      hide RemoveFirst, Count, Session.Callbacks, Session.Valid, Has;
      var first := session.Close();
      var called := session.InvokeCloseCallbacks();
      RunCallbacks(called[..i]);
      Put(key, other);
      RunCallbacks(called[i..]);
    }

    /** Before any callback has run, those still to run name exactly the keys the closed session held. */
    lemma CallbacksNameHeld(session: Session, key: Key)
      requires Valid() && session in members && !session.closeFlag
      ensures Has(session.Callbacks()[0..], this, key) <==> Holds(session, key)
    {
      hide Count, Has;
      HasIffCounted(session.Callbacks(), this, key);
      assert session.Callbacks()[0..] == session.Callbacks();
    }
  }

  lemma NoneHas()
    ensures forall h, k :: !Has([], h, k)
  {
  }
}
