/** The callbacks of a session: a linked list with a pointer to its last element. */
module CloseCallbacks {

  /** Keys are only ever compared. */
  type Key = int

  datatype Callback = Callback(handler: object?, key: Key, action: int) {
    predicate Is(h: object?, k: Key) {
      handler == h && key == k
    }
  }

  /** The callbacks without the first one of this handler and key. */
  function RemoveFirst(cs: seq<Callback>, handler: object?, key: Key): seq<Callback> {
    if cs == [] then [] else if cs[0].Is(handler, key) then cs[1..] else [cs[0]] + RemoveFirst(cs[1..], handler, key)
  }

  function Count(cs: seq<Callback>, handler: object?, key: Key): nat {
    if cs == [] then 0 else Count(cs[1..], handler, key) + if cs[0].Is(handler, key) then 1 else 0
  }

  lemma {:induction false} RemoveFirstAt(cs: seq<Callback>, handler: object?, key: Key, i: nat)
    requires i < |cs| && cs[i].Is(handler, key) && forall j | 0 <= j < i :: !cs[j].Is(handler, key)
    ensures RemoveFirst(cs, handler, key) == cs[..i] + cs[i + 1..]
  {
    if i > 0 {
      RemoveFirstAt(cs[1..], handler, key, i - 1);
      assert cs[..i] == [cs[0]] + cs[1..][..i - 1] && cs[i + 1..] == cs[1..][i..];
    }
  }

  lemma {:induction false} RemoveFirstNone(cs: seq<Callback>, handler: object?, key: Key)
    requires forall j | 0 <= j < |cs| :: !cs[j].Is(handler, key)
    ensures RemoveFirst(cs, handler, key) == cs
  {
    if cs != [] {
      RemoveFirstNone(cs[1..], handler, key);
    }
  }

  /**
   * Removing a callback takes one away of its handler and key, if there is one, and leaves those of all others alone.
   */
  lemma {:induction false} CountRemoved(cs: seq<Callback>, handler: object?, key: Key, h: object?, k: Key)
    ensures Count(RemoveFirst(cs, handler, key), h, k)
         == if h == handler && k == key && Count(cs, h, k) > 0 then Count(cs, h, k) - 1 else Count(cs, h, k)
  {
    if cs != [] && !cs[0].Is(handler, key) {
      CountRemoved(cs[1..], handler, key, h, k);
      assert ([cs[0]] + RemoveFirst(cs[1..], handler, key))[1..] == RemoveFirst(cs[1..], handler, key);
    }
  }

  lemma {:induction false} CountAdded(cs: seq<Callback>, c: Callback, h: object?, k: Key)
    ensures Count(cs + [c], h, k) == Count(cs, h, k) + if c.Is(h, k) then 1 else 0
  {
    if cs == [] {
      assert cs + [c] == [c];
      OneCounted(c, h, k);
    } else {
      CountAdded(cs[1..], c, h, k);
      assert (cs + [c])[1..] == cs[1..] + [c];
    }
  }

  lemma OneCounted(c: Callback, h: object?, k: Key)
    ensures Count([c], h, k) == if c.Is(h, k) then 1 else 0
  {
    assert [c][1..] == [];
  }

  predicate Has(cs: seq<Callback>, handler: object?, key: Key) {
    exists i | 0 <= i < |cs| :: cs[i].Is(handler, key)
  }

  lemma {:induction false} HasIffCounted(cs: seq<Callback>, handler: object?, key: Key)
    ensures Has(cs, handler, key) <==> Count(cs, handler, key) > 0
  {
    if cs != [] {
      HasIffCounted(cs[1..], handler, key);
      if Has(cs[1..], handler, key) {
        var i :| 0 <= i < |cs[1..]| && cs[1..][i].Is(handler, key);
        assert cs[i + 1].Is(handler, key);
      }
      if Has(cs, handler, key) && !cs[0].Is(handler, key) {
        var i :| 0 <= i < |cs| && cs[i].Is(handler, key);
        assert cs[1..][i - 1].Is(handler, key);
      }
    }
  }

  lemma HasSnoc(cs: seq<Callback>, c: Callback, handler: object?, key: Key)
    ensures Has(cs + [c], handler, key) <==> Has(cs, handler, key) || c.Is(handler, key)
  {
    assert (cs + [c])[..|cs|] == cs && (cs + [c])[|cs|] == c;
    if Has(cs, handler, key) {
      var i :| 0 <= i < |cs| && cs[i].Is(handler, key);
      assert (cs + [c])[i].Is(handler, key);
    }
  }

  class CloseCallback {
    const callback: Callback
    ghost const owner: Session
    var next: CloseCallback?

    constructor (callback: Callback, ghost owner: Session)
      ensures this.callback == callback && this.owner == owner && next == null
    {
      this.callback, this.owner, next := callback, owner, null;
    }
  }

  ghost function CallbacksOf(nodes: seq<CloseCallback>): (cs: seq<Callback>)
    ensures |cs| == |nodes|
  {
    seq(|nodes|, i requires 0 <= i < |nodes| => nodes[i].callback)
  }

  ghost function Without(nodes: seq<CloseCallback>, i: nat): seq<CloseCallback>
    requires i < |nodes|
  {
    nodes[..i] + nodes[i + 1..]
  }

  lemma WithoutIndex(nodes: seq<CloseCallback>, i: nat)
    requires i < |nodes|
    ensures |Without(nodes, i)| == |nodes| - 1
    ensures forall k | 0 <= k < i :: Without(nodes, i)[k] == nodes[k]
    ensures forall k | i <= k < |nodes| - 1 :: Without(nodes, i)[k] == nodes[k + 1]
    ensures CallbacksOf(Without(nodes, i)) == CallbacksOf(nodes)[..i] + CallbacksOf(nodes)[i + 1..]
  {
  }

  /** Distinct elements of one session. */
  ghost predicate OwnedBy(nodes: seq<CloseCallback>, session: Session) {
    && (forall i | 0 <= i < |nodes| :: nodes[i].owner == session)
    && forall i, j | 0 <= i < j < |nodes| :: nodes[i] != nodes[j]
  }

  lemma WithoutOwned(nodes: seq<CloseCallback>, i: nat, session: Session)
    requires i < |nodes| && OwnedBy(nodes, session)
    ensures OwnedBy(Without(nodes, i), session)
    ensures forall k | 0 <= k < |nodes| && k != i :: nodes[k] != nodes[i]
  {
  }

  class Session {
    var closeFlag: bool
    var firstCloseCallback: CloseCallback?
    var lastCloseCallback: CloseCallback?
    ghost var nodes: seq<CloseCallback>

    /** The list runs from the first element to the last, through elements that belong to this session alone. */
    ghost predicate Valid()
      reads this, nodes
    {
      && OwnedBy(nodes, this)
      && firstCloseCallback == NodeAt(0)
      && lastCloseCallback == (if nodes == [] then null else nodes[|nodes| - 1])
      && forall i | 0 <= i < |nodes| :: nodes[i].next == NodeAt(i + 1)
    }

    ghost function NodeAt(i: nat): CloseCallback?
      reads this
    {
      if i < |nodes| then nodes[i] else null
    }

    ghost function Callbacks(): (cs: seq<Callback>)
      reads this
    {
      CallbacksOf(nodes)
    }

    constructor ()
      ensures Valid() && !closeFlag && Callbacks() == [] && nodes == []
    {
      closeFlag, firstCloseCallback, lastCloseCallback, nodes := false, null, null, [];
    }

    /** Whether this call closed the session; its callbacks are run afterwards. */
    method Close() returns (first: bool)
      requires Valid()
      modifies `closeFlag
      ensures Valid() && closeFlag && first == !old(closeFlag) && nodes == old(nodes) && Callbacks() == old(Callbacks())
    {
      first := !closeFlag;
      closeFlag := true;
    }

    method AddCloseCallback(handler: object?, key: Key, action: int)
      requires Valid()
      modifies this, nodes
      ensures Valid() && closeFlag == old(closeFlag)
      ensures Callbacks() == if closeFlag then old(Callbacks()) else old(Callbacks()) + [Callback(handler, key, action)]
      ensures forall n | n in nodes :: n in old(nodes) || fresh(n)
    {
      if closeFlag {
        return;
      }
      var newItem := new CloseCallback(Callback(handler, key, action), this);
      if firstCloseCallback == null {
        firstCloseCallback := newItem;
      } else {
        lastCloseCallback.next := newItem;
      }
      lastCloseCallback := newItem;
      nodes := nodes + [newItem];
    }

    method RemoveCloseCallback(handler: object?, key: Key)
      requires Valid()
      modifies this, nodes
      ensures Valid() && closeFlag == old(closeFlag)
      ensures Callbacks() == if closeFlag then old(Callbacks()) else RemoveFirst(old(Callbacks()), handler, key)
      ensures forall n | n in nodes :: n in old(nodes)
    {
      if closeFlag {
        return;
      }
      hide Without, CallbacksOf;
      ghost var before := Callbacks();
      ghost var i := 0;
      var prev: CloseCallback? := null;
      var callback := firstCloseCallback;
      while callback != null
        invariant Valid() && unchanged(this, nodes)
        invariant i <= |nodes| && prev == if i == 0 then null else nodes[i - 1]
        invariant callback == NodeAt(i)
        invariant forall j | 0 <= j < i :: !before[j].Is(handler, key)
        decreases |nodes| - i
      {
        if callback.callback.Is(handler, key) {
          RemoveFirstAt(before, handler, key, i);
          WithoutIndex(nodes, i);
          Unlink(i, prev, callback);
          return;
        }
        assert callback.next == nodes[i].next;
        prev, callback, i := callback, callback.next, i + 1;
      }
      RemoveFirstNone(before, handler, key);
    }

    method Unlink(ghost i: nat, prev: CloseCallback?, callback: CloseCallback)
      requires Valid() && i < |nodes| && callback == nodes[i] && prev == if i == 0 then null else nodes[i - 1]
      modifies this, nodes
      ensures Valid() && closeFlag == old(closeFlag)
      ensures nodes == old(Without(nodes, i))
    {
      hide Without, OwnedBy;
      WithoutIndex(nodes, i);
      WithoutOwned(nodes, i, this);
      assert callback.next == NodeAt(i + 1);
      if firstCloseCallback == callback {
        firstCloseCallback := callback.next;
      } else {
        prev.next := callback.next;
      }
      if lastCloseCallback == callback {
        lastCloseCallback := prev;
      }
      nodes := Without(nodes, i);
    }

    /** The callbacks in the order in which they are run. */
    method InvokeCloseCallbacks() returns (called: seq<Callback>)
      requires Valid()
      ensures called == Callbacks()
    {
      called := [];
      var callback := firstCloseCallback;
      while callback != null
        invariant |called| <= |nodes| && called == Callbacks()[..|called|]
        invariant callback == NodeAt(|called|)
        decreases |nodes| - |called|
      {
        assert callback.next == nodes[|called|].next;
        called, callback := called + [callback.callback], callback.next;
      }
    }
  }

  lemma NodesApart(a: Session, b: Session)
    requires a.Valid() && b.Valid() && a != b
    ensures forall i, j | 0 <= i < |a.nodes| && 0 <= j < |b.nodes| :: a.nodes[i] != b.nodes[j]
  {
    forall i, j | 0 <= i < |a.nodes| && 0 <= j < |b.nodes| ensures a.nodes[i] != b.nodes[j] {
      assert a.nodes[i].owner == a;
    }
  }
}
