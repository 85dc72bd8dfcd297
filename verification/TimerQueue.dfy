/** The timer block of the FSM core: a singly linked queue of timing events in
    order of expiry, a three-valued state and one high-resolution timer. The
    queue is specified by stable sorted insertion and by removal on sequences. */
module TimerQueue {
  import opened Wrappers

  // ----- the queue as a sequence -----

  /** A timing event: `id` counts the events in order of their creation. */
  datatype Ev = Ev(id: nat, expire: int)

  /** How many events at the front expire no later than `t`. */
  function DueCount(q: seq<Ev>, t: int): (n: nat)
    ensures n <= |q|
    ensures forall i :: 0 <= i < n ==> q[i].expire <= t
    ensures n < |q| ==> q[n].expire > t
  {
    if q == [] || q[0].expire > t then 0 else 1 + DueCount(q[1..], t)
  }

  /** Behind every event that expires no later, before the rest. */
  function Inserted(q: seq<Ev>, e: Ev): seq<Ev> {
    var k := DueCount(q, e.expire);
    q[..k] + [e] + q[k..]
  }

  function IndexOf(q: seq<Ev>, id: nat): (n: nat)
    ensures n <= |q|
    ensures n < |q| ==> q[n].id == id
    ensures forall i :: 0 <= i < n ==> q[i].id != id
  {
    if q == [] || q[0].id == id then 0 else 1 + IndexOf(q[1..], id)
  }

  function Removed(q: seq<Ev>, id: nat): seq<Ev> {
    var k := IndexOf(q, id);
    if k < |q| then q[..k] + q[k + 1..] else q
  }

  lemma {:induction false} DueCountIs(q: seq<Ev>, t: int, n: nat)
    requires n <= |q| && (forall i :: 0 <= i < n ==> q[i].expire <= t) && (n < |q| ==> q[n].expire > t)
    ensures DueCount(q, t) == n
  {
    if n > 0 {
      DueCountIs(q[1..], t, n - 1);
    }
  }

  lemma {:induction false} IndexOfIs(q: seq<Ev>, id: nat, n: nat)
    requires n <= |q| && (forall i :: 0 <= i < n ==> q[i].id != id) && (n < |q| ==> q[n].id == id)
    ensures IndexOf(q, id) == n
  {
    if n > 0 {
      IndexOfIs(q[1..], id, n - 1);
    }
  }

  // ----- order -----

  /** Earlier expiry first; equal expiries in order of creation. */
  predicate Precedes(a: Ev, b: Ev) {
    a.expire < b.expire || (a.expire == b.expire && a.id < b.id)
  }

  ghost predicate Ordered(q: seq<Ev>) {
    forall i, j :: 0 <= i < j < |q| ==> Precedes(q[i], q[j])
  }

  /** Insertion of the newest event keeps the order. */
  lemma InsertedOrdered(q: seq<Ev>, e: Ev)
    requires Ordered(q) && forall i :: 0 <= i < |q| ==> q[i].id < e.id
    ensures Ordered(Inserted(q, e))
  {
    var k := DueCount(q, e.expire);
    var r := Inserted(q, e);
    forall i, j | 0 <= i < j < |r| ensures Precedes(r[i], r[j]) {
      if i == k {
        assert r[j] == q[j - 1];
        assert k < j - 1 ==> Precedes(q[k], q[j - 1]);
      }
    }
  }

  lemma RemovedOrdered(q: seq<Ev>, id: nat)
    requires Ordered(q)
    ensures Ordered(Removed(q, id))
  {
  }

  // ----- the timer block as a value -----

  datatype TmState = STOP | RUN | EXPIRE

  /** `armed` is the instant the hardware timer is set to, if it is. */
  datatype Block = Block(q: seq<Ev>, state: TmState, armed: Option<int>)

  function Restarted(b: Block): Block {
    if b.q == [] then b.(state := STOP)
    else if b.state == STOP then b.(state := RUN, armed := Some(b.q[0].expire))
    else if b.state == RUN then b.(armed := Some(b.q[0].expire))
    else b
  }

  function WithAdded(b: Block, e: Ev): Block {
    var c := b.(q := Inserted(b.q, e));
    if DueCount(b.q, e.expire) == 0 && b.state != EXPIRE then Restarted(c) else c
  }

  predicate CanCancel(b: Block, id: nat) { IndexOf(b.q, id) < |b.q| }

  function WithCancelled(b: Block, id: nat): Block {
    if !CanCancel(b, id) then b
    else
      var c := b.(q := Removed(b.q, id));
      if IndexOf(b.q, id) > 0 then c
      else
        var d := if b.state != EXPIRE then Restarted(c) else c;
        if d.q == [] then d.(state := STOP, armed := None) else d
  }

  lemma HeadRemoved(b: Block, id: nat)
    requires b.q != [] && b.q[0].id == id
    ensures IndexOf(b.q, id) == 0 && Removed(b.q, id) == b.q[1..]
  {
    assert b.q[..0] + b.q[1..] == b.q[1..];
  }

  lemma WithCancelledQueue(b: Block, id: nat)
    ensures WithCancelled(b, id).q == Removed(b.q, id)
  {
  }

  lemma WithAddedQueue(b: Block, e: Ev)
    ensures WithAdded(b, e).q == Inserted(b.q, e)
  {
  }

  /** Outside a firing: running and armed for the head of the queue, or stopped,
      disarmed and empty. */
  ghost predicate Settled(b: Block) {
    if b.q == [] then b.state == STOP && b.armed == None
    else b.state == RUN && b.armed == Some(b.q[0].expire)
  }

  lemma AddKeepsSettled(b: Block, e: Ev)
    requires Settled(b)
    ensures Settled(WithAdded(b, e))
  {
  }

  lemma CancelKeepsSettled(b: Block, id: nat)
    requires Settled(b)
    ensures Settled(WithCancelled(b, id))
  {
  }

  // ----- the linked queue -----

  class TmEvent {
    const id: nat
    const expire: int
    var pNext: TmEvent?

    constructor (id: nat, expire: int)
      ensures this.id == id && this.expire == expire && pNext == null
    {
      this.id, this.expire, pNext := id, expire, null;
    }
  }

  ghost function Events(nodes: seq<TmEvent>): (q: seq<Ev>)
    ensures |q| == |nodes|
  {
    seq(|nodes|, i requires 0 <= i < |nodes| => Ev(nodes[i].id, nodes[i].expire))
  }

  lemma EventsSplice(nodes: seq<TmEvent>, i: nat, middle: seq<TmEvent>, j: nat)
    requires i <= |nodes| && j <= |nodes|
    ensures Events(nodes[..i] + middle + nodes[j..]) == Events(nodes)[..i] + Events(middle) + Events(nodes)[j..]
  {
  }

  lemma InsertedNodes(nodes: seq<TmEvent>, n: TmEvent)
    ensures var k := DueCount(Events(nodes), n.expire);
            && Events(nodes[..k] + [n] + nodes[k..]) == Inserted(Events(nodes), Ev(n.id, n.expire))
            && (k == 0 ==> Events([n] + nodes) == Inserted(Events(nodes), Ev(n.id, n.expire)))
  {
    var k := DueCount(Events(nodes), n.expire);
    EventsSplice(nodes, k, [n], k);
    assert Events([n]) == [Ev(n.id, n.expire)];
    if k == 0 {
      assert nodes[..0] + [n] + nodes[0..] == [n] + nodes;
    }
  }

  lemma RemovedNodes(nodes: seq<TmEvent>, k: nat)
    requires k < |nodes| && IndexOf(Events(nodes), nodes[k].id) == k
    ensures Events(nodes[..k] + nodes[k + 1..]) == Removed(Events(nodes), nodes[k].id)
  {
    EventsSplice(nodes, k, [], k + 1);
    assert nodes[..k] + [] + nodes[k + 1..] == nodes[..k] + nodes[k + 1..];
  }

  /** What the `i`-th node is linked to. */
  ghost function Link(nodes: seq<TmEvent>, i: nat): TmEvent? {
    if i < |nodes| then nodes[i] else null
  }

  ghost predicate Distinct(nodes: seq<TmEvent>) {
    forall i, j :: 0 <= i < j < |nodes| ==> nodes[i] != nodes[j]
  }

  lemma DistinctInsert(nodes: seq<TmEvent>, k: nat, n: TmEvent)
    requires Distinct(nodes) && k <= |nodes| && n !in nodes
    ensures Distinct(nodes[..k] + [n] + nodes[k..])
  {
  }

  lemma DistinctDelete(nodes: seq<TmEvent>, k: nat)
    requires Distinct(nodes) && k < |nodes|
    ensures Distinct(nodes[..k] + nodes[k + 1..])
  {
  }

  class TmBlock {
    var evQ: TmEvent?
    var tmState: TmState
    var armed: Option<int>
    ghost var nodes: seq<TmEvent>

    /** The links run through `nodes`, each once, and end. */
    ghost predicate Valid()
      reads this, nodes
    {
      && evQ == Link(nodes, 0) && Distinct(nodes)
      && (forall i :: 0 <= i < |nodes| ==> nodes[i].pNext == Link(nodes, i + 1))
    }

    ghost function Value(): Block
      reads this
    {
      Block(Events(nodes), tmState, armed)
    }

    constructor ()
      ensures Valid() && nodes == [] && Value() == Block([], STOP, None)
    {
      evQ, tmState, armed, nodes := null, STOP, None, [];
    }

    method Restart()
      requires Valid()
      modifies this`tmState, this`armed
      ensures Valid() && Value() == Restarted(old(Value()))
    {
      if evQ == null {
        tmState := STOP;
        return;
      }
      if tmState == STOP {
        armed := Some(evQ.expire);
        tmState := RUN;
      } else if tmState == RUN {
        armed := None;
        armed := Some(evQ.expire);
      }
    }

    method Stop()
      modifies this`tmState, this`armed
      ensures tmState == STOP && armed == None
    {
      tmState := STOP;
      armed := None;
    }

    method Insert(pE: TmEvent)
      requires Valid() && pE !in nodes
      modifies this, nodes, pE
      ensures Valid()
      ensures Value() == WithAdded(old(Value()), Ev(pE.id, pE.expire))
      ensures var k := DueCount(Events(old(nodes)), pE.expire);
              nodes == old(nodes)[..k] + [pE] + old(nodes)[k..]
    {
      InsertedNodes(nodes, pE);
      if evQ == null || evQ.expire > pE.expire {
        InsertHead(pE);
      } else {
        LinkSorted(pE);
      }
    }

    /** In front of the queue; the timer is set for the new head. */
    method InsertHead(pE: TmEvent)
      requires Valid() && pE !in nodes && (evQ == null || evQ.expire > pE.expire)
      modifies this`evQ, this`nodes, this`tmState, this`armed, pE
      ensures Valid() && nodes == [pE] + old(nodes)
      ensures Value() == WithAdded(old(Value()), Ev(pE.id, pE.expire))
    {
      InsertedNodes(nodes, pE);
      ghost var b := Value();
      LinkFirst(pE);
      assert Value() == b.(q := Inserted(b.q, Ev(pE.id, pE.expire)));
      if tmState != EXPIRE {
        Restart();
      }
    }

    method LinkFirst(pE: TmEvent)
      requires Valid() && pE !in nodes
      modifies this`evQ, this`nodes, pE
      ensures Valid() && nodes == [pE] + old(nodes)
    {
      pE.pNext := evQ;
      evQ := pE;
      nodes := [pE] + nodes;
    }

    /** Walk past the events that expire no later and link `pE` behind them. */
    method LinkSorted(pE: TmEvent)
      requires Valid() && pE !in nodes && evQ != null && evQ.expire <= pE.expire
      modifies this`nodes, nodes, pE
      ensures Valid()
      ensures var k := DueCount(Events(old(nodes)), pE.expire);
              nodes == old(nodes)[..k] + [pE] + old(nodes)[k..]
    {
      var p0, p1 := evQ, evQ;
      ghost var k := 0;
      ghost var q := Events(nodes);
      while p0 != null && (p0.expire < pE.expire || p0.expire == pE.expire)
        invariant k <= |nodes| && p0 == Link(nodes, k)
        invariant k > 0 ==> p1 == nodes[k - 1]
        invariant forall i :: 0 <= i < k ==> q[i].expire <= pE.expire
        decreases |nodes| - k
      {
        p1 := p0;
        p0 := p0.pNext;
        k := k + 1;
      }
      DueCountIs(q, pE.expire, k);
      LinkIn(k, pE, p0, p1);
    }

    /** Put `pE` between the nodes `p1` and `p0`. */
    method LinkIn(ghost k: nat, pE: TmEvent, p0: TmEvent?, p1: TmEvent)
      requires Valid() && pE !in nodes
      requires 0 < k <= |nodes| && p1 == nodes[k - 1] && p0 == Link(nodes, k)
      modifies this`nodes, nodes, pE
      ensures Valid() && nodes == old(nodes)[..k] + [pE] + old(nodes)[k..]
    {
      ghost var was := nodes;
      DistinctInsert(nodes, k, pE);
      pE.pNext := p0;
      p1.pNext := pE;
      nodes := was[..k] + [pE] + was[k..];
      forall i | 0 <= i < |nodes| ensures nodes[i].pNext == Link(nodes, i + 1) {
        if i < k - 1 {
          assert nodes[i] == was[i] && nodes[i + 1] == was[i + 1];
        } else if i > k {
          assert nodes[i] == was[i - 1] && Link(nodes, i + 1) == Link(was, i);
        }
      }
    }

    /** Take the event `pE` out of the queue; false when it is not in it. */
    method Remove(pE: TmEvent) returns (ok: bool)
      requires Valid()
      requires forall n :: n in nodes && n.id == pE.id ==> n == pE
      modifies this, nodes
      ensures Valid()
      ensures ok == CanCancel(old(Value()), pE.id)
      ensures Value() == WithCancelled(old(Value()), pE.id)
      ensures var k := IndexOf(Events(old(nodes)), pE.id);
              nodes == if ok then old(nodes)[..k] + old(nodes)[k + 1..] else old(nodes)
      ensures ok <==> pE in old(nodes)
    {
      if evQ == null {
        return false;
      }
      if pE == evQ {
        RemoveHead();
        return true;
      }
      ok := UnlinkLater(pE);
    }

    /** Take the head out of the queue and set the timer for the new head. */
    method RemoveHead()
      requires Valid() && evQ != null
      modifies this
      ensures Valid() && nodes == old(nodes)[1..]
      ensures Value() == WithCancelled(old(Value()), old(nodes)[0].id)
      ensures IndexOf(Events(old(nodes)), old(nodes)[0].id) == 0
    {
      ghost var b, id := Value(), nodes[0].id;
      HeadRemoved(b, id);
      var pE := PopHead();
      if tmState != EXPIRE {
        Restart();
      }
      if evQ == null {
        Stop();
      }
    }

    /** Look for `pE` behind the head and unlink it. */
    method UnlinkLater(pE: TmEvent) returns (ok: bool)
      requires Valid() && evQ != null && pE != evQ
      requires forall n :: n in nodes && n.id == pE.id ==> n == pE
      modifies this`nodes, nodes
      ensures Valid()
      ensures ok <==> pE in old(nodes)
      ensures var q, k := Events(old(nodes)), IndexOf(Events(old(nodes)), pE.id);
              && (ok <==> k < |q|) && k > 0 && Events(nodes) == Removed(q, pE.id)
              && nodes == if ok then old(nodes)[..k] + old(nodes)[k + 1..] else old(nodes)
    {
      ghost var was := nodes;
      var p0, k := FindBefore(pE);
      ok := p0.pNext != null;
      if ok {
        RemovedNodes(was, k + 1);
        Unlink(k, p0, pE);
      }
    }

    /** Walk to the node before `pE`, or to the last one. */
    method FindBefore(pE: TmEvent) returns (p0: TmEvent, ghost k: nat)
      requires Valid() && evQ != null && pE != evQ
      requires forall n :: n in nodes && n.id == pE.id ==> n == pE
      ensures k < |nodes| && p0 == nodes[k] && IndexOf(Events(nodes), pE.id) == k + 1
      ensures k + 1 < |nodes| ==> nodes[k + 1] == pE
      ensures k + 1 == |nodes| ==> pE !in nodes
    {
      p0 := evQ;
      k := 0;
      ghost var q := Events(nodes);
      while p0.pNext != null && pE != p0.pNext
        invariant k < |nodes| && p0 == nodes[k]
        invariant forall i :: 0 <= i <= k ==> nodes[i] != pE
        decreases |nodes| - k
      {
        p0 := p0.pNext;
        k := k + 1;
      }
      assert forall i :: 0 <= i < |nodes| ==> (q[i].id == pE.id <==> nodes[i] == pE);
      IndexOfIs(q, pE.id, k + 1);
    }

    /** Link the node before `pE` past it. */
    method Unlink(ghost k: nat, p0: TmEvent, pE: TmEvent)
      requires Valid() && k + 1 < |nodes| && nodes[k] == p0 && nodes[k + 1] == pE
      modifies this`nodes, p0
      ensures Valid() && nodes == old(nodes)[..k + 1] + old(nodes)[k + 2..]
    {
      ghost var was := nodes;
      DistinctDelete(nodes, k + 1);
      p0.pNext := pE.pNext;
      nodes := was[..k + 1] + was[k + 2..];
      forall i | 0 <= i < |nodes| ensures nodes[i].pNext == Link(nodes, i + 1) {
        if i < k {
          assert nodes[i] == was[i] && nodes[i + 1] == was[i + 1];
        } else if i > k {
          assert nodes[i] == was[i + 1] && Link(nodes, i + 1) == Link(was, i + 2);
        }
      }
    }

    /** Take the head off the queue; the timer is not touched. */
    method PopHead() returns (pE: TmEvent)
      requires Valid() && evQ != null
      modifies this`evQ, this`nodes
      ensures Valid() && pE == old(nodes)[0] && nodes == old(nodes)[1..]
      ensures Value() == old(Value()).(q := old(Value()).q[1..])
    {
      pE := evQ;
      evQ := pE.pNext;
      nodes := nodes[1..];
    }

    method Flush()
      requires Valid()
      modifies this`evQ, this`nodes
      ensures Valid() && nodes == []
    {
      while evQ != null
        invariant Valid()
        decreases |nodes|
      {
        var pE := PopHead();
      }
    }
  }
}
