/** The FSM core as an object: the timer block and the list of expired events,
    updated in place. Each method is one locked region and is proved to take the
    step of the same name; the interrupt comes in the deferred form and in the
    form that drives the handlers itself. */
module FsmCoreObject {
  import opened TimerQueue
  import opened DeferredTimers
  import opened DirectTimers
  import opened Wrappers

  /** `handles` are the handles of exactly these events, of which there were `nextId` so far. */
  ghost predicate Kept(handles: map<nat, TmEvent>, events: seq<TmEvent>, nextId: nat) {
    && Distinct(events)
    && (forall n :: n in events ==> n.id in handles && handles[n.id] == n)
    && (forall id :: id in handles ==> id < nextId && handles[id].id == id && handles[id] in events)
  }

  lemma KeptIds(handles: map<nat, TmEvent>, events: seq<TmEvent>, nextId: nat)
    requires Kept(handles, events, nextId)
    ensures forall n :: n in events ==> n.id < nextId && n.id in handles && handles[n.id] == n
    ensures forall m, n :: m in events && n in events && m.id == n.id ==> m == n
    ensures forall id :: id in handles ==> handles[id] in events && handles[id].id == id
  {
  }

  lemma KeptMore(handles: map<nat, TmEvent>, nodes: seq<TmEvent>, rest: seq<TmEvent>, k: nat, pE: TmEvent)
    requires Kept(handles, nodes + rest, pE.id) && k <= |nodes|
    ensures Kept(handles[pE.id := pE], nodes[..k] + [pE] + nodes[k..] + rest, pE.id + 1)
  {
    var s, r := nodes + rest, nodes[..k] + [pE] + nodes[k..] + rest;
    assert pE !in s;
    assert s[..k] == nodes[..k] && s[k..] == nodes[k..] + rest;
    assert r == s[..k] + [pE] + s[k..];
    forall i, j | 0 <= i < j < |r| ensures r[i] != r[j] {
      assert i != k ==> r[i] in s;
      assert j != k ==> r[j] in s;
    }
    forall n | n in s ensures n in r {
      var i :| 0 <= i < |s| && s[i] == n;
      assert r[if i < k then i else i + 1] == n;
    }
    assert r[k] == pE;
  }

  lemma KeptLess(handles: map<nat, TmEvent>, nodes: seq<TmEvent>, rest: seq<TmEvent>, k: nat, nextId: nat)
    requires Kept(handles, nodes + rest, nextId) && k < |nodes|
    ensures Kept(handles - {nodes[k].id}, nodes[..k] + nodes[k + 1..] + rest, nextId)
  {
    var s, r := nodes + rest, nodes[..k] + nodes[k + 1..] + rest;
    assert s[k] == nodes[k];
    forall i | 0 <= i < |r| ensures r[i] == s[if i < k then i else i + 1] {
    }
    forall n | n in s && n != nodes[k] ensures n in r {
      var i :| 0 <= i < |s| && s[i] == n;
      assert r[if i < k then i else i - 1] == n;
    }
    forall n | n in r ensures n in s && n != s[k] {
      var i :| 0 <= i < |r| && r[i] == n;
    }
  }

  lemma DistinctConcat(a: seq<TmEvent>, b: seq<TmEvent>)
    ensures Distinct(a + b) <==> Distinct(a) && Distinct(b) && forall n :: n in a ==> n !in b
  {
    var s := a + b;
    if Distinct(s) {
      assert forall i :: 0 <= i < |a| ==> a[i] == s[i];
      assert forall i :: 0 <= i < |b| ==> b[i] == s[|a| + i];
    } else {
      var i, j :| 0 <= i < j < |s| && s[i] == s[j];
      assert i < |a| <= j ==> s[i] in a && s[j] in b;
      assert i >= |a| ==> b[i - |a|] == b[j - |a|];
    }
  }

  lemma Shuffled(a: seq<TmEvent>, b: seq<TmEvent>, w: seq<TmEvent>, d: seq<TmEvent>)
    requires Distinct(a + b + (w + d))
    ensures Distinct(b + (w + a + d))
    ensures forall n :: n in b + (w + a + d) <==> n in a + b + (w + d)
  {
    hide Distinct;
    DistinctConcat(a + b, w + d);
    DistinctConcat(a, b);
    DistinctConcat(w, d);
    DistinctConcat(w, a);
    DistinctConcat(w + a, d);
    DistinctConcat(b, w + a + d);
    forall n | n in a + b ensures n !in w && n !in d {
      assert n !in w + d;
    }
    forall n ensures !(n in a && n in b) && !(n in w && n in d) {
    }
    assert forall n :: n in a || n in b ==> n in a + b;
    assert forall n :: n in w + a ==> n !in d;
    assert forall n :: n in b ==> n !in w + a + d;
  }

  /** The same events in another order. */
  lemma KeptShuffled(handles: map<nat, TmEvent>, a: seq<TmEvent>, b: seq<TmEvent>, w: seq<TmEvent>, d: seq<TmEvent>,
                     nextId: nat)
    requires Kept(handles, a + b + (w + d), nextId)
    ensures Kept(handles, b + (w + a + d), nextId)
  {
    Shuffled(a, b, w, d);
  }

  lemma KeptMoved(handles: map<nat, TmEvent>, nodes: seq<TmEvent>, w: seq<TmEvent>, d: seq<TmEvent>, k: nat,
                  nextId: nat)
    requires k <= |nodes| && Kept(handles, nodes + (w + d), nextId)
    ensures Kept(handles, nodes[k..] + (w + nodes[..k] + d), nextId)
  {
    assert nodes == nodes[..k] + nodes[k..];
    KeptShuffled(handles, nodes[..k], nodes[k..], w, d, nextId);
  }

  lemma KeptDriven(handles: map<nat, TmEvent>, nodes: seq<TmEvent>, w: seq<TmEvent>, nextId: nat)
    requires nodes != [] && Kept(handles, nodes + (w + []), nextId)
    ensures Kept(handles, nodes[1..] + (w + [nodes[0]]), nextId)
  {
    hide Kept;
    var pE, rest := nodes[0], nodes[1..];
    assert nodes == [pE] + rest;
    KeptShuffled(handles, [pE], rest, w, [], nextId);
    assert w + [pE] + [] == w + [pE];
  }

  class FsmCore {
    const tmCtrlBlock: TmBlock
    var expEvList: seq<TmEvent>
    ghost var running: bool
    var clock: int                     // what the clock shows
    var nextId: nat
    var handles: map<nat, TmEvent>     // the handles of events that have not been freed
    ghost var driven: seq<TmEvent>     // the event the interrupt is driving, if any
    ghost var delivered: seq<Ev>
    ghost var cancelled: seq<Ev>
    ghost var flushed: seq<Ev>

    /** The events that have not been freed. */
    ghost function Unfreed(): seq<TmEvent>
      reads this, tmCtrlBlock
    {
      tmCtrlBlock.nodes + (expEvList + driven)
    }

    /** The handles kept are those of the events that have not been freed. */
    ghost predicate Valid()
      reads this, tmCtrlBlock, tmCtrlBlock.nodes
    {
      tmCtrlBlock.Valid() && Kept(handles, Unfreed(), nextId)
    }

    ghost function Value(): Core
      reads this, tmCtrlBlock
    {
      Core(tmCtrlBlock.Value(), Events(expEvList), running, clock, nextId, delivered, cancelled, flushed)
    }

    constructor ()
      ensures Valid() && Value() == InitialCore() && fresh(tmCtrlBlock) && handles == map[] && driven == []
    {
      tmCtrlBlock := new TmBlock();
      expEvList, running, clock, nextId, handles, driven := [], false, 0, 0, map[], [];
      delivered, cancelled, flushed := [], [], [];
    }

    /** Schedule an event; `now` is what the clock shows. */
    method TmEvAdd(delay: nat, now: int) returns (pE: TmEvent)
      requires Valid() && delay < U32 && now == clock
      modifies this`nextId, this`handles, tmCtrlBlock, tmCtrlBlock.nodes
      ensures Valid() && Value() == Added(old(Value()), Scheduled(old(Value()), delay))
      ensures fresh(pE) && handles == old(handles)[pE.id := pE] && pE.id == old(nextId)
      ensures pE.expire == now + DelayNs(delay) && pE in tmCtrlBlock.nodes
      ensures delay == 0 ==> pE.expire == now + 10_000
      ensures 0 < delay && 10 * delay < 0x1_0000_0000 ==> pE.expire == now + 10_000 * delay
      ensures forall n :: n in tmCtrlBlock.nodes ==> n in old(tmCtrlBlock.nodes) || n == pE
    {
      DelayLength(delay);
      var expire := ExpireAt(delay, now);
      pE := AddAt(expire, Scheduled(Value(), delay));
    }

    static method ExpireAt(delay: nat, now: int) returns (expire: int)
      requires delay < U32
      ensures expire == now + DelayNs(delay)
      ensures delay == 0 ==> expire == now + 10_000
      ensures 0 < delay && 10 * delay < 0x1_0000_0000 ==> expire == now + 10_000 * delay
    {
      if delay == 0 {
        expire := now + 1000 * 10;
      } else {
        expire := now + 1000 * ((10 * delay) % U32);
      }
    }

    /** Allocate the event and put it in its place. */
    method AddAt(expire: int, ghost e: Ev) returns (pE: TmEvent)
      requires Valid() && e == Ev(nextId, expire)
      modifies this`nextId, this`handles, tmCtrlBlock, tmCtrlBlock.nodes
      ensures Valid() && fresh(pE) && pE.id == old(nextId) && pE.expire == expire
      ensures handles == old(handles)[pE.id := pE] && Value() == Added(old(Value()), e)
      ensures pE in tmCtrlBlock.nodes
      ensures forall n :: n in tmCtrlBlock.nodes ==> n in old(tmCtrlBlock.nodes) || n == pE
    {
      hide Kept, TmBlock.Valid, WithAdded;
      ghost var nodes, rest := tmCtrlBlock.nodes, expEvList + driven;
      ghost var k := DueCount(Events(nodes), expire);
      pE := InsertNew(expire);
      KeptMore(handles, nodes, rest, k, pE);
      handles := handles[nextId := pE];
      nextId := nextId + 1;
    }

    method InsertNew(expire: int) returns (pE: TmEvent)
      requires Valid()
      modifies tmCtrlBlock, tmCtrlBlock.nodes
      ensures tmCtrlBlock.Valid() && fresh(pE) && pE.id == nextId && pE.expire == expire
      ensures tmCtrlBlock.Value() == WithAdded(old(tmCtrlBlock.Value()), Ev(nextId, expire))
      ensures var k := DueCount(Events(old(tmCtrlBlock.nodes)), expire);
              tmCtrlBlock.nodes == old(tmCtrlBlock.nodes)[..k] + [pE] + old(tmCtrlBlock.nodes)[k..]
    {
      pE := new TmEvent(nextId, expire);
      assert pE !in tmCtrlBlock.nodes;
      tmCtrlBlock.Insert(pE);
    }

    /** Cancel an event by its handle; the event has not been freed. */
    method TmEvRmv(pE: TmEvent) returns (ok: bool)
      requires Valid() && pE in Unfreed()
      modifies this`cancelled, this`handles, tmCtrlBlock, tmCtrlBlock.nodes
      ensures Valid() && Value() == Next(old(Value()), Cancel(pE.id))
      ensures ok <==> pE in old(tmCtrlBlock.nodes)
      ensures ok == CanCancel(old(Value()).blk, pE.id)
      ensures handles == if ok then old(handles) - {pE.id} else old(handles)
      ensures forall n :: n in tmCtrlBlock.nodes ==> n in old(tmCtrlBlock.nodes)
    {
      hide Kept, TmBlock.Valid, IndexOf, Removed, WithCancelled, CanCancel;
      ghost var nodes, rest := tmCtrlBlock.nodes, expEvList + driven;
      KeptIds(handles, Unfreed(), nextId);
      ok := Unqueue(pE);
      if ok {
        ghost var k := IndexOf(Events(nodes), pE.id);
        KeptLess(handles, nodes, rest, k, nextId);
        handles := handles - {pE.id};
      }
    }

    /** Take the event out of the queue, if it is there. */
    method Unqueue(pE: TmEvent) returns (ok: bool)
      requires tmCtrlBlock.Valid() && forall n :: n in tmCtrlBlock.nodes && n.id == pE.id ==> n == pE
      modifies this`cancelled, tmCtrlBlock, tmCtrlBlock.nodes
      ensures tmCtrlBlock.Valid() && Value() == Next(old(Value()), Cancel(pE.id))
      ensures ok <==> pE in old(tmCtrlBlock.nodes)
      ensures ok == CanCancel(old(Value()).blk, pE.id)
      ensures var nodes, k := old(tmCtrlBlock.nodes), IndexOf(Events(old(tmCtrlBlock.nodes)), pE.id);
              && (ok ==> k < |nodes| && nodes[k] == pE)
              && tmCtrlBlock.nodes == if ok then nodes[..k] + nodes[k + 1..] else nodes
    {
      hide Removed, Restarted, TmBlock.Valid;
      ghost var blk, nodes := tmCtrlBlock.Value(), tmCtrlBlock.nodes;
      ok := tmCtrlBlock.Remove(pE);
      if ok {
        ghost var k := IndexOf(blk.q, pE.id);
        assert nodes[k] in nodes && nodes[k].id == pE.id;
        cancelled := cancelled + [blk.q[k]];
      }
    }

    /** The timer interrupt: move what is due to the list of expired events, then
        set the timer for the rest; true when it is restarted. */
    method TmExpire(now: int) returns (restart: bool)
      requires Valid() && now == clock && Enabled(Value(), Fire)
      modifies this`expEvList, tmCtrlBlock
      ensures Valid() && Value() == Next(old(Value()), Fire)
      ensures restart <==> tmCtrlBlock.nodes != []
    {
      hide Kept, DueCount;
      tmCtrlBlock.tmState := EXPIRE;
      EventsSplit(tmCtrlBlock.nodes, DueCount(Events(tmCtrlBlock.nodes), now), expEvList);
      MoveDue(now);
      restart := tmCtrlBlock.evQ != null;
      if restart {
        tmCtrlBlock.armed := Some(tmCtrlBlock.evQ.expire);
        tmCtrlBlock.tmState := RUN;
      } else {
        tmCtrlBlock.armed := None;
        tmCtrlBlock.tmState := STOP;
      }
    }

    /** The timer interrupt of the direct core: drive the handlers of what is due
        inside the loop. `script` says what the handlers do. */
    method TmExpireDriving(now: int, script: Script) returns (restart: bool)
      requires Valid() && now == clock && expEvList == [] && driven == [] && Ready(Value(), now) && AllTame(script)
      modifies this`nextId, this`handles, this`driven, this`clock, this`delivered, this`cancelled
      modifies tmCtrlBlock, tmCtrlBlock.nodes
      ensures Valid() && Value() == Expired(old(Value()), script)
      ensures restart <==> tmCtrlBlock.nodes != []
    {
      hide Kept, AllTame, InOrder, Drained;
      ServingInOrder(Value());
      tmCtrlBlock.tmState := EXPIRE;
      tmCtrlBlock.armed := None;
      DriveDue(now, script);
      restart := tmCtrlBlock.evQ != null;
      if restart {
        tmCtrlBlock.armed := Some(tmCtrlBlock.evQ.expire);
        tmCtrlBlock.tmState := RUN;
      } else {
        tmCtrlBlock.tmState := STOP;
      }
    }

    method DriveDue(now: int, script: Script)
      requires Valid() && driven == [] && AtRound(Value(), now, script, 0)
      modifies this`nextId, this`handles, this`driven, this`clock, this`delivered, this`cancelled
      modifies tmCtrlBlock, tmCtrlBlock.nodes
      ensures Valid() && Value() == Drained(old(Value()), now, script, 0)
    {
      hide Kept, AllTame, Elapsed, InOrder, Round, Ready, TmBlock.Valid;
      HeadIs();
      ghost var goal := Drained(Value(), now, script, 0);
      var k: nat := 0;
      while tmCtrlBlock.evQ != null && !(tmCtrlBlock.evQ.expire > now)
        invariant Valid() && driven == [] && AtRound(Value(), now, script, k)
        invariant tmCtrlBlock.evQ == if tmCtrlBlock.nodes == [] then null else tmCtrlBlock.nodes[0]
        invariant goal == Drained(Value(), now, script, k)
        invariant fresh(set n | n in tmCtrlBlock.nodes && n !in old(tmCtrlBlock.nodes))
        decreases DueCount(Events(tmCtrlBlock.nodes), now)
      {
        DrainedStep(Value(), now, script, k);
        DriveOne(script(k));
        HeadIs();
        k := k + 1;
      }
    }

    /** One round: the head is taken off and its handler runs. */
    method DriveOne(acts: seq<Action>)
      requires Valid() && driven == [] && tmCtrlBlock.evQ != null && tmCtrlBlock.nodes != [] && Narrow(acts)
      modifies this`nextId, this`handles, this`driven, this`clock, this`delivered, this`cancelled
      modifies tmCtrlBlock, tmCtrlBlock.nodes
      ensures Valid() && driven == [] && Value() == Round(old(Value()), acts)
      ensures nextId == old(nextId) + Schedules(acts) && clock == old(clock) + Waits(acts)
      ensures delivered == old(delivered) + [Events(old(tmCtrlBlock.nodes))[0]]
      ensures fresh(set n | n in tmCtrlBlock.nodes && n !in old(tmCtrlBlock.nodes))
    {
      hide Kept, Handle, TmBlock.Valid;
      ghost var nodes := tmCtrlBlock.nodes;
      var pE := TakeHead();
      forall n | n in tmCtrlBlock.nodes ensures n in nodes {
      }
      HandleCreates(Value(), acts);
      HandleClock(Value(), acts);
      RunHandler(acts);
      FreeDriven(pE);
    }

    /** The event is freed when its handler has returned. */
    method FreeDriven(pE: TmEvent)
      requires Valid() && driven == [pE]
      modifies this`handles, this`driven
      ensures Valid() && driven == [] && Value() == old(Value())
    {
      hide Kept, TmBlock.Valid;
      ghost var others := tmCtrlBlock.nodes + expEvList;
      assert Unfreed() == (others + [pE]) + [];
      KeptLess(handles, others + [pE], [], |others|, nextId);
      handles := handles - {pE.id};
      driven := [];
      assert Unfreed() == (others + [pE])[..|others|] + (others + [pE])[|others| + 1..] + [];
    }

    /** Take the head off; its delivery is on record. */
    method TakeHead() returns (pE: TmEvent)
      requires Valid() && driven == [] && tmCtrlBlock.evQ != null && tmCtrlBlock.nodes != []
      modifies this`delivered, this`driven, tmCtrlBlock`evQ, tmCtrlBlock`nodes
      ensures Valid() && Value() == Popped(old(Value()))
      ensures tmCtrlBlock.nodes == old(tmCtrlBlock.nodes)[1..] && driven == [pE] && pE == old(tmCtrlBlock.nodes)[0]
    {
      hide Kept, TmBlock.Valid;
      delivered := delivered + [Events(tmCtrlBlock.nodes)[0]];
      KeptDriven(handles, tmCtrlBlock.nodes, expEvList, nextId);
      pE := tmCtrlBlock.PopHead();
      driven := [pE];
    }

    /** A handler: it schedules and cancels while the interrupt is served. */
    method RunHandler(acts: seq<Action>)
      requires Valid() && Narrow(acts)
      modifies this`nextId, this`handles, this`clock, this`cancelled, tmCtrlBlock, tmCtrlBlock.nodes
      ensures Valid() && Value() == Handle(old(Value()), acts)
      ensures fresh(set n | n in tmCtrlBlock.nodes && n !in old(tmCtrlBlock.nodes))
    {
      ghost var c := Value();
      var i := 0;
      while i < |acts|
        invariant i <= |acts| && Valid() && Value() == Handle(c, acts[..i])
        invariant fresh(set n | n in tmCtrlBlock.nodes && n !in old(tmCtrlBlock.nodes))
      {
        HandleStep(c, acts, i);
        RunAction(acts[i]);
        i := i + 1;
      }
      assert acts[..i] == acts;
    }

    method RunAction(a: Action)
      requires Valid() && (a.Schedule? ==> a.delay < U32)
      modifies this`nextId, this`handles, this`clock, this`cancelled, tmCtrlBlock, tmCtrlBlock.nodes
      ensures Valid() && Value() == Act(old(Value()), a)
      ensures fresh(set n | n in tmCtrlBlock.nodes && n !in old(tmCtrlBlock.nodes))
    {
      clock := clock + a.wait;
      ghost var t := Value();
      assert t == Waited(old(Value()), a.wait);
      if a.Schedule? {
        RunSchedule(a.delay);
      } else {
        RunWithdraw(a.id);
      }
    }

    method RunSchedule(delay: nat)
      requires Valid() && delay < U32
      modifies this`nextId, this`handles, tmCtrlBlock, tmCtrlBlock.nodes
      ensures Valid() && Value() == Added(old(Value()), Scheduled(old(Value()), delay))
      ensures fresh(set n | n in tmCtrlBlock.nodes && n !in old(tmCtrlBlock.nodes))
    {
      var pE := TmEvAdd(delay, clock);
    }

    method RunWithdraw(id: nat)
      requires Valid()
      modifies this`cancelled, this`handles, tmCtrlBlock, tmCtrlBlock.nodes
      ensures Valid() && Value() == Withdrawn(old(Value()), id)
      ensures forall n :: n in tmCtrlBlock.nodes ==> n in old(tmCtrlBlock.nodes)
    {
      hide Kept;
      KeptIds(handles, Unfreed(), nextId);
      if id in handles {
        var ok := TmEvRmv(handles[id]);
      } else {
        UnknownId(id);
      }
    }

    lemma UnknownId(id: nat)
      requires Valid() && id !in handles
      ensures !CanCancel(tmCtrlBlock.Value(), id)
    {
      assert forall i :: 0 <= i < |tmCtrlBlock.nodes| ==> tmCtrlBlock.nodes[i] in Unfreed();
    }

    method MoveDue(now: int)
      requires Valid()
      modifies this`expEvList, tmCtrlBlock`evQ, tmCtrlBlock`nodes
      ensures Valid()
      ensures var n := DueCount(Events(old(tmCtrlBlock.nodes)), now);
              && tmCtrlBlock.nodes == old(tmCtrlBlock.nodes)[n..]
              && expEvList == old(expEvList) + old(tmCtrlBlock.nodes)[..n]
    {
      hide Kept, TmBlock.Valid, DueCount;
      KeptMoved(handles, tmCtrlBlock.nodes, expEvList, driven, DueCount(Events(tmCtrlBlock.nodes), now), nextId);
      MoveNodes(now);
    }

    /** The loop of the interrupt. */
    method MoveNodes(now: int)
      requires tmCtrlBlock.Valid()
      modifies this`expEvList, tmCtrlBlock`evQ, tmCtrlBlock`nodes
      ensures tmCtrlBlock.Valid()
      ensures var n := DueCount(Events(old(tmCtrlBlock.nodes)), now);
              && tmCtrlBlock.nodes == old(tmCtrlBlock.nodes)[n..]
              && expEvList == old(expEvList) + old(tmCtrlBlock.nodes)[..n]
    {
      hide DueCount, TmBlock.Valid;
      HeadIs();
      ghost var nodes, waiting, q := tmCtrlBlock.nodes, expEvList, Events(tmCtrlBlock.nodes);
      ghost var k := 0;
      while tmCtrlBlock.evQ != null && !(tmCtrlBlock.evQ.expire > now)
        invariant tmCtrlBlock.Valid() && k <= |nodes| && tmCtrlBlock.nodes == nodes[k..]
        invariant tmCtrlBlock.evQ == if k == |nodes| then null else nodes[k]
        invariant expEvList == waiting + nodes[..k]
        invariant forall i :: 0 <= i < k ==> q[i].expire <= now
        decreases |nodes| - k
      {
        MoveOne(nodes, waiting, k);
        var pE := tmCtrlBlock.PopHead();
        expEvList := expEvList + [pE];
        k := k + 1;
        HeadIs();
      }
      DueCountIs(q, now, k);
    }

    /** The queue is entered at its head. */
    lemma HeadIs()
      requires tmCtrlBlock.Valid()
      ensures tmCtrlBlock.evQ == if tmCtrlBlock.nodes == [] then null else tmCtrlBlock.nodes[0]
    {
    }

    /** The tasklet takes the first expired event and drives its state machine;
        the event stays listed until the handler returns. */
    method PendingBegin() returns (pE: TmEvent)
      requires Valid() && Enabled(Value(), BeginDrain)
      modifies this`running, this`delivered
      ensures Valid() && Value() == Next(old(Value()), BeginDrain) && pE == expEvList[0]
    {
      pE := expEvList[0];
      running := true;
      delivered := delivered + [Events(expEvList)[0]];
    }

    method PendingEnd()
      requires Valid() && Enabled(Value(), EndDrain)
      modifies this`running, this`expEvList, this`handles
      ensures Valid() && Value() == Next(old(Value()), EndDrain)
    {
      hide Kept;
      ghost var nodes, was := tmCtrlBlock.nodes, expEvList;
      assert Unfreed() == (nodes + was) + driven;
      KeptLess(handles, nodes + was, driven, |nodes|, nextId);
      running := false;
      handles := handles - {expEvList[0].id};
      expEvList := expEvList[1..];
      assert Unfreed() == (nodes + was)[..|nodes|] + (nodes + was)[|nodes| + 1..] + driven;
    }

    /** Closing the core stops the timer and frees both lists. */
    method Close()
      requires Valid() && !running && driven == []
      modifies this`expEvList, this`handles, this`flushed, tmCtrlBlock
      ensures Valid() && Value() == Next(old(Value()), DeferredTimers.Op.Close)
      ensures tmCtrlBlock.nodes == [] && expEvList == [] && handles == map[]
      ensures tmCtrlBlock.tmState == STOP && tmCtrlBlock.armed == None
      ensures flushed == old(flushed) + Events(old(tmCtrlBlock.nodes)) + Events(old(expEvList))
    {
      flushed := flushed + Events(tmCtrlBlock.nodes) + Events(expEvList);
      ghost var all := flushed;
      tmCtrlBlock.Stop();
      tmCtrlBlock.Flush();
      while expEvList != []
        invariant tmCtrlBlock.Valid() && tmCtrlBlock.Value() == Block([], STOP, None)
        invariant flushed == all
        decreases |expEvList|
      {
        expEvList := expEvList[1..];
      }
      handles := map[];
    }
  }

  lemma MoveOne(nodes: seq<TmEvent>, waiting: seq<TmEvent>, k: nat)
    requires k < |nodes|
    ensures nodes[k..][0] == nodes[k] && nodes[k..][1..] == nodes[k + 1..]
    ensures waiting + nodes[..k] + [nodes[k]] == waiting + nodes[..k + 1]
    ensures Events(nodes)[k] == Ev(nodes[k].id, nodes[k].expire)
  {
  }

  lemma EventsSplit(nodes: seq<TmEvent>, n: nat, more: seq<TmEvent>)
    requires n <= |nodes|
    ensures Events(nodes[n..]) == Events(nodes)[n..]
    ensures Events(more + nodes[..n]) == Events(more) + Events(nodes)[..n]
  {
  }
}
