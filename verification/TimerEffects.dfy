/** What the operations of the FSM core achieve, in the states that runs reach:
    an added event gets its expiry, a cancelled one is taken out, closing ends
    everything, and what is left alone is delivered. */
module TimerEffects {
  import opened TimerQueue
  import opened DeferredTimers
  import opened Wrappers

  // ----- adding -----

  /** From `c` to `d` exactly one event has been queued, which expires ten
      microseconds later for each unit of its delay, and for none; nothing else has changed. */
  ghost predicate Queues(c: Core, d: Core, delay: nat) {
    && (delay == 0 ==> Ev(c.nextId, c.clock + 10_000) in d.blk.q)
    && (0 < delay && 10 * delay < 0x1_0000_0000 ==> Ev(c.nextId, c.clock + 10_000 * delay) in d.blk.q)
    && (exists e: Ev :: e.id == c.nextId && multiset(d.blk.q) == multiset(c.blk.q) + multiset{e})
    && d == c.(blk := d.blk, nextId := c.nextId + 1)
  }

  lemma AddQueues(c: Core, delay: nat)
    requires delay < U32
    ensures Queues(c, Next(c, Add(delay)), delay)
  {
    var e := Scheduled(c, delay);
    NextAdd(c, delay);
    WithAddedQueue(c.blk, e);
    InsertedOnce(c.blk.q, e);
    InsertedMembers(c.blk.q, e);
    DelayLength(delay);
  }

  /** An addition does so in every state of every run. */
  lemma AddExpires(ops: seq<Op>, delay: nat)
    requires delay < U32
    ensures Queues(Behave(ops), Behave(ops + [Add(delay)]), delay)
  {
    AddQueues(Behave(ops), delay);
    BehaveStep(ops, Add(delay));
  }

  lemma InsertedOnce(q: seq<Ev>, e: Ev)
    ensures multiset(Inserted(q, e)) == multiset(q) + multiset{e}
  {
    var k := DueCount(q, e.expire);
    assert q == q[..k] + q[k..];
  }

  // ----- cancelling -----

  /** Identities in the queue are distinct. */
  lemma PendingOnce(c: Core, e: Ev)
    requires Conserved(c) && e in c.blk.q
    ensures CanCancel(c.blk, e.id) && c.blk.q[IndexOf(c.blk.q, e.id)] == e
  {
    var k := IndexOf(c.blk.q, e.id);
    var i :| 0 <= i < |c.blk.q| && c.blk.q[i] == e;
    assert multiset(Ids(c.blk.q))[e.id] <= Ledger(c)[e.id] <= 1;
    if k < i {
      TwiceCounted(c.blk.q, k, i);
    }
  }

  lemma TwiceCounted(q: seq<Ev>, k: nat, i: nat)
    requires k < i < |q| && q[k].id == q[i].id
    ensures multiset(Ids(q))[q[i].id] >= 2
  {
    var a, b := q[..i], q[i..];
    assert q == a + b;
    IdsConcat(a, b);
    assert a[k] == q[k] && b[0] == q[i];
    IdCounted(a, a[k]);
    IdCounted(b, b[0]);
  }

  /** From `c` to `d` the event has been taken out of the queue, and no other. */
  ghost predicate Cancels(c: Core, d: Core, e: Ev) {
    && d.cancelled == c.cancelled + [e] && multiset(c.blk.q) == multiset(d.blk.q) + multiset{e}
    && e !in d.blk.q && d == c.(blk := d.blk, cancelled := d.cancelled)
  }

  lemma CancelCancels(c: Core, e: Ev)
    requires Conserved(c) && e in c.blk.q
    ensures Cancels(c, Next(c, Cancel(e.id)), e)
  {
    hide Ledger, IndexOf, Removed;
    var d := Next(c, Cancel(e.id));
    PendingOnce(c, e);
    WithCancelledQueue(c.blk, e.id);
    RemovedOnce(c.blk.q, e.id);
    CancelLedger(c, e.id);
    NotPending(d, e);
  }

  lemma NotPending(c: Core, e: Ev)
    requires Conserved(c) && e in c.cancelled
    ensures e !in c.blk.q
  {
    assert Ledger(c)[e.id] <= 1;
    IdCounted(c.cancelled, e);
    if e in c.blk.q {
      IdCounted(c.blk.q, e);
    }
  }

  /** Cancelling a pending event does so in every state of every run. */
  lemma CancelTakesOut(ops: seq<Op>, e: Ev)
    requires e in Behave(ops).blk.q
    ensures Cancels(Behave(ops), Behave(ops + [Cancel(e.id)]), e)
  {
    AlwaysConserved(ops);
    CancelCancels(Behave(ops), e);
    BehaveStep(ops, Cancel(e.id));
  }

  lemma RemovedOnce(q: seq<Ev>, id: nat)
    requires IndexOf(q, id) < |q|
    ensures multiset(q) == multiset(Removed(q, id)) + multiset{q[IndexOf(q, id)]}
  {
    SplitAt(q, IndexOf(q, id));
  }

  // ----- closing -----

  /** From `c` to `d` the timer has been stopped and both lists have been emptied;
      what they held is freed, and there is nothing to fire or to drive. */
  ghost predicate Closes(c: Core, d: Core) {
    && d.blk.q == [] && d.waiting == [] && d.blk.state == STOP && d.blk.armed == None
    && d.flushed == c.flushed + c.blk.q + c.waiting && !Enabled(d, Fire) && !Enabled(d, BeginDrain)
    && d == c.(blk := d.blk, waiting := [], flushed := d.flushed)
  }

  lemma CloseStops(ops: seq<Op>)
    requires !Behave(ops).running
    ensures Closes(Behave(ops), Behave(ops + [Close]))
  {
    BehaveStep(ops, Close);
  }

  /** What is pending or waits when the core is closed is never handed to a state
      machine, whatever follows. */
  lemma FlushedNeverDelivered(ops: seq<Op>, more: seq<Op>, e: Ev, f: Ev)
    requires !Behave(ops).running && (e in Behave(ops).blk.q || e in Behave(ops).waiting)
    requires f in Behave(ops + [Close] + more).delivered
    ensures e in Behave(ops + [Close] + more).flushed && e.id != f.id
  {
    CloseStops(ops);
    TracesGrow(ops + [Close], more);
    AlwaysConserved(ops + [Close] + more);
    assert e in Behave(ops + [Close]).flushed;
    GoneNotDelivered(Behave(ops + [Close] + more), e, f);
  }

  // ----- delivery -----

  /** The tasklet runs the handlers of `n` events. */
  function Tasklet(n: nat): seq<Op> {
    if n == 0 then [] else Tasklet(n - 1) + [BeginDrain] + [EndDrain]
  }

  /** It hands up the first `n` expired events, in order, and nothing else happens. */
  lemma {:induction false} TaskletDelivers(ops: seq<Op>, n: nat)
    requires !Behave(ops).running && n <= |Behave(ops).waiting|
    ensures var c := Behave(ops);
            Behave(ops + Tasklet(n)) == c.(delivered := c.delivered + c.waiting[..n], waiting := c.waiting[n..])
    decreases n
  {
    hide Behave;
    var c := Behave(ops);
    if n == 0 {
      assert ops + Tasklet(0) == ops && c.delivered + c.waiting[..0] == c.delivered && c.waiting[0..] == c.waiting;
    } else {
      TaskletDelivers(ops, n - 1);
      var most := ops + Tasklet(n - 1);
      BehaveStep(most, BeginDrain);
      BehaveStep(most + [BeginDrain], EndDrain);
      assert ops + Tasklet(n) == most + [BeginDrain] + [EndDrain];
      var e := c.waiting[n - 1];
      assert c.waiting[n - 1..][0] == e && c.waiting[n - 1..][1..] == c.waiting[n..];
      assert c.waiting[..n] == c.waiting[..n - 1] + [e];
      assert c.delivered + c.waiting[..n - 1] + [e] == c.delivered + c.waiting[..n];
    }
  }

  /** The handler that runs returns, the clock moves on, the timer goes off and
      the tasklet runs `n` handlers. */
  function CatchUp(c: Core, ns: nat): seq<Op> {
    (if c.running then [EndDrain] else []) + [Tick(ns)] + [Fire] + Tasklet(|Backlog(c)| + |c.blk.q|)
  }

  /** Nothing is forgotten: from any state of any run, once enough time has passed
      the timer goes off and the tasklet hands up everything that has expired and
      everything that was pending, in that order, and the timer is stopped. */
  lemma EverythingDelivered(ops: seq<Op>, ns: nat)
    requires var c := Behave(ops); forall e :: e in c.blk.q ==> e.expire <= c.clock + ns
    ensures var c := Behave(ops);
            var d := Behave(ops + CatchUp(c, ns));
            && d.delivered == Line(c) == c.delivered + Backlog(c) + c.blk.q
            && d.waiting == [] && !d.running && d.blk == Block([], STOP, None) && d.clock == c.clock + ns
            && d.cancelled == c.cancelled && d.flushed == c.flushed
  {
    hide Behave, InOrder, Ordered, DueCount, Settled, Fired, Tasklet;
    var c := Behave(ops);
    var idle := ops + if c.running then [EndDrain] else [];
    ReturnedFirst(ops);
    BehaveStep(idle, Tick(ns));
    BehaveStep(idle + [Tick(ns)], Fire);
    var t := Behave(idle + [Tick(ns)]);
    AlwaysInOrder(idle + [Tick(ns)]);
    AllFires(t);
    var due := idle + [Tick(ns)] + [Fire];
    var d := Behave(due);
    var n := |Backlog(c)| + |c.blk.q|;
    assert d.waiting == Backlog(c) + c.blk.q && |d.waiting| == n;
    TaskletDelivers(due, n);
    assert d.waiting[..n] == d.waiting && d.waiting[n..] == [];
    assert ops + CatchUp(c, ns) == due + Tasklet(n);
    assert c.delivered + (Backlog(c) + c.blk.q) == Line(c);
  }

  lemma ReturnedFirst(ops: seq<Op>)
    ensures var c := Behave(ops);
            Behave(ops + if c.running then [EndDrain] else []) == c.(running := false, waiting := Backlog(c))
  {
    var c := Behave(ops);
    if c.running {
      AlwaysInOrder(ops);
      BehaveStep(ops, EndDrain);
    } else {
      assert ops + [] == ops;
    }
  }

  /** With everything due the timer goes off and takes the whole queue. */
  lemma AllFires(c: Core)
    requires Settled(c.blk) && !c.running && forall e :: e in c.blk.q ==> e.expire <= c.clock
    ensures Next(c, Fire) == c.(blk := Block([], STOP, None), waiting := c.waiting + c.blk.q)
  {
    DueCountIs(c.blk.q, c.clock, |c.blk.q|);
    assert c.blk.q[..|c.blk.q|] == c.blk.q && c.waiting + [] == c.waiting;
  }
}
