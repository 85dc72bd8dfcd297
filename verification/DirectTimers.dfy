/** The FSM core whose timer interrupt drives the state machines itself: the
    loop over expired events calls handlers that schedule and cancel events on
    the queue the loop is working on. */
module DirectTimers {
  import opened TimerQueue
  import opened DeferredTimers
  import opened Wrappers

  /** What a handler does, each time after some nanoseconds. */
  datatype Action = Schedule(wait: nat, delay: nat) | Withdraw(wait: nat, id: nat)

  /** What the handler of the `k`-th event driven in one interrupt does. */
  type Script = nat -> seq<Action>

  const WRAPPED := 0x8000_0000

  /** Delays have thirty-two bits. */
  ghost predicate Narrow(acts: seq<Action>) {
    forall i :: 0 <= i < |acts| ==> acts[i].Schedule? ==> acts[i].delay < U32
  }

  /** The one delay whose product with ten wraps to zero is not used as long as
      the clock still shows the instant the interrupt has captured; `late` is how
      far the clock has moved on from it before the action. */
  predicate TameAction(a: Action, late: nat) {
    a.Schedule? ==> a.delay < U32 && (a.delay == WRAPPED ==> late + a.wait > 0)
  }

  /** The time a handler takes. */
  function Waits(acts: seq<Action>): nat {
    if acts == [] then 0 else Waits(acts[..|acts| - 1]) + acts[|acts| - 1].wait
  }

  ghost predicate Tame(acts: seq<Action>, late: nat) {
    forall i :: 0 <= i < |acts| ==> TameAction(acts[i], late + Waits(acts[..i]))
  }

  /** The time the handlers of the first `k` events take. */
  function Elapsed(script: Script, k: nat): nat {
    if k == 0 then 0 else Elapsed(script, k - 1) + Waits(script(k - 1))
  }

  ghost predicate TameRound(script: Script, k: nat) { Tame(script(k), Elapsed(script, k)) }

  ghost predicate AllTame(script: Script) { forall k :: TameRound(script, k) }

  lemma TameIsNarrow(acts: seq<Action>, late: nat)
    requires Tame(acts, late)
    ensures Narrow(acts)
  {
    assert forall i :: 0 <= i < |acts| ==> TameAction(acts[i], late + Waits(acts[..i]));
  }

  function Waited(c: Core, ns: nat): Core { c.(clock := c.clock + ns) }

  function Act(c: Core, a: Action): Core
    requires a.Schedule? ==> a.delay < U32
  {
    var t := Waited(c, a.wait);
    match a
    case Schedule(_, delay) => Added(t, Scheduled(t, delay))
    case Withdraw(_, id) => Withdrawn(t, id)
  }

  function Handle(c: Core, acts: seq<Action>): Core
    requires Narrow(acts)
    decreases |acts|
  {
    if acts == [] then c else Act(Handle(c, acts[..|acts| - 1]), acts[|acts| - 1])
  }

  lemma HandleStep(c: Core, acts: seq<Action>, i: nat)
    requires Narrow(acts) && i < |acts|
    ensures Handle(c, acts[..i + 1]) == Act(Handle(c, acts[..i]), acts[i])
  {
    assert acts[..i + 1][..i] == acts[..i] && acts[..i + 1][i] == acts[i];
  }

  lemma {:induction false} HandleClock(c: Core, acts: seq<Action>)
    requires Narrow(acts)
    ensures Handle(c, acts).clock == c.clock + Waits(acts)
    decreases |acts|
  {
    if acts != [] {
      HandleClock(c, acts[..|acts| - 1]);
    }
  }

  /** How many events a handler schedules. */
  function Schedules(acts: seq<Action>): nat {
    if acts == [] then 0
    else Schedules(acts[..|acts| - 1]) + if acts[|acts| - 1].Schedule? then 1 else 0
  }

  lemma ActTraces(c: Core, a: Action)
    requires a.Schedule? ==> a.delay < U32
    ensures var d := Act(c, a);
            && c.cancelled <= d.cancelled && d.delivered == c.delivered && d.flushed == c.flushed
            && d.nextId == c.nextId + (if a.Schedule? then 1 else 0)
  {
  }

  /** A handler creates exactly the events it schedules, and withdraws no cancellation. */
  lemma {:induction false} HandleCreates(c: Core, acts: seq<Action>)
    requires Narrow(acts)
    ensures var d := Handle(c, acts);
            && d.nextId == c.nextId + Schedules(acts) && c.cancelled <= d.cancelled
            && d.delivered == c.delivered && d.flushed == c.flushed
    decreases |acts|
  {
    if acts != [] {
      HandleCreates(c, acts[..|acts| - 1]);
      ActTraces(Handle(c, acts[..|acts| - 1]), acts[|acts| - 1]);
    }
  }

  /** The head of the queue is taken off and handed to its state machine. */
  function Popped(c: Core): Core
    requires c.blk.q != []
  {
    c.(blk := c.blk.(q := c.blk.q[1..]), delivered := c.delivered + [c.blk.q[0]])
  }

  // ----- the queue shrinks -----

  lemma DueIff(q: seq<Ev>, t: int)
    requires Ordered(q)
    ensures forall i :: 0 <= i < |q| ==> (q[i].expire <= t <==> i < DueCount(q, t))
  {
    var n := DueCount(q, t);
    forall i | n <= i < |q| ensures q[i].expire > t {
      assert n < i ==> Precedes(q[n], q[i]);
    }
  }

  /** An insertion adds to the due events exactly if the event itself is due. */
  lemma InsertedDue(q: seq<Ev>, e: Ev, now: int)
    requires Ordered(q)
    ensures DueCount(Inserted(q, e), now) == DueCount(q, now) + if e.expire <= now then 1 else 0
  {
    var k, n := DueCount(q, e.expire), DueCount(q, now);
    DueIff(q, now);
    DueIff(q, e.expire);
    if e.expire <= now {
      assert k > 0 ==> q[k - 1].expire <= now;
      SplicedDue(q, e, k, now, n + 1);
    } else {
      assert n > 0 ==> q[n - 1].expire <= e.expire;
      SplicedDue(q, e, k, now, n);
    }
  }

  lemma SplicedDue(q: seq<Ev>, e: Ev, k: nat, now: int, m: nat)
    requires k <= |q| && m <= |q| + 1
    requires if e.expire <= now then k < m else m <= k
    requires forall i :: 0 <= i < |q| ==> (q[i].expire <= now <==> i < if e.expire <= now then m - 1 else m)
    ensures DueCount(q[..k] + [e] + q[k..], now) == m
  {
    var r := q[..k] + [e] + q[k..];
    forall i | 0 <= i < |r| ensures r[i].expire <= now <==> i < m {
      assert r[i] == if i < k then q[i] else if i == k then e else q[i - 1];
    }
    DueCountIs(r, now, m);
  }

  lemma RemovedDue(q: seq<Ev>, id: nat, now: int)
    requires Ordered(q)
    ensures DueCount(Removed(q, id), now) <= DueCount(q, now)
  {
    var k, n, r := IndexOf(q, id), DueCount(q, now), Removed(q, id);
    DueIff(q, now);
    if k < |q| {
      var m := if k < n then n - 1 else n;
      forall i | 0 <= i < |r| ensures r[i].expire <= now <==> i < m {
        assert r[i] == if i < k then q[i] else q[i + 1];
      }
      DueCountIs(r, now, m);
    }
  }

  /** While an interrupt is served: either no timer call has been made, or a
      cancellation emptied the queue and nothing due is left. */
  ghost predicate Serving(b: Block, now: int) {
    (b.state == EXPIRE && b.armed == None) || (Settled(b) && DueCount(b.q, now) == 0)
  }

  /** What no action spoils, for the instant `now` captured by the interrupt. */
  ghost predicate Keeps(c: Core, d: Core, now: int) {
    && InOrder(d) && d.clock >= now && DueCount(d.blk.q, now) <= DueCount(c.blk.q, now)
    && (Serving(c.blk, now) ==> Serving(d.blk, now))
    && d.delivered == c.delivered && d.flushed == c.flushed
    && d.running == c.running && d.waiting == c.waiting
  }

  lemma KeepsFurther(c: Core, b: Core, d: Core, now: int)
    requires Keeps(c, b, now) && Keeps(b, d, now)
    ensures Keeps(c, d, now)
  {
  }

  lemma WaitOk(c: Core, ns: nat, now: int)
    requires InOrder(c) && c.clock >= now
    ensures Keeps(c, Waited(c, ns), now)
  {
    TickInOrder(c, ns);
  }

  /** An event expires behind the captured instant, unless its delay has wrapped
      and the clock has not moved on. */
  lemma ScheduledLater(t: Core, delay: nat, now: int)
    requires delay < U32 && t.clock >= now
    ensures Scheduled(t, delay).expire >= t.clock
    ensures Scheduled(t, delay).expire <= now <==> delay == WRAPPED && t.clock == now
  {
    DelayIsPositive(delay);
  }

  /** An action makes one more event due exactly when it schedules with the
      wrapped delay while the clock still shows the captured instant. */
  lemma MoreDueIffWrapped(c: Core, a: Action, now: int)
    requires InOrder(c) && c.clock >= now && (a.Schedule? ==> a.delay < U32)
    ensures DueCount(Act(c, a).blk.q, now) > DueCount(c.blk.q, now)
       <==> a.Schedule? && a.delay == WRAPPED && a.wait == 0 && c.clock == now
  {
    var t := Waited(c, a.wait);
    if a.Schedule? {
      var e := Scheduled(t, a.delay);
      ScheduledLater(t, a.delay, now);
      QueueOrdered(c);
      WithAddedQueue(t.blk, e);
      InsertedDue(c.blk.q, e, now);
    } else {
      ActOk(c, a, now);
    }
  }

  lemma ActOk(c: Core, a: Action, now: int)
    requires InOrder(c) && c.clock >= now && TameAction(a, c.clock - now)
    ensures Keeps(c, Act(c, a), now)
  {
    var t, d := Waited(c, a.wait), Act(c, a);
    WaitOk(c, a.wait, now);
    assert Keeps(t, d, now) by {
      if a.Schedule? {
        ScheduledLater(t, a.delay, now);
        ScheduleOk(t, Scheduled(t, a.delay), now);
      } else {
        WithdrawOk(t, a.id, now);
      }
    }
    KeepsFurther(c, t, d, now);
  }

  lemma QueueOrdered(c: Core)
    requires InOrder(c)
    ensures Ordered(c.blk.q)
  {
    OrderedParts(c.delivered + Backlog(c), c.blk.q);
  }

  lemma ScheduleOk(c: Core, e: Ev, now: int)
    requires InOrder(c) && c.clock >= now && e.id == c.nextId && e.expire >= c.clock && e.expire > now
    ensures Keeps(c, Added(c, e), now)
  {
    QueueOrdered(c);
    AddInOrder(c, e);
    WithAddedQueue(c.blk, e);
    InsertedDue(c.blk.q, e, now);
    if Settled(c.blk) {
      AddKeepsSettled(c.blk, e);
    }
  }

  lemma WithdrawOk(c: Core, id: nat, now: int)
    requires InOrder(c) && c.clock >= now
    ensures Keeps(c, Withdrawn(c, id), now)
  {
    QueueOrdered(c);
    CancelInOrder(c, id);
    WithCancelledQueue(c.blk, id);
    RemovedDue(c.blk.q, id, now);
    if Settled(c.blk) {
      CancelKeepsSettled(c.blk, id);
    }
  }

  lemma {:induction false} HandleOk(c: Core, acts: seq<Action>, now: int)
    requires InOrder(c) && c.clock >= now && Tame(acts, c.clock - now)
    ensures Narrow(acts) && Keeps(c, Handle(c, acts), now)
    decreases |acts|
  {
    TameIsNarrow(acts, c.clock - now);
    if acts != [] {
      var n := |acts| - 1;
      TamePrefix(acts, c.clock - now, n);
      HandleOk(c, acts[..n], now);
      HandleClock(c, acts[..n]);
      ActOk(Handle(c, acts[..n]), acts[n], now);
    }
  }

  lemma TamePrefix(acts: seq<Action>, late: nat, n: nat)
    requires Tame(acts, late) && n <= |acts|
    ensures Tame(acts[..n], late)
  {
    forall i | 0 <= i < n ensures TameAction(acts[..n][i], late + Waits(acts[..n][..i])) {
      assert acts[..n][..i] == acts[..i];
    }
  }

  /** The loop may be entered or go round again. */
  ghost predicate Ready(c: Core, now: int) {
    InOrder(c) && !c.running && c.waiting == [] && c.clock >= now
  }

  lemma PoppedOk(c: Core, now: int)
    requires Ready(c, now) && DueCount(c.blk.q, now) > 0
    ensures Ready(Popped(c), now) && DueCount(Popped(c).blk.q, now) == DueCount(c.blk.q, now) - 1
    ensures Serving(c.blk, now) ==> Serving(Popped(c).blk, now)
  {
    var d := Popped(c);
    assert c.blk.q == [c.blk.q[0]] + c.blk.q[1..];
    assert Backlog(c) == [] && Backlog(d) == [];
    assert Line(d) == Line(c);
  }

  // ----- the loop of the interrupt -----

  /** One round: take the head off and let its handler run. */
  function Round(c: Core, acts: seq<Action>): Core
    requires c.blk.q != [] && Narrow(acts)
  {
    Handle(Popped(c), acts)
  }

  lemma RoundOk(c: Core, acts: seq<Action>, now: int)
    requires Ready(c, now) && DueCount(c.blk.q, now) > 0 && Tame(acts, c.clock - now)
    ensures Narrow(acts)
    ensures var d := Round(c, acts);
            && Ready(d, now) && d.clock == c.clock + Waits(acts) && DueCount(d.blk.q, now) < DueCount(c.blk.q, now)
            && (Serving(c.blk, now) ==> Serving(d.blk, now))
            && d.delivered == c.delivered + [c.blk.q[0]] && d.flushed == c.flushed
            && d.nextId == c.nextId + Schedules(acts) && c.cancelled <= d.cancelled
  {
    PoppedOk(c, now);
    TameIsNarrow(acts, c.clock - now);
    HandleCreates(Popped(c), acts);
    HandleOk(Popped(c), acts, now);
    HandleClock(Popped(c), acts);
  }

  /** The loop stands before its round `k`. */
  ghost predicate AtRound(c: Core, now: int, script: Script, k: nat) {
    Ready(c, now) && AllTame(script) && c.clock == now + Elapsed(script, k)
  }

  /** The loop: rounds while the head is due. It ends because handlers cannot
      add anything that is due. */
  ghost function Drained(c: Core, now: int, script: Script, k: nat): Core
    requires AtRound(c, now, script, k)
    decreases DueCount(c.blk.q, now)
  {
    if DueCount(c.blk.q, now) == 0 then c
    else
      assert TameRound(script, k);
      RoundOk(c, script(k), now);
      Drained(Round(c, script(k)), now, script, k + 1)
  }

  /** One round of the loop. */
  lemma RoundAt(c: Core, now: int, script: Script, k: nat)
    requires AtRound(c, now, script, k) && DueCount(c.blk.q, now) > 0
    ensures Narrow(script(k))
    ensures var b := Round(c, script(k));
            && AtRound(b, now, script, k + 1) && DueCount(b.blk.q, now) < DueCount(c.blk.q, now)
            && (Serving(c.blk, now) ==> Serving(b.blk, now))
            && b.delivered == c.delivered + [c.blk.q[0]] && b.flushed == c.flushed
            && Drained(c, now, script, k) == Drained(b, now, script, k + 1)
  {
    hide Handle, Waits, Round, Ready, Serving;
    assert TameRound(script, k);
    RoundOk(c, script(k), now);
  }

  lemma DrainedStep(c: Core, now: int, script: Script, k: nat)
    requires AtRound(c, now, script, k) && c.blk.q != [] && c.blk.q[0].expire <= now
    ensures Narrow(script(k)) && AtRound(Round(c, script(k)), now, script, k + 1)
    ensures DueCount(Round(c, script(k)).blk.q, now) < DueCount(c.blk.q, now)
    ensures Drained(c, now, script, k) == Drained(Round(c, script(k)), now, script, k + 1)
  {
    assert TameRound(script, k);
    RoundOk(c, script(k), now);
  }

  /** The interrupt: with the state set, the loop, and the timer set anew. */
  ghost function Expired(c: Core, script: Script): Core
    requires Ready(c, c.clock) && AllTame(script)
  {
    ServingInOrder(c);
    Rearmed(Drained(Entered(c), c.clock, script, 0))
  }

  /** The timer has gone off and the state says so. */
  function Entered(c: Core): Core { c.(blk := c.blk.(state := EXPIRE, armed := None)) }

  function Rearmed(c: Core): Core {
    if c.blk.q != [] then c.(blk := c.blk.(state := RUN, armed := Some(c.blk.q[0].expire)))
    else c.(blk := c.blk.(state := STOP))
  }

  lemma ServingInOrder(c: Core)
    requires InOrder(c)
    ensures InOrder(Entered(c))
  {
    var d := Entered(c);
    assert Line(d) == Line(c) && Backlog(d) == Backlog(c);
  }

  lemma RearmedOk(c: Core)
    requires InOrder(c)
    ensures InOrder(Rearmed(c))
    ensures c.blk.q != [] || c.blk.armed == None ==> Settled(Rearmed(c).blk)
  {
    var d := Rearmed(c);
    assert Line(d) == Line(c) && Backlog(d) == Backlog(c);
  }

  /** The loop delivers at most what was due when it started, all of it due, and
      leaves nothing due. */
  ghost predicate Served(c: Core, d: Core, now: int) {
    && Ready(d, now) && DueCount(d.blk.q, now) == 0 && d.flushed == c.flushed
    && (Serving(c.blk, now) ==> Serving(d.blk, now))
    && c.delivered <= d.delivered && |d.delivered| <= |c.delivered| + DueCount(c.blk.q, now)
    && (forall i :: |c.delivered| <= i < |d.delivered| ==> d.delivered[i].expire <= now)
  }

  lemma ServedFurther(c: Core, b: Core, d: Core, now: int)
    requires Served(b, d, now) && DueCount(b.blk.q, now) < DueCount(c.blk.q, now)
    requires b.delivered == c.delivered + [c.blk.q[0]] && b.flushed == c.flushed
    requires Serving(c.blk, now) ==> Serving(b.blk, now)
    ensures Served(c, d, now)
  {
    var n := |c.delivered|;
    assert d.delivered[n] == b.delivered[n];
    assert d.delivered[..n] == b.delivered[..n] == c.delivered;
  }

  lemma {:induction false} DrainedOk(c: Core, now: int, script: Script, k: nat)
    requires AtRound(c, now, script, k)
    ensures Served(c, Drained(c, now, script, k), now)
    decreases DueCount(c.blk.q, now)
  {
    hide Round, Elapsed, AllTame, InOrder, Serving, Settled;
    if DueCount(c.blk.q, now) > 0 {
      RoundAt(c, now, script, k);
      var b := Round(c, script(k));
      DrainedOk(b, now, script, k + 1);
      ServedFurther(c, b, Drained(b, now, script, k + 1), now);
    }
  }

  /** Re-entrant expiry: on return the order holds, the timer is settled for the
      head of the queue, every event left expires after the captured instant,
      and what was driven was due. */
  lemma ExpiredOk(c: Core, script: Script)
    requires Ready(c, c.clock) && AllTame(script)
    ensures var d := Expired(c, script);
            && Ready(d, c.clock) && Settled(d.blk) && d.flushed == c.flushed
            && (forall e :: e in d.blk.q ==> e.expire > c.clock)
            && c.delivered <= d.delivered && |d.delivered| <= |c.delivered| + DueCount(c.blk.q, c.clock)
            && (forall i :: |c.delivered| <= i < |d.delivered| ==> d.delivered[i].expire <= c.clock)
  {
    var s := Entered(c);
    ServingInOrder(c);
    DrainedOk(s, c.clock, script, 0);
    var d := Drained(s, c.clock, script, 0);
    RearmedOk(d);
    QueueOrdered(d);
    NoneDue(d.blk.q, c.clock);
  }

  lemma NoneDue(q: seq<Ev>, now: int)
    requires Ordered(q) && DueCount(q, now) == 0
    ensures forall e :: e in q ==> e.expire > now
  {
    forall e | e in q ensures e.expire > now {
      var i :| 0 <= i < |q| && q[i] == e;
      assert i > 0 ==> Precedes(q[0], q[i]);
    }
  }

  // ----- where the conditions are sharp -----

  /** During an interrupt the state leaves EXPIRE exactly when a handler cancels
      the only event in the queue; the next addition then starts the timer from
      inside its own interrupt. */
  lemma CancelDuringInterrupt(b: Block, id: nat)
    requires b.state == EXPIRE
    ensures WithCancelled(b, id).state != EXPIRE <==> |b.q| == 1 && b.q[0].id == id
  {
  }

  /** The action cancels the only event while the state is EXPIRE. */
  predicate Leaves(b: Block, a: Action) {
    b.state == EXPIRE && a.Withdraw? && |b.q| == 1 && b.q[0].id == a.id
  }

  /** Some action of the handler has left EXPIRE. */
  ghost predicate Left(c: Core, acts: seq<Action>)
    requires Narrow(acts)
  {
    exists i :: 0 <= i < |acts| && Leaves(Handle(c, acts[..i]).blk, acts[i])
  }

  /** The action reaches the restart of a timer that is already running: it puts
      an event in front of the queue, or cancels the head of several, in state RUN. */
  predicate RestartsRunning(c: Core, a: Action)
    requires a.Schedule? ==> a.delay < U32
  {
    && c.blk.state == RUN
    && match a
       case Schedule(wait, delay) => DueCount(c.blk.q, Scheduled(Waited(c, wait), delay).expire) == 0
       case Withdraw(_, id) => CanCancel(c.blk, id) && IndexOf(c.blk.q, id) == 0 && Removed(c.blk.q, id) != []
  }

  lemma LeftStep(c: Core, acts: seq<Action>)
    requires Narrow(acts) && acts != []
    ensures var fewer, a := acts[..|acts| - 1], acts[|acts| - 1];
            Left(c, acts) <==> Left(c, fewer) || Leaves(Handle(c, fewer).blk, a)
  {
    hide Handle, Leaves;
    var n := |acts| - 1;
    var fewer := acts[..n];
    forall i | 0 <= i < n ensures fewer[..i] == acts[..i] && fewer[i] == acts[i] {
    }
    if Left(c, fewer) {
      var i :| 0 <= i < |fewer| && Leaves(Handle(c, fewer[..i]).blk, fewer[i]);
      assert Leaves(Handle(c, acts[..i]).blk, acts[i]);
    }
    if Left(c, acts) {
      var i :| 0 <= i < |acts| && Leaves(Handle(c, acts[..i]).blk, acts[i]);
      if i < n {
        assert Leaves(Handle(c, fewer[..i]).blk, fewer[i]);
      }
    }
  }

  /** Until EXPIRE is left no timer call is made; from then on the timer
      follows the head of the queue. */
  lemma {:induction false} StateInHandler(c: Core, acts: seq<Action>)
    requires Narrow(acts) && c.blk.state == EXPIRE
    ensures var d := Handle(c, acts);
            if Left(c, acts) then Settled(d.blk) else d.blk.state == EXPIRE && d.blk.armed == c.blk.armed
    decreases |acts|
  {
    if acts != [] {
      var fewer, a := acts[..|acts| - 1], acts[|acts| - 1];
      var b := Handle(c, fewer);
      StateInHandler(c, fewer);
      LeftStep(c, acts);
      if a.Schedule? {
        if Left(c, fewer) {
          AddKeepsSettled(b.blk, Scheduled(Waited(b, a.wait), a.delay));
        }
      } else if Left(c, fewer) {
        CancelKeepsSettled(b.blk, a.id);
      } else {
        CancelDuringInterrupt(b.blk, a.id);
      }
    }
  }

  /** Inside an interrupt a running timer is restarted if and only if the handler
      has cancelled the only event before, something is queued again, and the
      action puts an event in front of it or cancels the head of several. */
  lemma RestartInInterrupt(c: Core, acts: seq<Action>, a: Action)
    requires Narrow(acts) && c.blk.state == EXPIRE && (a.Schedule? ==> a.delay < U32)
    ensures var d := Handle(c, acts);
            RestartsRunning(d, a) <==>
              && Left(c, acts) && d.blk.q != []
              && (if a.Schedule? then d.clock + a.wait + DelayNs(a.delay) < d.blk.q[0].expire
                  else |d.blk.q| > 1 && d.blk.q[0].id == a.id)
  {
    StateInHandler(c, acts);
  }

  /** When a handler returns the timer has been started from inside its interrupt
      if and only if the handler has cancelled the only event and something is
      queued again. The interrupt then ends with that handler and returns as for a
      timer that is not running. */
  lemma StartedInInterrupt(c: Core, acts: seq<Action>)
    requires Narrow(acts) && c.blk.state == EXPIRE && c.blk.armed == None
    ensures var d := Handle(c, acts);
            d.blk.armed.Some? <==> Left(c, acts) && d.blk.q != []
  {
    StateInHandler(c, acts);
  }

  /** The least such handler: it cancels the only event and schedules two, the
      second one to expire earlier. */
  lemma RestartFails(c: Core, id: nat)
    requires c.blk.state == EXPIRE && |c.blk.q| == 1 && c.blk.q[0].id == id
    ensures RestartsRunning(Handle(c, [Withdraw(0, id), Schedule(0, 2)]), Schedule(0, 1))
  {
    hide Handle, Act, RestartsRunning;
    var none: seq<Action>, first, both := [], [Withdraw(0, id)], [Withdraw(0, id), Schedule(0, 2)];
    assert first[..0] == none && both[..1] == first && both[..2] == both && first[..1] == first;
    NoAction(c);
    HandleStep(c, first, 0);
    HandleStep(c, both, 1);
    CancelsOnly(c, id);
    var b := Act(c, Withdraw(0, id));
    StartsTimer(b, 2, 1);
  }

  lemma NoAction(c: Core)
    ensures Handle(c, []) == c
  {
  }

  lemma CancelsOnly(c: Core, id: nat)
    requires c.blk.state == EXPIRE && |c.blk.q| == 1 && c.blk.q[0].id == id
    ensures Act(c, Withdraw(0, id)).blk == Block([], STOP, None)
  {
    HeadRemoved(c.blk, id);
  }

  /** A first event starts the timer; an earlier second one restarts it. */
  lemma StartsTimer(b: Core, delay: nat, sooner: nat)
    requires b.blk == Block([], STOP, None) && delay < U32 && sooner < U32 && DelayNs(sooner) < DelayNs(delay)
    ensures RestartsRunning(Act(b, Schedule(0, delay)), Schedule(0, sooner))
  {
    var e := Scheduled(b, delay);
    assert Inserted([], e) == [e];
  }

  /** Once EXPIRE has been left nothing is due: the loop ends with that handler. */
  lemma LeavingEndsLoop(c: Core, acts: seq<Action>, now: int)
    requires InOrder(c) && c.clock >= now && Tame(acts, c.clock - now)
    requires c.blk.state == EXPIRE && c.blk.armed == None
    ensures Narrow(acts) && (Left(c, acts) ==> DueCount(Handle(c, acts).blk.q, now) == 0)
  {
    HandleOk(c, acts, now);
    StateInHandler(c, acts);
  }

  /** The loop with a handler that always reschedules itself with the wrapped
      delay; `waits` are the nanoseconds that pass in each round. */
  function Rounds(c: Core, now: int, waits: seq<nat>): Core {
    if waits == [] then c
    else
      var d := Rounds(c, now, waits[..|waits| - 1]);
      if DueCount(d.blk.q, now) == 0 then d else Act(Popped(d), Schedule(waits[|waits| - 1], WRAPPED))
  }

  lemma WrappedRound(c: Core, wait: nat)
    requires |c.blk.q| == 1
    ensures var d := Act(Popped(c), Schedule(wait, WRAPPED));
            d.clock == c.clock + wait && d.blk.q == [Ev(c.nextId, c.clock + wait)]
  {
    var p := Waited(Popped(c), wait);
    var e := Ev(p.nextId, p.clock);
    assert DelayNs(WRAPPED) == 0;
    WithAddedQueue(p.blk, e);
    assert p.blk.q == [] && Inserted(p.blk.q, e) == [e];
  }

  /** The clock does not move. */
  ghost predicate Still(waits: seq<nat>) { forall i :: 0 <= i < |waits| ==> waits[i] == 0 }

  lemma StillStep(waits: seq<nat>)
    requires waits != []
    ensures Still(waits) <==> Still(waits[..|waits| - 1]) && waits[|waits| - 1] == 0
  {
    var fewer := waits[..|waits| - 1];
    assert forall i :: 0 <= i < |fewer| ==> fewer[i] == waits[i];
  }

  /** Its event stays due exactly as long as the clock still shows the captured
      instant: the loop goes on until the clock moves, and then ends. */
  lemma {:induction false} WrappedDelayKeepsLoop(c: Core, waits: seq<nat>)
    requires |c.blk.q| == 1 && c.blk.q[0].expire <= c.clock
    ensures var d := Rounds(c, c.clock, waits);
            && |d.blk.q| == 1
            && (DueCount(d.blk.q, c.clock) > 0 <==> Still(waits))
            && (DueCount(d.blk.q, c.clock) > 0 ==> d.clock == c.clock)
    decreases |waits|
  {
    if waits == [] {
      DueCountIs(c.blk.q, c.clock, 1);
    } else {
      hide Act, Popped, DueCount, Still;
      var n := |waits| - 1;
      var b, d := Rounds(c, c.clock, waits[..n]), Rounds(c, c.clock, waits);
      WrappedDelayKeepsLoop(c, waits[..n]);
      if DueCount(b.blk.q, c.clock) > 0 {
        WrappedRound(b, waits[n]);
        DueCountIs(d.blk.q, c.clock, if waits[n] == 0 then 1 else 0);
      }
      StillStep(waits);
    }
  }

  // ----- conservation -----

  lemma AddedConserved(c: Core, e: Ev)
    requires Conserved(c) && e.id == c.nextId
    ensures Conserved(Added(c, e))
  {
    AddLedger(c, e);
    OnceMore(Ledger(c), c.nextId);
  }

  lemma WithdrawnConserved(c: Core, id: nat)
    requires Conserved(c)
    ensures Conserved(Withdrawn(c, id))
  {
    CancelLedger(c, id);
  }

  lemma ActLedger(c: Core, a: Action)
    requires a.Schedule? ==> a.delay < U32
    requires Conserved(c)
    ensures Conserved(Act(c, a))
  {
    var t := Waited(c, a.wait);
    SameLedger(c, t);
    if a.Schedule? {
      AddedConserved(t, Scheduled(t, a.delay));
    } else {
      WithdrawnConserved(t, a.id);
    }
  }

  lemma {:induction false} HandleLedger(c: Core, acts: seq<Action>)
    requires Narrow(acts) && Conserved(c)
    ensures Conserved(Handle(c, acts))
    decreases |acts|
  {
    if acts != [] {
      HandleLedger(c, acts[..|acts| - 1]);
      ActLedger(Handle(c, acts[..|acts| - 1]), acts[|acts| - 1]);
    }
  }

  lemma PoppedLedger(c: Core)
    requires c.blk.q != []
    ensures Ledger(Popped(c)) == Ledger(c)
  {
    var e, rest := c.blk.q[0], c.blk.q[1..];
    assert c.blk.q == [e] + rest;
    IdsConcat([e], rest);
    IdsConcat(c.delivered, [e]);
    assert Backlog(Popped(c)) == Backlog(c);
  }

  lemma {:induction false} DrainedLedger(c: Core, now: int, script: Script, k: nat)
    requires AtRound(c, now, script, k) && Conserved(c)
    ensures Conserved(Drained(c, now, script, k))
    decreases DueCount(c.blk.q, now)
  {
    hide Handle, Elapsed, AllTame, InOrder, Ledger;
    if DueCount(c.blk.q, now) > 0 {
      RoundAt(c, now, script, k);
      PoppedLedger(c);
      HandleLedger(Popped(c), script(k));
      DrainedLedger(Round(c, script(k)), now, script, k + 1);
    }
  }

  lemma SameLedger(c: Core, d: Core)
    requires d.blk.q == c.blk.q && d.waiting == c.waiting && d.running == c.running && d.nextId == c.nextId
    requires d.delivered == c.delivered && d.cancelled == c.cancelled && d.flushed == c.flushed
    requires Conserved(c)
    ensures Conserved(d)
  {
    assert Ledger(d) == Ledger(c);
  }

  lemma ExpiredLedger(c: Core, script: Script)
    requires Ready(c, c.clock) && AllTame(script) && Conserved(c)
    ensures Conserved(Expired(c, script))
  {
    var s := Entered(c);
    ServingInOrder(c);
    SameLedger(c, s);
    DrainedLedger(s, c.clock, script, 0);
    var d := Drained(s, c.clock, script, 0);
    SameLedger(d, Rearmed(d));
  }

  // ----- whole runs of the direct core -----

  datatype DirectOp = Plain(op: Op) | Interrupt(script: Script)

  /** The direct core never uses the list of expired events. */
  ghost predicate DirectEnabled(c: Core, op: DirectOp) {
    match op
    case Plain(p) => (p.Tick? || p.Add? || p.Cancel? || p.Close?) && Enabled(c, p)
    case Interrupt(script) => Enabled(c, Fire) && AllTame(script)
  }

  ghost predicate DirectOk(c: Core) {
    InOrder(c) && Settled(c.blk) && Conserved(c) && !c.running && c.waiting == []
  }

  ghost function DirectNext(c: Core, op: DirectOp): Core
    requires DirectOk(c)
  {
    if !DirectEnabled(c, op) then c
    else if op.Plain? then DeferredTimers.Next(c, op.op)
    else Expired(c, op.script)
  }

  lemma DirectStepOk(c: Core, op: DirectOp)
    requires DirectOk(c)
    ensures DirectOk(DirectNext(c, op))
  {
    if DirectEnabled(c, op) {
      match op
      case Plain(p) =>
        StepInOrder(c, p);
        StepSettled(c, p);
        StepConserved(c, p);
      case Interrupt(script) =>
        ExpiredOk(c, script);
        ExpiredLedger(c, script);
    }
  }

  /** In every run of the direct core, with any handlers: the order, the armed
      timer and the conservation of events. */
  ghost function DirectBehave(ops: seq<DirectOp>): (c: Core)
    ensures DirectOk(c)
    decreases |ops|
  {
    if ops == [] then InitialCore()
    else
      DirectStepOk(DirectBehave(ops[..|ops| - 1]), ops[|ops| - 1]);
      DirectNext(DirectBehave(ops[..|ops| - 1]), ops[|ops| - 1])
  }
}
