/** What handlers achieve that run inside the timer interrupt: every event they
    schedule is queued with its expiry, every pending event they cancel is taken
    out for good, and nothing else happens to the events that are not due. */
module HandlerEffects {
  import opened TimerQueue
  import opened DeferredTimers
  import opened DirectTimers
  import opened TimerEffects
  import opened Wrappers

  /** How many events the first `k` handlers schedule. */
  function Total(script: Script, k: nat): nat {
    if k == 0 then 0 else Total(script, k - 1) + Schedules(script(k - 1))
  }

  ghost predicate WithdrawnBy(acts: seq<Action>, id: nat) {
    exists j :: 0 <= j < |acts| && acts[j].Withdraw? && acts[j].id == id
  }

  /** One of the handlers from the `from`-th up to the `to`-th cancels the event. */
  ghost predicate WithdrawnIn(script: Script, from: nat, to: nat, id: nat) {
    exists k :: from <= k < to && WithdrawnBy(script(k), id)
  }

  /** Where an event is that was pending. */
  ghost predicate TakenOut(d: Core, e: Ev, withdrawn: bool) {
    if withdrawn then e in d.cancelled && e !in d.blk.q else e in d.blk.q && e !in d.cancelled
  }

  // ----- one handler -----

  /** An event is in one place only. */
  lemma InOnePlace(c: Core, e: Ev)
    requires Conserved(c)
    ensures !(e in c.blk.q && e in c.cancelled) && !(e in c.delivered && e in c.cancelled)
    ensures !(e in c.blk.q && e in c.delivered)
  {
    assert Ledger(c)[e.id] <= 1;
    if e in c.blk.q {
      IdCounted(c.blk.q, e);
    }
    if e in c.cancelled {
      IdCounted(c.cancelled, e);
    }
    if e in c.delivered {
      IdCounted(c.delivered, e);
    }
  }

  lemma RemovedOthers(q: seq<Ev>, id: nat, e: Ev)
    requires e in q && e.id != id
    ensures e in Removed(q, id)
  {
    var k := IndexOf(q, id);
    if k < |q| {
      SplitAt(q, k);
    }
  }

  /** One action takes a pending event out exactly if it cancels it. */
  lemma ActTakesOut(c: Core, a: Action, e: Ev)
    requires Conserved(c) && (a.Schedule? ==> a.delay < U32) && e in c.blk.q
    ensures TakenOut(Act(c, a), e, a.Withdraw? && a.id == e.id)
  {
    var t, d := Waited(c, a.wait), Act(c, a);
    ActLedger(c, a);
    InOnePlace(d, e);
    match a
    case Schedule(_, delay) =>
      WithAddedQueue(t.blk, Scheduled(t, delay));
      InsertedMembers(t.blk.q, Scheduled(t, delay));
    case Withdraw(_, id) =>
      WithCancelledQueue(t.blk, id);
      if id == e.id {
        PendingOnce(c, e);
      } else {
        RemovedOthers(c.blk.q, id, e);
      }
  }

  lemma WithdrawnByStep(acts: seq<Action>, id: nat)
    requires acts != []
    ensures var fewer, a := acts[..|acts| - 1], acts[|acts| - 1];
            WithdrawnBy(acts, id) <==> WithdrawnBy(fewer, id) || (a.Withdraw? && a.id == id)
  {
    var fewer := acts[..|acts| - 1];
    if WithdrawnBy(fewer, id) {
      var j :| 0 <= j < |fewer| && fewer[j].Withdraw? && fewer[j].id == id;
      assert acts[j] == fewer[j];
    }
    if WithdrawnBy(acts, id) {
      var j :| 0 <= j < |acts| && acts[j].Withdraw? && acts[j].id == id;
      assert j < |fewer| ==> fewer[j] == acts[j];
    }
  }

  /** A handler takes a pending event out exactly if it cancels it. */
  lemma {:induction false} HandleTakesOut(c: Core, acts: seq<Action>, e: Ev)
    requires Conserved(c) && Narrow(acts) && e in c.blk.q
    ensures TakenOut(Handle(c, acts), e, WithdrawnBy(acts, e.id))
    decreases |acts|
  {
    hide Conserved, Act;
    InOnePlace(c, e);
    if acts != [] {
      hide WithdrawnBy;
      var n := |acts| - 1;
      var b, d := Handle(c, acts[..n]), Handle(c, acts);
      HandleTakesOut(c, acts[..n], e);
      HandleLedger(c, acts[..n]);
      HandleLedger(c, acts);
      WithdrawnByStep(acts, e.id);
      if e in b.blk.q {
        ActTakesOut(b, acts[n], e);
      } else {
        ActTraces(b, acts[n]);
        InOnePlace(d, e);
      }
    }
  }

  lemma {:induction false} HandleConcat(c: Core, acts: seq<Action>, i: nat)
    requires Narrow(acts) && i <= |acts|
    ensures Handle(c, acts) == Handle(Handle(c, acts[..i]), acts[i..])
    decreases |acts|
  {
    hide Act;
    var n := |acts| - 1;
    if i < |acts| {
      HandleConcat(c, acts[..n], i);
      assert acts[..n][..i] == acts[..i] && acts[..n][i..] == acts[i..][..n - i];
    } else {
      assert acts[..i] == acts;
    }
  }

  /** The event the `i`-th action of a handler creates that starts in state `c`. */
  function Created(c: Core, acts: seq<Action>, i: nat): Ev
    requires i < |acts| && acts[i].Schedule? && acts[i].delay < U32
  {
    Ev(c.nextId + Schedules(acts[..i]), c.clock + Waits(acts[..i + 1]) + DelayNs(acts[i].delay))
  }

  /** An event that a handler schedules is pending from then on, until it is cancelled. */
  lemma HandleSchedules(c: Core, acts: seq<Action>, i: nat)
    requires Conserved(c) && Narrow(acts) && i < |acts| && acts[i].Schedule?
    ensures var e := Created(c, acts, i);
            && e in Handle(c, acts[..i + 1]).blk.q
            && TakenOut(Handle(c, acts), e, WithdrawnBy(acts[i + 1..], e.id))
  {
    hide Conserved, Act, WithdrawnBy;
    var b, e := Handle(c, acts[..i]), Created(c, acts, i);
    HandleCreates(c, acts[..i]);
    HandleClock(c, acts[..i]);
    HandleStep(c, acts, i);
    assert acts[..i + 1][..i] == acts[..i];
    ActSchedules(b, acts[i].wait, acts[i].delay);
    HandleLedger(c, acts[..i + 1]);
    HandleConcat(c, acts, i + 1);
    HandleTakesOut(Handle(c, acts[..i + 1]), acts[i + 1..], e);
  }

  lemma ActSchedules(c: Core, wait: nat, delay: nat)
    requires delay < U32
    ensures Ev(c.nextId, c.clock + wait + DelayNs(delay)) in Act(c, Schedule(wait, delay)).blk.q
  {
    var t := Waited(c, wait);
    WithAddedQueue(t.blk, Scheduled(t, delay));
    InsertedMembers(t.blk.q, Scheduled(t, delay));
  }

  /** An event that is pending when a handler cancels it is taken out for good. */
  lemma HandleWithdraws(c: Core, acts: seq<Action>, i: nat, e: Ev)
    requires Conserved(c) && Narrow(acts) && i < |acts| && acts[i].Withdraw? && acts[i].id == e.id
    requires e in Handle(c, acts[..i]).blk.q
    ensures e in Handle(c, acts).cancelled
  {
    hide Conserved, Act;
    HandleConcat(c, acts, i);
    HandleLedger(c, acts[..i]);
    assert acts[i..][0] == acts[i];
    HandleTakesOut(Handle(c, acts[..i]), acts[i..], e);
  }

  // ----- the interrupt -----

  /** How many events an interrupt drives. */
  ghost function Driven(c: Core, script: Script): int
    requires Ready(c, c.clock) && AllTame(script)
  {
    |Expired(c, script).delivered| - |c.delivered|
  }

  /** The state of the loop when `m` handlers have run, or it has ended. */
  ghost function LoopAt(c: Core, now: int, script: Script, m: nat): Core
    requires AtRound(c, now, script, 0)
  {
    if m == 0 then c
    else
      var b := LoopAt(c, now, script, m - 1);
      assert TameRound(script, m - 1);
      TameIsNarrow(script(m - 1), Elapsed(script, m - 1));
      if DueCount(b.blk.q, now) == 0 then b else Round(b, script(m - 1))
  }

  /** As long as it has not ended, the loop goes on from there. */
  lemma {:induction false} LoopGoesOn(c: Core, now: int, script: Script, m: nat)
    requires AtRound(c, now, script, 0) && Conserved(c)
    requires m <= |Drained(c, now, script, 0).delivered| - |c.delivered|
    ensures var b := LoopAt(c, now, script, m);
            && AtRound(b, now, script, m) && Conserved(b) && Drained(b, now, script, m) == Drained(c, now, script, 0)
            && |b.delivered| == |c.delivered| + m && b.nextId == c.nextId + Total(script, m)
            && (m < |Drained(c, now, script, 0).delivered| - |c.delivered| <==> DueCount(b.blk.q, now) > 0)
  {
    hide Handle, Round, Elapsed, AllTame, InOrder, Conserved, Ready, Serving;
    if m > 0 {
      LoopGoesOn(c, now, script, m - 1);
      var b := LoopAt(c, now, script, m - 1);
      RoundAt(b, now, script, m - 1);
      RoundCreates(b, script(m - 1));
    }
    LoopGrows(LoopAt(c, now, script, m), now, script, m);
  }

  lemma RoundCreates(c: Core, acts: seq<Action>)
    requires c.blk.q != [] && Narrow(acts) && Conserved(c)
    ensures Conserved(Round(c, acts)) && Round(c, acts).nextId == c.nextId + Schedules(acts)
    ensures c.cancelled <= Round(c, acts).cancelled
  {
    hide Conserved;
    PoppedConserved(c);
    HandleLedger(Popped(c), acts);
    HandleCreates(Popped(c), acts);
  }

  lemma PoppedConserved(c: Core)
    requires c.blk.q != [] && Conserved(c)
    ensures Conserved(Popped(c))
  {
    PoppedLedger(c);
  }

  /** Something is delivered exactly if something is due. */
  lemma LoopGrows(c: Core, now: int, script: Script, k: nat)
    requires AtRound(c, now, script, k)
    ensures |Drained(c, now, script, k).delivered| >= |c.delivered|
    ensures |Drained(c, now, script, k).delivered| > |c.delivered| <==> DueCount(c.blk.q, now) > 0
  {
    hide Round, Elapsed, AllTame, InOrder, Serving;
    if DueCount(c.blk.q, now) > 0 {
      RoundAt(c, now, script, k);
      DrainedOk(Round(c, script(k)), now, script, k + 1);
    }
  }

  lemma WithdrawnInStep(script: Script, from: nat, to: nat, id: nat)
    requires from < to
    ensures WithdrawnIn(script, from, to, id)
       <==> WithdrawnBy(script(from), id) || WithdrawnIn(script, from + 1, to, id)
  {
    hide WithdrawnBy;
  }

  /** The loop takes an event that is not due out exactly if a handler cancels it. */
  lemma {:induction false} DrainedTakesOut(c: Core, now: int, script: Script, k: nat, e: Ev)
    requires AtRound(c, now, script, k) && Conserved(c)
    requires e in c.cancelled || (e in c.blk.q && e.expire > now)
    ensures var d := Drained(c, now, script, k);
            var end := k + |d.delivered| - |c.delivered|;
            && end >= k
            && TakenOut(d, e, e in c.cancelled || WithdrawnIn(script, k, end, e.id))
    decreases DueCount(c.blk.q, now)
  {
    hide Handle, Elapsed, AllTame, InOrder, Conserved, Round, Ready, Serving, WithdrawnBy, WithdrawnIn;
    var d := Drained(c, now, script, k);
    LoopGrows(c, now, script, k);
    InOnePlace(c, e);
    if DueCount(c.blk.q, now) > 0 {
      RoundAt(c, now, script, k);
      var b := Round(c, script(k));
      RoundTakesOut(c, script(k), e, now);
      RoundCreates(c, script(k));
      DrainedTakesOut(b, now, script, k + 1, e);
      WithdrawnInStep(script, k, k + |d.delivered| - |c.delivered|, e.id);
    } else {
      NotWithdrawn(script, k, e.id);
    }
  }

  lemma NotWithdrawn(script: Script, k: nat, id: nat)
    ensures !WithdrawnIn(script, k, k, id)
  {
  }

  lemma RoundTakesOut(c: Core, acts: seq<Action>, e: Ev, now: int)
    requires c.blk.q != [] && Narrow(acts) && Conserved(c) && c.blk.q[0].expire <= now
    requires e in c.cancelled || (e in c.blk.q && e.expire > now)
    ensures TakenOut(Round(c, acts), e, e in c.cancelled || WithdrawnBy(acts, e.id))
  {
    hide Handle, WithdrawnBy, Conserved;
    PoppedConserved(c);
    RoundCreates(c, acts);
    InOnePlace(c, e);
    InOnePlace(Round(c, acts), e);
    if e in c.blk.q {
      assert c.blk.q == [c.blk.q[0]] + c.blk.q[1..];
      HandleTakesOut(Popped(c), acts, e);
    }
  }

  lemma EnteredAtRound(c: Core, script: Script)
    requires Ready(c, c.clock) && AllTame(script)
    ensures AtRound(Entered(c), c.clock, script, 0)
    ensures Conserved(c) ==> Conserved(Entered(c))
    ensures var d, r := Drained(Entered(c), c.clock, script, 0), Expired(c, script);
            && r.blk.q == d.blk.q && r.cancelled == d.cancelled && r.delivered == d.delivered
            && r.nextId == d.nextId && r.clock == d.clock
  {
    ServingInOrder(c);
    if Conserved(c) {
      SameLedger(c, Entered(c));
    }
  }

  /** The interrupt as a whole creates exactly the events that the handlers it
      drives schedule, and takes the time they take. */
  lemma ExpiredCreates(c: Core, script: Script)
    requires Ready(c, c.clock) && AllTame(script) && Conserved(c)
    ensures Driven(c, script) >= 0
    ensures Expired(c, script).nextId == c.nextId + Total(script, Driven(c, script))
    ensures Expired(c, script).clock == c.clock + Elapsed(script, Driven(c, script))
  {
    hide Drained, LoopAt, AllTame, Elapsed, Total, InOrder, Conserved, Ready, Expired;
    var s, now := Entered(c), c.clock;
    EnteredAtRound(c, script);
    LoopGrows(s, now, script, 0);
    var n: nat := Driven(c, script);
    LoopGoesOn(s, now, script, n);
    LoopEnds(LoopAt(s, now, script, n), now, script, n);
  }

  lemma LoopEnds(c: Core, now: int, script: Script, k: nat)
    requires AtRound(c, now, script, k) && DueCount(c.blk.q, now) == 0
    ensures Drained(c, now, script, k) == c
  {
  }

  /** What the `i`-th action of the handler of round `m` finds. */
  ghost function InHandler(c: Core, script: Script, m: nat, i: nat): Core
    requires Ready(c, c.clock) && AllTame(script) && Conserved(c) && m < Driven(c, script) && i <= |script(m)|
  {
    EnteredAtRound(c, script);
    LoopGoesOn(Entered(c), c.clock, script, m);
    RoundAt(LoopAt(Entered(c), c.clock, script, m), c.clock, script, m);
    Handle(Popped(LoopAt(Entered(c), c.clock, script, m)), script(m)[..i])
  }

  /** A tame handler creates nothing that is due. */
  lemma CreatedLater(acts: seq<Action>, late: nat, i: nat)
    requires Tame(acts, late) && i < |acts| && acts[i].Schedule?
    ensures acts[i].delay < U32 && late + Waits(acts[..i + 1]) + DelayNs(acts[i].delay) > 0
  {
    assert TameAction(acts[i], late + Waits(acts[..i]));
    assert acts[..i + 1][..i] == acts[..i];
    DelayIsPositive(acts[i].delay);
  }

  /** An event a handler schedules inside the interrupt is pending afterwards with
      its expiry, unless a later action of a handler has cancelled it. */
  lemma ScheduledInInterrupt(c: Core, script: Script, m: nat, i: nat)
    requires Ready(c, c.clock) && AllTame(script) && Conserved(c)
    requires m < Driven(c, script) && i < |script(m)| && script(m)[i].Schedule?
    ensures script(m)[i].delay < U32
    ensures var before := script(m)[..i + 1];
            var e := Ev(c.nextId + Total(script, m) + Schedules(script(m)[..i]),
                        c.clock + Elapsed(script, m) + Waits(before) + DelayNs(script(m)[i].delay));
            TakenOut(Expired(c, script), e,
                     WithdrawnBy(script(m)[i + 1..], e.id) || WithdrawnIn(script, m + 1, Driven(c, script), e.id))
  {
    hide Drained, LoopAt, AllTame, Elapsed, Total, InOrder, Conserved, Ready, Expired, Handle, WithdrawnBy, WithdrawnIn,
         TakenOut, Waits, Schedules, DelayNs, Tame, Serving;
    var s, now, acts := Entered(c), c.clock, script(m);
    EnteredAtRound(c, script);
    LoopGoesOn(s, now, script, m);
    var b := LoopAt(s, now, script, m);
    RoundAt(b, now, script, m);
    assert TameRound(script, m) by {
      RoundIsTame(script, m);
    }
    CreatedLater(acts, Elapsed(script, m), i);
    PoppedConserved(b);
    HandleSchedules(Popped(b), acts, i);
    RoundCreates(b, acts);
    var e := Created(Popped(b), acts, i);
    var later := WithdrawnBy(acts[i + 1..], e.id);
    RestTakesOut(Round(b, acts), now, script, m + 1, e, later);
    SameEvents(Drained(s, now, script, 0), Expired(c, script), e,
               later || WithdrawnIn(script, m + 1, Driven(c, script), e.id));
  }

  lemma SameEvents(c: Core, d: Core, e: Ev, withdrawn: bool)
    requires d.blk.q == c.blk.q && d.cancelled == c.cancelled && TakenOut(c, e, withdrawn)
    ensures TakenOut(d, e, withdrawn)
  {
  }

  lemma RoundIsTame(script: Script, m: nat)
    requires AllTame(script)
    ensures Tame(script(m), Elapsed(script, m))
  {
    assert TameRound(script, m);
  }

  /** What a round has left pending or cancelled at the end of the loop. */
  lemma RestTakesOut(c: Core, now: int, script: Script, k: nat, e: Ev, withdrawn: bool)
    requires AtRound(c, now, script, k) && Conserved(c) && e.expire > now && TakenOut(c, e, withdrawn)
    ensures var d := Drained(c, now, script, k);
            var end := k + |d.delivered| - |c.delivered|;
            && end >= k
            && TakenOut(d, e, withdrawn || WithdrawnIn(script, k, end, e.id))
  {
    hide Drained, Conserved, WithdrawnIn, AtRound;
    DrainedTakesOut(c, now, script, k, e);
  }

  /** An event that is pending when a handler cancels it inside the interrupt is
      cancelled for good. */
  lemma WithdrawnInInterrupt(c: Core, script: Script, m: nat, i: nat, e: Ev)
    requires Ready(c, c.clock) && AllTame(script) && Conserved(c)
    requires m < Driven(c, script) && i < |script(m)| && script(m)[i].Withdraw? && script(m)[i].id == e.id
    requires e in InHandler(c, script, m, i).blk.q
    ensures e in Expired(c, script).cancelled && e !in Expired(c, script).delivered
  {
    hide Drained, LoopAt, AllTame, Elapsed, Total, InOrder, Conserved, Ready, Expired, Handle, WithdrawnBy, WithdrawnIn,
         Serving;
    var s, now, acts := Entered(c), c.clock, script(m);
    EnteredAtRound(c, script);
    LoopGoesOn(s, now, script, m);
    var b := LoopAt(s, now, script, m);
    RoundAt(b, now, script, m);
    PoppedConserved(b);
    HandleWithdraws(Popped(b), acts, i, e);
    RoundCreates(b, acts);
    DrainedTakesOut(Round(b, acts), now, script, m + 1, e);
    ExpiredLedger(c, script);
    InOnePlace(Expired(c, script), e);
  }

  /** An event that is not due stays pending, unless a handler cancels it. */
  lemma PendingInInterrupt(c: Core, script: Script, e: Ev)
    requires Ready(c, c.clock) && AllTame(script) && Conserved(c) && e in c.blk.q && e.expire > c.clock
    ensures Driven(c, script) >= 0
    ensures TakenOut(Expired(c, script), e, WithdrawnIn(script, 0, Driven(c, script), e.id))
  {
    hide Drained, AllTame, InOrder, Conserved, Ready, Expired, WithdrawnIn, AtRound, TakenOut;
    EnteredAtRound(c, script);
    InOnePlace(c, e);
    StillPending(c, e);
    RestTakesOut(Entered(c), c.clock, script, 0, e, false);
    SameEvents(Drained(Entered(c), c.clock, script, 0), Expired(c, script), e,
               WithdrawnIn(script, 0, Driven(c, script), e.id));
  }

  lemma StillPending(c: Core, e: Ev)
    requires e in c.blk.q && e !in c.cancelled
    ensures TakenOut(Entered(c), e, false)
  {
  }

  /** The loop drives every event that is due, unless a handler cancels it before. */
  lemma {:induction false} DrainedDrives(c: Core, now: int, script: Script, k: nat, e: Ev)
    requires AtRound(c, now, script, k) && Conserved(c) && e in c.blk.q && e.expire <= now
    ensures var d := Drained(c, now, script, k);
            var end := k + |d.delivered| - |c.delivered|;
            && end >= k && (e in d.delivered || (e in d.cancelled && WithdrawnIn(script, k, end, e.id)))
    decreases DueCount(c.blk.q, now)
  {
    hide Handle, Elapsed, AllTame, InOrder, Conserved, Round, Ready, Serving, WithdrawnBy, WithdrawnIn;
    var d := Drained(c, now, script, k);
    LoopGrows(c, now, script, k);
    DueHead(c, now, e);
    RoundAt(c, now, script, k);
    var b := Round(c, script(k));
    RoundCreates(c, script(k));
    LoopTraces(b, now, script, k + 1);
    WithdrawnInStep(script, k, k + |d.delivered| - |c.delivered|, e.id);
    if e == c.blk.q[0] {
      assert b.delivered[|c.delivered|] == e;
    } else {
      RoundDrives(c, script(k), e);
      if e in b.blk.q {
        DrainedDrives(b, now, script, k + 1, e);
      }
    }
  }

  lemma DueHead(c: Core, now: int, e: Ev)
    requires Ready(c, now) && e in c.blk.q && e.expire <= now
    ensures DueCount(c.blk.q, now) > 0
  {
    QueueOrdered(c);
    DueIff(c.blk.q, now);
  }

  /** The traces of the loop only grow. */
  lemma {:induction false} LoopTraces(c: Core, now: int, script: Script, k: nat)
    requires AtRound(c, now, script, k) && Conserved(c)
    ensures var d := Drained(c, now, script, k);
            c.delivered <= d.delivered && c.cancelled <= d.cancelled && d.flushed == c.flushed
    decreases DueCount(c.blk.q, now)
  {
    hide Handle, Elapsed, AllTame, InOrder, Conserved, Round, Ready, Serving;
    if DueCount(c.blk.q, now) > 0 {
      RoundAt(c, now, script, k);
      RoundCreates(c, script(k));
      LoopTraces(Round(c, script(k)), now, script, k + 1);
    }
  }

  lemma RoundDrives(c: Core, acts: seq<Action>, e: Ev)
    requires c.blk.q != [] && Narrow(acts) && Conserved(c) && e in c.blk.q && e != c.blk.q[0]
    ensures TakenOut(Round(c, acts), e, WithdrawnBy(acts, e.id))
  {
    hide Handle, WithdrawnBy, Conserved;
    PoppedConserved(c);
    assert c.blk.q == [c.blk.q[0]] + c.blk.q[1..];
    HandleTakesOut(Popped(c), acts, e);
  }

  /** The interrupt drives every event that is due, unless a handler cancels it before. */
  lemma DueInInterrupt(c: Core, script: Script, e: Ev)
    requires Ready(c, c.clock) && AllTame(script) && Conserved(c) && e in c.blk.q && e.expire <= c.clock
    ensures var d := Expired(c, script);
            && Driven(c, script) >= 0
            && (e in d.delivered || (e in d.cancelled && WithdrawnIn(script, 0, Driven(c, script), e.id)))
  {
    hide Drained, AllTame, InOrder, Conserved, Ready, Expired, WithdrawnIn, AtRound;
    EnteredAtRound(c, script);
    DrainedDrives(Entered(c), c.clock, script, 0, e);
  }

  // ----- whole runs of the direct core -----

  lemma DirectTraceStep(c: Core, op: DirectOp)
    requires DirectOk(c)
    ensures var d := DirectNext(c, op);
            c.delivered <= d.delivered && c.cancelled <= d.cancelled && c.flushed <= d.flushed
  {
    hide Conserved, InOrder, Drained, Expired, AllTame;
    if DirectEnabled(c, op) {
      match op
      case Plain(p) => TraceStep(c, p);
      case Interrupt(script) =>
        EnteredAtRound(c, script);
        LoopTraces(Entered(c), c.clock, script, 0);
        ExpiredOk(c, script);
    }
  }

  lemma {:induction false} DirectTracesGrow(ops: seq<DirectOp>, more: seq<DirectOp>)
    ensures var c, d := DirectBehave(ops), DirectBehave(ops + more);
            c.delivered <= d.delivered && c.cancelled <= d.cancelled && c.flushed <= d.flushed
    decreases |more|
  {
    hide DirectOk, DirectNext;
    if more == [] {
      assert ops + more == ops;
    } else {
      var fewer, op := more[..|more| - 1], more[|more| - 1];
      var all := ops + more;
      assert all[..|all| - 1] == ops + fewer && all[|all| - 1] == op;
      DirectTracesGrow(ops, fewer);
      DirectTraceStep(DirectBehave(ops + fewer), op);
    }
  }

  /** What a handler, or anyone else, has cancelled, and what a close has freed, is
      in no delivered trace, neither before nor after. */
  lemma DirectNeverDelivered(ops: seq<DirectOp>, more: seq<DirectOp>, e: Ev, f: Ev)
    requires e in DirectBehave(ops).cancelled || e in DirectBehave(ops).flushed
    requires f in DirectBehave(ops + more).delivered
    ensures e.id != f.id
  {
    hide DirectBehave, InOrder, Settled, Conserved;
    DirectTracesGrow(ops, more);
    GoneNotDelivered(DirectBehave(ops + more), e, f);
  }

  /** The operations outside the interrupt do in the direct core what they do in
      the deferred one. */
  lemma DirectAdds(ops: seq<DirectOp>, delay: nat)
    requires delay < U32
    ensures Queues(DirectBehave(ops), DirectBehave(ops + [Plain(Add(delay))]), delay)
  {
    hide DirectBehave, Queues, InOrder, Settled, Conserved;
    DirectStep(ops, Plain(Add(delay)));
    AddQueues(DirectBehave(ops), delay);
  }

  lemma DirectCancels(ops: seq<DirectOp>, e: Ev)
    requires e in DirectBehave(ops).blk.q
    ensures Cancels(DirectBehave(ops), DirectBehave(ops + [Plain(Cancel(e.id))]), e)
  {
    hide DirectBehave, Cancels, InOrder, Settled, Conserved;
    DirectStep(ops, Plain(Cancel(e.id)));
    CancelCancels(DirectBehave(ops), e);
  }

  lemma DirectCloses(ops: seq<DirectOp>)
    ensures Closes(DirectBehave(ops), DirectBehave(ops + [Plain(Close)]))
  {
    hide DirectBehave, InOrder, Settled, Conserved;
    DirectStep(ops, Plain(Close));
  }

  lemma DirectStep(ops: seq<DirectOp>, op: DirectOp)
    ensures DirectBehave(ops + [op]) == DirectNext(DirectBehave(ops), op)
  {
    assert (ops + [op])[..|ops|] == ops;
  }

  // ----- handlers that do nothing -----

  function Silent(): Script { (k: nat) => [] }

  lemma SilentTakesNoTime(k: nat)
    ensures Silent()(k) == [] && AllTame(Silent()) && Narrow([])
    ensures forall c :: Handle(c, []) == c
  {
    assert forall k :: TameRound(Silent(), k);
  }

  /** Then the loop takes off and drives exactly what is due, in order. */
  lemma {:induction false} SilentLoop(c: Core, now: int, k: nat)
    requires AtRound(c, now, Silent(), k)
    ensures var n := DueCount(c.blk.q, now);
            Drained(c, now, Silent(), k)
            == c.(blk := c.blk.(q := c.blk.q[n..]), delivered := c.delivered + c.blk.q[..n])
    decreases DueCount(c.blk.q, now)
  {
    hide Handle, AllTame, InOrder, Ready, Elapsed, Serving, Silent;
    var q, n := c.blk.q, DueCount(c.blk.q, now);
    if n > 0 {
      SilentTakesNoTime(k);
      RoundAt(c, now, Silent(), k);
      var b := Popped(c);
      assert Round(c, Silent()(k)) == b;
      SilentLoop(b, now, k + 1);
      DueCountIs(b.blk.q, now, n - 1);
      OneMore(c.delivered, q, n);
    } else {
      assert q[0..] == q && c.delivered + q[..0] == c.delivered;
    }
  }

  lemma OneMore(done: seq<Ev>, q: seq<Ev>, n: nat)
    requires 0 < n <= |q|
    ensures q[1..][n - 1..] == q[n..] && done + [q[0]] + q[1..][..n - 1] == done + q[..n]
  {
  }

  /** The two cores agree: with handlers that do nothing, the interrupt of the
      direct core leaves the state that the deferred core reaches when its
      interrupt has been served and the tasklet has run all handlers. */
  lemma CoresAgree(ops: seq<Op>)
    requires var c := Behave(ops); Ready(c, c.clock) && Enabled(c, Fire)
    ensures AllTame(Silent())
    ensures var c := Behave(ops);
            Expired(c, Silent()) == Behave(ops + [Fire] + Tasklet(DueCount(c.blk.q, c.clock)))
  {
    hide Behave, InOrder, AllTame, Handle, Drained;
    var c := Behave(ops);
    var n := DueCount(c.blk.q, c.clock);
    SilentTakesNoTime(0);
    EnteredAtRound(c, Silent());
    SilentLoop(Entered(c), c.clock, 0);
    BehaveStep(ops, Fire);
    TaskletDelivers(ops + [Fire], n);
    assert [] + c.blk.q[..n] == c.blk.q[..n] && c.blk.q[..n][..n] == c.blk.q[..n] && c.blk.q[..n][n..] == [];
  }

  /** Nothing is forgotten in the direct core either: from any state of any run,
      once enough time has passed an interrupt delivers everything that was pending. */
  lemma DirectDelivers(ops: seq<DirectOp>, ns: nat)
    requires var c := DirectBehave(ops); forall e :: e in c.blk.q ==> e.expire <= c.clock + ns
    ensures var c := DirectBehave(ops);
            var d := DirectBehave(ops + [Plain(Tick(ns))] + [Interrupt(Silent())]);
            && d.delivered == c.delivered + c.blk.q && d.blk == Block([], STOP, None) && d.clock == c.clock + ns
            && d.cancelled == c.cancelled && d.flushed == c.flushed
  {
    hide DirectBehave, InOrder, Conserved, AllTame, Handle, Drained, Silent;
    var c := DirectBehave(ops);
    var later := ops + [Plain(Tick(ns))];
    var t := DirectBehave(later);
    DirectStep(ops, Plain(Tick(ns)));
    DirectStep(later, Interrupt(Silent()));
    SilentTakesNoTime(0);
    if c.blk.q != [] {
      EnteredAtRound(t, Silent());
      SilentLoop(Entered(t), t.clock, 0);
      DueCountIs(c.blk.q, t.clock, |c.blk.q|);
    }
  }
}
