/** The FSM core whose timer interrupt only moves expired events to a list; a
    tasklet drives the state machines with them later. Every locked region is
    one step, and handlers may add and cancel events while they run. */
module DeferredTimers {
  import opened TimerQueue
  import opened Wrappers

  // ----- delays -----

  const U32 := 0x1_0000_0000

  /** The delay of an event in nanoseconds: units of ten microseconds, at least
      one, multiplied in thirty-two bits. */
  function DelayNs(delay: nat): (ns: nat)
    requires delay < U32
  {
    1000 * (if delay == 0 then 10 else (10 * delay) % U32)
  }

  /** An event expires strictly later than it is added, for every delay but one. */
  lemma DelayIsPositive(delay: nat)
    requires delay < U32
    ensures DelayNs(delay) > 0 <==> delay != 0x8000_0000
  {
  }

  /** Ten microseconds for each unit, and for none; a product that thirty-two
      bits do not hold loses whole turns of them. */
  lemma DelayLength(delay: nat)
    requires delay < U32
    ensures delay == 0 ==> DelayNs(delay) == 10_000
    ensures 0 < delay && 10 * delay < 0x1_0000_0000 ==> DelayNs(delay) == 10_000 * delay
    ensures delay > 0 ==> exists turns: nat ::
              DelayNs(delay) + 1000 * (turns * 0x1_0000_0000) == 10_000 * delay && DelayNs(delay) < 1000 * 0x1_0000_0000
  {
    if delay > 0 {
      var turns := (10 * delay) / U32;
      assert DelayNs(delay) + 1000 * (turns * 0x1_0000_0000) == 10_000 * delay;
    }
  }

  // ----- the core as a value -----

  /** `waiting` is the list of expired events, `running` says that the handler of
      its first one is being driven; the traces record what became of events. */
  datatype Core = Core(blk: Block, waiting: seq<Ev>, running: bool, clock: int, nextId: nat,
                       delivered: seq<Ev>, cancelled: seq<Ev>, flushed: seq<Ev>)

  function InitialCore(): Core { Core(Block([], STOP, None), [], false, 0, 0, [], [], []) }

  datatype Op = Tick(ns: nat) | Add(delay: nat) | Cancel(id: nat) | Fire | BeginDrain | EndDrain | Close

  /** The timer interrupt comes when the timer is armed and its instant has
      passed; the tasklet runs one handler at a time; closing waits for it. */
  predicate Enabled(c: Core, op: Op) {
    match op
    case Tick(_) => true
    case Add(delay) => delay < U32
    case Cancel(_) => true
    case Fire => c.blk.armed.Some? && c.blk.armed.value <= c.clock
    case BeginDrain => !c.running && c.waiting != []
    case EndDrain => c.running && c.waiting != []
    case Close => !c.running
  }

  function Fired(b: Block, now: int): Block {
    var q := b.q[DueCount(b.q, now)..];
    if q != [] then Block(q, RUN, Some(q[0].expire)) else Block(q, STOP, None)
  }

  /** The event created by an addition. */
  function Scheduled(c: Core, delay: nat): Ev
    requires delay < U32
  {
    Ev(c.nextId, c.clock + DelayNs(delay))
  }

  function Added(c: Core, e: Ev): Core { c.(blk := WithAdded(c.blk, e), nextId := c.nextId + 1) }

  function Withdrawn(c: Core, id: nat): Core {
    if CanCancel(c.blk, id)
    then c.(blk := WithCancelled(c.blk, id), cancelled := c.cancelled + [c.blk.q[IndexOf(c.blk.q, id)]])
    else c
  }

  function Next(c: Core, op: Op): Core {
    if !Enabled(c, op) then c
    else
      match op
      case Tick(ns) => c.(clock := c.clock + ns)
      case Add(delay) => Added(c, Scheduled(c, delay))
      case Cancel(id) => Withdrawn(c, id)
      case Fire =>
        c.(blk := Fired(c.blk, c.clock), waiting := c.waiting + c.blk.q[..DueCount(c.blk.q, c.clock)])
      case BeginDrain => c.(running := true, delivered := c.delivered + [c.waiting[0]])
      case EndDrain => c.(running := false, waiting := c.waiting[1..])
      case Close =>
        c.(blk := Block([], STOP, None), waiting := [], flushed := c.flushed + c.blk.q + c.waiting)
  }

  /** The step for an addition, in terms of the event it creates. */
  lemma NextAdd(c: Core, delay: nat)
    requires delay < U32
    ensures Next(c, Add(delay)) == Added(c, Scheduled(c, delay))
  {
  }

  function Behave(ops: seq<Op>): Core
    decreases |ops|
  {
    if ops == [] then InitialCore() else Next(Behave(ops[..|ops| - 1]), ops[|ops| - 1])
  }

  /** The expired events whose handlers have not been started. */
  function Backlog(c: Core): seq<Ev> {
    if c.running && c.waiting != [] then c.waiting[1..] else c.waiting
  }

  /** Everything in the order in which it is delivered. */
  function Line(c: Core): seq<Ev> { c.delivered + Backlog(c) + c.blk.q }

  // ----- whole-run order -----

  /** What was delivered, then what has expired, then the queue, in order of
      expiry and, for equal expiries, of creation; nothing is delivered or taken
      for expired before its time. */
  ghost predicate InOrder(c: Core) {
    && Ordered(Line(c))
    && (c.running ==> c.waiting != [])
    && (forall e :: e in c.delivered + Backlog(c) ==> e.expire <= c.clock)
    && (forall e :: e in Line(c) ==> e.id < c.nextId)
  }

  lemma OrderedParts(a: seq<Ev>, b: seq<Ev>)
    ensures Ordered(a + b) <==>
            Ordered(a) && Ordered(b) && forall i, j :: 0 <= i < |a| && 0 <= j < |b| ==> Precedes(a[i], b[j])
  {
    var s := a + b;
    if Ordered(s) {
      assert forall i :: 0 <= i < |a| ==> a[i] == s[i];
      assert forall j :: 0 <= j < |b| ==> b[j] == s[|a| + j];
    }
  }

  lemma InsertedMembers(q: seq<Ev>, e: Ev)
    ensures forall x :: x in Inserted(q, e) <==> x == e || x in q
  {
    var k := DueCount(q, e.expire);
    assert q == q[..k] + q[k..];
  }

  lemma RemovedMembers(q: seq<Ev>, id: nat)
    ensures forall x :: x in Removed(q, id) ==> x in q
  {
  }

  /** The newest event, expiring no earlier than anything already taken out. */
  lemma PutInOrder(done: seq<Ev>, q: seq<Ev>, e: Ev)
    requires Ordered(done + q) && forall x :: x in done + q ==> x.id < e.id
    requires forall x :: x in done ==> x.expire <= e.expire
    ensures Ordered(done + Inserted(q, e))
    ensures forall x :: x in done + Inserted(q, e) ==> x.id <= e.id
  {
    var r := Inserted(q, e);
    OrderedParts(done, q);
    InsertedMembers(q, e);
    assert forall x :: x in q ==> x in done + q;
    assert forall x :: x in done ==> x in done + q;
    InsertedOrdered(q, e);
    forall i, j | 0 <= i < |done| && 0 <= j < |r| ensures Precedes(done[i], r[j]) {
      assert done[i] in done && r[j] in r;
      if r[j] != e {
        var k :| 0 <= k < |q| && q[k] == r[j];
        assert Precedes(done[i], q[k]);
      }
    }
    OrderedParts(done, r);
  }

  lemma AddInOrder(c: Core, e: Ev)
    requires InOrder(c) && e.id == c.nextId && e.expire >= c.clock
    ensures InOrder(Added(c, e))
  {
    var done := c.delivered + Backlog(c);
    PutInOrder(done, c.blk.q, e);
    assert WithAdded(c.blk, e).q == Inserted(c.blk.q, e);
    assert Line(Added(c, e)) == done + Inserted(c.blk.q, e);
  }

  lemma CancelInOrder(c: Core, id: nat)
    requires InOrder(c)
    ensures InOrder(Withdrawn(c, id))
  {
    var done := c.delivered + Backlog(c);
    var q := Removed(c.blk.q, id);
    OrderedParts(done, c.blk.q);
    OrderedParts(done, q);
    RemovedOrdered(c.blk.q, id);
    RemovedMembers(c.blk.q, id);
    forall i, j | 0 <= i < |done| && 0 <= j < |q| ensures Precedes(done[i], q[j]) {
      assert q[j] in c.blk.q;
    }
  }

  lemma Regroup(a: seq<Ev>, b: seq<Ev>, c: seq<Ev>, d: seq<Ev>)
    ensures a + (b + c) + d == a + b + (c + d)
  {
  }

  lemma FiredQueue(b: Block, now: int)
    ensures var n := DueCount(b.q, now);
            Fired(b, now).q == b.q[n..] && forall e :: e in b.q[..n] ==> e.expire <= now
  {
  }

  lemma FireInOrder(c: Core)
    requires InOrder(c) && Enabled(c, Fire)
    ensures InOrder(Next(c, Fire))
  {
    hide Ordered, DueCount, Fired;
    FiredQueue(c.blk, c.clock);
    var n := DueCount(c.blk.q, c.clock);
    var d := Next(c, Fire);
    var due, rest := c.blk.q[..n], c.blk.q[n..];
    assert c.blk.q == due + rest && d.blk.q == rest && d.waiting == c.waiting + due;
    assert Backlog(d) == Backlog(c) + due;
    Regroup(c.delivered, Backlog(c), due, rest);
    forall e | e in d.delivered + Backlog(d) ensures e.expire <= d.clock {
      assert e in c.delivered + Backlog(c) || e in c.blk.q[..n];
    }
  }

  lemma DrainInOrder(c: Core)
    requires InOrder(c)
    ensures InOrder(Next(c, BeginDrain)) && InOrder(Next(c, EndDrain))
  {
    if Enabled(c, BeginDrain) {
      var d := Next(c, BeginDrain);
      assert c.waiting == [c.waiting[0]] + c.waiting[1..];
      assert d.delivered + Backlog(d) == c.delivered + Backlog(c);
      assert Line(d) == Line(c);
    }
    if Enabled(c, EndDrain) {
      assert Line(Next(c, EndDrain)) == Line(c);
    }
  }

  lemma CloseInOrder(c: Core)
    requires InOrder(c) && !c.running
    ensures InOrder(Next(c, Close))
  {
    var d := Next(c, Close);
    assert Line(d) == c.delivered && d.delivered + Backlog(d) == c.delivered;
    assert Line(c) == c.delivered + (Backlog(c) + c.blk.q);
    OrderedParts(c.delivered, Backlog(c) + c.blk.q);
  }

  lemma TickInOrder(c: Core, ns: nat)
    requires InOrder(c)
    ensures InOrder(c.(clock := c.clock + ns))
  {
    var d := c.(clock := c.clock + ns);
    assert Line(d) == Line(c) && Backlog(d) == Backlog(c);
  }

  lemma StepInOrder(c: Core, op: Op)
    requires InOrder(c)
    ensures InOrder(Next(c, op))
  {
    if Enabled(c, op) {
      match op
      case Tick(ns) => TickInOrder(c, ns);
      case Add(delay) =>
        NextAdd(c, delay);
        AddInOrder(c, Scheduled(c, delay));
      case Cancel(id) => CancelInOrder(c, id);
      case Fire => FireInOrder(c);
      case BeginDrain => DrainInOrder(c);
      case EndDrain => DrainInOrder(c);
      case Close => CloseInOrder(c);
    }
  }

  lemma StepSettled(c: Core, op: Op)
    requires Settled(c.blk)
    ensures Settled(Next(c, op).blk)
  {
    match op
    case Add(delay) =>
      if delay < U32 {
        NextAdd(c, delay);
        AddKeepsSettled(c.blk, Scheduled(c, delay));
      }
    case Cancel(id) => CancelKeepsSettled(c.blk, id);
    case _ =>
  }

  /** Whole-run timer order, under every interleaving, and with it the armed timer. */
  lemma {:induction false} AlwaysInOrder(ops: seq<Op>)
    ensures InOrder(Behave(ops)) && Settled(Behave(ops).blk)
    decreases |ops|
  {
    if ops != [] {
      AlwaysInOrder(ops[..|ops| - 1]);
      StepInOrder(Behave(ops[..|ops| - 1]), ops[|ops| - 1]);
      StepSettled(Behave(ops[..|ops| - 1]), ops[|ops| - 1]);
    }
  }

  /** An interrupt leaves nothing due in the queue. */
  lemma FireTakesAllDue(c: Core)
    requires Ordered(c.blk.q) && Enabled(c, Fire)
    ensures forall e :: e in Next(c, Fire).blk.q ==> e.expire > c.clock
  {
    var n := DueCount(c.blk.q, c.clock);
    forall e | e in c.blk.q[n..] ensures e.expire > c.clock {
      assert n < |c.blk.q| ==> c.blk.q[n].expire > c.clock;
      var i :| 0 <= i < |c.blk.q[n..]| && c.blk.q[n..][i] == e;
      assert i > 0 ==> Precedes(c.blk.q[n], c.blk.q[n + i]);
    }
  }

  // ----- conservation -----

  function Ids(q: seq<Ev>): (ids: seq<nat>)
    ensures |ids| == |q|
  {
    seq(|q|, i requires 0 <= i < |q| => q[i].id)
  }

  /** Where every event ever added is: pending, expired and waiting, delivered,
      cancelled or flushed. */
  function Ledger(c: Core): multiset<nat> {
    multiset(Ids(c.blk.q)) + multiset(Ids(Backlog(c))) + multiset(Ids(c.delivered))
    + multiset(Ids(c.cancelled)) + multiset(Ids(c.flushed))
  }

  /** Every event ever added is in exactly one place. */
  ghost predicate Conserved(c: Core) { OnceEach(Ledger(c), c.nextId) }

  ghost predicate OnceEach(ids: multiset<nat>, n: nat) {
    forall id: nat :: ids[id] == if id < n then 1 else 0
  }

  lemma OnceMore(ids: multiset<nat>, n: nat)
    requires OnceEach(ids, n)
    ensures OnceEach(ids + multiset{n}, n + 1)
  {
  }

  lemma NextIdAfter(c: Core, op: Op)
    ensures Next(c, op).nextId == if Enabled(c, op) && op.Add? then c.nextId + 1 else c.nextId
  {
  }

  lemma IdsConcat(a: seq<Ev>, b: seq<Ev>)
    ensures Ids(a + b) == Ids(a) + Ids(b)
    ensures multiset(Ids(a + b)) == multiset(Ids(a)) + multiset(Ids(b))
  {
    assert Ids(a + b) == Ids(a) + Ids(b);
  }

  lemma MiddleIds(a: seq<Ev>, x: Ev, b: seq<Ev>)
    ensures multiset(Ids(a + [x] + b)) == multiset(Ids(a + b)) + multiset{x.id}
  {
    IdsConcat(a + [x], b);
    IdsConcat(a, [x]);
    IdsConcat(a, b);
    assert Ids([x]) == [x.id];
  }

  lemma InsertedIds(q: seq<Ev>, e: Ev)
    ensures multiset(Ids(Inserted(q, e))) == multiset(Ids(q)) + multiset{e.id}
  {
    var k := DueCount(q, e.expire);
    MiddleIds(q[..k], e, q[k..]);
    assert q == q[..k] + q[k..];
  }

  lemma SplitAt(q: seq<Ev>, k: nat)
    requires k < |q|
    ensures q == q[..k] + [q[k]] + q[k + 1..]
  {
  }

  lemma RemovedIds(q: seq<Ev>, id: nat)
    requires IndexOf(q, id) < |q|
    ensures multiset(Ids(q)) == multiset(Ids(Removed(q, id))) + multiset{id}
  {
    var k := IndexOf(q, id);
    var a, x, b := q[..k], q[k], q[k + 1..];
    assert Removed(q, id) == a + b && x.id == id;
    SplitAt(q, k);
    MiddleIds(a, x, b);
  }

  lemma AddLedger(c: Core, e: Ev)
    ensures Ledger(Added(c, e)) == Ledger(c) + multiset{e.id}
  {
    InsertedIds(c.blk.q, e);
    assert WithAdded(c.blk, e).q == Inserted(c.blk.q, e);
    assert Backlog(Added(c, e)) == Backlog(c);
  }

  lemma AddOpLedger(c: Core, delay: nat)
    ensures Ledger(Next(c, Add(delay))) == if delay < U32 then Ledger(c) + multiset{c.nextId} else Ledger(c)
  {
    if delay < U32 {
      NextAdd(c, delay);
      AddLedger(c, Scheduled(c, delay));
    }
  }

  lemma MoveToCancelled(c: Core, d: Core, e: Ev)
    requires multiset(Ids(c.blk.q)) == multiset(Ids(d.blk.q)) + multiset{e.id}
    requires d.cancelled == c.cancelled + [e] && d.delivered == c.delivered && d.flushed == c.flushed
    requires d.waiting == c.waiting && d.running == c.running
    ensures Ledger(d) == Ledger(c)
  {
    IdsConcat(c.cancelled, [e]);
    assert Ids([e]) == [e.id];
  }

  lemma CancelLedger(c: Core, id: nat)
    ensures Ledger(Withdrawn(c, id)) == Ledger(c)
  {
    if CanCancel(c.blk, id) {
      RemovedIds(c.blk.q, id);
      WithCancelledQueue(c.blk, id);
      MoveToCancelled(c, Withdrawn(c, id), c.blk.q[IndexOf(c.blk.q, id)]);
    }
  }

  lemma MoveLedger(c: Core, d: Core, due: seq<Ev>, rest: seq<Ev>)
    requires c.blk.q == due + rest && d.blk.q == rest && Backlog(d) == Backlog(c) + due
    requires d.delivered == c.delivered && d.cancelled == c.cancelled && d.flushed == c.flushed
    ensures Ledger(d) == Ledger(c)
  {
    IdsConcat(due, rest);
    IdsConcat(Backlog(c), due);
  }

  lemma FireMoves(c: Core)
    requires (c.running ==> c.waiting != []) && Enabled(c, Fire)
    ensures var d, n := Next(c, Fire), DueCount(c.blk.q, c.clock);
            && c.blk.q == c.blk.q[..n] + c.blk.q[n..] && d.blk.q == c.blk.q[n..]
            && Backlog(d) == Backlog(c) + c.blk.q[..n]
            && d.delivered == c.delivered && d.cancelled == c.cancelled && d.flushed == c.flushed
  {
    hide DueCount;
  }

  lemma FireLedger(c: Core)
    requires c.running ==> c.waiting != []
    ensures Ledger(Next(c, Fire)) == Ledger(c)
  {
    if Enabled(c, Fire) {
      hide Ledger, Next, DueCount, Backlog;
      var n := DueCount(c.blk.q, c.clock);
      FireMoves(c);
      MoveLedger(c, Next(c, Fire), c.blk.q[..n], c.blk.q[n..]);
    } else {
      assert Next(c, Fire) == c;
    }
  }

  lemma MoveToDelivered(c: Core, d: Core, e: Ev)
    requires Backlog(c) == [e] + Backlog(d) && d.delivered == c.delivered + [e]
    requires d.blk.q == c.blk.q && d.cancelled == c.cancelled && d.flushed == c.flushed
    ensures Ledger(d) == Ledger(c)
  {
    IdsConcat([e], Backlog(d));
    IdsConcat(c.delivered, [e]);
  }

  lemma DrainLedger(c: Core)
    ensures Ledger(Next(c, BeginDrain)) == Ledger(c) == Ledger(Next(c, EndDrain))
  {
    if Enabled(c, BeginDrain) {
      MoveToDelivered(c, Next(c, BeginDrain), c.waiting[0]);
    }
  }

  lemma CloseLedger(c: Core)
    ensures Ledger(Next(c, Close)) == Ledger(c)
  {
    IdsConcat(c.flushed + c.blk.q, c.waiting);
    IdsConcat(c.flushed, c.blk.q);
  }

  /** One step changes the ledger only by the event it adds. */
  lemma StepLedger(c: Core, op: Op)
    requires c.running ==> c.waiting != []
    ensures Ledger(Next(c, op))
         == if Enabled(c, op) && op.Add? then Ledger(c) + multiset{c.nextId} else Ledger(c)
  {
    match op
    case Tick(_) =>
    case Add(delay) => AddOpLedger(c, delay);
    case Cancel(id) => CancelLedger(c, id);
    case Fire => FireLedger(c);
    case BeginDrain => DrainLedger(c);
    case EndDrain => DrainLedger(c);
    case Close => CloseLedger(c);
  }

  lemma StepConserved(c: Core, op: Op)
    requires Conserved(c) && (c.running ==> c.waiting != [])
    ensures Conserved(Next(c, op))
  {
    StepLedger(c, op);
    NextIdAfter(c, op);
    OnceMore(Ledger(c), c.nextId);
  }

  /** Event conservation over every run. */
  lemma {:induction false} AlwaysConserved(ops: seq<Op>)
    ensures Conserved(Behave(ops))
    decreases |ops|
  {
    if ops != [] {
      AlwaysConserved(ops[..|ops| - 1]);
      AlwaysInOrder(ops[..|ops| - 1]);
      StepConserved(Behave(ops[..|ops| - 1]), ops[|ops| - 1]);
    }
  }

  lemma TraceStep(c: Core, op: Op)
    ensures c.cancelled <= Next(c, op).cancelled && c.delivered <= Next(c, op).delivered
    ensures c.flushed <= Next(c, op).flushed
  {
  }

  lemma {:induction false} TracesGrow(ops: seq<Op>, more: seq<Op>)
    ensures Behave(ops).cancelled <= Behave(ops + more).cancelled
    ensures Behave(ops).delivered <= Behave(ops + more).delivered
    ensures Behave(ops).flushed <= Behave(ops + more).flushed
    decreases |more|
  {
    if more == [] {
      assert ops + more == ops;
    } else {
      var fewer, op := more[..|more| - 1], more[|more| - 1];
      var all := ops + more;
      assert all[..|all| - 1] == ops + fewer && all[|all| - 1] == op;
      TracesGrow(ops, fewer);
      TraceStep(Behave(ops + fewer), op);
      assert Behave(all) == Next(Behave(ops + fewer), op);
    }
  }

  lemma IdCounted(q: seq<Ev>, e: Ev)
    requires e in q
    ensures multiset(Ids(q))[e.id] > 0
  {
    var i :| 0 <= i < |q| && q[i] == e;
    assert Ids(q)[i] == e.id;
  }

  /** What has been cancelled or freed is not delivered. */
  lemma GoneNotDelivered(c: Core, e: Ev, f: Ev)
    requires Conserved(c) && f in c.delivered && (e in c.cancelled || e in c.flushed)
    ensures e.id != f.id
  {
    assert Ledger(c)[e.id] <= 1;
    IdCounted(c.delivered, f);
    if e in c.cancelled {
      IdCounted(c.cancelled, e);
    } else {
      IdCounted(c.flushed, e);
    }
  }

  /** An event that was cancelled with success is never delivered, neither before nor after. */
  lemma CancelledNeverDelivered(ops: seq<Op>, more: seq<Op>, e: Ev, f: Ev)
    requires e in Behave(ops).cancelled && f in Behave(ops + more).delivered
    ensures e.id != f.id
  {
    TracesGrow(ops, more);
    AlwaysConserved(ops + more);
    GoneNotDelivered(Behave(ops + more), e, f);
  }

  /** Cancelling an event that has expired and waits, or whose handler is
      running, fails and changes nothing. */
  lemma CancelTooLate(ops: seq<Op>, e: Ev)
    requires e in Behave(ops).waiting
    ensures var c := Behave(ops); !CanCancel(c.blk, e.id) && Next(c, Cancel(e.id)) == c
  {
    var c := Behave(ops);
    AlwaysConserved(ops);
    RunningIsDelivered(ops);
    if e in Backlog(c) {
      IdCounted(Backlog(c), e);
    } else {
      assert e == c.waiting[0] && e in c.delivered;
      IdCounted(c.delivered, e);
    }
    assert Ledger(c)[e.id] <= 1;
    if CanCancel(c.blk, e.id) {
      IdCounted(c.blk.q, c.blk.q[IndexOf(c.blk.q, e.id)]);
    }
  }

  /** The event whose handler is running heads the list and has just been delivered. */
  lemma {:induction false} RunningIsDelivered(ops: seq<Op>)
    ensures var c := Behave(ops);
            c.running ==> c.waiting != [] && c.delivered != [] && c.delivered[|c.delivered| - 1] == c.waiting[0]
    decreases |ops|
  {
    if ops != [] {
      RunningIsDelivered(ops[..|ops| - 1]);
    }
  }

  // ----- handles -----

  /** A handle is the address of the event. `at` says where each event was
      placed; an address may be used again once the event there has been freed. */
  type Placement = nat -> nat

  /** The events that have not been freed: pending, expired, or being handled. */
  function Unfreed(c: Core): seq<Ev> { c.blk.q + c.waiting }

  /** Events that have not been freed have addresses of their own. */
  ghost predicate PlacedApart(c: Core, at: Placement) {
    forall i, j :: 0 <= i < j < |Unfreed(c)| ==> at(Unfreed(c)[i].id) != at(Unfreed(c)[j].id)
  }

  /** The walk over the queue for the event at an address. */
  function FoundAt(q: seq<Ev>, at: Placement, addr: nat): (n: nat)
    ensures n <= |q|
    ensures n < |q| ==> at(q[n].id) == addr
    ensures forall i :: 0 <= i < n ==> at(q[i].id) != addr
  {
    if q == [] || at(q[0].id) == addr then 0 else 1 + FoundAt(q[1..], at, addr)
  }

  /** Cancelling by handle. */
  function WithdrawnAt(c: Core, at: Placement, addr: nat): Core {
    var n := FoundAt(c.blk.q, at, addr);
    if n < |c.blk.q| then Withdrawn(c, c.blk.q[n].id) else c
  }

  /** Every cancellation by handle is the cancellation of some event: what holds
      over all runs holds with handles. */
  lemma HandleIsCancel(c: Core, at: Placement, addr: nat)
    ensures WithdrawnAt(c, at, addr) == c || exists id :: WithdrawnAt(c, at, addr) == Next(c, Cancel(id))
  {
    var n := FoundAt(c.blk.q, at, addr);
    if n < |c.blk.q| {
      assert WithdrawnAt(c, at, addr) == Next(c, Cancel(c.blk.q[n].id));
    }
  }

  /** What the handle of an event does, in every state of every run: it cancels
      that event while it is pending and nothing while it waits or is handled.
      Once the event has been freed it changes something if and only if its
      address is that of a pending event, and then cancels that one. */
  lemma HandleCancels(ops: seq<Op>, at: Placement, e: Ev)
    requires PlacedApart(Behave(ops), at)
    ensures var c := Behave(ops);
            var d := WithdrawnAt(c, at, at(e.id));
            && (e in c.blk.q ==> d == Withdrawn(c, e.id) && d != c)
            && (e in c.waiting ==> d == c)
            && (d != c <==> exists f :: f in c.blk.q && at(f.id) == at(e.id))
            && (forall f :: f in c.blk.q && at(f.id) == at(e.id) ==> d == Withdrawn(c, f.id))
  {
    hide Behave, IndexOf;
    var c := Behave(ops);
    var addr := at(e.id);
    var n := FoundAt(c.blk.q, at, addr);
    forall f | f in c.blk.q && at(f.id) == addr ensures n < |c.blk.q| && f == c.blk.q[n] {
      var i :| 0 <= i < |c.blk.q| && c.blk.q[i] == f;
      assert Unfreed(c)[i] == f && (n < |c.blk.q| ==> Unfreed(c)[n] == c.blk.q[n]);
    }
    if n < |c.blk.q| {
      var f := c.blk.q[n];
      assert f in c.blk.q && at(f.id) == addr;
      WithdrawnChanges(c, n);
    }
    WaitsElsewhere(c, at);
  }

  /** A handle goes wrong only once its event has been freed: until then it does
      what cancelling the event does. */
  lemma HandleRightUntilFreed(ops: seq<Op>, at: Placement, e: Ev)
    requires PlacedApart(Behave(ops), at) && e in Unfreed(Behave(ops))
    ensures WithdrawnAt(Behave(ops), at, at(e.id)) == Withdrawn(Behave(ops), e.id)
  {
    HandleCancels(ops, at, e);
    if e !in Behave(ops).blk.q {
      CancelTooLate(ops, e);
    }
  }

  lemma BehaveStep(ops: seq<Op>, op: Op)
    ensures Behave(ops + [op]) == Next(Behave(ops), op)
  {
    assert (ops + [op])[..|ops|] == ops;
  }

  /** An event is added, fires and is handled; then another one is added. */
  const REUSE: seq<Op> := [Add(1), Tick(10000), Fire] + [BeginDrain] + [EndDrain] + [Add(1)]

  /** With both events placed at one address, the handle of the first one, which
      has been freed, cancels the second. */
  lemma StaleHandleFails()
    ensures var c, at := Behave(REUSE), (id: nat) => 7;
            && PlacedApart(c, at) && c.blk.q == [Ev(1, 20000)] && c.delivered == [Ev(0, 10000)]
            && WithdrawnAt(c, at, at(0)).cancelled == [Ev(1, 20000)]
  {
    hide Behave, WithdrawnAt;
    SecondAdded();
    CancelsSecond(Behave(REUSE), (id: nat) => 7);
  }

  lemma SecondAdded()
    ensures Behave(REUSE)
         == Core(Block([Ev(1, 20000)], RUN, Some(20000)), [], false, 10000, 2, [Ev(0, 10000)], [], [])
  {
    hide Behave, Next;
    FirstExpires();
    SecondSteps();
    BehaveStep([Add(1), Tick(10000), Fire], BeginDrain);
    BehaveStep([Add(1), Tick(10000), Fire] + [BeginDrain], EndDrain);
    BehaveStep([Add(1), Tick(10000), Fire] + [BeginDrain] + [EndDrain], Add(1));
  }

  lemma SecondSteps()
    ensures var none, first, second := Block([], STOP, None), Ev(0, 10000), Ev(1, 20000);
            && Next(Core(none, [first], false, 10000, 1, [], [], []), BeginDrain)
               == Core(none, [first], true, 10000, 1, [first], [], [])
            && Next(Core(none, [first], true, 10000, 1, [first], [], []), EndDrain)
               == Core(none, [], false, 10000, 1, [first], [], [])
            && Next(Core(none, [], false, 10000, 1, [first], [], []), Add(1))
               == Core(Block([second], RUN, Some(20000)), [], false, 10000, 2, [first], [], [])
  {
    hide WithAdded;
    AddToEmpty(1, 20000);
  }

  lemma AddToEmpty(id: nat, expire: int)
    ensures WithAdded(Block([], STOP, None), Ev(id, expire)) == Block([Ev(id, expire)], RUN, Some(expire))
  {
    var none: seq<Ev>, e := [], Ev(id, expire);
    assert DueCount(none, expire) == 0 && none[..0] + [e] + none[0..] == [e];
    hide DueCount;
    assert Inserted(none, e) == [e];
  }

  lemma CancelsSecond(c: Core, at: Placement)
    requires c.blk.q == [Ev(1, 20000)] && c.waiting == [] && c.cancelled == [] && at(0) == at(1)
    ensures PlacedApart(c, at) && WithdrawnAt(c, at, at(0)).cancelled == [Ev(1, 20000)]
  {
    assert FoundAt(c.blk.q, at, at(0)) == 0 && CanCancel(c.blk, 1) && IndexOf(c.blk.q, 1) == 0;
    assert [] + [Ev(1, 20000)] == [Ev(1, 20000)];
  }

  lemma FirstExpires()
    ensures Behave([Add(1), Tick(10000), Fire])
         == Core(Block([], STOP, None), [Ev(0, 10000)], false, 10000, 1, [], [], [])
  {
    hide Behave, Next;
    NoOps();
    FirstSteps();
    BehaveStep([], Add(1));
    BehaveStep([Add(1)], Tick(10000));
    BehaveStep([Add(1), Tick(10000)], Fire);
    assert [] + [Add(1)] == [Add(1)] && [Add(1)] + [Tick(10000)] == [Add(1), Tick(10000)];
    assert [Add(1), Tick(10000)] + [Fire] == [Add(1), Tick(10000), Fire];
  }

  lemma FirstSteps()
    ensures var b := Block([Ev(0, 10000)], RUN, Some(10000));
            && Next(InitialCore(), Add(1)) == Core(b, [], false, 0, 1, [], [], [])
            && Next(Core(b, [], false, 0, 1, [], [], []), Tick(10000)) == Core(b, [], false, 10000, 1, [], [], [])
            && Next(Core(b, [], false, 10000, 1, [], [], []), Fire)
               == Core(Block([], STOP, None), [Ev(0, 10000)], false, 10000, 1, [], [], [])
  {
    hide WithAdded;
    AddToEmpty(0, 10000);
    assert DueCount([Ev(0, 10000)], 10000) == 1;
  }

  lemma NoOps()
    ensures Behave([]) == InitialCore()
  {
  }

  /** An event that waits or is handled does not share its address with a pending one. */
  lemma WaitsElsewhere(c: Core, at: Placement)
    requires PlacedApart(c, at)
    ensures forall e, f :: e in c.waiting && f in c.blk.q ==> at(f.id) != at(e.id)
  {
    forall e, f | e in c.waiting && f in c.blk.q ensures at(f.id) != at(e.id) {
      var i :| 0 <= i < |c.blk.q| && c.blk.q[i] == f;
      var j :| 0 <= j < |c.waiting| && c.waiting[j] == e;
      assert Unfreed(c)[i] == f && Unfreed(c)[|c.blk.q| + j] == e;
    }
  }

  lemma WithdrawnChanges(c: Core, n: nat)
    requires n < |c.blk.q|
    ensures Withdrawn(c, c.blk.q[n].id) != c
  {
    var id := c.blk.q[n].id;
    assert CanCancel(c.blk, id);
    assert Withdrawn(c, id).cancelled != c.cancelled;
  }
}
