/** What the runs of a transmitter and a receiver achieve: exactly the SDUs that
    end before the first PDU that is missing have been handed up, and grants and
    arrivals always get everything delivered. */
module Delivery {
  import opened Wire
  import opened Segmenter
  import opened Reassembler
  import opened Stream
  import opened ReceiveWindow
  import opened EndToEnd
  import opened NumericRuns
  import opened Wrappers

  lemma BehaveStep(rd: Reading, es: seq<Event>, e: Event)
    ensures Behave(rd, es + [e]) == Next(rd, Behave(rd, es), e)
  {
    assert (es + [e])[..|es|] == es;
  }

  // ----- what the events say -----

  /** The SDUs that were queued. */
  function QueuedIn(es: seq<Event>): seq<Bytes> {
    if es == [] then []
    else
      var e := es[|es| - 1];
      QueuedIn(es[..|es| - 1]) + if e.Transmit? && e.command.Enqueue? then [e.command.skb] else []
  }

  /** The PDUs that arrived, each when it could. */
  ghost function ArrivedIn(rd: Reading, es: seq<Event>): set<nat> {
    if es == [] then {}
    else
      var fewer, e := es[..|es| - 1], es[|es| - 1];
      ArrivedIn(rd, fewer) + if e.Arrive? && Possible(rd, Behave(rd, fewer), e) then {e.pdu} else {}
  }

  lemma {:induction false} RunRecords(rd: Reading, es: seq<Event>)
    ensures Behave(rd, es).sdus == QueuedIn(es) && Behave(rd, es).arrived == ArrivedIn(rd, es)
    decreases |es|
  {
    if es != [] {
      RunRecords(rd, es[..|es| - 1]);
    }
  }

  /** How many SDUs end in these PDUs. */
  function Completed(pdus: seq<Pdu>): int {
    if pdus == [] then 0
    else
      var p := pdus[|pdus| - 1];
      Completed(pdus[..|pdus| - 1]) + |p.pieces| - if p.fiSecond then 1 else 0
  }

  lemma {:induction false} CursorCounts(sdus: seq<Bytes>, cs: seq<Cursor>, pdus: seq<Pdu>, n: nat)
    requires IsStream(sdus, cs, pdus) && n <= |pdus|
    ensures Completed(pdus[..n]) == cs[n].k
    decreases n
  {
    if n > 0 {
      CursorCounts(sdus, cs, pdus, n - 1);
      assert pdus[..n][..n - 1] == pdus[..n - 1] && pdus[..n][n - 1] == pdus[n - 1];
      assert Carries(sdus, cs[n - 1], cs[n], pdus[n - 1]);
    }
  }

  // ----- the first missing PDU -----

  /** What VR(R) has passed and what is in the window has arrived. */
  ghost predicate OnlyArrived(s: Sys) { HoldsOnly(s.rx.window, s.base, s.arrived) }

  ghost predicate HoldsOnly(w: Window, base: nat, arrived: set<nat>) {
    && (forall j :: 0 <= j < base ==> j in arrived)
    && (forall d :: 0 <= d < AM_WINDOW_SIZE && w[At(base, d)].Some? ==> base + d in arrived)
  }

  lemma ArrivalKeepsOnly(rd: Reading, s: Sys, cs: seq<Cursor>, i: nat)
    requires Typed(s) && Coupled(rd, s, cs) && Possible(rd, s, Arrive(i)) && OnlyArrived(s)
    ensures OnlyArrived(Next(rd, s, Arrive(i))) && Next(rd, s, Arrive(i)).arrived == s.arrived + {i}
  {
    hide Accepted, AdvanceR, AdvanceMs, Store, WindowHolds, Carries, Readable, HeldAt, AfterPassing, IsStream,
         AllOccupied, OccupiedWithin, RxInv, NumericGoesWrong, Accounted, Next;
    if i < s.base || s.rx.window[i % SN_MODULUS].Some? {
      RepeatChanges(rd, s, cs, i);
    } else {
      var w, h, n := StoredNext(rd, s, cs, i);
      PassingShows(rd, w, s.rx, h, n);
      PassedArrived(s, w, i, n, h);
    }
  }

  lemma PassingShows(rd: Reading, w: Window, rx: Rx, h: nat, n: nat)
    requires rx.vrR < SN_MODULUS && rx.vrMs < SN_MODULUS
    ensures AfterPassing(rd.mask, w, rx, h, n).window == Cleared(w, rx.vrR, n)
  {
  }

  lemma RepeatChanges(rd: Reading, s: Sys, cs: seq<Cursor>, i: nat)
    requires Typed(s) && Coupled(rd, s, cs) && Possible(rd, s, Arrive(i))
    requires i < s.base || s.rx.window[i % SN_MODULUS].Some?
    ensures Next(rd, s, Arrive(i)) == s.(arrived := s.arrived + {i})
  {
    hide Accepted, AdvanceR, AdvanceMs, Store, At, Dist, WindowHolds, Carries, Readable, HeldAt, RxInv;
    NotAccepted(s.rx, s.base, i, Octets(s.tx.sent[i]));
  }

  lemma PassedArrived(s: Sys, w: Window, i: nat, n: nat, h: nat)
    requires OnlyArrived(s) && s.base <= i < s.base + AM_WINDOW_SIZE && n <= h <= AM_WINDOW_SIZE
    requires w == s.rx.window[i % SN_MODULUS := w[i % SN_MODULUS]] && w[i % SN_MODULUS].Some?
    requires AllOccupied(w, s.base % SN_MODULUS, n) && OccupiedWithin(w, s.base % SN_MODULUS, h)
    ensures HoldsOnly(Cleared(w, s.base % SN_MODULUS, n), s.base + n, s.arrived + {i})
  {
    StoredOnly(s.rx.window, w, s.base, s.arrived, i);
    ClearedOnly(w, s.base, s.arrived + {i}, n, h);
  }

  lemma StoredOnly(w: Window, stored: Window, base: nat, arrived: set<nat>, i: nat)
    requires HoldsOnly(w, base, arrived) && base <= i < base + AM_WINDOW_SIZE
    requires stored == w[i % SN_MODULUS := stored[i % SN_MODULUS]]
    ensures HoldsOnly(stored, base, arrived + {i})
  {
    SlotOf(base, i);
  }

  lemma ClearedOnly(w: Window, base: nat, arrived: set<nat>, n: nat, h: nat)
    requires HoldsOnly(w, base, arrived) && n <= h <= AM_WINDOW_SIZE
    requires AllOccupied(w, base % SN_MODULUS, n) && OccupiedWithin(w, base % SN_MODULUS, h)
    ensures HoldsOnly(Cleared(w, base % SN_MODULUS, n), base + n, arrived)
  {
    hide At, Cleared, OccupiedWithin;
    var edge, c := base + n, Cleared(w, base % SN_MODULUS, n);
    AtResidue(base);
    forall j | 0 <= j < edge ensures j in arrived {
      assert j >= base ==> w[At(base % SN_MODULUS, j - base)].Some?;
    }
    forall d | 0 <= d < AM_WINDOW_SIZE && c[At(edge, d)].Some? ensures edge + d in arrived {
      StillOccupied(w, base, n, h, d);
    }
  }

  lemma StillOccupied(w: Window, base: nat, n: nat, h: nat, d: nat)
    requires n <= h <= AM_WINDOW_SIZE && OccupiedWithin(w, base % SN_MODULUS, h) && d < AM_WINDOW_SIZE
    requires Cleared(w, base % SN_MODULUS, n)[At(base + n, d)].Some?
    ensures n + d < AM_WINDOW_SIZE && w[At(base, n + d)].Some?
  {
    hide At, Dist, Cleared;
    MovedSlot(base, n, d);
    DistAt(base % SN_MODULUS, n + d);
    ClearedSlots(w, base % SN_MODULUS, n);
  }

  /** In every state VR(R) is the number of the first PDU that has not arrived. */
  lemma {:induction false} AlwaysOnlyArrived(rd: Reading, es: seq<Event>)
    ensures OnlyArrived(Behave(rd, es)) && Behave(rd, es).base !in Behave(rd, es).arrived
    decreases |es|
  {
    hide Coupled, OnlyArrived;
    var cs := RunIsCoupled(rd, es);
    BaseIsMissing(rd, Behave(rd, es), cs);
    if es == [] {
      NothingArrived();
    } else {
      var s, e := Behave(rd, es[..|es| - 1]), es[|es| - 1];
      AlwaysOnlyArrived(rd, es[..|es| - 1]);
      var ds := RunIsCoupled(rd, es[..|es| - 1]);
      if Possible(rd, s, e) && e.Arrive? {
        ArrivalKeepsOnly(rd, s, ds, e.pdu);
      } else {
        SameReceiver(s, Behave(rd, es));
      }
    }
  }

  lemma NothingArrived()
    ensures OnlyArrived(Start())
  {
  }

  lemma SameReceiver(s: Sys, t: Sys)
    requires OnlyArrived(s) && t.rx == s.rx && t.base == s.base && t.arrived == s.arrived
    ensures OnlyArrived(t)
  {
  }

  lemma BaseIsMissing(rd: Reading, s: Sys, cs: seq<Cursor>)
    requires Coupled(rd, s, cs)
    ensures s.base !in s.arrived && s.base <= |s.tx.sent| && Accounted(s.arrived, s.rx.window, s.base) && RxInv(s.rx)
    ensures s.rx.vrR == s.base % SN_MODULUS
  {
    hide WindowHolds, Carries, HeldAt, IsStream, Readable;
  }

  /** Exact delivery, in every state of every run: handed up are exactly the SDUs
      that end in the PDUs before the first one that has not arrived. */
  lemma DeliversExactly(rd: Reading, es: seq<Event>) returns (missing: nat)
    ensures var s := Behave(rd, es);
            && (forall j :: 0 <= j < missing ==> j in ArrivedIn(rd, es)) && missing !in ArrivedIn(rd, es)
            && missing <= |s.tx.sent| && 0 <= Completed(s.tx.sent[..missing]) <= |QueuedIn(es)|
            && s.rx.upper == QueuedIn(es)[..Completed(s.tx.sent[..missing])]
  {
    hide WindowHolds, HeldAt, Readable, Accounted, RxInv;
    var s := Behave(rd, es);
    missing := s.base;
    var cs := RunIsCoupled(rd, es);
    RunRecords(rd, es);
    AlwaysOnlyArrived(rd, es);
    CursorCounts(s.sdus, cs, s.tx.sent, missing);
  }

  // ----- everything gets delivered -----

  function Enqueues(sdus: seq<Bytes>): seq<Event> {
    if sdus == [] then [] else Enqueues(sdus[..|sdus| - 1]) + [Transmit(Enqueue(sdus[|sdus| - 1]))]
  }

  function Grants(gs: seq<nat>): seq<Event> {
    if gs == [] then [] else Grants(gs[..|gs| - 1]) + [Transmit(Grant(gs[|gs| - 1]))]
  }

  /** The PDUs from number `from` up to, but not including, number `end` arrive in order. */
  function Arrivals(from: nat, end: nat): seq<Event>
    requires from <= end
  {
    if from == end then [] else Arrivals(from, end - 1) + [Arrive(end - 1)]
  }

  /** Each of the grants can be made, and has room for an octet. */
  ghost predicate AllGrantable(rd: Reading, es: seq<Event>, gs: seq<nat>) {
    forall i {:trigger gs[i]} :: 0 <= i < |gs| ==>
      gs[i] > 2 && GrantOk(rd, Behave(rd, es + Grants(gs[..i])), gs[i])
  }

  lemma FewerGrantable(rd: Reading, es: seq<Event>, gs: seq<nat>, n: nat)
    requires AllGrantable(rd, es, gs) && n <= |gs|
    ensures AllGrantable(rd, es, gs[..n])
  {
    forall i | 0 <= i < n ensures gs[..n][i] > 2 && GrantOk(rd, Behave(rd, es + Grants(gs[..n][..i])), gs[..n][i]) {
      assert gs[..n][..i] == gs[..i] && gs[..n][i] == gs[i];
    }
  }

  /** Each grant takes off the work that is left, and the receiver stands still. */
  lemma {:induction false} GrantsWork(rd: Reading, es: seq<Event>, gs: seq<nat>)
    requires AllGrantable(rd, es, gs)
    ensures var s, t := Behave(rd, es), Behave(rd, es + Grants(gs));
            && (t.tx.queue == [] || Work(t.tx.queue) + |gs| <= Work(s.tx.queue))
            && t == s.(tx := t.tx) && |t.tx.sent| >= |s.tx.sent|
    decreases |gs|
  {
    hide Behave, Work, Segmenter.Step, GrantOk;
    if gs == [] {
      assert es + Grants(gs) == es;
    } else {
      var n := |gs| - 1;
      FewerGrantable(rd, es, gs, n);
      GrantsWork(rd, es, gs[..n]);
      var t := Behave(rd, es + Grants(gs[..n]));
      assert gs[n] > 2 && GrantOk(rd, t, gs[n]);
      assert es + Grants(gs) == es + Grants(gs[..n]) + [Transmit(Grant(gs[n]))];
      BehaveStep(rd, es + Grants(gs[..n]), Transmit(Grant(gs[n])));
      GrantSends(t.tx, gs[n]);
    }
  }

  /** Nothing beyond VR(R) has arrived: the window is empty and VR(H) is VR(R). */
  lemma NothingAhead(rd: Reading, es: seq<Event>)
    requires var s := Behave(rd, es); forall j :: j in s.arrived ==> j < s.base
    ensures Behave(rd, es).rx.vrH == Behave(rd, es).rx.vrR
  {
    var s := Behave(rd, es);
    AlwaysTight(rd, es);
    AlwaysOnlyArrived(rd, es);
    var cs := RunIsCoupled(rd, es);
    BaseIsMissing(rd, s, cs);
    AtResidue(s.base);
    HighAtEdge(s);
  }

  lemma HighAtEdge(s: Sys)
    requires OnlyArrived(s) && Tight(s.rx) && RxInv(s.rx) && s.rx.vrR == s.base % SN_MODULUS
    requires forall j :: j in s.arrived ==> j < s.base
    ensures s.rx.vrH == s.rx.vrR
  {
    var h := Dist(s.rx.vrR, s.rx.vrH);
    AtDist(s.rx.vrR, s.rx.vrH);
    AtZero(s.rx.vrR);
    AtResidue(s.base);
  }

  /** The channel may deliver in ascending order from the first missing PDU on;
      under the numeric comparison, if nothing beyond it has arrived before. */
  lemma {:induction false} ArrivalsArrive(rd: Reading, es: seq<Event>, end: nat)
    requires var s := Behave(rd, es);
             && s.base <= end <= |s.tx.sent|
             && (rd.test == Modular || forall j :: j in s.arrived ==> j < s.base)
    ensures var s := Behave(rd, es);
            var t := Behave(rd, es + Arrivals(s.base, end));
            && t.tx == s.tx && t.sdus == s.sdus
            && (forall j :: j in t.arrived <==> j in s.arrived || s.base <= j < end)
    decreases end
  {
    hide Behave, AfterArrival, Typed, NumericGoesWrong;
    var s := Behave(rd, es);
    if end == s.base {
      assert es + Arrivals(s.base, end) == es;
    } else {
      ArrivalsArrive(rd, es, end - 1);
      var most := es + Arrivals(s.base, end - 1);
      assert es + Arrivals(s.base, end) == most + [Arrive(end - 1)];
      MayArrive(rd, es, most, end - 1);
      BehaveStep(rd, most, Arrive(end - 1));
      ArrivalRecords(rd, Behave(rd, most), end - 1);
    }
  }

  /** What a PDU that arrives changes: the receiver, and the record of arrivals. */
  lemma ArrivalRecords(rd: Reading, s: Sys, i: nat)
    requires Typed(s) && Possible(rd, s, Arrive(i))
    ensures var t := Next(rd, s, Arrive(i));
            t.arrived == s.arrived + {i} && t.tx == s.tx && t.sdus == s.sdus
  {
  }

  /** The next PDU in order is within reach of the window. */
  lemma MayArrive(rd: Reading, es: seq<Event>, most: seq<Event>, i: nat)
    requires var s, t := Behave(rd, es), Behave(rd, most);
             && s.base <= i < |s.tx.sent| && t.tx == s.tx
             && (rd.test == Modular || forall j :: j in s.arrived ==> j < s.base)
             && forall j :: j in t.arrived <==> j in s.arrived || s.base <= j < i
    ensures Possible(rd, Behave(rd, most), Arrive(i))
  {
    hide Behave, Coupled, OnlyArrived, RxInv;
    var s, t := Behave(rd, es), Behave(rd, most);
    var cs := RunIsCoupled(rd, es);
    var ds := RunIsCoupled(rd, most);
    BaseIsMissing(rd, s, cs);
    BaseIsMissing(rd, t, ds);
    AlwaysOnlyArrived(rd, es);
    AlwaysOnlyArrived(rd, most);
    AllBefore(s);
    AllBefore(t);
    assert t.base > i + AM_WINDOW_SIZE ==> t.base - 1 in t.arrived;
    if rd.test == Numeric {
      assert t.base > i ==> t.base - 1 in t.arrived;
      NothingAhead(rd, most);
    }
  }

  lemma AllBefore(s: Sys)
    requires OnlyArrived(s)
    ensures forall j :: 0 <= j < s.base ==> j in s.arrived
  {
  }

  /** From every state of every run everything can be delivered, and is: by as
      many grants as there is work left and the arrival of the PDUs that are missing. */
  lemma CanFinish(rd: Reading, es: seq<Event>, gs: seq<nat>)
    requires AllGrantable(rd, es, gs) && |gs| >= Work(Behave(rd, es).tx.queue)
    requires rd.test == Modular || forall j :: j in Behave(rd, es).arrived ==> j < Behave(rd, es).base
    ensures var s, t := Behave(rd, es), Behave(rd, es + Grants(gs));
            && s.base <= |t.tx.sent|
            && Behave(rd, es + Grants(gs) + Arrivals(s.base, |t.tx.sent|)).rx.upper == s.sdus
  {
    hide Behave, Work, OnlyArrived, AllGrantable, Coupled;
    var s, granted := Behave(rd, es), es + Grants(gs);
    var t := Behave(rd, granted);
    GrantsWork(rd, es, gs);
    WorkIsOctets(t.tx.queue);
    var cs := RunIsCoupled(rd, es);
    BaseIsMissing(rd, s, cs);
    AlwaysOnlyArrived(rd, es);
    AllBefore(s);
    ArrivalsArrive(rd, granted, |t.tx.sent|);
    DeliversAll(rd, granted + Arrivals(s.base, |t.tx.sent|));
  }

  lemma {:induction false} AfterEnqueues(rd: Reading, sdus: seq<Bytes>)
    ensures Behave(rd, Enqueues(sdus)) == Sys(sdus, Tx(Whole(sdus), 0, []), InitialRx(), 0, {})
    decreases |sdus|
  {
    hide Behave;
    if sdus == [] {
      NoEvents(rd);
    } else {
      var n := |sdus| - 1;
      AfterEnqueues(rd, sdus[..n]);
      BehaveStep(rd, Enqueues(sdus[..n]), Transmit(Enqueue(sdus[n])));
      assert sdus[..n] + [sdus[n]] == sdus;
      assert Whole(sdus[..n]) + [Sdu(sdus[n], FULL_SDU)] == Whole(sdus);
    }
  }

  lemma NoEvents(rd: Reading)
    ensures Behave(rd, []) == Start()
  {
  }

  lemma {:induction false} WorkOfWhole(sdus: seq<Bytes>)
    requires forall i :: 0 <= i < |sdus| ==> sdus[i] != []
    ensures Work(Whole(sdus)) == |Flatten(sdus)|
  {
    if sdus != [] {
      WorkOfWhole(sdus[1..]);
      assert Whole(sdus)[1..] == Whole(sdus[1..]);
    }
  }

  /** Runs deliver: SDUs are queued, at least as many grants are made as there are
      octets, every PDU arrives once and in order, and all SDUs are handed up. */
  lemma RunDelivers(rd: Reading, sdus: seq<Bytes>, gs: seq<nat>)
    requires forall i :: 0 <= i < |sdus| ==> sdus[i] != []
    requires AllGrantable(rd, Enqueues(sdus), gs) && |gs| >= |Flatten(sdus)|
    ensures var granted := Enqueues(sdus) + Grants(gs);
            Behave(rd, granted + Arrivals(0, |Behave(rd, granted).tx.sent|)).rx.upper == sdus
  {
    hide Behave, AllGrantable, Work, Whole, Flatten;
    AfterEnqueues(rd, sdus);
    WorkOfWhole(sdus);
    CanFinish(rd, Enqueues(sdus), gs);
  }

  /** Under the mask that was written every moderate grant can be made. */
  lemma ModerateGrantable(rd: Reading, es: seq<Event>, gs: seq<nat>)
    requires rd.mask == Written && forall i :: 0 <= i < |gs| ==> 2 < gs[i] <= MAX_GRANT
    ensures AllGrantable(rd, es, gs)
  {
    forall i | 0 <= i < |gs| ensures gs[i] > 2 && GrantOk(rd, Behave(rd, es + Grants(gs[..i])), gs[i]) {
      ModerateFits(Behave(rd, es + Grants(gs[..i])).tx.queue, gs[i]);
    }
  }
}
