/** The receiver object in the runs of the whole system: its fixed arrays and
    sixteen-bit lengths suffice, and what loss leaves of a run. */
module ReceiverInRuns {
  import opened Wire
  import opened Segmenter
  import opened Reassembler
  import opened Stream
  import opened ReceiveWindow
  import opened AmReception
  import opened LossSafety
  import opened EndToEnd
  import opened Wrappers

  const MAX_SDU := 0x7fff

  /** No SDU is longer than an LI can say, and no PDU has more pieces than the
      receiver has places for. */
  ghost predicate Moderate(sdus: seq<Bytes>, sent: seq<Pdu>) {
    && (forall k :: 0 <= k < |sdus| ==> |sdus[k]| <= MAX_SDU)
    && (forall i :: 0 <= i < |sent| ==> |sent[i].pieces| <= MAX_NUM + 1)
  }

  /** The grants of a run are at most `limit`. */
  ghost predicate GrantsWithin(es: seq<Event>, limit: nat) {
    forall j :: 0 <= j < |es| ==> es[j].Transmit? && es[j].command.Grant? ==> es[j].command.octets <= limit
  }

  /** No PDU of a run is longer than the largest grant. */
  lemma {:induction false} SentWithinGrants(rd: Reading, es: seq<Event>, limit: nat, i: nat)
    requires GrantsWithin(es, limit) && i < |Behave(rd, es).tx.sent|
    ensures |Print(Behave(rd, es).tx.sent[i])| <= limit
    decreases |es|
  {
    if es != [] {
      var s, e := Behave(rd, es[..|es| - 1]), es[|es| - 1];
      if i < |s.tx.sent| {
        SentWithinGrants(rd, es[..|es| - 1], limit, i);
        SentStays(rd, s, e, i);
      } else {
        hide Print, SegmentPdu, SegmentRest, Printable, Next, Behave;
        NewestSent(rd, s, e, i);
        SegmentLength(s.tx.queue, s.tx.sn, e.command.octets);
      }
    }
  }

  lemma NewestSent(rd: Reading, s: Sys, e: Event, i: nat)
    requires Typed(s) && |s.tx.sent| <= i < |Next(rd, s, e).tx.sent|
    ensures e.Transmit? && e.command.Grant? && e.command.octets > 2 && s.tx.queue != []
    ensures Next(rd, s, e).tx.sent[i] == SegmentPdu(s.tx.queue, s.tx.sn, e.command.octets)
  {
  }

  lemma SentStays(rd: Reading, s: Sys, e: Event, i: nat)
    requires Typed(s) && i < |s.tx.sent|
    ensures i < |Next(rd, s, e).tx.sent| && Next(rd, s, e).tx.sent[i] == s.tx.sent[i]
  {
  }

  /** The walk over empty slots needs no room. */
  lemma {:induction false} EmptySlotsFit(m: EMask, w: Window, left: PduLeft, i: nat, d: nat, r: nat)
    requires i < SN_MODULUS && r < SN_MODULUS && d <= Dist(i, r)
    requires forall j :: 0 <= j < d ==> w[At(i, j)].None?
    ensures WalkFits(m, w, left, i, r) == WalkFits(m, w, left, At(i, d), r)
    decreases d
  {
    hide At, Dist, Deliverable, DeliverSlot;
    AtZero(i);
    if d > 0 {
      AtZero(r);
      var next := At(i, 1);
      assert w[At(i, 0)].None?;
      DistShift(i, 1, r);
      forall j | 0 <= j < d - 1 ensures w[At(next, j)].None? {
        AtAt(i, 1, j);
      }
      EmptySlotsFit(m, w, left, next, d - 1, r);
      AtAt(i, 1, d - 1);
    }
  }

  /** Slot `j` is deliverable, takes the receiver to the next cursor, and fits. */
  ghost predicate SlotFits(m: EMask, sdus: seq<Bytes>, cs: seq<Cursor>, w: Window, j: nat)
    requires j + 1 < |cs| && CursorOk(sdus, cs[j]) && CursorOk(sdus, cs[j + 1])
  {
    SlotDelivers(m, sdus, cs, w, j) && Deliverable(m, HeldAt(sdus, cs[j], SnBefore(j)), w[j % SN_MODULUS].value)
  }

  lemma {:induction false} PassedSlotsFit(m: EMask, sdus: seq<Bytes>, cs: seq<Cursor>, w: Window, base: nat, end: nat)
    requires base <= end < |cs| && end - base < SN_MODULUS && (forall j :: base <= j <= end ==> CursorOk(sdus, cs[j]))
    requires forall j :: base <= j < end ==> SlotFits(m, sdus, cs, w, j)
    ensures WalkFits(m, w, HeldAt(sdus, cs[base], SnBefore(base)), base % SN_MODULUS, end % SN_MODULUS)
    decreases end - base
  {
    hide At, Dist, Deliverable, DeliverSlot, HeldAt, SnBefore, CursorOk;
    if base < end {
      assert SlotFits(m, sdus, cs, w, base);
      NextResidue(base);
      var rest: Window := w[base % SN_MODULUS := None];
      forall j | base < j < end ensures SlotFits(m, sdus, cs, rest, j) {
        OtherResidue(base, j);
        assert SlotFits(m, sdus, cs, w, j);
      }
      PassedSlotsFit(m, sdus, cs, rest, base + 1, end);
    }
  }

  lemma OtherResidue(i: nat, j: nat)
    requires i < j < i + SN_MODULUS
    ensures i % SN_MODULUS != j % SN_MODULUS
  {
  }

  lemma FilledFits(rd: Reading, s: Sys, cs: seq<Cursor>, w: Window, j: nat)
    requires Typed(s) && Coupled(rd, s, cs) && Moderate(s.sdus, s.tx.sent) && j < |s.tx.sent|
    requires Filled(w, s.tx.sent, j) && |Print(s.tx.sent[j])| <= MAX_GRANT
    ensures SlotFits(rd.mask, s.sdus, cs, w, j)
  {
    FilledDelivers(rd.mask, s.sdus, cs, s.tx.sent, w, j);
    ParseInvertsPrint(rd.mask, s.tx.sent[j]);
  }

  /** The slots from behind VR(H) round to VR(R) are empty. */
  lemma WalkReachesVrR(m: EMask, w: Window, left: PduLeft, vrR: nat, h: nat, n: nat)
    requires vrR < SN_MODULUS && n <= h <= AM_WINDOW_SIZE && OccupiedWithin(w, vrR, h)
    ensures WalkFits(m, w, left, At(At(vrR, h), 1), At(vrR, n)) == WalkFits(m, w, left, vrR, At(vrR, n))
  {
    hide At, Dist, WalkFits;
    var i, r, d := At(At(vrR, h), 1), At(vrR, n), SN_MODULUS - 1 - h;
    AtAt(vrR, h, 1);
    AtAt(vrR, h + 1, d);
    AtTurn(vrR, h + 1 + d);
    DistAt(vrR, n);
    DistShift(vrR, h + 1, r);
    forall j | 0 <= j < d ensures w[At(i, j)].None? {
      AtAt(vrR, h + 1, j);
      DistAt(vrR, h + 1 + j);
    }
    EmptySlotsFit(m, w, left, i, d, r);
  }

  /** In every run of moderate SDUs and PDUs the receiver has room for whatever arrives. */
  lemma ArrivalFits(rd: Reading, es: seq<Event>, i: nat)
    requires var s := Behave(rd, es);
             GrantsWithin(es, MAX_GRANT) && Possible(rd, s, Arrive(i)) && Moderate(s.sdus, s.tx.sent)
    ensures var s := Behave(rd, es);
            ReceiveFits(rd.mask, rd.test, s.rx, Octets(s.tx.sent[i]))
  {
    var s := Behave(rd, es);
    var cs := RunIsCoupled(rd, es);
    forall j | 0 <= j < |s.tx.sent| ensures |Print(s.tx.sent[j])| <= MAX_GRANT {
      SentWithinGrants(rd, es, MAX_GRANT, j);
    }
    hide At, Dist, Stretch, WalkFits, AllOccupied, OccupiedWithin, WindowHolds, HeldAt, HighAfter, AfterPassing,
         Receive, VrHAfter, RxInv, Accounted, Readable, Carries, Behave, Moderate, Accepted;
    if Accepted(s.rx, Octets(s.tx.sent[i])) {
      var pkt, sn := Octets(s.tx.sent[i]), i % SN_MODULUS;
      var w: Window := s.rx.window[sn := Some(pkt)];
      var n, h := Stretch(w, s.rx.vrR, SN_MODULUS), HighAfter(s.rx, sn);
      NotAccepted(s.rx, s.base, i, pkt);
      ReceiveEffect(rd.mask, rd.test, s.rx, pkt);
      StoredHighest(rd, s.rx, pkt);
      StoredHolds(s.rx.window, s.base, s.tx.sent, i);
      PassedFit(rd, s, cs, w, n);
      WalkReachesVrR(rd.mask, w, s.rx.left, s.rx.vrR, h, n);
    }
  }

  lemma StoredHighest(rd: Reading, rx: Rx, pkt: Bytes)
    requires RxInv(rx) && IsAmdPdu(pkt) && Accepted(rx, pkt)
    requires rd.test == Modular || !NumericGoesWrong(rx.vrR, rx.vrH, UnpackHead(pkt).sn)
    ensures var sn := UnpackHead(pkt).sn;
            VrHAfter(rd.test, rx, sn) == At(rx.vrR, HighAfter(rx, sn))
  {
    StoredWithin(rx, pkt);
    VrHIsHigh(rd.test, rx, UnpackHead(pkt).sn);
  }

  lemma PassedFit(rd: Reading, s: Sys, cs: seq<Cursor>, w: Window, n: nat)
    requires Typed(s) && Coupled(rd, s, cs) && Moderate(s.sdus, s.tx.sent)
    requires forall j :: 0 <= j < |s.tx.sent| ==> |Print(s.tx.sent[j])| <= MAX_GRANT
    requires WindowHolds(w, s.base, s.tx.sent) && AllOccupied(w, s.rx.vrR, n) && n <= AM_WINDOW_SIZE
    ensures WalkFits(rd.mask, w, s.rx.left, s.rx.vrR, At(s.rx.vrR, n))
  {
    hide At, WalkFits, AllOccupied, WindowHolds, HeldAt, RxInv, Accounted, Readable, Carries, Filled;
    var end := s.base + n;
    PassedAreFilled(w, s.base, s.tx.sent, n);
    forall j | s.base <= j < end ensures SlotFits(rd.mask, s.sdus, cs, w, j) {
      FilledFits(rd, s, cs, w, j);
    }
    PassedSlotsFit(rd.mask, s.sdus, cs, w, s.base, end);
    MoveResidue(s.base, n);
  }

  /** What a reassembler hands up that sees only some of the PDUs of a run, in
      order and never with a positive multiple of 1024 in a row missing: the SDUs
      none of whose PDUs is missing, as they were queued. */
  lemma LossyRun(rd: Reading, es: seq<Event>, picks: seq<nat>) returns (cs: seq<Cursor>)
    requires Arrivals(picks, |Behave(rd, es).tx.sent|)
    ensures var s := Behave(rd, es);
            && IsStream(s.sdus, cs, s.tx.sent) && s.tx.queue == QueueAt(s.sdus, cs[|s.tx.sent|])
            && (forall i :: 0 <= i < |s.tx.sent| ==> s.tx.sent[i].pieces != [])
            && ReassembleAll(s.tx.sent, picks).sdus == IntactSdus(s.sdus, cs, picks, cs[|s.tx.sent|].k)
  {
    var s := Behave(rd, es);
    cs := RunIsCoupled(rd, es);
    DeliversExactlyIntact(s.sdus, cs, s.tx.sent, picks);
  }
}
