/** What a wrong comparison with VR(H) does to the window, in the states that
    runs reach. */
module NumericRuns {
  import opened Wire
  import opened Reassembler
  import opened ReceiveWindow
  import opened EndToEnd
  import opened Wrappers

  /** VR(MS) is VR(R), and the slot before VR(H) is occupied unless VR(H) is VR(R). */
  ghost predicate Tight(rx: Rx) {
    rx.vrMs == rx.vrR && (Dist(rx.vrR, rx.vrH) > 0 ==> rx.window[At(rx.vrR, Dist(rx.vrR, rx.vrH) - 1)].Some?)
  }

  lemma ReceiveKeepsTight(m: EMask, t: VrhTest, rx: Rx, pkt: Bytes)
    requires RxInv(rx) && Tight(rx) && IsAmdPdu(pkt)
    requires t == Modular || !NumericGoesWrong(rx.vrR, rx.vrH, UnpackHead(pkt).sn)
    ensures Tight(Receive(m, t, rx, pkt))
  {
    if Accepted(rx, pkt) {
      hide At, Dist, Stretch, HighAfter, AfterPassing, Receive, Accepted, RxInv, Tight, NumericGoesWrong, UnpackHead,
           AllOccupied, OccupiedWithin;
      var sn := UnpackHead(pkt).sn;
      var w: Window := rx.window[sn := Some(pkt)];
      ReceiveEffect(m, t, rx, pkt);
      HighIsOccupied(rx, sn, w);
      PassingKeepsTight(m, w, rx, HighAfter(rx, sn), Stretch(w, rx.vrR, SN_MODULUS));
    }
  }

  /** The slot before the new VR(H) is occupied. */
  lemma HighIsOccupied(rx: Rx, sn: nat, w: Window)
    requires RxInv(rx) && Tight(rx) && sn < SN_MODULUS && w[sn].Some? && w == rx.window[sn := w[sn]]
    ensures HighAfter(rx, sn) > 0 && w[At(rx.vrR, HighAfter(rx, sn) - 1)].Some?
  {
    AtDist(rx.vrR, sn);
  }

  lemma PassingKeepsTight(m: EMask, w: Window, rx: Rx, h: nat, n: nat)
    requires RxInv(rx) && Tight(rx) && n == Stretch(w, rx.vrR, SN_MODULUS)
    requires n <= h <= AM_WINDOW_SIZE && OccupiedWithin(w, rx.vrR, h)
    requires w[At(rx.vrR, n)].None? && h > 0 && w[At(rx.vrR, h - 1)].Some?
    ensures Tight(AfterPassing(m, w, rx, h, n))
  {
    hide At, Dist, Stretch, Cleared, Ascending, OccupiedWithin;
    InvAfter(w, rx.vrR, h, n, h);
    ClearedSlots(w, rx.vrR, n);
    if h > n {
      DistAt(rx.vrR, h - 1);
      AtAt(rx.vrR, n, h - n - 1);
    }
  }

  /** So it is in every state of every run. */
  lemma {:induction false} AlwaysTight(rd: Reading, es: seq<Event>)
    ensures Tight(Behave(rd, es).rx)
    decreases |es|
  {
    if es == [] {
      AtZero(0);
    } else {
      var s, e := Behave(rd, es[..|es| - 1]), es[|es| - 1];
      AlwaysTight(rd, es[..|es| - 1]);
      if Possible(rd, s, e) && e.Arrive? {
        ArrivalKeepsTight(rd, es[..|es| - 1], e.pdu);
      }
    }
  }

  lemma ArrivalKeepsTight(rd: Reading, es: seq<Event>, i: nat)
    requires var s := Behave(rd, es); Tight(s.rx) && Possible(rd, s, Arrive(i))
    ensures Tight(Next(rd, Behave(rd, es), Arrive(i)).rx)
  {
    hide Tight, Receive, NumericGoesWrong, RxInv, Behave;
    var s := Behave(rd, es);
    var cs := RunIsCoupled(rd, es);
    WindowAlwaysOk(rd, es);
    ReceiveKeepsTight(rd.mask, rd.test, s.rx, Octets(s.tx.sent[i]));
  }

  /** The walk clears exactly the slots it visits. */
  lemma {:induction false} WalkClears(m: EMask, w: Window, left: PduLeft, i: nat, r: nat)
    requires i < SN_MODULUS && r < SN_MODULUS
    ensures forall j :: 0 <= j < SN_MODULUS ==>
              Walk(m, w, left, i, r).window[j] == if Dist(i, j) < Dist(i, r) then None else w[j]
    decreases Dist(i, r)
  {
    hide At, Dist, DeliverSlot;
    AtZero(i);
    if i != r {
      DistStep(i, r);
      var next, o := At(i, 1), if w[i].Some? then DeliverSlot(m, left, w[i].value) else Out(left, []);
      var w': Window := if w[i].Some? then w[i := None] else w;
      WalkClears(m, w', o.left, next, r);
      forall j | 0 <= j < SN_MODULUS
        ensures Walk(m, w, left, i, r).window[j] == if Dist(i, j) < Dist(i, r) then None else w[j]
      {
        DistBehind(i, j);
      }
    }
  }

  lemma DistBehind(i: nat, j: nat)
    requires i < SN_MODULUS && j < SN_MODULUS
    ensures i != j ==> Dist(At(i, 1), j) == Dist(i, j) - 1
    ensures Dist(i, j) == 0 <==> i == j
    ensures i == j ==> Dist(At(i, 1), j) == SN_MODULUS - 1
  {
  }

  /** Where a wrong comparison puts VR(H): behind the PDU that has arrived,
      before slots that are occupied. */
  lemma WrongMovesBack(rx: Rx, pkt: Bytes)
    requires RxInv(rx) && Tight(rx) && IsAmdPdu(pkt) && Accepted(rx, pkt)
    requires NumericGoesWrong(rx.vrR, rx.vrH, UnpackHead(pkt).sn)
    ensures var sn := UnpackHead(pkt).sn;
            && Dist(rx.vrR, sn) + 1 < Dist(rx.vrR, rx.vrH)
            && VrHAfter(Numeric, rx, sn) == At(rx.vrR, Dist(rx.vrR, sn) + 1)
  {
    var sn := UnpackHead(pkt).sn;
    StoredWithin(rx, pkt);
    NumericTestExact(rx.vrR, rx.vrH, sn);
    WrongIsBelow(rx.vrR, rx.vrH, sn);
    AtDist(rx.vrR, sn);
    AtAt(rx.vrR, Dist(rx.vrR, sn), 1);
  }

  lemma WrongIsBelow(vrR: nat, vrH: nat, sn: nat)
    requires vrR < SN_MODULUS && vrH < SN_MODULUS && sn < SN_MODULUS
    requires Dist(vrR, vrH) <= AM_WINDOW_SIZE && NumericGoesWrong(vrR, vrH, sn)
    ensures Dist(vrR, sn) < Dist(vrR, vrH) && AtOrBeyond(Numeric, vrR, vrH, sn)
  {
    if vrH < vrR {
      assert Dist(vrR, vrH) == vrH - vrR + SN_MODULUS && Dist(vrR, sn) == sn - vrR;
    }
  }

  /** A wrong comparison in a state of a run breaks the window invariant, except
      when the PDU is the one VR(R) waits for and the next slot is empty. */
  lemma WrongBreaksWindow(m: EMask, rx: Rx, pkt: Bytes)
    requires RxInv(rx) && Tight(rx) && IsAmdPdu(pkt) && Accepted(rx, pkt)
    requires NumericGoesWrong(rx.vrR, rx.vrH, UnpackHead(pkt).sn)
    ensures RxInv(Receive(m, Numeric, rx, pkt))
       <==> UnpackHead(pkt).sn == rx.vrR && rx.window[At(rx.vrR, 1)].None?
  {
    hide Walk, Stretch, InsideAmRecvWin, OccupiedWithin, At, Dist, NumericGoesWrong, VrHAfter;
    var sn := UnpackHead(pkt).sn;
    var w: Window := rx.window[sn := Some(pkt)];
    var d := Dist(rx.vrR, sn) + 1;
    WrongMovesBack(rx, pkt);
    NonePassed(m, w, rx.left, rx.vrR);
    var mid := AdvanceMs(Store(Numeric, rx, pkt));
    assert mid == Rx(w, rx.vrR, At(rx.vrMs, Stretch(w, rx.vrMs, SN_MODULUS)), At(rx.vrR, d), rx.vrMr,
                     rx.left, rx.upper);
    if sn != rx.vrR {
      AheadStaysOutside(rx, w, sn);
      assert AdvanceR(m, mid) == mid;
    } else {
      AtZero(rx.vrR);
      WindowAtEdge(m, rx, pkt, w);
    }
  }

  /** What the walk hands up from any slot on, occupied or not. */
  lemma {:induction false} WalkHandsUp(m: EMask, w: Window, left: PduLeft, i: nat, n: nat)
    requires i < SN_MODULUS && n < SN_MODULUS
    ensures Walk(m, w, left, i, At(i, n)).out == Ascending(m, w, left, i, n)
    decreases n
  {
    hide At, Dist, DeliverSlot;
    DistAt(i, n);
    AtZero(i);
    if n > 0 {
      var next, o := At(i, 1), if w[i].Some? then DeliverSlot(m, left, w[i].value) else Out(left, []);
      var w': Window := if w[i].Some? then w[i := None] else w;
      AtAt(i, 1, n - 1);
      WalkHandsUp(m, w', o.left, next, n - 1);
      if w[i].Some? {
        DistBack(i);
        AscendingElsewhere(m, w, o.left, i, next, n - 1);
      }
    }
  }

  /** In the excepted case everything in the window is handed up and cleared, over
      the gaps: the slots from the second one on in ascending order, and the PDU
      VR(R) waited for at the end. */
  lemma WrongHandsUpAll(m: EMask, rx: Rx, pkt: Bytes)
    requires RxInv(rx) && Tight(rx) && IsAmdPdu(pkt) && Accepted(rx, pkt)
    requires NumericGoesWrong(rx.vrR, rx.vrH, UnpackHead(pkt).sn)
    requires UnpackHead(pkt).sn == rx.vrR && rx.window[At(rx.vrR, 1)].None?
    ensures var w: Window := rx.window[rx.vrR := Some(pkt)];
            var out := Ascending(m, w, rx.left, At(rx.vrR, 2), SN_MODULUS - 1);
            var after := Receive(m, Numeric, rx, pkt);
            && after.upper == rx.upper + out.sdus && after.left == out.left && after.vrR == At(rx.vrR, 1)
            && forall j :: 0 <= j < SN_MODULUS ==> after.window[j].None?
  {
    hide Walk, Stretch, InsideAmRecvWin, OccupiedWithin, At, Dist, NumericGoesWrong, VrHAfter, Ascending;
    var w: Window := rx.window[rx.vrR := Some(pkt)];
    var i, r := At(rx.vrR, 2), At(rx.vrR, 1);
    WrongMovesBack(rx, pkt);
    AtZero(rx.vrR);
    EdgeStretch(rx, pkt, w);
    EdgeClears(m, rx, w);
    AtAt(rx.vrR, 1, 1);
    AtAt(rx.vrR, 2, SN_MODULUS - 1);
    FullTurn(rx.vrR);
    WalkHandsUp(m, w, rx.left, i, SN_MODULUS - 1);
  }

  lemma FullTurn(v: nat)
    ensures At(v, 2 + (SN_MODULUS - 1)) == At(v, 1)
  {
  }

  /** The slot before the old VR(H) is left outside. */
  lemma AheadStaysOutside(rx: Rx, w: Window, sn: nat)
    requires RxInv(rx) && Tight(rx) && sn < SN_MODULUS && w == rx.window[sn := w[sn]]
    requires Dist(rx.vrR, sn) + 1 < Dist(rx.vrR, rx.vrH) && rx.window[sn].None?
    ensures var d := Dist(rx.vrR, sn) + 1;
            Dist(rx.vrR, At(rx.vrR, d)) == d && !OccupiedWithin(w, rx.vrR, d)
  {
    var top := At(rx.vrR, Dist(rx.vrR, rx.vrH) - 1);
    DistAt(rx.vrR, Dist(rx.vrR, rx.vrH) - 1);
    DistAt(rx.vrR, Dist(rx.vrR, sn) + 1);
    assert w[top].Some?;
  }

  /** The PDU VR(R) waits for arrives, and VR(H) is put right behind it. */
  lemma WindowAtEdge(m: EMask, rx: Rx, pkt: Bytes, w: Window)
    requires RxInv(rx) && Tight(rx) && 1 < Dist(rx.vrR, rx.vrH) && w == rx.window[rx.vrR := Some(pkt)]
    ensures var vrMs := At(rx.vrMs, Stretch(w, rx.vrMs, SN_MODULUS));
            var mid := Rx(w, rx.vrR, vrMs, At(rx.vrR, 1), rx.vrMr, rx.left, rx.upper);
            RxInv(AdvanceR(m, mid)) <==> rx.window[At(rx.vrR, 1)].None?
  {
    hide Walk, Stretch, OccupiedWithin, At, Dist;
    var n, r := Stretch(w, rx.vrR, SN_MODULUS), rx.vrR;
    EdgeStretch(rx, pkt, w);
    if n == 1 {
      EdgeClears(m, rx, w);
    } else {
      EdgePassed(r, n);
    }
  }

  lemma EdgeStretch(rx: Rx, pkt: Bytes, w: Window)
    requires RxInv(rx) && 1 < Dist(rx.vrR, rx.vrH) && w == rx.window[rx.vrR := Some(pkt)]
    ensures var n := Stretch(w, rx.vrR, SN_MODULUS);
            1 <= n <= AM_WINDOW_SIZE && (n == 1 <==> rx.window[At(rx.vrR, 1)].None?)
            && w[At(rx.vrR, 1)] == rx.window[At(rx.vrR, 1)]
  {
    var h := Dist(rx.vrR, rx.vrH);
    AtZero(rx.vrR);
    assert OccupiedWithin(w, rx.vrR, h);
    StretchWithin(w, rx.vrR, h, 0);
    assert At(rx.vrR, 1) != rx.vrR;
    var n := Stretch(w, rx.vrR, SN_MODULUS);
    assert n > 1 ==> w[At(rx.vrR, 1)].Some?;
  }

  /** The walk goes all the way round to the next slot, which is empty. */
  lemma EdgeClears(m: EMask, rx: Rx, w: Window)
    requires rx.vrR < SN_MODULUS && w[At(rx.vrR, 1)].None?
    ensures var r := At(rx.vrR, 1);
            var c := Walk(m, w, rx.left, At(r, 1), r).window;
            (forall j :: 0 <= j < SN_MODULUS ==> c[j].None?) && OccupiedWithin(c, r, 0) && Dist(r, r) == 0
  {
    var r := At(rx.vrR, 1);
    WalkClears(m, w, rx.left, At(r, 1), r);
    forall j | 0 <= j < SN_MODULUS && j != r ensures Dist(At(r, 1), j) < Dist(At(r, 1), r) {
      DistBehind(r, j);
      DistBehind(r, r);
    }
  }

  lemma EdgePassed(r: nat, n: nat)
    requires r < SN_MODULUS && 1 < n <= AM_WINDOW_SIZE
    ensures Dist(At(r, n), At(r, 1)) > AM_WINDOW_SIZE
  {
    DistAt(r, 1);
    DistShift(r, n, At(r, 1));
  }

  /** In every run under the modular reading: had the comparison been the numeric
      one, and wrong, the window would have been broken by all PDUs but those. */
  lemma WrongInRuns(mask: EMask, es: seq<Event>, pkt: Bytes)
    requires var rx := Behave(Reading(mask, Modular), es).rx;
             IsAmdPdu(pkt) && Accepted(rx, pkt) && NumericGoesWrong(rx.vrR, rx.vrH, UnpackHead(pkt).sn)
    ensures var rx := Behave(Reading(mask, Modular), es).rx;
            RxInv(Receive(mask, Numeric, rx, pkt))
            <==> UnpackHead(pkt).sn == rx.vrR && rx.window[At(rx.vrR, 1)].None?
  {
    var rd := Reading(mask, Modular);
    hide Behave, RxInv, Receive, NumericGoesWrong, Accepted, At;
    WindowAlwaysOk(rd, es);
    AlwaysTight(rd, es);
    WrongBreaksWindow(mask, Behave(rd, es).rx, pkt);
  }
}
