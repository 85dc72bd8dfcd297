/** The receiving AM entity as an object: the slots, the window variables and
    the assembler, updated in place as PDUs arrive. */
module AmReception {
  import opened Wire
  import opened Reassembler
  import opened ReceiveWindow
  import opened Wrappers

  /** A stored PDU can be parsed into the fixed arrays, and the SDU it completes
      has a length of sixteen bits. */
  ghost predicate Deliverable(m: EMask, left: PduLeft, pkt: Bytes) {
    && Parse(m, pkt).Some? && |Parse(m, pkt).value.pieces| <= MAX_NUM + 1
    && (if left.Left? then |left.sdu| else 0) + |pkt| <= 0xffff
  }

  ghost predicate WalkFits(m: EMask, w: Window, left: PduLeft, i: nat, r: nat)
    requires i < SN_MODULUS && r < SN_MODULUS
    decreases Dist(i, r)
  {
    if i == r then true
    else
      DistStep(i, r);
      match w[i]
      case None => WalkFits(m, w, left, At(i, 1), r)
      case Some(pkt) =>
        Deliverable(m, left, pkt) && WalkFits(m, w[i := None], DeliverSlot(m, left, pkt).left, At(i, 1), r)
  }

  /** Everything the arrival of `pkt` causes to be delivered is deliverable. */
  ghost predicate ReceiveFits(m: EMask, t: VrhTest, rx: Rx, pkt: Bytes)
    requires IsAmdPdu(pkt) && rx.vrR < SN_MODULUS && rx.vrH < SN_MODULUS
  {
    Accepted(rx, pkt) ==> AdvanceFits(m, Store(t, rx, pkt))
  }

  ghost predicate AdvanceFits(m: EMask, rx: Rx)
    requires rx.vrR < SN_MODULUS && rx.vrH < SN_MODULUS
  {
    WalkFits(m, rx.window, rx.left, At(rx.vrH, 1), At(rx.vrR, Stretch(rx.window, rx.vrR, SN_MODULUS)))
  }

  /** Moving VR(MS) changes nothing that VR(R) and the delivery depend on. */
  lemma MiddleFits(m: EMask, rx: Rx)
    requires rx.vrR < SN_MODULUS && rx.vrH < SN_MODULUS && rx.vrMs < SN_MODULUS
    ensures AdvanceMs(rx).vrR == rx.vrR && AdvanceMs(rx).vrH == rx.vrH
    ensures AdvanceFits(m, AdvanceMs(rx)) == AdvanceFits(m, rx)
  {
    hide WalkFits, Stretch;
  }

  lemma StoredInRange(t: VrhTest, rx: Rx, pkt: Bytes)
    requires IsAmdPdu(pkt) && rx.vrH < SN_MODULUS
    ensures Store(t, rx, pkt).vrH < SN_MODULUS
  {
  }

  lemma {:induction false} StretchIs(w: Window, v: nat, n: nat, limit: nat)
    requires v < SN_MODULUS && n < limit && AllOccupied(w, v, n) && w[At(v, n)].None?
    ensures Stretch(w, v, limit) == n
    decreases n
  {
    hide At;
    AtZero(v);
    if n > 0 {
      assert w[At(v, 0)].Some?;
      AtAt(v, 1, n - 1);
      forall d | 0 <= d < n - 1 ensures w[At(At(v, 1), d)].Some? {
        AtAt(v, 1, d);
      }
      StretchIs(w, At(v, 1), n - 1, limit - 1);
    }
  }

  /** Slots in [VR(R), VR(R) + h) that hold no whole PDU. */
  ghost predicate PartsWithin(partly: set<nat>, w: Window, vrR: nat, h: nat) {
    forall i :: i in partly ==> i < SN_MODULUS && w[i].None? && Dist(vrR, i) < h
  }

  /** Parts and whole PDUs lie before VR(H). */
  ghost predicate PartsWaiting(partly: set<nat>, rx: Rx) {
    && rx.vrR < SN_MODULUS && rx.vrH < SN_MODULUS && Dist(rx.vrR, rx.vrH) <= AM_WINDOW_SIZE
    && PartsWithin(partly, rx.window, rx.vrR, Dist(rx.vrR, rx.vrH))
    && OccupiedWithin(rx.window, rx.vrR, Dist(rx.vrR, rx.vrH))
  }

  ghost predicate NoPartBetween(partly: set<nat>, i: nat, r: nat) {
    forall j :: 0 <= j < SN_MODULUS && Dist(i, j) < Dist(i, r) ==> j !in partly
  }

  lemma PartsAfterStore(t: VrhTest, rx: Rx, pkt: Bytes, partly: set<nat>)
    requires RxInv(rx) && IsAmdPdu(pkt) && Accepted(rx, pkt)
    requires PartsWithin(partly, rx.window, rx.vrR, Dist(rx.vrR, rx.vrH))
    requires partly == {} || t == Modular || !NumericGoesWrong(rx.vrR, rx.vrH, UnpackHead(pkt).sn)
    ensures partly == {} || PartsWaiting(partly - {UnpackHead(pkt).sn}, Store(t, rx, pkt))
  {
    if partly != {} {
      var sn := UnpackHead(pkt).sn;
      StoredWithin(rx, pkt);
      VrHIsHigh(t, rx, sn);
      DistAt(rx.vrR, HighAfter(rx, sn));
    }
  }

  lemma {:induction false} WalkOnlyClears(m: EMask, w: Window, left: PduLeft, i: nat, r: nat)
    requires i < SN_MODULUS && r < SN_MODULUS
    ensures forall j :: 0 <= j < SN_MODULUS && w[j].None? ==> Walk(m, w, left, i, r).window[j].None?
    decreases Dist(i, r)
  {
    hide At, Dist, DeliverSlot;
    if i != r {
      DistStep(i, r);
      var o := if w[i].Some? then DeliverSlot(m, left, w[i].value) else Out(left, []);
      WalkOnlyClears(m, if w[i].Some? then w[i := None] else w, o.left, At(i, 1), r);
    }
  }

  /** The walk round from VR(H) to the new VR(R) visits no part, and the parts
      stay before VR(H). */
  lemma PartsNotVisited(partly: set<nat>, rx: Rx)
    requires rx.vrR < SN_MODULUS && rx.vrH < SN_MODULUS && (partly == {} || PartsWaiting(partly, rx))
    ensures var r := At(rx.vrR, Stretch(rx.window, rx.vrR, SN_MODULUS));
            && NoPartBetween(partly, At(rx.vrH, 1), r)
            && forall i :: i in partly ==> Dist(r, i) < Dist(r, rx.vrH)
  {
    if partly != {} {
      var h, n := Dist(rx.vrR, rx.vrH), Stretch(rx.window, rx.vrR, SN_MODULUS);
      AtZero(rx.vrR);
      AtDist(rx.vrR, rx.vrH);
      StretchWithin(rx.window, rx.vrR, h, 0);
      forall i | i in partly
        ensures Dist(At(rx.vrH, 1), i) >= Dist(At(rx.vrH, 1), At(rx.vrR, n))
        ensures Dist(At(rx.vrR, n), i) < Dist(At(rx.vrR, n), rx.vrH)
      {
        PartStays(rx.vrR, h, n, i, rx.window);
      }
    }
  }

  lemma PartBehind(vrR: nat, n: nat, i: nat, w: Window)
    requires i < SN_MODULUS && AllOccupied(w, vrR, n) && w[i].None?
    ensures Dist(vrR, i) >= n
  {
    AtDist(vrR, i);
  }

  lemma PartStays(vrR: nat, h: nat, n: nat, i: nat, w: Window)
    requires vrR < SN_MODULUS && i < SN_MODULUS && n <= h <= AM_WINDOW_SIZE && Dist(vrR, i) < h
    requires AllOccupied(w, vrR, n) && w[i].None?
    ensures Dist(At(At(vrR, h), 1), i) >= Dist(At(At(vrR, h), 1), At(vrR, n))
    ensures Dist(At(vrR, n), i) < Dist(At(vrR, n), At(vrR, h))
  {
    hide At, Dist;
    PartBehind(vrR, n, i, w);
    AtAt(vrR, h, 1);
    DistAt(vrR, n);
    DistAt(vrR, h);
    DistShift(vrR, h + 1, i);
    DistShift(vrR, h + 1, At(vrR, n));
    DistShift(vrR, n, i);
    DistShift(vrR, n, At(vrR, h));
  }

  class AmReceiver {
    const amRecvWindow: array<Option<Bytes>>    // the PDUs received in full
    var partly: set<nat>                        // the slots of PDUs received in part
    const pduLft: Assembler
    var vrR: nat
    var vrMs: nat
    var vrH: nat
    var vrMr: nat
    var countDropPacket: nat

    ghost predicate Wired()
      reads this, pduLft
    {
      amRecvWindow.Length == SN_MODULUS && pduLft.Valid()
    }

    ghost function State(): Rx
      reads this, amRecvWindow, pduLft
      requires Wired()
    {
      Rx(amRecvWindow[..], vrR, vrMs, vrH, vrMr, pduLft.LeftOver(), pduLft.upper)
    }

    /** A PDU received in part is one of those expected. */
    ghost predicate PartsOk()
      reads this, amRecvWindow
      requires amRecvWindow.Length == SN_MODULUS
    {
      PartsWithin(partly, amRecvWindow[..], vrR, Dist(vrR, vrH))
    }

    constructor ()
      ensures Wired() && PartsOk() && partly == {} && State() == InitialRx() && RxInv(State())
      ensures vrR == 0 && vrMs == 0 && vrH == 0 && vrMr == 512 && forall i :: 0 <= i < 1024 ==> amRecvWindow[i].None?
      ensures fresh(amRecvWindow) && fresh(pduLft)
    {
      amRecvWindow := new Option<Bytes>[SN_MODULUS](_ => None);
      pduLft := new Assembler();
      vrR, vrMs, vrH, vrMr, countDropPacket, partly := 0, 0, 0, AM_WINDOW_SIZE, 0, {};
      new;
      assert amRecvWindow[..] == EmptyWindow();
    }

    /** The first slot from `v` on that has not been received; slot `gap` places on is empty. */
    method SkipReceived(v: nat, ghost gap: nat) returns (u: nat)
      requires amRecvWindow.Length == SN_MODULUS && v < SN_MODULUS && gap < SN_MODULUS
      requires amRecvWindow[At(v, gap)].None?
      ensures u == At(v, Stretch(amRecvWindow[..], v, SN_MODULUS))
    {
      u := v;
      ghost var n := 0;
      ghost var w: Window := amRecvWindow[..];
      while amRecvWindow[u].Some?
        invariant u < SN_MODULUS && u == At(v, n) && n <= gap && AllOccupied(w, v, n)
        decreases gap - n
      {
        AtAt(v, n, 1);
        assert w[At(v, n)].Some?;
        u := (u + 1) % 1024;
        n := n + 1;
      }
      StretchIs(w, v, n, SN_MODULUS);
    }

    /** Hand up what VR(R) has passed: the slots from behind VR(H) round to VR(R).
        No PDU received in part is among them. */
    method ReassembleDeliver(mask: EMask)
      requires Wired() && vrR < SN_MODULUS && NoPartBetween(partly, At(vrH, 1), vrR)
      requires WalkFits(mask, amRecvWindow[..], pduLft.LeftOver(), At(vrH, 1), vrR)
      modifies amRecvWindow, pduLft
      ensures Wired()
      ensures var walk := Walk(mask, old(amRecvWindow[..]), old(pduLft.LeftOver()), At(vrH, 1), vrR);
              && amRecvWindow[..] == walk.window && pduLft.LeftOver() == walk.out.left
              && pduLft.upper == old(pduLft.upper) + walk.out.sdus
    {
      var h: nat, r := (vrH + 1) % 1024, vrR;
      var i: nat := h;
      ghost var walk := Walk(mask, amRecvWindow[..], pduLft.LeftOver(), h, r);
      ghost var goal := pduLft.upper + walk.out.sdus;
      while (i - h + 1024) % 1024 < (r - h + 1024) % 1024
        invariant Wired() && i < SN_MODULUS && Dist(h, i) + Dist(i, r) == Dist(h, r)
        invariant WalkFits(mask, amRecvWindow[..], pduLft.LeftOver(), i, r)
        invariant var rest := Walk(mask, amRecvWindow[..], pduLft.LeftOver(), i, r);
                  && rest.window == walk.window && rest.out.left == walk.out.left
                  && pduLft.upper + rest.out.sdus == goal
        decreases Dist(i, r)
      {
        WrappedDist(h, i);
        WrappedDist(h, r);
        WalkOn(h, i, r);
        VisitSlot(mask, i, r);
        i := (i + 1) % 1024;
      }
      WrappedDist(h, i);
      WrappedDist(h, r);
      WalkOver(h, i, r);
    }

    /** One round of the walk. */
    method VisitSlot(mask: EMask, i: nat, ghost r: nat)
      requires Wired() && i < SN_MODULUS && r < SN_MODULUS && i != r && i !in partly
      requires WalkFits(mask, amRecvWindow[..], pduLft.LeftOver(), i, r)
      modifies amRecvWindow, pduLft
      ensures Wired() && WalkFits(mask, amRecvWindow[..], pduLft.LeftOver(), At(i, 1), r)
      ensures var walk := Walk(mask, old(amRecvWindow[..]), old(pduLft.LeftOver()), i, r);
              var rest := Walk(mask, amRecvWindow[..], pduLft.LeftOver(), At(i, 1), r);
              && walk.window == rest.window && walk.out.left == rest.out.left
              && old(pduLft.upper) + walk.out.sdus == pduLft.upper + rest.out.sdus
    {
      hide At, Dist, DeliverSlot;
      ghost var w: Window, left, before := amRecvWindow[..], pduLft.LeftOver(), pduLft.upper;
      if amRecvWindow[i].Some? || i in partly {
        ghost var o := DeliverSlot(mask, left, w[i].value);
        DeliverSlotAt(mask, i);
        ghost var rest := Walk(mask, w[i := None], o.left, At(i, 1), r);
        assert amRecvWindow[..] == w[i := None];
        assert before + (o.sdus + rest.out.sdus) == before + o.sdus + rest.out.sdus;
      }
    }

    method DeliverSlotAt(mask: EMask, i: nat)
      requires Wired() && i < SN_MODULUS && amRecvWindow[i].Some?
      requires Deliverable(mask, pduLft.LeftOver(), amRecvWindow[i].value)
      modifies amRecvWindow, pduLft
      ensures Wired() && amRecvWindow[..] == old(amRecvWindow[..])[i := None]
      ensures var out := DeliverSlot(mask, old(pduLft.LeftOver()), old(amRecvWindow[i]).value);
              pduLft.LeftOver() == out.left && pduLft.upper == old(pduLft.upper) + out.sdus
    {
      var tbuff := new Packet(amRecvWindow[i].value);
      pduLft.DeliverPdu(mask, tbuff);
      amRecvWindow[i] := None;
    }

    /** An AMD PDU from the MAC. */
    method ReceiveFromMac(mask: EMask, test: VrhTest, pkt: Bytes)
      requires Wired() && RxInv(State()) && IsAmdPdu(pkt) && ReceiveFits(mask, test, State(), pkt)
      requires PartsOk()
      requires partly == {} || test == Modular || !NumericGoesWrong(vrR, vrH, UnpackHead(pkt).sn)
      modifies this, amRecvWindow, pduLft
      ensures Wired() && State() == Receive(mask, test, old(State()), pkt)
      ensures PartsOk()
      ensures partly == if Accepted(old(State()), pkt) then old(partly) - {UnpackHead(pkt).sn} else old(partly)
    {
      hide At, Dist, InsideAmRecvWin, AdvanceR, AdvanceMs, AdvanceFits, VrHAfter, HighAfter, OccupiedWithin;
      ghost var rx := State();
      var sn := UnpackHead(pkt).sn % 1024;
      if !InsideAmRecvWin(vrR, vrMr, sn) {
        countDropPacket := countDropPacket + 1;
        return;
      }
      if amRecvWindow[sn].Some? {
        countDropPacket := countDropPacket + 1;
        return;
      }
      StoredWithin(rx, pkt);
      PartsAfterStore(test, rx, pkt, partly);
      StorePdu(test, pkt, sn);
      ghost var gap := GapAhead(rx, amRecvWindow[..], HighAfter(rx, sn));
      AdvanceMiddle(gap);
      StoredInRange(test, rx, pkt);
      MiddleFits(mask, Store(test, rx, pkt));
      AdvanceLowerEdge(mask, AM_WINDOW_SIZE);
    }

    /** Put the PDU in its slot, in place of what had been received in part, and
        update VR(H). */
    method StorePdu(test: VrhTest, pkt: Bytes, sn: nat)
      requires Wired() && IsAmdPdu(pkt) && sn == UnpackHead(pkt).sn
      modifies this`vrH, this`partly, amRecvWindow
      ensures Wired() && State() == Store(test, old(State()), pkt) && partly == old(partly) - {sn}
      ensures amRecvWindow[..] == old(amRecvWindow[..])[sn := Some(pkt)]
    {
      if sn in partly {
        partly := partly - {sn};
      }
      amRecvWindow[sn] := Some(pkt);
      if AtOrBeyond(test, vrR, vrH, sn) {
        vrH := (sn + 1) % 1024;
      }
    }

    /** Move VR(MS) past what has been received; the slot `gap` places on is empty. */
    method AdvanceMiddle(ghost gap: nat)
      requires Wired() && vrMs < SN_MODULUS && gap < SN_MODULUS && amRecvWindow[At(vrMs, gap)].None?
      modifies this`vrMs
      ensures Wired() && State() == AdvanceMs(old(State()))
    {
      vrMs := SkipReceived(vrMs, gap);
    }

    /** Move VR(R) past what has been received and hand up what it passes; the
        slot `gap` places on is empty. */
    method AdvanceLowerEdge(mask: EMask, ghost gap: nat)
      requires Wired() && vrR < SN_MODULUS && vrH < SN_MODULUS
      requires gap < SN_MODULUS && amRecvWindow[At(vrR, gap)].None?
      requires AdvanceFits(mask, State())
      requires partly == {} || PartsWaiting(partly, State())
      modifies this`vrR, this`vrMr, amRecvWindow, pduLft
      ensures Wired() && State() == AdvanceR(mask, old(State())) && PartsOk()
    {
      hide At, Dist, Stretch, Walk, WalkFits;
      if amRecvWindow[vrR].Some? {
        ghost var rx := State();
        PartsNotVisited(partly, rx);
        vrR := SkipReceived(vrR, gap);
        AtIs(vrR, AM_WINDOW_SIZE);
        vrMr := (vrR + AM_WINDOW_SIZE) % 1024;
        assert amRecvWindow[..] == rx.window && pduLft.LeftOver() == rx.left;
        ghost var walk := Walk(mask, rx.window, rx.left, At(vrH, 1), vrR);
        ReassembleDeliver(mask);
        assert amRecvWindow[..] == walk.window && pduLft.LeftOver() == walk.out.left;
        assert pduLft.upper == rx.upper + walk.out.sdus;
        WalkOnlyClears(mask, rx.window, rx.left, At(vrH, 1), vrR);
      }
    }
  }

  lemma WalkOn(h: nat, i: nat, r: nat)
    requires h < SN_MODULUS && i < SN_MODULUS && r < SN_MODULUS
    requires Dist(h, i) < Dist(h, r) && Dist(h, i) + Dist(i, r) == Dist(h, r)
    ensures i != r && Dist(h, At(i, 1)) + Dist(At(i, 1), r) == Dist(h, r) && Dist(At(i, 1), r) < Dist(i, r)
  {
    assert i != r;
    DistShift(i, 1, r);
    AtDist(h, i);
    AtAt(h, Dist(h, i), 1);
    DistAt(h, Dist(h, i) + 1);
  }

  lemma WalkOver(h: nat, i: nat, r: nat)
    requires h < SN_MODULUS && i < SN_MODULUS && r < SN_MODULUS
    requires Dist(h, i) >= Dist(h, r) && Dist(h, i) + Dist(i, r) == Dist(h, r)
    ensures i == r
  {
    AtDist(i, r);
  }

  /** The slot VR(R) + 512 is never occupied, so the advance of VR(MS) and VR(R) ends. */
  lemma GapAhead(rx: Rx, w: Window, h: nat) returns (gap: nat)
    requires RxInv(rx) && h <= AM_WINDOW_SIZE && OccupiedWithin(w, rx.vrR, h)
    ensures w[At(rx.vrR, AM_WINDOW_SIZE)].None?
    ensures gap < SN_MODULUS && w[At(rx.vrMs, gap)].None?
  {
    gap := AM_WINDOW_SIZE - Dist(rx.vrR, rx.vrMs);
    DistAt(rx.vrR, AM_WINDOW_SIZE);
    AtDist(rx.vrR, rx.vrMs);
    AtAt(rx.vrR, Dist(rx.vrR, rx.vrMs), gap);
  }
}
