/** The receive window of an AM entity (TS 36.322, sections 5.1.3.2 and 7.1):
    1024 slots of which at most 512 are open, and the state variables VR(R),
    VR(MS), VR(H) and VR(MR), all modulo 1024. */
module ReceiveWindow {
  import opened Wire
  import opened Reassembler
  import opened Wrappers

  const AM_WINDOW_SIZE := 512

  // ----- arithmetic modulo 1024 -----

  /** The slot `d` places after `v`. */
  function At(v: nat, d: nat): (i: nat)
    ensures i < SN_MODULUS
  {
    (v + d) % SN_MODULUS
  }

  /** How many places `b` is after `a`. */
  function Dist(a: nat, b: nat): (d: nat)
    ensures d < SN_MODULUS
  {
    (b - a) % SN_MODULUS
  }

  lemma AtIs(v: nat, d: nat)
    ensures At(v, d) == (v + d) % 1024
  {
  }

  lemma AtDist(a: nat, b: nat)
    requires b < SN_MODULUS
    ensures At(a, Dist(a, b)) == b
  {
  }

  lemma DistAt(a: nat, d: nat)
    requires d < SN_MODULUS
    ensures Dist(a, At(a, d)) == d
  {
  }

  lemma AtAt(a: nat, d: nat, e: nat)
    ensures At(At(a, d), e) == At(a, d + e)
  {
  }

  lemma AtZero(v: nat)
    requires v < SN_MODULUS
    ensures At(v, 0) == v && Dist(v, v) == 0
  {
  }

  /** The way the code writes it for values below 1024. */
  lemma WrappedDist(a: nat, b: nat)
    ensures (b - a + 1024) % 1024 == Dist(a, b)
  {
  }

  /** Distances measured from a place `n` further on. */
  lemma DistShift(a: nat, n: nat, b: nat)
    requires n < SN_MODULUS
    ensures Dist(At(a, n), b) == if n <= Dist(a, b) then Dist(a, b) - n else Dist(a, b) + SN_MODULUS - n
  {
  }

  lemma DistStep(i: nat, r: nat)
    requires i < SN_MODULUS && r < SN_MODULUS && i != r
    ensures Dist(At(i, 1), r) == Dist(i, r) - 1
  {
  }

  // ----- the window tests -----

  predicate InsideAmRecvWin(vrR: nat, vrMr: nat, sn: nat) {
    (sn - vrR + 1024) % 1024 < (vrMr - vrR + 1024) % 1024
  }

  predicate InsideTranWin(vtA: nat, vtMs: nat, sn: nat) {
    (sn - vtA + 1024) % 1024 < (vtMs - vtA + 1024) % 1024
  }

  /** Within half a turn of the lower edge, the modular tests decide the order of
      the unbounded numbers. */
  lemma WindowTestsRefine(edge: nat, s: nat)
    requires edge <= s + AM_WINDOW_SIZE && s < edge + AM_WINDOW_SIZE
    ensures var a, u := edge % SN_MODULUS, (edge + AM_WINDOW_SIZE) % SN_MODULUS;
            && (InsideAmRecvWin(a, u, s % SN_MODULUS) <==> edge <= s)
            && (InsideTranWin(a, u, s % SN_MODULUS) <==> edge <= s)
  {
    ResidueDifference(s, edge);
    ResidueDifference(edge + AM_WINDOW_SIZE, edge);
  }

  lemma ResidueDifference(x: nat, y: nat)
    ensures (x % SN_MODULUS - y % SN_MODULUS + 1024) % 1024 == (x - y) % 1024
  {
  }

  /** How the code decides that a serial number is at or beyond VR(H). `Numeric`
      is the comparison in the code, `Modular` the one its comment and
      TS 36.322, section 5.1.3.2.3, ask for. */
  datatype VrhTest = Numeric | Modular

  predicate AtOrBeyond(t: VrhTest, vrR: nat, vrH: nat, sn: nat) {
    match t
    case Numeric => sn >= vrH || sn <= vrH - AM_WINDOW_SIZE
    case Modular => Dist(vrR, sn) >= Dist(vrR, vrH)
  }

  /** VR(H) has wrapped past zero and the serial number has not, or the window
      is full and the serial number is its lower edge. */
  predicate NumericGoesWrong(vrR: nat, vrH: nat, sn: nat) {
    vrH < vrR <= sn || (sn == vrR && vrH == vrR + AM_WINDOW_SIZE)
  }

  /** The numeric comparison is right exactly outside those two cases. */
  lemma NumericTestExact(vrR: nat, vrH: nat, sn: nat)
    requires vrR < SN_MODULUS && vrH < SN_MODULUS && sn < SN_MODULUS
    requires Dist(vrR, sn) < AM_WINDOW_SIZE && Dist(vrR, vrH) <= AM_WINDOW_SIZE
    ensures (AtOrBeyond(Numeric, vrR, vrH, sn) <==> AtOrBeyond(Modular, vrR, vrH, sn))
       <==> !NumericGoesWrong(vrR, vrH, sn)
  {
    if sn >= vrR {
      assert Dist(vrR, sn) == sn - vrR;
    } else {
      assert Dist(vrR, sn) == sn - vrR + SN_MODULUS;
    }
    if vrH >= vrR {
      assert Dist(vrR, vrH) == vrH - vrR;
    } else {
      assert Dist(vrR, vrH) == vrH - vrR + SN_MODULUS;
    }
  }

  // ----- the receiver as a function of its state -----

  type Window = w: seq<Option<Bytes>> | |w| == SN_MODULUS witness seq(SN_MODULUS, _ => None)

  datatype Rx = Rx(window: Window, vrR: nat, vrMs: nat, vrH: nat, vrMr: nat, left: PduLeft, upper: seq<Bytes>)

  function EmptyWindow(): (w: Window)
    ensures forall i :: 0 <= i < SN_MODULUS ==> w[i].None?
  {
    seq(SN_MODULUS, _ => None)
  }

  /** The state in which an entity is set up. */
  function InitialRx(): Rx { Rx(EmptyWindow(), 0, 0, 0, AM_WINDOW_SIZE, NoLeft, []) }

  /** How many slots from `v` on are occupied without a gap. */
  function Stretch(w: Window, v: nat, limit: nat): (n: nat)
    requires v < SN_MODULUS
    ensures n <= limit
    decreases limit, v
  {
    if limit == 0 || w[v].None? then 0 else 1 + Stretch(w, At(v, 1), limit - 1)
  }

  function DeliverSlot(m: EMask, left: PduLeft, pkt: Bytes): Out {
    match Parse(m, pkt)
    case None => Out(left, [])
    case Some(p) => Reassemble(left, p)
  }

  datatype WalkOut = WalkOut(window: Window, out: Out)

  /** Visit the slots from `i` up to but not including `r`: deliver and clear the occupied ones. */
  function Walk(m: EMask, w: Window, left: PduLeft, i: nat, r: nat): WalkOut
    requires i < SN_MODULUS && r < SN_MODULUS
    decreases Dist(i, r)
  {
    if i == r then WalkOut(w, Out(left, []))
    else
      DistStep(i, r);
      match w[i]
      case None => Walk(m, w, left, At(i, 1), r)
      case Some(pkt) =>
        var o := DeliverSlot(m, left, pkt);
        var rest := Walk(m, w[i := None], o.left, At(i, 1), r);
        WalkOut(rest.window, Out(rest.out.left, o.sdus + rest.out.sdus))
  }

  /** An AMD PDU, complete and not a control PDU or PDU segment. */
  predicate IsAmdPdu(pkt: Bytes) { |pkt| >= 2 && UnpackHead(pkt).dorC && !UnpackHead(pkt).rf }

  /** What tells an AMD PDU, and its serial number, on the wire. */
  lemma AmdPduOctets(pkt: Bytes)
    ensures IsAmdPdu(pkt) <==> |pkt| >= 2 && pkt[0] / 64 == 2
    ensures IsAmdPdu(pkt) ==>
              var octet: nat, next: nat := pkt[0], pkt[1];
              UnpackHead(pkt).sn == 256 * (octet % 4) + next
  {
    if |pkt| >= 2 {
      HeadFields(pkt);
    }
  }

  predicate Accepted(rx: Rx, pkt: Bytes)
    requires IsAmdPdu(pkt)
  {
    var sn := UnpackHead(pkt).sn;
    InsideAmRecvWin(rx.vrR, rx.vrMr, sn) && rx.window[sn].None?
  }

  function VrHAfter(t: VrhTest, rx: Rx, sn: nat): nat {
    if AtOrBeyond(t, rx.vrR, rx.vrH, sn) then At(sn, 1) else rx.vrH
  }

  /** The state with a PDU stored and VR(H) updated. */
  function Store(t: VrhTest, rx: Rx, pkt: Bytes): Rx
    requires IsAmdPdu(pkt)
  {
    var sn := UnpackHead(pkt).sn;
    rx.(window := rx.window[sn := Some(pkt)], vrH := VrHAfter(t, rx, sn))
  }

  /** VR(MS) moves past the received slots. */
  function AdvanceMs(rx: Rx): Rx
    requires rx.vrMs < SN_MODULUS
  {
    rx.(vrMs := At(rx.vrMs, Stretch(rx.window, rx.vrMs, SN_MODULUS)))
  }

  /** VR(R) moves past the received slots, and what it passes is handed up. */
  function AdvanceR(m: EMask, rx: Rx): Rx
    requires rx.vrR < SN_MODULUS && rx.vrH < SN_MODULUS
  {
    if rx.window[rx.vrR].None? then rx
    else
      var vrR := At(rx.vrR, Stretch(rx.window, rx.vrR, SN_MODULUS));
      var walk := Walk(m, rx.window, rx.left, At(rx.vrH, 1), vrR);
      Rx(walk.window, vrR, rx.vrMs, rx.vrH, At(vrR, AM_WINDOW_SIZE), walk.out.left, rx.upper + walk.out.sdus)
  }

  function Receive(m: EMask, t: VrhTest, rx: Rx, pkt: Bytes): Rx
    requires IsAmdPdu(pkt) && rx.vrR < SN_MODULUS && rx.vrMs < SN_MODULUS && rx.vrH < SN_MODULUS
  {
    if Accepted(rx, pkt) then AdvanceR(m, AdvanceMs(Store(t, rx, pkt))) else rx
  }

  // ----- the window invariant -----

  /** Occupied slots lie in [VR(R), VR(R) + h). */
  ghost predicate OccupiedWithin(w: Window, vrR: nat, h: nat) {
    forall i :: 0 <= i < SN_MODULUS && w[i].Some? ==> Dist(vrR, i) < h
  }

  /** VR(R) <= VR(MS) <= VR(H) <= VR(MR) = VR(R) + 512 in modular order, the
      occupied slots lie in [VR(R), VR(H)), and VR(R) itself is missing. */
  ghost predicate RxInv(rx: Rx) {
    && rx.vrR < SN_MODULUS && rx.vrMs < SN_MODULUS && rx.vrH < SN_MODULUS
    && rx.vrMr == At(rx.vrR, AM_WINDOW_SIZE)
    && Dist(rx.vrR, rx.vrMs) <= Dist(rx.vrR, rx.vrH) <= AM_WINDOW_SIZE
    && OccupiedWithin(rx.window, rx.vrR, Dist(rx.vrR, rx.vrH))
    && rx.window[rx.vrR].None?
  }

  /** The `n` slots from `v` on are all occupied. */
  ghost predicate AllOccupied(w: Window, v: nat, n: nat) {
    forall d :: 0 <= d < n ==> w[At(v, d)].Some?
  }

  lemma {:induction false} StretchIsMaximal(w: Window, v: nat, limit: nat)
    requires v < SN_MODULUS
    ensures var n := Stretch(w, v, limit);
            AllOccupied(w, v, n) && (n < limit ==> w[At(v, n)].None?)
    decreases limit
  {
    if limit > 0 && w[v].Some? {
      StretchIsMaximal(w, At(v, 1), limit - 1);
      var n := Stretch(w, v, limit);
      forall d | 0 <= d < n ensures w[At(v, d)].Some? {
        if d > 0 {
          AtAt(v, 1, d - 1);
        }
      }
      AtAt(v, 1, n - 1);
    }
  }

  /** A stretch that starts in the occupied range stays in it. */
  lemma StretchWithin(w: Window, vrR: nat, h: nat, o: nat)
    requires vrR < SN_MODULUS && o <= h <= AM_WINDOW_SIZE && OccupiedWithin(w, vrR, h)
    ensures o + Stretch(w, At(vrR, o), SN_MODULUS) <= h
    ensures var n := Stretch(w, At(vrR, o), SN_MODULUS);
            AllOccupied(w, At(vrR, o), n) && w[At(vrR, o + n)].None?
  {
    var n := Stretch(w, At(vrR, o), SN_MODULUS);
    StretchIsMaximal(w, At(vrR, o), SN_MODULUS);
    AtAt(vrR, o, n);
    if n > 0 {
      var d := if n - 1 < h - o then n - 1 else h - o;
      AtAt(vrR, o, d);
      DistAt(vrR, o + d);
      assert w[At(At(vrR, o), d)].Some?;
    }
  }

  /** What the delivery of `n` slots from `v` upwards yields. */
  function Ascending(m: EMask, w: Window, left: PduLeft, v: nat, n: nat): Out
    requires v < SN_MODULUS
    decreases n
  {
    if n == 0 then Out(left, [])
    else
      var o := if w[v].Some? then DeliverSlot(m, left, w[v].value) else Out(left, []);
      var rest := Ascending(m, w, o.left, At(v, 1), n - 1);
      Out(rest.left, o.sdus + rest.sdus)
  }

  function Cleared(w: Window, v: nat, n: nat): (c: Window)
    requires v < SN_MODULUS
    decreases n
  {
    if n == 0 then w else Cleared(w[v := None], At(v, 1), n - 1)
  }

  lemma {:induction false} ClearedSlots(w: Window, v: nat, n: nat)
    requires v < SN_MODULUS && n <= SN_MODULUS
    ensures forall i :: 0 <= i < SN_MODULUS ==> Cleared(w, v, n)[i] == if Dist(v, i) < n then None else w[i]
    decreases n
  {
    if n > 0 {
      ClearedSlots(w[v := None], At(v, 1), n - 1);
      forall i | 0 <= i < SN_MODULUS
        ensures Cleared(w, v, n)[i] == if Dist(v, i) < n then None else w[i]
      {
        DistShift(v, 1, i);
        AtDist(v, i);
      }
    }
  }

  /** The walk passes over empty slots. */
  lemma {:induction false} WalkSkipsEmpty(m: EMask, w: Window, left: PduLeft, i: nat, d: nat, r: nat)
    requires i < SN_MODULUS && r < SN_MODULUS && d <= Dist(i, r)
    requires forall j :: 0 <= j < d ==> w[At(i, j)].None?
    ensures Walk(m, w, left, i, r) == Walk(m, w, left, At(i, d), r)
    decreases d
  {
    hide At, Dist, DeliverSlot;
    AtZero(i);
    if d > 0 {
      AtZero(r);
      var next := At(i, 1);
      assert w[At(i, 0)].None?;
      DistShift(i, 1, r);
      forall j | 0 <= j < d - 1 ensures w[At(next, j)].None? {
        AtAt(i, 1, j);
      }
      WalkSkipsEmpty(m, w, left, next, d - 1, r);
      AtAt(i, 1, d - 1);
    }
  }

  /** The walk delivers occupied slots in ascending order and clears them. */
  lemma {:induction false} WalkAscends(m: EMask, w: Window, left: PduLeft, v: nat, n: nat)
    requires v < SN_MODULUS && n < SN_MODULUS && AllOccupied(w, v, n)
    ensures Walk(m, w, left, v, At(v, n)) == WalkOut(Cleared(w, v, n), Ascending(m, w, left, v, n))
    decreases n
  {
    hide At, Dist, DeliverSlot;
    DistAt(v, n);
    AtZero(v);
    if n > 0 {
      assert w[At(v, 0)].Some?;
      var next, w' := At(v, 1), w[v := None];
      AtAt(v, 1, n - 1);
      StretchBehind(w, v, n);
      var o := DeliverSlot(m, left, w[v].value);
      WalkAscends(m, w', o.left, next, n - 1);
      DistAt(v, 1);
      DistBack(v);
      AscendingElsewhere(m, w, o.left, v, next, n - 1);
    }
  }

  /** The rest of a stretch once its first slot is cleared. */
  lemma StretchBehind(w: Window, v: nat, n: nat)
    requires v < SN_MODULUS && 0 < n < SN_MODULUS && AllOccupied(w, v, n)
    ensures AllOccupied(w[v := None], At(v, 1), n - 1)
  {
    hide At, Dist;
    AtZero(v);
    forall d | 0 <= d < n - 1 ensures w[v := None][At(At(v, 1), d)].Some? {
      AtAt(v, 1, d);
      DistAt(v, d + 1);
      assert w[At(v, d + 1)].Some?;
    }
  }

  lemma DistBack(v: nat)
    requires v < SN_MODULUS
    ensures Dist(At(v, 1), v) == SN_MODULUS - 1
  {
  }

  lemma {:induction false} AscendingElsewhere(m: EMask, w: Window, left: PduLeft, v: nat, i: nat, n: nat)
    requires v < SN_MODULUS && i < SN_MODULUS && n <= Dist(i, v)
    ensures Ascending(m, w[v := None], left, i, n) == Ascending(m, w, left, i, n)
    decreases n
  {
    hide At, Dist, DeliverSlot;
    if n > 0 {
      AtZero(v);
      var o := if w[i].Some? then DeliverSlot(m, left, w[i].value) else Out(left, []);
      DistShift(i, 1, v);
      AscendingElsewhere(m, w, o.left, v, At(i, 1), n - 1);
    }
  }

  /** The walk starts behind VR(H) and comes round to VR(R): the slots VR(R) has
      just passed are delivered in ascending order and cleared, and no other. */
  lemma WalkDeliversPassed(m: EMask, w: Window, left: PduLeft, vrR: nat, h: nat, n: nat)
    requires vrR < SN_MODULUS && n <= h <= AM_WINDOW_SIZE
    requires OccupiedWithin(w, vrR, h) && AllOccupied(w, vrR, n)
    ensures Walk(m, w, left, At(At(vrR, h), 1), At(vrR, n))
         == WalkOut(Cleared(w, vrR, n), Ascending(m, w, left, vrR, n))
  {
    hide At, Dist, Walk, Cleared, Ascending;
    var i, r, d := At(At(vrR, h), 1), At(vrR, n), SN_MODULUS - 1 - h;
    AtAt(vrR, h, 1);
    AtAt(vrR, h + 1, d);
    AtTurn(vrR, h + 1 + d);
    DistAt(vrR, n);
    DistShift(vrR, h + 1, r);
    forall j | 0 <= j < d ensures w[At(i, j)].None? {
      AtAt(vrR, h + 1, j);
      DistAt(vrR, h + 1 + j);
    }
    WalkSkipsEmpty(m, w, left, i, d, r);
    WalkAscends(m, w, left, vrR, n);
  }

  lemma AtTurn(v: nat, d: nat)
    requires v < SN_MODULUS && d == SN_MODULUS
    ensures At(v, d) == v
  {
  }

  /** The offset of VR(H) from VR(R) once a PDU has been stored. */
  function HighAfter(rx: Rx, sn: nat): nat {
    if Dist(rx.vrR, sn) >= Dist(rx.vrR, rx.vrH) then Dist(rx.vrR, sn) + 1 else Dist(rx.vrR, rx.vrH)
  }

  /** What storing a PDU does to the window, however VR(H) is then updated. */
  lemma StoredWithin(rx: Rx, pkt: Bytes)
    requires RxInv(rx) && IsAmdPdu(pkt) && Accepted(rx, pkt)
    ensures var sn := UnpackHead(pkt).sn;
            var h := HighAfter(rx, sn);
            && Dist(rx.vrR, sn) < AM_WINDOW_SIZE && Dist(rx.vrR, rx.vrH) <= h <= AM_WINDOW_SIZE
            && OccupiedWithin(rx.window[sn := Some(pkt)], rx.vrR, h)
  {
    DistAt(rx.vrR, AM_WINDOW_SIZE);
    var sn := UnpackHead(pkt).sn;
    assert (sn - rx.vrR + 1024) % 1024 == Dist(rx.vrR, sn);
  }

  lemma VrHIsHigh(t: VrhTest, rx: Rx, sn: nat)
    requires RxInv(rx) && sn < SN_MODULUS && Dist(rx.vrR, sn) < AM_WINDOW_SIZE
    requires t == Modular || !NumericGoesWrong(rx.vrR, rx.vrH, sn)
    ensures VrHAfter(t, rx, sn) == At(rx.vrR, HighAfter(rx, sn))
  {
    NumericTestExact(rx.vrR, rx.vrH, sn);
    AtDist(rx.vrR, sn);
    AtDist(rx.vrR, rx.vrH);
    AtAt(rx.vrR, Dist(rx.vrR, sn), 1);
  }

  /** The state after an accepted PDU that VR(R) passes `n` slots for. */
  function AfterPassing(m: EMask, w: Window, rx: Rx, h: nat, n: nat): Rx
    requires rx.vrR < SN_MODULUS && rx.vrMs < SN_MODULUS
  {
    var out := Ascending(m, w, rx.left, rx.vrR, n);
    Rx(Cleared(w, rx.vrR, n), At(rx.vrR, n), At(rx.vrMs, Stretch(w, rx.vrMs, SN_MODULUS)), At(rx.vrR, h),
       At(At(rx.vrR, n), AM_WINDOW_SIZE), out.left, rx.upper + out.sdus)
  }

  /** VR(R) stays where its own slot is empty. */
  lemma NonePassed(m: EMask, w: Window, left: PduLeft, vrR: nat)
    requires vrR < SN_MODULUS
    ensures Stretch(w, vrR, SN_MODULUS) == 0 <==> w[vrR].None?
    ensures At(vrR, 0) == vrR && Cleared(w, vrR, 0) == w && Ascending(m, w, left, vrR, 0) == Out(left, [])
  {
  }

  /** Receiving an accepted PDU, given where VR(H) ends up and what the walk does. */
  lemma ReceiveForm(m: EMask, t: VrhTest, rx: Rx, pkt: Bytes, w: Window, h: nat, n: nat)
    requires rx.vrR < SN_MODULUS && rx.vrMs < SN_MODULUS && rx.vrH < SN_MODULUS
    requires rx.vrMr == At(rx.vrR, AM_WINDOW_SIZE) && IsAmdPdu(pkt) && Accepted(rx, pkt)
    requires w == rx.window[UnpackHead(pkt).sn := Some(pkt)] && n == Stretch(w, rx.vrR, SN_MODULUS)
    requires VrHAfter(t, rx, UnpackHead(pkt).sn) == At(rx.vrR, h)
    requires Walk(m, w, rx.left, At(At(rx.vrR, h), 1), At(rx.vrR, n))
          == WalkOut(Cleared(w, rx.vrR, n), Ascending(m, w, rx.left, rx.vrR, n))
    ensures Receive(m, t, rx, pkt) == AfterPassing(m, w, rx, h, n)
  {
    hide At, Dist, Stretch, Walk, Cleared, Ascending, VrHAfter, InsideAmRecvWin;
    NonePassed(m, w, rx.left, rx.vrR);
    assert rx.upper + [] == rx.upper;
    assert Store(t, rx, pkt) == rx.(window := w, vrH := At(rx.vrR, h));
  }

  /** What one accepted PDU does: with `n` the number of slots VR(R) passes,
      these and only these are delivered in ascending order and cleared. */
  lemma ReceiveEffect(m: EMask, t: VrhTest, rx: Rx, pkt: Bytes)
    requires RxInv(rx) && IsAmdPdu(pkt) && Accepted(rx, pkt)
    requires t == Modular || !NumericGoesWrong(rx.vrR, rx.vrH, UnpackHead(pkt).sn)
    ensures var sn := UnpackHead(pkt).sn;
            var w: Window := rx.window[sn := Some(pkt)];
            var n, h := Stretch(w, rx.vrR, SN_MODULUS), HighAfter(rx, sn);
            && n <= h <= AM_WINDOW_SIZE && OccupiedWithin(w, rx.vrR, h)
            && AllOccupied(w, rx.vrR, n) && w[At(rx.vrR, n)].None?
            && Receive(m, t, rx, pkt) == AfterPassing(m, w, rx, h, n)
  {
    var sn := UnpackHead(pkt).sn;
    var h := HighAfter(rx, sn);
    var w: Window := rx.window[sn := Some(pkt)];
    StoredWithin(rx, pkt);
    VrHIsHigh(t, rx, sn);
    assert At(rx.vrR, 0) == rx.vrR;
    StretchWithin(w, rx.vrR, h, 0);
    var n := Stretch(w, rx.vrR, SN_MODULUS);
    WalkDeliversPassed(m, w, rx.left, rx.vrR, h, n);
    ReceiveForm(m, t, rx, pkt, w, h, n);
  }

  /** The state after passing meets the invariant. */
  lemma PassingKeepsInv(m: EMask, w: Window, rx: Rx, h: nat, n: nat)
    requires RxInv(rx) && Dist(rx.vrR, rx.vrMs) <= h
    requires n <= h <= AM_WINDOW_SIZE && OccupiedWithin(w, rx.vrR, h)
    requires AllOccupied(w, rx.vrR, n) && w[At(rx.vrR, n)].None?
    ensures RxInv(AfterPassing(m, w, rx, h, n))
  {
    var o := Dist(rx.vrR, rx.vrMs);
    AtDist(rx.vrR, rx.vrMs);
    StretchWithin(w, rx.vrR, h, o);
    var k := Stretch(w, rx.vrMs, SN_MODULUS);
    AtAt(rx.vrR, o, k);
    MsNotPassed(w, rx.vrR, o, n);
    InvAfter(w, rx.vrR, h, n, o + k);
  }

  /** VR(MS) is never overtaken: from inside the stretch it moves to its end. */
  lemma MsNotPassed(w: Window, vrR: nat, o: nat, n: nat)
    requires vrR < SN_MODULUS && n <= AM_WINDOW_SIZE && o <= AM_WINDOW_SIZE
    requires AllOccupied(w, vrR, n)
    ensures n <= o + Stretch(w, At(vrR, o), SN_MODULUS)
  {
    var k := Stretch(w, At(vrR, o), SN_MODULUS);
    StretchIsMaximal(w, At(vrR, o), SN_MODULUS);
    AtAt(vrR, o, k);
    assert o + k < n ==> w[At(vrR, o + k)].Some?;
  }

  /** The invariant for the window cleared of its first `n` slots. */
  lemma InvAfter(w: Window, vrR: nat, h: nat, n: nat, ms: nat)
    requires vrR < SN_MODULUS && n <= ms <= h <= AM_WINDOW_SIZE
    requires OccupiedWithin(w, vrR, h) && w[At(vrR, n)].None?
    ensures var c, r := Cleared(w, vrR, n), At(vrR, n);
            && Dist(r, At(vrR, ms)) == ms - n && Dist(r, At(vrR, h)) == h - n
            && OccupiedWithin(c, r, h - n) && c[r].None?
  {
    var c, r := Cleared(w, vrR, n), At(vrR, n);
    ClearedSlots(w, vrR, n);
    DistAt(vrR, ms);
    DistAt(vrR, h);
    DistAt(vrR, n);
    DistShift(vrR, n, At(vrR, ms));
    DistShift(vrR, n, At(vrR, h));
    forall i | 0 <= i < SN_MODULUS && c[i].Some? ensures Dist(r, i) < h - n {
      DistShift(vrR, n, i);
    }
  }

  /** The window invariant over all runs, for the modular comparison and, as long
      as it is not misled, for the numeric one. */
  lemma ReceiveKeepsInv(m: EMask, t: VrhTest, rx: Rx, pkt: Bytes)
    requires RxInv(rx) && IsAmdPdu(pkt)
    requires t == Modular || !NumericGoesWrong(rx.vrR, rx.vrH, UnpackHead(pkt).sn)
    ensures RxInv(Receive(m, t, rx, pkt))
  {
    if Accepted(rx, pkt) {
      var sn := UnpackHead(pkt).sn;
      var w: Window := rx.window[sn := Some(pkt)];
      ReceiveEffect(m, t, rx, pkt);
      PassingKeepsInv(m, w, rx, HighAfter(rx, sn), Stretch(w, rx.vrR, SN_MODULUS));
    }
  }
}
