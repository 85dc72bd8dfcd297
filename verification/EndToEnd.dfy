/** A transmitting and a receiving AM entity joined by a channel that loses,
    repeats, reorders and delays whole AMD PDUs, over every run. */
module EndToEnd {
  import opened Wire
  import opened Segmenter
  import opened Reassembler
  import opened Stream
  import opened ReceiveWindow
  import opened Wrappers

  /** How two questionable tests in the code are read. */
  datatype Reading = Reading(mask: EMask, test: VrhTest)

  datatype Event = Transmit(command: Command) | Arrive(pdu: nat)

  /** `sdus` are all SDUs ever queued, `base` is VR(R) as an unbounded number and
      `arrived` the PDUs that have arrived, by position in `tx.sent`. */
  datatype Sys = Sys(sdus: seq<Bytes>, tx: Tx, rx: Rx, base: nat, arrived: set<nat>)

  function Start(): Sys { Sys([], FRESH, InitialRx(), 0, {}) }

  ghost predicate Typed(s: Sys) {
    && s.tx.sn < SN_MODULUS && (forall i :: 0 <= i < |s.tx.sent| ==> Printable(s.tx.sent[i]))
    && s.rx.vrR < SN_MODULUS && s.rx.vrMs < SN_MODULUS && s.rx.vrH < SN_MODULUS
  }

  /** A PDU may arrive while it is less than half a turn away from VR(R); the
      literal readings come with the conditions under which they are right. */
  ghost predicate Possible(rd: Reading, s: Sys, e: Event) {
    match e
    case Transmit(c) => c.Grant? ==> GrantOk(rd, s, c.octets)
    case Arrive(i) =>
      i < |s.tx.sent| && s.base <= i + AM_WINDOW_SIZE && i < s.base + AM_WINDOW_SIZE
      && (rd.test == Numeric ==> !NumericGoesWrong(s.rx.vrR, s.rx.vrH, i % SN_MODULUS))
  }

  ghost predicate GrantOk(rd: Reading, s: Sys, octets: nat) {
    GrantFits(s.tx.queue, octets)
    && (rd.mask == Literal && octets > 2 && s.tx.queue != [] ==> PlanFor(s.tx.queue, octets - 2).count <= 2)
  }

  /** What the segmenter writes is an AMD PDU with the serial number it was given. */
  function Octets(p: Pdu): (pkt: Bytes)
    requires Printable(p)
    ensures IsAmdPdu(pkt) && UnpackHead(pkt).sn == p.sn
  {
    PrintedHead(p);
    Print(p)
  }

  ghost function AfterArrival(rd: Reading, s: Sys, i: nat): Sys
    requires Typed(s) && i < |s.tx.sent|
    ensures Typed(AfterArrival(rd, s, i))
  {
    var rx := Receive(rd.mask, rd.test, s.rx, Octets(s.tx.sent[i]));
    Sys(s.sdus, s.tx, rx, s.base + Dist(s.rx.vrR, rx.vrR), s.arrived + {i})
  }

  ghost function AfterCommand(s: Sys, c: Command): Sys
    requires Typed(s)
    ensures Typed(AfterCommand(s, c))
  {
    Sys(if c.Enqueue? then s.sdus + [c.skb] else s.sdus, Step(s.tx, c), s.rx, s.base, s.arrived)
  }

  /** An event that is not possible does not happen. */
  ghost function Next(rd: Reading, s: Sys, e: Event): Sys
    requires Typed(s)
    ensures Typed(Next(rd, s, e))
  {
    if !Possible(rd, s, e) then s
    else if e.Transmit? then AfterCommand(s, e.command)
    else AfterArrival(rd, s, e.pdu)
  }

  ghost function Behave(rd: Reading, es: seq<Event>): Sys
    ensures Typed(Behave(rd, es))
    decreases |es|
  {
    if es == [] then Start() else Next(rd, Behave(rd, es[..|es| - 1]), es[|es| - 1])
  }

  // ----- what holds in every state -----

  /** The transmitter has written a stream and stands at its last cursor. */
  ghost predicate TxCoupled(sdus: seq<Bytes>, tx: Tx, cs: seq<Cursor>) {
    && IsStream(sdus, cs, tx.sent) && tx.queue == QueueAt(sdus, cs[|tx.sent|])
    && tx.sn == |tx.sent| % SN_MODULUS
  }

  /** The PDUs can be read back under the reading of the E bit. */
  ghost predicate Readable(mask: EMask, sent: seq<Pdu>) {
    && (forall i :: 0 <= i < |sent| ==> Printable(sent[i]) && Short(sent[i]))
    && (forall i :: 0 <= i < |sent| ==> mask == Written || |sent[i].pieces| <= 2)
  }

  /** The slot `d` places on holds the PDU that belongs there, if any. */
  ghost predicate SlotHolds(w: Window, base: nat, sent: seq<Pdu>, d: nat)
    requires forall i :: 0 <= i < |sent| ==> Printable(sent[i])
  {
    w[At(base, d)].Some? ==> base + d < |sent| && w[At(base, d)].value == Print(sent[base + d])
  }

  /** Slot by slot, the window holds PDUs at their place in the stream. */
  ghost predicate WindowHolds(w: Window, base: nat, sent: seq<Pdu>)
    requires forall i :: 0 <= i < |sent| ==> Printable(sent[i])
  {
    forall d :: 0 <= d < AM_WINDOW_SIZE ==> SlotHolds(w, base, sent, d)
  }

  /** The receiver has handed up every SDU that ends before PDU `base`, holds the
      beginning of the one PDU `base` continues, and keeps later PDUs in their slots. */
  ghost predicate RxCoupled(s: Sys, cs: seq<Cursor>)
    requires IsStream(s.sdus, cs, s.tx.sent)
    requires forall i :: 0 <= i < |s.tx.sent| ==> Printable(s.tx.sent[i])
  {
    && RxInv(s.rx) && s.rx.vrR == s.base % SN_MODULUS && s.base <= |s.tx.sent|
    && s.rx.upper == s.sdus[..cs[s.base].k]
    && s.rx.left == HeldAt(s.sdus, cs[s.base], SnBefore(s.base))
    && WindowHolds(s.rx.window, s.base, s.tx.sent)
    && Accounted(s.arrived, s.rx.window, s.base)
  }

  ghost predicate Coupled(rd: Reading, s: Sys, cs: seq<Cursor>) {
    TxCoupled(s.sdus, s.tx, cs) && Readable(rd.mask, s.tx.sent) && RxCoupled(s, cs)
  }

  // ----- transmitter steps -----

  lemma EnqueueKeepsStream(sdus: seq<Bytes>, cs: seq<Cursor>, pdus: seq<Pdu>, skb: Bytes)
    requires IsStream(sdus, cs, pdus)
    ensures IsStream(sdus + [skb], cs, pdus)
  {
    forall i | 0 <= i < |cs| ensures CursorOk(sdus + [skb], cs[i]) {
      EnqueueKeepsCursor(sdus, cs[i], skb);
    }
    forall i | 0 <= i < |pdus| ensures Carries(sdus + [skb], cs[i], cs[i + 1], pdus[i]) {
      EnqueueKeepsCarries(sdus, cs[i], cs[i + 1], pdus[i], skb);
    }
  }

  lemma StreamGrows(sdus: seq<Bytes>, cs: seq<Cursor>, pdus: seq<Pdu>, d: Cursor, p: Pdu)
    requires IsStream(sdus, cs, pdus) && Carries(sdus, cs[|pdus|], d, p) && p.sn == |pdus| % SN_MODULUS
    ensures IsStream(sdus, cs + [d], pdus + [p])
  {
    hide Carries, CursorOk;
    var ds, qs, n := cs + [d], pdus + [p], |pdus|;
    ReachesOk(sdus, cs[n], d, p);
    forall i | 0 <= i < |ds| ensures CursorOk(sdus, ds[i]) {
      assert i < |cs| ==> ds[i] == cs[i];
    }
    forall i | 0 <= i < |qs| ensures Carries(sdus, ds[i], ds[i + 1], qs[i]) {
      assert i < n ==> ds[i] == cs[i] && ds[i + 1] == cs[i + 1] && qs[i] == pdus[i];
    }
  }

  lemma ReachesOk(sdus: seq<Bytes>, c: Cursor, d: Cursor, p: Pdu)
    requires Carries(sdus, c, d, p)
    ensures CursorOk(sdus, d)
  {
  }

  /** The transmitter after a grant that yields a PDU. */
  function Granted(tx: Tx, octets: nat): Tx
    requires tx.sn < SN_MODULUS && tx.queue != [] && octets > 2
  {
    Tx(SegmentRest(tx.queue, octets), (tx.sn + 1) % SN_MODULUS, tx.sent + [SegmentPdu(tx.queue, tx.sn, octets)])
  }

  lemma SegmentSn(queue: seq<Sdu>, sn: nat, octets: nat)
    requires queue != [] && sn < SN_MODULUS && octets > 2
    ensures SegmentPdu(queue, sn, octets).sn == sn
  {
  }

  lemma StreamEnd(sdus: seq<Bytes>, cs: seq<Cursor>, pdus: seq<Pdu>)
    requires IsStream(sdus, cs, pdus)
    ensures |cs| == |pdus| + 1 && CursorOk(sdus, cs[|pdus|])
    ensures QueueAt(sdus, cs[|pdus|]) != [] ==> cs[|pdus|].k < |sdus|
  {
  }

  lemma GrantExtendsStream(sdus: seq<Bytes>, tx: Tx, cs: seq<Cursor>, octets: nat)
    requires TxCoupled(sdus, tx, cs) && tx.queue != [] && octets > 2
    ensures var d := NextCursor(sdus, cs[|tx.sent|], octets);
            TxCoupled(sdus, Granted(tx, octets), cs + [d])
  {
    hide NextCursor, SegmentPdu, SegmentRest, Carries, IsStream, QueueAt, CursorOk;
    var n := |tx.sent|;
    StreamEnd(sdus, cs, tx.sent);
    SegmentCarries(sdus, cs[n], tx.sn, octets);
    SegmentSn(tx.queue, tx.sn, octets);
    StreamGrows(sdus, cs, tx.sent, NextCursor(sdus, cs[n], octets), SegmentPdu(tx.queue, tx.sn, octets));
    SnNext(n);
  }

  lemma TransmitKeeps(rd: Reading, s: Sys, cs: seq<Cursor>, octets: nat) returns (more: seq<Cursor>)
    requires Typed(s) && Coupled(rd, s, cs) && Possible(rd, s, Transmit(Grant(octets)))
    requires octets > 2 && s.tx.queue != []
    ensures Coupled(rd, Next(rd, s, Transmit(Grant(octets))), more)
    ensures |Next(rd, s, Transmit(Grant(octets))).tx.sent| == |s.tx.sent| + 1
  {
    var d, tx := NextCursor(s.sdus, cs[|s.tx.sent|], octets), Granted(s.tx, octets);
    GrantExtendsStream(s.sdus, s.tx, cs, octets);
    ShortIffFits(s.tx.queue, s.tx.sn, octets);
    assert Next(rd, s, Transmit(Grant(octets))) == s.(tx := tx);
    more := cs + [d];
    RxKeepsStep(s, cs, tx, d);
  }

  /** What the receiver relies on is not disturbed by a further PDU. */
  lemma RxKeepsStep(s: Sys, cs: seq<Cursor>, tx: Tx, d: Cursor)
    requires Typed(s) && IsStream(s.sdus, cs, s.tx.sent) && RxCoupled(s, cs)
    requires |tx.sent| == |s.tx.sent| + 1 && tx.sent[..|s.tx.sent|] == s.tx.sent
    requires forall i :: 0 <= i < |tx.sent| ==> Printable(tx.sent[i])
    requires IsStream(s.sdus, cs + [d], tx.sent)
    ensures RxCoupled(s.(tx := tx), cs + [d])
  {
    forall e | 0 <= e < AM_WINDOW_SIZE ensures SlotHolds(s.rx.window, s.base, tx.sent, e) {
      assert SlotHolds(s.rx.window, s.base, s.tx.sent, e);
    }
  }

  lemma EnqueueKeeps(rd: Reading, s: Sys, cs: seq<Cursor>, skb: Bytes)
    requires Typed(s) && Coupled(rd, s, cs)
    ensures Coupled(rd, Next(rd, s, Transmit(Enqueue(skb))), cs)
  {
    EnqueueKeepsStream(s.sdus, cs, s.tx.sent, skb);
    EnqueueKeepsCursor(s.sdus, cs[|s.tx.sent|], skb);
    var k := cs[s.base].k;
    assert (s.sdus + [skb])[..k] == s.sdus[..k];
  }

  // ----- receiver steps -----

  /** PDU `j` is in its slot. */
  ghost predicate Filled(w: Window, sent: seq<Pdu>, j: nat)
    requires j < |sent| && Printable(sent[j])
  {
    w[j % SN_MODULUS] == Some(Print(sent[j]))
  }

  /** The serial number of the PDU before PDU `n`. */
  function SnBefore(n: nat): nat { (n + SN_MODULUS - 1) % SN_MODULUS }

  /** Delivering slot `j` takes the receiver from cursor `j` to the next one. */
  ghost predicate SlotDelivers(mask: EMask, sdus: seq<Bytes>, cs: seq<Cursor>, w: Window, j: nat)
    requires j + 1 < |cs| && CursorOk(sdus, cs[j]) && CursorOk(sdus, cs[j + 1])
  {
    && cs[j].k <= cs[j + 1].k && w[j % SN_MODULUS].Some?
    && DeliverSlot(mask, HeldAt(sdus, cs[j], SnBefore(j)), w[j % SN_MODULUS].value)
       == Out(HeldAt(sdus, cs[j + 1], SnBefore(j + 1)), sdus[cs[j].k..cs[j + 1].k])
  }

  lemma FilledDelivers(mask: EMask, sdus: seq<Bytes>, cs: seq<Cursor>, sent: seq<Pdu>, w: Window, j: nat)
    requires IsStream(sdus, cs, sent) && Readable(mask, sent) && j < |sent| && Filled(w, sent, j)
    ensures SlotDelivers(mask, sdus, cs, w, j)
  {
    var c, d, p := cs[j], cs[j + 1], sent[j];
    var left := HeldAt(sdus, c, SnBefore(j));
    assert Carries(sdus, c, d, p);
    ParseInvertsPrint(mask, p);
    HeldJoins(j, left, p.sn);
    ReassembleNext(sdus, c, d, p, left);
  }

  /** Delivering the PDUs from `base` up to `end` in order completes exactly the SDUs that end in them. */
  lemma {:induction false} AscendingDelivers(mask: EMask, sdus: seq<Bytes>, cs: seq<Cursor>, w: Window,
                                             base: nat, end: nat)
    requires base <= end < |cs| && (forall j :: base <= j <= end ==> CursorOk(sdus, cs[j]))
    requires forall j :: base <= j < end ==> SlotDelivers(mask, sdus, cs, w, j)
    ensures cs[base].k <= cs[end].k
    ensures Ascending(mask, w, HeldAt(sdus, cs[base], SnBefore(base)), base % SN_MODULUS, end - base)
         == Out(HeldAt(sdus, cs[end], SnBefore(end)), sdus[cs[base].k..cs[end].k])
    decreases end - base
  {
    hide At, DeliverSlot, SnBefore;
    if base < end {
      assert SlotDelivers(mask, sdus, cs, w, base);
      NextResidue(base);
      AscendingDelivers(mask, sdus, cs, w, base + 1, end);
      SliceJoin(sdus, cs[base].k, cs[base + 1].k, cs[end].k);
    }
  }

  lemma SliceJoin(s: seq<Bytes>, i: nat, j: nat, k: nat)
    requires i <= j <= k <= |s|
    ensures s[i..j] + s[j..k] == s[i..k]
  {
  }

  lemma NextResidue(base: nat)
    ensures At(base % SN_MODULUS, 1) == (base + 1) % SN_MODULUS
  {
  }

  lemma HeldJoins(base: nat, left: PduLeft, sn: nat)
    requires sn == base % SN_MODULUS
    ensures left.Left? && left.sn == SnBefore(base) ==> Joins(left, sn)
    ensures SnBefore(base + 1) == sn
  {
  }

  /** A PDU already behind VR(R), or already in its slot, changes nothing. */
  lemma RepeatIsDropped(rd: Reading, s: Sys, cs: seq<Cursor>, i: nat)
    requires Typed(s) && Coupled(rd, s, cs) && Possible(rd, s, Arrive(i))
    requires i < s.base || s.rx.window[i % SN_MODULUS].Some?
    ensures Coupled(rd, Next(rd, s, Arrive(i)), cs)
  {
    hide Accepted, AdvanceR, AdvanceMs, Store, At, Dist, WindowHolds, Carries, Readable, HeldAt, RxInv;
    NotAccepted(s.rx, s.base, i, Octets(s.tx.sent[i]));
    assert Next(rd, s, Arrive(i)) == s.(arrived := s.arrived + {i});
  }

  lemma NotAccepted(rx: Rx, base: nat, i: nat, pkt: Bytes)
    requires RxInv(rx) && rx.vrR == base % SN_MODULUS && IsAmdPdu(pkt) && UnpackHead(pkt).sn == i % SN_MODULUS
    requires base <= i + AM_WINDOW_SIZE && i < base + AM_WINDOW_SIZE
    ensures Accepted(rx, pkt) <==> base <= i && rx.window[i % SN_MODULUS].None?
    ensures Dist(rx.vrR, rx.vrR) == 0
  {
    WindowTestsRefine(base, i);
    AtResidue(base);
  }

  lemma SlotOf(base: nat, i: nat)
    requires base <= i < base + AM_WINDOW_SIZE
    ensures At(base, i - base) == i % SN_MODULUS && Dist(base % SN_MODULUS, i % SN_MODULUS) == i - base
    ensures forall d :: 0 <= d < AM_WINDOW_SIZE && d != i - base ==> At(base, d) != i % SN_MODULUS
  {
  }

  lemma AtResidue(base: nat)
    ensures forall d: nat :: At(base % SN_MODULUS, d) == At(base, d)
  {
  }

  /** Storing PDU `i` in its slot keeps the window in step with the stream. */
  lemma StoredHolds(w: Window, base: nat, sent: seq<Pdu>, i: nat)
    requires forall j :: 0 <= j < |sent| ==> Printable(sent[j])
    requires WindowHolds(w, base, sent) && base <= i < base + AM_WINDOW_SIZE && i < |sent|
    ensures WindowHolds(w[i % SN_MODULUS := Some(Print(sent[i]))], base, sent)
  {
    SlotOf(base, i);
    var more: Window := w[i % SN_MODULUS := Some(Print(sent[i]))];
    forall d | 0 <= d < AM_WINDOW_SIZE ensures SlotHolds(more, base, sent, d) {
      assert SlotHolds(w, base, sent, d);
    }
  }

  /** Clearing the first `n` slots and moving on by `n` does as well. */
  lemma ClearedHolds(w: Window, base: nat, sent: seq<Pdu>, n: nat, h: nat)
    requires forall j :: 0 <= j < |sent| ==> Printable(sent[j])
    requires WindowHolds(w, base, sent) && n <= h <= AM_WINDOW_SIZE && OccupiedWithin(w, base % SN_MODULUS, h)
    ensures WindowHolds(Cleared(w, base % SN_MODULUS, n), base + n, sent)
  {
    var r, later := base % SN_MODULUS, base + n;
    var c := Cleared(w, r, n);
    ClearedSlots(w, r, n);
    AtResidue(base);
    hide At, Dist, Cleared;
    forall d | 0 <= d < AM_WINDOW_SIZE ensures SlotHolds(c, later, sent, d) {
      MovedSlot(base, n, d);
      DistAt(r, n + d);
      assert n + d < h ==> SlotHolds(w, base, sent, n + d);
    }
  }

  lemma MovedSlot(base: nat, n: nat, d: nat)
    ensures At(base + n, d) == At(base, n + d) == At(base % SN_MODULUS, n + d)
  {
    AtResidue(base);
  }

  /** What has arrived stays accounted for. */
  lemma ClearedArrived(w: Window, base: nat, n: nat, i: nat)
    requires base <= i < base + AM_WINDOW_SIZE && w[i % SN_MODULUS].Some? && n <= AM_WINDOW_SIZE
    ensures i < base + n || Cleared(w, base % SN_MODULUS, n)[i % SN_MODULUS].Some?
  {
    SlotOf(base, i);
    ClearedSlots(w, base % SN_MODULUS, n);
  }

  /** The slots VR(R) passes are filled with the next PDUs of the stream. */
  lemma PassedAreFilled(w: Window, base: nat, sent: seq<Pdu>, n: nat)
    requires forall j :: 0 <= j < |sent| ==> Printable(sent[j])
    requires WindowHolds(w, base, sent) && AllOccupied(w, base % SN_MODULUS, n) && n <= AM_WINDOW_SIZE && base <= |sent|
    ensures base + n <= |sent| && forall j :: base <= j < base + n ==> Filled(w, sent, j)
  {
    AtResidue(base);
    if n > 0 {
      assert w[At(base % SN_MODULUS, n - 1)].Some? && SlotHolds(w, base, sent, n - 1);
    }
    forall j | base <= j < base + n ensures Filled(w, sent, j) {
      assert w[At(base % SN_MODULUS, j - base)].Some? && SlotHolds(w, base, sent, j - base);
    }
  }

  /** So exactly the SDUs that end in them are handed up. */
  lemma PassedDelivers(rd: Reading, s: Sys, cs: seq<Cursor>, w: Window, h: nat, n: nat)
    requires Typed(s) && Coupled(rd, s, cs)
    requires WindowHolds(w, s.base, s.tx.sent) && AllOccupied(w, s.rx.vrR, n) && n <= AM_WINDOW_SIZE
    ensures s.base + n <= |s.tx.sent|
    ensures var post := AfterPassing(rd.mask, w, s.rx, h, n);
            && post.upper == s.sdus[..cs[s.base + n].k]
            && post.left == HeldAt(s.sdus, cs[s.base + n], SnBefore(s.base + n))
  {
    var end := s.base + n;
    PassedAreFilled(w, s.base, s.tx.sent, n);
    forall j | s.base <= j < end ensures SlotDelivers(rd.mask, s.sdus, cs, w, j) {
      FilledDelivers(rd.mask, s.sdus, cs, s.tx.sent, w, j);
    }
    AscendingDelivers(rd.mask, s.sdus, cs, w, s.base, end);
    SliceJoin(s.sdus, 0, cs[s.base].k, cs[end].k);
  }

  lemma ArriveKeeps(rd: Reading, s: Sys, cs: seq<Cursor>, i: nat)
    requires Typed(s) && Coupled(rd, s, cs) && Possible(rd, s, Arrive(i))
    ensures Coupled(rd, Next(rd, s, Arrive(i)), cs)
    ensures var t := Next(rd, s, Arrive(i));
            t.arrived == s.arrived + {i} && (i < t.base || t.rx.window[i % SN_MODULUS].Some?)
  {
    if i < s.base || s.rx.window[i % SN_MODULUS].Some? {
      RepeatIsDropped(rd, s, cs, i);
    } else {
      hide At, Stretch, HighAfter, AfterPassing, Receive, Accepted, WindowHolds, AllOccupied, OccupiedWithin, IsStream,
           Readable, HeldAt, Accounted, Next;
      var w, h, n := StoredNext(rd, s, cs, i);
      StoredHolds(s.rx.window, s.base, s.tx.sent, i);
      PassingKeeps(rd, s, cs, i, w, h, n);
    }
  }

  /** A PDU that is not a repeat is stored, and VR(R) passes the `n` slots that
      are now occupied without a gap. */
  lemma StoredNext(rd: Reading, s: Sys, cs: seq<Cursor>, i: nat) returns (w: Window, h: nat, n: nat)
    requires Typed(s) && Coupled(rd, s, cs) && Possible(rd, s, Arrive(i))
    requires s.base <= i && s.rx.window[i % SN_MODULUS].None?
    ensures w == s.rx.window[i % SN_MODULUS := Some(Print(s.tx.sent[i]))]
    ensures n <= h <= AM_WINDOW_SIZE && OccupiedWithin(w, s.rx.vrR, h) && Dist(s.rx.vrR, s.rx.vrMs) <= h
    ensures AllOccupied(w, s.rx.vrR, n) && w[At(s.rx.vrR, n)].None?
    ensures Next(rd, s, Arrive(i))
         == Sys(s.sdus, s.tx, AfterPassing(rd.mask, w, s.rx, h, n), s.base + n, s.arrived + {i})
  {
    assert s.tx.sent[i].sn == i % SN_MODULUS;
    hide At, Stretch, AfterPassing, Receive, Accepted, WindowHolds, AllOccupied, OccupiedWithin, IsStream,
         Readable, HeldAt, Accounted;
    var pkt, sn := Octets(s.tx.sent[i]), i % SN_MODULUS;
    NotAccepted(s.rx, s.base, i, pkt);
    w := s.rx.window[sn := Some(pkt)];
    n, h := Stretch(w, s.rx.vrR, SN_MODULUS), HighAfter(s.rx, sn);
    ReceiveEffect(rd.mask, rd.test, s.rx, pkt);
    MoveResidue(s.base, n);
    PassingMoves(rd.mask, w, s.rx, h, n);
  }

  lemma PassingMoves(mask: EMask, w: Window, rx: Rx, h: nat, n: nat)
    requires rx.vrR < SN_MODULUS && rx.vrMs < SN_MODULUS
    ensures AfterPassing(mask, w, rx, h, n).vrR == At(rx.vrR, n)
  {
  }

  lemma MoveResidue(base: nat, n: nat)
    requires n < SN_MODULUS
    ensures At(base % SN_MODULUS, n) == (base + n) % SN_MODULUS
    ensures Dist(base % SN_MODULUS, At(base % SN_MODULUS, n)) == n
  {
  }

  /** The coupling after a new PDU was stored and VR(R) passed `n` slots. */
  lemma PassingKeeps(rd: Reading, s: Sys, cs: seq<Cursor>, i: nat, w: Window, h: nat, n: nat)
    requires Typed(s) && Coupled(rd, s, cs) && i < |s.tx.sent| && s.base <= i < s.base + AM_WINDOW_SIZE
    requires w == s.rx.window[i % SN_MODULUS := Some(Print(s.tx.sent[i]))] && WindowHolds(w, s.base, s.tx.sent)
    requires n <= h <= AM_WINDOW_SIZE && OccupiedWithin(w, s.rx.vrR, h) && Dist(s.rx.vrR, s.rx.vrMs) <= h
    requires AllOccupied(w, s.rx.vrR, n) && w[At(s.rx.vrR, n)].None?
    ensures Coupled(rd, Sys(s.sdus, s.tx, AfterPassing(rd.mask, w, s.rx, h, n), s.base + n, s.arrived + {i}), cs)
  {
    hide At, Dist, RxInv, Cleared, Stretch, Ascending, AllOccupied, OccupiedWithin, WindowHolds, Accounted, Carries,
         HeldAt, Readable;
    var t := Sys(s.sdus, s.tx, AfterPassing(rd.mask, w, s.rx, h, n), s.base + n, s.arrived + {i});
    PassedDelivers(rd, s, cs, w, h, n);
    ClearedHolds(w, s.base, s.tx.sent, n, h);
    PassingKeepsInv(rd.mask, w, s.rx, h, n);
    MoveResidue(s.base, n);
    ArrivedAccounted(s, i, w, n);
    assert RxCoupled(t, cs);
  }

  /** PDUs that have arrived are behind VR(R) or in their slots. */
  ghost predicate Accounted(arrived: set<nat>, w: Window, base: nat) {
    forall j :: j in arrived ==> j < base || (j < base + AM_WINDOW_SIZE && w[j % SN_MODULUS].Some?)
  }

  lemma ArrivedAccounted(s: Sys, i: nat, w: Window, n: nat)
    requires Accounted(s.arrived, s.rx.window, s.base) && s.base <= i < s.base + AM_WINDOW_SIZE && n <= AM_WINDOW_SIZE
    requires w[i % SN_MODULUS].Some? && w == s.rx.window[i % SN_MODULUS := w[i % SN_MODULUS]]
    ensures Accounted(s.arrived + {i}, Cleared(w, s.base % SN_MODULUS, n), s.base + n)
  {
    forall j | j in s.arrived + {i} && s.base <= j
      ensures j < s.base + n || Cleared(w, s.base % SN_MODULUS, n)[j % SN_MODULUS].Some?
    {
      ClearedArrived(w, s.base, n, j);
    }
  }

  lemma {:induction false} RunIsCoupled(rd: Reading, es: seq<Event>) returns (cs: seq<Cursor>)
    ensures Coupled(rd, Behave(rd, es), cs)
    decreases |es|
  {
    if es == [] {
      cs := [Cursor(0, 0)];
    } else {
      var s, e := Behave(rd, es[..|es| - 1]), es[|es| - 1];
      cs := RunIsCoupled(rd, es[..|es| - 1]);
      if Possible(rd, s, e) {
        match e
        case Transmit(c) =>
          if c.Enqueue? {
            EnqueueKeeps(rd, s, cs, c.skb);
          } else if c.octets > 2 && s.tx.queue != [] {
            cs := TransmitKeeps(rd, s, cs, c.octets);
          }
        case Arrive(i) => ArriveKeeps(rd, s, cs, i);
      }
    }
  }

  /** End-to-end safety: whatever is queued and granted and whatever the channel
      does within its window, the SDUs handed up are the first of those queued,
      unchanged, in order and each once. */
  lemma DeliversPrefix(rd: Reading, es: seq<Event>)
    ensures Behave(rd, es).rx.upper <= Behave(rd, es).sdus
  {
    var cs := RunIsCoupled(rd, es);
  }

  /** Nothing is withheld: once every PDU has arrived at least once and the
      queue has been emptied, every SDU has been handed up. */
  lemma DeliversAll(rd: Reading, es: seq<Event>)
    requires var s := Behave(rd, es);
             s.tx.queue == [] && forall i :: 0 <= i < |s.tx.sent| ==> i in s.arrived
    ensures Behave(rd, es).rx.upper == Behave(rd, es).sdus
  {
    var s := Behave(rd, es);
    var cs := RunIsCoupled(rd, es);
    EverythingPassed(rd, s, cs);
  }

  lemma EverythingPassed(rd: Reading, s: Sys, cs: seq<Cursor>)
    requires Coupled(rd, s, cs)
    requires s.tx.queue == [] && forall i :: 0 <= i < |s.tx.sent| ==> i in s.arrived
    ensures s.rx.upper == s.sdus
  {
    assert s.base < |s.tx.sent| ==> s.base in s.arrived;
    assert s.base == |s.tx.sent|;
    assert cs[s.base].k == |s.sdus|;
  }

  /** The window invariant in every state of every run. */
  lemma WindowAlwaysOk(rd: Reading, es: seq<Event>)
    ensures RxInv(Behave(rd, es).rx)
  {
    var cs := RunIsCoupled(rd, es);
  }

  /** The coupling of sender and receiver in every state: what the receiver has
      left over, followed by the rest of the SDU the next PDU continues, is one
      of the SDUs queued. */
  lemma LeftOverIsInFlight(rd: Reading, es: seq<Event>)
    ensures var s := Behave(rd, es);
            s.rx.left.Left? ==> |s.rx.upper| < |s.sdus| && s.rx.left.sdu <= s.sdus[|s.rx.upper|]
    ensures var s := Behave(rd, es);
            s.base == |s.tx.sent| && s.tx.queue != [] ==>
              |s.rx.upper| < |s.sdus|
              && (if s.rx.left.Left? then s.rx.left.sdu else []) + s.tx.queue[0].pkt == s.sdus[|s.rx.upper|]
  {
    var cs := RunIsCoupled(rd, es);
    CoupledInFlight(rd, Behave(rd, es), cs);
  }

  lemma CoupledInFlight(rd: Reading, s: Sys, cs: seq<Cursor>)
    requires Coupled(rd, s, cs)
    ensures s.rx.left.Left? ==> |s.rx.upper| < |s.sdus| && s.rx.left.sdu <= s.sdus[|s.rx.upper|]
    ensures s.base == |s.tx.sent| && s.tx.queue != [] ==>
              |s.rx.upper| < |s.sdus|
              && (if s.rx.left.Left? then s.rx.left.sdu else []) + s.tx.queue[0].pkt == s.sdus[|s.rx.upper|]
  {
    hide WindowHolds, Accounted, RxInv, Readable, Carries;
    var c := cs[s.base];
    assert CursorOk(s.sdus, c);
    if s.base == |s.tx.sent| && s.tx.queue != [] {
      var sdu := s.sdus[c.k];
      assert sdu[..c.off] + sdu[c.off..] == sdu;
    }
  }
}
