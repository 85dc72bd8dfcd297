/** The stream of PDUs seen against the SDUs it carries. A cursor is a place in
    the sequence of all SDUs ever queued; every PDU carries exactly the octets
    between two cursors, and the next PDU takes up at the second one. */
module Stream {
  import opened Wire
  import opened Segmenter
  import opened Reassembler

  /** SDU `k` is the next to be sent and its first `off` octets are sent already. */
  datatype Cursor = Cursor(k: nat, off: nat)

  ghost predicate CursorOk(sdus: seq<Bytes>, c: Cursor) {
    c.k <= |sdus| && (c.off > 0 ==> c.k < |sdus| && c.off < |sdus[c.k]|)
  }

  /** The transmit queue when the cursor stands at `c`. */
  function QueueAt(sdus: seq<Bytes>, c: Cursor): seq<Sdu>
    requires CursorOk(sdus, c)
  {
    if c.k == |sdus| then []
    else [Sdu(sdus[c.k][c.off..], if c.off > 0 then LAST_SEGMENT else FULL_SDU)] + Whole(sdus[c.k + 1..])
  }

  function Whole(sdus: seq<Bytes>): (queue: seq<Sdu>)
    ensures |queue| == |sdus|
  {
    seq(|sdus|, i requires 0 <= i < |sdus| => Sdu(sdus[i], FULL_SDU))
  }

  ghost predicate Before(sdus: seq<Bytes>, c: Cursor, d: Cursor) {
    CursorOk(sdus, c) && CursorOk(sdus, d) && c.k < |sdus| && (c.k < d.k || (c.k == d.k && c.off < d.off))
  }

  /** The pieces of SDUs between two cursors. */
  function Between(sdus: seq<Bytes>, c: Cursor, d: Cursor): (pieces: seq<Bytes>)
    requires Before(sdus, c, d)
    ensures |pieces| == d.k - c.k + (if d.off > 0 then 1 else 0)
  {
    if c.k == d.k then [sdus[c.k][c.off..d.off]]
    else [sdus[c.k][c.off..]] + sdus[c.k + 1..d.k] + (if d.off > 0 then [sdus[d.k][..d.off]] else [])
  }

  /** The PDU carries what lies between the cursors, and its FI bits say whether
      it starts and ends inside an SDU. */
  ghost predicate Carries(sdus: seq<Bytes>, c: Cursor, d: Cursor, p: Pdu) {
    Before(sdus, c, d) && p.pieces == Between(sdus, c, d)
    && (p.fiFirst <==> c.off > 0) && (p.fiSecond <==> d.off > 0)
  }

  // ----- the segmenter writes such a stream -----

  /** Where a plan moves the cursor. */
  function Advance(sdus: seq<Bytes>, c: Cursor, p: Plan): Cursor
    requires CursorOk(sdus, c) && PlanOk(QueueAt(sdus, c), p)
  {
    if p.lastLen == |QueueAt(sdus, c)[p.count - 1].pkt| then Cursor(c.k + p.count, 0)
    else Cursor(c.k + p.count - 1, (if p.count == 1 then c.off else 0) + p.lastLen)
  }

  lemma QueueEntry(sdus: seq<Bytes>, c: Cursor, i: nat)
    requires CursorOk(sdus, c) && c.k + i < |sdus|
    ensures |QueueAt(sdus, c)| == |sdus| - c.k
    ensures QueueAt(sdus, c)[i]
         == if i == 0 then Sdu(sdus[c.k][c.off..], if c.off > 0 then LAST_SEGMENT else FULL_SDU)
            else Sdu(sdus[c.k + i], FULL_SDU)
  {
  }

  /** A plan that ends inside an entry, or takes it whole, is a step of the cursor. */
  lemma PlanMovesCursor(sdus: seq<Bytes>, c: Cursor, p: Plan)
    requires CursorOk(sdus, c) && PlanOk(QueueAt(sdus, c), p)
    requires p.lastLen < |QueueAt(sdus, c)[p.count - 1].pkt| ==> p.lastLen > 0
    ensures var d := Advance(sdus, c, p);
            && Before(sdus, c, d)
            && Pieces(QueueAt(sdus, c), p) == Between(sdus, c, d)
            && Remaining(QueueAt(sdus, c), p) == QueueAt(sdus, d)
  {
    var queue := QueueAt(sdus, c);
    var d := Advance(sdus, c, p);
    QueueEntry(sdus, c, p.count - 1);
    QueueEntry(sdus, c, 0);
    assert Before(sdus, c, d);
    hide Pieces, Between, Remaining, QueueAt;
    PlanPieces(sdus, c, p);
    PlanRemaining(sdus, c, p);
  }

  lemma PlanRemaining(sdus: seq<Bytes>, c: Cursor, p: Plan)
    requires CursorOk(sdus, c) && PlanOk(QueueAt(sdus, c), p)
    requires p.lastLen < |QueueAt(sdus, c)[p.count - 1].pkt| ==> p.lastLen > 0
    requires CursorOk(sdus, Advance(sdus, c, p))
    ensures Remaining(QueueAt(sdus, c), p) == QueueAt(sdus, Advance(sdus, c, p))
  {
    hide Whole, QueueAt;
    QueueTail(sdus, c, p.count);
    if p.lastLen == |QueueAt(sdus, c)[p.count - 1].pkt| {
      WholeQueue(sdus, c.k + p.count);
    } else {
      CutQueue(sdus, c, p);
    }
  }

  /** The queue behind a PDU that ends inside an entry. */
  lemma CutQueue(sdus: seq<Bytes>, c: Cursor, p: Plan)
    requires CursorOk(sdus, c) && PlanOk(QueueAt(sdus, c), p)
    requires 0 < p.lastLen < |QueueAt(sdus, c)[p.count - 1].pkt|
    requires CursorOk(sdus, Advance(sdus, c, p))
    ensures var d := Advance(sdus, c, p);
            && d.k + 1 == c.k + p.count <= |sdus|
            && QueueAt(sdus, d)
               == [Sdu(QueueAt(sdus, c)[p.count - 1].pkt[p.lastLen..], LAST_SEGMENT)] + Whole(sdus[d.k + 1..])
  {
    hide Whole;
    var d := Advance(sdus, c, p);
    QueueEntry(sdus, c, p.count - 1);
    assert QueueAt(sdus, c)[p.count - 1].pkt[p.lastLen..] == sdus[d.k][d.off..];
  }

  lemma QueueTail(sdus: seq<Bytes>, c: Cursor, n: nat)
    requires CursorOk(sdus, c) && 1 <= n <= |QueueAt(sdus, c)|
    ensures c.k + n <= |sdus| && QueueAt(sdus, c)[n..] == Whole(sdus[c.k + n..])
  {
    var a, b := QueueAt(sdus, c)[n..], Whole(sdus[c.k + n..]);
    forall i | 0 <= i < |a| ensures a[i] == b[i] {
      assert a[i] == QueueAt(sdus, c)[n + i];
    }
  }

  lemma WholeQueue(sdus: seq<Bytes>, k: nat)
    requires k <= |sdus|
    ensures QueueAt(sdus, Cursor(k, 0)) == Whole(sdus[k..])
  {
    if k < |sdus| {
      assert sdus[k][0..] == sdus[k];
    }
  }

  lemma PlanPieces(sdus: seq<Bytes>, c: Cursor, p: Plan)
    requires CursorOk(sdus, c) && PlanOk(QueueAt(sdus, c), p)
    requires p.lastLen < |QueueAt(sdus, c)[p.count - 1].pkt| ==> p.lastLen > 0
    requires Before(sdus, c, Advance(sdus, c, p))
    ensures Pieces(QueueAt(sdus, c), p) == Between(sdus, c, Advance(sdus, c, p))
  {
    var queue := QueueAt(sdus, c);
    var d := Advance(sdus, c, p);
    var a, b := Pieces(queue, p), Between(sdus, c, d);
    var n := p.count - 1;
    QueueEntry(sdus, c, n);
    assert |a| == |b|;
    forall i | 0 <= i < n ensures a[i] == b[i] {
      QueueEntry(sdus, c, i);
      assert a[i] == queue[i].pkt;
    }
    assert a[n] == queue[n].pkt[..p.lastLen];
    if n == 0 {
      assert sdus[c.k][c.off..][..p.lastLen] == sdus[c.k][c.off..c.off + p.lastLen];
      assert b[0] == if c.k == d.k then sdus[c.k][c.off..d.off] else sdus[c.k][c.off..];
      assert a[0] == b[0];
    } else {
      assert b[n] == sdus[c.k + n][..p.lastLen];
    }
  }

  function NextCursor(sdus: seq<Bytes>, c: Cursor, grant: nat): (d: Cursor)
    requires CursorOk(sdus, c) && c.k < |sdus| && 2 < grant
  {
    Advance(sdus, c, PlanFor(QueueAt(sdus, c), grant - 2))
  }

  lemma SegmentCarries(sdus: seq<Bytes>, c: Cursor, sn: nat, grant: nat)
    requires CursorOk(sdus, c) && c.k < |sdus| && sn < SN_MODULUS && grant > 2
    ensures var d := NextCursor(sdus, c, grant);
            && Carries(sdus, c, d, SegmentPdu(QueueAt(sdus, c), sn, grant))
            && SegmentRest(QueueAt(sdus, c), grant) == QueueAt(sdus, d)
  {
    var p := PlanFor(QueueAt(sdus, c), grant - 2);
    CutIsProper(QueueAt(sdus, c), grant - 2);
    PlanMovesCursor(sdus, c, p);
  }

  lemma EnqueueKeepsCursor(sdus: seq<Bytes>, c: Cursor, skb: Bytes)
    requires CursorOk(sdus, c)
    ensures CursorOk(sdus + [skb], c)
    ensures QueueAt(sdus + [skb], c) == QueueAt(sdus, c) + [Sdu(skb, FULL_SDU)]
  {
    if c.k < |sdus| {
      assert (sdus + [skb])[c.k + 1..] == sdus[c.k + 1..] + [skb];
      assert Whole(sdus[c.k + 1..] + [skb]) == Whole(sdus[c.k + 1..]) + [Sdu(skb, FULL_SDU)];
    } else {
      var rest: seq<Bytes> := (sdus + [skb])[c.k + 1..];
      assert rest == [] && Whole(rest) == [];
    }
  }

  lemma EnqueueKeepsCarries(sdus: seq<Bytes>, c: Cursor, d: Cursor, p: Pdu, skb: Bytes)
    requires Carries(sdus, c, d, p)
    ensures Carries(sdus + [skb], c, d, p)
  {
    var more := sdus + [skb];
    assert more[c.k + 1..][..|sdus| - c.k - 1] == sdus[c.k + 1..];
    if c.k < d.k {
      assert more[c.k + 1..d.k] == sdus[c.k + 1..d.k];
    }
  }

  // ----- the reassembler reads it back -----

  /** What a receiver holds that has seen everything up to the cursor, the last
      PDU having serial number `sn`. */
  function HeldAt(sdus: seq<Bytes>, c: Cursor, sn: nat): PduLeft
    requires CursorOk(sdus, c)
  {
    if c.off > 0 then Left(sn, sdus[c.k][..c.off]) else NoLeft
  }

  /** One PDU from a receiver that holds the beginning of the SDU in flight: it
      hands up exactly the SDUs completed and holds the beginning of the next. */
  lemma ReassembleNext(sdus: seq<Bytes>, c: Cursor, d: Cursor, p: Pdu, left: PduLeft)
    requires Carries(sdus, c, d, p)
    requires c.off > 0 ==> left.Left? && Joins(left, p.sn) && left.sdu == sdus[c.k][..c.off]
    ensures Reassemble(left, p) == Out(HeldAt(sdus, d, p.sn), sdus[c.k..d.k])
  {
    hide Completed;
    var whole := sdus[c.k..d.k] + (if d.off > 0 then [sdus[d.k][..d.off]] else []);
    CompletedNext(sdus, c, d, p, left);
    if d.off > 0 {
      assert whole[..|whole| - 1] == sdus[c.k..d.k];
    }
  }

  lemma CompletedNext(sdus: seq<Bytes>, c: Cursor, d: Cursor, p: Pdu, left: PduLeft)
    requires Carries(sdus, c, d, p)
    requires c.off > 0 ==> left.Left? && Joins(left, p.sn) && left.sdu == sdus[c.k][..c.off]
    ensures Completed(left, p) == sdus[c.k..d.k] + (if d.off > 0 then [sdus[d.k][..d.off]] else [])
  {
    var s := sdus[c.k];
    var first := s[..c.off] + p.pieces[0];
    assert CompletedFirst(left, p.fiFirst, p.sn, p.pieces[0]) == [first] by {
      assert c.off == 0 ==> first == p.pieces[0];
    }
    if c.k == d.k {
      assert s[..c.off] + s[c.off..d.off] == s[..d.off];
    } else {
      assert s[..c.off] + s[c.off..] == s;
      BetweenBehind(sdus, c, d);
    }
  }

  /** What lies between two cursors, the piece of the first SDU set aside. */
  lemma BetweenBehind(sdus: seq<Bytes>, c: Cursor, d: Cursor)
    requires Before(sdus, c, d) && c.k < d.k
    ensures sdus[c.k..d.k] == [sdus[c.k]] + sdus[c.k + 1..d.k]
    ensures Between(sdus, c, d)[0] == sdus[c.k][c.off..]
    ensures Between(sdus, c, d)[1..]
         == sdus[c.k + 1..d.k] + (if d.off > 0 then [sdus[d.k][..d.off]] else [])
  {
  }

  /** One PDU that continues an SDU whose beginning is not at hand: that SDU is
      given up and nothing else is touched. */
  lemma ReassembleOrphan(sdus: seq<Bytes>, c: Cursor, d: Cursor, p: Pdu, left: PduLeft)
    requires Carries(sdus, c, d, p) && c.off > 0 && !Joins(left, p.sn)
    ensures Reassemble(left, p)
         == if c.k == d.k then Out(NoLeft, []) else Out(HeldAt(sdus, d, p.sn), sdus[c.k + 1..d.k])
  {
    var rest := p.pieces[1..];
    assert Completed(left, p) == rest;
    if c.k == d.k {
      assert rest == [];
    } else {
      hide Between, Completed;
      var whole := sdus[c.k + 1..d.k] + (if d.off > 0 then [sdus[d.k][..d.off]] else []);
      BetweenBehind(sdus, c, d);
      assert rest == whole;
      if d.off > 0 {
        assert whole[..|whole| - 1] == sdus[c.k + 1..d.k];
      }
    }
  }

  /** PDU `i` carries what lies between cursors `i` and `i + 1`, and SNs count modulo 1024. */
  ghost predicate IsStream(sdus: seq<Bytes>, cs: seq<Cursor>, pdus: seq<Pdu>) {
    && |cs| == |pdus| + 1 && cs[0] == Cursor(0, 0)
    && (forall i :: 0 <= i < |cs| ==> CursorOk(sdus, cs[i]))
    && (forall i {:trigger pdus[i]} :: 0 <= i < |pdus| ==> Carries(sdus, cs[i], cs[i + 1], pdus[i]))
    && (forall i :: 0 <= i < |pdus| ==> pdus[i].sn == i % SN_MODULUS)
  }

  lemma {:induction false} CursorsAdvance(sdus: seq<Bytes>, cs: seq<Cursor>, pdus: seq<Pdu>, i: nat, j: nat)
    requires IsStream(sdus, cs, pdus) && i <= j <= |pdus|
    ensures cs[i].k <= cs[j].k
    ensures cs[i].k == cs[j].k ==> cs[i].off <= cs[j].off
    ensures i < j && cs[i].k == cs[j].k ==> cs[i].off < cs[j].off
    decreases j - i
  {
    if i < j {
      CursorsAdvance(sdus, cs, pdus, i + 1, j);
      assert Carries(sdus, cs[i], cs[i + 1], pdus[i]);
    }
  }
}
