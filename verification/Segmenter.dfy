/** The transmitting side of an AM entity: SDUs are queued and, for each grant
    of the MAC, packed into one AMD PDU that may end inside an SDU. */
module Segmenter {
  import opened Wire
  import opened Wrappers

  datatype PacketStatus = FULL_SDU | LAST_SEGMENT

  /** What is left of an SDU in the queue; LAST_SEGMENT once its head has been sent. */
  datatype Sdu = Sdu(pkt: Bytes, status: PacketStatus)

  /** The largest grant under which an SDU of any length is sent right; the
      caller grants at most 1400 octets. */
  const MAX_GRANT := 0x7fff

  /** The length of the PDU has sixteen bits. */
  predicate LengthFits(queue: seq<Sdu>, grant: nat) {
    |queue| <= 0xffff && (grant <= 0xffff || ByteSum(queue) + 2 * |queue| <= 0xffff)
  }

  // ----- how much fits -----

  /** The number of queue entries a PDU draws on, and the octets taken of the last one. */
  datatype Plan = Plan(count: nat, lastLen: nat)

  /** `size` is the grant less the two octets of the fixed header. Going on to
      another entry costs two octets for the LI of the one before. */
  function PlanFor(queue: seq<Sdu>, size: nat): (p: Plan)
    requires queue != []
    ensures 1 <= p.count <= |queue| && p.lastLen <= |queue[p.count - 1].pkt|
  {
    var len := |queue[0].pkt|;
    if size <= len then Plan(1, size)
    else if size > len + 2 && |queue| > 1 then
      var p := PlanFor(queue[1..], size - len - 2);
      Plan(p.count + 1, p.lastLen)
    else Plan(1, len)
  }

  /** No SDU that gets an LI is too long for its fifteen bits. */
  predicate GrantFits(queue: seq<Sdu>, grant: nat) {
    queue == [] || grant <= 2
    || forall i :: 0 <= i < PlanFor(queue, grant - 2).count - 1 ==> |queue[i].pkt| <= MAX_LI
  }

  ghost predicate PlanOk(queue: seq<Sdu>, p: Plan) {
    1 <= p.count <= |queue| && p.lastLen <= |queue[p.count - 1].pkt|
  }

  /** The octets of the first entries, whole, and of the last one, cut. */
  function Pieces(queue: seq<Sdu>, p: Plan): (pieces: seq<Bytes>)
    requires PlanOk(queue, p)
    ensures |pieces| == p.count
  {
    Packets(queue[..p.count - 1]) + [queue[p.count - 1].pkt[..p.lastLen]]
  }

  function Packets(queue: seq<Sdu>): (pkts: seq<Bytes>)
    ensures |pkts| == |queue|
  {
    seq(|queue|, i requires 0 <= i < |queue| => queue[i].pkt)
  }

  /** The queue after the PDU: a cut entry stays at the head as a last segment. */
  function Remaining(queue: seq<Sdu>, p: Plan): seq<Sdu>
    requires PlanOk(queue, p)
  {
    var last := queue[p.count - 1];
    if p.lastLen < |last.pkt| then [Sdu(last.pkt[p.lastLen..], LAST_SEGMENT)] + queue[p.count..]
    else queue[p.count..]
  }

  function PduFor(queue: seq<Sdu>, sn: nat, p: Plan): Pdu
    requires PlanOk(queue, p)
  {
    Pdu(queue[0].status != FULL_SDU, p.lastLen < |queue[p.count - 1].pkt|, sn, Pieces(queue, p))
  }

  function ByteSum(queue: seq<Sdu>): nat {
    if queue == [] then 0 else |queue[0].pkt| + ByteSum(queue[1..])
  }

  lemma {:induction false} ByteSumConcat(a: seq<Sdu>, b: seq<Sdu>)
    ensures ByteSum(a + b) == ByteSum(a) + ByteSum(b)
  {
    if a == [] {
      assert a + b == b;
    } else {
      ByteSumConcat(a[1..], b);
      assert (a + b)[1..] == a[1..] + b;
    }
  }

  lemma {:induction false} ByteSumIsLength(queue: seq<Sdu>)
    ensures ByteSum(queue) == |Flatten(Packets(queue))|
  {
    if queue != [] {
      ByteSumIsLength(queue[1..]);
      assert Packets(queue)[1..] == Packets(queue[1..]);
    }
  }

  /** A PDU that ends inside an entry takes at least one octet of it. */
  lemma {:induction false} CutIsProper(queue: seq<Sdu>, size: nat)
    requires queue != [] && size > 0
    ensures var p := PlanFor(queue, size);
            p.lastLen < |queue[p.count - 1].pkt| ==> p.lastLen > 0
    decreases |queue|
  {
    var len := |queue[0].pkt|;
    if size > len + 2 && |queue| > 1 {
      CutIsProper(queue[1..], size - len - 2);
    }
  }

  lemma PiecesStep(queue: seq<Sdu>, p: Plan)
    requires |queue| > 1 && PlanOk(queue[1..], p)
    ensures Pieces(queue, Plan(p.count + 1, p.lastLen)) == [queue[0].pkt] + Pieces(queue[1..], p)
    ensures Remaining(queue, Plan(p.count + 1, p.lastLen)) == Remaining(queue[1..], p)
  {
    assert queue[1..][..p.count - 1] == queue[1..p.count];
    assert queue[..p.count] == [queue[0]] + queue[1..p.count];
    assert queue[1..][p.count..] == queue[p.count + 1..];
  }

  /** Every PDU fits its grant, and no grant is wasted: a PDU that ends inside an
      entry fills it, and any other that is shorter has emptied the queue or left
      at most two octets, which cannot hold another LI and an octet of data. */
  lemma {:induction false} PlanIsGreedy(queue: seq<Sdu>, size: nat)
    requires queue != []
    ensures var p := PlanFor(queue, size);
            var used := 2 * (p.count - 1) + |Flatten(Pieces(queue, p))|;
            && used <= size && (used == size || Remaining(queue, p) == [] || size - used <= 2)
            && (p.lastLen < |queue[p.count - 1].pkt| ==> used == size)
    decreases |queue|
  {
    var p := PlanFor(queue, size);
    var len := |queue[0].pkt|;
    if size > len + 2 && |queue| > 1 {
      PlanIsGreedy(queue[1..], size - len - 2);
      PiecesStep(queue, PlanFor(queue[1..], size - len - 2));
    } else {
      SinglePiece(queue, p);
    }
  }

  lemma SinglePiece(queue: seq<Sdu>, p: Plan)
    requires queue != [] && p.count == 1 && PlanOk(queue, p)
    ensures Pieces(queue, p) == [queue[0].pkt[..p.lastLen]]
    ensures Flatten(Pieces(queue, p)) == queue[0].pkt[..p.lastLen]
  {
    var one := [queue[0].pkt[..p.lastLen]];
    assert Pieces(queue, p) == one;
    FlattenOne(one[0]);
  }

  /** All pieces but the last are whole entries that were skipped with room to spare. */
  lemma {:induction false} PlanPrintable(queue: seq<Sdu>, size: nat)
    requires queue != [] && (size <= MAX_LI || forall i :: 0 <= i < |queue| ==> |queue[i].pkt| <= MAX_LI)
    ensures var p := PlanFor(queue, size);
            forall i :: 0 <= i < p.count - 1 ==> |queue[i].pkt| <= MAX_LI
    decreases |queue|
  {
    var len := |queue[0].pkt|;
    if size > len + 2 && |queue| > 1 {
      PlanPrintable(queue[1..], size - len - 2);
      var q := queue[1..];
      var n := PlanFor(q, size - len - 2).count;
      forall i | 0 <= i < n ensures |queue[i].pkt| <= MAX_LI {
        if i > 0 {
          assert queue[i] == q[i - 1];
        }
      }
    }
  }

  /** No octet is lost or moved: what the PDU carries followed by what stays
      queued is what was queued. */
  lemma {:induction false} PlanConserves(queue: seq<Sdu>, p: Plan)
    requires PlanOk(queue, p)
    ensures Flatten(Pieces(queue, p)) + Flatten(Packets(Remaining(queue, p))) == Flatten(Packets(queue))
    decreases |queue|
  {
    if p.count == 1 {
      SingleConserves(queue, p);
    } else {
      hide Packets, Pieces, Remaining;
      FlattenPackets(queue);
      var p' := Plan(p.count - 1, p.lastLen);
      PlanConserves(queue[1..], p');
      PiecesStep(queue, p');
      var inner := Pieces(queue[1..], p');
      assert ([queue[0].pkt] + inner)[1..] == inner;
    }
  }

  lemma SingleConserves(queue: seq<Sdu>, p: Plan)
    requires PlanOk(queue, p) && p.count == 1
    ensures Flatten(Pieces(queue, p)) + Flatten(Packets(Remaining(queue, p))) == Flatten(Packets(queue))
  {
    hide Packets, Flatten;
    var pkt, left := queue[0].pkt, Remaining(queue, p);
    SinglePiece(queue, p);
    FlattenPackets(queue);
    assert pkt == pkt[..p.lastLen] + pkt[p.lastLen..];
    if p.lastLen < |pkt| {
      FlattenPackets(left);
      assert left[1..] == queue[1..];
    } else {
      assert left == queue[1..];
    }
  }

  lemma FlattenPackets(queue: seq<Sdu>)
    requires queue != []
    ensures Flatten(Packets(queue)) == queue[0].pkt + Flatten(Packets(queue[1..]))
  {
    assert Packets(queue)[1..] == Packets(queue[1..]);
  }

  // ----- the segmenter as a function of its state -----

  /** The PDU a grant of more than two octets yields. */
  function SegmentPdu(queue: seq<Sdu>, sn: nat, grant: nat): (pdu: Pdu)
    requires queue != [] && sn < SN_MODULUS && grant > 2
    ensures Printable(pdu)
  {
    PduFor(queue, sn, PlanFor(queue, grant - 2))
  }

  /** The lengths in the extension headers are right exactly when the grant fits. */
  lemma ShortIffFits(queue: seq<Sdu>, sn: nat, grant: nat)
    requires queue != [] && sn < SN_MODULUS && grant > 2
    ensures Short(SegmentPdu(queue, sn, grant)) <==> GrantFits(queue, grant)
  {
    var p, pdu := PlanFor(queue, grant - 2), SegmentPdu(queue, sn, grant);
    forall i | 0 <= i < p.count - 1 ensures |pdu.pieces[i]| == |queue[i].pkt| {
    }
  }

  /** It does when the grant is moderate, or when every SDU queued is. */
  lemma ModerateFits(queue: seq<Sdu>, grant: nat)
    requires grant <= MAX_GRANT || forall i :: 0 <= i < |queue| ==> |queue[i].pkt| <= MAX_LI
    ensures GrantFits(queue, grant)
  {
    if queue != [] && grant > 2 {
      PlanPrintable(queue, grant - 2);
    }
  }

  function SegmentRest(queue: seq<Sdu>, grant: nat): seq<Sdu>
    requires queue != [] && grant > 2
  {
    Remaining(queue, PlanFor(queue, grant - 2))
  }

  /** Grant bound and greedy maximality for the octets on the wire. */
  lemma SegmentLength(queue: seq<Sdu>, sn: nat, grant: nat)
    requires queue != [] && sn < SN_MODULUS && grant > 2
    ensures var pdu := SegmentPdu(queue, sn, grant);
            var len := |Print(pdu)|;
            && len == 2 * |pdu.pieces| + |Flatten(pdu.pieces)|
            && len <= grant
            && (len == grant || SegmentRest(queue, grant) == [] || grant - len <= 2)
            && (pdu.fiSecond ==> len == grant)
  {
    hide Print, Flatten, Pieces, Remaining, PlanFor;
    PlanIsGreedy(queue, grant - 2);
    PrintedLength(SegmentPdu(queue, sn, grant));
  }

  lemma PlanIsShort(queue: seq<Sdu>, grant: nat)
    requires queue != [] && grant > 2 && LengthFits(queue, grant)
    ensures var p := PlanFor(queue, grant - 2);
            |Flatten(Pieces(queue, p))| + 2 * p.count <= 0xffff
  {
    hide Flatten, Packets, PlanFor, Pieces, Remaining, ByteSum;
    var p := PlanFor(queue, grant - 2);
    PlanIsGreedy(queue, grant - 2);
    PlanConserves(queue, p);
    ByteSumIsLength(queue);
    assert |Flatten(Packets(queue))| == |Flatten(Pieces(queue, p))| + |Flatten(Packets(Remaining(queue, p)))|;
  }

  // ----- runs of the segmenter -----

  datatype Command = Enqueue(skb: Bytes) | Grant(octets: nat)

  datatype Tx = Tx(queue: seq<Sdu>, sn: nat, sent: seq<Pdu>)

  const FRESH: Tx := Tx([], 0, [])

  /** A grant of two octets or less yields no PDU; for an empty queue the caller
      does not ask. */
  function Step(s: Tx, c: Command): (t: Tx)
    requires s.sn < SN_MODULUS
    ensures t.sn < SN_MODULUS
  {
    match c
    case Enqueue(skb) => s.(queue := s.queue + [Sdu(skb, FULL_SDU)])
    case Grant(octets) =>
      if octets <= 2 || s.queue == [] then s
      else Tx(SegmentRest(s.queue, octets), (s.sn + 1) % SN_MODULUS, s.sent + [SegmentPdu(s.queue, s.sn, octets)])
  }

  function Run(cs: seq<Command>): (t: Tx)
    ensures t.sn < SN_MODULUS
  {
    if cs == [] then FRESH else Step(Run(cs[..|cs| - 1]), cs[|cs| - 1])
  }

  /** How many PDUs a queue can at most be worth: one for each octet, and one for
      each SDU without octets. */
  function Work(queue: seq<Sdu>): nat {
    if queue == [] then 0 else (if queue[0].pkt == [] then 1 else |queue[0].pkt|) + Work(queue[1..])
  }

  lemma {:induction false} WorkConcat(a: seq<Sdu>, b: seq<Sdu>)
    ensures Work(a + b) == Work(a) + Work(b)
  {
    if a == [] {
      assert a + b == b;
    } else {
      WorkConcat(a[1..], b);
      assert (a + b)[1..] == a[1..] + b;
    }
  }

  lemma {:induction false} WorkIsOctets(queue: seq<Sdu>)
    ensures Work(queue) >= ByteSum(queue) && (queue != [] ==> Work(queue) > 0)
    ensures (forall i :: 0 <= i < |queue| ==> queue[i].pkt != []) ==> Work(queue) == ByteSum(queue)
  {
    if queue != [] {
      WorkIsOctets(queue[1..]);
      assert forall i :: 0 <= i < |queue| - 1 ==> queue[1..][i] == queue[i + 1];
    }
  }

  /** Every PDU takes something off the queue. */
  lemma {:induction false} PlanShrinks(queue: seq<Sdu>, size: nat)
    requires queue != [] && size > 0
    ensures Work(Remaining(queue, PlanFor(queue, size))) < Work(queue)
    decreases |queue|
  {
    var len, p := |queue[0].pkt|, PlanFor(queue, size);
    if size > len + 2 && |queue| > 1 {
      PlanShrinks(queue[1..], size - len - 2);
      PiecesStep(queue, PlanFor(queue[1..], size - len - 2));
    } else if p.lastLen < len {
      assert Remaining(queue, p)[1..] == queue[1..];
    }
  }

  /** What a grant does: with something queued and more than two octets granted,
      exactly one PDU is sent, which fits the grant; what it carries leaves the
      queue, and that is something. Any other grant does nothing. */
  lemma GrantSends(s: Tx, octets: nat)
    requires s.sn < SN_MODULUS
    ensures var t := Step(s, Grant(octets));
            if octets > 2 && s.queue != [] then
              && |t.sent| == |s.sent| + 1 && t.sent[..|s.sent|] == s.sent && t.sn == (s.sn + 1) % SN_MODULUS
              && Takes(s.queue, t.queue, t.sent[|s.sent|], s.sn, octets)
            else t == s
  {
    hide Takes, SegmentPdu, SegmentRest;
    if octets > 2 && s.queue != [] {
      GrantTakes(s.queue, s.sn, octets);
    }
  }

  /** The PDU fits the grant, and takes what it carries, and something, off the queue. */
  ghost predicate Takes(queue: seq<Sdu>, rest: seq<Sdu>, p: Pdu, sn: nat, grant: nat) {
    && Printable(p) && p.sn == sn && |Print(p)| <= grant
    && Flatten(p.pieces) + Flatten(Packets(rest)) == Flatten(Packets(queue))
    && ByteSum(rest) == ByteSum(queue) - |Flatten(p.pieces)| && Work(rest) < Work(queue)
  }

  lemma GrantTakes(queue: seq<Sdu>, sn: nat, grant: nat)
    requires queue != [] && sn < SN_MODULUS && grant > 2
    ensures Takes(queue, SegmentRest(queue, grant), SegmentPdu(queue, sn, grant), sn, grant)
  {
    SegmentLength(queue, sn, grant);
    GrantConserves(queue, sn, grant);
    PlanShrinks(queue, grant - 2);
    hide Flatten, Packets, PlanFor, Pieces, Remaining, Print, ByteSum;
    var p, rest := SegmentPdu(queue, sn, grant), SegmentRest(queue, grant);
    ByteSumIsLength(queue);
    ByteSumIsLength(rest);
    assert |Flatten(Packets(queue))| == |Flatten(p.pieces)| + |Flatten(Packets(rest))|;
  }

  /** In every run each grant of more than two octets yields one PDU, as long as
      something is queued. */
  lemma RunSends(cs: seq<Command>, octets: nat)
    ensures var s, t := Run(cs), Run(cs + [Grant(octets)]);
            && |t.sent| == |s.sent| + (if octets > 2 && s.queue != [] then 1 else 0)
            && (octets > 2 && s.queue != [] ==> Work(t.queue) < Work(s.queue))
  {
    assert (cs + [Grant(octets)])[..|cs|] == cs;
    GrantSends(Run(cs), octets);
  }

  function Payloads(pdus: seq<Pdu>): Bytes {
    if pdus == [] then [] else Payloads(pdus[..|pdus| - 1]) + Flatten(pdus[|pdus| - 1].pieces)
  }

  function Enqueued(cs: seq<Command>): Bytes {
    if cs == [] then []
    else
      var c := cs[|cs| - 1];
      Enqueued(cs[..|cs| - 1]) + (if c.Enqueue? then c.skb else [])
  }

  lemma StepConserves(s: Tx, c: Command)
    requires s.sn < SN_MODULUS
    ensures var t := Step(s, c);
            Payloads(t.sent) + Flatten(Packets(t.queue))
            == Payloads(s.sent) + Flatten(Packets(s.queue)) + (if c.Enqueue? then c.skb else [])
  {
    hide Flatten, Packets, Payloads, PlanFor, SegmentPdu, SegmentRest;
    if c.Enqueue? {
      EnqueueConserves(s.queue, c.skb);
    } else if c.octets > 2 && s.queue != [] {
      var pdu := SegmentPdu(s.queue, s.sn, c.octets);
      GrantConserves(s.queue, s.sn, c.octets);
      PayloadsGrow(s.sent, pdu);
    }
  }

  lemma EnqueueConserves(queue: seq<Sdu>, skb: Bytes)
    ensures Flatten(Packets(queue + [Sdu(skb, FULL_SDU)])) == Flatten(Packets(queue)) + skb
  {
    assert Packets(queue + [Sdu(skb, FULL_SDU)]) == Packets(queue) + [skb];
    FlattenConcat(Packets(queue), [skb]);
    FlattenOne(skb);
  }

  lemma GrantConserves(queue: seq<Sdu>, sn: nat, grant: nat)
    requires queue != [] && sn < SN_MODULUS && grant > 2
    ensures Flatten(SegmentPdu(queue, sn, grant).pieces) + Flatten(Packets(SegmentRest(queue, grant)))
         == Flatten(Packets(queue))
  {
    hide Flatten, Packets, PlanFor, Pieces, Remaining;
    PlanConserves(queue, PlanFor(queue, grant - 2));
  }

  lemma PayloadsGrow(pdus: seq<Pdu>, pdu: Pdu)
    ensures Payloads(pdus + [pdu]) == Payloads(pdus) + Flatten(pdu.pieces)
  {
    hide Flatten;
    assert (pdus + [pdu])[..|pdus|] == pdus;
  }

  /** Byte conservation over every run. */
  lemma {:induction false} RunConserves(cs: seq<Command>)
    ensures Payloads(Run(cs).sent) + Flatten(Packets(Run(cs).queue)) == Enqueued(cs)
    decreases |cs|
  {
    if cs != [] {
      RunConserves(cs[..|cs| - 1]);
      StepConserves(Run(cs[..|cs| - 1]), cs[|cs| - 1]);
    }
  }

  ghost predicate HeadCut(queue: seq<Sdu>) { queue != [] && queue[0].status == LAST_SEGMENT }

  /** Only the head of the queue can be a remainder. */
  ghost predicate OnlyHeadCut(queue: seq<Sdu>) {
    forall i :: 1 <= i < |queue| ==> queue[i].status == FULL_SDU
  }

  /** The framing of a run of PDUs: serial numbers count up from zero modulo
      1024, and a PDU starts inside an SDU exactly when the one before ended
      inside it. */
  ghost predicate Framed(pdus: seq<Pdu>) {
    && (forall i :: 0 <= i < |pdus| ==> pdus[i].sn == i % SN_MODULUS)
    && (forall i {:trigger pdus[i].fiFirst} :: 0 <= i < |pdus| ==> (pdus[i].fiFirst <==> i > 0 && pdus[i - 1].fiSecond))
  }

  /** What a PDU leaves behind: at most its head is a remainder, and it is one
      exactly when the PDU ended inside an SDU. */
  lemma RemainderIsHead(queue: seq<Sdu>, p: Plan)
    requires PlanOk(queue, p) && OnlyHeadCut(queue)
    ensures OnlyHeadCut(Remaining(queue, p))
    ensures HeadCut(Remaining(queue, p)) <==> p.lastLen < |queue[p.count - 1].pkt|
  {
    var after := queue[p.count..];
    assert forall i :: 0 <= i < |after| ==> after[i] == queue[p.count + i];
  }

  lemma EnqueueKeepsHead(queue: seq<Sdu>, skb: Bytes)
    requires OnlyHeadCut(queue)
    ensures OnlyHeadCut(queue + [Sdu(skb, FULL_SDU)])
    ensures HeadCut(queue + [Sdu(skb, FULL_SDU)]) <==> HeadCut(queue)
  {
  }

  /** The state of a run: framed PDUs, the next serial number, and a queue
      whose head is a remainder exactly when the last PDU ended inside an SDU. */
  ghost predicate TxFramed(t: Tx) {
    && Framed(t.sent) && t.sn == |t.sent| % SN_MODULUS && OnlyHeadCut(t.queue)
    && (HeadCut(t.queue) <==> t.sent != [] && t.sent[|t.sent| - 1].fiSecond)
  }

  lemma SegmentFraming(queue: seq<Sdu>, sn: nat, grant: nat)
    requires queue != [] && sn < SN_MODULUS && grant > 2 && OnlyHeadCut(queue)
    ensures var pdu, rest := SegmentPdu(queue, sn, grant), SegmentRest(queue, grant);
            && pdu.sn == sn && OnlyHeadCut(rest)
            && (pdu.fiFirst <==> HeadCut(queue)) && (pdu.fiSecond <==> HeadCut(rest))
  {
    RemainderIsHead(queue, PlanFor(queue, grant - 2));
  }

  lemma SnNext(n: nat)
    ensures (n % SN_MODULUS + 1) % SN_MODULUS == (n + 1) % SN_MODULUS
  {
  }

  lemma FramedExtends(t: Tx, queue: seq<Sdu>, pdu: Pdu)
    requires TxFramed(t) && pdu.sn == t.sn && OnlyHeadCut(queue)
    requires (pdu.fiFirst <==> HeadCut(t.queue)) && (pdu.fiSecond <==> HeadCut(queue))
    ensures TxFramed(Tx(queue, (t.sn + 1) % SN_MODULUS, t.sent + [pdu]))
  {
    SnNext(|t.sent|);
    var pdus := t.sent + [pdu];
    assert forall i :: 0 <= i < |t.sent| ==> pdus[i] == t.sent[i];
  }

  lemma StepIsFramed(s: Tx, c: Command)
    requires TxFramed(s)
    ensures TxFramed(Step(s, c))
  {
    match c
    case Enqueue(skb) =>
      EnqueueKeepsHead(s.queue, skb);
    case Grant(octets) =>
      if octets > 2 && s.queue != [] {
        var pdu, rest := SegmentPdu(s.queue, s.sn, octets), SegmentRest(s.queue, octets);
        SegmentFraming(s.queue, s.sn, octets);
        FramedExtends(s, rest, pdu);
      }
  }

  /** The framing chain over every run. */
  lemma {:induction false} RunIsFramed(cs: seq<Command>)
    ensures TxFramed(Run(cs))
    decreases |cs|
  {
    if cs != [] {
      RunIsFramed(cs[..|cs| - 1]);
      StepIsFramed(Run(cs[..|cs| - 1]), cs[|cs| - 1]);
    }
  }

  /** E is set exactly when the PDU carries more than one piece, and the other
      bits are what the framing chain speaks of. */
  lemma HeaderOnTheWire(queue: seq<Sdu>, sn: nat, grant: nat)
    requires queue != [] && sn < SN_MODULUS && grant > 2
    ensures var pdu := SegmentPdu(queue, sn, grant);
            UnpackHead(Print(pdu)) == FixHead(true, false, true, pdu.fiFirst, pdu.fiSecond, |pdu.pieces| > 1, sn)
  {
    PrintedHead(SegmentPdu(queue, sn, grant));
  }

  /** The same for the two octets: the bits of FI say whether the PDU begins
      inside an SDU and whether it leaves one cut. */
  lemma HeaderOctets(queue: seq<Sdu>, sn: nat, grant: nat, pdu: Pdu, rest: seq<Sdu>)
    requires queue != [] && sn < SN_MODULUS && grant > 2 && OnlyHeadCut(queue)
    requires pdu == SegmentPdu(queue, sn, grant) && rest == SegmentRest(queue, grant)
    ensures |Print(pdu)| >= 2 && Print(pdu)[1] == sn % 256
    ensures Print(pdu)[0] == 0xA0 + (if HeadCut(queue) then 0x10 else 0) + (if HeadCut(rest) then 8 else 0)
                             + (if |pdu.pieces| > 1 then 4 else 0) + sn / 256
  {
    hide Print, SegmentPdu, SegmentRest, HeadCut;
    PrintedOctets(pdu);
    SegmentFraming(queue, sn, grant);
  }

  // ----- the transmitter -----

  /** The octets of the first `n` entries. */
  function Gathered(queue: seq<Sdu>, n: nat): Bytes
    requires n <= |queue|
  {
    Flatten(Packets(queue[..n]))
  }

  lemma GatherNone(queue: seq<Sdu>)
    ensures Gathered(queue, 0) == []
  {
    assert Packets(queue[..0]) == [];
  }

  lemma GatherStep(queue: seq<Sdu>, i: nat)
    requires i < |queue|
    ensures Gathered(queue, i + 1) == Gathered(queue, i) + queue[i].pkt
  {
    var pkt := queue[i].pkt;
    FlattenConcat(Packets(queue[..i]), [pkt]);
    assert Packets(queue[..i + 1]) == Packets(queue[..i]) + [pkt];
    FlattenOne(pkt);
  }

  lemma GatherDone(queue: seq<Sdu>, count: nat, lastLen: nat)
    requires PlanOk(queue, Plan(count, lastLen))
    ensures Flatten(Pieces(queue, Plan(count, lastLen)))
         == Gathered(queue, count - 1) + queue[count - 1].pkt[..lastLen]
  {
    var last := queue[count - 1].pkt[..lastLen];
    FlattenConcat(Packets(queue[..count - 1]), [last]);
    FlattenOne(last);
  }

  /** `0x8000 | w` and `w & 0x7fff` on sixteen-bit words. */
  function SetE(w: nat): nat
    requires w < 0x10000
  {
    if w >= 0x8000 then w else 0x8000 + w
  }

  lemma LowBits(len: nat)
    ensures SetE(len % 0x10000) == ExtWord(len, false)
  {
    var k, r := len / 0x10000, len % 0x10000;
    assert len == 0x8000 * (2 * k) + r;
    FullTurns(2 * k, r);
    FullTurns(if r < 0x8000 then 0 else 1, r % 0x8000);
  }

  lemma FullTurns(k: nat, r: nat)
    ensures (0x8000 * k + r) % 0x8000 == r % 0x8000
  {
  }

  function PackWords(ws: seq<nat>): Bytes
    requires forall i :: 0 <= i < |ws| ==> ws[i] < 0x10000
  {
    if ws == [] then [] else PackWord(ws[0]) + PackWords(ws[1..])
  }

  /** Setting E everywhere and clearing it in the last word gives the chain. */
  lemma {:induction false} WordsAreChain(ws: seq<nat>, lis: seq<nat>)
    requires |ws| == |lis|
    requires forall i :: 0 <= i < |ws| ==> ws[i] < 0x10000 && ws[i] == ExtWord(lis[i], i == |ws| - 1)
    ensures PackWords(ws) == ExtChain(lis)
  {
    if ws != [] {
      WordsAreChain(ws[1..], lis[1..]);
    }
  }

  /** An entry of the list of transmitted PDUs. */
  datatype Transmitted = Transmitted(pkt: Bytes, headLen: nat, sn: nat)

  /** The plan for the whole queue when its first `i` entries are settled. */
  function PlanFrom(queue: seq<Sdu>, i: nat, size: nat): Plan
    requires i < |queue|
  {
    var p := PlanFor(queue[i..], size);
    Plan(i + p.count, p.lastLen)
  }

  lemma PlanFromZero(queue: seq<Sdu>, size: nat)
    requires queue != []
    ensures PlanFrom(queue, 0, size) == PlanFor(queue, size)
  {
    assert queue[0..] == queue;
  }

  lemma PlanFromStep(queue: seq<Sdu>, i: nat, size: nat)
    requires i < |queue|
    ensures var len := |queue[i].pkt|;
            PlanFrom(queue, i, size)
            == if size <= len then Plan(i + 1, size)
               else if size > len + 2 && i + 1 < |queue| then PlanFrom(queue, i + 1, size - len - 2)
               else Plan(i + 1, len)
  {
    assert queue[i..][1..] == queue[i + 1..];
  }

  /** The octets of a PDU in terms of the queue it is made from. */
  lemma PrintFor(queue: seq<Sdu>, sn: nat, grant: nat, p: Plan, head: FixHead)
    requires queue != [] && sn < SN_MODULUS && grant > 2 && p == PlanFor(queue, grant - 2)
    requires head == FixHead(true, false, true, queue[0].status != FULL_SDU, p.lastLen < |queue[p.count - 1].pkt|,
                             p.count > 1, sn)
    ensures Print(SegmentPdu(queue, sn, grant))
         == PackHead(head) + ExtChain(Lengths(Packets(queue[..p.count - 1]))) + Flatten(Pieces(queue, p))
    ensures |SegmentPdu(queue, sn, grant).pieces| == p.count && SegmentRest(queue, grant) == Remaining(queue, p)
  {
    hide Print, PackHead, ExtChain, Lengths, Flatten, Remaining, PlanFor, Packets;
    var whole := Packets(queue[..p.count - 1]);
    assert Pieces(queue, p)[..p.count - 1] == whole;
    PrintedFrom(SegmentPdu(queue, sn, grant), whole, head);
  }

  lemma PrintedFrom(p: Pdu, whole: seq<Bytes>, head: FixHead)
    requires Printable(p) && p.pieces[..|p.pieces| - 1] == whole
    requires head == FixHead(true, false, true, p.fiFirst, p.fiSecond, |p.pieces| > 1, p.sn)
    ensures Print(p) == PackHead(head) + ExtChain(Lengths(whole)) + Flatten(p.pieces)
  {
  }

  lemma NoChain(queue: seq<Sdu>, head: FixHead)
    requires head.sn < SN_MODULUS
    ensures Lengths(Packets(queue[..0])) == []
    ensures PackHead(head) + ExtChain([]) == PackHead(head)
  {
    assert Packets(queue[..0]) == [];
  }

  class AmTransmitter {
    var SN: nat
    var amSduBuffer: seq<Sdu>
    var amSduBufferNum: nat
    var amSduBufferSize: int
    var amTransmittedBuffer: seq<Transmitted>
    var amTransmittedBufferSize: int
    var amTransmittedBufferNum: int
    ghost var sent: seq<Pdu>           // the PDUs made so far

    ghost predicate Valid()
      reads this
    {
      SN < SN_MODULUS && amSduBufferNum == |amSduBuffer| && amSduBufferSize == ByteSum(amSduBuffer)
    }

    /** The transmitter as the value that runs are about. */
    ghost function Value(): Tx
      reads this
    {
      Tx(amSduBuffer, SN, sent)
    }

    constructor ()
      ensures Valid() && SN == 0 && amSduBuffer == [] && amTransmittedBuffer == []
      ensures amTransmittedBufferNum == 0 && amTransmittedBufferSize == 0 && Value() == FRESH
    {
      sent := [];
      SN, amSduBuffer, amSduBufferNum, amSduBufferSize := 0, [], 0, 0;
      amTransmittedBuffer, amTransmittedBufferSize, amTransmittedBufferNum := [], 0, 0;
    }

    method EnqueueSdu(skb: Bytes)
      requires Valid()
      modifies this`amSduBuffer, this`amSduBufferNum, this`amSduBufferSize
      ensures Valid()
      ensures amSduBuffer == old(amSduBuffer) + [Sdu(skb, FULL_SDU)]
      ensures amSduBufferNum == old(amSduBufferNum) + 1
      ensures amSduBufferSize == old(amSduBufferSize) + |skb|
      ensures Value() == Step(old(Value()), Enqueue(skb))
    {
      ByteSumConcat(amSduBuffer, [Sdu(skb, FULL_SDU)]);
      amSduBuffer := amSduBuffer + [Sdu(skb, FULL_SDU)];
      amSduBufferSize := amSduBufferSize + |skb|;
      amSduBufferNum := amSduBufferNum + 1;
    }

    /** The first walk over the queue: it settles the header bits, how many
        entries are used and how much of the last one. */
    method Measure(sizeFromMac: nat)
      returns (count: nat, lastCopyLen: nat, length: nat, fiFirst: bool, fiSecond: bool, e: bool)
      requires Valid() && amSduBuffer != [] && sizeFromMac > 2
      requires LengthFits(amSduBuffer, sizeFromMac)
      ensures Plan(count, lastCopyLen) == PlanFor(amSduBuffer, sizeFromMac - 2)
      ensures length == |Flatten(Pieces(amSduBuffer, Plan(count, lastCopyLen)))|
      ensures fiFirst <==> amSduBuffer[0].status != FULL_SDU
      ensures fiSecond <==> lastCopyLen < |amSduBuffer[count - 1].pkt|
      ensures e <==> count > 1
      ensures length + 2 * count <= 0xffff
    {
      var queue := amSduBuffer;
      var size: nat := sizeFromMac - 2;
      var num: int := amSduBufferNum;
      var flag := true;
      count, lastCopyLen, length := 0, 0, 0;
      fiFirst, fiSecond, e := false, false, false;
      ghost var plan := PlanFor(queue, size);
      hide Flatten, Gathered, Packets, Pieces, PlanFor, PlanFrom, ByteSum;
      PlanFromZero(queue, size);
      GatherNone(queue);
      while true
        invariant count < |queue| && num == |queue| - count && amSduBufferNum == |queue|
        invariant plan == PlanFrom(queue, count, size)
        invariant length == |Gathered(queue, count)|
        invariant flag <==> count == 0
        invariant !flag ==> e && (fiFirst <==> queue[0].status != FULL_SDU)
        decreases num
      {
        var entry := queue[count];
        var len := |entry.pkt|;
        var full := entry.status == FULL_SDU;
        PlanFromStep(queue, count, size);
        GatherStep(queue, count);
        count, num := count + 1, num - 1;
        if size < len {
          if flag {
            fiFirst, e, flag := !full, false, false;
          }
          fiSecond := true;
          lastCopyLen := size;
          length := length + size;
          break;
        } else if size == len {
          if flag {
            fiFirst, e, flag := !full, false, false;
          }
          fiSecond := false;
          lastCopyLen := size;
          length := length + size;
          break;
        } else if size > len + 2 {
          size := size - len - 2;
          length := length + len;
          if flag {
            fiFirst, e, flag := !full, true, false;
          }
          if num == 0 {
            if amSduBufferNum == 1 {
              e := false;
            }
            fiSecond := false;
            lastCopyLen := len;
            break;
          }
        } else {
          if flag {
            fiFirst, e, flag := !full, false, false;
          }
          fiSecond := false;
          lastCopyLen := len;
          length := length + len;
          break;
        }
      }
      GatherDone(queue, count, lastCopyLen);
      PlanIsShort(queue, sizeFromMac);
    }

    /** The second walk when one entry is used. */
    method TakeOne(lastCopyLen: nat, head: FixHead) returns (skb: Bytes)
      requires Valid() && amSduBuffer != [] && PlanOk(amSduBuffer, Plan(1, lastCopyLen)) && head.sn < SN_MODULUS
      modifies this`amSduBuffer, this`amSduBufferNum, this`amSduBufferSize
      ensures Valid()
      ensures skb == PackHead(head) + old(amSduBuffer)[0].pkt[..lastCopyLen]
      ensures amSduBuffer == Remaining(old(amSduBuffer), Plan(1, lastCopyLen))
    {
      var tbuff := amSduBuffer[0];
      skb := PackHead(head) + tbuff.pkt[..lastCopyLen];
      RemoveOrCut(lastCopyLen);
    }

    /** Delete the head of the queue when it was copied to its end; otherwise
        pull the copied octets off it. */
    method RemoveOrCut(lastCopyLen: nat)
      requires Valid() && amSduBuffer != [] && lastCopyLen <= |amSduBuffer[0].pkt|
      modifies this`amSduBuffer, this`amSduBufferNum, this`amSduBufferSize
      ensures Valid()
      ensures amSduBuffer == Remaining(old(amSduBuffer), Plan(1, lastCopyLen))
    {
      var tbuff := amSduBuffer[0];
      if lastCopyLen == |tbuff.pkt| {
        amSduBuffer := amSduBuffer[1..];
        amSduBufferNum := amSduBufferNum - 1;
        amSduBufferSize := amSduBufferSize - |tbuff.pkt|;
      } else {
        amSduBuffer := [Sdu(tbuff.pkt[lastCopyLen..], LAST_SEGMENT)] + amSduBuffer[1..];
        amSduBufferSize := amSduBufferSize - lastCopyLen;
      }
    }

    /** Copy the first `n` entries, delete them, and record an extension header for each. */
    method TakeWhole(n: nat) returns (headExt: array<nat>, data: Bytes)
      requires Valid() && n < |amSduBuffer|
      modifies this`amSduBuffer, this`amSduBufferNum, this`amSduBufferSize
      ensures Valid() && fresh(headExt) && headExt.Length == n
      ensures amSduBuffer == old(amSduBuffer)[n..]
      ensures data == Gathered(old(amSduBuffer), n)
      ensures forall k :: 0 <= k < n ==> headExt[k] == ExtWord(|old(amSduBuffer)[k].pkt|, false)
    {
      ghost var queue := amSduBuffer;
      headExt := new nat[n](_ => 0);
      data := [];
      var i := 0;
      hide Gathered;
      GatherNone(queue);
      while i < n
        invariant i <= n
        invariant Valid() && amSduBuffer == queue[i..]
        invariant data == Gathered(queue, i)
        invariant forall k :: 0 <= k < i ==> headExt[k] == ExtWord(|queue[k].pkt|, false)
      {
        var entry := amSduBuffer[0];
        headExt[i] := SetE(|entry.pkt| % 0x10000);
        LowBits(|entry.pkt|);
        GatherStep(queue, i);
        data := data + entry.pkt;
        amSduBuffer := amSduBuffer[1..];
        amSduBufferNum := amSduBufferNum - 1;
        amSduBufferSize := amSduBufferSize - |entry.pkt|;
        i := i + 1;
      }
    }

    /** The second walk when several entries are used: the last one is treated
        like a single one, and its predecessor's extension header ends the chain. */
    method TakeSeveral(count: nat, lastCopyLen: nat, head: FixHead) returns (skb: Bytes)
      requires Valid() && PlanOk(amSduBuffer, Plan(count, lastCopyLen)) && count > 1 && head.sn < SN_MODULUS
      modifies this`amSduBuffer, this`amSduBufferNum, this`amSduBufferSize
      ensures Valid()
      ensures skb == PackHead(head) + ExtChain(Lengths(Packets(old(amSduBuffer)[..count - 1])))
                     + Flatten(Pieces(old(amSduBuffer), Plan(count, lastCopyLen)))
      ensures amSduBuffer == Remaining(old(amSduBuffer), Plan(count, lastCopyLen))
    {
      ghost var queue := amSduBuffer;
      ghost var lis := Lengths(Packets(queue[..count - 1]));
      var headExt, data := TakeWhole(count - 1);
      data := data + amSduBuffer[0].pkt[..lastCopyLen];
      RemoveOrCut(lastCopyLen);
      headExt[count - 2] := headExt[count - 2] % 0x8000;
      WordsAreChain(headExt[..], lis);
      GatherDone(queue, count, lastCopyLen);
      skb := PackHead(head) + PackWords(headExt[..]) + data;
    }

    /** The second walk over the queue: it makes the packet and takes what it
        carries off the queue. */
    method TakePlanned(count: nat, lastCopyLen: nat, head: FixHead) returns (skb: Bytes)
      requires Valid() && PlanOk(amSduBuffer, Plan(count, lastCopyLen)) && head.sn < SN_MODULUS
      modifies this`amSduBuffer, this`amSduBufferNum, this`amSduBufferSize
      ensures Valid()
      ensures skb == PackHead(head) + ExtChain(Lengths(Packets(old(amSduBuffer)[..count - 1])))
                     + Flatten(Pieces(old(amSduBuffer), Plan(count, lastCopyLen)))
      ensures amSduBuffer == Remaining(old(amSduBuffer), Plan(count, lastCopyLen))
    {
      if count == 1 {
        SinglePiece(amSduBuffer, Plan(1, lastCopyLen));
        NoChain(amSduBuffer, head);
        skb := TakeOne(lastCopyLen, head);
      } else {
        skb := TakeSeveral(count, lastCopyLen, head);
      }
    }

    /** One grant of the MAC. On an empty queue, for which the caller does not ask,
        an empty packet is recorded and counted. */
    method Segment(sizeFromMac: nat) returns (r: Option<Bytes>)
      requires Valid() && LengthFits(amSduBuffer, sizeFromMac)
      modifies this
      ensures Valid()
      ensures sizeFromMac <= 2 ==> r == None && unchanged(this)
      ensures sizeFromMac > 2 && old(amSduBuffer) == [] ==>
                && r == Some([]) && amSduBuffer == [] && SN == (old(SN) + 1) % SN_MODULUS
                && amTransmittedBuffer == old(amTransmittedBuffer) + [Transmitted([], 0, old(SN))]
                && amTransmittedBufferNum == old(amTransmittedBufferNum) + 1
                && amTransmittedBufferSize == old(amTransmittedBufferSize)
      ensures sizeFromMac > 2 && old(amSduBuffer) != [] ==>
                var pdu := SegmentPdu(old(amSduBuffer), old(SN), sizeFromMac);
                && r == Some(Print(pdu))
                && amSduBuffer == SegmentRest(old(amSduBuffer), sizeFromMac)
                && SN == (old(SN) + 1) % SN_MODULUS
                && amTransmittedBuffer
                   == old(amTransmittedBuffer) + [Transmitted(Print(pdu), 2 * |pdu.pieces|, old(SN))]
                && amTransmittedBufferNum == old(amTransmittedBufferNum) + 1
                && amTransmittedBufferSize == old(amTransmittedBufferSize) + |Print(pdu)|
                && sent == old(sent) + [pdu]
      ensures sizeFromMac <= 2 || old(amSduBuffer) != [] ==> Value() == Step(old(Value()), Grant(sizeFromMac))
    {
      hide Print, Printable, SegmentPdu, SegmentRest, ByteSum, LengthFits;
      if sizeFromMac <= 2 {
        return None;
      }
      var skb: Bytes := [];
      if amSduBuffer != [] {
        skb := SendPdu(sizeFromMac);
      } else {
        RecordSent(skb, 0);
      }
      r := Some(skb);
    }

    /** A PDU is made, and recorded. */
    method SendPdu(sizeFromMac: nat) returns (skb: Bytes)
      requires Valid() && amSduBuffer != [] && sizeFromMac > 2
      requires LengthFits(amSduBuffer, sizeFromMac)
      modifies this
      ensures Valid() && skb == Print(SegmentPdu(old(amSduBuffer), old(SN), sizeFromMac))
      ensures amSduBuffer == SegmentRest(old(amSduBuffer), sizeFromMac)
      ensures SN == (old(SN) + 1) % SN_MODULUS
      ensures amTransmittedBuffer
           == old(amTransmittedBuffer)
              + [Transmitted(skb, 2 * |SegmentPdu(old(amSduBuffer), old(SN), sizeFromMac).pieces|, old(SN))]
      ensures amTransmittedBufferNum == old(amTransmittedBufferNum) + 1
      ensures amTransmittedBufferSize == old(amTransmittedBufferSize) + |skb|
      ensures sent == old(sent) + [SegmentPdu(old(amSduBuffer), old(SN), sizeFromMac)]
    {
      hide Print, Printable, SegmentPdu, SegmentRest, ByteSum, LengthFits;
      sent := sent + [SegmentPdu(amSduBuffer, SN, sizeFromMac)];
      var count;
      skb, count := MakePdu(sizeFromMac);
      RecordSent(skb, count);
    }

    /** Keep the PDU for retransmission and count up the serial number. */
    method RecordSent(skb: Bytes, count: nat)
      modifies this`amTransmittedBuffer, this`amTransmittedBufferSize, this`amTransmittedBufferNum, this`SN
      ensures amTransmittedBuffer == old(amTransmittedBuffer) + [Transmitted(skb, 2 * count, old(SN))]
      ensures amTransmittedBufferNum == old(amTransmittedBufferNum) + 1
      ensures amTransmittedBufferSize == old(amTransmittedBufferSize) + |skb|
      ensures SN == (old(SN) + 1) % SN_MODULUS
    {
      amTransmittedBuffer := amTransmittedBuffer + [Transmitted(skb, 2 * count, SN)];
      amTransmittedBufferSize := amTransmittedBufferSize + |skb|;
      amTransmittedBufferNum := amTransmittedBufferNum + 1;
      SN := (SN + 1) % SN_MODULUS;
    }

    /** Both walks over the queue. */
    method MakePdu(sizeFromMac: nat) returns (skb: Bytes, count: nat)
      requires Valid() && amSduBuffer != [] && sizeFromMac > 2
      requires LengthFits(amSduBuffer, sizeFromMac)
      modifies this`amSduBuffer, this`amSduBufferNum, this`amSduBufferSize
      ensures Valid()
      ensures skb == Print(SegmentPdu(old(amSduBuffer), SN, sizeFromMac))
      ensures count == |SegmentPdu(old(amSduBuffer), SN, sizeFromMac).pieces|
      ensures amSduBuffer == SegmentRest(old(amSduBuffer), sizeFromMac)
    {
      var lastCopyLen, length, fiFirst, fiSecond, e;
      count, lastCopyLen, length, fiFirst, fiSecond, e := Measure(sizeFromMac);
      hide Flatten, Packets, Pieces, PlanFor, Lengths, ExtChain, PackHead, Print, Printable, ByteSum, Remaining,
           LengthFits, SegmentPdu, SegmentRest;
      var fixhead := FixHead(true, false, true, fiFirst, fiSecond, e, SN);
      PrintFor(amSduBuffer, SN, sizeFromMac, Plan(count, lastCopyLen), fixhead);
      skb := TakePlanned(count, lastCopyLen, fixhead);
    }
  }
}
