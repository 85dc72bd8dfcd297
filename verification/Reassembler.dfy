/** The receiving side of one PDU: its pieces are completed with what an earlier
    PDU left over and handed up, and an unfinished last piece is kept. The same
    steps serve the AM and the ten-bit UM entity. */
module Reassembler {
  import opened Wire
  import opened Wrappers

  /** A received beginning of an SDU and the SN of the PDU that ended inside it;
      NoLeft is the code's SN_Left == -1. */
  datatype PduLeft = NoLeft | Left(sn: nat, sdu: Bytes)

  datatype Out = Out(left: PduLeft, sdus: seq<Bytes>)

  predicate Joins(left: PduLeft, sn: nat) { left.Left? && (left.sn + 1) % SN_MODULUS == sn }

  /** The pieces once the first has been completed, or dropped when it continues
      an SDU whose beginning is not at hand. */
  function Completed(left: PduLeft, p: Pdu): seq<Bytes>
    requires |p.pieces| >= 1
  {
    CompletedFirst(left, p.fiFirst, p.sn, p.pieces[0]) + p.pieces[1..]
  }

  function CompletedFirst(left: PduLeft, fiFirst: bool, sn: nat, piece: Bytes): seq<Bytes> {
    if !fiFirst then [piece] else if Joins(left, sn) then [left.sdu + piece] else []
  }

  function Reassemble(left: PduLeft, p: Pdu): Out
    requires |p.pieces| >= 1
  {
    var pieces := Completed(left, p);
    if pieces == [] then Out(NoLeft, [])
    else if p.fiSecond then Out(Left(p.sn, pieces[|pieces| - 1]), pieces[..|pieces| - 1])
    else Out(NoLeft, pieces)
  }

  /** A left-over is joined exactly when the number of PDUs missing in between is
      a multiple of 1024. */
  lemma JoinsOnlyNext(m: nat, n: nat, sdu: Bytes)
    requires m < n
    ensures Joins(Left(m % SN_MODULUS, sdu), n % SN_MODULUS) <==> (n - m - 1) % SN_MODULUS == 0
  {
    SnBehind(m);
    SameSlot(m + 1, n);
  }

  lemma SnBehind(m: nat)
    ensures (m % SN_MODULUS + 1) % SN_MODULUS == (m + 1) % SN_MODULUS
  {
  }

  lemma SameSlot(a: nat, b: nat)
    requires a <= b
    ensures a % SN_MODULUS == b % SN_MODULUS <==> (b - a) % SN_MODULUS == 0
  {
    var d := b - a;
    assert b == SN_MODULUS * (a / SN_MODULUS + d / SN_MODULUS) + (a % SN_MODULUS + d % SN_MODULUS);
  }

  /** The condition is sharp: behind any positive multiple of 1024 missing PDUs a
      stale left-over is joined. */
  lemma StaleJoin(m: nat, k: nat, sdu: Bytes, p: Pdu)
    requires k > 0 && p.pieces != [] && p.fiFirst && !p.fiSecond && |p.pieces| == 1
    requires p.sn == (m + k * SN_MODULUS + 1) % SN_MODULUS
    ensures Reassemble(Left(m % SN_MODULUS, sdu), p).sdus == [sdu + p.pieces[0]]
  {
    JoinsOnlyNext(m, m + k * SN_MODULUS + 1, sdu);
    assert Completed(Left(m % SN_MODULUS, sdu), p) == [sdu + p.pieces[0]];
  }

  /** With several pieces the first is completed or dropped, those in the
      middle are whole SDUs, and the last ends the PDU. */
  lemma SeveralPieces(left: PduLeft, p: Pdu)
    requires |p.pieces| > 1
    ensures var n := |p.pieces| - 1;
            var whole := CompletedFirst(left, p.fiFirst, p.sn, p.pieces[0]) + p.pieces[1..n];
            var out := Reassemble(left, p);
            && out.left == (if p.fiSecond then Left(p.sn, p.pieces[n]) else NoLeft)
            && out.sdus == whole + (if p.fiSecond then [] else [p.pieces[n]])
  {
    var n := |p.pieces| - 1;
    var whole := CompletedFirst(left, p.fiFirst, p.sn, p.pieces[0]) + p.pieces[1..n];
    assert Completed(left, p) == whole + [p.pieces[n]];
  }

  // ----- the code -----

  /** The capacity of the two arrays the extension headers are parsed into. */
  const MAX_NUM := 16

  class Packet {
    var data: Bytes

    constructor (bytes: Bytes)
      ensures data == bytes
    {
      data := bytes;
    }

    method Pull(n: nat)
      requires n <= |data|
      modifies this
      ensures data == old(data)[n..]
    {
      data := data[n..];
    }
  }

  lemma ChainHead(m: EMask, buf: Bytes)
    requires ReadChain(m, true, buf).Some?
    ensures |buf| >= 2
    ensures var w := UnpackWord(buf);
            var c, rest := ReadChain(m, true, buf).value, ReadChain(m, EField(m, w) == 1, buf[2..]);
            && w < 0x10000 && rest.Some? && c.lis == [LiField(w)] + rest.value.lis && c.rest == rest.value.rest
  {
  }

  /** Reads one extension header per call and recurses while E is set. */
  method GetAmPduhdExt(mask: EMask, e: bool, tbuff: Packet, count: nat, eBits: array<nat>, li: array<nat>)
    returns (n: nat)
    requires eBits != li && eBits.Length == li.Length == MAX_NUM
    requires var c := ReadChain(mask, e, tbuff.data); c.Some? && count + |c.value.lis| <= MAX_NUM
    modifies tbuff, eBits, li
    ensures var c := old(ReadChain(mask, e, tbuff.data)).value;
            n == count + |c.lis| && tbuff.data == c.rest && li[count..n] == c.lis
    ensures li[..count] == old(li[..count])
    decreases |tbuff.data|
  {
    n := count;
    hide ReadChain, EField, LiField, UnpackWord;
    if e {
      ChainHead(mask, tbuff.data);
      ghost var chain := ReadChain(mask, e, tbuff.data).value;
      var b := UnpackWord(tbuff.data);
      tbuff.Pull(2);
      eBits[count] := EField(mask, b);
      li[count] := LiField(b);
      ghost var first := li[..count + 1];
      n := GetAmPduhdExt(mask, eBits[count] == 1, tbuff, count + 1, eBits, li);
      assert li[..count] == first[..count];
      assert li[count..n] == [li[count]] + li[count + 1..n];
      assert li[count] == first[count];
    } else {
      ChainEnds(mask, tbuff.data);
    }
  }

  lemma CutFirst(lis: seq<nat>, data: Bytes, pieces: seq<Bytes>)
    requires lis != [] && Cut(lis, data) == Some(pieces)
    ensures lis[0] <= |data| && pieces[0] == data[..lis[0]] && Cut(lis[1..], data[lis[0]..]) == Some(pieces[1..])
  {
    hide Flatten;
    var others := Cut(lis[1..], data[lis[0]..]).value;
    assert pieces == [data[..lis[0]]] + others;
    assert pieces[1..] == others;
  }

  class Assembler {
    var snLeft: int
    var sduLeft: Bytes
    var upper: seq<Bytes>       // what has been sent to PDCP
    var countSendToUpper: nat
    var countDropPacket: nat

    ghost predicate Valid()
      reads this
    {
      -1 <= snLeft < SN_MODULUS
    }

    ghost function LeftOver(): PduLeft
      reads this
      requires Valid()
    {
      if snLeft == -1 then NoLeft else Left(snLeft, sduLeft)
    }

    constructor ()
      ensures Valid() && LeftOver() == NoLeft && upper == []
    {
      snLeft, sduLeft, upper, countSendToUpper, countDropPacket := -1, [], [], 0, 0;
    }

    method ClearLeftPdu()
      modifies this`snLeft, this`sduLeft
      ensures Valid() && LeftOver() == NoLeft
    {
      snLeft, sduLeft := -1, [];
    }

    method SendUp(skb: Bytes)
      modifies this`upper, this`countSendToUpper
      ensures upper == old(upper) + [skb]
      ensures countSendToUpper == old(countSendToUpper) + 1
    {
      upper := upper + [skb];
      countSendToUpper := countSendToUpper + 1;
    }

    /** One AMD PDU. The chain must fit the parser's arrays and a completed SDU
        the sixteen-bit length it is allocated with. */
    method DeliverPdu(mask: EMask, tbuff: Packet)
      requires Valid()
      requires Parse(mask, tbuff.data).Some?
      requires |Parse(mask, tbuff.data).value.pieces| <= MAX_NUM + 1
      requires (if snLeft == -1 then 0 else |sduLeft|) + |tbuff.data| <= 0xffff
      modifies this, tbuff
      ensures Valid()
      ensures var out := Reassemble(old(LeftOver()), old(Parse(mask, tbuff.data)).value);
              LeftOver() == out.left && upper == old(upper) + out.sdus
    {
      ghost var pdu := Parse(mask, tbuff.data).value;
      var h := UnpackHead(tbuff.data);
      tbuff.Pull(2);
      if !h.e {
        assert pdu == Pdu(h.fiFirst, h.fiSecond, h.sn, [tbuff.data]);
        if h.fiFirst {
          DeliverOnlyContinuing(h, tbuff);
        } else {
          ClearLeftPdu();
          SendOrKeep(h, tbuff.data);
        }
      } else {
        DeliverSeveral(mask, h, tbuff, pdu.pieces);
      }
    }

    /** A PDU with extension headers. */
    method DeliverSeveral(mask: EMask, h: FixHead, tbuff: Packet, ghost pieces: seq<Bytes>)
      requires Valid() && h.sn < SN_MODULUS
      requires var c := ReadChain(mask, true, tbuff.data);
               c.Some? && Cut(c.value.lis, c.value.rest) == Some(pieces)
      requires |pieces| <= MAX_NUM + 1
      modifies this, tbuff
      ensures Valid()
      ensures var out := Reassemble(old(LeftOver()), Pdu(h.fiFirst, h.fiSecond, h.sn, pieces));
              LeftOver() == out.left && upper == old(upper) + out.sdus
    {
      hide Reassemble, CompletedFirst, ReadChain, Cut, Flatten;
      SeveralPieces(LeftOver(), Pdu(h.fiFirst, h.fiSecond, h.sn, pieces));
      var eBits, li := new nat[MAX_NUM](_ => 0), new nat[MAX_NUM](_ => 0);
      var count := GetAmPduhdExt(mask, true, tbuff, 0, eBits, li);
      DeliverPieces(h, tbuff, li, count, pieces);
    }

    /** The pieces, once the extension headers have been read into `li`. */
    method DeliverPieces(h: FixHead, tbuff: Packet, li: array<nat>, count: nat, ghost pieces: seq<Bytes>)
      requires Valid() && h.sn < SN_MODULUS && 1 <= count <= li.Length
      requires Cut(li[0..count], tbuff.data) == Some(pieces)
      modifies this, tbuff
      ensures Valid()
      ensures LeftOver() == if h.fiSecond then Left(h.sn, pieces[count]) else NoLeft
      ensures upper == old(upper)
                       + (CompletedFirst(old(LeftOver()), h.fiFirst, h.sn, pieces[0]) + pieces[1..count]
                          + (if h.fiSecond then [] else [pieces[count]]))
    {
      hide CompletedFirst, Cut;
      ghost var before := upper;
      ghost var first := CompletedFirst(LeftOver(), h.fiFirst, h.sn, pieces[0]);
      CutFirst(li[0..count], tbuff.data, pieces);
      assert li[0..count][0] == li[0] && li[0..count][1..] == li[1..count];
      DeliverFirst(h, tbuff, li[0]);
      DeliverMiddle(tbuff, li, count, pieces);
      SendOrKeep(h, tbuff.data);
      ghost var last := if h.fiSecond then [] else [pieces[count]];
      assert before + first + pieces[1..count] + last == before + (first + pieces[1..count] + last);
      tbuff.Pull(|tbuff.data|);
    }

    /** The last piece of a PDU whose beginning is at hand. */
    method SendOrKeep(h: FixHead, piece: Bytes)
      requires Valid() && LeftOver() == NoLeft && h.sn < SN_MODULUS
      modifies this
      ensures Valid()
      ensures LeftOver() == if h.fiSecond then Left(h.sn, piece) else NoLeft
      ensures upper == old(upper) + (if h.fiSecond then [] else [piece])
    {
      if !h.fiSecond {
        SendUp(piece);
      } else {
        snLeft, sduLeft := h.sn, piece;
      }
    }

    /** The first of several pieces: completed and sent up, or dropped. */
    method DeliverFirst(h: FixHead, tbuff: Packet, length: nat)
      requires Valid() && h.sn < SN_MODULUS && length <= |tbuff.data|
      modifies this, tbuff
      ensures Valid() && LeftOver() == NoLeft && tbuff.data == old(tbuff.data)[length..]
      ensures upper == old(upper) + CompletedFirst(old(LeftOver()), h.fiFirst, h.sn, old(tbuff.data)[..length])
    {
      if h.fiFirst {
        if snLeft != -1 && (snLeft + 1) % SN_MODULUS == h.sn {
          SendUp(sduLeft + tbuff.data[..length]);
          tbuff.Pull(length);
          ClearLeftPdu();
        } else {
          countDropPacket := countDropPacket + 1;
          ClearLeftPdu();
          tbuff.Pull(length);
        }
      } else {
        ClearLeftPdu();
        SendUp(tbuff.data[..length]);
        tbuff.Pull(length);
      }
    }

    /** A PDU without extension headers that continues an SDU. */
    method DeliverOnlyContinuing(h: FixHead, tbuff: Packet)
      requires Valid() && h.fiFirst && h.sn < SN_MODULUS
      modifies this
      ensures Valid()
      ensures var out := Reassemble(old(LeftOver()), Pdu(true, h.fiSecond, h.sn, [tbuff.data]));
              LeftOver() == out.left && upper == old(upper) + out.sdus
    {
      if snLeft != -1 && (snLeft + 1) % SN_MODULUS == h.sn {
        var newSkb := sduLeft + tbuff.data;
        ClearLeftPdu();
        SendOrKeep(h, newSkb);
      } else {
        countDropPacket := countDropPacket + 1;
        ClearLeftPdu();
      }
    }

    /** The pieces between the first and the last are whole SDUs. */
    method DeliverMiddle(tbuff: Packet, li: array<nat>, count: nat, ghost pieces: seq<Bytes>)
      requires 1 <= count <= li.Length && |pieces| == count + 1
      requires Cut(li[1..count], tbuff.data) == Some(pieces[1..])
      modifies this`upper, this`countSendToUpper, tbuff
      ensures upper == old(upper) + pieces[1..count]
      ensures tbuff.data == pieces[count]
    {
      ghost var before := upper;
      var j := 1;
      while j < count
        invariant 1 <= j <= count
        invariant Cut(li[j..count], tbuff.data) == Some(pieces[j..])
        invariant upper == before + pieces[1..j]
      {
        var length := li[j];
        assert li[j..count][0] == length && li[j..count][1..] == li[j + 1..count];
        SendUp(tbuff.data[..length]);
        tbuff.Pull(length);
        j := j + 1;
      }
    }
  }
}
