/** Concrete runs in which the two literal tests go wrong, outside the
    conditions under which the other modules show them right. */
module Misreadings {
  import opened Wire
  import opened Reassembler
  import opened ReceiveWindow
  import opened EndToEnd
  import opened Wrappers

  function Single(sn: nat, sdu: Bytes): Pdu { Pdu(false, false, sn, [sdu]) }

  /** The chain of three pieces of one octet, read with the mask 0x1000. */
  lemma LiteralChain(a: byte, b: byte, c: byte)
    ensures var pdu := Pdu(false, false, 0, [[a], [b], [c]]);
            Printable(pdu) && ReadChain(Literal, true, Print(pdu)[2..]) == Some(Chain([1], [1, 0, a, b, c]))
  {
    var pieces: seq<Bytes> := [[a], [b], [c]];
    var lis := Lengths(pieces[..2]);
    LisOfThree(a, b, c);
    hide Print, ReadChain, UnpackHead, Flatten, Lengths, Narrowed, ExtChain;
    PrintedHead(Pdu(false, false, 0, pieces));
    ChainInversion(Literal, lis, Flatten(pieces));
    FlattenThree(a, b, c);
    assert lis[1..] == [1] && lis[..1] == [1];
    ChainOfOne();
    assert ExtChain(lis[1..]) + Flatten(pieces) == [1, 0, a, b, c];
  }

  lemma LisOfThree(a: byte, b: byte, c: byte)
    ensures var pieces: seq<Bytes> := [[a], [b], [c]];
            Lengths(pieces[..2]) == [1, 1] && Narrowed([1, 1]) == [1, 1]
  {
  }

  lemma ChainOfOne()
    ensures ExtChain([1]) == [1, 0]
  {
    assert [1][1..] == [];
    assert ExtChain([1]) == PackWord(1) + ExtChain([]);
  }

  lemma FlattenThree(a: byte, b: byte, c: byte)
    ensures Flatten([[a], [b], [c]]) == [a, b, c]
  {
    var pieces: seq<Bytes> := [[a], [b], [c]];
    assert pieces[1..] == [[b], [c]] && pieces[1..][1..] == [[c]];
    FlattenOne([c]);
  }

  lemma CutOne(data: Bytes)
    requires |data| >= 1
    ensures Cut([1], data) == Some([data[..1], data[1..]])
  {
    var one: seq<nat> := [1];
    assert one[1..] == [] && Cut([], data[1..]) == Some([data[1..]]);
    assert [data[..1]] + [data[1..]] == [data[..1], data[1..]];
  }

  /** Three SDUs in one PDU: with the mask 0x1000 the second extension header is
      taken for data. */
  lemma LiteralMaskFails(a: byte, b: byte, c: byte)
    ensures var pdu := Pdu(false, false, 0, [[a], [b], [c]]);
            && Printable(pdu) && Parse(Literal, Print(pdu)).Some?
            && Reassemble(NoLeft, Parse(Literal, Print(pdu)).value).sdus == [[1], [0, a, b, c]]
  {
    hide ReadChain, Cut, Print, Flatten, UnpackHead;
    var pdu := Pdu(false, false, 0, [[a], [b], [c]]);
    var data: Bytes := [1, 0, a, b, c];
    var seen: seq<Bytes> := [[1], [0, a, b, c]];
    LiteralChain(a, b, c);
    PrintedHead(pdu);
    CutOne(data);
    assert data[..1] == [1] && data[1..] == [0, a, b, c];
    ParseFrom(Literal, Print(pdu), Chain([1], data), seen);
    assert Completed(NoLeft, Pdu(false, false, 0, seen)) == seen;
  }

  /** An SDU of 0x8000 octets followed by another one: its LI holds zero. */
  lemma LongPieceFails(m: EMask, x: Bytes)
    ensures var pdu := Pdu(false, false, 0, [seq(0x8000, i => 0), x]);
            Printable(pdu) && Parse(m, Print(pdu)) != Some(pdu)
  {
    var pdu := Pdu(false, false, 0, [seq(0x8000, i => 0), x]);
    assert |pdu.pieces[0]| > MAX_LI;
    ParseInvertsPrint(m, pdu);
  }

  /** Only slot 511 is occupied and VR(H) is 512. */
  function AfterLate(late: Bytes): Rx { InitialRx().(window := EmptyWindow()[511 := Some(late)], vrH := 512) }

  /** PDU 511, at the upper edge of the window, arrives first: VR(H) becomes 512. */
  lemma FirstArrival(t: VrhTest, x: Bytes)
    ensures Receive(Written, t, InitialRx(), Octets(Single(511, x))) == AfterLate(Octets(Single(511, x)))
  {
    var rx, pkt := InitialRx(), Octets(Single(511, x));
    assert UnpackHead(pkt).sn == 511 && Accepted(rx, pkt);
    var w: Window := rx.window[511 := Some(pkt)];
    assert Stretch(w, 0, SN_MODULUS) == 0;
  }

  lemma SingleDelivers(sn: nat, sdu: Bytes)
    requires sn < SN_MODULUS
    ensures DeliverSlot(Written, NoLeft, Octets(Single(sn, sdu))) == Out(NoLeft, [sdu])
  {
    ParseInvertsPrint(Written, Single(sn, sdu));
    assert Completed(NoLeft, Single(sn, sdu)) == [sdu];
  }

  lemma StretchOne(w: Window)
    requires w[0].Some? && w[1].None?
    ensures Stretch(w, 0, SN_MODULUS) == 1
  {
    assert At(0, 1) == 1;
    assert Stretch(w, 1, SN_MODULUS - 1) == 0;
  }

  /** The state with PDUs 511 and 0 stored and VR(H) still to be updated. */
  function BothStored(late: Bytes, first: Bytes): Window {
    EmptyWindow()[511 := Some(late)][0 := Some(first)]
  }

  /** From slot 512 round to slot 1 only slot 0 is occupied. */
  lemma WalkToZero(w: Window, i: nat, first: Bytes, y: Bytes)
    requires 2 <= i < SN_MODULUS && w[0] == Some(first) && forall j :: i <= j < SN_MODULUS ==> w[j].None?
    requires DeliverSlot(Written, NoLeft, first) == Out(NoLeft, [y])
    ensures Walk(Written, w, NoLeft, i, 1).out == Out(NoLeft, [y])
  {
    var d := SN_MODULUS - i;
    forall j | 0 <= j < d ensures w[At(i, j)].None? {
      assert At(i, j) == i + j;
    }
    assert At(i, d) == 0;
    WalkSkipsEmpty(Written, w, NoLeft, i, d, 1);
    assert At(0, 1) == 1;
    var w0: Window := w[0 := None];
    assert Walk(Written, w0, NoLeft, 1, 1) == WalkOut(w0, Out(NoLeft, []));
    assert Walk(Written, w, NoLeft, 0, 1).out == Out(NoLeft, [y] + []);
  }

  lemma SlotsBefore511(late: Bytes, first: Bytes)
    ensures forall j :: 0 <= j < 509 ==> BothStored(late, first)[At(2, j)].None?
    ensures var w := BothStored(late, first);
            var rest := w[511 := None];
            forall j :: 512 <= j < SN_MODULUS ==> rest[j].None?
    ensures At(2, 509) == 511 && At(511, 1) == 512 && Dist(2, 1) == 1023
  {
    forall j | 0 <= j < 509 ensures BothStored(late, first)[At(2, j)].None? {
      assert At(2, j) == 2 + j;
    }
  }

  lemma NumericWalk(late: Bytes, first: Bytes, x: Bytes, y: Bytes)
    requires DeliverSlot(Written, NoLeft, late) == Out(NoLeft, [x])
    requires DeliverSlot(Written, NoLeft, first) == Out(NoLeft, [y])
    ensures Walk(Written, BothStored(late, first), NoLeft, 2, 1).out == Out(NoLeft, [x, y])
  {
    hide At, Dist, Walk, DeliverSlot, EmptyWindow;
    var w: Window := BothStored(late, first);
    SlotsBefore511(late, first);
    WalkSkipsEmpty(Written, w, NoLeft, 2, 509, 1);
    WalkToZero(w[511 := None], 512, first, y);
    WalkOccupied(Written, w, NoLeft, 511, 1);
    assert [x] + [y] == [x, y];
  }

  lemma WalkOccupied(m: EMask, w: Window, left: PduLeft, i: nat, r: nat)
    requires i < SN_MODULUS && r < SN_MODULUS && i != r && w[i].Some?
    ensures var o := DeliverSlot(m, left, w[i].value);
            var rest := Walk(m, w[i := None], o.left, At(i, 1), r).out;
            Walk(m, w, left, i, r).out == Out(rest.left, o.sdus + rest.sdus)
  {
  }

  /** Then PDU 0 arrives. The numeric test pulls VR(H) back to 1, the modular one
      leaves it at 512. */
  lemma SecondArrival(t: VrhTest, late: Bytes, first: Bytes, vrH: nat)
    requires IsAmdPdu(first) && UnpackHead(first).sn == 0
    requires vrH == if AtOrBeyond(t, 0, 512, 0) then 1 else 512
    ensures Receive(Written, t, AfterLate(late), first).upper
         == Walk(Written, BothStored(late, first), NoLeft, vrH + 1, 1).out.sdus
  {
    var rx := AfterLate(late);
    assert Accepted(rx, first);
    var w: Window := BothStored(late, first);
    assert At(0, 1) == 1 && At(512, 1) == 513 && At(1, 1) == 2;
    StretchOne(w);
    assert AdvanceMs(Store(t, rx, first)) == rx.(window := w, vrH := vrH, vrMs := 1);
    var out := Walk(Written, w, NoLeft, vrH + 1, 1).out;
    assert [] + out.sdus == out.sdus;
  }

  /** With the numeric test the SDU of PDU 511 is handed up before the one of
      PDU 0, and with 510 PDUs missing in between. */
  lemma NumericTestFails(x: Bytes, y: Bytes)
    ensures var late, first := Octets(Single(511, x)), Octets(Single(0, y));
            Receive(Written, Numeric, Receive(Written, Numeric, InitialRx(), late), first).upper == [x, y]
  {
    var late, first := Octets(Single(511, x)), Octets(Single(0, y));
    FirstArrival(Numeric, x);
    SingleDelivers(511, x);
    SingleDelivers(0, y);
    SecondArrival(Numeric, late, first, 1);
    NumericWalk(late, first, x, y);
  }

  /** With the modular test only the SDU of PDU 0 is handed up. */
  lemma ModularTestWaits(x: Bytes, y: Bytes)
    ensures var late, first := Octets(Single(511, x)), Octets(Single(0, y));
            Receive(Written, Modular, Receive(Written, Modular, InitialRx(), late), first).upper == [y]
  {
    var late, first := Octets(Single(511, x)), Octets(Single(0, y));
    FirstArrival(Modular, x);
    SingleDelivers(0, y);
    SecondArrival(Modular, late, first, 512);
    WalkToZero(BothStored(late, first), 513, first, y);
  }
}
