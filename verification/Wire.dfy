/** The octets of an AMD PDU: the two-octet fixed header, the chain of E/LI
    extension headers and the data field (TS 36.322, sections 6.2.1.4 and 6.2.2).
    A chain is written by the segmenter and read back by the reassembler. */
module Wire {
  import opened Wrappers

  type byte = b: int | 0 <= b < 256
  type Bytes = seq<byte>

  const SN_MODULUS := 1024
  const MAX_LI := 0x7fff

  /** How many byte ranges a buffered PDU has room for. */
  const SEG_NUM_MAX := 16

  function Flatten(pieces: seq<Bytes>): Bytes
  {
    if pieces == [] then [] else pieces[0] + Flatten(pieces[1..])
  }

  lemma {:induction false} FlattenConcat(a: seq<Bytes>, b: seq<Bytes>)
    ensures Flatten(a + b) == Flatten(a) + Flatten(b)
  {
    if a == [] {
      assert a + b == b;
    } else {
      var rest := a[1..];
      FlattenConcat(rest, b);
      assert (a + b)[1..] == rest + b && (a + b)[0] == a[0];
    }
  }

  lemma FlattenOne(b: Bytes)
    ensures Flatten([b]) == b
  {
    var rest: seq<Bytes> := [b][1..];
    assert rest == [] && Flatten([b]) == b + Flatten(rest);
  }

  // ----- fixed header -----

  /** The fixed header after it has been put in host order. */
  datatype FixHead = FixHead(dorC: bool, rf: bool, p: bool, fiFirst: bool, fiSecond: bool, e: bool, sn: nat)

  function Bit(b: bool, weight: nat): nat { if b then weight else 0 }

  /** D/C, RF, P, FI (two bits), E and a ten-bit SN, most significant first. */
  function HeadWord(h: FixHead): nat
    requires h.sn < SN_MODULUS
  {
    0x400 * HeadBits(h) + h.sn
  }

  function HeadBits(h: FixHead): (bits: nat)
    ensures bits < 64
  {
    Bit(h.dorC, 32) + Bit(h.rf, 16) + Bit(h.p, 8) + Bit(h.fiFirst, 4) + Bit(h.fiSecond, 2) + Bit(h.e, 1)
  }

  function HeadOfWord(w: nat): FixHead {
    var bits := w / 0x400;
    FixHead((bits / 32) % 2 == 1, (bits / 16) % 2 == 1, (bits / 8) % 2 == 1, (bits / 4) % 2 == 1,
            (bits / 2) % 2 == 1, bits % 2 == 1, w % 0x400)
  }

  lemma LowBit(n: nat, b: bool)
    ensures (2 * n + Bit(b, 1)) / 2 == n && ((2 * n + Bit(b, 1)) % 2 == 1 <==> b)
  {
  }

  lemma SixBits(bits: nat, b5: bool, b4: bool, b3: bool, b2: bool, b1: bool, b0: bool)
    requires bits == Bit(b5, 32) + Bit(b4, 16) + Bit(b3, 8) + Bit(b2, 4) + Bit(b1, 2) + Bit(b0, 1)
    ensures ((bits / 32) % 2 == 1 <==> b5) && ((bits / 16) % 2 == 1 <==> b4) && ((bits / 8) % 2 == 1 <==> b3)
    ensures ((bits / 4) % 2 == 1 <==> b2) && ((bits / 2) % 2 == 1 <==> b1) && (bits % 2 == 1 <==> b0)
  {
    var n5 := Bit(b5, 1);
    var n4 := 2 * n5 + Bit(b4, 1);
    var n3 := 2 * n4 + Bit(b3, 1);
    var n2 := 2 * n3 + Bit(b2, 1);
    var n1 := 2 * n2 + Bit(b1, 1);
    LowBit(n1, b0);
    LowBit(n2, b1);
    LowBit(n3, b2);
    LowBit(n4, b3);
    LowBit(n5, b4);
    assert bits / 2 == n1 && bits / 4 == n2 && bits / 8 == n3 && bits / 16 == n4 && bits / 32 == n5;
  }

  lemma SplitWord(bits: nat, sn: nat)
    requires sn < SN_MODULUS
    ensures (0x400 * bits + sn) / 0x400 == bits && (0x400 * bits + sn) % 0x400 == sn
  {
  }

  lemma WordOfHead(h: FixHead)
    requires h.sn < SN_MODULUS
    ensures HeadWord(h) < 0x10000
    ensures HeadOfWord(HeadWord(h)) == h
  {
    var bits := HeadBits(h);
    SplitWord(bits, h.sn);
    SixBits(bits, h.dorC, h.rf, h.p, h.fiFirst, h.fiSecond, h.e);
  }

  /** The header in network order, as it is pushed in front of the PDU. */
  function PackHead(h: FixHead): (bytes: Bytes)
    requires h.sn < SN_MODULUS
    ensures |bytes| == 2
  {
    WordOfHead(h);
    var w := HeadWord(h);
    [w / 256, w % 256]
  }

  function UnpackHead(buf: Bytes): FixHead
    requires |buf| >= 2
  {
    var high: nat, low: nat := buf[0], buf[1];
    HeadOfWord(256 * high + low)
  }

  /** Reading back a packed header gives the header, whatever follows it. */
  lemma HeadRoundTrip(h: FixHead, rest: Bytes)
    requires h.sn < SN_MODULUS
    ensures UnpackHead(PackHead(h) + rest) == h
  {
    var w := HeadWord(h);
    WordOfHead(h);
    assert 256 * (w / 256) + w % 256 == w;
  }

  /** The octets of the fixed header, bit by bit. */
  lemma PackedOctets(h: FixHead)
    requires h.sn < SN_MODULUS
    ensures PackHead(h)[0] == (if h.dorC then 0x80 else 0) + (if h.rf then 0x40 else 0) + (if h.p then 0x20 else 0)
                              + (if h.fiFirst then 0x10 else 0) + (if h.fiSecond then 8 else 0)
                              + (if h.e then 4 else 0) + h.sn / 256
    ensures PackHead(h)[1] == h.sn % 256
  {
    HighAndLow(HeadBits(h), h.sn);
  }

  lemma HighAndLow(bits: nat, sn: nat)
    requires sn < SN_MODULUS
    ensures (0x400 * bits + sn) / 256 == 4 * bits + sn / 256 && (0x400 * bits + sn) % 256 == sn % 256
  {
    var q, r := sn / 256, sn % 256;
    assert 0x400 * bits + sn == 256 * (4 * bits + q) + r;
  }

  /** The fields read from two octets. */
  lemma HeadFields(buf: Bytes)
    requires |buf| >= 2
    ensures var h := UnpackHead(buf);
            var octet: nat, next: nat := buf[0], buf[1];
            && (h.dorC <==> octet / 128 == 1) && (h.rf <==> (octet / 64) % 2 == 1) && (h.p <==> (octet / 32) % 2 == 1)
            && (h.fiFirst <==> (octet / 16) % 2 == 1) && (h.fiSecond <==> (octet / 8) % 2 == 1)
            && (h.e <==> (octet / 4) % 2 == 1) && h.sn == 256 * (octet % 4) + next
  {
    WordOctets(buf[0], buf[1]);
    Quotients(buf[0]);
  }

  lemma WordOctets(high: nat, low: nat)
    requires high < 256 && low < 256
    ensures (256 * high + low) / 0x400 == high / 4 && (256 * high + low) % 0x400 == 256 * (high % 4) + low
  {
    var q, r := high / 4, high % 4;
    assert 256 * high + low == 0x400 * q + (256 * r + low);
  }

  lemma Quotients(octet: byte)
    ensures var bits := octet / 4;
            && (bits / 32) % 2 == octet / 128 && bits / 16 == octet / 64 && bits / 8 == octet / 32
            && bits / 4 == octet / 16 && bits / 2 == octet / 8
  {
  }

  // ----- extension headers -----

  /** Which bit of an extension header the parser takes for E. `Written` is
      0x8000, the bit the segmenter sets; `Literal` is 0x1000, the mask in the
      code, which the shift by 15 always discards. */
  datatype EMask = Literal | Written

  function MaskValue(m: EMask): nat { if m == Literal then 0x1000 else 0x8000 }

  /** `(w & mask) >> 15` for a mask of one bit. */
  function EField(m: EMask, w: nat): nat {
    ((w / MaskValue(m)) % 2 * MaskValue(m)) / 0x8000
  }

  /** `w & 0x7fff` */
  function LiField(w: nat): nat { w % 0x8000 }

  /** A sixteen-bit word as copied from a little-endian host. */
  function PackWord(w: nat): (bytes: Bytes)
    requires w < 0x10000
    ensures |bytes| == 2
  {
    [w % 256, w / 256]
  }

  function UnpackWord(buf: Bytes): nat
    requires |buf| >= 2
  {
    var low: nat, high: nat := buf[0], buf[1];
    low + 256 * high
  }

  /** The word for one extension header; every one but the last has E set. */
  function ExtWord(li: nat, last: bool): nat {
    (if last then 0 else 0x8000) + li % 0x8000
  }

  /** What fifteen bits hold of each length. */
  function Narrowed(lis: seq<nat>): (ns: seq<nat>)
    ensures |ns| == |lis|
  {
    seq(|lis|, i requires 0 <= i < |lis| => lis[i] % 0x8000)
  }

  /** The extension headers of a PDU whose pieces but the last have lengths `lis`. */
  function ExtChain(lis: seq<nat>): Bytes {
    if lis == [] then [] else PackWord(ExtWord(lis[0], |lis| == 1)) + ExtChain(lis[1..])
  }

  datatype Chain = Chain(lis: seq<nat>, rest: Bytes)

  /** The walk over the extension headers: the lengths found and what follows
      them, or None when the buffer ends inside the chain. */
  function ReadChain(m: EMask, e: bool, buf: Bytes): (r: Option<Chain>)
    decreases |buf|
    ensures r.Some? && e ==> |r.value.lis| >= 1
    ensures r.Some? ==> 2 * |r.value.lis| + |r.value.rest| == |buf|
    ensures r.Some? ==> r.value.rest == buf[2 * |r.value.lis|..]
    ensures r.Some? ==> forall i :: 0 <= i < |r.value.lis| ==> r.value.lis[i] <= MAX_LI
  {
    if !e then Some(Chain([], buf))
    else if |buf| < 2 then None
    else
      var w := UnpackWord(buf);
      match ReadChain(m, EField(m, w) == 1, buf[2..])
      case None => None
      case Some(c) => Some(Chain([LiField(w)] + c.lis, c.rest))
  }

  lemma FieldsOfExtWord(li: nat, last: bool)
    ensures EField(Written, ExtWord(li, last)) == (if last then 0 else 1)
    ensures EField(Literal, ExtWord(li, last)) == 0
    ensures LiField(ExtWord(li, last)) == li % 0x8000
  {
  }

  lemma WordRoundTrip(w: nat, rest: Bytes)
    requires w < 0x10000
    ensures UnpackWord(PackWord(w) + rest) == w
    ensures (PackWord(w) + rest)[2..] == rest
  {
  }

  /** The lengths a reading of the chain finds: all of them when E is the bit
      that was written, only the first when it is the discarded one. */
  function LisSeen(m: EMask, lis: seq<nat>): seq<nat> {
    if m == Written || lis == [] then lis else lis[..1]
  }

  lemma ReadChainStep(m: EMask, w: nat, tail: Bytes)
    requires w < 0x10000
    ensures ReadChain(m, true, PackWord(w) + tail)
         == match ReadChain(m, EField(m, w) == 1, tail)
            case None => None
            case Some(c) => Some(Chain([LiField(w)] + c.lis, c.rest))
  {
    WordRoundTrip(w, tail);
  }

  /** Reading the chain the segmenter wrote for `lis` in front of `payload`. */
  lemma {:induction false} ChainInversion(m: EMask, lis: seq<nat>, payload: Bytes)
    ensures ReadChain(m, lis != [], ExtChain(lis) + payload)
         == Some(Chain(LisSeen(m, Narrowed(lis)),
                       if m == Written || lis == [] then payload else ExtChain(lis[1..]) + payload))
    decreases |lis|
  {
    if lis == [] {
      assert ExtChain(lis) + payload == payload && Narrowed(lis) == [];
    } else {
      hide ReadChain, PackWord, ExtWord, EField, LiField, Narrowed;
      var w := ExtWord(lis[0], |lis| == 1);
      var tail := ExtChain(lis[1..]) + payload;
      assert ExtChain(lis) + payload == PackWord(w) + tail;
      ReadChainStep(m, w, tail);
      FieldsOfExtWord(lis[0], |lis| == 1);
      NarrowedStep(lis);
      assert (lis[1..] != []) == (|lis| != 1);
      if m == Written {
        ChainInversion(m, lis[1..], payload);
      } else {
        ChainEnds(m, tail);
      }
    }
  }

  lemma NarrowedStep(lis: seq<nat>)
    requires lis != []
    ensures Narrowed(lis) == [lis[0] % 0x8000] + Narrowed(lis[1..]) && Narrowed(lis)[..1] == [lis[0] % 0x8000] + []
  {
  }

  lemma ChainEnds(m: EMask, buf: Bytes)
    ensures ReadChain(m, false, buf) == Some(Chain([], buf))
  {
  }

  lemma {:induction false} ExtChainLength(lis: seq<nat>)
    ensures |ExtChain(lis)| == 2 * |lis|
  {
    if lis != [] {
      ExtChainLength(lis[1..]);
    }
  }

  // ----- whole PDUs -----

  /** An AMD PDU as the reassembler sees it: header bits and pieces. */
  datatype Pdu = Pdu(fiFirst: bool, fiSecond: bool, sn: nat, pieces: seq<Bytes>)

  /** Cut the lengths `lis` off the front of the data field; the rest is the last piece. */
  function Cut(lis: seq<nat>, data: Bytes): (r: Option<seq<Bytes>>)
    ensures r.Some? ==> |r.value| == |lis| + 1 && Flatten(r.value) == data
  {
    if lis == [] then
      assert Flatten([data][1..]) == [];
      Some([data])
    else if lis[0] > |data| then None
    else
      match Cut(lis[1..], data[lis[0]..])
      case None => None
      case Some(ps) =>
        assert ([data[..lis[0]]] + ps)[1..] == ps;
        Some([data[..lis[0]]] + ps)
  }

  function Parse(m: EMask, buf: Bytes): (r: Option<Pdu>)
    ensures r.Some? ==> |buf| >= 2 && |r.value.pieces| >= 1 && r.value.sn < SN_MODULUS
  {
    if |buf| < 2 then None
    else
      var h := UnpackHead(buf);
      match ReadChain(m, h.e, buf[2..])
      case None => None
      case Some(c) =>
        match Cut(c.lis, c.rest)
        case None => None
        case Some(ps) => Some(Pdu(h.fiFirst, h.fiSecond, h.sn, ps))
  }

  function Lengths(pieces: seq<Bytes>): (lis: seq<nat>)
    ensures |lis| == |pieces|
  {
    seq(|pieces|, i requires 0 <= i < |pieces| => |pieces[i]|)
  }

  /** A PDU with at least one piece and a ten-bit serial number. */
  ghost predicate Printable(p: Pdu) { p.sn < SN_MODULUS && |p.pieces| >= 1 }

  /** Everything but the last piece fits in the fifteen-bit LI field. */
  ghost predicate Short(p: Pdu) {
    forall i :: 0 <= i < |p.pieces| - 1 ==> |p.pieces[i]| <= MAX_LI
  }

  /** The octets of a PDU: E says whether an extension header follows. */
  function Print(p: Pdu): Bytes
    requires Printable(p)
  {
    var n := |p.pieces| - 1;
    PackHead(FixHead(true, false, true, p.fiFirst, p.fiSecond, n > 0, p.sn))
    + ExtChain(Lengths(p.pieces[..n])) + Flatten(p.pieces)
  }

  lemma {:induction false} CutInversion(pieces: seq<Bytes>)
    requires pieces != []
    ensures Cut(Lengths(pieces[..|pieces| - 1]), Flatten(pieces)) == Some(pieces)
  {
    var n := |pieces| - 1;
    var data := Flatten(pieces);
    if n == 0 {
      assert pieces == [pieces[0]] && Lengths(pieces[..n]) == [];
      assert Flatten(pieces[1..]) == [] && data == pieces[0];
    } else {
      var first, others := pieces[0], pieces[1..];
      CutInversion(others);
      assert data[..|first|] == first && data[|first|..] == Flatten(others);
      assert Lengths(pieces[..n])[1..] == Lengths(others[..n - 1]);
      assert pieces == [first] + others;
    }
  }

  lemma PrintedHead(p: Pdu)
    requires Printable(p)
    ensures |Print(p)| >= 2
    ensures UnpackHead(Print(p)) == FixHead(true, false, true, p.fiFirst, p.fiSecond, |p.pieces| > 1, p.sn)
    ensures Print(p)[2..] == ExtChain(Lengths(p.pieces[..|p.pieces| - 1])) + Flatten(p.pieces)
  {
    var n := |p.pieces| - 1;
    var body := ExtChain(Lengths(p.pieces[..n])) + Flatten(p.pieces);
    var h := FixHead(true, false, true, p.fiFirst, p.fiSecond, n > 0, p.sn);
    HeadRoundTrip(h, body);
    assert Print(p) == PackHead(h) + body;
  }

  lemma ChainSeenInFull(m: EMask, lis: seq<nat>, data: Bytes)
    requires m == Written || |lis| <= 1
    ensures ReadChain(m, lis != [], ExtChain(lis) + data) == Some(Chain(Narrowed(lis), data))
  {
    ChainInversion(m, lis, data);
    if m == Literal && |lis| == 1 {
      assert ExtChain(lis[1..]) + data == data;
      assert Narrowed(lis)[..1] == Narrowed(lis);
    }
  }

  /** The pieces cut off have the lengths asked for. */
  lemma {:induction false} CutLengths(lis: seq<nat>, data: Bytes)
    ensures var r := Cut(lis, data); r.Some? ==> forall i :: 0 <= i < |lis| ==> |r.value[i]| == lis[i]
    decreases |lis|
  {
    if lis != [] && lis[0] <= |data| {
      CutLengths(lis[1..], data[lis[0]..]);
    }
  }

  lemma ShortLis(p: Pdu)
    requires Printable(p) && Short(p)
    ensures var lis := Lengths(p.pieces[..|p.pieces| - 1]); Narrowed(lis) == lis
  {
    var lis := Lengths(p.pieces[..|p.pieces| - 1]);
    forall i | 0 <= i < |lis| ensures lis[i] % 0x8000 == lis[i] {
      assert lis[i] == |p.pieces[i]|;
    }
  }

  lemma SeenInFull(m: EMask, p: Pdu)
    requires Printable(p) && Short(p)
    requires m == Written || |p.pieces| <= 2
    ensures Parse(m, Print(p)) == Some(p)
  {
    hide Print, ReadChain, Cut, Flatten, ExtChain, UnpackHead, Narrowed, Lengths;
    var lis := Lengths(p.pieces[..|p.pieces| - 1]);
    PrintedHead(p);
    ChainSeenInFull(m, lis, Flatten(p.pieces));
    ShortLis(p);
    CutInversion(p.pieces);
    ParseFrom(m, Print(p), Chain(lis, Flatten(p.pieces)), p.pieces);
  }

  /** A piece that is too long for its LI is never read back as it was. */
  lemma SeenNarrowed(m: EMask, p: Pdu)
    requires Printable(p) && !Short(p)
    requires m == Written || |p.pieces| <= 2
    ensures Parse(m, Print(p)) != Some(p)
  {
    hide Print, ReadChain, Cut, Flatten, ExtChain, UnpackHead;
    var lis := Lengths(p.pieces[..|p.pieces| - 1]);
    PrintedHead(p);
    ChainSeenInFull(m, lis, Flatten(p.pieces));
    CutLengths(Narrowed(lis), Flatten(p.pieces));
    var i :| 0 <= i < |p.pieces| - 1 && |p.pieces[i]| > MAX_LI;
    assert lis[i] == |p.pieces[i]| && Narrowed(lis)[i] < lis[i];
  }

  lemma ParseFrom(m: EMask, buf: Bytes, c: Chain, pieces: seq<Bytes>)
    requires |buf| >= 2 && ReadChain(m, UnpackHead(buf).e, buf[2..]) == Some(c) && Cut(c.lis, c.rest) == Some(pieces)
    ensures Parse(m, buf) == Some(Pdu(UnpackHead(buf).fiFirst, UnpackHead(buf).fiSecond, UnpackHead(buf).sn, pieces))
  {
  }

  lemma SeenInPart(p: Pdu)
    requires Printable(p)
    requires |p.pieces| > 2
    ensures var r := Parse(Literal, Print(p)); r.Some? ==> |r.value.pieces| == 2
  {
    var lis := Lengths(p.pieces[..|p.pieces| - 1]);
    PrintedHead(p);
    ChainInversion(Literal, lis, Flatten(p.pieces));
    assert |LisSeen(Literal, Narrowed(lis))| == 1;
  }

  /** The parser undoes the printer exactly when the E bit it looks at is the
      one that was written, or the PDU holds at most two pieces, and every piece
      but the last is short enough for its LI. */
  lemma ParseInvertsPrint(m: EMask, p: Pdu)
    requires Printable(p)
    ensures Parse(m, Print(p)) == Some(p) <==> (m == Written || |p.pieces| <= 2) && Short(p)
  {
    if m == Written || |p.pieces| <= 2 {
      if Short(p) {
        SeenInFull(m, p);
      } else {
        SeenNarrowed(m, p);
      }
    } else {
      SeenInPart(p);
    }
  }

  // ----- octet by octet -----

  /** The fixed header on the wire: D/C and P set, RF clear, the two bits of FI,
      E, and the serial number. */
  lemma PrintedOctets(p: Pdu)
    requires Printable(p)
    ensures |Print(p)| >= 2
    ensures Print(p)[0] == 0xA0 + (if p.fiFirst then 0x10 else 0) + (if p.fiSecond then 8 else 0)
                           + (if |p.pieces| > 1 then 4 else 0) + p.sn / 256
    ensures Print(p)[1] == p.sn % 256
  {
    PackedOctets(FixHead(true, false, true, p.fiFirst, p.fiSecond, |p.pieces| > 1, p.sn));
  }

  /** The extension headers and the data on the wire: for each piece but the last
      its length, the low octet first, and in the top bit whether another header follows. */
  lemma PrintedBody(p: Pdu)
    requires Printable(p)
    ensures |Print(p)| >= 2 * |p.pieces| && Print(p)[2 * |p.pieces|..] == Flatten(p.pieces)
    ensures forall i :: 0 <= i < |p.pieces| - 1 ==>
              && Print(p)[2 * i + 2] == |p.pieces[i]| % 256
              && Print(p)[2 * i + 3] == (|p.pieces[i]| / 256) % 128 + if i < |p.pieces| - 2 then 0x80 else 0
  {
    var lis := Lengths(p.pieces[..|p.pieces| - 1]);
    var chain := ExtChain(lis);
    PrintedHead(p);
    ExtChainLength(lis);
    ChainOctets(lis);
    assert Print(p)[2..] == chain + Flatten(p.pieces);
    forall i | 0 <= i < |p.pieces| - 1
      ensures Print(p)[2 * i + 2] == chain[2 * i] && Print(p)[2 * i + 3] == chain[2 * i + 1] && lis[i] == |p.pieces[i]|
    {
      assert Print(p)[2..][2 * i] == chain[2 * i] && Print(p)[2..][2 * i + 1] == chain[2 * i + 1];
    }
    assert Print(p)[2 * |p.pieces|..] == Print(p)[2..][|chain|..];
  }

  lemma {:induction false} ChainOctets(lis: seq<nat>)
    ensures |ExtChain(lis)| == 2 * |lis|
    ensures forall i :: 0 <= i < |lis| ==>
              && ExtChain(lis)[2 * i] == lis[i] % 256
              && ExtChain(lis)[2 * i + 1] == (lis[i] / 256) % 128 + if i < |lis| - 1 then 0x80 else 0
  {
    if lis != [] {
      var tail := ExtChain(lis[1..]);
      ChainOctets(lis[1..]);
      ExtWordOctets(lis[0], |lis| == 1);
      forall i | 1 <= i < |lis|
        ensures ExtChain(lis)[2 * i] == tail[2 * (i - 1)] && ExtChain(lis)[2 * i + 1] == tail[2 * (i - 1) + 1]
        ensures lis[1..][i - 1] == lis[i]
      {
      }
    }
  }

  lemma ExtWordOctets(li: nat, last: bool)
    ensures ExtWord(li, last) < 0x10000
    ensures PackWord(ExtWord(li, last))[0] == li % 256
    ensures PackWord(ExtWord(li, last))[1] == (li / 256) % 128 + if last then 0 else 0x80
  {
    var k, r := li / 0x8000, li % 0x8000;
    var h, l := r / 256, r % 256;
    assert li == 256 * (128 * k + h) + l;
    assert li / 256 == 128 * k + h && li % 256 == l;
  }

  /** What the octets of a PDU say, on the side that reads them: the piece lengths
      from the extension headers, the top bit of each that another one follows
      (never, when E is the discarded bit), and the data. */
  ghost predicate Reads(m: EMask, buf: Bytes, p: Pdu) {
    && |p.pieces| >= 1 && |buf| >= 2 * |p.pieces| && Flatten(p.pieces) == buf[2 * |p.pieces|..]
    && ChainReads(m, buf[2..], Lengths(p.pieces[..|p.pieces| - 1]))
    && var octet: nat, next: nat := buf[0], buf[1];
       && (p.fiFirst <==> (octet / 16) % 2 == 1) && (p.fiSecond <==> (octet / 8) % 2 == 1)
       && (|p.pieces| > 1 <==> (octet / 4) % 2 == 1) && p.sn == 256 * (octet % 4) + next
  }

  ghost predicate ChainReads(m: EMask, buf: Bytes, lis: seq<nat>) {
    && 2 * |lis| <= |buf| && (m == Literal ==> |lis| <= 1)
    && forall i :: 0 <= i < |lis| ==> LiReads(m, buf[2 * i], buf[2 * i + 1], lis[i], i == |lis| - 1)
  }

  ghost predicate LiReads(m: EMask, low: nat, high: nat, li: nat, last: bool) {
    li == 256 * (high % 128) + low && (m == Written ==> (high >= 128 <==> !last))
  }

  lemma UnpackedFields(buf: Bytes)
    requires |buf| >= 2
    ensures var w := UnpackWord(buf);
            var low: nat, high: nat := buf[0], buf[1];
            && LiField(w) == 256 * (high % 128) + low
            && (EField(Written, w) == 1 <==> high >= 128) && EField(Literal, w) != 1
  {
    var low: nat, high: nat := buf[0], buf[1];
    var q, r := high / 128, high % 128;
    var w := UnpackWord(buf);
    assert w == 0x8000 * q + (256 * r + low);
    assert w / 0x8000 == q && w % 0x8000 == 256 * r + low;
  }

  lemma Prepended(x: nat, tail: seq<nat>, s: seq<nat>)
    ensures [x] + tail == s <==> s != [] && x == s[0] && tail == s[1..]
  {
  }

  /** Reading a chain finds exactly the lengths the octets hold. */
  lemma {:induction false} ReadChainReads(m: EMask, e: bool, buf: Bytes, lis: seq<nat>)
    ensures var r := ReadChain(m, e, buf);
            r.Some? && r.value.lis == lis <==> (e <==> lis != []) && ChainReads(m, buf, lis)
    decreases |buf|
  {
    if e && |buf| >= 2 && lis != [] {
      hide UnpackWord, EField, LiField, ChainReads;
      var w, tail := UnpackWord(buf), buf[2..];
      var more := EField(m, w) == 1;
      var r := ReadChain(m, more, tail);
      UnpackedFields(buf);
      ReadChainReads(m, more, tail, lis[1..]);
      ChainReadsStep(m, buf, lis);
      if r.Some? {
        Prepended(LiField(w), r.value.lis, lis);
      }
    }
  }

  lemma ChainReadsStep(m: EMask, buf: Bytes, lis: seq<nat>)
    requires |buf| >= 2 && lis != []
    ensures ChainReads(m, buf, lis)
       <==> && LiReads(m, buf[0], buf[1], lis[0], |lis| == 1) && ChainReads(m, buf[2..], lis[1..])
            && (m == Literal ==> |lis| <= 1)
  {
    hide LiReads;
    if ChainReads(m, buf, lis) {
      ChainReadsRest(m, buf, lis);
    }
    if LiReads(m, buf[0], buf[1], lis[0], |lis| == 1) && ChainReads(m, buf[2..], lis[1..])
       && (m == Literal ==> |lis| <= 1) {
      ChainReadsFirst(m, buf, lis);
    }
  }

  lemma ChainReadsRest(m: EMask, buf: Bytes, lis: seq<nat>)
    requires |buf| >= 2 && lis != [] && ChainReads(m, buf, lis)
    ensures LiReads(m, buf[0], buf[1], lis[0], |lis| == 1) && ChainReads(m, buf[2..], lis[1..])
  {
    hide LiReads;
    var rest, tail := lis[1..], buf[2..];
    assert LiReads(m, buf[2 * 0], buf[2 * 0 + 1], lis[0], 0 == |lis| - 1);
    forall i | 0 <= i < |rest| ensures LiReads(m, tail[2 * i], tail[2 * i + 1], rest[i], i == |rest| - 1) {
      assert LiReads(m, buf[2 * (i + 1)], buf[2 * (i + 1) + 1], lis[i + 1], i + 1 == |lis| - 1);
    }
  }

  lemma ChainReadsFirst(m: EMask, buf: Bytes, lis: seq<nat>)
    requires |buf| >= 2 && lis != [] && LiReads(m, buf[0], buf[1], lis[0], |lis| == 1)
    requires ChainReads(m, buf[2..], lis[1..]) && (m == Literal ==> |lis| <= 1)
    ensures ChainReads(m, buf, lis)
  {
    hide LiReads;
    var rest, tail := lis[1..], buf[2..];
    forall i | 0 <= i < |lis| ensures LiReads(m, buf[2 * i], buf[2 * i + 1], lis[i], i == |lis| - 1) {
      if i > 0 {
        assert LiReads(m, tail[2 * (i - 1)], tail[2 * (i - 1) + 1], rest[i - 1], i - 1 == |rest| - 1);
      }
    }
  }

  /** The parser reads a PDU from octets exactly when they say so, bit by bit. */
  lemma ParseReads(m: EMask, buf: Bytes, p: Pdu)
    ensures Parse(m, buf) == Some(p) <==> Reads(m, buf, p)
  {
    if Parse(m, buf) == Some(p) {
      ParsedReads(m, buf, p);
    }
    if Reads(m, buf, p) {
      ReadsParsed(m, buf, p);
    }
  }

  lemma ParsedReads(m: EMask, buf: Bytes, p: Pdu)
    requires Parse(m, buf) == Some(p)
    ensures Reads(m, buf, p)
  {
    hide ReadChain, Cut, UnpackHead, ChainReads, Flatten;
    var h := UnpackHead(buf);
    var c := ReadChain(m, h.e, buf[2..]).value;
    HeadFields(buf);
    CutLengths(c.lis, c.rest);
    LengthsAre(p.pieces, c.lis);
    ReadChainReads(m, h.e, buf[2..], c.lis);
    assert buf[2..][2 * |c.lis|..] == buf[2 * |p.pieces|..];
  }

  lemma ReadsParsed(m: EMask, buf: Bytes, p: Pdu)
    requires Reads(m, buf, p)
    ensures Parse(m, buf) == Some(p)
  {
    hide ReadChain, Cut, UnpackHead, ChainReads, Flatten;
    var lis, h := Lengths(p.pieces[..|p.pieces| - 1]), UnpackHead(buf);
    HeadFields(buf);
    ReadChainReads(m, h.e, buf[2..], lis);
    CutInversion(p.pieces);
    assert buf[2..][2 * |lis|..] == buf[2 * |p.pieces|..];
    ParseFrom(m, buf, Chain(lis, Flatten(p.pieces)), p.pieces);
  }

  lemma LengthsAre(pieces: seq<Bytes>, lis: seq<nat>)
    requires |pieces| == |lis| + 1 && forall i :: 0 <= i < |lis| ==> |pieces[i]| == lis[i]
    ensures Lengths(pieces[..|pieces| - 1]) == lis
  {
  }

  /** Two octets for the fixed header, two for each further piece, and the data. */
  lemma PrintedLength(p: Pdu)
    requires Printable(p)
    ensures |Print(p)| == 2 * |p.pieces| + |Flatten(p.pieces)|
  {
    ExtChainLength(Lengths(p.pieces[..|p.pieces| - 1]));
  }
}
