/** Retransmission of parts of an AMD PDU (TS 36.322, sections 5.2.1 and
    6.2.1.5): the byte ranges asked for are sent piece by piece, each as an AMD
    PDU segment that fits its grant. */
module Resegmenter {
  import opened Wire
  import opened Wrappers

  /** An inclusive range of positions in the data field. */
  datatype Range = Range(lo: int, hi: int)

  /** A segment: the segment offset SO and how many octets follow. */
  datatype Piece = Piece(so: int, len: nat)

  ghost predicate RangesOk(pending: seq<Range>) {
    forall i :: 0 <= i < |pending| ==> 0 <= pending[i].lo <= pending[i].hi
  }

  function Positions(lo: int, len: nat): (ps: seq<int>)
    ensures |ps| == len
  {
    seq(len, i => lo + i)
  }

  /** The positions asked for, in the order of the ranges. */
  function Wanted(pending: seq<Range>): seq<int>
    requires RangesOk(pending)
  {
    if pending == [] then []
    else Positions(pending[0].lo, pending[0].hi - pending[0].lo + 1) + Wanted(pending[1..])
  }

  function Sent(pieces: seq<Piece>): seq<int> {
    if pieces == [] then []
    else
      var last := pieces[|pieces| - 1];
      Sent(pieces[..|pieces| - 1]) + Positions(last.so, last.len)
  }

  /** `headLen` is the length of the PDU's own header; a segment has two octets
      more. `counted` is the number of ranges recorded with the PDU: it is never
      decremented, and a completed range is only retired when it is not zero. */
  function NextPiece(pending: seq<Range>, headLen: nat, grant: nat): Piece
    requires pending != [] && RangesOk(pending) && grant > headLen + 2
  {
    var r := pending[0];
    Piece(r.lo, if headLen + 2 + (r.hi - r.lo + 1) <= grant then r.hi - r.lo + 1 else grant - (headLen + 2))
  }

  function PendingAfter(pending: seq<Range>, counted: nat, headLen: nat, grant: nat): (after: seq<Range>)
    requires pending != [] && RangesOk(pending) && grant > headLen + 2
    ensures RangesOk(after)
  {
    var r := pending[0];
    if headLen + 2 + (r.hi - r.lo + 1) <= grant then
      if counted == 0 then pending else pending[1..]
    else [Range(r.lo + (grant - (headLen + 2)), r.hi)] + pending[1..]
  }

  /** A piece carries something, fits its grant, and fills it unless it ends with
      its range; it is exactly the front of what was wanted. */
  lemma PieceIsFront(pending: seq<Range>, counted: nat, headLen: nat, grant: nat)
    requires pending != [] && RangesOk(pending) && grant > headLen + 2 && counted > 0
    ensures var p, after := NextPiece(pending, headLen, grant), PendingAfter(pending, counted, headLen, grant);
            && 0 < p.len && headLen + 2 + p.len <= grant && p.so == pending[0].lo
            && (headLen + 2 + p.len == grant || p.so + p.len - 1 == pending[0].hi) && p.so + p.len - 1 <= pending[0].hi
            && Wanted(pending) == Positions(p.so, p.len) + Wanted(after)
  {
    if headLen + 2 + (pending[0].hi - pending[0].lo + 1) > grant {
      PieceCut(pending, counted, headLen, grant);
    } else {
      WantedFirst(pending);
    }
  }

  lemma PieceCut(pending: seq<Range>, counted: nat, headLen: nat, grant: nat)
    requires pending != [] && RangesOk(pending) && grant > headLen + 2
    requires headLen + 2 + (pending[0].hi - pending[0].lo + 1) > grant
    ensures var len := grant - (headLen + 2);
            && NextPiece(pending, headLen, grant) == Piece(pending[0].lo, len)
            && Wanted(pending) == Positions(pending[0].lo, len) + Wanted(PendingAfter(pending, counted, headLen, grant))
  {
    var after := PendingAfter(pending, counted, headLen, grant);
    assert after[1..] == pending[1..];
    CutFront(pending, after, grant - (headLen + 2));
  }

  lemma WantedFirst(pending: seq<Range>)
    requires pending != [] && RangesOk(pending)
    ensures Wanted(pending) == Positions(pending[0].lo, pending[0].hi - pending[0].lo + 1) + Wanted(pending[1..])
  {
  }

  lemma CutFront(pending: seq<Range>, after: seq<Range>, len: nat)
    requires pending != [] && RangesOk(pending) && after != [] && RangesOk(after)
    requires after[1..] == pending[1..] && after[0] == Range(pending[0].lo + len, pending[0].hi)
    ensures Wanted(pending) == Positions(pending[0].lo, len) + Wanted(after)
  {
    WantedFirst(pending);
    WantedFirst(after);
    PositionsSplit(pending[0].lo, len, after[0].hi - after[0].lo + 1);
  }

  lemma PositionsSplit(lo: int, m: nat, n: nat)
    ensures Positions(lo, m + n) == Positions(lo, m) + Positions(lo + m, n)
  {
  }

  /** One call leaves the ranges as they were only when none were counted and the
      first one fits the grant. */
  lemma UncountedRepeats(pending: seq<Range>, counted: nat, headLen: nat, grant: nat)
    requires pending != [] && RangesOk(pending) && grant > headLen + 2
    ensures PendingAfter(pending, counted, headLen, grant) == pending
       <==> counted == 0 && headLen + 2 + (pending[0].hi - pending[0].lo + 1) <= grant
  {
    var after := PendingAfter(pending, counted, headLen, grant);
    if headLen + 2 + (pending[0].hi - pending[0].lo + 1) > grant {
      assert after[0] != pending[0];
    }
  }

  /** The calls made under a sequence of grants, until nothing is pending. */
  datatype Progress = Progress(pending: seq<Range>, pieces: seq<Piece>)

  ghost predicate GrantsOk(grants: seq<nat>, headLen: nat) {
    forall i :: 0 <= i < |grants| ==> grants[i] > headLen + 2
  }

  function Serve(pending: seq<Range>, counted: nat, headLen: nat, grants: seq<nat>): (p: Progress)
    requires RangesOk(pending) && GrantsOk(grants, headLen)
    ensures RangesOk(p.pending)
    decreases |grants|
  {
    if grants == [] then Progress(pending, [])
    else
      var n := |grants| - 1;
      var p := Serve(pending, counted, headLen, grants[..n]);
      if p.pending == [] then p
      else Progress(PendingAfter(p.pending, counted, headLen, grants[n]),
                    p.pieces + [NextPiece(p.pending, headLen, grants[n])])
  }

  /** Resegmentation tiles the request: whatever the grants, what has been sent
      followed by what is pending is what was asked for, in order, without gap or
      overlap; every grant brings the end nearer. */
  lemma {:induction false} ServeTiles(pending: seq<Range>, counted: nat, headLen: nat, grants: seq<nat>)
    requires RangesOk(pending) && GrantsOk(grants, headLen) && counted > 0
    ensures var p := Serve(pending, counted, headLen, grants);
            && Sent(p.pieces) + Wanted(p.pending) == Wanted(pending)
            && (p.pending == [] || |Wanted(p.pending)| + |grants| <= |Wanted(pending)|)
    decreases |grants|
  {
    if grants != [] {
      var n := |grants| - 1;
      ServeTiles(pending, counted, headLen, grants[..n]);
      var p := Serve(pending, counted, headLen, grants[..n]);
      if p.pending != [] {
        PieceIsFront(p.pending, counted, headLen, grants[n]);
        var piece := NextPiece(p.pending, headLen, grants[n]);
        assert (p.pieces + [piece])[..|p.pieces|] == p.pieces;
      }
    }
  }

  lemma WantedEmpty(pending: seq<Range>)
    requires RangesOk(pending)
    ensures pending == [] <==> Wanted(pending) == []
  {
    if pending != [] {
      assert pending[0].lo <= pending[0].hi;
    }
  }

  /** So enough grants finish the request, and then exactly it has been sent. */
  lemma ServeFinishes(pending: seq<Range>, counted: nat, headLen: nat, grants: seq<nat>)
    requires RangesOk(pending) && GrantsOk(grants, headLen) && counted > 0 && |grants| >= |Wanted(pending)|
    ensures var p := Serve(pending, counted, headLen, grants);
            p.pending == [] && Sent(p.pieces) == Wanted(pending)
  {
    ServeTiles(pending, counted, headLen, grants);
    var p := Serve(pending, counted, headLen, grants);
    WantedEmpty(p.pending);
  }

  /** A request whose ranges were not counted keeps all of them, with their
      ends, whatever the grants. */
  lemma {:induction false} UncountedStays(pending: seq<Range>, headLen: nat, grants: seq<nat>)
    requires RangesOk(pending) && GrantsOk(grants, headLen)
    ensures var left := Serve(pending, 0, headLen, grants).pending;
            |left| == |pending| && forall i :: 0 <= i < |pending| ==> left[i].hi == pending[i].hi
    decreases |grants|
  {
    if grants != [] {
      UncountedStays(pending, headLen, grants[..|grants| - 1]);
    }
  }

  /** Enough grants finish a request if and only if its ranges were counted. */
  lemma FinishesIffCounted(pending: seq<Range>, counted: nat, headLen: nat, grants: seq<nat>)
    requires pending != [] && RangesOk(pending) && GrantsOk(grants, headLen) && |grants| >= |Wanted(pending)|
    ensures Serve(pending, counted, headLen, grants).pending == [] <==> counted > 0
  {
    if counted > 0 {
      ServeFinishes(pending, counted, headLen, grants);
    } else {
      UncountedStays(pending, headLen, grants);
    }
  }

  /** A PDU of `size` octets that is negatively acknowledged as a whole gets the
      range from 0 to `size` and no count: it stays pending under any grants. */
  lemma WholePduStays(size: nat, headLen: nat, grants: seq<nat>)
    requires GrantsOk(grants, headLen)
    ensures var left := Serve([Range(0, size)], 0, headLen, grants).pending;
            |left| == 1 && left[0].hi == size
  {
    UncountedStays([Range(0, size)], headLen, grants);
  }

  // ----- where the copies reach -----

  /** The octets at these positions of the data field lie in a packet of `size` octets. */
  ghost predicate Inside(ps: seq<int>, headLen: nat, size: nat) {
    forall i :: 0 <= i < |ps| ==> headLen + ps[i] < size
  }

  ghost predicate RangesInside(pending: seq<Range>, headLen: nat, size: nat) {
    forall i :: 0 <= i < |pending| ==> headLen + pending[i].hi < size
  }

  lemma {:induction false} WantedInside(pending: seq<Range>, headLen: nat, size: nat)
    requires RangesOk(pending)
    ensures Inside(Wanted(pending), headLen, size) <==> RangesInside(pending, headLen, size)
    decreases |pending|
  {
    if pending != [] {
      var first, rest := Positions(pending[0].lo, pending[0].hi - pending[0].lo + 1), pending[1..];
      WantedInside(rest, headLen, size);
      InsideConcat(first, Wanted(rest), headLen, size);
      assert first[|first| - 1] == pending[0].hi;
      assert RangesInside(pending, headLen, size) <==>
             headLen + pending[0].hi < size && RangesInside(rest, headLen, size) by {
        assert forall i :: 0 < i < |pending| ==> pending[i] == rest[i - 1];
        assert forall i :: 0 <= i < |rest| ==> rest[i] == pending[i + 1];
      }
    }
  }

  lemma InsideConcat(a: seq<int>, b: seq<int>, headLen: nat, size: nat)
    ensures Inside(a + b, headLen, size) <==> Inside(a, headLen, size) && Inside(b, headLen, size)
  {
    if Inside(a + b, headLen, size) {
      assert forall i :: 0 <= i < |a| ==> a[i] == (a + b)[i];
      assert forall i :: 0 <= i < |b| ==> b[i] == (a + b)[|a| + i];
    }
  }

  /** The copies for a request that is served in full stay inside the packet if
      and only if every range ends inside it. */
  lemma CopiesInside(pending: seq<Range>, counted: nat, headLen: nat, grants: seq<nat>, size: nat)
    requires RangesOk(pending) && GrantsOk(grants, headLen) && counted > 0 && |grants| >= |Wanted(pending)|
    ensures Inside(Sent(Serve(pending, counted, headLen, grants).pieces), headLen, size)
       <==> RangesInside(pending, headLen, size)
  {
    ServeFinishes(pending, counted, headLen, grants);
    WantedInside(pending, headLen, size);
  }

  /** A piece of a request that was not counted ends with its first range, or
      moves the beginning of it up. */
  lemma PieceUpTo(pending: seq<Range>, headLen: nat, grant: nat)
    requires pending != [] && RangesOk(pending) && grant > headLen + 2
    ensures var p, after := NextPiece(pending, headLen, grant), PendingAfter(pending, 0, headLen, grant);
            && (forall x :: x in Positions(p.so, p.len) ==> x <= pending[0].hi)
            && after != [] && after[0].hi == pending[0].hi
            && (pending[0].hi in Positions(p.so, p.len) || after[0].lo > pending[0].lo)
  {
    var p := NextPiece(pending, headLen, grant);
    var ps := Positions(p.so, p.len);
    assert ps[p.len - 1] in ps;
  }

  lemma {:induction false} SentUpTo(pending: seq<Range>, headLen: nat, grants: seq<nat>)
    requires pending != [] && RangesOk(pending) && GrantsOk(grants, headLen)
    ensures var p, r := Serve(pending, 0, headLen, grants), pending[0];
            && (forall x :: x in Sent(p.pieces) ==> x <= r.hi)
            && p.pending != [] && p.pending[0].hi == r.hi
            && (r.hi in Sent(p.pieces) || p.pending[0].lo >= r.lo + |grants|)
    decreases |grants|
  {
    if grants != [] {
      var n := |grants| - 1;
      var p := Serve(pending, 0, headLen, grants[..n]);
      SentUpTo(pending, headLen, grants[..n]);
      var piece := NextPiece(p.pending, headLen, grants[n]);
      hide NextPiece, PendingAfter, Positions;
      assert (p.pieces + [piece])[..|p.pieces|] == p.pieces;
      PieceUpTo(p.pending, headLen, grants[n]);
    }
  }

  /** For a request that was not counted the copies are those of its first range,
      which is never finished: they stay inside the packet if and only if that
      range does. */
  lemma UncountedCopiesInside(pending: seq<Range>, headLen: nat, grants: seq<nat>, size: nat)
    requires pending != [] && RangesOk(pending) && GrantsOk(grants, headLen)
    requires |grants| > pending[0].hi - pending[0].lo
    ensures Inside(Sent(Serve(pending, 0, headLen, grants).pieces), headLen, size)
       <==> headLen + pending[0].hi < size
  {
    SentUpTo(pending, headLen, grants);
    var ps := Sent(Serve(pending, 0, headLen, grants).pieces);
    assert pending[0].hi in ps;
    var i :| 0 <= i < |ps| && ps[i] == pending[0].hi;
    assert forall j :: 0 <= j < |ps| ==> ps[j] in ps;
  }

  /** A PDU of `size` octets that is negatively acknowledged as a whole: its
      range, from 0 to `size` and not counted, takes the copies out of the packet. */
  lemma WholePduLeaves(size: nat, headLen: nat, grants: seq<nat>)
    requires GrantsOk(grants, headLen) && |grants| > size
    ensures !Inside(Sent(Serve([Range(0, size)], 0, headLen, grants).pieces), headLen, size)
  {
    UncountedCopiesInside([Range(0, size)], headLen, grants, size);
  }

  /** So does a range up to the end of the PDU that a status report asks for: its
      end is recorded as `size`. */
  lemma StatusEndLeaves(pending: seq<Range>, counted: nat, headLen: nat, grants: seq<nat>, size: nat)
    requires pending != [] && RangesOk(pending) && pending[|pending| - 1].hi == size
    requires GrantsOk(grants, headLen) && counted > 0 && |grants| >= |Wanted(pending)|
    ensures !Inside(Sent(Serve(pending, counted, headLen, grants).pieces), headLen, size)
  {
    CopiesInside(pending, counted, headLen, grants, size);
  }

  // ----- further requests -----

  /** The ranges at the front once a status report has asked for one more: it is
      recorded at place `counted`, which lies behind them when some have been
      retired, and on top of a range that was not counted. */
  function Noted(pending: seq<Range>, counted: nat, r: Range): seq<Range> {
    if counted == 0 then [r] else if |pending| == counted then pending + [r] else pending
  }

  lemma {:induction false} WantedConcat(a: seq<Range>, b: seq<Range>)
    requires RangesOk(a) && RangesOk(b)
    ensures RangesOk(a + b) && Wanted(a + b) == Wanted(a) + Wanted(b)
    decreases |a|
  {
    hide Positions;
    if a == [] {
      assert a + b == b;
    } else {
      WantedConcat(a[1..], b);
      assert (a + b)[1..] == a[1..] + b;
    }
  }

  /** A further request is served, behind what is pending, if and only if no
      range of the PDU has been retired before it. */
  lemma FurtherRequest(pending: seq<Range>, counted: nat, r: Range, headLen: nat, grants: seq<nat>)
    requires 0 < counted && |pending| <= counted && RangesOk(pending) && 0 <= r.lo <= r.hi
    requires GrantsOk(grants, headLen) && |grants| >= |Wanted(pending)| + (r.hi - r.lo + 1)
    ensures RangesOk(Noted(pending, counted, r))
    ensures var p := Serve(Noted(pending, counted, r), counted + 1, headLen, grants);
            Sent(p.pieces) == Wanted(pending) + Wanted([r]) <==> |pending| == counted
  {
    WantedConcat(pending, [r]);
    ServeFinishes(Noted(pending, counted, r), counted + 1, headLen, grants);
    WantedEmpty([r]);
  }

  // ----- the code -----

  class AmBuffer {
    var pkt: Bytes
    var headLen: nat
    const segStart: array<int>
    const segEnd: array<int>
    var segnum: nat
    ghost var pending: seq<Range>

    /** The pending ranges are at the front of the arrays, with a -1 behind them.
        Behind that there may be ranges that will not be served. */
    ghost predicate Valid()
      reads this, segStart, segEnd
    {
      && segStart != segEnd && segStart.Length == segEnd.Length == SEG_NUM_MAX
      && |pending| <= SEG_NUM_MAX && segnum <= SEG_NUM_MAX
      && (|pending| <= segnum || (segnum == 0 && |pending| == 1))
      && RangesOk(pending)
      && (forall i :: 0 <= i < |pending| ==> segStart[i] == pending[i].lo && segEnd[i] == pending[i].hi)
      && (|pending| < SEG_NUM_MAX ==> segStart[|pending|] == -1)
      && (forall i :: segnum <= i < SEG_NUM_MAX && i >= |pending| ==> segStart[i] == -1)
    }

    /** One segment within `sizeFromMac`, if a range is pending: its offset, its
        length and its data, as far as the packet holds it. */
    method Resegment(sizeFromMac: nat) returns (made: bool, so: int, len: nat, data: Option<Bytes>)
      requires Valid() && sizeFromMac > headLen + 2
      modifies this`pending, segStart, segEnd
      ensures Valid() && (made <==> old(pending) != [])
      ensures !made ==> pending == [] && segStart[..] == old(segStart[..]) && segEnd[..] == old(segEnd[..])
      ensures made ==>
              var p := NextPiece(old(pending), headLen, sizeFromMac);
              && so == p.so && len == p.len
              && data == if headLen + so + len <= |pkt| then Some(pkt[headLen + so..][..len]) else None
      ensures made ==> pending == PendingAfter(old(pending), segnum, headLen, sizeFromMac)
    {
      made, so, len, data := segStart[0] != -1, 0, 0, None;
      if !made {
        return;
      }
      assert pending != [] && pending[0] == Range(segStart[0], segEnd[0]);
      var start, end := segStart[0], segEnd[0];
      var segHeadLen := headLen + 2;
      var dataLen := end - start + 1;
      var retxSize := segHeadLen + dataLen;
      var count := segnum;
      so := start;
      if retxSize <= sizeFromMac {
        len := dataLen;
        if count == 1 {
          segStart[0], segEnd[0] := -1, -1;
          pending := pending[1..];
        } else if count > 1 {
          ShiftDown(count);
        }
      } else {
        len := sizeFromMac - segHeadLen;
        segStart[0] := segStart[0] + len;
        pending := [Range(pending[0].lo + len, pending[0].hi)] + pending[1..];
      }
      data := if headLen + so + len <= |pkt| then Some(pkt[headLen + so..][..len]) else None;
    }

    /** Move the ranges down by one place; the last place becomes free. */
    method ShiftDown(count: nat)
      requires Valid() && pending != [] && 1 < count == segnum
      modifies this`pending, segStart, segEnd
      ensures Valid() && pending == old(pending)[1..]
    {
      ghost var starts, ends := segStart[..], segEnd[..];
      var i := 0;
      while i < count - 1
        invariant i <= count - 1 && pending == old(pending)
        invariant forall k :: 0 <= k < i ==> segStart[k] == starts[k + 1] && segEnd[k] == ends[k + 1]
        invariant forall k :: i <= k < SEG_NUM_MAX ==> segStart[k] == starts[k] && segEnd[k] == ends[k]
      {
        segStart[i] := segStart[i + 1];
        segEnd[i] := segEnd[i + 1];
        i := i + 1;
      }
      segStart[count - 1] := -1;
      segEnd[count - 1] := -1;
      pending := pending[1..];
    }

    /** A status report asks for the octets from `lo` to `hi`. */
    method NoteRange(lo: int, hi: int)
      requires Valid() && segnum < SEG_NUM_MAX && 0 <= lo <= hi
      modifies this`pending, this`segnum, segStart, segEnd
      ensures Valid()
      ensures var known := exists i :: 0 <= i < old(segnum) && old(segStart[i]) == lo && old(segEnd[i]) == hi;
              if known then pending == old(pending) && segnum == old(segnum)
              else pending == Noted(old(pending), old(segnum), Range(lo, hi)) && segnum == old(segnum) + 1
    {
      var i := 0;
      while i < segnum
        invariant i <= segnum
        invariant forall k :: 0 <= k < i ==> segStart[k] != lo || segEnd[k] != hi
      {
        if segStart[i] == lo && segEnd[i] == hi {
          break;
        }
        i := i + 1;
      }
      if i == segnum {
        segStart[segnum], segEnd[segnum] := lo, hi;
        pending := Noted(pending, segnum, Range(lo, hi));
        segnum := segnum + 1;
      }
    }
  }
}
