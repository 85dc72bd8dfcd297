/** The byte ranges of an AMD PDU that have been received as segments. The
    buffer keeps them in two arrays, sorted and apart; an arriving segment is
    merged in by a walk with many cases. */
module SegmentRanges {
  import opened Wire

  // ----- ranges as a sequence -----

  /** The octets from `lo` up to but not including `hi`. */
  datatype Span = Span(lo: int, hi: int)

  /** Sorted, none empty, and never touching. */
  ghost predicate Apart(w: seq<Span>) {
    && (forall i :: 0 <= i < |w| ==> 0 <= w[i].lo < w[i].hi)
    && (forall i, j :: 0 <= i < j < |w| ==> w[i].hi < w[j].lo)
  }

  ghost predicate Covers(w: seq<Span>, x: int) {
    exists i :: 0 <= i < |w| && w[i].lo <= x < w[i].hi
  }

  /** The first `n` ranges end before `p` and the next one does not. */
  ghost predicate SplitsLeft(w: seq<Span>, p: int, n: nat) {
    n <= |w| && (forall i :: 0 <= i < n ==> w[i].hi < p) && (n < |w| ==> w[n].hi >= p)
  }

  /** The first `n` ranges begin no later than `q` and the next one does not. */
  ghost predicate SplitsReach(w: seq<Span>, q: int, n: nat) {
    n <= |w| && (forall i :: 0 <= i < n ==> w[i].lo <= q) && (n < |w| ==> w[n].lo > q)
  }

  lemma {:induction false} SplitLeft(w: seq<Span>, p: int) returns (n: nat)
    ensures SplitsLeft(w, p, n)
  {
    n := 0;
    while n < |w| && w[n].hi < p
      invariant n <= |w| && forall i :: 0 <= i < n ==> w[i].hi < p
    {
      n := n + 1;
    }
  }

  lemma {:induction false} SplitReach(w: seq<Span>, q: int) returns (n: nat)
    ensures SplitsReach(w, q, n)
  {
    n := 0;
    while n < |w| && w[n].lo <= q
      invariant n <= |w| && forall i :: 0 <= i < n ==> w[i].lo <= q
    {
      n := n + 1;
    }
  }

  lemma LeftExists(w: seq<Span>, p: int)
    ensures exists n: nat :: SplitsLeft(w, p, n)
  {
    var n := SplitLeft(w, p);
  }

  lemma ReachExists(w: seq<Span>, q: int)
    ensures exists n: nat :: SplitsReach(w, q, n)
  {
    var n := SplitReach(w, q);
  }

  /** How many ranges at the front end before `p`. */
  ghost function LeftOf(w: seq<Span>, p: int): (n: nat)
    ensures SplitsLeft(w, p, n)
  {
    LeftExists(w, p);
    var n: nat :| SplitsLeft(w, p, n);
    n
  }

  /** How many ranges at the front begin no later than `q`. */
  ghost function ReachOf(w: seq<Span>, q: int): (n: nat)
    ensures SplitsReach(w, q, n)
  {
    ReachExists(w, q);
    var n: nat :| SplitsReach(w, q, n);
    n
  }

  lemma LeftOfIs(w: seq<Span>, p: int, n: nat)
    requires SplitsLeft(w, p, n)
    ensures LeftOf(w, p) == n
  {
  }

  lemma ReachOfIs(w: seq<Span>, q: int, n: nat)
    requires SplitsReach(w, q, n)
    ensures ReachOf(w, q) == n
  {
  }

  function Min(a: int, b: int): int { if a < b then a else b }
  function Max(a: int, b: int): int { if a > b then a else b }

  /** [p, q) joined with the ranges from `a` up to `b`, which it meets. */
  ghost function Joined(w: seq<Span>, p: int, q: int, a: nat, b: nat): Span
    requires a <= b <= |w|
  {
    if a < b then Span(Min(p, w[a].lo), Max(q, w[b - 1].hi)) else Span(p, q)
  }

  /** The ranges with [p, q) added: those it meets are joined into one. */
  ghost function Merged(w: seq<Span>, p: int, q: int): seq<Span> {
    var a, b := LeftOf(w, p), ReachOf(w, q);
    if a <= b then w[..a] + [Joined(w, p, q, a, b)] + w[b..] else w
  }

  lemma MeetingRanges(w: seq<Span>, p: int, q: int)
    requires Apart(w) && p < q
    ensures LeftOf(w, p) <= ReachOf(w, q)
  {
    var a := LeftOf(w, p);
    forall i | 0 <= i < a ensures w[i].lo <= q {
      assert w[i].lo < w[i].hi < p;
    }
  }

  lemma JoinedApart(w: seq<Span>, p: int, q: int)
    requires Apart(w) && 0 <= p < q && LeftOf(w, p) <= ReachOf(w, q)
    ensures var a, b := LeftOf(w, p), ReachOf(w, q);
            var m := Joined(w, p, q, a, b);
            && 0 <= m.lo < m.hi
            && (forall i :: 0 <= i < a ==> w[i].hi < m.lo)
            && (forall j :: b <= j < |w| ==> m.hi < w[j].lo)
  {
    var a, b := LeftOf(w, p), ReachOf(w, q);
    var m := Joined(w, p, q, a, b);
    forall j | b <= j < |w| ensures m.hi < w[j].lo {
      assert b < j ==> w[b].hi < w[j].lo;
      assert a < b ==> w[b - 1].hi < w[j].lo;
    }
    forall i | 0 <= i < a ensures w[i].hi < m.lo {
      assert a < b ==> w[i].hi < w[a].lo;
    }
  }

  /** Adding a range keeps the ranges sorted and apart. */
  lemma MergedApart(w: seq<Span>, p: int, q: int)
    requires Apart(w) && 0 <= p < q
    ensures Apart(Merged(w, p, q))
  {
    MeetingRanges(w, p, q);
    JoinedApart(w, p, q);
    var a, b := LeftOf(w, p), ReachOf(w, q);
    SplicedApart(w, a, Joined(w, p, q, a, b), b);
  }

  lemma SplicedApart(w: seq<Span>, a: nat, m: Span, b: nat)
    requires Apart(w) && a <= b <= |w| && 0 <= m.lo < m.hi
    requires forall i :: 0 <= i < a ==> w[i].hi < m.lo
    requires forall j :: b <= j < |w| ==> m.hi < w[j].lo
    ensures Apart(w[..a] + [m] + w[b..])
  {
    var r := w[..a] + [m] + w[b..];
    forall j | 0 <= j < |r| ensures r[j] == SpliceAt(w, a, m, b, j) {
    }
    forall i, j | 0 <= i < j < |r| ensures r[i].hi < r[j].lo {
      assert r[i] == SpliceAt(w, a, m, b, i) && r[j] == SpliceAt(w, a, m, b, j);
    }
  }

  /** It covers exactly the octets that were covered and the new ones. */
  lemma MergedCovers(w: seq<Span>, p: int, q: int, x: int)
    requires Apart(w) && p < q
    ensures Covers(Merged(w, p, q), x) <==> Covers(w, x) || p <= x < q
  {
    MeetingRanges(w, p, q);
    var a, b := LeftOf(w, p), ReachOf(w, q);
    MergedCoversOld(w, p, q, a, b, x);
    MergedCoversOnly(w, p, q, a, b, x);
  }

  lemma MergedCoversOld(w: seq<Span>, p: int, q: int, a: nat, b: nat, x: int)
    requires Apart(w) && p < q && a <= b <= |w|
    ensures Covers(w, x) || p <= x < q ==> Covers(w[..a] + [Joined(w, p, q, a, b)] + w[b..], x)
  {
    var m := Joined(w, p, q, a, b);
    if p <= x < q {
      CoversSplice(w, a, m, b, a, x);
    } else if Covers(w, x) {
      var i :| 0 <= i < |w| && w[i].lo <= x < w[i].hi;
      if a <= i < b {
        InJoined(w, p, q, a, b, i);
      }
      CoversSplice(w, a, m, b, if i < a then i else if i < b then a else a + 1 + (i - b), x);
    }
  }

  /** The `j`-th range after splicing. */
  function SpliceAt(w: seq<Span>, a: nat, m: Span, b: nat, j: nat): Span
    requires a <= b <= |w| && j < a + 1 + (|w| - b)
  {
    if j < a then w[j] else if j == a then m else w[b + (j - a - 1)]
  }

  lemma CoversSplice(w: seq<Span>, a: nat, m: Span, b: nat, j: nat, x: int)
    requires a <= b <= |w| && j < a + 1 + (|w| - b)
    requires SpliceAt(w, a, m, b, j).lo <= x < SpliceAt(w, a, m, b, j).hi
    ensures Covers(w[..a] + [m] + w[b..], x)
  {
    var r := w[..a] + [m] + w[b..];
    assert r[j] == SpliceAt(w, a, m, b, j);
  }

  lemma InJoined(w: seq<Span>, p: int, q: int, a: nat, b: nat, i: nat)
    requires Apart(w) && a <= i < b <= |w|
    ensures Joined(w, p, q, a, b).lo <= w[i].lo && w[i].hi <= Joined(w, p, q, a, b).hi
  {
    assert a < i ==> w[a].hi < w[i].lo;
    assert i < b - 1 ==> w[i].hi < w[b - 1].lo;
  }

  lemma MergedCoversOnly(w: seq<Span>, p: int, q: int, a: nat, b: nat, x: int)
    requires Apart(w) && p < q && a == LeftOf(w, p) && b == ReachOf(w, q) && a <= b
    ensures Covers(w[..a] + [Joined(w, p, q, a, b)] + w[b..], x) ==> Covers(w, x) || p <= x < q
  {
    var m := Joined(w, p, q, a, b);
    SpliceCovers(w, a, m, b, x);
    if m.lo <= x < m.hi {
      JoinedCovers(w, p, q, a, b, x);
    }
  }

  lemma SpliceCovers(w: seq<Span>, a: nat, m: Span, b: nat, x: int)
    requires a <= b <= |w|
    ensures Covers(w[..a] + [m] + w[b..], x) ==> Covers(w, x) || m.lo <= x < m.hi
  {
    var r := w[..a] + [m] + w[b..];
    if Covers(r, x) {
      var i :| 0 <= i < |r| && r[i].lo <= x < r[i].hi;
      assert r[i] == SpliceAt(w, a, m, b, i);
      if i != a {
        var k := if i < a then i else b + (i - a - 1);
        assert w[k].lo <= x < w[k].hi;
      }
    }
  }

  /** An octet of the joined range was covered before or is new. */
  lemma JoinedCovers(w: seq<Span>, p: int, q: int, a: nat, b: nat, x: int)
    requires a == LeftOf(w, p) && b == ReachOf(w, q) && a <= b
    requires Joined(w, p, q, a, b).lo <= x < Joined(w, p, q, a, b).hi
    ensures Covers(w, x) || p <= x < q
  {
    if x < p {
      assert w[a].lo <= x < w[a].hi;
    } else if x >= q {
      assert w[b - 1].lo <= x < w[b - 1].hi;
    }
  }

  // ----- what the code does with an arriving segment -----

  ghost predicate Contained(w: seq<Span>, p: int, q: int) {
    exists i :: 0 <= i < |w| && w[i].lo <= p && q <= w[i].hi
  }

  /** The segments the code records: those that begin in or behind the first
      range, or end at or behind the last one, or begin before the first and end
      before the second without just touching the first. `next` is what the code
      takes for the start of the second range: the content of `segStart[1]`, also
      when there is one range only. */
  ghost predicate Recorded(w: seq<Span>, p: int, q: int, next: int)
    requires w != []
  {
    p >= w[0].lo || q >= w[|w| - 1].hi || (q < next && q != w[0].lo)
  }

  /** The walk as printed forgets to step over the two ranges it has joined when
      a segment reaches from one range into a later one. */
  ghost predicate Bridges(w: seq<Span>, p: int, q: int)
    requires w != []
  {
    var a, b := LeftOf(w, p), ReachOf(w, q);
    q < w[|w| - 1].hi && a + 1 < b && q <= w[b - 1].hi && (w[a].lo < p || (a == 0 && w[a].lo == p))
  }

  /** What becomes of the ranges. `stepOver` says whether the two joined ranges
      are stepped over, as the neighbouring case does. */
  ghost function Assembled(w: seq<Span>, p: int, q: int, stepOver: bool, next: int): seq<Span>
    requires w != []
  {
    var a, b := LeftOf(w, p), ReachOf(w, q);
    if !Recorded(w, p, q, next) then w
    else if !stepOver && Bridges(w, p, q) then w[..a] + w[b - 1..]
    else Merged(w, p, q)
  }

  lemma NotHeldBy(w: seq<Span>, p: int, q: int, i: nat)
    requires i < |w| && !Contained(w, p, q)
    ensures p < w[i].lo || w[i].hi < q
  {
  }

  lemma PlainMerge(w: seq<Span>, p: int, q: int, stepOver: bool, next: int)
    requires w != []
    ensures Recorded(w, p, q, next) && !Bridges(w, p, q) ==> Assembled(w, p, q, stepOver, next) == Merged(w, p, q)
    ensures !Recorded(w, p, q, next) ==> Assembled(w, p, q, stepOver, next) == w
  {
  }

  lemma ContainedMerges(w: seq<Span>, p: int, q: int, i: nat)
    requires Apart(w) && p < q && i < |w| && w[i].lo <= p && q <= w[i].hi
    ensures Merged(w, p, q) == w
  {
    EndsAt(w, p, q, i, i + 1);
    assert Joined(w, p, q, i, i + 1) == w[i];
    assert w == w[..i] + [w[i]] + w[i + 1..];
  }

  /** Reading off which ranges a segment meets: `a` is the first that does not
      end before it, `b` the first that begins behind it. */
  lemma EndsAt(w: seq<Span>, p: int, q: int, a: nat, b: nat)
    requires Apart(w) && a <= |w| && b <= |w|
    requires (a > 0 ==> w[a - 1].hi < p) && (a < |w| ==> w[a].hi >= p)
    requires (b > 0 ==> w[b - 1].lo <= q) && (b < |w| ==> w[b].lo > q)
    ensures LeftOf(w, p) == a && ReachOf(w, q) == b
  {
    forall k | 0 <= k < a ensures w[k].hi < p {
      assert k < a - 1 ==> w[k].hi < w[a - 1].lo;
    }
    LeftOfIs(w, p, a);
    forall k | 0 <= k < b ensures w[k].lo <= q {
      assert k < b - 1 ==> w[k].hi < w[b - 1].lo;
    }
    ReachOfIs(w, q, b);
  }

  /** The ranges stay sorted and apart whatever arrives. */
  lemma AssembledApart(w: seq<Span>, p: int, q: int, stepOver: bool, next: int)
    requires Apart(w) && w != [] && 0 <= p < q
    ensures Apart(Assembled(w, p, q, stepOver, next))
  {
    if Recorded(w, p, q, next) {
      if !stepOver && Bridges(w, p, q) {
        CutOutApart(w, LeftOf(w, p), ReachOf(w, q) - 1);
      } else {
        MergedApart(w, p, q);
      }
    }
  }

  lemma CutOutApart(w: seq<Span>, a: nat, b: nat)
    requires Apart(w) && a <= b <= |w|
    ensures Apart(w[..a] + w[b..])
  {
    var r := w[..a] + w[b..];
    forall i | 0 <= i < |r| ensures r[i] == w[if i < a then i else b + (i - a)] {
    }
  }

  /** The received-range set: what is recorded afterwards is exactly what was
      recorded together with the segment, if and only if the segment is one the
      code records and, without the step over, does not bridge two ranges. */
  lemma AssembledExact(w: seq<Span>, p: int, q: int, stepOver: bool, next: int)
    requires Apart(w) && w != [] && 0 <= p < q
    ensures (forall x :: Covers(Assembled(w, p, q, stepOver, next), x) <==> Covers(w, x) || p <= x < q)
       <==> Recorded(w, p, q, next) && (stepOver || !Bridges(w, p, q))
  {
    if !Recorded(w, p, q, next) {
      NotRecordedStart(w, p, q, next);
    } else if !stepOver && Bridges(w, p, q) {
      BridgeLoses(w, p, q);
    } else {
      forall x ensures Covers(Merged(w, p, q), x) <==> Covers(w, x) || p <= x < q {
        MergedCovers(w, p, q, x);
      }
    }
  }

  lemma NotRecordedStart(w: seq<Span>, p: int, q: int, next: int)
    requires Apart(w) && w != [] && p < q && !Recorded(w, p, q, next)
    ensures !Covers(w, p)
  {
    assert forall i :: 0 < i < |w| ==> w[0].hi < w[i].lo;
  }

  /** Without the step over, the beginning of the range the segment starts in is forgotten. */
  lemma BridgeLoses(w: seq<Span>, p: int, q: int)
    requires Apart(w) && w != [] && p < q && Bridges(w, p, q)
    ensures var a, b := LeftOf(w, p), ReachOf(w, q);
            Covers(w, w[a].lo) && !Covers(w[..a] + w[b - 1..], w[a].lo)
  {
    var a, b := LeftOf(w, p), ReachOf(w, q);
    assert w[a].lo <= w[a].lo < w[a].hi;
    CutOutLoses(w, a, b - 1);
  }

  lemma CutOutLoses(w: seq<Span>, a: nat, b: nat)
    requires Apart(w) && a < b <= |w|
    ensures !Covers(w[..a] + w[b..], w[a].lo)
  {
    var r, x := w[..a] + w[b..], w[a].lo;
    forall i | 0 <= i < |r| ensures !(r[i].lo <= x < r[i].hi) {
      var k := if i < a then i else b + (i - a);
      assert r[i] == w[k];
      assert k < a ==> w[k].hi < w[a].lo;
      assert k > a ==> w[a].hi < w[k].lo;
    }
  }

  /** With one range the outcome for a segment in front of it hangs on the content
      of `segStart[1]`, which nothing has written. */
  lemma SingleRangeExact(r: Span, p: int, q: int, stepOver: bool, next: int)
    requires 0 <= r.lo < r.hi && 0 <= p < q
    ensures (forall x :: Covers(Assembled([r], p, q, stepOver, next), x) <==> Covers([r], x) || p <= x < q)
       <==> p >= r.lo || q >= r.hi || (q < next && q != r.lo)
  {
    AssembledExact([r], p, q, stepOver, next);
  }

  /** A segment in front of the only range is lost when `segStart[1]` happens to be -1. */
  lemma SingleRangeFails()
    ensures Assembled([Span(10, 20)], 0, 5, true, -1) == [Span(10, 20)]
    ensures !Covers([Span(10, 20)], 0)
  {
  }

  /** Case 5 as printed: [5, 25) bridges [0, 10) and [20, 30), and [0, 10) is forgotten. */
  lemma BridgeFails()
    ensures var w := [Span(0, 10), Span(20, 30), Span(40, 50)];
            && Bridges(w, 5, 25)
            && Assembled(w, 5, 25, false, 20) == [Span(20, 30), Span(40, 50)]
            && Covers(w, 0) && !Covers([Span(20, 30), Span(40, 50)], 0)
  {
    hide Assembled, Bridges;
    var w := [Span(0, 10), Span(20, 30), Span(40, 50)];
    InsideInsideBridges(w, 5, 25, 0, 1);
    InsideInsideLost(w, 5, 25, 0, 1, 20);
    assert w[..0] + w[1..] == [Span(20, 30), Span(40, 50)];
    assert w[0].lo <= 0 < w[0].hi;
  }

  /** [0, 35) begins before the first range and ends in the second: none of the
      cases takes it. */
  lemma UnrecordedFails(stepOver: bool)
    ensures var w := [Span(10, 20), Span(30, 40), Span(50, 60)];
            !Recorded(w, 0, 35, 30) && Assembled(w, 0, 35, stepOver, 30) == w && !Covers(w, 0)
  {
  }

  // ----- the cases of the walk -----

  lemma Firsts(w: seq<Span>, i: nat)
    requires Apart(w) && i < |w|
    ensures w[0].lo <= w[i].lo && (i > 0 ==> w[i - 1].hi < w[i].lo) && w[i].hi <= w[|w| - 1].hi
    ensures i + 1 < |w| ==> w[i].hi < w[i + 1].lo
  {
    assert i > 0 ==> w[0].hi < w[i].lo;
    assert i < |w| - 1 ==> w[i].hi < w[|w| - 1].lo;
  }

  /** The segment meets the ranges from `a` up to `b`, and is recorded. */
  ghost predicate Meets(w: seq<Span>, p: int, q: int, a: nat, b: nat, next: int) {
    w != [] && a <= b <= |w| && LeftOf(w, p) == a && ReachOf(w, q) == b && Recorded(w, p, q, next)
  }

  lemma AssembledPlain(w: seq<Span>, p: int, q: int, a: nat, b: nat, stepOver: bool, next: int)
    requires Meets(w, p, q, a, b, next) && (stepOver || !Bridges(w, p, q))
    ensures Assembled(w, p, q, stepOver, next) == w[..a] + [Joined(w, p, q, a, b)] + w[b..]
  {
  }

  lemma JoinedIs(w: seq<Span>, p: int, q: int, a: nat, j: nat, lo: int, hi: int)
    requires a <= j < |w| && lo == Min(p, w[a].lo) && hi == Max(q, w[j].hi)
    ensures Joined(w, p, q, a, j + 1) == Span(lo, hi)
  {
  }

  lemma AssembledBridge(w: seq<Span>, p: int, q: int, a: nat, b: nat, next: int)
    requires Meets(w, p, q, a, b, next) && Bridges(w, p, q)
    ensures Assembled(w, p, q, false, next) == w[..a] + w[b - 1..]
  {
  }

  /** Case 5: the segment begins in range `i` and ends in range `j`. */
  lemma InsideInside(w: seq<Span>, p: int, q: int, i: nat, j: nat, next: int)
    requires Apart(w) && i < j < |w| && w[i].lo <= p <= w[i].hi < q < w[|w| - 1].hi
    requires (i > 0 ==> w[i].lo < p) && w[j].lo <= q <= w[j].hi
    ensures Assembled(w, p, q, true, next) == w[..i] + [Span(w[i].lo, w[j].hi)] + w[j + 1..]
  {
    hide Assembled, Joined, Merged, Meets, Bridges;
    InsideInsideMeets(w, p, q, i, j, next);
    JoinedIs(w, p, q, i, j, w[i].lo, w[j].hi);
    AssembledPlain(w, p, q, i, j + 1, true, next);
  }

  /** Case 5 without the step over. */
  lemma InsideInsideLost(w: seq<Span>, p: int, q: int, i: nat, j: nat, next: int)
    requires Apart(w) && i < j < |w| && w[i].lo <= p <= w[i].hi < q < w[|w| - 1].hi
    requires (i > 0 ==> w[i].lo < p) && w[j].lo <= q <= w[j].hi
    ensures Assembled(w, p, q, false, next) == w[..i] + w[j..]
  {
    hide Assembled, Joined, Merged, Meets, Bridges;
    InsideInsideMeets(w, p, q, i, j, next);
    InsideInsideBridges(w, p, q, i, j);
    AssembledBridge(w, p, q, i, j + 1, next);
  }

  lemma InsideInsideMeets(w: seq<Span>, p: int, q: int, i: nat, j: nat, next: int)
    requires Apart(w) && i < j < |w| && w[i].lo <= p <= w[i].hi < q < w[|w| - 1].hi
    requires (i > 0 ==> w[i].lo < p) && w[j].lo <= q <= w[j].hi
    ensures Meets(w, p, q, i, j + 1, next)
  {
    Firsts(w, i);
    Firsts(w, j);
    EndsAt(w, p, q, i, j + 1);
  }

  lemma InsideInsideBridges(w: seq<Span>, p: int, q: int, i: nat, j: nat)
    requires Apart(w) && i < j < |w| && w[i].lo <= p <= w[i].hi < q < w[|w| - 1].hi
    requires (i > 0 ==> w[i].lo < p) && w[j].lo <= q <= w[j].hi
    ensures Bridges(w, p, q)
  {
    Firsts(w, i);
    Firsts(w, j);
    EndsAt(w, p, q, i, j + 1);
  }

  /** Case 6: the segment begins in range `i` and ends in the gap before range `j`. */
  lemma InsideGap(w: seq<Span>, p: int, q: int, i: nat, j: nat, stepOver: bool, next: int)
    requires Apart(w) && i < j < |w| && w[i].lo <= p <= w[i].hi < q && w[j - 1].hi < q < w[j].lo
    ensures Assembled(w, p, q, stepOver, next) == w[..i] + [Span(w[i].lo, q)] + w[j..]
  {
    hide Assembled, Merged, Meets, Bridges;
    InsideGapMeets(w, p, q, i, j, next);
    AssembledPlain(w, p, q, i, j, stepOver, next);
  }

  lemma InsideGapMeets(w: seq<Span>, p: int, q: int, i: nat, j: nat, next: int)
    requires Apart(w) && i < j < |w| && w[i].lo <= p <= w[i].hi < q && w[j - 1].hi < q < w[j].lo
    ensures Meets(w, p, q, i, j, next) && !Bridges(w, p, q)
  {
    Firsts(w, i);
    Firsts(w, j - 1);
    EndsAt(w, p, q, i, j);
  }

  /** Case 7: the segment begins in the gap behind range `i` and ends in range `j`. */
  lemma GapInside(w: seq<Span>, p: int, q: int, i: nat, j: nat, stepOver: bool, next: int)
    requires Apart(w) && i < j < |w| && w[i].hi < p <= w[i + 1].lo && w[j].lo <= q <= w[j].hi
    ensures Assembled(w, p, q, stepOver, next) == w[..i + 1] + [Span(p, w[j].hi)] + w[j + 1..]
  {
    hide Assembled, Merged, Meets, Bridges;
    GapInsideMeets(w, p, q, i, j, next);
    JoinedIs(w, p, q, i + 1, j, p, w[j].hi);
    AssembledPlain(w, p, q, i + 1, j + 1, stepOver, next);
  }

  lemma GapInsideMeets(w: seq<Span>, p: int, q: int, i: nat, j: nat, next: int)
    requires Apart(w) && i < j < |w| && w[i].hi < p <= w[i + 1].lo && w[j].lo <= q <= w[j].hi
    ensures Meets(w, p, q, i + 1, j + 1, next) && !Bridges(w, p, q)
  {
    Firsts(w, i);
    Firsts(w, j);
    assert w[i + 1].lo < w[i + 1].hi;
    EndsAt(w, p, q, i + 1, j + 1);
  }

  /** Cases 4 and 8: the segment begins in the gap behind range `i` and ends in
      the gap before range `j`. */
  lemma GapGap(w: seq<Span>, p: int, q: int, i: nat, j: nat, stepOver: bool, next: int)
    requires Apart(w) && i < j < |w| && p < q && w[i].hi < p <= w[i + 1].lo && w[j - 1].hi < q < w[j].lo
    ensures Assembled(w, p, q, stepOver, next) == w[..i + 1] + [Span(p, q)] + w[j..]
  {
    hide Assembled, Merged, Meets, Bridges;
    GapGapMeets(w, p, q, i, j, next);
    AssembledPlain(w, p, q, i + 1, j, stepOver, next);
  }

  lemma GapGapMeets(w: seq<Span>, p: int, q: int, i: nat, j: nat, next: int)
    requires Apart(w) && i < j < |w| && p < q && w[i].hi < p <= w[i + 1].lo && w[j - 1].hi < q < w[j].lo
    ensures Meets(w, p, q, i + 1, j, next) && !Bridges(w, p, q)
  {
    Firsts(w, i);
    Firsts(w, j - 1);
    assert w[i + 1].lo < w[i + 1].hi;
    EndsAt(w, p, q, i + 1, j);
  }

  /** Case 1: the segment ends before the first range. */
  lemma FrontApart(w: seq<Span>, p: int, q: int, next: int)
    requires Apart(w) && w != [] && p < q < w[0].lo && q < next
    ensures Recorded(w, p, q, next) && !Bridges(w, p, q) && Merged(w, p, q) == [Span(p, q)] + w
  {
    Firsts(w, 0);
    EndsAt(w, p, q, 0, 0);
    assert w[..0] + [Span(p, q)] + w[0..] == [Span(p, q)] + w;
  }

  /** Cases 2 and 3: the segment begins no later than the first range and ends
      in it or in the gap behind it. */
  lemma FrontOver(w: seq<Span>, p: int, q: int, next: int)
    requires Apart(w) && w != [] && p <= w[0].lo < q < next && (|w| >= 2 ==> q < w[1].lo)
    ensures Recorded(w, p, q, next) && !Bridges(w, p, q) && Merged(w, p, q) == [Span(p, Max(q, w[0].hi))] + w[1..]
  {
    EndsAt(w, p, q, 0, 1);
    assert w[..0] + [Joined(w, p, q, 0, 1)] + w[1..] == [Span(p, Max(q, w[0].hi))] + w[1..];
  }

  /** Cases 9 to 11: the segment ends at or behind the end of the last range;
      `i` is the first range it meets. */
  lemma TailCases(w: seq<Span>, p: int, q: int, i: nat, stepOver: bool, next: int)
    requires Apart(w) && w != [] && 0 <= p < q && w[|w| - 1].hi <= q
    requires i <= |w| && (i > 0 ==> w[i - 1].hi < p) && (i < |w| ==> p <= w[i].hi)
    ensures Assembled(w, p, q, stepOver, next)
         == if i == |w| then w + [Span(p, q)] else w[..i] + [Span(Min(p, w[i].lo), q)]
  {
    hide Assembled, Merged, Meets, Bridges;
    TailMeets(w, p, q, i, next);
    AssembledPlain(w, p, q, i, |w|, stepOver, next);
    var m := Joined(w, p, q, i, |w|);
    assert w[..i] + [m] + w[|w|..] == w[..i] + [m];
  }

  lemma TailMeets(w: seq<Span>, p: int, q: int, i: nat, next: int)
    requires Apart(w) && w != [] && 0 <= p < q && w[|w| - 1].hi <= q
    requires i <= |w| && (i > 0 ==> w[i - 1].hi < p) && (i < |w| ==> p <= w[i].hi)
    ensures Meets(w, p, q, i, |w|, next) && !Bridges(w, p, q)
  {
    Firsts(w, |w| - 1);
    EndsAt(w, p, q, i, |w|);
  }

  // ----- the code -----

  function Zip(los: seq<int>, his: seq<int>): (w: seq<Span>)
    requires |los| == |his|
    ensures |w| == |los|
  {
    seq(|los|, k requires 0 <= k < |los| => Span(los[k], his[k]))
  }

  lemma Spliced(w: seq<Span>, k: nat, m: Span, r: seq<Span>)
    requires k <= |w| && |r| == |w| + 1 && r[k] == m
    requires (forall i :: 0 <= i < k ==> r[i] == w[i]) && (forall i :: k < i < |r| ==> r[i] == w[i - 1])
    ensures r == w[..k] + [m] + w[k..]
  {
  }

  lemma Excised(w: seq<Span>, i: nat, j: nat, r: seq<Span>)
    requires i <= j <= |w| && |r| == |w| - (j - i)
    requires (forall k :: 0 <= k < i ==> r[k] == w[k]) && (forall k :: i <= k < |r| ==> r[k] == w[k + (j - i)])
    ensures r == w[..i] + w[j..]
  {
  }

  class RecvBuffer {
    const segStart: array<int>
    const segEnd: array<int>
    var segnum: nat

    ghost predicate Shape()
      reads this
    {
      segStart != segEnd && segStart.Length == segEnd.Length == SEG_NUM_MAX && segnum <= SEG_NUM_MAX
    }

    ghost predicate Valid()
      reads this, segStart, segEnd
    {
      Shape() && segnum >= 1 && Apart(Spans())
    }

    ghost function Spans(): (w: seq<Span>)
      reads this, segStart, segEnd
      requires Shape()
      ensures |w| == segnum
      ensures forall k :: 0 <= k < segnum ==> w[k] == Span(segStart[k], segEnd[k])
    {
      Zip(segStart[..segnum], segEnd[..segnum])
    }

    method SetSpan(i: nat, lo: int, hi: int)
      requires Shape() && i < segnum
      modifies segStart, segEnd
      ensures Spans() == old(Spans())[i := Span(lo, hi)]
    {
      segStart[i] := lo;
      segEnd[i] := hi;
    }

    /** Move the ranges from `k` on up by one place. */
    method ShiftUp(k: nat)
      requires Shape() && k <= segnum < SEG_NUM_MAX
      modifies segStart, segEnd
      ensures forall i :: segnum < i < SEG_NUM_MAX ==> segStart[i] == old(segStart[i])
      ensures forall i :: 0 <= i < k ==> segStart[i] == old(segStart[i]) && segEnd[i] == old(segEnd[i])
      ensures forall i :: k < i <= segnum ==> segStart[i] == old(segStart[i - 1]) && segEnd[i] == old(segEnd[i - 1])
    {
      var j: int := segnum - 1;
      while j >= k
        invariant k - 1 <= j < segnum
        invariant forall i :: 0 <= i <= j ==> segStart[i] == old(segStart[i]) && segEnd[i] == old(segEnd[i])
        invariant forall i :: segnum < i < SEG_NUM_MAX ==> segStart[i] == old(segStart[i])
        invariant forall i :: j + 1 < i <= segnum ==>
                    segStart[i] == old(segStart[i - 1]) && segEnd[i] == old(segEnd[i - 1])
      {
        segEnd[j + 1] := segEnd[j];
        segStart[j + 1] := segStart[j];
        j := j - 1;
      }
    }

    /** Open a place at `k` and put the range there. */
    method InsertAt(k: nat, lo: int, hi: int)
      requires Shape() && k <= segnum < SEG_NUM_MAX
      modifies this`segnum, segStart, segEnd
      ensures Shape() && Spans() == old(Spans())[..k] + [Span(lo, hi)] + old(Spans())[k..]
    {
      ghost var w := Spans();
      ShiftUp(k);
      segStart[k] := lo;
      segEnd[k] := hi;
      segnum := segnum + 1;
      Spliced(w, k, Span(lo, hi), Spans());
    }

    /** Move the ranges from `j0` on down to `i0`. */
    method CloseUp(i0: nat, j0: nat)
      requires Shape() && i0 <= j0 <= segnum
      modifies this`segnum, segStart, segEnd
      ensures Shape() && Spans() == old(Spans())[..i0] + old(Spans())[j0..]
    {
      ghost var w := Spans();
      MoveDown(i0, j0);
      Closed(w, i0, j0);
      segnum := segnum - (j0 - i0);
      Excised(w, i0, j0, Spans());
    }

    /** What the arrays hold once the ranges have moved down. */
    lemma Closed(w: seq<Span>, i0: nat, j0: nat)
      requires Shape() && i0 <= j0 <= segnum == |w|
      requires forall k :: 0 <= k < i0 ==> Span(segStart[k], segEnd[k]) == w[k]
      requires forall k :: i0 <= k < segnum - (j0 - i0) ==> Span(segStart[k], segEnd[k]) == w[k + (j0 - i0)]
      ensures forall k :: 0 <= k < segnum - (j0 - i0) ==>
                segStart[k] == (w[..i0] + w[j0..])[k].lo && segEnd[k] == (w[..i0] + w[j0..])[k].hi
    {
    }

    method MoveDown(i0: nat, j0: nat)
      requires Shape() && i0 <= j0 <= segnum
      modifies segStart, segEnd
      ensures forall k :: 0 <= k < i0 ==> segStart[k] == old(segStart[k]) && segEnd[k] == old(segEnd[k])
      ensures forall k :: i0 <= k < segnum - (j0 - i0) ==>
                segStart[k] == old(segStart[k + (j0 - i0)]) && segEnd[k] == old(segEnd[k + (j0 - i0)])
      ensures forall k :: segnum - (j0 - i0) <= k < segnum ==> segStart[k] == segEnd[k] == -1
    {
      var i, j := i0, j0;
      ghost var e := j0 - i0;
      while i < segnum
        invariant i0 <= i <= segnum && j == i + e
        invariant forall k :: 0 <= k < i0 || i <= k < segnum ==>
                    segStart[k] == old(segStart[k]) && segEnd[k] == old(segEnd[k])
        invariant forall k :: i0 <= k < i && k < segnum - e ==>
                    segStart[k] == old(segStart[k + e]) && segEnd[k] == old(segEnd[k + e])
        invariant forall k :: i0 <= k < i && k >= segnum - e ==> segStart[k] == segEnd[k] == -1
      {
        if j < segnum {
          segEnd[i] := segEnd[j];
          segStart[i] := segStart[j];
        } else {
          segEnd[i] := -1;
          segStart[i] := -1;
        }
        i, j := i + 1, j + 1;
      }
    }

    /** Put one range in place of those from `i` up to `j`. */
    method ReplaceRun(i: nat, lo: int, hi: int, j: nat)
      requires Shape() && i < j <= segnum
      modifies this`segnum, segStart, segEnd
      ensures Shape() && Spans() == old(Spans())[..i] + [Span(lo, hi)] + old(Spans())[j..]
    {
      ghost var w := Spans();
      SetSpan(i, lo, hi);
      CloseUp(i + 1, j);
      assert Spans() == w[..i] + [Span(lo, hi)] + w[j..];
    }

    /** Whether one of the ranges already holds the segment. */
    method IsContained(p: int, q: int) returns (found: bool)
      requires Shape()
      ensures found <==> Contained(Spans(), p, q)
    {
      var i := 0;
      while i < segnum
        invariant i <= segnum
        invariant forall k :: 0 <= k < i ==> !(Spans()[k].lo <= p && q <= Spans()[k].hi)
      {
        if segStart[i] <= p && q <= segEnd[i] {
          assert Spans()[i].lo <= p && q <= Spans()[i].hi;
          return true;
        }
        i := i + 1;
      }
      found := false;
    }

    /** From range `i` on, look for the first place that takes the end `q`:
        inside a range, or in the gap before it. */
    method FindEnd(i: nat, q: int) returns (j: nat, inside: bool)
      requires Shape() && i < segnum - 1 && segEnd[i] < q < segEnd[segnum - 1]
      requires forall k :: 0 <= k < segnum ==> segStart[k] < segEnd[k]
      ensures i < j < segnum
      ensures if inside then segStart[j] <= q <= segEnd[j] else segEnd[j - 1] < q < segStart[j]
    {
      j := i + 1;
      while j < segnum
        invariant i < j < segnum && segEnd[j - 1] < q
      {
        if segStart[j] <= q && q <= segEnd[j] {
          inside := true;
          return;
        } else if segEnd[j - 1] <= q && q < segStart[j] {
          inside := false;
          return;
        }
        j := j + 1;
      }
    }

    /** Give range `i` the end of range `j`, then move the ranges from `j` on over it. */
    method OverwriteRun(i: nat, j: nat)
      requires Shape() && i < j < segnum
      modifies this`segnum, segStart, segEnd
      ensures Shape() && Spans() == old(Spans())[..i] + old(Spans())[j..]
    {
      ghost var w := Spans();
      SetSpan(i, segStart[i], segEnd[j]);
      CloseUp(i, j);
      assert Spans() == w[..i] + w[j..];
    }

    /** The arrays seen through the ranges. */
    lemma SpansAt()
      requires Valid()
      ensures forall k :: 0 <= k < segnum ==> segStart[k] == Spans()[k].lo && segEnd[k] == Spans()[k].hi
      ensures forall k :: 0 <= k < segnum ==> segStart[k] < segEnd[k]
    {
      assert forall k :: 0 <= k < segnum ==> segStart[k] == Spans()[k].lo && segEnd[k] == Spans()[k].hi;
    }

    /** The start of the segment lies in range `i` (cases 5 and 6). */
    method FromInside(i: nat, p: int, q: int, stepOver: bool, ghost next: int)
      requires Valid() && i < segnum - 1 && segStart[i] <= p <= segEnd[i] < q < segEnd[segnum - 1] && 0 <= p
      requires i > 0 ==> segStart[i] < p
      modifies this`segnum, segStart, segEnd
      ensures Shape() && Spans() == Assembled(old(Spans()), p, q, stepOver, next)
    {
      hide Assembled;
      SpansAt();
      var j, inside := FindEnd(i, q);
      if !inside {
        InsideToGap(i, j, p, q, stepOver, next);
      } else if stepOver {
        InsideToInside(i, j, p, q, next);
      } else {
        InsideToInsideLost(i, j, p, q, next);
      }
    }

    method InsideToGap(i: nat, j: nat, p: int, q: int, stepOver: bool, ghost next: int)
      requires Valid() && i < j < segnum && segStart[i] <= p <= segEnd[i] < q && segEnd[j - 1] < q < segStart[j]
      modifies this`segnum, segStart, segEnd
      ensures Shape() && Spans() == Assembled(old(Spans()), p, q, stepOver, next)
    {
      hide Assembled;
      ghost var w := Spans();
      ReplaceRun(i, segStart[i], q, j);
      InsideGap(w, p, q, i, j, stepOver, next);
    }

    method InsideToInside(i: nat, j: nat, p: int, q: int, ghost next: int)
      requires Valid() && i < j < segnum && segStart[i] <= p <= segEnd[i] < q < segEnd[segnum - 1]
      requires (i > 0 ==> segStart[i] < p) && segStart[j] <= q <= segEnd[j]
      modifies this`segnum, segStart, segEnd
      ensures Shape() && Spans() == Assembled(old(Spans()), p, q, true, next)
    {
      hide Assembled;
      ghost var w := Spans();
      ReplaceRun(i, segStart[i], segEnd[j], j + 1);
      InsideInside(w, p, q, i, j, next);
    }

    method InsideToInsideLost(i: nat, j: nat, p: int, q: int, ghost next: int)
      requires Valid() && i < j < segnum && segStart[i] <= p <= segEnd[i] < q < segEnd[segnum - 1]
      requires (i > 0 ==> segStart[i] < p) && segStart[j] <= q <= segEnd[j]
      modifies this`segnum, segStart, segEnd
      ensures Shape() && Spans() == Assembled(old(Spans()), p, q, false, next)
    {
      hide Assembled;
      ghost var w := Spans();
      OverwriteRun(i, j);
      InsideInsideLost(w, p, q, i, j, next);
    }

    /** The start of the segment lies in the gap behind range `i`, its end
        further on (cases 7 and 8). */
    method FromGap(i: nat, p: int, q: int, stepOver: bool, ghost next: int)
      requires Valid() && i < segnum - 1 && segEnd[i] < p <= segStart[i + 1] <= q
      requires 0 <= p < q < segEnd[segnum - 1]
      modifies this`segnum, segStart, segEnd
      ensures Shape() && Spans() == Assembled(old(Spans()), p, q, stepOver, next)
    {
      hide Assembled;
      SpansAt();
      var j, inside := FindEnd(i, q);
      if inside {
        GapToInside(i, j, p, q, stepOver, next);
      } else {
        GapToGap(i, j, p, q, stepOver, next);
      }
    }

    method GapToInside(i: nat, j: nat, p: int, q: int, stepOver: bool, ghost next: int)
      requires Valid() && i < j < segnum && segEnd[i] < p <= segStart[i + 1] && segStart[j] <= q <= segEnd[j]
      modifies this`segnum, segStart, segEnd
      ensures Shape() && Spans() == Assembled(old(Spans()), p, q, stepOver, next)
    {
      hide Assembled;
      ghost var w := Spans();
      ReplaceRun(i + 1, p, segEnd[j], j + 1);
      GapInside(w, p, q, i, j, stepOver, next);
    }

    method GapToGap(i: nat, j: nat, p: int, q: int, stepOver: bool, ghost next: int)
      requires Valid() && i + 1 < j < segnum && segEnd[i] < p <= segStart[i + 1]
      requires p < q && segEnd[j - 1] < q < segStart[j]
      modifies this`segnum, segStart, segEnd
      ensures Shape() && Spans() == Assembled(old(Spans()), p, q, stepOver, next)
    {
      hide Assembled;
      ghost var w := Spans();
      ReplaceRun(i + 1, p, q, j);
      GapGap(w, p, q, i, j, stepOver, next);
    }

    /** The segment begins no later than the first range and ends before the
        second (cases 1 to 3). */
    method Front(p: int, q: int, ghost next: int) returns (done: bool)
      requires Valid() && 0 <= p < q < segEnd[segnum - 1] && !Contained(Spans(), p, q)
      requires next == segStart[1]
      requires Recorded(Spans(), p, q, next) && !Bridges(Spans(), p, q) ==> |Merged(Spans(), p, q)| <= SEG_NUM_MAX
      modifies this`segnum, segStart, segEnd
      ensures Shape()
      ensures var w := old(Spans());
              if done then Recorded(w, p, q, next) && !Bridges(w, p, q) && Spans() == Merged(w, p, q)
              else Spans() == w && segnum == old(segnum) && (p >= w[0].lo || !Recorded(w, p, q, next))
    {
      SpansAt();
      assert !(Spans()[0].lo <= p && q <= Spans()[0].hi);
      if segStart[0] > 0 && q < segStart[1] {
        done := FrontJoin(p, q, next);
      } else {
        done := false;
      }
    }

    method FrontJoin(p: int, q: int, ghost next: int) returns (done: bool)
      requires Valid() && 0 <= p < q < segEnd[segnum - 1] && q < next == segStart[1]
      requires !(segStart[0] <= p && q <= segEnd[0])
      requires Recorded(Spans(), p, q, next) && !Bridges(Spans(), p, q) ==> |Merged(Spans(), p, q)| <= SEG_NUM_MAX
      modifies this`segnum, segStart, segEnd
      ensures Shape()
      ensures var w := old(Spans());
              if done then Recorded(w, p, q, next) && !Bridges(w, p, q) && Spans() == Merged(w, p, q)
              else Spans() == w && segnum == old(segnum) && (p >= w[0].lo || q == w[0].lo)
    {
      ghost var w := Spans();
      SpansAt();
      if segStart[0] > p && segStart[0] > q {
        FrontApart(w, p, q, next);
        InsertAt(0, p, q);
        assert Spans() == [Span(p, q)] + w;
        return true;
      }
      if p < segStart[0] && segStart[0] < q && q <= segEnd[0] {
        FrontOver(w, p, q, next);
        ReplaceFirst(p, segEnd[0]);
        return true;
      }
      if p <= segStart[0] && segStart[0] < q && p < segEnd[0] && segEnd[0] < q && q < segStart[1] {
        FrontOver(w, p, q, next);
        ReplaceFirst(p, q);
        return true;
      }
      done := false;
    }

    method ReplaceFirst(lo: int, hi: int)
      requires Shape() && segnum > 0
      modifies segStart, segEnd
      ensures Spans() == [Span(lo, hi)] + old(Spans())[1..]
    {
      SetSpan(0, lo, hi);
    }

    /** The segment ends before the last range does. */
    method Middle(p: int, q: int, stepOver: bool, ghost next: int)
      requires Valid() && 0 <= p < q < segEnd[segnum - 1] && !Contained(Spans(), p, q)
      requires p >= Spans()[0].lo || !Recorded(Spans(), p, q, next)
      requires |Assembled(Spans(), p, q, stepOver, next)| <= SEG_NUM_MAX
      modifies this`segnum, segStart, segEnd
      ensures Shape() && Spans() == Assembled(old(Spans()), p, q, stepOver, next)
    {
      hide Assembled;
      SpansAt();
      var i := 0;
      while i < segnum - 1
        invariant 0 <= i < segnum && Valid() && segnum == old(segnum) && Spans() == old(Spans())
        invariant p >= Spans()[0].lo ==> Spans()[i].lo <= p && (i > 0 ==> Spans()[i].lo < p)
      {
        var done := MiddleAt(i, p, q, stepOver, next);
        if done {
          return;
        }
        i := i + 1;
      }
      SpansAt();
      NotHeldBy(Spans(), p, q, i);
      PlainMerge(Spans(), p, q, stepOver, next);
    }

    /** The cases for a segment that begins in or right behind range `i`. */
    method MiddleAt(i: nat, p: int, q: int, stepOver: bool, ghost next: int) returns (done: bool)
      requires Valid() && i < segnum - 1 && 0 <= p < q < segEnd[segnum - 1]
      requires !Contained(Spans(), p, q) && (i > 0 && p >= Spans()[0].lo ==> Spans()[i].lo < p)
      requires |Assembled(Spans(), p, q, stepOver, next)| <= SEG_NUM_MAX
      modifies this`segnum, segStart, segEnd
      ensures Shape()
      ensures done ==> Spans() == Assembled(old(Spans()), p, q, stepOver, next)
      ensures !done ==> segnum == old(segnum) && Spans() == old(Spans())
      ensures !done && Spans()[i].lo <= p ==> Spans()[i + 1].lo < p
    {
      hide Assembled;
      ghost var w := Spans();
      SpansAt();
      Firsts(w, i);
      assert !(w[i].lo <= p && q <= w[i].hi);
      done := true;
      if segEnd[i] < p && p < segStart[i + 1] && segEnd[i] < q && q < segStart[i + 1] {
        GapGap(w, p, q, i, i + 1, stepOver, next);
        InsertAt(i + 1, p, q);
      } else if segStart[i] <= p && p <= segEnd[i] {
        FromInside(i, p, q, stepOver, next);
      } else if segEnd[i] <= p && p <= segStart[i + 1] {
        FromGap(i, p, q, stepOver, next);
      } else {
        done := false;
      }
    }

    /** The segment ends at or behind the end of the last range. */
    method Tail(p: int, q: int, stepOver: bool, ghost next: int)
      requires Valid() && 0 <= p < q && segEnd[segnum - 1] <= q
      requires |Assembled(Spans(), p, q, stepOver, next)| <= SEG_NUM_MAX
      modifies this`segnum, segStart, segEnd
      ensures Shape() && Spans() == Assembled(old(Spans()), p, q, stepOver, next)
    {
      hide Assembled;
      ghost var w := Spans();
      SpansAt();
      if segEnd[segnum - 1] < p {
        TailCases(w, p, q, segnum, stepOver, next);
        InsertAt(segnum, p, q);
        assert Spans() == w + [Span(p, q)];
      } else {
        TailJoin(p, q, stepOver, next);
      }
    }

    /** From the last range down, find the first one the segment meets. */
    method TailJoin(p: int, q: int, stepOver: bool, ghost next: int)
      requires Valid() && 0 <= p < q && p <= segEnd[segnum - 1] <= q
      modifies this`segnum, segStart, segEnd
      ensures Shape() && Spans() == Assembled(old(Spans()), p, q, stepOver, next)
    {
      hide Assembled;
      ghost var w := Spans();
      SpansAt();
      var i := segnum - 1;
      while i > 0
        invariant 0 <= i < segnum == |w| && p <= w[i].hi
        invariant forall k :: 0 <= k <= i ==> segStart[k] == w[k].lo && segEnd[k] == w[k].hi
      {
        assert w[i - 1].hi < w[i].lo;
        if segStart[i] <= p && p <= segEnd[i] {
          TailAt(i, p, q, w, stepOver, next);
          return;
        } else if segEnd[i - 1] < p && p <= segStart[i] {
          TailAt(i, p, q, w, stepOver, next);
          return;
        } else {
          segEnd[i] := -1;
          segStart[i] := -1;
        }
        i := i - 1;
      }
      TailAt(0, p, q, w, stepOver, next);
    }

    /** Range `i` is the first one the segment meets: it is extended to `q`, and
        down to `p` when the segment begins before it. */
    method TailAt(i: nat, p: int, q: int, ghost w: seq<Span>, stepOver: bool, ghost next: int)
      requires Shape() && Apart(w) && i < segnum == |w| && 0 <= p < q && w[|w| - 1].hi <= q
      requires p <= w[i].hi && (i > 0 ==> w[i - 1].hi < p)
      requires forall k :: 0 <= k <= i ==> segStart[k] == w[k].lo && segEnd[k] == w[k].hi
      modifies this`segnum, segStart, segEnd
      ensures Shape() && Spans() == Assembled(w, p, q, stepOver, next)
    {
      hide Assembled;
      TailCases(w, p, q, i, stepOver, next);
      if p > segStart[i] {
        segEnd[i] := q;
        EndHere(i, w, w[i].lo, q);
      } else {
        segStart[i] := p;
        segEnd[i] := q;
        EndHere(i, w, p, q);
      }
    }

    /** Range `i` becomes the last one. */
    method EndHere(i: nat, ghost w: seq<Span>, ghost lo: int, ghost hi: int)
      requires Shape() && i < segnum && i < |w|
      requires forall k :: 0 <= k < i ==> segStart[k] == w[k].lo && segEnd[k] == w[k].hi
      requires segStart[i] == lo && segEnd[i] == hi
      modifies this`segnum
      ensures Shape() && Spans() == w[..i] + [Span(lo, hi)]
    {
      segnum := i + 1;
    }

    /** Record the segment of `len` octets at `so`; `posEnd` is where it ends. */
    method AssambleSegment(so: int, len: nat, stepOver: bool) returns (posEnd: int)
      requires Valid() && 0 <= so && len > 0
      requires |Assembled(Spans(), so, so + len, stepOver, segStart[1])| <= SEG_NUM_MAX
      modifies this`segnum, segStart, segEnd
      ensures posEnd == so + len
      ensures Valid() && Spans() == Assembled(old(Spans()), so, posEnd, stepOver, old(segStart[1]))
    {
      hide Assembled;
      ghost var w, next := Spans(), segStart[1];
      var posStart := so;
      posEnd := posStart + len;
      AddRange(posStart, posEnd, stepOver, next);
      Revalidate(w, posStart, posEnd, stepOver, next);
    }

    lemma Revalidate(w: seq<Span>, p: int, q: int, stepOver: bool, next: int)
      requires Shape() && Apart(w) && w != [] && 0 <= p < q && Spans() == Assembled(w, p, q, stepOver, next)
      ensures Valid()
    {
      AssembledApart(w, p, q, stepOver, next);
      EmptyNever(w, p, q, stepOver, next);
    }

    /** Drop the segment when it is contained, otherwise put it in its place. */
    method AddRange(posStart: int, posEnd: int, stepOver: bool, ghost next: int)
      requires Valid() && 0 <= posStart < posEnd && next == segStart[1]
      requires |Assembled(Spans(), posStart, posEnd, stepOver, next)| <= SEG_NUM_MAX
      modifies this`segnum, segStart, segEnd
      ensures Shape() && Spans() == Assembled(old(Spans()), posStart, posEnd, stepOver, next)
    {
      hide Assembled;
      var found := IsContained(posStart, posEnd);
      if found {
        ContainedIsKept(Spans(), posStart, posEnd, stepOver, next);
      } else {
        PlaceSegment(posStart, posEnd, stepOver, next);
      }
    }

    method PlaceSegment(posStart: int, posEnd: int, stepOver: bool, ghost next: int)
      requires Valid() && 0 <= posStart < posEnd && next == segStart[1]
      requires !Contained(Spans(), posStart, posEnd)
      requires |Assembled(Spans(), posStart, posEnd, stepOver, next)| <= SEG_NUM_MAX
      modifies this`segnum, segStart, segEnd
      ensures Shape() && Spans() == Assembled(old(Spans()), posStart, posEnd, stepOver, next)
    {
      hide Assembled, Merged, Bridges, Recorded;
      SpansAt();
      if segEnd[segnum - 1] > posEnd {
        PlainMerge(Spans(), posStart, posEnd, stepOver, next);
        var done := Front(posStart, posEnd, next);
        if !done {
          Middle(posStart, posEnd, stepOver, next);
        }
      } else {
        Tail(posStart, posEnd, stepOver, next);
      }
    }
  }

  lemma EmptyNever(w: seq<Span>, p: int, q: int, stepOver: bool, next: int)
    requires w != []
    ensures Assembled(w, p, q, stepOver, next) != []
  {
  }

  lemma ContainedIsKept(w: seq<Span>, p: int, q: int, stepOver: bool, next: int)
    requires Apart(w) && w != [] && 0 <= p < q && Contained(w, p, q)
    ensures Assembled(w, p, q, stepOver, next) == w
  {
    var i :| 0 <= i < |w| && w[i].lo <= p && q <= w[i].hi;
    Firsts(w, i);
    ContainedMerges(w, p, q, i);
    EndsAt(w, p, q, i, i + 1);
  }
}
