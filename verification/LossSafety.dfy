/** What a reassembler delivers when PDUs are lost: exactly the SDUs none of
    whose PDUs is missing, unchanged and in order. */
module LossSafety {
  import opened Wire
  import opened Reassembler
  import opened Stream

  /** The PDUs that arrive, by position in the stream: in order, and never with a
      positive multiple of 1024 PDUs missing between neighbours. */
  ghost predicate Arrivals(picks: seq<nat>, total: nat) {
    && (forall j :: 0 <= j < |picks| ==> picks[j] < total)
    && (forall j :: 0 < j < |picks| ==> Follows(picks, j))
  }

  ghost predicate Follows(picks: seq<nat>, j: nat)
    requires 0 < j < |picks|
  {
    && picks[j - 1] < picks[j]
    && (picks[j] == picks[j - 1] + 1 || (picks[j] - picks[j - 1] - 1) % SN_MODULUS != 0)
  }

  lemma {:induction false} ArrivalsIncrease(picks: seq<nat>, total: nat, i: nat, j: nat)
    requires Arrivals(picks, total) && i < j < |picks|
    ensures picks[i] < picks[j]
    decreases j
  {
    assert Follows(picks, j);
    if i < j - 1 {
      ArrivalsIncrease(picks, total, i, j - 1);
    }
  }

  /** The reassembler run over the PDUs that arrive. */
  function ReassembleAll(pdus: seq<Pdu>, picks: seq<nat>): Out
    requires forall i :: 0 <= i < |pdus| ==> pdus[i].pieces != []
    requires forall j :: 0 <= j < |picks| ==> picks[j] < |pdus|
  {
    if picks == [] then Out(NoLeft, [])
    else
      var before := ReassembleAll(pdus, picks[..|picks| - 1]);
      var out := Reassemble(before.left, pdus[picks[|picks| - 1]]);
      Out(out.left, before.sdus + out.sdus)
  }

  /** PDU `i` carries octets of SDU `k`. */
  predicate Touches(cs: seq<Cursor>, i: nat, k: nat)
    requires i + 1 < |cs|
  {
    cs[i].k <= k && (k < cs[i + 1].k || (k == cs[i + 1].k && cs[i + 1].off > 0))
  }

  /** All PDUs before `n` that carry octets of SDU `k` arrived. */
  ghost predicate Held(cs: seq<Cursor>, picks: seq<nat>, n: nat, k: nat)
    requires n < |cs|
  {
    forall i :: 0 <= i < n && Touches(cs, i, k) ==> i in picks
  }

  /** All PDUs that carry octets of SDU `k` arrived. */
  ghost predicate Intact(cs: seq<Cursor>, picks: seq<nat>, k: nat)
    requires cs != []
  {
    Held(cs, picks, |cs| - 1, k)
  }

  /** The intact ones among the first `n` SDUs, in order. */
  ghost function IntactSdus(sdus: seq<Bytes>, cs: seq<Cursor>, picks: seq<nat>, n: nat): seq<Bytes>
    requires cs != [] && n <= |sdus|
  {
    if n == 0 then []
    else IntactSdus(sdus, cs, picks, n - 1) + (if Intact(cs, picks, n - 1) then [sdus[n - 1]] else [])
  }

  lemma {:induction false} IntactStretch(sdus: seq<Bytes>, cs: seq<Cursor>, picks: seq<nat>, a: nat, b: nat)
    requires cs != [] && a <= b <= |sdus|
    ensures (forall k :: a <= k < b ==> Intact(cs, picks, k)) ==>
              IntactSdus(sdus, cs, picks, b) == IntactSdus(sdus, cs, picks, a) + sdus[a..b]
    ensures (forall k :: a <= k < b ==> !Intact(cs, picks, k)) ==>
              IntactSdus(sdus, cs, picks, b) == IntactSdus(sdus, cs, picks, a)
    decreases b
  {
    if a < b {
      IntactStretch(sdus, cs, picks, a, b - 1);
      assert sdus[a..b] == sdus[a..b - 1] + [sdus[b - 1]];
    }
  }

  lemma {:induction false} IntactAgree(sdus: seq<Bytes>, cs: seq<Cursor>, p: seq<nat>, q: seq<nat>, n: nat)
    requires cs != [] && n <= |sdus|
    requires forall k :: 0 <= k < n ==> (Intact(cs, p, k) <==> Intact(cs, q, k))
    ensures IntactSdus(sdus, cs, p, n) == IntactSdus(sdus, cs, q, n)
  {
    if n > 0 {
      IntactAgree(sdus, cs, p, q, n - 1);
    }
  }

  /** PDUs behind `n` carry nothing of what PDU `n` completes. */
  lemma LaterTouchNothing(sdus: seq<Bytes>, cs: seq<Cursor>, pdus: seq<Pdu>, picks: seq<nat>, n: nat, k: nat)
    requires IsStream(sdus, cs, pdus) && n <= |pdus| && k < cs[n].k
    ensures Intact(cs, picks, k) <==> Held(cs, picks, n, k)
  {
    forall i | n <= i < |pdus| ensures !Touches(cs, i, k) {
      CursorsAdvance(sdus, cs, pdus, n, i);
    }
  }

  /** PDUs before `n` carry nothing of what starts in PDU `n`; of the SDU PDU `n`
      continues, PDU `n - 1` carries some. */
  lemma EarlierTouch(sdus: seq<Bytes>, cs: seq<Cursor>, pdus: seq<Pdu>, n: nat, k: nat)
    requires IsStream(sdus, cs, pdus) && n < |pdus| && cs[n].k <= k
    ensures k > cs[n].k || cs[n].off == 0 ==> forall i :: 0 <= i < n ==> !Touches(cs, i, k)
    ensures k == cs[n].k && cs[n].off > 0 ==> n > 0 && Touches(cs, n - 1, k)
  {
    forall i | 0 <= i < n && (k > cs[n].k || cs[n].off == 0) ensures !Touches(cs, i, k) {
      CursorsAdvance(sdus, cs, pdus, i + 1, n);
    }
    if cs[n].off > 0 {
      assert n > 0 && Carries(sdus, cs[n - 1], cs[n], pdus[n - 1]);
    }
  }

  /** Whether SDU `k` has been held through PDU `n`, for an SDU that PDU `n` carries. */
  lemma HeldThrough(sdus: seq<Bytes>, cs: seq<Cursor>, pdus: seq<Pdu>, picks: seq<nat>, n: nat, k: nat)
    requires IsStream(sdus, cs, pdus) && n < |pdus| && n in picks && cs[n].k <= k
    ensures k > cs[n].k || cs[n].off == 0 ==> Held(cs, picks, n + 1, k)
    ensures k == cs[n].k ==> (Held(cs, picks, n + 1, k) <==> Held(cs, picks, n, k))
  {
    EarlierTouch(sdus, cs, pdus, n, k);
  }

  /** SDUs that end in missing PDUs are not intact. */
  lemma {:induction false} EndsMissing(sdus: seq<Bytes>, cs: seq<Cursor>, pdus: seq<Pdu>, picks: seq<nat>,
                                       m: nat, n: nat, k: nat)
    requires IsStream(sdus, cs, pdus) && m <= n <= |pdus| && cs[m].k <= k < cs[n].k
    requires forall i :: m <= i < n ==> i !in picks
    ensures !Intact(cs, picks, k)
    decreases n - m
  {
    if k < cs[m + 1].k {
      assert Touches(cs, m, k);
    } else {
      EndsMissing(sdus, cs, pdus, picks, m + 1, n, k);
    }
  }

  /** The position behind the last arrival. */
  function Behind(picks: seq<nat>): nat { if picks == [] then 0 else picks[|picks| - 1] + 1 }

  /** What is left over at position `n`, the last arrival being PDU `n - 1`. */
  ghost function LeftBehind(sdus: seq<Bytes>, cs: seq<Cursor>, picks: seq<nat>, n: nat): PduLeft
    requires n < |cs| && CursorOk(sdus, cs[n])
  {
    if cs[n].off > 0 && Held(cs, picks, n, cs[n].k)
    then Left((n + SN_MODULUS - 1) % SN_MODULUS, sdus[cs[n].k][..cs[n].off])
    else NoLeft
  }

  /** The reassembler's state after some arrivals, in terms of what is intact. */
  ghost predicate Exact(sdus: seq<Bytes>, cs: seq<Cursor>, picks: seq<nat>, out: Out)
    requires Behind(picks) < |cs| && CursorOk(sdus, cs[Behind(picks)])
  {
    var n := Behind(picks);
    out.left == LeftBehind(sdus, cs, picks, n) && out.sdus == IntactSdus(sdus, cs, picks, cs[n].k)
  }

  lemma MissingInBetween(picks: seq<nat>, total: nat, n: nat)
    requires Arrivals(picks + [n], total) && Behind(picks) <= n
    ensures forall i :: Behind(picks) <= i < n ==> i !in picks + [n]
  {
    BehindIsLast(picks, total, n);
  }

  /** Up to the next arrival nothing becomes intact. */
  lemma MissingAddNothing(sdus: seq<Bytes>, cs: seq<Cursor>, pdus: seq<Pdu>, picks: seq<nat>, more: seq<nat>, n: nat)
    requires IsStream(sdus, cs, pdus) && n < |pdus| && Behind(picks) <= n && more == picks + [n]
    requires Arrivals(more, |pdus|)
    ensures cs[Behind(picks)].k <= cs[n].k <= |sdus|
    ensures IntactSdus(sdus, cs, more, cs[n].k) == IntactSdus(sdus, cs, picks, cs[Behind(picks)].k)
  {
    var m := Behind(picks);
    CursorsAdvance(sdus, cs, pdus, m, n);
    MissingInBetween(picks, |pdus|, n);
    forall k | cs[m].k <= k < cs[n].k ensures !Intact(cs, more, k) {
      EndsMissing(sdus, cs, pdus, more, m, n, k);
    }
    IntactStretch(sdus, cs, more, cs[m].k, cs[n].k);
    PastStays(sdus, cs, pdus, picks, n);
  }

  /** What the arrivals so far have settled stays settled. */
  lemma PastStays(sdus: seq<Bytes>, cs: seq<Cursor>, pdus: seq<Pdu>, picks: seq<nat>, n: nat)
    requires IsStream(sdus, cs, pdus) && Behind(picks) <= n < |pdus|
    ensures IntactSdus(sdus, cs, picks, cs[Behind(picks)].k) == IntactSdus(sdus, cs, picks + [n], cs[Behind(picks)].k)
  {
    var m, more := Behind(picks), picks + [n];
    forall k | 0 <= k < cs[m].k ensures Intact(cs, picks, k) <==> Intact(cs, more, k) {
      LaterTouchNothing(sdus, cs, pdus, picks, m, k);
      LaterTouchNothing(sdus, cs, pdus, more, m, k);
      HeldGrows(cs, picks, m, k, n);
    }
    IntactAgree(sdus, cs, picks, more, cs[m].k);
  }

  lemma HeldGrows(cs: seq<Cursor>, picks: seq<nat>, n: nat, k: nat, later: nat)
    requires n < |cs| && n <= later
    ensures Held(cs, picks, n, k) <==> Held(cs, picks + [later], n, k)
  {
    assert forall i :: 0 <= i < n ==> (i in picks <==> i in picks + [later]);
  }

  /** An arrival completes all SDUs that begin in it, and the one it continues
      when the PDUs before carried that one up to here. */
  lemma SettledBy(sdus: seq<Bytes>, cs: seq<Cursor>, pdus: seq<Pdu>, picks: seq<nat>, n: nat)
    requires IsStream(sdus, cs, pdus) && n < |pdus|
    ensures var more, c, d := picks + [n], cs[n], cs[n + 1];
            && (forall k :: c.k < k < d.k ==> Intact(cs, more, k))
            && (c.k < d.k ==> (Intact(cs, more, c.k) <==> c.off == 0 || Held(cs, picks, n, c.k)))
            && (Held(cs, more, n + 1, d.k) <==> c.k < d.k || c.off == 0 || Held(cs, picks, n, c.k))
  {
    var more, c, d := picks + [n], cs[n], cs[n + 1];
    CursorsAdvance(sdus, cs, pdus, n, n + 1);
    forall k | c.k < k < d.k ensures Intact(cs, more, k) {
      HeldThrough(sdus, cs, pdus, more, n, k);
      LaterTouchNothing(sdus, cs, pdus, more, n + 1, k);
    }
    HeldThrough(sdus, cs, pdus, more, n, c.k);
    HeldThrough(sdus, cs, pdus, more, n, d.k);
    HeldGrows(cs, picks, n, c.k, n);
    if c.k < d.k {
      LaterTouchNothing(sdus, cs, pdus, more, n + 1, c.k);
    }
  }

  /** One arrival: either the SDU in flight is completed along with those behind
      it, or it has a missing PDU and is given up. */
  lemma ArrivalIsExact(sdus: seq<Bytes>, cs: seq<Cursor>, pdus: seq<Pdu>, picks: seq<nat>, n: nat, before: Out)
    requires IsStream(sdus, cs, pdus) && n < |pdus| && Arrivals(picks + [n], |pdus|) && Behind(picks) <= n
    requires Exact(sdus, cs, picks, before)
    ensures var out := Reassemble(before.left, pdus[n]);
            Exact(sdus, cs, picks + [n], Out(out.left, before.sdus + out.sdus))
  {
    hide Held, IntactSdus, Reassemble, HeldAt;
    var more := picks + [n];
    var c, d, p := cs[n], cs[n + 1], pdus[n];
    assert Carries(sdus, c, d, p);
    MissingAddNothing(sdus, cs, pdus, picks, more, n);
    LeftAfter(sdus, cs, pdus, picks, n);
    SdusAfter(sdus, cs, pdus, picks, n);
    if c.off == 0 || Held(cs, picks, n, c.k) {
      if c.off > 0 {
        InFlightHeld(sdus, cs, pdus, picks, n, before);
      }
      ReassembleNext(sdus, c, d, p, before.left);
    } else {
      InFlightLost(sdus, cs, pdus, picks, n, before);
      ReassembleOrphan(sdus, c, d, p, before.left);
    }
  }

  /** What is left over behind an arrival. */
  lemma LeftAfter(sdus: seq<Bytes>, cs: seq<Cursor>, pdus: seq<Pdu>, picks: seq<nat>, n: nat)
    requires IsStream(sdus, cs, pdus) && n < |pdus|
    ensures var c, d := cs[n], cs[n + 1];
            LeftBehind(sdus, cs, picks + [n], n + 1)
            == if c.k < d.k || c.off == 0 || Held(cs, picks, n, c.k) then HeldAt(sdus, d, pdus[n].sn) else NoLeft
  {
    hide Held;
    SettledBy(sdus, cs, pdus, picks, n);
    assert (n + 1 + SN_MODULUS - 1) % SN_MODULUS == n % SN_MODULUS;
  }

  /** Which SDUs an arrival settles as intact. */
  lemma SdusAfter(sdus: seq<Bytes>, cs: seq<Cursor>, pdus: seq<Pdu>, picks: seq<nat>, n: nat)
    requires IsStream(sdus, cs, pdus) && n < |pdus|
    ensures var c, d, more := cs[n], cs[n + 1], picks + [n];
            && c.k <= d.k
            && IntactSdus(sdus, cs, more, d.k)
               == IntactSdus(sdus, cs, more, c.k)
                  + (if c.k == d.k then []
                     else if c.off == 0 || Held(cs, picks, n, c.k) then sdus[c.k..d.k]
                     else sdus[c.k + 1..d.k])
  {
    hide Held, Intact, IntactSdus;
    var c, d, more := cs[n], cs[n + 1], picks + [n];
    assert Carries(sdus, c, d, pdus[n]);
    SettledBy(sdus, cs, pdus, picks, n);
    if c.k < d.k {
      if c.off == 0 || Held(cs, picks, n, c.k) {
        IntactStretch(sdus, cs, more, c.k, d.k);
      } else {
        IntactStretch(sdus, cs, more, c.k, c.k + 1);
        IntactStretch(sdus, cs, more, c.k + 1, d.k);
      }
    }
  }

  lemma InFlightHeld(sdus: seq<Bytes>, cs: seq<Cursor>, pdus: seq<Pdu>, picks: seq<nat>, n: nat, before: Out)
    requires IsStream(sdus, cs, pdus) && n < |pdus| && Arrivals(picks + [n], |pdus|) && Behind(picks) <= n
    requires Exact(sdus, cs, picks, before)
    requires cs[n].off > 0 && Held(cs, picks, n, cs[n].k)
    ensures before.left.Left? && Joins(before.left, pdus[n].sn) && before.left.sdu == sdus[cs[n].k][..cs[n].off]
  {
    EarlierTouch(sdus, cs, pdus, n, cs[n].k);
    assert n - 1 in picks;
    BehindIsLast(picks, |pdus|, n);
    assert Behind(picks) == n;
  }

  lemma BehindIsLast(picks: seq<nat>, total: nat, n: nat)
    requires Arrivals(picks + [n], total) && Behind(picks) <= n
    ensures forall i :: i in picks ==> i < Behind(picks)
  {
    forall j | 0 <= j < |picks| ensures picks[j] < Behind(picks) {
      if j < |picks| - 1 {
        ArrivalsIncrease(picks + [n], total, j, |picks| - 1);
      }
    }
  }

  lemma InFlightLost(sdus: seq<Bytes>, cs: seq<Cursor>, pdus: seq<Pdu>, picks: seq<nat>, n: nat, before: Out)
    requires IsStream(sdus, cs, pdus) && n < |pdus| && Arrivals(picks + [n], |pdus|) && Behind(picks) <= n
    requires Exact(sdus, cs, picks, before)
    requires cs[n].off > 0 && !Held(cs, picks, n, cs[n].k)
    ensures !Joins(before.left, pdus[n].sn)
  {
    var m := Behind(picks);
    if before.left.Left? && m < n {
      if picks != [] {
        var more := picks + [n];
        assert Follows(more, |picks|);
        JoinsOnlyNext(m - 1, n, before.left.sdu);
        assert (m - 1 + SN_MODULUS) % SN_MODULUS == (m - 1) % SN_MODULUS;
      }
    }
  }

  lemma {:induction false} ArrivalsAreExact(sdus: seq<Bytes>, cs: seq<Cursor>, pdus: seq<Pdu>, picks: seq<nat>)
    requires IsStream(sdus, cs, pdus) && Arrivals(picks, |pdus|)
    ensures forall i :: 0 <= i < |pdus| ==> pdus[i].pieces != []
    ensures Exact(sdus, cs, picks, ReassembleAll(pdus, picks))
    decreases |picks|
  {
    forall i | 0 <= i < |pdus| ensures pdus[i].pieces != [] {
      assert Carries(sdus, cs[i], cs[i + 1], pdus[i]);
    }
    if picks != [] {
      var fewer, n := picks[..|picks| - 1], picks[|picks| - 1];
      assert picks == fewer + [n];
      forall j | 0 < j < |fewer| ensures Follows(fewer, j) {
        assert Follows(picks, j);
      }
      ArrivalsAreExact(sdus, cs, pdus, fewer);
      assert Behind(fewer) <= n by {
        if fewer != [] {
          ArrivalsIncrease(picks, |pdus|, |fewer| - 1, |fewer|);
        }
      }
      ArrivalIsExact(sdus, cs, pdus, fewer, n, ReassembleAll(pdus, fewer));
    }
  }

  lemma NoneBehind(picks: seq<nat>, total: nat)
    requires Arrivals(picks, total)
    ensures Behind(picks) <= total && forall i :: Behind(picks) <= i ==> i !in picks
  {
    forall j | 0 <= j < |picks| ensures picks[j] < Behind(picks) {
      if j < |picks| - 1 {
        ArrivalsIncrease(picks, total, j, |picks| - 1);
      }
    }
  }

  /** Loss safety, exactly: of the SDUs sent in full, those and only those are
      handed up whose PDUs all arrived, each once, unchanged and in order. */
  lemma DeliversExactlyIntact(sdus: seq<Bytes>, cs: seq<Cursor>, pdus: seq<Pdu>, picks: seq<nat>)
    requires IsStream(sdus, cs, pdus) && Arrivals(picks, |pdus|)
    ensures forall i :: 0 <= i < |pdus| ==> pdus[i].pieces != []
    ensures ReassembleAll(pdus, picks).sdus == IntactSdus(sdus, cs, picks, cs[|pdus|].k)
  {
    hide Held, IntactSdus, LeftBehind, ReassembleAll;
    ArrivalsAreExact(sdus, cs, pdus, picks);
    var m := Behind(picks);
    CursorsAdvance(sdus, cs, pdus, m, |pdus|);
    NoneBehind(picks, |pdus|);
    forall k | cs[m].k <= k < cs[|pdus|].k ensures !Intact(cs, picks, k) {
      EndsMissing(sdus, cs, pdus, picks, m, |pdus|, k);
    }
    IntactStretch(sdus, cs, picks, cs[m].k, cs[|pdus|].k);
  }
}
