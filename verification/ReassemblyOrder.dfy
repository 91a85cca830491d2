/** Reassembly of one message of consecutively numbered segments, for every order in which
    they can arrive. */
module ReassemblyOrder {
  import opened SerialNumbers
  import opened Buffers
  import opened Reassembly

  /** The segments of a message: packet `i` of `packets` carries the PSN `i` places after `start`. */
  function SegmentType(i: nat, n: nat): u8 {
    if n == 1 then WRITE_SEG_ONLY
    else if i == 0 then WRITE_SEG_FIRST
    else if i == n - 1 then WRITE_SEG_LAST
    else WRITE_SEG_MIDDLE
  }

  function Segment(start: u32, packets: seq<Mbuf>, i: nat): Seg
    requires i < |packets|
  {
    Seg(Advance(start, i), packets[i], SegmentType(i, |packets|))
  }

  ghost predicate Arrivals(n: nat, arrivals: seq<nat>) {
    forall j :: 0 <= j < |arrivals| ==> arrivals[j] < n
  }

  /** What is pending after the segments with these indices have arrived, in this order. */
  function Collected(start: u32, packets: seq<Mbuf>, arrivals: seq<nat>): Message
    requires 0 < |arrivals| && Arrivals(|packets|, arrivals)
  {
    var last := arrivals[|arrivals| - 1];
    if |arrivals| == 1 then Added(Opened(Advance(start, last)), Segment(start, packets, last))
    else Added(Collected(start, packets, arrivals[..|arrivals| - 1]), Segment(start, packets, last))
  }

  /** The place of segment `i` when segment `k` came first. */
  function PlaceOf(k: nat, i: nat): (p: nat)
    ensures p < JB_MAX_SEGMENTS
  {
    (i - k) % JB_MAX_SEGMENTS
  }

  lemma SegmentPlace(start: u32, k: nat, i: nat)
    requires k < MAX_PSN && i < MAX_PSN
    ensures ForwardDist(Advance(start, k), Advance(start, i)) % JB_MAX_SEGMENTS == PlaceOf(k, i)
  {
    hide ForwardDist, Advance;
    DistToAdvanced(start, i);
    DistFromAdvanced(start, k, Advance(start, i));
  }

  lemma PlacesApart(n: nat, k: nat, i: nat, j: nat)
    requires i < n <= JB_MAX_SEGMENTS && j < n && k < n
    ensures PlaceOf(k, i) == PlaceOf(k, j) ==> i == j
    ensures i >= k ==> PlaceOf(k, i) == i - k
    ensures i < k ==> PlaceOf(k, i) == i - k + JB_MAX_SEGMENTS
  {
  }

  /** Exactly the arrived segments are stored, each once, each in its place. */
  ghost predicate HoldsExactly(m: Message, start: u32, packets: seq<Mbuf>, k: nat, arrivals: seq<nat>) {
    && Arrivals(|packets|, arrivals)
    && m.first == Advance(start, k)
    && (forall i :: i in arrivals ==> PlaceOf(k, i) in m.got && m.got[PlaceOf(k, i)] == Segment(start, packets, i))
    && (forall p :: p in m.got ==> exists i :: i in arrivals && PlaceOf(k, i) == p)
  }

  lemma AddedHoldsExactly(m: Message, start: u32, packets: seq<Mbuf>, k: nat, arrivals: seq<nat>, i: nat)
    requires HoldsExactly(m, start, packets, k, arrivals)
    requires |packets| <= JB_MAX_SEGMENTS && i < |packets| && k < |packets|
    ensures HoldsExactly(Added(m, Segment(start, packets, i)), start, packets, k, arrivals + [i])
  {
    var seg := Segment(start, packets, i);
    var m' := Added(m, seg);
    SegmentPlace(start, k, i);
    var p := PlaceOf(k, i);
    assert Place(m, seg.psn) == p;
    if p in m.got {
      var j :| j in arrivals && PlaceOf(k, j) == p;
      PlacesApart(|packets|, k, i, j);
    }
    forall j | j in arrivals + [i] ensures PlaceOf(k, j) in m'.got && m'.got[PlaceOf(k, j)] == Segment(start, packets, j) {
      PlacesApart(|packets|, k, i, j);
    }
    forall q | q in m'.got ensures exists j :: j in arrivals + [i] && PlaceOf(k, j) == q {
      if q == p {
        assert i in arrivals + [i];
      } else {
        var j :| j in arrivals && PlaceOf(k, j) == q;
        assert j in arrivals + [i];
      }
    }
  }

  /** After any arrivals, in any order and with any repetitions, exactly the arrived segments
      are stored. */
  lemma {:induction false} CollectedExactly(start: u32, packets: seq<Mbuf>, arrivals: seq<nat>)
    requires 0 < |packets| <= JB_MAX_SEGMENTS
    requires 0 < |arrivals| && Arrivals(|packets|, arrivals)
    ensures HoldsExactly(Collected(start, packets, arrivals), start, packets, arrivals[0], arrivals)
  {
    hide HoldsExactly, Added;
    var n := |arrivals| - 1;
    if n == 0 {
      assert HoldsExactly(Opened(Advance(start, arrivals[0])), start, packets, arrivals[0], []) by { OpenedHoldsNothing(start, packets, arrivals[0]); }
      AddedHoldsExactly(Opened(Advance(start, arrivals[0])), start, packets, arrivals[0], [], arrivals[0]);
      assert [] + [arrivals[0]] == arrivals;
    } else {
      CollectedExactly(start, packets, arrivals[..n]);
      AddedHoldsExactly(Collected(start, packets, arrivals[..n]), start, packets, arrivals[0], arrivals[..n], arrivals[n]);
      assert arrivals[..n] + [arrivals[n]] == arrivals;
    }
  }

  lemma OpenedHoldsNothing(start: u32, packets: seq<Mbuf>, k: nat)
    ensures HoldsExactly(Opened(Advance(start, k)), start, packets, k, [])
  {
  }

  /** The place a segment not before the first one belongs to holds it, or nothing. */
  lemma PlaceHoldsSegment(m: Message, start: u32, packets: seq<Mbuf>, k: nat, arrivals: seq<nat>, p: nat)
    requires HoldsExactly(m, start, packets, k, arrivals)
    requires |packets| <= JB_MAX_SEGMENTS && k + p < |packets|
    ensures p in m.got <==> k + p in arrivals
    ensures p in m.got ==> m.got[p] == Segment(start, packets, k + p)
  {
    PlacesApart(|packets|, k, k + p, k + p);
    if p in m.got {
      var j :| j in arrivals && PlaceOf(k, j) == p;
      PlacesApart(|packets|, k, k + p, j);
    }
  }

  /** The scan from place `p` succeeds exactly when every segment from `k + p` to the last has
      arrived, and then returns their packets in order. */
  lemma {:induction false} ScanExact(m: Message, start: u32, packets: seq<Mbuf>, k: nat, arrivals: seq<nat>, p: nat)
    requires HoldsExactly(m, start, packets, k, arrivals)
    requires 0 < |packets| <= JB_MAX_SEGMENTS && k + p < |packets|
    ensures OrderedFrom(m, p)
         == if forall i :: k + p <= i < |packets| ==> i in arrivals then Some(packets[k + p..]) else None
    decreases |packets| - p
  {
    hide HoldsExactly;
    var i, n := k + p, |packets|;
    PlaceHoldsSegment(m, start, packets, k, arrivals, p);
    if p in m.got {
      if i == n - 1 {
        assert packets[i..] == [packets[i]];
      } else {
        assert !Ends(m.got[p].segmentType);
        ScanExact(m, start, packets, k, arrivals, p + 1);
        assert packets[i..] == [packets[i]] + packets[i + 1..];
      }
    }
  }

  /** Whatever the order of arrival: delivery becomes possible exactly when every segment from
      the one that came first to the last has arrived, and then delivers exactly these. */
  lemma DeliveryExact(start: u32, packets: seq<Mbuf>, arrivals: seq<nat>)
    requires 0 < |packets| <= JB_MAX_SEGMENTS
    requires 0 < |arrivals| && Arrivals(|packets|, arrivals)
    ensures OrderedFrom(Collected(start, packets, arrivals), 0)
         == if forall i :: arrivals[0] <= i < |packets| ==> i in arrivals then Some(packets[arrivals[0]..]) else None
  {
    CollectedExactly(start, packets, arrivals);
    ScanExact(Collected(start, packets, arrivals), start, packets, arrivals[0], arrivals, 0);
  }

  lemma {:induction false} AtMost256Out(m: Message, k: nat)
    requires k <= JB_MAX_SEGMENTS
    ensures OrderedFrom(m, k).Some? ==> |OrderedFrom(m, k).value| <= JB_MAX_SEGMENTS - k
    decreases JB_MAX_SEGMENTS - k
  {
    if k < JB_MAX_SEGMENTS {
      AtMost256Out(m, k + 1);
    }
  }

  /** For messages of any length: the whole message comes out in order if and only if it has at
      most 256 segments, its segment 0 came first, and every segment has arrived. */
  lemma WholeMessageIff(start: u32, packets: seq<Mbuf>, arrivals: seq<nat>)
    requires 0 < |packets|
    requires 0 < |arrivals| && Arrivals(|packets|, arrivals)
    ensures OrderedFrom(Collected(start, packets, arrivals), 0) == Some(packets)
       <==> |packets| <= 256 && arrivals[0] == 0 && forall i :: 0 <= i < |packets| ==> i in arrivals
  {
    if |packets| <= JB_MAX_SEGMENTS {
      DeliveryExact(start, packets, arrivals);
      assert |packets[arrivals[0]..]| == |packets| - arrivals[0];
      assert packets[0..] == packets;
    } else {
      AtMost256Out(Collected(start, packets, arrivals), 0);
    }
  }

  /** Only which segments have arrived, and which came first, decides what is delivered. */
  lemma OrderIrrelevant(start: u32, packets: seq<Mbuf>, a: seq<nat>, b: seq<nat>)
    requires 0 < |packets| <= JB_MAX_SEGMENTS
    requires 0 < |a| && Arrivals(|packets|, a) && 0 < |b| && Arrivals(|packets|, b)
    requires a[0] == b[0] && forall i :: i in a <==> i in b
    ensures OrderedFrom(Collected(start, packets, a), 0) == OrderedFrom(Collected(start, packets, b), 0)
    ensures Collected(start, packets, a).got == Collected(start, packets, b).got
  {
    DeliveryExact(start, packets, a);
    DeliveryExact(start, packets, b);
    CollectedExactly(start, packets, a);
    CollectedExactly(start, packets, b);
    var x, y := Collected(start, packets, a).got, Collected(start, packets, b).got;
    forall p ensures p in x <==> p in y {
    }
    forall p | p in x ensures x[p] == y[p] {
      var i :| i in a && PlaceOf(a[0], i) == p;
    }
  }

  /** Before the last segment has arrived nothing is even looked at. */
  lemma EndSeenIff(start: u32, packets: seq<Mbuf>, arrivals: seq<nat>)
    requires 0 < |packets| <= JB_MAX_SEGMENTS
    requires 0 < |arrivals| && Arrivals(|packets|, arrivals)
    ensures EndSeen(Collected(start, packets, arrivals)) <==> |packets| - 1 in arrivals
  {
    CollectedExactly(start, packets, arrivals);
    EndSeenIfHolds(Collected(start, packets, arrivals), start, packets, arrivals[0], arrivals);
  }

  lemma EndSeenIfHolds(m: Message, start: u32, packets: seq<Mbuf>, k: nat, arrivals: seq<nat>)
    requires 0 < |packets| && HoldsExactly(m, start, packets, k, arrivals)
    ensures EndSeen(m) <==> |packets| - 1 in arrivals
  {
    hide PlaceOf;
    var n := |packets|;
    if n - 1 in arrivals {
      assert m.got[PlaceOf(k, n - 1)] == Segment(start, packets, n - 1);
      assert PlaceOf(k, n - 1) in m.got && Ends(m.got[PlaceOf(k, n - 1)].segmentType);
    }
    if p :| p in m.got && Ends(m.got[p].segmentType) {
      var i :| i in arrivals && PlaceOf(k, i) == p;
      assert m.got[p] == Segment(start, packets, i);
    }
  }

  // ----- gaps that are never reported -----

  /** While segments of one message arrive, the expected PSN moves on only when exactly the
      expected segment does. */
  lemma ExpectedStep(start: u32, packets: seq<Mbuf>, arrivals: seq<nat>, e: nat, i: nat)
    requires 0 < |packets| <= JB_MAX_SEGMENTS && 0 < |arrivals| && Arrivals(|packets|, arrivals)
    requires arrivals[0] == 0 && i < |packets| && i !in arrivals && e <= |packets|
    requires Collected(start, packets, arrivals).expected == Advance(start, e)
    ensures Collected(start, packets, arrivals + [i]).expected == Advance(start, if i == e then e + 1 else e)
  {
    CollectedOneMore(start, packets, arrivals, i);
    NewSegmentFits(start, packets, arrivals, i);
    AddedExpects(Collected(start, packets, arrivals), Segment(start, packets, i), start, e, i);
  }

  lemma AddedExpects(m: Message, seg: Seg, start: u32, e: nat, i: nat)
    requires e < MAX_PSN && i < MAX_PSN
    requires Place(m, seg.psn) !in m.got
    requires m.expected == Advance(start, e) && seg.psn == Advance(start, i)
    ensures Added(m, seg).expected == Advance(start, if i == e then e + 1 else e)
  {
    hide Place;
    SegmentsApart(start, e, i);
    NextAdvance(start, e);
  }

  lemma CollectedOneMore(start: u32, packets: seq<Mbuf>, arrivals: seq<nat>, i: nat)
    requires 0 < |arrivals| && Arrivals(|packets|, arrivals) && i < |packets|
    ensures Collected(start, packets, arrivals + [i]) == Added(Collected(start, packets, arrivals), Segment(start, packets, i))
  {
    assert (arrivals + [i])[..|arrivals|] == arrivals;
  }

  lemma NewSegmentFits(start: u32, packets: seq<Mbuf>, arrivals: seq<nat>, i: nat)
    requires 0 < |packets| <= JB_MAX_SEGMENTS && 0 < |arrivals| && Arrivals(|packets|, arrivals)
    requires arrivals[0] <= i < |packets| && i !in arrivals
    ensures Place(Collected(start, packets, arrivals), Segment(start, packets, i).psn) !in Collected(start, packets, arrivals).got
  {
    hide ForwardDist, Advance, PlaceOf, HoldsExactly;
    var m, k := Collected(start, packets, arrivals), arrivals[0];
    CollectedExactly(start, packets, arrivals);
    PlaceHoldsSegment(m, start, packets, k, arrivals, i - k);
    FirstStays(m, start, packets, k, arrivals);
    SegmentPlace(start, k, i);
    PlacesApart(|packets|, k, i, i);
  }

  lemma FirstStays(m: Message, start: u32, packets: seq<Mbuf>, k: nat, arrivals: seq<nat>)
    requires HoldsExactly(m, start, packets, k, arrivals)
    ensures m.first == Advance(start, k)
  {
  }

  lemma SegmentsApart(start: u32, e: nat, i: nat)
    requires e < MAX_PSN && i < MAX_PSN
    ensures ForwardDist(Advance(start, e), Advance(start, i)) == 0 <==> e == i
  {
    DistIsModular(Advance(start, e), Advance(start, i));
  }

  lemma NextAdvance(start: u32, e: nat)
    ensures (Advance(start, e) + 1) % MAX_PSN == Advance(start, e + 1)
  {
  }

  lemma FirstExpected(start: u32, packets: seq<Mbuf>)
    requires 0 < |packets|
    ensures Collected(start, packets, [0]).expected == Advance(start, 1)
  {
    SegmentsApart(start, 0, 0);
    NextAdvance(start, 0);
  }

  /** How many segments the expected PSN has passed: it passes one only when that arrives while
      it is the expected one. */
  function Passed(arrivals: seq<nat>): nat {
    if arrivals == [] then 0
    else
      var n := |arrivals| - 1;
      var k := Passed(arrivals[..n]);
      if arrivals[n] == k && k !in arrivals[..n] then k + 1 else k
  }

  /** The segments below `bound` arrived for the first time in increasing order: at any moment
      those of them that had arrived were followed by none that had not. */
  ghost predicate InOrder(arrivals: seq<nat>, bound: nat) {
    forall p, i, j :: 0 <= p <= |arrivals| && 0 <= i < j < bound && j in arrivals[..p] ==> i in arrivals[..p]
  }

  ghost predicate AllBelow(arrivals: seq<nat>, bound: nat) {
    forall i :: 0 <= i < bound ==> i in arrivals
  }

  lemma {:induction false} PassedHaveArrived(arrivals: seq<nat>)
    ensures AllBelow(arrivals, Passed(arrivals))
  {
    if arrivals != [] {
      var n := |arrivals| - 1;
      PassedHaveArrived(arrivals[..n]);
      assert arrivals == arrivals[..n] + [arrivals[n]];
    }
  }

  lemma {:induction false} PassedInOrder(arrivals: seq<nat>)
    ensures InOrder(arrivals, Passed(arrivals))
  {
    PassedHaveArrived(arrivals);
    if arrivals != [] {
      var n, k := |arrivals| - 1, Passed(arrivals);
      var before := arrivals[..n];
      PassedInOrder(before);
      forall p, i, j | 0 <= p <= n + 1 && 0 <= i < j < k && j in arrivals[..p] ensures i in arrivals[..p] {
        if p <= n {
          assert arrivals[..p] == before[..p];
        } else {
          assert arrivals[..p] == arrivals;
        }
      }
    }
  }

  lemma NextNotYet(arrivals: seq<nat>, bound: nat, k: nat)
    requires InOrder(arrivals, bound) && k + 1 < bound && k !in arrivals
    ensures k + 1 !in arrivals
  {
    assert arrivals[..|arrivals|] == arrivals;
  }

  /** Segments that come in order are passed as they come. */
  lemma {:induction false} InOrderIsPassed(arrivals: seq<nat>, bound: nat)
    requires InOrder(arrivals, bound) && bound !in arrivals
    ensures Passed(arrivals) <= bound && Passed(arrivals) !in arrivals
  {
    if arrivals != [] {
      var n := |arrivals| - 1;
      var before := arrivals[..n];
      forall p, i, j | 0 <= p <= n && 0 <= i < j < bound && j in before[..p] ensures i in before[..p] {
        assert before[..p] == arrivals[..p];
      }
      InOrderIsPassed(before, bound);
      assert arrivals == before + [arrivals[n]];
      var k := Passed(before);
      if k + 1 < bound {
        NextNotYet(before, bound, k);
      }
    }
  }

  /** The least segment missing is the one expected exactly when those before it came in order. */
  lemma PassedIff(arrivals: seq<nat>, least: nat)
    requires AllBelow(arrivals, least) && least !in arrivals
    ensures Passed(arrivals) <= least
    ensures Passed(arrivals) == least <==> InOrder(arrivals, least)
    ensures Passed(arrivals) in arrivals <==> !InOrder(arrivals, least)
  {
    hide Passed;
    PassedHaveArrived(arrivals);
    PassedInOrder(arrivals);
    if InOrder(arrivals, least) {
      InOrderIsPassed(arrivals, least);
    }
  }

  /** A segment that has arrived before changes nothing. */
  lemma RepeatChangesNothing(start: u32, packets: seq<Mbuf>, arrivals: seq<nat>, i: nat)
    requires 0 < |packets| <= JB_MAX_SEGMENTS && 0 < |arrivals| && Arrivals(|packets|, arrivals)
    requires arrivals[0] == 0 && i in arrivals
    ensures Collected(start, packets, arrivals + [i]) == Collected(start, packets, arrivals)
  {
    var m := Collected(start, packets, arrivals);
    CollectedOneMore(start, packets, arrivals, i);
    CollectedExactly(start, packets, arrivals);
    PlaceHoldsSegment(m, start, packets, 0, arrivals, i);
    SegmentPlace(start, 0, i);
    PlacesApart(|packets|, 0, i, i);
  }

  lemma {:induction false} ExpectedIsPassed(start: u32, packets: seq<Mbuf>, arrivals: seq<nat>)
    requires 0 < |packets| <= JB_MAX_SEGMENTS && 0 < |arrivals| && Arrivals(|packets|, arrivals)
    requires arrivals[0] == 0
    ensures Passed(arrivals) <= |packets|
    ensures Collected(start, packets, arrivals).expected == Advance(start, Passed(arrivals))
  {
    hide Collected, Advance;
    var n := |arrivals| - 1;
    var before := arrivals[..n];
    assert before + [arrivals[n]] == arrivals;
    if n == 0 {
      FirstExpected(start, packets);
    } else {
      ExpectedIsPassed(start, packets, before);
      if arrivals[n] in before {
        RepeatChangesNothing(start, packets, before, arrivals[n]);
      } else {
        ExpectedStep(start, packets, before, Passed(before), arrivals[n]);
      }
    }
  }

  /** With the segment expected next stored, or none left to expect, nothing is missing. */
  lemma MissingAfter(m: Message, start: u32, packets: seq<Mbuf>, arrivals: seq<nat>, k: nat)
    requires 0 < |packets| <= JB_MAX_SEGMENTS && k <= |packets| && 0 in arrivals
    requires HoldsExactly(m, start, packets, 0, arrivals) && m.expected == Advance(start, k)
    ensures MissingIn(m) == if k in arrivals || k == JB_MAX_SEGMENTS then 0 else Advance(start, k)
  {
    hide Advance, ForwardDist;
    SegmentPlace(start, 0, k);
    var p := PlaceOf(0, k);
    if k < |packets| {
      PlacesApart(|packets|, 0, k, k);
      PlaceHoldsSegment(m, start, packets, 0, arrivals, k);
    } else if k == JB_MAX_SEGMENTS {
      assert PlaceOf(0, 0) in m.got;
    } else {
      forall i | i in arrivals ensures PlaceOf(0, i) != p {
        PlacesApart(|packets|, 0, i, i);
      }
    }
  }

  /** What is reported missing, for every order of arrival that starts with segment 0: the least
      segment that has not arrived, if those before it first arrived in increasing order;
      otherwise nothing.  With every segment there, `least` is one past the last: a message of
      fewer than 256 segments then still reports the PSN behind it. */
  lemma GapReportExact(start: u32, packets: seq<Mbuf>, arrivals: seq<nat>, least: nat)
    requires 0 < |packets| <= JB_MAX_SEGMENTS && 0 < |arrivals| && Arrivals(|packets|, arrivals)
    requires arrivals[0] == 0
    requires least <= |packets| && AllBelow(arrivals, least) && least !in arrivals
    ensures MissingIn(Collected(start, packets, arrivals))
         == if InOrder(arrivals, least) && least < JB_MAX_SEGMENTS then Advance(start, least) else 0
  {
    hide Collected, Advance, HoldsExactly, InOrder, MissingIn, Passed;
    PassedIff(arrivals, least);
    ExpectedIsPassed(start, packets, arrivals);
    CollectedExactly(start, packets, arrivals);
    MissingAfter(Collected(start, packets, arrivals), start, packets, arrivals, Passed(arrivals));
  }

  /** So a missing segment is reported exactly when those before it came in order and its PSN
      is not 0. */
  lemma GapReportedIff(start: u32, packets: seq<Mbuf>, arrivals: seq<nat>, least: nat)
    requires 0 < |packets| <= JB_MAX_SEGMENTS && 0 < |arrivals| && Arrivals(|packets|, arrivals)
    requires arrivals[0] == 0
    requires least < |packets| && AllBelow(arrivals, least) && least !in arrivals
    ensures MissingIn(Collected(start, packets, arrivals)) != 0 <==> InOrder(arrivals, least) && Advance(start, least) != 0
  {
    hide Collected, Advance, InOrder, MissingIn;
    GapReportExact(start, packets, arrivals, least);
  }

  // ----- whatever came first -----

  lemma {:induction false} CollectedPrefix(start: u32, packets: seq<Mbuf>, arrivals: seq<nat>)
    requires 0 < |arrivals| && Arrivals(|packets|, arrivals)
    ensures PrefixReceived(Collected(start, packets, arrivals))
    ensures Collected(start, packets, arrivals).expected < MAX_PSN
  {
    hide PrefixReceived, Place;
    var n := |arrivals| - 1;
    var seg := Segment(start, packets, arrivals[n]);
    if n == 0 {
      OpenedPrefix(seg.psn);
      AddedPrefix(Opened(seg.psn), seg);
    } else {
      CollectedPrefix(start, packets, arrivals[..n]);
      AddedPrefix(Collected(start, packets, arrivals[..n]), seg);
    }
  }

  lemma SamePsnSameSegment(start: u32, i: nat, j: nat)
    requires i < MAX_PSN && j < MAX_PSN && Advance(start, i) == Advance(start, j)
    ensures i == j
  {
    hide Advance, ForwardDist;
    DistToAdvanced(start, i);
    DistToAdvanced(start, j);
  }

  /** Everything between the first segment and the expected one is stored. */
  lemma PrefixIsStored(m: Message, start: u32, packets: seq<Mbuf>, k: nat, arrivals: seq<nat>, c: nat)
    requires HoldsExactly(m, start, packets, k, arrivals) && |packets| <= JB_MAX_SEGMENTS && k < |packets|
    requires PrefixReceived(m) && c < ForwardDist(m.first, m.expected)
    ensures k + c < |packets| && k + c in arrivals
  {
    hide ForwardDist, Place, PlaceOf, Advance;
    assert c in m.got;
    var i :| i in arrivals && PlaceOf(k, i) == c;
    AdvanceTwice(start, k, c);
    assert m.got[c].psn == Advance(start, i);
    assert Masked24(Advance(start, i)) == Advance(start, k + c);
    SamePsnSameSegment(start, i, k + c);
  }

  /** `p` is the PSN of segment `j`, or of the place after the last, and every segment from the
      first that arrived up to `j` has arrived. */
  ghost predicate NamesNext(start: u32, n: nat, arrivals: seq<nat>, p: u32, j: nat) {
    && arrivals != [] && arrivals[0] < j <= n && p == Advance(start, j)
    && forall c :: arrivals[0] <= c < j ==> c in arrivals
  }

  /** Whatever came first: a PSN reported missing is that of a segment not stored, or the one
      after the last, with everything from the first segment up to it stored. */
  lemma MissingNamesGap(start: u32, packets: seq<Mbuf>, arrivals: seq<nat>)
    requires 0 < |packets| <= JB_MAX_SEGMENTS && 0 < |arrivals| && Arrivals(|packets|, arrivals)
    requires MissingIn(Collected(start, packets, arrivals)) != 0
    ensures exists j: nat :: NamesNext(start, |packets|, arrivals, MissingIn(Collected(start, packets, arrivals)), j) && j !in arrivals
  {
    hide Collected, Advance, ForwardDist, HoldsExactly, PrefixReceived, PlaceOf;
    var m, k := Collected(start, packets, arrivals), arrivals[0];
    CollectedExactly(start, packets, arrivals);
    CollectedPrefix(start, packets, arrivals);
    FirstStays(m, start, packets, k, arrivals);
    var d := ForwardDist(m.first, m.expected);
    PlaceHoldsSegment(m, start, packets, k, arrivals, 0);
    ExpectedNear(m);
    assert d % JB_MAX_SEGMENTS !in m.got;
    PrefixIsStored(m, start, packets, k, arrivals, d - 1);
    forall c | k <= c < k + d ensures c in arrivals {
      PrefixIsStored(m, start, packets, k, arrivals, c - k);
    }
    if k + d < |packets| {
      PlaceHoldsSegment(m, start, packets, k, arrivals, d);
    }
    AdvanceTwice(start, k, d);
    assert NamesNext(start, |packets|, arrivals, MissingIn(m), k + d);
  }

  lemma ExpectedNear(m: Message)
    requires PrefixReceived(m)
    ensures ForwardDist(m.first, m.expected) <= JB_MAX_SEGMENTS
    ensures Masked24(m.expected) == Advance(m.first, ForwardDist(m.first, m.expected))
  {
  }

  /** The message after further segments. */
  function AddedAll(m: Message, segs: seq<Seg>): Message {
    if segs == [] then m else Added(AddedAll(m, segs[..|segs| - 1]), segs[|segs| - 1])
  }

  /** Once the expected segment is already stored the report is silent for good, whatever still
      arrives and whatever is still missing. */
  lemma {:induction false} SilentForGood(m: Message, segs: seq<Seg>)
    requires Place(m, m.expected) in m.got
    ensures AddedAll(m, segs).expected == m.expected && AddedAll(m, segs).first == m.first
    ensures Place(m, m.expected) in AddedAll(m, segs).got
    ensures MissingIn(AddedAll(m, segs)) == 0
  {
    if segs != [] {
      var n := |segs| - 1;
      var b := AddedAll(m, segs[..n]);
      SilentForGood(m, segs[..n]);
      if ForwardDist(b.expected, segs[n].psn) == 0 {
        ZeroDistance(b.expected, segs[n].psn);
        DistMasked(b.first, b.first, b.expected, segs[n].psn);
      }
    }
  }

  /** An order in which the report is lost: segments 0, 2, 1 and 4 have arrived, 3 has not. */
  lemma GapUnreported(start: u32, packets: seq<Mbuf>)
    requires |packets| == 5
    ensures MissingIn(Collected(start, packets, [0, 2, 1, 4])) == 0
  {
    var a: seq<nat> := [0, 2, 1, 4];
    assert AllBelow(a, 3) && 3 !in a;
    assert a[..2] == [0, 2];
    assert 2 in a[..2] && 1 !in a[..2];
    GapReportExact(start, packets, a, 3);
  }
}
