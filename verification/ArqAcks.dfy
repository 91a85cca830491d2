/** What acknowledgements do to a window whose entries carry consecutive PSNs: the exact
    set of entries each one frees, and when their order of arrival matters. */
module ArqAcks {
  import opened SerialNumbers
  import opened Buffers
  import opened ArqWindow

  function Occupancy(w: Window): nat
    requires w.base <= w.next
  {
    w.next - w.base
  }

  /** At most one entry per slot, entry `i` carrying the PSN `i - base` places after `first`. */
  ghost predicate Consecutive(w: Window, first: u32) {
    && |w.slots| == WINDOW_SIZE
    && w.base <= w.next <= w.base + WINDOW_SIZE
    && forall i: nat {:trigger Slot(i)} :: w.base <= i < w.next ==> Masked24(w.slots[Slot(i)].psn) == Advance(first, i - w.base)
  }

  /** How far slot `s` is past the slot of the base, going round the ring. */
  function RingOffset(base: nat, s: nat): (k: nat)
    ensures k < WINDOW_SIZE
  {
    (s - base) % WINDOW_SIZE
  }

  /** The window without its first `k` entries. */
  function Popped(w: Window, k: nat): (w': Window)
    requires |w.slots| == WINDOW_SIZE
    ensures |w'.slots| == WINDOW_SIZE
    ensures forall s {:trigger w'.slots[s]} :: 0 <= s < WINDOW_SIZE ==> w'.slots[s].psn == w.slots[s].psn
  {
    w.(slots := seq(WINDOW_SIZE, s requires 0 <= s < WINDOW_SIZE =>
                 if RingOffset(w.base, s) < k then w.slots[s].(mbuf := None, inFlight := false) else w.slots[s]),
       base := w.base + k,
       totalAcked := w.totalAcked + k)
  }

  /** How many entries an ACK at forward distance `d` from the base frees. */
  function AckCount(d: nat, occupancy: nat): nat {
    if d >= HALF then 0 else if d + 1 < occupancy then d + 1 else occupancy
  }

  lemma OffsetOfSlot(base: nat, i: nat)
    requires base <= i < base + WINDOW_SIZE
    ensures RingOffset(base, Slot(i)) == i - base
  {
  }

  lemma OffsetFromSlot(base: nat, s: nat)
    requires s < WINDOW_SIZE
    ensures RingOffset(base, s) == if s >= Slot(base) then s - Slot(base) else s - Slot(base) + WINDOW_SIZE
  {
  }

  lemma NextSlot(base: nat)
    ensures Slot(base + 1) == if Slot(base) == WINDOW_SIZE - 1 then 0 else Slot(base) + 1
  {
  }

  lemma OffsetAfter(base: nat, s: nat)
    requires s < WINDOW_SIZE
    ensures RingOffset(base, s) == 0 <==> s == Slot(base)
    ensures s != Slot(base) ==> RingOffset(base + 1, s) == RingOffset(base, s) - 1
    ensures s == Slot(base) ==> RingOffset(base + 1, s) == WINDOW_SIZE - 1
  {
    hide RingOffset, Slot;
    OffsetFromSlot(base, s);
    OffsetFromSlot(base + 1, s);
    NextSlot(base);
  }

  lemma PopThenPopped(w: Window, k: nat)
    requires |w.slots| == WINDOW_SIZE && k < WINDOW_SIZE
    ensures Popped(PopBase(w), k) == Popped(w, k + 1)
  {
    var a, b := Popped(PopBase(w), k), Popped(w, k + 1);
    forall s | 0 <= s < WINDOW_SIZE ensures a.slots[s] == b.slots[s] {
      OffsetAfter(w.base, s);
    }
    assert a.slots == b.slots;
  }

  lemma PoppedNone(w: Window)
    requires |w.slots| == WINDOW_SIZE
    ensures Popped(w, 0) == w
  {
    assert Popped(w, 0).slots == w.slots;
  }

  lemma PopConsecutive(w: Window, first: u32)
    requires Consecutive(w, first) && w.base < w.next
    ensures Consecutive(PopBase(w), Advance(first, 1))
  {
    hide Advance, Masked24, Slot;
    var w', f' := PopBase(w), Advance(first, 1);
    forall i: nat {:trigger Slot(i)} | w'.base <= i < w'.next
      ensures Masked24(w'.slots[Slot(i)].psn) == Advance(f', i - w'.base)
    {
      AdvanceTwice(first, 1, i - w'.base);
      assert Masked24(w.slots[Slot(i)].psn) == Advance(first, i - w.base);
    }
  }

  lemma BaseDistance(w: Window, first: u32, ack: u32)
    requires Consecutive(w, first) && w.base < w.next
    ensures ForwardDist(w.slots[Slot(w.base)].psn, ack) == ForwardDist(first, ack)
  {
    assert Masked24(w.slots[Slot(w.base)].psn) == Advance(first, 0) == Masked24(first);
    DistMasked(w.slots[Slot(w.base)].psn, first, ack, ack);
  }

  /** A cumulative ACK frees exactly the entries up to its PSN, if that is not behind the base,
      and nothing otherwise. */
  lemma {:induction false} CumulativeAckExact(w: Window, first: u32, ack: u32)
    requires Consecutive(w, first)
    ensures Acked(w, ack) == Popped(w, AckCount(ForwardDist(first, ack), Occupancy(w)))
    decreases w.next - w.base
  {
    hide Popped;
    PoppedNone(w);
    if w.base < w.next {
      BaseDistance(w, first, ack);
      if BaseAcked(w, ack) {
        PopConsecutive(w, first);
        CumulativeAckExact(PopBase(w), Advance(first, 1), ack);
        DistFromAdvanced(first, 1, ack);
        PopThenPopped(w, AckCount(ForwardDist(Advance(first, 1), ack), Occupancy(w) - 1));
      }
    }
  }

  /** Entry by entry: what the ACK covers is out of the window, the rest is untouched. */
  lemma AckFreesExactly(w: Window, first: u32, ack: u32, i: nat)
    requires Consecutive(w, first) && w.base <= i < w.next
    ensures var d, w' := ForwardDist(first, ack), Acked(w, ack);
            if d < HALF && i - w.base <= d
            then i < w'.base && w'.slots[Slot(i)] == w.slots[Slot(i)].(mbuf := None, inFlight := false)
            else w'.base <= i && w'.slots[Slot(i)] == w.slots[Slot(i)]
  {
    CumulativeAckExact(w, first, ack);
    OffsetOfSlot(w.base, i);
  }

  // ----- the packets given back -----

  /** The packets of entries `i` to `j`, in order. */
  function ReleasesOf(slots: seq<Entry>, i: nat, j: nat): seq<BufferOp>
    requires |slots| == WINDOW_SIZE
    decreases j - i
  {
    if i >= j then [] else ReleasePacket(slots[Slot(i)]) + ReleasesOf(slots, i + 1, j)
  }

  lemma {:induction false} ReleasesUntouched(slots: seq<Entry>, i: nat, j: nat, s: nat, e: Entry)
    requires |slots| == WINDOW_SIZE && s < WINDOW_SIZE
    requires forall c: nat {:trigger Slot(c)} :: i <= c < j ==> Slot(c) != s
    ensures ReleasesOf(slots[s := e], i, j) == ReleasesOf(slots, i, j)
    decreases j - i
  {
    if i < j {
      assert Slot(i) != s;
      ReleasesUntouched(slots, i + 1, j, s, e);
    }
  }

  lemma Bounds(w: Window, first: u32)
    requires Consecutive(w, first)
    ensures |w.slots| == WINDOW_SIZE && w.base <= w.next <= w.base + WINDOW_SIZE
  {
  }

  lemma CountAfterPop(first: u32, ack: u32, n: nat)
    requires 0 < n <= WINDOW_SIZE && ForwardDist(first, ack) < HALF
    ensures AckCount(ForwardDist(first, ack), n) == 1 + AckCount(ForwardDist(Advance(first, 1), ack), n - 1)
  {
    DistFromAdvanced(first, 1, ack);
  }

  lemma ReleasesPastBase(w: Window, j: nat)
    requires |w.slots| == WINDOW_SIZE && w.base < j <= w.base + WINDOW_SIZE
    ensures ReleasesOf(PopBase(w).slots, w.base + 1, j) == ReleasesOf(w.slots, w.base + 1, j)
  {
    ReleasesUntouched(w.slots, w.base + 1, j, Slot(w.base), PopBase(w).slots[Slot(w.base)]);
  }

  /** An ACK gives back exactly the packets of the entries it frees, once each, oldest first. */
  lemma {:induction false} AckReleasesExactly(w: Window, first: u32, ack: u32)
    requires Consecutive(w, first)
    ensures AckOps(w, ack) == ReleasesOf(w.slots, w.base, w.base + AckCount(ForwardDist(first, ack), Occupancy(w)))
    decreases w.next - w.base
  {
    hide Consecutive, ForwardDist, ReleasePacket;
    Bounds(w, first);
    if w.base < w.next {
      BaseDistance(w, first, ack);
      if BaseAcked(w, ack) {
        PopConsecutive(w, first);
        AckReleasesExactly(PopBase(w), Advance(first, 1), ack);
        CountAfterPop(first, ack, Occupancy(w));
        ReleasesPastBase(w, w.base + AckCount(ForwardDist(first, ack), Occupancy(w)));
      }
    }
  }

  // ----- several acknowledgements -----

  lemma PoppedTwice(w: Window, j: nat, k: nat)
    requires |w.slots| == WINDOW_SIZE && j + k <= WINDOW_SIZE
    ensures Popped(Popped(w, j), k) == Popped(w, j + k)
  {
    var a, b := Popped(Popped(w, j), k), Popped(w, j + k);
    forall s | 0 <= s < WINDOW_SIZE ensures a.slots[s] == b.slots[s] {
      var r := RingOffset(w.base, s);
      assert RingOffset(w.base + j, s) == if r >= j then r - j else r - j + WINDOW_SIZE;
    }
    assert a.slots == b.slots;
  }

  lemma PoppedConsecutive(w: Window, first: u32, k: nat)
    requires Consecutive(w, first) && k <= Occupancy(w)
    ensures Consecutive(Popped(w, k), Advance(first, k))
  {
    hide Advance, Masked24, Slot;
    var w', f' := Popped(w, k), Advance(first, k);
    forall i: nat {:trigger Slot(i)} | w'.base <= i < w'.next
      ensures Masked24(w'.slots[Slot(i)].psn) == Advance(f', i - w'.base)
    {
      AdvanceTwice(first, k, i - w'.base);
      assert Masked24(w.slots[Slot(i)].psn) == Advance(first, i - w.base);
    }
  }

  /** How many more entries a second ACK frees after the first has freed `f`. */
  function MoreCount(d: nat, f: nat, occupancy: nat): nat
    requires d < MAX_PSN && f <= occupancy <= WINDOW_SIZE
  {
    AckCount(if f <= d then d - f else d - f + MAX_PSN, occupancy - f)
  }

  lemma TwoAcks(w: Window, first: u32, f: nat, q: u32)
    requires Consecutive(w, first) && f <= Occupancy(w)
    ensures Acked(Popped(w, f), q) == Popped(w, f + MoreCount(ForwardDist(first, q), f, Occupancy(w)))
  {
    hide Popped;
    PoppedConsecutive(w, first, f);
    assert Occupancy(Popped(w, f)) == Occupancy(w) - f by { PoppedBounds(w, f); }
    CumulativeAckExact(Popped(w, f), Advance(first, f), q);
    DistFromAdvanced(first, f, q);
    PoppedTwice(w, f, MoreCount(ForwardDist(first, q), f, Occupancy(w)));
  }

  lemma PoppedBounds(w: Window, f: nat)
    requires |w.slots| == WINDOW_SIZE
    ensures Popped(w, f).base == w.base + f && Popped(w, f).next == w.next
  {
  }

  /** An ACK that looks stale to the window as it is but fresh once `f` entries, and not all,
      have left it. */
  predicate Overtaken(d: nat, f: nat, occupancy: nat) {
    HALF <= d < HALF + f && f < occupancy
  }

  /** How many entries two ACKs free between them, in this order. */
  function TotalCount(d: nat, e: nat, occupancy: nat): (n: nat)
    requires d < MAX_PSN && e < MAX_PSN && occupancy <= WINDOW_SIZE
  {
    AckCount(d, occupancy) + MoreCount(e, AckCount(d, occupancy), occupancy)
  }

  lemma AckAfterAck(w: Window, first: u32, p: u32, q: u32)
    requires Consecutive(w, first)
    ensures Acked(Acked(w, p), q) == Popped(w, TotalCount(ForwardDist(first, p), ForwardDist(first, q), Occupancy(w)))
  {
    assert AckCount(ForwardDist(first, p), Occupancy(w)) <= Occupancy(w) <= WINDOW_SIZE;
    hide Popped, MoreCount, ForwardDist, AckCount, Consecutive;
    CumulativeAckExact(w, first, p);
    TwoAcks(w, first, AckCount(ForwardDist(first, p), Occupancy(w)), q);
  }

  /** Two ACKs can be exchanged exactly when neither overtakes the other. */
  lemma AcksCommuteIff(w: Window, first: u32, p: u32, q: u32)
    requires Consecutive(w, first)
    ensures Acked(Acked(w, p), q) == Acked(Acked(w, q), p)
       <==> var d, e, n := ForwardDist(first, p), ForwardDist(first, q), Occupancy(w);
            !Overtaken(e, AckCount(d, n), n) && !Overtaken(d, AckCount(e, n), n)
  {
    hide Popped, AckCount, TotalCount, Overtaken;
    var d, e, n := ForwardDist(first, p), ForwardDist(first, q), Occupancy(w);
    AckAfterAck(w, first, p, q);
    AckAfterAck(w, first, q, p);
    PoppedBounds(w, TotalCount(d, e, n));
    PoppedBounds(w, TotalCount(e, d, n));
    TotalsAgreeIff(d, e, n);
  }

  /** It does happen: in every window of two entries or more, the ACK for the first entry and the one
      half the number space ahead of it free everything in this order and one entry in the other. */
  lemma AcksNeedNotCommute(w: Window, first: u32)
    requires Consecutive(w, first) && Occupancy(w) >= 2
    ensures var far := Advance(first, HALF);
            && Acked(Acked(w, first), far).base == w.next
            && Acked(Acked(w, far), first).base == w.base + 1
  {
    hide Popped, Advance, ForwardDist;
    var far, n := Advance(first, HALF), Occupancy(w);
    DistToAdvanced(first, HALF);
    SelfDistance(first);
    AckAfterAck(w, first, first, far);
    AckAfterAck(w, first, far, first);
    PoppedBounds(w, TotalCount(0, HALF, n));
    PoppedBounds(w, TotalCount(HALF, 0, n));
  }

  lemma SelfDistance(p: u32)
    ensures ForwardDist(p, p) == 0
  {
  }

  lemma TotalsAgreeIff(d: nat, e: nat, n: nat)
    requires d < MAX_PSN && e < MAX_PSN && n <= WINDOW_SIZE
    ensures TotalCount(d, e, n) == TotalCount(e, d, n)
       <==> !Overtaken(e, AckCount(d, n), n) && !Overtaken(d, AckCount(e, n), n)
  {
  }

  /** A repeated ACK does nothing more. */
  lemma AckIdempotent(w: Window, first: u32, p: u32)
    requires Consecutive(w, first)
    ensures Acked(Acked(w, p), p) == Acked(w, p)
  {
    hide Popped;
    CumulativeAckExact(w, first, p);
    TwoAcks(w, first, AckCount(ForwardDist(first, p), Occupancy(w)), p);
  }

  /** The window after a sequence of ACKs. */
  function AckedAll(w: Window, acks: seq<u32>): (w': Window)
    requires |w.slots| == WINDOW_SIZE
    ensures |w'.slots| == WINDOW_SIZE
  {
    if acks == [] then w else Acked(AckedAll(w, acks[..|acks| - 1]), acks[|acks| - 1])
  }

  function MaxCount(first: u32, occupancy: nat, acks: seq<u32>): nat {
    if acks == [] then 0
    else
      var before, last := MaxCount(first, occupancy, acks[..|acks| - 1]), AckCount(ForwardDist(first, acks[|acks| - 1]), occupancy);
      if last > before then last else before
  }

  lemma {:induction false} MaxCountIsMax(first: u32, occupancy: nat, acks: seq<u32>)
    ensures forall k :: 0 <= k < |acks| ==> AckCount(ForwardDist(first, acks[k]), occupancy) <= MaxCount(first, occupancy, acks)
    ensures MaxCount(first, occupancy, acks) == 0
         || exists k :: 0 <= k < |acks| && AckCount(ForwardDist(first, acks[k]), occupancy) == MaxCount(first, occupancy, acks)
    ensures MaxCount(first, occupancy, acks) <= occupancy
  {
    if acks != [] {
      MaxCountIsMax(first, occupancy, acks[..|acks| - 1]);
    }
  }

  /** No ACK of the sequence is of the kind that looks stale first and fresh later. */
  ghost predicate NoneAmbiguous(first: u32, occupancy: nat, acks: seq<u32>) {
    forall k :: 0 <= k < |acks| ==> !(HALF <= ForwardDist(first, acks[k]) < HALF + occupancy)
  }

  lemma {:induction false} AckedAllExact(w: Window, first: u32, acks: seq<u32>)
    requires Consecutive(w, first)
    requires NoneAmbiguous(first, Occupancy(w), acks)
    ensures AckedAll(w, acks) == Popped(w, MaxCount(first, Occupancy(w), acks))
  {
    hide Popped, ForwardDist, MoreCount, AckCount, Consecutive;
    Bounds(w, first);
    if acks == [] {
      PoppedNone(w);
    } else {
      var front, last := acks[..|acks| - 1], acks[|acks| - 1];
      var before := MaxCount(first, Occupancy(w), front);
      assert last == acks[|acks| - 1];
      assert forall k :: 0 <= k < |front| ==> front[k] == acks[k];
      AckedAllExact(w, first, front);
      MaxCountIsMax(first, Occupancy(w), front);
      TwoAcks(w, first, before, last);
      MoreMakesMax(ForwardDist(first, last), before, Occupancy(w));
    }
  }

  /** After `f` entries have gone, an unambiguous ACK frees what it would have freed beyond them. */
  lemma MoreMakesMax(d: nat, f: nat, n: nat)
    requires d < MAX_PSN && f <= n <= WINDOW_SIZE && !(HALF <= d < HALF + n)
    ensures f + MoreCount(d, f, n) == if AckCount(d, n) > f then AckCount(d, n) else f
  {
  }

  lemma TopCountIsMax(first: u32, n: nat, acks: seq<u32>, top: u32)
    requires top in acks && ForwardDist(first, top) < HALF
    requires forall a :: a in acks && ForwardDist(first, a) < HALF ==> ForwardDist(first, a) <= ForwardDist(first, top)
    ensures MaxCount(first, n, acks) == AckCount(ForwardDist(first, top), n)
  {
    hide ForwardDist;
    MaxCountIsMax(first, n, acks);
    var k :| 0 <= k < |acks| && acks[k] == top;
    assert AckCount(ForwardDist(first, acks[k]), n) <= MaxCount(first, n, acks);
    if MaxCount(first, n, acks) > 0 {
      var j :| 0 <= j < |acks| && AckCount(ForwardDist(first, acks[j]), n) == MaxCount(first, n, acks);
      assert acks[j] in acks;
    }
  }

  /** Any sequence of unambiguous ACKs, in any order and with any repetitions, ends where the
      one furthest ahead would have ended alone. */
  lemma AcksEndAtFurthest(w: Window, first: u32, acks: seq<u32>, top: u32)
    requires Consecutive(w, first)
    requires NoneAmbiguous(first, Occupancy(w), acks)
    requires top in acks && ForwardDist(first, top) < HALF
    requires forall a :: a in acks && ForwardDist(first, a) < HALF ==> ForwardDist(first, a) <= ForwardDist(first, top)
    ensures AckedAll(w, acks) == Acked(w, top)
  {
    AckedAllExact(w, first, acks);
    CumulativeAckExact(w, first, top);
    TopCountIsMax(first, Occupancy(w), acks, top);
  }

  /** Only which ACKs arrive matters, not their order or their number. */
  lemma AckOrderIrrelevant(w: Window, first: u32, a: seq<u32>, b: seq<u32>)
    requires Consecutive(w, first)
    requires NoneAmbiguous(first, Occupancy(w), a)
    requires forall p :: p in a <==> p in b
    ensures AckedAll(w, a) == AckedAll(w, b)
  {
    hide Popped;
    var n := Occupancy(w);
    forall k | 0 <= k < |b| ensures !(HALF <= ForwardDist(first, b[k]) < HALF + n) {
      assert b[k] in a;
    }
    AckedAllExact(w, first, a);
    AckedAllExact(w, first, b);
    SameElementsSameMax(first, n, a, b);
    SameElementsSameMax(first, n, b, a);
  }

  lemma SameElementsSameMax(first: u32, n: nat, a: seq<u32>, b: seq<u32>)
    requires forall p :: p in a ==> p in b
    ensures MaxCount(first, n, a) <= MaxCount(first, n, b)
  {
    MaxCountIsMax(first, n, a);
    MaxCountIsMax(first, n, b);
    if MaxCount(first, n, a) > 0 {
      var k :| 0 <= k < |a| && AckCount(ForwardDist(first, a[k]), n) == MaxCount(first, n, a);
      assert a[k] in b;
      var j :| 0 <= j < |b| && b[j] == a[k];
      assert AckCount(ForwardDist(first, b[j]), n) <= MaxCount(first, n, b);
    }
  }
}
