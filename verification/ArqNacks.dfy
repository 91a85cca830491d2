/** Which entries of a consecutive window a NACK has retransmitted. */
module ArqNacks {
  import opened SerialNumbers
  import opened ArqWindow
  import opened ArqAcks

  /** The counters from `a` up to but not including `b`. */
  function Range(a: nat, b: nat): (r: seq<nat>)
    ensures |r| == if a <= b then b - a else 0
    ensures forall k :: 0 <= k < |r| ==> r[k] == a + k
    decreases b - a
  {
    if a >= b then [] else [a] + Range(a + 1, b)
  }

  lemma RangeMembers(a: nat, b: nat, i: nat)
    ensures i in Range(a, b) <==> a <= i < b
  {
    if a <= i < b {
      assert Range(a, b)[i - a] == i;
    }
  }

  /** The first entry, counted from the base, that a NACK at distance `d` selects. */
  function FirstPick(d: nat): nat {
    if d < HALF then 0 else d - HALF + 1
  }

  /** One past the last entry it would select with no limit on the burst. */
  function PickLimit(d: nat, occupancy: nat): nat {
    if d + 1 < occupancy then d + 1 else occupancy
  }

  lemma EntryDistance(w: Window, first: u32, nack: u32, i: nat)
    requires Consecutive(w, first) && w.base <= i < w.next
    ensures ForwardDist(w.slots[Slot(i)].psn, nack) < HALF
       <==> FirstPick(ForwardDist(first, nack)) <= i - w.base <= ForwardDist(first, nack)
  {
    assert Masked24(w.slots[Slot(i)].psn) == Advance(first, i - w.base);
    DistMasked(w.slots[Slot(i)].psn, Advance(first, i - w.base), nack, nack);
    DistFromAdvanced(first, i - w.base, nack);
  }

  function Min(a: nat, b: nat): nat {
    if a < b then a else b
  }

  /** The picks left at offset `k` from the base with `room` places left in the burst. */
  function PicksFrom(base: nat, occupancy: nat, d: nat, k: nat, room: nat): seq<nat> {
    var from := if k < FirstPick(d) then FirstPick(d) else k;
    Range(base + from, Min(base + PickLimit(d, occupancy), base + from + room))
  }

  lemma RangeEmpty(a: nat, b: nat)
    requires b <= a
    ensures Range(a, b) == []
  {
  }

  lemma PicksStep(base: nat, n: nat, d: nat, k: nat, room: nat)
    requires k < n && 0 < room
    ensures if FirstPick(d) <= k <= d
            then PicksFrom(base, n, d, k, room) == [base + k] + PicksFrom(base, n, d, k + 1, room - 1)
            else PicksFrom(base, n, d, k, room) == PicksFrom(base, n, d, k + 1, room)
  {
    if d < k {
      hide Range;
      RangeEmpty(base + k, Min(base + PickLimit(d, n), base + k + room));
      RangeEmpty(base + k + 1, Min(base + PickLimit(d, n), base + k + 1 + room));
    }
  }

  lemma {:induction false} SelectFromExact(w: Window, first: u32, nack: u32, k: nat, room: nat)
    requires Consecutive(w, first) && w.base + k <= w.next
    ensures SelectFrom(w.slots, nack, w.base + k, w.next, room) == PicksFrom(w.base, Occupancy(w), ForwardDist(first, nack), k, room)
    decreases w.next - k
  {
    hide Consecutive, ForwardDist;
    Bounds(w, first);
    var d := ForwardDist(first, nack);
    if w.base + k < w.next && room > 0 {
      hide PicksFrom;
      EntryDistance(w, first, nack, w.base + k);
      PicksStep(w.base, Occupancy(w), d, k, room);
      SelectFromExact(w, first, nack, k + 1, if FirstPick(d) <= k <= d then room - 1 else room);
    }
  }

  /** A NACK retransmits one run of consecutive entries, at most 64 of them.  For a PSN that is
      not behind the base the run starts at the base; a PSN so far behind that it wraps into
      view selects the entries past the half-way point. */
  lemma NackSelectsExactly(w: Window, first: u32, nack: u32)
    requires Consecutive(w, first)
    ensures var d := ForwardDist(first, nack);
            var from := w.base + FirstPick(d);
            Selected(w, nack) == Range(from, Min(w.base + PickLimit(d, Occupancy(w)), from + MAX_RETX_BURST))
  {
    SelectFromExact(w, first, nack, 0, MAX_RETX_BURST);
  }

  /** A PSN at or ahead of the base: the first min(d + 1, occupancy, 64) entries. */
  lemma NackFromBase(w: Window, first: u32, nack: u32)
    requires Consecutive(w, first) && ForwardDist(first, nack) < HALF
    ensures var n := Min(PickLimit(ForwardDist(first, nack), Occupancy(w)), MAX_RETX_BURST);
            Selected(w, nack) == Range(w.base, w.base + n)
  {
    NackSelectsExactly(w, first, nack);
  }

  /** The NACKed packet itself, while it is in the window, is resent iff it is fewer than 64
      places past the base. */
  lemma NackedEntryResentIff(w: Window, first: u32, i: nat)
    requires Consecutive(w, first) && w.base <= i < w.next
    ensures i in Selected(w, Advance(first, i - w.base)) <==> i - w.base < MAX_RETX_BURST
  {
    var nack := Advance(first, i - w.base);
    DistToAdvanced(first, i - w.base);
    NackFromBase(w, first, nack);
    RangeMembers(w.base, w.base + Min(PickLimit(i - w.base, Occupancy(w)), MAX_RETX_BURST), i);
  }

  // ----- what the burst does to the window -----

  /** A NACK changes only the stamp and the retry counter of the selected slots: nothing leaves
      the window and nothing is freed. */
  lemma {:induction false} TouchAllKeeps(w: Window, picks: seq<nat>, clock: nat -> u64)
    requires |w.slots| == WINDOW_SIZE
    ensures var w' := TouchAll(w, picks, clock);
            && w'.(slots := w.slots, totalRetransmit := w.totalRetransmit) == w
            && w'.totalRetransmit == w.totalRetransmit + |picks|
            && forall s :: 0 <= s < WINDOW_SIZE ==>
                 && w'.slots[s].(sendTime := w.slots[s].sendTime, retryCount := w.slots[s].retryCount) == w.slots[s]
                 && ((forall p :: p in picks ==> Slot(p) != s) ==> w'.slots[s] == w.slots[s])
  {
    if picks != [] {
      var n := |picks| - 1;
      TouchAllKeeps(w, picks[..n], clock);
      assert picks[n] in picks && forall p :: p in picks[..n] ==> p in picks;
    }
  }

  lemma RangeFront(a: nat, n: nat)
    requires 0 < n
    ensures Range(a, a + n)[..n - 1] == Range(a, a + n - 1)
    ensures Range(a, a + n)[n - 1] == a + n - 1
  {
  }

  lemma SlotsApart(i: nat, j: nat)
    requires i < j < i + WINDOW_SIZE
    ensures Slot(i) != Slot(j)
  {
  }

  lemma EarlierPicksElsewhere(a: nat, n: nat, i: nat)
    requires a + n <= i < a + WINDOW_SIZE
    ensures forall p :: p in Range(a, a + n) ==> Slot(p) != Slot(i)
  {
    forall p | p in Range(a, a + n) ensures Slot(p) != Slot(i) {
      SlotsApart(p, i);
    }
  }

  /** In a run of at most 256 picks every selected entry is stamped once and its retry counter
      goes up by one, modulo 256. */
  lemma {:induction false} TouchedOnce(w: Window, a: nat, n: nat, clock: nat -> u64, i: nat)
    requires |w.slots| == WINDOW_SIZE && n <= WINDOW_SIZE
    requires a <= i < a + n
    ensures var e, e' := w.slots[Slot(i)], TouchAll(w, Range(a, a + n), clock).slots[Slot(i)];
            e' == e.(sendTime := clock(i), retryCount := (e.retryCount + 1) % 0x100)
  {
    hide Slot, Range;
    RangeFront(a, n);
    if i < a + n - 1 {
      TouchedOnce(w, a, n - 1, clock, i);
      SlotsApart(i, a + n - 1);
    } else {
      assert i == a + n - 1;
      TouchAllKeeps(w, Range(a, a + n - 1), clock);
      EarlierPicksElsewhere(a, n - 1, i);
    }
  }
}
