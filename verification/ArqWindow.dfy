/** The send window of one queue pair as a value, and what each operation makes of it.
    The methods of class `Arq.ArqContext` are proved to compute these functions. */
module ArqWindow {
  import opened SerialNumbers
  import opened Buffers

  const WINDOW_SIZE := 256
  const MAX_RETRY_COUNT := 3
  const MAX_RETX_BURST := 64

  datatype Entry = Entry(psn: u32, mbuf: Option<Mbuf>, sendTime: u64, retryCount: u8, segmentType: u8, inFlight: bool)

  const EMPTY_ENTRY := Entry(0, None, 0, 0, 0, false)

  /** `base` and `next` only ever grow; entry `i` lives in slot `i % 256`. */
  datatype Window = Window(slots: seq<Entry>, base: nat, next: nat, sendMax: nat,
                           totalSent: nat, totalAcked: nat, totalRetransmit: nat, totalTimeout: nat)

  function EmptySlots(): (slots: seq<Entry>)
    ensures |slots| == WINDOW_SIZE
  {
    seq(WINDOW_SIZE, i => EMPTY_ENTRY)
  }

  function EmptyWindow(): Window {
    Window(EmptySlots(), 0, 0, 0, 0, 0, 0, 0)
  }

  function Slot(i: nat): (s: nat)
    ensures s < WINDOW_SIZE
  {
    i % WINDOW_SIZE
  }

  ghost predicate Covers(base: nat, next: nat, s: nat) {
    exists i: nat :: base <= i < next && Slot(i) == s
  }

  /** What every operation keeps: a slot is in flight exactly when it owns a packet, and
      every slot in flight stands for some counter value between `base` and `next`. */
  ghost predicate Sound(w: Window) {
    && |w.slots| == WINDOW_SIZE
    && w.base <= w.next
    && (forall s :: 0 <= s < WINDOW_SIZE ==> (w.slots[s].inFlight <==> w.slots[s].mbuf.Some?))
    && (forall s :: 0 <= s < WINDOW_SIZE && w.slots[s].inFlight ==> Covers(w.base, w.next, s))
  }

  // ----- sending -----

  predicate Full(w: Window)
    requires |w.slots| == WINDOW_SIZE
  {
    w.slots[Slot(w.next)].inFlight
  }

  function Sent(w: Window, m: Mbuf, psn: u32, segmentType: u8, now: u64): Window
    requires |w.slots| == WINDOW_SIZE && w.base <= w.next
  {
    if Full(w) then w
    else
      var occupancy := w.next + 1 - w.base;
      w.(slots := w.slots[Slot(w.next) := Entry(psn, Some(m), now, 0, segmentType, true)],
         next := w.next + 1,
         sendMax := if occupancy > w.sendMax then occupancy else w.sendMax,
         totalSent := w.totalSent + 1)
  }

  // ----- cumulative acknowledgement -----

  function ReleasePacket(e: Entry): seq<BufferOp> {
    if e.mbuf.Some? then [Release(e.mbuf.value)] else []
  }

  function PopBase(w: Window): Window
    requires |w.slots| == WINDOW_SIZE
  {
    var s := Slot(w.base);
    w.(slots := w.slots[s := w.slots[s].(mbuf := None, inFlight := false)],
       base := w.base + 1,
       totalAcked := w.totalAcked + 1)
  }

  predicate BaseAcked(w: Window, ack: u32)
    requires |w.slots| == WINDOW_SIZE
  {
    w.base < w.next && ForwardDist(w.slots[Slot(w.base)].psn, ack) < HALF
  }

  function Acked(w: Window, ack: u32): (w': Window)
    requires |w.slots| == WINDOW_SIZE
    ensures |w'.slots| == WINDOW_SIZE && w'.next == w.next
    ensures w.base <= w.next ==> w.base <= w'.base <= w'.next
    decreases w.next - w.base
  {
    if BaseAcked(w, ack) then Acked(PopBase(w), ack) else w
  }

  /** The buffer operations of an acknowledgement, in the order they happen. */
  function AckOps(w: Window, ack: u32): seq<BufferOp>
    requires |w.slots| == WINDOW_SIZE
    decreases w.next - w.base
  {
    if BaseAcked(w, ack) then ReleasePacket(w.slots[Slot(w.base)]) + AckOps(PopBase(w), ack) else []
  }

  // ----- negative acknowledgement -----

  /** The counters from `i` on whose entries a NACK selects, at most `room` of them. */
  function SelectFrom(slots: seq<Entry>, nack: u32, i: nat, next: nat, room: nat): seq<nat>
    requires |slots| == WINDOW_SIZE
    decreases next - i
  {
    if i >= next || room == 0 then []
    else if ForwardDist(slots[Slot(i)].psn, nack) < HALF then [i] + SelectFrom(slots, nack, i + 1, next, room - 1)
    else SelectFrom(slots, nack, i + 1, next, room)
  }

  function Selected(w: Window, nack: u32): seq<nat>
    requires |w.slots| == WINDOW_SIZE
  {
    SelectFrom(w.slots, nack, w.base, w.next, MAX_RETX_BURST)
  }

  /** Entry `i` is stamped and its 8-bit retry counter goes up, wrapping. */
  function Touch(w: Window, i: nat, now: u64): Window
    requires |w.slots| == WINDOW_SIZE
  {
    var e := w.slots[Slot(i)];
    w.(slots := w.slots[Slot(i) := e.(sendTime := now, retryCount := (e.retryCount + 1) % 0x100)],
       totalRetransmit := w.totalRetransmit + 1)
  }

  function TouchAll(w: Window, picks: seq<nat>, clock: nat -> u64): (w': Window)
    requires |w.slots| == WINDOW_SIZE
    ensures |w'.slots| == WINDOW_SIZE && w'.base == w.base && w'.next == w.next
  {
    if picks == [] then w
    else
      var i := picks[|picks| - 1];
      Touch(TouchAll(w, picks[..|picks| - 1], clock), i, clock(i))
  }

  function Nacked(w: Window, nack: u32, clock: nat -> u64): Window
    requires |w.slots| == WINDOW_SIZE
  {
    TouchAll(w, Selected(w, nack), clock)
  }

  /** `accepts(i)`: whether the card takes the retransmission of entry `i`. */
  function ResendPacket(e: Entry, accepted: bool): seq<BufferOp> {
    if e.mbuf.Some? then [Transmit(e.mbuf.value, accepted)] else []
  }

  function ResendOps(slots: seq<Entry>, picks: seq<nat>, accepts: nat -> bool): seq<BufferOp>
    requires |slots| == WINDOW_SIZE
  {
    if picks == [] then []
    else
      var i := picks[|picks| - 1];
      ResendOps(slots, picks[..|picks| - 1], accepts) + ResendPacket(slots[Slot(i)], accepts(i))
  }

  function NackOps(w: Window, nack: u32, accepts: nat -> bool): seq<BufferOp>
    requires |w.slots| == WINDOW_SIZE
  {
    ResendOps(w.slots, Selected(w, nack), accepts)
  }

  // ----- timeouts -----

  /** 64-bit unsigned difference of two cycle counter readings. */
  function Elapsed(now: u64, then_: u64): u64 {
    (now - then_) % 0x1_0000_0000_0000_0000
  }

  predicate Expired(e: Entry, now: u64, timeout: u64) {
    e.inFlight && Elapsed(now, e.sendTime) > timeout
  }

  function Expire(w: Window, i: nat, now: u64, timeout: u64): (w': Window)
    requires |w.slots| == WINDOW_SIZE
    ensures |w'.slots| == WINDOW_SIZE && w'.base == w.base && w'.next == w.next
  {
    var e := w.slots[Slot(i)];
    if !Expired(e, now, timeout) then w
    else if e.retryCount < MAX_RETRY_COUNT then
      w.(slots := w.slots[Slot(i) := e.(sendTime := now, retryCount := e.retryCount + 1)],
         totalRetransmit := w.totalRetransmit + 1)
    else
      w.(slots := w.slots[Slot(i) := e.(mbuf := None, inFlight := false)],
         totalTimeout := w.totalTimeout + 1)
  }

  function ExpireOps(e: Entry, accepted: bool, now: u64, timeout: u64): seq<BufferOp> {
    if !Expired(e, now, timeout) then []
    else if e.retryCount < MAX_RETRY_COUNT then ResendPacket(e, accepted)
    else ReleasePacket(e)
  }

  /** The sweep over the entries from `i` on. */
  function SweptFrom(w: Window, i: nat, now: u64, timeout: u64): (w': Window)
    requires |w.slots| == WINDOW_SIZE
    ensures |w'.slots| == WINDOW_SIZE && w'.base == w.base && w'.next == w.next
    decreases w.next - i
  {
    if i >= w.next then w else SweptFrom(Expire(w, i, now, timeout), i + 1, now, timeout)
  }

  function SweepOpsFrom(w: Window, i: nat, now: u64, timeout: u64, accepts: nat -> bool): seq<BufferOp>
    requires |w.slots| == WINDOW_SIZE
    decreases w.next - i
  {
    if i >= w.next then []
    else ExpireOps(w.slots[Slot(i)], accepts(i), now, timeout)
         + SweepOpsFrom(Expire(w, i, now, timeout), i + 1, now, timeout, accepts)
  }

  function Swept(w: Window, now: u64, timeout: u64): Window
    requires |w.slots| == WINDOW_SIZE
  {
    SweptFrom(w, w.base, now, timeout)
  }

  function SweepOps(w: Window, now: u64, timeout: u64, accepts: nat -> bool): seq<BufferOp>
    requires |w.slots| == WINDOW_SIZE
  {
    SweepOpsFrom(w, w.base, now, timeout, accepts)
  }

  // ----- every operation keeps the window sound -----

  lemma EmptyIsSound()
    ensures Sound(EmptyWindow())
  {
  }

  lemma CoversMono(base: nat, next: nat, next': nat, s: nat)
    requires next <= next'
    requires Covers(base, next, s)
    ensures Covers(base, next', s)
  {
    var i: nat :| base <= i < next && Slot(i) == s;
    assert base <= i < next' && Slot(i) == s;
  }

  lemma SentSound(w: Window, m: Mbuf, psn: u32, segmentType: u8, now: u64)
    requires Sound(w)
    ensures Sound(Sent(w, m, psn, segmentType, now))
  {
    var w' := Sent(w, m, psn, segmentType, now);
    if !Full(w) {
      forall s | 0 <= s < WINDOW_SIZE && w'.slots[s].inFlight ensures Covers(w'.base, w'.next, s) {
        if s == Slot(w.next) {
          assert w'.base <= w.next < w'.next && Slot(w.next) == s;
        } else {
          CoversMono(w.base, w.next, w'.next, s);
        }
      }
    }
  }

  lemma PopSound(w: Window)
    requires Sound(w) && w.base < w.next
    ensures Sound(PopBase(w))
  {
    var w' := PopBase(w);
    forall s | 0 <= s < WINDOW_SIZE && w'.slots[s].inFlight ensures Covers(w'.base, w'.next, s) {
      var i: nat :| w.base <= i < w.next && Slot(i) == s;
      assert i != w.base;
      assert w'.base <= i < w'.next && Slot(i) == s;
    }
  }

  lemma {:induction false} AckedSound(w: Window, ack: u32)
    requires Sound(w)
    ensures Sound(Acked(w, ack))
    decreases w.next - w.base
  {
    if BaseAcked(w, ack) {
      PopSound(w);
      AckedSound(PopBase(w), ack);
    }
  }

  lemma {:induction false} TouchAllSound(w: Window, picks: seq<nat>, clock: nat -> u64)
    requires Sound(w)
    ensures Sound(TouchAll(w, picks, clock))
    ensures TouchAll(w, picks, clock).base == w.base && TouchAll(w, picks, clock).next == w.next
  {
    if picks != [] {
      TouchAllSound(w, picks[..|picks| - 1], clock);
    }
  }

  lemma ExpireSound(w: Window, i: nat, now: u64, timeout: u64)
    requires Sound(w)
    ensures Sound(Expire(w, i, now, timeout))
    ensures w.slots[Slot(i)].inFlight ==> w.slots[Slot(i)].mbuf.Some?
  {
  }

  lemma {:induction false} SweptSound(w: Window, i: nat, now: u64, timeout: u64)
    requires Sound(w)
    ensures Sound(SweptFrom(w, i, now, timeout))
    decreases w.next - i
  {
    if i < w.next {
      SweptSound(Expire(w, i, now, timeout), i + 1, now, timeout);
    }
  }
}
