/** The retransmission layer: the send window updated in place. */
module Arq {
  import opened SerialNumbers
  import opened Buffers
  import opened ArqWindow

  class ArqContext {
    var qpn: u32
    const slots: array<Entry>
    var sendBase: nat
    var sendNext: nat
    var sendMax: nat
    var totalSent: nat
    var totalAckReceived: nat
    var totalRetransmit: nat
    var totalTimeout: nat
    var peerIp: u32

    function View(): Window
      reads this, slots
    {
      Window(slots[..], sendBase, sendNext, sendMax, totalSent, totalAckReceived, totalRetransmit, totalTimeout)
    }

    ghost predicate Valid()
      reads this, slots
    {
      slots.Length == WINDOW_SIZE && Sound(View())
    }

    constructor ()
      ensures Valid() && fresh(slots)
      ensures qpn == 0 && View() == EmptyWindow()
    {
      qpn, peerIp := 0, 0;
      slots := new Entry[WINDOW_SIZE](_ => EMPTY_ENTRY);
      sendBase, sendNext, sendMax := 0, 0, 0;
      totalSent, totalAckReceived, totalRetransmit, totalTimeout := 0, 0, 0, 0;
      new;
      assert slots[..] == EmptySlots();
    }

    /** A context taken into use is zeroed first, whatever it held. */
    method Reset(newQpn: u32)
      requires Valid()
      modifies this, slots
      ensures Valid()
      ensures qpn == newQpn && View() == EmptyWindow()
    {
      hide Sound;
      forall i | 0 <= i < slots.Length {
        slots[i] := EMPTY_ENTRY;
      }
      sendBase, sendNext, sendMax := 0, 0, 0;
      totalSent, totalAckReceived, totalRetransmit, totalTimeout := 0, 0, 0, 0;
      peerIp := 0;
      qpn := newQpn;
      assert slots[..] == EmptySlots();
      EmptyIsSound();
    }

    method SetPeerIp(ip: u32)
      modifies this`peerIp
      ensures peerIp == ip && View() == old(View())
    {
      peerIp := ip;
    }

    method SendPkt(m: Mbuf, psn: u32, segmentType: u8, now: u64) returns (status: int)
      requires Valid()
      modifies this`sendNext, this`sendMax, this`totalSent, slots
      ensures Valid()
      ensures status == if Full(old(View())) then -1 else 0
      ensures View() == Sent(old(View()), m, psn, segmentType, now)
    {
      SentSound(View(), m, psn, segmentType, now);
      var idx := Slot(sendNext);
      if slots[idx].inFlight {
        return -1;
      }
      slots[idx] := Entry(psn, Some(m), now, 0, segmentType, true);
      sendNext := sendNext + 1;
      if sendNext - sendBase > sendMax {
        sendMax := sendNext - sendBase;
      }
      totalSent := totalSent + 1;
      return 0;
    }

    method HandleAck(ack: u32, pool: BufferPool)
      requires Valid()
      modifies this`sendBase, this`totalAckReceived, slots, pool
      ensures Valid()
      ensures View() == Acked(old(View()), ack)
      ensures pool.View() == ApplyAll(old(pool.View()), AckOps(old(View()), ack))
    {
      hide Sound, ApplyAll;
      AckedSound(View(), ack);
      ghost var w0, p0 := View(), pool.View();
      while sendBase < sendNext
        invariant slots.Length == WINDOW_SIZE
        invariant Acked(View(), ack) == Acked(w0, ack)
        invariant ApplyAll(pool.View(), AckOps(View(), ack)) == ApplyAll(p0, AckOps(w0, ack))
        decreases sendNext - sendBase
      {
        var idx := Slot(sendBase);
        var diff := ForwardDist(slots[idx].psn, ack);
        if diff >= HALF {
          break;
        }
        ApplyConcat(pool.View(), ReleasePacket(slots[idx]), AckOps(PopBase(View()), ack));
        ReleaseBase(idx, pool);
      }
      assert ApplyAll(pool.View(), []) == pool.View() by { NoOps(pool.View()); }
    }

    /** One round of the acknowledgement loop: the entry at the base leaves the window. */
    method ReleaseBase(idx: nat, pool: BufferPool)
      requires slots.Length == WINDOW_SIZE && idx == Slot(sendBase)
      modifies this`sendBase, this`totalAckReceived, slots, pool
      ensures View() == PopBase(old(View()))
      ensures pool.View() == ApplyAll(old(pool.View()), ReleasePacket(old(slots[idx])))
    {
      if slots[idx].mbuf.Some? {
        pool.Free(slots[idx].mbuf.value);
        slots[idx] := slots[idx].(mbuf := None);
      }
      slots[idx] := slots[idx].(inFlight := false);
      sendBase := sendBase + 1;
      totalAckReceived := totalAckReceived + 1;
    }

    /** `clock(i)` is the cycle counter when entry `i` is stamped, `accepts(i)` whether the card
        takes its retransmission. */
    method HandleNack(nack: u32, clock: nat -> u64, accepts: nat -> bool, pool: BufferPool) returns (count: nat)
      requires Valid()
      modifies this`totalRetransmit, slots, pool
      ensures Valid()
      ensures count == |Selected(old(View()), nack)|
      ensures View() == Nacked(old(View()), nack, clock)
      ensures pool.View() == ApplyAll(old(pool.View()), NackOps(old(View()), nack, accepts))
    {
      hide Sound, ApplyAll, Selected, TouchAll, SamePackets, ResendOps;
      ghost var w := View();
      TouchAllSound(w, Selected(w, nack), clock);
      var picks := PickForNack(nack, clock);
      count := |picks|;
      SameOps(w.slots, slots[..], picks, accepts);
      ResendAll(picks, accepts, pool);
    }

    /** The scan: which entries the NACK selects, each stamped as it is found. */
    method PickForNack(nack: u32, clock: nat -> u64) returns (picks: seq<nat>)
      requires slots.Length == WINDOW_SIZE && sendBase <= sendNext
      modifies this`totalRetransmit, slots
      ensures picks == Selected(old(View()), nack)
      ensures View() == TouchAll(old(View()), picks, clock)
      ensures SamePackets(old(slots[..]), slots[..])
    {
      hide Touch, TouchAll, Sound, Slot, SelectFrom, ForwardDist;
      ghost var w := View();
      picks := [];
      NothingTouched(w, clock);
      var i := sendBase;
      while i < sendNext && |picks| < MAX_RETX_BURST
        invariant sendBase <= i <= sendNext && |picks| <= MAX_RETX_BURST && slots.Length == WINDOW_SIZE
        invariant Selected(w, nack) == picks + SelectFrom(w.slots, nack, i, w.next, MAX_RETX_BURST - |picks|)
        invariant View() == TouchAll(w, picks, clock)
        invariant SamePackets(w.slots, slots[..])
      {
        SelectStep(w.slots, nack, i, w.next, MAX_RETX_BURST - |picks|);
        var diff := ForwardDist(slots[Slot(i)].psn, nack);
        if diff < HALF {
          TouchOneMore(w, picks, i, clock);
          picks := picks + [i];
          Stamp(i, clock(i));
        }
        i := i + 1;
      }
      SelectDone(w.slots, nack, i, w.next, MAX_RETX_BURST - |picks|);
    }

    method Stamp(i: nat, now: u64)
      requires slots.Length == WINDOW_SIZE
      modifies this`totalRetransmit, slots
      ensures View() == Touch(old(View()), i, now)
      ensures SamePackets(old(slots[..]), slots[..])
    {
      var idx := Slot(i);
      slots[idx] := slots[idx].(sendTime := now, retryCount := (slots[idx].retryCount + 1) % 0x100);
      totalRetransmit := totalRetransmit + 1;
    }

    method ResendAll(picks: seq<nat>, accepts: nat -> bool, pool: BufferPool)
      requires slots.Length == WINDOW_SIZE
      modifies pool
      ensures pool.View() == ApplyAll(old(pool.View()), ResendOps(slots[..], picks, accepts))
    {
      for k := 0 to |picks|
        invariant pool.View() == ApplyAll(old(pool.View()), ResendOps(slots[..], picks[..k], accepts))
      {
        var i := picks[k];
        var e := slots[Slot(i)];
        assert picks[..k + 1][..k] == picks[..k];
        ApplyConcat(old(pool.View()), ResendOps(slots[..], picks[..k], accepts), ResendPacket(e, accepts(i)));
        if e.mbuf.Some? {
          ResendOne(e.mbuf.value, accepts(i), pool);
        }
      }
      assert picks[..|picks|] == picks;
    }

    /** The window keeps its reference; the card gets one of its own, taken back if it refuses. */
    static method ResendOne(m: Mbuf, accepted: bool, pool: BufferPool)
      modifies pool
      ensures pool.View() == Apply(old(pool.View()), Transmit(m, accepted))
      ensures pool.View() == ApplyAll(old(pool.View()), [Transmit(m, accepted)])
    {
      pool.AddRef(m);
      var sent := pool.TxBurst(m, accepted);
      if sent == 0 {
        pool.Free(m);
      }
    }

    method CheckTimeouts(now: u64, timeout: u64, accepts: nat -> bool, pool: BufferPool)
      requires Valid()
      modifies this`totalRetransmit, this`totalTimeout, slots, pool
      ensures Valid()
      ensures View() == Swept(old(View()), now, timeout)
      ensures pool.View() == ApplyAll(old(pool.View()), SweepOps(old(View()), now, timeout, accepts))
    {
      hide Sound, ApplyAll;
      ghost var w0, p0 := View(), pool.View();
      SweptSound(w0, sendBase, now, timeout);
      var i := sendBase;
      while i < sendNext
        invariant sendBase <= i <= sendNext && Sound(View())
        invariant slots.Length == WINDOW_SIZE
        invariant SweptFrom(View(), i, now, timeout) == Swept(w0, now, timeout)
        invariant ApplyAll(pool.View(), SweepOpsFrom(View(), i, now, timeout, accepts)) == ApplyAll(p0, SweepOps(w0, now, timeout, accepts))
      {
        ghost var w := View();
        ApplyConcat(pool.View(), ExpireOps(slots[Slot(i)], accepts(i), now, timeout),
                    SweepOpsFrom(Expire(w, i, now, timeout), i + 1, now, timeout, accepts));
        ExpireSound(w, i, now, timeout);
        ExpireEntry(Slot(i), i, now, timeout, accepts(i), pool);
        i := i + 1;
      }
      assert ApplyAll(pool.View(), []) == pool.View() by { NoOps(pool.View()); }
    }

    /** One round of the timeout sweep. */
    method ExpireEntry(idx: nat, ghost i: nat, now: u64, timeout: u64, accepted: bool, pool: BufferPool)
      requires slots.Length == WINDOW_SIZE && idx == Slot(i)
      requires slots[idx].inFlight ==> slots[idx].mbuf.Some?
      modifies this`totalRetransmit, this`totalTimeout, slots, pool
      ensures View() == Expire(old(View()), i, now, timeout)
      ensures pool.View() == ApplyAll(old(pool.View()), ExpireOps(old(slots[idx]), accepted, now, timeout))
    {
      var e := slots[idx];
      if !e.inFlight {
        return;
      }
      if Elapsed(now, e.sendTime) > timeout {
        if e.retryCount < MAX_RETRY_COUNT {
          slots[idx] := e.(sendTime := now, retryCount := e.retryCount + 1);
          totalRetransmit := totalRetransmit + 1;
          ResendOne(e.mbuf.value, accepted, pool);
        } else {
          pool.Free(e.mbuf.value);
          slots[idx] := e.(mbuf := None, inFlight := false);
          totalTimeout := totalTimeout + 1;
        }
      }
    }
  }

  lemma SelectStep(slots: seq<Entry>, nack: u32, i: nat, next: nat, room: nat)
    requires |slots| == WINDOW_SIZE && i < next && 0 < room
    ensures SelectFrom(slots, nack, i, next, room)
         == if ForwardDist(slots[Slot(i)].psn, nack) < HALF then [i] + SelectFrom(slots, nack, i + 1, next, room - 1)
            else SelectFrom(slots, nack, i + 1, next, room)
  {
  }

  lemma SelectDone(slots: seq<Entry>, nack: u32, i: nat, next: nat, room: nat)
    requires |slots| == WINDOW_SIZE && (i >= next || room == 0)
    ensures SelectFrom(slots, nack, i, next, room) == []
  {
  }

  lemma NothingTouched(w: Window, clock: nat -> u64)
    requires |w.slots| == WINDOW_SIZE
    ensures TouchAll(w, [], clock) == w
  {
  }

  lemma TouchOneMore(w: Window, picks: seq<nat>, i: nat, clock: nat -> u64)
    requires |w.slots| == WINDOW_SIZE
    ensures TouchAll(w, picks + [i], clock) == Touch(TouchAll(w, picks, clock), i, clock(i))
  {
    assert (picks + [i])[..|picks|] == picks;
  }

  lemma NoOps(p: Pool)
    ensures ApplyAll(p, []) == p
  {
  }

  /** Equal in everything a retransmission looks at. */
  ghost predicate SamePackets(a: seq<Entry>, b: seq<Entry>) {
    |a| == |b| == WINDOW_SIZE && forall s :: 0 <= s < WINDOW_SIZE ==> a[s].psn == b[s].psn && a[s].mbuf == b[s].mbuf
  }

  lemma {:induction false} SameOps(a: seq<Entry>, b: seq<Entry>, picks: seq<nat>, accepts: nat -> bool)
    requires SamePackets(a, b)
    ensures ResendOps(a, picks, accepts) == ResendOps(b, picks, accepts)
  {
    if picks != [] {
      SameOps(a, b, picks[..|picks| - 1], accepts);
    }
  }
}
