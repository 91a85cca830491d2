/** What a data packet from the WAN makes the receiving gateway do. */
module WanPath {
  import opened SerialNumbers
  import opened Buffers
  import opened Reassembly
  import opened ReassemblyOrder
  import opened JitterBuffer

  // ----- opcodes -----

  const WRITE_FIRST: u8 := 0x0A
  const WRITE_MIDDLE: u8 := 0x0B
  const WRITE_LAST: u8 := 0x0C
  const WRITE_ONLY: u8 := 0x0D
  const WRITE_LAST_IMM: u8 := 0x0E

  predicate IsWriteOpcode(opcode: u8) {
    WRITE_FIRST <= opcode <= WRITE_LAST_IMM
  }

  function SegmentTypeOf(opcode: u8): u8 {
    if opcode == WRITE_FIRST then WRITE_SEG_FIRST
    else if opcode == WRITE_MIDDLE then WRITE_SEG_MIDDLE
    else if opcode == WRITE_LAST then WRITE_SEG_LAST
    else if opcode == WRITE_ONLY then WRITE_SEG_ONLY
    else if opcode == WRITE_LAST_IMM then WRITE_SEG_LAST
    else 0
  }

  // ----- the specification -----

  datatype WanResult = WanResult(pending: Pending, status: AddStatus, nack: Option<u32>, delivered: Option<seq<Mbuf>>, ack: Option<u32>)

  ghost predicate Deliverable(b: Pending, qpn: u32) {
    WriteComplete(b, qpn) && Ordered(b, qpn).Some? && |Ordered(b, qpn).value| > 0
  }

  /** Store it; report a gap if it was new; deliver, forget and acknowledge a message that is
      complete.  The acknowledgement carries the PSN of the segment being handled. */
  ghost function WanData(b: Pending, qpn: u32, seg: Seg): WanResult {
    var b1, status := AddSeg(b, qpn, seg), AddStatusOf(b, qpn, seg.psn);
    if status == Refused then WanResult(b, Refused, None, None, None)
    else
      var nack := if status == Stored && Missing(b1, qpn) != 0 then Some(Missing(b1, qpn)) else None;
      if Deliverable(b1, qpn)
      then WanResult(Removed(b1, qpn), status, nack, Some(Ordered(b1, qpn).value), Some(seg.psn))
      else WanResult(b1, status, nack, None, None)
  }

  /** A data packet as it comes from the WAN; anything but a WRITE is dropped. */
  ghost function WanPacket(b: Pending, opcode: u8, qpn: u32, psn: u32, m: Mbuf): WanResult {
    if IsWriteOpcode(opcode) then WanData(b, qpn, Seg(psn, m, SegmentTypeOf(opcode)))
    else WanResult(b, Refused, None, None, None)
  }

  // ----- what a sender puts on the wire -----

  /** The opcodes a sender may use for segment `i` of a WRITE of `n`: RDMA WRITE Only for a single
      segment, otherwise First, Middle and at the end Last, with or without immediate data. */
  predicate OpcodeFor(opcode: u8, i: nat, n: nat) {
    if n == 1 then opcode == 0x0D
    else if i == 0 then opcode == 0x0A
    else if i == n - 1 then opcode == 0x0C || opcode == 0x0E
    else opcode == 0x0B
  }

  /** The receiver takes such a packet for a WRITE and for that part of it. */
  lemma OpcodeTellsSegment(opcode: u8, i: nat, n: nat)
    requires i < n && OpcodeFor(opcode, i, n)
    ensures IsWriteOpcode(opcode) && SegmentTypeOf(opcode) == SegmentType(i, n)
  {
  }

  /** So an opcode ends a message in the reassembly buffer exactly when it is that of a last or only
      segment, whatever else arrives. */
  lemma EndsIffLast(opcode: u8)
    ensures IsWriteOpcode(opcode) && Ends(SegmentTypeOf(opcode)) <==> opcode in {0x0C, 0x0D, 0x0E}
    ensures IsWriteOpcode(opcode) <==> opcode in {0x0A, 0x0B, 0x0C, 0x0D, 0x0E}
  {
  }

  // ----- the handler -----

  /** Handles one data packet.  The packets to put on the LAN and the control messages to put on
      the WAN are results; whether the cards take them is not part of this model. */
  method ProcessWanData(jb: JitterBuffer, opcode: u8, qpn: u32, psn: u32, m: Mbuf)
    returns (status: AddStatus, nack: Option<u32>, delivered: Option<seq<Mbuf>>, ack: Option<u32>)
    requires jb.Valid() && qpn != 0
    modifies jb`activeWriteCount, jb`contents, jb`index, jb.Footprint()
    ensures jb.Valid()
    ensures WanResult(jb.contents, status, nack, delivered, ack) == WanPacket(old(jb.contents), opcode, qpn, psn, m)
  {
    hide AddSeg, AddStatusOf, Missing, Deliverable, Removed, Ordered;
    hide Represents, Agrees, NoneIdle;
    status, nack, delivered, ack := Refused, None, None, None;
    if !IsWriteOpcode(opcode) {
      return;
    }
    RefusedChangesNothing(jb.contents, qpn, Seg(psn, m, SegmentTypeOf(opcode)));
    var added := jb.AddSeg(qpn, psn, SegmentTypeOf(opcode), m);
    status := if added < 0 then Refused else if added == 0 then Duplicate else Stored;
    if added < 0 {
      return;
    }
    if added == 1 {
      var missing := jb.CheckMissing(qpn);
      if missing != 0 {
        nack := Some(missing);
      }
    }
    delivered := DeliverIfComplete(jb, qpn);
    if delivered.Some? {
      ack := Some(psn);
    }
  }

  lemma RefusedChangesNothing(b: Pending, qpn: u32, seg: Seg)
    ensures AddStatusOf(b, qpn, seg.psn) == Refused ==> AddSeg(b, qpn, seg) == b
  {
  }

  method DeliverIfComplete(jb: JitterBuffer, qpn: u32) returns (delivered: Option<seq<Mbuf>>)
    requires jb.Valid() && qpn != 0
    modifies jb`activeWriteCount, jb`contents, jb`index, jb.Footprint()
    ensures jb.Valid()
    ensures delivered.Some? <==> Deliverable(old(jb.contents), qpn)
    ensures delivered == if Deliverable(old(jb.contents), qpn) then Ordered(old(jb.contents), qpn) else None
    ensures jb.contents == if Deliverable(old(jb.contents), qpn) then Removed(old(jb.contents), qpn) else old(jb.contents)
  {
    hide WriteComplete, Removed, Ordered;
    hide Represents, Agrees, NoneIdle;
    delivered := None;
    var complete := jb.IsWriteComplete(qpn);
    if complete {
      var ok, segments := jb.GetOrderedSegs(qpn);
      if ok == 0 && |segments| > 0 {
        delivered := Some(segments);
        jb.RemoveWrite(qpn);
      }
    }
  }
}
