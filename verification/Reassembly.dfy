/** Reassembly of WRITE messages, as an operation on a map from queue pair numbers to partly
    received messages.  Class `JitterBuffer.JitterBuffer` is proved to refine it. */
module Reassembly {
  import opened SerialNumbers
  import opened Buffers

  const JB_MAX_SEGMENTS := 256
  const JB_MAX_PENDING_WRITES := 64

  const WRITE_SEG_FIRST: u8 := 1
  const WRITE_SEG_MIDDLE: u8 := 2
  const WRITE_SEG_LAST: u8 := 3
  const WRITE_SEG_ONLY: u8 := 4

  predicate Ends(segmentType: u8) {
    segmentType == WRITE_SEG_LAST || segmentType == WRITE_SEG_ONLY
  }

  datatype Seg = Seg(psn: u32, mbuf: Mbuf, segmentType: u8)

  /** `got` maps the places filled so far, counted from the PSN that arrived first, modulo 256. */
  datatype Message = Message(first: u32, expected: u32, got: map<nat, Seg>)

  type Pending = map<u32, Message>

  function Place(m: Message, psn: u32): (k: nat)
    ensures k < JB_MAX_SEGMENTS
  {
    ForwardDist(m.first, psn) % JB_MAX_SEGMENTS
  }

  function Opened(psn: u32): Message {
    Message(psn, psn, map[])
  }

  /** A segment for a place that is taken changes nothing, whatever its PSN. */
  function Added(m: Message, seg: Seg): Message {
    if Place(m, seg.psn) in m.got then m
    else Message(m.first,
                 if ForwardDist(m.expected, seg.psn) == 0 then (m.expected + 1) % MAX_PSN else m.expected,
                 m.got[Place(m, seg.psn) := seg])
  }

  // ----- the operations -----

  datatype AddStatus = Refused | Duplicate | Stored

  function AddStatusOf(b: Pending, qpn: u32, psn: u32): AddStatus {
    if qpn in b then if Place(b[qpn], psn) in b[qpn].got then Duplicate else Stored
    else if |b| < JB_MAX_PENDING_WRITES then Stored
    else Refused
  }

  function AddSeg(b: Pending, qpn: u32, seg: Seg): Pending {
    if qpn in b then b[qpn := Added(b[qpn], seg)]
    else if |b| < JB_MAX_PENDING_WRITES then b[qpn := Added(Opened(seg.psn), seg)]
    else b
  }

  /** The last segment of the message has arrived. */
  ghost predicate EndSeen(m: Message) {
    exists k :: k in m.got && Ends(m.got[k].segmentType)
  }

  ghost predicate WriteComplete(b: Pending, qpn: u32) {
    qpn in b && EndSeen(b[qpn])
  }

  /** The packets from place `k` on up to the first that ends a message; none if a place on the
      way is empty. */
  function OrderedFrom(m: Message, k: nat): Option<seq<Mbuf>>
    decreases JB_MAX_SEGMENTS - k
  {
    if k >= JB_MAX_SEGMENTS then Some([])
    else if k !in m.got then None
    else if Ends(m.got[k].segmentType) then Some([m.got[k].mbuf])
    else
      var rest := OrderedFrom(m, k + 1);
      if rest.None? then None else Some([m.got[k].mbuf] + rest.value)
  }

  function Ordered(b: Pending, qpn: u32): Option<seq<Mbuf>> {
    if qpn in b then OrderedFrom(b[qpn], 0) else None
  }

  function Removed(b: Pending, qpn: u32): Pending {
    b - {qpn}
  }

  /** The expected PSN if its place is empty, otherwise 0. */
  function MissingIn(m: Message): u32 {
    if Place(m, m.expected) in m.got then 0 else m.expected
  }

  function Missing(b: Pending, qpn: u32): u32 {
    if qpn in b then MissingIn(b[qpn]) else 0
  }

  /** A segment is refused exactly when its queue pair has no message pending while 64 others have. */
  lemma RefusedIffNoRoom(b: Pending, qpn: u32, psn: u32)
    requires |b| <= 64
    ensures AddStatusOf(b, qpn, psn) == Refused <==> qpn !in b && |b| == 64
  {
  }

  // ----- what holds of a pending message for any PSNs whatever -----

  /** The expected PSN is at most 256 places past the first and everything before it has
      arrived; every segment sits at its distance from the first, modulo 256. */
  ghost predicate PrefixReceived(m: Message) {
    var d := ForwardDist(m.first, m.expected);
    && d <= JB_MAX_SEGMENTS
    && Masked24(m.expected) == Advance(m.first, d)
    && (forall i :: 0 <= i < d ==> i in m.got && Masked24(m.got[i].psn) == Advance(m.first, i))
    && (forall k :: k in m.got ==> k < JB_MAX_SEGMENTS && k == Place(m, m.got[k].psn))
  }

  lemma OpenedPrefix(psn: u32)
    ensures PrefixReceived(Opened(psn))
  {
    DistIsModular(psn, psn);
  }

  lemma ExpectedHit(m: Message, seg: Seg)
    requires PrefixReceived(m) && Place(m, seg.psn) !in m.got && ForwardDist(m.expected, seg.psn) == 0
    ensures ForwardDist(m.first, m.expected) < JB_MAX_SEGMENTS
    ensures Place(m, seg.psn) == ForwardDist(m.first, m.expected)
    ensures Masked24(seg.psn) == Masked24(m.expected)
    ensures ForwardDist(m.first, (m.expected + 1) % MAX_PSN) == ForwardDist(m.first, m.expected) + 1
  {
    ZeroDistance(m.expected, seg.psn);
    DistMasked(m.first, m.first, seg.psn, m.expected);
    NextDistance(m.first, m.expected);
  }

  lemma ZeroDistance(p: u32, q: u32)
    requires ForwardDist(p, q) == 0
    ensures Masked24(p) == Masked24(q)
  {
  }

  lemma NextDistance(p: u32, q: u32)
    requires ForwardDist(p, q) + 1 < MAX_PSN
    ensures ForwardDist(p, (q + 1) % MAX_PSN) == ForwardDist(p, q) + 1
  {
    DistIsModular(p, q);
    DistIsModular(p, (q + 1) % MAX_PSN);
  }

  /** Any segment, in or out of order, duplicate or stray, keeps the received prefix. */
  lemma AddedPrefix(m: Message, seg: Seg)
    requires PrefixReceived(m)
    ensures PrefixReceived(Added(m, seg))
  {
    if Place(m, seg.psn) !in m.got && ForwardDist(m.expected, seg.psn) == 0 {
      ExpectedHit(m, seg);
      var d := ForwardDist(m.first, m.expected);
      AdvanceByDist(m.first, (m.expected + 1) % MAX_PSN);
    }
  }

  ghost predicate AllPrefixes(b: Pending) {
    forall qpn :: qpn in b ==> PrefixReceived(b[qpn])
  }

  lemma AddSegPrefixes(b: Pending, qpn: u32, seg: Seg)
    requires AllPrefixes(b)
    ensures AllPrefixes(AddSeg(b, qpn, seg))
  {
    OpenedPrefix(seg.psn);
    if qpn in b {
      AddedPrefix(b[qpn], seg);
    } else {
      AddedPrefix(Opened(seg.psn), seg);
    }
  }

  lemma SamePlace(m: Message, p: u32, q: u32)
    ensures Masked24(p) == Masked24(q) ==> Place(m, p) == Place(m, q)
  {
    if Masked24(p) == Masked24(q) {
      DistMasked(m.first, m.first, p, q);
    }
  }

  /** A PSN reported missing has really not been stored, and everything before it, back to the
      first, has. */
  lemma MissingIsMissing(m: Message)
    requires PrefixReceived(m) && MissingIn(m) != 0
    ensures forall k :: k in m.got ==> Masked24(m.got[k].psn) != Masked24(MissingIn(m))
    ensures forall i :: 0 <= i < ForwardDist(m.first, MissingIn(m)) ==> i in m.got && Masked24(m.got[i].psn) == Advance(m.first, i)
  {
    forall k | k in m.got ensures Masked24(m.got[k].psn) != Masked24(m.expected) {
      SamePlace(m, m.got[k].psn, m.expected);
    }
  }

  // ----- other queue pairs -----

  /** An operation on one queue pair leaves every other as it was. */
  lemma OthersUntouched(b: Pending, qpn: u32, seg: Seg, other: u32)
    requires other != qpn
    ensures other in AddSeg(b, qpn, seg) <==> other in b
    ensures other in b ==> AddSeg(b, qpn, seg)[other] == b[other]
    ensures other in Removed(b, qpn) <==> other in b
    ensures other in b ==> Removed(b, qpn)[other] == b[other]
  {
  }

  // ----- whole runs -----

  datatype PendingOp = Arrive(qpn: u32, seg: Seg) | Forget(qpn: u32)

  function PendingAfter(ops: seq<PendingOp>): Pending {
    if ops == [] then map[]
    else
      var b := PendingAfter(ops[..|ops| - 1]);
      match ops[|ops| - 1]
      case Arrive(qpn, seg) => AddSeg(b, qpn, seg)
      case Forget(qpn) => Removed(b, qpn)
  }

  /** For any segments of any queue pairs in any order: at most 64 messages are pending, none of
      them empty, and each has its received prefix. */
  lemma {:induction false} PendingInvariant(ops: seq<PendingOp>)
    ensures AllPrefixes(PendingAfter(ops))
    ensures |PendingAfter(ops)| <= 64
    ensures forall q :: q in PendingAfter(ops) ==> PendingAfter(ops)[q].got != map[]
  {
    hide AllPrefixes, Added;
    if ops == [] {
      NothingPending();
    } else {
      var b := PendingAfter(ops[..|ops| - 1]);
      PendingInvariant(ops[..|ops| - 1]);
      match ops[|ops| - 1]
      case Arrive(qpn, seg) =>
        AddSegPrefixes(b, qpn, seg);
        AddSegSize(b, qpn, seg);
      case Forget(qpn) =>
        RemovedPrefixes(b, qpn);
    }
  }

  lemma NothingPending()
    ensures AllPrefixes(map[])
  {
  }

  lemma RemovedPrefixes(b: Pending, qpn: u32)
    requires AllPrefixes(b)
    ensures AllPrefixes(Removed(b, qpn)) && |Removed(b, qpn)| <= |b|
  {
    assert Removed(b, qpn).Keys <= b.Keys;
    SubsetSize(Removed(b, qpn).Keys, b.Keys);
  }

  lemma {:induction false} SubsetSize(a: set<u32>, b: set<u32>)
    requires a <= b
    ensures |a| <= |b|
  {
    assert b == a + (b - a);
  }

  lemma AddSegSize(b: Pending, qpn: u32, seg: Seg)
    requires |b| <= JB_MAX_PENDING_WRITES
    requires forall q :: q in b ==> b[q].got != map[]
    ensures |AddSeg(b, qpn, seg)| <= JB_MAX_PENDING_WRITES
    ensures forall q :: q in AddSeg(b, qpn, seg) ==> AddSeg(b, qpn, seg)[q].got != map[]
  {
    hide Added, Place;
    var b' := AddSeg(b, qpn, seg);
    if qpn in b {
      assert b'.Keys == b.Keys;
      StoredInPlace(b[qpn], seg);
    } else if |b| < JB_MAX_PENDING_WRITES {
      assert b'.Keys == b.Keys + {qpn};
      StoredInPlace(Opened(seg.psn), seg);
    }
  }

  lemma StoredInPlace(m: Message, seg: Seg)
    ensures Place(Added(m, seg), seg.psn) in Added(m, seg).got
  {
  }
}
