/** The reassembly buffer updated in place: 64 write contexts of 256 segment slots each. */
module JitterBuffer {
  import opened SerialNumbers
  import opened Buffers
  import opened Reassembly

  datatype SegmentState = Free | Received | Waiting

  datatype Segment = Segment(psn: u32, mbuf: Option<Mbuf>, state: SegmentState, segmentType: u8)

  const NO_SEGMENT := Segment(0, None, Free, 0)

  /** The fields of a write context as a value. */
  datatype Fields = Fields(qpn: u32, expectedPsn: u32, slots: seq<Segment>, firstPsn: u32, segmentCount: nat, writeComplete: bool)

  // ----- one context and the message it represents -----

  /** Slot `k` shows what the message has at place `k`; an empty place may be free or waiting. */
  ghost predicate Shows(s: Segment, k: nat, m: Message) {
    if k in m.got
    then s == Segment(m.got[k].psn, Some(m.got[k].mbuf), Received, m.got[k].segmentType)
    else !s.state.Received? && s.mbuf.None?
  }

  ghost predicate ShowsAll(slots: seq<Segment>, m: Message) {
    && |slots| == JB_MAX_SEGMENTS
    && (forall k :: 0 <= k < JB_MAX_SEGMENTS ==> Shows(slots[k], k, m))
    && (forall k :: k in m.got ==> k < JB_MAX_SEGMENTS)
  }

  ghost predicate Represents(f: Fields, m: Message) {
    && ShowsAll(f.slots, m)
    && f.firstPsn == m.first && f.expectedPsn == m.expected
    && f.segmentCount == |m.got|
    && (f.writeComplete <==> EndSeen(m))
  }

  lemma ShowsAt(slots: seq<Segment>, m: Message, k: nat)
    requires ShowsAll(slots, m) && k < JB_MAX_SEGMENTS
    ensures |slots| == JB_MAX_SEGMENTS && Shows(slots[k], k, m)
  {
  }

  lemma StoredShows(slots: seq<Segment>, m: Message, seg: Seg)
    requires ShowsAll(slots, m) && Place(m, seg.psn) !in m.got
    ensures ShowsAll(slots[Place(m, seg.psn) := Segment(seg.psn, Some(seg.mbuf), Received, seg.segmentType)], Added(m, seg))
    ensures |Added(m, seg).got| == |m.got| + 1
    ensures EndSeen(Added(m, seg)) <==> EndSeen(m) || Ends(seg.segmentType)
  {
    var m', p := Added(m, seg), Place(m, seg.psn);
    assert m'.got.Keys == m.got.Keys + {p};
    if EndSeen(m) {
      var k :| k in m.got && Ends(m.got[k].segmentType);
      assert k in m'.got && Ends(m'.got[k].segmentType);
    }
    assert p in m'.got && m'.got[p] == seg;
  }

  lemma RepresentsCount(f: Fields, m: Message)
    requires Represents(f, m)
    ensures f.segmentCount == |m.got|
  {
  }

  lemma AddedNonempty(m: Message, seg: Seg)
    ensures |Added(m, seg).got| > 0
  {
    assert Place(m, seg.psn) in Added(m, seg).got;
  }

  /** The specification, case by case. */
  lemma AddSegCases(b: Pending, qpn: u32, seg: Seg)
    ensures qpn in b ==>
              && Reassembly.AddSeg(b, qpn, seg) == b[qpn := Added(b[qpn], seg)]
              && AddStatusOf(b, qpn, seg.psn) == if Place(b[qpn], seg.psn) in b[qpn].got then Duplicate else Stored
    ensures qpn !in b && |b| >= JB_MAX_PENDING_WRITES ==>
              Reassembly.AddSeg(b, qpn, seg) == b && AddStatusOf(b, qpn, seg.psn) == Refused
    ensures qpn !in b && |b| < JB_MAX_PENDING_WRITES ==>
              var o := Opened(seg.psn);
              && Reassembly.AddSeg(b, qpn, seg) == b[qpn := o][qpn := Added(o, seg)]
              && AddStatusOf(b, qpn, seg.psn) == Stored && Place(o, seg.psn) !in o.got
  {
  }

  function Prepend(a: seq<Mbuf>, b: Option<seq<Mbuf>>): (r: Option<seq<Mbuf>>)
    ensures a == [] ==> r == b
  {
    if b.None? then None else
      assert a == [] ==> a + b.value == b.value;
      Some(a + b.value)
  }

  lemma PrependOneMore(a: seq<Mbuf>, x: Mbuf, b: Option<seq<Mbuf>>)
    ensures Prepend(a, Prepend([x], b)) == Prepend(a + [x], b)
  {
    if b.Some? {
      assert a + ([x] + b.value) == a + [x] + b.value;
    }
  }

  class WriteContext {
    var qpn: u32
    var expectedPsn: u32
    const segments: array<Segment>
    var firstPsn: u32
    var segmentCount: nat
    var writeComplete: bool

    function View(): Fields
      reads this, segments
    {
      Fields(qpn, expectedPsn, segments[..], firstPsn, segmentCount, writeComplete)
    }

    constructor ()
      ensures qpn == 0 && segmentCount == 0 && segments.Length == JB_MAX_SEGMENTS && fresh(segments)
    {
      qpn, expectedPsn, firstPsn, segmentCount, writeComplete := 0, 0, 0, 0, false;
      segments := new Segment[JB_MAX_SEGMENTS](_ => NO_SEGMENT);
    }

    /** All fields to zero. */
    method Clear()
      requires segments.Length == JB_MAX_SEGMENTS
      modifies this, segments
      ensures qpn == 0 && segmentCount == 0 && !writeComplete
      ensures forall k :: 0 <= k < segments.Length ==> segments[k] == NO_SEGMENT
    {
      forall k | 0 <= k < segments.Length {
        segments[k] := NO_SEGMENT;
      }
      qpn, expectedPsn, firstPsn, segmentCount, writeComplete := 0, 0, 0, 0, false;
    }

    method Open(newQpn: u32, psn: u32)
      requires segments.Length == JB_MAX_SEGMENTS
      modifies this, segments
      ensures qpn == newQpn && Represents(View(), Opened(psn))
    {
      Clear();
      qpn := newQpn;
      expectedPsn := psn;
      firstPsn := psn;
    }

    /** Stores one segment, unless its slot is taken. */
    method Add(psn: u32, segmentType: u8, mbuf: Mbuf, ghost m: Message) returns (stored: bool)
      requires Represents(View(), m)
      modifies this`expectedPsn, this`segmentCount, this`writeComplete, segments
      ensures Represents(View(), Added(m, Seg(psn, mbuf, segmentType)))
      ensures stored <==> Place(m, psn) !in m.got
    {
      hide EndSeen, ShowsAll;
      ghost var seg := Seg(psn, mbuf, segmentType);
      var idx := ForwardDist(firstPsn, psn) % JB_MAX_SEGMENTS;
      assert |segments[..]| == JB_MAX_SEGMENTS && Shows(segments[idx], idx, m) by { ShowsAt(segments[..], m, idx); }
      if segments[idx].state == Received {
        return false;
      }
      StoredShows(segments[..], m, seg);
      segments[idx] := Segment(psn, Some(mbuf), Received, segmentType);
      segmentCount := segmentCount + 1;
      var dist := ForwardDist(expectedPsn, psn);
      if dist == 0 {
        expectedPsn := (expectedPsn + 1) % MAX_PSN;
      } else if dist < JB_MAX_SEGMENTS {
        MarkWaiting(dist, Added(m, seg));
      }
      if segmentType == WRITE_SEG_LAST || segmentType == WRITE_SEG_ONLY {
        writeComplete := true;
      }
      return true;
    }

    /** Marks the gap in front of an early segment; nothing that is stored changes. */
    method MarkWaiting(dist: nat, ghost m: Message)
      requires ShowsAll(segments[..], m)
      modifies segments
      ensures ShowsAll(segments[..], m)
    {
      for i := 0 to dist
        invariant ShowsAll(segments[..], m)
      {
        var checkPsn := (expectedPsn + i) % MAX_PSN;
        var checkIdx := ForwardDist(firstPsn, checkPsn) % JB_MAX_SEGMENTS;
        if segments[checkIdx].state == Free {
          segments[checkIdx] := segments[checkIdx].(state := Waiting);
        }
      }
    }

    /** Scans the slots from the first on. */
    method Scan(ghost m: Message) returns (allReceived: bool, out: seq<Mbuf>)
      requires Represents(View(), m)
      ensures allReceived <==> OrderedFrom(m, 0).Some?
      ensures out == if allReceived then OrderedFrom(m, 0).value else []
    {
      out := [];
      allReceived := true;
      var i := 0;
      while i < JB_MAX_SEGMENTS
        invariant 0 <= i <= JB_MAX_SEGMENTS && allReceived
        invariant OrderedFrom(m, 0) == Prepend(out, OrderedFrom(m, i))
      {
        assert Shows(segments[..][i], i, m);
        if segments[i].state != Received {
          allReceived := false;
          break;
        }
        PrependOneMore(out, segments[i].mbuf.value, OrderedFrom(m, i + 1));
        if segments[i].mbuf.Some? {
          out := out + [segments[i].mbuf.value];
        }
        if Ends(segments[i].segmentType) {
          break;
        }
        i := i + 1;
      }
      if !allReceived {
        out := [];
      }
    }
  }

  // ----- all contexts and the map they represent -----

  /** Which context belongs to which queue pair: a one-to-one table. */
  ghost predicate IsIndex(index: map<u32, nat>, fs: seq<Fields>) {
    && (forall q :: q in index ==> q != 0 && index[q] < |fs| && fs[index[q]].qpn == q)
    && (forall i :: 0 <= i < |fs| && fs[i].qpn != 0 ==> fs[i].qpn in index && index[fs[i].qpn] == i)
  }

  /** The contexts in use and the map agree. */
  ghost predicate Agrees(fs: seq<Fields>, index: map<u32, nat>, contents: Pending) {
    && |fs| == JB_MAX_PENDING_WRITES
    && IsIndex(index, fs)
    && contents.Keys == index.Keys
    && forall q :: q in index ==> AgreesAt(fs, index, contents, q)
  }

  ghost predicate AgreesAt(fs: seq<Fields>, index: map<u32, nat>, contents: Pending, q: u32) {
    q in index && index[q] < |fs| && q in contents && Represents(fs[index[q]], contents[q])
  }

  /** Between operations a context is in use exactly when it holds a segment. */
  ghost predicate NoneIdle(fs: seq<Fields>) {
    forall i :: 0 <= i < |fs| ==> (fs[i].qpn == 0 <==> fs[i].segmentCount == 0)
  }

  lemma IndexWithoutLast(index: map<u32, nat>, fs: seq<Fields>)
    requires IsIndex(index, fs) && fs != []
    ensures IsIndex(index - {fs[|fs| - 1].qpn}, fs[..|fs| - 1])
  {
  }

  lemma SizeWithout<T>(index: map<u32, T>, q: u32)
    ensures |index - {q}| == if q in index then |index| - 1 else |index|
  {
    assert (index - {q}).Keys == index.Keys - {q};
    if q !in index {
      assert index - {q} == index;
    }
  }

  /** The number of queue pairs in the table is the number of contexts in use. */
  lemma {:induction false} IndexSize(index: map<u32, nat>, fs: seq<Fields>)
    requires IsIndex(index, fs)
    ensures |index| <= |fs|
    ensures |index| < |fs| <==> exists i :: 0 <= i < |fs| && fs[i].qpn == 0
    decreases |fs|
  {
    if fs == [] {
      assert index == map[];
    } else {
      var n := |fs| - 1;
      var q, index', front := fs[n].qpn, index - {fs[n].qpn}, fs[..n];
      IndexWithoutLast(index, fs);
      SizeWithout(index, q);
      assert q in index <==> q != 0;
      hide IsIndex;
      IndexSize(index', front);
      if i :| 0 <= i < n && front[i].qpn == 0 {
        assert fs[i].qpn == 0;
      }
      if i :| 0 <= i < |fs| && fs[i].qpn == 0 {
        if i < n {
          assert front[i].qpn == 0;
        }
      }
    }
  }

  lemma SameSize(a: map<u32, nat>, b: Pending)
    requires a.Keys == b.Keys
    ensures |a| == |b|
  {
    assert |a.Keys| == |a| && |b.Keys| == |b|;
  }

  /** There is room in the map exactly when some context is free. */
  lemma RoomIffFree(fs: seq<Fields>, index: map<u32, nat>, contents: Pending)
    requires Agrees(fs, index, contents)
    ensures |contents| < JB_MAX_PENDING_WRITES <==> exists i :: 0 <= i < |fs| && fs[i].qpn == 0
  {
    IndexSize(index, fs);
    SameSize(index, contents);
  }

  lemma IndexWithOneMore(index: map<u32, nat>, fs: seq<Fields>, i: nat, f: Fields)
    requires IsIndex(index, fs) && i < |fs| && fs[i].qpn == 0
    requires f.qpn != 0 && f.qpn !in index
    ensures IsIndex(index[f.qpn := i], fs[i := f])
  {
  }

  /** A free context taken into use. */
  lemma OpenedAgrees(fs: seq<Fields>, index: map<u32, nat>, contents: Pending, i: nat, f: Fields, m: Message)
    requires Agrees(fs, index, contents) && i < |fs| && fs[i].qpn == 0
    requires f.qpn != 0 && f.qpn !in contents && Represents(f, m)
    ensures Agrees(fs[i := f], index[f.qpn := i], contents[f.qpn := m])
    ensures |contents[f.qpn := m]| == |contents| + 1
  {
    hide Represents, IsIndex;
    SizeWith(contents, f.qpn, m);
    IndexWithOneMore(index, fs, i, f);
    var fs', index', contents' := fs[i := f], index[f.qpn := i], contents[f.qpn := m];
    hide AgreesAt;
    forall q | q in index' ensures AgreesAt(fs', index', contents', q) {
      OneOpenedAt(fs, index, contents, i, f, m, q);
    }
  }

  lemma OneOpenedAt(fs: seq<Fields>, index: map<u32, nat>, contents: Pending, i: nat, f: Fields, m: Message, q: u32)
    requires Agrees(fs, index, contents) && i < |fs| && fs[i].qpn == 0 && Represents(f, m)
    requires q in index[f.qpn := i]
    ensures AgreesAt(fs[i := f], index[f.qpn := i], contents[f.qpn := m], q)
  {
    hide Represents;
    if q != f.qpn {
      assert AgreesAt(fs, index, contents, q);
      IndexAt(index, fs, q);
    }
  }

  lemma IndexAt(index: map<u32, nat>, fs: seq<Fields>, q: u32)
    requires IsIndex(index, fs) && q in index
    ensures index[q] < |fs| && fs[index[q]].qpn == q != 0
  {
  }

  lemma SizeWith<T>(contents: map<u32, T>, q: u32, m: T)
    ensures contents[q := m].Keys == contents.Keys + {q}
    ensures |contents[q := m]| == if q in contents then |contents| else |contents| + 1
  {
    assert contents[q := m].Keys == contents.Keys + {q};
    if q in contents {
      assert contents.Keys + {q} == contents.Keys;
    }
  }

  /** A context in use whose message moved on. */
  lemma UpdatedAgrees(fs: seq<Fields>, index: map<u32, nat>, contents: Pending, q: u32, f: Fields, m: Message)
    requires Agrees(fs, index, contents) && q in contents
    requires f.qpn == q && Represents(f, m)
    ensures Agrees(fs[index[q] := f], index, contents[q := m])
    ensures |contents[q := m]| == |contents|
  {
    hide Represents, IsIndex;
    SizeWith(contents, q, m);
    IndexAt(index, fs, q);
    IndexKept(index, fs, q, f);
    var fs', contents' := fs[index[q] := f], contents[q := m];
    forall p | p in index ensures AgreesAt(fs', index, contents', p) {
      assert AgreesAt(fs, index, contents, p);
      IndexAt(index, fs, p);
    }
  }

  lemma IndexKept(index: map<u32, nat>, fs: seq<Fields>, q: u32, f: Fields)
    requires IsIndex(index, fs) && q in index && f.qpn == q
    ensures IsIndex(index, fs[index[q] := f])
  {
  }

  /** A context given up. */
  lemma RemovedAgrees(fs: seq<Fields>, index: map<u32, nat>, contents: Pending, q: u32, f: Fields)
    requires Agrees(fs, index, contents) && q in contents && f.qpn == 0
    ensures Agrees(fs[index[q] := f], index - {q}, Removed(contents, q))
    ensures |Removed(contents, q)| == |contents| - 1
  {
    hide Represents, IsIndex;
    SizeWithout(contents, q);
    IndexAt(index, fs, q);
    IndexWithoutOne(index, fs, q, f);
    var fs', index', contents' := fs[index[q] := f], index - {q}, Removed(contents, q);
    forall p | p in index' ensures AgreesAt(fs', index', contents', p) {
      assert AgreesAt(fs, index, contents, p);
      IndexAt(index, fs, p);
    }
  }

  lemma IndexWithoutOne(index: map<u32, nat>, fs: seq<Fields>, q: u32, f: Fields)
    requires IsIndex(index, fs) && q in index && f.qpn == 0
    ensures IsIndex(index - {q}, fs[index[q] := f])
  {
  }

  class JitterBuffer {
    const writes: seq<WriteContext>
    var activeWriteCount: nat
    /** The map the contexts represent. */
    ghost var contents: Pending
    ghost var index: map<u32, nat>

    ghost function Footprint(): set<object> {
      (set i | 0 <= i < |writes| :: writes[i] as object) + (set i | 0 <= i < |writes| :: writes[i].segments as object)
    }

    ghost predicate Distinct() {
      && |writes| == JB_MAX_PENDING_WRITES
      && (forall i :: 0 <= i < |writes| ==> writes[i].segments.Length == JB_MAX_SEGMENTS)
      && (forall i, j :: 0 <= i < j < |writes| ==> writes[i] != writes[j] && writes[i].segments != writes[j].segments)
    }

    ghost function Views(): (fs: seq<Fields>)
      reads Footprint()
      ensures |fs| == |writes| && forall i :: 0 <= i < |writes| ==> fs[i] == writes[i].View()
    {
      seq(|writes|, i requires 0 <= i < |writes| reads Footprint() => writes[i].View())
    }

    ghost predicate Consistent()
      reads this, Footprint()
    {
      Distinct() && Agrees(Views(), index, contents) && activeWriteCount == |contents|
    }

    ghost predicate Valid()
      reads this, Footprint()
    {
      Consistent() && NoneIdle(Views())
    }

    constructor ()
      ensures Valid() && contents == map[] && fresh(Footprint())
    {
      var ws: seq<WriteContext> := [];
      for n := 0 to JB_MAX_PENDING_WRITES
        invariant |ws| == n
        invariant forall i :: 0 <= i < n ==> fresh(ws[i]) && fresh(ws[i].segments) && ws[i].segments.Length == JB_MAX_SEGMENTS
        invariant forall i :: 0 <= i < n ==> ws[i].qpn == 0 && ws[i].segmentCount == 0
        invariant forall i, j :: 0 <= i < j < n ==> ws[i] != ws[j] && ws[i].segments != ws[j].segments
      {
        var w := new WriteContext();
        ws := ws + [w];
      }
      writes := ws;
      activeWriteCount := 0;
      contents := map[];
      index := map[];
    }

    /** Context `k` is the one of `qpn` and represents its message. */
    ghost predicate Holds(k: int, qpn: u32)
      reads this, Footprint()
    {
      && qpn in contents && qpn in index && k == index[qpn]
      && 0 <= k < |writes| && writes[k].segments.Length == JB_MAX_SEGMENTS
      && writes[k].qpn == qpn != 0
      && Represents(writes[k].View(), contents[qpn])
    }

    /** The context of a queue pair number, -1 if there is none. */
    method Find(qpn: u32) returns (k: int)
      requires Consistent() && qpn != 0
      ensures k < 0 <==> qpn !in contents
      ensures qpn in contents ==> Holds(k, qpn)
    {
      hide Represents;
      assert qpn in index ==> Views()[index[qpn]].qpn == qpn;
      for i := 0 to |writes|
        invariant forall j :: 0 <= j < i ==> writes[j].qpn != qpn
      {
        assert Views()[i].qpn == writes[i].qpn;
        if writes[i].qpn == qpn {
          return i;
        }
      }
      return -1;
    }

    /** Only the context at `k` has changed. */
    twostate lemma OneChanged(k: nat)
      requires Distinct() && k < |writes|
      requires forall i :: 0 <= i < |writes| && i != k ==> unchanged(writes[i]) && unchanged(writes[i].segments)
      ensures Views() == old(Views())[k := writes[k].View()]
    {
    }

    /** The context to store into: the one in use for this number, else a free one, else none. */
    method GetOrCreateWrite(qpn: u32, firstPsn: u32) returns (k: int)
      requires Valid() && qpn != 0
      modifies this`activeWriteCount, this`contents, this`index, Footprint()
      ensures Consistent()
      ensures contents == if qpn in old(contents) || |old(contents)| >= JB_MAX_PENDING_WRITES then old(contents)
                          else old(contents)[qpn := Opened(firstPsn)]
      ensures k < 0 <==> qpn !in contents
      ensures qpn in contents ==> Holds(k, qpn)
      ensures k < 0 ==> Valid()
      ensures forall i :: 0 <= i < |writes| && i != k ==> (writes[i].qpn == 0 <==> writes[i].segmentCount == 0)
    {
      hide Represents;
      IdleAt();
      assert qpn in index ==> Views()[index[qpn]].qpn == qpn;
      RoomIffFree(Views(), index, contents);
      for i := 0 to |writes|
        invariant forall j :: 0 <= j < i ==> writes[j].qpn != qpn
      {
        assert Views()[i] == writes[i].View();
        if writes[i].qpn == qpn && writes[i].segmentCount > 0 {
          return i;
        }
      }
      for i := 0 to |writes|
        invariant forall j :: 0 <= j < i ==> writes[j].qpn != 0
      {
        assert Views()[i] == writes[i].View();
        if writes[i].segmentCount == 0 && writes[i].qpn == 0 {
          CreateAt(i, qpn, firstPsn);
          return i;
        }
      }
      assert forall i :: 0 <= i < |writes| ==> Views()[i].qpn != 0;
      return -1;
    }

    method CreateAt(i: nat, qpn: u32, firstPsn: u32)
      requires Valid() && qpn != 0 && qpn !in contents
      requires i < |writes| && writes[i].qpn == 0
      modifies this`activeWriteCount, this`contents, this`index, writes[i], writes[i].segments
      ensures Consistent()
      ensures contents == old(contents)[qpn := Opened(firstPsn)] && index == old(index)[qpn := i]
      ensures forall j :: 0 <= j < |writes| && j != i ==> (writes[j].qpn == 0 <==> writes[j].segmentCount == 0)
      ensures Holds(i, qpn)
    {
      hide Represents, Agrees, NoneIdle;
      assert forall j :: 0 <= j < |writes| ==> (writes[j].qpn == 0 <==> writes[j].segmentCount == 0) by { IdleAt(); }
      writes[i].Open(qpn, firstPsn);
      activeWriteCount := activeWriteCount + 1;
      OpenedAgrees(old(Views()), index, contents, i, writes[i].View(), Opened(firstPsn));
      contents := contents[qpn := Opened(firstPsn)];
      index := index[qpn := i];
      OneChanged(i);
    }

    lemma IdleAt()
      requires Valid()
      ensures forall j :: 0 <= j < |writes| ==> (writes[j].qpn == 0 <==> writes[j].segmentCount == 0)
    {
      forall j | 0 <= j < |writes| ensures writes[j].qpn == 0 <==> writes[j].segmentCount == 0 {
        assert Views()[j] == writes[j].View();
      }
    }

    /** 1 if the segment was stored, 0 if its place was taken, -1 if there is no context for it. */
    method AddSeg(qpn: u32, psn: u32, segmentType: u8, mbuf: Mbuf) returns (status: int)
      requires Valid() && qpn != 0
      modifies this`activeWriteCount, this`contents, this`index, Footprint()
      ensures Valid()
      ensures contents == Reassembly.AddSeg(old(contents), qpn, Seg(psn, mbuf, segmentType))
      ensures status == match AddStatusOf(old(contents), qpn, psn) case Refused => -1 case Duplicate => 0 case Stored => 1
    {
      hide Represents, Agrees, NoneIdle, Added, Place, Reassembly.AddSeg, AddStatusOf;
      IdleAt();
      AddSegCases(contents, qpn, Seg(psn, mbuf, segmentType));
      var k := Find(qpn);
      if k < 0 {
        k := GetOrCreateWrite(qpn, psn);
        if k < 0 {
          return -1;
        }
      }
      var stored := AddAt(k, qpn, psn, segmentType, mbuf);
      status := if stored then 1 else 0;
    }

    method AddAt(k: nat, qpn: u32, psn: u32, segmentType: u8, mbuf: Mbuf) returns (stored: bool)
      requires Consistent() && Holds(k, qpn)
      requires forall i :: 0 <= i < |writes| && i != k ==> (writes[i].qpn == 0 <==> writes[i].segmentCount == 0)
      modifies this`contents, writes[k], writes[k].segments
      ensures Valid()
      ensures contents == old(contents)[qpn := Added(old(contents)[qpn], Seg(psn, mbuf, segmentType))]
      ensures stored <==> Place(old(contents)[qpn], psn) !in old(contents)[qpn].got
    {
      hide Represents, Agrees, Added, Place, NoneIdle;
      ghost var m := contents[qpn];
      ghost var m' := Added(m, Seg(psn, mbuf, segmentType));
      stored := writes[k].Add(psn, segmentType, mbuf, m);
      UpdatedAgrees(old(Views()), index, contents, qpn, writes[k].View(), m');
      contents := contents[qpn := m'];
      OneChanged(k);
      RepresentsCount(writes[k].View(), m');
      AddedNonempty(m, Seg(psn, mbuf, segmentType));
      AllBusy();
    }

    lemma AllBusy()
      requires forall i :: 0 <= i < |writes| ==> (writes[i].qpn == 0 <==> writes[i].segmentCount == 0)
      ensures NoneIdle(Views())
    {
      forall i | 0 <= i < |Views()| ensures Views()[i].qpn == 0 <==> Views()[i].segmentCount == 0 {
        assert Views()[i] == writes[i].View();
      }
    }

    method IsWriteComplete(qpn: u32) returns (complete: bool)
      requires Valid() && qpn != 0
      ensures complete <==> WriteComplete(contents, qpn)
    {
      hide Agrees, ShowsAll, EndSeen, NoneIdle;
      var k := Find(qpn);
      if k < 0 {
        return false;
      }
      complete := writes[k].writeComplete;
    }

    /** The packets of the message in order, if nothing up to its end is missing. */
    method GetOrderedSegs(qpn: u32) returns (status: int, out: seq<Mbuf>)
      requires Valid() && qpn != 0
      ensures status == if Ordered(contents, qpn).Some? then 0 else -1
      ensures out == if Ordered(contents, qpn).Some? then Ordered(contents, qpn).value else []
    {
      hide Agrees, Represents, NoneIdle;
      var k := Find(qpn);
      if k < 0 {
        return -1, [];
      }
      var all;
      all, out := writes[k].Scan(contents[qpn]);
      status := if all then 0 else -1;
    }

    method RemoveWrite(qpn: u32)
      requires Valid() && qpn != 0
      modifies this`activeWriteCount, this`contents, this`index, Footprint()
      ensures Valid()
      ensures contents == Removed(old(contents), qpn)
    {
      hide Represents, Agrees, NoneIdle;
      var k := Find(qpn);
      if k < 0 {
        assert Removed(contents, qpn) == contents;
        return;
      }
      IdleAt();
      RemoveAt(k, qpn);
    }

    method RemoveAt(k: nat, qpn: u32)
      requires Consistent() && Holds(k, qpn)
      requires forall i :: 0 <= i < |writes| && i != k ==> (writes[i].qpn == 0 <==> writes[i].segmentCount == 0)
      modifies this`activeWriteCount, this`contents, this`index, writes[k], writes[k].segments
      ensures Valid()
      ensures contents == Removed(old(contents), qpn)
    {
      hide Represents, Agrees, NoneIdle, Removed;
      writes[k].Clear();
      activeWriteCount := activeWriteCount - 1;
      RemovedAgrees(old(Views()), index, contents, qpn, writes[k].View());
      contents := Removed(contents, qpn);
      index := index - {qpn};
      OneChanged(k);
      AllBusy();
    }

    /** The expected PSN if it has not been stored; 0 also when there is no such message. */
    method CheckMissing(qpn: u32) returns (psn: u32)
      requires Valid() && qpn != 0
      ensures psn == Missing(contents, qpn)
    {
      hide Agrees, ShowsAll, NoneIdle;
      var k := Find(qpn);
      if k < 0 {
        return 0;
      }
      var expected := writes[k].expectedPsn;
      var checkIdx := ForwardDist(writes[k].firstPsn, expected) % JB_MAX_SEGMENTS;
      psn := 0;
      ShowsAt(writes[k].View().slots, contents[qpn], checkIdx);
      if writes[k].segments[checkIdx].state != Received {
        psn := expected;
      }
    }
  }
}
