/** The control message between gateways: built into and parsed out of the UDP payload,
    all multi-byte fields in network byte order. */
module CtrlMsg {
  import opened SerialNumbers
  import opened Buffers

  const ARQ_MAGIC: u32 := 0x41525130
  const MAX_LIST := 64

  // Byte offsets of the fields; bytes 5 to 7 are padding.
  const MAGIC := 0
  const TYPE := 4
  const QPN := 8
  const PSN := 12
  const COUNT := 16
  const LIST := 20
  const SIZE := 276

  datatype Message = Message(magic: u32, kind: u8, qpn: u32, psn: u32, count: u32, list: seq<u32>)

  /** How many list entries a message with this count carries. */
  function Carried(count: u32): (n: nat)
    ensures n <= MAX_LIST
  {
    if count < MAX_LIST then count else MAX_LIST
  }

  function Digit0(v: u32): u8 {
    v % 0x100
  }

  function Digit1(v: u32): u8 {
    var q: int := v / 0x100;
    q % 0x100
  }

  function Digit2(v: u32): u8 {
    var q: int := v / 0x1_0000;
    q % 0x100
  }

  function Digit3(v: u32): u8 {
    var q: int := v / 0x100_0000;
    q
  }

  function Be32(v: u32): (b: seq<u8>)
    ensures |b| == 4
  {
    [Digit3(v), Digit2(v), Digit1(v), Digit0(v)]
  }

  function WordOf(b3: int, b2: int, b1: int, b0: int): int {
    b3 * 0x100_0000 + b2 * 0x1_0000 + b1 * 0x100 + b0
  }

  function Load(buf: seq<u8>, off: nat): u32
    requires off + 4 <= |buf|
  {
    WordOf(buf[off], buf[off + 1], buf[off + 2], buf[off + 3])
  }

  function Store(buf: seq<u8>, off: nat, v: u32): (buf': seq<u8>)
    requires off + 4 <= |buf|
    ensures |buf'| == |buf|
    ensures forall i :: 0 <= i < |buf| && !(off <= i < off + 4) ==> buf'[i] == buf[i]
    ensures buf'[off..off + 4] == Be32(v)
  {
    buf[..off] + Be32(v) + buf[off + 4..]
  }

  lemma DigitsAddUp(v: u32)
    ensures WordOf(Digit3(v), Digit2(v), Digit1(v), Digit0(v)) == v
  {
    var q1: int, q2: int := v / 0x100, v / 0x1_0000;
    assert v == q1 * 0x100 + Digit0(v);
    assert q1 == q2 * 0x100 + Digit1(v);
    assert q2 == Digit3(v) * 0x100 + Digit2(v);
  }

  lemma DropDigit(q: nat, b: u8)
    ensures (q * 0x100 + b) / 0x100 == q && (q * 0x100 + b) % 0x100 == b
  {
  }

  lemma TwoDigits(v: nat)
    ensures v / 0x1_0000 == v / 0x100 / 0x100
    ensures v / 0x100_0000 == v / 0x1_0000 / 0x100
  {
  }

  lemma DigitsUnique(b3: u8, b2: u8, b1: u8, b0: u8)
    ensures var v := WordOf(b3, b2, b1, b0);
            && 0 <= v < 0x1_0000_0000
            && Digit3(v) == b3 && Digit2(v) == b2 && Digit1(v) == b1 && Digit0(v) == b0
  {
    var v := WordOf(b3, b2, b1, b0);
    var q1: nat := b3 * 0x1_0000 + b2 * 0x100 + b1;
    var q2: nat := b3 * 0x100 + b2;
    assert v == q1 * 0x100 + b0 && q1 == q2 * 0x100 + b1;
    DropDigit(q1, b0);
    DropDigit(q2, b1);
    DropDigit(b3, b2);
    TwoDigits(v);
  }

  lemma Be32Inverts(v: u32)
    ensures Load(Be32(v), 0) == v
  {
    hide Digit0, Digit1, Digit2, Digit3, WordOf;
    DigitsAddUp(v);
  }

  /** The four bytes of a word are determined by its value. */
  lemma LoadInverts(buf: seq<u8>, off: nat)
    requires off + 4 <= |buf|
    ensures Be32(Load(buf, off)) == buf[off..off + 4]
  {
    hide Digit0, Digit1, Digit2, Digit3, WordOf;
    DigitsUnique(buf[off], buf[off + 1], buf[off + 2], buf[off + 3]);
  }

  /** A word reads back as it was stored. */
  lemma LoadStored(buf: seq<u8>, off: nat, v: u32)
    requires off + 4 <= |buf|
    ensures Load(Store(buf, off, v), off) == v
  {
    var b := Store(buf, off, v);
    assert b[off..off + 4] == Be32(v);
    assert b[off] == b[off..off + 4][0] && b[off + 1] == b[off..off + 4][1];
    assert b[off + 2] == b[off..off + 4][2] && b[off + 3] == b[off..off + 4][3];
    Be32Inverts(v);
  }

  /** Storing one word leaves every other word as it was. */
  lemma LoadElsewhere(buf: seq<u8>, off: nat, v: u32, at: nat)
    requires off + 4 <= |buf| && at + 4 <= |buf|
    requires at + 4 <= off || off + 4 <= at
    ensures Load(Store(buf, off, v), at) == Load(buf, at)
  {
  }

  // ----- building -----

  /** The buffer with the first `k` list entries written. */
  function StoreList(buf: seq<u8>, list: seq<u32>, k: nat): (buf': seq<u8>)
    requires |buf| >= SIZE && k <= |list| && k <= MAX_LIST
    ensures |buf'| == |buf|
  {
    if k == 0 then buf else Store(StoreList(buf, list, k - 1), LIST + 4 * (k - 1), list[k - 1])
  }

  function StoreFields(buf: seq<u8>, kind: u8, qpn: u32, psn: u32, count: u32): (buf': seq<u8>)
    requires |buf| >= SIZE
    ensures |buf'| == |buf|
  {
    Store(Store(Store(Store(buf, MAGIC, ARQ_MAGIC)[TYPE := kind], QPN, qpn), PSN, psn), COUNT, count)
  }

  /** Everything the builder does to the payload; without a list its place is left as it was. */
  function Built(buf: seq<u8>, kind: u8, qpn: u32, psn: u32, list: Option<seq<u32>>, count: u32): (buf': seq<u8>)
    requires |buf| >= SIZE
    requires list.Some? ==> Carried(count) <= |list.value|
    ensures |buf'| == |buf|
  {
    var fields := StoreFields(buf, kind, qpn, psn, count);
    if list.Some? then StoreList(fields, list.value, Carried(count)) else fields
  }

  method StoreBe32(buf: array<u8>, off: nat, v: u32)
    requires off + 4 <= buf.Length
    modifies buf
    ensures buf[..] == Store(old(buf[..]), off, v)
  {
    buf[off] := Digit3(v);
    buf[off + 1] := Digit2(v);
    buf[off + 2] := Digit1(v);
    buf[off + 3] := Digit0(v);
  }

  method BuildCtrlMsg(buf: array<u8>, qpn: u32, kind: u8, psn: u32, list: Option<seq<u32>>, count: u32)
    requires buf.Length >= SIZE
    requires list.Some? ==> Carried(count) <= |list.value|
    modifies buf
    ensures buf[..] == Built(old(buf[..]), kind, qpn, psn, list, count)
  {
    hide Store;
    StoreBe32(buf, MAGIC, ARQ_MAGIC);
    buf[TYPE] := kind;
    assert buf[..] == Store(old(buf[..]), MAGIC, ARQ_MAGIC)[TYPE := kind];
    StoreBe32(buf, QPN, qpn);
    StoreBe32(buf, PSN, psn);
    StoreBe32(buf, COUNT, count);
    ghost var fields := buf[..];
    if list.Some? && count > 0 {
      var i := 0;
      while i < count && i < MAX_LIST
        invariant 0 <= i <= Carried(count)
        invariant buf[..] == StoreList(fields, list.value, i)
      {
        StoreBe32(buf, LIST + 4 * i, list.value[i]);
        i := i + 1;
      }
    }
  }

  // ----- parsing -----

  function LoadList(buf: seq<u8>, k: nat): (list: seq<u32>)
    requires |buf| >= SIZE && k <= MAX_LIST
    ensures |list| == k
    ensures forall i :: 0 <= i < k ==> list[i] == Load(buf, LIST + 4 * i)
  {
    if k == 0 then [] else LoadList(buf, k - 1) + [Load(buf, LIST + 4 * (k - 1))]
  }

  function Parsed(buf: seq<u8>): Option<Message>
    requires |buf| >= SIZE
  {
    if Load(buf, MAGIC) != ARQ_MAGIC then None
    else
      var count := Load(buf, COUNT);
      Some(Message(Load(buf, MAGIC), buf[TYPE], Load(buf, QPN), Load(buf, PSN), count, LoadList(buf, Carried(count))))
  }

  method ParseCtrlMsg(buf: array<u8>) returns (r: Option<Message>)
    requires buf.Length >= SIZE
    ensures r == Parsed(buf[..])
  {
    hide Load;
    if Load(buf[..], MAGIC) != ARQ_MAGIC {
      return None;
    }
    var count := Load(buf[..], COUNT);
    var list: seq<u32> := [];
    var i := 0;
    while i < count && i < MAX_LIST
      invariant 0 <= i <= Carried(count)
      invariant list == LoadList(buf[..], i)
    {
      list := list + [Load(buf[..], LIST + 4 * i)];
      i := i + 1;
    }
    return Some(Message(Load(buf[..], MAGIC), buf[TYPE], Load(buf[..], QPN), Load(buf[..], PSN), count, list));
  }

  // ----- the round trip -----

  lemma LoadAfterByte(buf: seq<u8>, i: nat, v: u8, at: nat)
    requires i < |buf| && at + 4 <= |buf| && !(at <= i < at + 4)
    ensures Load(buf[i := v], at) == Load(buf, at)
  {
  }

  /** `b` carries these fields in front of the list of `buf`. */
  ghost predicate FieldsAre(b: seq<u8>, buf: seq<u8>, kind: u8, qpn: u32, psn: u32, count: u32)
    requires |b| == |buf| >= SIZE
  {
    && Load(b, MAGIC) == ARQ_MAGIC && b[TYPE] == kind
    && Load(b, QPN) == qpn && Load(b, PSN) == psn && Load(b, COUNT) == count
    && b[LIST..] == buf[LIST..]
  }

  lemma MagicReadsBack(buf: seq<u8>, kind: u8, qpn: u32, psn: u32, count: u32)
    requires |buf| >= SIZE
    ensures Load(StoreFields(buf, kind, qpn, psn, count), MAGIC) == ARQ_MAGIC
  {
    hide Store, Load;
    var b0 := Store(buf, MAGIC, ARQ_MAGIC);
    var b1 := b0[TYPE := kind];
    LoadStored(buf, MAGIC, ARQ_MAGIC);
    LoadAfterByte(b0, TYPE, kind, MAGIC);
    LoadElsewhere(b1, QPN, qpn, MAGIC);
    LoadElsewhere(Store(b1, QPN, qpn), PSN, psn, MAGIC);
    LoadElsewhere(Store(Store(b1, QPN, qpn), PSN, psn), COUNT, count, MAGIC);
  }

  /** Three words stored behind the type byte read back, and touch nothing else. */
  lemma WordsReadBack(b: seq<u8>, qpn: u32, psn: u32, count: u32)
    requires |b| >= SIZE
    ensures var r := Store(Store(Store(b, QPN, qpn), PSN, psn), COUNT, count);
            && |r| == |b|
            && Load(r, QPN) == qpn && Load(r, PSN) == psn && Load(r, COUNT) == count
  {
    hide Store, Load;
    var b2 := Store(b, QPN, qpn);
    var b3 := Store(b2, PSN, psn);
    LoadStored(b, QPN, qpn);
    LoadElsewhere(b2, PSN, psn, QPN);
    LoadElsewhere(b3, COUNT, count, QPN);
    LoadStored(b2, PSN, psn);
    LoadElsewhere(b3, COUNT, count, PSN);
    LoadStored(b3, COUNT, count);
  }

  lemma StoreKeepsByte(b: seq<u8>, off: nat, v: u32, i: nat)
    requires off + 4 <= |b| && i < |b| && !(off <= i < off + 4)
    ensures Store(b, off, v)[i] == b[i]
  {
  }

  lemma StoreKeepsTail(b: seq<u8>, off: nat, v: u32)
    requires off + 4 <= LIST && |b| >= SIZE
    ensures Store(b, off, v)[LIST..] == b[LIST..]
  {
  }

  lemma TypeReadsBack(buf: seq<u8>, kind: u8, qpn: u32, psn: u32, count: u32)
    requires |buf| >= SIZE
    ensures StoreFields(buf, kind, qpn, psn, count)[TYPE] == kind
  {
    hide Store;
    var b1 := Store(buf, MAGIC, ARQ_MAGIC)[TYPE := kind];
    StoreKeepsByte(b1, QPN, qpn, TYPE);
    StoreKeepsByte(Store(b1, QPN, qpn), PSN, psn, TYPE);
    StoreKeepsByte(Store(Store(b1, QPN, qpn), PSN, psn), COUNT, count, TYPE);
  }

  lemma ListPlaceKept(buf: seq<u8>, kind: u8, qpn: u32, psn: u32, count: u32)
    requires |buf| >= SIZE
    ensures StoreFields(buf, kind, qpn, psn, count)[LIST..] == buf[LIST..]
  {
    hide Store;
    var b0 := Store(buf, MAGIC, ARQ_MAGIC);
    var b1 := b0[TYPE := kind];
    StoreKeepsTail(buf, MAGIC, ARQ_MAGIC);
    assert b1[LIST..] == b0[LIST..];
    StoreKeepsTail(b1, QPN, qpn);
    StoreKeepsTail(Store(b1, QPN, qpn), PSN, psn);
    StoreKeepsTail(Store(Store(b1, QPN, qpn), PSN, psn), COUNT, count);
  }

  lemma FieldsReadBack(buf: seq<u8>, kind: u8, qpn: u32, psn: u32, count: u32)
    requires |buf| >= SIZE
    ensures FieldsAre(StoreFields(buf, kind, qpn, psn, count), buf, kind, qpn, psn, count)
  {
    hide Store, Load;
    MagicReadsBack(buf, kind, qpn, psn, count);
    TypeReadsBack(buf, kind, qpn, psn, count);
    WordsReadBack(Store(buf, MAGIC, ARQ_MAGIC)[TYPE := kind], qpn, psn, count);
    ListPlaceKept(buf, kind, qpn, psn, count);
  }

  lemma {:induction false} ListReadsBack(buf: seq<u8>, list: seq<u32>, k: nat)
    requires |buf| >= SIZE && k <= |list| && k <= MAX_LIST
    ensures LoadList(StoreList(buf, list, k), k) == list[..k]
    ensures StoreList(buf, list, k)[..LIST] == buf[..LIST]
  {
    hide Load;
    if k > 0 {
      var b := StoreList(buf, list, k - 1);
      ListReadsBack(buf, list, k - 1);
      LoadStored(b, LIST + 4 * (k - 1), list[k - 1]);
      forall i | 0 <= i < k - 1 ensures Load(Store(b, LIST + 4 * (k - 1), list[k - 1]), LIST + 4 * i) == Load(b, LIST + 4 * i) {
        LoadElsewhere(b, LIST + 4 * (k - 1), list[k - 1], LIST + 4 * i);
      }
      forall i | 0 <= i < k ensures Load(StoreList(buf, list, k), LIST + 4 * i) == list[i] {
        if i < k - 1 {
          assert list[..k - 1][i] == LoadList(b, k - 1)[i];
        }
      }
      assert list[..k] == list[..k - 1] + [list[k - 1]];
    }
  }

  lemma LoadPrefix(a: seq<u8>, b: seq<u8>, n: nat, at: nat)
    requires n <= |a| && n <= |b| && a[..n] == b[..n] && at + 4 <= n
    ensures Load(a, at) == Load(b, at)
  {
    assert forall i :: 0 <= i < n ==> a[i] == a[..n][i] && b[i] == b[..n][i];
  }

  /** What was built is what is parsed, whatever the buffer held before: every field, and as
      many list entries as the message can carry. */
  lemma RoundTrip(buf: seq<u8>, kind: u8, qpn: u32, psn: u32, list: seq<u32>, count: u32)
    requires |buf| >= SIZE && Carried(count) <= |list|
    ensures Parsed(Built(buf, kind, qpn, psn, Some(list), count))
         == Some(Message(ARQ_MAGIC, kind, qpn, psn, count, list[..Carried(count)]))
  {
    hide Load, Store, StoreFields, StoreList;
    var f, b := StoreFields(buf, kind, qpn, psn, count), Built(buf, kind, qpn, psn, Some(list), count);
    FieldsReadBack(buf, kind, qpn, psn, count);
    ListReadsBack(f, list, Carried(count));
    LoadPrefix(b, f, LIST, MAGIC);
    LoadPrefix(b, f, LIST, QPN);
    LoadPrefix(b, f, LIST, PSN);
    LoadPrefix(b, f, LIST, COUNT);
    assert b[TYPE] == b[..LIST][TYPE] == f[..LIST][TYPE] == f[TYPE];
  }

  /** The messages the gateway sends carry no list: all fields come through, and the list that
      is parsed is whatever the buffer held in its place. */
  lemma RoundTripNoList(buf: seq<u8>, kind: u8, qpn: u32, psn: u32, count: u32)
    requires |buf| >= SIZE
    ensures Parsed(Built(buf, kind, qpn, psn, None, count))
         == Some(Message(ARQ_MAGIC, kind, qpn, psn, count, LoadList(buf, Carried(count))))
  {
    hide Load, Store, StoreFields, LoadList;
    FieldsReadBack(buf, kind, qpn, psn, count);
    SameListPlace(StoreFields(buf, kind, qpn, psn, count), buf, Carried(count));
  }

  lemma SameListPlace(a: seq<u8>, b: seq<u8>, k: nat)
    requires |a| == |b| >= SIZE && k <= MAX_LIST && a[LIST..] == b[LIST..]
    ensures LoadList(a, k) == LoadList(b, k)
  {
    hide Load;
    forall i | 0 <= i < k ensures Load(a, LIST + 4 * i) == Load(b, LIST + 4 * i) {
      LoadSuffix(a, b, LIST, LIST + 4 * i);
    }
  }

  lemma LoadSuffix(a: seq<u8>, b: seq<u8>, n: nat, at: nat)
    requires n <= |a| == |b| && a[n..] == b[n..] && n <= at && at + 4 <= |a|
    ensures Load(a, at) == Load(b, at)
  {
    assert forall i :: n <= i < |a| ==> a[i] == a[n..][i - n] && b[i] == b[n..][i - n];
  }

  /** The layout: the letters ARQ0, the type, three bytes of padding left as they were, then queue pair,
      PSN and count in network byte order, and the list from byte 20 on. */
  lemma Layout(buf: seq<u8>, kind: u8, qpn: u32, psn: u32, list: Option<seq<u32>>, count: u32)
    requires |buf| >= 276 && (list.Some? ==> Carried(count) <= |list.value|)
    ensures var b := Built(buf, kind, qpn, psn, list, count);
            && b[..4] == [0x41, 0x52, 0x51, 0x30] && b[4] == kind && b[5..8] == buf[5..8]
            && b[8..12] == Be32(qpn) && b[12..16] == Be32(psn) && b[16..20] == Be32(count)
            && (list.None? ==> b[20..] == buf[20..])
  {
    hide Load, Store, Be32, StoreFields, StoreList;
    var f, b := StoreFields(buf, kind, qpn, psn, count), Built(buf, kind, qpn, psn, list, count);
    FieldBytes(buf, kind, qpn, psn, count);
    MagicBytes();
    ListPlaceKept(buf, kind, qpn, psn, count);
    if list.Some? {
      ListReadsBack(f, list.value, Carried(count));
      SameFront(b, f);
    }
  }

  lemma SameFront(b: seq<u8>, f: seq<u8>)
    requires |b| == |f| >= 276 && b[..20] == f[..20]
    ensures b[..4] == f[..4] && b[4] == f[4] && b[5..8] == f[5..8]
    ensures b[8..12] == f[8..12] && b[12..16] == f[12..16] && b[16..20] == f[16..20]
  {
    assert forall i :: 0 <= i < 20 ==> b[i] == b[..20][i] && f[i] == f[..20][i];
  }

  lemma MagicBytes()
    ensures Be32(ARQ_MAGIC) == [0x41, 0x52, 0x51, 0x30]
  {
  }

  lemma FieldBytes(buf: seq<u8>, kind: u8, qpn: u32, psn: u32, count: u32)
    requires |buf| >= 276
    ensures var f := StoreFields(buf, kind, qpn, psn, count);
            && f[..4] == Be32(ARQ_MAGIC) && f[4] == kind && f[5..8] == buf[5..8]
            && f[8..12] == Be32(qpn) && f[12..16] == Be32(psn) && f[16..20] == Be32(count)
  {
    hide Be32;
  }

  /** The most significant byte comes first. */
  lemma NetworkOrder(v: u32)
    ensures var b: seq<int> := Be32(v); b[0] * 0x100_0000 + b[1] * 0x1_0000 + b[2] * 0x100 + b[3] == v
  {
    DigitsAddUp(v);
  }

  /** Entry `i` of the list sits at byte 20 + 4 i. */
  lemma {:induction false} ListLayout(buf: seq<u8>, list: seq<u32>, k: nat, i: nat)
    requires |buf| >= 276 && i < k <= |list| && k <= 64
    ensures StoreList(buf, list, k)[20 + 4 * i..24 + 4 * i] == Be32(list[i])
  {
    hide Be32;
    if i < k - 1 {
      ListLayout(buf, list, k - 1, i);
    }
  }

  /** A payload is refused exactly when its first four bytes are not the magic number. */
  lemma RefusedIff(buf: seq<u8>)
    requires |buf| >= SIZE
    ensures Parsed(buf).None? <==> buf[MAGIC..MAGIC + 4] != Be32(ARQ_MAGIC)
  {
    hide Load;
    LoadInverts(buf, MAGIC);
    LoadStored(buf, MAGIC, ARQ_MAGIC);
    if buf[MAGIC..MAGIC + 4] == Be32(ARQ_MAGIC) {
      assert Store(buf, MAGIC, ARQ_MAGIC) == buf;
    }
  }
}
