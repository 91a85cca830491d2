/** The CRC routines with their lazily filled static tables. */
module CrcEngine {
  import opened BitSerialCrc
  import opened CrcTables

  /** A byte as a table index, and back. */
  function IndexOf(b: Byte): (i: nat)
    ensures i < 256
  {
    b as int
  }

  function ByteOf(i: nat): Byte
    requires i < 256
  {
    i as Byte
  }

  lemma ByteOfIndexOf(b: Byte)
    ensures ByteOf(IndexOf(b)) == b
  {
  }

  /** An entry of one row makes the entry of the next: eight more clocks. */
  lemma NextEntry(c: bv32, n: nat, b: Byte)
    requires c == SliceEntry(n, b)
    ensures Xor(SliceEntry(0, LowByte(c)), c >> 8) == SliceEntry(n + 1, b)
  {
    hide BitStep, Widen, Steps, LowByte, Xor;
    TableStep(c);
    StepsAdd(Widen(b), 8 * (n + 1), 8);
  }

  class Crc32 {
    const table: array<bv32>
    var tableReady: bool
    const slice: array2<bv32>
    var sliceReady: bool

    /** The first `n` entries of the byte table are right. */
    ghost predicate TableTo(n: nat)
      requires table.Length == 256 && n <= 256
      reads table
    {
      forall i: nat :: i < n ==> table[i] == SliceEntry(0, ByteOf(i))
    }

    /** The first `n` entries of rows `lo` to `hi` of the slice table are right. */
    ghost predicate RowsTo(lo: nat, hi: nat, n: nat)
      requires slice.Length0 == 8 && slice.Length1 == 256 && hi <= 8 && n <= 256
      reads slice
    {
      forall k: nat, i: nat :: lo <= k < hi && i < n ==> slice[k, i] == SliceEntry(k, ByteOf(i))
    }

    lemma TableAt(b: Byte)
      requires table.Length == 256 && TableTo(256)
      ensures table[IndexOf(b)] == SliceEntry(0, b)
    {
      ByteOfIndexOf(b);
    }

    lemma SliceAt(k: nat, b: Byte)
      requires slice.Length0 == 8 && slice.Length1 == 256 && k < 8 && RowsTo(k, k + 1, 256)
      ensures slice[k, IndexOf(b)] == SliceEntry(k, b)
    {
      ByteOfIndexOf(b);
    }

    ghost predicate Valid()
      reads this, table, slice
    {
      && table.Length == 256
      && slice.Length0 == 8 && slice.Length1 == 256
      && (tableReady ==> TableTo(256))
      && (sliceReady ==> RowsTo(0, 8, 256))
    }

    constructor ()
      ensures Valid() && fresh(table) && fresh(slice)
    {
      table := new bv32[256];
      slice := new bv32[8, 256];
      tableReady, sliceReady := false, false;
    }

    method InitTable()
      requires Valid()
      modifies this`tableReady, table
      ensures Valid() && tableReady
    {
      hide ByteOf, IndexOf, BitStep, Widen;
      for i := 0 to 256
        invariant TableTo(i)
      {
        var c := EightClocks(ByteOf(i));
        table[i] := c;
      }
      tableReady := true;
    }

    /** The inner loop both table initialisers share. */
    static method EightClocks(b: Byte) returns (c: bv32)
      ensures c == SliceEntry(0, b)
    {
      hide BitStep, Widen;
      c := Widen(b);
      for k := 0 to 8
        invariant c == Steps(Widen(b), k)
      {
        c := BitStep(c);
      }
    }

    method InitSlice()
      requires Valid()
      modifies this`sliceReady, slice
      ensures Valid() && sliceReady
    {
      hide ByteOf, IndexOf, BitStep, Widen, Steps;
      for i := 0 to 256
        invariant RowsTo(0, 1, i)
      {
        var c := EightClocks(ByteOf(i));
        slice[0, i] := c;
      }
      for i := 0 to 256
        invariant RowsTo(0, 1, 256)
        invariant RowsTo(1, 8, i)
      {
        FillColumn(i);
      }
      sliceReady := true;
    }

    method FillColumn(i: nat)
      requires slice.Length0 == 8 && slice.Length1 == 256 && i < 256
      requires RowsTo(0, 1, 256)
      requires RowsTo(1, 8, i)
      modifies slice
      ensures RowsTo(0, 1, 256)
      ensures RowsTo(1, 8, i + 1)
    {
      hide ByteOf, IndexOf, SliceEntry, LowByte, Widen, Xor;
      var b := ByteOf(i);
      var c := slice[0, i];
      for n := 1 to 8
        invariant c == SliceEntry(n - 1, b)
        invariant RowsTo(0, 1, 256)
        invariant RowsTo(1, n, i + 1)
        invariant RowsTo(n, 8, i)
      {
        SliceAt(0, LowByte(c));
        NextEntry(c, n - 1, b);
        c := Xor(slice[0, IndexOf(LowByte(c))], c >> 8);
        slice[n, i] := c;
      }
    }

    /** One byte per lookup. */
    method Le(crc: bv32, data: seq<Byte>) returns (r: bv32)
      requires Valid()
      modifies this`tableReady, table
      ensures Valid()
      ensures r == Serial(crc, data)
    {
      hide ByteOf, IndexOf, BitStep, Widen, Steps, LowByte, Xor, Serial;
      if !tableReady {
        InitTable();
      }
      r := crc;
      SerialEmpty(crc);
      for i := 0 to |data|
        invariant Valid() && tableReady
        invariant r == Serial(crc, data[..i])
      {
        assert data[..i + 1] == data[..i] + [data[i]];
        SerialByte(crc, data[..i], data[i]);
        ByteTableStep(r, data[i]);
        TableAt(LowByte(Xor(r, Widen(data[i]))));
        r := Xor(table[IndexOf(LowByte(Xor(r, Widen(data[i]))))], r >> 8);
      }
      assert data[..|data|] == data;
    }

    method EightBytes(crc: bv32, d: seq<Byte>) returns (r: bv32)
      requires Valid() && sliceReady && |d| == 8
      ensures r == Serial(crc, d)
    {
      hide ByteOf, IndexOf, BitStep, Widen, Steps, LowByte, Xor, Serial, ByteAt, LittleEndian, SliceEntry;
      var w := crc ^ LittleEndian(d[0], d[1], d[2], d[3]);
      var t := LittleEndian(d[4], d[5], d[6], d[7]);
      SliceRound(crc, d);
      forall k: nat, b: Byte | k < 8 ensures slice[k, IndexOf(b)] == SliceEntry(k, b) {
        SliceAt(k, b);
      }
      r := Xor(Xor(Xor(Xor(Xor(Xor(Xor(
             slice[7, IndexOf(ByteAt(w, 0))], slice[6, IndexOf(ByteAt(w, 1))]),
             slice[5, IndexOf(ByteAt(w, 2))]), slice[4, IndexOf(ByteAt(w, 3))]),
             slice[3, IndexOf(ByteAt(t, 0))]), slice[2, IndexOf(ByteAt(t, 1))]),
             slice[1, IndexOf(ByteAt(t, 2))]), slice[0, IndexOf(ByteAt(t, 3))]);
    }

    /** Eight bytes per round, then one byte per lookup for what is left. */
    method LeSlice8(crc: bv32, data: seq<Byte>) returns (r: bv32)
      requires Valid()
      modifies this`sliceReady, slice
      ensures Valid()
      ensures r == Serial(crc, data)
    {
      hide ByteOf, IndexOf, BitStep, Widen, Steps, LowByte, Xor, Serial, ByteAt, LittleEndian;
      if !sliceReady {
        InitSlice();
      }
      r := crc;
      SerialEmpty(crc);
      var p, length := 0, |data|;
      while length >= 8
        invariant Valid() && sliceReady
        invariant 0 <= p && 0 <= length && p + length == |data|
        invariant r == Serial(crc, data[..p])
      {
        assert data[..p + 8] == data[..p] + data[p..p + 8];
        SerialConcat(crc, data[..p], data[p..p + 8]);
        r := EightBytes(r, data[p..p + 8]);
        p, length := p + 8, length - 8;
      }
      while length > 0
        invariant Valid() && sliceReady
        invariant 0 <= p && 0 <= length && p + length == |data|
        invariant r == Serial(crc, data[..p])
      {
        assert data[..p + 1] == data[..p] + [data[p]];
        SerialByte(crc, data[..p], data[p]);
        ByteTableStep(r, data[p]);
        SliceAt(0, LowByte(Xor(r, Widen(data[p]))));
        r := Xor(slice[0, IndexOf(LowByte(Xor(r, Widen(data[p]))))], r >> 8);
        p, length := p + 1, length - 1;
      }
      assert data[..p] == data;
    }
  }
}
