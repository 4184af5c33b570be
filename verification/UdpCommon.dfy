/** The CRC routine of the UDP transport: one constant-table lookup per byte. */
module UdpCommon {
  import opened CrcSpec
  import opened CrcTables

  method Crc32(data: seq<byte>) returns (r: bv32)
    ensures r == Crc(data)
  {
    var crc: bv32 := 0xFFFF_FFFF;
    RegisterOfNothing();
    hide Register, Update, TableStep;
    for i := 0 to |data|
      invariant crc == Register(data[..i])
    {
      TableStepIsUpdate(crc, data[i]);
      RegisterSnoc(data[..i], data[i]);
      assert data[..i + 1] == data[..i] + [data[i]];
      crc := TableStep(crc, data[i]);
    }
    assert data[..|data|] == data;
    r := crc ^ 0xFFFF_FFFF;
  }

  lemma RegisterOfNothing()
    ensures Register([]) == 0xFFFF_FFFF
  {
  }
}

/** The CRC routine of the game protocol: the table is computed on the first call and kept. */
module GameCrc {
  import opened ShiftRegister
  import opened CrcSpec
  import opened CrcTables
  import UdpCommon

  lemma ByteRange(b: byte)
    ensures 0 <= b as int < 256 && (b as int) as byte == b
  {
  }

  /** The entry for b is the register after eight shifts from b. */
  ghost predicate EntryRight(table: seq<bv32>, b: byte) {
    0 <= b as int < |table| && table[b as int] == ByteStep(b as bv32)
  }

  ghost predicate Below(b: byte, n: nat) {
    b as int < n
  }

  ghost predicate Filled(table: seq<bv32>, n: nat) {
    |table| == 256 && forall b: byte | Below(b, n) :: EntryRight(table, b)
  }

  lemma EntryKept(table: seq<bv32>, n: nat, c: bv32, b: byte)
    requires n < 256 && Filled(table, n) && c == ByteStep((n as byte) as bv32) && Below(b, n + 1)
    ensures EntryRight(table[n := c], b)
  {
    hide ByteStep;
    ByteRange(b);
    if b as int < n {
      assert Below(b, n);
      assert EntryRight(table, b);
    } else {
      assert (b as int) as byte == n as byte;
    }
  }

  lemma FilledNext(table: seq<bv32>, n: nat, c: bv32)
    requires n < 256 && Filled(table, n) && c == ByteStep((n as byte) as bv32)
    ensures Filled(table[n := c], n + 1)
  {
    hide ByteStep, EntryRight, Below;
    var next := table[n := c];
    forall b: byte | Below(b, n + 1) ensures EntryRight(next, b) {
      EntryKept(table, n, c, b);
    }
  }

  lemma FilledEntry(table: seq<bv32>, b: byte)
    requires Filled(table, 256)
    ensures EntryRight(table, b)
  {
  }

  lemma FilledNone(table: seq<bv32>)
    requires |table| == 256
    ensures Filled(table, 0)
  {
  }

  class CrcTable {
    var table: array<bv32>
    var tableInit: bool

    ghost predicate Valid()
      reads this, table
    {
      table.Length == 256 && (tableInit ==> Filled(table[..], 256))
    }

    constructor ()
      ensures Valid() && !tableInit && fresh(table)
    {
      table := new bv32[256];
      tableInit := false;
    }

    method FillTable()
      requires table.Length == 256
      modifies table, this`tableInit
      ensures Valid() && tableInit
    {
      hide ByteStep, Filled;
      FilledNone(table[..]);
      for i := 0 to 256
        invariant table.Length == 256 && Filled(table[..], i)
      {
        var c := EightShifts((i as byte) as bv32);
        FilledNext(table[..], i, c);
        table[i] := c;
      }
      tableInit := true;
    }

    method Lookup(b: byte) returns (entry: bv32)
      requires Valid() && tableInit
      ensures entry == ByteStep(b as bv32)
    {
      hide ByteStep, Filled;
      FilledEntry(table[..], b);
      entry := table[b as int];
    }

    method Crc32(data: seq<byte>) returns (r: bv32)
      requires Valid()
      modifies table, this`tableInit
      ensures Valid() && tableInit
      ensures r == Crc(data)
    {
      if !tableInit {
        FillTable();
      }
      r := Digest(data);
    }

    method Digest(data: seq<byte>) returns (r: bv32)
      requires Valid() && tableInit
      ensures r == Crc(data)
    {
      var crc: bv32 := 0xFFFF_FFFF;
      UdpCommon.RegisterOfNothing();
      hide Register, Update, ByteStep, Index, HighBytes, Valid, Add;
      for i := 0 to |data|
        invariant crc == Register(data[..i])
      {
        UpdateAdds(crc, data[i]);
        RegisterSnoc(data[..i], data[i]);
        assert data[..i + 1] == data[..i] + [data[i]];
        var entry := Lookup(Index(crc, data[i]));
        crc := Combine(crc, entry);
      }
      assert data[..|data|] == data;
      r := crc ^ 0xFFFF_FFFF;
    }
  }

  method EightShifts(start: bv32) returns (c: bv32)
    ensures c == ByteStep(start)
  {
    c := start;
    for k := 0 to 8
      invariant ByteStep(start) == Iterate(Shift, c, 8 - k)
    {
      hide Shift;
      c := ShiftOnce(c);
    }
  }

  method Combine(crc: bv32, entry: bv32) returns (r: bv32)
    ensures r == Add(HighBytes(crc), entry)
  {
    r := entry ^ (crc >> 8);
  }

  method ShiftOnce(c: bv32) returns (d: bv32)
    ensures d == Shift(c)
  {
    if c & 1 == 1 {
      d := 0xEDB8_8320 ^ (c >> 1);
    } else {
      d := c >> 1;
    }
  }
}
