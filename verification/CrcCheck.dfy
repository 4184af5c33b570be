/** What pins CRC-32 down from outside: its value on nothing and on the digits, and the residue that
    a message followed by its own CRC leaves. */
module CrcCheck {
  import opened ShiftRegister
  import opened CrcSpec
  import opened CrcTables
  import opened LittleEndian
  import UdpCommon

  lemma CrcOfNothing()
    ensures Crc([]) == 0
  {
    UdpCommon.RegisterOfNothing();
    hide Register;
  }

  // ----- The residue -----

  function LowByte(v: bv32): byte { (v & 0xFF) as byte }

  function Raised(v: bv32): bv32 { v << 8 }

  lemma Parts(v: bv32)
    ensures v == Add(Raised(HighBytes(v)), LowByte(v) as bv32) && HighBytes(v) < 0x0100_0000
  {
  }

  lemma RaisedFalls(v: bv32)
    requires v < 0x0100_0000
    ensures ByteStep(Raised(v)) == v
  {
    ByteStepOfHigh(v);
  }

  lemma AddAssociates(x: bv32, y: bv32, z: bv32)
    ensures Add(Add(x, y), z) == Add(x, Add(y, z))
  {
  }

  lemma AddTwice(x: bv32)
    ensures Add(x, x) == 0
  {
  }

  lemma Cancels(s: bv32, high: bv32, low: bv32)
    ensures Add(Add(s, Add(high, low)), low) == Add(s, high)
  {
    hide *;
    AddAssociates(s, Add(high, low), low);
    AddAssociates(high, low, low);
    AddTwice(low);
    AddNothing(high);
  }

  lemma UpdateIsStep(c: bv32, b: byte)
    ensures Update(c, b) == ByteStep(Add(c, b as bv32))
  {
    hide Iterate;
    UpdateIsByteStep(c, b);
  }

  lemma UpdateCancels(s: bv32, high: bv32, b: byte)
    ensures Update(Add(s, Add(high, b as bv32)), b) == Add(ByteStep(s), ByteStep(high))
  {
    hide *;
    UpdateIsStep(Add(s, Add(high, b as bv32)), b);
    Cancels(s, high, b as bv32);
    ByteStepAdds(s, high);
  }

  /** A byte that the register already holds in its low bits cancels there; the rest moves down. */
  lemma Absorb(s: bv32, v: bv32)
    ensures Update(Add(s, v), LowByte(v)) == Add(ByteStep(s), HighBytes(v))
  {
    hide *;
    Parts(v);
    RaisedFalls(HighBytes(v));
    UpdateCancels(s, Raised(HighBytes(v)), LowByte(v));
  }

  lemma ResidueSteps()
    ensures ByteStep(0xFFFF_FFFF) == 0x2DFD_1072 && ByteStep(0x2DFD_1072) == 0xBE26_ED00
    ensures ByteStep(0xBE26_ED00) == 0x00BE_26ED && ByteStep(0x00BE_26ED) == 0xDEBB_20E3
  {
  }

  lemma WordBytes(w: bv32)
    ensures var (v1, v2) := (HighBytes(w), HighBytes(HighBytes(w)));
            EncodeWord(w) == [LowByte(w), LowByte(v1), LowByte(v2), LowByte(HighBytes(v2))]
    ensures HighBytes(HighBytes(HighBytes(HighBytes(w)))) == 0
  {
  }

  lemma Complement(r: bv32)
    ensures r == Add(0xFFFF_FFFF, r ^ 0xFFFF_FFFF)
  {
  }

  lemma OneMore(data: seq<byte>, s: bv32, v: bv32, t: bv32)
    requires Register(data) == Add(s, v) && ByteStep(s) == t
    ensures Register(data + [LowByte(v)]) == Add(t, HighBytes(v))
  {
    hide *;
    RegisterSnoc(data, LowByte(v));
    Absorb(s, v);
  }

  lemma FourMore(data: seq<byte>, w: bv32)
    requires Register(data) == Add(0xFFFF_FFFF, w)
    ensures Register(data + EncodeWord(w)) == 0xDEBB_20E3
  {
    hide *;
    WordBytes(w);
    ResidueSteps();
    var v1 := HighBytes(w);
    var v2 := HighBytes(v1);
    var v3 := HighBytes(v2);
    var d1 := data + [LowByte(w)];
    var d2 := d1 + [LowByte(v1)];
    var d3 := d2 + [LowByte(v2)];
    OneMore(data, 0xFFFF_FFFF, w, 0x2DFD_1072);
    OneMore(d1, 0x2DFD_1072, v1, 0xBE26_ED00);
    OneMore(d2, 0xBE26_ED00, v2, 0x00BE_26ED);
    OneMore(d3, 0x00BE_26ED, v3, 0xDEBB_20E3);
    AddNothing(0xDEBB_20E3);
    FourApart(data, LowByte(w), LowByte(v1), LowByte(v2), LowByte(v3));
  }

  lemma FourApart<T>(x: seq<T>, a: T, b: T, c: T, d: T)
    ensures x + [a, b, c, d] == x + [a] + [b] + [c] + [d]
  {
  }

  lemma CrcOfRegister(data: seq<byte>, r: bv32)
    requires Register(data) == r
    ensures Crc(data) == r ^ 0xFFFF_FFFF
  {
    hide Register;
  }

  lemma RegisterOfCrc(data: seq<byte>)
    ensures Register(data) == Add(0xFFFF_FFFF, Crc(data))
  {
    hide Register;
    Complement(Register(data));
  }

  /** A message followed by its CRC, lowest byte first, always has the same CRC. */
  lemma Residue(data: seq<byte>)
    ensures Crc(data + EncodeWord(Crc(data))) == 0x2144_DF1C
  {
    hide *;
    RegisterOfCrc(data);
    FourMore(data, Crc(data));
    CrcOfRegister(data + EncodeWord(Crc(data)), 0xDEBB_20E3);
  }

  // ----- The check value -----

  lemma RegisterStep(data: seq<byte>, c: bv32, b: byte, d: bv32)
    requires Register(data) == c && ByteStep(c ^ (b as bv32)) == d
    ensures Register(data + [b]) == d
  {
    hide *;
    RegisterSnoc(data, b);
    UpdateIsByteStep(c, b);
  }

  lemma DigitSteps()
    ensures ByteStep(0xFFFF_FFFF ^ 0x31) == 0x7C23_1048
    ensures ByteStep(0x7C23_1048 ^ 0x32) == 0xB0AC_BB32
    ensures ByteStep(0xB0AC_BB32 ^ 0x33) == 0x77B7_9C2D
    ensures ByteStep(0x77B7_9C2D ^ 0x34) == 0x641C_1F5C
    ensures ByteStep(0x641C_1F5C ^ 0x35) == 0x340A_C5E3
    ensures ByteStep(0x340A_C5E3 ^ 0x36) == 0xF68D_2C9E
    ensures ByteStep(0xF68D_2C9E ^ 0x37) == 0xAFFC_9660
    ensures ByteStep(0xAFFC_9660 ^ 0x38) == 0x651F_2550
    ensures ByteStep(0x651F_2550 ^ 0x39) == 0x340B_C6D9
  {
  }

  /** The CRC of the nine digits. */
  lemma CheckValue()
    ensures Crc([0x31, 0x32, 0x33, 0x34, 0x35, 0x36, 0x37, 0x38, 0x39]) == 0xCBF4_3926
  {
    hide *;
    var digits: seq<byte> := [0x31, 0x32, 0x33, 0x34, 0x35, 0x36, 0x37, 0x38, 0x39];
    UdpCommon.RegisterOfNothing();
    DigitSteps();
    assert digits[..0] == [];
    RegisterStep(digits[..0], 0xFFFF_FFFF, 0x31, 0x7C23_1048);
    assert digits[..1] == digits[..0] + [0x31];
    RegisterStep(digits[..1], 0x7C23_1048, 0x32, 0xB0AC_BB32);
    assert digits[..2] == digits[..1] + [0x32];
    RegisterStep(digits[..2], 0xB0AC_BB32, 0x33, 0x77B7_9C2D);
    assert digits[..3] == digits[..2] + [0x33];
    RegisterStep(digits[..3], 0x77B7_9C2D, 0x34, 0x641C_1F5C);
    assert digits[..4] == digits[..3] + [0x34];
    RegisterStep(digits[..4], 0x641C_1F5C, 0x35, 0x340A_C5E3);
    assert digits[..5] == digits[..4] + [0x35];
    RegisterStep(digits[..5], 0x340A_C5E3, 0x36, 0xF68D_2C9E);
    assert digits[..6] == digits[..5] + [0x36];
    RegisterStep(digits[..6], 0xF68D_2C9E, 0x37, 0xAFFC_9660);
    assert digits[..7] == digits[..6] + [0x37];
    RegisterStep(digits[..7], 0xAFFC_9660, 0x38, 0x651F_2550);
    assert digits[..8] == digits[..7] + [0x38];
    RegisterStep(digits[..8], 0x651F_2550, 0x39, 0x340B_C6D9);
    assert digits[..9] == digits[..8] + [0x39];
    assert digits[..9] == digits;
    CrcOfRegister(digits, 0x340B_C6D9);
  }
}
