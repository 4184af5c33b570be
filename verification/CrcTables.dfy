/** The constant lookup table of the UDP transport, as it is written out in its source, and the
    table the game protocol computes at run time: both hold the register after one byte. */
module CrcTables {
  import opened ShiftRegister
  import opened CrcSpec

  // ----- The constant table, row by row -----

  datatype Row = Row(e0: bv32, e1: bv32, e2: bv32, e3: bv32, e4: bv32, e5: bv32, e6: bv32, e7: bv32) {
    function At(j: bv8): bv32 {
      match j & 7
      case 0 => e0 case 1 => e1 case 2 => e2 case 3 => e3
      case 4 => e4 case 5 => e5 case 6 => e6 case _ => e7
    }
  }

  function Quarter0(r: bv8): Row {
    match r & 7
    case 0 => Row(0x00000000, 0x77073096, 0xEE0E612C, 0x990951BA, 0x076DC419, 0x706AF48F, 0xE963A535, 0x9E6495A3)
    case 1 => Row(0x0EDB8832, 0x79DCB8A4, 0xE0D5E91E, 0x97D2D988, 0x09B64C2B, 0x7EB17CBD, 0xE7B82D07, 0x90BF1D91)
    case 2 => Row(0x1DB71064, 0x6AB020F2, 0xF3B97148, 0x84BE41DE, 0x1ADAD47D, 0x6DDDE4EB, 0xF4D4B551, 0x83D385C7)
    case 3 => Row(0x136C9856, 0x646BA8C0, 0xFD62F97A, 0x8A65C9EC, 0x14015C4F, 0x63066CD9, 0xFA0F3D63, 0x8D080DF5)
    case 4 => Row(0x3B6E20C8, 0x4C69105E, 0xD56041E4, 0xA2677172, 0x3C03E4D1, 0x4B04D447, 0xD20D85FD, 0xA50AB56B)
    case 5 => Row(0x35B5A8FA, 0x42B2986C, 0xDBBBC9D6, 0xACBCF940, 0x32D86CE3, 0x45DF5C75, 0xDCD60DCF, 0xABD13D59)
    case 6 => Row(0x26D930AC, 0x51DE003A, 0xC8D75180, 0xBFD06116, 0x21B4F4B5, 0x56B3C423, 0xCFBA9599, 0xB8BDA50F)
    case _ => Row(0x2802B89E, 0x5F058808, 0xC60CD9B2, 0xB10BE924, 0x2F6F7C87, 0x58684C11, 0xC1611DAB, 0xB6662D3D)
  }

  function Quarter1(r: bv8): Row {
    match r & 7
    case 0 => Row(0x76DC4190, 0x01DB7106, 0x98D220BC, 0xEFD5102A, 0x71B18589, 0x06B6B51F, 0x9FBFE4A5, 0xE8B8D433)
    case 1 => Row(0x7807C9A2, 0x0F00F934, 0x9609A88E, 0xE10E9818, 0x7F6A0DBB, 0x086D3D2D, 0x91646C97, 0xE6635C01)
    case 2 => Row(0x6B6B51F4, 0x1C6C6162, 0x856530D8, 0xF262004E, 0x6C0695ED, 0x1B01A57B, 0x8208F4C1, 0xF50FC457)
    case 3 => Row(0x65B0D9C6, 0x12B7E950, 0x8BBEB8EA, 0xFCB9887C, 0x62DD1DDF, 0x15DA2D49, 0x8CD37CF3, 0xFBD44C65)
    case 4 => Row(0x4DB26158, 0x3AB551CE, 0xA3BC0074, 0xD4BB30E2, 0x4ADFA541, 0x3DD895D7, 0xA4D1C46D, 0xD3D6F4FB)
    case 5 => Row(0x4369E96A, 0x346ED9FC, 0xAD678846, 0xDA60B8D0, 0x44042D73, 0x33031DE5, 0xAA0A4C5F, 0xDD0D7CC9)
    case 6 => Row(0x5005713C, 0x270241AA, 0xBE0B1010, 0xC90C2086, 0x5768B525, 0x206F85B3, 0xB966D409, 0xCE61E49F)
    case _ => Row(0x5EDEF90E, 0x29D9C998, 0xB0D09822, 0xC7D7A8B4, 0x59B33D17, 0x2EB40D81, 0xB7BD5C3B, 0xC0BA6CAD)
  }

  function Quarter2(r: bv8): Row {
    match r & 7
    case 0 => Row(0xEDB88320, 0x9ABFB3B6, 0x03B6E20C, 0x74B1D29A, 0xEAD54739, 0x9DD277AF, 0x04DB2615, 0x73DC1683)
    case 1 => Row(0xE3630B12, 0x94643B84, 0x0D6D6A3E, 0x7A6A5AA8, 0xE40ECF0B, 0x9309FF9D, 0x0A00AE27, 0x7D079EB1)
    case 2 => Row(0xF00F9344, 0x8708A3D2, 0x1E01F268, 0x6906C2FE, 0xF762575D, 0x806567CB, 0x196C3671, 0x6E6B06E7)
    case 3 => Row(0xFED41B76, 0x89D32BE0, 0x10DA7A5A, 0x67DD4ACC, 0xF9B9DF6F, 0x8EBEEFF9, 0x17B7BE43, 0x60B08ED5)
    case 4 => Row(0xD6D6A3E8, 0xA1D1937E, 0x38D8C2C4, 0x4FDFF252, 0xD1BB67F1, 0xA6BC5767, 0x3FB506DD, 0x48B2364B)
    case 5 => Row(0xD80D2BDA, 0xAF0A1B4C, 0x36034AF6, 0x41047A60, 0xDF60EFC3, 0xA867DF55, 0x316E8EEF, 0x4669BE79)
    case 6 => Row(0xCB61B38C, 0xBC66831A, 0x256FD2A0, 0x5268E236, 0xCC0C7795, 0xBB0B4703, 0x220216B9, 0x5505262F)
    case _ => Row(0xC5BA3BBE, 0xB2BD0B28, 0x2BB45A92, 0x5CB36A04, 0xC2D7FFA7, 0xB5D0CF31, 0x2CD99E8B, 0x5BDEAE1D)
  }

  function Quarter3(r: bv8): Row {
    match r & 7
    case 0 => Row(0x9B64C2B0, 0xEC63F226, 0x756AA39C, 0x026D930A, 0x9C0906A9, 0xEB0E363F, 0x72076785, 0x05005713)
    case 1 => Row(0x95BF4A82, 0xE2B87A14, 0x7BB12BAE, 0x0CB61B38, 0x92D28E9B, 0xE5D5BE0D, 0x7CDCEFB7, 0x0BDBDF21)
    case 2 => Row(0x86D3D2D4, 0xF1D4E242, 0x68DDB3F8, 0x1FDA836E, 0x81BE16CD, 0xF6B9265B, 0x6FB077E1, 0x18B74777)
    case 3 => Row(0x88085AE6, 0xFF0F6A70, 0x66063BCA, 0x11010B5C, 0x8F659EFF, 0xF862AE69, 0x616BFFD3, 0x166CCF45)
    case 4 => Row(0xA00AE278, 0xD70DD2EE, 0x4E048354, 0x3903B3C2, 0xA7672661, 0xD06016F7, 0x4969474D, 0x3E6E77DB)
    case 5 => Row(0xAED16A4A, 0xD9D65ADC, 0x40DF0B66, 0x37D83BF0, 0xA9BCAE53, 0xDEBB9EC5, 0x47B2CF7F, 0x30B5FFE9)
    case 6 => Row(0xBDBDF21C, 0xCABAC28A, 0x53B39330, 0x24B4A3A6, 0xBAD03605, 0xCDD70693, 0x54DE5729, 0x23D967BF)
    case _ => Row(0xB3667A2E, 0xC4614AB8, 0x5D681B02, 0x2A6F2B94, 0xB40BBE37, 0xC30C8EA1, 0x5A05DF1B, 0x2D02EF8D)
  }

  function ConstantTable(i: byte): bv32 {
    match i >> 6
    case 0 => Quarter0(i >> 3).At(i)
    case 1 => Quarter1(i >> 3).At(i)
    case 2 => Quarter2(i >> 3).At(i)
    case _ => Quarter3(i >> 3).At(i)
  }

  // ----- The table entries are eight shifts -----

  /** Eight shifts of the register. */
  function ByteStep(c: bv32): bv32 {
    Iterate(Shift, c, 8)
  }

  lemma IterateAdds(x: bv32, y: bv32)
    ensures Iterate(Shift, Add(x, y), 8) == Add(Iterate(Shift, x, 8), Iterate(Shift, y, 8))
  {
    hide *;
    ShiftAddsUp();
    IterateLinear(Shift, Add, x, y, 8);
  }

  lemma ByteStepAdds(x: bv32, y: bv32)
    ensures ByteStep(Add(x, y)) == Add(ByteStep(x), ByteStep(y))
  {
    hide Shift, Iterate, Add;
    IterateAdds(x, y);
  }

  lemma TableQuarter0(i: byte)
    ensures i >> 6 == 0 ==> ConstantTable(i) == ByteStep(i as bv32)
  {
  }

  lemma TableQuarter1(i: byte)
    ensures i >> 6 == 1 ==> ConstantTable(i) == ByteStep(i as bv32)
  {
  }

  lemma TableQuarter2(i: byte)
    ensures i >> 6 == 2 ==> ConstantTable(i) == ByteStep(i as bv32)
  {
  }

  lemma TableQuarter3(i: byte)
    ensures i >> 6 == 3 ==> ConstantTable(i) == ByteStep(i as bv32)
  {
  }

  /** Every entry written out in the source is the register after that one byte. */
  lemma ConstantTableCorrect(i: byte)
    ensures ConstantTable(i) == ByteStep(i as bv32)
  {
    hide ConstantTable, ByteStep;
    TableQuarter0(i);
    TableQuarter1(i);
    TableQuarter2(i);
    TableQuarter3(i);
  }

  // ----- One table lookup is eight steps -----

  lemma ByteStepOfHigh(w: bv32)
    requires w < 0x0100_0000
    ensures ByteStep(w << 8) == w
  {
  }

  lemma Split(x: bv32)
    ensures x == Add((x >> 8) << 8, x & 0xFF) && x >> 8 < 0x0100_0000
  {
  }

  lemma ByteStepJoin(x: bv32, shifted: bv32, high: bv32, low: bv32)
    requires x == Add(shifted, low) && ByteStep(shifted) == high
    ensures ByteStep(x) == Add(high, ByteStep(low))
  {
    hide *;
    ByteStepAdds(shifted, low);
  }

  lemma ByteStepSplit(x: bv32)
    ensures ByteStep(x) == Add(x >> 8, ByteStep(x & 0xFF))
  {
    hide *;
    Split(x);
    ByteStepOfHigh(x >> 8);
    ByteStepJoin(x, (x >> 8) << 8, x >> 8, x & 0xFF);
  }

  /** The table index both loops compute. */
  function Index(c: bv32, b: byte): byte {
    ((c ^ (b as bv32)) & 0xFF) as bv8
  }

  function HighBytes(c: bv32): bv32 { c >> 8 }

  /** The body of the byte-wise loop. */
  function TableStep(c: bv32, b: byte): bv32 {
    HighBytes(c) ^ ConstantTable(Index(c, b))
  }

  lemma TableStepAdds(c: bv32, b: byte)
    ensures TableStep(c, b) == Add(HighBytes(c), ConstantTable(Index(c, b)))
  {
  }

  lemma IndexByte(c: bv32, b: byte)
    ensures Index(c, b) as bv32 == (c ^ (b as bv32)) & 0xFF
    ensures (c ^ (b as bv32)) >> 8 == HighBytes(c)
  {
  }

  lemma UpdateIsByteStep(c: bv32, b: byte)
    ensures Update(c, b) == ByteStep(c ^ (b as bv32))
  {
  }

  lemma UpdateAdds(c: bv32, b: byte)
    ensures Update(c, b) == Add(HighBytes(c), ByteStep(Index(c, b) as bv32))
  {
    hide *;
    UpdateIsByteStep(c, b);
    ByteStepSplit(c ^ (b as bv32));
    IndexByte(c, b);
  }

  /** One lookup in the constant table does eight shifts at once. */
  lemma TableStepIsUpdate(c: bv32, b: byte)
    ensures TableStep(c, b) == Update(c, b)
  {
    hide *;
    TableStepAdds(c, b);
    UpdateAdds(c, b);
    ConstantTableCorrect(Index(c, b));
  }
}
