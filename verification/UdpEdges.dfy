/** Exactly which short damage an accepted datagram can take and still be accepted. Whether the
    header CRC notices depends on the flipped bits alone; at the edges of the stored header CRC a
    burst can change covered bytes and make up for it in the stored value. */
module UdpEdges {
  import opened CrcSpec
  import opened CrcTables
  import opened LittleEndian
  import opened UdpPacket
  import opened UdpIntegrity

  // ----- How a difference runs through the register -----

  function Flip(b: byte, k: byte): byte { b ^ k }

  function Flipped(data: seq<byte>, ks: seq<byte>): (r: seq<byte>)
    requires |data| == |ks|
    ensures |r| == |data| && forall i | 0 <= i < |r| :: r[i] == Flip(data[i], ks[i])
  {
    seq(|data|, i requires 0 <= i < |data| => Flip(data[i], ks[i]))
  }

  /** The bits in which two byte strings of one length differ. */
  function Flips(a: seq<byte>, b: seq<byte>): (r: seq<byte>)
    requires |a| == |b|
    ensures |r| == |a| && Flipped(a, r) == b
  {
    forall i | 0 <= i < |a| ensures Flip(a[i], Flip(a[i], b[i])) == b[i] {
      FlipTwice(a[i], b[i]);
    }
    Flipped(a, b)
  }

  lemma FlipTwice(b: byte, c: byte)
    ensures Flip(b, Flip(b, c)) == c
  {
  }

  /** What flipping these bits makes of the register, whatever the data. */
  function Difference(ks: seq<byte>): bv32 {
    if |ks| == 0 then 0 else ByteStep(Add(Difference(ks[..|ks| - 1]), ks[|ks| - 1] as bv32))
  }

  lemma FlipInRegister(c: bv32, d: bv32, b: byte, k: byte)
    ensures Add(c, d) ^ (Flip(b, k) as bv32) == Add(c ^ (b as bv32), Add(d, k as bv32))
  {
  }

  lemma UpdateFlipped(c: bv32, d: bv32, b: byte, k: byte)
    ensures Update(Add(c, d), Flip(b, k)) == Add(Update(c, b), ByteStep(Add(d, k as bv32)))
  {
    hide *;
    UpdateIsByteStep(Add(c, d), Flip(b, k));
    UpdateIsByteStep(c, b);
    FlipInRegister(c, d, b, k);
    ByteStepAdds(c ^ (b as bv32), Add(d, k as bv32));
  }

  lemma AddZero(c: bv32)
    ensures Add(c, 0) == c
  {
  }

  lemma {:induction false} DifferenceSpreads(x: seq<byte>, rest: seq<byte>, ks: seq<byte>)
    requires |rest| == |ks|
    ensures Register(x + Flipped(rest, ks)) == Add(Register(x + rest), Difference(ks))
    decreases |rest|
  {
    hide Register, Update, ByteStep, Add, Flip;
    var n := |rest| - 1;
    if n < 0 {
      AddZero(Register(x + rest));
      assert Flipped(rest, ks) == rest;
    } else {
      DifferenceSpreads(x, rest[..n], ks[..n]);
      assert x + rest == (x + rest[..n]) + [rest[n]];
      assert x + Flipped(rest, ks) == (x + Flipped(rest[..n], ks[..n])) + [Flip(rest[n], ks[n])];
      RegisterSnoc(x + rest[..n], rest[n]);
      RegisterSnoc(x + Flipped(rest[..n], ks[..n]), Flip(rest[n], ks[n]));
      UpdateFlipped(Register(x + rest[..n]), Difference(ks[..n]), rest[n], ks[n]);
    }
  }

  lemma CrcDiffers(x: seq<byte>, y: seq<byte>, d: bv32)
    requires Register(y) == Add(Register(x), d)
    ensures Crc(y) == Add(Crc(x), d)
  {
    hide Register;
  }

  lemma CrcAcross(x: seq<byte>, a: seq<byte>, b: seq<byte>)
    requires |a| == |b|
    ensures Crc(x + b) == Add(Crc(x + a), Difference(Flips(a, b)))
  {
    hide Register, Crc, Difference, Add, Flip, Flipped;
    DifferenceSpreads(x, a, Flips(a, b));
    CrcDiffers(x + a, x + b, Difference(Flips(a, b)));
  }

  // ----- When a damaged header still checks -----

  const NOTHING: seq<byte> := [0, 0, 0, 0]

  /** The change of the stored header CRC. */
  function StoredChange(d: seq<byte>, e: seq<byte>): bv32
    requires |d| == |e| >= HEADER_SIZE
  {
    DecodeWord(Flips(d[39..43], e[39..43]))
  }

  /** Flipped bits below the stored header CRC that their change of it makes up for. */
  ghost predicate MadeUpBelow(d: seq<byte>, e: seq<byte>)
    requires |d| == |e| >= HEADER_SIZE
  {
    StoredChange(d, e) == Difference(Flips(d[35..39], e[35..39]) + NOTHING + NOTHING)
  }

  /** The same for flipped bits above it. */
  ghost predicate MadeUpAbove(d: seq<byte>, e: seq<byte>)
    requires |d| == |e| >= HEADER_SIZE
  {
    StoredChange(d, e) == Difference(Flips(d[43..47], e[43..47]))
  }

  lemma WordChange(a: seq<byte>, b: seq<byte>)
    requires |a| == |b| == 4
    ensures DecodeWord(b) == Add(DecodeWord(a), DecodeWord(Flips(a, b)))
  {
    hide *;
    var ks := Flips(a, b);
    WordOfFlips(a[0], a[1], a[2], a[3], ks[0], ks[1], ks[2], ks[3]);
    DecodeIs(a);
    DecodeIs(b);
    DecodeIs(ks);
    assert b == Flipped(a, ks);
  }

  lemma DecodeIs(s: seq<byte>)
    requires |s| == 4
    ensures DecodeWord(s) == WordOf(s[0], s[1], s[2], s[3])
  {
  }

  function WordOf(a: byte, b: byte, c: byte, d: byte): bv32 {
    (a as bv32) | ((b as bv32) << 8) | ((c as bv32) << 16) | ((d as bv32) << 24)
  }

  lemma WordOfFlips(a: byte, b: byte, c: byte, d: byte, k: byte, l: byte, m: byte, n: byte)
    ensures WordOf(Flip(a, k), Flip(b, l), Flip(c, m), Flip(d, n)) == Add(WordOf(a, b, c, d), WordOf(k, l, m, n))
  {
  }

  lemma AddIs(x: bv32, y: bv32, z: bv32)
    ensures Add(x, y) == Add(x, z) <==> y == z
  {
  }

  lemma FlipsNone(a: seq<byte>)
    ensures Flips(a, a) == seq(|a|, _ => 0)
  {
    forall b: byte ensures Flip(b, b) == 0 { FlipSame(b); }
    hide Flip;
  }

  lemma FlipSame(b: byte)
    ensures Flip(b, b) == 0
  {
  }

  lemma FlipsConcat(a: seq<byte>, b: seq<byte>, c: seq<byte>, d: seq<byte>)
    requires |a| == |b| && |c| == |d|
    ensures Flips(a + c, b + d) == Flips(a, b) + Flips(c, d)
  {
    hide Flip;
  }

  lemma BelowChecks(d: seq<byte>, e: seq<byte>)
    requires |d| == |e| >= HEADER_SIZE && d[..35] == e[..35] && d[43..47] == e[43..47]
    requires Crc(Covered(d)) == DecodeWord(d[39..43])
    ensures Crc(Covered(e)) == DecodeWord(e[39..43]) <==> MadeUpBelow(d, e)
  {
    hide Crc, Flips, EncodeWord, DecodeWord, Difference, Add;
    var x, a, b, rest := d[..35], d[35..39], e[35..39], EncodeWord(0) + d[43..47];
    assert Covered(d) == x + (a + rest) && Covered(e) == x + (b + rest);
    CrcAcross(x, a + rest, b + rest);
    FlipsConcat(a, b, rest, rest);
    FlipsNone(rest);
    assert Flips(a, b) + Flips(rest, rest) == Flips(a, b) + NOTHING + NOTHING;
    WordChange(d[39..43], e[39..43]);
    AddIs(DecodeWord(d[39..43]), StoredChange(d, e), Difference(Flips(a, b) + NOTHING + NOTHING));
  }

  lemma AboveChecks(d: seq<byte>, e: seq<byte>)
    requires |d| == |e| >= HEADER_SIZE && d[..39] == e[..39]
    requires Crc(Covered(d)) == DecodeWord(d[39..43])
    ensures Crc(Covered(e)) == DecodeWord(e[39..43]) <==> MadeUpAbove(d, e)
  {
    hide Crc, Flips, EncodeWord, DecodeWord, Difference, Add;
    CrcAcross(d[..39] + EncodeWord(0), d[43..47], e[43..47]);
    WordChange(d[39..43], e[39..43]);
    AddIs(DecodeWord(d[39..43]), StoredChange(d, e), Difference(Flips(d[43..47], e[43..47])));
  }

  /** Damage that leaves the tested fields and the payload alone is accepted if the header checks. */
  lemma AcceptedIfChecks(d: seq<byte>, e: seq<byte>)
    requires Parse(d).ok && |e| == |d| && e[..35] == d[..35] && e[47..] == d[47..]
    requires Parse(d).header.payloadSize > 0 ==> e[43..47] == d[43..47]
    ensures Parse(e).ok <==> Crc(Covered(e)) == DecodeWord(e[39..43])
  {
    hide Crc, HeaderBytes, Decode, DecodeWord, Covered;
    CoveredBytes(e);
    SameTestedFields(d, e);
    var n := ReadHeader(d).payloadSize;
    assert e[47..47 + n] == e[47..][..n] && d[47..47 + n] == d[47..][..n];
  }

  lemma SameTestedFields(d: seq<byte>, e: seq<byte>)
    requires |d| == |e| >= HEADER_SIZE && e[..35] == d[..35]
    ensures var (h, g) := (ReadHeader(d), ReadHeader(e));
            g == h.(messageCrc := g.messageCrc, headerCrc := g.headerCrc, payloadCrc := g.payloadCrc)
    ensures e[43..47] == d[43..47] ==> ReadHeader(e).payloadCrc == ReadHeader(d).payloadCrc
  {
    hide Decode, DecodeWord;
    forall a: nat, b: nat | a <= b <= 35 ensures d[a..b] == e[a..b] {
      PrefixSlice(d, e, 35, a, b);
    }
    assert d[6] == d[..35][6] && e[6] == e[..35][6];
  }

  // ----- The whole answer -----

  lemma LowerEdge(d: seq<byte>, e: seq<byte>, i: nat, j: nat)
    requires Parse(d).ok && DifferInBurst(d, e, i, j) && i < 8 * 39 < j
    ensures |d| == |e| >= HEADER_SIZE && (Parse(e).ok <==> MadeUpBelow(d, e))
  {
    hide Bits, Parse, Crc, Covered, DecodeWord, MadeUpBelow;
    AcceptedLength(d);
    OutsideBurst(d, e, i, j, 0, 35);
    OutsideBurst(d, e, i, j, 43, 47);
    OutsideBurst(d, e, i, j, 47, |d|);
    AcceptedChecks(d);
    AcceptedIfChecks(d, e);
    BelowChecks(d, e);
  }

  lemma UpperEdge(d: seq<byte>, e: seq<byte>, i: nat, j: nat)
    requires Parse(d).ok && DifferInBurst(d, e, i, j) && 8 * 39 <= i < 8 * 43 < j
    requires Parse(d).header.payloadSize == 0
    ensures |d| == |e| >= HEADER_SIZE && (Parse(e).ok <==> MadeUpAbove(d, e))
  {
    hide Bits, Parse, Crc, Covered, DecodeWord, MadeUpAbove;
    AcceptedLength(d);
    OutsideBurst(d, e, i, j, 0, 39);
    OutsideBurst(d, e, i, j, 47, |d|);
    AcceptedChecks(d);
    assert d[..35] == d[0..39][..35] && e[..35] == e[0..39][..35];
    AcceptedIfChecks(d, e);
    AboveChecks(d, e);
  }

  lemma AcceptedLength(d: seq<byte>)
    requires Parse(d).ok
    ensures |d| >= HEADER_SIZE
  {
  }

  /** The burst crosses into the stored header CRC from below, or out of it in a datagram without
      payload, and its change of the stored value makes up for the covered bits it flips. */
  ghost predicate MakesUp(d: seq<byte>, e: seq<byte>, i: nat, j: nat, payloadSize: nat)
    requires |d| == |e| >= HEADER_SIZE
  {
    || (i < 8 * 39 < j && MadeUpBelow(d, e))
    || (8 * 39 <= i < 8 * 43 < j && payloadSize == 0 && MadeUpAbove(d, e))
  }

  /** An accepted datagram hit by a burst of at most 32 bits in the bytes it uses is accepted again
      exactly when the burst makes up for itself, which its flipped bits alone decide. */
  lemma BurstAcceptedIff(d: seq<byte>, e: seq<byte>, i: nat, j: nat)
    requires Parse(d).ok && DifferInBurst(d, e, i, j)
    requires j <= 8 * (HEADER_SIZE + Parse(d).header.payloadSize)
    ensures |d| == |e| >= HEADER_SIZE
    ensures Parse(e).ok <==> MakesUp(d, e, i, j, Parse(d).header.payloadSize)
  {
    hide Bits, Parse, MadeUpBelow, MadeUpAbove;
    AcceptedLength(d);
    if i < 8 * 39 < j {
      LowerEdge(d, e, i, j);
    } else if 8 * 39 <= i < 8 * 43 < j && Parse(d).header.payloadSize == 0 {
      UpperEdge(d, e, i, j);
    } else {
      CorruptionRejected(d, e, i, j);
    }
  }

  // ----- Both kinds occur -----

  const LOWER: seq<byte> := [0, 0, 0, 0xC8]
  const UPPER: seq<byte> := [0xD7, 0x1A, 0x06, 0]

  lemma ByteSteps()
    ensures ByteStep(0) == 0 && ByteStep(0xC8) == 0x95BF_4A82 && ByteStep(0x95BF_4A82) == 0x0323_5D46
    ensures ByteStep(0x0323_5D46) == 0x9FBC_C7F8 && ByteStep(0x9FBC_C7F8) == 0xB3F9_C6E9
    ensures ByteStep(0xB3F9_C6E9) == 0xD965_A31A && ByteStep(0xD965_A31A) == 0xFDBB_9CD9
    ensures ByteStep(0xFDBB_9CD9) == 0xFFF2_D1EC && ByteStep(0xFFF2_D1EC) == 0xA943_5C82
    ensures ByteStep(0xA943_5C82) == 0x031F_A150
    ensures ByteStep(0xD7) == 0x18B7_4777 && ByteStep(0x18B7_4777 ^ 0x1A) == 0x331B_AAA2
    ensures ByteStep(0x331B_AAA2 ^ 0x06) == 0xD188_7C5B && ByteStep(0xD188_7C5B) == 0xFC68_0000
  {
  }

  lemma OneMoreStep(ks: seq<byte>, k: byte, d: bv32, e: bv32)
    requires Difference(ks) == d && ByteStep(Add(d, k as bv32)) == e
    ensures Difference(ks + [k]) == e
  {
    assert (ks + [k])[..|ks|] == ks;
  }

  lemma LowerDifference()
    ensures Difference(LOWER + NOTHING + NOTHING) == 0x031F_A150
  {
    ByteSteps();
    assert Difference([]) == 0;
    AddZero(0);
    hide ByteStep, Difference;
    var k: seq<byte> := [];
    OneMoreStep(k, 0, 0, 0);
    k := k + [0];
    OneMoreStep(k, 0, 0, 0);
    k := k + [0];
    OneMoreStep(k, 0, 0, 0);
    k := k + [0];
    OneMoreStep(k, 0xC8, 0, 0x95BF_4A82);
    k := k + [0xC8];
    OneMoreStep(k, 0, 0x95BF_4A82, 0x0323_5D46);
    k := k + [0];
    OneMoreStep(k, 0, 0x0323_5D46, 0x9FBC_C7F8);
    k := k + [0];
    OneMoreStep(k, 0, 0x9FBC_C7F8, 0xB3F9_C6E9);
    k := k + [0];
    OneMoreStep(k, 0, 0xB3F9_C6E9, 0xD965_A31A);
    k := k + [0];
    OneMoreStep(k, 0, 0xD965_A31A, 0xFDBB_9CD9);
    k := k + [0];
    OneMoreStep(k, 0, 0xFDBB_9CD9, 0xFFF2_D1EC);
    k := k + [0];
    OneMoreStep(k, 0, 0xFFF2_D1EC, 0xA943_5C82);
    k := k + [0];
    OneMoreStep(k, 0, 0xA943_5C82, 0x031F_A150);
    assert k + [0] == LOWER + NOTHING + NOTHING;
  }

  lemma UpperDifference()
    ensures Difference(UPPER) == 0xFC68_0000
  {
    ByteSteps();
    assert Difference([]) == 0;
    hide ByteStep, Difference;
    var k: seq<byte> := [];
    OneMoreStep(k, 0xD7, 0, 0x18B7_4777);
    k := k + [0xD7];
    OneMoreStep(k, 0x1A, 0x18B7_4777, 0x331B_AAA2);
    k := k + [0x1A];
    OneMoreStep(k, 0x06, 0x331B_AAA2, 0xD188_7C5B);
    k := k + [0x06];
    OneMoreStep(k, 0, 0xD188_7C5B, 0xFC68_0000);
    assert k + [0] == UPPER;
  }

  lemma LowBitsKept(b: byte)
    ensures LowBits(b as bv32, 8)[..3] == LowBits(Flip(b, 0xC8) as bv32, 8)[..3]
    ensures LowBits(b as bv32, 8)[..3] == LowBits(Flip(b, 0x68) as bv32, 8)[..3]
  {
    hide LowBits, Low, Tail, Flip;
    ThreeAlike(b, 0xC8);
    ThreeAlike(b, 0x68);
    ThreeLow(b as bv32);
    ThreeLow(Flip(b, 0xC8) as bv32);
    ThreeLow(Flip(b, 0x68) as bv32);
  }

  lemma ThreeAlike(b: byte, k: byte)
    requires k == 0xC8 || k == 0x68
    ensures var (v, w) := (b as bv32, Flip(b, k) as bv32);
            Low(v) == Low(w) && Low(Tail(v)) == Low(Tail(w)) && Low(Tail(Tail(v))) == Low(Tail(Tail(w)))
  {
  }

  lemma ThreeLow(w: bv32)
    ensures LowBits(w, 8)[..3] == [Low(w), Low(Tail(w)), Low(Tail(Tail(w)))]
    ensures LowBits(w, 8)[2..] == LowBits(Tail(Tail(w)), 6) && LowBits(w, 8)[3..] == LowBits(Tail(Tail(Tail(w))), 5)
  {
    hide *;
    LowFirst(w, 8);
    LowFirst(Tail(w), 7);
    LowFirst(Tail(Tail(w)), 6);
  }

  lemma LowFirst(w: bv32, n: nat)
    requires n > 0
    ensures LowBits(w, n) == [Low(w)] + LowBits(Tail(w), n - 1)
  {
  }

  lemma TailsAlike(b: byte)
    ensures Tail(Tail(b as bv32)) == Tail(Tail(Flip(b, 0x03) as bv32))
    ensures Tail(Tail(Tail(b as bv32))) == Tail(Tail(Tail(Flip(b, 0x06) as bv32)))
  {
  }

  lemma HighBitsKept(b: byte)
    ensures LowBits(b as bv32, 8)[2..] == LowBits(Flip(b, 0x03) as bv32, 8)[2..]
    ensures LowBits(b as bv32, 8)[3..] == LowBits(Flip(b, 0x06) as bv32, 8)[3..]
  {
    hide LowBits, Low, Tail, Flip;
    TailsAlike(b);
    ThreeLow(b as bv32);
    ThreeLow(Flip(b, 0x03) as bv32);
    ThreeLow(Flip(b, 0x06) as bv32);
  }

  lemma BitsAround(p: seq<byte>, b: byte, m: seq<byte>, c: byte, t: seq<byte>)
    ensures Bits(p + [b] + m + [c] + t)
         == Bits(p) + LowBits(b as bv32, 8) + Bits(m) + LowBits(c as bv32, 8) + Bits(t)
  {
    hide Bits, LowBits;
    BitsConcat(p + [b] + m + [c], t);
    BitsConcat(p + [b] + m, [c]);
    BitsConcat(p + [b], m);
    BitsConcat(p, [b]);
    OneByte(b);
    OneByte(c);
  }

  lemma OneByte(b: byte)
    ensures Bits([b]) == LowBits(b as bv32, 8)
  {
    hide LowBits;
    assert [b][..0] == [];
  }

  lemma BurstBetween(p: seq<byte>, b: byte, b': byte, m: seq<byte>, m': seq<byte>, c: byte, c': byte, t: seq<byte>,
                     i: nat, j: nat)
    requires |m| == |m'| && i <= 8 && j <= 8 && b != b'
    requires LowBits(b as bv32, 8)[..i] == LowBits(b' as bv32, 8)[..i]
    requires LowBits(c as bv32, 8)[j..] == LowBits(c' as bv32, 8)[j..]
    requires 8 * |m| + 8 + j - i <= 32
    ensures DifferInBurst(p + [b] + m + [c] + t, p + [b'] + m' + [c'] + t,
                          8 * |p| + i, 8 * (|p| + 1 + |m|) + j)
  {
    hide Bits, LowBits;
    EndsAlike(Bits(p), LowBits(b as bv32, 8), LowBits(b' as bv32, 8), Bits(m), Bits(m'),
              LowBits(c as bv32, 8), LowBits(c' as bv32, 8), Bits(t), i, j);
    BitsAround(p, b, m, c, t);
    BitsAround(p, b', m', c', t);
    var d, e := p + [b] + m + [c] + t, p + [b'] + m' + [c'] + t;
    assert d[|p|] == b && e[|p|] == b';
  }

  lemma EndsAlike<T>(p: seq<T>, b: seq<T>, b': seq<T>, m: seq<T>, m': seq<T>, c: seq<T>, c': seq<T>, t: seq<T>,
                     i: nat, j: nat)
    requires |b| == |b'| && |c| == |c'| && |m| == |m'| && i <= |b| && j <= |c|
    requires b[..i] == b'[..i] && c[j..] == c'[j..]
    ensures var (d, e) := (p + b + m + c + t, p + b' + m' + c' + t);
            d[..|p| + i] == e[..|p| + i] && d[|p| + |b| + |m| + j..] == e[|p| + |b| + |m| + j..]
  {
    var d, e := p + b + m + c + t, p + b' + m' + c' + t;
    assert d[..|p| + i] == p + b[..i] && e[..|p| + i] == p + b'[..i];
    var n := |p| + |b| + |m| + j;
    assert d[n..] == c[j..] + t && e[n..] == c'[j..] + t;
  }

  lemma LowerBurst(x: seq<byte>, a: seq<byte>, b: seq<byte>, c: seq<byte>, f: seq<byte>, rest: seq<byte>)
    requires |x| == 35 && |a| == |b| == |c| == |f| == 4
    requires a[..3] == b[..3] && b[3] == Flip(a[3], 0xC8) && b[3] != a[3] && f[3] == Flip(c[3], 0x03)
    ensures DifferInBurst(x + a + c + rest, x + b + f + rest, 8 * 38 + 3, 8 * 42 + 2)
  {
    hide *;
    LowBitsKept(a[3]);
    HighBitsKept(c[3]);
    BurstBetween(x + a[..3], a[3], b[3], c[..3], f[..3], c[3], f[3], rest, 3, 2);
    assert x + a + c + rest == x + a[..3] + [a[3]] + c[..3] + [c[3]] + rest;
    assert x + b + f + rest == x + a[..3] + [b[3]] + f[..3] + [f[3]] + rest;
  }

  lemma UpperBurst(x: seq<byte>, a: seq<byte>, b: seq<byte>, c: seq<byte>, f: seq<byte>, rest: seq<byte>)
    requires |x| == 39 && |a| == |b| == |c| == |f| == 4
    requires a[..2] == b[..2] && b[2] == Flip(a[2], 0x68) && b[2] != a[2] && f[2] == Flip(c[2], 0x06) && f[3] == c[3]
    ensures DifferInBurst(x + a + c + rest, x + b + f + rest, 8 * 41 + 3, 8 * 45 + 3)
  {
    hide *;
    LowBitsKept(a[2]);
    HighBitsKept(c[2]);
    BurstBetween(x + a[..2], a[2], b[2], [a[3]] + c[..2], [b[3]] + f[..2], c[2], f[2], [c[3]] + rest, 3, 3);
    assert x + a + c + rest == x + a[..2] + [a[2]] + ([a[3]] + c[..2]) + [c[2]] + ([c[3]] + rest);
    assert x + b + f + rest == x + a[..2] + [b[2]] + ([b[3]] + f[..2]) + [f[2]] + ([c[3]] + rest);
  }


  /** Every accepted datagram has damage of 31 consecutive bits, across the lower edge of the
      stored header CRC, that is accepted. */
  lemma LowerEdgePasses(d: seq<byte>)
    requires Parse(d).ok
    ensures exists e :: DifferInBurst(d, e, 8 * 38 + 3, 8 * 42 + 2) && Parse(e).ok
  {
    hide Parse, Flip, Flips, MadeUpBelow, DifferInBurst;
    AcceptedLength(d);
    var b, f := Flipped(d[35..39], LOWER), Flipped(d[39..43], [0x50, 0xA1, 0x1F, 0x03]);
    var e := d[..35] + b + f + d[43..];
    FlipsOf(d[35..39], LOWER);
    FlipsOf(d[39..43], [0x50, 0xA1, 0x1F, 0x03]);
    forall x: byte ensures Flip(x, 0) == x { FlipNothing(x); }
    FlipSome(d[38]);
    LowerBurst(d[..35], d[35..39], b, d[39..43], f, d[43..]);
    assert d == d[..35] + d[35..39] + d[39..43] + d[43..];
    assert e[35..39] == b && e[39..43] == f;
    LowerMadeUp(d, e);
    LowerEdge(d, e, 8 * 38 + 3, 8 * 42 + 2);
  }

  lemma LowerMadeUp(d: seq<byte>, e: seq<byte>)
    requires |d| == |e| >= HEADER_SIZE
    requires Flips(d[35..39], e[35..39]) == LOWER && Flips(d[39..43], e[39..43]) == [0x50, 0xA1, 0x1F, 0x03]
    ensures MadeUpBelow(d, e)
  {
    LowerDifference();
    LowerWord();
    hide Difference, DecodeWord, Flips;
  }

  lemma UpperMadeUp(d: seq<byte>, e: seq<byte>)
    requires |d| == |e| >= HEADER_SIZE
    requires Flips(d[43..47], e[43..47]) == UPPER && Flips(d[39..43], e[39..43]) == [0, 0, 0x68, 0xFC]
    ensures MadeUpAbove(d, e)
  {
    UpperDifference();
    UpperWord();
    hide Difference, DecodeWord, Flips;
  }

  lemma LowerWord()
    ensures DecodeWord([0x50, 0xA1, 0x1F, 0x03]) == 0x031F_A150
  {
  }

  lemma UpperWord()
    ensures DecodeWord([0, 0, 0x68, 0xFC]) == 0xFC68_0000
  {
  }

  lemma FlipNothing(b: byte)
    ensures Flip(b, 0) == b
  {
  }

  lemma FlipSome(b: byte)
    ensures Flip(b, 0xC8) != b && Flip(b, 0x68) != b
  {
  }

  lemma FlipsOf(a: seq<byte>, ks: seq<byte>)
    requires |a| == |ks|
    ensures Flips(a, Flipped(a, ks)) == ks
  {
    forall i | 0 <= i < |a| ensures Flip(a[i], Flip(a[i], ks[i])) == ks[i] { FlipTwice(a[i], ks[i]); }
    hide Flip;
  }

  /** And every one without payload has some across the upper edge. */
  lemma UpperEdgePasses(d: seq<byte>)
    requires Parse(d).ok && Parse(d).header.payloadSize == 0
    ensures exists e :: DifferInBurst(d, e, 8 * 41 + 3, 8 * 45 + 3) && Parse(e).ok
  {
    hide Parse, Flip, Flips, MadeUpAbove, DifferInBurst;
    AcceptedLength(d);
    var b, f := Flipped(d[39..43], [0, 0, 0x68, 0xFC]), Flipped(d[43..47], UPPER);
    var e := d[..39] + b + f + d[47..];
    FlipsOf(d[39..43], [0, 0, 0x68, 0xFC]);
    FlipsOf(d[43..47], UPPER);
    forall x: byte ensures Flip(x, 0) == x { FlipNothing(x); }
    FlipSome(d[41]);
    UpperBurst(d[..39], d[39..43], b, d[43..47], f, d[47..]);
    assert d == d[..39] + d[39..43] + d[43..47] + d[47..];
    assert e[39..43] == b && e[43..47] == f;
    UpperMadeUp(d, e);
    UpperEdge(d, e, 8 * 41 + 3, 8 * 45 + 3);
  }
}
