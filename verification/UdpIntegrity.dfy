/** What the two CRCs of a datagram guarantee together: a short burst of flipped bits in an
    accepted datagram is always noticed, unless it crosses an edge of the stored header CRC. */
module UdpIntegrity {
  import opened CrcSpec
  import opened LittleEndian
  import opened UdpPacket

  // ----- Bursts and slices -----

  lemma BitsSlice(d: seq<byte>, a: nat, b: nat)
    requires a <= b <= |d|
    ensures Bits(d[a..b]) == Bits(d)[8 * a..8 * b]
  {
    hide Bits;
    assert d == d[..a] + d[a..b] + d[b..];
    BitsConcat(d[..a] + d[a..b], d[b..]);
    BitsConcat(d[..a], d[a..b]);
  }

  function Clamp(k: int, lo: int, hi: int): (r: int)
    requires lo <= hi
    ensures lo <= r <= hi
  {
    if k < lo then lo else if k > hi then hi else k
  }

  lemma PrefixSlice<T>(x: seq<T>, y: seq<T>, i: nat, k: nat, l: nat)
    requires |x| == |y| && k <= l <= i <= |x| && x[..i] == y[..i]
    ensures x[k..l] == y[k..l]
  {
    assert x[k..l] == x[..i][k..l] && y[k..l] == y[..i][k..l];
  }

  lemma SuffixSlice<T>(x: seq<T>, y: seq<T>, j: nat, k: nat, l: nat)
    requires |x| == |y| && j <= k <= l <= |x| && x[j..] == y[j..]
    ensures x[k..l] == y[k..l]
  {
  }

  lemma SliceOfSlice<T>(x: seq<T>, a: nat, b: nat, k: nat)
    requires a <= k <= b <= |x|
    ensures x[a..b][..k - a] == x[a..k] && x[a..b][k - a..] == x[k..b]
  {
  }

  /** A slice in which two strings still differ still differs only in (a part of) the burst. */
  lemma SliceBurst(d: seq<byte>, e: seq<byte>, i: nat, j: nat, a: nat, b: nat)
    requires DifferInBurst(d, e, i, j) && a <= b <= |d| && d[a..b] != e[a..b]
    ensures DifferInBurst(d[a..b], e[a..b], Clamp(i, 8 * a, 8 * b) - 8 * a, Clamp(j, 8 * a, 8 * b) - 8 * a)
  {
    hide Bits;
    BitsSlice(d, a, b);
    BitsSlice(e, a, b);
    var k, l := Clamp(i, 8 * a, 8 * b), Clamp(j, 8 * a, 8 * b);
    var x, y := Bits(d), Bits(e);
    SliceOfSlice(x, 8 * a, 8 * b, k);
    SliceOfSlice(y, 8 * a, 8 * b, k);
    SliceOfSlice(x, 8 * a, 8 * b, l);
    SliceOfSlice(y, 8 * a, 8 * b, l);
    if k > 8 * a { PrefixSlice(x, y, i, 8 * a, k); }
    if l < 8 * b { SuffixSlice(x, y, j, l, 8 * b); }
  }

  /** Bytes none of whose bits lie in the burst are the same. */
  lemma OutsideBurst(d: seq<byte>, e: seq<byte>, i: nat, j: nat, a: nat, b: nat)
    requires DifferInBurst(d, e, i, j) && a <= b <= |d| && (8 * b <= i || j <= 8 * a)
    ensures d[a..b] == e[a..b]
  {
    if d[a..b] != e[a..b] {
      SliceBurst(d, e, i, j, a, b);
      var k := Clamp(i, 8 * a, 8 * b) - 8 * a;
      var x, y := Bits(d[a..b]), Bits(e[a..b]);
      assert k == 0 || k == 8 * b - 8 * a;
      assert x == x[..k] + x[k..] && y == y[..k] + y[k..];
      BitsDetermineData(d[a..b], e[a..b]);
    }
  }

  lemma PadBurst(pre: seq<byte>, x: seq<byte>, y: seq<byte>, post: seq<byte>, i: nat, j: nat)
    requires DifferInBurst(x, y, i, j)
    ensures DifferInBurst(pre + x + post, pre + y + post, 8 * |pre| + i, 8 * |pre| + j)
  {
    hide Bits;
    var p := 8 * |pre|;
    BitsConcat(pre + x, post);
    BitsConcat(pre + y, post);
    BitsConcat(pre, x);
    BitsConcat(pre, y);
    var u, v := Bits(pre + x + post), Bits(pre + y + post);
    assert u[..p + i] == Bits(pre) + Bits(x)[..i] && v[..p + i] == Bits(pre) + Bits(y)[..i];
    assert u[p + j..] == Bits(x)[j..] + Bits(post) && v[p + j..] == Bits(y)[j..] + Bits(post);
    assert x == (pre + x + post)[|pre|..|pre| + |x|] && y == (pre + y + post)[|pre|..|pre| + |y|];
  }

  // ----- The bytes each CRC covers -----

  /** The bytes the header CRC is taken over. */
  function Covered(d: seq<byte>): seq<byte>
    requires |d| >= HEADER_SIZE
  {
    d[..39] + EncodeWord(0) + d[43..47]
  }

  lemma OnlyCrcCleared(h: PacketHeader)
    ensures AddressBytes(h.(headerCrc := 0)) == AddressBytes(h)
    ensures FragmentBytes(h.(headerCrc := 0)) == FragmentBytes(h)
    ensures CheckBytes(h.(headerCrc := 0)) == EncodeWord(h.messageCrc) + EncodeWord(0) + EncodeWord(h.payloadCrc)
  {
    hide Encode, EncodeWord;
  }

  lemma CoveredBytes(d: seq<byte>)
    requires |d| >= HEADER_SIZE
    ensures HeaderBytes(ReadHeader(d).(headerCrc := 0)) == Covered(d)
  {
    hide Encode, EncodeWord, ReadHeader, AddressBytes, FragmentBytes, CheckBytes;
    var h := ReadHeader(d);
    AddressRead(d, h);
    FragmentRead(d, h);
    CheckRead(d, h);
    OnlyCrcCleared(h);
    CheckFields(h, d[35..47]);
    assert d[35..39] == EncodeWord(h.messageCrc) && d[43..47] == EncodeWord(h.payloadCrc);
    assert d[..39] == d[..19] + d[19..35] + d[35..39];
  }

  /** The checks an accepted datagram passed, in terms of its bytes. */
  lemma AcceptedChecks(d: seq<byte>)
    requires Parse(d).ok
    ensures |d| >= HEADER_SIZE + ReadHeader(d).payloadSize
    ensures Crc(Covered(d)) == DecodeWord(d[39..43])
    ensures var n := ReadHeader(d).payloadSize;
            n > 0 ==> Crc(d[HEADER_SIZE..HEADER_SIZE + n]) == ReadHeader(d).payloadCrc
  {
    hide Crc, HeaderBytes, Decode, DecodeWord;
    CoveredBytes(d);
  }

  /** Bursts that touch the covered header bytes change the header CRC. */
  lemma HeaderBurst(d: seq<byte>, e: seq<byte>, i: nat, j: nat)
    requires |d| >= HEADER_SIZE && DifferInBurst(d, e, i, j)
    requires j <= 8 * 39 || 8 * 43 <= i
    requires d[..39] != e[..39] || d[43..47] != e[43..47]
    ensures Crc(Covered(d)) != Crc(Covered(e))
  {
    hide Crc, Bits, EncodeWord;
    if j <= 8 * 39 {
      OutsideBurst(d, e, i, j, 43, 47);
      SliceBurst(d, e, i, j, 0, 39);
      var post := EncodeWord(0) + d[43..47];
      PadBurst([], d[0..39], e[0..39], post, Clamp(i, 0, 312), Clamp(j, 0, 312));
      assert Covered(d) == [] + d[0..39] + post && Covered(e) == [] + e[0..39] + post;
      BurstDetected(Covered(d), Covered(e), Clamp(i, 0, 312), Clamp(j, 0, 312));
    } else {
      OutsideBurst(d, e, i, j, 0, 39);
      SliceBurst(d, e, i, j, 43, 47);
      var pre := d[..39] + EncodeWord(0);
      PadBurst(pre, d[43..47], e[43..47], [], Clamp(i, 344, 376) - 344, Clamp(j, 344, 376) - 344);
      assert Covered(d) == pre + d[43..47] + [] && Covered(e) == pre + e[43..47] + [];
      BurstDetected(Covered(d), Covered(e), Clamp(i, 344, 376), Clamp(j, 344, 376));
    }
  }

  lemma WordsDiffer(x: seq<byte>, y: seq<byte>)
    requires |x| == |y| == 4 && DecodeWord(x) == DecodeWord(y)
    ensures x == y
  {
  }

  /** Accepted datagrams with the same covered bytes have the same header. */
  lemma SameHeader(d: seq<byte>, e: seq<byte>)
    requires Parse(d).ok && Parse(e).ok
    requires d[..39] == e[..39] && d[43..47] == e[43..47]
    ensures d[..47] == e[..47]
  {
    hide Crc, EncodeWord, HeaderBytes, ReadHeader, DecodeWord;
    AcceptedChecks(d);
    AcceptedChecks(e);
    WordsDiffer(d[39..43], e[39..43]);
    assert d[..47] == d[..39] + d[39..43] + d[43..47];
    assert e[..47] == e[..39] + e[39..43] + e[43..47];
  }

  lemma SameInThree(d: seq<byte>, e: seq<byte>, m: nat, n: nat)
    requires m <= n <= |d| == |e|
    requires d[..m] == e[..m] && d[m..n] == e[m..n] && d[n..|d|] == e[n..|e|]
    ensures d == e
  {
  }

  /** With the same header, the burst lies in the payload and changes its CRC. */
  lemma PayloadBurst(d: seq<byte>, e: seq<byte>, i: nat, j: nat, n: nat)
    requires 47 <= n <= |d| && DifferInBurst(d, e, i, j) && j <= 8 * n
    requires d[..47] == e[..47]
    ensures n > 47 && Crc(d[47..n]) != Crc(e[47..n])
  {
    hide Crc, Bits, Clamp;
    OutsideBurst(d, e, i, j, n, |d|);
    if d[47..n] == e[47..n] {
      SameInThree(d, e, 47, n);
    } else {
      SliceBurst(d, e, i, j, 47, n);
      BurstDetected(d[47..n], e[47..n], Clamp(i, 8 * 47, 8 * n) - 8 * 47, Clamp(j, 8 * 47, 8 * n) - 8 * 47);
    }
  }

  lemma SameRead(d: seq<byte>, e: seq<byte>)
    requires |d| >= HEADER_SIZE && |e| >= HEADER_SIZE && d[..47] == e[..47]
    ensures ReadHeader(d) == ReadHeader(e)
  {
    hide ReadHeader, HeaderBytes;
    HeaderBytesRead(d);
    HeaderBytesRead(e);
    ReadHeaderBytes(ReadHeader(d), []);
    ReadHeaderBytes(ReadHeader(e), []);
    assert d[..47] + [] == d[..47];
  }

  /** A burst across the upper edge leaves the payload alone and changes its stored CRC. */
  lemma StoredCrcBurst(d: seq<byte>, e: seq<byte>, i: nat, j: nat)
    requires Parse(d).ok && Parse(e).ok && DifferInBurst(d, e, i, j)
    requires 8 * 39 <= i < 8 * 43 && Parse(d).header.payloadSize > 0
    ensures d[43..47] == e[43..47]
  {
    hide Crc, Bits, Covered, Parse, ReadHeader, DecodeWord;
    AcceptedChecks(d);
    AcceptedChecks(e);
    AcceptedHeader(d);
    OutsideBurst(d, e, i, j, 0, 39);
    OutsideBurst(d, e, i, j, 47, |d|);
    SameSize(d, e);
    var n := ReadHeader(d).payloadSize;
    SameFront(d, e, 47, n);
    StoredPayloadCrc(d);
    StoredPayloadCrc(e);
    WordsDiffer(d[43..47], e[43..47]);
  }

  lemma AcceptedHeader(d: seq<byte>)
    requires Parse(d).ok
    ensures |d| >= HEADER_SIZE && Parse(d).header == ReadHeader(d)
  {
    hide ReadHeader, HeaderCrc, Crc;
  }

  lemma SameFront(d: seq<byte>, e: seq<byte>, a: nat, n: nat)
    requires |d| == |e| && a + n <= |d| && d[a..|d|] == e[a..|d|]
    ensures d[a..a + n] == e[a..a + n]
  {
    assert d[a..a + n] == d[a..|d|][..n] && e[a..a + n] == e[a..|d|][..n];
  }

  lemma StoredPayloadCrc(d: seq<byte>)
    requires |d| >= HEADER_SIZE
    ensures ReadHeader(d).payloadCrc == DecodeWord(d[43..47])
  {
    hide DecodeWord, Field;
  }

  lemma SameSize(d: seq<byte>, e: seq<byte>)
    requires |d| >= HEADER_SIZE && |e| >= HEADER_SIZE && d[0..39] == e[0..39]
    ensures ReadHeader(d).payloadSize == ReadHeader(e).payloadSize
  {
    assert d[27..31] == d[0..39][27..31] && e[27..31] == e[0..39][27..31];
  }

  /** A burst of at most 32 bits in the bytes an accepted datagram uses is always noticed unless it
      crosses into the header CRC from below, or out of it in a datagram without payload. */
  lemma CorruptionRejected(d: seq<byte>, e: seq<byte>, i: nat, j: nat)
    requires Parse(d).ok && DifferInBurst(d, e, i, j)
    requires j <= 8 * (HEADER_SIZE + Parse(d).header.payloadSize)
    requires i < 8 * 39 ==> j <= 8 * 39
    requires i < 8 * 43 < j ==> Parse(d).header.payloadSize > 0
    ensures !Parse(e).ok
  {
    hide Crc, Bits, EncodeWord, HeaderBytes, Decode, DecodeWord;
    if Parse(e).ok {
      AcceptedChecks(d);
      AcceptedChecks(e);
      if 8 * 39 <= i < 8 * 43 {
        OutsideBurst(d, e, i, j, 0, 39);
        if j <= 8 * 43 {
          OutsideBurst(d, e, i, j, 43, 47);
        } else {
          StoredCrcBurst(d, e, i, j);
        }
      }
      if d[..39] != e[..39] || d[43..47] != e[43..47] {
        OutsideBurst(d, e, i, j, 39, 43);
        HeaderBurst(d, e, i, j);
      } else {
        SameHeader(d, e);
        SameRead(d, e);
        PayloadBurst(d, e, i, j, HEADER_SIZE + ReadHeader(d).payloadSize);
      }
    }
  }
}
