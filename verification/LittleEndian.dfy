/** Packed little-endian integers, as a packed struct copied byte by byte holds them. */
module LittleEndian {
  import opened CrcSpec

  type u16 = x: int | 0 <= x < 0x1_0000
  type u32 = x: int | 0 <= x < 0x1_0000_0000
  type u64 = x: int | 0 <= x < 0x1_0000_0000_0000_0000

  /** The byte with the binary digits of n. */
  function ToByte(n: nat): (b: byte)
    requires n < 256
    ensures b as int == n
  {
    if n == 0 then
      0
    else
      var half := ToByte(n / 2);
      Doubling(half);
      if n % 2 == 0 then half << 1 else (half << 1) | 1
  }

  lemma Doubling(b: byte)
    requires b as int < 128
    ensures (b << 1) as int == 2 * (b as int)
    ensures ((b << 1) | 1) as int == 2 * (b as int) + 1
  {
  }

  function Value(b: byte): (r: nat)
    ensures r < 256 && ToByte(r) == b
  {
    ByteBack(b);
    SameByte(ToByte(b as int), b);
    b as nat
  }

  lemma ByteBack(b: byte)
    ensures 0 <= b as int < 256 && (b as int) as byte == b
  {
  }

  lemma SameByte(x: byte, y: byte)
    requires x as int == y as int
    ensures x == y
  {
  }

  lemma ByteValue(n: nat)
    requires n < 256
    ensures Value(ToByte(n)) == n
  {
  }

  function Pow256(k: nat): nat {
    if k == 0 then 1 else 256 * Pow256(k - 1)
  }

  /** The k low bytes of n, lowest first. */
  function Encode(n: nat, k: nat): (r: seq<byte>)
    ensures |r| == k
  {
    if k == 0 then [] else [ToByte(n % 256)] + Encode(n / 256, k - 1)
  }

  function Decode(s: seq<byte>): nat {
    if |s| == 0 then 0 else Value(s[0]) + 256 * Decode(s[1..])
  }

  lemma {:induction false} DecodeEncode(n: nat, k: nat)
    requires n < Pow256(k)
    ensures Decode(Encode(n, k)) == n
  {
    hide ToByte, Value;
    if k > 0 {
      ByteValue(n % 256);
      DecodeEncode(n / 256, k - 1);
      assert Encode(n, k)[1..] == Encode(n / 256, k - 1);
    }
  }

  lemma {:induction false} EncodeDecode(s: seq<byte>)
    ensures Encode(Decode(s), |s|) == s
    ensures Decode(s) < Pow256(|s|)
  {
    hide ToByte, Value;
    if |s| > 0 {
      EncodeDecode(s[1..]);
      assert Decode(s) % 256 == Value(s[0]) && Decode(s) / 256 == Decode(s[1..]);
      assert s == [s[0]] + s[1..];
    }
  }

  lemma Multiple(e: int, d: nat)
    ensures e >= 1 ==> e * d >= d
    ensures e <= -1 ==> e * d <= 0 - d
  {
  }

  lemma Quotient(n: nat, d: nat, q: nat, r: nat)
    requires n == q * d + r && r < d
    ensures n / d == q
  {
    assert n == n / d * d + n % d;
    assert (n / d - q) * d == r - n % d;
    Multiple(n / d - q, d);
  }

  lemma DivideTwice(n: nat, d: nat)
    requires d > 0
    ensures n / 256 / d == n / (256 * d)
  {
    var m, low := n / 256, n % 256;
    var q, r := m / d, m % d;
    assert m == q * d + r;
    Regroup(q, d, r, low);
    Quotient(n, 256 * d, q, 256 * r + low);
  }

  lemma Regroup(q: nat, d: nat, r: nat, low: nat)
    ensures 256 * (q * d + r) + low == q * (256 * d) + (256 * r + low)
  {
  }

  /** Byte i of a field is the digit of weight 256^i: the lowest byte comes first. */
  lemma {:induction false} DigitAt(n: nat, k: nat, i: nat)
    requires i < k
    ensures Pow256(i) > 0 && Value(Encode(n, k)[i]) == n / Pow256(i) % 256
  {
    hide ToByte, Value;
    ByteValue(n % 256);
    if i > 0 {
      DigitAt(n / 256, k - 1, i - 1);
      DivideTwice(n, Pow256(i - 1));
    }
  }

  /** The bytes, each with its weight. */
  function Weighted(s: seq<byte>): nat {
    if |s| == 0 then 0 else Weighted(s[..|s| - 1]) + Value(s[|s| - 1]) * Pow256(|s| - 1)
  }

  lemma WeightedLast(s: seq<byte>, b: byte)
    ensures Weighted(s + [b]) == Weighted(s) + Value(b) * Pow256(|s|)
  {
    hide Value, Pow256;
    assert (s + [b])[..|s|] == s;
  }

  lemma HeavierByOne(v: nat, k: nat)
    ensures v * Pow256(k + 1) == 256 * (v * Pow256(k))
  {
  }

  lemma {:induction false} WeightedFirst(b: byte, s: seq<byte>)
    ensures Weighted([b] + s) == Value(b) + 256 * Weighted(s)
  {
    if |s| == 0 {
      assert [b] + s == [] + [b];
      WeightedLast([], b);
    } else {
      hide Value, Pow256;
      var front, last := s[..|s| - 1], s[|s| - 1];
      WeightedFirst(b, front);
      WeightedLast([b] + front, last);
      WeightedLast(front, last);
      HeavierByOne(Value(last), |front|);
      assert s == front + [last] && [b] + s == [b] + front + [last];
    }
  }

  /** Reading a field adds its bytes up by their weights. */
  lemma {:induction false} DecodeIsWeighted(s: seq<byte>)
    ensures Decode(s) == Weighted(s)
  {
    hide Value;
    if |s| > 0 {
      DecodeIsWeighted(s[1..]);
      WeightedFirst(s[0], s[1..]);
      assert s == [s[0]] + s[1..];
    }
  }

  /** The number in a field of k bytes. */
  function Field(s: seq<byte>, k: nat): (r: nat)
    requires |s| == k
    ensures r < Pow256(k)
  {
    EncodeDecode(s);
    Decode(s)
  }

  function EncodeWord(w: bv32): (r: seq<byte>)
    ensures |r| == 4
  {
    [(w & 0xFF) as byte, ((w >> 8) & 0xFF) as byte, ((w >> 16) & 0xFF) as byte, ((w >> 24) & 0xFF) as byte]
  }

  function DecodeWord(s: seq<byte>): bv32
    requires |s| == 4
  {
    (s[0] as bv32) | ((s[1] as bv32) << 8) | ((s[2] as bv32) << 16) | ((s[3] as bv32) << 24)
  }

  lemma DecodeEncodeWord(w: bv32)
    ensures DecodeWord(EncodeWord(w)) == w
  {
  }

  lemma EncodeDecodeWord(s: seq<byte>)
    requires |s| == 4
    ensures EncodeWord(DecodeWord(s)) == s
  {
  }
}
