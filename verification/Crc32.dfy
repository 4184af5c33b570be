/** CRC-32 as section 8 of RFC 1952 defines it: the message is read bit by bit, least significant
    bit of each byte first, through a 32-bit register that starts and ends complemented.
    The rest of the project refers to CRC-32 through the function Crc of this module. */
module CrcSpec {
  import opened ShiftRegister

  type byte = bv8

  /** One shift of the register; the constant is the CRC-32 polynomial, reflected. */
  function Shift(c: bv32): bv32 {
    if c & 1 == 1 then 0xEDB8_8320 ^ (c >> 1) else c >> 1
  }

  function Feed(c: bv32, b: bool): bv32 {
    Shift(c ^ (if b then 1 else 0))
  }

  predicate Low(w: bv32) { w & 1 == 1 }

  function Tail(w: bv32): bv32 { w >> 1 }

  /** The n low bits of a word, lowest first. */
  function LowBits(w: bv32, n: nat): (r: seq<bool>)
    ensures |r| == n
    decreases n
  {
    if n == 0 then [] else [Low(w)] + LowBits(Tail(w), n - 1)
  }

  function Bits(data: seq<byte>): (r: seq<bool>)
    ensures |r| == 8 * |data|
  {
    if |data| == 0 then [] else Bits(data[..|data| - 1]) + LowBits(data[|data| - 1] as bv32, 8)
  }

  /** The register after the data, before the closing complement. */
  function Register(data: seq<byte>): bv32 {
    Run(Feed, 0xFFFF_FFFF, Bits(data))
  }

  function Crc(data: seq<byte>): bv32 {
    Register(data) ^ 0xFFFF_FFFF
  }

  // ----- What one step does to the word in the register -----

  function Add(x: bv32, y: bv32): bv32 { x ^ y }

  lemma XorCancels(x: bv32, y: bv32, k: bv32)
    requires x ^ k == y ^ k
    ensures x == y
  {
  }

  lemma ShiftCancels(x: bv32, y: bv32)
    requires Shift(x) == Shift(y)
    ensures x == y
  {
  }

  /** The polynomial has its top bit set, so a shift loses nothing. */
  lemma ShiftInjective()
    ensures Injective(Shift)
  {
    forall x, y {:trigger Shift(x), Shift(y)} | Shift(x) == Shift(y) ensures x == y {
      ShiftCancels(x, y);
    }
  }

  lemma FeedCancels(x: bv32, y: bv32, b: bool)
    requires Feed(x, b) == Feed(y, b)
    ensures x == y
  {
  }

  lemma FeedInjective()
    ensures StepInjective(Feed)
  {
    forall x, y, b {:trigger Feed(x, b), Feed(y, b)} | Feed(x, b) == Feed(y, b) ensures x == y {
      FeedCancels(x, y, b);
    }
  }

  lemma OddOntoOdd(c: bv32, w: bv32)
    requires w & 1 == 1 && c & 1 == 1
    ensures Shift(c ^ w) == Shift(c ^ 1) ^ (w >> 1)
  {
  }

  lemma OddOntoEven(c: bv32, w: bv32)
    requires w & 1 == 1 && c & 1 == 0
    ensures Shift(c ^ w) == Shift(c ^ 1) ^ (w >> 1)
  {
  }

  lemma EvenOntoOdd(c: bv32, w: bv32)
    requires w & 1 == 0 && c & 1 == 1
    ensures Shift(c ^ w) == Shift(c) ^ (w >> 1)
  {
  }

  lemma EvenOntoEven(c: bv32, w: bv32)
    requires w & 1 == 0 && c & 1 == 0
    ensures Shift(c ^ w) == Shift(c) ^ (w >> 1)
  {
  }

  lemma LowBitIs(w: bv32)
    ensures w & 1 == 0 || w & 1 == 1
  {
  }

  lemma ShiftOddWord(c: bv32, w: bv32)
    requires w & 1 == 1
    ensures Shift(c ^ w) == Shift(c ^ 1) ^ (w >> 1)
  {
    hide Shift;
    LowBitIs(c);
    if c & 1 == 1 { OddOntoOdd(c, w); } else { OddOntoEven(c, w); }
  }

  lemma ShiftEvenWord(c: bv32, w: bv32)
    requires w & 1 == 0
    ensures Shift(c ^ w) == Shift(c) ^ (w >> 1)
  {
    hide Shift;
    LowBitIs(c);
    if c & 1 == 1 { EvenOntoOdd(c, w); } else { EvenOntoEven(c, w); }
  }

  lemma FlipOdd(c: bv32)
    requires c & 1 == 1
    ensures Shift(c ^ 1) == Shift(c) ^ 0xEDB8_8320
  {
  }

  lemma FlipEven(c: bv32)
    requires c & 1 == 0
    ensures Shift(c ^ 1) == Shift(c) ^ 0xEDB8_8320
  {
  }

  lemma ShiftFlippedLow(c: bv32)
    ensures Shift(c ^ 1) == Shift(c) ^ 0xEDB8_8320
  {
    hide Shift;
    LowBitIs(c);
    if c & 1 == 1 { FlipOdd(c); } else { FlipEven(c); }
  }

  /** Only the lowest bit of a word added to the register takes part in the next step;
      the others are still waiting, one position lower. */
  lemma ShiftDefersHighBits(c: bv32, w: bv32)
    ensures Shift(c ^ w) == Feed(c, w & 1 == 1) ^ (w >> 1)
  {
    if w & 1 == 1 {
      ShiftOddWord(c, w);
    } else {
      ShiftEvenWord(c, w);
      assert c ^ 0 == c;
    }
  }

  lemma ShiftLinear(x: bv32, y: bv32)
    ensures Shift(x ^ y) == Shift(x) ^ Shift(y)
  {
    if y & 1 == 1 {
      ShiftOddWord(x, y);
      ShiftFlippedLow(x);
    } else {
      ShiftEvenWord(x, y);
    }
  }

  lemma ShiftAddsUp()
    ensures forall x, y :: Shift(Add(x, y)) == Add(Shift(x), Shift(y))
  {
    forall x, y ensures Shift(Add(x, y)) == Add(Shift(x), Shift(y)) {
      ShiftLinear(x, y);
    }
  }

  lemma ShiftDefersWord(c: bv32, w: bv32)
    ensures Shift(Add(c, w)) == Add(Feed(c, Low(w)), Tail(w))
  {
    hide Shift, Feed;
    ShiftDefersHighBits(c, w);
  }

  lemma ShiftDefers()
    ensures forall a, b :: Shift(Add(a, b)) == Add(Feed(a, Low(b)), Tail(b))
  {
    hide *;
    forall a, b ensures Shift(Add(a, b)) == Add(Feed(a, Low(b)), Tail(b)) {
      ShiftDefersWord(a, b);
    }
  }

  lemma {:induction false} LowBitsSpelled(w: bv32, n: nat)
    ensures Spells(Low, Tail, w, LowBits(w, n))
    decreases n
  {
    hide Low, Tail;
    if n > 0 {
      LowBitsSpelled(Tail(w), n - 1);
      assert LowBits(w, n)[1..] == LowBits(Tail(w), n - 1);
    }
  }

  /** Feeding the n low bits of a word one at a time is adding the word at once, then shifting
      n times; bits above the n low ones come out shifted down. */
  lemma FeedIsShift(c: bv32, w: bv32, n: nat)
    ensures Iterate(Shift, Add(c, w), n) == Add(Run(Feed, c, LowBits(w, n)), Iterate(Tail, w, n))
  {
    hide *;
    ShiftDefers();
    LowBitsSpelled(w, n);
    RunIsIterate(Feed, Shift, Add, Low, Tail, c, w, LowBits(w, n));
  }

  lemma {:induction false} LowBitsDetermineWord(x: bv32, y: bv32, n: nat)
    requires LowBits(x, n) == LowBits(y, n)
    requires Iterate(Tail, x, n) == Iterate(Tail, y, n)
    ensures x == y
    decreases n
  {
    if n > 0 {
      assert LowBits(x, n)[0] == LowBits(y, n)[0];
      assert LowBits(x, n)[1..] == LowBits(Tail(x), n - 1) && LowBits(y, n)[1..] == LowBits(Tail(y), n - 1);
      LowBitsDetermineWord(Tail(x), Tail(y), n - 1);
      LowAndTail(x, y);
    }
  }

  lemma LowAndTail(x: bv32, y: bv32)
    requires Low(x) == Low(y) && Tail(x) == Tail(y)
    ensures x == y
  {
  }

  lemma AddNothing(c: bv32)
    ensures Add(c, 0) == c && Add(0, c) == c
  {
  }

  // ----- The same register, one byte at a time -----

  /** What the byte-wise loop puts into the register for one byte. */
  function Update(c: bv32, b: byte): bv32 {
    Iterate(Shift, Add(c, b as bv32), 8)
  }

  lemma TailFour(w: bv32)
    ensures Iterate(Tail, w, 4) == w >> 4
  {
  }

  lemma TailEight(w: bv32)
    ensures Iterate(Tail, w, 8) == w >> 8
  {
  }

  lemma ByteIsEightBits(b: byte)
    ensures Iterate(Tail, b as bv32, 8) == 0
  {
  }

  lemma UpdateFeedsByte(c: bv32, b: byte)
    ensures Update(c, b) == Run(Feed, c, LowBits(b as bv32, 8))
  {
    hide Shift, Feed, Add, Run, Iterate, LowBits;
    FeedIsShift(c, b as bv32, 8);
    ByteIsEightBits(b);
    AddNothing(Run(Feed, c, LowBits(b as bv32, 8)));
  }

  lemma RegisterSnoc(data: seq<byte>, b: byte)
    ensures Register(data + [b]) == Update(Register(data), b)
  {
    hide Shift, Feed, Add, Run, Iterate, LowBits, Update;
    assert (data + [b])[..|data|] == data;
    RunConcat(Feed, 0xFFFF_FFFF, Bits(data), LowBits(b as bv32, 8));
    UpdateFeedsByte(Register(data), b);
  }

  lemma Regroup<T>(a: seq<T>, b: seq<T>, c: seq<T>)
    ensures a + b + c == a + (b + c)
  {
  }

  lemma NoBits()
    ensures Bits([]) == []
  {
  }

  lemma BitsSnoc(x: seq<byte>, b: byte)
    ensures Bits(x + [b]) == Bits(x) + LowBits(b as bv32, 8)
  {
    hide LowBits;
    assert (x + [b])[..|x|] == x;
  }

  lemma {:induction false} BitsConcat(x: seq<byte>, y: seq<byte>)
    ensures Bits(x + y) == Bits(x) + Bits(y)
    decreases |y|
  {
    hide LowBits, Bits;
    if |y| == 0 {
      NoBits();
      assert x + y == x && y == [];
    } else {
      var front, b := y[..|y| - 1], y[|y| - 1];
      BitsConcat(x, front);
      BitsSnoc(front, b);
      BitsSnoc(x + front, b);
      Regroup(x, front, [b]);
      Regroup(Bits(x), Bits(front), LowBits(b as bv32, 8));
      assert y == front + [b];
    }
  }

  lemma BitsSplit(x: seq<byte>)
    requires |x| > 0
    ensures Bits(x)[..8 * |x| - 8] == Bits(x[..|x| - 1])
    ensures Bits(x)[8 * |x| - 8..] == LowBits(x[|x| - 1] as bv32, 8)
  {
  }

  lemma {:induction false} BitsDetermineData(x: seq<byte>, y: seq<byte>)
    requires Bits(x) == Bits(y)
    ensures x == y
    decreases |x|
  {
    hide LowBits, Bits;
    assert |Bits(x)| == |Bits(y)|;
    if |x| > 0 {
      var n := |x| - 1;
      var p, q := x[n], y[n];
      BitsSplit(x);
      BitsSplit(y);
      BitsDetermineData(x[..n], y[..n]);
      BytesAlike(p, q);
      assert x == x[..n] + [p] && y == y[..n] + [q];
    }
  }

  lemma BytesAlike(x: byte, y: byte)
    requires LowBits(x as bv32, 8) == LowBits(y as bv32, 8)
    ensures x == y
  {
    hide LowBits, Low, Tail, Iterate;
    ByteIsEightBits(x);
    ByteIsEightBits(y);
    LowBitsDetermineWord(x as bv32, y as bv32, 8);
  }

  // ----- Bursts -----

  /** The word whose low bits are the given ones. */
  function Word(bits: seq<bool>): bv32
    requires |bits| <= 32
    decreases |bits|
  {
    if |bits| == 0 then 0 else ShiftIn(Word(bits[1..]), bits[0])
  }

  function ShiftIn(v: bv32, b: bool): bv32 {
    (v << 1) | (if b then 1 else 0)
  }

  lemma TailSixteen(w: bv32)
    ensures Iterate(Tail, w, 16) == w >> 16
  {
    hide Iterate, Tail;
    IterateAdd(Tail, w, 8, 8);
    TailEight(w);
    TailEight(w >> 8);
    assert (w >> 8) >> 8 == w >> 16;
  }

  lemma TailThree(w: bv32)
    ensures Iterate(Tail, w, 3) == w >> 3
  {
  }

  lemma TailThirtyOne(w: bv32)
    ensures Iterate(Tail, w, 31) == w >> 31
  {
    hide Iterate, Tail;
    IterateAdd(Tail, w, 16, 15);
    IterateAdd(Tail, w >> 16, 8, 7);
    IterateAdd(Tail, (w >> 16) >> 8, 4, 3);
    TailSixteen(w);
    TailEight(w >> 16);
    TailFour((w >> 16) >> 8);
    TailThree(((w >> 16) >> 8) >> 4);
    assert (((w >> 16) >> 8) >> 4) >> 3 == w >> 31;
  }

  lemma TopBitClear(w: bv32)
    requires Iterate(Tail, w, 31) == 0
    ensures w < 0x8000_0000
  {
    hide Iterate;
    TailThirtyOne(w);
  }

  lemma TailOfZero(m: nat)
    ensures Iterate(Tail, 0, m) == 0
    decreases m
  {
  }

  lemma {:induction false} WordSpells(bits: seq<bool>)
    requires |bits| <= 32
    ensures LowBits(Word(bits), |bits|) == bits
    ensures Iterate(Tail, Word(bits), |bits|) == 0
    decreases |bits|
  {
    if |bits| == 0 {
      assert Word(bits) == 0;
    } else {
      hide Low, Tail, Word;
      WordSpells(bits[1..]);
      NothingLeft(Word(bits[1..]), |bits| - 1);
      Prepended(bits);
      assert bits == [bits[0]] + bits[1..];
    }
  }

  lemma NothingLeft(w: bv32, n: nat)
    requires n <= 31 && Iterate(Tail, w, n) == 0
    ensures w < 0x8000_0000
  {
    hide *;
    IterateAdd(Tail, w, n, 31 - n);
    TailOfZero(31 - n);
    TopBitClear(w);
  }

  lemma Prepended(bits: seq<bool>)
    requires 0 < |bits| <= 32 && Word(bits[1..]) < 0x8000_0000
    ensures Low(Word(bits)) == bits[0] && Tail(Word(bits)) == Word(bits[1..])
  {
  }

  /** From one register, two different bit strings of at most 32 bits lead to different registers. */
  lemma ShortRunsDiffer(c: bv32, x: seq<bool>, y: seq<bool>)
    requires |x| == |y| <= 32
    requires Run(Feed, c, x) == Run(Feed, c, y)
    ensures x == y
  {
    hide Shift, Feed, Low, Tail, LowBits, Word;
    var u, v, n := Word(x), Word(y), |x|;
    WordSpells(x);
    WordSpells(y);
    FeedIsShift(c, u, n);
    FeedIsShift(c, v, n);
    ShiftInjective();
    IterateInjective(Shift, Add(c, u), Add(c, v), n);
    AddCancels(c, u, v);
  }

  lemma AddCancels(c: bv32, x: bv32, y: bv32)
    requires Add(c, x) == Add(c, y)
    ensures x == y
  {
  }

  /** Two data blocks of one length whose bits agree outside a window of at most 32. */
  ghost predicate DifferInBurst(x: seq<byte>, y: seq<byte>, i: nat, j: nat) {
    && |x| == |y|
    && x != y
    && i <= j <= 8 * |x|
    && j - i <= 32
    && Bits(x)[..i] == Bits(y)[..i]
    && Bits(x)[j..] == Bits(y)[j..]
  }

  lemma SameCrcSameRegister(x: seq<byte>, y: seq<byte>)
    requires Crc(x) == Crc(y)
    ensures Register(x) == Register(y)
  {
    hide Register;
    XorCancels(Register(x), Register(y), 0xFFFF_FFFF);
  }

  /** The registers after the window differ, and nothing that follows can bring them together. */
  lemma WindowsAlike(x: seq<bool>, y: seq<bool>, i: nat, j: nat)
    requires |x| == |y| && i <= j <= |x| && j - i <= 32 && x[..i] == y[..i] && x[j..] == y[j..]
    requires Run(Feed, 0xFFFF_FFFF, x) == Run(Feed, 0xFFFF_FFFF, y)
    ensures x == y
  {
    hide *;
    var c := Run(Feed, 0xFFFF_FFFF, x[..i]);
    RunInThree(x, i, j);
    RunInThree(y, i, j);
    FeedInjective();
    RunInjective(Feed, Run(Feed, c, x[i..j]), Run(Feed, c, y[i..j]), x[j..]);
    ShortRunsDiffer(c, x[i..j], y[i..j]);
    assert x == x[..i] + x[i..j] + x[j..] && y == y[..i] + y[i..j] + y[j..];
  }

  /** Every burst error of at most 32 bits changes the CRC. */
  lemma BurstDetected(x: seq<byte>, y: seq<byte>, i: nat, j: nat)
    requires DifferInBurst(x, y, i, j)
    ensures Crc(x) != Crc(y)
  {
    hide Feed, Run, Bits, Crc;
    if Crc(x) == Crc(y) {
      SameCrcSameRegister(x, y);
      WindowsAlike(Bits(x), Bits(y), i, j);
      BitsDetermineData(x, y);
    }
  }

  lemma RunInThree(bits: seq<bool>, i: nat, j: nat)
    requires i <= j <= |bits|
    ensures Run(Feed, 0xFFFF_FFFF, bits)
         == Run(Feed, Run(Feed, Run(Feed, 0xFFFF_FFFF, bits[..i]), bits[i..j]), bits[j..])
  {
    hide *;
    assert bits == bits[..j] + bits[j..];
    assert bits[..j] == bits[..i] + bits[i..j];
    RunConcat(Feed, 0xFFFF_FFFF, bits[..j], bits[j..]);
    RunConcat(Feed, 0xFFFF_FFFF, bits[..i], bits[i..j]);
  }
}
