/** Base32 decoding with a 32-bit accumulator that is never masked, against the groups of bits of
    section 6 of RFC 4648. */
module Base32 {
  type u8 = x: int | 0 <= x < 256
  type u5 = x: int | 0 <= x < 32

  datatype Decoded = Bytes(data: seq<u8>) | Invalid

  // ----- Numbers and their binary digits, highest first -----

  function Pow2(k: nat): (r: nat)
    ensures r > 0
  {
    if k == 0 then 1 else 2 * Pow2(k - 1)
  }

  function Number(bits: seq<bool>): nat {
    if |bits| == 0 then 0 else 2 * Number(bits[..|bits| - 1]) + (if bits[|bits| - 1] then 1 else 0)
  }

  function Digits(n: nat, width: nat): (r: seq<bool>)
    ensures |r| == width
  {
    if width == 0 then [] else Digits(n / 2, width - 1) + [n % 2 == 1]
  }

  lemma {:induction false} NumberDigits(n: nat, width: nat)
    requires n < Pow2(width)
    ensures Number(Digits(n, width)) == n
  {
    if width > 0 {
      NumberDigits(n / 2, width - 1);
      assert Digits(n, width)[..width - 1] == Digits(n / 2, width - 1);
    }
  }

  lemma NoDigits()
    ensures Number([]) == 0 && Pow2(0) == 1 && Digits(0, 0) == []
  {
  }

  lemma OneDigit(front: seq<bool>, last: bool, n: nat, width: nat)
    requires n == Number(front)
    ensures Number(front + [last]) == 2 * n + (if last then 1 else 0)
    ensures Digits(2 * n + (if last then 1 else 0), width + 1) == Digits(n, width) + [last]
    ensures n < Pow2(width) ==> 2 * n + 1 < Pow2(width + 1)
  {
    assert (front + [last])[..|front|] == front;
  }

  lemma {:induction false} DigitsNumber(bits: seq<bool>)
    ensures Number(bits) < Pow2(|bits|) && Digits(Number(bits), |bits|) == bits
  {
    hide Number, Pow2, Digits;
    if |bits| == 0 {
      NoDigits();
    } else {
      var front, last := bits[..|bits| - 1], bits[|bits| - 1];
      DigitsNumber(front);
      OneDigit(front, last, Number(front), |front|);
      assert bits == front + [last];
    }
  }

  lemma {:induction false} NumberConcat(a: seq<bool>, b: seq<bool>)
    ensures Number(a + b) == Number(a) * Pow2(|b|) + Number(b)
    decreases |b|
  {
    if |b| == 0 {
      assert a + b == a;
    } else {
      var front := b[..|b| - 1];
      NumberConcat(a, front);
      assert (a + b)[..|a + b| - 1] == a + front;
      assert 2 * (Number(a) * Pow2(|front|)) == Number(a) * Pow2(|b|);
    }
  }

  // ----- Values of one width spread into bits, and cut again -----

  function Spread(values: seq<nat>, width: nat): seq<bool> {
    if |values| == 0 then [] else Digits(values[0], width) + Spread(values[1..], width)
  }

  /** Whole groups of this width; what is left over at the end is dropped. */
  function Cut(bits: seq<bool>, width: nat): seq<nat>
    requires width > 0
  {
    if |bits| < width then [] else [Number(bits[..width])] + Cut(bits[width..], width)
  }

  lemma {:induction false} SpreadConcat(a: seq<nat>, b: seq<nat>, width: nat)
    ensures Spread(a + b, width) == Spread(a, width) + Spread(b, width)
    decreases |a|
  {
    hide Digits, Spread;
    if |a| == 0 {
      NothingSpread(width);
      assert a + b == b && a == [];
    } else {
      SpreadConcat(a[1..], b, width);
      SpreadFirst(a[0], a[1..], width);
      SpreadFirst(a[0], a[1..] + b, width);
      assert a == [a[0]] + a[1..] && a + b == [a[0]] + (a[1..] + b);
    }
  }

  lemma CutFirst(first: seq<bool>, rest: seq<bool>, width: nat)
    requires |first| == width > 0
    ensures Cut(first + rest, width) == [Number(first)] + Cut(rest, width)
  {
    hide Number;
    assert (first + rest)[..width] == first && (first + rest)[width..] == rest;
  }

  lemma GroupsLess(groups: nat, width: nat)
    requires groups > 0
    ensures groups * width == (groups - 1) * width + width && width <= groups * width
  {
  }

  lemma NothingToCut(width: nat)
    requires width > 0
    ensures Cut([], width) == []
  {
  }

  lemma NothingSpread(width: nat)
    ensures Spread([], width) == []
  {
  }

  lemma SpreadFirst(v: nat, rest: seq<nat>, width: nat)
    ensures Spread([v] + rest, width) == Digits(v, width) + Spread(rest, width)
  {
    hide Digits;
    assert ([v] + rest)[1..] == rest;
  }

  /** Cutting may start anywhere between two groups. */
  lemma {:induction false} CutConcat(a: seq<bool>, b: seq<bool>, width: nat, groups: nat)
    requires width > 0 && |a| == groups * width
    ensures Cut(a + b, width) == Cut(a, width) + Cut(b, width) && |Cut(a, width)| == groups
    decreases groups
  {
    hide Cut, Number;
    if groups == 0 {
      NothingToCut(width);
      assert a + b == b && a == [];
    } else {
      GroupsLess(groups, width);
      var first, rest := a[..width], a[width..];
      CutConcat(rest, b, width, groups - 1);
      CutFirst(first, rest, width);
      CutFirst(first, rest + b, width);
      assert a == first + rest && a + b == first + (rest + b);
    }
  }

  predicate Fit(values: seq<nat>, width: nat) {
    forall i | 0 <= i < |values| :: values[i] < Pow2(width)
  }

  lemma {:induction false} CutSpread(values: seq<nat>, width: nat)
    requires width > 0 && Fit(values, width)
    ensures Cut(Spread(values, width), width) == values
  {
    hide Pow2, Digits, Number, Cut, Spread;
    if |values| == 0 {
      NothingSpread(width);
      NothingToCut(width);
    } else {
      var first, rest := Digits(values[0], width), Spread(values[1..], width);
      CutSpread(values[1..], width);
      NumberDigits(values[0], width);
      CutFirst(first, rest, width);
      SpreadFirst(values[0], values[1..], width);
      assert values == [values[0]] + values[1..];
    }
  }

  lemma {:induction false} SpreadCut(bits: seq<bool>, width: nat, groups: nat)
    requires width > 0 && |bits| == groups * width
    ensures Spread(Cut(bits, width), width) == bits
    ensures |Cut(bits, width)| == groups && Fit(Cut(bits, width), width)
    decreases groups
  {
    hide Pow2, Digits, Number, Cut, Spread;
    if groups == 0 {
      NothingSpread(width);
      NothingToCut(width);
      assert bits == [];
    } else {
      GroupsLess(groups, width);
      var first, rest := bits[..width], bits[width..];
      SpreadCut(rest, width, groups - 1);
      DigitsNumber(first);
      CutFirst(first, rest, width);
      SpreadFirst(Number(first), Cut(rest, width), width);
      assert bits == first + rest;
    }
  }

  lemma {:induction false} CutLength(bits: seq<bool>, width: nat)
    requires width > 0
    ensures |Cut(bits, width)| == |bits| / width
  {
    if |bits| >= width {
      CutLength(bits[width..], width);
      OneGroupLess(|bits|, width);
    }
  }

  lemma OneGroupLess(n: nat, width: nat)
    requires n >= width > 0
    ensures n / width == (n - width) / width + 1
  {
    var q, p := n / width, (n - width) / width;
    assert n == q * width + n % width && n - width == p * width + (n - width) % width;
    var d := q - p - 1;
    assert d * width == (n - width) % width - n % width;
    Multiple(d, width);
  }

  lemma Multiple(d: int, width: nat)
    requires width > 0
    ensures d >= 1 ==> d * width >= width
    ensures d <= -1 ==> d * width <= 0 - width
  {
  }

  lemma {:induction false} SpreadLength(values: seq<nat>, width: nat)
    ensures |Spread(values, width)| == |values| * width
  {
    if |values| > 0 { SpreadLength(values[1..], width); }
  }

  // ----- The alphabet -----

  /** Padding, and what the C locale calls space. */
  predicate Skipped(c: char) {
    c == '=' || c == ' ' || '\t' <= c <= '\r'
  }

  function ToUpper(c: char): char {
    if 'a' <= c <= 'z' then (c as int - 32) as char else c
  }

  const ALPHABET: seq<char> := "ABCDEFGHIJKLMNOPQRSTUVWXYZ234567"

  predicate Known(c: char) {
    var u := ToUpper(c);
    'A' <= u <= 'Z' || '2' <= u <= '7'
  }

  function ValueOf(c: char): u5
    requires Known(c)
  {
    var u := ToUpper(c);
    if 'A' <= u then u as int - 'A' as int else u as int - '2' as int + 26
  }

  function Letter(v: u5): (c: char)
    ensures !Skipped(c) && Known(c) && ValueOf(c) == v
  {
    ALPHABET[v]
  }

  predicate Valid(text: string) {
    forall c | c in text :: Skipped(c) || Known(c)
  }

  /** The values of the letters, spaces and padding left out. */
  function Groups(text: string): seq<nat>
    requires Valid(text)
  {
    if |text| == 0 then []
    else
      var (front, c) := (text[..|text| - 1], text[|text| - 1]);
      assert c in text;
      if Skipped(c) then Groups(front) else Groups(front) + [ValueOf(c) as nat]
  }

  /** What the text stands for: the first whole bytes of its five-bit groups. */
  function Meaning(text: string): seq<u8>
    requires Valid(text)
  {
    AllBytes(Spread(Groups(text), 5));
    Cut(Spread(Groups(text), 5), 8)
  }

  lemma {:induction false} AllBytes(bits: seq<bool>)
    ensures forall i | 0 <= i < |Cut(bits, 8)| :: Cut(bits, 8)[i] < 256
  {
    if |bits| >= 8 {
      AllBytes(bits[8..]);
      DigitsNumber(bits[..8]);
      assert Pow2(8) == 256 by { assert Pow2(6) == 64 by { assert Pow2(4) == 16; } }
    }
  }

  /** Letters stand for 0 to 25 in either case, and the digits from two on for 26 to 31, as in
      table 3 of RFC 4648. */
  lemma LettersStand(i: nat)
    requires i < 32
    ensures i < 26 ==>
              && Known((65 + i) as char) && ValueOf((65 + i) as char) == i
              && Known((97 + i) as char) && ValueOf((97 + i) as char) == i
    ensures i >= 26 ==> Known((50 + i - 26) as char) && ValueOf((50 + i - 26) as char) == i
  {
  }

  lemma CharacterIff(c: char)
    ensures Known(c) <==> 65 <= c as int <= 90 || 97 <= c as int <= 122 || 50 <= c as int <= 55
    ensures Skipped(c) <==> c as int == 61 || c as int == 32 || 9 <= c as int <= 13
  {
  }

  /** Nothing else is a letter, and a text is valid if it has letters, padding and white space only. */
  lemma ValidIff(text: string)
    ensures Valid(text) <==>
            forall c | c in text ::
              || 65 <= c as int <= 90 || 97 <= c as int <= 122 || 50 <= c as int <= 55
              || c as int == 61 || c as int == 32 || 9 <= c as int <= 13
  {
    hide Known, Skipped;
    forall c: char
      ensures Known(c) <==> 65 <= c as int <= 90 || 97 <= c as int <= 122 || 50 <= c as int <= 55
      ensures Skipped(c) <==> c as int == 61 || c as int == 32 || 9 <= c as int <= 13
    {
      CharacterIff(c);
    }
  }

  // ----- Decoding is base conversion -----

  /** The number the values spell in this base, highest first. */
  function Spelled(values: seq<nat>, base: nat): nat {
    if |values| == 0 then 0 else Spelled(values[..|values| - 1], base) * base + values[|values| - 1]
  }

  lemma {:induction false} SpreadSpells(values: seq<nat>, width: nat)
    requires Fit(values, width)
    ensures Number(Spread(values, width)) == Spelled(values, Pow2(width))
  {
    if |values| == 0 {
      NothingSpread(width);
      NoDigits();
    } else {
      hide Number, Spread, Digits, Pow2;
      var front, last := values[..|values| - 1], values[|values| - 1];
      SpreadSpells(front, width);
      assert values == front + [last];
      SpreadConcat(front, [last], width);
      SpreadFirst(last, [], width);
      NothingSpread(width);
      assert [last] + [] == [last] && Digits(last, width) + [] == Digits(last, width);
      NumberConcat(Spread(front, width), Digits(last, width));
      NumberDigits(last, width);
    }
  }

  lemma {:induction false} GroupsFitFive(text: string)
    requires Valid(text)
    ensures Fit(Groups(text), 5)
  {
    assert Pow2(5) == 32;
    if |text| > 0 {
      assert Valid(text[..|text| - 1]);
      GroupsFitFive(text[..|text| - 1]);
    }
  }

  lemma WholeBytes(bits: seq<bool>)
    ensures var n := |bits| / 8 * 8;
            n <= |bits| && Cut(bits, 8) == Cut(bits[..n], 8) && |bits| - n == |bits| % 8
  {
    hide Cut, Number;
    var n := |bits| / 8 * 8;
    CutConcat(bits[..n], bits[n..], 8, |bits| / 8);
    TooFewBits(bits[n..]);
    assert bits == bits[..n] + bits[n..];
  }

  lemma TooFewBits(bits: seq<bool>)
    requires |bits| < 8
    ensures Cut(bits, 8) == []
  {
  }

  lemma Powers()
    ensures Pow2(5) == 32 && Pow2(8) == 256
  {
    assert Pow2(6) == 64 by { assert Pow2(4) == 16; }
  }

  lemma BytesSpelled(bits: seq<bool>, k: nat)
    requires |bits| == k * 8
    ensures Spelled(Cut(bits, 8), 256) == Number(bits)
  {
    hide Pow2, Number, Spread, Cut, Spelled;
    Powers();
    SpreadCut(bits, 8, k);
    SpreadSpells(Cut(bits, 8), 8);
  }

  lemma GroupsSpelled(text: string)
    requires Valid(text)
    ensures |Spread(Groups(text), 5)| == |Groups(text)| * 5
    ensures Number(Spread(Groups(text), 5)) == Spelled(Groups(text), 32)
  {
    hide Pow2, Number, Spread, Groups, Spelled, Valid;
    Powers();
    GroupsFitFive(text);
    SpreadSpells(Groups(text), 5);
    SpreadLength(Groups(text), 5);
  }

  lemma MeaningIs(text: string)
    requires Valid(text)
    ensures Meaning(text) == Cut(Spread(Groups(text), 5), 8)
  {
    hide Groups, Cut, Spread;
  }

  /** The data, as a number in base 256, is the letters as a number in base 32, without the bits at
      the end that do not fill a byte. */
  lemma DecodingIsConversion(text: string)
    requires Valid(text)
    ensures Spelled(Meaning(text), 256) == Spelled(Groups(text), 32) / Pow2(5 * |Groups(text)| % 8)
  {
    hide *;
    var bits := Spread(Groups(text), 5);
    MeaningIs(text);
    GroupsSpelled(text);
    WholeBytes(bits);
    BytesSpelled(bits[..|bits| / 8 * 8], |bits| / 8);
    DropBits(bits, |bits| / 8 * 8);
  }

  lemma DropBits(bits: seq<bool>, n: nat)
    requires n <= |bits|
    ensures Number(bits[..n]) == Number(bits) / Pow2(|bits| - n)
  {
    hide Number, Pow2, Digits;
    NumberConcat(bits[..n], bits[n..]);
    DigitsNumber(bits[n..]);
    assert bits == bits[..n] + bits[n..];
    DivMod(Number(bits), Pow2(|bits| - n), Number(bits[..n]), Number(bits[n..]));
  }

  // ----- The accumulator -----

  /** A 32-bit signed integer after shifting left by five: the top bits are lost. */
  function ShiftedLeft(buffer: int): (r: int)
    ensures -0x8000_0000 <= r < 0x8000_0000 && r % 32 == 0
  {
    (buffer * 32 + 0x8000_0000) % 0x1_0000_0000 - 0x8000_0000
  }

  /** Shifting right copies the sign, so it rounds down. */
  function ShiftedRight(buffer: int, k: nat): int {
    buffer / Pow2(k)
  }

  lemma {:induction false} PowAdd(a: nat, b: nat)
    ensures Pow2(a + b) == Pow2(a) * Pow2(b)
  {
    if a > 0 { PowAdd(a - 1, b); }
  }

  /** What n is made of determines its quotient and remainder. */
  lemma DivMod(n: int, d: nat, q: int, r: nat)
    requires d > 0 && n == q * d + r && r < d
    ensures n / d == q && n % d == r
  {
    assert n == n / d * d + n % d;
    assert (n / d - q) * d == r - n % d;
    Multiple(n / d - q, d);
  }

  /** The low bits survive the loss of the high ones. */
  lemma LowBits(buffer: int, left: nat, v: u5)
    requires left < 8
    ensures (ShiftedLeft(buffer) + v) % Pow2(left + 5) == buffer % Pow2(left) * 32 + v
  {
    hide Pow2;
    var lost, d, p := (buffer * 32 + 0x8000_0000) / 0x1_0000_0000, Pow2(left), Pow2(27 - left);
    ShiftLoses(buffer, lost);
    hide ShiftedLeft;
    LostBits(left);
    FiveMore(left);
    LowPart(buffer, d, buffer / d, buffer % d, lost, p, v);
  }

  lemma ShiftLoses(buffer: int, lost: int)
    requires lost == (buffer * 32 + 0x8000_0000) / 0x1_0000_0000
    ensures ShiftedLeft(buffer) == buffer * 32 - lost * 0x1_0000_0000
  {
  }

  lemma FiveMore(left: nat)
    ensures Pow2(left + 5) == 32 * Pow2(left)
  {
    assert Pow2(5) == 32 by { assert Pow2(3) == 8; }
    PowAdd(left, 5);
  }

  lemma LowPart(buffer: int, d: nat, q: int, r: nat, lost: int, p: int, v: u5)
    requires d > 0 && q == buffer / d && r == buffer % d
    ensures (buffer * 32 - lost * (32 * d * p) + v) % (32 * d) == r * 32 + v
  {
    assert buffer == q * d + r && r < d;
    Regroup(buffer, d, q, r, lost, p);
    DivMod(buffer * 32 - lost * (32 * d * p) + v, 32 * d, q - lost * p, r * 32 + v);
  }

  lemma Regroup(buffer: int, d: int, q: int, r: int, lost: int, p: int)
    requires buffer == q * d + r
    ensures buffer * 32 - lost * (32 * d * p) == (q - lost * p) * (32 * d) + r * 32
  {
  }

  lemma LostBits(left: nat)
    requires left < 8
    ensures 0x1_0000_0000 == 32 * Pow2(left) * Pow2(27 - left)
  {
    PowAdd(left, 27 - left);
    assert Pow2(9) == 512;
    PowAdd(9, 9);
    PowAdd(18, 9);
  }

  lemma TopByte(buffer: int, left: nat)
    ensures ShiftedRight(buffer, left) % 256 == buffer % Pow2(left + 8) / Pow2(left)
    ensures buffer % Pow2(left) == buffer % Pow2(left + 8) % Pow2(left)
  {
    var d, big := Pow2(left), Pow2(left + 8);
    assert big == 256 * d by { assert Pow2(8) == 256; PowAdd(left, 8); }
    hide Pow2;
    var q, r := buffer / big, buffer % big;
    var a, b := r / d, r % d;
    TwoParts(buffer, d, q, r, a, b);
    DivMod(buffer, d, q * 256 + a, b);
    DivMod(q * 256 + a, 256, q, a);
  }

  lemma TwoParts(n: int, d: nat, q: int, r: nat, a: nat, b: nat)
    requires n == q * (256 * d) + r && r == a * d + b && b < d && r < 256 * d
    ensures n == (q * 256 + a) * d + b && a < 256
  {
  }

  // ----- Decoding -----

  /** What the loop has: the bytes so far, and the bits not yet part of one. */
  ghost predicate Holding(bits: seq<bool>, result: seq<u8>, buffer: int, left: nat) {
    && left < 8 && |bits| == 8 * |result| + left
    && result == Cut(bits[..8 * |result|], 8)
    && buffer % Pow2(left) == Number(bits[8 * |result|..])
  }

  lemma PendingGrows(bits: seq<bool>, result: seq<u8>, buffer: int, left: nat, v: u5)
    requires Holding(bits, result, buffer, left)
    ensures var next := bits + Digits(v, 5);
            && |next| == 8 * |result| + left + 5 && result == Cut(next[..8 * |result|], 8)
            && (ShiftedLeft(buffer) + v) % Pow2(left + 5) == Number(next[8 * |result|..])
  {
    var pending := bits[8 * |result|..];
    var next := bits + Digits(v, 5);
    LowBits(buffer, left, v);
    assert Pow2(5) == 32;
    NumberDigits(v, 5);
    NumberConcat(pending, Digits(v, 5));
    hide Pow2, Number, Digits, ShiftedLeft, Cut;
    assert next[..8 * |result|] == bits[..8 * |result|];
    assert next[8 * |result|..] == pending + Digits(v, 5);
  }

  lemma TopNumber(top: seq<bool>, rest: seq<bool>, buffer: int)
    requires |top| == 8 && buffer % Pow2(|rest| + 8) == Number(top + rest)
    ensures ShiftedRight(buffer, |rest|) % 256 == Number(top) && buffer % Pow2(|rest|) == Number(rest)
  {
    TopByte(buffer, |rest|);
    NumberConcat(top, rest);
    DigitsNumber(rest);
    hide Number, Pow2, ShiftedRight;
    DivMod(Number(top + rest), Pow2(|rest|), Number(top), Number(rest));
  }

  lemma ByteOut(bits: seq<bool>, result: seq<u8>, buffer: int, left: nat)
    requires |bits| == 8 * |result| + left + 8 && left < 8
    requires result == Cut(bits[..8 * |result|], 8) && buffer % Pow2(left + 8) == Number(bits[8 * |result|..])
    ensures Holding(bits, result + [ShiftedRight(buffer, left) % 256], buffer, left)
  {
    var pending, n := bits[8 * |result|..], 8 * |result|;
    var top, rest := pending[..8], pending[8..];
    CutConcat(bits[..n], top, 8, |result|);
    assert Cut(top, 8) == [Number(top)] by { assert top[..8] == top; }
    hide Pow2, Number, Cut, ShiftedRight;
    assert pending == top + rest;
    TopNumber(top, rest, buffer);
    assert bits[..n + 8] == bits[..n] + top && bits[n + 8..] == rest;
  }

  lemma NoByteYet(bits: seq<bool>, result: seq<u8>, buffer: int, left: nat)
    requires |bits| == 8 * |result| + left && left < 8
    requires result == Cut(bits[..8 * |result|], 8) && buffer % Pow2(left) == Number(bits[8 * |result|..])
    ensures Holding(bits, result, buffer, left)
  {
  }

  lemma NoMoreBytes(bits: seq<bool>, result: seq<u8>, buffer: int, left: nat)
    requires Holding(bits, result, buffer, left)
    ensures result == Cut(bits, 8)
  {
    hide Number, Pow2;
    var n := 8 * |result|;
    CutConcat(bits[..n], bits[n..], 8, |result|);
    assert bits == bits[..n] + bits[n..];
  }

  method DecodeBase32(text: string) returns (r: Decoded)
    ensures r == if Valid(text) then Bytes(Meaning(text)) else Invalid
  {
    Begun();
    hide Spread, Groups, Known, Skipped, ValueOf, Digits, Holding, Cut, ShiftedLeft, ShiftedRight;
    var result: seq<u8>, buffer: int, bitsLeft: nat := [], 0, 0;
    assert text[..0] == [];
    var k := 0;
    while k < |text|
      invariant k <= |text| && Valid(text[..k])
      invariant Holding(Spread(Groups(text[..k]), 5), result, buffer, bitsLeft)
    {
      var c := text[k];
      assert text[..k + 1][..k] == text[..k];
      k := k + 1;
      if Skipped(c) {
        NoLetter(text[..k]);
        continue;
      }
      if !Known(c) {
        assert c in text;
        return Invalid;
      }
      ghost var bits := Spread(Groups(text[..k - 1]), 5);
      assert bitsLeft < 8 by { StillHolding(bits, result, buffer, bitsLeft); }
      OneLetter(text[..k]);
      OneGroup(Groups(text[..k - 1]), ValueOf(c));
      PendingGrows(bits, result, buffer, bitsLeft, ValueOf(c));
      buffer := ShiftedLeft(buffer);
      buffer := buffer + ValueOf(c);
      bitsLeft := bitsLeft + 5;
      if bitsLeft >= 8 {
        bitsLeft := bitsLeft - 8;
        ByteOut(bits + Digits(ValueOf(c), 5), result, buffer, bitsLeft);
        result := result + [ShiftedRight(buffer, bitsLeft) % 256];
      } else {
        NoByteYet(bits + Digits(ValueOf(c), 5), result, buffer, bitsLeft);
      }
    }
    assert text[..k] == text;
    NoMoreBytes(Spread(Groups(text), 5), result, buffer, bitsLeft);
    return Bytes(result);
  }

  lemma OneLetter(text: string)
    requires |text| > 0 && Valid(text[..|text| - 1]) && !Skipped(text[|text| - 1]) && Known(text[|text| - 1])
    ensures Valid(text) && Groups(text) == Groups(text[..|text| - 1]) + [ValueOf(text[|text| - 1]) as nat]
  {
  }

  lemma OneGroup(groups: seq<nat>, v: nat)
    ensures Spread(groups + [v], 5) == Spread(groups, 5) + Digits(v, 5)
  {
    hide Digits;
    SpreadConcat(groups, [v], 5);
    assert Spread([v], 5) == Digits(v, 5) by { assert [v][1..] == []; }
  }

  lemma NoLetter(text: string)
    requires |text| > 0 && Valid(text[..|text| - 1]) && Skipped(text[|text| - 1])
    ensures Valid(text) && Groups(text) == Groups(text[..|text| - 1])
  {
  }

  lemma Begun()
    ensures Holding(Spread(Groups([]), 5), [], 0, 0)
  {
  }

  lemma StillHolding(bits: seq<bool>, result: seq<u8>, buffer: int, left: nat)
    requires Holding(bits, result, buffer, left)
    ensures left < 8
  {
  }

  // ----- Encoding, as section 6 of RFC 4648 has it -----

  function Zeros(n: nat): seq<bool> {
    seq(n, _ => false)
  }

  /** The bits of the data, filled up with zeros to whole groups of five. */
  function Padded(bits: seq<bool>): seq<bool> {
    bits + Zeros((5 - |bits| % 5) % 5)
  }

  function EncodedGroups(data: seq<u8>): seq<nat> {
    Cut(Padded(Spread(data, 8)), 5)
  }

  function Letters(groups: seq<nat>): (r: string)
    requires Fit(groups, 5)
    ensures |r| == |groups|
  {
    if |groups| == 0 then []
    else
      FiveBits(groups, |groups| - 1);
      Letters(groups[..|groups| - 1]) + [Letter(groups[|groups| - 1])]
  }

  lemma FiveBits(groups: seq<nat>, i: nat)
    requires Fit(groups, 5) && i < |groups|
    ensures groups[i] < 32
  {
  }

  function Pads(n: nat): string {
    if n == 0 then [] else Pads(n - 1) + ['=']
  }

  /** Letters, and padding up to a multiple of eight. */
  function Encode(data: seq<u8>): string {
    GroupsFit(data);
    var letters := Letters(EncodedGroups(data));
    letters + Pads((8 - |letters| % 8) % 8)
  }

  lemma GroupsFit(data: seq<u8>)
    ensures Fit(EncodedGroups(data), 5)
    ensures Spread(EncodedGroups(data), 5) == Padded(Spread(data, 8))
  {
    var bits := Padded(Spread(data, 8));
    WholeGroups(|Spread(data, 8)|);
    SpreadCut(bits, 5, |bits| / 5);
  }

  lemma WholeGroups(n: nat)
    ensures (n + (5 - n % 5) % 5) % 5 == 0
  {
  }

  lemma BytesFit(data: seq<u8>)
    ensures Fit(data, 8)
  {
    assert Pow2(8) == 256 by { assert Pow2(6) == 64 by { assert Pow2(4) == 16; } }
  }

  /** Whatever the layout, case, spacing and padding: a text with the groups of some data decodes
      to that data. */
  lemma AnyLayoutDecodes(text: string, data: seq<u8>)
    requires Valid(text) && Groups(text) == EncodedGroups(data)
    ensures Meaning(text) == data
  {
    hide Spread, Pow2, EncodedGroups, Groups;
    var bits := Spread(data, 8);
    GroupsFit(data);
    SpreadLength(data, 8);
    BytesFit(data);
    CutSpread(data, 8);
    var zeros := Zeros((5 - |bits| % 5) % 5);
    CutConcat(bits, zeros, 8, |data|);
    assert Cut(zeros, 8) == [];
  }

  /** n letters make floor(5n/8) bytes. */
  lemma MeaningLength(text: string)
    requires Valid(text)
    ensures |Meaning(text)| == 5 * |Groups(text)| / 8
  {
    SpreadLength(Groups(text), 5);
    CutLength(Spread(Groups(text), 5), 8);
  }

  lemma {:induction false} LettersGroups(groups: seq<nat>)
    requires Fit(groups, 5)
    ensures Valid(Letters(groups)) && Groups(Letters(groups)) == groups
  {
    hide Letter, Known, Skipped, ValueOf, Valid, Groups;
    if |groups| > 0 {
      var n := |groups| - 1;
      LettersGroups(groups[..n]);
      FiveBits(groups, n);
      assert Letters(groups)[..n] == Letters(groups[..n]);
      OneLetter(Letters(groups));
    } else {
      NoText();
    }
  }

  lemma NoText()
    ensures Valid([]) && Groups([]) == []
  {
  }

  lemma {:induction false} PadsAddNothing(text: string, n: nat)
    requires Valid(text)
    ensures Valid(text + Pads(n)) && Groups(text + Pads(n)) == Groups(text)
  {
    if n == 0 {
      assert text + [] == text;
    } else {
      PadsAddNothing(text, n - 1);
      var all := text + Pads(n);
      assert all[..|all| - 1] == text + Pads(n - 1);
      NoLetter(all);
    }
  }

  /** Decoding the encoding is the identity. */
  lemma RoundTrip(data: seq<u8>)
    ensures Valid(Encode(data)) && Meaning(Encode(data)) == data
  {
    hide Cut, Padded, Spread, Groups, Meaning;
    GroupsFit(data);
    LettersGroups(EncodedGroups(data));
    var letters := Letters(EncodedGroups(data));
    PadsAddNothing(letters, (8 - |letters| % 8) % 8);
    AnyLayoutDecodes(Encode(data), data);
  }
}
