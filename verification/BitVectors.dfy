/**
 The masks of zmailer/intl/l10nflist.c as words of 16 bits: the bit operations of the source are the
 arithmetic of BitCount.
 */
module BitVectors {
  import opened BitCount

  /** The number that a word stands for. */
  function Value(x: bv16): nat
    decreases x
  {
    if x == 0 then 0 else Low(x) + 2 * Value(x >> 1)
  }

  function Low(x: bv16): nat {
    if x & 1 == 1 then 1 else 0
  }

  /** x & 1 and x >> 1 */
  lemma ValueHalf(x: bv16)
    ensures Value(x) % 2 == Low(x) && Value(x) / 2 == Value(x >> 1)
  {
  }

  lemma ValueQuarter(x: bv16)
    ensures Value(x) % 4 == Low(x) + 2 * Low(x >> 1) && Value(x) / 4 == Value(x >> 2)
  {
    ValueHalf(x);
    ValueHalf(x >> 1);
    assert x >> 1 >> 1 == x >> 2;
  }

  lemma ValueDigit(x: bv16)
    ensures Value(x) % 16 == Value(x) % 4 + 4 * (Value(x >> 2) % 4) && Value(x) / 16 == Value(x >> 4)
  {
    ValueQuarter(x);
    ValueQuarter(x >> 2);
    assert x >> 2 >> 2 == x >> 4;
  }

  lemma Digits(x: bv16)
    ensures x >> 4 >> 4 >> 4 >> 4 == 0
  {
  }

  lemma ValueBound(x: bv16)
    ensures Value(x) < 0x1_0000
  {
    Digits(x);
    ValueDigit(x);
    ValueDigit(x >> 4);
    ValueDigit(x >> 4 >> 4);
    ValueDigit(x >> 4 >> 4 >> 4);
  }

  // ------------------------------------------------------------------ masks

  lemma EvenBits(x: bv16)
    ensures (x & 0x5555) >> 2 == (x >> 2) & 0x5555 && Low(x & 0x5555) == Low(x) && Low((x & 0x5555) >> 1) == 0
    ensures x != 0 ==> x >> 2 < x
  {
  }

  lemma EvensStep(x: bv16, m: bv16)
    requires Low(m) == Low(x) && Low(m >> 1) == 0 && Value(m >> 2) == Evens(Value(x >> 2))
    ensures Value(m) == Evens(Value(x))
  {
    ValueHalf(x);
    ValueQuarter(x);
    ValueQuarter(m);
    EvensOf(Value(x));
  }

  lemma EvensOf(n: nat)
    ensures Evens(n) == n % 2 + 4 * Evens(n / 4)
  {
  }

  /** x & 0x5555 */
  lemma {:induction false} EvensIsMask(x: bv16)
    ensures Value(x & 0x5555) == Evens(Value(x))
    decreases x
  {
    if x != 0 {
      EvenBits(x);
      EvensIsMask(x >> 2);
      EvensStep(x, x & 0x5555);
    }
  }

  lemma PairBits(x: bv16)
    ensures (x & 0x3333) >> 4 == (x >> 4) & 0x3333 && Low((x & 0x3333) >> 2) == Low((x & 0x3333) >> 3) == 0
    ensures Low(x & 0x3333) == Low(x) && Low((x & 0x3333) >> 1) == Low(x >> 1)
    ensures x != 0 ==> x >> 4 < x
  {
  }

  lemma PairsStep(x: bv16, m: bv16)
    requires Low(m) == Low(x) && Low(m >> 1) == Low(x >> 1) && Low(m >> 2) == Low(m >> 3) == 0
    requires Value(m >> 4) == Pairs(Value(x >> 4))
    ensures Value(m) == Pairs(Value(x))
  {
    ValueQuarter(x);
    ValueQuarter(m);
    NoQuarter(m);
    ValueDigit(x);
    ValueDigit(m);
    PairsOf(Value(x));
  }

  lemma NoQuarter(m: bv16)
    requires Low(m >> 2) == Low(m >> 3) == 0
    ensures Value(m >> 2) % 4 == 0
  {
    ValueQuarter(m >> 2);
    assert m >> 2 >> 1 == m >> 3;
  }

  lemma PairsOf(n: nat)
    ensures Pairs(n) == n % 4 + 16 * Pairs(n / 16)
  {
  }

  /** x & 0x3333 */
  lemma {:induction false} PairsIsMask(x: bv16)
    ensures Value(x & 0x3333) == Pairs(Value(x))
    decreases x
  {
    if x != 0 {
      PairBits(x);
      PairsIsMask(x >> 4);
      PairsStep(x, x & 0x3333);
    }
  }

  /** The lowest four bits are a number. */
  lemma LowDigit(x: bv16)
    ensures Value(x) % 16 == Value(x & 15)
  {
    ValueDigit(x);
    ValueDigit(x & 15);
    SameDigit(x, x & 15);
    assert (x & 15) >> 4 == 0;
  }

  lemma SameDigit(x: bv16, y: bv16)
    requires x & 15 == y & 15
    ensures Value(x) % 16 == Value(y) % 16
  {
    ValueDigit(x);
    ValueDigit(y);
    SameQuarter(x, y);
    SameQuarter(x >> 2, y >> 2);
  }

  lemma SameQuarter(x: bv16, y: bv16)
    requires x & 3 == y & 3
    ensures Value(x) % 4 == Value(y) % 4
  {
    ValueQuarter(x);
    ValueQuarter(y);
  }

  lemma NibbleBits(x: bv16)
    ensures (x & 0x0f0f) >> 8 == (x >> 8) & 0x0f0f && ((x & 0x0f0f) >> 4) & 15 == 0
    ensures (x & 0x0f0f) & 15 == x & 15
    ensures x != 0 ==> x >> 8 < x
  {
  }

  lemma NibblesStep(x: bv16, m: bv16)
    requires m & 15 == x & 15 && (m >> 4) & 15 == 0 && Value(m >> 8) == Nibbles(Value(x >> 8))
    ensures Value(m) == Nibbles(Value(x))
  {
    ValueByte(x);
    ValueByte(m);
    SameDigit(m, x);
    LowDigit(m >> 4);
    NibblesOf(Value(x));
  }

  lemma ValueByte(x: bv16)
    ensures Value(x) % 256 == Value(x) % 16 + 16 * (Value(x >> 4) % 16) && Value(x) / 256 == Value(x >> 8)
  {
    ValueDigit(x);
    ValueDigit(x >> 4);
    assert x >> 4 >> 4 == x >> 8;
    TwoDigits(Value(x));
  }

  lemma TwoDigits(n: nat)
    ensures n % 256 == n % 16 + 16 * (n / 16 % 16) && n / 256 == n / 16 / 16
  {
  }

  lemma NibblesOf(n: nat)
    ensures Nibbles(n) == n % 16 + 256 * Nibbles(n / 256)
  {
  }

  /** x & 0x0f0f */
  lemma {:induction false} NibblesIsMask(x: bv16)
    ensures Value(x & 0x0f0f) == Nibbles(Value(x))
    decreases x
  {
    if x != 0 {
      NibbleBits(x);
      NibblesIsMask(x >> 8);
      NibblesStep(x, x & 0x0f0f);
    }
  }

  // ------------------------------------------------------------------ submasks and flags

  lemma NoBitOutside(c: bv16, mask: bv16)
    ensures c & !mask == 0 <==> (c >> 1) & !(mask >> 1) == 0 && (c & 1 == 1 ==> mask & 1 == 1)
    ensures c == 0 ==> c & !mask == 0
    ensures c != 0 ==> c >> 1 < c
  {
  }

  lemma SubOf(c: nat, mask: nat)
    ensures Sub(c, mask) <==> c == 0 || (c % 2 <= mask % 2 && Sub(c / 2, mask / 2))
  {
  }

  /** (c & ~mask) == 0 */
  lemma {:induction false} SubIsMask(c: bv16, mask: bv16)
    ensures Sub(Value(c), Value(mask)) <==> c & !mask == 0
    decreases c
  {
    NoBitOutside(c, mask);
    if c != 0 {
      SubIsMask(c >> 1, mask >> 1);
      SubStep(c, mask);
    }
  }

  lemma SubStep(c: bv16, mask: bv16)
    ensures Sub(Value(c), Value(mask)) <==> c == 0 || (Low(c) <= Low(mask) && Sub(Value(c >> 1), Value(mask >> 1)))
  {
    ValueHalf(c);
    ValueHalf(mask);
    SubOf(Value(c), Value(mask));
  }

  predicate OneBit(f: bv16) {
    f != 0 && f & (f - 1) == 0
  }

  lemma FlagBits(x: bv16, f: bv16) returns (h: bv16)
    requires OneBit(f) && f != 1
    ensures h == f >> 1 && OneBit(h) && h < f && (x & f != 0 <==> (x >> 1) & h != 0)
  {
    h := f >> 1;
  }

  lemma BitOf(n: nat, f: nat)
    ensures Bit(n, f) <==> if f <= 1 then n % 2 == 1 else Bit(n / 2, f / 2)
  {
  }

  lemma FlagStep(x: bv16, f: bv16, h: bv16)
    requires f != 0 && h == f >> 1 && Value(h) > 0
    ensures Value(f) > 0 && Bit(Value(x), Value(f)) == Bit(Value(x >> 1), Value(h))
  {
    ValueHalf(x);
    ValueHalf(f);
    BitOf(Value(x), Value(f));
  }

  lemma LowestFlag(x: bv16)
    ensures Value(1) == 1 && (Bit(Value(x), 1) <==> x & 1 != 0)
  {
    ValueHalf(x);
    ValueHalf(1);
    BitOf(Value(x), 1);
  }

  /** (x & f) != 0 */
  lemma {:induction false} BitIsMask(x: bv16, f: bv16)
    requires OneBit(f)
    ensures Value(f) > 0 && (Bit(Value(x), Value(f)) <==> x & f != 0)
    decreases f
  {
    if f == 1 {
      LowestFlag(x);
    } else {
      var h := FlagBits(x, f);
      BitIsMask(x >> 1, h);
      FlagStep(x, f, h);
    }
  }

  // ------------------------------------------------------------------ pop

  /** pop, as it is written. */
  function PopWord(x: bv16): bv16 {
    Fold8(Fold4(Fold2(Fold1(x))))
  }

  function Fold1(x: bv16): bv16 {
    ((x & !0x5555) >> 1) + (x & 0x5555)
  }

  function Fold2(x: bv16): bv16 {
    ((x & !0x3333) >> 2) + (x & 0x3333)
  }

  function Fold4(x: bv16): bv16 {
    ((x >> 4) + x) & 0x0f0f
  }

  function Fold8(x: bv16): bv16 {
    ((x >> 8) + x) & 0xff
  }

  lemma PopStep(x: bv16)
    ensures PopWord(x) == (x & 1) + PopWord(x >> 1)
  {
  }

  lemma PopBound(x: bv16)
    ensures PopWord(x) <= 16
  {
  }

  lemma EvenNext(x: bv16)
    requires Low(x) == 0
    ensures Low(x + 1) == 1 && (x + 1) >> 1 == x >> 1
  {
  }

  lemma OddNext(x: bv16)
    requires Low(x) == 1 && x != 0xffff
    ensures Low(x + 1) == 0 && (x + 1) >> 1 == (x >> 1) + 1
  {
  }

  lemma OddHalf(x: bv16) returns (h: bv16)
    requires Low(x) == 1
    ensures h == x >> 1 && h < x && h != 0xffff
  {
    h := x >> 1;
  }

  lemma ValueIs(x: bv16)
    ensures Value(x) == Low(x) + 2 * Value(x >> 1)
  {
  }

  lemma NextOfEven(x: bv16, y: bv16)
    requires Low(x) == 0 && Low(y) == 1 && Value(y >> 1) == Value(x >> 1)
    ensures Value(y) == Value(x) + 1
  {
    ValueIs(x);
    ValueIs(y);
  }

  lemma NextOfOdd(x: bv16, y: bv16)
    requires Low(x) == 1 && Low(y) == 0 && Value(y >> 1) == Value(x >> 1) + 1
    ensures Value(y) == Value(x) + 1
  {
    ValueIs(x);
    ValueIs(y);
  }

  lemma AfterEven(x: bv16)
    requires Low(x) == 0
    ensures Value(x + 1) == Value(x) + 1
  {
    EvenNext(x);
    NextOfEven(x, x + 1);
  }

  lemma AfterOdd(x: bv16, h: bv16)
    requires Low(x) == 1 && x != 0xffff && h == x >> 1 && Value(h + 1) == Value(h) + 1
    ensures Value(x + 1) == Value(x) + 1
  {
    OddNext(x);
    NextOfOdd(x, x + 1);
  }

  lemma {:induction false} ValueNext(x: bv16)
    requires x != 0xffff
    ensures Value(x + 1) == Value(x) + 1
    decreases x
  {
    if Low(x) == 1 {
      var h := OddHalf(x);
      ValueNext(h);
      AfterOdd(x, h);
    } else {
      AfterEven(x);
    }
  }

  lemma ValueAddBit(b: bv16, y: bv16)
    requires b <= 1 && y <= 16
    ensures Value(b + y) == (if b == 1 then 1 else 0) + Value(y)
  {
    if b == 1 {
      ValueNext(y);
      assert b + y == y + 1;
    } else {
      assert b + y == y;
    }
  }

  lemma BitsOf(n: nat)
    ensures Bits(n) == n % 2 + Bits(n / 2)
  {
  }

  lemma BitsHalf(x: bv16)
    ensures Bits(Value(x)) == Low(x) + Bits(Value(x >> 1))
  {
    ValueHalf(x);
    BitsOf(Value(x));
  }

  lemma Smaller(x: bv16)
    requires x != 0
    ensures x >> 1 < x
  {
  }

  lemma BitsStep16(x: bv16, p: bv16, q: bv16)
    requires p == (x & 1) + q && q <= 16 && Value(q) == Bits(Value(x >> 1))
    ensures Value(p) == Bits(Value(x))
  {
    ValueAddBit(x & 1, q);
    BitsHalf(x);
  }

  lemma PopBitsStep(x: bv16)
    requires Value(PopWord(x >> 1)) == Bits(Value(x >> 1))
    ensures Value(PopWord(x)) == Bits(Value(x))
  {
    PopStep(x);
    PopBound(x >> 1);
    BitsStep16(x, PopWord(x), PopWord(x >> 1));
  }

  lemma {:induction false} PopWordBits(x: bv16)
    ensures Value(PopWord(x)) == Bits(Value(x))
    decreases x
  {
    if x != 0 {
      Smaller(x);
      PopWordBits(x >> 1);
      PopBitsStep(x);
    }
  }

  /** pop counts the bits, and is the arithmetic function of that name. */
  lemma PopWordCounts(x: bv16)
    ensures Value(PopWord(x)) == Bits(Value(x)) == Pop(Value(x))
  {
    PopWordBits(x);
    ValueBound(x);
    PopCounts(Value(x));
  }
}
