/**
 Masks as numbers: pop of zmailer/intl/l10nflist.c, and how many submasks a mask has.
 */
module BitCount {

  /** The number of bits of x. */
  function Bits(x: nat): nat {
    if x == 0 then 0 else x % 2 + Bits(x / 2)
  }

  // ------------------------------------------------------------------ pop

  /** x & 0x5555: every second bit. */
  function Evens(x: nat): nat {
    if x == 0 then 0 else x % 2 + 4 * Evens(x / 4)
  }

  /** x & 0x3333: every second pair of bits. */
  function Pairs(x: nat): nat {
    if x == 0 then 0 else x % 4 + 16 * Pairs(x / 16)
  }

  /** x & 0x0f0f: every second group of four bits. */
  function Nibbles(x: nat): nat {
    if x == 0 then 0 else x % 16 + 256 * Nibbles(x / 256)
  }

  /** pop: adds neighbouring fields of one, two, four and eight bits. */
  function Pop(x: nat): nat {
    Add8(Add4(Add2(Add1(x))))
  }

  function Add1(x: nat): nat {
    Evens(x / 2) + Evens(x)
  }

  function Add2(x: nat): nat {
    Pairs(x / 4) + Pairs(x)
  }

  function Add4(x: nat): nat {
    Nibbles(x / 16 + x)
  }

  function Add8(x: nat): nat {
    (x / 256 + x) % 256
  }

  /** The sum of the digits to base 4, 16 and 256. */
  function Sum4(x: nat): nat {
    if x == 0 then 0 else x % 4 + Sum4(x / 4)
  }

  function Sum16(x: nat): nat {
    if x == 0 then 0 else x % 16 + Sum16(x / 16)
  }

  /** All digits to base 4 are at most 2, all digits to base 16 at most 4. */
  predicate Twos(x: nat) {
    x == 0 || (x % 4 <= 2 && Twos(x / 4))
  }

  predicate Fours(x: nat) {
    x == 0 || (x % 16 <= 4 && Fours(x / 16))
  }

  lemma Sum4Digit(d: nat, q: nat)
    requires d <= 2 && Twos(q)
    ensures Sum4(d + 4 * q) == d + Sum4(q) && Twos(d + 4 * q)
  {
    var y := d + 4 * q;
    assert y % 4 == d && y / 4 == q;
  }

  lemma Sum16Digit(d: nat, q: nat)
    requires d <= 4 && Fours(q)
    ensures Sum16(d + 16 * q) == d + Sum16(q) && Fours(d + 16 * q)
  {
    var y := d + 16 * q;
    assert y % 16 == d && y / 16 == q;
  }

  lemma Add1Digit(x: nat)
    ensures Add1(x) == (x % 2 + x / 2 % 2) + 4 * Add1(x / 4)
  {
    assert x / 2 / 4 == x / 4 / 2;
    assert Evens(x) == x % 2 + 4 * Evens(x / 4);
    assert Evens(x / 2) == x / 2 % 2 + 4 * Evens(x / 4 / 2);
  }

  lemma BitsStep(x: nat)
    ensures Bits(x) == (x % 2 + x / 2 % 2) + Bits(x / 4)
  {
    assert x / 2 / 2 == x / 4;
  }

  lemma {:induction false} FirstStep(x: nat)
    ensures Sum4(Add1(x)) == Bits(x) && Twos(Add1(x))
  {
    if x > 0 {
      FirstStep(x / 4);
      Add1Digit(x);
      BitsStep(x);
      Sum4Digit(x % 2 + x / 2 % 2, Add1(x / 4));
    }
  }

  lemma Add2Digit(a: nat)
    ensures Add2(a) == (a % 4 + a / 4 % 4) + 16 * Add2(a / 16)
  {
    assert a / 4 / 16 == a / 16 / 4;
    assert Pairs(a) == a % 4 + 16 * Pairs(a / 16);
    assert Pairs(a / 4) == a / 4 % 4 + 16 * Pairs(a / 16 / 4);
  }

  lemma Sum4Step(a: nat)
    requires Twos(a)
    ensures Sum4(a) == (a % 4 + a / 4 % 4) + Sum4(a / 16) && Twos(a / 16) && a % 4 <= 2 && a / 4 % 4 <= 2
  {
    assert a / 4 / 4 == a / 16;
    assert Twos(a / 4) && Sum4(a / 4) == a / 4 % 4 + Sum4(a / 4 / 4);
  }

  lemma {:induction false} SecondStep(a: nat)
    requires Twos(a)
    ensures Sum16(Add2(a)) == Sum4(a) && Fours(Add2(a))
  {
    if a > 0 {
      Sum4Step(a);
      SecondStep(a / 16);
      Add2Digit(a);
      Sum16Digit(a % 4 + a / 4 % 4, Add2(a / 16));
    }
  }

  lemma Digit16(y: nat)
    requires Fours(y)
    ensures y == y % 16 + 16 * (y / 16) && y % 16 <= 4 && Fours(y / 16) && Sum16(y) == y % 16 + Sum16(y / 16)
  {
  }

  lemma FourDigits(b: nat) returns (d0: nat, d1: nat, d2: nat, d3: nat)
    requires Fours(b) && b < 0x1_0000
    ensures d0 <= 4 && d1 <= 4 && d2 <= 4 && d3 <= 4 && b == d0 + 16 * d1 + 256 * d2 + 4096 * d3
    ensures Sum16(b) == d0 + d1 + d2 + d3
  {
    Digit16(b);
    var b1 := b / 16;
    Digit16(b1);
    var b2 := b1 / 16;
    Digit16(b2);
    var b3 := b2 / 16;
    Digit16(b3);
    d0, d1, d2, d3 := b % 16, b1 % 16, b2 % 16, b3 % 16;
    assert b3 / 16 == 0;
  }

  /** The sums of neighbouring digits stay in their fields. */
  lemma Spread(low: nat, mid: nat, high: nat, top: nat)
    requires low <= 8 && mid <= 8 && high <= 8 && top <= 4
    ensures Nibbles(low + 16 * mid + 256 * (high + 16 * top)) == low + 256 * high
  {
    var v := high + 16 * top;
    var w := low + 16 * mid + 256 * v;
    assert v < 256 && v % 16 == high;
    assert Nibbles(v) == high;
    assert w % 16 == low && w / 256 == v;
  }

  lemma FinalSum(low: nat, high: nat)
    requires low <= 8 && high <= 8
    ensures Add8(low + 256 * high) == low + high
  {
    var c := low + 256 * high;
    assert c / 256 == high;
    assert c / 256 + c == low + high + 256 * high;
  }

  lemma LastSteps(b: nat)
    requires Fours(b) && b < 0x1_0000
    ensures Add8(Add4(b)) == Sum16(b)
  {
    var d0, d1, d2, d3 := FourDigits(b);
    DigitSums(b, d0, d1, d2, d3);
  }

  lemma DigitSums(b: nat, d0: nat, d1: nat, d2: nat, d3: nat)
    requires d0 <= 4 && d1 <= 4 && d2 <= 4 && d3 <= 4 && b == d0 + 16 * d1 + 256 * d2 + 4096 * d3
    ensures Add8(Add4(b)) == d0 + d1 + d2 + d3
  {
    FieldSums(b, d0, d1, d2, d3);
    FinalSum(d0 + d1, d2 + d3);
  }

  lemma FieldSums(b: nat, d0: nat, d1: nat, d2: nat, d3: nat)
    requires d0 <= 4 && d1 <= 4 && d2 <= 4 && d3 <= 4 && b == d0 + 16 * d1 + 256 * d2 + 4096 * d3
    ensures Add4(b) == (d0 + d1) + 256 * (d2 + d3)
  {
    Neighbours(b, d0, d1, d2, d3);
    Spread(d0 + d1, d1 + d2, d2 + d3, d3);
  }

  lemma Neighbours(b: nat, d0: nat, d1: nat, d2: nat, d3: nat)
    requires d0 <= 4 && d1 <= 4 && d2 <= 4 && d3 <= 4 && b == d0 + 16 * d1 + 256 * d2 + 4096 * d3
    ensures b / 16 + b == (d0 + d1) + 16 * (d1 + d2) + 256 * ((d2 + d3) + 16 * d3)
  {
    assert b / 16 == d1 + 16 * d2 + 256 * d3;
  }

  lemma SixteenBits()
    ensures Power4(8) == 0x1_0000 && Power16(4) == 0x1_0000
  {
  }

  /** pop counts the bits of a number of up to 16 bits. */
  lemma PopCounts(x: nat)
    requires x < 0x1_0000
    ensures Pop(x) == Bits(x)
  {
    SixteenBits();
    FirstStep(x);
    FieldsBound(x, 8);
    PairsFollow(Add1(x));
  }

  lemma PairsFollow(a: nat)
    requires Twos(a) && a < 0x1_0000
    ensures Add8(Add4(Add2(a))) == Sum4(a)
  {
    SixteenBits();
    SecondStep(a);
    FieldsBoundPairs(a, 4);
    LastSteps(Add2(a));
  }

  function Power4(n: nat): nat {
    if n == 0 then 1 else 4 * Power4(n - 1)
  }

  function Power16(n: nat): nat {
    if n == 0 then 1 else 16 * Power16(n - 1)
  }

  /** n digits stay n digits. */
  lemma {:induction false} FieldsBound(x: nat, n: nat)
    requires x < Power4(n)
    ensures Add1(x) < Power4(n)
  {
    if n > 0 {
      FieldsBound(x / 4, n - 1);
      Add1Digit(x);
    }
  }

  lemma {:induction false} FieldsBoundPairs(a: nat, n: nat)
    requires a < Power16(n)
    ensures Add2(a) < Power16(n)
  {
    if n > 0 {
      FieldsBoundPairs(a / 16, n - 1);
      Add2Digit(a);
    }
  }

  // ------------------------------------------------------------------ submasks

  /** (c & ~mask) == 0: every bit of c is a bit of the mask. */
  predicate Sub(c: nat, mask: nat) {
    c == 0 || (c % 2 <= mask % 2 && Sub(c / 2, mask / 2))
  }

  /** (mask & flag) != 0, for a flag of one bit: both are halved until the flag is 1. */
  predicate Bit(mask: nat, flag: nat) {
    if flag <= 1 then mask % 2 == 1 else Bit(mask / 2, flag / 2)
  }

  /** How many numbers below n are submasks. */
  function Count(mask: nat, n: nat): nat {
    if n == 0 then 0 else Count(mask, n - 1) + if Sub(n - 1, mask) then 1 else 0
  }

  function Power(n: nat): (p: nat)
    ensures p > 0
  {
    if n == 0 then 1 else 2 * Power(n - 1)
  }

  /** The lowest bit doubles the number, or not. */
  lemma {:induction false} CountDouble(mask: nat, k: nat)
    ensures Count(mask, 2 * k) == if mask % 2 == 0 then Count(mask / 2, k) else 2 * Count(mask / 2, k)
  {
    if k > 0 {
      CountDouble(mask, k - 1);
      var j := k - 1;
      assert Sub(2 * j, mask) <==> Sub(j, mask / 2);
      assert Sub(2 * j + 1, mask) <==> mask % 2 == 1 && Sub(j, mask / 2);
      assert Count(mask, 2 * k) == Count(mask, 2 * j) + (if Sub(2 * j, mask) then 1 else 0) + (if Sub(2 * j + 1, mask) then 1 else 0);
    }
  }

  lemma {:induction false} SubBelow(c: nat, mask: nat)
    requires Sub(c, mask)
    ensures c <= mask
  {
    if c > 0 { SubBelow(c / 2, mask / 2); }
  }

  lemma {:induction false} CountBeyond(mask: nat, n: nat)
    requires mask < n
    ensures Count(mask, n) == Count(mask, mask + 1)
  {
    if n > mask + 1 {
      if Sub(n - 1, mask) { SubBelow(n - 1, mask); }
      CountBeyond(mask, n - 1);
    }
  }

  /** A mask has 2^pop submasks, itself among them. */
  lemma {:induction false} CountIsPower(mask: nat)
    ensures Count(mask, mask + 1) == Power(Bits(mask))
  {
    if mask > 0 {
      var q := mask / 2;
      CountIsPower(q);
      CountDouble(mask, q + 1);
      CountBeyond(mask, 2 * (q + 1));
      assert Bits(mask) == mask % 2 + Bits(q);
    } else {
      assert Count(mask, 1) == 1;
    }
  }
}
