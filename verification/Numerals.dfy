/**
 Numbers and their decimal and hexadecimal text, as sprintf writes them and the digit loops of the
 lexers and address parsers read them.
 */
module Numerals {

  predicate IsDigit(c: char) {
    '0' <= c <= '9'
  }

  function Digit(c: char): nat
    requires IsDigit(c)
  {
    (c - '0') as nat
  }

  predicate AllDigits(s: string) {
    forall i :: 0 <= i < |s| ==> IsDigit(s[i])
  }

  function Decimal(s: string): nat
    requires AllDigits(s)
  {
    if s == [] then 0 else 10 * Decimal(s[..|s| - 1]) + Digit(s[|s| - 1])
  }

  /** %u */
  function ShowNumber(n: nat): (s: string)
    ensures s != [] && AllDigits(s) && Decimal(s) == n
  {
    var last := ['0' + (n % 10) as char];
    var s := if n < 10 then last else ShowNumber(n / 10) + last;
    assert s[..|s| - 1] == if n < 10 then [] else ShowNumber(n / 10);
    s
  }

  lemma DecimalGrows(s: string, k: nat)
    requires k < |s| && AllDigits(s[..k + 1])
    ensures Decimal(s[..k + 1]) == 10 * Decimal(s[..k]) + Digit(s[k])
  {
    assert s[..k + 1][..k] == s[..k];
  }

  // ------------------------------------------------------------------ hexadecimal

  predicate IsHex(c: char) {
    IsDigit(c) || 'a' <= c <= 'f' || 'A' <= c <= 'F'
  }

  function HexDigit(c: char): (d: nat)
    requires IsHex(c)
    ensures d < 16
  {
    if IsDigit(c) then Digit(c) else if 'a' <= c <= 'f' then 10 + (c - 'a') as nat else 10 + (c - 'A') as nat
  }

  predicate AllHex(s: string) {
    forall i :: 0 <= i < |s| ==> IsHex(s[i])
  }

  function Hex(s: string): nat
    requires AllHex(s)
  {
    if s == [] then 0 else 16 * Hex(s[..|s| - 1]) + HexDigit(s[|s| - 1])
  }

  function HexChar(d: nat): (c: char)
    requires d < 16
    ensures IsHex(c) && HexDigit(c) == d
  {
    if d < 10 then '0' + d as char else 'a' + (d - 10) as char
  }

  /** %x */
  function ShowHex(n: nat): (s: string)
    ensures s != [] && AllHex(s) && Hex(s) == n
  {
    var last := [HexChar(n % 16)];
    var s := if n < 16 then last else ShowHex(n / 16) + last;
    assert s[..|s| - 1] == if n < 16 then [] else ShowHex(n / 16);
    s
  }

  lemma HexGrows(s: string, k: nat)
    requires k < |s| && AllHex(s[..k + 1])
    ensures Hex(s[..k + 1]) == 16 * Hex(s[..k]) + HexDigit(s[k])
  {
    assert s[..k + 1][..k] == s[..k];
  }

  lemma {:induction false} HexMonotone(s: string, k: nat)
    requires k <= |s| && AllHex(s)
    ensures Hex(s[..k]) <= Hex(s)
  {
    if k < |s| {
      HexMonotone(s[..|s| - 1], k);
      assert s[..|s| - 1][..k] == s[..k];
    } else {
      assert s[..k] == s;
    }
  }

  lemma {:induction false} DecimalMonotone(s: string, k: nat)
    requires k <= |s| && AllDigits(s)
    ensures Decimal(s[..k]) <= Decimal(s)
  {
    if k < |s| {
      DecimalMonotone(s[..|s| - 1], k);
      assert s[..|s| - 1][..k] == s[..k];
    } else {
      assert s[..k] == s;
    }
  }

  /** A decimal number below 1000, read as a hexadecimal one, stays small. */
  lemma {:induction false} DecimalAsHex(s: string)
    requires AllDigits(s)
    ensures AllHex(s)
    ensures Decimal(s) < 1 ==> Hex(s) < 1
    ensures Decimal(s) < 10 ==> Hex(s) < 0x10
    ensures Decimal(s) < 100 ==> Hex(s) < 0x100
    ensures Decimal(s) < 1000 ==> Hex(s) < 0x1000
  {
    if s != [] { DecimalAsHex(s[..|s| - 1]); }
  }

  lemma ShowNumberLength(n: nat)
    requires n < 1000
    ensures |ShowNumber(n)| <= 3
  {
    assert n >= 10 ==> |ShowNumber(n)| == |ShowNumber(n / 10)| + 1;
    var m := n / 10;
    assert n >= 10 && m >= 10 ==> |ShowNumber(m)| == |ShowNumber(m / 10)| + 1;
  }

  lemma ShowHexLength(n: nat)
    requires n < 0x10000
    ensures |ShowHex(n)| <= 4
  {
    var m := n / 16;
    var k := m / 16;
    assert n >= 16 ==> |ShowHex(n)| == |ShowHex(m)| + 1;
    assert m >= 16 ==> |ShowHex(m)| == |ShowHex(k)| + 1;
    assert k >= 16 ==> |ShowHex(k)| == |ShowHex(k / 16)| + 1;
  }
}
