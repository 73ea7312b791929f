/**
 strcmp on texts without their NUL.
 */
module Strcmp {

  function Compare(a: string, b: string): (c: int)
    ensures c == 0 <==> a == b
  {
    if a == [] then (if b == [] then 0 else -1)
    else if b == [] then 1
    else if a[0] != b[0] then (if a[0] < b[0] then -1 else 1)
    else Compare(a[1..], b[1..])
  }

  /** The first difference decides, by character code. */
  lemma {:induction false} CompareAt(p: string, c: char, x: string, d: char, y: string)
    requires c != d
    ensures Compare(p + ([c] + x), p + ([d] + y)) < 0 <==> (c as int) < (d as int)
  {
    if p == [] {
      assert p + ([c] + x) == [c] + x && p + ([d] + y) == [d] + y;
    } else {
      assert (p + ([c] + x))[1..] == p[1..] + ([c] + x) && (p + ([d] + y))[1..] == p[1..] + ([d] + y);
      CompareAt(p[1..], c, x, d, y);
    }
  }

  /** A text comes before its continuations. */
  lemma {:induction false} ComparePrefix(p: string, x: string)
    requires x != []
    ensures Compare(p, p + x) < 0
  {
    if p == [] {
      assert p + x == x;
    } else {
      assert (p + x)[1..] == p[1..] + x;
      ComparePrefix(p[1..], x);
    }
  }

  lemma {:induction false} CompareFlips(a: string, b: string)
    ensures Compare(a, b) < 0 <==> Compare(b, a) > 0
  {
    if a != [] && b != [] && a[0] == b[0] { CompareFlips(a[1..], b[1..]); }
  }

  lemma {:induction false} CompareChain(a: string, b: string, c: string)
    requires Compare(a, b) > 0 && Compare(b, c) > 0
    ensures Compare(a, c) > 0
  {
    if a != [] && b != [] && c != [] && a[0] == b[0] == c[0] { CompareChain(a[1..], b[1..], c[1..]); }
  }
}
