/**
 The bytes of zmailer/libc/md5c.c written out: the first state, the padding place by place, and the blocks.
 */
module Md5Format {
  import opened Bytes
  import opened Md5

  lemma LowByte(a: byte, y: nat, n: nat)
    ensures LittleEndian(a + 0x100 * y, n + 1) == [a] + LittleEndian(y, n)
  {
    assert (a + 0x100 * y) % 256 == a && (a + 0x100 * y) / 256 == y;
  }

  lemma BytesOf(a: byte, b: byte, c: byte, d: byte)
    ensures LittleEndian(a + 0x100 * (b + 0x100 * (c + 0x100 * d)), 4) == [a, b, c, d]
  {
    LowByte(d, 0, 0);
    LowByte(c, d, 1);
    LowByte(b, c + 0x100 * d, 2);
    LowByte(a, b + 0x100 * (c + 0x100 * d), 3);
  }

  lemma FirstWords()
    ensures LittleEndian(INITIAL.a, 4) == [0x01, 0x23, 0x45, 0x67] && LittleEndian(INITIAL.b, 4) == [0x89, 0xab, 0xcd, 0xef]
    ensures LittleEndian(INITIAL.c, 4) == [0xfe, 0xdc, 0xba, 0x98] && LittleEndian(INITIAL.d, 4) == [0x76, 0x54, 0x32, 0x10]
  {
    BytesOf(0x01, 0x23, 0x45, 0x67);
    BytesOf(0x89, 0xab, 0xcd, 0xef);
    BytesOf(0xfe, 0xdc, 0xba, 0x98);
    BytesOf(0x76, 0x54, 0x32, 0x10);
  }

  /** The first state, as section 3.3 of RFC 1321 lists its bytes. */
  lemma FirstState()
    ensures Output(INITIAL) == [0x01, 0x23, 0x45, 0x67, 0x89, 0xab, 0xcd, 0xef, 0xfe, 0xdc, 0xba, 0x98, 0x76, 0x54, 0x32, 0x10]
  {
    FirstWords();
  }

  /** The number with the given bytes, low-order first. */
  function Weighted(b: seq<byte>): nat {
    if b == [] then 0 else b[0] + 256 * Weighted(b[1..])
  }

  function Power256(n: nat): (p: nat)
    ensures p > 0
  {
    if n == 0 then 1 else 256 * Power256(n - 1)
  }

  /** The bytes of x, and what is left of it above them. */
  lemma {:induction false} WeightedBytes(x: nat, n: nat)
    ensures Weighted(LittleEndian(x, n)) < Power256(n)
    ensures x == Weighted(LittleEndian(x, n)) + Times(Power256(n), Shifted(x, n))
  {
    if n > 0 {
      WeightedBytes(x / 256, n - 1);
      TimesAgain(Power256(n - 1), Shifted(x, n));
    }
  }

  function Times(a: int, b: int): int {
    a * b
  }

  lemma TimesAgain(a: nat, b: nat)
    ensures Times(256 * a, b) == 256 * Times(a, b)
  {
  }

  lemma Power64()
    ensures Power256(8) == 0x1_0000_0000_0000_0000
  {
    assert Power256(4) == 0x1_0000_0000;
  }

  lemma Modulo(x: nat, r: nat, q: nat)
    requires x == r + 0x1_0000_0000_0000_0000 * q && r < 0x1_0000_0000_0000_0000
    ensures x % 0x1_0000_0000_0000_0000 == r
  {
  }

  /** The padding: the byte after the message is 0x80, the last eight are the number of its bits modulo 2^64,
      all others are 0, and no shorter multiple of 64 has room for these nine. */
  lemma PaddedByPlace(m: seq<byte>, j: nat)
    ensures var p := Padded(m);
      && |p| % 64 == 0 && |m| + 9 <= |p| < |m| + 9 + 64
      && p[..|m|] == m && p[|m|] == 0x80
      && (|m| < j < |p| - 8 ==> p[j] == 0)
      && Weighted(p[|p| - 8..]) == 8 * |m| % 0x1_0000_0000_0000_0000
  {
    var p := Padded(m);
    assert p[|p| - 8..] == LittleEndian(8 * |m|, 8);
    WeightedBytes(8 * |m|, 8);
    Power64();
    Modulo(8 * |m|, Weighted(p[|p| - 8..]), Shifted(8 * |m|, 8));
  }

  lemma PaddedSize(m: seq<byte>)
    ensures |m| < 56 ==> |Padded(m)| == 64
    ensures 56 <= |m| < 120 ==> |Padded(m)| == 128
  {
  }

  /** A message of up to 55 bytes is one block, one of up to 119 bytes two. */
  lemma ShortMessages(f: Compression, m: seq<byte>)
    ensures |m| < 56 ==> Digest(f, m) == Output(f(INITIAL, Padded(m)))
    ensures 56 <= |m| < 120 ==> Digest(f, m) == Output(f(f(INITIAL, Padded(m)[..64]), Padded(m)[64..]))
  {
    var p := Padded(m);
    PaddedSize(m);
    if |p| == 64 { OneBlock(f, INITIAL, p); }
    if |p| == 128 {
      OneBlock(f, INITIAL, p[..64]);
      FoldBlock(f, INITIAL, p[..64], p[64..]);
      assert p[..64] + p[64..] == p;
    }
  }

  lemma OneBlock(f: Compression, s: State, p: seq<byte>)
    requires |p| == 64
    ensures Fold(f, s, p) == f(s, p)
  {
    assert [] + p == p;
    FoldBlock(f, s, [], p);
  }
}
