/**
 zmailer/libc/md5c.c: the MD5 message digest computed piece by piece.  The compression function
 (MD5Transform) is a parameter.
 */
module Md5 {
  import opened Bytes

  type word = x: int | 0 <= x < 0x1_0000_0000

  const TWO32: nat := 0x1_0000_0000

  /** The four words A, B, C, D. */
  datatype State = State(a: word, b: word, c: word, d: word)

  type Compression = (State, seq<byte>) -> State

  // ------------------------------------------------------------------ sections 3.1 to 3.5 of RFC 1321

  /** The state after all full blocks of m. */
  function Fold(f: Compression, s: State, m: seq<byte>): State
    decreases |m|
  {
    if |m| < 64 then s else Fold(f, f(s, m[..64]), m[64..])
  }

  const INITIAL: State := State(0x67452301, 0xefcdab89, 0x98badcfe, 0x10325476)

  /** The n low-order bytes of x, low-order first. */
  function LittleEndian(x: nat, n: nat): (b: seq<byte>)
    ensures |b| == n
  {
    if n == 0 then [] else [x % 256] + LittleEndian(x / 256, n - 1)
  }

  /** The number of zero bytes after the 0x80: the fewest that leave 8 bytes to a full block. */
  function ZeroCount(len: nat): (z: nat)
    ensures z < 64 && (len + 1 + z) % 64 == 56
  {
    (55 - len) % 64
  }

  /** The message, one 1 bit, zeros, and the number of bits modulo 2^64. */
  function Padded(m: seq<byte>): (p: seq<byte>)
    ensures |p| % 64 == 0
  {
    m + ([0x80] + Zeros(ZeroCount(|m|))) + LittleEndian(8 * |m|, 8)
  }

  function Output(s: State): (d: seq<byte>)
    ensures |d| == 16
  {
    LittleEndian(s.a, 4) + LittleEndian(s.b, 4) + LittleEndian(s.c, 4) + LittleEndian(s.d, 4)
  }

  function Digest(f: Compression, m: seq<byte>): seq<byte> {
    Output(Fold(f, INITIAL, Padded(m)))
  }

  // ------------------------------------------------------------------ blocks

  lemma {:induction false} FoldConcat(f: Compression, s: State, a: seq<byte>, b: seq<byte>)
    requires |a| % 64 == 0
    ensures Fold(f, s, a + b) == Fold(f, Fold(f, s, a), b)
    decreases |a|
  {
    if a == [] {
      assert a + b == b;
    } else {
      assert (a + b)[..64] == a[..64] && (a + b)[64..] == a[64..] + b;
      FoldConcat(f, f(s, a[..64]), a[64..], b);
    }
  }

  /** One more block. */
  lemma FoldBlock(f: Compression, s: State, a: seq<byte>, block: seq<byte>)
    requires |a| % 64 == 0 && |block| == 64
    ensures Fold(f, s, a + block) == f(Fold(f, s, a), block)
  {
    FoldConcat(f, s, a, block);
    assert block[..64] == block;
  }

  /** The part of a message in full blocks. */
  function Full(m: seq<byte>): (b: seq<byte>)
    ensures |b| % 64 == 0 && |b| <= |m| < |b| + 64
  {
    m[..|m| - |m| % 64]
  }

  function Tail(m: seq<byte>): (t: seq<byte>)
    ensures |t| < 64 && Full(m) + t == m
  {
    m[|m| - |m| % 64..]
  }

  lemma FullTail(m: seq<byte>, a: seq<byte>, t: seq<byte>)
    requires m == a + t && |a| % 64 == 0 && |t| < 64
    ensures Full(m) == a && Tail(m) == t
  {
    assert |m| - |m| % 64 == |a|;
  }

  // ------------------------------------------------------------------ the two counters

  /** count[0] and count[1] hold the number of bits modulo 2^64, in their low-order 32 bits. */
  predicate Counts(c0: nat, c1: nat, bits: nat) {
    c0 % TWO32 == bits % TWO32 && c1 % TWO32 == (bits / TWO32) % TWO32
  }

  /** The size of unsigned long. */
  predicate IsLong(size: nat) {
    size == TWO32 || size == 0x1_0000_0000_0000_0000
  }

  lemma LongKeepsLow(x: nat, size: nat)
    requires IsLong(size)
    ensures (x % size) % TWO32 == x % TWO32
  {
    if size != TWO32 {
      var q := x / size;
      assert x == x % size + (q * TWO32) * TWO32;
      AddMultiple(x % size, q * TWO32);
    }
  }

  lemma AddMultiple(x: nat, q: nat)
    ensures (x + q * TWO32) % TWO32 == x % TWO32 && (x + q * TWO32) / TWO32 == x / TWO32 + q
  {
  }

  /** The carry test of MD5Update, and the bits of the length that do not fit. */
  lemma Carry(bits: nat, n: nat, c0: nat, c1: nat, c0': nat, c1': nat)
    requires Counts(c0, c1, bits)
    requires var add := (8 * n) % TWO32;
      && c0' % TWO32 == (c0 + add) % TWO32
      && c1' % TWO32 == (c1 + (if c0' % TWO32 < add then 1 else 0) + 8 * n / TWO32) % TWO32
    ensures Counts(c0', c1', bits + 8 * n)
  {
    var add, low, q := (8 * n) % TWO32, bits % TWO32, bits / TWO32;
    var p, k := 8 * n / TWO32, c0 / TWO32;
    assert c0 + add == (low + add) + k * TWO32;
    AddMultiple(low + add, k);
    assert bits + 8 * n == (low + add) + (q + p) * TWO32;
    AddMultiple(low + add, q + p);
    var carry := if low + add < TWO32 then 0 else 1;
    assert (low + add) / TWO32 == carry;
    assert c0' % TWO32 < add <==> carry == 1;
    var j, i := c1 / TWO32, q / TWO32;
    assert c1 + carry + p == (q % TWO32 + carry + p) + j * TWO32;
    AddMultiple(q % TWO32 + carry + p, j);
    assert q + carry + p == (q % TWO32 + carry + p) + i * TWO32;
    AddMultiple(q % TWO32 + carry + p, i);
  }

  lemma IndexIs(c0: nat, c1: nat, len: nat)
    requires Counts(c0, c1, 8 * len)
    ensures c0 / 8 % 64 == len % 64
  {
    var k, j, low := c0 / TWO32, 8 * len / TWO32, c0 % TWO32;
    var l := len - 0x2000_0000 * j;
    assert low == 8 * l;
    assert c0 == 8 * (l + 64 * (0x80_0000 * k));
    SameMod64(l, 0x80_0000 * k);
    SameMod64(l, 0x80_0000 * j);
  }

  lemma SameMod64(l: nat, k: nat)
    ensures (l + 64 * k) % 64 == l % 64
  {
  }

  // ------------------------------------------------------------------ Encode

  lemma DropByte(x: nat, y: nat, k: nat, m: nat)
    requires x == y + 256 * (k * m)
    ensures x % 256 == y % 256 && x / 256 == y / 256 + k * m
  {
  }

  /** Encode takes the low-order 32 bits of a word. */
  lemma LowWord(x: nat)
    ensures LittleEndian(x, 4) == LittleEndian(x % TWO32, 4)
  {
    var y, k := x % TWO32, x / TWO32;
    DropByte(x, y, k, 0x100_0000);
    DropByte(x / 256, y / 256, k, 0x1_0000);
    DropByte(x / 256 / 256, y / 256 / 256, k, 0x100);
    DropByte(x / 256 / 256 / 256, y / 256 / 256 / 256, k, 1);
    FourBytes(x);
    FourBytes(y);
  }

  lemma FourBytes(x: nat)
    ensures LittleEndian(x, 4) == [x % 256, x / 256 % 256, x / 256 / 256 % 256, x / 256 / 256 / 256 % 256]
  {
    assert LittleEndian(x / 256 / 256 / 256, 1) == [x / 256 / 256 / 256 % 256];
    assert LittleEndian(x / 256 / 256, 2) == [x / 256 / 256 % 256, x / 256 / 256 / 256 % 256];
  }

  /** The same bytes by one shift each. */
  lemma ShiftedBytes(x: nat)
    ensures LittleEndian(x, 4) == [x % 256, x / 0x100 % 256, x / 0x1_0000 % 256, x / 0x100_0000 % 256]
  {
    FourBytes(x);
    ShiftTwo(x);
    ShiftThree(x);
  }

  lemma ShiftTwo(x: nat)
    ensures x / 256 / 256 == x / 0x1_0000
  {
  }

  lemma ShiftThree(x: nat)
    ensures x / 256 / 256 / 256 == x / 0x100_0000
  {
    ShiftTwo(x);
    assert x / 0x1_0000 / 256 == x / 0x100_0000;
  }

  lemma {:induction false} LittleEndianSplit(x: nat, k: nat, n: nat)
    ensures LittleEndian(x, k + n) == LittleEndian(x, k) + LittleEndian(Shifted(x, k), n)
  {
    if k > 0 { LittleEndianSplit(x / 256, k - 1, n); }
  }

  /** x without its k low-order bytes */
  function Shifted(x: nat, k: nat): nat {
    if k == 0 then x else Shifted(x / 256, k - 1)
  }

  lemma ShiftedWord(x: nat)
    ensures Shifted(x, 4) == x / TWO32
  {
    assert Shifted(x / 256 / 256 / 256, 1) == x / 256 / 256 / 256 / 256;
    assert Shifted(x / 256 / 256, 2) == Shifted(x / 256 / 256 / 256, 1);
  }

  /** The two counters, encoded, are the number of bits modulo 2^64. */
  lemma EncodedCounts(c0: nat, c1: nat, bits: nat)
    requires Counts(c0, c1, bits)
    ensures LittleEndian(c0, 4) + LittleEndian(c1, 4) == LittleEndian(bits, 8)
  {
    LowWord(c0);
    LowWord(c1);
    LowWord(bits);
    LowWord(bits / TWO32);
    LittleEndianSplit(bits, 4, 4);
    ShiftedWord(bits);
  }

  // ------------------------------------------------------------------ the context

  /** memcpy into a buffer */
  method Copy(from: seq<byte>, dst: array<byte>, at: nat)
    requires at + |from| <= dst.Length
    modifies dst
    ensures dst[..at + |from|] == old(dst[..at]) + from
  {
    for i := 0 to |from|
      invariant forall j :: 0 <= j < at ==> dst[j] == old(dst[j])
      invariant forall j :: 0 <= j < i ==> dst[at + j] == from[j]
    {
      dst[at + i] := from[i];
    }
  }

  /** The low-order 32 bits of words, low-order byte first. */
  function Encoded(words: seq<nat>): seq<byte> {
    if words == [] then [] else Encoded(words[..|words| - 1]) + LittleEndian(words[|words| - 1], 4)
  }

  lemma EncodedTwo(a: nat, b: nat)
    ensures Encoded([a, b]) == LittleEndian(a, 4) + LittleEndian(b, 4)
  {
    assert [a][..0] == [] && Encoded([a]) == [] + LittleEndian(a, 4) == LittleEndian(a, 4);
    assert [a, b][..1] == [a];
  }

  lemma EncodedState(s: State)
    ensures Encoded([s.a, s.b, s.c, s.d]) == Output(s)
  {
    EncodedTwo(s.a, s.b);
    assert [s.a, s.b, s.c, s.d][..3] == [s.a, s.b, s.c] && [s.a, s.b, s.c][..2] == [s.a, s.b];
  }

  /** Encode: the bytes of each word by division; words may be wider than 32 bits. */
  method Encode(input: seq<nat>) returns (output: seq<byte>)
    ensures output == Encoded(input)
  {
    output := [];
    for i := 0 to |input|
      invariant output == Encoded(input[..i])
    {
      var ui := input[i];
      ShiftedBytes(ui);
      output := output + [ui % 256, ui / 0x100 % 256, ui / 0x1_0000 % 256, ui / 0x100_0000 % 256];
      assert input[..i + 1][..i] == input[..i];
    }
    assert input[..|input|] == input;
  }

  class Context {
    const transform: Compression
    const long: nat
    var state: State
    var count0: nat
    var count1: nat
    const buffer: array<byte>
    ghost var message: seq<byte>

    /** The state folds the full blocks of the message so far, the buffer holds the rest, and the
        counters hold its length. */
    ghost predicate Valid()
      reads this, buffer
    {
      && buffer.Length == 64 && IsLong(long)
      && state == Fold(transform, INITIAL, Full(message))
      && buffer[..|Tail(message)|] == Tail(message)
      && Counts(count0, count1, 8 * |message|)
    }

    /** MD5Init */
    constructor (f: Compression, size: nat)
      requires IsLong(size)
      ensures Valid() && fresh(buffer) && transform == f && message == []
    {
      transform, long := f, size;
      count0, count1 := 0, 0;
      state := INITIAL;
      buffer := new byte[64](_ => 0);
      message := [];
    }

    /** The update of the number of bits; inputLen is an unsigned int, so its shift loses the high bits. */
    method AddLength(inputLen: nat, ghost bits: nat)
      requires IsLong(long) && Counts(count0, count1, bits) && inputLen < TWO32
      modifies this`count0, this`count1
      ensures Counts(count0, count1, bits + 8 * inputLen)
    {
      var add := (8 * inputLen) % TWO32;
      LongKeepsLow(count0 + add, long);
      count0 := (count0 + add) % long;
      ghost var carry := if count0 % TWO32 < add then 1 else 0;
      ghost var sum := count1 + carry;
      if count0 % TWO32 < add {
        LongKeepsLow(count1 + 1, long);
        count1 := (count1 + 1) % long;
      }
      LongKeepsLow(count1 + inputLen / 0x2000_0000, long);
      SameSum(count1, sum, inputLen / 0x2000_0000);
      count1 := (count1 + inputLen / 0x2000_0000) % long;
      assert inputLen / 0x2000_0000 == 8 * inputLen / TWO32;
      Carry(bits, inputLen, old(count0), old(count1), count0, count1);
    }

    /** The block loop: transforms the buffer, then as many blocks of the input as there are. */
    method Blocks(input: seq<byte>, partLen: nat) returns (i: nat)
      requires buffer.Length == 64 && partLen <= |input| && |message + input[..partLen]| == |Full(message)| + 64
      requires Full(message) + buffer[..] == message + input[..partLen]
      requires state == Fold(transform, INITIAL, Full(message))
      modifies this`state
      ensures partLen <= i <= |input| < i + 64 && |message + input[..i]| % 64 == 0
      ensures state == Fold(transform, INITIAL, message + input[..i])
    {
      FoldBlock(transform, INITIAL, Full(message), buffer[..]);
      state := transform(state, buffer[..]);
      i := partLen;
      while i + 63 < |input|
        invariant partLen <= i <= |input| && |message + input[..i]| % 64 == 0
        invariant state == Fold(transform, INITIAL, message + input[..i])
      {
        var block := input[i..i + 64];
        assert message + input[..i + 64] == (message + input[..i]) + block;
        FoldBlock(transform, INITIAL, message + input[..i], block);
        state := transform(state, block);
        i := i + 64;
      }
    }

    /** Transforms as many times as possible; what is left belongs into the buffer at the new index. */
    method Absorb(input: seq<byte>, index: nat) returns (i: nat, index': nat)
      requires buffer.Length == 64 && index == |Tail(message)| && buffer[..index] == Tail(message)
      requires state == Fold(transform, INITIAL, Full(message))
      modifies this`state, buffer
      ensures i <= |input| && index' + |input| - i < 64
      ensures state == Fold(transform, INITIAL, Full(message + input))
      ensures buffer[..index'] + input[i..] == Tail(message + input)
    {
      var partLen := 64 - index;
      ghost var m, t := message + input, Tail(message);
      assert message == Full(message) + t;
      if |input| >= partLen {
        Copy(input[..partLen], buffer, index);
        assert buffer[..] == buffer[..index + partLen] == t + input[..partLen];
        i := Blocks(input, partLen);
        index' := 0;
        FullTail(m, message + input[..i], input[i..]);
        assert buffer[..0] == [];
      } else {
        i, index' := 0, index;
        FullTail(m, Full(message), t + input);
        assert input[0..] == input;
      }
    }

    /** MD5Update */
    method Update(input: seq<byte>)
      requires Valid() && |input| < TWO32
      modifies this, buffer
      ensures Valid() && message == old(message) + input
    {
      var index := count0 / 8 % 64;
      IndexIs(count0, count1, |message|);
      AddLength(|input|, 8 * |message|);
      var i;
      i, index := Absorb(input, index);
      Copy(input[i..], buffer, index);
      message := message + input;
    }

    /** Pads the message and appends its length before padding. */
    method Pad()
      requires Valid()
      modifies this, buffer
      ensures Valid() && message == Padded(old(message))
    {
      var bits := Encode([count0, count1]);
      EncodedCounts(count0, count1, 8 * |message|);
      EncodedTwo(count0, count1);
      var index := count0 / 8 % 64;
      IndexIs(count0, count1, |message|);
      var padLen := if index < 56 then 56 - index else 120 - index;
      PadLength(|message|, index, padLen);
      Padding(padLen);
      Update(([0x80] + Zeros(63))[..padLen]);
      Update(bits);
    }

    /** memset of the context */
    method Clear()
      modifies this, buffer
      ensures count0 == count1 == 0 && state == State(0, 0, 0, 0) && forall i :: 0 <= i < buffer.Length ==> buffer[i] == 0
    {
      state, count0, count1 := State(0, 0, 0, 0), 0, 0;
      for i := 0 to buffer.Length
        invariant count0 == count1 == 0 && state == State(0, 0, 0, 0) && forall j :: 0 <= j < i ==> buffer[j] == 0
      {
        buffer[i] := 0;
      }
    }

    /** MD5Final: the digest of the whole message; the context is cleared. */
    method Final() returns (digest: seq<byte>)
      requires Valid()
      modifies this, buffer
      ensures digest == Digest(transform, old(message))
      ensures count0 == count1 == 0 && state == State(0, 0, 0, 0) && forall i :: 0 <= i < buffer.Length ==> buffer[i] == 0
    {
      Pad();
      assert Full(message) == message;
      digest := Encode([state.a, state.b, state.c, state.d]);
      EncodedState(state);
      Clear();
    }
  }

  lemma SameSum(a: nat, b: nat, c: nat)
    requires a % TWO32 == b % TWO32
    ensures (a + c) % TWO32 == (b + c) % TWO32
  {
  }

  lemma PadLength(len: nat, index: nat, padLen: nat)
    requires index == len % 64 && padLen == if index < 56 then 56 - index else 120 - index
    ensures padLen == 1 + ZeroCount(len) <= 64
  {
  }

  lemma Padding(n: nat)
    requires 1 <= n <= 64
    ensures ([0x80] + Zeros(63))[..n] == [0x80] + Zeros(n - 1)
  {
  }

  function Concat(chunks: seq<seq<byte>>): seq<byte> {
    if chunks == [] then [] else Concat(chunks[..|chunks| - 1]) + chunks[|chunks| - 1]
  }

  /** However a message is cut into pieces, its digest is the same. */
  method DigestOfChunks(f: Compression, size: nat, chunks: seq<seq<byte>>) returns (digest: seq<byte>)
    requires IsLong(size) && forall i :: 0 <= i < |chunks| ==> |chunks[i]| < TWO32
    ensures digest == Digest(f, Concat(chunks))
  {
    var context := new Context(f, size);
    for i := 0 to |chunks|
      invariant context.Valid() && fresh(context) && fresh(context.buffer) && context.transform == f
      invariant context.message == Concat(chunks[..i])
    {
      context.Update(chunks[i]);
      assert chunks[..i + 1][..i] == chunks[..i];
    }
    assert chunks[..|chunks|] == chunks;
    digest := context.Final();
  }
}
