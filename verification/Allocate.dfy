/**
 zmailer/lib/allocate.c: the region and stack allocator, for one memory type.  Addresses are numbers,
 and the address of a new block is what malloc returned.
 */
module Allocate {
  import opened Sequences

  const NALIGN: nat := 8
  const MALLOC_OVERHEAD: nat := 24
  const SIZEOF_BLOCK: nat := 32
  const HEADER: nat := 24          // of a struct block, in front of its area
  const BLOCK_WASTE: nat := 40
  const CLICK: nat := 0x8000

  function BlockSize(size: nat): int {
    size - MALLOC_OVERHEAD - SIZEOF_BLOCK
  }

  function Align(x: nat): (a: nat)
    ensures x <= a < x + NALIGN && a % NALIGN == 0 && (x % NALIGN == 0 ==> a == x)
  {
    (x + NALIGN - 1) / NALIGN * NALIGN
  }

  /** The size of the next block for a request of n bytes: doubled while it is below n. */
  function Grown(size: nat, n: nat): (g: nat)
    requires size > 0
    ensures g >= size && g >= n
    decreases n - size
  {
    if size < n then Grown(2 * size, n) else size
  }

  function Doubled(size: nat, k: nat): nat {
    if k == 0 then size else 2 * Doubled(size, k - 1)
  }

  /** The size is doubled as often as needed and no more. */
  lemma {:induction false} GrownIs(size: nat, n: nat) returns (k: nat)
    requires size > 0
    ensures Grown(size, n) == Doubled(size, k) >= n && (k > 0 ==> Doubled(size, k - 1) < n)
    decreases n - size
  {
    if size < n {
      k := GrownIs(2 * size, n);
      DoubledOnce(size, k);
      if k > 0 { DoubledOnce(size, k - 1); }
      k := k + 1;
    } else {
      k := 0;
    }
  }

  lemma {:induction false} DoubledOnce(size: nat, k: nat)
    ensures Doubled(2 * size, k) == Doubled(size, k + 1)
  {
    if k > 0 { DoubledOnce(size, k - 1); }
  }

  /** while (size < n) size = CLICK_INCR(size) */
  method Grow(size: nat, n: nat) returns (g: nat)
    requires size > 0
    ensures g == Grown(size, n)
  {
    g := size;
    while g < n
      invariant g > 0 && Grown(g, n) == Grown(size, n)
      decreases n - g
    {
      g := 2 * g;
    }
  }

  /** A new block is filled from the beginning of its area, which is aligned; behind the area there are
      NALIGN bytes of slop.  So a request stays inside the malloc'ed bytes exactly up to this bound. */
  lemma FreshBlockExact(where: nat, size: nat, n: nat)
    requires where % NALIGN == 0
    ensures Align(where) + n <= where + BlockSize(size) + NALIGN <==> n <= BlockSize(size) + NALIGN
  {
  }

  /** The growth loop compares n with the raw size.  The block it makes is too small exactly if the raw
      size exceeds n by less than the overhead: 48 bytes. */
  lemma GrowthStopsShort(size: nat, n: nat)
    requires size > 0
    ensures n > BlockSize(Grown(size, n)) + NALIGN <==> Grown(size, n) - n < MALLOC_OVERHEAD + HEADER
  {
  }

  /** The first such request: 32721 bytes. */
  lemma FirstOverrun(n: nat)
    requires n <= 32721
    ensures n > BlockSize(Grown(CLICK, n)) + NALIGN <==> n == 32721
  {
  }

  class Block {
    const area: nat
    const size: nat
    var cur: nat
    var next: Block?

    constructor (a: nat, n: nat)
      ensures area == a && size == n && cur == a && next == null
    {
      area, size, cur, next := a, n, a, null;
    }
  }

  /** The bytes that malloc gave to the two areas do not overlap. */
  ghost predicate Apart(b: Block, c: Block) {
    b.area + b.size + NALIGN + HEADER <= c.area || c.area + c.size + NALIGN + HEADER <= b.area
  }

  // ------------------------------------------------------------------ lists of blocks

  ghost predicate Linked(a: seq<Block>, i: int)
    requires 0 <= i < |a|
    reads a[i]
  {
    a[i].next == if i + 1 < |a| then a[i + 1] else null
  }

  ghost predicate Chain(h: Block?, a: seq<Block>)
    reads a
  {
    && h == (if a == [] then null else a[0])
    && forall i {:trigger a[i].next} :: 0 <= i < |a| ==> Linked(a, i)
  }

  ghost predicate Distinct(a: seq<Block>) {
    forall i, j :: 0 <= i < j < |a| ==> a[i] != a[j]
  }

  function Without(a: seq<Block>, j: nat): seq<Block>
    requires j < |a|
  {
    a[..j] + a[j + 1..]
  }

  function Inserted(a: seq<Block>, p: nat, b: Block): seq<Block>
    requires p < |a|
  {
    a[..p + 1] + [b] + a[p + 1..]
  }

  lemma DistinctPrefix(a: seq<Block>, b: seq<Block>)
    requires Distinct(a + b)
    ensures Distinct(a)
  {
    forall i, j | 0 <= i < j < |a| ensures a[i] != a[j] {
      assert (a + b)[i] == a[i] && (a + b)[j] == a[j];
    }
  }

  lemma DistinctParts(a: seq<Block>, b: seq<Block>)
    requires Distinct(a + b)
    ensures forall x :: x in b ==> x !in a
  {
    forall j | 0 <= j < |b| ensures b[j] !in a {
      assert (a + b)[|a| + j] == b[j];
      assert forall i :: 0 <= i < |a| ==> a[i] == (a + b)[i];
    }
  }

  lemma DistinctInsert(a: seq<Block>, bp: Block, b: seq<Block>)
    requires Distinct(a + b) && bp !in a + b
    ensures Distinct(a + [bp] + b)
  {
    var c, d := a + b, a + [bp] + b;
    forall i, j | 0 <= i < j < |d| ensures d[i] != d[j] {
      if i != |a| && j != |a| {
        assert d[i] == c[if i < |a| then i else i - 1] && d[j] == c[if j < |a| then j else j - 1];
      } else if i == |a| {
        assert d[j] == c[j - 1];
      } else {
        assert d[i] == c[i];
      }
    }
  }

  lemma DistinctRemove(a: seq<Block>, bp: Block, b: seq<Block>)
    requires Distinct(a + [bp] + b)
    ensures Distinct(a + b) && bp !in a + b
  {
    var c, d := a + b, a + [bp] + b;
    assert d[|a|] == bp;
    forall i, j | 0 <= i < j < |c| ensures c[i] != c[j] {
      assert c[i] == d[if i < |a| then i else i + 1] && c[j] == d[if j < |a| then j else j + 1];
    }
    forall i | 0 <= i < |c| ensures c[i] != bp {
      assert c[i] == d[if i < |a| then i else i + 1];
    }
  }

  /** prev->next = bp->next */
  method SkipNext(prev: Block, bp: Block, ghost h: Block?, ghost a: seq<Block>, ghost j: nat)
    requires Chain(h, a) && Distinct(a) && 1 <= j < |a| && a[j] == bp && a[j - 1] == prev
    modifies prev`next
    ensures Chain(h, Without(a, j))
  {
    assert Linked(a, j);
    ghost var a' := Without(a, j);
    prev.next := bp.next;
    forall i | 0 <= i < |a'| ensures Linked(a', i) {
      assert a'[i] == if i < j then a[i] else a[i + 1];
      assert i != j - 1 ==> Linked(a, if i < j then i else i + 1);
    }
  }

  /** bp->next = p->next; p->next = bp */
  method InsertAfter(p: Block, bp: Block, ghost h: Block?, ghost a: seq<Block>, ghost i0: nat)
    requires Chain(h, a) && Distinct(a) && i0 < |a| && a[i0] == p && bp !in a
    modifies p`next, bp`next
    ensures Chain(h, Inserted(a, i0, bp))
  {
    assert Linked(a, i0);
    ghost var a' := Inserted(a, i0, bp);
    bp.next := p.next;
    p.next := bp;
    forall i | 0 <= i < |a'| ensures Linked(a', i) {
      assert a'[i] == if i <= i0 then a[i] else if i == i0 + 1 then bp else a[i - 1];
      assert i < i0 ==> old(Linked(a, i));
      assert i > i0 + 1 ==> old(Linked(a, i - 1));
    }
  }

  /** b->cur = v keeps the lists. */
  method SetCur(b: Block, v: nat, ghost h: Block?, ghost a: seq<Block>, ghost f: Block?, ghost s: seq<Block>)
    requires Chain(h, a) && Chain(f, s)
    modifies b`cur
    ensures b.cur == v && Chain(h, a) && Chain(f, s)
  {
    b.cur := v;
    forall i | 0 <= i < |a| ensures Linked(a, i) {
      assert old(Linked(a, i));
    }
    forall i | 0 <= i < |s| ensures Linked(s, i) {
      assert old(Linked(s, i));
    }
  }

  /** The head of one list becomes the head of the other. */
  method Push(bp: Block, full: Block?, ghost a: seq<Block>, ghost s: seq<Block>) returns (h: Block?)
    requires Chain(bp, a) && Chain(full, s) && Distinct(a) && Distinct(s) && a != [] && forall b :: b in s ==> b !in a
    modifies bp`next
    ensures Chain(h, a[1..]) && Chain(bp, [bp] + s) && Distinct(a[1..]) && Distinct([bp] + s) && bp !in a[1..]
  {
    ghost var a', s' := a[1..], [bp] + s;
    assert Linked(a, 0);
    h := bp.next;
    bp.next := full;
    forall i | 0 <= i < |s'| ensures Linked(s', i) {
      assert i > 0 ==> s'[i] in s && old(Linked(s, i - 1));
    }
    forall i | 0 <= i < |a'| ensures Linked(a', i) {
      assert old(Linked(a, i + 1));
    }
    DistinctInsert([], bp, s);
    assert [] + s == s && [] + [bp] + s == s';
    DistinctRemove([], bp, a');
    assert [] + [bp] + a' == a && [] + a' == a';
  }

  /** Moves bp from behind bprev to behind p, if it is not there already. */
  method MoveAfter(p: Block, bprev: Block, bp: Block, ghost h: Block?, ghost u: seq<Block>, ghost r1: seq<Block>, ghost r2: seq<Block>)
    requires Chain(h, u + r1 + [bp] + r2) && Distinct(u + r1 + [bp] + r2)
    requires u != [] && p == u[|u| - 1] && bprev == (u + r1)[|u + r1| - 1]
    modifies p`next, bprev`next, bp`next
    ensures Chain(h, u + [bp] + (r1 + r2)) && Distinct(u + [bp] + (r1 + r2))
  {
    ghost var a, j := u + r1 + [bp] + r2, |u + r1|;
    assert a[j] == bp && a[j - 1] == bprev && a[|u| - 1] == p;
    assert Linked(a, |u| - 1);
    if bp != p.next {
      SkipNext(bprev, bp, h, a, j);
      ghost var a1 := Without(a, j);
      assert a1 == u + r1 + r2 == u + (r1 + r2);
      DistinctRemove(u + r1, bp, r2);
      InsertAfter(p, bp, h, a1, |u| - 1);
      DistinctInsert(u, bp, r1 + r2);
      assert Inserted(a1, |u| - 1, bp) == u + [bp] + (r1 + r2);
    } else {
      assert a[|u|] == bp;
      assert r1 == [];
      assert a == u + [bp] + (r1 + r2);
    }
  }

  // ------------------------------------------------------------------ one memory type

  /** What a caller was given: len bytes at addr. */
  datatype Chunk = Chunk(block: Block, addr: nat, len: nat)

  predicate DisjointChunks(c: Chunk, d: Chunk) {
    c.addr + c.len <= d.addr || d.addr + d.len <= c.addr
  }

  /** A value returned by getlevel: the address, the place of its block, and how many chunks there were. */
  datatype Mark = Mark(place: nat, addr: nat, count: nat)

  predicate Earlier(m: Mark, m': Mark) {
    m.place <= m'.place && m.count <= m'.count && (m.place == m'.place ==> m.addr <= m'.addr)
  }

  /** The chunk was there when the mark was taken. */
  ghost predicate Below(m: Mark, u: seq<Block>, c: Chunk)
    requires m.place < |u|
  {
    c.block in u[..m.place + 1] && (c.block == u[m.place] ==> c.addr + c.len <= m.addr)
  }

  /** The chunk was handed out later. */
  ghost predicate Above(m: Mark, u: seq<Block>, c: Chunk)
    requires m.place < |u|
  {
    c.block in u[m.place..] && (c.block == u[m.place] ==> m.addr <= c.addr)
  }

  /** The mark divides the chunks into those before it and those after it. */
  ghost predicate Good(m: Mark, u: seq<Block>, live: seq<Chunk>) {
    && m.place < |u| && u[m.place].area <= m.addr && m.count <= |live|
    && (forall i {:trigger live[i]} :: 0 <= i < m.count ==> Below(m, u, live[i]))
    && (forall i {:trigger live[i]} :: m.count <= i < |live| ==> Above(m, u, live[i]))
  }

  lemma GoodWithBlock(m: Mark, u: seq<Block>, b: Block, live: seq<Chunk>)
    requires Good(m, u, live)
    ensures Good(m, u + [b], live) && (u + [b])[m.place] == u[m.place]
  {
    assert (u + [b])[..m.place + 1] == u[..m.place + 1] && (u + [b])[m.place..] == u[m.place..] + [b];
  }

  lemma GoodWithChunk(m: Mark, u: seq<Block>, live: seq<Chunk>, c: Chunk)
    requires Good(m, u, live) && c.block == u[|u| - 1] && (m.place == |u| - 1 ==> m.addr <= c.addr) && Distinct(u)
    ensures Good(m, u, live + [c])
  {
    assert u[m.place..][|u| - 1 - m.place] == c.block;
  }

  /** Going back to the mark n keeps the mark m that was taken before it. */
  lemma GoodCut(m: Mark, n: Mark, u: seq<Block>, live: seq<Chunk>)
    requires Good(m, u, live) && Good(n, u, live) && Earlier(m, n) && Distinct(u)
    ensures Good(m, u[..n.place + 1], live[..n.count])
  {
    var u' := u[..n.place + 1];
    assert u'[..m.place + 1] == u[..m.place + 1];
    forall i | m.count <= i < n.count ensures live[i].block in u'[m.place..] {
      assert Above(m, u, live[i]) && Below(n, u, live[i]);
      InBoth(u, m.place, n.place + 1, live[i].block);
    }
  }

  lemma InBoth(u: seq<Block>, lo: nat, hi: nat, b: Block)
    requires lo <= hi <= |u| && Distinct(u) && b in u[lo..] && b in u[..hi]
    ensures b in u[..hi][lo..]
  {
    var i :| 0 <= i < hi && u[..hi][i] == b;
    var k :| 0 <= k < |u| - lo && u[lo..][k] == b;
    assert u[i] == u[lo + k];
    assert u[..hi][lo..][k] == b;
  }

  /** n bytes at the next aligned address stay inside the malloc'ed bytes. */
  ghost predicate Takes(b: Block, n: nat)
    reads b
  {
    Align(b.cur) + n <= b.area + b.size + NALIGN
  }

  /** A block of which so little is left that it leaves the head of the active list. */
  ghost predicate Little(b: Block)
    reads b
  {
    b.area + b.size - b.cur < BLOCK_WASTE
  }

  ghost predicate Fits(b: Block, n: nat)
    reads b
  {
    b.cur + n < b.area + b.size
  }

  class Region {
    var blockhead: Block?
    var blockinuse: Block?
    var blockfull: Block?
    var stackmem: bool
    var size: nat

    /** The active list up to and including blockinuse, the rest of it, and the full list. */
    ghost var used: seq<Block>
    ghost var rest: seq<Block>
    ghost var spent: seq<Block>
    ghost var repr: set<Block>

    ghost var live: seq<Chunk>
    ghost var marks: seq<Mark>

    /** The levels that were handed out while there were full blocks. */
    ghost var refused: seq<Mark>

    /** Each block is on exactly one of the two lists, once. */
    ghost predicate Lists()
      reads this, used, rest, spent, repr
    {
      && Chain(blockhead, used + rest) && Chain(blockfull, spent)
      && Distinct(used + rest) && Distinct(spent) && (forall b :: b in spent ==> b !in used && b !in rest)
      && (forall b :: b in repr ==> b in used || b in rest || b in spent)
      && (forall b :: b in used ==> b in repr) && (forall b :: b in rest ==> b in repr) && (forall b :: b in spent ==> b in repr)
    }

    /** In heap mode blockinuse is the tail of the active list. */
    ghost predicate Shape()
      reads this, used, rest, spent, repr
    {
      && Lists()
      && blockinuse == (if used == [] then null else used[|used| - 1])
      && (used == [] ==> rest == [] && spent == [])
      && (!stackmem ==> rest == [])
    }

    ghost predicate Areas()
      reads this, used, rest, spent, repr
    {
      && (forall b :: b in repr ==> b.area <= b.cur <= b.area + b.size + NALIGN && b.size <= BlockSize(size))
      && (forall b, c {:trigger Apart(b, c)} :: b in repr && c in repr && b != c ==> Apart(b, c))
      && (forall b :: b in rest ==> b.cur == b.area)
      && (used != [] ==> size >= CLICK)
    }

    /** The chunk lies inside the used part of its block. */
    ghost predicate Inside(c: Chunk)
      reads this, used, rest, spent, repr
    {
      (c.block in used || c.block in spent) && c.block.area <= c.addr && c.addr + c.len <= c.block.cur
    }

    ghost predicate Chunks()
      reads this, used, rest, spent, repr
    {
      && (forall i {:trigger Inside(live[i])} :: 0 <= i < |live| ==> Inside(live[i]))
      && (forall i, j :: 0 <= i < j < |live| ==> DisjointChunks(live[i], live[j]))
    }

    ghost predicate MarkOk(m: Mark)
      reads this, used
    {
      Good(m, used, live) && m.addr <= used[m.place].cur
    }

    ghost predicate Marks()
      reads this, used
    {
      && (marks != [] ==> stackmem && spent == [])
      && (refused != [] ==> stackmem && spent != [])
      && (forall m :: m in refused ==> m.count <= |live|)
      && (forall j {:trigger MarkOk(marks[j])} :: 0 <= j < |marks| ==> MarkOk(marks[j]))
      && (forall i, j {:trigger Earlier(marks[i], marks[j])} :: 0 <= i < j < |marks| ==> Earlier(marks[i], marks[j]))
    }

    ghost predicate Sound()
      reads this, used, rest, spent, repr
    {
      Shape() && Areas() && Chunks() && Marks()
    }

    ghost predicate Valid()
      reads this, used, rest, spent, repr
    {
      Sound() && (stackmem ==> used != [])
    }

    constructor ()
      ensures Valid() && used == rest == spent == [] && live == [] && marks == refused == [] && !stackmem && repr == {}
    {
      blockhead, blockinuse, blockfull, stackmem, size := null, null, null, false, 0;
      used, rest, spent, repr, live, marks, refused := [], [], [], {}, [], [], [];
    }

    // ---------------------------------------------------------------- moremem

    /** Where the growth of the next block starts: CLICK_FIRST is also CLICK_FINAL. */
    function StartSize(): (g: nat)
      requires blockinuse != null ==> size > 0
      reads this
      ensures g > 0
    {
      if blockinuse == null then CLICK else if size < CLICK then 2 * size else size
    }

    /** The size of the next block. */
    function NextSize(n: nat): (g: nat)
      requires blockinuse != null ==> size > 0
      reads this
      ensures g >= n
    {
      Grown(StartSize(), n)
    }

    /** A new block would be large enough for n bytes. */
    predicate Enough(n: nat)
      requires blockinuse != null ==> size > 0
      reads this
    {
      n <= BlockSize(NextSize(n)) + NALIGN
    }

    /** malloc returned memory for an area of m bytes and the slop. */
    ghost predicate Room(where: nat, m: int)
      reads this
    {
      where % NALIGN == 0 && forall b :: b in repr ==>
        where + m + NALIGN + HEADER <= b.area || b.area + b.size + NALIGN + HEADER <= where
    }

    /** The growth loop of moremem compares n with the raw size.  If the new block is too small for n
        after all, no other block has room for n either. */
    lemma Oversized(n: nat, b: Block)
      requires Shape() && Areas() && blockinuse != null && b in repr
      ensures n >= BlockSize(NextSize(n)) ==> !Fits(b, n)
    {
    }

    /** Looks for a block with enough room, from place j0 of the active list on. */
    method FindFit(start: Block?, n: nat, ghost j0: nat) returns (bp: Block?, bprev: Block?, ghost j: nat)
      requires Shape() && j0 <= |used + rest|
      requires start == if j0 < |used + rest| then (used + rest)[j0] else null
      ensures j0 <= j <= |used + rest|
      ensures bp == if j < |used + rest| then (used + rest)[j] else null
      ensures bprev == if j == j0 then null else (used + rest)[j - 1]
      ensures bp != null ==> Fits(bp, n)
      ensures forall i :: j0 <= i < j ==> !Fits((used + rest)[i], n)
    {
      ghost var a := used + rest;
      bp, bprev, j := start, null, j0;
      while bp != null && bp.cur + n >= bp.area + bp.size
        invariant j0 <= j <= |a| && bp == (if j < |a| then a[j] else null)
        invariant bprev == (if j == j0 then null else a[j - 1])
        invariant forall i :: j0 <= i < j ==> !Fits(a[i], n)
        decreases |a| - j
      {
        assert Linked(a, j);
        bprev := bp;
        bp := bp.next;
        j := j + 1;
      }
    }

    /** bp becomes blockinuse, in front of the empty blocks. */
    method Append(bp: Block)
      requires Shape() && Areas() && bp !in repr && bp.next == null && bp.area <= bp.cur <= bp.area + bp.size + NALIGN && bp.size <= BlockSize(size) && size >= CLICK
      requires forall c :: c in repr ==> Apart(bp, c) && Apart(c, bp)
      modifies this`blockhead, this`blockinuse, this`used, this`repr, used`next, bp`next
      ensures Shape() && Areas() && used == old(used) + [bp] && blockinuse == bp && repr == old(repr) + {bp}
    {
      ghost var a := used + rest;
      DistinctInsert(used, bp, rest);
      if blockinuse == null {
        blockhead, blockinuse := bp, bp;
        used := [bp];
        assert Linked(used + rest, 0);
      } else {
        ghost var i0 := |used| - 1;
        InsertAfter(blockinuse, bp, blockhead, a, i0);
        blockinuse := bp;
        used := used + [bp];
        assert used + rest == Inserted(a, i0, bp);
      }
      repr := repr + {bp};
      forall i | 0 <= i < |spent| ensures Linked(spent, i) {
        assert spent[i] in spent && old(Linked(spent, i));
      }
    }

    /** A new block becomes blockinuse. */
    method AddBlock(n: nat, where: nat)
      requires Shape() && Areas() && Room(where, BlockSize(NextSize(n)))
      modifies this`blockhead, this`blockinuse, this`size, this`used, this`repr, used`next
      ensures Shape() && Areas() && fresh(blockinuse) && used == old(used) + [blockinuse]
      ensures Takes(blockinuse, n) <==> old(Enough(n))
      ensures blockinuse.area == where && blockinuse.size == BlockSize(old(NextSize(n))) && size == old(NextSize(n))
        && blockinuse.cur == where
      ensures repr == old(repr) + {blockinuse}
    {
      size := Grow(StartSize(), n);
      var bp := new Block(where, BlockSize(size));
      Append(bp);
    }

    /** Stack mode: an empty block after blockinuse becomes blockinuse. */
    method TakeLater(bp: Block, bprev: Block, ghost j: nat, n: nat)
      requires Shape() && Areas() && stackmem && used != [] && |used| <= j < |used + rest|
      requires bp == (used + rest)[j] && bprev == (used + rest)[j - 1] && Fits(bp, n)
      modifies this`blockinuse, this`used, this`rest, used`next, rest`next
      ensures Shape() && Areas() && used == old(used) + [bp] && Takes(bp, n)
      ensures forall b :: b in rest ==> b in old(rest)
    {
      ghost var k := j - |used|;
      ghost var r1, r2 := rest[..k], rest[k + 1..];
      assert rest == r1 + [bp] + r2 && used + rest == used + r1 + [bp] + r2;
      assert (used + r1)[j - 1] == bprev;
      MoveAfter(blockinuse, bprev, bp, blockhead, used, r1, r2);
      blockinuse := bp;
      used, rest := used + [bp], r1 + r2;
      forall i | 0 <= i < |spent| ensures Linked(spent, i) {
        assert spent[i] in spent && old(Linked(spent, i));
      }
    }

    /** Heap mode: takes the block at place j out of the active list. */
    method TakeOut(bp: Block, bprev: Block?, ghost j: nat) returns (ghost a: seq<Block>)
      requires Chain(blockhead, used) && Distinct(used) && j < |used| - 1
      requires bp == used[j] && bprev == if j == 0 then null else used[j - 1]
      modifies this`blockhead, used`next
      ensures a == Without(used, j) && Chain(blockhead, a) && Distinct(a) && bp !in a
      ensures a[|a| - 1] == used[|used| - 1]
    {
      a := Without(used, j);
      assert used == used[..j] + [bp] + used[j + 1..];
      DistinctRemove(used[..j], bp, used[j + 1..]);
      if bprev == null {
        assert Linked(used, 0);
        blockhead := bp.next;
        forall i | 0 <= i < |a| ensures Linked(a, i) {
          assert a[i] == used[i + 1] && Linked(used, i + 1);
        }
      } else {
        SkipNext(bprev, bp, blockhead, used, j);
      }
    }

    /** Heap mode: a block with enough room moves to the end of the active list. */
    method MoveToEnd(bp: Block, bprev: Block?, ghost j: nat)
      requires Shape() && Areas() && !stackmem && j < |used| - 1
      requires bp == used[j] && bprev == if j == 0 then null else used[j - 1]
      modifies this`blockhead, this`blockinuse, this`used, used`next
      ensures Shape() && Areas() && used == old(Without(used, j)) + [bp] && blockinuse == bp
    {
      assert used + rest == used;
      ghost var a := Requeue(bp, bprev, blockinuse, j);
      blockinuse := bp;
      used := a;
      assert used + rest == used;
      forall i | 0 <= i < |spent| ensures Linked(spent, i) {
        assert spent[i] in spent && old(Linked(spent, i));
      }
    }

    /** The surgery on the links. */
    method Requeue(bp: Block, bprev: Block?, tail: Block, ghost j: nat) returns (ghost a: seq<Block>)
      requires Chain(blockhead, used) && Distinct(used) && j < |used| - 1 && tail == used[|used| - 1]
      requires bp == used[j] && bprev == if j == 0 then null else used[j - 1]
      modifies this`blockhead, used`next
      ensures a == Without(used, j) + [bp] && Chain(blockhead, a) && Distinct(a)
      ensures (forall b :: b in used ==> b in a) && forall b :: b in a ==> b in used
    {
      ghost var a1 := TakeOut(bp, bprev, j);
      DistinctInsert(a1, bp, []);
      assert a1 + [] == a1 && a1 + [bp] + [] == a1 + [bp];
      InsertAfter(tail, bp, blockhead, a1, |a1| - 1);
      a := a1 + [bp];
      assert Inserted(a1, |a1| - 1, bp) == a;
      assert used == used[..j] + [bp] + used[j + 1..];
    }

    /** The head of the active list goes to the full list. */
    method Retire(ghost all: set<Block>)
      requires Shape() && Areas() && !stackmem && |used| > 1 && forall b :: b in used ==> b in all
      modifies this`blockhead, this`blockfull, this`used, this`spent, all`next
      ensures Shape() && Areas() && used == old(used[1..]) && spent == [old(used[0])] + old(spent)
    {
      var bp := blockhead;
      assert used + rest == used && used == [bp] + used[1..];
      blockhead := Push(bp, blockfull, used, spent);
      blockfull := bp;
      spent := [bp] + spent;
      used := used[1..];
      assert used + rest == used;
    }

    /** Removes blocks with little room from the head of the active list. */
    method Trim(ghost all: set<Block>)
      requires Shape() && Areas() && !stackmem && used != [] && forall b :: b in used ==> b in all
      modifies this`blockhead, this`blockfull, this`used, this`spent, all`next
      ensures Shape() && Areas() && used != [] && blockinuse == old(blockinuse) && HeadHasRoom() && OnlyLittle(old(spent))
    {
      while blockhead.next != null && blockhead.area + blockhead.size - blockhead.cur < BLOCK_WASTE
        invariant Shape() && Areas() && used != [] && blockinuse == old(blockinuse) && !stackmem && OnlyLittle(old(spent))
        invariant forall b :: b in used ==> b in all
        decreases |used|
      {
        assert used + rest == used && Linked(used, 0);
        Retire(all);
      }
      assert used + rest == used && Linked(used, 0);
    }

    /** Only blocks with little room have joined the full list. */
    ghost predicate OnlyLittle(before: seq<Block>)
      reads this, spent
    {
      forall b :: b in spent ==> b in before || Little(b)
    }

    /** A full block is not at the head of the active list, unless it is the only one. */
    ghost predicate HeadHasRoom()
      reads this, used
    {
      |used| > 1 ==> !Little(used[0])
    }

    /** Stack mode: the next empty block with room for n bytes, or a new one, becomes blockinuse. */
    method ProvideStack(n: nat, where: nat)
      requires Shape() && Areas() && stackmem && (blockinuse == null || !Fits(blockinuse, n))
      requires Room(where, BlockSize(NextSize(n)))
      modifies this`blockhead, this`blockinuse, this`size, this`used, this`rest, this`repr, used`next, rest`next
      ensures Shape() && Areas() && blockinuse != null && used == old(used) + [blockinuse]
      ensures Takes(blockinuse, n) <==> old(Enough(n))
      ensures repr == old(repr) || (repr == old(repr) + {blockinuse} && fresh(blockinuse))
      ensures repr != old(repr) ==>
        blockinuse.area == where && blockinuse.size == BlockSize(old(NextSize(n))) && size == old(NextSize(n))
        && blockinuse.cur == where
    {
      var bp, bprev;
      ghost var j;
      bp, bprev, j := FindFit(blockinuse, n, if used == [] then 0 else |used| - 1);
      if bp == null {
        AddBlock(n, where);
      } else {
        Oversized(n, bp);
        TakeLater(bp, bprev, j, n);
      }
    }

    /** Heap mode: the first block with room for n bytes, or a new one, becomes the tail. */
    method ProvideHeap(n: nat, where: nat)
      requires Shape() && Areas() && !stackmem && (blockinuse == null || !Fits(blockinuse, n))
      requires Room(where, BlockSize(NextSize(n)))
      modifies this`blockhead, this`blockinuse, this`size, this`used, this`repr, used`next
      ensures Shape() && Areas() && blockinuse != null
      ensures Takes(blockinuse, n) <==> old(Enough(n))
      ensures repr == old(repr) || (repr == old(repr) + {blockinuse} && fresh(blockinuse))
      ensures repr != old(repr) ==>
        blockinuse.area == where && blockinuse.size == BlockSize(old(NextSize(n))) && size == old(NextSize(n))
        && blockinuse.cur == where
    {
      assert used + rest == used;
      var bp, bprev;
      ghost var j;
      bp, bprev, j := FindFit(blockhead, n, 0);
      if bp == null {
        AddBlock(n, where);
      } else {
        Oversized(n, bp);
        MoveToEnd(bp, bprev, j);
      }
    }

    /** Stack mode keeps what was handed out and all marks. */
    method MoreStack(n: nat, where: nat)
      requires Sound() && stackmem && (blockinuse == null || !Fits(blockinuse, n))
      requires Room(where, BlockSize(NextSize(n)))
      modifies this`blockhead, this`blockinuse, this`size, this`used, this`rest, this`repr, used`next, rest`next
      ensures Valid() && blockinuse != null && used == old(used) + [blockinuse]
      ensures Takes(blockinuse, n) <==> old(Enough(n))
      ensures repr == old(repr) || (repr == old(repr) + {blockinuse} && fresh(blockinuse))
      ensures repr != old(repr) ==>
        blockinuse.area == where && blockinuse.size == BlockSize(old(NextSize(n))) && size == old(NextSize(n))
        && blockinuse.cur == where
    {
      ProvideStack(n, where);
      forall i | 0 <= i < |live| ensures Inside(live[i]) {
        assert old(Inside(live[i]));
      }
      forall i | 0 <= i < |marks| ensures MarkOk(marks[i]) {
        assert old(MarkOk(marks[i]));
        GoodWithBlock(marks[i], old(used), blockinuse, live);
      }
    }

    method ProvideAndTrim(n: nat, where: nat)
      requires Shape() && Areas() && !stackmem && (blockinuse == null || !Fits(blockinuse, n))
      requires Room(where, BlockSize(NextSize(n)))
      modifies this`blockhead, this`blockinuse, this`blockfull, this`size, this`used, this`spent, this`repr, used`next
      ensures Shape() && Areas() && blockinuse != null && HeadHasRoom() && OnlyLittle(old(spent))
      ensures Takes(blockinuse, n) <==> old(Enough(n))
      ensures repr == old(repr) || (repr == old(repr) + {blockinuse} && fresh(blockinuse))
      ensures repr != old(repr) ==>
        blockinuse.area == where && blockinuse.size == BlockSize(old(NextSize(n))) && size == old(NextSize(n))
        && blockinuse.cur == where
    {
      ProvideHeap(n, where);
      Trim(set b <- used);
    }

    method MoreHeap(n: nat, where: nat)
      requires Sound() && !stackmem && (blockinuse == null || !Fits(blockinuse, n))
      requires Room(where, BlockSize(NextSize(n)))
      modifies this`blockhead, this`blockinuse, this`blockfull, this`size, this`used, this`spent, this`repr, used`next
      ensures Valid() && blockinuse != null
      ensures Takes(blockinuse, n) <==> old(Enough(n))
      ensures HeadHasRoom() && OnlyLittle(old(spent))
      ensures repr == old(repr) || (repr == old(repr) + {blockinuse} && fresh(blockinuse))
      ensures repr != old(repr) ==>
        blockinuse.area == where && blockinuse.size == BlockSize(old(NextSize(n))) && size == old(NextSize(n))
        && blockinuse.cur == where
    {
      ProvideAndTrim(n, where);
      forall i | 0 <= i < |live| ensures Inside(live[i]) {
        assert old(Inside(live[i]));
      }
    }

    /** moremem: afterwards blockinuse has room for n bytes, exactly if a new block would have. */
    method MoreMem(n: nat, where: nat)
      requires Sound() && (blockinuse == null || !Fits(blockinuse, n))
      requires Room(where, BlockSize(NextSize(n)))
      modifies this`blockhead, this`blockinuse, this`blockfull, this`size, this`used, this`rest, this`spent, this`repr, used`next, rest`next
      ensures Valid() && blockinuse != null
      ensures Takes(blockinuse, n) <==> old(Enough(n))
      ensures !stackmem ==> HeadHasRoom()
      ensures OnlyLittle(old(spent))
      ensures stackmem ==> used == old(used) + [blockinuse] && spent == old(spent)
      ensures repr == old(repr) || (repr == old(repr) + {blockinuse} && fresh(blockinuse))
      ensures repr != old(repr) ==>
        blockinuse.area == where && blockinuse.size == BlockSize(old(NextSize(n))) && size == old(NextSize(n))
        && blockinuse.cur == where
    {
      if stackmem {
        MoreStack(n, where);
      } else {
        MoreHeap(n, where);
      }
    }

    // ---------------------------------------------------------------- allocation

    /** If a new block is needed for n bytes, there is memory for it. */
    ghost predicate CanServe(n: nat, where: nat)
      requires Shape() && Areas()
      reads this, used, rest, spent, repr
    {
      blockinuse == null || !Fits(blockinuse, n) ==> Room(where, BlockSize(NextSize(n)))
    }

    /** blockinuse->cur = v */
    method Raise(v: nat)
      requires Valid() && blockinuse != null && blockinuse.cur <= v
      modifies blockinuse`cur
      ensures Valid() <==> v <= blockinuse.area + blockinuse.size + NALIGN
      ensures blockinuse.cur == v
    {
      DistinctParts(used, rest);
      assert blockinuse in used;
      SetCur(blockinuse, v, blockhead, used + rest, blockfull, spent);
      forall i | 0 <= i < |live| ensures Inside(live[i]) {
        assert old(Inside(live[i]));
      }
      forall j | 0 <= j < |marks| ensures MarkOk(marks[j]) {
        assert old(MarkOk(marks[j]));
      }
    }

    /** c was handed out last. */
    ghost method Record(c: Chunk)
      requires Valid() && blockinuse != null && c.block == blockinuse && Inside(c)
      requires forall i :: 0 <= i < |live| ==> DisjointChunks(live[i], c)
      requires forall j {:trigger marks[j]} :: 0 <= j < |marks| && marks[j].place == |used| - 1 ==> marks[j].addr <= c.addr
      modifies this`live
      ensures Valid() && live == old(live) + [c]
    {
      DistinctPrefix(used, rest);
      live := live + [c];
      forall i | 0 <= i < |live| ensures Inside(live[i]) {
        assert i < |live| - 1 ==> old(Inside(live[i]));
      }
      forall j | 0 <= j < |marks| ensures MarkOk(marks[j]) {
        assert old(MarkOk(marks[j]));
        GoodWithChunk(marks[j], used, old(live), c);
      }
    }

    /** Takes the next n bytes of blockinuse. */
    method Bump(n: nat, aligned: bool) returns (cp: nat)
      requires Valid() && blockinuse != null
      modifies this`live, blockinuse`cur
      ensures Valid() <==> cp + n <= blockinuse.area + blockinuse.size + NALIGN
      ensures live == old(live) + [Chunk(blockinuse, cp, n)]
      ensures aligned ==> cp % NALIGN == 0
      ensures cp == (if aligned then Align(old(blockinuse.cur)) else old(blockinuse.cur)) && cp + n == blockinuse.cur
    {
      cp := if aligned then Align(blockinuse.cur) else blockinuse.cur;
      ghost var c := Chunk(blockinuse, cp, n);
      if cp + n <= blockinuse.area + blockinuse.size + NALIGN { NothingThere(cp, n); }
      Raise(cp + n);
      if cp + n <= blockinuse.area + blockinuse.size + NALIGN {
        Record(c);
      } else {
        live := live + [c];
      }
    }

    /** GETALIGNED_ and GETMEMORY_: n bytes that overlap nothing handed out before.  They stay inside their
        block, and the memory stays in order, exactly if a new block would be large enough. */
    method Alloc(n: nat, aligned: bool, where: nat) returns (cp: nat)
      requires Valid() && CanServe(n, where)
      modifies this, repr
      ensures Valid() <==> old(Enough(n))
      ensures blockinuse != null && blockinuse in repr && live == old(live) + [Chunk(blockinuse, cp, n)]
      ensures aligned ==> cp % NALIGN == 0
      ensures blockinuse.area <= cp && cp + n == blockinuse.cur
      ensures cp + n <= blockinuse.area + blockinuse.size + NALIGN <==> old(Enough(n))
      ensures repr != old(repr) ==> cp == where
      ensures marks == old(marks) && refused == old(refused) && stackmem == old(stackmem) && (stackmem ==> spent == old(spent))
      ensures forall b :: b in old(repr) && b != blockinuse ==> b.cur == old(b.cur)
      ensures !stackmem && !old(blockinuse != null && Fits(blockinuse, n)) && |used| > 1 && used[0] != blockinuse ==> !Little(used[0])
      ensures OnlyLittle(old(spent))
      ensures repr == old(repr) || (repr == old(repr) + {blockinuse} && fresh(blockinuse))
      ensures repr != old(repr) ==>
        blockinuse.area == where && blockinuse.size == BlockSize(old(NextSize(n))) && size == old(NextSize(n))
    {
      EnsureRoom(n, where);
      assert blockinuse in used;
      cp := Bump(n, aligned);
    }

    /** What was handed out before, and the marks, end at or before the next address. */
    lemma NothingThere(cp: nat, n: nat)
      requires Valid() && blockinuse != null && blockinuse.cur <= cp && cp + n <= blockinuse.area + blockinuse.size + NALIGN
      ensures forall i :: 0 <= i < |live| ==> DisjointChunks(live[i], Chunk(blockinuse, cp, n))
      ensures forall j {:trigger marks[j]} :: 0 <= j < |marks| && marks[j].place == |used| - 1 ==> marks[j].addr <= cp
    {
      forall i | 0 <= i < |live| ensures DisjointChunks(live[i], Chunk(blockinuse, cp, n)) {
        assert Inside(live[i]);
        assert live[i].block != blockinuse ==> Apart(live[i].block, blockinuse);
      }
      forall j {:trigger marks[j]} | 0 <= j < |marks| && marks[j].place == |used| - 1 ensures marks[j].addr <= cp {
        assert MarkOk(marks[j]);
      }
    }

    /** The test in front of every allocation. */
    method EnsureRoom(n: nat, where: nat)
      requires Valid() && CanServe(n, where)
      modifies this`blockhead, this`blockinuse, this`blockfull, this`size, this`used, this`rest, this`spent, this`repr, used`next, rest`next
      ensures Valid() && blockinuse != null && (stackmem ==> spent == old(spent))
      ensures Takes(blockinuse, n) <==> old(Enough(n))
      ensures !stackmem && !old(blockinuse != null && Fits(blockinuse, n)) ==> HeadHasRoom()
      ensures OnlyLittle(old(spent))
      ensures repr == old(repr) || (repr == old(repr) + {blockinuse} && fresh(blockinuse))
      ensures repr != old(repr) ==>
        blockinuse.area == where && blockinuse.size == BlockSize(old(NextSize(n))) && size == old(NextSize(n))
        && blockinuse.cur == where && where % NALIGN == 0
    {
      if blockinuse == null || blockinuse.cur + n >= blockinuse.area + blockinuse.size {
        MoreMem(n, where);
      }
    }

    // ---------------------------------------------------------------- levels

    /** getlevel: from now on the memory is a stack; the result is the current allocation point.  The code
        hands out a level also while there are full blocks, although setlevel will refuse it. */
    method GetLevel(where: nat) returns (s: nat)
      requires Valid() && (blockinuse == null ==> Room(where, BlockSize(CLICK)))
      modifies this, repr
      ensures Valid() && stackmem && live == old(live) && spent == old(spent) && blockinuse != null && s == blockinuse.cur
      ensures var m := Mark(|used| - 1, s, |live|);
        if spent == [] then marks == old(marks) + [m] && refused == old(refused)
        else marks == old(marks) && refused == old(refused) + [m]
      ensures old(blockinuse) != null ==> blockinuse == old(blockinuse) && s == old(blockinuse.cur) && repr == old(repr)
      ensures repr == old(repr) || (repr == old(repr) + {blockinuse} && fresh(blockinuse))
    {
      StackMode();
      if blockinuse == null { MoreMem(0, where); }
      s := blockinuse.cur;
      if spent == [] { PushMark(); } else { PushRefused(); }
    }

    ghost method PushRefused()
      requires Valid() && stackmem && spent != []
      modifies this`refused
      ensures Valid() && refused == old(refused) + [Mark(|used| - 1, blockinuse.cur, |live|)]
    {
      refused := refused + [Mark(|used| - 1, blockinuse.cur, |live|)];
      forall i | 0 <= i < |live| ensures Inside(live[i]) {
        assert old(Inside(live[i]));
      }
    }

    /** stackmem |= (1<<memtype) */
    method StackMode()
      requires Valid()
      modifies this`stackmem
      ensures Sound() && stackmem
    {
      stackmem := true;
      forall i | 0 <= i < |marks| ensures MarkOk(marks[i]) {
        assert old(MarkOk(marks[i]));
      }
      forall i | 0 <= i < |live| ensures Inside(live[i]) {
        assert old(Inside(live[i]));
      }
    }

    ghost method PushMark()
      requires Valid() && stackmem && spent == []
      modifies this`marks
      ensures Valid() && marks == old(marks) + [Mark(|used| - 1, blockinuse.cur, |live|)]
    {
      var m := Mark(|used| - 1, blockinuse.cur, |live|);
      assert used[..m.place + 1] == used;
      forall i | 0 <= i < |live| ensures Below(m, used, live[i]) && Inside(live[i]) {
        assert Inside(live[i]);
      }
      forall i | 0 <= i < |marks| ensures MarkOk(marks[i]) && Earlier(marks[i], m) {
      }
      marks := marks + [m];
      forall i | 0 <= i < |marks| ensures MarkOk(marks[i]) {
        assert i < |old(marks)| ==> old(MarkOk(marks[i]));
      }
      forall i | 0 <= i < |live| ensures Inside(live[i]) {
        assert old(Inside(live[i]));
      }
    }

    /** The block of the active list that contains s. */
    method FindBlock(s: nat) returns (bp: Block?, ghost p: nat)
      requires Shape()
      ensures p <= |used + rest| && bp == if p < |used + rest| then (used + rest)[p] else null
      ensures bp != null ==> bp.area <= s <= bp.cur
      ensures bp == null ==> forall b :: b in used + rest ==> !(b.area <= s <= b.cur)
    {
      ghost var a := used + rest;
      bp, p := blockhead, 0;
      while bp != null && !(bp.area <= s && bp.cur >= s)
        invariant p <= |a| && bp == if p < |a| then a[p] else null
        invariant forall i :: 0 <= i < p ==> !(a[i].area <= s <= a[i].cur)
        decreases |a| - p
      {
        assert Linked(a, p);
        bp := bp.next;
        p := p + 1;
      }
    }

    /** Empties the blocks of the active list after place p. */
    method ResetAfter(bp: Block, ghost a: seq<Block>, ghost p: nat)
      requires Chain(blockhead, a) && Chain(blockfull, spent) && Distinct(a) && p < |a| && bp == a[p]
      modifies a`cur
      ensures Chain(blockhead, a) && Chain(blockfull, spent)
      ensures forall i :: p < i < |a| ==> a[i].cur == a[i].area
      ensures forall i :: 0 <= i <= p ==> a[i].cur == old(a[i].cur)
    {
      assert Linked(a, p);
      var b := bp.next;
      ghost var q := p + 1;
      while b != null
        invariant p < q <= |a| && b == (if q < |a| then a[q] else null)
        invariant Chain(blockhead, a) && Chain(blockfull, spent)
        invariant forall i :: p < i < q ==> a[i].cur == a[i].area
        invariant forall i :: 0 <= i <= p ==> a[i].cur == old(a[i].cur)
        decreases |a| - q
      {
        assert Linked(a, q);
        SetCur(b, b.area, blockhead, a, blockfull, spent);
        b := b.next;
        q := q + 1;
      }
    }

    /** Only one block contains an address. */
    lemma OnlyBlock(b: Block, c: Block, s: nat)
      requires Areas() && b in repr && c in repr && b.area <= s <= b.cur && c.area <= s <= c.cur
      ensures b == c
    {
      assert b != c ==> Apart(b, c);
    }

    lemma SamePlace(a: seq<Block>, p: nat, q: nat)
      requires Distinct(a) && p < |a| && q < |a| && a[p] == a[q]
      ensures p == q
    {
    }

    /** Makes bp, the block of the mark j, the current one, and its address the allocation point. */
    method Rewind(bp: Block, s: nat, reset: bool, ghost n: Mark)
      requires Valid() && stackmem && MarkOk(n) && n.addr == s
      requires bp == used[n.place] && (!reset ==> n.place == |used| - 1)
      modifies this`blockinuse, repr`cur
      ensures Lists() && Areas() && blockinuse == bp && bp.cur == s
      ensures forall i :: 0 <= i < n.place ==> used[i].cur == old(used[i].cur)
      ensures forall i :: n.place < i < |used + rest| ==> (used + rest)[i].cur == (used + rest)[i].area
    {
      ghost var a := used + rest;
      assert forall i :: 0 <= i < |used| ==> a[i] == used[i];
      assert forall i :: |used| <= i < |a| ==> a[i] in rest;
      SetCur(bp, s, blockhead, a, blockfull, spent);
      blockinuse := bp;
      if reset { ResetAfter(bp, a, n.place); }
    }

    /** Forgets what came after the mark j. */
    ghost method Cut(j: nat, n: Mark)
      requires Lists() && Areas() && stackmem && spent == [] && refused == [] && j < |marks| && n == marks[j] && Good(n, used, live)
      requires blockinuse == used[n.place] && blockinuse.cur == n.addr
      requires forall i :: n.place < i < |used + rest| ==> (used + rest)[i].cur == (used + rest)[i].area
      requires forall i {:trigger Inside(live[i])} :: 0 <= i < n.count ==> Inside(live[i])
      requires forall i, k :: 0 <= i < k < |live| ==> DisjointChunks(live[i], live[k])
      requires forall i {:trigger MarkOk(marks[i])} :: 0 <= i <= j ==> MarkOk(marks[i])
      requires forall i, k {:trigger Earlier(marks[i], marks[k])} :: 0 <= i < k < |marks| ==> Earlier(marks[i], marks[k])
      modifies this`used, this`rest, this`live, this`marks
      ensures Valid() && live == old(live)[..n.count] && marks == old(marks)[..j + 1]
    {
      var u, l := used, live;
      DistinctPrefix(u, rest);
      forall i | 0 <= i <= j ensures Good(marks[i], u, l) && marks[i].addr <= u[marks[i].place].cur {
        assert MarkOk(marks[i]);
      }
      CutBlocks(n.place);
      forall i | 0 <= i < n.count ensures Inside(live[i]) {
        assert old(Inside(live[i])) && Below(n, u, l[i]);
      }
      CutChunks(n.count);
      CutMarks(j, n, u, l);
    }

    ghost method CutMarks(j: nat, n: Mark, u: seq<Block>, l: seq<Chunk>)
      requires Shape() && Areas() && Chunks() && stackmem && spent == [] && refused == [] && j < |marks| && n == marks[j]
      requires Good(n, u, l) && Distinct(u) && used == u[..n.place + 1] && live == l[..n.count]
      requires forall i {:trigger marks[i]} :: 0 <= i <= j ==> Good(marks[i], u, l) && marks[i].addr <= u[marks[i].place].cur
      requires forall i, k {:trigger Earlier(marks[i], marks[k])} :: 0 <= i < k < |marks| ==> Earlier(marks[i], marks[k])
      modifies this`marks
      ensures Valid() && marks == old(marks)[..j + 1]
    {
      forall i | 0 <= i <= j ensures MarkOk(marks[i]) {
        assert i < j ==> Earlier(marks[i], marks[j]);
        GoodCut(marks[i], n, u, l);
      }
      DropMarks(j + 1);
    }

    ghost method DropMarks(k: nat)
      requires Shape() && Areas() && Chunks() && stackmem && used != [] && spent == [] && refused == [] && k <= |marks|
      requires forall i {:trigger MarkOk(marks[i])} :: 0 <= i < k ==> MarkOk(marks[i])
      requires forall i, k {:trigger Earlier(marks[i], marks[k])} :: 0 <= i < k < |marks| ==> Earlier(marks[i], marks[k])
      modifies this`marks
      ensures Valid() && marks == old(marks)[..k]
    {
      marks := marks[..k];
      forall i | 0 <= i < |live| ensures Inside(live[i]) {
        assert old(Inside(live[i]));
      }
      forall i | 0 <= i < |marks| ensures MarkOk(marks[i]) {
        assert old(MarkOk(marks[i]));
      }
    }

    ghost method CutChunks(k: nat)
      requires Shape() && Areas() && k <= |live|
      requires forall i {:trigger Inside(live[i])} :: 0 <= i < k ==> Inside(live[i])
      requires forall i, j :: 0 <= i < j < |live| ==> DisjointChunks(live[i], live[j])
      modifies this`live
      ensures Shape() && Areas() && Chunks() && live == old(live)[..k]
    {
      live := live[..k];
      forall i | 0 <= i < k ensures Inside(live[i]) {
        assert old(Inside(live[i]));
      }
    }

    /** The blocks after place p are no longer used. */
    ghost method CutBlocks(p: nat)
      requires Lists() && Areas() && stackmem && spent == [] && p < |used| && blockinuse == used[p]
      requires forall i :: p < i < |used + rest| ==> (used + rest)[i].cur == (used + rest)[i].area
      modifies this`used, this`rest
      ensures Shape() && Areas() && used == old(used)[..p + 1]
    {
      var u, a := used, used + rest;
      used, rest := u[..p + 1], u[p + 1..] + rest;
      assert used + rest == a && u == u[..p + 1] + u[p + 1..];
      forall b | b in rest ensures b.cur == b.area && b in a {
        var i :| 0 <= i < |rest| && rest[i] == b;
        assert a[p + 1 + i] == b;
      }
    }

    /** Goes back to the mark j. */
    method GoBack(bp: Block, s: nat, reset: bool, ghost j: nat)
      requires Valid() && stackmem && spent == [] && j < |marks| && marks[j].addr == s && marks[j].place < |used|
      requires bp == used[marks[j].place] && (!reset ==> marks[j].place == |used| - 1)
      modifies this`blockinuse, this`used, this`rest, this`live, this`marks, repr`cur
      ensures Valid() && blockinuse == bp && bp.cur == s && marks == old(marks)[..j + 1]
      ensures old(marks)[j].count <= |old(live)| && live == old(live)[..old(marks)[j].count]
    {
      ghost var n := marks[j];
      assert MarkOk(n);
      Rewind(bp, s, reset, n);
      forall i | 0 <= i < n.count ensures Inside(live[i]) {
        assert old(Inside(live[i])) && Below(n, used, live[i]);
        KeptBlock(used, n.place, live[i].block);
      }
      forall i | 0 <= i <= j ensures MarkOk(marks[i]) {
        assert old(MarkOk(marks[i])) && (i < j ==> Earlier(marks[i], marks[j]));
      }
      Cut(j, n);
    }

    lemma KeptBlock(u: seq<Block>, p: nat, b: Block)
      requires p < |u| && b in u[..p + 1]
      ensures b == u[p] || exists i :: 0 <= i < p && u[i] == b
    {
      var i :| 0 <= i <= p && u[..p + 1][i] == b;
      assert u[i] == b;
    }

    /** setlevel: goes back to the mark j, which releases exactly what was handed out after it.  A
        pointer into no block, memory that is not used as a stack, and memory with full blocks are refused,
        and everything stays as it is. */
    method SetLevel(s: nat, ghost j: nat) returns (ok: bool)
      requires Valid()
      requires !stackmem || blockfull != null || (j < |marks| && marks[j].addr == s)
        || forall b :: b in used + rest ==> !(b.area <= s <= b.cur)
      modifies this`blockinuse, this`used, this`rest, this`live, this`marks, repr`cur
      ensures Valid()
      ensures ok <==> old(stackmem) && old(blockfull) == null && j < |old(marks)| && old(marks)[j].addr == s
      ensures ok ==> old(marks)[j].count <= |old(live)| && live == old(live)[..old(marks)[j].count]
      ensures ok ==> marks == old(marks)[..j + 1] && blockinuse != null && blockinuse.cur == s
      ensures !ok ==> live == old(live) && marks == old(marks) && forall b :: b in repr ==> b.cur == old(b.cur)
    {
      if !stackmem || blockfull != null { return false; }
      if blockinuse.area <= s && blockinuse.cur >= s {
        FoundMark(blockinuse, |used| - 1, s, j);
        GoBack(blockinuse, s, false, j);
        return true;
      }
      if j < |marks| && marks[j].addr == s {
        assert MarkOk(marks[j]);
        assert used[marks[j].place] in used + rest;
      }
      var bp;
      ghost var p;
      bp, p := FindBlock(s);
      if bp == null { return false; }
      FoundMark(bp, p, s, j);
      GoBack(bp, s, true, j);
      ok := true;
    }

    /** Going back to any level that was handed out, after any later allocations: what came after it is
        released, and nothing else, exactly if the level was taken while there were no full blocks (or
        nothing came after it). */
    method ReturnTo(s: nat, ghost m: Mark, ghost j: nat) returns (ok: bool)
      requires Valid() && s == m.addr && ((j < |marks| && marks[j] == m) || m in refused)
      modifies this`blockinuse, this`used, this`rest, this`live, this`marks, repr`cur
      ensures Valid() && m.count <= |old(live)|
      ensures ok <==> m !in old(refused)
      ensures live == old(live)[..m.count] <==> m !in old(refused) || m.count == |old(live)|
      ensures m in old(refused) ==> live == old(live)
    {
      if j < |marks| { assert MarkOk(marks[j]); }
      assert refused != [] ==> blockfull != null;
      assert m !in refused ==> spent == [] && blockfull == null;
      ok := SetLevel(s, j);
    }

    /** The block that contains the address of a mark is the block of the mark. */
    lemma FoundMark(bp: Block, p: nat, s: nat, j: nat)
      requires Valid() && p < |used + rest| && bp == (used + rest)[p] && bp.area <= s <= bp.cur
      requires (j < |marks| && marks[j].addr == s) || forall b :: b in used + rest ==> !(b.area <= s <= b.cur)
      ensures j < |marks| && marks[j].addr == s && marks[j].place == p < |used| && bp == used[p]
    {
      assert bp in used + rest;
      assert MarkOk(marks[j]);
      var q := marks[j].place;
      assert (used + rest)[q] == used[q];
      OnlyBlock(bp, used[q], s);
      SamePlace(used + rest, p, q);
    }

    // ---------------------------------------------------------------- tfree

    /** The full blocks return to the head of the active list. */
    method Splice(ghost all: set<Block>) returns (ghost front: seq<Block>)
      requires Lists() && all == repr
      modifies this`blockhead, this`blockfull, all`next
      ensures blockfull == null && Chain(blockhead, front + used + rest) && Distinct(front + used + rest)
      ensures (forall b :: b in spent ==> b in front) && forall b :: b in front ==> b in spent
    {
      var bp := blockfull;
      ghost var left: seq<Block>, act: seq<Block> := spent, used + rest;
      front := [];
      assert [] + used + rest == act;
      while bp != null
        invariant Chain(bp, left) && Chain(blockhead, act) && Distinct(left) && Distinct(act)
        invariant forall b :: b in left ==> b !in act && b in all
        invariant act == front + used + rest
        invariant forall b :: b in spent ==> b in left || b in front
        invariant forall b :: b in left || b in front ==> b in spent
        decreases |left|
      {
        ghost var was := left;
        var bpn := Push(bp, blockhead, left, act);
        blockhead := bp;
        front := [bp] + front;
        act := [bp] + act;
        left := left[1..];
        assert was == [bp] + left;
        assert act == front + used + rest;
        bp := bpn;
      }
      blockfull := null;
    }

    method Restore(ghost all: set<Block>)
      requires Lists() && all == repr
      modifies this`blockhead, this`blockfull, this`used, this`spent, all`next
      ensures Lists() && spent == [] && |old(used)| <= |used| && used[|used| - |old(used)|..] == old(used)
    {
      ghost var front := Splice(all);
      Suffix(front, used);
      used, spent := front + used, [];
    }

    /** Empties all blocks of the active list. */
    method ResetAll(ghost all: set<Block>)
      requires Lists() && spent == [] && all == repr
      modifies all`cur
      ensures Lists() && forall b :: b in all ==> b.cur == b.area
    {
      ghost var a := used + rest;
      var bp := blockhead;
      if bp != null {
        assert forall b :: b in a ==> b in all;
        SetCur(bp, bp.area, blockhead, a, blockfull, spent);
        ResetAfter(bp, a, 0);
        forall b | b in all ensures b.cur == b.area {
          assert b in a;
        }
      }
    }

    /** All blocks are on the active list, and empty. */
    method Refresh()
      requires Shape() && Areas()
      modifies this`blockhead, this`blockfull, this`used, this`spent, repr
      ensures Shape() && Areas() && spent == [] && (used == [] <==> old(used) == []) && forall b :: b in repr ==> b.cur == b.area
    {
      Restore(repr);
      ResetAll(repr);
    }

    ghost method ForgetAll()
      requires Shape() && Areas() && (stackmem ==> used != [])
      modifies this`live, this`marks, this`refused
      ensures Valid() && live == [] && marks == refused == []
    {
      live, marks, refused := [], [], [];
    }

    /** tfree: all blocks are empty again. */
    method TFree()
      requires Valid()
      modifies this, repr
      ensures Valid() && live == [] && marks == refused == [] && repr == old(repr) && stackmem == old(stackmem)
      ensures blockinuse == old(blockinuse) && spent == []
      ensures forall b :: b in repr ==> b.cur == b.area
    {
      Refresh();
      ForgetAll();
    }
  }

  /** In heap mode a first block is retired exactly if it has little room left. */
  lemma FirstRetired(region: Region, first: Block)
    requires region.Valid() && !region.stackmem && region.blockinuse != null && first != region.blockinuse
    requires region.repr == {first, region.blockinuse} && region.OnlyLittle([])
    requires |region.used| > 1 && region.used[0] != region.blockinuse ==> !Little(region.used[0])
    ensures region.spent != [] <==> Little(first)
  {
    if region.spent == [] {
      HeadIsFirst(region, first);
    } else {
      assert region.spent[0] in region.spent && region.spent[0] in region.repr;
      assert region.blockinuse in region.used;
    }
  }

  lemma HeadIsFirst(region: Region, first: Block)
    requires region.Valid() && !region.stackmem && region.blockinuse != null && first != region.blockinuse
    requires region.repr == {first, region.blockinuse} && region.spent == []
    ensures |region.used| > 1 && region.used[0] == first
  {
    var used := region.used;
    assert used + region.rest == used && first in used && used[|used| - 1] == region.blockinuse;
    var k :| 0 <= k < |used| && used[k] == first;
    assert used[0] != used[|used| - 1] && used[0] in region.repr;
  }

  /** Two requests in heap mode, of which the second needs a new block. */
  method FillTwoBlocks(n: nat, where: nat, where': nat) returns (region: Region)
    requires 32621 <= n <= 32712 && where % NALIGN == 0 && where' % NALIGN == 0 && where' >= where + 0x1_0000
    ensures fresh(region) && fresh(region.repr) && region.Valid() && !region.stackmem && |region.live| == 2
    ensures region.marks == region.refused == [] && (region.spent != [] <==> 32712 - n < 40)
    ensures region.blockinuse != null && Fits(region.blockinuse, 8)
  {
    region := new Region();
    var first, a := FillFirst(region, n, where);
    assert !Fits(first, 100) && region.NextSize(100) == CLICK;
    ghost var chunk := region.live[0];
    var b := region.Alloc(100, true, where');
    assert region.live[0] == chunk && region.Inside(region.live[1]) && DisjointChunks(region.live[0], region.live[1]);
    assert region.blockinuse != first;
    FirstRetired(region, first);
  }

  /** A request that almost fills the first block. */
  method FillFirst(region: Region, n: nat, where: nat) returns (first: Block, a: nat)
    requires region.Valid() && region.repr == {} && region.used == region.spent == [] && region.live == [] && !region.stackmem
    requires 32621 <= n <= 32712 && where % NALIGN == 0
    modifies region
    ensures region.Valid() && !region.stackmem && fresh(first) && region.repr == {first} && region.blockinuse == first
    ensures first.area == where && first.size == BlockSize(CLICK) && region.size == CLICK && first.cur == where + n
    ensures region.live == [Chunk(first, where, n)] && region.spent == []
    ensures region.marks == old(region.marks) && region.refused == old(region.refused)
  {
    assert region.NextSize(n) == CLICK;
    a := region.Alloc(n, true, where);
    first := region.blockinuse;
    NothingSpent(region, first);
  }

  lemma NothingSpent(region: Region, first: Block)
    requires region.Valid() && region.blockinuse == first && region.repr == {first}
    ensures region.spent == []
  {
    assert region.used[|region.used| - 1] == first;
    if region.spent != [] { SpentApart(region, region.spent[0]); }
  }

  lemma SpentApart(region: Region, b: Block)
    requires region.Valid() && b in region.spent
    ensures b in region.repr && b !in region.used
  {
  }

  /** The first request that overruns its block. */
  method OverrunRun(where: nat) returns (region: Region, cp: nat)
    requires where % NALIGN == 0
    ensures region.blockinuse != null && cp == where == region.blockinuse.area && region.blockinuse.size == BlockSize(CLICK)
    ensures cp + 32721 > region.blockinuse.area + region.blockinuse.size + NALIGN && !region.Valid()
  {
    region := new Region();
    assert region.NextSize(32721) == CLICK;
    FirstOverrun(32721);
    cp := region.Alloc(32721, true, where);
  }

  /** A run after which a level is refused, or not: if the second of two requests needs a new block, the level
      taken then can be gone back to exactly if the first block has 40 bytes left. */
  method RefusedRun(n: nat, where: nat, where': nat) returns (region: Region, ok: bool)
    requires 32621 <= n <= 32712 && where % NALIGN == 0 && where' % NALIGN == 0 && where' >= where + 0x1_0000
    ensures ok <==> n <= 32672
    ensures |region.live| == if ok then 2 else 3
  {
    region := FillTwoBlocks(n, where, where');
    var s := region.GetLevel(0);
    var c := region.Alloc(8, true, 0);
    ok := region.SetLevel(s, 0);
  }
}
