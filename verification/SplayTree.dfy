/**
 The splay tree with uplinks of zmailer/lib/splay.c, on heap nodes.
 */
module SplayTree {
  import opened SplayShape
  import opened SplayInsert
  import opened SplayRemove
  import opened SplayForm
  import opened SplitForm
  import opened DeqForm
  import opened Sequences

  class Spblk {
    var leftlink: Spblk?   // also the chain of the free list
    var rightlink: Spblk?
    var uplink: Spblk?
    var key: nat
    var data: object?
    var mark: int
    ghost var pos: int     // place in the in-order sequence of its tree

    constructor ()
      ensures leftlink == null && rightlink == null && uplink == null
      ensures key == 0 && data == null && mark == 0
    {
      leftlink, rightlink, uplink := null, null, null;
      key, data, mark := 0, null, 0;
    }
  }

  ghost function Place(m: Spblk?): int
    reads m
  {
    if m == null then NIL else m.pos
  }

  ghost function At(nodes: seq<Spblk>, k: int): Spblk? {
    if 0 <= k < |nodes| then nodes[k] else null
  }

  ghost predicate Fits(nodes: seq<Spblk>, g: seq<Cell>, i: int)
    requires 0 <= i < |nodes| == |g|
    reads nodes[i]
  {
    && nodes[i].pos == i
    && nodes[i].leftlink == At(nodes, g[i].l)
    && nodes[i].rightlink == At(nodes, g[i].r)
    && nodes[i].uplink == At(nodes, g[i].u)
    && NIL <= g[i].l < |g| && NIL <= g[i].r < |g| && NIL <= g[i].u < |g|
  }

  /** The links of `nodes` in the heap are those written in g. */
  ghost predicate Rep(nodes: seq<Spblk>, g: seq<Cell>)
    reads nodes
  {
    |nodes| == |g| && forall i {:trigger Fits(nodes, g, i)} :: 0 <= i < |nodes| ==> Fits(nodes, g, i)
  }

  ghost predicate In(nodes: seq<Spblk>, m: Spblk?)
    reads m
  {
    m != null && 0 <= m.pos < |nodes| && nodes[m.pos] == m
  }

  /** m is the node with number k, or null when k is NIL. */
  ghost predicate Is(nodes: seq<Spblk>, m: Spblk?, k: int)
    reads m
  {
    if m == null then k == NIL else m.pos == k && In(nodes, m)
  }

  lemma Links(nodes: seq<Spblk>, g: seq<Cell>, m: Spblk)
    requires Rep(nodes, g) && In(nodes, m)
    ensures Is(nodes, m.leftlink, g[m.pos].l)
    ensures Is(nodes, m.rightlink, g[m.pos].r)
    ensures Is(nodes, m.uplink, g[m.pos].u)
    ensures NIL <= g[m.pos].l < |g| && NIL <= g[m.pos].r < |g| && NIL <= g[m.pos].u < |g|
  {
    var c := g[m.pos];
    assert Fits(nodes, g, m.pos);
    if c.l != NIL { assert Fits(nodes, g, c.l); }
    if c.r != NIL { assert Fits(nodes, g, c.r); }
    if c.u != NIL { assert Fits(nodes, g, c.u); }
  }

  ghost predicate Chained(pool: seq<Spblk>, i: int)
    requires 0 <= i < |pool|
    reads pool[i]
  {
    pool[i].pos == -2 - i && pool[i].leftlink == At(pool, i - 1)
  }

  ghost predicate Distinct(nodes: seq<Spblk>) {
    forall i, j {:trigger nodes[i], nodes[j]} :: 0 <= i < j < |nodes| ==> nodes[i] != nodes[j]
  }

  ghost method Number(nodes: seq<Spblk>)
    requires Distinct(nodes)
    modifies nodes`pos
    ensures forall i {:trigger nodes[i]} :: 0 <= i < |nodes| ==> nodes[i].pos == i
  {
    forall i | 0 <= i < |nodes| {
      nodes[i].pos := i;
    }
  }

  class Sptree {
    var root: Spblk?
    var free: Spblk?
    var eltscnt: int
    ghost var order: seq<Spblk>   // the nodes of the tree, in order
    ghost var g: seq<Cell>        // their links
    ghost var pool: seq<Spblk>    // the free chain; the head is the last element

    ghost predicate Wf()
      reads this, order, root
    {
      Rep(order, g) && Is(order, root, Place(root)) && Tree(g, Place(root))
    }

    /** The keys and values of the nodes, in order. */
    ghost function Rows(): (rows: seq<Row>)
      reads this, order
      ensures |rows| == |order|
      ensures forall i {:trigger rows[i]} :: 0 <= i < |order| ==> rows[i] == RowOf(order[i])
    {
      seq(|order|, i requires 0 <= i < |order| reads this, order => RowOf(order[i]))
    }

    ghost predicate Sorted()
      reads this, order
    {
      Ascending(Rows())
    }

    ghost predicate PoolOk()
      reads this, pool
    {
      && free == At(pool, |pool| - 1)
      && forall i {:trigger Chained(pool, i)} :: 0 <= i < |pool| ==> Chained(pool, i)
    }

    /** Every node is in exactly one of the tree and the free chain, and is there once. */
    ghost predicate Valid()
      reads this, order, pool, root
    {
      Wf() && Sorted() && PoolOk() && eltscnt == |order|
    }

    method SetLeft(m: Spblk, c: Spblk?)
      requires Rep(order, g) && In(order, m) && Is(order, c, Place(c))
      modifies this`g, m`leftlink
      ensures Rep(order, g) && m.leftlink == c && g == PutL(old(g), m.pos, Place(c))
    {
      m.leftlink := c;
      g := PutL(g, m.pos, Place(c));
      forall i | 0 <= i < |order| ensures Fits(order, g, i) {
        assert old(Fits(order, g, i));
      }
    }

    method SetRight(m: Spblk, c: Spblk?)
      requires Rep(order, g) && In(order, m) && Is(order, c, Place(c))
      modifies this`g, m`rightlink
      ensures Rep(order, g) && m.rightlink == c && g == PutR(old(g), m.pos, Place(c))
    {
      m.rightlink := c;
      g := PutR(g, m.pos, Place(c));
      forall i | 0 <= i < |order| ensures Fits(order, g, i) {
        assert old(Fits(order, g, i));
      }
    }

    method SetUp(m: Spblk?, c: Spblk?)
      requires Rep(order, g) && Is(order, m, Place(m)) && Is(order, c, Place(c))
      modifies this`g, (if m == null then {} else {m})`uplink
      ensures Rep(order, g) && g == PutU(old(g), Place(m), Place(c))
    {
      if m != null {
        m.uplink := c;
        g := PutU(g, m.pos, Place(c));
        forall i | 0 <= i < |order| ensures Fits(order, g, i) {
          assert old(Fits(order, g, i));
        }
      }
    }

    method AttachLeft(m: Spblk, c: Spblk?)
      requires Rep(order, g) && In(order, m) && Is(order, c, Place(c))
      modifies this`g, m`leftlink, (if c == null then {} else {c})`uplink
      ensures Rep(order, g) && g == HangL(old(g), m.pos, Place(c)) 
    {
      SetLeft(m, c);
      SetUp(c, m);
    }

    method AttachRight(m: Spblk, c: Spblk?)
      requires Rep(order, g) && In(order, m) && Is(order, c, Place(c))
      modifies this`g, m`rightlink, (if c == null then {} else {c})`uplink
      ensures Rep(order, g) && g == HangR(old(g), m.pos, Place(c)) 
    {
      SetRight(m, c);
      SetUp(c, m);
    }

    ghost method Respan(m: int, lo: int, hi: int)
      requires Rep(order, g) && 0 <= m < |g|
      modifies this`g
      ensures Rep(order, g) && g == PutSpan(old(g), m, lo, hi)
    {
      g := PutSpan(g, m, lo, hi);
      forall i | 0 <= i < |order| ensures Fits(order, g, i) {
        assert old(Fits(order, g, i));
      }
    }

    ghost method RespanTwo(m: int, lo: int, hi: int, m': int, lo': int, hi': int)
      requires Rep(order, g) && 0 <= m < |g| && 0 <= m' < |g|
      modifies this`g
      ensures Rep(order, g) && g == PutSpan(PutSpan(old(g), m, lo, hi), m', lo', hi')
    {
      Respan(m, lo, hi);
      Respan(m', lo', hi');
    }

    method ReplaceLeft(q: Spblk?, p: Spblk, up: Spblk)
      requires Rep(order, g) && Is(order, q, Place(q)) && In(order, p) && In(order, up)
      modifies this`root, this`g, (if q == null then {} else {q})`leftlink, (if q == null then {} else {q})`rightlink
      ensures Rep(order, g) && g == Rehang(old(g), Place(q), p.pos, up.pos)
    {
      if q == null {
        root := up;
      } else {
        Links(order, g, q);
        if q.leftlink == p {
          SetLeft(q, up);
        } else {
          SetRight(q, up);
        }
      }
    }

    /** The assignments of a rotation. */
    method RotateLinksLeft(up: Spblk, upup: Spblk, c: Spblk?, upupup: Spblk?)
      returns (ghost g1: seq<Cell>, ghost g2: seq<Cell>, ghost g3: seq<Cell>, ghost g4: seq<Cell>)
      requires Rep(order, g) && In(order, up) && In(order, upup)
      requires Is(order, c, Place(c)) && Is(order, upupup, Place(upupup))
      modifies this`root, this`g, order`leftlink, order`rightlink, order`uplink
      ensures Rep(order, g) && g == g4
      ensures g1 == HangL(old(g), upup.pos, Place(c)) && g2 == HangR(g1, up.pos, upup.pos)
      ensures g3 == Rehang(g2, Place(upupup), upup.pos, up.pos) && g4 == PutU(g3, up.pos, Place(upupup))
    {
      AttachLeft(upup, c);
      g1 := g;
      AttachRight(up, upup);
      g2 := g;
      ReplaceLeft(upupup, upup, up);
      g3 := g;
      SetUp(up, upupup);
      g4 := g;
    }

    /** Rotates `up`, the left child of `upup`, above it; returns the node that was above both. */
    method RotateOverLeft(up: Spblk, upup: Spblk) returns (upupup: Spblk?)
      requires Rep(order, g) && In(order, up) && In(order, upup)
      requires up.uplink == upup && upup.leftlink == up
      requires Apart(up.pos, upup.pos, g[up.pos].r, g[upup.pos].u)
      modifies this`root, this`g, order`leftlink, order`rightlink, order`uplink
      ensures Rep(order, g) && Rotated(old(g), up.pos, g)
      ensures upupup == old(upup.uplink)
    {
      ghost var u, p := up.pos, upup.pos;
      Links(order, g, up);
      Links(order, g, upup);
      upupup := upup.uplink;
      var c := up.rightlink;
      ghost var g1, g2, g3, g4 := RotateLinksLeft(up, upup, c, upupup);
      RespanTwo(u, old(g)[u].lo, old(g)[p].hi, p, u + 1, old(g)[p].hi);
      RotateSteps(old(g), g1, g2, g3, g4, g, u, p, old(g)[u].r, old(g)[p].u);
    }

    method HangRight(n: Spblk, up: Spblk, right: Spblk?, ghost x: Cut)
      requires Rep(order, g) && CanZig(g, x)
      requires Is(order, n, x.n) && Is(order, up, x.up) && Is(order, right, x.right)
      modifies this`g, order`leftlink, order`uplink
      ensures Rep(order, g) && SplayInv(g, NextCut(old(g), x)) && x.b < old(g)[x.up].hi
      ensures Outcome(g, NextCut(old(g), x)) == ZigOutcome(old(g), x)
    {
      AttachLeft(up, right);
      Respan(x.up, x.n + 1, old(g)[x.up].hi);
      Zig(old(g), x, g);
      AfterZig(old(g), x, g);
    }

    method SplayRight(n: Spblk, up: Spblk, right: Spblk?, ghost x: Cut) returns (upup: Spblk?, ghost y: Cut)
      requires Rep(order, g) && CanZig(g, x)
      requires Is(order, n, x.n) && Is(order, up, x.up) && Is(order, right, x.right)
      modifies this`root, this`g, order`leftlink, order`rightlink, order`uplink
      ensures Rep(order, g) && SplayInv(g, y) && Is(order, upup, y.up)
      ensures y.n == x.n && y.prev == y.right == x.up && y.left == x.left && y.a == x.a && x.b < y.b
      ensures Outcome(g, y) == Outcome(old(g), x)
    {
      upup := LineUpRight(up, x);
      y := NextCut(g, x);
      HangRight(n, up, right, x);
    }

    /** If `up` is on the same side of its parent, it is rotated above it first. */
    method LineUpRight(up: Spblk, ghost x: Cut) returns (upup: Spblk?)
      requires Rep(order, g) && CanZig(g, x) && Is(order, up, x.up)
      modifies this`root, this`g, order`leftlink, order`rightlink, order`uplink
      ensures Rep(order, g) && CanZig(g, x) && Is(order, upup, g[x.up].u)
      ensures ZigOutcome(g, x) == Outcome(old(g), x)
    {
      Links(order, g, up);
      upup := up.uplink;
      if upup != null {
        Links(order, g, upup);
        if upup.leftlink == up {
          RotateFacts(g, x);
          upup := RotateOverLeft(up, upup);
          Rotate(old(g), x, g);
          DoubleZig(old(g), x, g);
          return;
        }
      }
      SingleZig(g, x);
    }

    method ReplaceRight(q: Spblk?, p: Spblk, up: Spblk)
      requires Rep(order, g) && Is(order, q, Place(q)) && In(order, p) && In(order, up)
      modifies this`root, this`g, (if q == null then {} else {q})`leftlink, (if q == null then {} else {q})`rightlink
      ensures Rep(order, g) && g == RehangRight(old(g), Place(q), p.pos, up.pos)
    {
      if q == null {
        root := up;
      } else {
        Links(order, g, q);
        if q.rightlink == p {
          SetRight(q, up);
        } else {
          SetLeft(q, up);
        }
      }
    }

    /** The assignments of a rotation. */
    method RotateLinksRight(up: Spblk, upup: Spblk, c: Spblk?, upupup: Spblk?)
      returns (ghost g1: seq<Cell>, ghost g2: seq<Cell>, ghost g3: seq<Cell>, ghost g4: seq<Cell>)
      requires Rep(order, g) && In(order, up) && In(order, upup)
      requires Is(order, c, Place(c)) && Is(order, upupup, Place(upupup))
      modifies this`root, this`g, order`leftlink, order`rightlink, order`uplink
      ensures Rep(order, g) && g == g4
      ensures g1 == HangR(old(g), upup.pos, Place(c)) && g2 == HangL(g1, up.pos, upup.pos)
      ensures g3 == RehangRight(g2, Place(upupup), upup.pos, up.pos) && g4 == PutU(g3, up.pos, Place(upupup))
    {
      AttachRight(upup, c);
      g1 := g;
      AttachLeft(up, upup);
      g2 := g;
      ReplaceRight(upupup, upup, up);
      g3 := g;
      SetUp(up, upupup);
      g4 := g;
    }

    method RotateOverRight(up: Spblk, upup: Spblk) returns (upupup: Spblk?)
      requires Rep(order, g) && In(order, up) && In(order, upup)
      requires up.uplink == upup && upup.rightlink == up
      requires Apart(up.pos, upup.pos, g[up.pos].l, g[upup.pos].u)
      modifies this`root, this`g, order`leftlink, order`rightlink, order`uplink
      ensures Rep(order, g) && RotatedLeft(old(g), up.pos, g)
      ensures upupup == old(upup.uplink)
    {
      ghost var u, p := up.pos, upup.pos;
      Links(order, g, up);
      Links(order, g, upup);
      upupup := upup.uplink;
      var c := up.leftlink;
      ghost var g1, g2, g3, g4 := RotateLinksRight(up, upup, c, upupup);
      RespanTwo(u, old(g)[p].lo, old(g)[u].hi, p, old(g)[p].lo, u);
      RotateLeftSteps(old(g), g1, g2, g3, g4, g, u, p, old(g)[u].l, old(g)[p].u);
    }

    method HangLeft(n: Spblk, up: Spblk, left: Spblk?, ghost x: Cut)
      requires Rep(order, g) && CanZigLeft(g, x)
      requires Is(order, n, x.n) && Is(order, up, x.up) && Is(order, left, x.left)
      modifies this`g, order`rightlink, order`uplink
      ensures Rep(order, g) && SplayInv(g, NextCutLeft(old(g), x)) && old(g)[x.up].lo < x.a
      ensures Outcome(g, NextCutLeft(old(g), x)) == ZigLeftOutcome(old(g), x)
    {
      AttachRight(up, left);
      Respan(x.up, old(g)[x.up].lo, x.n);
      ZigLeft(old(g), x, g);
      AfterZigLeft(old(g), x, g);
    }

    method SplayLeft(n: Spblk, up: Spblk, left: Spblk?, ghost x: Cut) returns (upup: Spblk?, ghost y: Cut)
      requires Rep(order, g) && CanZigLeft(g, x)
      requires Is(order, n, x.n) && Is(order, up, x.up) && Is(order, left, x.left)
      modifies this`root, this`g, order`leftlink, order`rightlink, order`uplink
      ensures Rep(order, g) && SplayInv(g, y) && Is(order, upup, y.up)
      ensures y.n == x.n && y.prev == y.left == x.up && y.right == x.right && y.b == x.b && y.a < x.a
      ensures Outcome(g, y) == Outcome(old(g), x)
    {
      upup := LineUpLeft(up, x);
      y := NextCutLeft(g, x);
      HangLeft(n, up, left, x);
    }

    /** If `up` is on the same side of its parent, it is rotated above it first. */
    method LineUpLeft(up: Spblk, ghost x: Cut) returns (upup: Spblk?)
      requires Rep(order, g) && CanZigLeft(g, x) && Is(order, up, x.up)
      modifies this`root, this`g, order`leftlink, order`rightlink, order`uplink
      ensures Rep(order, g) && CanZigLeft(g, x) && Is(order, upup, g[x.up].u)
      ensures ZigLeftOutcome(g, x) == Outcome(old(g), x)
    {
      Links(order, g, up);
      upup := up.uplink;
      if upup != null {
        Links(order, g, upup);
        if upup.rightlink == up {
          RotateLeftFacts(g, x);
          upup := RotateOverRight(up, upup);
          RotateLeft(old(g), x, g);
          DoubleZigLeft(old(g), x, g);
          return;
        }
      }
      SingleZigLeft(g, x);
    }

    method Join(n: Spblk, left: Spblk?, right: Spblk?, ghost x: Cut)
      requires Rep(order, g) && SplayInv(g, x) && x.up == NIL
      requires Is(order, n, x.n) && Is(order, left, x.left) && Is(order, right, x.right)
      modifies this`root, this`g, order`leftlink, order`rightlink, order`uplink
      ensures Wf() && root == n && ShapeOf(g, n.pos, 0, |g|) == Outcome(old(g), x)
    {
      AttachLeft(n, left);
      AttachRight(n, right);
      root := n;
      SetUp(n, null);
      Respan(n.pos, x.a, x.b);
      SplayEnd(old(g), x, g);
      JoinForm(old(g), x, g);
    }

    /** One round of the loop of _splay. */
    method SplayStep(n: Spblk, left: Spblk?, right: Spblk?, prev: Spblk, up: Spblk, ghost x: Cut)
      returns (left': Spblk?, right': Spblk?, prev': Spblk, up': Spblk?, ghost y: Cut)
      requires Rep(order, g) && SplayInv(g, x) && In(order, n) && x.n == n.pos && In(order, prev) && prev.pos == x.prev
      requires Is(order, up, x.up) && Is(order, left, x.left) && Is(order, right, x.right)
      modifies this`root, this`g, order`leftlink, order`rightlink, order`uplink
      ensures Rep(order, g) && SplayInv(g, y) && In(order, n) && y.n == n.pos && In(order, prev') && prev'.pos == y.prev
      ensures Is(order, up', y.up) && Is(order, left', y.left) && Is(order, right', y.right)
      ensures x.b - x.a < y.b - y.a <= |g|
      ensures Outcome(g, y) == Outcome(old(g), x)
    {
      Links(order, g, up);
      left', right', prev' := left, right, up;
      if up.leftlink == prev {
        up', y := SplayRight(n, up, right, x);
        right' := up;
      } else {
        up', y := SplayLeft(n, up, left, x);
        left' := up;
      }
    }

    /** _splay: n becomes the root; the in-order sequence stays, and the shape is the splayed one. */
    method Splay(n: Spblk)
      requires Wf() && In(order, n)
      modifies this`root, this`g, order`leftlink, order`rightlink, order`uplink
      ensures Wf() && root == n
      ensures ShapeOf(g, n.pos, 0, |g|) == SplayFrom(ShapeOf(old(g), Place(old(root)), 0, |old(g)|), n.pos, [])
    {
      SplayStart(g, Place(root), n.pos);
      StartForm(g, Place(root), n.pos);
      ghost var x := StartCut(g, n.pos);
      ghost var goal := Outcome(g, x);
      Links(order, g, n);
      var left, right, prev: Spblk, up: Spblk? := n.leftlink, n.rightlink, n, n.uplink;
      while up != null
        invariant Rep(order, g) && SplayInv(g, x) && In(order, n) && x.n == n.pos && In(order, prev) && prev.pos == x.prev
        invariant Is(order, up, x.up) && Is(order, left, x.left) && Is(order, right, x.right)
        invariant Outcome(g, x) == goal && |g| == |old(g)|
        decreases |g| - (x.b - x.a)
      {
        left, right, prev, up, x := SplayStep(n, left, right, prev, up, x);
      }
      Join(n, left, right, x);
    }

    // ---------------------------------------------------------------- _sp_enq

    /** `next` and the left part below it go to the end of the left tree. */
    method MoveLeftward(left: Spblk, next: Spblk, ghost s: Split) returns (temp: Spblk?, ghost s': Split)
      requires Rep(order, g) && SplitInv(g, s) && s.next < s.k
      requires Is(order, left, s.left) && Is(order, next, s.next)
      modifies this`g, order`rightlink, order`uplink
      ensures Rep(order, g) && SplitInv(g, s') && s' == AfterMove(old(g), s)
      ensures g[s'.left].r == s'.next
      ensures temp == old(next.rightlink) && Is(order, temp, s'.next)
      ensures Result(g, s') == LeftResult(old(g), s)
    {
      assert Inner(g, s.next, s.a, s.b);
      Links(order, g, next);
      temp := next.rightlink;
      s' := AfterMove(g, s);
      AttachRight(left, next);
      Respan(s.next, old(g)[s.next].lo, s.k);
      Move(old(g), s, g);
      MoveForm(old(g), s, g);
    }

    method TurnLeftLinks(left: Spblk, next: Spblk, temp: Spblk, ghost a: int, ghost k: int)
      returns (ghost g1: seq<Cell>, ghost g2: seq<Cell>, ghost g3: seq<Cell>)
      requires Rep(order, g) && In(order, left) && In(order, next) && In(order, temp)
      modifies this`g, order`leftlink, order`rightlink, order`uplink
      ensures Rep(order, g)
      ensures g1 == HangR(old(g), next.pos, old(g)[temp.pos].l)
      ensures g2 == HangR(g1, left.pos, temp.pos)
      ensures g3 == HangL(g2, temp.pos, next.pos)
      ensures g == PutSpan(PutSpan(g3, next.pos, a, temp.pos), temp.pos, a, k)
    {
      Links(order, g, temp);
      var c := temp.leftlink;
      AttachRight(next, c);
      g1 := g;
      AttachRight(left, temp);
      g2 := g;
      AttachLeft(temp, next);
      g3 := g;
      RespanTwo(next.pos, a, temp.pos, temp.pos, a, k);
    }

    method TurnLeftward(left: Spblk, next: Spblk, temp: Spblk, ghost s: Split) returns (next': Spblk?, ghost s': Split)
      requires Rep(order, g) && SplitInv(g, s) && s.next < s.k
      requires Is(order, left, s.left) && Is(order, next, s.next)
      requires next.rightlink == temp && In(order, temp) && temp.pos < s.k
      modifies this`g, order`leftlink, order`rightlink, order`uplink
      ensures Rep(order, g) && SplitInv(g, s') && Is(order, next', s'.next)
      ensures s' == s.(a := temp.pos + 1, left := temp.pos, next := old(g)[temp.pos].r) && g[s'.left].r == s'.next
      ensures Result(g, s') == Result(old(g), s)
    {
      Links(order, g, next);
      s' := s.(a := temp.pos + 1, left := temp.pos, next := g[temp.pos].r);
      ghost var g1, g2, g3 := TurnLeftLinks(left, next, temp, s.a, s.k);
      TurnMoveForm(old(g), s, g1, g2, g3, g);
      Links(order, g, temp);
      next' := temp.rightlink;
    }

    method MoveRightward(right: Spblk, next: Spblk, ghost s: Split) returns (temp: Spblk?, ghost s': Split)
      requires Rep(order, g) && SplitInv(g, s) && s.next >= s.k
      requires Is(order, right, s.right) && Is(order, next, s.next)
      modifies this`g, order`leftlink, order`uplink
      ensures Rep(order, g) && SplitInv(g, s') && s' == AfterMoveRight(old(g), s)
      ensures g[s'.right].l == s'.next
      ensures temp == old(next.leftlink) && Is(order, temp, s'.next)
      ensures Result(g, s') == RightResult(old(g), s)
    {
      assert Inner(g, s.next, s.a, s.b);
      Links(order, g, next);
      temp := next.leftlink;
      s' := AfterMoveRight(g, s);
      AttachLeft(right, next);
      Respan(s.next, s.k, old(g)[s.next].hi);
      MoveToRight(old(g), s, g);
      MoveRightForm(old(g), s, g);
    }

    method TurnRightLinks(right: Spblk, next: Spblk, temp: Spblk, ghost b: int, ghost k: int)
      returns (ghost g1: seq<Cell>, ghost g2: seq<Cell>, ghost g3: seq<Cell>)
      requires Rep(order, g) && In(order, right) && In(order, next) && In(order, temp)
      modifies this`g, order`leftlink, order`rightlink, order`uplink
      ensures Rep(order, g)
      ensures g1 == HangL(old(g), next.pos, old(g)[temp.pos].r)
      ensures g2 == HangL(g1, right.pos, temp.pos)
      ensures g3 == HangR(g2, temp.pos, next.pos)
      ensures g == PutSpan(PutSpan(g3, next.pos, temp.pos + 1, b), temp.pos, k, b)
    {
      Links(order, g, temp);
      var c := temp.rightlink;
      AttachLeft(next, c);
      g1 := g;
      AttachLeft(right, temp);
      g2 := g;
      AttachRight(temp, next);
      g3 := g;
      RespanTwo(next.pos, temp.pos + 1, b, temp.pos, k, b);
    }

    method TurnRightward(right: Spblk, next: Spblk, temp: Spblk, ghost s: Split) returns (next': Spblk?, ghost s': Split)
      requires Rep(order, g) && SplitInv(g, s) && s.next >= s.k
      requires Is(order, right, s.right) && Is(order, next, s.next)
      requires next.leftlink == temp && In(order, temp) && temp.pos >= s.k
      modifies this`g, order`leftlink, order`rightlink, order`uplink
      ensures Rep(order, g) && SplitInv(g, s') && Is(order, next', s'.next)
      ensures s' == s.(b := temp.pos, right := temp.pos, next := old(g)[temp.pos].l) && g[s'.right].l == s'.next
      ensures Result(g, s') == Result(old(g), s)
    {
      Links(order, g, next);
      s' := s.(b := temp.pos, right := temp.pos, next := g[temp.pos].l);
      ghost var g1, g2, g3 := TurnRightLinks(right, next, temp, s.b, s.k);
      TurnMoveRightForm(old(g), s, g1, g2, g3, g);
      Links(order, g, temp);
      next' := temp.leftlink;
    }

    /** The number of keys below `key` in the first |order| - 1 nodes is k. */
    ghost predicate KeysSplit(key: nat, k: int)
      reads this, order
    {
      forall i {:trigger order[i].key} :: 0 <= i < |order| - 1 ==> (order[i].key < key <==> i < k)
    }

    ghost predicate Splitting(s: Split, key: nat, left: Spblk, right: Spblk, next: Spblk?)
      reads this, order, left, right, next
    {
      && Rep(order, g) && SplitInv(g, s) && KeysSplit(key, s.k)
      && Is(order, left, s.left) && Is(order, right, s.right) && Is(order, next, s.next)
      && (next == null ==> Closed(g, s))
    }

    /** The same, before the open end of the other tree is closed. */
    ghost predicate HalfSplit(s: Split, key: nat, left: Spblk, right: Spblk, next: Spblk?)
      reads this, order, left, right, next
    {
      && Rep(order, g) && SplitInv(g, s) && KeysSplit(key, s.k)
      && Is(order, left, s.left) && Is(order, right, s.right) && Is(order, next, s.next)
    }

    method CloseRight(key: nat, left: Spblk, right: Spblk, ghost s: Split)
      requires HalfSplit(s, key, left, right, null) && |g| > 1 && g[s.left].r == NIL
      modifies this`g, order`leftlink
      ensures Splitting(s, key, left, right, null) && Result(g, s) == Result(old(g), s)
    {
      ghost var g1 := g;
      SetLeft(right, null);
      Close(g1, s, g);
      CloseForm(g1, s, g);
    }

    method CloseLeft(key: nat, left: Spblk, right: Spblk, ghost s: Split)
      requires HalfSplit(s, key, left, right, null) && |g| > 1 && g[s.right].l == NIL
      modifies this`g, order`rightlink
      ensures Splitting(s, key, left, right, null) && Result(g, s) == Result(old(g), s)
    {
      ghost var g1 := g;
      SetRight(left, null);
      Close(g1, s, g);
      CloseForm(g1, s, g);
    }

    /** One round of the first loop of _sp_enq: next is below the key. */
    method LeftStep(key: nat, left: Spblk, right: Spblk, next: Spblk, ghost s: Split)
      returns (left': Spblk, next': Spblk?, ghost s': Split)
      requires Splitting(s, key, left, right, next) && next.key < key
      modifies this`g, order`leftlink, order`rightlink, order`uplink
      ensures HalfSplit(s', key, left', right, next') && s'.k == s.k && s'.b - s'.a < s.b - s.a
      ensures next' == null ==> |g| > 1 && g[s'.left].r == NIL
      ensures Result(g, s') == Result(old(g), s)
    {
      assert Inner(g, s.next, s.a, s.b);
      Links(order, g, next);
      var temp := next.rightlink;
      if temp != null && temp.key < key {
        next', s' := TurnLeftward(left, next, temp, s);
        left' := temp;
      } else {
        SingleMove(g, s);
        next', s' := MoveLeftward(left, next, s);
        left' := next;
      }
    }

    method LeftRound(key: nat, left: Spblk, right: Spblk, next: Spblk, ghost s: Split)
      returns (left': Spblk, next': Spblk?, ghost s': Split)
      requires Splitting(s, key, left, right, next) && next.key < key
      modifies this`g, order`leftlink, order`rightlink, order`uplink
      ensures Splitting(s', key, left', right, next') && s'.k == s.k && s'.b - s'.a < s.b - s.a
      ensures Result(g, s') == Result(old(g), s)
    {
      left', next', s' := LeftStep(key, left, right, next, s);
      if next' == null { CloseRight(key, left', right, s'); }
    }

    method RightStep(key: nat, left: Spblk, right: Spblk, next: Spblk, ghost s: Split)
      returns (right': Spblk, next': Spblk?, ghost s': Split)
      requires Splitting(s, key, left, right, next) && !(next.key < key)
      modifies this`g, order`leftlink, order`rightlink, order`uplink
      ensures HalfSplit(s', key, left, right', next') && s'.k == s.k && s'.b - s'.a < s.b - s.a
      ensures next' == null ==> |g| > 1 && g[s'.right].l == NIL
      ensures Result(g, s') == Result(old(g), s)
    {
      assert Inner(g, s.next, s.a, s.b);
      Links(order, g, next);
      var temp := next.leftlink;
      if temp != null && !(temp.key < key) {
        next', s' := TurnRightward(right, next, temp, s);
        right' := temp;
      } else {
        SingleMoveRight(g, s);
        next', s' := MoveRightward(right, next, s);
        right' := next;
      }
    }

    method RightRound(key: nat, left: Spblk, right: Spblk, next: Spblk, ghost s: Split)
      returns (right': Spblk, next': Spblk?, ghost s': Split)
      requires Splitting(s, key, left, right, next) && !(next.key < key)
      modifies this`g, order`leftlink, order`rightlink, order`uplink
      ensures Splitting(s', key, left, right', next') && s'.k == s.k && s'.b - s'.a < s.b - s.a
      ensures Result(g, s') == Result(old(g), s)
    {
      right', next', s' := RightStep(key, left, right, next, s);
      if next' == null { CloseLeft(key, left, right', s'); }
    }

    /** The two loops of _sp_enq: everything is split into the two trees under n. */
    method Divide(n: Spblk, top: Spblk, ghost s0: Split) returns (ghost s: Split)
      requires Splitting(s0, n.key, n, n, top)
      modifies this`g, order`leftlink, order`rightlink, order`uplink
      ensures Rep(order, g) && Closed(g, s) && s.k == s0.k && Result(g, s) == Result(old(g), s0)
    {
      var key, left, right := n.key, n, n;
      var next: Spblk? := top;
      s := s0;
      ghost var goal := Result(g, s0);
      while next != null
        invariant Splitting(s, key, left, right, next) && s.k == s0.k && Result(g, s) == goal
        decreases s.b - s.a
      {
        if next.key < key {
          left, next, s := LeftRound(key, left, right, next, s);
        } else {
          right, next, s := RightRound(key, left, right, next, s);
        }
      }
    }

    /** The last node takes its place k in the order. */
    ghost method Reseat(k: int)
      requires Rep(order, g) && 0 <= k < |order|
      modifies this`g, this`order, order`pos
      ensures Rep(order, g) && order == Seated(old(order), k) && g == Placed(old(g), k)
    {
      Renumber(order, g, k);
      order, g := Seated(order, k), Placed(g, k);
    }

    /** The children of n, built in reverse, are exchanged, and n gets its number. */
    method Finish(n: Spblk, ghost s: Split)
      requires Rep(order, g) && Closed(g, s) && In(order, n) && n.pos == |order| - 1
      modifies this`g, this`order, n`leftlink, n`rightlink, order`pos
      ensures Rep(order, g) && Tree(g, s.k) && Is(order, n, s.k) && order == Seated(old(order), s.k)
      ensures ShapeOf(g, s.k, 0, |g|) == Topped(Result(old(g), s), s.k)
    {
      SplitEnd(g, s);
      EndForm(g, s);
      Links(order, g, n);
      var left, right := n.leftlink, n.rightlink;
      SetLeft(n, right);
      SetRight(n, left);
      assert g == Exchanged(old(g));
      Reseat(s.k);
      assert order[s.k] == n && Fits(order, g, s.k);
    }

    /** n joins the nodes under the last number. */
    ghost method Enlist(n: Spblk)
      requires Rep(order, g) && n !in order && n.leftlink == n.rightlink == n.uplink == null
      modifies this`g, this`order, n`pos
      ensures order == old(order) + [n] && g == old(g) + [Cell(NIL, NIL, NIL, 0, 0)]
      ensures Rep(order, g) && n.pos == |order| - 1
    {
      n.pos := |order|;
      order := order + [n];
      g := g + [Cell(NIL, NIL, NIL, 0, 0)];
      forall i | 0 <= i < |order| ensures Fits(order, g, i) {
        if i < |order| - 1 { assert old(Fits(order, g, i)); }
      }
    }

    /** _sp_enq: n becomes the root, after the smaller keys and before all others, also equal ones. */
    method Enq(n: Spblk, ghost k: int)
      requires Wf() && n !in order && n.leftlink == n.rightlink == null
      requires 0 <= k <= |order| && forall i :: 0 <= i < |order| ==> (order[i].key < n.key <==> i < k)
      modifies this`root, this`g, this`order, n`leftlink, n`rightlink, n`uplink, n`pos
      modifies order`leftlink, order`rightlink, order`uplink, order`pos
      ensures Wf() && root == n && order == old(order)[..k] + [n] + old(order)[k..] && n.pos == k
      ensures ShapeOf(g, k, 0, |g|) == Topped(SplitShape(ShapeOf(old(g), old(Place(root)), 0, |old(g)|), k), k)
    {
      RepDistinct(order, g);
      var next := root;
      root := n;
      ClearUp(n);
      if next == null {
        EnqFirst(n);
      } else {
        EnqInto(n, next, k);
      }
    }

    /** n->uplink = NULL, for a node that is not in the tree. */
    method ClearUp(n: Spblk)
      requires Rep(order, g) && n !in order
      modifies n`uplink
      ensures Rep(order, g) && n.uplink == null
    {
      n.uplink := null;
      forall i | 0 <= i < |order| ensures Fits(order, g, i) {
        assert old(Fits(order, g, i));
      }
    }

    ghost method EnqFirst(n: Spblk)
      requires Rep(order, g) && order == [] && n.leftlink == n.rightlink == n.uplink == null
      modifies this`g, this`order, n`pos
      ensures Rep(order, g) && Tree(g, 0) && order == [n] && n.pos == 0 && ShapeOf(g, 0, 0, 1) == Node(Leaf, 0, Leaf)
    {
      Enlist(n);
      Respan(0, 0, 1);
      assert NodeOk(g, 0);
    }

    method EnqInto(n: Spblk, next: Spblk, ghost k: int)
      requires Rep(order, g) && In(order, next) && Tree(g, next.pos)
      requires n !in order && n.leftlink == n.rightlink == n.uplink == null
      requires 0 <= k <= |order| && forall i :: 0 <= i < |order| ==> (order[i].key < n.key <==> i < k)
      modifies this`g, this`order, n`leftlink, n`rightlink, n`uplink, n`pos
      modifies order`leftlink, order`rightlink, order`uplink, order`pos
      ensures Rep(order, g) && Tree(g, k) && Is(order, n, k) && order == old(order)[..k] + [n] + old(order)[k..]
      ensures ShapeOf(g, k, 0, |g|) == Topped(SplitShape(ShapeOf(old(g), old(next.pos), 0, |old(g)|), k), k)
    {
      ghost var o := order;
      SplitBegins(g, next.pos, Cell(NIL, NIL, NIL, 0, 0), k);
      SplitStart(g, next.pos, Cell(NIL, NIL, NIL, 0, 0), k);
      Enlist(n);
      assert KeysSplit(n.key, k);
      DifficultEnq(n, next, Split(k, 0, |order| - 1, |order| - 1, |order| - 1, next.pos));
      SeatedLast(o, n, k);
    }

    method DifficultEnq(n: Spblk, next: Spblk, ghost s0: Split)
      requires Splitting(s0, n.key, n, n, next) && n.pos == |order| - 1
      modifies this`g, this`order, order`leftlink, order`rightlink, order`uplink, order`pos
      ensures Rep(order, g) && Tree(g, s0.k) && Is(order, n, s0.k) && 0 <= s0.k < |old(order)|
      ensures order == Seated(old(order), s0.k)
      ensures ShapeOf(g, s0.k, 0, |g|) == Topped(Result(old(g), s0), s0.k)
    {
      ghost var s := Divide(n, next, s0);
      Finish(n, s);
    }

    // ---------------------------------------------------------------- _sp_deq

    ghost predicate Removing(x: int, top: int, next: Spblk, left: Spblk)
      reads this, order, next, left
    {
      && Rep(order, g) && In(order, next) && In(order, left)
      && DeqInv(g, x, next.pos, left.pos) && Top(g, x, top)
    }

    method RollLinks(next: Spblk, left: Spblk, farleft: Spblk, ghost x: int)
      returns (ghost g1: seq<Cell>, ghost g2: seq<Cell>, ghost g3: seq<Cell>)
      requires Rep(order, g) && In(order, next) && In(order, left) && In(order, farleft)
      modifies this`g, order`leftlink, order`rightlink, order`uplink
      ensures Rep(order, g)
      ensures g1 == HangL(old(g), next.pos, farleft.pos)
      ensures g2 == HangL(g1, left.pos, old(g)[farleft.pos].r)
      ensures g3 == HangR(g2, farleft.pos, left.pos)
      ensures g == PutSpan(PutSpan(g3, farleft.pos, x, next.pos), left.pos, farleft.pos + 1, next.pos)
    {
      Links(order, g, farleft);
      var c := farleft.rightlink;
      AttachLeft(next, farleft);
      g1 := g;
      AttachLeft(left, c);
      g2 := g;
      AttachRight(farleft, left);
      g3 := g;
      RespanTwo(farleft.pos, x, next.pos, left.pos, farleft.pos + 1, next.pos);
    }

    /** One rotation on the way to the first node. */
    method RollRound(next: Spblk, left: Spblk, farleft: Spblk, farfarleft: Spblk, ghost x: int, ghost top: int)
      requires Removing(x, top, next, left)
      requires left.leftlink == farleft && farleft.leftlink == farfarleft
      modifies this`g, order`leftlink, order`rightlink, order`uplink
      ensures Removing(x, top, farleft, farfarleft) && farleft.pos < next.pos
      ensures forall i :: 0 <= i < x && i < |g| ==> g[i] == old(g)[i]
      ensures Rest(g, x, farleft.pos, farfarleft.pos, top) == Rest(old(g), x, next.pos, left.pos, top)
    {
      Links(order, g, left);
      Links(order, g, farleft);
      RollOver(next, left, farleft, x, top);
      Links(order, g, farleft);
      ghost var g4 := g;
      Respan(farleft.pos, x + 1, next.pos);
      StepDown(g4, x, next.pos, farleft.pos, top, g);
      RollForm(old(g), x, next.pos, left.pos, top, g4, g);
    }

    /** farleft takes the place of left. */
    method RollOver(next: Spblk, left: Spblk, farleft: Spblk, ghost x: int, ghost top: int)
      requires Removing(x, top, next, left) && left.leftlink == farleft
      modifies this`g, order`leftlink, order`rightlink, order`uplink
      ensures Removing(x, top, next, farleft) && farleft.leftlink == old(farleft.leftlink)
      ensures x <= farleft.pos < left.pos < next.pos
      ensures forall i :: 0 <= i < x && i < |g| ==> g[i] == old(g)[i]
      ensures old(g)[left.pos].l == farleft.pos && Rolled(old(g), next.pos, left.pos, g)
    {
      Links(order, g, left);
      Links(order, g, farleft);
      assert Inner(g, left.pos, x, next.pos) && Inner(g, farleft.pos, x, next.pos);
      ghost var g1, g2, g3 := RollLinks(next, left, farleft, x);
      RollAll(old(g), x, next.pos, left.pos, top, g1, g2, g3, g);
      assert Fits(order, g, farleft.pos) && old(Fits(order, g, farleft.pos));
    }

    /** The first place x no longer belongs to the subtree under `top`; its node is deq. */
    ghost predicate Removed(x: int, top: int, deq: Spblk?)
      reads this, order, deq
    {
      && 0 <= x && Rep(order, g) && Is(order, deq, x) && deq != null
      && Top(g, x, top) && AllLate(g, x, x + 1)
    }

    /** The last two exits of the loop of _sp_deq: `left` has no left child. */
    method TakeFirst(next: Spblk, left: Spblk, ghost x: int, ghost top: int)
      requires Removing(x, top, next, left) && left.leftlink == null
      modifies this`g, order`leftlink, order`uplink
      ensures Removed(x, top, left)
      ensures forall i :: 0 <= i < x ==> g[i] == old(g)[i]
      ensures ShapeOf(g, top, x + 1, |g|) == Rest(old(g), x, next.pos, left.pos, top)
    {
      Links(order, g, left);
      assert Inner(g, left.pos, x, next.pos);
      if g[left.pos].r != NIL { assert Inner(g, g[left.pos].r, x, next.pos); }
      var c := left.rightlink;
      AttachLeft(next, c);
      Take(old(g), x, next.pos, left.pos, top, g);
      TakeForm(old(g), x, next.pos, left.pos, top, g);
    }

    method TakeSecond(next: Spblk, left: Spblk, farleft: Spblk, ghost x: int, ghost top: int)
      requires Removing(x, top, next, left) && left.leftlink == farleft && farleft.leftlink == null
      modifies this`g, order`leftlink, order`uplink
      ensures Removed(x, top, farleft)
      ensures forall i :: 0 <= i < x ==> g[i] == old(g)[i]
      ensures ShapeOf(g, top, x + 1, |g|) == Rest(old(g), x, next.pos, left.pos, top)
    {
      Links(order, g, left);
      Links(order, g, farleft);
      assert Inner(g, left.pos, x, next.pos);
      Respan(left.pos, x + 1, g[left.pos].hi);
      StepDown(old(g), x, next.pos, left.pos, top, g);
      StepForm(old(g), x, next.pos, left.pos, top, g);
      TakeFirst(left, farleft, x, top);
    }

    /** The loop of _sp_deq. */
    method DeqLoop(first: Spblk, ghost x: int) returns (deq: Spblk)
      requires first.leftlink != null && Removing(x, first.pos, first, first.leftlink)
      modifies this`g, order`leftlink, order`rightlink, order`uplink
      ensures Removed(x, first.pos, deq)
      ensures forall i :: 0 <= i < x ==> g[i] == old(g)[i]
      ensures ShapeOf(g, first.pos, x + 1, |g|) == Rest(old(g), x, first.pos, old(first.leftlink.pos), first.pos)
    {
      var next: Spblk, left: Spblk := first, first.leftlink;
      ghost var goal := Rest(g, x, next.pos, left.pos, first.pos);
      while true
        invariant Removing(x, first.pos, next, left)
        invariant forall i :: 0 <= i < x ==> g[i] == old(g)[i]
        invariant Rest(g, x, next.pos, left.pos, first.pos) == goal
        decreases next.pos
      {
        Links(order, g, left);
        var farleft := left.leftlink;
        if farleft == null {
          TakeFirst(next, left, x, first.pos);
          return left;
        }
        Links(order, g, farleft);
        var farfarleft := farleft.leftlink;
        if farfarleft == null {
          TakeSecond(next, left, farleft, x, first.pos);
          return farleft;
        }
        RollRound(next, left, farleft, farfarleft, x, first.pos);
        next, left := farleft, farfarleft;
      }
    }

    /** _sp_deq on the right link of the root r. */
    method Deq(r: Spblk) returns (deq: Spblk?)
      requires Wf() && root == r
      modifies this`g, order`leftlink, order`rightlink, order`uplink
      ensures Rep(order, g)
      ensures r.pos + 1 == |order| ==> deq == null && g == old(g)
      ensures r.pos + 1 < |order| ==> Removed(r.pos + 1, Place(r.rightlink), deq) && Is(order, r.rightlink, Place(r.rightlink))
      ensures forall i :: 0 <= i < r.pos ==> g[i] == old(g)[i]
      ensures g[r.pos].l == old(g)[r.pos].l
      ensures r.pos + 1 < |order| ==>
        ShapeOf(g, Place(r.rightlink), r.pos + 2, |g|) == WithoutFirst(ShapeOf(old(g), old(g)[r.pos].r, r.pos + 1, |g|))
    {
      assert NodeOk(g, r.pos);
      Links(order, g, r);
      var next := r.rightlink;
      if next == null {
        return null;
      }
      assert NodeOk(g, next.pos);
      Links(order, g, next);
      if next.leftlink == null {
        DeqNear(r, next);
        deq := next;
      } else {
        deq := DeqFar(r, next);
      }
    }

    /** The right child of the root has no left child. */
    method DeqNear(r: Spblk, next: Spblk)
      requires Wf() && root == r && r.rightlink == next && next.leftlink == null && In(order, next) && In(order, r)
      modifies this`g, order`leftlink, order`rightlink, order`uplink
      ensures Rep(order, g) && r.pos + 1 < |order|
      ensures Removed(r.pos + 1, Place(r.rightlink), next) && Is(order, r.rightlink, Place(r.rightlink))
      ensures forall i :: 0 <= i < r.pos ==> g[i] == old(g)[i]
      ensures g[r.pos].l == old(g)[r.pos].l
      ensures ShapeOf(g, Place(r.rightlink), r.pos + 2, |g|) == WithoutFirst(ShapeOf(old(g), old(g)[r.pos].r, r.pos + 1, |g|))
    {
      assert NodeOk(g, r.pos) && NodeOk(g, next.pos);
      Links(order, g, r);
      Links(order, g, next);
      var c := next.rightlink;
      SetRight(r, c);
      SetUp(c, null);
      DeqFirst(old(g), r.pos, g);
      DeqNearForm(old(g), r.pos, g);
    }

    method DeqFar(r: Spblk, next: Spblk) returns (deq: Spblk)
      requires Wf() && root == r && r.rightlink == next && next.leftlink != null && In(order, next) && In(order, r)
      modifies this`g, order`leftlink, order`rightlink, order`uplink
      ensures Rep(order, g) && r.pos + 1 < |order|
      ensures Removed(r.pos + 1, Place(r.rightlink), deq) && Is(order, r.rightlink, Place(r.rightlink))
      ensures forall i :: 0 <= i < r.pos ==> g[i] == old(g)[i]
      ensures g[r.pos].l == old(g)[r.pos].l
      ensures ShapeOf(g, Place(r.rightlink), r.pos + 2, |g|) == WithoutFirst(ShapeOf(old(g), old(g)[r.pos].r, r.pos + 1, |g|))
    {
      assert NodeOk(g, r.pos) && NodeOk(g, next.pos);
      Links(order, g, r);
      Links(order, g, next);
      Respan(next.pos, r.pos + 2, |g|);
      DeqStart(old(g), r.pos, g);
      DeqBegins(old(g), r.pos, g);
      deq := DeqLoop(next, r.pos + 1);
      Links(order, g, r);
    }

    // ---------------------------------------------------------------- sp_delete

    /** The node at place n leaves the order. */
    ghost method Strike(n: int)
      requires Rep(order, g) && 0 <= n < |order| - 1
      requires forall i :: 0 <= i < |g| && i != n ==> g[i].l != n && g[i].r != n && g[i].u != n
      modifies this`g, this`order, order`pos
      ensures order == old(order)[..n] + old(order)[n + 1..] && g == Dropped(old(g), n)
      ensures Rep(order, g)
    {
      StruckDistinct(order, g, n);
      order := Struck(order, n);
      Number(order);
      g := Dropped(g, n);
      forall i | 0 <= i < |order| ensures Fits(order, g, i) {
        ghost var j := if i < n then i else i + 1;
        assert old(Fits(order, g, j));
        StruckAt(old(order), n, old(g)[j].l);
        StruckAt(old(order), n, old(g)[j].r);
        StruckAt(old(order), n, old(g)[j].u);
      }
    }

    method Succeed(n: Spblk, x: Spblk)
      requires Removed(n.pos + 1, Place(n.rightlink), x) && Is(order, n.rightlink, Place(n.rightlink))
      requires root == n && In(order, n) && LeftPart(g, n.pos)
      modifies this`root, this`g, order`leftlink, order`rightlink, order`uplink
      ensures Rep(order, g) && root == x && n.pos + 1 < |order|
      ensures Tree(Dropped(g, n.pos), n.pos)
      ensures forall i :: 0 <= i < |g| && i != n.pos ==> g[i].l != n.pos && g[i].r != n.pos && g[i].u != n.pos
      ensures ShapeOf(Dropped(g, n.pos), n.pos, 0, |g| - 1) == old(Promoted(g, n.pos, Place(n.rightlink)))
    {
      Links(order, g, n);
      var left, right := root.leftlink, root.rightlink;
      Promote(x, left, right);
      root := x;
      ghost var top := old(Place(n.rightlink));
      assert Succeeded(old(g), n.pos, top, g);
      SucceedAll(old(g), n.pos, top, g);
    }

    /** x gets the subtrees of the old root. */
    method Promote(x: Spblk, left: Spblk?, right: Spblk?)
      requires Rep(order, g) && In(order, x) && Is(order, left, Place(left)) && Is(order, right, Place(right))
      modifies this`g, order`leftlink, order`rightlink, order`uplink
      ensures Rep(order, g) && g == HangR(HangL(PutU(old(g), x.pos, NIL), x.pos, Place(left)), x.pos, Place(right))
    {
      SetUp(x, null);
      AttachLeft(x, left);
      AttachRight(x, right);
    }

    /** The root n has no right subtree. */
    method UnlinkLast(n: Spblk)
      requires Wf() && root == n && g[n.pos].r == NIL
      modifies this`root, this`g, this`order, order`uplink
      ensures Wf() && old(n.pos) + 1 == |old(order)| && order == old(order)[..old(n.pos)]
      ensures ShapeOf(g, Place(root), 0, |g|) == ShapeOf(old(g), old(g)[old(n.pos)].l, 0, old(n.pos))
    {
      Links(order, g, n);
      root := n.leftlink;
      SetUp(root, null);
      DeleteLast(old(g), n.pos, g);
      LastForm(old(g), n.pos, g);
      TrimLast();
    }

    method UnlinkInner(n: Spblk, x: Spblk)
      requires Removed(n.pos + 1, Place(n.rightlink), x) && Is(order, n.rightlink, Place(n.rightlink))
      requires root == n && In(order, n) && LeftPart(g, n.pos)
      modifies this`root, this`g, this`order, order`leftlink, order`rightlink, order`uplink, order`pos
      ensures Wf() && root == x && order == old(order)[..old(n.pos)] + old(order)[old(n.pos) + 1..]
      ensures Place(root) == old(n.pos) && ShapeOf(g, Place(root), 0, |g|) == old(Promoted(g, n.pos, Place(n.rightlink)))
    {
      ghost var k := n.pos;
      Succeed(n, x);
      Strike(k);
      assert order[k] == x && Fits(order, g, k);
    }

    /** The tree part of sp_delete: n leaves the tree, its successor becomes the root. */
    method Unlink(n: Spblk)
      requires Wf() && In(order, n)
      modifies this`root, this`g, this`order, order`leftlink, order`rightlink, order`uplink, order`pos
      ensures Wf() && order == Struck(old(order), old(n.pos))
      ensures old(n.pos) + 1 < |old(order)| ==> root == old(order)[old(n.pos) + 1]
      ensures ShapeOf(g, Place(root), 0, |g|) == WithoutRoot(SplayFrom(old(ShapeOf(g, Place(root), 0, |g|)), old(n.pos), []))
    {
      Splay(n);
      UnlinkRoot(n);
    }

    /** The same for the root. */
    method UnlinkRoot(n: Spblk)
      requires Wf() && root == n && In(order, n)
      modifies this`root, this`g, this`order, order`leftlink, order`rightlink, order`uplink, order`pos
      ensures Wf() && order == Struck(old(order), old(n.pos))
      ensures old(n.pos) + 1 < |old(order)| ==> root == old(order)[old(n.pos) + 1]
      ensures ShapeOf(g, Place(root), 0, |g|) == WithoutRoot(old(ShapeOf(g, n.pos, 0, |g|)))
    {
      LeftOfRoot(g, n.pos);
      assert NodeOk(g, n.pos);
      ghost var g1, k := g, n.pos;
      var x := Deq(n);
      if x == null {
        UnlinkLast(n);
      } else {
        SameInner(g1, g, 0, n.pos);
        SameShape(g1, g, g1[k].l, 0, k);
        UnlinkInner(n, x);
      }
      UnlinkedForm(g1, k);
    }

    ghost method TrimLast()
      requires Rep(order, g) && |order| > 0
      requires forall i :: 0 <= i < |g| - 1 ==> g[i].l != |g| - 1 && g[i].r != |g| - 1 && g[i].u != |g| - 1
      modifies this`g, this`order
      ensures order == old(order)[..|old(order)| - 1] && g == old(g)[..|old(g)| - 1] && Rep(order, g)
    {
      ghost var n := |order| - 1;
      order := order[..n];
      g := g[..n];
      forall i | 0 <= i < |order| ensures Fits(order, g, i) {
        assert old(Fits(order, g, i));
      }
    }

    // ---------------------------------------------------------------- the free chain

    constructor ()
      ensures Valid() && order == [] && pool == []
    {
      root, free, eltscnt := null, null, 0;
      order, g, pool := [], [], [];
    }

    /** A node goes to the head of the free chain. */
    method Release(n: Spblk)
      requires PoolOk() && n !in pool
      modifies this`free, this`pool, n
      ensures PoolOk() && pool == old(pool) + [n]
    {
      n.leftlink, n.rightlink, n.uplink := null, null, null;
      n.key, n.data, n.mark := 0, null, 0;
      n.leftlink := free;
      free := n;
      n.pos := -2 - |pool|;
      pool := pool + [n];
      forall i | 0 <= i < |pool| ensures Chained(pool, i) {
        if i < |pool| - 1 { assert old(Chained(pool, i)); }
      }
    }

    lemma Drained(n: Spblk, top: int)
      requires PoolOk() && top == |pool| - 1 && n == At(pool, top)
      ensures n.leftlink == At(pool, top - 1) && forall i :: 0 <= i < top ==> pool[i] != n
    {
      assert Chained(pool, top);
      forall i | 0 <= i < top ensures pool[i] != n {
        assert Chained(pool, i);
      }
    }

    /** _sp_alloc: a node from the free chain, which is first filled with 1000 new nodes if empty. */
    method Alloc(key: nat) returns (n: Spblk)
      requires PoolOk()
      modifies this`free, this`pool, pool
      ensures PoolOk() && n !in pool && n.key == key && n.leftlink == n.rightlink == n.uplink == null
      ensures if old(pool) == [] then |pool| == 999 && fresh(pool) && fresh(n) else old(pool) == pool + [n]
    {
      if free == null {
        var i := 1000;
        assert pool == [];
        while i > 0
          invariant 0 <= i <= 1000 && PoolOk() && |pool| == 1000 - i && fresh(pool)
        {
          var p := new Spblk();
          assert p !in pool;
          Release(p);
          i := i - 1;
        }
      }
      label Filled:
      n := free;
      ghost var top := |pool| - 1;
      Drained(n, top);
      free := n.leftlink;
      n.key, n.leftlink, n.rightlink, n.uplink := key, null, null, null;
      pool := pool[..top];
      forall i | 0 <= i < top ensures Chained(pool, i) {
        assert old@Filled(Chained(pool, i));
      }
    }

    // ---------------------------------------------------------------- the interface

    /** The finite map that the tree stands for. */
    ghost function Contents(): map<nat, Entry>
      reads this, order
    {
      Table(Rows())
    }

    method Find(key: nat) returns (n: Spblk?)
      requires Valid()
      ensures if n == null then key !in Contents() else In(order, n) && n.key == key && key in Contents()
    {
      KeysAscend();
      n := root;
      ghost var lo, hi := 0, |order|;
      while n != null && key != n.key
        invariant Is(order, n, Place(n)) && Spans(g, Place(n), lo, hi)
        invariant 0 <= lo <= hi <= |order|
        invariant forall i :: 0 <= i < |order| && order[i].key == key ==> lo <= i < hi
        decreases hi - lo
      {
        Links(order, g, n);
        assert NodeOk(g, n.pos);
        if key < n.key {
          hi := n.pos;
          n := n.leftlink;
        } else {
          lo := n.pos + 1;
          n := n.rightlink;
        }
      }
      if n == null {
        TableLacks(Rows(), key);
      } else {
        TableHas(Rows(), n.pos);
      }
    }

    /** sp_lookup: finds the node with the key and splays it. */
    method Lookup(key: nat) returns (n: Spblk?)
      requires Valid()
      modifies this`root, this`g, order`leftlink, order`rightlink, order`uplink
      ensures Valid() && Rows() == old(Rows())
      ensures if key in Contents() then n != null && n in order && n.key == key && root == n else n == null
      ensures if n == null then root == old(root) && g == old(g)
              else ShapeOf(g, n.pos, 0, |g|) == SplayFrom(ShapeOf(old(g), Place(old(root)), 0, |old(g)|), n.pos, [])
    {
      n := Find(key);
      if n != null {
        Separate();
        Splay(n);
        PoolUntouched();
        assert Rows() == old(Rows());
      }
    }

    twostate lemma PoolUntouched()
      requires old(PoolOk()) && free == old(free) && pool == old(pool)
      requires forall m :: m in pool ==> m.leftlink == old(m.leftlink) && m.pos == old(m.pos)
      ensures PoolOk()
    {
      forall i | 0 <= i < |pool| ensures Chained(pool, i) {
        assert old(Chained(pool, i));
        assert pool[i] in pool;
      }
    }

    lemma KeysAscend()
      requires Sorted()
      ensures forall i, j {:trigger order[i].key, order[j].key} :: 0 <= i < j < |order| ==> order[i].key < order[j].key
    {
      forall i, j | 0 <= i < j < |order| ensures order[i].key < order[j].key {
        assert Rows()[i].key < Rows()[j].key;
      }
    }

    /** The number of keys below `key`. */
    lemma Rank(key: nat) returns (k: int)
      requires Sorted()
      ensures 0 <= k <= |order| && forall i {:trigger order[i].key} :: 0 <= i < |order| ==> (order[i].key < key <==> i < k)
    {
      KeysAscend();
      k := 0;
      while k < |order| && order[k].key < key
        invariant 0 <= k <= |order| && forall i :: 0 <= i < k ==> order[i].key < key
      {
        k := k + 1;
      }
    }

    /** The tree and the free chain share no node. */
    lemma Separate()
      requires Rep(order, g) && PoolOk()
      ensures forall m :: m in pool ==> m !in order
    {
      forall i | 0 <= i < |pool| ensures pool[i].pos < 0 {
        assert Chained(pool, i);
      }
      forall j | 0 <= j < |order| ensures order[j].pos >= 0 {
        assert Fits(order, g, j);
      }
    }

    method Fetch(key: nat) returns (n: Spblk)
      requires Valid()
      modifies this`free, this`pool, pool
      ensures Valid() && n !in order && n !in pool && n.key == key && n.leftlink == n.rightlink == null
      ensures (n in old(pool) || fresh(n)) && forall m :: m in pool ==> m in old(pool) || fresh(m)
      ensures forall m :: m in old(pool) ==> m in pool || m == n
      ensures Rows() == old(Rows())
    {
      Separate();
      assert forall i :: 0 <= i < |order| ==> order[i] !in pool;
      n := Alloc(key);
      WfUntouched();
      assert Rows() == old(Rows());
    }

    lemma RowsInserted(o: seq<Spblk>, rows: seq<Row>, k: int, n: Spblk)
      requires 0 <= k <= |o| == |rows| && order == o[..k] + [n] + o[k..]
      requires forall i {:trigger o[i]} :: 0 <= i < |o| ==> RowOf(o[i]) == rows[i]
      ensures Rows() == Inserted(rows, k, RowOf(n))
    {
      var rows' := Inserted(rows, k, RowOf(n));
      forall i | 0 <= i < |order| ensures Rows()[i] == rows'[i] {
        if i < k {
          assert order[i] == o[i];
        } else if i > k {
          assert order[i] == o[i - 1];
        }
      }
    }

    /** The part of sp_install for an absent key. */
    method InstallNew(n: Spblk, ghost k: int)
      requires Valid() && n !in order && n !in pool && n.leftlink == n.rightlink == null && 0 <= k <= |order|
      requires forall i :: 0 <= i < |order| ==> if i < k then order[i].key < n.key else n.key < order[i].key
      modifies this`root, this`g, this`order, this`eltscnt, n`leftlink, n`rightlink, n`uplink, n`pos
      modifies order`leftlink, order`rightlink, order`uplink, order`pos
      ensures Valid() && root == n && order == old(order)[..k] + [n] + old(order)[k..] && n.pos == k
      ensures Rows() == Inserted(old(Rows()), k, RowOf(n))
    {
      Separate();
      ghost var rows := Rows();
      InsertAscending(rows, k, RowOf(n));
      eltscnt := eltscnt + 1;
      Enq(n, k);
      PoolUntouched();
      RowsInserted(old(order), rows, k, n);
    }

    method SetData(n: Spblk, data: object?, mark: int)
      requires Valid() && n in order
      modifies n`data, n`mark
      ensures Valid() && In(order, n) && Rows() == old(Rows())[n.pos := Row(n.key, Entry(data, mark))]
      ensures RowOf(n) == Row(n.key, Entry(data, mark))
    {
      ghost var k :| 0 <= k < |order| && order[k] == n;
      assert Fits(order, g, k);
      ghost var rows := Rows();
      n.data, n.mark := data, mark;
      WfUntouched();
      PoolUntouched();
      forall i | 0 <= i < |order| && i != k ensures order[i] != n {
        assert Fits(order, g, i);
      }
      assert Rows() == rows[k := Row(n.key, Entry(data, mark))];
      TableUpdate(rows, k, Entry(data, mark));
    }

    twostate lemma WfUntouched()
      requires old(Wf()) && root == old(root) && order == old(order) && g == old(g)
      requires forall m :: m in order ==> m.leftlink == old(m.leftlink) && m.rightlink == old(m.rightlink)
                                          && m.uplink == old(m.uplink) && m.pos == old(m.pos)
      ensures Wf()
    {
      forall i | 0 <= i < |order| ensures Fits(order, g, i) {
        assert old(Fits(order, g, i));
        assert order[i] in order;
      }
    }

    method InstallAbsent(key: nat, data: object?, mark: int) returns (n: Spblk, ghost k: int)
      requires Valid() && key !in Contents()
      modifies this, pool, order`leftlink, order`rightlink, order`uplink, order`pos
      ensures Valid() && root == n && n in order && RowOf(n) == Row(key, Entry(data, mark))
      ensures n !in old(order) && 0 <= k <= |old(order)| && order == old(order)[..k] + [n] + old(order)[k..]
      ensures Rows() == Inserted(old(Rows()), k, Row(key, Entry(data, mark)))
      ensures (n in old(pool) || fresh(n)) && forall m :: m in pool ==> m in old(pool) || fresh(m)
      ensures forall m :: m in old(pool) ==> m in pool || m == n
    {
      ghost var rows := Rows();
      k := Rank(key);
      n := Fetch(key);
      forall i | 0 <= i < |order| ensures if i < k then order[i].key < key else key < order[i].key {
        TableHas(rows, i);
        assert Rows()[i] == rows[i];
      }
      InstallNew(n, k);
      ghost var r := RowOf(n);
      SetData(n, data, mark);
      assert Inserted(rows, k, r)[k := Row(key, Entry(data, mark))] == Inserted(rows, k, Row(key, Entry(data, mark)));
    }

    /** sp_install: the binding of the key is set to (data, mark). */
    method Install(key: nat, data: object?, mark: int) returns (n: Spblk)
      requires Valid()
      modifies this, order, pool
      ensures Valid() && root == n && n in order && RowOf(n) == Row(key, Entry(data, mark))
      ensures Contents() == old(Contents())[key := Entry(data, mark)]
      ensures if key in old(Contents()) then order == old(order) && pool == old(pool)
              else n !in old(order) && exists k {:trigger old(order)[..k]} ::
                     0 <= k <= |old(order)| && order == old(order)[..k] + [n] + old(order)[k..]
      ensures (n in old(order) + old(pool) || fresh(n)) && forall m :: m in pool ==> m in old(pool) || fresh(m)
      ensures forall m :: m in old(pool) ==> m in pool || m == n
    {
      ghost var rows := Rows();
      var found := Lookup(key);
      if found == null {
        ghost var k;
        n, k := InstallAbsent(key, data, mark);
        RowsLack(rows, key);
        TableInsert(rows, k, Row(key, Entry(data, mark)));
      } else {
        n := found;
        SetData(n, data, mark);
        TableUpdate(rows, n.pos, Entry(data, mark));
      }
    }

    lemma RowsStruck(o: seq<Spblk>, rows: seq<Row>, k: int)
      requires 0 <= k < |o| == |rows| && order == Struck(o, k)
      requires forall i {:trigger o[i]} :: 0 <= i < |o| && i != k ==> RowOf(o[i]) == rows[i]
      ensures Rows() == rows[..k] + rows[k + 1..]
    {
      forall i | 0 <= i < |order| ensures Rows()[i] == (rows[..k] + rows[k + 1..])[i] {
        assert order[i] == o[if i < k then i else i + 1];
      }
    }

    method Detach(n: Spblk)
      requires Valid() && In(order, n)
      modifies this`root, this`g, this`order, this`eltscnt
      modifies order`leftlink, order`rightlink, order`uplink, order`pos
      ensures Valid() && order == Struck(old(order), old(n.pos)) && n !in order && n !in pool
      ensures old(n.pos) + 1 < |old(order)| ==> root == old(order)[old(n.pos) + 1]
      ensures Rows() == old(Rows())[..old(n.pos)] + old(Rows())[old(n.pos) + 1..]
    {
      ghost var rows, k := Rows(), n.pos;
      Separate();
      assert n in order;
      RepDistinct(order, g);
      StruckLacks(order, k);
      StrikeAscending(rows, k);
      Unlink(n);
      eltscnt := eltscnt - 1;
      PoolUntouched();
      RowsStruck(old(order), rows, k);
    }

    method DetachRow(n: Spblk)
      requires Valid() && In(order, n)
      modifies this`root, this`g, this`order, this`eltscnt
      modifies order`leftlink, order`rightlink, order`uplink, order`pos
      ensures Valid() && order == Struck(old(order), old(n.pos)) && n !in order && n !in pool
      ensures old(n.pos) + 1 < |old(order)| ==> root == old(order)[old(n.pos) + 1]
      ensures Rows() == old(Rows())[..old(n.pos)] + old(Rows())[old(n.pos) + 1..]
      ensures Contents() == old(Contents()) - {old(n.key)}
    {
      TableStrike(Rows(), n.pos);
      Detach(n);
    }

    method Discard(n: Spblk)
      requires Valid() && n !in order && n !in pool
      modifies this`free, this`pool, n
      ensures Valid() && Rows() == old(Rows()) && Contents() == old(Contents()) && pool == old(pool) + [n]
    {
      Release(n);
      WfUntouched();
      assert Rows() == old(Rows());
    }

    /** sp_delete: the node leaves the tree for the free chain; its successor becomes the root. */
    method Delete(n: Spblk)
      requires Valid() && In(order, n)
      modifies this, order
      ensures Valid() && order == Struck(old(order), old(n.pos)) && pool == old(pool) + [n]
      ensures old(n.pos) + 1 < |old(order)| ==> root == old(order)[old(n.pos) + 1]
      ensures Rows() == old(Rows())[..old(n.pos)] + old(Rows())[old(n.pos) + 1..]
      ensures Contents() == old(Contents()) - {old(n.key)}
    {
      DetachRow(n);
      Discard(n);
    }

    // ---------------------------------------------------------------- sp_null

    /** The nodes at places [a, b) still have their links. */
    ghost predicate Intact(a: int, b: int)
      requires 0 <= a && b <= |order| == |g|
      reads this, order
    {
      forall i {:trigger Fits(order, g, i)} :: a <= i < b ==> Fits(order, g, i)
    }

    /** _sp_chop: the subtree of n, at places [a, b), goes to the free chain, node by node. */
    method Chop(n: Spblk, ghost a: int, ghost b: int)
      requires |order| == |g| && AllOk(g) && Distinct(order) && PoolOk()
      requires Is(order, n, Place(n)) && Spans(g, n.pos, a, b) && 0 <= a && b <= |g| && Intact(a, b)
      requires forall i :: a <= i < b ==> order[i] !in pool
      modifies this`free, this`pool, Range(order, a, b)
      ensures PoolOk() && |pool| == |old(pool)| + b - a
      ensures forall m :: m in pool <==> m in old(pool) || m in Range(order, a, b)
      decreases b - a, 1
    {
      ghost var p := n.pos;
      assert NodeOk(g, p) && Fits(order, g, p);
      RangeSplit(order, a, p, b);
      if n.rightlink != null {
        assert NodeOk(g, g[p].r) && Fits(order, g, g[p].r);
        Chop(n.rightlink, p + 1, b);
      }
      assert Intact(a, p + 1);
      ChopLeft(n, a, p);
      Release(n);
    }

    method ChopLeft(n: Spblk, ghost a: int, ghost p: int)
      requires |order| == |g| && AllOk(g) && Distinct(order) && PoolOk()
      requires Is(order, n, p) && 0 <= a <= p < |g| && Spans(g, g[p].l, a, p) && Intact(a, p + 1)
      requires forall i :: a <= i < p ==> order[i] !in pool
      modifies this`free, this`pool, Range(order, a, p)
      ensures PoolOk() && |pool| == |old(pool)| + p - a
      ensures forall m :: m in pool <==> m in old(pool) || m in Range(order, a, p)
      decreases p - a, 2
    {
      assert Fits(order, g, p);
      if n.leftlink != null {
        assert Fits(order, g, g[p].l);
        Chop(n.leftlink, a, p);
      }
    }

    /** sp_null: everything goes to the free chain. */
    method Null()
      requires Valid()
      modifies this, order
      ensures Valid() && order == [] && Contents() == map[]
      ensures |pool| == |old(pool)| + |old(order)|
      ensures forall m :: m in pool <==> m in old(pool) || m in old(order)
    {
      if root == null {
        return;
      }
      Separate();
      RepDistinct(order, g);
      assert forall m :: m in Range(order, 0, |order|) <==> m in order;
      Chop(root, 0, |order|);
      eltscnt := 0;
      root := null;
      order, g := [], [];
    }

    // ---------------------------------------------------------------- walking in order

    /** sp_fhead */
    method FHead() returns (x: Spblk?)
      requires Wf()
      ensures x == At(order, 0)
    {
      x := root;
      if x != null {
        x := Leftmost(x, 0);
      }
    }

    method Leftmost(t: Spblk, ghost lo: int) returns (x: Spblk)
      requires Wf() && In(order, t) && g[t.pos].lo == lo
      ensures 0 <= lo < |order| && x == order[lo]
    {
      x := t;
      assert NodeOk(g, x.pos);
      Links(order, g, x);
      while x.leftlink != null
        invariant In(order, x) && NodeOk(g, x.pos) && g[x.pos].lo == lo && Is(order, x.leftlink, g[x.pos].l)
        decreases x.pos
      {
        x := x.leftlink;
        assert NodeOk(g, x.pos);
        Links(order, g, x);
      }
    }

    /** sp_fnext: the in-order successor, found without splaying. */
    method FNext(n: Spblk) returns (next: Spblk?)
      requires Wf() && In(order, n)
      ensures next == At(order, n.pos + 1)
    {
      assert NodeOk(g, n.pos);
      Links(order, g, n);
      var x := n.rightlink;
      if x != null {
        next := Leftmost(x, n.pos + 1);
      } else {
        next := Climb(n);
      }
    }

    /** The loop of sp_fnext that follows uplinks. */
    method Climb(n0: Spblk) returns (next: Spblk?)
      requires Wf() && In(order, n0) && g[n0.pos].r == NIL
      ensures next == At(order, n0.pos + 1)
    {
      var n := n0;
      assert NodeOk(g, n.pos);
      Links(order, g, n);
      var x := n.uplink;
      next := null;
      while x != null
        invariant In(order, n) && NodeOk(g, n.pos) && Is(order, x, g[n.pos].u)
        invariant if next == null then g[n.pos].hi == n0.pos + 1 else false
        decreases |g| - (g[n.pos].hi - g[n.pos].lo)
      {
        Below(g, root.pos, n.pos);
        assert NodeOk(g, x.pos);
        Links(order, g, x);
        if x.leftlink == n {
          next := x;
          return;
        }
        n := x;
        x := n.uplink;
      }
      Below(g, root.pos, n.pos);
    }

    /** The nodes met by following the links from m: left subtree, m, right subtree. */
    ghost function InOrder(m: Spblk?): seq<Spblk>
      requires Wf() && Is(order, m, Place(m))
      reads this, order, root, m
      decreases if m == null then 0 else g[m.pos].hi - g[m.pos].lo
    {
      if m == null then []
      else
        Sides(m);
        InOrder(m.leftlink) + [m] + InOrder(m.rightlink)
    }

    lemma Sides(m: Spblk)
      requires Wf() && In(order, m)
      ensures NodeOk(g, m.pos)
      ensures Is(order, m.leftlink, Place(m.leftlink)) && Spans(g, Place(m.leftlink), g[m.pos].lo, m.pos)
      ensures Is(order, m.rightlink, Place(m.rightlink)) && Spans(g, Place(m.rightlink), m.pos + 1, g[m.pos].hi)
    {
      assert NodeOk(g, m.pos);
      Links(order, g, m);
    }

    /** Following the links of the heap visits exactly `order`. */
    lemma {:induction false} InOrderIsOrder(m: Spblk?, a: int, b: int)
      requires Wf() && Is(order, m, Place(m)) && Spans(g, Place(m), a, b) && 0 <= a <= b <= |order|
      ensures InOrder(m) == order[a..b]
      decreases b - a
    {
      if m != null {
        Sides(m);
        InOrderIsOrder(m.leftlink, a, m.pos);
        InOrderIsOrder(m.rightlink, m.pos + 1, b);
      }
    }

    method Visit(x: Spblk, drop: nat -> bool)
      requires Valid() && In(order, x)
      modifies this, order
      ensures Valid()
      ensures if drop(old(x.key))
              then order == Struck(old(order), old(x.pos)) && Rows() == old(Rows())[..old(x.pos)] + old(Rows())[old(x.pos) + 1..]
              else order == old(order) && Rows() == old(Rows())
    {
      if drop(x.key) {
        Delete(x);
      }
    }

    /** One round of sp_scan: the successor is taken before the callback may delete the node. */
    method ScanRound(x: Spblk, drop: nat -> bool, ghost p: int, ghost all: set<Spblk>)
      returns (nextx: Spblk?, ghost p': int)
      requires Valid() && 0 <= p < |order| && order[p] == x && (forall m :: m in order ==> m in all)
      modifies this, all
      ensures Valid() && 0 <= p' <= |order| && old(order)[p..] == [x] + order[p'..] && nextx == At(order, p')
      ensures Survivors(Rows(), p', drop) == old(Survivors(Rows(), p, drop))
      ensures forall m :: m in order ==> m in all
    {
      assert Fits(order, g, p);
      assert order[p..] == [x] + order[p + 1..];
      nextx := FNext(x);
      p' := if drop(x.key) then p else p + 1;
      Visit(x, drop);
    }

    /** sp_scan with a callback that deletes the nodes whose key satisfies `drop`. */
    method Scan(start: Spblk?, drop: nat -> bool) returns (visited: seq<Spblk>)
      requires Valid() && Is(order, start, Place(start))
      modifies this, order
      ensures Valid()
      ensures var s := if start == null then 0 else old(start.pos);
        visited == old(order)[s..] && Rows() == old(Survivors(Rows(), s, drop))
    {
      ghost var s := if start == null then 0 else start.pos;
      ghost var p, all := s, set m | m in order;
      var x := start;
      if x == null {
        x := FHead();
      }
      visited := [];
      while x != null
        invariant Valid() && 0 <= p <= |order| && x == At(order, p)
        invariant visited + order[p..] == old(order)[s..]
        invariant Survivors(Rows(), p, drop) == old(Survivors(Rows(), s, drop))
        invariant forall m :: m in order ==> m in all
        decreases |order| - p
      {
        var current: Spblk := x;
        ghost var rest := order[p..];
        x, p := ScanRound(current, drop, p, all);
        VisitedOne(visited, current, rest, order[p..]);
        visited := visited + [current];
      }
    }
  }

  /** The rows that a scan from place p leaves: all before p, and those after it that `drop` spares. */
  ghost function Survivors(rows: seq<Row>, p: int, drop: nat -> bool): seq<Row>
    requires 0 <= p <= |rows|
    decreases |rows| - p
  {
    if p == |rows| then rows
    else if drop(rows[p].key) then Survivors(rows[..p] + rows[p + 1..], p, drop)
    else Survivors(rows, p + 1, drop)
  }

  datatype Entry = Entry(data: object?, mark: int)

  datatype Row = Row(key: nat, entry: Entry)

  ghost function RowOf(m: Spblk): Row
    reads m
  {
    Row(m.key, Entry(m.data, m.mark))
  }

  ghost predicate Ascending(rows: seq<Row>) {
    forall i, j {:trigger rows[i].key, rows[j].key} :: 0 <= i < j < |rows| ==> rows[i].key < rows[j].key
  }

  ghost function Table(rows: seq<Row>): map<nat, Entry> {
    if rows == [] then map[]
    else Table(rows[..|rows| - 1])[rows[|rows| - 1].key := rows[|rows| - 1].entry]
  }

  ghost function Inserted(rows: seq<Row>, k: int, r: Row): (rows': seq<Row>)
    requires 0 <= k <= |rows|
    ensures |rows'| == |rows| + 1
    ensures forall i {:trigger rows'[i]} :: 0 <= i < |rows'| ==>
      rows'[i] == if i < k then rows[i] else if i == k then r else rows[i - 1]
  {
    rows[..k] + [r] + rows[k..]
  }

  lemma InsertAscending(rows: seq<Row>, k: int, r: Row)
    requires Ascending(rows) && 0 <= k <= |rows|
    requires forall i :: 0 <= i < |rows| ==> if i < k then rows[i].key < r.key else r.key < rows[i].key
    ensures Ascending(Inserted(rows, k, r))
  {
  }

  lemma {:induction false} TableHas(rows: seq<Row>, i: int)
    requires Ascending(rows) && 0 <= i < |rows|
    ensures rows[i].key in Table(rows) && Table(rows)[rows[i].key] == rows[i].entry
  {
    if i < |rows| - 1 { TableHas(rows[..|rows| - 1], i); }
  }

  lemma {:induction false} TableAt(rows: seq<Row>, key: nat) returns (i: int)
    requires key in Table(rows)
    ensures 0 <= i < |rows| && rows[i].key == key
  {
    i := |rows| - 1;
    if rows[i].key != key { i := TableAt(rows[..i], key); }
  }

  lemma {:induction false} TableLacks(rows: seq<Row>, key: nat)
    requires forall i :: 0 <= i < |rows| ==> rows[i].key != key
    ensures key !in Table(rows)
  {
    if rows != [] { TableLacks(rows[..|rows| - 1], key); }
  }

  lemma RowsLack(rows: seq<Row>, key: nat)
    requires Ascending(rows) && key !in Table(rows)
    ensures forall i :: 0 <= i < |rows| ==> rows[i].key != key
  {
    forall i | 0 <= i < |rows| ensures rows[i].key != key {
      TableHas(rows, i);
    }
  }

  lemma {:induction false} TableInsert(rows: seq<Row>, k: int, r: Row)
    requires 0 <= k <= |rows| && forall i :: k <= i < |rows| ==> rows[i].key != r.key
    ensures Table(Inserted(rows, k, r)) == Table(rows)[r.key := r.entry]
  {
    var rows', n := Inserted(rows, k, r), |rows|;
    if k == n {
      assert rows'[..n] == rows;
    } else {
      assert rows'[..n] == Inserted(rows[..n - 1], k, r);
      TableInsert(rows[..n - 1], k, r);
    }
  }

  lemma VisitedOne(visited: seq<Spblk>, x: Spblk, rest: seq<Spblk>, more: seq<Spblk>)
    requires rest == [x] + more
    ensures visited + rest == (visited + [x]) + more
  {
    Regroup(visited, [x], more);
  }

  lemma {:induction false} TableUpdate(rows: seq<Row>, k: int, e: Entry)
    requires Ascending(rows) && 0 <= k < |rows|
    ensures Ascending(rows[k := Row(rows[k].key, e)])
    ensures Table(rows[k := Row(rows[k].key, e)]) == Table(rows)[rows[k].key := e]
  {
    var rows', n := rows[k := Row(rows[k].key, e)], |rows| - 1;
    UpdateAscending(rows, k, e);
    if k == n {
      assert rows'[..n] == rows[..n];
    } else {
      assert rows'[..n] == rows[..n][k := Row(rows[k].key, e)];
      TableUpdate(rows[..n], k, e);
      UpdateBack(rows', Table(rows[..n]), rows[k].key, e);
    }
  }

  lemma UpdateAscending(rows: seq<Row>, k: int, e: Entry)
    requires Ascending(rows) && 0 <= k < |rows|
    ensures Ascending(rows[k := Row(rows[k].key, e)])
  {
    var rows' := rows[k := Row(rows[k].key, e)];
    assert forall i :: 0 <= i < |rows| ==> rows'[i].key == rows[i].key;
  }

  /** The last row stays when another key is updated. */
  lemma UpdateBack(rows': seq<Row>, m: map<nat, Entry>, key: nat, e: Entry)
    requires rows' != [] && rows'[|rows'| - 1].key != key && Table(rows'[..|rows'| - 1]) == m[key := e]
    ensures Table(rows') == m[rows'[|rows'| - 1].key := rows'[|rows'| - 1].entry][key := e]
  {
  }

  lemma {:induction false} TableStrike(rows: seq<Row>, k: int)
    requires Ascending(rows) && 0 <= k < |rows|
    ensures Ascending(rows[..k] + rows[k + 1..])
    ensures Table(rows[..k] + rows[k + 1..]) == Table(rows) - {rows[k].key}
  {
    var rows', n := rows[..k] + rows[k + 1..], |rows| - 1;
    StrikeAscending(rows, k);
    if k == n {
      assert rows' == rows[..n];
      TableLacks(rows[..n], rows[n].key);
    } else {
      StrikeLast(rows, k);
      TableStrike(rows[..n], k);
      StrikeBack(rows', Table(rows[..n]), rows[k].key);
    }
  }

  /** The last row stays when another key is struck. */
  lemma StrikeBack(rows': seq<Row>, m: map<nat, Entry>, key: nat)
    requires rows' != [] && rows'[|rows'| - 1].key != key && Table(rows'[..|rows'| - 1]) == m - {key}
    ensures Table(rows') == m[rows'[|rows'| - 1].key := rows'[|rows'| - 1].entry] - {key}
  {
  }

  lemma StrikeLast(rows: seq<Row>, k: int)
    requires 0 <= k < |rows| - 1
    ensures var n := |rows| - 1;
      (rows[..k] + rows[k + 1..])[..n - 1] == rows[..n][..k] + rows[..n][k + 1..] && (rows[..k] + rows[k + 1..])[n - 1] == rows[n]
  {
  }

  lemma StrikeAscending(rows: seq<Row>, k: int)
    requires Ascending(rows) && 0 <= k < |rows|
    ensures Ascending(rows[..k] + rows[k + 1..])
  {
  }

  ghost function Range(nodes: seq<Spblk>, a: int, b: int): set<Spblk>
    requires 0 <= a && b <= |nodes|
  {
    set i | a <= i < b :: nodes[i]
  }

  lemma RangeSplit(nodes: seq<Spblk>, a: int, p: int, b: int)
    requires 0 <= a <= p < b <= |nodes| && Distinct(nodes)
    ensures Range(nodes, a, b) == Range(nodes, a, p) + {nodes[p]} + Range(nodes, p + 1, b)
    ensures forall i :: a <= i <= p ==> nodes[i] !in Range(nodes, p + 1, b)
    ensures nodes[p] !in Range(nodes, a, p)
  {
  }

  lemma StruckLacks(nodes: seq<Spblk>, n: int)
    requires Distinct(nodes) && 0 <= n < |nodes|
    ensures nodes[n] !in Struck(nodes, n)
  {
  }

  ghost function Struck(nodes: seq<Spblk>, n: int): seq<Spblk>
    requires 0 <= n < |nodes|
  {
    nodes[..n] + nodes[n + 1..]
  }

  lemma StruckAt(nodes: seq<Spblk>, n: int, y: int)
    requires 0 <= n < |nodes| && NIL <= y < |nodes| && y != n
    ensures At(Struck(nodes, n), Down(y, n)) == At(nodes, y)
  {
  }

  lemma RepDistinct(nodes: seq<Spblk>, g: seq<Cell>)
    requires Rep(nodes, g)
    ensures Distinct(nodes)
  {
    forall i, j | 0 <= i < j < |nodes| ensures nodes[i] != nodes[j] {
      assert Fits(nodes, g, i) && Fits(nodes, g, j);
    }
  }

  lemma StruckDistinct(nodes: seq<Spblk>, g: seq<Cell>, n: int)
    requires Rep(nodes, g) && 0 <= n < |nodes|
    ensures Distinct(Struck(nodes, n))
  {
    forall i, j | 0 <= i < j < |nodes| - 1 ensures Struck(nodes, n)[i] != Struck(nodes, n)[j] {
      assert Fits(nodes, g, if i < n then i else i + 1) && Fits(nodes, g, if j < n then j else j + 1);
    }
  }

  ghost function Seated(nodes: seq<Spblk>, k: int): seq<Spblk>
    requires 0 <= k < |nodes|
  {
    nodes[..k] + [nodes[|nodes| - 1]] + nodes[k..|nodes| - 1]
  }

  lemma SeatedLast(nodes: seq<Spblk>, n: Spblk, k: int)
    requires 0 <= k <= |nodes|
    ensures Seated(nodes + [n], k) == nodes[..k] + [n] + nodes[k..]
  {
  }

  /** The former number of the node at place i, when the last node has moved to place k. */
  function From(i: int, k: int, last: int): int {
    if i < k then i else if i == k then last else i - 1
  }

  lemma SeatedFrom(nodes: seq<Spblk>, k: int)
    requires 0 <= k < |nodes|
    ensures |Seated(nodes, k)| == |nodes|
    ensures forall i {:trigger Seated(nodes, k)[i]} ::
      0 <= i < |nodes| ==> Seated(nodes, k)[i] == nodes[From(i, k, |nodes| - 1)]
  {
  }

  lemma SeatedAt(nodes: seq<Spblk>, k: int, y: int)
    requires 0 <= k < |nodes| && NIL <= y < |nodes|
    ensures At(Seated(nodes, k), Shift(y, k, |nodes| - 1)) == At(nodes, y)
  {
  }

  /** The node at place i has the links written for it. */
  lemma SeatedFits(nodes: seq<Spblk>, g: seq<Cell>, k: int, i: int)
    requires 0 <= k < |nodes| == |g| && 0 <= i < |nodes|
    requires var j := From(i, k, |nodes| - 1); var m := nodes[j];
      && m.pos == i && m.leftlink == At(nodes, g[j].l) && m.rightlink == At(nodes, g[j].r) && m.uplink == At(nodes, g[j].u)
      && NIL <= g[j].l < |g| && NIL <= g[j].r < |g| && NIL <= g[j].u < |g|
    ensures |Seated(nodes, k)| == |Placed(g, k)| == |nodes| && Fits(Seated(nodes, k), Placed(g, k), i)
  {
    var j := From(i, k, |nodes| - 1);
    SeatedFrom(nodes, k);
    SeatedAt(nodes, k, g[j].l);
    SeatedAt(nodes, k, g[j].r);
    SeatedAt(nodes, k, g[j].u);
  }

  /** The numbers after the last node has moved to place k. */
  ghost method ShiftNumbers(nodes: seq<Spblk>, k: int)
    requires Distinct(nodes)
    modifies nodes`pos
    ensures forall i {:trigger nodes[i]} :: 0 <= i < |nodes| ==> nodes[i].pos == Shift(i, k, |nodes| - 1)
  {
    forall i | 0 <= i < |nodes| {
      nodes[i].pos := Shift(i, k, |nodes| - 1);
    }
  }

  ghost method Renumber(nodes: seq<Spblk>, g: seq<Cell>, k: int)
    requires Rep(nodes, g) && 0 <= k < |nodes|
    modifies nodes`pos
    ensures Rep(Seated(nodes, k), Placed(g, k))
  {
    RepDistinct(nodes, g);
    ShiftNumbers(nodes, k);
    forall i | 0 <= i < |nodes| ensures Fits(Seated(nodes, k), Placed(g, k), i) {
      var j := From(i, k, |nodes| - 1);
      assert old(Fits(nodes, g, j)) && nodes[j].pos == i;
      SeatedFits(nodes, g, k, i);
    }
  }
}
