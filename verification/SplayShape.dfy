/**
 The linked structure of a splay tree as a value.

 Nodes are numbered by their place in the in-order sequence.  The cell of a node holds the
 numbers of its two children and of its parent, and the half-open interval [lo, hi) of places
 that its subtree covers.  All facts about rotations and splits are proved here, on cells;
 SplayTree ties them to the heap.
 */
module SplayShape {

  datatype Cell = Cell(l: int, r: int, u: int, lo: int, hi: int)

  const NIL := -1

  // ------------------------------------------------------------------ well-formed trees

  /** c is absent and [a, b) is empty, or c is the top of a subtree covering [a, b). */
  ghost predicate Spans(g: seq<Cell>, c: int, a: int, b: int) {
    if c == NIL then a == b else a <= c < b && 0 <= c < |g| && g[c].lo == a && g[c].hi == b
  }

  ghost predicate Link(g: seq<Cell>, m: int, c: int, a: int, b: int) {
    Spans(g, c, a, b) && (c != NIL ==> g[c].u == m)
  }

  ghost predicate NodeOk(g: seq<Cell>, m: int)
    requires 0 <= m < |g|
  {
    && 0 <= g[m].lo <= m < g[m].hi <= |g|
    && Link(g, m, g[m].l, g[m].lo, m)
    && Link(g, m, g[m].r, m + 1, g[m].hi)
  }

  ghost predicate AllOk(g: seq<Cell>) {
    forall i {:trigger NodeOk(g, i)} :: 0 <= i < |g| ==> NodeOk(g, i)
  }

  /** g is a binary tree on all its places, in order, with top `root`. */
  ghost predicate Tree(g: seq<Cell>, root: int) {
    AllOk(g) && Link(g, NIL, root, 0, |g|)
  }

  /** The uplink of m is the inverse of a child link, or m covers everything. */
  ghost predicate UpOk(g: seq<Cell>, m: int)
    requires 0 <= m < |g|
  {
    var p := g[m].u;
    if p == NIL then g[m].lo == 0 && g[m].hi == |g|
    else
      && 0 <= p < |g|
      && ((g[p].l == m && g[p].lo == g[m].lo && p == g[m].hi)
          || (g[p].r == m && p + 1 == g[m].lo && g[p].hi == g[m].hi))
  }

  ghost predicate Under(g: seq<Cell>, i: int, j: int)
    requires 0 <= i < |g| && 0 <= j < |g|
  {
    (g[i].lo <= g[j].lo && g[j].hi <= i) || (i < g[j].lo && g[j].hi <= g[i].hi)
  }

  /** Two subtrees are disjoint, or one lies on one side below the other. */
  ghost predicate Laminar(g: seq<Cell>, i: int, j: int)
    requires 0 <= i < |g| && 0 <= j < |g|
  {
    i == j || g[i].hi <= g[j].lo || g[j].hi <= g[i].lo || Under(g, i, j) || Under(g, j, i)
  }

  lemma {:induction false} Below(g: seq<Cell>, t: int, j: int)
    requires AllOk(g) && 0 <= t < |g| && g[t].lo <= j < g[t].hi
    ensures 0 <= j < |g| && (j != t ==> Under(g, t, j) && g[j].u != NIL && UpOk(g, j))
    decreases g[t].hi - g[t].lo
  {
    assert NodeOk(g, t);
    if j != t {
      var c := if j < t then g[t].l else g[t].r;
      assert NodeOk(g, c);
      if c != j { Below(g, c, j); }
    }
  }

  lemma {:induction false} PairLaminar(g: seq<Cell>, t: int, i: int, j: int)
    requires AllOk(g) && 0 <= t < |g| && 0 <= i < |g| && 0 <= j < |g|
    requires g[t].lo <= i < g[t].hi && g[t].lo <= j < g[t].hi
    ensures Laminar(g, i, j)
    decreases g[t].hi - g[t].lo
  {
    assert NodeOk(g, t);
    Below(g, t, i);
    Below(g, t, j);
    if i < t && j < t {
      PairLaminar(g, g[t].l, i, j);
    } else if i > t && j > t {
      PairLaminar(g, g[t].r, i, j);
    } else if i != t && j != t {
      var ci, cj := if i < t then g[t].l else g[t].r, if j < t then g[t].l else g[t].r;
      Below(g, ci, i);
      Below(g, cj, j);
    }
  }

  // ------------------------------------------------------------------ writing one link

  function PutL(g: seq<Cell>, m: int, c: int): seq<Cell> {
    if 0 <= m < |g| then g[m := g[m].(l := c)] else g
  }

  function PutR(g: seq<Cell>, m: int, c: int): seq<Cell> {
    if 0 <= m < |g| then g[m := g[m].(r := c)] else g
  }

  function PutU(g: seq<Cell>, m: int, c: int): seq<Cell> {
    if 0 <= m < |g| then g[m := g[m].(u := c)] else g
  }

  /** c becomes the left child of m, and m the parent of c. */
  function HangL(g: seq<Cell>, m: int, c: int): seq<Cell> {
    PutU(PutL(g, m, c), c, m)
  }

  function HangR(g: seq<Cell>, m: int, c: int): seq<Cell> {
    PutU(PutR(g, m, c), c, m)
  }

  function PutSpan(g: seq<Cell>, m: int, lo: int, hi: int): seq<Cell> {
    if 0 <= m < |g| then g[m := g[m].(lo := lo, hi := hi)] else g
  }

  // ------------------------------------------------------------------ reflection

  function Reflect(x: int, m: int): int {
    if 0 <= x < m then m - 1 - x else x
  }

  function Mirror(c: Cell, m: int): Cell {
    Cell(Reflect(c.r, m), Reflect(c.l, m), Reflect(c.u, m), m - c.hi, m - c.lo)
  }

  /** g with left and right exchanged. */
  ghost function Flip(g: seq<Cell>): (f: seq<Cell>)
    ensures |f| == |g|
    ensures forall i {:trigger f[i]} :: 0 <= i < |f| ==> f[i] == Mirror(g[|g| - 1 - i], |g|)
  {
    seq(|g|, i requires 0 <= i < |g| => Mirror(g[|g| - 1 - i], |g|))
  }

  lemma FlipTwice(g: seq<Cell>)
    ensures Flip(Flip(g)) == g
  {
    forall i | 0 <= i < |g| ensures Flip(Flip(g))[i] == g[i] {
      assert Flip(g)[|g| - 1 - i] == Mirror(g[i], |g|);
    }
  }

  // ------------------------------------------------------------------ bottom-up splaying

  /** How far `_splay` has come: the subtree covering [a, b) has been split around n into the
      trees topped by `left` and `right`; `up` is the next node to deal with and still points
      down to `prev`. */
  datatype Cut = Cut(n: int, prev: int, up: int, left: int, right: int, a: int, b: int)

  ghost predicate Inner(g: seq<Cell>, m: int, a: int, b: int)
    requires 0 <= m < |g|
  {
    NodeOk(g, m) && a <= g[m].lo && g[m].hi <= b
  }

  ghost predicate AllInner(g: seq<Cell>, a: int, b: int)
    requires 0 <= a && b <= |g|
  {
    forall i {:trigger Inner(g, i, a, b)} :: a <= i < b ==> Inner(g, i, a, b)
  }

  /** A place in the span of t is t or lies under it. */
  lemma {:induction false} Descend(g: seq<Cell>, a: int, b: int, t: int, i: int)
    requires 0 <= a && b <= |g| && AllInner(g, a, b) && a <= t < b && g[t].lo <= i < g[t].hi
    ensures 0 <= i < |g| && (i == t || Under(g, t, i))
    decreases g[t].hi - g[t].lo
  {
    assert Inner(g, t, a, b);
    if i != t {
      var c := if i < t then g[t].l else g[t].r;
      assert Inner(g, c, a, b);
      Descend(g, a, b, c, i);
    }
  }

  ghost predicate SplitAt(g: seq<Cell>, n: int, left: int, right: int, a: int, b: int) {
    && 0 <= a <= n < b <= |g|
    && Spans(g, left, a, n) && AllInner(g, a, n)
    && Spans(g, right, n + 1, b) && AllInner(g, n + 1, b)
  }

  ghost predicate Outside(g: seq<Cell>, i: int, a: int, b: int) {
    0 <= i < |g| && !(a <= i < b)
  }

  /** `up` is in order, except that the child link to `prev` stands for the places [a, b). */
  ghost predicate Hole(g: seq<Cell>, up: int, prev: int, a: int, b: int) {
    && 0 <= up < |g| && 0 <= g[up].lo <= up < g[up].hi <= |g|
    && ((g[up].l == prev && g[up].r != prev && g[up].lo == a && up == b
         && Link(g, up, g[up].r, up + 1, g[up].hi))
        || (g[up].r == prev && g[up].l != prev && up + 1 == a && g[up].hi == b
            && Link(g, up, g[up].l, g[up].lo, up)))
  }

  ghost predicate Above(g: seq<Cell>, up: int, prev: int, a: int, b: int) {
    && (forall i {:trigger NodeOk(g, i)} :: Outside(g, i, a, b) && i != up ==> NodeOk(g, i))
    && (forall i {:trigger UpOk(g, i)} :: Outside(g, i, a, b) ==> UpOk(g, i))
    && (forall i, j {:trigger Laminar(g, i, j)} ::
          Outside(g, i, a, b) && Outside(g, j, a, b) ==> Laminar(g, i, j))
    && (if up == NIL then a == 0 && b == |g| else Hole(g, up, prev, a, b))
  }

  ghost predicate SplayInv(g: seq<Cell>, x: Cut) {
    && SplitAt(g, x.n, x.left, x.right, x.a, x.b)
    && Above(g, x.up, x.prev, x.a, x.b)
    && x.a <= x.prev < x.b
  }

  ghost function StartCut(g: seq<Cell>, n: int): Cut
    requires 0 <= n < |g|
  {
    Cut(n, n, g[n].u, g[n].l, g[n].r, g[n].lo, g[n].hi)
  }

  lemma SplayStart(g: seq<Cell>, root: int, n: int)
    requires Tree(g, root) && 0 <= n < |g|
    ensures SplayInv(g, StartCut(g, n))
  {
    var x := StartCut(g, n);
    assert NodeOk(g, n);
    forall i | 0 <= i < |g| ensures UpOk(g, i) && NodeOk(g, i) {
      Below(g, root, i);
    }
    forall i, j | 0 <= i < |g| && 0 <= j < |g| ensures Laminar(g, i, j) {
      PairLaminar(g, root, i, j);
    }
    forall i | x.a <= i < n ensures Inner(g, i, x.a, n) {
      assert NodeOk(g, i);
      Below(g, n, i);
    }
    var m := n + 1;
    forall i | m <= i < x.b ensures Inner(g, i, m, x.b) {
      assert NodeOk(g, i);
      Below(g, n, i);
    }
    assert UpOk(g, n);
    if x.up != NIL { assert NodeOk(g, x.up); }
  }

  // The node `up` goes on top of the right tree.
  ghost predicate Zigged(g: seq<Cell>, x: Cut, g': seq<Cell>)
    requires 0 <= x.up < |g|
  {
    && |g'| == |g|
    && g'[x.up] == g[x.up].(l := x.right, lo := x.n + 1)
    && (0 <= x.right < |g| && x.right != x.up ==> g'[x.right] == g[x.right].(u := x.up))
    && forall k {:trigger g'[k]} :: 0 <= k < |g| && k != x.up && k != x.right ==> g'[k] == g[k]
  }

  ghost predicate CanZig(g: seq<Cell>, x: Cut) {
    SplayInv(g, x) && x.up != NIL && g[x.up].l == x.prev
  }

  ghost function NextCut(g: seq<Cell>, x: Cut): Cut
    requires 0 <= x.up < |g|
  {
    x.(prev := x.up, up := g[x.up].u, right := x.up, b := g[x.up].hi)
  }

  lemma ZigInner(g: seq<Cell>, x: Cut, g': seq<Cell>, i: int)
    requires CanZig(g, x) && Zigged(g, x, g') && x.n < i < g[x.up].hi
    ensures Inner(g', i, x.n + 1, g[x.up].hi)
  {
    if i < x.b {
      assert Inner(g, i, x.n + 1, x.b);
    } else if i != x.up {
      assert NodeOk(g, i) && Laminar(g, i, x.up);
    }
  }

  lemma ZigOuter(g: seq<Cell>, x: Cut, g': seq<Cell>, i: int)
    requires CanZig(g, x) && Zigged(g, x, g') && Outside(g, i, x.a, g[x.up].hi)
    ensures i != g[x.up].u ==> NodeOk(g', i)
    ensures UpOk(g', i)
  {
    assert NodeOk(g, i) && Laminar(g, i, x.up) && UpOk(g, i) && UpOk(g, x.up);
  }

  lemma ZigSplit(g: seq<Cell>, x: Cut, g': seq<Cell>)
    requires CanZig(g, x) && Zigged(g, x, g')
    ensures SplitAt(g', x.n, x.left, x.up, x.a, g[x.up].hi)
  {
    var m, b' := x.n + 1, g[x.up].hi;
    forall i | x.a <= i < x.n ensures Inner(g', i, x.a, x.n) {
      assert Inner(g, i, x.a, x.n);
    }
    forall i | m <= i < b' ensures Inner(g', i, m, b') {
      ZigInner(g, x, g', i);
    }
  }

  lemma ZigAbove(g: seq<Cell>, x: Cut, g': seq<Cell>)
    requires CanZig(g, x) && Zigged(g, x, g')
    ensures Above(g', g[x.up].u, x.up, x.a, g[x.up].hi)
  {
    var b', up' := g[x.up].hi, g[x.up].u;
    forall i | Outside(g', i, x.a, b') ensures (i != up' ==> NodeOk(g', i)) && UpOk(g', i) {
      ZigOuter(g, x, g', i);
    }
    forall i, j | Outside(g', i, x.a, b') && Outside(g', j, x.a, b') ensures Laminar(g', i, j) {
      assert Laminar(g, i, j);
    }
    ZigHole(g, x, g');
  }

  /** The place above the cut after a step. */
  lemma ZigHole(g: seq<Cell>, x: Cut, g': seq<Cell>)
    requires CanZig(g, x) && Zigged(g, x, g')
    ensures var up', b' := g[x.up].u, g[x.up].hi;
      if up' == NIL then x.a == 0 && b' == |g'| else Hole(g', up', x.up, x.a, b')
  {
    var up' := g[x.up].u;
    assert UpOk(g, x.up);
    if up' != NIL {
      assert Laminar(g, up', x.up) && NodeOk(g, up');
    }
  }

  lemma Zig(g: seq<Cell>, x: Cut, g': seq<Cell>)
    requires CanZig(g, x) && Zigged(g, x, g')
    ensures SplayInv(g', NextCut(g, x)) && x.b < g[x.up].hi
  {
    ZigSplit(g, x, g');
    ZigAbove(g, x, g');
  }

  // `up`, the left child of p = up.u, is rotated above p.
  ghost predicate Rotated(g: seq<Cell>, up: int, g': seq<Cell>)
    requires 0 <= up < |g|
  {
    var p, c := g[up].u, g[up].r;
    && 0 <= p < |g| && |g'| == |g|
    && g'[up] == g[up].(r := p, u := g[p].u, hi := g[p].hi)
    && g'[p] == g[p].(l := c, u := up, lo := up + 1)
    && (0 <= c < |g| ==> g'[c] == g[c].(u := p))
    && (0 <= g[p].u < |g| ==>
          var q := g[p].u;
          g'[q] == if g[q].l == p then g[q].(l := up) else g[q].(r := up))
    && forall k {:trigger g'[k]} ::
         0 <= k < |g| && k != up && k != p && k != c && k != g[p].u ==> g'[k] == g[k]
  }

  ghost predicate CanRotate(g: seq<Cell>, x: Cut) {
    CanZig(g, x) && 0 <= g[x.up].u < |g| && g[g[x.up].u].l == x.up
  }

  ghost predicate Apart(up: int, p: int, c: int, q: int) {
    p != up && c != up && c != p && q != up && q != p && (q != c || q == NIL)
  }

  /** The child link of q to p is turned to `up`. */
  function Rehang(g: seq<Cell>, q: int, p: int, up: int): seq<Cell> {
    if 0 <= q < |g| && g[q].l == p then PutL(g, q, up) else PutR(g, q, up)
  }

  /** The writes of the code, one after the other, rotate `up` over p. */
  lemma RotateSteps(g: seq<Cell>, g1: seq<Cell>, g2: seq<Cell>, g3: seq<Cell>, g4: seq<Cell>, g': seq<Cell>,
                    up: int, p: int, c: int, q: int)
    requires 0 <= up < |g| && 0 <= p < |g| && p == g[up].u && c == g[up].r && q == g[p].u && Apart(up, p, c, q)
    requires g1 == HangL(g, p, c) && g2 == HangR(g1, up, p) && g3 == Rehang(g2, q, p, up) && g4 == PutU(g3, up, q)
    requires g' == PutSpan(PutSpan(g4, up, g[up].lo, g[p].hi), p, up + 1, g[p].hi)
    ensures Rotated(g, up, g')
  {
  }

  /** The nodes a rotation touches are distinct and outside the split part. */
  lemma RotateFacts(g: seq<Cell>, x: Cut)
    requires CanRotate(g, x)
    ensures var p, c := g[x.up].u, g[x.up].r;
            var q := g[p].u;
            && Apart(x.up, p, c, q)
            && Outside(g, p, x.a, x.b) && NodeOk(g, p) && g[x.up].hi == p && g[p].lo == x.a
            && (c == NIL || (x.up < c < p && NodeOk(g, c)))
            && (if q == NIL then g[p].lo == 0 && g[p].hi == |g|
                else Outside(g, q, x.a, x.b) && NodeOk(g, q) && Under(g, q, p) && UpOk(g, p)
                     && q != x.up && q != p && q != c)
  {
    var p, c := g[x.up].u, g[x.up].r;
    var q := g[p].u;
    assert UpOk(g, x.up) && NodeOk(g, p) && UpOk(g, p);
    if q != NIL { assert NodeOk(g, q); }
    if c != NIL { assert NodeOk(g, c); }
  }

  lemma RotateNode(g: seq<Cell>, x: Cut, g': seq<Cell>, i: int)
    requires CanRotate(g, x) && Rotated(g, x.up, g') && Outside(g, i, x.a, x.b)
    ensures i != x.up ==> NodeOk(g', i)
  {
    RotateFacts(g, x);
    if i != x.up { assert NodeOk(g, i); }
  }

  lemma RotateUp(g: seq<Cell>, x: Cut, g': seq<Cell>, i: int)
    requires CanRotate(g, x) && Rotated(g, x.up, g') && Outside(g, i, x.a, x.b)
    ensures UpOk(g', i)
  {
    RotateFacts(g, x);
    assert UpOk(g, i);
    if i != x.up { assert NodeOk(g, i); }
  }

  lemma RotateTop(g: seq<Cell>, x: Cut, g': seq<Cell>, j: int)
    requires CanRotate(g, x) && Rotated(g, x.up, g') && Outside(g, j, x.a, x.b)
    ensures Laminar(g', x.up, j) && Laminar(g', g[x.up].u, j)
  {
    RotateFacts(g, x);
    var p := g[x.up].u;
    if j != x.up && j != p {
      assert Laminar(g, x.up, j) && Laminar(g, p, j) && NodeOk(g, j);
    }
  }

  lemma RotateLaminar(g: seq<Cell>, x: Cut, g': seq<Cell>, i: int, j: int)
    requires CanRotate(g, x) && Rotated(g, x.up, g')
    requires Outside(g, i, x.a, x.b) && Outside(g, j, x.a, x.b)
    ensures Laminar(g', i, j)
  {
    var p := g[x.up].u;
    if i == x.up || i == p {
      RotateTop(g, x, g', j);
    } else if j == x.up || j == p {
      RotateTop(g, x, g', i);
    } else {
      assert Laminar(g, i, j);
    }
  }

  lemma RotateAbove(g: seq<Cell>, x: Cut, g': seq<Cell>)
    requires CanRotate(g, x) && Rotated(g, x.up, g')
    ensures Above(g', x.up, x.prev, x.a, x.b)
  {
    forall i | Outside(g', i, x.a, x.b) ensures (i != x.up ==> NodeOk(g', i)) && UpOk(g', i) {
      RotateNode(g, x, g', i);
      RotateUp(g, x, g', i);
    }
    forall i, j | Outside(g', i, x.a, x.b) && Outside(g', j, x.a, x.b) ensures Laminar(g', i, j) {
      RotateLaminar(g, x, g', i, j);
    }
    RotateFacts(g, x);
  }

  lemma SameInner(g: seq<Cell>, g': seq<Cell>, a: int, b: int)
    requires |g'| == |g| && 0 <= a && b <= |g| && AllInner(g, a, b)
    requires forall k {:trigger g'[k]} :: a <= k < b ==> g'[k] == g[k]
    ensures AllInner(g', a, b)
  {
    forall i | a <= i < b ensures Inner(g', i, a, b) {
      assert Inner(g, i, a, b);
    }
  }

  lemma Rotate(g: seq<Cell>, x: Cut, g': seq<Cell>)
    requires CanRotate(g, x) && Rotated(g, x.up, g')
    ensures CanZig(g', x) && g'[x.up].u == g[g[x.up].u].u && g'[x.up].hi == g[g[x.up].u].hi
  {
    RotateFacts(g, x);
    RotateAbove(g, x, g');
    SameInner(g, g', x.a, x.n);
    SameInner(g, g', x.n + 1, x.b);
  }

  // ------------------------------------------------------------------ the mirrored steps

  ghost function FlipCut(x: Cut, m: int): Cut {
    Cut(Reflect(x.n, m), Reflect(x.prev, m), Reflect(x.up, m), Reflect(x.right, m), Reflect(x.left, m),
        m - x.b, m - x.a)
  }

  lemma FlipNode(g: seq<Cell>, i: int)
    requires 0 <= i < |g|
    ensures NodeOk(g, i) ==> NodeOk(Flip(g), |g| - 1 - i)
    ensures UpOk(g, i) ==> UpOk(Flip(g), |g| - 1 - i)
  {
  }

  lemma FlipLaminar(g: seq<Cell>, i: int, j: int)
    requires 0 <= i < |g| && 0 <= j < |g| && Laminar(g, i, j)
    ensures Laminar(Flip(g), |g| - 1 - i, |g| - 1 - j)
  {
  }

  lemma FlipInner(g: seq<Cell>, a: int, b: int)
    requires 0 <= a && b <= |g| && AllInner(g, a, b)
    ensures AllInner(Flip(g), |g| - b, |g| - a)
  {
    var f, a', b' := Flip(g), |g| - b, |g| - a;
    forall i | a' <= i < b' ensures Inner(f, i, a', b') {
      assert Inner(g, |g| - 1 - i, a, b);
      FlipNode(g, |g| - 1 - i);
    }
  }

  lemma FlipHole(g: seq<Cell>, up: int, prev: int, a: int, b: int)
    requires 0 <= a <= prev < b <= |g| && Hole(g, up, prev, a, b)
    ensures Hole(Flip(g), |g| - 1 - up, |g| - 1 - prev, |g| - b, |g| - a)
  {
  }

  lemma FlipOuter(g: seq<Cell>, up: int, prev: int, a: int, b: int, i: int)
    requires 0 <= a <= prev < b <= |g| && Above(g, up, prev, a, b) && Outside(g, i, |g| - b, |g| - a)
    ensures i != Reflect(up, |g|) ==> NodeOk(Flip(g), i)
    ensures UpOk(Flip(g), i)
  {
    var k := |g| - 1 - i;
    FlipNode(g, k);
    assert UpOk(g, k);
    if k != up { assert NodeOk(g, k); }
  }

  lemma FlipOuterPair(g: seq<Cell>, up: int, prev: int, a: int, b: int, i: int, j: int)
    requires 0 <= a <= prev < b <= |g| && Above(g, up, prev, a, b)
    requires Outside(g, i, |g| - b, |g| - a) && Outside(g, j, |g| - b, |g| - a)
    ensures Laminar(Flip(g), i, j)
  {
    var k, k' := |g| - 1 - i, |g| - 1 - j;
    assert Laminar(g, k, k');
    FlipLaminar(g, k, k');
  }

  lemma FlipAbove(g: seq<Cell>, up: int, prev: int, a: int, b: int)
    requires 0 <= a <= prev < b <= |g| && Above(g, up, prev, a, b)
    ensures Above(Flip(g), Reflect(up, |g|), Reflect(prev, |g|), |g| - b, |g| - a)
  {
    var f, m := Flip(g), |g|;
    var up', a', b' := Reflect(up, m), m - b, m - a;
    forall i | Outside(f, i, a', b') ensures (i != up' ==> NodeOk(f, i)) && UpOk(f, i) {
      FlipOuter(g, up, prev, a, b, i);
    }
    forall i, j | Outside(f, i, a', b') && Outside(f, j, a', b') ensures Laminar(f, i, j) {
      FlipOuterPair(g, up, prev, a, b, i, j);
    }
    if up != NIL { FlipHole(g, up, prev, a, b); }
  }

  lemma FlipInv(g: seq<Cell>, x: Cut)
    requires SplayInv(g, x)
    ensures SplayInv(Flip(g), FlipCut(x, |g|))
  {
    FlipSplitAt(g, x);
    FlipAbove(g, x.up, x.prev, x.a, x.b);
  }

  lemma FlipSplitAt(g: seq<Cell>, x: Cut)
    requires SplitAt(g, x.n, x.left, x.right, x.a, x.b)
    ensures var y := FlipCut(x, |g|); SplitAt(Flip(g), y.n, y.left, y.right, y.a, y.b)
  {
    FlipInner(g, x.a, x.n);
    FlipInner(g, x.n + 1, x.b);
  }

  ghost predicate CanZigLeft(g: seq<Cell>, x: Cut) {
    SplayInv(g, x) && x.up != NIL && g[x.up].r == x.prev
  }

  ghost predicate ZiggedLeft(g: seq<Cell>, x: Cut, g': seq<Cell>)
    requires 0 <= x.up < |g|
  {
    && |g'| == |g|
    && g'[x.up] == g[x.up].(r := x.left, hi := x.n)
    && (0 <= x.left < |g| && x.left != x.up ==> g'[x.left] == g[x.left].(u := x.up))
    && forall k {:trigger g'[k]} :: 0 <= k < |g| && k != x.up && k != x.left ==> g'[k] == g[k]
  }

  ghost function NextCutLeft(g: seq<Cell>, x: Cut): Cut
    requires 0 <= x.up < |g|
  {
    x.(prev := x.up, up := g[x.up].u, left := x.up, a := g[x.up].lo)
  }

  lemma FlipZigged(g: seq<Cell>, x: Cut, g': seq<Cell>)
    requires CanZigLeft(g, x) && ZiggedLeft(g, x, g')
    ensures CanZig(Flip(g), FlipCut(x, |g|)) && Zigged(Flip(g), FlipCut(x, |g|), Flip(g'))
  {
    FlipInv(g, x);
    var f, f', y := Flip(g), Flip(g'), FlipCut(x, |g|);
    forall k {:trigger f'[k]} | 0 <= k < |g| && k != y.up && k != y.right ensures f'[k] == f[k] {
      assert g'[|g| - 1 - k] == g[|g| - 1 - k];
    }
  }

  lemma FlipNextCut(g: seq<Cell>, x: Cut)
    requires 0 <= x.up < |g|
    ensures FlipCut(FlipCut(x, |g|), |g|) == x
    ensures FlipCut(NextCut(Flip(g), FlipCut(x, |g|)), |g|) == NextCutLeft(g, x)
  {
  }

  lemma ZigAndFlip(g: seq<Cell>, x: Cut, g': seq<Cell>)
    requires CanZig(g, x) && Zigged(g, x, g')
    ensures SplayInv(Flip(g'), FlipCut(NextCut(g, x), |g|)) && x.b < g[x.up].hi
  {
    Zig(g, x, g');
    FlipInv(g', NextCut(g, x));
  }

  /** The same with the mirror images named. */
  lemma ZigBack(f: seq<Cell>, y: Cut, g': seq<Cell>, x': Cut)
    requires CanZig(f, y) && Zigged(f, y, Flip(g')) && x' == FlipCut(NextCut(f, y), |f|)
    ensures SplayInv(g', x') && y.b < f[y.up].hi
  {
    FlipTwice(g');
    ZigAndFlip(f, y, Flip(g'));
  }

  lemma ZigLeft(g: seq<Cell>, x: Cut, g': seq<Cell>)
    requires CanZigLeft(g, x) && ZiggedLeft(g, x, g')
    ensures SplayInv(g', NextCutLeft(g, x)) && g[x.up].lo < x.a
  {
    FlipZigged(g, x, g');
    FlipNextCut(g, x);
    ZigBack(Flip(g), FlipCut(x, |g|), g', NextCutLeft(g, x));
  }

  ghost predicate RotatedLeft(g: seq<Cell>, up: int, g': seq<Cell>)
    requires 0 <= up < |g|
  {
    var p, c := g[up].u, g[up].l;
    && 0 <= p < |g| && |g'| == |g|
    && g'[up] == g[up].(l := p, u := g[p].u, lo := g[p].lo)
    && g'[p] == g[p].(r := c, u := up, hi := up)
    && (0 <= c < |g| ==> g'[c] == g[c].(u := p))
    && (0 <= g[p].u < |g| ==>
          var q := g[p].u;
          g'[q] == if g[q].r == p then g[q].(r := up) else g[q].(l := up))
    && forall k {:trigger g'[k]} ::
         0 <= k < |g| && k != up && k != p && k != c && k != g[p].u ==> g'[k] == g[k]
  }

  function RehangRight(g: seq<Cell>, q: int, p: int, up: int): seq<Cell> {
    if 0 <= q < |g| && g[q].r == p then PutR(g, q, up) else PutL(g, q, up)
  }

  lemma RotateLeftSteps(g: seq<Cell>, g1: seq<Cell>, g2: seq<Cell>, g3: seq<Cell>, g4: seq<Cell>, g': seq<Cell>,
                        up: int, p: int, c: int, q: int)
    requires 0 <= up < |g| && 0 <= p < |g| && p == g[up].u && c == g[up].l && q == g[p].u && Apart(up, p, c, q)
    requires g1 == HangR(g, p, c) && g2 == HangL(g1, up, p) && g3 == RehangRight(g2, q, p, up) && g4 == PutU(g3, up, q)
    requires g' == PutSpan(PutSpan(g4, up, g[p].lo, g[up].hi), p, g[p].lo, up)
    ensures RotatedLeft(g, up, g')
  {
  }

  lemma RotateLeftFacts(g: seq<Cell>, x: Cut)
    requires CanRotateLeft(g, x)
    ensures Apart(x.up, g[x.up].u, g[x.up].l, g[g[x.up].u].u)
  {
    var p, c := g[x.up].u, g[x.up].l;
    var q := g[p].u;
    assert UpOk(g, x.up) && NodeOk(g, p) && UpOk(g, p);
    if q != NIL { assert NodeOk(g, q); }
    if c != NIL { assert NodeOk(g, c); }
  }

  ghost predicate CanRotateLeft(g: seq<Cell>, x: Cut) {
    CanZigLeft(g, x) && 0 <= g[x.up].u < |g| && g[g[x.up].u].r == x.up
  }

  lemma FlipRotatedCells(g: seq<Cell>, up: int, g': seq<Cell>)
    requires 0 <= up < |g| && RotatedLeft(g, up, g')
    ensures Rotated(Flip(g), |g| - 1 - up, Flip(g'))
  {
    var f, f', m := Flip(g), Flip(g'), |g|;
    var v := m - 1 - up;
    var p, c := f[v].u, f[v].r;
    forall k {:trigger f'[k]} | 0 <= k < m && k != v && k != p && k != c && k != f[p].u ensures f'[k] == f[k] {
      assert g'[m - 1 - k] == g[m - 1 - k];
    }
  }

  lemma FlipCanRotate(g: seq<Cell>, x: Cut)
    requires CanRotateLeft(g, x)
    ensures CanRotate(Flip(g), FlipCut(x, |g|))
  {
    FlipInv(g, x);
  }

  lemma RotateAndFlip(g: seq<Cell>, x: Cut, g': seq<Cell>)
    requires CanRotate(g, x) && Rotated(g, x.up, g')
    ensures CanZigLeft(Flip(g'), FlipCut(x, |g|))
    ensures g'[x.up].u == g[g[x.up].u].u && g'[x.up].hi == g[g[x.up].u].hi
  {
    Rotate(g, x, g');
    FlipInv(g', x);
  }

  lemma RotateBack(f: seq<Cell>, y: Cut, g': seq<Cell>, x: Cut)
    requires CanRotate(f, y) && Rotated(f, y.up, Flip(g')) && x == FlipCut(y, |f|)
    ensures CanZigLeft(g', x) && Flip(g')[y.up].u == f[f[y.up].u].u && Flip(g')[y.up].hi == f[f[y.up].u].hi
  {
    FlipTwice(g');
    RotateAndFlip(f, y, Flip(g'));
  }

  lemma RotateLeft(g: seq<Cell>, x: Cut, g': seq<Cell>)
    requires CanRotateLeft(g, x) && RotatedLeft(g, x.up, g')
    ensures CanZigLeft(g', x) && g'[x.up].u == g[g[x.up].u].u && g'[x.up].lo == g[g[x.up].u].lo
  {
    FlipCanRotate(g, x);
    FlipRotatedCells(g, x.up, g');
    FlipNextCut(g, x);
    RotateBack(Flip(g), FlipCut(x, |g|), g', x);
  }

  // The two subtrees are hung under n.
  ghost predicate Joined(g: seq<Cell>, x: Cut, g': seq<Cell>)
    requires 0 <= x.n < |g|
  {
    && |g'| == |g|
    && g'[x.n] == Cell(x.left, x.right, NIL, x.a, x.b)
    && (0 <= x.left < |g| ==> g'[x.left] == g[x.left].(u := x.n))
    && (0 <= x.right < |g| ==> g'[x.right] == g[x.right].(u := x.n))
    && forall k {:trigger g'[k]} :: 0 <= k < |g| && k != x.n && k != x.left && k != x.right ==> g'[k] == g[k]
  }

  lemma SplayEnd(g: seq<Cell>, x: Cut, g': seq<Cell>)
    requires SplayInv(g, x) && x.up == NIL && Joined(g, x, g')
    ensures Tree(g', x.n)
  {
    forall i | 0 <= i < |g| ensures NodeOk(g', i) {
      if i < x.n {
        assert Inner(g, i, x.a, x.n);
      } else if i > x.n {
        assert Inner(g, i, x.n + 1, x.b);
      }
    }
  }
}
