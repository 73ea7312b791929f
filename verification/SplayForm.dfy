/**
 Splaying on trees as values: the shape that _splay of zmailer/lib/splay.c gives to a tree.
 */
module SplayForm {
  import opened SplayShape

  /** A tree of places. */
  datatype Shape = Leaf | Node(left: Shape, at: int, right: Shape)

  /** The shape under c, which covers the places [a, b). */
  ghost function ShapeOf(g: seq<Cell>, c: int, a: int, b: int): Shape
    decreases b - a
  {
    if a <= c < b && 0 <= c < |g| then Node(ShapeOf(g, g[c].l, a, c), c, ShapeOf(g, g[c].r, c + 1, b)) else Leaf
  }

  /** A node above, with its other subtree; `left` if the way down from it goes to the left. */
  datatype Frame = Frame(left: bool, at: int, other: Shape)

  // ------------------------------------------------------------------ the reference

  /** Splaying with the subtrees l and r of n so far, and the nodes above, from below: a node goes on top of
      the tree on its side; if the next one is on the same side, it goes below it there first. */
  ghost function Splayed(above: seq<Frame>, l: Shape, n: int, r: Shape): Shape
    decreases |above|
  {
    if above == [] then Node(l, n, r)
    else
      var f := above[0];
      var double := |above| > 1 && above[1].left == f.left;
      if f.left then
        if double then Splayed(above[2..], l, n, Node(r, f.at, Node(f.other, above[1].at, above[1].other)))
        else Splayed(above[1..], l, n, Node(r, f.at, f.other))
      else
        if double then Splayed(above[2..], Node(Node(above[1].other, above[1].at, f.other), f.at, l), n, r)
        else Splayed(above[1..], Node(f.other, f.at, l), n, r)
  }

  /** The search for n from the top of t, below the nodes in `above`. */
  ghost function SplayFrom(t: Shape, n: int, above: seq<Frame>): Shape {
    match t
    case Leaf => Leaf
    case Node(l, p, r) =>
      if n == p then Splayed(above, l, p, r)
      else if n < p then SplayFrom(l, n, [Frame(true, p, r)] + above)
      else SplayFrom(r, n, [Frame(false, p, l)] + above)
  }

  // ------------------------------------------------------------------ shapes and frames of cells

  /** c is the child of up that covers [a, b). */
  ghost predicate Covers(g: seq<Cell>, up: int, c: int, a: int, b: int) {
    && 0 <= up < |g| && 0 <= g[up].lo <= up < g[up].hi <= |g|
    && if g[up].l == c then g[up].lo == a && up == b else g[up].r == c && up + 1 == a && g[up].hi == b
  }

  /** The nodes above [a, b), from below. */
  ghost function AboveOf(g: seq<Cell>, up: int, c: int, a: int, b: int): seq<Frame>
    decreases |g| - (b - a)
  {
    if !Covers(g, up, c, a, b) then []
    else [FrameOf(g, up, c)] + AboveOf(g, g[up].u, up, g[up].lo, g[up].hi)
  }

  ghost function FrameOf(g: seq<Cell>, up: int, c: int): Frame
    requires 0 <= up < |g|
  {
    if g[up].l == c then Frame(true, up, ShapeOf(g, g[up].r, up + 1, g[up].hi))
    else Frame(false, up, ShapeOf(g, g[up].l, g[up].lo, up))
  }

  /** The children agree in [a, b). */
  ghost predicate SameChildren(g: seq<Cell>, h: seq<Cell>, a: int, b: int) {
    |g| == |h| && forall k {:trigger h[k]} :: a <= k < b && 0 <= k < |g| ==> h[k].l == g[k].l && h[k].r == g[k].r
  }

  lemma {:induction false} SameShape(g: seq<Cell>, h: seq<Cell>, c: int, a: int, b: int)
    requires SameChildren(g, h, a, b)
    ensures ShapeOf(h, c, a, b) == ShapeOf(g, c, a, b)
    decreases b - a
  {
    if a <= c < b && 0 <= c < |g| {
      assert h[c].l == g[c].l && h[c].r == g[c].r;
      SameShape(g, h, g[c].l, a, c);
      SameShape(g, h, g[c].r, c + 1, b);
    }
  }

  /** The cells agree outside [a, b). */
  ghost predicate SameOutside(g: seq<Cell>, h: seq<Cell>, a: int, b: int) {
    |g| == |h| && forall k {:trigger h[k]} :: 0 <= k < |g| && !(a <= k < b) ==> h[k] == g[k]
  }

  lemma {:induction false} SameAbove(g: seq<Cell>, h: seq<Cell>, up: int, c: int, a: int, b: int)
    requires SameOutside(g, h, a, b)
    ensures AboveOf(h, up, c, a, b) == AboveOf(g, up, c, a, b)
    decreases |g| - (b - a)
  {
    if 0 <= up < |g| && !(a <= up < b) { assert h[up] == g[up]; }
    if Covers(g, up, c, a, b) {
      assert Covers(h, up, c, a, b);
      if g[up].l == c {
        SameShape(g, h, g[up].r, up + 1, g[up].hi);
      } else {
        SameShape(g, h, g[up].l, g[up].lo, up);
      }
      SameAbove(g, h, g[up].u, up, g[up].lo, g[up].hi);
    }
  }

  /** Subtrees and nodes above, at a point of the loop. */
  ghost function LeftOf(g: seq<Cell>, x: Cut): Shape {
    ShapeOf(g, x.left, x.a, x.n)
  }

  ghost function RightOf(g: seq<Cell>, x: Cut): Shape {
    ShapeOf(g, x.right, x.n + 1, x.b)
  }

  ghost function Frames(g: seq<Cell>, x: Cut): seq<Frame> {
    AboveOf(g, x.up, x.prev, x.a, x.b)
  }

  // ------------------------------------------------------------------ the steps of the loop, to the right

  lemma ZigRest(g: seq<Cell>, x: Cut, g': seq<Cell>)
    requires CanZig(g, x) && Zigged(g, x, g')
    ensures AboveOf(g', g[x.up].u, x.up, x.a, g[x.up].hi) == AboveOf(g, g[x.up].u, x.up, x.a, g[x.up].hi)
    ensures LeftOf(g', NextCut(g, x)) == LeftOf(g, x)
  {
    SameAbove(g, g', g[x.up].u, x.up, x.a, g[x.up].hi);
    SameShape(g, g', x.left, x.a, x.n);
  }

  lemma ZigRight(g: seq<Cell>, x: Cut, g': seq<Cell>)
    requires CanZig(g, x) && Zigged(g, x, g')
    ensures RightOf(g', NextCut(g, x)) == Node(RightOf(g, x), x.up, ShapeOf(g, g[x.up].r, x.up + 1, g[x.up].hi))
  {
    SameShape(g, g', x.right, x.n + 1, x.up);
    SameShape(g, g', g[x.up].r, x.up + 1, g[x.up].hi);
  }

  /** Hanging `up` under the right tree takes one frame away. */
  lemma ZigForm(g: seq<Cell>, x: Cut, g': seq<Cell>)
    requires CanZig(g, x) && Zigged(g, x, g')
    ensures var s := ShapeOf(g, g[x.up].r, x.up + 1, g[x.up].hi);
      && Frames(g, x) == [Frame(true, x.up, s)] + Frames(g', NextCut(g, x))
      && RightOf(g', NextCut(g, x)) == Node(RightOf(g, x), x.up, s) && LeftOf(g', NextCut(g, x)) == LeftOf(g, x)
  {
    ZigRest(g, x, g');
    ZigRight(g, x, g');
    assert Covers(g, x.up, x.prev, x.a, x.b);
  }

  /** The child link of q turns from p to `up`, which then covers the same places. */
  lemma RehungFrame(g: seq<Cell>, g': seq<Cell>, q: int, p: int, up: int, a: int, b: int)
    requires |g'| == |g| && 0 <= q < |g| && Covers(g, q, p, a, b) && a <= up < b && NodeOk(g, q)
    requires g'[q] == if g[q].l == p then g[q].(l := up) else g[q].(r := up)
    requires forall k {:trigger g'[k]} :: 0 <= k < |g| && !(a <= k < b) && k != q ==> g'[k] == g[k]
    ensures Covers(g', q, up, a, b) && FrameOf(g', q, up) == FrameOf(g, q, p)
  {
    if g[q].l == p {
      SameShape(g, g', g[q].r, q + 1, g[q].hi);
    } else {
      SameShape(g, g', g[q].l, g[q].lo, q);
    }
  }

  lemma RehungAbove(g: seq<Cell>, g': seq<Cell>, q: int, p: int, up: int, a: int, b: int)
    requires |g'| == |g| && 0 <= q < |g| && Covers(g, q, p, a, b) && a <= up < b && NodeOk(g, q)
    requires g'[q] == if g[q].l == p then g[q].(l := up) else g[q].(r := up)
    requires forall k {:trigger g'[k]} :: 0 <= k < |g| && !(a <= k < b) && k != q ==> g'[k] == g[k]
    ensures AboveOf(g', q, up, a, b) == AboveOf(g, q, p, a, b)
  {
    RehungFrame(g, g', q, p, up, a, b);
    SameAbove(g, g', g[q].u, q, g[q].lo, g[q].hi);
  }

  lemma RotatedRest(g: seq<Cell>, x: Cut, g': seq<Cell>)
    requires CanRotate(g, x) && Rotated(g, x.up, g')
    ensures var p := g[x.up].u; AboveOf(g', g[p].u, x.up, x.a, g[p].hi) == AboveOf(g, g[p].u, p, x.a, g[p].hi)
  {
    RotateFacts(g, x);
    var p := g[x.up].u;
    var q := g[p].u;
    if q != NIL {
      RehungAbove(g, g', q, p, x.up, x.a, g[p].hi);
    }
  }

  lemma RotatedShapes(g: seq<Cell>, x: Cut, g': seq<Cell>)
    requires CanRotate(g, x) && Rotated(g, x.up, g')
    ensures var p := g[x.up].u;
      ShapeOf(g', p, x.up + 1, g[p].hi) == Node(ShapeOf(g, g[x.up].r, x.up + 1, p), p, ShapeOf(g, g[p].r, p + 1, g[p].hi))
    ensures LeftOf(g', x) == LeftOf(g, x) && RightOf(g', x) == RightOf(g, x)
  {
    RotateFacts(g, x);
    var p := g[x.up].u;
    SameShape(g, g', g[x.up].r, x.up + 1, p);
    SameShape(g, g', g[p].r, p + 1, g[p].hi);
    SameShape(g, g', x.left, x.a, x.n);
    SameShape(g, g', x.right, x.n + 1, x.b);
  }

  lemma TwoFrames(g: seq<Cell>, x: Cut)
    requires CanRotate(g, x)
    ensures var p := g[x.up].u;
      Frames(g, x) == [Frame(true, x.up, ShapeOf(g, g[x.up].r, x.up + 1, p))]
                      + ([Frame(true, p, ShapeOf(g, g[p].r, p + 1, g[p].hi))] + AboveOf(g, g[p].u, p, x.a, g[p].hi))
  {
    RotateFacts(g, x);
    var p := g[x.up].u;
    assert Covers(g, x.up, x.prev, x.a, x.b) && FrameOf(g, x.up, x.prev) == Frame(true, x.up, ShapeOf(g, g[x.up].r, x.up + 1, p));
    assert Covers(g, p, x.up, x.a, p) && FrameOf(g, p, x.up) == Frame(true, p, ShapeOf(g, g[p].r, p + 1, g[p].hi));
    assert AboveOf(g, p, x.up, x.a, p) == [FrameOf(g, p, x.up)] + AboveOf(g, g[p].u, p, x.a, g[p].hi);
  }

  /** Rotating `up` over its parent joins their two frames. */
  lemma RotateForm(g: seq<Cell>, x: Cut, g': seq<Cell>)
    requires CanRotate(g, x) && Rotated(g, x.up, g')
    ensures |Frames(g, x)| >= 2
    ensures var f, p := Frames(g, x)[0], Frames(g, x)[1];
      && f.left && p.left && f.at == x.up
      && Frames(g', x) == [Frame(true, x.up, Node(f.other, p.at, p.other))] + Frames(g, x)[2..]
    ensures LeftOf(g', x) == LeftOf(g, x) && RightOf(g', x) == RightOf(g, x)
  {
    TwoFrames(g, x);
    RotateFacts(g, x);
    RotatedRest(g, x, g');
    RotatedShapes(g, x, g');
    assert Covers(g', x.up, x.prev, x.a, x.b);
  }

  // ------------------------------------------------------------------ the steps of the loop, to the left

  lemma ZigLeftRest(g: seq<Cell>, x: Cut, g': seq<Cell>)
    requires CanZigLeft(g, x) && ZiggedLeft(g, x, g')
    ensures AboveOf(g', g[x.up].u, x.up, g[x.up].lo, x.b) == AboveOf(g, g[x.up].u, x.up, g[x.up].lo, x.b)
    ensures RightOf(g', NextCutLeft(g, x)) == RightOf(g, x)
  {
    SameAbove(g, g', g[x.up].u, x.up, g[x.up].lo, x.b);
    SameShape(g, g', x.right, x.n + 1, x.b);
  }

  lemma ZigLeftLeft(g: seq<Cell>, x: Cut, g': seq<Cell>)
    requires CanZigLeft(g, x) && ZiggedLeft(g, x, g')
    ensures LeftOf(g', NextCutLeft(g, x)) == Node(ShapeOf(g, g[x.up].l, g[x.up].lo, x.up), x.up, LeftOf(g, x))
  {
    SameShape(g, g', x.left, x.up + 1, x.n);
    SameShape(g, g', g[x.up].l, g[x.up].lo, x.up);
  }

  lemma ZigLeftForm(g: seq<Cell>, x: Cut, g': seq<Cell>)
    requires CanZigLeft(g, x) && ZiggedLeft(g, x, g')
    ensures var s := ShapeOf(g, g[x.up].l, g[x.up].lo, x.up);
      && Frames(g, x) == [Frame(false, x.up, s)] + Frames(g', NextCutLeft(g, x))
      && LeftOf(g', NextCutLeft(g, x)) == Node(s, x.up, LeftOf(g, x)) && RightOf(g', NextCutLeft(g, x)) == RightOf(g, x)
  {
    ZigLeftRest(g, x, g');
    ZigLeftLeft(g, x, g');
    assert Covers(g, x.up, x.prev, x.a, x.b);
  }

  /** What is around two nodes on the left side. */
  lemma LeftFacts(g: seq<Cell>, x: Cut)
    requires CanRotateLeft(g, x)
    ensures var p, c := g[x.up].u, g[x.up].l;
            var q := g[p].u;
            && Apart(x.up, p, c, q)
            && Outside(g, p, x.a, x.b) && NodeOk(g, p) && g[x.up].lo == p + 1 && g[p].hi == x.b
            && (c == NIL || (p < c < x.up && NodeOk(g, c)))
            && (q != NIL ==> 0 <= q < |g| && NodeOk(g, q) && Covers(g, q, p, g[p].lo, x.b) && !(g[p].lo <= q < x.b))
  {
    RotateLeftFacts(g, x);
    var p, c := g[x.up].u, g[x.up].l;
    var q := g[p].u;
    assert UpOk(g, x.up) && NodeOk(g, p) && UpOk(g, p);
    if q != NIL { assert NodeOk(g, q); }
    if c != NIL { assert NodeOk(g, c); }
  }

  lemma RotatedLeftRest(g: seq<Cell>, x: Cut, g': seq<Cell>)
    requires CanRotateLeft(g, x) && RotatedLeft(g, x.up, g')
    ensures var p := g[x.up].u; AboveOf(g', g[p].u, x.up, g[p].lo, x.b) == AboveOf(g, g[p].u, p, g[p].lo, x.b)
  {
    LeftFacts(g, x);
    var p := g[x.up].u;
    var q := g[p].u;
    if q != NIL {
      RehungAbove(g, g', q, p, x.up, g[p].lo, x.b);
    }
  }

  lemma RotatedLeftShapes(g: seq<Cell>, x: Cut, g': seq<Cell>)
    requires CanRotateLeft(g, x) && RotatedLeft(g, x.up, g')
    ensures var p := g[x.up].u;
      ShapeOf(g', p, g[p].lo, x.up) == Node(ShapeOf(g, g[p].l, g[p].lo, p), p, ShapeOf(g, g[x.up].l, p + 1, x.up))
    ensures LeftOf(g', x) == LeftOf(g, x) && RightOf(g', x) == RightOf(g, x)
  {
    LeftFacts(g, x);
    var p := g[x.up].u;
    SameShape(g, g', g[x.up].l, p + 1, x.up);
    SameShape(g, g', g[p].l, g[p].lo, p);
    SameShape(g, g', x.left, x.a, x.n);
    SameShape(g, g', x.right, x.n + 1, x.b);
  }

  lemma TwoLeftFrames(g: seq<Cell>, x: Cut)
    requires CanRotateLeft(g, x)
    ensures var p := g[x.up].u;
      Frames(g, x) == [Frame(false, x.up, ShapeOf(g, g[x.up].l, p + 1, x.up))]
                      + ([Frame(false, p, ShapeOf(g, g[p].l, g[p].lo, p))] + AboveOf(g, g[p].u, p, g[p].lo, x.b))
  {
    LeftFacts(g, x);
    var p := g[x.up].u;
    assert Covers(g, x.up, x.prev, x.a, x.b) && FrameOf(g, x.up, x.prev) == Frame(false, x.up, ShapeOf(g, g[x.up].l, p + 1, x.up));
    assert Covers(g, p, x.up, p + 1, x.b) && FrameOf(g, p, x.up) == Frame(false, p, ShapeOf(g, g[p].l, g[p].lo, p));
    assert AboveOf(g, p, x.up, p + 1, x.b) == [FrameOf(g, p, x.up)] + AboveOf(g, g[p].u, p, g[p].lo, x.b);
  }

  lemma RotateLeftForm(g: seq<Cell>, x: Cut, g': seq<Cell>)
    requires CanRotateLeft(g, x) && RotatedLeft(g, x.up, g')
    ensures |Frames(g, x)| >= 2
    ensures var f, p := Frames(g, x)[0], Frames(g, x)[1];
      && !f.left && !p.left && f.at == x.up
      && Frames(g', x) == [Frame(false, x.up, Node(p.other, p.at, f.other))] + Frames(g, x)[2..]
    ensures LeftOf(g', x) == LeftOf(g, x) && RightOf(g', x) == RightOf(g, x)
  {
    TwoLeftFrames(g, x);
    LeftFacts(g, x);
    RotatedLeftRest(g, x, g');
    RotatedLeftShapes(g, x, g');
    assert Covers(g', x.up, x.prev, x.a, x.b);
  }

  // ------------------------------------------------------------------ the whole loop

  /** What the loop will make of the tree from here on. */
  ghost function Outcome(g: seq<Cell>, x: Cut): Shape {
    Splayed(Frames(g, x), LeftOf(g, x), x.n, RightOf(g, x))
  }

  /** The same, if `up` goes on top of the right or the left tree next. */
  ghost function ZigOutcome(g: seq<Cell>, x: Cut): Shape {
    var fs := Frames(g, x);
    if fs == [] then Leaf else Splayed(fs[1..], LeftOf(g, x), x.n, Node(RightOf(g, x), x.up, fs[0].other))
  }

  ghost function ZigLeftOutcome(g: seq<Cell>, x: Cut): Shape {
    var fs := Frames(g, x);
    if fs == [] then Leaf else Splayed(fs[1..], Node(fs[0].other, x.up, LeftOf(g, x)), x.n, RightOf(g, x))
  }

  lemma SingleZig(g: seq<Cell>, x: Cut)
    requires CanZig(g, x) && !CanRotate(g, x)
    ensures Outcome(g, x) == ZigOutcome(g, x)
  {
    assert Covers(g, x.up, x.prev, x.a, x.b);
    var fs, p := Frames(g, x), g[x.up].u;
    assert fs[1..] == AboveOf(g, p, x.up, g[x.up].lo, g[x.up].hi);
    if |fs| > 1 { assert fs[1] == FrameOf(g, p, x.up); }
  }

  lemma SingleZigLeft(g: seq<Cell>, x: Cut)
    requires CanZigLeft(g, x) && !CanRotateLeft(g, x)
    ensures Outcome(g, x) == ZigLeftOutcome(g, x)
  {
    assert Covers(g, x.up, x.prev, x.a, x.b);
    var fs, p := Frames(g, x), g[x.up].u;
    assert fs[1..] == AboveOf(g, p, x.up, g[x.up].lo, g[x.up].hi);
    if |fs| > 1 {
      assert fs[1] == FrameOf(g, p, x.up);
      assert UpOk(g, x.up);
    }
  }

  lemma DoubleZig(g: seq<Cell>, x: Cut, g': seq<Cell>)
    requires CanRotate(g, x) && Rotated(g, x.up, g')
    ensures Outcome(g, x) == ZigOutcome(g', x)
  {
    RotateForm(g, x, g');
    assert Frames(g', x)[1..] == Frames(g, x)[2..];
  }

  lemma DoubleZigLeft(g: seq<Cell>, x: Cut, g': seq<Cell>)
    requires CanRotateLeft(g, x) && RotatedLeft(g, x.up, g')
    ensures Outcome(g, x) == ZigLeftOutcome(g', x)
  {
    RotateLeftForm(g, x, g');
    assert Frames(g', x)[1..] == Frames(g, x)[2..];
  }

  lemma AfterZig(g: seq<Cell>, x: Cut, g': seq<Cell>)
    requires CanZig(g, x) && Zigged(g, x, g')
    ensures ZigOutcome(g, x) == Outcome(g', NextCut(g, x))
  {
    ZigForm(g, x, g');
    assert Frames(g, x)[1..] == Frames(g', NextCut(g, x));
  }

  lemma AfterZigLeft(g: seq<Cell>, x: Cut, g': seq<Cell>)
    requires CanZigLeft(g, x) && ZiggedLeft(g, x, g')
    ensures ZigLeftOutcome(g, x) == Outcome(g', NextCutLeft(g, x))
  {
    ZigLeftForm(g, x, g');
    assert Frames(g, x)[1..] == Frames(g', NextCutLeft(g, x));
  }

  /** At the top the two trees are joined under n. */
  lemma JoinForm(g: seq<Cell>, x: Cut, g': seq<Cell>)
    requires SplayInv(g, x) && x.up == NIL && Joined(g, x, g')
    ensures ShapeOf(g', x.n, 0, |g|) == Outcome(g, x)
  {
    SameShape(g, g', x.left, x.a, x.n);
    SameShape(g, g', x.right, x.n + 1, x.b);
  }

  /** The search for n from c on, with the nodes above c. */
  lemma {:induction false} FindForm(g: seq<Cell>, c: int, n: int)
    requires AllOk(g) && 0 <= c < |g| && g[c].lo <= n < g[c].hi
    ensures 0 <= n < |g|
    ensures SplayFrom(ShapeOf(g, c, g[c].lo, g[c].hi), n, AboveOf(g, g[c].u, c, g[c].lo, g[c].hi)) == Outcome(g, StartCut(g, n))
    decreases g[c].hi - g[c].lo
  {
    assert NodeOk(g, c);
    if n < c {
      var d := g[c].l;
      assert NodeOk(g, d) && Covers(g, c, d, g[c].lo, c);
      FindForm(g, d, n);
    } else if n > c {
      var d := g[c].r;
      assert NodeOk(g, d) && g[c].l != d && Covers(g, c, d, c + 1, g[c].hi);
      FindForm(g, d, n);
    }
  }

  /** The search from the top. */
  lemma StartForm(g: seq<Cell>, root: int, n: int)
    requires Tree(g, root) && 0 <= n < |g|
    ensures Outcome(g, StartCut(g, n)) == SplayFrom(ShapeOf(g, root, 0, |g|), n, [])
  {
    FindForm(g, root, n);
  }
}
