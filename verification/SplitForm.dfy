/**
 The shapes of the two trees into which _sp_enq of zmailer/lib/splay.c splits a tree, and of the result.
 */
module SplitForm {
  import opened SplayShape
  import opened SplayInsert
  import opened SplayForm

  // ------------------------------------------------------------------ the reference

  datatype Two = Two(left: Shape, right: Shape)

  /** The top-down split before place k: the top goes to the end of the tree on its side; if its inner child is
      on the same side, that is turned above it first. */
  ghost function SplitShape(t: Shape, k: int): Two {
    match t
    case Leaf => Two(Leaf, Leaf)
    case Node(l, p, r) =>
      if p < k then
        if r.Node? && r.at < k then
          var x := SplitShape(r.right, k);
          Two(Node(Node(l, p, r.left), r.at, x.left), x.right)
        else
          var x := SplitShape(r, k);
          Two(Node(l, p, x.left), x.right)
      else
        if l.Node? && l.at >= k then
          var x := SplitShape(l.left, k);
          Two(x.left, Node(x.right, l.at, Node(l.right, p, r)))
        else
          var x := SplitShape(l, k);
          Two(x.left, Node(x.right, p, r))
  }

  /** All places one higher. */
  ghost function Raised(t: Shape): Shape {
    match t
    case Leaf => Leaf
    case Node(l, p, r) => Node(Raised(l), p + 1, Raised(r))
  }

  /** The two trees under the new node at place k. */
  ghost function Topped(x: Two, k: int): Shape {
    Node(x.left, k, Raised(x.right))
  }

  // ------------------------------------------------------------------ the two trees under construction

  /** The tree under c from place lo up to a, with `fill` at the end of its right spine. */
  ghost function LeftFill(g: seq<Cell>, c: int, lo: int, a: int, fill: Shape): Shape
    decreases a - lo
  {
    if lo <= c < a && 0 <= c < |g| then Node(ShapeOf(g, g[c].l, lo, c), c, LeftFill(g, g[c].r, c + 1, a, fill)) else fill
  }

  /** The tree under c from place b up to hi, with `fill` at the end of its left spine. */
  ghost function RightFill(g: seq<Cell>, c: int, b: int, hi: int, fill: Shape): Shape
    decreases hi - b
  {
    if b <= c < hi && 0 <= c < |g| then Node(RightFill(g, g[c].l, b, c, fill), c, ShapeOf(g, g[c].r, c + 1, hi)) else fill
  }

  ghost function LeftTree(g: seq<Cell>, s: Split, fill: Shape): Shape
    requires |g| > 0
  {
    LeftFill(g, g[|g| - 1].r, 0, s.a, fill)
  }

  ghost function RightTree(g: seq<Cell>, s: Split, fill: Shape): Shape
    requires |g| > 0
  {
    RightFill(g, g[|g| - 1].l, s.b, |g| - 1, fill)
  }

  /** What the loops will make of the tree from here on. */
  ghost function Result(g: seq<Cell>, s: Split): Two
    requires |g| > 0
  {
    var x := SplitShape(ShapeOf(g, s.next, s.a, s.b), s.k);
    Two(LeftTree(g, s, x.left), RightTree(g, s, x.right))
  }

  /** The same, if the top of the unsplit part goes to the left or to the right next. */
  ghost function LeftResult(g: seq<Cell>, s: Split): Two
    requires 0 <= s.next < |g|
  {
    var x := SplitShape(ShapeOf(g, g[s.next].r, s.next + 1, s.b), s.k);
    Two(LeftTree(g, s, Node(ShapeOf(g, g[s.next].l, s.a, s.next), s.next, x.left)), RightTree(g, s, x.right))
  }

  ghost function RightResult(g: seq<Cell>, s: Split): Two
    requires 0 <= s.next < |g|
  {
    var x := SplitShape(ShapeOf(g, g[s.next].l, s.a, s.next), s.k);
    Two(LeftTree(g, s, x.left), RightTree(g, s, Node(x.right, s.next, ShapeOf(g, g[s.next].r, s.next + 1, s.b))))
  }

  /** The right child of the last place does not matter. */
  lemma {:induction false} SameLeftFill(g: seq<Cell>, h: seq<Cell>, c: int, lo: int, a: int, fill: Shape)
    requires |g| == |h| && forall k {:trigger h[k]} :: lo <= k < a && 0 <= k < |g| ==> h[k].l == g[k].l && (k < a - 1 ==> h[k].r == g[k].r)
    ensures LeftFill(h, c, lo, a, fill) == LeftFill(g, c, lo, a, fill)
    decreases a - lo
  {
    if lo <= c < a && 0 <= c < |g| {
      assert h[c].l == g[c].l;
      SameShape(g, h, g[c].l, lo, c);
      if c < a - 1 { SameLeftFill(g, h, g[c].r, c + 1, a, fill); }
    }
  }

  lemma {:induction false} SameRightFill(g: seq<Cell>, h: seq<Cell>, c: int, b: int, hi: int, fill: Shape)
    requires |g| == |h| && forall k {:trigger h[k]} :: b <= k < hi && 0 <= k < |g| ==> h[k].r == g[k].r && (k > b ==> h[k].l == g[k].l)
    ensures RightFill(h, c, b, hi, fill) == RightFill(g, c, b, hi, fill)
    decreases hi - b
  {
    if b <= c < hi && 0 <= c < |g| {
      assert h[c].r == g[c].r;
      SameShape(g, h, g[c].r, c + 1, hi);
      if c > b { SameRightFill(g, h, g[c].l, b, c, fill); }
    }
  }

  // ------------------------------------------------------------------ the steps

  lemma Unsplit(g: seq<Cell>, s: Split, i: int)
    requires SplitInv(g, s) && s.a <= i < s.b
    ensures s.a <= g[i].lo && g[i].hi <= s.b
  {
    assert Inner(g, i, s.a, s.b);
  }

  /** The spine of the left tree ends at s.left, and `next` is hung there. */
  lemma {:induction false} SpineMoved(g: seq<Cell>, s: Split, g': seq<Cell>, c: int, fill: Shape)
    requires SplitInv(g, s) && 0 <= s.next < s.k && Moved(g, s, g') && 0 <= c < s.a && g[c].hi == s.k
    ensures LeftFill(g', c, g[c].lo, s.next + 1, fill) ==
      LeftFill(g, c, g[c].lo, s.a, Node(ShapeOf(g, g[s.next].l, s.a, s.next), s.next, fill))
    decreases s.k - c
  {
    assert LeftOk(g, s, c) && Inner(g, s.next, s.a, s.b);
    SameShape(g, g', g[c].l, g[c].lo, c);
    if c == s.left {
      HungNext(g, s, g', fill);
    } else {
      var d := g[c].r;
      if s.a <= d < s.b { Unsplit(g, s, d); }
      SpineMoved(g, s, g', d, fill);
    }
  }

  lemma HungNext(g: seq<Cell>, s: Split, g': seq<Cell>, fill: Shape)
    requires SplitInv(g, s) && 0 <= s.next < s.k && Moved(g, s, g')
    ensures LeftFill(g', s.next, s.a, s.next + 1, fill) == Node(ShapeOf(g, g[s.next].l, s.a, s.next), s.next, fill)
  {
    assert Inner(g, s.next, s.a, s.b);
    SameShape(g, g', g[s.next].l, s.a, s.next);
  }

  lemma LeftTreeMoved(g: seq<Cell>, s: Split, g': seq<Cell>, fill: Shape)
    requires SplitInv(g, s) && 0 <= s.next < s.k && Moved(g, s, g')
    ensures LeftTree(g', AfterMove(g, s), fill) == LeftTree(g, s, Node(ShapeOf(g, g[s.next].l, s.a, s.next), s.next, fill))
  {
    assert Inner(g, s.next, s.a, s.b);
    if s.a == 0 {
      HungNext(g, s, g', fill);
    } else {
      TopOfLeft(g, s);
      SpineMoved(g, s, g', g[|g| - 1].r, fill);
    }
  }

  /** The left tree begins at place 0 and reaches up to k. */
  lemma TopOfLeft(g: seq<Cell>, s: Split)
    requires SplitInv(g, s) && s.a > 0
    ensures var c := g[|g| - 1].r; 0 <= c < s.a && g[c].lo == 0 && g[c].hi == s.k
  {
    var c := g[|g| - 1].r;
    if s.a <= c < s.b { Unsplit(g, s, c); }
  }

  lemma RightTreeKept(g: seq<Cell>, s: Split, g': seq<Cell>, fill: Shape)
    requires SplitInv(g, s) && 0 <= s.next < s.k && Moved(g, s, g')
    ensures RightTree(g', AfterMove(g, s), fill) == RightTree(g, s, fill)
  {
    assert Inner(g, s.next, s.a, s.b);
    SameRightFill(g, g', g[|g| - 1].l, s.b, |g| - 1, fill);
  }

  /** `next` has gone to the left tree. */
  lemma MoveForm(g: seq<Cell>, s: Split, g': seq<Cell>)
    requires SplitInv(g, s) && 0 <= s.next < s.k && Moved(g, s, g')
    ensures Result(g', AfterMove(g, s)) == LeftResult(g, s)
  {
    assert Inner(g, s.next, s.a, s.b);
    SameShape(g, g', g[s.next].r, s.next + 1, s.b);
    var x := SplitShape(ShapeOf(g, g[s.next].r, s.next + 1, s.b), s.k);
    LeftTreeMoved(g, s, g', x.left);
    RightTreeKept(g, s, g', x.right);
  }

  /** Without an inner child on the same side this is what the split does. */
  lemma SingleMove(g: seq<Cell>, s: Split)
    requires SplitInv(g, s) && 0 <= s.next < s.k && !(0 <= g[s.next].r < s.k)
    ensures Result(g, s) == LeftResult(g, s)
  {
    assert Inner(g, s.next, s.a, s.b);
  }

  /** With one, it does so after the turn. */
  lemma DoubleMove(g: seq<Cell>, s: Split, h: seq<Cell>)
    requires SplitInv(g, s) && 0 <= s.next < s.k && 0 <= g[s.next].r < s.k && Turned(g, s, h)
    ensures Result(g, s) == LeftResult(h, s.(next := g[s.next].r))
  {
    var n, t := s.next, g[s.next].r;
    assert Inner(g, n, s.a, s.b) && Inner(g, t, s.a, s.b);
    if g[t].l != NIL { assert Inner(g, g[t].l, s.a, s.b); }
    TurnShapes(g, s, h);
    var x := SplitShape(ShapeOf(g, g[t].r, t + 1, s.b), s.k);
    var fill := Node(Node(ShapeOf(g, g[n].l, s.a, n), n, ShapeOf(g, g[t].l, n + 1, t)), t, x.left);
    SameLeftFill(g, h, g[|g| - 1].r, 0, s.a, fill);
    SameRightFill(g, h, g[|g| - 1].l, s.b, |g| - 1, x.right);
  }

  lemma TurnShapes(g: seq<Cell>, s: Split, h: seq<Cell>)
    requires SplitInv(g, s) && 0 <= s.next < s.k && 0 <= g[s.next].r < s.k && Turned(g, s, h)
    ensures var n, t := s.next, g[s.next].r;
      && ShapeOf(g, n, s.a, s.b) == Node(ShapeOf(g, g[n].l, s.a, n), n, Node(ShapeOf(g, g[t].l, n + 1, t), t, ShapeOf(g, g[t].r, t + 1, s.b)))
      && ShapeOf(h, h[t].l, s.a, t) == Node(ShapeOf(g, g[n].l, s.a, n), n, ShapeOf(g, g[t].l, n + 1, t))
      && ShapeOf(h, h[t].r, t + 1, s.b) == ShapeOf(g, g[t].r, t + 1, s.b)
  {
    var n, t := s.next, g[s.next].r;
    assert Inner(g, n, s.a, s.b) && Inner(g, t, s.a, s.b);
    if g[t].l != NIL { assert Inner(g, g[t].l, s.a, s.b); }
    SameShape(g, h, g[n].l, s.a, n);
    SameShape(g, h, g[t].l, n + 1, t);
    SameShape(g, h, g[t].r, t + 1, s.b);
  }

  lemma TurnMoveForm(g: seq<Cell>, s: Split, g1: seq<Cell>, g2: seq<Cell>, g3: seq<Cell>, g': seq<Cell>)
    requires SplitInv(g, s) && 0 <= s.next < s.k && 0 <= g[s.next].r < s.k
    requires g1 == HangR(g, s.next, g[g[s.next].r].l) && g2 == HangR(g1, s.left, g[s.next].r)
    requires g3 == HangL(g2, g[s.next].r, s.next)
    requires g' == PutSpan(PutSpan(g3, s.next, s.a, g[s.next].r), g[s.next].r, s.a, s.k)
    ensures var t := g[s.next].r;
      && SplitInv(g', s.(a := t + 1, left := t, next := g[t].r)) && 0 <= t < |g'| && g'[t].r == g[t].r
      && Result(g', s.(a := t + 1, left := t, next := g[t].r)) == Result(g, s)
  {
    TurnMove(g, s, g1, g2, g3, g');
    var h := TurnMoveSteps(g, s, g1, g2, g3, g');
    Turn(g, s, h);
    DoubleMove(g, s, h);
    MoveForm(h, s.(next := g[s.next].r), g');
  }

  // ------------------------------------------------------------------ the steps to the right

  lemma {:induction false} SpineMovedRight(g: seq<Cell>, s: Split, g': seq<Cell>, c: int, fill: Shape)
    requires SplitInv(g, s) && s.k <= s.next && MovedRight(g, s, g') && s.b <= c < |g| - 1 && g[c].lo == s.k
    ensures RightFill(g', c, s.next, g[c].hi, fill) ==
      RightFill(g, c, s.b, g[c].hi, Node(fill, s.next, ShapeOf(g, g[s.next].r, s.next + 1, s.b)))
    decreases c
  {
    assert RightOk(g, s, c) && Inner(g, s.next, s.a, s.b);
    SameShape(g, g', g[c].r, c + 1, g[c].hi);
    if c == s.right {
      HungNextRight(g, s, g', fill);
    } else {
      var d := g[c].l;
      if s.a <= d < s.b { Unsplit(g, s, d); }
      SpineMovedRight(g, s, g', d, fill);
    }
  }

  lemma HungNextRight(g: seq<Cell>, s: Split, g': seq<Cell>, fill: Shape)
    requires SplitInv(g, s) && s.k <= s.next && MovedRight(g, s, g')
    ensures RightFill(g', s.next, s.next, s.b, fill) == Node(fill, s.next, ShapeOf(g, g[s.next].r, s.next + 1, s.b))
  {
    assert Inner(g, s.next, s.a, s.b);
    SameShape(g, g', g[s.next].r, s.next + 1, s.b);
  }

  lemma RightTreeMoved(g: seq<Cell>, s: Split, g': seq<Cell>, fill: Shape)
    requires SplitInv(g, s) && s.k <= s.next && MovedRight(g, s, g')
    ensures RightTree(g', AfterMoveRight(g, s), fill) == RightTree(g, s, Node(fill, s.next, ShapeOf(g, g[s.next].r, s.next + 1, s.b)))
  {
    assert Inner(g, s.next, s.a, s.b);
    if s.b == |g| - 1 {
      HungNextRight(g, s, g', fill);
    } else {
      TopOfRight(g, s);
      SpineMovedRight(g, s, g', g[|g| - 1].l, fill);
    }
  }

  lemma TopOfRight(g: seq<Cell>, s: Split)
    requires SplitInv(g, s) && s.b < |g| - 1
    ensures var c := g[|g| - 1].l; s.b <= c < |g| - 1 && g[c].lo == s.k && g[c].hi == |g| - 1
  {
    var c := g[|g| - 1].l;
    if s.a <= c < s.b { Unsplit(g, s, c); }
  }

  lemma LeftTreeKept(g: seq<Cell>, s: Split, g': seq<Cell>, fill: Shape)
    requires SplitInv(g, s) && s.k <= s.next && MovedRight(g, s, g')
    ensures LeftTree(g', AfterMoveRight(g, s), fill) == LeftTree(g, s, fill)
  {
    assert Inner(g, s.next, s.a, s.b);
    SameLeftFill(g, g', g[|g| - 1].r, 0, s.a, fill);
  }

  lemma MoveRightForm(g: seq<Cell>, s: Split, g': seq<Cell>)
    requires SplitInv(g, s) && s.k <= s.next && MovedRight(g, s, g')
    ensures Result(g', AfterMoveRight(g, s)) == RightResult(g, s)
  {
    assert Inner(g, s.next, s.a, s.b);
    SameShape(g, g', g[s.next].l, s.a, s.next);
    var x := SplitShape(ShapeOf(g, g[s.next].l, s.a, s.next), s.k);
    LeftTreeKept(g, s, g', x.left);
    RightTreeMoved(g, s, g', x.right);
  }

  lemma SingleMoveRight(g: seq<Cell>, s: Split)
    requires SplitInv(g, s) && s.k <= s.next && !(s.k <= g[s.next].l)
    ensures Result(g, s) == RightResult(g, s)
  {
    assert Inner(g, s.next, s.a, s.b);
  }

  lemma DoubleMoveRight(g: seq<Cell>, s: Split, h: seq<Cell>)
    requires SplitInv(g, s) && s.k <= s.next && s.k <= g[s.next].l < |g| && TurnedRight(g, s, h)
    ensures Result(g, s) == RightResult(h, s.(next := g[s.next].l))
  {
    var n, t := s.next, g[s.next].l;
    assert Inner(g, n, s.a, s.b) && Inner(g, t, s.a, s.b);
    if g[t].r != NIL { assert Inner(g, g[t].r, s.a, s.b); }
    TurnShapesRight(g, s, h);
    var x := SplitShape(ShapeOf(g, g[t].l, s.a, t), s.k);
    var fill := Node(x.right, t, Node(ShapeOf(g, g[t].r, t + 1, n), n, ShapeOf(g, g[n].r, n + 1, s.b)));
    SameLeftFill(g, h, g[|g| - 1].r, 0, s.a, x.left);
    SameRightFill(g, h, g[|g| - 1].l, s.b, |g| - 1, fill);
  }

  lemma TurnShapesRight(g: seq<Cell>, s: Split, h: seq<Cell>)
    requires SplitInv(g, s) && s.k <= s.next && s.k <= g[s.next].l < |g| && TurnedRight(g, s, h)
    ensures var n, t := s.next, g[s.next].l;
      && ShapeOf(g, n, s.a, s.b) == Node(Node(ShapeOf(g, g[t].l, s.a, t), t, ShapeOf(g, g[t].r, t + 1, n)), n, ShapeOf(g, g[n].r, n + 1, s.b))
      && ShapeOf(h, h[t].r, t + 1, s.b) == Node(ShapeOf(g, g[t].r, t + 1, n), n, ShapeOf(g, g[n].r, n + 1, s.b))
      && ShapeOf(h, h[t].l, s.a, t) == ShapeOf(g, g[t].l, s.a, t)
  {
    var n, t := s.next, g[s.next].l;
    assert Inner(g, n, s.a, s.b) && Inner(g, t, s.a, s.b);
    if g[t].r != NIL { assert Inner(g, g[t].r, s.a, s.b); }
    SameShape(g, h, g[n].r, n + 1, s.b);
    SameShape(g, h, g[t].r, t + 1, n);
    SameShape(g, h, g[t].l, s.a, t);
  }

  lemma TurnMoveRightForm(g: seq<Cell>, s: Split, g1: seq<Cell>, g2: seq<Cell>, g3: seq<Cell>, g': seq<Cell>)
    requires SplitInv(g, s) && s.next >= s.k && g[s.next].l >= s.k && g[s.next].l < |g|
    requires g1 == HangL(g, s.next, g[g[s.next].l].r) && g2 == HangL(g1, s.right, g[s.next].l)
    requires g3 == HangR(g2, g[s.next].l, s.next)
    requires g' == PutSpan(PutSpan(g3, s.next, g[s.next].l + 1, s.b), g[s.next].l, s.k, s.b)
    ensures var t := g[s.next].l;
      && SplitInv(g', s.(b := t, right := t, next := g[t].l)) && 0 <= t < |g'| && g'[t].l == g[t].l
      && Result(g', s.(b := t, right := t, next := g[t].l)) == Result(g, s)
  {
    TurnMoveRight(g, s, g1, g2, g3, g');
    var h := TurnMoveRightSteps(g, s, g1, g2, g3, g');
    TurnRight(g, s, h);
    DoubleMoveRight(g, s, h);
    MoveRightForm(h, s.(next := g[s.next].l), g');
  }

  // ------------------------------------------------------------------ beginning and end

  /** At first there is only the old tree. */
  lemma SplitBegins(g: seq<Cell>, root: int, extra: Cell, k: int)
    ensures Result(g + [extra], Split(k, 0, |g|, |g|, |g|, root)) == SplitShape(ShapeOf(g, root, 0, |g|), k)
  {
    PrefixShape(g, extra, root, 0, |g|);
  }

  lemma {:induction false} PrefixShape(g: seq<Cell>, extra: Cell, c: int, a: int, b: int)
    requires b <= |g|
    ensures ShapeOf(g + [extra], c, a, b) == ShapeOf(g, c, a, b)
    decreases b - a
  {
    if a <= c < b && 0 <= c < |g| {
      PrefixShape(g, extra, g[c].l, a, c);
      PrefixShape(g, extra, g[c].r, c + 1, b);
    }
  }

  /** Closing the open ends changes nothing. */
  lemma CloseForm(g: seq<Cell>, s: Split, g': seq<Cell>)
    requires |g| > 1 && SplitInv(g, s) && s.next == NIL && (g' == PutL(g, s.right, NIL) || g' == PutR(g, s.left, NIL))
    ensures Result(g', s) == Result(g, s)
  {
    if s.a == 0 {
      assert LeftTree(g', s, Leaf) == LeftTree(g, s, Leaf) == Leaf;
    } else {
      SameLeftFill(g, g', g[|g| - 1].r, 0, s.a, Leaf);
    }
    if s.b == |g| - 1 {
      assert RightTree(g', s, Leaf) == RightTree(g, s, Leaf) == Leaf;
    } else {
      SameRightFill(g, g', g[|g| - 1].l, s.b, |g| - 1, Leaf);
    }
  }

  lemma {:induction false} LeftFilled(g: seq<Cell>, c: int, lo: int, a: int)
    ensures LeftFill(g, c, lo, a, Leaf) == ShapeOf(g, c, lo, a)
    decreases a - lo
  {
    if lo <= c < a && 0 <= c < |g| { LeftFilled(g, g[c].r, c + 1, a); }
  }

  lemma {:induction false} RightFilled(g: seq<Cell>, c: int, b: int, hi: int)
    ensures RightFill(g, c, b, hi, Leaf) == ShapeOf(g, c, b, hi)
    decreases hi - b
  {
    if b <= c < hi && 0 <= c < |g| { RightFilled(g, g[c].l, b, c); }
  }

  /** Below place k nothing changes when the last node moves there. */
  lemma {:induction false} PlacedLow(g: seq<Cell>, h: seq<Cell>, k: int, c: int, a: int, b: int)
    requires 0 <= k < |g| == |h| && 0 <= a && b <= k
    requires forall i {:trigger h[i]} :: 0 <= i < k ==> h[i] == ShiftCell(g[i], k, |g| - 1, 0)
    ensures ShapeOf(h, Shift(c, k, |g| - 1), a, b) == ShapeOf(g, c, a, b)
    decreases b - a
  {
    if a <= c < b {
      assert h[c] == ShiftCell(g[c], k, |g| - 1, 0);
      PlacedLow(g, h, k, g[c].l, a, c);
      PlacedLow(g, h, k, g[c].r, c + 1, b);
    }
  }

  /** From place k on everything is one higher. */
  lemma {:induction false} PlacedHigh(g: seq<Cell>, h: seq<Cell>, k: int, c: int, a: int, b: int)
    requires 0 <= k < |g| == |h| && k <= a && b < |g|
    requires forall i {:trigger h[i]} :: k < i < |g| ==> h[i] == ShiftCell(g[i - 1], k, |g| - 1, 1)
    ensures ShapeOf(h, Shift(c, k, |g| - 1), a + 1, b + 1) == Raised(ShapeOf(g, c, a, b))
    decreases b - a
  {
    if a <= c < b {
      assert h[c + 1] == ShiftCell(g[c], k, |g| - 1, 1);
      PlacedHigh(g, h, k, g[c].l, a, c);
      PlacedHigh(g, h, k, g[c].r, c + 1, b);
    }
  }

  lemma PlacedCells(e: seq<Cell>, k: int)
    requires 0 <= k < |e|
    ensures forall i {:trigger Placed(e, k)[i]} :: 0 <= i < k ==> Placed(e, k)[i] == ShiftCell(e[i], k, |e| - 1, 0)
    ensures forall i {:trigger Placed(e, k)[i]} :: k < i < |e| ==> Placed(e, k)[i] == ShiftCell(e[i - 1], k, |e| - 1, 1)
  {
  }

  lemma EndLeft(e: seq<Cell>, k: int, c: int)
    requires 0 <= k < |e|
    ensures ShapeOf(Placed(e, k), Shift(c, k, |e| - 1), 0, k) == ShapeOf(e, c, 0, k)
  {
    PlacedCells(e, k);
    PlacedLow(e, Placed(e, k), k, c, 0, k);
  }

  lemma EndRight(e: seq<Cell>, k: int, c: int)
    requires 0 <= k < |e|
    ensures ShapeOf(Placed(e, k), Shift(c, k, |e| - 1), k + 1, |e|) == Raised(ShapeOf(e, c, k, |e| - 1))
  {
    PlacedCells(e, k);
    PlacedHigh(e, Placed(e, k), k, c, k, |e| - 1);
  }

  lemma ClosedLeft(g: seq<Cell>, s: Split)
    requires Closed(g, s)
    ensures ShapeOf(Exchanged(g), g[|g| - 1].r, 0, s.k) == LeftTree(g, s, Leaf)
  {
    var n := |g| - 1;
    LeftFilled(g, g[n].r, 0, s.a);
    SameShape(g, Exchanged(g), g[n].r, 0, s.k);
  }

  lemma ClosedRight(g: seq<Cell>, s: Split)
    requires Closed(g, s)
    ensures ShapeOf(Exchanged(g), g[|g| - 1].l, s.k, |g| - 1) == RightTree(g, s, Leaf)
  {
    var n := |g| - 1;
    RightFilled(g, g[n].l, s.b, n);
    SameShape(g, Exchanged(g), g[n].l, s.k, n);
  }

  lemma ClosedResult(g: seq<Cell>, s: Split)
    requires Closed(g, s)
    ensures Result(g, s) == Two(LeftTree(g, s, Leaf), RightTree(g, s, Leaf))
  {
    assert ShapeOf(g, s.next, s.a, s.b) == Leaf;
  }

  lemma PlacedTop(e: seq<Cell>, k: int)
    requires 0 <= k < |e|
    ensures var h, n := Placed(e, k), |e| - 1;
      ShapeOf(h, k, 0, |e|) == Node(ShapeOf(h, Shift(e[n].l, k, n), 0, k), k, ShapeOf(h, Shift(e[n].r, k, n), k + 1, |e|))
  {
  }

  lemma PlacedForm(e: seq<Cell>, k: int)
    requires 0 <= k < |e|
    ensures ShapeOf(Placed(e, k), k, 0, |e|) == Topped(Two(ShapeOf(e, e[|e| - 1].l, 0, k), ShapeOf(e, e[|e| - 1].r, k, |e| - 1)), k)
  {
    PlacedTop(e, k);
    EndLeft(e, k, e[|e| - 1].l);
    EndRight(e, k, e[|e| - 1].r);
  }

  /** The new node on top of the two trees. */
  lemma EndForm(g: seq<Cell>, s: Split)
    requires Closed(g, s)
    ensures ShapeOf(Placed(Exchanged(g), s.k), s.k, 0, |g|) == Topped(Result(g, s), s.k)
  {
    PlacedForm(Exchanged(g), s.k);
    ClosedLeft(g, s);
    ClosedRight(g, s);
    ClosedResult(g, s);
  }
}
