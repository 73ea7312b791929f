/**
 The shapes that _sp_deq and sp_delete of zmailer/lib/splay.c leave.
 */
module DeqForm {
  import opened SplayShape
  import opened SplayRemove
  import opened SplayForm
  import opened SplitForm

  // ------------------------------------------------------------------ the reference

  /** A left subtree without its first node: on the way down, every second node is rotated above the one
      before it. */
  ghost function Beheaded(l: Shape): Shape {
    match l
    case Node(Node(Node(a, p, b), q, c), r, d) => Node(Beheaded(Node(a, p, b)), q, Node(c, r, d))
    case Node(Node(Leaf, q, c), r, d) => Node(c, r, d)
    case Node(Leaf, r, d) => d
    case Leaf => Leaf
  }

  /** A tree without its first node. */
  ghost function WithoutFirst(t: Shape): Shape {
    match t
    case Leaf => Leaf
    case Node(Leaf, _, r) => r
    case Node(l, p, r) => Node(Beheaded(l), p, r)
  }

  /** All places one lower. */
  ghost function Lowered(t: Shape): Shape {
    match t
    case Leaf => Leaf
    case Node(l, p, r) => Node(Lowered(l), p - 1, Lowered(r))
  }

  /** The root of t leaves; the first node of its right subtree, if there is one, comes to its place. */
  ghost function WithoutRoot(t: Shape): Shape {
    match t
    case Leaf => Leaf
    case Node(l, n, Leaf) => l
    case Node(l, n, r) => Node(l, n, Lowered(WithoutFirst(r)))
  }

  // ------------------------------------------------------------------ the descent

  /** What the loop will make of the subtree under `top` from here on. */
  ghost function Rest(g: seq<Cell>, x: int, next: int, left: int, top: int): Shape {
    RightFill(g, top, next, |g|, Beheaded(ShapeOf(g, left, x, next)))
  }

  /** c is on the left spine, at or above `next`. */
  lemma SpineDown(g: seq<Cell>, x: int, next: int, left: int, c: int)
    requires DeqInv(g, x, next, left) && next < c < |g| && g[c].lo == x + 1
    ensures next <= g[c].l < c && g[g[c].l].lo == x + 1 && g[g[c].l].hi == c
  {
    assert Late(g, x, c);
    var d := g[c].l;
    if x <= d < next { InnerBelow(g, x, next, d); }
  }

  lemma InnerBelow(g: seq<Cell>, a: int, b: int, i: int)
    requires 0 <= a && b <= |g| && AllInner(g, a, b) && a <= i < b
    ensures g[i].hi <= b
  {
    assert Inner(g, i, a, b);
  }

  /** From `next` on upwards the children are the same, except that the left child of `next` is f. */
  ghost predicate Replaced(g: seq<Cell>, h: seq<Cell>, next: int, f: int) {
    && |h| == |g| && 0 <= next < |g| && h[next].l == f && h[next].r == g[next].r
    && forall k {:trigger h[k]} :: next < k < |g| ==> h[k].l == g[k].l && h[k].r == g[k].r
  }

  /** The spine then goes on with f. */
  lemma {:induction false} SpineLonger(g: seq<Cell>, x: int, next: int, left: int, h: seq<Cell>, f: int, c: int, fill: Shape)
    requires DeqInv(g, x, next, left) && Replaced(g, h, next, f) && 0 <= f < next && next <= c < |g| && g[c].lo == x + 1
    ensures RightFill(h, c, f, g[c].hi, fill) == RightFill(g, c, next, g[c].hi, RightFill(h, f, f, next, fill))
    decreases c
  {
    SameShape(g, h, g[c].r, c + 1, g[c].hi);
    if c > next {
      assert Late(g, x, c);
      SpineDown(g, x, next, left, c);
      SpineLonger(g, x, next, left, h, f, g[c].l, fill);
    }
  }

  /** The spine then ends with the subtree under f. */
  lemma {:induction false} SpineEnds(g: seq<Cell>, x: int, next: int, left: int, h: seq<Cell>, f: int, c: int)
    requires DeqInv(g, x, next, left) && Replaced(g, h, next, f) && next <= c < |g| && g[c].lo == x + 1
    ensures ShapeOf(h, c, x + 1, g[c].hi) == RightFill(g, c, next, g[c].hi, ShapeOf(h, f, x + 1, next))
    decreases c
  {
    SameShape(g, h, g[c].r, c + 1, g[c].hi);
    if c > next {
      assert Late(g, x, c);
      SpineDown(g, x, next, left, c);
      SpineEnds(g, x, next, left, h, f, g[c].l);
    }
  }

  lemma TopOnSpine(g: seq<Cell>, x: int, next: int, left: int, top: int)
    requires DeqInv(g, x, next, left) && Top(g, x, top)
    ensures next <= top < |g| && g[top].lo == x + 1 && g[top].hi == |g|
  {
    if x <= top < next { InnerBelow(g, x, next, top); }
  }

  /** The nodes at the end of the spine. */
  lemma SpineShape(g: seq<Cell>, x: int, next: int, left: int)
    requires DeqInv(g, x, next, left)
    ensures x <= left < next && ShapeOf(g, left, x, next) == Node(ShapeOf(g, g[left].l, x, left), left, ShapeOf(g, g[left].r, left + 1, next))
    ensures g[left].l == NIL ==> left == x
    ensures g[left].l != NIL ==>
      var f := g[left].l;
      x <= f < left && g[f].lo == x && g[f].hi == left
      && ShapeOf(g, f, x, left) == Node(ShapeOf(g, g[f].l, x, f), f, ShapeOf(g, g[f].r, f + 1, left))
  {
    assert Inner(g, left, x, next);
    var f := g[left].l;
    if f != NIL { assert Inner(g, f, x, next); }
  }

  // The rotation, and then the step down to f.
  lemma RollForm(g: seq<Cell>, x: int, next: int, left: int, top: int, g1: seq<Cell>, g2: seq<Cell>)
    requires DeqInv(g, x, next, left) && Top(g, x, top) && 0 <= g[left].l < |g| && g[g[left].l].l != NIL
    requires Rolled(g, next, left, g1) && g2 == PutSpan(g1, g[left].l, x + 1, next)
    ensures var f := g[left].l; Rest(g2, x, f, g[f].l, top) == Rest(g, x, next, left, top)
  {
    var f := g[left].l;
    SpineShape(g, x, next, left);
    TopOnSpine(g, x, next, left, top);
    assert Inner(g, f, x, next) && Inner(g, g[f].l, x, next);
    if g[f].r != NIL { assert Inner(g, g[f].r, x, next); }
    RolledShapes(g, x, next, left, g1, g2);
    var fill := Beheaded(ShapeOf(g, g[f].l, x, f));
    SpineLonger(g, x, next, left, g2, f, top, fill);
  }

  lemma RolledShapes(g: seq<Cell>, x: int, next: int, left: int, g1: seq<Cell>, g2: seq<Cell>)
    requires DeqInv(g, x, next, left) && 0 <= g[left].l < |g| && g[g[left].l].l != NIL
    requires Rolled(g, next, left, g1) && g2 == PutSpan(g1, g[left].l, x + 1, next)
    ensures var f := g[left].l;
      && ShapeOf(g2, g[f].l, x, f) == ShapeOf(g, g[f].l, x, f)
      && ShapeOf(g2, left, f + 1, next) == Node(ShapeOf(g, g[f].r, f + 1, left), left, ShapeOf(g, g[left].r, left + 1, next))
      && Replaced(g, g2, next, f)
  {
    var f := g[left].l;
    assert Inner(g, left, x, next) && Inner(g, f, x, next);
    if g[f].r != NIL { assert Inner(g, g[f].r, x, next); }
    SameShape(g, g2, g[f].l, x, f);
    SameShape(g, g2, g[f].r, f + 1, left);
    SameShape(g, g2, g[left].r, left + 1, next);
  }

  /** The first node is left.l: one more step down. */
  lemma StepForm(g: seq<Cell>, x: int, next: int, left: int, top: int, g': seq<Cell>)
    requires DeqInv(g, x, next, left) && Top(g, x, top) && 0 <= g[left].l < |g| && g[g[left].l].l == NIL
    requires g' == PutSpan(g, left, x + 1, g[left].hi)
    ensures Rest(g', x, left, g[left].l, top) == Rest(g, x, next, left, top)
  {
    var f := g[left].l;
    SpineShape(g, x, next, left);
    TopOnSpine(g, x, next, left, top);
    SameShape(g, g', f, x, left);
    SameShape(g, g', g[left].r, left + 1, next);
    SpineLonger(g, x, next, left, g', left, top, Beheaded(ShapeOf(g, f, x, left)));
  }

  /** The first node is `left`. */
  lemma TakeForm(g: seq<Cell>, x: int, next: int, left: int, top: int, g': seq<Cell>)
    requires DeqInv(g, x, next, left) && Top(g, x, top) && g[left].l == NIL && g' == HangL(g, next, g[left].r)
    ensures ShapeOf(g', top, x + 1, |g|) == Rest(g, x, next, left, top)
  {
    SpineShape(g, x, next, left);
    TopOnSpine(g, x, next, left, top);
    assert Inner(g, left, x, next);
    if g[left].r != NIL { assert Inner(g, g[left].r, x, next); }
    SameShape(g, g', g[left].r, x + 1, next);
    SpineEnds(g, x, next, left, g', g[left].r, top);
  }

  // ------------------------------------------------------------------ before and after

  lemma DeqBegins(g: seq<Cell>, n: int, g': seq<Cell>)
    requires Tree(g, n) && n != NIL && 0 <= g[n].r < |g| && g[g[n].r].l != NIL && g' == PutSpan(g, g[n].r, n + 2, |g|)
    ensures var t := g[n].r; Rest(g', n + 1, t, g[t].l, t) == WithoutFirst(ShapeOf(g, t, n + 1, |g|))
  {
    var t := g[n].r;
    assert NodeOk(g, n) && NodeOk(g, t);
    SameShape(g, g', g[t].l, n + 1, t);
    SameShape(g, g', g[t].r, t + 1, |g|);
    var l := ShapeOf(g, g[t].l, n + 1, t);
    assert l.Node? && ShapeOf(g, t, n + 1, |g|) == Node(l, t, ShapeOf(g, g[t].r, t + 1, |g|));
    assert RightFill(g', g'[t].l, t, t, Beheaded(l)) == Beheaded(l);
  }

  lemma DeqNearForm(g: seq<Cell>, n: int, g': seq<Cell>)
    requires Tree(g, n) && n != NIL && 0 <= g[n].r < |g| && g[g[n].r].l == NIL
    requires g' == PutU(PutR(g, n, g[g[n].r].r), g[g[n].r].r, NIL)
    ensures ShapeOf(g', g[g[n].r].r, n + 2, |g|) == WithoutFirst(ShapeOf(g, g[n].r, n + 1, |g|))
  {
    var t := g[n].r;
    assert NodeOk(g, n) && NodeOk(g, t);
    SameShape(g, g', g[t].r, n + 2, |g|);
  }

  lemma {:induction false} DroppedLow(g: seq<Cell>, h: seq<Cell>, n: int, c: int, a: int, b: int)
    requires 0 <= n < |g| && |h| == |g| - 1 && 0 <= a && b <= n
    requires forall i {:trigger h[i]} :: 0 <= i < n && i < |h| ==> h[i] == DownCell(g[i], n, 0)
    ensures ShapeOf(h, Down(c, n), a, b) == ShapeOf(g, c, a, b)
    decreases b - a
  {
    if a <= c < b {
      assert h[c] == DownCell(g[c], n, 0);
      DroppedLow(g, h, n, g[c].l, a, c);
      DroppedLow(g, h, n, g[c].r, c + 1, b);
    }
  }

  lemma {:induction false} DroppedHigh(g: seq<Cell>, h: seq<Cell>, n: int, c: int, a: int, b: int)
    requires 0 <= n < |g| && |h| == |g| - 1 && n + 2 <= a && b <= |g|
    requires forall i {:trigger h[i]} :: n < i < |h| ==> h[i] == DownCell(g[i + 1], n, 1)
    ensures ShapeOf(h, Down(c, n), a - 1, b - 1) == Lowered(ShapeOf(g, c, a, b))
    decreases b - a
  {
    if a <= c < b {
      assert h[c - 1] == DownCell(g[c], n, 1);
      DroppedHigh(g, h, n, g[c].l, a, c);
      DroppedHigh(g, h, n, g[c].r, c + 1, b);
    }
  }

  lemma DroppedCells(g: seq<Cell>, n: int)
    requires 0 <= n < |g|
    ensures forall i {:trigger Dropped(g, n)[i]} :: 0 <= i < n && i < |g| - 1 ==> Dropped(g, n)[i] == DownCell(g[i], n, 0)
    ensures forall i {:trigger Dropped(g, n)[i]} :: n < i < |g| - 1 ==> Dropped(g, n)[i] == DownCell(g[i + 1], n, 1)
  {
  }

  lemma DroppedTop(g: seq<Cell>, n: int)
    requires 0 <= n < |g| - 1
    ensures var h := Dropped(g, n);
      ShapeOf(h, n, 0, |h|) == Node(ShapeOf(h, Down(g[n + 1].l, n), 0, n), n, ShapeOf(h, Down(g[n + 1].r, n), n + 1, |h|))
  {
  }

  lemma DroppedForm(g: seq<Cell>, n: int)
    requires 0 <= n < |g| - 1
    ensures ShapeOf(Dropped(g, n), n, 0, |g| - 1) == Node(ShapeOf(g, g[n + 1].l, 0, n), n, Lowered(ShapeOf(g, g[n + 1].r, n + 2, |g|)))
  {
    DroppedTop(g, n);
    DroppedCells(g, n);
    DroppedLow(g, Dropped(g, n), n, g[n + 1].l, 0, n);
    DroppedHigh(g, Dropped(g, n), n, g[n + 1].r, n + 2, |g|);
  }

  /** The successor takes both subtrees. */
  lemma SucceedForm(g: seq<Cell>, n: int, top: int, g': seq<Cell>)
    requires 0 <= n < |g| - 1 && Succeeded(g, n, top, g')
    ensures ShapeOf(Dropped(g', n), n, 0, |g| - 1) == Node(ShapeOf(g, g[n].l, 0, n), n, Lowered(ShapeOf(g, top, n + 2, |g|)))
  {
    DroppedForm(g', n);
    SameShape(g, g', g[n].l, 0, n);
    SameShape(g, g', top, n + 2, |g|);
  }

  lemma {:induction false} PrefixOfShape(g: seq<Cell>, n: int, c: int, a: int, b: int)
    requires 0 <= b <= n <= |g|
    ensures ShapeOf(g[..n], c, a, b) == ShapeOf(g, c, a, b)
    decreases b - a
  {
    if a <= c < b && 0 <= c {
      PrefixOfShape(g, n, g[c].l, a, c);
      PrefixOfShape(g, n, g[c].r, c + 1, b);
    }
  }

  lemma LastForm(g: seq<Cell>, n: int, g': seq<Cell>)
    requires 0 <= n < |g| && g' == PutU(g, g[n].l, NIL)
    ensures ShapeOf(g'[..n], g[n].l, 0, n) == ShapeOf(g, g[n].l, 0, n)
  {
    PrefixOfShape(g', n, g[n].l, 0, n);
    SameShape(g, g', g[n].l, 0, n);
  }

  /** The subtrees of the root n under its successor. */
  ghost function Promoted(g: seq<Cell>, n: int, top: int): Shape
    requires 0 <= n < |g|
  {
    Node(ShapeOf(g, g[n].l, 0, n), n, Lowered(ShapeOf(g, top, n + 2, |g|)))
  }

  /** What is left of a tree without its root. */
  lemma UnlinkedForm(g: seq<Cell>, n: int)
    requires Tree(g, n) && n != NIL
    ensures WithoutRoot(ShapeOf(g, n, 0, |g|)) ==
      if n + 1 == |g| then ShapeOf(g, g[n].l, 0, n)
      else Node(ShapeOf(g, g[n].l, 0, n), n, Lowered(WithoutFirst(ShapeOf(g, g[n].r, n + 1, |g|))))
  {
    assert NodeOk(g, n);
  }

  /** All that holds when the successor has taken the place of n. */
  lemma SucceedAll(g: seq<Cell>, n: int, top: int, g': seq<Cell>)
    requires 0 <= n < |g| - 1 && LeftPart(g, n) && AllLate(g, n + 1, n + 2) && Top(g, n + 1, top)
    requires Succeeded(g, n, top, g')
    ensures Tree(Dropped(g', n), n) && ShapeOf(Dropped(g', n), n, 0, |g| - 1) == Promoted(g, n, top)
    ensures forall i :: 0 <= i < |g'| && i != n ==> g'[i].l != n && g'[i].r != n && g'[i].u != n
  {
    DeleteEnd(g, n, top, g');
    NoLinksToDropped(g, n, top, g');
    SucceedForm(g, n, top, g');
  }
}
