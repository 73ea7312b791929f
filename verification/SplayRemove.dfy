/**
 Taking the first node out of the right subtree of the root (`_sp_deq`) and putting it in the
 place of the root (`sp_delete`), on cells.
 */
module SplayRemove {
  import opened SplayShape

  ghost predicate Late(g: seq<Cell>, x: int, i: int)
    requires 0 <= i < |g|
  {
    NodeOk(g, i) && x < g[i].lo
  }

  ghost predicate AllLate(g: seq<Cell>, x: int, from: int)
    requires 0 <= from
  {
    forall i {:trigger Late(g, x, i)} :: from <= i < |g| ==> Late(g, x, i)
  }

  /** The first place x of the subtree at places [x, |g|) is still below `left`, the left child
      of `next`; from `next` on, the spans already leave x out. */
  ghost predicate DeqInv(g: seq<Cell>, x: int, next: int, left: int) {
    && 0 <= x < next < |g|
    && g[next].l == left && left != NIL && Link(g, next, left, x, next)
    && AllInner(g, x, next)
    && g[next].lo == x + 1 && next < g[next].hi <= |g|
    && Link(g, next, g[next].r, next + 1, g[next].hi)
    && AllLate(g, x, next + 1)
  }

  /** The top of the subtree, once it no longer covers x. */
  ghost predicate Top(g: seq<Cell>, x: int, top: int) {
    Spans(g, top, x + 1, |g|)
  }

  lemma Inside(g: seq<Cell>, x: int, next: int, left: int, i: int)
    requires DeqInv(g, x, next, left) && x <= i < next
    ensures i == left || Under(g, left, i)
  {
    Descend(g, x, next, left, i);
  }

  // The span of `left` gives up x, and `left` takes the part of `next`.
  lemma StepDown(g: seq<Cell>, x: int, next: int, left: int, top: int, g': seq<Cell>)
    requires DeqInv(g, x, next, left) && g[left].l != NIL
    requires g' == PutSpan(g, left, x + 1, g[left].hi)
    ensures DeqInv(g', x, left, g[left].l)
    ensures Top(g, x, top) ==> Top(g', x, top)
  {
    assert Inner(g, left, x, next);
    forall i | x <= i < left ensures Inner(g', i, x, left) {
      assert Inner(g, i, x, next);
      Inside(g, x, next, left, i);
    }
    forall i | left < i < |g| ensures Late(g', x, i) {
      if i < next {
        assert Inner(g, i, x, next);
        Inside(g, x, next, left, i);
      } else if i > next {
        assert Late(g, x, i);
      }
    }
  }

  // The left child f of `left` is rotated above it, below `next`.
  ghost predicate Rolled(g: seq<Cell>, next: int, left: int, g': seq<Cell>)
    requires 0 <= next < |g| && 0 <= left < |g| && 0 <= g[left].l < |g|
  {
    var f := g[left].l;
    var c := g[f].r;
    && |g'| == |g|
    && g'[next] == g[next].(l := f)
    && g'[f] == g[f].(r := left, u := next, hi := next)
    && g'[left] == g[left].(l := c, u := f, lo := f + 1)
    && (0 <= c < |g| ==> g'[c] == g[c].(u := left))
    && forall i {:trigger g'[i]} ::
         0 <= i < |g| && i != next && i != f && i != left && i != c ==> g'[i] == g[i]
  }

  lemma RollInner(g: seq<Cell>, x: int, next: int, left: int, g': seq<Cell>, i: int)
    requires DeqInv(g, x, next, left) && 0 <= g[left].l < |g| && Rolled(g, next, left, g') && x <= i < next
    ensures Inner(g', i, x, next)
  {
    var f := g[left].l;
    assert Inner(g, left, x, next) && Inner(g, f, x, next) && Inner(g, i, x, next);
    Inside(g, x, next, left, i);
    if i < left { Descend(g, x, next, f, i); }
  }

  lemma Roll(g: seq<Cell>, x: int, next: int, left: int, top: int, g': seq<Cell>)
    requires DeqInv(g, x, next, left) && 0 <= g[left].l < |g| && Rolled(g, next, left, g')
    ensures DeqInv(g', x, next, g[left].l)
    ensures Top(g, x, top) ==> Top(g', x, top)
  {
    var f := g[left].l;
    assert Inner(g, left, x, next) && Inner(g, f, x, next);
    if g[f].r != NIL { assert Inner(g, g[f].r, x, next); }
    forall i | x <= i < next ensures Inner(g', i, x, next) {
      RollInner(g, x, next, left, g', i);
    }
    forall i | next < i < |g| ensures Late(g', x, i) {
      assert Late(g, x, i);
    }
  }

  /** The writes of the code rotate f above `left`. */
  lemma RollSteps(g: seq<Cell>, x: int, next: int, left: int,
                  g1: seq<Cell>, g2: seq<Cell>, g3: seq<Cell>, g': seq<Cell>)
    requires DeqInv(g, x, next, left) && 0 <= g[left].l < |g|
    requires g1 == HangL(g, next, g[left].l) && g2 == HangL(g1, left, g[g[left].l].r) && g3 == HangR(g2, g[left].l, left)
    requires g' == PutSpan(PutSpan(g3, g[left].l, x, next), left, g[left].l + 1, next)
    ensures Rolled(g, next, left, g')
  {
    var f := g[left].l;
    assert Inner(g, left, x, next) && Inner(g, f, x, next);
    if g[f].r != NIL { assert Inner(g, g[f].r, x, next); }
  }

  /** The links, the spans and what the rotation keeps. */
  lemma RollAll(g: seq<Cell>, x: int, next: int, left: int, top: int,
                g1: seq<Cell>, g2: seq<Cell>, g3: seq<Cell>, g': seq<Cell>)
    requires DeqInv(g, x, next, left) && 0 <= g[left].l < |g| && Top(g, x, top)
    requires g1 == HangL(g, next, g[left].l) && g2 == HangL(g1, left, g[g[left].l].r) && g3 == HangR(g2, g[left].l, left)
    requires g' == PutSpan(PutSpan(g3, g[left].l, x, next), left, g[left].l + 1, next)
    ensures DeqInv(g', x, next, g[left].l) && Top(g', x, top) && |g'| == |g|
    ensures x <= g[left].l < left < next && g'[g[left].l].l == g[g[left].l].l && Rolled(g, next, left, g')
    ensures forall i :: 0 <= i < x && i < |g| ==> g'[i] == g[i]
  {
    RollSteps(g, x, next, left, g1, g2, g3, g');
    Roll(g, x, next, left, top, g');
    assert Inner(g, left, x, next) && Inner(g, g[left].l, x, next);
  }

  // The right child c of x = left replaces it below `next`.
  lemma Take(g: seq<Cell>, x: int, next: int, left: int, top: int, g': seq<Cell>)
    requires DeqInv(g, x, next, left) && g[left].l == NIL
    requires g' == HangL(g, next, g[left].r)
    ensures left == x && AllLate(g', x, x + 1)
    ensures Top(g, x, top) ==> Top(g', x, top)
  {
    assert Inner(g, left, x, next);
    if g[left].r != NIL { assert Inner(g, g[left].r, x, next); }
    forall i | x < i < |g| ensures Late(g', x, i) {
      TakeLate(g, x, next, left, g', i);
    }
  }

  lemma TakeLate(g: seq<Cell>, x: int, next: int, left: int, g': seq<Cell>, i: int)
    requires DeqInv(g, x, next, left) && g[left].l == NIL && left == x && x < i < |g|
    requires g' == HangL(g, next, g[left].r)
    ensures Late(g', x, i)
  {
    assert Inner(g, left, x, next);
    if g[left].r != NIL { assert Inner(g, g[left].r, x, next); }
    if i < next {
      assert Inner(g, i, x, next);
      Inside(g, x, next, left, i);
    } else if i > next {
      assert Late(g, x, i);
    }
  }

  // ------------------------------------------------------------------ before and after

  lemma RootSides(g: seq<Cell>, n: int, i: int)
    requires Tree(g, n) && n != NIL && 0 <= i < |g|
    ensures NodeOk(g, i) && (i < n ==> g[i].hi <= n) && (i > n ==> n < g[i].lo)
  {
    Below(g, n, i);
  }

  /** The top t of the right subtree has a left child: the descent can begin. */
  lemma DeqStart(g: seq<Cell>, n: int, g': seq<Cell>)
    requires Tree(g, n) && n != NIL && g[n].r != NIL && 0 <= g[n].r < |g| && g[g[n].r].l != NIL
    requires g' == PutSpan(g, g[n].r, n + 2, |g|)
    ensures DeqInv(g', n + 1, g[n].r, g[g[n].r].l) && Top(g', n + 1, g[n].r)
    ensures forall i :: 0 <= i <= n ==> g'[i] == g[i]
  {
    var x, t := n + 1, g[n].r;
    assert NodeOk(g, n) && NodeOk(g, t);
    forall i | x <= i < t ensures Inner(g', i, x, t) {
      RootSides(g, n, i);
      Below(g, t, i);
    }
    forall i | t < i < |g| ensures Late(g', x, i) {
      RootSides(g, n, i);
      Below(g, t, i);
    }
  }

  /** The top x of the right subtree is itself the first node; its right child c replaces it. */
  lemma DeqFirst(g: seq<Cell>, n: int, g': seq<Cell>)
    requires Tree(g, n) && n != NIL && 0 <= g[n].r < |g| && g[g[n].r].l == NIL
    requires g' == PutU(PutR(g, n, g[g[n].r].r), g[g[n].r].r, NIL)
    ensures g[n].r == n + 1 && AllLate(g', n + 1, n + 2) && Top(g', n + 1, g[g[n].r].r)
    ensures forall i :: 0 <= i < n ==> g'[i] == g[i]
  {
    var x := n + 1;
    assert NodeOk(g, n) && NodeOk(g, g[n].r);
    forall i | x < i < |g| ensures Late(g', x, i) {
      RootSides(g, n, i);
      Below(g, x, i);
    }
  }

  function Down(y: int, n: int): int {
    if y > n then y - 1 else y
  }

  function DownCell(c: Cell, n: int, d: int): Cell {
    Cell(Down(c.l, n), Down(c.r, n), Down(c.u, n), c.lo - d, c.hi - d)
  }

  function DroppedCell(g: seq<Cell>, n: int, i: int): Cell
    requires 0 <= n < |g| && 0 <= i < |g| - 1
  {
    if i < n then DownCell(g[i], n, 0)
    else if i > n then DownCell(g[i + 1], n, 1)
    else Cell(Down(g[n + 1].l, n), Down(g[n + 1].r, n), Down(g[n + 1].u, n), 0, |g| - 1)
  }

  /** Place n is given up; the node after it now stands there, as the root. */
  function Dropped(g: seq<Cell>, n: int): (h: seq<Cell>)
    requires 0 <= n < |g|
    ensures |h| == |g| - 1
    ensures forall i {:trigger h[i]} :: 0 <= i < |h| ==> h[i] == DroppedCell(g, n, i)
  {
    seq(|g| - 1, i requires 0 <= i < |g| - 1 => DroppedCell(g, n, i))
  }

  // The first node x of the right subtree takes both subtrees of n.
  ghost predicate Succeeded(g: seq<Cell>, n: int, top: int, g': seq<Cell>)
    requires 0 <= n < |g| - 1
  {
    var x := n + 1;
    && |g'| == |g|
    && g'[x].l == g[n].l && g'[x].r == top && g'[x].u == NIL
    && (0 <= g[n].l < |g| ==> g'[g[n].l] == g[g[n].l].(u := x))
    && (0 <= top < |g| ==> g'[top] == g[top].(u := x))
    && forall i {:trigger g'[i]} ::
         0 <= i < |g| && i != x && i != n && i != g[n].l && i != top ==> g'[i] == g[i]
  }

  /** The left part of the tree is as under the root n. */
  ghost predicate LeftPart(g: seq<Cell>, n: int)
    requires 0 <= n < |g|
  {
    Spans(g, g[n].l, 0, n) && AllInner(g, 0, n)
  }

  lemma DroppedNode(g: seq<Cell>, n: int, top: int, g': seq<Cell>, i: int)
    requires 0 <= n < |g| - 1 && LeftPart(g, n) && AllLate(g, n + 1, n + 2) && Top(g, n + 1, top)
    requires Succeeded(g, n, top, g') && 0 <= i < |g| - 1 && i != n
    ensures NodeOk(Dropped(g', n), i)
  {
    if i < n { DroppedLeft(g, n, top, g', i); } else { DroppedRight(g, n, top, g', i); }
  }

  lemma DroppedLeft(g: seq<Cell>, n: int, top: int, g': seq<Cell>, i: int)
    requires 0 <= n < |g| - 1 && LeftPart(g, n) && AllLate(g, n + 1, n + 2) && Top(g, n + 1, top)
    requires Succeeded(g, n, top, g') && 0 <= i < n
    ensures NodeOk(Dropped(g', n), i)
  {
    assert Inner(g, i, 0, n);
  }

  lemma DroppedRight(g: seq<Cell>, n: int, top: int, g': seq<Cell>, i: int)
    requires 0 <= n < |g| - 1 && LeftPart(g, n) && AllLate(g, n + 1, n + 2) && Top(g, n + 1, top)
    requires Succeeded(g, n, top, g') && n < i < |g| - 1
    ensures NodeOk(Dropped(g', n), i)
  {
    LateStays(g, n, top, g', i + 1);
    DropLate(g', n, i);
  }

  /** The links of a node after x = n + 1 are not touched, and lead to nodes after x. */
  lemma LateStays(g: seq<Cell>, n: int, top: int, g': seq<Cell>, j: int)
    requires 0 <= n < |g| - 1 && LeftPart(g, n) && AllLate(g, n + 1, n + 2) && Top(g, n + 1, top)
    requires Succeeded(g, n, top, g') && n + 1 < j < |g|
    ensures Late(g', n + 1, j)
  {
    assert Late(g, n + 1, j);
    var c, d := g[j].l, g[j].r;
    assert c != NIL ==> Late(g, n + 1, c) && c != top;
    assert d != NIL ==> Late(g, n + 1, d) && d != top;
  }

  lemma DropLate(g: seq<Cell>, n: int, i: int)
    requires 0 <= n < i < |g| - 1 && Late(g, n + 1, i + 1)
    ensures NodeOk(Dropped(g, n), i)
  {
  }

  lemma DeleteEnd(g: seq<Cell>, n: int, top: int, g': seq<Cell>)
    requires 0 <= n < |g| - 1 && LeftPart(g, n) && AllLate(g, n + 1, n + 2) && Top(g, n + 1, top)
    requires Succeeded(g, n, top, g')
    ensures Tree(Dropped(g', n), n)
  {
    var h := Dropped(g', n);
    forall i | 0 <= i < |h| ensures NodeOk(h, i) {
      if i != n { DroppedNode(g, n, top, g', i); }
    }
  }

  lemma DeleteLast(g: seq<Cell>, n: int, g': seq<Cell>)
    requires Tree(g, n) && n != NIL && g[n].r == NIL && g' == PutU(g, g[n].l, NIL)
    ensures n == |g| - 1 && Tree(g'[..n], g[n].l)
    ensures forall i :: 0 <= i < n ==> g'[i].l != n && g'[i].r != n && g'[i].u != n
  {
    assert NodeOk(g, n);
    var h := g'[..n];
    forall i | 0 <= i < n ensures NodeOk(h, i) {
      RootSides(g, n, i);
    }
    forall i | 0 <= i < n ensures g'[i].l != n && g'[i].r != n && g'[i].u != n {
      assert NodeOk(h, i) && h[i] == g'[i];
      Below(h, g[n].l, i);
    }
  }

  lemma LeftOfRoot(g: seq<Cell>, n: int)
    requires Tree(g, n) && n != NIL
    ensures LeftPart(g, n)
  {
    assert NodeOk(g, n);
    forall i | 0 <= i < n ensures Inner(g, i, 0, n) {
      RootSides(g, n, i);
    }
  }

  /** No link of the remaining nodes leads to the node that is given up. */
  lemma NoLinkToDropped(g: seq<Cell>, n: int, top: int, g': seq<Cell>, i: int)
    requires 0 <= n < |g| - 1 && LeftPart(g, n) && AllLate(g, n + 1, n + 2) && Top(g, n + 1, top)
    requires Succeeded(g, n, top, g') && 0 <= i < |g| && i != n
    ensures g'[i].l != n && g'[i].r != n && g'[i].u != n
  {
    var h := Dropped(g', n);
    DeleteEnd(g, n, top, g');
    if i != n + 1 {
      var j := if i < n then i else i - 1;
      assert NodeOk(h, j) && NodeOk(h, n);
      Below(h, n, j);
      if i < n {
        assert Inner(g, i, 0, n);
      } else {
        assert Late(g, n + 1, i);
      }
    }
  }

  lemma NoLinksToDropped(g: seq<Cell>, n: int, top: int, g': seq<Cell>)
    requires 0 <= n < |g| - 1 && LeftPart(g, n) && AllLate(g, n + 1, n + 2) && Top(g, n + 1, top)
    requires Succeeded(g, n, top, g')
    ensures forall i :: 0 <= i < |g'| && i != n ==> g'[i].l != n && g'[i].r != n && g'[i].u != n
  {
    forall i | 0 <= i < |g'| && i != n ensures g'[i].l != n && g'[i].r != n && g'[i].u != n {
      NoLinkToDropped(g, n, top, g', i);
    }
  }
}
