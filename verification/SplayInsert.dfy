/**
 The top-down split of `_sp_enq`, on cells.

 The new node has the last number n = |g| - 1 while the old tree, numbered [0, n), is taken
 apart.  Its key falls before place k.  The code builds the tree of the smaller keys under the
 right link of the new node and the tree of the larger keys under its left link.
 */
module SplayInsert {
  import opened SplayShape

  /** [a, b) is still unsplit, under `next`; `left` is the last node of the left tree and `right`
      the first node of the right tree (or the new node itself). */
  datatype Split = Split(k: int, a: int, b: int, left: int, right: int, next: int)

  ghost predicate LeftOk(g: seq<Cell>, s: Split, i: int)
    requires 0 <= i < |g|
  {
    && 0 <= g[i].lo <= i < g[i].hi <= s.k
    && Link(g, i, g[i].l, g[i].lo, i)
    && (if i == s.left then g[i].hi == s.k else Link(g, i, g[i].r, i + 1, g[i].hi))
  }

  ghost predicate RightOk(g: seq<Cell>, s: Split, i: int)
    requires 0 <= i < |g|
  {
    && s.k <= g[i].lo <= i < g[i].hi < |g|
    && Link(g, i, g[i].r, i + 1, g[i].hi)
    && (if i == s.right then g[i].lo == s.k else Link(g, i, g[i].l, g[i].lo, i))
  }

  ghost predicate Ends(g: seq<Cell>, s: Split) {
    var n := |g| - 1;
    && n >= 0 && 0 <= s.a <= s.k <= s.b <= n
    && g[n].u == NIL
    && Spans(g, s.next, s.a, s.b)
    && s.left == (if s.a == 0 then n else s.a - 1)
    && s.right == (if s.b == n then n else s.b)
    && (s.a > 0 ==> Link(g, n, g[n].r, 0, s.k))
    && (s.b < n ==> Link(g, n, g[n].l, s.k, n))
  }

  ghost predicate SplitInv(g: seq<Cell>, s: Split) {
    && Ends(g, s)
    && (forall i {:trigger LeftOk(g, s, i)} :: 0 <= i < s.a ==> LeftOk(g, s, i))
    && (forall i {:trigger RightOk(g, s, i)} :: s.b <= i < |g| - 1 ==> RightOk(g, s, i))
    && AllInner(g, s.a, s.b)
  }

  // `next` goes to the end of the left tree.
  ghost predicate Moved(g: seq<Cell>, s: Split, g': seq<Cell>)
    requires 0 <= s.next < |g| && 0 <= s.left < |g| && s.left != s.next
  {
    && |g'| == |g|
    && g'[s.left] == g[s.left].(r := s.next)
    && g'[s.next] == g[s.next].(u := s.left, hi := s.k)
    && forall i {:trigger g'[i]} :: 0 <= i < |g| && i != s.left && i != s.next ==> g'[i] == g[i]
  }

  ghost function AfterMove(g: seq<Cell>, s: Split): Split
    requires 0 <= s.next < |g|
  {
    s.(a := s.next + 1, left := s.next, next := g[s.next].r)
  }

  lemma MoveLeft(g: seq<Cell>, s: Split, g': seq<Cell>, i: int)
    requires SplitInv(g, s) && 0 <= s.next < s.k && Moved(g, s, g') && 0 <= i <= s.next
    ensures LeftOk(g', AfterMove(g, s), i)
  {
    assert Inner(g, s.next, s.a, s.b);
    if i < s.a {
      assert LeftOk(g, s, i);
    } else {
      assert Inner(g, i, s.a, s.b);
      UnderNext(g, s, i);
    }
  }

  lemma MoveInner(g: seq<Cell>, s: Split, g': seq<Cell>, i: int)
    requires SplitInv(g, s) && 0 <= s.next < s.k && Moved(g, s, g') && s.next < i < s.b
    ensures Inner(g', i, s.next + 1, s.b)
  {
    assert Inner(g, s.next, s.a, s.b) && Inner(g, i, s.a, s.b);
    UnderNext(g, s, i);
  }

  lemma MoveRight(g: seq<Cell>, s: Split, g': seq<Cell>, i: int)
    requires SplitInv(g, s) && 0 <= s.next < s.k && Moved(g, s, g') && s.b <= i < |g| - 1
    ensures RightOk(g', AfterMove(g, s), i)
  {
    assert Inner(g, s.next, s.a, s.b) && RightOk(g, s, i);
  }

  /** Every unsplit place lies on one side below the top of the unsplit part. */
  lemma {:induction false} UnderNext(g: seq<Cell>, s: Split, i: int)
    requires SplitInv(g, s) && s.a <= i < s.b && s.next != NIL
    ensures i == s.next || Under(g, s.next, i)
  {
    Descend(g, s.a, s.b, s.next, i);
  }

  lemma Move(g: seq<Cell>, s: Split, g': seq<Cell>)
    requires SplitInv(g, s) && 0 <= s.next < s.k && Moved(g, s, g')
    ensures SplitInv(g', AfterMove(g, s))
  {
    var s', n := AfterMove(g, s), |g| - 1;
    assert Inner(g, s.next, s.a, s.b);
    forall i | 0 <= i < s'.a ensures LeftOk(g', s', i) {
      MoveLeft(g, s, g', i);
    }
    forall i | s'.b <= i < n ensures RightOk(g', s', i) {
      MoveRight(g, s, g', i);
    }
    forall i | s'.a <= i < s'.b ensures Inner(g', i, s'.a, s'.b) {
      MoveInner(g, s, g', i);
    }
  }

  // The right child t of `next` is rotated above it.
  ghost predicate Turned(g: seq<Cell>, s: Split, g': seq<Cell>)
    requires 0 <= s.next < |g| && 0 <= g[s.next].r < |g|
  {
    var t := g[s.next].r;
    var c := g[t].l;
    && |g'| == |g|
    && g'[t] == g[t].(l := s.next, lo := s.a)
    && g'[s.next] == g[s.next].(r := c, u := t, hi := t)
    && (0 <= c < |g| ==> g'[c] == g[c].(u := s.next))
    && forall i {:trigger g'[i]} :: 0 <= i < |g| && i != t && i != s.next && i != c ==> g'[i] == g[i]
  }

  lemma TurnInner(g: seq<Cell>, s: Split, g': seq<Cell>, i: int)
    requires SplitInv(g, s) && 0 <= s.next && g[s.next].r != NIL
    requires 0 <= g[s.next].r < |g| && Turned(g, s, g') && s.a <= i < s.b
    ensures Inner(g', i, s.a, s.b)
  {
    var t := g[s.next].r;
    assert Inner(g, s.next, s.a, s.b) && Inner(g, t, s.a, s.b) && Inner(g, i, s.a, s.b);
    UnderNext(g, s, i);
    if i > s.next { Descend(g, s.a, s.b, t, i); }
  }

  lemma TurnOuter(g: seq<Cell>, s: Split, g': seq<Cell>, i: int)
    requires SplitInv(g, s) && 0 <= s.next && g[s.next].r != NIL
    requires 0 <= g[s.next].r < |g| && Turned(g, s, g')
    ensures 0 <= i < s.a ==> LeftOk(g', s.(next := g[s.next].r), i)
    ensures s.b <= i < |g| - 1 ==> RightOk(g', s.(next := g[s.next].r), i)
  {
    var t := g[s.next].r;
    assert Inner(g, s.next, s.a, s.b) && Inner(g, t, s.a, s.b);
    if g[t].l != NIL { assert Inner(g, g[t].l, s.a, s.b); }
    if 0 <= i < s.a { assert LeftOk(g, s, i); }
    if s.b <= i < |g| - 1 { assert RightOk(g, s, i); }
  }

  lemma Turn(g: seq<Cell>, s: Split, g': seq<Cell>)
    requires SplitInv(g, s) && 0 <= s.next && g[s.next].r != NIL
    requires 0 <= g[s.next].r < |g| && Turned(g, s, g')
    ensures SplitInv(g', s.(next := g[s.next].r))
  {
    var s', n := s.(next := g[s.next].r), |g| - 1;
    assert Inner(g, s.next, s.a, s.b) && Inner(g, s'.next, s.a, s.b);
    if g[s'.next].l != NIL { assert Inner(g, g[s'.next].l, s.a, s.b); }
    forall i | 0 <= i < s'.a ensures LeftOk(g', s', i) {
      TurnOuter(g, s, g', i);
    }
    forall i | s'.b <= i < n ensures RightOk(g', s', i) {
      TurnOuter(g, s, g', i);
    }
    forall i | s'.a <= i < s'.b ensures Inner(g', i, s'.a, s'.b) {
      TurnInner(g, s, g', i);
    }
  }

  /** The writes of the code rotate t above `next` and then move it to the left tree. */
  lemma TurnMoveSteps(g: seq<Cell>, s: Split, g1: seq<Cell>, g2: seq<Cell>, g3: seq<Cell>, g': seq<Cell>)
    returns (h: seq<Cell>)
    requires SplitInv(g, s) && 0 <= s.next < s.k && 0 <= g[s.next].r < s.k
    requires g1 == HangR(g, s.next, g[g[s.next].r].l) && g2 == HangR(g1, s.left, g[s.next].r)
    requires g3 == HangL(g2, g[s.next].r, s.next)
    requires g' == PutSpan(PutSpan(g3, s.next, s.a, g[s.next].r), g[s.next].r, s.a, s.k)
    ensures Turned(g, s, h) && s.left != g[s.next].r && Moved(h, s.(next := g[s.next].r), g')
  {
    var t := g[s.next].r;
    var c := g[t].l;
    assert Inner(g, s.next, s.a, s.b) && Inner(g, t, s.a, s.b);
    if c != NIL { assert Inner(g, c, s.a, s.b); }
    h := PutSpan(PutSpan(HangL(g1, t, s.next), s.next, s.a, t), t, s.a, s.b);
  }

  /** One round of the first loop of `_sp_enq`: the tree is rotated and split. */
  lemma TurnMove(g: seq<Cell>, s: Split, g1: seq<Cell>, g2: seq<Cell>, g3: seq<Cell>, g': seq<Cell>)
    requires SplitInv(g, s) && 0 <= s.next < s.k && 0 <= g[s.next].r < s.k
    requires g1 == HangR(g, s.next, g[g[s.next].r].l) && g2 == HangR(g1, s.left, g[s.next].r)
    requires g3 == HangL(g2, g[s.next].r, s.next)
    requires g' == PutSpan(PutSpan(g3, s.next, s.a, g[s.next].r), g[s.next].r, s.a, s.k)
    ensures var t := g[s.next].r;
      SplitInv(g', s.(a := t + 1, left := t, next := g[t].r)) && 0 <= t < |g'| && g'[t].r == g[t].r
  {
    var h := TurnMoveSteps(g, s, g1, g2, g3, g');
    Turn(g, s, h);
    Move(h, s.(next := g[s.next].r), g');
  }

  // ------------------------------------------------------------------ reflection of the old tree

  ghost function FlipOld(g: seq<Cell>): (f: seq<Cell>)
    requires |g| > 0
    ensures |f| == |g|
    ensures forall i {:trigger f[i]} :: 0 <= i < |f| ==> f[i] == Mirror(g[Reflect(i, |g| - 1)], |g| - 1)
  {
    seq(|g|, i requires 0 <= i < |g| => Mirror(g[Reflect(i, |g| - 1)], |g| - 1))
  }

  ghost function FlipSplit(s: Split, n: int): Split {
    Split(n - s.k, n - s.b, n - s.a, Reflect(s.right, n), Reflect(s.left, n), Reflect(s.next, n))
  }

  lemma FlipOldTwice(g: seq<Cell>)
    requires |g| > 0
    ensures FlipOld(FlipOld(g)) == g
  {
    forall i | 0 <= i < |g| ensures FlipOld(FlipOld(g))[i] == g[i] {
      assert FlipOld(g)[Reflect(i, |g| - 1)] == Mirror(g[i], |g| - 1);
    }
  }

  lemma FlipSide(g: seq<Cell>, s: Split, i: int)
    requires 0 < |g| && 0 <= i < |g| - 1 && 0 <= s.k < |g|
    ensures LeftOk(g, s, i) ==> RightOk(FlipOld(g), FlipSplit(s, |g| - 1), |g| - 2 - i)
    ensures RightOk(g, s, i) ==> LeftOk(FlipOld(g), FlipSplit(s, |g| - 1), |g| - 2 - i)
  {
  }

  lemma FlipOldInner(g: seq<Cell>, a: int, b: int, i: int)
    requires 0 < |g| && 0 <= a <= i < b < |g| && Inner(g, i, a, b)
    ensures Inner(FlipOld(g), |g| - 2 - i, |g| - 1 - b, |g| - 1 - a)
  {
  }

  lemma FlipEnds(g: seq<Cell>, s: Split)
    requires |g| > 0 && Ends(g, s)
    ensures Ends(FlipOld(g), FlipSplit(s, |g| - 1))
  {
  }

  lemma FlipPlace(g: seq<Cell>, s: Split, i: int)
    requires |g| > 0 && SplitInv(g, s) && 0 <= i < |g| - 1
    ensures var s' := FlipSplit(s, |g| - 1);
            && (i < s'.a ==> LeftOk(FlipOld(g), s', i))
            && (s'.b <= i ==> RightOk(FlipOld(g), s', i))
            && (s'.a <= i < s'.b ==> Inner(FlipOld(g), i, s'.a, s'.b))
  {
    var j := |g| - 2 - i;
    if j < s.a {
      assert LeftOk(g, s, j);
      FlipSide(g, s, j);
    } else if j < s.b {
      assert Inner(g, j, s.a, s.b);
      FlipOldInner(g, s.a, s.b, j);
    } else {
      assert RightOk(g, s, j);
      FlipSide(g, s, j);
    }
  }

  lemma FlipSplitInv(g: seq<Cell>, s: Split)
    requires |g| > 0 && SplitInv(g, s)
    ensures SplitInv(FlipOld(g), FlipSplit(s, |g| - 1))
  {
    var f, n := FlipOld(g), |g| - 1;
    var s' := FlipSplit(s, n);
    FlipEnds(g, s);
    forall i | 0 <= i < s'.a ensures LeftOk(f, s', i) {
      FlipPlace(g, s, i);
    }
    forall i | s'.b <= i < n ensures RightOk(f, s', i) {
      FlipPlace(g, s, i);
    }
    forall i | s'.a <= i < s'.b ensures Inner(f, i, s'.a, s'.b) {
      FlipPlace(g, s, i);
    }
  }

  // ------------------------------------------------------------------ the mirrored steps

  ghost predicate MovedRight(g: seq<Cell>, s: Split, g': seq<Cell>)
    requires 0 <= s.next < |g| && 0 <= s.right < |g| && s.right != s.next
  {
    && |g'| == |g|
    && g'[s.right] == g[s.right].(l := s.next)
    && g'[s.next] == g[s.next].(u := s.right, lo := s.k)
    && forall i {:trigger g'[i]} :: 0 <= i < |g| && i != s.right && i != s.next ==> g'[i] == g[i]
  }

  ghost function AfterMoveRight(g: seq<Cell>, s: Split): Split
    requires 0 <= s.next < |g|
  {
    s.(b := s.next, right := s.next, next := g[s.next].l)
  }

  lemma FlipMoved(g: seq<Cell>, s: Split, g': seq<Cell>)
    requires |g| > 0 && 0 <= s.next < |g| - 1 && 0 <= s.right < |g| && s.right != s.next && MovedRight(g, s, g')
    ensures Moved(FlipOld(g), FlipSplit(s, |g| - 1), FlipOld(g'))
  {
    var f, f', n := FlipOld(g), FlipOld(g'), |g| - 1;
    var s' := FlipSplit(s, n);
    forall i {:trigger f'[i]} | 0 <= i < |g| && i != s'.left && i != s'.next ensures f'[i] == f[i] {
      assert g'[Reflect(i, n)] == g[Reflect(i, n)];
    }
  }

  lemma MoveAndFlip(g: seq<Cell>, s: Split, g': seq<Cell>, s': Split)
    requires |g| > 0 && SplitInv(g, s) && 0 <= s.next < s.k && Moved(g, s, g')
    requires s' == FlipSplit(AfterMove(g, s), |g| - 1)
    ensures SplitInv(FlipOld(g'), s')
  {
    Move(g, s, g');
    FlipSplitInv(g', AfterMove(g, s));
  }

  lemma FlipAfterMove(g: seq<Cell>, s: Split)
    requires 0 <= s.next < |g| - 1
    ensures 0 <= FlipSplit(s, |g| - 1).next < |g|
    ensures AfterMoveRight(g, s) == FlipSplit(AfterMove(FlipOld(g), FlipSplit(s, |g| - 1)), |FlipOld(g)| - 1)
    ensures s.next >= s.k ==> 0 <= FlipSplit(s, |g| - 1).next < FlipSplit(s, |g| - 1).k
  {
  }

  lemma MoveToRight(g: seq<Cell>, s: Split, g': seq<Cell>)
    requires |g| > 0 && SplitInv(g, s) && s.next >= s.k && MovedRight(g, s, g')
    ensures SplitInv(g', AfterMoveRight(g, s))
  {
    FlipOldTwice(g');
    FlipAfterMove(g, s);
    FlipMoved(g, s, g');
    FlipSplitInv(g, s);
    MoveAndFlip(FlipOld(g), FlipSplit(s, |g| - 1), FlipOld(g'), AfterMoveRight(g, s));
  }

  ghost predicate TurnedRight(g: seq<Cell>, s: Split, g': seq<Cell>)
    requires 0 <= s.next < |g| && 0 <= g[s.next].l < |g|
  {
    var t := g[s.next].l;
    var c := g[t].r;
    && |g'| == |g|
    && g'[t] == g[t].(r := s.next, hi := s.b)
    && g'[s.next] == g[s.next].(l := c, u := t, lo := t + 1)
    && (0 <= c < |g| ==> g'[c] == g[c].(u := s.next))
    && forall i {:trigger g'[i]} :: 0 <= i < |g| && i != t && i != s.next && i != c ==> g'[i] == g[i]
  }

  lemma FlipTurned(g: seq<Cell>, s: Split, g': seq<Cell>)
    requires |g| > 0 && 0 <= s.next < |g| - 1 && 0 <= g[s.next].l < |g| - 1 && TurnedRight(g, s, g')
    ensures Turned(FlipOld(g), FlipSplit(s, |g| - 1), FlipOld(g'))
  {
    var f, f', n := FlipOld(g), FlipOld(g'), |g| - 1;
    var s' := FlipSplit(s, n);
    var t := f[s'.next].r;
    forall i {:trigger f'[i]} | 0 <= i < |g| && i != t && i != s'.next && i != f[t].l ensures f'[i] == f[i] {
      assert g'[Reflect(i, n)] == g[Reflect(i, n)];
    }
  }

  lemma TurnAndFlip(g: seq<Cell>, s: Split, g': seq<Cell>, s': Split, h: seq<Cell>)
    requires |g| > 0 && SplitInv(g, s) && 0 <= s.next && g[s.next].r != NIL
    requires 0 <= g[s.next].r < |g| && Turned(g, s, g')
    requires s' == FlipSplit(s.(next := g[s.next].r), |g| - 1) && |g'| > 0 && h == FlipOld(g')
    ensures SplitInv(h, s')
  {
    Turn(g, s, g');
    FlipTo(g', s.(next := g[s.next].r), h, s');
  }

  lemma FlipTo(g: seq<Cell>, s: Split, h: seq<Cell>, s': Split)
    requires |g| > 0 && SplitInv(g, s) && h == FlipOld(g) && s' == FlipSplit(s, |g| - 1)
    ensures SplitInv(h, s')
  {
    FlipSplitInv(g, s);
  }

  lemma FlipAfterTurn(g: seq<Cell>, s: Split)
    requires 0 <= s.next < |g| - 1 && 0 <= g[s.next].l < |g| - 1
    ensures 0 <= FlipSplit(s, |g| - 1).next < |g|
    ensures 0 <= FlipOld(g)[FlipSplit(s, |g| - 1).next].r < |g|
    ensures var s' := FlipSplit(s, |g| - 1);
      s.(next := g[s.next].l) == FlipSplit(s'.(next := FlipOld(g)[s'.next].r), |FlipOld(g)| - 1)
  {
  }

  lemma TurnRight(g: seq<Cell>, s: Split, g': seq<Cell>)
    requires |g| > 0 && SplitInv(g, s) && 0 <= s.next && g[s.next].l != NIL
    requires 0 <= g[s.next].l < |g| - 1 && TurnedRight(g, s, g')
    ensures SplitInv(g', s.(next := g[s.next].l))
  {
    FlipForTurn(g, s, g');
    TurnBack(FlipOld(g), FlipSplit(s, |g| - 1), g', s.(next := g[s.next].l));
  }

  /** A turn to the left, seen in the mirror. */
  lemma TurnBack(f: seq<Cell>, t: Split, g': seq<Cell>, s': Split)
    requires |f| > 0 && SplitInv(f, t) && 0 <= t.next < |f| && f[t.next].r != NIL && |g'| > 0
    requires 0 <= f[t.next].r < |f| && Turned(f, t, FlipOld(g')) && s' == FlipSplit(t.(next := f[t.next].r), |f| - 1)
    ensures SplitInv(g', s')
  {
    FlipOldTwice(g');
    TurnAndFlip(f, t, FlipOld(g'), s', g');
  }

  /** Seen in the mirror, the turn to the right is a turn to the left. */
  lemma FlipForTurn(g: seq<Cell>, s: Split, g': seq<Cell>)
    requires |g| > 0 && SplitInv(g, s) && 0 <= s.next && g[s.next].l != NIL
    requires 0 <= g[s.next].l < |g| - 1 && TurnedRight(g, s, g')
    ensures var f, t := FlipOld(g), FlipSplit(s, |g| - 1);
      && SplitInv(f, t) && 0 <= t.next < |f| && f[t.next].r != NIL && 0 <= f[t.next].r < |f| && Turned(f, t, FlipOld(g'))
      && s.(next := g[s.next].l) == FlipSplit(t.(next := f[t.next].r), |f| - 1)
  {
    FlipAfterTurn(g, s);
    FlipSplitInv(g, s);
    FlipTurned(g, s, g');
  }

  lemma TurnMoveRightSteps(g: seq<Cell>, s: Split, g1: seq<Cell>, g2: seq<Cell>, g3: seq<Cell>, g': seq<Cell>)
    returns (h: seq<Cell>)
    requires SplitInv(g, s) && s.next >= s.k && g[s.next].l >= s.k && g[s.next].l < |g|
    requires g1 == HangL(g, s.next, g[g[s.next].l].r) && g2 == HangL(g1, s.right, g[s.next].l)
    requires g3 == HangR(g2, g[s.next].l, s.next)
    requires g' == PutSpan(PutSpan(g3, s.next, g[s.next].l + 1, s.b), g[s.next].l, s.k, s.b)
    ensures g[s.next].l < |g| - 1 && s.right != g[s.next].l
    ensures TurnedRight(g, s, h) && MovedRight(h, s.(next := g[s.next].l), g')
  {
    var t := g[s.next].l;
    var c := g[t].r;
    assert Inner(g, s.next, s.a, s.b) && Inner(g, t, s.a, s.b);
    if c != NIL { assert Inner(g, c, s.a, s.b); }
    h := PutSpan(PutSpan(HangR(g1, t, s.next), s.next, t + 1, s.b), t, s.a, s.b);
    TurnedByWrites(g, s, g1, h);
  }

  lemma TurnedByWrites(g: seq<Cell>, s: Split, g1: seq<Cell>, h: seq<Cell>)
    requires SplitInv(g, s) && s.next >= s.k && g[s.next].l >= s.k && g[s.next].l < |g|
    requires var t := g[s.next].l;
      && g1 == HangL(g, s.next, g[t].r)
      && h == PutSpan(PutSpan(HangR(g1, t, s.next), s.next, t + 1, s.b), t, s.a, s.b)
    ensures TurnedRight(g, s, h)
  {
    var t := g[s.next].l;
    var c := g[t].r;
    assert Inner(g, s.next, s.a, s.b) && Inner(g, t, s.a, s.b);
    if c != NIL { assert Inner(g, c, s.a, s.b); }
  }

  lemma TurnMoveRight(g: seq<Cell>, s: Split, g1: seq<Cell>, g2: seq<Cell>, g3: seq<Cell>, g': seq<Cell>)
    requires SplitInv(g, s) && s.next >= s.k && g[s.next].l >= s.k && g[s.next].l < |g|
    requires g1 == HangL(g, s.next, g[g[s.next].l].r) && g2 == HangL(g1, s.right, g[s.next].l)
    requires g3 == HangR(g2, g[s.next].l, s.next)
    requires g' == PutSpan(PutSpan(g3, s.next, g[s.next].l + 1, s.b), g[s.next].l, s.k, s.b)
    ensures var t := g[s.next].l;
      SplitInv(g', s.(b := t, right := t, next := g[t].l)) && 0 <= t < |g'| && g'[t].l == g[t].l
  {
    var h := TurnMoveRightSteps(g, s, g1, g2, g3, g');
    TurnRight(g, s, h);
    MoveToRight(h, s.(next := g[s.next].l), g');
  }

  // ------------------------------------------------------------------ beginning and end

  lemma SplitStart(g: seq<Cell>, root: int, extra: Cell, k: int)
    requires Tree(g, root) && 0 <= k <= |g| && extra.u == NIL
    ensures SplitInv(g + [extra], Split(k, 0, |g|, |g|, |g|, root))
  {
    var h, n := g + [extra], |g|;
    forall i | 0 <= i < n ensures Inner(h, i, 0, n) {
      assert NodeOk(g, i);
    }
  }

  /** Nothing is left to split and the open ends of the two trees are closed. */
  ghost predicate Closed(g: seq<Cell>, s: Split) {
    && |g| > 1 && SplitInv(g, s) && s.next == NIL
    && g[s.left].r == NIL && g[s.right].l == NIL
  }

  lemma Close(g: seq<Cell>, s: Split, g': seq<Cell>)
    requires |g| > 1 && SplitInv(g, s) && s.next == NIL
    requires (g[s.left].r == NIL && g' == PutL(g, s.right, NIL))
             || (g[s.right].l == NIL && g' == PutR(g, s.left, NIL))
    ensures Closed(g', s)
  {
    forall i | 0 <= i < s.a ensures LeftOk(g', s, i) {
      assert LeftOk(g, s, i);
    }
    forall i | s.b <= i < |g| - 1 ensures RightOk(g', s, i) {
      assert RightOk(g, s, i);
    }
  }

  /** Where a number goes when the last node n moves to place k. */
  function Shift(x: int, k: int, n: int): int {
    if x == n then k else if x >= k then x + 1 else x
  }

  function ShiftCell(c: Cell, k: int, n: int, d: int): Cell {
    Cell(Shift(c.l, k, n), Shift(c.r, k, n), Shift(c.u, k, n), c.lo + d, c.hi + d)
  }

  /** The children of the new node, built in reverse, are exchanged. */
  function Exchanged(g: seq<Cell>): seq<Cell>
    requires |g| > 0
  {
    var n := |g| - 1;
    g[n := g[n].(l := g[n].r, r := g[n].l)]
  }

  /** The new node, the last, takes place k. */
  function Placed(g: seq<Cell>, k: int): (h: seq<Cell>)
    requires 0 <= k < |g|
    ensures |h| == |g|
    ensures forall i {:trigger h[i]} :: 0 <= i < |g| ==> h[i] == PlacedCell(g, k, i)
  {
    seq(|g|, i requires 0 <= i < |g| => PlacedCell(g, k, i))
  }

  function PlacedCell(g: seq<Cell>, k: int, i: int): Cell
    requires 0 <= k < |g| && 0 <= i < |g|
  {
    var n := |g| - 1;
    if i < k then ShiftCell(g[i], k, n, 0)
    else if i > k then ShiftCell(g[i - 1], k, n, 1)
    else ShiftCell(g[n].(lo := 0, hi := |g|), k, n, 0)
  }

  lemma PlacedLeft(g: seq<Cell>, s: Split, i: int)
    requires Closed(g, s) && 0 <= i < s.k
    ensures NodeOk(Placed(Exchanged(g), s.k), i)
  {
    assert LeftOk(g, s, i);
  }

  lemma PlacedRight(g: seq<Cell>, s: Split, i: int)
    requires Closed(g, s) && s.k < i < |g|
    ensures NodeOk(Placed(Exchanged(g), s.k), i)
  {
    assert RightOk(g, s, i - 1);
  }

  lemma SplitEnd(g: seq<Cell>, s: Split)
    requires Closed(g, s)
    ensures Tree(Placed(Exchanged(g), s.k), s.k)
  {
    var h := Placed(Exchanged(g), s.k);
    forall i | 0 <= i < |h| ensures NodeOk(h, i) {
      if i < s.k { PlacedLeft(g, s, i); }
      if i > s.k { PlacedRight(g, s, i); }
    }
  }
}
