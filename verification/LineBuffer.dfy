/**
 zmailer/lib/linebuffer.c: lines of a file through a refilled buffer.
 */
module LineBuffer {
  import opened Sequences

  const BUFSIZ: nat := 8192

  /** How long the next piece is: up to and including a newline, but at most cap characters. */
  function PieceLen(s: string, cap: nat): (n: nat)
    ensures n <= cap && n <= |s| && (n == 0 <==> s == [] || cap == 0)
  {
    if s == [] || cap == 0 then 0 else if s[0] == '\n' then 1 else 1 + PieceLen(s[1..], cap - 1)
  }

  /** A newline is only the last character of a piece. */
  lemma {:induction false} PieceShape(s: string, cap: nat)
    ensures '\n' !in Front(s[..PieceLen(s, cap)])
  {
    if s != [] && cap > 0 && s[0] != '\n' {
      PieceShape(s[1..], cap - 1);
      var n := PieceLen(s[1..], cap - 1);
      assert n > 0 ==> Front(s[..n + 1]) == [s[0]] + Front(s[1..][..n]);
    }
  }

  /** The length of the first line, with its newline if it has one. */
  function LineLen(s: string): nat {
    PieceLen(s, |s|)
  }

  /** A piece without its last character. */
  function Front(p: string): string {
    if p == [] then [] else p[..|p| - 1]
  }

  /** p is the next piece when `rest` follows: it ends with its only newline, or it cannot be longer. */
  predicate IsPiece(p: string, rest: string, cap: nat) {
    && |p| <= cap && '\n' !in Front(p)
    && if p == [] then rest == [] else p[|p| - 1] == '\n' || rest == [] || |p| == cap
  }

  /** There is only one such piece. */
  lemma {:induction false} PieceIs(p: string, rest: string, cap: nat)
    requires cap > 0 && IsPiece(p, rest, cap)
    ensures PieceLen(p + rest, cap) == |p|
  {
    if |p| > 1 {
      assert p[0] == Front(p)[0] && Front(p[1..]) == Front(p)[1..];
      assert (p + rest)[1..] == p[1..] + rest;
      PieceIs(p[1..], rest, cap - 1);
    } else if |p| == 1 {
      assert (p + rest)[1..] == rest;
    }
  }

  lemma Filled(now: string, line: string, file: string, k: nat)
    requires k <= |file| && now == line + file[..k]
    ensures now + file[k..] == line + file
  {
    assert file == file[..k] + file[k..];
    Regroup(line, file[..k], file[k..]);
  }

  lemma SliceSplit(a: array<char>, i: nat, j: nat, k: nat, rest: string)
    requires i <= j <= k <= a.Length
    ensures a[i..k] + rest == a[i..j] + (a[j..k] + rest)
  {
    assert a[i..k] == a[i..j] + a[j..k];
    Regroup(a[i..j], a[j..k], rest);
  }

  /** A line comes whole exactly if it fits the buffer. */
  lemma {:induction false} WholeLine(s: string, cap: nat)
    ensures PieceLen(s, cap) == LineLen(s) <==> LineLen(s) <= cap
  {
    if s != [] && cap > 0 && s[0] != '\n' { WholeLine(s[1..], cap - 1); }
  }

  /** A line of 8192 characters, with its newline, does not come whole through the smallest buffer. */
  lemma LineTooLong()
    ensures var s := seq(8191, _ => 'x') + "\n"; LineLen(s) == 8192 && PieceLen(s, BUFSIZ - 1) == 8191
  {
    var p := seq(8191, _ => 'x');
    var s := p + "\n";
    assert Front(s) == p && s + [] == s;
    PieceIs(s, [], |s|);
    PieceIs(p, "\n", 8191);
  }

  /** memcpy of n characters from place b to the beginning. */
  method CopyDown(block: array<char>, b: nat, n: nat)
    requires b + n <= block.Length
    modifies block
    ensures block[0..n] == old(block[b..b + n])
  {
    for i := 0 to n
      invariant forall k :: 0 <= k < i ==> block[k] == old(block[b + k])
      invariant forall k :: i <= k < block.Length ==> block[k] == old(block[k])
    {
      block[i] := block[b + i];
    }
  }

  class Reader {
    var block: array<char>
    var bend: nat
    var blen: nat
    var bsize: nat
    var unread: string      // what the file has not delivered yet
    var position: nat       // ftell
    ghost var taken: nat    // how much was returned

    ghost predicate Valid()
      reads this
    {
      && block.Length == bsize && bsize >= BUFSIZ
      && bend + blen <= bsize - 1
      && position == taken + blen
    }

    /** What the next calls will return. */
    ghost function Ahead(): string
      requires Valid()
      reads this, block
    {
      block[bend..bend + blen] + unread
    }

    /** The n characters from start on are the first piece of s, and the rest of s comes next. */
    ghost predicate Took(s: string, n: nat, start: nat)
      requires Valid()
      reads this, block
    {
      start + n <= block.Length && s == block[start..start + n] + Ahead() && IsPiece(block[start..start + n], Ahead(), bsize - 1)
    }

    /** initzline on a file that has just been opened. */
    constructor (blksize: nat, file: string)
      ensures Valid() && Ahead() == file && taken == 0 && fresh(block)
      ensures bsize == if blksize < BUFSIZ then BUFSIZ else blksize
    {
      var size := if blksize < BUFSIZ then BUFSIZ else blksize;
      bsize := size;
      block := new char[size](_ => '\0');
      bend, blen, unread, position, taken := 0, 0, file, 0, 0;
    }

    /** fread into the block at a place */
    method Fread(at: nat, n: nat) returns (k: nat)
      requires at + n <= block.Length
      modifies block, this`unread, this`position
      ensures k == (if n < |old(unread)| then n else |old(unread)|)
      ensures position == old(position) + k && unread == old(unread)[k..]
      ensures block[..at + k] == old(block[..at]) + old(unread)[..k]
    {
      k := if n < |unread| then n else |unread|;
      for i := 0 to k
        invariant unread == old(unread) && position == old(position)
        invariant block[..at + i] == old(block[..at]) + unread[..i]
      {
        block[at + i] := unread[i];
        assert unread[..i + 1] == unread[..i] + [unread[i]];
      }
      unread, position := unread[k..], position + k;
    }

    /** The search for a newline in what remains of the buffer. */
    method FindNewline() returns (n: nat, found: bool)
      requires Valid() && blen > 0
      ensures n <= blen && '\n' !in block[bend..bend + n]
      ensures if found then n < blen && block[bend + n] == '\n' else n == blen
    {
      n, found := 0, false;
      while n < blen
        invariant n <= blen && '\n' !in block[bend..bend + n]
      {
        if block[bend + n] == '\n' { return n, true; }
        assert block[bend..bend + n + 1] == block[bend..bend + n] + [block[bend + n]];
        n := n + 1;
      }
    }

    /** Moves the partial line to the beginning of the block. */
    method MoveDown()
      requires Valid() && blen > 0
      modifies block, this`bend
      ensures Valid() && bend == 0 && Ahead() == old(Ahead()) && block[0..blen] == old(block[bend..bend + blen])
    {
      if bend > 0 { CopyDown(block, bend, blen); }
      bend := 0;
    }

    /** zgetline: the next piece, n characters from start on.  The block never grows: a line of more than
        bsize - 1 characters comes in pieces. */
    method ZGetLine() returns (n: nat, start: nat)
      requires Valid()
      modifies this, block
      ensures Valid() && block == old(block) && bsize == old(bsize)
      ensures Took(old(Ahead()), n, start) && taken == old(taken) + n
    {
      if blen == 0 || bend >= bsize {
        ghost var file := unread;
        assert Ahead() == file;
        Fill();
        if blen == 0 { return 0, 0; }
      }
      n, start := NextPiece();
    }

    /** Fills the empty block. */
    method Fill()
      requires Valid() && blen == 0
      modifies this, block
      ensures Valid() && block == old(block) && bsize == old(bsize) && taken == old(taken) && Ahead() == old(unread)
      ensures blen == 0 <==> old(unread) == []
    {
      blen := Fread(0, bsize - 1);
      bend := 0;
      assert block[0..blen] == block[..0 + blen] == old(unread)[..blen];
      assert old(unread) == old(unread)[..blen] + old(unread)[blen..];
    }

    /** Reads more after the partial line at the beginning of the block. */
    method FillUp() returns (k: nat)
      requires Valid() && blen > 0 && bend == 0
      modifies this, block
      ensures Valid() && block == old(block) && bsize == old(bsize) && taken == old(taken) && bend == 0
      ensures Ahead() == old(Ahead()) && |unread| + k == |old(unread)| && blen == old(blen) + k
      ensures k == 0 ==> unread == [] || blen == bsize - 1
      ensures block[0..blen] == old(block[0..blen]) + old(unread)[..k]
    {
      ghost var line, file := block[0..blen], unread;
      k := Fread(blen, bsize - blen - 1);
      assert block[0..blen + k] == block[..blen + k] == line + file[..k];
      Filled(block[0..blen + k], line, file, k);
      blen := blen + k;
    }

    /** The first n characters of the buffer are the piece. */
    method Cut(n: nat) returns (start: nat)
      requires Valid() && 0 < n <= blen && '\n' !in block[bend..bend + n - 1]
      requires block[bend + n - 1] == '\n' || (n == blen && (unread == [] || n == bsize - 1))
      modifies this`bend, this`blen, this`taken
      ensures Valid() && Took(old(Ahead()), n, start) && taken == old(taken) + n
    {
      ghost var b, l := bend, blen;
      start := bend;
      bend, blen, taken := bend + n, blen - n, taken + n;
      SliceSplit(block, b, b + n, b + l, unread);
      assert Front(block[b..b + n]) == block[b..b + n - 1];
    }

    /** One round of the loop: a piece, or more of the file in the block. */
    method Attempt() returns (done: bool, n: nat, start: nat)
      requires Valid() && blen > 0
      modifies this, block
      ensures Valid() && block == old(block) && bsize == old(bsize)
      ensures done ==> Took(old(Ahead()), n, start) && taken == old(taken) + n
      ensures !done ==> Ahead() == old(Ahead()) && taken == old(taken) && blen > 0 && |unread| < |old(unread)|
    {
      var found;
      n, found := FindNewline();
      if found {
        n := n + 1;
        start := Cut(n);
        return true, n, start;
      }
      n := blen;
      done := Refill();
      start := 0;
      if done { start := Cut(n); }
    }

    /** Moves the partial line down and reads on; nothing more can be read if the file is at its end or
        the block is full. */
    method Refill() returns (nothing: bool)
      requires Valid() && blen > 0
      modifies this, block
      ensures Valid() && block == old(block) && bsize == old(bsize) && taken == old(taken) && Ahead() == old(Ahead())
      ensures nothing ==> blen == old(blen) && (unread == [] || blen == bsize - 1)
      ensures nothing ==> block[bend..bend + blen] == old(block[bend..bend + blen])
      ensures !nothing ==> blen > 0 && |unread| < |old(unread)|
    {
      MoveDown();
      var k := FillUp();
      nothing := k == 0;
    }

    method NextPiece() returns (n: nat, start: nat)
      requires Valid() && blen > 0
      modifies this, block
      ensures Valid() && block == old(block) && bsize == old(bsize)
      ensures Took(old(Ahead()), n, start) && taken == old(taken) + n
    {
      ghost var ahead := Ahead();
      var done := false;
      n, start := 0, 0;
      while !done
        invariant Valid() && block == old(block) && bsize == old(bsize)
        invariant done ==> Took(ahead, n, start) && taken == old(taken) + n
        invariant !done ==> Ahead() == ahead && taken == old(taken) && blen > 0
        decreases !done, |unread|
      {
        done, n, start := Attempt();
      }
    }

    /** zlineoffset: the position in the file of what comes next. */
    method ZLineOffset() returns (offset: int)
      requires Valid()
      ensures offset == taken
    {
      offset := position - blen;
    }
  }

  function Concat(pieces: seq<string>): string {
    if pieces == [] then [] else pieces[0] + Concat(pieces[1..])
  }

  /** The lines of a text. */
  function Lines(s: string): seq<string>
    decreases |s|
  {
    if s == [] then [] else [s[..LineLen(s)]] + Lines(s[LineLen(s)..])
  }

  ghost predicate AllFit(s: string, cap: nat) {
    forall i :: 0 <= i < |Lines(s)| ==> |Lines(s)[i]| <= cap
  }

  /** Calls zgetline until it returns 0. */
  method ReadPieces(reader: Reader) returns (pieces: seq<string>)
    requires reader.Valid()
    modifies reader, reader.block
    ensures reader.Valid() && reader.Ahead() == [] && pieces == Pieces(old(reader.Ahead()), old(reader.bsize) - 1)
    ensures reader.taken == old(reader.taken) + |old(reader.Ahead())|
  {
    pieces := [];
    ghost var all, cap := reader.Ahead(), reader.bsize - 1;
    ghost var goal := Pieces(all, cap);
    while true
      invariant reader.Valid() && reader.block == old(reader.block) && reader.bsize == cap + 1
      invariant pieces + Pieces(reader.Ahead(), cap) == goal
      invariant reader.taken == old(reader.taken) + |all| - |reader.Ahead()|
      decreases |reader.Ahead()|
    {
      ghost var before := reader.Ahead();
      var p := NextOf(reader);
      if p == [] { break; }
      PiecesStep(before, cap, pieces, p, reader.Ahead());
      pieces := pieces + [p];
    }
    assert reader.Ahead() == [] && pieces + [] == pieces;
  }

  /** Reads a whole file: nothing is lost, and a file whose lines fit the buffer is read line by line. */
  method ReadAll(reader: Reader) returns (pieces: seq<string>)
    requires reader.Valid()
    modifies reader, reader.block
    ensures reader.Valid() && reader.Ahead() == [] && Concat(pieces) == old(reader.Ahead()) && AllPieces(pieces)
    ensures reader.taken == old(reader.taken) + |old(reader.Ahead())|
    ensures AllFit(old(reader.Ahead()), old(reader.bsize) - 1) ==> pieces == Lines(old(reader.Ahead()))
  {
    ghost var all, cap := reader.Ahead(), reader.bsize - 1;
    pieces := ReadPieces(reader);
    PiecesAre(pieces, all, cap);
  }

  /** A call and what it returned. */
  method NextOf(reader: Reader) returns (p: string)
    requires reader.Valid()
    modifies reader, reader.block
    ensures reader.Valid() && reader.block == old(reader.block) && reader.bsize == old(reader.bsize)
    ensures |p| == PieceLen(old(reader.Ahead()), reader.bsize - 1) && old(reader.Ahead()) == p + reader.Ahead()
    ensures reader.taken == old(reader.taken) + |p|
  {
    var n, start := reader.ZGetLine();
    p := reader.block[start..start + n];
    PieceIs(p, reader.Ahead(), reader.bsize - 1);
  }

  lemma PiecesStep(s: string, cap: nat, done: seq<string>, p: string, rest: string)
    requires cap > 0 && p != [] && s == p + rest && |p| == PieceLen(s, cap)
    ensures done + Pieces(s, cap) == (done + [p]) + Pieces(rest, cap)
  {
    assert s[..|p|] == p && s[|p|..] == rest;
    assert done + ([p] + Pieces(rest, cap)) == (done + [p]) + Pieces(rest, cap);
  }

  /** A text in pieces. */
  function Pieces(s: string, cap: nat): (pieces: seq<string>)
    requires cap > 0
    decreases |s|
  {
    var n := PieceLen(s, cap);
    if n == 0 then [] else [s[..n]] + Pieces(s[n..], cap)
  }

  lemma {:induction false} PiecesCover(s: string, cap: nat)
    requires cap > 0
    ensures Concat(Pieces(s, cap)) == s && AllPieces(Pieces(s, cap))
    decreases |s|
  {
    var n := PieceLen(s, cap);
    if n > 0 {
      PiecesCover(s[n..], cap);
      PieceShape(s, cap);
      PieceFirst(s[..n], Pieces(s[n..], cap));
      Split(s, n);
    }
  }

  lemma Split(s: string, n: nat)
    requires n <= |s|
    ensures s[..n] + s[n..] == s
  {
  }

  lemma PiecesAre(pieces: seq<string>, s: string, cap: nat)
    requires cap > 0 && pieces == Pieces(s, cap)
    ensures Concat(pieces) == s && AllPieces(pieces) && (AllFit(s, cap) ==> pieces == Lines(s))
  {
    PiecesCover(s, cap);
    PiecesAreLines(s, cap);
  }

  predicate AllPieces(pieces: seq<string>) {
    forall p :: p in pieces ==> p != [] && '\n' !in Front(p)
  }

  lemma PieceFirst(p: string, pieces: seq<string>)
    requires p != [] && '\n' !in Front(p) && AllPieces(pieces)
    ensures AllPieces([p] + pieces) && Concat([p] + pieces) == p + Concat(pieces)
  {
    assert ([p] + pieces)[1..] == pieces;
  }

  lemma {:induction false} PiecesAreLines(s: string, cap: nat)
    requires cap > 0
    ensures AllFit(s, cap) ==> Pieces(s, cap) == Lines(s)
    decreases |s|
  {
    if s != [] && AllFit(s, cap) {
      FirstLine(s, cap);
      PiecesAreLines(s[LineLen(s)..], cap);
    }
  }

  lemma FirstLine(s: string, cap: nat)
    requires s != [] && cap > 0 && AllFit(s, cap)
    ensures PieceLen(s, cap) == LineLen(s) && AllFit(s[LineLen(s)..], cap)
  {
    var k := LineLen(s);
    assert Lines(s)[0] == s[..k];
    WholeLine(s, cap);
    forall i | 0 <= i < |Lines(s[k..])| ensures |Lines(s[k..])[i]| <= cap {
      assert Lines(s)[i + 1] == Lines(s[k..])[i];
    }
  }

  /** A line ends with its newline. */
  lemma LineEnds(l: string, rest: string)
    requires '\n' !in l
    ensures LineLen(l + "\n" + rest) == |l| + 1 && LineLen(l) == |l|
  {
    var p := l + "\n";
    assert Front(p) == l;
    PieceIs(p, rest, |p + rest|);
    if l != [] {
      assert l + [] == l && forall c :: c in Front(l) ==> c in l;
      PieceIs(l, [], |l|);
    }
  }

  function Unlines(ls: seq<string>): string {
    if ls == [] then "" else ls[0] + "\n" + Unlines(ls[1..])
  }

  function WithNewlines(ls: seq<string>): (r: seq<string>)
    ensures |r| == |ls|
  {
    seq(|ls|, i requires 0 <= i < |ls| => ls[i] + "\n")
  }

  /** The lines of a text are what was written line by line. */
  lemma {:induction false} LinesOfUnlines(ls: seq<string>)
    requires forall i :: 0 <= i < |ls| ==> '\n' !in ls[i]
    ensures Lines(Unlines(ls)) == WithNewlines(ls)
  {
    if ls != [] {
      var s, n := Unlines(ls), |ls[0]| + 1;
      LineEnds(ls[0], Unlines(ls[1..]));
      LinesOfUnlines(ls[1..]);
      assert s[..n] == ls[0] + "\n" && s[n..] == Unlines(ls[1..]);
      assert WithNewlines(ls) == [ls[0] + "\n"] + WithNewlines(ls[1..]);
    }
  }
}
