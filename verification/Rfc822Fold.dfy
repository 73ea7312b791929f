/**
 zmailer/lib/rfc822scan.c: compound tokens that go on over several lines, and how _unfold joins the lines.
 The first line begins after the opening delimiter.
 */
module Rfc822Fold {
  import opened Bytes
  import opened Sequences
  import opened Rfc822Scan

  type Line = seq<byte>

  const SPACE: byte := 32
  const TAB: byte := 9
  const LF: byte := 10

  // ------------------------------------------------------------------ _hdr_compound

  /** Where a compound token ends: with its delimiter or not, in which line and at which place; and how long
      it is: the characters and the line breaks on the way, but not a backslash at the end of a line. */
  datatype Extent = Extent(closed: bool, line: nat, at: nat, len: nat, errors: seq<Token>)

  function Later(x: Extent, lines: nat, len: nat, errors: seq<Token>): Extent {
    Extent(x.closed, x.line + lines, x.at, x.len + len, errors + x.errors)
  }

  function Across(lines: seq<Line>, d: Delims, nest: nat): (x: Extent)
    requires lines != [] && nest > 0
    ensures x.line < |lines| && x.at <= |lines[x.line]| && (!x.closed ==> x.line == |lines| - 1)
    ensures x.closed ==> x.at < |lines[x.line]| && lines[x.line][x.at] == d.end
  {
    var b := Inside(lines[0], d, nest);
    if b.Closed? then Extent(true, 0, b.len, b.len, b.errors)
    else if |lines| == 1 then Extent(false, 0, b.len, b.len, b.errors + [Error(MissingClosing(d.end))])
    else Later(Across(lines[1..], d, b.nest), 1, b.len + 1, b.errors)
  }

  /** goal is what remains from line k on. */
  ghost predicate Pending(goal: Extent, lines: seq<Line>, k: nat, d: Delims, nest: nat, len: nat, errors: seq<Token>) {
    && k < |lines| && nest > 0
    && forall x {:trigger Later(x, k, len, errors)} :: x == Across(lines[k..], d, nest) ==> goal == Later(x, k, len, errors)
  }

  lemma PendingAll(lines: seq<Line>, d: Delims)
    requires lines != []
    ensures Pending(Across(lines, d, 1), lines, 0, d, 1, 0, [])
  {
    var x := Across(lines, d, 1);
    assert lines[0..] == lines && [] + x.errors == x.errors;
  }

  /** What the end of line k means. */
  lemma PendingNext(goal: Extent, lines: seq<Line>, k: nat, d: Delims, nest: nat, len: nat, errors: seq<Token>, b: Body)
    requires Pending(goal, lines, k, d, nest, len, errors) && b == Inside(lines[k], d, nest)
    ensures b.Closed? ==> goal == Extent(true, k, b.len, len + b.len, errors + b.errors)
    ensures !b.Closed? && k + 1 == |lines| ==>
      goal == Extent(false, k, b.len, len + b.len, errors + (b.errors + [Error(MissingClosing(d.end))]))
    ensures !b.Closed? && k + 1 < |lines| ==> Pending(goal, lines, k + 1, d, b.nest, len + b.len + 1, errors + b.errors)
  {
    var x := Across(lines[k..], d, nest);
    assert goal == Later(x, k, len, errors);
    if !b.Closed? && k + 1 < |lines| {
      Drop(lines, k, 1);
      var y := Across(lines[k + 1..], d, b.nest);
      Regroup(errors, b.errors, y.errors);
    }
  }

  /** _hdr_compound: one round for each line. */
  method HdrLines(lines: seq<Line>, d: Delims) returns (x: Extent)
    requires lines != []
    ensures x == Across(lines, d, 1)
  {
    PendingAll(lines, d);
    x := LineLoop(lines, d, Across(lines, d, 1));
  }

  method LineLoop(lines: seq<Line>, d: Delims, ghost goal: Extent) returns (x: Extent)
    requires Pending(goal, lines, 0, d, 1, 0, [])
    ensures x == goal
  {
    var k: nat, nest: nat, len: nat, errors: seq<Token> := 0, 1, 0, [];
    while true
      invariant Pending(goal, lines, k, d, nest, len, errors)
      decreases |lines| - k
    {
      var b := OneLine(lines[k], d, nest);
      PendingNext(goal, lines, k, d, nest, len, errors, b);
      if b.Closed? { return Extent(true, k, b.len, len + b.len, errors + b.errors); }
      if k + 1 == |lines| {
        return Extent(false, k, b.len, len + b.len, errors + (b.errors + [Error(MissingClosing(d.end))]));
      }
      k, nest, len, errors := k + 1, b.nest, len + b.len + 1, errors + b.errors;
    }
  }

  method OneLine(line: Line, d: Delims, nest: nat) returns (b: Body)
    requires nest > 0
    ensures b == Inside(line, d, nest)
  {
    RemainsAll(line, 0, d, nest);
    assert line[0..] == line;
    b := CompoundLoop(line, 0, d, nest, Inside(line, d, nest));
  }

  // ------------------------------------------------------------------ what unfolding means

  predicate White(c: byte) {
    c == SPACE || c == TAB || c == LF || c == CR
  }

  predicate AllWhite(p: Line) {
    forall i :: 0 <= i < |p| ==> White(p[i])
  }

  /** Without line feeds. */
  function Flat(p: Line): seq<byte> {
    if p == [] then [] else (if p[0] == LF then [] else [p[0]]) + Flat(p[1..])
  }

  /** Without the white space in front. */
  function Stripped(p: Line): Line {
    if p != [] && White(p[0]) then Stripped(p[1..]) else p
  }

  /** Each line that follows is joined by one space. */
  function Joined(ps: seq<Line>): seq<byte> {
    if ps == [] then [] else [SPACE] + (Flat(Stripped(ps[0])) + Joined(ps[1..]))
  }

  function Unfolded(ps: seq<Line>): seq<byte>
    requires ps != []
  {
    Flat(ps[0]) + Joined(ps[1..])
  }

  /** The characters of the lines and the line breaks in front of them. */
  function Size(ps: seq<Line>): nat {
    if ps == [] then 0 else 1 + |ps[0]| + Size(ps[1..])
  }

  /** The lines of a compound token. */
  function Pieces(lines: seq<Line>, line: nat, at: nat): (ps: seq<Line>)
    requires line < |lines| && at <= |lines[line]|
    ensures |ps| == line + 1
  {
    lines[..line] + [lines[line][..at]]
  }

  /** Line feeds, and only they, are left out. */
  lemma {:induction false} FlatConcat(p: Line, q: Line)
    ensures Flat(p + q) == Flat(p) + Flat(q)
  {
    if p == [] {
      assert p + q == q;
    } else {
      assert (p + q)[1..] == p[1..] + q;
      FlatConcat(p[1..], q);
      Regroup(if p[0] == LF then [] else [p[0]], Flat(p[1..]), Flat(q));
    }
  }

  lemma FlatOne(c: byte)
    ensures Flat([c]) == if c == 10 then [] else [c]
  {
  }

  /** The spaces, tabs, line feeds and carriage returns in front of a line, and only they, are left out. */
  lemma {:induction false} StrippedIs(w: Line, p: Line)
    requires forall i :: 0 <= i < |w| ==> w[i] == 32 || w[i] == 9 || w[i] == 10 || w[i] == 13
    requires p == [] || (p[0] != 32 && p[0] != 9 && p[0] != 10 && p[0] != 13)
    ensures Stripped(w + p) == p
  {
    if w == [] {
      assert w + p == p;
    } else {
      assert (w + p)[1..] == w[1..] + p;
      StrippedIs(w[1..], p);
    }
  }

  /** A continuation line adds one space and its text. */
  lemma {:induction false} UnfoldedMore(ps: seq<Line>, w: Line, p: Line)
    requires ps != [] && forall i :: 0 <= i < |w| ==> w[i] == 32 || w[i] == 9 || w[i] == 10 || w[i] == 13
    requires p == [] || (p[0] != 32 && p[0] != 9 && p[0] != 10 && p[0] != 13)
    ensures Unfolded(ps + [w + p]) == Unfolded(ps) + [32] + Flat(p)
  {
    StrippedIs(w, p);
    JoinedMore(ps[1..], w + p);
    assert (ps + [w + p])[1..] == ps[1..] + [w + p];
    Regroup(Flat(ps[0]), Joined(ps[1..]), [32] + Flat(p));
    Regroup(Unfolded(ps), [32], Flat(p));
  }

  lemma {:induction false} JoinedMore(ps: seq<Line>, p: Line)
    ensures Joined(ps + [p]) == Joined(ps) + ([SPACE] + Flat(Stripped(p)))
  {
    if ps == [] {
      assert ps + [p] == [p] && [p][1..] == [];
      assert Flat(Stripped(p)) + [] == Flat(Stripped(p));
    } else {
      JoinedMore(ps[1..], p);
      assert (ps + [p])[1..] == ps[1..] + [p];
      Regroup(Flat(Stripped(ps[0])), Joined(ps[1..]), [SPACE] + Flat(Stripped(p)));
      Regroup([SPACE], Flat(Stripped(ps[0])) + Joined(ps[1..]), [SPACE] + Flat(Stripped(p)));
    }
  }

  // ------------------------------------------------------------------ _unfold

  /** What is still to be written, from place o of line k on. */
  function Ahead(ps: seq<Line>, k: nat, o: nat): seq<byte>
    requires k < |ps| && o <= |ps[k]|
  {
    Flat(ps[k][o..]) + Joined(ps[k + 1..])
  }

  /** How many characters and line breaks are still to come. */
  function Left(ps: seq<Line>, k: nat, o: nat): nat
    requires k < |ps| && o <= |ps[k]|
  {
    |ps[k]| - o + Size(ps[k + 1..])
  }

  /** What a round keeps.  `len` becomes -1 if it runs out in the white space at the beginning of a line. */
  ghost predicate Unfolding(ps: seq<Line>, len0: int, k: nat, o: nat, len: int, text: seq<byte>) {
    && k < |ps| && o <= |ps[k]| && -1 <= len
    && (len >= 0 || o == |ps[k]| ==> text + Ahead(ps, k, o) == Unfolded(ps))
    && len - Left(ps, k, o) == len0 + 1 - Size(ps)
    && |text| + (if len < 0 then 0 else len) <= len0
    && (len == -1 ==> k > 0 && o > 0 && AllWhite(ps[k][..o]))
    && (k > 0 && AllWhite(ps[k]) ==> o == |ps[k]| || len == -1)
  }

  lemma UnfoldingStart(ps: seq<Line>, len0: nat)
    requires ps != []
    ensures Unfolding(ps, len0, 0, 0, len0, [])
  {
    assert ps[0][0..] == ps[0] && [] + Unfolded(ps) == Unfolded(ps);
  }

  /** One character. */
  lemma UnfoldingChar(ps: seq<Line>, len0: int, k: nat, o: nat, len: int, text: seq<byte>)
    requires Unfolding(ps, len0, k, o, len, text) && len > 0 && o < |ps[k]|
    ensures Unfolding(ps, len0, k, o + 1, len - 1, text + if ps[k][o] == LF then [] else [ps[k][o]])
  {
    var c := if ps[k][o] == LF then [] else [ps[k][o]];
    assert ps[k][o..][1..] == ps[k][o + 1..];
    Regroup(c, Flat(ps[k][o + 1..]), Joined(ps[k + 1..]));
    Regroup(text, c, Ahead(ps, k, o + 1));
  }

  lemma {:induction false} StripTo(p: Line, o: nat)
    requires o <= |p| && AllWhite(p[..o])
    ensures Stripped(p) == Stripped(p[o..])
  {
    if o > 0 {
      assert p[..o][0] == p[0] && p[1..][..o - 1] == p[..o][1..] && p[1..][o - 1..] == p[o..];
      StripTo(p[1..], o - 1);
    } else {
      assert p[0..] == p;
    }
  }

  /** A line break and the white space after it. */
  lemma UnfoldingBreak(ps: seq<Line>, len0: int, k: nat, len: int, text: seq<byte>, o: nat)
    requires k + 1 < |ps| && Unfolding(ps, len0, k, |ps[k]|, len, text) && len > 0
    requires o <= |ps[k + 1]| && o <= len && AllWhite(ps[k + 1][..o])
    requires o == len || o == |ps[k + 1]| || !White(ps[k + 1][o])
    ensures Unfolding(ps, len0, k + 1, o, len - o - 1, text + [SPACE])
  {
    var p, rest := ps[k + 1], ps[k + 2..];
    assert ps[k + 1..][1..] == rest && ps[k + 1..][0] == p;
    if len - o - 1 >= 0 || o == |p| { BreakText(ps, k, text, o); }
    if o < |p| && !White(p[o]) { assert !AllWhite(p); }
  }

  lemma BreakText(ps: seq<Line>, k: nat, text: seq<byte>, o: nat)
    requires k + 1 < |ps| && o <= |ps[k + 1]| && AllWhite(ps[k + 1][..o])
    requires o == |ps[k + 1]| || !White(ps[k + 1][o])
    requires text + Ahead(ps, k, |ps[k]|) == Unfolded(ps)
    ensures (text + [SPACE]) + Ahead(ps, k + 1, o) == Unfolded(ps)
  {
    var p := ps[k + 1];
    StripTo(p, o);
    assert Stripped(p[o..]) == p[o..];
    assert ps[k + 1..][1..] == ps[k + 2..] && ps[k + 1..][0] == p;
    assert Ahead(ps, k, |ps[k]|) == [SPACE] + Ahead(ps, k + 1, o);
    Regroup(text, [SPACE], Ahead(ps, k + 1, o));
  }

  /** The length is enough to come to the end of the token; one less is enough if the last line is white. */
  predicate Reaches(ps: seq<Line>, len: int)
    requires ps != []
  {
    var last := ps[|ps| - 1];
    Size(ps) <= len + 1 || (Size(ps) == len + 2 && |ps| > 1 && last != [] && AllWhite(last))
  }

  lemma UnfoldingEnd(ps: seq<Line>, len0: int, k: nat, o: nat, len: int, text: seq<byte>)
    requires Unfolding(ps, len0, k, o, len, text)
    requires len <= 0 || (k == |ps| - 1 && o == |ps[k]|)
    ensures k == |ps| - 1 && o == |ps[k]| <==> Reaches(ps, len0)
    ensures k == |ps| - 1 && o == |ps[k]| ==> text == Unfolded(ps)
  {
    if k == |ps| - 1 && o == |ps[k]| {
      assert ps[k][o..] == [] && ps[k + 1..] == [] && text + [] == text;
      assert ps[k][..o] == ps[k];
    } else {
      LeftMost(ps, k, o);
    }
  }

  /** One character or line break is left. */
  lemma LeftMost(ps: seq<Line>, k: nat, o: nat)
    requires k < |ps| && o <= |ps[k]| && !(k == |ps| - 1 && o == |ps[k]|)
    ensures Left(ps, k, o) > 0
    ensures Left(ps, k, o) == 1 ==> k == |ps| - 1 || ps[|ps| - 1] == []
  {
    if k < |ps| - 1 {
      var rest := ps[k + 1..];
      assert rest[|rest| - 1] == ps[|ps| - 1];
      if |rest| > 1 { assert Size(rest[1..]) > 0; }
    }
  }

  /** The loop over the white space at the beginning of a line. */
  method SkipWhite(line: Line, stop: nat, len: nat) returns (o: nat)
    requires stop <= |line|
    ensures o <= stop && o <= len && AllWhite(line[..stop][..o])
    ensures o == len || o == stop || !White(line[..stop][o])
  {
    o := 0;
    while len - o > 0 && o != stop && White(line[o])
      invariant o <= stop && o <= len && forall i :: 0 <= i < o ==> White(line[i])
    {
      o := o + 1;
    }
  }

  lemma PieceAt(lines: seq<Line>, line: nat, at: nat, k: nat)
    requires line < |lines| && at <= |lines[line]| && k <= line
    ensures Pieces(lines, line, at)[k] == lines[k][..Stop(lines, line, at, k)]
  {
  }

  /** Where line k ends for _unfold. */
  function Stop(lines: seq<Line>, line: nat, at: nat, k: nat): (n: nat)
    requires line < |lines| && at <= |lines[line]| && k <= line
    ensures n <= |lines[k]|
  {
    if k == line then at else |lines[k]|
  }

  /** A line break: one space, and the white space at the beginning of the next line is left out. */
  method TakeBreak(lines: seq<Line>, line: nat, at: nat, k: nat, len: nat, text: seq<byte>, ghost len0: int) returns (o: nat)
    requires k < line < |lines| && at <= |lines[line]| && len > 0
    requires Unfolding(Pieces(lines, line, at), len0, k, |Pieces(lines, line, at)[k]|, len, text)
    ensures o <= Stop(lines, line, at, k + 1)
    ensures Unfolding(Pieces(lines, line, at), len0, k + 1, o, len - o - 1, text + [SPACE])
  {
    PieceAt(lines, line, at, k + 1);
    o := SkipWhite(lines[k + 1], Stop(lines, line, at, k + 1), len);
    UnfoldingBreak(Pieces(lines, line, at), len0, k, len, text, o);
  }

  /** One character, without line feeds. */
  method TakeChar(lines: seq<Line>, line: nat, at: nat, k: nat, o: nat, len: nat, text: seq<byte>, ghost len0: int) returns (text': seq<byte>)
    requires k <= line < |lines| && at <= |lines[line]| && len > 0 && o < Stop(lines, line, at, k)
    requires Unfolding(Pieces(lines, line, at), len0, k, o, len, text)
    ensures Unfolding(Pieces(lines, line, at), len0, k, o + 1, len - 1, text')
  {
    PieceAt(lines, line, at, k);
    UnfoldingChar(Pieces(lines, line, at), len0, k, o, len, text);
    text' := text + if lines[k][o] == LF then [] else [lines[k][o]];
  }

  /** The loop of _unfold: joins the lines up to place `at` of line `line`, and stops at place o of line k.
      At most len0 characters are written. */
  method Unfold(lines: seq<Line>, line: nat, at: nat, len0: nat) returns (text: seq<byte>, k: nat, o: nat)
    requires line < |lines| && at <= |lines[line]|
    ensures k <= line && o <= |lines[k]| && |text| <= len0
    ensures k == line && o == at <==> Reaches(Pieces(lines, line, at), len0)
    ensures k == line && o == at ==> text == Unfolded(Pieces(lines, line, at))
  {
    var len: int := len0;
    text, k, o := [], 0, 0;
    UnfoldingStart(Pieces(lines, line, at), len0);
    while len > 0 && !(k == line && o == at)
      invariant k <= line && o <= Stop(lines, line, at, k) && Unfolding(Pieces(lines, line, at), len0, k, o, len, text)
      decreases line - k, |lines[k]| - o
    {
      PieceAt(lines, line, at, k);
      if o < |lines[k]| {
        text := TakeChar(lines, line, at, k, o, len, text, len0);
        o, len := o + 1, len - 1;
      } else {
        o := TakeBreak(lines, line, at, k, len, text, len0);
        text, k, len := text + [SPACE], k + 1, len - o - 1;
      }
    }
    PieceAt(lines, line, at, k);
    UnfoldingEnd(Pieces(lines, line, at), len0, k, o, len, text);
  }

  /** Without the spaces at the end. */
  function Trimmed(text: seq<byte>): seq<byte> {
    if text != [] && text[|text| - 1] == SPACE then Trimmed(text[..|text| - 1]) else text
  }

  /** The spaces at the end, and only they, are left out. */
  lemma {:induction false} TrimmedIs(p: seq<byte>, n: nat)
    requires p == [] || p[|p| - 1] != 32
    ensures Trimmed(p + seq(n, _ => 32)) == p
  {
    var s := p + seq(n, _ => 32);
    if n == 0 {
      assert s == p;
    } else {
      assert s[..|s| - 1] == p + seq(n - 1, _ => 32);
      TrimmedIs(p, n - 1);
    }
  }

  method Trim(text: seq<byte>) returns (t: seq<byte>)
    ensures t == Trimmed(text)
  {
    t := text;
    while t != [] && t[|t| - 1] == SPACE
      invariant Trimmed(t) == Trimmed(text)
      decreases |t|
    {
      t := t[..|t| - 1];
    }
  }

  // ------------------------------------------------------------------ the two together

  /** How many lines, other than the last, end with an odd number of backslashes. */
  function Danglings(ps: seq<Line>): nat {
    if |ps| <= 1 then 0 else (if Escaped(ps[0], |ps[0]|) then 1 else 0) + Danglings(ps[1..])
  }

  function PiecesOf(lines: seq<Line>, x: Extent): (ps: seq<Line>)
    requires x.line < |lines| && x.at <= |lines[x.line]|
    ensures |ps| == x.line + 1
  {
    Pieces(lines, x.line, x.at)
  }

  /** _hdr_compound does not count a backslash at the end of a line. */
  lemma {:induction false} CountedLength(lines: seq<Line>, d: Delims, nest: nat)
    requires lines != [] && Delimiting(d) && nest > 0
    ensures var x := Across(lines, d, nest); x.len + 1 + Danglings(PiecesOf(lines, x)) == Size(PiecesOf(lines, x))
    decreases |lines|
  {
    var b, x := Inside(lines[0], d, nest), Across(lines, d, nest);
    var ps := PiecesOf(lines, x);
    EndsThere(lines[0], d, nest, 0);
    if x.line == 0 {
      assert ps == [lines[0][..x.at]] && ps[1..] == [];
    } else {
      CountedLength(lines[1..], d, b.nest);
      FirstPiece(lines, x.line, x.at);
    }
  }

  lemma FirstPiece(lines: seq<Line>, line: nat, at: nat)
    requires 0 < line < |lines| && at <= |lines[line]|
    ensures Pieces(lines, line, at)[0] == lines[0] && Pieces(lines, line, at)[1..] == Pieces(lines[1..], line - 1, at)
  {
  }

  /** How many such lines a token can have, before _unfold stops too early. */
  function Spare(closed: bool): nat {
    if closed then 2 else 1
  }

  /** The text of a compound token: unfolded if it goes past the first line. */
  function TextOf(lines: seq<Line>, d: Delims, x: Extent): seq<byte>
    requires x.line < |lines| && x.at <= |lines[x.line]|
  {
    var ps := PiecesOf(lines, x);
    if x.line == 0 then ps[0] else if d.kind == Comment then Trimmed(Unfolded(ps)) else Unfolded(ps)
  }

  /** The compound branch of scan822: what it takes from _hdr_compound and _unfold, and the place where it
      believes that the token ends.  The text is complete, and the place right, exactly if not too many lines
      of the token end with a backslash that has nothing to escape. */
  method Continued(lines: seq<Line>, d: Delims) returns (x: Extent, text: seq<byte>, k: nat, o: nat)
    requires lines != [] && Delimiting(d)
    ensures x == Across(lines, d, 1)
    ensures k <= x.line && o <= |lines[k]|
    ensures var ps := PiecesOf(lines, x); var n := Danglings(ps);
      && (k == x.line && o == x.at <==>
           n <= Spare(x.closed) || (n == Spare(x.closed) + 1 && ps[x.line] != [] && AllWhite(ps[x.line])))
      && (k == x.line && o == x.at ==> text == TextOf(lines, d, x))
  {
    x := HdrLines(lines, d);
    CountedLength(lines, d, 1);
    if x.line == 0 { return x, lines[0][..x.at], 0, x.at; }
    var len := 1 + x.len + if x.closed then 1 else 0;
    text, k, o := Unfold(lines, x.line, x.at, len);
    if d.kind == Comment { text := Trim(text); }
  }

  // ------------------------------------------------------------------ a token that is cut

  const SLASH: Line := [BACKSLASH]

  function ParenLines(n: nat): seq<Line> {
    if n == 0 then [[RPAREN]] else [SLASH] + ParenLines(n - 1)
  }

  lemma InsideSlash(d: Delims)
    requires Delimiting(d)
    ensures Inside(SLASH, d, 1) == Dangling(0, [Error(MissingAfterBackslash)], 1)
    ensures Inside([d.end], d, 1) == Closed(0, []) && Escaped(SLASH, 1)
  {
    assert Slashes(SLASH, 1) == 1 + Slashes(SLASH, 0);
  }

  /** n lines with a single backslash, then the closing parenthesis. */
  lemma {:induction false} SlashLines(n: nat)
    ensures var x := Across(ParenLines(n), DelimsOf(LPAREN), 1);
      x.closed && x.line == n && x.at == 0 && Danglings(PiecesOf(ParenLines(n), x)) == n
  {
    var lines, d := ParenLines(n), DelimsOf(LPAREN);
    InsideSlash(d);
    if n > 0 {
      SlashLines(n - 1);
      assert lines[1..] == ParenLines(n - 1);
      FirstPiece(lines, n, 0);
    }
  }

  /** With three of them the token is cut, with two it is not. */
  method CutToken(n: nat) returns (complete: bool)
    ensures complete <==> n <= 2
  {
    SlashLines(n);
    var x, text, k, o := Continued(ParenLines(n), DelimsOf(LPAREN));
    complete := k == x.line && o == x.at;
  }
}
