/**
 zmailer/libc/inet_pton.c: from text to address.  A C string is the sequence of its characters before
 the NUL, and a pointer into it is a suffix.
 */
module InetPton {
  import opened Numerals
  import opened Bytes
  import opened InetText
  import opened Splitting

  // ------------------------------------------------------------------ dotted quads

  /** The scanner of inet_pton4 has passed the octets `done` and stands at i, inside the one that
      began at cur; tmp holds their values. */
  ghost predicate InQuad(src: string, cur: nat, i: nat, done: seq<string>, tmp: seq<byte>) {
    && cur <= i <= |src| && |done| <= 3 && |tmp| == 4
    && Split(src, '.') == done + Split(src[cur..], '.')
    && (forall j :: 0 <= j < |done| ==> IsOctet(done[j]) && Decimal(done[j]) == tmp[j])
    && AllDigits(src[cur..i]) && Decimal(src[cur..i]) == tmp[|done|]
  }

  lemma BadOctet(src: string, done: seq<string>, g: seq<string>)
    requires Split(src, '.') == done + g && |done| <= 3 && g != [] && !IsOctet(g[0])
    ensures Quad(src).None?
  {
    assert (done + g)[|done|] == g[0];
  }

  lemma DigitsNoDot(s: string)
    requires AllDigits(s)
    ensures '.' !in s
  {
  }

  lemma QuadDigit(src: string, cur: nat, i: nat, done: seq<string>, tmp: seq<byte>, v: nat)
    requires InQuad(src, cur, i, done, tmp) && i < |src| && IsDigit(src[i])
    requires v == 10 * Decimal(src[cur..i]) + Digit(src[i])
    ensures v > 255 ==> Quad(src).None?
    ensures v <= 255 ==> InQuad(src, cur, i + 1, done, tmp[|done| := v])
  {
    var s, k := src[cur..], i - cur;
    assert s[..k] == src[cur..i] && s[..k + 1] == src[cur..i + 1];
    assert s[..k + 1] == s[..k] + [s[k]];
    DecimalGrows(s, k);
    if v > 255 {
      TooBigOctet(s, k + 1);
      BadOctet(src, done, Split(s, '.'));
    }
  }

  lemma TooBigOctet(s: string, k: nat)
    requires k <= |s| && AllDigits(s[..k]) && Decimal(s[..k]) > 255
    ensures !IsOctet(Split(s, '.')[0])
  {
    DigitsNoDot(s[..k]);
    SplitHead(s, '.', k);
    var g := Split(s, '.')[0];
    assert g[..k] == s[..k];
    if IsOctet(g) { DecimalMonotone(g, k); }
  }

  lemma QuadDot(src: string, cur: nat, i: nat, done: seq<string>, tmp: seq<byte>)
    requires InQuad(src, cur, i, done, tmp) && i < |src| && src[i] == '.'
    ensures i == cur || |done| == 3 ==> Quad(src).None?
    ensures i > cur && |done| < 3 ==> InQuad(src, i + 1, i + 1, done + [src[cur..i]], tmp[|done| + 1 := 0])
  {
    var s, k := src[cur..], i - cur;
    assert s[..k] == src[cur..i] && s[k + 1..] == src[i + 1..];
    DigitsNoDot(s[..k]);
    SplitHead(s, '.', k);
    if i == cur {
      BadOctet(src, done, Split(s, '.'));
    } else if |done| < 3 {
      assert done + ([s[..k]] + Split(s[k + 1..], '.')) == (done + [s[..k]]) + Split(s[k + 1..], '.');
      assert src[i + 1..i + 1] == [];
    }
  }

  lemma QuadOther(src: string, cur: nat, i: nat, done: seq<string>, tmp: seq<byte>)
    requires InQuad(src, cur, i, done, tmp) && i < |src| && !IsDigit(src[i]) && src[i] != '.'
    ensures Quad(src).None?
  {
    var s, k := src[cur..], i - cur;
    assert s[..k] == src[cur..i];
    DigitsNoDot(s[..k]);
    SplitHead(s, '.', k);
    assert Split(s, '.')[0][k] == s[..k + 1][k] == src[i];
    BadOctet(src, done, Split(s, '.'));
  }

  lemma QuadEnd(src: string, cur: nat, done: seq<string>, tmp: seq<byte>)
    requires InQuad(src, cur, |src|, done, tmp)
    ensures Quad(src) == if |done| == 3 && cur < |src| then Some(tmp) else None
  {
    var s := src[cur..];
    assert s == src[cur..|src|];
    DigitsNoDot(s);
    SplitNone(s, '.');
    if s == [] {
      BadOctet(src, done, [s]);
    } else if |done| == 3 {
      assert done + [s] == [done[0], done[1], done[2], s];
      assert tmp == [tmp[0], tmp[1], tmp[2], tmp[3]];
    }
  }

  /** What holds in the scanning loop of inet_pton4. */
  ghost predicate QuadLoop(src: string, cur: nat, i: nat, done: seq<string>, tmp: array<byte>, tp: nat, saw_digit: bool, octets: nat)
    reads tmp
  {
    InQuad(src, cur, i, done, tmp[..]) && tp == |done| && (saw_digit <==> cur < i) && octets == tp + if saw_digit then 1 else 0
  }

  /** One character of a dotted quad. */
  method QuadStep(src: string, i: nat, tmp: array<byte>, tp: nat, saw_digit: bool, octets: nat, ghost cur: nat, ghost done: seq<string>)
    returns (ok: bool, tp': nat, saw_digit': bool, octets': nat, ghost cur': nat, ghost done': seq<string>)
    requires QuadLoop(src, cur, i, done, tmp, tp, saw_digit, octets) && i < |src|
    modifies tmp
    ensures ok ==> QuadLoop(src, cur', i + 1, done', tmp, tp', saw_digit', octets')
    ensures !ok ==> Quad(src).None?
  {
    var ch := src[i];
    tp', saw_digit', octets', cur', done' := tp, saw_digit, octets, cur, done;
    if IsDigit(ch) {
      ok := AddOctetDigit(src, cur, i, done, tmp, tp);
      if !saw_digit {
        octets', saw_digit' := octets + 1, true;
      }
    } else if ch == '.' && saw_digit && octets != 4 {
      NextOctet(src, cur, i, done, tmp, tp);
      ok, tp', saw_digit' := true, tp + 1, false;
      done', cur' := done + [src[cur..i]], i + 1;
    } else {
      BadCharacter(src, cur, i, done, tmp[..]);
      ok := false;
    }
  }

  /** The scanning loop of inet_pton4. */
  method ScanQuad(src: string, tmp: array<byte>) returns (ok: bool)
    requires tmp.Length == 4 && tmp[0] == 0
    modifies tmp
    ensures Quad(src) == if ok then Some(tmp[..]) else None
  {
    var saw_digit, octets: nat, tp: nat, i: nat := false, 0, 0, 0;
    ghost var cur: nat, done: seq<string> := 0, [];
    QuadStart(src, tmp[..]);
    while i < |src|
      invariant i <= |src| && QuadLoop(src, cur, i, done, tmp, tp, saw_digit, octets)
    {
      ok, tp, saw_digit, octets, cur, done := QuadStep(src, i, tmp, tp, saw_digit, octets, cur, done);
      if !ok { return; }
      i := i + 1;
    }
    QuadEnd(src, cur, done, tmp[..]);
    ok := octets >= 4;
  }

  lemma QuadStart(src: string, tmp: seq<byte>)
    requires |tmp| == 4 && tmp[0] == 0
    ensures InQuad(src, 0, 0, [], tmp)
  {
    assert src[0..] == src && [] + Split(src, '.') == Split(src, '.');
  }

  lemma BadCharacter(src: string, cur: nat, i: nat, done: seq<string>, tmp: seq<byte>)
    requires InQuad(src, cur, i, done, tmp) && i < |src| && !IsDigit(src[i])
    requires src[i] == '.' ==> cur == i || |done| == 3
    ensures Quad(src).None?
  {
    if src[i] == '.' { QuadDot(src, cur, i, done, tmp); } else { QuadOther(src, cur, i, done, tmp); }
  }

  /** inet_pton4: accepts exactly the dotted quads, and does not touch dst otherwise. */
  method InetPton4(src: string, dst: array<byte>, at: nat) returns (ok: bool)
    requires at + 4 <= dst.Length
    modifies dst
    ensures ok <==> Quad(src).Some?
    ensures !ok ==> dst[..] == old(dst[..])
    ensures ok ==> dst[..] == old(dst[..at]) + Quad(src).value + old(dst[at + 4..])
  {
    var tmp := new byte[4](_ => 0);
    ok := ScanQuad(src, tmp);
    if ok { CopyBytes(tmp, dst, at); }
  }

  method AddOctetDigit(src: string, ghost cur: nat, i: nat, ghost done: seq<string>, tmp: array<byte>, tp: nat) returns (ok: bool)
    requires InQuad(src, cur, i, done, tmp[..]) && tp == |done| && i < |src| && IsDigit(src[i])
    modifies tmp
    ensures ok ==> InQuad(src, cur, i + 1, done, tmp[..])
    ensures !ok ==> Quad(src).None?
  {
    var new_: int := 10 * (tmp[tp] as int) + Digit(src[i]);
    ghost var was := tmp[..];
    QuadDigit(src, cur, i, done, was, new_);
    if new_ > 255 { return false; }
    tmp[tp] := new_;
    assert tmp[..] == was[tp := new_ as byte];
    ok := true;
  }

  /** *++tp = 0 */
  method NextOctet(src: string, ghost cur: nat, i: nat, ghost done: seq<string>, tmp: array<byte>, tp: nat)
    requires InQuad(src, cur, i, done, tmp[..]) && tp == |done| < 3 && cur < i < |src| && src[i] == '.'
    modifies tmp
    ensures InQuad(src, i + 1, i + 1, done + [src[cur..i]], tmp[..])
  {
    ghost var was := tmp[..];
    QuadDot(src, cur, i, done, was);
    tmp[tp + 1] := 0;
    assert tmp[..] == was[tp + 1 := 0];
  }

  /** memcpy */
  method CopyBytes(from: array<byte>, dst: array<byte>, at: nat)
    requires at + from.Length <= dst.Length && from != dst
    modifies dst
    ensures dst[..] == old(dst[..at]) + from[..] + old(dst[at + from.Length..])
  {
    for i := 0 to from.Length
      invariant forall j :: 0 <= j < i ==> dst[at + j] == from[j]
      invariant forall j :: 0 <= j < dst.Length && !(at <= j < at + i) ==> dst[j] == old(dst[j])
    {
      dst[at + i] := from[i];
    }
  }

  // ------------------------------------------------------------------ IPv6

  /** The scanner of inet_pton6 has stored `out` and stands at i, inside the group that began at cur;
      what the rest of the text gives is still the goal. */
  ghost predicate InGroup(src: string, cur: nat, i: nat, out: seq<byte>, colon: int, goal: Option<Parts>) {
    && cur <= i <= |src| && -1 <= colon <= |out| <= 16
    && Read(Split(src[cur..], ':'), out, colon) == goal
    && AllHex(src[cur..i]) && Hex(src[cur..i]) <= 0xffff
  }

  /** A part that begins with a number above 0xffff is neither a group nor a quad. */
  lemma TooBig(g: string, k: nat)
    requires k <= |g| && AllHex(g[..k]) && Hex(g[..k]) > 0xffff
    ensures !IsGroup(g) && Quad(g).None?
  {
    if IsGroup(g) { HexMonotone(g, k); }
    NoPunctuation(g[..k]);
    SplitHead(g, '.', k);
    var o := Split(g, '.')[0];
    assert o[..k] == g[..k];
    if IsOctet(o) {
      DecimalAsHex(o);
      HexMonotone(o, k);
    }
  }

  lemma TooBigGroup(s: string, k: nat)
    requires k <= |s| && AllHex(s[..k]) && Hex(s[..k]) > 0xffff
    ensures var g := Split(s, ':')[0]; g != [] && !IsGroup(g) && Quad(g).None?
  {
    NoPunctuation(s[..k]);
    SplitHead(s, ':', k);
    var g := Split(s, ':')[0];
    assert g[..k] == s[..k];
    TooBig(g, k);
  }

  lemma GroupDigit(src: string, cur: nat, i: nat, out: seq<byte>, colon: int, goal: Option<Parts>, v: nat)
    requires InGroup(src, cur, i, out, colon, goal) && i < |src| && IsHex(src[i])
    requires v == 16 * Hex(src[cur..i]) + HexDigit(src[i])
    ensures v > 0xffff ==> goal.None?
    ensures v <= 0xffff ==> InGroup(src, cur, i + 1, out, colon, goal) && Hex(src[cur..i + 1]) == v
  {
    var s, k := src[cur..], i - cur;
    assert s[..k] == src[cur..i] && s[..k + 1] == src[cur..i + 1];
    assert s[..k + 1] == s[..k] + [s[k]];
    HexGrows(s, k);
    if v > 0xffff { TooBigGroup(s, k + 1); }
  }

  lemma GroupColon(src: string, cur: nat, i: nat, out: seq<byte>, colon: int, goal: Option<Parts>)
    requires InGroup(src, cur, i, out, colon, goal) && i < |src| && src[i] == ':'
    ensures i == cur && colon >= 0 ==> goal.None?
    ensures i == cur && colon < 0 ==> InGroup(src, i + 1, i + 1, out, |out|, goal)
    ensures i > cur && |out| + 2 > 16 ==> goal.None?
    ensures i > cur && |out| + 2 <= 16 ==> InGroup(src, i + 1, i + 1, out + WordBytes(Hex(src[cur..i])), colon, goal)
  {
    var s, k := src[cur..], i - cur;
    assert s[..k] == src[cur..i] && s[k + 1..] == src[i + 1..];
    NoPunctuation(s[..k]);
    SplitHead(s, ':', k);
    assert Split(s, ':')[1..] == Split(s[k + 1..], ':');
    assert src[i + 1..i + 1] == [];
  }

  lemma QuadChars(s: string, x: char)
    requires Quad(s).Some? && x in s && x != '.'
    ensures IsDigit(x)
  {
    var g := Split(s, '.');
    SplitCovers(s, '.', x);
    var j :| 0 <= j < |g| && x in g[j];
    assert IsOctet(g[j]);
  }

  lemma {:induction false} SplitCovers(s: string, c: char, x: char)
    requires x in s && x != c
    ensures exists j :: 0 <= j < |Split(s, c)| && x in Split(s, c)[j]
  {
    var g, h := Split(s, c), Split(s[1..], c);
    if x == s[0] {
      assert x in g[0];
    } else {
      SplitCovers(s[1..], c, x);
      var j :| 0 <= j < |h| && x in h[j];
      var k := if s[0] == c then j + 1 else j;
      assert x in g[k];
    }
  }

  lemma GroupDot(src: string, cur: nat, i: nat, out: seq<byte>, colon: int, goal: Option<Parts>)
    requires InGroup(src, cur, i, out, colon, goal) && i < |src| && src[i] == '.'
    ensures |out| + 4 <= 16 && Quad(src[cur..]).Some? ==> goal == Some(Parts(out + Quad(src[cur..]).value, colon))
    ensures !(|out| + 4 <= 16 && Quad(src[cur..]).Some?) ==> goal.None?
  {
    var s, k := src[cur..], i - cur;
    assert s[..k] == src[cur..i];
    NoPunctuation(s[..k]);
    SplitHead(s, ':', k);
    var g := Split(s, ':');
    assert g[0][k] == s[..k + 1][k] == '.';
    assert !IsGroup(g[0]);
    if ':' !in s {
      SplitNone(s, ':');
    } else {
      if Quad(s).Some? { QuadChars(s, ':'); }
      SplitMany(s, ':');
    }
  }

  lemma GroupOther(src: string, cur: nat, i: nat, out: seq<byte>, colon: int, goal: Option<Parts>)
    requires InGroup(src, cur, i, out, colon, goal) && i < |src|
    requires !IsHex(src[i]) && src[i] != ':' && src[i] != '.'
    ensures goal.None?
  {
    var s, k := src[cur..], i - cur;
    assert s[..k] == src[cur..i];
    NoPunctuation(s[..k]);
    SplitHead(s, ':', k);
    var g := Split(s, ':')[0];
    assert g[k] == s[..k + 1][k] == src[i];
    if Quad(g).Some? { QuadChars(g, src[i]); }
  }

  lemma GroupEnd(src: string, cur: nat, out: seq<byte>, colon: int, goal: Option<Parts>)
    requires InGroup(src, cur, |src|, out, colon, goal)
    ensures cur == |src| ==> goal == Some(Parts(out, colon))
    ensures cur < |src| && |out| + 2 > 16 ==> goal.None?
    ensures cur < |src| && |out| + 2 <= 16 ==> goal == Some(Parts(out + WordBytes(Hex(src[cur..|src|])), colon))
  {
    var s := src[cur..];
    assert s == src[cur..|src|];
    NoPunctuation(s);
    SplitNone(s, ':');
    SplitNone(s, '.');
  }

  /** The shift by hand: moves the n bytes after the `::` to the end of the buffer. */
  method ShiftByHand(tmp: array<byte>, colonp: nat, n: nat)
    requires tmp.Length == 16 && colonp + n <= 16
    requires forall j :: colonp + n <= j < 16 ==> tmp[j] == 0
    modifies tmp
    ensures Expand(Parts(old(tmp[..colonp + n]), colonp)) == Some(tmp[..])
  {
    ghost var gap := 16 - colonp - n;
    var i := 1;
    while i <= n
      invariant 1 <= i <= n + 1
      invariant forall j :: 0 <= j < colonp ==> tmp[j] == old(tmp[j])
      invariant forall j :: colonp <= j <= colonp + n - i ==> tmp[j] == old(tmp[j])
      invariant forall j :: 16 - i < j < 16 ==> tmp[j] == if gap > 0 then old(tmp[j - gap]) else 0
      invariant forall j :: colonp + n - i < j <= 16 - i ==> tmp[j] == 0
    {
      tmp[16 - i] := tmp[colonp + n - i];
      tmp[colonp + n - i] := 0;
      i := i + 1;
    }
    ghost var was := old(tmp[..]);
    assert old(tmp[..colonp + n]) == was[..colonp + n];
    Moved(was, tmp[..], colonp, n);
  }

  lemma Moved(was: seq<byte>, now: seq<byte>, colonp: nat, n: nat)
    requires |was| == |now| == 16 && colonp + n <= 16
    requires forall j :: 0 <= j < colonp ==> now[j] == was[j]
    requires var gap := 16 - colonp - n;
      && (forall j :: 16 - n <= j < 16 ==> now[j] == if gap > 0 then was[j - gap] else 0)
      && (forall j :: colonp <= j < 16 - n ==> now[j] == 0)
    ensures Expand(Parts(was[..colonp + n], colonp)) == Some(now)
  {
    var gap, out := 16 - colonp - n, was[..colonp + n];
    assert out[..colonp] == was[..colonp] && out[colonp..] == was[colonp..colonp + n];
    if gap > 0 {
      assert now == was[..colonp] + Zeros(gap) + was[colonp..colonp + n];
    } else {
      assert now == was[..colonp] + Zeros(16 - colonp);
    }
  }

  /** Stores a word at tp. */
  method PutWord(tmp: array<byte>, tp: nat, val: nat)
    requires tmp.Length == 16 && tp + 2 <= 16 && val <= 0xffff
    requires forall j :: tp <= j < 16 ==> tmp[j] == 0
    modifies tmp
    ensures tmp[..tp + 2] == old(tmp[..tp]) + WordBytes(val)
    ensures forall j :: tp + 2 <= j < 16 ==> tmp[j] == 0
  {
    tmp[tp] := val / 256;
    tmp[tp + 1] := val % 256;
  }

  /** What holds in the scanning loop: tmp holds the bytes so far and zeros after them. */
  ghost predicate Scanning(src: string, curtok: nat, i: nat, saw: bool, val: nat, tmp: array<byte>, tp: nat, colonp: int,
                           goal: Option<Parts>)
    reads tmp
  {
    && tmp.Length == 16 && tp <= 16 && InGroup(src, curtok, i, tmp[..tp], colonp, goal)
    && (saw <==> curtok < i) && val == Hex(src[curtok..i])
    && forall j :: tp <= j < 16 ==> tmp[j] == 0
  }

  /** The bytes in tmp are the goal. */
  ghost predicate Scanned(tmp: array<byte>, tp: nat, colonp: int, goal: Option<Parts>)
    reads tmp
  {
    && tmp.Length == 16 && tp <= 16 && goal == Some(Parts(tmp[..tp], colonp))
    && forall j :: tp <= j < 16 ==> tmp[j] == 0
  }

  /** The scanning loop of inet_pton6, from the second colon of a leading `::`. */
  method ScanGroups(src: string, start: nat, tmp: array<byte>, ghost goal: Option<Parts>) returns (ok: bool, tp: nat, colonp: int)
    requires Scanning(src, start, start, false, 0, tmp, 0, -1, goal)
    modifies tmp
    ensures ok <==> goal.Some?
    ensures ok ==> Scanned(tmp, tp, colonp, goal)
  {
    tp, colonp := 0, -1;
    var curtok: nat, i: nat, saw_xdigit, val: nat := start, start, false, 0;
    while i < |src|
      invariant i <= |src| && Scanning(src, curtok, i, saw_xdigit, val, tmp, tp, colonp, goal)
    {
      var ch := src[i];
      if IsHex(ch) {
        val := AddDigit(src, curtok, i, saw_xdigit, val, tmp, tp, colonp, goal);
        if val > 0xffff { return false, tp, colonp; }
        saw_xdigit := true;
      } else if ch == ':' {
        ok, tp, colonp := EndGroup(src, curtok, i, saw_xdigit, val, tmp, tp, colonp, goal);
        if !ok { return; }
        curtok, saw_xdigit, val := i + 1, false, 0;
      } else {
        ok, tp := TryQuad(src, curtok, i, saw_xdigit, val, tmp, tp, colonp, goal);
        return;
      }
      i := i + 1;
    }
    ok, tp := LastGroup(src, curtok, saw_xdigit, val, tmp, tp, colonp, goal);
  }

  /** val <<= 4; val |= (pch - xdigits) */
  method AddDigit(src: string, ghost curtok: nat, i: nat, ghost saw: bool, val: nat, ghost tmp: array<byte>, ghost tp: nat,
                  ghost colonp: int, ghost goal: Option<Parts>)
    returns (val': nat)
    requires Scanning(src, curtok, i, saw, val, tmp, tp, colonp, goal) && i < |src| && IsHex(src[i])
    ensures val' > 0xffff ==> goal.None?
    ensures val' <= 0xffff ==> Scanning(src, curtok, i + 1, true, val', tmp, tp, colonp, goal)
  {
    val' := 16 * val + HexDigit(src[i]);
    GroupDigit(src, curtok, i, tmp[..tp], colonp, goal, val');
  }

  /** The end of the text. */
  method LastGroup(src: string, ghost curtok: nat, saw_xdigit: bool, val: nat, tmp: array<byte>, tp: nat, ghost colonp: int,
                   ghost goal: Option<Parts>)
    returns (ok: bool, tp': nat)
    requires Scanning(src, curtok, |src|, saw_xdigit, val, tmp, tp, colonp, goal)
    modifies tmp
    ensures ok <==> goal.Some?
    ensures ok ==> Scanned(tmp, tp', colonp, goal)
  {
    GroupEnd(src, curtok, tmp[..tp], colonp, goal);
    ok, tp' := true, tp;
    if saw_xdigit {
      if tp + 2 > 16 { return false, tp; }
      PutWord(tmp, tp, val);
      tp' := tp + 2;
    }
  }

  /** A colon: ends a group, or is the second of a `::`. */
  method EndGroup(src: string, ghost curtok: nat, ghost i: nat, saw_xdigit: bool, val: nat,
                  tmp: array<byte>, tp: nat, colonp: int, ghost goal: Option<Parts>)
    returns (ok: bool, tp': nat, colonp': int)
    requires Scanning(src, curtok, i, saw_xdigit, val, tmp, tp, colonp, goal) && i < |src| && src[i] == ':'
    modifies tmp
    ensures ok ==> Scanning(src, i + 1, i + 1, false, 0, tmp, tp', colonp', goal)
    ensures !ok ==> goal.None?
  {
    GroupColon(src, curtok, i, tmp[..tp], colonp, goal);
    assert src[i + 1..i + 1] == [];
    ok, tp', colonp' := true, tp, colonp;
    if !saw_xdigit {
      if colonp >= 0 { return false, tp, colonp; }
      colonp' := tp;
    } else {
      if tp + 2 > 16 { return false, tp, colonp; }
      PutWord(tmp, tp, val);
      tp' := tp + 2;
    }
  }

  /** A character that is neither a digit nor a colon: the group must be a dotted quad. */
  method TryQuad(src: string, curtok: nat, i: nat, ghost saw: bool, ghost val: nat, tmp: array<byte>, tp: nat, ghost colonp: int,
                 ghost goal: Option<Parts>)
    returns (ok: bool, tp': nat)
    requires Scanning(src, curtok, i, saw, val, tmp, tp, colonp, goal)
    requires i < |src| && !IsHex(src[i]) && src[i] != ':'
    modifies tmp
    ensures ok <==> goal.Some?
    ensures ok ==> Scanned(tmp, tp', colonp, goal)
  {
    ok, tp' := false, tp;
    if src[i] == '.' {
      GroupDot(src, curtok, i, tmp[..tp], colonp, goal);
      if tp + 4 <= 16 {
        ghost var out, rest := tmp[..tp], tmp[tp + 4..];
        ok := InetPton4(src[curtok..], tmp, tp);
        if ok {
          tp' := tp + 4;
          assert tmp[..tp'] == out + Quad(src[curtok..]).value;
          assert tmp[tp'..] == rest;
        }
      }
    } else {
      GroupOther(src, curtok, i, tmp[..tp], colonp, goal);
    }
  }

  /** inet_pton6: accepts exactly the texts that stand for an address, and does not touch dst
      otherwise. */
  method InetPton6(src: string, dst: array<byte>) returns (ok: bool)
    requires dst.Length == 16
    modifies dst
    ensures ok <==> Address(src).Some?
    ensures dst[..] == if ok then Address(src).value else old(dst[..])
  {
    var start := 0;
    assert src[0..] == src;
    if |src| > 0 && src[0] == ':' {
      start := 1;
      if |src| == 1 || src[1] != ':' { return false; }
    }
    ghost var goal := Read(Split(src[start..], ':'), [], -1);
    var tmp := new byte[16](_ => 0);
    assert tmp[..0] == [] && src[start..start] == [];
    ok := ParseGroups(src, start, tmp, goal);
    if ok { CopyBytes(tmp, dst, 0); }
    assert ok ==> dst[..] == tmp[..];
  }

  /** Scans the groups and fills the gap. */
  method ParseGroups(src: string, start: nat, tmp: array<byte>, ghost goal: Option<Parts>) returns (ok: bool)
    requires Scanning(src, start, start, false, 0, tmp, 0, -1, goal)
    modifies tmp
    ensures ok <==> goal.Some? && -1 <= goal.value.colon <= |goal.value.out| <= 16 && Expand(goal.value).Some?
    ensures ok ==> tmp[..] == Expand(goal.value).value
  {
    var tp, colonp;
    ok, tp, colonp := ScanGroups(src, start, tmp, goal);
    if !ok { return; }
    if colonp >= 0 {
      ShiftByHand(tmp, colonp, tp - colonp);
    } else if tp != 16 {
      return false;
    }
    assert colonp < 0 ==> tmp[..tp] == tmp[..];
  }
}
