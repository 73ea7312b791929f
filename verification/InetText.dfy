/**
 The text forms of IPv4 and IPv6 addresses: which texts stand for which addresses, how an address
 is printed, and that the two agree.
 */
module InetText {
  import opened Bytes
  import opened Sequences
  import opened Numerals
  import opened Splitting

  datatype Option<T> = None | Some(value: T)

  lemma Halves(x: seq<byte>, y: seq<byte>)
    ensures (x + y)[..|x|] == x && (x + y)[|x|..] == y
  {
  }

  // ------------------------------------------------------------------ dotted quads

  predicate IsOctet(s: string) {
    s != [] && AllDigits(s) && Decimal(s) <= 255
  }

  /** The address of a dotted quad: four decimal numbers up to 255, separated by dots. */
  function Quad(s: string): (q: Option<seq<byte>>)
    ensures q.Some? ==> |q.value| == 4
  {
    Octets(Split(s, '.'))
  }

  function Octets(g: seq<string>): (q: Option<seq<byte>>)
    ensures q.Some? ==> |q.value| == 4
  {
    if |g| == 4 && IsOctet(g[0]) && IsOctet(g[1]) && IsOctet(g[2]) && IsOctet(g[3])
    then Some([Decimal(g[0]), Decimal(g[1]), Decimal(g[2]), Decimal(g[3])])
    else None
  }

  /** inet_ntop4 */
  function Text4(a: seq<byte>): string
    requires |a| == 4
  {
    ShowNumber(a[0]) + ("." + (ShowNumber(a[1]) + ("." + (ShowNumber(a[2]) + ("." + ShowNumber(a[3]))))))
  }

  lemma NoPunctuation(s: string)
    requires AllHex(s)
    ensures ':' !in s && '.' !in s
  {
  }

  lemma DigitsAreHex(s: string)
    requires AllDigits(s)
    ensures AllHex(s)
  {
  }

  lemma SplitNumber(n: byte)
    ensures Split(ShowNumber(n), '.') == [ShowNumber(n)] && IsOctet(ShowNumber(n)) && Decimal(ShowNumber(n)) == n
  {
    DigitsAreHex(ShowNumber(n));
    NoPunctuation(ShowNumber(n));
    SplitNone(ShowNumber(n), '.');
  }

  /** Reading a printed IPv4 address gives it back. */
  lemma QuadOfText4(a: seq<byte>)
    requires |a| == 4
    ensures Quad(Text4(a)) == Some(a) && ':' !in Text4(a) && |Text4(a)| <= 15
  {
    var s0, s1, s2, s3 := ShowNumber(a[0]), ShowNumber(a[1]), ShowNumber(a[2]), ShowNumber(a[3]);
    SplitNumber(a[0]); SplitNumber(a[1]); SplitNumber(a[2]); SplitNumber(a[3]);
    SplitDots(s0, s1, s2, s3);
    assert a == [a[0], a[1], a[2], a[3]];
    ColonFree(a);
  }

  lemma SplitDots(s0: string, s1: string, s2: string, s3: string)
    requires Split(s0, '.') == [s0] && Split(s1, '.') == [s1] && Split(s2, '.') == [s2] && Split(s3, '.') == [s3]
    ensures Split(s0 + ("." + (s1 + ("." + (s2 + ("." + s3))))), '.') == [s0, s1, s2, s3]
  {
    var t2 := s2 + ("." + s3);
    SplitConcat(s2, '.', s3);
    var t1 := s1 + ("." + t2);
    SplitConcat(s1, '.', t2);
    SplitConcat(s0, '.', t1);
    assert [s0] + ([s1] + ([s2] + [s3])) == [s0, s1, s2, s3];
  }

  lemma ColonFree(a: seq<byte>)
    requires |a| == 4
    ensures ':' !in Text4(a) && |Text4(a)| <= 15
  {
    forall i | 0 <= i < 4 ensures ':' !in ShowNumber(a[i]) && |ShowNumber(a[i])| <= 3 {
      DigitsAreHex(ShowNumber(a[i]));
      NoPunctuation(ShowNumber(a[i]));
      ShowNumberLength(a[i]);
    }
  }

  // ------------------------------------------------------------------ IPv6 addresses

  predicate IsGroup(s: string) {
    s != [] && AllHex(s) && Hex(s) <= 0xffff
  }

  function WordBytes(w: nat): (b: seq<byte>)
    requires w <= 0xffff
    ensures |b| == 2
  {
    [w / 256, w % 256]
  }

  /** The bytes given by the groups, and where among them the `::` stands, or -1. */
  datatype Parts = Parts(out: seq<byte>, colon: int)

  /** The groups of a text, after the bytes `out`: an empty group, unless it is the last, marks the
      `::`, and the last may be a dotted quad. */
  function Read(g: seq<string>, out: seq<byte>, colon: int): (p: Option<Parts>)
    requires |g| >= 1 && -1 <= colon <= |out| <= 16
    ensures p.Some? ==> -1 <= p.value.colon <= |p.value.out| <= 16
  {
    if |g| == 1 then
      if g[0] == [] then Some(Parts(out, colon))
      else if Quad(g[0]).Some? && |out| + 4 <= 16 then Some(Parts(out + Quad(g[0]).value, colon))
      else if IsGroup(g[0]) && |out| + 2 <= 16 then Some(Parts(out + WordBytes(Hex(g[0])), colon))
      else None
    else if g[0] == [] then
      if colon >= 0 then None else Read(g[1..], out, |out|)
    else if IsGroup(g[0]) && |out| + 2 <= 16 then Read(g[1..], out + WordBytes(Hex(g[0])), colon)
    else None
  }

  /** Zero bytes fill the gap; without a gap the bytes after the `::` are lost. */
  function Expand(p: Parts): (a: Option<seq<byte>>)
    requires -1 <= p.colon <= |p.out| <= 16
    ensures a.Some? ==> |a.value| == 16
  {
    if p.colon < 0 then (if |p.out| == 16 then Some(p.out) else None)
    else if |p.out| == 16 then Some(p.out[..p.colon] + Zeros(16 - p.colon))
    else Some(p.out[..p.colon] + Zeros(16 - |p.out|) + p.out[p.colon..])
  }

  function Groups(s: string): Option<seq<byte>> {
    var p := Read(Split(s, ':'), [], -1);
    if p.None? then None else Expand(p.value)
  }

  /** The address of a text; a colon at the beginning must be part of a `::`. */
  function Address(s: string): (a: Option<seq<byte>>) {
    if s == [] || s[0] != ':' then Groups(s)
    else if |s| >= 2 && s[1] == ':' then Groups(s[1..])
    else None
  }

  // ------------------------------------------------------------------ printing

  function Both(high: int, low: int): int {
    256 * high + low
  }

  function Word(a: seq<byte>, i: nat): (w: nat)
    requires |a| == 16 && i < 8
    ensures w <= 0xffff
  {
    Both(a[2 * i], a[2 * i + 1])
  }

  predicate IsWords(ws: seq<nat>) {
    forall i :: 0 <= i < |ws| ==> ws[i] <= 0xffff
  }

  function Words(a: seq<byte>): (ws: seq<nat>)
    requires |a| == 16
    ensures |ws| == 8 && IsWords(ws) && forall i :: 0 <= i < 8 ==> ws[i] == Word(a, i)
  {
    seq(8, i requires 0 <= i < 8 => Word(a, i))
  }

  function AllBytes(ws: seq<nat>): (b: seq<byte>)
    requires IsWords(ws)
    ensures |b| == 2 * |ws|
  {
    if ws == [] then [] else WordBytes(ws[0]) + AllBytes(ws[1..])
  }

  function Hexes(ws: seq<nat>): (g: seq<string>)
    ensures |g| == |ws| && forall i :: 0 <= i < |g| ==> g[i] == ShowHex(ws[i])
  {
    seq(|ws|, i requires 0 <= i < |ws| => ShowHex(ws[i]))
  }

  predicate ZeroRun(ws: seq<nat>, base: int, len: int) {
    0 <= base && 0 <= len && base + len <= |ws| && forall i :: base <= i < base + len ==> ws[i] == 0
  }

  /** base and len give the longest run of zero words, the leftmost such run, if it has at least two. */
  ghost predicate BestRun(ws: seq<nat>, base: int, len: int) {
    if base == -1 then forall b, l :: ZeroRun(ws, b, l) ==> l < 2
    else len >= 2 && ZeroRun(ws, base, len)
         && forall b, l :: ZeroRun(ws, b, l) ==> l <= len && (l == len ==> base <= b)
  }

  /** The last 32 bits are printed as a dotted quad. */
  predicate Embedded(ws: seq<nat>, base: int, len: int)
    requires |ws| == 8
  {
    base == 0 && (len == 6 || (len == 5 && ws[5] == 0xffff))
  }

  predicate InRun(base: int, len: int, i: int) {
    base != -1 && base <= i < base + len
  }

  /** The text of word i, or of the last two. */
  function Unit(a: seq<byte>, base: int, len: int, i: nat): string
    requires |a| == 16 && i < 8
  {
    if i == 6 && Embedded(Words(a), base, len) then Text4(a[12..]) else ShowHex(Word(a, i))
  }

  /** What word i adds to the text. */
  function Piece(a: seq<byte>, base: int, len: int, i: nat): string
    requires |a| == 16 && i < 8
  {
    if InRun(base, len, i) then (if i == base then ":" else "")
    else (if i != 0 then ":" else "") + Unit(a, base, len, i)
  }

  function UpTo(a: seq<byte>, base: int, len: int, n: nat): string
    requires |a| == 16 && n <= 8
  {
    if n == 0 then "" else UpTo(a, base, len, n - 1) + Piece(a, base, len, n - 1)
  }

  /** How many words are printed before the loop ends. */
  function Printed(a: seq<byte>, base: int, len: int): (n: nat)
    requires |a| == 16
    ensures n <= 8
  {
    if Embedded(Words(a), base, len) then 7 else 8
  }

  function Text6(a: seq<byte>, base: int, len: int): string
    requires |a| == 16
  {
    UpTo(a, base, len, Printed(a, base, len)) + (if base != -1 && base + len == 8 then ":" else "")
  }

  lemma StepOutside(a: seq<byte>, base: int, len: int, n: nat)
    requires |a| == 16 && 1 <= n <= 8 && !InRun(base, len, n - 1)
    ensures UpTo(a, base, len, n) ==
      if n == 1 then Unit(a, base, len, 0) else UpTo(a, base, len, n - 1) + ([':'] + Unit(a, base, len, n - 1))
  {
    assert n == 1 ==> UpTo(a, base, len, n) == "" + ("" + Unit(a, base, len, 0));
  }

  lemma StepInside(a: seq<byte>, base: int, len: int, n: nat)
    requires |a| == 16 && 1 <= n <= 8 && InRun(base, len, n - 1)
    ensures UpTo(a, base, len, n) == UpTo(a, base, len, n - 1) + if n - 1 == base then [':'] else []
  {
  }

  // ------------------------------------------------------------------ the groups of a printed text

  lemma SplitHexOnly(w: nat)
    ensures Split(ShowHex(w), ':') == [ShowHex(w)]
  {
    NoPunctuation(ShowHex(w));
    SplitNone(ShowHex(w), ':');
  }

  lemma SplitMore(p: string, q: string)
    requires ':' !in q
    ensures Split(p + ([':'] + q), ':') == Split(p, ':') + [q]
  {
    SplitNone(q, ':');
    SplitConcat(p, ':', q);
  }

  /** One more word after the text p. */
  lemma SplitWord(p: string, ws: seq<nat>, w: nat, g: seq<string>)
    requires Split(p, ':') == g + Hexes(ws)
    ensures Split(p + ([':'] + ShowHex(w)), ':') == g + Hexes(ws + [w])
  {
    SplitHexOnly(w);
    SplitConcat(p, ':', ShowHex(w));
    HexesPush(ws, w);
    assert (g + Hexes(ws)) + [ShowHex(w)] == g + (Hexes(ws) + [ShowHex(w)]);
  }

  lemma HexesPush(ws: seq<nat>, w: nat)
    ensures Hexes(ws) + [ShowHex(w)] == Hexes(ws + [w])
  {
  }

  lemma Snoc(ws: seq<nat>, m: nat, n: nat)
    requires m <= n < |ws|
    ensures ws[m..n] + [ws[n]] == ws[m..n + 1]
  {
  }

  /** The groups of the first words, before the run. */
  lemma {:induction false} GroupsBefore(a: seq<byte>, base: int, len: int, n: nat)
    requires |a| == 16 && 1 <= n <= 8 && (base == -1 || n <= base)
    ensures Split(UpTo(a, base, len, n), ':') == [] + Hexes(Words(a)[0..n])
  {
    if n == 1 {
      FirstGroup(a, base, len);
    } else {
      GroupsBefore(a, base, len, n - 1);
      BeforeNext(a, base, len, n);
    }
  }

  lemma FirstGroup(a: seq<byte>, base: int, len: int)
    requires |a| == 16 && (base == -1 || base >= 1)
    ensures Split(UpTo(a, base, len, 1), ':') == [] + Hexes(Words(a)[0..1])
  {
    StepOutside(a, base, len, 1);
    SplitHexOnly(Words(a)[0]);
    assert Hexes(Words(a)[0..1]) == [ShowHex(Words(a)[0])];
  }

  lemma BeforeNext(a: seq<byte>, base: int, len: int, n: nat)
    requires |a| == 16 && 2 <= n <= 8 && (base == -1 || n <= base)
    requires Split(UpTo(a, base, len, n - 1), ':') == [] + Hexes(Words(a)[0..n - 1])
    ensures Split(UpTo(a, base, len, n), ':') == [] + Hexes(Words(a)[0..n])
  {
    var ws := Words(a);
    StepOutside(a, base, len, n);
    SplitWord(UpTo(a, base, len, n - 1), ws[0..n - 1], ws[n - 1], []);
    Snoc(ws, 0, n - 1);
  }

  /** The empty groups that a run at `base` leaves. */
  function Gap(base: int): seq<string> {
    if base == 0 then ["", ""] else [""]
  }

  /** The colon of the first zero word. */
  lemma GroupsFirst(a: seq<byte>, base: int, len: int)
    requires |a| == 16 && 0 <= base < base + len <= 8
    ensures Split(UpTo(a, base, len, base) + [':'], ':') == Hexes(Words(a)[0..base]) + Gap(base)
  {
    if base > 0 {
      GroupsBefore(a, base, len, base);
      SplitTrailing(UpTo(a, base, len, base), ':');
    } else {
      FrontEmpty(Words(a));
      OnlyColon();
      assert UpTo(a, base, len, base) == "";
    }
  }

  lemma OnlyColon()
    ensures Split("" + [':'], ':') == ["", ""]
  {
    SplitTrailing("", ':');
  }

  lemma {:induction false} GroupsInside(a: seq<byte>, base: int, len: int, n: nat)
    requires |a| == 16 && 0 <= base < n <= base + len <= 8
    ensures Split(UpTo(a, base, len, n), ':') == Hexes(Words(a)[0..base]) + Gap(base)
  {
    StepInside(a, base, len, n);
    if n == base + 1 {
      GroupsFirst(a, base, len);
    } else {
      GroupsInside(a, base, len, n - 1);
      assert UpTo(a, base, len, n - 1) + [] == UpTo(a, base, len, n - 1);
    }
  }

  /** The groups in front of the words after the run. */
  function Front(ws: seq<nat>, base: int): seq<string>
    requires 0 <= base <= |ws|
  {
    Hexes(ws[0..base]) + Gap(base)
  }

  lemma NextGroup(a: seq<byte>, base: int, len: int, n: nat, g: seq<string>)
    requires |a| == 16 && 0 <= base && len >= 1 && base + len < n <= 8
    requires Embedded(Words(a), base, len) ==> n <= 6
    requires Split(UpTo(a, base, len, n - 1), ':') == g + Hexes(Words(a)[base + len..n - 1])
    ensures Split(UpTo(a, base, len, n), ':') == g + Hexes(Words(a)[base + len..n])
  {
    var ws := Words(a);
    StepOutside(a, base, len, n);
    SplitWord(UpTo(a, base, len, n - 1), ws[base + len..n - 1], ws[n - 1], g);
    Snoc(ws, base + len, n - 1);
  }

  lemma {:induction false} GroupsAfter(a: seq<byte>, base: int, len: int, n: nat)
    requires |a| == 16 && 0 <= base && len >= 1 && base + len <= n <= 8
    requires Embedded(Words(a), base, len) ==> n <= 6
    ensures Split(UpTo(a, base, len, n), ':') == Front(Words(a), base) + Hexes(Words(a)[base + len..n])
  {
    var ws, m := Words(a), base + len;
    if n == m {
      GroupsInside(a, base, len, n);
      assert Hexes(ws[m..n]) == [];
    } else {
      GroupsAfter(a, base, len, n - 1);
      NextGroup(a, base, len, n, Front(ws, base));
    }
  }

  // ------------------------------------------------------------------ reading the groups back

  lemma GroupOfWord(w: nat)
    requires w <= 0xffff
    ensures IsGroup(ShowHex(w)) && Hex(ShowHex(w)) == w && Quad(ShowHex(w)).None?
  {
    NoPunctuation(ShowHex(w));
    SplitNone(ShowHex(w), '.');
  }

  lemma ReadGroup(w: nat, g: seq<string>, out: seq<byte>, colon: int)
    requires w <= 0xffff && g != [] && -1 <= colon <= |out| && |out| + 2 <= 16
    ensures Read([ShowHex(w)] + g, out, colon) == Read(g, out + WordBytes(w), colon)
  {
    GroupOfWord(w);
    assert ([ShowHex(w)] + g)[1..] == g;
  }

  lemma HexesFirst(ws: seq<nat>, rest: seq<string>)
    requires ws != []
    ensures Hexes(ws) + rest == [ShowHex(ws[0])] + (Hexes(ws[1..]) + rest)
  {
  }

  lemma {:induction false} ReadHexes(ws: seq<nat>, rest: seq<string>, out: seq<byte>, colon: int)
    requires IsWords(ws) && rest != [] && -1 <= colon <= |out| && |out| + 2 * |ws| <= 16
    ensures Read(Hexes(ws) + rest, out, colon) == Read(rest, out + AllBytes(ws), colon)
  {
    if ws == [] {
      assert Hexes(ws) + rest == rest && out + [] == out;
    } else {
      HexesFirst(ws, rest);
      ReadGroup(ws[0], Hexes(ws[1..]) + rest, out, colon);
      ReadHexes(ws[1..], rest, out + WordBytes(ws[0]), colon);
      Regroup(out, WordBytes(ws[0]), AllBytes(ws[1..]));
    }
  }

  lemma {:induction false} BytesConcat(a: seq<nat>, b: seq<nat>)
    requires IsWords(a) && IsWords(b)
    ensures IsWords(a + b) && AllBytes(a + b) == AllBytes(a) + AllBytes(b)
  {
    if a == [] {
      assert a + b == b;
    } else {
      assert (a + b)[1..] == a[1..] + b;
      BytesConcat(a[1..], b);
      Regroup(WordBytes(a[0]), AllBytes(a[1..]), AllBytes(b));
    }
  }

  /** A text that ends with hexadecimal groups. */
  lemma ReadLast(ws: seq<nat>, out: seq<byte>, colon: int)
    requires ws != [] && IsWords(ws) && -1 <= colon <= |out| && |out| + 2 * |ws| <= 16
    ensures Read(Hexes(ws), out, colon) == Some(Parts(out + AllBytes(ws), colon))
  {
    var n := |ws| - 1;
    var front, last := ws[..n], ws[n];
    assert ws == front + [last];
    ReadHexes(front, [ShowHex(last)], out, colon);
    HexesPush(front, last);
    GroupOfWord(last);
    BytesConcat(front, [last]);
    assert AllBytes([last]) == WordBytes(last);
    Regroup(out, AllBytes(front), WordBytes(last));
  }

  lemma WordOfBytes(h: byte, l: byte)
    ensures Both(h, l) <= 0xffff && WordBytes(Both(h, l)) == [h, l]
  {
  }

  lemma {:induction false} BytesOfWords(a: seq<byte>, i: nat)
    requires |a| == 16 && i <= 8
    ensures AllBytes(Words(a)[i..]) == a[2 * i..]
    decreases 8 - i
  {
    if i < 8 {
      BytesOfWords(a, i + 1);
      WordOfBytes(a[2 * i], a[2 * i + 1]);
      TailWords(Words(a), i);
      assert a[2 * i..] == [a[2 * i], a[2 * i + 1]] + a[2 * (i + 1)..];
    }
  }

  lemma TailWords(ws: seq<nat>, i: nat)
    requires i < |ws| && IsWords(ws)
    ensures AllBytes(ws[i..]) == WordBytes(ws[i]) + AllBytes(ws[i + 1..])
  {
    assert ws[i..][1..] == ws[i + 1..];
  }

  lemma {:induction false} BytesOfZeros(ws: seq<nat>)
    requires ZeroRun(ws, 0, |ws|)
    ensures AllBytes(ws) == Zeros(2 * |ws|)
  {
    if ws != [] {
      assert ws[0] == 0;
      assert ZeroRun(ws[1..], 0, |ws| - 1);
      BytesOfZeros(ws[1..]);
    }
  }

  lemma Refill(x: seq<byte>, n: nat, y: seq<byte>)
    requires |x| + n + |y| == 16 && n > 0
    ensures Expand(Parts(x + y, |x|)) == Some(x + Zeros(n) + y)
  {
    Halves(x, y);
  }

  lemma AroundRun(a: seq<byte>, base: nat, len: nat)
    requires |a| == 16 && ZeroRun(Words(a), base, len)
    ensures AllBytes(Words(a)[0..base]) + Zeros(2 * len) + AllBytes(Words(a)[base + len..]) == a
  {
    var ws := Words(a);
    BytesAround(ws, base, len);
    BytesOfWords(a, 0);
    assert a[0..] == a && ws[0..] == ws;
  }

  lemma BytesAround(ws: seq<nat>, base: nat, len: nat)
    requires IsWords(ws) && ZeroRun(ws, base, len)
    ensures AllBytes(ws[0..base]) + Zeros(2 * len) + AllBytes(ws[base + len..]) == AllBytes(ws)
  {
    var l, z, r := ws[0..base], ws[base..base + len], ws[base + len..];
    BytesOfZeros(z);
    BytesConcat(l, z);
    BytesConcat(l + z, r);
    assert l + z + r == ws;
  }

  /** The bytes of the words around a run of zeros, with the gap filled, are the address. */
  lemma FillGap(a: seq<byte>, base: nat, len: nat)
    requires |a| == 16 && len >= 1 && ZeroRun(Words(a), base, len)
    ensures Expand(Parts(AllBytes(Words(a)[0..base]) + AllBytes(Words(a)[base + len..]), 2 * base)) == Some(a)
  {
    AroundRun(a, base, len);
    Refill(AllBytes(Words(a)[0..base]), 2 * len, AllBytes(Words(a)[base + len..]));
  }

  /** Groups with an empty one among them. */
  lemma ReadDouble(l: seq<nat>, r: seq<nat>)
    requires IsWords(l) && IsWords(r) && |l| + |r| <= 8
    ensures Read(Hexes(l) + ([""] + if r == [] then [""] else Hexes(r)), [], -1) == Some(Parts(AllBytes(l) + AllBytes(r), 2 * |l|))
  {
    var tail := if r == [] then [""] else Hexes(r);
    ReadHexes(l, [""] + tail, [], -1);
    assert [] + AllBytes(l) == AllBytes(l);
    assert ([""] + tail)[1..] == tail;
    if r == [] {
      assert AllBytes(l) + AllBytes(r) == AllBytes(l);
    } else {
      ReadLast(r, AllBytes(l), 2 * |l|);
    }
  }

  // ------------------------------------------------------------------ the round trip

  lemma TextStart(a: seq<byte>, base: int, len: int)
    requires |a| == 16 && -1 <= base && (base != -1 ==> len >= 1 && base + len <= 8)
    ensures Text6(a, base, len) != []
    ensures base == 0 <==> Text6(a, base, len)[0] == ':'
    ensures base == 0 ==> |Text6(a, base, len)| >= 2 && Text6(a, base, len)[1] == ':'
  {
    if base == 0 {
      SecondColon(a, len);
    } else {
      PrefixOf(a, base, len, 1, Printed(a, base, len));
      StepOutside(a, base, len, 1);
      NoPunctuation(ShowHex(Word(a, 0)));
    }
  }

  lemma {:induction false} PrefixOf(a: seq<byte>, base: int, len: int, m: nat, n: nat)
    requires |a| == 16 && m <= n <= 8
    ensures UpTo(a, base, len, m) <= UpTo(a, base, len, n)
  {
    if m < n {
      PrefixOf(a, base, len, m, n - 1);
      assert UpTo(a, base, len, n) == UpTo(a, base, len, n - 1) + Piece(a, base, len, n - 1);
    }
  }

  lemma {:induction false} StillOneColon(a: seq<byte>, len: int, n: nat)
    requires |a| == 16 && 1 <= n <= len <= 8
    ensures UpTo(a, 0, len, n) == ":"
  {
    StepInside(a, 0, len, n);
    if n > 1 { StillOneColon(a, len, n - 1); }
  }

  lemma SecondColon(a: seq<byte>, len: int)
    requires |a| == 16 && 1 <= len <= 8
    ensures "::" <= Text6(a, 0, len)
  {
    StillOneColon(a, len, len);
    if len < 8 {
      PrefixOf(a, 0, len, len + 1, Printed(a, 0, len));
      StepOutside(a, 0, len, len + 1);
    }
  }

  lemma RoundTripPlain(a: seq<byte>, len: int)
    requires |a| == 16
    ensures Address(Text6(a, -1, len)) == Some(a)
  {
    var ws, n := Words(a), Printed(a, -1, len);
    TextStart(a, -1, len);
    GroupsBefore(a, -1, len, n);
    assert Text6(a, -1, len) == UpTo(a, -1, len, n);
    assert ws[0..n] == ws == ws[0..] && [] + Hexes(ws) == Hexes(ws);
    ReadLast(ws, [], -1);
    BytesOfWords(a, 0);
    assert [] + AllBytes(ws) == AllBytes(ws) == a[0..] == a;
  }

  lemma RunGroups(a: seq<byte>, base: int, len: int)
    requires |a| == 16 && 0 <= base && len >= 1 && base + len <= 8 && !Embedded(Words(a), base, len)
    ensures Split(Text6(a, base, len), ':') ==
      Front(Words(a), base) + if base + len == 8 then [""] else Hexes(Words(a)[base + len..])
  {
    var n := Printed(a, base, len);
    GroupsAfter(a, base, len, n);
    WholeTail(Words(a), base + len, n);
    if base + len == 8 {
      assert Text6(a, base, len) == UpTo(a, base, len, n) + [':'];
      SplitTrailing(UpTo(a, base, len, n), ':');
      assert Front(Words(a), base) + [] == Front(Words(a), base);
    } else {
      assert Text6(a, base, len) == UpTo(a, base, len, n);
    }
  }

  lemma WholeTail(ws: seq<nat>, m: nat, n: nat)
    requires m <= n == |ws|
    ensures ws[m..n] == ws[m..] && (m == n ==> Hexes(ws[m..n]) == [])
  {
  }

  lemma RoundTripRun(a: seq<byte>, base: int, len: int)
    requires |a| == 16 && 0 <= base && len >= 1 && ZeroRun(Words(a), base, len) && !Embedded(Words(a), base, len)
    ensures Address(Text6(a, base, len)) == Some(a)
  {
    var ws, s := Words(a), Text6(a, base, len);
    var l, r := ws[0..base], ws[base + len..];
    TextStart(a, base, len);
    var g := Hexes(l) + ([""] + RunTail(r));
    if base == 0 {
      LeadingRunSplit(a, len);
      GroupsAt(s[1..], g);
    } else {
      InnerRunSplit(a, base, len);
      GroupsAt(s, g);
    }
    ReadDouble(l, r);
    FillGap(a, base, len);
  }

  /** The groups after a run. */
  function RunTail(r: seq<nat>): seq<string> {
    if r == [] then [""] else Hexes(r)
  }

  /** The groups that are read if the run is not at the beginning. */
  lemma InnerRunSplit(a: seq<byte>, base: int, len: int)
    requires |a| == 16 && 0 < base && len >= 1 && base + len <= 8
    ensures Split(Text6(a, base, len), ':') == Hexes(Words(a)[0..base]) + ([""] + RunTail(Words(a)[base + len..]))
  {
    RunGroups(a, base, len);
    Regroup(Hexes(Words(a)[0..base]), [""], RunTail(Words(a)[base + len..]));
  }

  lemma LeadingRunSplit(a: seq<byte>, len: int)
    requires |a| == 16 && 1 <= len <= 8 && !Embedded(Words(a), 0, len)
    ensures Text6(a, 0, len) != []
    ensures Split(Text6(a, 0, len)[1..], ':') == Hexes(Words(a)[0..0]) + ([""] + RunTail(Words(a)[len..]))
  {
    var g := RunTail(Words(a)[len..]);
    TextStart(a, 0, len);
    RunGroups(a, 0, len);
    FrontEmpty(Words(a));
    SplitAfterColon(Text6(a, 0, len), g);
    NoHexes([""] + g);
    assert Words(a)[0..0] == [];
  }

  lemma FrontEmpty(ws: seq<nat>)
    ensures Front(ws, 0) == ["", ""]
  {
    assert Hexes(ws[0..0]) == [];
  }

  lemma SplitAfterColon(s: string, g: seq<string>)
    requires s != [] && s[0] == ':' && Split(s, ':') == ["", ""] + g
    ensures Split(s[1..], ':') == [""] + g
  {
    assert Split(s, ':') == [""] + Split(s[1..], ':');
    assert (["", ""] + g)[1..] == [""] + g;
  }

  lemma FrontOfNone(ws: seq<nat>, g: seq<string>, q: string)
    ensures Front(ws, 0) + g + [q] == ["", ""] + (g + [q])
  {
    assert Hexes(ws[0..0]) == [];
  }

  lemma EmbeddedGroups(a: seq<byte>, len: int)
    requires |a| == 16 && Embedded(Words(a), 0, len)
    ensures Split(Text6(a, 0, len), ':') == ["", ""] + (Hexes(Words(a)[len..6]) + [Text4(a[12..])])
  {
    var n, q := Printed(a, 0, len), Text4(a[12..]);
    GroupsAfter(a, 0, len, n - 1);
    ColonFree(a[12..]);
    StepOutside(a, 0, len, n);
    SplitMore(UpTo(a, 0, len, n - 1), q);
    FrontOfNone(Words(a), Hexes(Words(a)[len..6]), q);
    assert Text6(a, 0, len) == UpTo(a, 0, len, n);
  }

  lemma RoundTripEmbedded(a: seq<byte>, len: int)
    requires |a| == 16 && ZeroRun(Words(a), 0, len) && Embedded(Words(a), 0, len)
    ensures Address(Text6(a, 0, len)) == Some(a)
  {
    var s, q, mid := Text6(a, 0, len), Text4(a[12..]), Words(a)[len..6];
    EmbeddedGroups(a, len);
    TextStart(a, 0, len);
    QuadOfText4(a[12..]);
    assert Split(s[1..], ':') == Split(s, ':')[1..];
    var g := Split(s[1..], ':');
    assert g[0] == "" && g[1..] == Hexes(mid) + [q];
    ReadHexes(mid, [q], [], 0);
    assert [] + AllBytes(mid) == AllBytes(mid);
    EmbeddedBytes(a, len);
    assert q != [];
  }

  lemma EmbeddedBytes(a: seq<byte>, len: int)
    requires |a| == 16 && ZeroRun(Words(a), 0, len) && 1 <= len <= 6
    ensures Expand(Parts(AllBytes(Words(a)[len..6]) + a[12..], 0)) == Some(a)
  {
    LastBytes(a, len, 6);
    LeadingRun(a, len);
  }

  /** A run of zeros at the beginning. */
  lemma LeadingRun(a: seq<byte>, len: nat)
    requires |a| == 16 && ZeroRun(Words(a), 0, len) && 1 <= len
    ensures Expand(Parts(AllBytes(Words(a)[len..]), 0)) == Some(a)
  {
    FillGap(a, 0, len);
    var none, tail := AllBytes(Words(a)[0..0]), AllBytes(Words(a)[len..]);
    assert none + tail == tail;
  }

  lemma LastBytes(a: seq<byte>, m: nat, n: nat)
    requires |a| == 16 && m <= n <= 8
    ensures AllBytes(Words(a)[m..n]) + a[2 * n..] == AllBytes(Words(a)[m..])
  {
    var ws := Words(a);
    BytesConcat(ws[m..n], ws[n..]);
    assert ws[m..n] + ws[n..] == ws[m..];
    BytesOfWords(a, n);
  }

  /** Every address is read back from its printed form. */
  lemma RoundTrip(a: seq<byte>, base: int, len: int)
    requires |a| == 16 && base >= -1 && BestRun(Words(a), base, len)
    ensures Address(Text6(a, base, len)) == Some(a)
  {
    if base == -1 {
      RoundTripPlain(a, len);
    } else if Embedded(Words(a), base, len) {
      RoundTripEmbedded(a, len);
    } else {
      RoundTripRun(a, base, len);
    }
  }

  // ------------------------------------------------------------------ `::` without a gap

  function Join(ws: seq<nat>): string {
    if ws == [] then "" else if |ws| == 1 then ShowHex(ws[0]) else Join(ws[..|ws| - 1]) + ([':'] + ShowHex(ws[|ws| - 1]))
  }

  lemma {:induction false} SplitJoin(ws: seq<nat>)
    requires ws != []
    ensures Split(Join(ws), ':') == Hexes(ws) && Join(ws) != [] && Join(ws)[0] != ':'
  {
    var n := |ws| - 1;
    SplitHexOnly(ws[n]);
    NoPunctuation(ShowHex(ws[n]));
    if n > 0 {
      SplitJoin(ws[..n]);
      SplitConcat(Join(ws[..n]), ':', ShowHex(ws[n]));
      HexesPush(ws[..n], ws[n]);
      assert ws[..n] + [ws[n]] == ws;
    }
  }

  /** The groups of a text that ends with the words ws, the last two of them perhaps as a dotted quad. */
  function Ending(ws: seq<nat>, quad: bool): seq<string>
    requires IsWords(ws) && (quad ==> |ws| >= 2)
  {
    if quad then Hexes(ws[..|ws| - 2]) + [Text4(AllBytes(ws[|ws| - 2..]))] else if ws == [] then [""] else Hexes(ws)
  }

  function EndText(ws: seq<nat>, quad: bool): string
    requires IsWords(ws) && (quad ==> |ws| >= 2)
  {
    if !quad then Join(ws)
    else if |ws| == 2 then Text4(AllBytes(ws))
    else Join(ws[..|ws| - 2]) + ([':'] + Text4(AllBytes(ws[|ws| - 2..])))
  }

  lemma SplitEnd(ws: seq<nat>, quad: bool)
    requires IsWords(ws) && (quad ==> |ws| >= 2)
    ensures Split(EndText(ws, quad), ':') == Ending(ws, quad)
  {
    if quad {
      SplitQuadEnd(ws);
    } else if ws != [] {
      SplitJoin(ws);
    }
  }

  lemma SplitQuadEnd(ws: seq<nat>)
    requires IsWords(ws) && |ws| >= 2
    ensures Split(EndText(ws, true), ':') == Ending(ws, true)
  {
    var n := |ws| - 2;
    ColonFree(AllBytes(ws[n..]));
    if n == 0 {
      assert ws[n..] == ws;
      NoHexes([Text4(AllBytes(ws))]);
      SplitNone(Text4(AllBytes(ws)), ':');
    } else {
      SplitFrontAndQuad(ws[..n], Text4(AllBytes(ws[n..])));
    }
  }

  lemma SplitFrontAndQuad(front: seq<nat>, q: string)
    requires front != [] && ':' !in q
    ensures Split(Join(front) + ([':'] + q), ':') == Hexes(front) + [q]
  {
    SplitJoin(front);
    SplitMore(Join(front), q);
  }

  lemma ReadEnd(ws: seq<nat>, quad: bool, out: seq<byte>, colon: int)
    requires IsWords(ws) && (quad ==> |ws| >= 2) && -1 <= colon <= |out| && |out| + 2 * |ws| <= 16
    ensures Read(Ending(ws, quad), out, colon) == Some(Parts(out + AllBytes(ws), colon))
  {
    if quad {
      ReadQuad(ws[..|ws| - 2], ws[|ws| - 2..], out, colon);
      assert ws[..|ws| - 2] + ws[|ws| - 2..] == ws;
    } else if ws == [] {
      assert out + [] == out;
    } else {
      ReadLast(ws, out, colon);
    }
  }

  lemma ReadQuad(front: seq<nat>, last: seq<nat>, out: seq<byte>, colon: int)
    requires IsWords(front) && IsWords(last) && |last| == 2 && -1 <= colon <= |out| && |out| + 2 * |front| + 4 <= 16
    ensures Read(Hexes(front) + [Text4(AllBytes(last))], out, colon) == Some(Parts(out + AllBytes(front + last), colon))
  {
    var q := Text4(AllBytes(last));
    ReadHexes(front, [q], out, colon);
    QuadOfText4(AllBytes(last));
    BytesConcat(front, last);
    Regroup(out, AllBytes(front), AllBytes(last));
    assert q != [];
  }

  /** `::` between the words l and r. */
  function Doubled(l: seq<nat>, r: seq<nat>, quad: bool): string
    requires IsWords(r) && (quad ==> |r| >= 2)
  {
    Join(l) + ([':'] + ([':'] + EndText(r, quad)))
  }

  lemma DoubledGroups(l: seq<nat>, r: seq<nat>, quad: bool)
    requires IsWords(r) && (quad ==> |r| >= 2)
    ensures var s, g := Doubled(l, r, quad), [""] + Ending(r, quad);
      if l == [] then |s| >= 2 && s[0] == s[1] == ':' && Split(s[1..], ':') == g
      else s != [] && s[0] != ':' && Split(s, ':') == Hexes(l) + g
  {
    var tail := EndText(r, quad);
    SplitEnd(r, quad);
    SplitConcat("", ':', tail);
    assert "" + ([':'] + tail) == [':'] + tail;
    if l == [] {
      assert Doubled(l, r, quad)[1..] == [':'] + tail;
    } else {
      SplitJoin(l);
      SplitConcat(Join(l), ':', [':'] + tail);
    }
  }

  lemma DoubledAddress(l: seq<nat>, r: seq<nat>, quad: bool)
    requires IsWords(l) && IsWords(r) && |l| + |r| == 8 && (quad ==> |r| >= 2)
    ensures Address(Doubled(l, r, quad)) == Some(AllBytes(l) + Zeros(2 * |r|))
  {
    DoubledGroups(l, r, quad);
    ReadAcross(l, r, quad);
    FullExpand(AllBytes(l), AllBytes(r));
    if l == [] {
      NoHexes([""] + Ending(r, quad));
      GroupsAt(Doubled(l, r, quad)[1..], [""] + Ending(r, quad));
    } else {
      GroupsAt(Doubled(l, r, quad), Hexes(l) + ([""] + Ending(r, quad)));
    }
  }

  lemma NoHexes(g: seq<string>)
    ensures Hexes([]) + g == g
  {
  }

  lemma FullExpand(x: seq<byte>, y: seq<byte>)
    requires |x| + |y| == 16
    ensures Expand(Parts(x + y, |x|)) == Some(x + Zeros(|y|))
  {
    Halves(x, y);
  }

  /** What the groups give, once they are known. */
  lemma GroupsAt(s: string, g: seq<string>)
    requires Split(s, ':') == g
    ensures Groups(s) == var p := Read(g, [], -1); if p.None? then None else Expand(p.value)
  {
  }

  lemma ReadAcross(l: seq<nat>, r: seq<nat>, quad: bool)
    requires IsWords(l) && IsWords(r) && |l| + |r| == 8 && (quad ==> |r| >= 2)
    ensures Read(Hexes(l) + ([""] + Ending(r, quad)), [], -1) == Some(Parts(AllBytes(l) + AllBytes(r), 2 * |l|))
  {
    var g := Ending(r, quad);
    ReadHexes(l, [""] + g, [], -1);
    assert [] + AllBytes(l) == AllBytes(l) && ([""] + g)[1..] == g && |g| >= 1;
    ReadEnd(r, quad, AllBytes(l), 2 * |l|);
  }

  lemma PlainAddress(ws: seq<nat>, quad: bool)
    requires |ws| == 8 && IsWords(ws)
    ensures Address(EndText(ws, quad)) == Some(AllBytes(ws))
  {
    var s := EndText(ws, quad);
    SplitEnd(ws, quad);
    ReadEnd(ws, quad, [], -1);
    assert [] + AllBytes(ws) == AllBytes(ws);
    SplitJoin(if quad then ws[..|ws| - 2] else ws);
    assert s != [] && s[0] != ':';
  }

  /** A `::` in a full address is not ignored: what follows it is replaced by zeros.  It is as if it were
      not there exactly if the groups after it are zero.  The `::` may stand anywhere among the eight
      groups, and the last two may be written as a dotted quad. */
  lemma FullWithDoubleColon(ws: seq<nat>, b: nat, quad: bool)
    requires |ws| == 8 && IsWords(ws) && b <= 8 && (quad ==> b <= 6)
    ensures var s := Doubled(ws[..b], ws[b..], quad);
      && Address(s) == Some(AllBytes(ws[..b]) + Zeros(2 * (8 - b)))
      && (Address(s) == Address(EndText(ws, quad)) <==> ZeroRun(ws, b, 8 - b))
  {
    var l, r := ws[..b], ws[b..];
    assert l + r == ws;
    DoubledAddress(l, r, quad);
    PlainAddress(ws, quad);
    BytesConcat(l, r);
    LostBytes(l, r);
  }

  /** So if the last group is not zero, as in `1:2:3:4::5:6:7:8` and in `::` before eight groups, the `::`
      changes the address wherever it stands before that group. */
  lemma NeverIgnored(ws: seq<nat>, b: nat, quad: bool)
    requires |ws| == 8 && IsWords(ws) && ws[7] != 0 && b <= 7 && (quad ==> b <= 6)
    ensures Address(Doubled(ws[..b], ws[b..], quad)) != Address(EndText(ws, quad))
  {
    FullWithDoubleColon(ws, b, quad);
    if ZeroRun(ws, b, 8 - b) { LastOfRun(ws, b); }
  }

  lemma LastOfRun(ws: seq<nat>, b: nat)
    requires |ws| == 8 && b <= 7 && ZeroRun(ws, b, 8 - b)
    ensures ws[7] == 0
  {
  }

  lemma LostBytes(l: seq<nat>, r: seq<nat>)
    requires IsWords(l) && IsWords(r)
    ensures AllBytes(l) + Zeros(2 * |r|) == AllBytes(l) + AllBytes(r) <==> ZeroRun(l + r, |l|, |r|)
  {
    assert forall i :: 0 <= i < |r| ==> r[i] == (l + r)[|l| + i];
    Halves(AllBytes(l), Zeros(2 * |r|));
    Halves(AllBytes(l), AllBytes(r));
    if ZeroRun(l + r, |l|, |r|) {
      BytesOfZeros(r);
    } else if AllBytes(r) == Zeros(2 * |r|) {
      ZeroBytes(r);
    }
  }

  lemma {:induction false} ZeroBytes(ws: seq<nat>)
    requires IsWords(ws) && AllBytes(ws) == Zeros(2 * |ws|)
    ensures ZeroRun(ws, 0, |ws|)
  {
    if ws != [] {
      assert AllBytes(ws)[0] == ws[0] / 256 && AllBytes(ws)[1] == ws[0] % 256;
      assert AllBytes(ws)[2..] == AllBytes(ws[1..]);
      ZeroBytes(ws[1..]);
      assert forall i :: 1 <= i < |ws| ==> ws[i] == ws[1..][i - 1];
    }
  }
}
