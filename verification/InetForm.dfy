/**
 The form of a printed IPv6 address, said on its characters and on the bytes of the address: which digits
 it uses, what stands between its colons, where it has a `::`, and when it ends with a dotted quad.
 */
module InetForm {
  import opened Bytes
  import opened Sequences
  import opened Numerals
  import opened Splitting
  import opened InetText

  // ------------------------------------------------------------------ digits

  predicate LowerHex(c: char) {
    '0' <= c <= '9' || 'a' <= c <= 'f'
  }

  /** Lower case, and no zero in front. */
  predicate Shortest(s: string) {
    s != [] && (forall i :: 0 <= i < |s| ==> LowerHex(s[i])) && (s[0] == '0' ==> |s| == 1)
  }

  lemma {:induction false} HexIsShortest(n: nat)
    ensures Shortest(ShowHex(n)) && (n > 0 ==> ShowHex(n)[0] != '0')
  {
    if n >= 16 { HexIsShortest(n / 16); }
  }

  lemma {:induction false} NumberIsShortest(n: nat)
    ensures Shortest(ShowNumber(n)) && (n > 0 ==> ShowNumber(n)[0] != '0')
  {
    if n >= 10 { NumberIsShortest(n / 10); }
  }

  lemma DigitCode(c: char)
    ensures '0' <= c <= '9' ==> IsHex(c) && HexDigit(c) == c as int - 48
    ensures 'a' <= c <= 'f' ==> IsHex(c) && HexDigit(c) == c as int - 87
    ensures 'A' <= c <= 'F' ==> IsHex(c) && HexDigit(c) == c as int - 55
  {
  }

  lemma OneMoreHex(s: string, c: char)
    requires AllHex(s) && IsHex(c)
    ensures AllHex(s + [c]) && Hex(s + [c]) == 16 * Hex(s) + HexDigit(c)
  {
    assert (s + [c])[..|s|] == s;
  }

  /** What one more digit adds, by its character code. */
  lemma NextHex(s: string, c: char)
    requires AllHex(s)
    ensures '0' <= c <= '9' ==> AllHex(s + [c]) && Hex(s + [c]) == 16 * Hex(s) + (c as int - 48)
    ensures 'a' <= c <= 'f' ==> AllHex(s + [c]) && Hex(s + [c]) == 16 * Hex(s) + (c as int - 87)
    ensures 'A' <= c <= 'F' ==> AllHex(s + [c]) && Hex(s + [c]) == 16 * Hex(s) + (c as int - 55)
  {
    DigitCode(c);
    if IsHex(c) { OneMoreHex(s, c); }
  }

  lemma NextDecimal(s: string, c: char)
    requires AllDigits(s) && '0' <= c <= '9'
    ensures AllDigits(s + [c]) && Decimal(s + [c]) == 10 * Decimal(s) + (c as int - 48)
  {
    assert (s + [c])[..|s|] == s;
  }

  // ------------------------------------------------------------------ the characters of a text and of its parts

  /** The character x is in one of the parts. */
  ghost predicate InPart(g: seq<string>, x: char) {
    exists i :: 0 <= i < |g| && x in g[i]
  }

  lemma {:induction false} SplitChars(s: string, c: char, x: char)
    requires x != c
    ensures x in s <==> InPart(Split(s, c), x)
  {
    if s != [] {
      SplitChars(s[1..], c, x);
      var g := Split(s[1..], c);
      var h := Split(s, c);
      assert s == [s[0]] + s[1..];
      if s[0] == c {
        assert forall i :: 0 <= i < |g| ==> h[i + 1] == g[i];
      } else {
        assert h[0] == [s[0]] + g[0] && forall i :: 1 <= i < |g| ==> h[i] == g[i];
      }
    }
  }

  /** Two colons in a row. */
  ghost predicate Double(s: string) {
    exists k :: 0 <= k < |s| - 1 && s[k] == ':' && s[k + 1] == ':'
  }

  /** An empty part that is neither the first nor the last. */
  ghost predicate EmptyInside(g: seq<string>) {
    exists i :: 0 < i < |g| - 1 && g[i] == ""
  }

  lemma DoubleStep(s: string)
    requires s != []
    ensures Double(s) <==> (|s| > 1 && s[0] == ':' && s[1] == ':') || Double(s[1..])
  {
    var t := s[1..];
    if k :| 0 <= k < |s| - 1 && s[k] == ':' && s[k + 1] == ':' {
      if k > 0 { assert t[k - 1] == ':' && t[k - 1 + 1] == ':'; }
    }
    if k :| 0 <= k < |t| - 1 && t[k] == ':' && t[k + 1] == ':' { assert s[k + 1] == ':' && s[k + 1 + 1] == ':'; }
  }

  lemma EmptyStep(h: seq<string>, g: seq<string>)
    requires |g| >= 1 && h == [""] + g
    ensures EmptyInside(h) <==> (|g| > 1 && g[0] == "") || EmptyInside(g)
  {
    if i :| 0 < i < |h| - 1 && h[i] == "" {
      if i > 1 { assert g[i - 1] == ""; }
    }
    if i :| 0 < i < |g| - 1 && g[i] == "" { assert h[i + 1] == ""; }
    if |g| > 1 && g[0] == "" { assert h[1] == ""; }
  }

  lemma {:induction false} DoubleIsEmptyInside(s: string)
    ensures Double(s) <==> EmptyInside(Split(s, ':'))
  {
    if s != [] {
      var g, h := Split(s[1..], ':'), Split(s, ':');
      DoubleIsEmptyInside(s[1..]);
      DoubleStep(s);
      if s[0] == ':' {
        EmptyStep(h, g);
        assert |s| > 1 && s[1] == ':' <==> |g| > 1 && g[0] == "";
      } else {
        assert forall i :: 0 < i < |g| ==> h[i] == g[i];
      }
    }
  }

  // ------------------------------------------------------------------ when the text ends with a dotted quad

  /** IPv4-compatible and IPv4-mapped addresses, on their bytes. */
  predicate MapsQuad(a: seq<byte>)
    requires |a| == 16
  {
    a[..10] == Zeros(10) && (a[10..12] == [255, 255] || (a[10..12] == [0, 0] && a[12..14] != [0, 0]))
  }

  lemma ZeroWord(a: seq<byte>, i: nat)
    requires |a| == 16 && i < 8
    ensures Word(a, i) == 0 <==> a[2 * i] == 0 && a[2 * i + 1] == 0
    ensures Word(a, i) == 0xffff <==> a[2 * i] == 255 && a[2 * i + 1] == 255
  {
  }

  predicate MapsWords(ws: seq<nat>)
    requires |ws| == 8
  {
    ZeroRun(ws, 0, 5) && (ws[5] == 0xffff || (ws[5] == 0 && ws[6] != 0))
  }

  predicate ZeroPair(a: seq<byte>, i: nat)
    requires |a| == 16 && i < 8
  {
    a[2 * i] == 0 && a[2 * i + 1] == 0
  }

  lemma ZeroPairWord(a: seq<byte>, i: nat)
    requires |a| == 16 && i < 8
    ensures Word(a, i) == 0 <==> ZeroPair(a, i)
  {
  }

  /** The first five pairs of bytes are zero. */
  predicate FivePairs(a: seq<byte>)
    requires |a| == 16
  {
    ZeroPair(a, 0) && ZeroPair(a, 1) && ZeroPair(a, 2) && ZeroPair(a, 3) && ZeroPair(a, 4)
  }

  lemma TenBytes(a: seq<byte>)
    requires |a| == 16
    ensures a[..10] == Zeros(10) <==> FivePairs(a)
  {
    assert a[..10] == [a[0], a[1], a[2], a[3], a[4], a[5], a[6], a[7], a[8], a[9]];
    assert Zeros(10) == [0, 0, 0, 0, 0, 0, 0, 0, 0, 0];
  }

  lemma RunOfPairs(a: seq<byte>, ws: seq<nat>)
    requires |a| == 16 && |ws| == 8 && forall i {:trigger ws[i]} :: 0 <= i < 8 ==> (ws[i] == 0 <==> ZeroPair(a, i))
    ensures FivePairs(a) <==> ZeroRun(ws, 0, 5)
  {
    assert ZeroRun(ws, 0, 5) ==> ws[0] == ws[1] == ws[2] == ws[3] == ws[4] == 0;
  }

  lemma FiveWords(a: seq<byte>)
    requires |a| == 16
    ensures a[..10] == Zeros(10) <==> ZeroRun(Words(a), 0, 5)
  {
    forall i | 0 <= i < 8 ensures Words(a)[i] == 0 <==> ZeroPair(a, i) { ZeroPairWord(a, i); }
    TenBytes(a);
    RunOfPairs(a, Words(a));
  }

  lemma TwoBytes(a: seq<byte>, i: nat, x: byte, y: byte)
    requires i + 2 <= |a|
    ensures a[i..i + 2] == [x, y] <==> a[i] == x && a[i + 1] == y
  {
    assert a[i..i + 2] == [a[i], a[i + 1]];
  }

  lemma MapsBoth(a: seq<byte>)
    requires |a| == 16
    ensures MapsQuad(a) <==> MapsWords(Words(a))
  {
    FiveWords(a);
    ZeroWord(a, 5); ZeroWord(a, 6);
    TwoBytes(a, 10, 255, 255);
    TwoBytes(a, 10, 0, 0);
    TwoBytes(a, 12, 0, 0);
  }

  lemma EmbeddedMeans(ws: seq<nat>, base: int, len: int)
    requires |ws| == 8 && base >= -1 && BestRun(ws, base, len)
    ensures Embedded(ws, base, len) <==> MapsWords(ws)
  {
    if Embedded(ws, base, len) && len == 6 && ws[6] == 0 { assert ZeroRun(ws, 0, 7); }
    if MapsWords(ws) {
      assert ZeroRun(ws, 0, if ws[5] == 0 then 6 else 5);
    }
  }

  // ------------------------------------------------------------------ the parts between the colons

  /** A part that is a word, or the dotted quad at the end of address a. */
  predicate IsPart(a: seq<byte>, p: string)
    requires |a| == 16
  {
    p == "" || Shortest(p) || (MapsQuad(a) && p == Text4(a[12..]))
  }

  ghost predicate AllParts(a: seq<byte>, g: seq<string>)
    requires |a| == 16
  {
    forall i :: 0 <= i < |g| ==> IsPart(a, g[i])
  }

  lemma HexesAreParts(a: seq<byte>, ws: seq<nat>)
    requires |a| == 16
    ensures AllParts(a, Hexes(ws)) && forall i :: 0 <= i < |ws| ==> Hexes(ws)[i] != ""
  {
    forall i | 0 <= i < |ws| ensures Shortest(Hexes(ws)[i]) { HexIsShortest(ws[i]); }
  }

  /** What the parts g of a text say about the address: the words before the run and after it are in their
      places, a run leaves one empty part, with one more at an end of the text, and the dotted quad is the
      last part. */
  ghost predicate InPlace(a: seq<byte>, g: seq<string>, base: int, len: int)
    requires |a| == 16
  {
    var ws, quad := Words(a), MapsQuad(a);
    if base == -1 then g == Hexes(ws) && !quad
    else
      && 0 <= base && 2 <= len && base + len <= 8 && (quad ==> len <= 6)
      && g == Hexes(ws[..base]) + (if base == 0 then ["", ""] else [""])
              + (if quad then Hexes(ws[len..6]) + [Text4(a[12..])] else if base + len == 8 then [""] else Hexes(ws[base + len..]))
  }

  lemma SplitText(a: seq<byte>, base: int, len: int)
    requires |a| == 16 && base >= -1 && BestRun(Words(a), base, len)
    ensures InPlace(a, Split(Text6(a, base, len), ':'), base, len)
    ensures Embedded(Words(a), base, len) <==> MapsQuad(a)
  {
    var ws := Words(a);
    MapsBoth(a);
    EmbeddedMeans(ws, base, len);
    if base == -1 {
      PlainGroups(a, len);
    } else if Embedded(ws, base, len) {
      EmbeddedGroups(a, len);
      QuadGroups(ws, Hexes(ws[len..6]) + [Text4(a[12..])]);
    } else {
      RunGroups(a, base, len);
      assert ws[0..base] == ws[..base];
    }
  }

  lemma QuadGroups(ws: seq<nat>, tail: seq<string>)
    ensures ["", ""] + tail == Hexes(ws[..0]) + ["", ""] + tail
  {
    assert Hexes(ws[..0]) == [];
  }

  lemma PlainGroups(a: seq<byte>, len: int)
    requires |a| == 16
    ensures Split(Text6(a, -1, len), ':') == Hexes(Words(a))
  {
    GroupsBefore(a, -1, len, 8);
    assert Text6(a, -1, len) == UpTo(a, -1, len, 8);
    assert Words(a)[0..8] == Words(a) && [] + Hexes(Words(a)) == Hexes(Words(a));
  }

  /** What stands behind the run. */
  function Behind(a: seq<byte>, base: nat, len: nat): (t: seq<string>)
    requires |a| == 16 && base + len <= 8 && (MapsQuad(a) ==> len <= 6)
    ensures |t| >= 1
  {
    var ws := Words(a);
    if MapsQuad(a) then Hexes(ws[len..6]) + [Text4(a[12..])] else if base + len == 8 then [""] else Hexes(ws[base + len..])
  }

  lemma BehindParts(a: seq<byte>, base: nat, len: nat)
    requires |a| == 16 && base + len <= 8 && (MapsQuad(a) ==> len <= 6)
    ensures AllParts(a, Behind(a, base, len))
    ensures MapsQuad(a) ==> Behind(a, base, len)[|Behind(a, base, len)| - 1] == Text4(a[12..])
  {
    HexesAreParts(a, Words(a)[base + len..]);
    if MapsQuad(a) { HexesAreParts(a, Words(a)[len..6]); }
  }

  lemma PartsForm(a: seq<byte>, g: seq<string>, base: int, len: int)
    requires |a| == 16 && InPlace(a, g, base, len)
    ensures AllParts(a, g) && (EmptyInside(g) <==> base != -1)
    ensures g != [] && (MapsQuad(a) ==> g[|g| - 1] == Text4(a[12..]))
  {
    var ws := Words(a);
    if base == -1 {
      HexesAreParts(a, ws);
    } else {
      HexesAreParts(a, ws[..base]);
      BehindParts(a, base, len);
      Around(a, Hexes(ws[..base]), if base == 0 then ["", ""] else [""], Behind(a, base, len), if base == 0 then 1 else base);
      assert g == Hexes(ws[..base]) + (if base == 0 then ["", ""] else [""]) + Behind(a, base, len);
    }
  }

  lemma Around(a: seq<byte>, x: seq<string>, y: seq<string>, z: seq<string>, i: nat)
    requires |a| == 16 && AllParts(a, x) && AllParts(a, z) && |z| >= 1 && (forall j :: 0 <= j < |y| ==> y[j] == "")
    requires 0 < i && |x| <= i < |x| + |y|
    ensures AllParts(a, x + y + z) && EmptyInside(x + y + z) && (x + y + z)[|x + y + z| - 1] == z[|z| - 1]
  {
    var g := x + y + z;
    assert g[i] == y[i - |x|] == "";
    forall j | 0 <= j < |g| ensures IsPart(a, g[j]) {
      assert g[j] == if j < |x| then x[j] else if j < |x| + |y| then y[j - |x|] else z[j - |x| - |y|];
    }
  }

  // ------------------------------------------------------------------ the characters

  lemma QuadChars(q: seq<byte>, x: char)
    requires |q| == 4 && x in Text4(q)
    ensures LowerHex(x) || x == '.'
  {
    forall i | 0 <= i < 4 ensures Shortest(ShowNumber(q[i])) { NumberIsShortest(q[i]); }
  }

  lemma DotInQuad(q: seq<byte>)
    requires |q| == 4
    ensures '.' in Text4(q)
  {
    assert Text4(q)[|ShowNumber(q[0])|] == '.';
  }

  /** Which characters the parts have. */
  lemma PartChars(a: seq<byte>, g: seq<string>, x: char)
    requires |a| == 16 && AllParts(a, g) && g != [] && (MapsQuad(a) ==> g[|g| - 1] == Text4(a[12..]))
    ensures InPart(g, x) ==> LowerHex(x) || x == '.'
    ensures InPart(g, '.') <==> MapsQuad(a)
  {
    if i :| 0 <= i < |g| && x in g[i] {
      assert IsPart(a, g[i]);
      if x in Text4(a[12..]) { QuadChars(a[12..], x); }
    }
    if i :| 0 <= i < |g| && '.' in g[i] { assert IsPart(a, g[i]); }
    if MapsQuad(a) { DotInQuad(a[12..]); }
  }

  /** Words i and i + 1 are zero, on the bytes. */
  predicate ZeroPairsAt(a: seq<byte>, i: int)
    requires |a| == 16
  {
    0 <= i < 7 && a[2 * i..2 * i + 4] == [0, 0, 0, 0]
  }

  ghost predicate TwoZeroWords(a: seq<byte>)
    requires |a| == 16
  {
    exists i :: ZeroPairsAt(a, i)
  }

  lemma FourBytes(a: seq<byte>, i: nat)
    requires |a| == 16 && i < 7
    ensures ZeroPairsAt(a, i) <==> ZeroRun(Words(a), i, 2)
  {
    ZeroPairWord(a, i);
    ZeroPairWord(a, i + 1);
    assert a[2 * i..2 * i + 4] == [a[2 * i], a[2 * i + 1], a[2 * (i + 1)], a[2 * (i + 1) + 1]];
    RunAt(Words(a), i);
  }

  lemma RunAt(ws: seq<nat>, i: nat)
    requires i + 2 <= |ws|
    ensures ZeroRun(ws, i, 2) <==> ws[i] == 0 && ws[i + 1] == 0
  {
  }

  lemma RunOfTwo(a: seq<byte>, base: int, len: int)
    requires |a| == 16 && base >= -1 && BestRun(Words(a), base, len)
    ensures TwoZeroWords(a) <==> base != -1
  {
    if i :| ZeroPairsAt(a, i) { FourBytes(a, i); }
    if base != -1 {
      assert ZeroRun(Words(a), base, 2);
      FourBytes(a, base);
    }
  }

  /** The form of the text of address a: lower-case digits, colons and dots; words without leading zeros; a
      `::` exactly if two words in a row are zero; and a dotted quad at the end exactly for IPv4-compatible
      and IPv4-mapped addresses. */
  ghost predicate Canonical(a: seq<byte>, text: string)
    requires |a| == 16
  {
    && (forall c :: c in text ==> '0' <= c <= '9' || 'a' <= c <= 'f' || c == ':' || c == '.')
    && AllParts(a, Split(text, ':'))
    && (Double(text) <==> TwoZeroWords(a))
    && ('.' in text <==> MapsQuad(a))
    && (MapsQuad(a) ==> Split(text, ':')[|Split(text, ':')| - 1] == Text4(a[12..]))
  }

  lemma TextIsCanonical(a: seq<byte>, base: int, len: int)
    requires |a| == 16 && base >= -1 && BestRun(Words(a), base, len)
    ensures Canonical(a, Text6(a, base, len))
  {
    var text := Text6(a, base, len);
    var g := Split(text, ':');
    SplitText(a, base, len);
    PartsForm(a, g, base, len);
    DoubleIsEmptyInside(text);
    RunOfTwo(a, base, len);
    SplitChars(text, ':', '.');
    PartChars(a, g, '.');
    forall c | c in text && c != ':' ensures LowerHex(c) || c == '.' {
      SplitChars(text, ':', c);
      PartChars(a, g, c);
    }
  }

  /** The parts of the text are the words around the leftmost longest run of zero words. */
  ghost predicate Printed(a: seq<byte>, text: string)
    requires |a| == 16
  {
    exists base, len :: PrintedWith(a, text, base, len)
  }

  ghost predicate PrintedWith(a: seq<byte>, text: string, base: int, len: int)
    requires |a| == 16
  {
    base >= -1 && BestRun(Words(a), base, len) && InPlace(a, Split(text, ':'), base, len)
  }

  lemma TextIsPrinted(a: seq<byte>, base: int, len: int)
    requires |a| == 16 && base >= -1 && BestRun(Words(a), base, len)
    ensures Printed(a, Text6(a, base, len))
  {
    SplitText(a, base, len);
    assert PrintedWith(a, Text6(a, base, len), base, len);
  }

  /** The four numbers of a dotted quad, without leading zeros. */
  lemma QuadParts(q: seq<byte>)
    requires |q| == 4
    ensures var g := Split(Text4(q), '.');
      |g| == 4 && forall i :: 0 <= i < 4 ==> Shortest(g[i]) && AllDigits(g[i]) && Decimal(g[i]) == q[i]
  {
    forall i | 0 <= i < 4 ensures Shortest(ShowNumber(q[i])) && Split(ShowNumber(q[i]), '.') == [ShowNumber(q[i])] {
      NumberIsShortest(q[i]);
      SplitNumber(q[i]);
    }
    SplitDots(ShowNumber(q[0]), ShowNumber(q[1]), ShowNumber(q[2]), ShowNumber(q[3]));
  }

  // ------------------------------------------------------------------ upper case

  function UpperChar(c: char): char {
    match c
    case 'a' => 'A' case 'b' => 'B' case 'c' => 'C' case 'd' => 'D' case 'e' => 'E' case 'f' => 'F'
    case _ => c
  }

  function Upper(s: string): (u: string)
    ensures |u| == |s| && forall i :: 0 <= i < |s| ==> u[i] == UpperChar(s[i])
  {
    seq(|s|, i requires 0 <= i < |s| => UpperChar(s[i]))
  }

  function UpperAll(g: seq<string>): (h: seq<string>)
    ensures |h| == |g| && forall i :: 0 <= i < |g| ==> h[i] == Upper(g[i])
  {
    seq(|g|, i requires 0 <= i < |g| => Upper(g[i]))
  }

  lemma UpperChars(c: char)
    ensures IsHex(UpperChar(c)) <==> IsHex(c)
    ensures IsHex(c) ==> HexDigit(UpperChar(c)) == HexDigit(c)
    ensures IsDigit(UpperChar(c)) <==> IsDigit(c)
    ensures IsDigit(c) ==> UpperChar(c) == c
  {
  }

  lemma {:induction false} UpperHex(s: string)
    ensures AllHex(Upper(s)) <==> AllHex(s)
    ensures AllHex(s) ==> Hex(Upper(s)) == Hex(s)
  {
    if s != [] {
      var n := |s| - 1;
      assert Upper(s)[..n] == Upper(s[..n]);
      UpperHex(s[..n]);
      UpperChars(s[n]);
      AllHexStep(s);
      AllHexStep(Upper(s));
    }
  }

  lemma AllHexStep(s: string)
    requires s != []
    ensures AllHex(s) <==> AllHex(s[..|s| - 1]) && IsHex(s[|s| - 1])
  {
  }

  lemma UpperDigits(s: string)
    ensures AllDigits(Upper(s)) <==> AllDigits(s)
    ensures AllDigits(s) ==> Upper(s) == s
  {
    forall i | 0 <= i < |s| ensures (IsDigit(Upper(s)[i]) <==> IsDigit(s[i])) && (IsDigit(s[i]) ==> Upper(s)[i] == s[i]) {
      UpperChars(s[i]);
    }
  }

  lemma UpperFirst(c: char, p: string, g: seq<string>)
    ensures UpperAll([[c] + p] + g) == [[UpperChar(c)] + Upper(p)] + UpperAll(g) && UpperAll([""] + g) == [""] + UpperAll(g)
  {
    assert Upper([c] + p) == [UpperChar(c)] + Upper(p) && Upper("") == "";
  }

  lemma UpperSeparator(x: char, c: char)
    requires c == ':' || c == '.'
    ensures UpperChar(x) == c <==> x == c
  {
  }

  lemma {:induction false} SplitUpper(s: string, c: char)
    requires c == ':' || c == '.'
    ensures Split(Upper(s), c) == UpperAll(Split(s, c))
  {
    if s == [] {
      assert Upper(s) == [];
    } else {
      assert Upper(s)[1..] == Upper(s[1..]);
      SplitUpper(s[1..], c);
      var g := Split(s[1..], c);
      UpperSeparator(s[0], c);
      UpperFirst(s[0], g[0], g[1..]);
      UpperFirst(s[0], g[0], g);
      assert UpperAll(g)[1..] == UpperAll(g[1..]);
    }
  }

  lemma UpperOctet(s: string)
    ensures IsOctet(Upper(s)) <==> IsOctet(s)
    ensures IsOctet(s) ==> Decimal(Upper(s)) == Decimal(s)
  {
    UpperDigits(s);
  }

  lemma UpperQuad(s: string)
    ensures Quad(Upper(s)) == Quad(s)
  {
    var g := Split(s, '.');
    SplitUpper(s, '.');
    if |g| == 4 {
      UpperOctet(g[0]); UpperOctet(g[1]); UpperOctet(g[2]); UpperOctet(g[3]);
    }
  }

  lemma {:induction false} UpperRead(g: seq<string>, out: seq<byte>, colon: int)
    requires |g| >= 1 && -1 <= colon <= |out| <= 16
    ensures Read(UpperAll(g), out, colon) == Read(g, out, colon)
    decreases |g|
  {
    UpperHex(g[0]);
    UpperQuad(g[0]);
    if |g| > 1 {
      assert UpperAll(g)[1..] == UpperAll(g[1..]);
      if g[0] == [] {
        if colon < 0 { UpperRead(g[1..], out, |out|); }
      } else if IsGroup(g[0]) && |out| + 2 <= 16 {
        UpperRead(g[1..], out + WordBytes(Hex(g[0])), colon);
      }
    }
  }

  lemma UpperGroups(s: string)
    ensures Groups(Upper(s)) == Groups(s)
  {
    SplitUpper(s, ':');
    UpperRead(Split(s, ':'), [], -1);
  }

  /** The digits a to f may be written in upper case. */
  lemma UpperAddress(s: string)
    ensures Address(Upper(s)) == Address(s)
  {
    UpperGroups(s);
    if s != [] && s[0] == ':' {
      assert Upper(s)[1..] == Upper(s[1..]);
      UpperGroups(s[1..]);
    }
  }

  // ------------------------------------------------------------------ which texts are read

  lemma NoSeparators(p: string)
    requires AllHex(p)
    ensures Split(p, ':') == [p] && Split(p, '.') == [p]
  {
    NoPunctuation(p);
    SplitNone(p, ':');
    SplitNone(p, '.');
  }

  predicate UpTo255(p: string) {
    p != [] && AllDigits(p) && Decimal(p) <= 255
  }

  function FourNumbers(g: seq<string>): Option<seq<byte>>
    requires |g| == 4
  {
    if UpTo255(g[0]) && UpTo255(g[1]) && UpTo255(g[2]) && UpTo255(g[3])
    then Some([Decimal(g[0]), Decimal(g[1]), Decimal(g[2]), Decimal(g[3])]) else None
  }

  /** Four texts of digits, also with leading zeros, are read as a dotted quad exactly if none is empty and no
      number is above 255. */
  lemma QuadOfDigits(p0: string, p1: string, p2: string, p3: string)
    requires AllDigits(p0) && AllDigits(p1) && AllDigits(p2) && AllDigits(p3)
    ensures Quad(p0 + ("." + (p1 + ("." + (p2 + ("." + p3)))))) == FourNumbers([p0, p1, p2, p3])
  {
    DigitsSplit(p0); DigitsSplit(p1); DigitsSplit(p2); DigitsSplit(p3);
    SplitDots(p0, p1, p2, p3);
    FourOctets([p0, p1, p2, p3]);
  }

  lemma DigitsSplit(p: string)
    requires AllDigits(p)
    ensures Split(p, '.') == [p]
  {
    DigitsAreHex(p);
    NoSeparators(p);
  }

  lemma FourOctets(g: seq<string>)
    requires |g| == 4 && AllDigits(g[0]) && AllDigits(g[1]) && AllDigits(g[2]) && AllDigits(g[3])
    ensures Octets(g) == FourNumbers(g)
  {
  }

  /** The texts with colons between them. */
  function WithColons(g: seq<string>): string
    requires g != []
  {
    if |g| == 1 then g[0] else g[0] + ([':'] + WithColons(g[1..]))
  }

  lemma {:induction false} SplitColons(g: seq<string>)
    requires g != [] && forall i :: 0 <= i < |g| ==> AllHex(g[i])
    ensures Split(WithColons(g), ':') == g
  {
    NoSeparators(g[0]);
    if |g| == 1 {
      assert g == [g[0]];
    } else {
      SplitColons(g[1..]);
      SplitConcat(g[0], ':', WithColons(g[1..]));
    }
  }

  predicate Digits(p: string) {
    p != [] && AllHex(p)
  }

  predicate AllGroups(g: seq<string>) {
    forall i {:trigger g[i]} :: 0 <= i < |g| ==> IsGroup(g[i])
  }

  /** What the groups add to the bytes before them. */
  function GroupBytes(g: seq<string>): (b: seq<byte>)
    requires AllGroups(g)
    ensures |b| == 2 * |g|
  {
    if g == [] then [] else WordBytes(Hex(g[0])) + GroupBytes(g[1..])
  }

  /** The high-order byte of each number comes first. */
  lemma {:induction false} HighByteFirst(g: seq<string>, i: nat)
    requires AllGroups(g) && i < |g|
    ensures GroupBytes(g)[2 * i] == Hex(g[i]) / 256 && GroupBytes(g)[2 * i + 1] == Hex(g[i]) % 256
  {
    if i > 0 {
      HighByteFirst(g[1..], i - 1);
      assert GroupBytes(g)[2 * i] == GroupBytes(g[1..])[2 * (i - 1)];
      assert GroupBytes(g)[2 * i + 1] == GroupBytes(g[1..])[2 * (i - 1) + 1];
    }
  }

  lemma {:induction false} ReadDigits(g: seq<string>, out: seq<byte>)
    requires g != [] && |out| + 2 * |g| == 16 && forall i :: 0 <= i < |g| ==> Digits(g[i])
    ensures Read(g, out, -1) ==
      if AllGroups(g) then Some(Parts(out + GroupBytes(g), -1)) else None
    decreases |g|
  {
    NoSeparators(g[0]);
    if IsGroup(g[0]) && |g| > 1 {
      ReadDigits(g[1..], out + WordBytes(Hex(g[0])));
      RestGroups(g);
      if AllGroups(g) {
        Regroup(out, WordBytes(Hex(g[0])), GroupBytes(g[1..]));
      }
    } else if IsGroup(g[0]) {
      assert g[1..] == [] && WordBytes(Hex(g[0])) + [] == WordBytes(Hex(g[0]));
    }
  }

  lemma RestGroups(g: seq<string>)
    requires g != []
    ensures AllGroups(g) <==> IsGroup(g[0]) && AllGroups(g[1..])
  {
    if AllGroups(g[1..]) {
      assert forall i :: 1 <= i < |g| ==> g[i] == g[1..][i - 1];
    }
  }

  predicate Below(g: seq<string>, most: nat): (b: bool)
    requires forall i :: 0 <= i < |g| ==> Digits(g[i])
    ensures most == 0xffff ==> (b <==> AllGroups(g))
  {
    forall i {:trigger g[i]} :: 0 <= i < |g| ==> Digits(g[i]) && Hex(g[i]) <= most
  }

  /** Eight texts of hexadecimal digits, in both cases and also with leading zeros, are read as an address
      exactly if no number is above ffff. */
  lemma EightGroups(g: seq<string>)
    requires |g| == 8 && forall i :: 0 <= i < |g| ==> Digits(g[i])
    ensures Address(WithColons(g)) ==
      if Below(g, 0xffff) then Some(GroupBytes(g)) else None
  {
    SplitColons(g);
    assert WithColons(g)[0] == g[0][0];
    NoPunctuation(g[0]);
    ReadDigits(g, []);
    if AllGroups(g) { assert [] + GroupBytes(g) == GroupBytes(g); }
  }
}
