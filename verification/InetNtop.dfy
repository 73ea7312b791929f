/**
 zmailer/libc/inet_ntop.c: from address to text.  Buffers are arrays of characters in which a text
 ends with a NUL.
 */
module InetNtop {
  import opened Numerals
  import opened Bytes
  import opened Sequences
  import opened InetText
  import opened InetPton
  import InetForm

  const SIZEOF_TMP := 46  // "ffff:ffff:ffff:ffff:ffff:ffff:255.255.255.255" and its NUL

  /** buf holds the text s from position 0 on. */
  predicate Holds(buf: array<char>, s: string)
    reads buf
  {
    |s| < buf.Length && buf[..|s|] == s && buf[|s|] == '\0'
  }

  /** sprintf and strcpy: writes s and a NUL at tp. */
  method Put(buf: array<char>, tp: nat, s: string)
    requires tp + |s| < buf.Length
    modifies buf
    ensures buf[..tp + |s|] == old(buf[..tp]) + s && buf[tp + |s|] == '\0'
    ensures forall j :: tp + |s| < j < buf.Length ==> buf[j] == old(buf[j])
  {
    for i := 0 to |s|
      invariant forall j :: 0 <= j < buf.Length && !(tp <= j < tp + i) ==> buf[j] == old(buf[j])
      invariant forall j :: 0 <= j < i ==> buf[tp + j] == s[j]
    {
      buf[tp + i] := s[i];
    }
    buf[tp + |s|] := '\0';
  }

  /** *tp++ = ':' */
  method PutColon(buf: array<char>, tp: nat)
    requires tp < buf.Length
    modifies buf
    ensures buf[..tp + 1] == old(buf[..tp]) + ":"
  {
    buf[tp] := ':';
  }

  /** inet_ntop4.  The test compares the length without the NUL: a text of exactly `size` characters is
      accepted and needs size + 1 places. */
  method InetNtop4(src: seq<byte>, dst: array<char>, at: nat, size: nat) returns (ok: bool)
    requires |src| == 4
    requires |Text4(src)| <= size ==> at + |Text4(src)| < dst.Length
    modifies dst
    ensures ok <==> |Text4(src)| <= size
    ensures !ok ==> dst[..] == old(dst[..])
    ensures ok ==> dst[..at + |Text4(src)|] == old(dst[..at]) + Text4(src) && dst[at + |Text4(src)|] == '\0'
    ensures ok ==> forall j :: at + |Text4(src)| < j < dst.Length ==> dst[j] == old(dst[j])
  {
    QuadOfText4(src);
    var tmp := new char[16](_ => '\0');
    var text := Text4(src);
    Put(tmp, 0, text);
    assert tmp[..|text|] == text;
    if |text| > size { return false; }
    Put(dst, at, tmp[..|text|]);
    ok := true;
  }

  /** So what lies behind the `size` places of dst stays as it was exactly if the text does not have `size`
      characters. */
  method Ntop4Inside(src: seq<byte>, dst: array<char>, size: nat) returns (ok: bool)
    requires |src| == 4 && size < dst.Length && dst[size] != '\0'
    modifies dst
    ensures ok <==> |Text4(src)| <= size
    ensures dst[size..] == old(dst[size..]) <==> |Text4(src)| != size
  {
    ghost var was := dst[..];
    ok := InetNtop4(src, dst, 0, size);
    assert dst[size..][0] == dst[size] && was[size..] == old(dst[size..]) && was[size..][0] == was[size];
  }

  lemma Ones()
    ensures Text4([1, 1, 1, 1]) == "1.1.1.1"
  {
    assert ShowNumber(1) == "1";
  }

  /** 1.1.1.1 and a size of 7: the NUL goes into the eighth place. */
  method NulBehind() returns (ok: bool, dst: array<char>)
    ensures ok && dst.Length == 8 && dst[7] == '\0'
  {
    dst := new char[8](_ => 'x');
    Ones();
    ok := InetNtop4([1, 1, 1, 1], dst, 0, 7);
  }

  // ------------------------------------------------------------------ the words and their zero runs

  method CopyWords(src: seq<byte>) returns (words: array<nat>)
    requires |src| == 16
    ensures fresh(words) && words[..] == Words(src)
  {
    words := new nat[8](_ => 0);
    for i := 0 to 16
      invariant forall j :: 0 <= j < i / 2 ==> words[j] == Word(src, j)
      invariant forall j :: (i + 1) / 2 <= j < 8 ==> words[j] == 0
      invariant i % 2 == 1 ==> words[i / 2] == Both(src[i - 1], 0)
    {
      words[i / 2] := words[i / 2] + if i % 2 == 0 then Both(src[i], 0) else src[i];
    }
    assert words[..] == Words(src);
  }

  /** Among the runs that end at or before `end`, (base, len) is the longest and leftmost. */
  ghost predicate BestSoFar(ws: seq<nat>, end: int, base: int, len: int) {
    && (base != -1 ==> len >= 1 && ZeroRun(ws, base, len) && base + len <= end)
    && forall b, l :: ZeroRun(ws, b, l) && l >= 1 && b + l <= end ==> base != -1 && l <= len && (l == len ==> base <= b)
  }

  /** The words from base up to i are zero, and the run does not extend to the left; base is -1 if
      word i - 1 is not zero. */
  ghost predicate CurrentRun(ws: seq<nat>, i: int, base: int, len: int) {
    && 0 <= i <= |ws|
    && if base == -1 then i == 0 || ws[i - 1] != 0
       else 0 <= base < i && len == i - base && ZeroRun(ws, base, len) && (base == 0 || ws[base - 1] != 0)
  }

  lemma ZeroIn(ws: seq<nat>, b: int, l: int, i: int)
    requires ZeroRun(ws, b, l) && b <= i < b + l
    ensures ws[i] == 0
  {
  }

  /** The run that has just ended competes with the best one. */
  lemma Compete(ws: seq<nat>, i: int, best: int, bestLen: int, base: int, len: int)
    requires CurrentRun(ws, i, base, len) && base != -1 && BestSoFar(ws, base, best, bestLen)
    ensures best == -1 || len > bestLen ==> BestSoFar(ws, i, base, len)
    ensures best != -1 && len <= bestLen ==> BestSoFar(ws, i, best, bestLen)
  {
    forall b, l | ZeroRun(ws, b, l) && l >= 1 && b + l <= i && b + l > base
      ensures b >= base && l <= len
    {
      if b < base { ZeroIn(ws, b, l, base - 1); }
    }
  }

  lemma NonZeroEnds(ws: seq<nat>, i: int, best: int, bestLen: int)
    requires 0 <= i < |ws| && ws[i] != 0 && BestSoFar(ws, i, best, bestLen)
    ensures BestSoFar(ws, i + 1, best, bestLen)
  {
    forall b, l | ZeroRun(ws, b, l) && l >= 1 && b + l <= i + 1
      ensures b + l <= i
    {
      if b + l == i + 1 { ZeroIn(ws, b, l, i); }
    }
  }

  /** The search for the longest run of zero words, the leftmost if there are several. */
  method FindRun(words: array<nat>) returns (base: int, len: nat)
    ensures base >= -1 && BestRun(words[..], base, len)
  {
    var n := words.Length;
    ghost var ws := words[..];
    base, len := -1, 0;
    var curBase, curLen := -1, 0;
    for i := 0 to n
      invariant base >= -1 && CurrentRun(ws, i, curBase, curLen)
      invariant BestSoFar(ws, if curBase == -1 then i else curBase, base, len)
    {
      if words[i] == 0 {
        if curBase == -1 {
          curBase, curLen := i, 1;
        } else {
          curLen := curLen + 1;
        }
      } else {
        if curBase != -1 {
          Compete(ws, i, base, len, curBase, curLen);
          if base == -1 || curLen > len {
            base, len := curBase, curLen;
          }
          curBase := -1;
        }
        NonZeroEnds(ws, i, base, len);
      }
    }
    if curBase != -1 {
      Compete(ws, n, base, len, curBase, curLen);
      if base == -1 || curLen > len {
        base, len := curBase, curLen;
      }
    }
    if base != -1 && len < 2 {
      base := -1;
    }
  }

  // ------------------------------------------------------------------ the text

  lemma UnitLength(a: seq<byte>, base: int, len: int, i: nat)
    requires |a| == 16 && i < 8 && !(i == 6 && Embedded(Words(a), base, len))
    ensures |Unit(a, base, len, i)| <= 4
  {
    ShowHexLength(Word(a, i));
  }

  lemma {:induction false} LengthUpTo(a: seq<byte>, base: int, len: int, n: nat)
    requires |a| == 16 && n <= 8 && (Embedded(Words(a), base, len) ==> n <= 6)
    ensures |UpTo(a, base, len, n)| <= 5 * n
  {
    if n > 0 {
      LengthUpTo(a, base, len, n - 1);
      UnitLength(a, base, len, n - 1);
    }
  }

  /** In front of an embedded IPv4 address there is room for it. */
  lemma LengthEmbedded(a: seq<byte>, len: int)
    requires |a| == 16 && Embedded(Words(a), 0, len)
    ensures |UpTo(a, 0, len, 6)| <= 6
  {
    StillOneColon(a, len, len);
    if len == 5 {
      StepOutside(a, 0, len, 6);
      UnitLength(a, 0, len, 5);
    }
  }

  /** Appends the text of word i, or of the last two as an IPv4 address. */
  method PutUnit(src: seq<byte>, words: seq<nat>, base: int, len: nat, i: nat, tmp: array<char>, tp: nat)
    returns (tp': nat, stop: bool)
    requires |src| == 16 && words == Words(src) && i < 8 && tmp.Length == SIZEOF_TMP
    requires tp + (if i == 6 && Embedded(words, base, len) then 15 else 4) < SIZEOF_TMP
    modifies tmp
    ensures tp' == tp + |Unit(src, base, len, i)| < SIZEOF_TMP
    ensures tmp[..tp'] == old(tmp[..tp]) + Unit(src, base, len, i)
    ensures stop <==> i == 6 && Embedded(words, base, len)
  {
    if i == 6 && Embedded(words, base, len) {
      QuadOfText4(src[12..]);
      var done := InetNtop4(src[12..], tmp, tp, SIZEOF_TMP - tp);
      tp', stop := tp + |Text4(src[12..])|, true;
    } else {
      UnitLength(src, base, len, i);
      Put(tmp, tp, ShowHex(words[i]));
      tp', stop := tp + |ShowHex(words[i])|, false;
    }
  }

  lemma Room(a: seq<byte>, base: int, len: int, i: nat)
    requires |a| == 16 && i < 8 && (Embedded(Words(a), base, len) ==> i <= 6)
    ensures |UpTo(a, base, len, i)| + 1 + (if i == 6 && Embedded(Words(a), base, len) then 15 else 4) < SIZEOF_TMP
  {
    LengthUpTo(a, base, len, i);
    if i == 6 && Embedded(Words(a), base, len) { LengthEmbedded(a, len); }
  }

  /** What a word outside the run adds. */
  method PutOutside(src: seq<byte>, words: seq<nat>, base: int, len: nat, i: nat, tmp: array<char>, tp: nat)
    returns (tp': nat, stop: bool)
    requires |src| == 16 && words == Words(src) && i < 8 && tmp.Length == SIZEOF_TMP
    requires tp + 1 + (if i == 6 && Embedded(words, base, len) then 15 else 4) < SIZEOF_TMP
    modifies tmp
    ensures tp' <= SIZEOF_TMP
    ensures tmp[..tp'] == old(tmp[..tp]) + (if i == 0 then "" else ":") + Unit(src, base, len, i)
    ensures stop <==> i == 6 && Embedded(words, base, len)
  {
    tp' := tp;
    if i != 0 {
      PutColon(tmp, tp);
      tp' := tp + 1;
    }
    tp', stop := PutUnit(src, words, base, len, i, tmp, tp');
  }

  /** Appends what word i adds. */
  method PutPiece(src: seq<byte>, words: seq<nat>, base: int, len: nat, i: nat, tmp: array<char>, tp: nat)
    returns (tp': nat, stop: bool)
    requires |src| == 16 && words == Words(src) && i < 8 && tmp.Length == SIZEOF_TMP && tp <= SIZEOF_TMP
    requires Embedded(words, base, len) ==> i <= 6
    requires tmp[..tp] == UpTo(src, base, len, i)
    modifies tmp
    ensures tp' <= SIZEOF_TMP && tmp[..tp'] == UpTo(src, base, len, i + 1)
    ensures stop <==> i == 6 && Embedded(words, base, len)
  {
    Room(src, base, len, i);
    tp', stop := tp, false;
    if InRun(base, len, i) {
      StepInside(src, base, len, i + 1);
      if i == base {
        PutColon(tmp, tp);
        tp' := tp + 1;
      }
    } else {
      StepOutside(src, base, len, i + 1);
      Regroup(tmp[..tp], if i == 0 then "" else ":", Unit(src, base, len, i));
      tp', stop := PutOutside(src, words, base, len, i, tmp, tp);
    }
  }

  /** inet_ntop6, with the run that it has found. */
  method Ntop6(src: seq<byte>, dst: array<char>, size: nat) returns (ok: bool, ghost base: int, ghost len: int)
    requires |src| == 16 && size <= dst.Length
    modifies dst
    ensures base >= -1 && BestRun(Words(src), base, len) && |Text6(src, base, len)| < SIZEOF_TMP
    ensures ok <==> |Text6(src, base, len)| + 1 <= size
    ensures if ok then Holds(dst, Text6(src, base, len)) else dst[..] == old(dst[..])
  {
    var buffer := CopyWords(src);
    var at, n := FindRun(buffer);
    base, len := at, n;
    var words := buffer[..];
    var tmp := new char[SIZEOF_TMP](_ => '\0');
    var tp := Format(src, words, at, n, tmp);
    ghost var text := Text6(src, base, len);
    tmp[tp] := '\0';
    assert tmp[..tp] == text;
    tp := tp + 1;
    if tp > size { return false, base, len; }
    Put(dst, 0, tmp[..tp - 1]);
    assert dst[..0 + |text|] == text;
    ok := true;
  }

  /** inet_ntop6: prints the address, with the longest run of zero words as `::`, if the text and its
      NUL fit into size; the text never leaves tmp, and reading it gives the address back. */
  method InetNtop6(src: seq<byte>, dst: array<char>, size: nat) returns (ok: bool, ghost text: string)
    requires |src| == 16 && size <= dst.Length
    modifies dst
    ensures InetForm.Printed(src, text) && InetForm.Canonical(src, text)
    ensures Address(text) == Some(src) && |text| < SIZEOF_TMP && '\0' !in text
    ensures ok <==> |text| + 1 <= size
    ensures if ok then Holds(dst, text) else dst[..] == old(dst[..])
  {
    ghost var base, len;
    ok, base, len := Ntop6(src, dst, size);
    text := Text6(src, base, len);
    TextFacts(src, base, len, text);
  }

  lemma TextFacts(a: seq<byte>, base: int, len: int, text: string)
    requires |a| == 16 && base >= -1 && BestRun(Words(a), base, len) && text == Text6(a, base, len)
    ensures InetForm.Printed(a, text) && InetForm.Canonical(a, text) && Address(text) == Some(a) && '\0' !in text
  {
    RoundTrip(a, base, len);
    InetForm.TextIsCanonical(a, base, len);
    InetForm.TextIsPrinted(a, base, len);
    NulFree(a, base, len, InetText.Printed(a, base, len));
  }

  /** The formatting loop. */
  method Format(src: seq<byte>, words: seq<nat>, base: int, len: nat, tmp: array<char>) returns (tp: nat)
    requires |src| == 16 && words == Words(src) && tmp.Length == SIZEOF_TMP
    modifies tmp
    ensures tp < SIZEOF_TMP && tmp[..tp] == Text6(src, base, len)
  {
    var i, stop := 0, false;
    tp := 0;
    while i < 8 && !stop
      invariant 0 <= i <= 8 && tp <= SIZEOF_TMP && tmp[..tp] == UpTo(src, base, len, i)
      invariant stop <==> i == 7 && Embedded(words, base, len)
      invariant Embedded(words, base, len) ==> i <= 7
    {
      tp, stop := PutPiece(src, words, base, len, i, tmp, tp);
      i := i + 1;
    }
    assert i == Printed(src, base, len);
    FinalLength(src, base, len);
    if base != -1 && base + len == 8 {
      PutColon(tmp, tp);
      tp := tp + 1;
    }
  }

  lemma {:induction false} NulFree(a: seq<byte>, base: int, len: int, n: nat)
    requires |a| == 16 && n <= 8
    ensures '\0' !in UpTo(a, base, len, n)
  {
    if n > 0 {
      NulFree(a, base, len, n - 1);
      UnitNulFree(a, base, len, n - 1);
    }
  }

  lemma UnitNulFree(a: seq<byte>, base: int, len: int, i: nat)
    requires |a| == 16 && i < 8
    ensures '\0' !in Unit(a, base, len, i)
  {
    forall n: nat ensures '\0' !in ShowNumber(n) && '\0' !in ShowHex(n) {
    }
  }

  lemma FinalLength(a: seq<byte>, base: int, len: int)
    requires |a| == 16
    ensures |UpTo(a, base, len, Printed(a, base, len))| + 2 <= SIZEOF_TMP
  {
    if Embedded(Words(a), base, len) {
      LengthEmbedded(a, len);
      StepOutside(a, 0, len, 7);
      QuadOfText4(a[12..]);
    } else {
      LengthUpTo(a, base, len, 8);
    }
  }

  /** The C string in a buffer. */
  method CString(buf: array<char>, ghost text: string) returns (s: string)
    requires Holds(buf, text) && '\0' !in text
    ensures s == text
  {
    var n := 0;
    while buf[n] != '\0'
      invariant 0 <= n <= |text|
      decreases |text| - n
    {
      assert n < |text|;
      n := n + 1;
    }
    s := buf[..n];
  }

  /** Printing an address and reading the text gives the address back. */
  method ThereAndBack(src: seq<byte>) returns (ok: bool, back: array<byte>)
    requires |src| == 16
    ensures ok && back[..] == src
  {
    var dst, size := new char[SIZEOF_TMP](_ => '\0'), SIZEOF_TMP;
    ghost var text;
    ok, text := InetNtop6(src, dst, size);
    var s := CString(dst, text);
    back := new byte[16](_ => 0);
    ok := InetPton6(s, back);
  }
}
