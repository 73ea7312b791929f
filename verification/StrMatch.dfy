/**
 zmailer/lib/strmatch.c: sh-style globbing, against the language of a pattern.
 */
module StrMatch {

  // ------------------------------------------------------------------ the language of a pattern

  /** Unclosed is what the matcher makes of a bracket without its `]`, Never of a final backslash. */
  datatype Atom = Star | Any | Lit(c: char) | Set(negated: bool, members: string) | Unclosed(negated: bool, members: string) | Never

  /** The first occurrence of c from place i on, or the end. */
  function Find(s: string, c: char, i: nat): (k: nat)
    requires i <= |s|
    ensures i <= k <= |s| && (k < |s| ==> s[k] == c) && forall j :: i <= j < k ==> s[j] != c
    decreases |s| - i
  {
    if i == |s| || s[i] == c then i else Find(s, c, i + 1)
  }

  predicate Negated(p: string) {
    |p| > 1 && p[1] == '!'
  }

  /** Where the members of the bracket at the beginning of p start and end. */
  function From(p: string): nat {
    if Negated(p) then 2 else 1
  }

  function Close(p: string): (k: nat)
    requires p != []
    ensures From(p) <= k <= |p| && forall j :: From(p) <= j < k ==> p[j] != ']'
    ensures k < |p| ==> p[k] == ']'
  {
    Find(p, ']', From(p))
  }

  function Parse(p: string): seq<Atom>
    decreases |p|
  {
    if p == [] then []
    else match p[0]
      case '*' => [Star] + Parse(p[1..])
      case '?' => [Any] + Parse(p[1..])
      case '\\' => if |p| == 1 then [Never] else [Lit(p[1])] + Parse(p[2..])
      case '[' =>
        var k := Close(p);
        if k == |p| then [Unclosed(Negated(p), p[From(p)..])] else [Set(Negated(p), p[From(p)..k])] + Parse(p[k + 1..])
      case c => [Lit(c)] + Parse(p[1..])
  }

  /** The characters that a range x-y adds to x.  Its end is cut to 127, and the character after 255 is 0. */
  predicate Between(x: char, c: char, y: char) {
    c < 128 as char && c <= y && (x < c || x == 255 as char)
  }

  /** Single characters and ranges x-y. */
  predicate Member(m: string, c: char) {
    m != [] && (m[0] == c || (if |m| >= 3 && m[1] == '-' then Between(m[0], c, m[2]) || Member(m[3..], c) else Member(m[1..], c)))
  }

  predicate Admits(a: Atom, t: string) {
    match a
    case Star => true
    case Any => |t| == 1
    case Lit(c) => t == [c]
    case Set(negated, m) => |t| == 1 && Member(m, t[0]) != negated
    case Unclosed(negated, m) => t != [] && negated && !Member(m, t[0])
    case Never => false
  }

  /** t is a concatenation of parts that the atoms admit, in their order. */
  ghost predicate Accepts(atoms: seq<Atom>, t: string) {
    if atoms == [] then t == []
    else exists k :: 0 <= k <= |t| && Admits(atoms[0], t[..k]) && Accepts(atoms[1..], t[k..])
  }

  /** A string of C: characters of 8 bits before the NUL. */
  predicate CString(s: string) {
    forall i :: 0 <= i < |s| ==> '\0' < s[i] < 256 as char
  }

  // ------------------------------------------------------------------ what one atom does

  predicate Single(a: Atom) {
    a.Any? || a.Lit? || a.Set? || a.Never?
  }

  /** An atom that admits single characters only takes the first one. */
  lemma OneCharacter(a: Atom, rest: seq<Atom>, t: string)
    requires Single(a)
    ensures Accepts([a] + rest, t) <==> t != [] && Admits(a, t[..1]) && Accepts(rest, t[1..])
  {
    var atoms := [a] + rest;
    assert atoms[1..] == rest;
    if Accepts(atoms, t) {
      var k :| 0 <= k <= |t| && Admits(atoms[0], t[..k]) && Accepts(atoms[1..], t[k..]);
      assert k == 1;
    }
    if t != [] && Admits(a, t[..1]) && Accepts(rest, t[1..]) {
      assert Admits(atoms[0], t[..1]) && Accepts(atoms[1..], t[1..]);
    }
  }

  lemma AnySuffix(rest: seq<Atom>, t: string)
    ensures Accepts([Star] + rest, t) <==> exists k :: 0 <= k <= |t| && Accepts(rest, t[k..])
  {
    var atoms := [Star] + rest;
    assert atoms[1..] == rest;
    if k :| 0 <= k <= |t| && Accepts(rest, t[k..]) {
      assert Admits(atoms[0], t[..k]) && Accepts(atoms[1..], t[k..]);
    }
  }

  lemma LastAtom(a: Atom, t: string)
    requires a.Unclosed?
    ensures Accepts([a], t) <==> Admits(a, t)
  {
    assert [a][1..] == [];
    if Accepts([a], t) {
      var k :| 0 <= k <= |t| && Admits([a][0], t[..k]) && Accepts([a][1..], t[k..]);
      assert t[..k] == t;
    }
    if Admits(a, t) {
      assert t[..|t|] == t && Accepts([], t[|t|..]);
      assert Admits([a][0], t[..|t|]) && Accepts([a][1..], t[|t|..]);
    }
  }

  // ------------------------------------------------------------------ ranges

  /** The pattern [x-y]. */
  function RangePattern(x: char, y: char): string {
    ['[', x, '-', y, ']']
  }

  lemma ParseRange(x: char, y: char)
    requires x != '!' && x != ']' && y != ']'
    ensures Parse(RangePattern(x, y)) == [Set(false, [x, '-', y])] + []
  {
    var p := RangePattern(x, y);
    assert p[1] == x && p[2] == '-' && p[3] == y && p[4] == ']';
    assert !Negated(p) && Close(p) == 4;
    assert p[1..4] == [x, '-', y] && p[5..] == [];
  }

  lemma MemberOfRange(x: char, y: char, c: char)
    ensures Member([x, '-', y], c) <==> c == x || Between(x, c, y)
  {
    assert [x, '-', y][3..] == [];
  }

  lemma RangeAdmits(x: char, y: char, c: char)
    requires x != '!' && x != ']' && y != ']'
    ensures Accepts(Parse(RangePattern(x, y)), [c]) <==> c == x || Between(x, c, y)
  {
    ParseRange(x, y);
    MemberOfRange(x, y, c);
    OneCharacter(Set(false, [x, '-', y]), [], [c]);
  }

  /** [x-y] takes the characters from x to y, but of those after x only the ones of 7 bits; and a range that
      starts with 255 takes every 7-bit character. */
  lemma RangeExact(x: char, y: char, c: char)
    requires x != '!' && x != ']' && y != ']' && x <= y < 256 as char && c < 256 as char
    ensures (Accepts(Parse(RangePattern(x, y)), [c]) <==> x <= c <= y) <==> if c < 128 as char then x != 255 as char else !(x < c <= y)
  {
    RangeAdmits(x, y, c);
  }

  /** [192-255] does not take 233, and [255-255] takes an a. */
  lemma HighRanges()
    ensures !Accepts(Parse(RangePattern(192 as char, 255 as char)), [233 as char])
    ensures Accepts(Parse(RangePattern(255 as char, 255 as char)), ['a'])
  {
    RangeAdmits(192 as char, 255 as char, 233 as char);
    RangeAdmits(255 as char, 255 as char, 'a');
  }

  // ------------------------------------------------------------------ strmatch

  function At(s: string, i: nat): char {
    if i < |s| then s[i] else '\0'
  }

  /** The loop over a range. */
  method InRange(low: char, high: char, c: char) returns (found: bool)
    requires low < 256 as char && high < 256 as char && '\0' < c < 256 as char
    ensures found <==> Between(low, c, high)
  {
    var c2 := if high < 128 as char then high as int else 127;
    var x := (low as int + 1) % 256;
    ghost var first := x;
    found := false;
    while x <= c2
      invariant first <= x && (found <==> first <= c as int < x)
      invariant x <= c2 + 1 || x == first
    {
      if x == c as int { return true; }
      x := x + 1;
    }
  }

  /** The loop over the members of the bracket at place 0: stops at the `]`, at the end or at c. */
  method ScanMembers(p: string, c: char) returns (pos: nat, found: bool)
    requires p != [] && p[0] == '[' && CString(p) && '\0' < c < 256 as char
    ensures From(p) <= pos <= Close(p)
    ensures found <==> Member(p[From(p)..Close(p)], c)
    ensures !found ==> pos == Close(p)
  {
    ghost var k := Close(p);
    pos := From(p);
    while At(p, pos) != ']' && At(p, pos) != c
      invariant From(p) <= pos <= k
      invariant Member(p[From(p)..k], c) <==> Member(p[pos..k], c)
      decreases k - pos
    {
      if pos >= |p| { return pos, false; }
      ghost var m := p[pos..k];
      assert m[1..] == p[pos + 1..k];
      if At(p, pos + 1) == '-' && At(p, pos + 2) != ']' && At(p, pos + 2) != '\0' {
        assert m[3..] == p[pos + 3..k];
        found := InRange(p[pos], p[pos + 2], c);
        if found { return; }
        pos := pos + 2;
      }
      pos := pos + 1;
    }
    found := At(p, pos) != ']';
  }

  /** The bracket at place 0 of p against the character c: Some(n) if the match goes on after n
      characters of the pattern. */
  datatype Verdict = Fail | Succeed | GoOn(n: nat)

  method Bracket(p: string, c: char) returns (v: Verdict)
    requires p != [] && p[0] == '[' && CString(p) && '\0' < c < 256 as char
    ensures var k, inside := Close(p), Member(p[From(p)..Close(p)], c);
      v == if k == |p| then (if Negated(p) && !inside then Succeed else Fail)
           else if inside == Negated(p) then Fail else GoOn(k + 1)
  {
    var pos, found := ScanMembers(p, c);
    var sense := !Negated(p);
    if !found && pos == |p| {
      return if sense then Fail else Succeed;
    }
    if found != sense { return Fail; }
    while At(p, pos) != ']'
      invariant From(p) <= pos <= Close(p)
      decreases |p| - pos
    {
      pos := pos + 1;
      if At(p, pos) == '\0' { return Fail; }
    }
    return GoOn(pos + 1);
  }

  /** strmatch: a term matches exactly if it is in the language of the pattern. */
  method StrMatch(pattern: string, term: string) returns (matched: bool)
    requires CString(pattern) && CString(term)
    ensures matched <==> Accepts(Parse(pattern), term)
    decreases |pattern|, 1
  {
    var p, t := pattern, term;
    ghost var goal := Accepts(Parse(pattern), term);
    while true
      invariant |p| <= |pattern| && CString(p) && CString(t)
      invariant goal <==> Accepts(Parse(p), t)
      decreases |p|
    {
      if p == [] { return t == []; }
      if p[0] == '*' {
        matched := AfterStar(p, t);
        return;
      }
      var v := OneStep(p, t);
      if v.Fail? { return false; }
      if v.Succeed? { return true; }
      p, t := p[v.n..], t[1..];
    }
  }

  /** A star: the rest of the pattern may match any suffix. */
  method AfterStar(p: string, t: string) returns (matched: bool)
    requires p != [] && p[0] == '*' && CString(p) && CString(t)
    ensures matched <==> Accepts(Parse(p), t)
    decreases |p|, 0
  {
    AnySuffix(Parse(p[1..]), t);
    matched := TryAll(p[1..], t);
  }

  /** One atom other than a star against the next character. */
  method OneStep(p: string, t: string) returns (v: Verdict)
    requires p != [] && p[0] != '*' && CString(p) && CString(t)
    ensures Judged(p, t, v)
  {
    var c := p[0];
    if c == '?' {
      OneCharacter(Any, Parse(p[1..]), t);
      v := if t == [] then Fail else GoOn(1);
    } else if c == '\\' {
      v := Escaped(p, t);
    } else if c == '[' {
      v := OneBracket(p, t);
    } else {
      OneCharacter(Lit(c), Parse(p[1..]), t);
      v := if t == [] || c != t[0] then Fail else GoOn(1);
    }
  }

  /** What a verdict on the first atom of p means for the whole match. */
  ghost predicate Judged(p: string, t: string, v: Verdict) {
    match v
    case Fail => !Accepts(Parse(p), t)
    case Succeed => Accepts(Parse(p), t)
    case GoOn(n) => 0 < n <= |p| && t != [] && (Accepts(Parse(p), t) <==> Accepts(Parse(p[n..]), t[1..]))
  }

  method Escaped(p: string, t: string) returns (v: Verdict)
    requires p != [] && p[0] == '\\'
    ensures Judged(p, t, v)
  {
    if t == [] || |p| == 1 {
      OneCharacter(if |p| == 1 then Never else Lit(p[1]), if |p| == 1 then [] else Parse(p[2..]), t);
      assert |p| == 1 ==> Parse(p) == [Never] + [];
      return Fail;
    }
    OneCharacter(Lit(p[1]), Parse(p[2..]), t);
    v := if p[1] != t[0] then Fail else GoOn(2);
  }

  /** A bracket and the rest of the term. */
  method OneBracket(p: string, t: string) returns (v: Verdict)
    requires p != [] && p[0] == '[' && CString(p) && CString(t)
    ensures Judged(p, t, v)
  {
    ghost var k := Close(p);
    if k == |p| {
      LastAtom(Unclosed(Negated(p), p[From(p)..]), t);
      assert p[From(p)..k] == p[From(p)..];
    } else {
      OneCharacter(Set(Negated(p), p[From(p)..k]), Parse(p[k + 1..]), t);
    }
    if t == [] { return Fail; }
    v := Bracket(p, t[0]);
  }

  /** The loop over the suffixes of the term. */
  method TryAll(pattern: string, term: string) returns (matched: bool)
    requires CString(pattern) && CString(term)
    ensures matched <==> exists k :: 0 <= k <= |term| && Accepts(Parse(pattern), term[k..])
    decreases |pattern|, 2
  {
    var k := 0;
    while true
      invariant 0 <= k <= |term|
      invariant forall j :: 0 <= j < k ==> !Accepts(Parse(pattern), term[j..])
      decreases |term| - k
    {
      matched := StrMatch(pattern, term[k..]);
      if matched || k == |term| { return; }
      k := k + 1;
    }
  }
}
