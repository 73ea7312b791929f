/**
 What the patterns of zmailer/lib/strmatch.c mean, on the text of the pattern.
 */
module Patterns {
  import opened StrMatch
  import opened Sequences

  // ------------------------------------------------------------------ one character

  /** Only the escaped or literal character c is taken. */
  lemma LitFirst(c: char, rest: seq<Atom>, t: string)
    ensures Accepts([Lit(c)] + rest, t) <==> t != [] && t[0] == c && Accepts(rest, t[1..])
  {
    OneCharacter(Lit(c), rest, t);
  }

  predicate Ordinary(c: char) {
    c != '*' && c != '?' && c != '[' && c != '\\'
  }

  predicate AllOrdinary(p: string) {
    forall i :: 0 <= i < |p| ==> Ordinary(p[i])
  }

  /** A pattern without the four special characters, and more after it. */
  lemma {:induction false} OrdinaryThen(p: string, q: string, t: string)
    requires AllOrdinary(p)
    ensures Accepts(Parse(p + q), t) <==> p <= t && Accepts(Parse(q), t[|p|..])
  {
    if p == [] {
      assert p + q == q && t[0..] == t;
    } else {
      var r := p[1..] + q;
      assert (p + q)[1..] == r && (p + q)[0] == p[0];
      assert Parse(p + q) == [Lit(p[0])] + Parse(r);
      LitFirst(p[0], Parse(r), t);
      if t != [] && t[0] == p[0] {
        OrdinaryThen(p[1..], q, t[1..]);
        PrefixStep(p, t);
      }
    }
  }

  lemma PrefixStep(p: string, t: string)
    requires p != [] && t != [] && p[0] == t[0]
    ensures p <= t <==> p[1..] <= t[1..]
    ensures p <= t ==> t[1..][|p| - 1..] == t[|p|..]
  {
    assert p == [p[0]] + p[1..] && t == [t[0]] + t[1..];
  }

  /** It accepts exactly itself. */
  lemma OrdinaryText(p: string, t: string)
    requires AllOrdinary(p)
    ensures Accepts(Parse(p), t) <==> t == p
  {
    assert p + [] == p;
    OrdinaryThen(p, [], t);
    assert p <= t && t[|p|..] == [] ==> t == p;
  }

  /** A backslash in front of every character. */
  function Quoted(t: string): string {
    if t == [] then [] else ['\\', t[0]] + Quoted(t[1..])
  }

  /** With a backslash in front of every character a text accepts exactly itself. */
  lemma {:induction false} QuotedText(t: string, u: string)
    ensures Accepts(Parse(Quoted(t)), u) <==> u == t
  {
    if t != [] {
      var p := Quoted(t);
      assert p[2..] == Quoted(t[1..]) && p[0] == '\\' && p[1] == t[0];
      LitFirst(t[0], Parse(p[2..]), u);
      if u != [] {
        QuotedText(t[1..], u[1..]);
        assert u == [u[0]] + u[1..] && t == [t[0]] + t[1..];
      }
    }
  }

  /** A backslash at the end matches nothing. */
  lemma LoneBackslash(p: string, t: string)
    requires AllOrdinary(p)
    ensures !Accepts(Parse(p + ['\\']), t)
  {
    OrdinaryThen(p, ['\\'], t);
    if p <= t { OneCharacter(Never, [], t[|p|..]); }
  }

  // ------------------------------------------------------------------ wildcards

  function Questions(n: nat): string {
    seq(n, _ => '?')
  }

  /** n question marks accept exactly the texts of n characters. */
  lemma {:induction false} QuestionMarks(n: nat, t: string)
    ensures Accepts(Parse(Questions(n)), t) <==> |t| == n
  {
    if n > 0 {
      assert Questions(n)[1..] == Questions(n - 1) && Questions(n)[0] == '?';
      OneCharacter(Any, Parse(Questions(n - 1)), t);
      if t != [] { QuestionMarks(n - 1, t[1..]); }
    }
  }

  /** A star and ordinary characters accept exactly the texts that end with them. */
  lemma StarThenText(p: string, t: string)
    requires AllOrdinary(p)
    ensures Accepts(Parse(['*'] + p), t) <==> |p| <= |t| && t[|t| - |p|..] == p
  {
    assert (['*'] + p)[1..] == p;
    AnySuffix(Parse(p), t);
    if k :| 0 <= k <= |t| && Accepts(Parse(p), t[k..]) { OrdinaryText(p, t[k..]); }
    if |p| <= |t| { OrdinaryText(p, t[|t| - |p|..]); }
  }

  /** Ordinary characters and a star accept exactly the texts that begin with them. */
  lemma TextThenStar(p: string, t: string)
    requires AllOrdinary(p)
    ensures Accepts(Parse(p + ['*']), t) <==> p <= t
  {
    OrdinaryThen(p, ['*'], t);
    if p <= t {
      var u := t[|p|..];
      assert ['*'][1..] == [];
      AnySuffix([], u);
      assert Accepts([], u[|u|..]);
    }
  }

  // ------------------------------------------------------------------ brackets

  /** Without a range the members are the characters themselves. */
  lemma {:induction false} PlainMembers(m: string, c: char)
    requires '-' !in m
    ensures Member(m, c) <==> c in m
  {
    if m != [] {
      assert m == [m[0]] + m[1..];
      if |m| >= 3 { assert m[1] in m; }
      PlainMembers(m[1..], c);
    }
  }

  function Bracketed(negated: bool, m: string): string {
    (if negated then "[!" else "[") + m + "]"
  }

  lemma CloseIs(p: string, k: nat)
    requires From(p) <= k <= |p| && ']' !in p[From(p)..k] && (k < |p| ==> p[k] == ']')
    requires p != []
    ensures Close(p) == k
  {
    assert forall j :: From(p) <= j < k ==> p[j] in p[From(p)..k];
  }

  lemma AroundMembers(a: string, m: string, c: char, q: string)
    ensures var p, n := a + m + [c] + q, |a| + |m|;
      && p[..|a|] == a && p[|a|..n] == m && p[n] == c && p[n + 1..] == q && (forall i :: 0 <= i < |a| ==> p[i] == a[i])
      && (m != [] ==> p[|a|] == m[0])
  {
  }

  lemma ParseBracketed(negated: bool, m: string, q: string)
    requires ']' !in m && (negated || m == [] || m[0] != '!')
    ensures Parse(Bracketed(negated, m) + q) == [Set(negated, m)] + Parse(q)
  {
    var p := Bracketed(negated, m) + q;
    var n := if negated then 2 else 1;
    AroundMembers(if negated then "[!" else "[", m, ']', q);
    assert Negated(p) == negated;
    CloseIs(p, n + |m|);
  }

  /** A bracket accepts exactly the single characters that are members, or with `!` those that are not. */
  lemma BracketText(negated: bool, m: string, t: string)
    requires ']' !in m && '-' !in m && (negated || m == [] || m[0] != '!')
    ensures Accepts(Parse(Bracketed(negated, m)), t) <==> |t| == 1 && (t[0] in m) != negated
  {
    assert Bracketed(negated, m) + [] == Bracketed(negated, m);
    ParseBracketed(negated, m, []);
    OneCharacter(Set(negated, m), [], t);
    if t != [] { PlainMembers(m, t[0]); }
  }

  lemma ParseUnclosed(negated: bool, m: string)
    requires ']' !in m && (negated || m == [] || m[0] != '!')
    ensures Parse((if negated then "[!" else "[") + m) == [Unclosed(negated, m)]
  {
    var p, n := (if negated then "[!" else "[") + m, if negated then 2 else 1;
    assert p[0] == '[' && (negated ==> p[1] == '!') && (n < |p| ==> p[n] == m[0]);
    assert Negated(p) == negated && p[n..] == m;
    assert p[n..|p|] == m;
    CloseIs(p, |p|);
  }

  /** A bracket that is not closed accepts nothing, or with `!` every text whose first character is not a
      member. */
  lemma UnclosedText(negated: bool, m: string, t: string)
    requires ']' !in m && '-' !in m && (negated || m == [] || m[0] != '!')
    ensures Accepts(Parse((if negated then "[!" else "[") + m), t) <==> negated && t != [] && t[0] !in m
  {
    ParseUnclosed(negated, m);
    LastAtom(Unclosed(negated, m), t);
    if t != [] { PlainMembers(m, t[0]); }
  }

  // ------------------------------------------------------------------ patterns in a row

  /** Neither a bracket nor a backslash is left open at the end. */
  predicate Complete(p: string) {
    forall a :: a in Parse(p) ==> !a.Never? && !a.Unclosed?
  }

  /** How many characters the first atom has. */
  function FirstLength(p: string): (n: nat)
    requires p != []
    ensures 1 <= n
  {
    if p[0] == '\\' then 2 else if p[0] == '[' then Close(p) + 1 else 1
  }

  lemma FirstParsed(p: string)
    requires p != [] && !Parse(p)[0].Never? && !Parse(p)[0].Unclosed?
    ensures FirstLength(p) <= |p| && Parse(p) == [Parse(p)[0]] + Parse(p[FirstLength(p)..])
  {
  }

  lemma FirstAtom(p: string)
    requires p != [] && Complete(p)
    ensures FirstLength(p) <= |p| && Complete(p[FirstLength(p)..])
    ensures Parse(p) == [Parse(p)[0]] + Parse(p[FirstLength(p)..])
  {
    assert Parse(p)[0] in Parse(p);
    FirstParsed(p);
    AtomsOf(Parse(p), Parse(p)[0], Parse(p[FirstLength(p)..]));
  }

  lemma AtomsOf(all: seq<Atom>, a: Atom, rest: seq<Atom>)
    requires all == [a] + rest
    ensures forall b :: b in rest ==> b in all
  {
  }

  lemma SameRest(p: string, q: string, n: nat)
    requires 0 < n <= |p|
    ensures (p + q)[n..] == p[n..] + q && (p + q)[0] == p[0] && (n > 1 ==> (p + q)[1] == p[1])
  {
  }

  /** The first atom does not depend on what follows. */
  lemma SameFirst(p: string, q: string)
    requires p != [] && Complete(p)
    ensures FirstLength(p) <= |p|
    ensures Parse(p + q) == [Parse(p)[0]] + Parse(p[FirstLength(p)..] + q)
  {
    FirstAtom(p);
    var n := FirstLength(p);
    SameRest(p, q, n);
    if p[0] == '[' { SameClose(p, q); }
  }

  lemma SameClose(p: string, q: string)
    requires p != [] && p[0] == '[' && Close(p) < |p|
    ensures Negated(p + q) == Negated(p) && Close(p + q) == Close(p) && (p + q)[From(p)..Close(p)] == p[From(p)..Close(p)]
  {
    assert |p| > 1;
    assert (p + q)[1] == p[1];
    var k := Close(p);
    assert forall j :: 0 <= j < |p| ==> (p + q)[j] == p[j];
    assert (p + q)[k] == ']';
  }

  lemma {:induction false} ParseConcat(p: string, q: string)
    requires Complete(p)
    ensures Parse(p + q) == Parse(p) + Parse(q)
    decreases |p|
  {
    if p == [] {
      assert p + q == q;
    } else {
      FirstAtom(p);
      SameFirst(p, q);
      var n := FirstLength(p);
      ParseConcat(p[n..], q);
      Regroup([Parse(p)[0]], Parse(p[n..]), Parse(q));
    }
  }

  /** t is a text of a followed by one of b. */
  ghost predicate InTwo(a: seq<Atom>, b: seq<Atom>, t: string) {
    exists k :: 0 <= k <= |t| && Accepts(a, t[..k]) && Accepts(b, t[k..])
  }

  lemma {:induction false} AcceptsConcat(a: seq<Atom>, b: seq<Atom>, t: string)
    ensures Accepts(a + b, t) <==> InTwo(a, b, t)
    decreases |a|, 1
  {
    if a == [] {
      assert a + b == b && t[..0] == [] && t[0..] == t;
    } else {
      assert (a + b)[1..] == a[1..] + b && (a + b)[0] == a[0];
      if Accepts(a + b, t) { ConcatSplits(a, b, t); }
      if InTwo(a, b, t) { ConcatJoins(a, b, t); }
    }
  }

  lemma {:induction false} ConcatSplits(a: seq<Atom>, b: seq<Atom>, t: string)
    requires a != [] && (a + b)[1..] == a[1..] + b && Accepts(a + b, t)
    ensures InTwo(a, b, t)
    decreases |a|, 0
  {
    var j :| 0 <= j <= |t| && Admits((a + b)[0], t[..j]) && Accepts((a + b)[1..], t[j..]);
    AcceptsConcat(a[1..], b, t[j..]);
    var k :| 0 <= k <= |t[j..]| && Accepts(a[1..], t[j..][..k]) && Accepts(b, t[j..][k..]);
    Drop(t, j, k);
    assert t[..j + k][..j] == t[..j] && t[..j + k][j..] == t[j..][..k];
    assert Accepts(a, t[..j + k]);
  }

  lemma {:induction false} ConcatJoins(a: seq<Atom>, b: seq<Atom>, t: string)
    requires a != [] && (a + b)[1..] == a[1..] + b && InTwo(a, b, t)
    ensures Accepts(a + b, t)
    decreases |a|, 0
  {
    var k :| 0 <= k <= |t| && Accepts(a, t[..k]) && Accepts(b, t[k..]);
    var j :| 0 <= j <= |t[..k]| && Admits(a[0], t[..k][..j]) && Accepts(a[1..], t[..k][j..]);
    assert t[..k][..j] == t[..j] && t[..k][j..] == t[j..][..k - j];
    Drop(t, j, k - j);
    assert InTwo(a[1..], b, t[j..]);
    AcceptsConcat(a[1..], b, t[j..]);
    assert Admits((a + b)[0], t[..j]) && Accepts((a + b)[1..], t[j..]);
  }

  /** A complete pattern followed by another accepts exactly the texts of the one followed by those of the
      other. */
  lemma InARow(p: string, q: string, t: string)
    requires Complete(p)
    ensures Accepts(Parse(p + q), t) <==> InTwo(Parse(p), Parse(q), t)
  {
    ParseConcat(p, q);
    AcceptsConcat(Parse(p), Parse(q), t);
  }
}
