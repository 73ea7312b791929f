/**
 The tokens of zmailer/lib/rfc822scan.c from the character table alone: which characters a token of each kind
 covers, where it ends, and which errors come with it.
 */
module Rfc822Tokens {
  import opened Bytes
  import opened Sequences
  import opened Rfc822Scan

  // ------------------------------------------------------------------ errors inside a compound token

  /** What the character at place p reports. */
  function ErrorAt(b: seq<byte>, p: nat, d: Delims): seq<Token>
    requires p < |b|
  {
    if Escaped(b, p) || b[p] == d.end then []
    else if b[p] == d.start then (if d.kind == Comment then [] else [Error(IllegalChar)])
    else if b[p] == 13 then [Error(IllegalReturn)] else []
  }

  function ErrorsIn(b: seq<byte>, m: nat, d: Delims): seq<Token>
    requires m <= |b|
  {
    if m == 0 then [] else ErrorsIn(b, m - 1, d) + ErrorAt(b, m - 1, d)
  }

  function Hanging(x: Body): seq<Token> {
    if x.Dangling? then [Error(MissingAfterBackslash)] else []
  }

  lemma MoveErrors(u: seq<byte>, cp: nat, d: Delims, now: nat, m: Move)
    requires cp < |u| && now > 0 && Delimiting(d) && !Escaped(u, cp) && m == MoveAt(u[cp..], d, now)
    ensures m.Go? ==> !Escaped(u, cp + m.step) && ErrorsIn(u, cp + m.step, d) == ErrorsIn(u, cp, d) + m.errors
    ensures m.Stop? ==> m.body.errors == Hanging(m.body)
  {
    assert u[cp..][0] == u[cp];
    if m.Go? && m.step == 2 {
      assert ErrorAt(u, cp, d) == [] && Escaped(u, cp + 1) && ErrorAt(u, cp + 1, d) == [];
      assert ErrorsIn(u, cp + 2, d) == ErrorsIn(u, cp + 1, d) + [] == ErrorsIn(u, cp, d) + [] + [];
    }
  }

  /** x is what remains from cp on. */
  ghost predicate Reported(u: seq<byte>, cp: nat, d: Delims, x: Body) {
    cp + x.len <= |u| && ErrorsIn(u, cp, d) + x.errors == ErrorsIn(u, cp + x.len, d) + Hanging(x)
  }

  lemma ReportedLonger(u: seq<byte>, cp: nat, d: Delims, n: nat, e: seq<Token>, x: Body)
    requires cp + n <= |u| && Reported(u, cp + n, d, x) && ErrorsIn(u, cp + n, d) == ErrorsIn(u, cp, d) + e
    ensures Reported(u, cp, d, Longer(x, n, e))
  {
    Regroup(ErrorsIn(u, cp, d), e, x.errors);
  }

  lemma {:induction false} ErrorsFrom(u: seq<byte>, cp: nat, d: Delims, now: nat)
    requires cp <= |u| && Delimiting(d) && !Escaped(u, cp) && now > 0
    ensures Reported(u, cp, d, Inside(u[cp..], d, now))
    decreases |u| - cp
  {
    if cp < |u| {
      var m := MoveAt(u[cp..], d, now);
      MoveErrors(u, cp, d, now, m);
      if m.Go? {
        ErrorsFrom(u, cp + m.step, d, m.nest);
        ReportedLonger(u, cp, d, m.step, m.errors, Inside(u[cp + m.step..], d, m.nest));
        InsideGo(u, cp, d, now, m);
      } else {
        InsideStop(u, cp, d, now, m);
      }
    } else {
      assert ErrorsIn(u, cp, d) + [] == ErrorsIn(u, cp, d);
    }
  }

  lemma InsideGo(u: seq<byte>, cp: nat, d: Delims, now: nat, m: Move)
    requires cp < |u| && now > 0 && m == MoveAt(u[cp..], d, now) && m.Go?
    ensures Inside(u[cp..], d, now) == Longer(Inside(u[cp + m.step..], d, m.nest), m.step, m.errors)
  {
    Drop(u, cp, m.step);
  }

  lemma InsideStop(u: seq<byte>, cp: nat, d: Delims, now: nat, m: Move)
    requires cp < |u| && now > 0 && m == MoveAt(u[cp..], d, now) && m.Stop?
    ensures Inside(u[cp..], d, now) == m.body
  {
  }

  lemma ErrorsInside(b: seq<byte>, d: Delims)
    requires Delimiting(d)
    ensures var x := Inside(b, d, 1); x.errors == ErrorsIn(b, x.len, d) + Hanging(x)
  {
    assert b[0..] == b;
    ErrorsFrom(b, 0, d, 1);
    var x := Inside(b, d, 1);
    assert [] + x.errors == x.errors;
  }

  // ------------------------------------------------------------------ one token

  /** copyToken takes at most 50000 characters. */
  function Cut(s: seq<byte>): seq<byte> {
    if |s| > 50000 then s[..50000] else s
  }

  /** The first n characters of u are white space, and no more follows. */
  ghost predicate IsSpace(t: Table, u: seq<byte>, n: nat) {
    n <= |u| && (forall p :: 0 <= p < n ==> t[u[p]].w) && (n < |u| ==> !t[u[n]].w)
  }

  ghost predicate IsReturns(t: Table, u: seq<byte>, n: nat) {
    n <= |u| && (forall p :: 0 <= p < n ==> t[u[p]].r) && (n < |u| ==> !t[u[n]].r)
  }

  /** From place m on there are only line feeds up to place n, and no more follow. */
  ghost predicate IsFeeds(t: Table, u: seq<byte>, m: nat, n: nat) {
    m <= n <= |u| && (forall p :: m <= p < n ==> t[u[p]].l) && (n < |u| ==> !t[u[n]].l)
  }

  predicate InAtom(k: Class) {
    !k.w && !k.s && !k.c && !k.l && !k.r
  }

  ghost predicate IsAtom(t: Table, u: seq<byte>, n: nat) {
    1 <= n <= |u| && (forall p :: 1 <= p < n ==> InAtom(t[u[p]])) && (n < |u| ==> !InAtom(t[u[n]]))
  }

  ghost predicate IsControl(t: Table, u: seq<byte>, n: nat) {
    1 <= n <= |u| && (forall p :: 1 <= p < n ==> t[u[p]].c && !t[u[p]].e) && (n < |u| ==> !(t[u[n]].c && !t[u[n]].e))
  }

  /** Two characters are one special: `::`, and a backslash with a special. */
  predicate IsPair(t: Table, u: seq<byte>) {
    |u| > 1 && ((u[0] == 58 && u[1] == 58) || (u[0] == 92 && u[1] != 0 && t[u[1]].s))
  }

  /** The delimiters of a quoted string, a domain literal and a comment. */
  function Delimiters(c: byte): Delims {
    if c == 34 then Delims(34, 34, String) else if c == 91 then Delims(91, 93, DomainLiteral) else Delims(40, 41, Comment)
  }

  /** A compound token of n characters. */
  ghost predicate IsCompound(u: seq<byte>, n: nat, toks: seq<Token>)
    requires u != []
  {
    var d, b := Delimiters(u[0]), u[1..];
    if NestedUpTo(b, |b|, d, 1) then
      var m := if Escaped(b, |b|) then |b| - 1 else |b|;
      n == |u| && m >= 0 && toks == ErrorsIn(b, m, d) + (if Escaped(b, |b|) then [Error(MissingAfterBackslash)] else [])
        + [Error(MissingClosing(d.end)), Token(d.kind, Cut(b[..m]))]
    else
      2 <= n <= |u| && ClosesAt(b, n - 2, d, 1) && toks == ErrorsIn(b, n - 2, d) + [Token(d.kind, Cut(b[..n - 2]))]
  }

  /** A fold that begins with carriage returns. */
  ghost predicate IsFold(t: Table, u: seq<byte>, n: nat, toks: seq<Token>) {
    exists m :: IsReturns(t, u, m) && FoldAfter(t, u, m, n, toks)
  }

  ghost predicate FoldAfter(t: Table, u: seq<byte>, m: nat, n: nat, toks: seq<Token>)
    requires m <= |u|
  {
    if m == |u| || !t[u[m]].l then n == m && toks == [Error(ReturnWithoutFeed), Token(Fold, Cut(u[..n]))]
    else if m + 1 == |u| then n == m && toks == [Token(Fold, Cut(u[..n]))]
    else IsFeeds(t, u, m, n) && toks == [Error(TooManyFeeds(1)), Token(Fold, Cut(u[..n]))]
  }

  /** The first token of u takes n characters, and toks are this token behind its errors. */
  ghost predicate FirstToken(t: Table, u: seq<byte>, n: nat, toks: seq<Token>)
    requires u != []
  {
    var k := t[u[0]];
    && 0 < n <= |u|
    && if k.w then IsSpace(t, u, n) && toks == [Token(Space, Cut(u[..n]))]
       else if k.r then IsFold(t, u, n, toks)
       else if k.l then IsFeeds(t, u, 0, n) && toks == [Error(TooManyFeeds(2)), Token(Fold, Cut(u[..n]))]
       else if k.s && (u[0] == 40 || u[0] == 34 || u[0] == 91) then IsCompound(u, n, toks)
       else if k.s then n == (if IsPair(t, u) then 2 else 1) && toks == [Token(Special, Cut(u[..n]))]
       else if !k.c && !k.e then IsAtom(t, u, n) && toks == [Token(Atom, Cut(u[..n]))]
       else IsControl(t, u, n)
            && toks == [Error(IllegalControl(n < |u| && t[u[n]].e, n > 1)), Token(Atom, Cut(u[..n]))]
  }

  // ------------------------------------------------------------------ the scanner finds these tokens

  lemma {:induction false} RunIs(t: Table, s: seq<byte>, m: Class -> bool)
    ensures var n := Run(t, s, m); (forall p :: 0 <= p < n ==> m(t[s[p]])) && (n < |s| ==> !m(t[s[n]]))
  {
    if s != [] && m(t[s[0]]) {
      RunIs(t, s[1..], m);
      var n := Run(t, s[1..], m);
      forall p | 0 <= p < n + 1 ensures m(t[s[p]]) {
        if p > 0 { assert s[p] == s[1..][p - 1]; }
      }
      if n + 1 < |s| { assert s[n + 1] == s[1..][n]; }
    }
  }

  /** The same from place i on. */
  lemma RunFrom(t: Table, s: seq<byte>, i: nat, m: Class -> bool)
    requires i <= |s|
    ensures var n := i + Run(t, s[i..], m); n <= |s| && (forall p :: i <= p < n ==> m(t[s[p]])) && (n < |s| ==> !m(t[s[n]]))
  {
    RunIs(t, s[i..], m);
    var n := Run(t, s[i..], m);
    forall p | i <= p < i + n ensures m(t[s[p]]) { assert s[p] == s[i..][p - i]; }
    if i + n < |s| { assert s[i + n] == s[i..][n]; }
  }

  lemma FoundSpace(t: Table, u: seq<byte>)
    requires u != [] && t[u[0]].w
    ensures FirstToken(t, u, OneRound(t, u).taken, OneRound(t, u).tokens)
  {
    RunIs(t, u, (k: Class) => k.w);
  }

  lemma FoundFeeds(t: Table, u: seq<byte>)
    requires u != [] && !t[u[0]].w && !t[u[0]].r && t[u[0]].l
    ensures FirstToken(t, u, OneRound(t, u).taken, OneRound(t, u).tokens)
  {
    RunIs(t, u, (k: Class) => k.l);
  }

  lemma FoundReturns(t: Table, u: seq<byte>)
    requires u != [] && t[u[0]].r
    ensures IsFold(t, u, FoldRound(t, u).taken, FoldRound(t, u).tokens)
  {
    var m := Run(t, u, (k: Class) => k.r);
    RunIs(t, u, (k: Class) => k.r);
    assert IsReturns(t, u, m);
    if m < |u| { RunFrom(t, u, m, (k: Class) => k.l); }
    assert FoldAfter(t, u, m, FoldRound(t, u).taken, FoldRound(t, u).tokens);
  }

  lemma FoundAtom(t: Table, u: seq<byte>)
    requires u != [] && InAtom(t[u[0]]) && !t[u[0]].e
    ensures FirstToken(t, u, OneRound(t, u).taken, OneRound(t, u).tokens)
  {
    RunFrom(t, u, 1, (k: Class) => !(k.w || k.s || k.c || k.l || k.r));
  }

  lemma FoundControl(t: Table, u: seq<byte>)
    requires u != [] && var k := t[u[0]]; !k.w && !k.r && !k.l && !k.s && (k.c || k.e)
    ensures FirstToken(t, u, OneRound(t, u).taken, OneRound(t, u).tokens)
  {
    RunFrom(t, u, 1, (k: Class) => k.c && !k.e);
  }

  lemma FoundClosed(u: seq<byte>, d: Delims, b: seq<byte>, x: Body)
    requires u != [] && d == Delimiters(u[0]) && b == u[1..] && x.Closed? && ClosesAt(b, x.len, d, 1)
    requires x.errors == ErrorsIn(b, x.len, d) + Hanging(x)
    ensures IsCompound(u, x.len + 2, x.errors + [Token(d.kind, Cut(b[..x.len]))])
  {
    NotNested(b, x.len, d);
    assert ErrorsIn(b, x.len, d) + [] == ErrorsIn(b, x.len, d);
  }

  lemma FoundOpen(u: seq<byte>, d: Delims, b: seq<byte>, x: Body)
    requires u != [] && d == Delimiters(u[0]) && b == u[1..] && !x.Closed? && NestedUpTo(b, |b|, d, 1)
    requires x.Dangling? <==> Escaped(b, |b|)
    requires x.len == (if x.Dangling? then |b| - 1 else |b|) && x.errors == ErrorsIn(b, x.len, d) + Hanging(x)
    ensures IsCompound(u, |u|, x.errors + [Error(MissingClosing(d.end)), Token(d.kind, Cut(b[..x.len]))])
  {
  }

  lemma BodyFacts(b: seq<byte>, d: Delims) returns (x: Body)
    requires Delimiting(d)
    ensures x == Inside(b, d, 1) && x.len <= |b| && x.errors == ErrorsIn(b, x.len, d) + Hanging(x)
    ensures if x.Closed? then ClosesAt(b, x.len, d, 1)
      else NestedUpTo(b, |b|, d, 1) && (x.Dangling? <==> Escaped(b, |b|)) && x.len == (if x.Dangling? then |b| - 1 else |b|)
  {
    x := Inside(b, d, 1);
    EndsThere(b, d, 1, x.len);
    ErrorsInside(b, d);
  }

  lemma CompoundIs(u: seq<byte>, d: Delims, b: seq<byte>, x: Body)
    requires u != [] && (u[0] == 40 || u[0] == 34 || u[0] == 91) && d == Delimiters(u[0]) && b == u[1..] && x == Inside(b, d, 1)
    ensures CompoundRound(u) ==
      if x.Closed? then Round(x.errors + [Token(d.kind, Cut(b[..x.len]))], x.len + 2)
      else Round(x.errors + [Error(MissingClosing(d.end)), Token(d.kind, Cut(b[..x.len]))], |u|)
  {
    assert d == DelimsOf(u[0]);
    Slice(u, 1, 1 + x.len);
  }

  lemma FoundCompound(u: seq<byte>)
    requires u != [] && (u[0] == 40 || u[0] == 34 || u[0] == 91)
    ensures IsCompound(u, CompoundRound(u).taken, CompoundRound(u).tokens)
  {
    var d, b := Delimiters(u[0]), u[1..];
    var x := BodyFacts(b, d);
    CompoundIs(u, d, b, x);
    if x.Closed? {
      FoundClosed(u, d, b, x);
    } else {
      FoundOpen(u, d, b, x);
    }
  }

  lemma NotNested(b: seq<byte>, n: nat, d: Delims)
    requires ClosesAt(b, n, d, 1)
    ensures !NestedUpTo(b, |b|, d, 1)
  {
  }

  /** Every round of the scanner takes such a token. */
  lemma FoundToken(t: Table, u: seq<byte>)
    requires u != []
    ensures FirstToken(t, u, OneRound(t, u).taken, OneRound(t, u).tokens)
  {
    var k := t[u[0]];
    if k.w {
      FoundSpace(t, u);
    } else if k.r {
      FoundReturns(t, u);
    } else if k.l {
      FoundFeeds(t, u);
    } else if k.s && (u[0] == 40 || u[0] == 34 || u[0] == 91) {
      FoundCompound(u);
    } else if !k.s && !k.c && !k.e {
      FoundAtom(t, u);
    } else if !k.s {
      FoundControl(t, u);
    }
  }

  // ------------------------------------------------------------------ there is only one

  lemma OneFold(t: Table, u: seq<byte>, n: nat, toks: seq<Token>, n': nat, toks': seq<Token>)
    requires IsFold(t, u, n, toks) && IsFold(t, u, n', toks')
    ensures n == n' && toks == toks'
  {
    var m :| IsReturns(t, u, m) && FoldAfter(t, u, m, n, toks);
    var m' :| IsReturns(t, u, m') && FoldAfter(t, u, m', n', toks');
    assert m == m';
  }

  lemma OneCompound(u: seq<byte>, n: nat, toks: seq<Token>, n': nat, toks': seq<Token>)
    requires u != [] && IsCompound(u, n, toks) && IsCompound(u, n', toks')
    ensures n == n' && toks == toks'
  {
    var d, b := Delimiters(u[0]), u[1..];
    if !NestedUpTo(b, |b|, d, 1) { OneEnd(b, n - 2, n' - 2, d, 1); }
  }

  /** The first token is determined by the text and the table. */
  lemma OneFirstToken(t: Table, u: seq<byte>, n: nat, toks: seq<Token>, n': nat, toks': seq<Token>)
    requires u != [] && FirstToken(t, u, n, toks) && FirstToken(t, u, n', toks')
    ensures n == n' && toks == toks'
  {
    var k := t[u[0]];
    if !k.w && k.r {
      OneFold(t, u, n, toks, n', toks');
    } else if !k.w && !k.l && k.s && (u[0] == 40 || u[0] == 34 || u[0] == 91) {
      OneCompound(u, n, toks, n', toks');
    }
  }

  // ------------------------------------------------------------------ all tokens

  /** The text has the tokens toks: those of its first token, then those of what follows it. */
  ghost predicate Tokenized(t: Table, s: seq<byte>, toks: seq<Token>)
    decreases |s|
  {
    if s == [] then toks == []
    else exists n: nat, first, rest :: FirstToken(t, s, n, first) && toks == first + rest && Tokenized(t, s[n..], rest)
  }

  lemma Tokenize(t: Table, s: seq<byte>, n: nat, first: seq<Token>, rest: seq<Token>)
    requires s != [] && FirstToken(t, s, n, first) && Tokenized(t, s[n..], rest)
    ensures Tokenized(t, s, first + rest)
  {
  }

  lemma {:induction false} ScanTokenizes(t: Table, s: seq<byte>)
    ensures Tokenized(t, s, Scan(t, s))
    decreases |s|
  {
    if s != [] {
      var r := OneRound(t, s);
      FoundToken(t, s);
      ScanTokenizes(t, s[r.taken..]);
      Tokenize(t, s, r.taken, r.tokens, Scan(t, s[r.taken..]));
    }
  }

  lemma FirstRound(t: Table, s: seq<byte>, n: nat, first: seq<Token>)
    requires s != [] && FirstToken(t, s, n, first)
    ensures OneRound(t, s) == Round(first, n)
  {
    FoundToken(t, s);
    OneFirstToken(t, s, n, first, OneRound(t, s).taken, OneRound(t, s).tokens);
  }

  /** The tokens of a text are determined by the table. */
  lemma {:induction false} TokensAreScan(t: Table, s: seq<byte>, toks: seq<Token>)
    requires Tokenized(t, s, toks)
    ensures toks == Scan(t, s)
    decreases |s|
  {
    if s != [] {
      var n: nat, first, rest :| FirstToken(t, s, n, first) && toks == first + rest && Tokenized(t, s[n..], rest);
      FirstRound(t, s, n, first);
      TokensAreScan(t, s[n..], rest);
    }
  }

  /** The scanner delivers exactly the tokens of the text. */
  lemma ScanExactly(t: Table, s: seq<byte>, toks: seq<Token>)
    ensures Tokenized(t, s, toks) <==> toks == Scan(t, s)
  {
    ScanTokenizes(t, s);
    if Tokenized(t, s, toks) { TokensAreScan(t, s, toks); }
  }

  // ------------------------------------------------------------------ what is printed for a token

  /** The delimiters and the quoting backslash, by their codes. */
  lemma PrintedForms(kind: Kind, x: seq<byte>, q: bool, w: Message -> seq<byte>)
    ensures Print([Token(kind, x)], q, w) ==
      if kind == String then [34] + x + [34]
      else if kind == DomainLiteral then [91] + x + [93]
      else if kind == Special && q then [92] + x
      else x
  {
    PrintOne(Token(kind, x), q, w);
    assert [] + x + [] == x && [92] + x + [] == [92] + x;
  }

  /** The length of an error token is that of its message. */
  lemma MessageLengths(end: byte, field: byte, eight: bool, several: bool)
    ensures |Wording(IllegalChar)| == 24 && |Wording(MissingAfterBackslash)| == 33 && |Wording(IllegalReturn)| == 19
    ensures |Wording(MissingClosing(end))| == 28 && Wording(MissingClosing(end))[17] == end
    ensures |Wording(ReturnWithoutFeed)| == 23 && |Wording(TooManyFeeds(field))| == 35
    ensures Wording(TooManyFeeds(1))[33] == 49 && Wording(TooManyFeeds(2))[33] == 50
    ensures |Wording(IllegalControl(eight, several))| == (if eight then 31 else 25) + (if several then 1 else 0)
  {
  }

  /** A temporary special changes one bit of one entry, and NUL is none. */
  lemma TemporarySpecial(t: Table, c: byte, x: byte)
    ensures With(t, 0) == t
    ensures c != 0 ==> With(t, c)[x] == if x == c then t[x].(s := true) else t[x]
  {
  }
}
