/**
 zmailer/lib/rfc822scan.c and token.c: the scanner for structured header fields of one line, and the
 token printer that inverts it.
 */
module Rfc822Scan {
  import opened Bytes
  import opened Sequences

  /** The bits of an entry of rfc_ctype that the scanner looks at: white space, control, line feed,
      carriage return, special, eighth bit. */
  datatype Class = Class(w: bool, c: bool, l: bool, r: bool, s: bool, e: bool)

  type Table = t: seq<Class> | |t| == 256 witness seq(256, _ => Class(false, false, false, false, false, false))

  datatype Kind = Atom | Special | Space | Fold | String | DomainLiteral | Comment

  datatype Message =
    | IllegalChar | MissingAfterBackslash | IllegalReturn | MissingClosing(end: byte)
    | ReturnWithoutFeed | TooManyFeeds(field: byte) | IllegalControl(eight: bool, several: bool)

  /** token822; the text of an Error is its message. */
  datatype Token = Token(kind: Kind, text: seq<byte>) | Error(message: Message)

  const QUOTE: byte := 34
  const LPAREN: byte := 40
  const RPAREN: byte := 41
  const COLON: byte := 58
  const LBRACKET: byte := 91
  const BACKSLASH: byte := 92
  const RBRACKET: byte := 93
  const CR: byte := 13

  // ------------------------------------------------------------------ what the scanner means

  /** The length of the longest prefix with classes in m. */
  function Run(t: Table, s: seq<byte>, m: Class -> bool): (n: nat)
    ensures n <= |s|
  {
    if s == [] || !m(t[s[0]]) then 0 else 1 + Run(t, s[1..], m)
  }

  /** The delimiters and the type of a compound token. */
  datatype Delims = Delims(start: byte, end: byte, kind: Kind)

  /** How the inside of a compound token ends: with its delimiter, at the end of the text, or with a
      backslash there and some nesting left; `errors` are those on the way. */
  datatype Body =
    | Closed(len: nat, errors: seq<Token>)
    | Open(len: nat, errors: seq<Token>, nest: nat)
    | Dangling(len: nat, errors: seq<Token>, nest: nat)

  function Longer(b: Body, n: nat, errors: seq<Token>): Body {
    match b
    case Closed(l, e) => Closed(l + n, errors + e)
    case Open(l, e, nest) => Open(l + n, errors + e, nest)
    case Dangling(l, e, nest) => Dangling(l + n, errors + e, nest)
  }

  /** What one character inside a compound token does. */
  datatype Move = Stop(body: Body) | Go(step: nat, errors: seq<Token>, nest: nat)

  function MoveAt(u: seq<byte>, d: Delims, nest: nat): (m: Move)
    requires nest > 0 && u != []
    ensures m.Go? ==> 0 < m.step <= |u| && m.nest > 0
    ensures m.Stop? ==> m.body.len == 0 && !m.body.Open? && (m.body.Closed? ==> u[0] == d.end)
    ensures m.Stop? && m.body.Dangling? ==> |u| == 1 && m.body.nest > 0
  {
    if u[0] == d.end then (if nest == 1 then Stop(Closed(0, [])) else Go(1, [], nest - 1))
    else if u[0] == d.start then (if d.kind == Comment then Go(1, [], nest + 1) else Go(1, [Error(IllegalChar)], nest))
    else if u[0] == BACKSLASH then (if |u| == 1 then Stop(Dangling(0, [Error(MissingAfterBackslash)], nest)) else Go(2, [], nest))
    else Go(1, if u[0] == CR then [Error(IllegalReturn)] else [], nest)
  }

  function Inside(u: seq<byte>, d: Delims, nest: nat): (b: Body)
    requires nest > 0
    ensures b.len <= |u| && (b.Closed? ==> b.len < |u| && u[b.len] == d.end)
    ensures (b.Open? ==> b.len == |u| && b.nest > 0) && (b.Dangling? ==> b.len + 1 == |u| && b.nest > 0)
    decreases |u|
  {
    if u == [] then Open(0, [], nest)
    else match MoveAt(u, d, nest)
      case Stop(b) => b
      case Go(n, e, nest') => Longer(Inside(u[n..], d, nest'), n, e)
  }

  function End(start: byte): byte {
    if start == QUOTE then QUOTE else if start == LBRACKET then RBRACKET else RPAREN
  }

  function KindOf(start: byte): Kind {
    if start == QUOTE then String else if start == LBRACKET then DomainLiteral else Comment
  }

  function DelimsOf(start: byte): Delims {
    Delims(start, End(start), KindOf(start))
  }

  /** copyToken uses at most 50000 characters. */
  function Capped(s: seq<byte>): seq<byte> {
    if |s| > 50000 then s[..50000] else s
  }

  /** The tokens of one round, and how many characters they took. */
  datatype Round = Round(tokens: seq<Token>, taken: nat)

  function BodyOf(s: seq<byte>): Body
    requires s != []
  {
    Inside(s[1..], DelimsOf(s[0]), 1)
  }

  function CompoundRound(s: seq<byte>): (r: Round)
    requires s != []
    ensures 1 <= r.taken <= |s|
  {
    var b := BodyOf(s);
    var token := Token(KindOf(s[0]), Capped(s[1..1 + b.len]));
    if b.Closed? then Round(b.errors + [token], b.len + 2)
    else Round(b.errors + [Error(MissingClosing(End(s[0]))), token], |s|)
  }

  /** `::` and a backslash with a special are one token. */
  function SpecialLength(t: Table, s: seq<byte>): (n: nat)
    requires s != []
    ensures 1 <= n <= 2 && n <= |s|
  {
    if |s| > 1 && ((s[0] == COLON && s[1] == COLON) || (s[0] == BACKSLASH && s[1] != 0 && t[s[1]].s)) then 2 else 1
  }

  function FoldRound(t: Table, s: seq<byte>): (r: Round)
    requires s != [] && t[s[0]].r
    ensures 1 <= r.taken <= |s|
  {
    var n := Run(t, s, (k: Class) => k.r);
    if n == |s| || !t[s[n]].l then Round([Error(ReturnWithoutFeed), Token(Fold, Capped(s[..n]))], n)
    else if |s| - n > 1 then
      var m := n + Run(t, s[n..], (k: Class) => k.l);
      Round([Error(TooManyFeeds(1)), Token(Fold, Capped(s[..m]))], m)
    else Round([Token(Fold, Capped(s[..n]))], n)
  }

  function OneRound(t: Table, s: seq<byte>): (r: Round)
    requires s != []
    ensures 1 <= r.taken <= |s|
  {
    var k := t[s[0]];
    if k.w then
      var n := Run(t, s, (k: Class) => k.w);
      Round([Token(Space, Capped(s[..n]))], n)
    else if k.r then FoldRound(t, s)
    else if k.l then
      var n := Run(t, s, (k: Class) => k.l);
      Round([Error(TooManyFeeds(2)), Token(Fold, Capped(s[..n]))], n)
    else if k.s && (s[0] == LPAREN || s[0] == QUOTE || s[0] == LBRACKET) then CompoundRound(s)
    else if k.s then
      var n := SpecialLength(t, s);
      Round([Token(Special, Capped(s[..n]))], n)
    else if !(k.c || k.e) then
      var n := 1 + Run(t, s[1..], (k: Class) => !(k.w || k.s || k.c || k.l || k.r));
      Round([Token(Atom, Capped(s[..n]))], n)
    else
      var n := 1 + Run(t, s[1..], (k: Class) => k.c && !k.e);
      Round([Error(IllegalControl(n < |s| && t[s[n]].e, n > 1)), Token(Atom, Capped(s[..n]))], n)
  }

  /** The tokens of a text. */
  function Scan(t: Table, s: seq<byte>): seq<Token>
    decreases |s|
  {
    if s == [] then [] else OneRound(t, s).tokens + Scan(t, s[OneRound(t, s).taken..])
  }

  // ------------------------------------------------------------------ where a compound token ends

  /** How many backslashes stand directly in front of place i. */
  function Slashes(u: seq<byte>, i: nat): nat
    requires i <= |u|
  {
    if i == 0 || u[i - 1] != BACKSLASH then 0 else 1 + Slashes(u, i - 1)
  }

  predicate Escaped(u: seq<byte>, i: nat)
    requires i <= |u|
  {
    Slashes(u, i) % 2 == 1
  }

  /** What the character at place i does to the nesting. */
  function Turn(u: seq<byte>, i: nat, d: Delims): int
    requires i < |u|
  {
    if Escaped(u, i) then 0 else if u[i] == d.end then -1 else if u[i] == d.start && d.kind == Comment then 1 else 0
  }

  /** The nesting in front of place i, if it is `nest` at the beginning. */
  function Depth(u: seq<byte>, i: nat, d: Delims, nest: nat): int
    requires i <= |u|
  {
    if i == 0 then nest else Depth(u, i - 1, d, nest) + Turn(u, i - 1, d)
  }

  ghost predicate NestedUpTo(u: seq<byte>, n: nat, d: Delims, nest: nat)
    requires n <= |u|
  {
    forall j {:trigger Depth(u, j, d, nest)} :: 0 <= j <= n ==> Depth(u, j, d, nest) > 0
  }

  /** The character at place n is the first one that brings the nesting back to zero. */
  ghost predicate ClosesAt(u: seq<byte>, n: nat, d: Delims, nest: nat) {
    n < |u| && NestedUpTo(u, n, d, nest) && Depth(u, n + 1, d, nest) == 0
  }

  predicate Delimiting(d: Delims) {
    d.start != BACKSLASH && d.end != BACKSLASH
  }

  /** What the result of Inside from cp on says about the whole text. */
  ghost predicate Ends(b: Body, cp: nat, u: seq<byte>, d: Delims, nest: nat) {
    match b
    case Closed(len, _) => ClosesAt(u, cp + len, d, nest)
    case Open(len, _, rest) =>
      cp + len == |u| && NestedUpTo(u, |u|, d, nest) && !Escaped(u, |u|) && rest == Depth(u, |u|, d, nest)
    case Dangling(len, _, rest) =>
      cp + len + 1 == |u| && NestedUpTo(u, |u|, d, nest) && Escaped(u, |u|) && rest == Depth(u, |u|, d, nest)
  }

  lemma {:induction false} EndsFrom(u: seq<byte>, cp: nat, d: Delims, now: nat, nest: nat)
    requires cp <= |u| && Delimiting(d) && !Escaped(u, cp)
    requires NestedUpTo(u, cp, d, nest) && Depth(u, cp, d, nest) == now
    ensures now > 0 && Ends(Inside(u[cp..], d, now), cp, u, d, nest)
    decreases |u| - cp
  {
    if cp < |u| {
      MoveTurns(u, cp, d, now, nest);
      var m := MoveAt(u[cp..], d, now);
      if m.Go? { EndsFrom(u, cp + m.step, d, m.nest, nest); }
      EndsStep(u, cp, d, now, nest, m);
    }
  }

  lemma EndsStep(u: seq<byte>, cp: nat, d: Delims, now: nat, nest: nat, m: Move)
    requires cp < |u| && now > 0 && m == MoveAt(u[cp..], d, now)
    requires match m
      case Stop(b) => Ends(b, cp, u, d, nest)
      case Go(n, _, next) => Ends(Inside(u[cp + n..], d, next), cp + n, u, d, nest)
    ensures Ends(Inside(u[cp..], d, now), cp, u, d, nest)
  {
    if m.Go? {
      Drop(u, cp, m.step);
      EndsLonger(Inside(u[cp + m.step..], d, m.nest), m.step, m.errors, cp, u, d, nest);
    }
  }

  lemma EndsLonger(b: Body, n: nat, e: seq<Token>, cp: nat, u: seq<byte>, d: Delims, nest: nat)
    requires Ends(b, cp + n, u, d, nest)
    ensures Ends(Longer(b, n, e), cp, u, d, nest)
  {
  }

  /** A move goes to the next place that is not escaped, or to the end of the token. */
  lemma MoveTurns(u: seq<byte>, cp: nat, d: Delims, now: nat, nest: nat)
    requires cp < |u| && Delimiting(d) && !Escaped(u, cp)
    requires NestedUpTo(u, cp, d, nest) && now > 0 && Depth(u, cp, d, nest) == now
    ensures match MoveAt(u[cp..], d, now)
      case Stop(b) => Ends(b, cp, u, d, nest)
      case Go(n, _, next) =>
        !Escaped(u, cp + n) && NestedUpTo(u, cp + n, d, nest) && Depth(u, cp + n, d, nest) == next
  {
    assert u[cp..][0] == u[cp];
    NestedNext(u, cp, d, nest);
    if u[cp] == BACKSLASH && cp + 1 < |u| {
      NestedNext(u, cp + 1, d, nest);
    }
  }

  lemma NestedNext(u: seq<byte>, n: nat, d: Delims, nest: nat)
    requires n < |u| && NestedUpTo(u, n, d, nest)
    ensures Depth(u, n + 1, d, nest) == Depth(u, n, d, nest) + Turn(u, n, d)
    ensures Depth(u, n + 1, d, nest) > 0 ==> NestedUpTo(u, n + 1, d, nest)
    ensures Escaped(u, n + 1) <==> u[n] == BACKSLASH && !Escaped(u, n)
  {
  }

  /** A compound token ends with the first character that brings the nesting back to zero, where characters
      after an odd number of backslashes do not count; there is none exactly if the token is not closed, and
      then the text ends with such a backslash, or not. */
  lemma EndsThere(u: seq<byte>, d: Delims, nest: nat, n: nat)
    requires Delimiting(d) && nest > 0
    ensures var b := Inside(u, d, nest);
      && (b.Closed? && b.len == n <==> ClosesAt(u, n, d, nest))
      && (b.Open? <==> NestedUpTo(u, |u|, d, nest) && !Escaped(u, |u|))
      && (b.Dangling? <==> NestedUpTo(u, |u|, d, nest) && Escaped(u, |u|))
      && (!b.Closed? ==> b.nest == Depth(u, |u|, d, nest))
  {
    assert u[0..] == u;
    EndsFrom(u, 0, d, nest, nest);
    var b := Inside(u, d, nest);
    if ClosesAt(u, n, d, nest) && b.Closed? { OneEnd(u, n, b.len, d, nest); }
  }

  lemma OneEnd(u: seq<byte>, n: nat, m: nat, d: Delims, nest: nat)
    requires ClosesAt(u, n, d, nest) && ClosesAt(u, m, d, nest)
    ensures n == m
  {
  }

  // ------------------------------------------------------------------ printing what was scanned

  function Ascii(s: string): (b: seq<byte>)
    ensures |b| == |s|
  {
    seq(|s|, i requires 0 <= i < |s| => s[i] as int % 256)
  }

  function Wording(m: Message): seq<byte> {
    match m
    case IllegalChar => Ascii("illegal char in compound")
    case MissingAfterBackslash => Ascii("missing character after backslash")
    case IllegalReturn => Ascii("illegal CR in token")
    case MissingClosing(end) => Ascii("missing closing '") + [end] + Ascii("' in token")
    case ReturnWithoutFeed => Ascii("CR without LF (newline)")
    case TooManyFeeds(field) => Ascii("too many newlines (LFs) in field[") + [48 + field % 10] + Ascii("]")
    case IllegalControl(eight, several) =>
      Ascii(if eight then "illegal 8-bit/control character" else "illegal control character") + Ascii(if several then "s" else "")
  }

  /** The characters of a token. */
  function Letters(t: Token, wording: Message -> seq<byte>): seq<byte> {
    if t.Error? then wording(t.message) else t.text
  }

  function Before(t: Token, quotespecials: bool): seq<byte> {
    if t.Error? then []
    else if t.kind == DomainLiteral then [LBRACKET] else if t.kind == String then [QUOTE]
    else if quotespecials && t.kind == Special then [BACKSLASH] else []
  }

  function After(t: Token): seq<byte> {
    if t.Error? then []
    else if t.kind == DomainLiteral then [RBRACKET] else if t.kind == String then [QUOTE] else []
  }

  function Shown(t: Token, quotespecials: bool, wording: Message -> seq<byte>): seq<byte> {
    Before(t, quotespecials) + Letters(t, wording) + After(t)
  }

  function Print(tokens: seq<Token>, quotespecials: bool, wording: Message -> seq<byte>): seq<byte> {
    if tokens == [] then [] else Shown(tokens[0], quotespecials, wording) + Print(tokens[1..], quotespecials, wording)
  }

  predicate Clean(tokens: seq<Token>) {
    forall i :: 0 <= i < |tokens| ==> tokens[i].Token? && tokens[i].kind != Comment && |tokens[i].text| < 50000
  }

  lemma {:induction false} PrintConcat(a: seq<Token>, b: seq<Token>, q: bool, w: Message -> seq<byte>)
    ensures Print(a + b, q, w) == Print(a, q, w) + Print(b, q, w)
  {
    if a == [] {
      assert a + b == b;
    } else {
      assert (a + b)[1..] == a[1..] + b;
      PrintConcat(a[1..], b, q, w);
      Regroup(Shown(a[0], q, w), Print(a[1..], q, w), Print(b, q, w));
    }
  }

  lemma PrintOne(t: Token, q: bool, w: Message -> seq<byte>)
    ensures Print([t], q, w) == Shown(t, q, w)
  {
    assert [t][1..] == [];
  }

  /** What is inside a compound token on the way is an error. */
  lemma {:induction false} OnlyErrors(u: seq<byte>, d: Delims, nest: nat)
    requires nest > 0
    ensures forall e :: e in Inside(u, d, nest).errors ==> e.Error?
    decreases |u|
  {
    if u != [] {
      var m := MoveAt(u, d, nest);
      if m.Go? { OnlyErrors(u[m.step..], d, m.nest); }
    }
  }

  /** A compound token that is not closed, or has an error inside, comes with an Error token. */
  lemma BadCompound(s: seq<byte>)
    requires s != [] && !(BodyOf(s).Closed? && BodyOf(s).errors == [])
    ensures !Clean(CompoundRound(s).tokens)
  {
    OnlyErrors(s[1..], DelimsOf(s[0]), 1);
    assert CompoundRound(s).tokens[0].Error?;
  }

  lemma CompoundPrints(s: seq<byte>, w: Message -> seq<byte>)
    requires s != [] && (s[0] == QUOTE || s[0] == LBRACKET || s[0] == LPAREN) && Clean(CompoundRound(s).tokens)
    ensures Print(CompoundRound(s).tokens, false, w) == s[..CompoundRound(s).taken]
  {
    var b := BodyOf(s);
    if !(b.Closed? && b.errors == []) { BadCompound(s); }
    GoodCompound(s);
    ClosedPrints(s, b.len, w);
  }

  lemma GoodCompound(s: seq<byte>)
    requires s != [] && BodyOf(s).Closed? && BodyOf(s).errors == [] && Clean(CompoundRound(s).tokens)
    ensures var len := BodyOf(s).len;
      && CompoundRound(s) == Round([Token(KindOf(s[0]), s[1..1 + len])], len + 2)
      && len + 2 <= |s| && s[1 + len] == End(s[0]) && KindOf(s[0]) != Comment
  {
    var len := BodyOf(s).len;
    var token := Token(KindOf(s[0]), Capped(s[1..1 + len]));
    assert CompoundRound(s).tokens == [token] && CompoundRound(s).tokens[0] == token;
  }

  lemma ClosedPrints(s: seq<byte>, len: nat, w: Message -> seq<byte>)
    requires len + 2 <= |s| && (s[0] == QUOTE || s[0] == LBRACKET) && s[1 + len] == End(s[0])
    ensures Print([Token(KindOf(s[0]), s[1..1 + len])], false, w) == s[..len + 2]
  {
    PrintOne(Token(KindOf(s[0]), s[1..1 + len]), false, w);
    assert s[..len + 2] == [s[0]] + s[1..1 + len] + [s[1 + len]];
  }

  /** In all other rounds without an error, the one token is printed as it was. */
  lemma PlainRound(t: Table, s: seq<byte>, w: Message -> seq<byte>)
    requires s != [] && Clean(OneRound(t, s).tokens)
    requires var k := t[s[0]]; k.w || k.r || k.l || !(k.s && (s[0] == LPAREN || s[0] == QUOTE || s[0] == LBRACKET))
    ensures var r := OneRound(t, s); |r.tokens| == 1 && Shown(r.tokens[0], false, w) == s[..r.taken]
  {
    var r := OneRound(t, s);
    assert r.tokens[0].Token?;
    assert [] + r.tokens[0].text + [] == r.tokens[0].text;
  }

  lemma RoundPrints(t: Table, s: seq<byte>, w: Message -> seq<byte>)
    requires s != [] && Clean(OneRound(t, s).tokens)
    ensures Print(OneRound(t, s).tokens, false, w) == s[..OneRound(t, s).taken]
  {
    var k, r := t[s[0]], OneRound(t, s);
    if !k.w && !k.r && !k.l && k.s && (s[0] == LPAREN || s[0] == QUOTE || s[0] == LBRACKET) {
      CompoundPrints(s, w);
    } else {
      PlainRound(t, s, w);
      assert r.tokens == [r.tokens[0]];
      PrintOne(r.tokens[0], false, w);
    }
  }

  /** A text without errors and comments, and without an overlong token, is rebuilt from its tokens. */
  lemma {:induction false} ScanThenPrint(t: Table, s: seq<byte>, w: Message -> seq<byte>)
    requires Clean(Scan(t, s))
    ensures Print(Scan(t, s), false, w) == s
    decreases |s|
  {
    if s != [] {
      var tail := s[OneRound(t, s).taken..];
      CleanParts(OneRound(t, s).tokens, Scan(t, tail));
      ScanThenPrint(t, tail, w);
      PrintRound(t, s, Scan(t, tail), w);
    }
  }

  lemma PrintRound(t: Table, s: seq<byte>, rest: seq<Token>, w: Message -> seq<byte>)
    requires s != [] && Clean(OneRound(t, s).tokens) && Print(rest, false, w) == s[OneRound(t, s).taken..]
    ensures Print(OneRound(t, s).tokens + rest, false, w) == s
  {
    RoundPrints(t, s, w);
    PrintParts(OneRound(t, s).tokens, rest, s, OneRound(t, s).taken, w);
  }

  lemma PrintParts(tokens: seq<Token>, rest: seq<Token>, s: seq<byte>, n: nat, w: Message -> seq<byte>)
    requires n <= |s| && Print(tokens, false, w) == s[..n] && Print(rest, false, w) == s[n..]
    ensures Print(tokens + rest, false, w) == s
  {
    PrintConcat(tokens, rest, false, w);
    assert s[..n] + s[n..] == s;
  }

  lemma CleanParts(a: seq<Token>, b: seq<Token>)
    requires Clean(a + b)
    ensures Clean(a) && Clean(b)
  {
    assert forall i :: 0 <= i < |a| ==> a[i] == (a + b)[i];
    assert forall i :: 0 <= i < |b| ==> b[i] == (a + b)[|a| + i];
  }

  // ------------------------------------------------------------------ the loops of scan822

  ghost predicate IsTable(ctype: array<Class>) {
    ctype.Length == 256
  }

  /** while (--n > 0 && (rfc_ctype[(*++cp) & 0xFF] & mask)) */
  method SkipRun(ctype: array<Class>, text: seq<byte>, i: nat, m: Class -> bool) returns (j: nat)
    requires IsTable(ctype) && i <= |text|
    ensures i <= j <= |text| && j == i + Run(ctype[..], text[i..], m)
  {
    j := i;
    ghost var t: Table := ctype[..];
    while j < |text| && m(ctype[text[j]])
      invariant i <= j <= |text|
      invariant Run(t, text[i..], m) == j - i + Run(t, text[j..], m)
    {
      assert text[j..][1..] == text[j + 1..];
      j := j + 1;
    }
  }

  lemma LongerTwice(b: Body, n: nat, e: seq<Token>, n': nat, e': seq<Token>)
    ensures Longer(Longer(b, n, e), n', e') == Longer(b, n + n', e' + e)
  {
    Regroup(e', e, b.errors);
  }

  /** goal is what remains from cp on, behind len characters with the given errors. */
  ghost predicate Remains(goal: Body, text: seq<byte>, cp: nat, d: Delims, nest: nat, len: nat, errors: seq<Token>) {
    && cp <= |text| && nest > 0
    && forall b {:trigger Longer(b, len, errors)} :: b == Inside(text[cp..], d, nest) ==> goal == Longer(b, len, errors)
  }

  lemma RemainsNext(goal: Body, text: seq<byte>, cp: nat, d: Delims, nest: nat, len: nat, errors: seq<Token>)
    requires cp < |text| && Remains(goal, text, cp, d, nest, len, errors)
    ensures match MoveAt(text[cp..], d, nest)
      case Stop(b) => goal == Longer(b, len, errors)
      case Go(n, e, nest') => Remains(goal, text, cp + n, d, nest', len + n, errors + e)
  {
    var u := text[cp..];
    assert goal == Longer(Inside(u, d, nest), len, errors);
    var m := MoveAt(u, d, nest);
    if m.Go? {
      assert u[m.step..] == text[cp + m.step..];
      LongerTwice(Inside(u[m.step..], d, m.nest), m.step, m.errors, len, errors);
    }
  }

  lemma RemainsAll(text: seq<byte>, i: nat, d: Delims, nest: nat)
    requires i <= |text| && nest > 0
    ensures Remains(Inside(text[i..], d, nest), text, i, d, nest, 0, [])
  {
    var b := Inside(text[i..], d, nest);
    assert [] + b.errors == b.errors;
  }

  lemma RemainsNone(goal: Body, text: seq<byte>, d: Delims, nest: nat, len: nat, errors: seq<Token>)
    requires Remains(goal, text, |text|, d, nest, len, errors)
    ensures goal == Open(len, errors, nest)
  {
    assert goal == Longer(Inside(text[|text|..], d, nest), len, errors);
    assert errors + [] == errors;
  }

  /** _hdr_compound on a single line, from the delimiter at i on. */
  method HdrCompound(text: seq<byte>, i: nat) returns (b: Body)
    requires i < |text|
    ensures b == BodyOf(text[i..])
  {
    assert text[i..][1..] == text[i + 1..];
    RemainsAll(text, i + 1, DelimsOf(text[i]), 1);
    b := CompoundLoop(text, i + 1, DelimsOf(text[i]), 1, BodyOf(text[i..]));
  }

  /** Its loop, for the text from i on. */
  method CompoundLoop(text: seq<byte>, i: nat, d: Delims, nest0: nat, ghost goal: Body) returns (b: Body)
    requires Remains(goal, text, i, d, nest0, 0, [])
    ensures b == goal
  {
    var cp: nat, nest: nat, errors: seq<Token> := i, nest0, [];
    while cp < |text|
      invariant i <= cp <= |text| && Remains(goal, text, cp, d, nest, cp - i, errors)
    {
      var m := CompoundMove(text, cp, d, nest, cp - i, errors, goal);
      if m.Stop? { return m.body; }
      cp, errors, nest := cp + m.step, m.errors, m.nest;
    }
    RemainsNone(goal, text, d, nest, cp - i, errors);
    b := Open(cp - i, errors, nest);
  }

  /** One round, with all errors so far. */
  method CompoundMove(text: seq<byte>, cp: nat, d: Delims, nest: nat, len: nat, errors: seq<Token>, ghost goal: Body)
    returns (m: Move)
    requires cp < |text| && Remains(goal, text, cp, d, nest, len, errors)
    ensures match m
      case Stop(b) => b == goal
      case Go(n, e, nest') => n > 0 && Remains(goal, text, cp + n, d, nest', len + n, e)
  {
    m := CompoundStep(text, cp, d, nest);
    RemainsNext(goal, text, cp, d, nest, len, errors);
    m := if m.Stop? then Stop(Longer(m.body, len, errors)) else Go(m.step, errors + m.errors, m.nest);
  }

  /** The body of the loop. */
  method CompoundStep(text: seq<byte>, cp: nat, d: Delims, nest: nat) returns (m: Move)
    requires cp < |text| && nest > 0
    ensures m == MoveAt(text[cp..], d, nest)
  {
    m := Go(1, [], nest);
    if text[cp] == d.end {
      if nest == 1 { return Stop(Closed(0, [])); }
      m := Go(1, [], nest - 1);
    } else if text[cp] == d.start {
      m := if d.kind == Comment then Go(1, [], nest + 1) else Go(1, [Error(IllegalChar)], nest);
    } else if text[cp] == BACKSLASH {
      if cp + 1 == |text| { return Stop(Dangling(0, [Error(MissingAfterBackslash)], nest)); }
      m := Go(2, [], nest);
    } else if text[cp] == CR {
      m := Go(1, [Error(IllegalReturn)], nest);
    }
  }

  /** copyToken */
  method CopyToken(kind: Kind, text: seq<byte>, i: nat, j: nat) returns (t: Token)
    requires i <= j <= |text|
    ensures t == Token(kind, Capped(text[i..j]))
  {
    var tlen := j - i;
    if tlen > 50000 { tlen := 50000; }
    t := Token(kind, text[i..i + tlen]);
    assert |text[i..j]| > 50000 ==> text[i..j][..50000] == text[i..i + tlen];
  }

  /** A compound token and the errors in it. */
  method ScanCompound(text: seq<byte>, i: nat) returns (r: Round)
    requires i < |text|
    ensures r == CompoundRound(text[i..])
  {
    var b := HdrCompound(text, i);
    ghost var s := text[i..];
    var t := CopyToken(KindOf(text[i]), text, i + 1, i + 1 + b.len);
    assert s[1..1 + b.len] == text[i + 1..i + 1 + b.len];
    if b.Closed? {
      r := Round(b.errors + [t], b.len + 2);
    } else {
      r := Round(b.errors + [Error(MissingClosing(End(text[i]))), t], |text| - i);
    }
  }

  /** White space, specials, atoms and characters that are not allowed. */
  method ScanPlain(ctype: array<Class>, text: seq<byte>, i: nat) returns (r: Round)
    requires IsTable(ctype) && i < |text|
    requires var k := ctype[text[i]];
      k.w || (!k.r && !k.l && !(k.s && (text[i] == LPAREN || text[i] == QUOTE || text[i] == LBRACKET)))
    ensures r == OneRound(ctype[..], text[i..])
  {
    var k := ctype[text[i]];
    Drop(text, i, 1);
    var j, kind := i + 1, Atom;
    var errors: seq<Token> := [];
    if k.w {
      kind := Space;
      j := SkipRun(ctype, text, i, (k: Class) => k.w);
    } else if k.s {
      kind := Special;
      if i + 1 < |text| && text[i] == COLON && text[i + 1] == COLON {
        j := i + 2;
      } else if i + 1 < |text| && text[i] == BACKSLASH && text[i + 1] != 0 && ctype[text[i + 1]].s {
        j := i + 2;
      }
    } else if !(k.c || k.e) {
      j := SkipRun(ctype, text, i + 1, (k: Class) => !(k.w || k.s || k.c || k.l || k.r));
    } else {
      j := SkipRun(ctype, text, i + 1, (k: Class) => k.c && !k.e);
      errors := [Error(IllegalControl(j < |text| && ctype[text[j]].e, j - i > 1))];
    }
    var t := CopyToken(kind, text, i, j);
    Slice(text, i, j);
    r := Round(errors + [t], j - i);
  }

  /** Where carriage returns end: they must be followed by exactly one line feed, the last character. */
  method FoldEnd(ctype: array<Class>, text: seq<byte>, i: nat) returns (j: nat, errors: seq<Token>)
    requires IsTable(ctype) && i < |text| && ctype[text[i]].r
    ensures i <= j <= |text|
    ensures FoldRound(ctype[..], text[i..]) == Round(errors + [Token(Fold, Capped(text[i..][..j - i]))], j - i)
  {
    j := SkipRun(ctype, text, i, (k: Class) => k.r);
    Drop(text, i, j - i);
    errors := [];
    if j == |text| || !ctype[text[j]].l {
      errors := [Error(ReturnWithoutFeed)];
    } else if |text| - j > 1 {
      j := SkipRun(ctype, text, j, (k: Class) => k.l);
      errors := [Error(TooManyFeeds(1))];
    }
  }

  method ScanReturns(ctype: array<Class>, text: seq<byte>, i: nat) returns (r: Round)
    requires IsTable(ctype) && i < |text| && ctype[text[i]].r
    ensures r == FoldRound(ctype[..], text[i..])
  {
    var j, errors := FoldEnd(ctype, text, i);
    var t := CopyToken(Fold, text, i, j);
    Slice(text, i, j);
    r := Round(errors + [t], j - i);
  }

  method ScanFeeds(ctype: array<Class>, text: seq<byte>, i: nat) returns (r: Round)
    requires IsTable(ctype) && i < |text| && !ctype[text[i]].w && !ctype[text[i]].r && ctype[text[i]].l
    ensures r == OneRound(ctype[..], text[i..])
  {
    var j := SkipRun(ctype, text, i, (k: Class) => k.l);
    var t := CopyToken(Fold, text, i, j);
    Slice(text, i, j);
    r := Round([Error(TooManyFeeds(2)), t], j - i);
  }

  method ScanRound(ctype: array<Class>, text: seq<byte>, i: nat) returns (r: Round)
    requires IsTable(ctype) && i < |text|
    ensures r == OneRound(ctype[..], text[i..])
  {
    var k := ctype[text[i]];
    if !k.w && k.r {
      r := ScanReturns(ctype, text, i);
    } else if !k.w && k.l {
      r := ScanFeeds(ctype, text, i);
    } else if !k.w && k.s && (text[i] == LPAREN || text[i] == QUOTE || text[i] == LBRACKET) {
      r := ScanCompound(text, i);
    } else {
      r := ScanPlain(ctype, text, i);
    }
  }

  function Reversed(s: seq<Token>): seq<Token> {
    if s == [] then [] else Reversed(s[1..]) + [s[0]]
  }

  /** The chain, newest token first, after the tokens of a round. */
  method PushAll(tokens: seq<Token>, tlist: seq<Token>) returns (tlist': seq<Token>)
    ensures Reversed(tlist') == Reversed(tlist) + tokens
  {
    tlist' := tlist;
    for i := 0 to |tokens|
      invariant Reversed(tlist') == Reversed(tlist) + tokens[..i]
    {
      assert tokens[..i + 1] == tokens[..i] + [tokens[i]];
      tlist' := [tokens[i]] + tlist';
    }
    assert tokens[..|tokens|] == tokens;
  }

  /** Reverses the token chain. */
  method Reverse(tlist: seq<Token>) returns (tp: seq<Token>)
    ensures tp == Reversed(tlist)
  {
    var l := tlist;
    tp := [];
    assert Reversed(l) + [] == Reversed(l);
    while l != []
      invariant Reversed(l) + tp == Reversed(tlist)
      decreases |l|
    {
      tp := [l[0]] + tp;
      l := l[1..];
    }
  }

  /** The tokens so far and those of the text from i on are goal. */
  ghost predicate Leads(t: Table, text: seq<byte>, i: nat, tokens: seq<Token>, goal: seq<Token>) {
    i <= |text| && forall rest {:trigger tokens + rest} :: rest == Scan(t, text[i..]) ==> tokens + rest == goal
  }

  lemma LeadsNext(t: Table, text: seq<byte>, i: nat, r: Round, tokens: seq<Token>, goal: seq<Token>)
    requires i < |text| && r == OneRound(t, text[i..]) && Leads(t, text, i, tokens, goal)
    ensures Leads(t, text, i + r.taken, tokens + r.tokens, goal)
  {
    var rest := Scan(t, text[i + r.taken..]);
    ScanStep(t, text, i, r);
    assert tokens + Scan(t, text[i..]) == goal;
    Regroup(tokens, r.tokens, rest);
  }

  lemma ScanStep(t: Table, text: seq<byte>, i: nat, r: Round)
    requires i < |text| && r == OneRound(t, text[i..])
    ensures Scan(t, text[i..]) == r.tokens + Scan(t, text[i + r.taken..])
  {
    Drop(text, i, r.taken);
  }

  /** One round of the loop of scan822; each takes at least one character. */
  method TakeRound(ctype: array<Class>, text: seq<byte>, i: nat, tlist: seq<Token>, ghost goal: seq<Token>)
    returns (tlist': seq<Token>, i': nat)
    requires IsTable(ctype) && i < |text| && Leads(ctype[..], text, i, Reversed(tlist), goal)
    ensures i < i' <= |text| && Leads(ctype[..], text, i', Reversed(tlist'), goal)
  {
    var r := ScanRound(ctype, text, i);
    LeadsNext(ctype[..], text, i, r, Reversed(tlist), goal);
    tlist' := PushAll(r.tokens, tlist);
    i' := i + r.taken;
  }

  method ScanAll(ctype: array<Class>, text: seq<byte>) returns (tokens: seq<Token>)
    requires IsTable(ctype)
    ensures tokens == Scan(ctype[..], text)
  {
    LeadsAll(ctype[..], text);
    var tlist := ScanLoop(ctype, text, Scan(ctype[..], text));
    tokens := Reverse(tlist);
  }

  lemma LeadsAll(t: Table, text: seq<byte>)
    ensures Leads(t, text, 0, [], Scan(t, text))
  {
    assert text[0..] == text && [] + Scan(t, text) == Scan(t, text);
  }

  lemma LeadsNone(t: Table, text: seq<byte>, tokens: seq<Token>, goal: seq<Token>)
    requires Leads(t, text, |text|, tokens, goal)
    ensures tokens == goal
  {
    assert tokens + Scan(t, text[|text|..]) == goal;
  }

  /** The loop of scan822, for the newest token first. */
  method ScanLoop(ctype: array<Class>, text: seq<byte>, ghost goal: seq<Token>) returns (tlist: seq<Token>)
    requires IsTable(ctype) && Leads(ctype[..], text, 0, [], goal)
    ensures Reversed(tlist) == goal
  {
    var i: nat := 0;
    tlist := [];
    while i < |text|
      invariant i <= |text| && Leads(ctype[..], text, i, Reversed(tlist), goal)
    {
      tlist, i := TakeRound(ctype, text, i, tlist, goal);
    }
    LeadsNone(ctype[..], text, Reversed(tlist), goal);
  }

  /** The table with a temporary special. */
  function With(t: Table, c: byte): Table {
    if c == 0 then t else t[c := t[c].(s := true)]
  }

  /** scan822 on a single line: the tokens of the text, with c1 and c2 as additional specials.  The table
      is restored, except that a special given twice stays one. */
  method Scan822(ctype: array<Class>, text: seq<byte>, c1: byte, c2: byte) returns (tokens: seq<Token>)
    requires IsTable(ctype)
    modifies ctype
    ensures tokens == Scan(With(With(old(ctype[..]), c1), c2), text)
    ensures ctype[..] == if text != [] && c1 == c2 then With(old(ctype[..]), c1) else old(ctype[..])
  {
    if text == [] { return []; }
    var sc1, sc2 := ctype[0], ctype[0];
    if c1 != 0 {
      sc1 := ctype[c1];
      ctype[c1] := sc1.(s := true);
    }
    if c2 != 0 {
      sc2 := ctype[c2];
      ctype[c2] := sc2.(s := true);
    }
    assert ctype[..] == With(With(old(ctype[..]), c1), c2);
    tokens := ScanAll(ctype, text);
    if c1 != 0 { ctype[c1] := sc1; }
    if c2 != 0 { ctype[c2] := sc2; }
  }

  /** A special that is given twice stays one: here the exclamation mark. */
  method SpecialStays(ctype: array<Class>) returns (tokens: seq<Token>)
    requires IsTable(ctype) && !ctype[33].s
    modifies ctype
    ensures ctype[33].s && ctype[..] != old(ctype[..])
  {
    tokens := Scan822(ctype, [33], 33, 33);
    assert ctype[..][33].s && !old(ctype[..])[33].s;
  }

  // ------------------------------------------------------------------ printdToken

  /** Doubles the buffer until there is room for `need` bytes. */
  method Extend(buf: array<byte>, used: nat, need: nat) returns (buf': array<byte>)
    requires 0 < buf.Length && used <= buf.Length
    ensures buf'.Length >= need && used <= buf'.Length && buf'[..used] == buf[..used]
    ensures buf' == buf || fresh(buf')
  {
    buf' := buf;
    while need > buf'.Length
      invariant 0 < buf'.Length && used <= buf'.Length && buf'[..used] == buf[..used] && (buf' == buf || fresh(buf'))
      decreases need - buf'.Length
    {
      var larger := new byte[2 * buf'.Length](_ => 0);
      forall k | 0 <= k < used { larger[k] := buf'[k]; }
      assert larger[..used] == buf'[..used];
      buf' := larger;
    }
  }

  method Put(buf: array<byte>, at: nat, s: seq<byte>)
    requires at + |s| <= buf.Length
    modifies buf
    ensures buf[..at + |s|] == old(buf[..at]) + s
  {
    for k := 0 to |s|
      invariant buf[..at + k] == old(buf[..at]) + s[..k]
    {
      buf[at + k] := s[k];
      assert s[..k + 1] == s[..k] + [s[k]];
    }
    assert s[..|s|] == s;
  }

  /** Appends one token, in a buffer that is extended if needed. */
  method PutToken(buf0: array<byte>, n0: nat, t: Token, quotespecials: bool, w: Message -> seq<byte>) returns (buf: array<byte>, n: nat)
    requires n0 < buf0.Length
    modifies buf0
    ensures n < buf.Length && buf[..n] == old(buf0[..n0]) + Shown(t, quotespecials, w)
    ensures buf == buf0 || fresh(buf)
  {
    buf := Extend(buf0, n0, n0 + 3 + |Letters(t, w)|);
    Put(buf, n0, Shown(t, quotespecials, w));
    n := n0 + |Shown(t, quotespecials, w)|;
  }

  lemma PrintNext(tokens: seq<Token>, i: nat, q: bool, w: Message -> seq<byte>)
    requires i < |tokens|
    ensures Print(tokens[..i + 1], q, w) == Print(tokens[..i], q, w) + Shown(tokens[i], q, w)
  {
    assert tokens[..i + 1] == tokens[..i] + [tokens[i]];
    PrintConcat(tokens[..i], [tokens[i]], q, w);
    PrintOne(tokens[i], q, w);
  }

  /** The loop of printdToken, for any wording of the messages. */
  method PrintTokens(buf0: array<byte>, tokens: seq<Token>, quotespecials: bool, w: Message -> seq<byte>) returns (buf: array<byte>, n: nat)
    requires buf0.Length > 0
    modifies buf0
    ensures n < buf.Length && buf[..n] == Print(tokens, quotespecials, w) && buf[n] == 0
    ensures buf == buf0 || fresh(buf)
  {
    buf, n := buf0, 0;
    for i := 0 to |tokens|
      invariant n < buf.Length && (buf == buf0 || fresh(buf))
      invariant buf[..n] == Print(tokens[..i], quotespecials, w)
    {
      buf, n := PutToken(buf, n, tokens[i], quotespecials, w);
      PrintNext(tokens, i, quotespecials, w);
    }
    assert tokens[..|tokens|] == tokens;
    buf[n] := 0;
  }

  /** printdToken: the text of the tokens and a NUL, in a buffer that is extended where needed. */
  method PrintdToken(buf0: array<byte>, tokens: seq<Token>, quotespecials: bool) returns (buf: array<byte>, n: nat)
    requires buf0.Length > 0
    modifies buf0
    ensures n < buf.Length && buf[..n] == Print(tokens, quotespecials, Wording) && buf[n] == 0
    ensures buf == buf0 || fresh(buf)
  {
    buf, n := PrintTokens(buf0, tokens, quotespecials, Wording);
  }

  /** Scanning a line and printing its tokens rebuilds it, if no token is an error, a comment or overlong. */
  method ThereAndBack(ctype: array<Class>, text: seq<byte>, c1: byte, c2: byte, buf0: array<byte>)
    returns (tokens: seq<Token>, buf: array<byte>, n: nat)
    requires IsTable(ctype) && buf0.Length > 0
    modifies ctype, buf0
    ensures Clean(tokens) ==> n < buf.Length && buf[..n] == text
  {
    tokens := Scan822(ctype, text, c1, c2);
    ghost var t := With(With(old(ctype[..]), c1), c2);
    if Clean(tokens) { ScanThenPrint(t, text, Wording); }
    buf, n := PrintdToken(buf0, tokens, false);
  }
}
