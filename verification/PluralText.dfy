/**
 The texts of plural expressions: what the lexical analysis of zmailer/intl/plural.c makes of every character,
 and the reading of sentences that are written with any blanks between their tokens.
 */
module PluralText {
  import opened Sequences
  import opened Numerals
  import opened PluralGrammar
  import opened PluralMachine
  import opened PluralLexer
  import opened PluralParser

  // ------------------------------------------------------------------ every character

  /** Spaces and tabs are skipped. */
  lemma BlankSkipped(c: char, s: string)
    requires c == ' ' || c == '\t'
    ensures Tokens([c] + s) == Tokens(s)
  {
    assert ([c] + s)[1..] == s;
  }

  /** A semicolon, a newline or the end of the text ends the tokens. */
  lemma TextEnds(c: char, s: string)
    requires c == ';' || c == '\n' || c == '\0'
    ensures Tokens([c] + s) == [] && Tokens([]) == []
  {
  }

  lemma TokensOf(c: char, s: string, t: Token, rest: string)
    requires c != ' ' && c != '\t' && Token1([c] + s) == (Tok(t), rest)
    ensures Tokens([c] + s) == [t] + Tokens(rest)
  {
    TokensStep([c] + s, t, rest);
  }

  /** The tokens of one character. */
  function Single(c: char): (t: Token) {
    match c
    case '*' => Operator(Mult) case '/' => Operator(Divide) case '%' => Operator(Module)
    case '+' => Operator(Plus) case '-' => Operator(Minus)
    case 'n' => N case '?' => Question case ':' => Colon case '(' => LParen case ')' => RParen
    case _ => Bad
  }

  predicate Known(c: char) {
    || '0' <= c <= '9' || c == '=' || c == '!' || c == '&' || c == '|' || c == '<' || c == '>'
    || c == ' ' || c == '\t' || c == ';' || c == '\n' || c == '\0'
  }

  /** A character that begins no longer token stands for itself; one that is not in the list is an error. */
  lemma SingleToken(c: char, s: string)
    requires !Known(c)
    ensures Tokens([c] + s) == [Single(c)] + Tokens(s)
  {
    assert ([c] + s)[1..] == s;
    TokensOf(c, s, Single(c), s);
  }

  /** What the characters of comparisons and logical operators are, with an equals sign or the same character
      after them, and without. */
  function WithNext(c: char): Token {
    match c
    case '=' => Operator(Equal) case '!' => Operator(NotEqual) case '&' => Operator(LAnd) case '|' => Operator(LOr)
    case '<' => Operator(LessOrEqual) case '>' => Operator(GreaterOrEqual)
    case _ => Bad
  }

  function Alone(c: char): Token {
    match c
    case '!' => Bang case '<' => Operator(LessThan) case '>' => Operator(GreaterThan)
    case _ => Bad
  }

  function Expected(c: char): char {
    if c == '&' then '&' else if c == '|' then '|' else '='
  }

  lemma DoubleToken(c: char, s: string)
    requires c == '=' || c == '!' || c == '&' || c == '|' || c == '<' || c == '>'
    ensures s != [] && s[0] == Expected(c) ==> Tokens([c] + s) == [WithNext(c)] + Tokens(s[1..])
    ensures s == [] || s[0] != Expected(c) ==> Tokens([c] + s) == [Alone(c)] + Tokens(s)
  {
    assert ([c] + s)[1..] == s;
    if s != [] && s[0] == Expected(c) {
      TokensOf(c, s, WithNext(c), s[1..]);
    } else {
      TokensOf(c, s, Alone(c), s);
    }
  }

  /** A run of digits is its decimal number modulo 2^64. */
  lemma DigitsToken(d: string, s: string)
    requires d != [] && AllDigits(d) && (s == [] || !('0' <= s[0] <= '9'))
    ensures Tokens(d + s) == [Number(Decimal(d) % 0x1_0000_0000_0000_0000)] + Tokens(s)
  {
    var t := d + s;
    assert t[..|d|] == d && t[|d|..] == s;
    RunIs(t, |d|);
    assert First(t) == d[0];
    TokensStep(t, Number(Decimal(d) % 0x1_0000_0000_0000_0000), s);
  }

  // ------------------------------------------------------------------ tokens with blanks between them

  predicate Blanks(g: string) {
    forall i :: 0 <= i < |g| ==> g[i] == ' ' || g[i] == '\t'
  }

  lemma {:induction false} BlanksSkipped(g: string, s: string)
    requires Blanks(g)
    ensures Tokens(g + s) == Tokens(s)
  {
    if g == [] {
      assert g + s == s;
    } else {
      assert g + s == [g[0]] + (g[1..] + s);
      BlankSkipped(g[0], g[1..] + s);
      BlanksSkipped(g[1..], s);
    }
  }

  function Spell(t: Token): (s: string)
    ensures t != Bad ==> s != []
  {
    match t
    case Bad => ""
    case Question => "?"
    case Operator(op) => ShowOp(op)
    case Bang => "!"
    case Number(n) => ShowNumber(n)
    case Colon => ":"
    case N => "n"
    case LParen => "("
    case RParen => ")"
  }

  predicate Legal(t: Token) {
    t != Bad && (t.Number? ==> t.n < 0x1_0000_0000_0000_0000)
  }

  /** The character c may stand directly behind t. */
  predicate MayTouch(t: Token, c: char) {
    (t.Number? ==> !('0' <= c <= '9')) && (t == Bang || t == Operator(LessThan) || t == Operator(GreaterThan) ==> c != '=')
  }

  lemma SpellReads(t: Token, s: string)
    requires Legal(t) && MayTouch(t, First(s))
    ensures Tokens(Spell(t) + s) == [t] + Tokens(s)
  {
    if t.Number? {
      SpellNumber(t.n, s);
    } else if t.Operator? && |ShowOp(t.op)| == 2 {
      SpellLongOp(t.op, s);
    } else {
      OneCharacter(t, s);
    }
  }

  lemma SpellNumber(n: nat, s: string)
    requires n < 0x1_0000_0000_0000_0000 && !('0' <= First(s) <= '9')
    ensures Tokens(ShowNumber(n) + s) == [Number(n)] + Tokens(s)
  {
    ReadsNumber(n, s);
    assert Reads(ShowNumber(n), [Number(n)], s);
  }

  lemma SpellLongOp(op: Op, s: string)
    requires |ShowOp(op)| == 2
    ensures Tokens(ShowOp(op) + s) == [Operator(op)] + Tokens(s)
  {
    ReadsLongOp(op, s);
    assert Reads(ShowOp(op), [Operator(op)], s);
  }

  lemma CharacterOf(t: Token)
    requires Legal(t) && !t.Number? && |Spell(t)| == 1
    ensures var c := Spell(t)[0];
      if t == Bang || t == Operator(LessThan) || t == Operator(GreaterThan)
      then (c == '!' || c == '<' || c == '>') && Alone(c) == t
      else !Known(c) && Single(c) == t
  {
  }

  lemma OneCharacter(t: Token, s: string)
    requires Legal(t) && !t.Number? && |Spell(t)| == 1 && MayTouch(t, First(s))
    ensures Tokens(Spell(t) + s) == [t] + Tokens(s)
  {
    var c := Spell(t)[0];
    assert Spell(t) == [c];
    CharacterOf(t);
    if t == Bang || t == Operator(LessThan) || t == Operator(GreaterThan) {
      DoubleToken(c, s);
    } else {
      SingleToken(c, s);
    }
  }

  /** The tokens with the gaps in front of them. */
  function Spelled(toks: seq<Token>, gaps: seq<string>): string
    requires |gaps| == |toks|
  {
    if toks == [] then "" else gaps[0] + (Spell(toks[0]) + Spelled(toks[1..], gaps[1..]))
  }

  predicate MayFollow(t: Token, u: Token) {
    !(t.Number? && u.Number?) && !((t == Bang || t == Operator(LessThan) || t == Operator(GreaterThan)) && u == Operator(Equal))
  }

  /** The tokens are legal, the gaps are blanks, and neighbours without a gap can be told apart. */
  ghost predicate Spaced(toks: seq<Token>, gaps: seq<string>) {
    && |gaps| == |toks|
    && (forall i {:trigger toks[i]} :: 0 <= i < |toks| ==> Legal(toks[i]))
    && (forall i {:trigger gaps[i]} :: 0 <= i < |gaps| ==> Blanks(gaps[i]))
    && (forall i {:trigger gaps[i]} :: 1 <= i < |toks| ==> gaps[i] != "" || MayFollow(toks[i - 1], toks[i]))
  }

  lemma SpacedRest(toks: seq<Token>, gaps: seq<string>)
    requires toks != [] && Spaced(toks, gaps)
    ensures Spaced(toks[1..], gaps[1..]) && Legal(toks[0]) && Blanks(gaps[0])
  {
    forall i | 1 <= i < |toks| - 1 ensures gaps[1..][i] != "" || MayFollow(toks[1..][i - 1], toks[1..][i]) {
      assert gaps[i + 1] == gaps[1..][i];
    }
  }

  lemma FirstOfSpell(t: Token, u: Token, s: string)
    requires Legal(t) && Legal(u) && MayFollow(t, u)
    ensures MayTouch(t, First(Spell(u) + s))
  {
    if u.Number? { assert IsDigit(ShowNumber(u.n)[0]); }
  }

  lemma FirstOfRest(t: Token, toks: seq<Token>, gaps: seq<string>, rest: string)
    requires Legal(t) && Spaced(toks, gaps) && toks != [] && (gaps[0] != "" || MayFollow(t, toks[0]))
    ensures MayTouch(t, First(Spelled(toks, gaps) + rest))
  {
    SpacedRest(toks, gaps);
    var s := Spelled(toks[1..], gaps[1..]) + rest;
    Reassociate(gaps[0], Spell(toks[0]), Spelled(toks[1..], gaps[1..]), rest);
    if gaps[0] == "" {
      FirstOfSpell(t, toks[0], s);
    } else {
      assert First(gaps[0] + (Spell(toks[0]) + s)) == gaps[0][0];
    }
  }

  lemma Reassociate(g: string, s: string, m: string, rest: string)
    ensures (g + (s + m)) + rest == g + (s + (m + rest)) && (g == "" ==> g + (s + (m + rest)) == s + (m + rest))
  {
    Regroup(g, s + m, rest);
    Regroup(s, m, rest);
  }

  lemma SpelledStep(toks: seq<Token>, gaps: seq<string>, rest: string)
    requires toks != [] && Spaced(toks, gaps) && MayTouch(toks[0], First(Spelled(toks[1..], gaps[1..]) + rest))
    ensures Tokens(Spelled(toks, gaps) + rest) == [toks[0]] + Tokens(Spelled(toks[1..], gaps[1..]) + rest)
  {
    SpacedRest(toks, gaps);
    var more := Spelled(toks[1..], gaps[1..]) + rest;
    Reassociate(gaps[0], Spell(toks[0]), Spelled(toks[1..], gaps[1..]), rest);
    BlanksSkipped(gaps[0], Spell(toks[0]) + more);
    SpellReads(toks[0], more);
  }

  /** The lexer reads the tokens back, whatever blanks are between them. */
  lemma {:induction false} ReadsSpelled(toks: seq<Token>, gaps: seq<string>, rest: string)
    requires Spaced(toks, gaps) && (toks != [] ==> MayTouch(toks[|toks| - 1], First(rest)))
    ensures Tokens(Spelled(toks, gaps) + rest) == toks + Tokens(rest)
    decreases |toks|
  {
    if toks == [] {
      assert Spelled(toks, gaps) + rest == rest;
    } else {
      SpacedRest(toks, gaps);
      if |toks| > 1 {
        FirstOfRest(toks[0], toks[1..], gaps[1..], rest);
      } else {
        assert Spelled(toks[1..], gaps[1..]) + rest == rest;
      }
      SpelledStep(toks, gaps, rest);
      ReadsSpelled(toks[1..], gaps[1..], rest);
      assert toks == [toks[0]] + toks[1..];
      Regroup([toks[0]], toks[1..], Tokens(rest));
    }
  }

  // ------------------------------------------------------------------ sentences

  /** Neighbours in toks can be told apart without a gap. */
  ghost predicate Touching(toks: seq<Token>) {
    forall i {:trigger toks[i]} :: 1 <= i < |toks| ==> MayFollow(toks[i - 1], toks[i])
  }

  predicate Opens(t: Token) {
    t == N || t.Number? || t == LParen || t == Bang
  }

  predicate Closes(t: Token) {
    t == N || t.Number? || t == RParen
  }

  lemma TouchingConcat(a: seq<Token>, b: seq<Token>)
    requires Touching(a) && Touching(b) && a != [] && b != [] && MayFollow(a[|a| - 1], b[0])
    ensures Touching(a + b) && (a + b)[0] == a[0] && (a + b)[|a + b| - 1] == b[|b| - 1]
  {
    var s := a + b;
    forall i | 1 <= i < |s| ensures MayFollow(s[i - 1], s[i]) {
      if i < |a| {
        assert s[i - 1] == a[i - 1] && s[i] == a[i];
      } else if i > |a| {
        assert s[i - 1] == b[i - |a| - 1] && s[i] == b[i - |a|];
      }
    }
  }

  /** What can stand between operators. */
  ghost predicate Solid(toks: seq<Token>) {
    toks != [] && Touching(toks) && Opens(toks[0]) && Closes(toks[|toks| - 1])
  }

  /** Every sentence begins and ends as an operand, and needs no blanks. */
  lemma {:induction false} YieldTouches(c: Cst)
    ensures Solid(Yield(c))
  {
    match c
    case CVar => SolidOne(N);
    case CNum(n) => SolidOne(Number(n));
    case CParen(a) =>
      YieldTouches(a);
      SolidParen(Yield(a));
    case CNot(a) =>
      YieldTouches(a);
      TouchingConcat([Bang], Yield(a));
    case CBinary(op, l, r) =>
      YieldTouches(l);
      YieldTouches(r);
      SolidMiddle(Yield(l), Operator(op), Yield(r));
    case CCond(t, y, n) =>
      YieldTouches(t);
      YieldTouches(y);
      YieldTouches(n);
      SolidMiddle(Yield(t), Question, Yield(y));
      SolidMiddle(Yield(t) + [Question] + Yield(y), Colon, Yield(n));
  }

  lemma SolidOne(t: Token)
    requires Opens(t) && Closes(t)
    ensures Solid([t])
  {
  }

  lemma SolidParen(a: seq<Token>)
    requires Solid(a)
    ensures Solid([LParen] + a + [RParen])
  {
    TouchingConcat([LParen], a);
    TouchingConcat([LParen] + a, [RParen]);
  }

  lemma SolidMiddle(a: seq<Token>, t: Token, b: seq<Token>)
    requires Solid(a) && Solid(b) && (t.Operator? || t == Question || t == Colon)
    ensures Solid(a + [t] + b)
  {
    TouchingConcat(a, [t]);
    TouchingConcat(a + [t], b);
  }

  ghost predicate AllLegal(toks: seq<Token>) {
    forall i {:trigger toks[i]} :: 0 <= i < |toks| ==> Legal(toks[i])
  }

  lemma LegalConcat(a: seq<Token>, b: seq<Token>)
    requires AllLegal(a) && AllLegal(b)
    ensures AllLegal(a + b)
  {
  }

  lemma {:induction false} YieldLegal(c: Cst)
    requires InRange(Tree(c))
    ensures AllLegal(Yield(c))
  {
    match c
    case CVar =>
    case CNum(_) =>
    case CParen(a) =>
      YieldLegal(a);
      LegalConcat([LParen], Yield(a));
      LegalConcat([LParen] + Yield(a), [RParen]);
    case CNot(a) =>
      YieldLegal(a);
      LegalConcat([Bang], Yield(a));
    case CBinary(op, l, r) =>
      YieldLegal(l);
      YieldLegal(r);
      LegalConcat(Yield(l), [Operator(op)]);
      LegalConcat(Yield(l) + [Operator(op)], Yield(r));
    case CCond(t, y, n) =>
      YieldLegal(t);
      YieldLegal(y);
      YieldLegal(n);
      LegalConcat(Yield(t), [Question]);
      LegalConcat(Yield(t) + [Question], Yield(y));
      LegalConcat(Yield(t) + [Question] + Yield(y), [Colon]);
      LegalConcat(Yield(t) + [Question] + Yield(y) + [Colon], Yield(n));
  }

  lemma SentenceSpaced(c: Cst, gaps: seq<string>)
    requires InRange(Tree(c)) && |gaps| == |Yield(c)| && forall i {:trigger gaps[i]} :: 0 <= i < |gaps| ==> Blanks(gaps[i])
    ensures Spaced(Yield(c), gaps)
  {
    YieldLegal(c);
    YieldTouches(c);
    forall i {:trigger gaps[i]} | 1 <= i < |gaps| ensures MayFollow(Yield(c)[i - 1], Yield(c)[i]) {
      assert Legal(Yield(c)[i]);
    }
  }

  lemma SentenceTokens(c: Cst, gaps: seq<string>, g: string, end: string)
    requires InRange(Tree(c)) && |gaps| == |Yield(c)| && Blanks(g) && (forall i {:trigger gaps[i]} :: 0 <= i < |gaps| ==> Blanks(gaps[i]))
    requires end == [] || end[0] == ';' || end[0] == '\n' || end[0] == '\0'
    ensures Tokens(Spelled(Yield(c), gaps) + (g + end)) == Yield(c)
  {
    SentenceSpaced(c, gaps);
    YieldTouches(c);
    BlanksSkipped(g, end);
    if end != [] {
      assert end == [end[0]] + end[1..];
      TextEnds(end[0], end[1..]);
    } else {
      TextEnds(';', []);
    }
    assert First(g + end) == if g != [] then g[0] else First(end);
    ReadsSpelled(Yield(c), gaps, g + end);
    assert Yield(c) + [] == Yield(c);
  }

  /** Every sentence, with any blanks between its tokens and behind it, up to the end of the text, a `;` or a
      newline, is parsed as its expression, exactly if its derivation needs fewer than 9999 places of the
      stack. */
  lemma ParsesSpelled(c: Cst, gaps: seq<string>, g: string, end: string, code: int, res: Value)
    requires Ok(c) && InRange(Tree(c)) && |gaps| == |Yield(c)| && Blanks(g)
    requires forall i {:trigger gaps[i]} :: 0 <= i < |gaps| ==> Blanks(gaps[i])
    requires end == [] || end[0] == ';' || end[0] == '\n' || end[0] == '\0'
    requires Correct(Spelled(Yield(c), gaps) + (g + end), code, res)
    ensures code == 0 && res == VExp(Tree(c)) <==> Depth(c) < 9999
    ensures Depth(c) >= 9999 ==> code == 2
  {
    SentenceTokens(c, gaps, g, end);
    assert Derives(Spelled(Yield(c), gaps) + (g + end), c);
  }

  // ------------------------------------------------------------------ some formulas

  lemma GermanicText()
    ensures Spelled([N, Operator(NotEqual), Number(1)], ["", " ", " "]) == "n != 1"
  {
    assert ShowNumber(1) == "1";
    assert Spelled([Number(1)], [" "]) == " 1";
    assert Spelled([Operator(NotEqual), Number(1)], [" ", " "]) == " != 1";
  }

  /** The formula of the Germanic languages. */
  lemma Germanic(code: int, res: Value)
    requires Correct("n != 1;", code, res)
    ensures code == 0 && res == VExp(Binary(NotEqual, Var, Num(1)))
  {
    var c, gaps := CBinary(NotEqual, CVar, CNum(1)), ["", " ", " "];
    assert Yield(c) == [N, Operator(NotEqual), Number(1)];
    GermanicText();
    assert "n != 1" + ("" + ";") == "n != 1;";
    ParsesSpelled(c, gaps, "", ";", code, res);
  }

  /** How tight an operator binds. */
  function Tightness(op: Op): int {
    match op
    case LOr => 1
    case LAnd => 2
    case Equal => 3 case NotEqual => 3
    case LessThan => 4 case GreaterThan => 4 case LessOrEqual => 4 case GreaterOrEqual => 4
    case Plus => 5 case Minus => 5
    case Mult => 6 case Divide => 6 case Module => 6
  }

  /** Two operators in a row: the second takes the middle operand exactly if it binds tighter. */
  lemma TwoOperators(a: Cst, op: Op, b: Cst, op': Op, d: Cst) returns (c: Cst)
    requires Ok(a) && Ok(b) && Ok(d) && Level(a) == Level(b) == Level(d) == 11
    ensures Ok(c) && Yield(c) == Yield(a) + ([Operator(op)] + (Yield(b) + ([Operator(op')] + Yield(d))))
    ensures Tree(c) == if Tightness(op') > Tightness(op) then Binary(op, Tree(a), Binary(op', Tree(b), Tree(d)))
                       else Binary(op', Binary(op, Tree(a), Tree(b)), Tree(d))
  {
    var x, y, z, t, t' := Yield(a), Yield(b), Yield(d), [Operator(op)], [Operator(op')];
    if Tightness(op') > Tightness(op) {
      c := CBinary(op, a, CBinary(op', b, d));
      Regroup(x, t, y + t' + z);
      Regroup(y, t', z);
    } else {
      c := CBinary(op', CBinary(op, a, b), d);
      FiveInARow(x, t, y, t', z);
    }
  }

  lemma FiveInARow(x: seq<Token>, t: seq<Token>, y: seq<Token>, t': seq<Token>, z: seq<Token>)
    ensures x + t + y + t' + z == x + (t + (y + (t' + z)))
  {
    Regroup(x + t + y, t', z);
    Regroup(x + t, y, t' + z);
    Regroup(x, t, y + (t' + z));
  }

  // ------------------------------------------------------------------ arithmetic modulo 2^64

  predicate RingOnly(e: Exp) {
    e.Var? || e.Num? || (e.Binary? && (e.op == Plus || e.op == Minus || e.op == Mult) && RingOnly(e.left) && RingOnly(e.right))
  }

  /** The value in the integers, without any bounds. */
  function IntValue(e: Exp, n: int): int
    requires RingOnly(e)
  {
    match e
    case Var => n
    case Num(k) => k
    case Binary(Plus, l, r) => IntValue(l, n) + IntValue(r, n)
    case Binary(Minus, l, r) => IntValue(l, n) - IntValue(r, n)
    case Binary(_, l, r) => IntValue(l, n) * IntValue(r, n)
  }

  lemma Reduced(x: int) returns (q: int)
    ensures x == Mod64(x) + q * 0x1_0000_0000_0000_0000
  {
    q := x / 0x1_0000_0000_0000_0000;
  }

  lemma ProductModulo(a: int, b: int, p: int, q: int, w: int) returns (k: int)
    ensures (a + p * w) * (b + q * w) == a * b + k * w
  {
    k := a * q + b * p + p * q * w;
  }

  /** Sums, differences and products are computed modulo 2^64. */
  lemma {:induction false} EvalModulo(e: Exp, n: nat) returns (q: int)
    requires InRange(e) && RingOnly(e) && n < 0x1_0000_0000_0000_0000
    ensures Eval(e, n).Value64? && IntValue(e, n) == Eval(e, n).v + q * 0x1_0000_0000_0000_0000
  {
    if e.Binary? {
      var p := EvalModulo(e.left, n);
      var r := EvalModulo(e.right, n);
      var a, b := Eval(e.left, n).v, Eval(e.right, n).v;
      EvalBinary(e.op, e.left, e.right, n, a, b);
      q := RingStep(e.op, a, b, p, r);
    } else {
      q := 0;
    }
  }

  lemma RingStep(op: Op, a: nat, b: nat, p: int, r: int) returns (q: int)
    requires (op == Plus || op == Minus || op == Mult) && a < 0x1_0000_0000_0000_0000 && b < 0x1_0000_0000_0000_0000
    ensures var x, y := a + p * 0x1_0000_0000_0000_0000, b + r * 0x1_0000_0000_0000_0000;
      (if op == Plus then x + y else if op == Minus then x - y else x * y) == Apply(op, a, b).v + q * 0x1_0000_0000_0000_0000
  {
    if op == Plus {
      q := Reduced(a + b);
      q := q + p + r;
    } else if op == Minus {
      q := Reduced(a - b);
      q := q + p - r;
    } else {
      var k := ProductModulo(a, b, p, r, 0x1_0000_0000_0000_0000);
      q := Reduced(Times(a, b));
      q := q + k;
    }
  }
}
