/**
 The lexical analysis of plural expressions, and a printer that it inverts.
 */
module PluralLexer {
  import opened PluralGrammar
  import opened Numerals

  /** 2^64, the range of unsigned long int. */
  const WORD: nat := 0x1_0000_0000_0000_0000

  /** YYEOF, or a token with the value that yylex leaves in lval. */
  datatype Lexeme = Eof | Tok(t: Token)

  /** exp[0]: a C string ends with a NUL. */
  function First(s: string): char {
    if s == [] then '\0' else s[0]
  }

  // ------------------------------------------------------------------ what the lexer means

  /** The longest prefix of digits. */
  function Run(s: string): (n: nat)
    ensures n <= |s| && (forall i :: 0 <= i < n ==> IsDigit(s[i])) && !IsDigit(First(s[n..]))
  {
    if IsDigit(First(s)) then 1 + Run(s[1..]) else 0
  }

  function Blank(c: char): bool {
    c == ' ' || c == '\t'
  }

  function Skip(s: string): (r: string)
    ensures |r| <= |s| && !Blank(First(r))
  {
    if Blank(First(s)) then Skip(s[1..]) else s
  }

  /** One character, or two if the second is '='. */
  function MaybeEqual(r: string, with: Token, without: Token): (Lexeme, string) {
    if First(r) == '=' then (Tok(with), r[1..]) else (Tok(without), r)
  }

  function Doubled(r: string, c: char, t: Token): (Lexeme, string) {
    if First(r) == c then (Tok(t), if r == [] then r else r[1..]) else (Tok(Bad), r)
  }

  /** The token at the beginning of a text that does not begin with a blank, and what follows. */
  function Token1(s: string): (Lexeme, string) {
    var c := First(s);
    if c == '\0' || c == ';' || c == '\n' then (Eof, s)
    else if IsDigit(c) then (Tok(Number(Wrap(Decimal(s[..Run(s)])))), s[Run(s)..])
    else
      var r := s[1..];
      match c
      case '=' => MaybeEqual(r, Operator(Equal), Bad)
      case '!' => MaybeEqual(r, Operator(NotEqual), Bang)
      case '&' => Doubled(r, '&', Operator(LAnd))
      case '|' => Doubled(r, '|', Operator(LOr))
      case '<' => MaybeEqual(r, Operator(LessOrEqual), Operator(LessThan))
      case '>' => MaybeEqual(r, Operator(GreaterOrEqual), Operator(GreaterThan))
      case '*' => (Tok(Operator(Mult)), r)
      case '/' => (Tok(Operator(Divide)), r)
      case '%' => (Tok(Operator(Module)), r)
      case '+' => (Tok(Operator(Plus)), r)
      case '-' => (Tok(Operator(Minus)), r)
      case 'n' => (Tok(N), r)
      case '?' => (Tok(Question), r)
      case ':' => (Tok(Colon), r)
      case '(' => (Tok(LParen), r)
      case ')' => (Tok(RParen), r)
      case _ => (Tok(Bad), r)
  }

  lemma Token1Shrinks(s: string)
    ensures |Token1(s).1| <= |s| && (Token1(s).0.Tok? ==> |Token1(s).1| < |s|)
    ensures Token1(s).0.Eof? ==> Token1(s).1 == s
  {
  }

  /** All tokens of a text up to the end marker. */
  function Tokens(s: string): seq<Token>
    decreases |s|
  {
    Token1Shrinks(Skip(s));
    var (x, r) := Token1(Skip(s));
    if x.Eof? then [] else [x.t] + Tokens(r)
  }

  // ------------------------------------------------------------------ yylex

  /** Reducing after every operation is the same as reducing once. */
  lemma WrapStep(a: nat, b: nat, d: nat)
    requires b == Wrap(a)
    ensures Wrap(Wrap(b * 10) + d) == Wrap(10 * a + d)
  {
    var q, r := a / WORD, (b * 10) / WORD;
    assert 10 * a + d == ((b * 10) % WORD + d) + (10 * q + r) * WORD;
    WrapMultiple((b * 10) % WORD + d, 10 * q + r);
  }

  lemma WrapMultiple(x: nat, q: nat)
    ensures (x + q * WORD) % WORD == x % WORD
  {
  }

  function Wrap(n: nat): nat {
    n % WORD
  }

  lemma WrapSmall(n: nat)
    requires n < WORD
    ensures Wrap(n) == n
  {
  }

  lemma {:induction false} RunIs(s: string, k: nat)
    requires k <= |s| && AllDigits(s[..k]) && !IsDigit(First(s[k..]))
    ensures Run(s) == k
  {
    if k > 0 {
      assert IsDigit(s[..k][0]);
      assert s[1..][..k - 1] == s[..k][1..] && s[1..][k - 1..] == s[k..];
      RunIs(s[1..], k - 1);
    }
  }

  /** The digits loop of yylex, with the arithmetic of unsigned long. */
  method YyNumber(text: string, cp: nat) returns (n: nat, end: nat)
    requires cp < |text| && IsDigit(text[cp])
    ensures end == cp + Run(text[cp..]) <= |text|
    ensures n == Wrap(Decimal(text[cp..][..Run(text[cp..])]))
  {
    ghost var s := text[cp..];
    n, end := Digit(text[cp]), cp + 1;
    DecimalGrows(s, 0);
    WrapSmall(n);
    while end < |text| && IsDigit(text[end])
      invariant cp < end <= |text| && AllDigits(s[..end - cp])
      invariant n == Wrap(Decimal(s[..end - cp]))
    {
      DecimalGrows(s, end - cp);
      WrapStep(Decimal(s[..end - cp]), n, Digit(text[end]));
      n := Wrap(n * 10);
      n := Wrap(n + Digit(text[end]));
      end := end + 1;
    }
    assert s[end - cp..] == text[end..];
    RunIs(s, end - cp);
  }

  function CharAt(text: string, i: nat): char {
    if i < |text| then text[i] else '\0'
  }

  /** yylex: the next token and the moved cursor, which never passes the NUL. */
  method YyLex(text: string, cp: nat) returns (x: Lexeme, cp': nat)
    requires cp <= |text|
    ensures cp <= cp' <= |text|
    ensures (x, text[cp'..]) == Token1(Skip(text[cp..]))
  {
    cp' := SkipBlanks(text, cp);
    ghost var s := text[cp'..];
    var c := CharAt(text, cp');
    if c == '\0' || c == ';' || c == '\n' {
      return Eof, cp';
    }
    if IsDigit(c) {
      var n;
      n, cp' := YyNumber(text, cp');
      return Tok(Number(n)), cp';
    }
    cp' := cp' + 1;
    assert s == [c] + text[cp'..];
    x, cp' := YySymbol(text, cp', c);
  }

  method SkipBlanks(text: string, cp: nat) returns (cp': nat)
    requires cp <= |text|
    ensures cp <= cp' <= |text| && text[cp'..] == Skip(text[cp..])
  {
    cp' := cp;
    while CharAt(text, cp') == ' ' || CharAt(text, cp') == '\t'
      invariant cp <= cp' <= |text|
      invariant Skip(text[cp..]) == Skip(text[cp'..])
      decreases |text| - cp'
    {
      assert text[cp'..][1..] == text[cp' + 1..];
      cp' := cp' + 1;
    }
  }

  /** The rest of the switch in yylex, after the character c. */
  method YySymbol(text: string, cp: nat, c: char) returns (x: Lexeme, cp': nat)
    requires 1 <= cp <= |text| && c == text[cp - 1] && !IsDigit(c) && c != '\0' && c != ';' && c != '\n'
    ensures cp <= cp' <= |text|
    ensures (x, text[cp'..]) == Token1([c] + text[cp..])
  {
    cp' := cp;
    var next := CharAt(text, cp);
    ghost var s := [c] + text[cp..];
    assert s[1..] == text[cp..];
    assert cp < |text| ==> text[cp + 1..] == text[cp..][1..];
    match c
    case '=' => if next == '=' { cp' := cp' + 1; x := Tok(Operator(Equal)); } else { x := Tok(Bad); }
    case '!' => if next == '=' { cp' := cp' + 1; x := Tok(Operator(NotEqual)); } else { x := Tok(Bang); }
    case '&' => if next == c { cp' := cp' + 1; x := Tok(Operator(LAnd)); } else { x := Tok(Bad); }
    case '|' => if next == c { cp' := cp' + 1; x := Tok(Operator(LOr)); } else { x := Tok(Bad); }
    case '<' => if next == '=' { cp' := cp' + 1; x := Tok(Operator(LessOrEqual)); } else { x := Tok(Operator(LessThan)); }
    case '>' => if next == '=' { cp' := cp' + 1; x := Tok(Operator(GreaterOrEqual)); } else { x := Tok(Operator(GreaterThan)); }
    case '*' => x := Tok(Operator(Mult));
    case '/' => x := Tok(Operator(Divide));
    case '%' => x := Tok(Operator(Module));
    case '+' => x := Tok(Operator(Plus));
    case '-' => x := Tok(Operator(Minus));
    case 'n' => x := Tok(N);
    case '?' => x := Tok(Question);
    case ':' => x := Tok(Colon);
    case '(' => x := Tok(LParen);
    case ')' => x := Tok(RParen);
    case _ => x := Tok(Bad);
  }

  // ------------------------------------------------------------------ a printer

  function ShowOp(op: Op): string {
    match op
    case Mult => "*" case Divide => "/" case Module => "%" case Plus => "+" case Minus => "-"
    case LessThan => "<" case GreaterThan => ">" case LessOrEqual => "<=" case GreaterOrEqual => ">="
    case Equal => "==" case NotEqual => "!=" case LAnd => "&&" case LOr => "||"
  }

  /** The fully parenthesised text of an expression. */
  function Show(e: Exp): (s: string)
    ensures s != [] && (s[0] == 'n' || IsDigit(s[0]) || s[0] == '(')
  {
    match e
    case Var => "n"
    case Num(n) => ShowNumber(n)
    case Not(a) => "(" + "!" + Show(a) + ")"
    case Binary(op, l, r) => "(" + Show(l) + ShowOp(op) + Show(r) + ")"
    case Cond(t, y, n) => "(" + Show(t) + "?" + Show(y) + ":" + Show(n) + ")"
  }

  /** Its derivation. */
  function Full(e: Exp): Cst {
    match e
    case Var => CVar
    case Num(n) => CNum(n)
    case Not(a) => CParen(CNot(Full(a)))
    case Binary(op, l, r) => CParen(CBinary(op, Full(l), Full(r)))
    case Cond(t, y, n) => CParen(CCond(Full(t), Full(y), Full(n)))
  }

  lemma {:induction false} FullDerives(e: Exp)
    ensures Ok(Full(e)) && Level(Full(e)) == 11 && Tree(Full(e)) == e
  {
    match e
    case Var =>
    case Num(_) =>
    case Not(a) => FullDerives(a);
    case Binary(_, l, r) => FullDerives(l); FullDerives(r);
    case Cond(t, y, n) => FullDerives(t); FullDerives(y); FullDerives(n);
  }

  /** All numbers fit an unsigned long. */
  predicate InRange(e: Exp) {
    match e
    case Var => true
    case Num(n) => n < WORD
    case Not(a) => InRange(a)
    case Binary(_, l, r) => InRange(l) && InRange(r)
    case Cond(t, y, n) => InRange(t) && InRange(y) && InRange(n)
  }

  // ------------------------------------------------------------------ reading what was printed

  /** text is read as the tokens toks if `rest` follows. */
  predicate Reads(text: string, toks: seq<Token>, rest: string) {
    Tokens(text + rest) == toks + Tokens(rest)
  }

  lemma ReadsConcat(s: string, s': string, toks: seq<Token>, toks': seq<Token>, rest: string)
    requires Reads(s, toks, s' + rest) && Reads(s', toks', rest)
    ensures Reads(s + s', toks + toks', rest)
  {
    assert (s + s') + rest == s + (s' + rest);
    assert (toks + toks') + Tokens(rest) == toks + (toks' + Tokens(rest));
  }

  lemma TokensStep(s: string, t: Token, rest: string)
    requires !Blank(First(s)) && Token1(s) == (Tok(t), rest)
    ensures Tokens(s) == [t] + Tokens(rest)
  {
  }

  lemma ReadsNumber(n: nat, rest: string)
    requires n < WORD && !IsDigit(First(rest))
    ensures Reads(ShowNumber(n), [Number(n)], rest)
  {
    var d := ShowNumber(n);
    var s := d + rest;
    assert s[..|d|] == d && s[|d|..] == rest;
    RunIs(s, |d|);
    WrapSmall(n);
    assert IsDigit(d[0]) && First(s) == d[0];
    assert Token1(s) == (Tok(Number(n)), rest);
    TokensStep(s, Number(n), rest);
  }

  predicate Operand(rest: string) {
    rest != [] && (rest[0] == 'n' || IsDigit(rest[0]) || rest[0] == '(')
  }

  lemma ReadsOp(op: Op, rest: string)
    requires Operand(rest)
    ensures Reads(ShowOp(op), [Operator(op)], rest)
  {
    if |ShowOp(op)| == 2 { ReadsLongOp(op, rest); } else { ReadsShortOp(op, rest); }
  }

  lemma ReadsLongOp(op: Op, rest: string)
    requires |ShowOp(op)| == 2
    ensures Reads(ShowOp(op), [Operator(op)], rest)
  {
    var s := ShowOp(op) + rest;
    assert s[1..][1..] == rest;
    TokensStep(s, Operator(op), rest);
  }

  lemma ReadsShortOp(op: Op, rest: string)
    requires |ShowOp(op)| == 1 && Operand(rest)
    ensures Reads(ShowOp(op), [Operator(op)], rest)
  {
    var s := ShowOp(op) + rest;
    assert s[1..] == rest;
    TokensStep(s, Operator(op), rest);
  }

  lemma ReadsPunctuation(c: char, rest: string)
    requires c in {'(', ')', '?', ':'}
    ensures Reads([c], [if c == '(' then LParen else if c == ')' then RParen else if c == '?' then Question else Colon], rest)
  {
    assert ([c] + rest)[1..] == rest;
  }

  lemma ReadsBang(rest: string)
    requires Operand(rest)
    ensures Reads("!", [Bang], rest)
  {
    assert ("!" + rest)[1..] == rest;
  }

  lemma OpStarts(op: Op, rest: string)
    ensures !IsDigit(First(ShowOp(op) + rest))
  {
  }

  /** The lexer reads the printed text of an expression as the sentence of its derivation. */
  lemma {:induction false} ReadsShow(e: Exp, rest: string)
    requires InRange(e) && !IsDigit(First(rest))
    ensures Reads(Show(e), Yield(Full(e)), rest)
    decreases e, 1
  {
    match e
    case Var => assert ("n" + rest)[1..] == rest;
    case Num(n) => ReadsNumber(n, rest);
    case Not(_) => ReadsNot(e, rest);
    case Binary(_, _, _) => ReadsBinary(e, rest);
    case Cond(_, _, _) => ReadsCond(e, rest);
  }

  lemma {:induction false} ReadsNot(e: Exp, rest: string)
    requires e.Not? && InRange(e) && !IsDigit(First(rest))
    ensures Reads(Show(e), Yield(Full(e)), rest)
    decreases e, 0
  {
    var a, toks, rest' := Show(e.arg), Yield(Full(e.arg)), ")" + rest;
    var s := "!" + a;
    ReadsPunctuation(')', rest);
    ReadsShow(e.arg, rest');
    ReadsBang(a + rest');
    ReadsConcat("!", a, [Bang], toks, rest');
    ReadsPunctuation('(', s + rest');
    ReadsConcat("(", s, [LParen], [Bang] + toks, rest');
    ReadsConcat("(" + s, ")", [LParen] + ([Bang] + toks), [RParen], rest);
    assert "(" + "!" + a == "(" + s;
  }

  lemma {:induction false} ReadsBinary(e: Exp, rest: string)
    requires e.Binary? && InRange(e) && !IsDigit(First(rest))
    ensures Reads(Show(e), Yield(Full(e)), rest)
    decreases e, 0
  {
    var l, o, r := Show(e.left), ShowOp(e.op), Show(e.right);
    var tl, tr := Yield(Full(e.left)), Yield(Full(e.right));
    ReadsPunctuation(')', rest);
    ReadsShow(e.right, ")" + rest);
    ReadsOp(e.op, r + (")" + rest));
    OpStarts(e.op, r + (")" + rest));
    ReadsShow(e.left, o + (r + (")" + rest)));
    ReadsPunctuation('(', l + (o + (r + (")" + rest))));
    ReadsConcat("(", l, [LParen], tl, o + (r + (")" + rest)));
    ReadsConcat("(" + l, o, [LParen] + tl, [Operator(e.op)], r + (")" + rest));
    ReadsConcat("(" + l + o, r, [LParen] + tl + [Operator(e.op)], tr, ")" + rest);
    ReadsConcat("(" + l + o + r, ")", [LParen] + tl + [Operator(e.op)] + tr, [RParen], rest);
    Regroup3([LParen], tl, [Operator(e.op)], tr, [RParen]);
  }

  lemma Regroup3(a: seq<Token>, b: seq<Token>, c: seq<Token>, d: seq<Token>, e: seq<Token>)
    ensures a + b + c + d + e == a + (b + c + d) + e
  {
  }

  lemma {:induction false} ReadsCond(e: Exp, rest: string)
    requires e.Cond? && InRange(e) && !IsDigit(First(rest))
    ensures Reads(Show(e), Yield(Full(e)), rest)
    decreases e, 0
  {
    var t, y, n := Show(e.test), Show(e.yes), Show(e.no);
    var tt, ty, tn := Yield(Full(e.test)), Yield(Full(e.yes)), Yield(Full(e.no));
    var r1 := ")" + rest;
    var r2 := ":" + (n + r1);
    var r3 := "?" + (y + r2);
    ReadsShow(e.no, r1);
    ReadsShow(e.yes, r2);
    ReadsShow(e.test, r3);
    CondFront(t, y, tt, ty, r2);
    CondBack("(" + t + "?" + y, n, [LParen] + tt + [Question] + ty, tn, rest);
    Regroup5([LParen], tt, [Question], ty, [Colon], tn, [RParen]);
  }

  lemma CondFront(t: string, y: string, tt: seq<Token>, ty: seq<Token>, rest: string)
    requires Reads(t, tt, "?" + (y + rest)) && Reads(y, ty, rest)
    ensures Reads("(" + t + "?" + y, [LParen] + tt + [Question] + ty, rest)
  {
    ReadsPunctuation('?', y + rest);
    ReadsPunctuation('(', t + ("?" + (y + rest)));
    ReadsConcat("(", t, [LParen], tt, "?" + (y + rest));
    ReadsConcat("(" + t, "?", [LParen] + tt, [Question], y + rest);
    ReadsConcat("(" + t + "?", y, [LParen] + tt + [Question], ty, rest);
  }

  lemma CondBack(front: string, n: string, toks: seq<Token>, tn: seq<Token>, rest: string)
    requires Reads(front, toks, ":" + (n + (")" + rest))) && Reads(n, tn, ")" + rest)
    ensures Reads(front + ":" + n + ")", toks + [Colon] + tn + [RParen], rest)
  {
    ReadsPunctuation(')', rest);
    ReadsPunctuation(':', n + (")" + rest));
    ReadsConcat(front, ":", toks, [Colon], n + (")" + rest));
    ReadsConcat(front + ":", n, toks + [Colon], tn, ")" + rest);
    ReadsConcat(front + ":" + n, ")", toks + [Colon] + tn, [RParen], rest);
  }

  lemma Regroup5(a: seq<Token>, b: seq<Token>, c: seq<Token>, d: seq<Token>, e: seq<Token>, f: seq<Token>, g: seq<Token>)
    ensures a + b + c + d + e + f + g == a + (b + c + d + e + f) + g
  {
  }
}
