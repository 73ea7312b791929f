/**
 yyparse of zmailer/intl/plural.c: the table-driven loop with its stacks, tied to the automaton of
 PluralMachine; the round trip from an expression through its text and back; and its value.
 */
module PluralParser {
  import opened PluralGrammar
  import opened PluralTables
  import opened PluralMachine
  import opened PluralLexer

  const YYINITDEPTH := 200
  const YYMAXDEPTH := 10000

  /** YYSTYPE, with the field that was written last. */
  datatype Value = Unset | VNum(n: nat) | VOp(op: Op) | VExp(e: Exp)

  /** yychar: YYEMPTY, or the token that was read ahead. */
  datatype Ahead = Empty | Seen(x: Lexeme)

  // ------------------------------------------------------------------ the stacks and the automaton

  /** v is what yylex leaves in yylval for t; `|` and `&` leave it alone. */
  predicate Carries(v: Value, t: Token) {
    && (t.Number? ==> v == VNum(t.n))
    && (t.Operator? && t.op != LOr && t.op != LAnd ==> v == VOp(t.op))
  }

  predicate Holds(v: Value, y: Sym) {
    match y
    case T(t) => Carries(v, t)
    case E(c) => v == VExp(Tree(c))
    case Whole(c) => v == VExp(Tree(c))
    case _ => true
  }

  predicate SameStates(states: seq<int>, stack: seq<Item>) {
    |states| == |stack| && forall i :: 0 <= i < |stack| ==> states[i] == stack[i].state
  }

  predicate SameValues(vals: seq<Value>, stack: seq<Item>) {
    |vals| == |stack| && forall i :: 0 <= i < |stack| ==> Holds(vals[i], stack[i].sym)
  }

  /** The tokens still to be shifted. */
  function Pending(text: string, cp: nat, yychar: Ahead): seq<Token>
    requires cp <= |text|
  {
    match yychar
    case Empty => Tokens(text[cp..])
    case Seen(Eof) => []
    case Seen(Tok(t)) => [t] + Tokens(text[cp..])
  }

  predicate Current(yychar: Ahead, yylval: Value) {
    yychar.Seen? && yychar.x.Tok? ==> Carries(yylval, yychar.x.t)
  }

  // ------------------------------------------------------------------ the parts of the loop

  /** yybackup and yydefault: what to do in a state; a token is read only where the state needs it. */
  method YyBackup(text: string, cp: nat, yychar: Ahead, yylval: Value, yystate: int)
    returns (a: Action, cp': nat, yychar': Ahead, yylval': Value)
    requires cp <= |text| && 0 <= yystate <= 26 && Current(yychar, yylval)
    ensures cp <= cp' <= |text| && Current(yychar', yylval')
    ensures Pending(text, cp', yychar') == Pending(text, cp, yychar)
    ensures a == Decide(yystate, Look(Pending(text, cp, yychar)))
    ensures a.Shift? ==> yychar'.Seen?
  {
    cp', yychar', yylval' := cp, yychar, yylval;
    var yyn := YyPact(yystate);
    if yyn != YYFLAG {
      if yychar'.Empty? {
        var x;
        x, cp' := YyLex(text, cp);
        yychar' := Seen(x);
        if x.Tok? && x.t.Number? {
          yylval' := VNum(x.t.n);
        } else if x.Tok? && x.t.Operator? && x.t.op != LOr && x.t.op != LAnd {
          yylval' := VOp(x.t.op);
        }
      }
      var yychar1 := match yychar'.x case Eof => 0 case Tok(t) => Code(t);
      assert yychar1 == Look(Pending(text, cp', yychar'));
      yyn := yyn + yychar1;
      if 0 <= yyn <= YYLAST && YyCheck(yyn) == yychar1 {
        yyn := YyTable(yyn);
        if yyn < 0 {
          a := if yyn == YYFLAG then Error else Reduce(-yyn);
        } else if yyn == 0 {
          a := Error;
        } else if yyn == YYFINAL {
          a := Accept;
        } else {
          a := Shift(yyn);
        }
        return;
      }
    }
    yyn := YyDefact(yystate);
    a := if yyn == 0 then Error else Reduce(yyn);
  }

  /** The values v of the right-hand side of rule r. */
  ghost predicate ValuesOf(v: seq<Value>, rhs: seq<Item>) {
    |v| == |rhs| && forall i :: 0 <= i < |rhs| ==> Holds(v[i], rhs[i].sym)
  }

  /** The switch over the rules: the value of the left-hand side, by default that of the first symbol. */
  method YyAction(r: int, v: seq<Value>, ghost rhs: seq<Item>) returns (yyval: Value)
    requires 1 <= r <= 12 && RhsOk(r, rhs) && ValuesOf(v, rhs)
    ensures Holds(yyval, Made(r, rhs))
  {
    yyval := v[0];
    match r
    case 1 =>
    case 2 => yyval := VExp(Cond(v[0].e, v[2].e, v[4].e));
    case 3 => yyval := VExp(Binary(LOr, v[0].e, v[2].e));
    case 4 => yyval := VExp(Binary(LAnd, v[0].e, v[2].e));
    case 9 => yyval := VExp(Not(v[1].e));
    case 10 => yyval := VExp(Var);
    case 11 => yyval := VExp(Num(v[0].n));
    case 12 => yyval := v[1];
    case _ => yyval := VExp(Binary(v[1].op, v[0].e, v[2].e));
  }

  /** The state after a reduction. */
  method YyGoto(r: int, s: int) returns (yystate: int)
    requires 1 <= r <= 12 && Expecting(s)
    ensures yystate == if r == 1 then 25 else ExpState(s)
  {
    GotoMeansExpState(s);
    var yyn := YyR1(r);
    yystate := YyPgoto(yyn - YYNTBASE) + s;
    if 0 <= yystate <= YYLAST && YyCheck(yystate) == s {
      yystate := YyTable(yystate);
    } else {
      yystate := YyDefgoto(yyn - YYNTBASE);
    }
  }

  /** yyerrhandle: looks for a state that shifts the error token.  No state does, so it pops
      everything and gives up. */
  method YyErrHandle(states: seq<int>) returns (found: bool)
    requires states != [] && forall i :: 0 <= i < |states| ==> 0 <= states[i] <= 26
    ensures !found
  {
    var top := |states| - 1;
    while true
      invariant 0 <= top < |states|
      decreases top
    {
      var yyn := YyPact(states[top]);
      if yyn != YYFLAG {
        yyn := yyn + 1;
        if 0 <= yyn <= YYLAST && YyCheck(yyn) == 1 {
          return true;
        }
      }
      if top == 0 { return false; }
      top := top - 1;
    }
  }

  /** The check at yynewstate: the new capacity, or nothing if the stack has reached YYMAXDEPTH. */
  method YyGrow(depth: nat, size: nat) returns (size': nat, overflow: bool)
    requires 1 <= depth <= size && YYINITDEPTH <= size <= YYMAXDEPTH
    ensures overflow <==> depth >= YYMAXDEPTH
    ensures size <= size' <= YYMAXDEPTH && (!overflow ==> depth < size')
  {
    size', overflow := size, false;
    if depth >= size {
      if size >= YYMAXDEPTH { return size, true; }
      size' := size * 2;
      if size' > YYMAXDEPTH { size' := YYMAXDEPTH; }
    }
  }

  // ------------------------------------------------------------------ one turn of the loop, as values

  lemma StatesInRange(states: seq<int>, stack: seq<Item>)
    requires Linked(stack) && SameStates(states, stack)
    ensures forall i :: 0 <= i < |states| ==> 0 <= states[i] <= 26
  {
    forall i | 0 <= i < |states| ensures 0 <= states[i] <= 26 {
      LinkedPrefix(stack, i + 1);
      StateRange(stack[..i + 1]);
    }
  }

  lemma CodeRange(input: seq<Token>)
    ensures 0 <= Look(input) < 16
  {
  }

  /** The run from k has the outcome and, up to depths already passed, the peak of the run from k0. */
  ghost predicate Continues(k0: Config, k: Config) {
    Inv(k0) && Inv(k) && Result(k) == Result(k0) && (Peak(k0) >= YYMAXDEPTH <==> Peak(k) >= YYMAXDEPTH)
  }

  lemma Step(k0: Config, k: Config)
    requires Continues(k0, k) && |k.stack| < YYMAXDEPTH
    requires var a := Plan(Top(k.stack).state, Look(k.input)); a.Shift? || a.Reduce?
    ensures Continues(k0, Next(k))
  {
  }

  /** Once the whole input has been reduced, arg->res holds its expression. */
  ghost predicate Recorded(k: Config, res: Value) {
    Inv(k) && (Top(k.stack).state in {25, 26} ==>
      |k.stack| > 1 && k.stack[1].sym.Whole? && res == VExp(Tree(k.stack[1].sym.c)))
  }

  lemma AfterShifting(k: Config, s: int, states: seq<int>, vals: seq<Value>, v: Value, res: Value)
    requires Inv(k) && Plan(Top(k.stack).state, Look(k.input)) == Shift(s)
    requires SameStates(states, k.stack) && SameValues(vals, k.stack) && Recorded(k, res)
    requires k.input != [] ==> Carries(v, k.input[0])
    ensures SameStates(states + [s], Next(k).stack) && SameValues(vals + [v], Next(k).stack)
    ensures Recorded(Next(k), res) && Top(Next(k).stack).state == s
    ensures Next(k).input == if k.input == [] then [] else k.input[1..]
  {
  }

  lemma AfterReducing(k: Config, r: int, states: seq<int>, vals: seq<Value>, v: Value, s: int)
    requires Inv(k) && Plan(Top(k.stack).state, Look(k.input)) == Reduce(r) && CanReduce(k.stack, r)
    requires SameStates(states, k.stack) && SameValues(vals, k.stack)
    requires Holds(v, Made(r, Rhs(k.stack, r)))
    requires s == if r == 1 then 25 else ExpState(k.stack[|k.stack| - 1 - Arity(r)].state)
    ensures var n := |k.stack| - Arity(r);
      && SameStates(states[..n] + [s], Next(k).stack) && SameValues(vals[..n] + [v], Next(k).stack)
      && Next(k).input == k.input
  {
    var n := |k.stack| - Arity(r);
    assert Next(k).stack[..n] == k.stack[..n];
    assert Next(k).stack[n] == Item(s, Made(r, Rhs(k.stack, r)));
  }

  lemma ReducingRecords(k: Config, r: int, v: Value, res: Value)
    requires Inv(k) && Plan(Top(k.stack).state, Look(k.input)) == Reduce(r) && CanReduce(k.stack, r)
    requires Recorded(k, res) && Holds(v, Made(r, Rhs(k.stack, r)))
    ensures Recorded(Next(k), if r == 1 then v else res)
  {
    if r == 1 {
      ReduceWhole(k.stack);
    } else {
      assert Top(Next(k).stack).state == ExpState(k.stack[|k.stack| - 1 - Arity(r)].state);
    }
  }

  /** What yyparse returns for a text, said with the automaton. */
  ghost predicate Answer(text: string, code: int, res: Value) {
    var k := Initial(Tokens(text));
    if Peak(k) >= YYMAXDEPTH then code == 2
    else if Result(k).Accepted? then code == 0 && res == VExp(Tree(Result(k).c))
    else code == 1
  }

  /** c is the derivation of text that the precedences select. */
  ghost predicate Derives(text: string, c: Cst) {
    Ok(c) && Yield(c) == Tokens(text)
  }

  /** What yyparse returns for a text, said with the grammar: 0 exactly for the sentences whose
      derivation fits the stack, and then with the expression of that derivation. */
  ghost predicate Correct(text: string, code: int, res: Value) {
    && 0 <= code <= 2
    && (forall c :: Derives(text, c) ==>
          if 1 + Depth(c) < YYMAXDEPTH then code == 0 && res == VExp(Tree(c)) else code == 2)
    && (code == 0 ==> exists c :: Derives(text, c))
  }

  lemma AnswerIsCorrect(text: string, code: int, res: Value)
    requires Answer(text, code, res)
    ensures Correct(text, code, res)
  {
    forall c | Derives(text, c)
      ensures if 1 + Depth(c) < YYMAXDEPTH then code == 0 && res == VExp(Tree(c)) else code == 2
    {
      Complete(c);
    }
    if code == 0 { SomeDerivation(text); }
  }

  lemma SomeDerivation(text: string)
    requires Result(Initial(Tokens(text))).Accepted?
    ensures exists c :: Derives(text, c)
  {
    var c := Result(Initial(Tokens(text))).c;
    AcceptsExactly(Tokens(text), c);
    assert Derives(text, c);
  }

  /** A depth of YYMAXDEPTH is an overflow; a decision to accept or to give up is the outcome. */
  lemma Stops(k0: Config, k: Config)
    requires Continues(k0, k)
    ensures |k.stack| >= YYMAXDEPTH ==> Peak(k0) >= YYMAXDEPTH
    ensures var a := Plan(Top(k.stack).state, Look(k.input)); a.Accept? || a.Error? ==>
      && (Peak(k0) >= YYMAXDEPTH <==> |k.stack| >= YYMAXDEPTH)
      && (a.Accept? ==> |k.stack| == 3 && Top(k.stack).state == 26 && k.stack[1].sym.Whole? && Result(k0) == Accepted(k.stack[1].sym.c))
      && (a.Error? ==> Result(k0) == Rejected)
  {
    if Plan(Top(k.stack).state, Look(k.input)).Accept? {
      AcceptShape(k);
      StateRange(k.stack);
    }
  }

  lemma LengthIsArity(r: int)
    requires 1 <= r <= 12
    ensures YyR2(r) == Arity(r) >= 1
  {
  }

  /** yyreduce: pops the right-hand side, pushes the value and finds the next state. */
  method YyReduce(r: int, states: seq<int>, vals: seq<Value>, res: Value, ghost k: Config)
    returns (states': seq<int>, vals': seq<Value>, yystate: int, res': Value)
    requires Inv(k) && Plan(Top(k.stack).state, Look(k.input)) == Reduce(r) && 1 <= r <= 12 && CanReduce(k.stack, r)
    requires SameStates(states, k.stack) && SameValues(vals, k.stack) && Recorded(k, res)
    ensures SameStates(states' + [yystate], Next(k).stack) && SameValues(vals', Next(k).stack)
    ensures Recorded(Next(k), res') && Next(k).input == k.input
    ensures |states'| < |states| && |vals'| <= |vals|
  {
    LengthIsArity(r);
    var n := |states| - YyR2(r);
    assert ValuesOf(vals[n..], Rhs(k.stack, r));
    var yyval := YyAction(r, vals[n..], Rhs(k.stack, r));
    ReducingRecords(k, r, yyval, res);
    res' := if r == 1 then yyval else res;
    assert states[n - 1] == k.stack[|k.stack| - 1 - Arity(r)].state;
    yystate := YyGoto(r, states[n - 1]);
    AfterReducing(k, r, states, vals, yyval, yystate);
    states', vals' := states[..n], vals[..n] + [yyval];
  }

  /** The loop of yyparse. */
  method YyParse(text: string) returns (code: int, res: Value)
    ensures Answer(text, code, res)
    ensures Correct(text, code, res)
  {
    var yystate, yychar, yylval, cp := 0, Empty, Unset, 0;
    var states: seq<int>, vals, stacksize := [], [Unset], YYINITDEPTH;
    res := Unset;
    ghost var k0 := Initial(Tokens(text));
    ghost var k := k0;
    assert text[0..] == text;
    while true
      invariant cp <= |text| && Current(yychar, yylval) && YYINITDEPTH <= stacksize <= YYMAXDEPTH
      invariant |states| < stacksize && |vals| <= stacksize
      invariant Continues(k0, k) && k.input == Pending(text, cp, yychar)
      invariant SameStates(states + [yystate], k.stack) && SameValues(vals, k.stack) && Recorded(k, res)
      decreases Measure(k)
    {
      states := states + [yystate];
      var overflow;
      stacksize, overflow := YyGrow(|states|, stacksize);
      Stops(k0, k);
      if overflow {
        AnswerIsCorrect(text, 2, res);
        return 2, res;
      }
      StateRange(k.stack);
      CodeRange(k.input);
      TablesMeanPlan(yystate, Look(k.input));
      var a;
      a, cp, yychar, yylval := YyBackup(text, cp, yychar, yylval, yystate);
      match a
      case Accept =>
        AnswerIsCorrect(text, 0, res);
        return 0, res;
      case Error =>
        StatesInRange(states, k.stack);
        var found := YyErrHandle(states);
        AnswerIsCorrect(text, 1, res);
        return 1, res;
      case Shift(s) =>
        Step(k0, k);
        AfterShifting(k, s, states, vals, yylval, res);
        vals := vals + [yylval];
        if yychar != Seen(Eof) { yychar := Empty; }
        yystate := s;
        k := Next(k);
      case Reduce(r) =>
        Step(k0, k);
        ReducePossible(k.stack, Look(k.input));
        states, vals, yystate, res := YyReduce(r, states, vals, res, k);
        k := Next(k);
    }
  }

  // ------------------------------------------------------------------ there and back

  function Height(e: Exp): nat {
    match e
    case Var => 0
    case Num(_) => 0
    case Not(a) => 1 + Height(a)
    case Binary(_, l, r) => 1 + Max(Height(l), Height(r))
    case Cond(t, y, n) => 1 + Max(Height(t), Max(Height(y), Height(n)))
  }

  lemma {:induction false} DepthOfFull(e: Exp)
    ensures Depth(Full(e)) <= 5 * Height(e) + 1
  {
    match e
    case Var =>
    case Num(_) =>
    case Not(a) => DepthOfFull(a);
    case Binary(_, l, r) => DepthOfFull(l); DepthOfFull(r);
    case Cond(t, y, n) => DepthOfFull(t); DepthOfFull(y); DepthOfFull(n);
  }

  /** Parsing the printed form of an expression, up to the end or a `;`, gives the expression back,
      exactly if the stack suffices; it does for every expression of height below 2000. */
  lemma RoundTrip(e: Exp, rest: string, code: int, res: Value)
    requires InRange(e) && First(rest) in {'\0', ';', '\n'} && Correct(Show(e) + rest, code, res)
    ensures code == 0 && res == VExp(e) <==> Depth(Full(e)) < YYMAXDEPTH - 1
    ensures Height(e) < 2000 ==> code == 0 && res == VExp(e)
    ensures Depth(Full(e)) >= YYMAXDEPTH - 1 ==> code == 2
  {
    FullDerives(e);
    ReadsShow(e, rest);
    assert Tokens(rest) == [] && Yield(Full(e)) + [] == Yield(Full(e));
    assert Derives(Show(e) + rest, Full(e));
    DepthOfFull(e);
  }

  // ------------------------------------------------------------------ plural_eval

  datatype Outcome64 = Value64(v: nat) | Sigfpe

  function Truth(b: bool): nat {
    if b then 1 else 0
  }

  function Times(a: int, b: int): int {
    a * b
  }

  function Mod64(x: int): (r: nat)
    ensures r < WORD && (0 <= x < WORD ==> r == x)
  {
    x % WORD
  }

  function Quotient(a: nat, b: nat): (q: nat)
    requires b > 0
    ensures Times(b, q) <= a < Times(b, q) + b && q <= a
  {
    Grows(b, a / b);
    a / b
  }

  function Remainder(a: nat, b: nat): (r: nat)
    requires b > 0
    ensures r < b && a == Times(b, Quotient(a, b)) + r
  {
    a % b
  }

  lemma Grows(b: nat, q: nat)
    requires b > 0
    ensures b * q >= q
  {
    assert (b - 1) * q >= 0;
  }

  lemma {:induction false} QuotientUnique(a: nat, b: nat, q: int)
    requires b > 0 && Times(b, q) <= a < Times(b, q) + b
    ensures q == Quotient(a, b)
  {
    var p := Quotient(a, b);
    if q < p {
      Apart(b, q, p);
    } else if p < q {
      Apart(b, p, q);
    }
  }

  lemma Apart(b: nat, p: int, q: int)
    requires p < q
    ensures Times(b, p) + b <= Times(b, q)
  {
    var d := q - p - 1;
    assert b * q == b * p + b + b * d;
    assert b * d >= 0;
  }

  /** Operators other than `&&` and `||` on unsigned longs. */
  function Apply(op: Op, a: nat, b: nat): (x: Outcome64)
    requires op != LAnd && op != LOr && a < WORD && b < WORD
    ensures x.Sigfpe? <==> op in {Divide, Module} && b == 0
    ensures x.Value64? ==> x.v < WORD
  {
    match op
    case Mult => Value64(Mod64(Times(a, b)))
    case Divide => if b == 0 then Sigfpe else Value64(Quotient(a, b))
    case Module => if b == 0 then Sigfpe else Value64(Remainder(a, b))
    case Plus => Value64(Mod64(a + b))
    case Minus => Value64(Mod64(a - b))
    case LessThan => Value64(Truth(a < b))
    case GreaterThan => Value64(Truth(a > b))
    case LessOrEqual => Value64(Truth(a <= b))
    case GreaterOrEqual => Value64(Truth(a >= b))
    case Equal => Value64(Truth(a == b))
    case NotEqual => Value64(Truth(a != b))
  }

  function Eval(e: Exp, n: nat): (x: Outcome64)
    requires InRange(e) && n < WORD
    ensures x.Value64? ==> x.v < WORD
  {
    match e
    case Var => Value64(n)
    case Num(k) => Value64(k)
    case Not(a) =>
      var x := Eval(a, n);
      if x.Sigfpe? then x else Value64(Truth(x.v == 0))
    case Binary(op, l, r) =>
      var x := Eval(l, n);
      if x.Sigfpe? then x
      else if op == LOr && x.v != 0 then Value64(1)
      else if op == LAnd && x.v == 0 then Value64(0)
      else
        var y := Eval(r, n);
        if y.Sigfpe? then y
        else if op == LOr || op == LAnd then Value64(Truth(y.v != 0))
        else Apply(op, x.v, y.v)
    case Cond(t, y, z) =>
      var x := Eval(t, n);
      if x.Sigfpe? then x else if x.v != 0 then Eval(y, n) else Eval(z, n)
  }

  /** The value of an expression in the integers, if nothing is divided by zero and no subexpression
      that is reached leaves the range of unsigned long. */
  ghost predicate Means(e: Exp, n: nat, v: int) {
    0 <= v < WORD &&
    match e
    case Var => v == n
    case Num(k) => v == k
    case Not(a) => exists x :: Means(a, n, x) && v == Truth(x == 0)
    case Binary(LOr, l, r) => exists x :: Means(l, n, x) && if x != 0 then v == 1 else exists y :: Means(r, n, y) && v == Truth(y != 0)
    case Binary(LAnd, l, r) => exists x :: Means(l, n, x) && if x == 0 then v == 0 else exists y :: Means(r, n, y) && v == Truth(y != 0)
    case Binary(op, l, r) => exists x, y :: Means(l, n, x) && Means(r, n, y) && InIntegers(op, x, y, v)
    case Cond(t, y, z) => exists x :: Means(t, n, x) && if x != 0 then Means(y, n, v) else Means(z, n, v)
  }

  ghost predicate InIntegers(op: Op, a: int, b: int, v: int) {
    match op
    case Mult => v == Times(a, b)
    case Divide => Times(b, v) <= a < Times(b, v) + b
    case Module => 0 <= v < b && exists q :: a == Times(b, q) + v
    case Plus => v == a + b
    case Minus => v == a - b
    case LessThan => v == Truth(a < b)
    case GreaterThan => v == Truth(a > b)
    case LessOrEqual => v == Truth(a <= b)
    case GreaterOrEqual => v == Truth(a >= b)
    case Equal => v == Truth(a == b)
    case NotEqual => v == Truth(a != b)
    case _ => false
  }

  lemma ApplyIsExact(op: Op, a: nat, b: nat, v: int)
    requires op != LAnd && op != LOr && a < WORD && b < WORD && 0 <= v < WORD && InIntegers(op, a, b, v)
    ensures Apply(op, a, b) == Value64(v)
  {
    if op.Divide? {
      QuotientUnique(a, b, v);
    } else if op.Module? {
      var q :| a == Times(b, q) + v;
      QuotientUnique(a, b, q);
    }
  }

  /** plural_eval computes the value in the integers wherever that exists. */
  lemma {:induction false} EvalIsExact(e: Exp, n: nat, v: int)
    requires InRange(e) && n < WORD && Means(e, n, v)
    ensures Eval(e, n) == Value64(v)
    decreases e, 1
  {
    match e
    case Var =>
    case Num(_) =>
    case Not(a) =>
      var x :| Means(a, n, x) && v == Truth(x == 0);
      EvalIsExact(a, n, x);
    case Binary(LOr, l, r) => OrIsExact(l, r, n, v);
    case Binary(LAnd, l, r) => AndIsExact(l, r, n, v);
    case Binary(op, l, r) => BinaryIsExact(op, l, r, n, v);
    case Cond(t, y, z) =>
      var x :| Means(t, n, x) && if x != 0 then Means(y, n, v) else Means(z, n, v);
      EvalIsExact(t, n, x);
      EvalIsExact(if x != 0 then y else z, n, v);
  }

  lemma {:induction false} OrIsExact(l: Exp, r: Exp, n: nat, v: int)
    requires InRange(l) && InRange(r) && n < WORD && Means(Binary(LOr, l, r), n, v)
    ensures Eval(Binary(LOr, l, r), n) == Value64(v)
    decreases Binary(LOr, l, r), 0
  {
    var x :| Means(l, n, x) && if x != 0 then v == 1 else exists y :: Means(r, n, y) && v == Truth(y != 0);
    EvalIsExact(l, n, x);
    if x == 0 {
      var y :| Means(r, n, y) && v == Truth(y != 0);
      EvalIsExact(r, n, y);
    }
  }

  lemma {:induction false} AndIsExact(l: Exp, r: Exp, n: nat, v: int)
    requires InRange(l) && InRange(r) && n < WORD && Means(Binary(LAnd, l, r), n, v)
    ensures Eval(Binary(LAnd, l, r), n) == Value64(v)
    decreases Binary(LAnd, l, r), 0
  {
    var x :| Means(l, n, x) && if x == 0 then v == 0 else exists y :: Means(r, n, y) && v == Truth(y != 0);
    EvalIsExact(l, n, x);
    if x != 0 {
      var y :| Means(r, n, y) && v == Truth(y != 0);
      EvalIsExact(r, n, y);
    }
  }

  lemma {:induction false} BinaryIsExact(op: Op, l: Exp, r: Exp, n: nat, v: int)
    requires op != LOr && op != LAnd && InRange(l) && InRange(r) && n < WORD && Means(Binary(op, l, r), n, v)
    ensures Eval(Binary(op, l, r), n) == Value64(v)
    decreases Binary(op, l, r), 0
  {
    var x, y :| Means(l, n, x) && Means(r, n, y) && InIntegers(op, x, y, v);
    EvalIsExact(l, n, x);
    EvalIsExact(r, n, y);
    ApplyIsExact(op, x, y, v);
    EvalBinary(op, l, r, n, x, y);
  }

  lemma EvalBinary(op: Op, l: Exp, r: Exp, n: nat, x: nat, y: nat)
    requires op != LOr && op != LAnd && InRange(l) && InRange(r) && n < WORD
    requires Eval(l, n) == Value64(x) && Eval(r, n) == Value64(y) && x < WORD && y < WORD
    ensures Eval(Binary(op, l, r), n) == Apply(op, x, y)
  {
  }
}
