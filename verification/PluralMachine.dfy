/**
 The LALR automaton of the plural parser, run on derivation trees: what it keeps on its stack,
 which sentences it accepts, and how deep its stack gets.
 */
module PluralMachine {
  import opened PluralGrammar
  import opened PluralTables
  import opened Sequences

  datatype Sym = Bottom | T(t: Token) | E(c: Cst) | Whole(c: Cst) | End

  datatype Item = Item(state: int, sym: Sym)

  datatype Config = Config(stack: seq<Item>, input: seq<Token>)

  datatype Outcome = Accepted(c: Cst) | Rejected

  function Look(input: seq<Token>): int {
    if input == [] then 0 else Code(input[0])
  }

  // ------------------------------------------------------------------ the stack invariant

  /** q may stand directly above p.  An operator stands above an expression that the precedences
      allow to its left, an expression above an operator is one that they allow to its right. */
  ghost predicate Edge(p: Item, q: Item) {
    var s := q.state;
    if 1 <= s <= 4 then
      Expecting(p.state) && q.sym.T? && Code(q.sym.t) in {10, 11, 13, 14} && s == FirstState(Code(q.sym.t))
    else if AfterExp(s) then
      Expecting(p.state) && s == ExpState(p.state) && q.sym.E? && Ok(q.sym.c) && RightOf(p.state, q.sym.c)
    else if 8 <= s <= 14 then
      AfterExp(p.state) && p.sym.E? && q.sym.T? && Code(q.sym.t) == s - 5 > Floor(p.state) && LeftOf(p.sym.c, s - 5)
    else if s == 15 then p.state == 7 && q.sym == T(RParen)
    else if s == 23 then p.state == 16 && q.sym == T(Colon)
    else if s == 25 then p.state == 0 && q.sym.Whole? && Ok(q.sym.c)
    else s == 26 && p.state == 25 && q.sym == End
  }

  /** c may be the operand that state s expects. */
  predicate RightOf(s: int, c: Cst) {
    (9 <= s <= 14 ==> Level(c) > s - 5) && (s == 1 ==> Level(c) >= 10)
  }

  ghost predicate Linked(stack: seq<Item>) {
    && stack != [] && stack[0] == Item(0, Bottom)
    && forall i {:trigger Edge(stack[i - 1], stack[i])} :: 1 <= i < |stack| ==> Edge(stack[i - 1], stack[i])
  }

  function Top(stack: seq<Item>): Item
    requires stack != []
  {
    stack[|stack| - 1]
  }

  ghost predicate Inv(k: Config) {
    && Linked(k.stack)
    && (AfterExp(Top(k.stack).state) && InfixCode(Look(k.input)) ==>
          Top(k.stack).sym.E? && LeftOf(Top(k.stack).sym.c, Look(k.input)))
  }

  lemma Under(stack: seq<Item>, i: int)
    requires Linked(stack) && 1 <= i < |stack|
    ensures Edge(stack[i - 1], stack[i])
  {
  }

  lemma LinkedPrefix(stack: seq<Item>, n: int)
    requires Linked(stack) && 1 <= n <= |stack|
    ensures Linked(stack[..n])
  {
    forall i | 1 <= i < n ensures Edge(stack[..n][i - 1], stack[..n][i]) {
      Under(stack, i);
    }
  }

  lemma LinkedPush(stack: seq<Item>, q: Item)
    requires Linked(stack) && Edge(Top(stack), q)
    ensures Linked(stack + [q])
  {
    var stack' := stack + [q];
    forall i | 1 <= i < |stack'| ensures Edge(stack'[i - 1], stack'[i]) {
      if i < |stack| { Under(stack, i); }
    }
  }

  /** Every state on a stack of the automaton is a state of the tables. */
  lemma StateRange(stack: seq<Item>)
    requires Linked(stack)
    ensures 0 <= Top(stack).state <= 26
  {
    if |stack| > 1 { Under(stack, |stack| - 1); }
  }

  // ------------------------------------------------------------------ reductions

  /** rhs is what rule r reduces. */
  ghost predicate RhsOk(r: int, rhs: seq<Item>) {
    if r == 1 then |rhs| == 1 && rhs[0].sym.E?
    else if r == 2 then |rhs| == 5 && rhs[0].sym.E? && rhs[1].sym == T(Question) && rhs[2].sym.E?
                        && rhs[3].sym == T(Colon) && rhs[4].sym.E?
    else if 3 <= r <= 8 then |rhs| == 3 && rhs[0].sym.E? && rhs[1].sym.T? && rhs[1].sym.t.Operator?
                             && OpCode(rhs[1].sym.t.op) == r + 1 && rhs[2].sym.E?
    else if r == 9 then |rhs| == 2 && rhs[0].sym == T(Bang) && rhs[1].sym.E?
    else if r == 10 then |rhs| == 1 && rhs[0].sym == T(N)
    else if r == 11 then |rhs| == 1 && rhs[0].sym.T? && rhs[0].sym.t.Number?
    else r == 12 && |rhs| == 3 && rhs[0].sym == T(LParen) && rhs[1].sym.E? && rhs[2].sym == T(RParen)
  }

  /** The symbol that the action of rule r makes. */
  ghost function Made(r: int, rhs: seq<Item>): Sym
    requires RhsOk(r, rhs)
  {
    if r == 1 then Whole(rhs[0].sym.c)
    else if r == 2 then E(CCond(rhs[0].sym.c, rhs[2].sym.c, rhs[4].sym.c))
    else if r <= 8 then E(CBinary(rhs[1].sym.t.op, rhs[0].sym.c, rhs[2].sym.c))
    else if r == 9 then E(CNot(rhs[1].sym.c))
    else if r == 10 then E(CVar)
    else if r == 11 then E(CNum(rhs[0].sym.t.n))
    else E(CParen(rhs[1].sym.c))
  }

  /** The number of symbols of rule r. */
  function Arity(r: int): int {
    if r == 2 then 5 else if r == 9 then 2 else if r == 1 || r == 10 || r == 11 then 1 else 3
  }

  ghost function Rhs(stack: seq<Item>, r: int): seq<Item>
    requires Arity(r) <= |stack|
  {
    stack[|stack| - Arity(r)..]
  }

  /** The stack of a reduction ends with the right-hand side of the rule, above a state that
      expects an expression, and the operands satisfy the precedences. */
  ghost predicate CanReduce(stack: seq<Item>, r: int) {
    && Linked(stack) && Arity(r) < |stack| && RhsOk(r, Rhs(stack, r))
    && var p, made := stack[|stack| - 1 - Arity(r)], Made(r, Rhs(stack, r));
    && Expecting(p.state)
    && (if r == 1 then p.state == 0 && made.Whole? && Ok(made.c)
        else made.E? && Ok(made.c) && RightOf(p.state, made.c))
  }

  lemma ReduceTerminal(stack: seq<Item>)
    requires Linked(stack) && |stack| > 1 && (Top(stack).state == 2 || Top(stack).state == 3)
    ensures CanReduce(stack, if Top(stack).state == 2 then 11 else 10)
  {
    Under(stack, |stack| - 1);
  }

  lemma ReduceNot(stack: seq<Item>)
    requires Linked(stack) && |stack| > 1 && Top(stack).state == 6
    ensures CanReduce(stack, 9)
  {
    var n := |stack|;
    Under(stack, n - 1);
    Under(stack, n - 2);
  }

  lemma ReduceParen(stack: seq<Item>)
    requires Linked(stack) && |stack| > 1 && Top(stack).state == 15
    ensures CanReduce(stack, 12)
  {
    var n := |stack|;
    Under(stack, n - 1);
    Under(stack, n - 2);
    Under(stack, n - 3);
  }

  lemma ReduceBinary(stack: seq<Item>)
    requires Linked(stack) && |stack| > 1 && 17 <= Top(stack).state <= 22
    ensures CanReduce(stack, Top(stack).state - 14)
  {
    var n := |stack|;
    Under(stack, n - 1);
    Under(stack, n - 2);
    Under(stack, n - 3);
  }

  lemma ReduceCond(stack: seq<Item>)
    requires Linked(stack) && |stack| > 1 && Top(stack).state == 24
    ensures CanReduce(stack, 2)
  {
    var n := |stack|;
    Under(stack, n - 1);
    Under(stack, n - 2);
    Under(stack, n - 3);
    Under(stack, n - 4);
    Under(stack, n - 5);
  }

  lemma ReduceWhole(stack: seq<Item>)
    requires Linked(stack) && |stack| > 1 && Top(stack).state == 5
    ensures CanReduce(stack, 1) && |stack| == 2
  {
    var n := |stack|;
    Under(stack, n - 1);
    if n > 2 { Under(stack, n - 2); }
  }

  lemma ReducePossible(stack: seq<Item>, c: int)
    requires Linked(stack) && Plan(Top(stack).state, c).Reduce?
    ensures CanReduce(stack, Plan(Top(stack).state, c).rule)
    ensures 1 <= Plan(Top(stack).state, c).rule <= 12
  {
    var s := Top(stack).state;
    if s == 2 || s == 3 {
      ReduceTerminal(stack);
    } else if s == 15 {
      ReduceParen(stack);
    } else if s == 5 {
      ReduceWhole(stack);
    } else if s == 6 {
      ReduceNot(stack);
    } else if s == 24 {
      ReduceCond(stack);
    } else {
      ReduceBinary(stack);
    }
  }

  ghost function AfterReduce(stack: seq<Item>, r: int): seq<Item>
    requires CanReduce(stack, r)
  {
    var base := stack[..|stack| - Arity(r)];
    base + [Item(if r == 1 then 25 else ExpState(Top(base).state), Made(r, Rhs(stack, r)))]
  }

  ghost function AfterShift(k: Config, s: int): Config {
    if k.input == [] then Config(k.stack + [Item(s, End)], [])
    else Config(k.stack + [Item(s, T(k.input[0]))], k.input[1..])
  }

  lemma ReduceKeeps(k: Config, r: int)
    requires Inv(k) && Plan(Top(k.stack).state, Look(k.input)) == Reduce(r) && CanReduce(k.stack, r)
    ensures Inv(Config(AfterReduce(k.stack, r), k.input))
  {
    var base := k.stack[..|k.stack| - Arity(r)];
    LinkedPrefix(k.stack, |base|);
    LinkedPush(base, Top(AfterReduce(k.stack, r)));
  }

  lemma ShiftKeeps(k: Config, s: int)
    requires Inv(k) && Plan(Top(k.stack).state, Look(k.input)) == Shift(s)
    ensures Inv(AfterShift(k, s))
  {
    LinkedPush(k.stack, Top(AfterShift(k, s).stack));
  }

  // ------------------------------------------------------------------ whole runs

  function Weight(q: Item): nat {
    if AfterExp(q.state) then 2 else if q.state == 25 then 1 else if q.state == 26 || q.state == 0 then 0 else 3
  }

  function Weights(stack: seq<Item>): nat {
    if stack == [] then 0 else Weights(stack[..|stack| - 1]) + Weight(stack[|stack| - 1])
  }

  ghost function Measure(k: Config): nat
    requires k.stack != []
  {
    4 * |k.input| + Weights(k.stack) + if Top(k.stack).state == 26 then 0 else 1
  }

  lemma {:induction false} WeightsAbove(stack: seq<Item>, m: int)
    requires 0 <= m < |stack|
    ensures Weights(stack) >= Weights(stack[..m]) + Weight(stack[|stack| - 1])
  {
    var n := |stack| - 1;
    if m < n {
      WeightsAbove(stack[..n], m);
      assert stack[..n][..m] == stack[..m];
    }
  }

  lemma WeightsPush(stack: seq<Item>, q: Item)
    ensures Weights(stack + [q]) == Weights(stack) + Weight(q)
  {
    assert (stack + [q])[..|stack|] == stack;
  }

  lemma ReduceShrinks(k: Config, r: int)
    requires Inv(k) && CanReduce(k.stack, r) && 1 <= r <= 12
    requires Plan(Top(k.stack).state, Look(k.input)) == Reduce(r)
    ensures Measure(Config(AfterReduce(k.stack, r), k.input)) < Measure(k)
  {
    WeightsAfter(k.stack, r);
    WeightsBefore(k.stack, r, Look(k.input));
  }

  lemma WeightsAfter(stack: seq<Item>, r: int)
    requires CanReduce(stack, r) && 1 <= r <= 12
    ensures var after := AfterReduce(stack, r);
      Top(after).state != 26 && Weights(after) == Weights(stack[..|stack| - Arity(r)]) + if r == 1 then 1 else 2
  {
    WeightsPush(stack[..|stack| - Arity(r)], Top(AfterReduce(stack, r)));
  }

  lemma WeightsBefore(stack: seq<Item>, r: int, c: int)
    requires CanReduce(stack, r) && 1 <= r <= 12 && Plan(Top(stack).state, c) == Reduce(r)
    ensures Weights(stack) > Weights(stack[..|stack| - Arity(r)]) + if r == 1 then 1 else 2
    ensures Top(stack).state != 26
  {
    NotTheEnd(Top(stack).state, c, r);
    if Arity(r) > 1 {
      TopTwo(stack, r);
      WeightsMore(stack, |stack| - Arity(r));
    } else {
      WeightsOne(stack, r, c);
    }
  }

  lemma NotTheEnd(s: int, c: int, r: int)
    requires Plan(s, c) == Reduce(r)
    ensures s != 26
  {
  }

  lemma WeightsMore(stack: seq<Item>, m: int)
    requires 0 <= m <= |stack| - 2 && Weight(stack[|stack| - 2]) + Weight(stack[|stack| - 1]) > 2
    ensures Weights(stack) > Weights(stack[..m]) + 2
  {
    WeightsTwoAbove(stack, m);
  }

  lemma WeightsOne(stack: seq<Item>, r: int, c: int)
    requires stack != [] && 1 <= r <= 12 && Arity(r) == 1 && Plan(Top(stack).state, c) == Reduce(r)
    ensures Weights(stack) > Weights(stack[..|stack| - 1]) + if r == 1 then 1 else 2
  {
    TopOne(stack, r, c);
  }

  lemma TopOne(stack: seq<Item>, r: int, c: int)
    requires stack != [] && 1 <= r <= 12 && Arity(r) == 1 && Plan(Top(stack).state, c) == Reduce(r)
    ensures Weight(Top(stack)) > if r == 1 then 1 else 2
  {
  }

  lemma WeightsTwoAbove(stack: seq<Item>, m: int)
    requires 0 <= m <= |stack| - 2
    ensures Weights(stack) >= Weights(stack[..m]) + Weight(stack[|stack| - 2]) + Weight(stack[|stack| - 1])
  {
    var n := |stack| - 1;
    WeightsAbove(stack[..n], m);
    assert stack[..n][..m] == stack[..m];
  }

  lemma TopTwo(stack: seq<Item>, r: int)
    requires CanReduce(stack, r) && Arity(r) > 1 && 1 <= r <= 12
    ensures Weight(stack[|stack| - 2]) + Weight(stack[|stack| - 1]) > 2
  {
    Under(stack, |stack| - 1);
    Under(stack, |stack| - 2);
  }

  lemma ShiftShrinks(k: Config, s: int)
    requires Inv(k) && Plan(Top(k.stack).state, Look(k.input)) == Shift(s)
    ensures Measure(AfterShift(k, s)) < Measure(k)
  {
    WeightsPush(k.stack, Top(AfterShift(k, s).stack));
  }

  lemma AcceptShape(k: Config)
    requires Inv(k) && Plan(Top(k.stack).state, Look(k.input)).Accept?
    ensures |k.stack| == 3 && k.stack[1].sym.Whole? && k.stack[2].sym == End && k.input == []
  {
    var n := |k.stack|;
    StateRange(k.stack);
    Under(k.stack, n - 1);
    Under(k.stack, n - 2);
    if n > 3 { Under(k.stack, n - 3); }
  }

  /** The next configuration, if the automaton does not stop. */
  ghost function Next(k: Config): (k': Config)
    requires Inv(k) && var a := Plan(Top(k.stack).state, Look(k.input)); a.Shift? || a.Reduce?
    ensures Inv(k') && Measure(k') < Measure(k)
  {
    match Plan(Top(k.stack).state, Look(k.input))
    case Shift(s) =>
      ShiftKeeps(k, s);
      ShiftShrinks(k, s);
      AfterShift(k, s)
    case Reduce(r) =>
      ReducePossible(k.stack, Look(k.input));
      ReduceKeeps(k, r);
      ReduceShrinks(k, r);
      Config(AfterReduce(k.stack, r), k.input)
  }

  /** What the automaton ends with. */
  ghost function Result(k: Config): Outcome
    requires Inv(k)
    decreases Measure(k)
  {
    match Plan(Top(k.stack).state, Look(k.input))
    case Accept => AcceptShape(k); Accepted(k.stack[1].sym.c)
    case Error => Rejected
    case _ => Result(Next(k))
  }

  /** The greatest depth of the stack. */
  ghost function Peak(k: Config): nat
    requires Inv(k)
    decreases Measure(k)
  {
    match Plan(Top(k.stack).state, Look(k.input))
    case Accept => |k.stack|
    case Error => |k.stack|
    case _ => Max(|k.stack|, Peak(Next(k)))
  }

  function Max(a: int, b: int): int {
    if a < b then b else a
  }

  ghost function Initial(input: seq<Token>): (k: Config)
    ensures Inv(k)
  {
    Config([Item(0, Bottom)], input)
  }

  // ------------------------------------------------------------------ only sentences are accepted

  function SymYield(y: Sym): seq<Token> {
    match y
    case Bottom => []
    case T(t) => [t]
    case E(c) => Yield(c)
    case Whole(c) => Yield(c)
    case End => []
  }

  function Yields(stack: seq<Item>): seq<Token> {
    if stack == [] then [] else Yields(stack[..|stack| - 1]) + SymYield(stack[|stack| - 1].sym)
  }

  lemma {:induction false} YieldsConcat(a: seq<Item>, b: seq<Item>)
    ensures Yields(a + b) == Yields(a) + Yields(b)
  {
    if b == [] {
      assert a + b == a;
      assert Yields(a) + [] == Yields(a);
    } else {
      var c, q := b[..|b| - 1], b[|b| - 1];
      assert b == c + [q];
      assert a + b == (a + c) + [q];
      calc {
        Yields(a + b);
      == { YieldsPush(a + c, q); }
        Yields(a + c) + SymYield(q.sym);
      == { YieldsConcat(a, c); }
        (Yields(a) + Yields(c)) + SymYield(q.sym);
      == { Regroup(Yields(a), Yields(c), SymYield(q.sym)); }
        Yields(a) + (Yields(c) + SymYield(q.sym));
      == { YieldsPush(c, q); }
        Yields(a) + Yields(b);
      }
    }
  }

  lemma YieldsPush(a: seq<Item>, q: Item)
    ensures Yields(a + [q]) == Yields(a) + SymYield(q.sym)
  {
    assert (a + [q])[..|a|] == a;
  }

  lemma YieldsOne(q: Item)
    ensures Yields([q]) == SymYield(q.sym)
  {
    YieldsPush([], q);
  }

  lemma YieldsTwo(q: Item, q': Item)
    ensures Yields([q, q']) == SymYield(q.sym) + SymYield(q'.sym)
  {
    YieldsOne(q);
    YieldsPush([q], q');
    assert [q, q'] == [q] + [q'];
  }

  lemma YieldsThree(q: Item, q': Item, q'': Item)
    ensures Yields([q, q', q'']) == SymYield(q.sym) + SymYield(q'.sym) + SymYield(q''.sym)
  {
    YieldsTwo(q, q');
    YieldsPush([q, q'], q'');
    assert [q, q', q''] == [q, q'] + [q''];
  }

  lemma RhsYield(r: int, rhs: seq<Item>)
    requires RhsOk(r, rhs)
    ensures Yields(rhs) == SymYield(Made(r, rhs))
  {
    if |rhs| == 1 {
      assert rhs == [rhs[0]];
      YieldsOne(rhs[0]);
    } else if |rhs| == 2 {
      assert rhs == [rhs[0], rhs[1]];
      YieldsTwo(rhs[0], rhs[1]);
    } else if |rhs| == 3 {
      assert rhs == [rhs[0], rhs[1], rhs[2]];
      YieldsThree(rhs[0], rhs[1], rhs[2]);
    } else {
      CondYield(rhs);
    }
  }

  lemma CondYield(rhs: seq<Item>)
    requires RhsOk(2, rhs)
    ensures Yields(rhs) == SymYield(Made(2, rhs))
  {
    assert rhs == [rhs[0], rhs[1], rhs[2]] + [rhs[3], rhs[4]];
    YieldsConcat([rhs[0], rhs[1], rhs[2]], [rhs[3], rhs[4]]);
    YieldsThree(rhs[0], rhs[1], rhs[2]);
    YieldsTwo(rhs[3], rhs[4]);
  }

  lemma ShiftYield(k: Config, s: int)
    ensures Yields(AfterShift(k, s).stack) + AfterShift(k, s).input == Yields(k.stack) + k.input
  {
    if k.input == [] {
      YieldsPush(k.stack, Item(s, End));
      assert Yields(k.stack) + [] == Yields(k.stack);
    } else {
      var t, rest := k.input[0], k.input[1..];
      YieldsPush(k.stack, Item(s, T(t)));
      assert k.input == [t] + rest;
      Regroup(Yields(k.stack), [t], rest);
    }
  }

  lemma ReduceYield(stack: seq<Item>, r: int)
    requires CanReduce(stack, r)
    ensures Yields(AfterReduce(stack, r)) == Yields(stack)
  {
    var base, rhs := stack[..|stack| - Arity(r)], Rhs(stack, r);
    assert stack == base + rhs;
    YieldsConcat(base, rhs);
    RhsYield(r, rhs);
    YieldsPush(base, Top(AfterReduce(stack, r)));
  }

  /** No step changes the sentence: what is on the stack followed by what is still to be read. */
  lemma NextYield(k: Config)
    requires Inv(k) && var a := Plan(Top(k.stack).state, Look(k.input)); a.Shift? || a.Reduce?
    ensures Yields(Next(k).stack) + Next(k).input == Yields(k.stack) + k.input
  {
    match Plan(Top(k.stack).state, Look(k.input))
    case Shift(s) => ShiftYield(k, s);
    case Reduce(r) =>
      ReducePossible(k.stack, Look(k.input));
      ReduceYield(k.stack, r);
  }

  lemma AcceptYield(stack: seq<Item>)
    requires Linked(stack) && |stack| == 3 && stack[1].sym.Whole? && stack[2].sym == End
    ensures Ok(stack[1].sym.c) && Yields(stack) == Yield(stack[1].sym.c)
  {
    Under(stack, 1);
    YieldsOfThree(stack);
    assert [] + Yield(stack[1].sym.c) + [] == Yield(stack[1].sym.c);
  }

  lemma YieldsOfThree(stack: seq<Item>)
    requires |stack| == 3
    ensures Yields(stack) == SymYield(stack[0].sym) + SymYield(stack[1].sym) + SymYield(stack[2].sym)
  {
    assert stack == [stack[0], stack[1], stack[2]];
    YieldsThree(stack[0], stack[1], stack[2]);
  }

  /** If the automaton accepts, the input is a sentence and the result its derivation. */
  lemma {:induction false} Sound(k: Config)
    requires Inv(k) && Result(k).Accepted?
    ensures Ok(Result(k).c) && Yield(Result(k).c) == Yields(k.stack) + k.input
    decreases Measure(k)
  {
    if Plan(Top(k.stack).state, Look(k.input)).Accept? {
      AcceptShape(k);
      AcceptYield(k.stack);
    } else {
      NextYield(k);
      Sound(Next(k));
    }
  }

  // ------------------------------------------------------------------ every sentence is accepted

  /** How many places above the stack the automaton needs for c. */
  function Depth(c: Cst): (d: int)
    ensures d >= 1
  {
    match c
    case CVar => 1
    case CNum(_) => 1
    case CParen(a) => Max(1 + Depth(a), 3)
    case CNot(a) => 1 + Depth(a)
    case CBinary(_, l, r) => Max(Depth(l), 2 + Depth(r))
    case CCond(t, y, n) => Max(Depth(t), Max(2 + Depth(y), 4 + Depth(n)))
  }

  /** From k the automaton comes to k', and needs `most` places on the way. */
  ghost predicate Leads(k: Config, k': Config, most: int) {
    Inv(k) && Inv(k') && Result(k) == Result(k') && Peak(k) == Max(most, Peak(k'))
  }

  lemma LeadsOn(k: Config, k': Config, k'': Config, most: int, most': int)
    requires Leads(k, k', most) && Leads(k', k'', most')
    ensures Leads(k, k'', Max(most, most'))
  {
  }

  lemma ShiftStep(stack: seq<Item>, t: Token, rest: seq<Token>, s: int)
    requires Inv(Config(stack, [t] + rest)) && Plan(Top(stack).state, Code(t)) == Shift(s)
    ensures Leads(Config(stack, [t] + rest), Config(stack + [Item(s, T(t))], rest), |stack|)
  {
    var k := Config(stack, [t] + rest);
    assert Next(k) == Config(stack + [Item(s, T(t))], rest);
  }

  lemma ReduceStep(base: seq<Item>, rhs: seq<Item>, r: int, rest: seq<Token>)
    requires base != [] && Inv(Config(base + rhs, rest)) && |rhs| == Arity(r) && 2 <= r <= 12
    requires Plan(Top(base + rhs).state, Look(rest)) == Reduce(r)
    ensures RhsOk(r, rhs)
    ensures Leads(Config(base + rhs, rest), Config(base + [Item(ExpState(Top(base).state), Made(r, rhs))], rest),
                  |base| + |rhs|)
  {
    var k := Config(base + rhs, rest);
    ReducePossible(k.stack, Look(rest));
    assert k.stack[..|base|] == base && Rhs(k.stack, r) == rhs;
    assert Next(k) == Config(base + [Item(ExpState(Top(base).state), Made(r, rhs))], rest);
  }

  /** The automaton can read c next, and then see `rest`. */
  ghost predicate Ready(stack: seq<Item>, c: Cst, rest: seq<Token>) {
    && Linked(stack) && Expecting(Top(stack).state) && Ok(c) && RightOf(Top(stack).state, c)
    && (InfixCode(Look(rest)) ==> LeftOf(c, Look(rest)))
  }

  ghost function Before(stack: seq<Item>, c: Cst, rest: seq<Token>): Config {
    Config(stack, Yield(c) + rest)
  }

  ghost function Pushed(stack: seq<Item>, c: Cst): seq<Item>
    requires stack != []
  {
    stack + [Item(ExpState(Top(stack).state), E(c))]
  }

  lemma ThenReduce(k: Config, base: seq<Item>, rhs: seq<Item>, r: int, rest: seq<Token>, made: Cst, most: int)
    requires base != [] && |rhs| == Arity(r) && 2 <= r <= 12 && |base| + |rhs| <= most
    requires Leads(k, Config(base + rhs, rest), most) && Plan(Top(base + rhs).state, Look(rest)) == Reduce(r)
    requires RhsOk(r, rhs) && Made(r, rhs) == E(made)
    ensures Leads(k, Config(Pushed(base, made), rest), most)
  {
    ReduceStep(base, rhs, r, rest);
    LeadsOn(k, Config(base + rhs, rest), Config(Pushed(base, made), rest), most, |base| + |rhs|);
  }

  /** Reading the sentence of a puts a on the stack, after k has come to where a begins. */
  lemma {:induction false} ThenDrive(k: Config, stack: seq<Item>, a: Cst, rest: seq<Token>, most: int)
    requires Ready(stack, a, rest) && Leads(k, Before(stack, a, rest), most)
    ensures Leads(k, Config(Pushed(stack, a), rest), Max(most, |stack| + Depth(a)))
    decreases a, 4
  {
    Drive(stack, a, rest);
    LeadsOn(k, Before(stack, a, rest), Config(Pushed(stack, a), rest), most, |stack| + Depth(a));
  }

  lemma DriveTerminal(stack: seq<Item>, c: Cst, rest: seq<Token>)
    requires Ready(stack, c, rest) && (c.CVar? || c.CNum?)
    ensures Leads(Before(stack, c, rest), Config(Pushed(stack, c), rest), |stack| + Depth(c))
  {
    var t := Terminal(c);
    var s := FirstState(Code(t));
    assert Before(stack, c, rest) == Config(stack, [t] + rest);
    ShiftStep(stack, t, rest, s);
    CloseTerminal(stack, c, rest);
    LeadsOn(Config(stack, [t] + rest), Config(stack + [Item(s, T(t))], rest), Config(Pushed(stack, c), rest), |stack|, |stack| + 1);
  }

  function Terminal(c: Cst): Token
    requires c.CVar? || c.CNum?
  {
    if c.CVar? then N else Number(c.n)
  }

  lemma CloseTerminal(stack: seq<Item>, c: Cst, rest: seq<Token>)
    requires stack != [] && (c.CVar? || c.CNum?)
    requires Inv(Config(stack + [Item(FirstState(Code(Terminal(c))), T(Terminal(c)))], rest))
    ensures Leads(Config(stack + [Item(FirstState(Code(Terminal(c))), T(Terminal(c)))], rest),
                  Config(Pushed(stack, c), rest), |stack| + 1)
  {
    var i := Item(FirstState(Code(Terminal(c))), T(Terminal(c)));
    assert Top(stack + [i]) == i;
    ReduceStep(stack, [i], if c.CVar? then 10 else 11, rest);
  }

  /** Shifts the first token t of an expression, and is ready for the operand a. */
  lemma Open(stack: seq<Item>, t: Token, a: Cst, rest: seq<Token>)
    requires Linked(stack) && Expecting(Top(stack).state) && (t == Bang || t == LParen)
    requires Ok(a) && (t == Bang ==> Level(a) >= 10) && (InfixCode(Look(rest)) ==> LeftOf(a, Look(rest)))
    ensures var above := stack + [Item(FirstState(Code(t)), T(t))];
      Ready(above, a, rest) && Leads(Config(stack, [t] + (Yield(a) + rest)), Before(above, a, rest), |stack|)
  {
    ShiftStep(stack, t, Yield(a) + rest, FirstState(Code(t)));
  }

  /** Reads t and the operand after it. */
  lemma {:induction false} DriveFirst(stack: seq<Item>, t: Token, a: Cst, rest: seq<Token>)
    requires Linked(stack) && Expecting(Top(stack).state) && (t == Bang || t == LParen)
    requires Ok(a) && (t == Bang ==> Level(a) >= 10) && (InfixCode(Look(rest)) ==> LeftOf(a, Look(rest)))
    ensures var i := Item(FirstState(Code(t)), T(t));
      Leads(Config(stack, [t] + (Yield(a) + rest)), Config(stack + [i, Item(ExpState(i.state), E(a))], rest), |stack| + 1 + Depth(a))
    decreases a, 5
  {
    var i := Item(FirstState(Code(t)), T(t));
    Open(stack, t, a, rest);
    ThenDrive(Config(stack, [t] + (Yield(a) + rest)), stack + [i], a, rest, |stack|);
    PushedOnOne(stack, i, a);
    HigherDepth(|stack|, |stack| + 1, a);
  }

  // The depths of the parts and of the whole, above n places.
  lemma NotDepth(n: int, c: Cst)
    requires c.CNot?
    ensures n + 1 + Depth(c.arg) == n + Depth(c)
  {
  }

  lemma ParenDepth(n: int, c: Cst)
    requires c.CParen?
    ensures Max(n + 1 + Depth(c.arg), n + 3) == n + Depth(c)
  {
  }

  lemma BinaryDepth(n: int, c: Cst)
    requires c.CBinary?
    ensures Max(n + Depth(c.left), n + 2 + Depth(c.right)) == n + Depth(c)
  {
  }

  lemma CondDepth(n: int, c: Cst)
    requires c.CCond?
    ensures Max(n + Depth(c.test), Max(n + 2 + Depth(c.yes), n + 4 + Depth(c.no))) == n + Depth(c)
  {
  }

  lemma HigherDepth(n: int, m: int, a: Cst)
    requires n <= m
    ensures Max(n, m + Depth(a)) == m + Depth(a)
  {
  }

  lemma PushedOnOne(stack: seq<Item>, i: Item, a: Cst)
    ensures Pushed(stack + [i], a) == stack + [i, Item(ExpState(i.state), E(a))]
  {
  }

  lemma PushedOnTwo(stack: seq<Item>, i: Item, j: Item, a: Cst)
    ensures Pushed(stack + [i, j], a) == stack + [i, j, Item(ExpState(j.state), E(a))]
  {
  }

  lemma OneMore(stack: seq<Item>, i: Item, j: Item, l: Item)
    ensures stack + [i, j] + [l] == stack + [i, j, l] && Top(stack + [i, j]) == j && Top(stack + [i, j, l]) == l
  {
  }

  lemma FirstStates()
    ensures FirstState(Code(LParen)) == 4 && ExpState(4) == 7 && FirstState(Code(Bang)) == 1 && ExpState(1) == 6
  {
  }

  lemma NotInput(c: Cst, rest: seq<Token>)
    requires c.CNot?
    ensures Yield(c) + rest == [Bang] + (Yield(c.arg) + rest)
  {
    Regroup([Bang], Yield(c.arg), rest);
  }

  lemma {:induction false} DriveNot(stack: seq<Item>, c: Cst, rest: seq<Token>)
    requires Ready(stack, c, rest) && c.CNot?
    ensures Leads(Before(stack, c, rest), Config(Pushed(stack, c), rest), |stack| + Depth(c))
    decreases c, 1
  {
    NotInput(c, rest);
    NotDepth(|stack|, c);
    FirstStates();
    DriveFirst(stack, Bang, c.arg, rest);
    CloseNot(Before(stack, c, rest), stack, c, rest, |stack| + Depth(c));
  }

  lemma CloseNot(k: Config, stack: seq<Item>, c: Cst, rest: seq<Token>, most: int)
    requires stack != [] && c.CNot? && most >= |stack| + 2
    requires Leads(k, Config(stack + [Item(1, T(Bang)), Item(6, E(c.arg))], rest), most)
    ensures Leads(k, Config(Pushed(stack, c), rest), most)
  {
    var i, j := Item(1, T(Bang)), Item(6, E(c.arg));
    assert Top(stack + [i, j]) == j;
    ThenReduce(k, stack, [i, j], 9, rest, c, most);
  }

  lemma ParenInput(stack: seq<Item>, a: Cst, rest: seq<Token>)
    ensures Before(stack, CParen(a), rest) == Config(stack, [LParen] + (Yield(a) + ([RParen] + rest)))
  {
    var y := Yield(a);
    assert ([LParen] + y + [RParen]) + rest == [LParen] + (y + ([RParen] + rest));
  }

  lemma {:induction false} DriveParen(stack: seq<Item>, c: Cst, rest: seq<Token>)
    requires Ready(stack, c, rest) && c.CParen?
    ensures Leads(Before(stack, c, rest), Config(Pushed(stack, c), rest), |stack| + Depth(c))
    decreases c, 1
  {
    ParenInput(stack, c.arg, rest);
    FirstStates();
    DriveFirst(stack, LParen, c.arg, [RParen] + rest);
    CloseParen(Config(stack, [LParen] + (Yield(c.arg) + ([RParen] + rest))), stack, c, rest, |stack| + 1 + Depth(c.arg));
    LeadsParen(Before(stack, c, rest), Config(Pushed(stack, c), rest), |stack|, c);
  }

  lemma LeadsParen(k: Config, k': Config, n: int, c: Cst)
    requires c.CParen? && Leads(k, k', Max(n + 1 + Depth(c.arg), n + 3))
    ensures Leads(k, k', n + Depth(c))
  {
    ParenDepth(n, c);
  }

  lemma CloseParen(k: Config, stack: seq<Item>, c: Cst, rest: seq<Token>, most: int)
    requires stack != [] && c.CParen? && most >= |stack| + 2
    requires Leads(k, Config(stack + [Item(4, T(LParen)), Item(7, E(c.arg))], [RParen] + rest), most)
    ensures Leads(k, Config(Pushed(stack, c), rest), Max(most, |stack| + 3))
  {
    var i, j, l := Item(4, T(LParen)), Item(7, E(c.arg)), Item(15, T(RParen));
    OneMore(stack, i, j, l);
    ShiftStep(stack + [i, j], RParen, rest, 15);
    ReduceStep(stack, [i, j, l], 12, rest);
    LeadsOn(Config(stack + [i, j], [RParen] + rest), Config(stack + [i, j, l], rest), Config(Pushed(stack, c), rest),
            |stack| + 2, |stack| + 3);
    LeadsOn(k, Config(stack + [i, j], [RParen] + rest), Config(Pushed(stack, c), rest), most, |stack| + 3);
  }

  lemma BinaryInput(l: seq<Token>, t: Token, r: seq<Token>, rest: seq<Token>)
    ensures (l + [t] + r) + rest == l + ([t] + (r + rest))
  {
  }

  lemma {:induction false} DriveBinary(stack: seq<Item>, c: Cst, rest: seq<Token>)
    requires Ready(stack, c, rest) && c.CBinary?
    ensures Leads(Before(stack, c, rest), Config(Pushed(stack, c), rest), |stack| + Depth(c))
    decreases c, 1
  {
    var k, t := Before(stack, c, rest), Operator(c.op);
    BinaryInput(Yield(c.left), t, Yield(c.right), rest);
    BinaryDepth(|stack|, c);
    var more := [t] + (Yield(c.right) + rest);
    assert k == Before(stack, c.left, more);
    Drive(stack, c.left, more);
    RightOperand(stack, c, rest);
    LeadsOn(k, Config(Pushed(stack, c.left), more), Config(Pushed(stack, c), rest),
            |stack| + Depth(c.left), |stack| + 2 + Depth(c.right));
  }

  /** After the left operand of c its operator is shifted. */
  lemma ShiftInfix(stack: seq<Item>, c: Cst, left: Cst, t: Token, after: seq<Token>, rest: seq<Token>)
    requires Ready(stack, c, rest) && Code(t) == Level(c) && InfixCode(Code(t))
    requires Inv(Config(Pushed(stack, left), [t] + after))
    ensures Leads(Config(Pushed(stack, left), [t] + after), Config(Infix(stack, left, t), after), |stack| + 1)
  {
    var i := Item(ExpState(Top(stack).state), E(left));
    ShiftStep(stack + [i], t, after, Code(t) + 5);
    assert stack + [i] + [Item(Code(t) + 5, T(t))] == Infix(stack, left, t);
  }

  /** The stack after the left operand and the operator. */
  ghost function Infix(stack: seq<Item>, left: Cst, t: Token): seq<Item>
    requires stack != []
  {
    stack + [Item(ExpState(Top(stack).state), E(left)), Item(Code(t) + 5, T(t))]
  }

  /** The second half of a binary expression, from the operator on. */
  lemma {:induction false} RightOperand(stack: seq<Item>, c: Cst, rest: seq<Token>)
    requires Ready(stack, c, rest) && c.CBinary?
    requires Inv(Config(Pushed(stack, c.left), [Operator(c.op)] + (Yield(c.right) + rest)))
    ensures Leads(Config(Pushed(stack, c.left), [Operator(c.op)] + (Yield(c.right) + rest)),
                  Config(Pushed(stack, c), rest), |stack| + 2 + Depth(c.right))
    decreases c, 0
  {
    var code := OpCode(c.op);
    var i := Item(ExpState(Top(stack).state), E(c.left));
    var j, l := Item(code + 5, T(Operator(c.op))), Item(code + 13, E(c.right));
    var k := Config(stack + [i], [Operator(c.op)] + (Yield(c.right) + rest));
    ShiftInfix(stack, c, c.left, Operator(c.op), Yield(c.right) + rest, rest);
    assert Infix(stack, c.left, Operator(c.op)) == stack + [i, j];
    ThenDrive(k, stack + [i, j], c.right, rest, |stack| + 1);
    HigherDepth(|stack| + 1, |stack| + 2, c.right);
    PushedOnTwo(stack, i, j, c.right);
    ReduceInfix(k, stack, c, i, j, l, rest, |stack| + 2 + Depth(c.right));
  }

  lemma InfixPlan(c: Cst, rest: seq<Token>)
    requires c.CBinary? && (InfixCode(Look(rest)) ==> LeftOf(c, Look(rest)))
    ensures Plan(OpCode(c.op) + 13, Look(rest)) == Reduce(OpCode(c.op) - 1)
  {
  }

  lemma InfixMade(c: Cst, i: Item, j: Item, l: Item)
    requires c.CBinary? && i.sym == E(c.left) && j.sym == T(Operator(c.op)) && l.sym == E(c.right)
    ensures var r := OpCode(c.op) - 1; 2 <= r <= 12 && Arity(r) == 3 && RhsOk(r, [i, j, l]) && Made(r, [i, j, l]) == E(c)
  {
  }

  lemma ReduceInfix(k: Config, stack: seq<Item>, c: Cst, i: Item, j: Item, l: Item, rest: seq<Token>, most: int)
    requires Ready(stack, c, rest) && c.CBinary? && most >= |stack| + 3
    requires i.sym == E(c.left) && j.sym == T(Operator(c.op)) && l == Item(OpCode(c.op) + 13, E(c.right))
    requires Leads(k, Config(stack + [i, j, l], rest), most)
    ensures Leads(k, Config(Pushed(stack, c), rest), most)
  {
    assert Top(stack + [i, j, l]) == l;
    InfixPlan(c, rest);
    InfixMade(c, i, j, l);
    ThenReduce(k, stack, [i, j, l], OpCode(c.op) - 1, rest, c, most);
  }

  lemma CondInput(t: seq<Token>, y: seq<Token>, n: seq<Token>, rest: seq<Token>)
    ensures (t + [Question] + y + [Colon] + n) + rest == t + ([Question] + (y + ([Colon] + (n + rest))))
  {
  }

  lemma {:induction false} DriveCond(stack: seq<Item>, c: Cst, rest: seq<Token>)
    requires Ready(stack, c, rest) && c.CCond?
    ensures Leads(Before(stack, c, rest), Config(Pushed(stack, c), rest), |stack| + Depth(c))
    decreases c, 2
  {
    var k, no := Before(stack, c, rest), Yield(c.no) + rest;
    var more := [Question] + (Yield(c.yes) + ([Colon] + no));
    CondInput(Yield(c.test), Yield(c.yes), Yield(c.no), rest);
    assert k == Before(stack, c.test, more);
    Drive(stack, c.test, more);
    Branches(stack, c, rest);
    LeadsCond(k, Config(Pushed(stack, c.test), more), Config(Pushed(stack, c), rest), |stack|, c);
  }

  lemma LeadsCond(k: Config, k': Config, k'': Config, n: int, c: Cst)
    requires c.CCond? && Leads(k, k', n + Depth(c.test))
    requires Leads(k', k'', Max(n + 2 + Depth(c.yes), n + 4 + Depth(c.no)))
    ensures Leads(k, k'', n + Depth(c))
  {
    LeadsOn(k, k', k'', n + Depth(c.test), Max(n + 2 + Depth(c.yes), n + 4 + Depth(c.no)));
    CondDepth(n, c);
  }

  /** A conditional from the question mark on. */
  lemma {:induction false} Branches(stack: seq<Item>, c: Cst, rest: seq<Token>)
    requires Ready(stack, c, rest) && c.CCond?
    requires Inv(Config(Pushed(stack, c.test), [Question] + (Yield(c.yes) + ([Colon] + (Yield(c.no) + rest)))))
    ensures Leads(Config(Pushed(stack, c.test), [Question] + (Yield(c.yes) + ([Colon] + (Yield(c.no) + rest)))),
                  Config(Pushed(stack, c), rest), Max(|stack| + 2 + Depth(c.yes), |stack| + 4 + Depth(c.no)))
    decreases c, 1
  {
    var no := [Colon] + (Yield(c.no) + rest);
    DriveThen(stack, c, rest);
    DriveElse(stack, c, rest);
    LeadsOn(Config(Pushed(stack, c.test), [Question] + (Yield(c.yes) + no)), Config(Thens(stack, c), no),
            Config(Pushed(stack, c), rest), |stack| + 2 + Depth(c.yes), |stack| + 4 + Depth(c.no));
  }

  /** The stack in front of the colon of a conditional. */
  ghost function Thens(stack: seq<Item>, c: Cst): seq<Item>
    requires stack != [] && c.CCond?
  {
    stack + [Item(ExpState(Top(stack).state), E(c.test)), Item(8, T(Question)), Item(16, E(c.yes))]
  }

  lemma {:induction false} DriveThen(stack: seq<Item>, c: Cst, rest: seq<Token>)
    requires Ready(stack, c, rest) && c.CCond?
    requires Inv(Config(Pushed(stack, c.test), [Question] + (Yield(c.yes) + ([Colon] + (Yield(c.no) + rest)))))
    ensures Leads(Config(Pushed(stack, c.test), [Question] + (Yield(c.yes) + ([Colon] + (Yield(c.no) + rest)))),
                  Config(Thens(stack, c), [Colon] + (Yield(c.no) + rest)), |stack| + 2 + Depth(c.yes))
    decreases c, 0
  {
    var after := [Colon] + (Yield(c.no) + rest);
    ShiftQuestion(stack, c, rest);
    ThenDrive(Config(Pushed(stack, c.test), [Question] + (Yield(c.yes) + after)), Infix(stack, c.test, Question), c.yes, after, |stack| + 1);
    HigherDepth(|stack| + 1, |stack| + 2, c.yes);
    ThensIs(stack, c);
  }

  lemma ThensIs(stack: seq<Item>, c: Cst)
    requires stack != [] && c.CCond?
    ensures Pushed(Infix(stack, c.test, Question), c.yes) == Thens(stack, c)
  {
  }

  lemma ShiftQuestion(stack: seq<Item>, c: Cst, rest: seq<Token>)
    requires Ready(stack, c, rest) && c.CCond?
    requires Inv(Config(Pushed(stack, c.test), [Question] + (Yield(c.yes) + ([Colon] + (Yield(c.no) + rest)))))
    ensures var above, after := Infix(stack, c.test, Question), [Colon] + (Yield(c.no) + rest);
      && Ready(above, c.yes, after)
      && Leads(Config(Pushed(stack, c.test), [Question] + (Yield(c.yes) + after)), Before(above, c.yes, after), |stack| + 1)
  {
    ShiftInfix(stack, c, c.test, Question, Yield(c.yes) + ([Colon] + (Yield(c.no) + rest)), rest);
  }

  lemma {:induction false} DriveElse(stack: seq<Item>, c: Cst, rest: seq<Token>)
    requires Ready(stack, c, rest) && c.CCond? && Inv(Config(Thens(stack, c), [Colon] + (Yield(c.no) + rest)))
    ensures Leads(Config(Thens(stack, c), [Colon] + (Yield(c.no) + rest)),
                  Config(Pushed(stack, c), rest), |stack| + 4 + Depth(c.no))
    decreases c, 0
  {
    var k := Config(Thens(stack, c), [Colon] + (Yield(c.no) + rest));
    ShiftColon(stack, c, rest);
    ThenDrive(k, Elses(stack, c), c.no, rest, |stack| + 3);
    WholeCond(stack, c);
    ReduceCondStep(k, stack, c, CondItems(stack, c), rest, |stack| + 4 + Depth(c.no));
  }

  /** The five items of a conditional. */
  ghost function CondItems(stack: seq<Item>, c: Cst): (rhs: seq<Item>)
    requires stack != [] && c.CCond?
    ensures RhsOk(2, rhs) && Made(2, rhs) == E(c) && rhs[4].state == 24
  {
    [Item(ExpState(Top(stack).state), E(c.test)), Item(8, T(Question)), Item(16, E(c.yes)), Item(23, T(Colon)), Item(24, E(c.no))]
  }

  lemma WholeCond(stack: seq<Item>, c: Cst)
    requires stack != [] && c.CCond?
    ensures Pushed(Elses(stack, c), c.no) == stack + CondItems(stack, c)
  {
  }

  /** The stack after the colon of a conditional. */
  ghost function Elses(stack: seq<Item>, c: Cst): seq<Item>
    requires stack != [] && c.CCond?
  {
    Thens(stack, c) + [Item(23, T(Colon))]
  }

  lemma ShiftColon(stack: seq<Item>, c: Cst, rest: seq<Token>)
    requires Ready(stack, c, rest) && c.CCond? && Inv(Config(Thens(stack, c), [Colon] + (Yield(c.no) + rest)))
    ensures Ready(Elses(stack, c), c.no, rest)
    ensures Leads(Config(Thens(stack, c), [Colon] + (Yield(c.no) + rest)), Before(Elses(stack, c), c.no, rest), |stack| + 3)
  {
    ShiftStep(Thens(stack, c), Colon, Yield(c.no) + rest, 23);
  }

  lemma ReduceCondStep(k: Config, stack: seq<Item>, c: Cst, rhs: seq<Item>, rest: seq<Token>, most: int)
    requires Ready(stack, c, rest) && c.CCond? && most >= |stack| + 5 && RhsOk(2, rhs) && Made(2, rhs) == E(c)
    requires rhs[4].state == 24 && Leads(k, Config(stack + rhs, rest), most)
    ensures Leads(k, Config(Pushed(stack, c), rest), most)
  {
    assert Top(stack + rhs) == rhs[4];
    ThenReduce(k, stack, rhs, 2, rest, c, most);
  }

  /** Reading the sentence of c puts c on the stack. */
  lemma {:induction false} Drive(stack: seq<Item>, c: Cst, rest: seq<Token>)
    requires Ready(stack, c, rest)
    ensures Leads(Before(stack, c, rest), Config(Pushed(stack, c), rest), |stack| + Depth(c))
    decreases c, 3
  {
    match c
    case CVar => DriveTerminal(stack, c, rest);
    case CNum(_) => DriveTerminal(stack, c, rest);
    case CParen(_) => DriveParen(stack, c, rest);
    case CNot(_) => DriveNot(stack, c, rest);
    case CBinary(_, _, _) => DriveBinary(stack, c, rest);
    case CCond(_, _, _) => DriveCond(stack, c, rest);
  }

  lemma Accepting(c: Cst)
    requires Ok(c)
    ensures var k := Config([Item(0, Bottom), Item(25, Whole(c)), Item(26, End)], []);
      Inv(k) && Result(k) == Accepted(c) && Peak(k) == 3
  {
    assert Edge(Item(0, Bottom), Item(25, Whole(c))) && Edge(Item(25, Whole(c)), Item(26, End));
  }

  /** In the end the whole is accepted. */
  lemma EndSteps(c: Cst)
    requires Ok(c)
    ensures var k := Config([Item(0, Bottom), Item(25, Whole(c))], []);
      Inv(k) && Result(k) == Accepted(c) && Peak(k) == 3
  {
    var bottom, whole := Item(0, Bottom), Item(25, Whole(c));
    assert Edge(bottom, whole);
    var k1 := Config([bottom, whole], []);
    Accepting(c);
    assert Next(k1) == Config([bottom, whole, Item(26, End)], []);
  }

  lemma FinalReduction(c: Cst)
    requires Ok(c)
    ensures var k := Config([Item(0, Bottom), Item(5, E(c))], []);
      Inv(k) && Plan(5, Look([])) == Reduce(1) && Next(k) == Config([Item(0, Bottom), Item(25, Whole(c))], [])
  {
    var bottom := Item(0, Bottom);
    var k := Config([bottom, Item(5, E(c))], []);
    assert Edge(bottom, k.stack[1]);
    ReduceWhole(k.stack);
    assert k.stack[..1] == [bottom] && Rhs(k.stack, 1) == [Item(5, E(c))];
  }

  lemma FinalSteps(c: Cst)
    requires Ok(c)
    ensures var k := Config([Item(0, Bottom), Item(5, E(c))], []);
      Inv(k) && Result(k) == Accepted(c) && Peak(k) == 3
  {
    FinalReduction(c);
    EndSteps(c);
  }

  lemma Concluded(k: Config, k': Config, most: int, c: Cst)
    requires Leads(k, k', most) && Result(k') == Accepted(c) && Peak(k') == 3
    ensures Result(k) == Accepted(c) && Peak(k) == Max(most, 3)
  {
  }

  /** Every sentence is accepted with its derivation, in exactly this depth. */
  lemma Complete(c: Cst)
    requires Ok(c)
    ensures Result(Initial(Yield(c))) == Accepted(c)
    ensures Peak(Initial(Yield(c))) == Max(1 + Depth(c), 3)
  {
    CompleteRun(Initial(Yield(c)), [Item(0, Bottom)], c);
  }

  lemma CompleteRun(k: Config, stack: seq<Item>, c: Cst)
    requires Ok(c) && stack == [Item(0, Bottom)] && k == Config(stack, Yield(c)) && Inv(k)
    ensures Result(k) == Accepted(c) && Peak(k) == Max(1 + Depth(c), 3)
  {
    var k' := Config(Pushed(stack, c), []);
    assert Before(stack, c, []) == k;
    Drive(stack, c, []);
    LastConfig(k', stack, c);
    Concluded(k, k', 1 + Depth(c), c);
  }

  lemma LastConfig(k: Config, stack: seq<Item>, c: Cst)
    requires Ok(c) && stack == [Item(0, Bottom)] && k == Config(Pushed(stack, c), [])
    ensures Inv(k) && Result(k) == Accepted(c) && Peak(k) == 3
  {
    assert Pushed(stack, c) == [Item(0, Bottom), Item(5, E(c))];
    FinalSteps(c);
  }

  /** The automaton accepts exactly the sentences, and returns the one derivation that the declared
      precedences select. */
  lemma AcceptsExactly(input: seq<Token>, c: Cst)
    ensures Result(Initial(input)) == Accepted(c) <==> Ok(c) && Yield(c) == input
  {
    if Result(Initial(input)) == Accepted(c) { AcceptedInput(input); }
    if Ok(c) && Yield(c) == input { Complete(c); }
  }

  lemma AcceptedInput(input: seq<Token>)
    requires Result(Initial(input)).Accepted?
    ensures var c := Result(Initial(input)).c; Ok(c) && Yield(c) == input
  {
    Sound(Initial(input));
    YieldsOne(Item(0, Bottom));
    assert [] + input == input;
  }

  /** No sentence has two derivations. */
  lemma Unambiguous(c: Cst, c': Cst)
    requires Ok(c) && Ok(c') && Yield(c) == Yield(c')
    ensures c == c'
  {
    Complete(c);
    Complete(c');
  }
}
