/**
 The parser tables of zmailer/intl/plural.c, row by row as printed there, and what they mean.
 */
module PluralTables {

  const YYFINAL := 27
  const YYFLAG := -32768
  const YYLAST := 53
  const YYNTBASE := 16

  function YyTable(n: int): int
    requires 0 <= n <= YYLAST
  {
    if n < 1 then 6
    else if n < 11 then [1, 2, 7, 3, 4, 14, 16, 17, 18, 19][n - 1]
    else if n < 21 then [20, 21, 22, 8, 9, 10, 11, 12, 13, 14][n - 11]
    else if n < 31 then [26, 24, 12, 13, 14, 15, 8, 9, 10, 11][n - 21]
    else if n < 41 then [12, 13, 14, 13, 14, 23, 8, 9, 10, 11][n - 31]
    else if n < 51 then [12, 13, 14, 10, 11, 12, 13, 14, 11, 12][n - 41]
    else [13, 14, 27][n - 51]
  }

  function YyCheck(n: int): int
    requires 0 <= n <= YYLAST
  {
    if n < 1 then 1
    else if n < 11 then [10, 11, 4, 13, 14, 9, 8, 9, 10, 11][n - 1]
    else if n < 21 then [12, 13, 14, 3, 4, 5, 6, 7, 8, 9][n - 11]
    else if n < 31 then [0, 23, 7, 8, 9, 15, 3, 4, 5, 6][n - 21]
    else if n < 41 then [7, 8, 9, 8, 9, 12, 3, 4, 5, 6][n - 31]
    else if n < 51 then [7, 8, 9, 5, 6, 7, 8, 9, 6, 7][n - 41]
    else [8, 9, 0][n - 51]
  }

  function YyPact(s: int): int
    requires 0 <= s < 28
  {
    if s < 1 then -9
    else if s < 11 then [-9, -32768, -32768, -9, 34, -32768, 11, -9, -9, -9][s - 1]
    else if s < 21 then [-9, -9, -9, -9, -32768, 24, 39, 43, 16, 26][s - 11]
    else [-3, -32768, -9, 34, 21, 53, -32768][s - 21]
  }

  function YyDefact(s: int): int
    requires 0 <= s < 28
  {
    if s < 1 then 0
    else if s < 11 then [0, 11, 10, 0, 1, 9, 0, 0, 0, 0][s - 1]
    else if s < 21 then [0, 0, 0, 0, 12, 0, 3, 4, 5, 6][s - 11]
    else [7, 8, 0, 2, 0, 0, 0][s - 21]
  }

  function YyR1(r: int): int
    requires 0 <= r < 13
  {
    [0, 16, 17, 17, 17, 17, 17, 17, 17, 17, 17, 17, 17][r]
  }

  function YyR2(r: int): int
    requires 0 <= r < 13
  {
    [0, 1, 5, 3, 3, 3, 3, 3, 3, 2, 1, 1, 3][r]
  }

  function YyPgoto(i: int): int
    requires 0 <= i < 2
  {
    [YYFLAG, -1][i]
  }

  function YyDefgoto(i: int): int
    requires 0 <= i < 2
  {
    [25, 5][i]
  }

  // ------------------------------------------------------------------ decisions of the parser

  datatype Action = Shift(state: int) | Reduce(rule: int) | Accept | Error

  function DefaultAction(s: int): Action
    requires 0 <= s < 28
  {
    if YyDefact(s) == 0 then Error else Reduce(YyDefact(s))
  }

  /** What yyparse does in state s with the lookahead code c. */
  function Decide(s: int, c: int): Action
    requires 0 <= s < 28
  {
    if YyPact(s) == YYFLAG then DefaultAction(s)
    else
      var n := YyPact(s) + c;
      if n < 0 || n > YYLAST || YyCheck(n) != c then DefaultAction(s)
      else
        var a := YyTable(n);
        if a < 0 then (if a == YYFLAG then Error else Reduce(-a))
        else if a == 0 then Error
        else if a == YYFINAL then Accept
        else Shift(a)
  }

  /** The state after reducing to the symbol with number `lhs` on top of state s. */
  function Goto(lhs: int, s: int): int
    requires lhs == 16 || lhs == 17
  {
    var n := YyPgoto(lhs - YYNTBASE) + s;
    if 0 <= n <= YYLAST && YyCheck(n) == s then YyTable(n) else YyDefgoto(lhs - YYNTBASE)
  }

  // ------------------------------------------------------------------ the states by their role

  /** States in which an expression must begin. */
  predicate Expecting(s: int) {
    s == 0 || s == 1 || s == 4 || 8 <= s <= 14 || s == 23
  }

  /** States entered with an expression. */
  predicate AfterExp(s: int) {
    5 <= s <= 7 || 16 <= s <= 22 || s == 24
  }

  /** In such a state, exactly the infix operators with a code above this one are shifted. */
  function Floor(s: int): int {
    if 17 <= s <= 22 then s - 13 else if s == 6 then 9 else 2
  }

  /** The state entered with an expression from a state that expects one. */
  function ExpState(s: int): int {
    if s == 0 then 5 else if s == 1 then 6 else if s == 4 then 7
    else if s == 23 then 24 else s + 8
  }

  function FirstState(c: int): int {
    if c == 10 then 1 else if c == 11 then 2 else if c == 13 then 3 else 4
  }

  function RuleAfter(s: int): int {
    if s == 5 then 1 else if s == 6 then 9 else if s == 24 then 2 else s - 14
  }

  /** The same decisions, said by role: after an expression, infix operators that bind tighter than
      the one before it are shifted, and otherwise the expression is reduced. */
  function Plan(s: int, c: int): Action {
    if Expecting(s) then (if c in {10, 11, 13, 14} then Shift(FirstState(c)) else Error)
    else if AfterExp(s) then
      if 3 <= c <= 9 && c > Floor(s) then Shift(c + 5)
      else if s == 7 then (if c == 15 then Shift(15) else Error)
      else if s == 16 then (if c == 12 then Shift(23) else Error)
      else Reduce(RuleAfter(s))
    else if s == 2 then Reduce(11)
    else if s == 3 then Reduce(10)
    else if s == 15 then Reduce(12)
    else if c != 0 then Error
    else if s == 25 then Shift(26)
    else Accept
  }

  lemma PlanExpecting(s: int, c: int)
    requires Expecting(s) && 0 <= c < 16
    ensures Decide(s, c) == Plan(s, c)
  {
  }

  lemma Plan5(c: int)
    requires 0 <= c < 16
    ensures Decide(5, c) == Plan(5, c)
  {
  }

  lemma Plan6(c: int)
    requires 0 <= c < 16
    ensures Decide(6, c) == Plan(6, c)
  {
  }

  lemma Plan7(c: int)
    requires 0 <= c < 16
    ensures Decide(7, c) == Plan(7, c)
  {
  }

  lemma Plan16(c: int)
    requires 0 <= c < 16
    ensures Decide(16, c) == Plan(16, c)
  {
  }

  lemma Plan17(c: int)
    requires 0 <= c < 16
    ensures Decide(17, c) == Plan(17, c)
  {
  }

  lemma Plan18(c: int)
    requires 0 <= c < 16
    ensures Decide(18, c) == Plan(18, c)
  {
  }

  lemma Plan19(c: int)
    requires 0 <= c < 16
    ensures Decide(19, c) == Plan(19, c)
  {
  }

  lemma Plan20(c: int)
    requires 0 <= c < 16
    ensures Decide(20, c) == Plan(20, c)
  {
  }

  lemma Plan21(c: int)
    requires 0 <= c < 16
    ensures Decide(21, c) == Plan(21, c)
  {
  }

  lemma Plan22(c: int)
    requires 0 <= c < 16
    ensures Decide(22, c) == Plan(22, c)
  {
  }

  lemma Plan24(c: int)
    requires 0 <= c < 16
    ensures Decide(24, c) == Plan(24, c)
  {
  }

  lemma PlanOther(s: int, c: int)
    requires (s == 2 || s == 3 || s == 15 || s == 25 || s == 26) && 0 <= c < 16
    ensures Decide(s, c) == Plan(s, c)
  {
  }

  lemma PlanAfterExp(s: int, c: int)
    requires AfterExp(s) && 0 <= c < 16
    ensures Decide(s, c) == Plan(s, c)
  {
    match s
    case 5 => Plan5(c);
    case 6 => Plan6(c);
    case 7 => Plan7(c);
    case 16 => Plan16(c);
    case 17 => Plan17(c);
    case 18 => Plan18(c);
    case 19 => Plan19(c);
    case 20 => Plan20(c);
    case 21 => Plan21(c);
    case 22 => Plan22(c);
    case _ => Plan24(c);
  }

  /** The tables decide as planned, in every state and for every lookahead. */
  lemma TablesMeanPlan(s: int, c: int)
    requires 0 <= s <= 26 && 0 <= c < 16
    ensures Decide(s, c) == Plan(s, c)
  {
    if Expecting(s) {
      PlanExpecting(s, c);
    } else if AfterExp(s) {
      PlanAfterExp(s, c);
    } else {
      PlanOther(s, c);
    }
  }

  lemma GotoMeansExpState(s: int)
    requires Expecting(s)
    ensures Goto(17, s) == ExpState(s) && Goto(16, s) == 25
  {
  }
}
