/**
 The language of plural expressions: tokens, derivation trees resolved by the declared
 precedences and associativities, and the expressions they stand for.
 */
module PluralGrammar {

  datatype Op =
    | Mult | Divide | Module | Plus | Minus
    | LessThan | GreaterThan | LessOrEqual | GreaterOrEqual
    | Equal | NotEqual | LAnd | LOr

  /** struct expression */
  datatype Exp = Var | Num(n: nat) | Not(arg: Exp) | Binary(op: Op, left: Exp, right: Exp) | Cond(test: Exp, yes: Exp, no: Exp)

  /** What yylex delivers, without the end marker; Bad stands for YYERRCODE. */
  datatype Token = Bad | Question | Operator(op: Op) | Bang | Number(n: nat) | Colon | N | LParen | RParen

  /** The internal code (YYTRANSLATE) of a token; 0 is the end marker. */
  function Code(t: Token): int {
    match t
    case Bad => 1
    case Question => 3
    case Operator(op) => OpCode(op)
    case Bang => 10
    case Number(_) => 11
    case Colon => 12
    case N => 13
    case LParen => 14
    case RParen => 15
  }

  /** The codes of the operators are in the order of their precedence. */
  function OpCode(op: Op): int {
    match op
    case LOr => 4
    case LAnd => 5
    case Equal => 6 case NotEqual => 6
    case LessThan => 7 case GreaterThan => 7 case LessOrEqual => 7 case GreaterOrEqual => 7
    case Plus => 8 case Minus => 8
    case Mult => 9 case Divide => 9 case Module => 9
  }

  predicate InfixCode(k: int) {
    3 <= k <= 9
  }

  /** A derivation tree of the grammar. */
  datatype Cst =
    | CVar | CNum(n: nat) | CParen(arg: Cst) | CNot(arg: Cst)
    | CBinary(op: Op, left: Cst, right: Cst)
    | CCond(test: Cst, yes: Cst, no: Cst)

  function Level(c: Cst): int {
    match c
    case CCond(_, _, _) => 3
    case CBinary(op, _, _) => OpCode(op)
    case CNot(_) => 10
    case _ => 11
  }

  /** c may stand to the left of the infix operator with code k: `?` associates to the right, the
      others to the left. */
  predicate LeftOf(c: Cst, k: int) {
    if k == 3 then Level(c) > 3 else Level(c) >= k
  }

  /** c is the derivation that the declared precedences and associativities select. */
  predicate Ok(c: Cst) {
    match c
    case CVar => true
    case CNum(_) => true
    case CParen(a) => Ok(a)
    case CNot(a) => Ok(a) && Level(a) >= 10
    case CBinary(op, l, r) => Ok(l) && Ok(r) && LeftOf(l, OpCode(op)) && Level(r) > OpCode(op)
    case CCond(t, y, n) => Ok(t) && Ok(y) && Ok(n) && LeftOf(t, 3)
  }

  /** The sentence of a derivation. */
  function Yield(c: Cst): (toks: seq<Token>)
    ensures toks != []
  {
    match c
    case CVar => [N]
    case CNum(n) => [Number(n)]
    case CParen(a) => [LParen] + Yield(a) + [RParen]
    case CNot(a) => [Bang] + Yield(a)
    case CBinary(op, l, r) => Yield(l) + [Operator(op)] + Yield(r)
    case CCond(t, y, n) => Yield(t) + [Question] + Yield(y) + [Colon] + Yield(n)
  }

  /** The expression of a derivation; parentheses leave no trace. */
  function Tree(c: Cst): Exp {
    match c
    case CVar => Var
    case CNum(n) => Num(n)
    case CParen(a) => Tree(a)
    case CNot(a) => Not(Tree(a))
    case CBinary(op, l, r) => Binary(op, Tree(l), Tree(r))
    case CCond(t, y, n) => Cond(Tree(t), Tree(y), Tree(n))
  }
}
