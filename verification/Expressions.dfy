/** C expressions of the generated code: the levels of their operators as the compiler
    computes them, and the printer, which relies on these. */
module Expressions {
  import opened Wrappers
  import opened Operators

  const SEQUENCE := 0
  const ASSIGNMENT := 1
  const CONDITIONAL := 2
  const LOGICAL_OR := 3
  const LOGICAL_AND := 4
  const INCLUSIVE_OR := 5
  const EXCLUSIVE_OR := 6
  const AND := 7
  const MIN_MAX := 8
  const EQUALITY := 9
  const RELATIONAL := 10
  const SHIFT := 11
  const ADDITIVE := 12
  const MULTIPLICATIVE := 13
  const CAST := 14
  const UNARY := 15
  const POSTFIX := 16
  const PRIMARY := 17

  /** A cast may be a node of its own or, `asPrefix`, part of a prefix operator; it is the
      same cast to a reader, but the printer takes it for a unary operator. */
  datatype Expr =
    | Prim(name: string)
    | Brackets(inner: Expr)
    | Unary(op: string, operand: Expr)
    | Cast(target: string, asPrefix: bool, operand: Expr)
    | Postfix(op: string, operand: Expr)
    | Binary(op: string, left: Expr, right: Expr)
    | Cond(condition: Expr, ifTrue: Expr, ifFalse: Expr)
    | Index(base: Expr, index: Expr)
    | Call(callee: Expr, arguments: Args)

  datatype Args = NoArgs | Arg(head: Expr, tail: Args)

  // ---------------------------------------------------------------- precedence

  function CharAt(op: string, k: nat): char {
    if k < |op| then op[k] else '\0'
  }

  /** The level of a binary operator, as the compiler finds it from the first three
      characters; none where it would panic. */
  function PrecedenceOf(op: string): Option<nat> {
    var c, d, e := CharAt(op, 0), CharAt(op, 1), CharAt(op, 2);
    if d == '\0' then
      if c == ',' then Some(SEQUENCE)
      else if c == '=' then Some(ASSIGNMENT)
      else if c == '|' then Some(INCLUSIVE_OR)
      else if c == '^' then Some(EXCLUSIVE_OR)
      else if c == '&' then Some(AND)
      else if c == '.' then Some(POSTFIX)
      else if c == '<' || c == '>' then Some(RELATIONAL)
      else if c == '+' || c == '-' then Some(ADDITIVE)
      else if c == '*' || c == '/' || c == '%' then Some(MULTIPLICATIVE)
      else None
    else if d == '=' && e == '\0' then
      if c == '*' || c == '/' || c == '%' || c == '+' || c == '-' || c == '&' || c == '^' || c == '|'
        then Some(ASSIGNMENT)
      else if c == '=' || c == '!' then Some(EQUALITY)
      else if c == '<' || c == '>' then Some(RELATIONAL)
      else None
    else if c == d && e == '\0' then
      if c == '|' then Some(LOGICAL_OR)
      else if c == '&' then Some(LOGICAL_AND)
      else if c == '<' || c == '>' then Some(SHIFT)
      else None
    else if c == d && e == '=' then
      if c == '<' || c == '>' then Some(ASSIGNMENT) else None
    else if d == '?' && e == '=' then
      if c == '<' || c == '>' then Some(ASSIGNMENT) else None
    else if c == '-' && d == '>' && e == '\0' then Some(POSTFIX)
    else if d == '?' then
      if c == '<' || c == '>' then Some(MIN_MAX) else None
    else None
  }

  /** What the compiler takes a string for: it reads up to a null character, and of a longer
      string as much as it compares. */
  function Taken(op: string): string {
    var d, e := CharAt(op, 1), CharAt(op, 2);
    if |op| <= 1 then op
    else if d == '\0' then op[..1]
    else if |op| > 2 && e != '\0' && !(d == '?' && e != '=') then op[..3]
    else op[..2]
  }

  /** For every string the level is that of the production that has the operator. */
  lemma LevelsAgree(op: string, n: nat)
    ensures PrecedenceOf(op) == Some(n) <==> Operates(n, Taken(op))
    ensures Operates(n, op) ==> Taken(op) == op
  {
    var t := Taken(op);
    if |t| == 1 {
      assert t == [op[0]];
    } else if |t| == 2 {
      assert t == [op[0], op[1]];
    } else if |t| == 3 {
      assert t == [op[0], op[1], op[2]];
    }
    OperatorTaken(op, n);
  }

  lemma OperatorTaken(op: string, n: nat)
    ensures Operates(n, op) ==> Taken(op) == op
  {
    if Operates(n, op) {
      assert 1 <= |op| <= 3;
      assert op[..|op|] == op;
    }
  }

  /** No binary operator shares a level with another kind of expression. */
  lemma BinaryLevels(op: string)
    ensures PrecedenceOf(op).Some? ==>
              var n := PrecedenceOf(op).value;
              n <= POSTFIX && n != CONDITIONAL && n != CAST && n != UNARY
    ensures PrecedenceOf("++") == PrecedenceOf("--") == None
  {
  }

  function Level(e: Expr): nat {
    match e
    case Prim(_) => PRIMARY
    case Brackets(_) => PRIMARY
    case Unary(_, _) => UNARY
    case Cast(_, asPrefix, _) => if asPrefix then UNARY else CAST
    case Postfix(_, _) => POSTFIX
    case Binary(op, _, _) => (match PrecedenceOf(op) case Some(n) => n case None => 0)
    case Cond(_, _, _) => CONDITIONAL
    case Index(_, _) => POSTFIX
    case Call(_, _) => POSTFIX
  }

  /** All operators are ones that C has in that position. */
  predicate Known(e: Expr) {
    match e
    case Prim(_) => true
    case Brackets(x) => Known(x)
    case Unary(op, x) => IsPrefix(op) && Known(x)
    case Cast(_, _, x) => Known(x)
    case Postfix(op, x) => IsStep(op) && Known(x)
    case Binary(op, l, r) => IsBinaryOperator(op) && Known(l) && Known(r)
    case Cond(c, t, f) => Known(c) && Known(t) && Known(f)
    case Index(b, i) => Known(b) && Known(i)
    case Call(f, args) => Known(f) && KnownArgs(args)
  }

  predicate KnownArgs(args: Args) {
    match args
    case NoArgs => true
    case Arg(e, more) => Known(e) && KnownArgs(more)
  }

  // ---------------------------------------------------------------- printing

  /** TCast stands for a type name in parentheses. */
  datatype Token =
    | TPrim(name: string) | TCast(target: string) | TOp(op: string)
    | LParen | RParen | LBracket | RBracket | Question | Colon

  /** In parentheses if the child binds less tightly than the place it is in. */
  function Parenthesized(tokens: seq<Token>, level: nat, place: nat): seq<Token> {
    if level < place then [LParen] + tokens + [RParen] else tokens
  }

  function Print(e: Expr): seq<Token> {
    match e
    case Prim(name) => [TPrim(name)]
    case Brackets(x) => [LParen] + Print(x) + [RParen]
    case Unary(op, x) => [TOp(op)] + Parenthesized(Print(x), Level(x), UNARY)
    case Cast(t, _, x) => [TCast(t)] + Parenthesized(Print(x), Level(x), Level(e))
    case Postfix(op, x) => Parenthesized(Print(x), Level(x), POSTFIX) + [TOp(op)]
    case Binary(op, l, r) =>
      Parenthesized(Print(l), Level(l), Level(e)) + ([TOp(op)] + Parenthesized(Print(r), Level(r), Level(e)))
    case Cond(c, t, f) =>
      Parenthesized(Print(c), Level(c), CONDITIONAL)
      + ([Question] + Parenthesized(Print(t), Level(t), CONDITIONAL)
        + ([Colon] + Parenthesized(Print(f), Level(f), CONDITIONAL)))
    case Index(b, i) => Parenthesized(Print(b), Level(b), POSTFIX) + ([LBracket] + Print(i) + [RBracket])
    case Call(f, args) => Print(f) + ([LParen] + PrintArgs(args) + [RParen])
  }

  function PrintArgs(args: Args): seq<Token> {
    match args
    case NoArgs => []
    case Arg(e, NoArgs) => Print(e)
    case Arg(e, more) => Print(e) + ([TOp(",")] + PrintArgs(more))
  }

  // ---------------------------------------------------------------- brackets

  /** The tree without its brackets, and with all casts as nodes of their own. */
  function Strip(e: Expr): Expr {
    match e
    case Prim(name) => e
    case Brackets(x) => Strip(x)
    case Unary(op, x) => Unary(op, Strip(x))
    case Cast(t, _, x) => Cast(t, false, Strip(x))
    case Postfix(op, x) => Postfix(op, Strip(x))
    case Binary(op, l, r) => Binary(op, Strip(l), Strip(r))
    case Cond(c, t, f) => Cond(Strip(c), Strip(t), Strip(f))
    case Index(b, i) => Index(Strip(b), Strip(i))
    case Call(f, args) => Call(Strip(f), StripArgs(args))
  }

  function StripArgs(args: Args): Args {
    match args
    case NoArgs => NoArgs
    case Arg(e, more) => Arg(Strip(e), StripArgs(more))
  }

  /** What the printer relies on: it parenthesizes only children that bind less
      tightly, and never callees and arguments. */
  predicate Normal(e: Expr) {
    match e
    case Prim(_) => true
    case Brackets(x) => Normal(x)
    case Unary(_, x) => Normal(x)
    case Cast(_, _, x) => Normal(x)
    case Postfix(_, x) => Normal(x)
    case Binary(op, l, r) =>
      Normal(l) && Normal(r) && (if Level(e) == ASSIGNMENT then Level(l) != ASSIGNMENT else Level(r) != Level(e))
    case Cond(c, t, f) => Normal(c) && Normal(t) && Normal(f) && Level(c) != CONDITIONAL
    case Index(b, i) => Normal(b) && Normal(i)
    case Call(f, args) => Normal(f) && Level(f) >= POSTFIX && NormalArgs(args)
  }

  predicate NormalArgs(args: Args) {
    match args
    case NoArgs => true
    case Arg(e, more) => Normal(e) && Level(e) != SEQUENCE && NormalArgs(more)
  }
}
