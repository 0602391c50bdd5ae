/** A parser for C expressions, by the grammar of section 6.5 of ISO/IEC 9899:1999. It knows
    operators by their productions and nothing of the printer's levels. */
module Grammar {
  import opened Wrappers
  import opened Operators
  import opened Expressions

  datatype Parsed = Parsed(e: Expr, rest: seq<Token>)

  datatype ParsedArgs = ParsedArgs(args: Args, rest: seq<Token>)

  // The productions that are more than operands and the operators between them.
  const COMMA_EXPRESSION := 0
  const ASSIGNMENT_EXPRESSION := 1
  const CONDITIONAL_EXPRESSION := 2
  const CAST_EXPRESSION := 14
  const UNARY_EXPRESSION := 15
  const POSTFIX_EXPRESSION := 16

  predicate IsBinaryAt(tokens: seq<Token>, n: nat): (b: bool)
    ensures b <==>
              tokens != [] && tokens[0].TOp? && IsBinaryOperator(tokens[0].op) && PrecedenceOf(tokens[0].op) == Some(n)
  {
    tokens != [] && tokens[0].TOp? &&
    (OperatorLevel(tokens[0].op, n);
     Operates(n, tokens[0].op))
  }

  /** An expression of the given level or above. */
  function Parse(n: nat, tokens: seq<Token>): (r: Option<Parsed>)
    requires n <= POSTFIX_EXPRESSION
    ensures r.Some? ==> |r.value.rest| < |tokens|
    decreases |tokens|, 17 - n
  {
    if n >= POSTFIX_EXPRESSION then
      (match ParsePrimary(tokens)
       case None => None
       case Some(p) => ParsePostfix(p.e, p.rest))
    else if n == UNARY_EXPRESSION then
      if tokens != [] && tokens[0].TOp? && IsPrefix(tokens[0].op) then
        (match Parse(CAST_EXPRESSION, tokens[1..])
         case None => None
         case Some(p) => Some(Parsed(Unary(tokens[0].op, p.e), p.rest)))
      else Parse(POSTFIX_EXPRESSION, tokens)
    else if n == CAST_EXPRESSION then
      if tokens != [] && tokens[0].TCast? then
        (match Parse(CAST_EXPRESSION, tokens[1..])
         case None => None
         case Some(p) => Some(Parsed(Cast(tokens[0].target, false, p.e), p.rest)))
      else Parse(UNARY_EXPRESSION, tokens)
    else
      match Parse(n + 1, tokens)
      case None => None
      case Some(p) =>
        if n == ASSIGNMENT_EXPRESSION then ParseAssignment(p.e, p.rest)
        else if n == CONDITIONAL_EXPRESSION then ParseConditional(p.e, p.rest)
        else ParseBinary(n, p.e, p.rest)
  }

  /** Assignment operators group to the right. */
  function ParseAssignment(e: Expr, tokens: seq<Token>): (r: Option<Parsed>)
    ensures r.Some? ==> |r.value.rest| <= |tokens|
    decreases |tokens|, 17 + 1
  {
    if IsBinaryAt(tokens, ASSIGNMENT_EXPRESSION) then
      match Parse(ASSIGNMENT_EXPRESSION, tokens[1..])
      case None => None
      case Some(p) => Some(Parsed(Binary(tokens[0].op, e, p.e), p.rest))
    else Some(Parsed(e, tokens))
  }

  function ParseConditional(e: Expr, tokens: seq<Token>): (r: Option<Parsed>)
    ensures r.Some? ==> |r.value.rest| <= |tokens|
    decreases |tokens|, 17 + 1
  {
    if tokens != [] && tokens[0] == Question then
      match Parse(COMMA_EXPRESSION, tokens[1..])
      case None => None
      case Some(t) =>
        if t.rest == [] || t.rest[0] != Colon then None
        else
          match Parse(CONDITIONAL_EXPRESSION, t.rest[1..])
          case None => None
          case Some(f) => Some(Parsed(Cond(e, t.e, f.e), f.rest))
    else Some(Parsed(e, tokens))
  }

  /** The other binary operators group to the left. */
  function ParseBinary(n: nat, e: Expr, tokens: seq<Token>): (r: Option<Parsed>)
    requires n < POSTFIX_EXPRESSION
    ensures r.Some? ==> |r.value.rest| <= |tokens|
    decreases |tokens|, 17 + 1
  {
    if IsBinaryAt(tokens, n) then
      match Parse(n + 1, tokens[1..])
      case None => None
      case Some(p) => ParseBinary(n, Binary(tokens[0].op, e, p.e), p.rest)
    else Some(Parsed(e, tokens))
  }

  function ParsePostfix(e: Expr, tokens: seq<Token>): (r: Option<Parsed>)
    ensures r.Some? ==> |r.value.rest| <= |tokens|
    decreases |tokens|, 17 + 1
  {
    if tokens == [] then Some(Parsed(e, tokens))
    else if tokens[0] == LBracket then
      match Parse(COMMA_EXPRESSION, tokens[1..])
      case None => None
      case Some(p) => if p.rest == [] || p.rest[0] != RBracket then None else ParsePostfix(Index(e, p.e), p.rest[1..])
    else if tokens[0] == LParen then
      match ParseArgs(tokens[1..])
      case None => None
      case Some(p) => ParsePostfix(Call(e, p.args), p.rest)
    else if IsBinaryAt(tokens, POSTFIX_EXPRESSION) then
      match ParsePrimary(tokens[1..])
      case None => None
      case Some(p) => ParsePostfix(Binary(tokens[0].op, e, p.e), p.rest)
    else if tokens[0].TOp? && IsStep(tokens[0].op) then ParsePostfix(Postfix(tokens[0].op, e), tokens[1..])
    else Some(Parsed(e, tokens))
  }

  function ParsePrimary(tokens: seq<Token>): (r: Option<Parsed>)
    ensures r.Some? ==> |r.value.rest| < |tokens|
    decreases |tokens|, 0
  {
    if tokens == [] then None
    else if tokens[0].TPrim? then Some(Parsed(Prim(tokens[0].name), tokens[1..]))
    else if tokens[0] == LParen then
      match Parse(COMMA_EXPRESSION, tokens[1..])
      case None => None
      case Some(p) => if p.rest == [] || p.rest[0] != RParen then None else Some(Parsed(Brackets(p.e), p.rest[1..]))
    else None
  }

  /** Arguments up to and including the closing parenthesis. */
  function ParseArgs(tokens: seq<Token>): (r: Option<ParsedArgs>)
    ensures r.Some? ==> |r.value.rest| < |tokens|
    decreases |tokens|, 17 + 2
  {
    if tokens != [] && tokens[0] == RParen then Some(ParsedArgs(NoArgs, tokens[1..]))
    else ParseArgList(tokens)
  }

  function ParseArgList(tokens: seq<Token>): (r: Option<ParsedArgs>)
    ensures r.Some? ==> |r.value.rest| < |tokens|
    decreases |tokens|, 17 + 1
  {
    match Parse(ASSIGNMENT_EXPRESSION, tokens)
    case None => None
    case Some(p) =>
      if p.rest == [] then None
      else if p.rest[0] == RParen then Some(ParsedArgs(Arg(p.e, NoArgs), p.rest[1..]))
      else if p.rest[0] == TOp(",") then
        match ParseArgList(p.rest[1..])
        case None => None
        case Some(q) => Some(ParsedArgs(Arg(p.e, q.args), q.rest))
      else None
  }

  /** A complete expression. */
  function ParseAll(tokens: seq<Token>): Option<Expr> {
    match Parse(COMMA_EXPRESSION, tokens)
    case None => None
    case Some(p) => if p.rest == [] then Some(p.e) else None
  }

  /** An operator of C has the level of its production. */
  lemma OperatorLevel(op: string, n: nat)
    ensures Operates(n, op) <==> IsBinaryOperator(op) && PrecedenceOf(op) == Some(n)
  {
    hide PrecedenceOf, Taken, Operates;
    LevelsAgree(op, n);
    if IsBinaryOperator(op) {
      var m :| 0 <= m <= 16 && Operates(m, op);
      LevelsAgree(op, m);
    }
    if Operates(n, op) {
      LastProduction(op, n);
    }
  }

  lemma LastProduction(op: string, n: nat)
    requires Operates(n, op)
    ensures n <= 16
  {
  }

  /** Reading the printed tokens gives the same tree, up to brackets. */
  predicate RoundTrips(e: Expr) {
    var parsed := ParseAll(Print(e));
    parsed.Some? && Strip(parsed.value) == Strip(e)
  }
}
