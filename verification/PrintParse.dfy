/** Parsing what was printed. */
module PrintParse {
  import opened Wrappers
  import opened Operators
  import opened Expressions
  import opened Grammar

  // ---------------------------------------------------------------- explicit brackets

  /** The tokens of a tree that has all the brackets it needs. */
  function Flat(e: Expr): seq<Token> {
    match e
    case Prim(name) => [TPrim(name)]
    case Brackets(x) => [LParen] + Flat(x) + [RParen]
    case Unary(op, x) => [TOp(op)] + Flat(x)
    case Cast(t, _, x) => [TCast(t)] + Flat(x)
    case Postfix(op, x) => Flat(x) + [TOp(op)]
    case Binary(op, l, r) => Flat(l) + ([TOp(op)] + Flat(r))
    case Cond(c, t, f) => Flat(c) + ([Question] + Flat(t) + ([Colon] + Flat(f)))
    case Index(b, i) => Flat(b) + ([LBracket] + Flat(i) + [RBracket])
    case Call(f, args) => Flat(f) + ([LParen] + FlatArgs(args) + [RParen])
  }

  function FlatArgs(args: Args): seq<Token> {
    match args
    case NoArgs => []
    case Arg(e, NoArgs) => Flat(e)
    case Arg(e, more) => Flat(e) + ([TOp(",")] + FlatArgs(more))
  }

  function Bracketed(e: Expr, level: nat, place: nat): Expr {
    if level < place then Brackets(e) else e
  }

  /** The tree with brackets where the printer puts parentheses. */
  function Explicit(e: Expr): Expr {
    match e
    case Prim(name) => e
    case Brackets(x) => Brackets(Explicit(x))
    case Unary(op, x) => Unary(op, Bracketed(Explicit(x), Level(x), UNARY))
    case Cast(t, _, x) => Cast(t, false, Bracketed(Explicit(x), Level(x), Level(e)))
    case Postfix(op, x) => Postfix(op, Bracketed(Explicit(x), Level(x), POSTFIX))
    case Binary(op, l, r) =>
      Binary(op, Bracketed(Explicit(l), Level(l), Level(e)), Bracketed(Explicit(r), Level(r), Level(e)))
    case Cond(c, t, f) =>
      Cond(Bracketed(Explicit(c), Level(c), CONDITIONAL), Bracketed(Explicit(t), Level(t), CONDITIONAL),
           Bracketed(Explicit(f), Level(f), CONDITIONAL))
    case Index(b, i) => Index(Bracketed(Explicit(b), Level(b), POSTFIX), Explicit(i))
    case Call(f, args) => Call(Explicit(f), ExplicitArgs(args))
  }

  function ExplicitArgs(args: Args): Args {
    match args
    case NoArgs => NoArgs
    case Arg(e, more) => Arg(Explicit(e), ExplicitArgs(more))
  }

  /** Printing is writing down the explicit tree. */
  lemma {:induction false} PrintIsFlat(e: Expr)
    ensures Print(e) == Flat(Explicit(e))
    decreases e
  {
    hide PrecedenceOf;
    SameLevel(e);
    match e
    case Prim(_) =>
    case Brackets(x) => PrintIsFlat(x);
    case Unary(_, x) => PrintIsFlat(x);
    case Cast(_, _, x) => PrintIsFlat(x);
    case Postfix(_, x) => PrintIsFlat(x);
    case Binary(_, l, r) => PrintIsFlat(l); PrintIsFlat(r);
    case Cond(c, t, f) => PrintIsFlat(c); PrintIsFlat(t); PrintIsFlat(f);
    case Index(b, i) => PrintIsFlat(b); PrintIsFlat(i);
    case Call(f, args) => PrintIsFlat(f); PrintArgsIsFlat(args);
  }

  lemma {:induction false} PrintArgsIsFlat(args: Args)
    ensures PrintArgs(args) == FlatArgs(ExplicitArgs(args))
    decreases args
  {
    match args
    case NoArgs =>
    case Arg(e, more) => PrintIsFlat(e); PrintArgsIsFlat(more);
  }

  lemma SameLevel(e: Expr)
    ensures Level(Explicit(e)) == if e.Cast? then CAST else Level(e)
  {
    hide PrecedenceOf;
  }

  lemma {:induction false} ExplicitMeaning(e: Expr)
    ensures Strip(Explicit(e)) == Strip(e) && Known(Explicit(e)) == Known(e)
    decreases e
  {
    hide PrecedenceOf, Level, IsPrefix, IsStep;
    match e
    case Prim(_) =>
    case Brackets(x) => ExplicitMeaning(x);
    case Unary(_, x) => ExplicitMeaning(x);
    case Cast(_, _, x) => ExplicitMeaning(x);
    case Postfix(_, x) => ExplicitMeaning(x);
    case Binary(_, l, r) => ExplicitMeaning(l); ExplicitMeaning(r);
    case Cond(c, t, f) => ExplicitMeaning(c); ExplicitMeaning(t); ExplicitMeaning(f);
    case Index(b, i) => ExplicitMeaning(b); ExplicitMeaning(i);
    case Call(f, args) => ExplicitMeaning(f); ExplicitArgsMeaning(args);
  }

  lemma {:induction false} ExplicitArgsMeaning(args: Args)
    ensures StripArgs(ExplicitArgs(args)) == StripArgs(args) && KnownArgs(ExplicitArgs(args)) == KnownArgs(args)
    decreases args
  {
    match args
    case NoArgs =>
    case Arg(e, more) => ExplicitMeaning(e); ExplicitArgsMeaning(more);
  }

  /** Every child binds as tightly as the grammar asks for in its place. */
  predicate Fitting(e: Expr) {
    match e
    case Prim(_) => true
    case Brackets(x) => Fitting(x)
    case Unary(_, x) => Fitting(x) && Level(x) >= CAST
    case Cast(_, asPrefix, x) => !asPrefix && Fitting(x) && Level(x) >= CAST
    case Postfix(_, x) => Fitting(x) && Level(x) >= POSTFIX
    case Binary(op, l, r) =>
      Fitting(l) && Fitting(r) &&
      (if Level(e) == ASSIGNMENT then Level(l) > ASSIGNMENT && Level(r) >= ASSIGNMENT
       else Level(l) >= Level(e) && Level(r) > Level(e))
    case Cond(c, t, f) => Fitting(c) && Fitting(t) && Fitting(f) && Level(c) > CONDITIONAL && Level(f) >= CONDITIONAL
    case Index(b, i) => Fitting(b) && Fitting(i) && Level(b) >= POSTFIX
    case Call(f, args) => Fitting(f) && Level(f) >= POSTFIX && FittingArgs(args)
  }

  predicate FittingArgs(args: Args) {
    match args
    case NoArgs => true
    case Arg(e, more) => Fitting(e) && Level(e) >= ASSIGNMENT && FittingArgs(more)
  }

  /** The printer's parentheses make a tree fit exactly if it is normal. */
  lemma {:induction false} NormalIsFitting(e: Expr)
    requires Known(e)
    ensures Normal(e) <==> Fitting(Explicit(e))
    decreases e
  {
    hide PrecedenceOf, IsPrefix, IsStep;
    match e
    case Prim(_) =>
    case Brackets(x) => NormalIsFitting(x);
    case Unary(_, x) => NormalIsFitting(x); SameLevel(x);
    case Cast(_, _, x) => NormalIsFitting(x); SameLevel(x);
    case Postfix(_, x) => NormalIsFitting(x); SameLevel(x);
    case Binary(op, l, r) => NormalIsFitting(l); NormalIsFitting(r); NormalBinary(e);
    case Cond(c, t, f) => NormalIsFitting(c); NormalIsFitting(t); NormalIsFitting(f); NormalCond(e);
    case Index(b, i) => NormalIsFitting(b); NormalIsFitting(i); SameLevel(b);
    case Call(f, args) => NormalIsFitting(f); SameLevel(f); NormalArgsFitting(args);
  }

  lemma NormalCond(e: Expr)
    requires e.Cond?
    requires Normal(e.condition) <==> Fitting(Explicit(e.condition))
    requires Normal(e.ifTrue) <==> Fitting(Explicit(e.ifTrue))
    requires Normal(e.ifFalse) <==> Fitting(Explicit(e.ifFalse))
    ensures Normal(e) <==> Fitting(Explicit(e))
  {
    hide PrecedenceOf;
    SameLevel(e.condition);
    SameLevel(e.ifFalse);
  }

  lemma NormalBinary(e: Expr)
    requires e.Binary? && Known(e)
    requires Normal(e.left) <==> Fitting(Explicit(e.left))
    requires Normal(e.right) <==> Fitting(Explicit(e.right))
    ensures Normal(e) <==> Fitting(Explicit(e))
  {
    hide PrecedenceOf, IsPrefix, IsStep;
    SameLevel(e);
    SameLevel(e.left);
    SameLevel(e.right);
    BinaryLevels(e.op);
  }

  lemma {:induction false} NormalArgsFitting(args: Args)
    requires KnownArgs(args)
    ensures NormalArgs(args) <==> FittingArgs(ExplicitArgs(args))
    decreases args
  {
    match args
    case NoArgs =>
    case Arg(e, more) => NormalIsFitting(e); SameLevel(e); NormalArgsFitting(more);
  }

  // ---------------------------------------------------------------- parsing a fitting tree

  /** No expression of level n or above continues with these tokens. */
  predicate Stops(n: nat, tokens: seq<Token>) {
    tokens == [] ||
    match tokens[0]
    case TOp(op) => PrecedenceOf(op).Some? && PrecedenceOf(op).value < n
    case Question => n > CONDITIONAL
    case Colon => true
    case RParen => true
    case RBracket => true
    case _ => false
  }

  predicate GroupsLeft(n: nat) {
    n == SEQUENCE || CONDITIONAL < n < CAST
  }

  lemma FirstToken(e: Expr)
    requires Fitting(e) && Known(e)
    ensures Flat(e) != []
    ensures Level(e) > UNARY ==> Flat(e)[0].TPrim? || Flat(e)[0] == LParen
    ensures Level(e) > CAST ==> !Flat(e)[0].TCast?
    ensures Flat(e)[0] != RParen
    decreases e
  {
    match e
    case Prim(_) =>
    case Brackets(x) =>
    case Unary(_, x) =>
    case Cast(_, _, x) =>
    case Postfix(_, x) => FirstToken(x);
    case Binary(_, l, r) => FirstToken(l);
    case Cond(c, t, f) => FirstToken(c);
    case Index(b, i) => FirstToken(b);
    case Call(f, args) => FirstToken(f);
  }

  lemma LevelIs(e: Expr)
    requires Known(e) && Fitting(e)
    ensures Level(e) <= PRIMARY && (Level(e) == PRIMARY <==> e.Prim? || e.Brackets?)
    ensures (Level(e) == CONDITIONAL <==> e.Cond?) && (Level(e) == CAST <==> e.Cast?)
            && (Level(e) == UNARY <==> e.Unary?)
  {
    hide PrecedenceOf, IsPrefix, IsStep;
    if e.Binary? {
      BinaryLevels(e.op);
    }
  }

  lemma StopsEarlier(rest: seq<Token>)
    requires Stops(UNARY, rest)
    ensures Stops(CAST, rest)
  {
    hide PrecedenceOf;
    if rest != [] && rest[0].TOp? {
      BinaryLevels(rest[0].op);
    }
  }

  lemma Join(a: seq<Token>, b: seq<Token>, c: seq<Token>)
    ensures (a + b) + c == a + (b + c)
  {
  }

  /** The parser reads a fitting tree back, and stops behind it. */
  lemma {:induction false} ParseFlat(e: Expr, n: nat, rest: seq<Token>)
    requires Fitting(e) && Known(e) && n <= Level(e) && n <= POSTFIX && Stops(n, rest)
    ensures Parse(n, Flat(e) + rest) == Some(Parsed(e, rest))
    decreases e, PRIMARY - n, 2
  {
    hide PrecedenceOf, IsPrefix, IsStep;
    LevelIs(e);
    FirstToken(e);
    if n == POSTFIX {
      PostfixFlat(e, rest);
      PostfixStops(e, rest);
    } else if n == UNARY {
      if e.Unary? {
        StopsEarlier(rest);
        ParseFlat(e.operand, CAST, rest);
        Join([TOp(e.op)], Flat(e.operand), rest);
      } else {
        ParseFlat(e, POSTFIX, rest);
      }
    } else if n == CAST {
      if e.Cast? {
        ParseFlat(e.operand, CAST, rest);
        Join([TCast(e.target)], Flat(e.operand), rest);
      } else {
        ParseFlat(e, UNARY, rest);
      }
    } else if n == ASSIGNMENT {
      AssignmentFlat(e, rest);
    } else if n == CONDITIONAL {
      ConditionalFlat(e, rest);
    } else {
      BinaryFlat(e, n, rest);
    }
  }

  lemma PostfixStops(e: Expr, rest: seq<Token>)
    requires Stops(POSTFIX, rest)
    ensures ParsePostfix(e, rest) == Some(Parsed(e, rest))
  {
    hide PrecedenceOf;
    BinaryLevels("");
  }

  lemma {:induction false} AssignmentFlat(e: Expr, rest: seq<Token>)
    requires Fitting(e) && Known(e) && ASSIGNMENT <= Level(e) && Stops(ASSIGNMENT, rest)
    ensures Parse(ASSIGNMENT, Flat(e) + rest) == Some(Parsed(e, rest))
    decreases e, PRIMARY - ASSIGNMENT, 1
  {
    hide PrecedenceOf;
    if Level(e) == ASSIGNMENT {
      var more := [TOp(e.op)] + Flat(e.right) + rest;
      ParseFlat(e.left, CONDITIONAL, more);
      ParseFlat(e.right, ASSIGNMENT, rest);
      Join(Flat(e.left), [TOp(e.op)] + Flat(e.right), rest);
      assert more[1..] == Flat(e.right) + rest;
    } else {
      ParseFlat(e, CONDITIONAL, rest);
    }
  }

  lemma {:induction false} ConditionalFlat(e: Expr, rest: seq<Token>)
    requires Fitting(e) && Known(e) && CONDITIONAL <= Level(e) && Stops(CONDITIONAL, rest)
    ensures Parse(CONDITIONAL, Flat(e) + rest) == Some(Parsed(e, rest))
    decreases e, PRIMARY - CONDITIONAL, 1
  {
    hide PrecedenceOf, ParseConditional;
    if e.Cond? {
      var last := [Colon] + (Flat(e.ifFalse) + rest);
      var more := [Question] + (Flat(e.ifTrue) + last);
      ParseFlat(e.condition, LOGICAL_OR, more);
      ParseFlat(e.ifTrue, SEQUENCE, last);
      ParseFlat(e.ifFalse, CONDITIONAL, rest);
      CondTokens(e, rest);
      Join([Colon], Flat(e.ifFalse), rest);
      assert more[1..] == Flat(e.ifTrue) + last && last[1..] == Flat(e.ifFalse) + rest;
      CondReads(e, more, last, rest);
    } else {
      NotConditional(e);
      ParseFlat(e, LOGICAL_OR, rest);
      CondStops(e, rest);
    }
  }

  lemma CondReads(e: Expr, more: seq<Token>, last: seq<Token>, rest: seq<Token>)
    requires e.Cond? && more != [] && more[0] == Question && last != [] && last[0] == Colon
    requires Parse(SEQUENCE, more[1..]) == Some(Parsed(e.ifTrue, last))
    requires Parse(CONDITIONAL, last[1..]) == Some(Parsed(e.ifFalse, rest))
    ensures ParseConditional(e.condition, more) == Some(Parsed(e, rest))
  {
    hide Parse;
  }

  lemma CondStops(e: Expr, rest: seq<Token>)
    requires Stops(CONDITIONAL, rest)
    ensures ParseConditional(e, rest) == Some(Parsed(e, rest))
  {
    hide PrecedenceOf, Parse;
  }

  lemma NotConditional(e: Expr)
    requires Level(e) >= CONDITIONAL && !e.Cond?
    ensures Level(e) > CONDITIONAL
  {
    if e.Binary? {
      BinaryLevels(e.op);
    }
  }

  lemma CondTokens(e: Expr, rest: seq<Token>)
    requires e.Cond?
    ensures Flat(e) + rest == Flat(e.condition) + ([Question] + (Flat(e.ifTrue) + ([Colon] + Flat(e.ifFalse) + rest)))
  {
  }

  lemma {:induction false} BinaryFlat(e: Expr, n: nat, rest: seq<Token>)
    requires Fitting(e) && Known(e) && n <= Level(e) && GroupsLeft(n) && Stops(n, rest)
    ensures Parse(n, Flat(e) + rest) == Some(Parsed(e, rest))
    decreases e, PRIMARY - n, 1
  {
    hide PrecedenceOf;
    SpineFlat(e, n, rest);
  }

  /** Operators of one level are read as they are nested on the left. */
  lemma {:induction false} SpineFlat(e: Expr, n: nat, rest: seq<Token>)
    requires Fitting(e) && Known(e) && n <= Level(e) && GroupsLeft(n) && Stops(n + 1, rest)
    ensures Parse(n, Flat(e) + rest) == ParseBinary(n, e, rest)
    decreases e, PRIMARY - n, 0
  {
    hide PrecedenceOf, IsPrefix, IsStep, IsBinaryAt, IsBinaryOperator, Operates;
    if Level(e) == n {
      hide ParseBinary, Parse;
      LeftLevel(e, n);
      KnownOperator(e);
      var more := [TOp(e.op)] + (Flat(e.right) + rest);
      SpineFlat(e.left, n, more);
      ParseFlat(e.right, n + 1, rest);
      assert Flat(e) + rest == Flat(e.left) + more;
      assert more[1..] == Flat(e.right) + rest;
      BinaryReads(n, e, more, rest);
    } else {
      ParseFlat(e, n + 1, rest);
    }
  }

  lemma KnownOperator(e: Expr)
    requires Known(e) && e.Binary?
    ensures IsBinaryOperator(e.op)
  {
  }

  lemma BinaryReads(n: nat, e: Expr, more: seq<Token>, rest: seq<Token>)
    requires e.Binary? && n < POSTFIX && IsBinaryAt(more, n) && more[0] == TOp(e.op)
    requires Parse(n + 1, more[1..]) == Some(Parsed(e.right, rest))
    ensures ParseBinary(n, e.left, more) == ParseBinary(n, e, rest)
  {
    hide Parse, IsBinaryAt;
  }

  lemma LeftLevel(e: Expr, n: nat)
    requires Level(e) == n && GroupsLeft(n) && Known(e)
    ensures e.Binary? && PrecedenceOf(e.op) == Some(n)
  {
  }

  lemma {:induction false} PostfixFlat(e: Expr, rest: seq<Token>)
    requires Fitting(e) && Known(e) && Level(e) >= POSTFIX
    ensures Parse(POSTFIX, Flat(e) + rest) == ParsePostfix(e, rest)
    decreases e, PRIMARY - POSTFIX, 1
  {
    hide PrecedenceOf, IsPrefix, IsStep, Stops;
    LevelIs(e);
    match e
    case Prim(_) =>
      PrimaryFlat(e, rest);
    case Brackets(_) =>
      PrimaryFlat(e, rest);
    case Postfix(op, x) =>
      PostfixFlat(x, [TOp(op)] + rest);
      Join(Flat(x), [TOp(op)], rest);
      StepReads(op, x, rest);
    case Binary(op, l, r) =>
      MemberFlat(e, rest);
    case Index(b, i) =>
      IndexFlat(e, rest);
    case Call(f, args) =>
      CallFlat(e, rest);
    case _ =>
  }

  lemma StepReads(op: string, x: Expr, rest: seq<Token>)
    requires IsStep(op)
    ensures ParsePostfix(x, [TOp(op)] + rest) == ParsePostfix(Postfix(op, x), rest)
  {
    hide PrecedenceOf;
    BinaryLevels("");
    assert ([TOp(op)] + rest)[1..] == rest;
  }

  lemma {:induction false} MemberFlat(e: Expr, rest: seq<Token>)
    requires Fitting(e) && Known(e) && e.Binary? && Level(e) == POSTFIX
    ensures Parse(POSTFIX, Flat(e) + rest) == ParsePostfix(e, rest)
    decreases e, PRIMARY - POSTFIX, 0
  {
    hide PrecedenceOf, IsPrefix, IsStep, Parse;
    LevelIs(e.right);
    var more := [TOp(e.op)] + (Flat(e.right) + rest);
    PostfixFlat(e.left, more);
    PrimaryFlat(e.right, rest);
    assert Flat(e) + rest == Flat(e.left) + more;
    assert more[1..] == Flat(e.right) + rest;
  }

  lemma {:induction false} IndexFlat(e: Expr, rest: seq<Token>)
    requires Fitting(e) && Known(e) && e.Index?
    ensures Parse(POSTFIX, Flat(e) + rest) == ParsePostfix(e, rest)
    decreases e, PRIMARY - POSTFIX, 0
  {
    hide PrecedenceOf, IsPrefix, IsStep, Fitting, Known, Parse, ParsePostfix;
    FittingIndex(e);
    var last := [RBracket] + rest;
    var more := [LBracket] + (Flat(e.index) + last);
    PostfixFlat(e.base, more);
    ParseFlat(e.index, SEQUENCE, last);
    assert Flat(e) + rest == Flat(e.base) + more;
    assert more[1..] == Flat(e.index) + last && last[1..] == rest;
    IndexReads(e, more, last);
  }

  lemma FittingIndex(e: Expr)
    requires Fitting(e) && Known(e) && e.Index?
    ensures Fitting(e.base) && Known(e.base) && Level(e.base) >= POSTFIX && Fitting(e.index) && Known(e.index)
  {
  }

  lemma IndexReads(e: Expr, more: seq<Token>, last: seq<Token>)
    requires e.Index? && more != [] && more[0] == LBracket && last != [] && last[0] == RBracket
    requires Parse(SEQUENCE, more[1..]) == Some(Parsed(e.index, last))
    ensures ParsePostfix(e.base, more) == ParsePostfix(e, last[1..])
  {
    hide Parse;
  }

  lemma {:induction false} CallFlat(e: Expr, rest: seq<Token>)
    requires Fitting(e) && Known(e) && e.Call?
    ensures Parse(POSTFIX, Flat(e) + rest) == ParsePostfix(e, rest)
    decreases e, PRIMARY - POSTFIX, 0
  {
    hide PrecedenceOf, IsPrefix, IsStep, Fitting, Known, Parse, ParseArgs, ParsePostfix;
    FittingCall(e);
    var more := [LParen] + (FlatArgs(e.arguments) + ([RParen] + rest));
    PostfixFlat(e.callee, more);
    ArgsFlat(e.arguments, rest);
    assert Flat(e) + rest == Flat(e.callee) + more;
    assert more[1..] == FlatArgs(e.arguments) + ([RParen] + rest);
    CallReads(e, more, rest);
  }

  lemma FittingCall(e: Expr)
    requires Fitting(e) && Known(e) && e.Call?
    ensures Fitting(e.callee) && Known(e.callee) && Level(e.callee) >= POSTFIX
    ensures FittingArgs(e.arguments) && KnownArgs(e.arguments)
  {
  }

  lemma CallReads(e: Expr, more: seq<Token>, rest: seq<Token>)
    requires e.Call? && more != [] && more[0] == LParen
    requires ParseArgs(more[1..]) == Some(ParsedArgs(e.arguments, rest))
    ensures ParsePostfix(e.callee, more) == ParsePostfix(e, rest)
  {
    hide ParseArgs;
  }

  lemma {:induction false} PrimaryFlat(e: Expr, rest: seq<Token>)
    requires Fitting(e) && Known(e) && Level(e) == PRIMARY
    ensures ParsePrimary(Flat(e) + rest) == Some(Parsed(e, rest))
    decreases e, 0, 0
  {
    hide PrecedenceOf, IsPrefix, IsStep, Parse;
    LevelIs(e);
    if e.Prim? {
      assert ([TPrim(e.name)] + rest)[1..] == rest;
    } else {
      hide ParsePrimary;
      var last := [RParen] + rest;
      ParseFlat(e.inner, SEQUENCE, last);
      BracketsBehind(Flat(e.inner), rest);
      BracketsRead(e.inner, Flat(e) + rest, last);
    }
  }

  lemma BracketsBehind(inner: seq<Token>, rest: seq<Token>)
    ensures var tokens, last := [LParen] + inner + [RParen] + rest, [RParen] + rest;
            tokens != [] && tokens[0] == LParen && tokens[1..] == inner + last && last[1..] == rest
  {
  }

  lemma BracketsRead(x: Expr, tokens: seq<Token>, last: seq<Token>)
    requires tokens != [] && tokens[0] == LParen && last != [] && last[0] == RParen
    requires Parse(SEQUENCE, tokens[1..]) == Some(Parsed(x, last))
    ensures ParsePrimary(tokens) == Some(Parsed(Brackets(x), last[1..]))
  {
    hide Parse;
  }

  lemma {:induction false} ArgsFlat(args: Args, rest: seq<Token>)
    requires FittingArgs(args) && KnownArgs(args)
    ensures ParseArgs(FlatArgs(args) + ([RParen] + rest)) == Some(ParsedArgs(args, rest))
    decreases args, 1
  {
    hide PrecedenceOf, IsPrefix, IsStep, Parse;
    if args == NoArgs {
      assert ([RParen] + rest)[1..] == rest;
      assert FlatArgs(args) + ([RParen] + rest) == [RParen] + rest;
    } else {
      FirstToken(args.head);
      ArgListFlat(args, rest);
    }
  }

  lemma CommaStops(args: Args)
    ensures forall rest :: Stops(ASSIGNMENT, [TOp(",")] + rest)
  {
  }

  lemma {:induction false} ArgListFlat(args: Args, rest: seq<Token>)
    requires FittingArgs(args) && KnownArgs(args) && args != NoArgs
    ensures ParseArgList(FlatArgs(args) + ([RParen] + rest)) == Some(ParsedArgs(args, rest))
    decreases args, 0
  {
    hide PrecedenceOf, IsPrefix, IsStep, Parse, ParseArgList, Flat;
    CommaStops(args);
    var e := args.head;
    if args.tail == NoArgs {
      ParseFlat(e, ASSIGNMENT, [RParen] + rest);
      assert ([RParen] + rest)[1..] == rest;
      LastArgReads(e, Flat(e) + ([RParen] + rest), [RParen] + rest);
    } else {
      var more := [TOp(",")] + (FlatArgs(args.tail) + ([RParen] + rest));
      ParseFlat(e, ASSIGNMENT, more);
      ArgListFlat(args.tail, rest);
      Join(Flat(e), [TOp(",")] + FlatArgs(args.tail), [RParen] + rest);
      Join([TOp(",")], FlatArgs(args.tail), [RParen] + rest);
      assert more[1..] == FlatArgs(args.tail) + ([RParen] + rest);
      NextArgReads(e, args.tail, Flat(e) + more, more, rest);
    }
  }

  lemma LastArgReads(e: Expr, tokens: seq<Token>, last: seq<Token>)
    requires Parse(ASSIGNMENT, tokens) == Some(Parsed(e, last)) && last != [] && last[0] == RParen
    ensures ParseArgList(tokens) == Some(ParsedArgs(Arg(e, NoArgs), last[1..]))
  {
    hide Parse;
  }

  lemma NextArgReads(e: Expr, tail: Args, tokens: seq<Token>, more: seq<Token>, rest: seq<Token>)
    requires Parse(ASSIGNMENT, tokens) == Some(Parsed(e, more)) && more != [] && more[0] == TOp(",")
    requires ParseArgList(more[1..]) == Some(ParsedArgs(tail, rest))
    ensures ParseArgList(tokens) == Some(ParsedArgs(Arg(e, tail), rest))
  {
    hide Parse;
  }

  /** A normal tree is read back as it was printed. */
  lemma NormalRoundTrip(e: Expr)
    requires Known(e) && Normal(e)
    ensures ParseAll(Print(e)) == Some(Explicit(e)) && RoundTrips(e)
  {
    PrintIsFlat(e);
    ExplicitMeaning(e);
    NormalIsFitting(e);
    ParseFlat(Explicit(e), SEQUENCE, []);
    assert Flat(Explicit(e)) + [] == Flat(Explicit(e));
  }
}
