/** Exactly which trees survive printing and parsing. */
module PrinterExact {
  import opened Wrappers
  import opened Operators
  import opened Expressions
  import opened Grammar
  import opened PrintParse
  import opened ParserSound

  // ---------------------------------------------------------------- depth and weight

  function Depth(s: seq<Token>): int {
    if s == [] then 0
    else (if s[0] == LParen then 1 else if s[0] == RParen then -1 else 0) + Depth(s[1..])
  }

  /** Tokens other than parentheses, and empty pairs of parentheses. */
  function Weight(s: seq<Token>): nat {
    if s == [] then 0
    else
      (if s[0] == LParen then (if |s| > 1 && s[1] == RParen then 1 else 0)
       else if s[0] == RParen then 0
       else 1)
      + Weight(s[1..])
  }

  lemma {:induction false} DepthConcat(a: seq<Token>, b: seq<Token>)
    ensures Depth(a + b) == Depth(a) + Depth(b)
    decreases |a|
  {
    if a == [] {
      assert a + b == b;
    } else {
      DepthConcat(a[1..], b);
      assert (a + b)[1..] == a[1..] + b;
    }
  }

  predicate Clear(a: seq<Token>, b: seq<Token>) {
    a == [] || b == [] || a[|a| - 1] != LParen || b[0] != RParen
  }

  lemma {:induction false} WeightConcat(a: seq<Token>, b: seq<Token>)
    ensures Weight(a + b) >= Weight(a) + Weight(b)
    ensures Clear(a, b) ==> Weight(a + b) == Weight(a) + Weight(b)
    decreases |a|
  {
    if a == [] {
      assert a + b == b;
    } else {
      WeightConcat(a[1..], b);
      assert (a + b)[1..] == a[1..] + b;
      assert |a| > 1 ==> a[1..][|a| - 2] == a[|a| - 1];
    }
  }

  /** Parentheses match up. */
  predicate Balanced(s: seq<Token>) {
    Depth(s) == 0 && forall k :: 0 <= k <= |s| ==> Depth(s[..k]) >= 0
  }

  lemma BalancedConcat(a: seq<Token>, b: seq<Token>)
    requires Balanced(a) && Balanced(b)
    ensures Balanced(a + b)
  {
    DepthConcat(a, b);
    forall k | 0 <= k <= |a + b| ensures Depth((a + b)[..k]) >= 0 {
      if k <= |a| {
        assert (a + b)[..k] == a[..k];
      } else {
        assert (a + b)[..k] == a + b[..k - |a|];
        DepthConcat(a, b[..k - |a|]);
      }
    }
  }

  lemma BalancedToken(t: Token)
    requires t != LParen && t != RParen
    ensures Balanced([t])
  {
    assert forall k :: 0 <= k <= 1 ==> [t][..k] == [] || [t][..k] == [t];
  }

  lemma BalancedParens(a: seq<Token>)
    requires Balanced(a)
    ensures Balanced([LParen] + a + [RParen])
    ensures forall k :: 0 < k <= |a| + 1 ==> Depth(([LParen] + a + [RParen])[..k]) > 0
  {
    var s := [LParen] + a + [RParen];
    forall k | 0 < k <= |a| + 1 ensures Depth(s[..k]) > 0 {
      assert s[..k] == [LParen] + a[..k - 1];
      DepthConcat([LParen], a[..k - 1]);
    }
    assert s[..|s|] == s && s[..0] == [];
    DepthConcat([LParen], a);
    DepthConcat([LParen] + a, [RParen]);
  }

  /** Without weight, an opening parenthesis is never closed. */
  lemma {:induction false} OnlyOpening(s: seq<Token>)
    requires s != [] && s[0] == LParen && Weight(s) == 0
    ensures Depth(s) == |s|
    decreases |s|
  {
    if |s| > 1 {
      assert s[1] == LParen;
      OnlyOpening(s[1..]);
    }
  }

  lemma DepthToken(t: Token)
    ensures Depth([t]) == if t == LParen then 1 else if t == RParen then -1 else 0
  {
    assert [t][1..] == [];
  }

  lemma BalancedHasWeight(s: seq<Token>)
    requires Balanced(s) && s != []
    ensures Weight(s) > 0
  {
    DepthToken(s[0]);
    assert s[..1] == [s[0]];
    assert Depth(s[..1]) >= 0;
    if Weight(s) == 0 {
      OnlyOpening(s);
    }
  }

  // ---------------------------------------------------------------- trees

  lemma FlatEnds(e: Expr)
    ensures Closes(Flat(e)) && Flat(e)[0] != RParen
  {
    FlatStart(e);
    FlatEnd(e);
  }

  lemma {:induction false} FlatStart(e: Expr)
    ensures Flat(e) != [] && Flat(e)[0] != RParen
    decreases e
  {
    if FirstOperand(e).Some? {
      FirstOperandFirst(e);
      FlatStart(FirstOperand(e).value);
    }
  }

  predicate Closes(s: seq<Token>) {
    s != [] && s[|s| - 1] != LParen
  }

  lemma {:induction false} FlatEnd(e: Expr)
    ensures Closes(Flat(e))
    decreases e
  {
    hide *;
    match e
    case Unary(_, x) => FlatEnd(x); PrefixEnd(e);
    case Cast(_, _, x) => FlatEnd(x); PrefixEnd(e);
    case Binary(_, _, r) => FlatEnd(r); RightEnd(e);
    case Cond(_, _, f) => FlatEnd(f); CondEnd(e);
    case _ => ClosedEnd(e);
  }

  lemma PrefixEnd(e: Expr)
    requires (e.Unary? || e.Cast?) && Closes(Flat(e.operand))
    ensures Closes(Flat(e))
  {
    EndsAsBack([if e.Unary? then TOp(e.op) else TCast(e.target)], Flat(e.operand));
  }

  lemma RightEnd(e: Expr)
    requires e.Binary? && Closes(Flat(e.right))
    ensures Closes(Flat(e))
  {
    EndsAsRight(Flat(e.left), [TOp(e.op)], Flat(e.right));
  }

  lemma CondEnd(e: Expr)
    requires e.Cond? && Closes(Flat(e.ifFalse))
    ensures Closes(Flat(e))
  {
    EndsAsRight([Question] + Flat(e.ifTrue), [Colon], Flat(e.ifFalse));
    EndsAsBack(Flat(e.condition), [Question] + Flat(e.ifTrue) + ([Colon] + Flat(e.ifFalse)));
  }

  lemma ClosedEnd(e: Expr)
    requires e.Prim? || e.Brackets? || e.Postfix? || e.Index? || e.Call?
    ensures Closes(Flat(e))
  {
    match e
    case Prim(_) =>
    case Brackets(x) => EndsAsBack([LParen] + Flat(x), [RParen]);
    case Postfix(op, x) => EndsAsBack(Flat(x), [TOp(op)]);
    case Index(b, i) => EndsAsRight(Flat(b), [LBracket] + Flat(i), [RBracket]);
    case Call(f, args) => EndsAsRight(Flat(f), [LParen] + FlatArgs(args), [RParen]);
  }

  lemma EndsAsRight(a: seq<Token>, b: seq<Token>, c: seq<Token>)
    requires c != []
    ensures var s := a + (b + c); s != [] && s[|s| - 1] == c[|c| - 1]
  {
    EndsAsBack(b, c);
    EndsAsBack(a, b + c);
  }

  lemma EndsAsBack(a: seq<Token>, b: seq<Token>)
    requires b != []
    ensures a + b != [] && (a + b)[|a + b| - 1] == b[|b| - 1]
  {
  }

  lemma ArgsEnds(args: Args)
    requires args != NoArgs
    ensures FlatArgs(args) != [] && FlatArgs(args)[0] != RParen && FlatArgs(args)[|FlatArgs(args)| - 1] != LParen
    decreases args
  {
    FlatEnds(args.head);
    if args.tail != NoArgs {
      ArgsEnds(args.tail);
    }
  }

  lemma {:induction false} FlatBalanced(e: Expr)
    ensures Balanced(Flat(e))
    decreases e
  {
    hide Balanced;
    match e
    case Prim(name) => BalancedToken(TPrim(name));
    case Brackets(x) => FlatBalanced(x); BalancedParens(Flat(x));
    case Unary(op, x) => FlatBalanced(x); BalancedToken(TOp(op)); BalancedConcat([TOp(op)], Flat(x));
    case Cast(t, _, x) => FlatBalanced(x); BalancedToken(TCast(t)); BalancedConcat([TCast(t)], Flat(x));
    case Postfix(op, x) => FlatBalanced(x); BalancedToken(TOp(op)); BalancedConcat(Flat(x), [TOp(op)]);
    case Binary(op, l, r) => FlatBalanced(l); FlatBalanced(r); BalancedAround(Flat(l), TOp(op), Flat(r));
    case Cond(c, t, f) =>
      FlatBalanced(c); FlatBalanced(t); FlatBalanced(f);
      BalancedAround(Flat(t), Colon, Flat(f));
      Join([Question], Flat(t), [Colon] + Flat(f));
      BalancedAround(Flat(c), Question, Flat(t) + ([Colon] + Flat(f)));
    case Index(b, i) =>
      FlatBalanced(b); FlatBalanced(i);
      BalancedToken(RBracket);
      BalancedConcat(Flat(i), [RBracket]);
      BalancedAround(Flat(b), LBracket, Flat(i) + [RBracket]);
      Join([LBracket], Flat(i), [RBracket]);
    case Call(f, args) =>
      FlatBalanced(f); ArgsBalanced(args);
      BalancedParens(FlatArgs(args));
      BalancedConcat(Flat(f), [LParen] + FlatArgs(args) + [RParen]);
  }

  lemma BalancedAround(a: seq<Token>, t: Token, b: seq<Token>)
    requires Balanced(a) && Balanced(b) && t != LParen && t != RParen
    ensures Balanced(a + ([t] + b))
  {
    hide Balanced;
    BalancedToken(t);
    BalancedConcat([t], b);
    BalancedConcat(a, [t] + b);
  }

  lemma {:induction false} ArgsBalanced(args: Args)
    ensures Balanced(FlatArgs(args))
    decreases args
  {
    match args
    case NoArgs =>
    case Arg(e, NoArgs) => FlatBalanced(e);
    case Arg(e, more) => FlatBalanced(e); ArgsBalanced(more); BalancedAround(Flat(e), TOp(","), FlatArgs(more));
  }

  /** The weight of the tokens does not depend on brackets. */
  function Weigh(e: Expr): nat {
    match e
    case Prim(_) => 1
    case Brackets(x) => Weigh(x)
    case Unary(_, x) => 1 + Weigh(x)
    case Cast(_, _, x) => 1 + Weigh(x)
    case Postfix(_, x) => Weigh(x) + 1
    case Binary(_, l, r) => Weigh(l) + 1 + Weigh(r)
    case Cond(c, t, f) => Weigh(c) + 1 + Weigh(t) + 1 + Weigh(f)
    case Index(b, i) => Weigh(b) + 1 + Weigh(i) + 1
    case Call(f, args) => Weigh(f) + (if args == NoArgs then 1 else WeighArgs(args))
  }

  function WeighArgs(args: Args): nat {
    match args
    case NoArgs => 0
    case Arg(e, NoArgs) => Weigh(e)
    case Arg(e, more) => Weigh(e) + 1 + WeighArgs(more)
  }

  lemma {:induction false} WeighStrip(e: Expr)
    ensures Weigh(Strip(e)) == Weigh(e)
    decreases e
  {
    match e
    case Prim(_) =>
    case Brackets(x) => WeighStrip(x);
    case Unary(_, x) => WeighStrip(x);
    case Cast(_, _, x) => WeighStrip(x);
    case Postfix(_, x) => WeighStrip(x);
    case Binary(_, l, r) => WeighStrip(l); WeighStrip(r);
    case Cond(c, t, f) => WeighStrip(c); WeighStrip(t); WeighStrip(f);
    case Index(b, i) => WeighStrip(b); WeighStrip(i);
    case Call(f, args) => WeighStrip(f); WeighStripArgs(args);
  }

  lemma {:induction false} WeighStripArgs(args: Args)
    ensures WeighArgs(StripArgs(args)) == WeighArgs(args)
    decreases args
  {
    match args
    case NoArgs =>
    case Arg(e, more) => WeighStrip(e); WeighStripArgs(more);
  }

  lemma WeightParens(a: seq<Token>)
    requires a != [] && a[0] != RParen && a[|a| - 1] != LParen
    ensures Weight([LParen] + a + [RParen]) == Weight(a)
  {
    WeightConcat([LParen], a);
    WeightConcat([LParen] + a, [RParen]);
    assert Weight([LParen]) == 0 && Weight([RParen]) == 0;
  }

  lemma WeightAround(a: seq<Token>, t: Token, b: seq<Token>)
    requires t != LParen && t != RParen
    ensures Weight(a + ([t] + b)) == Weight(a) + 1 + Weight(b)
  {
    WeightConcat([t], b);
    WeightConcat(a, [t] + b);
    assert Weight([t]) == 1;
  }

  lemma {:induction false} WeightFlat(e: Expr)
    ensures Weight(Flat(e)) == Weigh(e)
    decreases e
  {
    hide Weight;
    match e
    case Prim(name) => WeightToken(TPrim(name));
    case Brackets(x) => WeightFlat(x); FlatEnds(x); WeightParens(Flat(x));
    case Unary(op, x) => WeightFlat(x); WeightToken(TOp(op)); WeightConcat([TOp(op)], Flat(x));
    case Cast(t, _, x) => WeightFlat(x); WeightToken(TCast(t)); WeightConcat([TCast(t)], Flat(x));
    case Postfix(op, x) => WeightFlat(x); WeightToken(TOp(op)); WeightConcat(Flat(x), [TOp(op)]);
    case Binary(op, l, r) => WeightFlat(l); WeightFlat(r); WeightAround(Flat(l), TOp(op), Flat(r));
    case Cond(c, t, f) =>
      WeightFlat(c); WeightFlat(t); WeightFlat(f);
      WeightAround(Flat(t), Colon, Flat(f));
      Join([Question], Flat(t), [Colon] + Flat(f));
      WeightAround(Flat(c), Question, Flat(t) + ([Colon] + Flat(f)));
    case Index(b, i) =>
      WeightFlat(b); WeightFlat(i);
      WeightToken(RBracket);
      WeightConcat(Flat(i), [RBracket]);
      Join([LBracket], Flat(i), [RBracket]);
      WeightAround(Flat(b), LBracket, Flat(i) + [RBracket]);
    case Call(f, args) =>
      WeightFlat(f); WeightFlatArgs(args);
      WeightCall(f, args);
  }

  lemma WeightToken(t: Token)
    requires t != LParen && t != RParen
    ensures Weight([t]) == 1
  {
  }

  lemma WeightCall(f: Expr, args: Args)
    requires Weight(FlatArgs(args)) == WeighArgs(args)
    ensures Weight(Flat(f) + ([LParen] + FlatArgs(args) + [RParen]))
            == Weight(Flat(f)) + (if args == NoArgs then 1 else WeighArgs(args))
  {
    var parens := [LParen] + FlatArgs(args) + [RParen];
    WeightConcat(Flat(f), parens);
    if args == NoArgs {
      assert parens == [LParen, RParen] && parens[1..] == [RParen] && [RParen][1..] == [];
      assert Weight([RParen]) == 0;
    } else {
      ArgsEnds(args);
      WeightParens(FlatArgs(args));
    }
  }

  lemma {:induction false} WeightFlatArgs(args: Args)
    ensures Weight(FlatArgs(args)) == WeighArgs(args)
    decreases args
  {
    match args
    case NoArgs =>
    case Arg(e, NoArgs) => WeightFlat(e);
    case Arg(e, more) => WeightFlat(e); WeightFlatArgs(more); WeightAround(Flat(e), TOp(","), FlatArgs(more));
  }

  // ---------------------------------------------------------------- one tree for one text

  /** Two trees that differ only in brackets, at the start of the same text, end at
      the same place. */
  lemma SelfDelimiting(t: Expr, u: Expr, a: seq<Token>, b: seq<Token>)
    requires Strip(t) == Strip(u) && Flat(t) + a == Flat(u) + b
    ensures Flat(t) == Flat(u) && a == b
  {
    if |Flat(t)| <= |Flat(u)| {
      NothingMore(t, u, a, b);
    } else {
      NothingMore(u, t, b, a);
    }
  }

  lemma NothingMore(t: Expr, u: Expr, a: seq<Token>, b: seq<Token>)
    requires Strip(t) == Strip(u) && Flat(t) + a == Flat(u) + b && |Flat(t)| <= |Flat(u)|
    ensures Flat(t) == Flat(u) && a == b
  {
    hide Weight;
    var f, g := Flat(t), Flat(u);
    var x := g[|f|..];
    assert g == f + x by {
      assert (f + a)[..|f|] == (g + b)[..|f|] == g[..|f|];
    }
    WeightFlat(t);
    WeightFlat(u);
    WeighStrip(t);
    WeighStrip(u);
    WeightConcat(f, x);
    RestBalanced(t, u, x);
    if x != [] {
      BalancedHasWeight(x);
    }
    assert (f + a)[|f|..] == a && (g + b)[|g|..] == b;
  }

  lemma RestBalanced(t: Expr, u: Expr, x: seq<Token>)
    requires Flat(u) == Flat(t) + x
    ensures Balanced(x)
  {
    FlatBalanced(t);
    FlatBalanced(u);
    DepthConcat(Flat(t), x);
    forall k | 0 <= k <= |x| ensures Depth(x[..k]) >= 0 {
      DepthConcat(Flat(t), x[..k]);
      assert Flat(u)[..|Flat(t)| + k] == Flat(t) + x[..k];
    }
  }

  /** Where the first operand is, if an expression starts with one. */
  function FirstOperand(e: Expr): Option<Expr> {
    match e
    case Postfix(_, x) => Some(x)
    case Binary(_, l, _) => Some(l)
    case Cond(c, _, _) => Some(c)
    case Index(b, _) => Some(b)
    case Call(f, _) => Some(f)
    case _ => None
  }

  /** Text in one pair of parentheses is that of no other expression. */
  lemma BracketsDiffer(u: Expr, x: Expr)
    requires !u.Brackets?
    ensures Flat(u) != [LParen] + Flat(x) + [RParen]
  {
    var s := [LParen] + Flat(x) + [RParen];
    var v := FirstOperand(u);
    if v.Some? {
      var k := |Flat(v.value)|;
      FlatEnds(v.value);
      FlatBalanced(v.value);
      FlatBalanced(x);
      BalancedParens(Flat(x));
      FirstOperandFirst(u);
      assert Depth(Flat(u)[..k]) == 0;
      assert |s| == |Flat(x)| + 2 && (k <= |Flat(x)| + 1 ==> Depth(s[..k]) > 0);
    } else {
      assert Flat(u)[0] != LParen && s[0] == LParen;
    }
  }

  lemma FirstOperandFirst(u: Expr)
    requires FirstOperand(u).Some?
    ensures FirstOperand(u).value < u
    ensures var f := Flat(FirstOperand(u).value);
            |f| < |Flat(u)| && Flat(u)[..|f|] == f
  {
  }

  /** Every cast is a node of its own, as a reader has it. */
  predicate Plain(e: Expr) {
    match e
    case Prim(_) => true
    case Brackets(x) => Plain(x)
    case Unary(_, x) => Plain(x)
    case Cast(_, asPrefix, x) => !asPrefix && Plain(x)
    case Postfix(_, x) => Plain(x)
    case Binary(_, l, r) => Plain(l) && Plain(r)
    case Cond(c, t, f) => Plain(c) && Plain(t) && Plain(f)
    case Index(b, i) => Plain(b) && Plain(i)
    case Call(f, args) => Plain(f) && PlainArgs(args)
  }

  predicate PlainArgs(args: Args) {
    match args
    case NoArgs => true
    case Arg(e, more) => Plain(e) && PlainArgs(more)
  }

  lemma FittingIsPlain(e: Expr)
    requires Fitting(e)
    ensures Plain(e)
    decreases e
  {
    hide PrecedenceOf, Level;
    if e.Call? {
      FittingArgsPlain(e.arguments);
    }
  }

  lemma FittingArgsPlain(args: Args)
    requires FittingArgs(args)
    ensures PlainArgs(args)
    decreases args
  {
    if args != NoArgs {
      FittingIsPlain(args.head);
      FittingArgsPlain(args.tail);
    }
  }

  lemma ExplicitIsPlain(e: Expr)
    ensures Plain(Explicit(e))
    decreases e
  {
    hide PrecedenceOf, Level;
    if e.Call? {
      ExplicitArgsPlain(e.arguments);
    }
  }

  lemma ExplicitArgsPlain(args: Args)
    ensures PlainArgs(ExplicitArgs(args))
    decreases args
  {
    if args != NoArgs {
      ExplicitIsPlain(args.head);
      ExplicitArgsPlain(args.tail);
    }
  }

  /** Trees with the same text that differ only in brackets are equal. */
  lemma {:induction false} SameText(t: Expr, u: Expr)
    requires Strip(t) == Strip(u) && Flat(t) == Flat(u) && Plain(t) && Plain(u)
    ensures t == u
    decreases t
  {
    if t.Brackets? || u.Brackets? {
      if t.Brackets? && u.Brackets? {
        assert Flat(t)[1..|Flat(t)| - 1] == Flat(t.inner) && Flat(u)[1..|Flat(u)| - 1] == Flat(u.inner);
        SameText(t.inner, u.inner);
      } else if t.Brackets? {
        BracketsDiffer(u, t.inner);
      } else {
        BracketsDiffer(t, u.inner);
      }
    } else {
      SameOperands(t, u);
    }
  }

  lemma {:induction false} SameOperands(t: Expr, u: Expr)
    requires Strip(t) == Strip(u) && Flat(t) == Flat(u) && Plain(t) && Plain(u) && !t.Brackets? && !u.Brackets?
    ensures t == u
    decreases t, 0
  {
    match t
    case Prim(_) =>
    case Brackets(_) =>
    case Unary(op, x) =>
      assert Flat(t)[1..] == Flat(x) && Flat(u)[1..] == Flat(u.operand);
      SameText(x, u.operand);
    case Cast(_, _, x) =>
      assert Flat(t)[1..] == Flat(x) && Flat(u)[1..] == Flat(u.operand);
      SameText(x, u.operand);
    case Postfix(op, x) =>
      SelfDelimiting(x, u.operand, [TOp(op)], [TOp(u.op)]);
      SameText(x, u.operand);
    case Binary(op, l, r) =>
      SelfDelimiting(l, u.left, [TOp(op)] + Flat(r), [TOp(u.op)] + Flat(u.right));
      assert ([TOp(op)] + Flat(r))[1..] == Flat(r) && ([TOp(u.op)] + Flat(u.right))[1..] == Flat(u.right);
      SameText(l, u.left);
      SameText(r, u.right);
    case Cond(c, x, f) =>
      SameCond(t, u);
    case Index(b, i) =>
      SameIndex(t, u);
    case Call(f, args) =>
      SameCall(t, u);
  }

  lemma {:induction false} SameCond(t: Expr, u: Expr)
    requires Strip(t) == Strip(u) && Flat(t) == Flat(u) && Plain(t) && Plain(u) && t.Cond? && u.Cond?
    ensures t == u
    decreases t, 0, 0
  {
    var a, b := Flat(t.ifTrue) + ([Colon] + Flat(t.ifFalse)), Flat(u.ifTrue) + ([Colon] + Flat(u.ifFalse));
    Join([Question], Flat(t.ifTrue), [Colon] + Flat(t.ifFalse));
    Join([Question], Flat(u.ifTrue), [Colon] + Flat(u.ifFalse));
    SelfDelimiting(t.condition, u.condition, [Question] + a, [Question] + b);
    assert ([Question] + a)[1..] == a && ([Question] + b)[1..] == b;
    SelfDelimiting(t.ifTrue, u.ifTrue, [Colon] + Flat(t.ifFalse), [Colon] + Flat(u.ifFalse));
    assert ([Colon] + Flat(t.ifFalse))[1..] == Flat(t.ifFalse) && ([Colon] + Flat(u.ifFalse))[1..] == Flat(u.ifFalse);
    SameText(t.condition, u.condition);
    SameText(t.ifTrue, u.ifTrue);
    SameText(t.ifFalse, u.ifFalse);
  }

  lemma {:induction false} SameIndex(t: Expr, u: Expr)
    requires Strip(t) == Strip(u) && Flat(t) == Flat(u) && Plain(t) && Plain(u) && t.Index? && u.Index?
    ensures t == u
    decreases t, 0, 0
  {
    var a, b := [LBracket] + Flat(t.index) + [RBracket], [LBracket] + Flat(u.index) + [RBracket];
    SelfDelimiting(t.base, u.base, a, b);
    assert a[1..|a| - 1] == Flat(t.index) && b[1..|b| - 1] == Flat(u.index);
    SameText(t.base, u.base);
    SameText(t.index, u.index);
  }

  lemma {:induction false} SameCall(t: Expr, u: Expr)
    requires Strip(t) == Strip(u) && Flat(t) == Flat(u) && Plain(t) && Plain(u) && t.Call? && u.Call?
    ensures t == u
    decreases t, 0, 0
  {
    var a, b := [LParen] + FlatArgs(t.arguments) + [RParen], [LParen] + FlatArgs(u.arguments) + [RParen];
    SelfDelimiting(t.callee, u.callee, a, b);
    assert a[1..|a| - 1] == FlatArgs(t.arguments) && b[1..|b| - 1] == FlatArgs(u.arguments);
    SameText(t.callee, u.callee);
    SameArgs(t.arguments, u.arguments);
  }

  lemma {:induction false} SameArgs(t: Args, u: Args)
    requires StripArgs(t) == StripArgs(u) && FlatArgs(t) == FlatArgs(u) && PlainArgs(t) && PlainArgs(u)
    ensures t == u
    decreases t
  {
    if t != NoArgs {
      SameTail(t, u);
      if t.tail == NoArgs {
        SameText(t.head, u.head);
      } else {
        var a, b := [TOp(",")] + FlatArgs(t.tail), [TOp(",")] + FlatArgs(u.tail);
        SelfDelimiting(t.head, u.head, a, b);
        assert a[1..] == FlatArgs(t.tail) && b[1..] == FlatArgs(u.tail);
        SameText(t.head, u.head);
        SameArgs(t.tail, u.tail);
      }
    }
  }

  lemma SameTail(t: Args, u: Args)
    requires StripArgs(t) == StripArgs(u) && t != NoArgs
    ensures u != NoArgs && Strip(t.head) == Strip(u.head) && StripArgs(t.tail) == StripArgs(u.tail)
    ensures t.tail == NoArgs <==> u.tail == NoArgs
  {
  }

  // ---------------------------------------------------------------- the exact condition

  /** Reading these tokens gives this tree, up to brackets. */
  predicate ReadAs(tokens: seq<Token>, e: Expr) {
    var parsed := ParseAll(tokens);
    parsed.Some? && Strip(parsed.value) == Strip(e)
  }

  /** A tree is read back from its own tokens exactly if it fits the grammar. */
  lemma FittingExactly(t: Expr)
    requires Known(t) && Plain(t)
    ensures ReadAs(Flat(t), t) <==> Fitting(t)
  {
    assert Flat(t) + [] == Flat(t);
    if Fitting(t) {
      ParseFlat(t, SEQUENCE, []);
    }
    if ReadAs(Flat(t), t) {
      var p := Parse(SEQUENCE, Flat(t)).value;
      ParseSound(SEQUENCE, Flat(t));
      assert Flat(p.e) + [] == Flat(p.e);
      FittingIsPlain(p.e);
      SameText(p.e, t);
    }
  }

  /** Printing and parsing gives the tree back, up to brackets, exactly if the tree is
      normal. */
  lemma RoundTripExact(e: Expr)
    requires Known(e)
    ensures RoundTrips(e) <==> Normal(e)
  {
    PrintIsFlat(e);
    ExplicitMeaning(e);
    ExplicitIsPlain(e);
    FittingExactly(Explicit(e));
    NormalIsFitting(e);
  }

  // ---------------------------------------------------------------- needed parentheses

  predicate IsCast(e: Expr) {
    e.Cast? && !e.asPrefix
  }

  /** An operator with what is printed for its operands, one of them without the parentheses
      that it may have got. The operand is not a cast below a prefix operator and not the
      middle of a conditional. */
  function WithoutOne(e: Expr): seq<Expr> {
    match e
    case Prim(_) => []
    case Brackets(_) => []
    case Unary(op, x) => if IsCast(x) then [] else [Unary(op, Explicit(x))]
    case Cast(t, asPrefix, x) => if asPrefix && IsCast(x) then [] else [Cast(t, false, Explicit(x))]
    case Postfix(op, x) => [Postfix(op, Explicit(x))]
    case Binary(_, l, r) => [Explicit(e).(left := Explicit(l)), Explicit(e).(right := Explicit(r))]
    case Cond(c, _, f) => [Explicit(e).(condition := Explicit(c)), Explicit(e).(ifFalse := Explicit(f))]
    case Index(b, i) => [Explicit(e).(base := Explicit(b)), Explicit(e).(index := Explicit(i))]
    case Call(f, _) => [Explicit(e).(callee := Explicit(f))]
  }

  lemma WithoutOneMeaning(e: Expr, t: Expr)
    requires Known(e) && t in WithoutOne(e)
    ensures Strip(t) == Strip(e) && Known(t) && Plain(t)
  {
    hide PrecedenceOf, Level, IsPrefix, IsStep, IsBinaryOperator;
    ExplicitMeaning(e);
    ExplicitIsPlain(e);
  }

  lemma WithoutOneFits(e: Expr, t: Expr)
    requires Known(e) && Normal(e) && t in WithoutOne(e)
    ensures t == Explicit(e) <==> Fitting(t)
  {
    hide PrecedenceOf, Level, Normal, IsPrefix, IsStep, IsBinaryOperator;
    NormalIsFitting(e);
    SameLevel(e);
    match e
    case Unary(_, x) => LevelOfCast(x); SameLevel(x);
    case Cast(_, asPrefix, x) => LevelOfCast(x); LevelOfCast(e); SameLevel(x);
    case Postfix(_, x) => SameLevel(x);
    case Binary(op, l, r) => BinaryFits(e);
    case Cond(c, _, f) => CondFits(e);
    case Index(b, i) => SameLevel(b);
    case Call(f, _) =>
  }

  lemma LevelOfCast(e: Expr)
    ensures e.Cast? ==> Level(e) == if e.asPrefix then UNARY else CAST
    ensures !e.Cast? && Known(e) ==> Level(e) != CAST
  {
    hide PrecedenceOf;
    if e.Binary? && Known(e) {
      BinaryLevels(e.op);
    }
  }

  lemma BinaryFits(e: Expr)
    requires e.Binary? && Known(e) && Normal(e) && Fitting(Explicit(e))
    ensures var b, l, r := Explicit(e), Explicit(e.left), Explicit(e.right);
            (b.(left := l) == b <==> Fitting(b.(left := l))) && (b.(right := r) == b <==> Fitting(b.(right := r)))
  {
    hide PrecedenceOf, Known, Explicit;
    BinaryLevels(e.op);
    SameLevel(e.left);
    SameLevel(e.right);
    ExplicitBinary(e);
  }

  lemma ExplicitBinary(e: Expr)
    requires e.Binary?
    ensures var l, r := Explicit(e.left), Explicit(e.right);
            Explicit(e) == Binary(e.op, Bracketed(l, Level(e.left), Level(e)), Bracketed(r, Level(e.right), Level(e)))
  {
  }

  lemma CondFits(e: Expr)
    requires e.Cond? && Normal(e) && Fitting(Explicit(e))
    ensures var b, c, f := Explicit(e), Explicit(e.condition), Explicit(e.ifFalse);
            (b.(condition := c) == b <==> Fitting(b.(condition := c)))
            && (b.(ifFalse := f) == b <==> Fitting(b.(ifFalse := f)))
  {
    hide PrecedenceOf, Known;
    SameLevel(e.condition);
    SameLevel(e.ifFalse);
  }

  /** The printer puts parentheses around an operand exactly if the expression would be read
      differently without them. */
  lemma NeededParentheses(e: Expr, t: Expr)
    requires Known(e) && Normal(e) && t in WithoutOne(e)
    ensures t == Explicit(e) <==> ReadAs(Flat(t), e)
  {
    hide PrecedenceOf;
    WithoutOneFits(e, t);
    WithoutOneMeaning(e, t);
    FittingExactly(t);
  }

  /** Elsewhere it is on the safe side: a cast below a prefix operator always gets them, and
      so does an assignment or a comma expression in the middle of a conditional. */
  lemma SafeParentheses(e: Expr)
    requires Known(e)
    ensures e.Unary? && IsCast(e.operand) ==> Explicit(e) == Unary(e.op, Brackets(Explicit(e.operand)))
    ensures e.Cast? && e.asPrefix && IsCast(e.operand) ==>
              Explicit(e) == Cast(e.target, false, Brackets(Explicit(e.operand)))
    ensures e.Cond? ==>
              var x := e.ifTrue;
              Explicit(e).ifTrue == if x.Binary? && (Operates(0, x.op) || Operates(1, x.op)) then Brackets(Explicit(x))
                                    else Explicit(x)
  {
    hide PrecedenceOf, Known, Operates, Level;
    LevelOfCast(e);
    if e.Unary? || e.Cast? {
      LevelOfCast(e.operand);
    } else if e.Cond? {
      KnownMiddle(e);
      LevelOfMiddle(e.ifTrue);
    }
  }

  lemma KnownMiddle(e: Expr)
    requires e.Cond? && Known(e)
    ensures Known(e.ifTrue)
    ensures Explicit(e).ifTrue == Bracketed(Explicit(e.ifTrue), Level(e.ifTrue), CONDITIONAL)
  {
    hide PrecedenceOf, Level;
  }

  lemma LevelOfMiddle(x: Expr)
    requires Known(x)
    ensures Level(x) < CONDITIONAL <==> x.Binary? && (Operates(0, x.op) || Operates(1, x.op))
  {
    hide PrecedenceOf, Operates, IsPrefix, IsStep;
    if x.Binary? {
      KnownOperator(x);
      var n :| 0 <= n <= 16 && Operates(n, x.op);
      OperatorLevel(x.op, n);
      OperatorLevel(x.op, 0);
      OperatorLevel(x.op, 1);
    }
  }
}
