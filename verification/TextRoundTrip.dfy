/** Reading the printed characters back: exactly when it gives the tree, and the trees that
    share their characters with others. */
module TextRoundTrip {
  import opened Wrappers
  import opened Operators
  import opened Expressions
  import opened Grammar
  import opened PrintParse
  import opened ParserSound
  import opened PrinterExact
  import opened Spelling
  import opened TextExact

  /** Reading the printed characters gives the same tree, up to brackets. */
  predicate ReadsBack(e: Expr, types: set<string>) {
    var tokens := Lex(Text(e), types);
    tokens.Some? && ParseAll(tokens.value).Some? && Strip(ParseAll(tokens.value).value) == Strip(e)
  }

  // ---------------------------------------------------------------- tokens without parentheses

  function Bare(s: seq<Token>): seq<Token> {
    if s == [] then []
    else if s[0] == LParen || s[0] == RParen then Bare(s[1..])
    else [s[0]] + Bare(s[1..])
  }

  lemma {:induction false} BareConcat(a: seq<Token>, b: seq<Token>)
    ensures Bare(a + b) == Bare(a) + Bare(b)
    decreases |a|
  {
    if a == [] {
      assert a + b == b;
    } else {
      BareConcat(a[1..], b);
      assert (a + b)[0] == a[0] && (a + b)[1..] == a[1..] + b;
    }
  }

  lemma BareToken(t: Token)
    ensures Bare([t]) == if t == LParen || t == RParen then [] else [t]
  {
    assert [t][1..] == [];
  }

  lemma BareAround(a: seq<Token>, t: Token, b: seq<Token>)
    requires t != LParen && t != RParen
    ensures Bare(a + ([t] + b)) == Bare(a) + ([t] + Bare(b))
  {
    hide Bare;
    BareToken(t);
    BareConcat([t], b);
    BareConcat(a, [t] + b);
  }

  lemma BareParens(a: seq<Token>)
    ensures Bare([LParen] + a + [RParen]) == Bare(a)
  {
    hide Bare;
    BareToken(LParen);
    BareToken(RParen);
    BareConcat([LParen], a);
    BareConcat([LParen] + a, [RParen]);
  }

  /** Brackets make no difference to the other tokens. */
  lemma {:induction false} BareOfStrip(e: Expr)
    ensures Bare(Flat(e)) == Bare(Flat(Strip(e)))
    decreases e
  {
    hide Bare;
    match e
    case Prim(_) =>
    case Brackets(x) =>
      BareOfStrip(x);
      BareParens(Flat(x));
    case Unary(op, x) =>
      BareOfStrip(x);
      BareConcat([TOp(op)], Flat(x));
      BareConcat([TOp(op)], Flat(Strip(x)));
    case Cast(t, _, x) =>
      BareOfStrip(x);
      BareConcat([TCast(t)], Flat(x));
      BareConcat([TCast(t)], Flat(Strip(x)));
    case Postfix(op, x) =>
      BareOfStrip(x);
      BareConcat(Flat(x), [TOp(op)]);
      BareConcat(Flat(Strip(x)), [TOp(op)]);
    case Binary(op, l, r) =>
      BareOfStrip(l);
      BareOfStrip(r);
      BareAround(Flat(l), TOp(op), Flat(r));
      BareAround(Flat(Strip(l)), TOp(op), Flat(Strip(r)));
    case Cond(c, t, f) =>
      BareOfStrip(c);
      BareOfStrip(t);
      BareOfStrip(f);
      BareCond(e);
      BareCond(Strip(e));
    case Index(b, i) =>
      BareOfStrip(b);
      BareOfStrip(i);
      BareIndex(e);
      BareIndex(Strip(e));
    case Call(f, args) =>
      BareOfStrip(f);
      BareOfStripArgs(args);
      BareCall(e);
      BareCall(Strip(e));
  }

  lemma BareCond(e: Expr)
    requires e.Cond?
    ensures Bare(Flat(e))
            == Bare(Flat(e.condition)) + ([Question] + (Bare(Flat(e.ifTrue)) + ([Colon] + Bare(Flat(e.ifFalse)))))
  {
    hide Bare;
    BareAround(Flat(e.ifTrue), Colon, Flat(e.ifFalse));
    Join([Question], Flat(e.ifTrue), [Colon] + Flat(e.ifFalse));
    BareAround(Flat(e.condition), Question, Flat(e.ifTrue) + ([Colon] + Flat(e.ifFalse)));
  }

  lemma BareIndex(e: Expr)
    requires e.Index?
    ensures Bare(Flat(e)) == Bare(Flat(e.base)) + ([LBracket] + (Bare(Flat(e.index)) + [RBracket]))
  {
    hide Bare;
    BareToken(RBracket);
    BareConcat(Flat(e.index), [RBracket]);
    Join([LBracket], Flat(e.index), [RBracket]);
    BareAround(Flat(e.base), LBracket, Flat(e.index) + [RBracket]);
  }

  lemma BareCall(e: Expr)
    requires e.Call?
    ensures Bare(Flat(e)) == Bare(Flat(e.callee)) + Bare(FlatArgs(e.arguments))
  {
    hide Bare;
    BareParens(FlatArgs(e.arguments));
    BareConcat(Flat(e.callee), [LParen] + FlatArgs(e.arguments) + [RParen]);
  }

  lemma {:induction false} BareOfStripArgs(args: Args)
    ensures Bare(FlatArgs(args)) == Bare(FlatArgs(StripArgs(args)))
    decreases args
  {
    hide Bare;
    match args
    case NoArgs =>
    case Arg(e, NoArgs) => BareOfStrip(e);
    case Arg(e, more) =>
      BareOfStrip(e);
      BareOfStripArgs(more);
      BareAround(Flat(e), TOp(","), FlatArgs(more));
      BareAround(Flat(Strip(e)), TOp(","), FlatArgs(StripArgs(more)));
  }

  // ---------------------------------------------------------------- parentheses are read right

  predicate IsParen(c: char) {
    c == '(' || c == ')'
  }

  /** Every token with a parenthesis is read where it stands, whatever the others are. */
  predicate Guarded(l: Line, types: set<string>) {
    match l
    case End => true
    case Space(more) => Guarded(more, types)
    case Tok(t, more) =>
      Spell(t) != "" && Spell(t)[0] != ' ' && (IsParen(Spell(t)[0]) ==> IsNext(t, Chars(l), types))
        && Guarded(more, types)
  }

  lemma NameGuarded(name: string, rest: Line, types: set<string>)
    requires IsName(name)
    ensures Guarded(Tok(TPrim(name), rest), types) <==> Guarded(rest, types)
  {
    hide IsNext;
  }

  lemma OpGuarded(op: string, rest: Line, types: set<string>)
    requires IsOperator(op) || IsPrefix(op) || IsStep(op)
    ensures Guarded(Tok(TOp(op), rest), types) <==> Guarded(rest, types)
    ensures Guarded(Spaced(TOp(op), rest), types) <==> Guarded(rest, types)
  {
    hide IsNext;
    assert Guarded(Space(rest), types) == Guarded(rest, types);
    assert Guarded(Tok(TOp(op), Space(rest)), types) == Guarded(rest, types);
  }

  lemma WrittenOpGuarded(op: string, rest: Line, types: set<string>)
    requires IsOperator(op)
    ensures Guarded(WrittenOp(op, rest), types) <==> Guarded(rest, types)
  {
    hide Guarded;
    OpGuarded(op, rest, types);
  }

  lemma MarkGuarded(t: Token, rest: Line, types: set<string>)
    requires t == RParen || t == LBracket || t == RBracket || t == Question || t == Colon
    ensures Breaks(Tok(t, rest)) && (Guarded(Tok(t, rest), types) <==> Guarded(rest, types))
    ensures Breaks(Spaced(t, rest)) && (Guarded(Spaced(t, rest), types) <==> Guarded(rest, types))
  {
    hide IsNext;
    MarkNext(t, Chars(rest), types);
    MarkNext(t, Chars(Space(rest)), types);
    assert Guarded(Space(rest), types) == Guarded(rest, types);
    assert Guarded(Tok(t, Space(rest)), types) == Guarded(rest, types);
  }

  lemma OpenGuarded(rest: Line, types: set<string>)
    requires IsNext(LParen, "(" + Chars(rest), types)
    ensures Breaks(Tok(LParen, rest)) && (Guarded(Tok(LParen, rest), types) <==> Guarded(rest, types))
  {
    hide IsNext;
  }

  lemma CastGuarded(t: string, rest: Line, types: set<string>)
    requires NamesType(t, types)
    ensures Guarded(Tok(TCast(t), rest), types) <==> Guarded(rest, types)
  {
    hide IsNext;
    CastNext(t, Chars(rest), types);
  }

  lemma {:induction false} TreeGuarded(e: Expr, rest: Line, types: set<string>)
    requires Known(e) && Spellable(e, types) && TypeNames(types) && Breaks(rest) && Guarded(rest, types)
    ensures Guarded(Written(e, rest), types)
    decreases e, 0
  {
    hide Guarded, Breaks, IsName, IsPrefix, IsStep, PrecedenceOf, Level, IsOperator, TypeNames, IsNext,
         WrittenOp, Spaced;
    match e
    case Prim(name) => NameGuarded(name, rest, types);
    case Brackets(x) => ParensGuarded(x, rest, types);
    case Unary(op, x) =>
      AtGuarded(x, UNARY, rest, types);
      OpGuarded(op, WrittenAt(x, UNARY, rest), types);
    case Cast(t, _, x) =>
      AtGuarded(x, Level(e), rest, types);
      CastGuarded(t, WrittenAt(x, Level(e), rest), types);
    case Postfix(op, x) =>
      StepIsOperator(op);
      MarkBreaks(TOp(op), rest);
      OpGuarded(op, rest, types);
      AtGuarded(x, POSTFIX, Tok(TOp(op), rest), types);
    case Binary(op, l, r) =>
      var right := WrittenAt(r, Level(e), rest);
      AtGuarded(r, Level(e), rest, types);
      OpBreaks(op, right);
      WrittenOpGuarded(op, right, types);
      AtGuarded(l, Level(e), WrittenOp(op, right), types);
    case Cond(c, t, f) =>
      var last := WrittenAt(f, CONDITIONAL, rest);
      var middle := WrittenAt(t, CONDITIONAL, Spaced(Colon, last));
      AtGuarded(f, CONDITIONAL, rest, types);
      MarkGuarded(Colon, last, types);
      AtGuarded(t, CONDITIONAL, Spaced(Colon, last), types);
      MarkGuarded(Question, middle, types);
      AtGuarded(c, CONDITIONAL, Spaced(Question, middle), types);
    case Index(b, i) =>
      var inner := Written(i, Tok(RBracket, rest));
      MarkGuarded(RBracket, rest, types);
      TreeGuarded(i, Tok(RBracket, rest), types);
      MarkGuarded(LBracket, inner, types);
      AtGuarded(b, POSTFIX, Tok(LBracket, inner), types);
    case Call(f, args) =>
      var inner := WrittenArgs(args, Tok(RParen, rest));
      ArgsGuarded(args, rest, types);
      SteadyArgs(args, rest, types);
      OpenGuarded(inner, types);
      TreeGuarded(f, Tok(LParen, inner), types);
  }

  lemma {:induction false} ParensGuarded(x: Expr, rest: Line, types: set<string>)
    requires Known(x) && Spellable(x, types) && TypeNames(types) && Guarded(rest, types)
    ensures Guarded(Tok(LParen, Written(x, Tok(RParen, rest))), types)
    decreases x, 2
  {
    hide Guarded, Breaks, TypeNames, IsNext, Known, Spellable, First, Written;
    var last := Tok(RParen, rest);
    MarkGuarded(RParen, rest, types);
    FirstWritten(x, last, types);
    OpensNoCast(Written(x, last), First(x), types);
    TreeGuarded(x, last, types);
    OpenGuarded(Written(x, last), types);
  }

  lemma {:induction false} AtGuarded(x: Expr, place: nat, rest: Line, types: set<string>)
    requires Known(x) && Spellable(x, types) && TypeNames(types) && Breaks(rest) && Guarded(rest, types)
    ensures Guarded(WrittenAt(x, place, rest), types)
    decreases x, 3
  {
    hide Guarded, Breaks, TypeNames, Known, Spellable, Written, Level;
    if Level(x) < place {
      ParensGuarded(x, rest, types);
    } else {
      TreeGuarded(x, rest, types);
    }
  }

  lemma {:induction false} ArgsGuarded(args: Args, rest: Line, types: set<string>)
    requires KnownArgs(args) && SpellableArgs(args, types) && TypeNames(types) && Guarded(rest, types)
    ensures Guarded(WrittenArgs(args, Tok(RParen, rest)), types)
    decreases args, 1
  {
    hide Guarded, Breaks, TypeNames, Written, Spellable, Known;
    var last := Tok(RParen, rest);
    MarkGuarded(RParen, rest, types);
    match args
    case NoArgs =>
    case Arg(e, NoArgs) => TreeGuarded(e, last, types);
    case Arg(e, more) =>
      var behind := WrittenArgs(more, last);
      ArgsGuarded(more, rest, types);
      CommaSteady(behind, types);
      CommaGuarded(behind, types);
      TreeGuarded(e, Tok(TOp(","), Space(behind)), types);
  }

  lemma CommaGuarded(rest: Line, types: set<string>)
    ensures Guarded(Tok(TOp(","), Space(rest)), types) <==> Guarded(rest, types)
  {
    hide IsNext;
    assert Guarded(Space(rest), types) == Guarded(rest, types);
  }

  // ---------------------------------------------------------------- the exact condition

  /** Where a different token is read first, the tokens differ even without parentheses. */
  lemma {:induction false} SameTokens(l: Line, tokens: seq<Token>, types: set<string>)
    requires Guarded(l, types) && Lex(Chars(l), types) == Some(tokens) && Bare(tokens) == Bare(Tokens(l))
    ensures tokens == Tokens(l)
    decreases l
  {
    hide Lex, Next, Spell;
    match l
    case End =>
      LexNothing(types);
    case Space(more) =>
      LexSpace(Chars(more), types);
      SameTokens(more, tokens, types);
    case Tok(t, more) =>
      var s := Chars(l);
      assert s[0] == Spell(t)[0];
      LexFirst(s, tokens, types);
      NextParen(s, types);
      SpellParen(t);
      if !IsParen(s[0]) {
        BareFirst(tokens, Tokens(l));
      }
      assert tokens[0] == t && s[|Spell(t)|..] == Chars(more);
      assert tokens == [t] + tokens[1..];
      BareBehind(t, tokens[1..], Tokens(more));
      SameTokens(more, tokens[1..], types);
  }

  lemma BareFirst(a: seq<Token>, b: seq<Token>)
    requires a != [] && a[0] != LParen && a[0] != RParen
    requires b != [] && b[0] != LParen && b[0] != RParen
    requires Bare(a) == Bare(b)
    ensures a[0] == b[0]
  {
    assert Bare(a)[0] == a[0] && Bare(b)[0] == b[0];
  }

  lemma BareBehind(t: Token, a: seq<Token>, b: seq<Token>)
    ensures Bare([t] + a) == Bare([t] + b) ==> Bare(a) == Bare(b)
  {
    hide Bare;
    BareConcat([t], a);
    BareConcat([t], b);
    assert (Bare([t]) + Bare(a))[|Bare([t])|..] == Bare(a);
    assert (Bare([t]) + Bare(b))[|Bare([t])|..] == Bare(b);
  }

  lemma LexFirst(s: string, tokens: seq<Token>, types: set<string>)
    requires s != "" && s[0] != ' ' && Lex(s, types) == Some(tokens)
    ensures tokens != [] && Next(s, types) == Some(tokens[0])
    ensures |Spell(tokens[0])| <= |s| && Lex(s[|Spell(tokens[0])|..], types) == Some(tokens[1..])
  {
    hide Next, Spell;
  }

  lemma NextParen(s: string, types: set<string>)
    requires s != "" && Next(s, types).Some?
    ensures var t := Next(s, types).value; t == LParen || t == RParen ==> IsParen(s[0])
  {
  }

  lemma SpellParen(t: Token)
    ensures t == LParen || t == RParen ==> Spell(t) != "" && IsParen(Spell(t)[0])
  {
  }

  /** Reading the characters back gives the tree, up to brackets, exactly if the tree is
      normal and no two of its tokens run together. */
  lemma ReadsBackExact(e: Expr, types: set<string>)
    requires Known(e) && Spellable(e, types) && TypeNames(types)
    ensures ReadsBack(e, types) <==> Normal(e) && Apart(e)
  {
    hide Lex, Text, Print, Known, Spellable, TypeNames, Apart, Normal, ParseAll, Strip;
    SplitsExactly(e, types);
    RoundTripExact(e);
    if ReadsBack(e, types) {
      var tokens := Lex(Text(e), types).value;
      ReadTokens(e, tokens, types);
    }
  }

  /** Tokens read from the characters of a tree that parse to that tree are the printed ones. */
  lemma ReadTokens(e: Expr, tokens: seq<Token>, types: set<string>)
    requires Known(e) && Spellable(e, types) && TypeNames(types)
    requires Lex(Text(e), types) == Some(tokens)
    requires ParseAll(tokens).Some? && Strip(ParseAll(tokens).value) == Strip(e)
    ensures tokens == Print(e)
  {
    hide Lex, Text, Print, Known, Spellable, TypeNames, Strip, Chars, Tokens, Parse, Flat, Bare, Explicit, Guarded,
         Written;
    var p := Parse(SEQUENCE, tokens).value;
    ParseSound(SEQUENCE, tokens);
    assert Flat(p.e) + [] == Flat(p.e);
    PrintIsFlat(e);
    ExplicitMeaning(e);
    BareOfStrip(p.e);
    BareOfStrip(Explicit(e));
    WrittenIsPrinted(e, End);
    EndIsEmpty();
    assert Text(e) + "" == Text(e) && Print(e) + [] == Print(e);
    EndGuarded(types);
    TreeGuarded(e, End, types);
    SameTokens(Written(e, End), tokens, types);
  }

  lemma EndGuarded(types: set<string>)
    ensures Guarded(End, types)
  {
  }

  /** Different trees that are read back have different characters. */
  lemma TextTellsApart(a: Expr, b: Expr, types: set<string>)
    requires Known(a) && Spellable(a, types) && Normal(a) && Apart(a)
    requires Known(b) && Spellable(b, types) && Normal(b) && Apart(b)
    requires TypeNames(types)
    ensures Text(a) == Text(b) ==> Strip(a) == Strip(b)
  {
    ReadsBackExact(a, types);
    ReadsBackExact(b, types);
    hide Lex, Text, ParseAll, Strip, Apart, Normal, Known, Spellable;
  }

  // ---------------------------------------------------------------- trees that are not read back

  /** Two signs in a row have the characters of one step operator, so that no reader of
      characters can return both of these trees, which the tokens tell apart. */
  lemma SignsRunTogether(op: string, x: Expr)
    requires (op == "-" || op == "+") && Known(x) && Normal(x)
    ensures var twice, step := Unary(op, Unary(op, x)), Unary(op + op, x);
            Known(twice) && Known(step) && RoundTrips(twice) && RoundTrips(step) && !Apart(twice)
            && Print(twice) != Print(step) && Strip(twice) != Strip(step) && Text(twice) == Text(step)
  {
    var twice, step := Unary(op, Unary(op, x)), Unary(op + op, x);
    hide Apart, PrecedenceOf, RoundTrips, InParens;
    assert op + op == "--" || op + op == "++";
    TwiceNotApart(op, x);
    RoundTripExact(twice);
    RoundTripExact(step);
    assert op != op + op;
    assert Print(twice)[0] == TOp(op) && Print(step)[0] == TOp(op + op);
    TwiceText(op, x);
  }

  lemma TwiceText(op: string, x: Expr)
    ensures Text(Unary(op, Unary(op, x))) == Text(Unary(op + op, x))
  {
    hide PrecedenceOf;
    var operand := InParens(Text(x), Level(x), UNARY);
    assert Text(Unary(op, Unary(op, x))) == op + (op + operand);
    Regroup(op, op, operand);
  }

  lemma TwiceNotApart(op: string, x: Expr)
    requires op == "-" || op == "+"
    ensures !Apart(Unary(op, Unary(op, x)))
  {
    SignMerges(op, op);
    assert FirstAt(Unary(op, x), UNARY) == TOp(op);
  }

  /** Three signs in a row: a step behind the left operand and a step in front of the right
      one have the same characters. */
  lemma StepsRunTogether(op: string, a: Expr, b: Expr)
    requires (op == "-" || op == "+") && Known(a) && Normal(a) && Known(b) && Normal(b)
    requires Level(a) >= POSTFIX && Level(b) >= UNARY
    ensures var left, right := Binary(op, Postfix(op + op, a), b), Binary(op, a, Unary(op + op, b));
            Known(left) && Known(right) && RoundTrips(left) && RoundTrips(right) && !Apart(right)
            && Strip(left) != Strip(right) && Text(left) == Text(right)
  {
    hide Apart, IsBinaryOperator, Operates;
    SignIsOperator(op);
    var left, right := Binary(op, Postfix(op + op, a), b), Binary(op, a, Unary(op + op, b));
    assert op + op == "--" || op + op == "++";
    assert Level(left) == ADDITIVE && Level(right) == ADDITIVE;
    RoundTripExact(left);
    RoundTripExact(right);
    assert op != op + op;
    StepsText(op, op + op, Text(a), Text(b));
    StepsNotApart(op, a, b);
    StepsDiffer(op, a, b);
  }

  lemma SignIsOperator(op: string)
    requires op == "-" || op == "+"
    ensures IsBinaryOperator(op) && PrecedenceOf(op) == Some(ADDITIVE)
  {
    assert Operates(12, op);
  }

  lemma StepsText(op: string, step: string, a: string, b: string)
    requires step == op + op
    ensures a + step + op + b == a + op + (step + b)
  {
  }

  lemma StepsNotApart(op: string, a: Expr, b: Expr)
    requires op == "-" || op == "+"
    ensures !Apart(Binary(op, a, Unary(op + op, b)))
  {
    SignMerges(op, op + op);
    assert Level(Binary(op, a, Unary(op + op, b))) == ADDITIVE;
    assert FirstAt(Unary(op + op, b), ADDITIVE) == TOp(op + op);
  }

  lemma SignMerges(op: string, next: string)
    requires (op == "-" || op == "+") && op <= next
    ensures IsTight(op) && Merges(op, TOp(next))
  {
  }

  lemma StepsDiffer(op: string, a: Expr, b: Expr)
    ensures Strip(Binary(op, Postfix(op + op, a), b)) != Strip(Binary(op, a, Unary(op + op, b)))
  {
    if Strip(Postfix(op + op, a)) == Strip(a) {
      SmallerStrip(op + op, a);
    }
  }

  lemma SmallerStrip(op: string, a: Expr)
    ensures Strip(Postfix(op, a)) != Strip(a)
  {
    assert Strip(a) < Postfix(op, Strip(a));
  }

  /** A hexadecimal number that ends in E takes in the sign behind it. */
  lemma NumberTakesSign(types: set<string>)
    ensures var sum := Binary("+", Prim("0xE"), Prim("1"));
            Known(sum) && Normal(sum) && Text(sum) == "0xE+1" && !Apart(sum)
            && Lex(Text(sum), types) == Some([TPrim("0xE+1")])
  {
    hide Lex, Text, Apart, NumberLength;
    var sum := Binary("+", Prim("0xE"), Prim("1"));
    SumText(sum);
    SignIsOperator("+");
    NumberLengths();
    SumRunsTogether(sum);
    OneNumber("0xE+1", types);
  }

  lemma SumText(sum: Expr)
    requires sum == Binary("+", Prim("0xE"), Prim("1"))
    ensures Text(sum) == "0xE+1"
  {
    hide PrecedenceOf;
    assert Level(sum) <= POSTFIX by { BinaryLevels("+"); }
    assert Text(sum) == "0xE" + "+" + "1" == "0xE+1";
  }

  lemma SumRunsTogether(sum: Expr)
    requires sum == Binary("+", Prim("0xE"), Prim("1")) && NumberLength("0xE") == 3
    ensures !Apart(sum)
  {
    hide PrecedenceOf, NumberLength;
    assert Level(sum) <= POSTFIX by { BinaryLevels("+"); }
    assert LastAt(Prim("0xE"), Level(sum)) == TPrim("0xE");
    assert IsNumber("0xE") && Absorbs(TPrim("0xE"), "+");
  }

  lemma NumberLengths()
    ensures NumberLength("0xE") == 3 && NumberLength("0xE+1") == 5
  {
    NumberStep("0xE");
    NumberStep("0xE"[1..]);
    NumberStep("0xE"[2..]);
    NumberStep("0xE"[3..]);
    NumberStep("0xE+1");
    NumberStep("0xE+1"[1..]);
    NumberStep("0xE+1"[2..]);
    NumberStep("0xE+1"[4..]);
    NumberStep("0xE+1"[5..]);
  }

  lemma OneNumber(s: string, types: set<string>)
    requires IsNumber(s)
    ensures Lex(s, types) == Some([TPrim(s)])
  {
    assert s[..|s|] == s && s[|s|..] == "";
    assert Next(s, types) == Some(TPrim(s));
    LexNothing(types);
    assert [TPrim(s)] + [] == [TPrim(s)];
  }
}
