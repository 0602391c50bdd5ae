/** Exactly which printed expressions split into the tokens that were printed. */
module TextExact {
  import opened Wrappers
  import opened Operators
  import opened Expressions
  import opened Spelling

  // ---------------------------------------------------------------- names

  predicate IsNumber(name: string) {
    StartsNumber(name) && NumberLength(name) == |name|
  }

  predicate IsWord(name: string) {
    name != "" && !IsDigit(name[0]) && WordLength(name) == |name|
  }

  /** A string or character constant, wide or not. */
  predicate IsQuoted(name: string) {
    (name != "" && IsQuote(name[0]) && QuoteLength(name[1..], name[0]) == |name| - 1 > 0)
    || (|name| > 1 && name[0] == 'L' && IsQuote(name[1]) && QuoteLength(name[2..], name[1]) == |name| - 2 > 0)
  }

  predicate IsName(name: string) {
    IsNumber(name) || IsWord(name) || IsQuoted(name)
  }

  /** The text of a type in a cast begins with the name of a type. */
  predicate NamesType(t: string, types: set<string>) {
    var n := WordLength(t);
    t[..n] in types && Closing(t) == |t| && !(n < |t| && IsQuote(t[n]))
  }

  ghost predicate TypeNames(types: set<string>) {
    forall name :: name in types ==> IsWord(name)
  }

  /** Operands are words, numbers or quoted, casts name a type, and operators are spelled out. */
  predicate Spellable(e: Expr, types: set<string>) {
    match e
    case Prim(name) => IsName(name) && name !in types
    case Brackets(x) => Spellable(x, types)
    case Unary(_, x) => Spellable(x, types)
    case Cast(t, _, x) => NamesType(t, types) && Spellable(x, types)
    case Postfix(_, x) => Spellable(x, types)
    case Binary(op, l, r) => IsOperator(op) && Spellable(l, types) && Spellable(r, types)
    case Cond(c, t, f) => Spellable(c, types) && Spellable(t, types) && Spellable(f, types)
    case Index(b, i) => Spellable(b, types) && Spellable(i, types)
    case Call(f, args) => Spellable(f, types) && SpellableArgs(args, types)
  }

  predicate SpellableArgs(args: Args, types: set<string>) {
    match args
    case NoArgs => true
    case Arg(e, more) => Spellable(e, types) && SpellableArgs(more, types)
  }

  // ---------------------------------------------------------------- the condition

  /** The token an expression begins with. */
  function First(e: Expr): Token
    decreases e, 0
  {
    match e
    case Prim(name) => TPrim(name)
    case Brackets(_) => LParen
    case Unary(op, _) => TOp(op)
    case Cast(t, _, _) => TCast(t)
    case Postfix(_, x) => FirstAt(x, POSTFIX)
    case Binary(_, l, _) => FirstAt(l, Level(e))
    case Cond(c, _, _) => FirstAt(c, CONDITIONAL)
    case Index(b, _) => FirstAt(b, POSTFIX)
    case Call(f, _) => First(f)
  }

  function FirstAt(x: Expr, place: nat): Token
    decreases x, 1
  {
    if Level(x) < place then LParen else First(x)
  }

  /** The token it ends with. */
  function Last(e: Expr): Token
    decreases e, 0
  {
    match e
    case Prim(name) => TPrim(name)
    case Brackets(_) => RParen
    case Unary(_, x) => LastAt(x, UNARY)
    case Cast(_, _, x) => LastAt(x, Level(e))
    case Postfix(op, _) => TOp(op)
    case Binary(_, _, r) => LastAt(r, Level(e))
    case Cond(_, _, f) => LastAt(f, CONDITIONAL)
    case Index(_, _) => RBracket
    case Call(_, _) => RParen
  }

  function LastAt(x: Expr, place: nat): Token
    decreases x, 1
  {
    if Level(x) < place then RParen else Last(x)
  }

  /** A sign or an ampersand directly in front of an operator that begins with the same, or
      a dot in front of a digit. */
  predicate Merges(op: string, next: Token) {
    ((op == "+" || op == "-" || op == "&") && next.TOp? && next.op != "" && next.op[0] == op[0])
    || (op == "." && next.TPrim? && next.name != "" && IsDigit(next.name[0]))
  }

  /** A number directly in front of an operator that it would take in: a dot, or a sign
      behind an exponent letter, with which a hexadecimal number may end. */
  predicate Absorbs(previous: Token, op: string) {
    previous.TPrim? && IsNumber(previous.name) && op != ""
    && (op[0] == '.' || (IsSign(op[0]) && IsExponent(previous.name[|previous.name| - 1])))
  }

  /** No two tokens that are printed without a space between them run together. */
  predicate Apart(e: Expr) {
    match e
    case Prim(_) => true
    case Brackets(x) => Apart(x)
    case Unary(op, x) => Apart(x) && !Merges(op, FirstAt(x, UNARY))
    case Cast(_, _, x) => Apart(x)
    case Postfix(op, x) => Apart(x) && !Absorbs(LastAt(x, POSTFIX), op)
    case Binary(op, l, r) =>
      Apart(l) && Apart(r)
      && (IsTight(op) ==> !Absorbs(LastAt(l, Level(e)), op) && !Merges(op, FirstAt(r, Level(e))))
    case Cond(c, t, f) => Apart(c) && Apart(t) && Apart(f)
    case Index(b, i) => Apart(b) && Apart(i)
    case Call(f, args) => Apart(f) && ApartArgs(args)
  }

  predicate ApartArgs(args: Args) {
    match args
    case NoArgs => true
    case Arg(e, more) => Apart(e) && ApartArgs(more)
  }

  // ---------------------------------------------------------------- single tokens

  predicate WordFirst(s: string) {
    s != "" && (IsWordChar(s[0]) || IsQuote(s[0]))
  }

  lemma {:induction false} WordConcat(name: string, s: string)
    requires WordLength(name) == |name| && !WordFirst(s)
    ensures WordLength(name + s) == |name|
    decreases |name|
  {
    if name == "" {
      assert name + s == s;
    } else {
      WordConcat(name[1..], s);
      assert (name + s)[1..] == name[1..] + s;
    }
  }

  lemma {:induction false} NumberConcat(name: string, s: string)
    requires NumberLength(name) == |name| && !WordFirst(s)
    ensures NumberLength(name + s) == |name| <==>
              s == "" || (s[0] != '.' && !(IsSign(s[0]) && name != "" && IsExponent(name[|name| - 1])))
    decreases |name|
  {
    hide NumberLength, IsWordChar, IsSign, IsExponent;
    var text := name + s;
    if name == "" {
      assert text == s;
      NumberStep(s);
    } else if |name| >= 2 && IsExponent(name[0]) && IsSign(name[1]) {
      assert text[2..] == name[2..] + s && text[0] == name[0] && text[1] == name[1];
      NumberStep(name);
      NumberStep(text);
      NumberConcat(name[2..], s);
      if |name| == 2 {
        SignIsNoWord(name[1..]);
      } else {
        assert name[2..][|name| - 3] == name[|name| - 1];
      }
    } else {
      assert text[1..] == name[1..] + s && text[0] == name[0];
      NumberStep(name);
      NumberStep(text);
      NumberConcat(name[1..], s);
      if |name| > 1 {
        assert name[1..][|name| - 2] == name[|name| - 1] && text[1] == name[1];
      } else {
        assert s != "" ==> text[1] == s[0];
      }
    }
  }

  lemma NumberStep(s: string)
    ensures NumberLength(s) ==
            if |s| >= 2 && IsExponent(s[0]) && IsSign(s[1]) then 2 + NumberLength(s[2..])
            else if s != "" && (IsWordChar(s[0]) || s[0] == '.') then 1 + NumberLength(s[1..])
            else 0
    ensures |s| >= 2 && IsSign(s[0]) ==> !IsExponent(s[0])
    ensures s != "" && IsExponent(s[0]) ==> IsWordChar(s[0])
  {
  }

  lemma SignIsNoWord(s: string)
    ensures s != "" && IsSign(s[0]) ==> !IsExponent(s[0])
  {
  }

  /** The number or word is not continued by these characters. */
  predicate Ends(t: Token, s: string) {
    t.TPrim? && IsNumber(t.name) && s != "" ==>
      s[0] != '.' && !(IsSign(s[0]) && IsExponent(t.name[|t.name| - 1]))
  }

  lemma {:induction false} QuoteConcat(name: string, quote: char, s: string)
    requires QuoteLength(name, quote) > 0
    ensures QuoteLength(name + s, quote) == QuoteLength(name, quote)
    decreases |name|
  {
    var text := name + s;
    if name[0] != quote {
      var step := if name[0] == '\\' && |name| > 1 then 2 else 1;
      QuoteConcat(name[step..], quote, s);
      assert text[step..] == name[step..] + s;
    }
  }

  lemma NameNext(name: string, s: string, types: set<string>)
    requires IsName(name) && !WordFirst(s)
    ensures IsNext(TPrim(name), name + s, types) <==> Ends(TPrim(name), s)
  {
    hide NumberLength, WordLength, QuoteLength;
    var text := name + s;
    if IsNumber(name) {
      NumberNext(name, s, types);
    } else if IsQuoted(name) {
      var k := if IsQuote(name[0]) then 0 else 1;
      assert text[0] == name[0] && (k == 1 ==> text[1] == name[1]);
      assert text[k + 1..] == name[k + 1..] + s;
      QuoteConcat(name[k + 1..], name[k], s);
      assert text[..|name|] == name;
    } else {
      WordStart(name);
      WordConcat(name, s);
      assert text[..WordLength(text)] == name;
      assert text[0] == name[0] && (|name| > 1 ==> text[1] == name[1]);
    }
  }

  lemma NumberNext(name: string, s: string, types: set<string>)
    requires IsNumber(name) && !WordFirst(s)
    ensures IsNext(TPrim(name), name + s, types) <==> Ends(TPrim(name), s)
  {
    hide NumberLength;
    var text := name + s;
    assert text[0] == name[0] && (|name| > 1 ==> text[1] == name[1]);
    NumberConcat(name, s);
    assert |text[..NumberLength(text)]| == NumberLength(text);
    assert NumberLength(text) == |name| ==> text[..NumberLength(text)] == name;
  }

  lemma WordStart(name: string)
    requires IsWord(name)
    ensures IsWordChar(name[0]) && !StartsNumber(name) && (|name| > 1 ==> IsWordChar(name[1]))
  {
    assert WordLength(name) == 1 + WordLength(name[1..]);
    assert |name| > 1 ==> WordLength(name[1..]) > 0;
  }

  lemma ParenNext(s: string, types: set<string>)
    requires !OpensCast(s, types)
    ensures IsNext(LParen, "(" + s, types)
  {
    assert ("(" + s)[1..] == s;
  }

  lemma {:induction false} ClosingConcat(s: string, rest: string)
    requires Closing(s) == |s|
    ensures Closing(s + (")" + rest)) == |s|
    decreases |s|
  {
    if s != "" {
      ClosingConcat(s[1..], rest);
      assert (s + (")" + rest))[1..] == s[1..] + (")" + rest);
    }
  }

  lemma {:induction false} WordOfConcat(s: string, rest: string)
    requires Closing(s) == |s|
    ensures WordLength(s + (")" + rest)) == WordLength(s)
    decreases |s|
  {
    if s != "" {
      WordOfConcat(s[1..], rest);
      assert (s + (")" + rest))[1..] == s[1..] + (")" + rest);
    }
  }

  lemma CastNext(t: string, s: string, types: set<string>)
    requires NamesType(t, types)
    ensures IsNext(TCast(t), "(" + t + ")" + s, types)
  {
    hide WordLength, Closing;
    var text, inner := "(" + t + ")" + s, t + (")" + s);
    assert text == "(" + inner && text[1..] == inner;
    ClosingConcat(t, s);
    WordOfConcat(t, s);
    assert inner[..WordLength(inner)] == t[..WordLength(t)] && inner[..Closing(inner)] == t;
  }

  lemma MarkNext(t: Token, s: string, types: set<string>)
    requires t == RParen || t == LBracket || t == RBracket || t == Question || t == Colon
    ensures IsNext(t, Spell(t) + s, types)
  {
  }

  lemma OpNext(op: string, s: string, types: set<string>)
    requires IsOperator(op) && (op == "." && s != "" ==> !IsDigit(s[0]))
    requires op == "/" && s != "" ==> s[0] != '*' && s[0] != '/'
    ensures IsNext(TOp(op), op + s, types) <==> OperatorLength(op + s) == |op|
  {
    var text := op + s;
    assert text[0] == op[0];
    assert |op| == 1 && s != "" ==> text[1] == s[0];
    assert op[0] == '/' ==> op == "/" || (|op| == 2 && text[1] == op[1] == '=');
    assert op[0] == '.' ==> |op| == 1 && op == ".";
    assert text[..|op|] == op;
    assert |text[..OperatorLength(text)]| == OperatorLength(text);
  }

  /** No operator goes on with a space, and none is longer than a step operator or arrow
      that it begins with. */
  lemma SpacedNext(op: string, s: string, types: set<string>)
    requires IsOperator(op) && s != "" && s[0] == ' '
    ensures IsNext(TOp(op), op + s, types)
  {
    OpNext(op, s, types);
  }

  lemma StepNext(op: string, s: string, types: set<string>)
    requires IsStep(op)
    ensures IsNext(TOp(op), op + s, types)
  {
    OpNext(op, s, types);
  }

  predicate Begins(t: Token, types: set<string>) {
    match t
    case TPrim(name) => IsName(name) && name !in types
    case TCast(_) => true
    case TOp(op) => IsPrefix(op)
    case LParen => true
    case _ => false
  }

  /** An operator directly in front of an operand is read unless it merges with it. */
  lemma TightNext(op: string, t: Token, more: string, types: set<string>)
    requires IsTight(op) || IsPrefix(op)
    requires Begins(t, types)
    ensures IsNext(TOp(op), op + (Spell(t) + more), types) <==> !Merges(op, t)
  {
    hide NumberLength, WordLength, QuoteLength;
    var s := Spell(t) + more;
    WordStarts(t, types);
    assert s[0] == Spell(t)[0];
    if op == "." && IsDigit(s[0]) {
      DotDigit(s, types);
    } else {
      OpNext(op, s, types);
      LengthInFront(op, t, s, types);
    }
  }

  lemma DotDigit(s: string, types: set<string>)
    requires s != "" && IsDigit(s[0])
    ensures !IsNext(TOp("."), "." + s, types)
  {
    var text := "." + s;
    assert text[0] == '.' && text[1] == s[0];
  }

  lemma LengthInFront(op: string, t: Token, s: string, types: set<string>)
    requires (IsTight(op) || IsPrefix(op)) && Begins(t, types) && Spell(t) != "" && s != "" && s[0] == Spell(t)[0]
    requires t.TPrim? ==> IsWordChar(s[0]) || IsQuote(s[0]) || s[0] == '.'
    requires !(op == "." && IsDigit(s[0]))
    ensures IsOperator(op) && (OperatorLength(op + s) == |op| <==> !Merges(op, t))
  {
    hide IsNumber, IsWord, IsQuoted;
    var text := op + s;
    assert |op| == 1 ==> text[1] == s[0];
    assert text[0] == op[0];
  }

  lemma WordStarts(t: Token, types: set<string>)
    requires Begins(t, types)
    ensures Spell(t) != "" && (t.TCast? || t.LParen? ==> Spell(t)[0] == '(')
    ensures t.TPrim? ==> IsWordChar(Spell(t)[0]) || IsQuote(Spell(t)[0]) || Spell(t)[0] == '.'
  {
    if t.TPrim? && IsWord(t.name) {
      WordStart(t.name);
    }
  }

  // ---------------------------------------------------------------- where an expression begins

  predicate Breaks(l: Line) {
    !WordFirst(Chars(l))
  }

  lemma MarkBreaks(t: Token, l: Line)
    requires !t.TPrim? && (t.TOp? ==> IsOperator(t.op))
    ensures Breaks(Tok(t, l)) && Breaks(Space(l))
  {
  }

  lemma OpBreaks(op: string, l: Line)
    requires IsOperator(op)
    ensures Breaks(WrittenOp(op, l))
  {
    MarkBreaks(TOp(op), l);
  }

  lemma StepIsOperator(op: string)
    requires IsStep(op)
    ensures IsOperator(op)
  {
  }

  /** The first token that is written, and that a word there ends. */
  predicate BeginsWith(l: Line, t: Token, types: set<string>) {
    l.Tok? && l.token == t && Begins(t, types) && (t.TPrim? ==> Breaks(l.more))
  }

  lemma {:induction false} FirstWritten(e: Expr, rest: Line, types: set<string>)
    requires Known(e) && Spellable(e, types) && Breaks(rest)
    ensures BeginsWith(Written(e, rest), First(e), types)
    decreases e, 0
  {
    hide Breaks, IsName, IsPrefix, IsStep, PrecedenceOf, Level, IsOperator, WrittenOp;
    match e
    case Postfix(op, x) =>
      StepIsOperator(op);
      MarkBreaks(TOp(op), rest);
      FirstAtWritten(x, POSTFIX, Tok(TOp(op), rest), types);
    case Binary(op, l, r) =>
      OpBreaks(op, WrittenAt(r, Level(e), rest));
      FirstAtWritten(l, Level(e), WrittenOp(op, WrittenAt(r, Level(e), rest)), types);
    case Cond(c, t, f) =>
      var more := Spaced(Question, WrittenAt(t, CONDITIONAL, Spaced(Colon, WrittenAt(f, CONDITIONAL, rest))));
      MarkBreaks(Question, more.more);
      FirstAtWritten(c, CONDITIONAL, more, types);
    case Index(b, i) =>
      MarkBreaks(LBracket, Written(i, Tok(RBracket, rest)));
      FirstAtWritten(b, POSTFIX, Tok(LBracket, Written(i, Tok(RBracket, rest))), types);
    case Call(f, args) =>
      MarkBreaks(LParen, WrittenArgs(args, Tok(RParen, rest)));
      FirstWritten(f, Tok(LParen, WrittenArgs(args, Tok(RParen, rest))), types);
    case _ =>
  }

  lemma {:induction false} FirstAtWritten(x: Expr, place: nat, rest: Line, types: set<string>)
    requires Known(x) && Spellable(x, types) && Breaks(rest)
    ensures BeginsWith(WrittenAt(x, place, rest), FirstAt(x, place), types)
    decreases x, 1
  {
    hide Breaks, IsName, Known, Spellable, Level;
    if Level(x) >= place {
      FirstWritten(x, rest, types);
    }
  }

  /** No parenthesis in front of an operand opens a cast. */
  lemma OpensNoCast(l: Line, t: Token, types: set<string>)
    requires BeginsWith(l, t, types) && TypeNames(types)
    ensures IsNext(LParen, "(" + Chars(l), types)
  {
    hide IsNext;
    var s := Chars(l);
    WordStarts(t, types);
    assert s[0] == Spell(t)[0];
    if t.TPrim? && IsWord(t.name) {
      WordConcat(t.name, Chars(l.more));
      assert s[..WordLength(s)] == t.name;
    } else if t.TPrim? && s[0] == 'L' {
      assert s[1] == t.name[1];
      assert WordLength(s[1..]) == 0 && WordLength(s) == 1;
    } else {
      NoWordThere(s, types);
    }
    ParenNext(s, types);
  }

  lemma NoWordThere(s: string, types: set<string>)
    requires s != "" && (IsDigit(s[0]) || !IsWordChar(s[0])) && TypeNames(types)
    ensures s[..WordLength(s)] !in types
  {
    var name := s[..WordLength(s)];
    assert WordLength(s) > 0 ==> name[0] == s[0];
    assert !IsWord(name);
  }

  // ---------------------------------------------------------------- whole expressions

  /** Reading stays in step through an expression exactly if its tokens are apart, among
      each other and from what follows. */
  lemma {:induction false} SteadyTree(e: Expr, rest: Line, types: set<string>)
    requires Known(e) && Spellable(e, types) && TypeNames(types) && Breaks(rest)
    ensures Steady(Written(e, rest), types) <==> Apart(e) && Ends(Last(e), Chars(rest)) && Steady(rest, types)
    decreases e, 0
  {
    hide Breaks, IsName, IsPrefix, IsStep, PrecedenceOf, Level, IsOperator, TypeNames, IsNext;
    match e
    case Prim(name) =>
      PrimSteady(name, rest, types);
    case Brackets(x) =>
      ParensSteady(x, rest, types);
    case Unary(op, x) =>
      var t, more := FirstAt(x, UNARY), WrittenAt(x, UNARY, rest);
      FirstAtWritten(x, UNARY, rest, types);
      TightNext(op, t, Chars(more.more), types);
      SteadyAt(x, UNARY, rest, types);
    case Cast(t, _, x) =>
      CastNext(t, Chars(WrittenAt(x, Level(e), rest)), types);
      SteadyAt(x, Level(e), rest, types);
    case Postfix(op, x) =>
      StepIsOperator(op);
      MarkBreaks(TOp(op), rest);
      StepNext(op, Chars(rest), types);
      EndsStep(LastAt(x, POSTFIX), op, Chars(rest));
      SteadyAt(x, POSTFIX, Tok(TOp(op), rest), types);
    case Binary(op, l, r) => SteadyBinary(e, rest, types);
    case Cond(c, t, f) => SteadyCond(e, rest, types);
    case Index(b, i) => SteadyIndex(e, rest, types);
    case Call(f, args) => SteadyCall(e, rest, types);
  }

  lemma PrimSteady(name: string, rest: Line, types: set<string>)
    requires IsName(name) && Breaks(rest)
    ensures Steady(Tok(TPrim(name), rest), types) <==> Ends(TPrim(name), Chars(rest)) && Steady(rest, types)
  {
    NameNext(name, Chars(rest), types);
  }

  lemma {:induction false} ParensSteady(x: Expr, rest: Line, types: set<string>)
    requires Known(x) && Spellable(x, types) && TypeNames(types)
    ensures Steady(Tok(LParen, Written(x, Tok(RParen, rest))), types) <==> Apart(x) && Steady(rest, types)
    decreases x, 2
  {
    hide Breaks, IsName, TypeNames, IsNext, Known, Spellable, Apart, First, Last, Written;
    var last := Tok(RParen, rest);
    MarkBreaks(RParen, rest);
    MarkNext(RParen, Chars(rest), types);
    FirstWritten(x, last, types);
    OpensNoCast(Written(x, last), First(x), types);
    SteadyTree(x, last, types);
  }

  lemma {:induction false} SteadyAt(x: Expr, place: nat, rest: Line, types: set<string>)
    requires Known(x) && Spellable(x, types) && TypeNames(types) && Breaks(rest)
    ensures Steady(WrittenAt(x, place, rest), types) <==>
              Apart(x) && Ends(LastAt(x, place), Chars(rest)) && Steady(rest, types)
    decreases x, 3
  {
    hide Breaks, IsName, TypeNames, IsNext, Known, Spellable, Apart, First, Last, Written, Level;
    if Level(x) < place {
      ParensSteady(x, rest, types);
    } else {
      SteadyTree(x, rest, types);
    }
  }

  lemma EndsStep(t: Token, op: string, s: string)
    requires IsStep(op)
    ensures Ends(t, op + s) <==> !Absorbs(t, op)
  {
    assert (op + s)[0] == op[0];
  }

  lemma EndsTight(t: Token, op: string, s: string)
    requires IsTight(op)
    ensures Ends(t, op + s) <==> !Absorbs(t, op)
  {
    assert (op + s)[0] == op[0];
  }

  lemma SpacedSteady(t: Token, rest: Line, types: set<string>)
    requires t == Question || t == Colon || (t.TOp? && IsOperator(t.op))
    ensures Breaks(Spaced(t, rest)) && (Steady(Spaced(t, rest), types) <==> Steady(rest, types))
    ensures forall u :: Ends(u, Chars(Spaced(t, rest)))
  {
    hide IsNext;
    var last := Space(rest);
    assert Chars(last)[0] == ' ';
    if t.TOp? {
      SpacedNext(t.op, Chars(last), types);
    } else {
      MarkNext(t, Chars(last), types);
    }
    assert Steady(Tok(t, last), types) <==> Steady(last, types);
    assert Chars(Spaced(t, rest))[0] == ' ';
  }

  lemma {:induction false} SteadyBinary(e: Expr, rest: Line, types: set<string>)
    requires e.Binary? && Known(e) && Spellable(e, types) && TypeNames(types) && Breaks(rest)
    ensures Steady(Written(e, rest), types) <==> Apart(e) && Ends(Last(e), Chars(rest)) && Steady(rest, types)
    decreases e, 0, 0
  {
    hide Breaks, IsName, IsPrefix, IsStep, PrecedenceOf, Level, IsOperator, TypeNames, IsNext, Ends,
         Absorbs, Merges,
         Spaced, Steady, Chars, IsTight;
    var op, right := e.op, WrittenAt(e.right, Level(e), rest);
    OpBreaks(op, right);
    SteadyAt(e.right, Level(e), rest, types);
    SteadyAt(e.left, Level(e), WrittenOp(op, right), types);
    if IsTight(op) {
      FirstAtWritten(e.right, Level(e), rest, types);
      TightSteady(op, LastAt(e.left, Level(e)), FirstAt(e.right, Level(e)), right, types);
    } else {
      SpacedSteady(TOp(op), right, types);
    }
  }

  lemma TightSteady(op: string, last: Token, first: Token, right: Line, types: set<string>)
    requires IsTight(op) && BeginsWith(right, first, types)
    ensures Steady(Tok(TOp(op), right), types) <==> !Merges(op, first) && Steady(right, types)
    ensures Ends(last, Chars(Tok(TOp(op), right))) <==> !Absorbs(last, op)
  {
    hide IsNext, Absorbs, Merges, Ends;
    TightNext(op, first, Chars(right.more), types);
    EndsTight(last, op, Chars(right));
  }

  lemma {:induction false} SteadyCond(e: Expr, rest: Line, types: set<string>)
    requires e.Cond? && Known(e) && Spellable(e, types) && TypeNames(types) && Breaks(rest)
    ensures Steady(Written(e, rest), types) <==> Apart(e) && Ends(Last(e), Chars(rest)) && Steady(rest, types)
    decreases e, 0, 0
  {
    hide Breaks, IsName, TypeNames, IsNext, Ends, Spaced, Steady, Chars, WrittenAt;
    var last := WrittenAt(e.ifFalse, CONDITIONAL, rest);
    var middle := WrittenAt(e.ifTrue, CONDITIONAL, Spaced(Colon, last));
    SteadyAt(e.ifFalse, CONDITIONAL, rest, types);
    SpacedSteady(Colon, last, types);
    SteadyAt(e.ifTrue, CONDITIONAL, Spaced(Colon, last), types);
    SpacedSteady(Question, middle, types);
    SteadyAt(e.condition, CONDITIONAL, Spaced(Question, middle), types);
  }

  lemma MarkSteady(t: Token, rest: Line, types: set<string>)
    requires t == RParen || t == LBracket || t == RBracket
    ensures Breaks(Tok(t, rest)) && (Steady(Tok(t, rest), types) <==> Steady(rest, types))
    ensures forall u :: Ends(u, Chars(Tok(t, rest)))
  {
    hide IsNext;
    MarkNext(t, Chars(rest), types);
  }

  lemma {:induction false} SteadyIndex(e: Expr, rest: Line, types: set<string>)
    requires e.Index? && Known(e) && Spellable(e, types) && TypeNames(types) && Breaks(rest)
    ensures Steady(Written(e, rest), types) <==> Apart(e) && Ends(Last(e), Chars(rest)) && Steady(rest, types)
    decreases e, 0, 0
  {
    hide Breaks, IsName, TypeNames, IsNext, Ends, Steady, Chars, WrittenAt;
    var last := Tok(RBracket, rest);
    var inner := Written(e.index, last);
    MarkSteady(RBracket, rest, types);
    SteadyTree(e.index, last, types);
    MarkSteady(LBracket, inner, types);
    SteadyAt(e.base, POSTFIX, Tok(LBracket, inner), types);
    NotPrimEnds(Last(e), Chars(rest));
  }

  lemma NotPrimEnds(t: Token, s: string)
    ensures !t.TPrim? ==> Ends(t, s)
  {
  }

  lemma {:induction false} SteadyCall(e: Expr, rest: Line, types: set<string>)
    requires e.Call? && Known(e) && Spellable(e, types) && TypeNames(types) && Breaks(rest)
    ensures Steady(Written(e, rest), types) <==> Apart(e) && Ends(Last(e), Chars(rest)) && Steady(rest, types)
    decreases e, 0, 0
  {
    hide Breaks, IsName, TypeNames, IsNext, Ends, Steady, Chars, WrittenArgs;
    var inner := WrittenArgs(e.arguments, Tok(RParen, rest));
    SteadyArgs(e.arguments, rest, types);
    CallOpens(inner, types);
    SteadyTree(e.callee, Tok(LParen, inner), types);
    NotPrimEnds(Last(e), Chars(rest));
  }

  /** The parenthesis of a call. */
  lemma CallOpens(inner: Line, types: set<string>)
    requires IsNext(LParen, "(" + Chars(inner), types)
    ensures Breaks(Tok(LParen, inner)) && (Steady(Tok(LParen, inner), types) <==> Steady(inner, types))
    ensures forall u :: Ends(u, Chars(Tok(LParen, inner)))
  {
    hide IsNext;
  }

  lemma {:induction false} SteadyArgs(args: Args, rest: Line, types: set<string>)
    requires KnownArgs(args) && SpellableArgs(args, types) && TypeNames(types)
    ensures var inner := WrittenArgs(args, Tok(RParen, rest));
            (Steady(inner, types) <==> ApartArgs(args) && Steady(rest, types))
              && IsNext(LParen, "(" + Chars(inner), types)
    decreases args, 1
  {
    hide Breaks, IsName, TypeNames, IsNext, Ends, Steady, Chars, Written, First, Last;
    var last := Tok(RParen, rest);
    MarkSteady(RParen, rest, types);
    match args
    case NoArgs =>
      EmptyOpens(rest, types);
    case Arg(e, NoArgs) =>
      SteadyTree(e, last, types);
      FirstWritten(e, last, types);
      OpensNoCast(Written(e, last), First(e), types);
    case Arg(e, more) =>
      var comma := Tok(TOp(","), Space(WrittenArgs(more, last)));
      SteadyArgs(more, rest, types);
      CommaSteady(WrittenArgs(more, last), types);
      SteadyTree(e, comma, types);
      FirstWritten(e, comma, types);
      OpensNoCast(Written(e, comma), First(e), types);
  }

  lemma EmptyOpens(rest: Line, types: set<string>)
    requires TypeNames(types)
    ensures IsNext(LParen, "(" + Chars(Tok(RParen, rest)), types)
  {
    var s := Chars(Tok(RParen, rest));
    NoWordThere(s, types);
    ParenNext(s, types);
  }

  lemma CommaSteady(rest: Line, types: set<string>)
    ensures var comma := Tok(TOp(","), Space(rest));
            Breaks(comma) && (Steady(comma, types) <==> Steady(rest, types)) && forall u :: Ends(u, Chars(comma))
  {
    hide IsNext;
    SpacedNext(",", Chars(Space(rest)), types);
  }

  // ---------------------------------------------------------------- the exact condition

  /** The characters of an expression split into the tokens that were printed exactly if no
      two tokens printed without a space run together. */
  lemma SplitsExactly(e: Expr, types: set<string>)
    requires Known(e) && Spellable(e, types) && TypeNames(types)
    ensures Lex(Text(e), types) == Some(Print(e)) <==> Apart(e)
  {
    hide Lex, Chars, Tokens, Text, Print, Known, Spellable, TypeNames, Apart;
    WrittenIsPrinted(e, End);
    EndIsEmpty();
    assert Text(e) + "" == Text(e) && Print(e) + [] == Print(e);
    LexExact(Written(e, End), types);
    SteadyTree(e, End, types);
  }

  lemma EndIsEmpty()
    ensures Chars(End) == "" && Tokens(End) == [] && Breaks(End)
    ensures forall t :: Ends(t, "")
  {
  }
}
