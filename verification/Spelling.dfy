/** Printed expressions as characters, and how the characters split into tokens again: by
    longest match, as sections 6.4, 6.4.4.4, 6.4.5 and 6.4.8 of ISO/IEC 9899:1999 have it. */
module Spelling {
  import opened Wrappers
  import opened Operators
  import opened Expressions

  // ---------------------------------------------------------------- writing

  predicate IsTight(op: string) {
    op == "." || op == "->" || op == "+" || op == "-"
  }

  function Spelled(op: string): string {
    if IsTight(op) then op else " " + op + " "
  }

  function InParens(text: string, level: nat, place: nat): string {
    if level < place then "(" + text + ")" else text
  }

  /** The characters as they are written, with spaces around most binary operators but
      none behind prefix operators. */
  function Text(e: Expr): string {
    match e
    case Prim(name) => name
    case Brackets(x) => "(" + Text(x) + ")"
    case Unary(op, x) => op + InParens(Text(x), Level(x), UNARY)
    case Cast(t, _, x) => "(" + t + ")" + InParens(Text(x), Level(x), Level(e))
    case Postfix(op, x) => InParens(Text(x), Level(x), POSTFIX) + op
    case Binary(op, l, r) => InParens(Text(l), Level(l), Level(e)) + Spelled(op) + InParens(Text(r), Level(r), Level(e))
    case Cond(c, t, f) =>
      InParens(Text(c), Level(c), CONDITIONAL)
      + (" ? " + InParens(Text(t), Level(t), CONDITIONAL) + (" : " + InParens(Text(f), Level(f), CONDITIONAL)))
    case Index(b, i) => InParens(Text(b), Level(b), POSTFIX) + ("[" + Text(i) + "]")
    case Call(f, args) => Text(f) + ("(" + TextArgs(args) + ")")
  }

  function TextArgs(args: Args): string {
    match args
    case NoArgs => ""
    case Arg(e, NoArgs) => Text(e)
    case Arg(e, more) => Text(e) + (", " + TextArgs(more))
  }

  // ---------------------------------------------------------------- composite prefix operators

  datatype Prefix = PrefixOp(op: string) | PrefixCast(target: string)

  /** A unary operator of several parts, such as an address operator behind a cast. */
  function Composite(parts: seq<Prefix>, x: Expr): Expr {
    if parts == [] then x
    else
      match parts[0]
      case PrefixOp(op) => Unary(op, Composite(parts[1..], x))
      case PrefixCast(target) => Cast(target, true, Composite(parts[1..], x))
  }

  function SpellPrefix(p: Prefix): string {
    match p
    case PrefixOp(op) => op
    case PrefixCast(target) => "(" + target + ")"
  }

  function SpellParts(parts: seq<Prefix>): string {
    if parts == [] then "" else SpellPrefix(parts[0]) + SpellParts(parts[1..])
  }

  /** It is printed as one unary operator: its parts one behind the other, and then the
      operand, in parentheses if that binds less tightly than a unary expression. */
  lemma {:induction false} CompositeIsUnary(parts: seq<Prefix>, x: Expr)
    requires parts != []
    ensures Level(Composite(parts, x)) == UNARY
    ensures Text(Composite(parts, x)) == SpellParts(parts) + InParens(Text(x), Level(x), UNARY)
    decreases |parts|
  {
    hide PrecedenceOf;
    var more, operand := parts[1..], InParens(Text(x), Level(x), UNARY);
    assert Level(Composite(parts, x)) == UNARY;
    if more == [] {
      assert Composite(more, x) == x;
      assert SpellParts(parts) == SpellPrefix(parts[0]);
    } else {
      CompositeIsUnary(more, x);
      Regroup(SpellPrefix(parts[0]), SpellParts(more), operand);
    }
  }

  /** What is written, token by token and space by space. */
  datatype Line = End | Space(more: Line) | Tok(token: Token, more: Line)

  function Spell(t: Token): string {
    match t
    case TPrim(name) => name
    case TCast(target) => "(" + target + ")"
    case TOp(op) => op
    case LParen => "("
    case RParen => ")"
    case LBracket => "["
    case RBracket => "]"
    case Question => "?"
    case Colon => ":"
  }

  function Chars(l: Line): string {
    match l
    case End => ""
    case Space(more) => " " + Chars(more)
    case Tok(t, more) => Spell(t) + Chars(more)
  }

  function Tokens(l: Line): seq<Token> {
    match l
    case End => []
    case Space(more) => Tokens(more)
    case Tok(t, more) => [t] + Tokens(more)
  }

  /** The expression in front of what follows it. */
  function Written(e: Expr, rest: Line): Line
    decreases e, 0
  {
    match e
    case Prim(name) => Tok(TPrim(name), rest)
    case Brackets(x) => Tok(LParen, Written(x, Tok(RParen, rest)))
    case Unary(op, x) => Tok(TOp(op), WrittenAt(x, UNARY, rest))
    case Cast(t, _, x) => Tok(TCast(t), WrittenAt(x, Level(e), rest))
    case Postfix(op, x) => WrittenAt(x, POSTFIX, Tok(TOp(op), rest))
    case Binary(op, l, r) => WrittenAt(l, Level(e), WrittenOp(op, WrittenAt(r, Level(e), rest)))
    case Cond(c, t, f) =>
      WrittenAt(c, CONDITIONAL,
        Spaced(Question, WrittenAt(t, CONDITIONAL, Spaced(Colon, WrittenAt(f, CONDITIONAL, rest)))))
    case Index(b, i) => WrittenAt(b, POSTFIX, Tok(LBracket, Written(i, Tok(RBracket, rest))))
    case Call(f, args) => Written(f, Tok(LParen, WrittenArgs(args, Tok(RParen, rest))))
  }

  function WrittenAt(x: Expr, place: nat, rest: Line): Line
    decreases x, 1
  {
    if Level(x) < place then Tok(LParen, Written(x, Tok(RParen, rest))) else Written(x, rest)
  }

  function Spaced(t: Token, rest: Line): Line {
    Space(Tok(t, Space(rest)))
  }

  function WrittenOp(op: string, rest: Line): Line {
    if IsTight(op) then Tok(TOp(op), rest) else Spaced(TOp(op), rest)
  }

  function WrittenArgs(args: Args, rest: Line): Line
    decreases args, 0
  {
    match args
    case NoArgs => rest
    case Arg(e, NoArgs) => Written(e, rest)
    case Arg(e, more) => Written(e, Tok(TOp(","), Space(WrittenArgs(more, rest))))
  }

  lemma Regroup<T>(a: seq<T>, b: seq<T>, c: seq<T>)
    ensures (a + b) + c == a + (b + c)
  {
  }

  lemma OpIsPrinted(op: string, rest: Line)
    ensures Chars(WrittenOp(op, rest)) == Spelled(op) + Chars(rest)
    ensures Tokens(WrittenOp(op, rest)) == [TOp(op)] + Tokens(rest)
  {
    if !IsTight(op) {
      SpacedIsPrinted(TOp(op), rest);
    }
  }

  lemma Enclosed<T>(a: seq<T>, b: seq<T>, c: seq<T>, rest: seq<T>)
    ensures (a + b + c) + rest == a + (b + (c + rest))
  {
  }

  lemma EnclosedBehind<T>(f: seq<T>, a: seq<T>, b: seq<T>, c: seq<T>, rest: seq<T>)
    ensures (f + (a + b + c)) + rest == f + (a + (b + (c + rest)))
  {
    Enclosed(a, b, c, rest);
    Regroup(f, a + b + c, rest);
  }

  lemma Threefold<T>(c: seq<T>, q: seq<T>, t: seq<T>, k: seq<T>, f: seq<T>, rest: seq<T>)
    ensures (c + (q + t + (k + f))) + rest == c + (q + (t + (k + (f + rest))))
  {
    EnclosedBehind(c, q, t, k + f, rest);
    Regroup(k, f, rest);
  }

  lemma SpacedIsPrinted(t: Token, rest: Line)
    ensures Chars(Spaced(t, rest)) == " " + Spell(t) + " " + Chars(rest)
    ensures Tokens(Spaced(t, rest)) == [t] + Tokens(rest)
  {
    hide Spell;
    var last := Space(rest);
    assert Chars(last) == " " + Chars(rest) && Tokens(last) == Tokens(rest);
    OneIsPrinted(t, last);
    assert Chars(Spaced(t, rest)) == " " + (Spell(t) + (" " + Chars(rest)));
  }

  lemma OneIsPrinted(t: Token, rest: Line)
    ensures Chars(Tok(t, rest)) == Spell(t) + Chars(rest)
    ensures Tokens(Tok(t, rest)) == [t] + Tokens(rest)
  {
  }

  /** What is written are the printed characters and the printed tokens. */
  lemma {:induction false} WrittenIsPrinted(e: Expr, rest: Line)
    ensures Chars(Written(e, rest)) == Text(e) + Chars(rest)
    ensures Tokens(Written(e, rest)) == Print(e) + Tokens(rest)
    decreases e, 0
  {
    hide *;
    match e
    case Brackets(_) => BracketsArePrinted(e, rest);
    case Binary(_, _, _) => BinaryIsPrinted(e, rest);
    case Cond(_, _, _) => CondIsPrinted(e, rest);
    case Index(_, _) => IndexIsPrinted(e, rest);
    case Call(_, _) => CallIsPrinted(e, rest);
    case _ => PlainIsPrinted(e, rest);
  }

  lemma {:induction false} PlainIsPrinted(e: Expr, rest: Line)
    requires e.Prim? || e.Unary? || e.Cast? || e.Postfix?
    ensures Chars(Written(e, rest)) == Text(e) + Chars(rest)
    ensures Tokens(Written(e, rest)) == Print(e) + Tokens(rest)
    decreases e, 0, 0
  {
    hide Chars, Tokens, Level, WrittenAt, InParens, Parenthesized, Spelled;
    match e
    case Prim(name) =>
      OneIsPrinted(TPrim(name), rest);
    case Unary(op, x) =>
      WrittenAtIsPrinted(x, UNARY, rest);
      OneIsPrinted(TOp(op), WrittenAt(x, UNARY, rest));
      Regroup(op, InParens(Text(x), Level(x), UNARY), Chars(rest));
      Regroup([TOp(op)], Parenthesized(Print(x), Level(x), UNARY), Tokens(rest));
    case Cast(t, _, x) =>
      WrittenAtIsPrinted(x, Level(e), rest);
      OneIsPrinted(TCast(t), WrittenAt(x, Level(e), rest));
      Regroup("(" + t + ")", InParens(Text(x), Level(x), Level(e)), Chars(rest));
      Regroup([TCast(t)], Parenthesized(Print(x), Level(x), Level(e)), Tokens(rest));
    case Postfix(op, x) =>
      OneIsPrinted(TOp(op), rest);
      WrittenAtIsPrinted(x, POSTFIX, Tok(TOp(op), rest));
      Regroup(InParens(Text(x), Level(x), POSTFIX), op, Chars(rest));
      Regroup(Parenthesized(Print(x), Level(x), POSTFIX), [TOp(op)], Tokens(rest));
    case _ =>
  }

  lemma {:induction false} BracketsArePrinted(e: Expr, rest: Line)
    requires e.Brackets?
    ensures Chars(Written(e, rest)) == Text(e) + Chars(rest)
    ensures Tokens(Written(e, rest)) == Print(e) + Tokens(rest)
    decreases e, 0, 0
  {
    hide Chars, Tokens;
    var last := Tok(RParen, rest);
    OneIsPrinted(RParen, rest);
    WrittenIsPrinted(e.inner, last);
    OneIsPrinted(LParen, Written(e.inner, last));
    Enclosed("(", Text(e.inner), ")", Chars(rest));
    Enclosed([LParen], Print(e.inner), [RParen], Tokens(rest));
  }

  lemma {:induction false} IndexIsPrinted(e: Expr, rest: Line)
    requires e.Index?
    ensures Chars(Written(e, rest)) == Text(e) + Chars(rest)
    ensures Tokens(Written(e, rest)) == Print(e) + Tokens(rest)
    decreases e, 0, 0
  {
    hide Chars, Tokens, Level, WrittenAt, InParens, Parenthesized;
    var last := Tok(RBracket, rest);
    var inner := Written(e.index, last);
    OneIsPrinted(RBracket, rest);
    WrittenIsPrinted(e.index, last);
    OneIsPrinted(LBracket, inner);
    WrittenAtIsPrinted(e.base, POSTFIX, Tok(LBracket, inner));
    EnclosedBehind(InParens(Text(e.base), Level(e.base), POSTFIX), "[", Text(e.index), "]", Chars(rest));
    EnclosedBehind(Parenthesized(Print(e.base), Level(e.base), POSTFIX), [LBracket], Print(e.index), [RBracket],
      Tokens(rest));
  }

  lemma {:induction false} CallIsPrinted(e: Expr, rest: Line)
    requires e.Call?
    ensures Chars(Written(e, rest)) == Text(e) + Chars(rest)
    ensures Tokens(Written(e, rest)) == Print(e) + Tokens(rest)
    decreases e, 0, 0
  {
    hide Chars, Tokens, WrittenArgs;
    var last := Tok(RParen, rest);
    var inner := WrittenArgs(e.arguments, last);
    OneIsPrinted(RParen, rest);
    WrittenArgsArePrinted(e.arguments, last);
    OneIsPrinted(LParen, inner);
    WrittenIsPrinted(e.callee, Tok(LParen, inner));
    EnclosedBehind(Text(e.callee), "(", TextArgs(e.arguments), ")", Chars(rest));
    EnclosedBehind(Print(e.callee), [LParen], PrintArgs(e.arguments), [RParen], Tokens(rest));
  }

  lemma {:induction false} BinaryIsPrinted(e: Expr, rest: Line)
    requires e.Binary?
    ensures Chars(Written(e, rest)) == Text(e) + Chars(rest)
    ensures Tokens(Written(e, rest)) == Print(e) + Tokens(rest)
    decreases e, 0, 0
  {
    hide Chars, Tokens, Level, Spelled, WrittenOp, WrittenAt;
    var right := WrittenAt(e.right, Level(e), rest);
    WrittenAtIsPrinted(e.right, Level(e), rest);
    OpIsPrinted(e.op, right);
    WrittenAtIsPrinted(e.left, Level(e), WrittenOp(e.op, right));
  }

  lemma {:induction false} CondIsPrinted(e: Expr, rest: Line)
    requires e.Cond?
    ensures Chars(Written(e, rest)) == Text(e) + Chars(rest)
    ensures Tokens(Written(e, rest)) == Print(e) + Tokens(rest)
    decreases e, 0, 0
  {
    hide Chars, Tokens, Level, WrittenAt, Spaced, InParens, Parenthesized;
    var last := WrittenAt(e.ifFalse, CONDITIONAL, rest);
    WrittenAtIsPrinted(e.ifFalse, CONDITIONAL, rest);
    SpacedIsPrinted(Colon, last);
    var middle := WrittenAt(e.ifTrue, CONDITIONAL, Spaced(Colon, last));
    WrittenAtIsPrinted(e.ifTrue, CONDITIONAL, Spaced(Colon, last));
    SpacedIsPrinted(Question, middle);
    WrittenAtIsPrinted(e.condition, CONDITIONAL, Spaced(Question, middle));
    Threefold(InParens(Text(e.condition), Level(e.condition), CONDITIONAL),
              " ? ", InParens(Text(e.ifTrue), Level(e.ifTrue), CONDITIONAL),
              " : ", InParens(Text(e.ifFalse), Level(e.ifFalse), CONDITIONAL), Chars(rest));
    Threefold(Parenthesized(Print(e.condition), Level(e.condition), CONDITIONAL),
              [Question], Parenthesized(Print(e.ifTrue), Level(e.ifTrue), CONDITIONAL),
              [Colon], Parenthesized(Print(e.ifFalse), Level(e.ifFalse), CONDITIONAL), Tokens(rest));
  }

  lemma {:induction false} WrittenAtIsPrinted(x: Expr, place: nat, rest: Line)
    ensures Chars(WrittenAt(x, place, rest)) == InParens(Text(x), Level(x), place) + Chars(rest)
    ensures Tokens(WrittenAt(x, place, rest)) == Parenthesized(Print(x), Level(x), place) + Tokens(rest)
    decreases x, 1
  {
    hide Level, Text, Print, Chars, Tokens, Written;
    if Level(x) < place {
      var last := Tok(RParen, rest);
      OneIsPrinted(RParen, rest);
      WrittenIsPrinted(x, last);
      OneIsPrinted(LParen, Written(x, last));
      Enclosed("(", Text(x), ")", Chars(rest));
      Enclosed([LParen], Print(x), [RParen], Tokens(rest));
    } else {
      WrittenIsPrinted(x, rest);
    }
  }

  lemma {:induction false} WrittenArgsArePrinted(args: Args, rest: Line)
    ensures Chars(WrittenArgs(args, rest)) == TextArgs(args) + Chars(rest)
    ensures Tokens(WrittenArgs(args, rest)) == PrintArgs(args) + Tokens(rest)
    decreases args, 0
  {
    hide Chars, Tokens, Written, Text, Print;
    match args
    case NoArgs =>
    case Arg(e, NoArgs) => WrittenIsPrinted(e, rest);
    case Arg(e, more) =>
      WrittenArgsArePrinted(more, rest);
      CommaIsPrinted(WrittenArgs(more, rest));
      WrittenIsPrinted(e, Tok(TOp(","), Space(WrittenArgs(more, rest))));
  }

  lemma CommaIsPrinted(rest: Line)
    ensures Chars(Tok(TOp(","), Space(rest))) == ", " + Chars(rest)
    ensures Tokens(Tok(TOp(","), Space(rest))) == [TOp(",")] + Tokens(rest)
  {
    assert Chars(Space(rest)) == " " + Chars(rest);
  }

  // ---------------------------------------------------------------- reading

  predicate IsDigit(c: char) {
    '0' <= c <= '9'
  }

  predicate IsWordChar(c: char) {
    'a' <= c <= 'z' || 'A' <= c <= 'Z' || c == '_' || IsDigit(c)
  }

  predicate IsSign(c: char) {
    c == '+' || c == '-'
  }

  predicate IsExponent(c: char) {
    c == 'e' || c == 'E' || c == 'p' || c == 'P'
  }

  /** How many letters, digits and underscores come first. */
  function WordLength(s: string): (n: nat)
    ensures n <= |s|
  {
    if s == "" || !IsWordChar(s[0]) then 0 else 1 + WordLength(s[1..])
  }

  /** A number begins with a digit, or with a dot and a digit. */
  predicate StartsNumber(s: string) {
    s != "" && (IsDigit(s[0]) || (|s| > 1 && s[0] == '.' && IsDigit(s[1])))
  }

  /** How far a number goes on: a sign belongs to it behind an exponent letter. */
  function NumberLength(s: string): (n: nat)
    ensures n <= |s|
    ensures s != "" && (IsWordChar(s[0]) || s[0] == '.') ==> n > 0
  {
    if |s| >= 2 && IsExponent(s[0]) && IsSign(s[1]) then 2 + NumberLength(s[2..])
    else if s != "" && (IsWordChar(s[0]) || s[0] == '.') then 1 + NumberLength(s[1..])
    else 0
  }

  predicate IsQuote(c: char) {
    c == '"' || c == '\''
  }

  /** How far a constant goes on, its closing quote included; 0 if that is missing. What
      stands behind a backslash closes nothing. */
  function QuoteLength(s: string, quote: char): (n: nat)
    ensures n <= |s|
  {
    if s == "" then 0
    else if s[0] == quote then 1
    else
      var step := if s[0] == '\\' && |s| > 1 then 2 else 1;
      var n := QuoteLength(s[step..], quote);
      if n == 0 then 0 else step + n
  }

  predicate IsPair(a: char, b: char) {
    (b == '=' && (a == '*' || a == '/' || a == '%' || a == '+' || a == '-' || a == '&' || a == '^' || a == '|'
                  || a == '=' || a == '!' || a == '<' || a == '>'))
    || (a == b && (a == '|' || a == '&' || a == '<' || a == '>' || a == '+' || a == '-'))
    || (b == '?' && (a == '<' || a == '>'))
    || (a == '-' && b == '>')
  }

  predicate IsTriple(a: char, b: char, c: char) {
    (a == '<' || a == '>') && (b == a || b == '?') && c == '='
  }

  predicate IsSingle(a: char) {
    a == ',' || a == '=' || a == '|' || a == '^' || a == '&' || a == '.' || a == '<' || a == '>' || a == '+' || a == '-'
    || a == '*' || a == '/' || a == '%' || a == '~' || a == '!'
  }

  /** The operators that C has, and the minimum and maximum operators of GNU C. */
  predicate IsOperator(op: string) {
    (|op| == 1 && IsSingle(op[0])) || (|op| == 2 && IsPair(op[0], op[1]))
      || (|op| == 3 && IsTriple(op[0], op[1], op[2]))
  }

  /** These are the binary operators of the grammar and the prefix and step operators. */
  lemma OperatorsOfGrammar(op: string)
    ensures IsOperator(op) <==> IsBinaryOperator(op) || IsPrefix(op)
  {
    if |op| == 1 {
      assert op == [op[0]];
    } else if |op| == 2 {
      assert op == [op[0], op[1]];
    } else if |op| == 3 {
      assert op == [op[0], op[1], op[2]];
    }
    if IsOperator(op) && !IsPrefix(op) {
      OperatorProduction(op);
    }
  }

  lemma OperatorProduction(op: string)
    requires IsOperator(op) && !IsPrefix(op)
    ensures IsBinaryOperator(op)
  {
    if |op| == 1 {
      assert op == [op[0]];
    } else if |op| == 2 {
      assert op == [op[0], op[1]];
    } else {
      assert op == [op[0], op[1], op[2]];
    }
    assert Operates(0, op) || Operates(1, op) || Operates(3, op) || Operates(4, op) || Operates(5, op)
           || Operates(6, op)
      || Operates(7, op) || Operates(8, op) || Operates(9, op) || Operates(10, op) || Operates(11, op)
      || Operates(12, op) || Operates(13, op) || Operates(16, op);
  }

  /** The longest operator that comes first. */
  function OperatorLength(s: string): (n: nat)
    ensures n <= |s|
    ensures n > 0 ==> IsOperator(s[..n])
    ensures forall m :: n < m <= |s| ==> !IsOperator(s[..m])
  {
    if |s| >= 3 && IsTriple(s[0], s[1], s[2]) then 3
    else if |s| >= 2 && IsPair(s[0], s[1]) then 2
    else if |s| >= 1 && IsSingle(s[0]) then 1
    else 0
  }

  function Closing(s: string): (n: nat)
    ensures n <= |s|
    ensures n < |s| ==> s[n] == ')'
    ensures forall i :: 0 <= i < n ==> s[i] != ')'
  {
    if s == "" || s[0] == ')' then 0 else 1 + Closing(s[1..])
  }

  /** A parenthesis in front of the name of a type, which is not the prefix of a string,
      opens a cast. */
  predicate OpensCast(inner: string, types: set<string>) {
    var n := WordLength(inner);
    inner[..n] in types && Closing(inner) < |inner| && !(n < |inner| && IsQuote(inner[n]))
  }

  /** The string or character constant whose opening quote is at the given place. */
  function Quoted(s: string, k: nat): (t: Option<Token>)
    requires k < |s|
    ensures t.Some? ==> Spell(t.value) != "" && Spell(t.value) <= s && t.value.TPrim?
  {
    var n := QuoteLength(s[k + 1..], s[k]);
    if n > 0 then Some(TPrim(s[..k + 1 + n])) else None
  }

  /** The token that an opening parenthesis belongs to. */
  function Opening(s: string, types: set<string>): (t: Token)
    requires s != "" && s[0] == '('
    ensures Spell(t) != "" && Spell(t) <= s && !t.TPrim? && !t.TOp?
  {
    var inner := s[1..];
    if OpensCast(inner, types) then
      CastSpelled(s, Closing(inner));
      TCast(inner[..Closing(inner)])
    else LParen
  }

  lemma CastSpelled(s: string, n: nat)
    requires s != "" && s[0] == '(' && n + 1 < |s| && s[n + 1] == ')'
    ensures Spell(TCast(s[1..][..n])) == s[..n + 2]
  {
  }

  /** The first token; none where a comment would begin. */
  function Next(s: string, types: set<string>): (t: Option<Token>)
    requires s != ""
    ensures t.Some? ==> Spell(t.value) != "" && Spell(t.value) <= s
  {
    var c := s[0];
    if StartsNumber(s) then Some(TPrim(s[..NumberLength(s)]))
    else if IsQuote(c) then Quoted(s, 0)
    else if c == 'L' && |s| > 1 && IsQuote(s[1]) then Quoted(s, 1)
    else if IsWordChar(c) then Some(TPrim(s[..WordLength(s)]))
    else if c == '(' then Some(Opening(s, types))
    else if c == ')' then Some(RParen)
    else if c == '[' then Some(LBracket)
    else if c == ']' then Some(RBracket)
    else if c == '?' then Some(Question)
    else if c == ':' then Some(Colon)
    else if c == '/' && |s| > 1 && (s[1] == '*' || s[1] == '/') then None
    else if OperatorLength(s) > 0 then Some(TOp(s[..OperatorLength(s)]))
    else None
  }

  /** All tokens of a text, if it can be split into tokens. */
  function Lex(s: string, types: set<string>): Option<seq<Token>>
    decreases |s|
  {
    if s == "" then Some([])
    else if s[0] == ' ' then Lex(s[1..], types)
    else
      match Next(s, types)
      case None => None
      case Some(t) =>
        match Lex(s[|Spell(t)|..], types)
        case None => None
        case Some(more) => Some([t] + more)
  }

  // ---------------------------------------------------------------- one token at a time

  /** Every token is the one that is read where it stands. */
  predicate Steady(l: Line, types: set<string>) {
    match l
    case End => true
    case Space(more) => Steady(more, types)
    case Tok(t, more) => IsNext(t, Chars(l), types) && Steady(more, types)
  }

  predicate IsNext(t: Token, s: string, types: set<string>) {
    s != "" && s[0] != ' ' && Next(s, types) == Some(t)
  }

  /** No token that is read is empty or begins with a space. */
  lemma {:induction false} TokensVisible(s: string, t: Token, m: seq<Token>, types: set<string>)
    requires Lex(s, types) == Some([t] + m)
    ensures Spell(t) != "" && Spell(t)[0] != ' '
    decreases |s|
  {
    hide Next, Spell;
    assert ([t] + m)[0] == t;
    if s != "" && s[0] == ' ' {
      TokensVisible(s[1..], t, m, types);
    }
  }

  lemma FirstRead(s: string, t: Token, m: seq<Token>, types: set<string>)
    requires s != "" && s[0] != ' '
    ensures Next(s, types) == Some(t) ==> |Spell(t)| <= |s|
    ensures Lex(s, types) == Some([t] + m) <==> Next(s, types) == Some(t) && Lex(s[|Spell(t)|..], types) == Some(m)
  {
    hide Next, Spell;
    var lexed := Lex(s, types);
    if lexed.Some? {
      assert lexed.value[1..] == Lex(s[|Spell(lexed.value[0])|..], types).value;
    }
    assert ([t] + m)[0] == t && ([t] + m)[1..] == m;
  }

  /** A line is split into the tokens it was written with exactly if each is read where it
      stands. */
  lemma {:induction false} LexExact(l: Line, types: set<string>)
    ensures Lex(Chars(l), types) == Some(Tokens(l)) <==> Steady(l, types)
    decreases l
  {
    hide Next, Lex, Spell;
    match l
    case End =>
      LexNothing(types);
    case Space(more) =>
      LexExact(more, types);
      LexSpace(Chars(more), types);
    case Tok(t, more) =>
      LexExact(more, types);
      if Lex(Chars(l), types) == Some(Tokens(l)) {
        TokensVisible(Chars(l), t, Tokens(more), types);
      }
      if Spell(t) != "" && Spell(t)[0] != ' ' {
        assert Chars(l)[|Spell(t)|..] == Chars(more);
        assert Chars(l)[0] == Spell(t)[0];
        FirstRead(Chars(l), t, Tokens(more), types);
      }
  }

  lemma LexNothing(types: set<string>)
    ensures Lex("", types) == Some([])
  {
  }

  lemma LexSpace(s: string, types: set<string>)
    ensures Lex(" " + s, types) == Lex(s, types)
  {
    assert (" " + s)[1..] == s;
  }
}
