/** What the parser accepts, it accepts as it stands in the text. */
module ParserSound {
  import opened Operators
  import opened Expressions
  import opened Grammar
  import opened PrintParse

  /** The tree accounts for the tokens read, and fits the grammar at this level. */
  predicate Reads(n: nat, tokens: seq<Token>, p: Parsed) {
    tokens == Flat(p.e) + p.rest && Fitting(p.e) && Known(p.e) && Level(p.e) >= n
  }

  predicate ReadsArgs(tokens: seq<Token>, p: ParsedArgs) {
    tokens == FlatArgs(p.args) + ([RParen] + p.rest) && FittingArgs(p.args) && KnownArgs(p.args)
  }

  lemma Split(tokens: seq<Token>)
    requires tokens != []
    ensures tokens == [tokens[0]] + tokens[1..]
  {
  }

  lemma {:induction false} ParseSound(n: nat, tokens: seq<Token>)
    requires n <= POSTFIX && Parse(n, tokens).Some?
    ensures Reads(n, tokens, Parse(n, tokens).value)
    decreases |tokens|, PRIMARY - n
  {
    hide PrecedenceOf, IsPrefix, IsStep;
    if n >= POSTFIX {
      PrimarySound(tokens);
      var p := ParsePrimary(tokens).value;
      PostfixSound(p.e, p.rest);
    } else if n == UNARY {
      if tokens != [] && tokens[0].TOp? && IsPrefix(tokens[0].op) {
        ParseSound(CAST, tokens[1..]);
        Split(tokens);
        var p := Parse(CAST, tokens[1..]).value;
        Join([tokens[0]], Flat(p.e), p.rest);
      } else {
        ParseSound(POSTFIX, tokens);
      }
    } else if n == CAST {
      if tokens != [] && tokens[0].TCast? {
        ParseSound(CAST, tokens[1..]);
        Split(tokens);
        var p := Parse(CAST, tokens[1..]).value;
        Join([tokens[0]], Flat(p.e), p.rest);
      } else {
        ParseSound(UNARY, tokens);
      }
    } else {
      ParseSound(n + 1, tokens);
      var p := Parse(n + 1, tokens).value;
      if n == ASSIGNMENT {
        AssignmentSound(p.e, p.rest);
      } else if n == CONDITIONAL {
        ConditionalSound(p.e, p.rest);
      } else {
        BinarySound(n, p.e, p.rest);
      }
    }
  }

  lemma {:induction false} AssignmentSound(e: Expr, tokens: seq<Token>)
    requires Fitting(e) && Known(e) && Level(e) > ASSIGNMENT && ParseAssignment(e, tokens).Some?
    ensures Reads(ASSIGNMENT, Flat(e) + tokens, ParseAssignment(e, tokens).value)
    decreases |tokens|, PRIMARY + 1
  {
    hide PrecedenceOf, Parse;
    if IsBinaryAt(tokens, ASSIGNMENT) {
      ParseSound(ASSIGNMENT, tokens[1..]);
      Split(tokens);
      var p := Parse(ASSIGNMENT, tokens[1..]).value;
      Join([tokens[0]], Flat(p.e), p.rest);
      Join(Flat(e), [tokens[0]] + Flat(p.e), p.rest);
    }
  }

  lemma {:induction false} ConditionalSound(e: Expr, tokens: seq<Token>)
    requires Fitting(e) && Known(e) && Level(e) > CONDITIONAL && ParseConditional(e, tokens).Some?
    ensures Reads(CONDITIONAL, Flat(e) + tokens, ParseConditional(e, tokens).value)
    decreases |tokens|, PRIMARY + 1
  {
    hide PrecedenceOf, Parse;
    if tokens != [] && tokens[0] == Question {
      ParseSound(SEQUENCE, tokens[1..]);
      var t := Parse(SEQUENCE, tokens[1..]).value;
      ParseSound(CONDITIONAL, t.rest[1..]);
      var f := Parse(CONDITIONAL, t.rest[1..]).value;
      Split(tokens);
      Split(t.rest);
      CondTokens(Cond(e, t.e, f.e), f.rest);
      Join([Colon], Flat(f.e), f.rest);
    }
  }

  lemma {:induction false} BinarySound(n: nat, e: Expr, tokens: seq<Token>)
    requires n < POSTFIX && GroupsLeft(n) && Fitting(e) && Known(e) && Level(e) >= n && ParseBinary(n, e, tokens).Some?
    ensures Reads(n, Flat(e) + tokens, ParseBinary(n, e, tokens).value)
    decreases |tokens|, PRIMARY + 1
  {
    hide PrecedenceOf, Parse;
    if IsBinaryAt(tokens, n) {
      ParseSound(n + 1, tokens[1..]);
      Split(tokens);
      var p := Parse(n + 1, tokens[1..]).value;
      Join([tokens[0]], Flat(p.e), p.rest);
      Join(Flat(e), [tokens[0]] + Flat(p.e), p.rest);
      BinarySound(n, Binary(tokens[0].op, e, p.e), p.rest);
    }
  }

  /** The tokens of a postfix expression, grouped as the parser meets them. */
  lemma PostfixTokens(e: Expr, rest: seq<Token>)
    ensures e.Index? ==> Flat(e) + rest == Flat(e.base) + ([LBracket] + (Flat(e.index) + ([RBracket] + rest)))
    ensures e.Call? ==> Flat(e) + rest == Flat(e.callee) + ([LParen] + (FlatArgs(e.arguments) + ([RParen] + rest)))
    ensures e.Binary? ==> Flat(e) + rest == Flat(e.left) + ([TOp(e.op)] + (Flat(e.right) + rest))
    ensures e.Postfix? ==> Flat(e) + rest == Flat(e.operand) + ([TOp(e.op)] + rest)
  {
  }

  lemma {:induction false} PostfixSound(e: Expr, tokens: seq<Token>)
    requires Fitting(e) && Known(e) && Level(e) >= POSTFIX && ParsePostfix(e, tokens).Some?
    ensures Reads(POSTFIX, Flat(e) + tokens, ParsePostfix(e, tokens).value)
    decreases |tokens|, PRIMARY + 1
  {
    hide PrecedenceOf, Parse, ParseArgs, ParsePrimary, Flat;
    if tokens == [] {
    } else if tokens[0] == LBracket {
      ParseSound(SEQUENCE, tokens[1..]);
      var p := Parse(SEQUENCE, tokens[1..]).value;
      Split(tokens);
      Split(p.rest);
      PostfixTokens(Index(e, p.e), p.rest[1..]);
      PostfixSound(Index(e, p.e), p.rest[1..]);
    } else if tokens[0] == LParen {
      ArgsSound(tokens[1..]);
      var p := ParseArgs(tokens[1..]).value;
      Split(tokens);
      PostfixTokens(Call(e, p.args), p.rest);
      PostfixSound(Call(e, p.args), p.rest);
    } else if IsBinaryAt(tokens, POSTFIX) {
      PrimarySound(tokens[1..]);
      var p := ParsePrimary(tokens[1..]).value;
      Split(tokens);
      PostfixTokens(Binary(tokens[0].op, e, p.e), p.rest);
      PostfixSound(Binary(tokens[0].op, e, p.e), p.rest);
    } else if tokens[0].TOp? && IsStep(tokens[0].op) {
      Split(tokens);
      PostfixTokens(Postfix(tokens[0].op, e), tokens[1..]);
      PostfixSound(Postfix(tokens[0].op, e), tokens[1..]);
    }
  }

  lemma {:induction false} PrimarySound(tokens: seq<Token>)
    requires ParsePrimary(tokens).Some?
    ensures Reads(PRIMARY, tokens, ParsePrimary(tokens).value)
    decreases |tokens|, 0
  {
    hide PrecedenceOf, Parse;
    Split(tokens);
    if tokens[0] == LParen {
      ParseSound(SEQUENCE, tokens[1..]);
      var p := Parse(SEQUENCE, tokens[1..]).value;
      Split(p.rest);
      assert tokens == Flat(Brackets(p.e)) + p.rest[1..];
    }
  }

  lemma {:induction false} ArgsSound(tokens: seq<Token>)
    requires ParseArgs(tokens).Some?
    ensures ReadsArgs(tokens, ParseArgs(tokens).value)
    decreases |tokens|, PRIMARY + 2
  {
    hide PrecedenceOf, Parse, ParseArgList;
    if tokens != [] && tokens[0] == RParen {
      Split(tokens);
      assert tokens == [] + tokens;
    } else {
      ArgListSound(tokens);
    }
  }

  lemma {:induction false} ArgListSound(tokens: seq<Token>)
    requires ParseArgList(tokens).Some?
    ensures ReadsArgs(tokens, ParseArgList(tokens).value) && ParseArgList(tokens).value.args != NoArgs
    decreases |tokens|, PRIMARY + 1
  {
    hide PrecedenceOf, Parse;
    ParseSound(ASSIGNMENT, tokens);
    var p := Parse(ASSIGNMENT, tokens).value;
    Split(p.rest);
    if p.rest[0] == RParen {
      LastArgument(p.e);
    } else {
      ArgListSound(p.rest[1..]);
      var q := ParseArgList(p.rest[1..]).value;
      assert tokens == (Flat(p.e) + ([TOp(",")] + FlatArgs(q.args))) + ([RParen] + q.rest);
    }
  }

  lemma LastArgument(e: Expr)
    requires Fitting(e) && Known(e) && Level(e) >= ASSIGNMENT
    ensures FlatArgs(Arg(e, NoArgs)) == Flat(e) && FittingArgs(Arg(e, NoArgs)) && KnownArgs(Arg(e, NoArgs))
  {
    assert FittingArgs(NoArgs) && KnownArgs(NoArgs);
  }
}
