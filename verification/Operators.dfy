/** The operators of C, production by production, from section 6.5 of ISO/IEC 9899:1999,
    and the minimum and maximum operators that GNU C++ has between AND and equality. */
module Operators {

  /** The operators that a production has between its operands, the productions counted from
      the one that binds least: comma expression, assignment, conditional (none), logical OR
      and AND, OR, exclusive OR and AND, minimum and maximum, equality, relational, shift,
      additive, multiplicative, cast and unary (none), postfix. */
  predicate Operates(production: nat, op: string) {
    match production
    case 0 => op == ","
    case 1 =>
      op == "=" || op == "*=" || op == "/=" || op == "%=" || op == "+=" || op == "-=" || op == "<<=" || op == ">>="
      || op == "&=" || op == "^=" || op == "|=" || op == "<?=" || op == ">?="
    case 3 => op == "||"
    case 4 => op == "&&"
    case 5 => op == "|"
    case 6 => op == "^"
    case 7 => op == "&"
    case 8 => op == "<?" || op == ">?"
    case 9 => op == "==" || op == "!="
    case 10 => op == "<" || op == ">" || op == "<=" || op == ">="
    case 11 => op == "<<" || op == ">>"
    case 12 => op == "+" || op == "-"
    case 13 => op == "*" || op == "/" || op == "%"
    case 16 => op == "." || op == "->"
    case _ => false
  }

  predicate IsBinaryOperator(op: string) {
    exists n :: 0 <= n <= 16 && Operates(n, op)
  }

  predicate IsStep(op: string) {
    op == "++" || op == "--"
  }

  predicate IsPrefix(op: string) {
    op == "&" || op == "*" || op == "+" || op == "-" || op == "~" || op == "!" || IsStep(op)
  }
}
