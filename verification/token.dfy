/**
 The lexical units the parser consumes, and the operator-precedence table.
 The tokenizer and the table belong to a `token` module that is not part of
 this model; what is written here is the interface the parser relies on.
 */
module Tokens {

  /** The numeric payload of a literal. The parser never computes with it, so
      it is kept opaque: all the parser needs is to copy and compare it. */
  type Value(==)

  datatype Token =
    | Add
    | Subtract
    | Multiply
    | Divide
    | Caret
    | LeftParen
    | RightParen
    | Num(v: Value)
    | EOF

  /** Operator-precedence levels, weakest first. The ordering is the
      declaration order, as a derived ordering on the source's enum would be. */
  datatype OperPrec = DefaultZero | AddSub | MulDiv | Power | Negative
  {
    function Rank(): nat
    {
      match this
      case DefaultZero => 0
      case AddSub => 1
      case MulDiv => 2
      case Power => 3
      case Negative => 4
    }

    /** `this < other` in the source's ordering. */
    predicate Below(other: OperPrec)
    {
      Rank() < other.Rank()
    }
  }

  /** The tokens that can stand between two operands. */
  predicate IsBinaryOperator(t: Token)
  {
    t.Add? || t.Subtract? || t.Multiply? || t.Divide? || t.Caret?
  }

  /** The precedence the lexer's table gives a token: every binary operator
      binds tighter than the starting level, every other token sits at the
      floor so that the folding loop stops on it, and no token carries the
      unary level, which only the parser itself asks for. */
  function Prec(t: Token): (r: OperPrec)
    ensures r != DefaultZero <==> IsBinaryOperator(t)
    ensures r != Negative
  {
    match t
    case Add => AddSub
    case Subtract => AddSub
    case Multiply => MulDiv
    case Divide => MulDiv
    case Caret => Power
    case _ => DefaultZero
  }
}
