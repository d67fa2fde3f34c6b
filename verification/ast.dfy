/**
 The abstract syntax tree the parser builds. The source's `ast` module is not
 part of this model; its node kinds are the ones the parser constructs.
 */
module Ast {
  import opened Tokens

  /** Each interior node owns its children; a datatype value is a finite tree,
      so there is no sharing or cycle to rule out. */
  datatype Node =
    | Add(left: Node, right: Node)
    | Subtract(left: Node, right: Node)
    | Multiply(left: Node, right: Node)
    | Divide(left: Node, right: Node)
    | Power(left: Node, right: Node)
    | Negative(operand: Node)
    | Number(v: Value)
  {
    predicate IsBinary()
    {
      Add? || Subtract? || Multiply? || Divide? || Power?
    }
  }

  /** The binary node an operator token stands for. */
  function BinaryNode(op: Token, l: Node, r: Node): (n: Node)
    requires IsBinaryOperator(op)
    ensures n.IsBinary() && n.left == l && n.right == r
    ensures OperatorOf(n) == op
  {
    match op
    case Add => Node.Add(l, r)
    case Subtract => Node.Subtract(l, r)
    case Multiply => Node.Multiply(l, r)
    case Divide => Node.Divide(l, r)
    case Caret => Node.Power(l, r)
  }

  /** The operator token a binary node is written with. */
  function OperatorOf(n: Node): (op: Token)
    requires n.IsBinary()
    ensures IsBinaryOperator(op)
  {
    match n
    case Add(_, _) => Token.Add
    case Subtract(_, _) => Token.Subtract
    case Multiply(_, _) => Token.Multiply
    case Divide(_, _) => Token.Divide
    case Power(_, _) => Token.Caret
  }

  /** `OperatorOf` undoes `BinaryNode` (its contract states the converse):
      rebuilding a binary node from its operator and children gives it back. */
  lemma BinaryNodeOfOperator(n: Node)
    requires n.IsBinary()
    ensures BinaryNode(OperatorOf(n), n.left, n.right) == n
  {
  }
}
