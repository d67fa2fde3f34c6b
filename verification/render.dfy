/**
 Rendering a tree back into tokens, and the round trip through the parser:
 every tree, written with each compound operand in parentheses and closed by
 the end marker, parses back to itself with the end marker as the lookahead.
 */
module Rendering {
  import opened Tokens
  import opened Ast
  import opened Parsing

  /** An operand as written: a literal stands alone, anything else is
      parenthesised. */
  function Atom(e: Node): (s: seq<Token>)
    ensures |s| > 0
    decreases e, 1
  {
    if e.Number? then [Num(e.v)] else [LeftParen] + Render(e) + [RightParen]
  }

  /** A tree as tokens, every compound operand parenthesised. */
  function Render(e: Node): (s: seq<Token>)
    ensures |s| > 0
    decreases e, 0
  {
    match e
    case Number(v) => [Num(v)]
    case Negative(x) => [Token.Subtract] + Atom(x)
    case Add(l, r) => Atom(l) + [OperatorOf(e)] + Atom(r)
    case Subtract(l, r) => Atom(l) + [OperatorOf(e)] + Atom(r)
    case Multiply(l, r) => Atom(l) + [OperatorOf(e)] + Atom(r)
    case Divide(l, r) => Atom(l) + [OperatorOf(e)] + Atom(r)
    case Power(l, r) => Atom(l) + [OperatorOf(e)] + Atom(r)
  }

  /** The parser state whose lookahead and rest are `s`. */
  function At(s: seq<Token>): (p: Parser)
    requires s != []
    ensures Stream(p) == s
  {
    Parser(s[1..], s[0])
  }

  /** A token that may follow a complete expression without being absorbed
      into it: not an operator it would fold, not a `(` it would multiply. */
  predicate Ends(t: Token)
  {
    !IsBinaryOperator(t) && t != LeftParen
  }

  /** An operand followed by anything but `(` parses to its tree. */
  lemma {:induction false} AtomParses(e: Node, t: seq<Token>)
    requires t != [] && t[0] != LeftParen
    ensures ParseNumber(At(Atom(e) + t)) == Parsed(e, At(t))
    decreases e, 3
  {
    if e.Number? {
      assert At(Atom(e) + t) == Parser(t, Num(e.v));
      assert GetNextToken(Parser(t, Num(e.v))) == Parsed((), At(t));
    } else {
      var s := Atom(e) + t;
      var inner := Render(e) + ([RightParen] + t);
      assert s == [LeftParen] + inner;
      assert GetNextToken(At(s)).next == At(inner);
      RenderParses(e, [RightParen] + t);
      assert At([RightParen] + t) == Parser(t, RightParen);
      assert GetNextToken(Parser(t, RightParen)).next == At(t);
      GroupClosed(At(s), e, Parser(t, RightParen));
    }
  }

  /** An operand followed by a token that ends an expression is, at any
      threshold, a complete expression. */
  lemma {:induction false} OperandParses(e: Node, t: seq<Token>, operPrec: OperPrec)
    requires t != [] && Ends(t[0])
    ensures GenerateAst(At(Atom(e) + t), operPrec) == Parsed(e, At(t))
    decreases e, 4
  {
    AtomParses(e, t);
  }

  /** A rendered tree followed by a token that ends an expression parses,
      from the lowest threshold, to that tree, stopping at that token. */
  lemma {:induction false} RenderParses(e: Node, t: seq<Token>)
    requires t != [] && Ends(t[0])
    ensures GenerateAst(At(Render(e) + t), DefaultZero) == Parsed(e, At(t))
    decreases e, 2
  {
    if e.Number? {
      assert At(Render(e) + t) == Parser(t, Num(e.v));
    } else if e.Negative? {
      NegationParses(e, t);
    } else {
      BinaryParses(e, t);
    }
  }

  lemma {:induction false} NegationParses(e: Node, t: seq<Token>)
    requires e.Negative?
    requires t != [] && Ends(t[0])
    ensures GenerateAst(At(Render(e) + t), DefaultZero) == Parsed(e, At(t))
    decreases e, 0
  {
    var x := e.operand;
    var s := Render(e) + t;
    assert s == [Token.Subtract] + (Atom(x) + t);
    assert GetNextToken(At(s)) == Parsed((), At(Atom(x) + t));
    OperandParses(x, t, OperPrec.Negative);
    assert ParseNumber(At(s)) == Parsed(e, At(t));
  }

  lemma {:induction false} BinaryParses(e: Node, t: seq<Token>)
    requires e.IsBinary()
    requires t != [] && Ends(t[0])
    ensures GenerateAst(At(Render(e) + t), DefaultZero) == Parsed(e, At(t))
    decreases e, 1
  {
    var tail := [OperatorOf(e)] + (Atom(e.right) + t);
    BinaryTokens(e, t);
    LeftOperandParses(e.left, tail, DefaultZero);
    RightOperandParses(e, t);
    FoldTurn(At(tail), DefaultZero, e.left, e, At(t));
  }

  /** A rendered operand followed by anything but `(` starts generate_ast's
      loop with that operand as the left tree. */
  lemma {:induction false} LeftOperandParses(l: Node, tail: seq<Token>, operPrec: OperPrec)
    requires tail != [] && tail[0] != LeftParen
    ensures GenerateAst(At(Atom(l) + tail), operPrec) == FoldOperators(At(tail), operPrec, l)
    decreases l, 4
  {
    AtomParses(l, tail);
    GenerateStep(At(Atom(l) + tail), operPrec, l, At(tail));
  }

  lemma BinaryTokens(e: Node, t: seq<Token>)
    requires e.IsBinary()
    ensures Render(e) + t == Atom(e.left) + ([OperatorOf(e)] + (Atom(e.right) + t))
  {
    assert Render(e) == Atom(e.left) + [OperatorOf(e)] + Atom(e.right);
  }

  /** The operator of a rendered binary node, with its right operand after
      it, folds into that node. */
  lemma {:induction false} RightOperandParses(e: Node, t: seq<Token>)
    requires e.IsBinary()
    requires t != [] && Ends(t[0])
    ensures ConvertTokenToNode(At([OperatorOf(e)] + (Atom(e.right) + t)), e.left) == Parsed(e, At(t))
    decreases e, 0
  {
    var op := OperatorOf(e);
    var tail := [op] + (Atom(e.right) + t);
    assert At(tail) == Parser(Atom(e.right) + t, op);
    OperandParses(e.right, t, Prec(op));
    ConvertStep(At(tail), e.left, e.right, At(t));
    BinaryNodeOfOperator(e);
  }

  /** convert_token_to_node on an operator whose right operand parses. */
  lemma ConvertStep(p: Parser, left: Node, right: Node, q: Parser)
    requires IsBinaryOperator(p.current) && p.rest != []
    requires GenerateAst(At(p.rest), Prec(p.current)) == Parsed(right, q)
    ensures ConvertTokenToNode(p, left) == Parsed(BinaryNode(p.current, left, right), q)
  {
    assert GetNextToken(p) == Parsed((), At(p.rest));
  }

  /** One turn of the folding loop. */
  lemma FoldTurn(p: Parser, operPrec: OperPrec, left: Node, n: Node, q: Parser)
    requires Continues(p.current, operPrec)
    requires ConvertTokenToNode(p, left) == Parsed(n, q)
    ensures FoldOperators(p, operPrec, left) == FoldOperators(q, operPrec, n)
  {
  }

  lemma GenerateStep(p: Parser, operPrec: OperPrec, left: Node, q: Parser)
    requires ParseNumber(p) == Parsed(left, q)
    ensures GenerateAst(p, operPrec) == FoldOperators(q, operPrec, left)
  {
  }

  /** The round trip: the tokens of any tree, closed by the end marker,
      construct a parser whose parse yields that tree and leaves the end
      marker as the lookahead with nothing left in the tokenizer. */
  lemma RoundTrip(e: Node)
    ensures New(Render(e) + [EOF]).Ok?
    ensures Parse(New(Render(e) + [EOF]).value) == Parsed(e, Parser([], EOF))
  {
    RenderParses(e, [EOF]);
    assert At([EOF]) == Parser([], EOF);
  }
}
