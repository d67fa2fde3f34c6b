/**
 Concrete parses: how the parser groups short token sequences. The tokenizer
 is taken to end every well-formed input with the end marker. Where a result
 depends on convert_token_to_node, it rests on that function's assumed
 behaviour (right operand at the operator's own precedence).
 */
module Examples {
  import opened Tokens
  import opened Ast
  import opened Parsing
  import opened Rendering

  /** The tree `New` then `Parse` yield for `tokens`, or the first error. */
  function ParseAll(tokens: seq<Token>): (r: Result<Node>)
    ensures r.Ok? <==> New(tokens).Ok? && Parse(New(tokens).value).Parsed?
    ensures r.Ok? ==> Parse(New(tokens).value).value == r.value
    ensures New(tokens).Err? ==> r == Err(New(tokens).error)
    ensures New(tokens).Ok? && Parse(New(tokens).value).Failed? ==>
              r == Err(Parse(New(tokens).value).error)
  {
    match New(tokens)
    case Err(e) => Err(e)
    case Ok(p) =>
      match Parse(p)
      case Parsed(n, _) => Ok(n)
      case Failed(e, _) => Err(e)
  }

  lemma ParseAllOfRendering(e: Node)
    ensures ParseAll(Render(e) + [EOF]) == Ok(e)
  {
    RoundTrip(e);
  }

  /** A lone literal is a Number leaf. */
  lemma LoneNumber(a: Value)
    ensures ParseAll([Num(a), EOF]) == Ok(Number(a))
  {
    ParseAllOfRendering(Number(a));
  }

  /** `a op b` is the operator's node over the two literals, in order. */
  lemma SingleOperator(a: Value, op: Token, b: Value)
    requires IsBinaryOperator(op)
    ensures ParseAll([Num(a), op, Num(b), EOF]) == Ok(BinaryNode(op, Number(a), Number(b)))
  {
    var e := BinaryNode(op, Number(a), Number(b));
    assert OperatorOf(e) == op;
    assert Render(e) + [EOF] == [Num(a), op, Num(b), EOF];
    ParseAllOfRendering(e);
  }

  /** An empty token sequence is rejected as an invalid character. */
  lemma EmptyInput()
    ensures ParseAll([]) == Err(InvalidOperator("Invalid character"))
  {
  }

  /** An expression may not begin with an operator other than `-`. */
  lemma LeadingOperator(op: Token, a: Value)
    requires IsBinaryOperator(op) && op != Token.Subtract
    ensures ParseAll([op, Num(a), EOF]) == Err(UnableToParse("Unable to parse"))
  {
    assert ParseNumber(At([op, Num(a), EOF])) == Failed(UnableToParse("Unable to parse"), At([op, Num(a), EOF]));
  }

  /** A literal is a whole operand when the next token does not continue
      the folding loop at the threshold. */
  lemma NumberOperand(a: Value, t: seq<Token>, operPrec: OperPrec)
    requires t != [] && !Continues(t[0], operPrec)
    ensures GenerateAst(At([Num(a)] + t), operPrec) == Parsed(Number(a), At(t))
  {
    assert GetNextToken(At([Num(a)] + t)) == Parsed((), At(t));
  }

  /** Subtraction is left-associative: `a - b - c` is `(a - b) - c`. */
  lemma SubtractionGroupsLeft(a: Value, b: Value, c: Value)
    ensures ParseAll([Num(a), Token.Subtract, Num(b), Token.Subtract, Num(c), EOF])
            == Ok(Node.Subtract(Node.Subtract(Number(a), Number(b)), Number(c)))
  {
    var s := [Num(a), Token.Subtract, Num(b), Token.Subtract, Num(c), EOF];
    var ab := Node.Subtract(Number(a), Number(b));
    NumberOperand(a, s[1..], OperPrec.Negative);
    NumberOperand(b, s[3..], AddSub);
    ConvertStep(At(s[1..]), Number(a), Number(b), At(s[3..]));
    FoldTurn(At(s[1..]), DefaultZero, Number(a), ab, At(s[3..]));
    NumberOperand(c, s[5..], AddSub);
    ConvertStep(At(s[3..]), ab, Number(c), At(s[5..]));
    FoldTurn(At(s[3..]), DefaultZero, ab, Node.Subtract(ab, Number(c)), At(s[5..]));
    GenerateStep(At(s), DefaultZero, Number(a), At(s[1..]));
  }

  /** Under the assumed convert_token_to_node, which parses a right operand
      at the operator's own level, `^` groups to the left like the other
      operators: `a ^ b ^ c` is `(a ^ b) ^ c`. */
  lemma PowerGroupsLeft(a: Value, b: Value, c: Value)
    ensures ParseAll([Num(a), Caret, Num(b), Caret, Num(c), EOF])
            == Ok(Node.Power(Node.Power(Number(a), Number(b)), Number(c)))
  {
    var s := [Num(a), Caret, Num(b), Caret, Num(c), EOF];
    var ab := Node.Power(Number(a), Number(b));
    NumberOperand(a, s[1..], OperPrec.Negative);
    NumberOperand(b, s[3..], OperPrec.Power);
    ConvertStep(At(s[1..]), Number(a), Number(b), At(s[3..]));
    FoldTurn(At(s[1..]), DefaultZero, Number(a), ab, At(s[3..]));
    NumberOperand(c, s[5..], OperPrec.Power);
    ConvertStep(At(s[3..]), ab, Number(c), At(s[5..]));
    FoldTurn(At(s[3..]), DefaultZero, ab, Node.Power(ab, Number(c)), At(s[5..]));
    GenerateStep(At(s), DefaultZero, Number(a), At(s[1..]));
  }

  /** Multiplication binds tighter than addition: `a + b * c` is
      `a + (b * c)`. */
  lemma ProductInsideSum(a: Value, b: Value, c: Value)
    ensures ParseAll([Num(a), Token.Add, Num(b), Token.Multiply, Num(c), EOF])
            == Ok(Node.Add(Number(a), Node.Multiply(Number(b), Number(c))))
  {
    var s0 := [Num(a), Token.Add, Num(b), Token.Multiply, Num(c), EOF];
    var s1 := [Token.Add, Num(b), Token.Multiply, Num(c), EOF];
    var bc := Node.Multiply(Number(b), Number(c));
    ProductAsRightOperand(b, c);
    assert s1[1..] == [Num(b), Token.Multiply, Num(c), EOF];
    ConvertStep(At(s1), Number(a), bc, At([EOF]));
    FoldTurn(At(s1), DefaultZero, Number(a), Node.Add(Number(a), bc), At([EOF]));
    assert [Num(a)] + s1 == s0;
    NumberOperand(a, s1, OperPrec.Negative);
    GenerateStep(At(s0), DefaultZero, Number(a), At(s1));
  }

  /** After `+`, the right operand `b * c` is taken whole: `*` binds tighter
      than the additive threshold. */
  lemma ProductAsRightOperand(b: Value, c: Value)
    ensures GenerateAst(At([Num(b), Token.Multiply, Num(c), EOF]), AddSub)
            == Parsed(Node.Multiply(Number(b), Number(c)), At([EOF]))
  {
    var s2 := [Num(b), Token.Multiply, Num(c), EOF];
    var s3 := [Token.Multiply, Num(c), EOF];
    var bc := Node.Multiply(Number(b), Number(c));
    NumberOperand(c, [EOF], MulDiv);
    assert [Num(c)] + [EOF] == s3[1..];
    ConvertStep(At(s3), Number(b), Number(c), At([EOF]));
    FoldTurn(At(s3), AddSub, Number(b), bc, At([EOF]));
    assert [Num(b)] + s3 == s2;
    NumberOperand(b, s3, OperPrec.Negative);
    GenerateStep(At(s2), AddSub, Number(b), At(s3));
  }

  /** Unary minus takes only the operand after it: `-a ^ b` is
      `(-a) ^ b`, the power applying to the negation. */
  lemma NegationInsidePower(a: Value, b: Value)
    ensures ParseAll([Token.Subtract, Num(a), Caret, Num(b), EOF])
            == Ok(Node.Power(Node.Negative(Number(a)), Number(b)))
  {
    var s := [Token.Subtract, Num(a), Caret, Num(b), EOF];
    var na := Node.Negative(Number(a));
    NumberOperand(a, s[2..], OperPrec.Negative);
    NegationOperand(At(s));
    assert GetNextToken(At(s)).next == At(s[1..]);
    assert ParseNumber(At(s)) == Parsed(na, At(s[2..]));
    NumberOperand(b, s[4..], OperPrec.Power);
    ConvertStep(At(s[2..]), na, Number(b), At(s[4..]));
    FoldTurn(At(s[2..]), DefaultZero, na, Node.Power(na, Number(b)), At(s[4..]));
    GenerateStep(At(s), DefaultZero, na, At(s[2..]));
  }

  /** Implicit multiplication: `(a)(b)` is `a * b`. */
  lemma AdjacentGroupsMultiply(a: Value, b: Value)
    ensures ParseAll([LeftParen, Num(a), RightParen, LeftParen, Num(b), RightParen, EOF])
            == Ok(Node.Multiply(Number(a), Number(b)))
  {
    var s := [LeftParen, Num(a), RightParen, LeftParen, Num(b), RightParen, EOF];
    NumberOperand(a, s[2..], DefaultZero);
    assert GetNextToken(At(s)).next == At(s[1..]);
    NumberOperand(b, s[5..], DefaultZero);
    assert GetNextToken(At(s[3..])).next == At(s[4..]);
    assert GetNextToken(At(s[5..])).next == At(s[6..]);
    GroupClosed(At(s[3..]), Number(b), At(s[5..]));
    GenerateStep(At(s[3..]), MulDiv, Number(b), At(s[6..]));
    assert GetNextToken(At(s[2..])).next == At(s[3..]);
    GroupTimesGroup(At(s), Number(a), At(s[2..]));
    GenerateStep(At(s), DefaultZero, Node.Multiply(Number(a), Number(b)), At(s[6..]));
  }

  /** A group left open fails as unparsable: `(a + b` has no `)`. */
  lemma UnclosedGroupFails(a: Value, b: Value)
    ensures var r := ParseAll([LeftParen, Num(a), Token.Add, Num(b), EOF]);
            r.Err? && r.error.UnableToParse?
  {
    var s := [LeftParen, Num(a), Token.Add, Num(b), EOF];
    var sum := Node.Add(Number(a), Number(b));
    assert Render(sum) + [EOF] == s[1..];
    RenderParses(sum, [EOF]);
    assert GetNextToken(At(s)).next == At(s[1..]);
    GroupUnclosed(At(s), sum, At([EOF]));
  }
}
