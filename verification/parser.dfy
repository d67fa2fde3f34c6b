/**
 The precedence-climbing parser of parsemath: a token stream in, an AST or a
 parse error out.

 The source keeps a tokenizer (an iterator) and the current lookahead token in
 a mutable struct. Here the tokenizer is the sequence of tokens it has yet to
 yield, and every operation is a function from one parser state to the next.
 A failing operation also reports the state the parser was left in, which is
 what the source's `&mut self` caller would observe.
 */
module Parsing {
  import opened Tokens
  import opened Ast

  datatype ParseError =
    | InvalidOperator(msg: string)
    | UnableToParse(msg: string)

  /** `rest` is what the tokenizer will still yield; `current` is the lookahead,
      pulled from the tokenizer but not yet built into the tree. */
  datatype Parser = Parser(rest: seq<Token>, current: Token)

  /** The outcome of constructing a parser. */
  datatype Result<T> = Ok(value: T) | Err(error: ParseError)

  /** The outcome of one parsing step: a value and the state after it, or an
      error and the state the parser was left in. Failures propagate with `:-`. */
  datatype Parsed<T> = Parsed(value: T, next: Parser) | Failed(error: ParseError, at: Parser)
  {
    predicate IsFailure()
    {
      Failed?
    }

    function PropagateFailure<U>(): Parsed<U>
      requires Failed?
    {
      Failed(error, at)
    }

    function Extract(): (T, Parser)
      requires Parsed?
    {
      (value, next)
    }
  }

  /** The tokens not yet built into the tree: the lookahead, then the rest. */
  function Stream(p: Parser): seq<Token>
  {
    [p.current] + p.rest
  }

  /** `q` is a later state than `p`: at least one more token has been pulled
      from the tokenizer. */
  predicate Advanced(p: Parser, q: Parser)
  {
    |q.rest| < |p.rest|
  }

  predicate SuffixOf(a: seq<Token>, b: seq<Token>)
  {
    |a| <= |b| && b[|b| - |a|..] == a
  }

  /** `q`'s lookahead and rest are exactly what `p`'s tokenizer was still
      holding: `q` is reached from `p` by pulling tokens, and by nothing else. */
  predicate Follows(p: Parser, q: Parser)
  {
    SuffixOf(Stream(q), p.rest)
  }

  lemma SuffixTransitive(a: seq<Token>, b: seq<Token>, c: seq<Token>)
    requires SuffixOf(a, b) && SuffixOf(b, c)
    ensures SuffixOf(a, c)
  {
    assert c[|c| - |a|..] == c[|c| - |b|..][|b| - |a|..];
  }

  lemma FollowsTransitive(p: Parser, q: Parser, r: Parser)
    requires Follows(p, q) && Follows(q, r)
    ensures Follows(p, r)
  {
    assert SuffixOf(q.rest, Stream(q)) by {
      assert Stream(q)[|Stream(q)| - |q.rest|..] == q.rest;
    }
    SuffixTransitive(Stream(r), q.rest, Stream(q));
    SuffixTransitive(Stream(r), Stream(q), p.rest);
  }

  const InvalidCharacter := InvalidOperator("Invalid character")
  const UnableToParseError := UnableToParse("Unable to parse")

  /** Parser::new: pull the first token as the lookahead, or fail when the
      tokenizer yields nothing. */
  function New(tokens: seq<Token>): (r: Result<Parser>)
    ensures r.Err? <==> tokens == []
    ensures r.Err? ==> r.error == InvalidCharacter
    ensures r.Ok? ==> Stream(r.value) == tokens
  {
    if tokens == [] then Err(InvalidCharacter)
    else Ok(Parser(tokens[1..], tokens[0]))
  }

  /** Parser::parse: climb from the lowest precedence. */
  function Parse(p: Parser): (r: Parsed<Node>)
    ensures r == GenerateAst(p, DefaultZero)
    ensures r.Parsed? ==> Advanced(p, r.next)
    ensures r.Parsed? ==> !IsBinaryOperator(r.next.current)
  {
    GenerateAst(p, DefaultZero)
  }

  /** Parser::get_next_token: replace the lookahead by the tokenizer's next
      token; when the tokenizer is exhausted, fail and leave the state as it was. */
  function GetNextToken(p: Parser): (r: Parsed<()>)
    ensures r.Failed? <==> p.rest == []
    ensures r.Failed? ==> r.error == InvalidCharacter && r.at == p
    ensures r.Parsed? ==> Stream(r.next) == p.rest
  {
    if p.rest == [] then Failed(InvalidCharacter, p)
    else Parsed((), Parser(p.rest[1..], p.rest[0]))
  }

  /** Whether the folding loop of `generate_ast` runs once more: the
      lookahead binds tighter than the threshold and is not the end marker. */
  predicate Continues(t: Token, operPrec: OperPrec)
  {
    operPrec.Below(Prec(t)) && t != EOF
  }

  /** Parser::generate_ast: one operand, then fold operators while they bind
      tighter than `operPrec`. */
  function GenerateAst(p: Parser, operPrec: OperPrec): (r: Parsed<Node>)
    ensures r.Parsed? ==> Advanced(p, r.next)
    ensures r.Parsed? ==> !Continues(r.next.current, operPrec)
    decreases |p.rest|, 1
  {
    var (left, p1) :- ParseNumber(p);
    FoldOperators(p1, operPrec, left)
  }

  /** The `while` loop of generate_ast, with `left` the tree built so far.
      The source's line 55 reads `left.expr.clone()`, which names no variable
      in scope; the evident intent, passing `left_expr`, is what is modelled. */
  function FoldOperators(p: Parser, operPrec: OperPrec, left: Node): (r: Parsed<Node>)
    ensures r.Parsed? ==> r.next == p || Advanced(p, r.next)
    ensures r.Parsed? ==> !Continues(r.next.current, operPrec)
    ensures !Continues(p.current, operPrec) ==> r == Parsed(left, p)
    decreases |p.rest|, 1
  {
    if Continues(p.current, operPrec) then
      var (node, p1) :- ConvertTokenToNode(p, left);
      FoldOperators(p1, operPrec, node)
    else
      Parsed(left, p)
  }

  /** convert_token_to_node, whose body is not part of this model. Assumed
      behaviour: on a binary operator it consumes the operator, parses the
      right operand at the operator's own precedence, and returns the binary
      node; on any other lookahead it fails without consuming anything. Every
      success advances, which the folding loop's termination depends on. */
  function ConvertTokenToNode(p: Parser, left: Node): (r: Parsed<Node>)
    ensures r.Parsed? ==> Advanced(p, r.next)
    ensures r.Parsed? ==> IsBinaryOperator(p.current) && r.value.IsBinary()
    ensures r.Parsed? ==> OperatorOf(r.value) == p.current && r.value.left == left
    ensures !IsBinaryOperator(p.current) ==> r == Failed(InvalidOperator("Expected an operator"), p)
    decreases |p.rest|, 0
  {
    if !IsBinaryOperator(p.current) then Failed(InvalidOperator("Expected an operator"), p)
    else
      var (_, p1) :- GetNextToken(p);
      var (right, p2) :- GenerateAst(p1, Prec(p.current));
      Parsed(BinaryNode(p.current, left, right), p2)
  }

  /** check_paren, whose body is not part of this model. Assumed behaviour:
      on the expected lookahead it advances past it; otherwise it fails with
      UnableToParse without advancing. */
  function CheckParen(p: Parser, expected: Token): (r: Parsed<()>)
    ensures r.Parsed? <==> p.current == expected && p.rest != []
    ensures r.Parsed? ==> Stream(r.next) == p.rest
    ensures p.current != expected ==> r.Failed? && r.error.UnableToParse? && r.at == p
  {
    if p.current == expected then GetNextToken(p)
    else Failed(UnableToParse("Unexpected token"), p)
  }

  /** Parser::parse_number: one operand, chosen by the lookahead — a literal,
      a negation, or a parenthesised group, which an immediately following
      group multiplies. */
  function ParseNumber(p: Parser): (r: Parsed<Node>)
    ensures r.Parsed? ==> Advanced(p, r.next)
    ensures p.current.Num? ==>
              (p.rest == [] ==> r == Failed(InvalidCharacter, p)) &&
              (p.rest != [] ==> r.Parsed? && r.value == Number(p.current.v) && Stream(r.next) == p.rest)
    ensures p.current.Subtract? && r.Parsed? ==> r.value.Negative?
    ensures (p.current.Subtract? || p.current.LeftParen?) && p.rest == [] ==>
              r == Failed(InvalidCharacter, p)
    ensures !(p.current.Subtract? || p.current.Num? || p.current.LeftParen?) ==>
              r == Failed(UnableToParseError, p)
    decreases |p.rest|, 0
  {
    match p.current
    case Subtract =>
      var (_, p1) :- GetNextToken(p);
      var (operand, p2) :- GenerateAst(p1, OperPrec.Negative);
      Parsed(Node.Negative(operand), p2)
    case Num(v) =>
      var (_, p1) :- GetNextToken(p);
      Parsed(Number(v), p1)
    case LeftParen =>
      var (_, p1) :- GetNextToken(p);
      var (inner, p2) :- GenerateAst(p1, DefaultZero);
      var (_, p3) :- CheckParen(p2, RightParen);
      if p3.current == LeftParen then
        var (right, p4) :- GenerateAst(p3, MulDiv);
        Parsed(Node.Multiply(inner, right), p4)
      else
        Parsed(inner, p3)
    case _ =>
      Failed(UnableToParseError, p)
  }

  /** The parser moves through its input only by pulling tokens: after a
      successful generate_ast, the lookahead and the rest are what the
      tokenizer was still holding. */
  lemma {:induction false} GenerateAstFollows(p: Parser, operPrec: OperPrec)
    ensures GenerateAst(p, operPrec).Parsed? ==> Follows(p, GenerateAst(p, operPrec).next)
    decreases |p.rest|, 1
  {
    ParseNumberFollows(p);
    var r1 := ParseNumber(p);
    if r1.Parsed? {
      FoldOperatorsFollows(r1.next, operPrec, r1.value);
      var r := FoldOperators(r1.next, operPrec, r1.value);
      if r.Parsed? && r.next != r1.next {
        FollowsTransitive(p, r1.next, r.next);
      }
    }
  }

  lemma {:induction false} FoldOperatorsFollows(p: Parser, operPrec: OperPrec, left: Node)
    ensures var r := FoldOperators(p, operPrec, left);
            r.Parsed? ==> r.next == p || Follows(p, r.next)
    decreases |p.rest|, 1
  {
    if Continues(p.current, operPrec) {
      ConvertFollows(p, left);
      var c := ConvertTokenToNode(p, left);
      if c.Parsed? {
        FoldOperatorsFollows(c.next, operPrec, c.value);
        var r := FoldOperators(c.next, operPrec, c.value);
        if r.Parsed? && r.next != c.next {
          FollowsTransitive(p, c.next, r.next);
        }
      }
    }
  }

  lemma {:induction false} ConvertFollows(p: Parser, left: Node)
    ensures var r := ConvertTokenToNode(p, left);
            r.Parsed? ==> Follows(p, r.next)
    decreases |p.rest|, 0
  {
    if IsBinaryOperator(p.current) && p.rest != [] {
      var p1 := GetNextToken(p).next;
      assert Follows(p, p1);
      GenerateAstFollows(p1, Prec(p.current));
      var g := GenerateAst(p1, Prec(p.current));
      if g.Parsed? {
        FollowsTransitive(p, p1, g.next);
      }
    }
  }

  lemma {:induction false} ParseNumberFollows(p: Parser)
    ensures ParseNumber(p).Parsed? ==> Follows(p, ParseNumber(p).next)
    decreases |p.rest|, 0
  {
    if p.rest != [] && (p.current.Subtract? || p.current.LeftParen?) {
      var p1 := GetNextToken(p).next;
      assert Follows(p, p1);
      var prec := if p.current.Subtract? then OperPrec.Negative else DefaultZero;
      GenerateAstFollows(p1, prec);
      var g := GenerateAst(p1, prec);
      if g.Parsed? {
        FollowsTransitive(p, p1, g.next);
        if p.current.LeftParen? && g.next.current == RightParen && g.next.rest != [] {
          var p3 := GetNextToken(g.next).next;
          assert Follows(g.next, p3);
          FollowsTransitive(p, g.next, p3);
          if p3.current == LeftParen {
            GenerateAstFollows(p3, MulDiv);
            var m := GenerateAst(p3, MulDiv);
            if m.Parsed? {
              FollowsTransitive(p, p3, m.next);
            }
          }
        }
      }
    }
  }

  /** The folding loop only ever hands convert_token_to_node a binary
      operator, so that function's error branch is unreachable from
      generate_ast. */
  lemma FoldOnlyOnOperators(t: Token, operPrec: OperPrec)
    requires Continues(t, operPrec)
    ensures IsBinaryOperator(t) && t != EOF
  {
  }

  /** A minus sign in operand position: the operand is whatever generate_ast
      at the unary level yields after the sign, negated; its errors pass
      through unchanged. */
  lemma NegationOperand(p: Parser)
    requires p.current == Token.Subtract && p.rest != []
    ensures var g := GenerateAst(GetNextToken(p).next, OperPrec.Negative);
            ParseNumber(p) == if g.Parsed? then Parsed(Node.Negative(g.value), g.next) else g
  {
  }

  /** A group whose inner expression fails: the failure passes through
      unchanged, with no partial tree. */
  lemma GroupInnerFails(p: Parser)
    requires p.current == LeftParen && p.rest != []
    requires GenerateAst(GetNextToken(p).next, DefaultZero).Failed?
    ensures ParseNumber(p) == GenerateAst(GetNextToken(p).next, DefaultZero)
  {
  }

  /** A group whose inner expression is not followed by `)` fails with
      UnableToParse, at the token that should have closed it. */
  lemma GroupUnclosed(p: Parser, inner: Node, p2: Parser)
    requires p.current == LeftParen && p.rest != []
    requires GenerateAst(GetNextToken(p).next, DefaultZero) == Parsed(inner, p2)
    requires p2.current != RightParen
    ensures ParseNumber(p).Failed? && ParseNumber(p).error.UnableToParse?
    ensures ParseNumber(p).at == p2
  {
  }

  /** A closed group not followed by `(` is its inner expression, with the
      parser past the `)`. */
  lemma GroupClosed(p: Parser, inner: Node, p2: Parser)
    requires p.current == LeftParen && p.rest != []
    requires GenerateAst(GetNextToken(p).next, DefaultZero) == Parsed(inner, p2)
    requires p2.current == RightParen && p2.rest != [] && p2.rest[0] != LeftParen
    ensures ParseNumber(p) == Parsed(inner, GetNextToken(p2).next)
  {
  }

  /** A group whose `)` is the last token the tokenizer yields: advancing
      past it fails with InvalidOperator, at the `)`. */
  lemma GroupClosedAtExhaustion(p: Parser, inner: Node, p2: Parser)
    requires p.current == LeftParen && p.rest != []
    requires GenerateAst(GetNextToken(p).next, DefaultZero) == Parsed(inner, p2)
    requires p2.current == RightParen && p2.rest == []
    ensures ParseNumber(p) == Failed(InvalidCharacter, p2)
  {
  }

  /** Implicit multiplication: a closed group followed directly by `(` is
      multiplied by what generate_ast at the multiplicative level parses from
      that `(` on. */
  lemma GroupTimesGroup(p: Parser, inner: Node, p2: Parser)
    requires p.current == LeftParen && p.rest != []
    requires GenerateAst(GetNextToken(p).next, DefaultZero) == Parsed(inner, p2)
    requires p2.current == RightParen && p2.rest != [] && p2.rest[0] == LeftParen
    ensures var g := GenerateAst(GetNextToken(p2).next, MulDiv);
            ParseNumber(p) == if g.Parsed? then Parsed(Node.Multiply(inner, g.value), g.next) else g
  {
  }
}
