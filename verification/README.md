# parsemath parser, modelled in Dafny

This project models the precedence-climbing parser of the `parsemath` crate.
The parser takes the token stream of an arithmetic expression and builds an
abstract syntax tree (`Node`) or stops with a `ParseError`.

- `token.dfy` (`Tokens`): the `Token` kinds, the `OperPrec` levels with their
  order, and the precedence table `Prec`. These are stand-ins for the crate's
  `token` module, which is not part of this model.
- `ast.dfy` (`Ast`): the `Node` tree. `BinaryNode` and `OperatorOf` map
  operator tokens to node kinds and back, and each undoes the other.
- `parser.dfy` (`Parsing`): `ParseError` and the parser state, plus
  `Parser::new`, `parse`, `get_next_token`, `generate_ast` (with its folding
  loop as `FoldOperators`) and `parse_number`. It also holds the two helpers
  the parser calls, `convert_token_to_node` and `check_paren`. Their bodies
  are not part of this model, so they appear as small functions with their
  behaviour stated as assumptions.
- `render.dfy` (`Rendering`): a renderer from trees to tokens that puts every
  compound operand in parentheses. It proves the round trip: for every tree,
  the rendered tokens plus the end marker parse back to that tree.
- `examples.dfy` (`Examples`): concrete parses that pin down grouping,
  precedence, implicit multiplication, unary minus and the error cases.

The parser state is `Parser(rest, current)`:

- `rest` is what the tokenizer has yet to yield.
- `current` is the lookahead.

Each operation is a pure function from one state to the next. A step returns
either `Parsed(value, next)` or `Failed(error, at)`. `at` is the state the
parser was left in, which is what the source's `&mut self` caller would see.
Errors therefore carry no partial tree. Termination is by the number of tokens
the tokenizer has yet to yield.

Assumed behaviour of the helpers whose bodies are not modelled:

- `ConvertTokenToNode`: when the lookahead is a binary operator, it consumes
  it, parses the right operand with `generate_ast` at that operator's own
  precedence, and returns the operator's node over the two operands. For any
  other lookahead it fails with `InvalidOperator` and consumes nothing. Each
  success advances, which the loop's termination needs.
- `CheckParen`: when the lookahead is the expected token, it behaves as
  `get_next_token`. Otherwise it fails with `UnableToParse` and does not
  advance.

Line 55 of `parser.rs` passes `left.expr.clone()`, which names no variable in
scope. The model passes `left_expr`, the evident intent.

Three behaviours of the code differ from what a reader of the grammar might
expect. The model follows the code in all three:

- `parse` does not check that the tokens after the expression are consumed.
  The model returns the final state, so trailing tokens are visible but never
  rejected.
- A missing `)` fails with `UnableToParse` only when the tokenizer still
  yields a token (normally the end marker). If the tokenizer runs dry first,
  `get_next_token` fails with `InvalidOperator`. The same happens when the
  tokenizer runs dry right after a `-` or `(` in operand position
  (`Parsing.ParseNumber`, `Parsing.GroupClosedAtExhaustion`).
- Under the assumed `convert_token_to_node`, `^` groups to the left like the
  other operators: `a ^ b ^ c` parses as `(a ^ b) ^ c`
  (`Examples.PowerGroupsLeft`).

## Model

| member | source | states |
|---|---|---|
| Ast.BinaryNode | chapter2/src/parsemath/parser.rs:55 | the node built for an operator token is a binary node over the given children, and `OperatorOf` gives that token back |
| Ast.BinaryNodeOfOperator | chapter2/src/parsemath/parser.rs:55 | rebuilding a binary node from its operator token and children gives the same node, the converse of `BinaryNode`'s contract |
| Tokens.Prec | chapter2/src/parsemath/parser.rs:50 | (assumed table) exactly the binary operators rank above the floor level, and no token has the unary level, so the loop stops on every non-operator |
| Parsing.New | chapter2/src/parsemath/parser.rs:20-30 | fails with InvalidOperator exactly when the tokenizer yields nothing; otherwise the lookahead is the first token and the rest is untouched |
| Parsing.Parse | chapter2/src/parsemath/parser.rs:32-34 | is generate_ast from DefaultZero; a successful parse has advanced and leaves a lookahead that is not a binary operator |
| Parsing.GetNextToken | chapter2/src/parsemath/parser.rs:38-45 | fails with InvalidOperator exactly when the tokenizer is exhausted, leaving the state unchanged; otherwise it consumes exactly one token, which becomes the lookahead |
| Parsing.GenerateAst | chapter2/src/parsemath/parser.rs:47-59 | a success has consumed at least one token, and its lookahead is EOF or does not bind tighter than the threshold |
| Parsing.FoldOperators | chapter2/src/parsemath/parser.rs:50-57 | the loop ends only when the lookahead is EOF or does not exceed the threshold; it never moves backwards; when the condition fails at once it returns the left tree unchanged |
| Parsing.ConvertTokenToNode | chapter2/src/parsemath/parser.rs:55 | (assumed helper) a success consumes the operator and yields that operator's node with the given left tree; on a non-operator it fails with InvalidOperator without consuming |
| Parsing.CheckParen | chapter2/src/parsemath/parser.rs:76 | (assumed helper) succeeds exactly when the lookahead is the expected token and another token follows, then consumes one token; on a mismatch it fails with UnableToParse where it stood |
| Parsing.ParseNumber | chapter2/src/parsemath/parser.rs:61-87 | every success consumes at least one token; a literal yields its Number and advances exactly one token; a minus yields a Negative; a `-`, `(` or literal with nothing after it in the tokenizer fails with InvalidOperator where it stood; any other non-operand token fails with UnableToParse and consumes nothing |
| Parsing.GenerateAstFollows | chapter2/src/parsemath/parser.rs:47-59 | after a successful generate_ast, the lookahead and the rest are exactly what the tokenizer was still holding: the parser moves only by pulling tokens |
| Parsing.FoldOperatorsFollows | chapter2/src/parsemath/parser.rs:50-57 | the folding loop either leaves the state as it was or moves it only by pulling tokens |
| Parsing.ConvertFollows | chapter2/src/parsemath/parser.rs:55 | (assumed helper) a successful fold step moves the state only by pulling tokens |
| Parsing.ParseNumberFollows | chapter2/src/parsemath/parser.rs:61-87 | a successful operand parse moves the state only by pulling tokens, in every branch including implicit multiplication |
| Parsing.FoldOnlyOnOperators | chapter2/src/parsemath/parser.rs:50-55 | (corollary of `Tokens.Prec`) whenever the loop body runs, the lookahead is a binary operator, so convert_token_to_node's error branch is unreachable from generate_ast |
| Parsing.NegationOperand | chapter2/src/parsemath/parser.rs:64-67 | a minus yields Negative of what generate_ast at the unary level parses after it, and that call's error passes through unchanged |
| Parsing.GroupInnerFails | chapter2/src/parsemath/parser.rs:73-75 | a failure inside a parenthesised group is returned unchanged |
| Parsing.GroupUnclosed | chapter2/src/parsemath/parser.rs:76 | a group whose expression is not followed by `)` fails with UnableToParse at that token |
| Parsing.GroupClosed | chapter2/src/parsemath/parser.rs:73-82 | a closed group not followed by `(` yields its inner tree, with the parser past the `)` |
| Parsing.GroupClosedAtExhaustion | chapter2/src/parsemath/parser.rs:76 | a group whose `)` is the last token the tokenizer yields fails with InvalidOperator at the `)`, because check_paren cannot advance |
| Parsing.GroupTimesGroup | chapter2/src/parsemath/parser.rs:77-79 | a closed group followed by `(` yields Multiply of the inner tree and what generate_ast at MulDiv parses from that `(`, with errors passed through |
| Rendering.AtomParses | chapter2/src/parsemath/parser.rs:61-87 | parse_number reads back any rendered operand, stopping at the token after it |
| Rendering.OperandParses | chapter2/src/parsemath/parser.rs:47-58 | generate_ast at any threshold reads back a rendered operand followed by a token that ends an expression |
| Rendering.RenderParses | chapter2/src/parsemath/parser.rs:47-87 | generate_ast from DefaultZero reads back any rendered tree and stops at the token after it |
| Rendering.NegationParses | chapter2/src/parsemath/parser.rs:64-67 | a rendered negation reads back as that Negative node |
| Rendering.BinaryParses | chapter2/src/parsemath/parser.rs:50-57 | a rendered binary node reads back as the same operator over the same operands |
| Rendering.ConvertStep | chapter2/src/parsemath/parser.rs:55 | (proof step: one unfolding) an operator whose right operand parses is folded into that operator's node |
| Rendering.FoldTurn | chapter2/src/parsemath/parser.rs:50-57 | (proof step: one unfolding) one turn of the loop replaces the left tree by the converted node and continues from the state after it |
| Rendering.GenerateStep | chapter2/src/parsemath/parser.rs:47-48 | (proof step: one unfolding) generate_ast is the loop started after the first operand |
| Rendering.RoundTrip | chapter2/src/parsemath/parser.rs:20-87 | for every tree, the rendered tokens plus EOF construct a parser whose parse returns that tree, with EOF as the lookahead and nothing left in the tokenizer |
| Examples.ParseAll | chapter2/src/parsemath/parser.rs:20-34 | succeeds exactly when construction and parse both succeed, returning the parsed tree; otherwise it returns the construction error or the parse error as is |
| Examples.ParseAllOfRendering | chapter2/src/parsemath/parser.rs:20-34 | constructing and parsing a rendered tree yields that tree |
| Examples.LoneNumber | chapter2/src/parsemath/parser.rs:69-72 | a lone literal parses to its Number leaf |
| Examples.SingleOperator | chapter2/src/parsemath/parser.rs:47-58 | `a op b` parses to the operator's node over Number(a) and Number(b), in order |
| Examples.EmptyInput | chapter2/src/parsemath/parser.rs:22-24 | an empty token sequence fails with InvalidOperator("Invalid character") |
| Examples.LeadingOperator | chapter2/src/parsemath/parser.rs:85 | an expression starting with an operator other than `-` fails with UnableToParse("Unable to parse") |
| Examples.NumberOperand | chapter2/src/parsemath/parser.rs:69-72 | a literal followed by a token that does not continue the loop is a complete operand |
| Examples.SubtractionGroupsLeft | chapter2/src/parsemath/parser.rs:50-57 | `a - b - c` parses as `(a - b) - c`; this rests on the assumed right-operand precedence of convert_token_to_node |
| Examples.ProductInsideSum | chapter2/src/parsemath/parser.rs:50-57 | `a + b * c` parses as `a + (b * c)`; this rests on the assumed right-operand precedence of convert_token_to_node |
| Examples.ProductAsRightOperand | chapter2/src/parsemath/parser.rs:50-57 | at the additive threshold, `b * c` is read whole, because `*` binds tighter; this rests on the assumed right-operand precedence of convert_token_to_node |
| Examples.PowerGroupsLeft | chapter2/src/parsemath/parser.rs:50-57 | `a ^ b ^ c` parses as `(a ^ b) ^ c`; this rests on the assumed right-operand precedence of convert_token_to_node |
| Examples.NegationInsidePower | chapter2/src/parsemath/parser.rs:64-67 | `-a ^ b` parses as `(-a) ^ b`, because the negation's operand is parsed at the highest level; the fold of `^` rests on the assumed convert_token_to_node |
| Examples.AdjacentGroupsMultiply | chapter2/src/parsemath/parser.rs:77-79 | `(a)(b)` parses as `a * b` |
| Examples.UnclosedGroupFails | chapter2/src/parsemath/parser.rs:73-76 | `(a + b` followed by EOF fails with UnableToParse |

## Left out

- Lexing: the tokenizer (`super::tokenizer`) is not part of this model. Its output is given as a finite `seq<Token>`.
- Numeric payload: the value inside `Num` is the opaque type `Value`. The parser only copies it and does no arithmetic on it.
- Precedence table: `OperPrec` and `get_oper_prec` live in the `token` module, which is not part of this model. `Tokens.Prec` assumes the usual table: `+ -` AddSub, `* /` MulDiv, `^` Power, every other token DefaultZero. It also assumes the level order is the declaration order.
- Parsing.ConvertTokenToNode: the real body is not part of this model. The right-operand precedence (the operator's own level) and the error message text are assumptions. Under that precedence every operator, `^` included, groups to the left (`Examples.PowerGroupsLeft`); if the real helper parses the right operand of `^` at a lower level, `^` would group to the right instead. The grouping examples `Examples.SubtractionGroupsLeft`, `Examples.ProductInsideSum` and `Examples.PowerGroupsLeft` rest on this assumption. `Rendering.RoundTrip` does not.
- Parsing.CheckParen: the real body is not part of this model. The mismatch message text is a placeholder.
- Trailing tokens: `parse` does not check that the input is fully consumed, so no "all input consumed" property is stated for arbitrary input. `Rendering.RoundTrip` shows that a rendered tree is read up to the end marker.
- Evaluation of the tree, `Display`/`fmt` formatting, and error-message rendering: none of these belong to the parser.
- Re-rendering without parentheses: the round trip covers the fully parenthesised rendering only. Printing with minimal parentheses belongs to no part of the source.
