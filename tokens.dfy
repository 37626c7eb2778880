/**
 * Tokens of a propositional-logic expression: the `Operation` enum, the
 * `Token` class hierarchy (here one datatype) and the character tokenizer
 * `Token.CharToToken` with its inverse `OperationToken.ToChar`.
 */
module Tokens {
  import opened Wrappers

  /** The operations, in the order of the source's `Operation` enum. */
  datatype Op = AND | OR | NOT | XOR | EQUAL | IMPL | LBRC | RBRC

  /** A variable occurrence (with its prefix-negation flag) or an operation. */
  datatype Token = Variable(letter: char, inverted: bool) | Operation(op: Op)

  /** The reasons the infix-to-postfix conversion fails. */
  datatype ParseError =
    | InvalidLetter(c: char)   // a character outside the alphabet
    | UnexpectedNot            // `!` where no negation may stand
    | NegatedBracket           // `(` while a negation is pending
    | MisplacedOperator        // a binary operator where an operand is expected
    | UnclosedBracket          // `(` still stacked at the end of the input

  predicate IsLetter(c: char) {
    'a' <= c <= 'z' || 'A' <= c <= 'Z'
  }

  /** The five operations that take two operands. */
  predicate IsBinary(op: Op) {
    op == AND || op == OR || op == XOR || op == EQUAL || op == IMPL
  }

  /** The eight operator symbols the tokenizer accepts. */
  const OperatorSymbols: string := "!&|^=@()"

  /**
   * The tokenizer: a letter is a (not yet inverted) variable, each of the
   * eight symbols is its operation, every other character is rejected.
   */
  function CharToToken(c: char): (r: Result<Token, ParseError>)
    ensures r.Ok? && r.value.Variable? <==> IsLetter(c)
    ensures r.Ok? && r.value.Variable? ==> r.value == Variable(c, false)
    ensures r.Ok? && r.value.Operation? <==> c in OperatorSymbols
    ensures r.Err? <==> !IsLetter(c) && c !in OperatorSymbols
    ensures r.Err? ==> r.error == InvalidLetter(c)
    ensures c == '(' ==> r == Ok(Operation(LBRC))
    ensures c == ')' ==> r == Ok(Operation(RBRC))
  {
    if IsLetter(c) then Ok(Variable(c, false))
    else
      match c
      case '!' => Ok(Operation(NOT))
      case '&' => Ok(Operation(AND))
      case '|' => Ok(Operation(OR))
      case '^' => Ok(Operation(XOR))
      case '=' => Ok(Operation(EQUAL))
      case '@' => Ok(Operation(IMPL))
      case '(' => Ok(Operation(LBRC))
      case ')' => Ok(Operation(RBRC))
      case _ => Err(InvalidLetter(c))
  }

  /**
   * The symbol of an operation; the brackets print as a blank. For every
   * operation but the brackets it is the character the tokenizer reads back
   * as that operation.
   */
  function ToChar(op: Op): (r: char)
    ensures op != LBRC && op != RBRC ==> CharToToken(r) == Ok(Operation(op))
    ensures op == LBRC || op == RBRC ==> r == ' ' && CharToToken(r).Err?
  {
    match op
    case AND => '&'
    case NOT => '!'
    case OR => '|'
    case XOR => '^'
    case IMPL => '@'
    case EQUAL => '='
    case _ => ' '
  }

  /** Every operator symbol is read as an operation that prints back as itself (brackets aside). */
  lemma SymbolRoundTrip(c: char)
    requires c in OperatorSymbols
    ensures CharToToken(c).Ok? && CharToToken(c).value.Operation?
    ensures var op := CharToToken(c).value.op; op == LBRC || op == RBRC || ToChar(op) == c
  {
  }
}
