/**
 * `RPN.Solve`: evaluating the postfix tokens for one assignment of the
 * variables, with a stack of booleans.
 *
 * Tokens are read in the order they were pushed by `ToRPN`. A variable
 * pushes its value (negated when inverted); an operation pops `x`, then
 * `y` (so `x` is the right operand), and pushes the result; the answer is
 * the value on top of the stack at the end. The exceptions `Solve` can
 * throw are the cases of `EvalError`.
 */
module Evaluator {
  import opened Wrappers
  import opened Tokens
  import opened Enumerator

  datatype EvalError =
    | UnknownVariable(letter: char)   // the dictionary has no such key
    | StackUnderflow                  // an operation finds fewer than two values
    | InvalidOperation(op: Op)        // an operation that takes no two operands
    | EmptyStack                      // nothing left to return at the end

  /**
   * The `switch` of `Solve`: `x` is the first value popped (the right
   * operand), `y` the second (the left operand).
   */
  function Apply(op: Op, x: bool, y: bool): (r: Option<bool>)
    ensures r.Some? <==> IsBinary(op)
    ensures op == AND ==> r == Some(y && x)
    ensures op == OR ==> r == Some(y || x)
    ensures op == XOR ==> r == Some(y != x)
    ensures op == EQUAL ==> r == Some(y == x)
    ensures op == IMPL ==> r == Some(x ==> y)
  {
    match op
    case AND => Some(x && y)
    case OR => Some(x || y)
    case XOR => Some((x && !y) || (!x && y))
    case EQUAL => Some((!x && !y) || (x && y))
    case IMPL => Some(!x || y)
    case _ => None
  }

  /** One token of the `foreach` loop of `Solve`; the stack's top is its last element. */
  function ExecToken(keys: seq<char>, values: seq<bool>, stack: seq<bool>, t: Token): Result<seq<bool>, EvalError>
    requires |keys| == |values|
  {
    match t
    case Variable(letter, inverted) =>
      (match Lookup(keys, values, letter)
       case None => Err(UnknownVariable(letter))
       case Some(b) => Ok(stack + [if inverted then !b else b]))
    case Operation(op) =>
      if |stack| < 2 then Err(StackUnderflow)
      else
        match Apply(op, stack[|stack| - 1], stack[|stack| - 2])
        case None => Err(InvalidOperation(op))
        case Some(b) => Ok(stack[..|stack| - 2] + [b])
  }

  /** The `foreach` loop of `Solve` from `stack` over `ts`; the first exception stops it. */
  function Exec(keys: seq<char>, values: seq<bool>, stack: seq<bool>, ts: seq<Token>): Result<seq<bool>, EvalError>
    requires |keys| == |values|
    decreases |ts|
  {
    if ts == [] then Ok(stack)
    else
      match ExecToken(keys, values, stack, ts[0])
      case Err(e) => Err(e)
      case Ok(stack') => Exec(keys, values, stack', ts[1..])
  }

  /** What `Solve` returns for the tokens `ts`: the top of the final stack, or the exception. */
  function Eval(keys: seq<char>, values: seq<bool>, ts: seq<Token>): Result<bool, EvalError>
    requires |keys| == |values|
  {
    match Exec(keys, values, [], ts)
    case Err(e) => Err(e)
    case Ok(stack) => if stack == [] then Err(EmptyStack) else Ok(stack[|stack| - 1])
  }

  /** `RPN.Solve`. */
  method Solve(table: VariableTable, rpn: seq<Token>) returns (r: Result<bool, EvalError>)
    requires table.Valid()
    ensures r == Eval(table.keys, table.values, rpn)
  {
    var stack: seq<bool> := [];
    var i := 0;
    while i < |rpn|
      invariant 0 <= i <= |rpn|
      invariant Exec(table.keys, table.values, stack, rpn[i..]) == Exec(table.keys, table.values, [], rpn)
    {
      var token := rpn[i];
      assert rpn[i..][0] == token && rpn[i..][1..] == rpn[i + 1..];
      match token {
        case Variable(letter, inverted) =>
          var value := Lookup(table.keys, table.values, letter);
          if value.None? {
            return Err(UnknownVariable(letter));
          }
          if inverted {
            stack := stack + [!value.value];
          } else {
            stack := stack + [value.value];
          }
        case Operation(op) =>
          ghost var before := stack;
          if |stack| == 0 {
            return Err(StackUnderflow);
          }
          var x := stack[|stack| - 1];
          stack := stack[..|stack| - 1];
          if |stack| == 0 {
            return Err(StackUnderflow);
          }
          var y := stack[|stack| - 1];
          stack := stack[..|stack| - 1];
          assert x == before[|before| - 1] && y == before[|before| - 2] && stack == before[..|before| - 2];
          var b := Apply(op, x, y);
          if b.None? {
            return Err(InvalidOperation(op));
          }
          stack := stack + [b.value];
      }
      i := i + 1;
    }
    assert rpn[i..] == [];
    if |stack| == 0 {
      return Err(EmptyStack);
    }
    return Ok(stack[|stack| - 1]);
  }

  /** Running the loop over `a + b` is running it over `a`, then over `b`. */
  lemma {:induction false} ExecAppend(keys: seq<char>, values: seq<bool>, stack: seq<bool>, a: seq<Token>, b: seq<Token>)
    requires |keys| == |values|
    ensures Exec(keys, values, stack, a + b) ==
      match Exec(keys, values, stack, a)
      case Err(e) => Err(e)
      case Ok(stack') => Exec(keys, values, stack', b)
    decreases |a|
  {
    if a == [] {
      assert a + b == b;
    } else {
      assert (a + b)[0] == a[0] && (a + b)[1..] == a[1..] + b;
      match ExecToken(keys, values, stack, a[0])
      case Err(_) =>
      case Ok(stack') => ExecAppend(keys, values, stack', a[1..], b);
    }
  }

  /* ------------------------------------------- the meaning of postfix code */

  /** An expression tree; a variable carries the negation `ToRPN` folded into it. */
  datatype Expr = Var(letter: char, inverted: bool) | Bin(op: Op, left: Expr, right: Expr)

  /** Every variable is a key and every inner node a two-operand operation. */
  predicate Closed(e: Expr, keys: seq<char>) {
    match e
    case Var(letter, _) => letter in keys
    case Bin(op, left, right) => IsBinary(op) && Closed(left, keys) && Closed(right, keys)
  }

  /** The postfix code of a tree: left operand, right operand, operation. */
  function Postfix(e: Expr): seq<Token> {
    match e
    case Var(letter, inverted) => [Variable(letter, inverted)]
    case Bin(op, left, right) => Postfix(left) + Postfix(right) + [Operation(op)]
  }

  /** The value of a tree under the assignment `keys`/`values`. */
  function Denote(e: Expr, keys: seq<char>, values: seq<bool>): bool
    requires |keys| == |values| && Closed(e, keys)
  {
    match e
    case Var(letter, inverted) => Lookup(keys, values, letter).value != inverted
    case Bin(op, left, right) =>
      var y, x := Denote(left, keys, values), Denote(right, keys, values);
      match op
      case AND => y && x
      case OR => y || x
      case XOR => y != x
      case EQUAL => y == x
      case IMPL => x ==> y
  }

  /** The code of a tree pushes exactly the tree's value on whatever stack it starts from. */
  lemma {:induction false} ExecPostfix(keys: seq<char>, values: seq<bool>, stack: seq<bool>, e: Expr)
    requires |keys| == |values| && Closed(e, keys)
    ensures Exec(keys, values, stack, Postfix(e)) == Ok(stack + [Denote(e, keys, values)])
    decreases e
  {
    match e
    case Var(letter, inverted) =>
      assert Postfix(e)[1..] == [];
    case Bin(op, left, right) =>
      var y, x := Denote(left, keys, values), Denote(right, keys, values);
      ExecPostfix(keys, values, stack, left);
      ExecPostfix(keys, values, stack + [y], right);
      ExecAppend(keys, values, stack, Postfix(left), Postfix(right));
      ExecAppend(keys, values, stack, Postfix(left) + Postfix(right), [Operation(op)]);
      var s := stack + [y] + [x];
      assert s[|s| - 1] == x && s[|s| - 2] == y && s[..|s| - 2] == stack;
      assert [Operation(op)][1..] == [];
  }

  /** `Solve` on the code of a tree returns the tree's value. */
  lemma EvalPostfix(keys: seq<char>, values: seq<bool>, e: Expr)
    requires |keys| == |values| && Closed(e, keys)
    ensures Eval(keys, values, Postfix(e)) == Ok(Denote(e, keys, values))
  {
    ExecPostfix(keys, values, [], e);
  }

  /** Code with nothing but known variables and binary operations can only fail on the stack. */
  lemma {:induction false} ExecFailsOnlyOnStack(keys: seq<char>, values: seq<bool>, stack: seq<bool>, ts: seq<Token>)
    requires |keys| == |values|
    requires forall k :: 0 <= k < |ts| ==> if ts[k].Variable? then ts[k].letter in keys else IsBinary(ts[k].op)
    ensures Exec(keys, values, stack, ts).Err? ==> Exec(keys, values, stack, ts).error == StackUnderflow
    decreases |ts|
  {
    if ts != [] {
      assert ts[0] == ts[0];
      match ExecToken(keys, values, stack, ts[0])
      case Err(_) =>
      case Ok(stack') =>
        assert forall k :: 0 <= k < |ts[1..]| ==> ts[1..][k] == ts[k + 1];
        ExecFailsOnlyOnStack(keys, values, stack', ts[1..]);
    }
  }

  /**
   * Once a value is on the stack, or a variable is still to come, a run
   * that does not throw ends with a value on the stack: a variable pushes
   * one, and an operation takes two and pushes one back.
   */
  lemma {:induction false} ExecLeavesValue(keys: seq<char>, values: seq<bool>, stack: seq<bool>, ts: seq<Token>)
    requires |keys| == |values|
    requires |stack| > 0 || exists k :: 0 <= k < |ts| && ts[k].Variable?
    ensures Exec(keys, values, stack, ts).Ok? ==> |Exec(keys, values, stack, ts).value| > 0
    decreases |ts|
  {
    if ts != [] {
      match ExecToken(keys, values, stack, ts[0])
      case Err(_) =>
      case Ok(stack') =>
        ExecLeavesValue(keys, values, stack', ts[1..]);
    }
  }

  /**
   * The code of `A@B` is false where `A` is false and `B` true: the first
   * value popped, `B`, is the antecedent, so `A@B` means `B` implies `A`.
   */
  lemma EvalImplicationReversed()
    ensures Eval("AB", [false, true], [Variable('A', false), Variable('B', false), Operation(IMPL)]) == Ok(false)
  {
    var ts := [Variable('A', false), Variable('B', false), Operation(IMPL)];
    assert Lookup("AB", [false, true], 'A') == Some(false) && Lookup("AB", [false, true], 'B') == Some(true);
    assert ts[1..] == [Variable('B', false), Operation(IMPL)];
    assert ts[1..][1..] == [Operation(IMPL)];
    assert ts[1..][1..][1..] == [];
    var s := [false, true];
    assert s[..0] == [];
  }

  /** The code `A &` of `&A` pops `A`, then finds no second operand. */
  lemma EvalLeadingOperator(keys: seq<char>, values: seq<bool>)
    requires |keys| == |values| && 'A' in keys
    ensures Eval(keys, values, [Variable('A', false), Operation(AND)]) == Err(StackUnderflow)
  {
    var ts := [Variable('A', false), Operation(AND)];
    assert ts[1..] == [Operation(AND)];
    assert ts[1..][1..] == [];
  }

  /** `AB` leaves two values; `Solve` answers with the top one and ignores the other. */
  lemma EvalAdjacentVariables(keys: seq<char>, values: seq<bool>)
    requires |keys| == |values| && 'A' in keys && 'B' in keys
    ensures Eval(keys, values, [Variable('A', false), Variable('B', false)]) == Ok(Lookup(keys, values, 'B').value)
  {
    var ts := [Variable('A', false), Variable('B', false)];
    assert ts[1..] == [Variable('B', false)];
    assert ts[1..][1..] == [];
  }
}
