/**
 * `RPN.ToRPN`: the shunting-yard conversion of an infix expression into
 * postfix, with prefix `!` folded into the `inverted` flag of the next
 * variable. The output is the sequence of tokens in the order they are
 * pushed on the output stack, which is the order `RPN.Solve` reads them.
 *
 * The character loop of `ToRPN` is specified by `Run`, a fold of `Step`
 * over the characters; its three inner stack loops by `CloseBracket`,
 * `PopAbove` and `Flush`, each written the way the loop runs and each
 * characterised by a lemma (`TopBracket`, `Kept`, `FlushSpec`).
 */
module Parser {
  import opened Wrappers
  import opened Tokens

  /** `RPN.getPrior`: higher binds tighter; brackets are 0. */
  function Priority(op: Op): (p: nat)
    ensures p == 0 <==> op == LBRC || op == RBRC
    ensures IsBinary(op) ==> 1 <= p <= 4
    ensures op == NOT ==> p == 5
  {
    match op
    case NOT => 5
    case AND => 4
    case OR => 3
    case XOR => 3
    case IMPL => 2
    case EQUAL => 1
    case _ => 0
  }

  /** The precedence ladder: `=` loosest, then `@`, then `|` and `^` alike, then `&`. */
  lemma PriorityOrder()
    ensures Priority(EQUAL) < Priority(IMPL) < Priority(OR) == Priority(XOR) < Priority(AND)
  {
  }

  /** The tokens pushed to the output when the whole stack `s` is popped, top first. */
  function Unwind(s: seq<Op>): (r: seq<Token>)
    ensures |r| == |s|
  {
    if s == [] then [] else [Operation(s[|s| - 1])] + Unwind(s[..|s| - 1])
  }

  lemma UnwindPush(s: seq<Op>, top: Op)
    ensures Unwind(s + [top]) == [Operation(top)] + Unwind(s)
  {
    assert (s + [top])[..|s|] == s;
  }

  /** Moving the top of the stack to the output, then unwinding the rest, is unwinding the whole stack. */
  lemma UnwindShift(out: seq<Token>, s: seq<Op>, top: Op)
    ensures (out + [Operation(top)]) + Unwind(s) == out + Unwind(s + [top])
  {
    UnwindPush(s, top);
    AppendAssoc(out, [Operation(top)], Unwind(s));
  }

  /** The loop run for `)`, as it runs: pop to the output until a `(` is popped and dropped. */
  function CloseBracket(ops: seq<Op>, out: seq<Token>): (seq<Op>, seq<Token>)
    decreases |ops|
  {
    if ops == [] then (ops, out)
    else if ops[|ops| - 1] == LBRC then (ops[..|ops| - 1], out)
    else CloseBracket(ops[..|ops| - 1], out + [Operation(ops[|ops| - 1])])
  }

  /** The index of the topmost `(` on the operator stack, if any. */
  function TopBracket(ops: seq<Op>): (r: Option<nat>)
    ensures r.None? <==> LBRC !in ops
    ensures r.Some? ==> r.value < |ops| && ops[r.value] == LBRC && LBRC !in ops[r.value + 1..]
    decreases |ops|
  {
    if ops == [] then None
    else if ops[|ops| - 1] == LBRC then Some(|ops| - 1)
    else
      var r := TopBracket(ops[..|ops| - 1]);
      assert ops == ops[..|ops| - 1] + [ops[|ops| - 1]];
      r
  }

  /**
   * `)` keeps the operators below the topmost `(`, drops that `(` and moves
   * the operators above it to the output, top first. With no `(` on the
   * stack it empties the stack and raises no error.
   */
  lemma {:induction false} CloseBracketSpec(ops: seq<Op>, out: seq<Token>)
    ensures TopBracket(ops).None? ==> CloseBracket(ops, out) == ([], out + Unwind(ops))
    ensures TopBracket(ops).Some? ==>
      var m := TopBracket(ops).value;
      CloseBracket(ops, out) == (ops[..m], out + Unwind(ops[m + 1..]))
    decreases |ops|
  {
    if ops == [] {
      assert out + Unwind([]) == out;
    } else if ops[|ops| - 1] == LBRC {
      assert ops[|ops|..] == [];
      assert out + Unwind([]) == out;
    } else {
      var rest, top := ops[..|ops| - 1], ops[|ops| - 1];
      assert TopBracket(ops) == TopBracket(rest);
      if TopBracket(rest).None? {
        calc {
          CloseBracket(ops, out);
          CloseBracket(rest, out + [Operation(top)]);
          { CloseBracketSpec(rest, out + [Operation(top)]); }
          ([], (out + [Operation(top)]) + Unwind(rest));
          { UnwindShift(out, rest, top);
            assert ops == rest + [top]; }
          ([], out + Unwind(ops));
        }
      } else {
        var m := TopBracket(rest).value;
        calc {
          CloseBracket(ops, out);
          CloseBracket(rest, out + [Operation(top)]);
          { CloseBracketSpec(rest, out + [Operation(top)]); }
          (rest[..m], (out + [Operation(top)]) + Unwind(rest[m + 1..]));
          { UnwindShift(out, rest[m + 1..], top);
            assert ops[m + 1..] == rest[m + 1..] + [top];
            assert rest[..m] == ops[..m]; }
          (ops[..m], out + Unwind(ops[m + 1..]));
        }
      }
    }
  }

  /** The loop run before a binary operator `op` is stacked, as it runs. */
  function PopAbove(ops: seq<Op>, out: seq<Token>, op: Op): (seq<Op>, seq<Token>)
    decreases |ops|
  {
    if ops != [] && Priority(op) <= Priority(ops[|ops| - 1]) then
      PopAbove(ops[..|ops| - 1], out + [Operation(ops[|ops| - 1])], op)
    else (ops, out)
  }

  /** How many stacked operators the loop for `op` leaves on the stack. */
  function Kept(ops: seq<Op>, op: Op): (m: nat)
    ensures m <= |ops|
    decreases |ops|
  {
    if ops == [] then 0
    else if Priority(op) <= Priority(ops[|ops| - 1]) then Kept(ops[..|ops| - 1], op)
    else |ops|
  }

  /**
   * Precedence and associativity: the operators popped for `op` are exactly
   * the topmost run of operators whose priority is at least that of `op`;
   * equal priorities are popped, so operators of equal priority associate
   * to the left, and the run ends below any `(` (priority 0).
   */
  lemma {:induction false} KeptPopsHigher(ops: seq<Op>, op: Op)
    ensures forall k :: Kept(ops, op) <= k < |ops| ==> Priority(op) <= Priority(ops[k])
    ensures Kept(ops, op) == 0 || Priority(ops[Kept(ops, op) - 1]) < Priority(op)
    decreases |ops|
  {
    if ops != [] && Priority(op) <= Priority(ops[|ops| - 1]) {
      KeptPopsHigher(ops[..|ops| - 1], op);
    }
  }

  /** `PopAbove` leaves `Kept` operators and moves the others to the output, top first. */
  lemma {:induction false} PopAboveKept(ops: seq<Op>, out: seq<Token>, op: Op)
    ensures PopAbove(ops, out, op) == (ops[..Kept(ops, op)], out + Unwind(ops[Kept(ops, op)..]))
    decreases |ops|
  {
    if ops != [] && Priority(op) <= Priority(ops[|ops| - 1]) {
      var rest, top := ops[..|ops| - 1], ops[|ops| - 1];
      var m := Kept(rest, op);
      assert Kept(ops, op) == m;
      calc {
        PopAbove(ops, out, op);
        PopAbove(rest, out + [Operation(top)], op);
        { PopAboveKept(rest, out + [Operation(top)], op); }
        (rest[..m], (out + [Operation(top)]) + Unwind(rest[m..]));
        { UnwindShift(out, rest[m..], top);
          assert ops[m..] == rest[m..] + [top];
          assert rest[..m] == ops[..m]; }
        (ops[..m], out + Unwind(ops[m..]));
      }
    } else {
      assert Kept(ops, op) == |ops|;
      assert ops[..|ops|] == ops && ops[|ops|..] == [];
      assert out + Unwind([]) == out;
    }
  }

  /** The loop after the last character, as it runs: pop everything; a `(` is an error. */
  function Flush(ops: seq<Op>, out: seq<Token>): Result<seq<Token>, ParseError>
    decreases |ops|
  {
    if ops == [] then Ok(out)
    else if ops[|ops| - 1] == LBRC then Err(UnclosedBracket)
    else Flush(ops[..|ops| - 1], out + [Operation(ops[|ops| - 1])])
  }

  /** The final loop fails exactly when a `(` is left; otherwise it moves the whole stack, top first. */
  lemma {:induction false} FlushSpec(ops: seq<Op>, out: seq<Token>)
    ensures Flush(ops, out).Err? <==> LBRC in ops
    ensures Flush(ops, out).Err? ==> Flush(ops, out).error == UnclosedBracket
    ensures Flush(ops, out).Ok? ==> Flush(ops, out).value == out + Unwind(ops)
    decreases |ops|
  {
    if ops == [] {
      assert out + Unwind([]) == out;
    } else if ops[|ops| - 1] != LBRC {
      var rest, top := ops[..|ops| - 1], ops[|ops| - 1];
      FlushSpec(rest, out + [Operation(top)]);
      assert ops == rest + [top];
      UnwindShift(out, rest, top);
    }
  }

  /**
   * The local state of `ToRPN`: the operator stack (top last), the output
   * stack in push order, and the flags `MayNOT`, `MayOPERATOR` and `NOT`.
   */
  datatype ParserState = ParserState(
    ops: seq<Op>, out: seq<Token>, mayNot: bool, mayOperator: bool, pendingNot: bool)

  const Start := ParserState([], [], true, true, false)

  /** One iteration of the character loop of `ToRPN`. */
  function Step(st: ParserState, c: char): Result<ParserState, ParseError> {
    if c == ' ' then Ok(st)
    else
      match CharToToken(c)
      case Err(e) => Err(e)
      case Ok(Variable(letter, _)) =>
        Ok(ParserState(st.ops, st.out + [Variable(letter, st.pendingNot)], false, true, false))
      case Ok(Operation(op)) =>
        if op == NOT then
          if st.mayNot then Ok(st.(pendingNot := !st.pendingNot)) else Err(UnexpectedNot)
        else if op == LBRC then
          if st.pendingNot then Err(NegatedBracket)
          else Ok(st.(ops := st.ops + [LBRC], mayNot := true, mayOperator := false))
        else if op == RBRC then
          var (ops', out') := CloseBracket(st.ops, st.out);
          Ok(st.(ops := ops', out := out', mayNot := true, mayOperator := true))
        else if st.mayOperator then
          var (ops', out') := PopAbove(st.ops, st.out, op);
          Ok(st.(ops := ops' + [op], out := out', mayNot := true, mayOperator := false))
        else Err(MisplacedOperator)
  }

  /** The character loop of `ToRPN` run from state `st` over `s`; the first error stops it. */
  function Run(st: ParserState, s: string): Result<ParserState, ParseError>
    decreases |s|
  {
    if s == [] then Ok(st)
    else
      match Step(st, s[0])
      case Err(e) => Err(e)
      case Ok(st') => Run(st', s[1..])
  }

  /** What `ToRPN` returns for `expression`: the postfix tokens or the error it throws. */
  function Parse(expression: string): Result<seq<Token>, ParseError> {
    match Run(Start, expression)
    case Err(e) => Err(e)
    case Ok(st) => Flush(st.ops, st.out)
  }

  /** `RPN.ToRPN`, with its two stacks, three flags and three inner loops. */
  method ToRPN(expression: string) returns (r: Result<seq<Token>, ParseError>)
    ensures r == Parse(expression)
  {
    var ops: seq<Op> := [];
    var out: seq<Token> := [];
    var mayNot, mayOperator, pendingNot := true, true, false;
    var i := 0;
    while i < |expression|
      invariant 0 <= i <= |expression|
      invariant Run(ParserState(ops, out, mayNot, mayOperator, pendingNot), expression[i..])
             == Run(Start, expression)
    {
      var c := expression[i];
      assert expression[i..][0] == c && expression[i..][1..] == expression[i + 1..];
      if c != ' ' {
        var token := CharToToken(c);
        if token.Err? {
          return Err(token.error);
        }
        match token.value
        case Variable(letter, _) =>
          out := out + [Variable(letter, pendingNot)];
          mayNot := false;
          pendingNot := false;
          mayOperator := true;
        case Operation(op) =>
          if op == NOT {
            if mayNot {
              pendingNot := !pendingNot;
            } else {
              return Err(UnexpectedNot);
            }
          } else {
            mayNot := true;
            if op == LBRC {
              if pendingNot {
                return Err(NegatedBracket);
              }
              ops := ops + [op];
              mayOperator := false;
            } else if op == RBRC {
              ghost var before := (ops, out);
              while |ops| != 0
                invariant CloseBracket(ops, out) == CloseBracket(before.0, before.1)
              {
                var other := ops[|ops| - 1];
                ops := ops[..|ops| - 1];
                if other == LBRC {
                  break;
                }
                out := out + [Operation(other)];
              }
              mayOperator := true;
            } else if mayOperator {
              ghost var before := (ops, out);
              while |ops| != 0
                invariant PopAbove(ops, out, op) == PopAbove(before.0, before.1, op)
              {
                if Priority(op) <= Priority(ops[|ops| - 1]) {
                  out := out + [Operation(ops[|ops| - 1])];
                  ops := ops[..|ops| - 1];
                } else {
                  break;
                }
              }
              ops := ops + [op];
              mayOperator := false;
            } else {
              return Err(MisplacedOperator);
            }
          }
      }
      i := i + 1;
    }
    assert expression[i..] == [];
    ghost var last := (ops, out);
    while |ops| != 0
      invariant Flush(ops, out) == Flush(last.0, last.1)
    {
      var top := ops[|ops| - 1];
      ops := ops[..|ops| - 1];
      if top == LBRC {
        return Err(UnclosedBracket);
      }
      out := out + [Operation(top)];
    }
    return Ok(out);
  }

  /** Running the character loop over `a + b` is running it over `a`, then over `b`. */
  lemma {:induction false} RunAppend(st: ParserState, a: string, b: string)
    ensures Run(st, a + b) == match Run(st, a) case Err(e) => Err(e) case Ok(st') => Run(st', b)
    decreases |a|
  {
    if a != [] {
      assert (a + b)[0] == a[0] && (a + b)[1..] == a[1..] + b;
      match Step(st, a[0])
      case Err(_) =>
      case Ok(st') => RunAppend(st', a[1..], b);
    } else {
      assert a + b == b;
    }
  }

  /** A single `!` inverts the next variable. */
  lemma ParseNegation()
    ensures Parse("!A") == Ok([Variable('A', true)])
  {
    var e := "!A";
    var s0 := Start;
    var s1 := ParserState([], [], true, true, true);
    assert Step(s0, '!') == Ok(s1) by {
      assert Step(s0, '!').Ok?;
      assert Step(s0, '!').value.ops == [] && Step(s0, '!').value.out == [];
    }
    var s2 := ParserState([], [Variable('A', true)], false, true, false);
    assert Step(s1, 'A') == Ok(s2) by {
      assert Step(s1, 'A').Ok?;
      assert Step(s1, 'A').value.ops == [] && Step(s1, 'A').value.out == [Variable('A', true)];
    }
    assert Run(s0, e) == Ok(s2) by {
      assert e[0..][0] == '!' && e[0..][1..] == e[1..];
      assert e[1..][0] == 'A' && e[1..][1..] == e[2..];
      assert e[2..] == [];
      assert Run(s1, e[1..]) == Ok(s2);
      assert Run(s0, e[0..]) == Ok(s2);
      assert e[0..] == e;
    }
    assert Flush(s2.ops, s2.out) == Ok([Variable('A', true)]) by {
      assert Flush([], [Variable('A', true)]) == Ok([Variable('A', true)]);
    }
  }

  /** Two `!` cancel. */
  lemma ParseDoubleNegation()
    ensures Parse("!!A") == Ok([Variable('A', false)])
  {
    var e := "!!A";
    var s0 := Start;
    var s1 := ParserState([], [], true, true, true);
    assert Step(s0, '!') == Ok(s1) by {
      assert Step(s0, '!').Ok?;
      assert Step(s0, '!').value.ops == [] && Step(s0, '!').value.out == [];
    }
    var s2 := ParserState([], [], true, true, false);
    assert Step(s1, '!') == Ok(s2) by {
      assert Step(s1, '!').Ok?;
      assert Step(s1, '!').value.ops == [] && Step(s1, '!').value.out == [];
    }
    var s3 := ParserState([], [Variable('A', false)], false, true, false);
    assert Step(s2, 'A') == Ok(s3) by {
      assert Step(s2, 'A').Ok?;
      assert Step(s2, 'A').value.ops == [] && Step(s2, 'A').value.out == [Variable('A', false)];
    }
    assert Run(s0, e) == Ok(s3) by {
      assert e[0..][0] == '!' && e[0..][1..] == e[1..];
      assert e[1..][0] == '!' && e[1..][1..] == e[2..];
      assert e[2..][0] == 'A' && e[2..][1..] == e[3..];
      assert e[3..] == [];
      assert Run(s2, e[2..]) == Ok(s3);
      assert Run(s1, e[1..]) == Ok(s3);
      assert Run(s0, e[0..]) == Ok(s3);
      assert e[0..] == e;
    }
    assert Flush(s3.ops, s3.out) == Ok([Variable('A', false)]) by {
      assert Flush([], [Variable('A', false)]) == Ok([Variable('A', false)]);
    }
  }

  /** `A@B` becomes `A B @`: `A` is pushed first and popped second. */
  lemma ParseImplication()
    ensures Parse("A@B") == Ok([Variable('A', false), Variable('B', false), Operation(IMPL)])
  {
    var e := "A@B";
    var s0 := Start;
    var s1 := ParserState([], [Variable('A', false)], false, true, false);
    assert Step(s0, 'A') == Ok(s1) by {
      assert Step(s0, 'A').Ok?;
      assert Step(s0, 'A').value.ops == [] && Step(s0, 'A').value.out == [Variable('A', false)];
    }
    var s2 := ParserState([IMPL], [Variable('A', false)], true, false, false);
    assert Step(s1, '@') == Ok(s2) by {
      assert PopAbove([], [Variable('A', false)], IMPL) == ([], [Variable('A', false)]);
      assert Step(s1, '@').Ok?;
      assert Step(s1, '@').value.ops == [IMPL] && Step(s1, '@').value.out == [Variable('A', false)];
    }
    var s3 := ParserState([IMPL], [Variable('A', false), Variable('B', false)], false, true, false);
    assert Step(s2, 'B') == Ok(s3) by {
      assert Step(s2, 'B').Ok?;
      assert Step(s2, 'B').value.ops == [IMPL] && Step(s2, 'B').value.out == [Variable('A', false), Variable('B', false)];
    }
    assert Run(s0, e) == Ok(s3) by {
      assert e[0..][0] == 'A' && e[0..][1..] == e[1..];
      assert e[1..][0] == '@' && e[1..][1..] == e[2..];
      assert e[2..][0] == 'B' && e[2..][1..] == e[3..];
      assert e[3..] == [];
      assert Run(s2, e[2..]) == Ok(s3);
      assert Run(s1, e[1..]) == Ok(s3);
      assert Run(s0, e[0..]) == Ok(s3);
      assert e[0..] == e;
    }
    assert Flush(s3.ops, s3.out) == Ok([Variable('A', false), Variable('B', false), Operation(IMPL)]) by {
      assert [IMPL][..0] == [] && [Variable('A', false), Variable('B', false)] + [Operation(IMPL)] == [Variable('A', false), Variable('B', false), Operation(IMPL)];
      assert Flush([IMPL], [Variable('A', false), Variable('B', false)]) == Flush([], [Variable('A', false), Variable('B', false), Operation(IMPL)]);
      assert Flush([], [Variable('A', false), Variable('B', false), Operation(IMPL)]) == Ok([Variable('A', false), Variable('B', false), Operation(IMPL)]);
    }
  }

  /** A binary operator right after another is rejected. */
  lemma ParseDoubleOperator()
    ensures Parse("A&&B") == Err(MisplacedOperator)
  {
    var e := "A&&B";
    var s0 := Start;
    var s1 := ParserState([], [Variable('A', false)], false, true, false);
    assert Step(s0, 'A') == Ok(s1) by {
      assert Step(s0, 'A').Ok?;
      assert Step(s0, 'A').value.ops == [] && Step(s0, 'A').value.out == [Variable('A', false)];
    }
    var s2 := ParserState([AND], [Variable('A', false)], true, false, false);
    assert Step(s1, '&') == Ok(s2) by {
      assert PopAbove([], [Variable('A', false)], AND) == ([], [Variable('A', false)]);
      assert Step(s1, '&').Ok?;
      assert Step(s1, '&').value.ops == [AND] && Step(s1, '&').value.out == [Variable('A', false)];
    }
    assert Step(s2, '&') == Err(MisplacedOperator);
    assert Run(s0, e) == Err(MisplacedOperator) by {
      assert e[0..][0] == 'A' && e[0..][1..] == e[1..];
      assert e[1..][0] == '&' && e[1..][1..] == e[2..];
      assert e[2..][0] == '&' && e[2..][1..] == e[3..];
      assert Run(s2, e[2..]) == Err(MisplacedOperator);
      assert Run(s1, e[1..]) == Err(MisplacedOperator);
      assert Run(s0, e[0..]) == Err(MisplacedOperator);
      assert e[0..] == e;
    }
  }

  /** `!` before `(` is rejected. */
  lemma ParseNegatedBracket()
    ensures Parse("!(A&B)") == Err(NegatedBracket)
  {
    var e := "!(A&B)";
    var s0 := Start;
    var s1 := ParserState([], [], true, true, true);
    assert Step(s0, '!') == Ok(s1) by {
      assert Step(s0, '!').Ok?;
      assert Step(s0, '!').value.ops == [] && Step(s0, '!').value.out == [];
    }
    assert Step(s1, '(') == Err(NegatedBracket);
    assert Run(s0, e) == Err(NegatedBracket) by {
      assert e[0..][0] == '!' && e[0..][1..] == e[1..];
      assert e[1..][0] == '(' && e[1..][1..] == e[2..];
      assert Run(s1, e[1..]) == Err(NegatedBracket);
      assert Run(s0, e[0..]) == Err(NegatedBracket);
      assert e[0..] == e;
    }
  }

  /** A `(` left open is rejected at the end of the input. */
  lemma ParseUnclosedBracket()
    ensures Parse("(A") == Err(UnclosedBracket)
  {
    var e := "(A";
    var s0 := Start;
    var s1 := ParserState([LBRC], [], true, false, false);
    assert Step(s0, '(') == Ok(s1) by {
      assert Step(s0, '(').Ok?;
      assert Step(s0, '(').value.ops == [LBRC] && Step(s0, '(').value.out == [];
    }
    var s2 := ParserState([LBRC], [Variable('A', false)], false, true, false);
    assert Step(s1, 'A') == Ok(s2) by {
      assert Step(s1, 'A').Ok?;
      assert Step(s1, 'A').value.ops == [LBRC] && Step(s1, 'A').value.out == [Variable('A', false)];
    }
    assert Run(s0, e) == Ok(s2) by {
      assert e[0..][0] == '(' && e[0..][1..] == e[1..];
      assert e[1..][0] == 'A' && e[1..][1..] == e[2..];
      assert e[2..] == [];
      assert Run(s1, e[1..]) == Ok(s2);
      assert Run(s0, e[0..]) == Ok(s2);
      assert e[0..] == e;
    }
    assert Flush(s2.ops, s2.out) == Err(UnclosedBracket) by {
      assert Flush([LBRC], [Variable('A', false)]) == Err(UnclosedBracket);
    }
  }

  /** A `)` without a `(` is accepted: the loop for `)` just empties the stack. */
  lemma ParseStrayBracket()
    ensures Parse(")A") == Ok([Variable('A', false)])
  {
    var e := ")A";
    var s0 := Start;
    var s1 := ParserState([], [], true, true, false);
    assert Step(s0, ')') == Ok(s1) by {
      assert CloseBracket([], []) == ([], []);
      assert Step(s0, ')').Ok?;
      assert Step(s0, ')').value.ops == [] && Step(s0, ')').value.out == [];
    }
    var s2 := ParserState([], [Variable('A', false)], false, true, false);
    assert Step(s1, 'A') == Ok(s2) by {
      assert Step(s1, 'A').Ok?;
      assert Step(s1, 'A').value.ops == [] && Step(s1, 'A').value.out == [Variable('A', false)];
    }
    assert Run(s0, e) == Ok(s2) by {
      assert e[0..][0] == ')' && e[0..][1..] == e[1..];
      assert e[1..][0] == 'A' && e[1..][1..] == e[2..];
      assert e[2..] == [];
      assert Run(s1, e[1..]) == Ok(s2);
      assert Run(s0, e[0..]) == Ok(s2);
      assert e[0..] == e;
    }
    assert Flush(s2.ops, s2.out) == Ok([Variable('A', false)]) by {
      assert Flush([], [Variable('A', false)]) == Ok([Variable('A', false)]);
    }
  }

  /** A leading binary operator passes the parser, since an operator is allowed at the start. */
  lemma ParseLeadingOperator()
    ensures Parse("&A") == Ok([Variable('A', false), Operation(AND)])
  {
    var e := "&A";
    var s0 := Start;
    var s1 := ParserState([AND], [], true, false, false);
    assert Step(s0, '&') == Ok(s1) by {
      assert PopAbove([], [], AND) == ([], []);
      assert Step(s0, '&').Ok?;
      assert Step(s0, '&').value.ops == [AND] && Step(s0, '&').value.out == [];
    }
    var s2 := ParserState([AND], [Variable('A', false)], false, true, false);
    assert Step(s1, 'A') == Ok(s2) by {
      assert Step(s1, 'A').Ok?;
      assert Step(s1, 'A').value.ops == [AND] && Step(s1, 'A').value.out == [Variable('A', false)];
    }
    assert Run(s0, e) == Ok(s2) by {
      assert e[0..][0] == '&' && e[0..][1..] == e[1..];
      assert e[1..][0] == 'A' && e[1..][1..] == e[2..];
      assert e[2..] == [];
      assert Run(s1, e[1..]) == Ok(s2);
      assert Run(s0, e[0..]) == Ok(s2);
      assert e[0..] == e;
    }
    assert Flush(s2.ops, s2.out) == Ok([Variable('A', false), Operation(AND)]) by {
      assert [AND][..0] == [] && [Variable('A', false)] + [Operation(AND)] == [Variable('A', false), Operation(AND)];
      assert Flush([AND], [Variable('A', false)]) == Flush([], [Variable('A', false), Operation(AND)]);
      assert Flush([], [Variable('A', false), Operation(AND)]) == Ok([Variable('A', false), Operation(AND)]);
    }
  }

  /** Adjacent operands are not rejected. */
  lemma ParseAdjacentVariables()
    ensures Parse("AB") == Ok([Variable('A', false), Variable('B', false)])
  {
    var e := "AB";
    var s0 := Start;
    var s1 := ParserState([], [Variable('A', false)], false, true, false);
    assert Step(s0, 'A') == Ok(s1) by {
      assert Step(s0, 'A').Ok?;
      assert Step(s0, 'A').value.ops == [] && Step(s0, 'A').value.out == [Variable('A', false)];
    }
    var s2 := ParserState([], [Variable('A', false), Variable('B', false)], false, true, false);
    assert Step(s1, 'B') == Ok(s2) by {
      assert Step(s1, 'B').Ok?;
      assert Step(s1, 'B').value.ops == [] && Step(s1, 'B').value.out == [Variable('A', false), Variable('B', false)];
    }
    assert Run(s0, e) == Ok(s2) by {
      assert e[0..][0] == 'A' && e[0..][1..] == e[1..];
      assert e[1..][0] == 'B' && e[1..][1..] == e[2..];
      assert e[2..] == [];
      assert Run(s1, e[1..]) == Ok(s2);
      assert Run(s0, e[0..]) == Ok(s2);
      assert e[0..] == e;
    }
    assert Flush(s2.ops, s2.out) == Ok([Variable('A', false), Variable('B', false)]) by {
      assert Flush([], [Variable('A', false), Variable('B', false)]) == Ok([Variable('A', false), Variable('B', false)]);
    }
  }

  /** `!` right after a variable is rejected. */
  lemma ParseNotAfterVariable()
    ensures Parse("A!B") == Err(UnexpectedNot)
  {
    var e := "A!B";
    var s0 := Start;
    var s1 := ParserState([], [Variable('A', false)], false, true, false);
    assert Step(s0, 'A') == Ok(s1) by {
      assert Step(s0, 'A').Ok?;
      assert Step(s0, 'A').value.ops == [] && Step(s0, 'A').value.out == [Variable('A', false)];
    }
    assert Step(s1, '!') == Err(UnexpectedNot);
    assert Run(s0, e) == Err(UnexpectedNot) by {
      assert e[0..][0] == 'A' && e[0..][1..] == e[1..];
      assert e[1..][0] == '!' && e[1..][1..] == e[2..];
      assert Run(s1, e[1..]) == Err(UnexpectedNot);
      assert Run(s0, e[0..]) == Err(UnexpectedNot);
      assert e[0..] == e;
    }
  }

  /** Only the blank is skipped; a tab is an invalid character. */
  lemma ParseTab()
    ensures Parse("A\tB") == Err(InvalidLetter('\t'))
  {
    var e := "A\tB";
    var s0 := Start;
    var s1 := ParserState([], [Variable('A', false)], false, true, false);
    assert Step(s0, 'A') == Ok(s1) by {
      assert Step(s0, 'A').Ok?;
      assert Step(s0, 'A').value.ops == [] && Step(s0, 'A').value.out == [Variable('A', false)];
    }
    assert Step(s1, '\t') == Err(InvalidLetter('\t'));
    assert Run(s0, e) == Err(InvalidLetter('\t')) by {
      assert e[0..][0] == 'A' && e[0..][1..] == e[1..];
      assert e[1..][0] == '\t' && e[1..][1..] == e[2..];
      assert Run(s1, e[1..]) == Err(InvalidLetter('\t'));
      assert Run(s0, e[0..]) == Err(InvalidLetter('\t'));
      assert e[0..] == e;
    }
  }
}
