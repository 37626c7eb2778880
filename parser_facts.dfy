/**
 * What `RPN.ToRPN` guarantees about every input, proved on its model
 * `Parser.Parse`:
 *  - shape: the output holds variables and two-operand operations only, so
 *    `RPN.Solve` never meets `!` or a bracket;
 *  - variables: the variables of the output are the letters of the input,
 *    in input order, each inverted exactly when an odd number of `!` stand
 *    between it and the letter before it;
 *  - operations: the operations of the output are the binary operator
 *    symbols of the input, each exactly once;
 *  - rejections: `!` after a letter, two binary operators in a row, `(`
 *    under an odd number of `!`, and any character outside the alphabet.
 */
module ParserFacts {
  import opened Wrappers
  import opened Tokens
  import opened Parser

  /* ------------------------------------------------------------- the step */

  /** The binary operation a character stands for, if any. */
  function BinaryOf(c: char): (r: Option<Op>)
    ensures r.Some? <==> c in "&|^=@"
    ensures r.Some? ==> IsBinary(r.value) && CharToToken(c) == Ok(Operation(r.value))
  {
    match c
    case '&' => Some(AND)
    case '|' => Some(OR)
    case '^' => Some(XOR)
    case '=' => Some(EQUAL)
    case '@' => Some(IMPL)
    case _ => None
  }

  /** The body of the character loop of `ToRPN`, one class of character at a time. */
  lemma StepTable(st: ParserState, c: char)
    ensures c == ' ' ==> Step(st, c) == Ok(st)
    ensures IsLetter(c) ==>
      Step(st, c) == Ok(ParserState(st.ops, st.out + [Variable(c, st.pendingNot)], false, true, false))
    ensures c == '!' ==>
      Step(st, c) == if st.mayNot then Ok(st.(pendingNot := !st.pendingNot)) else Err(UnexpectedNot)
    ensures c == '(' ==>
      Step(st, c) == if st.pendingNot then Err(NegatedBracket)
                     else Ok(st.(ops := st.ops + [LBRC], mayNot := true, mayOperator := false))
    ensures c == ')' ==>
      Step(st, c) == Ok(st.(ops := CloseBracket(st.ops, st.out).0, out := CloseBracket(st.ops, st.out).1,
                            mayNot := true, mayOperator := true))
    ensures BinaryOf(c).Some? ==>
      var op := BinaryOf(c).value;
      Step(st, c) == if st.mayOperator
                     then Ok(st.(ops := PopAbove(st.ops, st.out, op).0 + [op], out := PopAbove(st.ops, st.out, op).1,
                                 mayNot := true, mayOperator := false))
                     else Err(MisplacedOperator)
    ensures c != ' ' && !IsLetter(c) && c !in OperatorSymbols ==> Step(st, c) == Err(InvalidLetter(c))
  {
  }

  /* ---------------------------------------------------------------- shape */

  /** A token `Solve` knows how to consume. */
  predicate Emittable(t: Token) {
    t.Variable? || IsBinary(t.op)
  }

  predicate AllEmittable(ts: seq<Token>) {
    forall k :: 0 <= k < |ts| ==> Emittable(ts[k])
  }

  /** What the operator stack of `ToRPN` may hold. */
  predicate Stackable(op: Op) {
    IsBinary(op) || op == LBRC
  }

  predicate AllStackable(ops: seq<Op>) {
    forall k :: 0 <= k < |ops| ==> Stackable(ops[k])
  }

  predicate WellShaped(st: ParserState) {
    AllStackable(st.ops) && AllEmittable(st.out)
  }

  lemma EmittableAppend(a: seq<Token>, b: seq<Token>)
    requires AllEmittable(a) && AllEmittable(b)
    ensures AllEmittable(a + b)
  {
    assert forall k :: 0 <= k < |b| ==> (a + b)[|a| + k] == b[k];
  }

  lemma {:induction false} UnwindEmittable(s: seq<Op>)
    requires forall k :: 0 <= k < |s| ==> IsBinary(s[k])
    ensures AllEmittable(Unwind(s))
    decreases |s|
  {
    if s != [] {
      UnwindEmittable(s[..|s| - 1]);
      EmittableAppend([Operation(s[|s| - 1])], Unwind(s[..|s| - 1]));
    }
  }

  /** A stack slice without `(` holds only binary operations. */
  lemma NoBracketBinary(s: seq<Op>)
    requires AllStackable(s)
    requires LBRC !in s
    ensures forall k :: 0 <= k < |s| ==> IsBinary(s[k])
  {
    forall k | 0 <= k < |s|
      ensures IsBinary(s[k])
    {
      assert s[k] in s;
    }
  }

  /** The loop for `)` keeps the stacks well shaped. */
  lemma CloseBracketShape(ops: seq<Op>, out: seq<Token>)
    requires AllStackable(ops) && AllEmittable(out)
    ensures AllStackable(CloseBracket(ops, out).0) && AllEmittable(CloseBracket(ops, out).1)
  {
    CloseBracketSpec(ops, out);
    var m := if TopBracket(ops).None? then -1 else TopBracket(ops).value;
    var above := ops[m + 1..];
    assert LBRC !in above;
    assert forall k :: 0 <= k < |above| ==> above[k] == ops[m + 1 + k];
    NoBracketBinary(above);
    UnwindEmittable(above);
    EmittableAppend(out, Unwind(above));
  }

  /** The loop before a binary operator, and its push, keep the stacks well shaped. */
  lemma PopAboveShape(ops: seq<Op>, out: seq<Token>, op: Op)
    requires AllStackable(ops) && AllEmittable(out) && IsBinary(op)
    ensures AllStackable(PopAbove(ops, out, op).0 + [op]) && AllEmittable(PopAbove(ops, out, op).1)
  {
    PopAboveKept(ops, out, op);
    KeptPopsHigher(ops, op);
    var m := Kept(ops, op);
    var above := ops[m..];
    forall k | 0 <= k < |above|
      ensures IsBinary(above[k])
    {
      assert above[k] == ops[m + k];
      assert Stackable(ops[m + k]) && Priority(op) <= Priority(ops[m + k]);
    }
    UnwindEmittable(above);
    EmittableAppend(out, Unwind(above));
    var kept := ops[..m] + [op];
    forall k | 0 <= k < |kept|
      ensures Stackable(kept[k])
    {
      if k < m {
        assert kept[k] == ops[k];
      }
    }
  }

  /** One character keeps the stacks well shaped. */
  lemma StepShape(st: ParserState, c: char)
    requires WellShaped(st)
    requires Step(st, c).Ok?
    ensures WellShaped(Step(st, c).value)
  {
    StepTable(st, c);
    if c == ')' {
      CloseBracketShape(st.ops, st.out);
    } else if BinaryOf(c).Some? {
      PopAboveShape(st.ops, st.out, BinaryOf(c).value);
    } else if IsLetter(c) {
      EmittableAppend(st.out, [Variable(c, st.pendingNot)]);
    } else if c == '(' {
      assert forall k :: 0 <= k < |st.ops| ==> (st.ops + [LBRC])[k] == st.ops[k];
    }
  }

  lemma {:induction false} RunShape(st: ParserState, s: string)
    requires WellShaped(st)
    requires Run(st, s).Ok?
    ensures WellShaped(Run(st, s).value)
    decreases |s|
  {
    if s != [] {
      StepShape(st, s[0]);
      RunShape(Step(st, s[0]).value, s[1..]);
    }
  }

  /** Whatever `ToRPN` returns holds only variables and binary operations. */
  lemma ParseShape(expression: string)
    requires Parse(expression).Ok?
    ensures AllEmittable(Parse(expression).value)
  {
    RunShape(Start, expression);
    var st := Run(Start, expression).value;
    FlushSpec(st.ops, st.out);
    NoBracketBinary(st.ops);
    UnwindEmittable(st.ops);
  }

  /* ------------------------------------------------------------ variables */

  /** The negation flag after reading `c` with flag `pending`. */
  function AfterChar(c: char, pending: bool): bool {
    if IsLetter(c) then false else if c == '!' then !pending else pending
  }

  /**
   * The variables the input `s` should produce, read left to right: each
   * letter, inverted when the `!` seen since the previous letter are odd in
   * number (starting from `pending`).
   */
  function Marks(s: string, pending: bool): seq<Token>
    decreases |s|
  {
    if s == [] then []
    else (if IsLetter(s[0]) then [Variable(s[0], pending)] else []) + Marks(s[1..], AfterChar(s[0], pending))
  }

  /** The negation flag after reading the whole of `s`. */
  function PendingAfter(s: string, pending: bool): bool
    decreases |s|
  {
    if s == [] then pending else PendingAfter(s[1..], AfterChar(s[0], pending))
  }

  /** The variable tokens of `ts`, in order. */
  function VariablesOf(ts: seq<Token>): seq<Token>
    decreases |ts|
  {
    if ts == [] then []
    else VariablesOf(ts[..|ts| - 1]) + (if ts[|ts| - 1].Variable? then [ts[|ts| - 1]] else [])
  }

  lemma {:induction false} VariablesOfAppend(a: seq<Token>, b: seq<Token>)
    ensures VariablesOf(a + b) == VariablesOf(a) + VariablesOf(b)
    decreases |b|
  {
    if b == [] {
      assert a + b == a;
    } else {
      var b' := b[..|b| - 1];
      assert (a + b)[..|a + b| - 1] == a + b';
      VariablesOfAppend(a, b');
    }
  }

  lemma {:induction false} VariablesOfUnwind(s: seq<Op>)
    ensures VariablesOf(Unwind(s)) == []
    decreases |s|
  {
    if s != [] {
      VariablesOfUnwind(s[..|s| - 1]);
      VariablesOfAppend([Operation(s[|s| - 1])], Unwind(s[..|s| - 1]));
      assert VariablesOf([Operation(s[|s| - 1])]) == VariablesOf([]) + [];
    }
  }

  /** The loop for `)` moves operations only. */
  lemma CloseBracketMarks(ops: seq<Op>, out: seq<Token>)
    ensures VariablesOf(CloseBracket(ops, out).1) == VariablesOf(out)
  {
    CloseBracketSpec(ops, out);
    var m := if TopBracket(ops).None? then -1 else TopBracket(ops).value;
    VariablesOfAppend(out, Unwind(ops[m + 1..]));
    VariablesOfUnwind(ops[m + 1..]);
  }

  /** The loop before a binary operator moves operations only. */
  lemma PopAboveMarks(ops: seq<Op>, out: seq<Token>, op: Op)
    ensures VariablesOf(PopAbove(ops, out, op).1) == VariablesOf(out)
  {
    PopAboveKept(ops, out, op);
    var m := Kept(ops, op);
    VariablesOfAppend(out, Unwind(ops[m..]));
    VariablesOfUnwind(ops[m..]);
  }

  /** One character appends its own variable, if any, and updates the flag. */
  lemma StepMarks(st: ParserState, c: char)
    requires Step(st, c).Ok?
    ensures VariablesOf(Step(st, c).value.out) == VariablesOf(st.out) + Marks([c], st.pendingNot)
    ensures Step(st, c).value.pendingNot == AfterChar(c, st.pendingNot)
  {
    StepTable(st, c);
    var here := if IsLetter(c) then [Variable(c, st.pendingNot)] else [];
    assert Marks([c], st.pendingNot) == here + Marks([], AfterChar(c, st.pendingNot));
    if c == ')' {
      CloseBracketMarks(st.ops, st.out);
    } else if BinaryOf(c).Some? {
      PopAboveMarks(st.ops, st.out, BinaryOf(c).value);
    } else if IsLetter(c) {
      VariablesOfAppend(st.out, here);
      assert VariablesOf(here) == VariablesOf([]) + here;
    }
  }

  lemma {:induction false} RunMarks(st: ParserState, s: string)
    requires Run(st, s).Ok?
    ensures VariablesOf(Run(st, s).value.out) == VariablesOf(st.out) + Marks(s, st.pendingNot)
    ensures Run(st, s).value.pendingNot == PendingAfter(s, st.pendingNot)
    decreases |s|
  {
    if s == [] {
      assert VariablesOf(st.out) + [] == VariablesOf(st.out);
    } else {
      var st' := Step(st, s[0]).value;
      StepMarks(st, s[0]);
      RunMarks(st', s[1..]);
      var here := if IsLetter(s[0]) then [Variable(s[0], st.pendingNot)] else [];
      assert Marks([s[0]], st.pendingNot) == here + Marks([], AfterChar(s[0], st.pendingNot));
      assert Marks(s, st.pendingNot) == here + Marks(s[1..], st'.pendingNot);
      AppendAssoc(VariablesOf(st.out), here, Marks(s[1..], st'.pendingNot));
    }
  }

  /**
   * The variables of the postfix output are exactly the letters of the
   * expression, in order, each with the parity of the `!` before it.
   */
  lemma ParseMarks(expression: string)
    requires Parse(expression).Ok?
    ensures VariablesOf(Parse(expression).value) == Marks(expression, false)
  {
    RunMarks(Start, expression);
    var st := Run(Start, expression).value;
    FlushSpec(st.ops, st.out);
    VariablesOfAppend(st.out, Unwind(st.ops));
    VariablesOfUnwind(st.ops);
    assert VariablesOf([]) == [];
  }

  /* ----------------------------------------------------------- operations */

  /** The binary operator symbols of `s`, as operations. */
  function OperatorsIn(s: string): multiset<Op>
    decreases |s|
  {
    if s == [] then multiset{}
    else (if BinaryOf(s[0]).Some? then multiset{BinaryOf(s[0]).value} else multiset{}) + OperatorsIn(s[1..])
  }

  /** The operations among the tokens `ts`. */
  function OperationsOf(ts: seq<Token>): multiset<Op>
    decreases |ts|
  {
    if ts == [] then multiset{}
    else OperationsOf(ts[..|ts| - 1]) + (if ts[|ts| - 1].Operation? then multiset{ts[|ts| - 1].op} else multiset{})
  }

  /** The operations on the stack `ops`, brackets not counted. */
  function Pending(ops: seq<Op>): multiset<Op>
    decreases |ops|
  {
    if ops == [] then multiset{}
    else Pending(ops[..|ops| - 1]) + (if ops[|ops| - 1] == LBRC then multiset{} else multiset{ops[|ops| - 1]})
  }

  /** Everything `st` has read and not dropped: the output's operations and the stacked ones. */
  function Held(st: ParserState): multiset<Op> {
    OperationsOf(st.out) + Pending(st.ops)
  }

  lemma {:induction false} OperationsOfPush(ts: seq<Token>, op: Op)
    ensures OperationsOf(ts + [Operation(op)]) == OperationsOf(ts) + multiset{op}
  {
    assert (ts + [Operation(op)])[..|ts|] == ts;
  }

  lemma {:induction false} PendingPush(ops: seq<Op>, op: Op)
    ensures Pending(ops + [op]) == Pending(ops) + (if op == LBRC then multiset{} else multiset{op})
  {
    assert (ops + [op])[..|ops|] == ops;
  }

  lemma {:induction false} OperationsOfVariable(ts: seq<Token>, letter: char, inverted: bool)
    ensures OperationsOf(ts + [Variable(letter, inverted)]) == OperationsOf(ts)
  {
    assert (ts + [Variable(letter, inverted)])[..|ts|] == ts;
  }

  /** The loop for `)` moves operations from the stack to the output and loses none. */
  lemma {:induction false} CloseBracketHeld(ops: seq<Op>, out: seq<Token>)
    ensures var (ops', out') := CloseBracket(ops, out); OperationsOf(out') + Pending(ops') == OperationsOf(out) + Pending(ops)
    decreases |ops|
  {
    if ops != [] {
      var rest, top := ops[..|ops| - 1], ops[|ops| - 1];
      if top != LBRC {
        CloseBracketHeld(rest, out + [Operation(top)]);
        OperationsOfPush(out, top);
      }
    }
  }

  /** The loop before a binary operator moves operations to the output and loses none. */
  lemma {:induction false} PopAboveHeld(ops: seq<Op>, out: seq<Token>, op: Op)
    requires IsBinary(op)
    ensures var (ops', out') := PopAbove(ops, out, op); OperationsOf(out') + Pending(ops') == OperationsOf(out) + Pending(ops)
    decreases |ops|
  {
    if ops != [] && Priority(op) <= Priority(ops[|ops| - 1]) {
      var rest, top := ops[..|ops| - 1], ops[|ops| - 1];
      assert top != LBRC;
      assert PopAbove(ops, out, op) == PopAbove(rest, out + [Operation(top)], op);
      assert Pending(ops) == Pending(rest) + multiset{top};
      PopAboveHeld(rest, out + [Operation(top)], op);
      OperationsOfPush(out, top);
    }
  }

  /** The final loop, when it succeeds, moves every stacked operation to the output. */
  lemma {:induction false} FlushHeld(ops: seq<Op>, out: seq<Token>)
    requires Flush(ops, out).Ok?
    ensures OperationsOf(Flush(ops, out).value) == OperationsOf(out) + Pending(ops)
    decreases |ops|
  {
    if ops != [] {
      var rest, top := ops[..|ops| - 1], ops[|ops| - 1];
      FlushHeld(rest, out + [Operation(top)]);
      OperationsOfPush(out, top);
    }
  }

  /** The loop before a binary operator, and its push, add that operation to what is held. */
  lemma PopAbovePushHeld(ops: seq<Op>, out: seq<Token>, op: Op)
    requires IsBinary(op)
    ensures OperationsOf(PopAbove(ops, out, op).1) + Pending(PopAbove(ops, out, op).0 + [op])
      == OperationsOf(out) + Pending(ops) + multiset{op}
  {
    PopAboveHeld(ops, out, op);
    PendingPush(PopAbove(ops, out, op).0, op);
  }

  /** One character adds its binary operation, if any, to what is held. */
  lemma StepHeld(st: ParserState, c: char)
    requires Step(st, c).Ok?
    ensures Held(Step(st, c).value) == Held(st) + OperatorsIn([c])
  {
    StepTable(st, c);
    var st' := Step(st, c).value;
    var here := if BinaryOf(c).Some? then multiset{BinaryOf(c).value} else multiset{};
    assert OperatorsIn([c]) == here + OperatorsIn([]);
    if BinaryOf(c).Some? {
      var op := BinaryOf(c).value;
      PopAbovePushHeld(st.ops, st.out, op);
      assert st'.ops == PopAbove(st.ops, st.out, op).0 + [op] && st'.out == PopAbove(st.ops, st.out, op).1;
    } else {
      assert here == multiset{};
      if c == '(' {
        PendingPush(st.ops, LBRC);
        assert st'.ops == st.ops + [LBRC] && st'.out == st.out;
      } else if c == ')' {
        CloseBracketHeld(st.ops, st.out);
      } else if IsLetter(c) {
        OperationsOfVariable(st.out, c, st.pendingNot);
        assert st'.ops == st.ops && st'.out == st.out + [Variable(c, st.pendingNot)];
      } else {
        assert st'.ops == st.ops && st'.out == st.out;
      }
    }
  }

  lemma {:induction false} RunHeld(st: ParserState, s: string)
    requires Run(st, s).Ok?
    ensures Held(Run(st, s).value) == Held(st) + OperatorsIn(s)
    decreases |s|
  {
    if s != [] {
      var st' := Step(st, s[0]).value;
      assert Run(st, s) == Run(st', s[1..]);
      StepHeld(st, s[0]);
      RunHeld(st', s[1..]);
      assert [s[0]][1..] == [];
      var here := if BinaryOf(s[0]).Some? then multiset{BinaryOf(s[0]).value} else multiset{};
      assert OperatorsIn([s[0]]) == here;
      assert OperatorsIn(s) == here + OperatorsIn(s[1..]);
    }
  }

  /** Each binary operator symbol of the expression appears once in the output. */
  lemma ParseOperations(expression: string)
    requires Parse(expression).Ok?
    ensures OperationsOf(Parse(expression).value) == OperatorsIn(expression)
  {
    RunHeld(Start, expression);
    var st := Run(Start, expression).value;
    FlushHeld(st.ops, st.out);
  }

  /** The last three characters of `A|B^C`. */
  lemma LeftAssociativeTail()
    ensures Run(ParserState([OR], [Variable('A', false)], true, false, false), "B^C") == Ok(ParserState([XOR], [Variable('A', false), Variable('B', false), Operation(OR), Variable('C', false)], false, true, false))
  {
    var s2 := ParserState([OR], [Variable('A', false)], true, false, false);
    var s3 := ParserState([OR], [Variable('A', false), Variable('B', false)], false, true, false);
    var s4 := ParserState([XOR], [Variable('A', false), Variable('B', false), Operation(OR)], true, false, false);
    var s5 := ParserState([XOR], [Variable('A', false), Variable('B', false), Operation(OR), Variable('C', false)], false, true, false);
    assert Run(s4, "C") == Ok(s5) by {
      StepTable(s4, 'C');
      assert [Variable('A', false), Variable('B', false), Operation(OR)] + [Variable('C', false)] == s5.out;
      assert Step(s4, 'C') == Ok(s5);
      assert "C"[0] == 'C' && "C"[1..] == "";
    }
    assert Run(s3, "^C") == Ok(s5) by {
      StepTable(s3, '^');
      assert PopAbove([OR], [Variable('A', false), Variable('B', false)], XOR) == ([], [Variable('A', false), Variable('B', false), Operation(OR)]) by {
        assert [OR][..0] == [];
        assert [Variable('A', false), Variable('B', false)] + [Operation(OR)] == [Variable('A', false), Variable('B', false), Operation(OR)];
      }
      assert BinaryOf('^') == Some(XOR);
      assert [] + [XOR] == [XOR];
      assert Step(s3, '^') == Ok(s4);
      assert "^C"[0] == '^' && "^C"[1..] == "C";
    }
    StepTable(s2, 'B');
    assert [Variable('A', false)] + [Variable('B', false)] == s3.out;
    assert Step(s2, 'B') == Ok(s3);
    assert "B^C"[0] == 'B' && "B^C"[1..] == "^C";
  }

  /** `A|B^C` becomes `A B | C ^`: `^` pops the `|` of equal priority, so they associate to the left. */
  lemma ParseLeftAssociative()
    ensures Parse("A|B^C") == Ok([Variable('A', false), Variable('B', false), Operation(OR), Variable('C', false), Operation(XOR)])
  {
    var s1 := ParserState([], [Variable('A', false)], false, true, false);
    var s2 := ParserState([OR], [Variable('A', false)], true, false, false);
    var s5 := ParserState([XOR], [Variable('A', false), Variable('B', false), Operation(OR), Variable('C', false)], false, true, false);
    LeftAssociativeTail();
    assert Run(s1, "|B^C") == Ok(s5) by {
      StepTable(s1, '|');
      assert PopAbove([], [Variable('A', false)], OR) == ([], [Variable('A', false)]);
      assert BinaryOf('|') == Some(OR);
      assert [] + [OR] == [OR];
      assert Step(s1, '|') == Ok(s2);
      assert "|B^C"[0] == '|' && "|B^C"[1..] == "B^C";
    }
    assert Run(Start, "A|B^C") == Ok(s5) by {
      StepTable(Start, 'A');
      assert [] + [Variable('A', false)] == s1.out;
      assert Step(Start, 'A') == Ok(s1);
      assert "A|B^C"[0] == 'A' && "A|B^C"[1..] == "|B^C";
    }
    assert Flush(s5.ops, s5.out) == Ok([Variable('A', false), Variable('B', false), Operation(OR), Variable('C', false), Operation(XOR)]) by {
      assert [XOR][..0] == [];
      assert [Variable('A', false), Variable('B', false), Operation(OR), Variable('C', false)] + [Operation(XOR)] == [Variable('A', false), Variable('B', false), Operation(OR), Variable('C', false), Operation(XOR)];
    }
  }

  /**
   * The negation flag is cleared only by a letter: in `!&A` the `!` passes
   * over the `&` and still inverts `A`.
   */
  lemma ParseNegationAcrossOperator()
    ensures Parse("!&A") == Ok([Variable('A', true), Operation(AND)])
  {
    var s1 := ParserState([], [], true, true, true);
    var s2 := ParserState([AND], [], true, false, true);
    var s3 := ParserState([AND], [Variable('A', true)], false, true, false);
    assert Run(s2, "A") == Ok(s3) by {
      StepTable(s2, 'A');
      assert [] + [Variable('A', true)] == s3.out;
      assert Step(s2, 'A') == Ok(s3);
      assert "A"[0] == 'A' && "A"[1..] == "";
    }
    assert Run(s1, "&A") == Ok(s3) by {
      StepTable(s1, '&');
      assert PopAbove([], [], AND) == ([], []);
      assert BinaryOf('&') == Some(AND);
      assert [] + [AND] == [AND];
      assert Step(s1, '&') == Ok(s2);
      assert "&A"[0] == '&' && "&A"[1..] == "A";
    }
    assert Run(Start, "!&A") == Ok(s3) by {
      StepTable(Start, '!');
      assert Step(Start, '!') == Ok(s1);
      assert "!&A"[0] == '!' && "!&A"[1..] == "&A";
    }
    assert Flush(s3.ops, s3.out) == Ok([Variable('A', true), Operation(AND)]) by {
      assert [AND][..0] == [];
      assert [Variable('A', true)] + [Operation(AND)] == [Variable('A', true), Operation(AND)];
    }
  }

  /* ----------------------------------------------------------- rejections */

  /** Reading `p` and then `r` fails whenever reading `r` fails from every state. */
  lemma SuffixRejects(p: string, r: string)
    requires forall st :: Run(st, r).Err?
    ensures Parse(p + r).Err?
  {
    RunAppend(Start, p, r);
  }

  /** Blanks are skipped without touching the state. */
  lemma {:induction false} BlanksRun(st: ParserState, blanks: string)
    requires forall k :: 0 <= k < |blanks| ==> blanks[k] == ' '
    ensures Run(st, blanks) == Ok(st)
    decreases |blanks|
  {
    if blanks != [] {
      StepTable(st, ' ');
      assert blanks[0] == ' ';
      BlanksRun(st, blanks[1..]);
    }
  }

  /** `!` after a letter, with only blanks between them, is rejected. */
  lemma NotAfterVariableRejected(p: string, x: char, blanks: string, q: string)
    requires IsLetter(x)
    requires forall k :: 0 <= k < |blanks| ==> blanks[k] == ' '
    ensures Parse(p + [x] + blanks + ['!'] + q).Err?
  {
    var r := [x] + (blanks + (['!'] + q));
    forall st: ParserState
      ensures Run(st, r).Err?
    {
      assert r[0] == x && r[1..] == blanks + (['!'] + q);
      StepTable(st, x);
      var st' := Step(st, x).value;
      assert !st'.mayNot;
      RunAppend(st', blanks, ['!'] + q);
      BlanksRun(st', blanks);
      StepTable(st', '!');
      assert (['!'] + q)[0] == '!';
      assert Run(st, r) == Run(st', r[1..]);
    }
    assert p + [x] + blanks + ['!'] + q == p + r;
    SuffixRejects(p, r);
  }

  /** A binary operator after another one, or after `(`, with only blanks between them, is rejected. */
  lemma DoubleOperatorRejected(p: string, o1: char, blanks: string, o2: char, q: string)
    requires o1 in "&|^=@("
    requires forall k :: 0 <= k < |blanks| ==> blanks[k] == ' '
    requires o2 in "&|^=@"
    ensures Parse(p + [o1] + blanks + [o2] + q).Err?
  {
    var r := [o1] + (blanks + ([o2] + q));
    forall st: ParserState
      ensures Run(st, r).Err?
    {
      assert r[0] == o1 && r[1..] == blanks + ([o2] + q);
      assert o1 == '(' || BinaryOf(o1).Some?;
      assert BinaryOf(o2).Some?;
      StepTable(st, o1);
      if Step(st, o1).Ok? {
        var st' := Step(st, o1).value;
        assert !st'.mayOperator;
        RunAppend(st', blanks, [o2] + q);
        BlanksRun(st', blanks);
        StepTable(st', o2);
        assert ([o2] + q)[0] == o2;
        assert Step(st', o2).Err?;
        assert Run(st, r) == Run(st', r[1..]);
      }
    }
    assert p + [o1] + blanks + [o2] + q == p + r;
    SuffixRejects(p, r);
  }

  /** `(` under an odd number of pending `!` is rejected. */
  lemma NegatedBracketRejected(p: string, q: string)
    requires PendingAfter(p, false)
    ensures Parse(p + ['('] + q).Err?
  {
    var r := ['('] + q;
    assert p + ['('] + q == p + r;
    RunAppend(Start, p, r);
    if Run(Start, p).Ok? {
      var st := Run(Start, p).value;
      RunMarks(Start, p);
      StepTable(st, '(');
      assert r[0] == '(';
      assert Run(st, r).Err?;
    }
  }

  /** Any character other than a blank, a letter or one of the eight symbols is rejected. */
  lemma InvalidCharacterRejected(p: string, c: char, q: string)
    requires c != ' ' && !IsLetter(c) && c !in OperatorSymbols
    ensures Parse(p + [c] + q).Err?
  {
    var r := [c] + q;
    forall st: ParserState
      ensures Run(st, r).Err?
    {
      StepTable(st, c);
      assert r[0] == c;
    }
    assert p + [c] + q == p + r;
    SuffixRejects(p, r);
  }
}
