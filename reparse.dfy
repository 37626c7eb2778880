/**
 * Reading the normal forms back: the PDNF and PCNF text `MainWindow.Solve`
 * writes is an expression `RPN.ToRPN` accepts, and the postfix code it is
 * converted to computes what the form means.
 *
 * Inside a term the literals are joined by the inner operator and the
 * term's brackets keep the outer operator out; the terms are joined by the
 * outer operator. Both operators associate to the left, so the code is
 * that of a left-leaning chain of terms, each a left-leaning chain of
 * literals.
 */
module Reparse {
  import opened Wrappers
  import opened Tokens
  import opened Parser
  import opened ParserFacts
  import opened Enumerator
  import opened Evaluator
  import opened NormalForms

  /** The operator inside a term: `&` in the PDNF, `|` in the PCNF. */
  function InnerOp(want: bool): Op {
    if want then AND else OR
  }

  /** The operator between terms: `|` in the PDNF, `&` in the PCNF. */
  function OuterOp(want: bool): Op {
    if want then OR else AND
  }

  predicate AllLetters(keys: seq<char>) {
    forall j :: 0 <= j < |keys| ==> IsLetter(keys[j])
  }

  /* ---------------------------------------------------------- the trees */

  function LiteralExpr(l: Literal): Expr {
    Var(l.letter, l.negated)
  }

  /** The tree of a term: its literals combined left to right with the inner operator. */
  function TermExpr(lits: seq<Literal>, want: bool): Expr
    requires |lits| > 0
    decreases |lits|
  {
    if |lits| == 1 then LiteralExpr(lits[0])
    else Bin(InnerOp(want), TermExpr(lits[..|lits| - 1], want), LiteralExpr(lits[|lits| - 1]))
  }

  /** The tree of a form: the terms of the rows answered `want`, combined left to right with the outer operator. */
  function FormExpr(keys: seq<char>, v: seq<bool>, want: bool): Option<Expr>
    decreases |v|
  {
    if v == [] then None
    else
      var prev := FormExpr(keys, v[..|v| - 1], want);
      if v[|v| - 1] != want || |keys| == 0 then prev
      else
        var t := TermExpr(Literals(keys, Enum(|keys|, |v| - 1), want), want);
        match prev
        case None => Some(t)
        case Some(e) => Some(Bin(OuterOp(want), e, t))
  }

  /* -------------------------------------------------------- the parsing */

  /** Reading one character, then the rest. */
  lemma {:induction false} RunCons(st: ParserState, c: char, s: string)
    ensures Step(st, c).Ok? ==> Run(st, [c] + s) == Run(Step(st, c).value, s)
    ensures Step(st, c).Err? ==> Run(st, [c] + s) == Err(Step(st, c).error)
  {
    assert ([c] + s)[0] == c && ([c] + s)[1..] == s;
  }

  /** A literal, read where a negation may stand and none is pending: an optional `!`, then its letter. */
  lemma {:induction false} LiteralRun(st: ParserState, l: Literal)
    requires st.mayNot && !st.pendingNot && IsLetter(l.letter)
    ensures Run(st, LiteralText(l)) == Ok(ParserState(st.ops, st.out + [Variable(l.letter, l.negated)], false, true, false))
  {
    var fin := ParserState(st.ops, st.out + [Variable(l.letter, l.negated)], false, true, false);
    var st' := st.(pendingNot := l.negated);
    StepTable(st', l.letter);
    RunCons(st', l.letter, []);
    assert [l.letter] + [] == [l.letter];
    assert Run(st', [l.letter]) == Ok(fin);
    if l.negated {
      StepTable(st, '!');
      RunCons(st, '!', [l.letter]);
      assert LiteralText(l) == ['!'] + [l.letter];
    }
  }

  /** A separator ` & ` or ` | ` after an operand: the blanks are skipped, the operator pops and is stacked. */
  lemma {:induction false} SeparatorRun(st: ParserState, c: char)
    requires BinaryOf(c).Some? && st.mayOperator
    ensures var op := BinaryOf(c).value;
      Run(st, [' ', c, ' ']) ==
        Ok(st.(ops := PopAbove(st.ops, st.out, op).0 + [op], out := PopAbove(st.ops, st.out, op).1,
               mayNot := true, mayOperator := false))
  {
    var op := BinaryOf(c).value;
    var st' := st.(ops := PopAbove(st.ops, st.out, op).0 + [op], out := PopAbove(st.ops, st.out, op).1,
                   mayNot := true, mayOperator := false);
    StepTable(st, ' ');
    StepTable(st, c);
    StepTable(st', ' ');
    RunCons(st', ' ', []);
    assert [' '] + [] == [' '];
    RunCons(st, c, [' ']);
    RunCons(st, ' ', [c, ' ']);
    assert [' ', c, ' '] == [' '] + ([c] + [' ']);
  }

  /** Popping for `op` above a bracket or an empty stack stops there. */
  lemma {:induction false} PopNothing(below: seq<Op>, out: seq<Token>, op: Op)
    requires IsBinary(op)
    requires below == [] || below[|below| - 1] == LBRC
    ensures PopAbove(below, out, op) == (below, out)
  {
  }

  /** Popping for `op` above a bracket or an empty stack moves one `op` pending there. */
  lemma {:induction false} PopOne(below: seq<Op>, out: seq<Token>, op: Op)
    requires IsBinary(op)
    requires below == [] || below[|below| - 1] == LBRC
    ensures PopAbove(below + [op], out, op) == (below, out + [Operation(op)])
  {
    assert (below + [op])[..|below|] == below;
  }

  /** Popping for `op` above a bracket or an empty stack moves at most one pending `op`. */
  lemma {:induction false} PopPending(below: seq<Op>, pend: seq<Op>, out: seq<Token>, op: Op)
    requires IsBinary(op) && (pend == [] || pend == [op])
    requires below == [] || below[|below| - 1] == LBRC
    ensures PopAbove(below + pend, out, op) == (below, out + Unwind(pend))
  {
    if pend == [] {
      assert below + pend == below && out + Unwind(pend) == out;
      PopNothing(below, out, op);
    } else {
      UnwindOne(op);
      PopOne(below, out, op);
    }
  }

  lemma {:induction false} UnwindOne(op: Op)
    ensures Unwind([op]) == [Operation(op)]
  {
    assert [op][..0] == [];
  }

  /** `)` after a term's literals moves the pending inner operator, if any, and drops the `(`. */
  lemma {:induction false} ClosePending(base: seq<Op>, pend: seq<Op>, out: seq<Token>, op: Op)
    requires op != LBRC && (pend == [] || pend == [op])
    ensures CloseBracket(base + [LBRC] + pend, out) == (base, out + Unwind(pend))
  {
    assert (base + [LBRC])[..|base|] == base;
    if pend == [op] {
      assert (base + [LBRC] + pend)[..|base| + 1] == base + [LBRC];
      UnwindOne(op);
    } else {
      assert base + [LBRC] + pend == base + [LBRC] && out + Unwind(pend) == out;
    }
  }

  /** The character of an operator in the separators. */
  function Symbol(op: Op): char {
    if op == AND then '&' else '|'
  }

  lemma {:induction false} InnerSeparator(want: bool)
    ensures Inner(want) == [' ', Symbol(InnerOp(want)), ' '] && BinaryOf(Symbol(InnerOp(want))) == Some(InnerOp(want))
  {
  }

  lemma {:induction false} OuterSeparator(want: bool)
    ensures Outer(want) == [' ', Symbol(OuterOp(want)), ' '] && BinaryOf(Symbol(OuterOp(want))) == Some(OuterOp(want))
  {
  }

  /**
   * A separator ` & ` or ` | ` after an operand, where the stack holds at
   * most that operator above a bracket or the bottom: the operator pending
   * there moves out and the new one takes its place.
   */
  lemma {:induction false} OperatorRun(below: seq<Op>, pend: seq<Op>, out: seq<Token>, mayNot: bool, c: char)
    requires BinaryOf(c).Some? && (pend == [] || pend == [BinaryOf(c).value])
    requires below == [] || below[|below| - 1] == LBRC
    ensures Run(ParserState(below + pend, out, mayNot, true, false), [' ', c, ' '])
      == Ok(ParserState(below + [BinaryOf(c).value], out + Unwind(pend), true, false, false))
  {
    var st := ParserState(below + pend, out, mayNot, true, false);
    SeparatorRun(st, c);
    PopPending(below, pend, out, BinaryOf(c).value);
  }

  /** A further literal of a term: the pending inner operator, if any, moves out, the new one and the literal come in. */
  lemma {:induction false} NextLiteral(below: seq<Op>, pend: seq<Op>, out: seq<Token>, l: Literal, want: bool)
    requires below != [] && below[|below| - 1] == LBRC && IsLetter(l.letter)
    requires pend == [] || pend == [InnerOp(want)]
    ensures Run(ParserState(below + pend, out, false, true, false), Inner(want) + LiteralText(l))
      == Ok(ParserState(below + [InnerOp(want)], out + Unwind(pend) + [Variable(l.letter, l.negated)], false, true, false))
  {
    var st := ParserState(below + pend, out, false, true, false);
    var st2 := ParserState(below + [InnerOp(want)], out + Unwind(pend), true, false, false);
    InnerSeparator(want);
    OperatorRun(below, pend, out, false, Symbol(InnerOp(want)));
    LiteralRun(st2, l);
    RunAppend(st, Inner(want), LiteralText(l));
  }

  /** A term's text with one literal more. */
  lemma {:induction false} BodyTextSnoc(lits: seq<Literal>, want: bool)
    requires |lits| > 1
    ensures Join(Inner(want), LiteralTexts(lits))
      == Join(Inner(want), LiteralTexts(lits[..|lits| - 1])) + (Inner(want) + LiteralText(lits[|lits| - 1]))
  {
    var n := |lits|;
    assert LiteralTexts(lits)[..n - 1] == LiteralTexts(lits[..n - 1]);
  }

  /** A term's code with one literal more. */
  lemma {:induction false} BodyCodeSnoc(out0: seq<Token>, code: seq<Token>, lits: seq<Literal>, want: bool)
    requires |lits| > 1 && code == out0 + Postfix(TermExpr(lits[..|lits| - 1], want))
    ensures var l := lits[|lits| - 1];
      (code + [Variable(l.letter, l.negated)]) + Unwind([InnerOp(want)]) == out0 + Postfix(TermExpr(lits, want))
  {
    UnwindOne(InnerOp(want));
  }

  /** The step of `BodyRun`: one literal more, after the run for the others. */
  lemma {:induction false} BodyStep(base: seq<Op>, out0: seq<Token>, lits: seq<Literal>, want: bool, out1: seq<Token>, pend1: seq<Op>)
    requires |lits| > 1 && IsLetter(lits[|lits| - 1].letter)
    requires pend1 == [] || pend1 == [InnerOp(want)]
    requires Run(ParserState(base + [LBRC], out0, true, false, false), Join(Inner(want), LiteralTexts(lits[..|lits| - 1])))
      == Ok(ParserState(base + [LBRC] + pend1, out1, false, true, false))
    requires out1 + Unwind(pend1) == out0 + Postfix(TermExpr(lits[..|lits| - 1], want))
    ensures var l := lits[|lits| - 1];
      Run(ParserState(base + [LBRC], out0, true, false, false), Join(Inner(want), LiteralTexts(lits)))
        == Ok(ParserState(base + [LBRC] + [InnerOp(want)], out1 + Unwind(pend1) + [Variable(l.letter, l.negated)], false, true, false))
  {
    var last := lits[|lits| - 1];
    BodyTextSnoc(lits, want);
    NextLiteral(base + [LBRC], pend1, out1, last, want);
    RunAppend(ParserState(base + [LBRC], out0, true, false, false),
              Join(Inner(want), LiteralTexts(lits[..|lits| - 1])), Inner(want) + LiteralText(last));
  }

  /**
   * The literals of a term, read after its `(`: the bracket stays on the
   * stack, with the inner operator above it once two literals have been
   * read, and the output holds the term's code but for that operator.
   */
  lemma {:induction false} BodyRun(base: seq<Op>, out0: seq<Token>, lits: seq<Literal>, want: bool)
    returns (out: seq<Token>, pend: seq<Op>)
    requires |lits| > 0 && forall j :: 0 <= j < |lits| ==> IsLetter(lits[j].letter)
    ensures pend == [] || pend == [InnerOp(want)]
    ensures Run(ParserState(base + [LBRC], out0, true, false, false), Join(Inner(want), LiteralTexts(lits)))
      == Ok(ParserState(base + [LBRC] + pend, out, false, true, false))
    ensures out + Unwind(pend) == out0 + Postfix(TermExpr(lits, want))
    decreases |lits|
  {
    var n := |lits|;
    if n == 1 {
      LiteralRun(ParserState(base + [LBRC], out0, true, false, false), lits[0]);
      out, pend := out0 + [Variable(lits[0].letter, lits[0].negated)], [];
      assert base + [LBRC] + pend == base + [LBRC];
      assert out + Unwind(pend) == out;
    } else {
      var init, last := lits[..n - 1], lits[n - 1];
      assert forall j :: 0 <= j < n - 1 ==> init[j] == lits[j];
      var out1, pend1 := BodyRun(base, out0, init, want);
      BodyStep(base, out0, lits, want, out1, pend1);
      out, pend := out1 + Unwind(pend1) + [Variable(last.letter, last.negated)], [InnerOp(want)];
      BodyCodeSnoc(out0, out1 + Unwind(pend1), lits, want);
    }
  }

  /** The bracketed text of a term. */
  function BracketText(lits: seq<Literal>, want: bool): string {
    "(" + Join(Inner(want), LiteralTexts(lits)) + ")"
  }

  /** A whole term, read where no negation is pending: the stack is as before and the term's code is output. */
  lemma {:induction false} TermRun(st: ParserState, lits: seq<Literal>, want: bool)
    requires !st.pendingNot && |lits| > 0 && forall j :: 0 <= j < |lits| ==> IsLetter(lits[j].letter)
    ensures Run(st, BracketText(lits, want)) == Ok(ParserState(st.ops, st.out + Postfix(TermExpr(lits, want)), true, true, false))
  {
    var body := Join(Inner(want), LiteralTexts(lits));
    var st0 := ParserState(st.ops + [LBRC], st.out, true, false, false);
    StepTable(st, '(');
    assert Run(st, "(") == Ok(st0) by {
      assert "("[1..] == "";
    }
    var out, pend := BodyRun(st.ops, st.out, lits, want);
    var st1 := ParserState(st.ops + [LBRC] + pend, out, false, true, false);
    StepTable(st1, ')');
    ClosePending(st.ops, pend, out, InnerOp(want));
    assert Run(st1, ")") == Ok(ParserState(st.ops, st.out + Postfix(TermExpr(lits, want)), true, true, false)) by {
      assert ")"[1..] == "";
    }
    RunAppend(st, "(", body);
    RunAppend(st, "(" + body, ")");
  }

  /** A further term of a form: the pending outer operator, if any, moves out, the new one and the term's code come in. */
  lemma {:induction false} NextTerm(pend: seq<Op>, out: seq<Token>, lits: seq<Literal>, want: bool)
    requires pend == [] || pend == [OuterOp(want)]
    requires |lits| > 0 && forall j :: 0 <= j < |lits| ==> IsLetter(lits[j].letter)
    ensures Run(ParserState(pend, out, true, true, false), Outer(want) + BracketText(lits, want))
      == Ok(ParserState([OuterOp(want)], out + Unwind(pend) + Postfix(TermExpr(lits, want)), true, true, false))
  {
    var st := ParserState(pend, out, true, true, false);
    var st2 := ParserState([OuterOp(want)], out + Unwind(pend), true, false, false);
    OuterSeparator(want);
    OperatorRun([], pend, out, true, Symbol(OuterOp(want)));
    assert [] + pend == pend && [] + [OuterOp(want)] == [OuterOp(want)];
    TermRun(st2, lits, want);
    RunAppend(st, Outer(want), BracketText(lits, want));
  }

  /** The literals of the term for row `k` are letters when the keys are. */
  lemma {:induction false} LiteralsAreLetters(keys: seq<char>, k: nat, want: bool)
    requires AllLetters(keys)
    ensures var lits := Literals(keys, Enum(|keys|, k), want);
      forall j :: 0 <= j < |lits| ==> IsLetter(lits[j].letter)
  {
  }

  /** A row answered `want` adds its bracketed term to the text and to the tree of the form. */
  lemma {:induction false} FormSnoc(keys: seq<char>, v: seq<bool>, want: bool)
    requires |keys| > 0 && |v| > 0 && v[|v| - 1] == want
    ensures var v', lits := v[..|v| - 1], Literals(keys, Enum(|keys|, |v| - 1), want);
      Form(keys, v, want) ==
        (if Form(keys, v', want) == "" then BracketText(lits, want)
         else Form(keys, v', want) + (Outer(want) + BracketText(lits, want)))
    ensures var v', lits := v[..|v| - 1], Literals(keys, Enum(|keys|, |v| - 1), want);
      FormExpr(keys, v', want).None? ==> FormExpr(keys, v, want) == Some(TermExpr(lits, want))
    ensures var v', lits := v[..|v| - 1], Literals(keys, Enum(|keys|, |v| - 1), want);
      FormExpr(keys, v', want).Some? ==>
        FormExpr(keys, v, want) == Some(Bin(OuterOp(want), FormExpr(keys, v', want).value, TermExpr(lits, want)))
  {
    var lits := Literals(keys, Enum(|keys|, |v| - 1), want);
    assert BracketText(lits, want) == TermText(keys, Enum(|keys|, |v| - 1), want);
  }

  /**
   * The text of a form, read from the start: the stack holds the outer
   * operator once two terms have been read, and the output holds the
   * form's code but for that operator.
   */
  lemma {:induction false} FormRun(keys: seq<char>, v: seq<bool>, want: bool) returns (out: seq<Token>, pend: seq<Op>)
    requires |keys| > 0 && AllLetters(keys)
    ensures Form(keys, v, want) == "" <==> FormExpr(keys, v, want).None?
    ensures FormExpr(keys, v, want).Some? ==>
      (pend == [] || pend == [OuterOp(want)]) &&
      Run(Start, Form(keys, v, want)) == Ok(ParserState(pend, out, true, true, false)) &&
      out + Unwind(pend) == Postfix(FormExpr(keys, v, want).value)
    decreases |v|
  {
    if v == [] {
      out, pend := [], [];
      return;
    }
    var n := |v|;
    var v' := v[..n - 1];
    var prev := Form(keys, v', want);
    var out', pend' := FormRun(keys, v', want);
    if v[n - 1] != want {
      out, pend := out', pend';
      return;
    }
    if prev == "" {
      out, pend := FormFirst(keys, v, want);
    } else {
      out, pend := FormStep(keys, v, want, out', pend');
    }
  }

  /** The step of `FormRun` when the last row adds the first term. */
  lemma {:induction false} FormFirst(keys: seq<char>, v: seq<bool>, want: bool) returns (out: seq<Token>, pend: seq<Op>)
    requires |keys| > 0 && AllLetters(keys) && |v| > 0 && v[|v| - 1] == want
    requires Form(keys, v[..|v| - 1], want) == "" && FormExpr(keys, v[..|v| - 1], want).None?
    ensures Form(keys, v, want) != "" && FormExpr(keys, v, want).Some? && pend == []
    ensures Run(Start, Form(keys, v, want)) == Ok(ParserState(pend, out, true, true, false))
    ensures out + Unwind(pend) == Postfix(FormExpr(keys, v, want).value)
  {
    var lits := Literals(keys, Enum(|keys|, |v| - 1), want);
    LiteralsAreLetters(keys, |v| - 1, want);
    FormSnoc(keys, v, want);
    out, pend := Postfix(TermExpr(lits, want)), [];
    assert Form(keys, v, want) == BracketText(lits, want);
    assert Start.ops == [] && Start.out + out == out;
    TermRun(Start, lits, want);
    assert out + Unwind(pend) == out;
  }

  /** The step of `FormRun` when the last row adds a term after earlier ones. */
  lemma {:induction false} FormStep(keys: seq<char>, v: seq<bool>, want: bool, out': seq<Token>, pend': seq<Op>)
    returns (out: seq<Token>, pend: seq<Op>)
    requires |keys| > 0 && AllLetters(keys) && |v| > 0 && v[|v| - 1] == want
    requires Form(keys, v[..|v| - 1], want) != "" && FormExpr(keys, v[..|v| - 1], want).Some?
    requires pend' == [] || pend' == [OuterOp(want)]
    requires Run(Start, Form(keys, v[..|v| - 1], want)) == Ok(ParserState(pend', out', true, true, false))
    requires out' + Unwind(pend') == Postfix(FormExpr(keys, v[..|v| - 1], want).value)
    ensures FormExpr(keys, v, want).Some? && pend == [OuterOp(want)]
    ensures Run(Start, Form(keys, v, want)) == Ok(ParserState(pend, out, true, true, false))
    ensures out + Unwind(pend) == Postfix(FormExpr(keys, v, want).value)
  {
    var n := |v|;
    var v' := v[..n - 1];
    var prev := Form(keys, v', want);
    var lits := Literals(keys, Enum(|keys|, n - 1), want);
    LiteralsAreLetters(keys, n - 1, want);
    FormSnoc(keys, v, want);
    NextTerm(pend', out', lits, want);
    RunAppend(Start, prev, Outer(want) + BracketText(lits, want));
    out, pend := out' + Unwind(pend') + Postfix(TermExpr(lits, want)), [OuterOp(want)];
    UnwindOne(OuterOp(want));
  }

  /** The final flush moves the pending outer operator, if any. */
  lemma {:induction false} FlushPending(pend: seq<Op>, out: seq<Token>, op: Op)
    requires op != LBRC && (pend == [] || pend == [op])
    ensures Flush(pend, out) == Ok(out + Unwind(pend))
  {
    if pend == [op] {
      UnwindOne(op);
      assert [op][..0] == [];
    } else {
      assert out + Unwind(pend) == out;
    }
  }

  /* ------------------------------------------------------ the meaning */

  /** A term's tree is closed and holds exactly when the term holds: all literals (PDNF) or some literal (PCNF). */
  lemma {:induction false} DenoteTerm(keys: seq<char>, u: seq<bool>, lits: seq<Literal>, want: bool)
    requires |keys| == |u| && |lits| > 0 && forall j :: 0 <= j < |lits| ==> lits[j].letter in keys
    ensures Closed(TermExpr(lits, want), keys)
    ensures Denote(TermExpr(lits, want), keys, u) <==>
      if want then forall j :: 0 <= j < |lits| ==> LiteralHolds(lits[j], keys, u)
      else exists j :: 0 <= j < |lits| && LiteralHolds(lits[j], keys, u)
    decreases |lits|
  {
    var n := |lits|;
    var last := lits[n - 1];
    assert Denote(LiteralExpr(last), keys, u) <==> LiteralHolds(last, keys, u);
    if n > 1 {
      var init := lits[..n - 1];
      DenoteTerm(keys, u, init, want);
      assert forall j :: 0 <= j < n - 1 ==> init[j] == lits[j];
      if want {
        if forall j :: 0 <= j < n - 1 ==> LiteralHolds(init[j], keys, u) {
          assert forall j :: 0 <= j < n - 1 ==> LiteralHolds(lits[j], keys, u);
        }
      } else {
        if exists j :: 0 <= j < n && LiteralHolds(lits[j], keys, u) {
          var j :| 0 <= j < n && LiteralHolds(lits[j], keys, u);
          if j < n - 1 {
            assert LiteralHolds(init[j], keys, u);
          }
        }
      }
    }
  }

  /** One more answer adds its row's term to the form's meaning when it is the answer collected. */
  lemma {:induction false} FormHoldsSnoc(keys: seq<char>, v: seq<bool>, want: bool, u: seq<bool>)
    requires |keys| == |u| && |v| > 0
    ensures var n, v', k := |keys|, v[..|v| - 1], |v| - 1;
      FormHolds(keys, v, want, u) <==>
        if want then FormHolds(keys, v', want, u) || (v[k] && TermHolds(keys, Enum(n, k), want, u))
        else FormHolds(keys, v', want, u) && (!v[k] ==> TermHolds(keys, Enum(n, k), want, u))
  {
    var v' := v[..|v| - 1];
    assert forall k :: 0 <= k < |v'| ==> v'[k] == v[k];
  }

  /** A form's tree, when there is one, is closed and holds exactly when the form holds. */
  lemma {:induction false} DenoteForm(keys: seq<char>, v: seq<bool>, want: bool, u: seq<bool>)
    requires |keys| > 0 && |keys| == |u|
    ensures FormExpr(keys, v, want).None? ==> forall k :: 0 <= k < |v| ==> v[k] != want
    ensures FormExpr(keys, v, want).Some? ==>
      Closed(FormExpr(keys, v, want).value, keys) &&
      (Denote(FormExpr(keys, v, want).value, keys, u) <==> FormHolds(keys, v, want, u))
    decreases |v|
  {
    if v != [] {
      var n, v', k := |keys|, v[..|v| - 1], |v| - 1;
      DenoteForm(keys, v', want, u);
      FormHoldsSnoc(keys, v, want, u);
      assert forall i :: 0 <= i < |v'| ==> v'[i] == v[i];
      if v[k] == want {
        var lits := Literals(keys, Enum(n, k), want);
        DenoteTerm(keys, u, lits, want);
        if FormExpr(keys, v', want).None? {
          if want {
            assert !FormHolds(keys, v', want, u);
          } else {
            assert FormHolds(keys, v', want, u);
          }
        }
      }
    }
  }

  /**
   * A non-empty form, read back by the parser and evaluated under any
   * assignment of its keys, gives exactly the form's meaning.
   */
  lemma {:induction false} FormReparse(keys: seq<char>, v: seq<bool>, want: bool, u: seq<bool>)
    requires |keys| > 0 && AllLetters(keys) && |u| == |keys| && Form(keys, v, want) != ""
    ensures Parse(Form(keys, v, want)).Ok?
    ensures Eval(keys, u, Parse(Form(keys, v, want)).value) == Ok(FormHolds(keys, v, want, u))
  {
    var out, pend := FormRun(keys, v, want);
    var e := FormExpr(keys, v, want).value;
    FlushPending(pend, out, OuterOp(want));
    assert Parse(Form(keys, v, want)) == Ok(Postfix(e));
    DenoteForm(keys, v, want, u);
    EvalPostfix(keys, u, e);
  }

  /* ------------------------------------------------- the keys are letters */

  lemma {:induction false} MarksAreLetters(s: string, pending: bool)
    ensures forall k :: 0 <= k < |Marks(s, pending)| ==> Marks(s, pending)[k].Variable? && IsLetter(Marks(s, pending)[k].letter)
    decreases |s|
  {
    if s != [] {
      MarksAreLetters(s[1..], AfterChar(s[0], pending));
    }
  }

  lemma {:induction false} VariableKept(ts: seq<Token>, k: nat)
    requires k < |ts| && ts[k].Variable?
    ensures ts[k] in VariablesOf(ts)
    decreases |ts|
  {
    if k < |ts| - 1 {
      var init := ts[..|ts| - 1];
      assert init[k] == ts[k];
      VariableKept(init, k);
    }
  }

  /** The keys of the table built from a parsed expression are letters. */
  lemma {:induction false} KeysAreLetters(expression: string)
    requires Parse(expression).Ok?
    ensures AllLetters(KeysOf(Parse(expression).value))
  {
    var rpn := Parse(expression).value;
    ParseMarks(expression);
    MarksAreLetters(expression, false);
    KeysOfSpec(rpn);
    forall j | 0 <= j < |KeysOf(rpn)|
      ensures IsLetter(KeysOf(rpn)[j])
    {
      assert KeysOf(rpn)[j] in LettersOf(rpn);
      var k :| 0 <= k < |rpn| && rpn[k].Variable? && rpn[k].letter == KeysOf(rpn)[j];
      VariableKept(rpn, k);
    }
  }
}
