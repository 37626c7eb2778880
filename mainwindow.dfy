/**
 * `MainWindow.Solve`, the handler of the "solve" button, without its text
 * boxes: it converts the expression, builds the table of variables, then
 * walks the truth table row by row, evaluating the expression, extending
 * the PDNF or the PCNF and recording the answer, and advancing the
 * variables after each row. What it would show is the `Outcome`.
 */
module MainWindow {
  import opened Wrappers
  import opened Tokens
  import opened Parser
  import opened ParserFacts
  import opened Enumerator
  import opened Evaluator
  import opened NormalForms
  import opened Reparse

  /* ------------------------------------------------------- the row count */

  /**
   * `2 << variablesTable.Count - 1` evaluated on C# `int`: the shift count
   * is taken modulo 32 and the product wraps to a signed 32-bit value.
   */
  function ShiftBound(n: nat): int {
    var shift := (n - 1) % 32;
    var raw := (2 * Pow2(shift)) % 0x1_0000_0000;
    if raw < 0x8000_0000 then raw else raw - 0x1_0000_0000
  }

  /** How many rows the loop `for (int i = 0; i < 2 << n - 1; i++)` runs. */
  function RowCount(n: nat): nat {
    if ShiftBound(n) > 0 then ShiftBound(n) else 0
  }

  lemma {:induction false} Pow2Grows(m: nat, n: nat)
    requires m <= n
    ensures Pow2(m) <= Pow2(n)
    decreases n
  {
    if m < n {
      Pow2Grows(m, n - 1);
    }
  }

  lemma Pow2Thirty()
    ensures Pow2(30) == 0x4000_0000
  {
    assert Pow2(10) == 1024;
    assert Pow2(20) == 1024 * 1024;
  }

  lemma ShiftCountSmall(k: int)
    requires 0 <= k < 32
    ensures k % 32 == k
  {
  }

  lemma WrapSmall(x: int)
    requires 0 <= x < 0x8000_0000
    ensures x % 0x1_0000_0000 == x
  {
  }

  /** With 1 to 30 variables the loop runs once for each of the `2^n` assignments. */
  lemma RowCountIsPow2(n: nat)
    requires 1 <= n <= 30
    ensures RowCount(n) == Pow2(n)
  {
    Pow2Grows(n, 30);
    Pow2Thirty();
    ShiftCountSmall(n - 1);
    var raw := 2 * Pow2(n - 1);
    assert raw == Pow2(n) < 0x8000_0000;
    WrapSmall(raw);
    assert ShiftBound(n) == raw;
  }

  /** A shift count of 31: `2 << 31` wraps to zero. */
  lemma ShiftWrapsToZero(n: nat)
    requires (n - 1) % 32 == 31
    ensures ShiftBound(n) == 0
  {
    Pow2Thirty();
    var raw := 2 * Pow2(31);
    assert raw == 0x1_0000_0000;
    assert raw % 0x1_0000_0000 == 0;
  }

  /** A shift count of 30: `2 << 30` is the sign bit, a negative `int`. */
  lemma ShiftIsNegative(n: nat)
    requires (n - 1) % 32 == 30
    ensures ShiftBound(n) < 0
  {
    Pow2Thirty();
    var raw := 2 * Pow2(30);
    assert raw == 0x8000_0000;
    WrapSmall(raw - 1);
    assert raw % 0x1_0000_0000 == raw;
  }

  /**
   * Outside that range the shift does not count rows: no variable gives no
   * row, and 31 and 32 variables give none (the value is negative or wraps
   * to zero).
   */
  lemma NoRows(n: nat)
    requires n == 0 || n == 31 || n == 32
    ensures RowCount(n) == 0
  {
    if n == 31 {
      ShiftIsNegative(n);
    } else {
      ShiftWrapsToZero(n);
    }
  }

  /** Only the shift count modulo 32 matters: 33 variables give two rows, 34 give four, and so on. */
  lemma RowCountPeriodic(n: nat)
    requires n >= 1
    ensures RowCount(n + 32) == RowCount(n)
  {
    assert (n + 32 - 1) % 32 == (n - 1) % 32;
  }

  /* ------------------------------------------------------------ the rows */

  /**
   * The answers of the rows `0 .. count - 1`, row `k` holding the values
   * `Enum(|keys|, k)`; the first row whose evaluation throws ends the walk
   * with that exception.
   */
  function Answers(keys: seq<char>, rpn: seq<Token>, count: nat): Result<seq<bool>, EvalError>
    decreases count
  {
    if count == 0 then Ok([])
    else
      match Answers(keys, rpn, count - 1)
      case Err(e) => Err(e)
      case Ok(v) =>
        match Eval(keys, Enum(|keys|, count - 1), rpn)
        case Err(e) => Err(e)
        case Ok(b) => Ok(v + [b])
  }

  /** The walk records one answer per row, or stops at the first row that throws. */
  lemma {:induction false} AnswersSpec(keys: seq<char>, rpn: seq<Token>, count: nat)
    ensures Answers(keys, rpn, count).Ok? ==>
      var v := Answers(keys, rpn, count).value;
      |v| == count && forall k :: 0 <= k < count ==> Eval(keys, Enum(|keys|, k), rpn) == Ok(v[k])
    ensures Answers(keys, rpn, count).Err? ==>
      exists k :: 0 <= k < count && Eval(keys, Enum(|keys|, k), rpn) == Err(Answers(keys, rpn, count).error)
    decreases count
  {
    if count > 0 {
      AnswersSpec(keys, rpn, count - 1);
      var row := Eval(keys, Enum(|keys|, count - 1), rpn);
      if Answers(keys, rpn, count - 1).Ok? && row.Ok? {
        var v := Answers(keys, rpn, count - 1).value;
        assert Answers(keys, rpn, count).value == v + [row.value];
      } else if Answers(keys, rpn, count - 1).Ok? {
        assert Answers(keys, rpn, count) == Err(row.error);
      } else {
        assert Answers(keys, rpn, count) == Answers(keys, rpn, count - 1);
      }
    }
  }

  /** A row that throws, after rows that did not, ends every longer walk with its exception. */
  lemma {:induction false} AnswersStop(keys: seq<char>, rpn: seq<Token>, i: nat, count: nat)
    requires i < count && Answers(keys, rpn, i).Ok? && Eval(keys, Enum(|keys|, i), rpn).Err?
    ensures Answers(keys, rpn, count) == Err(Eval(keys, Enum(|keys|, i), rpn).error)
    decreases count
  {
    if count > i + 1 {
      AnswersStop(keys, rpn, i, count - 1);
    }
  }

  lemma AnswersSnoc(keys: seq<char>, rpn: seq<Token>, i: nat, v: seq<bool>, b: bool)
    requires Answers(keys, rpn, i) == Ok(v) && Eval(keys, Enum(|keys|, i), rpn) == Ok(b)
    ensures Answers(keys, rpn, i + 1) == Ok(v + [b])
  {
  }

  /** One more answer extends a form by that row's term exactly when the answer is `want`. */
  lemma FormSnoc(keys: seq<char>, v: seq<bool>, b: bool, want: bool)
    ensures var f := Form(keys, v, want);
      Form(keys, v + [b], want) ==
        if b != want then f else (if |f| != 0 then f + Outer(want) else f) + TermText(keys, Enum(|keys|, |v|), want)
  {
    assert (v + [b])[..|v|] == v;
  }

  /* ------------------------------------------------------------ the text */

  /** The vector of answers as `Convert.ToInt32` writes it: `1` for true, `0` for false. */
  function VectorText(v: seq<bool>): (r: string)
    ensures |r| == |v|
    ensures forall k :: 0 <= k < |v| ==> r[k] == (if v[k] then '1' else '0')
  {
    seq(|v|, k requires 0 <= k < |v| => if v[k] then '1' else '0')
  }

  /** The text of a term after its first `j` literals: the separator follows each literal but the last. */
  ghost function Written(sep: string, parts: seq<string>, j: nat): string
    requires j <= |parts|
  {
    Join(sep, parts[..j]) + (if 0 < j < |parts| then sep else "")
  }

  /** Writing the next literal, and the separator unless it is the last. */
  lemma WriteLiteral(open: string, sep: string, parts: seq<string>, j: nat)
    requires j < |parts|
    ensures open + Written(sep, parts, j) + parts[j] + (if j != |parts| - 1 then sep else "")
      == open + Written(sep, parts, j + 1)
  {
    var before, gap := Join(sep, parts[..j]), if 0 < j then sep else "";
    var after := if j != |parts| - 1 then sep else "";
    JoinStep(sep, parts, j);
    assert parts[..0] == [];
    assert Join(sep, parts[..j + 1]) == before + gap + parts[j];
    assert Written(sep, parts, j) == before + gap;
    assert Written(sep, parts, j + 1) == before + gap + parts[j] + after;
    AppendAssoc(open, before + gap, parts[j]);
    AppendAssoc(open, before + gap + parts[j], after);
  }

  /** The loop that writes one bracketed term for the current row. */
  method WriteTerm(text: string, table: VariableTable, want: bool) returns (r: string)
    requires table.Valid()
    ensures r == text + TermText(table.keys, table.values, want)
  {
    ghost var parts := LiteralTexts(Literals(table.keys, table.values, want));
    ghost var open, sep := text + "(", Inner(want);
    var n := |table.keys|;
    r := text + "(";
    var j := 0;
    while j < n
      invariant 0 <= j <= n
      invariant r == open + Written(sep, parts, j)
    {
      var k, v := table.keys[j], table.values[j];
      var literal: string;
      if want {
        literal := if !v then ['!', k] else [k];
      } else {
        literal := if v then ['!', k] else [k];
      }
      assert literal == parts[j];
      WriteLiteral(open, sep, parts, j);
      r := r + literal;
      if j != n - 1 {
        r := r + Inner(want);
      } else {
        assert r == r + "";
      }
      j := j + 1;
    }
    assert parts[..n] == parts;
    AppendAssoc(text, "(", Join(sep, parts));
    r := r + ")";
  }

  /** The loop that writes the answer vector after the rows. */
  method WriteVector(answers: seq<bool>) returns (text: string)
    ensures text == VectorText(answers)
  {
    text := "";
    var k := 0;
    while k < |answers|
      invariant 0 <= k <= |answers|
      invariant text == VectorText(answers[..k])
    {
      assert answers[..k + 1] == answers[..k] + [answers[k]];
      text := text + [if answers[k] then '1' else '0'];
      k := k + 1;
    }
    assert answers[..k] == answers;
  }

  /* --------------------------------------------------------- the handler */

  /** What the handler ends with. */
  datatype Outcome =
    | NoInput                         // the expression box is empty: nothing happens
    | ParseFailed(parseError: ParseError)
    | EvalFailed(evalError: EvalError) // a row threw: the table is cleared, nothing is shown
    | Solved(keys: seq<char>, vector: seq<bool>, vectorText: string, pdnf: string, pcnf: string)

  /** The outcome of the handler for `expression`. */
  function SolveSpec(expression: string): Outcome {
    if |expression| == 0 then NoInput
    else
      match Parse(expression)
      case Err(e) => ParseFailed(e)
      case Ok(rpn) =>
        var keys := KeysOf(rpn);
        match Answers(keys, rpn, RowCount(|keys|))
        case Err(e) => EvalFailed(e)
        case Ok(v) => Solved(keys, v, VectorText(v), Form(keys, v, true), Form(keys, v, false))
  }

  lemma SolveSpecRows(expression: string, rpn: seq<Token>)
    requires |expression| > 0 && Parse(expression) == Ok(rpn)
    ensures var keys := KeysOf(rpn);
      SolveSpec(expression) ==
        match Answers(keys, rpn, RowCount(|keys|))
        case Err(e) => EvalFailed(e)
        case Ok(v) => Solved(keys, v, VectorText(v), Form(keys, v, true), Form(keys, v, false))
  {
  }

  /** `MainWindow.Solve`. */
  method Solve(expression: string) returns (r: Outcome)
    ensures r == SolveSpec(expression)
  {
    if |expression| == 0 {
      return NoInput;
    }
    var parsed := ToRPN(expression);
    if parsed.Err? {
      return ParseFailed(parsed.error);
    }
    var rpn := parsed.value;
    var table := GetVariableDict(rpn);
    var keys := table.keys;
    var n := |keys|;
    SolveSpecRows(expression, rpn);
    assert table.values == Enum(n, 0);
    var answers: seq<bool> := [];
    var pdnf, pcnf := "", "";
    var bound := ShiftBound(n);
    ghost var rows := RowCount(n);
    assert rows == if bound > 0 then bound else 0;
    var i := 0;
    while i < bound
      invariant 0 <= i <= rows
      invariant table.Valid() && table.keys == keys && table.values == Enum(n, i)
      invariant |answers| == i && Answers(keys, rpn, i) == Ok(answers)
      invariant pdnf == Form(keys, answers, true) && pcnf == Form(keys, answers, false)
    {
      var answer := Evaluator.Solve(table, rpn);
      if answer.Err? {
        AnswersStop(keys, rpn, i, rows);
        return EvalFailed(answer.error);
      }
      AnswersSnoc(keys, rpn, i, answers, answer.value);
      FormSnoc(keys, answers, answer.value, true);
      FormSnoc(keys, answers, answer.value, false);
      if answer.value {
        if |pdnf| != 0 {
          pdnf := pdnf + " | ";
        }
        pdnf := WriteTerm(pdnf, table, true);
      } else {
        if |pcnf| != 0 {
          pcnf := pcnf + " & ";
        }
        pcnf := WriteTerm(pcnf, table, false);
      }
      answers := answers + [answer.value];
      ShiftVariables(table);
      assert table.values == Enum(n, i + 1);
      i := i + 1;
    }
    var vectorText := WriteVector(answers);
    assert Answers(keys, rpn, RowCount(n)) == Ok(answers);
    return Solved(keys, answers, vectorText, pdnf, pcnf);
  }

  /* ------------------------------------------------------ what it means */

  /**
   * With 1 to 30 variables, a solved expression has one answer per
   * assignment of its variables, the answer `Solve` gives for it, and both
   * normal forms hold under an assignment exactly when that answer is
   * `true`.
   */
  lemma SolveMeaning(expression: string, u: seq<bool>)
    requires SolveSpec(expression).Solved?
    requires 1 <= |SolveSpec(expression).keys| <= 30 && |u| == |SolveSpec(expression).keys|
    ensures Parse(expression).Ok?
    ensures var out := SolveSpec(expression); var rpn := Parse(expression).value;
      Eval(out.keys, u, rpn).Ok? &&
      (FormHolds(out.keys, out.vector, true, u) <==> Eval(out.keys, u, rpn) == Ok(true)) &&
      (FormHolds(out.keys, out.vector, false, u) <==> Eval(out.keys, u, rpn) == Ok(true))
  {
    var rpn := Parse(expression).value;
    var keys := KeysOf(rpn);
    var n := |keys|;
    KeysOfSpec(rpn);
    RowCountIsPow2(n);
    AnswersSpec(keys, rpn, RowCount(n));
    var v := Answers(keys, rpn, RowCount(n)).value;
    EnumCovers(u);
    FormMeansAnswer(keys, v, true, u);
    FormMeansAnswer(keys, v, false, u);
  }
  /**
   * The PDNF and the PCNF the handler shows compute the expression: each
   * one, when it is not empty, is accepted by the parser, and its code
   * gives, under every assignment of the keys, the same value as the code
   * of the expression itself.
   */
  lemma SolveFormsRoundTrip(expression: string, u: seq<bool>)
    requires SolveSpec(expression).Solved?
    requires 1 <= |SolveSpec(expression).keys| <= 30 && |u| == |SolveSpec(expression).keys|
    ensures Parse(expression).Ok?
    ensures var out := SolveSpec(expression);
      out.pdnf != "" ==>
        Parse(out.pdnf).Ok? && Eval(out.keys, u, Parse(out.pdnf).value) == Eval(out.keys, u, Parse(expression).value)
    ensures var out := SolveSpec(expression);
      out.pcnf != "" ==>
        Parse(out.pcnf).Ok? && Eval(out.keys, u, Parse(out.pcnf).value) == Eval(out.keys, u, Parse(expression).value)
  {
    SolvedFields(expression);
    var out := SolveSpec(expression);
    var rpn := Parse(expression).value;
    var keys, v := out.keys, out.vector;
    SolveMeaning(expression, u);
    KeysAreLetters(expression);
    var b := Eval(keys, u, rpn).value;
    assert FormHolds(keys, v, true, u) == b && FormHolds(keys, v, false, u) == b;
    if out.pdnf != "" {
      FormReparse(keys, v, true, u);
    }
    if out.pcnf != "" {
      FormReparse(keys, v, false, u);
    }
  }

  /** What a solved outcome holds: the keys of the expression's code and the two forms of its vector. */
  lemma SolvedFields(expression: string)
    requires SolveSpec(expression).Solved?
    ensures Parse(expression).Ok?
    ensures var out := SolveSpec(expression);
      out.keys == KeysOf(Parse(expression).value) &&
      out.pdnf == Form(out.keys, out.vector, true) && out.pcnf == Form(out.keys, out.vector, false)
  {
  }



  /** The forms are the bracketed terms of the rows answered `true` (PDNF) and `false` (PCNF), joined. */
  lemma SolveText(expression: string)
    requires SolveSpec(expression).Solved?
    ensures var out := SolveSpec(expression);
      out.pdnf == Join(" | ", Terms(out.keys, out.vector, true)) &&
      out.pcnf == Join(" & ", Terms(out.keys, out.vector, false))
  {
    var out := SolveSpec(expression);
    FormIsJoin(out.keys, out.vector, true);
    FormIsJoin(out.keys, out.vector, false);
  }

  /**
   * A row can only fail by stack underflow: the table holds every letter of
   * the postfix code and the code holds no `!` or bracket, so an unknown
   * key or an invalid operation never occurs; and a row exists only when
   * there is a variable, which leaves a value for the final `Pop`.
   */
  lemma EvalFailsOnlyOnStack(expression: string)
    requires SolveSpec(expression).EvalFailed?
    ensures SolveSpec(expression).evalError == StackUnderflow
  {
    var rpn := Parse(expression).value;
    var keys := KeysOf(rpn);
    KeysOfSpec(rpn);
    ParseShape(expression);
    AnswersSpec(keys, rpn, RowCount(|keys|));
    var k :| 0 <= k < RowCount(|keys|) && Eval(keys, Enum(|keys|, k), rpn) == Err(SolveSpec(expression).evalError);
    forall j | 0 <= j < |rpn|
      ensures if rpn[j].Variable? then rpn[j].letter in keys else IsBinary(rpn[j].op)
    {
      assert Emittable(rpn[j]);
      if rpn[j].Variable? {
        assert rpn[j].letter in LettersOf(rpn);
      }
    }
    ExecFailsOnlyOnStack(keys, Enum(|keys|, k), [], rpn);
    if |keys| == 0 {
      NoRows(0);
    }
    assert keys[0] in LettersOf(rpn);
    var j :| 0 <= j < |rpn| && rpn[j].Variable? && rpn[j].letter == keys[0];
    ExecLeavesValue(keys, Enum(|keys|, k), [], rpn);
  }

  /**
   * An expression that parses but has no variable gets no row at all, so
   * it is "solved" with empty forms even when its code cannot be evaluated
   * (`&`, `()`).
   */
  lemma NoVariablesNoRows(expression: string)
    requires |expression| > 0 && Parse(expression).Ok? && LettersOf(Parse(expression).value) == {}
    ensures SolveSpec(expression) == Solved([], [], "", "", "")
  {
    var rpn := Parse(expression).value;
    KeysOfSpec(rpn);
    if KeysOf(rpn) != [] {
      assert KeysOf(rpn)[0] in KeysOf(rpn);
    }
    NoRows(0);
  }
}
