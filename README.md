# BoolSolver core in Dafny

BoolSolver is a small WPF desktop program. The user types a Boolean
expression over single-letter variables, using `!` (not), `&` (and),
`|` (or), `^` (xor), `=` (equivalence), `@` (implication) and brackets.
The "solve" button then shows three things:

- the truth table and the function vector;
- the perfect disjunctive normal form (PDNF);
- the perfect conjunctive normal form (PCNF).

This project models the computing core of that program, all of it in
`MainWindow.xaml.cs`:

- **Tokens** (`tokens.dfy`): `Token.CharToToken` and
  `OperationToken.ToChar`.
- **Parser** (`parser.dfy`, `parser_facts.dfy`): `RPN.getPrior`, and
  `RPN.ToRPN`, the shunting-yard conversion to reverse Polish notation.
  - The conversion has two stacks and three flags: `MayNOT`, `MayOPERATOR`
    and `NOT`.
  - A `!` in front of a variable is folded into that variable's `Inverted`
    mark.
  - `ToRPN` is an imperative `method` over the input characters. It is
    proved equal to the functional `Parse`, which is built from one
    `Step` per character.
  - The properties of `Parse` are in `parser_facts.dfy`:
    - the shape of the output;
    - which variables and which operations it holds;
    - operator precedence;
    - the inputs it rejects.
- **Variable table** (`enumerator.dfy`): `RPN.getVariableDict` and
  `RPN.ShiftVariables`.
  - The `SortedDictionary<char, bool>` is a `VariableTable` object. It
    keeps its keys in ascending order and its values in the same order.
  - `ShiftVariables` is a binary increment in which the greatest letter is
    the least significant digit. The walk therefore visits every
    assignment, each exactly once, in counting order.
- **Evaluation** (`evaluator.dfy`): `RPN.Solve`, a stack machine over the
  postfix tokens.
  - Every exception it can throw is a case of `EvalError`.
  - It is proved to compute the value of an expression tree from the
    tree's postfix code.
- **Normal forms** (`normalforms.dfy`): the text of the PDNF and the PCNF
  that the button handler builds, and what that text means.
- **The handler** (`mainwindow.dfy`): the row loop of `MainWindow.Solve`,
  without its text boxes.
  - The imperative `Solve` is proved equal to `SolveSpec`.
  - Its outcome is proved to be the truth table of the expression.
  - Both normal forms are proved to hold exactly where the expression is
    true.
- **Reading the forms back** (`reparse.dfy`): the PDNF and the PCNF text,
  given back to `RPN.ToRPN`, is accepted.
  - Its postfix code is proved to compute, under every assignment, the
    same value as the expression the forms were built from.

Two behaviours of the code are easy to misread, and the model follows the
code in both.

- **Implication.** The evaluator pops `X` first and pushes `!X | Y`. `X`
  is the right operand, so `A@B` computes `!B | A`, that is "B implies A",
  and its vector over the rows `00, 01, 10, 11` of `A B` is `1011`, not the
  `1101` of "A implies B". See `Evaluator.EvalImplicationReversed` and
  `Parser.ParseImplication`.
- **Row count.** The loop bound `2 << variablesTable.Count - 1` is
  evaluated on C# `int`. The shift count is taken modulo 32 and the result
  wraps to a signed 32-bit value. So:
  - 1 to 30 variables give `2^n` rows;
  - 0, 31 and 32 variables give no rows at all;
  - beyond 32, the count repeats with period 32.

  An expression without variables, such as `&` or `()`, therefore parses
  and ends with empty output, not with an error.

## Model

The definitions that make up the model (`Parser.Step`, `Parser.CloseBracket`,
`Parser.PopAbove`, `Parser.Flush`, `Evaluator.ExecToken`, `Evaluator.Eval`,
`Enumerator.Increment`, `Enumerator.KeysOf`, `MainWindow.ShiftBound`,
`MainWindow.RowCount`, `MainWindow.SolveSpec`, `NormalForms.Form` and others)
have no rows of their own: each is described by the rows of the methods
proved equal to it and of the lemmas about it. Lemmas that only unfold a
definition one step for another proof have no rows either.

| member | source | states |
|---|---|---|
| Tokens.CharToToken | MainWindow.xaml.cs:150-178 | A character becomes a variable exactly when it is an ASCII letter, an operation exactly when it is one of the eight operator symbols (`!`, `&`, the bar, `^`, `=`, `@`, `(`, `)`), and otherwise the "invalid letter" error naming that character; `(` and `)` are the bracket operations |
| Tokens.ToChar | MainWindow.xaml.cs:191-203 | Every operation other than a bracket is written as the symbol that reads back as that operation; both brackets are written as a space, which is not a symbol |
| Tokens.SymbolRoundTrip | MainWindow.xaml.cs:150-203 | Reading an operator symbol and writing the operation back gives the same symbol, brackets aside |
| Parser.Priority | MainWindow.xaml.cs:224-242 | Brackets have priority 0, the two-operand operations 1 to 4, and `!` 5 |
| Parser.PriorityOrder | MainWindow.xaml.cs:224-242 | `=` binds weakest, then `@`, then or and `^` (equal), then `&` |
| Parser.TopBracket | MainWindow.xaml.cs:295-301 | Finds the topmost `(` on the operation stack, or reports that none is there |
| Parser.CloseBracketSpec | MainWindow.xaml.cs:295-301 | A `)` moves the operations above the topmost `(` to the output, top first, and drops that `(`; with no `(`, it empties the whole stack into the output |
| Parser.KeptPopsHigher | MainWindow.xaml.cs:307-312 | Every popped entry has a priority at least that of the incoming operation, and the entry left on top has a lower priority |
| Parser.PopAboveKept | MainWindow.xaml.cs:307-314 | Popping for an incoming operation keeps exactly the bottom `Kept` entries and moves the rest to the output, top first |
| Parser.FlushSpec | MainWindow.xaml.cs:323-329 | The final flush fails exactly when a `(` is left unclosed; otherwise it appends the remaining operations, top first |
| Parser.ToRPN | MainWindow.xaml.cs:246-332 | The character loop with its two stacks and three flags returns exactly what `Parse` returns, error or tokens |
| Parser.RunAppend | MainWindow.xaml.cs:255-321 | Reading `a + b` is reading `a` and then `b` from the state that `a` leaves; the first error stops the conversion |
| Parser.ParseNegation | MainWindow.xaml.cs:262-278 | `!A` becomes the single inverted variable `A` |
| Parser.ParseDoubleNegation | MainWindow.xaml.cs:275-278 | `!!A` becomes `A`, not inverted: a second `!` cancels the first |
| Parser.ParseImplication | MainWindow.xaml.cs:305-316 | `A@B` becomes `A B @` |
| Parser.ParseDoubleOperator | MainWindow.xaml.cs:305-318 | `A&&B` is rejected: an operation may not follow an operation |
| Parser.ParseNegatedBracket | MainWindow.xaml.cs:285-288 | `!(A&B)` is rejected as unsupported |
| Parser.ParseUnclosedBracket | MainWindow.xaml.cs:323-329 | `(A` is rejected when the remaining stack is flushed |
| Parser.ParseStrayBracket | MainWindow.xaml.cs:293-304 | A `)` without a matching `(` is accepted: `)A` becomes `A` |
| Parser.ParseLeadingOperator | MainWindow.xaml.cs:251-316 | An operation is allowed at the start: `&A` becomes `A &` |
| Parser.ParseAdjacentVariables | MainWindow.xaml.cs:260-269 | Two variables in a row are accepted: `AB` becomes `A B` |
| Parser.ParseNotAfterVariable | MainWindow.xaml.cs:275-281 | `A!B` is rejected: a `!` may not follow a variable |
| Parser.ParseTab | MainWindow.xaml.cs:255-259 | Only the space is skipped: a tab is an invalid letter |
| ParserFacts.BinaryOf | MainWindow.xaml.cs:161-170 | The five symbols `&`, the bar, `^`, `=` and `@` are exactly the characters read as two-operand operations |
| ParserFacts.PopAboveShape | MainWindow.xaml.cs:307-315 | Popping and then pushing an operation keeps the stack free of `!` and `)`, and the output holds only variables and two-operand operations |
| ParserFacts.CloseBracketShape | MainWindow.xaml.cs:295-301 | Closing a bracket keeps the same shape invariant |
| ParserFacts.StepShape | MainWindow.xaml.cs:255-321 | Every accepted character keeps the shape invariant |
| ParserFacts.RunShape | MainWindow.xaml.cs:255-321 | Any accepted run of characters keeps the shape invariant |
| ParserFacts.ParseShape | MainWindow.xaml.cs:246-332 | The output holds only variables and two-operand operations: never `!`, `(` or `)` |
| ParserFacts.CloseBracketMarks | MainWindow.xaml.cs:295-301 | Closing a bracket adds no variable to the output |
| ParserFacts.PopAboveMarks | MainWindow.xaml.cs:307-312 | Popping for an operation adds no variable to the output |
| ParserFacts.StepMarks | MainWindow.xaml.cs:260-281 | A character adds to the output exactly the variable it names, carrying the pending negation, and updates the pending negation as `!` does |
| ParserFacts.RunMarks | MainWindow.xaml.cs:255-321 | Over any accepted run, the variables in the output are the input's letters in order, each inverted exactly when an odd number of `!` were read since the previous letter; operators and brackets in between do not clear the negation |
| ParserFacts.ParseMarks | MainWindow.xaml.cs:262-278 | The variables of the result are the letters of the expression, in order, each inverted exactly when an odd number of `!` were read since the previous letter |
| ParserFacts.CloseBracketHeld | MainWindow.xaml.cs:295-301 | Closing a bracket loses no operation: output plus pending stack hold the same operations |
| ParserFacts.PopAboveHeld | MainWindow.xaml.cs:307-312 | Popping for an operation loses no operation |
| ParserFacts.PopAbovePushHeld | MainWindow.xaml.cs:307-314 | Popping and then pushing an operation adds exactly that operation to what is held |
| ParserFacts.FlushHeld | MainWindow.xaml.cs:323-329 | The final flush moves every pending operation to the output |
| ParserFacts.StepHeld | MainWindow.xaml.cs:255-321 | Each accepted character adds exactly its own two-operand operation, if it has one, to what is held |
| ParserFacts.RunHeld | MainWindow.xaml.cs:255-321 | Over any accepted run, what is held grows by exactly the run's two-operand operations |
| ParserFacts.ParseOperations | MainWindow.xaml.cs:246-332 | The operations of the result are, as a multiset, exactly the two-operand operator symbols of the expression |
| ParserFacts.LeftAssociativeTail | MainWindow.xaml.cs:307-314 | After "A or", reading `B^C` pops the or, which has the same priority, before pushing `^` |
| ParserFacts.ParseLeftAssociative | MainWindow.xaml.cs:307-314 | Operations of equal priority group to the left: "A or B xor C" puts the or right after `A B` and the xor after `C` |
| ParserFacts.ParseNegationAcrossOperator | MainWindow.xaml.cs:263-284 | Only a letter clears the negation flag: `!&A` becomes the inverted `A` followed by `&` |
| ParserFacts.SuffixRejects | MainWindow.xaml.cs:255-321 | A piece of text that fails from every state makes every expression containing it fail |
| ParserFacts.NotAfterVariableRejected | MainWindow.xaml.cs:275-281 | Any expression with a `!` after a letter, with only blanks between them, is rejected |
| ParserFacts.DoubleOperatorRejected | MainWindow.xaml.cs:305-318 | Any expression with a two-operand operation after another, or after `(`, with only blanks between them, is rejected |
| ParserFacts.BlanksRun | MainWindow.xaml.cs:257 | Reading only blanks leaves the parser state unchanged |
| ParserFacts.NegatedBracketRejected | MainWindow.xaml.cs:285-288 | Any expression with a `(` under a pending negation is rejected |
| ParserFacts.InvalidCharacterRejected | MainWindow.xaml.cs:257-259 | Any expression holding a character that is neither a space, a letter nor an operator symbol is rejected |
| Enumerator.Lookup | MainWindow.xaml.cs:346-347 | The lookup fails exactly for a missing key; in an ascending table it returns the value stored at that key's position |
| Enumerator.RankSplits | MainWindow.xaml.cs:395-396 | The insertion position of a key splits an ascending table into smaller and not smaller keys |
| Enumerator.InsertSorted | MainWindow.xaml.cs:395-396 | Adding a new key keeps the keys ascending and adds exactly that key |
| Enumerator.VariableTable.constructor | MainWindow.xaml.cs:389 | A new table is empty and valid |
| Enumerator.VariableTable.Add | MainWindow.xaml.cs:396 | The key goes to its sorted position and its value to the same position; the table stays valid |
| Enumerator.KeysOfSpec | MainWindow.xaml.cs:387-401 | The keys are ascending and are exactly the letters of the postfix tokens |
| Enumerator.GetVariableDict | MainWindow.xaml.cs:387-401 | The new table holds each letter of the postfix tokens once, ascending, each with the value `false` |
| Enumerator.ShiftVariables | MainWindow.xaml.cs:405-418 | The keys are unchanged and the values become their binary successor |
| Enumerator.ToNatBound | MainWindow.xaml.cs:405-418 | The values read as a number are below `2^n` |
| Enumerator.IncrementIsSuccessor | MainWindow.xaml.cs:405-418 | A shift adds one to the values read as a number, and wraps the greatest assignment around to all `false` |
| Enumerator.ToNatInjective | MainWindow.xaml.cs:405-418 | Two assignments of the same length with the same number are equal |
| Enumerator.FalsesIsZero | MainWindow.xaml.cs:396 | The starting assignment is row 0 |
| Enumerator.EnumValue | MainWindow.xaml.cs:99-100 | After `k` shifts, with `k < 2^n`, the values read as the number `k` |
| Enumerator.EnumWraps | MainWindow.xaml.cs:99-100 | After `2^n` shifts the values are all `false` again |
| Enumerator.EnumDistinct | MainWindow.xaml.cs:41-42 | The first `2^n` rows are pairwise different assignments |
| Enumerator.EnumCovers | MainWindow.xaml.cs:41-42 | Every assignment of the `n` variables is one of the first `2^n` rows |
| Evaluator.Apply | MainWindow.xaml.cs:355-374 | Only the five two-operand operations have a result; with `x` popped first as the right operand, they are `y and x`, `y or x`, `y xor x`, `y == x` and `x implies y` |
| Evaluator.Solve | MainWindow.xaml.cs:336-384 | The stack loop over the tokens returns what `Eval` returns: the top of the final stack, or the first exception |
| Evaluator.ExecAppend | MainWindow.xaml.cs:339 | Evaluating `a + b` is evaluating `a`, then `b` on the stack that `a` leaves |
| Evaluator.ExecPostfix | MainWindow.xaml.cs:339-381 | The postfix code of a tree pushes exactly the tree's value onto any stack |
| Evaluator.EvalPostfix | MainWindow.xaml.cs:336-384 | Evaluating the postfix code of a tree returns the tree's value |
| Evaluator.ExecFailsOnlyOnStack | MainWindow.xaml.cs:343-375 | Code made of known variables and two-operand operations can only fail by running out of stack |
| Evaluator.ExecLeavesValue | MainWindow.xaml.cs:339-383 | A run that starts on a non-empty stack, or whose code holds a variable, never ends successfully on an empty stack |
| Evaluator.EvalImplicationReversed | MainWindow.xaml.cs:369-370 | The code of `A@B` is false where `A` is false and `B` is true |
| Evaluator.EvalLeadingOperator | MainWindow.xaml.cs:352-353 | The code `A &` of `&A` pops `A` and then underflows on the second pop |
| Evaluator.EvalAdjacentVariables | MainWindow.xaml.cs:383 | The code of `AB` answers with `B` and ignores the other value left on the stack |
| NormalForms.JoinStep | MainWindow.xaml.cs:65-66 | Joining one more part adds the separator and the part, except for the first part |
| NormalForms.JoinEmpty | MainWindow.xaml.cs:56-57 | Joining non-empty parts is empty exactly when there are no parts |
| NormalForms.TermsNonEmpty | MainWindow.xaml.cs:58-68 | Every term is non-empty |
| NormalForms.FormIsJoin | MainWindow.xaml.cs:54-86 | The `Length != 0` test puts the outer separator exactly between neighbouring terms: a form is its terms joined |
| NormalForms.TermsEmpty | MainWindow.xaml.cs:54-86 | There are no terms exactly when no row gave the answer the form collects |
| NormalForms.FormEmpty | MainWindow.xaml.cs:54-86 | The PDNF is empty exactly when no row is true, and the PCNF exactly when no row is false |
| NormalForms.LiteralAt | MainWindow.xaml.cs:63-80 | A literal holds exactly when the variable's value agrees with its row as the form requires |
| NormalForms.TermExact | MainWindow.xaml.cs:59-67 | A PDNF term is true in its own row only, and a PCNF term is false in its own row only |
| NormalForms.FormMeansAnswer | MainWindow.xaml.cs:42-89 | With one answer per row, each form holds under an assignment exactly when that assignment's answer is true |
| Reparse.LiteralRun | MainWindow.xaml.cs:257-281 | A literal of a form, read where a negation may stand, outputs its letter, inverted exactly when it is written with `!` |
| Reparse.OperatorRun | MainWindow.xaml.cs:305-316 | A separator read above a bracket or an empty stack moves the same operator pending there, if any, to the output and stacks the new one |
| Reparse.BodyRun | MainWindow.xaml.cs:255-321 | The literals of a term, read after its `(`, output the code of the term's left-grouped chain, except at most one inner operator still stacked |
| Reparse.TermRun | MainWindow.xaml.cs:285-304 | A bracketed term leaves the operator stack as it found it and outputs exactly the term's code |
| Reparse.FormRun | MainWindow.xaml.cs:54-86 | A form's text is empty exactly when it has no term; otherwise it is read without error and outputs the code of the terms' left-grouped chain, except at most one outer operator still stacked |
| Reparse.DenoteTerm | MainWindow.xaml.cs:58-68 | A term's tree holds exactly when all its literals hold (PDNF) or some literal holds (PCNF) |
| Reparse.DenoteForm | MainWindow.xaml.cs:54-86 | A form without a tree has no row with the answer it collects; a form's tree holds exactly when the form holds |
| Reparse.FormReparse | MainWindow.xaml.cs:54-86 | A non-empty form over letter keys is accepted by the parser, and its code evaluates under any assignment to exactly the form's meaning |
| Reparse.KeysAreLetters | MainWindow.xaml.cs:387-401 | The keys collected from a parsed expression are all letters |
| MainWindow.RowCountIsPow2 | MainWindow.xaml.cs:42 | With 1 to 30 variables the loop runs `2^n` times |
| MainWindow.ShiftWrapsToZero | MainWindow.xaml.cs:42 | A shift count of 31 wraps the bound to zero |
| MainWindow.ShiftIsNegative | MainWindow.xaml.cs:42 | A shift count of 30 gives a negative bound |
| MainWindow.NoRows | MainWindow.xaml.cs:42 | With 0, 31 or 32 variables the loop does not run |
| MainWindow.RowCountPeriodic | MainWindow.xaml.cs:42 | The number of rows repeats every 32 variables |
| MainWindow.AnswersSpec | MainWindow.xaml.cs:42-101 | The walk records, for each row `k`, the evaluation of the row's assignment; otherwise the walk ends with the exception of some row |
| MainWindow.AnswersStop | MainWindow.xaml.cs:92-97 | The first row that throws ends the walk with its exception |
| MainWindow.WriteLiteral | MainWindow.xaml.cs:59-67 | Writing one literal and its separator extends the text by the next joined part |
| MainWindow.WriteTerm | MainWindow.xaml.cs:58-68 | The literal loop appends exactly the row's bracketed term to the form |
| MainWindow.WriteVector | MainWindow.xaml.cs:104-108 | The vector loop produces exactly the vector text |
| MainWindow.Solve | MainWindow.xaml.cs:16-119 | The handler ends with exactly `SolveSpec`: nothing for empty input, the parse error, the first row's exception, or the table's keys, vector, vector text, PDNF and PCNF |
| MainWindow.SolveMeaning | MainWindow.xaml.cs:42-101 | With 1 to 30 variables, every assignment evaluates, and both normal forms hold under it exactly when the expression is true there |
| MainWindow.SolveFormsRoundTrip | MainWindow.xaml.cs:42-101 | With 1 to 30 variables, the PDNF and the PCNF, when not empty, are accepted by the parser, and their code evaluates under every assignment to the same value as the expression's code |
| MainWindow.SolveText | MainWindow.xaml.cs:54-86 | The PDNF is the true rows' terms joined by the bar, and the PCNF the false rows' terms joined by `&` |
| MainWindow.EvalFailsOnlyOnStack | MainWindow.xaml.cs:48-97 | A row can only fail by stack underflow: never by an unknown variable or an invalid operation, and never with an empty final stack, since a row exists only when the expression has a variable |
| MainWindow.NoVariablesNoRows | MainWindow.xaml.cs:42 | An expression that parses but has no variables gets no row, and so is "solved" with empty output |

## Left out

- The WPF window is left out: the constructor and `InitializeComponent`,
  the text boxes, the truth-table header and the row text written to
  `TruthTableBox`, and the `MessageBox` calls. `Solve` returns what would
  be shown as an `Outcome`.
- Exception messages and the re-wrapping in the `catch` of `RPN.Solve` are
  left out. Each exception is modelled as an error case (`ParseError`,
  `EvalError`), not as a message text.
- `VariableToken.Value` is never read by the core, so the model has no
  such field.
- `SortedDictionary` is modelled as two ascending sequences. Its
  balanced-tree layout and the cost of `ElementAt` are not modelled.
- Enumerator.VariableTable.Add: requires the key to be absent.
  `SortedDictionary.Add` throws on a duplicate key, and `getVariableDict`
  checks `ContainsKey` first, so the model never adds a duplicate.
- MainWindow.SolveMeaning: proved only for 1 to 30 variables. Outside that
  range the loop does not run `2^n` times, as `NoRows` and
  `RowCountPeriodic` show.
- MainWindow.SolveFormsRoundTrip: proved only for 1 to 30 variables, for
  the same reason.
- `Convert.ToInt32` on a `bool` is modelled as its digit `1` or `0`.
- The model has no concurrency and no UI events. `Solve` runs once on one
  expression string.
