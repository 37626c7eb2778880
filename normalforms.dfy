/**
 * The perfect normal forms `MainWindow.Solve` writes while it walks the
 * truth table: for each row answered `true` a bracketed conjunction of
 * literals joins the PDNF with ` | `, for each row answered `false` a
 * bracketed disjunction joins the PCNF with ` & `.
 *
 * One parameter `want` covers both forms: `want == true` is the PDNF,
 * `want == false` the PCNF. In the term for a row, the literal for a key is
 * negated exactly when the key's value in that row differs from `want`.
 */
module NormalForms {
  import opened Wrappers
  import opened Enumerator

  /* ------------------------------------------------------------ the text */

  /** A literal: a key, negated or not. */
  datatype Literal = Literal(letter: char, negated: bool)

  /** The literals of the term written for the row `w`, in key order. */
  function Literals(keys: seq<char>, w: seq<bool>, want: bool): (r: seq<Literal>)
    requires |w| == |keys|
    ensures |r| == |keys|
  {
    seq(|keys|, j requires 0 <= j < |keys| => Literal(keys[j], w[j] != want))
  }

  /** `$"!{k}"` or `$"{k}"`. */
  function LiteralText(l: Literal): string {
    if l.negated then ['!', l.letter] else [l.letter]
  }

  function LiteralTexts(lits: seq<Literal>): (r: seq<string>)
    ensures |r| == |lits|
  {
    seq(|lits|, j requires 0 <= j < |lits| => LiteralText(lits[j]))
  }

  /** The parts `xs` with `sep` between neighbours. */
  function Join(sep: string, xs: seq<string>): string
    decreases |xs|
  {
    if |xs| == 0 then ""
    else if |xs| == 1 then xs[0]
    else Join(sep, xs[..|xs| - 1]) + sep + xs[|xs| - 1]
  }

  /** Joining one part more adds the separator and that part, unless it is the first. */
  lemma JoinStep(sep: string, xs: seq<string>, j: nat)
    requires j < |xs|
    ensures Join(sep, xs[..j + 1]) == if j == 0 then xs[0] else Join(sep, xs[..j]) + sep + xs[j]
  {
    assert xs[..j + 1][..j] == xs[..j];
  }

  /** The separator inside a term: ` & ` in the PDNF, ` | ` in the PCNF. */
  function Inner(want: bool): string {
    if want then " & " else " | "
  }

  /** The separator between terms: ` | ` in the PDNF, ` & ` in the PCNF. */
  function Outer(want: bool): string {
    if want then " | " else " & "
  }

  /** The bracketed term written for the row `w`. */
  function TermText(keys: seq<char>, w: seq<bool>, want: bool): (r: string)
    requires |w| == |keys|
    ensures |r| >= 2 && r[0] == '(' && r[|r| - 1] == ')'
  {
    "(" + Join(Inner(want), LiteralTexts(Literals(keys, w, want))) + ")"
  }

  /**
   * The form after the rows `0 .. |v| - 1` have been answered `v`, built
   * as the row loop builds it: a term for every row answered `want`,
   * preceded by the separator unless the text is still empty.
   */
  function Form(keys: seq<char>, v: seq<bool>, want: bool): string
    decreases |v|
  {
    if v == [] then ""
    else
      var prev := Form(keys, v[..|v| - 1], want);
      if v[|v| - 1] != want then prev
      else (if |prev| != 0 then prev + Outer(want) else prev) + TermText(keys, Enum(|keys|, |v| - 1), want)
  }

  /** The terms of the rows answered `want`, in row order. */
  function Terms(keys: seq<char>, v: seq<bool>, want: bool): seq<string>
    decreases |v|
  {
    if v == [] then []
    else
      Terms(keys, v[..|v| - 1], want)
      + (if v[|v| - 1] == want then [TermText(keys, Enum(|keys|, |v| - 1), want)] else [])
  }

  lemma {:induction false} JoinEmpty(sep: string, xs: seq<string>)
    requires forall k :: 0 <= k < |xs| ==> |xs[k]| > 0
    ensures |Join(sep, xs)| == 0 <==> |xs| == 0
    decreases |xs|
  {
    if |xs| > 1 {
      JoinEmpty(sep, xs[..|xs| - 1]);
    }
  }

  lemma {:induction false} TermsNonEmpty(keys: seq<char>, v: seq<bool>, want: bool)
    ensures forall k :: 0 <= k < |Terms(keys, v, want)| ==> |Terms(keys, v, want)[k]| > 0
    decreases |v|
  {
    if v != [] {
      TermsNonEmpty(keys, v[..|v| - 1], want);
    }
  }

  /**
   * The separator test `Length != 0` puts the separator exactly between
   * neighbouring terms: the form is the terms of the rows answered `want`
   * joined by the outer separator.
   */
  lemma {:induction false} FormIsJoin(keys: seq<char>, v: seq<bool>, want: bool)
    ensures Form(keys, v, want) == Join(Outer(want), Terms(keys, v, want))
    decreases |v|
  {
    if v != [] {
      var v' := v[..|v| - 1];
      FormIsJoin(keys, v', want);
      var ts := Terms(keys, v', want);
      var prev := Form(keys, v', want);
      if v[|v| - 1] == want {
        var t := TermText(keys, Enum(|keys|, |v| - 1), want);
        TermsNonEmpty(keys, v', want);
        JoinEmpty(Outer(want), ts);
        var ts' := ts + [t];
        assert Terms(keys, v, want) == ts';
        assert Form(keys, v, want) == (if |prev| != 0 then prev + Outer(want) else prev) + t;
        assert ts'[..|ts'| - 1] == ts && ts'[|ts'| - 1] == t;
        if |ts| == 0 {
          assert ts' == [t];
          assert prev == "";
        }
      } else {
        assert Terms(keys, v, want) == ts + [] == ts;
        assert Form(keys, v, want) == prev;
      }
    }
  }

  /** There are no terms exactly when no row was answered `want`. */
  lemma {:induction false} TermsEmpty(keys: seq<char>, v: seq<bool>, want: bool)
    ensures |Terms(keys, v, want)| == 0 <==> forall k :: 0 <= k < |v| ==> v[k] != want
    decreases |v|
  {
    if v != [] {
      var v' := v[..|v| - 1];
      TermsEmpty(keys, v', want);
      assert forall k :: 0 <= k < |v'| ==> v'[k] == v[k];
    }
  }

  /** The PDNF is empty exactly when no row was `true`, the PCNF exactly when no row was `false`. */
  lemma FormEmpty(keys: seq<char>, v: seq<bool>, want: bool)
    ensures Form(keys, v, want) == "" <==> forall k :: 0 <= k < |v| ==> v[k] != want
  {
    FormIsJoin(keys, v, want);
    TermsNonEmpty(keys, v, want);
    JoinEmpty(Outer(want), Terms(keys, v, want));
    TermsEmpty(keys, v, want);
  }

  /* --------------------------------------------------------- the meaning */

  /** A literal holds under the assignment `keys`/`u`. */
  predicate LiteralHolds(l: Literal, keys: seq<char>, u: seq<bool>)
    requires |keys| == |u|
  {
    Lookup(keys, u, l.letter) == Some(!l.negated)
  }

  /** The term for row `w` holds under `u`: all literals in the PDNF, some literal in the PCNF. */
  predicate TermHolds(keys: seq<char>, w: seq<bool>, want: bool, u: seq<bool>)
    requires |w| == |keys| == |u|
  {
    var lits := Literals(keys, w, want);
    if want then forall j :: 0 <= j < |lits| ==> LiteralHolds(lits[j], keys, u)
    else exists j :: 0 <= j < |lits| && LiteralHolds(lits[j], keys, u)
  }

  lemma LiteralAt(keys: seq<char>, w: seq<bool>, want: bool, u: seq<bool>, j: nat)
    requires Ascending(keys) && |w| == |keys| == |u| && j < |keys|
    ensures LiteralHolds(Literals(keys, w, want)[j], keys, u) <==> (u[j] == w[j]) == want
  {
    assert Lookup(keys, u, keys[j]) == Some(u[j]);
  }

  /**
   * The PDNF term of a row is true in that row only; the PCNF term of a
   * row is false in that row only.
   */
  lemma TermExact(keys: seq<char>, w: seq<bool>, want: bool, u: seq<bool>)
    requires Ascending(keys) && |w| == |keys| == |u|
    ensures want ==> (TermHolds(keys, w, want, u) <==> u == w)
    ensures !want ==> (TermHolds(keys, w, want, u) <==> u != w)
  {
    var lits := Literals(keys, w, want);
    forall j | 0 <= j < |keys|
      ensures LiteralHolds(lits[j], keys, u) <==> (u[j] == w[j]) == want
    {
      LiteralAt(keys, w, want, u, j);
    }
    if u != w {
      var j :| 0 <= j < |keys| && u[j] != w[j];
      assert LiteralHolds(lits[j], keys, u) <==> !want;
    }
  }

  /**
   * The form holds under `u`: in the PDNF some term of a row answered
   * `true` holds, in the PCNF every term of a row answered `false` holds.
   */
  predicate FormHolds(keys: seq<char>, v: seq<bool>, want: bool, u: seq<bool>)
    requires |keys| == |u|
  {
    var n := |keys|;
    if want then exists k :: 0 <= k < |v| && v[k] && TermHolds(keys, Enum(n, k), want, u)
    else forall k :: 0 <= k < |v| && !v[k] ==> TermHolds(keys, Enum(n, k), want, u)
  }

  /**
   * With one answer for each of the `2^n` rows, both forms hold under
   * an assignment exactly when the answer in that assignment's row is
   * `true`.
   */
  lemma FormMeansAnswer(keys: seq<char>, v: seq<bool>, want: bool, u: seq<bool>)
    requires Ascending(keys) && |u| == |keys| && |v| == Pow2(|keys|)
    ensures ToNat(u) < |v|
    ensures FormHolds(keys, v, want, u) <==> v[ToNat(u)]
  {
    var n := |keys|;
    EnumCovers(u);
    var r := ToNat(u);
    forall k | 0 <= k < |v|
      ensures TermHolds(keys, Enum(n, k), want, u) <==> (if want then k == r else k != r)
    {
      TermExact(keys, Enum(n, k), want, u);
      if k != r {
        if k < r { EnumDistinct(n, k, r); } else { EnumDistinct(n, r, k); }
      }
    }
  }
}
