/**
 * The table of variables and how the truth table walks through it:
 * `RPN.getVariableDict` builds a `SortedDictionary<char, bool>` holding
 * every letter of the postfix expression with the value `false`, and
 * `RPN.ShiftVariables` advances its values like a binary counter whose
 * least significant digit is the greatest letter.
 *
 * The dictionary is a `VariableTable` object holding its keys in ascending
 * order and the values in the same order, which is the order
 * `ElementAt` and `foreach` see them in.
 */
module Enumerator {
  import opened Wrappers
  import opened Tokens

  /* -------------------------------------------------------------- the keys */

  predicate Ascending(keys: seq<char>) {
    forall i, j :: 0 <= i < j < |keys| ==> keys[i] < keys[j]
  }

  /** The value stored under `c`, or `None` when `c` is not a key (a `KeyNotFoundException`). */
  function Lookup(keys: seq<char>, values: seq<bool>, c: char): (r: Option<bool>)
    requires |keys| == |values|
    ensures r.None? <==> c !in keys
    ensures Ascending(keys) ==> forall j :: 0 <= j < |keys| && keys[j] == c ==> r == Some(values[j])
  {
    if keys == [] then None
    else if keys[0] == c then Some(values[0])
    else
      var r := Lookup(keys[1..], values[1..], c);
      assert forall j :: 1 <= j < |keys| ==> keys[j] == keys[1..][j - 1] && values[j] == values[1..][j - 1];
      r
  }

  /** How many keys are smaller than `c`: the place a new key `c` takes. */
  function Rank(keys: seq<char>, c: char): (p: nat)
    ensures p <= |keys|
  {
    if keys == [] || c <= keys[0] then 0 else 1 + Rank(keys[1..], c)
  }

  lemma {:induction false} RankSplits(keys: seq<char>, c: char)
    requires Ascending(keys)
    ensures forall j :: 0 <= j < Rank(keys, c) ==> keys[j] < c
    ensures forall j :: Rank(keys, c) <= j < |keys| ==> c <= keys[j]
  {
    if keys != [] && keys[0] < c {
      RankSplits(keys[1..], c);
      assert forall j :: 1 <= j < |keys| ==> keys[j] == keys[1..][j - 1];
    }
  }

  /** The keys after `Add(c, _)`. */
  function Insert(keys: seq<char>, c: char): seq<char> {
    keys[..Rank(keys, c)] + [c] + keys[Rank(keys, c)..]
  }

  /** Adding a new key keeps the keys ascending and adds exactly that key. */
  lemma InsertSorted(keys: seq<char>, c: char)
    requires Ascending(keys) && c !in keys
    ensures Ascending(Insert(keys, c))
    ensures forall x :: x in Insert(keys, c) <==> x in keys || x == c
  {
    RankSplits(keys, c);
    var p := Rank(keys, c);
    var r := Insert(keys, c);
    assert |r| == |keys| + 1;
    assert forall j :: 0 <= j < p ==> r[j] == keys[j];
    assert r[p] == c;
    assert forall j :: p < j < |r| ==> r[j] == keys[j - 1];
    forall i, j | 0 <= i < j < |r|
      ensures r[i] < r[j]
    {
      if j > p {
        assert keys[j - 1] in keys;
      }
    }
    assert keys == keys[..p] + keys[p..];
  }

  /* ---------------------------------------------------------- the object */

  /** `SortedDictionary<char, bool>` as this program uses it. */
  class VariableTable {
    var keys: seq<char>
    var values: seq<bool>

    predicate Valid()
      reads this
    {
      |keys| == |values| && Ascending(keys)
    }

    constructor ()
      ensures Valid() && keys == [] && values == []
    {
      keys := [];
      values := [];
    }

    function ContainsKey(c: char): (b: bool)
      reads this
      ensures b <==> c in keys
    {
      c in keys
    }

    /** `Add` for a key not yet present; the pair goes where the order puts it. */
    method Add(key: char, value: bool)
      requires Valid() && key !in keys
      modifies this
      ensures Valid()
      ensures keys == Insert(old(keys), key)
      ensures values == old(values)[..Rank(old(keys), key)] + [value] + old(values)[Rank(old(keys), key)..]
    {
      InsertSorted(keys, key);
      var p := Rank(keys, key);
      keys := keys[..p] + [key] + keys[p..];
      values := values[..p] + [value] + values[p..];
    }
  }

  /* ------------------------------------------------------- getVariableDict */

  /** The letters of the variables among `ts`. */
  function LettersOf(ts: seq<Token>): set<char> {
    set k | 0 <= k < |ts| && ts[k].Variable? :: ts[k].letter
  }

  /**
   * The keys `getVariableDict` ends with, as its loop builds them: the
   * postfix stack is enumerated from its top, so `ts[0]`, pushed first,
   * is seen last.
   */
  function KeysOf(ts: seq<Token>): seq<char>
    decreases |ts|
  {
    if ts == [] then []
    else
      var rest := KeysOf(ts[1..]);
      if ts[0].Variable? && ts[0].letter !in rest then Insert(rest, ts[0].letter) else rest
  }

  /** The dictionary holds each letter of the expression once, in ascending order. */
  lemma {:induction false} KeysOfSpec(ts: seq<Token>)
    ensures Ascending(KeysOf(ts))
    ensures forall c :: c in KeysOf(ts) <==> c in LettersOf(ts)
    decreases |ts|
  {
    if ts != [] {
      var rest := KeysOf(ts[1..]);
      KeysOfSpec(ts[1..]);
      if ts[0].Variable? && ts[0].letter !in rest {
        InsertSorted(rest, ts[0].letter);
      }
      forall c
        ensures c in LettersOf(ts) <==> c in LettersOf(ts[1..]) || (ts[0].Variable? && c == ts[0].letter)
      {
        if c in LettersOf(ts) {
          var k :| 0 <= k < |ts| && ts[k].Variable? && ts[k].letter == c;
          if k > 0 {
            assert ts[1..][k - 1] == ts[k];
          }
        }
        if c in LettersOf(ts[1..]) {
          var k :| 0 <= k < |ts[1..]| && ts[1..][k].Variable? && ts[1..][k].letter == c;
          assert ts[k + 1] == ts[1..][k];
        }
      }
    }
  }

  function Falses(n: nat): (r: seq<bool>)
    ensures |r| == n && forall j :: 0 <= j < n ==> !r[j]
  {
    seq(n, _ => false)
  }

  /** `RPN.getVariableDict`: every letter of `rpn`, each with the value `false`. */
  method GetVariableDict(rpn: seq<Token>) returns (table: VariableTable)
    ensures fresh(table) && table.Valid()
    ensures table.keys == KeysOf(rpn) && table.values == Falses(|table.keys|)
  {
    table := new VariableTable();
    var i := |rpn|;
    while i > 0
      invariant 0 <= i <= |rpn|
      invariant fresh(table) && table.Valid()
      invariant table.keys == KeysOf(rpn[i..]) && table.values == Falses(|table.keys|)
    {
      i := i - 1;
      assert rpn[i..][1..] == rpn[i + 1..];
      var token := rpn[i];
      if token.Variable? {
        if !table.ContainsKey(token.letter) {
          table.Add(token.letter, false);
        }
      }
    }
    assert rpn[0..] == rpn;
  }

  /* --------------------------------------------------------- ShiftVariables */

  /**
   * The values after one `ShiftVariables`: the trailing `true` values
   * become `false` and the last `false` before them becomes `true`; when
   * every value is `true`, all become `false`.
   */
  function Increment(v: seq<bool>): (r: seq<bool>)
    ensures |r| == |v|
    decreases |v|
  {
    if v == [] then []
    else if !v[|v| - 1] then v[..|v| - 1] + [true]
    else Increment(v[..|v| - 1]) + [false]
  }

  /** `RPN.ShiftVariables`: walk the values from the greatest key down, carrying. */
  method ShiftVariables(table: VariableTable)
    requires table.Valid()
    modifies table
    ensures table.Valid()
    ensures table.keys == old(table.keys) && table.values == Increment(old(table.values))
  {
    ghost var v := table.values;
    var j := |table.values| - 1;
    assert v[..j + 1] == v && Falses(0) == [];
    while j >= 0
      invariant -1 <= j < |v|
      invariant table.keys == old(table.keys)
      invariant table.values == v[..j + 1] + Falses(|v| - j - 1)
      invariant Increment(v) == Increment(v[..j + 1]) + Falses(|v| - j - 1)
    {
      assert table.values[j] == v[j];
      assert v[..j + 1][..j] == v[..j];
      if !table.values[j] {
        table.values := table.values[j := true];
        assert table.values == v[..j] + [true] + Falses(|v| - j - 1) == Increment(v);
        break;
      }
      table.values := table.values[j := false];
      assert Falses(|v| - j) == [false] + Falses(|v| - j - 1);
      AppendAssoc(Increment(v[..j]), [false], Falses(|v| - j - 1));
      assert table.values == v[..j] + Falses(|v| - j);
      j := j - 1;
    }
    assert v[..0] == [];
  }

  /* ------------------------------------------------------- counting rows */

  function Pow2(n: nat): (p: nat)
    ensures p >= 1
  {
    if n == 0 then 1 else 2 * Pow2(n - 1)
  }

  /** The values read as a binary number, the first key most significant. */
  function ToNat(v: seq<bool>): nat
    decreases |v|
  {
    if v == [] then 0 else 2 * ToNat(v[..|v| - 1]) + (if v[|v| - 1] then 1 else 0)
  }

  lemma {:induction false} ToNatBound(v: seq<bool>)
    ensures ToNat(v) < Pow2(|v|)
    decreases |v|
  {
    if v != [] {
      ToNatBound(v[..|v| - 1]);
    }
  }

  /**
   * `ShiftVariables` adds one to the values read as a binary number; from
   * all `true` it wraps round to all `false`.
   */
  lemma {:induction false} IncrementIsSuccessor(v: seq<bool>)
    ensures ToNat(v) + 1 < Pow2(|v|) ==> ToNat(Increment(v)) == ToNat(v) + 1
    ensures ToNat(v) + 1 == Pow2(|v|) ==> ToNat(Increment(v)) == 0
    decreases |v|
  {
    ToNatBound(v);
    if v != [] {
      var rest := v[..|v| - 1];
      ToNatBound(rest);
      if !v[|v| - 1] {
        var r := rest + [true];
        assert r[..|r| - 1] == rest;
      } else {
        var r := Increment(rest) + [false];
        assert r[..|r| - 1] == Increment(rest);
        IncrementIsSuccessor(rest);
      }
    }
  }

  /** Two value sequences of one length that read as the same number are equal. */
  lemma {:induction false} ToNatInjective(u: seq<bool>, v: seq<bool>)
    requires |u| == |v| && ToNat(u) == ToNat(v)
    ensures u == v
    decreases |u|
  {
    if u != [] {
      var u', v' := u[..|u| - 1], v[..|v| - 1];
      assert u[|u| - 1] == v[|v| - 1];
      ToNatInjective(u', v');
      assert u == u' + [u[|u| - 1]] && v == v' + [v[|v| - 1]];
    }
  }

  /** The values of `n` keys after `k` calls of `ShiftVariables` from all `false`. */
  function Enum(n: nat, k: nat): (r: seq<bool>)
    ensures |r| == n
  {
    if k == 0 then Falses(n) else Increment(Enum(n, k - 1))
  }

  lemma {:induction false} FalsesIsZero(n: nat)
    ensures ToNat(Falses(n)) == 0
  {
    if n != 0 {
      assert Falses(n)[..n - 1] == Falses(n - 1);
      FalsesIsZero(n - 1);
    }
  }

  /** Row `k` of the truth table, for `k` below `2^n`, is `k` in binary. */
  lemma {:induction false} EnumValue(n: nat, k: nat)
    requires k < Pow2(n)
    ensures ToNat(Enum(n, k)) == k
  {
    if k == 0 {
      FalsesIsZero(n);
    } else {
      EnumValue(n, k - 1);
      IncrementIsSuccessor(Enum(n, k - 1));
    }
  }

  /** After `2^n` rows the counter is back at all `false`. */
  lemma EnumWraps(n: nat)
    ensures Enum(n, Pow2(n)) == Falses(n)
  {
    EnumValue(n, Pow2(n) - 1);
    IncrementIsSuccessor(Enum(n, Pow2(n) - 1));
    FalsesIsZero(n);
    ToNatInjective(Enum(n, Pow2(n)), Falses(n));
  }

  /** The first `2^n` rows are pairwise different. */
  lemma EnumDistinct(n: nat, k1: nat, k2: nat)
    requires k1 < k2 < Pow2(n)
    ensures Enum(n, k1) != Enum(n, k2)
  {
    EnumValue(n, k1);
    EnumValue(n, k2);
  }

  /** Every assignment of `n` values is row number `ToNat` of it. */
  lemma EnumCovers(w: seq<bool>)
    ensures ToNat(w) < Pow2(|w|) && Enum(|w|, ToNat(w)) == w
  {
    ToNatBound(w);
    EnumValue(|w|, ToNat(w));
    ToNatInjective(Enum(|w|, ToNat(w)), w);
  }
}
