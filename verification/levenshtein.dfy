/** `levenshtein`: weighted edit distance, computed by the source with two
    rolling rows of the dynamic-programming table. `Table` is the recurrence
    the rows hold; `LevenshteinTwoRows` is the loop, proved to compute it. */
module Levenshtein {

  /** The three cost arguments; the source defaults them all to 1. */
  datatype Costs = Costs(insert: int, delete: int, replace: int)

  const UnitCosts := Costs(1, 1, 1)

  predicate NonNegative(c: Costs)
  {
    c.insert >= 0 && c.delete >= 0 && c.replace >= 0
  }

  function Min3(a: int, b: int, c: int): (m: int)
  {
    if a <= b && a <= c then a else if b <= c then b else c
  }

  /** `match * replace_cost`, where the source's `match` is 0 for equal
      characters and 1 otherwise. */
  function ReplaceCost(x: char, y: char, c: Costs): int
  {
    if x == y then 0 else c.replace
  }

  /** Cell (i, j) of the table: the cost of turning `s[..i]` into `t[..j]`.
      The first row and column charge one per skipped character whatever the
      costs are (`v0[i] = i`, `v1[0] = j + 1`); inside the table an insertion
      costs `c.insert`, a deletion `c.delete` and a substitution
      `c.replace` when the characters differ. */
  function Table(s: string, t: string, i: nat, j: nat, c: Costs): int
    requires i <= |s| && j <= |t|
    decreases i + j
  {
    if j == 0 then i
    else if i == 0 then j
    else Min3(Table(s, t, i, j - 1, c) + c.insert,
              Table(s, t, i - 1, j, c) + c.delete,
              Table(s, t, i - 1, j - 1, c) + ReplaceCost(s[i - 1], t[j - 1], c))
  }

  /** What `levenshtein(s, t, insert_cost, delete_cost, replace_cost)`
      returns: the three degenerate cases first, then the last table cell. */
  function Levenshtein(s: string, t: string, c: Costs): int
  {
    if s == t then 0
    else if |s| == 0 then |t|
    else if |t| == 0 then |s|
    else Table(s, t, |s|, |t|, c)
  }

  /** The two-row loop of the source. Row `v0` holds column `j` of the table
      and `v1` is filled with column `j + 1`, after which the rows swap. */
  method LevenshteinTwoRows(s: string, t: string, c: Costs) returns (d: int)
    ensures s == t ==> d == 0
    ensures |s| == 0 ==> d == |t|
    ensures |t| == 0 ==> d == |s|
    ensures s != t ==> d == Table(s, t, |s|, |t|, c)
    ensures d == Levenshtein(s, t, c)
  {
    if s == t {
      return 0;
    }
    var len0 := |s|;
    var len1 := |t|;
    if len0 == 0 {
      return len1;
    }
    if len1 == 0 {
      return len0;
    }
    var v0 := seq(len0 + 1, _ => 0);
    var v1 := seq(len0 + 1, _ => 0);
    var i := 0;
    while i < len0 + 1
      invariant 0 <= i <= len0 + 1
      invariant |v0| == len0 + 1
      invariant forall k :: 0 <= k < i ==> v0[k] == k
    {
      v0 := v0[i := i];
      i := i + 1;
    }
    var j := 0;
    while j < len1
      invariant 0 <= j <= len1
      invariant |v0| == len0 + 1 && |v1| == len0 + 1
      invariant forall k :: 0 <= k <= len0 ==> v0[k] == Table(s, t, k, j, c)
    {
      v1 := FillRow(s, t, j, c, v0, v1);
      v0, v1 := v1, v0;
      j := j + 1;
    }
    d := v0[len0];
  }

  /** The inner loop: fills `v1` with column `j + 1` from column `j` in `v0`.
      The old contents of `v1` are overwritten before they are read. */
  method FillRow(s: string, t: string, j: nat, c: Costs, v0: seq<int>, v1: seq<int>) returns (r: seq<int>)
    requires j < |t|
    requires |v0| == |s| + 1 && |v1| == |s| + 1
    requires forall k :: 0 <= k <= |s| ==> v0[k] == Table(s, t, k, j, c)
    ensures |r| == |s| + 1
    ensures forall k :: 0 <= k <= |s| ==> r[k] == Table(s, t, k, j + 1, c)
  {
    r := v1[0 := j + 1];
    var i := 0;
    while i < |s|
      invariant 0 <= i <= |s|
      invariant |r| == |s| + 1
      invariant forall k :: 0 <= k <= i ==> r[k] == Table(s, t, k, j + 1, c)
    {
      var mismatch := if s[i] == t[j] then 0 else 1;
      var costInsert := v0[i + 1] + c.insert;
      var costDelete := r[i] + c.delete;
      var costReplace := v0[i] + mismatch * c.replace;
      assert costReplace == v0[i] + ReplaceCost(s[i], t[j], c);
      r := r[i + 1 := Min3(costInsert, costDelete, costReplace)];
      i := i + 1;
    }
  }

  /** Swapping the strings swaps the roles of insertion and deletion. */
  lemma {:induction false} TableTranspose(s: string, t: string, i: nat, j: nat, c: Costs)
    requires i <= |s| && j <= |t|
    ensures Table(s, t, i, j, c) == Table(t, s, j, i, Swapped(c))
    decreases i + j, 1
  {
    if i > 0 && j > 0 {
      TransposeStep(s, t, i, j, c);
    }
  }

  function Swapped(c: Costs): Costs
  {
    Costs(c.delete, c.insert, c.replace)
  }

  /** An inner cell transposes once its three neighbours do. */
  lemma {:induction false} TransposeStep(s: string, t: string, i: nat, j: nat, c: Costs)
    requires 0 < i <= |s| && 0 < j <= |t|
    ensures Table(s, t, i, j, c) == Table(t, s, j, i, Swapped(c))
    decreases i + j, 0
  {
    var c' := Swapped(c);
    var a := Table(s, t, i, j - 1, c);
    var b := Table(s, t, i - 1, j, c);
    var d := Table(s, t, i - 1, j - 1, c);
    var r := ReplaceCost(s[i - 1], t[j - 1], c);
    assert Table(t, s, j - 1, i, c') == a by {
      TableTranspose(s, t, i, j - 1, c);
    }
    assert Table(t, s, j, i - 1, c') == b by {
      TableTranspose(s, t, i - 1, j, c);
    }
    assert Table(t, s, j - 1, i - 1, c') == d by {
      TableTranspose(s, t, i - 1, j - 1, c);
    }
    assert ReplaceCost(t[j - 1], s[i - 1], c') == r;
    assert Table(t, s, j, i, c') == Min3(b + c.delete, a + c.insert, d + r);
    Min3Swap(b + c.delete, a + c.insert, d + r);
  }

  lemma Min3Swap(x: int, y: int, z: int)
    ensures Min3(x, y, z) == Min3(y, x, z)
  {
  }

  /** With equal insertion and deletion costs the distance is symmetric. */
  lemma Symmetric(s: string, t: string, c: Costs)
    requires c.insert == c.delete
    ensures Levenshtein(s, t, c) == Levenshtein(t, s, c)
  {
    if s != t && |s| > 0 && |t| > 0 {
      TableTranspose(s, t, |s|, |t|, c);
    }
  }

  lemma {:induction false} TableNonNegative(s: string, t: string, i: nat, j: nat, c: Costs)
    requires i <= |s| && j <= |t|
    requires NonNegative(c)
    ensures Table(s, t, i, j, c) >= 0
    decreases i + j
  {
    if i > 0 && j > 0 {
      TableNonNegative(s, t, i, j - 1, c);
      TableNonNegative(s, t, i - 1, j, c);
      TableNonNegative(s, t, i - 1, j - 1, c);
    }
  }

  /** The diagonal of a string against itself is zero when no cost is negative. */
  lemma {:induction false} TableDiagonal(s: string, i: nat, c: Costs)
    requires i <= |s|
    requires NonNegative(c)
    ensures Table(s, s, i, i, c) == 0
  {
    if i > 0 {
      TableDiagonal(s, i - 1, c);
      TableNonNegative(s, s, i, i - 1, c);
      TableNonNegative(s, s, i - 1, i, c);
    }
  }

  /** The degenerate early returns of the source are only a shortcut: with no
      negative cost, the function is the last cell of the table. */
  lemma ShortcutsAgree(s: string, t: string, c: Costs)
    requires NonNegative(c)
    ensures Levenshtein(s, t, c) == Table(s, t, |s|, |t|, c)
  {
    if s == t {
      TableDiagonal(s, |s|, c);
    }
  }

  /** With unit costs the distance is at least the length difference and at
      most the longer length. */
  lemma {:induction false} TableUnitBounds(s: string, t: string, i: nat, j: nat)
    requires i <= |s| && j <= |t|
    ensures i - j <= Table(s, t, i, j, UnitCosts) && j - i <= Table(s, t, i, j, UnitCosts)
    ensures Table(s, t, i, j, UnitCosts) <= if i >= j then i else j
    decreases i + j
  {
    if i > 0 && j > 0 {
      TableUnitBounds(s, t, i, j - 1);
      TableUnitBounds(s, t, i - 1, j);
      TableUnitBounds(s, t, i - 1, j - 1);
    }
  }

  lemma UnitBounds(s: string, t: string)
    ensures |s| - |t| <= Levenshtein(s, t, UnitCosts)
    ensures |t| - |s| <= Levenshtein(s, t, UnitCosts)
    ensures Levenshtein(s, t, UnitCosts) <= if |s| >= |t| then |s| else |t|
  {
    ShortcutsAgree(s, t, UnitCosts);
    TableUnitBounds(s, t, |s|, |t|);
  }

  /** A zero cell with unit costs means equal prefixes of equal length. */
  lemma {:induction false} TableZero(s: string, t: string, i: nat, j: nat)
    requires i <= |s| && j <= |t|
    requires Table(s, t, i, j, UnitCosts) == 0
    ensures i == j && s[..i] == t[..j]
    decreases i + j
  {
    if i > 0 && j > 0 {
      TableNonNegative(s, t, i, j - 1, UnitCosts);
      TableNonNegative(s, t, i - 1, j, UnitCosts);
      TableNonNegative(s, t, i - 1, j - 1, UnitCosts);
      TableZero(s, t, i - 1, j - 1);
      assert s[..i] == s[..i - 1] + [s[i - 1]];
      assert t[..j] == t[..j - 1] + [t[j - 1]];
    }
  }

  /** With unit costs the distance is zero exactly for equal strings. */
  lemma UnitZeroIffEqual(s: string, t: string)
    ensures Levenshtein(s, t, UnitCosts) == 0 <==> s == t
  {
    if s != t && |s| > 0 && |t| > 0 {
      assert s[..|s|] == s && t[..|t|] == t;
      if Table(s, t, |s|, |t|, UnitCosts) == 0 {
        TableZero(s, t, |s|, |t|);
      }
    }
  }

  /** The repository's own expectation: "kitten" to "sitting" with a
      substitution cost of 2 is 5 (two substitutions and one insertion). */
  lemma KittenSitting(s: string, t: string, c: Costs)
    requires s == "kitten" && t == "sitting" && c == Costs(1, 1, 2)
    ensures Levenshtein(s, t, c) == 5
  {
    assert Table(s, t, 1, 1, c) == 2;
    assert Table(s, t, 2, 1, c) == 3;
    assert Table(s, t, 3, 1, c) == 4;
    assert Table(s, t, 4, 1, c) == 5;
    assert Table(s, t, 5, 1, c) == 6;
    assert Table(s, t, 6, 1, c) == 7;
    assert Table(s, t, 1, 2, c) == 3;
    assert Table(s, t, 2, 2, c) == 2;
    assert Table(s, t, 3, 2, c) == 3;
    assert Table(s, t, 4, 2, c) == 4;
    assert Table(s, t, 5, 2, c) == 5;
    assert Table(s, t, 6, 2, c) == 6;
    assert Table(s, t, 1, 3, c) == 4;
    assert Table(s, t, 2, 3, c) == 3;
    assert Table(s, t, 3, 3, c) == 2;
    assert Table(s, t, 4, 3, c) == 3;
    assert Table(s, t, 5, 3, c) == 4;
    assert Table(s, t, 6, 3, c) == 5;
    assert Table(s, t, 1, 4, c) == 5;
    assert Table(s, t, 2, 4, c) == 4;
    assert Table(s, t, 3, 4, c) == 3;
    assert Table(s, t, 4, 4, c) == 2;
    assert Table(s, t, 5, 4, c) == 3;
    assert Table(s, t, 6, 4, c) == 4;
    assert Table(s, t, 1, 5, c) == 6;
    assert Table(s, t, 2, 5, c) == 5;
    assert Table(s, t, 3, 5, c) == 4;
    assert Table(s, t, 4, 5, c) == 3;
    assert Table(s, t, 5, 5, c) == 4;
    assert Table(s, t, 6, 5, c) == 5;
    assert Table(s, t, 1, 6, c) == 7;
    assert Table(s, t, 2, 6, c) == 6;
    assert Table(s, t, 3, 6, c) == 5;
    assert Table(s, t, 4, 6, c) == 4;
    assert Table(s, t, 5, 6, c) == 5;
    assert Table(s, t, 6, 6, c) == 4;
    assert Table(s, t, 1, 7, c) == 8;
    assert Table(s, t, 2, 7, c) == 7;
    assert Table(s, t, 3, 7, c) == 6;
    assert Table(s, t, 4, 7, c) == 5;
    assert Table(s, t, 5, 7, c) == 6;
    assert Table(s, t, 6, 7, c) == 5;
  }
}
