/** Python's slicing of lists and strings, `xs[lo:hi]`, with its treatment of
    negative and out-of-range bounds. The source slices with computed bounds
    (`lines[-max_footer_lines:]`, `text_lines[h:len - f]`), so the model
    spells out what Python does with them instead of Dafny's `xs[i..j]`,
    which demands in-range indices. */
module Slices {

  /** Where a slice bound `k` lands in a sequence of length `n`: a negative
      bound counts from the end, and both ends are clamped to [0, n]. */
  function Bound(k: int, n: nat): (b: nat)
    ensures b <= n
    ensures 0 <= k <= n ==> b == k
    ensures k > n ==> b == n
    ensures k < 0 && n + k >= 0 ==> b == n + k
    ensures n + k < 0 ==> b == 0
  {
    if k < 0 then (if n + k >= 0 then n + k else 0)
    else if k > n then n
    else k
  }

  /** `xs[lo:hi]` */
  function Slice<T>(xs: seq<T>, lo: int, hi: int): seq<T>
  {
    var a := Bound(lo, |xs|);
    var b := Bound(hi, |xs|);
    if a < b then xs[a..b] else []
  }

  /** `xs[:k]` */
  function Take<T>(xs: seq<T>, k: int): seq<T>
  {
    Slice(xs, 0, k)
  }

  /** `xs[k:]` */
  function Drop<T>(xs: seq<T>, k: int): seq<T>
  {
    Slice(xs, k, |xs|)
  }

  function Min(a: int, b: int): int
  {
    if a <= b then a else b
  }

  function Max(a: int, b: int): int
  {
    if a >= b then a else b
  }

  /** With a non-negative bound, `xs[:k]` is the first `min(k, len)` elements. */
  lemma TakeNonNegative<T>(xs: seq<T>, k: int)
    requires k >= 0
    ensures Take(xs, k) == xs[..Min(k, |xs|)]
  {
  }

  /** With a positive count, `xs[-k:]` is the last `min(k, len)` elements. */
  lemma DropNegative<T>(xs: seq<T>, k: int)
    requires k > 0
    ensures Drop(xs, -k) == xs[|xs| - Min(k, |xs|)..]
  {
  }

  /** The pitfall the `has_footer` guard avoids: `xs[-0:]` is the whole list. */
  lemma DropMinusZero<T>(xs: seq<T>)
    ensures Drop(xs, -0) == xs
  {
  }
}
