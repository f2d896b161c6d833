/** `split_items`: cutting a sequence into consecutive chunks of at most
    `split_size` elements, for batching requests.

    The source computes the number of full chunks as
    `floor(len(seq) / split_size)`, yields `seq[(i-1)*k:i*k]` for `i` in
    `1..full`, and then the rest `seq[full*k:]` when anything is left. The
    model keeps that arithmetic, including what it does with a negative
    size (no chunk at all); a zero size divides by zero, so it is excluded. */
module SplitItems {
  import opened Slices
  import opened SeqUtils

  /** `math.floor(a / b)`: Dafny's `/` rounds towards negative infinity only
      for a positive divisor, so a negative one is turned round first. */
  function FloorDiv(a: int, b: int): (q: int)
    requires b != 0
    ensures b > 0 ==> q * b <= a < q * b + b
    ensures b < 0 ==> q * b + b < a <= q * b
  {
    if b > 0 then a / b else (-a) / (-b)
  }

  /** The `count` full chunks `seq[i*k:(i+1)*k]`, for `i` below `count`. */
  function Segments<T>(xs: seq<T>, k: int, count: int): (r: seq<seq<T>>)
    ensures |r| == if count > 0 then count else 0
    ensures forall i :: 0 <= i < |r| ==> r[i] == Slice(xs, i * k, (i + 1) * k)
  {
    seq(if count > 0 then count else 0, i => Slice(xs, i * k, (i + 1) * k))
  }

  /** The chunks `split_items(xs, k)` yields, in order. */
  function Split<T>(xs: seq<T>, k: int): seq<seq<T>>
    requires k != 0
  {
    var full := FloorDiv(|xs|, k);
    var segs := Segments(xs, k, full);
    if full * k < |xs| then segs + [Drop(xs, full * k)] else segs
  }

  /** A negative size yields nothing: the full-chunk count is negative and
      the remainder test fails. */
  lemma NegativeSizeYieldsNothing<T>(xs: seq<T>, k: int)
    requires k < 0
    ensures Split(xs, k) == []
  {
    var full := FloorDiv(|xs|, k);
    assert full > 0 ==> full * k < 0;
  }

  /** An empty sequence yields no chunk. */
  lemma EmptyYieldsNothing<T>(xs: seq<T>, k: int)
    requires k != 0 && xs == []
    ensures Split(xs, k) == []
  {
    if k < 0 {
      NegativeSizeYieldsNothing(xs, k);
    }
  }

  lemma MulMono(a: int, b: int, k: int)
    requires a <= b && k > 0
    ensures a * k <= b * k
  {
  }

  /** Full chunk `i` is the `i`-th block of `k` elements. */
  lemma SegmentIsBlock<T>(xs: seq<T>, k: int, count: int, i: int)
    requires k > 0 && 0 <= i < count && count * k <= |xs|
    ensures 0 <= i * k && (i + 1) * k <= |xs| && (i + 1) * k == i * k + k
    ensures Segments(xs, k, count)[i] == xs[i * k..(i + 1) * k]
  {
    MulMono(i + 1, count, k);
    MulMono(0, i, k);
  }

  /** The first `m` full chunks concatenate to the first `m * k` elements. */
  lemma {:induction false} SegmentsPrefix<T>(xs: seq<T>, k: int, count: int, m: nat)
    requires k > 0 && m <= count && count * k <= |xs|
    ensures 0 <= m * k <= |xs|
    ensures Flatten(Segments(xs, k, count)[..m]) == xs[..m * k]
  {
    MulMono(m, count, k);
    MulMono(0, m, k);
    if m > 0 {
      SegmentsPrefix(xs, k, count, m - 1);
      SegmentsStep(xs, k, count, m);
    }
  }

  lemma SegmentsStep<T>(xs: seq<T>, k: int, count: int, m: nat)
    requires k > 0 && 0 < m <= count && count * k <= |xs|
    requires 0 <= (m - 1) * k <= |xs|
    requires Flatten(Segments(xs, k, count)[..m - 1]) == xs[..(m - 1) * k]
    ensures 0 <= m * k <= |xs|
    ensures Flatten(Segments(xs, k, count)[..m]) == xs[..m * k]
  {
    var segs := Segments(xs, k, count);
    SegmentIsBlock(xs, k, count, m - 1);
    var a, b := (m - 1) * k, m * k;
    assert segs[m - 1] == xs[a..b];
    TakeSnoc(segs, m);
    FlattenAppend(segs[..m - 1], [segs[m - 1]]);
    assert Flatten([segs[m - 1]]) == segs[m - 1] + Flatten([segs[m - 1]][1..]);
    TakeJoin(xs, a, b);
  }

  /** Facts about the full-chunk count for a positive size. */
  lemma FullCount(n: nat, k: int)
    requires k > 0
    ensures var full := FloorDiv(n, k);
      && 0 <= full && full * k <= n < full * k + k
      && (full * k < n <==> n % k != 0)
  {
  }

  /** Concatenating the chunks gives back the sequence. */
  lemma SplitFlatten<T>(xs: seq<T>, k: int)
    requires k > 0
    ensures Flatten(Split(xs, k)) == xs
  {
    var full := FloorDiv(|xs|, k);
    FullCount(|xs|, k);
    var segs := Segments(xs, k, full);
    SegmentsPrefix(xs, k, full, full);
    assert segs[..full] == segs;
    if full * k < |xs| {
      FlattenAppend(segs, [Drop(xs, full * k)]);
      assert Drop(xs, full * k) == xs[full * k..];
      assert Flatten([xs[full * k..]]) == xs[full * k..] + Flatten([xs[full * k..]][1..]);
      assert xs[..full * k] + xs[full * k..] == xs;
    } else {
      assert xs[..full * k] == xs;
    }
  }

  /** Every chunk but the last has exactly `k` elements; the last has between
      one and `k`, so no chunk is empty. */
  lemma SplitSizes<T>(xs: seq<T>, k: int)
    requires k > 0
    ensures var r := Split(xs, k);
      && (forall i :: 0 <= i < |r| - 1 ==> |r[i]| == k)
      && (r != [] ==> 1 <= |r[|r| - 1]| <= k)
  {
    var full := FloorDiv(|xs|, k);
    FullCount(|xs|, k);
    var segs := Segments(xs, k, full);
    forall i | 0 <= i < full
      ensures |segs[i]| == k
    {
      SegmentIsBlock(xs, k, full, i);
    }
  }

  /** There are `ceil(len / k)` chunks. */
  lemma SplitCount<T>(xs: seq<T>, k: int)
    requires k > 0
    ensures |Split(xs, k)| == (|xs| + k - 1) / k
  {
    var n, full := |xs|, FloorDiv(|xs|, k);
    FullCount(n, k);
    CeilFromFloor(n, k, full);
  }

  /** `ceil(n / k)`, written `(n + k - 1) / k`, is the number of full blocks
      plus one when a partial block is left. */
  lemma CeilFromFloor(n: nat, k: int, full: int)
    requires k > 0 && full * k <= n < full * k + k
    ensures (n + k - 1) / k == if full * k < n then full + 1 else full
  {
    var c := (n + k - 1) / k;
    assert c * k <= n + k - 1 < c * k + k;
    if full * k < n {
      assert (full + 1) * k == full * k + k;
      assert c == full + 1 by {
        if c <= full {
          MulMono(c, full, k);
        } else if c >= full + 2 {
          MulMono(full + 2, c, k);
        }
      }
    } else {
      assert c == full by {
        if c <= full - 1 {
          MulMono(c, full - 1, k);
        } else if c >= full + 1 {
          MulMono(full + 1, c, k);
        }
      }
    }
  }

  /** Seven elements in threes: two full chunks and a remainder of one. */
  lemma SevenInThrees()
    ensures Split([1, 2, 3, 4, 5, 6, 7], 3) == [[1, 2, 3], [4, 5, 6], [7]]
  {
    var xs := [1, 2, 3, 4, 5, 6, 7];
    assert FloorDiv(7, 3) == 2;
    var segs := Segments(xs, 3, 2);
    assert segs[0] == xs[0..3] == [1, 2, 3];
    assert segs[1] == xs[3..6] == [4, 5, 6];
    assert segs == [[1, 2, 3], [4, 5, 6]];
    assert Drop(xs, 6) == [7];
  }
}
