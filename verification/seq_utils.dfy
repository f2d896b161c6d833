/** The sequence helpers of the detector's utility module:
    `pairwise_combine_within_distance`, `group_consecutive_when` and
    `flatten`. */
module SeqUtils {
  import opened Slices

  /** `flatten`: the lists concatenated in order. */
  function Flatten<T>(xss: seq<seq<T>>): seq<T>
  {
    if xss == [] then [] else xss[0] + Flatten(xss[1..])
  }

  lemma {:induction false} FlattenAppend<T>(a: seq<seq<T>>, b: seq<seq<T>>)
    ensures Flatten(a + b) == Flatten(a) + Flatten(b)
  {
    if a == [] {
      assert a + b == b;
    } else {
      assert (a + b)[0] == a[0];
      assert (a + b)[1..] == a[1..] + b;
      FlattenAppend(a[1..], b);
    }
  }

  /** An element occurs in the flattened list exactly when it occurs in one of the lists. */
  lemma {:induction false} FlattenMembership<T>(xss: seq<seq<T>>, x: T)
    ensures x in Flatten(xss) <==> exists i :: 0 <= i < |xss| && x in xss[i]
  {
    if xss != [] {
      FlattenMembership(xss[1..], x);
      if x in Flatten(xss[1..]) {
        var i :| 0 <= i < |xss[1..]| && x in xss[1..][i];
        assert x in xss[i + 1];
      }
      if exists i :: 0 <= i < |xss| && x in xss[i] {
        var i :| 0 <= i < |xss| && x in xss[i];
        if i > 0 {
          assert x in xss[1..][i - 1];
        }
      }
    }
  }

  /** The list `[lo, lo + 1, ..., hi - 1]`. */
  function Range(lo: int, hi: int): (r: seq<int>)
    ensures |r| == if lo <= hi then hi - lo else 0
    ensures forall k :: 0 <= k < |r| ==> r[k] == lo + k
    decreases hi - lo
  {
    if lo >= hi then [] else [lo] + Range(lo + 1, hi)
  }

  /** `xs[:k]` is a prefix. */
  lemma TakeIsPrefix<T>(xs: seq<T>, k: int)
    ensures Take(xs, k) == xs[..Bound(k, |xs|)]
  {
  }

  /** `[(x, v) for v in ys]` */
  function PairWithEach<T>(x: T, ys: seq<T>): (r: seq<(T, T)>)
    ensures |r| == |ys|
    ensures forall k :: 0 <= k < |ys| ==> r[k] == (x, ys[k])
  {
    if ys == [] then [] else [(x, ys[0])] + PairWithEach(x, ys[1..])
  }

  /** `pairwise_combine_within_distance(xs, n)`: every element paired with
      each of the `n - 1` elements after it. The source pairs the head with
      `rest[:n - 1]` and moves on to the next element; with `n < 1` Python's
      negative slice bound makes that "all of `rest` but its last `1 - n`". */
  function PairsWithin<T>(xs: seq<T>, n: int): seq<(T, T)>
  {
    if |xs| <= 1 then []
    else
      TakeIsPrefix(xs[1..], n - 1);
      PairWithEach(xs[0], Take(xs[1..], n - 1)) + PairsWithin(xs[1..], n)
  }

  /** Index pairs come before one another in the order "by first index, then by second". */
  predicate LexLess(a: (int, int), b: (int, int))
  {
    a.0 < b.0 || (a.0 == b.0 && a.1 < b.1)
  }

  /** The pairs the generator forms from the indices `lo .. m - 1`. */
  function WindowIndices(lo: int, m: int, n: int): seq<(int, int)>
  {
    PairsWithin(Range(lo, m), n)
  }

  lemma WindowIndicesUnfold(lo: int, m: int, n: int)
    requires n >= 1 && lo + 1 < m
    ensures WindowIndices(lo, m, n) ==
      PairWithEach(lo, Range(lo + 1, lo + 1 + Min(n - 1, m - lo - 1))) + WindowIndices(lo + 1, m, n)
  {
    var xs := Range(lo, m);
    assert xs[1..] == Range(lo + 1, m);
    TakeIsPrefix(xs[1..], n - 1);
    assert Take(xs[1..], n - 1) == Range(lo + 1, lo + 1 + Min(n - 1, m - lo - 1));
  }

  /** Applied to the indices `lo .. m - 1` with `n >= 1`, the generator yields
      only pairs `(i, j)` with `lo <= i < j < m` and `j <= i + n - 1`. */
  lemma {:induction false} WindowIndicesBounded(lo: int, m: int, n: int)
    requires n >= 1
    ensures forall k :: 0 <= k < |WindowIndices(lo, m, n)| ==>
      var p := WindowIndices(lo, m, n)[k];
      lo <= p.0 < p.1 < m && p.1 <= p.0 + n - 1
    decreases m - lo
  {
    if lo + 1 < m {
      WindowIndicesUnfold(lo, m, n);
      WindowIndicesBounded(lo + 1, m, n);
    }
  }

  /** ... and every such pair. */
  lemma {:induction false} WindowIndicesComplete(lo: int, m: int, n: int, i: int, j: int)
    requires n >= 1
    requires lo <= i < j < m && j <= i + n - 1
    ensures (i, j) in WindowIndices(lo, m, n)
    decreases m - lo
  {
    WindowIndicesUnfold(lo, m, n);
    var near := Range(lo + 1, lo + 1 + Min(n - 1, m - lo - 1));
    var head := PairWithEach(lo, near);
    var rest := WindowIndices(lo + 1, m, n);
    if i == lo {
      assert (i, j) in head by {
        assert near[j - lo - 1] == j;
      }
      InConcat(head, rest, (i, j));
    } else {
      WindowIndicesComplete(lo + 1, m, n, i, j);
      InConcat(head, rest, (i, j));
    }
  }

  lemma InConcat<T>(a: seq<T>, b: seq<T>, x: T)
    requires x in a || x in b
    ensures x in a + b
  {
  }

  lemma TakeSnoc<T>(s: seq<T>, m: int)
    requires 0 < m <= |s|
    ensures s[..m] == s[..m - 1] + [s[m - 1]]
  {
  }

  lemma TakeJoin<T>(s: seq<T>, a: int, b: int)
    requires 0 <= a <= b <= |s|
    ensures s[..a] + s[a..b] == s[..b]
  {
  }

  lemma InConcatRight<T>(a: seq<T>, b: seq<T>, x: T)
    requires x in a + b && x !in a
    ensures x in b
  {
  }

  /** ... ordered by `i` and then by `j`, so each pair occurs once. */
  lemma {:induction false} WindowIndicesOrdered(lo: int, m: int, n: int)
    requires n >= 1
    ensures var p := WindowIndices(lo, m, n);
      forall k, k' :: 0 <= k < k' < |p| ==> LexLess(p[k], p[k'])
    decreases m - lo
  {
    if lo + 1 < m {
      WindowIndicesUnfold(lo, m, n);
      WindowIndicesOrdered(lo + 1, m, n);
      WindowIndicesBounded(lo + 1, m, n);
    }
  }

  /** Pairing the elements is pairing their indices and looking them up. */
  lemma {:induction false} PairsAtIndices<T>(xs: seq<T>, lo: nat, n: int)
    requires lo <= |xs|
    ensures |PairsWithin(xs[lo..], n)| == |WindowIndices(lo, |xs|, n)|
    ensures forall k :: 0 <= k < |WindowIndices(lo, |xs|, n)| ==>
      var p := WindowIndices(lo, |xs|, n)[k];
      0 <= p.0 < |xs| && 0 <= p.1 < |xs| && PairsWithin(xs[lo..], n)[k] == (xs[p.0], xs[p.1])
    decreases |xs| - lo
  {
    var ys := Range(lo, |xs|);
    var zs := xs[lo..];
    if |zs| > 1 {
      assert ys[1..] == Range(lo + 1, |xs|);
      assert zs[1..] == xs[lo + 1..];
      PairsAtIndices(xs, lo + 1, n);
      TakeIsPrefix(ys[1..], n - 1);
      TakeIsPrefix(zs[1..], n - 1);
      var hy := PairWithEach(ys[0], Take(ys[1..], n - 1));
      var hz := PairWithEach(zs[0], Take(zs[1..], n - 1));
      var w, ps := WindowIndices(lo, |xs|, n), PairsWithin(zs, n);
      assert w == hy + WindowIndices(lo + 1, |xs|, n);
      assert ps == hz + PairsWithin(xs[lo + 1..], n);
      var b := Bound(n - 1, |zs| - 1);
      assert |hy| == b == |hz|;
      forall k | 0 <= k < |w|
        ensures 0 <= w[k].0 < |xs| && 0 <= w[k].1 < |xs| && ps[k] == (xs[w[k].0], xs[w[k].1])
      {
        if k < b {
          assert w[k] == hy[k] == (lo, ys[1..][k]);
          assert ps[k] == hz[k] == (xs[lo], zs[1..][k]);
        } else {
          assert w[k] == WindowIndices(lo + 1, |xs|, n)[k - |hy|];
          assert ps[k] == PairsWithin(xs[lo + 1..], n)[k - |hy|];
        }
      }
    }
  }

  /** `group_consecutive_when(xs, pred)`, as the source runs it: a scan over
      adjacent pairs followed by a special last step. The scan leaves the
      last element for that step, which looks at `pred(last, last)`. */
  function GroupConsecutiveWhen<T>(xs: seq<T>, pred: (T, T) -> bool): seq<seq<T>>
  {
    if |xs| == 0 then [[]]
    else if |xs| == 1 then [[xs[0]]]
    else
      var st := Scan(xs, pred, |xs| - 1);
      var last := xs[|xs| - 1];
      st.groups + [if pred(last, last) then st.current + [last, last] else st.current + [last]]
  }

  /** The groups yielded so far and the open group (`result`). */
  datatype Scanned<T> = Scanned(groups: seq<seq<T>>, current: seq<T>)

  /** The state of the source's `while len(xs) > 1` loop after `k` rounds.
      Round `i` appends `xs[i]` to the open group and yields it when
      `pred(xs[i], xs[i + 1])` fails. */
  function Scan<T>(xs: seq<T>, pred: (T, T) -> bool, k: nat): (r: Scanned<T>)
    requires k < |xs|
    ensures |r.current| <= k
  {
    if k == 0 then Scanned([], [])
    else
      var st := Scan(xs, pred, k - 1);
      var current := st.current + [xs[k - 1]];
      if pred(xs[k - 1], xs[k]) then Scanned(st.groups, current)
      else Scanned(st.groups + [current], [])
  }

  function Last<T>(xs: seq<T>): T
    requires xs != []
  {
    xs[|xs| - 1]
  }

  /** Adjacent elements of `xs` satisfy `pred`. */
  predicate Chained<T>(xs: seq<T>, pred: (T, T) -> bool)
  {
    forall i :: 0 <= i < |xs| - 1 ==> pred(xs[i], xs[i + 1])
  }

  /** `pred` fails between the end of each group and the start of the next. */
  predicate BrokenBetween<T>(groups: seq<seq<T>>, pred: (T, T) -> bool)
    requires forall g :: 0 <= g < |groups| ==> groups[g] != []
  {
    forall g :: 0 <= g < |groups| - 1 ==> !pred(Last(groups[g]), groups[g + 1][0])
  }

  /** The groups are maximal runs: non-empty, chained inside, broken between. */
  predicate MaximalRuns<T>(groups: seq<seq<T>>, pred: (T, T) -> bool)
  {
    && (forall g :: 0 <= g < |groups| ==> groups[g] != [])
    && (forall g :: 0 <= g < |groups| ==> Chained(groups[g], pred))
    && BrokenBetween(groups, pred)
  }

  lemma {:induction false} ScanCovers<T>(xs: seq<T>, pred: (T, T) -> bool, k: nat)
    requires k < |xs|
    ensures Flatten(Scan(xs, pred, k).groups) + Scan(xs, pred, k).current == xs[..k]
  {
    if k > 0 {
      ScanCovers(xs, pred, k - 1);
      var st := Scan(xs, pred, k - 1);
      var current := st.current + [xs[k - 1]];
      assert xs[..k] == xs[..k - 1] + [xs[k - 1]];
      if !pred(xs[k - 1], xs[k]) {
        FlattenAppend(st.groups, [current]);
        assert Flatten([current]) == current + Flatten([current][1..]);
      }
    }
  }

  lemma SingletonRuns<T>(c: seq<T>, pred: (T, T) -> bool)
    requires c != [] && Chained(c, pred)
    ensures MaximalRuns([c], pred)
  {
  }

  lemma {:induction false} AppendRun<T>(groups: seq<seq<T>>, c: seq<T>, pred: (T, T) -> bool)
    requires MaximalRuns(groups, pred)
    requires c != [] && Chained(c, pred)
    requires groups != [] ==> !pred(Last(Last(groups)), c[0])
    ensures MaximalRuns(groups + [c], pred)
  {
    var gs := groups + [c];
    forall g | 0 <= g < |gs| - 1
      ensures !pred(Last(gs[g]), gs[g + 1][0])
    {
      if g < |groups| - 1 {
        assert gs[g] == groups[g] && gs[g + 1] == groups[g + 1];
      } else {
        assert gs[g] == Last(groups) && gs[g + 1] == c;
      }
    }
  }

  /** What the scan keeps true after `k` rounds. */
  predicate ScanInvariant<T>(xs: seq<T>, pred: (T, T) -> bool, k: nat, st: Scanned<T>)
    requires k < |xs| && |st.current| <= k
  {
    && MaximalRuns(st.groups, pred)
    && Chained(st.current, pred)
    && (st.current != [] ==> pred(Last(st.current), xs[k]))
    && (st.groups != [] ==> !pred(Last(Last(st.groups)), xs[k - |st.current|]))
  }

  lemma {:induction false} ScanRuns<T>(xs: seq<T>, pred: (T, T) -> bool, k: nat)
    requires k < |xs|
    ensures ScanInvariant(xs, pred, k, Scan(xs, pred, k))
  {
    if k > 0 {
      ScanRuns(xs, pred, k - 1);
      ScanCovers(xs, pred, k - 1);
      var st := Scan(xs, pred, k - 1);
      if pred(xs[k - 1], xs[k]) {
        ScanJoin(xs, pred, k, st);
      } else {
        ScanClose(xs, pred, k, st);
      }
    }
  }

  lemma ScanJoin<T>(xs: seq<T>, pred: (T, T) -> bool, k: nat, st: Scanned<T>)
    requires 0 < k < |xs| && |st.current| <= k - 1
    requires ScanInvariant(xs, pred, k - 1, st)
    requires pred(xs[k - 1], xs[k])
    ensures ScanInvariant(xs, pred, k, Scanned(st.groups, st.current + [xs[k - 1]]))
  {
    var current := st.current + [xs[k - 1]];
    assert Chained(current, pred);
    assert Last(current) == xs[k - 1];
    assert k - |current| == k - 1 - |st.current|;
  }

  lemma ScanClose<T>(xs: seq<T>, pred: (T, T) -> bool, k: nat, st: Scanned<T>)
    requires 0 < k < |xs| && |st.current| <= k - 1
    requires ScanInvariant(xs, pred, k - 1, st)
    requires Flatten(st.groups) + st.current == xs[..k - 1]
    requires !pred(xs[k - 1], xs[k])
    ensures ScanInvariant(xs, pred, k, Scanned(st.groups + [st.current + [xs[k - 1]]], []))
  {
    var current := st.current + [xs[k - 1]];
    var start := k - 1 - |st.current|;
    assert Chained(current, pred);
    assert current[0] == xs[start] by {
      if st.current != [] {
        assert xs[..k - 1][start] == xs[start];
      }
    }
    AppendRun(st.groups, current, pred);
    assert Last(st.groups + [current]) == current;
  }

  /** On a non-empty input whose last element does not satisfy
      `pred(last, last)`, the groups are the maximal runs of the input:
      they concatenate back to it, adjacent elements inside a group satisfy
      `pred`, and `pred` fails across every group boundary. */
  lemma GroupsAreMaximalRuns<T>(xs: seq<T>, pred: (T, T) -> bool)
    requires xs != [] && !pred(Last(xs), Last(xs))
    ensures Flatten(GroupConsecutiveWhen(xs, pred)) == xs
    ensures MaximalRuns(GroupConsecutiveWhen(xs, pred), pred)
  {
    var r := GroupConsecutiveWhen(xs, pred);
    if |xs| == 1 {
      assert r == [[xs[0]]];
      assert Flatten(r) == [xs[0]] + Flatten(r[1..]);
    } else {
      LongGroupsFlatten(xs, pred);
      LongGroupsAreRuns(xs, pred);
    }
  }

  /** The last group of a long input: the open group of the scan and the
      last element. */
  lemma LongGroupsLast<T>(xs: seq<T>, pred: (T, T) -> bool)
    requires |xs| > 1 && !pred(Last(xs), Last(xs))
    ensures GroupConsecutiveWhen(xs, pred)
      == Scan(xs, pred, |xs| - 1).groups + [Scan(xs, pred, |xs| - 1).current + [Last(xs)]]
  {
  }

  lemma LongGroupsFlatten<T>(xs: seq<T>, pred: (T, T) -> bool)
    requires |xs| > 1 && !pred(Last(xs), Last(xs))
    ensures Flatten(GroupConsecutiveWhen(xs, pred)) == xs
  {
    var k := |xs| - 1;
    var st := Scan(xs, pred, k);
    var final := st.current + [xs[k]];
    LongGroupsLast(xs, pred);
    ScanCovers(xs, pred, k);
    FlattenAppend(st.groups, [final]);
    assert Flatten([final]) == final + Flatten([final][1..]);
    assert xs == xs[..k] + [xs[k]];
  }

  lemma LongGroupsAreRuns<T>(xs: seq<T>, pred: (T, T) -> bool)
    requires |xs| > 1 && !pred(Last(xs), Last(xs))
    ensures MaximalRuns(GroupConsecutiveWhen(xs, pred), pred)
  {
    var k := |xs| - 1;
    var st := Scan(xs, pred, k);
    var final := st.current + [xs[k]];
    LongGroupsLast(xs, pred);
    ScanCovers(xs, pred, k);
    ScanRuns(xs, pred, k);
    assert Chained(final, pred);
    assert final[0] == xs[k - |st.current|] by {
      if st.current != [] {
        assert xs[..k][k - |st.current|] == xs[k - |st.current|];
      }
    }
    AppendRun(st.groups, final, pred);
  }

  /** Quirk: an empty input yields one empty group. */
  lemma GroupsOfEmpty<T>(pred: (T, T) -> bool)
    ensures GroupConsecutiveWhen([], pred) == [[]]
  {
  }

  /** Quirk: with two or more elements and `pred(last, last)` true, the last
      element is emitted twice. */
  lemma {:induction false} GroupsRepeatLast<T>(xs: seq<T>, pred: (T, T) -> bool)
    requires |xs| >= 2 && pred(Last(xs), Last(xs))
    ensures Flatten(GroupConsecutiveWhen(xs, pred)) == xs + [Last(xs)]
  {
    var k := |xs| - 1;
    ScanCovers(xs, pred, k);
    var st := Scan(xs, pred, k);
    var final := st.current + [xs[k], xs[k]];
    FlattenAppend(st.groups, [final]);
    assert Flatten([final]) == final + Flatten([final][1..]);
    assert xs == xs[..k] + [xs[k]];
  }
}
