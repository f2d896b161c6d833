/** `_cluster_lines`: union-by-size clustering of similar-line pairs.

    The source keeps a dictionary from each line to the list object of its
    cluster; several keys share one list, and merging extends the larger
    list and points the smaller list's members at it. The model keeps the
    lists in an arena (`arena`, never shrunk) and the dictionary as a map
    from an element to an arena index (`owner`); list identity (`c1 is not
    c2`) is index inequality. The clusters returned are the lists some key
    still points at. */
module Clustering {
  import opened SeqUtils

  datatype Clusters<T(==)> = Clusters(arena: seq<seq<T>>, owner: map<T, nat>)

  /** Every key points into the arena. */
  predicate Owned<T(==)>(st: Clusters<T>)
  {
    forall x :: x in st.owner ==> st.owner[x] < |st.arena|
  }

  /** `for x in smaller: cluster_map[x] = larger` */
  function Reassign<T(==)>(m: map<T, nat>, xs: seq<T>, l: nat): (r: map<T, nat>)
    ensures forall x :: x in r ==> x in m || x in xs
    ensures forall x :: x in m ==> x in r
    ensures forall x :: x in xs ==> x in r
    ensures forall x :: x in r ==> r[x] == if x in xs then l else m[x]
  {
    if xs == [] then m else Reassign(m, xs[..|xs| - 1], l)[xs[|xs| - 1] := l]
  }

  /** One round of the loop, for the pair `(a, b)`. */
  function Step<T(==)>(st: Clusters<T>, e: (T, T)): (r: Clusters<T>)
    requires Owned(st)
    ensures Owned(r)
  {
    var (a, b) := e;
    if a in st.owner && b in st.owner && st.owner[a] != st.owner[b] then
      var i, j := st.owner[a], st.owner[b];
      var s, l := if |st.arena[i]| < |st.arena[j]| then i else j, if |st.arena[i]| < |st.arena[j]| then j else i;
      Clusters(st.arena[l := st.arena[l] + st.arena[s]], Reassign(st.owner, st.arena[s], l))
    else if a in st.owner && b !in st.owner then
      var i := st.owner[a];
      Clusters(st.arena[i := st.arena[i] + [b]], st.owner[b := i])
    else if a !in st.owner && b in st.owner then
      var j := st.owner[b];
      Clusters(st.arena[j := st.arena[j] + [a]], st.owner[a := j])
    else if a !in st.owner && b !in st.owner then
      var n := |st.arena|;
      Clusters(st.arena + [[a, b]], st.owner[a := n][b := n])
    else
      st
  }

  /** The state after the loop has consumed `edges`, in order. */
  function ClusterAll<T(==)>(edges: seq<(T, T)>): (st: Clusters<T>)
    ensures Owned(st)
  {
    if edges == [] then Clusters([], map[])
    else Step(ClusterAll(edges[..|edges| - 1]), edges[|edges| - 1])
  }

  /** The arena indices some key points at, in increasing order. */
  function LiveFrom<T(==)>(st: Clusters<T>, i: nat): (r: seq<nat>)
    ensures forall k :: 0 <= k < |r| ==> i <= r[k] < |st.arena| && r[k] in st.owner.Values
    ensures forall k, k' :: 0 <= k < k' < |r| ==> r[k] < r[k']
    ensures forall j :: i <= j < |st.arena| && j in st.owner.Values ==> j in r
    decreases |st.arena| - i
  {
    if i >= |st.arena| then []
    else if i in st.owner.Values then [i] + LiveFrom(st, i + 1)
    else LiveFrom(st, i + 1)
  }

  /** `set(map(tuple, cluster_map.values()))`, listed in arena order. */
  function Live<T(==)>(st: Clusters<T>): (r: seq<seq<T>>)
  {
    var ix := LiveFrom(st, 0);
    seq(|ix|, k requires 0 <= k < |ix| => st.arena[ix[k]])
  }

  function ClusterLines<T(==)>(edges: seq<(T, T)>): seq<seq<T>>
  {
    Live(ClusterAll(edges))
  }

  /** Every element of some pair. */
  function Endpoints<T(==)>(edges: seq<(T, T)>): set<T>
  {
    if edges == [] then {}
    else Endpoints(edges[..|edges| - 1]) + {edges[|edges| - 1].0, edges[|edges| - 1].1}
  }

  lemma EndpointsAppend<T>(edges: seq<(T, T)>, e: (T, T))
    ensures Endpoints(edges + [e]) == Endpoints(edges) + {e.0, e.1}
  {
    assert (edges + [e])[..|edges|] == edges;
  }

  /** A line is an endpoint exactly when it is one side of some pair. */
  lemma {:induction false} EndpointsMembership<T>(edges: seq<(T, T)>, x: T)
    ensures x in Endpoints(edges) <==> exists k :: 0 <= k < |edges| && (x == edges[k].0 || x == edges[k].1)
  {
    if edges != [] {
      var pre := edges[..|edges| - 1];
      EndpointsMembership(pre, x);
      if x in Endpoints(pre) {
        var k :| 0 <= k < |pre| && (x == pre[k].0 || x == pre[k].1);
        assert edges[k] == pre[k];
      }
      if exists k :: 0 <= k < |edges| && (x == edges[k].0 || x == edges[k].1) {
        var k :| 0 <= k < |edges| && (x == edges[k].0 || x == edges[k].1);
        if k < |pre| {
          assert edges[k] == pre[k];
        }
      }
    }
  }

  /** Each key is in the list it points at. */
  predicate Home<T(==)>(st: Clusters<T>)
    requires Owned(st)
  {
    forall x :: x in st.owner ==> x in st.arena[st.owner[x]]
  }

  /** Each member of a pointed-at list points at that list. */
  predicate Closed<T(==)>(st: Clusters<T>)
    requires Owned(st)
  {
    forall x, y :: x in st.owner && y in st.arena[st.owner[x]] ==> y in st.owner && st.owner[y] == st.owner[x]
  }

  /** Every pointed-at list has at least two entries. */
  predicate Big<T(==)>(st: Clusters<T>)
    requires Owned(st)
  {
    forall x :: x in st.owner ==> |st.arena[st.owner[x]]| >= 2
  }

  /** The two lines of each pair seen are keys pointing at the same list. */
  predicate Together<T(==)>(st: Clusters<T>, edges: seq<(T, T)>)
  {
    forall k :: 0 <= k < |edges| ==>
      edges[k].0 in st.owner && edges[k].1 in st.owner && st.owner[edges[k].0] == st.owner[edges[k].1]
  }

  /** The invariant of the loop after consuming `edges`. */
  predicate Inv<T(==)>(st: Clusters<T>, edges: seq<(T, T)>)
  {
    && Owned(st)
    && Home(st)
    && Closed(st)
    && Big(st)
    && st.owner.Keys == Endpoints(edges)
    && Together(st, edges)
  }

  lemma {:induction false} InvAll<T>(edges: seq<(T, T)>)
    ensures Inv(ClusterAll(edges), edges)
  {
    if edges != [] {
      var pre := edges[..|edges| - 1];
      InvAll(pre);
      InvStep(ClusterAll(pre), pre, edges[|edges| - 1]);
      assert pre + [edges[|edges| - 1]] == edges;
    }
  }

  lemma InvStep<T>(st: Clusters<T>, edges: seq<(T, T)>, e: (T, T))
    requires Inv(st, edges)
    ensures Inv(Step(st, e), edges + [e])
  {
    var (a, b) := e;
    if a in st.owner && b in st.owner && st.owner[a] != st.owner[b] {
      StepMerge(st, edges, e);
    } else if a in st.owner && b !in st.owner {
      AttachInv(st, edges, e, a, b, Step(st, e));
    } else if a !in st.owner && b in st.owner {
      AttachInv(st, edges, e, b, a, Step(st, e));
    } else if a !in st.owner && b !in st.owner {
      FreshInv(st, edges, e, Step(st, e));
    } else {
      EndpointsAppend(edges, e);
      TogetherAgain(st, edges, e);
    }
  }

  lemma StepMerge<T>(st: Clusters<T>, edges: seq<(T, T)>, e: (T, T))
    requires Inv(st, edges)
    requires e.0 in st.owner && e.1 in st.owner && st.owner[e.0] != st.owner[e.1]
    ensures Inv(Step(st, e), edges + [e])
  {
    var (a, b) := e;
    var i, j := st.owner[a], st.owner[b];
    var s, l := if |st.arena[i]| < |st.arena[j]| then i else j, if |st.arena[i]| < |st.arena[j]| then j else i;
    var xs, xl := if s == i then a else b, if s == i then b else a;
    MergeInv(st, edges, e, xs, xl, s, l, Step(st, e));
  }

  lemma MergeInv<T>(st: Clusters<T>, edges: seq<(T, T)>, e: (T, T), xs: T, xl: T, s: nat, l: nat, r: Clusters<T>)
    requires Inv(st, edges)
    requires xs in st.owner && xl in st.owner && st.owner[xs] == s && st.owner[xl] == l && s != l
    requires {e.0, e.1} == {xs, xl}
    requires r == Clusters(st.arena[l := st.arena[l] + st.arena[s]], Reassign(st.owner, st.arena[s], l))
    requires Owned(r)
    ensures Inv(r, edges + [e])
  {
    EndpointsAppend(edges, e);
    MergeHome(st, xs, xl, s, l, r);
    MergeClosed(st, xs, xl, s, l, r);
    MergeBig(st, xs, xl, s, l, r);
    MergeTogether(st, edges, e, xs, xl, s, l, r);
    MergeKeys(st, xs, xl, s, l, r);
  }

  lemma TogetherAgain<T>(st: Clusters<T>, edges: seq<(T, T)>, e: (T, T))
    requires Together(st, edges)
    requires e.0 in st.owner && e.1 in st.owner && st.owner[e.0] == st.owner[e.1]
    ensures Together(st, edges + [e])
  {
    assert forall k :: 0 <= k < |edges| ==> (edges + [e])[k] == edges[k];
  }

  /** In a merge, the keys pointing at the smaller list are exactly its members. */
  lemma MergeSmaller<T>(st: Clusters<T>, xs: T, xl: T, s: nat, l: nat, y: T)
    requires Owned(st) && Home(st) && Closed(st)
    requires xs in st.owner && xl in st.owner && st.owner[xs] == s && st.owner[xl] == l && s != l
    requires y in st.owner
    ensures y in st.arena[s] <==> st.owner[y] == s
  {
    if y in st.arena[s] {
      assert y in st.arena[st.owner[xs]];
    }
  }

  lemma MergeKeys<T>(st: Clusters<T>, xs: T, xl: T, s: nat, l: nat, r: Clusters<T>)
    requires Owned(st) && Home(st) && Closed(st)
    requires xs in st.owner && xl in st.owner && st.owner[xs] == s && st.owner[xl] == l && s != l
    requires r == Clusters(st.arena[l := st.arena[l] + st.arena[s]], Reassign(st.owner, st.arena[s], l))
    ensures r.owner.Keys == st.owner.Keys
  {
    ClosedMembers(st, xs);
    ReassignKeys(st.owner, st.arena[s], l);
  }

  /** The members of a pointed-at list are keys. */
  lemma ClosedMembers<T>(st: Clusters<T>, x: T)
    requires Owned(st) && Closed(st) && x in st.owner
    ensures forall y :: y in st.arena[st.owner[x]] ==> y in st.owner
  {
  }

  /** Moving lines that are already keys adds no key. */
  lemma ReassignKeys<T>(m: map<T, nat>, xs: seq<T>, l: nat)
    requires forall y :: y in xs ==> y in m
    ensures Reassign(m, xs, l).Keys == m.Keys
  {
  }

  lemma MergeHome<T>(st: Clusters<T>, xs: T, xl: T, s: nat, l: nat, r: Clusters<T>)
    requires Owned(st) && Home(st) && Closed(st)
    requires xs in st.owner && xl in st.owner && st.owner[xs] == s && st.owner[xl] == l && s != l
    requires r == Clusters(st.arena[l := st.arena[l] + st.arena[s]], Reassign(st.owner, st.arena[s], l))
    requires Owned(r)
    ensures Home(r)
  {
    forall x | x in r.owner
      ensures x in r.arena[r.owner[x]]
    {
      if x !in st.arena[s] {
        MergeSmaller(st, xs, xl, s, l, x);
      }
    }
  }

  lemma MergeClosed<T>(st: Clusters<T>, xs: T, xl: T, s: nat, l: nat, r: Clusters<T>)
    requires Owned(st) && Home(st) && Closed(st)
    requires xs in st.owner && xl in st.owner && st.owner[xs] == s && st.owner[xl] == l && s != l
    requires r == Clusters(st.arena[l := st.arena[l] + st.arena[s]], Reassign(st.owner, st.arena[s], l))
    requires Owned(r)
    ensures Closed(r)
  {
    forall x, y | x in r.owner && y in r.arena[r.owner[x]]
      ensures y in r.owner && r.owner[y] == r.owner[x]
    {
      if r.owner[x] == l {
        if y in st.arena[l] {
          assert y in st.arena[st.owner[xl]];
          MergeSmaller(st, xs, xl, s, l, y);
        }
      } else {
        MergeSmaller(st, xs, xl, s, l, x);
        assert y in st.arena[st.owner[x]];
        MergeSmaller(st, xs, xl, s, l, y);
      }
    }
  }

  lemma MergeBig<T>(st: Clusters<T>, xs: T, xl: T, s: nat, l: nat, r: Clusters<T>)
    requires Owned(st) && Home(st) && Closed(st) && Big(st)
    requires xs in st.owner && xl in st.owner && st.owner[xs] == s && st.owner[xl] == l && s != l
    requires r == Clusters(st.arena[l := st.arena[l] + st.arena[s]], Reassign(st.owner, st.arena[s], l))
    requires Owned(r)
    ensures Big(r)
  {
    forall x | x in r.owner
      ensures |r.arena[r.owner[x]]| >= 2
    {
      if r.owner[x] == l {
        assert |st.arena[st.owner[xl]]| >= 2;
      } else {
        MergeSmaller(st, xs, xl, s, l, x);
      }
    }
  }

  lemma MergeTogether<T>(st: Clusters<T>, edges: seq<(T, T)>, e: (T, T), xs: T, xl: T, s: nat, l: nat, r: Clusters<T>)
    requires Owned(st) && Home(st) && Closed(st) && Together(st, edges)
    requires xs in st.owner && xl in st.owner && st.owner[xs] == s && st.owner[xl] == l && s != l
    requires r == Clusters(st.arena[l := st.arena[l] + st.arena[s]], Reassign(st.owner, st.arena[s], l))
    requires {e.0, e.1} == {xs, xl}
    ensures Together(r, edges + [e])
  {
    MergeKeys(st, xs, xl, s, l, r);
    forall k | 0 <= k < |edges + [e]|
      ensures var p := (edges + [e])[k];
        p.0 in r.owner && p.1 in r.owner && r.owner[p.0] == r.owner[p.1]
    {
      var p := (edges + [e])[k];
      MergeSmaller(st, xs, xl, s, l, p.0);
      MergeSmaller(st, xs, xl, s, l, p.1);
      if k < |edges| {
        assert p == edges[k];
      }
    }
  }

  /** A new line `y` joins the list of the known line `x`. */
  lemma AttachInv<T>(st: Clusters<T>, edges: seq<(T, T)>, e: (T, T), x: T, y: T, r: Clusters<T>)
    requires Inv(st, edges)
    requires {x, y} == {e.0, e.1} && x in st.owner && y !in st.owner
    requires r == Clusters(st.arena[st.owner[x] := st.arena[st.owner[x]] + [y]], st.owner[y := st.owner[x]])
    requires Owned(r)
    ensures Home(r) && Big(r) && Closed(r)
    ensures r.owner.Keys == Endpoints(edges + [e])
    ensures Together(r, edges + [e])
  {
    AttachClosed(st, x, y, r);
    EndpointsAppend(edges, e);
    AttachTogether(st, edges, e, x, y, r);
  }

  lemma AttachClosed<T>(st: Clusters<T>, x: T, y: T, r: Clusters<T>)
    requires Owned(st) && Home(st) && Closed(st)
    requires x in st.owner && y !in st.owner
    requires r == Clusters(st.arena[st.owner[x] := st.arena[st.owner[x]] + [y]], st.owner[y := st.owner[x]])
    requires Owned(r)
    ensures Closed(r)
  {
    var i := st.owner[x];
    forall z, w | z in r.owner && w in r.arena[r.owner[z]]
      ensures w in r.owner && r.owner[w] == r.owner[z]
    {
      if r.owner[z] == i && w != y {
        assert w in st.arena[st.owner[x]];
      } else if z != y && r.owner[z] != i {
        assert w in st.arena[st.owner[z]];
      }
    }
  }

  lemma AttachTogether<T>(st: Clusters<T>, edges: seq<(T, T)>, e: (T, T), x: T, y: T, r: Clusters<T>)
    requires Owned(st) && Together(st, edges)
    requires {x, y} == {e.0, e.1} && x in st.owner && y !in st.owner
    requires r == Clusters(st.arena[st.owner[x] := st.arena[st.owner[x]] + [y]], st.owner[y := st.owner[x]])
    ensures Together(r, edges + [e])
  {
    assert forall k :: 0 <= k < |edges| ==> (edges + [e])[k] == edges[k];
  }

  /** Two new lines start a list of their own. */
  lemma FreshInv<T>(st: Clusters<T>, edges: seq<(T, T)>, e: (T, T), r: Clusters<T>)
    requires Inv(st, edges)
    requires e.0 !in st.owner && e.1 !in st.owner
    requires r == Clusters(st.arena + [[e.0, e.1]], st.owner[e.0 := |st.arena|][e.1 := |st.arena|])
    requires Owned(r)
    ensures Home(r) && Big(r) && Closed(r)
    ensures r.owner.Keys == Endpoints(edges + [e])
    ensures Together(r, edges + [e])
  {
    FreshClosed(st, e, r);
    FreshHomeBig(st, e, r);
    FreshTogether(st, edges, e, r);
    EndpointsAppend(edges, e);
  }

  lemma FreshHomeBig<T>(st: Clusters<T>, e: (T, T), r: Clusters<T>)
    requires Owned(st) && Home(st) && Big(st)
    requires e.0 !in st.owner && e.1 !in st.owner
    requires r == Clusters(st.arena + [[e.0, e.1]], st.owner[e.0 := |st.arena|][e.1 := |st.arena|])
    requires Owned(r)
    ensures Home(r) && Big(r)
  {
    forall x | x in r.owner
      ensures x in r.arena[r.owner[x]] && |r.arena[r.owner[x]]| >= 2
    {
      if x != e.0 && x != e.1 {
        assert r.arena[r.owner[x]] == st.arena[st.owner[x]];
      }
    }
  }

  lemma FreshTogether<T>(st: Clusters<T>, edges: seq<(T, T)>, e: (T, T), r: Clusters<T>)
    requires Owned(st) && Together(st, edges)
    requires e.0 !in st.owner && e.1 !in st.owner
    requires r == Clusters(st.arena + [[e.0, e.1]], st.owner[e.0 := |st.arena|][e.1 := |st.arena|])
    ensures Together(r, edges + [e])
  {
    assert forall k :: 0 <= k < |edges| ==> (edges + [e])[k] == edges[k];
  }

  lemma FreshClosed<T>(st: Clusters<T>, e: (T, T), r: Clusters<T>)
    requires Owned(st) && Closed(st)
    requires e.0 !in st.owner && e.1 !in st.owner
    requires r == Clusters(st.arena + [[e.0, e.1]], st.owner[e.0 := |st.arena|][e.1 := |st.arena|])
    requires Owned(r)
    ensures Closed(r)
  {
    var n := |st.arena|;
    forall z, w | z in r.owner && w in r.arena[r.owner[z]]
      ensures w in r.owner && r.owner[w] == r.owner[z]
    {
      if r.owner[z] != n {
        assert r.arena[r.owner[z]] == st.arena[st.owner[z]];
      }
    }
  }

  /** A live list is pointed at by some key. */
  lemma LiveKey<T>(st: Clusters<T>, m: nat) returns (x: T)
    requires Owned(st) && m < |LiveFrom(st, 0)|
    ensures x in st.owner && st.owner[x] == LiveFrom(st, 0)[m]
  {
    var i := LiveFrom(st, 0)[m];
    assert i in st.owner.Values;
    x :| x in st.owner && st.owner[x] == i;
  }

  /** The list a key points at is live. */
  lemma KeyLive<T>(st: Clusters<T>, x: T) returns (m: nat)
    requires Owned(st) && x in st.owner
    ensures m < |Live(st)| && LiveFrom(st, 0)[m] == st.owner[x]
  {
    var ix := LiveFrom(st, 0);
    assert st.owner[x] in st.owner.Values;
    assert st.owner[x] in ix;
    m :| 0 <= m < |ix| && ix[m] == st.owner[x];
  }

  lemma LiveBig<T>(st: Clusters<T>)
    requires Owned(st) && Big(st)
    ensures forall m :: 0 <= m < |Live(st)| ==> |Live(st)[m]| >= 2
  {
    forall m | 0 <= m < |Live(st)|
      ensures |Live(st)[m]| >= 2
    {
      var x := LiveKey(st, m);
    }
  }

  lemma LiveDisjoint<T>(st: Clusters<T>)
    requires Owned(st) && Closed(st)
    ensures forall m, n, y :: 0 <= m < n < |Live(st)| && y in Live(st)[m] ==> y !in Live(st)[n]
  {
    forall m, n, y | 0 <= m < n < |Live(st)| && y in Live(st)[m]
      ensures y !in Live(st)[n]
    {
      LiveOwner(st, m, y);
      LiveOwner(st, n, y);
    }
  }

  /** A member of a live list points at it. */
  lemma LiveOwner<T>(st: Clusters<T>, m: nat, y: T)
    requires Owned(st) && Closed(st)
    requires m < |Live(st)|
    ensures y in Live(st)[m] ==> y in st.owner && st.owner[y] == LiveFrom(st, 0)[m]
  {
    var x := LiveKey(st, m);
    if y in Live(st)[m] {
      assert y in st.arena[st.owner[x]];
    }
  }

  lemma LiveCover<T>(st: Clusters<T>, y: T)
    requires Owned(st) && Home(st) && Closed(st)
    ensures y in Flatten(Live(st)) <==> y in st.owner
  {
    var cs := Live(st);
    FlattenMembership(cs, y);
    assert y in st.owner ==> y in Flatten(cs) by {
      if y in st.owner {
        var m := KeyLive(st, y);
        assert y in cs[m];
      }
    }
    assert y in Flatten(cs) ==> y in st.owner by {
      if y in Flatten(cs) {
        var m :| 0 <= m < |cs| && y in cs[m];
        LiveOwner(st, m, y);
      }
    }
  }

  lemma LiveJoin<T>(st: Clusters<T>, a: T, b: T)
    requires Owned(st) && Home(st)
    requires a in st.owner && b in st.owner && st.owner[a] == st.owner[b]
    ensures exists m :: 0 <= m < |Live(st)| && a in Live(st)[m] && b in Live(st)[m]
  {
    var m := KeyLive(st, a);
    assert a in Live(st)[m] && b in Live(st)[m];
  }

  /** `x` and `y` are the two lines of some pair, in either order. */
  predicate Adjacent<T(==)>(edges: seq<(T, T)>, x: T, y: T)
  {
    (x, y) in edges || (y, x) in edges
  }

  /** `p` is a walk from `x` to `y` along pairs of `edges`. */
  predicate Walk<T(==)>(edges: seq<(T, T)>, p: seq<T>, x: T, y: T)
  {
    && |p| > 0 && p[0] == x && p[|p| - 1] == y
    && forall i :: 0 <= i < |p| - 1 ==> Adjacent(edges, p[i], p[i + 1])
  }

  /** `x` and `y` are joined by a chain of pairs: they are in one connected
      component of the graph whose edges are the pairs. */
  ghost predicate Linked<T(!new)>(edges: seq<(T, T)>, x: T, y: T)
  {
    exists p :: Walk(edges, p, x, y)
  }

  lemma LinkedSelf<T(!new)>(edges: seq<(T, T)>, x: T)
    ensures Linked(edges, x, x)
  {
    assert Walk(edges, [x], x, x);
  }

  lemma LinkedPair<T(!new)>(edges: seq<(T, T)>, x: T, y: T)
    requires Adjacent(edges, x, y)
    ensures Linked(edges, x, y)
  {
    assert Walk(edges, [x, y], x, y);
  }

  lemma LinkedSymmetric<T(!new)>(edges: seq<(T, T)>, x: T, y: T)
    requires Linked(edges, x, y)
    ensures Linked(edges, y, x)
  {
    var p :| Walk(edges, p, x, y);
    var q := seq(|p|, i requires 0 <= i < |p| => p[|p| - 1 - i]);
    forall i | 0 <= i < |q| - 1
      ensures Adjacent(edges, q[i], q[i + 1])
    {
      assert Adjacent(edges, p[|p| - 2 - i], p[|p| - 1 - i]);
    }
    assert Walk(edges, q, y, x);
  }

  lemma LinkedTrans<T(!new)>(edges: seq<(T, T)>, x: T, y: T, z: T)
    requires Linked(edges, x, y) && Linked(edges, y, z)
    ensures Linked(edges, x, z)
  {
    var p :| Walk(edges, p, x, y);
    var q :| Walk(edges, q, y, z);
    var w := p + q[1..];
    forall i | 0 <= i < |w| - 1
      ensures Adjacent(edges, w[i], w[i + 1])
    {
      if i < |p| - 1 {
        assert w[i] == p[i] && w[i + 1] == p[i + 1];
      } else {
        var j := i - |p| + 1;
        assert w[i] == q[j] && w[i + 1] == q[j + 1];
      }
    }
    assert Walk(edges, w, x, z);
  }

  /** A later pair never breaks a chain. */
  lemma LinkedExtend<T(!new)>(edges: seq<(T, T)>, e: (T, T), x: T, y: T)
    requires Linked(edges, x, y)
    ensures Linked(edges + [e], x, y)
  {
    var p :| Walk(edges, p, x, y);
    forall i | 0 <= i < |p| - 1
      ensures Adjacent(edges + [e], p[i], p[i + 1])
    {
      assert Adjacent(edges, p[i], p[i + 1]);
    }
    assert Walk(edges + [e], p, x, y);
  }

  /** Each key is linked to every member of the list it points at. */
  ghost predicate Connected<T(!new)>(st: Clusters<T>, edges: seq<(T, T)>)
    requires Owned(st)
  {
    forall x, y :: x in st.owner && y in st.arena[st.owner[x]] ==> Linked(edges, x, y)
  }

  /** The loop only ever puts linked lines in one list. */
  lemma {:induction false} ConnectedAll<T(!new)>(edges: seq<(T, T)>)
    ensures Connected(ClusterAll(edges), edges)
  {
    if edges != [] {
      var pre, e := edges[..|edges| - 1], edges[|edges| - 1];
      ConnectedAll(pre);
      InvAll(pre);
      ConnectedStep(ClusterAll(pre), pre, e);
      assert pre + [e] == edges;
    }
  }

  lemma ConnectedStep<T(!new)>(st: Clusters<T>, edges: seq<(T, T)>, e: (T, T))
    requires Inv(st, edges) && Connected(st, edges)
    ensures Connected(Step(st, e), edges + [e])
  {
    var (a, b) := e;
    if a in st.owner && b in st.owner && st.owner[a] != st.owner[b] {
      var i, j := st.owner[a], st.owner[b];
      var s, l := if |st.arena[i]| < |st.arena[j]| then i else j, if |st.arena[i]| < |st.arena[j]| then j else i;
      var xs, xl := if s == i then a else b, if s == i then b else a;
      MergeConnected(st, edges, e, xs, xl, s, l, Step(st, e));
    } else if a in st.owner && b !in st.owner {
      AttachConnected(st, edges, e, a, b, Step(st, e));
    } else if a !in st.owner && b in st.owner {
      AttachConnected(st, edges, e, b, a, Step(st, e));
    } else if a !in st.owner && b !in st.owner {
      FreshConnected(st, edges, e, Step(st, e));
    } else {
      forall x, y | x in st.owner && y in st.arena[st.owner[x]]
        ensures Linked(edges + [e], x, y)
      {
        LinkedExtend(edges, e, x, y);
      }
    }
  }

  lemma FreshConnected<T(!new)>(st: Clusters<T>, edges: seq<(T, T)>, e: (T, T), r: Clusters<T>)
    requires Owned(st) && Connected(st, edges)
    requires e.0 !in st.owner && e.1 !in st.owner
    requires r == Clusters(st.arena + [[e.0, e.1]], st.owner[e.0 := |st.arena|][e.1 := |st.arena|])
    requires Owned(r)
    ensures Connected(r, edges + [e])
  {
    var n, es := |st.arena|, edges + [e];
    assert es[|edges|] == e;
    forall x, y | x in r.owner && y in r.arena[r.owner[x]]
      ensures Linked(es, x, y)
    {
      if x == e.0 || x == e.1 {
        if x == y {
          LinkedSelf(es, x);
        } else {
          LinkedPair(es, x, y);
        }
      } else {
        assert r.arena[r.owner[x]] == st.arena[st.owner[x]];
        LinkedExtend(edges, e, x, y);
      }
    }
  }

  /** The new line `y` joins the list of the known line `x`. */
  lemma AttachConnected<T(!new)>(st: Clusters<T>, edges: seq<(T, T)>, e: (T, T), x: T, y: T, r: Clusters<T>)
    requires Owned(st) && Home(st) && Connected(st, edges)
    requires {x, y} == {e.0, e.1} && x in st.owner && y !in st.owner
    requires r == Clusters(st.arena[st.owner[x] := st.arena[st.owner[x]] + [y]], st.owner[y := st.owner[x]])
    requires Owned(r)
    ensures Connected(r, edges + [e])
  {
    forall z, w | z in r.owner && w in r.arena[r.owner[z]]
      ensures Linked(edges + [e], z, w)
    {
      AttachMember(st, edges, e, x, y, r, z, w);
    }
  }

  lemma AttachMember<T(!new)>(st: Clusters<T>, edges: seq<(T, T)>, e: (T, T), x: T, y: T, r: Clusters<T>, z: T, w: T)
    requires Owned(st) && Home(st) && Connected(st, edges)
    requires {x, y} == {e.0, e.1} && x in st.owner && y !in st.owner
    requires r == Clusters(st.arena[st.owner[x] := st.arena[st.owner[x]] + [y]], st.owner[y := st.owner[x]])
    requires z in r.owner && w in r.arena[r.owner[z]]
    ensures Linked(edges + [e], z, w)
  {
    var i, es := st.owner[x], edges + [e];
    assert es[|edges|] == e;
    assert Adjacent(es, x, y) && Adjacent(es, y, x);
    if r.owner[z] == i {
      if z == y {
        LinkedPair(es, y, x);
      } else {
        assert x in st.arena[st.owner[z]];
        LinkedExtend(edges, e, z, x);
      }
      if w == y {
        LinkedPair(es, x, y);
      } else {
        assert w in st.arena[st.owner[x]];
        LinkedExtend(edges, e, x, w);
      }
      LinkedTrans(es, z, x, w);
    } else {
      assert r.arena[r.owner[z]] == st.arena[st.owner[z]];
      LinkedExtend(edges, e, z, w);
    }
  }

  /** The smaller list, holding `xs`, joins the larger one, holding `xl`. */
  lemma MergeConnected<T(!new)>(st: Clusters<T>, edges: seq<(T, T)>, e: (T, T), xs: T, xl: T, s: nat, l: nat, r: Clusters<T>)
    requires Owned(st) && Home(st) && Closed(st) && Connected(st, edges)
    requires xs in st.owner && xl in st.owner && st.owner[xs] == s && st.owner[xl] == l && s != l
    requires {e.0, e.1} == {xs, xl}
    requires r == Clusters(st.arena[l := st.arena[l] + st.arena[s]], Reassign(st.owner, st.arena[s], l))
    requires Owned(r)
    ensures Connected(r, edges + [e])
  {
    MergeKeys(st, xs, xl, s, l, r);
    forall z, w | z in r.owner && w in r.arena[r.owner[z]]
      ensures Linked(edges + [e], z, w)
    {
      MergeMember(st, edges, e, xs, xl, s, l, r, z, w);
    }
  }

  lemma MergeMember<T(!new)>(st: Clusters<T>, edges: seq<(T, T)>, e: (T, T), xs: T, xl: T, s: nat, l: nat, r: Clusters<T>, z: T, w: T)
    requires Owned(st) && Home(st) && Closed(st) && Connected(st, edges)
    requires xs in st.owner && xl in st.owner && st.owner[xs] == s && st.owner[xl] == l && s != l
    requires {e.0, e.1} == {xs, xl}
    requires r == Clusters(st.arena[l := st.arena[l] + st.arena[s]], Reassign(st.owner, st.arena[s], l))
    requires z in st.owner && z in r.owner && w in r.arena[r.owner[z]]
    ensures Linked(edges + [e], z, w)
  {
    var es := edges + [e];
    assert es[|edges|] == e;
    assert Adjacent(es, xs, xl) && Adjacent(es, xl, xs);
    MergeSmaller(st, xs, xl, s, l, z);
    if r.owner[z] == l {
      assert Linked(es, z, xl) by {
        if z in st.arena[s] {
          assert xs in st.arena[st.owner[z]];
          LinkedExtend(edges, e, z, xs);
          LinkedPair(es, xs, xl);
          LinkedTrans(es, z, xs, xl);
        } else {
          assert xl in st.arena[st.owner[z]];
          LinkedExtend(edges, e, z, xl);
        }
      }
      assert Linked(es, xl, w) by {
        if w in st.arena[l] {
          assert w in st.arena[st.owner[xl]];
          LinkedExtend(edges, e, xl, w);
        } else {
          assert w in st.arena[st.owner[xs]];
          LinkedExtend(edges, e, xs, w);
          LinkedPair(es, xl, xs);
          LinkedTrans(es, xl, xs, w);
        }
      }
      LinkedTrans(es, z, xl, w);
    } else {
      assert r.arena[r.owner[z]] == st.arena[st.owner[z]];
      LinkedExtend(edges, e, z, w);
    }
  }

  /** Lines joined by a walk point at the same list. */
  lemma {:induction false} WalkSameOwner<T(!new)>(st: Clusters<T>, edges: seq<(T, T)>, p: seq<T>, x: T, y: T)
    requires Owned(st) && Together(st, edges)
    requires Walk(edges, p, x, y) && x in st.owner
    ensures y in st.owner && st.owner[y] == st.owner[x]
    decreases |p|
  {
    if |p| > 1 {
      var u := p[|p| - 2];
      assert Walk(edges, p[..|p| - 1], x, u);
      WalkSameOwner(st, edges, p[..|p| - 1], x, u);
      assert Adjacent(edges, u, y);
      var k :| 0 <= k < |edges| && (edges[k] == (u, y) || edges[k] == (y, u));
    }
  }

  /** Two lines are in the same returned cluster exactly when they are
      linked: the clusters are the connected components of the pairs. */
  lemma ClustersAreComponents<T(!new)>(edges: seq<(T, T)>, m: nat, x: T, y: T)
    requires m < |ClusterLines(edges)| && x in ClusterLines(edges)[m]
    ensures y in ClusterLines(edges)[m] <==> Linked(edges, x, y)
  {
    var st := ClusterAll(edges);
    InvAll(edges);
    ConnectedAll(edges);
    LiveOwner(st, m, x);
    LiveOwner(st, m, y);
    assert ClusterLines(edges)[m] == st.arena[LiveFrom(st, 0)[m]];
    if Linked(edges, x, y) {
      var p :| Walk(edges, p, x, y);
      WalkSameOwner(st, edges, p, x, y);
    }
  }

  /** The clusters returned: each has at least two entries; no line is in two
      of them; their lines are exactly the lines of the pairs; and the two
      lines of every pair are in the same cluster. */
  lemma ClusterLinesProperties<T>(edges: seq<(T, T)>)
    ensures var cs := ClusterLines(edges);
      && (forall m :: 0 <= m < |cs| ==> |cs[m]| >= 2)
      && (forall m, n, y :: 0 <= m < n < |cs| && y in cs[m] ==> y !in cs[n])
      && (forall y :: y in Flatten(cs) <==> y in Endpoints(edges))
      && (forall k :: 0 <= k < |edges| ==>
            exists m :: 0 <= m < |cs| && edges[k].0 in cs[m] && edges[k].1 in cs[m])
  {
    var st := ClusterAll(edges);
    InvAll(edges);
    LiveBig(st);
    LiveDisjoint(st);
    forall y
      ensures y in Flatten(Live(st)) <==> y in Endpoints(edges)
    {
      LiveCover(st, y);
    }
    forall k | 0 <= k < |edges|
      ensures exists m :: 0 <= m < |Live(st)| && edges[k].0 in Live(st)[m] && edges[k].1 in Live(st)[m]
    {
      LiveJoin(st, edges[k].0, edges[k].1);
    }
  }

  /** Every clustered line is one side of some pair. */
  lemma ClusteredIsEndpoint<T>(edges: seq<(T, T)>, y: T) returns (k: nat)
    requires y in Flatten(ClusterLines(edges))
    ensures k < |edges| && (y == edges[k].0 || y == edges[k].1)
  {
    assert y in Endpoints(edges) by {
      ClusterLinesProperties(edges);
    }
    EndpointsMembership(edges, y);
    k :| 0 <= k < |edges| && (y == edges[k].0 || y == edges[k].1);
  }

  /** `for x in smaller: cluster_map[x] = larger`, as a loop. */
  method PointAt<T(==)>(owner: map<T, nat>, smaller: seq<T>, l: nat) returns (r: map<T, nat>)
    ensures r == Reassign(owner, smaller, l)
  {
    r := owner;
    var n := 0;
    while n < |smaller|
      invariant 0 <= n <= |smaller|
      invariant r == Reassign(owner, smaller[..n], l)
    {
      assert smaller[..n + 1][..n] == smaller[..n];
      r := r[smaller[n] := l];
      n := n + 1;
    }
    assert smaller[..n] == smaller;
  }

  /** The source's loop over the pairs, written as a loop over an arena and
      owner map held in local variables, one branch per case of the source;
      the state after each round is the fold's. */
  method ClusterLoop<T(==)>(edges: seq<(T, T)>) returns (clusters: seq<seq<T>>)
    ensures clusters == ClusterLines(edges)
    ensures forall m :: 0 <= m < |clusters| ==> |clusters[m]| >= 2
    ensures forall y :: y in Flatten(clusters) <==> y in Endpoints(edges)
  {
    var arena: seq<seq<T>> := [];
    var owner: map<T, nat> := map[];
    var k := 0;
    while k < |edges|
      invariant 0 <= k <= |edges|
      invariant Clusters(arena, owner) == ClusterAll(edges[..k])
    {
      assert edges[..k + 1][..k] == edges[..k];
      ghost var st := Clusters(arena, owner);
      assert ClusterAll(edges[..k + 1]) == Step(st, edges[k]);
      var (a, b) := edges[k];
      if a in owner && b in owner && owner[a] != owner[b] {
        var i, j := owner[a], owner[b];
        var s, l := if |arena[i]| < |arena[j]| then i else j, if |arena[i]| < |arena[j]| then j else i;
        var smaller := arena[s];
        arena := arena[l := arena[l] + smaller];
        owner := PointAt(owner, smaller, l);
        assert Clusters(arena, owner) == Step(st, edges[k]);
      } else if a in owner && b !in owner {
        var i := owner[a];
        arena := arena[i := arena[i] + [b]];
        owner := owner[b := i];
        assert Clusters(arena, owner) == Step(st, edges[k]);
      } else if a !in owner && b in owner {
        var j := owner[b];
        arena := arena[j := arena[j] + [a]];
        owner := owner[a := j];
        assert Clusters(arena, owner) == Step(st, edges[k]);
      } else if a !in owner && b !in owner {
        var n := |arena|;
        arena := arena + [[a, b]];
        owner := owner[a := n][b := n];
        assert Clusters(arena, owner) == Step(st, edges[k]);
      } else {
        assert Clusters(arena, owner) == Step(st, edges[k]);
      }
      assert Clusters(arena, owner) == ClusterAll(edges[..k + 1]);
      k := k + 1;
    }
    assert edges[..k] == edges;
    clusters := Live(Clusters(arena, owner));
    ClusterLinesProperties(edges);
  }
}
