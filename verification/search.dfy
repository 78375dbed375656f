/** Breadth-first search over the grid graph. It stands in for networkx's
    `shortest_path` on the unweighted graph: same failures, and a path of the
    same (least) length, though ties between equally short paths may be broken
    differently. */
module Search {
  import opened Results
  import opened Grid

  /** networkx's `NodeNotFound` (an endpoint is not a graph node) and
      `NetworkXNoPath` (the endpoints are not connected). */
  datatype PathError = NodeNotFound | NoPath

  // ---------------------------------------------------------------------------
  // Walks
  // ---------------------------------------------------------------------------

  /** Consecutive nodes are neighbours. */
  ghost predicate IsWalk(g: EnvGraph, p: seq<int>)
    requires Valid(g)
  {
    forall i, j :: 0 <= i && j == i + 1 && j < |p| ==> Adj(g, p[i], p[j])
  }

  /** A walk from s to t; it has |p| - 1 edges. */
  ghost predicate IsWalkBetween(g: EnvGraph, p: seq<int>, s: int, t: int)
    requires Valid(g)
  {
    |p| > 0 && p[0] == s && p[|p| - 1] == t && IsWalk(g, p)
  }

  ghost predicate Connected(g: EnvGraph, s: int, t: int)
    requires Valid(g)
  {
    exists p :: IsWalkBetween(g, p, s, t)
  }

  /** d is the number of edges of a shortest walk from s to t. */
  ghost predicate IsDistance(g: EnvGraph, s: int, t: int, d: nat)
    requires Valid(g)
  {
    && (exists p :: IsWalkBetween(g, p, s, t) && |p| == d + 1)
    && (forall q :: IsWalkBetween(g, q, s, t) ==> d + 1 <= |q|)
  }

  // ---------------------------------------------------------------------------
  // Layers of the search
  // ---------------------------------------------------------------------------

  /** v is reachable from s by a walk of at most k edges. Every neighbour of v
      is one of its four candidates, so only those are looked at. */
  predicate Within(g: EnvGraph, s: int, v: int, k: nat)
    requires Valid(g)
    decreases k
  {
    if k == 0 then v == s
    else
      var cs := Candidates(g, v);
      || Within(g, s, v, k - 1)
      || (Within(g, s, cs[0], k - 1) && Adj(g, cs[0], v))
      || (Within(g, s, cs[1], k - 1) && Adj(g, cs[1], v))
      || (Within(g, s, cs[2], k - 1) && Adj(g, cs[2], v))
      || (Within(g, s, cs[3], k - 1) && Adj(g, cs[3], v))
  }

  /** A neighbour of a node within k edges is within k + 1 edges. */
  lemma WithinStep(g: EnvGraph, s: int, u: int, v: int, k: nat)
    requires Valid(g) && Within(g, s, u, k) && Adj(g, u, v)
    ensures Within(g, s, v, k + 1)
  {
    AdjFacts(g, u, v);
  }

  lemma {:induction false} WithinGrows(g: EnvGraph, s: int, v: int, j: nat, k: nat)
    requires Valid(g) && j <= k && Within(g, s, v, j)
    ensures Within(g, s, v, k)
    decreases k
  {
    if j < k {
      WithinGrows(g, s, v, j, k - 1);
    }
  }

  /** Starting from a graph node, everything reached is a node below the bound. */
  lemma {:induction false} WithinBounded(g: EnvGraph, s: int, v: int, k: nat)
    requires Valid(g) && InGraph(g, s) && Within(g, s, v, k)
    ensures 0 <= v < Bound(g)
    decreases k
  {
    if k == 0 {
      InGraphHasColumns(g, s);
    } else if Within(g, s, v, k - 1) {
      WithinBounded(g, s, v, k - 1);
    } else {
      var cs := Candidates(g, v);
      var c := if Within(g, s, cs[0], k - 1) && Adj(g, cs[0], v) then cs[0]
               else if Within(g, s, cs[1], k - 1) && Adj(g, cs[1], v) then cs[1]
               else if Within(g, s, cs[2], k - 1) && Adj(g, cs[2], v) then cs[2]
               else cs[3];
      AdjFacts(g, c, v);
    }
  }

  /** The end of every walk from s is within as many edges as the walk has. */
  lemma {:induction false} WalkReaches(g: EnvGraph, p: seq<int>, s: int)
    requires Valid(g) && |p| > 0 && p[0] == s && IsWalk(g, p)
    ensures Within(g, s, p[|p| - 1], |p| - 1)
    decreases |p|
  {
    if |p| > 1 {
      var q := p[..|p| - 1];
      assert IsWalk(g, q) by {
        forall i, j | 0 <= i && j == i + 1 && j < |q|
          ensures Adj(g, q[i], q[j])
        {
          assert q[i] == p[i] && q[j] == p[j];
        }
      }
      WalkReaches(g, q, s);
      assert Adj(g, p[|p| - 2], p[|p| - 1]);
      WithinStep(g, s, p[|p| - 2], p[|p| - 1], |p| - 2);
    }
  }

  // ---------------------------------------------------------------------------
  // Why the search may stop after Bound(g) layers
  // ---------------------------------------------------------------------------

  /** How many of the nodes 0 .. n-1 are within k edges of s. */
  function Count(g: EnvGraph, s: int, k: nat, n: nat): (r: nat)
    requires Valid(g)
    ensures r <= n
  {
    if n == 0 then 0
    else Count(g, s, k, n - 1) + (if Within(g, s, n - 1, k) then 1 else 0)
  }

  lemma {:induction false} CountGrows(g: EnvGraph, s: int, j: nat, k: nat, n: nat)
    requires Valid(g) && j <= k
    ensures Count(g, s, j, n) <= Count(g, s, k, n)
  {
    if n > 0 {
      CountGrows(g, s, j, k, n - 1);
      if Within(g, s, n - 1, j) {
        WithinGrows(g, s, n - 1, j, k);
      }
    }
  }

  /** A node newly reached between layers j and k makes the count grow. */
  lemma {:induction false} CountGrowsStrictly(g: EnvGraph, s: int, j: nat, k: nat, n: nat, v: int)
    requires Valid(g) && j <= k && 0 <= v < n
    requires Within(g, s, v, k) && !Within(g, s, v, j)
    ensures Count(g, s, j, n) < Count(g, s, k, n)
  {
    if v == n - 1 {
      CountGrows(g, s, j, k, n - 1);
    } else {
      CountGrowsStrictly(g, s, j, k, n - 1, v);
      if Within(g, s, n - 1, j) {
        WithinGrows(g, s, n - 1, j, k);
      }
    }
  }

  lemma {:induction false} StartIsCounted(g: EnvGraph, s: int, n: nat)
    requires Valid(g) && 0 <= s < n
    ensures Count(g, s, 0, n) >= 1
  {
    if s < n - 1 {
      StartIsCounted(g, s, n - 1);
    }
  }

  /** Layer j + 1 adds nothing to layer j. */
  ghost predicate Settled(g: EnvGraph, s: int, j: nat)
    requires Valid(g)
  {
    forall v :: Within(g, s, v, j + 1) ==> Within(g, s, v, j)
  }

  /** While no layer below k has settled, at least k + 1 nodes are within k edges. */
  lemma {:induction false} UnsettledLayersGrow(g: EnvGraph, s: int, k: nat)
    requires Valid(g) && InGraph(g, s)
    requires forall j: nat :: j < k ==> !Settled(g, s, j)
    ensures Count(g, s, k, Bound(g)) >= k + 1
    decreases k
  {
    InGraphHasColumns(g, s);
    if k == 0 {
      StartIsCounted(g, s, Bound(g));
    } else {
      UnsettledLayersGrow(g, s, k - 1);
      assert !Settled(g, s, k - 1);
      var v :| Within(g, s, v, k) && !Within(g, s, v, k - 1);
      WithinBounded(g, s, v, k);
      CountGrowsStrictly(g, s, k - 1, k, Bound(g), v);
    }
  }

  /** Once a layer adds nothing, no later layer does. */
  lemma {:induction false} SettledStaysSettled(g: EnvGraph, s: int, j: nat, m: nat, v: int)
    requires Valid(g) && Settled(g, s, j) && j <= m && Within(g, s, v, m)
    ensures Within(g, s, v, j)
    decreases m
  {
    if m > j {
      if Within(g, s, v, m - 1) {
        SettledStaysSettled(g, s, j, m - 1, v);
      } else {
        var cs := Candidates(g, v);
        var c := if Within(g, s, cs[0], m - 1) && Adj(g, cs[0], v) then cs[0]
                 else if Within(g, s, cs[1], m - 1) && Adj(g, cs[1], v) then cs[1]
                 else if Within(g, s, cs[2], m - 1) && Adj(g, cs[2], v) then cs[2]
                 else cs[3];
        SettledStaysSettled(g, s, j, m - 1, c);
        WithinStep(g, s, c, v, j);
      }
    }
  }

  /** No layer ever contains t. */
  ghost predicate NeverReached(g: EnvGraph, s: int, t: int)
    requires Valid(g)
  {
    forall m: nat :: !Within(g, s, t, m)
  }

  /** From a graph node, whatever the first Bound(g) layers miss is never
      reached: each unsettled layer adds a node, and there are only Bound(g)
      nodes to add. */
  lemma BoundedLayersSuffice(g: EnvGraph, s: int, t: int)
    requires Valid(g) && InGraph(g, s) && !Within(g, s, t, Bound(g))
    ensures NeverReached(g, s, t)
  {
    var B := Bound(g);
    if j: nat :| j < B && Settled(g, s, j) {
      forall m: nat
        ensures !Within(g, s, t, m)
      {
        if Within(g, s, t, m) {
          if m <= j {
            WithinGrows(g, s, t, m, B);
          } else {
            SettledStaysSettled(g, s, j, m, t);
            WithinGrows(g, s, t, j, B);
          }
        }
      }
    } else {
      UnsettledLayersGrow(g, s, B);
      assert false;
    }
  }

  lemma NeverReachedMeansDisconnected(g: EnvGraph, s: int, t: int)
    requires Valid(g) && NeverReached(g, s, t)
    ensures !Connected(g, s, t)
  {
    if Connected(g, s, t) {
      var q :| IsWalkBetween(g, q, s, t);
      WalkReaches(g, q, s);
      assert false;
    }
  }

  // ---------------------------------------------------------------------------
  // The search
  // ---------------------------------------------------------------------------

  /** Layer d is the first to contain t. */
  predicate FirstReachedAt(g: EnvGraph, s: int, t: int, d: nat)
    requires Valid(g)
  {
    Within(g, s, t, d) && (d == 0 || !Within(g, s, t, d - 1))
  }

  /** The first layer among k, k + 1, ..., k + n that contains t. */
  function FirstLayer(g: EnvGraph, s: int, t: int, k: nat, n: nat): (r: Option<nat>)
    requires Valid(g)
    requires k == 0 || !Within(g, s, t, k - 1)
    ensures r.Some? ==> k <= r.value <= k + n && FirstReachedAt(g, s, t, r.value)
    ensures r.None? ==> !Within(g, s, t, k + n)
    decreases n
  {
    if Within(g, s, t, k) then Some(k)
    else if n == 0 then None
    else FirstLayer(g, s, t, k + 1, n - 1)
  }

  /** The first candidate neighbour of t within k edges of s, or t itself
      when there is none. */
  function Parent(g: EnvGraph, s: int, t: int, k: nat): int
    requires Valid(g)
  {
    var cs := Candidates(g, t);
    if Within(g, s, cs[0], k) && Adj(g, cs[0], t) then cs[0]
    else if Within(g, s, cs[1], k) && Adj(g, cs[1], t) then cs[1]
    else if Within(g, s, cs[2], k) && Adj(g, cs[2], t) then cs[2]
    else if Within(g, s, cs[3], k) && Adj(g, cs[3], t) then cs[3]
    else t
  }

  /** The parent of a node first reached in layer d > 0 neighbours it and
      was first reached in layer d - 1. */
  lemma ParentStepsBack(g: EnvGraph, s: int, t: int, d: nat)
    requires Valid(g) && d > 0 && FirstReachedAt(g, s, t, d)
    ensures Adj(g, Parent(g, s, t, d - 1), t)
    ensures FirstReachedAt(g, s, Parent(g, s, t, d - 1), d - 1)
  {
    var u := Parent(g, s, t, d - 1);
    if d >= 2 && Within(g, s, u, d - 2) {
      assert false;
    }
  }

  /** Walks back from t to s, one layer at a time. */
  function Backtrack(g: EnvGraph, s: int, t: int, d: nat): seq<int>
    requires Valid(g)
    decreases d
  {
    if d == 0 then [s]
    else Backtrack(g, s, Parent(g, s, t, d - 1), d - 1) + [t]
  }

  /** Appending a neighbour of its last node extends a walk. */
  lemma WalkExtends(g: EnvGraph, p: seq<int>, t: int)
    requires Valid(g) && |p| > 0 && IsWalk(g, p) && Adj(g, p[|p| - 1], t)
    ensures IsWalkBetween(g, p + [t], p[0], t)
  {
    var q := p + [t];
    forall i, j | 0 <= i && j == i + 1 && j < |q|
      ensures Adj(g, q[i], q[j])
    {
      if j < |p| {
        assert q[i] == p[i] && q[j] == p[j];
      }
    }
  }

  /** From a node first reached in layer d, walking back one layer at a time
      gives a walk of d edges from s. */
  lemma {:induction false} BacktrackIsWalk(g: EnvGraph, s: int, t: int, d: nat)
    requires Valid(g) && FirstReachedAt(g, s, t, d)
    ensures |Backtrack(g, s, t, d)| == d + 1 && IsWalkBetween(g, Backtrack(g, s, t, d), s, t)
    decreases d
  {
    if d > 0 {
      var u := Parent(g, s, t, d - 1);
      ParentStepsBack(g, s, t, d);
      BacktrackIsWalk(g, s, u, d - 1);
      WalkExtends(g, Backtrack(g, s, u, d - 1), t);
    }
  }

  lemma WalkNotShorterThanLayer(g: EnvGraph, s: int, t: int, d: nat, q: seq<int>)
    requires Valid(g) && FirstReachedAt(g, s, t, d) && IsWalkBetween(g, q, s, t)
    ensures d + 1 <= |q|
  {
    WalkReaches(g, q, s);
    if |q| - 1 < d {
      WithinGrows(g, s, t, |q| - 1, d - 1);
      assert false;
    }
  }

  /** No walk from s to t has fewer than d edges, when t is first reached in
      layer d. */
  lemma LayerIsLowerBound(g: EnvGraph, s: int, t: int, d: nat)
    requires Valid(g) && FirstReachedAt(g, s, t, d)
    ensures forall q :: IsWalkBetween(g, q, s, t) ==> d + 1 <= |q|
  {
    forall q | IsWalkBetween(g, q, s, t)
      ensures d + 1 <= |q|
    {
      WalkNotShorterThanLayer(g, s, t, d, q);
    }
  }

  /** `nx.shortest_path(graph, s, t)`: fails with NodeNotFound exactly when an
      endpoint is not a graph node, with NoPath exactly when the endpoints are
      not connected, and otherwise returns a walk from s to t that no other
      walk between them undercuts. */
  function ShortestPath(g: EnvGraph, s: int, t: int): (r: Result<seq<int>, PathError>)
    requires Valid(g)
    ensures r == Failure(NodeNotFound) <==> !InGraph(g, s) || !InGraph(g, t)
    ensures r == Failure(NoPath) <==> InGraph(g, s) && InGraph(g, t) && !Connected(g, s, t)
    ensures r.Success? ==> IsWalkBetween(g, r.value, s, t)
    ensures r.Success? ==> forall q :: IsWalkBetween(g, q, s, t) ==> |r.value| <= |q|
  {
    if !InGraph(g, s) || !InGraph(g, t) then Failure(NodeNotFound)
    else
      match FirstLayer(g, s, t, 0, Bound(g))
      case None =>
        BoundedLayersSuffice(g, s, t);
        NeverReachedMeansDisconnected(g, s, t);
        Failure(NoPath)
      case Some(d) =>
        LayerIsLowerBound(g, s, t, d);
        BacktrackIsWalk(g, s, t, d);
        Success(Backtrack(g, s, t, d))
  }

  /** A successful search measures the distance between its endpoints. */
  lemma ShortestPathMeasuresDistance(g: EnvGraph, s: int, t: int)
    requires Valid(g) && ShortestPath(g, s, t).Success?
    ensures IsDistance(g, s, t, |ShortestPath(g, s, t).value| - 1)
  {
    var p := ShortestPath(g, s, t).value;
    assert IsWalkBetween(g, p, s, t) && |p| == (|p| - 1) + 1;
  }
}
