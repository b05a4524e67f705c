/**
 Reachability through the neighbour maps: the property the breadth-first
 search of `is_connected` decides.
 */
module Reach {
  import opened GraphTypes
  import opened Adjacency

  /** A walk: each vertex after the first is a neighbour of the one before it. */
  ghost predicate IsPath(adj: Adj, p: seq<Vertex>)
  {
    |p| >= 1 && forall i :: 0 <= i < |p| - 1 ==> Get(adj, p[i], p[i + 1]).Some?
  }

  /** `b` can be reached from `a` by following neighbour entries. */
  ghost predicate Reachable(adj: Adj, a: Vertex, b: Vertex)
  {
    exists p :: IsPath(adj, p) && p[0] == a && p[|p| - 1] == b
  }

  /** Every vertex reaches itself. */
  lemma ReachableSelf(adj: Adj, a: Vertex)
    ensures Reachable(adj, a, a)
  {
    assert IsPath(adj, [a]);
  }

  /** Reachability extends along one more neighbour entry. */
  lemma {:induction false} ReachableStep(adj: Adj, a: Vertex, b: Vertex, c: Vertex)
    requires Reachable(adj, a, b) && Get(adj, b, c).Some?
    ensures Reachable(adj, a, c)
  {
    var p :| IsPath(adj, p) && p[0] == a && p[|p| - 1] == b;
    var p' := p + [c];
    assert IsPath(adj, p');
  }

  /** When each vertex of `vs` has the next one as a neighbour, walking along
      `vs` from its first vertex reaches `vs[i]`. */
  lemma {:induction false} ChainReaches(adj: Adj, vs: seq<Vertex>, i: nat)
    requires i < |vs|
    requires forall j :: 0 <= j < |vs| - 1 ==> Get(adj, vs[j], vs[j + 1]).Some?
    ensures Reachable(adj, vs[0], vs[i])
  {
    if i == 0 {
      ReachableSelf(adj, vs[0]);
    } else {
      ChainReaches(adj, vs, i - 1);
      ReachableStep(adj, vs[0], vs[i - 1], vs[i]);
    }
  }

  /** A set that holds `a` and, with each of its members, all of that member's
      neighbours, holds every vertex reachable from `a`. */
  lemma {:induction false} ClosedSetHoldsReachable(adj: Adj, s: set<Vertex>, a: Vertex, b: Vertex)
    requires a in s
    requires forall x, y :: x in s && Get(adj, x, y).Some? ==> y in s
    requires Reachable(adj, a, b)
    ensures b in s
  {
    var p :| IsPath(adj, p) && p[0] == a && p[|p| - 1] == b;
    var i := 0;
    while i < |p| - 1
      invariant 0 <= i < |p| && p[i] in s
    {
      assert Get(adj, p[i], p[i + 1]).Some?;
      i := i + 1;
    }
  }

  /** In a graph whose neighbours are all vertices, only vertices are reachable
      from a vertex. */
  lemma {:induction false} ClosedReachesVertices(adj: Adj, a: Vertex, b: Vertex)
    requires Closed(adj) && a in adj && Reachable(adj, a, b)
    ensures b in adj
  {
    ClosedSetHoldsReachable(adj, adj.Keys, a, b);
  }

  /** With no neighbour entries, a vertex reaches nothing but itself. */
  lemma {:induction false} EdgelessReachesOnlySelf(adj: Adj, a: Vertex, b: Vertex)
    requires Edgeless(adj) && a != b
    ensures !Reachable(adj, a, b)
  {
    forall p | IsPath(adj, p)
      ensures |p| == 1
    {
      var next := p[if |p| > 1 then 1 else 0];
      assert Get(adj, p[0], next) == None;
    }
  }

  /** When every two distinct vertices are joined, every vertex reaches every other. */
  lemma {:induction false} CompleteReachesAll(adj: Adj, a: Vertex, b: Vertex)
    requires forall x, y :: x in adj && y in adj && x != y ==> Get(adj, x, y).Some?
    requires a in adj && b in adj
    ensures Reachable(adj, a, b)
  {
    if a == b {
      ReachableSelf(adj, a);
    } else {
      assert IsPath(adj, [a, b]);
    }
  }
}
