/**
 What `add_all_edges` leaves behind: one `add_edge` per pair of
 `_all_vert_pairs`, linked over whatever the dictionary already held. Over a
 well-formed dictionary keyed by a duplicate-free key order, the result is the
 complete graph.
 */
module Complete {
  import opened GraphTypes
  import opened Collections
  import opened Adjacency
  import Pairs
  import Reach

  /** The `add_edge` calls of `add_all_edges` over the key order `s`. */
  function PairEdges(s: seq<Vertex>): (es: seq<Edge>)
    ensures |es| == |s| * (|s| - 1) / 2
  {
    Pairs.AllPairsCount(s);
    Pairs.ToEdges(Pairs.AllPairs(s))
  }

  /** The edge for positions `i < j` is one of the calls. */
  lemma PairEdgesHas(s: seq<Vertex>, i: nat, j: nat)
    requires i < j < |s|
    ensures Edge(s[i], s[j]) in PairEdges(s)
  {
    var ps := Pairs.AllPairs(s);
    Pairs.AllPairsMember(s, (s[i], s[j]));
    var t :| 0 <= t < |ps| && ps[t] == (s[i], s[j]);
    assert PairEdges(s)[t] == Edge(s[i], s[j]);
  }

  /** Every call joins two vertices of the key order. */
  lemma PairEdgesInside(s: seq<Vertex>, e: Edge)
    requires e in PairEdges(s)
    ensures e.v in s && e.w in s
  {
    var ps := Pairs.AllPairs(s);
    var t :| 0 <= t < |ps| && PairEdges(s)[t] == e;
    Pairs.AllPairsMember(s, ps[t]);
  }

  /** Every call's endpoints are keys of a dictionary keyed by `s`. */
  lemma PairEdgesEndpoints(adj: Adj, s: seq<Vertex>)
    requires forall v :: v in adj <==> v in s
    ensures EndpointsIn(adj, PairEdges(s))
  {
    forall e | e in PairEdges(s)
      ensures e.v in adj && e.w in adj
    {
      PairEdgesInside(s, e);
    }
  }

  /** Every two distinct vertices of a duplicate-free key order are joined by one
      of the calls. */
  lemma PairEdgesCover(s: seq<Vertex>, x: Vertex, y: Vertex)
    requires x in s && y in s && x != y
    ensures exists e :: e in PairEdges(s) && Joins(e, x, y)
  {
    var i :| 0 <= i < |s| && s[i] == x;
    var j :| 0 <= j < |s| && s[j] == y;
    if i < j {
      PairEdgesHas(s, i, j);
      assert Joins(Edge(s[i], s[j]), x, y);
    } else {
      PairEdgesHas(s, j, i);
      assert Joins(Edge(s[j], s[i]), x, y);
    }
  }

  /** Each pair's edge is stored both ways. */
  lemma AllPairsStored(adj: Adj, s: seq<Vertex>, i: nat, j: nat)
    requires Distinct(s) && forall v :: v in adj <==> v in s
    requires i < j < |s|
    ensures EndpointsIn(adj, PairEdges(s))
    ensures Get(LinkAll(adj, PairEdges(s)), s[i], s[j]) == Some(Edge(s[i], s[j]))
    ensures Get(LinkAll(adj, PairEdges(s)), s[j], s[i]) == Some(Edge(s[i], s[j]))
  {
    PairEdgesEndpoints(adj, s);
    Pairs.AllPairEdgesUnique(s);
    PairEdgesHas(s, i, j);
    LinkAllStores(adj, PairEdges(s), Edge(s[i], s[j]));
  }

  /** Every two distinct keys are joined. */
  lemma AllKeysJoined(adj: Adj, s: seq<Vertex>, x: Vertex, y: Vertex)
    requires Distinct(s) && forall v :: v in adj <==> v in s
    requires x in adj && y in adj && x != y
    ensures EndpointsIn(adj, PairEdges(s))
    ensures Get(LinkAll(adj, PairEdges(s)), x, y).Some?
  {
    PairEdgesEndpoints(adj, s);
    Pairs.AllPairEdgesUnique(s);
    PairEdgesCover(s, x, y);
    var e :| e in PairEdges(s) && Joins(e, x, y);
    LinkAllStores(adj, PairEdges(s), e);
  }

  /** Over a loopless dictionary, the stored edges are exactly the pairs' edges:
      every slot it already had is overwritten by one of them. */
  lemma AllEdgesListed(adj: Adj, s: seq<Vertex>)
    requires Distinct(s) && Loopless(adj) && forall v :: v in adj <==> v in s
    ensures EndpointsIn(adj, PairEdges(s))
    ensures EdgeSet(LinkAll(adj, PairEdges(s))) == set e | e in PairEdges(s)
  {
    var es := PairEdges(s);
    PairEdgesEndpoints(adj, s);
    Pairs.AllPairEdgesUnique(s);
    forall x, y | x in adj && y in adj && Get(adj, x, y).Some?
      ensures LastJoining(es, x, y).Some?
    {
      assert x != y;
      PairEdgesCover(s, x, y);
    }
    EdgeSetAfterLinkAll(adj, es);
  }

  /** After `add_all_edges` on a well-formed dictionary keyed by the key order
      `s`: the dictionary is still well-formed, every two distinct vertices are
      joined both ways by the edge built for their pair, the edges are exactly
      those built from `_all_vert_pairs` — n·(n−1)/2 of them — and every vertex
      reaches every other. */
  lemma AllEdgesComplete(adj: Adj, s: seq<Vertex>)
    requires Distinct(s) && WellFormed(adj) && forall v :: v in adj <==> v in s
    ensures EndpointsIn(adj, PairEdges(s))
    ensures WellFormed(LinkAll(adj, PairEdges(s)))
    ensures forall i, j :: 0 <= i < j < |s| ==>
              Get(LinkAll(adj, PairEdges(s)), s[i], s[j]) == Some(Edge(s[i], s[j])) &&
              Get(LinkAll(adj, PairEdges(s)), s[j], s[i]) == Some(Edge(s[i], s[j]))
    ensures EdgeSet(LinkAll(adj, PairEdges(s))) == set e | e in PairEdges(s)
    ensures |EdgeSet(LinkAll(adj, PairEdges(s)))| == |s| * (|s| - 1) / 2
    ensures forall x, y :: x in adj && y in adj ==> Reach.Reachable(LinkAll(adj, PairEdges(s)), x, y)
  {
    var es := PairEdges(s);
    PairEdgesEndpoints(adj, s);
    Pairs.AllPairEdgesUnique(s);
    LinkAllKeepsWellFormed(adj, es);
    AllEdgesListed(adj, s);
    Pairs.AllPairEdgesCount(s);
    var a := LinkAll(adj, es);
    forall i, j | 0 <= i < j < |s|
      ensures Get(a, s[i], s[j]) == Some(Edge(s[i], s[j])) && Get(a, s[j], s[i]) == Some(Edge(s[i], s[j]))
    {
      AllPairsStored(adj, s, i, j);
    }
    forall x, y | x in a && y in a && x != y
      ensures Get(a, x, y).Some?
    {
      AllKeysJoined(adj, s, x, y);
    }
    forall x, y | x in adj && y in adj
      ensures Reach.Reachable(a, x, y)
    {
      Reach.CompleteReachesAll(a, x, y);
    }
  }
}
