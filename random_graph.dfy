/**
 `RandomGraph.add_random_edges(prob)`, the Erdős–Rényi construction: remove
 every edge, then for each pair of `_all_vert_pairs` draw a number and add the
 pair's edge when the draw is below `prob`. The draws of `random.random()` are
 a parameter: `draws[t]` is the number drawn for the `t`-th pair.
 */
module RandomGraph {
  import opened GraphTypes
  import opened Adjacency
  import Pairs
  import Complete
  import Reach
  import opened Collections
  import Graph

  /** The `add_edge` calls for the pairs `ps` whose draw is below `prob`, in order. */
  function Chosen(ps: seq<Pairs.Pair>, draws: seq<real>, prob: real): (es: seq<Edge>)
    requires |draws| == |ps|
    ensures |es| <= |ps|
    decreases |ps|
  {
    if ps == [] then []
    else
      var n := |ps| - 1;
      Chosen(ps[..n], draws[..n], prob) + if draws[n] < prob then [Edge(ps[n].0, ps[n].1)] else []
  }

  /** One more pair: its edge is added exactly when its draw is below `prob`. */
  lemma ChosenStep(ps: seq<Pairs.Pair>, draws: seq<real>, prob: real, t: nat)
    requires |draws| == |ps| && t < |ps|
    ensures Chosen(ps[..t + 1], draws[..t + 1], prob) ==
            Chosen(ps[..t], draws[..t], prob) + if draws[t] < prob then [Edge(ps[t].0, ps[t].1)] else []
  {
    assert ps[..t + 1][..t] == ps[..t] && draws[..t + 1][..t] == draws[..t];
  }

  /** An edge is added exactly when it is built from a pair whose draw is below `prob`. */
  lemma {:induction false} ChosenMember(ps: seq<Pairs.Pair>, draws: seq<real>, prob: real, e: Edge)
    requires |draws| == |ps|
    ensures e in Chosen(ps, draws, prob) <==>
            exists t :: 0 <= t < |ps| && draws[t] < prob && e == Edge(ps[t].0, ps[t].1)
    decreases |ps|
  {
    if ps != [] {
      var n := |ps| - 1;
      var ps', ds' := ps[..n], draws[..n];
      ChosenMember(ps', ds', prob, e);
      var last := if draws[n] < prob then [Edge(ps[n].0, ps[n].1)] else [];
      assert Chosen(ps, draws, prob) == Chosen(ps', ds', prob) + last;
      if e in Chosen(ps', ds', prob) {
        var t :| 0 <= t < n && ds'[t] < prob && e == Edge(ps'[t].0, ps'[t].1);
        assert draws[t] < prob && e == Edge(ps[t].0, ps[t].1);
      }
      if exists t :: 0 <= t < |ps| && draws[t] < prob && e == Edge(ps[t].0, ps[t].1) {
        var t :| 0 <= t < |ps| && draws[t] < prob && e == Edge(ps[t].0, ps[t].1);
        if t < n {
          assert ds'[t] < prob && e == Edge(ps'[t].0, ps'[t].1);
        } else {
          assert e in last;
        }
      }
    }
  }

  /** With every draw at least `prob`, no edge is added. */
  lemma {:induction false} ChosenNone(ps: seq<Pairs.Pair>, draws: seq<real>, prob: real)
    requires |draws| == |ps| && forall t :: 0 <= t < |ps| ==> prob <= draws[t]
    ensures Chosen(ps, draws, prob) == []
    decreases |ps|
  {
    if ps != [] {
      var n := |ps| - 1;
      ChosenNone(ps[..n], draws[..n], prob);
    }
  }

  /** With every draw below `prob`, the edge of every pair is added. */
  lemma {:induction false} ChosenAll(ps: seq<Pairs.Pair>, draws: seq<real>, prob: real)
    requires |draws| == |ps| && forall t :: 0 <= t < |ps| ==> draws[t] < prob
    ensures Chosen(ps, draws, prob) == Pairs.ToEdges(ps)
    decreases |ps|
  {
    if ps != [] {
      var n := |ps| - 1;
      ChosenAll(ps[..n], draws[..n], prob);
      assert Pairs.ToEdges(ps) == Pairs.ToEdges(ps[..n]) + [Edge(ps[n].0, ps[n].1)];
    }
  }

  /** `random.random()` draws from [0, 1). */
  ghost predicate UnitDraws(draws: seq<real>)
  {
    forall t :: 0 <= t < |draws| ==> 0.0 <= draws[t] < 1.0
  }

  /** Every added edge is one `add_all_edges` would add over the same key order. */
  lemma ChosenInPairEdges(s: seq<Vertex>, draws: seq<real>, prob: real, e: Edge)
    requires |draws| == |Pairs.AllPairs(s)| && e in Chosen(Pairs.AllPairs(s), draws, prob)
    ensures e in Complete.PairEdges(s)
  {
    var ps := Pairs.AllPairs(s);
    ChosenMember(ps, draws, prob, e);
    var t :| 0 <= t < |ps| && draws[t] < prob && e == Edge(ps[t].0, ps[t].1);
    assert Complete.PairEdges(s)[t] == e;
  }

  /** The dictionary `add_random_edges` builds from vertices with no neighbours. */
  function RandomAdj(keys: set<Vertex>, s: seq<Vertex>, draws: seq<real>, prob: real): (a: Adj)
    requires (forall v :: v in keys <==> v in s) && |draws| == |Pairs.AllPairs(s)|
    ensures a.Keys == keys
  {
    ChosenEndpoints(keys, s, draws, prob);
    LinkAll(Bare(keys), Chosen(Pairs.AllPairs(s), draws, prob))
  }

  /** Every added edge joins two keys. */
  lemma ChosenEndpoints(keys: set<Vertex>, s: seq<Vertex>, draws: seq<real>, prob: real)
    requires (forall v :: v in keys <==> v in s) && |draws| == |Pairs.AllPairs(s)|
    ensures EndpointsIn(Bare(keys), Chosen(Pairs.AllPairs(s), draws, prob))
  {
    forall e | e in Chosen(Pairs.AllPairs(s), draws, prob)
      ensures e.v in keys && e.w in keys
    {
      ChosenInPairEdges(s, draws, prob, e);
      Complete.PairEdgesInside(s, e);
    }
  }

  /** The added edges inherit from `_all_vert_pairs` that none is a loop and no
      two join the same two vertices. */
  lemma ChosenUnique(s: seq<Vertex>, draws: seq<real>, prob: real)
    requires Distinct(s) && |draws| == |Pairs.AllPairs(s)|
    ensures Unambiguous(Chosen(Pairs.AllPairs(s), draws, prob))
    ensures forall e :: e in Chosen(Pairs.AllPairs(s), draws, prob) ==> e.v != e.w
  {
    var es := Chosen(Pairs.AllPairs(s), draws, prob);
    Pairs.AllPairEdgesUnique(s);
    forall e | e in es
      ensures e in Complete.PairEdges(s)
    {
      ChosenInPairEdges(s, draws, prob, e);
    }
  }

  /** The result is well-formed, and its edges are exactly the added ones: no
      more than n·(n−1)/2 of them. */
  lemma RandomEdges(keys: set<Vertex>, s: seq<Vertex>, draws: seq<real>, prob: real)
    requires Distinct(s) && (forall v :: v in keys <==> v in s) && |draws| == |Pairs.AllPairs(s)|
    ensures WellFormed(RandomAdj(keys, s, draws, prob))
    ensures EdgeSet(RandomAdj(keys, s, draws, prob)) == set e | e in Chosen(Pairs.AllPairs(s), draws, prob)
    ensures |EdgeSet(RandomAdj(keys, s, draws, prob))| <= |s| * (|s| - 1) / 2
  {
    var es := Chosen(Pairs.AllPairs(s), draws, prob);
    ChosenEndpoints(keys, s, draws, prob);
    ChosenUnique(s, draws, prob);
    LinkAllKeepsWellFormed(Bare(keys), es);
    EdgeSetAfterLinkAll(Bare(keys), es);
    var all := set e | e in Complete.PairEdges(s);
    forall e | e in es
      ensures e in all
    {
      ChosenInPairEdges(s, draws, prob, e);
    }
    Pairs.AllPairEdgesCount(s);
    Collections.SubsetCount((set e | e in es), all);
  }

  /** The pair at position `t` of `_all_vert_pairs` is joined, both ways, exactly
      when its draw is below `prob`. */
  lemma {:induction false} RandomJoins(keys: set<Vertex>, s: seq<Vertex>, draws: seq<real>, prob: real, t: nat)
    requires Distinct(s) && (forall v :: v in keys <==> v in s) && |draws| == |Pairs.AllPairs(s)|
    requires t < |Pairs.AllPairs(s)|
    ensures var p := Pairs.AllPairs(s)[t];
            var slot := if draws[t] < prob then Some(Edge(p.0, p.1)) else None;
            Get(RandomAdj(keys, s, draws, prob), p.0, p.1) == slot &&
            Get(RandomAdj(keys, s, draws, prob), p.1, p.0) == slot
  {
    var ps := Pairs.AllPairs(s);
    var p := ps[t];
    var es := Chosen(ps, draws, prob);
    var e := Edge(p.0, p.1);
    ChosenEndpoints(keys, s, draws, prob);
    ChosenUnique(s, draws, prob);
    if draws[t] < prob {
      ChosenMember(ps, draws, prob, e);
      LinkAllStores(Bare(keys), es, e);
    } else {
      forall d | d in es
        ensures !Joins(d, p.0, p.1)
      {
        ChosenMember(ps, draws, prob, d);
        var u :| 0 <= u < |ps| && draws[u] < prob && d == Edge(ps[u].0, ps[u].1);
        Pairs.AllPairsUnique(s);
        assert ps[u] in ps && ps[t] in ps;
        assert u != t;
      }
      LinkAllGet(Bare(keys), es, p.0, p.1);
      LinkAllGet(Bare(keys), es, p.1, p.0);
    }
  }

  /** With `prob <= 0` no draw of `random.random()` falls below it: no edges. */
  lemma NeverJoined(keys: set<Vertex>, s: seq<Vertex>, draws: seq<real>, prob: real)
    requires (forall v :: v in keys <==> v in s) && |draws| == |Pairs.AllPairs(s)|
    requires UnitDraws(draws) && prob <= 0.0
    ensures RandomAdj(keys, s, draws, prob) == Bare(keys)
  {
    ChosenNone(Pairs.AllPairs(s), draws, prob);
  }

  /** With `prob >= 1` every draw falls below it: the result is the complete
      graph `add_all_edges` builds from vertices with no neighbours. */
  lemma AlwaysJoined(keys: set<Vertex>, s: seq<Vertex>, draws: seq<real>, prob: real)
    requires (forall v :: v in keys <==> v in s) && |draws| == |Pairs.AllPairs(s)|
    requires UnitDraws(draws) && prob >= 1.0
    ensures EndpointsIn(Bare(keys), Complete.PairEdges(s))
    ensures RandomAdj(keys, s, draws, prob) == LinkAll(Bare(keys), Complete.PairEdges(s))
  {
    ChosenAll(Pairs.AllPairs(s), draws, prob);
    Complete.PairEdgesEndpoints(Bare(keys), s);
  }

  /** With `prob <= 0`, no vertex reaches another: two or more vertices are never connected. */
  lemma NeverConnected(keys: set<Vertex>, s: seq<Vertex>, draws: seq<real>, prob: real, x: Vertex, y: Vertex)
    requires (forall v :: v in keys <==> v in s) && |draws| == |Pairs.AllPairs(s)|
    requires UnitDraws(draws) && prob <= 0.0 && x != y
    ensures !Reach.Reachable(RandomAdj(keys, s, draws, prob), x, y)
  {
    NeverJoined(keys, s, draws, prob);
    Reach.EdgelessReachesOnlySelf(RandomAdj(keys, s, draws, prob), x, y);
  }

  /** With `prob >= 1`, every vertex reaches every other. */
  lemma AlwaysConnected(keys: set<Vertex>, s: seq<Vertex>, draws: seq<real>, prob: real, x: Vertex, y: Vertex)
    requires Distinct(s) && (forall v :: v in keys <==> v in s) && |draws| == |Pairs.AllPairs(s)|
    requires UnitDraws(draws) && prob >= 1.0 && x in keys && y in keys
    ensures Reach.Reachable(RandomAdj(keys, s, draws, prob), x, y)
  {
    AlwaysJoined(keys, s, draws, prob);
    Complete.AllEdgesComplete(Bare(keys), s);
  }


  /** `add_random_edges(prob)` on the graph `g`, with `draws[t]` the number drawn
      for the `t`-th pair. The removal loop leaves `cleared`, which has no edges;
      each pair whose draw is below `prob` is then added. From a well-formed graph
      nothing raises and `cleared` has no neighbours at all. */
  method AddRandomEdges(g: Graph.Graph, prob: real, draws: seq<real>) returns (res: Outcome, ghost cleared: Adj)
    requires g.Valid() && |draws| == |Pairs.AllPairs(g.verts)|
    modifies g
    ensures g.Valid() && g.verts == old(g.verts) && g.adj.Keys == old(g.adj).Keys
    ensures res.Fail? ==> res.error == KeyError
    ensures res == Pass ==>
              cleared.Keys == g.adj.Keys && EdgeSet(cleared) == {} &&
              EndpointsIn(cleared, Chosen(Pairs.AllPairs(g.verts), draws, prob)) &&
              g.adj == LinkAll(cleared, Chosen(Pairs.AllPairs(g.verts), draws, prob))
    ensures old(WellFormed(g.adj)) ==>
              res == Pass && cleared == Bare(old(g.adj).Keys) &&
              g.adj == RandomAdj(old(g.adj).Keys, g.verts, draws, prob)
  {
    cleared := g.adj;
    res := g.ClearEdges();
    if res.Fail? {
      return;
    }
    cleared := g.adj;
    var pairs := g.AllVertPairs();
    ChosenEndpoints(cleared.Keys, g.verts, draws, prob);
    AddChosen(g, pairs, draws, prob);
  }

  /** The `for pair in self._all_vert_pairs()` loop of `add_random_edges`: each
      pair whose draw is below `prob` is passed to `add_edge`. */
  method AddChosen(g: Graph.Graph, pairs: seq<Pairs.Pair>, draws: seq<real>, prob: real)
    requires g.Valid() && |draws| == |pairs|
    requires EndpointsIn(Bare(g.adj.Keys), Chosen(pairs, draws, prob))
    modifies g
    ensures g.Valid() && g.verts == old(g.verts) && g.adj.Keys == old(g.adj).Keys
    ensures EndpointsIn(old(g.adj), Chosen(pairs, draws, prob))
    ensures g.adj == LinkAll(old(g.adj), Chosen(pairs, draws, prob))
  {
    ghost var start := g.adj;
    assert pairs[..0] == [] && draws[..0] == [];
    for t := 0 to |pairs|
      invariant g.Valid() && g.verts == old(g.verts) && g.adj.Keys == start.Keys
      invariant EndpointsIn(start, Chosen(pairs[..t], draws[..t], prob))
      invariant g.adj == LinkAll(start, Chosen(pairs[..t], draws[..t], prob))
    {
      ChosenStep(pairs, draws, prob, t);
      ghost var before := Chosen(pairs[..t], draws[..t], prob);
      if draws[t] < prob {
        var (v, w) := pairs[t];
        ChosenMember(pairs, draws, prob, Edge(v, w));
        assert v in start && w in start;
        LinkAllSnoc(start, before, Edge(v, w));
        var added := g.AddEdge(Edge(v, w));
        assert added == Pass;
      } else {
        assert before + [] == before;
      }
    }
    assert pairs[..|pairs|] == pairs && draws[..|pairs|] == draws;
  }
}
