/**
 The `Graph` class: a dictionary from each vertex to an inner dictionary from
 neighbour to edge, updated in place. `verts` is the dictionary's key order
 (`self.keys()`), which the pair enumeration, the ring layout of the regular
 builder and the start of the connectivity search all follow; a key added for
 the first time goes to the end of it, and re-adding a key keeps its place.
 */
module Graph {
  import opened GraphTypes
  import opened Adjacency
  import Pairs
  import Reach
  import opened Collections
  import Regular

  /** `edges()` restricted to the rows `xs` and the columns `ys`. */
  ghost function EdgesAmong(adj: Adj, xs: seq<Vertex>, ys: seq<Vertex>): set<Edge>
  {
    set x, y | x in xs && y in ys && Get(adj, x, y).Some? :: Get(adj, x, y).value
  }

  class Graph {
    /** The key order of the dictionary. */
    var verts: seq<Vertex>
    /** The dictionary: vertex -> neighbour -> edge. */
    var adj: Adj

    /** The keys are exactly `verts`, each once, and every slot holds an edge
        between the two vertices it sits between (every write does so). */
    ghost predicate Valid()
      reads this
    {
      Keyed() && Oriented(adj)
    }

    /** The keys are exactly `verts`, each once. */
    ghost predicate Keyed()
      reads this
    {
      Distinct(verts) && forall v :: v in adj <==> v in verts
    }

    /** An empty graph. */
    constructor ()
      ensures Valid() && verts == [] && adj == map[]
    {
      verts := [];
      adj := map[];
    }

    /** `__init__(vs, es)`: add each vertex, then each edge; the first edge with an
        endpoint that is not a vertex raises KeyError. */
    method Init(vs: seq<Vertex>, es: seq<Edge>) returns (res: Outcome)
      requires Valid() && verts == []
      modifies this
      ensures Valid()
      ensures forall v :: v in verts <==> v in vs
      ensures res.Fail? ==> res.error == KeyError
      ensures res == Pass <==> forall e :: e in es ==> e.v in vs && e.w in vs
      ensures res == Pass ==> adj == LinkAll(Bare(set v | v in vs), es)
    {
      for i := 0 to |vs|
        invariant Valid()
        invariant forall v :: v in verts <==> v in vs[..i]
        invariant adj == Bare(set v | v in vs[..i])
      {
        AddVertex(vs[i]);
        TakeOneMore(vs, i);
      }
      assert vs[..|vs|] == vs;
      ghost var bare := adj;
      for i := 0 to |es|
        invariant Valid() && adj.Keys == bare.Keys
        invariant forall e :: e in es[..i] ==> e.v in vs && e.w in vs
        invariant adj == LinkAll(bare, es[..i])
      {
        TakeOneMore(es, i);
        res := AddEdge(es[i]);
        if res.Fail? {
          return;
        }
        LinkAllSnoc(bare, es[..i], es[i]);
      }
      assert es[..|es|] == es;
      res := Pass;
    }

    /** `add_vertex(v)`: `v` gets an empty neighbour map, even if it had one
        before; other vertices' entries for `v` are left alone. */
    method AddVertex(v: Vertex)
      requires Valid()
      modifies this
      ensures Valid()
      ensures adj == old(adj)[v := map[]]
      ensures verts == if v in old(verts) then old(verts) else old(verts) + [v]
    {
      ResetKeepsOriented(adj, v);
      adj := adj[v := map[]];
      if v !in verts {
        verts := verts + [v];
      }
    }

    /** `add_edge(e)`: [v][w] := e, then [w][v] := e. A missing `v` raises
        KeyError at once; a missing `w` raises after [v][w] is written. */
    method AddEdge(e: Edge) returns (res: Outcome)
      requires Valid()
      modifies this
      ensures Valid() && verts == old(verts) && adj.Keys == old(adj).Keys
      ensures res == Pass <==> old(e.v in adj && e.w in adj)
      ensures res.Fail? ==> res.error == KeyError
      ensures res == Pass ==> adj == Link(old(adj), e)
      ensures old(e.v !in adj) ==> adj == old(adj)
      ensures old(e.v in adj && e.w !in adj) ==> adj == old(adj)[e.v := old(adj)[e.v][e.w := e]]
    {
      if e.v !in adj {
        return Fail(KeyError);
      }
      WriteKeepsOriented(adj, e.v, e.w, e);
      adj := adj[e.v := adj[e.v][e.w := e]];
      if e.w !in adj {
        return Fail(KeyError);
      }
      WriteKeepsOriented(adj, e.w, e.v, e);
      adj := adj[e.w := adj[e.w][e.v := e]];
      res := Pass;
    }

    /** `get_edge(v, w)`: never raises; None when `v` is not a vertex or has no
        entry for `w`. A found edge joins `v` and `w`, and in symmetric storage
        the lookup the other way finds the same edge. */
    function GetEdge(v: Vertex, w: Vertex): (r: Option<Edge>)
      reads this
      ensures r.None? <==> v !in adj || w !in adj[v]
      ensures r.Some? ==> r.value == adj[v][w]
      ensures r.Some? && Oriented(adj) ==> Joins(r.value, v, w)
      ensures r.Some? && Symmetric(adj) ==> w in adj && Get(adj, w, v) == r
    {
      Get(adj, v, w)
    }

    /** `remove_edge(e)`: delete [v][w], then [w][v]. KeyError when [v][w] is
        missing, and also when [w][v] is, after [v][w] is gone; a self-loop
        always fails on its second deletion. */
    method RemoveEdge(e: Edge) returns (res: Outcome)
      requires Valid()
      modifies this
      ensures Valid() && verts == old(verts) && adj.Keys == old(adj).Keys
      ensures res == Pass <==> old(CanUnlink(adj, e))
      ensures res.Fail? ==> res.error == KeyError
      ensures res == Pass ==> adj == Unlink(old(adj), e)
      ensures old(e.v !in adj || e.w !in adj[e.v]) ==> adj == old(adj)
      ensures old(e.v in adj && e.w in adj[e.v]) && res.Fail? ==>
                adj == old(adj)[e.v := old(adj)[e.v] - {e.w}]
    {
      if !(e.v in adj && e.w in adj[e.v]) {
        return Fail(KeyError);
      }
      DeleteKeepsOriented(adj, e.v, e.w);
      adj := adj[e.v := adj[e.v] - {e.w}];
      if !(e.w in adj && e.v in adj[e.w]) {
        return Fail(KeyError);
      }
      DeleteKeepsOriented(adj, e.w, e.v);
      adj := adj[e.w := adj[e.w] - {e.v}];
      res := Pass;
    }

    /** `vertices()`: the keys, in key order. */
    function Vertices(): (r: seq<Vertex>)
      requires Valid()
      reads this
      ensures Distinct(r) && forall v :: v in r <==> v in adj
    {
      verts
    }

    /** `edges()`: look up every ordered pair of vertices and collect the edges found. */
    method Edges() returns (r: set<Edge>)
      requires Keyed()
      ensures r == EdgeSet(adj)
    {
      r := {};
      for i := 0 to |verts|
        invariant r == EdgesAmong(adj, verts[..i], verts)
      {
        var row := EdgesFrom(verts[i]);
        r := r + row;
        TakeOneMore(verts, i);
        EdgesAmongNextRow(adj, verts[..i], verts[i], verts);
      }
      assert verts[..|verts|] == verts;
      EdgesAmongAll(adj, verts);
    }

    /** The inner loop of `edges()`: `get_edge(v, w)` for every vertex `w`. */
    method EdgesFrom(v: Vertex) returns (row: set<Edge>)
      requires Keyed()
      ensures row == EdgesAmong(adj, [v], verts)
    {
      row := {};
      for j := 0 to |verts|
        invariant row == EdgesAmong(adj, [v], verts[..j])
      {
        var e := GetEdge(v, verts[j]);
        if e.Some? {
          row := row + {e.value};
        }
        TakeOneMore(verts, j);
        EdgesAmongNextColumn(adj, v, verts[..j], verts[j]);
      }
      assert verts[..|verts|] == verts;
    }

    /** `out_vertices(v)`: the neighbours of `v`; KeyError when `v` is not a vertex. */
    function OutVertices(v: Vertex): (r: Result<set<Vertex>>)
      reads this
      ensures r.Ok? <==> v in adj
      ensures r.Err? ==> r.error == KeyError
      ensures r.Ok? ==> forall w :: w in r.value <==> Get(adj, v, w).Some?
    {
      if v in adj then Ok(adj[v].Keys) else Err(KeyError)
    }

    /** `out_edges(v)`: the edges to the neighbours of `v`, as many as there are
        neighbours; KeyError when `v` is not a vertex. */
    function OutEdges(v: Vertex): (r: Result<set<Edge>>)
      requires Valid()
      reads this
      ensures r.Ok? <==> v in adj
      ensures r.Err? ==> r.error == KeyError
      ensures r.Ok? ==> forall e :: e in r.value <==> exists w :: Get(adj, v, w) == Some(e)
      ensures r.Ok? ==> |r.value| == |OutVertices(v).value|
    {
      if v in adj then
        OrientedOutEdgesCount(adj, v);
        assert forall e :: e in adj[v].Values <==> exists w :: Get(adj, v, w) == Some(e) by {
          forall e { RowValuesMember(adj, v, e); }
        }
        Ok(adj[v].Values)
      else Err(KeyError)
    }

    /** `_all_vert_pairs()`: pair each vertex with every vertex after it. */
    method AllVertPairs() returns (pairs: seq<Pairs.Pair>)
      ensures pairs == Pairs.AllPairs(verts)
      ensures |pairs| == |verts| * (|verts| - 1) / 2
      ensures forall p :: p in pairs <==> exists i, j :: 0 <= i < j < |verts| && p == (verts[i], verts[j])
    {
      pairs := [];
      for ix := 0 to |verts|
        invariant pairs == Pairs.PairsBefore(verts, ix)
      {
        var row := PairsFrom(ix);
        pairs := pairs + row;
        assert Pairs.PairsBefore(verts, ix + 1) == Pairs.PairsBefore(verts, ix) + Pairs.Row(verts, ix, |verts|);
      }
      Pairs.AllPairsCount(verts);
      forall p
        ensures p in pairs <==> exists i, j :: 0 <= i < j < |verts| && p == (verts[i], verts[j])
      {
        Pairs.AllPairsMember(verts, p);
      }
    }

    /** The inner loop of `_all_vert_pairs()`: `(verts[ix], w)` for every `w` in
        `verts[ix+1:]`, in order. */
    method PairsFrom(ix: nat) returns (row: seq<Pairs.Pair>)
      requires ix < |verts|
      ensures row == Pairs.Row(verts, ix, |verts|)
    {
      row := [];
      for j := ix + 1 to |verts|
        invariant row == Pairs.Row(verts, ix, j)
      {
        assert Pairs.Row(verts, ix, j + 1) == Pairs.Row(verts, ix, j) + [(verts[ix], verts[j])];
        row := row + [(verts[ix], verts[j])];
      }
    }

    /** `add_all_edges()`: for each pair `(v, w)`, [v][w] := Edge(v, w) and
        [w][v] := [v][w]. Nothing is removed first. */
    method AddAllEdges()
      requires Valid()
      modifies this
      ensures Valid() && verts == old(verts) && adj.Keys == old(adj).Keys
      ensures EndpointsIn(old(adj), Pairs.ToEdges(Pairs.AllPairs(verts)))
      ensures adj == LinkAll(old(adj), Pairs.ToEdges(Pairs.AllPairs(verts)))
    {
      var pairs := AllVertPairs();
      ghost var es := Pairs.ToEdges(pairs);
      assert EndpointsIn(old(adj), es) by {
        forall e | e in es
          ensures e.v in adj && e.w in adj
        {
          var t :| 0 <= t < |es| && es[t] == e;
          assert pairs[t] in pairs;
        }
      }
      for t := 0 to |pairs|
        invariant Valid() && verts == old(verts) && adj.Keys == old(adj).Keys
        invariant EndpointsIn(old(adj), es[..t])
        invariant adj == LinkAll(old(adj), es[..t])
      {
        var (v, w) := pairs[t];
        assert es[t] == Edge(v, w) && es[t] in es;
        LinkAllSnoc(old(adj), es[..t], es[t]);
        TakeOneMore(es, t);
        WriteKeepsOriented(adj, v, w, Edge(v, w));
        adj := adj[v := adj[v][w := Edge(v, w)]];
        WriteKeepsOriented(adj, w, v, Edge(v, w));
        adj := adj[w := adj[w][v := adj[v][w]]];
      }
      assert es[..|pairs|] == es;
    }

    /** The `for edge in self.edges(): self.remove_edge(edge)` loop that starts
        `add_regular_edges` and `add_random_edges`, taking the edges in an
        unspecified order. In a well-formed graph it leaves every vertex without
        neighbours; otherwise a removal may raise KeyError part-way. */
    method ClearEdges() returns (res: Outcome)
      requires Valid()
      modifies this
      ensures Valid() && verts == old(verts) && adj.Keys == old(adj).Keys
      ensures res.Fail? ==> res.error == KeyError
      ensures res == Pass ==> EdgeSet(adj) == {}
      ensures old(WellFormed(adj)) ==> res == Pass && adj == Bare(old(adj).Keys)
      ensures forall x, y :: Get(adj, x, y).Some? ==> Get(adj, x, y) == Get(old(adj), x, y)
      ensures forall x, y :: y !in adj ==> Get(adj, x, y) == Get(old(adj), x, y)
    {
      var es := Edges();
      ghost var wf := WellFormed(adj);
      EdgeSetEndpoints(adj);
      var rest := es;
      while rest != {}
        invariant Valid() && verts == old(verts) && adj.Keys == old(adj).Keys
        invariant EdgeSet(adj) <= rest
        invariant wf ==> WellFormed(adj) && EdgeSet(adj) == rest
        invariant forall d :: d in rest ==> d.v in adj && d.w in adj
        invariant forall x, y :: Get(adj, x, y).Some? ==> Get(adj, x, y) == Get(old(adj), x, y)
        invariant forall x, y :: y !in adj ==> Get(adj, x, y) == Get(old(adj), x, y)
        decreases rest
      {
        var e :| e in rest;
        if wf {
          UnlinkListedEdge(adj, e);
          UnlinkKeepsWellFormed(adj, e);
        }
        ghost var before := adj;
        res := RemoveEdge(e);
        RemovalKeepsOthers(before, adj, e);
        if res.Fail? {
          return;
        }
        UnlinkShrinksEdgeSet(before, e);
        rest := rest - {e};
      }
      res := Pass;
      if wf {
        EmptyEdgeSetIsEdgeless(adj);
        GetExtensional(adj, Bare(old(adj).Keys));
      }
    }

    /** `add_regular_edges(k)`, as written: assert `k*n` even, `k < n` and `k >= 0`;
        remove every edge; join each vertex `k / 2` times to its successor and,
        for odd `k`, to the vertex half-way round; then assert every vertex has
        exactly `k` neighbours. From a well-formed graph the final assertion
        holds exactly when `k <= 3`. */
    method AddRegularEdges(k: int) returns (res: Outcome)
      requires Valid()
      modifies this
      ensures Valid() && verts == old(verts) && adj.Keys == old(adj).Keys
      ensures !((k * |verts|) % 2 == 0 && k < |verts| && k >= 0) ==>
                res == Fail(AssertionError) && adj == old(adj)
      ensures res.Fail? ==> res.error == KeyError || res.error == AssertionError
      ensures res == Pass ==> AllDegrees(adj, verts, k)
      ensures (k * |verts|) % 2 == 0 && 0 <= k < |verts| && old(WellFormed(adj)) ==>
                EndpointsIn(Bare(old(adj).Keys), Regular.RegularEdges(verts, k))
                && adj == LinkAll(Bare(old(adj).Keys), Regular.RegularEdges(verts, k))
                && res == (if k <= 3 then Pass else Fail(AssertionError))
    {
      var n := |verts|;
      if (k * n) % 2 != 0 {
        return Fail(AssertionError);
      }
      if k >= n {
        return Fail(AssertionError);
      }
      if k < 0 {
        return Fail(AssertionError);
      }
      ghost var wf := WellFormed(adj);
      res := ClearEdges();
      if res.Fail? {
        return;
      }
      ghost var bare := adj;
      res := LinkRegular(k);
      if wf {
        RegularDegreesHold(bare.Keys, verts, k, adj);
      }
    }

    /** The part of `add_regular_edges(k)` after the edges are removed: the edges
        of every row in key order, then the closing degree assertion. */
    method LinkRegular(k: nat) returns (res: Outcome)
      requires Valid() && k < |verts|
      modifies this
      ensures Valid() && verts == old(verts) && adj.Keys == old(adj).Keys
      ensures EndpointsIn(old(adj), Regular.RegularEdges(verts, k))
      ensures adj == LinkAll(old(adj), Regular.RegularEdges(verts, k))
      ensures res == Pass <==> AllDegrees(adj, verts, k)
      ensures res.Fail? ==> res.error == AssertionError
    {
      AddRows(k);
      var ok := DegreesAre(k);
      res := if ok then Pass else Fail(AssertionError);
    }

    /** The loop `for ix, v in enumerate(verts)` of `add_regular_edges(k)`: the
        edges of every row, in key order. */
    method AddRows(k: nat)
      requires Valid() && k < |verts|
      modifies this
      ensures Valid() && verts == old(verts) && adj.Keys == old(adj).Keys
      ensures EndpointsIn(old(adj), Regular.RegularEdges(verts, k))
      ensures adj == LinkAll(old(adj), Regular.RegularEdges(verts, k))
    {
      ghost var start := adj;
      ghost var vs := verts;
      assert Regular.RegularPrefix(vs, k, 0) == [];
      assert LinkAll(start, []) == start;
      for ix := 0 to |verts|
        invariant Valid() && verts == vs && adj.Keys == start.Keys
        invariant EndpointsIn(start, Regular.RegularPrefix(vs, k, ix))
        invariant adj == LinkAll(start, Regular.RegularPrefix(vs, k, ix))
      {
        AddRowEdges(start, k, ix);
      }
      assert Regular.RegularPrefix(vs, k, |vs|) == Regular.RegularEdges(vs, k);
    }

    /** The closing `for v in verts: assert len(self.out_vertices(v)) == kay`. */
    method DegreesAre(k: int) returns (ok: bool)
      requires Keyed()
      ensures ok <==> AllDegrees(adj, verts, k)
    {
      for i := 0 to |verts|
        invariant forall j :: 0 <= j < i ==> |adj[verts[j]].Keys| == k
      {
        if |OutVertices(verts[i]).value| != k {
          return false;
        }
      }
      return true;
    }

    /** `for neighbor in ws: self.add_edge(Edge(v, neighbor))`. */
    method AddEdgesFrom(v: Vertex, ws: seq<Vertex>)
      requires Valid() && v in adj && forall w :: w in ws ==> w in adj
      modifies this
      ensures Valid() && verts == old(verts) && adj.Keys == old(adj).Keys
      ensures EndpointsIn(old(adj), Fan(v, ws))
      ensures adj == LinkAll(old(adj), Fan(v, ws))
    {
      ghost var es := Fan(v, ws);
      assert es[..0] == [];
      for t := 0 to |ws|
        invariant Valid() && verts == old(verts) && adj.Keys == old(adj).Keys
        invariant EndpointsIn(old(adj), es[..t])
        invariant adj == LinkAll(old(adj), es[..t])
      {
        TakeOneMore(es, t);
        assert ws[t] in ws;
        LinkAllSnoc(old(adj), es[..t], es[t]);
        var added := AddEdge(Edge(v, ws[t]));
        assert added == Pass;
      }
      assert es[..|ws|] == es;
    }

    /** One pass of `for ix, v in enumerate(verts)` in `add_regular_edges`: an
        edge to each vertex `neighbors(verts, ix)` lists, then, when `k` is odd,
        the edge to `verts[ix - len(verts)/2]`. */
    method AddRowEdges(ghost bare: Adj, k: nat, ix: nat)
      requires Valid() && ix < |verts| && adj.Keys == bare.Keys
      requires EndpointsIn(bare, Regular.RegularPrefix(verts, k, ix))
      requires adj == LinkAll(bare, Regular.RegularPrefix(verts, k, ix))
      modifies this
      ensures Valid() && verts == old(verts) && adj.Keys == bare.Keys
      ensures EndpointsIn(bare, Regular.RegularPrefix(verts, k, ix + 1))
      ensures adj == LinkAll(bare, Regular.RegularPrefix(verts, k, ix + 1))
    {
      var n := |verts|;
      var nn := k / 2;
      var nbrs := Regular.Neighbors(verts, ix, nn);
      RowStep(bare, verts, k, ix, nbrs);
      AddEdgesFrom(verts[ix], nbrs);
      if nn * 2 != k {
        var added := AddEdge(Edge(verts[ix], verts[Regular.Opposite(ix, n)]));
        assert added == Pass;
      }
    }

    /** `is_connected()`: True when there are no vertices; otherwise a
        breadth-first search from `verts[0]` over a `visited` dictionary keyed by
        the vertices. A neighbour that is not a vertex raises KeyError; otherwise
        the answer is whether every vertex is reachable. `pops` counts the
        vertices taken off the queue: each vertex is enqueued at most once. */
    method IsConnected() returns (r: Result<bool>, ghost pops: nat)
      requires Keyed()
      ensures verts == [] ==> r == Ok(true)
      ensures verts != [] ==> (r.Ok? <==> forall u :: Reach.Reachable(adj, verts[0], u) ==> u in adj)
      ensures verts != [] && r.Ok? ==>
                (r.value <==> forall u :: u in verts ==> Reach.Reachable(adj, verts[0], u))
      ensures r.Err? ==> r.error == KeyError
      ensures pops <= |verts|
    {
      var vs := verts;
      if |vs| == 0 {
        return Ok(true), 0;
      }
      var start := vs[0];
      var ok, visited;
      ghost var seen;
      ok, visited, seen, pops := Search(start);
      if !ok {
        return Err(KeyError), pops;
      }
      SearchComplete(adj, start, visited, seen, vs);
      r := Ok(forall u | u in vs :: visited[u]);
    }

    /** The search loop of `is_connected()` from `start`: a `visited` dictionary
        keyed by the vertices, `start` marked and queued, then each vertex taken
        off the queue has its unvisited neighbours marked and queued. Fails when
        a neighbour is not a vertex; otherwise every marked vertex is reachable
        and every neighbour of a marked vertex is marked. */
    method Search(start: Vertex)
      returns (ok: bool, visited: map<Vertex, bool>, ghost seen: set<Vertex>, ghost pops: nat)
      requires Keyed() && start in adj
      ensures !ok ==> exists w :: Reach.Reachable(adj, start, w) && w !in adj
      ensures ok ==> Marks(visited, seen, adj.Keys) && start in seen
      ensures ok ==> AllReachable(adj, start, seen) && Explored(adj, seen, seen)
      ensures pops <= |verts|
    {
      pops := 0;
      var vs := verts;
      visited := map u | u in vs :: false;
      var q := [start];
      visited := visited[start := true];
      Reach.ReachableSelf(adj, start);
      // `seen`: the vertices marked True; `done`: those taken off the queue.
      seen := {start};
      ghost var done: set<Vertex> := {};
      while |q| > 0
        invariant Marks(visited, seen, adj.Keys) && start in seen && done <= seen
        invariant AllReachable(adj, start, seen)
        invariant Queued(q, seen, done) && Explored(adj, done, seen)
        invariant pops == |done|
        decreases adj.Keys - done
      {
        var v := q[0];
        PopKeepsQueued(q, seen, done);
        assert |done + {v}| == |done| + 1;
        q := q[1..];
        pops := pops + 1;
        ok, visited, q, seen := VisitNeighbours(start, v, visited, q, seen, done);
        if !ok {
          DoneCount(done + {v}, adj.Keys, vs);
          return;
        }
        done := done + {v};
      }
      DoneCount(done, adj.Keys, vs);
      ok := true;
    }

    /** The inner `for w in self.out_vertices(v)` loop of `is_connected`, for the
        vertex `v` just taken off the queue: every neighbour not yet visited is
        marked and queued. `ok` is False when a neighbour is not a vertex, where
        `visited[w]` raises KeyError. */
    method VisitNeighbours(start: Vertex, v: Vertex, visited0: map<Vertex, bool>, q0: seq<Vertex>,
                           ghost seen0: set<Vertex>, ghost done: set<Vertex>)
      returns (ok: bool, visited: map<Vertex, bool>, q: seq<Vertex>, ghost seen: set<Vertex>)
      requires Marks(visited0, seen0, adj.Keys) && done <= seen0 && AllReachable(adj, start, seen0)
      requires v in seen0 && v !in done && Explored(adj, done, seen0)
      requires Distinct(q0)
      requires forall i :: 0 <= i < |q0| ==> q0[i] in seen0 && q0[i] !in done && q0[i] != v
      requires forall u :: u in seen0 && u !in done && u != v ==> u in q0
      ensures seen0 <= seen && AllReachable(adj, start, seen)
      ensures !ok ==> exists w :: Reach.Reachable(adj, start, w) && w !in adj
      ensures ok ==> Marks(visited, seen, adj.Keys) && done + {v} <= seen
      ensures ok ==> Queued(q, seen, done + {v}) && Explored(adj, done + {v}, seen)
    {
      visited, q, seen := visited0, q0, seen0;
      var nbrs := adj[v].Keys;
      while nbrs != {}
        invariant Marks(visited, seen, adj.Keys) && seen0 <= seen && AllReachable(adj, start, seen)
        invariant Distinct(q)
        invariant forall i :: 0 <= i < |q| ==> q[i] in seen && q[i] !in done && q[i] != v
        invariant forall u :: u in seen && u !in done && u != v ==> u in q
        invariant Explored(adj, done, seen)
        invariant nbrs <= adj[v].Keys
        invariant forall y :: y in adj[v] && y !in nbrs ==> y in seen
        decreases nbrs
      {
        var w :| w in nbrs;
        Reach.ReachableStep(adj, start, v, w);
        if w !in visited {
          return false, visited, q, seen;
        }
        if !visited[w] {
          visited := visited[w := true];
          seen := seen + {w};
          q := q + [w];
        }
        nbrs := nbrs - {w};
      }
      ok := true;
    }
  }

  /** `visited` is keyed by the vertices and marks True exactly `seen`. */
  ghost predicate Marks(visited: map<Vertex, bool>, seen: set<Vertex>, keys: set<Vertex>)
  {
    visited.Keys == keys && seen <= keys && forall u :: u in visited ==> (visited[u] <==> u in seen)
  }

  /** Every vertex in `seen` is reachable from `start`. */
  ghost predicate AllReachable(adj: Adj, start: Vertex, seen: set<Vertex>)
  {
    forall u :: u in seen ==> Reach.Reachable(adj, start, u)
  }

  /** The queue holds, once each, the seen vertices not yet taken off it. */
  ghost predicate Queued(q: seq<Vertex>, seen: set<Vertex>, done: set<Vertex>)
  {
    Distinct(q)
    && (forall i :: 0 <= i < |q| ==> q[i] in seen && q[i] !in done)
    && (forall u :: u in seen && u !in done ==> u in q)
  }

  /** Every neighbour of a vertex taken off the queue has been seen. */
  ghost predicate Explored(adj: Adj, done: set<Vertex>, seen: set<Vertex>)
  {
    forall x, y :: x in done && Get(adj, x, y).Some? ==> y in seen
  }

  /** Every vertex of `vs` is a key with exactly `k` neighbours. */
  predicate AllDegrees(adj: Adj, vs: seq<Vertex>, k: int)
  {
    forall v :: v in vs ==> v in adj && |adj[v].Keys| == k
  }

  /** One row of `add_regular_edges`: the fan over `neighbors(verts, ix)` and,
      for odd `k`, the edge half-way round, linked after the earlier rows, give
      the adjacency of the first `ix + 1` rows. */
  lemma RowStep(bare: Adj, s: seq<Vertex>, k: nat, ix: nat, nbrs: seq<Vertex>)
    requires ix < |s| && forall v :: v in s ==> v in bare
    requires nbrs == Regular.Repeat(s[Regular.Succ(ix, |s|)], k / 2)
    requires EndpointsIn(bare, Regular.RegularPrefix(s, k, ix))
    ensures EndpointsIn(bare, Fan(s[ix], nbrs))
    ensures EndpointsIn(bare, Regular.RegularPrefix(s, k, ix + 1))
    ensures var mid := LinkAll(LinkAll(bare, Regular.RegularPrefix(s, k, ix)), Fan(s[ix], nbrs));
            LinkAll(bare, Regular.RegularPrefix(s, k, ix + 1)) ==
            if (k / 2) * 2 != k then Link(mid, Edge(s[ix], s[Regular.Opposite(ix, |s|)])) else mid
  {
    var before, fan := Regular.RegularPrefix(s, k, ix), Fan(s[ix], nbrs);
    assert EndpointsIn(bare, fan);
    LinkAllAppend(bare, before, fan);
    if (k / 2) * 2 != k {
      var e := Edge(s[ix], s[Regular.Opposite(ix, |s|)]);
      LinkAllSnoc(bare, before + fan, e);
      Regular.OddRowEdges(s, k, ix, nbrs);
    } else {
      Regular.EvenRowEdges(s, k, ix, nbrs);
    }
  }

  /** Built on edgeless vertices `vs`, the construction gives every vertex
      exactly `k` neighbours precisely when `k <= 3`. */
  lemma RegularDegreesHold(keys: set<Vertex>, vs: seq<Vertex>, k: int, a: Adj)
    requires Distinct(vs) && (forall v :: v in keys <==> v in vs)
    requires 0 <= k < |vs| && (k * |vs|) % 2 == 0
    requires EndpointsIn(Bare(keys), Regular.RegularEdges(vs, k))
    requires a == LinkAll(Bare(keys), Regular.RegularEdges(vs, k))
    ensures AllDegrees(a, vs, k) <==> k <= 3
  {
    var all := Regular.RegularEdges(vs, k);
    forall i | 0 <= i < |vs|
      ensures |a[vs[i]].Keys| == if k <= 3 then k else 2 + k % 2
    {
      LinkAllBareNeighbours(keys, all, vs[i]);
      Regular.RegularDegree(vs, k, i);
    }
    if k > 3 {
      assert |a[vs[0]].Keys| != k;
    }
  }

  /** For `k >= 2`, the construction joins each `vs[i]` to the next vertex. */
  lemma SuccJoined(keys: set<Vertex>, vs: seq<Vertex>, k: int, a: Adj, i: nat)
    requires Distinct(vs) && (forall v :: v in keys <==> v in vs)
    requires 2 <= k < |vs| && (k * |vs|) % 2 == 0
    requires EndpointsIn(Bare(keys), Regular.RegularEdges(vs, k))
    requires a == LinkAll(Bare(keys), Regular.RegularEdges(vs, k))
    requires i + 1 < |vs|
    ensures Get(a, vs[i], vs[i + 1]).Some?
  {
    assert Regular.Succ(i, |vs|) == i + 1;
    assert vs[i + 1] in Regular.Expected(vs, k, i);
    Regular.ExpectedIsJoined(vs, k, i, vs[i + 1]);
    LinkAllBareNeighbours(keys, Regular.RegularEdges(vs, k), vs[i]);
  }

  /** For `k >= 2` the graph `add_regular_edges(k)` builds on edgeless vertices is
      well-formed and connected: from `vs[0]` every vertex is reached and only
      vertices are reached, so `is_connected()` answers True. */
  lemma RegularConnected(keys: set<Vertex>, vs: seq<Vertex>, k: int, a: Adj)
    requires Distinct(vs) && (forall v :: v in keys <==> v in vs)
    requires 2 <= k < |vs| && (k * |vs|) % 2 == 0
    requires EndpointsIn(Bare(keys), Regular.RegularEdges(vs, k))
    requires a == LinkAll(Bare(keys), Regular.RegularEdges(vs, k))
    ensures WellFormed(a)
    ensures forall u :: Reach.Reachable(a, vs[0], u) ==> u in a
    ensures forall u :: u in vs ==> Reach.Reachable(a, vs[0], u)
  {
    var all := Regular.RegularEdges(vs, k);
    forall e | e in all
      ensures e.v != e.w
    {
      Regular.RegularEdgesNoLoops(vs, k, e);
    }
    LinkAllKeepsWellFormed(Bare(keys), all);
    forall u | Reach.Reachable(a, vs[0], u)
      ensures u in a
    {
      Reach.ClosedReachesVertices(a, vs[0], u);
    }
    forall i | 0 <= i < |vs| - 1
      ensures Get(a, vs[i], vs[i + 1]).Some?
    {
      SuccJoined(keys, vs, k, a, i);
    }
    forall u | u in vs
      ensures Reach.Reachable(a, vs[0], u)
    {
      var i :| 0 <= i < |vs| && vs[i] == u;
      Reach.ChainReaches(a, vs, i);
    }
  }

  /** `add_regular_edges(2)` on a well-formed graph of at least three vertices
      builds a ring, and `is_connected()` then answers True. */
  method RingIsConnected(g: Graph) returns (res: Outcome, r: Result<bool>)
    requires g.Valid() && WellFormed(g.adj) && |g.verts| >= 3
    modifies g
    ensures g.Valid() && g.verts == old(g.verts)
    ensures res == Pass && r == Ok(true)
  {
    res := g.AddRegularEdges(2);
    RegularConnected(old(g.adj).Keys, g.verts, 2, g.adj);
    ghost var pops;
    r, pops := g.IsConnected();
  }

  /** `remove_edge(e)` of an edge between two vertices, whether it finishes or
      stops after its first `del`, only removes entries, and only entries between
      `e`'s two vertices. */
  lemma RemovalKeepsOthers(before: Adj, after: Adj, e: Edge)
    requires e.v in before && e.w in before && after.Keys == before.Keys
    requires (CanUnlink(before, e) && after == Unlink(before, e))
             || after == before
             || (e.w in before[e.v] && after == before[e.v := before[e.v] - {e.w}])
    ensures forall x, y :: Get(after, x, y).Some? ==> Get(after, x, y) == Get(before, x, y)
    ensures forall x, y :: y !in after ==> Get(after, x, y) == Get(before, x, y)
  {
  }

  /** Once the queue is empty, the marked vertices are exactly those reachable
      from `start`, all of them vertices: `all(visited.values())` says whether
      every vertex is reachable. */
  lemma SearchComplete(adj: Adj, start: Vertex, visited: map<Vertex, bool>, seen: set<Vertex>, vs: seq<Vertex>)
    requires Marks(visited, seen, adj.Keys) && start in seen
    requires AllReachable(adj, start, seen) && Explored(adj, seen, seen)
    requires forall v :: v in adj <==> v in vs
    ensures forall u :: Reach.Reachable(adj, start, u) ==> u in adj
    ensures (forall u :: u in vs ==> visited[u]) <==> (forall u :: u in vs ==> Reach.Reachable(adj, start, u))
  {
    forall u | Reach.Reachable(adj, start, u)
      ensures u in seen
    {
      Reach.ClosedSetHoldsReachable(adj, seen, start, u);
    }
  }

  /** Taking the head off the queue leaves the other queued vertices, none
      equal to the head. */
  lemma PopKeepsQueued(q: seq<Vertex>, seen: set<Vertex>, done: set<Vertex>)
    requires Queued(q, seen, done) && |q| > 0
    ensures Distinct(q[1..]) && q[0] in seen && q[0] !in done
    ensures forall i :: 0 <= i < |q[1..]| ==> q[1..][i] in seen && q[1..][i] !in done && q[1..][i] != q[0]
    ensures forall u :: u in seen && u !in done && u != q[0] ==> u in q[1..]
  {
    forall u | u in seen && u !in done && u != q[0]
      ensures u in q[1..]
    {
      var i :| 0 <= i < |q| && q[i] == u;
      assert q[1..][i - 1] == u;
    }
  }

  /** No more vertices leave the queue than there are vertices. */
  lemma DoneCount(done: set<Vertex>, keys: set<Vertex>, vs: seq<Vertex>)
    requires done <= keys && Distinct(vs) && forall v :: v in keys <==> v in vs
    ensures |done| <= |vs|
  {
    Collections.SubsetCount(done, keys);
    assert keys == set v | v in vs;
    Collections.DistinctCard(vs);
  }

  /** Looking up every vertex against every vertex lists `edges()`. */
  lemma EdgesAmongAll(adj: Adj, vs: seq<Vertex>)
    requires forall v :: v in adj <==> v in vs
    ensures EdgesAmong(adj, vs, vs) == EdgeSet(adj)
  {
    forall d | d in EdgeSet(adj)
      ensures d in EdgesAmong(adj, vs, vs)
    {
      EdgeSetMember(adj, d);
    }
  }

  /** Looking up one more column of a row adds the edge found there, if any. */
  lemma EdgesAmongNextColumn(adj: Adj, x: Vertex, ys: seq<Vertex>, y: Vertex)
    ensures EdgesAmong(adj, [x], ys + [y]) ==
            EdgesAmong(adj, [x], ys) + (if Get(adj, x, y).Some? then {Get(adj, x, y).value} else {})
  {
  }

  /** Looking up one more row adds that row's edges. */
  lemma EdgesAmongNextRow(adj: Adj, xs: seq<Vertex>, x: Vertex, ys: seq<Vertex>)
    ensures EdgesAmong(adj, xs + [x], ys) == EdgesAmong(adj, xs, ys) + EdgesAmong(adj, [x], ys)
  {
  }
}
