/**
 The value model of the graph's storage: a dictionary from each vertex to an
 inner dictionary from neighbour to the edge joining them. The functions here
 are the effects of the in-place operations of the `Graph` class; the lemmas
 are the facts about those effects that the class and its clients rely on.
 */
module Adjacency {
  import opened GraphTypes

  /** vertex -> neighbour -> edge */
  type Adj = map<Vertex, map<Vertex, Edge>>

  /** `get_edge(x, y)`: the edge stored at [x][y], or None when either lookup misses. */
  function Get(adj: Adj, x: Vertex, y: Vertex): Option<Edge>
  {
    if x in adj && y in adj[x] then Some(adj[x][y]) else None
  }

  /** `e` joins `x` and `y`, in one order or the other. */
  predicate Joins(e: Edge, x: Vertex, y: Vertex)
  {
    (e.v == x && e.w == y) || (e.v == y && e.w == x)
  }

  /** Every stored edge joins the two vertices whose slot holds it. */
  ghost predicate Oriented(adj: Adj)
  {
    forall x, y :: Get(adj, x, y).Some? ==> Joins(Get(adj, x, y).value, x, y)
  }

  /** Symmetric storage: a slot [x][y] has a partner [y][x] holding the same edge,
      so in particular every neighbour is itself a vertex. */
  ghost predicate Symmetric(adj: Adj)
  {
    forall x, y :: Get(adj, x, y).Some? ==> y in adj && Get(adj, y, x) == Get(adj, x, y)
  }

  /** Every neighbour is a vertex (a key of the outer dictionary). */
  ghost predicate Closed(adj: Adj)
  {
    forall x, y :: Get(adj, x, y).Some? ==> y in adj
  }

  ghost predicate Loopless(adj: Adj)
  {
    forall x :: Get(adj, x, x) == None
  }

  /** No vertex has a neighbour. */
  ghost predicate Edgeless(adj: Adj)
  {
    forall x, y :: Get(adj, x, y) == None
  }

  /** The well-formed graphs: symmetric storage without self-loops. */
  ghost predicate WellFormed(adj: Adj)
  {
    Oriented(adj) && Symmetric(adj) && Loopless(adj)
  }

  /** The given vertices, each with an empty neighbour map. */
  function Bare(keys: set<Vertex>): (r: Adj)
    ensures r.Keys == keys
    ensures Edgeless(r) && WellFormed(r)
  {
    map x | x in keys :: map[]
  }

  /** Two adjacency maps with the same vertices and the same lookups are equal. */
  lemma GetExtensional(a: Adj, b: Adj)
    requires a.Keys == b.Keys
    requires forall x, y :: Get(a, x, y) == Get(b, x, y)
    ensures a == b
  {
    forall x | x in a
      ensures a[x] == b[x]
    {
      assert forall y :: y in a[x] <==> Get(a, x, y).Some?;
      assert forall y :: y in b[x] <==> Get(b, x, y).Some?;
      assert a[x].Keys == b[x].Keys;
      forall y | y in a[x]
        ensures a[x][y] == b[x][y]
      {
        assert Get(a, x, y) == Get(b, x, y);
      }
    }
  }

  // ---------------------------------------------------------------------------
  // add_edge and remove_edge

  /** `add_edge(e)` when both endpoints are vertices: [v][w] := e, then [w][v] := e. */
  function Link(adj: Adj, e: Edge): (r: Adj)
    requires e.v in adj && e.w in adj
    ensures r.Keys == adj.Keys
    ensures forall x, y :: Get(r, x, y) == if Joins(e, x, y) then Some(e) else Get(adj, x, y)
  {
    var a := adj[e.v := adj[e.v][e.w := e]];
    a[e.w := a[e.w][e.v := e]]
  }

  /** `remove_edge(e)` succeeds: both slots exist and are two different slots. */
  predicate CanUnlink(adj: Adj, e: Edge)
  {
    e.v in adj && e.w in adj[e.v] && e.w in adj && e.v in adj[e.w] && e.v != e.w
  }

  /** `remove_edge(e)` when it succeeds: delete [v][w], then delete [w][v]. */
  function Unlink(adj: Adj, e: Edge): (r: Adj)
    requires CanUnlink(adj, e)
    ensures r.Keys == adj.Keys
    ensures forall x, y :: Get(r, x, y) == if Joins(e, x, y) then None else Get(adj, x, y)
  {
    var a := adj[e.v := adj[e.v] - {e.w}];
    a[e.w := a[e.w] - {e.v}]
  }

  /** Linking keeps storage oriented and symmetric, and loopless for a non-loop edge. */
  lemma LinkKeepsWellFormed(adj: Adj, e: Edge)
    requires e.v in adj && e.w in adj && e.v != e.w
    requires WellFormed(adj)
    ensures WellFormed(Link(adj, e))
  {
  }

  /** Unlinking keeps a well-formed graph well-formed. */
  lemma UnlinkKeepsWellFormed(adj: Adj, e: Edge)
    requires CanUnlink(adj, e)
    requires WellFormed(adj)
    ensures WellFormed(Unlink(adj, e))
  {
  }

  /** Removing an edge just added between two unconnected vertices restores the graph,
      and afterwards lookups miss in both directions. */
  lemma {:induction false} LinkThenUnlink(adj: Adj, e: Edge)
    requires e.v in adj && e.w in adj && e.v != e.w
    requires Get(adj, e.v, e.w) == None && Get(adj, e.w, e.v) == None
    ensures CanUnlink(Link(adj, e), e)
    ensures Unlink(Link(adj, e), e) == adj
    ensures Get(Unlink(Link(adj, e), e), e.v, e.w) == None
    ensures Get(Unlink(Link(adj, e), e), e.w, e.v) == None
  {
    var l := Link(adj, e);
    assert Get(l, e.v, e.w) == Some(e) && Get(l, e.w, e.v) == Some(e);
    var u := Unlink(l, e);
    forall x, y
      ensures Get(u, x, y) == Get(adj, x, y)
    {
      if Joins(e, x, y) {
        assert (x == e.v && y == e.w) || (x == e.w && y == e.v);
      }
    }
    GetExtensional(u, adj);
  }

  /** Re-adding a vertex that has a neighbour other than itself breaks symmetry:
      the neighbour still points back at it. */
  lemma {:induction false} ReAddBreaksSymmetry(adj: Adj, v: Vertex, w: Vertex)
    requires Symmetric(adj)
    requires Get(adj, v, w).Some? && v != w
    ensures !Symmetric(adj[v := map[]])
  {
    var a := adj[v := map[]];
    assert Get(adj, w, v).Some?;
    assert Get(a, w, v).Some? && Get(a, v, w) == None;
  }

  /** Adding a new vertex keeps a well-formed graph well-formed. */
  lemma AddFreshVertexKeepsWellFormed(adj: Adj, v: Vertex)
    requires WellFormed(adj) && v !in adj
    ensures WellFormed(adj[v := map[]])
  {
    var a := adj[v := map[]];
    assert forall x, y :: Get(a, x, y) == if x == v then None else Get(adj, x, y);
  }

  /** `add_edge((v, w))` with `v` a vertex and `w` not one leaves [v][w] written:
      a neighbour that is not a vertex. */
  lemma {:induction false} PartialLinkDangles(adj: Adj, e: Edge)
    requires e.v in adj && e.w !in adj
    ensures !Closed(adj[e.v := adj[e.v][e.w := e]])
  {
    var a := adj[e.v := adj[e.v][e.w := e]];
    assert Get(a, e.v, e.w).Some?;
  }

  // ---------------------------------------------------------------------------
  // edges()

  /** `edges()`: every edge stored in a slot [x][y] where x and y are both vertices. */
  function EdgeSet(adj: Adj): set<Edge>
  {
    set x, y | x in adj && y in adj && y in adj[x] :: adj[x][y]
  }

  /** In oriented storage every edge `edges()` lists joins two vertices. */
  lemma EdgeSetEndpoints(adj: Adj)
    requires Oriented(adj)
    ensures forall e :: e in EdgeSet(adj) ==> e.v in adj && e.w in adj
  {
    forall e | e in EdgeSet(adj)
      ensures e.v in adj && e.w in adj
    {
      var x, y :| x in adj && y in adj && y in adj[x] && adj[x][y] == e;
      assert Joins(Get(adj, x, y).value, x, y);
    }
  }

  /** An edge is listed by `edges()` exactly when some vertex pair's lookup finds it. */
  lemma {:induction false} EdgeSetMember(adj: Adj, e: Edge)
    ensures e in EdgeSet(adj) <==> exists x, y :: x in adj && y in adj && Get(adj, x, y) == Some(e)
  {
    if e in EdgeSet(adj) {
      var x, y :| x in adj && y in adj && y in adj[x] && adj[x][y] == e;
      assert Get(adj, x, y) == Some(e);
    }
  }

  /** With every neighbour a vertex, `edges()` is empty exactly when no vertex has a neighbour. */
  lemma {:induction false} EmptyEdgeSetIsEdgeless(adj: Adj)
    requires Closed(adj)
    ensures EdgeSet(adj) == {} <==> Edgeless(adj)
  {
    if !Edgeless(adj) {
      var x, y :| Get(adj, x, y).Some?;
      assert adj[x][y] in EdgeSet(adj);
    }
    if EdgeSet(adj) != {} {
      var e :| e in EdgeSet(adj);
      EdgeSetMember(adj, e);
    }
  }

  /** A successful removal drops the removed edge and lists no new one. */
  lemma {:induction false} UnlinkShrinksEdgeSet(adj: Adj, e: Edge)
    requires Oriented(adj) && CanUnlink(adj, e)
    ensures EdgeSet(Unlink(adj, e)) <= EdgeSet(adj) - {e}
  {
    var u := Unlink(adj, e);
    forall d | d in EdgeSet(u)
      ensures d in EdgeSet(adj) && d != e
    {
      EdgeSetMember(u, d);
      var x, y :| x in u && y in u && Get(u, x, y) == Some(d);
      assert !Joins(e, x, y) && Get(adj, x, y) == Some(d);
      EdgeSetMember(adj, d);
    }
  }

  /** In a well-formed graph every listed edge can be removed, and removing it
      drops exactly that edge from `edges()`. */
  lemma {:induction false} UnlinkListedEdge(adj: Adj, e: Edge)
    requires WellFormed(adj) && e in EdgeSet(adj)
    ensures CanUnlink(adj, e)
    ensures EdgeSet(Unlink(adj, e)) == EdgeSet(adj) - {e}
  {
    EdgeSetMember(adj, e);
    var x0, y0 :| x0 in adj && y0 in adj && Get(adj, x0, y0) == Some(e);
    assert Joins(e, x0, y0) && Get(adj, y0, x0) == Some(e);
    assert x0 != y0;
    UnlinkShrinksEdgeSet(adj, e);
    var u := Unlink(adj, e);
    forall d | d in EdgeSet(adj) - {e}
      ensures d in EdgeSet(u)
    {
      EdgeSetMember(adj, d);
      var x, y :| x in adj && y in adj && Get(adj, x, y) == Some(d);
      assert Get(u, x, y) == Some(d);
      EdgeSetMember(u, d);
    }
  }

  // ---------------------------------------------------------------------------
  // A sequence of add_edge calls

  /** Every edge of `es` has both endpoints among the vertices of `adj`. */
  ghost predicate EndpointsIn(adj: Adj, es: seq<Edge>)
  {
    forall e :: e in es ==> e.v in adj && e.w in adj
  }

  /** `add_edge` applied to each edge of `es` in turn. */
  function LinkAll(adj: Adj, es: seq<Edge>): (r: Adj)
    requires EndpointsIn(adj, es)
    ensures r.Keys == adj.Keys
    decreases |es|
  {
    if es == [] then adj else Link(LinkAll(adj, es[..|es| - 1]), es[|es| - 1])
  }

  /** One more `add_edge` call after a sequence of them. */
  lemma LinkAllSnoc(adj: Adj, es: seq<Edge>, e: Edge)
    requires EndpointsIn(adj, es) && e.v in adj && e.w in adj
    ensures EndpointsIn(adj, es + [e])
    ensures LinkAll(adj, es + [e]) == Link(LinkAll(adj, es), e)
  {
    assert (es + [e])[..|es|] == es;
  }

  /** `add_edge` over `a` and then over `b` is `add_edge` over `a + b`. */
  lemma {:induction false} LinkAllAppend(adj: Adj, a: seq<Edge>, b: seq<Edge>)
    requires EndpointsIn(adj, a) && EndpointsIn(adj, b)
    ensures EndpointsIn(adj, a + b)
    ensures LinkAll(adj, a + b) == LinkAll(LinkAll(adj, a), b)
    decreases |b|
  {
    if b == [] {
      assert a + b == a;
    } else {
      var b', last := b[..|b| - 1], b[|b| - 1];
      assert b == b' + [last] && a + b == (a + b') + [last];
      assert EndpointsIn(adj, b');
      LinkAllAppend(adj, a, b');
      LinkAllSnoc(adj, a + b', last);
      LinkAllSnoc(LinkAll(adj, a), b', last);
    }
  }

  /** The edges `Edge(v, w)` for each `w` of `ws`, in order. */
  function Fan(v: Vertex, ws: seq<Vertex>): (es: seq<Edge>)
    ensures |es| == |ws| && forall t :: 0 <= t < |ws| ==> es[t] == Edge(v, ws[t])
  {
    seq(|ws|, t requires 0 <= t < |ws| => Edge(v, ws[t]))
  }

  /** The last edge of `es` joining `x` and `y`: the one a sequence of `add_edge`
      calls leaves in their slots. */
  function LastJoining(es: seq<Edge>, x: Vertex, y: Vertex): (r: Option<Edge>)
    ensures r.Some? ==> r.value in es && Joins(r.value, x, y)
    ensures r.None? ==> forall e :: e in es ==> !Joins(e, x, y)
    decreases |es|
  {
    if es == [] then None
    else if Joins(es[|es| - 1], x, y) then Some(es[|es| - 1])
    else LastJoining(es[..|es| - 1], x, y)
  }

  /** No two different edges of `es` join the same two vertices. */
  ghost predicate Unambiguous(es: seq<Edge>)
  {
    forall d, e :: d in es && e in es && Joins(d, e.v, e.w) ==> d == e
  }

  /** After a sequence of `add_edge` calls, a slot holds the last edge joining its
      two vertices, or what it held before when no edge joins them. */
  lemma {:induction false} LinkAllGet(adj: Adj, es: seq<Edge>, x: Vertex, y: Vertex)
    requires EndpointsIn(adj, es)
    ensures Get(LinkAll(adj, es), x, y) ==
            if LastJoining(es, x, y).Some? then LastJoining(es, x, y) else Get(adj, x, y)
    decreases |es|
  {
    if es != [] {
      LinkAllGet(adj, es[..|es| - 1], x, y);
    }
  }

  /** In an unambiguous sequence, the edge an `add_edge` call stores is the one
      its two slots end up holding. */
  lemma {:induction false} LinkAllStores(adj: Adj, es: seq<Edge>, e: Edge)
    requires EndpointsIn(adj, es) && Unambiguous(es) && e in es
    ensures Get(LinkAll(adj, es), e.v, e.w) == Some(e)
    ensures Get(LinkAll(adj, es), e.w, e.v) == Some(e)
  {
    LinkAllGet(adj, es, e.v, e.w);
    LinkAllGet(adj, es, e.w, e.v);
  }

  /** `add_edge` calls never remove a slot. */
  lemma {:induction false} LinkAllKeepsSlots(adj: Adj, es: seq<Edge>, x: Vertex, y: Vertex)
    requires EndpointsIn(adj, es) && Get(adj, x, y).Some?
    ensures Get(LinkAll(adj, es), x, y).Some?
  {
    LinkAllGet(adj, es, x, y);
  }

  /** `add_edge` calls with non-loop edges keep a well-formed graph well-formed. */
  lemma {:induction false} LinkAllKeepsWellFormed(adj: Adj, es: seq<Edge>)
    requires EndpointsIn(adj, es) && WellFormed(adj)
    requires forall e :: e in es ==> e.v != e.w
    ensures WellFormed(LinkAll(adj, es))
    decreases |es|
  {
    if es != [] {
      var init := es[..|es| - 1];
      LinkAllKeepsWellFormed(adj, init);
      LinkKeepsWellFormed(LinkAll(adj, init), es[|es| - 1]);
    }
  }

  /** When the calls overwrite every slot between two vertices that held an edge
      before, `edges()` afterwards is exactly the set of edges added. */
  lemma {:induction false} EdgeSetAfterLinkAll(adj: Adj, es: seq<Edge>)
    requires EndpointsIn(adj, es) && Unambiguous(es)
    requires forall x, y :: x in adj && y in adj && Get(adj, x, y).Some? ==> LastJoining(es, x, y).Some?
    ensures EdgeSet(LinkAll(adj, es)) == set e | e in es
  {
    var r := LinkAll(adj, es);
    forall d | d in EdgeSet(r)
      ensures d in es
    {
      EdgeSetMember(r, d);
      var x, y :| x in r && y in r && Get(r, x, y) == Some(d);
      LinkAllGet(adj, es, x, y);
    }
    forall e | e in es
      ensures e in EdgeSet(r)
    {
      LinkAllStores(adj, es, e);
      EdgeSetMember(r, e);
    }
  }

  /** The vertices that the edges of `es` join to `x`. */
  function Touches(es: seq<Edge>, x: Vertex): (r: set<Vertex>)
    ensures forall y :: y in r <==> exists e :: e in es && Joins(e, x, y)
  {
    (set e | e in es && e.v == x :: e.w) + (set e | e in es && e.w == x :: e.v)
  }

  /** Starting from vertices without neighbours, a sequence of `add_edge` calls
      leaves each vertex with exactly the neighbours its edges join it to. */
  lemma {:induction false} LinkAllBareNeighbours(keys: set<Vertex>, es: seq<Edge>, x: Vertex)
    requires EndpointsIn(Bare(keys), es) && x in keys
    ensures LinkAll(Bare(keys), es)[x].Keys == Touches(es, x)
  {
    var r := LinkAll(Bare(keys), es);
    forall y
      ensures y in r[x] <==> y in Touches(es, x)
    {
      LinkAllGet(Bare(keys), es, x, y);
    }
  }

  /** In oriented storage, the edges around a vertex determine its neighbours:
      `out_edges(x)` has as many distinct edges as `out_vertices(x)` has vertices. */
  lemma OrientedOutEdgesCount(adj: Adj, x: Vertex)
    requires Oriented(adj) && x in adj
    ensures |adj[x].Values| == |adj[x].Keys|
  {
    var m := adj[x];
    forall a, b | a in m && b in m && m[a] == m[b]
      ensures a == b
    {
      assert Get(adj, x, a) == Some(m[a]) && Get(adj, x, b) == Some(m[b]);
    }
    InjectiveValuesCount(m);
  }

  /** A map that sends different keys to different values has as many values as keys. */
  lemma {:induction false} InjectiveValuesCount(m: map<Vertex, Edge>)
    requires forall a, b :: a in m && b in m && m[a] == m[b] ==> a == b
    ensures |m.Values| == |m.Keys|
    decreases |m.Keys|
  {
    if m.Keys != {} {
      var a :| a in m;
      var m' := map b | b in m && b != a :: m[b];
      assert m'.Keys == m.Keys - {a};
      InjectiveValuesCount(m');
      forall e | e in m.Values - {m[a]}
        ensures e in m'.Values
      {
        var b :| b in m && m[b] == e;
        assert m'[b] == e;
      }
      forall e | e in m'.Values
        ensures e in m.Values - {m[a]}
      {
        var b :| b in m' && m'[b] == e;
        assert m[b] == e;
      }
      assert m'.Values == m.Values - {m[a]};
      assert m[a] in m.Values;
    }
  }

  // ---------------------------------------------------------------------------
  // Single dictionary writes, as the methods of the class perform them

  /** `self[x0][y0] = e` changes the one lookup [x0][y0]. */
  lemma WriteGet(adj: Adj, x0: Vertex, y0: Vertex, e: Edge)
    requires x0 in adj
    ensures forall x, y :: Get(adj[x0 := adj[x0][y0 := e]], x, y) ==
                           (if x == x0 && y == y0 then Some(e) else Get(adj, x, y))
  {
    var a := adj[x0 := adj[x0][y0 := e]];
    forall x, y
      ensures Get(a, x, y) == (if x == x0 && y == y0 then Some(e) else Get(adj, x, y))
    {
      if x == x0 {
        assert a[x] == adj[x0][y0 := e];
      }
    }
  }

  /** `del self[x0][y0]` removes the one lookup [x0][y0]. */
  lemma DeleteGet(adj: Adj, x0: Vertex, y0: Vertex)
    requires x0 in adj
    ensures forall x, y :: Get(adj[x0 := adj[x0] - {y0}], x, y) ==
                           (if x == x0 && y == y0 then None else Get(adj, x, y))
  {
    var a := adj[x0 := adj[x0] - {y0}];
    forall x, y
      ensures Get(a, x, y) == (if x == x0 && y == y0 then None else Get(adj, x, y))
    {
      if x == x0 {
        assert a[x] == adj[x0] - {y0};
      }
    }
  }

  /** `self[v] = {}` empties the row of `v` and nothing else. */
  lemma ResetGet(adj: Adj, v: Vertex)
    ensures forall x, y :: Get(adj[v := map[]], x, y) == (if x == v then None else Get(adj, x, y))
  {
    var a := adj[v := map[]];
    forall x, y
      ensures Get(a, x, y) == (if x == v then None else Get(adj, x, y))
    {
      if x == v {
        assert a[x] == map[];
      }
    }
  }

  /** Writing an edge into a slot between its own endpoints keeps storage oriented. */
  lemma WriteKeepsOriented(adj: Adj, x0: Vertex, y0: Vertex, e: Edge)
    requires x0 in adj && Oriented(adj) && Joins(e, x0, y0)
    ensures Oriented(adj[x0 := adj[x0][y0 := e]])
  {
    var a := adj[x0 := adj[x0][y0 := e]];
    WriteGet(adj, x0, y0, e);
    forall x, y | Get(a, x, y).Some?
      ensures Joins(Get(a, x, y).value, x, y)
    {
      if !(x == x0 && y == y0) {
        assert Get(a, x, y) == Get(adj, x, y);
      }
    }
  }

  /** Deleting a slot keeps storage oriented. */
  lemma DeleteKeepsOriented(adj: Adj, x0: Vertex, y0: Vertex)
    requires x0 in adj && Oriented(adj)
    ensures Oriented(adj[x0 := adj[x0] - {y0}])
  {
    var a := adj[x0 := adj[x0] - {y0}];
    DeleteGet(adj, x0, y0);
    forall x, y | Get(a, x, y).Some?
      ensures Joins(Get(a, x, y).value, x, y)
    {
      assert Get(a, x, y) == Get(adj, x, y);
    }
  }

  /** Emptying a row keeps storage oriented. */
  lemma ResetKeepsOriented(adj: Adj, v: Vertex)
    requires Oriented(adj)
    ensures Oriented(adj[v := map[]])
  {
    var a := adj[v := map[]];
    ResetGet(adj, v);
    forall x, y | Get(a, x, y).Some?
      ensures Joins(Get(a, x, y).value, x, y)
    {
      assert Get(a, x, y) == Get(adj, x, y);
    }
  }

  /** The edges stored in the row of `x` are those some lookup from `x` finds. */
  lemma RowValuesMember(adj: Adj, x: Vertex, e: Edge)
    requires x in adj
    ensures e in adj[x].Values <==> exists y :: Get(adj, x, y) == Some(e)
  {
    if e in adj[x].Values {
      var y :| y in adj[x] && adj[x][y] == e;
      assert Get(adj, x, y) == Some(e);
    }
  }
}
