/**
 The entities of the graph: vertices, edges, and the errors the graph
 operations raise.

 A vertex has no equality of its own beyond identity, so it is modelled as an
 opaque identifier. An edge is a 2-tuple of vertices; tuple equality is
 order-sensitive, so `Edge(a, b)` and `Edge(b, a)` are different values.
 */
module GraphTypes {

  /** A vertex, compared by identity only: an opaque id (its label plays no part). */
  datatype Vertex = Vertex(id: nat)

  /** An edge: the ordered pair of its two endpoints, in the order given. */
  datatype Edge = Edge(v: Vertex, w: Vertex)

  /** The exceptions the core raises. */
  datatype Error =
    | KeyError        // a vertex or neighbour entry is missing
    | ValueError      // an edge built from other than two vertices
    | AssertionError  // a failed `assert` in the regular-graph builder

  datatype Option<T> = None | Some(value: T)

  datatype Result<T> = Ok(value: T) | Err(error: Error)

  /** The outcome of an operation that returns nothing but may raise. */
  datatype Outcome = Pass | Fail(error: Error)

  /** The endpoints of an edge, as the tuple `Edge(*vs)` was built from. */
  function Endpoints(e: Edge): (vs: seq<Vertex>)
    ensures |vs| == 2 && vs[0] == e.v && vs[1] == e.w
  {
    [e.v, e.w]
  }

  /** `Edge(*vs)`: succeeds exactly when two vertices are given, keeping their order. */
  function MakeEdge(vs: seq<Vertex>): (r: Result<Edge>)
    ensures r.Ok? <==> |vs| == 2
    ensures r.Ok? ==> Endpoints(r.value) == vs
    ensures r.Err? ==> r.error == ValueError
  {
    if |vs| != 2 then Err(ValueError) else Ok(Edge(vs[0], vs[1]))
  }

  /** Building an edge from its own endpoints gives the edge back. */
  lemma MakeEdgeRoundTrip(e: Edge)
    ensures MakeEdge(Endpoints(e)) == Ok(e)
  {
  }

  /** Two edges are equal only when their endpoints agree in order. */
  lemma EdgeOrderMatters(a: Vertex, b: Vertex)
    requires a != b
    ensures MakeEdge([a, b]) != MakeEdge([b, a])
  {
  }
}
