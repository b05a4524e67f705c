# Adjacency-map graph, modelled in Dafny

This project models the `Graph` class of `Graph.py` and the `add_random_edges`
method of its `RandomGraph` subclass.

The graph is a dictionary from each vertex to an inner dictionary from neighbour
to the `Edge` joining the two. The model keeps that shape:

- class `Graph.Graph` has a field `adj: map<Vertex, map<Vertex, Edge>>` that its
  methods update in place;
- a second field `verts: seq<Vertex>` is the dictionary's key order
  (`self.keys()`), which the code relies on for pair enumeration, the ring
  layout of the regular builder and the start of the breadth-first search.

A vertex is compared by identity only, so it is an opaque id. An `Edge` is an
ordered pair: tuple equality is order-sensitive.

The modules follow the program:

| file | module | what it holds |
|---|---|---|
| `graph_types.dfy` | `GraphTypes` | `Vertex`, `Edge` and `Edge(*vs)`; the errors `KeyError`, `ValueError`, `AssertionError`; `Result` and `Outcome` |
| `adjacency.dfy` | `Adjacency` | the dictionary as a value: lookups, one `add_edge` (`Link`), one `remove_edge` (`Unlink`), a sequence of `add_edge` calls (`LinkAll`), `edges()` as a set, and the storage invariants (every slot holds an edge between its two vertices, both slots of a pair agree, no self-loops) |
| `pairs.dfy` | `Pairs` | `_all_vert_pairs` as a specification |
| `collections.dfy` | `Collections` | generic facts about duplicate-free sequences and set sizes shared by the proofs |
| `reach.dfy` | `Reach` | paths and reachability through the neighbour maps |
| `regular.dfy` | `Regular` | the edge list `add_regular_edges` builds, its inner `neighbors` loop, and the neighbour count of every vertex |
| `graph.dfy` | `Graph` | class `Graph`: every method of the core |
| `complete.dfy` | `Complete` | what `add_all_edges` leaves: the complete graph |
| `random_graph.dfy` | `RandomGraph` | `add_random_edges` with the draws of `random.random()` passed in |

Every mutator keeps `Graph.Valid()`. It holds in every state the code can
reach, including after an `add_edge` or `remove_edge` that raised half-way:

- the keys are exactly `verts`, each once;
- every slot `[x][y]` holds `Edge(x, y)` or `Edge(y, x)`.

The stronger `WellFormed` adds that the two slots of a pair hold the same edge
and that there are no self-loops. `add_vertex` of an existing vertex, and an
`add_edge` that raises part-way, can break it, and the model proves both.

Errors are modelled, not excluded by preconditions. A missing key gives
`KeyError`, a failed `assert` in `add_regular_edges` gives `AssertionError`, and
the partial writes the code leaves behind are stated.

`add_regular_edges` is modelled as the code is written. Its name, the comment
`# k*n is even` on its first assertion (Graph.py:125), the comment `# kay is odd
and we can't cut it in half` (Graph.py:147) and the closing
`assert len(self.out_vertices(v)) == kay` (Graph.py:150-151) all ask for a graph
in which every vertex has degree `k`. The inner `neighbors` loop, however, never
advances `offset` (it is only wrapped at the last position), so each vertex is
joined only to its successor, `k / 2` times over, plus the vertex half-way round
for odd `k`; its degree is `min(k, 2 + k % 2)`. Starting from well-formed storage
(every entry's reverse entry present, no self-loops), and when the three opening
assertions hold, the closing degree assertion therefore holds exactly when
`k <= 3`; the model follows the code.

## Model

| member | source | states |
|---|---|---|
| GraphTypes.MakeEdge | Graph.py:31-35 | `Edge(*vs)` succeeds exactly when two vertices are given and keeps them in the given order; otherwise ValueError |
| GraphTypes.MakeEdgeRoundTrip | Graph.py:31-35 | building an edge from its own endpoints gives the same edge back |
| GraphTypes.EdgeOrderMatters | Graph.py:28-35 | `Edge(a, b)` and `Edge(b, a)` differ for distinct `a`, `b`: tuple equality respects order |
| Adjacency.Get | Graph.py:79-84 | `get_edge(v, w)`: the edge stored at `self[v][w]`, or None when either lookup raises KeyError; every contract reads the dictionary through it |
| Adjacency.WellFormed | Graph.py:46-77 | the storage the class comment describes and `add_edge` between two distinct vertices keeps: each slot holds an edge between its two vertices, the reverse slot holds the same edge, and no vertex is its own neighbour |
| Adjacency.Bare | Graph.py:65-67 | vertices that each have an empty neighbour map: edgeless and well-formed |
| Adjacency.Link | Graph.py:69-77 | one `add_edge(e)`: both slots of `e`'s pair hold `e`, and every other slot is unchanged |
| Adjacency.CanUnlink | Graph.py:86-90 | `remove_edge(e)` gets past both `del`s: `[v][w]` and `[w][v]` are present and `v != w` (for a loop the second `del` raises KeyError) |
| Adjacency.Unlink | Graph.py:86-90 | one `remove_edge(e)`: both slots of `e`'s pair are gone, and every other slot is unchanged |
| Adjacency.LinkKeepsWellFormed | Graph.py:69-77 | `add_edge` of a non-loop between two vertices keeps storage symmetric, oriented and loop-free, replacing any earlier edge of the pair |
| Adjacency.UnlinkKeepsWellFormed | Graph.py:86-90 | `remove_edge` keeps storage well-formed |
| Adjacency.LinkThenUnlink | Graph.py:69-90 | `remove_edge(e)` right after `add_edge(e)` on an unconnected pair restores the earlier maps, and `get_edge` then finds nothing either way |
| Adjacency.ReAddBreaksSymmetry | Graph.py:65-67 | re-adding a vertex that has a neighbour wipes its own map but not the neighbour's entry for it, so storage is no longer symmetric |
| Adjacency.AddFreshVertexKeepsWellFormed | Graph.py:65-67 | adding a new vertex keeps storage well-formed |
| Adjacency.PartialLinkDangles | Graph.py:75-77 | when `v` is a vertex and `w` is not, the `[v][w]` write that precedes the KeyError leaves a neighbour that is not a vertex |
| Adjacency.WriteKeepsOriented | Graph.py:76-77 | one slot write of an edge between its two vertices keeps every slot oriented |
| Adjacency.DeleteKeepsOriented | Graph.py:89-90 | one slot deletion keeps every slot oriented |
| Adjacency.ResetKeepsOriented | Graph.py:67 | `self[v] = {}` keeps every slot oriented |
| Adjacency.EdgeSet | Graph.py:95-102 | `edges()`: the set of edges found by looking up every ordered pair of vertices |
| Adjacency.EdgeSetEndpoints | Graph.py:95-102 | in oriented storage every edge `edges()` lists joins two vertices |
| Adjacency.EdgeSetMember | Graph.py:95-102 | an edge is listed by `edges()` exactly when some slot between two vertices holds it |
| Adjacency.EmptyEdgeSetIsEdgeless | Graph.py:95-102 | when every neighbour is a vertex, `edges()` is empty exactly when no vertex has a neighbour |
| Adjacency.UnlinkShrinksEdgeSet | Graph.py:86-90 | `remove_edge(e)` takes `e` out of `edges()` and adds nothing |
| Adjacency.UnlinkListedEdge | Graph.py:86-90 | in well-formed storage, `remove_edge` of a listed edge succeeds and removes exactly that edge from `edges()` |
| Adjacency.LinkAll | Graph.py:62-63 | a sequence of `add_edge` calls in order, one `Link` per edge; the vertex set stays the same |
| Adjacency.LinkAllSnoc | Graph.py:62-63 | one more `add_edge` after a sequence of them is one more `Link` |
| Adjacency.LinkAllAppend | Graph.py:62-63 | `add_edge` over `a` and then over `b` is `add_edge` over `a + b` |
| Adjacency.LinkAllGet | Graph.py:62-63 | after a sequence of `add_edge` calls, a slot holds the last edge joining its two vertices, or its old content if none does |
| Adjacency.LinkAllStores | Graph.py:62-63 | when no two edges of the sequence join the same pair, each edge ends up in both of its slots |
| Adjacency.LinkAllKeepsSlots | Graph.py:118-122 | a sequence of `add_edge` calls overwrites slots but never removes one |
| Adjacency.LinkAllKeepsWellFormed | Graph.py:62-63 | a sequence of `add_edge` calls without loops keeps storage well-formed |
| Adjacency.EdgeSetAfterLinkAll | Graph.py:95-102 | when every slot already filled is overwritten, `edges()` afterwards is exactly the set of added edges |
| Adjacency.LinkAllBareNeighbours | Graph.py:104-105 | starting from empty neighbour maps, a vertex's neighbours are exactly the vertices some added edge joins it to |
| Adjacency.Fan | Graph.py:145-146 | the edges of `for neighbor in neighbors(verts, ix): add_edge(Edge(v, neighbor))`: one `Edge(v, w)` per listed neighbour, in order |
| Adjacency.OrientedOutEdgesCount | Graph.py:107-108 | `out_edges(v)` has as many distinct edges as `v` has neighbours |
| Pairs.PairsBefore | Graph.py:110-115 | the pairs the outer loop of `_all_vert_pairs` has appended after its first `k` passes |
| Pairs.AllPairs | Graph.py:110-116 | the list `_all_vert_pairs()` returns: all `n` passes |
| Pairs.ToEdges | Graph.py:119-121 | the `Edge(v, w)` built for each pair `(v, w)`, in the same order and as many (also RandomGraph.py:15) |
| Pairs.Row | Graph.py:114-115 | the inner loop pairs `verts[ix]` with each later vertex, in order |
| Pairs.PairsBeforeCount | Graph.py:112-115 | the first `k` passes of the outer loop produce `k·(2n−k−1)/2` pairs |
| Pairs.AllPairsCount | Graph.py:110-116 | `_all_vert_pairs` returns n·(n−1)/2 pairs |
| Pairs.RowMember | Graph.py:114-115 | a pair is in row `i` exactly when it is `verts[i]` with a later vertex |
| Pairs.PairsBeforeSound | Graph.py:112-115 | every pair of the first `k` passes is `(verts[i], verts[j])` with `i < k` and `i < j` |
| Pairs.PairsBeforeComplete | Graph.py:112-115 | every such pair is produced by the first `k` passes |
| Pairs.PairsBeforeMember | Graph.py:112-115 | both directions together |
| Pairs.AllPairsMember | Graph.py:110-116 | a pair is listed exactly when it is `(verts[i], verts[j])` with `i < j`: the earlier vertex first |
| Pairs.PairsBeforeDistinct | Graph.py:112-115 | over duplicate-free keys no pair is produced twice |
| Pairs.AllPairsUnique | Graph.py:110-116 | each unordered pair of distinct vertices is listed once: no repeats, no self-pairs, never both orders |
| Pairs.AllPairEdgesUnique | Graph.py:118-121 | the edges built from the pairs are all different, none is a loop, and no two join the same vertices |
| Pairs.AllPairEdgesCount | Graph.py:118-122 | those edges are n·(n−1)/2 distinct values |
| Reach.Reachable | Graph.py:153-167 | what the breadth-first search of `is_connected` explores: `b` is reached from `a` by following neighbour entries |
| Reach.ChainReaches | Graph.py:161-166 | a walk along a sequence of vertices, each a neighbour of the one before, reaches every vertex of the sequence from its first |
| Reach.ReachableSelf | Graph.py:159-160 | the start vertex is reached by the empty walk |
| Reach.ReachableStep | Graph.py:162-166 | a neighbour of a reached vertex is reached |
| Reach.ClosedSetHoldsReachable | Graph.py:161-166 | a set holding the start and closed under neighbours holds every reachable vertex |
| Reach.ClosedReachesVertices | Graph.py:162-164 | when every neighbour is a vertex, only vertices are reachable |
| Reach.EdgelessReachesOnlySelf | Graph.py:153-167 | with no neighbour entries, a vertex reaches no other vertex |
| Reach.CompleteReachesAll | Graph.py:153-167 | when every two distinct vertices are joined, every vertex reaches every other |
| Regular.Succ | Graph.py:137-140 | the index `neighbors` reads, `ix + offset` with `offset` 1, wrapped by `len(verts)` at the end of the list; always a valid index |
| Regular.Opposite | Graph.py:148 | the index of `verts[ix-len(verts)/2]` after Python's negative-index wrap; always a valid index |
| Regular.Pred | Graph.py:138-140 | the ring position before `ix`, whose successor is `ix` |
| Regular.PyIndex | Graph.py:148 | a list index in `[-n, n)` wraps as in Python to a position in `[0, n)` |
| Regular.Neighbors | Graph.py:133-142 | `neighbors(verts, ix)` as written returns `k / 2` copies of the successor of `ix`, since `offset` is never advanced, only wrapped; none when `k / 2 <= 0` |
| Regular.RowEdges | Graph.py:144-148 | the `add_edge` calls of one pass of the outer loop: `k / 2` edges to the successor, plus the edge half-way round for odd `k` |
| Regular.RegularPrefix | Graph.py:144-148 | the `add_edge` calls of the first `m` passes, in order |
| Regular.RegularEdges | Graph.py:144-148 | every `add_edge` call of the construction, in order |
| Regular.EvenRowEdges | Graph.py:144-146 | for even `k`, the edges added for `verts[ix]` are the fan over `neighbors(verts, ix)` |
| Regular.OddRowEdges | Graph.py:144-148 | for odd `k`, that fan is followed by the edge to `verts[ix - n/2]` |
| Regular.RegularPrefixMember | Graph.py:144-148 | an edge is added for the first `m` vertices exactly when one of their rows has it |
| Regular.RegularEdgesInside | Graph.py:144-148 | every added edge joins two vertices |
| Regular.RegularEdgesNoLoops | Graph.py:125-148 | under the three asserted preconditions no added edge is a loop |
| Regular.OddFactorParity | Graph.py:125 | for odd `k`, `k·n` has the parity of `n` |
| Regular.OddDegreeEvenOrder | Graph.py:125 | for odd `k`, the parity assertion forces an even number of vertices |
| Regular.OppositeInvolutive | Graph.py:148 | on an even ring, the position half-way round of the position half-way round is the start |
| Regular.RingPositionsApart | Graph.py:140-148 | on three or more positions the successor and predecessor differ, and on an even ring of four or more the opposite differs from both |
| Regular.Expected | Graph.py:144-148 | the neighbours the construction gives `verts[i]`: its successor and predecessor when `k / 2 > 0`, and the vertex half-way round when `k` is odd |
| Regular.JoinedIsExpected | Graph.py:144-148 | every vertex joined to `verts[i]` is its successor, its predecessor (`k >= 2`) or its opposite (odd `k`) |
| Regular.ExpectedIsJoined | Graph.py:144-148 | each of those is joined to `verts[i]` |
| Regular.RegularNeighbours | Graph.py:144-148 | the neighbours of `verts[i]` are exactly those vertices |
| Regular.ExpectedCount | Graph.py:144-151 | there are `k` of them for `k <= 3`, and `2 + k % 2` for larger `k` |
| Regular.RegularDegree | Graph.py:144-151 | every vertex ends with `k` neighbours for `k <= 3` and with `2 + k % 2` otherwise |
| Graph.Graph.Valid | Graph.py:46-52 | the storage invariant every method keeps: the keys are exactly the vertices, each once, and every stored edge joins the two vertices it is stored under |
| Graph.Graph.constructor | Graph.py:54-63 | `Graph()` with no arguments has no vertices |
| Graph.Graph.Init | Graph.py:54-63 | `__init__(vs, es)` makes the vertices `vs`; it succeeds exactly when every edge joins two of them, and then the maps are those of the edges added in order; otherwise KeyError |
| Graph.Graph.AddVertex | Graph.py:65-67 | `v` gets an empty map, other entries are untouched, and a new key goes to the end of the key order |
| Graph.Graph.AddEdge | Graph.py:69-77 | succeeds exactly when both endpoints are vertices, and then is one `Link`; KeyError with no change when `v` is missing; KeyError after writing `[v][w]` when only `w` is missing |
| Graph.Graph.GetEdge | Graph.py:79-84 | never raises; None exactly when `v` is not a vertex or has no entry for `w`; a found edge joins `v` and `w`, and in symmetric storage the reverse lookup finds the same edge |
| Graph.Graph.RemoveEdge | Graph.py:86-90 | succeeds exactly when both slots exist and `e` is not a loop, and then is one `Unlink`; KeyError with no change when `[v][w]` is missing; KeyError after deleting `[v][w]` when `[w][v]` is missing |
| Graph.Graph.Vertices | Graph.py:92-93 | the keys in key order, each once |
| Graph.Graph.Edges | Graph.py:95-102 | the nested loop over all ordered pairs of vertices collects exactly the edges held in slots between two vertices |
| Graph.Graph.EdgesFrom | Graph.py:98-101 | the inner loop of `edges()` collects exactly the edges found by `get_edge(v, w)` over every vertex `w` |
| Graph.EdgesAmongAll | Graph.py:95-102 | looking up every vertex against every vertex finds exactly `edges()` |
| Graph.Graph.OutVertices | Graph.py:104-105 | the neighbours of `v`; KeyError when `v` is not a vertex |
| Graph.Graph.OutEdges | Graph.py:107-108 | the edges in `v`'s map, one per neighbour; KeyError when `v` is not a vertex |
| Graph.Graph.AllVertPairs | Graph.py:110-116 | the nested loop returns `_all_vert_pairs`: n·(n−1)/2 pairs, exactly the `(verts[i], verts[j])` with `i < j` |
| Graph.Graph.PairsFrom | Graph.py:114-115 | the inner loop of `_all_vert_pairs` returns `(verts[ix], w)` for every later `w`, in order |
| Graph.Graph.AddAllEdges | Graph.py:118-122 | the maps afterwards are the old maps with one `add_edge` per pair, in order; nothing is removed |
| Complete.PairEdges | Graph.py:118-122 | the `Edge(v, w)` written for each pair of `_all_vert_pairs`, in order: n·(n−1)/2 of them |
| Complete.PairEdgesCover | Graph.py:118-122 | every two distinct vertices are joined by one of the added edges |
| Complete.AllPairsStored | Graph.py:118-122 | after `add_all_edges` the edge of each pair is in both of its slots |
| Complete.AllKeysJoined | Graph.py:118-122 | after `add_all_edges` every two distinct vertices are joined |
| Complete.AllEdgesListed | Graph.py:118-122 | from loop-free storage, `edges()` afterwards is exactly the set of pair edges |
| Complete.AllEdgesComplete | Graph.py:118-122 | from well-formed storage: still well-formed, every pair joined both ways by its own edge, n·(n−1)/2 edges, and every vertex reaches every other |
| Graph.Graph.ClearEdges | Graph.py:128-129 | `for edge in self.edges(): self.remove_edge(edge)`: afterwards `edges()` is empty; every entry left is one that was there before, and every entry to a non-vertex survives; from well-formed storage it never raises and leaves every map empty |
| Graph.RemovalKeepsOthers | Graph.py:86-90 | a `remove_edge` of an edge between two vertices, finished or stopped after its first `del`, only removes entries, and none to a non-vertex |
| Graph.Graph.AddRegularEdges | Graph.py:124-151 | a failed precondition assertion raises AssertionError and changes nothing; from well-formed storage the maps are those of the construction's edges, the call succeeds when `k <= 3`, and otherwise the closing degree assertion raises AssertionError |
| Graph.Graph.LinkRegular | Graph.py:144-151 | the rows of edges in key order, then the degree assertion, which passes exactly when every vertex has `k` neighbours |
| Graph.Graph.AddRows | Graph.py:144-148 | the outer loop adds the construction's edges row by row, in key order, and keeps the storage invariant |
| Graph.Graph.AddRowEdges | Graph.py:144-148 | one pass of the outer loop adds that row's edges |
| Graph.Graph.AddEdgesFrom | Graph.py:145-146 | `add_edge(Edge(v, neighbor))` for each listed neighbour, in order |
| Graph.AllDegrees | Graph.py:150-151 | what the closing assertion loop demands: every vertex is a key with exactly `k` neighbours |
| Graph.Graph.DegreesAre | Graph.py:150-151 | the assertion loop passes exactly when every vertex has `k` neighbours |
| Graph.RowStep | Graph.py:144-148 | one row's fan and, for odd `k`, the opposite edge, added after the earlier rows, give the maps of one more row |
| Graph.RegularDegreesHold | Graph.py:144-151 | built on empty neighbour maps, every vertex has exactly `k` neighbours precisely when `k <= 3` |
| Graph.SuccJoined | Graph.py:137-146 | for `k >= 2`, each vertex is joined to the next vertex in the key order |
| Graph.RegularConnected | Graph.py:144-167 | for `k >= 2`, the construction on edgeless vertices is well-formed, reaches every vertex from `verts[0]` and reaches nothing else: the graph is connected |
| Graph.RingIsConnected | Graph.py:124-167 | on a well-formed graph of at least three vertices, `add_regular_edges(2)` succeeds and `is_connected()` then returns True |
| Graph.Graph.IsConnected | Graph.py:153-167 | True without vertices; KeyError exactly when something that is not a vertex is reachable from `verts[0]` through the neighbour maps; otherwise True exactly when every vertex is reachable from `verts[0]`; at most n vertices leave the queue |
| Graph.Graph.Search | Graph.py:157-166 | the search loop fails only when some reachable neighbour is not a vertex; otherwise the marked vertices are all reachable and closed under neighbours, and no more than `n` vertices leave the queue |
| Graph.Graph.VisitNeighbours | Graph.py:162-166 | marks and enqueues every unvisited neighbour of the popped vertex, each once, or raises KeyError on a neighbour that is not a vertex |
| Graph.SearchComplete | Graph.py:161-167 | once the queue is empty, the visited vertices are exactly the reachable ones, so `all(visited.values())` says whether every vertex is reachable |
| Graph.PopKeepsQueued | Graph.py:161-162 | taking the head off the queue leaves each other queued vertex queued once |
| Graph.DoneCount | Graph.py:161-167 | no more vertices leave the queue than there are vertices |
| RandomGraph.Chosen | RandomGraph.py:13-15 | the `add_edge` calls: no more than there are pairs |
| RandomGraph.ChosenStep | RandomGraph.py:13-15 | each pair consumes one draw, in order, and adds its edge exactly when the draw is below `prob` |
| RandomGraph.ChosenMember | RandomGraph.py:13-15 | an edge is added exactly when it is built from a pair whose draw is below `prob` |
| RandomGraph.ChosenNone | RandomGraph.py:14 | when no draw is below `prob`, nothing is added |
| RandomGraph.ChosenAll | RandomGraph.py:14 | when every draw is below `prob`, every pair's edge is added |
| RandomGraph.ChosenInPairEdges | RandomGraph.py:13-15 | every added edge is one `add_all_edges` would add |
| RandomGraph.ChosenEndpoints | RandomGraph.py:13-15 | every added edge joins two vertices |
| RandomGraph.ChosenUnique | RandomGraph.py:13-15 | no added edge is a loop and no two join the same vertices |
| RandomGraph.UnitDraws | RandomGraph.py:14 | the numbers `random.random()` returns lie in [0, 1) |
| RandomGraph.RandomAdj | RandomGraph.py:8-15 | the maps built from empty neighbour maps keep the vertex set |
| RandomGraph.RandomEdges | RandomGraph.py:13-15 | the result is well-formed, `edges()` is exactly the added edges, and there are at most n·(n−1)/2 of them |
| RandomGraph.RandomJoins | RandomGraph.py:13-15 | the `t`-th pair is joined, both ways and by `Edge(v, w)` with the earlier vertex first, exactly when the `t`-th draw is below `prob` |
| RandomGraph.NeverJoined | RandomGraph.py:9-14 | with draws in [0, 1) and `prob <= 0` the graph is left edgeless |
| RandomGraph.AlwaysJoined | RandomGraph.py:9-14 | with draws in [0, 1) and `prob >= 1` the result is the complete graph `add_all_edges` builds |
| RandomGraph.NeverConnected | RandomGraph.py:9-14 | with `prob <= 0` no vertex reaches another |
| RandomGraph.AlwaysConnected | RandomGraph.py:9-14 | with `prob >= 1` every vertex reaches every other |
| RandomGraph.AddRandomEdges | RandomGraph.py:8-15 | the vertex set is unchanged; after a successful removal loop the maps are the cleared maps with the chosen edges added; from well-formed storage it never raises and gives `RandomAdj` |
| RandomGraph.AddChosen | RandomGraph.py:13-15 | the second loop adds the chosen edges, in pair order |

## Left out

- `Count.py` is not part of this model: it is a lazy digit generator unrelated to the graph.
- `labels(n)`, `main` and the `__main__` demos (Graph.py:169-204, RandomGraph.py:23-34) are left out: name generation, console I/O and drawing.
- `proportion_connected` (RandomGraph.py:17-21) is left out: it uses undefined names and never calls `add_random_edges`.
- `Vertex.__repr__` and `Edge.__repr__` are left out: they only format labels. Vertex labels play no part, since vertices compare by identity.
- `random.random()` is not modelled: the numbers it returns are the `draws` parameter, one per pair. `UnitDraws` states that they lie in [0, 1). No probability distribution is modelled.
- Python 2 dictionary order is hash-based. The model fixes one order instead: a key goes to the end of `verts` when first added and keeps its place when re-added.
- `Graph.Graph.AddRegularEdges`: takes `k` as an integer. The `int(kay) == kay` check for a non-integral number is not modelled, and floating-point `k` is not either.
- `Graph.Graph.AddRegularEdges`: from storage that is not well-formed, the result is stated only through `Valid()` and the degree assertion, not as an exact map.
- `RandomGraph.AddRandomEdges`: from storage that is not well-formed, the cleared maps are stated only to have no listed edges, not to be empty.
- `Graph.Graph.Init`: when an edge raises KeyError, the contract states the vertex set and `Valid()`, not which earlier edges were added.
- `Graph.Graph.OutVertices`: returns a set; the Python 2 list order of the inner dictionary is not modelled.
- `Graph.Graph.OutEdges`: returns the set of edges in `v`'s map, with its size; the list order is not modelled.
- `Graph.Graph.ClearEdges`: removes the edges in an unspecified order, as set iteration does.
- `Graph.Graph.IsConnected`: the neighbours of a popped vertex are taken in an unspecified order, as inner-dictionary iteration does; the result does not depend on it. `pops` is a ghost count of vertices taken off the queue.
- Each bulk operation except `Graph.Graph.AddAllEdges` is modelled as a method whose loop calls `AddEdge` or `RemoveEdge`; `Graph.Graph.AddAllEdges` writes both slots of each pair directly, as `add_all_edges` does (Graph.py:121-122). Its contract states the resulting maps as a value (`LinkAll`, `Bare`) rather than the order of the intermediate writes.
