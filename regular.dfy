/**
 The edges `add_regular_edges(k)` adds, as the code is written.

 Its local helper `neighbors(verts, ix)` starts `offset` at 1 and never
 advances it, so every one of the `k / 2` "neighbours" it returns is the same
 vertex, the successor of `verts[ix]` in the key order. For odd `k` each vertex
 is also joined to the vertex `len(verts) / 2` places before it, with Python's
 wrap-around of negative list indices. The resulting degree is therefore
 `min(k, 2 + k % 2)`, which equals `k` only for `k <= 3`.
 */
module Regular {
  import opened GraphTypes
  import opened Collections
  import opened Adjacency

  /** The index `neighbors` reads: `ix + offset` with `offset` equal to 1, less `n`
      once `ix + 1` runs past the end. */
  function Succ(ix: nat, n: nat): (j: nat)
    requires ix < n
    ensures j < n
  {
    if ix + 1 >= n then ix + 1 - n else ix + 1
  }

  /** The index `Succ` comes from. */
  function Pred(ix: nat, n: nat): (j: nat)
    requires ix < n
    ensures j < n && Succ(j, n) == ix
  {
    if ix == 0 then n - 1 else ix - 1
  }

  /** Python's list indexing for `-n <= i < n`: a negative index counts from the end. */
  function PyIndex(i: int, n: nat): (j: nat)
    requires -(n as int) <= i < n
    ensures j < n && (j == i || j == i + n)
  {
    if i < 0 then i + n else i
  }

  /** The index of `verts[ix - len(verts)/2]`: the vertex half-way round. */
  function Opposite(ix: nat, n: nat): (j: nat)
    requires ix < n
    ensures j < n
  {
    PyIndex(ix - n / 2, n)
  }

  /** `c` copies of `x`. */
  function Repeat<T>(x: T, c: nat): (r: seq<T>)
    ensures |r| == c && forall t :: 0 <= t < c ==> r[t] == x
  {
    seq(c, _ => x)
  }

  /** The local helper `neighbors(verts, ix)`: a counter-driven loop whose
      `offset` is never advanced, so all `nn` entries are the successor. */
  method Neighbors(verts: seq<Vertex>, ix: nat, nn: int) returns (r: seq<Vertex>)
    requires ix < |verts|
    ensures r == Repeat(verts[Succ(ix, |verts|)], if nn > 0 then nn else 0)
  {
    var n := |verts|;
    r := [];
    var c := nn;
    var offset := 1;
    while c > 0
      invariant offset == 1 || (offset == 1 - n && ix + 1 >= n)
      invariant c <= 0 ==> |r| == (if nn > 0 then nn else 0)
      invariant c > 0 ==> |r| == nn - c
      invariant forall t :: 0 <= t < |r| ==> r[t] == verts[Succ(ix, n)]
    {
      if ix + offset >= n {
        offset := offset - n;
      }
      r := r + [verts[ix + offset]];
      c := c - 1;
    }
  }

  /** The edges added for the vertex at position `ix`, in the order of the calls:
      `k / 2` copies of the edge to its successor, then, for odd `k`, the edge to
      the vertex half-way round. */
  function RowEdges(s: seq<Vertex>, k: nat, ix: nat): seq<Edge>
    requires ix < |s|
  {
    Repeat(Edge(s[ix], s[Succ(ix, |s|)]), k / 2)
    + if (k / 2) * 2 != k then [Edge(s[ix], s[Opposite(ix, |s|)])] else []
  }

  /** For even `k`, the edges of one row are the fan over `neighbors(verts, ix)`. */
  lemma EvenRowEdges(s: seq<Vertex>, k: nat, ix: nat, nbrs: seq<Vertex>)
    requires ix < |s| && nbrs == Repeat(s[Succ(ix, |s|)], k / 2) && (k / 2) * 2 == k
    ensures RegularPrefix(s, k, ix + 1) == RegularPrefix(s, k, ix) + Fan(s[ix], nbrs)
  {
    assert Fan(s[ix], nbrs) == Repeat(Edge(s[ix], s[Succ(ix, |s|)]), k / 2);
  }

  /** For odd `k`, the edges of one row are the fan over `neighbors(verts, ix)`
      followed by the edge half-way round. */
  lemma OddRowEdges(s: seq<Vertex>, k: nat, ix: nat, nbrs: seq<Vertex>)
    requires ix < |s| && nbrs == Repeat(s[Succ(ix, |s|)], k / 2) && (k / 2) * 2 != k
    ensures RegularPrefix(s, k, ix + 1) ==
            (RegularPrefix(s, k, ix) + Fan(s[ix], nbrs)) + [Edge(s[ix], s[Opposite(ix, |s|)])]
  {
    assert Fan(s[ix], nbrs) == Repeat(Edge(s[ix], s[Succ(ix, |s|)]), k / 2);
  }

  /** The edges added for the first `m` vertices. */
  function RegularPrefix(s: seq<Vertex>, k: nat, m: nat): seq<Edge>
    requires m <= |s|
  {
    if m == 0 then [] else RegularPrefix(s, k, m - 1) + RowEdges(s, k, m - 1)
  }

  /** Every `add_edge` call of the construction, in order. */
  function RegularEdges(s: seq<Vertex>, k: nat): seq<Edge>
  {
    RegularPrefix(s, k, |s|)
  }

  /** `e` is one of the edges the construction adds for position `i`. */
  predicate RowHas(s: seq<Vertex>, k: nat, i: nat, e: Edge)
    requires i < |s|
  {
    (k / 2 > 0 && e == Edge(s[i], s[Succ(i, |s|)]))
    || (k % 2 == 1 && e == Edge(s[i], s[Opposite(i, |s|)]))
  }

  /** The edges added for the first `m` positions are those `RowHas` names. */
  lemma {:induction false} RegularPrefixMember(s: seq<Vertex>, k: nat, m: nat, e: Edge)
    requires m <= |s|
    ensures e in RegularPrefix(s, k, m) <==> exists i :: 0 <= i < m && RowHas(s, k, i, e)
  {
    if m > 0 {
      RegularPrefixMember(s, k, m - 1, e);
      var row := RowEdges(s, k, m - 1);
      assert RegularPrefix(s, k, m) == RegularPrefix(s, k, m - 1) + row;
      if RowHas(s, k, m - 1, e) {
        if k / 2 > 0 {
          if e == Edge(s[m - 1], s[Succ(m - 1, |s|)]) {
            assert row[0] == e;
          } else {
            assert row[|row| - 1] == e;
          }
        } else {
          assert row[|row| - 1] == e;
        }
      }
    }
  }

  /** Every edge of the construction has both endpoints in the key order. */
  lemma RegularEdgesInside(s: seq<Vertex>, k: nat, e: Edge)
    requires e in RegularEdges(s, k)
    ensures e.v in s && e.w in s
  {
    RegularPrefixMember(s, k, |s|, e);
  }

  /** With `k < n` and `k*n` even, no edge of the construction is a self-loop. */
  lemma RegularEdgesNoLoops(s: seq<Vertex>, k: nat, e: Edge)
    requires Distinct(s) && k < |s| && (k * |s|) % 2 == 0
    requires e in RegularEdges(s, k)
    ensures e.v != e.w
  {
    RegularPrefixMember(s, k, |s|, e);
    var i :| 0 <= i < |s| && RowHas(s, k, i, e);
    if k % 2 == 1 {
      OddDegreeEvenOrder(k, |s|);
    }
  }

  /** An odd `k` with `k*n` even forces an even `n`. */
  lemma OddDegreeEvenOrder(k: nat, n: nat)
    requires k % 2 == 1 && (k * n) % 2 == 0
    ensures n % 2 == 0
  {
    OddFactorParity(k, n);
  }

  /** Multiplying by an odd number keeps the parity. */
  lemma OddFactorParity(k: nat, n: nat)
    requires k % 2 == 1
    ensures (k * n) % 2 == n % 2
  {
    var a := k / 2;
    assert k == 2 * a + 1;
    assert k * n == 2 * (a * n) + n;
  }

  /** For even `n`, going half-way round twice comes back. */
  lemma OppositeInvolutive(i: nat, n: nat)
    requires i < n && n % 2 == 0
    ensures Opposite(Opposite(i, n), n) == i
  {
  }

  /** The neighbours the construction gives the vertex at position `i`: its
      successor and predecessor once `k >= 2`, and for odd `k` the vertex half-way round. */
  function Expected(s: seq<Vertex>, k: nat, i: nat): set<Vertex>
    requires i < |s|
  {
    (if k / 2 > 0 then {s[Succ(i, |s|)], s[Pred(i, |s|)]} else {})
    + (if k % 2 == 1 then {s[Opposite(i, |s|)]} else {})
  }

  /** Every vertex joined to `s[i]` by the construction is one it expects. */
  lemma {:induction false} JoinedIsExpected(s: seq<Vertex>, k: nat, i: nat, y: Vertex)
    requires Distinct(s) && k < |s| && (k * |s|) % 2 == 0 && i < |s|
    requires y in Touches(RegularEdges(s, k), s[i])
    ensures y in Expected(s, k, i)
  {
    var n := |s|;
    var e :| e in RegularEdges(s, k) && Joins(e, s[i], y);
    RegularPrefixMember(s, k, n, e);
    var j :| 0 <= j < n && RowHas(s, k, j, e);
    if e.v == s[i] && e.w == y {
      assert j == i;
    } else if k / 2 > 0 && e == Edge(s[j], s[Succ(j, n)]) {
      assert Succ(j, n) == i;
      assert j == Pred(i, n);
    } else {
      OddDegreeEvenOrder(k, n);
      assert Opposite(j, n) == i;
      OppositeInvolutive(j, n);
    }
  }

  /** Every vertex `s[i]` expects is joined to it by the construction. */
  lemma {:induction false} ExpectedIsJoined(s: seq<Vertex>, k: nat, i: nat, y: Vertex)
    requires i < |s| && y in Expected(s, k, i)
    ensures y in Touches(RegularEdges(s, k), s[i])
  {
    var n := |s|;
    if k / 2 > 0 && y == s[Succ(i, n)] {
      assert RowHas(s, k, i, Edge(s[i], y));
      RegularPrefixMember(s, k, n, Edge(s[i], y));
    } else if k / 2 > 0 && y == s[Pred(i, n)] {
      assert RowHas(s, k, Pred(i, n), Edge(y, s[i]));
      RegularPrefixMember(s, k, n, Edge(y, s[i]));
    } else {
      assert RowHas(s, k, i, Edge(s[i], y));
      RegularPrefixMember(s, k, n, Edge(s[i], y));
    }
  }

  /** The vertex at position `i` is joined to exactly its successor, its
      predecessor (for `k >= 2`) and the vertex half-way round (for odd `k`). */
  lemma RegularNeighbours(s: seq<Vertex>, k: nat, i: nat)
    requires Distinct(s) && k < |s| && (k * |s|) % 2 == 0 && i < |s|
    ensures Touches(RegularEdges(s, k), s[i]) == Expected(s, k, i)
  {
    forall y | y in Touches(RegularEdges(s, k), s[i])
      ensures y in Expected(s, k, i)
    {
      JoinedIsExpected(s, k, i, y);
    }
    forall y | y in Expected(s, k, i)
      ensures y in Touches(RegularEdges(s, k), s[i])
    {
      ExpectedIsJoined(s, k, i, y);
    }
  }

  /** On a ring of at least three positions, the successor and the predecessor
      differ; on an even ring of at least four, the position half-way round is
      neither of them. */
  lemma RingPositionsApart(i: nat, n: nat)
    requires i < n && n >= 3
    ensures Succ(i, n) != Pred(i, n)
    ensures n % 2 == 0 && n >= 4 ==> Opposite(i, n) != Succ(i, n) && Opposite(i, n) != Pred(i, n)
  {
  }

  /** How many neighbours each vertex ends up with: `k` for `k <= 3`, and for
      larger `k` only 2 (even `k`) or 3 (odd `k`). */
  lemma {:induction false} RegularDegree(s: seq<Vertex>, k: nat, i: nat)
    requires Distinct(s) && k < |s| && (k * |s|) % 2 == 0 && i < |s|
    ensures |Touches(RegularEdges(s, k), s[i])| == if k <= 3 then k else 2 + k % 2
  {
    RegularNeighbours(s, k, i);
    ExpectedCount(s, k, i);
  }

  /** Distinct positions on the ring hold distinct vertices, so the vertex at
      position `i` expects `min(k, 2 + k % 2)` neighbours. */
  lemma ExpectedCount(s: seq<Vertex>, k: nat, i: nat)
    requires Distinct(s) && k < |s| && (k * |s|) % 2 == 0 && i < |s|
    ensures |Expected(s, k, i)| == if k <= 3 then k else 2 + k % 2
  {
    var n := |s|;
    if k % 2 == 1 {
      OddDegreeEvenOrder(k, n);
    }
    if k / 2 == 0 {
      assert Expected(s, k, i) == if k % 2 == 1 then {s[Opposite(i, n)]} else {};
    } else {
      RingPositionsApart(i, n);
      var a, b := s[Succ(i, n)], s[Pred(i, n)];
      assert a != b;
      if k % 2 == 1 {
        var c := s[Opposite(i, n)];
        assert c != a && c != b;
        assert Expected(s, k, i) == {a, b} + {c};
      } else {
        assert Expected(s, k, i) == {a, b};
      }
    }
  }

}
