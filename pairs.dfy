/**
 `_all_vert_pairs`: every unordered pair of distinct vertices, each once,
 listed by pairing each vertex with every vertex after it in the key order.
 */
module Pairs {
  import opened GraphTypes
  import Adjacency
  import opened Collections

  type Pair = (Vertex, Vertex)

  /** The pairs `(s[i], s[t])` for `i < t < j`, in order of `t`: the inner loop
      over `verts[ix+1:]` stopped before position `j`. */
  function Row(s: seq<Vertex>, i: nat, j: nat): (r: seq<Pair>)
    requires i < |s| && j <= |s|
    ensures |r| == if j <= i + 1 then 0 else j - i - 1
    ensures forall t :: 0 <= t < |r| ==> r[t] == (s[i], s[i + 1 + t])
    decreases j
  {
    if j <= i + 1 then [] else Row(s, i, j - 1) + [(s[i], s[j - 1])]
  }

  /** The pairs contributed by the first `k` vertices of the outer loop. */
  function PairsBefore(s: seq<Vertex>, k: nat): seq<Pair>
    requires k <= |s|
  {
    if k == 0 then [] else PairsBefore(s, k - 1) + Row(s, k - 1, |s|)
  }

  /** `_all_vert_pairs()` over the key order `s`. */
  function AllPairs(s: seq<Vertex>): seq<Pair>
  {
    PairsBefore(s, |s|)
  }

  /** The edges `Edge(v, w)` built from a list of pairs, in the same order. */
  function ToEdges(ps: seq<Pair>): (es: seq<Edge>)
    ensures |es| == |ps|
    ensures forall t :: 0 <= t < |ps| ==> es[t] == Edge(ps[t].0, ps[t].1)
  {
    seq(|ps|, t requires 0 <= t < |ps| => Edge(ps[t].0, ps[t].1))
  }

  /** The first `k` rows hold `k*n - k*(k+1)/2` pairs. */
  lemma {:induction false} PairsBeforeCount(s: seq<Vertex>, k: nat)
    requires k <= |s|
    ensures 2 * |PairsBefore(s, k)| == k * (2 * |s| - k - 1)
  {
    if k > 0 {
      PairsBeforeCount(s, k - 1);
      var n := |s|;
      assert |PairsBefore(s, k)| == |PairsBefore(s, k - 1)| + (n - k);
      assert k * (2 * n - k - 1) == (k - 1) * (2 * n - (k - 1) - 1) + 2 * (n - k);
    }
  }

  /** `_all_vert_pairs` returns n·(n−1)/2 pairs. */
  lemma AllPairsCount(s: seq<Vertex>)
    ensures |AllPairs(s)| == |s| * (|s| - 1) / 2
  {
    PairsBeforeCount(s, |s|);
  }

  /** Row `i` holds exactly the pairs of `s[i]` with a later vertex. */
  lemma RowMember(s: seq<Vertex>, i: nat, p: Pair)
    requires i < |s|
    ensures p in Row(s, i, |s|) <==> exists j :: i < j < |s| && p == (s[i], s[j])
  {
    var row := Row(s, i, |s|);
    if p in row {
      var t :| 0 <= t < |row| && row[t] == p;
      assert p == (s[i], s[i + 1 + t]);
    }
    if exists j :: i < j < |s| && p == (s[i], s[j]) {
      var j :| i < j < |s| && p == (s[i], s[j]);
      assert row[j - i - 1] == p;
    }
  }

  /** Every pair in the first `k` rows is `(s[i], s[j])` for some `i < k` and `i < j`. */
  lemma {:induction false} PairsBeforeSound(s: seq<Vertex>, k: nat, p: Pair)
    requires k <= |s| && p in PairsBefore(s, k)
    ensures exists i, j :: 0 <= i < k && i < j < |s| && p == (s[i], s[j])
  {
    assert k > 0;
    var front, row := PairsBefore(s, k - 1), Row(s, k - 1, |s|);
    assert PairsBefore(s, k) == front + row;
    if p in front {
      PairsBeforeSound(s, k - 1, p);
      var i, j :| 0 <= i < k - 1 && i < j < |s| && p == (s[i], s[j]);
      assert 0 <= i < k && i < j < |s| && p == (s[i], s[j]);
    } else {
      assert p in row;
      RowMember(s, k - 1, p);
      var j :| k - 1 < j < |s| && p == (s[k - 1], s[j]);
      assert 0 <= k - 1 < k && k - 1 < j < |s| && p == (s[k - 1], s[j]);
    }
  }

  /** Every pair `(s[i], s[j])` with `i < k` and `i < j` is in the first `k` rows. */
  lemma {:induction false} PairsBeforeComplete(s: seq<Vertex>, k: nat, i: nat, j: nat)
    requires i < k <= |s| && i < j < |s|
    ensures (s[i], s[j]) in PairsBefore(s, k)
  {
    var front, row := PairsBefore(s, k - 1), Row(s, k - 1, |s|);
    assert PairsBefore(s, k) == front + row;
    if i < k - 1 {
      PairsBeforeComplete(s, k - 1, i, j);
      assert (s[i], s[j]) in front;
    } else {
      assert row[j - i - 1] == (s[i], s[j]);
    }
  }

  /** The first `k` rows hold exactly the pairs `(s[i], s[j])` with `i < k` and `i < j`. */
  lemma PairsBeforeMember(s: seq<Vertex>, k: nat, p: Pair)
    requires k <= |s|
    ensures p in PairsBefore(s, k) <==>
            exists i, j :: 0 <= i < k && i < j < |s| && p == (s[i], s[j])
  {
    if p in PairsBefore(s, k) {
      PairsBeforeSound(s, k, p);
    }
    if exists i, j :: 0 <= i < k && i < j < |s| && p == (s[i], s[j]) {
      var i, j :| 0 <= i < k && i < j < |s| && p == (s[i], s[j]);
      PairsBeforeComplete(s, k, i, j);
    }
  }

  /** A pair is listed exactly when it is `(s[i], s[j])` for positions `i < j`:
      each vertex is paired with every vertex after it. */
  lemma AllPairsMember(s: seq<Vertex>, p: Pair)
    ensures p in AllPairs(s) <==> exists i, j :: 0 <= i < j < |s| && p == (s[i], s[j])
  {
    PairsBeforeMember(s, |s|, p);
  }

  /** Over a duplicate-free key order no pair is listed twice. */
  lemma {:induction false} PairsBeforeDistinct(s: seq<Vertex>, k: nat)
    requires k <= |s| && Distinct(s)
    ensures Distinct(PairsBefore(s, k))
  {
    if k > 0 {
      PairsBeforeDistinct(s, k - 1);
      var front := PairsBefore(s, k - 1);
      var row := Row(s, k - 1, |s|);
      forall a, b | 0 <= a < b < |row|
        ensures row[a] != row[b]
      {
        assert row[a].1 == s[k + a] && row[b].1 == s[k + b];
      }
      forall a, b | 0 <= a < |front| && 0 <= b < |row|
        ensures front[a] != row[b]
      {
        PairsBeforeSound(s, k - 1, front[a]);
        var i, j :| 0 <= i < k - 1 && i < j < |s| && front[a] == (s[i], s[j]);
        assert row[b].0 == s[k - 1];
      }
      ConcatDistinct(front, row);
    }
  }

  /** `_all_vert_pairs` lists each unordered pair of distinct vertices exactly once:
      no pair twice, no pair of a vertex with itself, never both orders of a pair. */
  lemma AllPairsUnique(s: seq<Vertex>)
    requires Distinct(s)
    ensures Distinct(AllPairs(s))
    ensures forall p :: p in AllPairs(s) ==> p.0 != p.1
    ensures forall p :: p in AllPairs(s) ==> (p.1, p.0) !in AllPairs(s)
  {
    PairsBeforeDistinct(s, |s|);
    forall p | p in AllPairs(s)
      ensures p.0 != p.1 && (p.1, p.0) !in AllPairs(s)
    {
      AllPairsMember(s, p);
      AllPairsMember(s, (p.1, p.0));
    }
  }

  /** The edges built from the pairs are all different, and no two of them join
      the same two vertices. */
  lemma AllPairEdgesUnique(s: seq<Vertex>)
    requires Distinct(s)
    ensures Distinct(ToEdges(AllPairs(s)))
    ensures Adjacency.Unambiguous(ToEdges(AllPairs(s)))
    ensures forall e :: e in ToEdges(AllPairs(s)) ==> e.v != e.w
  {
    var ps := AllPairs(s);
    var es := ToEdges(ps);
    AllPairsUnique(s);
    forall d, e | d in es && e in es && Adjacency.Joins(d, e.v, e.w)
      ensures d == e
    {
      var a :| 0 <= a < |es| && es[a] == d;
      var b :| 0 <= b < |es| && es[b] == e;
      assert ps[a] in ps && ps[b] in ps;
    }
    forall e | e in es
      ensures e.v != e.w
    {
      var a :| 0 <= a < |es| && es[a] == e;
      assert ps[a] in ps;
    }
  }

  /** A complete graph on the key order `s` has n·(n−1)/2 distinct edges. */
  lemma AllPairEdgesCount(s: seq<Vertex>)
    requires Distinct(s)
    ensures |set e | e in ToEdges(AllPairs(s))| == |s| * (|s| - 1) / 2
  {
    AllPairEdgesUnique(s);
    DistinctCard(ToEdges(AllPairs(s)));
    AllPairsCount(s);
  }
}
