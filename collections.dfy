/**
 Generic facts about sequences and sets that the graph proofs share.
 */
module Collections {

  /** No element of `q` occurs twice: the key order of a dictionary, a list
      without repeats. */
  predicate Distinct<T(==)>(q: seq<T>)
  {
    forall a, b :: 0 <= a < b < |q| ==> q[a] != q[b]
  }

  /** Two duplicate-free sequences with no element in common concatenate to a
      duplicate-free sequence. */
  lemma ConcatDistinct<T>(x: seq<T>, y: seq<T>)
    requires Distinct(x) && Distinct(y)
    requires forall a, b :: 0 <= a < |x| && 0 <= b < |y| ==> x[a] != y[b]
    ensures Distinct(x + y)
  {
    forall a, b | 0 <= a < b < |x + y|
      ensures (x + y)[a] != (x + y)[b]
    {
      if b < |x| {
        assert (x + y)[a] == x[a] && (x + y)[b] == x[b];
      } else if a >= |x| {
        assert (x + y)[a] == y[a - |x|] && (x + y)[b] == y[b - |x|];
      } else {
        assert (x + y)[a] == x[a] && (x + y)[b] == y[b - |x|];
      }
    }
  }

  /** A duplicate-free sequence has as many distinct elements as it is long. */
  lemma {:induction false} DistinctCard<T>(q: seq<T>)
    requires Distinct(q)
    ensures |set x | x in q| == |q|
  {
    if q != [] {
      var init := q[..|q| - 1];
      assert Distinct(init);
      DistinctCard(init);
      assert (set x | x in q) == (set x | x in init) + {q[|q| - 1]};
      assert q[|q| - 1] !in init;
    }
  }

  /** A subset has no more elements than its superset. */
  lemma {:induction false} SubsetCount<T>(a: set<T>, b: set<T>)
    requires a <= b
    ensures |a| <= |b|
    decreases |b|
  {
    if a != {} {
      var x :| x in a;
      SubsetCount(a - {x}, b - {x});
    }
  }

  /** A prefix one longer is the prefix followed by the next element. */
  lemma TakeOneMore<T>(s: seq<T>, i: nat)
    requires i < |s|
    ensures s[..i + 1] == s[..i] + [s[i]]
  {
  }
}
