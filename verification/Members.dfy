/** Members of a collection: picking one, telling them apart, counting them. */
module Members {

  lemma OfSet<T>(s: set<T>) returns (x: T)
    requires s != {}
    ensures x in s
  {
    x :| x in s;
  }

  lemma Missing<T>(part: set<T>, whole: set<T>) returns (x: T)
    requires part <= whole && part != whole
    ensures x in whole && x !in part
  {
    x :| x in whole && x !in part;
  }

  lemma IndexOf<T>(s: seq<T>, x: T) returns (i: nat)
    requires x in s
    ensures i < |s| && s[i] == x
  {
    i :| i < |s| && s[i] == x;
  }

  lemma HeadIn<T>(s: seq<T>)
    ensures s == [] || s[0] in s
    ensures |s| < 2 || s[1] in s
  {
  }

  predicate Distinct<T(==)>(s: seq<T>) {
    forall p, q | 0 <= p < q < |s| :: s[p] != s[q]
  }

  lemma {:induction false} DistinctMultiset<T>(s: seq<T>, x: T)
    ensures Distinct(s) ==> multiset(s)[x] <= 1
    decreases s
  {
    if s != [] && Distinct(s) {
      assert s == [s[0]] + s[1..];
      DistinctMultiset(s[1..], x);
      if s[0] == x { assert x !in s[1..]; }
    }
  }

  /** A permutation of distinct elements is distinct. */
  lemma {:induction false} PermutationDistinct<T>(s: seq<T>, r: seq<T>)
    requires multiset(s) == multiset(r) && Distinct(s)
    ensures Distinct(r)
  {
    forall p, q | 0 <= p < q < |r| ensures r[p] != r[q] {
      DistinctMultiset(s, r[p]);
      assert r == r[..q] + [r[q]] + r[q + 1..];
      assert r[..q][p] == r[p];
      assert r[p] in multiset(r[..q]);
    }
  }

  lemma SubsetCount<T>(a: set<T>, b: set<T>)
    requires a <= b
    ensures |a| <= |b|
  {
    assert b == a + (b - a);
  }
}
