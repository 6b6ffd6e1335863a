/**
 ORDER BY ... LIMIT over rows named by an integer id, under a two-column key with the id as
 the last tie-break (so the order is always strict and total).
 */
module Ranking {
  import Members

  type Key = int -> (int, int)

  predicate Before(k: Key, x: int, y: int) {
    || k(x).0 < k(y).0
    || (k(x).0 == k(y).0 && (k(x).1 < k(y).1 || (k(x).1 == k(y).1 && x < y)))
  }

  ghost predicate IsFirst(k: Key, s: set<int>, x: int) {
    x in s && forall y | y in s && y != x :: Before(k, x, y)
  }

  lemma {:induction false} FirstExists(k: Key, s: set<int>) returns (x: int)
    requires s != {}
    ensures IsFirst(k, s, x)
  {
    var z := Members.OfSet(s);
    if s == {z} {
      x := z;
    } else {
      var y := FirstExists(k, s - {z});
      x := if Before(k, z, y) then z else y;
      assert forall w | w in s && w != z :: w in s - {z};
    }
  }

  ghost function First(k: Key, s: set<int>): (x: int)
    requires s != {}
    ensures IsFirst(k, s, x)
  {
    assert exists x :: IsFirst(k, s, x) by { var x := FirstExists(k, s); }
    var x :| IsFirst(k, s, x);
    x
  }

  /** The rows in key order. */
  ghost function OrderBy(k: Key, s: set<int>): (r: seq<int>)
    ensures |r| == |s|
    ensures forall x :: x in r <==> x in s
    ensures forall i, j | 0 <= i < j < |r| :: Before(k, r[i], r[j])
  {
    if s == {} then [] else
      var x := First(k, s);
      [x] + OrderBy(k, s - {x})
  }

  /** The first `n` rows in key order. */
  ghost function Limit(k: Key, s: set<int>, n: nat): (r: seq<int>)
    ensures |r| == if |s| < n then |s| else n
    ensures forall x | x in r :: x in s
    ensures forall i, j | 0 <= i < j < |r| :: Before(k, r[i], r[j])
  {
    var all := OrderBy(k, s);
    all[..if |all| < n then |all| else n]
  }

  /** A row that is left out comes after every row that was kept. */
  lemma LimitCut(k: Key, s: set<int>, n: nat, x: int)
    requires x in s && x !in Limit(k, s, n)
    ensures |Limit(k, s, n)| == n && forall y | y in Limit(k, s, n) :: Before(k, y, x)
  {
    var all := OrderBy(k, s);
    var m := if |all| < n then |all| else n;
    assert x in all;
    assert forall j | 0 <= j < m :: all[..m][j] == all[j];
    var i := Members.IndexOf(all, x);
    forall y | y in all[..m] ensures Before(k, y, x) {
      var j := Members.IndexOf(all[..m], y);
      assert all[j] == y;
    }
  }

  /**
   Looking only at part of a table is enough for its first `n` rows: the part must come first in
   the order, and hold at least `n` rows or be everything.
   */
  lemma {:induction false} LimitOfInitialPart(k: Key, part: set<int>, whole: set<int>, n: nat)
    requires part <= whole
    requires forall x, y | x in part && y in whole - part :: Before(k, x, y)
    requires part == whole || |part| >= n
    ensures Limit(k, part, n) == Limit(k, whole, n)
    decreases n
  {
    if part != whole && n > 0 {
      var x := First(k, part);
      FirstIsFirst(k, whole, x);
      LimitOfInitialPart(k, part - {x}, whole - {x}, n - 1);
      LimitFirst(k, part, n);
      LimitFirst(k, whole, n);
    }
  }

  lemma FirstIsFirst(k: Key, s: set<int>, x: int)
    requires IsFirst(k, s, x)
    ensures First(k, s) == x
  {
    assert First(k, s) == x || Before(k, First(k, s), x);
  }

  lemma LimitFirst(k: Key, s: set<int>, n: nat)
    requires s != {} && n > 0
    ensures Limit(k, s, n) == [First(k, s)] + Limit(k, s - {First(k, s)}, n - 1)
  {
    var x := First(k, s);
    var rest := OrderBy(k, s - {x});
    assert OrderBy(k, s) == [x] + rest;
  }

  lemma FirstSelected(k: Key, s: set<int>, n: nat, x: int)
    requires IsFirst(k, s, x) && n > 0
    ensures x in Limit(k, s, n)
  {
    FirstIsFirst(k, s, x);
    LimitFirst(k, s, n);
  }

  ghost predicate AgreeOn(k: Key, k': Key, s: set<int>) {
    forall x | x in s :: k(x) == k'(x)
  }

  /** Only the keys of the rows themselves matter. */
  lemma {:induction false} OrderByAgrees(k: Key, k': Key, s: set<int>)
    requires AgreeOn(k, k', s)
    ensures OrderBy(k, s) == OrderBy(k', s)
    decreases s
  {
    if s != {} {
      var x := First(k, s);
      assert IsFirst(k', s, x);
      FirstIsFirst(k', s, x);
      OrderByAgrees(k, k', s - {x});
    }
  }

  /** `LimitOfInitialPart` when the part is ordered by a key that agrees with the whole's on it. */
  lemma LimitsAgree(k: Key, k': Key, part: set<int>, whole: set<int>, n: nat)
    requires AgreeOn(k, k', part) && part <= whole
    requires forall x, y | x in part && y in whole - part :: Before(k', x, y)
    requires part == whole || |part| >= n
    ensures Limit(k, part, n) == Limit(k', whole, n)
  {
    OrderByAgrees(k, k', part);
    LimitOfInitialPart(k', part, whole, n);
  }
}
