/**
 Stable sorting, as JavaScript's Array.prototype.sort promises it, and the one fact about
 sorted sequences the canonical forms rest on: for an antisymmetric order a sorted sequence is
 determined by its elements.
 */
module Sorting {
  import Members

  ghost predicate TotalPreorder<T(!new)>(le: (T, T) -> bool) {
    && (forall x, y :: le(x, y) || le(y, x))
    && (forall x, y, z :: le(x, y) && le(y, z) ==> le(x, z))
  }

  ghost predicate SortedBy<T>(le: (T, T) -> bool, s: seq<T>) {
    forall i, j | 0 <= i < j < |s| :: le(s[i], s[j])
  }

  /** No two different elements of `s` tie. */
  ghost predicate NoTies<T>(le: (T, T) -> bool, s: seq<T>) {
    forall x, y | x in s && y in s && le(x, y) && le(y, x) :: x == y
  }

  /** Inserts `x` before the first element it does not exceed, so earlier input stays first. */
  function Insert<T>(le: (T, T) -> bool, x: T, s: seq<T>): seq<T> {
    if s == [] then [x]
    else if le(x, s[0]) then [x] + s
    else [s[0]] + Insert(le, x, s[1..])
  }

  function Sort<T>(le: (T, T) -> bool, s: seq<T>): seq<T> {
    if s == [] then [] else Insert(le, s[0], Sort(le, s[1..]))
  }

  lemma {:induction false} InsertKeeps<T>(le: (T, T) -> bool, x: T, s: seq<T>)
    ensures multiset(Insert(le, x, s)) == multiset(s) + multiset{x}
    ensures |Insert(le, x, s)| == |s| + 1
    ensures forall y :: y in Insert(le, x, s) <==> y == x || y in s
  {
    if s == [] {
    } else if le(x, s[0]) {
    } else {
      InsertKeeps(le, x, s[1..]);
      assert s == [s[0]] + s[1..];
    }
  }

  lemma {:induction false} InsertSorts<T(!new)>(le: (T, T) -> bool, x: T, s: seq<T>)
    requires TotalPreorder(le) && SortedBy(le, s)
    ensures SortedBy(le, Insert(le, x, s))
  {
    if s == [] {
    } else if le(x, s[0]) {
      var r := [x] + s;
      forall i, j | 0 <= i < j < |r| ensures le(r[i], r[j]) {
        if i == 0 && j > 1 { assert le(s[0], s[j - 1]); }
      }
    } else {
      InsertSorts(le, x, s[1..]);
      InsertKeeps(le, x, s[1..]);
      var t := Insert(le, x, s[1..]);
      forall j | 0 <= j < |t| ensures le(s[0], t[j]) {
        assert t[j] in t;
        if t[j] != x {
          var k :| 0 <= k < |s[1..]| && s[1..][k] == t[j];
          assert t[j] == s[k + 1];
        }
      }
    }
  }

  /** Sorting permutes its input and orders it. */
  lemma {:induction false} SortSpec<T(!new)>(le: (T, T) -> bool, s: seq<T>)
    requires TotalPreorder(le)
    ensures multiset(Sort(le, s)) == multiset(s)
    ensures |Sort(le, s)| == |s|
    ensures SortedBy(le, Sort(le, s))
    ensures forall y :: y in Sort(le, s) <==> y in s
  {
    if s != [] {
      SortSpec(le, s[1..]);
      SortStep(le, s[0], s[1..], Sort(le, s[1..]));
      assert s == [s[0]] + s[1..];
    }
  }

  lemma SortStep<T(!new)>(le: (T, T) -> bool, x: T, rest: seq<T>, sorted: seq<T>)
    requires TotalPreorder(le) && SortedBy(le, sorted)
    requires multiset(sorted) == multiset(rest) && |sorted| == |rest| && forall y :: y in sorted <==> y in rest
    ensures var (s, r) := ([x] + rest, Insert(le, x, sorted));
            && multiset(r) == multiset(s) && |r| == |s| && SortedBy(le, r)
            && forall y :: y in r <==> y in s
  {
    InsertKeeps(le, x, sorted);
    InsertSorts(le, x, sorted);
  }

  /** Two sorted arrangements of the same tie-free elements are the same sequence. */
  lemma {:induction false} SortedUnique<T>(le: (T, T) -> bool, a: seq<T>, b: seq<T>)
    requires SortedBy(le, a) && SortedBy(le, b) && NoTies(le, a)
    requires multiset(a) == multiset(b)
    ensures a == b
  {
    assert |multiset(a)| == |a| && |multiset(b)| == |b|;
    if a != [] {
      SameHead(le, a, b);
      assert a == [a[0]] + a[1..] && b == [b[0]] + b[1..];
      assert multiset(a[1..]) == multiset(a) - multiset{a[0]};
      assert multiset(b[1..]) == multiset(b) - multiset{b[0]};
      assert forall x | x in a[1..] :: x in a;
      assert SortedBy(le, a[1..]) && SortedBy(le, b[1..]);
      SortedUnique(le, a[1..], b[1..]);
    }
  }

  lemma SameHead<T>(le: (T, T) -> bool, a: seq<T>, b: seq<T>)
    requires SortedBy(le, a) && SortedBy(le, b) && NoTies(le, a)
    requires |a| == |b| > 0 && multiset(a) == multiset(b)
    ensures a[0] == b[0]
  {
    assert a[0] in multiset(b) && b[0] in multiset(a);
    var i :| 0 <= i < |b| && b[i] == a[0];
    var j :| 0 <= j < |a| && a[j] == b[0];
    if i != 0 && j != 0 {
      assert le(a[0], a[j]) && le(b[0], b[i]);
    }
  }

  /** Sorting forgets the arrangement of its input, and only that. */
  lemma {:induction false} SortDecides<T(!new)>(le: (T, T) -> bool, a: seq<T>, b: seq<T>)
    requires TotalPreorder(le) && NoTies(le, a)
    ensures Sort(le, a) == Sort(le, b) <==> multiset(a) == multiset(b)
  {
    SortSpec(le, a);
    SortSpec(le, b);
    if multiset(a) == multiset(b) {
      SortedUnique(le, Sort(le, a), Sort(le, b));
    }
  }

  // ---- Stability ----

  ghost predicate ComesBefore<T>(s: seq<T>, x: T, y: T) {
    exists i, j :: 0 <= i < j < |s| && s[i] == x && s[j] == y
  }

  lemma BeforeInTail<T>(h: T, s: seq<T>, x: T, y: T)
    requires ComesBefore(s, x, y)
    ensures ComesBefore([h] + s, x, y)
  {
    var i, j :| 0 <= i < j < |s| && s[i] == x && s[j] == y;
    var r := [h] + s;
    assert r[i + 1] == x && r[j + 1] == y;
  }

  lemma HeadBefore<T>(h: T, s: seq<T>, y: T)
    requires y in s
    ensures ComesBefore([h] + s, h, y)
  {
    var j :| 0 <= j < |s| && s[j] == y;
    var r := [h] + s;
    assert r[0] == h && r[j + 1] == y;
  }

  lemma {:induction false} InsertGoesBefore<T>(le: (T, T) -> bool, x: T, s: seq<T>, y: T)
    requires le(x, y) && y in s
    ensures ComesBefore(Insert(le, x, s), x, y)
  {
    if le(x, s[0]) {
      HeadBefore(x, s, y);
    } else {
      assert s == [s[0]] + s[1..];
      InsertGoesBefore(le, x, s[1..], y);
      BeforeInTail(s[0], Insert(le, x, s[1..]), x, y);
    }
  }

  lemma {:induction false} InsertKeepsBefore<T>(le: (T, T) -> bool, h: T, s: seq<T>, x: T, y: T)
    requires ComesBefore(s, x, y)
    ensures ComesBefore(Insert(le, h, s), x, y)
  {
    if le(h, s[0]) {
      BeforeInTail(h, s, x, y);
    } else {
      var rest := Insert(le, h, s[1..]);
      InsertKeeps(le, h, s[1..]);
      var i, j :| 0 <= i < j < |s| && s[i] == x && s[j] == y;
      assert s[1..][j - 1] == y;
      if i == 0 {
        HeadBefore(s[0], rest, y);
      } else {
        assert s[1..][i - 1] == x;
        InsertKeepsBefore(le, h, s[1..], x, y);
        BeforeInTail(s[0], rest, x, y);
      }
    }
  }

  /** A stable sort leaves two elements that are already in order as they stand. */
  lemma {:induction false} SortKeepsBefore<T(!new)>(le: (T, T) -> bool, s: seq<T>, x: T, y: T)
    requires TotalPreorder(le) && le(x, y) && ComesBefore(s, x, y)
    ensures ComesBefore(Sort(le, s), x, y)
  {
    var i, j :| 0 <= i < j < |s| && s[i] == x && s[j] == y;
    var rest := Sort(le, s[1..]);
    SortSpec(le, s[1..]);
    assert s[1..][j - 1] == y;
    if i == 0 {
      InsertGoesBefore(le, x, rest, y);
    } else {
      assert s[1..][i - 1] == x;
      SortKeepsBefore(le, s[1..], x, y);
      InsertKeepsBefore(le, s[0], rest, x, y);
    }
  }

  lemma BeforeOneWay<T>(s: seq<T>, x: T, y: T)
    requires Members.Distinct(s) && ComesBefore(s, x, y)
    ensures !ComesBefore(s, y, x)
  {
  }
}
