/**
 The lineage shown with a memory (packages/db/src/memory-history-queries.ts and
 memory-history-read.ts): a bounded walk over revision edges, the nodes and edges kept of it, and
 the graph facts the two bounds of 25 rely on.

 Memories are named by integers in the order of their ids.
 */
module Lineage {
  import opened Ranking
  import Members

  datatype EdgeType = Supersedes | Updates | Other(name: string)

  datatype Edge = Edge(fromId: int, toId: int, edgeType: EdgeType, createdAt: int)

  /** One user's memories with their creation times, and their edges by edge id. */
  datatype Graph = Graph(createdAt: map<int, int>, edges: map<int, Edge>)

  const NODE_LIMIT: nat := 25
  const EDGE_LIMIT: nat := 50

  /** The foreign keys of memory_edges. */
  ghost predicate WellFormed(g: Graph) {
    forall e | e in g.edges :: g.edges[e].fromId in g.createdAt && g.edges[e].toId in g.createdAt
  }

  predicate IsRevision(e: Edge) {
    e.edgeType.Supersedes? || e.edgeType.Updates?
  }

  predicate Joins(e: Edge, x: int, y: int) {
    IsRevision(e) && ((e.fromId == x && e.toId == y) || (e.toId == x && e.fromId == y))
  }

  ghost predicate Adjacent(g: Graph, x: int, y: int) {
    exists e | e in g.edges :: Joins(g.edges[e], x, y)
  }

  // ---- The recursive query ----

  /** A row of the walk is extended along a revision edge to a memory not yet on its path. */
  ghost predicate StepsTo(g: Graph, p: seq<int>, y: int) {
    p != [] && Adjacent(g, p[|p| - 1], y) && y !in p
  }

  /** The paths of the rows the walk holds at one depth. */
  ghost function WalkAt(g: Graph, seed: int, depth: nat): set<seq<int>> {
    if depth == 0 then (if seed in g.createdAt then {[seed]} else {})
    else
      set p, y | p in WalkAt(g, seed, depth - 1) && y in g.createdAt.Keys && StepsTo(g, p, y) :: p + [y]
  }

  ghost predicate ReachedAt(g: Graph, seed: int, x: int, depth: nat) {
    exists p | p in WalkAt(g, seed, depth) :: p != [] && p[|p| - 1] == x
  }

  /** The ids the deduplicated walk holds: the walk stops growing at the node limit. */
  ghost function Found(g: Graph, seed: int): set<int> {
    set x | x in g.createdAt.Keys && exists d: nat :: d <= NODE_LIMIT && ReachedAt(g, seed, x, d)
  }

  ghost predicate IsMinDepth(g: Graph, seed: int, x: int, d: nat) {
    d <= NODE_LIMIT && ReachedAt(g, seed, x, d) && forall e: nat | e < d :: !ReachedAt(g, seed, x, e)
  }

  ghost function MinDepth(g: Graph, seed: int, x: int): int {
    if d: nat :| IsMinDepth(g, seed, x, d) then d else -1
  }

  ghost function DepthKey(g: Graph, seed: int): Key {
    x => (MinDepth(g, seed, x), 0)
  }

  ghost function CreatedKey(g: Graph, seed: int): Key {
    x => (MinDepth(g, seed, x), if x in g.createdAt then g.createdAt[x] else 0)
  }

  ghost function Ids(s: seq<int>): set<int> {
    set x | x in s
  }

  ghost function NodeSelection(g: Graph, seed: int): seq<int> {
    Limit(DepthKey(g, seed), Found(g, seed), NODE_LIMIT + 1)
  }

  /** `readLineageNodes`: the first 26 by depth and id, listed by depth, creation time and id. */
  ghost function ReadLineageNodes(g: Graph, seed: int): seq<int> {
    OrderBy(CreatedKey(g, seed), Ids(NodeSelection(g, seed)))
  }

  ghost function EdgeKey(g: Graph): Key {
    e => (if e in g.edges then g.edges[e].createdAt else 0, 0)
  }

  ghost function InducedEdges(g: Graph, nodes: seq<int>): set<int> {
    set e | e in g.edges.Keys && IsRevision(g.edges[e]) && g.edges[e].fromId in nodes && g.edges[e].toId in nodes
  }

  ghost function ReadLineageEdges(g: Graph, nodes: seq<int>): seq<int> {
    Limit(EdgeKey(g), InducedEdges(g, nodes), EDGE_LIMIT + 1)
  }

  function Slice(s: seq<int>, n: nat): seq<int> {
    if |s| <= n then s else s[..n]
  }

  /** Of 26 rows, the last listed is dropped. */
  ghost function KeptNodes(g: Graph, seed: int): seq<int> {
    Slice(ReadLineageNodes(g, seed), NODE_LIMIT)
  }

  datatype View = View(nodes: seq<int>, edges: seq<int>, truncated: bool)

  /** `readLineageGroup`, as far as the lineage goes. */
  ghost function ReadLineage(g: Graph, seed: int): View {
    var nodeRows := ReadLineageNodes(g, seed);
    var nodes := KeptNodes(g, seed);
    var edgeRows := ReadLineageEdges(g, nodes);
    View(nodes, Slice(edgeRows, EDGE_LIMIT), |nodeRows| > NODE_LIMIT || |edgeRows| > EDGE_LIMIT)
  }

  // ---- Distance in the whole graph ----

  /** A walk along revision edges, in either direction, free to revisit. */
  ghost predicate IsWalk(g: Graph, p: seq<int>) {
    p != [] && forall i | 0 <= i < |p| - 1 :: Adjacent(g, p[i], p[i + 1])
  }

  ghost predicate WalkTo(g: Graph, seed: int, x: int, p: seq<int>) {
    IsWalk(g, p) && p[0] == seed && p[|p| - 1] == x
  }

  ghost predicate Within(g: Graph, seed: int, x: int, n: nat) {
    exists p :: WalkTo(g, seed, x, p) && |p| == n + 1
  }

  ghost predicate IsDistance(g: Graph, seed: int, x: int, d: nat) {
    Within(g, seed, x, d) && forall e: nat | e < d :: !Within(g, seed, x, e)
  }

  /** The memories joined to the inspected one by any number of revision edges. */
  ghost function Component(g: Graph, seed: int): set<int> {
    set x | x in g.createdAt.Keys && exists d: nat :: IsDistance(g, seed, x, d)
  }

  ghost function Distance(g: Graph, seed: int, x: int): int {
    if d: nat :| IsDistance(g, seed, x, d) then d else -1
  }

  ghost function DistanceKey(g: Graph, seed: int): Key {
    x => (Distance(g, seed, x), 0)
  }

  ghost function Nearest(g: Graph, seed: int): seq<int> {
    Limit(DistanceKey(g, seed), Component(g, seed), NODE_LIMIT + 1)
  }

  // ---- The walk measures distance ----

  lemma DistanceUnique(g: Graph, seed: int, x: int, d: nat, e: nat)
    requires IsDistance(g, seed, x, d) && IsDistance(g, seed, x, e)
    ensures d == e
  {
  }

  lemma {:induction false} DistanceExists(g: Graph, seed: int, x: int, n: nat) returns (d: nat)
    requires Within(g, seed, x, n)
    ensures d <= n && IsDistance(g, seed, x, d)
  {
    if e: nat :| e < n && Within(g, seed, x, e) {
      d := DistanceExists(g, seed, x, e);
    } else {
      d := n;
    }
  }

  /** A shortest walk visits no memory twice: a repeat could be cut out. */
  lemma ShortestIsSimple(g: Graph, seed: int, x: int, p: seq<int>)
    requires WalkTo(g, seed, x, p) && IsDistance(g, seed, x, |p| - 1)
    ensures Members.Distinct(p)
  {
    forall i, j | 0 <= i < j < |p| ensures p[i] != p[j] {
      CutOut(g, seed, x, p, i, j);
    }
  }

  lemma CutOut(g: Graph, seed: int, x: int, p: seq<int>, i: nat, j: nat)
    requires WalkTo(g, seed, x, p) && i < j < |p|
    ensures p[i] == p[j] ==> Within(g, seed, x, |p| - 1 - (j - i))
  {
    if p[i] == p[j] {
      var q := p[..i] + p[j..];
      forall k | 0 <= k < |q| - 1 ensures Adjacent(g, q[k], q[k + 1]) {
        assert Adjacent(g, p[if k < i then k else k + j - i], p[if k < i then k + 1 else k + j - i + 1]);
      }
      assert WalkTo(g, seed, x, q);
    }
  }

  lemma AdjacentInGraph(g: Graph, x: int, y: int)
    requires WellFormed(g) && Adjacent(g, x, y)
    ensures x in g.createdAt && y in g.createdAt && Adjacent(g, y, x)
  {
    var e :| e in g.edges && Joins(g.edges[e], x, y);
    assert Joins(g.edges[e], y, x);
  }

  ghost predicate SimpleWalk(g: Graph, seed: int, p: seq<int>) {
    IsWalk(g, p) && p[0] == seed && Members.Distinct(p)
  }

  lemma SimpleWalkSteps(g: Graph, seed: int, q: seq<int>, y: int)
    requires q != []
    ensures SimpleWalk(g, seed, q + [y]) <==> SimpleWalk(g, seed, q) && StepsTo(g, q, y)
  {
    var p, n := q + [y], |q|;
    assert forall i | 0 <= i < n :: p[i] == q[i];
    if SimpleWalk(g, seed, p) {
      assert Adjacent(g, p[n - 1], p[n]);
      forall i | 0 <= i < n - 1 ensures Adjacent(g, q[i], q[i + 1]) {
        assert Adjacent(g, p[i], p[i + 1]);
      }
    }
    if SimpleWalk(g, seed, q) && StepsTo(g, q, y) {
      forall i | 0 <= i < n ensures Adjacent(g, p[i], p[i + 1]) {
        if i < n - 1 { assert Adjacent(g, q[i], q[i + 1]); }
      }
    }
  }

  /** The walk's rows at a depth are exactly the simple walks of that length. */
  lemma {:induction false} WalkRows(g: Graph, seed: int, depth: nat, p: seq<int>)
    requires WellFormed(g) && seed in g.createdAt
    ensures p in WalkAt(g, seed, depth) <==> |p| == depth + 1 && SimpleWalk(g, seed, p)
  {
    if depth > 0 && |p| > 1 {
      var q, y := p[..|p| - 1], p[|p| - 1];
      assert p == q + [y];
      WalkRows(g, seed, depth - 1, q);
      SimpleWalkSteps(g, seed, q, y);
      if StepsTo(g, q, y) { AdjacentInGraph(g, q[|q| - 1], y); }
      LastStep(g, seed, depth, q, y);
    }
    if depth > 0 && |p| <= 1 { RowsAreLong(g, seed, depth, p); }
    if depth == 0 && |p| == 1 { assert p == [p[0]]; }
  }

  lemma LastStep(g: Graph, seed: int, depth: nat, q: seq<int>, y: int)
    requires depth > 0
    ensures q + [y] in WalkAt(g, seed, depth)
       <==> q in WalkAt(g, seed, depth - 1) && y in g.createdAt && StepsTo(g, q, y)
  {
    if q + [y] in WalkAt(g, seed, depth) {
      var q', y' :| q' in WalkAt(g, seed, depth - 1) && y' in g.createdAt && StepsTo(g, q', y') && q + [y] == q' + [y'];
      SameEnds(q, y, q', y');
    }
  }

  lemma RowsAreLong(g: Graph, seed: int, depth: nat, p: seq<int>)
    requires depth > 0 && |p| <= 1
    ensures p !in WalkAt(g, seed, depth)
  {
    forall q, y | StepsTo(g, q, y) ensures p != q + [y] {}
  }

  lemma SameEnds(q: seq<int>, y: int, q': seq<int>, y': int)
    requires q + [y] == q' + [y']
    ensures q == q' && y == y'
  {
    assert (q + [y])[..|q|] == q && (q' + [y'])[..|q'|] == q';
    assert (q + [y])[|q|] == y && (q' + [y'])[|q'|] == y';
  }

  lemma ReachedIsWithin(g: Graph, seed: int, x: int, d: nat)
    requires WellFormed(g) && seed in g.createdAt && ReachedAt(g, seed, x, d)
    ensures Within(g, seed, x, d)
  {
    var p :| p in WalkAt(g, seed, d) && p != [] && p[|p| - 1] == x;
    WalkRows(g, seed, d, p);
    assert WalkTo(g, seed, x, p);
  }

  lemma DistanceIsReached(g: Graph, seed: int, x: int, d: nat)
    requires WellFormed(g) && seed in g.createdAt && IsDistance(g, seed, x, d)
    ensures ReachedAt(g, seed, x, d)
  {
    var p :| WalkTo(g, seed, x, p) && |p| == d + 1;
    ShortestIsSimple(g, seed, x, p);
    WalkRows(g, seed, d, p);
  }

  /** The least depth the walk gives a memory is its distance, up to the bound. */
  lemma MinDepthIsDistance(g: Graph, seed: int, x: int, d: nat)
    requires WellFormed(g) && seed in g.createdAt
    ensures IsMinDepth(g, seed, x, d) <==> d <= NODE_LIMIT && IsDistance(g, seed, x, d)
  {
    if IsMinDepth(g, seed, x, d) {
      ReachedIsWithin(g, seed, x, d);
      var e := DistanceExists(g, seed, x, d);
      DistanceIsReached(g, seed, x, e);
    }
    if IsDistance(g, seed, x, d) {
      DistanceIsReached(g, seed, x, d);
      forall e: nat | e < d ensures !ReachedAt(g, seed, x, e) {
        if ReachedAt(g, seed, x, e) { ReachedIsWithin(g, seed, x, e); }
      }
    }
  }

  /** What the walk finds is the component up to distance 25, each memory at its distance. */
  lemma FoundIsNearPart(g: Graph, seed: int, x: int)
    requires WellFormed(g) && seed in g.createdAt
    ensures x in Found(g, seed) <==> x in Component(g, seed) && Distance(g, seed, x) <= NODE_LIMIT
    ensures x in Found(g, seed) ==> MinDepth(g, seed, x) == Distance(g, seed, x)
  {
    if x in Found(g, seed) {
      var n: nat :| n <= NODE_LIMIT && ReachedAt(g, seed, x, n);
      ReachedIsWithin(g, seed, x, n);
      var d := DistanceExists(g, seed, x, n);
      KnownDistance(g, seed, x, d);
    }
    if x in Component(g, seed) && Distance(g, seed, x) <= NODE_LIMIT {
      var d: nat :| IsDistance(g, seed, x, d);
      KnownDistance(g, seed, x, d);
      DistanceIsReached(g, seed, x, d);
    }
  }

  lemma KnownDistance(g: Graph, seed: int, x: int, d: nat)
    requires WellFormed(g) && seed in g.createdAt && IsDistance(g, seed, x, d)
    ensures Distance(g, seed, x) == d
    ensures d <= NODE_LIMIT ==> MinDepth(g, seed, x) == d
  {
    var e: nat :| IsDistance(g, seed, x, e) && Distance(g, seed, x) == e;
    DistanceUnique(g, seed, x, d, e);
    if d <= NODE_LIMIT {
      MinDepthIsDistance(g, seed, x, d);
      var m: nat :| IsMinDepth(g, seed, x, m) && MinDepth(g, seed, x) == m;
      MinDepthIsDistance(g, seed, x, m);
      DistanceUnique(g, seed, x, d, m);
    }
  }

  // ---- Nothing is lost at the bound ----

  /** Every memory on a shortest walk is at its place's distance. */
  lemma PrefixDistance(g: Graph, seed: int, x: int, p: seq<int>, i: nat)
    requires WalkTo(g, seed, x, p) && IsDistance(g, seed, x, |p| - 1) && i < |p|
    ensures IsDistance(g, seed, p[i], i)
  {
    assert WalkTo(g, seed, p[i], p[..i + 1]);
    forall e: nat | e < i ensures !Within(g, seed, p[i], e) {
      if Within(g, seed, p[i], e) {
        var q :| WalkTo(g, seed, p[i], q) && |q| == e + 1;
        var r := q + p[i + 1..];
        forall k | 0 <= k < |r| - 1 ensures Adjacent(g, r[k], r[k + 1]) {
          if k >= e { assert Adjacent(g, p[i + k - e], p[i + k - e + 1]); }
        }
        assert WalkTo(g, seed, x, r);
        assert Within(g, seed, x, |p| - 1 - (i - e));
        assert false;
      }
    }
  }

  lemma {:induction false} DistinctCount(p: seq<int>)
    requires Members.Distinct(p)
    ensures |Ids(p)| == |p|
  {
    if p != [] {
      var front, last := p[..|p| - 1], p[|p| - 1];
      DistinctCount(front);
      assert Ids(p) == Ids(front) + {last};
      assert last !in Ids(front);
    } else {
      assert Ids(p) == {};
    }
  }

  /** If some memory lies beyond the walk's reach, the walk already holds 26. */
  lemma FarMeansMany(g: Graph, seed: int, x: int)
    requires WellFormed(g) && seed in g.createdAt && x in Component(g, seed) && x !in Found(g, seed)
    ensures |Found(g, seed)| >= NODE_LIMIT + 1
  {
    var d: nat :| IsDistance(g, seed, x, d);
    var p :| WalkTo(g, seed, x, p) && |p| == d + 1;
    KnownDistance(g, seed, x, d);
    FoundIsNearPart(g, seed, x);
    ShortestIsSimple(g, seed, x, p);
    var near := p[..NODE_LIMIT + 1];
    DistinctCount(near);
    forall y | y in Ids(near) ensures y in Found(g, seed) {
      var i := Members.IndexOf(near, y);
      PrefixDistance(g, seed, x, p, i);
      DistanceIsReached(g, seed, y, i);
      assert y in g.createdAt by {
        if i > 0 { assert Adjacent(g, p[i - 1], p[i]); AdjacentInGraph(g, p[i - 1], p[i]); }
      }
    }
    Members.SubsetCount(Ids(near), Found(g, seed));
  }

  lemma FoundInComponent(g: Graph, seed: int)
    requires WellFormed(g) && seed in g.createdAt
    ensures Found(g, seed) <= Component(g, seed)
    ensures AgreeOn(DepthKey(g, seed), DistanceKey(g, seed), Found(g, seed))
  {
    forall x | x in Found(g, seed) ensures x in Component(g, seed) && MinDepth(g, seed, x) == Distance(g, seed, x) {
      FoundIsNearPart(g, seed, x);
    }
  }

  lemma NearBeforeFar(g: Graph, seed: int, x: int, y: int)
    requires WellFormed(g) && seed in g.createdAt
    requires x in Found(g, seed) && y in Component(g, seed) - Found(g, seed)
    ensures Before(DistanceKey(g, seed), x, y)
  {
    FoundIsNearPart(g, seed, x);
    FoundIsNearPart(g, seed, y);
  }

  lemma FoundSuffices(g: Graph, seed: int)
    requires WellFormed(g) && seed in g.createdAt
    ensures Found(g, seed) == Component(g, seed) || |Found(g, seed)| >= NODE_LIMIT + 1
  {
    FoundInComponent(g, seed);
    if Found(g, seed) != Component(g, seed) {
      var x := Members.Missing(Found(g, seed), Component(g, seed));
      FarMeansMany(g, seed, x);
    }
  }

  /**
   The rows the bounded walk returns are the 26 nearest memories of the whole component, by
   distance and id, however large the component and however far it reaches.
   */
  lemma RowsAreNearest(g: Graph, seed: int)
    requires WellFormed(g) && seed in g.createdAt
    ensures NodeSelection(g, seed) == Nearest(g, seed)
  {
    FoundInComponent(g, seed);
    FoundSuffices(g, seed);
    forall x, y | x in Found(g, seed) && y in Component(g, seed) - Found(g, seed)
      ensures Before(DistanceKey(g, seed), x, y)
    {
      NearBeforeFar(g, seed, x, y);
    }
    LimitsAgree(DepthKey(g, seed), DistanceKey(g, seed), Found(g, seed), Component(g, seed), NODE_LIMIT + 1);
  }

  // ---- What is shown ----

  lemma NodeRows(g: Graph, seed: int)
    requires WellFormed(g) && seed in g.createdAt
    ensures forall x :: x in ReadLineageNodes(g, seed) <==> x in Nearest(g, seed)
    ensures |ReadLineageNodes(g, seed)| == |Nearest(g, seed)|
  {
    RowsAreNearest(g, seed);
    SelectionCount(DepthKey(g, seed), Found(g, seed), NODE_LIMIT + 1);
  }

  lemma SelectionCount(k: Key, s: set<int>, n: nat)
    ensures |Ids(Limit(k, s, n))| == |Limit(k, s, n)|
  {
    var rows := Limit(k, s, n);
    forall i, j | 0 <= i < j < |rows| ensures rows[i] != rows[j] {
      assert Before(k, rows[i], rows[j]);
    }
    DistinctCount(rows);
  }

  /** The node part of `truncated` is set exactly when the component has more than 25 memories. */
  lemma NodesTruncatedExactly(g: Graph, seed: int)
    requires WellFormed(g) && seed in g.createdAt
    ensures |ReadLineageNodes(g, seed)| > NODE_LIMIT <==> |Component(g, seed)| > NODE_LIMIT
  {
    NodeRows(g, seed);
  }

  lemma SeedDistance(g: Graph, seed: int)
    requires WellFormed(g) && seed in g.createdAt
    ensures seed in Component(g, seed) && Distance(g, seed, seed) == 0
    ensures forall x | Distance(g, seed, x) == 0 :: x == seed
  {
    assert WalkTo(g, seed, seed, [seed]);
    assert IsDistance(g, seed, seed, 0);
    KnownDistance(g, seed, seed, 0);
    forall x | Distance(g, seed, x) == 0 ensures x == seed {
      var d: nat :| IsDistance(g, seed, x, d) && d == 0;
      var p :| WalkTo(g, seed, x, p) && |p| == 1;
    }
  }

  /** A memory other than the inspected one has a neighbour one step nearer. */
  lemma NearerNeighbour(g: Graph, seed: int, x: int) returns (y: int)
    requires WellFormed(g) && seed in g.createdAt && x in Component(g, seed) && x != seed
    ensures y in Component(g, seed) && Adjacent(g, y, x)
    ensures Distance(g, seed, y) == Distance(g, seed, x) - 1
  {
    var d: nat :| IsDistance(g, seed, x, d);
    var p :| WalkTo(g, seed, x, p) && |p| == d + 1;
    y := p[d - 1];
    assert Adjacent(g, p[d - 1], p[d]);
    AdjacentInGraph(g, y, x);
    PrefixDistance(g, seed, x, p, d - 1);
    KnownDistance(g, seed, x, d);
    KnownDistance(g, seed, y, d - 1);
  }

  lemma PrefixMember(kept: seq<int>, rows: seq<int>, j: nat)
    requires kept <= rows && j < |rows|
    ensures rows[j] !in kept ==> j >= |kept|
  {
    if j < |kept| { assert kept[j] == rows[j]; }
  }

  lemma SliceCut(k: Key, s: set<int>, n: nat, x: int)
    ensures x in Slice(OrderBy(k, s), n) ==> x in s
    ensures x in s && x !in Slice(OrderBy(k, s), n) ==> forall y | y in Slice(OrderBy(k, s), n) :: Before(k, y, x)
  {
    var rows, kept := OrderBy(k, s), Slice(OrderBy(k, s), n);
    assert forall i | 0 <= i < |kept| :: kept[i] == rows[i];
    if x in s && x !in kept {
      assert x in rows;
      var j := Members.IndexOf(rows, x);
      PrefixMember(kept, rows, j);
      forall y | y in kept ensures Before(k, y, x) {
        var i := Members.IndexOf(kept, y);
        assert Before(k, rows[i], rows[j]);
      }
    }
  }

  lemma RowDistance(g: Graph, seed: int, x: int)
    requires WellFormed(g) && seed in g.createdAt && x in Nearest(g, seed)
    ensures x in Component(g, seed) && MinDepth(g, seed, x) == Distance(g, seed, x)
  {
    RowsAreNearest(g, seed);
    FoundIsNearPart(g, seed, x);
  }

  /** The row that is dropped is as far as any of the 26. */
  lemma DroppedIsFarthest(g: Graph, seed: int, x: int, y: int)
    requires WellFormed(g) && seed in g.createdAt
    requires x in Nearest(g, seed) && x !in KeptNodes(g, seed) && y in KeptNodes(g, seed)
    ensures Distance(g, seed, y) <= Distance(g, seed, x)
  {
    KeptAreNearest(g, seed, y);
    RowDistance(g, seed, x);
    RowDistance(g, seed, y);
    RowsAreNearest(g, seed);
    SliceCut(CreatedKey(g, seed), Ids(NodeSelection(g, seed)), NODE_LIMIT, x);
    assert Before(CreatedKey(g, seed), y, x);
  }

  lemma KeptAreNearest(g: Graph, seed: int, x: int)
    requires WellFormed(g) && seed in g.createdAt
    ensures x in KeptNodes(g, seed) ==> x in Nearest(g, seed)
  {
    RowsAreNearest(g, seed);
    SliceCut(CreatedKey(g, seed), Ids(NodeSelection(g, seed)), NODE_LIMIT, x);
  }

  lemma LeftOutIsLater(g: Graph, seed: int, x: int)
    ensures x in Component(g, seed) && x !in Nearest(g, seed) ==>
      forall y | y in Nearest(g, seed) :: Before(DistanceKey(g, seed), y, x)
  {
    if x in Component(g, seed) && x !in Nearest(g, seed) {
      LimitCut(DistanceKey(g, seed), Component(g, seed), NODE_LIMIT + 1, x);
    }
  }

  lemma NearerIsSelected(g: Graph, seed: int, x: int, y: int)
    requires x in Nearest(g, seed) && y in Component(g, seed) && Distance(g, seed, y) < Distance(g, seed, x)
    ensures y in Nearest(g, seed)
  {
    LeftOutIsLater(g, seed, y);
    assert !Before(DistanceKey(g, seed), x, y);
  }

  lemma NearerIsKept(g: Graph, seed: int, x: int, y: int)
    requires WellFormed(g) && seed in g.createdAt && x in KeptNodes(g, seed)
    requires y in Component(g, seed) && Distance(g, seed, y) < Distance(g, seed, x)
    ensures y in KeptNodes(g, seed)
  {
    KeptAreNearest(g, seed, x);
    NearerIsSelected(g, seed, x, y);
    if y !in KeptNodes(g, seed) {
      DroppedIsFarthest(g, seed, y, x);
    }
  }

  /**
   The kept nodes are closed towards the inspected memory: every other kept node has a kept
   neighbour strictly nearer, although the 26th row is dropped under another order than the one
   that chose it.
   */
  lemma KeptClosedTowardsSeed(g: Graph, seed: int, x: int) returns (y: int)
    requires WellFormed(g) && seed in g.createdAt && x in ReadLineage(g, seed).nodes && x != seed
    ensures y in ReadLineage(g, seed).nodes && Adjacent(g, y, x)
    ensures 0 <= Distance(g, seed, y) < Distance(g, seed, x)
  {
    KeptAreNearest(g, seed, x);
    y := NearerNeighbour(g, seed, x);
    NearerIsKept(g, seed, x, y);
    DistanceFloor(g, seed, y);
  }

  ghost predicate EdgeCapBites(g: Graph, seed: int) {
    |InducedEdges(g, KeptNodes(g, seed))| > EDGE_LIMIT
  }

  lemma EdgesShown(k: Key, induced: set<int>, e: int)
    requires |induced| <= EDGE_LIMIT
    ensures e in Slice(Limit(k, induced, EDGE_LIMIT + 1), EDGE_LIMIT) <==> e in induced
  {
    if e in induced && e !in Limit(k, induced, EDGE_LIMIT + 1) {
      LimitCut(k, induced, EDGE_LIMIT + 1, e);
    }
  }

  lemma AllInducedShown(g: Graph, seed: int, e: int)
    requires !EdgeCapBites(g, seed)
    ensures e in ReadLineage(g, seed).edges <==> e in InducedEdges(g, KeptNodes(g, seed))
  {
    EdgesShown(EdgeKey(g), InducedEdges(g, KeptNodes(g, seed)), e);
  }

  ghost predicate ShownStep(g: Graph, v: View, x: int, y: int) {
    exists e | e in v.edges :: e in g.edges && Joins(g.edges[e], x, y)
  }

  /** A walk over shown nodes along shown edges. */
  ghost predicate ShownWalk(g: Graph, v: View, p: seq<int>) {
    && p != [] && (forall i | 0 <= i < |p| :: p[i] in v.nodes)
    && forall i | 0 <= i < |p| - 1 :: ShownStep(g, v, p[i], p[i + 1])
  }

  ghost predicate ShownConnected(g: Graph, v: View, seed: int, x: int) {
    exists p :: ShownWalk(g, v, p) && p[0] == seed && p[|p| - 1] == x
  }

  lemma NeighboursInduce(g: Graph, nodes: seq<int>, x: int, y: int) returns (e: int)
    requires x in nodes && y in nodes && Adjacent(g, x, y)
    ensures e in InducedEdges(g, nodes) && e in g.edges && Joins(g.edges[e], x, y)
  {
    e :| e in g.edges && Joins(g.edges[e], x, y);
  }

  lemma KeptNeighboursJoined(g: Graph, seed: int, v: View, x: int, y: int)
    requires v == ReadLineage(g, seed) && !EdgeCapBites(g, seed)
    requires x in v.nodes && y in v.nodes && Adjacent(g, x, y)
    ensures ShownStep(g, v, x, y)
  {
    var e := NeighboursInduce(g, v.nodes, x, y);
    AllInducedShown(g, seed, e);
  }

  lemma LoneWalk(g: Graph, v: View, x: int)
    requires x in v.nodes
    ensures ShownConnected(g, v, x, x)
  {
    assert ShownWalk(g, v, [x]);
  }

  lemma ExtendConnected(g: Graph, v: View, seed: int, y: int, x: int)
    requires ShownConnected(g, v, seed, y) && ShownStep(g, v, y, x) && x in v.nodes
    ensures ShownConnected(g, v, seed, x)
  {
    var p :| ShownWalk(g, v, p) && p[0] == seed && p[|p| - 1] == y;
    var q := p + [x];
    forall i | 0 <= i < |q| - 1 ensures ShownStep(g, v, q[i], q[i + 1]) {
      if i < |p| - 1 { assert ShownStep(g, v, p[i], p[i + 1]); }
    }
    assert ShownWalk(g, v, q);
  }

  /** Unless the edge cap bites, the shown lineage is one connected graph around the inspected memory. */
  lemma {:induction false} ShownLineageConnected(g: Graph, seed: int, x: int)
    requires WellFormed(g) && seed in g.createdAt && !EdgeCapBites(g, seed)
    requires x in ReadLineage(g, seed).nodes
    ensures ShownConnected(g, ReadLineage(g, seed), seed, x)
    decreases Distance(g, seed, x)
  {
    var v := ReadLineage(g, seed);
    if x == seed {
      LoneWalk(g, v, x);
    } else {
      var y := KeptClosedTowardsSeed(g, seed, x);
      ShownLineageConnected(g, seed, y);
      KeptNeighboursJoined(g, seed, v, y, x);
      ExtendConnected(g, v, seed, y, x);
    }
  }

  lemma DistanceFloor(g: Graph, seed: int, x: int)
    requires WellFormed(g) && seed in g.createdAt && x in Component(g, seed)
    ensures Distance(g, seed, x) >= 0
  {
    var d: nat :| IsDistance(g, seed, x, d);
    KnownDistance(g, seed, x, d);
  }

  lemma NothingBeforeSeed(g: Graph, seed: int, x: int)
    requires WellFormed(g) && seed in g.createdAt && x in Component(g, seed) && x != seed
    ensures Distance(g, seed, x) > Distance(g, seed, seed)
  {
    SeedDistance(g, seed);
    DistanceFloor(g, seed, x);
  }

  lemma SeedSelected(g: Graph, seed: int)
    requires WellFormed(g) && seed in g.createdAt
    ensures seed in Nearest(g, seed)
  {
    SeedDistance(g, seed);
    forall x | x in Component(g, seed) && x != seed ensures Before(DistanceKey(g, seed), seed, x) {
      NothingBeforeSeed(g, seed, x);
    }
    FirstSelected(DistanceKey(g, seed), Component(g, seed), NODE_LIMIT + 1, seed);
  }

  lemma RowsKeptOrDropped(rows: seq<int>, x: int)
    requires x in rows
    ensures x in Slice(rows, NODE_LIMIT) || |rows| > NODE_LIMIT
  {
  }

  lemma FirstOfSlice(rows: seq<int>) returns (x: int)
    requires |rows| > NODE_LIMIT
    ensures x in Slice(rows, NODE_LIMIT)
  {
    x := rows[0];
    assert Slice(rows, NODE_LIMIT)[0] == x;
  }

  /** The inspected memory is always shown. */
  lemma SeedShown(g: Graph, seed: int)
    requires WellFormed(g) && seed in g.createdAt
    ensures seed in KeptNodes(g, seed)
  {
    SeedSelected(g, seed);
    NodeRows(g, seed);
    RowsKeptOrDropped(ReadLineageNodes(g, seed), seed);
    if seed !in KeptNodes(g, seed) {
      var x := FirstOfSlice(ReadLineageNodes(g, seed));
      DroppedIsFarthest(g, seed, seed, x);
      KeptAreNearest(g, seed, x);
      RowDistance(g, seed, x);
      NothingBeforeSeed(g, seed, x);
    }
  }

  lemma SmallComponentSelected(g: Graph, seed: int, x: int)
    requires |Component(g, seed)| <= NODE_LIMIT + 1
    ensures x in Nearest(g, seed) <==> x in Component(g, seed)
  {
    SmallTableSelected(DistanceKey(g, seed), Component(g, seed), NODE_LIMIT + 1, x);
  }

  lemma SmallTableSelected(k: Key, s: set<int>, n: nat, x: int)
    requires |s| <= n
    ensures x in Limit(k, s, n) <==> x in s
  {
    assert Limit(k, s, n) == OrderBy(k, s);
  }

  /** The edges between memories of the component. */
  ghost function ComponentEdges(g: Graph, seed: int): set<int> {
    set e | e in g.edges.Keys && IsRevision(g.edges[e])
            && g.edges[e].fromId in Component(g, seed) && g.edges[e].toId in Component(g, seed)
  }

  lemma UntruncatedNodes(g: Graph, seed: int, x: int)
    requires WellFormed(g) && seed in g.createdAt && !ReadLineage(g, seed).truncated
    ensures x in ReadLineage(g, seed).nodes <==> x in Component(g, seed)
  {
    NodesTruncatedExactly(g, seed);
    NodeRows(g, seed);
    SmallComponentSelected(g, seed, x);
  }

  lemma UncutCount(k: Key, s: set<int>, n: nat)
    requires |Limit(k, s, n + 1)| <= n
    ensures |s| <= n
  {
  }

  lemma WholeComponentInduces(g: Graph, seed: int, nodes: seq<int>, e: int)
    requires forall x :: x in nodes <==> x in Component(g, seed)
    ensures e in InducedEdges(g, nodes) <==> e in ComponentEdges(g, seed)
  {
  }

  /** A lineage not marked truncated is the whole component with all its revision edges. */
  lemma UntruncatedIsWhole(g: Graph, seed: int)
    requires WellFormed(g) && seed in g.createdAt && !ReadLineage(g, seed).truncated
    ensures forall x :: x in ReadLineage(g, seed).nodes <==> x in Component(g, seed)
    ensures forall e :: e in ReadLineage(g, seed).edges <==> e in ComponentEdges(g, seed)
  {
    forall x ensures x in ReadLineage(g, seed).nodes <==> x in Component(g, seed) {
      UntruncatedNodes(g, seed, x);
    }
    UncutCount(EdgeKey(g), InducedEdges(g, KeptNodes(g, seed)), EDGE_LIMIT);
    forall e ensures e in ReadLineage(g, seed).edges <==> e in ComponentEdges(g, seed) {
      AllInducedShown(g, seed, e);
      WholeComponentInduces(g, seed, KeptNodes(g, seed), e);
    }
  }

  // ---- The answer, in its own terms ----

  /** The edges between shown memories, whether they are shown or not. */
  ghost function JoiningEdges(g: Graph, v: View): set<int> {
    set e | e in g.edges.Keys && (g.edges[e].edgeType == Supersedes || g.edges[e].edgeType == Updates)
            && g.edges[e].fromId in v.nodes && g.edges[e].toId in v.nodes
  }

  lemma SliceCount(s: seq<int>, n: nat)
    ensures |Slice(s, n)| == if |s| <= n then |s| else n
  {
  }

  lemma CutCount(k: Key, s: set<int>, n: nat)
    ensures |Slice(Limit(k, s, n + 1), n)| == if |s| <= n then |s| else n
    ensures |Limit(k, s, n + 1)| > n <==> |s| > n
  {
    SliceCount(Limit(k, s, n + 1), n);
  }

  lemma JoiningInduced(g: Graph, v: View)
    ensures JoiningEdges(g, v) == InducedEdges(g, v.nodes)
  {
    forall e ensures e in JoiningEdges(g, v) <==> e in InducedEdges(g, v.nodes) {
      if e in g.edges.Keys { assert IsRevision(g.edges[e]) <==> g.edges[e].edgeType in {Supersedes, Updates}; }
    }
  }

  lemma JoiningAreInduced(g: Graph, seed: int)
    ensures JoiningEdges(g, ReadLineage(g, seed)) == InducedEdges(g, KeptNodes(g, seed))
  {
    JoiningInduced(g, ReadLineage(g, seed));
  }

  /**
   The answer is marked truncated if and only if the component has more than 25 memories or more
   than 50 revision edges join two of those shown; and it shows as many of each as the limits allow.
   */
  lemma TruncatedExactly(g: Graph, seed: int)
    requires WellFormed(g) && seed in g.createdAt
    ensures var v := ReadLineage(g, seed);
            && (v.truncated <==> |Component(g, seed)| > 25 || |JoiningEdges(g, v)| > 50)
            && |v.nodes| == (if |Component(g, seed)| <= 25 then |Component(g, seed)| else 25)
            && |v.edges| == (if |JoiningEdges(g, v)| <= 50 then |JoiningEdges(g, v)| else 50)
  {
    NodesTruncatedExactly(g, seed);
    NodeRows(g, seed);
    SliceCount(ReadLineageNodes(g, seed), NODE_LIMIT);
    JoiningAreInduced(g, seed);
    CutCount(EdgeKey(g), InducedEdges(g, KeptNodes(g, seed)), EDGE_LIMIT);
  }

  /** Nodes are listed by distance, then creation time, then id. */
  lemma NodesInOrder(g: Graph, seed: int, i: nat, j: nat)
    requires WellFormed(g) && seed in g.createdAt && i < j < |ReadLineage(g, seed).nodes|
    ensures var (x, y) := (ReadLineage(g, seed).nodes[i], ReadLineage(g, seed).nodes[j]);
            && x in g.createdAt && y in g.createdAt
            && Distance(g, seed, x) <= Distance(g, seed, y)
            && (Distance(g, seed, x) == Distance(g, seed, y) ==>
                  g.createdAt[x] < g.createdAt[y] || (g.createdAt[x] == g.createdAt[y] && x < y))
  {
    var x, y := KeptNodes(g, seed)[i], KeptNodes(g, seed)[j];
    assert x in KeptNodes(g, seed) && y in KeptNodes(g, seed);
    KeptAreNearest(g, seed, x);
    KeptAreNearest(g, seed, y);
    RowDistance(g, seed, x);
    RowDistance(g, seed, y);
    assert Before(CreatedKey(g, seed), ReadLineageNodes(g, seed)[i], ReadLineageNodes(g, seed)[j]);
  }

  lemma CutInOrder(k: Key, s: set<int>, n: nat, i: nat, e: int)
    requires var kept := Slice(Limit(k, s, n + 1), n);
             i < |kept| && ((exists j: nat :: i < j < |kept| && kept[j] == e) || (e in s && e !in kept))
    ensures var d := Slice(Limit(k, s, n + 1), n)[i];
            d in s && e in s && Before(k, d, e)
  {
    var rows := Limit(k, s, n + 1);
    var kept := Slice(rows, n);
    assert rows[i] in rows && rows[i] == kept[i];
    if e in rows {
      var j :| 0 <= j < |rows| && rows[j] == e && (j < |kept| ==> i < j);
      if j >= |kept| { PrefixMember(kept, rows, j); }
    } else {
      LimitCut(k, s, n + 1, e);
    }
  }

  lemma EdgeRowsInOrder(g: Graph, nodes: seq<int>, i: nat, e: int)
    requires var kept := Slice(ReadLineageEdges(g, nodes), EDGE_LIMIT);
             i < |kept| && ((exists j: nat :: i < j < |kept| && kept[j] == e) || (e in InducedEdges(g, nodes) && e !in kept))
    ensures var d := Slice(ReadLineageEdges(g, nodes), EDGE_LIMIT)[i];
            && d in InducedEdges(g, nodes) && d in g.edges && e in g.edges
            && (g.edges[d].createdAt < g.edges[e].createdAt || (g.edges[d].createdAt == g.edges[e].createdAt && d < e))
  {
    CutInOrder(EdgeKey(g), InducedEdges(g, nodes), EDGE_LIMIT, i, e);
  }

  /** Edges are listed by creation time, then id, and one that is left out comes after all that are shown. */
  lemma EdgesInOrder(g: Graph, seed: int, i: nat, e: int)
    requires i < |ReadLineage(g, seed).edges|
    requires var v := ReadLineage(g, seed);
             (exists j: nat :: i < j < |v.edges| && v.edges[j] == e) || (e in JoiningEdges(g, v) && e !in v.edges)
    ensures var d := ReadLineage(g, seed).edges[i];
            && d in JoiningEdges(g, ReadLineage(g, seed)) && e in g.edges
            && (g.edges[d].createdAt < g.edges[e].createdAt || (g.edges[d].createdAt == g.edges[e].createdAt && d < e))
  {
    JoiningAreInduced(g, seed);
    EdgeRowsInOrder(g, KeptNodes(g, seed), i, e);
  }

  lemma ComponentGrows(g: Graph, seed: int, x: int, y: int)
    requires WellFormed(g) && x in Component(g, seed) && Adjacent(g, x, y)
    ensures y in Component(g, seed)
  {
    var d: nat :| IsDistance(g, seed, x, d);
    var p :| WalkTo(g, seed, x, p) && |p| == d + 1;
    var q := p + [y];
    forall i | 0 <= i < |q| - 1 ensures Adjacent(g, q[i], q[i + 1]) {
      if i < |p| - 1 { assert Adjacent(g, p[i], p[i + 1]); }
    }
    assert WalkTo(g, seed, y, q);
    assert Within(g, seed, y, d + 1);
    var n := DistanceExists(g, seed, y, d + 1);
    AdjacentInGraph(g, x, y);
  }

  /**
   In an answer that is not truncated, a revision edge, one that supersedes or updates, has both
   ends among the shown memories or neither, and is shown exactly in the first case.
   */
  lemma RevisionsShown(g: Graph, seed: int, e: int)
    requires WellFormed(g) && seed in g.createdAt && !ReadLineage(g, seed).truncated
    requires e in g.edges && (g.edges[e].edgeType == Supersedes || g.edges[e].edgeType == Updates)
    ensures var v := ReadLineage(g, seed);
            && (g.edges[e].fromId in v.nodes <==> g.edges[e].toId in v.nodes)
            && (e in v.edges <==> g.edges[e].fromId in v.nodes)
  {
    var x, y := g.edges[e].fromId, g.edges[e].toId;
    UntruncatedIsWhole(g, seed);
    assert Joins(g.edges[e], x, y) && Joins(g.edges[e], y, x);
    assert Adjacent(g, x, y) && Adjacent(g, y, x);
    if x in Component(g, seed) { ComponentGrows(g, seed, x, y); }
    if y in Component(g, seed) { ComponentGrows(g, seed, y, x); }
  }

  lemma SliceOfLimit(k: Key, s: set<int>, n: nat, x: int)
    ensures x in Slice(Limit(k, s, n + 1), n) ==> x in s
  {
    if x in Slice(Limit(k, s, n + 1), n) {
      var i := Members.IndexOf(Slice(Limit(k, s, n + 1), n), x);
      assert Limit(k, s, n + 1)[i] in Limit(k, s, n + 1);
    }
  }

  /** No other edge is ever shown. */
  lemma OnlyRevisionsShown(g: Graph, seed: int, e: int)
    requires e in ReadLineage(g, seed).edges
    ensures e in JoiningEdges(g, ReadLineage(g, seed))
  {
    JoiningAreInduced(g, seed);
    SliceOfLimit(EdgeKey(g), InducedEdges(g, KeptNodes(g, seed)), EDGE_LIMIT, e);
  }

  /** A memory of the component that is not shown comes after every shown one. */
  lemma LeftOutComesLater(g: Graph, seed: int, x: int, y: int)
    requires WellFormed(g) && seed in g.createdAt
    requires x in Component(g, seed) && x !in ReadLineage(g, seed).nodes && y in ReadLineage(g, seed).nodes
    ensures Distance(g, seed, y) <= Distance(g, seed, x)
  {
    KeptAreNearest(g, seed, y);
    if x in Nearest(g, seed) {
      DroppedIsFarthest(g, seed, x, y);
    } else {
      LeftOutIsLater(g, seed, x);
      assert Before(DistanceKey(g, seed), y, x);
    }
  }
}
