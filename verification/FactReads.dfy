/** The facts read (packages/db/src/facts-read.ts) over the table the writer leaves. */
module FactReads {
  import opened Options
  import opened Sorting
  import opened Facts
  import opened FactTimeline
  import opened Members

  datatype AsOfPoint = AsOfPoint(validAt: Option<int>, asKnownAt: Option<int>)

  /** A half-open window of valid time; either bound may be left out. */
  datatype Range = Range(from: Option<int>, to: Option<int>)

  datatype Query = Query(
    subject: Option<string>, relation: Option<string>,
    asOf: Option<AsOfPoint>, range: Option<Range>, limit: Option<nat>)

  /** The memory a fact came from, named by its owner and id. */
  datatype Parent = Parent(validTo: Option<int>, active: bool)

  type Parents = map<(string, string), Parent>

  datatype Answer = Rows(positions: seq<nat>) | EmptyRange

  function ValidAt(q: Query): Option<int> {
    if q.asOf.Some? then q.asOf.value.validAt else None
  }

  predicate ValidTime(r: Row, validAt: Option<int>) {
    if validAt.None? then r.validTo.None? else AsOf(r, validAt.value)
  }

  predicate ParentLive(parents: Parents, r: Row, validAt: Option<int>) {
    && (r.key.userId, r.memoryId) in parents
    && var p := parents[(r.key.userId, r.memoryId)];
       if validAt.None? then p.validTo.None? && p.active
       else p.validTo.None? || validAt.value < p.validTo.value
  }

  /** The overlap test of range mode. */
  predicate Overlaps(r: Row, range: Range) {
    && (range.to.Some? ==> r.validFrom < range.to.value)
    && (range.from.Some? ==> r.validTo.None? || range.from.value < r.validTo.value)
  }

  predicate Known(r: Row, q: Query) {
    q.asOf.Some? && q.asOf.value.asKnownAt.Some? ==> r.recordedAt <= q.asOf.value.asKnownAt.value
  }

  predicate Matches(parents: Parents, r: Row, userId: string, q: Query) {
    && r.key.userId == userId
    && (if q.range.Some? then Overlaps(r, q.range.value)
        else ValidTime(r, ValidAt(q)) && ParentLive(parents, r, ValidAt(q)))
    && Known(r, q)
    && (q.subject.Some? ==> r.key.subject == q.subject.value)
    && (q.relation.Some? ==> r.key.relation == q.relation.value)
  }

  function Matching(t: Table, parents: Parents, userId: string, q: Query, n: nat): seq<nat>
    requires n <= |t|
  {
    if n == 0 then []
    else Matching(t, parents, userId, q, n - 1) + (if Matches(parents, t[n - 1], userId, q) then [n - 1] else [])
  }

  /** Newest recorded first, or earliest start first in range mode; ids break ties. */
  function ReadOrder(t: Table, q: Query): (nat, nat) -> bool {
    (a: nat, b: nat) =>
      if a >= |t| || b >= |t| then b >= |t| && (a < |t| || a <= b)
      else if q.range.Some? then
        t[a].validFrom < t[b].validFrom || (t[a].validFrom == t[b].validFrom && a <= b)
      else
        t[b].recordedAt < t[a].recordedAt || (t[a].recordedAt == t[b].recordedAt && a <= b)
  }

  function GetFacts(t: Table, parents: Parents, userId: string, q: Query): Answer {
    if q.range.Some? && q.range.value.from.None? && q.range.value.to.None? then EmptyRange
    else
      var ordered := Sort(ReadOrder(t, q), Matching(t, parents, userId, q, |t|));
      Rows(if q.limit.Some? && q.limit.value < |ordered| then ordered[..q.limit.value] else ordered)
  }

  lemma {:induction false} MatchingAre(t: Table, parents: Parents, userId: string, q: Query, n: nat)
    requires n <= |t|
    ensures forall i: nat :: i in Matching(t, parents, userId, q, n) <==> i < n && Matches(parents, t[i], userId, q)
    ensures Distinct(Matching(t, parents, userId, q, n))
  {
    if n > 0 {
      MatchingAre(t, parents, userId, q, n - 1);
      var m := Matching(t, parents, userId, q, n - 1);
      assert forall p | 0 <= p < |m| :: m[p] in m;
    }
  }

  lemma ReadOrderIsPreorder(t: Table, q: Query)
    ensures TotalPreorder(ReadOrder(t, q))
  {
  }

  /** Without a limit the read returns every matching row once; with one, the first of them in order. */
  lemma GetFactsReturnsMatches(t: Table, parents: Parents, userId: string, q: Query)
    requires GetFacts(t, parents, userId, q).Rows?
    ensures var r := GetFacts(t, parents, userId, q).positions;
            && Distinct(r) && SortedBy(ReadOrder(t, q), r)
            && (forall i: nat | i in r :: i < |t| && Matches(parents, t[i], userId, q))
            && forall i: nat | i < |t| && Matches(parents, t[i], userId, q) && i !in r ::
                 && q.limit == Some(|r|)
                 && forall p | 0 <= p < |r| :: ReadOrder(t, q)(r[p], i)
  {
    var m := Matching(t, parents, userId, q, |t|);
    var ordered := Sort(ReadOrder(t, q), m);
    var r := GetFacts(t, parents, userId, q).positions;
    MatchingAre(t, parents, userId, q, |t|);
    ReadOrderIsPreorder(t, q);
    SortSpec(ReadOrder(t, q), m);
    PermutationDistinct(m, ordered);
    Truncated(ReadOrder(t, q), ordered, r);
  }

  /** What a limit keeps comes before what it cuts. */
  lemma Truncated(le: (nat, nat) -> bool, s: seq<nat>, r: seq<nat>)
    requires SortedBy(le, s) && r <= s && Distinct(s)
    ensures SortedBy(le, r) && Distinct(r)
    ensures forall i | i in r :: i in s
    ensures forall i, p | i in s && i !in r && 0 <= p < |r| :: le(r[p], i)
  {
    assert forall p | 0 <= p < |r| :: r[p] == s[p] && s[p] in r;
    forall i | i in s && i !in r ensures forall p | 0 <= p < |r| :: le(r[p], i) {
      var k := IndexOf(s, i);
    }
  }

  // ---- The reads, in the fields' own terms ----

  /** Whose fact it is, what it is about, and that it was recorded by the instant asked for. */
  predicate Asked(r: Row, userId: string, q: Query) {
    && r.key.userId == userId
    && (q.subject.Some? ==> r.key.subject == q.subject.value)
    && (q.relation.Some? ==> r.key.relation == q.relation.value)
    && (q.asOf.Some? && q.asOf.value.asKnownAt.Some? ==> r.recordedAt <= q.asOf.value.asKnownAt.value)
  }

  function Unlimited(q: Query): Query {
    q.(limit := None)
  }

  /** A limit keeps the first rows of the unlimited answer. */
  lemma LimitKeepsFirst(t: Table, parents: Parents, userId: string, q: Query)
    requires q.limit.Some? && GetFacts(t, parents, userId, q).Rows?
    ensures GetFacts(t, parents, userId, Unlimited(q)).Rows?
    ensures var (all, kept) := (GetFacts(t, parents, userId, Unlimited(q)).positions, GetFacts(t, parents, userId, q).positions);
            kept == if |all| <= q.limit.value then all else all[..q.limit.value]
  {
    SameMatching(t, parents, userId, q, |t|);
    SameReadOrder(t, q);
  }

  lemma {:induction false} SameMatching(t: Table, parents: Parents, userId: string, q: Query, n: nat)
    requires n <= |t|
    ensures Matching(t, parents, userId, Unlimited(q), n) == Matching(t, parents, userId, q, n)
  {
    if n > 0 { SameMatching(t, parents, userId, q, n - 1); }
  }

  lemma SameReadOrder(t: Table, q: Query)
    ensures forall s: seq<nat> :: Sort(ReadOrder(t, Unlimited(q)), s) == Sort(ReadOrder(t, q), s)
  {
    forall s: seq<nat> ensures Sort(ReadOrder(t, Unlimited(q)), s) == Sort(ReadOrder(t, q), s) {
      SortAgrees(ReadOrder(t, Unlimited(q)), ReadOrder(t, q), s);
    }
  }

  lemma {:induction false} SortAgrees(le: (nat, nat) -> bool, le': (nat, nat) -> bool, s: seq<nat>)
    requires forall a, b :: le(a, b) == le'(a, b)
    ensures Sort(le, s) == Sort(le', s)
  {
    if s != [] {
      SortAgrees(le, le', s[1..]);
      InsertAgrees(le, le', s[0], Sort(le, s[1..]));
    }
  }

  lemma {:induction false} InsertAgrees(le: (nat, nat) -> bool, le': (nat, nat) -> bool, x: nat, s: seq<nat>)
    requires forall a, b :: le(a, b) == le'(a, b)
    ensures Insert(le, x, s) == Insert(le', x, s)
  {
    if s != [] && !le(x, s[0]) { InsertAgrees(le, le', x, s[1..]); }
  }

  /**
   A read without an instant answers the open facts whose memory has been neither superseded nor
   archived, newest recorded first.
   */
  lemma CurrentRead(t: Table, parents: Parents, userId: string, q: Query, i: nat)
    requires q.range.None? && q.limit.None? && (q.asOf.None? || q.asOf.value.validAt.None?)
    ensures GetFacts(t, parents, userId, q).Rows?
    ensures i in GetFacts(t, parents, userId, q).positions
       <==> && i < |t| && Asked(t[i], userId, q) && t[i].validTo == None
            && (t[i].key.userId, t[i].memoryId) in parents
            && parents[(t[i].key.userId, t[i].memoryId)] == Parent(validTo := None, active := true)
  {
    GetFactsReturnsMatches(t, parents, userId, q);
  }

  /** A read for an instant answers the facts whose window holds it and whose memory had not been superseded by then. */
  lemma AsOfRead(t: Table, parents: Parents, userId: string, q: Query, at: int, i: nat)
    requires q.range.None? && q.limit.None? && q.asOf.Some? && q.asOf.value.validAt == Some(at)
    ensures GetFacts(t, parents, userId, q).Rows?
    ensures i in GetFacts(t, parents, userId, q).positions
       <==> && i < |t| && Asked(t[i], userId, q)
            && t[i].validFrom <= at && (t[i].validTo.None? || at < t[i].validTo.value)
            && (t[i].key.userId, t[i].memoryId) in parents
            && (var p := parents[(t[i].key.userId, t[i].memoryId)]; p.validTo.None? || at < p.validTo.value)
  {
    GetFactsReturnsMatches(t, parents, userId, q);
  }

  /** A read for a range answers every generation whose window overlaps it, whatever became of its memory. */
  lemma RangeRead(t: Table, parents: Parents, userId: string, q: Query, i: nat)
    requires q.range.Some? && q.limit.None?
    ensures GetFacts(t, parents, userId, q).EmptyRange? <==> q.range.value.from.None? && q.range.value.to.None?
    ensures GetFacts(t, parents, userId, q).Rows? ==>
              (i in GetFacts(t, parents, userId, q).positions
               <==> && i < |t| && Asked(t[i], userId, q)
                    && (q.range.value.to.Some? ==> t[i].validFrom < q.range.value.to.value)
                    && (q.range.value.from.Some? && t[i].validTo.Some? ==> q.range.value.from.value < t[i].validTo.value))
  {
    if GetFacts(t, parents, userId, q).Rows? { GetFactsReturnsMatches(t, parents, userId, q); }
  }

  /** Newest recorded first, or earliest start first for a range; rows that tie by id. */
  lemma ReadsInOrder(t: Table, parents: Parents, userId: string, q: Query, j: nat, k: nat)
    requires GetFacts(t, parents, userId, q).Rows? && j < k < |GetFacts(t, parents, userId, q).positions|
    ensures var (a, b) := (GetFacts(t, parents, userId, q).positions[j], GetFacts(t, parents, userId, q).positions[k]);
            && a < |t| && b < |t|
            && if q.range.Some?
               then t[a].validFrom < t[b].validFrom || (t[a].validFrom == t[b].validFrom && a < b)
               else t[a].recordedAt > t[b].recordedAt || (t[a].recordedAt == t[b].recordedAt && a < b)
  {
    var r := GetFacts(t, parents, userId, q).positions;
    GetFactsReturnsMatches(t, parents, userId, q);
    assert r[j] in r && r[k] in r;
    assert ReadOrder(t, q)(r[j], r[k]);
  }

  function KeyQuery(k: Key, at: int): Query {
    Query(Some(k.subject), Some(k.relation), Some(AsOfPoint(Some(at), None)), None, None)
  }

  /** The latest value of a key at or before an instant is returned whenever its memory still counts. */
  lemma HeadIsReturned(calls: seq<Call>, parents: Parents, k: Key, at: int, i: nat)
    requires IsHead(AfterCalls([], calls), k, at, i)
    requires ParentLive(parents, AfterCalls([], calls)[i], Some(at))
    ensures i in GetFacts(AfterCalls([], calls), parents, k.userId, KeyQuery(k, at)).positions
  {
    HeadIsAlwaysRead(calls, k, at, i);
    GetFactsReturnsMatches(AfterCalls([], calls), parents, k.userId, KeyQuery(k, at));
  }

  /** For a key written in order, an as-of read returns the timeline's value and nothing else. */
  lemma AsOfReadIsTimeline(calls: seq<Call>, parents: Parents, k: Key, at: int)
    requires SingleOnly(AfterCalls([], calls), k) && StartsInOrder(AfterCalls([], calls), k)
    ensures var t := AfterCalls([], calls);
            var l := LastWrite(t, k, at);
            GetFacts(t, parents, k.userId, KeyQuery(k, at)).positions
            == if l.Some? && l.value < |t| && ParentLive(parents, t[l.value], Some(at)) then [l.value] else []
  {
    var t, q := AfterCalls([], calls), KeyQuery(k, at);
    var l := LastWrite(t, k, at);
    var r := GetFacts(t, parents, k.userId, q).positions;
    InOrderRefinesTimeline(calls, k, at);
    LastWriteSpec(t, k, at);
    GetFactsReturnsMatches(t, parents, k.userId, q);
    forall i: nat | i < |t|
      ensures Matches(parents, t[i], k.userId, q) <==> l == Some(i) && ParentLive(parents, t[i], Some(at))
    {
      assert t[i].key.userId == k.userId && t[i].key.subject == k.subject && t[i].key.relation == k.relation
        <==> t[i].key == k;
    }
    if l.Some? && ParentLive(parents, t[l.value], Some(at)) {
      assert l.value in r;
      OnlyMember(r, l.value);
    } else {
      assert forall i: nat :: i !in r;
      NoMembers(r);
    }
  }

  lemma OnlyMember(r: seq<nat>, x: nat)
    requires Distinct(r) && x in r && forall i: nat | i in r :: i == x
    ensures r == [x]
  {
    HeadIn(r);
  }

  lemma NoMembers(r: seq<nat>)
    requires forall i: nat :: i !in r
    ensures r == []
  {
    HeadIn(r);
  }

  /**
   The overlap test holds exactly when some instant lies in both windows, or one of them is empty
   and strictly inside the other: an overwritten tie still shows in a time series.
   */
  lemma OverlapsExactly(r: Row, range: Range)
    requires r.validTo.Some? ==> r.validFrom <= r.validTo.value
    requires range.from.Some? && range.to.Some? ==> range.from.value <= range.to.value
    ensures Overlaps(r, range)
       <==> || (exists at :: AsOf(r, at) && InRangeOf(range, at))
            || (r.validTo == Some(r.validFrom) && StrictlyIn(range.from, r.validFrom, range.to))
            || (range.from.Some? && range.from == range.to
                && StrictlyIn(Some(r.validFrom), range.from.value, r.validTo))
  {
    if Overlaps(r, range) && r.validTo != Some(r.validFrom) && !(range.from.Some? && range.from == range.to) {
      var at := if range.from.Some? && r.validFrom < range.from.value then range.from.value else r.validFrom;
      assert AsOf(r, at) && InRangeOf(range, at);
    }
  }

  predicate StrictlyIn(from: Option<int>, at: int, to: Option<int>) {
    (from.Some? ==> from.value < at) && (to.Some? ==> at < to.value)
  }

  predicate InRangeOf(range: Range, at: int) {
    (range.from.Some? ==> range.from.value <= at) && (range.to.Some? ==> at < range.to.value)
  }
}
