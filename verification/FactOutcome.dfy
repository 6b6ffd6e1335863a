/**
 What one `insertFacts` call leaves in the table, said of the caller's own fields: which rows take
 part in supersession, where each row is stored, and where every window ends. None of it mentions
 the order the call writes its rows in.
 */
module FactOutcome {
  import opened Options
  import opened Sorting
  import opened Members
  import opened Facts
  import opened FactTimeline

  /** The row has everything the write said of it; what is left out starts, and is recorded, now. */
  predicate StoredAs(r: Row, w: FactWrite, now: int) {
    && r.key == w.key && r.memoryId == w.memoryId && r.value == w.value && r.confidence == w.confidence
    && r.validFrom == (if w.validFrom.Some? then 1000 * w.validFrom.value else now)
    && r.recordedAt == (if w.recordedAt.Some? then 1000 * w.recordedAt.value else now)
  }

  /** The `m`th row of the call takes part in supersession, under key `k`. */
  predicate TakesPart(c: Call, k: Key, m: nat) {
    && m < |c.ws| && c.ws[m].key == k
    && c.supersede && c.ws[m].cardinality == One && c.ws[m].validTo == None
  }

  /** How the history variable marks the row. */
  function OriginOf(c: Call, m: nat): Origin
    requires m < |c.ws|
  {
    if c.ws[m].validTo.Some? then OwnEnd
    else if c.supersede && c.ws[m].cardinality == One then Origin.Single
    else Coexisting
  }

  function Start(c: Call, m: nat): int
    requires m < |c.ws|
  {
    if c.ws[m].validFrom.Some? then 1000 * c.ws[m].validFrom.value else c.now
  }

  /** `m` is later than `i`: by its start, then an implicit start after an explicit one, then by place. */
  predicate Later(c: Call, i: nat, m: nat)
    requires i < |c.ws| && m < |c.ws|
  {
    || Start(c, i) < Start(c, m)
    || (Start(c, i) == Start(c, m)
        && ((c.ws[i].validFrom.Some? && c.ws[m].validFrom.None?)
            || (c.ws[i].validFrom.Some? == c.ws[m].validFrom.Some? && i < m)))
  }

  // ---- When a call is refused ----

  /** A call is refused whole exactly when some row is given an end before its start. */
  lemma RefusedExactly(t: Table, c: Call)
    ensures !CallAccepted(c) <==> exists i: nat :: i < |c.ws| && EndsBeforeItStarts(c, i)
    ensures !CallAccepted(c) ==> AfterCall(t, c) == t
  {
    if !CallAccepted(c) {
      var i: nat :| i < |c.ws| && !AcceptedAt(c.ws, c.now, i);
      assert EndsBeforeItStarts(c, i);
    }
    if i: nat :| i < |c.ws| && EndsBeforeItStarts(c, i) { assert !AcceptedAt(c.ws, c.now, i); }
  }

  predicate EndsBeforeItStarts(c: Call, i: nat)
    requires i < |c.ws|
  {
    c.ws[i].validTo.Some? && 1000 * c.ws[i].validTo.value < Start(c, i)
  }

  // ---- Where rows are stored ----

  lemma RowKept(t: Table, c: Call, p: nat)
    requires CallAccepted(c) && p < |PlanOf(c)|
    ensures var plan, before := PlanOf(c), BeforeStep(t, c, p);
            && plan[p].index < |c.ws| && |before| == |t| + p && |AfterCall(t, c)| == |t| + |plan|
            && Extends(Applied(before, c.ws, c.now, plan[p]), AfterCall(t, c))
  {
    PlanLinked(c.ws, c.supersede, c.now);
    RunAt(t, c.ws, c.supersede, c.now, PlanOf(c), p);
  }

  lemma StepStores(before: Table, c: Call, p: nat)
    requires p < |PlanOf(c)|
    ensures PlanOf(c)[p].index < |c.ws|
    ensures var after := Applied(before, c.ws, c.now, PlanOf(c)[p]);
            && |after| == |before| + 1
            && StoredAs(after[|before|], c.ws[PlanOf(c)[p].index], c.now)
            && after[|before|].origin == OriginOf(c, PlanOf(c)[p].index)
  {
    PlanLinked(c.ws, c.supersede, c.now);
  }

  lemma ClosedStaysStored(r: Row, closed: Row, w: FactWrite, now: int)
    requires StoredAs(r, w, now) && closed == r.(validTo := closed.validTo)
    ensures StoredAs(closed, w, now) && closed.origin == r.origin
  {
  }

  lemma StoredByStep(t: Table, c: Call, p: nat)
    requires CallAccepted(c) && p < |PlanOf(c)|
    ensures PlanOf(c)[p].index < |c.ws| && |AfterCall(t, c)| == |t| + |PlanOf(c)|
    ensures StoredAs(AfterCall(t, c)[|t| + p], c.ws[PlanOf(c)[p].index], c.now)
    ensures AfterCall(t, c)[|t| + p].origin == OriginOf(c, PlanOf(c)[p].index)
  {
    var before := BeforeStep(t, c, p);
    RowKept(t, c, p);
    StepStores(before, c, p);
    ClosedStaysStored(Applied(before, c.ws, c.now, PlanOf(c)[p])[|t| + p], AfterCall(t, c)[|t| + p],
                      c.ws[PlanOf(c)[p].index], c.now);
  }

  /** Where a row of the call is in the plan, and so in the table. */
  lemma PlaceOf(t: Table, c: Call, ids: seq<nat>, i: nat) returns (p: nat)
    requires i < |c.ws| && Filed(ids, |t|, PlanOf(c))
    ensures p < |PlanOf(c)| == |c.ws| && PlanOf(c)[p].index == i
    ensures i < |ids| && ids[i] == |t| + p
  {
    PlanWritesEachRowOnce(c.ws, c.supersede, c.now);
    p := IndexOf(Indexes(PlanOf(c)), i);
  }

  /** Every row of an accepted call is stored once, as it was given, at the place its id names. */
  lemma RowsAreStored(t: Table, c: Call, ids: seq<nat>)
    requires CallAccepted(c) && |ids| == |c.ws| && Filed(ids, |t|, Plan(c.ws, c.supersede, c.now))
    ensures |AfterCall(t, c)| == |t| + |c.ws| && Distinct(ids)
    ensures forall i: nat | i < |c.ws| ::
              && |t| <= ids[i] < |AfterCall(t, c)| && StoredAs(AfterCall(t, c)[ids[i]], c.ws[i], c.now)
              && AfterCall(t, c)[ids[i]].origin == OriginOf(c, i)
  {
    PlanWritesEachRowOnce(c.ws, c.supersede, c.now);
    CallLength(t, c);
    forall i: nat | i < |c.ws|
      ensures |t| <= ids[i] < |AfterCall(t, c)| && StoredAs(AfterCall(t, c)[ids[i]], c.ws[i], c.now)
      ensures AfterCall(t, c)[ids[i]].origin == OriginOf(c, i)
    {
      var p := PlaceOf(t, c, ids, i);
      StoredByStep(t, c, p);
    }
    forall i, j | 0 <= i < j < |ids| ensures ids[i] != ids[j] {
      var p := PlaceOf(t, c, ids, i);
      var q := PlaceOf(t, c, ids, j);
    }
  }

  // ---- Rows that stand alone ----

  lemma AppendsComeLast(c: Call, p: nat, q: nat)
    requires p <= q < |PlanOf(c)| && PlanOf(c)[p].Append?
    ensures PlanOf(c)[q].Append?
  {
    var keys := SortedKeys(c.ws, c.supersede);
    ChainsLinked(c.ws, c.supersede, c.now, keys);
  }

  lemma AppendedKept(t: Table, c: Call, p: nat)
    requires CallAccepted(c) && p < |PlanOf(c)| && PlanOf(c)[p].Append?
    ensures PlanOf(c)[p].index < |c.ws| && |AfterCall(t, c)| == |t| + |PlanOf(c)|
    ensures AfterCall(t, c)[|t| + p] == PlainRow(c.ws[PlanOf(c)[p].index], c.now)
  {
    RowKept(t, c, p);
    SplitPlan(t, c, p);
    var rest := PlanOf(c)[p + 1..];
    forall m | 0 <= m < |rest| ensures rest[m].Append? { AppendsComeLast(c, p, p + 1 + m); }
    var after := Applied(BeforeStep(t, c, p), c.ws, c.now, PlanOf(c)[p]);
    OtherStepsKeep(after, c.ws, c.now, rest, |t| + p);
  }

  /**
   A row with cardinality `many`, with an end of its own, or of a call that replays windows as they
   were, is stored with exactly the end the caller gave it, open when that is none.
   */
  lemma StandaloneKeepsItsEnd(t: Table, c: Call, ids: seq<nat>, i: nat)
    requires CallAccepted(c) && |ids| == |c.ws| && Filed(ids, |t|, Plan(c.ws, c.supersede, c.now))
    requires i < |c.ws| && (c.ws[i].cardinality == Many || c.ws[i].validTo.Some? || !c.supersede)
    ensures ids[i] < |AfterCall(t, c)|
    ensures AfterCall(t, c)[ids[i]].validTo
         == if c.ws[i].validTo.Some? then Some(1000 * c.ws[i].validTo.value) else None
  {
    var p := PlaceOf(t, c, ids, i);
    PlanLinked(c.ws, c.supersede, c.now);
    AppendedKept(t, c, p);
  }

  /** And a call of such rows only leaves every earlier row as it was. */
  lemma StandaloneClosesNothing(t: Table, c: Call)
    requires CallAccepted(c)
    requires forall i | 0 <= i < |c.ws| :: c.ws[i].cardinality == Many || c.ws[i].validTo.Some? || !c.supersede
    ensures t <= AfterCall(t, c)
  {
    PlanLinked(c.ws, c.supersede, c.now);
    CallLength(t, c);
    forall j: nat | j < |t| ensures AfterCall(t, c)[j] == t[j] {
      OtherStepsKeep(t, c.ws, c.now, PlanOf(c), j);
    }
  }

  // ---- Rows that were there before ----

  /** The call writes a value of the row's key, from `s`, at or after the row's own start. */
  ghost predicate ClosesAt(t: Table, c: Call, j: nat, s: int) {
    j < |t| && exists m: nat :: TakesPart(c, t[j].key, m) && Start(c, m) == s && t[j].validFrom <= s
  }

  predicate Hits(r: Row, c: Call, q: nat) {
    && q < |PlanOf(c)| && PlanOf(c)[q].Replace? && PlanOf(c)[q].index < |c.ws|
    && c.ws[PlanOf(c)[q].index].key == r.key && r.validFrom <= Start(c, PlanOf(c)[q].index)
  }

  /** One step closes an open row it hits, and leaves any other. */
  lemma StepOnRow(before: Table, c: Call, q: nat, j: nat)
    requires q < |PlanOf(c)| && j < |before|
    ensures PlanOf(c)[q].index < |c.ws|
    ensures var after := Applied(before, c.ws, c.now, PlanOf(c)[q]);
            && |after| == |before| + 1
            && after[j] == if before[j].validTo.None? && Hits(before[j], c, q)
                           then before[j].(validTo := Some(Start(c, PlanOf(c)[q].index))) else before[j]
  {
    PlanLinked(c.ws, c.supersede, c.now);
  }

  /** An open row is closed by the first step that hits it. */
  lemma {:induction false} FirstHitCloses(t: Table, c: Call, j: nat, n: nat) returns (q: Option<nat>)
    requires j < |t| && t[j].validTo.None? && n <= |PlanOf(c)|
    ensures |BeforeStep(t, c, n)| == |t| + n
    ensures q.None? ==> BeforeStep(t, c, n)[j] == t[j] && forall m: nat | m < n :: !Hits(t[j], c, m)
    ensures q.Some? ==>
      && q.value < n && Hits(t[j], c, q.value) && (forall m: nat | m < q.value :: !Hits(t[j], c, m))
      && BeforeStep(t, c, n)[j] == t[j].(validTo := Some(Start(c, PlanOf(c)[q.value].index)))
  {
    if n == 0 {
      q := None;
      assert PlanOf(c)[..0] == [];
    } else {
      q := FirstHitCloses(t, c, j, n - 1);
      RunNext(t, c.ws, c.now, PlanOf(c), n - 1);
      StepOnRow(BeforeStep(t, c, n - 1), c, n - 1, j);
      if q.None? && Hits(t[j], c, n - 1) { q := Some(n - 1); }
    }
  }

  lemma HitCloses(t: Table, c: Call, j: nat, q: nat)
    requires j < |t| && Hits(t[j], c, q)
    ensures ClosesAt(t, c, j, Start(c, PlanOf(c)[q].index))
  {
    PlanLinked(c.ws, c.supersede, c.now);
    assert TakesPart(c, t[j].key, PlanOf(c)[q].index);
  }

  lemma ClosingHits(t: Table, c: Call, j: nat, s: int) returns (q: nat)
    requires ClosesAt(t, c, j, s)
    ensures Hits(t[j], c, q) && Start(c, PlanOf(c)[q].index) == s
  {
    var m: nat :| TakesPart(c, t[j].key, m) && Start(c, m) == s && t[j].validFrom <= s;
    q := StepOf(c, m);
  }

  lemma StepOf(c: Call, m: nat) returns (q: nat)
    requires m < |c.ws|
    ensures q < |PlanOf(c)| && PlanOf(c)[q].index == m
    ensures PlanOf(c)[q].Replace? <==> TakesPart(c, c.ws[m].key, m)
  {
    PlanWritesEachRowOnce(c.ws, c.supersede, c.now);
    PlanLinked(c.ws, c.supersede, c.now);
    q := IndexOf(Indexes(PlanOf(c)), m);
  }

  /**
   An open row ends where the first of the call's values for its key from its own start on starts,
   and stays open when there is none; a closed row, and every other field, stays as it was.
   */
  lemma OldRowOutcome(t: Table, c: Call, j: nat)
    requires CallAccepted(c) && j < |t|
    ensures |AfterCall(t, c)| == |t| + |c.ws|
    ensures var end := AfterCall(t, c)[j].validTo;
            && AfterCall(t, c)[j] == t[j].(validTo := end)
            && (t[j].validTo.Some? ==> end == t[j].validTo)
            && (t[j].validTo.None? ==>
                  && (end.Some? ==> ClosesAt(t, c, j, end.value))
                  && forall s | ClosesAt(t, c, j, s) :: end.Some? && end.value <= s)
  {
    PlanWritesEachRowOnce(c.ws, c.supersede, c.now);
    CallLength(t, c);
    CallExtends(t, c);
    if t[j].validTo.None? {
      var plan := PlanOf(c);
      assert plan[..|plan|] == plan;
      var q := FirstHitCloses(t, c, j, |plan|);
      if q.Some? { HitCloses(t, c, j, q.value); }
      forall s | ClosesAt(t, c, j, s) ensures q.Some? && Start(c, plan[q.value].index) <= s {
        var h := ClosingHits(t, c, j, s);
        if q.Some? && q.value < h { StartsRise(c, t[j].key, q.value, h); }
      }
    }
  }

  // ---- Rows that take part ----

  /** A start that comes after row `i`'s: of an open value found in the table, or of a later row of the call. */
  ghost predicate NextStart(t: Table, c: Call, i: nat, s: int)
    requires i < |c.ws|
  {
    || (exists j :: 0 <= j < |t| && t[j].key == c.ws[i].key && t[j].validTo.None?
                    && Start(c, i) < t[j].validFrom && t[j].validFrom == s)
    || (exists m: nat :: TakesPart(c, c.ws[i].key, m) && Later(c, i, m) && Start(c, m) == s)
  }

  lemma LaterOneWay(c: Call, i: nat, m: nat)
    requires i < |c.ws| && m < |c.ws|
    ensures !(Later(c, i, m) && Later(c, m, i))
    ensures i == m || Later(c, i, m) || Later(c, m, i)
  {
  }

  /** A group in start order lists its rows from the earliest to the latest. */
  lemma OrderedIsLater(c: Call, text: string, p: nat, q: nat)
    requires p < q < |Ordered(c.ws, c.supersede, c.now, text)|
    ensures var ordered := Ordered(c.ws, c.supersede, c.now, text);
            ordered[p] < |c.ws| && ordered[q] < |c.ws| && Later(c, ordered[p], ordered[q])
  {
    var group, ordered := Group(c.ws, c.supersede, text, |c.ws|), Ordered(c.ws, c.supersede, c.now, text);
    var a, b := ordered[p], ordered[q];
    OrderedInRange(c.ws, c.supersede, c.now, text);
    ByStartPermutes(c.ws, group, c.now);
    GroupInRange(c.ws, c.supersede, text, |c.ws|);
    PermutationDistinct(group, ordered);
    if StartOrder(c.ws, c.now)(b, a) {
      assert a in group && b in group;
      TiesKeepPlace(c, group, ordered, a, b);
    }
    StartsByMillis(c, a, b);
  }

  lemma TiesKeepPlace(c: Call, group: seq<nat>, ordered: seq<nat>, a: nat, b: nat)
    requires ordered == ByStart(c.ws, group, c.now) && Distinct(ordered) && ComesBefore(ordered, a, b)
    requires forall p, q | 0 <= p < q < |group| :: group[p] < group[q]
    requires a in group && b in group && StartOrder(c.ws, c.now)(b, a)
    ensures a < b
  {
    if b < a {
      var p := IndexOf(group, b);
      var q := IndexOf(group, a);
      assert ComesBefore(group, b, a);
      StartOrderIsPreorder(c.ws, c.now);
      SortKeepsBefore(StartOrder(c.ws, c.now), group, b, a);
      BeforeOneWay(ordered, a, b);
    }
    BeforeOneWay(ordered, a, b);
  }

  lemma StartsByMillis(c: Call, a: nat, b: nat)
    requires a < |c.ws| && b < |c.ws| && StartOrder(c.ws, c.now)(a, b)
    requires StartOrder(c.ws, c.now)(b, a) ==> a < b
    ensures Later(c, a, b)
  {
    var x, y := SortMillis(c.ws, c.now, a), SortMillis(c.ws, c.now, b);
    assert 1000 * (c.now / 1000) <= c.now < 1000 * (c.now / 1000 + 1);
    assert 1000 * x <= Start(c, a) < 1000 * (x + 1);
    assert 1000 * y <= Start(c, b) < 1000 * (y + 1);
  }

  lemma {:induction false} ChainsAreLater(c: Call, keys: seq<string>, p: nat, q: nat)
    requires Distinct(keys) && p < q < |Chains(c.ws, c.supersede, c.now, keys)|
    requires var a := Chains(c.ws, c.supersede, c.now, keys);
             && a[p].index < |c.ws| && a[q].index < |c.ws| && c.ws[a[p].index].key == c.ws[a[q].index].key
    ensures var a := Chains(c.ws, c.supersede, c.now, keys);
            Later(c, a[p].index, a[q].index)
  {
    var front, last := keys[..|keys| - 1], keys[|keys| - 1];
    var a, b := Chains(c.ws, c.supersede, c.now, front), ChainOf(c.ws, c.supersede, c.now, last);
    if q < |a| {
      ChainsAreLater(c, front, p, q);
    } else {
      ChainLinked(c.ws, c.supersede, c.now, last);
      assert InGroup(c.ws, c.supersede, last, b[q - |a|].index);
      assert p >= |a| by { OtherKeys(c.ws, c.supersede, c.now, front, last, p); }
      ChainAt(c.ws, c.supersede, c.now, last, p - |a|);
      ChainAt(c.ws, c.supersede, c.now, last, q - |a|);
      OrderedIsLater(c, last, p - |a|, q - |a|);
    }
  }

  /** Of two rows of a key, the later one is written later. */
  lemma WrittenLater(c: Call, k: Key, p: nat, q: nat)
    requires Writes(c, k, p) && Writes(c, k, q)
    ensures p < q <==> Later(c, PlanOf(c)[p].index, PlanOf(c)[q].index)
  {
    var keys := SortedKeys(c.ws, c.supersede);
    var a := Chains(c.ws, c.supersede, c.now, keys);
    SortedKeysAre(c.ws, c.supersede);
    assert forall m | 0 <= m < |PlanOf(c)| && PlanOf(c)[m].Replace? :: m < |a| && PlanOf(c)[m] == a[m];
    LaterOneWay(c, PlanOf(c)[p].index, PlanOf(c)[q].index);
    if p < q { ChainsAreLater(c, keys, p, q); }
    if q < p { ChainsAreLater(c, keys, q, p); }
  }

  /** What a step finds open under its key, starting later: the open values of the table, no row of the call. */
  lemma FoundOpen(t: Table, c: Call, k: Key, p: nat, j: nat)
    requires CallAccepted(c) && Writes(c, k, p) && j < |t| + p
    ensures |BeforeStep(t, c, p)| == |t| + p
    ensures var r, start := BeforeStep(t, c, p)[j], Start(c, PlanOf(c)[p].index);
            (IsOpen(r, k) && start < r.validFrom <==> j < |t| && IsOpen(t[j], k) && start < t[j].validFrom)
    ensures j < |t| ==> BeforeStep(t, c, p)[j].validFrom == t[j].validFrom
  {
    BeforeLength(t, c, p);
    RunExtends(t, c.ws, c.now, PlanOf(c)[..p]);
    if j < |t| {
      if t[j].validTo.None? {
        var q := FirstHitCloses(t, c, j, p);
        if q.Some? && t[j].key == k { StartsRise(c, k, q.value, p); }
      }
    } else {
      NotOpenAnyMore(t, c, k, j - |t|, p);
    }
  }

  lemma NotOpenAnyMore(t: Table, c: Call, k: Key, q: nat, p: nat)
    requires CallAccepted(c) && q < p && Writes(c, k, p)
    ensures |BeforeStep(t, c, p)| == |t| + p && !IsOpen(BeforeStep(t, c, p)[|t| + q], k)
  {
    var plan := PlanOf(c);
    PlanLinked(c.ws, c.supersede, c.now);
    if plan[q].Append? { AppendsComeLast(c, q, p); }
    assert plan[..p][..q] == plan[..q];
    RunAt(t, c.ws, c.supersede, c.now, plan[..p], q);
    if Writes(c, k, q) { EarlierIsClosed(t, c, k, q, p); }
  }

  /** The open values a step limits its row by. */
  lemma NextOpenOutcome(t: Table, c: Call, k: Key, p: nat)
    requires CallAccepted(c) && Writes(c, k, p)
    ensures var start := Start(c, PlanOf(c)[p].index);
            var next := NextOpen(Closed(BeforeStep(t, c, p), k, start), k, start);
            && (next.Some? ==>
                  exists j :: 0 <= j < |t| && IsOpen(t[j], k) && start < t[j].validFrom && t[j].validFrom == next.value)
            && forall j | 0 <= j < |t| && IsOpen(t[j], k) && start < t[j].validFrom ::
                 next.Some? && next.value <= t[j].validFrom
  {
    var before, start := BeforeStep(t, c, p), Start(c, PlanOf(c)[p].index);
    var closed := Closed(before, k, start);
    var next := NextOpen(closed, k, start);
    BeforeLength(t, c, p);
    NextOpenSpec(closed, k, start);
    if next.Some? {
      var j: nat :| j < |closed| && IsOpen(closed[j], k) && closed[j].validFrom == next.value && start < next.value;
      FoundOpen(t, c, k, p, j);
    }
    forall j: nat | j < |t| && IsOpen(t[j], k) && start < t[j].validFrom
      ensures next.Some? && next.value <= t[j].validFrom
    {
      FoundOpen(t, c, k, p, j);
      assert IsOpen(closed[j], k);
    }
  }

  /** The row of the call a step is told of is the next of its key, when there is one. */
  lemma NextInCallOutcome(c: Call, k: Key, p: nat)
    requires CallAccepted(c) && Writes(c, k, p)
    ensures var i, next := PlanOf(c)[p].index, PlanOf(c)[p].nextInCall;
            && (next.Some? ==> Start(c, i) <= next.value
                               && exists m: nat :: TakesPart(c, k, m) && Later(c, i, m) && Start(c, m) == next.value)
            && forall m: nat | TakesPart(c, k, m) && Later(c, i, m) :: next.Some? && next.value <= Start(c, m)
  {
    var plan := PlanOf(c);
    var i, next := plan[p].index, plan[p].nextInCall;
    PlanLinked(c.ws, c.supersede, c.now);
    if next.Some? {
      assert Writes(c, k, p + 1);
      WrittenLater(c, k, p, p + 1);
      assert TakesPart(c, k, plan[p + 1].index);
    }
    forall m: nat | TakesPart(c, k, m) && Later(c, i, m) ensures next.Some? && next.value <= Start(c, m) {
      var q := StepOf(c, m);
      WrittenLater(c, k, p, q);
      StartsRise(c, k, p, q);
      if p + 1 < q { StartsRise(c, k, p + 1, q); }
    }
  }

  /**
   A row that takes part ends at the first start that comes after its own, be it of a value the
   table held open or of a later row of the call, and stays open when there is none.
   */
  lemma NewRowOutcome(t: Table, c: Call, ids: seq<nat>, i: nat)
    requires CallAccepted(c) && |ids| == |c.ws| && Filed(ids, |t|, Plan(c.ws, c.supersede, c.now))
    requires i < |c.ws| && TakesPart(c, c.ws[i].key, i)
    ensures ids[i] < |AfterCall(t, c)|
    ensures var end := AfterCall(t, c)[ids[i]].validTo;
            && (end.Some? ==> NextStart(t, c, i, end.value))
            && forall s | NextStart(t, c, i, s) :: end.Some? && end.value <= s
  {
    var k := c.ws[i].key;
    var p := PlaceOf(t, c, ids, i);
    PlanLinked(c.ws, c.supersede, c.now);
    assert Writes(c, k, p);
    WindowOf(t, c, k, p);
    NextOpenOutcome(t, c, k, p);
    NextInCallOutcome(c, k, p);
  }
}
