/**
 What the facts table says about one key over any sequence of calls: its windows, read as of an
 instant, agree with the simple timeline of the values written.
 */
module FactTimeline {
  import opened Options
  import opened Facts
  import Members

  /** The as-of window test of packages/db/src/facts-read.ts. */
  predicate AsOf(r: Row, at: int) {
    r.validFrom <= at && (r.validTo.None? || at < r.validTo.value)
  }

  /** The row was written without an end of the caller's own. */
  predicate Counted(r: Row) {
    !r.origin.OwnEnd?
  }

  /** Row `i` ends where row `j` of the same key starts; the window is empty only on a tie `j` won. */
  ghost predicate EndsAt(t: Table, i: int, j: int) {
    && 0 <= i < |t| && 0 <= j < |t|
    && t[j].key == t[i].key && Counted(t[j])
    && t[i].validTo == Some(t[j].validFrom)
    && t[i].validFrom <= t[j].validFrom
    && (t[i].validFrom == t[j].validFrom ==> i < j)
  }

  /** Inside a call: the newest row ends where the next row of the call is about to start. */
  type Pending = Option<(Key, int)>

  ghost predicate EndsAtNext(t: Table, i: int, pending: Pending) {
    && pending.Some? && i == |t| - 1 && 0 <= i
    && t[i].key == pending.value.0
    && t[i].validTo == Some(pending.value.1)
    && t[i].validFrom <= pending.value.1
  }

  /** Every end is open, another such row's start, or about to be. */
  ghost predicate Settled(t: Table, pending: Pending) {
    && (forall i | 0 <= i < |t| && t[i].validTo.None? :: Counted(t[i]))
    && (forall i | 0 <= i < |t| && Counted(t[i]) && t[i].validTo.Some? ::
          EndsAtNext(t, i, pending) || exists j :: EndsAt(t, i, j))
  }

  function PendingAfter(w: FactWrite, nextInCall: Option<int>): Pending {
    if nextInCall.None? then None else Some((w.key, nextInCall.value))
  }

  ghost predicate Continues(w: FactWrite, now: int, pending: Pending) {
    pending.Some? ==> pending.value == (w.key, StartOf(w, now))
  }

  lemma {:induction false} NextOpenSpec(t: Table, k: Key, start: int)
    ensures var n := NextOpen(t, k, start);
            && (n.Some? ==> exists j :: 0 <= j < |t| && IsOpen(t[j], k) && t[j].validFrom == n.value && start < n.value)
            && forall j | 0 <= j < |t| && IsOpen(t[j], k) && start < t[j].validFrom ::
                 n.Some? && n.value <= t[j].validFrom
  {
    if t != [] { NextOpenSpec(t[..|t| - 1], k, start); }
  }

  // ---- Every step keeps the ends settled ----

  lemma ReplaceSettles(t: Table, w: FactWrite, now: int, nextInCall: Option<int>, pending: Pending)
    requires Settled(t, pending) && Continues(w, now, pending)
    requires nextInCall.Some? ==> StartOf(w, now) <= nextInCall.value
    ensures Settled(Replaced(t, w, now, nextInCall), PendingAfter(w, nextInCall))
  {
    var start := StartOf(w, now);
    var closed := Closed(t, w.key, start);
    var r := Replaced(t, w, now, nextInCall);
    NextOpenSpec(closed, w.key, start);
    forall i | 0 <= i < |r| && Counted(r[i]) && r[i].validTo.Some?
      ensures EndsAtNext(r, i, PendingAfter(w, nextInCall)) || exists j :: EndsAt(r, i, j)
    {
      if i < |t| {
        OldRowSettled(t, w, now, nextInCall, pending, i);
      } else {
        NewRowSettled(t, w, now, nextInCall);
      }
    }
  }

  lemma OldRowSettled(t: Table, w: FactWrite, now: int, nextInCall: Option<int>, pending: Pending, i: nat)
    requires Settled(t, pending) && Continues(w, now, pending) && i < |t|
    requires Counted(t[i]) && Replaced(t, w, now, nextInCall)[i].validTo.Some?
    ensures exists j :: EndsAt(Replaced(t, w, now, nextInCall), i, j)
  {
    var r := Replaced(t, w, now, nextInCall);
    if t[i].validTo.None? || EndsAtNext(t, i, pending) {
      assert EndsAt(r, i, |t|);
    } else {
      var j :| EndsAt(t, i, j);
      assert EndsAt(r, i, j);
    }
  }

  lemma NewRowSettled(t: Table, w: FactWrite, now: int, nextInCall: Option<int>)
    requires nextInCall.Some? ==> StartOf(w, now) <= nextInCall.value
    requires forall i | 0 <= i < |t| && t[i].validTo.None? :: Counted(t[i])
    requires Replaced(t, w, now, nextInCall)[|t|].validTo.Some?
    ensures var r := Replaced(t, w, now, nextInCall);
            EndsAtNext(r, |t|, PendingAfter(w, nextInCall)) || exists j :: EndsAt(r, |t|, j)
  {
    var start := StartOf(w, now);
    var closed := Closed(t, w.key, start);
    var r := Replaced(t, w, now, nextInCall);
    var nextOpen := NextOpen(closed, w.key, start);
    NextOpenSpec(closed, w.key, start);
    if nextOpen.Some? && r[|t|].validTo == nextOpen {
      var j :| 0 <= j < |closed| && IsOpen(closed[j], w.key) && closed[j].validFrom == nextOpen.value && start < nextOpen.value;
      assert EndsAt(r, |t|, j);
    }
  }

  lemma AppendSettles(t: Table, w: FactWrite, now: int)
    requires Settled(t, None)
    ensures Settled(t + [PlainRow(w, now)], None)
  {
    var r := t + [PlainRow(w, now)];
    forall i | 0 <= i < |r| && Counted(r[i]) && r[i].validTo.Some? ensures exists j :: EndsAt(r, i, j) {
      var j :| EndsAt(t, i, j);
      assert EndsAt(r, i, j);
    }
  }

  function PendingOf(ws: seq<FactWrite>, steps: seq<Step>): Pending {
    if steps == [] || steps[|steps| - 1].Append? || steps[|steps| - 1].index >= |ws| then None
    else PendingAfter(ws[steps[|steps| - 1].index], steps[|steps| - 1].nextInCall)
  }

  lemma {:induction false} RunSettles(
    t: Table, ws: seq<FactWrite>, supersede: bool, now: int, steps: seq<Step>, n: nat)
    requires Settled(t, None) && n <= |steps| && Linked(ws, now, steps) && InRange(ws, supersede, steps)
    ensures Settled(Run(t, ws, now, steps[..n]), PendingOf(ws, steps[..n]))
  {
    if n > 0 {
      RunSettles(t, ws, supersede, now, steps, n - 1);
      assert steps[..n][..n - 1] == steps[..n - 1];
      var before := Run(t, ws, now, steps[..n - 1]);
      var step := steps[n - 1];
      StepFollows(ws, supersede, now, steps, n);
      if step.Replace? {
        ReplaceSettles(before, ws[step.index], now, step.nextInCall, PendingOf(ws, steps[..n - 1]));
      } else {
        AppendSettles(before, ws[step.index], now);
      }
    }
  }

  /** In a linked plan, a step that was announced is the one that comes. */
  lemma StepFollows(ws: seq<FactWrite>, supersede: bool, now: int, steps: seq<Step>, n: nat)
    requires 0 < n <= |steps| && Linked(ws, now, steps) && InRange(ws, supersede, steps)
    ensures var step := steps[n - 1];
            && step.index < |ws|
            && Continues(ws[step.index], now, PendingOf(ws, steps[..n - 1]))
            && (step.Append? ==> PendingOf(ws, steps[..n - 1]) == None)
            && (step.Replace? && step.nextInCall.Some? ==> StartOf(ws[step.index], now) <= step.nextInCall.value)
  {
    if n > 1 { assert steps[..n - 1][n - 2] == steps[n - 2]; }
  }

  lemma PlanEndsSettled(ws: seq<FactWrite>, supersede: bool, now: int)
    ensures PendingOf(ws, Plan(ws, supersede, now)) == None
  {
    PlanLinked(ws, supersede, now);
  }

  lemma PlanSettles(t: Table, ws: seq<FactWrite>, supersede: bool, now: int, plan: seq<Step>)
    requires Settled(t, None) && plan == Plan(ws, supersede, now)
    ensures Settled(Run(t, ws, now, plan), None)
  {
    PlanLinked(ws, supersede, now);
    PlanEndsSettled(ws, supersede, now);
    RunSettles(t, ws, supersede, now, plan, |plan|);
    assert plan[..|plan|] == plan;
  }

  /** One call keeps every end settled, whatever order of starts it brings. */
  lemma CallSettles(t: Table, c: Call)
    requires Settled(t, None)
    ensures Settled(AfterCall(t, c), None)
  {
    PlanSettles(t, c.ws, c.supersede, c.now, Plan(c.ws, c.supersede, c.now));
  }

  lemma {:induction false} CallsSettle(calls: seq<Call>)
    ensures Settled(AfterCalls([], calls), None)
  {
    if calls != [] {
      CallsSettle(calls[..|calls| - 1]);
      CallSettles(AfterCalls([], calls[..|calls| - 1]), calls[|calls| - 1]);
    }
  }

  // ---- The head of a key's timeline is always read ----

  /** Row `i` has the greatest start at or before `at`, and was written last among equal starts. */
  ghost predicate IsHead(t: Table, k: Key, at: int, i: int) {
    && 0 <= i < |t| && t[i].key == k && Counted(t[i]) && t[i].validFrom <= at
    && forall j | 0 <= j < |t| && t[j].key == k && Counted(t[j]) && t[j].validFrom <= at ::
         t[j].validFrom < t[i].validFrom || (t[j].validFrom == t[i].validFrom && j <= i)
  }

  lemma SettledHeadIsRead(t: Table, k: Key, at: int, i: nat)
    requires Settled(t, None) && IsHead(t, k, at, i)
    ensures AsOf(t[i], at)
  {
    if t[i].validTo.Some? {
      var j :| EndsAt(t, i, j);
    }
  }

  /**
   After any sequence of calls, in any order of starts, mixing single-valued, coexisting and
   imported rows: the latest value of a key at or before an instant is returned for that instant.
   */
  lemma HeadIsAlwaysRead(calls: seq<Call>, k: Key, at: int, i: nat)
    requires IsHead(AfterCalls([], calls), k, at, i)
    ensures AsOf(AfterCalls([], calls)[i], at)
  {
    CallsSettle(calls);
    SettledHeadIsRead(AfterCalls([], calls), k, at, i);
  }

  ghost predicate HasStart(t: Table, k: Key, at: int) {
    exists j :: 0 <= j < |t| && t[j].key == k && Counted(t[j]) && t[j].validFrom <= at
  }

  lemma {:induction false} HeadExists(t: Table, k: Key, at: int) returns (i: nat)
    requires HasStart(t, k, at)
    ensures IsHead(t, k, at, i)
    decreases t
  {
    var front, last := t[..|t| - 1], |t| - 1;
    assert forall j | 0 <= j < last :: t[j] == front[j];
    if HasStart(front, k, at) {
      var h := HeadExists(front, k, at);
      i := if t[last].key == k && Counted(t[last]) && t[h].validFrom <= t[last].validFrom <= at then last else h;
    } else {
      i := last;
    }
  }

  /** From a key's earliest start on, no instant is without a value. */
  lemma NoGaps(calls: seq<Call>, k: Key, at: int)
    requires HasStart(AfterCalls([], calls), k, at)
    ensures exists i :: 0 <= i < |AfterCalls([], calls)| && AfterCalls([], calls)[i].key == k
                        && AsOf(AfterCalls([], calls)[i], at)
  {
    var i := HeadExists(AfterCalls([], calls), k, at);
    HeadIsAlwaysRead(calls, k, at, i);
  }

  // ---- Rows are only appended, and only ever closed ----

  /** `r` extends `t`: old rows keep their places and change at most by being closed, no earlier than they start. */
  ghost predicate Extends(t: Table, r: Table) {
    && |t| <= |r|
    && forall i | 0 <= i < |t| ::
         || r[i] == t[i]
         || (t[i].validTo.None? && r[i].validTo.Some? && t[i].validFrom <= r[i].validTo.value
             && r[i] == t[i].(validTo := r[i].validTo))
  }

  lemma {:induction false} RunExtends(t: Table, ws: seq<FactWrite>, now: int, steps: seq<Step>)
    ensures Extends(t, Run(t, ws, now, steps))
  {
    if steps != [] { RunExtends(t, ws, now, steps[..|steps| - 1]); }
  }

  lemma CallExtends(t: Table, c: Call)
    ensures Extends(t, AfterCall(t, c))
  {
    RunExtends(t, c.ws, c.now, Plan(c.ws, c.supersede, c.now));
  }

  // ---- A key written single-valued only ----

  ghost predicate SingleOnly(t: Table, k: Key) {
    forall i | 0 <= i < |t| && t[i].key == k :: t[i].origin.Single?
  }

  ghost predicate HasRow(t: Table, k: Key) {
    exists i :: 0 <= i < |t| && t[i].key == k
  }

  ghost predicate OpenAt(t: Table, k: Key, i: int) {
    0 <= i < |t| && IsOpen(t[i], k)
  }

  ghost predicate AtMostOneOpen(t: Table, k: Key) {
    forall i, j :: OpenAt(t, k, i) && OpenAt(t, k, j) ==> i == j
  }

  ghost predicate OneOpen(t: Table, k: Key) {
    AtMostOneOpen(t, k) && exists i :: OpenAt(t, k, i)
  }

  ghost predicate OpenInvariant(t: Table, k: Key, pending: Pending) {
    && AtMostOneOpen(t, k)
    && (HasRow(t, k) && !(pending.Some? && pending.value.0 == k) ==> OneOpen(t, k))
  }

  lemma ReplaceKeepsOneOpen(t: Table, w: FactWrite, now: int, nextInCall: Option<int>, pending: Pending, k: Key)
    requires OpenInvariant(t, k, pending) && Continues(w, now, pending)
    ensures OpenInvariant(Replaced(t, w, now, nextInCall), k, PendingAfter(w, nextInCall))
  {
    var start := StartOf(w, now);
    var closed := Closed(t, w.key, start);
    var r := Replaced(t, w, now, nextInCall);
    NextOpenSpec(closed, w.key, start);
    assert forall i | 0 <= i < |t| :: OpenAt(r, k, i) ==> OpenAt(t, k, i);
    assert forall i | 0 <= i < |t| :: OpenAt(r, w.key, i) ==> start < t[i].validFrom;
    if k != w.key {
      assert forall i | 0 <= i < |t| :: r[i].key == k ==> r[i] == t[i];
      if HasRow(r, k) {
        assert HasRow(t, k);
        var i :| OpenAt(t, k, i);
        assert OpenAt(r, k, i);
      }
    } else if nextInCall.None? {
      if r[|t|].validTo.None? {
        assert OpenAt(r, k, |t|);
      } else {
        var j :| 0 <= j < |closed| && IsOpen(closed[j], k) && start < closed[j].validFrom;
        assert OpenAt(r, k, j);
      }
    }
  }

  lemma AppendKeepsOneOpen(t: Table, w: FactWrite, now: int, k: Key)
    requires OpenInvariant(t, k, None) && w.key != k
    ensures OpenInvariant(t + [PlainRow(w, now)], k, None)
  {
    var r := t + [PlainRow(w, now)];
    assert forall i :: OpenAt(r, k, i) <==> OpenAt(t, k, i);
    if HasRow(r, k) { assert HasRow(t, k); }
  }

  lemma {:induction false} RunKeepsOneOpen(
    t: Table, ws: seq<FactWrite>, supersede: bool, now: int, steps: seq<Step>, n: nat, k: Key)
    requires n <= |steps| && Linked(ws, now, steps) && InRange(ws, supersede, steps)
    requires OpenInvariant(t, k, None) && SingleOnly(Run(t, ws, now, steps[..n]), k)
    ensures OpenInvariant(Run(t, ws, now, steps[..n]), k, PendingOf(ws, steps[..n]))
  {
    if n > 0 {
      assert steps[..n][..n - 1] == steps[..n - 1];
      var before, after := Run(t, ws, now, steps[..n - 1]), Run(t, ws, now, steps[..n]);
      var step := steps[n - 1];
      StepFollows(ws, supersede, now, steps, n);
      assert forall i | 0 <= i < |before| :: before[i].key == after[i].key && before[i].origin == after[i].origin;
      RunKeepsOneOpen(t, ws, supersede, now, steps, n - 1, k);
      if step.Replace? {
        ReplaceKeepsOneOpen(before, ws[step.index], now, step.nextInCall, PendingOf(ws, steps[..n - 1]), k);
      } else {
        assert after[|before|].key == k ==> after[|before|].origin.Single?;
        AppendKeepsOneOpen(before, ws[step.index], now, k);
      }
    }
  }

  lemma {:induction false} CallsKeepOneOpen(calls: seq<Call>, k: Key)
    requires SingleOnly(AfterCalls([], calls), k)
    ensures OpenInvariant(AfterCalls([], calls), k, None)
  {
    if calls != [] {
      var before, c := AfterCalls([], calls[..|calls| - 1]), calls[|calls| - 1];
      CallExtends(before, c);
      CallsKeepOneOpen(calls[..|calls| - 1], k);
      var plan := Plan(c.ws, c.supersede, c.now);
      PlanLinked(c.ws, c.supersede, c.now);
      PlanEndsSettled(c.ws, c.supersede, c.now);
      assert plan[..|plan|] == plan;
      if CallAccepted(c) {
        RunKeepsOneOpen(before, c.ws, c.supersede, c.now, plan, |plan|, k);
      }
    }
  }

  /**
   A key only ever written single-valued has exactly one open value after every call, whatever the
   order of starts; no window ends before it starts; and from the earliest start on there is no gap.
   */
  lemma SingleValuedKey(calls: seq<Call>, k: Key)
    requires SingleOnly(AfterCalls([], calls), k) && HasRow(AfterCalls([], calls), k)
    ensures OneOpen(AfterCalls([], calls), k)
    ensures forall i | 0 <= i < |AfterCalls([], calls)| && AfterCalls([], calls)[i].key == k ::
              var r := AfterCalls([], calls)[i];
              && (r.validTo.Some? ==> r.validFrom <= r.validTo.value)
              && forall at | r.validFrom <= at :: CoveredAt(AfterCalls([], calls), k, at)
  {
    var t := AfterCalls([], calls);
    CallsKeepOneOpen(calls, k);
    CallsSettle(calls);
    forall i, at | 0 <= i < |t| && t[i].key == k && t[i].validFrom <= at ensures CoveredAt(t, k, at) {
      NoGaps(calls, k, at);
    }
  }

  ghost predicate CoveredAt(t: Table, k: Key, at: int) {
    exists i :: 0 <= i < |t| && t[i].key == k && AsOf(t[i], at)
  }

  // ---- Values written in order of their starts ----

  /** Row `i` is the last row of key `k`. */
  ghost predicate IsLast(t: Table, k: Key, i: int) {
    0 <= i < |t| && t[i].key == k && forall j | i < j < |t| :: t[j].key != k
  }

  /** Row `j` is the next row of the key after row `i`. */
  ghost predicate IsNext(t: Table, k: Key, i: int, j: int) {
    0 <= i < j < |t| && t[i].key == k && t[j].key == k && forall m | i < m < j :: t[m].key != k
  }

  ghost predicate StartsInOrder(t: Table, k: Key) {
    forall i, j | 0 <= i < j < |t| && t[i].key == k && t[j].key == k :: t[i].validFrom <= t[j].validFrom
  }

  /** Each row of the key ends where the next one starts; the last is open, or about to end. */
  ghost predicate Chained(t: Table, k: Key, pending: Pending) {
    && (forall i, j | IsNext(t, k, i, j) :: t[i].validTo == Some(t[j].validFrom))
    && (forall i | IsLast(t, k, i) ::
          t[i].validTo == if pending.Some? && pending.value.0 == k then Some(pending.value.1) else None)
  }

  lemma ReplaceChains(t: Table, w: FactWrite, now: int, nextInCall: Option<int>, pending: Pending, k: Key)
    requires Chained(t, k, pending) && Continues(w, now, pending)
    requires StartsInOrder(Replaced(t, w, now, nextInCall), k)
    requires nextInCall.Some? ==> StartOf(w, now) <= nextInCall.value
    ensures Chained(Replaced(t, w, now, nextInCall), k, PendingAfter(w, nextInCall))
  {
    var r := Replaced(t, w, now, nextInCall);
    if w.key == k {
      NewestChains(t, w, now, nextInCall, pending);
    } else {
      assert forall i | 0 <= i < |t| :: r[i].key == k ==> r[i] == t[i];
      forall i, j | IsNext(r, k, i, j) ensures r[i].validTo == Some(r[j].validFrom) { assert IsNext(t, k, i, j); }
      forall i | IsLast(r, k, i)
        ensures r[i].validTo == None && !(pending.Some? && pending.value.0 == k)
      {
        assert IsLast(t, k, i);
      }
    }
  }

  lemma NewestChains(t: Table, w: FactWrite, now: int, nextInCall: Option<int>, pending: Pending)
    requires Chained(t, w.key, pending) && Continues(w, now, pending)
    requires StartsInOrder(Replaced(t, w, now, nextInCall), w.key)
    requires nextInCall.Some? ==> StartOf(w, now) <= nextInCall.value
    ensures Chained(Replaced(t, w, now, nextInCall), w.key, PendingAfter(w, nextInCall))
  {
    var k, start := w.key, StartOf(w, now);
    var closed, r := Closed(t, k, start), Replaced(t, w, now, nextInCall);
    NextOpenSpec(closed, k, start);
    assert forall i | 0 <= i < |t| && t[i].key == k :: r[i].validFrom <= r[|t|].validFrom;
    assert NextOpen(closed, k, start) == None;
    forall i, j | IsNext(r, k, i, j) ensures r[i].validTo == Some(r[j].validFrom) {
      if j < |t| {
        assert IsNext(t, k, i, j);
      } else {
        assert IsLast(t, k, i);
      }
    }
    forall i | IsLast(r, k, i)
      ensures r[i].validTo == if nextInCall.Some? then nextInCall else None
    {
      assert i == |t|;
    }
  }

  lemma SkipOther(t: Table, x: Row, k: Key, i: int, j: int)
    requires x.key != k
    ensures IsNext(t + [x], k, i, j) ==> IsNext(t, k, i, j)
    ensures IsLast(t + [x], k, i) ==> IsLast(t, k, i)
  {
    var r := t + [x];
    assert r[|t|] == x && forall m | 0 <= m < |t| :: r[m] == t[m];
  }

  lemma AppendChains(t: Table, w: FactWrite, now: int, k: Key)
    requires Chained(t, k, None) && w.key != k
    ensures Chained(t + [PlainRow(w, now)], k, None)
  {
    var r := t + [PlainRow(w, now)];
    forall i, j | IsNext(r, k, i, j) ensures r[i].validTo == Some(r[j].validFrom) { SkipOther(t, PlainRow(w, now), k, i, j); }
    forall i | IsLast(r, k, i) ensures r[i].validTo == None { SkipOther(t, PlainRow(w, now), k, i, i); }
  }

  /** Starts and origins never change, so what holds of them at the end held all along. */
  lemma PrefixOf(t: Table, r: Table, k: Key)
    requires Extends(t, r) && SingleOnly(r, k) && StartsInOrder(r, k)
    ensures SingleOnly(t, k) && StartsInOrder(t, k)
  {
    assert forall i | 0 <= i < |t| ::
        r[i].key == t[i].key && r[i].validFrom == t[i].validFrom && r[i].origin == t[i].origin;
  }

  lemma {:induction false} RunChains(
    t: Table, ws: seq<FactWrite>, supersede: bool, now: int, steps: seq<Step>, n: nat, k: Key)
    requires n <= |steps| && Linked(ws, now, steps) && InRange(ws, supersede, steps) && Chained(t, k, None)
    requires SingleOnly(Run(t, ws, now, steps[..n]), k) && StartsInOrder(Run(t, ws, now, steps[..n]), k)
    ensures Chained(Run(t, ws, now, steps[..n]), k, PendingOf(ws, steps[..n]))
  {
    if n > 0 {
      assert steps[..n][..n - 1] == steps[..n - 1];
      var before, after := Run(t, ws, now, steps[..n - 1]), Run(t, ws, now, steps[..n]);
      var step := steps[n - 1];
      StepFollows(ws, supersede, now, steps, n);
      RunExtends(before, ws, now, [step]);
      assert [step][..0] == [];
      assert after == Run(before, ws, now, [step]);
      PrefixOf(before, after, k);
      RunChains(t, ws, supersede, now, steps, n - 1, k);
      if step.Replace? {
        ReplaceChains(before, ws[step.index], now, step.nextInCall, PendingOf(ws, steps[..n - 1]), k);
      } else {
        assert after[|before|].key == k ==> after[|before|].origin.Single?;
        AppendChains(before, ws[step.index], now, k);
      }
    }
  }

  lemma {:induction false} CallsChain(calls: seq<Call>, k: Key)
    requires SingleOnly(AfterCalls([], calls), k) && StartsInOrder(AfterCalls([], calls), k)
    ensures Chained(AfterCalls([], calls), k, None)
  {
    if calls != [] {
      var before, c := AfterCalls([], calls[..|calls| - 1]), calls[|calls| - 1];
      CallExtends(before, c);
      PrefixOf(before, AfterCalls([], calls), k);
      CallsChain(calls[..|calls| - 1], k);
      var plan := Plan(c.ws, c.supersede, c.now);
      PlanLinked(c.ws, c.supersede, c.now);
      PlanEndsSettled(c.ws, c.supersede, c.now);
      assert plan[..|plan|] == plan;
      if CallAccepted(c) {
        RunChains(before, c.ws, c.supersede, c.now, plan, |plan|, k);
      }
    }
  }

  /** The simple timeline: the value in force at an instant is the last one written at or before it. */
  function LastWrite(t: Table, k: Key, at: int): Option<nat> {
    if t == [] then None
    else
      var last := |t| - 1;
      if t[last].key == k && t[last].validFrom <= at then Some(last) else LastWrite(t[..last], k, at)
  }

  lemma {:induction false} LastWriteSpec(t: Table, k: Key, at: int)
    ensures var n := LastWrite(t, k, at);
            && (n.Some? ==> n.value < |t| && t[n.value].key == k && t[n.value].validFrom <= at)
            && forall j | (if n.Some? then n.value < j else 0 <= j) && j < |t| && t[j].key == k :: at < t[j].validFrom
  {
    if t != [] { LastWriteSpec(t[..|t| - 1], k, at); }
  }

  lemma {:induction false} NextRow(t: Table, k: Key, i: nat, n: nat) returns (j: nat)
    requires i < n < |t| && t[i].key == k && t[n].key == k
    ensures i < j <= n && IsNext(t, k, i, j)
    decreases n
  {
    if m :| i < m < n && t[m].key == k {
      j := NextRow(t, k, i, m);
    } else {
      j := n;
    }
  }

  /** A row either is the last of its key and open, or ends where the next row of its key starts. */
  lemma ChainEnd(t: Table, k: Key, j: nat) returns (next: Option<nat>)
    requires Chained(t, k, None) && j < |t| && t[j].key == k
    ensures next.None? ==> IsLast(t, k, j) && t[j].validTo.None?
    ensures next.Some? ==> IsNext(t, k, j, next.value) && t[j].validTo == Some(t[next.value].validFrom)
  {
    if m :| j < m < |t| && t[m].key == k {
      var n := NextRow(t, k, j, m);
      next := Some(n);
    } else {
      assert IsLast(t, k, j);
      next := None;
    }
  }

  lemma ChainReadsOneRow(t: Table, k: Key, at: int, j: nat)
    requires Chained(t, k, None) && StartsInOrder(t, k) && j < |t| && t[j].key == k
    ensures AsOf(t[j], at) <==> LastWrite(t, k, at) == Some(j)
  {
    LastWriteSpec(t, k, at);
    var l := LastWrite(t, k, at);
    if l.Some? && j < l.value {
      EarlierEnded(t, k, j, l.value);
    } else if l == Some(j) {
      var next := ChainEnd(t, k, j);
    }
  }

  lemma EarlierEnded(t: Table, k: Key, j: nat, l: nat)
    requires Chained(t, k, None) && StartsInOrder(t, k)
    requires j < l < |t| && t[j].key == k && t[l].key == k
    ensures t[j].validTo.Some? && t[j].validTo.value <= t[l].validFrom
  {
    var n := NextRow(t, k, j, l);
    LaterStartsLater(t, k, n, l);
    EndsAtNextStart(t, k, j, n);
  }

  lemma LaterStartsLater(t: Table, k: Key, n: nat, l: nat)
    requires StartsInOrder(t, k) && n <= l < |t| && t[n].key == k && t[l].key == k
    ensures t[n].validFrom <= t[l].validFrom
  {
  }

  lemma EndsAtNextStart(t: Table, k: Key, j: nat, n: nat)
    requires Chained(t, k, None) && IsNext(t, k, j, n)
    ensures t[j].validTo == Some(t[n].validFrom)
  {
  }

  /**
   When a key's values are written in order of their starts, the table is the simple timeline: the
   as-of test picks out the last value written at or before the instant, and no other row.
   */
  lemma InOrderRefinesTimeline(calls: seq<Call>, k: Key, at: int)
    requires SingleOnly(AfterCalls([], calls), k) && StartsInOrder(AfterCalls([], calls), k)
    ensures forall j: nat | j < |AfterCalls([], calls)| && AfterCalls([], calls)[j].key == k ::
              AsOf(AfterCalls([], calls)[j], at) <==> LastWrite(AfterCalls([], calls), k, at) == Some(j)
  {
    var t := AfterCalls([], calls);
    CallsChain(calls, k);
    forall j: nat | j < |t| && t[j].key == k ensures AsOf(t[j], at) <==> LastWrite(t, k, at) == Some(j) {
      ChainReadsOneRow(t, k, at, j);
    }
  }

  /** And once nothing starts after `now`, the current row is the row as of `now`. */
  lemma CurrentIsAsOfNow(calls: seq<Call>, k: Key, now: int, j: nat)
    requires SingleOnly(AfterCalls([], calls), k) && StartsInOrder(AfterCalls([], calls), k)
    requires forall i | 0 <= i < |AfterCalls([], calls)| && AfterCalls([], calls)[i].key == k ::
               AfterCalls([], calls)[i].validFrom <= now
    requires j < |AfterCalls([], calls)| && AfterCalls([], calls)[j].key == k
    ensures AfterCalls([], calls)[j].validTo.None? <==> AsOf(AfterCalls([], calls)[j], now)
  {
    var t := AfterCalls([], calls);
    CallsChain(calls, k);
    ChainReadsOneRow(t, k, now, j);
    LastWriteSpec(t, k, now);
    var next := ChainEnd(t, k, j);
  }

  // ---- Overlap ----

  ghost predicate Overlap(a: Row, b: Row) {
    exists at :: AsOf(a, at) && AsOf(b, at)
  }

  ghost predicate Disjoint(t: Table, k: Key) {
    forall i, j | 0 <= i < j < |t| && t[i].key == k && t[j].key == k :: !Overlap(t[i], t[j])
  }

  /** The position a step puts its row at; from then on the row is only ever closed. */
  lemma RunAt(t: Table, ws: seq<FactWrite>, supersede: bool, now: int, steps: seq<Step>, p: nat)
    requires p < |steps| && InRange(ws, supersede, steps)
    ensures var before, r := Run(t, ws, now, steps[..p]), Run(t, ws, now, steps);
            && |before| == |t| + p && |r| == |t| + |steps|
            && Extends(Applied(before, ws, now, steps[p]), r)
  {
    var upTo := steps[..p + 1];
    assert upTo[..p] == steps[..p];
    RunLength(t, ws, supersede, now, steps[..p]);
    RunLength(t, ws, supersede, now, steps);
    assert steps == upTo + steps[p + 1..];
    RunConcat(t, ws, now, upTo, steps[p + 1..]);
    RunExtends(Run(t, ws, now, upTo), ws, now, steps[p + 1..]);
  }

  /** What a call's `p`th step leaves at its place, a closed row ending no earlier than it starts. */
  lemma StepRow(t: Table, ws: seq<FactWrite>, supersede: bool, now: int, steps: seq<Step>, p: nat)
    requires p < |steps| && InRange(ws, supersede, steps) && Linked(ws, now, steps) && steps[p].Replace?
    ensures var r := Run(t, ws, now, steps);
            && |r| == |t| + |steps|
            && r[|t| + p].key == ws[steps[p].index].key
            && r[|t| + p].validFrom == StartOf(ws[steps[p].index], now)
            && r[|t| + p].value == ws[steps[p].index].value
            && r[|t| + p].memoryId == ws[steps[p].index].memoryId
            && (steps[p].nextInCall.Some? ==>
                  && r[|t| + p].validTo.Some?
                  && r[|t| + p].validFrom <= r[|t| + p].validTo.value <= steps[p].nextInCall.value)
  {
    RunAt(t, ws, supersede, now, steps, p);
    var before := Run(t, ws, now, steps[..p]);
    var after := Applied(before, ws, now, steps[p]);
    NewestRow(before, ws[steps[p].index], now, steps[p].nextInCall);
  }

  lemma NewestRow(t: Table, w: FactWrite, now: int, nextInCall: Option<int>)
    requires nextInCall.Some? ==> StartOf(w, now) <= nextInCall.value
    ensures var r := Replaced(t, w, now, nextInCall);
            && |r| == |t| + 1 && r[|t|].key == w.key && r[|t|].validFrom == StartOf(w, now)
            && r[|t|].value == w.value && r[|t|].memoryId == w.memoryId
            && (nextInCall.Some? ==>
                  r[|t|].validTo.Some? && r[|t|].validFrom <= r[|t|].validTo.value <= nextInCall.value)
  {
  }

  lemma {:induction false} RunLength(t: Table, ws: seq<FactWrite>, supersede: bool, now: int, steps: seq<Step>)
    requires InRange(ws, supersede, steps)
    ensures |Run(t, ws, now, steps)| == |t| + |steps|
  {
    if steps != [] { RunLength(t, ws, supersede, now, steps[..|steps| - 1]); }
  }

  /** Steps of one chain: consecutive single-valued steps of one key. */
  ghost predicate SameChain(ws: seq<FactWrite>, steps: seq<Step>, p: nat, q: nat) {
    && p < q < |steps|
    && forall m | p <= m < q :: steps[m].Replace? && steps[m].nextInCall.Some?
  }

  /** Along a chain, each window ends no later than any later value of the chain starts. */
  lemma {:induction false} ChainWindowsApart(
    t: Table, ws: seq<FactWrite>, supersede: bool, now: int, steps: seq<Step>, p: nat, q: nat)
    requires InRange(ws, supersede, steps) && Linked(ws, now, steps) && SameChain(ws, steps, p, q)
    ensures var r := Run(t, ws, now, steps);
            && steps[q].Replace? && |r| == |t| + |steps|
            && r[|t| + p].key == r[|t| + q].key
            && r[|t| + p].validTo.Some? && r[|t| + p].validTo.value <= r[|t| + q].validFrom
    decreases q - p
  {
    assert steps[p].nextInCall.Some? && steps[q - 1].nextInCall.Some?;
    StepRow(t, ws, supersede, now, steps, p);
    StepRow(t, ws, supersede, now, steps, q);
    if p + 1 < q {
      ChainWindowsApart(t, ws, supersede, now, steps, p + 1, q);
      StepRow(t, ws, supersede, now, steps, p + 1);
    }
  }

  /** Two single-valued rows of one key that one call writes. */
  ghost predicate SameKeySteps(c: Call, p: nat, q: nat) {
    var plan := Plan(c.ws, c.supersede, c.now);
    && p < q < |plan| && plan[p].Replace? && plan[q].Replace?
    && plan[p].index < |c.ws| && plan[q].index < |c.ws|
    && c.ws[plan[p].index].key == c.ws[plan[q].index].key
  }

  /**
   Whatever the table held before, the windows one call writes for a key never overlap: the first
   of any two ends no later than the second starts, ties and landings below a newer value included.
   */
  lemma CallWindowsDisjoint(t: Table, c: Call, p: nat, q: nat)
    requires CallAccepted(c) && SameKeySteps(c, p, q)
    ensures var r := AfterCall(t, c);
            && |r| == |t| + |Plan(c.ws, c.supersede, c.now)|
            && r[|t| + p].key == c.ws[Plan(c.ws, c.supersede, c.now)[p].index].key == r[|t| + q].key
            && r[|t| + p].validTo.Some? && r[|t| + p].validTo.value <= r[|t| + q].validFrom
            && !Overlap(r[|t| + p], r[|t| + q])
  {
    var plan := Plan(c.ws, c.supersede, c.now);
    PlanLinked(c.ws, c.supersede, c.now);
    SameKeySameChain(c, p, q);
    ChainWindowsApart(t, c.ws, c.supersede, c.now, plan, p, q);
    StepRow(t, c.ws, c.supersede, c.now, plan, p);
  }

  lemma SameKeySameChain(c: Call, p: nat, q: nat)
    requires SameKeySteps(c, p, q)
    ensures SameChain(c.ws, Plan(c.ws, c.supersede, c.now), p, q)
  {
    var keys := SortedKeys(c.ws, c.supersede);
    var a := Chains(c.ws, c.supersede, c.now, keys);
    var plan := Plan(c.ws, c.supersede, c.now);
    SortedKeysAre(c.ws, c.supersede);
    assert forall m | 0 <= m < |plan| && plan[m].Replace? :: m < |a|;
    assert forall m | 0 <= m < |a| :: plan[m] == a[m];
    ChainsGroup(c.ws, c.supersede, c.now, keys, p, q);
  }

  lemma {:induction false} ChainsGroup(ws: seq<FactWrite>, supersede: bool, now: int, keys: seq<string>, p: nat, q: nat)
    requires Members.Distinct(keys)
    requires p < q < |Chains(ws, supersede, now, keys)|
    requires var a := Chains(ws, supersede, now, keys);
             && a[p].index < |ws| && a[q].index < |ws| && ws[a[p].index].key == ws[a[q].index].key
    ensures SameChain(ws, Chains(ws, supersede, now, keys), p, q)
  {
    var front, last := keys[..|keys| - 1], keys[|keys| - 1];
    var a, b := Chains(ws, supersede, now, front), ChainOf(ws, supersede, now, last);
    ChainsLinked(ws, supersede, now, front);
    ChainLinked(ws, supersede, now, last);
    if q < |a| {
      ChainsGroup(ws, supersede, now, front, p, q);
    } else {
      assert InGroup(ws, supersede, last, b[q - |a|].index);
      assert p >= |a| by { OtherKeys(ws, supersede, now, front, last, p); }
    }
  }

  lemma OtherKeys(ws: seq<FactWrite>, supersede: bool, now: int, front: seq<string>, last: string, p: nat)
    requires last !in front
    ensures var a := Chains(ws, supersede, now, front);
            p < |a| ==> a[p].index < |ws| && KeyText(ws[a[p].index].key) != last
  {
    ChainsLinked(ws, supersede, now, front);
  }

  // ---- The limit of append-only history ----

  /** A closed window with some time in `[start, end)`. */
  predicate Meets(r: Row, start: int, end: Option<int>) {
    && r.validTo.Some? && r.validFrom < r.validTo.value && start < r.validTo.value
    && (end.None? || (start < end.value && r.validFrom < end.value))
  }

  /** The end one write gives its row. */
  function EndGiven(t: Table, w: FactWrite, now: int, nextInCall: Option<int>): Option<int> {
    var start := StartOf(w, now);
    EndFor(start, nextInCall, NextOpen(Closed(t, w.key, start), w.key, start))
  }

  lemma OverlapsNewRow(t: Table, w: FactWrite, now: int, nextInCall: Option<int>, i: nat)
    requires i < |t| && t[i].key == w.key
    ensures Overlap(Replaced(t, w, now, nextInCall)[i], Replaced(t, w, now, nextInCall)[|t|])
       <==> Meets(t[i], StartOf(w, now), EndGiven(t, w, now, nextInCall))
  {
    var start, end, r := StartOf(w, now), EndGiven(t, w, now, nextInCall), Replaced(t, w, now, nextInCall);
    NextOpenSpec(Closed(t, w.key, start), w.key, start);
    if Meets(t[i], start, end) {
      var at := if start <= t[i].validFrom then t[i].validFrom else start;
      assert AsOf(r[i], at) && AsOf(r[|t|], at);
    }
  }

  /**
   One write, anywhere in its call, keeps a key's windows disjoint if and only if no closed window of
   the key has time in the window the new row is given.
   */
  lemma BackdateOverlapsExactly(t: Table, w: FactWrite, now: int, nextInCall: Option<int>)
    requires Disjoint(t, w.key)
    ensures Disjoint(Replaced(t, w, now, nextInCall), w.key)
       <==> forall i | 0 <= i < |t| && t[i].key == w.key :: !Meets(t[i], StartOf(w, now), EndGiven(t, w, now, nextInCall))
  {
    var r := Replaced(t, w, now, nextInCall);
    assert forall i, at | 0 <= i < |t| && AsOf(r[i], at) :: AsOf(t[i], at);
    assert forall i, j | 0 <= i < j < |t| && Overlap(r[i], r[j]) :: Overlap(t[i], t[j]);
    forall i | 0 <= i < |t| && t[i].key == w.key
      ensures Overlap(r[i], r[|t|]) <==> Meets(t[i], StartOf(w, now), EndGiven(t, w, now, nextInCall))
    {
      OverlapsNewRow(t, w, now, nextInCall, i);
    }
  }

  // ---- The same for a whole call ----

  /** The call's rows for `k` all take part in supersession. */
  ghost predicate OnlySingle(c: Call, k: Key) {
    forall i | 0 <= i < |c.ws| && c.ws[i].key == k :: Supersedes(c.ws[i], c.supersede)
  }

  function PlanOf(c: Call): seq<Step> {
    Plan(c.ws, c.supersede, c.now)
  }

  ghost predicate Writes(c: Call, k: Key, p: nat) {
    && p < |PlanOf(c)| && PlanOf(c)[p].Replace? && PlanOf(c)[p].index < |c.ws|
    && c.ws[PlanOf(c)[p].index].key == k
  }

  function StartAt(c: Call, p: nat): int
    requires p < |PlanOf(c)| && PlanOf(c)[p].index < |c.ws|
  {
    StartOf(c.ws[PlanOf(c)[p].index], c.now)
  }

  /** What the call's `p`th step found. */
  function BeforeStep(t: Table, c: Call, p: nat): Table
    requires p <= |PlanOf(c)|
  {
    Run(t, c.ws, c.now, PlanOf(c)[..p])
  }

  lemma {:induction false} OtherStepsKeep(t: Table, ws: seq<FactWrite>, now: int, steps: seq<Step>, i: nat)
    requires i < |t|
    requires forall m | 0 <= m < |steps| && steps[m].Replace? && steps[m].index < |ws| :: ws[steps[m].index].key != t[i].key
    ensures i < |Run(t, ws, now, steps)| && Run(t, ws, now, steps)[i] == t[i]
  {
    if steps != [] { OtherStepsKeep(t, ws, now, steps[..|steps| - 1], i); }
  }

  lemma StartsRise(c: Call, k: Key, q: nat, p: nat)
    requires CallAccepted(c) && q < p && Writes(c, k, q) && Writes(c, k, p)
    ensures PlanOf(c)[q].nextInCall.Some? && StartAt(c, q) <= StartAt(c, p)
  {
    PlanLinked(c.ws, c.supersede, c.now);
    SameKeySameChain(c, q, p);
    CallWindowsDisjoint([], c, q, p);
    StepRow([], c.ws, c.supersede, c.now, PlanOf(c), q);
    StepRow([], c.ws, c.supersede, c.now, PlanOf(c), p);
  }

  /** The row a step writes keeps the end it was given. */
  lemma WindowOf(t: Table, c: Call, k: Key, p: nat)
    requires CallAccepted(c) && Writes(c, k, p)
    ensures var r, w, next := AfterCall(t, c), c.ws[PlanOf(c)[p].index], PlanOf(c)[p].nextInCall;
            && |r| == |t| + |PlanOf(c)| && r[|t| + p].key == k && r[|t| + p].validFrom == StartAt(c, p)
            && r[|t| + p].validTo == EndGiven(BeforeStep(t, c, p), w, c.now, next)
  {
    var plan := PlanOf(c);
    PlanLinked(c.ws, c.supersede, c.now);
    StepRow(t, c.ws, c.supersede, c.now, plan, p);
    RunAt(t, c.ws, c.supersede, c.now, plan, p);
    if plan[p].nextInCall.None? { LastRowKept(t, c, k, p); }
  }

  lemma SplitPlan(t: Table, c: Call, p: nat)
    requires CallAccepted(c) && p < |PlanOf(c)|
    ensures var plan := PlanOf(c);
            && Run(t, c.ws, c.now, plan[..p + 1]) == Applied(BeforeStep(t, c, p), c.ws, c.now, plan[p])
            && AfterCall(t, c) == Run(Run(t, c.ws, c.now, plan[..p + 1]), c.ws, c.now, plan[p + 1..])
  {
    var plan := PlanOf(c);
    RunNext(t, c.ws, c.now, plan, p);
    assert plan == plan[..p + 1] + plan[p + 1..];
    RunConcat(t, c.ws, c.now, plan[..p + 1], plan[p + 1..]);
  }

  lemma RestIsOther(c: Call, k: Key, p: nat)
    requires CallAccepted(c) && Writes(c, k, p) && PlanOf(c)[p].nextInCall.None?
    ensures var rest := PlanOf(c)[p + 1..];
            forall m | 0 <= m < |rest| && rest[m].Replace? && rest[m].index < |c.ws| :: c.ws[rest[m].index].key != k
  {
    var rest := PlanOf(c)[p + 1..];
    forall m | 0 <= m < |rest| && rest[m].Replace? && rest[m].index < |c.ws| ensures c.ws[rest[m].index].key != k {
      NothingFollows(c, k, p, p + 1 + m);
    }
  }

  lemma LastRowKept(t: Table, c: Call, k: Key, p: nat)
    requires CallAccepted(c) && Writes(c, k, p) && PlanOf(c)[p].nextInCall.None?
    ensures var before := BeforeStep(t, c, p);
            && |before| == |t| + p && |AfterCall(t, c)| == |t| + |PlanOf(c)|
            && AfterCall(t, c)[|t| + p] == Applied(before, c.ws, c.now, PlanOf(c)[p])[|t| + p]
  {
    BeforeLength(t, c, p);
    CallLength(t, c);
    SplitPlan(t, c, p);
    RestIsOther(c, k, p);
    var after := Applied(BeforeStep(t, c, p), c.ws, c.now, PlanOf(c)[p]);
    OtherStepsKeep(after, c.ws, c.now, PlanOf(c)[p + 1..], |t| + p);
  }

  lemma NothingFollows(c: Call, k: Key, p: nat, q: nat)
    requires CallAccepted(c) && Writes(c, k, p) && p < q && PlanOf(c)[p].nextInCall.None?
    ensures !Writes(c, k, q)
  {
    if Writes(c, k, q) { StartsRise(c, k, p, q); }
  }

  /** A value that a run of steps closes ends where one of them starts. */
  lemma {:induction false} ClosedAtAStart(t: Table, ws: seq<FactWrite>, now: int, steps: seq<Step>, i: nat) returns (q: nat)
    requires i < |t| && t[i].validTo.None?
    requires i < |Run(t, ws, now, steps)| && Run(t, ws, now, steps)[i].validTo.Some?
    ensures q < |steps| && steps[q].Replace? && steps[q].index < |ws| && ws[steps[q].index].key == t[i].key
    ensures Run(t, ws, now, steps)[i].validTo.value == StartOf(ws[steps[q].index], now)
  {
    var front := steps[..|steps| - 1];
    var before := Run(t, ws, now, front);
    RunExtends(t, ws, now, front);
    if before[i].validTo.Some? {
      q := ClosedAtAStart(t, ws, now, front, i);
    } else {
      q := |steps| - 1;
    }
  }

  /** A value that was open before the call is out of the way of every row the call writes. */
  lemma OpenGivesWay(t: Table, c: Call, k: Key, i: nat, p: nat)
    requires CallAccepted(c) && Writes(c, k, p) && i < |t| && t[i].key == k && t[i].validTo.None?
    ensures |AfterCall(t, c)| == |t| + |PlanOf(c)| && !Overlap(AfterCall(t, c)[i], AfterCall(t, c)[|t| + p])
  {
    var plan, before, r := PlanOf(c), BeforeStep(t, c, p), AfterCall(t, c);
    var w, start := c.ws[plan[p].index], StartAt(c, p);
    WindowOf(t, c, k, p);
    PlanLinked(c.ws, c.supersede, c.now);
    RunExtends(t, c.ws, c.now, plan[..p]);
    RunAt(t, c.ws, c.supersede, c.now, plan, p);
    if before[i].validTo.Some? {
      var q := ClosedAtAStart(t, c.ws, c.now, plan[..p], i);
      StartsRise(c, k, q, p);
      assert r[i].validTo == before[i].validTo;
    } else {
      NextOpenSpec(Closed(before, k, start), k, start);
      assert IsOpen(before[i], k);
    }
  }

  lemma RowOfStep(t: Table, c: Call, k: Key, p: nat)
    requires CallAccepted(c) && OnlySingle(c, k) && p < |PlanOf(c)|
    ensures |AfterCall(t, c)| == |t| + |PlanOf(c)|
    ensures AfterCall(t, c)[|t| + p].key == k ==> Writes(c, k, p)
  {
    PlanLinked(c.ws, c.supersede, c.now);
    RunAt(t, c.ws, c.supersede, c.now, PlanOf(c), p);
  }

  /** Every window of the key that is closed before the call has run out by every start the call writes. */
  ghost predicate AllRunOut(t: Table, c: Call, k: Key) {
    forall i, m | 0 <= i < |t| && t[i].key == k && t[i].validTo.Some? && t[i].validFrom < t[i].validTo.value
                  && 0 <= m < |c.ws| && c.ws[m].key == k ::
      t[i].validTo.value <= StartOf(c.ws[m], c.now)
  }

  lemma RunOutPair(t: Table, c: Call, k: Key, i: nat, j: nat)
    requires CallAccepted(c) && OnlySingle(c, k) && Disjoint(t, k) && AllRunOut(t, c, k)
    requires |AfterCall(t, c)| == |t| + |PlanOf(c)| && i < j < |AfterCall(t, c)|
    requires AfterCall(t, c)[i].key == k && AfterCall(t, c)[j].key == k
    ensures !Overlap(AfterCall(t, c)[i], AfterCall(t, c)[j])
  {
    var n := |t|;
    if j < n {
      OldRowsApart(t, c, k, i, j);
    } else {
      RowOfStep(t, c, k, j - n);
      if i < n {
        OldAndNewApart(t, c, k, i, j - n);
      } else {
        RowOfStep(t, c, k, i - n);
        CallWindowsDisjoint(t, c, i - n, j - n);
      }
    }
  }

  lemma CallLength(t: Table, c: Call)
    requires CallAccepted(c)
    ensures |AfterCall(t, c)| == |t| + |PlanOf(c)|
  {
    PlanLinked(c.ws, c.supersede, c.now);
    RunLength(t, c.ws, c.supersede, c.now, PlanOf(c));
  }

  lemma RunOutIsDisjoint(t: Table, c: Call, k: Key)
    requires CallAccepted(c) && OnlySingle(c, k) && Disjoint(t, k) && AllRunOut(t, c, k)
    ensures Disjoint(AfterCall(t, c), k)
  {
    CallLength(t, c);
    var r := AfterCall(t, c);
    forall i, j | 0 <= i < j < |r| && r[i].key == k && r[j].key == k ensures !Overlap(r[i], r[j]) {
      RunOutPair(t, c, k, i, j);
    }
  }

  lemma OldRowsApart(t: Table, c: Call, k: Key, i: nat, j: nat)
    requires Disjoint(t, k) && i < j < |t| <= |AfterCall(t, c)|
    requires AfterCall(t, c)[i].key == k && AfterCall(t, c)[j].key == k
    ensures !Overlap(AfterCall(t, c)[i], AfterCall(t, c)[j])
  {
    var r := AfterCall(t, c);
    CallExtends(t, c);
    assert forall at :: AsOf(r[i], at) ==> AsOf(t[i], at);
    assert forall at :: AsOf(r[j], at) ==> AsOf(t[j], at);
    assert !Overlap(t[i], t[j]);
  }

  lemma OldAndNewApart(t: Table, c: Call, k: Key, i: nat, p: nat)
    requires CallAccepted(c) && AllRunOut(t, c, k) && Writes(c, k, p) && i < |t| <= |AfterCall(t, c)|
    requires AfterCall(t, c)[i].key == k
    ensures |AfterCall(t, c)| == |t| + |PlanOf(c)| && !Overlap(AfterCall(t, c)[i], AfterCall(t, c)[|t| + p])
  {
    CallExtends(t, c);
    WindowOf(t, c, k, p);
    if t[i].validTo.None? {
      OpenGivesWay(t, c, k, i, p);
    } else {
      assert AfterCall(t, c)[i] == t[i];
    }
  }

  /** The last step of the key that starts before `at`. */
  lemma {:induction false} LastBelow(c: Call, k: Key, at: int, p: nat, n: nat) returns (last: nat)
    requires p < n <= |PlanOf(c)| && Writes(c, k, p) && StartAt(c, p) < at
    ensures last < n && Writes(c, k, last) && StartAt(c, last) < at
    ensures forall q | last < q < n && Writes(c, k, q) :: at <= StartAt(c, q)
    decreases n
  {
    if Writes(c, k, n - 1) && StartAt(c, n - 1) < at {
      last := n - 1;
    } else {
      last := LastBelow(c, k, at, p, n - 1);
    }
  }

  /** An earlier row of the call is closed by the time a later one of its key is written. */
  lemma EarlierIsClosed(t: Table, c: Call, k: Key, q: nat, p: nat)
    requires CallAccepted(c) && q < p && Writes(c, k, q) && Writes(c, k, p)
    ensures |BeforeStep(t, c, p)| == |t| + p && BeforeStep(t, c, p)[|t| + q].validTo.Some?
  {
    var plan := PlanOf(c);
    PlanLinked(c.ws, c.supersede, c.now);
    StartsRise(c, k, q, p);
    assert plan[..p][..q] == plan[..q];
    RunAt(t, c.ws, c.supersede, c.now, plan[..p], q);
    NewestRow(Run(t, c.ws, c.now, plan[..q]), c.ws[plan[q].index], c.now, plan[q].nextInCall);
  }

  lemma NewIsNotOpen(t: Table, c: Call, k: Key, q: nat, p: nat)
    requires CallAccepted(c) && OnlySingle(c, k) && q < p && Writes(c, k, p)
    ensures |BeforeStep(t, c, p)| == |t| + p && !IsOpen(BeforeStep(t, c, p)[|t| + q], k)
  {
    var plan := PlanOf(c);
    PlanLinked(c.ws, c.supersede, c.now);
    assert plan[..p][..q] == plan[..q];
    RunAt(t, c.ws, c.supersede, c.now, plan[..p], q);
    if Writes(c, k, q) { EarlierIsClosed(t, c, k, q, p); }
  }

  lemma OldOpenStartsLater(t: Table, c: Call, k: Key, i: nat, p: nat, j: nat)
    requires Disjoint(t, k) && p <= |PlanOf(c)| && j < |t| <= |BeforeStep(t, c, p)|
    requires i < |t| && t[i].key == k && t[i].validTo.Some? && t[i].validFrom < t[i].validTo.value
    requires IsOpen(BeforeStep(t, c, p)[j], k)
    ensures t[i].validTo.value <= BeforeStep(t, c, p)[j].validFrom
  {
    RunExtends(t, c.ws, c.now, PlanOf(c)[..p]);
    var at := if t[j].validFrom <= t[i].validFrom then t[i].validFrom else t[j].validFrom;
    NotBoth(t, k, i, j, at);
  }

  /** No open value a step finds starts inside a closed window of a disjoint table. */
  lemma OpenStartsLater(t: Table, c: Call, k: Key, i: nat, p: nat, j: nat)
    requires CallAccepted(c) && OnlySingle(c, k) && Disjoint(t, k) && Writes(c, k, p)
    requires i < |t| && t[i].key == k && t[i].validTo.Some? && t[i].validFrom < t[i].validTo.value
    requires j < |BeforeStep(t, c, p)| && IsOpen(BeforeStep(t, c, p)[j], k)
    ensures t[i].validTo.value <= BeforeStep(t, c, p)[j].validFrom
  {
    BeforeLength(t, c, p);
    if j < |t| {
      OldOpenStartsLater(t, c, k, i, p, j);
    } else {
      NewIsNotOpen(t, c, k, j - |t|, p);
    }
  }

  lemma BeforeLength(t: Table, c: Call, p: nat)
    requires p <= |PlanOf(c)|
    ensures |BeforeStep(t, c, p)| == |t| + p
  {
    PlanLinked(c.ws, c.supersede, c.now);
    RunLength(t, c.ws, c.supersede, c.now, PlanOf(c)[..p]);
  }

  lemma NotBoth(t: Table, k: Key, i: nat, j: nat, at: int)
    requires Disjoint(t, k) && i < |t| && j < |t| && i != j && t[i].key == k && t[j].key == k
    ensures !(AsOf(t[i], at) && AsOf(t[j], at))
  {
    BothOverlap(t[i], t[j], at);
  }

  lemma BothOverlap(a: Row, b: Row, at: int)
    ensures AsOf(a, at) && AsOf(b, at) ==> Overlap(a, b) && Overlap(b, a)
  {
  }

  /** A window with time to run at a start the call writes is met by a row of the call. */
  lemma StillRunningIsMet(t: Table, c: Call, k: Key, i: nat, p: nat) returns (last: nat)
    requires CallAccepted(c) && OnlySingle(c, k) && Disjoint(t, k) && Writes(c, k, p)
    requires i < |t| && t[i].key == k && t[i].validTo.Some? && t[i].validFrom < t[i].validTo.value
    requires StartAt(c, p) < t[i].validTo.value
    ensures Writes(c, k, last) && |AfterCall(t, c)| == |t| + |PlanOf(c)|
    ensures AfterCall(t, c)[|t| + last].key == k && Overlap(AfterCall(t, c)[i], AfterCall(t, c)[|t| + last])
  {
    var plan, r := PlanOf(c), AfterCall(t, c);
    last := LastBelow(c, k, t[i].validTo.value, p, |plan|);
    var before, w, start := BeforeStep(t, c, last), c.ws[plan[last].index], StartAt(c, last);
    PlanLinked(c.ws, c.supersede, c.now);
    WindowOf(t, c, k, last);
    NextOpenSpec(Closed(before, k, start), k, start);
    var nextOpen := NextOpen(Closed(before, k, start), k, start);
    if nextOpen.Some? {
      var j :| 0 <= j < |before| && IsOpen(Closed(before, k, start)[j], k) && before[j].validFrom == nextOpen.value;
      OpenStartsLater(t, c, k, i, last, j);
    }
    if plan[last].nextInCall.Some? { assert Writes(c, k, last + 1); }
    CallExtends(t, c);
    var at := if start <= t[i].validFrom then t[i].validFrom else start;
    assert AsOf(r[i], at) && AsOf(r[|t| + last], at);
  }

  lemma StepOfRow(c: Call, k: Key, m: nat) returns (p: nat)
    requires OnlySingle(c, k) && m < |c.ws| && c.ws[m].key == k
    ensures Writes(c, k, p) && PlanOf(c)[p].index == m
  {
    PlanWritesEachRowOnce(c.ws, c.supersede, c.now);
    PlanLinked(c.ws, c.supersede, c.now);
    p := Members.IndexOf(Indexes(PlanOf(c)), m);
  }

  /**
   A call that writes a key single-valued keeps the key's windows disjoint if and only if every
   window of the key closed before it has run out by every start it writes.
   */
  lemma CallOverlapsExactly(t: Table, c: Call, k: Key)
    requires CallAccepted(c) && OnlySingle(c, k) && Disjoint(t, k)
    ensures Disjoint(AfterCall(t, c), k) <==> AllRunOut(t, c, k)
  {
    if AllRunOut(t, c, k) {
      RunOutIsDisjoint(t, c, k);
    } else {
      var i, m :| 0 <= i < |t| && t[i].key == k && t[i].validTo.Some? && t[i].validFrom < t[i].validTo.value
                  && 0 <= m < |c.ws| && c.ws[m].key == k && t[i].validTo.value > StartOf(c.ws[m], c.now);
      var p := StepOfRow(c, k, m);
      var last := StillRunningIsMet(t, c, k, i, p);
      CallExtends(t, c);
    }
  }

  // ---- And a table where it happens ----

  function ValueAt(k: Key, ms: int): FactWrite {
    FactWrite(k, "memory", "value", None, Some(ms), None, None, One)
  }

  function CallAt(k: Key, ms: int): Call {
    Call([ValueAt(k, ms)], true, 0)
  }

  lemma OneRowCall(t: Table, k: Key, ms: int)
    ensures AfterCall(t, CallAt(k, ms)) == Replaced(t, ValueAt(k, ms), 0, None)
  {
    var c := CallAt(k, ms);
    var plan := PlanOf(c);
    PlanWritesEachRowOnce(c.ws, c.supersede, c.now);
    PlanLinked(c.ws, c.supersede, c.now);
    assert Indexes(plan)[0] == plan[0].index;
    assert plan == [Replace(0, None)];
    assert AcceptedAt(c.ws, c.now, 0);
    OneStep(t, c.ws, c.now, 0);
  }

  lemma OneStep(t: Table, ws: seq<FactWrite>, now: int, i: nat)
    requires i < |ws|
    ensures Run(t, ws, now, [Replace(i, None)]) == Replaced(t, ws[i], now, None)
  {
    var steps := [Replace(i, None)];
    assert steps[..|steps| - 1] == [];
    assert Run(t, ws, now, []) == t;
  }

  lemma OneMoreCall(calls: seq<Call>, c: Call)
    ensures AfterCalls([], calls + [c]) == AfterCall(AfterCalls([], calls), c)
  {
    assert (calls + [c])[..|calls|] == calls;
  }

  lemma FirstValue(k: Key)
    ensures var r := AfterCall([], CallAt(k, 0));
            |r| == 1 && r[0].key == k && r[0].validFrom == 0 && r[0].validTo.None?
  {
    OneRowCall([], k, 0);
  }

  lemma SecondValue(t: Table, k: Key)
    requires |t| == 1 && t[0].key == k && t[0].validFrom == 0 && t[0].validTo.None?
    ensures var r := AfterCall(t, CallAt(k, 10));
            && |r| == 2 && r[0] == t[0].(validTo := Some(Micros(10)))
            && r[1].key == k && r[1].validFrom == Micros(10) && r[1].validTo.None?
  {
    OneRowCall(t, k, 10);
    NextOpenSpec(Closed(t, k, Micros(10)), k, Micros(10));
  }

  lemma ThirdValue(t: Table, k: Key)
    requires |t| == 2 && t[0].key == k && t[0].validFrom == 0 && t[0].validTo == Some(Micros(10))
    requires t[1].key == k && t[1].validFrom == Micros(10) && t[1].validTo.None?
    ensures !Disjoint(AfterCall(t, CallAt(k, 5)), k)
  {
    var w := ValueAt(k, 5);
    OneRowCall(t, k, 5);
    NextOpenSpec(Closed(t, k, Micros(5)), k, Micros(5));
    assert Meets(t[0], Micros(5), EndGiven(t, w, 0, None));
    OverlapsNewRow(t, w, 0, None, 0);
  }

  /** Values written for 0, 10 and then 5: the first and the last both hold at 5. */
  lemma BackdatedValueOverlaps(k: Key) returns (calls: seq<Call>)
    ensures calls == [CallAt(k, 0), CallAt(k, 10), CallAt(k, 5)]
    ensures !Disjoint(AfterCalls([], calls), k)
  {
    calls := [];
    OneMoreCall(calls, CallAt(k, 0));
    calls := calls + [CallAt(k, 0)];
    FirstValue(k);
    OneMoreCall(calls, CallAt(k, 10));
    SecondValue(AfterCalls([], calls), k);
    calls := calls + [CallAt(k, 10)];
    OneMoreCall(calls, CallAt(k, 5));
    ThirdValue(AfterCalls([], calls), k);
    calls := calls + [CallAt(k, 5)];
  }
}
