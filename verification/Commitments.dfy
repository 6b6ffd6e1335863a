/**
 The commitment state machine and its audit log (packages/db/src/commitments.ts,
 packages/db/src/fsm-trigger.ts).

 A commitment's id is its position in the table. Events are the ones these operations append.
 */
module Commitments {
  import opened Options
  import opened Members

  datatype Status = Open | Waiting | Resolved | Expired

  datatype EventKind = Create | Unresolve | Revise | Resolve | Archive

  datatype Memory = Memory(memoryType: string, validTo: Option<int>)

  datatype Commitment = Commitment(
    memoryId: int, status: Status, owner: Option<string>, dueAt: Option<int>, nextSurfacingAt: Option<int>,
    resolvedAt: Option<int>, reason: Option<string>, updatedAt: int)

  datatype Event = Event(memoryId: int, kind: EventKind, actorKind: string, runId: Option<string>)

  /** One tenant's rows. `epochs` is `activation_epoch` by session run. */
  datatype Db = Db(
    memories: map<int, Memory>, epochs: map<string, nat>, rows: seq<Commitment>, events: seq<Event>)

  datatype Error =
    | NotFound
    | StateChanged(expected: Status)
    | Illegal(from: Status, to: Status)
    | EpochFenced
    | NotCommitmentMemory
    | Exists

  datatype Outcome = Done(id: nat, status: Status) | Failed(error: Error)

  /** COMMITMENT_TRANSITIONS. */
  function Targets(from: Status): set<Status> {
    match from
    case Open => {Waiting, Resolved, Expired}
    case Waiting => {Open, Resolved, Expired}
    case Resolved => {Open}
    case Expired => {Open}
  }

  /** The trigger: a row may keep its status, otherwise the table decides. */
  predicate TriggerPasses(from: Status, to: Status) {
    from == to || to in Targets(from)
  }

  /** Anything may be reopened; only a live commitment moves anywhere else. */
  lemma LegalMoves(from: Status, to: Status)
    ensures TriggerPasses(from, to) <==> from == to || to == Open || from == Open || from == Waiting
  {
  }

  /** TRANSITION_EVENT_KIND. */
  function KindOf(to: Status): EventKind {
    match to
    case Open => Unresolve
    case Waiting => Revise
    case Resolved => Resolve
    case Expired => Archive
  }

  /** What an event says the status became. */
  function TargetOf(kind: EventKind): Status {
    match kind
    case Create => Open
    case Unresolve => Open
    case Revise => Waiting
    case Resolve => Resolved
    case Archive => Expired
  }

  // ---- The operations ----

  datatype CreateInput = CreateInput(
    memoryId: int, owner: Option<string>, dueAt: Option<int>, nextSurfacingAt: Option<int>, actorKind: string)

  datatype Stamp = Stamp(runId: string, epoch: nat)

  /** `attachedRun` is what the provenance decision yields when no stamp is given. */
  datatype TransitionInput = TransitionInput(
    commitmentId: nat, to: Status, expectedFrom: Option<Status>, reason: Option<string>,
    stamp: Option<Stamp>, attachedRun: Option<string>, actorKind: string)

  predicate RidesLive(db: Db, memoryId: int) {
    && memoryId in db.memories
    && db.memories[memoryId].memoryType == "commitment"
    && db.memories[memoryId].validTo.None?
  }

  predicate HasCommitment(db: Db, memoryId: int) {
    exists i | 0 <= i < |db.rows| :: db.rows[i].memoryId == memoryId
  }

  function Created(db: Db, input: CreateInput, now: int): (Db, Outcome) {
    if !RidesLive(db, input.memoryId) then (db, Failed(NotCommitmentMemory))
    else if HasCommitment(db, input.memoryId) then (db, Failed(Exists))
    else
      (db.(rows := db.rows + [Commitment(input.memoryId, Open, input.owner, input.dueAt, input.nextSurfacingAt, None, None, now)],
           events := db.events + [Event(input.memoryId, Create, input.actorKind, None)]),
       Done(|db.rows|, Open))
  }

  predicate FencePasses(db: Db, stamp: Option<Stamp>) {
    stamp.Some? ==> stamp.value.runId in db.epochs && db.epochs[stamp.value.runId] == stamp.value.epoch
  }

  function Moved(row: Commitment, input: TransitionInput, now: int): Commitment {
    row.(status := input.to, resolvedAt := if input.to.Resolved? then Some(now) else None,
         reason := input.reason, updatedAt := now)
  }

  function TransitionEvent(row: Commitment, input: TransitionInput): Event {
    Event(row.memoryId, KindOf(input.to), input.actorKind,
          if input.stamp.Some? then Some(input.stamp.value.runId) else input.attachedRun)
  }

  /** Why a transition is refused; the checks in the order they are made. */
  function Refusal(db: Db, input: TransitionInput): Option<Error> {
    if input.commitmentId >= |db.rows| then Some(NotFound)
    else if !FencePasses(db, input.stamp) then Some(EpochFenced)
    else
      var from := db.rows[input.commitmentId].status;
      if input.expectedFrom.Some? && from != input.expectedFrom.value then Some(StateChanged(input.expectedFrom.value))
      else if !TriggerPasses(from, input.to) then Some(Illegal(from, input.to))
      else None
  }

  function Transitioned(db: Db, input: TransitionInput, now: int): (Db, Outcome) {
    var refusal := Refusal(db, input);
    if refusal.Some? then (db, Failed(refusal.value))
    else
      var row := db.rows[input.commitmentId];
      (db.(rows := db.rows[input.commitmentId := Moved(row, input, now)],
           events := db.events + [TransitionEvent(row, input)]),
       Done(input.commitmentId, input.to))
  }

  predicate IsLive(row: Commitment) {
    row.status.Open? || row.status.Waiting?
  }

  predicate IsOverdue(row: Commitment, expireBefore: int) {
    IsLive(row) && row.dueAt.Some? && row.dueAt.value < expireBefore
  }

  function ExpiredRow(row: Commitment, expireBefore: int, now: int): Commitment {
    if IsOverdue(row, expireBefore) then row.(status := Expired, reason := None, updatedAt := now) else row
  }

  /** The memories of the overdue rows. */
  function Overdue(rows: seq<Commitment>, expireBefore: int): (r: seq<int>)
    ensures forall m :: m in r <==> exists i | 0 <= i < |rows| :: rows[i].memoryId == m && IsOverdue(rows[i], expireBefore)
  {
    if rows == [] then []
    else
      var last := rows[|rows| - 1];
      Overdue(rows[..|rows| - 1], expireBefore) + if IsOverdue(last, expireBefore) then [last.memoryId] else []
  }

  function ArchiveEvents(memoryIds: seq<int>): seq<Event> {
    seq(|memoryIds|, i requires 0 <= i < |memoryIds| => Event(memoryIds[i], Archive, "worker", None))
  }

  /** The first leg of the sweep. */
  function ExpireOverdue(db: Db, expireBefore: int, now: int): Db {
    db.(rows := seq(|db.rows|, i requires 0 <= i < |db.rows| => ExpiredRow(db.rows[i], expireBefore, now)),
        events := db.events + ArchiveEvents(Overdue(db.rows, expireBefore)))
  }

  predicate HasSurfaced(row: Commitment, now: int) {
    IsLive(row) && row.nextSurfacingAt.Some? && row.nextSurfacingAt.value < now
  }

  function SurfacedRow(row: Commitment, now: int): Commitment {
    if HasSurfaced(row, now) then row.(nextSurfacingAt := None, updatedAt := now) else row
  }

  /** The second leg of the sweep. */
  function ClearSurfaced(db: Db, now: int): Db {
    db.(rows := seq(|db.rows|, i requires 0 <= i < |db.rows| => SurfacedRow(db.rows[i], now)))
  }

  // ---- Runs ----

  /** The sweep's legs are separate statements, so other work may come between them. */
  datatype Op =
    | CreateOp(create: CreateInput)
    | TransitionOp(transition: TransitionInput)
    | ExpireOp(expireBefore: int)
    | SurfaceOp
    | Environment(memories: map<int, Memory>, epochs: map<string, nat>)

  function Apply(db: Db, op: Op, now: int): Db {
    match op
    case CreateOp(input) => Created(db, input, now).0
    case TransitionOp(input) => Transitioned(db, input, now).0
    case ExpireOp(expireBefore) => ExpireOverdue(db, expireBefore, now)
    case SurfaceOp => ClearSurfaced(db, now)
    case Environment(memories, epochs) => db.(memories := memories, epochs := epochs)
  }

  /** Commits in order, each with its transaction's start. */
  function Run(db: Db, ops: seq<(Op, int)>): Db {
    if ops == [] then db
    else
      var last := ops[|ops| - 1];
      Apply(Run(db, ops[..|ops| - 1]), last.0, last.1)
  }

  /** The lifecycle events of one memory, in commit order. */
  function Lifecycle(events: seq<Event>, memoryId: int): seq<EventKind> {
    if events == [] then []
    else
      var last := events[|events| - 1];
      Lifecycle(events[..|events| - 1], memoryId) + if last.memoryId == memoryId then [last.kind] else []
  }

  predicate Follows(kind: EventKind, next: EventKind) {
    next != Create && TriggerPasses(TargetOf(kind), TargetOf(next))
  }

  predicate LegalHistory(kinds: seq<EventKind>) {
    && kinds != []
    && kinds[0] == Create
    && forall i | 0 <= i < |kinds| - 1 :: Follows(kinds[i], kinds[i + 1])
  }

  /** What the log says of a row is what the row says of itself. */
  predicate Audited(row: Commitment, events: seq<Event>) {
    var kinds := Lifecycle(events, row.memoryId);
    && LegalHistory(kinds)
    && row.status == TargetOf(kinds[|kinds| - 1])
    && (row.resolvedAt.Some? <==> row.status.Resolved?)
  }

  predicate OnePerMemory(rows: seq<Commitment>) {
    forall i, j | 0 <= i < j < |rows| :: rows[i].memoryId != rows[j].memoryId
  }

  /** A memory without a commitment has no lifecycle events. */
  predicate SilentUntilCreated(db: Db, m: int) {
    HasCommitment(db, m) || Lifecycle(db.events, m) == []
  }

  ghost predicate Consistent(db: Db) {
    && OnePerMemory(db.rows)
    && (forall i | 0 <= i < |db.rows| :: Audited(db.rows[i], db.events))
    && (forall m: int :: SilentUntilCreated(db, m))
  }

  lemma LifecycleAppend(events: seq<Event>, e: Event, m: int)
    ensures Lifecycle(events + [e], m) == Lifecycle(events, m) + if e.memoryId == m then [e.kind] else []
  {
    assert (events + [e])[..|events|] == events;
  }

  lemma HistoryExtends(kinds: seq<EventKind>, next: EventKind)
    requires LegalHistory(kinds) && Follows(kinds[|kinds| - 1], next)
    ensures LegalHistory(kinds + [next])
  {
    var longer := kinds + [next];
    forall i | 0 <= i < |longer| - 1 ensures Follows(longer[i], longer[i + 1]) {
      if i < |kinds| - 1 { assert longer[i] == kinds[i] && longer[i + 1] == kinds[i + 1]; }
    }
  }

  /** A row moved along a passing edge, with the event of its target, stays audited. */
  lemma MoveIsAudited(row: Commitment, moved: Commitment, events: seq<Event>, e: Event)
    requires Audited(row, events) && moved.memoryId == row.memoryId == e.memoryId
    requires e.kind != Create && TargetOf(e.kind) == moved.status && TriggerPasses(row.status, moved.status)
    requires moved.resolvedAt.Some? <==> moved.status.Resolved?
    ensures Audited(moved, events + [e])
  {
    LifecycleAppend(events, e, row.memoryId);
    HistoryExtends(Lifecycle(events, row.memoryId), e.kind);
  }

  lemma OthersStayAudited(row: Commitment, events: seq<Event>, e: Event)
    requires Audited(row, events) && e.memoryId != row.memoryId
    ensures Audited(row, events + [e])
  {
    LifecycleAppend(events, e, row.memoryId);
  }

  /** Rows keep their memories, and one event is added to the log of a memory that has a row. */
  lemma SilenceKept(db: Db, after: Db, e: Event, m: int)
    requires SilentUntilCreated(db, m) && HasCommitment(after, e.memoryId) && after.events == db.events + [e]
    requires HasCommitment(db, m) ==> HasCommitment(after, m)
    ensures SilentUntilCreated(after, m)
  {
    LifecycleAppend(db.events, e, m);
  }

  lemma StillCommitted(db: Db, after: Db, m: int)
    requires |db.rows| <= |after.rows|
    requires forall i | 0 <= i < |db.rows| :: after.rows[i].memoryId == db.rows[i].memoryId
    ensures HasCommitment(db, m) ==> HasCommitment(after, m)
  {
    if HasCommitment(db, m) {
      var i :| 0 <= i < |db.rows| && db.rows[i].memoryId == m;
      assert after.rows[i].memoryId == m;
    }
  }

  lemma NewRowIsAudited(events: seq<Event>, row: Commitment, e: Event)
    requires Lifecycle(events, row.memoryId) == [] && e.memoryId == row.memoryId && e.kind == Create
    requires row.status == Open && row.resolvedAt == None
    ensures Audited(row, events + [e])
  {
    LifecycleAppend(events, e, row.memoryId);
  }

  lemma CreateKeepsConsistent(db: Db, input: CreateInput, now: int)
    requires Consistent(db)
    ensures Consistent(Created(db, input, now).0)
  {
    var after, n := Created(db, input, now).0, |db.rows|;
    if |after.rows| > n {
      var e := Event(input.memoryId, Create, input.actorKind, None);
      assert SilentUntilCreated(db, input.memoryId);
      NewRowIsAudited(db.events, after.rows[n], e);
      forall i | 0 <= i < n ensures Audited(after.rows[i], after.events) {
        OthersStayAudited(db.rows[i], db.events, e);
      }
      assert HasCommitment(after, input.memoryId) by { assert after.rows[n].memoryId == input.memoryId; }
      forall m: int ensures SilentUntilCreated(after, m) {
        StillCommitted(db, after, m);
        SilenceKept(db, after, e, m);
      }
    }
  }

  lemma TransitionKeepsConsistent(db: Db, input: TransitionInput, now: int)
    requires Consistent(db)
    ensures Consistent(Transitioned(db, input, now).0)
  {
    var after := Transitioned(db, input, now).0;
    if Refusal(db, input).None? {
      var id := input.commitmentId;
      var e := TransitionEvent(db.rows[id], input);
      forall i | 0 <= i < |after.rows| ensures Audited(after.rows[i], after.events) {
        if i == id { MoveIsAudited(db.rows[i], after.rows[i], db.events, e); }
        else { OthersStayAudited(db.rows[i], db.events, e); }
      }
      assert HasCommitment(after, e.memoryId) by { assert after.rows[id].memoryId == e.memoryId; }
      forall m: int ensures SilentUntilCreated(after, m) {
        StillCommitted(db, after, m);
        SilenceKept(db, after, e, m);
      }
    }
  }

  lemma {:induction false} OverdueDistinct(rows: seq<Commitment>, expireBefore: int)
    requires OnePerMemory(rows)
    ensures Distinct(Overdue(rows, expireBefore))
  {
    if rows != [] {
      var front, last := rows[..|rows| - 1], rows[|rows| - 1];
      OverdueDistinct(front, expireBefore);
      assert last.memoryId !in Overdue(front, expireBefore);
    }
  }

  lemma ArchivesAppend(events: seq<Event>, front: seq<int>, last: int)
    ensures events + ArchiveEvents(front + [last])
         == (events + ArchiveEvents(front)) + [Event(last, Archive, "worker", None)]
  {
  }

  /** The loop's events: one archive for each overdue memory, in the log of that memory only. */
  lemma {:induction false} LifecycleArchives(events: seq<Event>, memoryIds: seq<int>, m: int)
    requires Distinct(memoryIds)
    ensures Lifecycle(events + ArchiveEvents(memoryIds), m)
         == Lifecycle(events, m) + if m in memoryIds then [Archive] else []
  {
    if memoryIds == [] {
      assert events + ArchiveEvents(memoryIds) == events;
    } else {
      var front, last := memoryIds[..|memoryIds| - 1], memoryIds[|memoryIds| - 1];
      assert memoryIds == front + [last] && last !in front;
      LifecycleArchives(events, front, m);
      ArchivesAppend(events, front, last);
      LifecycleAppend(events + ArchiveEvents(front), Event(last, Archive, "worker", None), m);
    }
  }

  lemma SameMemoryIsSameRow(rows: seq<Commitment>, i: nat, expireBefore: int)
    requires OnePerMemory(rows) && i < |rows|
    ensures rows[i].memoryId in Overdue(rows, expireBefore) <==> IsOverdue(rows[i], expireBefore)
  {
  }

  lemma ExpiryIsAudited(rows: seq<Commitment>, events: seq<Event>, expireBefore: int, now: int, i: nat)
    requires OnePerMemory(rows) && i < |rows| && Audited(rows[i], events)
    ensures Audited(ExpiredRow(rows[i], expireBefore, now), events + ArchiveEvents(Overdue(rows, expireBefore)))
  {
    OverdueDistinct(rows, expireBefore);
    LifecycleArchives(events, Overdue(rows, expireBefore), rows[i].memoryId);
    SameMemoryIsSameRow(rows, i, expireBefore);
    if IsOverdue(rows[i], expireBefore) {
      HistoryExtends(Lifecycle(events, rows[i].memoryId), Archive);
    }
  }

  lemma ExpiryIsSilent(db: Db, expireBefore: int, now: int, m: int)
    requires Consistent(db)
    ensures SilentUntilCreated(ExpireOverdue(db, expireBefore, now), m)
  {
    StillCommitted(db, ExpireOverdue(db, expireBefore, now), m);
    assert SilentUntilCreated(db, m);
    OverdueDistinct(db.rows, expireBefore);
    LifecycleArchives(db.events, Overdue(db.rows, expireBefore), m);
  }

  lemma ExpireKeepsConsistent(db: Db, expireBefore: int, now: int)
    requires Consistent(db)
    ensures Consistent(ExpireOverdue(db, expireBefore, now))
  {
    var after := ExpireOverdue(db, expireBefore, now);
    forall i | 0 <= i < |after.rows| ensures Audited(after.rows[i], after.events) {
      ExpiryIsAudited(db.rows, db.events, expireBefore, now, i);
    }
    forall m: int ensures SilentUntilCreated(after, m) {
      ExpiryIsSilent(db, expireBefore, now, m);
    }
  }

  lemma SilenceUnaffected(db: Db, after: Db, m: int)
    requires SilentUntilCreated(db, m) && after.events == db.events && |after.rows| == |db.rows|
    requires forall i | 0 <= i < |db.rows| :: after.rows[i].memoryId == db.rows[i].memoryId
    ensures SilentUntilCreated(after, m)
  {
    StillCommitted(db, after, m);
  }

  lemma SurfaceKeepsConsistent(db: Db, now: int)
    requires Consistent(db)
    ensures Consistent(ClearSurfaced(db, now))
  {
    var after := ClearSurfaced(db, now);
    forall i | 0 <= i < |after.rows| ensures Audited(after.rows[i], after.events) {
      assert Audited(db.rows[i], db.events);
    }
    forall m: int ensures SilentUntilCreated(after, m) {
      SilenceUnaffected(db, after, m);
    }
  }

  lemma ApplyKeepsConsistent(db: Db, op: Op, now: int)
    requires Consistent(db)
    ensures Consistent(Apply(db, op, now))
  {
    match op
    case CreateOp(input) => CreateKeepsConsistent(db, input, now);
    case TransitionOp(input) => TransitionKeepsConsistent(db, input, now);
    case ExpireOp(expireBefore) => ExpireKeepsConsistent(db, expireBefore, now);
    case SurfaceOp => SurfaceKeepsConsistent(db, now);
    case Environment(_, _) =>
      var after := Apply(db, op, now);
      forall m: int ensures SilentUntilCreated(after, m) {
        SilenceUnaffected(db, after, m);
      }
  }

  /**
   After any run, every commitment's status is the one its last lifecycle event says, consecutive
   events are equal in target or a legal edge, and `resolved_at` is set exactly when resolved.
   */
  lemma {:induction false} EveryRunIsAudited(db: Db, ops: seq<(Op, int)>)
    requires db.rows == [] && db.events == []
    ensures Consistent(Run(db, ops))
  {
    if ops != [] {
      EveryRunIsAudited(db, ops[..|ops| - 1]);
      ApplyKeepsConsistent(Run(db, ops[..|ops| - 1]), ops[|ops| - 1].0, ops[|ops| - 1].1);
    }
  }

  // ---- Every event is a change ----

  /** The caller names a status to move from, and it is not the target. */
  predicate NamesChange(op: Op) {
    op.TransitionOp? ==> op.transition.expectedFrom.Some? && op.transition.expectedFrom.value != op.transition.to
  }

  /** No event repeats the status of the one before. */
  predicate NoRepeats(kinds: seq<EventKind>) {
    forall i | 0 <= i < |kinds| - 1 :: TargetOf(kinds[i]) != TargetOf(kinds[i + 1])
  }

  lemma NoRepeatsAppend(kinds: seq<EventKind>, next: EventKind)
    requires NoRepeats(kinds) && (kinds != [] ==> TargetOf(kinds[|kinds| - 1]) != TargetOf(next))
    ensures NoRepeats(kinds + [next])
  {
  }

  lemma TransitionRepeatsNothing(db: Db, input: TransitionInput, now: int, m: int)
    requires Consistent(db) && NamesChange(TransitionOp(input)) && NoRepeats(Lifecycle(db.events, m))
    ensures NoRepeats(Lifecycle(Transitioned(db, input, now).0.events, m))
  {
    if Refusal(db, input).None? {
      var row := db.rows[input.commitmentId];
      assert Audited(row, db.events);
      LifecycleAppend(db.events, TransitionEvent(row, input), m);
      if row.memoryId == m { NoRepeatsAppend(Lifecycle(db.events, m), KindOf(input.to)); }
    }
  }

  lemma CreateRepeatsNothing(db: Db, input: CreateInput, now: int, m: int)
    requires Consistent(db) && NoRepeats(Lifecycle(db.events, m))
    ensures NoRepeats(Lifecycle(Created(db, input, now).0.events, m))
  {
    assert SilentUntilCreated(db, input.memoryId);
    LifecycleAppend(db.events, Event(input.memoryId, Create, input.actorKind, None), m);
  }

  lemma ExpiryRepeatsNothing(db: Db, expireBefore: int, now: int, m: int)
    requires Consistent(db) && NoRepeats(Lifecycle(db.events, m))
    ensures NoRepeats(Lifecycle(ExpireOverdue(db, expireBefore, now).events, m))
  {
    OverdueDistinct(db.rows, expireBefore);
    LifecycleArchives(db.events, Overdue(db.rows, expireBefore), m);
    if m in Overdue(db.rows, expireBefore) {
      var i :| 0 <= i < |db.rows| && db.rows[i].memoryId == m && IsOverdue(db.rows[i], expireBefore);
      assert Audited(db.rows[i], db.events);
      NoRepeatsAppend(Lifecycle(db.events, m), Archive);
    }
  }

  /**
   When every transition names the status it moves from, and not its target, each event in the log
   is a change of status: the log counts the changes.
   */
  lemma {:induction false} EveryEventIsAChange(db: Db, ops: seq<(Op, int)>, m: int)
    requires db.rows == [] && db.events == [] && forall i | 0 <= i < |ops| :: NamesChange(ops[i].0)
    ensures NoRepeats(Lifecycle(Run(db, ops).events, m))
  {
    if ops != [] {
      var front, last := ops[..|ops| - 1], ops[|ops| - 1];
      EveryEventIsAChange(db, front, m);
      EveryRunIsAudited(db, front);
      var before := Run(db, front);
      match last.0
      case CreateOp(input) => CreateRepeatsNothing(before, input, last.1, m);
      case TransitionOp(input) => TransitionRepeatsNothing(before, input, last.1, m);
      case ExpireOp(expireBefore) => ExpiryRepeatsNothing(before, expireBefore, last.1, m);
      case SurfaceOp =>
      case Environment(_, _) =>
    }
  }

  const RESOLVE := TransitionOp(TransitionInput(0, Resolved, None, None, None, None, "user"))
  const CREATE := CreateOp(CreateInput(7, None, None, None, "user"))

  lemma RunMore(db: Db, ops: seq<(Op, int)>, op: Op, now: int)
    ensures Run(db, ops + [(op, now)]) == Apply(Run(db, ops), op, now)
  {
    assert (ops + [(op, now)])[..|ops|] == ops;
  }

  /** Without the expectation the log can say the same twice: a commitment resolved, and resolved again. */
  lemma RepeatedResolve(db: Db) returns (ops: seq<(Op, int)>)
    requires db.rows == [] && db.events == [] && RidesLive(db, 7)
    ensures ops == [(CREATE, 1), (RESOLVE, 2), (RESOLVE, 3)]
    ensures Lifecycle(Run(db, ops).events, 7) == [Create, Resolve, Resolve]
  {
    ops := [];
    RunMore(db, ops, CREATE, 1);
    ops := ops + [(CREATE, 1)];
    var first := Run(db, ops);
    LifecycleAppend([], Event(7, Create, "user", None), 7);
    assert first.events == [] + [Event(7, Create, "user", None)];
    RunMore(db, ops, RESOLVE, 2);
    ops := ops + [(RESOLVE, 2)];
    var second := Run(db, ops);
    LifecycleAppend(first.events, Event(7, Resolve, "user", None), 7);
    assert second.events == first.events + [Event(7, Resolve, "user", None)];
    RunMore(db, ops, RESOLVE, 3);
    ops := ops + [(RESOLVE, 3)];
    LifecycleAppend(second.events, Event(7, Resolve, "user", None), 7);
  }

  ghost predicate SomeStatusChanged(db: Db, after: Db) {
    |after.rows| == |db.rows| && exists i | 0 <= i < |db.rows| :: after.rows[i].status != db.rows[i].status
  }

  /** The commitment is already where the caller wants it, and the caller expects nothing else. */
  predicate AlreadyThere(db: Db, input: TransitionInput) {
    && input.commitmentId < |db.rows| && db.rows[input.commitmentId].status == input.to
    && FencePasses(db, input.stamp) && (input.expectedFrom.None? || input.expectedFrom.value == input.to)
  }

  /**
   A transition appends an event exactly when it changes the status, except for one family: a
   commitment already at the target, when the caller does not expect some other status.
   */
  lemma EventMarksChange(db: Db, input: TransitionInput, now: int)
    ensures var after := Transitioned(db, input, now).0;
            (after.events != db.events <==> SomeStatusChanged(db, after)) <==> !AlreadyThere(db, input)
  {
    var after := Transitioned(db, input, now).0;
    if Refusal(db, input).None? {
      assert after.rows[input.commitmentId].status == input.to;
    }
  }

  /** With an expected status other than the target, the audit event and the change go together. */
  lemma ExpectedChangeIsLogged(db: Db, input: TransitionInput, now: int)
    requires input.expectedFrom.Some? && input.expectedFrom.value != input.to
    ensures var (after, outcome) := Transitioned(db, input, now);
            && (outcome.Done? <==> |after.events| == |db.events| + 1)
            && (outcome.Failed? <==> after == db)
            && (outcome.Done? <==> SomeStatusChanged(db, after))
  {
    EventMarksChange(db, input, now);
  }

  /** Of two closers that saw the same status, the second to write is refused. */
  lemma SecondWriterRefused(db: Db, first: TransitionInput, second: TransitionInput, now: int, later: int)
    requires first.commitmentId == second.commitmentId
    requires first.expectedFrom == second.expectedFrom && first.expectedFrom.Some?
    requires first.to != first.expectedFrom.value
    requires Transitioned(db, first, now).1.Done?
    ensures var afterFirst := Transitioned(db, first, now).0;
            var (afterSecond, outcome) := Transitioned(afterFirst, second, later);
            && outcome.Failed? && afterSecond == afterFirst
            && (FencePasses(db, second.stamp) ==> outcome.error == StateChanged(second.expectedFrom.value))
  {
  }

  /** The sweep archives only live commitments past their date, and clears no expired one's surfacing. */
  lemma SweepTouches(db: Db, expireBefore: int, now: int, i: nat)
    requires i < |db.rows|
    ensures var after := ClearSurfaced(ExpireOverdue(db, expireBefore, now), now);
            var (row, swept) := (db.rows[i], after.rows[i]);
            && (swept.status != row.status <==> IsOverdue(row, expireBefore))
            && (swept.status != row.status ==> swept.status == Expired && swept.reason == None)
            && (swept.nextSurfacingAt != row.nextSurfacingAt <==> HasSurfaced(row, now) && !IsOverdue(row, expireBefore))
            && swept.resolvedAt == row.resolvedAt && swept.memoryId == row.memoryId
  {
  }

  // ---- What each operation leaves ----

  /** A stamp is good while its run is known and at the epoch stamped. */
  predicate Stamped(db: Db, stamp: Option<Stamp>) {
    stamp.None? || (stamp.value.runId in db.epochs && db.epochs[stamp.value.runId] == stamp.value.epoch)
  }

  /** The refusals of a transition in the order they are looked for; each changes nothing. */
  lemma TransitionRefused(db: Db, input: TransitionInput, now: int)
    ensures var (after, outcome) := Transitioned(db, input, now);
            && (outcome.Failed? ==> after == db)
            && (outcome == Failed(NotFound) <==> input.commitmentId >= |db.rows|)
            && (outcome == Failed(EpochFenced) <==> input.commitmentId < |db.rows| && !Stamped(db, input.stamp))
            && (outcome.Failed? && outcome.error.StateChanged? <==>
                  && input.commitmentId < |db.rows| && Stamped(db, input.stamp)
                  && input.expectedFrom.Some? && db.rows[input.commitmentId].status != input.expectedFrom.value)
            && (outcome.Failed? && outcome.error.Illegal? <==>
                  && input.commitmentId < |db.rows| && Stamped(db, input.stamp)
                  && (input.expectedFrom.None? || db.rows[input.commitmentId].status == input.expectedFrom.value)
                  && db.rows[input.commitmentId].status != input.to && input.to != Open
                  && db.rows[input.commitmentId].status in {Resolved, Expired})
            && (outcome.Failed? ==> outcome.error !in {NotCommitmentMemory, Exists})
  {
    if input.commitmentId < |db.rows| { LegalMoves(db.rows[input.commitmentId].status, input.to); }
  }

  /** Otherwise the one row is moved, `resolved_at` set or cleared, the reason replaced, and one event added. */
  lemma TransitionOutcome(db: Db, input: TransitionInput, now: int)
    ensures var (after, outcome) := Transitioned(db, input, now);
            outcome.Done? ==>
              && outcome == Done(input.commitmentId, input.to) && input.commitmentId < |db.rows| == |after.rows|
              && after.memories == db.memories && after.epochs == db.epochs
              && (forall i | 0 <= i < |db.rows| && i != input.commitmentId :: after.rows[i] == db.rows[i])
              && (var (row, moved) := (db.rows[input.commitmentId], after.rows[input.commitmentId]);
                  && moved.memoryId == row.memoryId && moved.owner == row.owner
                  && moved.dueAt == row.dueAt && moved.nextSurfacingAt == row.nextSurfacingAt
                  && moved.status == input.to && moved.reason == input.reason && moved.updatedAt == now
                  && moved.resolvedAt == (if input.to == Resolved then Some(now) else None)
                  && |after.events| == |db.events| + 1 && db.events <= after.events
                  && after.events[|db.events|].memoryId == row.memoryId
                  && after.events[|db.events|].actorKind == input.actorKind
                  && after.events[|db.events|].runId
                     == (if input.stamp.Some? then Some(input.stamp.value.runId) else input.attachedRun)
                  && (after.events[|db.events|].kind == Resolve <==> input.to == Resolved)
                  && (after.events[|db.events|].kind == Unresolve <==> input.to == Open)
                  && (after.events[|db.events|].kind == Revise <==> input.to == Waiting)
                  && (after.events[|db.events|].kind == Archive <==> input.to == Expired))
  {
  }

  /** A commitment is made for a live memory of its type that has none; it starts open. */
  lemma CreateOutcome(db: Db, input: CreateInput, now: int)
    ensures var (after, outcome) := Created(db, input, now);
            var rides := input.memoryId in db.memories && db.memories[input.memoryId] == Memory("commitment", None);
            var taken := exists i :: 0 <= i < |db.rows| && db.rows[i].memoryId == input.memoryId;
            && (outcome == Failed(NotCommitmentMemory) <==> !rides)
            && (outcome == Failed(Exists) <==> rides && taken)
            && (outcome.Failed? ==> after == db && outcome.error in {NotCommitmentMemory, Exists})
            && (outcome.Done? ==>
                  && outcome == Done(|db.rows|, Open) && after.memories == db.memories && after.epochs == db.epochs
                  && after.rows == db.rows + [Commitment(
                       memoryId := input.memoryId, status := Open, owner := input.owner, dueAt := input.dueAt,
                       nextSurfacingAt := input.nextSurfacingAt, resolvedAt := None, reason := None, updatedAt := now)]
                  && after.events == db.events + [Event(
                       memoryId := input.memoryId, kind := Create, actorKind := input.actorKind, runId := None)])
  {
  }

  /** Live and past its date. */
  predicate Late(row: Commitment, expireBefore: int) {
    (row.status == Open || row.status == Waiting) && row.dueAt.Some? && row.dueAt.value < expireBefore
  }

  /** Live and due to be shown again. */
  predicate Surfaced(row: Commitment, now: int) {
    (row.status == Open || row.status == Waiting) && row.nextSurfacingAt.Some? && row.nextSurfacingAt.value < now
  }

  /**
   A sweep expires the late commitments, which lose their reason, and clears the surfacing of the
   live ones that are left; each expired memory, and no other, gets one archive event by the worker.
   */
  lemma SweepOutcome(db: Db, expireBefore: int, now: int, i: nat)
    requires OnePerMemory(db.rows) && i < |db.rows|
    ensures var after := ClearSurfaced(ExpireOverdue(db, expireBefore, now), now);
            var row := db.rows[i];
            && |after.rows| == |db.rows| && after.memories == db.memories && after.epochs == db.epochs
            && after.rows[i]
               == (if Late(row, expireBefore) then row.(status := Expired, reason := None, updatedAt := now)
                   else if Surfaced(row, now) then row.(nextSurfacingAt := None, updatedAt := now) else row)
            && db.events <= after.events
            && (forall e | e in after.events[|db.events|..] :: e == Event(e.memoryId, Archive, "worker", None))
            && Lifecycle(after.events, row.memoryId)
               == Lifecycle(db.events, row.memoryId) + if Late(row, expireBefore) then [Archive] else []
  {
    var memoryIds := Overdue(db.rows, expireBefore);
    OverdueDistinct(db.rows, expireBefore);
    LifecycleArchives(db.events, memoryIds, db.rows[i].memoryId);
    SameMemoryIsSameRow(db.rows, i, expireBefore);
    assert (db.events + ArchiveEvents(memoryIds))[|db.events|..] == ArchiveEvents(memoryIds);
  }

  function LateRows(rows: seq<Commitment>, expireBefore: int): set<int> {
    set i | 0 <= i < |rows| && Late(rows[i], expireBefore)
  }

  lemma {:induction false} OverdueCount(rows: seq<Commitment>, expireBefore: int)
    ensures |Overdue(rows, expireBefore)| == |LateRows(rows, expireBefore)|
  {
    if rows != [] {
      var front, n := rows[..|rows| - 1], |rows| - 1;
      OverdueCount(front, expireBefore);
      assert LateRows(rows, expireBefore) == LateRows(front, expireBefore) + if Late(rows[n], expireBefore) then {n} else {};
    }
  }

  /** The two counts a sweep answers with: the late rows, and the live ones left that were due to be shown. */
  lemma SweepCounts(db: Db, expireBefore: int, now: int)
    ensures |Overdue(db.rows, expireBefore)| == |LateRows(db.rows, expireBefore)|
    ensures (set i | 0 <= i < |db.rows| && HasSurfaced(ExpireOverdue(db, expireBefore, now).rows[i], now))
         == (set i | 0 <= i < |db.rows| && Surfaced(db.rows[i], now) && !Late(db.rows[i], expireBefore))
  {
    OverdueCount(db.rows, expireBefore);
  }

  // ---- The table ----

  class CommitmentStore {
    var memories: map<int, Memory>
    var epochs: map<string, nat>
    var rows: seq<Commitment>
    var events: seq<Event>

    constructor (memories: map<int, Memory>, epochs: map<string, nat>)
      ensures State() == Db(memories, epochs, [], [])
    {
      this.memories := memories;
      this.epochs := epochs;
      rows := [];
      events := [];
    }

    ghost function State(): Db
      reads this
    {
      Db(memories, epochs, rows, events)
    }

    method CreateCommitment(input: CreateInput, now: int) returns (outcome: Outcome)
      modifies this
      ensures (State(), outcome) == Created(old(State()), input, now)
    {
      if !(input.memoryId in memories && memories[input.memoryId].memoryType == "commitment"
           && memories[input.memoryId].validTo.None?) {
        return Failed(NotCommitmentMemory);
      }
      if exists i | 0 <= i < |rows| :: rows[i].memoryId == input.memoryId {
        return Failed(Exists);
      }
      rows := rows + [Commitment(input.memoryId, Open, input.owner, input.dueAt, input.nextSurfacingAt, None, None, now)];
      events := events + [Event(input.memoryId, Create, input.actorKind, None)];
      return Done(|rows| - 1, Open);
    }

    method TransitionCommitment(input: TransitionInput, now: int) returns (outcome: Outcome)
      modifies this
      ensures (State(), outcome) == Transitioned(old(State()), input, now)
    {
      var resolvedAt := if input.to.Resolved? then Some(now) else None;
      if input.commitmentId >= |rows| {
        return Failed(NotFound);
      }
      var existing := rows[input.commitmentId];
      if input.stamp.Some? {
        if input.stamp.value.runId !in epochs || epochs[input.stamp.value.runId] != input.stamp.value.epoch {
          return Failed(EpochFenced);
        }
      }
      var runId := if input.stamp.Some? then Some(input.stamp.value.runId) else input.attachedRun;
      if input.expectedFrom.Some? && existing.status != input.expectedFrom.value {
        return Failed(StateChanged(input.expectedFrom.value));
      }
      if !TriggerPasses(existing.status, input.to) {
        return Failed(Illegal(existing.status, input.to));
      }
      rows := rows[input.commitmentId := existing.(
        status := input.to, resolvedAt := resolvedAt, reason := input.reason, updatedAt := now)];
      events := events + [Event(existing.memoryId, KindOf(input.to), input.actorKind, runId)];
      return Done(input.commitmentId, input.to);
    }

    method SweepCommitments(now: int, expireBefore: int) returns (expired: nat, surfaced: nat)
      modifies this
      ensures State() == ClearSurfaced(ExpireOverdue(old(State()), expireBefore, now), now)
      ensures expired == |Overdue(old(rows), expireBefore)|
      ensures surfaced == |set i | 0 <= i < |rows| && HasSurfaced(ExpireOverdue(old(State()), expireBefore, now).rows[i], now)|
    {
      var overdue := Overdue(rows, expireBefore);
      rows := seq(|rows|, i requires 0 <= i < |rows| reads this => ExpiredRow(rows[i], expireBefore, now));
      for k := 0 to |overdue|
        invariant rows == ExpireOverdue(old(State()), expireBefore, now).rows
        invariant events == old(events) + ArchiveEvents(overdue[..k])
        invariant memories == old(memories) && epochs == old(epochs)
      {
        events := events + [Event(overdue[k], Archive, "worker", None)];
        assert overdue[..k + 1] == overdue[..k] + [overdue[k]];
      }
      assert overdue[..|overdue|] == overdue;
      var touched := set i | 0 <= i < |rows| && HasSurfaced(rows[i], now);
      rows := seq(|rows|, i requires 0 <= i < |rows| reads this => SurfacedRow(rows[i], now));
      expired, surfaced := |overdue|, |touched|;
    }
  }
}
