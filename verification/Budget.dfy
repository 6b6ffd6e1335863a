/**
 Budget reservations of one user with an explicit period (packages/db/src/budget-read.ts).

 A metered call reserves its estimate, is recorded as usage, and is released. Reserving is one
 transaction under a per-user lock, but recording and releasing take no lock, and usage and
 reservations are summed by two statements, each of which sees what is committed when it runs.
 A schedule is any sequence of steps; a blocked or out-of-order step changes nothing.

 `late`, `recordedAt` and `missed` are history variables: no step's decision reads them. `missed` is
 the most that slipped past any one admitted decision.
 */
module Budget {
  import opened Options

  /** Instants are microseconds. */
  const RESERVATION_TTL: int := 120000000

  datatype Accounting = Accounting(
    capOverride: Option<real>, tierCap: Option<real>, defaultCap: real, fallback: real,
    periodStart: int, periodEnd: int, startingSpend: real)

  /** override ?? tier ?? default. */
  function EffectiveCap(a: Accounting): real {
    if a.capOverride.Some? then a.capOverride.value
    else if a.tierCap.Some? then a.tierCap.value
    else a.defaultCap
  }

  datatype Pc = Idle | Begun | Locked | UsageRead | Admitted | Denied | Reserved | Recorded | Settled | Dropped

  /** `cost` is what the usage row will say; an unpriced row is charged the fallback. */
  datatype Call = Call(
    estimate: real, cost: Option<real>, pc: Pc, began: int, seen: real, late: bool, recordedAt: int)

  datatype State = State(time: int, lock: Option<nat>, calls: seq<Call>, missed: real)

  datatype Label =
    | Tick(elapsed: nat)
    | Begin(c: nat) | TakeLock(c: nat) | SumUsage(c: nat) | SumReservations(c: nat) | Insert(c: nat) | GiveUp(c: nat)
    | Record(c: nat) | Release(c: nat)

  function Charge(a: Accounting, call: Call): real {
    if call.cost.Some? then call.cost.value else a.fallback
  }

  function Max(x: real, y: real): real { if x >= y then x else y }

  // ---- Sums over the tables ----

  function Total(calls: seq<Call>, f: Call -> real): real {
    if calls == [] then 0.0 else Total(calls[..|calls| - 1], f) + f(calls[|calls| - 1])
  }

  predicate HasUsageRow(call: Call) {
    call.pc.Recorded? || call.pc.Settled?
  }

  predicate HasReservation(call: Call) {
    call.pc.Reserved? || call.pc.Recorded?
  }

  /** The usage row, if the period has it. */
  function Counted(a: Accounting): Call -> real {
    (call: Call) => if HasUsageRow(call) && a.periodStart <= call.recordedAt < a.periodEnd then Charge(a, call) else 0.0
  }

  function Spend(a: Accounting, calls: seq<Call>): real {
    a.startingSpend + Total(calls, Counted(a))
  }

  predicate ActiveAt(call: Call, now: int) {
    call.began > now - RESERVATION_TTL
  }

  function ActiveReservation(now: int): Call -> real {
    (call: Call) => if HasReservation(call) && ActiveAt(call, now) then call.estimate else 0.0
  }

  function SumActiveReservations(calls: seq<Call>, now: int): real {
    Total(calls, ActiveReservation(now))
  }

  // ---- Steps ----

  predicate At(s: State, c: nat, pc: Pc) {
    c < |s.calls| && s.calls[c].pc == pc
  }

  function Set(s: State, c: nat, call: Call): State
    requires c < |s.calls|
  {
    s.(calls := s.calls[c := call])
  }

  function Freed(lock: Option<nat>, c: nat): Option<nat> {
    if lock == Some(c) then None else lock
  }

  /** The transaction's start, which is also the reservation's created_at. */
  function BeginStep(s: State, c: nat): State {
    if At(s, c, Idle) then Set(s, c, s.calls[c].(pc := Begun, began := s.time)) else s
  }

  function TakeLockStep(s: State, c: nat): State {
    if At(s, c, Begun) && s.lock.None? then Set(s, c, s.calls[c].(pc := Locked)).(lock := Some(c)) else s
  }

  function Prompt(calls: seq<Call>): seq<Call> {
    seq(|calls|, i requires 0 <= i < |calls| => calls[i].(late := false))
  }

  function SumUsageStep(a: Accounting, s: State, c: nat): State {
    if At(s, c, Locked) then
      s.(calls := Prompt(s.calls)[c := s.calls[c].(pc := UsageRead, seen := Spend(a, s.calls), late := false)])
    else s
  }

  predicate Fits(a: Accounting, s: State, c: nat)
    requires c < |s.calls|
  {
    s.calls[c].seen + SumActiveReservations(s.calls, s.calls[c].began) + s.calls[c].estimate <= EffectiveCap(a)
  }

  /** Recorded and released since the usage was read: in neither sum. */
  function Slipped(a: Accounting): Call -> real {
    (call: Call) => if call.late && call.pc.Settled? then Counted(a)(call) else 0.0
  }

  function SumReservationsStep(a: Accounting, s: State, c: nat): State {
    if At(s, c, UsageRead) then
      if Fits(a, s, c)
      then Set(s, c, s.calls[c].(pc := Admitted)).(missed := Max(s.missed, Total(s.calls, Slipped(a))))
      else Set(s, c, s.calls[c].(pc := Denied)).(lock := Freed(s.lock, c))
    else s
  }

  function InsertStep(s: State, c: nat): State {
    if At(s, c, Admitted) then Set(s, c, s.calls[c].(pc := Reserved)).(lock := Freed(s.lock, c)) else s
  }

  function GiveUpStep(s: State, c: nat): State {
    if At(s, c, Begun) || At(s, c, Locked) || At(s, c, UsageRead) || At(s, c, Admitted)
    then Set(s, c, s.calls[c].(pc := Denied)).(lock := Freed(s.lock, c))
    else s
  }

  /** A call settles within its reservation's lifetime, or it is not charged. */
  function RecordStep(s: State, c: nat): State {
    if At(s, c, Reserved) && s.time < s.calls[c].began + RESERVATION_TTL
    then Set(s, c, s.calls[c].(pc := Recorded, late := true, recordedAt := s.time))
    else s
  }

  function ReleaseStep(s: State, c: nat): State {
    if At(s, c, Recorded) then Set(s, c, s.calls[c].(pc := Settled))
    else if At(s, c, Reserved) then Set(s, c, s.calls[c].(pc := Dropped))
    else s
  }

  function Step(a: Accounting, s: State, l: Label): State {
    match l
    case Tick(elapsed) => s.(time := s.time + elapsed)
    case Begin(c) => BeginStep(s, c)
    case TakeLock(c) => TakeLockStep(s, c)
    case SumUsage(c) => SumUsageStep(a, s, c)
    case SumReservations(c) => SumReservationsStep(a, s, c)
    case Insert(c) => InsertStep(s, c)
    case GiveUp(c) => GiveUpStep(s, c)
    case Record(c) => RecordStep(s, c)
    case Release(c) => ReleaseStep(s, c)
  }

  function Run(a: Accounting, s: State, schedule: seq<Label>): State {
    if schedule == [] then s
    else Step(a, Run(a, s, schedule[..|schedule| - 1]), schedule[|schedule| - 1])
  }

  /** Each call's charge is at most its estimate. */
  predicate Estimated(a: Accounting, call: Call) {
    0.0 <= Charge(a, call) <= call.estimate
  }

  predicate Initial(a: Accounting, s: State) {
    && s.lock.None? && s.missed == 0.0
    && forall c | 0 <= c < |s.calls| :: s.calls[c].pc.Idle? && !s.calls[c].late && Estimated(a, s.calls[c])
  }

  // ---- The invariant ----

  /** What a call that was let in may still be charged. */
  function Outstanding(time: int): Call -> real {
    (call: Call) =>
      if (call.pc.Admitted? || call.pc.Reserved?) && time < call.began + RESERVATION_TTL then call.estimate else 0.0
  }

  /** What is spent and what may still be. */
  function Committed(a: Accounting, s: State): real {
    Spend(a, s.calls) + Total(s.calls, Outstanding(s.time))
  }

  function Ceiling(a: Accounting): real {
    Max(EffectiveCap(a), a.startingSpend)
  }

  /** The usage rows a reader with this state has not seen. */
  function Late(a: Accounting): Call -> real {
    (call: Call) => if call.late then Counted(a)(call) else 0.0
  }

  predicate CallOk(a: Accounting, s: State, c: nat) {
    c < |s.calls| ==>
      var call := s.calls[c];
      && Estimated(a, call)
      && (!call.pc.Idle? ==> call.began <= s.time)
      && (HasUsageRow(call) ==> call.recordedAt <= s.time && call.recordedAt < call.began + RESERVATION_TTL)
      && (call.late ==> HasUsageRow(call))
      && (call.pc.Locked? || call.pc.UsageRead? || call.pc.Admitted? ==> s.lock == Some(c))
      && (call.pc.UsageRead? ==> Spend(a, s.calls) == call.seen + Total(s.calls, Late(a)))
      && (call.pc.UsageRead? ==> forall d | 0 <= d < |s.calls| && s.calls[d].late :: call.began <= s.calls[d].recordedAt)
  }

  ghost predicate Inv(a: Accounting, s: State) {
    && (forall c: nat :: CallOk(a, s, c))
    && Committed(a, s) <= Ceiling(a) + s.missed
    && s.missed >= 0.0
  }

  // ---- Sums ----

  lemma {:induction false} TotalUpdate(calls: seq<Call>, f: Call -> real, c: nat, call: Call)
    requires c < |calls|
    ensures Total(calls[c := call], f) == Total(calls, f) - f(calls[c]) + f(call)
  {
    var front := calls[..|calls| - 1];
    if c == |front| {
      assert calls[c := call][..|calls| - 1] == front;
    } else {
      TotalUpdate(front, f, c, call);
      assert calls[c := call][..|calls| - 1] == front[c := call];
    }
  }

  lemma {:induction false} TotalZero(calls: seq<Call>, f: Call -> real)
    requires forall c | 0 <= c < |calls| :: f(calls[c]) == 0.0
    ensures Total(calls, f) == 0.0
  {
    if calls != [] { TotalZero(calls[..|calls| - 1], f); }
  }

  lemma {:induction false} TotalAtMost(calls: seq<Call>, f: Call -> real, g: Call -> real)
    requires forall c | 0 <= c < |calls| :: f(calls[c]) <= g(calls[c])
    ensures Total(calls, f) <= Total(calls, g)
  {
    if calls != [] { TotalAtMost(calls[..|calls| - 1], f, g); }
  }

  lemma {:induction false} TotalsBalance(
    calls: seq<Call>, f: Call -> real, f': Call -> real, f'': Call -> real, g: Call -> real, g': Call -> real)
    requires forall c | 0 <= c < |calls| :: f(calls[c]) + f'(calls[c]) + f''(calls[c]) == g(calls[c]) + g'(calls[c])
    ensures Total(calls, f) + Total(calls, f') + Total(calls, f'') == Total(calls, g) + Total(calls, g')
  {
    if calls != [] { TotalsBalance(calls[..|calls| - 1], f, f', f'', g, g'); }
  }

  lemma {:induction false} TotalSame(calls: seq<Call>, calls': seq<Call>, f: Call -> real)
    requires |calls| == |calls'| && forall c | 0 <= c < |calls| :: f(calls[c]) == f(calls'[c])
    ensures Total(calls, f) == Total(calls', f)
  {
    if calls != [] { TotalSame(calls[..|calls| - 1], calls'[..|calls'| - 1], f); }
  }

  // ---- Every step keeps the invariant ----

  /**
   What the two sums count without need: the estimate of a recorded call that is not yet released,
   beside its charge when the usage sum has it or in its place when not, and the estimate of a
   reservation that has run out since the reading transaction started.
   */
  function Overcounted(a: Accounting, now: int, time: int): Call -> real {
    (call: Call) =>
      if !ActiveAt(call, now) then 0.0
      else if call.pc.Recorded? then call.estimate - (if call.late then Counted(a)(call) else 0.0)
      else if call.pc.Reserved? && time >= call.began + RESERVATION_TTL then call.estimate
      else 0.0
  }

  function CountedSum(s: State, c: nat): real
    requires c < |s.calls|
  {
    s.calls[c].seen + SumActiveReservations(s.calls, s.calls[c].began)
  }

  function SlippedSum(a: Accounting, s: State): real {
    Total(s.calls, Slipped(a))
  }

  function OvercountedSum(a: Accounting, s: State, c: nat): real
    requires c < |s.calls|
  {
    Total(s.calls, Overcounted(a, s.calls[c].began, s.time))
  }

  lemma CallBalances(a: Accounting, s: State, c: nat, d: nat)
    requires Inv(a, s) && At(s, c, UsageRead) && d < |s.calls|
    ensures var (call, now) := (s.calls[d], s.calls[c].began);
            && Late(a)(call) + Outstanding(s.time)(call) + Overcounted(a, now, s.time)(call)
            == ActiveReservation(now)(call) + Slipped(a)(call)
            && Overcounted(a, now, s.time)(call) >= 0.0
  {
    assert CallOk(a, s, c) && CallOk(a, s, d);
  }

  /** At a decision: what is committed, and what the sums count without need, is what they count and what slipped past them. */
  lemma DecisionBalances(a: Accounting, s: State, c: nat)
    requires Inv(a, s) && At(s, c, UsageRead)
    ensures Committed(a, s) + OvercountedSum(a, s, c) == CountedSum(s, c) + SlippedSum(a, s)
    ensures OvercountedSum(a, s, c) >= 0.0
  {
    var now := s.calls[c].began;
    assert CallOk(a, s, c);
    var zero := (call: Call) => 0.0;
    forall d | 0 <= d < |s.calls|
      ensures Late(a)(s.calls[d]) + Outstanding(s.time)(s.calls[d]) + Overcounted(a, now, s.time)(s.calls[d])
           == ActiveReservation(now)(s.calls[d]) + Slipped(a)(s.calls[d])
      ensures zero(s.calls[d]) <= Overcounted(a, now, s.time)(s.calls[d])
    {
      CallBalances(a, s, c, d);
    }
    TotalsBalance(s.calls, Late(a), Outstanding(s.time), Overcounted(a, now, s.time), ActiveReservation(now), Slipped(a));
    TotalAtMost(s.calls, zero, Overcounted(a, now, s.time));
    TotalZero(s.calls, zero);
  }

  lemma TickOk(a: Accounting, s: State, elapsed: nat)
    requires Inv(a, s)
    ensures Inv(a, Step(a, s, Tick(elapsed)))
    ensures Committed(a, Step(a, s, Tick(elapsed))) <= Committed(a, s)
  {
    var after := Step(a, s, Tick(elapsed));
    forall c | 0 <= c < |s.calls| ensures Outstanding(after.time)(s.calls[c]) <= Outstanding(s.time)(s.calls[c]) {
      assert CallOk(a, s, c);
    }
    TotalAtMost(s.calls, Outstanding(after.time), Outstanding(s.time));
    forall c: nat ensures CallOk(a, after, c) { assert CallOk(a, s, c); }
  }

  /** A step of one call that moves neither money nor another reader's view. */
  lemma QuietOk(a: Accounting, s: State, after: State, c: nat)
    requires Inv(a, s) && c < |s.calls| == |after.calls|
    requires after == Set(s, c, after.calls[c]).(lock := after.lock)
    requires Counted(a)(after.calls[c]) == Counted(a)(s.calls[c]) && after.calls[c].late == s.calls[c].late
    requires after.calls[c].recordedAt == s.calls[c].recordedAt
    requires Outstanding(s.time)(after.calls[c]) <= Outstanding(s.time)(s.calls[c])
    requires forall d: nat :: d != c && s.lock == Some(d) ==> after.lock == Some(d)
    ensures Committed(a, after) <= Committed(a, s)
    ensures forall d: nat :: d != c ==> CallOk(a, after, d)
    ensures Spend(a, after.calls) == Spend(a, s.calls) && Total(after.calls, Late(a)) == Total(s.calls, Late(a))
  {
    TotalUpdate(s.calls, Counted(a), c, after.calls[c]);
    TotalUpdate(s.calls, Outstanding(s.time), c, after.calls[c]);
    TotalUpdate(s.calls, Late(a), c, after.calls[c]);
    forall d: nat | d != c ensures CallOk(a, after, d) { assert CallOk(a, s, d); }
  }

  lemma BeginOk(a: Accounting, s: State, c: nat)
    requires Inv(a, s)
    ensures Inv(a, BeginStep(s, c))
    ensures Committed(a, BeginStep(s, c)) <= Committed(a, s)
  {
    if At(s, c, Idle) {
      assert CallOk(a, s, c);
      QuietOk(a, s, BeginStep(s, c), c);
    }
  }

  lemma TakeLockOk(a: Accounting, s: State, c: nat)
    requires Inv(a, s)
    ensures Inv(a, TakeLockStep(s, c))
    ensures Committed(a, TakeLockStep(s, c)) <= Committed(a, s)
  {
    if At(s, c, Begun) && s.lock.None? {
      assert CallOk(a, s, c);
      QuietOk(a, s, TakeLockStep(s, c), c);
    }
  }

  lemma GiveUpOk(a: Accounting, s: State, c: nat)
    requires Inv(a, s)
    ensures Inv(a, GiveUpStep(s, c))
    ensures Committed(a, GiveUpStep(s, c)) <= Committed(a, s)
  {
    if GiveUpStep(s, c) != s {
      assert CallOk(a, s, c);
      QuietOk(a, s, GiveUpStep(s, c), c);
    }
  }

  lemma ReleaseOk(a: Accounting, s: State, c: nat)
    requires Inv(a, s)
    ensures Inv(a, ReleaseStep(s, c))
    ensures Committed(a, ReleaseStep(s, c)) <= Committed(a, s)
  {
    if ReleaseStep(s, c) != s {
      assert CallOk(a, s, c);
      QuietOk(a, s, ReleaseStep(s, c), c);
    }
  }

  lemma PromptSame(a: Accounting, calls: seq<Call>, time: int)
    ensures Total(Prompt(calls), Counted(a)) == Total(calls, Counted(a))
    ensures Total(Prompt(calls), Outstanding(time)) == Total(calls, Outstanding(time))
    ensures Total(Prompt(calls), Late(a)) == 0.0
  {
    TotalSame(Prompt(calls), calls, Counted(a));
    TotalSame(Prompt(calls), calls, Outstanding(time));
    TotalZero(Prompt(calls), Late(a));
  }

  lemma SumUsageOk(a: Accounting, s: State, c: nat)
    requires Inv(a, s)
    ensures Inv(a, SumUsageStep(a, s, c))
    ensures Committed(a, SumUsageStep(a, s, c)) <= Committed(a, s)
  {
    if At(s, c, Locked) {
      var after := SumUsageStep(a, s, c);
      assert CallOk(a, s, c);
      PromptSame(a, s.calls, s.time);
      TotalUpdate(Prompt(s.calls), Counted(a), c, after.calls[c]);
      TotalUpdate(Prompt(s.calls), Outstanding(s.time), c, after.calls[c]);
      TotalUpdate(Prompt(s.calls), Late(a), c, after.calls[c]);
      forall d: nat ensures CallOk(a, after, d) { assert CallOk(a, s, d); }
    }
  }

  /** Letting a call in commits its estimate, if it can still be charged. */
  lemma DecisionCommits(a: Accounting, s: State, c: nat)
    requires Inv(a, s) && At(s, c, UsageRead)
    ensures var call, after := s.calls[c], SumReservationsStep(a, s, c);
            Committed(a, after) == Committed(a, s)
              + if Fits(a, s, c) && s.time < call.began + RESERVATION_TTL then call.estimate else 0.0
    ensures forall d: nat :: d != c ==> CallOk(a, SumReservationsStep(a, s, c), d)
  {
    var after := SumReservationsStep(a, s, c);
    assert CallOk(a, s, c);
    TotalUpdate(s.calls, Counted(a), c, after.calls[c]);
    TotalUpdate(s.calls, Outstanding(s.time), c, after.calls[c]);
    TotalUpdate(s.calls, Late(a), c, after.calls[c]);
    forall d: nat | d != c ensures CallOk(a, after, d) { assert CallOk(a, s, d); }
  }

  lemma SumReservationsOk(a: Accounting, s: State, c: nat)
    requires Inv(a, s)
    ensures Inv(a, SumReservationsStep(a, s, c))
  {
    if At(s, c, UsageRead) {
      var after := SumReservationsStep(a, s, c);
      assert CallOk(a, s, c);
      DecisionBalances(a, s, c);
      DecisionCommits(a, s, c);
      assert CallOk(a, after, c);
    }
  }

  lemma InsertOk(a: Accounting, s: State, c: nat)
    requires Inv(a, s)
    ensures Inv(a, InsertStep(s, c))
    ensures Committed(a, InsertStep(s, c)) <= Committed(a, s)
  {
    if At(s, c, Admitted) {
      var after := InsertStep(s, c);
      assert CallOk(a, s, c);
      TotalUpdate(s.calls, Counted(a), c, after.calls[c]);
      TotalUpdate(s.calls, Outstanding(s.time), c, after.calls[c]);
      TotalUpdate(s.calls, Late(a), c, after.calls[c]);
      forall d: nat ensures CallOk(a, after, d) { assert CallOk(a, s, d); }
    }
  }

  lemma RecordOk(a: Accounting, s: State, c: nat)
    requires Inv(a, s)
    ensures Inv(a, RecordStep(s, c))
    ensures Committed(a, RecordStep(s, c)) <= Committed(a, s)
  {
    var after := RecordStep(s, c);
    if after != s {
      assert CallOk(a, s, c);
      TotalUpdate(s.calls, Counted(a), c, after.calls[c]);
      TotalUpdate(s.calls, Outstanding(s.time), c, after.calls[c]);
      TotalUpdate(s.calls, Late(a), c, after.calls[c]);
      forall d: nat ensures CallOk(a, after, d) { assert CallOk(a, s, d); }
    }
  }

  lemma StepKeepsInv(a: Accounting, s: State, l: Label)
    requires Inv(a, s)
    ensures Inv(a, Step(a, s, l))
  {
    match l
    case Tick(elapsed) => TickOk(a, s, elapsed);
    case Begin(c) => BeginOk(a, s, c);
    case TakeLock(c) => TakeLockOk(a, s, c);
    case SumUsage(c) => SumUsageOk(a, s, c);
    case SumReservations(c) => SumReservationsOk(a, s, c);
    case Insert(c) => InsertOk(a, s, c);
    case GiveUp(c) => GiveUpOk(a, s, c);
    case Record(c) => RecordOk(a, s, c);
    case Release(c) => ReleaseOk(a, s, c);
  }

  lemma InitialInv(a: Accounting, s: State)
    requires Initial(a, s)
    ensures Inv(a, s) && Committed(a, s) <= Ceiling(a)
  {
    TotalZero(s.calls, Counted(a));
    TotalZero(s.calls, Outstanding(s.time));
    assert Committed(a, s) == a.startingSpend;
  }

  lemma {:induction false} RunKeepsInv(a: Accounting, s: State, schedule: seq<Label>)
    requires Initial(a, s)
    ensures Inv(a, Run(a, s, schedule))
  {
    if schedule == [] {
      InitialInv(a, s);
    } else {
      RunKeepsInv(a, s, schedule[..|schedule| - 1]);
      StepKeepsInv(a, Run(a, s, schedule[..|schedule| - 1]), schedule[|schedule| - 1]);
    }
  }

  // ---- The theorems ----

  lemma OutstandingFloor(a: Accounting, s: State)
    requires Inv(a, s)
    ensures Total(s.calls, Outstanding(s.time)) >= 0.0
  {
    var zero := (call: Call) => 0.0;
    forall c | 0 <= c < |s.calls| ensures zero(s.calls[c]) <= Outstanding(s.time)(s.calls[c]) { assert CallOk(a, s, c); }
    TotalAtMost(s.calls, zero, Outstanding(s.time));
    TotalZero(s.calls, zero);
  }

  /**
   In every schedule, counted spend exceeds the larger of the cap and the starting spend by no more
   than the most that slipped past one decision, however many decisions there are.
   */
  lemma SpendIsBounded(a: Accounting, s: State, schedule: seq<Label>)
    requires Initial(a, s)
    ensures var r := Run(a, s, schedule);
            Spend(a, r.calls) <= Committed(a, r) <= Ceiling(a) + r.missed
  {
    RunKeepsInv(a, s, schedule);
    OutstandingFloor(a, Run(a, s, schedule));
  }

  /**
   The decision lets a call in that can still be charged, and more slipped past its two sums than
   they had to spare: the room under the ceiling and what they counted without need.
   */
  predicate Overruns(a: Accounting, s: State, c: nat) {
    && At(s, c, UsageRead) && Fits(a, s, c) && s.time < s.calls[c].began + RESERVATION_TTL
    && SlippedSum(a, s) > Ceiling(a) - (CountedSum(s, c) + s.calls[c].estimate) + OvercountedSum(a, s, c)
  }

  /** A decision takes what is committed over the ceiling exactly when it overruns. */
  lemma DecisionOverrunsExactly(a: Accounting, s: State, c: nat)
    requires Inv(a, s) && Committed(a, s) <= Ceiling(a)
    ensures Committed(a, SumReservationsStep(a, s, c)) > Ceiling(a) <==> Overruns(a, s, c)
  {
    if At(s, c, UsageRead) {
      DecisionBalances(a, s, c);
      DecisionCommits(a, s, c);
    }
  }

  lemma OtherStepsCommitNothing(a: Accounting, s: State, l: Label)
    requires Inv(a, s) && !l.SumReservations?
    ensures Committed(a, Step(a, s, l)) <= Committed(a, s)
  {
    match l
    case Tick(elapsed) => TickOk(a, s, elapsed);
    case Begin(c) => BeginOk(a, s, c);
    case TakeLock(c) => TakeLockOk(a, s, c);
    case SumUsage(c) => SumUsageOk(a, s, c);
    case Insert(c) => InsertOk(a, s, c);
    case GiveUp(c) => GiveUpOk(a, s, c);
    case Record(c) => RecordOk(a, s, c);
    case Release(c) => ReleaseOk(a, s, c);
  }

  ghost predicate NoneOverruns(a: Accounting, s: State, schedule: seq<Label>) {
    forall k | 0 <= k < |schedule| && schedule[k].SumReservations? ::
      !Overruns(a, Run(a, s, schedule[..k]), schedule[k].c)
  }

  ghost predicate StaysUnder(a: Accounting, s: State, schedule: seq<Label>) {
    forall k | 0 <= k <= |schedule| :: Committed(a, Run(a, s, schedule[..k])) <= Ceiling(a)
  }

  lemma RunNext(a: Accounting, s: State, schedule: seq<Label>, k: nat)
    requires k < |schedule|
    ensures Run(a, s, schedule[..k + 1]) == Step(a, Run(a, s, schedule[..k]), schedule[k])
  {
    assert schedule[..k + 1][..k] == schedule[..k];
  }

  lemma {:induction false} UnderAt(a: Accounting, s: State, schedule: seq<Label>, k: nat)
    requires Initial(a, s) && NoneOverruns(a, s, schedule) && k <= |schedule|
    ensures Committed(a, Run(a, s, schedule[..k])) <= Ceiling(a)
  {
    if k == 0 {
      InitialInv(a, s);
    } else {
      UnderAt(a, s, schedule, k - 1);
      RunNext(a, s, schedule, k - 1);
      RunKeepsInv(a, s, schedule[..k - 1]);
      var before, l := Run(a, s, schedule[..k - 1]), schedule[k - 1];
      if l.SumReservations? {
        DecisionOverrunsExactly(a, before, l.c);
      } else {
        OtherStepsCommitNothing(a, before, l);
      }
    }
  }

  /**
   The exact condition: in a schedule, spend and what may still be spent stay under the ceiling
   throughout if and only if no decision overruns.
   */
  lemma CapHoldsExactly(a: Accounting, s: State, schedule: seq<Label>)
    requires Initial(a, s)
    ensures StaysUnder(a, s, schedule) <==> NoneOverruns(a, s, schedule)
  {
    if NoneOverruns(a, s, schedule) {
      forall k | 0 <= k <= |schedule| ensures Committed(a, Run(a, s, schedule[..k])) <= Ceiling(a) {
        UnderAt(a, s, schedule, k);
      }
    }
    if StaysUnder(a, s, schedule) {
      forall k | 0 <= k < |schedule| && schedule[k].SumReservations?
        ensures !Overruns(a, Run(a, s, schedule[..k]), schedule[k].c)
      {
        RunNext(a, s, schedule, k);
        RunKeepsInv(a, s, schedule[..k]);
        assert Committed(a, Run(a, s, schedule[..k])) <= Ceiling(a);
        assert Committed(a, Run(a, s, schedule[..k + 1])) <= Ceiling(a);
        DecisionOverrunsExactly(a, Run(a, s, schedule[..k]), schedule[k].c);
      }
    }
  }

  /** Some call is between its two sums. */
  predicate BetweenSums(s: State) {
    exists c | 0 <= c < |s.calls| :: s.calls[c].pc.UsageRead?
  }

  /** A step that releases a recorded call while another is between its sums. */
  predicate Slips(s: State, l: Label) {
    l.Release? && At(s, l.c, Recorded) && s.calls[l.c].late && BetweenSums(s)
  }

  predicate NothingSlips(a: Accounting, s: State, schedule: seq<Label>) {
    schedule == [] ||
    var front := schedule[..|schedule| - 1];
    NothingSlips(a, s, front) && !Slips(Run(a, s, front), schedule[|schedule| - 1])
  }

  /** No late row is settled while some call is between its sums. */
  predicate Tight(s: State) {
    BetweenSums(s) ==> forall d | 0 <= d < |s.calls| :: !(s.calls[d].late && s.calls[d].pc.Settled?)
  }

  lemma DecisionStaysTight(a: Accounting, s: State, c: nat)
    requires Tight(s) && s.missed == 0.0 && At(s, c, UsageRead)
    ensures Tight(SumReservationsStep(a, s, c)) && SumReservationsStep(a, s, c).missed == 0.0
  {
    TotalZero(s.calls, Slipped(a));
  }

  lemma ReadStaysTight(a: Accounting, s: State, c: nat)
    requires Tight(s)
    ensures Tight(SumUsageStep(a, s, c))
  {
  }

  lemma OtherStaysTight(a: Accounting, s: State, l: Label)
    requires Tight(s) && !Slips(s, l) && !l.SumReservations? && !l.SumUsage?
    ensures Tight(Step(a, s, l)) && Step(a, s, l).missed == s.missed
  {
  }

  lemma StepStaysTight(a: Accounting, s: State, l: Label)
    requires Tight(s) && !Slips(s, l) && s.missed == 0.0
    ensures Tight(Step(a, s, l)) && Step(a, s, l).missed == 0.0
  {
    if l.SumReservations? {
      if At(s, l.c, UsageRead) { DecisionStaysTight(a, s, l.c); }
    } else if l.SumUsage? {
      ReadStaysTight(a, s, l.c);
    } else {
      OtherStaysTight(a, s, l);
    }
  }

  /** When no call is recorded and released between another's two sums, the cap holds. */
  lemma {:induction false} CapHolds(a: Accounting, s: State, schedule: seq<Label>)
    requires Initial(a, s) && NothingSlips(a, s, schedule)
    ensures Spend(a, Run(a, s, schedule).calls) <= Ceiling(a)
    ensures Tight(Run(a, s, schedule)) && Run(a, s, schedule).missed == 0.0
  {
    if schedule != [] {
      var front := schedule[..|schedule| - 1];
      CapHolds(a, s, front);
      StepStaysTight(a, Run(a, s, front), schedule[|schedule| - 1]);
    }
    SpendIsBounded(a, s, schedule);
  }

  // ---- One call that is let run ----

  lemma {:induction false} TotalAgrees(calls: seq<Call>, f: Call -> real, g: Call -> real)
    requires forall c | 0 <= c < |calls| :: f(calls[c]) == g(calls[c])
    ensures Total(calls, f) == Total(calls, g)
  {
    if calls != [] { TotalAgrees(calls[..|calls| - 1], f, g); }
  }

  /** A call's usage row, when the period has it; a row without a price is charged the fallback. */
  function UsageRow(a: Accounting): Call -> real {
    (d: Call) =>
      if (d.pc == Recorded || d.pc == Settled) && a.periodStart <= d.recordedAt && d.recordedAt < a.periodEnd
      then (if d.cost.Some? then d.cost.value else a.fallback) else 0.0
  }

  /** The estimate of a call that is not released and began less than two minutes before. */
  function Reservation(now: int): Call -> real {
    (d: Call) => if (d.pc == Reserved || d.pc == Recorded) && now - d.began < 120000000 then d.estimate else 0.0
  }

  function UsageOf(a: Accounting, calls: seq<Call>): real {
    Total(calls, UsageRow(a))
  }

  function ReservedAt(calls: seq<Call>, now: int): real {
    Total(calls, Reservation(now))
  }

  /** The override wins over the tier's cap, and that over the default. */
  predicate WithinCap(a: Accounting, amount: real) {
    if a.capOverride.Some? then amount <= a.capOverride.value
    else if a.tierCap.Some? then amount <= a.tierCap.value
    else amount <= a.defaultCap
  }

  lemma SumsAre(a: Accounting, calls: seq<Call>, now: int)
    ensures Spend(a, calls) == a.startingSpend + UsageOf(a, calls)
    ensures SumActiveReservations(calls, now) == ReservedAt(calls, now)
  {
    TotalAgrees(calls, Counted(a), UsageRow(a));
    TotalAgrees(calls, ActiveReservation(now), Reservation(now));
  }

  lemma PromptSums(a: Accounting, calls: seq<Call>, now: int)
    ensures UsageOf(a, Prompt(calls)) == UsageOf(a, calls) && ReservedAt(Prompt(calls), now) == ReservedAt(calls, now)
  {
    TotalSame(Prompt(calls), calls, UsageRow(a));
    TotalSame(Prompt(calls), calls, Reservation(now));
  }

  /** A call before its reservation counts for nothing. */
  lemma UnreservedSums(a: Accounting, calls: seq<Call>, c: nat, call: Call, now: int)
    requires c < |calls| && !HasReservation(calls[c]) && !HasUsageRow(calls[c]) && !HasReservation(call) && !HasUsageRow(call)
    ensures UsageOf(a, calls[c := call]) == UsageOf(a, calls) && ReservedAt(calls[c := call], now) == ReservedAt(calls, now)
  {
    TotalUpdate(calls, UsageRow(a), c, call);
    TotalUpdate(calls, Reservation(now), c, call);
  }

  /** Under its lock and past the first sum. */
  lemma ReadsUsage(a: Accounting, s: State, c: nat)
    requires At(s, c, Idle) && s.lock.None?
    ensures var r := SumUsageStep(a, TakeLockStep(BeginStep(s, c), c), c);
            && At(r, c, UsageRead) && r.lock == Some(c) && r.time == s.time
            && r.calls == Prompt(s.calls)[c := r.calls[c]]
            && r.calls[c] == s.calls[c].(pc := UsageRead, began := s.time, late := false, seen := r.calls[c].seen)
            && r.calls[c].seen == a.startingSpend + UsageOf(a, s.calls)
            && ReservedAt(r.calls, s.time) == ReservedAt(s.calls, s.time) && UsageOf(a, r.calls) == UsageOf(a, s.calls)
  {
    var locked := TakeLockStep(BeginStep(s, c), c);
    var r := SumUsageStep(a, locked, c);
    assert locked.calls == s.calls[c := locked.calls[c]];
    UnreservedSums(a, s.calls, c, locked.calls[c], s.time);
    SumsAre(a, locked.calls, s.time);
    assert Prompt(locked.calls)[c := r.calls[c]] == Prompt(s.calls)[c := r.calls[c]];
    PromptSums(a, s.calls, s.time);
    UnreservedSums(a, Prompt(s.calls), c, r.calls[c], s.time);
  }

  /**
   The call is reserved exactly when the starting spend, the usage of the period, the reservations
   still counted and its own estimate come to no more than the cap; no other call changes but for
   what a reader has seen of it.
   */
  predicate TookTurn(a: Accounting, s: State, c: nat, r: State)
    requires c < |s.calls|
  {
    var call := s.calls[c];
    var fits := WithinCap(a, a.startingSpend + UsageOf(a, s.calls) + ReservedAt(s.calls, s.time) + call.estimate);
    && c < |r.calls| == |s.calls| && r.lock.None? && r.time == s.time
    && r.calls[c] == call.(pc := if fits then Reserved else Denied, began := s.time, late := false, seen := r.calls[c].seen)
    && (forall d | 0 <= d < |s.calls| && d != c :: r.calls[d] == s.calls[d].(late := false))
    && UsageOf(a, r.calls) == UsageOf(a, s.calls)
    && ReservedAt(r.calls, s.time) == ReservedAt(s.calls, s.time) + if fits then call.estimate else 0.0
  }

  lemma TurnFrom(a: Accounting, s: State, c: nat, read: State, r: State)
    requires c < |s.calls| == |read.calls| && read.calls == Prompt(s.calls)[c := read.calls[c]]
    requires read.calls[c] == s.calls[c].(pc := UsageRead, began := s.time, late := false, seen := read.calls[c].seen)
    requires read.calls[c].seen == a.startingSpend + UsageOf(a, s.calls)
    requires ReservedAt(read.calls, s.time) == ReservedAt(s.calls, s.time) && UsageOf(a, read.calls) == UsageOf(a, s.calls)
    requires var call := read.calls[c];
             var fits := WithinCap(a, call.seen + ReservedAt(read.calls, s.time) + call.estimate);
             && r.lock.None? && r.time == s.time
             && r.calls == read.calls[c := call.(pc := if fits then Reserved else Denied)]
             && UsageOf(a, r.calls) == UsageOf(a, read.calls)
             && ReservedAt(r.calls, s.time) == ReservedAt(read.calls, s.time) + if fits then call.estimate else 0.0
    ensures TookTurn(a, s, c, r)
  {
  }

  lemma TakesTurn(a: Accounting, s: State, c: nat)
    requires At(s, c, Idle) && s.lock.None?
    ensures TookTurn(a, s, c, InsertStep(SumReservationsStep(a, SumUsageStep(a, TakeLockStep(BeginStep(s, c), c), c), c), c))
  {
    var read := SumUsageStep(a, TakeLockStep(BeginStep(s, c), c), c);
    ReadsUsage(a, s, c);
    Decides(a, read, c);
    TurnFrom(a, s, c, read, InsertStep(SumReservationsStep(a, read, c), c));
  }

  /** The statements of one reservation. */
  function Turn(c: nat): seq<Label> {
    [] + [Begin(c)] + [TakeLock(c)] + [SumUsage(c)] + [SumReservations(c)] + [Insert(c)]
  }

  lemma RunMore(a: Accounting, s: State, schedule: seq<Label>, l: Label, before: State)
    requires Run(a, s, schedule) == before
    ensures Run(a, s, schedule + [l]) == Step(a, before, l)
  {
    assert (schedule + [l])[..|schedule|] == schedule;
  }

  lemma FiveSteps(a: Accounting, s: State, c: nat)
    ensures Run(a, s, Turn(c))
         == InsertStep(SumReservationsStep(a, SumUsageStep(a, TakeLockStep(BeginStep(s, c), c), c), c), c)
  {
    var one := BeginStep(s, c);
    var two := TakeLockStep(one, c);
    var three := SumUsageStep(a, two, c);
    var four := SumReservationsStep(a, three, c);
    RunMore(a, s, [], Begin(c), s);
    RunMore(a, s, [] + [Begin(c)], TakeLock(c), one);
    RunMore(a, s, [] + [Begin(c)] + [TakeLock(c)], SumUsage(c), two);
    RunMore(a, s, [] + [Begin(c)] + [TakeLock(c)] + [SumUsage(c)], SumReservations(c), three);
    RunMore(a, s, [] + [Begin(c)] + [TakeLock(c)] + [SumUsage(c)] + [SumReservations(c)], Insert(c), four);
  }

  /** A call that is let run under the lock gets its reservation if the cap allows it. */
  lemma CallAlone(a: Accounting, s: State, c: nat)
    requires At(s, c, Idle) && s.lock.None?
    ensures TookTurn(a, s, c, Run(a, s, Turn(c)))
  {
    FiveSteps(a, s, c);
    TakesTurn(a, s, c);
  }

  lemma Decides(a: Accounting, s: State, c: nat)
    requires At(s, c, UsageRead) && s.lock == Some(c) && s.calls[c].began == s.time
    ensures var (r, call) := (InsertStep(SumReservationsStep(a, s, c), c), s.calls[c]);
            var fits := WithinCap(a, call.seen + ReservedAt(s.calls, s.time) + call.estimate);
            && r.lock.None? && r.time == s.time
            && r.calls == s.calls[c := call.(pc := if fits then Reserved else Denied)]
            && UsageOf(a, r.calls) == UsageOf(a, s.calls)
            && ReservedAt(r.calls, s.time) == ReservedAt(s.calls, s.time) + if fits then call.estimate else 0.0
  {
    var r := InsertStep(SumReservationsStep(a, s, c), c);
    SumsAre(a, s.calls, s.time);
    TotalUpdate(s.calls, UsageRow(a), c, r.calls[c]);
    TotalUpdate(s.calls, Reservation(s.time), c, r.calls[c]);
  }

  /** A reserved call that is recorded in time is charged its cost, or the fallback, if the period has the instant. */
  lemma CallSettles(a: Accounting, s: State, c: nat)
    requires At(s, c, Reserved) && s.time - s.calls[c].began < 120000000
    ensures var (r, call) := (ReleaseStep(RecordStep(s, c), c), s.calls[c]);
            && r.lock == s.lock && At(r, c, Settled) && r.calls == s.calls[c := r.calls[c]]
            && UsageOf(a, r.calls) == UsageOf(a, s.calls)
                 + (if s.time < a.periodStart || s.time >= a.periodEnd then 0.0
                    else if call.cost.Some? then call.cost.value else a.fallback)
            && ReservedAt(r.calls, s.time) == ReservedAt(s.calls, s.time) - call.estimate
  {
    var r := ReleaseStep(RecordStep(s, c), c);
    assert r.calls == s.calls[c := r.calls[c]];
    TotalUpdate(s.calls, UsageRow(a), c, r.calls[c]);
    TotalUpdate(s.calls, Reservation(s.time), c, r.calls[c]);
  }

  /** One that fails is released without a charge. */
  lemma CallFails(a: Accounting, s: State, c: nat, now: int)
    requires At(s, c, Reserved)
    ensures var r := ReleaseStep(s, c);
            && At(r, c, Dropped) && r.calls == s.calls[c := r.calls[c]] && r.lock == s.lock
            && UsageOf(a, r.calls) == UsageOf(a, s.calls)
            && ReservedAt(r.calls, now)
               == ReservedAt(s.calls, now) - if now - s.calls[c].began < 120000000 then s.calls[c].estimate else 0.0
  {
    var r := ReleaseStep(s, c);
    TotalUpdate(s.calls, UsageRow(a), c, r.calls[c]);
    TotalUpdate(s.calls, Reservation(now), c, r.calls[c]);
  }

  // ---- The bound is reached ----

  lemma Next(a: Accounting, s: State, schedule: seq<Label>, l: Label) returns (longer: seq<Label>)
    ensures longer == schedule + [l] && Run(a, s, longer) == Step(a, Run(a, s, schedule), l)
  {
    longer := schedule + [l];
    assert longer[..|schedule|] == schedule;
  }

  lemma TotalOfTwo(x: Call, y: Call, f: Call -> real)
    ensures Total([x, y], f) == f(x) + f(y)
  {
    assert [x, y][..1] == [x] && [x][..0] == [];
    assert Total([x], f) == f(x);
  }

  function Plain(cap: real): Accounting {
    Accounting(None, None, cap, 0.0, 0, 1, 0.0)
  }

  /** A call that costs all of the cap. */
  function Whole(cap: real, pc: Pc, late: bool): Call {
    Call(cap, Some(cap), pc, 0, 0.0, late, 0)
  }

  function Two(cap: real, first: Pc, firstLate: bool, second: Pc, lock: Option<nat>): State {
    State(0, lock, [Whole(cap, first, firstLate), Whole(cap, second, false)], 0.0)
  }

  lemma EmptySums(cap: real, first: Pc, second: Pc, lock: Option<nat>)
    requires first.Locked? || first.UsageRead? || first.Reserved?
    requires second.Idle? || second.Locked?
    ensures var calls := Two(cap, first, false, second, lock).calls;
            && Spend(Plain(cap), calls) == 0.0 && Total(calls, Slipped(Plain(cap))) == 0.0
            && (!first.Reserved? ==> SumActiveReservations(calls, 0) == 0.0)
  {
    var x, y := Whole(cap, first, false), Whole(cap, second, false);
    TotalOfTwo(x, y, Counted(Plain(cap)));
    TotalOfTwo(x, y, ActiveReservation(0));
    TotalOfTwo(x, y, Slipped(Plain(cap)));
  }

  lemma FirstReads(cap: real) returns (schedule: seq<Label>)
    requires cap > 0.0
    ensures Run(Plain(cap), Two(cap, Idle, false, Idle, None), schedule) == Two(cap, UsageRead, false, Idle, Some(0))
  {
    var a, s := Plain(cap), Two(cap, Idle, false, Idle, None);
    schedule := Next(a, s, [], Begin(0));
    assert Run(a, s, schedule) == Two(cap, Begun, false, Idle, None);
    schedule := Next(a, s, schedule, TakeLock(0));
    assert Run(a, s, schedule) == Two(cap, Locked, false, Idle, Some(0));
    EmptySums(cap, Locked, Idle, Some(0));
    schedule := Next(a, s, schedule, SumUsage(0));
  }

  lemma FirstReserves(cap: real, s: State, before: seq<Label>) returns (schedule: seq<Label>)
    requires Run(Plain(cap), s, before) == Two(cap, UsageRead, false, Idle, Some(0))
    ensures Run(Plain(cap), s, schedule) == Two(cap, Reserved, false, Idle, None)
  {
    var a := Plain(cap);
    EmptySums(cap, UsageRead, Idle, Some(0));
    schedule := Next(a, s, before, SumReservations(0));
    assert Run(a, s, schedule) == Two(cap, Admitted, false, Idle, Some(0));
    schedule := Next(a, s, schedule, Insert(0));
  }

  lemma SecondReads(cap: real, s: State, before: seq<Label>) returns (schedule: seq<Label>)
    requires Run(Plain(cap), s, before) == Two(cap, Reserved, false, Idle, None)
    ensures Run(Plain(cap), s, schedule) == Two(cap, Reserved, false, UsageRead, Some(1))
  {
    var a := Plain(cap);
    schedule := Next(a, s, before, Begin(1));
    assert Run(a, s, schedule) == Two(cap, Reserved, false, Begun, None);
    schedule := Next(a, s, schedule, TakeLock(1));
    assert Run(a, s, schedule) == Two(cap, Reserved, false, Locked, Some(1));
    EmptySums(cap, Reserved, Locked, Some(1));
    schedule := Next(a, s, schedule, SumUsage(1));
  }

  lemma FirstSettles(cap: real, s: State, before: seq<Label>) returns (schedule: seq<Label>)
    requires Run(Plain(cap), s, before) == Two(cap, Reserved, false, UsageRead, Some(1))
    ensures Run(Plain(cap), s, schedule) == Two(cap, Settled, true, UsageRead, Some(1))
  {
    schedule := Next(Plain(cap), s, before, Record(0));
    assert Run(Plain(cap), s, schedule) == Two(cap, Recorded, true, UsageRead, Some(1));
    schedule := Next(Plain(cap), s, schedule, Release(0));
  }

  /**
   Two calls that each cost the whole cap, the first settled between the second's two sums: spend
   reaches twice the cap, all of the bound.
   */
  lemma BoundIsReached(cap: real) returns (schedule: seq<Label>)
    requires cap > 0.0
    ensures Initial(Plain(cap), Two(cap, Idle, false, Idle, None))
    ensures var r := Run(Plain(cap), Two(cap, Idle, false, Idle, None), schedule);
            Spend(Plain(cap), r.calls) == cap + r.missed == 2.0 * cap
  {
    var a, s := Plain(cap), Two(cap, Idle, false, Idle, None);
    schedule := FirstReads(cap);
    schedule := FirstReserves(cap, s, schedule);
    schedule := SecondReads(cap, s, schedule);
    schedule := FirstSettles(cap, s, schedule);
    var x, y := Whole(cap, Settled, true), Whole(cap, UsageRead, false);
    var mid := Run(a, s, schedule);
    assert mid.calls == [x, y];
    TotalOfTwo(x, y, ActiveReservation(0));
    TotalOfTwo(x, y, Slipped(a));
    assert Counted(a)(x) == cap;
    assert Slipped(a)(x) == Counted(a)(x);
    assert Total(mid.calls, Slipped(a)) == cap;
    assert Fits(a, mid, 1);
    schedule := Next(a, s, schedule, SumReservations(1));
    assert Run(a, s, schedule) == Two(cap, Settled, true, Admitted, Some(1)).(missed := cap);
    schedule := Next(a, s, schedule, Insert(1));
    assert Run(a, s, schedule) == Two(cap, Settled, true, Reserved, None).(missed := cap);
    schedule := Next(a, s, schedule, Record(1));
    var r := Run(a, s, schedule);
    assert r.calls == [x, Whole(cap, Recorded, true)];
    TotalOfTwo(x, Whole(cap, Recorded, true), Counted(a));
  }
}
