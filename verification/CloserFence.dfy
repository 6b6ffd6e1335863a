/**
 Account erasure against the session closer (packages/db/src/commitments.ts, the stamped path of
 `transitionCommitment`, and packages/db/src/account-delete.ts).

 Transactions run statement by statement under read committed: a statement sees what was committed
 when it started and its own transaction's writes, and row locks are held to the end. A schedule
 is any sequence of steps; a step that is blocked or out of order changes nothing.

 `log` and `claimedAt` are history variables: no step reads them.
 */
module CloserFence {
  import opened Options
  import opened Commitments

  /** Evidence text is what erasure must not leave behind. */
  datatype Row = Row(status: Status, reason: Option<string>)

  datatype Holder = Free | Closer(id: nat) | Eraser(id: nat)

  datatype CloserPc = Idle | Claimed | Locked | Checked | Written | Ended

  /** One stamped transition: the run and commitment it is for, and the fence taken at the claim. */
  datatype CloserTx = CloserTx(
    run: nat, commitment: nat, expectedFrom: Status, to: Status, reason: Option<string>,
    pc: CloserPc, fence: nat, claimedAt: nat)

  datatype EraserPc = Queued | Redacting | Over

  /** `redacted` and `bumped` are the rows and runs the transaction has written, and so holds. */
  datatype EraserTx = EraserTx(pc: EraserPc, redacted: set<nat>, bumped: set<nat>)

  datatype Entry = Erasure | Landed(commitment: nat, reason: Option<string>, claimedAt: nat)

  /** The committed tables, the locks and the running transactions. */
  datatype State = State(
    rows: seq<Row>, epochs: seq<nat>, erased: bool,
    rowLocks: seq<Holder>, runLocks: seq<Holder>,
    closers: seq<CloserTx>, erasers: seq<EraserTx>, log: seq<Entry>)

  datatype Label =
    | Claim(c: nat) | LockRow(c: nat) | ReadEpoch(c: nat) | Write(c: nat) | Land(c: nat) | GiveUp(c: nat)
    | Begin(e: nat) | Redact(e: nat, row: nat) | Bump(e: nat, run: nat) | Erase(e: nat) | Abandon(e: nat)
    | Reopen(run: nat) | Sweep(row: nat)

  // ---- The closer ----

  function Release(locks: seq<Holder>, h: Holder): (r: seq<Holder>)
    ensures |r| == |locks|
  {
    seq(|locks|, i requires 0 <= i < |locks| => if locks[i] == h then Free else locks[i])
  }

  function SetCloser(s: State, c: nat, t: CloserTx): State
    requires c < |s.closers|
  {
    s.(closers := s.closers[c := t])
  }

  /** A transaction that ends without committing leaves nothing but its locks, which are released. */
  function EndCloser(s: State, c: nat): State
    requires c < |s.closers|
  {
    SetCloser(s, c, s.closers[c].(pc := Ended)).(rowLocks := Release(s.rowLocks, Closer(c)))
  }

  /** The claim reads the run's epoch, which becomes the fence. */
  function ClaimStep(s: State, c: nat): State {
    if c < |s.closers| && s.closers[c].pc.Idle? && s.closers[c].run < |s.epochs| then
      SetCloser(s, c, s.closers[c].(pc := Claimed, fence := s.epochs[s.closers[c].run], claimedAt := |s.log|))
    else s
  }

  /** SELECT ... FOR UPDATE: waits while another transaction holds the row. */
  function LockRowStep(s: State, c: nat): State {
    if c >= |s.closers| || !s.closers[c].pc.Claimed? then s
    else if s.closers[c].commitment >= |s.rows| || s.closers[c].commitment >= |s.rowLocks| then EndCloser(s, c)
    else if !s.rowLocks[s.closers[c].commitment].Free? then s
    else SetCloser(s, c, s.closers[c].(pc := Locked)).(rowLocks := s.rowLocks[s.closers[c].commitment := Closer(c)])
  }

  /** The epoch is read in a statement of its own, after the lock. */
  function ReadEpochStep(s: State, c: nat): State {
    if c >= |s.closers| || !s.closers[c].pc.Locked? then s
    else if s.closers[c].run < |s.epochs| && s.epochs[s.closers[c].run] == s.closers[c].fence then
      SetCloser(s, c, s.closers[c].(pc := Checked))
    else EndCloser(s, c)
  }

  /** The guarded UPDATE and the event; the row is the transaction's own until it commits. */
  function WriteStep(s: State, c: nat): State {
    if c >= |s.closers| || !s.closers[c].pc.Checked? then s
    else
      var t := s.closers[c];
      if t.commitment < |s.rows| && s.rows[t.commitment].status == t.expectedFrom && TriggerPasses(t.expectedFrom, t.to)
      then SetCloser(s, c, t.(pc := Written))
      else EndCloser(s, c)
  }

  function LandStep(s: State, c: nat): State {
    if c < |s.closers| && s.closers[c].pc.Written? && s.closers[c].commitment < |s.rows| then
      var t := s.closers[c];
      EndCloser(s, c).(rows := s.rows[t.commitment := Row(t.to, t.reason)],
                       log := s.log + [Landed(t.commitment, t.reason, t.claimedAt)])
    else s
  }

  function GiveUpStep(s: State, c: nat): State {
    if c < |s.closers| && !s.closers[c].pc.Idle? then EndCloser(s, c) else s
  }

  // ---- The erasure ----

  function EndEraser(s: State, e: nat): State
    requires e < |s.erasers|
  {
    s.(erasers := s.erasers[e := EraserTx(Over, {}, {})],
       rowLocks := Release(s.rowLocks, Eraser(e)), runLocks := Release(s.runLocks, Eraser(e)))
  }

  /** The account-lifecycle lock lets one erasure in at a time; a second finds the account erased. */
  function BeginStep(s: State, e: nat): State {
    if e < |s.erasers| && s.erasers[e].pc.Queued? && (forall i | 0 <= i < |s.erasers| :: !s.erasers[i].pc.Redacting?) then
      s.(erasers := s.erasers[e := EraserTx(if s.erased then Over else Redacting, {}, {})])
    else s
  }

  /** The redacting UPDATE takes the rows one by one, waiting for each, in whatever order. */
  function RedactStep(s: State, e: nat, row: nat): State {
    if e < |s.erasers| && s.erasers[e].pc.Redacting? && row < |s.rowLocks| && s.rowLocks[row].Free? then
      s.(erasers := s.erasers[e := s.erasers[e].(redacted := s.erasers[e].redacted + {row})],
         rowLocks := s.rowLocks[row := Eraser(e)])
    else s
  }

  predicate AllRedacted(s: State, e: nat) {
    e < |s.erasers| && forall i: nat | i < |s.rows| :: i in s.erasers[e].redacted
  }

  predicate AllBumped(s: State, e: nat) {
    e < |s.erasers| && forall i: nat | i < |s.epochs| :: i in s.erasers[e].bumped
  }

  /** The epochs are bumped by a later statement than the one that redacts commitments. */
  function BumpStep(s: State, e: nat, run: nat): State {
    if e < |s.erasers| && s.erasers[e].pc.Redacting? && AllRedacted(s, e) && run < |s.runLocks| && s.runLocks[run].Free? then
      s.(erasers := s.erasers[e := s.erasers[e].(bumped := s.erasers[e].bumped + {run})],
         runLocks := s.runLocks[run := Eraser(e)])
    else s
  }

  function EraseStep(s: State, e: nat): State {
    if e < |s.erasers| && s.erasers[e].pc.Redacting? && AllRedacted(s, e) && AllBumped(s, e) then
      EndEraser(s, e).(
        rows := seq(|s.rows|, i requires 0 <= i < |s.rows| => s.rows[i].(reason := None)),
        epochs := seq(|s.epochs|, i requires 0 <= i < |s.epochs| => s.epochs[i] + 1),
        erased := true, log := s.log + [Erasure])
    else s
  }

  function AbandonStep(s: State, e: nat): State {
    if e < |s.erasers| && s.erasers[e].pc.Redacting? then EndEraser(s, e) else s
  }

  // ---- Other writers ----

  /** A startup or resume bumps the epoch of one run. */
  function ReopenStep(s: State, run: nat): State {
    if run < |s.epochs| && run < |s.runLocks| && s.runLocks[run].Free? then
      s.(epochs := s.epochs[run := s.epochs[run] + 1])
    else s
  }

  /** The sweep expires one row and leaves no reason. */
  function SweepStep(s: State, row: nat): State {
    if row < |s.rows| && row < |s.rowLocks| && s.rowLocks[row].Free?
       && (s.rows[row].status.Open? || s.rows[row].status.Waiting?) then
      s.(rows := s.rows[row := Row(Expired, None)])
    else s
  }

  function Step(s: State, l: Label): State {
    match l
    case Claim(c) => ClaimStep(s, c)
    case LockRow(c) => LockRowStep(s, c)
    case ReadEpoch(c) => ReadEpochStep(s, c)
    case Write(c) => WriteStep(s, c)
    case Land(c) => LandStep(s, c)
    case GiveUp(c) => GiveUpStep(s, c)
    case Begin(e) => BeginStep(s, e)
    case Redact(e, row) => RedactStep(s, e, row)
    case Bump(e, run) => BumpStep(s, e, run)
    case Erase(e) => EraseStep(s, e)
    case Abandon(e) => AbandonStep(s, e)
    case Reopen(run) => ReopenStep(s, run)
    case Sweep(row) => SweepStep(s, row)
  }

  function Run(s: State, schedule: seq<Label>): State {
    if schedule == [] then s
    else Step(Run(s, schedule[..|schedule| - 1]), schedule[|schedule| - 1])
  }

  ghost predicate Initial(s: State) {
    && s.log == [] && !s.erased
    && |s.rowLocks| == |s.rows| && |s.runLocks| == |s.epochs|
    && (forall i | 0 <= i < |s.rowLocks| :: s.rowLocks[i] == Free)
    && (forall i | 0 <= i < |s.runLocks| :: s.runLocks[i] == Free)
    && (forall i | 0 <= i < |s.closers| :: s.closers[i].pc == Idle)
    && (forall i | 0 <= i < |s.erasers| :: s.erasers[i] == EraserTx(Queued, {}, {}))
  }

  // ---- The invariant ----

  predicate ErasedSince(log: seq<Entry>, from: nat) {
    exists i | from <= i < |log| :: log[i].Erasure?
  }

  /** The fence is a past epoch, and an erasure since the claim has moved the run beyond it. */
  predicate FenceHolds(s: State, t: CloserTx) {
    !t.pc.Idle? && !t.pc.Ended? ==>
      && t.claimedAt <= |s.log| && t.run < |s.epochs| && t.fence <= s.epochs[t.run]
      && (ErasedSince(s.log, t.claimedAt) ==> t.fence < s.epochs[t.run])
  }

  predicate Holds(pc: CloserPc) {
    pc.Locked? || pc.Checked? || pc.Written?
  }

  /** A closer past its lock holds the row; past its check, no erasure has committed since the claim. */
  predicate CloserOk(s: State, c: nat) {
    c < |s.closers| ==>
      var t := s.closers[c];
      && FenceHolds(s, t)
      && (Holds(t.pc) ==> t.commitment < |s.rowLocks| && s.rowLocks[t.commitment] == Closer(c))
      && (t.pc.Checked? || t.pc.Written? ==> !ErasedSince(s.log, t.claimedAt))
  }

  predicate EraserOk(s: State, e: nat) {
    e < |s.erasers| ==> forall row | row in s.erasers[e].redacted :: row < |s.rowLocks| && s.rowLocks[row] == Eraser(e)
  }

  /** A landed write comes before any erasure later than its claim. */
  predicate LandedInTime(log: seq<Entry>, j: nat) {
    j < |log| && log[j].Landed? ==> forall i | 0 <= i < j && log[i].Erasure? :: i < log[j].claimedAt
  }

  /** The reason left on a row was written by a closer that landed after the last erasure. */
  predicate ReasonFrom(s: State, row: nat, j: nat) {
    && row < |s.rows| && j < |s.log|
    && s.log[j].Landed? && s.log[j].commitment == row && s.log[j].reason == s.rows[row].reason
    && !ErasedSince(s.log, j)
  }

  ghost predicate ReasonOk(s: State, row: nat) {
    row < |s.rows| && s.rows[row].reason.Some? && ErasedSince(s.log, 0) ==> exists j :: ReasonFrom(s, row, j)
  }

  ghost predicate Inv(s: State) {
    && |s.rowLocks| == |s.rows| && |s.runLocks| == |s.epochs|
    && (forall c: nat :: CloserOk(s, c))
    && (forall e: nat :: EraserOk(s, e))
    && (forall j: nat :: LandedInTime(s.log, j))
    && (forall row: nat :: ReasonOk(s, row))
    && (s.erased <==> ErasedSince(s.log, 0))
  }

  lemma ErasedSinceAppend(log: seq<Entry>, entry: Entry, from: nat)
    requires from <= |log|
    ensures ErasedSince(log + [entry], from) <==> ErasedSince(log, from) || entry.Erasure?
  {
    var longer := log + [entry];
    assert forall i | 0 <= i < |log| :: longer[i] == log[i];
    if ErasedSince(log, from) {
      var i :| from <= i < |log| && log[i].Erasure?;
      assert longer[i].Erasure?;
    }
    if entry.Erasure? { assert longer[|log|].Erasure?; }
  }

  /** An erasure about to commit holds every row, so no closer is between its check and its commit. */
  lemma ErasureExcludesCheckedClosers(s: State, e: nat, c: nat)
    requires Inv(s) && AllRedacted(s, e) && c < |s.closers|
    ensures !Holds(s.closers[c].pc)
  {
    assert CloserOk(s, c) && EraserOk(s, e);
    var row := s.closers[c].commitment;
    assert row < |s.rows| ==> row in s.erasers[e].redacted;
  }

  lemma EndCloserOk(s: State, ended: nat, c: nat)
    requires Inv(s) && ended < |s.closers|
    ensures CloserOk(EndCloser(s, ended), c)
  {
    assert CloserOk(s, c);
  }

  lemma ClaimOk(s: State, d: nat, c: nat)
    requires Inv(s)
    ensures CloserOk(ClaimStep(s, d), c)
  {
    assert CloserOk(s, c);
  }

  lemma LockRowOk(s: State, d: nat, c: nat)
    requires Inv(s)
    ensures CloserOk(LockRowStep(s, d), c)
  {
    assert CloserOk(s, c) && CloserOk(s, d);
    if d < |s.closers| { EndCloserOk(s, d, c); }
  }

  lemma ReadEpochOk(s: State, d: nat, c: nat)
    requires Inv(s)
    ensures CloserOk(ReadEpochStep(s, d), c)
  {
    assert CloserOk(s, c) && CloserOk(s, d);
    if d < |s.closers| { EndCloserOk(s, d, c); }
  }

  lemma WriteOk(s: State, d: nat, c: nat)
    requires Inv(s)
    ensures CloserOk(WriteStep(s, d), c)
  {
    assert CloserOk(s, c);
    if d < |s.closers| { EndCloserOk(s, d, c); }
  }

  lemma LandOk(s: State, l: nat, c: nat)
    requires Inv(s)
    ensures CloserOk(LandStep(s, l), c)
  {
    assert CloserOk(s, c);
    if c < |s.closers| && l < |s.closers| {
      var t := s.closers[l];
      if s.closers[c].claimedAt <= |s.log| {
        ErasedSinceAppend(s.log, Landed(t.commitment, t.reason, t.claimedAt), s.closers[c].claimedAt);
      }
    }
  }

  lemma EraseOk(s: State, e: nat, c: nat)
    requires Inv(s)
    ensures CloserOk(EraseStep(s, e), c)
  {
    assert CloserOk(s, c);
    if c < |s.closers| {
      if AllRedacted(s, e) { ErasureExcludesCheckedClosers(s, e, c); }
      if s.closers[c].claimedAt <= |s.log| { ErasedSinceAppend(s.log, Erasure, s.closers[c].claimedAt); }
    }
  }

  lemma OtherStepOk(s: State, l: Label, c: nat)
    requires Inv(s)
    requires l.Begin? || l.Redact? || l.Bump? || l.Abandon? || l.Reopen? || l.Sweep?
    ensures CloserOk(Step(s, l), c)
  {
    assert CloserOk(s, c);
  }

  lemma StepClosersOk(s: State, l: Label, c: nat)
    requires Inv(s)
    ensures CloserOk(Step(s, l), c)
  {
    match l
    case Land(d) => LandOk(s, d, c);
    case Erase(e) => EraseOk(s, e, c);
    case Claim(d) => ClaimOk(s, d, c);
    case LockRow(d) => LockRowOk(s, d, c);
    case ReadEpoch(d) => ReadEpochOk(s, d, c);
    case Write(d) => WriteOk(s, d, c);
    case GiveUp(d) => if d < |s.closers| { EndCloserOk(s, d, c); }
    case _ => OtherStepOk(s, l, c);
  }

  lemma StepErasersOk(s: State, l: Label, e: nat)
    requires Inv(s)
    ensures EraserOk(Step(s, l), e)
  {
    assert EraserOk(s, e);
  }

  lemma StepLandsInTime(s: State, l: Label, j: nat)
    requires Inv(s)
    ensures LandedInTime(Step(s, l).log, j)
  {
    assert LandedInTime(s.log, j);
    if l.Land? && l.c < |s.closers| { assert CloserOk(s, l.c); }
  }

  lemma ReasonFromKept(s: State, after: State, row: nat)
    requires s.log == after.log && |s.rows| == |after.rows|
    requires row < |s.rows| ==> after.rows[row].reason == s.rows[row].reason || after.rows[row].reason == None
    requires ReasonOk(s, row)
    ensures ReasonOk(after, row)
  {
    if row < |s.rows| && s.rows[row].reason.Some? && ErasedSince(s.log, 0) && after.rows[row].reason.Some? {
      var j :| ReasonFrom(s, row, j);
      assert ReasonFrom(after, row, j);
    }
  }

  lemma LandReasonOk(s: State, c: nat, row: nat)
    requires Inv(s)
    ensures ReasonOk(LandStep(s, c), row)
  {
    assert ReasonOk(s, row);
    var after := LandStep(s, c);
    if |after.log| > |s.log| && row < |s.rows| {
      var entry := after.log[|s.log|];
      ErasedSinceAppend(s.log, entry, 0);
      if row == s.closers[c].commitment {
        ErasedSinceAppend(s.log, entry, |s.log|);
        assert ReasonFrom(after, row, |s.log|);
      } else if s.rows[row].reason.Some? && ErasedSince(s.log, 0) {
        var j :| ReasonFrom(s, row, j);
        ErasedSinceAppend(s.log, entry, j);
        assert ReasonFrom(after, row, j);
      }
    }
  }

  lemma StepReasonsOk(s: State, l: Label, row: nat)
    requires Inv(s)
    ensures ReasonOk(Step(s, l), row)
  {
    assert ReasonOk(s, row);
    match l
    case Land(c) => LandReasonOk(s, c, row);
    case Erase(_) =>
    case _ => ReasonFromKept(s, Step(s, l), row);
  }

  lemma StepLog(s: State, l: Label)
    requires Inv(s)
    ensures Step(s, l).erased <==> ErasedSince(Step(s, l).log, 0)
    ensures s.log <= Step(s, l).log
  {
    if l.Erase? { ErasedSinceAppend(s.log, Erasure, 0); }
    if l.Land? && l.c < |s.closers| {
      var t := s.closers[l.c];
      ErasedSinceAppend(s.log, Landed(t.commitment, t.reason, t.claimedAt), 0);
    }
  }

  lemma StepKeepsInv(s: State, l: Label)
    requires Inv(s)
    ensures Inv(Step(s, l))
  {
    forall c: nat ensures CloserOk(Step(s, l), c) { StepClosersOk(s, l, c); }
    forall e: nat ensures EraserOk(Step(s, l), e) { StepErasersOk(s, l, e); }
    forall j: nat ensures LandedInTime(Step(s, l).log, j) { StepLandsInTime(s, l, j); }
    forall row: nat ensures ReasonOk(Step(s, l), row) { StepReasonsOk(s, l, row); }
    StepLog(s, l);
  }

  lemma {:induction false} RunKeepsInv(s: State, schedule: seq<Label>)
    requires Initial(s)
    ensures Inv(Run(s, schedule))
  {
    if schedule != [] {
      RunKeepsInv(s, schedule[..|schedule| - 1]);
      StepKeepsInv(Run(s, schedule[..|schedule| - 1]), schedule[|schedule| - 1]);
    }
  }

  // ---- The theorems ----

  /** In no schedule does a closer that claimed before an erasure committed land after it. */
  lemma NothingLandsLate(s: State, schedule: seq<Label>, i: nat, j: nat)
    requires Initial(s)
    requires var log := Run(s, schedule).log; i < j < |log| && log[i].Erasure? && log[j].Landed?
    ensures i < Run(s, schedule).log[j].claimedAt
  {
    RunKeepsInv(s, schedule);
    assert LandedInTime(Run(s, schedule).log, j);
  }

  /**
   Whatever an erasure found, it redacted: text on a commitment after it is the text of a closer
   that both claimed and landed after it.
   */
  lemma ReasonsAreNewer(s: State, schedule: seq<Label>, i: nat, row: nat) returns (j: nat)
    requires Initial(s)
    requires var r := Run(s, schedule);
             i < |r.log| && r.log[i].Erasure? && row < |r.rows| && r.rows[row].reason.Some?
    ensures var r := Run(s, schedule);
            && i < j < |r.log| && r.log[j].Landed? && r.log[j].commitment == row
            && r.log[j].reason == r.rows[row].reason && i < r.log[j].claimedAt
  {
    RunKeepsInv(s, schedule);
    var r := Run(s, schedule);
    assert ReasonOk(r, row) && ErasedSince(r.log, 0);
    j :| ReasonFrom(r, row, j);
    assert i < j;
    NothingLandsLate(s, schedule, i, j);
  }

  /** With no claim after the erasure, nothing of it is ever left. */
  lemma ErasureIsFinal(s: State, schedule: seq<Label>, i: nat)
    requires Initial(s)
    requires var log := Run(s, schedule).log;
             && i < |log| && log[i].Erasure?
             && forall j | i < j < |log| && log[j].Landed? :: log[j].claimedAt <= i
    ensures forall row | row in Run(s, schedule).rows :: row.reason == None
  {
    var r := Run(s, schedule);
    forall row | row in r.rows ensures row.reason == None {
      var k := IndexOfRow(r.rows, row);
      if row.reason.Some? {
        var j := ReasonsAreNewer(s, schedule, i, k);
      }
    }
  }

  lemma IndexOfRow(rows: seq<Row>, row: Row) returns (k: nat)
    requires row in rows
    ensures k < |rows| && rows[k] == row
  {
    k :| k < |rows| && rows[k] == row;
  }

  // ---- What the transactions do when they are let ----

  lemma RunMore(s: State, schedule: seq<Label>, l: Label) returns (longer: seq<Label>)
    ensures longer == schedule + [l] && Run(s, longer) == Step(Run(s, schedule), l)
  {
    longer := schedule + [l];
    assert longer[..|schedule|] == schedule;
  }

  /** The run's epoch is still the fence, and the commitment may move from the status the closer saw. */
  predicate MayLand(s: State, t: CloserTx) {
    && t.run < |s.epochs| && s.epochs[t.run] == t.fence
    && t.commitment < |s.rows| && s.rows[t.commitment].status == t.expectedFrom
    && (t.expectedFrom == t.to || t.to == Open || t.expectedFrom == Open || t.expectedFrom == Waiting)
  }

  predicate RowFree(s: State, t: CloserTx) {
    t.commitment < |s.rows| && t.commitment < |s.rowLocks| && s.rowLocks[t.commitment].Free?
  }

  lemma LockThenRead(s: State, c: nat)
    requires c < |s.closers| && s.closers[c].pc.Claimed? && RowFree(s, s.closers[c])
    ensures var (r, t) := (ReadEpochStep(LockRowStep(s, c), c), s.closers[c]);
            && r.rows == s.rows && r.log == s.log && r.epochs == s.epochs
            && |r.rowLocks| == |s.rowLocks| && |r.closers| == |s.closers|
            && r.closers[c] == t.(pc := if t.run < |s.epochs| && s.epochs[t.run] == t.fence then Checked else Ended)
            && (r.closers[c].pc.Ended? ==> r.rowLocks[t.commitment].Free?)
            && forall d: nat | d < |s.closers| && d != c :: r.closers[d] == s.closers[d]
  {
  }

  lemma WriteThenLand(s: State, c: nat)
    requires c < |s.closers| && s.closers[c].pc.Checked?
    requires s.closers[c].commitment < |s.rows| && s.closers[c].commitment < |s.rowLocks|
    requires s.rowLocks[s.closers[c].commitment] == Closer(c)
    ensures var (r, t) := (LandStep(WriteStep(s, c), c), s.closers[c]);
            var lands := s.rows[t.commitment].status == t.expectedFrom
              && (t.expectedFrom == t.to || t.to == Open || t.expectedFrom == Open || t.expectedFrom == Waiting);
            && r.rows == (if lands then s.rows[t.commitment := Row(t.to, t.reason)] else s.rows)
            && r.log == (if lands then s.log + [Landed(t.commitment, t.reason, t.claimedAt)] else s.log)
            && r.epochs == s.epochs && r.closers == s.closers[c := t.(pc := Ended)]
            && |r.rowLocks| == |s.rowLocks| && r.rowLocks[t.commitment].Free?
  {
    LegalMoves(s.closers[c].expectedFrom, s.closers[c].to);
  }

  lemma EndedStays(s: State, c: nat)
    requires c < |s.closers| && s.closers[c].pc.Ended?
    ensures LandStep(WriteStep(s, c), c) == s
  {
  }

  /** The statements of a stamped transition. */
  function Rest(c: nat): seq<Label> {
    [LockRow(c), ReadEpoch(c), Write(c), Land(c)]
  }

  lemma RestSteps(s: State, c: nat)
    ensures Run(s, Rest(c)) == LandStep(WriteStep(ReadEpochStep(LockRowStep(s, c), c), c), c)
  {
    assert Run(s, []) == s;
    var one := RunMore(s, [], LockRow(c));
    var two := RunMore(s, one, ReadEpoch(c));
    var three := RunMore(s, two, Write(c));
    var four := RunMore(s, three, Land(c));
    assert four == Rest(c);
  }

  /**
   From its claim on, a closer that finds the row free does one of two things: it writes its status
   and reason over the row and logs that, exactly when the run's epoch is still the one it claimed
   and the row's status is the one it saw and may move to its target; or it changes nothing.
   */
  lemma CloserAlone(s: State, c: nat)
    requires c < |s.closers| && s.closers[c].pc.Claimed? && RowFree(s, s.closers[c])
    ensures var (r, t) := (Run(s, Rest(c)), s.closers[c]);
            && r.rows == (if MayLand(s, t) then s.rows[t.commitment := Row(t.to, t.reason)] else s.rows)
            && r.log == (if MayLand(s, t) then s.log + [Landed(t.commitment, t.reason, t.claimedAt)] else s.log)
            && r.epochs == s.epochs && |r.closers| == |s.closers| && r.closers[c].pc.Ended?
            && |r.rowLocks| == |s.rowLocks| && r.rowLocks[t.commitment].Free?
  {
    RestSteps(s, c);
    LockThenRead(s, c);
    var checked := ReadEpochStep(LockRowStep(s, c), c);
    if checked.closers[c].pc.Ended? {
      EndedStays(checked, c);
    } else {
      assert checked.rowLocks[s.closers[c].commitment] == Closer(c);
      WriteThenLand(checked, c);
    }
  }

  /** A claim takes the run's present epoch for its fence; a row that is held is waited for. */
  lemma ClaimAndWait(s: State, c: nat)
    requires c < |s.closers|
    ensures s.closers[c].pc.Idle? && s.closers[c].run < |s.epochs| ==>
              var t := Step(s, Claim(c)).closers[c];
              t == s.closers[c].(pc := Claimed, fence := s.epochs[s.closers[c].run], claimedAt := |s.log|)
    ensures s.closers[c].pc.Claimed? && s.closers[c].commitment < |s.rows| == |s.rowLocks| ==>
              s.rowLocks[s.closers[c].commitment].Free? || Step(s, LockRow(c)) == s
  {
  }

  /** One erasure runs at a time; one that begins on an erased account is over at once. */
  lemma ErasureBegins(s: State, e: nat)
    requires e < |s.erasers| && s.erasers[e].pc.Queued?
    ensures var r := Step(s, Begin(e));
            && r.rows == s.rows && r.epochs == s.epochs
            && if exists i :: 0 <= i < |s.erasers| && s.erasers[i].pc == Redacting then r == s
               else r.erasers[e].pc == if s.erased then Over else Redacting
  {
  }

  /** Commitments are changed by a landing, an erasure or a sweep only, and epochs by an erasure or a reopened run. */
  lemma OnlyCommitsWrite(s: State, l: Label)
    ensures Step(s, l).rows != s.rows ==> l.Land? || l.Erase? || l.Sweep?
    ensures Step(s, l).epochs != s.epochs ==> l.Erase? || l.Reopen?
    ensures Step(s, l).log != s.log ==> l.Land? || l.Erase?
  {
  }

  /** A sweep expires a live row nobody holds, and a reopened run moves its own epoch, and no other. */
  lemma OtherWriters(s: State, i: nat)
    requires |s.rowLocks| == |s.rows| && |s.runLocks| == |s.epochs|
    ensures i < |s.rows| ==>
              Step(s, Sweep(i)).rows
              == if s.rowLocks[i] == Free && (s.rows[i].status == Open || s.rows[i].status == Waiting)
                 then s.rows[i := Row(Expired, None)] else s.rows
    ensures i < |s.epochs| ==>
              Step(s, Reopen(i)).epochs
              == if s.runLocks[i] == Free then s.epochs[i := s.epochs[i] + 1] else s.epochs
  {
  }

  function Held(locks: seq<Holder>, h: Holder, n: nat): seq<Holder> {
    seq(|locks|, i requires 0 <= i < |locks| => if i < n then h else locks[i])
  }

  function UpTo(n: nat): (r: set<nat>)
    ensures forall i: nat :: i in r <==> i < n
  {
    if n == 0 then {} else UpTo(n - 1) + {n - 1}
  }

  /** The state of an erasure that has redacted the first `n` rows and bumped the first `m` runs. */
  function Under(s: State, e: nat, n: nat, m: nat): State
    requires e < |s.erasers|
  {
    s.(erasers := s.erasers[e := EraserTx(Redacting, UpTo(n), UpTo(m))],
       rowLocks := Held(s.rowLocks, Eraser(e), n), runLocks := Held(s.runLocks, Eraser(e), m))
  }

  ghost predicate Quiet(s: State) {
    && |s.rowLocks| == |s.rows| && |s.runLocks| == |s.epochs| && !s.erased
    && (forall i | 0 <= i < |s.rowLocks| :: s.rowLocks[i].Free?)
    && (forall i | 0 <= i < |s.runLocks| :: s.runLocks[i].Free?)
    && (forall i | 0 <= i < |s.erasers| :: !s.erasers[i].pc.Redacting?)
  }

  lemma RedactNext(s: State, e: nat, n: nat)
    requires Quiet(s) && e < |s.erasers| && n < |s.rows|
    ensures RedactStep(Under(s, e, n, 0), e, n) == Under(s, e, n + 1, 0)
  {
    var r := Under(s, e, n, 0);
    assert UpTo(n + 1) == UpTo(n) + {n};
    assert Held(s.rowLocks, Eraser(e), n)[n := Eraser(e)] == Held(s.rowLocks, Eraser(e), n + 1);
  }

  lemma BumpNext(s: State, e: nat, m: nat)
    requires Quiet(s) && e < |s.erasers| && m < |s.epochs|
    ensures BumpStep(Under(s, e, |s.rows|, m), e, m) == Under(s, e, |s.rows|, m + 1)
  {
    var r := Under(s, e, |s.rows|, m);
    assert UpTo(m + 1) == UpTo(m) + {m};
    assert AllRedacted(r, e);
    assert Held(s.runLocks, Eraser(e), m)[m := Eraser(e)] == Held(s.runLocks, Eraser(e), m + 1);
  }

  lemma {:induction false} ErasureReaches(s: State, e: nat, n: nat, m: nat) returns (schedule: seq<Label>)
    requires Quiet(s) && e < |s.erasers| && s.erasers[e].pc.Queued?
    requires n <= |s.rows| && m <= |s.epochs| && (m > 0 ==> n == |s.rows|)
    ensures Run(s, schedule) == Under(s, e, n, m)
    decreases m, n
  {
    if m > 0 {
      schedule := ErasureReaches(s, e, n, m - 1);
      schedule := RunMore(s, schedule, Bump(e, m - 1));
      BumpNext(s, e, m - 1);
    } else if n > 0 {
      schedule := ErasureReaches(s, e, n - 1, 0);
      schedule := RunMore(s, schedule, Redact(e, n - 1));
      RedactNext(s, e, n - 1);
    } else {
      assert Run(s, []) == s;
      schedule := RunMore(s, [], Begin(e));
      assert UpTo(0) == {};
      assert Held(s.rowLocks, Eraser(e), 0) == s.rowLocks && Held(s.runLocks, Eraser(e), 0) == s.runLocks;
    }
  }

  /**
   An erasure that is not held up can always be brought to its end: then no commitment has a reason,
   each keeps its status, every run's epoch is one further, and every lock is free again.
   */
  lemma ErasureCompletes(s: State, e: nat) returns (schedule: seq<Label>)
    requires Quiet(s) && e < |s.erasers| && s.erasers[e].pc.Queued?
    ensures var r := Run(s, schedule);
            && r.erased && r.log == s.log + [Erasure]
            && |r.rows| == |s.rows| && (forall i | 0 <= i < |s.rows| :: r.rows[i] == Row(s.rows[i].status, None))
            && |r.epochs| == |s.epochs| && (forall i | 0 <= i < |s.epochs| :: r.epochs[i] == s.epochs[i] + 1)
            && (forall i | 0 <= i < |r.rowLocks| :: r.rowLocks[i].Free?)
            && (forall i | 0 <= i < |r.runLocks| :: r.runLocks[i].Free?)
  {
    schedule := ErasureReaches(s, e, |s.rows|, |s.epochs|);
    var under := Under(s, e, |s.rows|, |s.epochs|);
    assert AllRedacted(under, e) && AllBumped(under, e);
    schedule := RunMore(s, schedule, Erase(e));
  }

  // ---- Why the lock comes first ----

  /** The check folded into the waiting statement: the epoch is the one from before the wait. */
  function FoldedStep(s: State, l: Label): State {
    match l
    case ReadEpoch(c) =>
      if c < |s.closers| && s.closers[c].pc.Claimed? && s.closers[c].run < |s.epochs|
         && s.epochs[s.closers[c].run] == s.closers[c].fence
      then SetCloser(s, c, s.closers[c].(pc := Locked))
      else s
    case LockRow(c) =>
      if c < |s.closers| && s.closers[c].pc.Locked? && s.closers[c].commitment < |s.rowLocks|
         && s.rowLocks[s.closers[c].commitment].Free?
      then SetCloser(s, c, s.closers[c].(pc := Checked)).(rowLocks := s.rowLocks[s.closers[c].commitment := Closer(c)])
      else s
    case _ => Step(s, l)
  }

  function FoldedRun(s: State, schedule: seq<Label>): State {
    if schedule == [] then s
    else FoldedStep(FoldedRun(s, schedule[..|schedule| - 1]), schedule[|schedule| - 1])
  }

  lemma FoldedNext(s: State, schedule: seq<Label>, l: Label) returns (longer: seq<Label>)
    ensures longer == schedule + [l] && FoldedRun(s, longer) == FoldedStep(FoldedRun(s, schedule), l)
  {
    longer := schedule + [l];
    assert longer[..|schedule|] == schedule;
  }

  function OneOfEach(reason: string): State {
    State([Row(Open, None)], [0], false, [Free], [Free],
          [CloserTx(0, 0, Open, Resolved, Some(reason), Idle, 0, 0)], [EraserTx(Queued, {}, {})], [])
  }

  function ClaimedOne(reason: string, pc: CloserPc): CloserTx {
    CloserTx(0, 0, Open, Resolved, Some(reason), pc, 0, 0)
  }

  lemma LeakPrefix(reason: string) returns (schedule: seq<Label>)
    ensures FoldedRun(OneOfEach(reason), schedule) == OneOfEach(reason).(closers := [ClaimedOne(reason, Locked)])
  {
    var s0 := OneOfEach(reason);
    schedule := FoldedNext(s0, [], Claim(0));
    assert FoldedRun(s0, schedule) == s0.(closers := [ClaimedOne(reason, Claimed)]);
    schedule := FoldedNext(s0, schedule, ReadEpoch(0));
  }

  function AfterErasure(reason: string, pc: CloserPc, lock: Holder): State {
    State([Row(Open, None)], [1], true, [lock], [Free], [ClaimedOne(reason, pc)], [EraserTx(Over, {}, {})], [Erasure])
  }

  function DuringErasure(reason: string): State {
    OneOfEach(reason).(
      closers := [ClaimedOne(reason, Locked)], rowLocks := [Eraser(0)],
      erasers := [EraserTx(Redacting, {} + {0}, {})])
  }

  lemma LeakRedaction(reason: string, s0: State, before: seq<Label>) returns (schedule: seq<Label>)
    requires FoldedRun(s0, before) == OneOfEach(reason).(closers := [ClaimedOne(reason, Locked)])
    ensures FoldedRun(s0, schedule) == DuringErasure(reason)
  {
    schedule := FoldedNext(s0, before, Begin(0));
    assert FoldedRun(s0, schedule) == FoldedRun(s0, before).(erasers := [EraserTx(Redacting, {}, {})]);
    schedule := FoldedNext(s0, schedule, Redact(0, 0));
  }

  function BumpedErasure(reason: string): State {
    DuringErasure(reason).(erasers := [EraserTx(Redacting, {} + {0}, {} + {0})], runLocks := [Eraser(0)])
  }

  lemma BumpDuringErasure(reason: string)
    ensures FoldedStep(DuringErasure(reason), Bump(0, 0)) == BumpedErasure(reason)
  {
  }

  lemma EraseBumped(reason: string)
    ensures FoldedStep(BumpedErasure(reason), Erase(0)) == AfterErasure(reason, Locked, Free)
  {
    assert Release([Eraser(0)], Eraser(0)) == [Free];
  }

  /** The erasure runs while the closer waits. */
  lemma LeakErasure(reason: string, s0: State, before: seq<Label>) returns (schedule: seq<Label>)
    requires FoldedRun(s0, before) == DuringErasure(reason)
    ensures FoldedRun(s0, schedule) == AfterErasure(reason, Locked, Free)
  {
    schedule := FoldedNext(s0, before, Bump(0, 0));
    BumpDuringErasure(reason);
    schedule := FoldedNext(s0, schedule, Erase(0));
    EraseBumped(reason);
  }

  /** Read before the lock, the epoch fences nothing: some schedule leaves evidence text on an erased account. */
  lemma FoldedCheckLeaks(reason: string) returns (schedule: seq<Label>)
    ensures Initial(OneOfEach(reason))
    ensures var r := FoldedRun(OneOfEach(reason), schedule);
            r.erased && r.log == [Erasure, Landed(0, Some(reason), 0)] && r.rows == [Row(Resolved, Some(reason))]
  {
    var s0 := OneOfEach(reason);
    schedule := LeakPrefix(reason);
    schedule := LeakRedaction(reason, s0, schedule);
    schedule := LeakErasure(reason, s0, schedule);
    schedule := FoldedNext(s0, schedule, LockRow(0));
    assert FoldedRun(s0, schedule) == AfterErasure(reason, Checked, Closer(0));
    schedule := FoldedNext(s0, schedule, Write(0));
    assert FoldedRun(s0, schedule) == AfterErasure(reason, Written, Closer(0));
    schedule := FoldedNext(s0, schedule, Land(0));
  }
}
