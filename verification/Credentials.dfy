/**
 Account erasure against every path that mints a credential, sets a password or writes session
 content (packages/db/src/account-delete.ts, credential-guard.ts, auth-sessions.ts,
 auth-oauth-tokens.ts, client.ts, and the reset resolver of migration 0025), for one account.

 Transactions run statement by statement under read committed; the two advisory locks are held to
 the end. A schedule is any sequence of steps; a blocked or out-of-order step changes nothing.
 */
module Credentials {
  import opened Options

  datatype User = User(email: string, passwordHash: string)

  const ERASED_PASSWORD_HASH: string := "!erased"

  function DeletedEmail(userId: string): string {
    "deleted-" + userId + "@deleted.invalid"
  }

  predicate IsAccountTombstoned(userId: string, user: User) {
    user.email == DeletedEmail(userId) || user.passwordHash == ERASED_PASSWORD_HASH
  }

  datatype Kind = SessionContent | Session | ApiKey | OauthToken | OauthCode | ResetToken | VerificationToken

  /**
   A row that can still be used: not deleted, revoked or consumed. `SessionContent` rows stand for
   the user text an agent session holds; erasure overwrites it, which removes them.
   */
  datatype Credential = Credential(kind: Kind, id: nat)

  datatype Work =
    | Mint(minted: set<Credential>)
    | WriteContent(minted: set<Credential>)
    | Rotate(predecessor: Credential, minted: set<Credential>)
    | ChangePassword(expectedHash: string, newHash: string, keep: Option<Credential>)
    | ResetPassword(token: Credential, newHash: string)
    | EraseAccount

  datatype Pc = Begun | Peeked | HalfLocked | Locked | Cleared | Purging(left: seq<Kind>) | Ready | Over

  /** A transaction and what it has written so far. */
  datatype Tx = Tx(work: Work, pc: Pc, adds: set<Credential>, drops: set<Credential>, user: Option<User>)

  datatype State = State(
    userId: string, user: User, creds: set<Credential>,
    lifecycle: Option<nat>, sharers: set<nat>, passwordReset: Option<nat>, txs: seq<Tx>)

  datatype Label =
    | Peek(t: nat) | TakeLifecycle(t: nat) | ShareLifecycle(t: nat) | TakePasswordReset(t: nat)
    | Check(t: nat) | WriteFirst(t: nat)
    | PurgeNext(t: nat) | WriteUser(t: nat) | Commit(t: nat) | Rollback(t: nat)
    | Lapse(c: Credential)

  // ---- Locks ----

  function Freed(lock: Option<nat>, t: nat): Option<nat> {
    if lock == Some(t) then None else lock
  }

  function Set(s: State, t: nat, tx: Tx): State
    requires t < |s.txs|
  {
    s.(txs := s.txs[t := tx])
  }

  /** The end of a transaction releases its locks; without a commit nothing else is left of it. */
  function End(s: State, t: nat): State
    requires t < |s.txs|
  {
    Set(s, t, s.txs[t].(pc := Over, adds := {}, drops := {}, user := None)).(
      lifecycle := Freed(s.lifecycle, t), sharers := s.sharers - {t}, passwordReset := Freed(s.passwordReset, t))
  }

  predicate UsesLifecycle(w: Work) {
    w.Mint? || w.Rotate? || w.EraseAccount?
  }

  predicate SharesLifecycle(w: Work) {
    w.WriteContent?
  }

  predicate UsesPasswordReset(w: Work) {
    w.ChangePassword? || w.ResetPassword? || w.EraseAccount?
  }

  /** The resolver looks the token up before it knows whose lock to take. */
  function PeekStep(s: State, t: nat): State {
    if t < |s.txs| && s.txs[t].pc.Begun? && s.txs[t].work.ResetPassword? then
      if s.txs[t].work.token in s.creds then Set(s, t, s.txs[t].(pc := Peeked)) else End(s, t)
    else s
  }

  /** The first statement of a minter, a rotation and an erasure. */
  function TakeLifecycleStep(s: State, t: nat): State {
    if t < |s.txs| && s.txs[t].pc.Begun? && UsesLifecycle(s.txs[t].work) && s.lifecycle.None? && s.sharers == {} then
      Set(s, t, s.txs[t].(pc := if s.txs[t].work.EraseAccount? then HalfLocked else Locked)).(lifecycle := Some(t))
    else s
  }

  /** Content writers take the same lock in shared mode: any number of them, but no exclusive holder. */
  function ShareLifecycleStep(s: State, t: nat): State {
    if t < |s.txs| && s.txs[t].pc.Begun? && SharesLifecycle(s.txs[t].work) && s.lifecycle.None? then
      Set(s, t, s.txs[t].(pc := Locked)).(sharers := s.sharers + {t})
    else s
  }

  /** First for a password change, second for an erasure, after the look-up for a reset. */
  function TakePasswordResetStep(s: State, t: nat): State {
    if t < |s.txs| && s.passwordReset.None?
       && ((s.txs[t].pc.Begun? && s.txs[t].work.ChangePassword?) || s.txs[t].pc.Peeked? || s.txs[t].pc.HalfLocked?) then
      Set(s, t, s.txs[t].(pc := Locked)).(passwordReset := Some(t))
    else s
  }

  // ---- Statements under the locks ----

  const ERASURE_ORDER: seq<Kind> := [SessionContent, Session, ApiKey, OauthToken, OauthCode, ResetToken, VerificationToken]

  /**
   The re-read of the user, in a statement after the lock. An erasure looks for the marker email
   only; the others for either sign of a tombstone. A reset consumes its token first.
   */
  function CheckStep(s: State, t: nat): State {
    if t >= |s.txs| || !s.txs[t].pc.Locked? then s
    else
      var tx := s.txs[t];
      match tx.work
      case EraseAccount =>
        if s.user.email == DeletedEmail(s.userId) then End(s, t)
        else Set(s, t, tx.(pc := Purging(ERASURE_ORDER)))
      case ResetPassword(token, _) =>
        if token !in s.creds then End(s, t)
        else Set(s, t, tx.(drops := {token}, pc := if IsAccountTombstoned(s.userId, s.user) then Ready else Cleared))
      case _ =>
        if IsAccountTombstoned(s.userId, s.user) then End(s, t) else Set(s, t, tx.(pc := Cleared))
  }

  /** The insert of a minter, the revoke-and-insert of a rotation, the guarded update of a password. */
  function WriteFirstStep(s: State, t: nat): State {
    if t >= |s.txs| || !s.txs[t].pc.Cleared? then s
    else
      var tx := s.txs[t];
      match tx.work
      case Mint(minted) => Set(s, t, tx.(pc := Ready, adds := minted))
      case WriteContent(minted) => Set(s, t, tx.(pc := Ready, adds := minted))
      case Rotate(predecessor, minted) =>
        if predecessor in s.creds then Set(s, t, tx.(pc := Ready, drops := {predecessor}, adds := minted)) else End(s, t)
      case ChangePassword(expectedHash, newHash, _) =>
        if s.user.passwordHash == expectedHash
        then Set(s, t, tx.(pc := Purging([Session, ResetToken]), user := Some(s.user.(passwordHash := newHash))))
        else End(s, t)
      case ResetPassword(_, newHash) =>
        Set(s, t, tx.(pc := Purging([Session, OauthToken, ApiKey, ResetToken]),
                      user := Some(s.user.(passwordHash := newHash))))
      case EraseAccount => s
  }

  predicate Kept(w: Work, c: Credential) {
    w.ChangePassword? && w.keep == Some(c) && c.kind.Session?
  }

  /** One DELETE or revoking UPDATE: the rows of one kind that are committed when it runs. */
  function PurgeStep(s: State, t: nat): State {
    if t < |s.txs| && s.txs[t].pc.Purging? && s.txs[t].pc.left != [] then
      var tx := s.txs[t];
      Set(s, t, tx.(
        drops := tx.drops + (set c | c in s.creds && c.kind == tx.pc.left[0] && !Kept(tx.work, c)),
        pc := Purging(tx.pc.left[1..])))
    else s
  }

  /** When nothing is left to purge: the erasure writes the tombstone last. */
  function WriteUserStep(s: State, t: nat): State {
    if t < |s.txs| && s.txs[t].pc == Purging([]) then
      if s.txs[t].work.EraseAccount?
      then Set(s, t, s.txs[t].(pc := Ready, user := Some(User(DeletedEmail(s.userId), ERASED_PASSWORD_HASH))))
      else Set(s, t, s.txs[t].(pc := Ready))
    else s
  }

  function CommitStep(s: State, t: nat): State {
    if t < |s.txs| && s.txs[t].pc.Ready? then
      var tx := s.txs[t];
      End(s, t).(creds := s.creds - tx.drops + tx.adds, user := if tx.user.Some? then tx.user.value else s.user)
    else s
  }

  function Step(s: State, l: Label): State {
    match l
    case Peek(t) => PeekStep(s, t)
    case TakeLifecycle(t) => TakeLifecycleStep(s, t)
    case ShareLifecycle(t) => ShareLifecycleStep(s, t)
    case TakePasswordReset(t) => TakePasswordResetStep(s, t)
    case Check(t) => CheckStep(s, t)
    case WriteFirst(t) => WriteFirstStep(s, t)
    case PurgeNext(t) => PurgeStep(s, t)
    case WriteUser(t) => WriteUserStep(s, t)
    case Commit(t) => CommitStep(s, t)
    case Rollback(t) => if t < |s.txs| then End(s, t) else s
    case Lapse(c) => s.(creds := s.creds - {c})
  }

  function Run(s: State, schedule: seq<Label>): State {
    if schedule == [] then s
    else Step(Run(s, schedule[..|schedule| - 1]), schedule[|schedule| - 1])
  }

  predicate Initial(s: State) {
    && s.user.email != DeletedEmail(s.userId)
    && s.lifecycle.None? && s.sharers == {} && s.passwordReset.None?
    && forall t | 0 <= t < |s.txs| :: s.txs[t] == Tx(s.txs[t].work, Begun, {}, {}, None)
  }

  // ---- The invariant ----

  predicate Erased(s: State) {
    s.user.email == DeletedEmail(s.userId)
  }

  /** Past its locks and not over. */
  predicate Inside(pc: Pc) {
    pc.Locked? || pc.Cleared? || pc.Purging? || pc.Ready?
  }

  /** Past its re-read of the user and not over. */
  predicate Past(pc: Pc) {
    pc.Cleared? || pc.Purging? || pc.Ready?
  }

  predicate LocksOk(s: State, t: nat, tx: Tx) {
    && (UsesLifecycle(tx.work) && (Inside(tx.pc) || tx.pc.HalfLocked?) ==> s.lifecycle == Some(t))
    && (SharesLifecycle(tx.work) && Inside(tx.pc) ==> t in s.sharers)
    && (UsesPasswordReset(tx.work) && Inside(tx.pc) ==> s.passwordReset == Some(t))
    && (tx.pc.HalfLocked? ==> tx.work.EraseAccount?)
    && (tx.pc.Peeked? ==> tx.work.ResetPassword?)
  }

  /** Only a transaction that found the account live, and still excludes its erasure, has written. */
  predicate WritesOk(s: State, tx: Tx) {
    && (tx.adds != {} ==> Past(tx.pc) && (UsesLifecycle(tx.work) || SharesLifecycle(tx.work)))
    && (tx.user.Some? ==> Past(tx.pc) && UsesPasswordReset(tx.work))
    && (Past(tx.pc) && (UsesLifecycle(tx.work) || SharesLifecycle(tx.work) || tx.user.Some? || !tx.pc.Ready?)
        ==> !Erased(s))
    && (tx.user.Some? && !tx.work.EraseAccount? ==> tx.user.value.email == s.user.email)
  }

  /** What an erasure has left to purge covers every committed credential it has not yet dropped. */
  predicate ErasureOk(s: State, tx: Tx) {
    tx.work.EraseAccount? ==>
      && tx.adds == {} && !tx.pc.Cleared? && !tx.pc.Peeked?
      && (tx.user.Some? ==> tx.user.value == User(DeletedEmail(s.userId), ERASED_PASSWORD_HASH))
      && (tx.pc.Purging? ==> forall c | c in s.creds :: c in tx.drops || c.kind in tx.pc.left)
      && (tx.pc.Ready? ==> s.creds <= tx.drops && tx.user.Some?)
  }

  predicate TxOk(s: State, t: nat) {
    t < |s.txs| ==> LocksOk(s, t, s.txs[t]) && WritesOk(s, s.txs[t]) && ErasureOk(s, s.txs[t])
  }

  ghost predicate Inv(s: State) {
    && (forall t: nat :: TxOk(s, t))
    && (s.lifecycle.Some? ==> s.sharers == {})
    && (Erased(s) ==> s.creds == {} && s.user.passwordHash == ERASED_PASSWORD_HASH)
  }

  lemma ErasurePurgesEverything(k: Kind)
    ensures k in ERASURE_ORDER
  {
    assert ERASURE_ORDER[0] == SessionContent;
    assert ERASURE_ORDER[1] == Session && ERASURE_ORDER[2] == ApiKey && ERASURE_ORDER[3] == OauthToken;
    assert ERASURE_ORDER[4] == OauthCode && ERASURE_ORDER[5] == ResetToken && ERASURE_ORDER[6] == VerificationToken;
  }

  lemma ErasureCheckOk(s: State, d: nat, t: nat)
    requires Inv(s) && d < |s.txs| && s.txs[d].work.EraseAccount?
    ensures TxOk(CheckStep(s, d), t)
  {
    assert TxOk(s, t);
    forall c | c in s.creds ensures c.kind in ERASURE_ORDER { ErasurePurgesEverything(c.kind); }
  }

  lemma ResetCheckOk(s: State, d: nat, t: nat)
    requires Inv(s) && d < |s.txs| && s.txs[d].work.ResetPassword?
    ensures TxOk(CheckStep(s, d), t)
  {
    assert TxOk(s, t);
  }

  lemma IssuanceCheckOk(s: State, d: nat, t: nat)
    requires Inv(s) && d < |s.txs| && !s.txs[d].work.EraseAccount? && !s.txs[d].work.ResetPassword?
    ensures TxOk(CheckStep(s, d), t)
  {
    assert TxOk(s, t);
  }

  lemma CheckOk(s: State, d: nat, t: nat)
    requires Inv(s)
    ensures TxOk(CheckStep(s, d), t)
  {
    if d >= |s.txs| {
      assert TxOk(s, t);
    } else if s.txs[d].work.EraseAccount? {
      ErasureCheckOk(s, d, t);
    } else if s.txs[d].work.ResetPassword? {
      ResetCheckOk(s, d, t);
    } else {
      IssuanceCheckOk(s, d, t);
    }
  }

  lemma PurgeOk(s: State, d: nat, t: nat)
    requires Inv(s)
    ensures TxOk(PurgeStep(s, d), t)
  {
    assert TxOk(s, t) && TxOk(s, d);
    if d < |s.txs| && s.txs[d].pc.Purging? && s.txs[d].pc.left != [] {
      var tx := s.txs[d];
      forall c | c in s.creds && c.kind in tx.pc.left ensures c.kind == tx.pc.left[0] || c.kind in tx.pc.left[1..] {
        assert tx.pc.left == [tx.pc.left[0]] + tx.pc.left[1..];
      }
    }
  }

  lemma LockStepOk(s: State, l: Label, t: nat)
    requires Inv(s) && (l.Peek? || l.TakeLifecycle? || l.ShareLifecycle? || l.TakePasswordReset?)
    ensures TxOk(Step(s, l), t)
  {
    assert TxOk(s, t);
  }

  lemma MintsOk(s: State, d: nat, t: nat)
    requires Inv(s) && d < |s.txs| && !UsesPasswordReset(s.txs[d].work)
    ensures TxOk(WriteFirstStep(s, d), t)
  {
    assert TxOk(s, t);
  }

  lemma PasswordsOk(s: State, d: nat, t: nat)
    requires Inv(s) && d < |s.txs| && UsesPasswordReset(s.txs[d].work)
    ensures TxOk(WriteFirstStep(s, d), t)
  {
    assert TxOk(s, t) && TxOk(s, d);
  }

  lemma WriteFirstOk(s: State, d: nat, t: nat)
    requires Inv(s)
    ensures TxOk(WriteFirstStep(s, d), t)
  {
    if d >= |s.txs| {
      assert TxOk(s, t);
    } else if UsesPasswordReset(s.txs[d].work) {
      PasswordsOk(s, d, t);
    } else {
      MintsOk(s, d, t);
    }
  }

  lemma WriteUserOk(s: State, d: nat, t: nat)
    requires Inv(s)
    ensures TxOk(WriteUserStep(s, d), t)
  {
    assert TxOk(s, t);
  }

  lemma LossStepOk(s: State, l: Label, t: nat)
    requires Inv(s) && (l.Rollback? || l.Lapse?)
    ensures TxOk(Step(s, l), t)
  {
    assert TxOk(s, t);
  }

  lemma StepTxOk(s: State, l: Label, t: nat)
    requires Inv(s)
    ensures TxOk(Step(s, l), t)
  {
    if l.Check? {
      CheckOk(s, l.t, t);
    } else if l.PurgeNext? {
      PurgeOk(s, l.t, t);
    } else if l.Commit? {
      CommitTxOk(s, l.t, t);
    } else if l.WriteFirst? {
      WriteFirstOk(s, l.t, t);
    } else if l.WriteUser? {
      WriteUserOk(s, l.t, t);
    } else if l.Rollback? || l.Lapse? {
      LossStepOk(s, l, t);
    } else {
      LockStepOk(s, l, t);
    }
  }

  lemma CommitTxOk(s: State, d: nat, t: nat)
    requires Inv(s)
    ensures TxOk(CommitStep(s, d), t)
  {
    assert TxOk(s, t) && TxOk(s, d);
  }

  /** A commit keeps an account live, or erases it whole. */
  lemma CommitErases(s: State, t: nat)
    requires Inv(s)
    ensures var r := CommitStep(s, t);
            Erased(r) ==> r.creds == {} && r.user.passwordHash == ERASED_PASSWORD_HASH
  {
    assert TxOk(s, t);
  }

  lemma StepKeepsInv(s: State, l: Label)
    requires Inv(s)
    ensures Inv(Step(s, l))
  {
    forall t: nat ensures TxOk(Step(s, l), t) {
      StepTxOk(s, l, t);
    }
    if l.Commit? { CommitErases(s, l.t); }
  }

  lemma {:induction false} RunKeepsInv(s: State, schedule: seq<Label>)
    requires Initial(s)
    ensures Inv(Run(s, schedule))
  {
    if schedule != [] {
      RunKeepsInv(s, schedule[..|schedule| - 1]);
      StepKeepsInv(Run(s, schedule[..|schedule| - 1]), schedule[|schedule| - 1]);
    }
  }

  // ---- The theorems ----

  /** In every schedule, an erased account has no live credential, no session content and no usable password. */
  lemma ErasedHasNoCredential(s: State, schedule: seq<Label>)
    requires Initial(s) && Erased(Run(s, schedule))
    ensures var r := Run(s, schedule);
            r.creds == {} && r.user == User(DeletedEmail(r.userId), ERASED_PASSWORD_HASH)
  {
    RunKeepsInv(s, schedule);
  }

  lemma ErasedStepChangesNothing(s: State, l: Label)
    requires Inv(s) && Erased(s)
    ensures Step(s, l).user == s.user && Step(s, l).creds == s.creds && Step(s, l).userId == s.userId
  {
    if l.Commit? { assert TxOk(s, l.t); }
  }

  /**
   And it stays so: whatever minters, rotations, password changes, resets or further erasures are
   under way when an erasure commits, none of them changes the account's credentials again.
   */
  lemma {:induction false} ErasedForever(s: State, before: seq<Label>, after: seq<Label>)
    requires Initial(s) && Erased(Run(s, before))
    ensures Run(s, before + after).user == Run(s, before).user
    ensures Run(s, before + after).creds == {}
  {
    ErasedHasNoCredential(s, before);
    if after == [] {
      assert before + after == before;
    } else {
      var shorter := before + after[..|after| - 1];
      assert before + after == shorter + [after[|after| - 1]];
      ErasedForever(s, before, after[..|after| - 1]);
      RunKeepsInv(s, shorter);
      SameUserId(s, shorter);
      SameUserId(s, before);
      assert (before + after)[..|before + after| - 1] == shorter;
      ErasedStepChangesNothing(Run(s, shorter), after[|after| - 1]);
    }
  }

  lemma {:induction false} SameUserId(s: State, schedule: seq<Label>)
    ensures Run(s, schedule).userId == s.userId
  {
    if schedule != [] { SameUserId(s, schedule[..|schedule| - 1]); }
  }

  /** A second erasure reads the marker and ends with nothing written. */
  lemma SecondErasureWritesNothing(s: State, schedule: seq<Label>, t: nat)
    requires Initial(s) && Erased(Run(s, schedule))
    requires var r := Run(s, schedule); t < |r.txs| && r.txs[t].work.EraseAccount?
    ensures var r := Run(s, schedule);
            && !Past(r.txs[t].pc)
            && (r.txs[t].pc.Locked? ==> Step(r, Check(t)) == End(r, t))
  {
    RunKeepsInv(s, schedule);
    assert TxOk(Run(s, schedule), t);
  }
}
