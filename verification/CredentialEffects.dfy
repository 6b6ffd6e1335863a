/**
 What each transaction on an account's credentials leaves when it is let run: the kinds of work of
 `Credentials`, each with its effect on the account.
 */
module CredentialEffects {
  import opened Options
  import opened Credentials

  predicate Tombstoned(s: State) {
    s.user.email == "deleted-" + s.userId + "@deleted.invalid" || s.user.passwordHash == "!erased"
  }

  function Without(creds: set<Credential>, kinds: set<Kind>): set<Credential> {
    set c | c in creds && c.kind !in kinds
  }

  /**
   What is left of the account's credentials and its user row. Only a live account is minted for,
   rotated for or given a password; a rotation needs its predecessor and a change the old hash. A
   change ends every other session and burns the reset links; a reset ends every session, token and
   key as well, and is consumed even on a tombstone. An erasure leaves nothing.
   */
  function Effect(s: State, w: Work): (set<Credential>, User) {
    match w
    case Mint(minted) => if Tombstoned(s) then (s.creds, s.user) else (s.creds + minted, s.user)
    case WriteContent(minted) => if Tombstoned(s) then (s.creds, s.user) else (s.creds + minted, s.user)
    case Rotate(predecessor, minted) =>
      if Tombstoned(s) || predecessor !in s.creds then (s.creds, s.user)
      else (s.creds - {predecessor} + minted, s.user)
    case ChangePassword(expectedHash, newHash, keep) =>
      if Tombstoned(s) || s.user.passwordHash != expectedHash then (s.creds, s.user)
      else
        (Without(s.creds, {Session, ResetToken}) + (set c | c in s.creds && keep == Some(c) && c.kind == Session),
         User(s.user.email, newHash))
    case ResetPassword(token, newHash) =>
      if token !in s.creds then (s.creds, s.user)
      else if Tombstoned(s) then (s.creds - {token}, s.user)
      else (Without(s.creds, {Session, OauthToken, ApiKey, ResetToken}) - {token}, User(s.user.email, newHash))
    case EraseAccount =>
      if s.user.email == "deleted-" + s.userId + "@deleted.invalid" then (s.creds, s.user)
      else ({}, User("deleted-" + s.userId + "@deleted.invalid", "!erased"))
  }

  function Purges(t: nat, n: nat): seq<Label> {
    seq(n, i => PurgeNext(t))
  }

  function Opening(t: nat): seq<Label> {
    [Peek(t), TakeLifecycle(t), ShareLifecycle(t), TakePasswordReset(t), Check(t), WriteFirst(t)]
  }

  /** All the statements of one transaction in their order; those it does not make change nothing. */
  function Alone(t: nat): seq<Label> {
    Opening(t) + Purges(t, 7) + [WriteUser(t)] + [Commit(t)]
  }

  lemma RunMore(s: State, schedule: seq<Label>, l: Label)
    ensures Run(s, schedule + [l]) == Step(Run(s, schedule), l)
  {
    assert (schedule + [l])[..|schedule|] == schedule;
  }

  lemma {:induction false} RunConcat(s: State, a: seq<Label>, b: seq<Label>)
    ensures Run(s, a + b) == Run(Run(s, a), b)
  {
    if b == [] {
      assert a + b == a;
    } else {
      assert (a + b)[..|a + b| - 1] == a + b[..|b| - 1];
      RunConcat(s, a, b[..|b| - 1]);
    }
  }

  /** The transaction is as said, and nothing is committed yet. */
  predicate Is(s: State, r: State, t: nat, tx: Tx) {
    && t < |r.txs| && r.txs[t] == tx
    && r.creds == s.creds && r.user == s.user && r.userId == s.userId
    && (if tx.pc.Over? then NoneHeld(r)
        else r.lifecycle in {None, Some(t)} && r.sharers <= {t} && r.passwordReset in {None, Some(t)})
  }

  predicate NoneHeld(s: State) {
    s.lifecycle == None && s.sharers == {} && s.passwordReset == None
  }

  function LockedTx(s: State, w: Work): Tx {
    Tx(w, if w.ResetPassword? && w.token !in s.creds then Over else Locked, {}, {}, None)
  }

  predicate FreshTx(s: State, t: nat) {
    && t < |s.txs| && s.txs[t] == Tx(s.txs[t].work, Begun, {}, {}, None)
    && s.lifecycle.None? && s.sharers == {} && s.passwordReset.None?
  }

  lemma TakesItsLocks(s: State, t: nat)
    requires FreshTx(s, t)
    ensures Is(s, LocksTaken(s, t), t, LockedTx(s, s.txs[t].work))
  {
  }

  /** Past its check and its first write: what it means to purge, and what it holds already. */
  function WrittenTx(s: State, w: Work): Tx {
    match w
    case Mint(minted) => if Tombstoned(s) then Tx(w, Over, {}, {}, None) else Tx(w, Ready, minted, {}, None)
    case WriteContent(minted) => if Tombstoned(s) then Tx(w, Over, {}, {}, None) else Tx(w, Ready, minted, {}, None)
    case Rotate(predecessor, minted) =>
      if Tombstoned(s) || predecessor !in s.creds then Tx(w, Over, {}, {}, None)
      else Tx(w, Ready, minted, {predecessor}, None)
    case ChangePassword(expectedHash, newHash, _) =>
      if Tombstoned(s) || s.user.passwordHash != expectedHash then Tx(w, Over, {}, {}, None)
      else Tx(w, Purging([Session, ResetToken]), {}, {}, Some(User(s.user.email, newHash)))
    case ResetPassword(token, newHash) =>
      if token !in s.creds then Tx(w, Over, {}, {}, None)
      else if Tombstoned(s) then Tx(w, Ready, {}, {token}, None)
      else Tx(w, Purging([Session, OauthToken, ApiKey, ResetToken]), {}, {token}, Some(User(s.user.email, newHash)))
    case EraseAccount =>
      if s.user.email == "deleted-" + s.userId + "@deleted.invalid" then Tx(w, Over, {}, {}, None)
      else
        Tx(w, Purging([SessionContent, Session, ApiKey, OauthToken, OauthCode, ResetToken, VerificationToken]), {}, {}, None)
  }

  /** Past its check of the account. */
  function CheckedTx(s: State, w: Work): Tx {
    match w
    case EraseAccount =>
      if s.user.email == "deleted-" + s.userId + "@deleted.invalid" then Tx(w, Over, {}, {}, None)
      else
        Tx(w, Purging([SessionContent, Session, ApiKey, OauthToken, OauthCode, ResetToken, VerificationToken]), {}, {}, None)
    case ResetPassword(token, _) =>
      if token !in s.creds then Tx(w, Over, {}, {}, None)
      else Tx(w, if Tombstoned(s) then Ready else Cleared, {}, {token}, None)
    case _ => Tx(w, if Tombstoned(s) then Over else Cleared, {}, {}, None)
  }

  lemma Checks(s: State, r: State, t: nat, w: Work)
    requires Is(s, r, t, LockedTx(s, w))
    ensures Is(s, CheckStep(r, t), t, CheckedTx(s, w))
  {
  }

  lemma Writes(s: State, r: State, t: nat, w: Work)
    requires Is(s, r, t, CheckedTx(s, w))
    ensures Is(s, WriteFirstStep(r, t), t, WrittenTx(s, w))
  {
  }

  lemma Next(s: State, schedule: seq<Label>, l: Label) returns (longer: seq<Label>)
    ensures longer == schedule + [l] && Run(s, longer) == Step(Run(s, schedule), l)
  {
    longer := schedule + [l];
    RunMore(s, schedule, l);
  }

  function LocksTaken(s: State, t: nat): State {
    TakePasswordResetStep(ShareLifecycleStep(TakeLifecycleStep(PeekStep(s, t), t), t), t)
  }

  lemma LockSteps(s: State, t: nat) returns (four: seq<Label>)
    ensures four == [Peek(t), TakeLifecycle(t), ShareLifecycle(t), TakePasswordReset(t)]
    ensures Run(s, four) == LocksTaken(s, t)
  {
    assert Run(s, []) == s;
    var one := Next(s, [], Peek(t));
    var two := Next(s, one, TakeLifecycle(t));
    var three := Next(s, two, ShareLifecycle(t));
    four := Next(s, three, TakePasswordReset(t));
    assert four == [Peek(t), TakeLifecycle(t), ShareLifecycle(t), TakePasswordReset(t)];
  }

  lemma OpeningSteps(s: State, t: nat)
    ensures Run(s, Opening(t)) == WriteFirstStep(CheckStep(LocksTaken(s, t), t), t)
  {
    var four := LockSteps(s, t);
    var five := Next(s, four, Check(t));
    var six := Next(s, five, WriteFirst(t));
    assert six == Opening(t);
  }

  lemma Opens(s: State, t: nat)
    requires FreshTx(s, t)
    ensures Is(s, Run(s, Opening(t)), t, WrittenTx(s, s.txs[t].work))
  {
    OpeningSteps(s, t);
    TakesItsLocks(s, t);
    Checks(s, LocksTaken(s, t), t, s.txs[t].work);
    Writes(s, CheckStep(LocksTaken(s, t), t), t, s.txs[t].work);
  }

  /** What purging the kinds listed drops. */
  function Purged(creds: set<Credential>, w: Work, kinds: seq<Kind>): set<Credential> {
    set c | c in creds && c.kind in kinds && !(w.ChangePassword? && w.keep == Some(c) && c.kind == Session)
  }

  function PurgedTx(s: State, tx: Tx, n: nat): Tx {
    if !tx.pc.Purging? then tx
    else if |tx.pc.left| <= n then tx.(pc := Purging([]), drops := tx.drops + Purged(s.creds, tx.work, tx.pc.left))
    else tx.(pc := Purging(tx.pc.left[n..]), drops := tx.drops + Purged(s.creds, tx.work, tx.pc.left[..n]))
  }

  lemma PurgesOne(s: State, r: State, t: nat, tx: Tx, n: nat)
    requires Is(s, r, t, PurgedTx(s, tx, n))
    ensures Is(s, PurgeStep(r, t), t, PurgedTx(s, tx, n + 1))
  {
    if tx.pc.Purging? && n < |tx.pc.left| {
      var left := tx.pc.left;
      assert left[n..][0] == left[n] && left[n..][1..] == left[n + 1..];
      assert left[..n + 1] == left[..n] + [left[n]];
      assert n + 1 >= |left| ==> left[..n + 1] == left && left[n + 1..] == [];
      assert Purged(s.creds, tx.work, left[..n + 1])
          == Purged(s.creds, tx.work, left[..n]) + (set c | c in s.creds && c.kind == left[n] && !Kept(tx.work, c));
    }
  }

  lemma NothingPurged(s: State, r: State, t: nat, tx: Tx)
    requires Is(s, r, t, tx)
    ensures Is(s, Run(r, Purges(t, 0)), t, PurgedTx(s, tx, 0))
  {
    assert Purges(t, 0) == [];
    assert Purged(s.creds, tx.work, []) == {};
    assert tx.pc.Purging? ==> tx.pc.left[0..] == tx.pc.left && tx.pc.left[..0] == [];
  }

  lemma LastPurge(r: State, t: nat, n: nat)
    ensures Run(r, Purges(t, n + 1)) == PurgeStep(Run(r, Purges(t, n)), t)
  {
    assert Purges(t, n + 1) == Purges(t, n) + [PurgeNext(t)];
    RunMore(r, Purges(t, n), PurgeNext(t));
  }

  lemma {:induction false} PurgesAll(s: State, r: State, t: nat, tx: Tx, n: nat)
    requires Is(s, r, t, tx)
    ensures Is(s, Run(r, Purges(t, n)), t, PurgedTx(s, tx, n))
  {
    if n == 0 {
      NothingPurged(s, r, t, tx);
    } else {
      PurgesAll(s, r, t, tx, n - 1);
      LastPurge(r, t, n - 1);
      PurgesOne(s, Run(r, Purges(t, n - 1)), t, tx, n - 1);
    }
  }

  /** What a transaction that is ready commits; one with nothing left to purge is made ready first. */
  function ReadyTx(s: State, tx: Tx): Tx {
    if tx.pc != Purging([]) then tx
    else if tx.work.EraseAccount?
    then tx.(pc := Ready, user := Some(User("deleted-" + s.userId + "@deleted.invalid", "!erased")))
    else tx.(pc := Ready)
  }

  lemma MadeReady(s: State, r: State, t: nat, tx: Tx)
    requires Is(s, r, t, tx)
    ensures Is(s, WriteUserStep(r, t), t, ReadyTx(s, tx))
  {
  }

  lemma Committed(s: State, r: State, t: nat, tx: Tx)
    requires Is(s, r, t, tx) && (tx.pc.Ready? || tx.pc.Over?)
    ensures var e := CommitStep(r, t);
            && t < |e.txs| && e.txs[t].pc == Over && NoneHeld(e)
            && e.creds == (if tx.pc.Ready? then s.creds - tx.drops + tx.adds else s.creds)
            && e.user == (if tx.pc.Ready? && tx.user.Some? then tx.user.value else s.user)
  {
  }

  lemma KindsListed(c: Kind)
    ensures c in [Session, ResetToken] <==> c in {Session, ResetToken}
    ensures c in [Session, OauthToken, ApiKey, ResetToken] <==> c in {Session, OauthToken, ApiKey, ResetToken}
    ensures c in [SessionContent, Session, ApiKey, OauthToken, OauthCode, ResetToken, VerificationToken]
  {
    ErasurePurgesEverything(c);
    var two, four := [Session, ResetToken], [Session, OauthToken, ApiKey, ResetToken];
    assert two[0] == Session && two[1] == ResetToken;
    assert four[0] == Session && four[1] == OauthToken && four[2] == ApiKey && four[3] == ResetToken;
  }

  /** The transaction as it is when it commits. */
  function LastTx(s: State, w: Work): Tx {
    ReadyTx(s, PurgedTx(s, WrittenTx(s, w), 7))
  }

  lemma EffectOfLast(s: State, w: Work)
    ensures var tx := LastTx(s, w);
            && (tx.pc.Ready? || tx.pc.Over?)
            && Effect(s, w).0 == (if tx.pc.Ready? then s.creds - tx.drops + tx.adds else s.creds)
            && Effect(s, w).1 == (if tx.pc.Ready? && tx.user.Some? then tx.user.value else s.user)
  {
    forall c: Kind { KindsListed(c); }
    var tx := LastTx(s, w);
    assert Effect(s, w).0 == (if tx.pc.Ready? then s.creds - tx.drops + tx.adds else s.creds);
  }

  lemma Ends(s: State, r: State, t: nat, w: Work)
    requires Is(s, r, t, PurgedTx(s, WrittenTx(s, w), 7))
    ensures var e := CommitStep(WriteUserStep(r, t), t);
            && t < |e.txs| && e.txs[t].pc == Over && (e.creds, e.user) == Effect(s, w) && NoneHeld(e)
  {
    MadeReady(s, r, t, PurgedTx(s, WrittenTx(s, w), 7));
    EffectOfLast(s, w);
    Committed(s, WriteUserStep(r, t), t, LastTx(s, w));
  }

  /** A transaction that is let run takes its locks, does what its kind of work is for, and is over. */
  lemma TransactionAlone(s: State, t: nat)
    requires FreshTx(s, t)
    ensures var r := Run(s, Alone(t));
            && t < |r.txs| && r.txs[t].pc == Over && (r.creds, r.user) == Effect(s, s.txs[t].work)
            && r.lifecycle == None && r.sharers == {} && r.passwordReset == None
  {
    var w := s.txs[t].work;
    var begun := Run(s, Opening(t));
    Opens(s, t);
    RunConcat(s, Opening(t), Purges(t, 7));
    PurgesAll(s, begun, t, WrittenTx(s, w), 7);
    RunMore(s, Opening(t) + Purges(t, 7), WriteUser(t));
    RunMore(s, Opening(t) + Purges(t, 7) + [WriteUser(t)], Commit(t));
    Ends(s, Run(s, Opening(t) + Purges(t, 7)), t, w);
  }
}
