/**
 OAuth token pairs of one user (packages/db/src/auth-oauth-tokens.ts): the cap on live clients and
 the refresh-token chains. Every operation runs under the account-lifecycle lock.

 A token's id is its position in the table; clients are named by integers in the order of their
 ids. `now` is the start of the transaction, which is before it gets the lock.
 */
module OauthTokens {
  import opened Options
  import opened Sorting
  import Members

  datatype TokenKind = Access | Refresh

  datatype NewToken = NewToken(tokenHash: string, kind: TokenKind, clientId: int, scope: string, expiresAt: int)

  datatype Token = Token(
    tokenHash: string, kind: TokenKind, clientId: int, scope: string, expiresAt: int,
    revokedAt: Option<int>, rotatedFrom: Option<nat>, createdAt: int)

  datatype Outcome = Granted | Refused | LimitExceeded | UniqueViolation

  predicate IsLive(t: Token, now: int) {
    t.revokedAt.None? && t.expiresAt > now
  }

  // ---- Live clients, newest first ----

  datatype ClientRow = ClientRow(clientId: int, lastIssuedAt: int)

  /** GROUP BY client_id. */
  function ClientIds(tokens: seq<Token>, now: int): (r: seq<int>)
    ensures forall i, j | 0 <= i < j < |r| :: r[i] != r[j]
    ensures forall c :: c in r <==> c in LiveClients(tokens, now)
  {
    if tokens == [] then []
    else
      var front, last := tokens[..|tokens| - 1], tokens[|tokens| - 1];
      var earlier := ClientIds(front, now);
      assert LiveClients(tokens, now) == LiveClients(front, now) + if IsLive(last, now) then {last.clientId} else {};
      if IsLive(last, now) && last.clientId !in earlier then earlier + [last.clientId] else earlier
  }

  function LiveClients(tokens: seq<Token>, now: int): set<int> {
    set i | 0 <= i < |tokens| && IsLive(tokens[i], now) :: tokens[i].clientId
  }

  predicate IsLast(tokens: seq<Token>, now: int, c: int, t: int) {
    && (exists i | 0 <= i < |tokens| :: IsLive(tokens[i], now) && tokens[i].clientId == c && tokens[i].createdAt == t)
    && forall i | 0 <= i < |tokens| && IsLive(tokens[i], now) && tokens[i].clientId == c :: tokens[i].createdAt <= t
  }

  /** max(created_at) of the client's live tokens. */
  function LastIssued(tokens: seq<Token>, now: int, c: int): (t: int)
    requires c in LiveClients(tokens, now)
    ensures IsLast(tokens, now, c, t)
  {
    var front, last := tokens[..|tokens| - 1], tokens[|tokens| - 1];
    if !(IsLive(last, now) && last.clientId == c) then LastIssued(front, now, c)
    else if c !in LiveClients(front, now) then last.createdAt
    else
      var earlier := LastIssued(front, now, c);
      if earlier >= last.createdAt then earlier else last.createdAt
  }

  predicate NewerFirst(a: ClientRow, b: ClientRow) {
    a.lastIssuedAt > b.lastIssuedAt || (a.lastIssuedAt == b.lastIssuedAt && a.clientId <= b.clientId)
  }

  function RowOf(tokens: seq<Token>, now: int, c: int): ClientRow
    requires c in LiveClients(tokens, now)
  {
    ClientRow(c, LastIssued(tokens, now, c))
  }

  function Rows(tokens: seq<Token>, now: int): seq<ClientRow> {
    var ids := ClientIds(tokens, now);
    seq(|ids|, i requires 0 <= i < |ids| => RowOf(tokens, now, ids[i]))
  }

  function LiveClientRecency(tokens: seq<Token>, now: int): seq<ClientRow> {
    Sort(NewerFirst, Rows(tokens, now))
  }

  function Retained(rows: seq<ClientRow>, m: nat): seq<ClientRow> {
    if |rows| <= m then rows else rows[..m]
  }

  predicate HasClient(rows: seq<ClientRow>, c: int) {
    exists i | 0 <= i < |rows| :: rows[i].clientId == c
  }

  predicate ClientCanBeIssued(tokens: seq<Token>, now: int, c: int, limit: Option<nat>) {
    limit.None? ||
    var active := LiveClientRecency(tokens, now);
    if HasClient(active, c) then |active| <= limit.value || HasClient(Retained(active, limit.value), c)
    else |active| < limit.value
  }

  predicate ClientCanRotate(tokens: seq<Token>, now: int, c: int, limit: Option<nat>) {
    limit.None? || HasClient(Retained(LiveClientRecency(tokens, now), limit.value), c)
  }

  // ---- Issue and rotation ----

  function Inserted(t: NewToken, rotatedFrom: Option<nat>, now: int): Token {
    Token(t.tokenHash, t.kind, t.clientId, t.scope, t.expiresAt, None, rotatedFrom, now)
  }

  function PairRows(access: NewToken, refresh: Option<NewToken>, rotatedFrom: Option<nat>, now: int): seq<Token> {
    [Inserted(access, None, now)] + if refresh.Some? then [Inserted(refresh.value, rotatedFrom, now)] else []
  }

  /** The unique indexes on token_hash and, where set, on rotated_from. */
  predicate Unique(tokens: seq<Token>) {
    forall i, j | 0 <= i < j < |tokens| ::
      tokens[i].tokenHash != tokens[j].tokenHash
      && (tokens[i].rotatedFrom.Some? ==> tokens[i].rotatedFrom != tokens[j].rotatedFrom)
  }

  /** `accountLive` is what the tombstone check under the lock answers. */
  function Issued(
    tokens: seq<Token>, accountLive: bool, access: NewToken, refresh: Option<NewToken>, limit: Option<nat>, now: int
  ): (seq<Token>, Outcome) {
    if !accountLive then (tokens, Refused)
    else if !ClientCanBeIssued(tokens, now, access.clientId, limit) then (tokens, LimitExceeded)
    else
      var after := tokens + PairRows(access, refresh, None, now);
      if Unique(after) then (after, Granted) else (tokens, UniqueViolation)
  }

  predicate IsPredecessor(t: Token, hash: string) {
    t.tokenHash == hash && t.kind.Refresh? && t.revokedAt.None?
  }

  function FindPredecessor(tokens: seq<Token>, hash: string): (p: Option<nat>)
    ensures p.Some? ==> p.value < |tokens| && IsPredecessor(tokens[p.value], hash)
    ensures p.None? ==> forall i | 0 <= i < |tokens| :: !IsPredecessor(tokens[i], hash)
  {
    if tokens == [] then None
    else if IsPredecessor(tokens[|tokens| - 1], hash) then Some(|tokens| - 1)
    else FindPredecessor(tokens[..|tokens| - 1], hash)
  }

  function Rotated(
    tokens: seq<Token>, accountLive: bool, hash: string, access: NewToken, refresh: NewToken, limit: Option<nat>, now: int
  ): (seq<Token>, Outcome) {
    if !accountLive then (tokens, Refused)
    else if !ClientCanRotate(tokens, now, access.clientId, limit) then (tokens, LimitExceeded)
    else
      var p := FindPredecessor(tokens, hash);
      if p.None? then (tokens, Refused)
      else
        var after := tokens[p.value := tokens[p.value].(revokedAt := Some(now))] + PairRows(access, Some(refresh), p, now);
        if Unique(after) then (after, Granted) else (tokens, UniqueViolation)
  }

  function RevokedAt(tokens: seq<Token>, ids: set<nat>, now: int): seq<Token> {
    seq(|tokens|, i requires 0 <= i < |tokens| =>
      if i in ids && tokens[i].revokedAt.None? then tokens[i].(revokedAt := Some(now)) else tokens[i])
  }

  datatype Op =
    | Issue(accountLive: bool, access: NewToken, pairRefresh: Option<NewToken>, limit: Option<nat>)
    | Rotate(accountLive: bool, hash: string, access: NewToken, refresh: NewToken, limit: Option<nat>)
    | Revoke(ids: set<nat>)

  /**
   `now` is when the transaction started, which is all its statements know; `at` is when it got the
   lock. `at` is a history variable: no operation reads it.
   */
  datatype Event = Event(op: Op, now: int, at: int)

  function Apply(tokens: seq<Token>, e: Event): seq<Token> {
    match e.op
    case Issue(accountLive, access, refresh, limit) => Issued(tokens, accountLive, access, refresh, limit, e.now).0
    case Rotate(accountLive, hash, access, refresh, limit) =>
      Rotated(tokens, accountLive, hash, access, refresh, limit, e.now).0
    case Revoke(ids) => RevokedAt(tokens, ids, e.now)
  }

  /** Transactions in the order they get the lock. */
  function Run(tokens: seq<Token>, events: seq<Event>): seq<Token> {
    if events == [] then tokens
    else Apply(Run(tokens, events[..|events| - 1]), events[|events| - 1])
  }

  // ---- What the recency list says ----

  /** The live clients that come before `c`; all of them when `c` is not live. */
  function Ahead(tokens: seq<Token>, now: int, c: int): set<int> {
    set d | d in LiveClients(tokens, now) && d != c
            && (c !in LiveClients(tokens, now) || NewerFirst(RowOf(tokens, now, d), RowOf(tokens, now, c)))
  }

  lemma NewerFirstIsOrder()
    ensures TotalPreorder(NewerFirst)
  {
  }

  predicate DistinctClients(rows: seq<ClientRow>) {
    forall i, j | 0 <= i < j < |rows| :: rows[i].clientId != rows[j].clientId
  }

  lemma DistinctFromMultiset(rows: seq<ClientRow>, sorted: seq<ClientRow>)
    requires DistinctClients(rows) && multiset(rows) == multiset(sorted)
    ensures DistinctClients(sorted)
  {
    forall i, j | 0 <= i < j < |sorted| ensures sorted[i].clientId != sorted[j].clientId {
      assert sorted[i] in multiset(rows) && sorted[j] in multiset(rows);
      var a := Members.IndexOf(rows, sorted[i]);
      var b := Members.IndexOf(rows, sorted[j]);
      if a == b {
        TwiceInMultiset(sorted, i, j);
        OnceInMultiset(rows, a);
      }
    }
  }

  lemma TwiceInMultiset(s: seq<ClientRow>, i: nat, j: nat)
    requires i < j < |s|
    ensures s[i] == s[j] ==> multiset(s)[s[i]] >= 2
  {
    assert s == s[..i] + [s[i]] + s[i + 1..j] + [s[j]] + s[j + 1..];
  }

  lemma OnceInMultiset(s: seq<ClientRow>, a: nat)
    requires DistinctClients(s) && a < |s|
    ensures multiset(s)[s[a]] == 1
  {
    assert s == s[..a] + [s[a]] + s[a + 1..];
    assert s[a] !in s[..a] && s[a] !in s[a + 1..];
  }

  /** Each live client once, newest first. */
  lemma RecencySpec(tokens: seq<Token>, now: int)
    ensures var rows := LiveClientRecency(tokens, now);
            && DistinctClients(rows) && SortedBy(NewerFirst, rows)
            && (forall r :: r in rows <==> r.clientId in LiveClients(tokens, now) && r == RowOf(tokens, now, r.clientId))
  {
    var rows := Rows(tokens, now);
    NewerFirstIsOrder();
    SortSpec(NewerFirst, rows);
    DistinctFromMultiset(rows, LiveClientRecency(tokens, now));
    forall r ensures r in rows <==> r.clientId in LiveClients(tokens, now) && r == RowOf(tokens, now, r.clientId) {
      if r.clientId in LiveClients(tokens, now) && r == RowOf(tokens, now, r.clientId) {
        var i := Members.IndexOf(ClientIds(tokens, now), r.clientId);
        assert rows[i] == r;
      }
    }
  }

  /** An unrevoked token of the client that has not run out. */
  ghost predicate HasLiveToken(tokens: seq<Token>, now: int, c: int, createdAt: int) {
    exists i :: 0 <= i < |tokens| && tokens[i].clientId == c && tokens[i].createdAt == createdAt
                && tokens[i].revokedAt == None && now < tokens[i].expiresAt
  }

  /** In the tokens' own terms: who is listed, with which time, and in which order. */
  lemma RecencyOfTokens(tokens: seq<Token>, now: int)
    ensures var rows := LiveClientRecency(tokens, now);
            && (forall k | 0 <= k < |rows| ::
                  && HasLiveToken(tokens, now, rows[k].clientId, rows[k].lastIssuedAt)
                  && forall t | HasLiveToken(tokens, now, rows[k].clientId, t) :: t <= rows[k].lastIssuedAt)
            && (forall c, t | HasLiveToken(tokens, now, c, t) :: HasClient(rows, c))
            && forall j, k | 0 <= j < k < |rows| ::
                 || rows[j].lastIssuedAt > rows[k].lastIssuedAt
                 || (rows[j].lastIssuedAt == rows[k].lastIssuedAt && rows[j].clientId < rows[k].clientId)
  {
    var rows := LiveClientRecency(tokens, now);
    RecencySpec(tokens, now);
    forall k | 0 <= k < |rows|
      ensures HasLiveToken(tokens, now, rows[k].clientId, rows[k].lastIssuedAt)
      ensures forall t | HasLiveToken(tokens, now, rows[k].clientId, t) :: t <= rows[k].lastIssuedAt
    {
      assert rows[k] in rows;
      assert IsLast(tokens, now, rows[k].clientId, rows[k].lastIssuedAt);
    }
    forall c, t | HasLiveToken(tokens, now, c, t) ensures HasClient(rows, c) {
      var i :| 0 <= i < |tokens| && tokens[i].clientId == c && tokens[i].revokedAt == None && now < tokens[i].expiresAt;
      assert IsLive(tokens[i], now);
      assert RowOf(tokens, now, c) in rows;
      var k := Members.IndexOf(rows, RowOf(tokens, now, c));
    }
  }

  function ClientSet(rows: seq<ClientRow>): set<int> {
    set i | 0 <= i < |rows| :: rows[i].clientId
  }

  lemma {:induction false} ClientSetCount(rows: seq<ClientRow>)
    requires DistinctClients(rows)
    ensures |ClientSet(rows)| == |rows|
  {
    if rows == [] {
      assert ClientSet(rows) == {};
    } else {
      var front, last := rows[..|rows| - 1], rows[|rows| - 1];
      ClientSetCount(front);
      assert ClientSet(rows) == ClientSet(front) + {last.clientId};
      assert last.clientId !in ClientSet(front);
    }
  }

  lemma RecencyClients(tokens: seq<Token>, now: int)
    ensures ClientSet(LiveClientRecency(tokens, now)) == LiveClients(tokens, now)
    ensures |LiveClientRecency(tokens, now)| == |LiveClients(tokens, now)|
  {
    var rows := LiveClientRecency(tokens, now);
    RecencySpec(tokens, now);
    ClientSetCount(rows);
    forall c ensures c in ClientSet(rows) <==> c in LiveClients(tokens, now) {
      if c in LiveClients(tokens, now) {
        assert RowOf(tokens, now, c) in rows;
      }
      if c in ClientSet(rows) {
        var i :| 0 <= i < |rows| && rows[i].clientId == c;
        assert rows[i] in rows;
      }
    }
  }

  /** A client's place in the list is the number of live clients ahead of it. */
  lemma RankIsAhead(tokens: seq<Token>, now: int, k: nat)
    requires k < |LiveClientRecency(tokens, now)|
    ensures var c := LiveClientRecency(tokens, now)[k].clientId;
            c in LiveClients(tokens, now) && |Ahead(tokens, now, c)| == k
  {
    var rows := LiveClientRecency(tokens, now);
    RecencySpec(tokens, now);
    var c := rows[k].clientId;
    assert rows[k] in rows;
    forall d ensures d in Ahead(tokens, now, c) <==> d in ClientSet(rows[..k]) {
      if d in LiveClients(tokens, now) {
        assert RowOf(tokens, now, d) in rows;
        var i := Members.IndexOf(rows, RowOf(tokens, now, d));
        PlaceOf(rows, i, k);
        assert i < k ==> rows[..k][i].clientId == d;
        assert d in ClientSet(rows[..k]) ==> i < k;
      } else {
        AbsentClient(tokens, now, rows, k, d);
      }
    }
    assert Ahead(tokens, now, c) == ClientSet(rows[..k]);
    ClientSetCount(rows[..k]);
  }

  lemma PlaceOf(rows: seq<ClientRow>, i: nat, k: nat)
    requires DistinctClients(rows) && SortedBy(NewerFirst, rows) && i < |rows| && k < |rows|
    ensures i < k <==> rows[i].clientId != rows[k].clientId && NewerFirst(rows[i], rows[k])
  {
  }

  lemma AbsentClient(tokens: seq<Token>, now: int, rows: seq<ClientRow>, k: nat, d: int)
    requires k < |rows| && d !in LiveClients(tokens, now)
    requires forall r :: r in rows ==> r.clientId in LiveClients(tokens, now)
    ensures d !in ClientSet(rows[..k])
  {
    forall i | 0 <= i < k ensures rows[..k][i].clientId != d {
      assert rows[i] in rows;
    }
  }

  lemma RetainedHas(tokens: seq<Token>, now: int, c: int, m: nat)
    ensures HasClient(Retained(LiveClientRecency(tokens, now), m), c)
       <==> c in LiveClients(tokens, now) && |Ahead(tokens, now, c)| < m
  {
    var rows := LiveClientRecency(tokens, now);
    var kept := Retained(rows, m);
    if HasClient(kept, c) {
      var i :| 0 <= i < |kept| && kept[i].clientId == c;
      assert rows[i] == kept[i];
      RankIsAhead(tokens, now, i);
    }
    if c in LiveClients(tokens, now) && |Ahead(tokens, now, c)| < m {
      RecencySpec(tokens, now);
      assert RowOf(tokens, now, c) in rows;
      var k := Members.IndexOf(rows, RowOf(tokens, now, c));
      RankIsAhead(tokens, now, k);
      assert kept[k].clientId == c;
    }
  }

  /** A client may be issued to exactly when fewer than the limit of live clients come before it. */
  lemma IssueRule(tokens: seq<Token>, now: int, c: int, m: nat)
    ensures ClientCanBeIssued(tokens, now, c, Some(m)) <==> |Ahead(tokens, now, c)| < m
  {
    var rows := LiveClientRecency(tokens, now);
    RecencyClients(tokens, now);
    RetainedHas(tokens, now, c, m);
    assert HasClient(rows, c) <==> c in ClientSet(rows);
    if c in LiveClients(tokens, now) {
      Members.SubsetCount(Ahead(tokens, now, c) + {c}, LiveClients(tokens, now));
    } else {
      assert Ahead(tokens, now, c) == LiveClients(tokens, now);
    }
  }

  /** A client may rotate exactly when it is live and fewer than the limit come before it. */
  lemma RotateRule(tokens: seq<Token>, now: int, c: int, m: nat)
    ensures ClientCanRotate(tokens, now, c, Some(m)) <==> c in LiveClients(tokens, now) && |Ahead(tokens, now, c)| < m
  {
    RetainedHas(tokens, now, c, m);
  }

  // ---- The cap ----

  predicate SameClient(op: Op) {
    match op
    case Issue(_, access, refresh, _) => refresh.Some? ==> refresh.value.clientId == access.clientId
    case Rotate(_, _, access, refresh, _) => refresh.clientId == access.clientId
    case Revoke(_) => true
  }

  predicate Limited(op: Op, m: nat) {
    match op
    case Issue(_, _, _, limit) => limit == Some(m)
    case Rotate(_, _, _, _, limit) => limit == Some(m)
    case Revoke(_) => true
  }

  /** Every event is for one client, under the limit `m`, and starts before it gets the lock. */
  predicate Proper(e: Event, m: nat) {
    SameClient(e.op) && Limited(e.op, m) && e.now <= e.at
  }

  /** The events get the lock in the order listed. */
  predicate Locked(events: seq<Event>, from: int, m: nat) {
    && (forall i | 0 <= i < |events| :: from <= events[i].at && Proper(events[i], m))
    && forall i, j | 0 <= i < j < |events| :: events[i].at <= events[j].at
  }

  /** And they also started in that order. */
  predicate InOrder(events: seq<Event>, from: int, m: nat) {
    && (forall i | 0 <= i < |events| :: from <= events[i].now && SameClient(events[i].op) && Limited(events[i].op, m))
    && forall i, j | 0 <= i < j < |events| :: events[i].now <= events[j].now
  }

  lemma LiveLater(tokens: seq<Token>, now: int, later: int)
    requires now <= later
    ensures LiveClients(tokens, later) <= LiveClients(tokens, now)
  {
  }

  lemma RevokedIsFewer(tokens: seq<Token>, after: seq<Token>, now: int)
    requires |after| == |tokens|
    requires forall i | 0 <= i < |tokens| ::
      after[i].clientId == tokens[i].clientId && (IsLive(after[i], now) ==> IsLive(tokens[i], now))
    ensures LiveClients(after, now) <= LiveClients(tokens, now)
  {
  }

  lemma LiveOfConcat(a: seq<Token>, b: seq<Token>, now: int)
    ensures LiveClients(a + b, now) == LiveClients(a, now) + LiveClients(b, now)
  {
    forall c ensures c in LiveClients(a + b, now) <==> c in LiveClients(a, now) + LiveClients(b, now) {
      if c in LiveClients(a, now) {
        var i :| 0 <= i < |a| && IsLive(a[i], now) && a[i].clientId == c;
        assert (a + b)[i] == a[i];
      }
      if c in LiveClients(b, now) {
        var i :| 0 <= i < |b| && IsLive(b[i], now) && b[i].clientId == c;
        assert (a + b)[|a| + i] == b[i];
      }
    }
  }

  function Max(a: int, b: int): int { if a >= b then a else b }

  /** Above the limit, a client that is granted tokens was already among the `m` newest. */
  lemma OnlyNewestServed(tokens: seq<Token>, e: Event, m: nat)
    requires Limited(e.op, m) && |LiveClients(tokens, e.now)| >= m && !e.op.Revoke?
    requires Apply(tokens, e) != tokens
    ensures e.op.access.clientId in LiveClients(tokens, e.now)
    ensures |Ahead(tokens, e.now, e.op.access.clientId)| < m
  {
    var c := e.op.access.clientId;
    if e.op.Issue? {
      IssueRule(tokens, e.now, c, m);
      assert c !in LiveClients(tokens, e.now) ==> Ahead(tokens, e.now, c) == LiveClients(tokens, e.now);
    } else {
      RotateRule(tokens, e.now, c, m);
    }
  }

  /** The table as a grant leaves it but for the new rows: a rotation revokes its predecessor. */
  function Remaining(tokens: seq<Token>, e: Event): seq<Token> {
    if !e.op.Rotate? then tokens
    else
      var p := FindPredecessor(tokens, e.op.hash);
      if p.None? then tokens else tokens[p.value := tokens[p.value].(revokedAt := Some(e.now))]
  }

  predicate NewTokensLive(op: Op, at: int) {
    match op
    case Issue(_, access, refresh, _) => at < access.expiresAt || (refresh.Some? && at < refresh.value.expiresAt)
    case Rotate(_, _, access, refresh, _) => at < access.expiresAt || at < refresh.expiresAt
    case Revoke(_) => false
  }

  /**
   A grant that takes up a place already taken: the client's last token ran out between the start of
   the transaction and its lock, and by then the limit was reached without it.
   */
  predicate Overtakes(tokens: seq<Token>, e: Event, m: nat) {
    && !e.op.Revoke? && Apply(tokens, e) != tokens && NewTokensLive(e.op, e.at)
    && e.op.access.clientId in LiveClients(tokens, e.now) - LiveClients(tokens, e.at)
    && |LiveClients(tokens, e.at)| >= m
    && LiveClients(Remaining(tokens, e), e.at) == LiveClients(tokens, e.at)
  }

  lemma RemainingIsFewer(tokens: seq<Token>, e: Event, at: int)
    ensures LiveClients(Remaining(tokens, e), at) <= LiveClients(tokens, at)
  {
    RevokedIsFewer(tokens, Remaining(tokens, e), at);
  }

  lemma PairClients(access: NewToken, refresh: Option<NewToken>, rotatedFrom: Option<nat>, now: int, at: int)
    requires refresh.Some? ==> refresh.value.clientId == access.clientId
    ensures LiveClients(PairRows(access, refresh, rotatedFrom, now), at)
         == if at < access.expiresAt || (refresh.Some? && at < refresh.value.expiresAt) then {access.clientId} else {}
  {
    var pair := PairRows(access, refresh, rotatedFrom, now);
    assert IsLive(pair[0], at) <==> at < access.expiresAt;
    assert refresh.Some? ==> (IsLive(pair[1], at) <==> at < refresh.value.expiresAt);
  }

  /** What a grant leaves live. */
  lemma GrantClients(tokens: seq<Token>, e: Event, at: int)
    requires !e.op.Revoke? && SameClient(e.op) && Apply(tokens, e) != tokens
    ensures LiveClients(Apply(tokens, e), at)
         == LiveClients(Remaining(tokens, e), at) + if NewTokensLive(e.op, at) then {e.op.access.clientId} else {}
  {
    match e.op
    case Issue(_, access, refresh, _) =>
      LiveOfConcat(tokens, PairRows(access, refresh, None, e.now), at);
      PairClients(access, refresh, None, e.now, at);
    case Rotate(_, hash, access, refresh, _) =>
      var p := FindPredecessor(tokens, hash);
      LiveOfConcat(Remaining(tokens, e), PairRows(access, Some(refresh), p, e.now), at);
      PairClients(access, Some(refresh), p, e.now, at);
  }

  /** A grant adds at most the client it was made to, and that one only if the check let it in. */
  lemma GrantAdds(tokens: seq<Token>, e: Event, m: nat, later: int)
    requires !e.op.Revoke? && SameClient(e.op) && Limited(e.op, m) && Apply(tokens, e) != tokens
    ensures LiveClients(Apply(tokens, e), later) <= LiveClients(tokens, later) + {e.op.access.clientId}
    ensures |Ahead(tokens, e.now, e.op.access.clientId)| < m
  {
    GrantClients(tokens, e, later);
    RemainingIsFewer(tokens, e, later);
    IssueRule(tokens, e.now, e.op.access.clientId, m);
    RotateRule(tokens, e.now, e.op.access.clientId, m);
  }

  /** Seen from the transaction's start: no step takes a later count above the larger of the limit and the count then. */
  lemma StepKeepsCap(tokens: seq<Token>, e: Event, m: nat, later: int)
    requires SameClient(e.op) && Limited(e.op, m) && e.now <= later
    ensures |LiveClients(Apply(tokens, e), later)| <= Max(m, |LiveClients(tokens, e.now)|)
  {
    var before, after := LiveClients(tokens, e.now), LiveClients(Apply(tokens, e), later);
    LiveLater(tokens, e.now, later);
    if e.op.Revoke? || Apply(tokens, e) == tokens {
      RevokedIsFewer(tokens, Apply(tokens, e), later);
      Members.SubsetCount(after, before);
    } else {
      var c := e.op.access.clientId;
      GrantAdds(tokens, e, m, later);
      assert c !in before ==> Ahead(tokens, e.now, c) == before;
      Members.SubsetCount(after, before + {c});
      if c in before { Members.SubsetCount(after, before); }
    }
  }

  /** Sets of live clients before, after the revocation, and with the new client. */
  lemma Exceeds(before: set<int>, remaining: set<int>, c: int, m: nat)
    requires remaining <= before
    ensures |remaining + {c}| > Max(m, |before|) <==> c !in before && |before| >= m && remaining == before
  {
    if c in before {
      Members.SubsetCount(remaining + {c}, before);
    } else if remaining != before {
      var x := Members.Missing(remaining, before);
      Members.SubsetCount(remaining + {x}, before);
    } else {
      OneMore(before, c, m);
    }
  }

  /**
   Where the cap can fail, for issues, rotations and revocations alike: an event takes the count, at
   the instant it gets the lock, above the larger of the limit and what it was exactly when it
   overtakes.
   */
  lemma GrantExceedsExactly(tokens: seq<Token>, e: Event, m: nat)
    requires Proper(e, m)
    ensures |LiveClients(Apply(tokens, e), e.at)| > Max(m, |LiveClients(tokens, e.at)|) <==> Overtakes(tokens, e, m)
  {
    var before := LiveClients(tokens, e.at);
    if e.op.Revoke? {
      RevokedIsFewer(tokens, Apply(tokens, e), e.at);
      Members.SubsetCount(LiveClients(Apply(tokens, e), e.at), before);
    } else if Apply(tokens, e) != tokens {
      GrantClients(tokens, e, e.at);
      RemainingIsFewer(tokens, e, e.at);
      Members.SubsetCount(LiveClients(Remaining(tokens, e), e.at), before);
      Exceeds(before, LiveClients(Remaining(tokens, e), e.at), e.op.access.clientId, m);
      LiveLater(tokens, e.now, e.at);
      Members.SubsetCount(before, LiveClients(tokens, e.now));
      if |before| >= m { OnlyNewestServed(tokens, e, m); }
    }
  }

  /** A rotation of the client's own token takes nobody else's place, so the last part of the condition holds by itself. */
  lemma OwnPredecessorKeeps(tokens: seq<Token>, e: Event)
    requires e.op.Rotate? && e.op.access.clientId !in LiveClients(tokens, e.at)
    requires forall i | 0 <= i < |tokens| && tokens[i].tokenHash == e.op.hash :: tokens[i].clientId == e.op.access.clientId
    ensures LiveClients(Remaining(tokens, e), e.at) == LiveClients(tokens, e.at)
  {
    var r := Remaining(tokens, e);
    RemainingIsFewer(tokens, e, e.at);
    forall c | c in LiveClients(tokens, e.at) ensures c in LiveClients(r, e.at) {
      var i :| 0 <= i < |tokens| && IsLive(tokens[i], e.at) && tokens[i].clientId == c;
      assert r[i] == tokens[i];
    }
  }

  // ---- The cap over runs ----

  function CountAt(tokens: seq<Token>, at: int): nat {
    |LiveClients(tokens, at)|
  }

  /** No event of the run overtakes. */
  ghost predicate NoneOvertakes(tokens: seq<Token>, events: seq<Event>, m: nat) {
    forall k | 0 <= k < |events| :: !Overtakes(Run(tokens, events[..k]), events[k], m)
  }

  /** After every event, at the instant it got the lock, at most `bound` clients are live. */
  ghost predicate StaysWithin(tokens: seq<Token>, events: seq<Event>, bound: int) {
    forall k | 0 <= k < |events| :: CountAt(Run(tokens, events[..k + 1]), events[k].at) <= bound
  }

  lemma RunNext(tokens: seq<Token>, events: seq<Event>, k: nat)
    requires k < |events|
    ensures Run(tokens, events[..k + 1]) == Apply(Run(tokens, events[..k]), events[k])
  {
    assert events[..k + 1][..k] == events[..k];
  }

  lemma CountFalls(tokens: seq<Token>, at: int, later: int)
    requires at <= later
    ensures CountAt(tokens, later) <= CountAt(tokens, at)
  {
    LiveLater(tokens, at, later);
    Members.SubsetCount(LiveClients(tokens, later), LiveClients(tokens, at));
  }

  lemma StepCount(tokens: seq<Token>, e: Event, m: nat)
    requires Proper(e, m) && !Overtakes(tokens, e, m)
    ensures CountAt(Apply(tokens, e), e.at) <= Max(m, CountAt(tokens, e.at))
  {
    GrantExceedsExactly(tokens, e, m);
  }

  lemma {:induction false} CountAfter(tokens: seq<Token>, events: seq<Event>, from: int, m: nat, k: nat, later: int)
    requires Locked(events, from, m) && NoneOvertakes(tokens, events, m) && k <= |events|
    requires from <= later && forall i | 0 <= i < k :: events[i].at <= later
    ensures CountAt(Run(tokens, events[..k]), later) <= Max(m, CountAt(tokens, from))
  {
    if k == 0 {
      CountFalls(tokens, from, later);
    } else {
      var e := events[k - 1];
      CountAfter(tokens, events, from, m, k - 1, e.at);
      RunNext(tokens, events, k - 1);
      StepCount(Run(tokens, events[..k - 1]), e, m);
      CountFalls(Run(tokens, events[..k]), e.at, later);
    }
  }

  lemma AllWithin(tokens: seq<Token>, events: seq<Event>, from: int, m: nat)
    requires Locked(events, from, m) && NoneOvertakes(tokens, events, m)
    ensures StaysWithin(tokens, events, Max(m, CountAt(tokens, from)))
  {
    forall k | 0 <= k < |events|
      ensures CountAt(Run(tokens, events[..k + 1]), events[k].at) <= Max(m, CountAt(tokens, from))
    {
      CountAfter(tokens, events, from, m, k + 1, events[k].at);
    }
  }

  /**
   In whatever order the transactions started: if none overtakes, a run keeps at most `m` live
   clients, or no more than it started with when that was above `m`.
   */
  lemma CapKept(tokens: seq<Token>, events: seq<Event>, from: int, m: nat, later: int)
    requires Locked(events, from, m) && NoneOvertakes(tokens, events, m)
    requires from <= later && forall i | 0 <= i < |events| :: events[i].at <= later
    ensures StaysWithin(tokens, events, Max(m, CountAt(tokens, from)))
    ensures CountAt(Run(tokens, events), later) <= Max(m, CountAt(tokens, from))
  {
    AllWithin(tokens, events, from, m);
    CountAfter(tokens, events, from, m, |events|, later);
    assert events[..|events|] == events;
  }

  lemma OvertakingIsSeen(tokens: seq<Token>, events: seq<Event>, from: int, m: nat, k: nat)
    requires Locked(events, from, m) && k < |events| && Overtakes(Run(tokens, events[..k]), events[k], m)
    ensures CountAt(Run(tokens, events[..k + 1]), events[k].at) > m
  {
    RunNext(tokens, events, k);
    GrantExceedsExactly(Run(tokens, events[..k]), events[k], m);
  }

  /** Starting within the limit, a run stays within it if and only if none of its events overtakes. */
  lemma CapKeptExactly(tokens: seq<Token>, events: seq<Event>, from: int, m: nat)
    requires Locked(events, from, m) && CountAt(tokens, from) <= m
    ensures StaysWithin(tokens, events, m) <==> NoneOvertakes(tokens, events, m)
  {
    if NoneOvertakes(tokens, events, m) {
      AllWithin(tokens, events, from, m);
    } else {
      var k :| 0 <= k < |events| && Overtakes(Run(tokens, events[..k]), events[k], m);
      OvertakingIsSeen(tokens, events, from, m, k);
    }
  }

  /** The same events, each getting the lock as it starts. */
  function Prompt(events: seq<Event>): seq<Event> {
    seq(|events|, i requires 0 <= i < |events| => events[i].(at := events[i].now))
  }

  lemma {:induction false} RunIgnoresLock(tokens: seq<Token>, events: seq<Event>)
    ensures Run(tokens, Prompt(events)) == Run(tokens, events)
  {
    if events != [] {
      var front := events[..|events| - 1];
      assert Prompt(events)[..|events| - 1] == Prompt(front);
      RunIgnoresLock(tokens, front);
    }
  }

  /** In particular when the transactions get the lock in the order they started. */
  lemma CapKeptInOrder(tokens: seq<Token>, events: seq<Event>, from: int, m: nat, later: int)
    requires InOrder(events, from, m) && from <= later
    requires forall i | 0 <= i < |events| :: events[i].now <= later
    ensures CountAt(Run(tokens, events), later) <= Max(m, CountAt(tokens, from))
  {
    RunIgnoresLock(tokens, events);
    CapKept(tokens, Prompt(events), from, m, later);
  }

  lemma OneMore(before: set<int>, c: int, m: nat)
    ensures |before + {c}| > Max(m, |before|) <==> c !in before && |before| >= m
  {
    if c in before { assert before + {c} == before; }
  }

  const EXPIRING := Token("a", Refresh, 1, "", 6, None, None, 3)
  const LASTING := Token("b", Refresh, 2, "", 100, None, None, 1)

  lemma FirstGrant()
    ensures Run([EXPIRING, LASTING], [Event(Issue(true, NewToken("d", Access, 3, "", 100), None, Some(2)), 7, 7)])
         == [EXPIRING, LASTING, Token("d", Access, 3, "", 100, None, None, 7)]
  {
    var tokens := [EXPIRING, LASTING];
    assert LiveClients(tokens, 7) == {2} by { assert IsLive(tokens[1], 7); }
    assert Ahead(tokens, 7, 3) == {2};
    IssueRule(tokens, 7, 3, 2);
    var e := Event(Issue(true, NewToken("d", Access, 3, "", 100), None, Some(2)), 7, 7);
    assert [e][..0] == [];
    assert Run(tokens, [e]) == Apply(tokens, e);
  }

  const SECOND_GRANT := Event(Issue(true, NewToken("e", Access, 1, "", 100), None, Some(2)), 5, 7)

  lemma OneIsAhead(tokens: seq<Token>)
    requires |tokens| == 3 && IsLive(tokens[0], 5) && IsLive(tokens[1], 5) && IsLive(tokens[2], 5)
    requires tokens[0].clientId == 1 && tokens[0].createdAt == 3
    requires tokens[1].clientId == 2 && tokens[1].createdAt == 1
    requires tokens[2].clientId == 3 && tokens[2].createdAt == 7
    ensures |Ahead(tokens, 5, 1)| == 1
  {
    assert LiveClients(tokens, 5) == {1, 2, 3};
    assert Ahead(tokens, 5, 1) == {3};
  }

  lemma SecondGrant(tokens: seq<Token>)
    requires tokens == [EXPIRING, LASTING, Token("d", Access, 3, "", 100, None, None, 7)]
    ensures Apply(tokens, SECOND_GRANT) == tokens + [Token("e", Access, 1, "", 100, None, None, 5)]
  {
    OneIsAhead(tokens);
    IssueRule(tokens, 5, 1, 2);
    assert Unique(tokens + PairRows(SECOND_GRANT.op.access, None, None, 5));
  }

  lemma ThreeLive(after: seq<Token>)
    requires |after| == 4 && !IsLive(after[0], 7) && IsLive(after[1], 7) && IsLive(after[2], 7) && IsLive(after[3], 7)
    requires after[1].clientId == 2 && after[2].clientId == 3 && after[3].clientId == 1
    ensures |LiveClients(after, 7)| == 3
  {
    assert LiveClients(after, 7) == {1, 2, 3};
  }

  /** Two clients, limit two; a transaction that began at 5 gets the lock after one that began at 7. */
  lemma CapFailsOutOfOrder() returns (tokens: seq<Token>, e: Event)
    ensures |LiveClients([EXPIRING, LASTING], 5)| == 2
    ensures tokens == Run([EXPIRING, LASTING], [Event(Issue(true, NewToken("d", Access, 3, "", 100), None, Some(2)), 7, 7)])
    ensures e.now == 5 && Limited(e.op, 2) && |LiveClients(Apply(tokens, e), 7)| == 3
  {
    FirstGrant();
    var start := [EXPIRING, LASTING];
    assert IsLive(start[0], 5) && IsLive(start[1], 5);
    assert LiveClients(start, 5) == {1, 2};
    tokens := [EXPIRING, LASTING, Token("d", Access, 3, "", 100, None, None, 7)];
    e := SECOND_GRANT;
    SecondGrant(tokens);
    ThreeLive(Apply(tokens, e));
  }

  const LATE_ROTATION := Event(
    Rotate(true, "a", NewToken("e", Access, 1, "", 100), NewToken("f", Refresh, 1, "", 100), Some(2)), 5, 7)

  /** A rotation that waits in the same way lets the third client in too. */
  lemma RotationOvertakes(tokens: seq<Token>)
    requires tokens == [EXPIRING, LASTING, Token("d", Access, 3, "", 100, None, None, 7)]
    ensures Overtakes(tokens, LATE_ROTATION, 2) && |LiveClients(Apply(tokens, LATE_ROTATION), 7)| == 3
  {
    var e := LATE_ROTATION;
    OneIsAhead(tokens);
    RotateRule(tokens, 5, 1, 2);
    RotationGranted(tokens, e);
    LiveAtSeven(tokens);
    OwnPredecessorKeeps(tokens, e);
    GrantClients(tokens, e, 7);
  }

  lemma LiveAtSeven(tokens: seq<Token>)
    requires tokens == [EXPIRING, LASTING, Token("d", Access, 3, "", 100, None, None, 7)]
    ensures LiveClients(tokens, 7) == {2, 3} && 1 in LiveClients(tokens, 5)
  {
    assert !IsLive(tokens[0], 7) && IsLive(tokens[1], 7) && IsLive(tokens[2], 7) && IsLive(tokens[0], 5);
  }

  lemma RotationGranted(tokens: seq<Token>, e: Event)
    requires tokens == [EXPIRING, LASTING, Token("d", Access, 3, "", 100, None, None, 7)] && e == LATE_ROTATION
    requires ClientCanRotate(tokens, 5, 1, Some(2))
    ensures Apply(tokens, e) != tokens
  {
    var p := FindPredecessor(tokens, "a");
    assert IsPredecessor(tokens[0], "a");
    assert p == Some(0);
    var after := Remaining(tokens, e) + PairRows(e.op.access, Some(e.op.refresh), p, 5);
    assert |after| == 5 && after[0].tokenHash == "a" && after[1].tokenHash == "b" && after[2].tokenHash == "d";
    assert after[3].tokenHash == "e" && after[4].tokenHash == "f";
    assert Unique(after);
  }

  // ---- Refresh chains ----

  predicate LinkOk(tokens: seq<Token>, i: nat) {
    i < |tokens| && tokens[i].rotatedFrom.Some? ==>
      var p := tokens[i].rotatedFrom.value;
      p < i && tokens[p].revokedAt.Some?
  }

  /** Every rotated token is revoked, and is rotated once. */
  predicate ChainsOk(tokens: seq<Token>) {
    && Unique(tokens)
    && forall i | 0 <= i < |tokens| && tokens[i].rotatedFrom.Some? ::
         tokens[i].rotatedFrom.value < i && tokens[tokens[i].rotatedFrom.value].revokedAt.Some?
  }

  /** Old rows may be revoked, and new rows may point at revoked old ones. */
  predicate Grows(tokens: seq<Token>, after: seq<Token>) {
    && |tokens| <= |after|
    && (forall k | 0 <= k < |tokens| ::
          after[k].rotatedFrom == tokens[k].rotatedFrom && (tokens[k].revokedAt.Some? ==> after[k].revokedAt.Some?))
    && forall k | |tokens| <= k < |after| && after[k].rotatedFrom.Some? ::
         after[k].rotatedFrom.value < |tokens| && after[after[k].rotatedFrom.value].revokedAt.Some?
  }

  lemma GrowthKeepsLinks(tokens: seq<Token>, after: seq<Token>, i: nat)
    requires Grows(tokens, after) && LinkOk(tokens, i)
    ensures LinkOk(after, i)
  {
  }

  lemma GrowthKeepsChains(tokens: seq<Token>, after: seq<Token>)
    requires ChainsOk(tokens) && Grows(tokens, after) && Unique(after)
    ensures ChainsOk(after)
  {
    forall i | 0 <= i < |after| && after[i].rotatedFrom.Some? ensures LinkOk(after, i) {
      assert LinkOk(tokens, i);
      GrowthKeepsLinks(tokens, after, i);
    }
  }

  lemma RevokeGrows(tokens: seq<Token>, ids: set<nat>, now: int)
    requires Unique(tokens)
    ensures Grows(tokens, RevokedAt(tokens, ids, now)) && Unique(RevokedAt(tokens, ids, now))
  {
  }

  lemma IssueGrows(tokens: seq<Token>, access: NewToken, refresh: Option<NewToken>, now: int)
    ensures Grows(tokens, tokens + PairRows(access, refresh, None, now))
  {
  }

  lemma RotateGrows(tokens: seq<Token>, p: nat, access: NewToken, refresh: NewToken, now: int)
    requires p < |tokens|
    ensures Grows(tokens, tokens[p := tokens[p].(revokedAt := Some(now))] + PairRows(access, Some(refresh), Some(p), now))
  {
  }

  lemma ApplyKeepsChains(tokens: seq<Token>, e: Event)
    requires ChainsOk(tokens)
    ensures ChainsOk(Apply(tokens, e))
  {
    var after := Apply(tokens, e);
    match e.op
    case Issue(_, access, refresh, _) =>
      IssueGrows(tokens, access, refresh, e.now);
      if after != tokens { GrowthKeepsChains(tokens, after); }
    case Rotate(_, hash, access, refresh, _) =>
      var p := FindPredecessor(tokens, hash);
      if p.Some? {
        RotateGrows(tokens, p.value, access, refresh, e.now);
        if after != tokens { GrowthKeepsChains(tokens, after); }
      }
    case Revoke(ids) =>
      RevokeGrows(tokens, ids, e.now);
      GrowthKeepsChains(tokens, after);
  }

  lemma {:induction false} RunKeepsChains(tokens: seq<Token>, events: seq<Event>)
    requires ChainsOk(tokens)
    ensures ChainsOk(Run(tokens, events))
  {
    if events != [] {
      RunKeepsChains(tokens, events[..|events| - 1]);
      ApplyKeepsChains(Run(tokens, events[..|events| - 1]), events[|events| - 1]);
    }
  }

  predicate FreshHashes(tokens: seq<Token>, access: NewToken, refresh: NewToken) {
    access.tokenHash != refresh.tokenHash
    && forall t | t in tokens :: t.tokenHash != access.tokenHash && t.tokenHash != refresh.tokenHash
  }

  /** The unique index on rotated_from never fires: the revoke's own guard has already decided. */
  lemma RotationIndexIsBackstop(
    tokens: seq<Token>, accountLive: bool, hash: string, access: NewToken, refresh: NewToken, limit: Option<nat>, now: int)
    requires ChainsOk(tokens) && FreshHashes(tokens, access, refresh)
    ensures Rotated(tokens, accountLive, hash, access, refresh, limit, now).1 != UniqueViolation
  {
    var p := FindPredecessor(tokens, hash);
    if p.Some? {
      var after := tokens[p.value := tokens[p.value].(revokedAt := Some(now))] + PairRows(access, Some(refresh), p, now);
      forall i, j | 0 <= i < j < |after|
        ensures after[i].tokenHash != after[j].tokenHash
        ensures after[i].rotatedFrom.Some? ==> after[i].rotatedFrom != after[j].rotatedFrom
      {
        if i < |tokens| {
          assert tokens[i] in tokens;
          assert after[i].tokenHash == tokens[i].tokenHash && after[i].rotatedFrom == tokens[i].rotatedFrom;
        }
      }
    }
  }

  function Root(tokens: seq<Token>, i: nat): nat
    requires ChainsOk(tokens) && i < |tokens|
    decreases i
  {
    if tokens[i].rotatedFrom.None? then i else Root(tokens, tokens[i].rotatedFrom.value)
  }

  function Depth(tokens: seq<Token>, i: nat): nat
    requires ChainsOk(tokens) && i < |tokens|
    decreases i
  {
    if tokens[i].rotatedFrom.None? then 0 else Depth(tokens, tokens[i].rotatedFrom.value) + 1
  }

  // ---- What a grant leaves ----

  /** The row a new token gets, and the token it is the successor of. */
  function Fresh(t: NewToken, rotatedFrom: Option<nat>, now: int): Token {
    Token(tokenHash := t.tokenHash, kind := t.kind, clientId := t.clientId, scope := t.scope,
          expiresAt := t.expiresAt, revokedAt := None, rotatedFrom := rotatedFrom, createdAt := now)
  }

  /**
   One old row changed: the unrevoked refresh token with the presented hash, now revoked. Two rows
   added: the access token, linked to nothing, and the refresh token, linked to that row.
   */
  predicate Succeeds(
    before: seq<Token>, after: seq<Token>, p: nat, hash: string, access: NewToken, refresh: NewToken, now: int)
  {
    && p < |before| && |after| == |before| + 2
    && before[p].tokenHash == hash && before[p].kind == Refresh && before[p].revokedAt == None
    && after[p] == before[p].(revokedAt := Some(now))
    && (forall i | 0 <= i < |before| && i != p :: after[i] == before[i])
    && after[|before|] == Fresh(access, None, now)
    && after[|before| + 1] == Fresh(refresh, Some(p), now)
  }

  /** The new hash is taken. */
  predicate Taken(tokens: seq<Token>, hash: string) {
    exists i | 0 <= i < |tokens| :: tokens[i].tokenHash == hash
  }

  /** An unrevoked refresh token has the hash. */
  predicate Rotatable(tokens: seq<Token>, hash: string) {
    exists i | 0 <= i < |tokens| :: tokens[i].tokenHash == hash && tokens[i].kind == Refresh && tokens[i].revokedAt == None
  }

  lemma UniqueWith(before: seq<Token>, kept: seq<Token>, added: seq<Token>)
    requires Unique(before) && |kept| == |before|
    requires forall i | 0 <= i < |before| ::
               kept[i].tokenHash == before[i].tokenHash && kept[i].rotatedFrom == before[i].rotatedFrom
    requires forall j | 0 <= j < |added| && added[j].rotatedFrom.Some? :: j == |added| - 1
               && forall i | 0 <= i < |before| :: before[i].rotatedFrom != added[j].rotatedFrom
    ensures Unique(kept + added)
       <==> && (forall j | 0 <= j < |added| :: !Taken(before, added[j].tokenHash))
            && forall j, k | 0 <= j < k < |added| :: added[j].tokenHash != added[k].tokenHash
  {
    var all, n := kept + added, |kept|;
    assert forall i | 0 <= i < n :: all[i] == kept[i];
    assert forall j | 0 <= j < |added| :: all[n + j] == added[j];
    if Unique(all) {
      forall j | 0 <= j < |added| ensures !Taken(before, added[j].tokenHash) {
        forall i | 0 <= i < |before| ensures before[i].tokenHash != added[j].tokenHash {
          assert all[i].tokenHash != all[n + j].tokenHash;
        }
      }
      forall j, k | 0 <= j < k < |added| ensures added[j].tokenHash != added[k].tokenHash {
        assert all[n + j].tokenHash != all[n + k].tokenHash;
      }
    } else {
      var i, j :| 0 <= i < j < |all| && !(all[i].tokenHash != all[j].tokenHash
                    && (all[i].rotatedFrom.Some? ==> all[i].rotatedFrom != all[j].rotatedFrom));
      if j >= n && i < n { assert before[i].rotatedFrom == all[i].rotatedFrom && added[j - n] == all[j]; }
      if i >= n { assert added[i - n] == all[i] && added[j - n] == all[j]; }
    }
  }

  /** Which of its answers a rotation gives, in the order it looks for them, and what each leaves. */
  lemma RotationOutcome(
    tokens: seq<Token>, accountLive: bool, hash: string, access: NewToken, refresh: NewToken, limit: Option<nat>, now: int)
    requires ChainsOk(tokens)
    ensures var (after, outcome) := Rotated(tokens, accountLive, hash, access, refresh, limit, now);
            var c := access.clientId;
            && (outcome == LimitExceeded
                <==> accountLive && limit.Some? && !(c in LiveClients(tokens, now) && |Ahead(tokens, now, c)| < limit.value))
            && (outcome == Refused <==> !accountLive || (outcome != LimitExceeded && !Rotatable(tokens, hash)))
            && (outcome == UniqueViolation
                <==> && outcome != Refused && outcome != LimitExceeded
                     && (access.tokenHash == refresh.tokenHash
                         || Taken(tokens, access.tokenHash) || Taken(tokens, refresh.tokenHash)))
            && (outcome == Granted ==> exists p: nat :: Succeeds(tokens, after, p, hash, access, refresh, now))
            && (outcome != Granted ==> after == tokens)
  {
    if limit.Some? { RotateRule(tokens, now, access.clientId, limit.value); }
    RotatableIsFound(tokens, hash);
    var p := FindPredecessor(tokens, hash);
    if p.Some? {
      var revoked := tokens[p.value := tokens[p.value].(revokedAt := Some(now))];
      var pair := PairRows(access, Some(refresh), p, now);
      assert pair[0].tokenHash == access.tokenHash && pair[1].tokenHash == refresh.tokenHash;
      UniqueWith(tokens, revoked, pair);
      if Rotated(tokens, accountLive, hash, access, refresh, limit, now).1 == Granted {
        assert Succeeds(tokens, revoked + pair, p.value, hash, access, refresh, now);
      }
    }
  }

  lemma RotatableIsFound(tokens: seq<Token>, hash: string)
    ensures Rotatable(tokens, hash) <==> FindPredecessor(tokens, hash).Some?
  {
    if Rotatable(tokens, hash) {
      var i :| 0 <= i < |tokens| && tokens[i].tokenHash == hash && tokens[i].kind == Refresh && tokens[i].revokedAt == None;
      assert IsPredecessor(tokens[i], hash);
    }
  }

  /** The same for an issue: its rows are linked to nothing, and there is a refresh row exactly when one was given. */
  lemma IssueOutcome(
    tokens: seq<Token>, accountLive: bool, access: NewToken, refresh: Option<NewToken>, limit: Option<nat>, now: int)
    requires ChainsOk(tokens)
    ensures var (after, outcome) := Issued(tokens, accountLive, access, refresh, limit, now);
            && (outcome == Refused <==> !accountLive)
            && (outcome == LimitExceeded
                <==> accountLive && limit.Some? && |Ahead(tokens, now, access.clientId)| >= limit.value)
            && (outcome == UniqueViolation
                <==> && outcome != Refused && outcome != LimitExceeded
                     && (Taken(tokens, access.tokenHash)
                         || (refresh.Some? && (access.tokenHash == refresh.value.tokenHash
                                               || Taken(tokens, refresh.value.tokenHash)))))
            && (outcome == Granted ==>
                  after == tokens + [Fresh(access, None, now)] + if refresh.Some? then [Fresh(refresh.value, None, now)] else [])
            && (outcome != Granted ==> after == tokens)
  {
    if limit.Some? { IssueRule(tokens, now, access.clientId, limit.value); }
    var pair := PairRows(access, refresh, None, now);
    assert pair[0].tokenHash == access.tokenHash && (refresh.Some? ==> pair[1].tokenHash == refresh.value.tokenHash);
    UniqueWith(tokens, tokens, pair);
    assert tokens + pair == tokens + [Fresh(access, None, now)] + if refresh.Some? then [Fresh(refresh.value, None, now)] else [];
  }

  /** A revocation stamps the unrevoked tokens it names and nothing else. */
  lemma RevocationOutcome(tokens: seq<Token>, ids: set<nat>, now: int, at: int, i: nat)
    requires i < |tokens|
    ensures var after := Apply(tokens, Event(Revoke(ids), now, at));
            && |after| == |tokens|
            && after[i] == tokens[i].(revokedAt := after[i].revokedAt)
            && after[i].revokedAt == if i in ids && tokens[i].revokedAt == None then Some(now) else tokens[i].revokedAt
  {
  }

  lemma {:induction false} OldLinksStay(before: seq<Token>, after: seq<Token>, i: nat)
    requires ChainsOk(before) && ChainsOk(after) && i < |before| <= |after|
    requires forall j | 0 <= j < |before| :: after[j].rotatedFrom == before[j].rotatedFrom
    ensures Root(after, i) == Root(before, i) && Depth(after, i) == Depth(before, i)
    decreases i
  {
    if before[i].rotatedFrom.Some? { OldLinksStay(before, after, before[i].rotatedFrom.value); }
  }

  /**
   A granted rotation makes its chain one longer: the new refresh token is in the chain of the one
   it replaces, one deeper, and every other token keeps its chain and place.
   */
  lemma RotationExtendsChain(tokens: seq<Token>, e: Event) returns (p: nat)
    requires ChainsOk(tokens) && e.op.Rotate? && Apply(tokens, e) != tokens
    ensures Succeeds(tokens, Apply(tokens, e), p, e.op.hash, e.op.access, e.op.refresh, e.now)
    ensures var (after, n) := (Apply(tokens, e), |tokens|);
            && ChainsOk(after) && p < n
            && Root(after, n + 1) == Root(tokens, p) && Depth(after, n + 1) == Depth(tokens, p) + 1
            && Root(after, n) == n && Depth(after, n) == 0
            && forall i: nat | i < n :: Root(after, i) == Root(tokens, i) && Depth(after, i) == Depth(tokens, i)
  {
    var after, n := Apply(tokens, e), |tokens|;
    var op := e.op;
    RotationOutcome(tokens, op.accountLive, op.hash, op.access, op.refresh, op.limit, e.now);
    p :| Succeeds(tokens, after, p, op.hash, op.access, op.refresh, e.now);
    ApplyKeepsChains(tokens, e);
    assert forall j | 0 <= j < n :: after[j].rotatedFrom == tokens[j].rotatedFrom;
    forall i: nat | i < n ensures Root(after, i) == Root(tokens, i) && Depth(after, i) == Depth(tokens, i) {
      OldLinksStay(tokens, after, i);
    }
    assert after[n].rotatedFrom == None && after[n + 1].rotatedFrom == Some(p);
  }

  /** A chain does not fork. */
  lemma {:induction false} ChainsAreLinear(tokens: seq<Token>, i: nat, j: nat)
    requires ChainsOk(tokens) && i < |tokens| && j < |tokens|
    requires Root(tokens, i) == Root(tokens, j) && Depth(tokens, i) == Depth(tokens, j)
    ensures i == j
    decreases i
  {
    if tokens[i].rotatedFrom.Some? {
      ChainsAreLinear(tokens, tokens[i].rotatedFrom.value, tokens[j].rotatedFrom.value);
    }
  }

  lemma {:induction false} InnerIsRevoked(tokens: seq<Token>, i: nat, j: nat)
    requires ChainsOk(tokens) && i < |tokens| && j < |tokens|
    requires Root(tokens, i) == Root(tokens, j) && Depth(tokens, i) < Depth(tokens, j)
    ensures tokens[i].revokedAt.Some?
    decreases j
  {
    var p := tokens[j].rotatedFrom.value;
    if Depth(tokens, p) == Depth(tokens, i) {
      ChainsAreLinear(tokens, i, p);
    } else {
      InnerIsRevoked(tokens, i, p);
    }
  }

  /** In every run, of the tokens of one issuance at most the tip of its chain is unrevoked. */
  lemma OneUnrevokedPerChain(tokens: seq<Token>, events: seq<Event>, i: nat, j: nat)
    requires ChainsOk(tokens)
    ensures var r := Run(tokens, events);
            && ChainsOk(r)
            && (i < |r| && j < |r| && Root(r, i) == Root(r, j) && r[i].revokedAt.None? && r[j].revokedAt.None?
                ==> i == j)
  {
    RunKeepsChains(tokens, events);
    var r := Run(tokens, events);
    if i < |r| && j < |r| && Root(r, i) == Root(r, j) && r[i].revokedAt.None? && r[j].revokedAt.None? {
      if Depth(r, i) < Depth(r, j) { InnerIsRevoked(r, i, j); }
      else if Depth(r, j) < Depth(r, i) { InnerIsRevoked(r, j, i); }
      else { ChainsAreLinear(r, i, j); }
    }
  }

  /** The hash belongs to a revoked token. */
  predicate Spent(tokens: seq<Token>, hash: string) {
    exists i | 0 <= i < |tokens| :: tokens[i].tokenHash == hash && tokens[i].revokedAt.Some?
  }

  lemma ApplyKeepsSpent(tokens: seq<Token>, e: Event, hash: string)
    requires Spent(tokens, hash)
    ensures Spent(Apply(tokens, e), hash)
  {
    var i :| 0 <= i < |tokens| && tokens[i].tokenHash == hash && tokens[i].revokedAt.Some?;
    var after := Apply(tokens, e);
    assert after[i].tokenHash == hash && after[i].revokedAt.Some?;
  }

  lemma {:induction false} RunKeepsSpent(tokens: seq<Token>, events: seq<Event>, hash: string)
    requires Spent(tokens, hash)
    ensures Spent(Run(tokens, events), hash)
  {
    if events != [] {
      RunKeepsSpent(tokens, events[..|events| - 1], hash);
      ApplyKeepsSpent(Run(tokens, events[..|events| - 1]), events[|events| - 1], hash);
    }
  }

  /** A refresh token that was rotated once never rotates again, whatever happens in between. */
  lemma RotatesOnce(tokens: seq<Token>, first: Event, between: seq<Event>, again: Event)
    requires ChainsOk(tokens) && first.op.Rotate? && again.op.Rotate? && first.op.hash == again.op.hash
    requires Apply(tokens, first) != tokens
    ensures var later := Run(Apply(tokens, first), between);
            Apply(later, again) == later
  {
    var hash := first.op.hash;
    var after := Apply(tokens, first);
    var p := FindPredecessor(tokens, hash).value;
    assert after[p].tokenHash == hash && after[p].revokedAt.Some?;
    ApplyKeepsChains(tokens, first);
    RunKeepsChains(after, between);
    RunKeepsSpent(after, between, hash);
    SpentFindsNone(Run(after, between), hash);
  }

  lemma SpentFindsNone(tokens: seq<Token>, hash: string)
    requires Unique(tokens) && Spent(tokens, hash)
    ensures FindPredecessor(tokens, hash).None?
  {
    var i :| 0 <= i < |tokens| && tokens[i].tokenHash == hash && tokens[i].revokedAt.Some?;
    forall j | 0 <= j < |tokens| ensures !IsPredecessor(tokens[j], hash) {
      HashOwner(tokens, i, j);
    }
  }

  lemma HashOwner(tokens: seq<Token>, i: nat, j: nat)
    requires Unique(tokens) && i < |tokens| && j < |tokens|
    ensures tokens[i].tokenHash == tokens[j].tokenHash ==> i == j
  {
  }

  // ---- The table ----

  class TokenTable {
    var tokens: seq<Token>

    constructor ()
      ensures tokens == []
    {
      tokens := [];
    }

    method InsertOauthTokenPair(
      accountLive: bool, access: NewToken, refresh: Option<NewToken>, limit: Option<nat>, now: int) returns (outcome: Outcome)
      modifies this
      ensures (tokens, outcome) == Issued(old(tokens), accountLive, access, refresh, limit, now)
      ensures outcome == Granted ==>
        && |tokens| == |old(tokens)| + (if refresh.Some? then 2 else 1)
        && old(tokens) <= tokens && tokens[|old(tokens)|] == Fresh(access, None, now)
        && (refresh.Some? ==> tokens[|old(tokens)| + 1] == Fresh(refresh.value, None, now))
      ensures outcome != Granted ==> tokens == old(tokens)
    {
      if !accountLive { return Refused; }
      if !ClientCanBeIssued(tokens, now, access.clientId, limit) { return LimitExceeded; }
      var rows := [Inserted(access, None, now)];
      if refresh.Some? { rows := rows + [Inserted(refresh.value, None, now)]; }
      assert rows == PairRows(access, refresh, None, now);
      if !Unique(tokens + rows) { return UniqueViolation; }
      tokens := tokens + rows;
      outcome := Granted;
    }

    method RotateOauthRefreshToken(
      accountLive: bool, hash: string, access: NewToken, refresh: NewToken, limit: Option<nat>, now: int)
      returns (outcome: Outcome)
      modifies this
      ensures (tokens, outcome) == Rotated(old(tokens), accountLive, hash, access, refresh, limit, now)
      ensures outcome == Granted ==> exists p: nat :: Succeeds(old(tokens), tokens, p, hash, access, refresh, now)
      ensures outcome != Granted ==> tokens == old(tokens)
    {
      if !accountLive { return Refused; }
      if !ClientCanRotate(tokens, now, access.clientId, limit) { return LimitExceeded; }
      var predecessor := FindPredecessor(tokens, hash);
      if predecessor.None? { return Refused; }
      var before := tokens;
      tokens := tokens[predecessor.value := tokens[predecessor.value].(revokedAt := Some(now))];
      var rows := [Inserted(access, None, now), Inserted(refresh, predecessor, now)];
      assert rows == PairRows(access, Some(refresh), predecessor, now);
      if !Unique(tokens + rows) {
        tokens := before;
        return UniqueViolation;
      }
      tokens := tokens + rows;
      outcome := Granted;
      assert Succeeds(before, tokens, predecessor.value, hash, access, refresh, now);
    }
  }
}
