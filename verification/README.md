# Verified model of the 3ngram storage protocols and hook views

This project models the parts of 3ngram whose correctness is not visible in any one function, and
proves what they are for. `dafny verify dfyconfig.toml` checks everything.

| file | what it models |
|---|---|
| `Facts.dfy`, `FactOutcome.dfy`, `FactTimeline.dfy`, `FactReads.dfy`, `FactLocks.dfy` | the bi-temporal facts table: how one call orders, locks and chains its rows, and what it leaves whatever that order; what the windows say about any instant after any sequence of calls; the reads; concurrent calls and their locks |
| `Lineage.dfy`, `Ranking.dfy` | the bounded walk over revision edges, the rows kept of it, and the graph facts its two limits of 25 rest on |
| `CloserFence.dfy` | account erasure against the session closer's stamped transitions, statement by statement |
| `Credentials.dfy`, `CredentialEffects.dfy` | account erasure against credential minters, refresh rotation, password change and reset, and session-content writers |
| `OauthTokens.dfy` | the cap on live OAuth clients and the refresh-token chains |
| `Commitments.dfy` | the commitment state machine, its audit log, and the sweep |
| `Budget.dfy` | budget reservations with an explicit period |
| `Cursor.dfy`, `Json.dfy`, `JsonReads.dfy` | the search-cursor and proposals-cursor fingerprints up to the text that is hashed |
| `Briefing.dfy`, `Utf8.dfy` | the session briefing, its rune-safe cut, and the stamp that must match what was shown |
| `Redaction.dfy` | the redacted commitment history |
| `Sorting.dfy`, `Text.dfy`, `Members.dfy`, `Options.dfy` | shared helpers |

## How the models are built

Tables are sequences; a row's id is its position. The concurrent protocols are state machines: a
transaction is a series of statements under read committed, locks are held to its end, and a
schedule is any sequence of steps, where a step that is blocked or out of order changes nothing. A
theorem about `Run(s, schedule)` is therefore a theorem about every interleaving. Code that updates
state step by step is a class with methods, each proved equal to a function of the old state; the
properties are proved about that function. Where a variable is kept only so that a property can be
stated (`origin` of a fact row, `log`, `claimedAt`, `late`, `missed`), the file says so.

Some properties turned out to need a condition. The model keeps the code as it is, gives an input on
which the property fails, and states the condition, in both directions.

- Budget: usage is summed before reservations, by another statement. A call that is recorded and
  released between the two is in neither sum, so spend can exceed the cap; `Budget.BoundIsReached`
  reaches twice the cap. `Budget.CapHoldsExactly`: what is spent and may still be spent stays under the
  ceiling if and only if no decision lets in a call past which more slipped than its sums had to spare.
  `Budget.SpendIsBounded`: in every schedule the excess is at most the most that slipped past one
  decision.
- OAuth clients: the cap is checked as of the transaction's start, which is before it waits for the
  lock. If a client's last token runs out during the wait and its place is taken, the client is still
  let in, by an issue (`OauthTokens.CapFailsOutOfOrder`) and by a rotation
  (`OauthTokens.RotationOvertakes`). `OauthTokens.GrantExceedsExactly` and `OauthTokens.CapKeptExactly`
  say when, for one event and for a run in any order of starts.
- Cursor fingerprints: `localeCompare` ties some different keys, such as an accented letter written as
  one character and as two (`Cursor.ComposedKeysDiffer`). A value's canonical form tells the equivalent
  values from the others if and only if no two defined keys of one of its objects tie, at any depth
  (`Cursor.CanonicalDecidesExactly`).
- Commitment audit: a commitment can be resolved again while it is resolved, with a second event
  (`Commitments.RepeatedResolve`). When every transition names the status it moves from, and not its
  target, every event is a change (`Commitments.EveryEventIsAChange`); `Commitments.EventMarksChange`
  has both directions for one transition.
- Facts history: a value written into the past of a closed window overlaps it
  (`FactTimeline.BackdatedValueOverlaps`). For a key written single-valued,
  `FactTimeline.BackdateOverlapsExactly` and `FactTimeline.CallOverlapsExactly` say when, for one write
  and for a whole call. Rows with cardinality `many` and imported rows coexist by design.

## Model

| member | source | states |
|---|---|---|
| Facts.FactTable.InsertFacts | packages/db/src/facts-write.ts:98-126 | one call leaves exactly the table its plan describes, returns each row's id at the row's own position, and a rejected window leaves the table as it was |
| Facts.FactTable.GroupRows | packages/db/src/facts-write.ts:105-114 | a row is plain exactly when it is `many`, has an end or the call replays windows; the others are grouped by key in input order |
| Facts.GroupsByFields | packages/db/src/facts-write.ts:107-113 | which rows are plain, which are in the group of a key, and which keys there are, by the rows' own fields |
| Facts.FactTable.WriteSingleValued | packages/db/src/facts-write.ts:178-195 | the keys are written in sorted order and every row of every group is filed once |
| Facts.FactTable.WriteKey | packages/db/src/facts-write.ts:188-193 | one key's rows are written in start order, each told where the next one starts |
| Facts.FactTable.ReplaceValue | packages/db/src/facts-write.ts:241-262 | closes the older open values of the key, then adds the new row with the end the open and coming values leave it |
| Facts.FactTable.InsertPlain | packages/db/src/facts-write.ts:156-162 | the plain rows go in together or, when a window ends before it starts, not at all |
| Facts.FactTable.FilePlain | packages/db/src/facts-write.ts:121-123 | the plain rows' ids are put at the rows' own positions and no other position changes |
| Facts.KeyTextInjective | packages/db/src/facts-write.ts:112 | two rows are grouped and locked together only if user, subject and predicate are all equal |
| Facts.StartOrderAgrees | packages/db/src/facts-write.ts:211-216 | ordering by millisecond and then explicit-before-implicit is the microsecond order of starts, although now() is truncated for the comparison |
| Facts.PlanLinked | packages/db/src/facts-write.ts:189-193 | a row told that another starts next is followed by that row, of the same key and no earlier start |
| Facts.PlanWritesEachRowOnce | packages/db/src/facts-write.ts:104-125 | a call writes every row it was given and none twice |
| Facts.SortedKeysAre | packages/db/src/facts-write.ts:186-187 | the keys are taken once each, in one total order |
| Text.LeReads | packages/db/src/facts-write.ts:186-186 | a text is at or before another when it is a prefix of it, or smaller where they first differ |
| FactOutcome.RefusedExactly | packages/db/src/facts-write.ts:156-162 | a call is refused whole exactly when some row is given an end before its start |
| FactOutcome.RowsAreStored | packages/db/src/facts-write.ts:98-126 | every row of an accepted call is stored once, as it was given, at the place its id names |
| FactOutcome.StandaloneKeepsItsEnd | packages/db/src/facts-write.ts:107-111 | a `many` row, a row with an end, and every row of a replaying call keep exactly the end given, open when none was |
| FactOutcome.StandaloneClosesNothing | packages/db/src/facts-write.ts:107-111 | a call of such rows only leaves every earlier row as it was |
| FactOutcome.OldRowOutcome | packages/db/src/facts-write.ts:249-252 | an open row ends at the first start, from its own on, of the call's single values for its key, and stays open when there is none; nothing else of an old row changes |
| FactOutcome.NewRowOutcome | packages/db/src/facts-write.ts:178-262 | a single-valued row ends at the first start after its own, of an open value in the table or of a later row of the call, and stays open when there is none |
| FactOutcome.OrderedIsLater | packages/db/src/facts-write.ts:205-217 | one key's rows are written from the earliest to the latest: by microsecond start, an implicit start after an explicit one, then by place |
| FactTimeline.CallsSettle | packages/db/src/facts-write.ts:241-262 | after any calls, every end a caller did not choose is open or the start of another such row of the key, and a window is empty only on a tie its successor won |
| FactTimeline.HeadIsAlwaysRead | packages/db/src/facts-read.ts:121-133 | after any calls in any order of starts, the latest value at or before an instant, last written on a tie, passes the as-of test for that instant |
| FactTimeline.NoGaps | packages/db/src/facts-read.ts:121-133 | from a key's earliest start on, every instant has a value |
| FactTimeline.CallExtends | packages/db/src/facts-write.ts:249-261 | a call only appends rows, and changes an old row at most by closing it no earlier than it starts |
| FactTimeline.SingleValuedKey | packages/db/src/facts-write.ts:178-195 | a key only ever written single-valued has exactly one open row after every call, no window ends before it starts, and there is no gap |
| FactTimeline.InOrderRefinesTimeline | packages/db/src/facts-write.ts:241-262 | when starts do not go back, the as-of test picks the last write at or before the instant and nothing else |
| FactTimeline.CurrentIsAsOfNow | packages/db/src/facts-read.ts:121-133 | when nothing starts later than now, the current row and the row as of now are the same |
| FactTimeline.CallWindowsDisjoint | packages/db/src/facts-write.ts:174-176 | whatever the table held, two windows one call writes for a key never overlap |
| FactTimeline.BackdateOverlapsExactly | packages/db/src/facts-write.ts:238-262 | one write, anywhere in its call, keeps a key's windows disjoint if and only if no closed window of the key has time in the window the new row is given |
| FactTimeline.CallOverlapsExactly | packages/db/src/facts-write.ts:178-195 | a call that writes a key single-valued keeps the key's windows disjoint if and only if every window of the key closed before it has run out by every start it writes |
| FactTimeline.BackdatedValueOverlaps | packages/db/src/facts-write.ts:238-240 | values written for 0, 10 and then 5 leave two windows that both hold at 5 |
| FactReads.GetFactsReturnsMatches | packages/db/src/facts-read.ts:274-318 | a read returns every matching row once, in the read's order; with a limit, what is left out comes after everything returned |
| FactReads.CurrentRead | packages/db/src/facts-read.ts:121-160 | without an instant, exactly the user's open facts whose memory is neither superseded nor archived |
| FactReads.AsOfRead | packages/db/src/facts-read.ts:121-160 | for an instant, exactly those whose window holds it and whose memory had not been superseded by then |
| FactReads.RangeRead | packages/db/src/facts-read.ts:191-240 | for a range, every generation whose window overlaps it, whatever became of its memory; a range without bounds is refused |
| FactReads.ReadsInOrder | packages/db/src/facts-read.ts:289-313 | newest recorded first, or earliest start first for a range, ids breaking ties |
| FactReads.LimitKeepsFirst | packages/db/src/facts-read.ts:314-317 | a limit keeps the first rows of the unlimited answer |
| FactReads.HeadIsReturned | packages/db/src/facts-read.ts:121-160 | the latest value at or before an instant is returned whenever its memory had not been superseded by then |
| FactReads.AsOfReadIsTimeline | packages/db/src/facts-read.ts:121-160 | for a key written in order an as-of read returns the timeline's value and nothing else |
| FactReads.OverlapsExactly | packages/db/src/facts-read.ts:191-198 | the range test holds exactly when some instant lies in both windows, or one is empty and strictly inside the other |
| FactLocks.LocksExclude | packages/db/src/facts-write.ts:169-172 | in every interleaving no key has two holders |
| FactLocks.CommitsHoldingAll | packages/db/src/facts-write.ts:186-194 | a transaction holds only keys it writes, and commits only when it holds every one of them |
| FactLocks.SomeoneMoves | packages/db/src/facts-write.ts:186-187 | following holders of wanted keys climbs the key order, so it ends at a transaction that can move |
| FactLocks.NoDeadlock | packages/db/src/facts-write.ts:186-187 | in every reachable state with unfinished calls some call can move, and some continuation commits them all |
| Lineage.WalkRows | packages/db/src/memory-history-queries.ts:171-188 | the recursive query's rows at a depth are exactly the simple walks of that length |
| Lineage.MinDepthIsDistance | packages/db/src/memory-history-queries.ts:189-193 | the least depth of a memory is its distance in the undirected revision graph, up to 25 |
| Lineage.FoundIsNearPart | packages/db/src/memory-history-queries.ts:171-193 | the walk finds exactly the memories of the component within distance 25 |
| Lineage.FarMeansMany | packages/db/src/memory-history-queries.ts:186-198 | if a memory of the component lies beyond the depth bound, the walk already holds 26 memories |
| Lineage.RowsAreNearest | packages/db/src/memory-history-queries.ts:194-199 | the 26 rows taken are the 26 nearest of the whole component by distance and id |
| Lineage.NodesTruncatedExactly | packages/db/src/memory-history-read.ts:312-315 | more than 25 rows come back exactly when the component has more than 25 memories |
| Lineage.TruncatedExactly | packages/db/src/memory-history-read.ts:312-325 | the answer is marked truncated if and only if the component has more than 25 memories or more than 50 revision edges join those shown; it shows as many of each as the limits allow |
| Lineage.NodesInOrder | packages/db/src/memory-history-queries.ts:194-205 | shown memories are listed by distance, creation time and id |
| Lineage.EdgesInOrder | packages/db/src/memory-history-queries.ts:210-230 | shown edges are the earliest by creation time and id, in that order |
| Lineage.LeftOutComesLater | packages/db/src/memory-history-queries.ts:194-199 | a memory of the component that is not shown is no nearer than any that is |
| Lineage.DroppedIsFarthest | packages/db/src/memory-history-read.ts:313-313 | the row dropped of 26 is as far as any that is kept, although it is dropped under another order |
| Lineage.KeptClosedTowardsSeed | packages/db/src/memory-history-read.ts:312-319 | every kept node other than the inspected memory has a kept neighbour strictly nearer to it |
| Lineage.ShownLineageConnected | packages/db/src/memory-history-read.ts:312-319 | unless the 50-edge cap bites, the shown nodes and edges are one connected graph around the inspected memory |
| Lineage.SeedShown | packages/db/src/memory-history-read.ts:312-319 | the inspected memory is always among the shown nodes |
| Lineage.UntruncatedIsWhole | packages/db/src/memory-history-read.ts:325-325 | a lineage not marked truncated is the whole component with all its revision edges |
| Lineage.RevisionsShown | packages/db/src/memory-history-queries.ts:178-185 | in an answer not truncated, an edge that supersedes or updates has both ends shown or neither, and is shown exactly in the first case |
| Lineage.OnlyRevisionsShown | packages/db/src/memory-history-queries.ts:210-230 | no other edge is ever shown |
| CloserFence.RunKeepsInv | packages/db/src/commitments.ts:478-521 | in every schedule a closer past its lock holds the row, and past its check no erasure has committed since its claim |
| CloserFence.NothingLandsLate | packages/db/src/commitments.ts:490-521 | in every schedule, no closer that claimed before an erasure committed lands after it |
| CloserFence.ReasonsAreNewer | packages/db/src/account-delete.ts:158-163 | evidence text found on a commitment after an erasure was written by a closer that both claimed and landed after it |
| CloserFence.ErasureIsFinal | packages/db/src/account-delete.ts:241-279 | with no claim after the erasure, no commitment carries evidence text |
| CloserFence.CloserAlone | packages/db/src/commitments.ts:478-571 | from its claim on, a closer that finds the row free writes status and reason, and logs it, exactly when the epoch is still the one claimed and the status is the one it saw and may move; otherwise nothing changes |
| CloserFence.ErasureCompletes | packages/db/src/account-delete.ts:157-279 | an erasure that is not held up ends with no reason left, every status kept, every epoch one further and every lock free |
| CloserFence.OnlyCommitsWrite | packages/db/src/commitments.ts:478-571 | commitments change by a landing, an erasure or a sweep only, epochs by an erasure or a reopened run only |
| CloserFence.OtherWriters | packages/db/src/commitments.ts:672-687 | a sweep expires a live row nobody holds, and a reopened run moves its own epoch |
| CloserFence.ClaimAndWait | packages/db/src/commitments.ts:478-489 | a claim takes the run's present epoch for its fence, and a row that is held is waited for |
| CloserFence.ErasureBegins | packages/db/src/account-delete.ts:121-145 | one erasure runs at a time, and one on an erased account is over at once |
| CloserFence.FoldedCheckLeaks | packages/db/src/commitments.ts:464-477 | with the epoch read before the lock wait, some schedule leaves evidence text on an erased account |
| Credentials.RunKeepsInv | packages/db/src/credential-guard.ts:64-77 | in every schedule only a transaction that found the account live and still excludes its erasure has written, and an erasure's remaining purges cover every committed credential |
| Credentials.ErasedHasNoCredential | packages/db/src/account-delete.ts:121-145 | in every schedule an erased account has no live session, API key, OAuth token or code, reset or verification token and no session content, and its hash is the erased sentinel |
| Credentials.ErasedForever | packages/db/src/account-delete.ts:330-359 | whatever is under way when an erasure commits, the account's credentials and user row never change again |
| Credentials.SecondErasureWritesNothing | packages/db/src/account-delete.ts:126-145 | on an erased account another erasure never gets past its re-read of the user |
| CredentialEffects.TransactionAlone | packages/db/src/auth-sessions.ts:133-182 | a transaction that is let run leaves exactly what its kind is for: which accounts it acts on, what it adds, which kinds it ends, the hash, and its locks given back |
| OauthTokens.LastIssued | packages/db/src/auth-oauth-tokens.ts:105-117 | the grouped maximum is attained by a live token of the client and exceeded by none |
| OauthTokens.RecencySpec | packages/db/src/auth-oauth-tokens.ts:101-119 | the list holds each live client once with its latest issue, newest first and by id on a tie |
| OauthTokens.RecencyOfTokens | packages/db/src/auth-oauth-tokens.ts:101-119 | in the tokens' own fields: a client is listed if it has an unrevoked token that has not run out, with the latest issue of these, newest first |
| OauthTokens.RankIsAhead | packages/db/src/auth-oauth-tokens.ts:101-119 | a client's place in the list is the number of live clients newer than it |
| OauthTokens.IssueRule | packages/db/src/auth-oauth-tokens.ts:121-143 | a client may be issued to if and only if fewer than the limit of live clients come before it, all of them when it is not live |
| OauthTokens.RotateRule | packages/db/src/auth-oauth-tokens.ts:145-156 | a client may rotate if and only if it is live and fewer than the limit come before it |
| OauthTokens.StepKeepsCap | packages/db/src/auth-oauth-tokens.ts:176-184 | no issue, rotation or revocation raises the count of live clients above the larger of the limit and what it was |
| OauthTokens.GrantExceedsExactly | packages/db/src/auth-oauth-tokens.ts:112-113 | an issue, rotation or revocation takes the count at its lock over the limit exactly when its client's last token ran out between start and lock, the limit was reached without it, and nobody else's place is given up |
| OauthTokens.OwnPredecessorKeeps | packages/db/src/auth-oauth-tokens.ts:212-224 | rotating the client's own token gives up nobody else's place |
| OauthTokens.CapKept | packages/db/src/auth-oauth-tokens.ts:121-156 | in whatever order transactions started, a run in which none overtakes keeps at most the limit, or at most the starting count when that was higher |
| OauthTokens.CapKeptExactly | packages/db/src/auth-oauth-tokens.ts:121-156 | starting within the limit, a run stays within it after every event if and only if none of its events overtakes |
| OauthTokens.CapKeptInOrder | packages/db/src/auth-oauth-tokens.ts:121-156 | in particular when transactions get the lock in the order they started |
| OauthTokens.CapFailsOutOfOrder | packages/db/src/auth-oauth-tokens.ts:112-113 | two clients, limit two, lock order against start order: an issue makes three clients live |
| OauthTokens.RotationOvertakes | packages/db/src/auth-oauth-tokens.ts:145-156 | a rotation that waits in the same way makes three clients live too |
| OauthTokens.OnlyNewestServed | packages/db/src/auth-oauth-tokens.ts:130-139 | at or above the limit, a client that is granted tokens was live and among the newest |
| OauthTokens.RunKeepsChains | packages/db/src/auth-oauth-tokens.ts:212-229 | in every run token hashes are unique, no two tokens share a predecessor, and every predecessor is revoked |
| OauthTokens.ChainsAreLinear | packages/db/src/auth-oauth-tokens.ts:188-200 | two tokens of one issuance at the same depth are the same token |
| OauthTokens.OneUnrevokedPerChain | packages/db/src/auth-oauth-tokens.ts:188-200 | in every run at most the tip of a chain is unrevoked |
| OauthTokens.RotatesOnce | packages/db/src/auth-oauth-tokens.ts:212-224 | a refresh token that was rotated once never rotates again, whatever happens in between |
| OauthTokens.RotationOutcome | packages/db/src/auth-oauth-tokens.ts:201-231 | which of its answers a rotation gives and when; a granted one revokes one unrevoked refresh token and adds an unlinked access token and a refresh token linked to it, any other leaves the table alone |
| OauthTokens.RotationExtendsChain | packages/db/src/auth-oauth-tokens.ts:225-228 | the new refresh token is in the chain of the one it replaces, one deeper, and every other token keeps its chain and place |
| OauthTokens.IssueOutcome | packages/db/src/auth-oauth-tokens.ts:170-186 | the same for an issue: its rows are linked to nothing, and there is a refresh row exactly when one was given |
| OauthTokens.RevocationOutcome | packages/db/src/account-delete.ts:336-340 | a revocation stamps the unrevoked tokens it names and nothing else |
| OauthTokens.TokenTable.InsertOauthTokenPair | packages/db/src/auth-oauth-tokens.ts:170-186 | refused on a tombstone, refused over the limit, otherwise both rows or a unique violation with nothing changed |
| OauthTokens.TokenTable.RotateOauthRefreshToken | packages/db/src/auth-oauth-tokens.ts:201-231 | one predecessor revoked and its successor pair added, or nothing changed |
| Commitments.EveryRunIsAudited | packages/db/src/commitments.ts:555-593 | after any run a commitment's status is what its last lifecycle event says, consecutive events are equal in target or a legal edge, and resolved_at is set exactly when resolved |
| Commitments.EveryEventIsAChange | packages/db/src/commitments.ts:520-593 | in a run whose transitions all name a status to move from other than their target, no event of a log repeats the status of the one before |
| Commitments.RepeatedResolve | packages/db/src/commitments.ts:522-533 | without that, a resolved commitment is resolved again with a second event |
| Commitments.TransitionKeepsConsistent | packages/db/src/fsm-trigger.ts:18-41 | a transition the trigger passes keeps row and log in agreement, for its own commitment and every other |
| Commitments.ExpireKeepsConsistent | packages/db/src/commitments.ts:673-695 | the bulk expiry and its loop of events keep every row and log in agreement |
| Commitments.LifecycleArchives | packages/db/src/commitments.ts:688-695 | the loop adds one archive event to the log of each overdue memory and to no other log |
| Commitments.LegalMoves | packages/db/src/fsm-trigger.ts:18-41 | anything may be reopened, and only a live commitment moves anywhere else |
| Commitments.TransitionRefused | packages/db/src/commitments.ts:478-571 | when each refusal is given, in the order they are looked for; each changes nothing |
| Commitments.TransitionOutcome | packages/db/src/commitments.ts:541-583 | otherwise one row is moved, `resolved_at` set or cleared, the reason replaced, and one event of the target's kind added |
| Commitments.CreateOutcome | packages/db/src/commitments.ts:201-246 | made only for a live memory of its type that has none, and open |
| Commitments.SweepOutcome | packages/db/src/commitments.ts:666-710 | late live rows are expired without a reason and logged once, the other live rows due to be shown are cleared, and nothing else changes |
| Commitments.SweepCounts | packages/db/src/commitments.ts:710-710 | the two counts are of exactly these rows |
| Commitments.CommitmentStore.CreateCommitment | packages/db/src/commitments.ts:199-255 | needs a live commitment-type memory without a commitment; adds an open row and its create event |
| Commitments.CommitmentStore.TransitionCommitment | packages/db/src/commitments.ts:422-593 | the refusals in the order they are made, then the moved row and its event |
| Commitments.CommitmentStore.SweepCommitments | packages/db/src/commitments.ts:666-710 | both legs, the archive events, and the two counts |
| Budget.SpendIsBounded | packages/db/src/budget-read.ts:162-220 | in every schedule counted spend, with what may still be charged, exceeds the larger of the cap and the starting spend by at most the most that slipped past one decision |
| Budget.CapHoldsExactly | packages/db/src/budget-read.ts:192-211 | spend and what may still be charged stay under that ceiling throughout a schedule if and only if no decision overruns |
| Budget.DecisionOverrunsExactly | packages/db/src/budget-read.ts:199-211 | a decision takes what is committed over the ceiling exactly when it lets in a call that can still be charged and more slipped past its two sums than they had to spare |
| Budget.DecisionBalances | packages/db/src/budget-read.ts:127-138 | at a decision, what is committed and what the two sums count without need equal what they count and what slipped past them |
| Budget.CallAlone | packages/db/src/budget-read.ts:162-211 | under the lock a call is reserved exactly when starting spend, the period's usage, the reservations of the last two minutes and its estimate come to no more than the override, else the tier's cap, else the default |
| Budget.CallSettles | packages/db/src/budget-read.ts:178-220 | a reserved call recorded in time is charged its cost, or the fallback, if the period has the instant, and its reservation is gone |
| Budget.CallFails | packages/db/src/budget-read.ts:214-220 | a reserved call that fails is released without a charge |
| Budget.CapHolds | packages/db/src/budget-read.ts:192-211 | when no call is recorded and released between another's two sums, counted spend never exceeds the ceiling |
| Budget.BoundIsReached | packages/db/src/budget-read.ts:192-203 | for every cap some schedule reaches all of the bound, twice the cap |
| Budget.RunKeepsInv | packages/db/src/budget-read.ts:162-227 | in every schedule the lock has one holder, a reader's usage sum misses exactly the late rows, and what is committed stays under the bound |
| Cursor.CanonicalDecides | apps/server/src/cursor.ts:68-83 | when no two defined keys of one object tie in one of the two values, they have one canonical form exactly when they are equivalent, at every nesting depth |
| Cursor.CanonicalDecidesExactly | apps/server/src/cursor.ts:68-83 | a value's form tells the equivalent values from all others if and only if no two defined keys of one of its objects tie, at any depth |
| Cursor.KeyOrderIrrelevantIff | apps/server/src/cursor.ts:75-81 | an object's entries can be listed in any order with one form exactly when no two of its own defined keys tie |
| Sorting.SortKeepsBefore | apps/server/src/cursor.ts:78-78 | the stable sort leaves two elements that are already in order as they stand, ties included |
| Cursor.ComposedKeysDiffer | apps/server/src/cursor.ts:78-78 | an accented letter as one character and as two, tied by the comparison, give two forms of one filter set |
| Cursor.PreHashDecides | apps/server/src/cursor.ts:113-127 | two searches, one without tied keys, hash the same text exactly when query, policy flag and bound filters agree |
| Cursor.SearchesDecide | apps/server/src/cursor.ts:113-127 | the same in the search's own terms: one text exactly for the same query, policy mark and scope in force, be it the policy's or the filters' own, and equivalent remaining filters |
| Cursor.ScopesToldApart | apps/server/src/cursor.ts:119-120 | a search under an effective scope shares its text only with searches under that very scope |
| Cursor.BoundIsInForce | apps/server/src/cursor.ts:119-120 | what is bound is the policy's scope when there is one, and every other filter as it was |
| Cursor.ProjectSearchText | apps/server/src/cursor.ts:121-124 | the text of a search of one project under a supplied scope, written out |
| Cursor.ProposalsDecide | apps/server/src/cursor.ts:176-179 | where the comparison keeps the five fixed keys apart, two proposal walks hash the same text exactly when surface, kinds as a set with repeats, status and tenant agree |
| Cursor.ProposalsBind | apps/server/src/cursor.ts:176-179 | what a walk is bound to: surface, kinds, status when there is one, tenant and order |
| Cursor.UniqueSplit | apps/server/src/cursor.ts:121-124 | the hashed text splits in one way into query, filters and flag, newlines in the query included |
| Json.PrintInjective | apps/server/src/cursor.ts:121-121 | different JSON values print differently (RFC 8259, sections 4, 5 and 7) |
| Json.PrintOneLine | apps/server/src/cursor.ts:121-124 | a printed value holds no newline |
| JsonReads.EscapeReads | apps/server/src/cursor.ts:121-121 | a reader of JSON strings gets every escaped character back (RFC 8259, section 7) |
| JsonReads.PrintForms | apps/server/src/cursor.ts:121-121 | words and numbers are printed bare, lists in brackets (RFC 8259, sections 3 and 5) |
| Utf8.EncodeInjective | cmd/3ngram-hook/session.go:324-335 | different texts have different bytes (RFC 3629, section 3) |
| Utf8.RuneWidth | cmd/3ngram-hook/session.go:324-335 | how many bytes a rune takes, and what its first byte says of that (RFC 3629, section 3) |
| Utf8.StartIsBoundary | cmd/3ngram-hook/session.go:331-333 | a byte starts a rune exactly when its offset is a rune boundary |
| Utf8.RuneSafeCut | cmd/3ngram-hook/session.go:324-335 | on any bytes and any limit the loop ends at the last rune start not past the limit, or at an end of the text |
| Utf8.CutIsLargestBoundary | cmd/3ngram-hook/session.go:323-335 | on valid text the cut is the largest rune boundary not past the limit |
| Utf8.KeptIsValid | cmd/3ngram-hook/briefing.go:209-214 | what is kept is the encoding of the first runes of the text |
| Briefing.StampMatchesText | cmd/3ngram-hook/briefing.go:205-216 | for every answer and budget: the bytes kept are the runes the budget leaves, and the stamp is the first hundred distinct commitments in render order among those whose whole line lies in them |
| Briefing.StampIsShown | cmd/3ngram-hook/briefing.go:358-406 | each stamped memory is that of a commitment wholly shown, no id twice, a hundred at most |
| Briefing.ShownIsStamped | cmd/3ngram-hook/briefing.go:358-406 | a commitment wholly shown is left out only when the stamp has its hundred, or the id already |
| Briefing.PlacedItems | cmd/3ngram-hook/briefing.go:410-455 | the commitments recorded are the overdue ones and then the others, none of a section counted empty |
| Briefing.TextReads | cmd/3ngram-hook/briefing.go:410-428 | the headings in their order, each followed by its own section |
| Briefing.SectionsRead | cmd/3ngram-hook/briefing.go:433-484 | a section is `None`, or its lines and then how many more there are |
| Briefing.LineReads | cmd/3ngram-hook/briefing.go:438-446 | a commitment's line has its topic and status, its date when it has one, and a mark when overdue |
| Briefing.DecimalReads | cmd/3ngram-hook/briefing.go:452-454 | the count printed reads back to the count |
| Briefing.LinesStandInText | cmd/3ngram-hook/briefing.go:433-455 | each recorded commitment's whole line stands in the text at the place recorded for it |
| Briefing.OffsetsAreAbsolute | cmd/3ngram-hook/briefing.go:430-450 | the byte offsets recorded while rendering are those of the lines in the finished text |
| Briefing.PlacedInOrder | cmd/3ngram-hook/briefing.go:410-428 | the recorded ends increase strictly across both sections |
| Briefing.CollectsFirstDistinct | cmd/3ngram-hook/briefing.go:385-406 | the collector keeps the first hundred distinct commitments |
| Briefing.KeepsEarliest | cmd/3ngram-hook/briefing.go:392-397 | what is kept of a list is, for each id, its earliest line, in order |
| Briefing.CutCommutes | cmd/3ngram-hook/briefing.go:358-366 | capping and deduplicating the whole list and then cutting is the same as cutting first |
| Briefing.WithinIsKept | cmd/3ngram-hook/briefing.go:358-366 | comparing byte offsets with a cut at a rune boundary is comparing rune positions |
| Briefing.SurvivingBriefed | cmd/3ngram-hook/briefing.go:358-366 | the memories of the rows that end within the cut, in order |
| Briefing.Renderer.Add | cmd/3ngram-hook/briefing.go:385-406 | adds a row unless the cap is reached or its memory is there, and keeps the seen set in step with the rows |
| Briefing.Renderer.WriteCommitments | cmd/3ngram-hook/briefing.go:433-455 | one section's text is appended and its rows recorded with their absolute offsets |
| Briefing.Renderer.RenderBriefing | cmd/3ngram-hook/briefing.go:410-428 | the whole text and the rows collected over both commitment sections |
| Briefing.CutBriefing | cmd/3ngram-hook/briefing.go:197-216 | an empty answer gives the fallback and stamps nothing; up to 200 bytes over the budget the whole text is returned, beyond that the most whole runes the budget holds and an ellipsis; the stamp is of the commitments wholly in what is returned |
| Redaction.RedactHistory | cmd/3ngram-hook/commitments_show.go:461-511 | what is shown lies inside the selector, successors before predecessors, and shown plus hidden is the input for nodes (less the inspected memory), relationships and edges |
| Redaction.InsideMeans | cmd/3ngram-hook/commitments_show.go:324-345 | what lies inside a selector: its project, in its scope when it names one, or no project in that scope when it asks for these |
| Redaction.ShownIsInside | cmd/3ngram-hook/commitments_show.go:478-502 | the nodes and relationships shown are exactly those inside, but for the inspected memory among the nodes |
| Redaction.NothingToHide | cmd/3ngram-hook/commitments_show.go:461-511 | an answer all inside the selector is shown as it came, successors first, with nothing counted hidden |
| Redaction.OutputIsInsideOnly | cmd/3ngram-hook/commitments_show.go:457-511 | the output apart from the counts is the same exactly when one answer is the other with nodes, relationships and edges that touch the outside put in, left out or altered anywhere |
| Redaction.OutsideChangesOnlyCounts | cmd/3ngram-hook/commitments_show.go:478-509 | and then the three counts differ by exactly what was put in or left out |
| Redaction.SameVisible | cmd/3ngram-hook/commitments_show.go:477-502 | what lies outside the selector does not change who is visible |
| Redaction.VisibleIsFiled | cmd/3ngram-hook/commitments_show.go:477-502 | a memory is visible exactly when it is the inspected one or the answer itself files it inside the selector |
| Redaction.ShownEdgesNameVisible | cmd/3ngram-hook/commitments_show.go:501-509 | a lineage edge is shown exactly when the answer files both its ends inside the selector or they are the inspected memory |
| Redaction.KeepNodes | cmd/3ngram-hook/commitments_show.go:478-488 | the shown nodes, the ids made visible and the count hidden |
| Redaction.KeepRelationships | cmd/3ngram-hook/commitments_show.go:489-502 | one pass over relationships, adding to what the pass before kept |
| Redaction.KeepEdges | cmd/3ngram-hook/commitments_show.go:503-509 | edges with both ends visible are shown and the rest counted |

## Left out

- SQL text, the query builder, row-level security, pools and savepoints: each query is modelled by what it selects.
- Advisory lock names: `hashtextextended` and `hashtext` are taken to be injective; two keys with one hash would share a lock.
- Facts.FactTable.InsertFacts: one call is one atomic step on a key's rows, which the per-key lock gives for single-valued writers; a plain row of the same key takes no lock, and its commit between two statements of another call is not modelled.
- Facts.StartOrderAgrees: covers a driver that truncates now() to a millisecond, as the source says it does; the GREATEST in the end of a window is modelled but the rounding it guards against is not.
- FactReads.GetFactsReturnsMatches: the recorded-at filter is modelled as a filter only; what an earlier reader would have seen of rows closed since is not claimed, as the source's own note says.
- Lineage: direct relationships, `supersededIds`, `lifecycleState` and the audit-event section of the history read are not modelled; the walk, the two limits and the induced edges are.
- CloserFence: commitments and runs are fixed during a schedule; a commitment created or a run opened while an erasure runs is not modelled, nor are the interactive transition, the closer's own claim and settle writes, or the request it may already have sent.
- CloserFence.ReasonsAreNewer: speaks of `last_resolution_reason`; other columns the erasure clears are not modelled.
- Credentials: one account; other users take other locks. Email verification, signup retry and resend, and the unlocked `updateUserPassword`, are not modelled. Expiry, logout and revocation are one step that removes a credential at any time.
- Credentials.ErasedHasNoCredential: verification tokens are covered for the guarded minter only; the resolver that resends a verification link takes another lock and is not part of this model.
- OauthTokens.CapKept: the limit is the same through a run and each pair of tokens is for one client, which the caller ensures; counts are taken at the instants transactions get the lock.
- Commitments.EveryRunIsAudited: other writers of a memory's event stream and of its commitment row (memory revision, memory writes) are not part of this model, and each operation is one step; the two legs of a sweep are separate steps.
- Commitments.CommitmentStore.TransitionCommitment: the session attach decision is a parameter, and mapping of driver errors to typed errors is not modelled.
- Budget.SpendIsBounded: assumes a fixed cap and period, that a call's charge is at most its estimate, that it is recorded before it is released, and within the reservation's lifetime; the rolling default window and rounding to twelve decimals are not modelled.
- Cursor.PreHashDecides: the hash and its truncation to sixteen digits, the base64 and JSON codec of tokens, and the decoding errors are not modelled; `localeCompare` is any comparison that orders every pair consistently, ties allowed, and integer-like keys, which JavaScript lists first, are left to that order too.
- Text.Le: compares by code point, where JavaScript compares UTF-16 units; the results use only that the order is total and never ties.
- Json.Print: numbers are given by their text and lone surrogates do not occur; NaN and negative zero are not modelled.
- Briefing.StampMatchesText: text is valid UTF-8, as decoded JSON is; a project name read from a file system may not be. The request, its failure path and the selector are not modelled.
- Redaction.RedactHistory: decoding and completeness checks of the answer are not modelled, nor the proposals and evidence block. Relationship edges are shown with their partner without a check of their ends, as in the source, so `ShownEdgesNameVisible` is about lineage edges.
- Table row order: where SQL leaves the order of an UPDATE's rows open, the model takes table order (sweep events) or any order (redaction of commitments).
- The Stop-nudge handshake, plugin deferral, project derivation, GitHub reference scanning, HTTP clients, CLI, mailer, logging, metrics, embeddings, vector search and queues.
