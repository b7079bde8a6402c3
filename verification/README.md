# Protocols of the dating platform backend, verified

This project models the parts of the Go backend whose comments promise something strong and
whose code is short, and proves those promises in Dafny 4.11.  `dafny verify dfyconfig.toml`
checks everything.

* **Matching** (`MatchTables`, `MatchStore`, `SwipeProtocol`, `SwipeSerializable`,
  `SwipeTheorems`, `SwipeAlone`, `Uuid`).  `Swipe`, `Block` and `Unblock` as READ COMMITTED transactions, one
  SQL statement a step, with a pair-scoped advisory lock whose key may be any function of the
  pair, aborts between any two statements, and uncommitted writes nobody else sees.  A history
  variable, the log, places a swipe at its block check; every run is proved equal to the serial
  run of its log.  `MatchStore` is the same service as a class updating its tables in place.
* **Sessions** (`SessionRows`, `SessionProtocol`, `SessionSafety`, `SessionTheorems`,
  `SessionStore`).  Login, refresh, logout, password reset and the sweep as transactions with
  row locks; a statement that waited re-evaluates its WHERE clause on the row it then finds; the
  revoke of a replayed session runs after the rollback.
* **Rate limiter** (`RateLimit`).  INCR and TTL are one step, EXPIRE another that may be late,
  repeated or lost.
* **Outbox** (`OutboxRows`, `OutboxProtocol`, `OutboxDrainer`) and **stream consumer**
  (`QueueProtocol`, `QueueCalm`, `QueueConsumer`).  Any number of workers, one command a step, a
  crash possible between any two.
* **Pagination** (`Keyset`, `Cursor`, `Traits`, `Feed`, `MatchList`, `Messages`, `Order`) and the
  **age filter** (`Age`).  Pages over tables that change between requests, cursors as the text
  they travel as, scores as exact numbers of millionths.
* **Thumbnails** (`Float64`, `Cuts`, `Boxes`, `Thumbnail`), with the rounding of float64 arithmetic,
  and **object keys and signed queries** (`Uri`, `Query`).
* **Caches** (`CacheSteps`, `Cache`), **unread counters** (`UnreadCounters`, `Notifications`) and
  **assessment scoring** (`ScoreSpec`, `Scoring`).

A protocol module has a `State`, a `Step` datatype, `Enabled`, `Do`, and `IsRun`/`After` for whole
runs; its theorems quantify over every run.  A module named after a store or a service is the
imperative form of the same code: a class whose methods are proved against the functions the
theorems are about.

Times are integers: seconds for sessions, microseconds for rows and cursors, ticks of any length for
keys and cache entries.  Ids are natural numbers (see `Uuid`), and a token is identified with its
hash.  `Wrappers`, `Basics` and `Order` hold what several models share.

Six things the proofs brought out:

* The limiter's bound is one better than twice the limit: 2 * limit - 1, attained for every limit
  as soon as the window has two ticks; a window of one tick admits no more than the limit.
* A consumed event can be lost in one way only: its dead-letter write fails and the entry is
  acknowledged all the same (`QueueCalm.LostIffDeadLetterFailed`).
* An acknowledgement that fails still deletes the attempt counter, so a dead-lettered entry whose
  XACK failed is delivered again and counts from one (`QueueProtocol.FailedAckStartsOver`).
* A thumbnail can miss the last row or column of its source, because a float64 product falls just
  short of an integer: of an image of 321 by 248 pixels shrunk to 320, row 247 is sampled by no
  pixel.  It never misses more than that, and misses it iff the last cut falls short
  (`Thumbnail.ThumbnailCoversTheImage`).
* The discovery query asks stored traits to be numbers, not to be within [0, 1], and a score below
  zero makes a cursor the service itself refuses; a cursor is accepted exactly when its score is
  within [0, 1] (`Cursor.EmittedCursorAccepted`).  No call of the service stores such a trait: what
  Submit stores is complete, so only a direct write to the table reaches that input.
* Outbox leases: the comment on the constants speaks of doubling up to ten minutes
  (backend/internal/outbox/drainer.go:19-22), but the statement caps the exponent at 6, so the
  longest lease is 320 seconds.  The model follows the statement.

## Model

| member | source | states |
|---|---|---|
| MatchStore.Store.AssertReachable | backend/internal/matching/service.go:489-511 | A call is refused exactly when the target does not exist or either side blocks the other; the viewer is told of a block only when it is their own. |
| MatchStore.Store.InsertSwipe | backend/internal/matching/repo.go:260-274 | The first swipe of a direction stays for good: a conflict or a missing user changes nothing. |
| MatchStore.Store.InsertMatch | backend/internal/matching/repo.go:314-339 | One row per unordered pair, whichever side asks, and the id handed back is the one in the table. |
| MatchStore.Store.SwipeBody | backend/internal/matching/service.go:226-315 | Statement by statement, the tables and the answer are those of the reference call, and a refused swipe has written nothing. |
| MatchStore.Store.Swipe | backend/internal/matching/service.go:226-315 | Committed, the call is the reference call; failed, it leaves every table as it was. |
| MatchStore.Store.BlockBody | backend/internal/matching/service.go:388-423 | Statement by statement, a new block and its event appear together, once; a repeated block adds neither; a refused one has written nothing. |
| MatchStore.Store.Block | backend/internal/matching/service.go:388-423 | Committed, the call is the reference call; failed after any of its statements, it leaves every table as it was. |
| MatchStore.Store.Unblock | backend/internal/matching/service.go:426-431 | Removes the one directed block and touches nothing else. |
| MatchStore.FirstAnswerIsRecorded | backend/internal/matching/service.go:261-304 | After an answered swipe, the recorded action and the pair's match row are what the answer says. |
| MatchStore.SwipeIsIdempotent | backend/internal/matching/service.go:221-225 | A second swipe of the same pair, with any action, changes no table and repeats the first answer marked as a duplicate. |
| MatchStore.SecondLikeMatches | backend/internal/matching/service.go:283-304 | The first like of two makes no match; the second makes exactly one match row and one event. |
| MatchTables.NobodySwipesAcrossABlock | backend/internal/matching/service.go:489-511 | A swipe is answered with a decision iff its target exists, no block stands in either direction and the viewer exists or has decided before; blocked-by-you iff the viewer made a block on an existing target; the target's block looks like a missing user; a refusal changes no table. |
| MatchTables.FirstDecisionIsKept | backend/internal/matching/service.go:252-300 | The first decision of a direction is recorded as made and stays, an answer is a duplicate iff it was there already, and no other swipe and no block changes. |
| MatchTables.BlockParts | backend/internal/matching/service.go:388-423 | A block is stored in the one direction asked for, with its event once, and changes no swipe or match; the blocker's swipe is then refused as blocked-by-you and the other's as not found. |
| MatchTables.BlockIsRefusedIffAbsent | backend/internal/matching/service.go:388-423 | Not found iff the blocked user does not exist; no refusal changes a table. |
| MatchTables.UnblockUndoes | backend/internal/matching/service.go:426-431 | Unblocking takes back a new block but not its event, and cannot reach a block the other side made. |
| MatchTables.SerialKeepsMutualMatches | backend/internal/matching/service.go:226-315 | Any whole call keeps "both like each other iff a match row exists" and "one match.created event per match row". |
| MatchTables.SwipeEmitsOneEvent | backend/internal/matching/service.go:283-304 | A swipe adds one match.created event exactly when it adds one match row, with that row's id and pair. |
| SwipeTheorems.EveryRunIsSerial | backend/internal/matching/service.go:240-304 | Every interleaving of swipes, blocks and unblocks, with aborts and colliding lock keys, leaves the tables of its serial run and gave only the serial run's answers. |
| SwipeTheorems.MutualLikesIffMatched | backend/internal/matching/repo.go:226-249 | In every reachable state both likes of a pair are committed iff one match row is, and match rows and match.created events are in bijection. |
| SwipeTheorems.PlaceIsTheBlocksRead | backend/internal/matching/service.go:252-260 | The serial order is honest: a swipe takes its place only when it reads the blocks, as the next entry, and keeps that place. |
| SwipeTheorems.HistoryIsStable | backend/internal/matching/service.go:240-304 | Each step adds at most one entry to the serial order, and a settled entry never changes. |
| SwipeTheorems.CommitSettlesItsPlace | backend/internal/matching/service.go:240-304 | A committing swipe settles the entry it took at its blocks read, with the answer its caller gets. |
| SwipeTheorems.CommitsNeverCollide | backend/internal/matching/repo.go:260-339 | A committing swipe never overwrites a committed swipe or match row. |
| SwipeTheorems.OneSwipePerPair | backend/internal/matching/repo.go:235-249 | Two swipes of one pair, in either direction, are never both past the advisory lock. |
| SwipeTheorems.NoRunSwipesAcrossABlock | backend/internal/matching/service.go:489-511 | In every run, a swipe answered with a decision found its target and no block in either direction at its place in the serial order, and one refused as blocked-by-you found exactly such a block. |
| SwipeTheorems.BlocksReadDecides | backend/internal/matching/service.go:497-510 | The blocks read ends the call, with nothing written, iff there is a block in either direction. |
| SwipeAlone.SwipeAsAsked | backend/internal/matching/service.go:226-315 | In the step model a swipe nobody overlaps, from its first statement to its commit, leaves the tables and gives the answer of the whole call, with its locks released. |
| SwipeAlone.BlockAsAsked | backend/internal/matching/service.go:388-423 | So does a block. |
| SwipeAlone.AbortLeavesNothing | backend/internal/matching/service.go:240-304 | An aborted call changes no table, releases its locks, and is dropped from the serial order. |
| SwipeSerializable.InsertionCommutes | backend/internal/matching/service.go:240-304 | A swipe's writes applied at its commit equal the same writes applied at its place in the serial order, past every entry in between. |
| SwipeSerializable.StepKeepsInv | backend/internal/matching/service.go:226-431 | Every statement of every transaction, and every abort, keeps the committed tables equal to the replay of the log. |
| Uuid.OrderPair | backend/internal/matching/repo.go:568-578 | The byte loop returns the two ids in numeric order, which is also Postgres' uuid order. |
| Uuid.RankIsInjective | backend/internal/matching/repo.go:568-578 | Reading an id as its big-endian number identifies no two ids. |
| SessionStore.Store.constructor | backend/internal/auth/repo.go:188-195 | An empty table of sessions. |
| SessionStore.Store.CreateSession | backend/internal/auth/repo.go:188-195 | A login adds one live session with no previous token and no rotations, and changes no other row. |
| SessionStore.Store.FindSessionByToken | backend/internal/auth/repo.go:203-225 | Some row holding the token is found iff there is one, a row where it is current before one where it is previous. |
| SessionStore.Store.RotateSession | backend/internal/auth/repo.go:230-249 | Rotation happens iff the expected token is still current and the row unrevoked; then the row holds the new token, remembers the expected one as previous, counts one more rotation and gets the new expiry, its owner unchanged. |
| SessionStore.Store.RevokeSession | backend/internal/auth/repo.go:253-262 | A first revoke stamps the row, a second one changes nothing. |
| SessionStore.Store.RevokeUserSessions | backend/internal/auth/repo.go:266-276 | Every live session of the user but the excepted one is revoked; nobody else's row changes. |
| SessionStore.Store.DeleteExpiredSessions | backend/internal/auth/repo.go:313-323 | Exactly the sessions past their expiry and those revoked more than 7 days ago go. |
| SessionStore.Store.Refresh | backend/internal/auth/service.go:342-419 | Alone: a token is issued iff the user exists and it is the current one of an unrevoked, unexpired session, which then has the new token and remembers the old; a retired token is reported as reuse and, unless that write fails, revokes its session; anything else changes nothing. |
| SessionStore.ReplayIsCaught | backend/internal/auth/service.go:367-409 | A token presented again after its refresh is reported as reuse and its session revoked, and the token issued in between is refused from then on. |
| SessionStore.RefreshKeepsHashesDisjoint | backend/internal/auth/repo.go:230-249 | No refresh makes two rows share a hash. |
| SessionStore.LockingAlone | backend/internal/auth/repo.go:203-225 | In the step model an undisturbed refresh finds and locks its row, learns whether its token is current, and changes nothing. |
| SessionStore.AcceptingAlone | backend/internal/auth/service.go:342-419 | From there a live current token is rotated and accepted exactly as Refresh does it. |
| SessionStore.RefusingAlone | backend/internal/auth/service.go:342-419 | A current token of a revoked or expired session ends the call and changes nothing. |
| SessionStore.RevokingAlone | backend/internal/auth/service.go:367-409 | And a retired token gets its session revoked after the rollback, exactly as Refresh does it. |
| SessionTheorems.NoTokenIsAcceptedTwice | backend/internal/auth/service.go:342-419 | In every run, refreshes racing included, no refresh token is accepted twice. |
| SessionTheorems.RowsTellTheTruth | backend/internal/auth/repo.go:203-249 | Current and previous hashes never collide across rows, a previous hash is one that was accepted, and rotation_count counts the session's committed refreshes. |
| SessionTheorems.RefreshesFormAChain | backend/internal/auth/repo.go:230-249 | In every run each refresh of a session presents the token the one before it issued; a rotated row holds the last token issued and remembers the last one presented. |
| SessionTheorems.RotationIsNeverLost | backend/internal/auth/repo.go:230-249 | In every run the guarded UPDATE of a refresh that holds its row lock finds its row as it read it. |
| SessionTheorems.NoResetLinkIsRedeemedTwice | backend/internal/auth/repo.go:355-374 | No password reset token is redeemed by two transactions. |
| SessionTheorems.ClosedForGood | backend/internal/auth/repo.go:253-276 | A session a completed revoke has covered is never refreshed again, in any continuation. |
| SessionTheorems.ReplayEndsTheSession | backend/internal/auth/service.go:367-409 | Once the revoke that follows a detected replay has run, no refresh of that session succeeds, whatever was interleaved between detection and revoke. |
| SessionTheorems.ResetEndsEverySession | backend/internal/auth/service.go:571-603 | Every session the user has when the revoking statement begins, whatever runs while it works through them, is never refreshed again once the reset commits. |
| SessionTheorems.SeenIsKept | backend/internal/auth/repo.go:266-276 | No step of any transaction takes a session off the list of a reset under way, or moves the reset to another statement. |
| SessionTheorems.CommitCloses | backend/internal/auth/repo.go:266-276 | What the list of a committing reset covers gains no accepted refresh in any continuation. |
| SessionTheorems.ResetTouchesNobodyElse | backend/internal/auth/service.go:571-603 | In every run a committing reset leaves the sessions of every other user exactly as they are. |
| SessionTheorems.LogoutEndsTheSession | backend/internal/auth/service.go:423-433 | After a logout, in any continuation, that session is never refreshed, and no other row was touched. |
| SessionTheorems.AtMostOneLiveResetLink | backend/internal/auth/repo.go:342-348 | In every run a user has at most one unused reset token. |
| SessionTheorems.NewLinkReplaces | backend/internal/auth/service.go:545-552 | A new reset token is unused and expires as asked; it uses up the user's earlier ones and nobody else's. |
| SessionTheorems.LinkIsHonouredIffLive | backend/internal/auth/repo.go:355-374 | A reset goes on iff its token was sent, is unused and has not expired, and holds that token's row until it ends. |
| SessionTheorems.OwnersNeverChange | backend/internal/auth/repo.go:188-195 | Only a login makes a session row, with the owner, token and expiry given, and no step gives a session to another user. |
| SessionTheorems.SweepTakesTheDead | backend/internal/auth/repo.go:313-323 | The sweep takes only sessions past their expiry or revoked more than 7 days ago, and changes no other. |
| SessionSafety.StepKeepsInv | backend/internal/auth/service.go:342-433 | Every step of every transaction keeps hashes distinct, counts exact, row locks exclusive and closed sessions closed. |
| RateLimit.RedisLimiter.Allow | backend/internal/platform/ratelimit/ratelimit.go:31-57 | A call alone answers iff both commands answer; its count is one more than a live key's and 1 otherwise; it is allowed iff that is within the limit, with the rest as remaining, and a refusal names the time the key still lives; a key without an expiry gets one a window away, a running one is kept; an error leaves what the commands that took effect left. |
| RateLimit.AllowIsItsCommands | backend/internal/platform/ratelimit/ratelimit.go:31-57 | A call alone leaves the key as its INCR, and its EXPIRE if it sends one, leave it in the step model. |
| RateLimit.EachLifetimeAdmitsItsFirst | backend/internal/platform/ratelimit/ratelimit.go:31-57 | Whatever EXPIREs are late, doubled or lost, a key lifetime lasts at least the window and admits exactly its first `limit` increments. |
| RateLimit.WindowAdmitsAtMost | backend/internal/platform/ratelimit/ratelimit.go:31-57 | Any half-open interval one window long contains at most 2 * limit - 1 admitted calls. |
| RateLimit.BoundIsReached | backend/internal/platform/ratelimit/ratelimit.go:31-57 | For every limit and every window of at least two ticks some run attains that bound. |
| RateLimit.OneTickAdmitsAtMost | backend/internal/platform/ratelimit/ratelimit.go:31-57 | A window of a single tick admits at most the limit: a key alive at a tick outlives it. |
| RateLimit.OneTickBoundIsReached | backend/internal/platform/ratelimit/ratelimit.go:31-57 | And some run admits that many, for every limit. |
| RateLimit.CountIsNth | backend/internal/platform/ratelimit/ratelimit.go:31-57 | The number INCR answers is the call's position in its own key lifetime. |
| OutboxRows.BackoffIsBounded | backend/internal/outbox/drainer.go:32-36 | A lease lasts between 5 and 320 seconds. |
| OutboxRows.BackoffDoubles | backend/internal/outbox/drainer.go:32-36 | The lease is 5 seconds at 0 attempts, doubles with each attempt up to the sixth, and is 320 seconds from then on. |
| OutboxRows.ClaimLeases | backend/internal/outbox/drainer.go:32-36 | A claim adds one attempt, moves available_at to now plus that lease, and changes nothing else. |
| OutboxRows.ClaimSpends | backend/internal/outbox/drainer.go:32-48 | A claim lowers the attempts left over all unpublished rows by exactly the number of rows claimed. |
| OutboxProtocol.LeasesHold | backend/internal/outbox/drainer.go:32-48 | Under any drainers and crashes: claim k of a row finds k attempts, and a later one comes at least 5 * 2^min(k, 6) seconds after it; attempts are the number of claims and within the maximum; a published row was delivered; a row is claimable iff it is unpublished, has attempts left and the lease of its last claim is over. |
| OutboxProtocol.OneEventAlone | backend/internal/outbox/drainer.go:146-172 | A drainer that takes one due row publishes it iff Publish returned nil and the update went through; otherwise the row is leased, one attempt older. |
| OutboxProtocol.PublishCallsAreBounded | backend/internal/outbox/drainer.go:146-172 | Without new rows, all Publish calls still to come fit the attempts left plus the claims already held. |
| OutboxProtocol.ExposureNeverGrows | backend/internal/outbox/drainer.go:146-172 | Calls made, calls promised by claims, and attempts left never grow together, whatever drainers and crashes do. |
| OutboxProtocol.StepSpends | backend/internal/outbox/drainer.go:32-48 | Each step keeps that sum from growing, and a claim lowers the attempts left by one per claimed row. |
| OutboxProtocol.PublishedIsFinal | backend/internal/outbox/drainer.go:42-44 | A row marked published is never claimed or changed again, in any continuation. |
| OutboxDrainer.Drainer.Enqueue | backend/internal/outbox/outbox.go:88-105 | A new row is unpublished, due at once, and worth MaxAttempts publish calls. |
| OutboxDrainer.Drainer.NextDue | backend/internal/outbox/drainer.go:36-46 | Finds the due row no other due row comes before by (available_at, created_at), iff any row is due. |
| OutboxDrainer.Drainer.Claim | backend/internal/outbox/drainer.go:32-48 | Claims at most a batch of due rows, each once, none after a due row left behind, and all of them if the batch is not filled; each gets one attempt more and a lease of 5 * 2^min(attempts, 6) seconds, and no other row changes. |
| OutboxDrainer.Drainer.DrainOnce | backend/internal/outbox/drainer.go:146-172 | For any behaviour of database, transport, bookkeeping and context: of the claimed events reached, exactly those sent and marked are published and counted, exactly those sent are delivered, every other claimed row is only leased, and no other row changes; it errs iff the claim failed or the context ended early. |
| OutboxDrainer.Drainer.PublishClaimed | backend/internal/outbox/drainer.go:152-171 | The loop over the claimed events does that for every answer it gets, up to where the context ends. |
| OutboxDrainer.Drainer.MarkPublished | backend/internal/outbox/drainer.go:200-205 | Marks one delivered row and no other. |
| OutboxDrainer.Drainer.DrainBacklog | backend/internal/outbox/drainer.go:117-132 | The inner loop of Run goes on exactly while full batches come back without an error, terminates, and its calls are paid for by the attempts it used up. |
| QueueConsumer.Consumer.AckEntry | backend/internal/platform/queue/queue.go:257-262 | The entry moves from pending to acknowledged if it was pending, its attempt counter goes, and nothing else changes. |
| QueueConsumer.Consumer.DeadLetter | backend/internal/platform/queue/queue.go:264-284 | One copy of the entry, with its event id and attempt, is appended to the dead stream. |
| QueueConsumer.Consumer.Process | backend/internal/platform/queue/queue.go:219-255 | The handler is called iff the event id is not done; the entry is acknowledged and its counter dropped iff it was done, succeeded or reached MaxAttempts, else it stays pending with its counter up; a success sets the dedupe key and only a last failure appends a copy. |
| QueueConsumer.ProcessIsAWorkerAlone | backend/internal/platform/queue/queue.go:219-255 | A worker whose commands all succeed and that nobody interrupts does in the step model exactly what Process does. |
| QueueProtocol.AckedMeansDealtWith | backend/internal/platform/queue/queue.go:185-284 | With crashes, failed commands, reclaims and key expiries anywhere, an acknowledged entry was handled or has its dead-letter copy, unless the write of that copy is what failed. |
| QueueProtocol.NothingIsDropped | backend/internal/platform/queue/queue.go:154-217 | A delivered entry is pending until it is acknowledged, and a dead-letter copy carries the entry's own event id. |
| QueueProtocol.FailedDeadLetterIsAcknowledged | backend/internal/platform/queue/queue.go:239-284 | In any run, when the write of a copy fails, the worker's next command acknowledges the entry; an event not handled and not copied stays so. |
| QueueCalm.LostIffDeadLetterFailed | backend/internal/platform/queue/queue.go:239-284 | In runs whose only failures are dead-letter writes, an acknowledged entry nobody holds has neither a success nor a copy iff the write of its copy failed. |
| QueueCalm.FailedDeadLetterLosesTheEvent | backend/internal/platform/queue/queue.go:279-283 | For every MaxAttempts some such run loses an event. |
| QueueProtocol.DoneIsNotHandledAgain | backend/internal/platform/queue/queue.go:219-226 | A worker may die between setting the dedupe key and acknowledging: while the key lasts and EXISTS on it answers, no reclaim calls the handler for that event again, whatever else fails. |
| QueueProtocol.SuccessIsFinal | backend/internal/platform/queue/queue.go:253-255 | From the step that sets the dedupe key on, in any continuation in which the key answers, no worker calls the handler for any entry of that event again. |
| QueueProtocol.SuccessIsRemembered | backend/internal/platform/queue/queue.go:253-254 | The step behind a successful handler sets the key. |
| QueueProtocol.NothingDiesEarly | backend/internal/platform/queue/queue.go:243-247 | In every run no copy is written with fewer attempts than MaxAttempts. |
| QueueProtocol.UncountedFailureIsRetried | backend/internal/platform/queue/queue.go:227-251 | If INCR fails and then the handler does, the entry stays pending and nothing is counted, copied or acknowledged. |
| QueueProtocol.FailedSetIsAcknowledged | backend/internal/platform/queue/queue.go:253-255 | If setting the key fails, the entry is acknowledged all the same. |
| QueueProtocol.FailedAckStartsOver | backend/internal/platform/queue/queue.go:257-262 | If XACK fails the entry stays pending but its counter is deleted, so its next delivery counts from one. |
| QueueCalm.RetriesAreBounded | backend/internal/platform/queue/queue.go:219-255 | Without crashes, faults or reclaims of held entries, the handler runs at most MaxAttempts times for an entry, never again after a success, and one copy is attempted at most, only if all calls failed. |
| QueueCalm.DeadIffAllFailed | backend/internal/platform/queue/queue.go:239-255 | For an entry nobody holds: dead-lettered iff all MaxAttempts calls failed and the write of the copy did not, acknowledged iff all failed or one succeeded. |
| QueueCalm.ReclaimWhileHeldBreaksTheBound | backend/internal/platform/queue/queue.go:185-217 | The proviso matters: a run in which a reclaim of a held entry leads to more calls than MaxAttempts and a dead letter beside a success. |
| Keyset.WalkEnumerates | backend/internal/matching/service.go:119-123 | Following next_cursor over a table that changes between pages: strictly ordered, nothing invented, every row present throughout shown exactly once, no id twice while sort keys stay fixed. |
| Keyset.WalkAscends | backend/internal/matching/service.go:170-216 | All pages together run strictly upwards, however the table changes between requests. |
| Keyset.WalkMissesNothing | backend/internal/matching/service.go:170-216 | A row present at every request and past the first cursor is shown. |
| Keyset.WalkInventsNothing | backend/internal/matching/service.go:170-216 | A row shown was in the table at one of the requests. |
| Keyset.AnswerIsUnique | backend/internal/matching/repo.go:93-97 | The keyset query has one answer. |
| Traits.Complete | backend/internal/domain/traits.go:67-78 | True iff all five traits are present, finite and within [0, 1]. |
| Traits.OrderedWeights | backend/internal/domain/traits.go:131-144 | The effective weights are within [0, 5] and never sum to zero, whatever is stored, NaN and infinities included. |
| Traits.MeanIsAScore | backend/internal/domain/traits.go:169-174 | The weighted mean of complete vectors is within [0, 1], symmetric, and 1 iff they agree on every trait with a positive weight. |
| Traits.MeanWrittenOut | backend/internal/matching/repo.go:42-49 | The mean times the sum of the weights is, trait by trait, weight times one minus the distance. |
| Traits.PreferencesAreUsed | backend/internal/domain/traits.go:114-144 | A stored weight within [0, 5] is used as it is, one outside as the nearer end, a missing one or NaN as 1; only if none weighs anything are all taken as 1. |
| Traits.Compatibility | backend/internal/domain/traits.go:175-190 | The Go scorer equals the SQL mean on complete vectors and is 0.5 on any other. |
| Cursor.EmittedCursorAccepted | backend/internal/matching/cursor.go:64-79 | A discovery cursor the feed emits is accepted iff its score is within [0, 1], and then carries exactly that score and id. |
| Cursor.DiscoverCursorIsTakenIff | backend/internal/matching/cursor.go:38-79 | Whatever is sent: no cursor iff it is empty; taken iff it decodes, has version 1, names a user and carries a decimal of at most ten places from 0 to 1; refused otherwise. |
| Cursor.MatchCursorIsTakenIff | backend/internal/matching/cursor.go:82-94 | Taken iff it decodes, has version 1, an id and a time; no cursor iff empty; refused otherwise. |
| Cursor.AcceptedScores | backend/internal/matching/cursor.go:38-79 | The pattern and the comparison with one together admit a decimal beginning with 0, and a 1 followed by nothing but zeros. |
| Cursor.TextOrderIsScoreOrder | backend/internal/matching/cursor.go:19-25 | Comparing cursor texts as decimals is comparing the scores. |
| Feed.Discover | backend/internal/matching/service.go:124-218 | A bad cursor is refused first, then a viewer without an assessment; otherwise the page is the first `limit` rows, with a cursor iff there are more. |
| Feed.DiscoverClauseIsPast | backend/internal/matching/repo.go:93-95 | The SQL clause holds for a candidate iff it sorts strictly after the row the cursor was made from. |
| Feed.DiscoverWalkIsWalk | backend/internal/matching/service.go:124-218 | A client following the encoded cursors of Discover is a keyset walk, and no cursor on the way is refused. |
| Feed.EveryCursorIsFollowed | backend/internal/matching/service.go:124-218 | Along a walk over candidates in range, a page carries a cursor iff there is a next page, and that cursor parses. |
| Feed.DiscoverEnumerates | backend/internal/matching/service.go:119-218 | Discover over candidates scored from complete vectors, followed to its end while they come and go: every cursor is accepted, scores descend and ids ascend within a score, only candidates that were there are shown, one present throughout exactly once, and nobody twice while scores stay. |
| Feed.CompleteScoresAreInRange | backend/internal/matching/repo.go:42-49 | Complete vectors score within [0, 1], so the feed's cursors are accepted. |
| Feed.ScoreIsNearestToTheMean | backend/internal/matching/repo.go:42-49 | A score is the millionth nearest to the mean, half a millionth rounded away from zero. |
| Feed.CursorRefusedIffMeanBelowZero | backend/internal/matching/repo.go:42-49 | Whatever numbers the stored vectors hold, the feed refuses the cursor of a score exactly when the mean rounds below zero. |
| Feed.OutOfRangeTraitStopsTheFeed | backend/internal/matching/repo.go:57-61 | Such vectors exist among those the query lets through, which asks for numbers only. |
| MatchList.Matches | backend/internal/matching/service.go:337-385 | Refused iff the cursor is bad; otherwise the first `limit` rows, with a cursor iff there are more. |
| MatchList.MatchClauseIsPast | backend/internal/matching/repo.go:425-427 | The row-wise comparison is the strict order after the cursor's row, and a cursor is accepted iff its row has an id and a time. |
| MatchList.EveryCursorIsFollowed | backend/internal/matching/service.go:337-385 | Along a walk, a page carries a cursor iff there is a next page, and that cursor parses. |
| MatchList.MatchesEnumerates | backend/internal/matching/service.go:337-385 | The match list, followed to its end while matches come and go: every cursor is accepted, created_at and then id descend, only matches that were there are shown, one present throughout exactly once, and none twice. |
| Messages.ReverseRows | backend/internal/messaging/store.go:185-189 | The swap loop reverses the slice in place. |
| Messages.ListMessages | backend/internal/messaging/service.go:143-163 | The page is the newest `limit` rows reversed, the extra row dropped at the front, the cursor at the oldest message shown. |
| Messages.PagesRunForward | backend/internal/messaging/store.go:151-154 | Every page runs oldest to newest and holds at most `limit` messages. |
| Messages.ScrollbackIsTheHistory | backend/internal/messaging/store.go:151-190 | The pages put together are the whole conversation in (created_at, id) order, nothing lost or repeated, even if later messages arrive meanwhile. |
| Messages.ScrollbackShowsWhatStays | backend/internal/messaging/store.go:151-190 | Over tables that change in any way, late commits with earlier times included, the view is in order and holds every message present throughout exactly once. |
| Age.AtLeast | backend/internal/matching/repo.go:74-74 | Born on or before today minus n years iff AgeAt is at least n, 29 February included. |
| Age.AgeCountsBirthdays | backend/internal/auth/service.go:761-773 | AgeAt is the number of birthdays there have been: the birthday of that age is not after today, the next one is. |
| Age.CalendarIsGregorian | backend/internal/matching/repo.go:74-75 | The calendar of the dates has the Gregorian leap years and month lengths. |
| Age.WindowIsAgeRange | backend/internal/matching/repo.go:74-75 | The age clauses hold iff AgeAt is within the bounds asked for (a lower bound also wants a birth not in the future). |
| Age.FutureBirthIsOutside | backend/internal/auth/service.go:761-773 | Where the two part: a birth in the future has AgeAt 0 and is still outside the window [0, 99]. |
| Float64.RoundError | backend/internal/media/thumbnail.go:77-78 | float64 arithmetic is modelled as rounding to nearest, ties to even, with a relative error of at most 2^-53. |
| Float64.RoundMonotone | backend/internal/media/thumbnail.go:77-78 | That rounding is monotone. |
| Float64.RoundInteger | backend/internal/media/thumbnail.go:77-78 | And exact on integers below 2^53. |
| Float64.RoundIsNearest | backend/internal/media/thumbnail.go:77-78 | Between 2^52 and 2^53 it gives the nearest integer, the even one at a tie. |
| Float64.RoundDoubles | backend/internal/media/thumbnail.go:77-78 | And every other binade is that one scaled by a power of two. |
| Thumbnail.ShrunkIsExact | backend/internal/media/thumbnail.go:65-71 | Below 2^51 the float64 computation of the short edge is the exact quotient rounded down. |
| Thumbnail.SizeKeepsProportion | backend/internal/media/thumbnail.go:64-73 | The longest edge becomes exactly maxEdge, the other is the true proportion rounded down but at least 1, and neither grows. |
| Cuts.WindowsPartition | backend/internal/media/thumbnail.go:80-95 | For any increasing cuts, a source row or column is in a window iff it comes before the last cut, and then in exactly one. |
| Cuts.EdgeIsCovered | backend/internal/media/thumbnail.go:80-95 | So a whole edge is covered iff the last cut reaches it. |
| Cuts.CodeCuts | backend/internal/media/thumbnail.go:77-95 | The float64 cuts of the code increase strictly from 0, never pass the edge, and end at most one short of it. |
| Cuts.WholeRatioCovers | backend/internal/media/thumbnail.go:77-95 | They reach the edge whenever the ratio is a whole number. |
| Cuts.SomeEdgeIsNotCovered | backend/internal/media/thumbnail.go:77-95 | They do not always: of 248 rows cut into 247, row 247 is in no window. |
| Boxes.EveryPixelCountsOnce | backend/internal/media/thumbnail.go:80-106 | For any increasing cuts, the box sums of all destination pixels add up to the sum over the source in front of the last cuts, channel by channel. |
| Thumbnail.AverageIsWithin | backend/internal/media/thumbnail.go:111-115 | Each channel of a destination pixel lies between any bounds its box's pixels have. |
| Thumbnail.MeanRoundsDown | backend/internal/media/thumbnail.go:107-115 | An average is the sum divided by the number of pixels, rounded down. |
| Thumbnail.PaintedIsWithin | backend/internal/media/thumbnail.go:107-115 | The four bytes of a painted pixel are its red, green, blue and alpha: each lies between the high bytes of any bounds its box's pixels have in that channel. |
| Thumbnail.SumBox | backend/internal/media/thumbnail.go:96-106 | The inner loops compute the sum and the number of pixels of the box, cut off at the image's edge. |
| Thumbnail.SampleBox | backend/internal/media/thumbnail.go:80-106 | The box of a destination pixel is that of its float64 cuts, at least one pixel wide unless past the edge. |
| Thumbnail.BoxIsSample | backend/internal/media/thumbnail.go:80-95 | For edges below 2^51 that box is the window between neighbouring cuts, and never empty. |
| Thumbnail.PaintPixel | backend/internal/media/thumbnail.go:107-115 | Writes the four bytes of one pixel and no other byte, none of them truncated; an empty box writes none. |
| Thumbnail.Scale | backend/internal/media/thumbnail.go:55-117 | An image that fits is handed back; otherwise, for every source and every maxEdge, the new image has the target size and every pixel is the average of its box. |
| Thumbnail.ThumbnailCoversTheImage | backend/internal/media/thumbnail.go:55-117 | For any image float64 can count: the windows lie side by side from the corner, each pixel averages its own, and at most the last row and the last column are missed. |
| Thumbnail.SomeThumbnailMissesARow | backend/internal/media/thumbnail.go:55-117 | A 321 by 248 image at maxEdge 320 becomes 320 by 247, and its last row is in no window. |
| Uri.UriEncode | backend/internal/platform/storage/s3.go:317-330 | The loop computes the percent-encoding of the whole string. |
| Uri.EncodedIsMinimal | backend/internal/platform/storage/s3.go:315-330 | The output is unreserved bytes and capital %HH only, and no unreserved byte is escaped (sections 2.1 and 2.3 of RFC 3986). |
| Uri.UnreservedAreThese | backend/internal/platform/storage/s3.go:315-326 | Exactly letters, digits and the marks - _ . ~ stand for themselves (section 2.3 of RFC 3986). |
| Uri.OthersAreEscaped | backend/internal/platform/storage/s3.go:326-328 | Any other byte is a percent sign and its two capital hexadecimal digits, the high one first. |
| Uri.DecodingInverts | backend/internal/platform/storage/s3.go:317-330 | Percent-decoding gives back exactly the encoded bytes. |
| Uri.EncodingInverts | backend/internal/platform/storage/s3.go:317-330 | Re-encoding what such a text decodes to gives the same text: the form is canonical. |
| Uri.EncodePath | backend/internal/platform/storage/s3.go:307-313 | The segments, overwritten in place and joined, are the encoded path. |
| Uri.PathDecodesSegmentBySegment | backend/internal/platform/storage/s3.go:306-313 | Splitting an encoded path at its slashes and decoding gives the key's segments, as many and in order. |
| Uri.PathIsInjective | backend/internal/platform/storage/s3.go:306-313 | No two keys share an encoded path. |
| Query.CanonicalQuery | backend/internal/platform/storage/s3.go:275-287 | Whatever order the map is ranged in, the text lists every parameter once, in ascending key order. |
| Query.LexLessIs | backend/internal/platform/storage/s3.go:280-281 | The order of the keys: the smaller byte where two first differ, or else the shorter. |
| Query.CanonicalIsUnique | backend/internal/platform/storage/s3.go:275-287 | So the text depends on the map alone. |
| Query.ParsingRecovers | backend/internal/platform/storage/s3.go:275-287 | Splitting the text at & and = and decoding gives back exactly the parameters. |
| CacheSteps.CacheIsBoundedAndFaithful | backend/internal/cache/cache.go:63-143 | In every interleaving of the critical sections the cache holds at most maxEntries, and a Get finds only the last Set of its key not followed by a Delete. |
| CacheSteps.WhyEntriesGo | backend/internal/cache/cache.go:63-170 | An entry goes only by a Delete, by its own expiry, or by eviction for a new key in a full cache, and an unexpired entry is evicted only if nothing at all has expired. |
| CacheSteps.WhyEntriesCome | backend/internal/cache/cache.go:85-170 | An entry comes or changes only by a Set of its key, with the value set and its expiry a ttl away; a Delete leaves none of its keys and a sweep nothing expired. |
| CacheSteps.EvictionMakesRoom | backend/internal/cache/cache.go:122-143 | Eviction always leaves room for one more entry and changes none it keeps. |
| Cache.Memory.constructor | backend/internal/cache/cache.go:52-61 | Empty, bounded by maxEntries or by 50000. |
| Cache.Memory.Get | backend/internal/cache/cache.go:63-83 | A hit iff the entry is there and not past its expiry; a stale entry is removed. |
| Cache.GetIsItsTwoSections | backend/internal/cache/cache.go:63-83 | A Get nobody interrupts between its two critical sections does what Memory.Get does. |
| Cache.Memory.Set | backend/internal/cache/cache.go:85-101 | A non-positive ttl stores nothing; otherwise the entry is stored, no other changes, none is lost unless the key is new and the cache full, and an unexpired one is lost only if nothing had expired. |
| Cache.Memory.Evict | backend/internal/cache/cache.go:122-143 | The loops leave all live entries, or a sample of one in a hundred fewer when nothing had expired. |
| Cache.Memory.DropExpired | backend/internal/cache/cache.go:147-170 | The sweep leaves exactly the entries not past their expiry. |
| Cache.Memory.Delete | backend/internal/cache/cache.go:103-110 | Removes exactly the keys named. |
| Cache.TraitService.Submit | backend/internal/personality/service.go:111-160 | Refuses no answers, an early retake and answers Score rejects, in that order; otherwise stores exactly the score of the answers, a complete vector, and keeps the cache consistent with the table. |
| Cache.TraitService.Load | backend/internal/personality/repo.go:56-88 | The stored vector, unless it is missing or incomplete. |
| Cache.TraitService.Traits | backend/internal/personality/service.go:185-208 | Answers exactly the stored vector if it is complete, as all that Submit stores are, and not found otherwise, whatever the cache holds, has dropped or has let expire; the answer is cached afterwards. |
| UnreadCounters.CountersAreExact | backend/internal/notifications/service.go:57-120 | After any calls, redeliveries, half-failed deliveries and key expiries, the count answered is the number of unread rows, and the negative clamp has never fired. |
| UnreadCounters.OneNotificationPerEvent | backend/internal/notifications/store.go:45-62 | A user has at most one notification of an event, however often it is delivered. |
| UnreadCounters.RedeliveryCompletes | backend/internal/notifications/service.go:91-120 | A delivery that failed part way and is repeated leaves rows and counters as one clean delivery would. |
| UnreadCounters.BothAreNotified | backend/internal/notifications/service.go:91-120 | After an unfailed match.created with an event id, each participant who had no notification of it has exactly one more unread row, one who had one has no more, and nobody else's rows change. |
| UnreadCounters.EachHasExactlyOne | backend/internal/notifications/service.go:91-120 | So in every reachable state both participants then have exactly one notification of the event. |
| UnreadCounters.BothAreNotifiedAgain | backend/internal/notifications/service.go:91-120 | Without an event id each participant gets one new row every time. |
| UnreadCounters.FirstIsNotifiedAlone | backend/internal/notifications/service.go:91-120 | A delivery that fails at the second participant has notified the first and nobody else. |
| UnreadCounters.NotifyAdds | backend/internal/notifications/service.go:102-117 | One notification adds one unread row to its user, or none if the event was there, leaves all other rows alone and drops no counter. |
| UnreadCounters.MarkOneReads | backend/internal/notifications/store.go:105-117 | Marking one notification reads exactly that row, only if it is the user's, and the unread count goes down with it. |
| UnreadCounters.MarkAllReads | backend/internal/notifications/service.go:82-88 | Marking all reads every row of the user and no other, and the count answered is then zero. |
| UnreadCounters.NoEventIdNoDedupe | backend/internal/notifications/store.go:47-62 | An empty event id is stored as NULL, and a redelivery then notifies again. |
| Notifications.Service.Insert | backend/internal/notifications/store.go:47-62 | Reports a new row iff the user has none of that event id, and adds exactly that row. |
| Notifications.Service.NotifyOne | backend/internal/notifications/service.go:102-117 | The counter moves only with a new row, and stays exact. |
| Notifications.Service.OnMatchCreated | backend/internal/notifications/service.go:91-120 | Notifies the recipients in order up to the first failure; unfailed with an event id, both have exactly one notification of it, without one both have a new row; counters stay exact either way. |
| Notifications.Service.OnMessageCreated | backend/internal/notifications/service.go:123-149 | Notifies the recipient, who then has exactly one notification of the event, or nobody on failure. |
| Notifications.Service.MarkAsRead | backend/internal/notifications/store.go:105-117 | Not found iff the notification is not the user's; the counter goes down only if the row changed. |
| Notifications.Service.MarkAllAsRead | backend/internal/notifications/service.go:82-88 | All of the user's rows are read, nobody else's, and the cached counter is zero. |
| Notifications.Service.CountUnread | backend/internal/notifications/service.go:58-69 | The answer is the number of unread rows, cached or not, and it is cached afterwards. |
| Scoring.TallyAnswers | backend/internal/personality/scoring.go:78-104 | Fails at the first answer that is unknown, repeated or out of range, in that order of checks; otherwise sums and counts are those of the bank. |
| Scoring.MissingCodes | backend/internal/personality/scoring.go:124-140 | At most five codes are listed, the least of the missing ones in ascending order, and the others are counted. |
| Scoring.UnansweredCodesAreMissing | backend/internal/personality/scoring.go:124-130 | The missing codes are those of the questions without an answer, each as often as it occurs. |
| Scoring.Normalize | backend/internal/personality/scoring.go:112-121 | Fails iff some trait has no item; the range check at the end never fails. |
| Scoring.Score | backend/internal/personality/scoring.go:64-122 | Succeeds iff the answers are a bijection onto a non-empty bank with values 1 to 5 and every trait has an item, with the score of the bank, a complete vector; otherwise the error is the first that applies, in the order of the checks. |
| ScoreSpec.OrderDoesNotMatter | backend/internal/personality/scoring.go:78-104 | The same answers in another order are accepted too and worth the same. |
| ScoreSpec.ScoreIsDetermined | backend/internal/personality/scoring.go:64-122 | The bank and the answered values leave only one score. |
| ScoreSpec.FlippingMirrors | backend/internal/personality/scoring.go:60-63 | Of two scores, one of accepted answers and one of the same with every v replaced by 6 - v, which are accepted too, each trait adds up to exactly 1, or to one ten-thousandth more exactly at a rounding tie. |
| ScoreSpec.UniformAnswersScore | backend/internal/personality/scoring.go:60-63 | A trait whose forward items are all answered v and reverse-keyed ones 6 - v scores exactly (v - 1) / 4: 1 for 5 and 1, 0 for 1 and 5. |
| ScoreSpec.OneItemScores | backend/internal/personality/scoring.go:60-63 | A trait of one item scores (v - 1) / 4, or (5 - v) / 4 if the item is reverse-keyed. |
| ScoreSpec.RaisingAnAnswer | backend/internal/personality/scoring.go:92-104 | Raising one answer never lowers its trait's score if the item is keyed forward, never raises it if reverse-keyed, and changes no other trait. |
| ScoreSpec.ScoreIsNearestToTheMean | backend/internal/personality/scoring.go:106-116 | A score is the ten-thousandth nearest to the mean of the answered items, the upper one at a tie. |
| ScoreSpec.FlipAllIsABijectionToo | backend/internal/personality/scoring.go:78-104 | The turned-round answers are accepted whenever the answers are. |
| ScoreSpec.TotalFlip | backend/internal/personality/scoring.go:60-63 | Per trait, the turned-round answers collect exactly what the original ones left on the table. |
| ScoreSpec.FlipAllFlipsValues | backend/internal/personality/scoring.go:60-63 | The turned-round answers give every question six minus its value. |
| ScoreSpec.ScoreIsComplete | backend/internal/domain/traits.go:81-95 | A score is a vector with all five traits within [0, 1]. |

## Left out

- HTTP handlers, routing, configuration, logging, metrics, push and e-mail delivery, the
  migration runner, the seed program and the frontend: plumbing.
- Cryptography, JSON, base64, UUID parsing and image codecs: hashes are taken to be injective and
  encodings to round-trip.
- Floating point: thumbnails are modelled with float64 rounding, without overflow; traits, weights,
  means and question scores are exact reals or integers, so their rounding noise is not modelled.
- Account deletion and its cascades: the set of users is fixed during a run.
- `pairScore` and the score column of a match row: they do not influence any decision of `Swipe`.
- Deadlock detection and other database errors appear as the aborts any transaction may suffer.
- Registration, e-mail verification and the per-session revoke of a user's device list: they repeat
  the shape of login, reset tokens and logout.
- The mutual exclusion of two reset requests of one user: at most one live reset token per user is
  given only when requests do not overlap, and a request is one step here
  (`SessionTheorems.AtMostOneLiveResetLink`).
- OutboxProtocol.LeasesHold: with several drainers a claim skips locked rows, so there it takes any due
  rows; `OutboxDrainer.Drainer.Claim` has the order.
- OutboxDrainer.Drainer.DrainOnce: the last_error text a failure leaves behind is not modelled.
- Exactly-once delivery from the outbox to a notification: Publish mints a new event id per call, so
  outbox redelivery is not collapsed.
- QueueProtocol.AckedMeansDealtWith: stream trimming is not modelled, neither of the stream nor of
  the dead-letter stream.
- QueueConsumer.Consumer.Process: the idle time before a reclaim is left out; the step model lets any
  pending entry be reclaimed at any moment.
- RateLimit.RedisLimiter.Allow: the key's lifetime is counted in whole ticks of the server clock.
- Feed.Discover: filters, profile columns and the distance expression ride along; the candidates the
  filters leave are a parameter, and so is what the database answers.
- MatchList.Matches: profile columns ride along, and what the database answers is a parameter.
- Messages.ListMessages: the participant check before the query is left out, and what the database
  answers is a parameter.
- ListConversations: its sort key, the last message time, changes between pages.
- Message sending: its idempotence on client_msg_id repeats that of notifications on event_id.
- Age.WindowIsAgeRange: the database and the service are taken to agree on today's date.
- Thumbnail.Scale: colours come from a function of the position; decoding and JPEG encoding, the width
  of the accumulators, which a real image cannot exhaust, and conversions of floats past the range of
  an integer are left out.
- Cache.Memory.Get: values are immutable here, so the copies that guard against aliasing have nothing
  to do.
- Cache.TraitService.Traits: calls do not overlap; a Submit between another call's read and its Set
  can leave a stale entry until it expires.  Errors of a remote cache are left out as well.
- UnreadCounters.CountersAreExact: calls do not overlap and counter commands succeed; the code gives
  exactness only then.
- Scoring.Score: question ids are distinct, as the primary key makes them, and codes are represented
  by their rank.
- The websocket hub: joining and leaving release the mutex before Redis is told, so only a sequential,
  easy statement would hold.
