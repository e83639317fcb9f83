# Shelfmark: verified models of its stateful core

Shelfmark searches release sources for requested books, downloads them and keeps the requests, the
accounts and several caches in step. This project models the eight components of it that carry state
from one call to the next, and proves what they keep over whole runs. `dafny verify dfyconfig.toml`
checks everything.

| file | component |
|---|---|
| `Requests.dfy`, `Settle.dfy`, `Reopen.dfy`, `RetryRuns.dfy`, `ReopenRules.dfy` | request rows; settling delivery states from history; reopening failed requests; runs of that pass; its rules in the fields of the rows |
| `SearchBackoff.dfy` | when an unmatched request is searched again |
| `Releases.dfy`, `Ranking.dfy`, `RankingRules.dfy`, `Selection.dfy` | preference order, demotion of thin copies and dead sources, what the ranking means in the fields of the releases, the choice of a release |
| `BypassHelper.dfy`, `BypassRecovery.dfy` | the two-process bypass protocol: pipe, renamed answer file, kill, cancel, timeout, one retry; what it recovers from |
| `Accounts.dfy`, `Linking.dfy`, `LinkingRepeat.dfy` | the user table; matching, taking over, aliasing and suffixing external accounts, once and repeatedly |
| `CwaSync.dfy`, `CwaRepeat.dfy` | the Calibre-Web sync, and the same sync again |
| `Lockout.dfy` | ten failed logins lock a username for thirty minutes |
| `ImageCache.dfy`, `TtlCache.dfy` | the disk image cache and the in-memory cache with expiry |
| `LibraryIndex.dfy`, `LibraryCalls.dfy` | the library index cache: calls one after the other, and calls that overlap |
| `Rooms.dfy` | WebSocket rooms and their reference counts |
| `Basics.dfy`, `Sorting.dfy`, `Decimal.dfy` | filtering, stable sorting, decimal numerals |

Code that updates state in place is modelled by methods and classes, each proved equal to a function
of the old state; the lemmas then reason about runs of those functions. The helper protocol is a
transition system whose runs interleave the steps of both processes in every order. Time is an
integer, in microseconds for requests and logins and in seconds for the caches, and never goes back
within a run. Databases, files, release pages and other processes are maps, parameters or steps.

## What the code does not do as documented

- **Retries.** A request is said to be given up on after three failed attempts
  (`docs/environment-variables.md:1134-1136`, `auto_download.py:955-956`, `1186-1188`). The code counts
  remembered releases, so an attempt counts only if its release can be told and is not on the list yet.
  `RetryRuns.LimitHoldsExactly` proves that the limit holds in every run exactly when all failures below
  it are of that kind. The others are reopened any number of times (`RetryRuns.RepeatsAreRetriedForever`):
  a release that cannot be told, and a listed release that is offered again once its failure is older
  than `AUTO_DOWNLOAD_RETRY_FAILED_RELEASE_DAYS` and fails once more.
- **The same release again.** "Not picked again" (`docs/environment-variables.md:1134-1135`) holds exactly
  while the failure is recent or the release is dead: `Selection.RetryPicksAnotherRelease`.
- **Access times.** The comment at `image_cache.py:50-52` says only a crash loses access times. Any
  miss rereads the index and loses those not yet written: `ImageCache.ReadThenMiss`, with the exact
  condition, and `ImageCache.MissUndoesRead`, a run that makes the image just read the oldest.
- **Eviction.** The image being replaced counts as if it stayed, so replacing can evict more than is
  needed; `ImageCache.EvictsNoMoreThanNeeded` says for any cache limit for which keys. An eviction also
  drops every remembered failure (`ImageCache.EvictionForgetsFailures`).
- **Emptied library.** The comment at `library_index.py:109-113` keeps a filled index from being emptied.
  The look for earlier entries and the store (`131`) hold the lock separately, so overlapping calls can
  empty it: `LibraryCalls.RaceForgetsBooks`, and exactly when in `LibraryCalls.EmptiedOnlyByRace`.
  Overlapping calls may also fail more than once a minute; `LibraryCalls.FailuresInAMinute` is the bound.
- **Repeated sync.** Syncing the same Calibre-Web rows twice can create accounts again the second
  time, because a row linked by its address keeps the local name, which another row then claims.
  `CwaRepeat.SyncRepeatsExactly` gives the rows for which it cannot.

One point where precision differs does no harm: settling compares the end of a download in full but
stores whole seconds (`auto_download.py:1140`, `1146`). `Settle.StampNeverMovesBack` says which stamps
could be undercut; every writer of stamps writes whole seconds, and so no stamp moves back in any run
(`RetryRuns.StampsNeverMoveBack`).

## Model

| member | source | states |
|---|---|---|
| Settle.SettleDeliveryStates | shelfmark/core/auto_download.py:1095-1158 | one pass over the table settles exactly the live rows whose newest history row ended, final and later than their last change, failed writes excepted, and returns how many rows changed |
| Settle.SettlesExactly | shelfmark/core/auto_download.py:1104-1149 | in the fields of request and history row: exactly which rows a pass settles, and to what; every other row stays as it is |
| Settle.SettleTouchesOnlyLiveRequests | shelfmark/core/auto_download.py:1119-1148 | only fulfilled rows that say queued or downloading change, only in delivery state and stamp, only to complete, error or cancelled, and only when the newest row ended after their last change |
| Settle.SettleIsIdempotent | shelfmark/core/auto_download.py:1095-1158 | settling twice is settling once, and a settled row is never settled again whatever a later history says |
| Settle.StampNeverMovesBack | shelfmark/core/auto_download.py:1138-1148 | the known stamp of a live request is kept or moved on under every history exactly when it is a whole second or the last microsecond of one |
| Settle.SettleKeepsStampsMonotone | shelfmark/core/auto_download.py:1138-1148 | whole-second stamps never move back and stay whole seconds |
| RetryRuns.StampsStayWhole | shelfmark/core/auto_download.py:1138-1148 | if all other writers write whole seconds, every stamp in every state of every run is a whole second |
| RetryRuns.StampsNeverMoveBack | shelfmark/core/auto_download.py:1138-1148 | then no pass of a run moves a known stamp back |
| Requests.WithRowFinds | shelfmark/core/user_db.py:814-915 | after an update the id finds what was written, and every other id what it found before |
| Requests.RequestTable.Reopen | shelfmark/core/user_db.py:917-975 | a reopen succeeds exactly for a present, fulfilled, undelivered row, and then clears that row's delivery, release and review and no other field or row |
| Reopen.ReopenStaleFailures | shelfmark/core/auto_download.py:1161-1267 | the loop over the table, with its early exits, failing writes and counters, leaves exactly the rows and the ids the pass function says, whose rule `ReopenRules` gives in fields |
| ReopenRules.KindMeans | shelfmark/core/auto_download.py:1033-1056 | a missing, unfinished or interrupted download and an unreachable client are no failure of the release; any other error is one, a stalled cancellation too, and nothing else |
| ReopenRules.EligibleMeans | shelfmark/core/auto_download.py:1192-1240 | in the fields of request and history row: exactly which requests may be reopened, each kind after its own wait, failures only below three remembered releases |
| ReopenRules.PassMeans | shelfmark/core/auto_download.py:1222-1266 | whatever writes fail, what a pass makes of one request: an interruption keeps the list and waits the days, a failure is listed and waits its own cooldown, anything else is left as settled |
| Reopen.EarlyFilterIsSafe | shelfmark/core/auto_download.py:1192-1221 | the filter by the later cutoff never drops a row the reopening rule would accept |
| Reopen.DecidingAfterSorting | shelfmark/core/auto_download.py:1192-1236 | filtering first and sorting by last change afterwards gives the rows the rule accepts, in that order |
| Reopen.LoopTakesEligible | shelfmark/core/auto_download.py:1222-1266 | with no failing write the loop reopens the first rows the rule accepts, as many as the pass allows, and skips the others |
| Reopen.PassFollowsRule | shelfmark/core/auto_download.py:1161-1267 | when every write succeeds the pass reopens exactly the `max_reopen` longest unchanged rows whose own kind's cooldown has passed, and every other row is left as settled |
| Reopen.OldestFirst | shelfmark/core/auto_download.py:1216-1236 | a row the rule accepts is left out only if the pass is full of rows that changed no later |
| RetryRuns.PassEffect | shelfmark/core/auto_download.py:1222-1266 | what one pass does to one row: settled, its failed release noted or not, and reopened only below the limit |
| RetryRuns.PassGrowsListByOne | shelfmark/core/auto_download.py:1226-1266 | one pass appends at most one new release to a row's list, only below the limit, and a well-formed list stays so |
| RetryRuns.ReopenGrowsList | shelfmark/core/auto_download.py:1239-1266 | a row is reopened after a failure only below the limit, and its list grows by one exactly when the release is identifiable and not yet listed |
| RetryRuns.ListsStayWellFormed | shelfmark/core/auto_download.py:1226-1266 | in every state of every run no list has a repeated key or more than three entries |
| RetryRuns.FailuresAreGivenUp | shelfmark/core/auto_download.py:955-956 | over a run, a request with identifiable new releases is reopened after failures at most as often as its list has room, so at most three times |
| RetryRuns.FullListStaysClosed | shelfmark/core/auto_download.py:1239-1245 | once a list holds three releases no later pass of the run reopens that request after a failure |
| RetryRuns.RepeatsAreRetriedForever | shelfmark/core/auto_download.py:1239-1266 | any undelivered request whose release cannot be told or is listed already, with room on its list, is reopened after a failure n times for every n, week after week, its list unchanged |
| RetryRuns.LimitHoldsExactly | shelfmark/core/auto_download.py:1186-1190 | the documented limit holds in every run exactly when each failure below it is of a release that can be told and is not listed |
| RetryRuns.ListedReleaseIsRetriedForever | docs/environment-variables.md:1134-1136 | a run, for every n, in which a listed release fails n times and is retried each time |
| SearchBackoff.RecordSearchOutcome | shelfmark/core/auto_download.py:913-944 | a no-match of a pending request counts up and stamps the search, a match or an owned book clears the record, anything else and a failed write change nothing |
| SearchBackoff.RecordingWrites | shelfmark/core/auto_download.py:913-944 | nothing but the backoff record changes: one more pass with the second of the search, or cleared, or left as it was |
| SearchBackoff.RecordingKeepsFailedReleases | shelfmark/core/auto_download.py:931-944 | recording a search never changes any request's failed releases, so it is work the retry limit does not notice |
| SearchBackoff.CounterCountsNoMatches | shelfmark/core/auto_download.py:913-944 | in every run the counter is the number of counted no-match searches since the last match |
| SearchBackoff.SearchesAreSpacedOut | shelfmark/core/auto_download.py:895-910 | after n >= 3 no-matches, the next counted search under a positive limit starts, and is recorded, at least min(limit, n-2) days less one hour later |
| SearchBackoff.NeverHeldBackLonger | shelfmark/core/auto_download.py:895-910 | a request is held back exactly until that wait has passed, and never with a zero limit or fewer than three no-matches |
| Releases.BetterIsOrder | shelfmark/core/auto_download.py:532-567 | the preference key orders releases totally up to ties, so sorting by it is well defined |
| Releases.BetterMeans | shelfmark/core/auto_download.py:532-567 | a release is not behind another exactly when, in this order, its format, downloads, seeders, free slot, queue, upload speed and size are no worse, formats being m4b, m4a, mp3, other audio for audiobooks and epub, kepub or azw3, mobi or azw, fb2 or pdf for ebooks |
| Sorting.SortStable | shelfmark/core/auto_download.py:1533-1535 | sorting keeps tied elements in the order they were found |
| Ranking.ReferenceExists | shelfmark/core/auto_download.py:628-639 | with two or more known sizes some size is at most 2.5 times the median |
| Ranking.ReferenceCopyIsKept | shelfmark/core/auto_download.py:628-639 | the copy of the reference size is never called undersized, for any percentage from 0 to 100 |
| Ranking.DemoteUndersizedSplits | shelfmark/core/auto_download.py:642-646 | demotion is a stable partition: full copies in order, then thin ones in order |
| RankingRules.UndersizedMeans | shelfmark/core/auto_download.py:628-639 | exactly the audiobook copies under the percentage of the largest known size within 2.5 times the median are undersized, with two or more known sizes |
| Ranking.DemoteDeadSources | shelfmark/core/auto_download.py:798-835 | the loop splits the ranking stably into live and dead and reads at most five complaint pages, none after the deadline |
| RankingRules.DeadExactly | shelfmark/core/auto_download.py:798-835 | exactly the releases of a peer that failed lately, or complained about on one of the first five pages read in time, are dead |
| Ranking.RankingIsFourSortedGroups | shelfmark/core/auto_download.py:1533-1538 | the final ranking is a permutation made of live full, live thin, dead full and dead thin copies, each group best first |
| RankingRules.RankingMeans | shelfmark/core/auto_download.py:1533-1538 | in fields: the four groups hold what their names say, and for any two places of one group the earlier release is no worse in format, downloads, seeders, peer and size |
| Selection.FillMissingAuthors | shelfmark/core/auto_download.py:487-521 | in place, over the array, releases are filled in as the specification says, and none when the book names no author |
| Selection.FilledExactly | shelfmark/core/auto_download.py:487-521 | place by place: exactly the first three releases that want an author and are reached in time are looked up, and get the credited author if there is one |
| Selection.FilledWantedAuthor | shelfmark/core/auto_download.py:487-521 | only releases that fail just for want of an author are filled in, each with the credited author and before the deadline |
| Selection.FewAreFilled | shelfmark/core/auto_download.py:504-511 | at most three releases are filled in |
| Selection.InspectBest | shelfmark/core/auto_download.py:1531-1556 | the inspection loop returns the choice of the specification and reports packs when nothing but packs was seen |
| Selection.ChoiceIsRight | shelfmark/core/auto_download.py:1539-1556 | nothing is chosen exactly when the best three are all packs; otherwise a full-size single-file copy, if one is reached, or else the best-ranked non-pack |
| Selection.ChoiceInFields | shelfmark/core/auto_download.py:1539-1556 | in fields: the choice among the best three is no pack, is the whole copy reached before anything good enough or else the first non-pack, and has no better release behind it in its group |
| Selection.AutoDownload | shelfmark/core/auto_download.py:1502-1616 | over all sources and query variants the first attempt that yields a choice decides; without one the outcome is an error exactly if a source failed, and "only packs" exactly if none failed and a pack was seen |
| Selection.ExcludedExactly | shelfmark/core/auto_download.py:1493-1498 | a release is excluded exactly when it is dead, or listed as failed and, where recency is known, recent |
| Selection.CandidateIsSound | shelfmark/core/auto_download.py:1520-1531 | a candidate was returned by the source, is not excluded and strictly matches, its author perhaps filled in |
| Selection.CandidatesExactly | shelfmark/core/auto_download.py:1520-1531 | the candidates are exactly the offered strict matches; only if there are none, and the book names an author, those that match once authors are filled in |
| Selection.QueuedReleaseIsSound | shelfmark/core/auto_download.py:1495-1579 | the queued release is not excluded, strictly matches, is no pack, and is the right choice of its source's best three, with no better release behind it in its group; every earlier attempt had only packs on top |
| Selection.RetryPicksAnotherRelease | shelfmark/core/auto_download.py:1477-1498 | no search, whatever it finds, queues the release a reopened request failed with, exactly while that failure is recent or the release is dead |
| BypassHelper.InvariantHolds | shelfmark/bypass/internal_bypasser.py:1142-1287 | in every state of every interleaving the protocol invariant holds |
| BypassHelper.ParentKeepsInv | shelfmark/bypass/internal_bypasser.py:1142-1287 | every step of the application keeps it: spawn, write, retry, poll, cancel, timeout, kill, read, clean up, idle close |
| BypassHelper.HelperKeepsInv | shelfmark/bypass/internal_bypasser.py:1810-1875 | every step of the helper keeps it: reading a line, staging in pieces, renaming, failing over to the error answer, dying anywhere |
| BypassHelper.ReturnedIsTheAnswer | shelfmark/bypass/internal_bypasser.py:1253-1287 | a returned payload is the complete answer a helper composed for that same request and renamed into place earlier in the run |
| BypassHelper.NeverHalfWritten | shelfmark/bypass/internal_bypasser.py:1810-1819 | no half-written file is ever visible under a result path, and reading one always yields an answer |
| BypassHelper.AtMostOneAlive | shelfmark/bypass/internal_bypasser.py:1142-1181 | at most one helper is alive |
| BypassHelper.FinishedLeavesNothing | shelfmark/bypass/internal_bypasser.py:1276-1287 | once a request is over no helper holds it, in its pipe or its work, and neither of its files remains |
| BypassHelper.SolvedAtMostOnce | shelfmark/bypass/internal_bypasser.py:1225-1244 | no request is read by two helpers, so the retry never solves a request twice |
| BypassHelper.AnswersComeBack | shelfmark/bypass/internal_bypasser.py:1211-1287 | for every payload there is a run that returns it for the first request ever made |
| BypassRecovery.UnsentCanBeAnswered | shelfmark/bypass/internal_bypasser.py:1142-1244 | in every state of every run, a request not sent yet and not refused by a second helper has for every payload a continuation that returns it, whether the remembered helper is idle, about to read, leaving or dead |
| BypassRecovery.RefusedTwiceIsLost | shelfmark/bypass/internal_bypasser.py:1225-1244 | a request that the second helper has stopped reading for is never answered in any continuation, so the condition is exact |
| BypassRecovery.DroppedUnsent | shelfmark/bypass/internal_bypasser.py:1225-1244 | a request is dropped unsent only when no process can be started or two different helpers have refused it |
| BypassRecovery.CanAlwaysRest | shelfmark/bypass/internal_bypasser.py:1253-1287 | from every state of every run the application can finish with its request and come to rest |
| BypassRecovery.NextCanBeAnswered | shelfmark/bypass/internal_bypasser.py:1142-1150 | and from there, whatever has become of the helper, the next request can be answered with any payload |
| BypassRecovery.HelperCanBeReaped | shelfmark/bypass/internal_bypasser.py:1197-1209 | at rest the idle helper can be stopped, which leaves none alive and none remembered |
| BypassRecovery.FailuresHaveReasons | shelfmark/bypass/internal_bypasser.py:1253-1287 | a sent request ends in an error only after a cancellation or timeout, an unreadable answer, or a helper seen dead |
| BypassRecovery.DeathIsNoticed | shelfmark/bypass/internal_bypasser.py:1262-1267 | while the application waits, a helper is taken for dead exactly when it is, and the request then ends |
| BypassRecovery.ExitsHaveReasons | shelfmark/bypass/internal_bypasser.py:1865-1879 | a helper leaves its loop only when its input is closed, its end of the pipe is lost, or an error answer could not be published |
| BypassRecovery.SecondFailureEnds | shelfmark/bypass/internal_bypasser.py:1841-1862 | failing to publish twice with nothing published in between ends the helper |
| Accounts.UserDb.Update | shelfmark/core/user_db.py:421-444 | an update succeeds exactly when the row exists and the rewritten table is valid, and otherwise changes nothing |
| Accounts.UserDb.Create | shelfmark/core/user_db.py:297-341 | a new row under the next id exactly when the extended table is valid, and otherwise nothing |
| Accounts.UserDb.Delete | shelfmark/core/user_db.py:446-473 | exactly the row of that id goes |
| Accounts.RewriteKeepsValid | shelfmark/core/user_db.py:421-444 | a rewrite that clashes with no other row keeps ids ascending and names and subjects unique |
| Accounts.AddKeepsValid | shelfmark/core/user_db.py:297-341 | so does adding a row that clashes with none |
| Accounts.WithoutKeepsValid | shelfmark/core/user_db.py:446-473 | so does deleting any rows |
| Linking.NextSuffixUsername | shelfmark/core/external_user_linking.py:131-144 | the loop ends, with the first name of the sequence that is free or owned by the excluded row |
| Linking.TakenNamesAreFew | shelfmark/core/external_user_linking.py:131-144 | k different candidates that are all taken need k rows, which is why the loop ends for every finite table |
| Linking.CandidateInjective | shelfmark/core/external_user_linking.py:131-144 | different suffixes make different names |
| Linking.UpsertExternalUser | shelfmark/core/external_user_linking.py:230-366 | matching, renaming, taking over, aliasing, suffixing, creating and refusing leave the table and outcome of the specification, and the row that was reached holds what was asked; no write it makes is ever refused |
| Linking.UpsertWrites | shelfmark/core/external_user_linking.py:106-128 | field by field: the row written has the new role if roles are synced and else its own, the address, name and subject that were given, the given source, and its own username unless that is synced; a created row has all that was given; every other row stays |
| Linking.UpsertFinds | shelfmark/core/external_user_linking.py:72-227 | which row that is: the one with the subject, else with the name and source, else the only one with the address; else a free name, takeover, the first free suffix, or the lowest alias of that source |
| Linking.UpsertKeepsValid | shelfmark/core/external_user_linking.py:165-366 | no upsert gives two rows one username or one subject |
| LinkingRepeat.AfterUpsert | shelfmark/core/external_user_linking.py:266-366 | after an upsert the same identity selects the very row it reached, whatever was renamed, re-sourced or re-mailed |
| LinkingRepeat.UpsertRepeats | shelfmark/core/external_user_linking.py:266-366 | any number of repetitions reaches the same account and creates none, under takeover and alias always, under suffix with a subject |
| LinkingRepeat.SuffixKeepsCreating | shelfmark/core/external_user_linking.py:165-195 | under suffix without a subject or email link a taken name makes another account on the repetition |
| LinkingRepeat.NotFoundRepeats | shelfmark/core/external_user_linking.py:266-366 | an upsert that finds nothing and may not create changes nothing |
| CwaSync.SyncCwaUsersFromRows | shelfmark/core/cwa_user_sync.py:53-103 | the two loops leave the table of the specification and count created, updated, deleted and all |
| CwaSync.UpsertReaches | shelfmark/core/cwa_user_sync.py:25-50 | one row's upsert ends at a Calibre-Web account and turns no other account into one or out of one |
| CwaSync.RowsKeepInvariant | shelfmark/core/cwa_user_sync.py:66-82 | after any rows the active accounts are Calibre-Web accounts, the counts add up to the rows with a username, and accounts outside the active set are as before |
| CwaSync.SyncIsExact | shelfmark/core/cwa_user_sync.py:53-103 | after the sync the Calibre-Web accounts are exactly those the rows mapped to, no account of another source is deleted, and created plus updated is the number of rows with a username |
| CwaSync.AccountsShowTheirRow | shelfmark/core/cwa_user_sync.py:53-82 | after the sync every Calibre-Web account has the address of one of the rows, and is an administrator exactly if that row's lowest role bit is set |
| CwaSync.CreatedAreNew | shelfmark/core/cwa_user_sync.py:66-82 | exactly as many accounts are added as are counted as created |
| CwaRepeat.NoEmailsRepeat | shelfmark/core/cwa_user_sync.py:53-103 | from any table, a second sync of rows without addresses creates and deletes nothing |
| CwaRepeat.RepeatsWhenLast | shelfmark/core/cwa_user_sync.py:53-103 | nor does one of different users' rows of which only the last carries an address |
| CwaRepeat.BreaksUnlessLast | shelfmark/core/external_user_linking.py:266-342 | for all other rows of different users some valid table makes the second sync create an account or delete one |
| CwaRepeat.SyncRepeatsExactly | shelfmark/core/cwa_user_sync.py:53-103 | so repeating a sync of different users' rows is without such effect from every table exactly when no row with an address precedes another row |
| Lockout.LoginGuard.CleanupOldLockouts | shelfmark/core/auth_routes.py:39-49 | full counters without a moment are repaired, expired ones dropped, all others kept |
| Lockout.LoginGuard.GetLockoutUntil | shelfmark/core/auth_routes.py:52-77 | the stored moment, or the repaired one for a full counter when asked to repair |
| Lockout.LoginGuard.IsAccountLocked | shelfmark/core/auth_routes.py:80-88 | true exactly while the moment lies ahead, after the cleanup |
| Lockout.LoginGuard.RecordFailedLogin | shelfmark/core/auth_routes.py:91-121 | one failure more for that user and no other, and from the tenth on locked for thirty minutes |
| Lockout.LoginGuard.ClearFailedLogins | shelfmark/core/auth_routes.py:124-128 | forgets that user only |
| Lockout.LoginGuard.ApiLogin | shelfmark/core/auth_routes.py:213-280 | refused exactly while the stored moment lies ahead; otherwise accepted exactly when the check succeeds, rejected exactly when it fails, the rejection saying locked from the tenth failure on; and what is then stored of this user and of all others |
| Lockout.StatesAreWellFormed | shelfmark/core/auth_routes.py:39-128 | in every state of every run a counter has a moment exactly when it is full |
| Lockout.WindowInvariant | shelfmark/core/auth_routes.py:39-128 | failures inside a window are all in the counter, or the user is locked beyond the window |
| Lockout.AtMostTenFailuresPerWindow | shelfmark/core/auth_routes.py:34-35 | in every half-open thirty-minute window without a success of that user at most ten checks fail, a failure being a check that fails outside a lock, however the logins of others fall |
| Lockout.TenFailuresLock | shelfmark/core/auth_routes.py:80-121 | and once ten checks have failed in such a window every further login of that user in it is refused |
| Lockout.LockHolds | shelfmark/core/auth_routes.py:80-121 | a failure that fills the counter refuses every login of that user for the next thirty minutes |
| Lockout.CounterIsEarned | shelfmark/core/auth_routes.py:91-128 | a counter never exceeds the user's own failures since the last success |
| Lockout.RefusalIsDeserved | shelfmark/core/auth_routes.py:80-121 | a login is refused only within thirty minutes of a failure, and after ten failures without a success |
| ImageCache.Cache.Get | shelfmark/core/image_cache.py:271-347 | a hit returns what was last put and moves only the access time; a miss rereads the index, which revives and loses no entry; expired entries go, live failures stay |
| ImageCache.ExpiredMeans | shelfmark/core/image_cache.py:211-229 | a failure is over after an hour, a passing one after a minute, an image after the time to live unless that is zero |
| ImageCache.Cache.Put | shelfmark/core/image_cache.py:349-402 | evicts by the rule, stores, and leaves the indexed total at most the larger of the limit and the image |
| ImageCache.Cache.PutNegative | shelfmark/core/image_cache.py:404-418 | remembers a failure in place of whatever was there and leaves the files alone |
| ImageCache.Cache.Delete | shelfmark/core/image_cache.py:420-447 | removes one entry and its file, and saves; an unknown key changes nothing |
| ImageCache.Cache.Clear | shelfmark/core/image_cache.py:449-478 | empties index and statistics and deletes exactly the files of the indexed images |
| ImageCache.Cache.EvictIfNeeded | shelfmark/core/image_cache.py:235-269 | the loop evicts what the specification says, saves if it evicted, and keeps the saved index equal up to access times |
| ImageCache.EvictionIsLeastRecent | shelfmark/core/image_cache.py:235-269 | the rest fits or nothing is left; the evicted are the least recently accessed, in order; with the last of them still there the rest would not fit |
| ImageCache.TotalMeans | shelfmark/core/image_cache.py:231-233 | the total is the sum of the image sizes, failures counting nothing |
| ImageCache.EvictionForgetsFailures | shelfmark/core/image_cache.py:248-266 | any eviction drops every remembered failure, since they count as never accessed and free no space |
| ImageCache.EvictsNoMoreThanNeeded | shelfmark/core/image_cache.py:364-381 | under a given limit that the other images keep, no put of any size evicts more than needed exactly when its key held no bytes before |
| ImageCache.TotalAfterStore | shelfmark/core/image_cache.py:231-269 | after eviction and storing the total is at most the larger of the limit and the image |
| ImageCache.ReloadingKeepsFaithful | shelfmark/core/image_cache.py:123-133 | reading the saved index back keeps every entry true to its file and the total as it was |
| ImageCache.ReadThenMiss | shelfmark/core/image_cache.py:50-53 | after a read and then a miss the access time survives exactly if the read was due to save the index or the saved time is the same |
| ImageCache.MissUndoesRead | shelfmark/core/image_cache.py:283-290 | a run of two puts, a read and a miss, for any two images that fit, after which the image read last counts as the older |
| LibraryIndex.CacheSlot.EntriesFor | shelfmark/core/library_index.py:76-133 | a call leaves the slot and gives the answer of the specification: back-off, reuse, index, or failure with its fallback |
| LibraryIndex.CallMeans | shelfmark/core/library_index.py:76-133 | in fields: held back within a minute of a failure, else reused while under ten minutes old and unchanged, else replaced by what the library lists, else a failure noted; and the answer in each case |
| LibraryIndex.CacheSlot.Store | shelfmark/core/library_index.py:63-69 | a store sets listing, time and fingerprint and ends the back-off |
| LibraryIndex.BooksAreNeverForgotten | shelfmark/core/library_index.py:106-115 | over sequential calls a non-empty index is never replaced by an empty one, and no later answer is empty |
| LibraryIndex.AnswersWereFetched | shelfmark/core/library_index.py:76-133 | a strict call answers only with a list the library itself gave, and refuses exactly when there is none |
| LibraryIndex.AnswersAreRecent | shelfmark/core/library_index.py:98-105 | unless a read fails or is held back, the answer is new, or unchanged and under ten minutes old |
| LibraryIndex.FailuresAreSpaced | shelfmark/core/library_index.py:84-97 | after a failed read the library is not read for a minute, so at most one read fails in a half-open minute |
| LibraryIndex.ReadsOtherwise | shelfmark/core/library_index.py:84-97 | a read is held back only within a minute of a failed one |
| LibraryIndex.NotHeldIsKnown | shelfmark/core/library_index.py:220-231 | "not held" is said exactly when every library answered without the book, "held" exactly when one has it and all before it answered without it; only strict calls can fail to tell |
| LibraryIndex.FirstDecides | shelfmark/core/library_index.py:220-231 | the first library that holds the book or refuses decides, "held" or an error; the libraries up to it have been called and no other |
| LibraryCalls.AloneIsEntriesFor | shelfmark/core/library_index.py:83-133 | the steps of a call, taken without interruption, have the effect and the answer of the whole call |
| LibraryCalls.EmptiedOnlyByRace | shelfmark/core/library_index.py:105-131 | over all interleaved runs, a filled index is emptied exactly by the store of a call that was listed nothing and had looked when there were no entries |
| LibraryCalls.EmptiedNeedsAnother | shelfmark/core/library_index.py:105-131 | and then another call filled the index between that look and that store |
| LibraryCalls.RaceForgetsBooks | shelfmark/core/library_index.py:105-131 | a run of two overlapping calls, from an unused slot, that ends with a filled index emptied |
| LibraryCalls.AnswersWereListed | shelfmark/core/library_index.py:88-133 | however calls overlap, a strict one answers only with a list the library gave, and only a strict one refuses |
| LibraryCalls.FailuresInAMinute | shelfmark/core/library_index.py:84-120 | in any half-open minute at most c reads fail, c being the most calls under way at once, and c more for each store that ends a back-off begun in it; with one call at a time, at most one |
| LibraryCalls.OverlappingCallsAllFail | shelfmark/core/library_index.py:84-120 | the bound is reached: n calls let past together all fail in one moment |
| Rooms.WebSocketManager.SetSidRoom | shelfmark/api/websocket.py:80-95 | moves one client to its room, keeping every count equal to the clients mapped to the room |
| Rooms.WebSocketManager.SyncUserRoom | shelfmark/api/websocket.py:97-111 | a client ends up in exactly the room of its session, or in none |
| Rooms.WebSocketManager.LeaveUserRoom | shelfmark/api/websocket.py:122-132 | the client is in no room and its former room's count is right |
| Rooms.WebSocketManager.IncrementUserRoom | shelfmark/api/websocket.py:70-71 | the room has one client more, or its first, and the other rooms keep theirs |
| Rooms.WebSocketManager.DecrementUserRoom | shelfmark/api/websocket.py:73-78 | one less, the room dropped with its last client |
| Rooms.WebSocketManager.BroadcastStatusUpdate | shelfmark/api/websocket.py:134-169 | every client receives exactly one emission, its own: administrators everything, users their own status where there is one; no room without a client is addressed |
| Rooms.LeavingKeepsCounted | shelfmark/api/websocket.py:73-90 | leaving keeps counts equal to clients and no room without any |
| Rooms.JoiningKeepsCounted | shelfmark/api/websocket.py:70-95 | joining keeps counts equal to clients |
| Rooms.RoomsDiffer | shelfmark/api/websocket.py:97-111 | different sessions never share a room |
| Rooms.IdOfUserRoom | shelfmark/api/websocket.py:163-165 | the id read back from a room name is the id it was made from |
| TtlCache.CacheService.Get | shelfmark/core/cache.py:37-48 | answers as the plain timed map does, except for keys evicted since they were set |
| TtlCache.CacheService.Set | shelfmark/core/cache.py:50-57 | stores; a full cache first drops one batch of the soonest to expire, also when the key is already in it |
| TtlCache.CacheService.Invalidate | shelfmark/core/cache.py:59-65 | forgets that key in cache and plain map |
| TtlCache.CacheService.InvalidatePrefix | shelfmark/core/cache.py:67-73 | forgets exactly the keys with that prefix |
| TtlCache.CacheService.Clear | shelfmark/core/cache.py:75-78 | forgets everything |
| TtlCache.CacheService.CleanupExpired | shelfmark/core/cache.py:80-87 | drops exactly the expired entries and changes no answer |
| TtlCache.CacheService.EvictOldest | shelfmark/core/cache.py:89-99 | drops one tenth of the entries, at least one, and none that expires later than one kept |
| TtlCache.BatchIsTenth | shelfmark/core/cache.py:89-99 | a batch is a tenth of ten or more entries rounded down, one of fewer, and none expires later than an entry kept |
| TtlCache.PrefixIsBatch | shelfmark/core/cache.py:94-99 | the first keys in expiry order are such a batch |
| TtlCache.RefinesAfterSet | shelfmark/core/cache.py:50-57 | setting after dropping a batch keeps the cache in agreement with the plain timed map |

## Left out

- Routes, sessions, cookies, responses, settings tabs, log messages and notification texts: no state of their own.
- Browser automation, DNS and HTTP: foreign calls. In the helper only the pipe, the process and the two file paths matter.
- Title, author, language, numeral and format matching: strict matching is a predicate of the query. It rests on text rules with no state.
- Query variants and source priority (`auto_download.py:1276-1397`): the queries and the sources' answers are parameters, in order.
- Pack inspection, author pages, complaint pages and `fulfil_request`: functions given to the walk; deadlines are the number of reads that still fall in time.
- `recent_failed_peers`, `recent_failed_releases`, `recent_dead_releases` and `_latest_history`: SQL. Their results are parameters, history being the newest row for each request.
- The outer passes of `auto_download_pending` and `retry_failed_downloads`: configuration and calls of the modelled parts, with the library check of `_existence_check` among the outcomes.
- Encoding of rows: JSON, timestamps and SQL text. Rows hold times and keys directly, `book_data` is always an object, and rows come in the order they are listed.
- Text normalisation: names and emails are held trimmed, and lower case is that of ASCII letters.
- Floating point: sizes, percentages and the factor 2.5 are compared exactly in integers, and one clock reading serves the comparisons of a step.
- Password checking inside `ApiLogin`: a check succeeds, fails or aborts, and one login reads the clock once.
- Helper assumptions: a killed helper is dead before the application goes on, unlinking succeeds, no two requests share a result path, and a failed write delivers no line. The watchdog that ends a helper whose parent died is not modelled.
- Fairness and speed of the bypass protocol: `BypassRecovery` proves that a request can always still be answered, not when the processes take their steps.
- Image type detection and fetching (`image_cache.py:349-376`, `580-645`): the extension and content type of a put are parameters. Directory synchronisation at start-up can adopt leftover files and falls outside the refinement to the latest put.
- Image cache failures and other processes: every write succeeds, and one process owns the directory. The order of ties in access time is left open.
- `test_connection` of the library index stores unconditionally and is not part of the runs.
- WebSocket connection counts, progress and search broadcasts: one addressee each. A broadcast sees the rooms of one moment.
- Cache statistics, the metadata key function and the `cacheable` decorator: key joining is not injective.
- TtlCache.CacheService.constructor: requires a maximum of at least one entry, because with none the bound cannot hold after a set.
- LinkingRepeat.UpsertRepeats: under suffix only with a subject, because without one a repetition creates another account.
- CwaRepeat.SyncRepeatsExactly: speaks of rows with different usernames and addresses, as a Calibre-Web database keeps them; rows that repeat a name or an address are left to `CwaSync.SyncIsExact`.
