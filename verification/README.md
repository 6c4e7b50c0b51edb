# Verified model of the QBIT Connect backend's stateful core

The project models the algorithms of the backend whose correctness depends on history rather
than on one call, and proves what every history keeps.

| file | what it models |
|---|---|
| `Retention.dfy` | grandfather-father-son pruning of backups over a manifest that is never rewritten |
| `RetentionLimits.dfy` | which changes of the limits make a prune want back a deleted file |
| `Aggregation.dfy` | incremental refresh and range rebuild of a derived day/dimension table, with runs that raise part-way and commit |
| `AggregationRuns.dfy` | what all histories of inserts, ticks, refreshes and rebuilds keep; progress; the diagnostic |
| `RateLimit.dfy` | the sliding-window limiter and its retry hint |
| `LoginGuard.dfy` | account lockout as the two login endpoints drive it |
| `Visibility.dfy` | four forms of one access rule and where they agree |
| `Worker.dfy` | the worker's dequeue loop and bounded drain as a transition system |
| `Paths.dfy` | storage keys, safe file names and generated keys |
| `Filters.dfy` | cleaning of filter parameters and their canonical payload |
| `Rbac.dfy` | permission seeding, role replacement and the last-super-admin guard |
| `Redaction.dfy` | recursive masking of secrets |
| `Text.dfy`, `FiniteSets.dfy`, `Wrappers.dfy` | Python string operations, facts about finite sets, and option and result types, used above |

Objects whose methods update fields are classes whose methods are proved equal to functions on
values; the results about whole histories are then lemmas about those functions. The worker is a
state machine over the steps between awaits. Clocks, fault points, the outcome of deleting a
file, path resolution, UUID parsing and case lowering are parameters, so each result holds for
every choice of them.

## Where the code and its documentation differ

The model follows the code in each case.

- `docs/21-backup-recovery-architecture.md:19` promises 14 daily, 8 weekly and 6 monthly copies.
  Database, files and config artifacts share one set of slots, and the dump is the oldest of its
  cycle. `Retention.ScheduledDumpIsKeptIff` says exactly when a scheduled dump is kept: within the
  daily budget, or as one of the two entries right behind it. So at most one dump outlives the
  budget (`Retention.AtMostOneDumpOutlivesTheBudget`), and with the shipped limits any number of
  daily cycles keeps exactly the five newest dumps (`Retention.FiveDumpsAreKept`).
- The module docstring of `login_guard.py` says that counters reset on any successful password
  verification. A right password resets nothing while the account is locked: the endpoints look at
  the lock in between (`LoginGuard.RightPasswordDuringLockResetsNothing`).
  `LoginGuard.LoginAcceptedIff` is the exact condition under which it is accepted and resets the
  counter. Wrong passwords are counted before the lock is looked at, so
  their number is unbounded (`LoginGuard.CountedFailuresAreUnbounded`); what is bounded is the
  number of guesses that could have succeeded (`LoginGuard.LiveGuessBound`).
- `refresh_incremental` compares `max_days` with the rows it wrote, not with days.
  `AggregationRuns.ProgressIff` says exactly when a refresh gets further. A newest day with that
  many groups stays the newest through every later insert, day and refresh
  (`AggregationRuns.CrowdedDayStallsForEver`), and the first refresh can already get stuck
  (`AggregationRuns.CrowdedFirstDayGetsStuck`); only a rebuild gets past it. Refreshes catch up
  exactly if no such day lies ahead with leads behind it (`AggregationRuns.RefreshesCatchUpIff`).
- The docstring of `prune_backups` says that the newest `keep_daily` artifacts are always kept. It
  counts manifest lines, those of deleted files included: once a limit is raised, a deleted file
  can hold a slot (`RetentionLimits.LooserLimitsWantBack`), and exactly the changes of
  `RetentionLimits.NothingIsWantedBackIff` are free of that.
- A manual rebuild may leave days out that no later refresh fills
  (`AggregationRuns.FreshRebuildLosesHistory`, `AggregationRuns.RebuildKeepsPrefixIff`).
- Listing and fetching are meant to apply one rule. They do for exactly the models and scopes of
  `Visibility.ListingIsFetchingIffAligned` and `Visibility.ClauseBuildersAgreeIff`; conversations
  can be listed and then answer 404 (`Visibility.ListedConversationIsNotFound`).
- The guard on deactivation counts inactive super admins, so two deactivations can leave nobody in
  charge (`Rbac.TwoDeactivationsLeaveNobody`, `Rbac.DeactivationKeepsChargeIff`).
- Not every generated storage key passes the key validation
  (`Paths.GeneratedKeyIsAcceptedIff`, `Paths.BackslashExtensionIsRefused`), and the segment check
  for `.` can never fire (`Paths.SegmentsForbiddenIff`).
- The payload of a filter set with a period is refused when it is read back
  (`Filters.PayloadReadsBackIff`).

## Model

| member | source | states |
|---|---|---|
| Retention.BackupService.RunBackup | backend/app/services/backup.py:175-182 | a completed backup adds its file, and one line at the end of the manifest unless the append fails; no line is rewritten |
| Retention.BackupService.SelectKept | backend/app/services/backup.py:349-373 | the loop over budget, week set and month set keeps exactly the paths of the slot specification |
| Retention.BackupService.PruneBackups | backend/app/services/backup.py:328-389 | deletes exactly the existing, recorded, not kept and not refused files, reports each once, and leaves the manifest alone |
| Retention.CandidatesAreCompleted | backend/app/services/backup.py:343-346 | only completed lines with a path are looked at, each as often as it was appended |
| Retention.PruneDeletesIff | backend/app/services/backup.py:375-389 | an existing file is deleted exactly if it can be, some completed line records it, and every such line is rejected |
| Retention.WeekStartsOnMonday | backend/app/services/backup.py:365 | instants share a `%G-W%V` label exactly within one span from Monday to Sunday (section 4.1.4 of ISO 8601:2004) |
| Retention.SortIsNewestFirst | backend/app/services/backup.py:347 | candidates are processed newest first |
| Retention.SortPermutes | backend/app/services/backup.py:347 | sorting loses and invents no entry |
| Retention.SortIsStable | backend/app/services/backup.py:347 | entries with one timestamp keep their manifest order |
| Retention.SortOfAppended | backend/app/services/backup.py:316-347 | a line appended to the manifest takes its place behind those dated at or after it, and moves no other |
| Retention.ExemplarsAreKept | backend/app/services/backup.py:349-373 | an entry is kept exactly as one of the newest `keep_daily`, as the newest elder of its week inside the age limit, or as the newest remaining entry of a month with fewer than `keep_monthly` remaining months seen |
| Retention.WeeklyCopyIff | backend/app/services/backup.py:360-369 | by dates alone: an entry past the daily budget is a weekly copy exactly if it is the newest such one of its week and at most `7 * keep_weekly` days old |
| Retention.EveryWeeklyCopyIsKept | backend/app/services/backup.py:366-369 | artifacts a week apart fill all `keep_weekly + 1` weekly copies, the last one on the edge of the window |
| Retention.NewestMonthsAreKept | backend/app/services/backup.py:366-373 | with calendar months these are the newest remaining entries of the `keep_monthly` newest months that have one |
| Retention.KeptLaterWasKeptEarlier | backend/app/services/backup.py:342-373 | an old entry kept by a later prune with limits no looser, behind any newer entries, was kept by the earlier prune |
| Retention.InsertionOnlyCosts | backend/app/services/backup.py:342-373 | the same when an entry of any date came in between: on its account nothing else is kept |
| Retention.KeptPathsOnlyShrink | backend/app/services/backup.py:342-373 | the same for the paths of a manifest, which may repeat, and any appended lines |
| Retention.SlotsStayBacked | backend/app/services/backup.py:328-389 | after any history of backups and prunes, with backups of any date, no slot of a prune that is no looser than the earlier ones is held by a file that retention deleted |
| Retention.PruneAgainRetriesRefused | backend/app/services/backup.py:375-389 | a second prune with the same clock and manifest deletes exactly what it can of the files that the first could not delete, and nothing else |
| RetentionLimits.NothingIsWantedBackIff | backend/app/services/backup.py:328-389 | among configurable limits, a prune never wants back a file that an earlier one deleted exactly if no limit is looser and the cutoff of the weekly copies does not lie further back |
| RetentionLimits.LooserWantsBack | backend/app/core/config.py:290-292 | for any looser configurable limits, with months of 31 days, a store on which a deleted file is wanted back |
| RetentionLimits.LooserLimitsWantBack | backend/app/core/config.py:290-292 | sixteen old artifacts on which 15 daily copies want back what the shipped 14 deleted |
| Retention.KeptSizeBound | backend/app/services/backup.py:352-373 | at most `keep_daily + (keep_weekly + 1) + keep_monthly` readable entries are kept |
| Retention.ThirdOfAWeekIsRejected | backend/app/services/backup.py:361-373 | past the daily budget the third entry in a row of one week and month is rejected, whatever it backs up |
| Retention.ScheduledDumpIsKeptIff | backend/app/worker.py:497-518 | a dump of the scheduled cycle is kept exactly within the daily budget, as the first entry past it if it is young or months are kept, or as the second behind a young files artifact if months are kept |
| Retention.AtMostOneDumpOutlivesTheBudget | backend/app/worker.py:497-518 | past the daily budget at most one dump of the scheduled cycle is kept |
| Retention.FiveDumpsAreKept | backend/app/core/config.py:288-292 | with the shipped limits any number of daily cycles keeps exactly the five newest dumps |
| Aggregation.ExactRows | backend/app/analytics/aggregation.py:108-129 | the group-by has one row per day and source with leads, holding their number |
| Aggregation.RowsAreLeads | backend/app/analytics/aggregation.py:111-129 | a row stands for a day and a source, no source counting as the empty one, exists exactly if some lead has them, and holds the number of those leads |
| Aggregation.GroupCountIsSources | backend/app/analytics/aggregation.py:114-128 | a day adds as many rows as its leads have different sources |
| Aggregation.WrittenIsExact | backend/app/analytics/aggregation.py:407-410 | writing days one after the other upserts the group-by of the whole range |
| Aggregation.RowsWrittenIsSize | backend/app/analytics/aggregation.py:407-412 | the row count of a finished run is the size of the group-by over the days it wrote |
| Aggregation.GroupCountIsSize | backend/app/analytics/aggregation.py:108-146 | the number that one day adds to the count is the number of rows of its group-by |
| Aggregation.MinDay | backend/app/analytics/aggregation.py:68-69 | the earliest operational day is attained and minimal |
| Aggregation.CoveredRange | backend/app/analytics/aggregation.py:68-73 | the covered range goes from the earliest lead to yesterday, or is the provisional first day, or yesterday alone without any lead |
| Aggregation.StopsWithTheRows | backend/app/analytics/aggregation.py:407-410 | the loop stops after the first day with which `max_days` rows are reached, or at the end of the range |
| Aggregation.AggregationService.LastAggregatedDay | backend/app/analytics/aggregation.py:76-77 | the newest day of the table, or none for an empty table |
| Aggregation.AggregationService.GroupKeys | backend/app/analytics/aggregation.py:111-129 | the rows of the group-by, each once, in any order |
| Aggregation.AggregationService.UpsertAll | backend/app/analytics/aggregation.py:130-146 | overwrites or adds the given rows; when it raises, every row is old or fresh and none is gone |
| Aggregation.AggregationService.AggregateLeads | backend/app/analytics/aggregation.py:108-146 | one day's group-by is upserted and counted, or partly upserted when a statement raises |
| Aggregation.AggregationService.RefreshDays | backend/app/analytics/aggregation.py:406-419 | the loop writes the days up to the stop that the row count gives and adds up their rows, or commits a partial day |
| Aggregation.AggregationService.RefreshIncremental | backend/app/analytics/aggregation.py:389-422 | the refresh of one table from the overlap day: up to date without a bookkeeping row, or completed or failed with the row that says so, and partial work committed |
| Aggregation.RefreshTables | backend/app/analytics/aggregation.py:382-423 | the tables are refreshed one after the other; the first failure ends the loop and leaves the remaining tables alone |
| Aggregation.AggregationService.RebuildRange | backend/app/analytics/aggregation.py:431-460 | the rebuild of one table: rejects an inverted range without effect; otherwise writes exactly the range, or part of it when it raises, and one bookkeeping row |
| Aggregation.RebuildTables | backend/app/analytics/aggregation.py:425-461 | an inverted range touches no table; otherwise the tables are rebuilt one after the other up to the first failure |
| AggregationRuns.EveryHistoryIsSettled | backend/app/analytics/aggregation.py:57-98 | after any interleaving of inserts, ticks, completed and failed refreshes and guarded rebuilds every day before the newest one holds exactly the group-by |
| AggregationRuns.StepKeepsInvariants | backend/app/analytics/aggregation.py:389-423 | each step keeps soundness and the settled prefix; the overlap repairs a partial newest day |
| AggregationRuns.IncrementalEqualsBatch | backend/app/analytics/aggregation.py:382-461 | a completed refresh behind which no covered lead is left leaves what a rebuild on an empty table gives |
| AggregationRuns.RefreshAgainChangesNothing | backend/app/analytics/aggregation.py:382-423 | a further refresh on the same day without new rows changes nothing, even if it is interrupted |
| AggregationRuns.CaughtUpCoversYesterday | backend/app/analytics/aggregation.py:70-73 | caught up means that every day before today is settled |
| AggregationRuns.RefreshLeavesTodayAlone | backend/app/analytics/aggregation.py:38-40 | rows of the day in progress are never written, except for a provisional first day |
| AggregationRuns.RefreshCommutesWithInserts | backend/app/analytics/aggregation.py:389-410 | a lead that arrives before a refresh of complete days may as well arrive after it |
| AggregationRuns.ArrivalsDuringRefresh | backend/app/analytics/aggregation.py:406-410 | any leads that arrive and days that begin between two days of a refresh change neither where it stops nor what it writes |
| AggregationRuns.ProgressIff | backend/app/analytics/aggregation.py:393-410 | a refresh that stops short advances the newest day exactly when that day has fewer than `max_days` groups |
| AggregationRuns.RefreshesCatchUpIff | backend/app/analytics/aggregation.py:393-410 | after as many completed refreshes as there are days to cover, whatever arrives and fails in between, the table is the batch table exactly if no day from the newest aggregated one on has `max_days` groups or more and covered leads behind it |
| AggregationRuns.BarrierStays | backend/app/analytics/aggregation.py:407 | no refresh of either outcome, insert or new day gets the table past such a day |
| AggregationRuns.ProvisionalDayCatchesUp | backend/app/analytics/aggregation.py:70-73 | when the newest day to cover is the start day, one completed refresh reaches the batch table |
| AggregationRuns.FirstDayIsWritten | backend/app/analytics/aggregation.py:70-73 | on the first day of operations the first refresh already writes the day in progress |
| AggregationRuns.CrowdedDayStallsForEver | backend/app/analytics/aggregation.py:407 | otherwise the newest day stays the newest through any inserts, ticks and refreshes, completed or failed |
| AggregationRuns.CrowdedFirstDayGetsStuck | backend/app/analytics/aggregation.py:407 | the first refresh ends in such a state when the first day is crowded and others follow |
| AggregationRuns.RebuildKeepsPrefixIff | backend/app/analytics/aggregation.py:425-461 | an arbitrary rebuild, completed or failed, keeps the settled prefix exactly if it added no newer day or everything before it is settled; a completed one adds a newer day exactly if its range has a newer lead |
| AggregationRuns.OldDaysAreFrozen | backend/app/analytics/aggregation.py:392-393 | no refresh ever changes a day before the newest one, so a gap stays |
| AggregationRuns.FreshRebuildLosesHistory | backend/app/api/v1/analytics.py:360-365 | a rebuild of recent days on an empty table hides every older lead |
| AggregationRuns.SumOfExact | backend/app/analytics/aggregation.py:543-556 | the `created` metrics of an exact range add up to the live count of its rows |
| AggregationRuns.AnyHistoryIsSound | backend/app/analytics/aggregation.py:80-98 | with rebuilds of any range no row ever counts more leads than exist |
| AggregationRuns.DiagnosticIsExact | backend/app/analytics/aggregation.py:543-560 | in sound states the totals match exactly when every day in range holds the group-by: errors cannot cancel |
| AggregationRuns.DiagnosticJudgesTheNewestDay | backend/app/analytics/aggregation.py:543-560 | in a history the check reports ok exactly when the newest day is complete |
| AggregationRuns.CaughtUpPassesDiagnostic | backend/app/analytics/aggregation.py:543-560 | after catching up the check reports ok |
| RateLimit.SlidingWindowRateLimiter.Check | backend/app/core/ratelimit.py:23-34 | records the call in the history and answers as the window does |
| RateLimit.SlidingWindowRateLimiter.PopExpired | backend/app/core/ratelimit.py:29-30 | pops exactly the leading events older than the cutoff |
| RateLimit.SlidingWindowRateLimiter.RetryAfterSeconds | backend/app/core/ratelimit.py:36-41 | the time until the oldest event leaves the window, never negative |
| RateLimit.SlidingWindowRateLimiter.Reset | backend/app/core/ratelimit.py:43-45 | starts a new history |
| RateLimit.WindowHoldsGrants | backend/app/core/ratelimit.py:28-33 | popped to any later cutoff, the deque holds exactly the allowed events since it, in order |
| RateLimit.AllowedIffRoom | backend/app/core/ratelimit.py:26-34 | a call is allowed exactly when fewer than `max_events` were allowed in the closed window before it |
| RateLimit.SlidingWindowBound | backend/app/core/ratelimit.py:23-34 | no closed interval of the window's length ever holds more than `max_events` allowed calls of a key |
| RateLimit.RetryAfterIsExact | backend/app/core/ratelimit.py:23-41 | after a denial a later call is allowed exactly when it comes strictly after the hinted instant, whatever other keys do |
| RateLimit.HintNamesOldestGrant | backend/app/core/ratelimit.py:36-41 | at any later instant the hint is the time until the oldest event leaves that was granted in the window of the key's last call |
| RateLimit.ZeroLimitNeverAllows | backend/app/core/ratelimit.py:31-41 | with a limit of zero the hint says no wait although every call is denied |
| LoginGuard.User.RegisterFailure | backend/app/services/login_guard.py:44-61 | counts the failure, and at the threshold locks and starts over; nothing when disabled |
| LoginGuard.User.RegisterSuccess | backend/app/services/login_guard.py:64-69 | clears the counter and the lock |
| LoginGuard.User.Login | backend/app/api/v1/auth.py:74-102 | a wrong password is counted before the lock is looked at; a right one is accepted only while unlocked |
| LoginGuard.AccountIsSummary | backend/app/services/login_guard.py:33-69 | counter and lock are a closed form of the failures since the last accepted login; the counter stays below the threshold |
| LoginGuard.LoginAcceptedIff | backend/app/services/login_guard.py:33-41 | a right password is accepted unless the last full threshold of failures is younger than the lockout |
| LoginGuard.RightPasswordDuringLockResetsNothing | backend/app/api/v1/auth.py:74-102 | after a full threshold of wrong passwords a right one during the lock leaves both the lock and the counter |
| LoginGuard.DisabledNeverLocks | backend/app/services/login_guard.py:48-49 | a threshold of zero leaves every account untouched |
| LoginGuard.LiveGuessBound | backend/app/services/login_guard.py:33-69 | a half-open interval of the lockout length without success holds at most the threshold of guesses that could have worked |
| LoginGuard.GuardedFailureBound | backend/app/services/login_guard.py:33-69 | if passwords were tried only while unlocked, the same would hold for all counted failures |
| LoginGuard.CountedFailuresAreUnbounded | backend/app/api/v1/auth.py:74-76 | as the endpoints are, any number of failures is counted in one interval |
| LoginGuard.LockOnlyExtends | backend/app/services/login_guard.py:51-55 | failures during a lock never shorten it |
| Visibility.ScopePrecedence | backend/app/services/authorization.py:90-97 | the member's override wins, then the first role with an organization default |
| Visibility.RestrictionIsConfigured | backend/app/services/authorization.py:90-101 | without an override or an organization default every role sees everything |
| Visibility.OverrideRestricts | backend/app/services/authorization.py:90-93 | under an OWNED_ONLY override no other row is fetched, accepted or listed, whatever the defaults are |
| Visibility.FetchesIff | backend/app/services/authorization.py:424-471 | who is handed a row, told by its cells, the caller's teams and the permission asked for |
| Visibility.FirstConfiguredIsFirst | backend/app/services/authorization.py:94-100 | the first role with a configured default decides |
| Visibility.CanIsFetch | backend/app/services/authorization.py:282-322 | `can` accepts exactly the fetchable rows for a held permission under one of the four scopes |
| Visibility.ListingIsFetchingIffAligned | backend/app/services/authorization.py:372-471 | `visibility_clause` selects what `get_visible_or_404` returns for exactly the aligned models |
| Visibility.SelectsWhatItSees | backend/app/services/authorization.py:372-420 | on every model the clause selects what could be fetched of the row without its second owner and team columns, or everything if the scope finds no column |
| Visibility.ClauseBuildersAgreeIff | backend/app/services/authorization.py:332-420 | `apply_visibility` and `visibility_clause` keep the same rows for exactly the stated models and callers |
| Visibility.ApplyAddsAssignedRows | backend/app/services/authorization.py:356-369 | under TEAM with a team, `apply_visibility` adds exactly the rows assigned to the caller |
| Visibility.ApplyFallsBackToAssigned | backend/app/services/authorization.py:356-369 | without a team to look at, `apply_visibility` lists what ASSIGNED_ONLY lists |
| Visibility.ListedConversationIsNotFound | backend/app/api/v1/conversations.py:66-68 | some conversation is listed under TEAM but not found when fetched |
| Worker.RunKeepsInv | backend/app/worker.py:105-143 | every reachable state keeps the slot bound, the hold on unfinished tasks, conservation and late cancellation |
| Worker.ConcurrencyBound | backend/app/worker.py:105-126 | at most the configured number of tasks is in flight and at most one starts after the signal |
| Worker.TestAsksForAJobIff | backend/app/worker.py:106-113 | without the shutdown flag the loop asks for a job exactly if a slot is free, else it sleeps |
| Worker.EveryJobCanRun | backend/app/worker.py:106-126 | with one slot or more, any list of jobs can be dequeued, run and finished in order |
| Worker.SlotsCanBeFull | backend/app/worker.py:107-126 | the bound is attained: as many tasks as there are slots can be in flight |
| Worker.WorkerCanStop | backend/app/worker.py:106-143 | from every reachable state a signal can lead to a stopped worker |
| Worker.GraceEndStopsTheRest | backend/app/worker.py:436-445 | when the wait ends, exactly the unfinished tasks that were waited for are asked to stop |
| Worker.StoppedMeansDrained | backend/app/worker.py:429-447 | when the worker has stopped each dequeued id was exactly one task, and every task has finished or was cancelled and awaited |
| Worker.NoCancelBeforeGraceEnds | backend/app/worker.py:429-445 | a task that was asked to stop or ended as cancelled was in the set that the drain began to wait for, at least the grace period before |
| Worker.EndedTasksAreFinal | backend/app/worker.py:437-447 | a task that has ended keeps its outcome: the drain cancels only unfinished ones |
| Worker.LoopEndsAfterSignal | backend/app/worker.py:106-143 | after the signal at most three more steps belong to the main loop |
| Paths.SegmentsForbiddenIff | backend/app/core/path_safety.py:38-43 | the segment loop rejects exactly the keys with two dots in a row; a `.` segment never reaches it |
| Paths.KeyIsRefusedIff | backend/app/core/path_safety.py:26-43 | without links a key is refused exactly if it is empty, holds a NUL or a backslash, starts at a root or with a drive letter, or has two dots in a row |
| Paths.PartsOfMore | backend/app/core/path_safety.py:38 | empty and one-dot components vanish from a key, the others stay in order |
| Paths.ValidateIff | backend/app/core/path_safety.py:20-52 | without links a key is accepted exactly by its characters, and then names its own components under the root |
| Paths.KeyIsTheRootIff | backend/app/core/path_safety.py:38-52 | a key names the root itself exactly if it is accepted and has only empty and one-dot components |
| Paths.DotKeyIsTheRoot | backend/app/core/path_safety.py:38-52 | such as the key `.` |
| Paths.SafeStemChars | backend/app/core/path_safety.py:59-62 | the stem is never empty, has safe characters only, and ends with a dot only where it was cut |
| Paths.SafeNameIsUnchanged | backend/app/core/path_safety.py:55-62 | a name that is safe already is kept as it is |
| Paths.GeneratedKeyIsAcceptedIff | backend/app/services/storage.py:106-114 | a generated key passes validation exactly if the name has no two dots in a row inside its stem, no backslash or NUL at the start of its extension, and no dot where a long stem is cut |
| Paths.StripOfSanitised | backend/app/core/path_safety.py:61 | sanitising and stripping a stem is sanitising its core: what letters, digits and hyphens enclose |
| Paths.RunBecomesUnderscore | backend/app/core/path_safety.py:61 | each run of characters outside the allowed ones becomes one underscore |
| Paths.StemAndSuffixIff | backend/app/core/path_safety.py:59-60 | the last dot inside a name separates stem and extension |
| Paths.SafeNameIs | backend/app/core/path_safety.py:57-62 | a safe name is the cleaned core or `file`, cut to 120 characters, and the extension, cut to 16 |
| Paths.DirectoriesAreDropped | backend/app/core/path_safety.py:59-60 | a name behind a directory part is stored as the name alone |
| Paths.BackslashExtensionIsRefused | backend/app/core/path_safety.py:60-62 | a file name whose extension holds a backslash gets a key that is refused |
| Paths.GeneratedKeyIsInItsMonth | backend/app/services/storage.py:106-114 | an accepted generated key names a file directly in its year and month directory |
| Filters.CleanList | backend/app/analytics/core/filters.py:37-57 | the loop with its skip, error and break branches computes the cleaning specification |
| Filters.CleanTakesFirstDistinct | backend/app/analytics/core/filters.py:37-57 | the first 25 distinct non-empty values of the first 50 chunks, refused exactly if one of them is too long or not a UUID where due |
| Filters.TextIsItsParts | backend/app/analytics/core/filters.py:38-41 | a comma-separated text is cleaned like the list of its parts, and an absent parameter is empty |
| Filters.OnlyFiftyPartsCount | backend/app/analytics/core/filters.py:43-56 | parts behind the fiftieth are never looked at, and at most 25 values are taken |
| Filters.DistinctOfMore | backend/app/analytics/core/filters.py:43-46 | a further part adds its value at the end unless it is blank or was there before |
| Filters.CleanOfOne | backend/app/analytics/core/filters.py:44-54 | one value is taken without the white space around it, up to 300 characters, and as a UUID where one is due |
| Filters.CleanIsCanonical | backend/app/analytics/core/filters.py:37-57 | a cleaned list has no repetition, at most 25 values, and is an order-preserving subsequence of the stripped input |
| Filters.ShippedAllowlistIsProper | backend/app/analytics/core/filters.py:23-34 | no shipped filter key is the period key, as the results on payloads suppose of an allowlist |
| Filters.BuildPayload | backend/app/analytics/core/filters.py:94-103 | the payload holds the sorted non-empty lists under allowed keys, and the period |
| Filters.FiltersFromParams | backend/app/analytics/core/filters.py:109-120 | unknown keys are rejected first, then bad values; otherwise the non-empty cleaned lists are set |
| Filters.FromParamsOutcome | backend/app/analytics/core/filters.py:109-120 | the same told by the parameters: an unknown key, else an unclean list, else each non-empty cleaned list under its key |
| Filters.PayloadHolds | backend/app/analytics/core/filters.py:94-103 | under each allowed key with values the payload holds those values in ascending order, and the period if there is one |
| Text.LeqIff | backend/app/analytics/core/filters.py:100 | ascending means by the first character that differs, and a prefix comes first |
| Filters.CanonicalRoundTrip | backend/app/analytics/core/filters.py:94-127 | the payload of accepted parameters is accepted again and yields itself |
| Filters.PayloadReadsBackIff | backend/app/analytics/core/filters.py:94-127 | a payload is accepted again exactly when the filters carry no period |
| Rbac.RbacStore.SeedRbac | backend/app/services/rbac.py:310-346 | upserts the catalogs and adds the matrix, or changes nothing if the matrix names an unknown permission |
| Rbac.RbacStore.ReplaceUserRoles | backend/app/services/rbac.py:382-409 | unknown users or roles change nothing; otherwise the user has exactly the given roles |
| Rbac.RbacStore.UpdateRoles | backend/app/api/v1/users.py:206-267 | the permission and the guards of the endpoint in front of the replacement |
| Rbac.RbacStore.DeactivateUser | backend/app/api/v1/users.py:206-229 | the permission and the guards of the endpoint in front of a deactivation |
| Rbac.EditRolesOutcome | backend/app/api/v1/users.py:206-267 | told by rows: without an active actor whose role grants `users.manage` nothing changes; then unknown user, own account, grant of SUPER_ADMIN and last super admin are refused in this order |
| Rbac.DeactivateOutcome | backend/app/api/v1/users.py:206-229 | the same for a deactivation, which else takes exactly one user out of the active ones |
| Rbac.SetUserRolesOutcome | backend/app/services/rbac.py:382-409 | told by rows: unknown users and codes are refused without a change, else the user's roles alone are replaced |
| Rbac.SeedUnitesGrants | backend/app/services/rbac.py:334-343 | a role has a permission afterwards exactly if it had it before or is seeded and the matrix lists it; users and assignments stay |
| Rbac.SeedFailsIff | backend/app/services/rbac.py:334 | seeding fails exactly if the matrix lists a permission for a seeded role that is not seeded itself |
| Rbac.UpsertedText | backend/app/services/rbac.py:310-333 | a seeded row has the text of the last entry for its code, other rows keep theirs |
| Rbac.PermissionIff | backend/app/services/rbac.py:371-379 | a user holds a permission exactly by a role that is assigned and grants it |
| Rbac.SeedIsFixpoint | backend/app/services/rbac.py:310-346 | a second run changes nothing |
| Rbac.SeedGrowsPermissions | backend/app/services/rbac.py:371-379 | users keep their permissions and gain exactly the matrix of their seeded roles |
| Rbac.ReplacedPermissions | backend/app/services/rbac.py:371-409 | a replacement gives the user exactly the grants of the new roles and changes nobody else |
| Rbac.ASuperAdminRemains | backend/app/services/authorization.py:506-540 | over every sequence of guarded edits somebody keeps the SUPER_ADMIN role |
| Rbac.DeactivationKeepsChargeIff | backend/app/services/authorization.py:521-540 | a permitted deactivation leaves an active super admin exactly if another one is active |
| Rbac.GuardSufficesWhileAllActive | backend/app/services/authorization.py:521-540 | which the guard ensures as long as no super admin is inactive |
| Rbac.TwoDeactivationsLeaveNobody | backend/app/api/v1/users.py:222-229 | on a seeded database where everybody is active, an admin's two permitted deactivations leave no active super admin |
| Redaction.RedactHidesExactlySecrets | backend/app/core/logging.py:64-76 | two values redact to equal values exactly when they differ only beneath secret keys, at any depth, or in list against tuple |
| Redaction.RedactTwice | backend/app/core/logging.py:64-76 | redaction is idempotent |
| Redaction.RedactedIsClean | backend/app/core/logging.py:64-76 | nothing survives beneath a secret key, however deep |
| Redaction.EntryIsMaskedIff | backend/app/core/logging.py:66-73 | keys stay, and a value is masked exactly if its lowered key is listed |
| Redaction.CaseDoesNotMatter | backend/app/core/logging.py:69 | keys that are lowered alike are masked alike |
| Redaction.HarmlessStays | backend/app/core/logging.py:64-76 | a value without secrets and tuples is logged as it is |

## Left out

- App wiring, routers, templates, schemas, migrations, smoke scripts and command-line tools.
- Backup creation and verification (`pg_dump`, `tar`, SQLite, checksums): foreign programs; a backup is one step that adds a file and, unless the append fails, a manifest line.
- Malformed manifest lines, which the reader skips, and time stamps other than UTC ISO instants that still parse.
- Rounding of `age_days`: ages are exact integers of microseconds. Months are numbered by any labelling, monotone only where a result says so.
- Retention.SlotsStayBacked: supposes that the last prune is no looser than the earlier ones; by `RetentionLimits.NothingIsWantedBackIff` looser limits do want back a deleted file, so nothing can be promised for them.
- Retention.ScheduledDumpIsKeptIff: supposes that each cycle left its three artifacts within one week and month; a files backup without any file data leaves none.
- Aggregation.AggregationService.AggregateLeads: the `created` metric only; status counts, averages and durations change after the fact, and an upsert never removes a stale row. The five other domains of the aggregation are left out for the same reason.
- Aggregation.AggregationService.RefreshIncremental: an insert arrives before or after a whole refresh, which `AggregationRuns.ArrivalsDuringRefresh` justifies for complete days.
- Aggregation.RefreshTables: all tables have the form of the leads table, a day and one dimension.
- A crash that loses the uncommitted work of a refresh: it leaves the table as it was.
- Thread locks of the limiter and lost updates of the failure counter under concurrent logins: calls are one after the other.
- RateLimit.RetryAfterIsExact: exact reals, before the endpoints round the hint to whole seconds.
- Argon2, tokens, sessions, the per-address limit in front of the login, and changes of the lockout settings over time.
- Organization membership and context resolution, connection access, and teams of other organizations.
- SQL evaluation beyond the rule that a comparison with NULL selects nothing.
- The worker's task set and shutdown event as objects: the loop and the drain interleave with tasks and signals, so they are a transition system over values.
- The other background loops of the worker, the contents of a job, the queue, and a second cancellation during the drain.
- Symbolic links beyond `Paths.AcceptedKeyIsContained`, and `LocalStorage.save`, `metadata` and the other file operations.
- Values of filter lists that are not texts, and the meaning of a filter in a query.
- The text of the shipped permission matrix and the list of secret keys: the results hold for every catalog and every list.
- The narrower permissions of an API key, which the endpoints use instead of its owner's.
- The order in which a dict compares equal: redaction treats a dict as the sequence of its entries. Objects other than dicts, lists and tuples are leaves, as in the source.
