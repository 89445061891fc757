# SecureSwitch: a verified model

SecureSwitch watches devices on a local network, wakes them by Wake-on-LAN and guards both
behind logins. This project models its stateful cores in Dafny and proves what they promise.

- **Ping manager** (`PingManager`, `PingProtocol`, `PingProperties`, `PingFairness`, `PingRounds`,
  `PingEffects`, `PingRun`):
  one loop, up to four probe goroutines, a results channel of capacity four, reloads that
  invalidate flights, and shutdown. The tables and `checkHosts` are an imperative class; its
  methods are proved to compute the functions that the step system of `PingProtocol` is built
  from, and the safety, shutdown, spacing and fairness results are about all runs of that system.
- **Login limiter** (`Limiter`, `LimiterProperties`, `LimiterAgreement`,
  `LimiterEffects`, `LimiterRate`): a bounded map with windows,
  backoff, lazy clean-up and eviction, compared with a limiter that has neither cap nor clean-up:
  they agree on a key exactly as long as its record is not evicted.
  Which of several equally old records is evicted is left open, as Go's map order leaves it.
- **Accounts and tokens** (`Accounts`, `AccountRuns`, `AccountEffects`, `LoginHandler`): the store's statements as
  methods, all interleavings of logins, logouts and user administration, and the handler run
  from beginning to end over one limiter and one store.
- **Wake-on-LAN** (`Ipv4`, `Wol`, `WolProperties`, `WolEffects`): candidate networks, the one-pass longest-prefix
  search, the byte-wise broadcast address (section 7 of RFC 919, prefixes as in section 3.1 of
  RFC 4632) and the packet.
- **Hosts loader** (`HostsFile`, `Loader`): what hosts.yaml may say, and the cache, compared with
  a loader that rereads on every call. Lists of hosts live on the heap there, since the deep
  copies are the point.
- **Host polling** (`HostPolling`): the web page's fetch and timer loop and its stop function.

The modules named `...Effects` say what each operation does in terms of the data alone (fields,
addresses, counts, times), without the functions that the operations are specified by.

## Hypotheses

- Times given to the limiter and to the ping manager do not go back. They are integers, in
  nanoseconds since Go's zero time, so that the zero time is 0.
- Row ids are never assigned twice; `ReusedIdRevivesTokens` shows that this is needed.
- Each SQL statement or transaction is one atomic step, and so is each critical section.
- For the loader's agreement with a rereading one: path, modification time and size identify a
  file's contents. Agreement on the error then fails in one case, and only in it: a file that was
  read before and has not changed can no longer be read, and the cache does not notice.
- Go's map order is arbitrary; loops over maps take their keys in any order.

## Model

| member | source | states |
|---|---|---|
| `PingManagerCode.PingManager.State` | `backend/internal/device/monitor.go:24-28` | the status of an id, the zero state for an unknown one |
| `PingManagerCode.PingManager.Index` | `backend/internal/device/monitor.go:71-74` | the map from id to host; of two entries with one id the later wins |
| `PingManagerCode.PingManager.ForgetRemovedHosts` | `backend/internal/device/monitor.go:75-79` | launch times remain exactly for configured ids |
| `PingManagerCode.PingManager.CheckFlight` | `backend/internal/device/monitor.go:81-86` | a flight whose host is gone or has moved is made invalid, cancelled and its launch time forgotten; any other is untouched |
| `PingManagerCode.PingManager.InvalidateStaleFlights` | `backend/internal/device/monitor.go:80-87` | that happens to exactly the stale flights, in any order of the map, and to nothing else |
| `PingManagerCode.PingManager.ForgetRemovedStatus` | `backend/internal/device/monitor.go:88-94` | status entries remain exactly for configured ids |
| `PingManagerCode.PingManager.Visit` | `backend/internal/device/monitor.go:100-119` | one turn of the launch loop: skip an id in flight or not due, otherwise record the time, the flight and a goroutine |
| `PingManagerCode.PingManager.Reconcile` | `backend/internal/device/monitor.go:71-94` | the three clean-up loops together compute the reconciled tables |
| `PingManagerCode.PingManager.Schedule` | `backend/internal/device/monitor.go:96-120` | the launch loop computes the scheduled tables, stopping at cancellation or at four flights |
| `PingManagerCode.PingManager.CheckHosts` | `backend/internal/device/monitor.go:65-121` | `checkHosts` refines the Tick step: its tables are those of the pass, and a failed load changes nothing |
| `PingManagerCode.PingManager.Land` | `backend/internal/device/monitor.go:139-141` | a received id leaves the flight table, its context is released, and its validity is reported |
| `PingManagerCode.PingManager.Receive` | `backend/internal/device/monitor.go:134-151` | the receive case refines the Receive step |
| `PingManagerCode.PingManager.CancelFlights` | `backend/internal/device/monitor.go:127-129` | shutdown cancels every flight and changes nothing else |
| `PingRun.SendResult` | `backend/internal/device/monitor.go:118` | a goroutine moves its result from itself to the channel |
| `PingRun.Take` | `backend/internal/device/monitor.go:123-153` | each turn of loop, goroutine or canceller moves the running program as one step of the step system |
| `PingRun.RunPingManager` | `backend/internal/device/monitor.go:54-154` | the program driven through any schedule ends where the step system ends, in a state satisfying the invariant |
| `PingProtocol.StepKeepsInv` | `backend/internal/device/monitor.go:65-153` | every step keeps: workers and results match flights one to one, at most four, each probes its flight's address, valid flights are those with a launch time, status and times stay within the list |
| `PingProtocol.RunKeepsInv` | `backend/internal/device/monitor.go:54-154` | the invariant holds in every reachable state of every interleaving |
| `PingProtocol.ScheduledKeepsInv` | `backend/internal/device/monitor.go:97-120` | the launch loop keeps the invariant wherever it stops |
| `PingProtocol.ReconciledKeepsInv` | `backend/internal/device/monitor.go:75-94` | a configuration reload keeps the invariant |
| `PingProtocol.ReceivedKeepsOneToOne` | `backend/internal/device/monitor.go:134-140` | a received result always has a flight, and landing it keeps the correspondence |
| `PingProperties.ProbesMatchFlights` | `backend/internal/device/monitor.go:60-63` | in every reachable state running goroutines plus queued results are exactly the in-flight ids, at most four; no send blocks and no result lacks a flight |
| `PingProperties.ShutdownCountsDown` | `backend/internal/device/monitor.go:126-131` | after cancellation every further step is progress: steps taken plus steps remaining is constant |
| `PingProperties.DrainingIsNeverStuck` | `backend/internal/device/monitor.go:126-131` | while waiting for workers some worker can move, or the wait is over |
| `PingProperties.ShutdownEnds` | `backend/internal/device/monitor.go:126-131` | the wait for workers ends after at most nine further steps and never deadlocks |
| `PingProperties.HostsAreTheLastLoad` | `backend/internal/device/monitor.go:66-70` | the list in force is that of the last successful load of the run |
| `PingProperties.StatusStaysWithinTheList` | `backend/internal/device/monitor.go:88-94` | after the first successful load no status entry lies outside the last loaded list; no late result recreates a removed host |
| `PingProperties.VerdictsMatchTheList` | `backend/internal/device/monitor.go:134-151` | a verdict is written exactly if its flight is valid, then comes from an address the last loaded list gives that id, with unique ids the configured one, changes that id only, and an offline verdict keeps the last ping time |
| `PingProperties.ScheduledTimes` | `backend/internal/device/monitor.go:101-111` | launch times change only to the time of the pass, and whoever is launched was due |
| `PingProperties.StepRemembersLaunch` | `backend/internal/device/monitor.go:75-113` | no step forgets a launch time or relaunches early unless a list drops the id or moves its running probe |
| `PingProperties.LaunchesAreSpaced` | `backend/internal/device/monitor.go:101-111` | two launches of one id are at least the later launch's interval apart, unless a list omitted it or moved its running probe in between |
| `PingProperties.IntervalIsInSeconds` | `backend/internal/device/monitor.go:104-110` | the 64-bit interval is the configured seconds if and only if they are at most 9223372036 |
| `PingFairness.PassesAreWorkConserving` | `backend/internal/device/monitor.go:96-120` | after an uncancelled pass four probes are in flight, or every host is in flight or not due |
| `PingFairness.LaunchesExactly` | `backend/internal/device/monitor.go:97-120` | the launch loop launches a host if and only if the context is live when it gets there, the host is neither in flight nor early, and flights plus ready hosts ahead of it are fewer than four |
| `PingFairness.PassLaunchesExactly` | `backend/internal/device/monitor.go:65-121` | in every run, that is exactly which hosts of a list with unique ids a pass launches |
| `PingFairness.IdlePassLaunchesExactly` | `backend/internal/device/monitor.go:96-120` | a pass that finds no probe in flight launches a host if and only if it is due and fewer than four hosts ahead of it are |
| `PingFairness.MissedPassesAreFew` | `backend/internal/device/monitor.go:96-120` | each consecutive pass that misses a due host serves four different hosts ahead of it |
| `PingRounds.RoundsAreConsecutive` | `backend/internal/device/monitor.go:123-153` | passes of a run between which all results are received are consecutive passes: nothing but a pass touches launch times |
| `PingRounds.RoundLaunchesExactly` | `backend/internal/device/monitor.go:96-120` | which hosts each such pass of a run launches, exactly |
| `PingRounds.StarvesExactlyIfCrowded` | `backend/internal/device/monitor.go:96-120` | a host due at the first of these passes waits through all of them if and only if four or more hosts ahead of it are due at each |
| `PingRounds.DueHostIsLaunchedInRounds` | `backend/internal/device/monitor.go:96-120` | with intervals longer than the span of the passes a due host with p hosts ahead of it is launched within p/4 + 1 of them, so within ceil(n/4) |
| `PingRounds.Drained` | `backend/internal/device/monitor.go:114-153` | from every reachable state of the loop all probes can land before the next pass |
| `PingRounds.SomeRunsStarve` | `backend/internal/device/monitor.go:97-100` | there are runs of every length in which no host after the fourth is launched, although due at every pass |
| `PingEffects.PassKeepsListedStatus` | `backend/internal/device/monitor.go:88-94` | a pass deletes the status of exactly the ids the loaded list does not have, and keeps every other as it is |
| `PingEffects.StatusChangesExactly` | `backend/internal/device/monitor.go:65-151` | in every step the status of an id changes in two ways only: such a deletion, or a verdict for that very id |
| `PingEffects.StatusStays` | `backend/internal/device/monitor.go:88-151` | so a listed id keeps its status through every run without a result for it |
| `PingEffects.PassKeepsListedFlights` | `backend/internal/device/monitor.go:80-87` | a probe in flight stays, with its address; it stays valid exactly if the list still gives the id that address, and is cancelled otherwise |
| `PingEffects.PassKeepsListedTimes` | `backend/internal/device/monitor.go:75-87` | a launch time is forgotten exactly if the list omits the id or moves it while its probe is in flight |
| `PingEffects.PassAddsLaunches` | `backend/internal/device/monitor.go:111-119` | the flights and goroutines a pass adds are, one for one, launches of listed hosts at their addresses, still to probe |
| `PingEffects.RunPassLaunches` | `backend/internal/device/monitor.go:96-120` | in every run, which hosts a pass launches, read off the tables before the pass |
| `PingEffects.ReceiveLandsOneFlight` | `backend/internal/device/monitor.go:134-151` | a received result ends its flight and touches no other flight and no launch time |
| `PingEffects.OtherStepsExactly` | `backend/internal/device/monitor.go:114-131` | what a send, the return of a probe and shutdown change |
| `PingEffects.ReceivedVerdictsAreAnswers` | `backend/internal/device/monitor.go:115-119` | in every run a received verdict is what a probe of that id at that address answered |
| `PingProperties.IntervalFits` | `backend/internal/device/monitor.go:104-108` | an interval fits 64 bits and differs from the configured seconds by a multiple of 2^64 |
| `LimiterState.KeysDiffer` | `backend/internal/auth/limiter.go:67-69` | the two keys of a login differ, and no key is the empty string |
| `LoginLimiterCode.LoginAttemptLimiter.CleanupExpired` | `backend/internal/auth/limiter.go:161-167` | clean-up leaves exactly the unexpired records |
| `LoginLimiterCode.LoginAttemptLimiter.CleanupIfDue` | `backend/internal/auth/limiter.go:153-159` | clean-up runs at most once per interval |
| `LoginLimiterCode.LoginAttemptLimiter.Oldest` | `backend/internal/auth/limiter.go:175-183` | the scan finds a record of earliest expiry, and the empty string exactly for an empty map |
| `LoginLimiterCode.LoginAttemptLimiter.EvictOldest` | `backend/internal/auth/limiter.go:174-189` | the eviction loop removes just as many live records as needed, none expiring after a kept one |
| `LoginLimiterCode.LoginAttemptLimiter.MakeRoom` | `backend/internal/auth/limiter.go:169-190` | room is made by clean-up first and eviction second, only when the map is full |
| `LoginLimiterCode.LoginAttemptLimiter.CheckKey` | `backend/internal/auth/limiter.go:77-89` | one key: an expired record is dropped, a live one raises the result to its remaining block |
| `LoginLimiterCode.LoginAttemptLimiter.RetryAfter` | `backend/internal/auth/limiter.go:71-91` | the longest remaining block of the two keys, whatever clean-up does first |
| `LoginLimiterCode.LoginAttemptLimiter.Record` | `backend/internal/auth/limiter.go:100-112` | a failure for one key: room only for a new key, a fresh record for an expired one; at most one eviction with a positive cap |
| `LoginLimiterCode.LoginAttemptLimiter.RecordFailure` | `backend/internal/auth/limiter.go:93-113` | a failure counts for both keys, in order; keys inserted = tracked + evicted + expired + cleared is kept, as is the cap |
| `LoginLimiterCode.LoginAttemptLimiter.RecordSuccess` | `backend/internal/auth/limiter.go:119-126` | a success clears exactly the two keys |
| `LoginLimiterCode.LoginAttemptLimiter.ReadMetrics` | `backend/internal/auth/limiter.go:128-139` | the metrics are the counts modulo 2^64, and tracked keys = inserted - evicted - expired - cleared |
| `LimiterCalls.NextLookup` | `backend/internal/auth/limiter.go:71-126` | what one call does to the live record of one key, unless that key is evicted |
| `LimiterCalls.FailureStartsBlock` | `backend/internal/auth/limiter.go:99-112` | a failure changes how long a key blocks exactly from the maxFailures-th failure of its live record on; then the block is a backoff from now |
| `LimiterCalls.InsertionEvictsAtMostOne` | `backend/internal/auth/limiter.go:169-190` | an insertion within the cap evicts at most one record, live and expiring no later than any kept one, and stays within the cap |
| `LimiterCalls.CapHolds` | `backend/internal/auth/limiter.go:93-126` | over every sequence of calls the map never exceeds the cap |
| `LimiterCalls.AgreesWithReference` | `backend/internal/auth/limiter.go:71-167` | for every sequence of calls that evicts neither key, with nondecreasing times, the result is that of a limiter without cap and without clean-up |
| `LimiterAgreement.EvictionDisagrees` | `backend/internal/auth/limiter.go:174-189` | a call that evicts a key leaves the limiter with another record for it than the reference has |
| `LimiterAgreement.AgreesExactlyIfNeverEvicted` | `backend/internal/auth/limiter.go:71-190` | throughout a run the limiter holds the same live record for a key as the reference if and only if that key is never evicted |
| `LimiterAgreement.EvictsExactlyWithoutRoom` | `backend/internal/auth/limiter.go:169-190` | recording a failure evicts if and only if the key is not tracked and no fewer live records than the cap are |
| `LimiterAgreement.FailureEvictsExactlyWithoutRoom` | `backend/internal/auth/limiter.go:93-113` | the same for the two keys of a login, in order |
| `LimiterAgreement.AgreesWithFewKeys` | `backend/internal/auth/limiter.go:71-190` | a run that records failures for at most maxTrackedKeys different keys agrees with the reference for every client at every time |
| `LimiterAgreement.EvictionCanEndABlock` | `backend/internal/auth/limiter.go:174-189` | a run in which an eviction ends a block that the reference still has |
| `LimiterAgreement.EvictionCanStartABlock` | `backend/internal/auth/limiter.go:174-189` | a run in which an eviction restarts a window, so that the limiter blocks where the reference does not |
| `LimiterCalls.BlockRunsDown` | `backend/internal/auth/limiter.go:71-91` | a block shrinks with the clock and nothing other clients or clean-up do ends it |
| `LimiterCalls.HeaderIsRoundedExactly` | `backend/internal/server/auth_handlers.go:40` | up to 2^23 seconds the header computed in floating point is the exact number of seconds, rounded up |
| `LimiterCalls.HeaderIsExact` | `backend/internal/server/auth_handlers.go:38-42` | waiting the advertised whole seconds ends the block, one second less does not |
| `LimiterRate.FailureFits` | `backend/internal/server/auth_handlers.go:37-43` | a failure let through comes a backoff after the previous ones of its record, inside the window, or begins a new record a window later |
| `LimiterRate.LogsFit` | `backend/internal/auth/limiter.go:93-113` | so does every failure of every run of non-overlapping logins |
| `LimiterRate.FailuresPerRecord` | `backend/internal/auth/limiter.go:93-113` | a record with N > maxFailures failures has (N - maxFailures) * backoff < window |
| `LimiterRate.DefaultFailuresPerRecord` | `backend/internal/auth/limiter.go:10-16` | with the default settings no record collects more than 19 failures |
| `LimiterRate.SameRecordOrLater` | `backend/internal/auth/limiter.go:100-107` | two failures lie in one record, with consecutive ordinals, or in records starting a window or more apart |
| `LimiterRate.FailureRate` | `backend/internal/auth/limiter.go:93-151` | q records' worth of consecutive failures for a key take at least q - 1 windows |
| `LimiterRate.BeyondTakesTime` | `backend/internal/auth/limiter.go:107-111` | failures beyond the maxFailures-th of a record come a backoff apart |
| `LimiterRate.FailuresInSpan` | `backend/internal/auth/limiter.go:93-151` | in any span T a key collects at most (T / window + 2) * maxFailures + T / backoff failures |
| `LimiterRate.DefaultFailuresInSpan` | `backend/internal/auth/limiter.go:10-16` | with the default settings at most 24 in any span shorter than a window |
| `LimiterEffects.KeysAreShared` | `backend/internal/auth/limiter.go:67-69` | two logins share a key if and only if they come from one address or are for one account, however spelled |
| `LimiterEffects.CheckReturnsLongestBlock` | `backend/internal/auth/limiter.go:71-91` | the wait is that of the longer block of the address and the account, or zero |
| `LimiterEffects.CheckForgetsOnlyExpired` | `backend/internal/auth/limiter.go:75-85` | a check drops only records that no longer count, those of its own keys at once |
| `LimiterEffects.FailureCounts` | `backend/internal/auth/limiter.go:99-112` | a failure adds one to the record of the address and of the account, or begins one, and blocks from the maxFailures-th on |
| `LimiterEffects.FailureLeavesOthers` | `backend/internal/auth/limiter.go:93-113` | and leaves every other record that counts as it is, unless it evicts it |
| `LimiterEffects.SuccessClears` | `backend/internal/auth/limiter.go:119-126` | a success clears the two records and no other |
| `LimiterEffects.FailureCountsAgainst` | `backend/internal/auth/limiter.go:67-113` | a failure counts against another login exactly by a shared address and by a shared account |
| `LimiterEffects.StrangersAreUnaffected` | `backend/internal/auth/limiter.go:67-126` | a login with another address and another account is answered after any call as before, unless one of its keys is evicted |
| `LimiterEffects.SpellingsAreAnsweredAlike` | `backend/internal/auth/limiter.go:67-91` | all spellings of an account get the same answer |
| `LimiterEffects.AccountIsBlockedEverywhere` | `backend/internal/auth/limiter.go:93-113` | the maxFailures-th failure of an account blocks every spelling of it from every address for the backoff |
| `LimiterEffects.CleansUpOncePerInterval` | `backend/internal/auth/limiter.go:153-159` | a check or failure cleans up exactly if none has within an interval |
| `LimiterEffects.RoomIsForThoseThatCount` | `backend/internal/auth/limiter.go:169-190` | a new key evicts if and only if no fewer records than the cap still count |
| `LimiterEffects.RecordsGoWithinAnInterval` | `backend/internal/auth/limiter.go:141-167` | in every run a tracked record stops being tracked within a clean-up interval of its end |
| `AccountStore.Store.Execute` | `backend/internal/store/users.go:50-75` | the UPDATE changes one row, in the columns set, the version by its rule |
| `AccountStore.Store.ReplaceDevices` | `backend/internal/store/users.go:93-100` | the device rows of a user become the given list, in order; all others are kept |
| `AccountStore.Store.UpdateInTransaction` | `backend/internal/store/users.go:43-103` | the statements of the transaction, with the error of whichever fails |
| `AccountStore.Store.UpdateUser` | `backend/internal/store/users.go:43-103` | the transaction as a whole: the row it leaves, field by field, the exact case of each error, device rows, and no change at all on any error |
| `AccountStore.Store.CreateUser` | `backend/internal/store/users.go:27-41` | a new row of version 0 with its devices, or no change if the address is taken |
| `AccountStore.Store.HasAdmins` | `backend/internal/store/admin.go:5-9` | whether some row is an administrator |
| `AccountStore.Store.CreateInitialAdmin` | `backend/internal/store/admin.go:14-27` | inserts exactly if there is no administrator and the address is free |
| `AccountStore.Store.DeleteUser` | `backend/internal/store/admin.go:37-60` | deletes exactly a row that is not the only administrator |
| `AccountStore.Store.RevokeUserTokens` | `backend/internal/store/users.go:105-116` | compare and swap on the version |
| `AccountState.WithoutDevices` | `backend/internal/store/users.go:93-95` | deleting one user's device rows leaves every other user's list |
| `AccountRuns.StepEvolves` | `backend/internal/store/users.go:43-116` | every step moves rows only forward: versions never fall, an equal version means equal hash and role, deleted rows stay deleted |
| `AccountRuns.RunEvolves` | `backend/internal/store/users.go:43-116` | and so does every run of every interleaving |
| `AccountRuns.VersionDeterminesCredentials` | `backend/internal/store/users.go:43-116` | in every run an id and a token_version stand for one password hash and one role |
| `AccountRuns.RunKeepsInv` | `backend/internal/server/auth_handlers.go:45-93` | in every run each login and token stems from a row that existed and, on the password branch, whose hash verified the password |
| `AccountRuns.AcceptedTokensMatchTheStoredHash` | `backend/internal/auth/auth.go:218-222` | a token that is accepted has the hash and role still stored, and on the password branch its password verifies that hash |
| `AccountRuns.SetupTokenVerifies` | `backend/internal/server/auth_handlers.go:69-74` | a setup token for the inserted id and version 0 is for the inserted row, whose hash verifies the password |
| `AccountRuns.StepKeepsUniqueEmails` | `backend/internal/store/users.go:27-41` | every step keeps addresses unique |
| `AccountRuns.RefetchFindsInserted` | `backend/internal/server/auth_handlers.go:69-74` | the refetch of a setup login finds the row it inserted if and only if that row is still there |
| `AccountRuns.GoneExactlyIfDeleted` | `backend/internal/store/admin.go:37-60` | a row is gone after a run if and only if one of its steps deleted it |
| `AccountRuns.SameVersionExactlyIfNotRenewed` | `backend/internal/store/users.go:50-62` | a row that remains has its version if and only if no password change, role change or logout took effect on it |
| `AccountRuns.SetupTokensForTheNewRow` | `backend/internal/server/auth_handlers.go:59-88` | in every run a setup login signs for the row it inserted if and only if no step between insertion and refetch deleted it, and for that row as inserted if and only if besides none renewed its version |
| `AccountRuns.SetupTokenForAnotherUser` | `backend/internal/server/auth_handlers.go:69-74` | a concrete run in which the refetch signs a token for a row whose hash does not verify the password |
| `AccountRuns.RejectedStaysRejected` | `backend/internal/auth/auth.go:218-222` | a token refused for its version or a missing user is refused in every later state |
| `AccountRuns.BumpsAreTheNewVersions` | `backend/internal/store/users.go:50-62` | the version rises by one exactly on a password change, a real role change or a logout |
| `AccountRuns.BumpKillsEarlierTokens` | `backend/internal/store/users.go:50-62` | each of those ends every earlier token of the user, including one still to be signed by a login under way |
| `AccountRuns.RevokeSucceedsOnce` | `backend/internal/store/users.go:105-116` | for each user and version at most one revocation succeeds |
| `AccountRuns.RunKeepsAdmin` | `backend/internal/store/admin.go:37-60` | once there is an administrator every run keeps one |
| `AccountRuns.SetUpSucceedsOnce` | `backend/internal/store/admin.go:14-27` | in any run at most one setup creates the initial administrator |
| `AccountRuns.ReusedIdRevivesTokens` | `backend/internal/auth/auth.go:218-222` | the hypothesis on row ids is needed: after a deleted id is assigned again, exactly the tokens of the new row's version are accepted |
| `AccountState.OnlyLastAdminMayNot` | `backend/internal/store/admin.go:37-60` | the guard bars exactly the only administrator |
| `AccountState.DevicesOfCounts` | `backend/internal/store/users.go:93-100` | a user has each device as often as the rows say |
| `AccountEffects.UpdateChangesRow` | `backend/internal/store/users.go:43-103` | the row after an update: hash and role as given, else as before, version, address, other rows |
| `AccountEffects.StepChangesTable` | `backend/internal/store/users.go:27-116` | what every other step does to the table |
| `AccountEffects.FetchDecides` | `backend/internal/server/auth_handlers.go:45-85` | a login that finds its row goes on to sign exactly if the row's hash verifies the password |
| `AccountEffects.IssueSigns` | `backend/internal/auth/auth.go:150-163` | the token is of the row's id and version, and accepted exactly while there is such a row of that version |
| `AccountEffects.NewPasswordLetsIn` | `backend/internal/store/users.go:50-53` | after a password change logins are let in with exactly the passwords the new hash verifies, until the next change, in every run |
| `AccountEffects.CreatedUserIsLetIn` | `backend/internal/store/users.go:27-41` | and so are logins of a created user |
| `LoginHandlerCode.GetUserByEmail` | `backend/internal/store/users.go:9-16` | finds a row of that address exactly if there is one |
| `LoginHandlerCode.SetUpAccount` | `backend/internal/server/auth_handlers.go:49-74` | the setup branch: verdict and table for every way it can end |
| `LoginHandlerCode.Authenticate` | `backend/internal/server/auth_handlers.go:45-85` | the store's half of a login |
| `LoginHandlerCode.Tell` | `backend/internal/server/auth_handlers.go:62-86` | which limiter call follows which verdict |
| `LoginHandlerCode.HandleLogin` | `backend/internal/server/auth_handlers.go:20-102` | the whole handler: limited requests touch no account and are told the seconds; any other is answered as table, password and setup conditions say; refusals record one failure, logins let in clear both keys, and nothing else is told to the limiter |
| `LoginHandlerCode.Authorize` | `backend/internal/auth/auth.go:212-228` | a claim is accepted exactly for the current row of a nonzero id and equal version, and the row's own values go on |
| `LoginHandlerCode.HandleLogout` | `backend/internal/server/auth_handlers.go:108-116` | a logout succeeds exactly for an accepted token, and afterwards that token is refused; no credentials change |
| `LoginHandlerSpec.DecidedIsARun` | `backend/internal/server/auth_handlers.go:45-93` | the handler run through is one of the interleavings of the account model, with the same table and token |
| `LoginHandlerSpec.TokenWorksAtOnce` | `backend/internal/server/auth_handlers.go:88-94` | a signed token is accepted at once, for the address given and a hash verifying the password |
| `LoginHandlerSpec.DecidedAnswers` | `backend/internal/server/auth_handlers.go:45-101` | the answer to a login that is let through, in terms of the table: which of 200, 401, 400 and 500, for which row, and the table left |
| `WolSpec.CandidateOf` | `backend/internal/wol/wol.go:52-64` | an accepted address is a four-byte unicast one whose mask is a prefix of at most 30 |
| `WolSpec.EligibleSetIsEligible` | `backend/internal/wol/wol.go:33-73` | the set of candidates is what some considered interface offers |
| `WolCode.AddCandidate` | `backend/internal/wol/wol.go:65-73` | a candidate is added once |
| `WolCode.AddInterface` | `backend/internal/wol/wol.go:52-74` | exactly the interface's candidates are added |
| `WolCode.IsSkipped` | `backend/internal/wol/wol.go:38-44` | whether some nonempty skip name occurs in the lowered interface name |
| `WolCode.CollectCandidates` | `backend/internal/wol/wol.go:33-75` | all eligible candidates once each, or the first considered interface that cannot be listed |
| `WolCode.LongestMatches` | `backend/internal/wol/wol.go:91-108` | the one-pass loop yields exactly the matching candidates of longest prefix |
| `WolCode.Choose` | `backend/internal/wol/wol.go:76-115` | the choice among candidates, with every error |
| `WolCode.SelectCandidate` | `backend/internal/wol/wol.go:28-116` | the selection as a whole; what it selects is a network of an interface that may be used |
| `WolCode.FillBroadcast` | `backend/internal/wol/wol.go:117-120` | the byte-wise loop, in bounds |
| `WolCode.FillPacket` | `backend/internal/wol/wol.go:158-164` | the packet loops: six bytes of ones and sixteen copies, in 102 bytes |
| `WolCode.SendWol` | `backend/internal/wol/wol.go:146-170` | what is sent, through which network, to its last address, and every error |
| `WolProperties.SelectedIsUniqueLongest` | `backend/internal/wol/wol.go:91-116` | the selection returns exactly the unique eligible candidate of longest prefix containing a target |
| `WolProperties.SelectedIsTheOnlyOne` | `backend/internal/wol/wol.go:77-115` | without a target, or with an explicit interface of one address, it returns the only eligible candidate |
| `WolProperties.SelectsUniqueLongest` | `backend/internal/wol/wol.go:91-116` | the same for any set of candidates |
| `WolProperties.FailsWithoutMatchOrOnTie` | `backend/internal/wol/wol.go:110-115` | it fails exactly without a match, and as ambiguous exactly on a tie |
| `WolProperties.PermutedCovers` | `backend/internal/wol/wol.go:34-75` | permuted or repeated interfaces cover each other |
| `WolProperties.OrderDoesNotMatter` | `backend/internal/wol/wol.go:33-116` | the result is unchanged by permuting or repeating interfaces, addresses and resolved IPs |
| `WolProperties.UnrelatedSkipsDoNotMatter` | `backend/internal/wol/wol.go:38-46` | nor by extra skip names that match no interface offering the chosen network |
| `WolProperties.BroadcastIsLastAddress` | `backend/internal/wol/wol.go:117-120` | ip | ^mask is network + 2^(32-prefix) - 1 |
| `WolProperties.NetworkIsTheInterval` | `backend/internal/wol/wol.go:95-97` | a candidate contains exactly the addresses from its network number to its broadcast, which is the largest |
| `WolProperties.PacketRoundTrip` | `backend/internal/wol/wol.go:158-164` | reading a packet gives a MAC back exactly if it is that MAC's packet |
| `Ipv4.OrNot` | `backend/internal/wol/wol.go:119` | a byte or the complement of a mask byte is the masked byte plus the complement |
| `Ipv4.MaskedNumber` | `backend/internal/wol/wol.go:95-97` | masking four bytes clears the remainder of the number by the network size |
| `Ipv4.MaskNumber` | `backend/internal/wol/wol.go:61-64` | a mask of n ones is the number 2^32 - 2^(32-n) |
| `WolEffects.ServesExactly` | `backend/internal/wol/wol.go:35-47` | an interface is considered if and only if it is up, broadcast, no loopback, has the configured name if any, and matches no skip name |
| `WolEffects.CandidateExactly` | `backend/internal/wol/wol.go:53-64` | an address makes a candidate if and only if it is a unicast IPv4 one with a mask of at most 30 ones |
| `WolEffects.OfferedExactly` | `backend/internal/wol/wol.go:33-76` | the networks compared are exactly those of such addresses of such interfaces |
| `WolEffects.ReachesExactly` | `backend/internal/wol/wol.go:95-97` | a network matches a target if and only if they agree in all but the host part |
| `WolEffects.PicksLongest` | `backend/internal/wol/wol.go:80-116` | with a target, the network picked is exactly the offered one that reaches it with the longest prefix, alone |
| `WolEffects.PicksOnly` | `backend/internal/wol/wol.go:80-116` | without one, or with a configured interface of one network, it is the one network offered |
| `WolEffects.FailsExactly` | `backend/internal/wol/wol.go:77-90` | when nothing is eligible, and when the target cannot be resolved |
| `WolEffects.FailsWithoutReach` | `backend/internal/wol/wol.go:110-112` | when no network matches |
| `WolEffects.FirstUnlistedFails` | `backend/internal/wol/wol.go:48-51` | which interface that cannot be listed is reported |
| `WolEffects.SelectedIsOffered` | `backend/internal/wol/wol.go:33-116` | whatever is selected is a network of an interface that may be used |
| `WolEffects.BroadcastGoesThrough` | `backend/internal/wol/wol.go:116-121` | the packet leaves from that network's address for the last address of that network |
| `HostsFile.ValidateDeviceId` | `backend/internal/config/model.go:28-46` | accepts exactly the valid ids, and names the first error |
| `HostsFile.AllNumeric` | `backend/internal/config/hosts.go:67-76` | whether an address is all digits and dots |
| `HostsFile.CheckLabel` | `backend/internal/config/hosts.go:81-89` | one part of a hostname |
| `HostsFile.ValidHostAddress` | `backend/internal/config/hosts.go:63-93` | accepts exactly IP addresses and valid hostnames |
| `HostsFile.SplitEndsWithDot` | `backend/internal/config/hosts.go:77-79` | a trailing dot always leaves an empty part |
| `HostsFile.HostnamesAreJoinedLabels` | `backend/internal/config/hosts.go:63-93` | a valid hostname is exactly some valid labels joined by dots, not all numeric, of at most 253 bytes |
| `HostsFile.SplitOfJoin` | `backend/internal/config/hosts.go:80` | splitting undoes joining |
| `HostsFile.JoinOfSplit` | `backend/internal/config/hosts.go:80` | joining undoes splitting |
| `HostsFile.CheckHost` | `backend/internal/config/hosts.go:36-58` | the first objection to a host, in the order of the checks |
| `HostsFile.ParseHosts` | `backend/internal/config/hosts.go:14-61` | the first objection to a file |
| `HostsFile.AcceptsExactlyValidLists` | `backend/internal/config/hosts.go:34-60` | a file is accepted exactly if it is one list of valid hosts with unique ids, returned as it stands |
| `HostsFile.AddressesSpelledOut` | `backend/internal/config/hosts.go:63-93` | a host address is valid if and only if it is an IP address, or at most 253 bytes, not all digits and dots, of dotted parts of letters, digits and inner hyphens |
| `HostsFile.AcceptedListsSpelledOut` | `backend/internal/config/hosts.go:34-60` | acceptance of a list, field by field |
| `HostsFile.ObjectionsSayWhy` | `backend/internal/config/hosts.go:36-58` | each error says what is wrong with the host and that all checked before is in order |
| `HostsFile.FirstObjectionIsFirst` | `backend/internal/config/hosts.go:35-59` | a list is rejected for the first host that there is an objection to |
| `HostsFile.OtherFilesAreRejected` | `backend/internal/config/hosts.go:14-33` | blank, undecodable, null and multiple documents |
| `LoaderCode.CopyHosts` | `backend/internal/config/loader.go:91-102` | a fresh list, with fresh nested slices, of the same contents; nil exactly if nothing is loaded |
| `LoaderCode.Loader.Refresh` | `backend/internal/config/loader.go:51-88` | from the stat calls to the new state, on the loader's fields |
| `LoaderCode.Loader.Reload` | `backend/internal/config/loader.go:72-87` | reading and parsing, on the loader's fields |
| `LoaderCode.Loader.LoadHostsWithStatus` | `backend/internal/config/loader.go:34-89` | state and reply are those of the call on values; the list handed out is fresh |
| `LoaderCode.Loader.LoadHosts` | `backend/internal/config/loader.go:25-31` | the same, with errors hidden while there is a list |
| `LoaderCode.CallersCannotReachIn` | `backend/internal/config/loader.go:91-101` | writes to any arrays ever handed out leave the loader's state as it is |
| `LoaderCode.WriteBetweenCalls` | `backend/internal/config/loader.go:91-101` | a caller's writes to hosts and nested slices do not show in the next reply |
| `LoaderProperties.CallsCorrespond` | `backend/internal/config/loader.go:34-89` | one call of the cached and of the rereading loader |
| `LoaderProperties.CacheIsInvisible` | `backend/internal/config/loader.go:34-89` | if the key identifies contents, the cached loader returns the hosts of one that always rereads, and its error, if and only if the call is not a cache hit on a file that can no longer be read |
| `LoaderProperties.UnreadableFileIsMissed` | `backend/internal/config/loader.go:67-70` | a concrete run showing that exception |
| `LoaderProperties.ReturnedListsAreValid` | `backend/internal/config/loader.go:76-82` | every list ever returned satisfies the full validity predicate |
| `LoaderProperties.LastGoodListStays` | `backend/internal/config/loader.go:76-88` | while later readings fail, the last good list is returned |
| `LoaderProperties.LoadHostsHidesErrors` | `backend/internal/config/loader.go:25-31` | an error is hidden exactly if there is a list, and never are both missing |
| `LoaderProperties.EmptyListIsLoaded` | `backend/internal/config/loader.go:91-95` | a valid empty file gives an empty list, not "never loaded" |
| `LoaderProperties.ValidFileIsLoaded` | `backend/internal/config/loader.go:72-88` | a valid file that is read is returned without error, and its key remembered |
| `LoaderProperties.ErrorsSayWhy` | `backend/internal/config/loader.go:38-88` | which error each failure is reported as |
| `LoaderProperties.NewDirectoryStartsAfresh` | `backend/internal/config/loader.go:42-49` | in another working directory only a list read there is returned |
| `PollingCode.HostPolling.Publish` | `frontend/src/components/hostPolling.ts:19-23` | publishes unless stopped, also when `onState` stops |
| `PollingCode.HostPolling.Settle` | `frontend/src/components/hostPolling.ts:30-48` | the part of `loadHosts` after its await |
| `PollingCode.HostPolling.Fire` | `frontend/src/components/hostPolling.ts:43-46` | a timer that fires starts a fetch unless stopped |
| `PollingCode.HostPolling.Stop` | `frontend/src/components/hostPolling.ts:52-59` | stop clears the timer and aborts the fetch, once |
| `PollingProperties.RunKeepsInv` | `frontend/src/components/hostPolling.ts:14-60` | the invariant holds in every run |
| `PollingProperties.OneThingAtATime` | `frontend/src/components/hostPolling.ts:25-60` | fetches never overlap; before stop exactly one of a fetch and a timer is outstanding and listeners know the current state; after stop an outstanding fetch is aborted |
| `PollingProperties.NothingAfterStop` | `frontend/src/components/hostPolling.ts:52-59` | after stop, from wherever it is called, no fetch starts and nothing is published |
| `PollingProperties.PollingGoesOn` | `frontend/src/components/hostPolling.ts:43-50` | in every run not yet stopped there has been one fetch more than timers fired, and a timer for each fetch that settled |
| `PollingProperties.StepPublishes` | `frontend/src/components/hostPolling.ts:30-48` | what one step publishes, also when stopped half way |
| `PollingProperties.PublishesTheFeed` | `frontend/src/components/hostPolling.ts:14-48` | over every run listeners see exactly the feed of the answers, or a beginning of it once stopped |
| `PollingProperties.LastGoodHostsStay` | `frontend/src/components/hostPolling.ts:30-48` | in every run, from a good answer on and while only failures follow, every snapshot shows that answer's hosts, and an error exactly from the first failure on |
| `PollingProperties.StopLeavesTimer` | `frontend/src/components/hostPolling.ts:39-59` | a stop leaves a timer armed if and only if it is called inside the `loading: false` announcement of a settled fetch and not already in the one before |
| `PollingProperties.TimerRemainsExactly` | `frontend/src/components/hostPolling.ts:39-59` | in every run, after stop a timer remains if and only if the stop was such a one and the timer has not fired since |
| `PollingProperties.OneHarmlessTimer` | `frontend/src/components/hostPolling.ts:41-46` | the very first settled fetch can be such a one |

## Left out

- PingProperties.LaunchesAreSpaced: says nothing after a list that omitted the id or moved its running probe, because then the launch time is forgotten by design.
- PingRounds.DueHostIsLaunchedInRounds: assumes that results are received between passes and that intervals exceed the span of the passes; which hosts a pass launches in general is PingFairness.PassLaunchesExactly.
- PingProperties.VerdictsMatchTheList: does not say that a status always describes the current address, because a changed address keeps the old verdict until the next result.
- LimiterCalls.AgreesWithReference: excludes runs that evict one of the two keys; LimiterAgreement.AgreesExactlyIfNeverEvicted shows that this is exactly where records differ, and a different record need not show in the reply at once.
- LimiterRate.FailuresInSpan: covers logins that do not overlap, because the check and the record are separate critical sections.
- LimiterCalls.HeaderIsExact: takes the floating-point header for exact up to 2^23 seconds (97 days) only; the default backoff is one minute.
- AccountRuns.AcceptedTokensMatchTheStoredHash: ties a token to a password only on the password-check branch, because the setup branch refetches the user without checking again; whom its token is for is AccountRuns.SetupTokensForTheNewRow.
- AccountStore.Store.DeleteUser: says nothing about device rows, because the cascade is up to the database; its error kind is that of a call with nothing in between the two queries.
- LoginHandlerCode.HandleLogin: is one request with nothing in between, and the checks of body, address and password length are one option; interleavings are the subject of AccountRuns.
- LoginLimiterCode.LoginAttemptLimiter.RetryAfter: has its loop over the two keys written out, as has `RecordFailure`.
- HostsFile.ParseHosts: starts from the decoded document; YAML decoding, `net.ParseMAC`, `net.ParseIP` and trimming are abstract.
- LoaderCode.Loader.LoadHostsWithStatus: takes what the operating system answers as a parameter, and has no mutex because a call is one step.
- PollingProperties.PublishesTheFeed: assumes that `onState` does not throw.
- PollingProperties.NothingAfterStop: does not say that no timer remains; PollingProperties.TimerRemainsExactly says when one does.
- Saturation of Go durations and times, the width of token_version and of row ids, and 64-bit list lengths.
- bcrypt, JWT encoding, signatures and expiry: a token is what its claims hold, and `Check` is any function.
- Reading the token from the Authorization header or the cookie, and the administrator middleware.
- HTTP: routing, headers other than Retry-After, bodies, static files, email and password validation.
- Name resolution, interface enumeration and sockets of Wake-on-LAN are parameters; IPv6 is filtered as the code filters it.
- The probe itself, SSH shutdown, startup, the API client and the React components.
