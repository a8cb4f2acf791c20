# VoiceSniffer processor: a verified model

This project models the parts of the VoiceSniffer processor that hold shared state while requests
interleave, and the matching and parsing code whose loops have exact specifications, and proves what
callers rely on.

- **Two gates in front of the work.** `Admission` is the tenant share of app.py, `Idempotency`,
  `IdempotencyCaches` and `Coalescing` are the idempotency cache: its lock sections as functions, the
  same sections updating objects in place, and any number of concurrent calls. `TwoGates` runs the two
  together, sized on the same number, and shows what neither says alone: an admitted request can be
  refused by the cache only when three tenants are in flight, and three are enough.
- **Processing slots.** `ProcessingSlots` is the semaphore whose permits outlive cancelled callers.
- **Micro-batching.** `Selection` picks a batch, `BatchWorker` is the worker as a machine driven by
  what its queue answers, `MicroBatchers` is the worker's loops proved equal to that machine, and
  `Transcription` is the adapter that regroups a batch by recognizer and scatters the results.
- **Cloud credentials.** `CredentialTables` is the pair of bounded tables against the map of last
  answers, `CredentialResolver` the counted locks under every interleaving, `CloudCredentials` the
  object that holds both, stretch by stretch of `resolve`.
- **Rate limit.** `RateLimit` compares the pruned and swept windows with an archive that never forgets.
- **Flagged events.** `Events` is the bounded queue with batches taken and put back.
- **Rule matching.** `Text`, `Fuzzy`, `Matching`, `Regexes`, `Spelling` and `Verdicts` go from `split` and `find`
  to the verdict of a whole rule pack.
- **Parsing and trimming.** `Envelope` is the length-prefixed frame envelope, `Trim` the window
  arithmetic of silence trimming.

Every section that the source runs under a lock, and every stretch between two awaits, is one step.
Where the source updates objects in place the model has a class whose methods are tied to the
functions that the theorems speak of. `dafny verify dfyconfig.toml` checks the whole project.

Where code and comments disagree, the model follows the code:

- event_reporter.py:271-273 says that putting a batch back onto a full queue drops the oldest events.
  Python's `appendleft` on a bounded deque discards the right end, so it drops the newest, and
  `_dropped` does not count them: `Events.PutBackDropsTheNewest`, `Events.PutBackLossIsUncounted`, and
  the shortest run that shows it, `Events.NewestIsLostUncounted`.
- batching.py:147-157 gives each caller its own result or error, but one request for an unsupported
  language fails every request of its batch: `Transcription.OneFailureFailsTheBatch` says exactly when,
  and `Transcription.EverybodyIsToldTheFirstFailure` with which error.

## Model

| member | source | states |
|---|---|---|
| Admission.TenantAdmission.HeldTotal | processor/service/src/voicesniffer_processor/app.py:211-214 | the sum over every tenant in flight, whatever order the table is walked in |
| Admission.TenantAdmission.Acquire | processor/service/src/voicesniffer_processor/app.py:216-242 | admits or refuses, with the reason, exactly as the decision function says, and changes the table only on admission, by one for that tenant |
| Admission.TenantAdmission.Release | processor/service/src/voicesniffer_processor/app.py:244-251 | one admission less for the tenant; a tenant left with none disappears from the table, and so stops counting as competing |
| Admission.TotalDrop | processor/service/src/voicesniffer_processor/app.py:244-251 | a release of a held admission lowers the total by exactly one |
| Admission.GrantedSurplus | processor/service/src/voicesniffer_processor/app.py:237-242 | an admitted request keeps the total within tenants in flight plus max(0, capacity - 2) |
| Admission.AcquireKeepsInvariant | processor/service/src/voicesniffer_processor/app.py:216-242 | an admission keeps every stored count positive and equal to its tenant's outstanding tasks |
| Admission.ReleaseKeepsInvariant | processor/service/src/voicesniffer_processor/app.py:244-251 | a release wired to an outstanding task keeps the counts exact and the surplus bound, also when the tenant leaves the table |
| Admission.StepKeepsInvariant | processor/service/src/voicesniffer_processor/app.py:205-251 | every acquire, admitted or refused, and every matched release keeps the invariant |
| Admission.RunKeepsInvariant | processor/service/src/voicesniffer_processor/app.py:205-251 | over every run: counts positive and equal to outstanding tasks, held total at most tenants in flight + max(0, capacity - 2) |
| Admission.NewcomerIsAdmitted | processor/service/src/voicesniffer_processor/app.py:169-171 | a tenant with nothing in flight is never refused, whatever everybody else holds |
| Admission.LoneTenantLimit | processor/service/src/voicesniffer_processor/app.py:173-175 | alone, a tenant is refused exactly from capacity - 1 held on, and never for contention |
| Admission.LoneTenantReachesLimit | processor/service/src/voicesniffer_processor/app.py:173-175 | a lone tenant can reach capacity - 1 admissions: the run that does it, and the refusal that follows |
| Admission.CeilDivAntitone | processor/service/src/voicesniffer_processor/app.py:208-209 | more competitors never widen a share |
| Admission.StepStaysUnderShare | processor/service/src/voicesniffer_processor/app.py:205-242 | with k >= 2 tenants in flight one step lifts no tenant above the larger of its count and ceil(capacity / k) |
| Admission.DrainsToShare | processor/service/src/voicesniffer_processor/app.py:169-171 | while k >= 2 tenants stay in flight, over any run, no tenant climbs above the larger of where it started and ceil(capacity / k) |
| Admission.AnswerIsExact | processor/service/src/voicesniffer_processor/app.py:216-242 | in every state of every run the answer, from the outstanding tasks alone: with n tenants contending, this one included, a share refusal exactly when n > 1 and held * n >= capacity; otherwise busy exactly when it holds something and at least capacity - 1 tasks are outstanding; otherwise admitted |
| Keys.KeyOrder | processor/service/src/voicesniffer_processor/idempotency.py:104 | the order by which the heap compares keys is total and antisymmetric |
| Keys.TextLessIsLexicographic | processor/service/src/voicesniffer_processor/idempotency.py:104 | a string is less than another exactly when it is a proper prefix or has the smaller character where they first differ |
| ExpiryQueue.PushKeepsSorted | processor/service/src/voicesniffer_processor/idempotency.py:104 | a push adds its record once, loses none, and keeps the least record at the front |
| Idempotency.PopKeepsConsistent | processor/service/src/voicesniffer_processor/idempotency.py:111-117 | a pop never meets a stale record: it removes the completed entry with the least (expiry, key), and nothing else |
| Idempotency.RemoveExpiredExact | processor/service/src/voicesniffer_processor/idempotency.py:109-117 | purging removes exactly the completed entries whose expiry has come, and keeps queue, table and counters in bijection |
| Idempotency.OpenKeepsConsistent | processor/service/src/voicesniffer_processor/idempotency.py:74-80 | opening an entry keeps queue and table in bijection and both counters exact |
| Idempotency.CompleteKeepsConsistent | processor/service/src/voicesniffer_processor/idempotency.py:99-104 | publishing a result moves one entry from the active to the completed count, with one record of its own expiry |
| Idempotency.DiscardKeepsConsistent | processor/service/src/voicesniffer_processor/idempotency.py:91-96 | publishing an error removes the owner's entry and keeps the bijection |
| Idempotency.EvictKeepsYoungest | processor/service/src/voicesniffer_processor/idempotency.py:119-126 | eviction ends on the budget without popping an empty heap, touches no active entry, and whatever it removes is older by (expiry, key) than everything completed that stays |
| Idempotency.CompletingEvictsTheLeast | processor/service/src/voicesniffer_processor/idempotency.py:99-107 | completing an entry and evicting keeps its row, with its new expiry, unless the table was full and every other completed row comes later by (expiry, key) |
| IdempotencyCaches.IdempotencyCache.PopOldestRecord | processor/service/src/voicesniffer_processor/idempotency.py:111-117 | the in-place pop computes the pop of the model, its heap access in bounds |
| IdempotencyCaches.IdempotencyCache.RemoveExpiredEntries | processor/service/src/voicesniffer_processor/idempotency.py:109-117 | the purge loop computes the model's purge and keeps the object valid |
| IdempotencyCaches.IdempotencyCache.EvictCompletedEntries | processor/service/src/voicesniffer_processor/idempotency.py:119-126 | the eviction loop computes the model's eviction; it never pops an empty heap |
| IdempotencyCaches.IdempotencyCache.Enter | processor/service/src/voicesniffer_processor/idempotency.py:67-80 | the first lock section: purge, then owner with a new entry, follower of the stored one, reuse error or capacity error; only an owner changes the table |
| IdempotencyCaches.IdempotencyCache.CompleteEntry | processor/service/src/voicesniffer_processor/idempotency.py:99-105 | the fields of a completed entry, both counters and the heap, updated in place |
| IdempotencyCaches.IdempotencyCache.PublishResult | processor/service/src/voicesniffer_processor/idempotency.py:99-107 | completion, then eviction; the waiters' entry object keeps its outcome |
| IdempotencyCaches.IdempotencyCache.PublishError | processor/service/src/voicesniffer_processor/idempotency.py:90-97 | the error is set on the entry, and the row goes only if the table still holds this entry |
| Coalescing.EnterKeepsInvariant | processor/service/src/voicesniffer_processor/idempotency.py:67-80 | the first lock section keeps owners, entries, followers and limits consistent |
| Coalescing.LinkedAfterPublishing | processor/service/src/voicesniffer_processor/idempotency.py:88-107 | when an owner publishes, every follower of its entry can wake and will find that outcome |
| Coalescing.PublishKeepsInvariant | processor/service/src/voicesniffer_processor/idempotency.py:88-107 | both publishing sections keep the invariant, eviction included |
| Coalescing.NextKeepsInvariant | processor/service/src/voicesniffer_processor/idempotency.py:57-107 | every step of any number of interleaved calls keeps the invariant |
| Coalescing.RunKeepsInvariant | processor/service/src/voicesniffer_processor/idempotency.py:57-126 | in every reachable state: queue and table in bijection, active <= max_active, completed <= max_entries, one owner per active entry, every follower tied to its owner |
| Coalescing.EveryCallCanProceed | processor/service/src/voicesniffer_processor/idempotency.py:57-107 | no call is stuck: each has a step to take, or follows an owner that has one; a publishing owner always still has its row |
| Coalescing.SingleFlight | processor/service/src/voicesniffer_processor/idempotency.py:67-80 | at most one operation runs per key at any time |
| Coalescing.PublishedForever | processor/service/src/voicesniffer_processor/idempotency.py:82-86 | an outcome once published stays what it was, whatever becomes of its row |
| Coalescing.FollowersGetTheOwnersOutcome | processor/service/src/voicesniffer_processor/idempotency.py:82-86 | every follower is answered with what its owner's operation returned or raised, and the owner asked with the same key and digest, even if the entry expired or was evicted in between |
| Coalescing.FailureLeavesNoTrace | processor/service/src/voicesniffer_processor/idempotency.py:90-97 | a failed operation leaves nothing in the table, the queue or the counters |
| Coalescing.FailedCallRestoresTheCache | processor/service/src/voicesniffer_processor/idempotency.py:67-97 | a call that becomes an owner, fails and publishes leaves exactly the cache that it found, less what had expired |
| Coalescing.CompletedEntryAnswers | processor/service/src/voicesniffer_processor/idempotency.py:67-82 | before its expiry a completed entry answers its digest and rejects any other without running anything; from the expiry on a new owner starts, if a place is free |
| Coalescing.ActiveAreOwners | processor/service/src/voicesniffer_processor/idempotency.py:75-80 | in every state the active count is the number of calls that own a key |
| Coalescing.DuplicateInFlightJoins | processor/service/src/voicesniffer_processor/idempotency.py:67-73 | a caller that finds its key owned by a running call follows that owner if the digests agree, and is told of the reuse if they differ, whatever has expired meanwhile |
| Coalescing.NewKeyStartsOrIsRefused | processor/service/src/voicesniffer_processor/idempotency.py:74-80 | a caller whose key nobody owns and that no unexpired entry answers starts the operation exactly if fewer than max_active_entries calls own a key, and is refused for capacity otherwise |
| Coalescing.PublishedRow | processor/service/src/voicesniffer_processor/idempotency.py:99-107 | a returned result is stored with its digest until one ttl after the reading of the clock; only a full table drops it, and only as the least completed row |
| Coalescing.PublishedAsEnded | processor/service/src/voicesniffer_processor/idempotency.py:88-107 | what an owner publishes is what its one operation was last seen to end with |
| Coalescing.DuplicateGetsTheOwnersOutcome | processor/service/src/voicesniffer_processor/idempotency.py:67-97 | over a run: a call that enters while another owns its key and digest, and is ever answered, was answered from that owner with what its operation returned or raised |
| Coalescing.OnlyEvictionForgets | processor/service/src/voicesniffer_processor/idempotency.py:109-126 | before its expiry a completed entry leaves the table only by eviction from a full table |
| Coalescing.CompletedKeyIsIdle | processor/service/src/voicesniffer_processor/idempotency.py:67-80 | no operation runs for a key whose entry is completed |
| Coalescing.ReplaysUntilExpiry | processor/service/src/voicesniffer_processor/idempotency.py:57-107 | over any stretch of a run before the expiry without eviction the completed entry stays exactly as it was |
| Coalescing.StoredValueIsReplayed | processor/service/src/voicesniffer_processor/idempotency.py:57-107 | end to end: a call that enters with the stored key and digest before the expiry, and is answered by the end of the run, was answered with exactly the stored value |
| Coalescing.RetryWithinTtlIsReplayed | processor/service/src/voicesniffer_processor/idempotency.py:67-107 | over a run: a value published at a time is what every equal request is answered with that enters less than one ttl later, unless the row was evicted |
| TwoGates.NextKeepsInvariant | processor/service/src/voicesniffer_processor/app.py:709-742 | acquire, every cache step and the release on task completion keep both gates' invariants, and every unfinished task holds a share |
| TwoGates.RunKeepsInvariant | processor/service/src/voicesniffer_processor/app.py:709-742 | the same in every state of every run |
| TwoGates.ActiveEntriesHoldShares | processor/service/src/voicesniffer_processor/app.py:399-412 | active cache entries never exceed held admissions, nor held admissions less one while some admitted task has yet to enter |
| TwoGates.CapacityRefusalNeedsThreeTenants | processor/service/src/voicesniffer_processor/app.py:399-412 | an admitted request can meet the cache's capacity refusal only with at least three tenants in flight |
| TwoGates.NewcomerPassesBothGates | processor/service/src/voicesniffer_processor/app.py:164-171 | a newcomer is admitted at once, and its task is not refused for capacity while no third tenant is in flight |
| TwoGates.CrowdIsReachable | processor/service/src/voicesniffer_processor/app.py:205-242 | for every capacity the run in which one tenant saturates its limit and two newcomers follow |
| TwoGates.ThreeTenantsCanMeetTheRefusal | processor/service/src/voicesniffer_processor/app.py:399-412 | three is tight: for every capacity >= 2 a run with three tenants ends in that refusal |
| ProcessingSlots.NextKeepsConserved | processor/service/src/voicesniffer_processor/app.py:963-982 | one step, timeout or cancellation included, leaves every slot free or held by exactly one request |
| ProcessingSlots.RunKeepsConserved | processor/service/src/voicesniffer_processor/app.py:963-992 | the same over every run |
| ProcessingSlots.WorkersWithinSlots | processor/service/src/voicesniffer_processor/app.py:963-992 | never more workers at once than slots, and all slots free once no request holds one |
| ProcessingSlots.GrantedWhileSlotsRemain | processor/service/src/voicesniffer_processor/app.py:963-971 | in every state of every run a queued request can be granted a slot exactly while fewer than all are held, and its worker runs from there |
| ProcessingSlots.RunningWorkerKeepsItsSlot | processor/service/src/voicesniffer_processor/app.py:973-982 | over any run in which its worker has not ended a request keeps its slot, whoever is cancelled |
| ProcessingSlots.LeavingIsFinal | processor/service/src/voicesniffer_processor/app.py:978-992 | a slot given back is not given back again: a request that has left stays so, and no further event of it is possible |
| ProcessingSlots.SlotComesBack | processor/service/src/voicesniffer_processor/app.py:975-992 | whoever is left, caller or callback, returns the slot after the worker ends |
| Selection.OrderIsSorted | processor/service/src/voicesniffer_processor/batching.py:228 | the index order is sorted by length, stable, and a permutation of all indexes |
| Selection.WindowHoldsOldest | processor/service/src/voicesniffer_processor/batching.py:229-234 | the clamped start keeps the oldest's rank inside the window, for every queue length and batch size |
| Selection.ChosenHoldsOldest | processor/service/src/voicesniffer_processor/batching.py:226-234 | exactly max_batch_size distinct indexes are chosen, the oldest among them |
| Selection.ChosenGroupsByLength | processor/service/src/voicesniffer_processor/batching.py:228-234 | nothing left out is strictly longer than the shortest chosen and strictly shorter than the longest |
| Selection.PickArrived | processor/service/src/voicesniffer_processor/batching.py:235-236 | both comprehensions keep the order of arrival |
| Selection.SelectPartitions | processor/service/src/voicesniffer_processor/batching.py:218-237 | batch and rest are disjoint, together the whole queue, both in arrival order; the batch has min(len, max) members and the oldest |
| Selection.SelectGroupsByLength | processor/service/src/voicesniffer_processor/batching.py:218-237 | the grouping, for the two lists that are returned |
| Selection.SelectTakesTheNeighbours | processor/service/src/voicesniffer_processor/batching.py:218-237 | of more requests than fit, the batch is exactly the oldest with its neighbours in length: half of the batch from the shorter ones, or all of those if fewer, or more if the longer ones run out |
| Selection.SelectAdvances | processor/service/src/voicesniffer_processor/batching.py:221-224 | a request left behind moves at least one place towards the head |
| BatchWorker.SettleAllKeepsAccounted | processor/service/src/voicesniffer_processor/batching.py:258-259 | settling a batch closes exactly its members' tickets, once each |
| BatchWorker.SettleAllGives | processor/service/src/voicesniffer_processor/batching.py:258-259 | each member of a batch is settled with the value at its own position |
| BatchWorker.DispatchExplains | processor/service/src/voicesniffer_processor/batching.py:239-259 | after a dispatch every settlement other than the closed error goes back to a batch dispatched: the result at the request's own position, the exception raised for the batch, or the count error where the list had the wrong length |
| BatchWorker.DispatchKeepsAccounted | processor/service/src/voicesniffer_processor/batching.py:239-259 | a dispatch settles every member of its batch and nobody else |
| BatchWorker.RoundKeepsAccounted | processor/service/src/voicesniffer_processor/batching.py:178-179 | a round settles its batch and leaves the rest waiting in order |
| BatchWorker.CloseOutKeepsAccounted | processor/service/src/voicesniffer_processor/batching.py:180-186 | after the sentinel everything already drained is still dispatched |
| BatchWorker.FailKeepsInvariant | processor/service/src/voicesniffer_processor/batching.py:261-269 | the final drain settles with the closed error, and only behind a sentinel |
| BatchWorker.StepKeepsInvariant | processor/service/src/voicesniffer_processor/batching.py:166-269 | whatever a poll returns, in every phase, each request taken so far is settled once or waits once |
| BatchWorker.NextKeepsInvariant | processor/service/src/voicesniffer_processor/batching.py:147-188 | the same with callers putting requests and sentinels between any two polls |
| BatchWorker.RunKeepsInvariant | processor/service/src/voicesniffer_processor/batching.py:147-188 | the same in every reachable state |
| BatchWorker.StopsOnlyWhenDrained | processor/service/src/voicesniffer_processor/batching.py:261-267 | the worker stops only on an empty queue |
| BatchWorker.WholeRunSettlement | processor/service/src/voicesniffer_processor/batching.py:147-188 | every request put before the final drain ends is settled exactly once: behind the first sentinel with the closed error, and ahead of it in a batch that was dispatched, with what the model made of that batch at its own position |
| BatchWorker.ReliableModelServesAll | processor/service/src/voicesniffer_processor/batching.py:244-259 | if the model always answers with a list of the right length, every request ahead of the first sentinel ends with a result |
| BatchWorker.StatisticsAreExact | processor/service/src/voicesniffer_processor/batching.py:239-243 | in every state of every run the statistics count the batches dispatched, their members and the largest, and every batch has between one and max_batch_size members |
| BatchWorker.DispatchesWhenDue | processor/service/src/voicesniffer_processor/batching.py:190-216 | short of a sentinel a batch is dispatched exactly when the drain ends without cause for a window, or the window ends or fills the batch; nobody lingers alone or in a full batch |
| BatchWorker.RoundServes | processor/service/src/voicesniffer_processor/batching.py:221-224 | a round settles a waiting request or brings it one place forward |
| BatchWorker.StepServes | processor/service/src/voicesniffer_processor/batching.py:166-188 | so does every step, counted against the batches dispatched |
| BatchWorker.NobodyStarves | processor/service/src/voicesniffer_processor/batching.py:221-224 | a request at index k is settled once k + 1 more batches were dispatched, whatever arrives |
| MicroBatchers.RunFeedsTheWorker | processor/service/src/voicesniffer_processor/batching.py:166-188 | every interleaving of callers and worker is the worker fed with some sequence of polls |
| MicroBatchers.MicroBatcher.Dispatch | processor/service/src/voicesniffer_processor/batching.py:239-259 | counters, one call of the model, one settle per member, in place |
| MicroBatchers.MicroBatcher.Drain | processor/service/src/voicesniffer_processor/batching.py:194-201 | the free drain loop follows the machine |
| MicroBatchers.MicroBatcher.Linger | processor/service/src/voicesniffer_processor/batching.py:203-215 | the collection window loop follows the machine, whichever of its exits it takes |
| MicroBatchers.MicroBatcher.Collect | processor/service/src/voicesniffer_processor/batching.py:190-216 | the free drain, then the window only when it is due |
| MicroBatchers.MicroBatcher.DispatchSelected | processor/service/src/voicesniffer_processor/batching.py:178-179 | one selection and its dispatch are the machine's round |
| MicroBatchers.MicroBatcher.DispatchRemaining | processor/service/src/voicesniffer_processor/batching.py:184-186 | the closing loop ends with nothing waiting |
| MicroBatchers.MicroBatcher.DrainOnClose | processor/service/src/voicesniffer_processor/batching.py:261-269 | the final drain loop follows the machine |
| MicroBatchers.MicroBatcher.Run | processor/service/src/voicesniffer_processor/batching.py:166-188 | the loops of the worker thread compute exactly the machine of which the theorems above speak |
| Transcription.OneFailsFirst | processor/service/src/voicesniffer_processor/transcription.py:44-59 | which failure ends a batch is determined: the first request for an unsupported language, otherwise the failing request decoded before any other failing one, recognizers taking turns in the order in which they were first asked for |
| Transcription.AnswersAlone | processor/service/src/voicesniffer_processor/transcription.py:25-28 | for a loaded model: a language of the model is decoded by its own recognizer and kept as the label, any other is refused by name, and auto is answered with the only language, a detected language of the model, or auto, or fails |
| Transcription.OneRecognizerOnePass | processor/service/src/voicesniffer_processor/transcription.py:37-40 | a model with one recognizer decodes any mix of languages in one pass |
| Transcription.Group | processor/service/src/voicesniffer_processor/transcription.py:44-50 | each index lands in one group, that of its recognizer, groups and members in order of appearance; or the error of the first unsupported language |
| Transcription.DecodeGroup | processor/service/src/voicesniffer_processor/transcription.py:53-59 | one group decoded in one pass and scattered by index, earlier results kept; or the error of its first failing member |
| Transcription.FailureIsFirst | processor/service/src/voicesniffer_processor/transcription.py:53-59 | the first failure of a group, met with the groups before it done, is the first of the batch |
| Transcription.Batch | processor/service/src/voicesniffer_processor/transcription.py:30-60 | the list of what each request would get alone, in order, or else the error of the first failure in the order of decoding; a count mismatch is its own error |
| Transcription.AdapterIsPositional | processor/service/src/voicesniffer_processor/transcription.py:30-60 | behind the batcher a list that the adapter returns has one result a request, and at each position that request's own |
| Transcription.CallersGetTheirOwn | processor/service/src/voicesniffer_processor/transcription.py:25-60 | over any run, through batcher and adapter: a request ahead of the first sentinel was in a batch, and got its own result if every member of that batch would get one alone, and the error of the batch's first failure otherwise; behind the sentinel the closed error |
| Transcription.OneFailureFailsTheBatch | processor/service/src/voicesniffer_processor/transcription.py:62-82 | a dispatch succeeds for a member if and only if every member would succeed alone |
| Transcription.EverybodyIsToldTheFirstFailure | processor/service/src/voicesniffer_processor/batching.py:249-252 | in a batch with any failure every member is settled with the error of the first failure |
| Transcription.NeighbourCanFailARequest | processor/service/src/voicesniffer_processor/transcription.py:62-71 | a concrete batch in which a request that would succeed alone is told that its neighbour's language is unsupported |
| CredentialTables.ConsultExact | processor/service/src/voicesniffer_processor/cloud_auth.py:153-162 | a lookup drops the row only if it expired, and otherwise returns the digest's own live row |
| CredentialTables.CachedKeepsInvariant | processor/service/src/voicesniffer_processor/cloud_auth.py:146-163 | lookups keep both tables sound |
| CredentialTables.ReinsertKeepsSound | processor/service/src/voicesniffer_processor/cloud_auth.py:175-186 | re-insertion keeps the table keyed, within budget and sorted by expiry |
| CredentialTables.StoreKeepsInvariant | processor/service/src/voicesniffer_processor/cloud_auth.py:165-186 | stores keep both tables sound against the map of last answers |
| CredentialTables.CallsKeepInvariant | processor/service/src/voicesniffer_processor/cloud_auth.py:146-186 | over any sequence of calls: each table within budget, sorted by expiry, every row the last answer stored |
| CredentialTables.NoDigestInBothTables | processor/service/src/voicesniffer_processor/cloud_auth.py:172-174 | no digest is in both tables |
| CredentialTables.HitIsTheLastAnswer | processor/service/src/voicesniffer_processor/cloud_auth.py:146-163 | a hit is the last answer stored and younger than its TTL; there is a hit if and only if some table holds an unexpired row |
| CredentialTables.StoredAnswerIsFound | processor/service/src/voicesniffer_processor/cloud_auth.py:165-186 | an answer stored, a refusal too, is found again until it expires, from any tables |
| CredentialTables.TrimIsSuffix | processor/service/src/voicesniffer_processor/cloud_auth.py:178-185 | the eviction loop keeps exactly the newest rows, one fewer than the budget when there are that many |
| CredentialTables.EvictsTheLeastExpiry | processor/service/src/voicesniffer_processor/cloud_auth.py:178-185 | what a full table drops expires no later than anything it keeps |
| CredentialTables.AnswerSurvives | processor/service/src/voicesniffer_processor/cloud_auth.py:96-99 | lookups and answers for other tokens leave a stored answer in place until it expires: a credential while fewer credentials than its budget are stored, whatever the number of refusals, and a refusal likewise |
| CredentialResolver.LeaveKeepsCounts | processor/service/src/voicesniffer_processor/cloud_auth.py:141-144 | the way out removes a lock object exactly when its last caller leaves |
| CredentialResolver.NextKeepsInvariant | processor/service/src/voicesniffer_processor/cloud_auth.py:103-144 | arrival, lock hand-over, answer, outage and cancellation keep tables and lock counts exact |
| CredentialResolver.RunKeepsInvariant | processor/service/src/voicesniffer_processor/cloud_auth.py:103-144 | in every interleaving each caller inside holds the one lock object of its digest, whose count is the callers inside |
| CredentialResolver.SingleFlight | processor/service/src/voicesniffer_processor/cloud_auth.py:118-140 | at most one lookup per digest is awaited at once |
| CredentialResolver.NoLeakedLocks | processor/service/src/voicesniffer_processor/cloud_auth.py:74-79 | the lock table holds an object exactly for the digests somebody is inside for; it is empty when nobody is |
| CredentialResolver.WaiterTakesTheAnswer | processor/service/src/voicesniffer_processor/cloud_auth.py:128-131 | a caller that waited while the answer was stored leaves with it, without a lookup of its own |
| CredentialResolver.MemoryIsItsCalls | processor/service/src/voicesniffer_processor/cloud_auth.py:103-144 | over any run the tables are what the lookups and answers of the run leave: outages and cancellations are never remembered |
| CredentialResolver.MissIsLookedUp | processor/service/src/voicesniffer_processor/cloud_auth.py:111-138 | a caller goes inside exactly if no unexpired row answers it, and looks up exactly if there still is none once it has the lock |
| CredentialResolver.EveryCallerCanProceed | processor/service/src/voicesniffer_processor/cloud_auth.py:118-144 | a caller inside can go on, or waits for one that is looking up the same digest and can |
| CloudCredentials.CloudCredentialResolver.CachedRow | processor/service/src/voicesniffer_processor/cloud_auth.py:146-163 | the two-table lookup in place is the machine's lookup |
| CloudCredentials.CloudCredentialResolver.Insert | processor/service/src/voicesniffer_processor/cloud_auth.py:175-186 | the eviction loop and the insertion at the back |
| CloudCredentials.CloudCredentialResolver.StoreAnswer | processor/service/src/voicesniffer_processor/cloud_auth.py:165-186 | the store in place, with the source's budgets, is the machine's |
| CloudCredentials.CloudCredentialResolver.ClaimLock | processor/service/src/voicesniffer_processor/cloud_auth.py:120-126 | the claim in place is the machine's claim, on the table's own object or on a new one, and keeps its invariant |
| CloudCredentials.CloudCredentialResolver.LeaveLock | processor/service/src/voicesniffer_processor/cloud_auth.py:141-144 | the finally block in place is the machine's leaving, and keeps its invariant |
| CloudCredentials.CloudCredentialResolver.Arrive | processor/service/src/voicesniffer_processor/cloud_auth.py:103-127 | resolve up to its first suspension is the machine's arrival |
| CloudCredentials.CloudCredentialResolver.Acquire | processor/service/src/voicesniffer_processor/cloud_auth.py:128-131 | with the lock in hand: the second lookup, and the way out on a hit, are the machine's step |
| CloudCredentials.CloudCredentialResolver.Answered | processor/service/src/voicesniffer_processor/cloud_auth.py:138-144 | the answer stored and the lock left are the machine's step |
| CloudCredentials.CloudCredentialResolver.GiveUp | processor/service/src/voicesniffer_processor/cloud_auth.py:132-144 | an outage or a cancellation is the machine's step; nothing is remembered |
| RateLimit.RateLimitWindows.SweepStale | processor/service/src/voicesniffer_processor/app.py:302-312 | the sweep, in place: at most once a minute, dropping exactly the stale keys |
| RateLimit.RateLimitWindows.WaitFor | processor/service/src/voicesniffer_processor/app.py:314-330 | the pruning loop, the verdict and the new window, in place; no limit means admitted and nothing changed |
| RateLimit.PruneIsRecent | processor/service/src/voicesniffer_processor/app.py:325-326 | pruning from the front leaves exactly the admissions younger than the window |
| RateLimit.SweepKeepsRefinement | processor/service/src/voicesniffer_processor/app.py:286-292 | a sweep drops only windows that pruning would empty |
| RateLimit.WaitDecidesLikeTheArchive | processor/service/src/voicesniffer_processor/app.py:302-330 | the pruned and swept table gives the verdict, seconds included, of a table that forgets nothing, and goes on standing for it |
| RateLimit.VerdictIsExact | processor/service/src/voicesniffer_processor/app.py:311-331 | in every run from an empty table a call is refused if and only if at least its limit of the times admitted before it are less than 60 seconds old, and is told to wait until the oldest of those is, at least one second |
| RateLimit.PruningIsInvisible | processor/service/src/voicesniffer_processor/app.py:302-330 | the same for every verdict of every run under a monotone clock, with any keys and changing limits |
| RateLimit.RecordKeepsSpaced | processor/service/src/voicesniffer_processor/app.py:327-329 | an admission keeps any limit + 1 consecutive ones at least a window apart |
| RateLimit.CodeAdmitsTheArchive | processor/service/src/voicesniffer_processor/app.py:314-330 | the times at which the code admitted a key, read off its verdicts, are the log that the archive keeps for it |
| RateLimit.AtMostLimitPerWindow | processor/service/src/voicesniffer_processor/app.py:314-330 | every half-open 60-second interval holds at most `limit` of the times at which the code admitted a key |
| RateLimit.RefusedKeyIsAdmittedAfterItsWait | processor/service/src/voicesniffer_processor/app.py:327-330 | a refused key that stays quiet for the seconds returned is admitted next, whatever other keys do meanwhile |
| RateLimit.IdleKeysAreForgotten | processor/service/src/voicesniffer_processor/app.py:302-312 | over any run a key still in the table was called less than two minutes before the last call |
| Events.RequeueCutsTheRight | processor/service/src/voicesniffer_processor/event_reporter.py:366-368 | putting a batch back keeps all of it, in front and in order, and cuts the queue at its right end |
| Events.EventReporter.Record | processor/service/src/voicesniffer_processor/event_reporter.py:196-206 | the append in place, with its drop count, is the machine's recording |
| Events.EventReporter.BeginFlush | processor/service/src/voicesniffer_processor/event_reporter.py:286-289 | the drop report and the loop that takes a batch are the machine's step, and the batch holds the events that the machine has in flight |
| Events.EventReporter.Landed | processor/service/src/voicesniffer_processor/event_reporter.py:296-298 | a delivery is the machine's step, and ends the failures |
| Events.EventReporter.Failed | processor/service/src/voicesniffer_processor/event_reporter.py:312-344 | a retryable failure, with its loop of appendleft, and a refusal are the machine's steps |
| Events.RecordDropsTheOldest | processor/service/src/voicesniffer_processor/event_reporter.py:200-206 | what a full queue discards on recording is older than everything it keeps |
| Events.PutBackDropsTheNewest | processor/service/src/voicesniffer_processor/event_reporter.py:269-273 | a put-back keeps the whole batch, and what it discards is newer than everything it keeps: the opposite of what the comment says |
| Events.StepMovesEvents | processor/service/src/voicesniffer_processor/event_reporter.py:196-343 | where each step leaves the events: recording drops only from a full queue, a batch is the front of the queue up to max_batch, a refusal puts nothing back, a flush reports every drop counted |
| Events.StepDecidesFates | processor/service/src/voicesniffer_processor/event_reporter.py:196-343 | which events have their fate decided by each step, which fate, and that it is never decided twice |
| Events.PutBackLossIsUncounted | processor/service/src/voicesniffer_processor/event_reporter.py:345-368 | a put-back loses exactly as many events as batch and queue exceed the bound by, and what has been or will be reported as dropped stays the same |
| Events.NewestIsLostUncounted | processor/service/src/voicesniffer_processor/event_reporter.py:269-273 | the shortest run in which it happens: the older event is kept, the newest is gone, and no drop is counted |
| Events.RunKeepsInvariant | processor/service/src/voicesniffer_processor/event_reporter.py:196-368 | every interleaving of recording and flushes keeps order, bound, conservation and the drop count |
| Events.EveryEventIsAccountedFor | processor/service/src/voicesniffer_processor/event_reporter.py:196-368 | delivered, in flight and queued form one increasing sequence; each recorded event is queued, in flight or has exactly one fate; reported drops add up |
| Envelope.ReadFramesAreAPrefix | processor/service/src/voicesniffer_processor/protocol.py:47-70 | if the bytes read so far encode some frames, every decoding of the body starts with those frames |
| Envelope.DecodingIsUnique | processor/service/src/voicesniffer_processor/protocol.py:34-87 | a body is the encoding of at most one list of frames |
| Envelope.ReadFrame | processor/service/src/voicesniffer_processor/protocol.py:52-77 | one round of the loop: the frame at the offset with its samples, or the first thing wrong with it, checked in the source's order |
| Envelope.FaultIsFinal | processor/service/src/voicesniffer_processor/protocol.py:52-77 | nothing acceptable can begin with frames behind which a faulty one stands |
| Envelope.Parse | processor/service/src/voicesniffer_processor/protocol.py:34-87 | accepts exactly the bodies that encode frames within the limits, and returns those frames, their sample sum and the pre-roll; an error means that no frames within the limits encode the body, and names the first thing wrong with it |
| Trim.VoicedEnds | processor/runtime/src/voicesniffer_runtime/transcribers.py:240-251 | the first and last voiced frame, or none |
| Trim.GrownContains | processor/runtime/src/voicesniffer_runtime/transcribers.py:252-257 | growing and clamping loses nothing of the window and reaches the minimum exactly |
| Trim.KeptKeepsVoiced | processor/runtime/src/voicesniffer_runtime/transcribers.py:243-257 | the kept window contains every voiced frame, after growing too |
| Trim.KeptIsTrimmedTo | processor/runtime/src/voicesniffer_runtime/transcribers.py:243-257 | an end whose pad is off is left alone, the other begins the pad before the voiced frames unless the clip does, and a slice too short is grown to exactly the minimum, half of it before the head unless an end of the clip is in the way |
| Trim.TrimmedToOne | processor/runtime/src/voicesniffer_runtime/transcribers.py:243-257 | those conditions leave one window |
| Trim.TrimWindow | processor/runtime/src/voicesniffer_runtime/transcribers.py:226-260 | the window those conditions fix, or the clip itself in the cases named; in range, of at least the minimum length, with every voiced frame |
| Text.TokenIsAligned | processor/service/src/voicesniffer_processor/rules.py:486-489 | the running offset of a token is its true position |
| Text.AlignedIsToken | processor/service/src/voicesniffer_processor/rules.py:486-489 | every space-free stretch between spaces is a token at that offset |
| Text.SplitOfJoin | processor/service/src/voicesniffer_processor/rules.py:254-273 | splitting the joined tokens gives the tokens back |
| Fuzzy.RunsExpandBack | processor/service/src/voicesniffer_processor/rules.py:535-549 | the run encoding expands back to its input and is maximal |
| Fuzzy.MaximalRunsAreUnique | processor/service/src/voicesniffer_processor/rules.py:535-549 | it is the only maximal run encoding |
| Fuzzy.Runs | processor/service/src/voicesniffer_processor/rules.py:535-549 | the loop computes that encoding |
| Fuzzy.FuzzyTokenMatches | processor/service/src/voicesniffer_processor/rules.py:501-532 | true if and only if equal, or within the length guards with equal run counts, every run pair the same letter, two vowels or the digit for that vowel, and at most budget pairs different |
| Fuzzy.FuzzyMatchExactly | processor/service/src/voicesniffer_processor/rules.py:501-532 | what a pattern accepts besides itself, in numbers: four characters or more on both sides, at most six more in the token, as many runs, and at most one run changed, two from six characters on, in length, to another vowel or to the digit drawn like it |
| Fuzzy.HeldLetterIsAccepted | processor/service/src/voicesniffer_processor/rules.py:501-532 | any pattern of four or more characters with any one character held for up to six more is accepted |
| Matching.SpansOfTerm | processor/service/src/voicesniffer_processor/rules.py:312-320 | exactly the token-aligned occurrences of one term, overlapping ones too |
| Matching.AllowedSpans | processor/service/src/voicesniffer_processor/rules.py:307-321 | exactly the token-aligned occurrences of the allow terms |
| Matching.FirstPlace | processor/service/src/voicesniffer_processor/rules.py:454-474 | the first place that qualifies and lies in no allowed span, or proof that there is none |
| Matching.MatchRule | processor/service/src/voicesniffer_processor/rules.py:454-474 | an exact or contains rule fires if and only if some pattern has a qualifying place outside every allowed span, and reports the first such pattern |
| Matching.AnyPatternMatches | processor/service/src/voicesniffer_processor/rules.py:495-497 | some pattern accepts the token |
| Matching.MatchFuzzy | processor/service/src/voicesniffer_processor/rules.py:477-498 | a fuzzy rule fires if and only if some whole token outside every allowed span matches a pattern, and reports the first such token |
| Matching.AllowTermsOnlySuppress | processor/service/src/voicesniffer_processor/rules.py:324-327 | adding allow terms never makes a rule fire |
| Matching.ExactWantsWholeTokens | processor/service/src/voicesniffer_processor/rules.py:454-474 | where white space is the space alone an exact rule takes exactly the whole-token occurrences of its pattern, a contains rule every occurrence, both only outside the allowed spans |
| Matching.SuppressedExactly | processor/service/src/voicesniffer_processor/rules.py:307-330 | a stretch of text is suppressed exactly when an allow term stands as whole tokens around all of it |
| Matching.AllowTermSuppresses | processor/service/src/voicesniffer_processor/rules.py:307-327 | an allow term suppresses every occurrence of a pattern inside an aligned occurrence of it |
| Matching.HeldWordIsCaught | processor/service/src/voicesniffer_processor/rules.py:477-532 | a listed word with a letter held down fires the rule wherever it stands as a token outside the spans |
| Spelling.JoinSpelledOut | processor/service/src/voicesniffer_processor/rules.py:254-273 | the loop computes the pass |
| Spelling.JoinedKeepsCharacters | processor/service/src/voicesniffer_processor/rules.py:254-273 | the tokens joined hold the characters of the tokens given, in order |
| Spelling.NothingToJoin | processor/service/src/voicesniffer_processor/rules.py:259-272 | where no three single letters are neighbours the pass changes nothing |
| Spelling.DespellJoinsTheRuns | processor/service/src/voicesniffer_processor/rules.py:254-273 | the pass cuts the tokens into groups and joins each: every whole run of three or more single letters is one group, and every other token stays a token of its own |
| Spelling.DespellProperties | processor/service/src/voicesniffer_processor/rules.py:254-273 | keeps every non-space character in order, leaves no three neighbouring single letters, changes a text if and only if it has such neighbours, and is idempotent |
| Regexes.MatchRegex | processor/service/src/voicesniffer_processor/rules.py:443-453 | a regex rule hits if and only if some place found lies outside every allowed span with no time-out before it, reports the first such place, and times out exactly when the engine does so first |
| Regexes.AllowTermsOnlySuppressRegex | processor/service/src/voicesniffer_processor/rules.py:450-452 | adding allow terms never makes a regex rule fire |
| Verdicts.Evaluate | processor/service/src/voicesniffer_processor/rules.py:437-474 | one rule of any type: a hit if and only if it fires, with the text found; timed out exactly when the regex engine is |
| Verdicts.MatchText | processor/service/src/voicesniffer_processor/rules.py:193-236 | matches, severity, timed-out and skipped rules of one pass, for whatever moment the time budget runs out |
| Verdicts.SeverityExact | processor/service/src/voicesniffer_processor/rules.py:227-230 | the severity bounds every match that needs no context and is attained by one, or is 0 |
| Verdicts.MergeReportsEachRuleOnce | processor/service/src/voicesniffer_processor/rules.py:239-251 | the merged verdict keeps the first verdict's matches in front, loses no rule, reports none twice, and has the larger of the two severities |
| Verdicts.PassReportsWhatFires | processor/service/src/voicesniffer_processor/rules.py:193-225 | in a pass that skips nothing a rule, regex rules included, is reported if and only if it fires |
| Verdicts.PassSays | processor/service/src/voicesniffer_processor/rules.py:193-236 | a pass reports, in the order of the pack, one match for each rule reached that fires, with the rule's own id, category, severity and flag and the text found; the ids that timed out; and the ids of the rules not reached |
| Verdicts.Match | processor/service/src/voicesniffer_processor/rules.py:176-191 | the verdict of the passes made, one or two; with nothing skipped, exactly the rules that fire on the text or on its joined form |

## Left out

- Clocks, TTLs and time windows are reals: no rounding of floating point, and `math.ceil` of a float quotient is exact ceiling division.
- `heapq`, `OrderedDict`, `asyncio.Lock`, `asyncio.Semaphore` and `queue.Queue` are a sorted sequence, a sequence keyed by digest, a mutex, a counter of permits and a FIFO; their internals and their order of waking waiters are not modelled.
- Coalescing.RunKeepsInvariant: the shielded cache task is not itself cancelled; a cancellation that arrives while a section waits for the lock is not modelled.
- BatchWorker.WholeRunSettlement: a caller that passes the closed check and puts its request after the worker's final drain ended, and a caller's own timeout, are outside; callers and `close` may put requests and any number of sentinels at any moment, which the closed flag would only restrict.
- MicroBatchers.MicroBatcher.Run: the other threads are reduced to the sequence of answers that the worker's polls get, and the window's deadline to a poll that finds nothing.
- Transcription.Batch: the recognizers are pointwise functions of a clip that answer position by position; sherpa-onnx itself is not part of this model.
- CredentialResolver.RunKeepsInvariant: the lookup on the executor is one answer, outage or cancellation; its HTTP exchange and the parsing of its body are not part of this model.
- ProcessingSlots.RunKeepsConserved: the operation that a worker runs is only its end; what it computes is not part of this model.
- Events.RunKeepsInvariant: one flush at a time, not cancelled; the backoff delay, the payload and the log lines are left out.
- Regexes.MatchRegex: what the regex engine finds, in which order, and when it times out, is given; a single search is taken to find the first match that iterating would.
- Verdicts.Match: NFKC normalisation and case folding are left out; the text is any string, and single spacing is not needed. White space, letters and base letters are arbitrary tables.
- Verdicts.MatchText: the time budget is the number of rules reached before it runs out.
- Envelope.Parse: the packet inspector is an arbitrary function to samples, channels or an error, and the pre-roll header is already an integer.
- Trim.TrimWindow: frame energies, the percentile and the ratio test are given as one flag per frame; `normalize_level` is left out.
- RateLimit.RateLimitWindows.WaitFor: a limit below one cannot pass the credential checks and is not modelled.
- HTTP handlers, header checks, settings, rule-pack and catalogue loading, model downloads, logging, traces and the usage reporter: plumbing and easy counters around these state machines.
