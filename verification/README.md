# Donkey, modelled in Dafny

Donkey is a pull-through OCI registry proxy. It streams blobs from several upstream nodes to clients and
into a cache at the same time, and it runs image jobs (exports, copies and scheduled syncs) from a shared
database. This project models the parts of it whose correctness spans many steps and proves what they
promise over every run and every input.

| files | what they model |
|---|---|
| `JobTables`, `JobRuns`, `JobGuarantees`, `JobEffects`, `RuleSchedule` | the image-job tables, every SQL statement as one atomic step with its effect on every column, and all interleavings of workers, recovery, users and the scheduler |
| `JobDatabase`, `JobService` | the database functions as methods that update the tables step by step, with other tasks running between their statements, and their place in runs |
| `Wire`, `Chunking`, `Failover`, `Downloads` | responses as status, range label and body pieces; asking one node after another; the download paths over one partial directory |
| `Relay`, `BlobService` | the streaming relay to client, hasher and partial file, and histories of requests |
| `Cache` | admission and watermark-driven eviction with concurrent removals and leases |
| `NodeBudget`, `MemoryBudget` | connection permits and two-level byte reservations, at the granularity of single semaphore and counter steps |
| `Metrics`, `Percentiles`, `SpeedWindows` | ring buffers and histograms against the plain logs they summarise |
| `ChunkSizes`, `Planner`, `Scheduling` | chunk arithmetic with saturation, the download planner, node ordering |
| `Routing`, `ImageCopy` | registry path resolution; copying an image to another registry |
| `Collections` | machine-integer limits, sums, slices, a stable sort |

Conventions. A function of the inputs (`Exec`, `Next`, `Plan`, `Resolve`, ...) says what one step or one
call computes; classes and loops follow the code that updates things in place and are proved against it.
Upstream behaviour, clocks, hashes, logarithms and the statements of other tasks are parameters, so every
theorem holds for all of them. `Honest` responses are correctly labelled but may end at any byte
(sections 14.4 and 15.3.7 of RFC 9110); the integrity results do without that assumption. Floating-point
numbers are reals.

## Where the code does less than it seems to promise

Each of these has a concrete counterexample and an exact condition.

- Attempt tokens are described as monotonic (`src/image_tools.rs:604-606`). They restart at 1 after a finish,
  which deletes the owner row, so the token alone does not fence
  (`JobGuarantees.TokensRestartAfterFinish`). The next token is larger exactly when the owner row is still
  there and not saturated, which the claimer reads (`NextTokenGrowsExactly`, and `TokensGrowExactly` over
  histories). What fences is that a worker drops one claim before the next; with that,
  `JobGuarantees.Fencing` holds over every run.
- Slots of a rule increase strictly only while rule edits are fresh. An edit computes the next slot and
  writes it later (`src/image_tools.rs:1969-1994`); a stale one lets an earlier slot be enqueued after a
  later one (`RuleSchedule.StaleEditReordersSlots`). `RuleSchedule.EditIsSafeExactlyWhenFresh` gives the
  condition, and `RuleSchedule.FreshByRows` says which lineage rows an editor would have to compare.
- A slot yields at most one job whatever edits do, stale ones included, because the job holds the slot's
  idempotency key; but a clean-up of the job's storage drops the key (`src/image_tools.rs:1472-1491`). Over
  every run a slot enqueued twice had its first job cleaned up in between (`RuleSchedule.OneJobPerSlot`),
  and the clean-up is both needed and enough (`RuleSchedule.SecondJobExactlyAfterCleanUp`, with the run
  `RuleSchedule.SlotEnqueuedTwice`).
- A 206 without a window (unlabelled, or with a declared length that does not match its range) is relayed as
  a body of unknown length, from the start of the partial file. If that is interrupted, the file left behind
  is a prefix of the blob exactly when the range starts at byte 0 or the body is empty
  (`BlobService.WindowlessPartial`); `BlobService.StrayPartial` is a case where it is not.
- An admission that evicts nothing stays within the high watermark, except exactly when no bytes were
  indexed before and the new object alone exceeds the watermark (`Cache.CacheStore.Admit`, with the case
  `Cache.FirstObjectAboveHighWatermark`). It never exceeds the maximum.
- The scheduler rounds a chunk size up by a saturating addition, the planner by `div_ceil`. They agree
  except on exactly the inputs of `ChunkSizes.SaturationShows` (`ChunkSizes.ChunkSizesAgree`,
  `ChunkSizes.ChunkSizesDiffer`), all of which need more than 2^39 concurrent chunks.
- The chunk list is computed with unchecked 64-bit additions (`src/scheduler.rs:1497`). All chunk ends come
  out right exactly when the object, rounded up to whole chunks, stays within 2^64; otherwise the last one
  wraps to before its start (`Chunking.EndsFitExactly`, with the case `Chunking.EndsCanWrap`).
- Planned concurrency times chunk size fits a stream's 64 MiB exactly when one chunk does, but the relay
  also holds a 1 MiB reservation of the same budget. All planned chunks fit beside it exactly when all
  desired ones would or the division into chunks leaves 1 MiB over
  (`ChunkSizes.PlannedChunksBesideSequential`, with the case `ChunkSizes.EightChunksCrowdTheBudget`); one
  chunk of a parallel read always does.
- Resolving a registry path twice is not idempotent if `library/` was just added and a route uses
  `library` as its prefix (`Routing.ResolvingTwice`, `Routing.LibraryPrefixGoesAstray`); otherwise it is.

## Model

| member | source | states |
|---|---|---|
| JobTables.ExecKeepsRecords | src/image_tools.rs:332-379 | every statement keeps what a row's columns say about its status: pending without lease, start, finish or cancel flag; running with lease, start and owner row; terminal finished, without lease, cancel flag exactly on cancelled |
| JobTables.ExecStatus | src/image_tools.rs:316-329 | every status change of every statement is in the transition table, or is recovery of an abandoned job |
| JobTables.ExecKeepsCancel | src/image_tools.rs:607-644 | no statement other than a retry of that job undoes a cancel that stands |
| JobTables.ExecKeepsLinks | src/db.rs:1401-1421 | owner and lineage rows always refer to existing jobs, and no two jobs share an idempotency key |
| JobRuns.StepKeepsInv | src/db.rs:1316-1642 | every step of any worker, recovery pass, user or scheduler keeps the whole protocol invariant |
| JobRuns.RunKeepsInv | src/db.rs:1316-1642 | so does every run |
| JobGuarantees.OwnershipIsLatestClaim | src/db.rs:1316-1371 | in every reachable state the ownership test of a guarded statement holds if and only if the job is running and the worker made its latest claim |
| JobGuarantees.Fencing | src/db.rs:1501-1642 | after any run a guarded write takes effect exactly when its worker made the latest claim and the job is running, and changes nothing otherwise; a finish takes effect exactly when also the cancel flag is unchanged, and then ends the job, drops the owner row and hands the digest on |
| JobGuarantees.TakeoverIsFinal | src/db.rs:1316-1371 | once a later claim of the job exists, no holder of the old claim passes the ownership test in any continuation |
| JobGuarantees.AttemptsIncreaseBetweenFinishes | src/db.rs:1329-1338 | of any two claims of a job with no finish between them in any run, the later has the larger token, up to saturation |
| JobGuarantees.TokensGrowExactly | src/db.rs:1329-1338 | of two consecutive claims of a job in any run the later has the larger token if and only if no finish came between them and the counter was not saturated |
| JobGuarantees.NextTokenGrowsExactly | src/db.rs:1329-1338 | in every reachable state the next token outranks the last if and only if the owner row is there and not saturated |
| JobGuarantees.TokensRestartAfterFinish | src/db.rs:1485-1495 | a run exists in which the second claim of a job gets the token of the first, and the first token passes the test again |
| JobGuarantees.CancelIsNeverLost | src/image_tools.rs:1810-1855 | after an acknowledged cancel, in every later state up to a user retry the job is cancelled or running with its flag up |
| JobGuarantees.LiveLeaseIsNotStolen | src/image_tools.rs:607-644 | while a lease lies in the future only a finish by the maker of the latest claim can end the job's running status |
| JobGuarantees.LiveLeaseKeepsRunning | src/db.rs:1501-1524 | over every run in which the lease stays live and the owner does not finish, the job keeps running |
| JobGuarantees.StatusFollowsTable | src/image_tools.rs:316-329 | every step of every run changes a status only as the transition table allows, except recovery of an abandoned job |
| JobGuarantees.CompletedIsAbsorbing | src/image_tools.rs:316-329 | a completed job stays completed over every run |
| JobGuarantees.JobRecords | src/image_tools.rs:332-379 | the record invariant of every job in every reachable state |
| JobEffects.WriteColumns | src/db.rs:1501-1642 | which columns each of the five guarded writes sets (lease, stage, progress, total, digests, artifact), and that every other column, row and table is kept |
| JobEffects.WriteExtendsLease | src/db.rs:1501-1524 | after any run a renewal, progress or stage write by the maker of the latest claim of a running job leaves its lease live if and only if the lease written lies in the future |
| JobEffects.ClaimColumns | src/db.rs:1316-1371 | the columns a claim sets and keeps, and that it changes no other row |
| JobEffects.ClaimStartsLive | src/db.rs:1316-1371 | a claim starts with a live lease exactly if its lease has not run out by the time it lands |
| JobEffects.FinishColumns | src/db.rs:1447-1499 | the columns a finish sets and keeps, and that only its own owner row goes |
| JobEffects.DigestHandedOnExactly | src/db.rs:1470-1484 | a finish hands the digest of its job to a rule if and only if it takes effect as a completion and the rule is in the job's lineage |
| JobEffects.RecoverCancelledRow | src/image_tools.rs:607-625 | the first recovery update cancels exactly the abandoned rows whose flag is up |
| JobEffects.RecoverPendingRow | src/image_tools.rs:626-642 | the second recovery update requeues exactly the abandoned rows whose flag is down, keeping digests and progress |
| JobEffects.RecoveryLeavesNoneAbandoned | src/image_tools.rs:607-644 | after an undisturbed recovery pass no job is abandoned: each abandoned one is cancelled if its flag was up and pending otherwise, and no other row changes |
| JobEffects.RecoveredIsClaimable | src/db.rs:1316-1371 | a job requeued by recovery can be claimed by any worker, and the new claim outranks the abandoned one |
| JobEffects.CancelColumns | src/image_tools.rs:1815-1843 | what a cancel writes to a pending and to a running job, and that it writes nothing otherwise |
| JobEffects.RetryColumns | src/image_tools.rs:1857-1890 | a retry queues the job again without progress, lease, times, error or flag, and keeps what was found out |
| JobEffects.ClearColumns | src/image_tools.rs:1472-1491 | a clean-up drops artifact and key and nothing else |
| JobEffects.TickExactly | src/image_tools.rs:1298-1372 | a due slot with a free key gets one new queued job with that key and a lineage row, one with a taken key none; either way the rule moves on; a slot that is not due changes nothing |
| JobEffects.ManualRunExactly | src/image_tools.rs:1298-1372 | a manual run inserts a job without a key and leaves the schedule alone |
| RuleSchedule.SlotsIncreaseOverRuns | src/image_tools.rs:1298-1372 | over every run with fresh edits the slots enqueued for a rule strictly increase |
| RuleSchedule.OneJobPerSlot | src/image_tools.rs:1336-1352 | over every run, stale edits included, if a slot of a rule was enqueued twice then the first job was cleaned up between the two |
| RuleSchedule.SecondJobExactlyAfterCleanUp | src/image_tools.rs:1472-1491 | from every reachable state, for a slot whose job holds its key, no continuation without a clean-up of that job enqueues the slot again, and some continuation with one does |
| RuleSchedule.SlotEnqueuedTwice | src/image_tools.rs:1472-1491 | a concrete run with two jobs for one slot |
| RuleSchedule.EditIsSafeExactlyWhenFresh | src/image_tools.rs:1969-1994 | after an edit the slots stay increasing in every continuation if and only if the edit was fresh |
| RuleSchedule.FreshByRows | src/image_tools.rs:1969-1994 | in every reachable state an edit is fresh if and only if it disables the rule or its slot lies after every scheduled lineage row of the rule; a slot in the future always does |
| RuleSchedule.StaleEditReordersSlots | src/image_tools.rs:1969-1994 | a run with a stale edit enqueues a slot after a later one |
| RuleSchedule.Replay | src/image_tools.rs:1298-1372 | from any state with an edited rule a clean-up, a wait and a tick enqueue the edited slot |
| RuleSchedule.DigestComesFromOwnJob | src/db.rs:1470-1484 | a rule's last digest changes only by completion of a job of that rule, to the digest this job resolved |
| JobDatabase.FinishTarget | src/image_tools.rs:563-602 | a finish asks for a terminal status: cancelled exactly when the flag was up, otherwise completed, skipped or failed as the job ended, with the error exactly when failed |
| JobDatabase.Database.ClaimImageJob | src/db.rs:1316-1371 | a claim succeeds exactly on a pending job, and then the returned attempt owns it |
| JobDatabase.Database.UpdateOwned | src/db.rs:1501-1642 | the five guarded writes change one row exactly when the caller owns the job; a lease-carrying write then leaves exactly its lease in the row |
| JobDatabase.Database.FinishImageJobOwned | src/db.rs:1447-1499 | a finish writes job, rule and owner rows in one transaction, exactly when owned and the flag is as read |
| JobDatabase.Database.FinishJob | src/image_tools.rs:563-602 | the tables after each access, for every interleaving: the reply and the write follow from ownership at the start, the flag at the read and the row at the write, and a cancel landing in between survives |
| JobDatabase.Database.RecoverAbandonedJobs | src/image_tools.rs:607-644 | exactly the two bulk updates with other statements around them, run if and only if some job looked abandoned; a cancel that stands between them survives; after an undisturbed pass no job is abandoned, and after any pass only a job whose flag went up between the updates is |
| JobDatabase.Database.TryCancel | src/image_tools.rs:1815-1843 | one conditional update, which changes the row exactly when the status is still as read, and then the cancel stands |
| JobDatabase.Database.CancelRound | src/image_tools.rs:1815-1854 | one round: the update, and if it missed a re-read; acknowledged whenever the status is still as read at the update |
| JobDatabase.Database.CancelJobFromStatus | src/image_tools.rs:1810-1855 | what it does, round by round: one cancel statement each among the statements of others; success means the cancel stands because its last update hit or its last re-read saw the flag, refusal that a terminal status was read, not found that there is no row; an undisturbed cancellable job is acknowledged at once, and no answer after any number of rounds takes another task writing before every update |
| JobDatabase.Database.RetryJob | src/image_tools.rs:1857-1890 | a retry takes effect exactly when the status read allows it and is still the same at the write |
| JobService.FinishInRun | src/image_tools.rs:563-602 | a finish by a holder in any reachable state, with allowed steps of others in its gaps, is a continuation of the run, and succeeds only for the latest claim of a running job |
| JobService.CancelInRun | src/image_tools.rs:1810-1855 | a successful cancel, with any steps of others in its gaps, is acknowledged in the run's history, and so is never lost up to a user retry |
| JobService.TablesAfter | src/db.rs:1316-1642 | the tables after a run are those after its statements |
| JobDatabase.Database.CreateRuleJob | src/image_tools.rs:1298-1372 | a job and its lineage are inserted exactly when the slot is due and its key free; the slot advances whenever it was due |
| Wire.WriteBody | src/scheduler.rs:1426-1491 | a dropped writer leaves the old content plus exactly the bytes written so far, a broken body all of it; success, with all of the body, exactly when it ends cleanly, in time and with the expected length; dropped exactly when its time ends within pieces that are not too long; a failure is a transport error exactly when the body breaks off without being too long |
| Chunking.SplitChunks | src/scheduler.rs:1493-1507 | whenever all ends can be computed in 64 bits, the chunk list tiles the object in order, with full chunks except perhaps the last, and has the rounded-up quotient of chunks |
| Chunking.EndsFitExactly | src/scheduler.rs:1493-1507 | all wrapping chunk ends are right if and only if the object rounded up to whole chunks stays within 2^64; otherwise the last end falls before its start |
| Chunking.EndsCanWrap | src/scheduler.rs:1493-1507 | a concrete object and chunk size whose second chunk end wraps to 1 |
| Chunking.SplitLength | src/blob_planner.rs:153-154 | every tiling at the planned size has the planned number of chunks |
| Chunking.TilesCoverOnce | src/scheduler.rs:1493-1507 | every byte lies in exactly one chunk |
| Failover.CourseExactly | src/scheduler.rs:1088-1217 | asking one node after another succeeds if and only if some node suffices for the file it meets and none before it is dropped, is dropped if and only if some node is and none before it suffices, and fails if and only if every node does neither |
| Failover.CourseUnique | src/scheduler.rs:1088-1217 | file, outcome and the number of nodes asked follow from the nodes and the file at the start |
| Failover.WholeFailsExactly | src/scheduler.rs:1194-1216 | a whole download fails exactly when no node can finish the file it meets and none is dropped; without a known size, only when no node supplies the object |
| Failover.SufficesExactly | src/scheduler.rs:1121-1186 | what suffices: for a whole download, the exact rest of a shorter file or else the whole; for a resumption, the exact rest; for a chunk, the exact rest with its length declared; or nothing is missing |
| Failover.NothingInDoubt | src/scheduler.rs:1194-1208 | a failed node leaves no file after an integrity failure, and otherwise the file as it was or with all the bytes of a body that broke off |
| Failover.FilesGrow | src/scheduler.rs:1194-1208 | as long as failures are transport errors the file only grows from node to node |
| Failover.CourseFits | src/scheduler.rs:619-745 | with honest nodes cut anywhere, however the attempts end, the file stays a prefix of its target; a resumption or chunk that succeeds is exactly its target |
| Downloads.PartialDir.DownloadResume | src/scheduler.rs:619-745 | node after node until one completes the file it meets; it fails only after every node failed; with honest nodes cut anywhere, the partial file stays a prefix of the blob, and success leaves exactly the blob |
| Downloads.PartialDir.DownloadWhole | src/scheduler.rs:1088-1217 | node after node until one can finish, each continuing the file the one before it left; it fails only after every node failed, without a known size only if no node supplies the object; the partial file stays a prefix through resumption, restarts and failover |
| Downloads.WholeAttempt | src/scheduler.rs:1121-1186 | one node's turn: it succeeds exactly when it continues the file with the exact missing range, or supplies the whole; otherwise the reason and the file it leaves are exact |
| Downloads.RestAttempt | src/scheduler.rs:676-716 | one node's turn in a resumption: it succeeds exactly when it delivers the exact rest; otherwise the reason and the file it leaves are exact |
| Downloads.DownloadChunk | src/scheduler.rs:967-1086 | node after node until one fills the part; it fails only after every node failed; the part file stays a prefix of exactly the range in its name, and success means the whole range |
| Downloads.ChunkAttempt | src/scheduler.rs:967-1086 | one node's turn: it succeeds exactly when the part is full already or the node supplies exactly the rest of it; otherwise the reason and the part it leaves are exact |
| Downloads.FetchPart | src/scheduler.rs:967-1086 | one chunk's turn changes no other part file, and ends as the part and the chunk's nodes say |
| Downloads.FetchParts | src/scheduler.rs:906-965 | all part files stay prefixes of the ranges in their names for every chunk layout and completion order; the first turn of each chunk ends as its part file and nodes say, one dropped chunk drops all, and otherwise the first error is the result; success means every chunk run is done; parts of objects of another size are untouched |
| Downloads.MergeParts | src/scheduler.rs:906-965 | merging by index succeeds exactly when every part is done and the merge is not dropped, and gives the blob |
| Downloads.PartialDir.DownloadParallel | src/scheduler.rs:906-965 | parts left by other layouts stay sound, and success leaves exactly the blob; when each chunk is run once, it fails only for a chunk all of whose nodes failed or one that was not run, and is dropped only if a chunk or the merge is |
| Downloads.ParallelOkExactly | src/scheduler.rs:906-965 | parallel chunks succeed if and only if every chunk is run and ends well and the merge is not dropped |
| Downloads.FetchAndMerge | src/scheduler.rs:906-965 | fetching and merging together: soundness, exactness on success, and when it succeeds |
| Downloads.PartialDir.RecoverVerifiedBlob | src/scheduler.rs:1219-1270 | node after node, each from an empty file after the first, until a file hashes to the digest; it fails only after no node gave such a file; a file that does not is removed |
| Downloads.PartialDir.FetchUncached | src/scheduler.rs:498-616 | whatever nodes send, an object is admitted under a digest only if it is the SHA-256 of its bytes, through parallel, fallback and recovery branches; with honest nodes the directory stays sound and what is admitted is the blob's bytes; every result has its reason: the course of the transfer, whether its file is good, the recovery of a bad one, and the cache |
| Downloads.PartialDir.Settle | src/scheduler.rs:561-616 | a good file is admitted unless the cache refuses it; a bad one is recovered from other nodes if there is a digest and another node, and refused otherwise |
| Downloads.AnyNodeIsEnough | src/scheduler.rs:498-616 | without parallel ranges one node is enough wherever it stands: if the first node that suffices gives a good file and none before it is dropped, that file is admitted |
| Downloads.VerifiesExactly | src/scheduler.rs:1509-1529 | a file verifies exactly if the digest is well formed and names the hash of its bytes |
| Downloads.PartialDir.Transfer | src/scheduler.rs:498-560 | a parallel transfer that fails is followed by a whole download from an empty file, any other takes the one path that the plan and the partial file choose, and both end as the nodes say; the directory stays sound |
| Relay.StreamWindowExactly | src/registry.rs:722-754 | a response offers a window if and only if it is the labelled range of a 206 whose declared length agrees, or the whole of another success of positive declared length |
| Relay.Emit | src/registry.rs:970-998 | a chunk goes through exactly when process and client stay; then hasher, file and client stay equal, to the blob if the chunk is its next bytes; a cut leaves the client no more than the file |
| Relay.Replay | src/registry.rs:875-896 | replaying a saved file brings client and hasher level with it, if the client stays |
| Relay.RelayChunk | src/registry.rs:970-998 | an empty piece changes nothing, a piece that passes the window is refused, any other is emitted |
| Relay.ResumeResponse | src/registry.rs:1091-1217 | the first response offered for exactly the missing range resumes, and none if none is |
| Relay.RelayBody | src/registry.rs:957-1004 | one body moves file and client by exactly its bytes, never past the window, and is drained whenever it fits and both ends stay; honest bytes keep them equal to the blob |
| Relay.FetchParallelChunk | src/registry.rs:1318-1465 | a parallel range is delivered with exactly the bytes of the first attempt that answers it, and exactly when some attempt does |
| Relay.RelayParallelRanges | src/registry.rs:1258-1316 | parallel ranges, delivered in order, reach the end of the window with exactly the blob's bytes; it fails only if the client leaves, or if after some whole ranges delivered exactly the next one goes unanswered |
| Relay.RelaySequential | src/registry.rs:950-1061 | every body but the first is the first one offered for exactly what is missing; it ends only when the window is full, a body passes the window, client or process leave, four bodies in a row are empty, or nothing offered continues; against any upstream at most four bodies are consumed per missing byte; client, file and hasher hold the blob from the window start to the offset |
| Relay.RelayLeg | src/registry.rs:950-1061 | one turn of the loop: a body that falls short is followed by the next response offered, unless the relay ends for a justified reason |
| Relay.AfterBody | src/registry.rs:1005-1061 | after a body relayed in full the relay is finished, gives up after four empty bodies or for want of an exact offer, or goes on with the first exact offer |
| Relay.CoveringBodySuffices | src/registry.rs:950-1061 | one body that covers the rest, with both ends staying for it, is the only one and finishes the relay |
| Relay.RelayRange | src/registry.rs:1258-1316 | one range is fetched and delivered, unless nobody answers it or one end leaves |
| BlobService.RelayStreamBlob | src/registry.rs:812-1078 | the relay reaches the end of its window unless the client or the process leaves, nothing continues a replay, the sequential relay ends for a justified reason, or a parallel range goes unanswered; then it fails only for a wrong digest or a cache that refuses; the client gets only bytes of its window, and exactly the window on success; the partial file stays a prefix wherever the relay is cut; an object is admitted only under the digest of its bytes |
| BlobService.RelayUnknownBlob | src/registry.rs:540-646 | a relay without a window leaves exactly the bytes it wrote if it is dropped and nothing otherwise, and admits the body exactly when it ended cleanly under the digest and the cache takes it; then the part files go too |
| BlobService.WindowlessPartial | src/registry.rs:722-754 | for every 206 without a window, the file the relay leaves is a prefix of every blob the response is honest for, wherever it is dropped, if and only if the response starts at byte 0 or is empty, or fits no blob |
| BlobService.PossibleExactly | src/registry.rs:722-754 | a 206 fits some blob exactly when its label is a range and its body no longer than it |
| BlobService.StrayPartial | src/registry.rs:540-646 | a concrete response whose dropped relay leaves a file that is no prefix of the blob |
| BlobService.Serve | src/scheduler.rs:535-582 | over every history of fetches, streams and relays without a window that carry the blob from its start, cut anywhere, all files stay prefixes of what they are for |
| Cache.WatermarksOrdered | src/cache.rs:418-436 | low watermark, high watermark and maximum are ordered for every valid configuration |
| Cache.FirstRows | src/db.rs:1173-1186 | the query yields distinct rows, in order, none of the others before them |
| Cache.LruByAge | src/cache.rs:476-487 | under LRU the score orders entries exactly by age in whole seconds, so the entry used less recently never scores more |
| Cache.LfuByHitsThenAge | src/cache.rs:476-487 | under LFU entries of one age score exactly by hits, and entries of equal hits exactly by age |
| Cache.BalancedByEach | src/cache.rs:476-487 | under the balanced policy, the rest being equal, the younger, the more used and the smaller entry scores more |
| Cache.Tradeoffs | src/cache.rs:476-487 | what hits, age and size are worth against each other |
| Cache.FractionExactly | src/cache.rs:418-436 | a watermark is the largest whole byte count within its share of the maximum |
| Cache.LruEvictsOldest | src/cache.rs:437-472 | under LRU whatever a pass removes is at least as old, in whole seconds, as every row of the index that the pass did not look at |
| Cache.LowestGo | src/cache.rs:437-472 | whatever a pass removes scores no more than any row of its batch that it did not look at |
| Cache.CacheStore.EvictionCandidates | src/db.rs:1173-1186 | the first 512 rows: every other row was used at least as recently, or under LFU has more hits, or as many and was used at least as recently |
| Cache.CacheStore.Aggregate | src/db.rs:1147-1160 | the sum of all non-negative sizes, refused beyond a signed 64-bit integer |
| Cache.CacheStore.Consider | src/cache.rs:451-456 | an entry is passed over exactly when it is the admitted key or leased at that moment; a removed one is gone |
| Cache.CacheStore.EvictBatch | src/cache.rs:437-472 | a pass removes, in batch order, exactly the entries that are neither the admitted key nor leased when looked at, and stops at the first that meets the need or has an invalid key |
| Cache.CacheStore.EvictRound | src/cache.rs:437-472 | each pass runs over the first 512 rows of the query, sorted by retention; under LRU every entry removed is at least as old as every row of the index it did not look at; without the last one removed it would have freed too little; it shrinks the index if it chose anything |
| Cache.CacheStore.ReserveCapacity | src/cache.rs:418-473 | without eviction the index is unchanged and the high watermark exceeded exactly when no bytes were indexed and the object alone exceeds it; with eviction the larger of low watermark and object holds, and without the last victim too little would be free; full only when a whole batch was leased or the admitted key; the admitted key's own row stays |
| Cache.CacheStore.EvictUntil | src/cache.rs:437-473 | the loop over batches ends; it evicts enough and no entry more, or a whole batch may not go, or a key is invalid; other tasks run before and during every round |
| Cache.CacheStore.Admit | src/cache.rs:239-282 | after every success the indexed bytes never exceed the maximum, nor the larger of low watermark and object if anything was evicted; if nothing was, they exceed the high watermark if and only if no bytes were indexed before and the object alone exceeds it; the new row has the size and time of the admission, and no hits unless it was known, whose hits are kept; no other row is added or resized |
| Cache.FirstObjectAboveHighWatermark | src/cache.rs:418-436 | a concrete admission that evicts nothing and exceeds the high watermark |
| NodeBudget.PermitsAccountedFor | src/resource_budget.rs:39-106 | over every interleaving request permits plus node counters plus threads between paired steps make 64, and at most 8 probes are out |
| NodeBudget.CountersAreExact | src/resource_budget.rs:39-106 | the saturating decrement never clips, and a lease is granted exactly below the node's limit |
| NodeBudget.DroppingAllRestores | src/resource_budget.rs:99-106 | when everything is dropped the budget is as it began |
| NodeBudget.NodeCapacity.CheckCounter | src/resource_budget.rs:39-52 | the counter check is the step of the model, and reports a lease exactly when it counted one |
| NodeBudget.NodeCapacity.TryAcquire | src/resource_budget.rs:39-52 | with any steps of other threads between its own, a lease is granted exactly when a permit is free at the start and the node below its limit at the check, and nothing but its own steps is done |
| MemoryBudget.BytesConserved | src/resource_budget.rs:119-150 | over every run global bytes available and reserved make 256 MiB and each stream's make 64 MiB, half-acquired and half-returned reservations included |
| MemoryBudget.HeldUntilLastRef | src/resource_budget.rs:153-185 | a reservation stays fully held while a handle or frame is left, and the last drop gives back its local and then its global bytes |
| MemoryBudget.StreamMemory.PollAcquire | src/resource_budget.rs:127-150 | an acquisition is granted if and only if its bytes fit the stream's budget and what is left of it, unless taken before, and what is left of all; it takes local, then global bytes, and keeps the local ones while waiting |
| MemoryBudget.StreamMemory.DropHandle | src/resource_budget.rs:153-185 | only the last handle returns bytes, local before global |
| Metrics.TransferMetrics.Record | src/transfer_metrics.rs:213-230 | ring and lifetime totals agree with the log after every event, a slot being reset when its generation is new |
| Metrics.TransferMetrics.SnapshotWindow | src/transfer_metrics.rs:232-247 | every counter of the window view counts exactly its own events of the last 60 generations, or adds up their bytes, and every bucket its histogram's samples within its bounds, saturated; GETs are hits plus misses |
| Metrics.CountersReport | src/transfer_metrics.rs:137-185 | each of the twelve counters counts one kind of event, or adds up the bytes it carries, and nothing else |
| Metrics.BucketReports | src/transfer_metrics.rs:349-356 | a bucket counts exactly the samples of its histogram above the bound before it and not above its own |
| Percentiles.Rank | src/transfer_metrics.rs:484-488 | a quantile's rank is the rounded-up share and always names a sample |
| Percentiles.Percentile | src/transfer_metrics.rs:484-497 | the walk over cumulative counts returns the bound of the bucket that holds the sample of that rank in sorted order |
| Percentiles.LogSumCounts | src/transfer_metrics.rs:219-223 | a histogram's buckets count exactly its own samples |
| Percentiles.WindowPercentile | src/transfer_metrics.rs:364-379 | a window percentile is the bucket bound of the exact order statistic of the latencies logged in the last 60 generations |
| SpeedWindows.SpeedWindow.Record | src/node_selection.rs:48-54 | the queue is exactly the last eight observations no older than 60 seconds |
| SpeedWindows.SpeedWindow.Estimate | src/node_selection.rs:56-78 | an estimate exists exactly when an observation counts; it averages all but perhaps one outlier and lies between the slowest and the fastest |
| SpeedWindows.TrimmedBelowOutlier | src/node_selection.rs:67-76 | a speed is dropped only from five or more, above four times a positive median, and no kept speed exceeds it |
| ChunkSizes.ChunkSizesAgree | src/scheduler.rs:1300-1320 | scheduler and planner choose the same chunk size for all 64-bit sizes and concurrencies if and only if saturation does not show |
| ChunkSizes.ChunkSizesDiffer | src/scheduler.rs:1300-1320 | 4 MiB against 5 MiB on a concrete input |
| ChunkSizes.ChunkSizesAgreeInPractice | src/scheduler.rs:1300-1338 | they agree for every size up to 2^39 concurrent chunks |
| ChunkSizes.PlannerChunkSizeIsLeast | src/blob_planner.rs:184-192 | the chunk size is the least whole number of MiB that needs at most four chunks per connection, within its bounds |
| ChunkSizes.ConcurrencyFitsBudget | src/scheduler.rs:1322-1329 | planned concurrency times chunk size fits 64 MiB exactly when one chunk does, and no more would fit |
| ChunkSizes.PlannedChunksBesideSequential | src/registry.rs:272-281 | all planned chunks fit beside the sequential reservation if and only if all desired ones would or the budget divided into chunks leaves 1 MiB over; one chunk of a parallel read always fits |
| ChunkSizes.EightChunksCrowdTheBudget | src/scheduler.rs:1322-1329 | with eight chunks of 8 MiB they do not |
| Planner.Quickest | src/blob_planner.rs:130-134 | the first node that no other beats in estimated time |
| Planner.EstimateGrows | src/blob_planner.rs:203-210 | more bytes, a further or a slower node never shorten the estimate |
| Planner.EstimateExactly | src/blob_planner.rs:203-210 | a node that moves the bytes in a second takes its latency and a second; an unknown one moves 10 MiB in a second |
| Planner.ActiveIsBest | src/blob_planner.rs:226-236 | sorting and truncating picks the largest aggregate throughput over all choices of that many range sources |
| Planner.WorstIsSome | src/blob_planner.rs:240-250 | every wave waits as long as the slowest source kept busy |
| Planner.WavesExactly | src/blob_planner.rs:249-250 | the waves are as few as cover all chunks |
| Planner.WavesGrow | src/blob_planner.rs:249-250 | larger blobs never need fewer waves |
| Planner.MovingExactly | src/blob_planner.rs:250 | the rest of the parallel estimate moves the bytes at the aggregate speed |
| Planner.OneChunkIsOneRequest | src/blob_planner.rs:212-252 | for a single source and a single chunk the parallel estimate is that of one whole request |
| Planner.SingleGoesToQuickest | src/blob_planner.rs:101-181 | a whole request goes to a usable node that no usable node beats |
| Planner.ChunkedIsExecutable | src/blob_planner.rs:135-181 | a chunked plan's concurrency, chunk size and count are what the range sources, the bounds and the split allow |
| Planner.PlanExactly | src/blob_planner.rs:101-252 | which inputs fail and how; otherwise ranges are used if and only if they are in play and measurements may be missing by configuration, or the only range source is the quickest node, or all range sources are measured and the parallel estimate beats a whole request to every usable node by the configured factor |
| Scheduling.PromoteKeepsTail | src/scheduling.rs:87-88 | one promotion disturbs one place: the tail stays sorted and the leader moves by at most one |
| Scheduling.BetterNodesHaveCapacity | src/scheduling.rs:176-180 | a node no slower, no less reliable and no more loaded has no less effective capacity |
| Scheduling.CapacityIdleAndFull | src/scheduling.rs:176-180 | the effective capacity is the node's own when idle and reliable, and half of what is trusted when full |
| Scheduling.TransferAtCapacity | src/scheduling.rs:162-174 | the projected cost moves the bytes at the effective capacity |
| Scheduling.BetterNodesCostLess | src/scheduling.rs:162-174 | a node no worse and no further away costs no more, and smaller requests cost no more |
| Scheduling.BetterNodesScoreBetter | src/scheduling.rs:70-86 | a node no worse, with no smaller hash, has no larger rendezvous score |
| Scheduling.LargestIsSome | src/scheduling.rs:70-74 | the capacity all weights are relative to is that of some candidate |
| Scheduling.PromoteExploration | src/scheduling.rs:141-160 | an idle unknown or recovered node with the largest hash leads exactly the tickets divisible by eight, once anything is measured |
| Scheduling.OrderCurrent | src/scheduling.rs:53-106 | a permutation; unmeasured balanced order is the rotation; otherwise at most two promoted nodes precede a capacity-sorted tail, the fastest node is behind no more than the promoted ones, and the rendezvous winner leads unless exploring |
| Scheduling.OrderProjected | src/scheduling.rs:114-135 | a permutation sorted by projected cost behind at most one explorer |
| Scheduling.RotationByResidue | src/scheduling.rs:89-91 | before measurements the ticket alone decides the order: a node leads exactly for the tickets congruent to its index |
| Scheduling.EligibleExactly | src/node_selection.rs:148-166 | a node is ordered exactly when enabled and not cooling, or when every enabled node is cooling |
| Scheduling.OrderNodes | src/node_selection.rs:148-189 | for either configured algorithm the order is a permutation of the eligible nodes, empty only if none is enabled, led by an explorer when one is due, with the algorithm's own order behind the promoted nodes |
| Routing.MarkerOfRequest | src/registry.rs:1706-1709 | whatever the repository name contains, a slash-free reference leaves its own marker the last |
| Routing.RouteRegistryPath | src/registry.rs:1697-1751 | resolution step by step equals the specification, errors included |
| Routing.PrefixedRequest | src/registry.rs:1717-1729 | a request under a prefix goes to that route without the prefix |
| Routing.DefaultRequest | src/registry.rs:1730-1751 | any other goes to the default route |
| Routing.ResolvingTwice | src/registry.rs:1697-1751 | a second resolution changes nothing unless `library/` was added and a route has that prefix |
| Routing.LibraryPrefixGoesAstray | src/registry.rs:1734-1738 | with such a route the second resolution goes to it |
| ImageCopy.ImageSize | src/image_tools.rs:1540-1547 | the saturated sum of the declared sizes, negative ones as zero |
| ImageCopy.Destination.CopyLayers | src/image_tools.rs:1168-1198 | every layer is at the destination afterwards, each is reported with the bytes declared so far, and progress never exceeds the total or goes back |
| ImageCopy.Destination.CopyToRegistry | src/image_tools.rs:1154-1214 | however it ends, a manifest is published only when every blob it names is at the destination, and nothing unneeded is pushed; success means published and fully reported; it ends early only if a call fails, a cancel is seen or a layer is too large, and succeeds when none of these happens |

## Left out

- HTTP, TLS, DNS, redirects, Bearer exchange, header copying: a response is its status, range label, declared length and body pieces.
- SHA-256, logarithms and the rendezvous hash: function parameters; only the lemmas that compare scores assume that the logarithm increases.
- Plain inserts, edits and deletes of jobs and rules (`create_job`, `update_rule`, `delete_rule`, `remove_job_storage`): steps of runs, not methods of the database class.
- Floating-point rounding: retention scores, capacities, estimates, quantile ranks and watermarks are computed over reals.
- `purge_job`: a status read followed by an unconditional delete, outside the guarded protocol.
- Unguarded job writes made when no attempt is active: the steps cover writes under a held attempt only.
- Deadlock freedom and wake-ups of semaphores, backoff timers and the periodic recheck: safety only.
- Concurrent recorders inside one metrics slot, and a recorder delayed past a generation: events are recorded one at a time with non-decreasing generations.
- Single-flight uniqueness of cache misses: the entry that guards it can be evicted.
- Unknown-length bodies that end early but cleanly: only the digest catches them, so `FetchUncached` promises a prefix of the blob there.
- Node cooldowns and their exponential backoff: whether a node is cooling is an input of the ordering.
- `effective_concurrency` and the configuration it reads, settings import and export, migrations, traffic counters, the frontend: wide but shallow.
- Chunking.SplitChunks: requires that the chunk ends can be computed in 64 bits; `EndsFitExactly` shows what happens otherwise.
- JobDatabase.Database.RecoverAbandonedJobs: a job flagged between the two updates stays abandoned until the next pass, as in the source; only an undisturbed pass leaves none.
- JobDatabase.Database.CancelJobFromStatus: the source loops without a bound; the model stops after `rounds` rounds and says what that takes.
- BlobService.Serve: leaves out 206 responses relayed without a window that start after byte 0, because `WindowlessPartial` shows they break the invariant.
- Downloads.PartialDir.DownloadWhole: a success of a plain request may be shorter than the blob when the upstream declares no length; the length check in `FetchUncached` follows.
- Routing.RouteRegistryPath: the query string is appended unchanged and not modelled.
- ImageCopy.Destination.CopyToRegistry: blobs at the destination are never removed during a copy, and a pushed blob is there once the push succeeds.
- ImageCopy.Destination.CopyLayers: does not model the local layout lock held while a layer is read.
- Scheduling.OrderCurrent: URLs are compared by a number that stands for their lexicographic place.
