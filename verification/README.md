# Verification of gross

gross is a greylisting daemon for mail servers. It remembers, for a known time, which
(client, sender, recipient) tuples have been seen, and defers mail from suspicious clients whose
tuple is new. This project is a Dafny 4.11 model of its core, with proofs:

* **The store** (`Bloom`, `BloomRing`, `BloomManager`): a ring of Bloom filters with a cached OR
  of all of them, the aggregate, which is all a query reads. The filters are arrays changed in
  place; each method is proved to compute a function on ring values, and the theorems are about
  every run of the manager over those values: how long a digest is remembered, exactly what is
  forgotten and by when, when the aggregate agrees with the slots, and what a reader sees that does
  not take the lock.
* **Replication** (`Replication`, `Transfer`): the sender cuts its filters into chunks of 32 words,
  the receiver merges them. Any order, any repetition and any other traffic are allowed; the
  methods of both sides are also composed into one.
* **Queues** (`Times`, `MsgQueue`, `QueueIds`, `DelayQueue`, `DelayTrace`, `DelayedStore`): the
  linked message queue, the table of queues with its free list, the id allocator as an interleaving
  machine, and the virtual delay queue with its mover thread and the manager as a machine with a
  clock, neither early nor late, down to what the ring then answers.
* **Checks** (`Verdict`, `Greylisting`, `Ownership`, `ThreadPool`): the whole of test_tuple and its
  verdict on the replies it has heard, the round from a deferred tuple to its accepted retry, the
  two reference counts as a machine over all interleavings, and the thread pool as a machine with
  one step for each lock section.
* **Fast forms against simple ones** (`Words`, `Sha256`, `Sha256Laws`, `Lookup3`, `Lookup3Values`,
  `Layout`, `DnsCache`, `Chains`, `Config`, `SjsmsQuery`, `AddressMask`): SHA-256 with in-place
  padding against sections 5.1.1 and 6.2.2 of FIPS 180-4, whose tables and functions have their own
  laws, the three read paths of hashlittle against one fold and its author's published value, the
  single-block layout and its relocation, the overwriting DNS cache against the history of its
  calls, the configuration list against the lines of the file, the query text and its parser, and
  address masking against prefixes.

`dafny verify dfyconfig.toml` checks the project.

## How things are modelled

* A filter word is the set of its bit positions below 32; `MaskIsIndex` connects the index
  arithmetic with the bitwise mask. SHA-256, hashlittle and the address masks use integers with
  the 32-bit wrap-around and the bit operations written out (`Words`).
* Clocks, timeouts, arrival orders, check results and the moving average that decides a pool
  thread's exit are parameters or free choices of the machines. A message of the manager carries
  the three clock readings its rotation takes.
* A machine is a `Step` function guarded by `Enabled`; `Possible` runs are all sequences of
  enabled actions, `After` is the state they reach, and the invariant is carried by `InvAfter`.
* Properties that the code does not have are stated with their exact condition and an input that
  shows the failure: `Retention.RetentionExactly` with `Retention.ForgottenAfter` (a digest inserted
  while a rotation is overdue is promised less), `Layout.LumpFitsExactly` with `Layout.LumpTooSmall`
  (a 32-bit product), `DnsCache.StaleServedExactly` with `DnsCache.StaleServed` (a 32-bit age),
  `SjsmsQuery.RoundTripsExactly` with `SjsmsQuery.LongSenderRefused` (the size of a datagram),
  `Ownership.FlushCleanExactly` with `Ownership.FlushCanMeetNull` (a worker that stops early),
  `Replication.AssertionProtectsExactly` (the receiver's own check of a chunk) and
  `MsgQueues.Registry.ReleaseQueue` (a second release). The removal loop of the configuration list
  is wrong at the front of the list (`Chains.PurgedExactly`); `ConfigItems.LoadExpected` shows that
  no configuration file gets there from the built-in defaults, and `ConfigItems.TableOrderMatters`
  that this hangs on the order of their table.
* Code and documentation differ in two places. The manual gives the time a tuple is remembered
  as an average, (N - 0.5) * I for N filters and an interval of I seconds; the theorems give the
  guaranteed time. The comments in the collect loop
  speak of definitive results, but no check in the repository sets that flag on a result; the
  verdict theorem covers checks that do and checks that do not.

## Model

| member | source | states |
|---|---|---|
| BloomRings.MaskIsIndex | src/bloom.c:130-134 | Masking a hash with 2^b - 1 is the bit index used in the model: its remainder modulo the number of bits. |
| Bloom.WithBitBits | src/bloom.c:107-116 | Setting a bit adds exactly that position to the bits of the filter. |
| Bloom.WithDigestBits | src/bloom.c:136-149 | Inserting a digest adds exactly the positions of its eight hash words. |
| Bloom.DigestBitsAre | src/bloom.c:130-149 | Those positions are the remainders of the eight hash words modulo the number of bits. |
| Bloom.IsInBits | src/bloom.c:151-164 | The membership test holds exactly when all the digest's positions are among the filter's bits. |
| Bloom.OrAllBits | src/bloom.c:304-321 | A bit is in the OR of several filters exactly when it is in one of them. |
| Bloom.OrAtBits | src/bloom.c:423-439 | Merging words at an offset adds exactly their bits, moved to their place, and loses none. |
| Bloom.RingOrder | src/bloom.c:352-369 | Rotation moves the current slot up by one modulo the number of slots, and the slot of j rotations ago is j below it. |
| BloomRings.BloomFilter.constructor | src/bloom.c:176-197 | A new filter of 2^b bits, b at least 4, has 2^b / 32 words, all zero; it has a word at all exactly from b = 5 on. |
| BloomRings.BloomFilter.InsertBit | src/bloom.c:107-116 | In place, the filter becomes the old one with the bit set. |
| BloomRings.BloomFilter.InsertDigest | src/bloom.c:136-149 | The loop over the eight words of a digest sets their eight bits and changes nothing else. |
| BloomRings.BloomFilter.IsInArray | src/bloom.c:151-164 | The test on the array is the membership test on its contents. |
| BloomRings.BloomFilter.Zero | src/bloom.c:208-213 | All words become zero. |
| BloomRings.BloomFilter.Add | src/bloom.c:304-321 | In place, the filter becomes the word-wise OR with the other one. |
| BloomRings.BloomFilter.CopyFrom | src/bloom.c:371-389 | The copy that ends a rotation makes the words equal to the other filter's. |
| BloomRings.BloomRing.constructor | src/bloom.c:323-335 | A new ring has filters of 2^b / 32 words and is usable exactly from b = 5 on, when it is the empty ring value of its shape. |
| BloomRings.BloomRing.IsIn | src/bloom.c:345-350 | A query asks the aggregate. |
| BloomRings.BloomRing.Insert | src/bloom.c:337-343 | The digest goes into the current slot and the aggregate, and nowhere else. |
| BloomRings.BloomRing.Rotate | src/bloom.c:371-389 | The next slot is zeroed and made current, and the aggregate becomes the OR of the slots. |
| BloomRings.BloomRing.Clear | src/bloom.c:391-403 | Every slot and the aggregate become zero and the current index 0. |
| BloomRings.MergeWords | src/bloom.c:423-439 | For an index whose chunk lies inside the filter, the word loop ORs the buffer in at index * n, and the code's own assertion holds. |
| Replication.AssertionProtectsExactly | src/bloom.c:423-439 | The code's own assertion, on index + i, keeps every write, at index * n + i, inside the filter for all indices if and only if the filter is a single chunk; otherwise index size - 32 passes it and writes outside. |
| BloomRings.BloomRing.InsertAbsolute | src/bloom.c:423-439 | The clipped chunk is merged into one slot; other slots and the aggregate keep their contents. |
| BloomRings.BloomRing.SyncAggregate | src/bloom.c:441-456 | Walking the ring from the current slot and wrapping round, the aggregate becomes the OR of all slots. |
| BloomManager.Manager.RotateByClock | src/bloommgr.c:27-52 | Nothing, one catch-up rotation or a whole reset, with the last rotation time the code records in each case; what those times must be is said by Retention.WindowExactly, Forgetting.ForgottenInTime and Forgetting.ResetRestarts. |
| BloomManager.Manager.Dispatch | src/bloommgr.c:54-114 | One message changes the ring and the clock as the transition function on store values says. |
| Retention.HeldOneRotation | src/bloommgr.c:27-52 | Inside the window a rotate message neither resets the ring nor reaches the slot of the digest. |
| Retention.HeldThroughRun | src/bloommgr.c:54-114 | A digest held in a slot stays held, with its age and margin of time, through every run inside the window. |
| Retention.ForgottenAfter | src/bloommgr.c:27-52 | One rotate message after the window has passed answers "absent" for the digest. |
| Retention.WindowExactly | src/bloommgr.c:27-114 | Whatever is inserted, merged, synced, rotated or reset, a digest is present in every run up to a time if and only if that time is at most N intervals after the last rotation before its insertion. |
| Retention.RetentionExactly | src/bloommgr.c:27-114 | The promise of (N-1) intervals after the insertion holds in every run if and only if no rotation was overdue at the insertion. |
| Contents.UnionIsRecent | src/bloom.c:371-389 | The OR of exact slots is exactly the bits of the last N epochs. |
| Contents.InsertExact | src/bloom.c:337-343 | Insertion adds the digest to the newest epoch and to nothing else. |
| Contents.RotateExact | src/bloom.c:371-389 | Rotation starts a new epoch and drops exactly the oldest. |
| Contents.ExactThroughRun | src/bloommgr.c:54-114 | Without absolute updates every slot holds exactly the bits of its epoch, and the aggregate those of all of them, through every run. |
| Contents.AnswersLastEpochs | src/bloom.c:337-403 | From a new ring, a digest is answered "present" if and only if its bits are covered by digests of the last N epochs: nothing older leaves a trace. |
| Contents.CoherentOneStep | src/bloom.c:337-456 | Every message keeps the aggregate below the OR of the slots, and equal to it while no absolute update came after the last rotation, reset or sync. |
| Contents.CoherentThroughRun | src/bloommgr.c:54-114 | The same over every run from every coherent state. |
| Contents.AggregateCoherent | src/bloommgr.c:54-114 | The same in every state reachable from a new ring, absolute updates included. |
| Forgetting.AgedThroughRun | src/bloommgr.c:27-114 | Through every run, the last rotation time is as many intervals after its start as there are epochs not older than the run, or the ring was reset and holds nothing older. |
| Forgetting.ForgottenInTime | src/bloommgr.c:27-114 | After every run with no rotation overdue at its end, more than N intervals after the last rotation before it, the ring's N epochs hold only what was inserted in the run. |
| Forgetting.OnlyRecentAnswered | src/bloommgr.c:27-114 | What is then answered "present" was inserted in the run or is covered by digests that were. |
| Forgetting.ResetRestarts | src/bloommgr.c:42-45 | After a reset the next digest is remembered up to a time if and only if that is at most N intervals after the clock reading the reset took. |
| Forgetting.ReadingsUsed | src/bloommgr.c:27-52 | The first clock reading alone decides whether anything happens, the second alone whether it is a reset; a reset leaves an empty ring, a rotation one new empty epoch. |
| Racing.RacingReaderFinds | src/bloom.c:151-164 | A reader whose eight reads fall anywhere in the final copy of a rotation, in any write order, finds every digest that is not in the slot being dropped. |
| Racing.FoundDuringRotation | src/bloom.c:371-389 | In every run, during every due rotation before the end of its window, the inserted digest is found by such a reader. |
| Replication.ConvertOrder | src/syncmgr.c:39-71 | The loop of sston and sstoh reverses the bytes of the two numbers and of every word. |
| Replication.OrderRoundTrip | src/syncmgr.c:39-71 | Converting twice is the identity, so the peer decodes what was sent. |
| ByteOrder.NumberReversed | src/syncmgr.c:39-71 | A converted number is the one its four bytes write in the opposite order. |
| ByteOrder.WordReversed | src/syncmgr.c:39-71 | In a converted filter word byte k has the bits of byte 3 - k. |
| Replication.Position | src/syncmgr.c:379-414 | The loop's index arithmetic, which mixes 32 and the chunk size, addresses the right word of the buffer and ends each chunk at its last word. |
| Replication.SendFilter | src/syncmgr.c:379-414 | The inner loop sends the chunks of one filter, in order, each with its index and zero padding. |
| Replication.SendFilters | src/syncmgr.c:379-414 | All chunks of all filters are sent, filter by filter. |
| Replication.PowersAreWhole | src/syncmgr.c:379-414 | Every power of two is a whole number of chunks, so no last partial chunk is lost. |
| Transfer.ChunksFit | src/bloom.c:423-439 | Every chunk is in bounds at a receiver of the same shape. |
| Transfer.EveryWordArrives | src/syncmgr.c:291-414 | When every chunk arrives at some point of a run without rotations, each of the sender's words ends up in the receiver's slot. |
| Transfer.RunBounded | src/bloom.c:423-439 | Nothing but the sender's words arrives with the chunks. |
| Transfer.TransferMerges | src/syncmgr.c:291-414 | All chunks, in any order and with repetitions: every slot becomes the word-wise OR of its old value and the sender's, and the aggregate is untouched. |
| Transfer.PeerAnswers | src/bloom.c:441-456 | After the closing aggregate request every digest that the sender's slots cover is present at the receiver. |
| Transfer.SentMessagesDeliver | src/syncmgr.c:379-414 | The messages that send_filters sends are every chunk and nothing else. |
| Transfer.Deliver | src/syncmgr.c:291-318 | One chunk, encoded by the sender, decoded by the receiver and dispatched, has the effect of the chunk itself. |
| Transfer.Synchronised | src/syncmgr.c:379-414 | All chunks over the wire in sending order, then the closing request: every slot is the OR of both daemons' slots and the aggregate the OR of them all. |
| Transfer.JointAnswer | src/bloom.c:441-456 | Such a receiver answers "present" if and only if the digest's bits are covered by the two daemons' filters together. |
| Transfer.Synchronise | src/syncmgr.c:379-414 | send_filters on the sender's ring in memory, both byte-order conversions, the dispatch of every message and the closing request, composed: the receiver's ring in memory ends up joined with the sender's. |
| Times.TsSum | src/utils.c:213-221 | On normalised times the sum is exact and normalised. |
| Times.TsDiff | src/utils.c:227-242 | On normalised times the difference is exact and normalised, and accepted exactly when it is not negative. |
| Times.MsWithinOne | src/utils.c:204-208 | Before its conversion to an int, ms_diff is within one millisecond of the true difference. |
| MsgQueues.MsgQueue.constructor | src/msgqueue.c:189-200 | A new queue is empty and active. |
| MsgQueues.MsgQueue.PutRaw | src/msgqueue.c:380-413 | head, tail and msgcount represent one sequence of nodes; put appends to it, or changes nothing when the queue is inactive. |
| MsgQueues.MsgQueue.GetRaw | src/msgqueue.c:570-627 | get removes the first node, or takes nothing when the queue is inactive, empty without waiting, or timed out. |
| MsgQueues.MsgQueue.PeekStamp | src/msgqueue.c:538-564 | The time stamp is that of the first node. |
| MsgQueues.ReuseKeepsFreeList | src/msgqueue.c:518-533 | Taking the first free id and activating it keeps the free list exact. |
| MsgQueues.ReleaseKeepsFreeList | src/msgqueue.c:478-513 | Deactivating an active id and appending it keeps the free list exact. |
| MsgQueues.SecondReleaseBreaks | src/msgqueue.c:478-513 | Releasing an inactive id always spoils the free list. |
| MsgQueues.Registry.Grow | src/msgqueue.c:62-78 | The table doubles and keeps its queues. |
| MsgQueues.Registry.TryAvailable | src/msgqueue.c:518-533 | The first free queue is taken and made active, or -1 with nothing changed. |
| MsgQueues.Registry.AddQueue | src/msgqueue.c:209-253 | A new queue gets the next id, the table growing when it is full. |
| MsgQueues.Registry.GetQueue | src/msgqueue.c:209-253 | The id returned was not in use; numqueues stays within queuespace, queues[i].id is i, and the metaqueue holds exactly the inactive queues once each. |
| MsgQueues.Registry.ReleaseQueue | src/msgqueue.c:478-513 | Refused for a delay queue or a non-empty one; otherwise the queue becomes inactive and goes to the end of the metaqueue. The table stays sound if and only if the call was refused or the queue had not been released before. |
| QueueIds.StepKeeps | src/msgqueue.c:478-533 | Every step of every thread, including the three separate steps of a release, keeps the metaqueue a duplicate-free list of the released, empty, inactive queues. |
| QueueIds.IdIsFree | src/msgqueue.c:209-253 | In every interleaving the id handed out belongs to nobody, not even to an owner half way through releasing it, and its queue is empty. |
| QueueIds.TakenUntilPushed | src/msgqueue.c:478-513 | Through every interleaving an id that was handed out stays taken until the last step of its release. |
| QueueIds.ReusedOnlyAfterRelease | src/msgqueue.c:209-253 | In every run, the same id is handed out again only after its owner has released it. |
| QueueIds.MetaqueueExact | src/msgqueue.c:478-513 | In every interleaving each released queue is in the metaqueue once and no other queue is. |
| DelayQueue.StepConserves | src/msgqueue.c:144-187 | No step of producer, mover or manager loses, duplicates or reorders a message. |
| DelayQueue.StepKeepsTimes | src/msgqueue.c:144-187 | Stamps are never in the future, the mover waits for the head of inq, and nothing in outq or applied is early. |
| DelayQueue.NoEarlyDelivery | src/msgqueue.c:106-187 | In every run, no message that went through the queue is applied before its time stamp plus the delay. |
| DelayQueue.ExactlyOncePlaced | src/msgqueue.c:106-187 | In every run, the messages put are, in that order, those applied, in the manager's hand, in outq, in the mover's hand and in inq. |
| DelayTrace.EverythingAccountedFor | src/msgqueue.c:106-187 | In every run, what the actions of the run put, delayed and instant, with the times at which they happened, is what has been applied, is in a hand, in outq or in inq, in order; and every delivery has the time of its action. |
| DelayTrace.DecidedExactly | src/msgqueue.c:160-171 | With a delay the mover sleeps to exactly stamp plus delay unless that has passed; otherwise, and without a delay, it goes on at once. |
| DelayTrace.WakesWhenDue | src/msgqueue.c:144-187 | In every run in which an interrupted nanosleep reports the time left, a sleeping mover can wake if and only if the head of inq is due. |
| DelayTrace.SleepsWhatIsLeft | src/msgqueue.c:171-177 | A mover that was interrupted sleeps for what nanosleep said was left, from then on. |
| DelayTrace.PassedWhenDue | src/msgqueue.c:144-187 | In every such run a due message at the head can be passed on by steps of the mover alone, with no time passing. |
| DelayedStore.StoreRuns | src/bloommgr.c:54-114 | In every run of the delay machine the ring goes through a run of the manager, on a wall clock that does not go back. |
| DelayedStore.UpdateKept | src/worker.c:406-413 | In every run, when a digest's update is applied its delay has passed, and from then on the digest is present until N intervals after the last rotation before, whatever else happens. |
| DelayedStore.PresentOnlyWhenDue | src/worker.c:406-413 | In every run from a new ring without absolute updates, a digest that is present has had its own update applied, no earlier than stamp plus delay, or is covered by other digests of which that is true. |
| Verdict.SubmitJobs | src/worker.c:257-267 | The submission loop counts the checks and the definitive ones among them. |
| Verdict.CollectResults | src/worker.c:269-356 | The loop over the local variables computes the fold of the events. |
| Verdict.TestTuple | src/worker.c:150-433 | The whole function: a rejected address, the match shortcut, no checks, or loop and switch. A greylisted or matching tuple is put on the update queue, any other one only if the configuration always updates; a dry run answers trust. |
| Verdict.DryRunOnlyHides | src/worker.c:423-425 | A dry run changes the answer and not the update. |
| Verdict.SeenNeverDeferred | src/worker.c:222-394 | A tuple that stays in the filter is never greylisted, whatever the configuration, the checks and the timeouts. |
| Hearing.LoopCounted | src/worker.c:269-356 | Through every run of the loop its variables are the counts, the sum and the strongest judgment of the replies heard, and its timeout entries go down by one for each expiry. |
| Hearing.StatusOfHeard | src/worker.c:222-394 | Whatever ends the loop, a timeout too, the status is the verdict on the replies heard: pass, else block, else the thresholds against the sum of their weights. |
| Hearing.StopsExactly | src/worker.c:284-356 | The loop has stopped if and only if it has heard enough, every check has ended, or the timeout entries are used up. |
| Hearing.RunningHearsAll | src/worker.c:284-356 | A loop that has not stopped has heard every reply. |
| Hearing.VerdictOrderFree | src/worker.c:361-394 | That verdict does not depend on the order of the replies. |
| Greylisting.RetryAccepted | src/worker.c:222-413 | In every run of queue and manager, once a deferred tuple's update has been applied, which is not before its delay, a query that begins and ends inside the window is not deferred, whatever the checks and the configuration. |
| Greylisting.UnseenDeferredExactly | src/worker.c:222-394 | A tuple that is not in the filter is deferred if and only if there are no checks, or nobody passed or blocked it and the suspicion heard is in the grey range. |
| Confluence.AllFinalsMeanAll | src/worker.c:284-356 | When the count of running checks reaches zero, everything has arrived. |
| Confluence.RestIsMild | src/worker.c:333-350 | When no definitive check is left running, what is still to come cannot pass or block. |
| Confluence.CollectedAll | src/worker.c:361-394 | Collecting all replies gives the reference verdict, which looks only at which replies there are. |
| Confluence.LoopCounts | src/worker.c:284-356 | Through every run of the loop its variables are the counts, the sum and the maximum of the replies heard so far. |
| Confluence.VerdictConfluent | src/worker.c:257-394 | For every order of arrival and every stop before the timeouts are used up, early or not, the status is the reference verdict. |
| Confluence.TupleVerdict | src/worker.c:222-394 | The same for the whole function with its shortcuts and both readings of the filter. |
| Confluence.ShortcutHarmlessExactly | src/worker.c:225-232 | For a seen tuple the shortcut gives the status of the full collection if and only if no check passes or blocks and the total weight is in the grey range. |
| Ownership.JobStepKeeps | src/thread_pool.c:162-198 | Every step of a pool thread with a job keeps both reference counts exact. |
| Ownership.StepKeeps | src/worker.c:58-110 | Every step of the worker or of a pool thread keeps both counts exact and frees only at zero. |
| Ownership.CountsExact | src/thread_pool.c:250-327 | In every interleaving the edict's count is its jobs plus the worker's link, and the request's count its holders plus the uncollected NULL results. |
| Ownership.NothingUsedAfterFree | src/worker.c:58-110 | In every interleaving the tuple lives while a check can read it, and no result goes to a released queue. |
| Ownership.NothingLeaks | src/worker.c:257-308 | When worker and pool threads have finished, request and queue have been given back. |
| Ownership.FlushIsClean | src/thread_pool.c:299-327 | A worker that collected a final reply from every check leaves no NULL result to the flush. |
| Ownership.FlushCanMeetNull | src/thread_pool.c:299-327 | For every number of checks n and every f below n there is a run in which the worker stops after f final replies and the very last unlink meets a NULL result. |
| Ownership.FlushCleanExactly | src/thread_pool.c:299-327 | No run in which the worker stops after f of n final replies leaves a NULL result, to any state or to the flush alone, if and only if f = n, that is checks_running is zero. |
| ThreadPool.CountsKept | src/thread_pool.c:59-203 | Every lock section keeps count_idle and count_thread equal to the number of threads they stand for. |
| ThreadPool.WatchKept | src/thread_pool.c:59-203 | Every lock section keeps the watchdog list a duplicate-free list of the registered threads. |
| ThreadPool.PlacedKept | src/thread_pool.c:59-203 | Every lock section keeps each submission in exactly one place: queued, held by one thread, or done. |
| ThreadPool.UnlistedExact | src/thread_pool.c:109-143 | Unlinking from the watchdog list removes the thread and nothing else. |
| ThreadPool.CountersRight | src/thread_pool.c:59-203 | In every interleaving the counters are exact and count_idle does not exceed count_thread. |
| ThreadPool.WatchdogRight | src/thread_pool.c:59-203 | In every interleaving the watchdog list holds each registered thread exactly once. |
| ThreadPool.HandledOnce | src/thread_pool.c:162-203 | Each submission is run or refused at most once, never both, and unlinked once when it is done. |
| ThreadPool.SomeoneListens | src/thread_pool.c:162-198 | A routine starts only when another thread is counted idle or has just been created. |
| ThreadPool.DecidesExactly | src/thread_pool.c:162-198 | In every run a job is refused if and only if no thread is counted idle and more threads than a non-zero max_thread are in the pool; a thread is started if and only if none is counted idle and the job is not refused. |
| ThreadPool.QueueInOrder | src/thread_pool.c:152-170 | In every run the work queue is what was submitted less what was received, in order. |
| ThreadPool.OldestFirst | src/thread_pool.c:152-170 | In every run a thread receives the oldest job that nobody has received. |
| ThreadPool.ExitExactly | src/thread_pool.c:109-143 | In every run an exit is open to a thread at the top of its loop if and only if more than eight threads are in the pool. |
| ThreadPool.ExitLeavesEight | src/thread_pool.c:109-143 | No voluntary exit leaves fewer than eight threads. |
| Sha256.NewSizeLeast | src/sha256.c:150 | The wrapping formula for new_size is the least multiple of 64 that is at least size + 9, and the length of the padded message. |
| Sha256.SwapBytes | src/sha256.c:73-80 | The two bytes are exchanged. |
| Sha256.LengthBytes | src/sha256.c:82-91 | On either byte order the bit length stands in memory as eight big-endian bytes. |
| Sha256.LoadWord | src/sha256.c:101-108 | On either byte order four bytes are read as a big-endian word. |
| Sha256.PadAt | src/sha256.c:172-189 | Byte p of the padded message is the message byte, 0x80, zero or a length byte according to p alone. |
| Sha256.BuildBlock | src/sha256.c:172-189 | The block made from the message alone holds the padded message's bytes at that position. |
| Sha256.ExtensionsAgree | src/sha256.c:200-205 | The program's schedule line equals the schedule of FIPS 180-4, section 6.2.2. |
| Sha256.TurnIsRound | src/sha256.c:210-232 | The program's round, with its own majority and order of sums, equals the round of the standard. |
| Sha256.MainLoop | src/sha256.c:207-232 | The loop over the eight registers, assigned one after the other, computes the 64 rounds. |
| Sha256.CompressBlock | src/sha256.c:191-242 | One pass of the block loop is one compression. |
| Sha256.Sha256 | src/sha256.c:144-250 | For every message whose padded length is below 2^32, and both byte orders, the result is the hash that pads first and then compresses block by block. |
| Sha256Laws.RoundConstants | src/sha256.c:40-50 | Each round constant is the first 32 bits of the fraction of the cube root of its prime, from 2 to 311. |
| Sha256Laws.InitialValue | src/sha256.c:35-38 | The initial hash value is the same of the square roots of the primes from 2 to 19. |
| Sha256Laws.RotatedBit | src/sha256.c:52-57 | Bit j of a rotated word is bit j + n, counted round the word. |
| Sha256Laws.ChBit | src/sha256.c:220 | Bit by bit the choice function takes y where x is one and z elsewhere. |
| Sha256Laws.MajBit | src/sha256.c:214-216 | Bit by bit the majority function is one where at least two of its arguments are. |
| Sha256Laws.BigSigma0Bit | src/sha256.c:212-213 | Each bit is the parity of the bits 2, 13 and 22 places up, round the word. |
| Sha256Laws.BigSigma1Bit | src/sha256.c:218-219 | Each bit is the parity of the bits 6, 11 and 25 places up, round the word. |
| Sha256Laws.SmallSigma0Bit | src/sha256.c:202 | Each bit is the parity of the bits 7 and 18 places up, round the word, and 3 places up inside it. |
| Sha256Laws.SmallSigma1Bit | src/sha256.c:203 | The same with 17, 19 and 10. |
| Sha256Laws.PaddedMessage | src/sha256.c:144-189 | The padded message is the message, a one bit, zeros, and the bit length as the number its last eight bytes write; whole blocks, and no more of them than needed. |
| Sha256Laws.ScheduleLaw | src/sha256.c:191-205 | The first sixteen schedule words are the numbers the block's bytes write, the others follow the recurrence of section 6.2.2 on the words 2, 7, 15 and 16 back. |
| Sha256Laws.RoundRecurrence | src/sha256.c:207-232 | The rounds are two recurrences, each new a and e a sum of values of a and e at most four rounds back, whatever the logical functions. |
| Sha256Laws.CompressionSums | src/sha256.c:234-242 | A block adds the state after the rounds to the hash value word by word. |
| Lookup3.LineUndone | src/lookup3.c:105-113 | Each line of mix can be undone, whatever the rotation. |
| Lookup3.MixReversible | src/lookup3.c:61-66 | mix has an explicit inverse on both sides. |
| Lookup3.MaskDropsTail | src/lookup3.c:192-268 | The masks of the 32-bit path leave exactly the key's bytes of a word read past its end. |
| Lookup3.AllReadRight | src/lookup3.c:192-445 | The 32-bit, 16-bit and byte-wise paths add the same words. |
| Lookup3.HashBy | src/lookup3.c:192-445 | The loop and the final switch of each path compute the fold over 12-byte zero-padded blocks. |
| Lookup3.HashLittle | src/lookup3.c:178-449 | For every key, length, address and whatever bytes follow the key, the value is that one fold. |
| Lookup3Values.Rotated | src/lookup3.c:59 | rot moves the k highest bits of a word below the others. |
| Lookup3Values.PublishedValues | src/lookup3.c:178-449 | The hash of no key is 0xdeadbeef, that of "Four score and seven years ago" is 0x17770551, as the author of lookup3.c published. |
| Layout.BuildRing | src/srvutils.c:300-352 | The addresses computed by advancing ptr are the planned ones. |
| Layout.PlanTiles | src/srvutils.c:227-352 | The pieces follow one another without gap or overlap from the start of the block to its end. |
| Layout.LumpFitsExactly | src/srvutils.c:246-250 | lumpsize is exactly the space used if and only if (num + 1) * 2^bits is below 2^32, and too small otherwise. |
| Layout.LumpTooSmall | src/gross.c:274-276 | The default of eight filters with filter_bits = 29, which the daemon accepts, is such a case. |
| Layout.PointerMoves | src/srvutils.c:154-158 | Adding the modular offset brings a pointer into the old block to the same place in the new one. |
| Layout.BuiltHolds | src/srvutils.c:300-352 | The pointers the walk expects, and those it leaves, are those that a build at that base stores. |
| Layout.StateFile.WalkMmapInfo | src/srvutils.c:165-185 | After a reload at any base every stored pointer is at its old offset from the new base, and no other memory changed; the number of filters is read from the block. |
| DnsCache.Cache.CacheStr | src/helper_dns.c:152-178 | The slot of the key is overwritten with key, value and time. |
| DnsCache.Cache.LookupStr | src/helper_dns.c:180-226 | A fresh entry of the same key is returned, a stale one dropped, anything else left alone. |
| DnsCache.SlotExplained | src/helper_dns.c:152-226 | After every run, for every hash function, a slot holds the last entry saved there unless a lookup of its key found it stale. |
| DnsCache.AnswersExactly | src/helper_dns.c:180-226 | In every run and on any clock, a lookup answers a host if and only if it was saved last in the slot, under this key, and neither this nor an earlier lookup finds it stale. |
| DnsCache.AnswersWithoutWrap | src/helper_dns.c:180-226 | On a monotone clock, when what the slot was last given is less than 2^31 ms old: a host is answered if and only if it was saved last in the slot, under this key, at most a minute ago by ms_diff. |
| DnsCache.ServedIsRecent | src/helper_dns.c:180-226 | Then a hit is the value most recently saved for that key, less than 60.001 seconds ago. |
| DnsCache.StaleServedExactly | src/utils.c:204-208 | An entry older than a minute is served if and only if its age modulo 2^32 ms is at most a minute or at least 2^31 ms. |
| DnsCache.StaleServed | src/helper_dns.c:180-226 | A concrete run in which an entry of 2^31 ms is served. |
| Chains.PurgedExactly | src/conf.c:133-148 | The removal loop leaves what it should, and no freed node, if and only if no matching node stands at the front. |
| Chains.Chain.Prepend | src/conf.c:95-114 | add_config_item puts the item at the front. |
| Chains.Chain.Unlink | src/conf.c:136-142 | The node is taken out through its predecessor and the chain stays linked. |
| Chains.Chain.Remove | src/conf.c:133-148 | The loop frees every matching node and unlinks those with a predecessor that stays; none of the nodes still linked was freed if and only if the front did not match. |
| ConfigItems.RecordedOf | src/conf.c:120-164 | What one line changes for one name: nothing for other names; all defaults dropped and the value put first for a multivalued name; the value replaced or added otherwise. |
| ConfigItems.LoadExpected | src/conf.c:120-164 | After every sequence of lines, a multivalued name has its own values newest first and its defaults only if never given, any other name has the value given last, and no deletable default stands at the front. |
| ConfigItems.DefaultsSafe | include/conf.h:24-63 | In the built-in defaults no deletable default stands at the front. |
| ConfigItems.TableOrderMatters | include/conf.h:24-55 | That depends on the order of the table: with its first 19 entries alone, any stat_type line leaves a freed node linked. |
| ConfigItems.ReadsLastGiven | src/conf.c:170-179 | From the built-in defaults, every name reads as its last line says, else as its default. |
| ConfigLists.Multivalue | src/conf.c:32-48 | The search finds exactly the listed names. |
| ConfigLists.DefaultConfig | src/conf.c:280-303 | The loop builds the list of defaults, the last of the table first. |
| ConfigLists.Gconf | src/conf.c:170-179 | The value of the first item with the name, or none. |
| ConfigLists.Replace | src/conf.c:150-157 | The first item with the name gets the value, and nothing else changes. |
| ConfigLists.RecordItem | src/conf.c:120-164 | The linked list changes as the list function says, and keeps no freed node linked if and only if no matching default stood at the front. |
| ConfigLists.LoadConfig | src/conf.c:95-179 | From the defaults through every sequence of lines no freed node is ever reachable, and the list is the one the list function gives. |
| SjsmsQuery.StrChr | src/worker_sjsms.c:98 | The first occurrence before the terminator, or none. |
| SjsmsQuery.CutLine | src/worker_sjsms.c:97-107 | The line is cut at its newline and the rest of the buffer is untouched; an empty line or a missing newline ends the processing. |
| SjsmsQuery.ParseQuery | src/worker_sjsms.c:85-119 | For every text, the loop over the cut buffer computes the tuple from the lines, or none when a required field is missing. |
| SjsmsQuery.FieldStep | src/worker.c:435-492 | Each line of a query sets its own field and no other. |
| SjsmsQuery.Received | src/proto_sjsms.c:66-109 | Through build, send, receive and copy the server reads the first 1020 characters. |
| SjsmsQuery.LinesOfCut | src/worker_sjsms.c:85-119 | A text cut anywhere yields exactly the lines whose newline survived. |
| SjsmsQuery.RoundTripsExactly | src/proto_sjsms.c:26-95 | For all fields without newline and NUL, with or without helo, the server reads back the same fields if and only if the text is at most 1021 characters long. |
| SjsmsQuery.LongTextLoses | src/proto_sjsms.c:26-95 | A longer query without helo name is refused, one with a helo name loses at least that. |
| SjsmsQuery.LongSenderRefused | src/proto_sjsms.c:26-95 | A sender of 986 characters is enough. |
| AddressMask.V4Clears | src/addrutils.c:149-152 | The mask expression clears the low 32 - m bits. |
| AddressMask.V4PrefixExactly | src/addrutils.c:118-160 | For m from 1 to 32, two addresses mask to the same value if and only if their first m bits agree. |
| AddressMask.V4Nested | src/addrutils.c:118-160 | Masking by m and then by k is masking by the smaller. |
| AddressMask.GreyMaskV6 | src/addrutils.c:162-204 | The byte loop clears the low 128 - m bits of the address, for m from 0 to 128. |
| AddressMask.ClearSame | src/addrutils.c:118-204 | Two numbers agree after clearing low bits if and only if their other bits agree. |
| AddressMask.V6PrefixExactly | src/addrutils.c:162-204 | Two addresses mask to the same bytes if and only if their first m bits agree. |
| AddressMask.V6Nested | src/addrutils.c:162-204 | Masking by m and then by k is masking by the smaller. |

## Left out

- Sockets, select loops, c-ares, libspf2, libmilter, syslog, daemonising, signals and file creation: foreign calls with nothing to prove here.
- The in-process hand-off of sync messages: its byte counts do not cover the message type field (src/syncmgr.c:317, src/syncmgr.c:342); sender and receiver functions are proved against each other with whole messages.
- Pending updates sent to a new peer: walk_queue's second loop starts again from the first queue's head (src/msgqueue.c:724-726).
- Readers inside sync_aggregate or a reset, where the aggregate is briefly empty: those messages are atomic steps here.
- A cap on the number of pool threads, and that a listener always exists: creation and counting are separate steps, and an exit decided from the moving average can remove the last waiting thread.
- A reply queue released while a late DNS callback may still write to it, and the agreement of the cache with the resolver across address families.
- The flush of a result queue that still holds a NULL result: the worker's unlink is not enabled in such a state, and `Ownership.FlushCanMeetNull` shows that it can be reached.
- Delays changed or switched off while the daemon runs (set_delay, disable_delay, freeze and thaw): the delay is fixed and enabled.
- Floating-point code: error rates, required sizes and averages. The moving average's test is a free choice.
- Text conversion by inet_pton and inet_ntop, log and status text, response templates, the binary query format, client programs and build files: easy or foreign.
- The parsing of configuration lines and the checks of their parameter counts: the lines are given as name, value and parameters.
- src/counter.c: the allocator shape of the queue registry, but simpler.
- Big-endian hosts and the VALGRIND variant of hashlittle; an IPv4 mask of 0, for which the code shifts by the width of its type.
- MsgQueues.Registry.ReleaseQueue: the metaqueue holds ids instead of pointers.
- QueueIds.IdIsFree: the machine's owners release once and put nothing into a queue they are releasing.
- MsgQueues.MsgQueue.GetRaw: the wait on the condition variable is over when the call is modelled; whether it timed out is a parameter.
- BloomRings.MergeWords: a chunk that would be written outside the filter is excluded; `Replication.AssertionProtectsExactly` says when the code's own check excludes it too.
- BloomRings.BloomRing.InsertAbsolute: the same.
- BloomManager.Manager.Dispatch: the same, and chunks for a filter that does not exist.
- DelayedStore.UpdateKept: the same; the wall clock of rotations and the clock of delays are two independent monotone clocks.
- Verdict.TestTuple: the text that is hashed, reasons, counters, the query log and the message to the peer are not modelled.
- Confluence.VerdictConfluent: a verdict taken because the timeouts are used up depends on what had arrived (`Hearing.StatusOfHeard` says how), and the assumptions on the checks are those of `Confluence.WellBehaved`.
- Layout.StateFile.WalkMmapInfo: sizes are those of eight-byte pointers, and memory is a map from addresses to stored pointers.
- DnsCache.Cache.LookupStr: values are compared, not copied; the deep copies and frees of host entries are not modelled.
