# Verified model of four systems projects

This project models the stateful cores of four components and proves what each of them keeps over all of its runs.

- **GTThreads** (`Assignment_1`): user-level threads on several kernel threads. A kthread has an active and an expires
  runqueue; a runqueue is a 32x32 table of tail queues with masks and counters as an index; a credit scheduler, queue
  swapping, work stealing, placement, a spinlock and a shutdown counter work on top.
  Files: `Words`, `Uthreads`, `Runqueues`, `TailQueue`, `LinkedTable`, `Scheduling`, `Kthreads`, `Starvation`, `Stealing`,
  `Placement`, `PlacementInvariant`, `Births`, `Stranding`, `SoloCalls`, `Spinlocks`, `RoundRobin`.
- **GTFS** (`Assignment_3`): a file with a textual redo log. Files: `FileReplay`, `LogText`, `Recovery`, `Gtfs`,
  `CrashRecovery`.
- **GTStore** (`Assignment_4`): a replicated key-value store on a ring of nodes with client-side failover. Files: `Ring`,
  `Wire`, `Replication`.
- **TinyFile** (`Assignment_2`): shared-memory slots between client threads and server workers. Files: `Slots`,
  `SlotOwnership`.

`Options` and `Text` are shared. `dafny verify dfyconfig.toml` checks everything.

## Main results

1. Every queued uthread of a kthread in credit mode is dispatched within a number of scheduler calls computed from the
   number of uthreads and their initial credits (`Starvation.QueuedUthreadRuns`).
2. In every interleaving of creation, preemption, yield, completion, swap and stealing on any number of kthreads, a created
   uthread is in exactly one place, zombies stay zombies, and the shared counter is exact. A kthread that marks itself done
   has seen all uthreads finish that were created before it read the counter; all uthreads are finished at the mark if and
   only if the counter equals the number of completions still to be subtracted from it (`PlacementInvariant.SafeShutdown`).
   A uthread created later can be placed on a kthread that already quit; it stays there in every continuation if and only
   if no thief read that kthread's done flag before it was set and has yet to look at its queue (`Stranding.StrandedIff`).
3. The masks and counters of a runqueue agree with its contents under every sequence of additions and removals, and the
   two lowest-bit lookups find the earliest of the lexicographically least uthreads (`Runqueues`).
4. The runqueue lock is exclusive, and nobody waits for one lock while holding another, in every run in which no kthread
   clears a lock word that another kthread set. The code has such a write: an addition between the empty look and the swap
   leads to an unlock without the lock. A step of the machine can be followed by a loss of exclusion if and only if it is
   this write (`Spinlocks.IntrusionIff`).
5. With crashes allowed anywhere, also inside a data write or a replay, replaying the log over the data file yields the
   writes of all syncs in commit order, read off the actions of the run, and the log is only truncated when the file already
   equals that (`CrashRecovery`). The log text reads back as these writes if and only if every record in it is clean
   (`LogText.RoundTripIff`).
6. Aborting the last of some equal pending writes restores the pending list under an exact condition
   (`Gtfs.AbortUndoesIff`).
7. While failures only hit a node whose successor in line has applied its replication queue, a get returns the values of the
   last put of its key that reached a live node (`Replication.LastPutIsRead`). After any single failure, gets read back what was acknowledged in
   every continuation if and only if the nodes that take over have no pending message for the keys they take over
   (`Replication.FailIsSafeIff`).
8. Requests are routed to the first live node of the key's window, whatever sound dead list the client has (`Ring.Route`).
   A put and a get agree on every list of nonempty values without spaces and commas if and only if the key has no space, no
   comma and does not make the get look like a put (`Wire.KeyRoundTripIff`); under such a key they agree on no other list
   (`Wire.PutThenGet`).
9. A used slot has exactly one owner and at most one message, workers read exactly the paths of the request they work for,
   and each request is handled exactly once before its slot is freed (`SlotOwnership`).

## Modelling decisions

Where code and comments disagree the model follows the code:

- After `sched_find_best_uthread` swaps the two queues it looks at the queue it just found empty. The call returns nothing,
  and the next call serves the former expires queue.
- The steal loop stops at, and does not skip, the caller's own number.
- `uthread_group_mask` loses a bit only when the whole group becomes empty, so it can name an empty cell
  (`Runqueues.StaleGroupBit`). It is exact while all uthreads have the same priority, as `uthread_create` arranges.
- `gtfs_read_file` returns the first pending record with the same offset and length, not the newest; an abort compares
  the address of the data, not its bytes.
- The first `gtfs_open_file` checks for the file by a relative name, so it may skip the replay; the crash model allows both.
- The client's skip over known dead nodes passes at most one node per attempt; the result is the same for every sound list.
- The manager keeps reported dead nodes in a local list that shadows the global one, so a client's list can be any set
  of nodes that are really dead.

Assumptions of the machines: in `Placement`, the critical sections of gt_pq.c, the swap, and each access to a shared counter
or to another kthread's done flag are atomic steps; the thief's unlocked look at a victim's mask is one step with the locked
look that decides. A signal does not re-enter the scheduler. `Spinlocks` works on single memory accesses of the lock words
instead. Elapsed time is a natural number of microseconds and its quotient by 1000 is exact. A uthread is a value: the code
writes it only while it is on no queue, except for a yield flag that the owner lowers just after queueing it. Counters do
not wrap. In `CrashRecovery` one process uses one file, and appending a record and truncating the log are atomic; data are C
strings, of which a sync writes any number of bytes up to and including the terminating zero. A replay does
what the text of the log says; where reading it is undefined, anything may happen. In `Replication` message queues are
first-in first-out and unbounded, and failed nodes do not return.

## Model

| member | source | states |
|---|---|---|
| `Words.LowestBitSet` | Assignment_1/Project1/gtthreads/src/gt_bitops.h:28-36 | on a nonzero mask the result is a set bit and every lower bit is clear |
| `Uthreads.Best` | Assignment_1/Project1/gtthreads/src/gt_pq.c:261-270 | the reference selection is a member that no member precedes in (priority, group) order |
| `Uthreads.BestHeadsItsCell` | Assignment_1/Project1/gtthreads/src/gt_pq.c:268-270 | for every queue, the reference choice is the earliest uthread of its own table cell |
| `Uthreads.MembersWithout` | Assignment_1/Project1/gtthreads/src/gt_pq.c:55-85 | removing one uthread from the whole queue removes it from exactly the parts it belongs to and keeps all orders |
| `Runqueues.Runqueue.constructor` | Assignment_1/Project1/gtthreads/src/gt_pq.c:90-104 | an initialised runqueue satisfies the index invariant for the empty queue |
| `Runqueues.Runqueue.Add` | Assignment_1/Project1/gtthreads/src/gt_pq.c:24-53 | appends in insertion order; all counters equal the true counts, the two selection masks stay exact, the group mask gains exactly the one bit, stays a superset and stays exact for uniform priorities |
| `Runqueues.Runqueue.Remove` | Assignment_1/Project1/gtthreads/src/gt_pq.c:55-85 | removes the member, keeps the order of the rest and the whole index invariant; a group-mask bit falls exactly when the group becomes empty |
| `Runqueues.Runqueue.AddToGroup` | Assignment_1/Project1/gtthreads/src/gt_pq.c:48-50 | group counters stay the true counts and the group mask a superset, exact if only one priority was ever used |
| `Runqueues.Runqueue.RemoveFromGroup` | Assignment_1/Project1/gtthreads/src/gt_pq.c:75-82 | the same after a removal, although bits are only cleared for an empty group |
| `Runqueues.Runqueue.LookupFindsBest` | Assignment_1/Project1/gtthreads/src/gt_pq.c:261-270 | the mask is zero exactly for an empty queue; otherwise the two lowest-bit lookups lead to the cell headed by the reference choice, and the asserted group mask is nonzero |
| `Runqueues.Runqueue.RemoveBest` | Assignment_1/Project1/gtthreads/src/gt_pq.c:261-276 | the mask-driven selection returns and removes the reference choice and leaves the order of the rest |
| `Runqueues.StaleGroupBit` | Assignment_1/Project1/gtthreads/src/gt_pq.c:78-82 | for any two uthreads of one group with different priorities, a bit of the group mask stays behind for an empty cell |
| `TailQueue.Head.constructor` | Assignment_1/Project1/gtthreads/src/gt_tailq.h:71-74 | the initial head is well linked and stands for the empty sequence |
| `TailQueue.Head.IsEmpty` | Assignment_1/Project1/gtthreads/src/gt_tailq.h:57 | true exactly if the linked sequence is empty |
| `TailQueue.Head.First` | Assignment_1/Project1/gtthreads/src/gt_tailq.h:59 | the first element of the linked sequence, or null |
| `TailQueue.Head.InsertTail` | Assignment_1/Project1/gtthreads/src/gt_tailq.h:103-108 | pointer updates refine appending to the sequence and keep all forward links, back links and the tail link right |
| `TailQueue.Head.Remove` | Assignment_1/Project1/gtthreads/src/gt_tailq.h:118-125 | pointer updates refine deleting any member, first, middle or last, and keep the links right |
| `TailQueue.Head.WalkVisits` | Assignment_1/Project1/gtthreads/src/gt_tailq.h:57-59 | following next pointers visits the elements in order, each once, and ends in null: the list is acyclic |
| `LinkedTable.Table.constructor` | Assignment_1/Project1/gtthreads/src/gt_pq.c:90-104 | 1024 separate, well-linked empty lists |
| `LinkedTable.Table.Insert` | Assignment_1/Project1/gtthreads/src/gt_pq.c:35-36 | inserting a linked entry into its cell keeps all 1024 lists well linked and apart, and every cell equal to its part of the contents in insertion order |
| `LinkedTable.Table.Remove` | Assignment_1/Project1/gtthreads/src/gt_pq.c:66-67 | unlinking any entry keeps the same, with the contents less that uthread |
| `LinkedTable.Table.FirstOf` | Assignment_1/Project1/gtthreads/src/gt_pq.c:268-269 | the first entry of a cell belongs to the earliest added uthread of that priority and group |
| `LinkedTable.HoldsAfterRemoval` | Assignment_1/Project1/gtthreads/src/gt_tailq.h:118-125 | deleting the entry at any position of a cell is removing its uthread from the cell's part of the queue |
| `Scheduling.Charge` | Assignment_1/Project1/gtthreads/src/gt_uthread.c:142-151 | only credits change; they drop by the whole milliseconds of the slice, or to -1 exactly if the slice exceeds the credits |
| `Scheduling.SettleInNumbers` | Assignment_1/Project1/gtthreads/src/gt_uthread.c:139-216 | what a call does to the current uthread, in numbers: with credits left after one per full millisecond, a preempted uthread pays 25 more and goes to the active queue and one that yielded goes to the expires queue; otherwise it is refilled and goes there; without the credit scheduler it goes there uncharged; a finished one becomes a zombie |
| `Scheduling.LoneUthreadIsCharged` | Assignment_1/Project1/gtthreads/src/gt_uthread.c:122-255 | a preempted uthread that is alone is dispatched again with its credits less the whole milliseconds and 25 |
| `Kthreads.KthreadRunqueue.constructor` | Assignment_1/Project1/gtthreads/src/gt_pq.c:135-146 | two disjoint valid runqueues, empty zombie list |
| `Kthreads.KthreadRunqueue.FindBestUthread` | Assignment_1/Project1/gtthreads/src/gt_pq.c:167-281 | without balancing, selection on masks and swapped pointers refines the sequence-level choice; the in-code assertions hold |
| `Kthreads.KthreadRunqueue.SettleCurrent` | Assignment_1/Project1/gtthreads/src/gt_uthread.c:139-216 | charging, penalty, yield, refill and the zombie branch on runqueues updated in place refine the sequence-level step that `Scheduling.SettleInNumbers` gives in numbers |
| `Kthreads.KthreadRunqueue.UthreadSchedule` | Assignment_1/Project1/gtthreads/src/gt_uthread.c:122-255 | a whole scheduler call refines the function that the starvation bound is about |
| `Starvation.ReturnCostsASlice` | Assignment_1/Project1/gtthreads/src/gt_uthread.c:142-151 | whatever the elapsed time, a uthread that returns to the active queue has fewer slices 1 + ceil(max(credits, 0) / 25) left than before |
| `Starvation.CallLowers` | Assignment_1/Project1/gtthreads/src/gt_uthread.c:139-237 | each call either dispatches and lowers the total of slices over active and running uthreads, or swaps the queues; no other uthread leaves the queues |
| `Starvation.ActiveRuns` | Assignment_1/Project1/gtthreads/src/gt_pq.c:187-281 | in every run a uthread on the active queue is dispatched before the countdown ends |
| `Starvation.ExpiredReturns` | Assignment_1/Project1/gtthreads/src/gt_pq.c:250-258 | in every run the active queue drains and the swap brings an expired uthread back |
| `Starvation.RunKeepsRange` | Assignment_1/Project1/gtthreads/src/gt_uthread.c:193-211 | in every run queued credits lie between -24 and the initial credits, initial credits never grow, and uthreads do not multiply |
| `Starvation.CountdownBounded` | Assignment_1/Project1/gtthreads/src/gt_uthread.c:193-211 | the countdown is at most number of uthreads times slices of the largest initial credits, plus one |
| `Starvation.QueuedUthreadRuns` | Assignment_1/Project1/gtthreads/src/gt_uthread.c:139-216 | in every long enough run each queued uthread is dispatched within a bound computed from thread count and credits |
| `Starvation.PenaltiesAddUp` | Assignment_1/Project1/gtthreads/src/gt_uthread.c:193-211 | n preemptions without charge take 25 n credits as long as the uthread stays active |
| `Starvation.FullRound` | Assignment_1/Project1/gtthreads/src/gt_uthread.c:193-211 | the measure is tight: a uthread preempted at once runs exactly its number of slices and is then back at its initial state |
| `Stealing.FindBestUthread` | Assignment_1/Project1/gtthreads/src/gt_pq.c:187-281 | the loop takes the best uthread of the lowest-numbered live victim below the caller, swaps exactly if there is none, and neither loses nor duplicates a uthread over all kthreads |
| `PlacementInvariant.StepPlaces` | Assignment_1/Project1/gtthreads/src/gt_pq.c:195-230 | each atomic step of any kthread keeps the number of places of every uthread; only creation adds the new one |
| `PlacementInvariant.StepCompletions` | Assignment_1/Project1/gtthreads/src/gt_uthread.c:176-187 | each step keeps the sum of shared counter and counted completions, up to creations |
| `PlacementInvariant.RunKeepsInv` | Assignment_1/Project1/gtthreads/src/gt_uthread.c:162-216 | the partition, counter and quitting invariants hold in every reachable state of every run |
| `PlacementInvariant.ExactlyOnePlace` | Assignment_1/Project1/gtthreads/src/gt_pq.c:195-280 | in every reachable state a uthread is in exactly one place if it was created and in none otherwise |
| `Births.UthreadsKeepTheirBirths` | Assignment_1/Project1/gtthreads/src/gt_uthread.c:314-345 | in every run, read off its actions, each uthread wherever it is has the number, group, default priority and initial credits of its creation, and full credits until it is queued |
| `PlacementInvariant.ZombieForever` | Assignment_1/Project1/gtthreads/src/gt_uthread.c:162-187 | once on a zombie list, on a zombie list in every later state |
| `PlacementInvariant.CounterIsExact` | Assignment_1/Project1/gtthreads/src/gt_uthread.c:338-345 | the shared counter equals creations minus counted completions and is at least the number of unfinished uthreads |
| `PlacementInvariant.QuittingSawZero` | Assignment_1/Project1/gtthreads/src/gt_uthread.c:219-231 | a kthread about to quit read zero in some earlier state of the run |
| `PlacementInvariant.AllZombiesIff` | Assignment_1/Project1/gtthreads/src/gt_uthread.c:176-187 | all uthreads created so far are zombies if and only if the shared counter equals the number of kthreads that have yet to subtract a completion from it |
| `PlacementInvariant.SafeShutdown` | Assignment_1/Project1/gtthreads/src/gt_uthread.c:219-231 | when a kthread marks itself done, it read zero in an earlier state and all uthreads created until then are zombies; all uthreads are, if and only if the counter equals the number of kthreads yet to subtract a completion, in particular if none was created since |
| `Stranding.CreationBeforeTheMark` | Assignment_1/Project1/gtthreads/src/gt_uthread.c:219-231 | a concrete run in which a uthread created between the read and the mark is unfinished when the mark is set |
| `Stranding.StrandedForever` | Assignment_1/Project1/gtthreads/src/gt_kthread.c:292-303 | along every run, the queues of a kthread that is done and that no thief is about to look at only grow |
| `Stranding.StrandedIff` | Assignment_1/Project1/gtthreads/src/gt_pq.c:197-205 | the queues of a kthread that is done only grow in every continuation if and only if no kthread read its done flag before it was set and has yet to look at its active queue |
| `Stranding.LateUthreadIsStranded` | Assignment_1/Project1/gtthreads/src/gt_uthread.c:338-353 | a concrete run puts a later created uthread on the queue of a kthread that already quit, with no thief about to look |
| `Stranding.LateUthreadIsStolen` | Assignment_1/Project1/gtthreads/src/gt_pq.c:199-219 | a concrete run in which a thief that read the flag early takes such a uthread |
| `SoloCalls.CallIsSchedule` | Assignment_1/Project1/gtthreads/src/gt_uthread.c:139-237 | the small steps of one undisturbed call compose to the scheduler call of the sequential model and leave other kthreads alone |
| `SoloCalls.ScanTakesFromFirstVictim` | Assignment_1/Project1/gtthreads/src/gt_pq.c:197-230 | the small steps of an undisturbed steal loop take the best uthread of the lowest-numbered live kthread below the caller that has one, or lead to the swap with everything else unchanged |
| `Spinlocks.RunKeepsInv` | Assignment_1/Project1/gtthreads/src/gt_spinlock.c:22-60 | in every run without a write that clears a lock held by another, each lock word is set exactly while somebody holds the lock, and each kthread holds what its line says, or nothing at line 276 |
| `Spinlocks.ExclusionWithoutHoldAndWait` | Assignment_1/Project1/gtthreads/src/gt_pq.c:187-228 | in these runs no two kthreads hold one lock, a waiting kthread holds nothing, and the holder of an awaited lock is not itself waiting |
| `Spinlocks.IntrusionIff` | Assignment_1/Project1/gtthreads/src/gt_spinlock.c:51-60 | exclusion holds in every continuation of a step, short of further such writes, if and only if the step does not clear a set lock word that the kthread does not hold |
| `Spinlocks.ReachesUnlockWithoutLock` | Assignment_1/Project1/gtthreads/src/gt_pq.c:194-276 | a concrete run reaches the unlock of line 276 without holding the lock |
| `Spinlocks.WindowBreaksExclusion` | Assignment_1/Project1/gtthreads/src/gt_pq.c:254-276 | a concrete run of three kthreads ends with two holders of one lock |
| `RoundRobin.SharedInfo.FindTarget` | Assignment_1/Project1/gtthreads/src/gt_kthread.c:164-192 | ends within GT_MAX_CORES steps at the next present kthread after the group's last one and records it for that group only |
| `RoundRobin.Balanced` | Assignment_1/Project1/gtthreads/src/gt_kthread.c:164-192 | after any number of placements in one group the counts of any two present kthreads differ by at most one |
| `FileReplay.Apply` | Assignment_3/Project3/gtfs/src/gtfs.cpp:528-531 | bytes of the write in its range, old bytes elsewhere, zeros in a gap, length the larger end |
| `FileReplay.ReplayPointwise` | Assignment_3/Project3/gtfs/src/gtfs.cpp:102-126 | every byte of a replayed file comes from the last write covering it, else from the file, else is zero |
| `FileReplay.ReplayAbsorbs` | Assignment_3/Project3/gtfs/src/gtfs.cpp:102-126 | two files that differ only where the log writes and not beyond its end have the same replay |
| `FileReplay.PartialWriteAbsorbed` | Assignment_3/Project3/gtfs/src/gtfs.cpp:528-531 | any part of any logged write leaves the replay unchanged |
| `FileReplay.ReplayIsIdempotent` | Assignment_3/Project3/gtfs/src/gtfs.cpp:102-126 | replaying any prefixes any number of times and then the whole log equals replaying it once |
| `FileReplay.ReplayConcat` | Assignment_3/Project3/gtfs/src/gtfs.cpp:102-126 | replaying two logs in turn equals replaying their concatenation |
| `LogText.StoiOfToString` | Assignment_3/Project3/gtfs/src/gtfs.cpp:509-512 | decimal numbers up to INT_MAX are read back as printed |
| `LogText.DecimalDigits` | Assignment_3/Project3/gtfs/src/gtfs.cpp:509-512 | numbers are printed in decimal, most significant digit first |
| `LogText.RecordFields` | Assignment_3/Project3/gtfs/src/gtfs.cpp:509-512 | the bars of a printed record set off the file name, the offset and the length, in this order |
| `LogText.RecordParses` | Assignment_3/Project3/gtfs/src/gtfs.cpp:98-126 | exactly what the reader makes of one printed record followed by any text, for any data and any length up to the terminating zero |
| `LogText.CleanRecordParses` | Assignment_3/Project3/gtfs/src/gtfs.cpp:98-126 | a clean record is read back whole, and parsing goes on with the following text |
| `LogText.UncleanRecordMisparses` | Assignment_3/Project3/gtfs/src/gtfs.cpp:509-512 | a record that is not clean makes the log unreadable, reads back as another write, or adds entries, whatever follows |
| `LogText.NoRecordLost` | Assignment_3/Project3/gtfs/src/gtfs.cpp:98-126 | a readable log of any records has at least as many entries as records |
| `LogText.RoundTripIff` | Assignment_3/Project3/gtfs/src/gtfs.cpp:98-126 | a printed log parses to the synced writes in order if and only if every record is clean: its first line is not empty, only newlines follow that line, and the bytes end before the first bar or, without a bar, at the latest with the newline and a zero right behind it |
| `Recovery.SyncLogToFile` | Assignment_3/Project3/gtfs/src/gtfs.cpp:80-136 | the interleaved read-and-write loop equals parsing the whole log first and replaying it then |
| `Recovery.EntriesReplay` | Assignment_3/Project3/gtfs/src/gtfs.cpp:102-126 | replaying the entries of one file changes only that file, by the replay of its writes |
| `Recovery.TextRecovers` | Assignment_3/Project3/gtfs/src/gtfs.cpp:80-136 | recovery from the text of clean records equals the replay of their writes on the file |
| `Recovery.SyncAddsItsWrite` | Assignment_3/Project3/gtfs/src/gtfs.cpp:489-531 | a record logged and its bytes written: what the log stands for over the file gains exactly that write |
| `Recovery.BarIsLost` | Assignment_3/Project3/gtfs/src/gtfs.cpp:98-126 | a concrete record that is not clean: a sync writes three bytes and recovery writes three others over them |
| `Gtfs.GtfsFile.WriteFile` | Assignment_3/Project3/gtfs/src/gtfs.cpp:444-478 | appends to the pending list; file and log are unchanged |
| `Gtfs.GtfsFile.AbortWriteFile` | Assignment_3/Project3/gtfs/src/gtfs.cpp:550-577 | cuts out the first pending write with the same offset, length and address and nothing else, and nothing without a match; -1 exactly without a list; file and log are unchanged |
| `Gtfs.AbortGoesByAddress` | Assignment_3/Project3/gtfs/src/gtfs.cpp:561-574 | of two writes to the same place from different buffers, aborting the later removes the later |
| `Gtfs.GtfsFile.ReadFile` | Assignment_3/Project3/gtfs/src/gtfs.cpp:384-442 | the data of the least-indexed pending write at exactly this position and length; without one the bytes of the file, byte by byte, or nothing if the range passes its end |
| `Gtfs.GtfsFile.SyncWriteFile` | Assignment_3/Project3/gtfs/src/gtfs.cpp:480-548 | the bytes of the buffer stand at the offset and all other bytes stay; whatever records the log held, it holds one more, and replaying it over the new file gives what it gave over the old one with the write applied |
| `Gtfs.GtfsFile.CleanLog` | Assignment_3/Project3/gtfs/src/gtfs.cpp:138-196 | the file becomes what the log text recovers to, log and pending list become empty; an unparsable log stays |
| `Gtfs.SyncThenClean` | Assignment_3/Project3/gtfs/src/gtfs.cpp:138-196 | cleaning after a sync, over a log of clean records, leaves the file with all logged writes and the new one applied, and an empty log |
| `Gtfs.AbortUndoesIff` | Assignment_3/Project3/gtfs/src/gtfs.cpp:561-574 | with other writes after it, an aborted write disappears as if never issued if and only if the earlier writes contain the same write only in an unbroken tail |
| `Gtfs.AbortIsolation` | Assignment_3/Project3/gtfs/src/gtfs.cpp:397-408 | when no earlier write has the same triple, list and every read are as if the write had never been issued |
| `CrashRecovery.RunKeeps` | Assignment_3/Project3/gtfs/src/gtfs.cpp:489-542 | at the end of every run given with its actions, also amid a partial write or replay, the records logged since the last truncation replay to all synced writes, as long as no replay started with a record that is not clean in the log |
| `CrashRecovery.SyncIsLogThenWrite` | Assignment_3/Project3/gtfs/src/gtfs.cpp:489-542 | the two steps of an undisturbed sync change log and file as `GtfsFile.SyncWriteFile` does: one record more, its bytes at its offset, all other bytes kept |
| `CrashRecovery.CrashRefinement` | Assignment_3/Project3/gtfs/src/gtfs.cpp:80-136 | at the end of every run with crashes and syncs of any data, the logged records replay to the initial contents with the writes of all sync actions so far in order; the log text reads back as them if and only if its records are clean, and then recovery from the text gives these contents |
| `CrashRecovery.TruncatedOnlyAfterReplay` | Assignment_3/Project3/gtfs/src/gtfs.cpp:166-179 | whenever the log can be truncated the file already holds all committed writes |
| `CrashRecovery.SyncedWritesInFile` | Assignment_3/Project3/gtfs/src/gtfs.cpp:268-285 | between calls, if no sync or replay was cut off by a crash since the last complete replay, the file itself holds the writes of all sync actions, clean or not |
| `CrashRecovery.PendingSince` | Assignment_3/Project3/gtfs/src/gtfs.cpp:444-478 | since a restart or an emptied log exactly the issued writes are pending, in order, until one is aborted; syncs leave them pending |
| `Ring.HashKey` | Assignment_4/Project4/gtstore/src/client.cpp:148-158 | the loop computes the home node, a number below the number of nodes |
| `Ring.HomeMoves` | Assignment_4/Project4/gtstore/src/client.cpp:148-158 | the empty key is at node 0, and appending a character moves the home by its value around the ring while the sum is a nonnegative int |
| `Ring.FirstLiveIsNearest` | Assignment_4/Project4/gtstore/src/client.cpp:160-223 | the first live node of a window is the live node at the least ring distance, and none exists exactly if all live nodes lie outside |
| `Ring.Route` | Assignment_4/Project4/gtstore/src/client.cpp:341-414 | for every live set and every sound dead list, the request reaches the first live node of the window and fails exactly if there is none; every node reported dead is dead |
| `Ring.ReplicaRing` | Assignment_4/Project4/gtstore/src/manager.cpp:94-100 | for r <= n the replicas of a node are exactly the nodes at ring distance 1 to r-1, without repetition |
| `Ring.NextInLine` | Assignment_4/Project4/gtstore/src/manager.cpp:94-100 | when the first live node of a window fails, its own replica list leads to the next live node of the window |
| `Wire.StorageNode.StoreKeyValue` | Assignment_4/Project4/gtstore/src/storage.cpp:10-24 | the key maps to the pieces of the value text and no other key changes |
| `Wire.StorageNode.HandleClient` | Assignment_4/Project4/gtstore/src/storage.cpp:266-335 | a put stores, acknowledges and forwards; a get answers from the store and changes nothing; other messages do nothing |
| `Wire.StorageNode.HandleNode` | Assignment_4/Project4/gtstore/src/storage.cpp:357-383 | a replicate message stores its payload, other messages do nothing |
| `Wire.SpacedOut` | Assignment_4/Project4/gtstore/src/client.cpp:334-338 | the loop writes every value followed by a space |
| `Wire.ColonFreeKey` | Assignment_4/Project4/gtstore/src/storage.cpp:266-277 | a key without space, comma and colon cannot make a get look like a put |
| `Wire.PutParses` | Assignment_4/Project4/gtstore/src/client.cpp:419 | a node splits a put message back into key and value text |
| `Wire.GetParses` | Assignment_4/Project4/gtstore/src/storage.cpp:310-325 | a node recognises a get message and recovers its key, whatever the key |
| `Wire.ReplicateParses` | Assignment_4/Project4/gtstore/src/storage.cpp:367-374 | a node splits a replicate message back into key and value text |
| `Wire.ReplicasStoreTheSame` | Assignment_4/Project4/gtstore/src/storage.cpp:266-305 | after a put and its forwarded message, primary and replica store the same list under the key |
| `Wire.RoundTripIff` | Assignment_4/Project4/gtstore/src/client.cpp:269-297 | under a key without a comma, reading back yields the list that was put if and only if all values are nonempty and free of spaces and commas |
| `Wire.CommaKeyAnswers` | Assignment_4/Project4/gtstore/src/client.cpp:269-297 | under a key with a comma the answer contains a comma in a value or does not depend on what is stored |
| `Wire.KeyRoundTripIff` | Assignment_4/Project4/gtstore/src/client.cpp:269-297 | every good value list is read back after its put if and only if the key has no space, no comma and does not make the get contain "PUT:" |
| `Wire.StoredKeysWithoutSpace` | Assignment_4/Project4/gtstore/src/storage.cpp:266-277 | no message puts a key with a space into a store |
| `Wire.ForwardedStoresTheSame` | Assignment_4/Project4/gtstore/src/storage.cpp:280-305 | for any key, the forwarded message stores at a replica what the put stored |
| `Wire.PutThenGet` | Assignment_4/Project4/gtstore/src/storage.cpp:316-325 | for every key and list, the exchange through two nodes gives the answer of the abstract exchange at primary and replica; for keys the messages can carry it is the list that was put if and only if its values are good |
| `Replication.PutKeepsInv` | Assignment_4/Project4/gtstore/src/storage.cpp:266-305 | after any put every live node of each key's window settles on the values last put while it was alive |
| `Replication.PutIsRead` | Assignment_4/Project4/gtstore/src/storage.cpp:266-277 | after a put that reaches a node, gets of its key return its values and gets of other keys what they did; one that reaches none changes nothing |
| `Replication.PutGoesToReplicas` | Assignment_4/Project4/gtstore/src/storage.cpp:277-300 | a put changes one store, and exactly the queues of the live nodes on the list the manager computed for that node |
| `Replication.DrainKeepsInv` | Assignment_4/Project4/gtstore/src/storage.cpp:357-375 | applying replication messages in order keeps what every node settles on |
| `Replication.FailKeepsInv` | Assignment_4/Project4/gtstore/src/client.cpp:358-451 | after a failure that hands its keys over, every live node of each window still settles on the acknowledged values |
| `Replication.FailIsSafeIff` | Assignment_4/Project4/gtstore/src/client.cpp:358-451 | after a failure, gets return the acknowledged values in every continuation with quiet failures if and only if the nodes that take over have no pending message for the keys they take over |
| `Replication.DrainsToStale` | Assignment_4/Project4/gtstore/src/storage.cpp:357-375 | a node that answers for a key while a message with other values for it is pending ends up serving those values |
| `Replication.QuietHandsOver` | Assignment_4/Project4/gtstore/src/storage.cpp:357-375 | an empty replication queue at the next live replica is enough for that |
| `Replication.AcknowledgedPutsSurvive` | Assignment_4/Project4/gtstore/src/client.cpp:358-451 | at the end of every run with quiet failures, a get returns what the put actions of the run acknowledged, as long as one node of the window lives, and fails otherwise |
| `Replication.LastPutIsRead` | Assignment_4/Project4/gtstore/src/client.cpp:358-451 | read off the actions: a get returns the values of the last put of its key made while some node of its window was alive |
| `Replication.UnansweredIsNotFound` | Assignment_4/Project4/gtstore/src/client.cpp:358-451 | a key no put of which reached a live node is not found |
| `Replication.ReplicasCatchUp` | Assignment_4/Project4/gtstore/src/storage.cpp:357-375 | in every such run each live node of the window holds the acknowledged values once its queue is applied |
| `Replication.UnquietFailureLosesPut` | Assignment_4/Project4/gtstore/src/storage.cpp:266-305 | with two nodes, a failure right after an acknowledged put loses it |
| `Slots.FindAndSet` | Assignment_2/Project2/src/client/client.c:128-174 | the scan claims the lowest free slot with the path as given and, for a path that is base, first "/input/" and name, the output path base, "/output/", name and "_compressed"; or it changes nothing and fails exactly if all slots are used |
| `Slots.OutputIsSibling` | Assignment_2/Project2/src/client/client.c:138-165 | the output path replaces the first "/input/" by "/output/" and appends "_compressed" |
| `SlotOwnership.StepCounts` | Assignment_2/Project2/src/server/server.c:134-152 | messages and completed compressions of each request are conserved by every step except its own send and completion |
| `SlotOwnership.RunKeepsInv` | Assignment_2/Project2/src/client/client.c:194-239 | ownership, message and path invariants hold in every reachable state |
| `SlotOwnership.SlotsHaveOneOwner` | Assignment_2/Project2/src/client/client.c:128-192 | a slot is used exactly if some request owns it, the owner is unique, and a used slot has at most one message, a free one none |
| `SlotOwnership.WorkersReadTheirRequest` | Assignment_2/Project2/src/server/server.c:114-132 | the paths a worker reads without the lock, now or earlier, are those its request stored |
| `SlotOwnership.HandledExactlyOnce` | Assignment_2/Project2/src/client/client.c:176-192 | no request is handled twice; when its waiter can free the slot it was handled once and no message of it is left |
| `SlotOwnership.HandledAsSubmitted` | Assignment_2/Project2/src/server/server.c:114-132 | read off the actions: every compression carried out is of a submitted path, and writes to the sibling output folder of that path |

## Left out

- Signal stacks, sigsetjmp and siglongjmp, timers, clone and CPU affinity: a scheduler call is one event or a series of steps.
- Memory ordering and inline assembly: the bit operations and the exchange have their intended meaning.
- Group scheduling behind the early return of `sched_find_best_uthread_group`, matrix workload, CSV output, plots: not scheduling state.
- The difference between cpu time and execution time, and 32-bit wrap-around of counters and credits.
- Float rounding in the credit charge: the quotient of microseconds is exact.
- Runqueues.Runqueue.Add: cells of the table are sequences of uthread values; `LinkedTable` proves the same contents for linked cells, and the masks and counters are not repeated there.
- Starvation.QueuedUthreadRuns: one kthread without creation or stealing, which change the load the bound is computed from.
- The momentary insertion of a stolen uthread into the thief's own queue: it is removed again in the same critical section, and the model takes both as one step.
- Spinlocks.ExclusionWithoutHoldAndWait: one flag per kthread stands for the queue contents; the plain locking of zombie lists and of the shared counter is not part of the paths; the queue accesses of lines 262 to 275 without the lock count as holding nothing.
- GTFS verbose printing, fcntl locks, several processes, file creation and removal, torn log records, the unimplemented n_bytes calls, negative offsets.
- LogText.RoundTripIff: file names are free of the bar character and newline; a length beyond the terminating zero reads undefined memory in the original.
- Gtfs.GtfsFile.SyncWriteFile: the data buffer is not changed by the caller between write and sync.
- CrashRecovery.CrashRefinement: says nothing after a replay was started with a record in the log that is not clean; a later write over the same range may still repair the file.
- Sockets, buffer sizes, the manager's notification loop and the parsing of the manager's node table.
- Ring.ReplicaRing: membership is stated for r <= n; for larger r the list wraps around and names nodes twice.
- Wire.KeyRoundTripIff: speaks of all good value lists at once; under a bad key a single list may come back by coincidence.
- TinyFile compression, queue and shared-memory setup, unregistering, teardown, and the failing paths of claiming (no "/input/" in the path, mkdir errors).
- Deadlock and progress of TinyFile and of several kthreads: only safety is proved there.
