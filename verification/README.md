# zsim: verified models of the simulator's stateful core

zsim is a multicore simulator; this fork adds first-time-miss (FTM) owner bits and a CEASER-style rekeyed cache.
The project models the parts of it whose correctness depends on whole runs, and proves what each of them is for.
Every model takes the form of its source: classes whose methods update fields and arrays with the source's loops,
proved against specification functions, and step-by-step state machines where threads interleave.

* **MESI coherence** (`MesiTree.dfy`, `MesiSteps.dfy`, `MesiOutcomes.dfy`, `MesiOwners.dfy`, `Mesi.dfy`). One cache
  line in a tree of inclusive caches of any shape and depth, with memory above the root. A cache's request and its
  service by the parent are separate steps, so invalidations may hit a cache between the two, while its own request
  waits further up, and at every level at once. `Hierarchy` has the bottom and top controllers' operations,
  `invalidate` recursing down the tree over loops of sharers. The simulator moves no data, only flags and requests;
  here each copy and memory also have a version, the number of the write that made it, which goes up with a raised
  writeback flag or a PUTX and down with an answer. Each call computes an exact function of the old state, versions
  included; the lemmas prove that these functions keep the directory invariant and lose no write, over all runs, and
  that every request is answered in the end. What each step leaves behind is said once more of the states before and
  after alone (`MesiOutcomes.dfy`): who gets the line, in what state, who is listed, and what everybody else keeps.
  `MesiOwners.dfy`: the fork's owner bits.
* **Cache arrays.** `ZWalk.dfy`/`ZArray.dfy`: the zcache's breadth-first walk, the chain of moves it leads to, and
  lookups before and after. `Rekeying.dfy`/`Ceaser.dfy`: the CEASER array while it is re-hashed set by set, with the
  coherence state, the directory entries and the children's copies. `IdealLru.dfy` over `IntrusiveList.dfy`: the fully
  associative LRU array. All are compared with one plain map from addresses to lines (`AddressMap.dfy`).
  `IdealPart.dfy`: the partitioned replacement policy, with an LRU list for every partition.
* **Barrier** (`Barrier.dfy`). The join/leave barrier with its parallelism limit, run list, cleanup pass, shuffle and
  same-phase rejoin. Every call runs under one lock, so each is one step.
* **DDR controller.** `ActWindow.dfy`: the tFAW window. `DdrClock.dfy`: the two clock domains. `DdrQueues.dfy`: the
  FR-FCFS lists. `DdrFairness.dfy`: how far row hits may go ahead of older requests, over runs of a list.
  `DdrTiming.dfy`: what issuing a request does to the banks, and the timing constraints of everything ever issued.
  `DdrMemory.dfy`: the controller, its scheduler, its overflow queue and its scheduling events.
* **Locks** (`FutexLock.dfy`, `RwMutex.dfy`). The three-valued futex lock and the read-write mutex with atomic
  downgrade, as state machines over any number of threads, one atomic access a step.
* **Lookahead partitioner** (`Lookahead.dfy`). The greedy allocator, in exact arithmetic.

`Sets.dfy`, `Arithmetic.dfy`, `Coherence.dfy` and `Options.dfy` hold what several models share. In large
methods, `hide` keeps the bodies of predicates that a proof only passes along out of the solver's sight.

## Where the code and its documentation disagree

* `ActWindow::addActivation` (src/ddr_mem.h:64-73) promises to reorder activations. When the new one is older than all
  but the oldest entry, the loop reads the slot it has just overwritten and the newest entry ends up first.
  `ActWindow.SortedKeptIff` says exactly when the order survives; tFAW holds anyway (`ActWindow.AtMostSizeInAnyWindow`),
  because an entry that is too new only delays activations.
* `tick` (src/ddr_mem.cpp:442-449) computes when the request from the overflow queue could issue, stores that in
  `minSchedCycle`, and then goes by `minQueuedSchedCycle`, which it leaves as it was. The wake-up is the earlier of the
  old one and the first cycle at which the data bus is free (`DdrMemory.Controller.AdmitOverflow`): never late, and
  early exactly if that moves it and the row takes longer (`DdrMemory.Controller.TooEarlyIff`, with
  `DdrMemory.WokenTooEarly` as a run).
* `leave` may be called on a thread that still waits. If that thread has never been woken since it came online, its
  `lastIdx` is whatever it was, and a rejoin in the same phase can fail the assert at src/barrier.h:137
  (`Barrier.LeaveBeforeFirstTurn`). A thread that was woken since may leave at any time; for another, a shuffle or old
  memory may have set the index right, and `Barrier.DepartedKeepsBase` says that this is what it takes.
* `futex_haswaiters` (src/locks.h:215-220) promises no false positives. It gives a holder one exactly if the holder
  acquired by exchange or a timed thread gave up meanwhile (`FutexLock.HasWaitersIsFalse`);
  `FutexLock.HasWaitersFalsePositive` and `FutexLock.HasWaitersAfterTimeout` are runs to the two cases.
* `computeBestPartitioning` gives every partition `minAlloc` but charges it once (src/lookahead.cpp:74-78), so it hands
  out more than `buckets` unless there is one partition or no minimum (`Lookahead.ComputeBestPartitioning`).

## Model

| member | source | states |
|---|---|---|
| MesiTree.RaceCheckRepairs | src/coherence_ctrls.h:402-429 | in every reachable state the race check's asserts and its panic are unreachable; it skips exactly the writebacks of lines invalidated meanwhile, turns a PUTX into a PUTS exactly after a downgrade, and what it passes on fits the requester's state |
| MesiTree.Inclusion | src/coherence_ctrls.cpp:459-533 | a valid copy has valid copies in all caches above it, and an exclusive copy exclusive ones |
| MesiTree.SingleWriter | src/coherence_ctrls.cpp:411-533 | if a cache holds the line in E or M, every cache in another branch is invalid |
| MesiTree.SubStates | src/coherence_ctrls.cpp:411-445 | below an invalid copy everything is invalid with an empty directory, and below a shared one nothing is exclusive, so invalidations may stop there |
| MesiTree.HitBelowAndSelf | src/coherence_ctrls.h:705-711 | invalidating the listed sharers' subtrees and then the cache itself equals invalidating its whole subtree |
| MesiTree.StaleMeansDirtyBelow | src/coherence_ctrls.cpp:306-339 | a valid copy that misses the last write has a modified copy strictly below it, along the directory's exclusive sharers |
| MesiTree.LastWriteIsSomewhere | src/coherence_ctrls.h:578-656 | no write is lost: if memory misses the last write some cache is modified, a stale valid copy has a modified one below it, and a valid copy without sharers always has the last write's version |
| MesiTree.MergedIsLast | src/coherence_ctrls.cpp:306-313 | the writeback flag of invalidations below a cache comes with the last write's data, and without it the cache's own data is unchanged |
| MesiTree.FetchedIsLast | src/coherence_ctrls.h:705-711 | after the invalidations below it, a valid copy has the last write's version |
| MesiTree.DirtyIsReached | src/coherence_ctrls.h:705-711 | the writeback flag of a subtree is raised exactly by a modified copy among those that the invalidations reach, or by the root's own |
| MesiSteps.HitKeepsInv | src/coherence_ctrls.cpp:411-445 | invalidations below any cache keep every directory, state and pending-request invariant, whatever requests wait there |
| MesiSteps.HitData | src/coherence_ctrls.cpp:411-445 | every copy that invalidations reach and leave valid ends up with the last write's version, and the cache that sent them does if they raise the flag |
| MesiSteps.HitKeepsData | src/coherence_ctrls.cpp:306-313 | with the cache made modified when the writeback flag comes back, invalidations below it lose no write and leave it with the last one |
| MesiSteps.GetsKeepsInv | src/coherence_ctrls.cpp:479-504 | answering a GETS, in E or in S after a downgrade, keeps the invariant |
| MesiSteps.GetxKeepsInv | src/coherence_ctrls.cpp:505-527 | answering a GETX, an upgrade or not, keeps the invariant |
| MesiSteps.PutKeepsInv | src/coherence_ctrls.cpp:464-478 | answering a PUTS or PUTX keeps the invariant, and the count of sharers cannot underflow |
| MesiSteps.PutKeepsData | src/coherence_ctrls.cpp:187-200 | a PUTX brings the last write to the parent, and a PUTS had no write to lose |
| MesiSteps.EnteredKeepsData | src/coherence_ctrls.cpp:480-527 | a child that is given the line by an up-to-date parent is up to date |
| MesiSteps.AnsweredKeepsData | src/coherence_ctrls.h:619-656 | no answer to any request loses a write |
| MesiSteps.WriteKeepsData | src/coherence_ctrls.cpp:285-294 | a silent write leaves every other valid copy on a path to the writer, so the write can be found again |
| MesiSteps.Answered | src/coherence_ctrls.h:619-656 | an answered requester ends in S or E for a GETS, in M for a GETX, invalid for a PUT, with the invariant kept everywhere |
| MesiSteps.FetchingKeepsInv | src/coherence_ctrls.cpp:201-284 | sending a request on while a child waits keeps the invariant |
| MesiSteps.StillAwaits | src/coherence_ctrls.cpp:184-304 | when a cache's own request is answered it can answer the child for whose sake it was sent, whatever invalidations did to that child meanwhile |
| MesiSteps.EvictingKeepsInv | src/coherence_ctrls.h:578-583 | evicting a line keeps the invariant, and dirty data from below finds the line held exclusively, as the source asserts |
| MesiSteps.EvictingKeepsData | src/coherence_ctrls.h:578-583 | an eviction loses no write |
| MesiSteps.MemoryKeepsData | src/mem_ctrls.cpp:31-45 | memory gets the data of a PUTX, and whatever it gives out is the last write |
| MesiSteps.ReadersSeeTheLatestWrite | src/coherence_ctrls.h:544-656 | on every run of requests, answers, writes and evictions, in any order, what a cache without children may read is the latest write of the run, and memory has it when no cache is modified |
| MesiSteps.ServedMakesProgress | src/coherence_ctrls.h:544-563 | taking up a request brings the total way that requests have to go down, whatever it leads to, so without new requests all are answered |
| MesiSteps.FromMemoryMakesProgress | src/mem_ctrls.cpp:31-45 | so does an answer from memory |
| MesiSteps.SomeRequestCanBeServed | src/coherence_ctrls.h:544-563 | while any request is pending, one of them can be taken up by its parent or by memory |
| MesiOutcomes.GetsChain | src/coherence_ctrls.cpp:479-504 | a GETS that need not be sent on gives the line to the requester and to every cache behind it down to the one where the request began: each is a listed sharer, in E exactly if its parent listed nobody, may hand out exclusivity, and was not refused, and else in S; former sharers stay listed, every other valid copy below the parent ends in S, dirty data from there makes the parent modified, and nothing outside the parent's subtree changes |
| MesiOutcomes.GetxChain | src/coherence_ctrls.cpp:505-527 | a GETX that need not be sent on makes the parent, the requester and every cache behind it modified, each the only sharer of its parent; all other copies below the parent are gone, except below the cache where the request began |
| MesiOutcomes.ServedIsTakenUp | src/coherence_ctrls.h:544-563 | what becomes of a request, by its kind and the states before: sent on and still pending, with the parent asking for the same and serving it; answered as above, with it and all behind it no longer pending; a PUT leaves the requester invalid and delisted, and the parent modified with its data if it was; a PUT of a line invalidated meanwhile changes nothing else |
| MesiOutcomes.FromMemoryIsTakenUp | src/mem_ctrls.cpp:31-45 | memory gives E unless refused, or M, to the cache next to it, and so on down to where the request began; after a PUT that cache is invalid, and memory has the data of a PUTX |
| MesiOutcomes.EvictingIsEvicted | src/coherence_ctrls.cpp:105-182 | an eviction leaves every copy below invalid and delisted; a PUTX is pending exactly if the line or a copy below it was modified, a PUTS exactly if it was otherwise valid, nothing if it was invalid; all else is as it was |
| MesiOutcomes.EvictionCompletes | src/coherence_ctrls.cpp:180 | the request of an evicted line stays pending, whatever else happens, until the parent or memory takes it up, and then the line is invalid, as the source asserts |
| MesiOwners.OwnersRecordWhoFetched | src/coherence_ctrls.cpp:479-527 | over every event, a cache's owner bits, which checkSameOwner reads, are those it had and those of the children whose GETS or GETX has just been answered; nothing clears one |
| Mesi.Hierarchy.SendInvalidates | src/coherence_ctrls.cpp:411-445 | exactly the listed sharers' subtrees are hit, the number sent equals numSharers, and the flag comes back set exactly if it was set or a modified copy was hit |
| Mesi.Hierarchy.Invalidate | src/coherence_ctrls.h:705-711 | exactly the subtree is invalidated or downgraded, with the same exact flag |
| Mesi.Hierarchy.AnswerGets | src/coherence_ctrls.cpp:479-504 | the child is a listed sharer in E exactly if nobody was listed, the parent has exclusivity and E is not refused, and else in S, with the former sharers listed still and an exclusive one downgraded; the asserts on the way hold |
| Mesi.Hierarchy.AnswerGetx | src/coherence_ctrls.cpp:505-527 | the child ends in M as the one sharer of a modified parent, and every other copy below the parent is gone, except below the child |
| Mesi.Hierarchy.AnswerPut | src/coherence_ctrls.cpp:464-478 | the child ends invalid and delisted, and the parent modified with its data if it was modified; the line is present in the parent, so inclusion was not lost |
| Mesi.Hierarchy.Serve | src/coherence_ctrls.h:544-563 | an access with its race check: skipped, sent on, or answered down to the cache where it began, with the outcome of ServedIsTakenUp; no assert or panic can fail |
| Mesi.Hierarchy.ServeFromMemory | src/mem_ctrls.cpp:31-45 | memory answers with the outcome of FromMemoryIsTakenUp |
| Mesi.Hierarchy.Issue | src/coherence_ctrls.cpp:201-284 | a miss or an upgrade is pending with the cache's present state, and nothing else changes |
| Mesi.Hierarchy.Evict | src/coherence_ctrls.cpp:105-182 | an eviction invalidates and delists all copies below, and asks to be put back with a PUTX exactly if it or one of them was modified, with a PUTS if it was otherwise valid |
| Mesi.Hierarchy.Write | src/coherence_ctrls.cpp:285-294 | a silent E to M transition with a new version; nothing else changes |
| ZWalk.HashedOk | src/cache_arrays.cpp:306-308 | positions of different ways never coincide |
| ZWalk.OneWayBack | src/cache_arrays.cpp:319-337 | exactly one way of a stored address leads back to its own line, so each expansion adds exactly ways - 1 candidates |
| ZWalk.FirstParent | src/cache_arrays.cpp:352-370 | the parent of the first candidate with its line is again the first with its line, so the swap chain never repeats a position |
| ZWalk.HopBound | src/cache_arrays.cpp:265 | the swap chain fits its buffer of cands / ways + 2 |
| ZWalk.LinkedIsChain | src/cache_arrays.cpp:365-371 | following parents from the victim gives positions through which every line can move to another home of its address |
| ZWalk.InsertKeepsConsistent | src/cache_arrays.cpp:380-395 | after the moves, positions and lines still correspond one to one, every line sits at a home of its address, and lookups see the old map with the victim rebound |
| ZArray.ZArrayObject.Lookup | src/cache_arrays.cpp:276-294 | finds exactly the addresses of the map, at their lines |
| ZArray.ZArrayObject.Expand | src/cache_arrays.cpp:315-339 | one expansion adds exactly ways - 1 candidates and writes inside the buffer |
| ZArray.ZArrayObject.WalkFrom | src/cache_arrays.cpp:296-343 | the walk ends, with exactly cands candidates or with a free line among those it met |
| ZArray.ZArrayObject.Preinsert | src/cache_arrays.cpp:296-378 | any choice of victim leaves a usable chain of swaps in the buffer |
| ZArray.ZArrayObject.Postinsert | src/cache_arrays.cpp:380-395 | lookups lose the victim's address, gain the new one, and find all others as before |
| Rekeying.FlatOk | src/cache_arrays.cpp:150-153 | set * assoc + way numbers the lines one to one |
| Rekeying.MovedKeepsBase | src/coherence_ctrls.h:607-611 | evicting a line and moving another one over it keeps addresses unique, directories well formed, and the sharer bits equal to the children's copies |
| Rekeying.SweepMoves | src/coherence_ctrls.h:596-614 | during a set's refresh, a moved line is where the target hash wants it, and all lines outside the set are already where they belong after the switch |
| Rekeying.RefreshProgress | src/coherence_ctrls.h:586-617 | whatever the random choices, after any number of ways only overwritten addresses are lost, and every other line kept its state and directory entry |
| Rekeying.StepRefreshesWay | src/coherence_ctrls.h:592-613 | one way: if its line hashes to another set now, the line's address, state and directory entry are at the chosen line of that set, its old line is empty, and no third line changed; otherwise nothing did |
| Rekeying.LostIsFew | src/coherence_ctrls.h:586-617 | a refresh loses at most one address for each way |
| Rekeying.RefreshKeepsLookups | src/coherence_ctrls.h:586-617 | after the refresh and the switch of a set, every resident address is where a lookup searches |
| Rekeying.SwapKeepsLookups | src/cache.h:98-101 | swapping the hashes after a full sweep changes the set of no address |
| Ceaser.CeaserCache.Lookup | src/cache_arrays.cpp:149-160 | finds exactly the resident addresses, at any point between refreshes |
| Ceaser.CeaserCache.Allocate | src/cache_arrays.cpp:199-214 | a miss clears one line of the set the address belongs to now and puts the address there; no other line changes |
| Ceaser.CeaserCache.MoveLine | src/coherence_ctrls.h:607-611 | the line at the new place is evicted, and the moved one arrives there with its state and directory entry; the array's asserts on both addresses hold |
| Ceaser.CeaserCache.EvictAddr | src/coherence_ctrls.cpp:366-380 | every sharer drops the address and the entry is cleared; an empty line has no sharers, so the panic is unreachable. That a sharer has the line, as the child asserts, is required here of the children's contents, which the model keeps beside the directory; every step of the cache is proved to keep the two alike |
| Ceaser.CeaserCache.MoveEntry | src/coherence_ctrls.cpp:382-409 | the whole directory entry moves, owner bits included |
| Ceaser.CeaserCache.RefreshWay | src/coherence_ctrls.h:592-613 | the loop body moves the line of the way over one line of its new set, with its state and entry, exactly if it hashes there, and touches no third line |
| Ceaser.CeaserCache.ProcessRefresh | src/coherence_ctrls.h:586-617 | every way of the set is refreshed in turn; the set is switched, all addresses but those overwritten, at most one a way, stay findable, with their states and entries |
| Ceaser.CeaserCache.Refresh | src/cache.h:92-107 | one driver step: the next set, or the hash swap after the last |
| IdealLru.RecencyIsLastUseOrder | src/ideal_arrays.h:81-111 | moving each touched line to the front keeps all lines in order of last use |
| IdealLru.IdealLruArray.Lookup | src/ideal_arrays.h:81-91 | finds exactly the mapped addresses, and a touch moves the line to the front |
| IdealLru.IdealLruArray.Preinsert | src/ideal_arrays.h:93-97 | the victim is the least recently touched line |
| IdealLru.IdealLruArray.Postinsert | src/ideal_arrays.h:99-111 | the line's old address is unmapped, the new one mapped, no other line changes, and the line is the most recent |
| IdealPart.ReusedKeepsLists | src/ideal_arrays.h:182-207 | moving a line to the front of a list keeps every line in its partition's list only, all lists in order of use, and all sizes right |
| IdealPart.LastIsLeast | src/ideal_arrays.h:233-235 | the back of a partition's list is its least recently used line |
| IdealPart.DiffCompares | src/ideal_arrays.h:219 | the proportional excess over the target is positive exactly above the target, and compares as the cross-multiplied sizes do |
| IdealPart.IdealPartPolicy.Update | src/ideal_arrays.h:182-207 | a hit keeps the line's partition, and a replaced line joins the requester's; sizes and lists keep agreeing |
| IdealPart.IdealPartPolicy.Rank | src/ideal_arrays.h:213-236 | the victim is the least recently used line of the requester's partition if no partition exceeds its target, and else of the first one that exceeds it most in proportion, never an empty one, as asserted |
| IntrusiveList.InList.PushFront | src/intrusive_list.h:88-101 | the linked nodes are the old ones with the new one in front |
| IntrusiveList.InList.PushBack | src/intrusive_list.h:103-115 | the same at the back |
| IntrusiveList.InList.PopFront | src/intrusive_list.h:117-124 | the first node leaves, unlinked |
| IntrusiveList.InList.PopBack | src/intrusive_list.h:126-133 | the last node leaves, unlinked |
| IntrusiveList.InList.Remove | src/intrusive_list.h:136-143 | any node leaves, unlinked, and the others keep their order |
| Barrier.WaiterImpliesRunner | src/barrier.h:124-198 | after any call, a waiting thread implies a running one |
| Barrier.AfterWakeSpec | src/barrier.h:256-273 | waking stops at the parallelism limit or the end of the list, wakes exactly the waiting threads it passes, and keeps all counters and the list |
| Barrier.WokenOncePerPhase | src/barrier.h:256-273 | a thread woken in this phase is not woken again in it |
| Barrier.EndDetected | src/barrier.h:201-206 | checkEndPhase sees the end exactly when nobody runs, nobody is left to serve, and somebody has not left |
| Barrier.PhaseEndMeansAllRan | src/barrier.h:201-211 | when a phase ends, every thread still in the barrier was woken in it |
| Barrier.CleanupSpec | src/barrier.h:216-235 | the cleanup takes exactly the threads that left off the list and keeps everybody else on it once |
| Barrier.CleanedExactly | src/barrier.h:216-235 | after the cleanup all threads that left are OFFLINE, and without it nobody's state has changed |
| Barrier.SwapKeepsBase | src/barrier.h:241-251 | a swap of the shuffle keeps the list, its indices and the counters right |
| Barrier.JoinNeverEndsPhase | src/barrier.h:124-146 | join never ends a phase |
| Barrier.DepartedKeepsBase | src/barrier.h:166-178 | leaving keeps the invariant exactly if the remembered run-list index is right, which it is for every thread woken since it was last OFFLINE |
| Barrier.LeaveBeforeFirstTurn | src/barrier.h:132-137 | a thread that leaves before its first turn can rejoin against the wrong index |
| Barrier.NewPhaseStarts | src/barrier.h:207-253 | after cleanup and shuffle the new phase has the same threads, none of them woken |
| Barrier.SyncEnds | src/barrier.h:181-188 | sync ends the phase exactly when it was the last |
| Barrier.BarrierObject.CleanUp | src/barrier.h:216-235 | the loop computes the cleanup, and its assert on leftThreads holds |
| Barrier.BarrierObject.CheckRunList | src/barrier.h:256-273 | the loop computes the wake-ups; the wake-up race panic cannot happen |
| Barrier.BarrierObject.CheckEndPhase | src/barrier.h:201-254 | a finished phase is followed by a new one with the same threads: in one phase of 32 exactly those that left go OFFLINE, in the others no state changes, and the list is kept as it was if all on it can run at once; otherwise nothing happens |
| Barrier.BarrierObject.Join | src/barrier.h:124-152 | a thread waits or runs again, the assert on its index holds, no phase ends |
| Barrier.BarrierObject.Leave | src/barrier.h:166-178 | a running thread, and any thread woken since it came online, leaves with the barrier staying live; any other does exactly if its index happens to be right; of the others, only waiting ones may be woken, and only when a phase ends may those that left go OFFLINE |
| Barrier.BarrierObject.Sync | src/barrier.h:181-188 | a thread waits, for the next phase unless it starts at once, counts as woken since it came online, and the barrier stays live; of the others, only waiting ones may be woken, and only when a phase ends may those that left go OFFLINE |
| ActWindow.InsertedContents | src/ddr_mem.h:59-74 | the window loses its first entry and gains the activation, in every case |
| ActWindow.SortedKeptIff | src/ddr_mem.h:62-74 | the window stays sorted exactly if the activation is not older than all but the oldest entry |
| ActWindow.OlderThanTheRest | src/ddr_mem.h:66-71 | a window that loses its order |
| ActWindow.AtMostSizeInAnyWindow | src/ddr_mem.h:40-60 | any run of activations that respects the first entry puts at most as many as the window holds into any tFAW cycles |
| ActWindow.ActWindowObject.AddActivation | src/ddr_mem.h:59-74 | the circular buffer's loop computes the insertion, the overwritten slot included |
| DdrClock.MatchingRoundTrip | src/ddr_mem.h:250-258 | a memory cycle translated to a matching system cycle translates back, and the system cycle is not 0 |
| DdrClock.EventHitsItsCycle | src/ddr_mem.cpp:336-339 | an event for a memory cycle, put off to the present if need be, finds just that memory cycle |
| DdrClock.ResponseNotInThePast | src/ddr_mem.cpp:606-607 | responses are never in the past |
| DdrClock.ResponseIsClose | src/ddr_mem.h:250-251 | nor late: translated back, a response comes one or two memory cycles later |
| DdrQueues.QueuedKeepsList | src/ddr_mem.cpp:384-419 | queueing keeps arrival order within a row, a positive number on everybody who stands ahead of an older request, the numbering of row-hit runs, and its limit |
| DdrQueues.PlacedWithItsRow | src/ddr_mem.cpp:384-419 | a request goes right behind the last of its row with the next number if that one is below the limit, and else to the back: numbered on from the open row's hits if the list is empty and they are below the limit, or else 0 |
| DdrQueues.RunsAreBounded | src/ddr_mem.cpp:384-419 | consecutive requests that all stand ahead of one older request are of one row and no more than rowHitLimit |
| DdrQueues.JoinedKeepsSide | src/ddr_mem.cpp:302-319 | the arrival queue and the banks' lists go on holding the same requests |
| DdrQueues.LeftKeepsSide | src/ddr_mem.cpp:627-629 | so they do when the first request of a bank is served |
| DdrQueues.SomeFirst | src/ddr_mem.cpp:516-534 | while anything is queued, some queued request heads its bank's list, so the scan finds a cycle to wake up at |
| DdrFairness.JoinedIsAStep | src/ddr_mem.cpp:302-319 | an arrival at the controller is a step of its bank's list, on which the next two theorems rest, and of no other |
| DdrFairness.LeftIsAStep | src/ddr_mem.cpp:627-629 | and so is a service |
| DdrFairness.OvertakersAreFew | src/ddr_mem.cpp:384-419 | over any run of arrivals and services of a bank's list, at most rowHitLimit younger requests of any row ever stand ahead of a waiting request |
| DdrFairness.RowRunsAreShort | src/ddr_mem.cpp:384-419 | over any run of a bank with one list, refreshes included: after one command, those for requests that are each younger than another one waiting in the list all go to its row and are at most rowHitLimit, hits counted on from the open row |
| DdrTiming.IssueKeepsTiming | src/ddr_mem.cpp:549-599 | after every request, over all commands so far: bursts do not overlap, reads wait for tWTR, column commands for tRCD, activations of a bank for tRAS + tRP, tRRD, and the tRTP or tWR of its commands, and of a rank for tFAW; the bank's commands advance, as asserted |
| DdrTiming.RefreshKeepsTiming | src/ddr_mem.cpp:634-653 | a refresh, which is logged with its start and end, keeps all this and stays clear of every command so far |
| DdrTiming.NothingDuringRefreshes | src/ddr_mem.cpp:634-653 | over any run, no activation and no column command falls into the tRFC cycles between the start and the end of any refresh |
| DdrTiming.ReadsWaitForWrites | src/ddr_mem.cpp:549-556 | over any run, a read comes tWTR or more after the burst of every write before it |
| DdrTiming.ActivationsSpread | src/ddr_mem.cpp:568-576 | at most four activations of a rank fall into any tFAW cycles, and two of a bank are tRAS + tRP, and tRRD, apart |
| DdrTiming.CommandsFindTheirRow | src/ddr_mem.cpp:549-599 | the last activation of a bank before any of its column commands was made for the command's row, at least tRCD earlier, and the next one waits for the precharge |
| DdrTiming.PrechargesWaitForData | src/ddr_mem.cpp:587-594 | over any run, refreshes or not: a later activation of a bank comes tRP or more after its earlier reads are over by tRTP and its earlier writes by tWR after the end of their burst |
| DdrTiming.IssuedAtOnce | src/ddr_mem.cpp:549-582 | the activation and the column command of a request are issued at the very first cycle that the constraints allow |
| DdrTiming.ReadyIsIssuable | src/ddr_mem.cpp:470-489 | findMinCmdCycle gives exactly the first cycle at which, but for the data bus, the request may issue; a request served then, with the bus free and nothing to turn around, issues at once |
| DdrTiming.IssuedDoes | src/ddr_mem.cpp:549-599 | issuing logs one column command, for the request's bank, row and direction, and an activation exactly on a miss, each at the first cycle allowed; the bank may be precharged from the first cycle on at which row and data allow it; no other bank or rank changes |
| DdrTiming.ActivatesAfterRefresh | src/ddr_mem.cpp:634-653 | after a refresh all banks are closed, and may be activated again exactly when it is over |
| DdrMemory.Controller.WaitingRequestsAreWokenUp | src/ddr_mem.cpp:93-148 | while any request waits, in a queue or the overflow, exactly one event is queued, and it will find the controller at the cycle it waits for |
| DdrMemory.Controller.FindPlace | src/ddr_mem.cpp:384-419 | the backward walk finds the place and number that PlacedWithItsRow describes |
| DdrMemory.Controller.Queue | src/ddr_mem.cpp:345-423 | a request joins its queue and its bank's list |
| DdrMemory.Controller.FindReady | src/ddr_mem.cpp:516-543 | the oldest first-in-bank request that may issue, or exactly the first cycle at which one may |
| DdrMemory.Controller.Command | src/ddr_mem.cpp:549-599 | finds the first cycle at which the column command may issue, and on a miss the first one for the activation, and what the bank remembers of them |
| DdrMemory.Controller.Issue | src/ddr_mem.cpp:549-599 | the request's commands are logged and the bank, the window and the bus updated as IssuedDoes says, with all timing constraints kept |
| DdrMemory.Controller.OpenForHitsOnly | src/ddr_mem.cpp:587-589 | a served row stays open exactly if pages stay open or the bank's next request is numbered, and then that one continues the run on the open row |
| DdrMemory.Controller.WritesComeInBursts | src/ddr_mem.cpp:509-511 | while reads wait and nothing arrives, writes go first only once they take more than three quarters of their queue, and then until they are down to a quarter |
| DdrMemory.Controller.TrySchedule | src/ddr_mem.cpp:491-632 | serves the oldest ready request of the preferred queue as specified; asks to be woken later exactly if anything is left: when the data bus is free, or at the very first cycle at which a request of the preferred queue may issue |
| DdrMemory.Controller.Refresh | src/ddr_mem.cpp:634-656 | closes all banks until the refresh is over, and loses no request |
| DdrMemory.Controller.Enqueue | src/ddr_mem.cpp:296-343 | a request overflows exactly when a queue is full, else joins its queue; if it then heads its bank's list there is a wake-up no later than when it may issue, and else the wake-up stays; the accesses that have arrived are one more |
| DdrMemory.Controller.AdmitOverflow | src/ddr_mem.cpp:432-450 | the oldest overflowed request is queued; if it heads its bank's list the wake-up moves to when the data bus is free, should that be earlier, and else it stays |
| DdrMemory.Controller.TooEarlyIff | src/ddr_mem.cpp:442-449 | after any tick that lets a request in, the wake-up is never later than the request's, and earlier exactly if the request heads its bank's list, the wake-up moved for it, and its row takes longer than the data bus |
| DdrMemory.WokenTooEarly | src/ddr_mem.cpp:426-461 | a run of the controller, from its construction over two arrivals and a tick, after which it wakes up at cycle 115 for a request that cannot issue before 129 |
| DdrMemory.Controller.Tick | src/ddr_mem.cpp:426-461 | its asserts hold; the served request, if any, is issued and leaves its queue and list, the oldest overflowed one enters if there is room, and all others stay where they were; the next wake-up is exactly what the scheduler asks for, or earlier for the request let in; it returns 0 exactly when nothing waits |
| DdrMemory.Controller.TickedConserves | src/ddr_mem.cpp:426-461 | over a tick, the accesses issued so far together with those waiting, counted by bank, row and direction, stay the same |
| DdrMemory.Controller.Simulate | src/ddr_mem.cpp:114-132 | a live event ticks, as specified, and is queued again or recycled; an annulled one is only recycled and changes no queue |
| DdrMemory.Controller.UnservedBringsNearer | src/ddr_mem.cpp:491-543 | a tick that serves nothing brings the next service nearer: it lets somebody in, or waits for the data bus, or for the first request that may issue |
| DdrMemory.Controller.ServeNext | src/ddr_mem.cpp:114-132 | without arrivals and refreshes, at most three ticks for every overflowed request, and three more, pass before a request is served |
| DdrMemory.Controller.Drain | src/ddr_mem.cpp:114-132 | in the end a column command has been issued for every access that ever arrived, and only one |
| FutexLock.MutualExclusion | src/locks.h:153-213 | at most one thread holds the lock |
| FutexLock.NoLostWakeup | src/locks.h:166-170 | while a thread sleeps, the holder will wake somebody, a wake-up is owed, or a woken thread has yet to exchange |
| FutexLock.SleeperIsNeverAlone | src/locks.h:153-213 | while a thread sleeps, another one, awake, can move |
| FutexLock.FreeWordMeansNoOwner | src/locks.h:204-213 | the word is 0 exactly when nobody holds or is releasing the lock |
| FutexLock.HasWaitersIsFalse | src/locks.h:215-220 | with nobody else in any acquisition, futex_haswaiters tells a holder there is somebody exactly if the holder acquired by exchange or a timed thread has given up since |
| FutexLock.UntimedNeverGiveUp | src/locks.h:153-202 | with blocking acquisitions only, nobody gives up |
| FutexLock.HasWaitersFalsePositive | src/locks.h:215-220 | a run in which the word reads 2 without anybody waiting |
| FutexLock.HasWaitersAfterTimeout | src/locks.h:189-202 | and one to the other cause: a timed thread gives up while somebody holds the lock |
| RwMutex.WriterExcludesAll | src/mutex.h:111-127 | a writer excludes all readers and other writers |
| RwMutex.DowngradeAssertHolds | src/mutex.h:165-174 | the assert in downgrade holds, and a nonzero count belongs to one reader waiting for wq |
| RwMutex.NoWriterSlipsIn | src/mutex.h:139-176 | no other writer is admitted from holding the write lock on, through the downgrade, until the read lock is given up |
| RwMutex.NoDeadlock | src/mutex.h:100-182 | when nobody holds the mutex, some thread inside an operation can move |
| Lookahead.GetMaxMarginalUtility | src/lookahead.cpp:38-54 | the first step of largest average gain |
| Lookahead.PickPartition | src/lookahead.cpp:82-104 | the first partition and smallest step of largest average gain among those allowed |
| Lookahead.ComputeBestPartitioning | src/lookahead.cpp:68-109 | terminates with the legal allocation that the greedy rounds lead to; its sum is n * minAlloc + buckets - minAlloc, which is the budget exactly if there is one partition or no minimum; and on convex curves no legal allocation of that size saves more misses |
| Lookahead.OneOutcome | src/lookahead.cpp:78-109 | the rounds have one outcome |
| Lookahead.SettledIsOptimal | src/lookahead.cpp:57-66 | an allocation with a price that all gains respect saves the most misses of its size |
| Lookahead.NonConvexMayLose | src/lookahead.cpp:82-106 | curves that are not convex, on which the rounds end with an allocation that saves five misses where another of its size saves nine |
| Lookahead.ComputePartitioningTotalUtility | src/lookahead.cpp:57-66 | the misses saved, modulo 2^64 |

## Left out

* Coherence: more than one line at a time (locks are per cache, so the real interleavings of one line are among the
  modelled ones); the skewed last-level path, PUTX_KEEPEXCL, FWD and the non-inclusive mode; latencies. When a
  waiting cache's request is answered, it goes on to answer its child in the same step, which its own lock protects.
  The data behind a refresh: `processRefresh` discards lines, dirty or not. An upgrade is answered with the data too.
* Mesi.Hierarchy.Write: may be called on any cache without sharers, not only on one with a core.
* ZArray.ZArrayObject.Preinsert: the replacement policy's choice is any candidate.
* ZArray, Ceaser: the random way is any way; hashes are arbitrary functions into the sets; set-associative partitioning.
* Ceaser: the coherence traffic between refreshes is any change of a resident line's state and directory entry, with
  the children's copies to match (`ProtocolStep`); the controller of `Mesi.dfy` is not plugged in.
* Entry::lineAddr of the ideal LRU array is kept beside the entries; `InList::insertAfter` and the bank lists' links
  are sequences in the DDR model.
* IdealPart: a partition's list holds line numbers in a sequence; the partition of a requester and the target sizes are
  parameters, `double` is `real`, and sizes are unbounded. The constructor of the source builds one partition record
  more than it allocates room for (src/ideal_arrays.h:140-142); the model has one for each partition. The monitor and
  `IdealLRUPartArray`, whose map works as the ideal LRU array's does, are left out.
* Barrier: the futex waits themselves, their timeouts, and the scheduler's callback. The memory that `lastIdx` is never
  initialised in is a parameter.
* DDR: mapping addresses to banks (banks are numbered across ranks), the response events and their statistics, and
  64-bit wrap-around of cycles. tRRD is applied against the same bank only, as in the source. With deferred writes a
  bank has two lists; `OvertakersAreFew` holds of each, `RowRunsAreShort` is about a bank with one. An activation
  window in the controller is its sequence of entries, updated by the function that the window's own loop is proved to
  compute. The side of reads, its queue and lists, is one value, and so is that of writes.
* Locks: memory-model weakness, spinning and time; a futex system call is an atomic step on an explicit set of sleepers.
* Lookahead: floating-point rounding of marginal utilities; `partition()` around the algorithm.
* Extracted from their loops and methods, to keep proofs small: `PickPartition`, `Expand`, `RefreshWay`, `MoveOver`,
  `InvalidateSharer`, `Shift`, `Append`, `Rejoin` and the DDR scheduler's helpers. `ServeNext` and `Drain` stand for the
  simulator's event loop as far as it runs this controller's events.
* Hash functions, address decoding, networks, configuration, contention simulation, statistics and tooling.
