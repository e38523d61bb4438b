# Far-memory manager: a verified model

This project models the far-memory manager of DynamicSwap (AIFM as this repository changes it) and
the pager on top of it. Objects live in 1 KiB regions of a local cache, allocated by bumping an
index; pointers are 64-bit words that say whether their object is present or on a remote device; a
concurrent collector evacuates regions while mutators keep dereferencing. The claims are that
collection never loses data, never recycles memory in use, and never leaks or duplicates a region.

`dafny verify dfyconfig.toml` checks everything.

| file | models |
|---|---|
| `PtrMeta.dfy` | the metadata word: two overlaid bit formats and what they mean |
| `Regions.dfy` | one region: bump allocation, ref count, boundaries, the walk over its objects |
| `RegionManagers.dfy` | the queues, the core-local slots, the allocation loops, picking and recycling, as functions with their invariants |
| `RegionManager.dfy` | the class that does this in place, step by step as the source does |
| `RegionRuns.dfy` | the same under any interleaving of cores and the collector |
| `RegionOverflow.dfy` | runs that fail without enough reserved or free regions |
| `FarMemory.dfy` | pointers, local objects and the device; every operation against a plain map |
| `Evacuation.dfy` | the evacuation protocol as a step system with any number of mutators |
| `RawAddresses.dfy` | raw addresses held in scopes: when a store is seen, exactly, and a run in which it is not |
| `RenewWindow.dfy` | a reallocation in two steps, and a marker between them |
| `CacheHeap.dfy`, `FarMemManager.dfy` | the manager class: rings, swap-in, swap-out, allocation, one whole round with its walks |
| `RemoteIds.dfy` | uniqueness and range of remote ids over all runs |
| `GcThreads.dfy` | the single collector and the waiting mutators |
| `SwapInRace.dfy` | racing `swap_in` calls, one shared access per step |
| `ObjRef.dfy`, `Pager.dfy` | the DynamicSwap pager, its accounting, and the array constructor |
| `PagerThreads.dfy` | the pager's threads and their mutex, against evictions and registrations |

Six results say where the code needs more than it checks itself:

- The constructor hands out two regions for each of 20 cores but reserves for 2
  (`aifm_changes/helpers.hpp:67-68`). `cores <= reserved` is a hypothesis wherever it is needed, and
  exactly what is needed: for the mapping (`RegionManagement.RegionManager.Create`), for the ids
  (`RemoteIds.IdsStayInside`) and for the circular buffers (`RegionOverflows.PushesFitIff`).
  `RemoteIds.ShownConstantsOverrun` and `RegionOverflows.ShownConstantsOverflow` are runs that fail.
- A non-temporal refill that finds no free region writes the nt flag of a region that is not in the slot
  (`aifm_changes/manager.cpp:200-203`). `RegionManagement.RegionManager.AllocateNb` has the exact
  condition at the call and `RegionOverflows.NtFlagGoesAstray` a run to it.
- The array constructor registers a 32-bit element size and allocates a 16-bit one
  (`aifm_changes/array.cpp:18-19`). `Pagers.AccountArray` says that the free memory the pager works
  with is right if and only if the cut loses nothing; `Pagers.CutSizeWraps` and
  `Pagers.CutSizeStarves` are arrays for which it is far too large and far too small.
- The memory thread's scan does not keep the collector out. `PagerThreads.EvictionWrapsTheScan` is a
  run in which an object evicted during the scan makes the free memory wrap; while no object already
  counted is evicted it is right (`PagerThreads.ScanIsRight`).
- A store through a raw address is lost after another mutator has migrated the object
  (`RawAddresses.MigrationLosesAStore`, under the contract assumed for migration).
  `RawAddresses.StoreIsSeenIff` gives the exact condition: between the dereference and the store no
  mutator dereferences the pointer while it is marked, reallocates it or frees it. The collector alone
  never causes it.
- A marker between the two steps of a reallocation, which holds no object lock, marks the new object.
  If migration does not free the copy it leaves behind, a later round undoes a store
  (`RenewWindows.WindowUndoesAStore`); the bodies that decide it are not part of this model. The
  results of Evacuation and RawAddresses take a reallocation as one step.

The plain map of `Evacuation.RunRefines` knows, for every pointer, its bytes and its alias class. It
asks far memory one thing only: whether the address of a store is outdated; for a run without such a
store it asks nothing (`Evacuation.OrderlyRunIsPlain`).

## Model

| member | source | states |
|---|---|---|
| Evacuation.RunRefines | aifm_changes/manager.cpp:268-390 | in every interleaving of any number of mutators, pager swap-ins and collector steps, the bytes and alias classes of the live pointers are those of a plain map on which only the mutators' own operations act; no mark, flip, copy, write-back, drop, swap-in or recycling shows. The plain map is told which stores go to an outdated address |
| Evacuation.OrderlyRunIsPlain | aifm_changes/manager.cpp:268-390 | a run without a store to an outdated address ends in the very state of the same program on the plain map alone, which knows no addresses, presence or collection |
| Evacuation.RunsRecycleSafely | aifm_changes/manager.cpp:583-621 | over every run from the empty state: when a from-region goes to the free list, no live dereference scope holds an address in it and no present pointer points into it |
| RawAddresses.CurrentIffUndisturbed | aifm_changes/manager.cpp:474-519 | while its scope is open, a raw address is still its pointer's own if and only if the run since held no migration of the marked object by a mutator, no reallocation and no free of the pointer |
| RawAddresses.HeldStaysCurrent | aifm_changes/manager.cpp:474-488 | however many rounds run meanwhile, an object under a raw address held in a scope is not moved, unless a mutator dereferences its marked pointer, reallocates it or frees it |
| RegionRuns.RegionsAreConserved | aifm_changes/manager.cpp:141-207 | in every interleaving of attempts, refills, payments, picks and returns, and for any number of cores, each region sits in exactly one of the three queues, a core-local slot and the from list; with cores <= reserved it lies inside the mapping and no queue outgrows its buffer |
| RegionOverflows.PushesFitIff | aifm_changes/manager.cpp:141-196 | in every run every push finds room in its circular buffer, so that no BUG_ON is reached, if and only if cores <= reserved |
| RegionRuns.QueuedIsFrozen | aifm_changes/manager.cpp:148-178 | from the moment a region leaves its core-local slot until it is recycled, in every run, it gets no object, its ref count never rises, and once collectable it stays so |
| SwapInRace.OneReadPerArrival | aifm_changes/manager.cpp:268-305 | for any number of racing callers, each absent-to-present transition of an id has exactly one allocation and one device read, but for the one in progress under the id's lock |
| GcThreads.NoLostWakeup | aifm_changes/manager.cpp:740-762 | in every interleaving, while gc_lock_ is free a mutator that waits unsignalled implies almost_empty is still true |
| PagerThreads.ScanIsRight | src/dswap.cpp:87-100 | in every interleaving, from the moment a scan takes the mutex, while none of the objects it has counted is evicted, it stores the rest of the cache without wrapping, if the objects present then fit |
| PagerThreads.PassBringsIn | src/dswap.cpp:52-62 | in every interleaving, at the end of a pass with memory to spare every registered object is in the cache, but for those evicted after the pass was through with them |
| PagerThreads.EvictionWrapsTheScan | src/dswap.cpp:89-100 | a run in which at most 600 bytes of 1024 are ever present and the memory thread stores 2^64 - 176, because one object is evicted and another swapped in during the scan |
| RemoteIds.IdsStayInside | aifm_changes/manager.cpp:227-266 | in every interleaving of attempts and refills by any number of cores the ids lie inside far memory, if and only if cores <= reserved |
| FarMemManagers.FarMemManager.GcRound | aifm_changes/manager.cpp:583-632 | one whole round, with the real walks over every boundary of every from-region, keeps the manager valid and changes no pointer's bytes; it picks max(1, target) regions, or all in the used queues if these are fewer, and they end, empty, at the end of the free queue; almost_empty is cleared exactly if regions were collected and the cache is no longer almost empty |
| FarMemManagers.FarMemManager.GcRoundBesideReader | aifm_changes/manager.cpp:474-488 | the same round beside a mutator that opens a scope after the flip and keeps it open: no bytes change, as many regions are collected, and its address still has its object when every picked region has been recycled |
| PtrMeta.LocalRoundTrip | aifm_changes/pointer.hpp:8-24 | the local format decodes to the fields it was packed from, for every 47-bit address |
| PtrMeta.RemoteRoundTrip | aifm_changes/pointer.hpp:8-24 | the remote format decodes to the fields it was packed from, for every id, size and data structure in range |
| PtrMeta.IdFits | aifm_changes/pointer.hpp:28-29 | a 64-bit id survives the 38-bit field exactly when it is below 2^38 |
| PtrMeta.NullWords | aifm_changes/pointer.hpp:53-55 | no present word reads as null; a swapped-out word does only at size 0, id 0, unshared |
| PtrMeta.EvacuationBitOverlaysSize | aifm_changes/pointer.hpp:8-10 | in a swapped-out word the E bit is bit 6 of the size, so E may be asked of local words only |
| PtrMeta.FarMemPtrMeta.constructor | aifm_changes/pointer.hpp:53-55 | a fresh word is null |
| PtrMeta.FarMemPtrMeta.Init | aifm_changes/pointer.hpp:50 | a new object's word is present, dirty, not hot, not under evacuation, at the data address behind the header |
| PtrMeta.FarMemPtrMeta.SetPresent | aifm_changes/pointer.hpp:69 | a swapped-in word is present and clean, and keeps S |
| PtrMeta.FarMemPtrMeta.SetEvacuation | aifm_changes/pointer.hpp:70 | raises E and changes no other field |
| PtrMeta.FarMemPtrMeta.SetDirty | aifm_changes/pointer.hpp:62 | marks the word dirty and changes no other field |
| PtrMeta.FarMemPtrMeta.ClearDirty | aifm_changes/pointer.hpp:63 | marks the word clean and changes no other field |
| PtrMeta.FarMemPtrMeta.SetHot | aifm_changes/pointer.hpp:67 | marks the word hot and changes no other field |
| PtrMeta.FarMemPtrMeta.SetShared | aifm_changes/pointer.hpp:73 | sets S in either format and changes no other field |
| PtrMeta.FarMemPtrMeta.Nullify | aifm_changes/pointer.hpp:82 | the word is null, and a null word is not present |
| PtrMeta.FarMemPtrMeta.GcCopy | aifm_changes/pointer.hpp:86 | a copied object's word has the new address, keeps D and S and clears E |
| PtrMeta.FarMemPtrMeta.GcWb | aifm_changes/pointer.hpp:87 | the getters swap_in uses read back the same data structure, size, id and S bit |
| Regions.GridIsOrdered | aifm_changes/region.hpp:10-12 | any two objects of a region lie apart, whatever their distance on the 8-byte grid |
| Regions.ObjectKeepsOk | aifm_changes/region.hpp:48 | a bump allocation keeps the layout and every boundary, and seals the region exactly when the object does not fit |
| Regions.TasksCover | aifm_changes/region.hpp:59-60 | every boundary is the start of an object or the end of the region, and consecutive tasks meet |
| Regions.TasksAreOneScan | aifm_changes/manager.cpp:45-51 | the tasks of a full region, one after the other, are its objects in address order, each once |
| Regions.WalkGuard | aifm_changes/manager.cpp:436-456 | `cur + kHeaderSize < right` holds exactly while an object is left before `right`, and the aligned size leads to the next one |
| Regions.Scan | aifm_changes/manager.cpp:436-456 | the walk between two boundaries stops and visits exactly the objects between them, in order |
| Regions.Region.constructor | aifm_changes/region.hpp:42-43 | a region starts empty, at the header, with no boundary and no reference |
| Regions.Region.UpdateBoundaries | aifm_changes/region.hpp:36-39 | a boundary is cut at the bump index when forced or when the next share of the region is passed, and always fits gc_boundaries_ |
| Regions.Region.AllocateObject | aifm_changes/region.hpp:48 | bumps the index by the aligned size and counts one reference if local, or cuts the last boundary and fails |
| Regions.Region.AtomicDecRefCnt | aifm_changes/region.hpp:61-63 | one object less is being initialised, and the count was positive |
| Regions.Region.Reset | aifm_changes/region.hpp:51 | the region is as new, temporal and unreferenced |
| Regions.Region.GetBoundary | aifm_changes/region.hpp:60 | task k runs between two positions of the object grid |
| Regions.Region.WalkTask | aifm_changes/manager.cpp:434-456 | one task's walk visits exactly the task's objects |
| RegionManagers.OneHolder | aifm_changes/manager.cpp:141-207 | conservation: every region has exactly one holder |
| RegionManagers.PickedAreAlone | aifm_changes/manager.cpp:395-415 | the from-regions are pairwise distinct and in no queue or slot |
| RegionManagers.PushUsedConserves | aifm_changes/manager.cpp:186-196 | pushing the full region conserves the regions and its queue has room |
| RegionManagers.RefillKeepsValid | aifm_changes/manager.cpp:180-207 | after a refill the slot holds the front of the free queue, or nothing if that was empty, whichever other slots await one |
| RegionManagers.RefillIs | aifm_changes/manager.cpp:180-207 | the region taken is empty and of the slot's kind; nothing else changes in any region |
| RegionManagers.AttemptKeepsValid | aifm_changes/manager.cpp:704-709 | an attempt leaves everything valid, its slot needing a refill exactly when the object did not fit |
| RegionManagers.AllocEffect | aifm_changes/manager.cpp:692-718 | the retry loop (the free-queue length is its measure) changes no object but adds one in the slot's own region, and fails only with the free queue empty |
| RegionManagers.AllocSucceeds | aifm_changes/manager.cpp:692-718 | for a size that fits an empty region it succeeds if and only if the slot has room or a region is free, and takes at most one region |
| RegionManagers.AllocKind | aifm_changes/manager.cpp:192-207 | an object lands in the region then in the slot asked for, which is of the slot's kind |
| RegionManagers.AllocDrains | aifm_changes/manager.cpp:692-718 | for a size that fits no region it fails after moving every free region to a used queue |
| RegionManagers.AllocIsNew | aifm_changes/manager.cpp:692-718 | a call that nothing comes between makes exactly one address live; it was not live and lies in no free, used or from-region |
| RegionManagers.AllocKeepsFrom | aifm_changes/manager.cpp:692-718 | no allocation touches a region under collection |
| RegionManagers.LiveObjectIsInside | aifm_changes/region.hpp:10-12 | a live object lies in its own region's buffer, behind the region header |
| RegionManagers.LiveObjectsAreDisjoint | aifm_changes/manager.cpp:663-718 | any two live objects of the cache occupy disjoint ranges |
| RegionManagers.RotateOnce | aifm_changes/manager.cpp:154-161 | sending the front to the back keeps the queue's regions |
| RegionManagers.GcableStays | aifm_changes/manager.cpp:154-155 | ref counts dropping concurrently never make a collectable region uncollectable |
| RegionManagers.RecycleConserves | aifm_changes/manager.cpp:141-146 | push_free_region conserves the regions and finds room |
| RegionManagers.RecycleKeepsValid | aifm_changes/manager.cpp:141-146 | emptying and freeing a from-region disturbs no other region |
| RegionManagers.RecycleFrees | aifm_changes/manager.cpp:141-146 | exactly the region's own objects stop being live |
| RegionManagement.InitialIsConserved | aifm_changes/manager.cpp:252-265 | the constructor puts every region in exactly one place |
| RegionManagement.RegionManager.constructor | aifm_changes/manager.cpp:248-265 | two regions for each core, the second of them nt, and count minus twice the reservation in the free queue, none of whose pushes fails |
| RegionManagement.RegionManager.Create | aifm_changes/manager.cpp:227-266 | fails exactly when there are at most twice the reservation of regions; every buffer lies in the mapping if and only if cores <= reserved |
| RegionManagement.RegionManager.PushSlot | aifm_changes/manager.cpp:185-197 | the full core-local region goes to the queue of its kind and leaves its slot |
| RegionManagement.RegionManager.PopSlot | aifm_changes/manager.cpp:198-204 | the first free region becomes core-local, nt in an nt slot; set_nt() runs either way |
| RegionManagement.RegionManager.SetNtFlag | aifm_changes/manager.cpp:200-203 | set_nt() marks the slot's region, or writes astray exactly when the slot holds no region with a buffer |
| RegionManagement.RegionManager.TryRefill | aifm_changes/manager.cpp:180-207 | succeeds if and only if a region was free; set_nt() then runs on a region without a buffer exactly in an nt slot when none was free or the region is remote |
| RegionManagement.RegionManager.AllocateInSlot | aifm_changes/manager.cpp:704-709 | the address at the bump index, or nothing |
| RegionManagement.RegionManager.AllocateRound | aifm_changes/manager.cpp:703-717 | one turn of the retry loop ends it with the specified result, or leaves that result unchanged and the free queue shorter |
| RegionManagement.RegionManager.AllocateNb | aifm_changes/manager.cpp:692-718 | the loop terminates with exactly the specified state and address, in the slot of the kind asked for and a region of that kind; a cache allocation writes the nt flag astray if and only if it is non-temporal and fails, which for a size that fits a region is known beforehand, and a far-memory one whenever it is non-temporal and needs a refill |
| RegionManagement.RegionManager.FinishObject | aifm_changes/manager.cpp:115 | pays one reference back |
| RegionManagement.FinishedAtKeepsValid | aifm_changes/manager.cpp:137 | the reference being paid exists, and exactly that object stops being pending |
| RegionManagement.RegionManager.TryPopNtUsed | aifm_changes/manager.cpp:154-162 | a collectable front is taken, a busy one goes to the back |
| RegionManagement.RegionManager.PopNtUsed | aifm_changes/manager.cpp:148-162 | at most kPickRegionMaxRetryTimes + 2 attempts; the queue is a rotation, minus the region taken; every region met before it was busy, and without success those sent to the back stand there busy |
| RegionManagement.RegionManager.TryPopUsed | aifm_changes/manager.cpp:166-170 | a collectable front is taken, a busy one stays at the front |
| RegionManagement.RegionManager.PopTemporalUsed | aifm_changes/manager.cpp:163-175 | at most kPickRegionMaxRetryTimes + 2 attempts; the queue keeps its order and loses at most its front |
| RegionManagement.RegionManager.PopUsedRegion | aifm_changes/manager.cpp:148-178 | takes one region or none: none only if the front of the temporal queue was busy and the nt loop met only busy regions, and a temporal one only in that last case |
| RegionManagement.SameRest | aifm_changes/manager.cpp:395-415 | regions moved between the used queues and the from list, as a multiset, and nowhere else |
| RegionManagement.RegionManager.PickFromRegions | aifm_changes/manager.cpp:395-415 | at most max(1, target) regions, all collectable with no half-written object, pairwise distinct and held by nothing else; fewer only if in the end the front of the temporal queue was busy and so were the last kPickRegionMaxRetryTimes + 2 regions of the nt queue, or all of it |
| RegionManagement.RegionManager.PushFree | aifm_changes/manager.cpp:141-146 | the region goes to the free queue, which has room |
| RegionManagement.RoundTargetIsClamped | aifm_changes/manager.cpp:397-405 | the number of regions of a round is the portion by which the free ratio lies below the threshold, or that of the clamp it exceeds, cut by the fixed maximum; it grows as the cache fills |
| RegionRuns.StepKeepsInv | aifm_changes/manager.cpp:141-207 | every step of any core or the collector keeps conservation, layout and roles |
| RegionRuns.TryIsNew | aifm_changes/manager.cpp:703-709 | in any state, whatever other slots await a refill, a successful attempt makes exactly one address live, which was not live and whose region is free, queued or collected for nobody |
| RegionRuns.OthersKeepLive | aifm_changes/manager.cpp:148-207 | no refill, payment, pick or rotation changes what is live |
| RegionRuns.AddressesAreUnique | aifm_changes/manager.cpp:692-738 | while nothing is recycled, the addresses any interleaving obtains are pairwise distinct, were not live before and lie in the regions |
| RegionRuns.AllocIsARun | aifm_changes/manager.cpp:692-718 | a whole allocation call that nothing comes between is such a run of attempts and refills |
| RegionRuns.NoPushFails | aifm_changes/manager.cpp:144-196 | with cores <= reserved no push of any run finds its circular buffer full |
| RegionOverflows.SomePushFails | aifm_changes/manager.cpp:180-196 | with more cores than reserved, a run from the initial state that pushes into a full buffer |
| RegionOverflows.ShownConstantsOverflow | aifm_changes/helpers.hpp:67-68 | with 20 cores and a reservation of 2, such a run exists for every cache that can be built |
| RegionOverflows.WritesAstrayIff | aifm_changes/manager.cpp:198-204 | in any reachable state a refill writes the nt flag of a region without a buffer exactly in an nt slot with no region free, or for far memory in any nt slot |
| RegionOverflows.NtFlagGoesAstray | aifm_changes/manager.cpp:198-204 | non-temporal requests on one core lead to that write from every initial state |
| RegionOverflows.Drain | aifm_changes/manager.cpp:692-718 | enough allocations in one slot use up the free queue and the slot's own region and touch no other slot |
| RegionRuns.RefCountCounts | aifm_changes/region.hpp:14 | in every run a region's ref count is the number of its objects being initialised; a picked region has none |
| FarMemory.MarkKeeps | aifm_changes/manager.cpp:446-453 | marking all aliases is invisible to mutators |
| FarMemory.CopyKeeps | aifm_changes/manager.cpp:333-360 | copying an object and redirecting all its aliases is invisible |
| FarMemory.EvictKeeps | aifm_changes/manager.cpp:362-390 | writing back when any alias is dirty, or dropping a clean object, and turning all aliases remote is invisible |
| FarMemory.SwapOutKeeps | aifm_changes/manager.cpp:307-390 | whatever swap_out decides from OR of hot, OR of dirty, nt and almost_empty, no pointer's bytes change |
| FarMemory.SwapOutDecides | aifm_changes/manager.cpp:315-389 | a marked object stays local, with its whole ring at the new address, if and only if some alias was hot, its region temporal, almost_empty unset and there was room; otherwise its whole ring is remote, and the device is written exactly if some alias was dirty |
| FarMemory.SwapOutSpares | aifm_changes/manager.cpp:504-518 | an object that is not marked is left alone |
| FarMemory.SwapInKeeps | aifm_changes/manager.cpp:268-305 | swapping in makes all aliases present at one object and changes no pointer's bytes |
| FarMemory.SwapInLands | aifm_changes/manager.cpp:296-302 | an absent object's whole ring, and nothing else, points to the new copy, clean and unmarked |
| FarMemory.AllocateKeeps | aifm_changes/manager.cpp:91-117 | a new pointer has its bytes and no other pointer changes |
| FarMemory.ReallocateKeeps | aifm_changes/manager.cpp:794-830 | the pointer has the new bytes, and no other pointer changes |
| FarMemory.AliasKeeps | aifm_changes/pointer.hpp:184 | a new alias sees the object's bytes |
| FarMemory.FreeKeeps | aifm_changes/pointer.hpp:143 | freeing a unique pointer removes it and nothing else |
| FarMemory.StoreKeeps | aifm_changes/pointer.hpp:141-142 | a store through the address of a dirty object is seen by exactly the pointers there |
| FarMemory.RecycledKeeps | aifm_changes/manager.cpp:141-146 | reusing a region nothing points into is invisible |
| Evacuation.CompleteEvacuation | aifm_changes/manager.cpp:495-523 | once the write-back walk is done, no live pointer points into a from-region |
| Evacuation.RecycleIsSafe | aifm_changes/manager.cpp:616-621 | in any state of the invariant, a region about to be recycled is neither held by a scope nor pointed into |
| Evacuation.MarkOneKeeps | aifm_changes/manager.cpp:440-453 | the ring marked through the object's header is the ring that points to it |
| Evacuation.FlipKeeps | aifm_changes/manager.cpp:474-480 | flipping the expected status when every object is marked keeps the protocol; all scopes then carry the old one |
| Evacuation.EndWaitKeeps | aifm_changes/manager.cpp:481-484 | once no scope carries the old status, none holds an address in a from-region, so two status values suffice |
| Evacuation.WriteBackKeeps | aifm_changes/manager.cpp:495-519 | writing one object back keeps the protocol, whether it is copied, evicted, already migrated or freed |
| Evacuation.MigrateStep | aifm_changes/pointer.hpp:107 | a mutator's migration of a marked object keeps the protocol |
| Evacuation.DerefStep | aifm_changes/pointer.hpp:141-142 | a dereference swaps in or migrates first, so no scope gets an address in a region under collection after the flip |
| Evacuation.RenewStep | aifm_changes/manager.cpp:794-830 | reallocation as one step, at any point of a round, keeps the protocol |
| RenewWindows.RenewInTwo | aifm_changes/manager.cpp:812-827 | with nothing in between, the two steps of a reallocation are the one step of the protocol |
| RenewWindows.HeaderMarksItsObject | aifm_changes/manager.cpp:446-453 | in every state of the protocol, marking the pointer that a header names marks the object's own ring |
| RenewWindows.HeaderSwapsOutItsObject | aifm_changes/manager.cpp:511-517 | in every state of the protocol, swapping out the pointer that a header names swaps out the object's own ring |
| RenewWindows.MarkOutlivesRound | aifm_changes/manager.cpp:812-827 | a marker between the two steps of a reallocation marks the new object, and the mark survives the round |
| RenewWindows.WindowUndoesAStore | aifm_changes/manager.cpp:504-517 | after that, a migration and a store, the next round undoes the store if and only if migration does not free the copy it leaves behind |
| Evacuation.NewStep | aifm_changes/manager.cpp:91-139 | allocation at any point of a round keeps the protocol |
| Evacuation.SwapInStep | aifm_changes/manager.cpp:268-305 | a swap-in, by a dereference or by the pager, at any point of a round keeps the protocol |
| Evacuation.RecycleKeeps | aifm_changes/manager.cpp:616-618 | recycling keeps the protocol and is invisible |
| Evacuation.StepRefines | aifm_changes/manager.cpp:268-390 | every single step does to the bytes and alias classes what the plain map does |
| Evacuation.StoreSeenByAliases | aifm_changes/pointer.hpp:141-142 | a store through a current address is seen through every alias of its pointer, one through an outdated address through none |
| RawAddresses.CollectorSpares | aifm_changes/manager.cpp:495-519 | no collector step moves an object under a held raw address |
| RawAddresses.StoreIsSeenIff | aifm_changes/pointer.hpp:142 | a mutable dereference, any run that leaves its scope open, then a store of other bytes: every alias sees it if and only if the run in between was undisturbed |
| RawAddresses.StoreMissesIff | aifm_changes/pointer.hpp:142 | at the moment of a store, it misses its pointer exactly when the pointer's word no longer holds the address |
| RawAddresses.OutdatedStays | aifm_changes/pointer.hpp:107 | an address that is no longer its pointer's own never becomes so again while it is held |
| RawAddresses.DerefIsCurrent | aifm_changes/pointer.hpp:141-142 | the address a dereference hands out is held and its pointer's own, and the word records the dereference as hot, and as dirty if mutable |
| RawAddresses.MigrationLosesAStore | aifm_changes/pointer.hpp:107 | a concrete run in which a second mutator's dereference of a marked pointer makes the first one's later store vanish |
| CacheHeaps.SizeAt | aifm_changes/manager.cpp:456 | the size a walk reads from a header is the size the object was allocated with |
| CacheHeaps.ObjectFits | aifm_changes/manager.cpp:333-335 | an object in the cache fits an empty region, so that room for its copy can be foreseen |
| CacheHeaps.WalkVisits | aifm_changes/manager.cpp:436-456 | the walk's next address is an object still to be visited |
| CacheHeaps.WalkLeaves | aifm_changes/manager.cpp:436-456 | after a visit exactly the objects behind it remain, so none is skipped or met twice |
| CacheHeaps.WalkEnds | aifm_changes/manager.cpp:436-456 | behind the last boundary of a full region nothing is left |
| CacheHeaps.AllocSound | aifm_changes/manager.cpp:303 | every path that allocates pays the reference back, after which no object is pending |
| CacheHeaps.RecycleSound | aifm_changes/manager.cpp:616-618 | a recycled region takes exactly its own objects along |
| CacheHeaps.PickedAll | aifm_changes/manager.cpp:395-415 | between the manager's steps no object is pending, so a pick that stops early has emptied both used queues |
| FarMemManagers.FarMemManager.constructor | aifm_changes/manager.cpp:53-82 | starts with no pointer, no object and no scope |
| FarMemManagers.FarMemManager.Create | aifm_changes/manager.cpp:53-63 | no manager for a far memory that 38-bit ids could not address or for too few regions; otherwise a valid one with the regions of both constructors |
| FarMemManagers.FarMemManager.Traverse | aifm_changes/pointer.hpp:178 | applies an operation to every pointer of the ring exactly once, for rings of any length |
| FarMemManagers.FarMemManager.SharedFlags | aifm_changes/manager.cpp:322-331 | hot is the OR, dirty the OR and nt the AND over exactly the aliases |
| FarMemManagers.FarMemManager.Redirect | aifm_changes/manager.cpp:345-355 | the object is copied and every alias redirected |
| FarMemManagers.FarMemManager.Expel | aifm_changes/manager.cpp:368-389 | the object is written if dirty and every alias turned remote |
| FarMemManagers.FarMemManager.CopyOut | aifm_changes/manager.cpp:333-359 | copies into the core's temporal slot, outside every from-region, and pays the reference back, exactly if the slot has room or a region is free; otherwise changes no object |
| FarMemManagers.FarMemManager.EvictOut | aifm_changes/manager.cpp:362-389 | the cold branch: written back if dirty, dropped if clean |
| FarMemManagers.FarMemManager.SwapOutMarked | aifm_changes/manager.cpp:315-389 | swap_out past its first test: the object is copied exactly in that case |
| FarMemManagers.FarMemManager.SwapOutObject | aifm_changes/manager.cpp:307-390 | a marked object stays local, its ring at one address in the core's temporal slot and outside every from-region, if and only if some alias was hot, its region temporal, almost_empty unset and room to be had at the call; otherwise its ring is remote, and written exactly if dirty; an unmarked object is left alone |
| FarMemManagers.FarMemManager.VisitMark | aifm_changes/manager.cpp:438-455 | one object of the marking walk: marked, or passed over if freed |
| FarMemManagers.FarMemManager.VisitWriteBack | aifm_changes/manager.cpp:504-518 | one object of the write-back walk: kept or evicted by that rule, passed over if freed or unmarked; no pointer's bytes change |
| FarMemManagers.FarMemManager.MarkTask | aifm_changes/manager.cpp:427-459 | one task visits its objects in order and leaves exactly the later ones |
| FarMemManagers.FarMemManager.WriteBackTask | aifm_changes/manager.cpp:495-523 | the same for the write-back, while it allocates in the same cache |
| FarMemManagers.FarMemManager.MarkRegions | aifm_changes/manager.cpp:461-472 | every object of every from-region is marked |
| FarMemManagers.FarMemManager.WriteBackRegions | aifm_changes/manager.cpp:525-535 | every object of every from-region is written back |
| FarMemManagers.FarMemManager.PickRegions | aifm_changes/manager.cpp:585-590 | picks max(1, target) regions, or all in the used queues, and owes a visit to every object in them |
| FarMemManagers.FarMemManager.Flip | aifm_changes/manager.cpp:474-480 | flips the status, whatever scopes are open |
| FarMemManagers.FarMemManager.EndWait | aifm_changes/manager.cpp:481-488 | once no open scope carries the old status, no scope holds an address in a from-region |
| FarMemManagers.FarMemManager.RecycleRegions | aifm_changes/manager.cpp:616-618 | every from-region joins the free queue, in order |
| FarMemManagers.FarMemManager.FinishRound | aifm_changes/manager.cpp:600-629 | write-back, recycling and the end of a round: almost_empty is cleared unless the cache is still almost empty |
| FarMemManagers.FarMemManager.Bind | aifm_changes/manager.cpp:297-302 | every alias of the absent object becomes present at the one new copy |
| FarMemManagers.FarMemManager.SwapInAbsent | aifm_changes/manager.cpp:284-304 | an absent object comes to a fresh address, in the slot and a region of the kind asked for, with its device bytes and its whole ring bound to it, exactly if that slot has room or a region is free; otherwise nothing changes |
| FarMemManagers.FarMemManager.Migrate | aifm_changes/pointer.hpp:107 | a mutator copies a marked object, with its whole ring, into the core's temporal slot, out of the regions under collection, and pays the reference back, exactly if there is room or a free region; otherwise changes nothing |
| FarMemManagers.FarMemManager.SwapInObject | aifm_changes/manager.cpp:268-305 | nothing happens to a present pointer; an absent one becomes present with its device bytes in a region of the kind asked for, or the caller must wait, exactly if that slot has no room and no region is free |
| FarMemManagers.FarMemManager.RoomAndId | aifm_changes/manager.cpp:99-107 | room in the core's temporal slot first and then an id; each is had exactly when its slot has room or a region is free |
| FarMemManagers.FarMemManager.Deref | aifm_changes/pointer.hpp:141-142 | swaps in or migrates first, then hands out the address of an unmarked object and marks the pointer hot, and dirty if mutable; no bytes change |
| FarMemManagers.FarMemManager.FreeUnique | aifm_changes/pointer.hpp:143 | removes the pointer and nothing else, at any point of a round |
| FarMemManagers.FarMemManager.AllocateUniqueNb | aifm_changes/manager.cpp:91-117 | the new pointer is present and dirty with its bytes and an id of the data structure asked for that no live object had; or nothing changes because no region is free; it never returns when far memory is full. For sizes that fit a region each outcome has its exact condition |
| FarMemManagers.FarMemManager.ReallocateUniqueNb | aifm_changes/manager.cpp:794-830 | the pointer gets the new bytes, in the core's temporal slot, and keeps its data structure, and its id is a new one if and only if the object is vanilla; or nothing changes. For sizes that fit a region the cases without room and without an id have their exact conditions |
| RemoteIds.IdsAreUnique | aifm_changes/manager.cpp:720-738 | in no interleaving is an id handed out twice or one that was live before |
| RemoteIds.RemoteIdsFit | aifm_changes/manager.cpp:63 | with cores <= reserved and far memory below 2^38, every id of every interleaving fits the 38-bit field, although the region count rounds up |
| RemoteIds.WriteBackFits | aifm_changes/manager.cpp:381-389 | the size and id gc_wb writes for a live object always fit their fields |
| RemoteIds.SomeIdIsLast | aifm_changes/manager.cpp:720-738 | with at least one core, some run of attempts and refills gets an id of the very last region |
| RemoteIds.ShownConstantsOverrun | aifm_changes/helpers.hpp:67-68 | with 20 cores and a reservation of 2, some run gets an id beyond 2^38 |
| GcThreads.SingleCollector | aifm_changes/manager.cpp:574-661 | at most one thread is past the compare-and-swap, and gc_master_active is true exactly while one is |
| GcThreads.FromHasOneWriter | aifm_changes/manager.cpp:585-618 | whoever changes from_regions_ is that thread alone, and it picks only into an empty list |
| GcThreads.MasterStep | aifm_changes/manager.cpp:768-784 | every step of launching, collecting or waiting keeps the single collector |
| GcThreads.WaiterStep | aifm_changes/manager.cpp:622-629 | every step keeps a reason to wait for each unsignalled waiter, or a collector about to signal |
| GcThreads.EveryWaiterIsWoken | aifm_changes/manager.cpp:622-629 | in every interleaving, a collector that finds the cache no longer almost empty clears almost_empty, and when it comes to give gc_lock_ back nobody is queued |
| GcThreads.NobodyIsWokenEarly | aifm_changes/manager.cpp:622-629 | one that finds it still almost empty leaves the flag and the waiters alone |
| GcThreads.CollectsOnlyWhenLow | aifm_changes/manager.cpp:574-661 | in every run, whoever collects has found the cache low and whoever ends has found it high |
| SwapInRace.StepKeepsInv | aifm_changes/manager.cpp:268-305 | every step of every racing thread keeps the lock, place, debt and count invariants |
| SwapInRace.RunKeeps | aifm_changes/manager.cpp:268-305 | in every run the value behind an id is the last one stored, whatever swap-ins, write-backs of dirty and drops of clean objects race |
| SwapInRace.CleanStep | aifm_changes/manager.cpp:368-390 | a present object that no alias has written to equals its device copy, so dropping it loses nothing |
| SwapInRace.PresentIsOwn | aifm_changes/manager.cpp:287-302 | a present pointer, also one of a half-bound ring, is bound to the object of its own id with the bytes last stored, and shares it with exactly its aliases |
| SwapInRace.FreeRingsAreWhole | aifm_changes/manager.cpp:297-302 | when no thread holds the lock of an id, its aliases are all present or all absent |
| SwapInRace.CountsArePaid | aifm_changes/manager.cpp:303 | with no thread inside, every reference has been paid back |
| Pagers.SpansFit | src/dswap.cpp:89-101 | disjoint spans sum to at most the space they lie in |
| Pagers.PresentFit | src/dswap.cpp:89-101 | registered objects present at one moment, headers and ids included, fit into the cache |
| Pagers.WholeRegions | aifm_changes/manager.cpp:228 | the regions fit the cache size exactly when it is a multiple of the region size |
| Pagers.Pager.constructor | src/dswap.cpp:24-31 | the swap threshold is the least integer not below a tenth of the cache |
| Pagers.Pager.RegisterObject | src/dswap.cpp:15-22 | one entry more, at the end |
| Pagers.Pager.Scan | src/dswap.cpp:91-97 | the 64-bit sum of the present registered sizes |
| Pagers.Pager.MemoryPass | src/dswap.cpp:87-100 | what is stored is cache_size - total modulo 2^64; it wraps exactly when the registered sizes exceed the cache; for sound registrations in a cache of whole regions it does not, and what is counted free covers the headers and ids |
| Pagers.Pager.PageIn | src/dswap.cpp:58-60 | one absent registered object becomes present, in a temporal region, and no present one absent; it blocks exactly if an absent object finds no room and no free region |
| Pagers.Pager.PagerPass | src/dswap.cpp:52-62 | a pass that nothing interferes with swaps in every absent registered object or none, and changes no pointer's bytes |
| PagerThreads.OneWriter | src/dswap.cpp:15-20 | in every interleaving only the memory thread writes available_mem and only a registering thread adds an entry, each holding the mutex, so both stand still while the pager holds it |
| PagerThreads.PassIsAllOrNone | src/dswap.cpp:52-62 | in every interleaving with evictions, swap-ins and registrations, a finished pass tried every registered object it found absent, or none, as settled when it took the mutex |
| PagerThreads.EntryPresentIff | src/dswap.cpp:56-61 | an entry the pass is through with is in the cache, and a step changes that if and only if it evicts the object |
| PagerThreads.ScanStoresTheRest | src/dswap.cpp:87-100 | in every interleaving a scan stores the cache size less the sizes of the entries it found present, modulo 2^64 |
| PagerThreads.FoundStayIff | src/dswap.cpp:91-97 | a step makes the scan's count stale if and only if it evicts an object already counted |
| Pagers.RegisteredGrows | aifm_changes/array.cpp:18-19 | a new registration is sound exactly when the registered size is not above the object's length |
| Pagers.BuildNext | aifm_changes/array.cpp:17-20 | one turn of the loop: the element is allocated and registered, or nothing changes; for sizes that fit a region it is known which |
| Pagers.ConstructArray | aifm_changes/array.cpp:17-20 | every element is allocated and registered in order; each registered size is within its object if and only if the element size fits 16 bits |
| Pagers.ElementsTotal | src/dswap.cpp:89-98 | a present array counts as its element number times the registered element size |
| Pagers.ElementsContent | aifm_changes/array.cpp:17-20 | a present array holds its element number times the element size cut to 16 bits |
| Pagers.AccountArray | aifm_changes/array.cpp:17-20 | after the constructor and a pass of the memory thread the free memory stored is the cache less what the elements really hold if and only if the 16-bit cut loses nothing (for an array of less than 2^64 bytes; the exact condition for longer ones is stated too); what they hold always fits a cache of whole regions |
| Pagers.CutSizeWraps | aifm_changes/array.cpp:18-19 | one element of 65544 bytes, allocated with 8, in a cache of 64 KiB: the free memory stored wraps to 2^64 - 8, and the pager goes on |
| Pagers.CutSizeStarves | aifm_changes/array.cpp:18-19 | the same element in a cache of 65 KiB: 1016 bytes are stored for the 66552 that are left, and the pager stops |

## Left out

- The TCP device, its protocol, `/dev/ksched`, hugepage mapping, logging, sleeps and thread priorities: foreign calls. The device is a map from object id to bytes; `is_free_cache_low`, `is_free_cache_high` and `is_free_cache_almost_empty` are parameters.
- Evacuation and copy notifiers, hopscotch tables, data-frame vectors and objects with ids of their own length: their bodies are not part of this model. The vanilla path without notifiers is; every id is an 8-byte remote address.
- `internal/pointer.ipp`, `internal/region.ipp`, `deref_scope.hpp`, `object.hpp` and `manager.hpp` are not part of this model. What their functions must do is stated as contracts: `init` leaves an object dirty, `set_present` clean, `gc_copy` keeps D and S and clears E; an allocation checks the aligned size, raises the ref count and cuts boundaries at object starts, and a failed one cuts the last boundary; `reset` clears the nt flag and the ref count; a scope adopts `expected_status` when it opens; a dereference of a marked pointer first migrates the object under its object lock; a moved-from region has no buffer of its own, so that set_nt() on it changes no region that a slot holds (if moving clears only the index, the byte goes into a region already queued or recycled); an attempt on it fails.
- The setters `set_object_data_addr`, `clear_hot` and `mutator_copy`, the counter in the low bits of the hot byte, and moving pointers: the first three are easy members, the others have no body here.
- Freeing one pointer of a shared ring: its body is not part of this model.
- The prefetcher and flat indexing of `aifm_changes/array.hpp`: no bodies.
- Liveness of the collector (it may spin when nothing can be picked) and collection of far memory, which the repository does not implement: a full far memory makes `allocate_remote_object` retry for ever (`Stuck`).
- Memory barriers: every step is atomic and sequentially consistent. In `swap_in` the read of the id and the first presence check are one step; a complete round between them, from a caller outside any scope such as the pager, is not covered.
- `Evacuation.Apply` takes what happens under one object lock as one step; SwapInRace justifies that for `swap_in`.
- A new alias of a shared ring is assumed not to sit at an address that the header of an object still names as owner; a new unique pointer may.
- The status of `gc_master_spawned_` on the early returns of `gc_cache`: GcThreads follows the code, and nothing is claimed about it.
- The `STW_GC` build: only the concurrent collector is modelled. A waiting mutator inside a scope, which ends the process, is not a step of GcThreads.
- `null` as the region given to a refill: no caller passes it.
- RegionManagement.RegionManager.PickFromRegions: between two attempts of one pick only ref counts fall; refills and allocations by other cores in between are steps of RegionRuns, whose invariant gives the distinct, collectable from-regions in every interleaving.
- Evacuation.RenewStep: one step, although the source takes no object lock; a marker that comes between the pointer's initialisation and the freeing of the old object breaks the invariant (RenewWindows.MarkOutlivesRound), and the results over whole runs do not cover it.
- FarMemManagers.FarMemManager.Deref: its body is not part of this model; the method states the contract above.
- FarMemManagers.FarMemManager.constructor: the pager that it starts is in Pagers and PagerThreads.
- FarMemManagers.FarMemManager.GcRound: one round without scopes from before it, its tasks run one after the other; Evacuation has every interleaving with mutators and every order of visits.
- FarMemManagers.FarMemManager.Create: for cores <= reserved; with more, pushes fail (RegionOverflows.PushesFitIff) and the invariant of the manager cannot be kept. The data structure ids it hands out are left out.
- RegionManagement.RegionManager.AllocateNb: a call that nothing comes between (RegionRuns.AllocIsARun); RegionRuns has the attempts and refills of several cores in any order. It stops where `allocate_local_object` would wait for the collector and start again.
- RegionManagement.RegionManager.constructor: keeps regions as values by index instead of objects that are moved between buffers, and the circular buffers as sequences; class Regions.Region is the mutable object, proved against the same values, but aliasing between queues and slots is not captured.
- RegionManagement.RoundTargetIsClamped: real numbers in place of doubles.
- Pagers.Pager.constructor: the exact tenth in place of the double product.
- Pagers.Pager.MemoryPass: the scan reads one state of memory; PagerThreads has the interleaved one.
- Pagers.Pager.PagerPass: the pass as one thread runs it; PagerThreads interleaves it.
- RemoteIds.IdsAreUnique: for runs that recycle nothing; the repository never recycles a far-memory region.
