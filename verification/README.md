# Verified models of a processor project's software

This directory models the hardest parts of the repository's software in Dafny and proves what they
promise. `dafny verify dfyconfig.toml` checks everything. Most components come in two parts: a module of
values and functions, in which the properties are stated and proved, and a `...Program` module of
classes and methods that change their state as the C code does and are proved to do what the functions
say. What the functions say in turn is pinned down by laws that do not name them: how many tics a call
runs, which byte of a file is at an address, what the bits of an entry allow, where a trap goes, which
lanes of a scatter act, which texts are memory images.

- **Lockstep game protocol** (`lockstep`, `lockstep_game`, `lockstep_runs`, `lockstep_halt`,
  `lockstep_client`, `lockstep_progress`, `node_steps`, `node_program`). Any number of nodes build one
  command per tic and send runs of them over a network that may lose, duplicate, reorder and delay
  packets. Tic numbers travel in one byte and commands sit in rings of twelve. All nodes play the same
  commands, and the game cannot get stuck. Packets of tics are delivered while they are at most 64 tics
  old, counted against the receiver's `maketic`, and those that tell of a departure at any time.
- **Reader/writer lock and scheduler** (`rwlock`, `rwlock_threads`, `scheduler`, `scheduler_program`,
  `lock_system`, `sleep_race`). Any number of threads, interleaved step by step: mutual exclusion, the
  documented fairness rules, every assertion in the code, the placement of threads, and the way from
  the hand-off of the lock to running with it.
- **Virtual memory** (`vm_state`, `vm_fault`, `vm_mapping`, `vm_run`, `vm_addresses`, `vm_index`, `vm_program`,
  `area_map`). Copy-on-write faults through a chain of page caches, reference counts, the hash index of
  cached pages, two-level tables, and the interval map of areas. The meaning of an area is the bytes it
  shows; a run leaves each area the memory that only its own stores would have left.
- **Emulator core** (`sync_memory`, `sync_program`, `traps`, `scatter_gather`, `gather_meaning`, `emulator_thread`, `tlb`,
  `tlb_program`). Synchronized stores, the two-deep trap stack, resumable scatter and gather, and the
  translation buffers.
- **Allocators** (`heap`, `slab`, `heap_program`, `linked_list`). The coalescing free list, the object
  allocator above it, and the linked lists under the kernel.
- **Data paths** (`serial`, `serial_program`, `sd_card`, `sd_commands`, `sd_program`, `file_system`, `fs_program`,
  `hex_format`, `hex_grammar`, `hex_printer`, `hex_program`, `automap`, `automap_program`). The checksummed serial
  loader, the SD driver against the SD card, the file system image and its reader, the two readers of
  memory images, and the automap's line clipper and drawer.

Where the code does not keep a promise, the model keeps the code and a lemma says exactly when the
promise holds:

- The error for too many tics in a packet is not out of reach: a retransmit request that arrives late
  stops the node that answers it. A node is safe from it when requests arrive promptly
  (`SendFailsExactly`, `LateRequestStops`, `OnlyQuittersLeave`).
- A thread that joins a wait list lets go of the spinlock before it reschedules. If it is woken in
  between, the assertion of its reschedule fails, or two hardware threads run it (`WakeDecides`,
  `WokenRunsTwice`); otherwise all is well (`UnwokenIsSafe`).
- The heap's split never stores the size of the remainder (`SplitNeedsSize`). The heap is modelled with
  that store, `candidate->size - size`, which the code evidently means.
- Growing a heap that does not end at a page boundary maps a fresh page over one that is in use
  (`GrowthMapsFreshPages`, `GrowthStaysAligned`).
- The serial loader's checksum does not cover the address (`AddressUnchecked`, `MovedUnnoticed`).
- A synchronized store checks for writes to the line since the latest synchronized load of any of its
  words, so a store to a word that was loaded before that one can lose an update (`AtomicWhereLoaded`,
  `LostUpdate`).
- A read far behind the end of a file, or one whose end wraps at 32 bits, is not clipped (`ClipExact`).
- A directory of empty files cannot be read back (`DirectoryReadable`).
- The card's byte address wraps at 32 bits (`RequestedBlock`).
- An image whose length is not a multiple of four is restored from its printed form only if its last
  bytes are zeros (`PrintedImageRestored`).
- The translation buffer matches twice, misses what was just entered or gives another address space's
  translation if the global flag of a page changes while an entry is there; a test at the insert says
  when (`InsertRightExactly`, `InsertThenHit`).
- A third level of traps comes back to the first handler's place, which is seldom the thread's
  (`DepthThreeLosesPlace`, `TrapLands`).

## Model

| member | source | states |
|---|---|---|
| `Lockstep.ExpandTicsExact` | software/apps/doom/d_net.c:120-135 | exactly which tic numbers are recovered from their low byte: every one within 64 of `maketic`, and some farther ones that lie on the right side of a byte boundary |
| `Lockstep.RingPut` | software/apps/doom/d_net.c:349-355 | storing the next tic in a ring of twelve overwrites no tic that is less than a ring away |
| `LockstepGame.BuildRing` | software/apps/doom/d_net.c:398-410 | building commands keeps the last twelve of the local history in the ring |
| `LockstepGame.PacketCarries` | software/apps/doom/d_net.c:417-430 | a packet carries, in order, exactly the commands its sender built from the tic it says it starts at |
| `LockstepGame.ReceiveTakes` | software/apps/doom/d_net.c:261-358 | a received packet changes only what is known of its sender, never loses a tic, and stores the commands the sender built |
| `LockstepGame.Window` | software/apps/doom/d_net.c:399-410 | with the invariant, the played tic, the known tics and the built tics of two nodes lie within a window of ten, which a ring of twelve can hold |
| `LockstepGame.MoveKeepsInv` | software/apps/doom/d_net.c:368-446 | every move of every node (building and sending, receiving, playing, adapting the clock, quitting) keeps the invariant of the whole game, over a network that loses, duplicates, reorders and delays packets |
| `LockstepRuns.ReachableInv` | software/apps/doom/d_net.c:368-446 | so the invariant holds after every run |
| `LockstepRuns.PlaysWhatWasBuilt` | software/apps/doom/d_net.c:738-764 | in every run, the command a node plays for a player in a tic is the one that the player's own node built for that tic (with the repeats of a duplicated tic stripped of one-time parts); a player is missing only after its node has left |
| `LockstepRuns.RepeatsOnlyMove` | software/apps/doom/d_net.c:748-761 | in every run, however often a tic is played the player moves as commanded each time, and what is said and any special action are given in the first play alone |
| `Lockstep.ReplayMeans` | software/apps/doom/d_net.c:748-761 | a replay keeps moves, turns and consistency value, clears the chat character, clears the buttons of a special action and keeps any others |
| `Lockstep.RequestsPause` | software/apps/doom/d_net.c:303-313 | a retransmit request that is answered makes the node deaf to requests in the next ten packets of its sender; the eleventh is answered again |
| `Lockstep.AdaptMeans` | software/apps/doom/d_net.c:688-710 | the first node in the game sets the pace; every other one loses a tic of its own time when it has not built more than that one, and notes whether it was ahead |
| `Lockstep.FourAhead` | software/apps/doom/d_net.c:704-708 | a tic is skipped if and only if the node was ahead in four calls in a row |
| `LockstepRuns.Agreement` | software/apps/doom/g_game.c:653-661 | in every run any two nodes play the same command for a player still in the game, as far as the slower one has come; for one that has left they differ only in that one of them plays nothing, and while nobody has left they have played the same rows |
| `LockstepRuns.QuitIsHeard` | software/apps/doom/d_net.c:276-289 | a departure can be heard of at any time: an exit packet is taken whatever the tic numbers, and takes the player out of the game |
| `LockstepRuns.WindowAlways` | software/apps/doom/d_net.c:715-742 | in every run, `gametic/ticdup <= nettics <= maketic <= gametic/ticdup + 5` across nodes, at most ten tics wait to be played, and every waiting one is in the ring; so the two errors of the playing loop cannot happen |
| `LockstepRuns.SendFailsExactly` | software/apps/doom/d_net.c:417-423 | the error for more tics than a packet holds happens exactly when some peer's resend point lies more than twelve tics back |
| `LockstepRuns.LateRequestHalts` | software/apps/doom/d_net.c:311-319 | a retransmit request is followed even if its tics have left the ring; a late one then makes the next send of the node that answers it fail |
| `LockstepHalt.LateRequestStops` | software/apps/doom/d_net.c:311-319 | and a game gets there: from the start two nodes come, by a reordered packet and a request delivered late but within the 64 tics, to a state with both in the game in which the next update stops one of them exactly if the request lies more than twelve tics back |
| `LockstepRuns.OnlyQuittersLeave` | software/apps/doom/d_net.c:420-425 | if requests are delivered before they are that old, no node ever stops except by quitting |
| `LockstepProgress.GameGoesOn` | software/apps/doom/d_net.c:368-446 | the game cannot get stuck: from every state of a game with prompt requests, whatever packets of tics are lost and whoever has left, moves in which nobody leaves (hearing of departures, building, sending, asking again, resending, playing) bring every node that is still there to any tic |
| `LockstepProgress.WordAlwaysSent` | software/apps/doom/d_net.c:614-620 | whoever has not heard that a node has left was sent word of it |
| `LockstepRuns.AncientPacketMisread` | software/apps/doom/d_net.c:120-135 | why delays must be bounded: a packet 256 tics old is taken for a new one |
| `NodeSteps.VisitIsMoves` | software/apps/doom/d_net.c:368-446 | one call of the network update is an update move followed by deliveries in the game of all nodes, and fails exactly if the update stops the node |
| `NodeSteps.RoundIsPlay` | software/apps/doom/d_net.c:738-764 | one round of the playing loop is a play move, and a clock adjustment an adapt move |
| `NodeSteps.OutboxMeans` | software/apps/doom/d_net.c:414-441 | every other node in the game is sent its packet, once and in the order of the nodes |
| `NodeSteps.Counts` | software/apps/doom/d_net.c:668-677 | how many tics a call runs: at least one; no more than are there, if any is; one more than went by if more than one would be left over, so that it catches up by exactly one; else what went by, or all that are there |
| `NodeSteps.CatchesUp` | software/apps/doom/d_net.c:668-677 | over any calls, while as many tics arrive as go by, a node that has fallen behind catches up by one tic a call until a single one is left over, and one that has not runs exactly what goes by |
| `LockstepClient.ClientPlaysTheGame` | software/apps/doom/d_net.c:636-767 | a client that takes any walk of steps in a game, among the moves of the others and with packets from the network, ends in the state that the game has for its node, and plays the rows that the game records: so agreement holds of the clients |
| `NodeProgram.NetNode.TakePacket` | software/apps/doom/d_net.c:261-358 | one packet, taken apart as the code does, changes the node as the model of receiving says |
| `NodeProgram.NetNode.BuildTics` | software/apps/doom/d_net.c:398-410 | the building loop stops where the model of building stops, with the same ring |
| `NodeProgram.NetNode.SendAll` | software/apps/doom/d_net.c:417-441 | the sending loop sends each peer its packet, moves the resend points, and fails exactly when the model says so |
| `NodeProgram.NetNode.NetUpdate` | software/apps/doom/d_net.c:368-446 | a whole update: what is sent and how the node is left |
| `NodeProgram.NetNode.AdaptClock` | software/apps/doom/d_net.c:686-712 | the clock adjustment of all but the key player |
| `NodeProgram.NetNode.PlayRound` | software/apps/doom/d_net.c:740-762 | the inner loop plays a tic `ticdup` times and strips the repeats |
| `NodeProgram.NetNode.TryRunTics` | software/apps/doom/d_net.c:636-767 | a whole call is a walk of visits, clock steps and rounds, each allowed when it is taken. How many tics it runs follows from the tics gone by, the lowest known tic after the first visit and `gametic`: at least one, never more than are there if any is, exactly one to catch up when it is behind, else what went by or all that are there. It runs them all, or none; with a tic there after the first visit it runs all, and it gives up only when twenty tics have gone by |
| `NodeProgram.NetNode.LowTic` | software/apps/doom/d_net.c:655-665 | the smallest number of tics known of a node still in the game |
| `RwLock.RwLockObject.LockRead` | software/kernel/rwlock.c:47-63 | a reader is counted or queued, and one that goes in meets no writer |
| `RwLock.RwLockObject.UnlockRead` | software/kernel/rwlock.c:65-82 | the last reader out hands the lock to the first writer waiting |
| `RwLock.RwLockObject.LockWrite` | software/kernel/rwlock.c:84-100 | a writer goes in only to an empty lock, and is queued otherwise |
| `RwLock.RwLockObject.UnlockWrite` | software/kernel/rwlock.c:102-132 | a writer lets all waiting readers in, or else hands the lock to the next writer |
| `RwLockThreads.StepKeepsInv` | software/kernel/rwlock.c:47-132 | every step of any number of threads keeps the lock safe and fair |
| `RwLockThreads.AlwaysSafe` | software/kernel/rwlock.c:52-132 | in every run: no reader while it is write locked, at most one writer, the reader count equals the readers that hold or were handed the lock, waiters imply a holder, and no assertion fails |
| `RwLockThreads.AlwaysFair` | software/kernel/rwlock.c:22-29 | in every run: at most one writer enters between a reader's queueing and its entry; writers are served first come first served with at most one batch of readers between two; no new reader enters while a writer waits |
| `Scheduler.OnlyIdleRun` | software/kernel/thread.c:277-311 | if no thread is ready then, by counting, every hardware thread runs its idle thread |
| `Scheduler.AssertionsAlwaysHold` | software/kernel/thread.c:277-311 | so there is always a thread to run, whatever happens next |
| `Scheduler.StepKeepsInv` | software/kernel/thread.c:277-401 | booting, spawning, yielding, blocking, waking, exiting and reaping keep every thread in exactly one place with the matching state |
| `Scheduler.AlwaysPlaced` | software/kernel/thread.c:277-311 | the same for every run from boot, and no dead thread is ever run |
| `LockSystem.AlwaysLinked` | software/kernel/rwlock.c:39-132 | lock and scheduler as one system, in every run: who waits for the lock sleeps on its list and nowhere else, who was handed it is ready or runs, and every step meets the assertions of both |
| `LockSystem.HandOffBound` | software/kernel/thread.c:389-401 | an unlock puts those whom it hands the lock behind the ready threads, in the order of their list, so that fewer reschedules than there are threads come before each of them runs |
| `LockSystem.HandedRuns` | software/kernel/rwlock.c:39-45 | a thread that was handed the lock at position k of the ready queue runs at the k+1st reschedule, still holds the lock then, and its hardware thread can do nothing but go on with it |
| `SleepRace.UnwokenIsSafe` | software/kernel/rwlock.c:39-45 | between queueing and the reschedule a thread is still the current one: as long as no other hardware thread wakes it, whatever else they do, its reschedule meets its assertions and leaves every thread in its place |
| `SleepRace.WakeDecides` | software/kernel/thread.c:286-298 | after any step of the others that reschedule meets its assertion if and only if the step did not wake the thread; nothing in the code keeps it from being woken |
| `SleepRace.WokenRunsTwice` | software/kernel/thread.c:299-308 | and if another hardware thread takes the woken thread first, two of them run it |
| `Scheduler.ServedInOrder` | software/kernel/thread.c:289-305 | the thread at position k of the ready queue runs at the k+1st reschedule |
| `SchedulerProgram.Threads.BootInitThread` | software/kernel/thread.c:69-87 | the idle thread of a hardware thread |
| `SchedulerProgram.Threads.Reschedule` | software/kernel/thread.c:277-311 | the running thread goes to the end of the queue if it can still run, and the first one runs |
| `SchedulerProgram.Threads.SpawnThread` | software/kernel/thread.c:120-142 | a new thread is ready and at the end of the queue |
| `SchedulerProgram.Threads.Yield` | software/kernel/main.c:58-79 | a thread that reschedules goes on when its turn comes, as idle threads do for ever |
| `SchedulerProgram.Threads.WaitOn` | software/kernel/rwlock.c:39-45 | a thread joins a wait list and gives up its hardware thread in one step |
| `SchedulerProgram.Threads.WakeFirst` | software/kernel/rwlock.c:74-79 | the first of a wait list becomes ready |
| `SchedulerProgram.Threads.ThreadExit` | software/kernel/thread.c:368-387 | a thread that exits is queued for the reaper and never runs again, so the panic after its last reschedule is out of reach |
| `SchedulerProgram.Threads.MakeThreadReady` | software/kernel/thread.c:389-401 | a waiting thread joins the end of the ready queue |
| `SchedulerProgram.Threads.HarvestOne` | software/kernel/thread.c:204-230 | the reaper takes one dead thread, which nobody runs |
| `AreaMaps.InsertKeeps` | software/kernel/vm_area_map.c:132-164 | an area put where it fits leaves the map sorted, disjoint, aligned and in bounds |
| `AreaMaps.DestroyUndoesCreate` | software/kernel/vm_area_map.c:208-212 | destroying what was just created restores the map |
| `AreaMaps.AreaMap.SearchUp` | software/kernel/vm_area_map.c:32-82 | the upward search finds the lowest free range at or above the request, or there is none; it refuses only requests that reach the end of the map |
| `AreaMaps.AreaMap.SearchDown` | software/kernel/vm_area_map.c:84-130 | the downward search finds the highest free range ending at or below the request, or there is none |
| `AreaMaps.AreaMap.IsRoomy` | software/kernel/vm_area_map.c:106-126 | the test for room is one too generous, which page alignment makes exact |
| `AreaMaps.AreaMap.InsertFixed` | software/kernel/vm_area_map.c:132-164 | an area at a fixed place is made if and only if the range is in the map and free |
| `AreaMaps.AreaMap.CreateArea` | software/kernel/vm_area_map.c:174-206 | sizes are rounded up to pages; a fixed area is made if and only if it fits, a searched one at the lowest or highest place, or there is none; everything else stays |
| `AreaMaps.RoundedToPages` | software/kernel/vm_area_map.c:169-180 | a bound or address is rounded down to the one page boundary at or less than a page below it, a size up to the one at or less than a page above it |
| `AreaMaps.AreaMap.DestroyArea` | software/kernel/vm_area_map.c:208-212 | exactly that area goes |
| `AreaMaps.AreaMap.LookupArea` | software/kernel/vm_area_map.c:219-231 | the one area that holds the address, or none does |
| `VmFault.FindPageFinds` | software/kernel/vm_address_space.c:267-375 | whatever way the search through the chain of caches takes (a cached page, a file read, a copy, an empty page, memory permitting), it ends with the page the area is to see, no area sees a change, and a store gets a page of the area's own cache |
| `VmFault.SearchResult` | software/kernel/vm_address_space.c:276-352 | the walk stops at the first cache that holds the page or has a file |
| `VmFault.WritableHead` | software/kernel/loader.c:103-114 | a cache that a writable area uses directly is at the head of every chain it is in |
| `VmFault.FreeUnused` | software/kernel/vm_page.c:51-93 | a page on the free list is in no cache and in no page table |
| `VmMapping.FaultMeaning` | software/kernel/vm_address_space.c:245-425 | a fault is refused only for a store to a read-only area; a handled one keeps the whole invariant, changes no byte that any area shows, and maps exactly the bytes the area's chain gives: the first cached page, else file bytes and then zeros, else zeros |
| `VmMapping.MappedCounts` | software/kernel/vm_address_space.c:388-393 | counting the mapping keeps every reference count at least the uses of the page |
| `VmMapping.DirtyIsOwn` | software/kernel/vm_address_space.c:399-411 | a dirty page found by a search is in the searching area's own cache, so a read-only source page is never mapped writable |
| `VmMapping.ThreePagesSuffice` | software/kernel/vm_address_space.c:283-352 | three free pages are enough for any fault |
| `VmAddresses.FirstFaultMapsFile` | software/kernel/vm_address_space.c:268-335 | a first fault maps at byte x of an area the byte x of the file behind its caches, counted from the area's offset, and zero past the end of the file or of the area's part of it |
| `VmAddresses.WritableIsNoted` | software/kernel/vm_address_space.c:399-420 | a page is mapped writable if and only if the area is writable and the page is marked dirty, so the first store to a clean page faults and is noted; execution is as for the area |
| `VmAddresses.LoadsByAddress` | software/kernel/vm_address_space.c:245-425 | over every run, a load at byte x of an area that was nowhere cached at the start gives the area's own last store to that byte or, if there was none, byte x of its file counted from the area's offset, and zero past the end |
| `VmRun.StoreWritesOne` | software/kernel/vm_address_space.c:399-423 | a store through a writable mapping changes one byte of one page of one area, as every area sees it |
| `VmRun.NewCacheKeeps` | software/kernel/vm_cache.c:39-51 | a new cache changes nothing that an area shows |
| `VmRun.NewAreaKeeps` | software/kernel/vm_address_space.c:93-130 | a new area that keeps to the rules for sharing keeps the invariant |
| `VmRun.PrivateMemory` | software/kernel/vm_address_space.c:245-425 | over every run of faults, stores and new caches and areas, an area shows what it showed at the start with its own stores applied in order: copy on write cannot be seen |
| `VmRun.LoadsSeeOwnStores` | software/kernel/vm_address_space.c:245-425 | so a load through any mapping reads the area's own last store, or what was there at first |
| `VmRun.SourcesNeverWritten` | software/kernel/loader.c:103-114 | a cache that others copy from has no dirty page and none that is mapped writable |
| `VmRun.FreePagesUnused` | software/kernel/vm_page.c:51-93 | after every run, free pages are neither cached nor mapped |
| `VmRun.CountsCoverUses` | software/kernel/vm_page.c:76-93 | after every run a page has at least as many references as uses: one if it is cached and one for each entry that maps it |
| `VmRun.FreshIsGood` | software/kernel/vm_page.c:34-49 | the machine starts with every page free, which every run may start from |
| `VmIndex.IndexInjective` | software/kernel/vm_cache.c:107-139 | the hash index has one page per key and one key per page |
| `VmIndex.IndexInserts` | software/kernel/vm_cache.c:107-121 | inserting into a bucket inserts into the plain map that the buckets stand for |
| `VmIndex.IndexRemoves` | software/kernel/vm_cache.c:141-147 | and taking out of a bucket removes from it, though the page still remembers its cache |
| `VmIndex.EntryWritten` | software/kernel/vm_translation_map.c:228-243 | writing one word of a second-level table changes the translation of one page |
| `VmIndex.TableAdded` | software/kernel/vm_translation_map.c:231-236 | a new second-level table changes no translation |
| `VmProgram.Kernel.AllocatePage` | software/kernel/vm_page.c:51-74 | the first free page, cleared, with one reference |
| `VmProgram.Kernel.DecPageRef` | software/kernel/vm_page.c:81-93 | the last reference puts the page at the front of the free list |
| `VmProgram.Kernel.InsertCachePage` | software/kernel/vm_cache.c:107-121 | the index gains the page under its key |
| `VmProgram.Kernel.LookupCachePage` | software/kernel/vm_cache.c:123-139 | the walk through a bucket finds the page of the key, and finds it if it is there |
| `VmProgram.Kernel.RemoveCachePage` | software/kernel/vm_cache.c:141-147 | the index loses exactly that key |
| `VmProgram.Kernel.MapPage` | software/kernel/vm_translation_map.c:228-243 | the two-level walk enters the translation, making a table if there is none |
| `VmProgram.Kernel.QueryTranslationMap` | software/kernel/vm_translation_map.c:245-290 | the walk reads what was entered last |
| `VmProgram.Kernel.ReadFilePage` | software/kernel/vm_address_space.c:294-335 | a page read from a file: its bytes, then zeros from the end of the area's part or of the file |
| `VmProgram.Kernel.SearchCaches` | software/kernel/vm_address_space.c:276-352 | the loop down the chain, with its placeholder page, is the search of the model |
| `VmProgram.Kernel.SoftFault` | software/kernel/vm_address_space.c:245-425 | the code's order of search, copy, reference counts and mapping is the fault of the model; and of an area for which nothing is cached, byte i of page v then shows the byte of the file that lies (v - low) pages and i bytes behind the area's offset, and zero past the end of the area's part or of the file |
| `SyncMemory.SyncStoreIsAtomic` | tools/emulator/processor.c:1375-1393 | over every interleaving: a synchronized store succeeds if and only if this thread's latest synchronized load was of its line and nobody wrote the line since, and otherwise changes nothing; if that load was of the stored word, it replaces memory by the update of that very word |
| `SyncMemory.AtomicWhereLoaded` | tools/emulator/processor.c:1375-1393 | a successful store is sure to update the word that is in memory if and only if it goes to the word of the latest synchronized load (or to another line, where it never succeeds): the check is of the line |
| `SyncMemory.LostUpdate` | tools/emulator/processor.c:1375-1378 | load a word, let another thread store to it, load another word of the line: the store to the first word succeeds and the other thread's store is lost |
| `SyncMemory.RetryLoopsAreAtomic` | tools/emulator/processor.c:1319-1322 | whatever the interleaving of loops that store where they loaded with plain, partial, block and other stores to the word, it ends as if the successful updates and the other stores had run one after the other |
| `SyncMemory.WriteKeepsInv` | tools/emulator/processor.c:674-683 | a write cancels the reservations of its line and leaves the others standing |
| `SyncMemoryProgram.MemoryCore.InvalidateSyncAddress` | tools/emulator/processor.c:674-683 | the loop over the threads clears exactly the matching reservations |
| `SyncMemoryProgram.MemoryCore.SyncLoad` | tools/emulator/processor.c:1319-1322 | the word, and a reservation of its line |
| `SyncMemoryProgram.MemoryCore.SyncStore` | tools/emulator/processor.c:1375-1393 | stores and reports 1, or does nothing and reports 0 |
| `SyncMemoryProgram.MemoryCore.ScalarStore` | tools/emulator/processor.c:1404-1406 | a plain store cancels reservations of its line |
| `SyncMemoryProgram.MemoryCore.BlockStore` | tools/emulator/processor.c:1486-1508 | a block store writes the masked lanes, and cancels reservations if there are any |
| `Traps.TrapGoesTo` | tools/emulator/processor.c:732-796 | where a trap goes, from the place before the instruction: stopped on if and only if it is a fault that nobody handles or that the emulator is told to stop on, else a miss to its own handler with translation off and all others to the common one; what is saved is the place of the thread, and the access address and a cause that decodes to the kind, store and data of the trap |
| `Traps.CauseDecodes` | software/kernel/asm.h:49-60 | the kernel's numbers of the traps, in the low four bits of the cause, and the bits for store and data tell which trap it was |
| `Traps.DepthOneResumes` | tools/emulator/processor.c:732-796 | a trap whose handler is not trapped resumes at the exact pc, flags, subcycle and registers |
| `Traps.DepthTwoResumes` | tools/emulator/processor.c:732-796 | so does any trap that is trapped at most once more inside its handler |
| `Traps.TrapLands` | tools/emulator/processor.c:732-796 | where a trap resumes for nests of any depth: exactly the place its return leads to is computed, and it is the trapped one if and only if the two are equal |
| `Traps.DepthThreeLosesPlace` | tools/emulator/processor.c:732-796 | if a trap inside the first handler is itself trapped, the thread comes back, whatever the handlers do, to where that handler was when it took the last such trap, and so to its own place if and only if the two places are the same |
| `ScatterGather.LaneAdvances` | tools/emulator/processor.c:1511-1595 | one lane step does one more lane of the instruction, even when a gather overwrites its own pointers |
| `ScatterGather.SixteenLanesAreAtomic` | tools/emulator/processor.c:1511-1595 | sixteen lane steps, with traps of depth at most two between or on them whose handlers restore registers and may write other words, equal the whole instruction: each masked lane acts exactly once |
| `GatherMeaning.OneSetNamed` | tools/emulator/processor.c:1526-1541 | the low 16 bits of the mask register are the sum of the powers of two of exactly one set of lanes; without a mask it is all sixteen |
| `GatherMeaning.LaneMeans` | tools/emulator/processor.c:1543-1562 | what stops a lane: an unaligned address if the lane is named, else what the translation of the pointer plus the offset modulo 2^32 says, named or not; the trap carries that address, store and data; and when a lane is done |
| `GatherMeaning.NamedLanesAct` | tools/emulator/processor.c:1543-1595 | when the instruction is done, with traps between and on its lanes, exactly the lanes that the digits of its mask name have acted, once each and in ascending order, and it stands behind itself |
| `GatherMeaning.GatherLoads` | tools/emulator/processor.c:1563-1571 | each named lane of a gather then holds the word at the place of its own pointer plus the offset modulo 2^32, as it was before the instruction; every other lane and register is as before |
| `GatherMeaning.ScatterStores` | tools/emulator/processor.c:1572-1589 | each named lane of a scatter is stored at the place of its pointer plus the offset, the highest lane where several meet; every other word has what it had or what a handler wrote |
| `EmulatorThread.HardwareThread.RaiseTrap` | tools/emulator/processor.c:732-796 | what is pushed on the trap stack, and what the handler finds: a miss goes on at the miss handler with translation off, every other trap at the trap handler with translation as it was; interrupts off, supervisor on, subcycle 0, and a saved cause and address that tell the trap. A fault that is stopped on leaves the thread at its instruction |
| `EmulatorThread.HardwareThread.TryToDispatchInterrupt` | tools/emulator/processor.c:685-701 | an interrupt is taken if it is pending and enabled |
| `EmulatorThread.HardwareThread.Eret` | tools/emulator/processor.c:1863-1883 | the return from a trap, and the interrupt that may follow at once |
| `EmulatorThread.HardwareThread.ExecuteScatterGather` | tools/emulator/processor.c:1511-1595 | one lane is done, or the trap of its address (unaligned, missing, absent, supervisor or read-only page) is taken before anything is changed, as the translation buffer says; `LaneMeans`, `NamedLanesAct`, `GatherLoads` and `ScatterStores` say in terms of mask digits and pointers what that is |
| `Tlb.InsertRightExactly` | tools/emulator/processor.c:1920-1971 | at most one way matching, and every hit giving the translation entered last, survive an insert if and only if its global flag passes a test: a global one leaves no other entry of the page, one that is not does not change a global entry of another address space |
| `Tlb.InvalidateKeepsRight` | tools/emulator/processor.c:1973-1996 | invalidating a page in every way that holds it keeps both |
| `Tlb.RunRightExactly` | tools/emulator/processor.c:1920-1996 | a run of inserts and invalidations keeps both throughout if and only if every insert passes the test |
| `Tlb.SteadyFlagOk` | tools/emulator/processor.c:1948-1957 | the test is passed if the page was invalidated before its global flag changes |
| `Tlb.BufferAgreesWithHistory` | tools/emulator/processor.c:798-884 | under any mix of inserts that pass the test, evictions and invalidations, a translated access is treated by the buffer as if there were room for every entry, or it misses |
| `Tlb.SteadyRunsAgree` | tools/emulator/processor.c:798-884 | so it is in every run that invalidates a page before it changes the page's flag |
| `Tlb.TranslateMeans` | tools/emulator/processor.c:824-878 | what the flags of an entry mean, bit by bit: the same for every buffer, and a miss if and only if none of the four entries of the set of the page covers the access |
| `Tlb.LatestInsertDecides` | tools/emulator/processor.c:798-884 | after any run of inserts that pass the test and invalidations, an access that hits is answered by the bits of the latest insert for its page: allowed if and only if present, no supervisor page for a user, executable for a fetch, writable for a store, with its frame |
| `Tlb.EntryLasts` | tools/emulator/processor.c:1934-1968 | the ways are replaced in turn: a newly entered page stays through the next three inserts and any invalidations of other pages |
| `Tlb.InsertThenHit` | tools/emulator/processor.c:1920-1971 | an access right after the insert of its page hits with what was inserted, unless the insert took the flag from a global entry of another address space: then it misses |
| `Tlb.MadeGlobalMatchesTwice` | tools/emulator/processor.c:1948-1961 | a page entered for one address space and then made global by another matches twice, and the old translation is used |
| `Tlb.MadePrivateGoesToOther` | tools/emulator/processor.c:1950-1957 | a global page entered again by another address space for itself alone is missed by that space and changed for the first |
| `TlbProgram.TlbArray.TranslateAddress` | tools/emulator/processor.c:798-884 | the loop over the ways and its checks, in their order, and the path without translation. Of an access that an entry of its set covers: it goes through if and only if the entry is present, a user meets no supervisor page, a fetch an executable one and a store a writable one, and then keeps the frame of the entry and the offset of the page; which fault wins otherwise; addresses between memory and devices stop the emulator |
| `TlbProgram.TlbArray.InvalidatePage` | tools/emulator/processor.c:1973-1996 | every way of the set that holds the page is emptied |
| `TlbProgram.TlbArray.InsertEntry` | tools/emulator/processor.c:1920-1971 | updates a matching way, or replaces the next one in turn |
| `Heap.InsertAdds` | software/kernel/kernel_heap.c:114-154 | inserting a range keeps the list sorted and never adjacent, and adds exactly its bytes |
| `Heap.FreeListUnique` | software/kernel/kernel_heap.c:138-153 | the set of free bytes determines the list |
| `Heap.MallocLowest` | software/kernel/kernel_heap.c:52-91 | a block comes from the lowest address at which that many free bytes lie in a row, and the heap grows if and only if there is none |
| `Heap.SplitNeedsSize` | software/kernel/kernel_heap.c:64-72 | the split leaves the right bytes free if and only if the size of the remainder is stored, which the code does not do |
| `Heap.MallocKeepsInv` | software/kernel/kernel_heap.c:41-100 | free ranges and blocks go on tiling the heap, and the block is a new one |
| `Heap.FreeKeepsInv` | software/kernel/kernel_heap.c:102-112 | also when a block is given back, and exactly its bytes become free |
| `Heap.FreeUndoesMalloc` | software/kernel/kernel_heap.c:41-112 | giving a block back at once restores the heap, or leaves it as it was with the grown part free |
| `Heap.FreesCommute` | software/kernel/kernel_heap.c:102-112 | the order in which blocks are given back does not matter |
| `Heap.AlwaysTiled` | software/kernel/kernel_heap.c:41-154 | after any calls every byte from the base to the wilderness is in exactly one free range or block; with every block given back the heap is one range |
| `Heap.GrowthMapsFreshPages` | software/kernel/kernel_heap.c:76-88 | growth maps a page over one in use if and only if the heap does not end at a page boundary |
| `Heap.GrowthStaysAligned` | software/kernel/kernel_heap.c:76-90 | the heap goes on ending at page boundaries if and only if the block is small or a multiple of half a page |
| `HeapProgram.KernelHeap.Kmalloc` | software/kernel/kernel_heap.c:41-100 | the walk, the cut and the growth are the allocation of the model |
| `HeapProgram.KernelHeap.Kfree` | software/kernel/kernel_heap.c:102-112 | giving back is the insertion of the model |
| `HeapProgram.KernelHeap.InsertFreeRange` | software/kernel/kernel_heap.c:114-154 | walking to the place and merging with the next and then the previous range is insertion into the sorted list |
| `Slab.AllocKeeps` | software/kernel/slab.c:22-52 | an object that is handed out was not in use and lies in a slab of its allocator |
| `Slab.LiveApart` | software/kernel/slab.c:22-62 | no two live things, blocks or objects of any allocators on the heap, share a byte |
| `Slab.AlwaysApart` | software/kernel/slab.c:22-62 | the same after any run of allocations and releases |
| `Slab.LastBackFirstOut` | software/kernel/slab.c:28-62 | the object that was given back last is handed out first, and the allocator is then as it was |
| `HeapProgram.SlabAllocator.SlabAlloc` | software/kernel/slab.c:22-52 | the free list, the current slab and a new slab in turn, as the model says |
| `HeapProgram.SlabAllocator.SlabFree` | software/kernel/slab.c:54-62 | the object goes to the front of the free list |
| `LinkedList.AddAfter` | software/kernel/list.h:112-121 | splicing a node into the ring after another |
| `LinkedList.Init` | software/kernel/list.h:30-36 | a node on its own is the empty ring |
| `LinkedList.AddHead` | software/kernel/list.h:38-47 | a node at the front of the list |
| `LinkedList.PeekHead` | software/kernel/list.h:96-102 | the first member |
| `LinkedList.PeekTail` | software/kernel/list.h:104-110 | the last member |
| `LinkedList.AddTail` | software/kernel/list.h:49-58 | a node at the end of the list |
| `LinkedList.RemoveNode` | software/kernel/list.h:60-68 | taking a node out of whatever list it is in |
| `LinkedList.RemoveHead` | software/kernel/list.h:70-81 | the first member, if there is one |
| `LinkedList.Next` | software/kernel/list.h:134-141 | the member after another, and none after the last |
| `LinkedList.Members` | software/kernel/list.h:161-163 | a pass visits the members in order and ends |
| `Automap.ClipShortens` | software/apps/doom/am_map.c:909-969 | one round never divides by zero, keeps both ends in the box of the line, and strictly shortens it |
| `Automap.ClipIsClose` | software/apps/doom/am_map.c:924-951 | the new end is less than a pixel off the crossing along the side of the frame |
| `Automap.ClipStays` | software/apps/doom/am_map.c:909-970 | an accepted line lies inside the frame and inside the box of the line it was cut from |
| `Automap.ClipDecides` | software/apps/doom/am_map.c:909-913 | a line inside the frame is left alone, and one whose box misses the frame is rejected |
| `Automap.ClipFits` | software/apps/doom/am_map.c:924-951 | coordinates up to 23170 keep every product in 32 bits, in every round |
| `Automap.DrawnInside` | software/apps/doom/am_map.c:1006-1048 | a line between points of the frame is drawn wholly inside it, both ends included |
| `Automap.NearestUnique` | software/apps/doom/am_map.c:1021-1047 | at each step along the longer axis one point is within half a pixel of the ideal line (the farther of two equally near) |
| `Automap.DrawnPath` | software/apps/doom/am_map.c:1006-1048 | the drawing is a path of max(dx, dy) + 1 different points, each next to the one before, from one end to the other |
| `AutomapProgram.ClipLine` | software/apps/doom/am_map.c:909-970 | the loop computes the clip of the model, and ends |
| `AutomapProgram.DrawLine` | software/apps/doom/am_map.c:978-1049 | exactly the drawn points of the frame buffer get the colour, and none if an end is outside |
| `AutomapProgram.DrawClipped` | software/apps/doom/am_map.c:1056-1064 | what is drawn of a line is what the clip accepts of it |
| `Serial.OneByteSeparates` | tools/serial_boot/serial_boot.c:193-196 | blocks of one length that differ in exactly one byte have different FNV-1a checksums |
| `Serial.TimesPrimeInjective` | software/bootrom/boot.c:99-104 | multiplying by the prime loses nothing modulo 2^32 |
| `Words.LongRoundTrip` | tools/serial_boot/serial_boot.c:112-128 | a word sent lowest byte first and shifted in again is the word |
| `Serial.LoadServed` | software/bootrom/boot.c:94-110 | the target takes a load message for what the host meant, whatever bytes follow |
| `Serial.ClearServed` | software/bootrom/boot.c:112-119 | and a clear message too |
| `Serial.ServedBytes` | software/bootrom/boot.c:94-119 | byte by byte, a load changes what it names to the data and a clear to zero, and nothing else |
| `Serial.OtherServed` | software/bootrom/boot.c:121-135 | any other byte is a command by itself: execute and ping are acknowledged and the rest refused, in one byte; memory and what follows stay |
| `Serial.KnownChecksums` | software/bootrom/boot.c:100-104 | the checksum starts and mixes as 32 bit FNV-1a does: its values of no byte, of a zero and of a two |
| `Serial.XorUndone` | software/bootrom/boot.c:104 | exclusive or with the same byte twice gives the word back |
| `Serial.AddressUnchecked` | software/bootrom/boot.c:94-110 | the reply to a load does not depend on the address: with a damaged one the load is answered as meant, the block is in its place if and only if the write elsewhere leaves the data there, and memory is as meant if and only if both places then hold the data |
| `Serial.MovedUnnoticed` | tools/serial_boot/serial_boot.c:160-213 | so the loader reports success for a moved block exactly as for one in its place |
| `Serial.SegmentArrives` | tools/serial_boot/serial_boot.c:657-693 | if no block is moved, success means that memory holds the data, and nothing outside the segment changes in any case |
| `Serial.ChecksumTells` | tools/serial_boot/serial_boot.c:192-211 | with at most one damaged payload byte, the checksum comes back right if and only if the block arrived right |
| `Serial.RetriesGetThrough` | tools/serial_boot/serial_boot.c:657-693 | however many blocks are damaged, enough undamaged ones on a line that can be fixed get the segment through |
| `SerialProgram.Memset` | software/bootrom/boot.c:143-168 | word and byte stores together fill exactly the stretch |
| `SerialProgram.Target.Command` | software/bootrom/boot.c:86-136 | one turn of the command loop: memory, what is left to read, and the reply |
| `SerialProgram.Loader.LoadMemory` | tools/serial_boot/serial_boot.c:160-213 | the load reports success if and only if it was heard and the bytes of the block arrived right, wherever they went |
| `SerialProgram.Loader.SendSegment` | tools/serial_boot/serial_boot.c:657-693 | it succeeds exactly as the line allows and leaves memory as the line says; if no block was moved, success means that memory holds the data, and nothing outside the segment changes in any case |
| `SdCard.CommandHeard` | tools/emulator/sdmmc.c:246-258 | six bytes make the card carry out the command |
| `SdCard.GoIdle` | tools/emulator/sdmmc.c:142-150 | the reset is answered with the idle flag |
| `SdCard.SendIfCond` | tools/emulator/sdmmc.c:157-162 | the interface condition is answered with voltage and check pattern (section 7.3.2.6) |
| `SdCard.AppOpCond` | tools/emulator/sdmmc.c:125-132 | the card wakes up at the first operating condition command (section 7.3.2.4) |
| `SdCard.ReadStarts` | tools/emulator/sdmmc.c:176-199 | a read is answered within the driver's patience, for every wait the card may choose |
| `SdCard.RequestedBlock` | tools/emulator/sdmmc.c:184 | the block that is read is the one asked for if and only if it lies in the first four gigabytes |
| `SdCard.WrittenBlockReadBack` | tools/emulator/sdmmc.c:202-213 | a block that was written is the one that is read back, for every wait the card may choose, and the other blocks stay; a disk that is written behind its end grows |
| `SdCommands.SendOpCond` | tools/emulator/sdmmc.c:152-155 | the older operating condition command wakes the card up |
| `SdCommands.SetBlockLength` | tools/emulator/sdmmc.c:164-174 | a card that is awake takes any block length and has that much room |
| `SdCommands.AsleepGivesUp` | tools/emulator/sdmmc.c:164-206 | commands for blocks to a card that is asleep make the emulator give up |
| `SdCommands.NoCard` | tools/emulator/sdmmc.c:142-150 | without a card the reset is not answered, however long one asks |
| `SdCommands.ConditionEchoed` | tools/emulator/sdmmc.c:282-300 | the four bytes behind the first answer to an interface condition: two zeros, the low four bits of the voltage, and the check pattern |
| `SdCommands.ReadWaits` | tools/emulator/sdmmc.c:303-324 | the card waits before its answer and before the data for the low four bits of what it drew |
| `SdCommands.WriteAccepted` | tools/emulator/sdmmc.c:355-380 | after a block and its checksum the card answers that the data was accepted |
| `SdCommands.GapReadsZero` | tools/emulator/sdmmc.c:365-380 | where the disk grows for a block behind its end, the bytes between read as zero and the old ones as before |
| `SdProgram.SdMmc.TransferByte` | tools/emulator/sdmmc.c:227-385 | the card's state machine, byte by byte |
| `SdProgram.SdMmc.ProcessCommand` | tools/emulator/sdmmc.c:120-225 | what each command does to it |
| `SdProgram.SdDriver.SendSdCommand` | software/kernel/sd_card.c:61-81 | six bytes, and then polling for an answer a bounded number of times |
| `SdProgram.SdDriver.InitSdDevice` | software/kernel/sd_card.c:83-145 | initialization succeeds against the card and leaves it ready for reads |
| `SdProgram.SdDriver.ReadSdDevice` | software/kernel/sd_card.c:147-177 | a read returns exactly the block on the disk, whatever the waits, and leaves the card idle; a block that is not there is an error |
| `FileSystem.HeaderInImage` | tools/mkfs/mkfs.c:100-104 | the image begins with the directory |
| `FileSystem.FileInImage` | tools/mkfs/mkfs.c:106-150 | every file lies in the image at its place, in whole blocks |
| `FileSystem.DirectoryRead` | tools/mkfs/mkfs.c:73-92 | the kernel decodes from the directory what the tool put there |
| `FileSystem.DirectoryReadable` | software/kernel/fs.c:101-112 | the directory can be read block by block if and only if some file has data or the directory happens to fill its last block |
| `FileSystem.ClipExact` | software/kernel/fs.c:148-155 | the clipped size is right if and only if the sum does not wrap below the file's end and a read past the end is not too far behind it; a negative size is taken for nothing, unless its sum lies past the end |
| `FileSystem.FileRestored` | software/kernel/fs.c:144-195 | what lies on the disk where the handle points is the part of the file that was asked for |
| `FsProgram.MakeImage` | tools/mkfs/mkfs.c:62-152 | the tool writes the image of the model |
| `FsProgram.FileReader.InitFileSystem` | software/kernel/fs.c:84-114 | the directory is read into memory if and only if the disk starts with the magic number |
| `FsProgram.FileReader.OpenFile` | software/kernel/fs.c:116-142 | the handle of the first file of the name |
| `FsProgram.NameFound` | software/kernel/fs.c:126-139 | on a disk the tool made, the file of a name is found |
| `FsProgram.FileReader.ReadFile` | software/kernel/fs.c:144-195 | the bytes of the disk at the handle's place, as many as the clipped size, and nothing else in memory changes |
| `FsProgram.ReadNamedFile` | software/kernel/fs.c:115-195 | from a card in its reset state with an image of the tool on it: waking the card, reading the directory, finding the name and reading give exactly the part of that file that was asked for |
| `HexFormat.ParsersAgree` | tools/serial_boot/serial_boot.c:428-588 | a text that the emulator loads leaves the same memory as the loader's segments sent in order |
| `HexFormat.EventsMatch` | tools/emulator/util.c:107-268 | word for word, the running address and the end of the current segment stay together |
| `HexGrammar.GrammarExact` | tools/emulator/util.c:132-264 | a text is accepted if and only if it can be divided into words of at most 32 bits, addresses, white space and the two kinds of comment, no number directly before a digit; it then says the values of its digits in base sixteen, in order, however it is divided |
| `HexProgram.HexScanner.Turn` | tools/emulator/util.c:132-264 | one turn of the scanner loop, with its pushed-back character, makes progress and means what the grammar says |
| `HexProgram.ReadIntoMemory` | tools/emulator/util.c:107-268 | the emulator's reader loads the memory that the text describes, or reports an error |
| `HexProgram.ReadSegments` | tools/serial_boot/serial_boot.c:428-588 | the loader's reader makes the segments that the text describes, or reports an error |
| `HexProgram.RoomGrows` | tools/serial_boot/serial_boot.c:400-407 | a segment's buffer is grown in time for one more word, and never made smaller |
| `HexProgram.PowerTest` | tools/serial_boot/serial_boot.c:402-403 | the bit trick tells the powers of two |
| `HexProgram.SegmentBuffer.AppendToSegment` | tools/serial_boot/serial_boot.c:400-412 | the word is added behind the old contents, highest byte first |
| `HexPrinter.PrintParses` | tools/misc/bin2hex.py:28-35 | a printed image is read as its words |
| `HexPrinter.PrintLayout` | tools/misc/bin2hex.py:28-35 | where each byte stands in the printed image: two lower-case digits, the higher first, four bytes to a line |
| `HexPrinter.PrintedImageRestored` | tools/misc/bin2hex.py:28-35 | the loader's segment is the bytes if and only if there are whole words of them; memory, which both readers leave the same, has the bytes back if and only if a trailing short word is all zeros, and is otherwise unchanged if and only if the bytes that fill up that word were zeros |
| `HexProgram.PrintImage` | tools/misc/bin2hex.py:28-35 | the printing loop prints the image line by line |

## Left out

Narrower than the code:

- LockstepRuns.PlaysWhatWasBuilt: packets of tics are delivered while at most 64 tics old; older ones are misread, as `AncientPacketMisread` shows. Players and network nodes have the same numbers, there are no drones, demos, set-up packets or single-tic mode, the checksum of packets is assumed to work, and quitting is one move whose packets are delivered in any order.
- LockstepRuns.Agreement: whole rows are equal while nobody has left; nodes may learn of a departure in different tics, so that one still plays the player's last commands and another does not.
- LockstepProgress.GameGoesOn: of games in which requests were prompt and word of departures is not lost; without it the others wait for the departed node for ever.
- NodeSteps.CatchesUp: while in every call a tic goes by and as many arrive; when none arrive the calls wait, which is the subject of `GameGoesOn`.
- RwLockThreads.AlwaysSafe: queueing and blocking are one step here and in `LockSystem` and `Scheduler`; what can come between them is the subject of `SleepRace`.
- LockSystem.HandedRuns: one lock, whose users do not exit while they have to do with it.
- SleepRace.WokenRunsTwice: with an empty ready queue; behind others the thread is taken later.
- Scheduler.AlwaysPlaced: queueing for the reaper and dying are one step; preemption and time slices only add reschedules, and the contents of threads and processes are not modelled.
- SchedulerProgram.Threads.MakeThreadReady: states the change of one thread and the queue; callers take the thread from its wait list first.
- AreaMaps.AreaMap.SearchUp: assumes that request and size do not wrap at 32 bits, that the size is no larger than the map, and that the map does not end at 0xffffffff.
- AreaMaps.AreaMap.SearchDown: assumes the same of the other end: the size is no larger than the request or the map, and the map does not begin at address 0.
- AreaMaps.AreaMap.InsertFixed: assumes an aligned address, and a size and address that are not both zero.
- VmMapping.FaultMeaning: a fault is one step. The busy flag, the moment without the lock during a file read, and read errors are not modelled; running out of memory ends the run, as the kernel's panic does. Areas with no cache, which are wired device memory, and accesses to addresses outside every area are not modelled.
- VmRun.PrivateMemory: caches and areas are created but not destroyed, so the counts of cache references are not modelled; `destroy_area` drops page references without clearing page table entries. Areas that share a cache follow the loader: a source cache is not written directly, a written area shares no page of its cache, and areas that reach the same file agree on where it ends.
- VmAddresses.LoadsByAddress: of an area for whose caches nothing is cached when the run starts; `VmRun.LoadsSeeOwnStores` speaks of any.
- VmIndex.IndexInjective: an equality of maps, but for page tables: a page's count of references may be higher than its uses, since faulting again on a mapped page counts it again.
- VmProgram.Kernel.MapPage: the half of the address space that belongs to the user, and kernel entries whose table is there already; the first kernel mapping in a table is entered into the directories on a list that the kernel's own is not on.
- VmProgram.Kernel.QueryTranslationMap: the same half.
- VmProgram.Kernel.DecPageRef: a page whose last reference goes is no longer in a cache; its callers take it out first.
- SyncMemory.SyncStoreIsAtomic: one core. The emulator's invalidation runs over one core's threads up to the number of threads of all cores. Words and lines of physical memory only; device registers have no reservations.
- Traps.DepthTwoResumes: handlers give back the registers they change, and do not change the saved state by writing control registers, apart from the scratchpads.
- ScatterGather.SixteenLanesAreAtomic: a page is at one place throughout the instruction, trap handlers write only words that the instruction does not touch, and other threads do not run between the lanes.
- GatherMeaning.GatherLoads: under the same conditions, as are `NamedLanesAct` and `ScatterStores`.
- Tlb.BufferAgreesWithHistory: one of the two buffers.
- HeapProgram.KernelHeap.Kmalloc: integers are unbounded, sizes are positive, and the split stores the size of the remainder. The list's headers are not laid into the ranges, which needs sizes that are multiples of eight.
- Slab.AlwaysApart: objects are no larger than a slab. The link inside a free object is not modelled.
- LinkedList.RemoveHead: `list_remove_tail` and `multilist_remove_*` are left out: they do not do what their names say.
- Automap.ClipStays: from the trivial rejects in frame buffer coordinates on; those in map coordinates and the scaling are left out. Rounding can move an end by up to a pixel in each round, so a line that only touches a corner may be rejected.
- Serial.ChecksumTells: the line keeps the number of bytes and damages at most one payload byte of a block and its address; lengths arrive right, moved blocks stay in memory, and answers are late or right.
- SerialProgram.Loader.FixConnection: whether the connection can be fixed is up to the line; timeouts and the counting of pings are not modelled.
- SdProgram.SdDriver.ReadSdDevice: the interrupt flags and the lock are not modelled, and the error paths that leave the lock held cannot be reached with this card.
- SdCard.WrittenBlockReadBack: the kernel has no driver for writes.
- FsProgram.FileReader.ReadFile: images of at most two gigabytes, as the code's signed offsets need; reads from the RAM disk are left out. A block that is not on the disk makes the emulator exit, so files and directories are read that lie on it.
- FsProgram.FileReader.InitFileSystem: for the same reason the directory that the first block announces lies on the disk.
- FsProgram.MakeImage: at least one file; names are given as the 32 bytes of a directory entry, so their shortening is left out.
- HexProgram.ReadIntoMemory: an address or word outside memory is an error. The emulator compares word addresses with the size it is given; here that size counts words.
- HexFormat.ParsersAgree: both scanners stay in a comment after a star until the next slash, which is kept; the format's own rule for block comments is not met.

Not modelled:

- `allocate_contiguous_memory`, whose scan can step past its only stopping test.
- Floating point operations, tracing, cosimulation, debugging, devices other than the SD card, windows, sockets, JTAG and the hardware description itself.
- The rest of the game: menus, sound, rendering, data tables.
- The RAM disk, console mode and program start of the loader, and the kernel's loader but for its rules of sharing caches.
- Device ring buffers, bit-field extraction and fixed-point helpers.
