# Verification of the CSC369 assignments: a paging simulator, a blocked matrix product, an ext2 directory layer and a system-call interceptor

This project models four programs in Dafny and proves what they are for. `dafny verify dfyconfig.toml`
checks all of it.

**The virtual-memory simulator (a2/starter).** `Simulator.dfy` replays a trace through a two-level page
table, a coremap, a swap file with a bitmap allocator and one of five replacement policies, in place, as
the source does. Each method refines a step of a state machine on values (`Machine.dfy`, `Policies.dfy`,
`Replay.dfy`). Two layers of results are proved about that machine:

- Paging is invisible. Whatever the policy evicts, every access finds what a memory without frames or
  swap would hold. The invariant is that a valid page that is not dirty equals its copy in swap, that
  frames and page table entries correspond one to one, and that swap slots are exclusive.
- The policies are what they are called. OPT misses least among all choices of victims (an exchange
  argument over whole traces, `Belady.dfy`, on top of a hash table of future reference times that is
  proved to refine a finite map). LRU keeps exactly the most recently used pages, hence inclusion and no
  anomaly (`Recency.dfy`). FIFO's ring and CLOCK's arm refine simple queues, and LRU, FIFO and CLOCK with k
  frames miss at most k / (k - h + 1) times as often, but for a constant, as any policy with h <= k frames
  (`Competitive.dfy`). These theorems are about sets of pages; `PolicyRun.dfy` and `Outcome.dfy` carry them
  over to the states of the program and to what it reports.

Swap space may run out. `SwapSpace.dfy` says, in every state, which pages own a slot and which have been lost,
and `Outcome.dfy` at which reference the program gives up, if it does. `Writeback.dfy` says which pages are dirty,
and so what the two counts of evictions are.

**Blocked matrix multiplication (a2/starter/traceprogs).** `Matrix.dfy`, `Blocked.dfy` and
`BlockedMult.dfy` have the loops and cursors of the C programs. The blocked product equals the simple one
entry for entry for uninterpreted addition and multiplication, without associativity: both add the same
products in the same order. `Places.dfy` keeps the nonlinear index arithmetic in one place.

**The ext2 layer (a3).** A directory block is a chain of entries of varying length, split on insertion and
merged on deletion, in bytes (`Dirents.dfy`, `DirBlock.dfy`); it refines a map from names to inodes
(`DirMap.dfy`, `BlockRun.dfy`), unless the search for room stops at a record that is too short for its
padding (`ShortRecord.dfy`). The function that inserts does not know what the block is for; `RawBlock.dfy`
says what it does to any bytes. Blocks, inodes, bitmaps and counters are consistent when every block has at
most one owner, its bit is set exactly when it is reserved or owned, and both counters count the clear
bits (`FileSystem.dfy`). `Disk.dfy` has the allocation and directory functions in place. An image is well
formed when, in addition, its directory blocks can be read as chains of entries such that names in a directory
are distinct, entries name inodes in use, and every file's link count is the number of its names (`Links.dfy`,
`LinkCounts.dfy`, `Tree.dfy`); there is one such reading at most (`Reading.dfy`). `Ext2.dfy` has `ext2_ln`
and `ext2_rm`; `Answers.dfy` says what they answer, in terms of where their paths lead and of what is free; a command is a step from image to image, bytes included. `Runs.dfy` proves that it leaves a
well-formed image if and only if it is harmless, a condition on the state before it, and so for any run of
commands. This covers destinations below a file, whose data `ln` takes for directory entries, and short records in
the way (`Placement.dfy`). Left out are only those where the code, which does not check bounds, reads an entry's header
across the end of a block, writes beyond the image, or runs over from the data of a file into the block of a
directory (`Runs.Fits`); in a directory that is only a short record in the last block of the image. `Steps.dfy`
shows that no command gets stuck, `Undo.dfy` that `rm` takes back what `ln` and `ln -s` have done; `Witness.dfy` and `FullDirectory.dfy` have well-formed images, with bytes
(`ImageBytes.dfy`), on which each command does harm.

**The interceptor (a1).** `KernelModule.dfy` updates its rows and the system call table in place;
`Interception.dfy` proves that the rows represent sets of monitored processes, possibly all but some, on
which the commands act as insertion and removal, and that unloading restores the system call table. `Requests.dfy`
says exactly which request gets which answer, and what a user who is not root cannot change.
`InterceptionRun.dfy` has runs in which the code does something else than what its comments say.

## Where the code differs from what is said about it

Each of these is a theorem that says exactly when it happens, with an input or a run on which it does.

- A command line `ln -s` that stops because the text is too long or there is no block has already taken an
  inode, which stays in use without a name (`Runs.StepKeeps`, condition `Harmless`; `Witnesses.SymlinkSpoils`).
- `make_entry_in_inode` does not stop at the twelve direct slots: slot 12 looks empty while `i_block[12]` is
  0, so with all direct slots taken a block is allocated and lost (`FileSystems.IndirectLost`,
  `Trees.EntryMadeLost`; `FullDirectories.LinkLosesBlock` has a root directory with k full blocks, from which `ln`
  makes a well-formed image exactly if k < 12).
- `delete_child_entry` frees an emptied block even when it is one of the first 22 (`FileSystems.ReservedDetached`,
  `Trees.EntryDeletedLost`; `Witnesses.RemovalSpoils`).
- `ext2_ln` does not check that the parent of the destination is a directory. Below a file, `ln` keeps the image
  well formed only when nothing in the file's data seems to have room and there is no free block, and `ln -s` only
  when there is no free inode, that is, only when they change nothing (`Runs.LinkBelowFile`,
  `Runs.SymlinkBelowFile`; `Witnesses.LinkSpoils`).
- `total_entry_length` pads a name whose length is a multiple of 4 by 4 bytes more than the ext2 format asks
  for. A record of the format's own length is then shorter than `min_rec_len`; `space_left`, an unsigned
  short, wraps to 65532, and the new entry is written over the next record. Insertion does what it is for if
  and only if the first record that seems to have room is not such a short one (`ShortRecords.InsertionIsSound`,
  with an example in `ShortRecords.ShortRecordIsClobbered`). No well-formed image comes of it
  (`Placements.PutClobbers`, `Runs.LinkKeeps`). Records that the code itself makes are never short
  (`BlockRuns.RoomyRuns`).
- The comment in `make_entry_in_inode` says that it returns NULL when the inode is full. With direct slots
  only it never does: it returns an entry or exits (`Disks.Disk.MakeEntryInInode`). So the branches of `ext2_ln`
  for NULL are not reached.
- The comments of `my_syscall` say that stopping needs an intercepted call. The code does not ask for one exactly
  when all are to be stopped and somebody is monitored (`InterceptionRuns.StopUnintercepted`, on a run
  `InterceptionRuns.StopsUnintercepted`).
- They say that monitoring is busy when the pid is monitored already. The code also answers busy to a request to
  monitor all while some processes are excluded (`Interception.StartAllBusy`, on a run
  `InterceptionRuns.ExcludedStaysExcluded`).
- `del_pid` stops one row short of the last (`Interception.ExitForgets`, on a run
  `InterceptionRuns.LastRowRemembers`).
- After an eviction from a full swap file the page's contents are gone: the code stores INVALID_SWAP, and
  the next access to the page fails an assertion. No page is lost exactly as long as no more pages have been evicted
  than there are slots (`SwapSpaces.SlotsUsed`), and the program gives up exactly at the first reference to a page
  that has been (`Outcomes.OutcomeIsDetermined`); so it does for one frame, no slot and two pages in turn
  (`Outcomes.NoSlotAborts`).

## Model

| member | source | states |
|---|---|---|
| `Simulators.Simulate` | a2/starter/sim.c:86-166 | A run of the program on any trace, for any policy and any in-range random choices, gives an outcome: either counters that are those of a run of the policy (misses; hits + misses = references; as dirty evictions those of pages that had never been evicted or had been stored to or modified since they were brought in, and as clean ones the others) with the exact number of failed content checks, and then no reference of that run is to a page that was evicted when all swap slots were taken; or an abort, at the first reference that is |
| `Outcomes.OptIsOptimal` | a2/starter/opt.c:435-483 | On every trace OPT misses at most as often as the simulator under any other policy, including arbitrary victim choices, with as many frames or fewer; so more memory never makes OPT miss more |
| `Outcomes.OthersAreCompetitive` | a2/starter/clock.c:34-46 | LRU, FIFO and CLOCK with k frames, against any policy with h <= k frames: (k - h + 1) times their misses are at most k times its misses plus k (k - h); with as many frames for both, at most memsize times its misses |
| `Outcomes.LruGainsFromMemory` | a2/starter/lru.c:48-77 | Giving LRU more frames never increases its miss count |
| `Outcomes.OutcomeIsDetermined` | a2/starter/pagetable.c:46-65 | For LRU, FIFO and CLOCK the trace alone decides: the program completes if and only if no reference of the policy's run is to a lost page, and gives up at reference i if and only if i is the first that is |
| `Outcomes.OutcomesAgree` | a2/starter/sim.c:156-163 | For LRU, FIFO and CLOCK all counters reported at the end are determined by the trace and the number of frames, whatever the size of swap |
| `Outcomes.VersionIsWrites` | a2/starter/sim.c:58-61 | In every state the frame of a page in memory holds the number of accesses S and M made to the page, and the first address used on it |
| `Outcomes.DirtyIsUnsaved` | a2/starter/pagetable.c:185-212 | In every state a page in memory is marked dirty if and only if it has never been evicted, or an access S or M has been made to it since it was brought in |
| `Writebacks.WritebackStep` | a2/starter/pagetable.c:51-64 | Every access keeps that, and with it the two counts of evictions: dirty ones are those of such pages, clean ones all others |
| `Writebacks.AccessWrites` | a2/starter/pagetable.c:51-64 | One access: the entry it marks, the entry it evicts and the counter that goes up, for each value of the dirty bit and each kind of access |
| `Writebacks.WrittenStep` | a2/starter/pagetable.c:207-212 | A page in memory has been written to since it was brought in if it had been before the last access, or that was an S or M access to it |
| `Outcomes.EnoughSwap` | a2/starter/pagetable.c:46-65 | With at least as many swap slots, or as many frames, as distinct pages in the trace the simulator always runs to the end |
| `Outcomes.NoSlotAborts` | a2/starter/pagetable.c:46-65 | With one frame and no slot, the pages A, B, A make it give up at the third reference, whatever the policy |
| `Outcomes.LruHolds` | a2/starter/lru.c:48-77 | In every state of the simulator under LRU the valid pages are the most recently used ones |
| `Outcomes.StretchMisses` | a2/starter/clock.c:34-46 | Under LRU, FIFO and CLOCK its count of misses goes up by at most k over any stretch with at most k distinct pages |
| `Outcomes.AlignedNeverComplains` | a2/starter/sim.c:49-56 | On a page-aligned trace the content check of access_mem never fails, whatever the policy evicted |
| `SwapSpaces.SlotsUsed` | a2/starter/swap.c:212-247 | In every state: the used slots number min(slots, pages ever evicted), the lost pages are as many as were evicted beyond that, and no page is lost if and only if at most as many pages were ever evicted as there are slots |
| `SwapSpaces.LostIsEvicted` | a2/starter/pagetable.c:46-65 | A page is lost only by an eviction, and only after more pages have been evicted than there are slots |
| `SwapSpaces.SwapStep` | a2/starter/swap.c:212-247 | Every access keeps, however full the swap file is: the lost pages are exactly those first evicted when all slots were taken, the owners of slots are the other pages ever evicted, and no reference so far was to a lost page |
| `Outcomes.AccessStep` | a2/starter/sim.c:49-63 | One access extends the run of the policy by one reference and keeps memory equal to flat memory and swap in order |
| `Outcomes.CompletedIsOutcome` | a2/starter/sim.c:140-166 | At the end of the trace the counters, dirty and clean evictions apart, are those of the policy's run, no reference was to a lost page, and the complaints are those of the trace |
| `Outcomes.AbortedIsOutcome` | a2/starter/pagetable.c:46-65 | An access that is refused is the first one of the run to a page that was evicted when all slots were taken |
| `Belady.BeladyOptimal` | a2/starter/opt.c:428-460 | Belady's theorem by exchange: a run with k frames that always evicts a page used furthest in the future has at most as many misses as any run with k frames or fewer |
| `Belady.Exchange` | a2/starter/opt.c:428-460 | Holding a page that is needed no later than another never costs more misses on the rest of the trace |
| `Belady.Lipschitz` | a2/starter/opt.c:428-460 | What h frames serve from one resident set with m misses, k >= h frames serve from another with at most one miss more for each page it lacks |
| `Belady.BeladyBest` | a2/starter/opt.c:428-460 | From any point of the run on, no way of serving the rest of the trace beats the furthest-use choice |
| `Recency.LruResident` | a2/starter/lru.c:48-77 | After every prefix of the trace the resident pages are exactly the k most recently used ones |
| `Recency.LruStack` | a2/starter/lru.c:48-77 | They number min(k, distinct pages seen), and each was used later than every page seen that is not resident |
| `Recency.LruInclusion` | a2/starter/lru.c:48-77 | The resident set with k frames is contained in the one with more frames, at every point |
| `Recency.LruMonotone` | a2/starter/lru.c:48-77 | Over every prefix LRU with more frames misses no more often |
| `Recency.LruConservative` | a2/starter/lru.c:48-77 | LRU misses at most k times in any stretch with at most k distinct pages |
| `LoadOrder.FifoConservative` | a2/starter/fifo.c:90-106 | So does FIFO |
| `SecondChance.ClockConservative` | a2/starter/clock.c:34-46 | So does CLOCK |
| `Competitive.ConservativeIsCompetitive` | a2/starter/pagetable.c:154-222 | A policy with k frames that misses at most k times in any stretch with at most k distinct pages, against any policy with h <= k frames, on every trace: (k - h + 1) misses <= k misses_h + k (k - h) |
| `PolicyRuns.RunsAgree` | a2/starter/sim.c:66-83 | Two runs of LRU, FIFO or CLOCK over traces that agree so far have the same pages resident so far |
| `SecondChance.SweepStops` | a2/starter/clock.c:34-46 | The arm passes just the slots before the first one without the bit, clearing each (all of them once, if all have it), and stops there: the queue is rotated to that slot |
| `SecondChance.RingPass` | a2/starter/clock.c:30-40 | Clearing the bit under the arm and moving the arm on is, for the ring seen as a queue, passing the front to the back |
| `Machines.AccessKeeps` | a2/starter/pagetable.c:154-222 | Paging and swap are invisible: an access with any in-range victim keeps the invariant (a valid clean page equals its swap copy, frames and entries correspond, slots are exclusive) and leaves what flat memory would hold |
| `Machines.FaultKeeps` | a2/starter/pagetable.c:178-205 | A page fault brings back exactly what the page last held |
| `Machines.ResidentsAreFrames` | a2/starter/pagetable.c:26-72 | Frames in use and valid entries are in bijection |
| `Machines.AccessSteps` | a2/starter/pagetable.c:26-72 | What the access does to the set of resident pages (a hit nothing, a fill one page more, an eviction the victim for the page) is one step of a paging run |
| `Machines.AccessCounts` | a2/starter/pagetable.c:171-222 | hits + misses = references and clean + dirty evictions = misses - frames filled, after every access |
| `Machines.AccessSlots` | a2/starter/pagetable.c:46-65 | At most one page leaves memory. If a slot is free it owns one afterwards, and no other page gets one; if none is free and it owns none, it is lost, and no other page is |
| `Machines.SlotKept` | a2/starter/swap.c:212-247 | A page keeps its slot for ever, whether swap is full or not |
| `Machines.AccessLosesNothing` | a2/starter/swap.c:212-247 | With a slot for every page touched and no page lost, an access loses none and is not refused |
| `Machines.SlotsCounted` | a2/starter/swap.c:212-247 | There are as many used slots as pages that own one |
| `Machines.InitialInv` | a2/starter/pagetable.c:84-91 | The initial state satisfies the invariant, with nothing resident |
| `Policies.VictimIsRight` | a2/starter/pagetable.c:26-72 | Whatever the policy, the page in the frame it chooses is one that the abstract policy may evict |
| `Policies.FifoVictim` | a2/starter/fifo.c:90-93 | The frame that FIFO returns holds the longest-resident page, and is the number of evictions so far modulo memsize |
| `Policies.LruVictim` | a2/starter/lru.c:48-67 | The frame with the least timestamp holds the least recently used page |
| `Policies.OptVictim` | a2/starter/opt.c:435-460 | The frame that OPT chooses holds a page used furthest in the future |
| `Policies.FifoFollows` | a2/starter/fifo.c:99-106 | The ring holds every frame in use once, in load order, after every reference |
| `Policies.RingStep` | a2/starter/fifo.c:49-70 | Each hit, fill or eviction keeps the ring complete, free of duplicates and in load order |
| `Policies.LruFollows` | a2/starter/lru.c:74-77 | Timestamps keep saying when each frame was last referenced |
| `Policies.OptFollows` | a2/starter/opt.c:466-483 | The table of future references stays in step with the trace |
| `Policies.ClockFollows` | a2/starter/clock.c:34-46 | Array, arm and reference bits keep simulating the second-chance queue |
| `Policies.SweepMemIsSweep` | a2/starter/clock.c:34-46 | The loop on reference bits in the page table is the sweep of the queue |
| `Replays.FlatFollows` | a2/starter/sim.c:49-63 | Flat memory holds, for every page, the first address used on it and the number of accesses to it of kind S or M |
| `Replays.WritesAre` | a2/starter/sim.c:58-61 | That number, counted from the end, is the size of the set of those accesses |
| `Replays.AlignedMatches` | a2/starter/sim.c:54-56 | If all addresses are page-aligned the address stored at the first access is the one of every later access |
| `Replays.SimStep` | a2/starter/sim.c:66-83 | The invariant of a whole run (memory, policy, counters) is kept by every access |
| `Replays.TranslationIsTransition` | a2/starter/pagetable.c:154-222 | What find_physpage does in its order of steps, followed by the write of access_mem, is one transition of the state machine |
| `Simulators.Simulator.AllocateFrame` | a2/starter/pagetable.c:26-72 | Returns the first free frame or the policy's victim; a victim's page is written if dirty, its entry says it is on swap, and the frame is recorded for the new page |
| `Simulators.Simulator.FindPhyspage` | a2/starter/pagetable.c:154-222 | Returns the frame of the page after a hit or fault; fails exactly when the page has been lost |
| `Simulators.Simulator.AccessMem` | a2/starter/sim.c:49-63 | One access; says whether the stored address is the one accessed, as flat memory would |
| `Simulators.Simulator.ReplayLine` | a2/starter/sim.c:71-81 | One line of the trace moves the explained state one reference on, or the run aborts |
| `Simulators.Simulator.ReplayTrace` | a2/starter/sim.c:66-83 | The whole trace, from the initial state to an outcome |
| `Simulators.Simulator.ReplayLines` | a2/starter/sim.c:66-83 | The loop: every line is replayed, or the first one to a lost page is reached |
| `Simulators.Simulator.LruEvict` | a2/starter/lru.c:48-67 | A frame with the least timestamp |
| `Simulators.Simulator.ClockEvict` | a2/starter/clock.c:34-46 | The frame where the second-chance sweep stops; bits passed are cleared, and the arm is left behind it |
| `Simulators.ClockSweep` | a2/starter/clock.c:34-40 | The loop leaves the machine and the arm as the sweep of the queue says; it terminates |
| `Simulators.Simulator.OptEvict` | a2/starter/opt.c:435-460 | A frame whose page's next use lies furthest in the future; never used again is furthest of all |
| `Simulators.Simulator.EvictFcn` | a2/starter/pagetable.c:44-46 | Dispatch to the chosen policy; the result is a choice that policy may make |
| `Simulators.Simulator.RefFcn` | a2/starter/pagetable.c:213-216 | Tells the policy of a reference |
| `Simulators.OptChoice` | a2/starter/opt.c:435-460 | The frame with the latest next reference time holds a page whose next use is furthest |
| `Simulators.Simulator.PageFault` | a2/starter/pagetable.c:178-205 | Chooses a frame, evicts its page, and brings the page in from swap or initialises it |
| `Simulators.Simulator.TakeFrame` | a2/starter/pagetable.c:46-70 | The page in a frame goes to swap if dirty, and the frame is recorded for another page |
| `Memories.Memory.FindFreeFrame` | a2/starter/pagetable.c:30-40 | The first frame that is not in use, or memsize |
| `Memories.Memory.EvictPage` | a2/starter/pagetable.c:46-65 | Only a dirty page is written; its entry keeps the slot, and the right counter is incremented |
| `Memories.Memory.SwapIn` | a2/starter/pagetable.c:191-198 | A page on swap comes back with its slot's content and is clean |
| `Memories.Memory.InitFrame` | a2/starter/pagetable.c:129-139 | A new page holds version 0 and the address of its first access, and is dirty |
| `Memories.Memory.Mark` | a2/starter/pagetable.c:207-212 | The entry becomes valid and referenced, and dirty for a write |
| `Memories.Memory.Bump` | a2/starter/sim.c:58-61 | A write adds one to the version of the page and changes nothing else |
| `Memories.Memory.InitSecondLevel` | a2/starter/pagetable.c:160-166 | A missing second-level table is made; no entry changes |
| `PageTables.AddressesSelectPages` | a2/starter/pagetable.h:39-41 | Addresses below 2^36 index both tables in range, and two of them select the same entry exactly when they are on the same page |
| `PageTables.SetIsSeparate` | a2/starter/pagetable.h:13-16 | Setting a status bit changes neither the other bits nor the frame number |
| `PageTables.ClearIsSeparate` | a2/starter/pagetable.h:13-16 | Nor does clearing one |
| `PageTables.PageTable.InitSecondLevel` | a2/starter/pagetable.c:94-117 | A new table has only untouched entries, so the page table as a whole does not change |
| `PageTables.PageTable.SetFrame` | a2/starter/pagetable.c:200-201 | The shifted frame number replaces the whole word: all status bits are cleared |
| `PageTables.PageTable.SetFlag` | a2/starter/pagetable.h:13-16 | One status bit of one entry is set and nothing else changes, through the two levels |
| `PageTables.PageTable.FrameOf` | a2/starter/lru.c:33-36 | The frame number of an entry is its word shifted right |
| `Swaps.Bitmap.constructor` | a2/starter/swap.c:28-61 | All indices below nbits are free; padding bits of the last word are never handed out |
| `Swaps.Bitmap.Alloc` | a2/starter/swap.c:63-85 | Takes the least free index, and fails exactly when all are used; the two assertions in it cannot fail |
| `Swaps.Bitmap.Mark` | a2/starter/swap.c:97-106 | Marks exactly one free index |
| `Swaps.Bitmap.Unmark` | a2/starter/swap.c:108-117 | Frees exactly one used index |
| `Swaps.Bitmap.IsSet` | a2/starter/swap.c:119-126 | Tells whether the index is used |
| `Swaps.SwapFile.PageIn` | a2/starter/swap.c:178-203 | Reads what the slot last held |
| `Swaps.SwapFile.PageOut` | a2/starter/swap.c:212-247 | Writes to the given slot, or to the least free one; without a free slot nothing is written and the result is INVALID_SWAP |
| `Lists.List.Append` | a2/starter/opt.c:69-86 | Appends to the end, doubling the array when it is full |
| `Lists.List.Find` | a2/starter/opt.c:88-97 | The first index of the value, or -1 exactly when it is not there |
| `Lists.List.Remove` | a2/starter/opt.c:99-121 | Removes and returns one element, moving the rest down |
| `Lists.List.Delete` | a2/starter/opt.c:123-136 | Removes one occurrence if there is one |
| `Lists.List.Pop` | a2/starter/opt.c:138-142 | Removes and returns the last element |
| `Lists.List.Peek` | a2/starter/opt.c:144-154 | Returns the last element |
| `HashTables.HashTable.Get` | a2/starter/opt.c:208-227 | The value that the finite map has for the key, or null |
| `HashTables.HashTable.Set` | a2/starter/opt.c:229-256 | Updates the map at the key and returns the old value |
| `HashTables.HashTable.Remove` | a2/starter/opt.c:258-285 | Removes the key from the map and returns the old value |
| `HashTables.HashTable.FindMatchingPair` | a2/starter/opt.c:197-206 | The pair with the key in the bucket that it hashes to, if there is one |
| `HashTables.AppendRefines` | a2/starter/opt.c:229-256 | A pair for a new key at the end of its bucket extends the map |
| `HashTables.DeleteRefines` | a2/starter/opt.c:258-285 | Removing a pair from its bucket removes its key from the map |
| `RefTimes.FutureDecreases` | a2/starter/opt.c:352-383 | The times stored for a page are strictly decreasing |
| `RefTimes.FutureHas` | a2/starter/opt.c:352-383 | They are exactly the times of its references from now on |
| `RefTimes.NextRefIsNextUse` | a2/starter/opt.c:410-426 | The next reference time says how many references pass before the next use |
| `RefTimes.AddForetells` | a2/starter/opt.c:352-363 | Adding time i for the page referenced then extends what the table knows back to i |
| `RefTimes.PopForetells` | a2/starter/opt.c:385-408 | At time i the time popped for the page referenced is i itself, and the rest foretells what follows |
| `RefTimes.PeekForetells` | a2/starter/opt.c:410-426 | At time i a peek is the least t >= i with trace[t] = p, or -1 if there is none |
| `RefTimes.MakeBeladyTable` | a2/starter/opt.c:365-383 | Builds a table that foretells the whole trace |
| `RefTimes.BeladyTable.AddBeladyPage` | a2/starter/opt.c:352-363 | Appends a time to the list of its page, making the list if need be |
| `RefTimes.BeladyTable.PopNextRefTime` | a2/starter/opt.c:388-408 | Takes the last time of a page off, and the page with it when none is left |
| `RefTimes.BeladyTable.PeekNextRefTime` | a2/starter/opt.c:412-426 | The last time of the page, or -1 |
| `PolicyStates.MakePageList` | a2/starter/opt.c:321-349 | The page numbers of the trace in order |
| `PolicyStates.OptInit` | a2/starter/opt.c:488-492 | The page list and a table that foretells it |
| `PolicyStates.PolicyState.OptRef` | a2/starter/opt.c:466-483 | The time popped is the current one, which then advances |
| `PolicyStates.PolicyState.SetTimestamp` | a2/starter/lru.c:38-42 | Stamps one frame; the counter wraps at 2^32 |
| `PolicyStates.PolicyState.FifoRef` | a2/starter/fifo.c:99-106 | A frame not in the ring goes to its back; no live slot is overwritten |
| `PolicyStates.PolicyState.FifoEvict` | a2/starter/fifo.c:90-93 | Takes the front of a nonempty ring, so never -1 |
| `Queues.Queue.Enqueue` | a2/starter/fifo.c:49-55 | Puts a value at the back of a queue that is not full |
| `Queues.Queue.Dequeue` | a2/starter/fifo.c:58-70 | Takes the front, or returns -1 exactly when the queue is empty |
| `Queues.Queue.Contains` | a2/starter/fifo.c:73-82 | Whether the value is in the queue |
| `BlockedMultiplication.BlockedProduct` | a2/starter/traceprogs/blocked.c:214-223 | Converting both factors, multiplying block by block and converting back gives Mat_mult's product, for uninterpreted addition and multiplication and all n and b with b dividing n |
| `BlockedMultiplication.BlockedMatMult` | a2/starter/traceprogs/blocked.c:214-223 | The blocked product is the blocked storage of the row-major product |
| `BlockedMultiplication.MultAdd` | a2/starter/traceprogs/blocked.c:193-204 | Adds the next b terms to every entry of one block, in order, and changes nothing outside the block |
| `BlockedMultiplication.ZeroC` | a2/starter/traceprogs/blocked.c:172-176 | Clears one block and nothing else, and says where it starts |
| `BlockedMultiplication.NextTerm` | a2/starter/traceprogs/blocked.c:193-204 | The term added is the next one of the row-by-column sum of the whole matrices |
| `Blocks.StorageRoundTrip` | a2/starter/traceprogs/blocked.c:249-319 | The two conversions are inverse to each other, both ways |
| `Blocks.PlacesAre` | a2/starter/traceprogs/blocked.c:249-279 | Entry (i, j) of block (ib, jb) is at ((ib nb + jb) b + i) b + j in blocked storage, and at (ib b + i) nb b + jb b + j in row-major storage |
| `Blocks.RowPlaceInverse` | a2/starter/traceprogs/blocked.c:249-279 | Each place of blocked storage belongs to one place of row-major storage |
| `Blocks.BlockPlaceInverse` | a2/starter/traceprogs/blocked.c:290-319 | And conversely |
| `Blocks.ToBlocked` | a2/starter/traceprogs/blocked.c:249-279 | The running cursor and strides put every entry where blocked storage keeps it |
| `Blocks.FromBlocked` | a2/starter/traceprogs/blocked.c:290-319 | And back |
| `Blocks.Corner` | a2/starter/traceprogs/blocked.c:267-267 | The address computed for the corner of a block is the place of its first entry |
| `Matrices.MatMult` | a2/starter/traceprogs/matmul.c:136-146 | Every entry is the sum, from zero and in order, of the products of its row and column |
| `Places.PlaceInverse` | a2/starter/traceprogs/blocked.c:186-204 | A stretch and a position within it are determined by the place |
| `Dirents.BytesRoundTrip` | a3/ext2_helper.h:577-624 | An entry written as bytes is read back as it was |
| `Dirents.Layout` | a3/ext2.h:197-210 | The order of the fields, and of the bytes of a number, on an example |
| `Dirents.ChainUnique` | a3/ext2_helper.h:258-275 | The bytes of a block can be read as a chain of entries in one way only |
| `Dirents.HoldsSpliced` | a3/ext2_helper.h:577-624 | Changing the bytes of some entries to others of the same total length changes the chain there and nowhere else |
| `Dirents.TotalEntryLength` | a3/ext2_helper.h:560-571 | Header and name padded by 1 to 4 bytes to a multiple of 4 |
| `DirBlocks.BlockMatchingPair` | a3/ext2_helper.h:258-275 | Finds the first entry with the name and the one before it; the walk stays in the block and ends |
| `DirBlocks.IsEntryBlockEmpty` | a3/ext2_helper.h:223-235 | Tells whether no entry has a name |
| `DirBlocks.NameMatches` | a3/ext2_helper.h:208-221 | Compares length and bytes of the name |
| `RawBlocks.MakeEntryInExistingBlock` | a3/ext2_helper.h:578-624 | On any bytes, of a directory or not: puts the entry after the first header that seems to leave enough space, space_left being an unsigned short, and says the bytes; fails, leaving them alone, exactly when there is none before the end of the block |
| `RawBlocks.StopOnChain` | a3/ext2_helper.h:592-599 | On the block of a directory the search goes along the chain of entries and stops at the first that seems to have enough slack |
| `RawBlocks.RawIsMade` | a3/ext2_helper.h:597-620 | There the bytes become those that the chain says: the entry split, or the next record written over |
| `DirBlocks.DeletePair` | a3/ext2_helper.h:536-545 | Clears the name of a first entry, or merges the entry into the one before |
| `DirBlocks.InsertedBytes` | a3/ext2_helper.h:597-620 | With enough slack after the entry, the bytes written are the chain with the entry split, and nothing outside the block changes |
| `DirBlocks.MergedBytes` | a3/ext2_helper.h:541-544 | The longer record length makes the chain without the entry |
| `DirMaps.LookupView` | a3/ext2_helper.h:258-275 | A search finds an entry exactly when the map has the name, and finds what the map says |
| `DirMaps.InsertedView` | a3/ext2_helper.h:578-624 | Inserting a fresh name adds its binding and no other, and keeps names distinct |
| `DirMaps.DeletedView` | a3/ext2_helper.h:536-545 | Deleting a name removes its binding and no other |
| `DirMaps.UnnamedDropped` | a3/ext2_helper.h:547-552 | Entries without a name can go without changing the map |
| `BlockRuns.BlockTiles` | a3/ext2_helper.h:203-206 | The entries of a block have positive lengths with room for their names and fill exactly 1024 bytes |
| `BlockRuns.AppliedIs` | a3/ext2_helper.h:515-624 | If it does not write over a record (`Proper`), an insertion fails exactly when no record has room for it; a deletion fails exactly when the name is missing; otherwise the map changes as it should |
| `BlockRuns.BlockRefinesMap` | a3/ext2_helper.h:515-624 | Under every sequence of deletions and of insertions of fresh names that write over no record, the entries tile the block, names stay distinct, and the block means the map |
| `BlockRuns.PlaceIsFound` | a3/ext2_helper.h:592-599 | If the search does not stop at a short record, it succeeds exactly when some record has room |
| `BlockRuns.RoomyRuns` | a3/ext2_helper.h:515-624 | From a block without short records no sequence of operations writes over a record or makes a short one |
| `ShortRecords.InsertionIsSound` | a3/ext2_helper.h:592-620 | On any block of the ext2 format: the block means the map with the new binding after an insertion of a fresh name if and only if the first record that seems to have room is not a short one |
| `ShortRecords.ClobberedIsNoBlock` | a3/ext2_helper.h:597-620 | After an insertion that stops at a short record that is not the last, the bytes are no chain of entries at all |
| `ShortRecords.ShortRecordIsClobbered` | a3/ext2_helper.h:561-571 | The input for it: a record of 12 bytes with a name of 4, and a long one after it with room for the new name |
| `ByteMaps.ByteMap.Get` | a3/ext2_helper.h:352-359 | The bit of the index |
| `ByteMaps.ByteMap.Set` | a3/ext2_helper.h:361-376 | Changes one bit and no other |
| `FileSystems.OneOwner` | a3/ext2_helper.h:411-512 | In a consistent image no block is in two slots |
| `FileSystems.FirstBlocksAreFree` | a3/ext2_helper.h:424-438 | The blocks taken are distinct, formerly free and not reserved, in increasing order, and as many fewer are free |
| `FileSystems.BlockAvailable` | a3/ext2_helper.h:411-441 | While the counter is positive there is a free block beyond the reserved ones, so the unbounded scan stops in range |
| `FileSystems.InodeAvailable` | a3/ext2_helper.h:456-487 | The same for inodes |
| `FileSystems.AttachedConsistent` | a3/ext2_helper.h:626-644 | Allocating a block into an empty direct slot keeps ownership, bitmap and both counters consistent |
| `FileSystems.DetachedConsistent` | a3/ext2_helper.h:547-552 | So does freeing the block of a slot, if it is not a reserved one |
| `FileSystems.ReservedDetached` | a3/ext2_helper.h:547-552 | If it is a reserved one, no ownership makes the result consistent |
| `FileSystems.IndirectLost` | a3/ext2_helper.h:626-644 | A block allocated for a slot from 12 on is lost: the index is ignored while i_block[12] is 0 |
| `FileSystems.InodeTakenConsistent` | a3/ext2_helper.h:456-487 | Allocating an inode keeps consistency |
| `FileSystems.InodeFreedConsistent` | a3/ext2_helper.h:495-512 | Freeing an inode gives back it and exactly its blocks |
| `Disks.Disk.AllocateBlocks` | a3/ext2_helper.h:408-441 | Returns the first num free blocks, cleared and marked, or exits unchanged exactly when the counter is too small; all other blocks keep their bytes |
| `Disks.Disk.AllocateInode` | a3/ext2_helper.h:453-487 | Returns the least free inode that is not reserved, with empty slots, or exits unchanged exactly when the counter is 0 |
| `Disks.Disk.FreeBlock` | a3/ext2_helper.h:489-493 | Clears the bit and increments both counters |
| `Disks.Disk.FreeInode` | a3/ext2_helper.h:495-512 | Frees the inode and every block in its slots |
| `Disks.Disk.AllocateBlockOnInode` | a3/ext2_helper.h:627-644 | 0 for an occupied slot; otherwise the next free block, put into the slot and cleared |
| `Disks.Disk.FindMatchingPair` | a3/ext2_helper.h:277-301 | The first slot whose block has the name, and the place of the entry |
| `Disks.Disk.SqueezeIn` | a3/ext2_helper.h:657-673 | The first loop puts the entry into the first block of the inode, directory or not, that seems to have room, and changes nothing if there is none |
| `Disks.Disk.GrowSomewhere` | a3/ext2_helper.h:675-697 | The second loop puts it into a new block in the first empty slot; fails exactly when no block is free |
| `Disks.Disk.MakeEntryInInode` | a3/ext2_helper.h:647-700 | Both loops, on any inode, with the bytes they leave; never reports a full inode. In a directory without a short record in the way the directory blocks hold one entry more, and every block in use that is no directory block keeps its bytes |
| `Disks.Disk.DeleteChildEntry` | a3/ext2_helper.h:514-558 | Deletes the first entry of the name, and frees its block when no name is left in it; every block in use that is no directory block keeps its bytes |
| `Disks.Disk.ClearBlock` | a3/ext2_helper.h:432-432 | Zeroes one block and no other byte |
| `Images.ListingChanged` | a3/ext2_helper.h:277-301 | Changing one block changes the listing of its directory there only |
| `Images.NamesInserted` | a3/ext2_helper.h:578-624 | An insertion adds one name to one inode |
| `Images.NamesDeleted` | a3/ext2_helper.h:536-545 | A deletion takes one name from one inode |
| `Links.InsertedImage` | a3/ext2_helper.h:657-673 | A fresh name put into a block: the directory gains that binding, all others stay, the inode has one name more, and everything else about the image holds |
| `Links.DeletedImage` | a3/ext2_helper.h:529-545 | A name deleted from a block: the directory loses that binding only, and the inode one name |
| `Links.DroppedImage` | a3/ext2_helper.h:547-552 | Taking an empty unreserved block out of a directory changes no map |
| `Links.GrownImage` | a3/ext2_helper.h:675-697 | A fresh name in a new block: the same as for an insertion |
| `LinkCounts.RelinkedImage` | a3/ext2_ln.c:80-80 | Changing a link count changes its difference from the number of names by as much, and no directory |
| `LinkCounts.FileTakenImage` | a3/ext2_helper.h:722-736 | A new inode has one link and no name |
| `LinkCounts.FileGrownImage` | a3/ext2_helper.h:755-770 | A block for a file changes no directory and no count |
| `LinkCounts.FileFreedImage` | a3/ext2_rm.c:36-39 | Freeing a file without names leaves a well-formed image |
| `LinkCounts.FreeIsNameless` | a3/ext2_helper.h:722-736 | An inode that is not in use has no names |
| `Trees.SearchIsLookup` | a3/ext2_helper.h:303-316 | Searching all blocks of a directory is looking the name up in its map |
| `Trees.ResolveLive` | a3/ext2_helper.h:318-346 | In a well-formed image every path that leads somewhere leads to an inode in use of the right kind |
| `Trees.EntryMadeImage` | a3/ext2_helper.h:647-700 | make_entry_in_inode adds exactly one binding, if there is room or a direct slot and a free block |
| `Trees.EntryMadeLost` | a3/ext2_helper.h:647-700 | With all direct slots taken it loses a block, and no image is consistent with that |
| `Trees.EntryDeletedImage` | a3/ext2_helper.h:514-558 | delete_child_entry removes exactly one binding, if it frees no reserved block |
| `Trees.EntryDeletedLost` | a3/ext2_helper.h:547-552 | If it does, a reserved block is marked free |
| `Readings.SameReading` | a3/ext2_helper.h:258-301 | While directories keep their blocks and those their bytes, the directories can be read in no other way, whatever else of the image has changed |
| `Readings.ExtraLinkIsIll` | a3/ext2_ln.c:80-80 | A link more without a name more: no reading makes the image well formed |
| `Readings.LeakIsIll` | a3/ext2_helper.h:722-736 | Nor when an inode has been taken, with a link, and has no name |
| `Readings.BrokenIsIll` | a3/ext2_helper.h:258-275 | Nor when the bytes of a directory's block are no chain of entries |
| `Placements.PutOrderly` | a3/ext2_helper.h:647-700 | In a directory without a short record in the way make_entry_in_inode, on bytes, is the step on directories, and fails exactly when it needs a block and there is none |
| `Placements.PutClobbers` | a3/ext2_helper.h:592-620 | With a short record in the way it claims success, and leaves a directory block that holds no chain of entries |
| `Placements.PutInFile` | a3/ext2_helper.h:647-700 | In a file it changes no directory: no directory block and no directory's slots |
| `Commands.PathsRebound` | a3/ext2_helper.h:318-346 | When one binding of one directory changes, exactly the path to it leads elsewhere |
| `Runs.HardLinkedImage` | a3/ext2_ln.c:70-81 | A hard link adds a name and a link, so counts and names keep agreeing |
| `Runs.SymlinkedImage` | a3/ext2_ln.c:51-63 | A symbolic link is a new file with one link and one name |
| `Runs.RemovedImage` | a3/ext2_rm.c:28-40 | rm takes one name and one link, and frees the inode exactly when its last name went |
| `Runs.RemovedLost` | a3/ext2_rm.c:33-33 | If the deletion empties a reserved block the image is spoilt for every ownership |
| `Runs.LinkKeeps` | a3/ext2_ln.c:6-96 | ln, a step on the bytes of the image, leaves a well-formed image if and only if it is harmless: no short record in the way, a direct slot for a new block if one is needed and free, and no entry below a file. Then the destination leads to the source's inode, or nothing has changed |
| `Runs.SymlinkKeeps` | a3/ext2_ln.c:50-68 | The same for ln -s, which is harmful also when it exits after taking its inode |
| `Runs.RemoveKeeps` | a3/ext2_rm.c:6-45 | The same for rm, which is harmful when it empties a reserved block |
| `Runs.StepKeeps` | a3/ext2_ln.c:6-96 | Every command leaves a well-formed image if and only if it is harmless, a condition on the state before it; then it has done what it is for or changed nothing |
| `Runs.RunKeeps` | a3/ext2_rm.c:6-45 | Through any run of harmless commands the image stays well formed, and every file's link count is the number of its names and not 0 |
| `Runs.FitsInDirectory` | a3/ext2_ln.c:44-48 | In a directory every destination is covered by these theorems, unless a short record is in the way and a directory has the last block of the image |
| `Runs.LinkBelowFile` | a3/ext2_ln.c:44-88 | A destination path below a file passes the checks, and ln leaves a well-formed image if and only if nothing can be put there: no block of the file seems to have room and no block is free |
| `Runs.SymlinkBelowFile` | a3/ext2_ln.c:44-68 | So it does for ln -s, which leaves a well-formed image if and only if there is no free inode |
| `Undoing.InsertedBack` | a3/ext2_helper.h:536-545 | Deleting an entry that has been inserted gives the chain back as it was |
| `Undoing.EntryBack` | a3/ext2_helper.h:514-558 | delete_child_entry takes back what make_entry_in_inode has done to the inodes, bitmaps, counters and directories, a new block included; only a block in which no entry had a name is not given back |
| `Undoing.RemoveUndoesLink` | a3/ext2_rm.c:27-40 | After a successful harmless ln, rm of the destination succeeds; the image is well formed unless the name had gone into a reserved block with no other name, and then every path leads where it led. Unless that block had no other name, inodes, bitmaps, counters and the entries of all directories are as before |
| `Undoing.RemoveUndoesSymlink` | a3/ext2_rm.c:27-40 | The same after ln -s: the inode and the block of the text are free again, and nothing but what the free inode holds differs |
| `Steps.StepExists` | a3/ext2_ln.c:6-96 | From every well-formed image, with its bytes, there is a step of each command that fits, so that the statements about steps speak of something |
| `ImageBytes.BytesExist` | a3/ext2_helper.h:577-624 | Directory blocks with any entries that fill them are the contents of some image |
| `Witnesses.SmallImage` | a3/ext2_helper.h:318-346 | An image with 23 blocks, 12 or 13 inodes, and a root with ".", ".." and one file, is well formed |
| `Witnesses.RemovalSpoils` | a3/ext2_helper.h:547-552 | On that image rm of the file keeps the image well formed if and only if its directory block, which can be any from 10 to 23, is not a reserved one |
| `Witnesses.LinkSpoils` | a3/ext2_ln.c:44-88 | On that image ln of the file to a path below itself passes all checks; it claims success and leaves an ill-formed image if and only if a block is free |
| `Witnesses.SymlinkSpoils` | a3/ext2_helper.h:755-770 | With a spare inode, ln -s leaves a well-formed image if and only if the text is shorter than a block and a block is free; otherwise it exits with the inode taken |
| `FullDirectories.FullImage` | a3/ext2_helper.h:647-700 | A root directory with any number of its twelve blocks full of long names is well formed |
| `FullDirectories.LinkLosesBlock` | a3/ext2_helper.h:675-697 | On it ln claims success, and leaves a well-formed image if and only if fewer than twelve blocks are taken |
| `Ext2.FindMatchingEntry` | a3/ext2_helper.h:305-316 | Returns what the directory's map has for the name |
| `Ext2.TraversePath` | a3/ext2_helper.h:320-346 | Returns what the path leads to, or NULL |
| `Ext2.CheckLink` | a3/ext2_ln.c:8-49 | The checks in their order, with the error each gives; `Answers.LinkAnswers` says when each is given |
| `Answers.LinkAnswers` | a3/ext2_ln.c:8-88 | ln answers: no such file exactly if the source leads nowhere; a directory exactly if the source leads to one, or to a file while the destination leads to one; exists already exactly if both lead to files; no such parent exactly if the source leads to a file and the destination and its parent lead nowhere; and otherwise success exactly if there seems to be room for the name or a block is free. Nothing changes without success |
| `Answers.SymlinkAnswers` | a3/ext2_ln.c:8-68 | ln -s gives the same errors in the same cases, and otherwise no inode, a text that is too long, or no block exactly if that is what it comes to first, and success if there is one block for the text and room or another block for the name |
| `Answers.SpaceIsRoom` | a3/ext2_helper.h:592-599 | In a directory without a short record in the way there seems to be room exactly if some record in some block has it |
| `Answers.RemoveAnswers` | a3/ext2_rm.c:6-45 | rm answers: no such file exactly if the path leads nowhere, a directory exactly if it leads to one, and success exactly if it leads to a file, which may be a symbolic link |
| `Ext2.Ln` | a3/ext2_ln.c:70-88 | The hard link as a step on the bytes of the image, whatever the parent of the destination is, and its answer; when harmless the directories hold what they should, and every block in use that is no directory block keeps its bytes |
| `Ext2.LnSymbolic` | a3/ext2_ln.c:50-68 | The same for the symbolic link, with its answer and its three ways to exit; after success in a directory without a short record in the way the new inode's block holds the text |
| `Ext2.AllocateLinkInode` | a3/ext2_helper.h:722-736 | A new inode with one link, or an exit |
| `Ext2.WritePathToSymlinkInode` | a3/ext2_helper.h:755-770 | The text and a 0 byte are in a new block, or an exit |
| `Ext2.Rm` | a3/ext2_rm.c:6-45 | The removal as a step from image to image, and its answer; every block in use that is no directory block keeps its bytes; when harmless the directories hold what they should |
| `Ext2.Unlink` | a3/ext2_rm.c:35-39 | One link less; without links the inode is freed |
| `Interception.TableRestored` | a1/starter_code/starter_code/interceptor.c:660-717 | Loading, any sequence of commands and process exits, and unloading leaves the system call table as it was |
| `Interception.RunRefines` | a1/starter_code/starter_code/interceptor.c:366-405 | Through any such sequence each row represents a set of processes, possibly all but some; every answer is the one the sets call for, and start and stop are insertion, removal, all and none |
| `Interception.CallsReachKernel` | a1/starter_code/starter_code/interceptor.c:303-315 | While the module is loaded every system call but its own two still reaches the kernel's function |
| `Interception.HandleIs` | a1/starter_code/starter_code/interceptor.c:366-405 | One request: invariant kept, answer and effect as on the sets |
| `Requests.DeniedExactly` | a1/starter_code/starter_code/interceptor.c:584-605 | -EPERM is the answer if and only if the arguments are valid and the caller is not root, unless it is to start or stop monitoring one process of the caller's own |
| `Requests.InvalidExactly` | a1/starter_code/starter_code/interceptor.c:370-378 | -EINVAL is the answer if and only if the command is not one of the four, the call is negative, beyond the last row or the module's own, or the pid is negative or does not exist; or, with permission, if what is to be released is not intercepted or what is to be stopped is not monitored |
| `Requests.BusyExactly` | a1/starter_code/starter_code/interceptor.c:511-534 | -EBUSY is the answer if and only if what is asked for, with permission, is so already, all but some standing for all |
| `Requests.NoMemoryExactly` | a1/starter_code/starter_code/interceptor.c:119-124 | -ENOMEM is the answer if and only if a pid would have to be listed and there is no memory |
| `Requests.DoneExactly` | a1/starter_code/starter_code/interceptor.c:380-405 | There are no other answers but 0; with any other nothing changes, and with 0 what was asked for is so and nothing else has changed |
| `Requests.UserChangesOwn` | a1/starter_code/starter_code/interceptor.c:584-605 | A request of a caller who is not root changes neither the system call table nor which calls are intercepted, nor for which calls a process of another user is monitored |
| `Requests.UsersChangeOwn` | a1/starter_code/starter_code/interceptor.c:584-605 | Nor does any number of such requests, after whatever has happened before |
| `Interception.StartedIs` | a1/starter_code/starter_code/interceptor.c:445-478 | Start monitoring inserts, in whichever way the list is read |
| `Interception.StoppedIs` | a1/starter_code/starter_code/interceptor.c:481-502 | Stop monitoring removes |
| `Interception.ExitIs` | a1/starter_code/starter_code/interceptor.c:170-199 | The exit of a process takes its pid out of the lists and leaves all else |
| `Interception.StartAllBusy` | a1/starter_code/starter_code/interceptor.c:511-534 | Monitoring all is refused as busy whenever the list is read as exceptions, also when there are some; the answer is the one meant exactly in the other cases |
| `Interception.ExitForgets` | a1/starter_code/starter_code/interceptor.c:176-176 | After an exit no list has the pid if and only if the last row did not have it: that row is not purged |
| `InterceptionRuns.StopUnintercepted` | a1/starter_code/starter_code/interceptor.c:552-582 | A request to stop is in order for a call that is not intercepted if and only if all are to be stopped and somebody is monitored |
| `InterceptionRuns.StopsUnintercepted` | a1/starter_code/starter_code/interceptor.c:481-502 | From loading on, monitoring all can be started and stopped for a call that is never intercepted |
| `InterceptionRuns.ExcludedStaysExcluded` | a1/starter_code/starter_code/interceptor.c:511-534 | From loading on, a run to a state in which all but one process are monitored, where a request to monitor all is answered busy |
| `InterceptionRuns.LastRowRemembers` | a1/starter_code/starter_code/interceptor.c:176-176 | From loading on, a process that is monitored for a call and exits stays in its list if and only if the call is the last one of the table |
| `Interception.InitIs` | a1/starter_code/starter_code/interceptor.c:660-683 | After loading nothing is intercepted and nobody is monitored |
| `Interception.UnloadIs` | a1/starter_code/starter_code/interceptor.c:696-717 | Unloading restores every entry of the table |
| `Monitoring.MonitorsIsHas` | a1/starter_code/starter_code/interceptor.c:536-549 | is_pid_monitored is membership in the set that the row represents |
| `Monitoring.AddedWatched` | a1/starter_code/starter_code/interceptor.c:119-133 | Adding to the list inserts into the set or takes out of it, as the list is read; no duplicates arise |
| `Monitoring.DeletedWatched` | a1/starter_code/starter_code/interceptor.c:139-164 | Deleting from the list does the opposite, and a row without pids stops monitoring |
| `KernelModules.KernelModule.constructor` | a1/starter_code/starter_code/interceptor.c:660-683 | Loading gives the initial state |
| `KernelModules.KernelModule.HandleRequest` | a1/starter_code/starter_code/interceptor.c:366-405 | my_syscall is the step of the state machine |
| `KernelModules.KernelModule.HandleStartMonitoring` | a1/starter_code/starter_code/interceptor.c:445-478 | The handler changes its row as specified, and no other |
| `KernelModules.KernelModule.HandleStopMonitoring` | a1/starter_code/starter_code/interceptor.c:481-502 | The handler changes its row as specified, and no other |
| `KernelModules.KernelModule.HandleSyscallIntercept` | a1/starter_code/starter_code/interceptor.c:411-426 | Saves the call in its row and puts the interceptor in its place |
| `KernelModules.KernelModule.HandleSyscallRelease` | a1/starter_code/starter_code/interceptor.c:429-442 | Puts the saved call back |
| `KernelModules.KernelModule.DelPidSysc` | a1/starter_code/starter_code/interceptor.c:139-164 | Deletes the pid from one list, or returns -EINVAL exactly when it is not there |
| `KernelModules.KernelModule.DelPid` | a1/starter_code/starter_code/interceptor.c:170-199 | Deletes the pid from every list but the first and the last; returns -1 exactly when it was in none of those |
| `KernelModules.KernelModule.AddPidSysc` | a1/starter_code/starter_code/interceptor.c:119-133 | Adds the pid at the head, or returns -ENOMEM unchanged |
| `KernelModules.KernelModule.DestroyList` | a1/starter_code/starter_code/interceptor.c:204-218 | Empties one list and stops its monitoring |
| `KernelModules.KernelModule.IsPidMonitored` | a1/starter_code/starter_code/interceptor.c:536-549 | Reads the list as the flag says |
| `KernelModules.KernelModule.CheckBusy` | a1/starter_code/starter_code/interceptor.c:511-534 | The EBUSY conditions |
| `KernelModules.KernelModule.CheckContext` | a1/starter_code/starter_code/interceptor.c:552-582 | The context conditions |
| `KernelModules.KernelModule.Intercept` | a1/starter_code/starter_code/interceptor.c:303-315 | Logs exactly the calls of monitored processes and goes on to the original call |
| `KernelModules.KernelModule.ExitGroup` | a1/starter_code/starter_code/interceptor.c:275-282 | Forgets the pid and goes on to the original exit_group |
| `KernelModules.KernelModule.ExitFunction` | a1/starter_code/starter_code/interceptor.c:696-717 | Restores the table and destroys all lists |

## Left out

- Input and output: files, `mmap`, `getopt`, printing, `strtok`; the trace is a sequence of accesses, paths come split into their parts, the swap file is a sequence of slots, and reads and writes of it succeed.
- Lines of the trace that start with `=`: they are skipped by the program and are not in the sequence. `rand_evict`: its numbers are an arbitrary function.
- Pointers to page table entries are page numbers, and the memory behind `malloc` is not freed; a key-value pair of the hash table is a value that is replaced, not changed through a pointer.
- Pages hold a version and an address, not 16 bytes. Counters, versions and link counts are unbounded integers; only LRU's timestamp wraps, and its theorems ask for at most 2^32 references.
- The 32-bit layout of addresses (`TRACE_32`), and addresses of 2^36 and above, for which `PGDIR_INDEX` does not mask.
- Memories.Memory.Fetch: the miss is counted after the frame has been allocated, not before; the order cannot be observed.
- Simulators.Simulator.ReplayTrace: the failed assertion after a page has been lost is an aborted outcome, after which nothing is said.
- Simulators.Simulate: the trace file is read twice, once to make the page list; both passes are taken to read the same lines.
- `print_pagetbl`, `print_pagedirectory`, `swap_destroy`, `bitmap_destroy` and destruction of lists.
- a2/starter/rand.c, simpleloop.c, and fastslim.py, whose marking of a repeated reference acts on a fresh object and so does not keep the property it is meant to keep.
- Matrix entries are values of an arbitrary type; floating point, timing, command lines and the `struct record` padding are not modelled.
- Indirect blocks of ext2 inodes: `i_block[12]` is taken to be 0 everywhere, and blocks are numbered up to the last one of a single group.
- The superblock's counters, the bitmaps and the inode table are separate parts of the state, not bytes of the image; directory blocks and the text of symbolic links are bytes. Bytes are integers; that what is written is below 256 is proved in `Dirents.BytesInRange`.
- Modes other than directory or not, sizes, times, `i_blocks` and `bg_used_dirs_count`.
- Disks.Disk.MakeEntryInInode: names of more than 255 bytes, for which the length byte wraps, are excluded; so is an inode with a block whose bytes make the search read a header across the end of the block, or write beyond the image (`Disks.Searchable`).
- Disks.Disk.FindMatchingPair: a NULL name is excluded; `find_matching_pair` answers NULL to it.
- Ext2.Ln: a destination that cannot be searched in that sense is excluded; so is one below a file whose data make the entry run over into the block of a directory (`Commands.DestinationOk`). In a directory this concerns only a short record in the last block of the image (`Runs.FitsInDirectory`).
- Runs.StepKeeps: the same destinations are excluded (`Runs.Fits`).
- RawBlocks.MakeEntryInExistingBlock: the same bytes are excluded (`Reads`, `InMemory`).
- Ext2.LnSymbolic: the same destinations are excluded, and the text is a parameter; in the program it is the source path after `strtok` has cut it.
- `ext2_cp`, `ext2_ls`, `ext2_mkdir` and `read_images`: they print, copy files of the host, or only combine steps that are modelled.
- Locks and page protection of the interceptor, and the log it prints: each command is one step. Which pids exist, who owns them, whether the caller is root and whether there is memory are inputs.
- The system call table has an entry for each row, including row NR_syscalls, which the kernel's table need not have.
- Interception.TableRestored: nothing is said about calls that are still running in the interceptor while the module is unloaded.
