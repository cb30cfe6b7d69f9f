# Verification of the kernel's memory, file and process core

A Dafny model of the parts of this kernel whose correctness is not visible in any one
function: demand paging with copy-on-write and swap, the buffer cache, directories and
paths, files on zones, pipes, descriptors, signals, wait queues, the scheduler, and the
user heap.  `dafny verify dfyconfig.toml` checks the whole project.

State the kernel changes in place is a class; each method is proved against a function of
the old state, and the theorems are about those functions and about every run of them.

| file | models |
|---|---|
| `Layout`, `PageEntry`, `FrameRefs`, `Paging` | addresses, page-table words, reference counting, the paging state machine |
| `CopyOnWrite`, `Reclaim`, `Executable` | what processes see: private memories, invisible reclaim, lazy loading |
| `SwapWindow`, `SwapLosses` | a swap-out sector by sector: what it keeps, and three runs in which it loses |
| `MemoryManager` | the code of `mm/memory.c` on those states |
| `WaitQueue`, `Preemption`, `Scheduler` | sleeping, waking, ticks inside `sleep_on`, choosing the next task |
| `Links`, `BufferCache`, `InodeTable` | chains and ring, the cache as a plain block array, write-back, inode slots |
| `Directory`, `DirectoryCache`, `Paths` | slots as a map of names, the transparent cache, `namei` and `getcwd` |
| `DirectoryTree`, `Volume`, `VolumeLosses` | what each call does to the tree, to link counts and inode numbers, and runs that break it |
| `Files`, `Pipe`, `Descriptors` | files as byte strings, pipes as queues, exact reference counts |
| `Signals`, `UserHeap` | masks, delivery and return, `malloc` and `free` |

## Where the code does not do what it says

Each of these is modelled as the code has it, with the exact condition under which the
intended property holds.

- A swap-out sends its page in eight sectors while other tasks run, and the re-check compares
  entries, not contents.  A store to a sector already sent is lost when the page was dirty
  before and its Accessed bit ends as it was noted (`SwapWindow.StoreInWindow`,
  `SwapLosses.ClearedAgain`).  A page that leaves and comes back into the same frame meanwhile
  is taken for untouched whatever its bits were (`SwapLosses.RemappedIsMissed`), and if another
  task had the frame in between, its bytes are what comes back (`SwapLosses.BorrowedFrame`).
- A page of zeros is dropped without asking what a fault brings back: a page of data that its
  program has zeroed returns with the bytes of the file (`Reclaim.ZeroedPageReturns`).  Text is
  mapped writable, and a store to it is gone when the page is dropped
  (`Reclaim.StoredTextReturns`).  In runs with none of these, nothing is lost
  (`Reclaim.ReclaimIsInvisible`).
- `execve` writes the new region table over the old one before it knows that it will succeed;
  when it fails, pages of the old image that are not in memory come back wrong
  (`Reclaim.FailedExecveKeepsImageIff`, `Reclaim.FailedExecveZeroes`).
- `sleep_on` takes itself to be one step.  Pipes (`fs/pipe.c:31`, `fs/pipe.c:58`), `select`
  (`kernel/sys.c:208`) and the disk lock (`drivers/hd.c:106`) call it with interrupts on, and a
  tick inside it can strand a sleeper for good (`Preemption.NoneStrandedIff`).
- The last-resort unmapping of a shared page leaks a reference (`Reclaim.FallbackLeaks`).
- The hash links of the buffer heads are never initialized; the cache is valid exactly when
  that memory happens to be clear (`Cache.constructor`).
- A dirty buffer is relabelled even when its write-back failed (`Cache.Recycle`).
- `getcwd` silently leaves out the outermost names below 64 levels (`Paths.CwdIsWholeIff`).
- `mknod` stores any mode; with the directory bit it makes a directory without `.` and `..`
  (`Volume.NodeBreaks`).  A directory renamed into another one keeps its old `..`, and
  `getcwd` fails in it (`DirectoryTree.MovedDirectoryIsLost`).  Renaming onto another link to
  the same inode enters the name twice, and a removal then hides the one that is left
  (`Directory.RenameMoves`, `Directory.TwiceThenRemoved`); `.` and `..` can be renamed too.
- `rename` between directories moves a link from the one directory's count to the other's even
  for a file, and does not ask whether the place it moves to is a directory.  A directory that
  loses enough files is given up with all that is in it, and its number goes to the next new
  file (`VolumeLosses.DrainedDirectoryIsLost`).  Link counts are bytes and wrap
  (`Volume.LinkBreaks`, `Volume.DirectoryCountBreaks`).
- The directories stay a tree, and every inode in use keeps the links its entries need, exactly
  when a call does none of these (`Volume.StepKeepsWholeIff`).
- `pipe` takes an idle inode slot without writing it, although `iget` writes first: changes that
  are not on the disk yet are lost (`InodeTable.EmptyKeepsIff`).
- Freed zones are not cleared.  Handed out again as data they show through; as an indirect
  block their old bytes become zone numbers, so that files can come to share zones and
  overwrite each other (`Files.TruncateKeeps`, `Files.StaleDirectShowsIff`,
  `Files.StaleIndirectShowsIff`, `Files.StaleIndirectKeepsRefsIff`,
  `Files.StaleIndirectOverwrites`).
- A write to a pipe without reader raises the bit of SIGUSR2, not SIGPIPE, so the writer is
  never killed; the comment in `fs/pipe.c:5-7` says SIGPIPE (`Pipe.BrokenPipeSignal`).
- A fork that fails late keeps the counts it has raised for open files and the executable,
  although `kernel/process.c:316-319` says that everything is undone
  (`Descriptors.FailedForkKeepsInvIff`).
- The flag of `sigsuspend` belongs to the task slot and is not cleared when its task is killed;
  the next child in the slot then takes over the old task's mask (`Signals.ForkMaskIff`).
- A handler whose frame the user stack has no room for is not run, but its signal is gone
  and its mask stays in force (`Signals.RefusedFrameKeepsMasksIff`).
- There is one saved mask per task and one saved context for all tasks, although
  `kernel/process.c:746-747` calls one context enough (`Signals.NestedHandlersRestoreIff`,
  `Signals.OwnFrameIff`).
- The action mask is kept in sixteen bits, although `kernel/process.c:70-75` covers signals
  1 to 17, and it can block SIGKILL, although `kernel/process.c:963-966` says nothing can
  (`Signals.InstallDrops`, `Signals.KillBlockedIff`).
- `malloc` of nearly 4 GB wraps, and then gives a block that is too small or breaks the heap
  (`UserHeap.RoundedCoversIff`, `UserHeap.BumpsIff`, `Allocator.Malloc`).

## Model

| member | source | states |
|---|---|---|
| `Executable.BuildRegions` | kernel/sys.c:1727-1807 | the loop over the program headers gives exactly the region table of the specification, or fails when a header is rejected or the table is full |
| `Executable.FindRegion` | mm/memory.c:751-787 | the first region that holds an address; none only if no region holds it |
| `Executable.ReadFile` | mm/memory.c:751-787 | the bytes the file read delivers for a page: the file's own bytes, short only at its end |
| `Executable.TrimKeepsBytes` | kernel/sys.c:1744-1780 | cutting a segment at the start of the program window keeps every byte inside the window and its place in the file |
| `Executable.RegionDelivers` | mm/memory.c:751-787 | a fault on a page of a recorded region delivers the bytes of that segment, zeros past its file part |
| `Executable.RegionHasSegment` | kernel/sys.c:1727-1807 | every recorded region comes from a header of the file |
| `Executable.SegmentHasRegion` | kernel/sys.c:1727-1807 | every loadable header that is kept has its region |
| `Executable.OnlyOwnRegion` | mm/memory.c:751-787 | with segments on separate pages, the region found for an address is the one of its own segment |
| `Executable.LazyEqualsEager` | mm/memory.c:751-787 | for well-formed headers on separate pages, a fault on any page in any order gives every byte of every segment the value the Program Header section of the TIS ELF Specification 1.2 puts there |
| `PageEntry.MapWord` | mm/memory.c:546-581 | the word stored for a fresh mapping is a present, writable, unshared entry for that frame |
| `PageEntry.ShareWord` | mm/memory.c:621-628 | the word both sides of a fork are left with is the same entry read-only and marked shared |
| `PageEntry.SwapWord` | mm/memory.c:474-474 | the word stored after a swap-out is read back as swapped, with the same slot |
| `PageEntry.SecondChanceWord` | mm/memory.c:396-404 | the second chance clears Accessed and nothing else |
| `PageEntry.WordsCompareAsValues` | mm/memory.c:469-473 | two stored words are equal exactly when they are the same entry, so the re-check after a swap write compares entries |
| `FrameRefs.SetEntryRefs` | mm/memory.c:592-702 | storing one page-table entry moves exactly one reference |
| `FrameRefs.RefsReplace` | mm/memory.c:518-562 | replacing an address space changes the reference counts by exactly its own entries |
| `FrameRefs.FreshKeepsDiscipline` | mm/memory.c:546-581 | mapping a frame nobody maps keeps writable frames private and every frame at one page index |
| `FrameRefs.AliasKeepsDiscipline` | mm/memory.c:592-634 | sharing a read-only entry at the same index keeps writable frames private |
| `Paging.UnmapKeepsInv` | mm/memory.c:666-702 | clearing one entry and giving back its frame or slot keeps every count exact |
| `Paging.UnmapBelowKeepsInv` | mm/memory.c:666-702 | tearing down a page table entry by entry keeps every count exact |
| `Paging.AllocKeepsInv` | mm/memory.c:145-152 | taking a free frame keeps every count exact |
| `Paging.ReleaseKeepsInv` | mm/memory.c:187-201 | giving a frame back keeps every count exact |
| `Paging.NewSpaceKeepsInv` | mm/memory.c:518-544 | a new page directory and table keep every count exact |
| `Paging.DropSpaceKeepsInv` | mm/memory.c:696-702 | releasing an address space keeps every count exact |
| `Paging.MapFreshKeepsInv` | mm/memory.c:910-929 | a fault on a missing page keeps every count exact |
| `Paging.SwapInKeepsInv` | mm/memory.c:888-907 | bringing a page back from swap frees its slot and keeps every count exact |
| `Paging.BreakCowKeepsInv` | mm/memory.c:639-662 | the copy on a write fault moves one reference from the shared frame to the new one |
| `Paging.ShareEntryKeepsInv` | mm/memory.c:617-628 | one step of a fork adds exactly one reference |
| `Paging.BeginSwapKeepsInv` | mm/memory.c:437-441 | a swap write under way owns its slot and nobody else does |
| `Paging.SendSectorKeepsInv` | drivers/hd.c:242-249 | sending a sector of the frame to the slot keeps every count exact, whoever has the frame by then |
| `Paging.EndSwapKeepsInv` | mm/memory.c:469-484 | the end of a swap write hands the slot to the entry or gives it up, and the frame back exactly once |
| `Paging.ShareBound` | mm/memory.c:592-634 | a frame is mapped at most once per address space, so with 64 tasks its count stays below the reserved value 100 |
| `Paging.StepKeepsInv` | mm/memory.c:140-702 | every operation of every task keeps the invariant |
| `Paging.RunKeepsInv` | mm/memory.c:140-702 | so does every interleaving of operations |
| `Paging.AccountingIsExact` | mm/memory.c:140-702 | in every run from boot an unreserved frame's count is its page-table references plus kernel and in-flight holders, a frame with count 0 is mapped nowhere, and a swap slot in use has exactly one owner |
| `CopyOnWrite.MapFreshView` | mm/memory.c:910-929 | faulting in a missing page changes nothing any process can see |
| `CopyOnWrite.SwapInView` | mm/memory.c:888-907 | bringing a page back from swap changes nothing any process can see |
| `CopyOnWrite.BreakCowView` | mm/memory.c:639-662 | the copy on a write fault changes nothing any process can see |
| `CopyOnWrite.DropInvisibleIff` | mm/memory.c:406-430 | dropping a page is invisible if and only if the page equals what a fault brings back |
| `CopyOnWrite.EndSwapInvisibleIff` | mm/memory.c:469-484 | finishing a swap-out is invisible if and only if the re-check fails or the page is what was sent |
| `CopyOnWrite.SendSectorView` | drivers/hd.c:242-249 | a sector sent to a slot whose write is under way changes nothing any process can see |
| `CopyOnWrite.StoreRefines` | mm/memory.c:862-870 | a user store changes the private memory of that process alone |
| `CopyOnWrite.ShareRefines` | mm/memory.c:617-628 | sharing an entry in a fork gives the child a copy of that page |
| `CopyOnWrite.StepRefines` | mm/memory.c:582-702 | every operation is a step of a machine in which each process has its own memory |
| `CopyOnWrite.RunRefines` | mm/memory.c:582-702 | every run with faithful reclaim refines that machine |
| `CopyOnWrite.LoadsSeePrivateMemory` | mm/memory.c:582-702 | after every run from boot in which reclaim is faithful a load reads the byte that process last stored; `Reclaim.ReclaimIsInvisible` says which runs those are |
| `SwapWindow.SlotKept` | mm/memory.c:437-485 | nothing but the sending of its own sectors touches a slot while its write is under way |
| `SwapWindow.StepKeepsCurrent` | mm/memory.c:437-485 | with any number of writes under way, the sectors sent so far are those of the page whenever it is in its frame, after every operation that neither stores to a sector already sent nor puts a page back into a frame from which something else has been sent |
| `SwapWindow.CurrentIsFaithful` | mm/memory.c:469-484 | and then finishing the swap-out changes nothing any process can see |
| `SwapWindow.WindowRun` | mm/memory.c:437-485 | in a window that keeps the page mapped, its bytes and its Dirty bit are exactly those its stores make |
| `SwapWindow.SlotRun` | drivers/hd.c:227-258 | meanwhile the slot receives the sectors of the frame one by one, as it is when each is sent |
| `SwapWindow.SlotByte` | drivers/hd.c:242-249 | so each byte of the slot is the byte of the page at the moment its sector was sent |
| `SwapWindow.WindowOutcome` | mm/memory.c:437-484 | for every window that keeps the page in its frame, with any stores and whatever others do: the page ends as stored, or, when the re-check finds the entry as noted, with each sector as it was when it was sent |
| `SwapWindow.StoreInWindow` | mm/memory.c:437-484 | in every such window one store is lost if and only if its sector had been sent, Dirty was set before, Accessed ends as noted, the page has not been shared and the byte is a different one |
| `SwapLosses.ClearedAgain` | mm/memory.c:396-404 | one such window: a store to a sector already sent, and the second chance another task gives clears Accessed again: the store is lost |
| `SwapLosses.RemappedIsMissed` | mm/memory.c:437-484 | a page that goes out through another slot and comes back into the same frame during the write is taken for untouched, even with both bits clear, and the older copy returns |
| `SwapLosses.BorrowedFrame` | mm/memory.c:406-485 | a page of zeros dropped while it is being written lends its frame to another task and gets it back: what the borrower had in it is sent, the re-check finds the entry as noted, and the page, to which nobody stored, comes back with the borrower's byte |
| `Reclaim.TextStaysClean` | mm/memory.c:316-330 | as long as programs do not store to text, every text page stays what the executable says |
| `Reclaim.HonestRunIsFaithful` | mm/memory.c:359-485 | in runs without stores to text or to a sector on its way out, with zero drops only where zeros come back, and with no page put back into a frame from which something else has been sent, every reclaim takes only what can be brought back, nested swap-outs included |
| `Reclaim.ReclaimIsInvisible` | mm/memory.c:225-485 | over every such run from boot, which asks nothing of how a swap-out ends, a load finds the byte the process stored, through drops, swaps, faults and forks |
| `Reclaim.SettledFromBoot` | mm/memory.c:225-485 | every state such a run leads to is one from which the same holds again |
| `Reclaim.ZeroedPageReturns` | mm/memory.c:406-417 | a page of zeros that is dropped comes back as what the executable has there, so the drop is invisible if and only if that is zeros |
| `Reclaim.StoredTextReturns` | mm/memory.c:316-330 | a store to text is gone once the page is dropped, always |
| `Reclaim.ImageIsLoaded` | mm/memory.c:751-934 | after every such run from boot a load from any address of a segment, in a page not stored to since its program was loaded, finds the byte the Program Header section of the TIS ELF Specification 1.2 puts there |
| `Reclaim.FailedExecveKeepsImageIff` | kernel/sys.c:1716-1807 | an execve that fails after any number of headers leaves the new regions with the old image: every process sees what it saw if and only if the missing pages of the old image are the same through those regions |
| `Reclaim.FailedExecveZeroes` | kernel/sys.c:1716-1732 | one that fails before the first header makes every missing page read as zeros |
| `Reclaim.FallbackLeaks` | mm/memory.c:497-511 | the last-resort unmapping of a shared entry always leaves the frame's count one too high, and is visible exactly when the page differs from its backing |
| `Reclaim.ForkCopies` | mm/memory.c:592-634 | once every entry has been shared the child has the parent's pages |
| `MemoryManager.Memory.constructor` | mm/memory.c:80-138 | at boot every frame but the reserved ones is free, every slot is, and the accounting is exact |
| `MemoryManager.Memory.FindFree` | mm/memory.c:145-152 | the first frame with count 0, none only if there is none |
| `MemoryManager.Memory.Take` | mm/memory.c:145-152 | a free frame is marked used and cleared |
| `MemoryManager.Memory.FreePage` | mm/memory.c:187-201 | the count of the frame goes down as specified, a reserved one is left |
| `MemoryManager.Memory.FindSlot` | mm/memory.c:241-253 | the first free swap slot, none only if all are used |
| `MemoryManager.Memory.DropEntry` | mm/memory.c:406-430 | the entry is cleared and what it named is given back |
| `MemoryManager.Memory.StartSwap` | mm/memory.c:437-441 | the slot is claimed, entry and directory are remembered; nothing is sent yet |
| `MemoryManager.Memory.SendSectorTo` | drivers/hd.c:242-249 | the next sector of the frame, as it is now, is in the slot |
| `MemoryManager.Memory.WriteSectors` | drivers/hd.c:227-258 | the loop over the eight sectors, others running before each: success means all eight have been sent, a failed drive may leave any number |
| `MemoryManager.Memory.CancelWrite` | mm/memory.c:262-267 | after a failed write the slot is free again and the page stays |
| `MemoryManager.Memory.FinishSwap` | mm/memory.c:469-484 | the page goes only if directory and entry are what they were |
| `MemoryManager.Memory.SwapOut` | mm/memory.c:437-485 | write sector by sector while others run, give the slot up if the drive fails, look again if it does not: one consistent sequence of operations; success leaves a free frame |
| `MemoryManager.Memory.PageIsZero` | mm/memory.c:332-345 | true exactly for a page of zeros |
| `MemoryManager.Memory.TryEntry` | mm/memory.c:391-491 | one entry in one pass: second chance, drop, swap out or pass over, each a legal operation; success leaves a free frame |
| `MemoryManager.Memory.ScanTable` | mm/memory.c:387-492 | the scan of one table; success leaves a free frame |
| `MemoryManager.Memory.TryToFreePage` | mm/memory.c:359-512 | two rounds of three passes over all tasks from the cursor on; success leaves a free frame |
| `MemoryManager.Memory.GetFreePage` | mm/memory.c:140-181 | a cleared frame in hand, always when one was free; everything done meanwhile is legal operations of others |
| `MemoryManager.Memory.AllocUserPgdir` | mm/memory.c:518-544 | a new empty address space, or everything given back |
| `MemoryManager.Memory.UnWpPage` | mm/memory.c:639-662 | a private writable copy, found again after a possible sleep |
| `MemoryManager.Memory.PageIn` | mm/memory.c:880-934 | the missing page is present and writable |
| `MemoryManager.Memory.DoNoPage` | mm/memory.c:856-955 | either the task is killed or the page is present, writable and holds what it held before the fault, as long as what others did while it slept was honest: no stores to text or to a sector on its way out, zero drops only where zeros come back |
| `MemoryManager.Memory.FreeUserSpace` | mm/memory.c:666-702 | every frame and slot of the address space is given back |
| `MemoryManager.Memory.ShareOne` | mm/memory.c:617-628 | one entry shared, read-only on both sides |
| `MemoryManager.Memory.ForkOne` | mm/memory.c:592-629 | one entry shared, brought back from swap first if need be |
| `MemoryManager.Memory.CopyPageTables` | mm/memory.c:582-634 | every entry shared, with nothing between that stores to parent or child; a failure half way keeps the accounting |
| `MemoryManager.StaysPut` | mm/memory.c:437-485 | what others do while a task sleeps leaves its missing, swapped and shared entries alone |
| `MemoryManager.ForkedMemory` | mm/memory.c:582-634 | after a fork every page of the child is the parent's page at fork, under the same condition on the others |
| `WaitQueue.SleepOnKeepsInv` | fs/buffer.c:292-335 | queuing keeps one keeper for every sleeper |
| `WaitQueue.WakeUpKeepsInv` | fs/buffer.c:337-343 | waking the head keeps one keeper for every sleeper |
| `WaitQueue.ResumeKeepsInv` | fs/buffer.c:292-335 | a resuming task that wakes its predecessor keeps one keeper for every sleeper |
| `WaitQueue.RunKeepsInv` | fs/buffer.c:292-343 | so does every interleaving |
| `WaitQueue.SleeperIsReached` | fs/buffer.c:292-343 | from the head or a woken task the saved predecessors lead to every sleeper |
| `WaitQueue.NoStrandedSleeper` | fs/buffer.c:292-343 | after every run from the empty queue the head is empty or a sleeper, and every sleeper is reachable |
| `WaitQueue.OldSleeperHasWokenKeeper` | fs/buffer.c:292-343 | while somebody queued before a wake-up still sleeps, a woken task has yet to resume |
| `WaitQueue.WakeUpReachesAll` | fs/buffer.c:337-343 | once the resumes a wake-up enables are over, nobody queued before it sleeps |
| `WaitQueue.CascadeShrinks` | fs/buffer.c:292-343 | each such resume reduces the calls still inside sleep_on, so the cascade ends |
| `Preemption.SolidRun` | fs/buffer.c:292-308 | with interrupts off the assignments of sleep_on are one step, in every run |
| `Preemption.TornStrands` | fs/buffer.c:298-302 | a tick between the first two assignments leaves a sleeper that no wake-up reaches |
| `Preemption.StrandedForever` | fs/buffer.c:292-343 | and such a sleeper sleeps through every run that follows |
| `Preemption.NoneStrandedIff` | fs/buffer.c:292-343 | taken one assignment at a time, with two tasks or more, no run strands a sleeper if and only if every call of sleep_on on the queue is made with interrupts off |
| `WaitQueue.Waiters.SleepOn` | fs/buffer.c:292-335 | the code of sleep_on up to schedule() is the queuing step |
| `WaitQueue.Waiters.WakeUp` | fs/buffer.c:337-343 | the code of wake_up is the waking step |
| `WaitQueue.Waiters.Resume` | fs/buffer.c:292-335 | the code of sleep_on after schedule() is the resuming step |
| `Scheduler.Pick` | kernel/sched.c:161-175 | the selection finds a runnable task with the largest counter, the highest slot among equals |
| `Scheduler.RechargeEnables` | kernel/sched.c:190-194 | with priorities of at least 1 every runnable task has a positive counter after a recharge |
| `Scheduler.Schedule` | kernel/sched.c:161-194 | schedule goes idle exactly when nothing is runnable, and recharges at most once |
| `Scheduler.ScheduleIsMaximal` | kernel/sched.c:161-194 | the task chosen is runnable with the largest positive counter |
| `Scheduler.RunQueue.Select` | kernel/sched.c:161-172 | the loop over the task table computes the selection |
| `Scheduler.RunQueue.RechargeAll` | kernel/sched.c:190-193 | the loop recharges every counter |
| `Scheduler.RunQueue.Choose` | kernel/sched.c:161-194 | the outer loop decides as specified, in at most two selection passes |
| `Scheduler.NextIsSound` | kernel/sched.c:231-282 | every event keeps counters at most twice the priority |
| `Scheduler.SlackPays` | kernel/sched.c:276-282 | every tick a task waits is paid out of the other tasks' counters |
| `Scheduler.NoRechargeWhileWaiting` | kernel/sched.c:174-194 | no recharge happens while a runnable task has something to spend |
| `Scheduler.RechargeBounds` | kernel/sched.c:190-194 | a recharge gives the waiting task a positive counter and the others at most twice their priorities |
| `Scheduler.WaitsAtMostOthers` | kernel/sched.c:161-282 | a runnable task with a positive counter waits fewer ticks than the sum of the other counters plus one, whatever the others do |
| `Scheduler.WaitIsBounded` | kernel/sched.c:161-282 | every runnable task runs within a bound made of the other counters and priorities |
| `Links.UnlinkSpells` | fs/buffer.c:131-137 | taking a buffer out of the middle, head or tail of its hash chain leaves the chain of the others |
| `Links.UnlinkElsewhere` | fs/buffer.c:131-137 | and leaves every other chain alone |
| `Links.PushSpells` | fs/buffer.c:145-149 | putting a buffer in front of a chain gives the chain with it in front |
| `Links.PushElsewhere` | fs/buffer.c:145-149 | and leaves every other chain alone |
| `Links.CutCouples` | fs/buffer.c:201-204 | a buffer cut out of the ring leaves the ring of the others |
| `Links.PasteCircles` | fs/buffer.c:206-210 | pasted behind the head it is the new head of one ring through all buffers |
| `BufferCache.Hash` | fs/buffer.c:108-108 | the chain number is below the number of chains for every device and block |
| `BufferCache.Detach` | fs/buffer.c:129-138 | the unlinking in getblk keeps every other buffer on exactly its own chain |
| `BufferCache.Attach` | fs/buffer.c:139-149 | the relabelled buffer is on the chain of its new block, all others as before |
| `BufferCache.CleanMeansOnDisk` | fs/buffer.c:252-278 | when no buffer is dirty the disk has the contents of every block |
| `BufferCache.RelabelAgrees` | fs/buffer.c:120-143 | giving a clean buffer to another block loses nothing |
| `BufferCache.ForgetAgrees` | fs/buffer.c:122-126 | forgetting a buffer leaves its block with what the disk has |
| `BufferCache.WithInodeElsewhere` | fs/inode.c:60-95 | writing an inode leaves the other inodes of its block alone |
| `BufferCache.WithInodesDelivers` | fs/inode.c:97-106 | every dirty inode of the table is on the device afterwards, every other one is as it was |
| `BufferCache.Cache.constructor` | fs/buffer.c:65-87 | the initial ring runs through all 256 heads and every chain is empty; the cache is valid if and only if the memory of the hash links, which nothing writes, is clear |
| `BufferCache.Cache.Find` | fs/buffer.c:110-117 | the walk along one chain ends and finds the block exactly when a buffer holds it |
| `BufferCache.Cache.FindIdle` | fs/buffer.c:119-153 | the walk round the ring ends and finds the first idle buffer, none only if all are in use |
| `BufferCache.Cache.WriteBlock` | fs/buffer.c:228-238 | a successful write makes the disk agree and the buffer clean; a failed one changes nothing |
| `BufferCache.Cache.Fetch` | fs/buffer.c:223-227 | a read makes the buffer hold the block's contents |
| `BufferCache.Cache.Modify` | fs/file_dev.c:130-134 | a caller's write changes the contents of that block and no other |
| `BufferCache.Cache.Unlink` | fs/buffer.c:129-138 | the pointer code takes the buffer off its chain, also when it is on none |
| `BufferCache.Cache.Insert` | fs/buffer.c:139-149 | the pointer code puts it at the head of its new chain |
| `BufferCache.Cache.Recycle` | fs/buffer.c:120-151 | no contents are lost unless the buffer was dirty and the write-back failed, and then exactly that block falls back to the disk's |
| `BufferCache.Cache.GetBlk` | fs/buffer.c:101-162 | the one buffer of the block, referenced once more; a miss recycles the first idle buffer and all others stay |
| `BufferCache.Cache.Bread` | fs/buffer.c:164-190 | the buffer returned holds the last value written to the block; a refused read gives the reference back |
| `BufferCache.Cache.Brelse` | fs/buffer.c:192-211 | one reference less; the last one makes this buffer the first to be recycled |
| `BufferCache.Cache.Front` | fs/buffer.c:201-210 | the ring surgery moves one buffer to the head and keeps one ring through all |
| `BufferCache.Cache.WriteInode` | fs/inode.c:60-95 | a dirty mark is taken off only when the inode's bytes are in the contents; buffer references are as before |
| `BufferCache.Cache.SyncInodes` | fs/inode.c:97-106 | all dirty inodes are written when the disk works and a buffer is idle |
| `BufferCache.Cache.SyncBuffers` | fs/buffer.c:260-273 | one walk round the ring writes every dirty buffer and counts them |
| `BufferCache.Cache.SyncDev` | fs/buffer.c:260-278 | afterwards the disk equals the contents with every dirty inode spliced in, and nothing is dirty |
| `InodeTable.GetKeeps` | fs/inode.c:160-229 | iget, whatever slot it recycles, changes no inode |
| `InodeTable.WriteKeeps` | fs/inode.c:60-95 | writing an inode out changes no inode and leaves its slot clean |
| `InodeTable.RecycleKeeps` | fs/inode.c:160-229 | a clean slot can be given to any inode that has none |
| `InodeTable.EmptyKeepsIff` | fs/inode.c:231-255 | get_empty_inode changes no inode if and only if the slot it takes is clean or holds what the disk has |
| `InodeTable.NothingIsLost` | fs/inode.c:60-277 | over every run of gets, puts, changes, writes and pipes every inode is what was last made of it, as long as no pipe takes a slot with changes that are not on the disk |
| `InodeTable.Inodes.Iget` | fs/inode.c:160-229 | the two loops find the inode or recycle the first idle slot; the slot returned holds the inode as last changed, none only when every slot is in use |
| `InodeTable.Inodes.GetEmptyInode` | fs/inode.c:231-255 | the first idle slot is taken as it is; every inode is as it was if and only if that slot was clean or on the disk |
| `Directory.CompareNames` | fs/namei.c:48-59 | the byte loop decides name equality as specified |
| `Directory.NameEqIsText` | fs/namei.c:48-59 | a name field matches a C string exactly when its text is the string's first fourteen bytes |
| `Directory.LookupIsListing` | fs/namei.c:208-223 | in an orderly directory the first slot of a name, dead or alive, answers like a map of names |
| `Directory.AddEnters` | fs/namei.c:404-446 | adding a name that lookup reports absent enters it, changes no other name and never puts a live slot behind another of its name; it fails exactly for a name over fourteen bytes or a full directory that cannot grow |
| `Directory.RemoveTakes` | fs/namei.c:477-497 | removing takes that name away and no other, and fails exactly when it is not there |
| `Directory.AddOrderlyIff` | fs/namei.c:404-446 | adding keeps names unique and unshadowed if and only if the name was absent |
| `Directory.TwiceThenRemoved` | fs/namei.c:477-497 | a name entered twice and removed once stays listed but can no longer be looked up |
| `Directory.RenameWorksIff` | kernel/sys.c:1541-1578 | a rename within a directory succeeds exactly when the old name is there and the new one is absent or stands for the same inode |
| `Directory.RenameMoves` | kernel/sys.c:1541-1578 | it moves the entry; the directory stays orderly if and only if the new name was absent or is the old one |
| `Directory.EntryNameLeadsBack` | kernel/sys.c:1378-1426 | the name found for an inode number looks that number up again |
| `DirectoryCache.HitIsRight` | fs/namei.c:138-154 | a remembered answer under a matching name is the answer for the name asked |
| `DirectoryCache.Write` | fs/namei.c:184-187 | the name written over an old one reads back as the first fourteen bytes |
| `DirectoryCache.Namespace.Invalidate` | fs/namei.c:129-135 | no answer is left |
| `DirectoryCache.Namespace.LookupCached` | fs/namei.c:138-154 | a hit is what the uncached search answers |
| `DirectoryCache.Namespace.ChooseSlot` | fs/namei.c:156-182 | a slot to fill, with the other answers kept or all thrown away |
| `DirectoryCache.Namespace.Store` | fs/namei.c:156-188 | the answer is remembered and all answers stay right, also when the cache was full |
| `DirectoryCache.Namespace.Scan` | fs/namei.c:206-223 | the loop over the slots is the uncached search |
| `DirectoryCache.Namespace.FindEntry` | fs/namei.c:190-224 | the answer is the uncached one, whatever was looked up before |
| `DirectoryCache.Namespace.Enter` | kernel/sys.c:1337-1348 | lookup, then add: when it succeeds, the map of names gains exactly that name and the cache stays right |
| `DirectoryCache.Namespace.Erase` | fs/namei.c:477-497 | the map of names loses exactly that name and the cache stays right |
| `Paths.ChildName` | kernel/sys.c:1378-1426 | in a tree the name a parent has for a directory is a proper component and leads back |
| `Paths.ClimbReaches` | kernel/sys.c:1443-1466 | in a tree the walk up never fails and gives one name per level, at most 64 |
| `Paths.WalkFollows` | fs/namei.c:278-334 | the component loop on a joined path follows its names one by one |
| `Paths.CwdResolves` | kernel/sys.c:1428-1487 | for a directory at most 64 levels deep, resolving getcwd's output gives that directory exactly when every directory on the way may be searched |
| `Paths.CwdIsWholeIff` | kernel/sys.c:1443-1466 | the output is the whole path if and only if the directory is at most 64 levels deep |
| `DirectoryTree.EnterFileKeepsTree` | kernel/sys.c:753-806 | entering a number that is no directory keeps the tree |
| `Volume.NodeBreaks` | kernel/sys.c:794-800 | mknod with the directory bit in its mode makes a directory without slots: the tree is broken and getcwd fails in it |
| `DirectoryTree.MakeDirKeepsTree` | kernel/sys.c:809-893 | mkdir with a number that is entered nowhere keeps the tree |
| `DirectoryTree.UnlinkKeepsTree` | kernel/sys.c:897-951 | removing the name of a file keeps the tree |
| `DirectoryTree.RemoveDirKeepsTree` | kernel/sys.c:955-1021 | removing an empty directory keeps the tree |
| `DirectoryTree.SlideKeepsTree` | kernel/sys.c:1563-1578 | an entry that moves to another slot of its directory, of a file or a directory, keeps the tree |
| `DirectoryTree.MoveWithinKeeps` | kernel/sys.c:1563-1578 | rename within a directory, of a directory too, keeps the tree when the new name is absent or the old one |
| `DirectoryTree.MoveWithinBreaks` | kernel/sys.c:1563-1578 | otherwise the name is there twice, or "." or ".." has lost its slot |
| `DirectoryTree.MoveFileKeeps` | kernel/sys.c:1549-1562 | rename of a file into another directory keeps the tree |
| `DirectoryTree.MoveAcrossBreaks` | kernel/sys.c:1549-1562 | rename of a directory into another one, or onto a second name of the inode, never does |
| `DirectoryTree.FreshIsTree` | kernel/sys.c:838-853 | a root directory with "." and ".." is a tree |
| `DirectoryTree.MovedDirectoryIsLost` | kernel/sys.c:1549-1562 | after a rename moves a directory into another one, getcwd fails in it, always |
| `Volume.MakeNodeKeeps` | kernel/sys.c:753-806 | mknod of a file keeps the directories a tree, every entered number in use and every inode in use with the links its entries need |
| `Volume.LinkFileKeeps` | kernel/sys.c:1307-1360 | so does link, while the file's byte-wide count has room |
| `Volume.UnlinkKeeps` | kernel/sys.c:897-951 | so does unlink, always |
| `Volume.MakeDirKeeps` | kernel/sys.c:809-893 | so does mkdir, while the parent's count has room |
| `Volume.RemoveDirKeeps` | kernel/sys.c:955-1021 | so does rmdir, unless it takes the parent's last link |
| `Volume.GiveUpKeeps` | fs/inode.c:257-277 | so does giving back an inode whose count is zero, because nothing names it |
| `Volume.MoveWithinSound` | kernel/sys.c:1541-1578 | so does a harmless rename within a directory |
| `Volume.MoveToDirectorySound` | kernel/sys.c:1541-1578 | so does a harmless rename of a file into another directory |
| `Volume.MoveToFileSound` | kernel/sys.c:1541-1562 | and one into a file, whose bytes take the entry |
| `Volume.LinkBreaks` | kernel/sys.c:1337-1348 | the link after the 255th leaves a file with a name and no links |
| `Volume.DirectoryCountBreaks` | kernel/sys.c:809-1021 | a directory whose count wraps, or drops to zero, is in use without links |
| `Volume.MoveCountBreaks` | kernel/sys.c:1549-1562 | and so is one that rename counts down to zero although a file left it, or up past 255 |
| `Volume.MoveIntoFileBreaks` | kernel/sys.c:1541-1562 | a directory renamed into a file is entered nowhere |
| `Volume.StepKeepsWholeIff` | kernel/sys.c:753-1578 | mknod, link, unlink, mkdir, rmdir, rename and the release of an inode keep the volume whole, its directories a tree and no inode in use without the links its entries need, if and only if the call is harmless: no directory bit for mknod, no count past 255, no directory's last link taken, and rename onto an absent or the same name, of a file or within a directory, sparing "." and ".." |
| `Volume.RunKeepsWhole` | kernel/sys.c:753-1578 | every run of harmless calls keeps the volume whole, so getcwd's guarantee holds after it, and the number new_inode gives out is entered nowhere |
| `Volume.FreshIsSound` | kernel/sys.c:838-853 | a volume with a root directory alone is whole |
| `VolumeLosses.ReusedDirectoryIsLost` | fs/bitmap.c:78-115 | a directory without links is given up and its number goes to a file: getcwd fails below it |
| `VolumeLosses.DrainsAll` | kernel/sys.c:1549-1562 | renaming as many files out of a directory as it has links leaves it without any, whatever it still holds |
| `VolumeLosses.DrainedDirectoryIsLost` | kernel/sys.c:753-1578 | a run of calls from a fresh volume, all of which succeed, that ends so |
| `VolumeLosses.TooDeep` | kernel/sys.c:1443-1466 | mkdir alone makes a directory 65 levels down, of whose path getcwd leaves out a part |
| `Paths.Resolve` | fs/namei.c:236-338 | the loop of namei resolves as specified, for every string |
| `Paths.Getcwd` | kernel/sys.c:1428-1487 | the two loops of getcwd write the specified path, and fail exactly when the walk fails or path and NUL do not fit |
| `Paths.ClimbUp` | kernel/sys.c:1443-1466 | the walk up collects the names |
| `Paths.Assemble` | kernel/sys.c:1476-1486 | the names are written outermost first, or refused exactly when they do not fit |
| `Files.HookedKeepsRefs` | fs/file_dev.c:88-120 | giving a fresh zone to one reference keeps all references distinct and marked |
| `Files.EntryIsHooked` | fs/file_dev.c:96-120 | setting one entry of an indirect block changes that reference and no other of any file |
| `Files.HookedWrote` | fs/file_dev.c:88-120 | taking a zone changes no file but its own, and there only shows the zone's old contents |
| `Files.PokeWrote` | fs/file_dev.c:124-145 | writing into a zone changes exactly the bytes written, of that file alone |
| `Files.WroteTwice` | fs/file_dev.c:82-145 | two turns of the loop that follow on are one write |
| `Files.WroteReadsBack` | fs/file_dev.c:6-148 | on every disk, whatever its free zones hold, what has been written is read back |
| `Files.WroteFileIff` | fs/file_dev.c:74-148 | the file is the old one overwritten with zeros in the gaps if and only if the zones taken hold zeros beside the bytes written, and the bytes behind the old end were zero |
| `Files.GivesNth` | fs/bitmap.c:32-57 | after n zones have been taken new_block gives the n-th clear one |
| `Files.NeedsLast` | fs/file_dev.c:83-120 | so each block of a write that has no zone gets the clear zone whose place in the bitmap is the number of references wanted before it, the indirect block among them |
| `Files.WriteFileIff` | fs/file_dev.c:74-148 | known before the write: the file becomes the old one overwritten with zeros in the gaps if and only if those clear zones hold zeros beside the bytes written and the bytes behind the old end are zero |
| `Files.WroteSound` | fs/file_dev.c:74-148 | which is always so while the free zones are zero-filled, and they stay so |
| `Files.ReadBack` | fs/file_dev.c:6-148 | what is written is read back |
| `Files.ReadBeside` | fs/file_dev.c:6-148 | what lies beside it is unchanged, and gaps read as zeros |
| `Files.TruncateKeeps` | fs/inode.c:110-141 | truncation takes the zones of that file only; free zones are zero-filled afterwards exactly when they were and its zones are |
| `Files.StaleDirectShowsIff` | fs/bitmap.c:32-57 | a zone handed out without clearing as direct zone changes no byte of any file exactly when it is full of zeros |
| `Files.StaleEntryShowsIff` | fs/file_dev.c:106-120 | so does one that becomes an entry of an indirect block |
| `Files.StaleIndirectShowsIff` | fs/file_dev.c:96-104 | one that becomes the indirect block changes no byte exactly when every zone number among its old bytes reads as a hole |
| `Files.StaleIndirectKeepsRefsIff` | fs/file_dev.c:96-104 | and all references stay marked and distinct exactly when each of those numbers is 0 or a marked zone nobody else refers to |
| `Files.StaleIndirectOverwrites` | fs/file_dev.c:96-145 | when one is a zone of another file, the two files share it and a write to the one changes the other |
| `Files.FileSystem.NewBlock` | fs/bitmap.c:32-57 | the first clear zone is marked, 0 only when all are taken |
| `Files.FileSystem.EnsureZone` | fs/file_dev.c:83-120 | the block has a zone afterwards, the next clear one if it had none; none only when the disk is full |
| `Files.FileSystem.WriteChunk` | fs/file_dev.c:82-145 | one turn of the loop writes within one block |
| `Files.FileSystem.FileWrite` | fs/file_dev.c:74-148 | across direct and indirect zones and whatever the free zones hold: references stay distinct and marked, the zones taken are the first clear ones in the order the blocks come, no other file changes, what was written reads back; on a zero-filled disk the file is the old one overwritten, gaps zero; short only when the disk is full |
| `Files.FileSystem.FileRead` | fs/file_dev.c:6-72 | the bytes of the file at the position, up to its end, holes as zeros |
| `Files.FileSystem.FreeBlock` | fs/bitmap.c:5-30 | a data zone is marked free, other numbers are ignored |
| `Files.FileSystem.Truncate` | fs/inode.c:110-141 | the file is empty, every other file as it was, exactly its zones are free again, uncleared |
| `Pipe.PutAppends` | fs/pipe.c:60-61 | a byte put in is last in the ring |
| `Pipe.GetTakesFirst` | fs/pipe.c:34-36 | the byte taken out was first |
| `Pipe.PipeIsFifo` | fs/pipe.c:16-66 | in every interleaving the bytes read are a prefix of the bytes written and the ring holds the difference, at most 4095 bytes |
| `Pipe.OneMoreSignal` | kernel/process.c:936-1017 | what one more pending signal brings a task in which nothing else acts |
| `Pipe.BrokenPipeSignal` | fs/pipe.c:47-57 | the signal a writer without reader gets never kills it and never enters its SIGPIPE handler, where SIGPIPE would kill it unless blocked, ignored or handled |
| `Pipe.PipeInode.ReadPipe` | fs/pipe.c:23-40 | the bytes returned are the next ones; with count above 0 nothing is returned only when the ring is empty and an end is closed |
| `Pipe.PipeInode.WritePipe` | fs/pipe.c:42-66 | the first n bytes are accepted in order; refused or cut short exactly when an end is closed, and then exactly that signal is added to the task's |
| `Descriptors.CloseKeepsInv` | kernel/sys.c:608-622 | close keeps every count exact |
| `Descriptors.ShareKeepsInv` | kernel/sys.c:711-727 | sharing an entry keeps every count exact |
| `Descriptors.TakeKeepsInv` | kernel/sys.c:577-600 | opening keeps every count exact |
| `Descriptors.PipeKeepsInv` | fs/pipe.c:84-127 | pipe keeps every count exact; its inode has two references |
| `Descriptors.BootInv` | fs/minix.c:8-8 | with nothing open but consoles every count is exact |
| `Descriptors.ForkKeepsInv` | kernel/process.c:133-176 | fork keeps every count exact, of files and of inodes: the child counts for every open file, the working directory, the root and the executable |
| `Descriptors.FailedForkKeepsInvIff` | kernel/process.c:315-331 | a fork that fails after counting keeps them exact if and only if the parent has no file open and no executable |
| `Descriptors.LetGoKeepsInv` | kernel/process.c:333-348 | letting go of an inode a task holds keeps every count exact |
| `Descriptors.CountFits` | include/linux/fs.h:119-126 | the sixteen-bit count never wraps |
| `Descriptors.FreeIffUnnamed` | kernel/sys.c:577-585 | an entry is free exactly when no descriptor of any task names it |
| `Descriptors.PageOutIffNamed` | fs/inode.c:261-270 | a pipe's page is out exactly while a descriptor names one of its ends: it is given back once |
| `Descriptors.Tables.Drop` | fs/inode.c:257-277 | one reference less; the last one releases the inode, and with a pipe its page |
| `Descriptors.Tables.Close` | kernel/sys.c:608-622 | fails exactly on a closed or impossible descriptor; otherwise closes that one |
| `Descriptors.Tables.DupFrom` | kernel/sys.c:1582-1594 | the lowest closed descriptor from the given one on becomes a copy, or nothing changes |
| `Descriptors.Tables.Dup2` | kernel/sys.c:729-750 | the target names what the source names, all other descriptors as before |
| `Descriptors.Tables.Open` | kernel/sys.c:577-600 | the lowest closed descriptor from 3 on names the first free entry, or nothing changes |
| `Descriptors.Tables.MakePipe` | fs/pipe.c:84-127 | two entries, two descriptors and a pipe inode, or nothing changes |
| `Descriptors.Tables.constructor` | fs/minix.c:8-8 | the empty tables have exact counts |
| `Descriptors.Tables.Fork` | kernel/process.c:133-331 | the child has the parent's descriptors, directories and executable, and each is counted once more; when the fork fails the files and the executable stay counted, so the counts are exact if and only if there were none |
| `Descriptors.Tables.Exit` | kernel/process.c:333-348 | every descriptor is closed and working directory, root and executable are let go |
| `Signals.InstallDrops` | kernel/process.c:493-496 | of the mask asked for, bits 16 and 17 are not kept |
| `Signals.ScanPicksLowest` | kernel/process.c:936-1017 | the lowest pending signal that can act does and is consumed, nothing happens only if none can |
| `Signals.BlockedStaysPending` | kernel/process.c:963-968 | a blocked pending signal stays pending over one scan |
| `Signals.HeldStaysPending` | kernel/process.c:963-968 | and over every run of events during which it stays blocked |
| `Signals.HeldThenDelivered` | kernel/process.c:936-1000 | its handler is entered at the first event that leaves it unblocked, if no lower signal acts |
| `Signals.ScanMasks` | kernel/process.c:936-1021 | delivery restores a sigsuspend mask and leaves the masks alone, or saves the one in force and adds the signal and its action mask |
| `Signals.KilledLeavesFlag` | kernel/process.c:936-1021 | a task killed out of sigsuspend leaves the flag of its slot set |
| `Signals.ForkMaskIff` | kernel/process.c:133-176 | the mask of a child after its first delivery, and the one its first handler returns to, is the parent's if and only if the last task of its slot left that flag clear or noted that very mask |
| `Signals.EventIsIntended` | kernel/process.c:581-640 | every call changes the masks as intended; sigsuspend leaves no trace |
| `Signals.HandlerRestoresMask` | kernel/process.c:82-88 | with one handler outstanding its return brings back the mask in force at its entry, whatever it blocked, unblocked or waited for |
| `Signals.NestedHandlersRestoreIff` | kernel/process.c:989-999 | with a handler inside a handler, whatever happens before, between and after their returns, the first return brings back the mask in force between them, and the mask from before both is back if and only if that one, as the rest of the first handler changed it, is the same |
| `Signals.NestedHandlerLosesMask` | kernel/process.c:989-999 | which it is not when the first handler just ran |
| `Signals.KillBlockedIff` | kernel/process.c:992-998 | SIGKILL is blocked by a handler exactly when its action mask has it |
| `Signals.RefusedFrameKeepsMasksIff` | kernel/process.c:985-999 | the signal is consumed and the mask changed before the stack is looked at: the masks are as intended if and only if the stack is accepted, or the handler's mask adds nothing to one already saved |
| `Signals.StackOkIff` | kernel/process.c:845-857 | the signed checks accept exactly the stack pointers with room for the block inside the user stack |
| `Signals.ContextRoundTrip` | kernel/process.c:859-886 | the sixteen words come back; the return is accepted exactly for user code with an aligned stack |
| `Signals.OwnFrameIff` | kernel/process.c:746-748 | with one context for all tasks, a task gets its own frame back exactly when the last delivery's was equal |
| `Signals.TimerContextRoundTrip` | kernel/process.c:656-688 | a handler entered from the timer returns to the registers the timer interrupted |
| `Signals.SignalState.Sigprocmask` | kernel/process.c:581-607 | the mask changes as asked, never with SIGKILL |
| `Signals.SignalState.Sigaction` | kernel/process.c:463-501 | accepted exactly for a catchable signal and a default, ignored or in-image handler; a user handler becomes persistent with its mask, the others lose both; a query changes nothing |
| `Signals.SignalState.SuspendUntil` | kernel/process.c:617-640 | the temporary mask is in force and the old one noted |
| `Signals.SignalState.EnterHandler` | kernel/process.c:985-998 | handler reset unless installed by sigaction, mask in force saved, signal and action mask blocked |
| `Signals.SignalState.DoSignal` | kernel/process.c:920-1021 | the loop delivers as specified and writes frame and context only when a handler is entered on a good stack |
| `Signals.SignalState.Deliver` | kernel/process.c:839-913 | context saved and frame redirected exactly when the stack pointer is in range |
| `Signals.SignalState.SigreturnCall` | kernel/asm.s:48-131 | mask restored, frame rewritten exactly when the context passes the checks |
| `UserHeap.RoundedCoversIff` | user/lib.c:484-486 | the rounded size covers the request exactly when the rounding does not wrap |
| `UserHeap.BumpsIff` | user/lib.c:500-501 | the limit test is right exactly when the sum does not wrap below the limit |
| `UserHeap.LiveBlocksDisjoint` | user/lib.c:480-517 | live blocks share no byte |
| `UserHeap.LiveBlockInRange` | user/lib.c:480-517 | live blocks are 8-aligned and inside the heap |
| `UserHeap.Allocator.Malloc` | user/lib.c:480-506 | for every size: the heap stays valid if and only if the new top does not wrap below the end, and then the block was not live, all live blocks are as before, and it is as large as asked if and only if the rounding does not wrap; NULL exactly when neither list nor heap will do |
| `UserHeap.Allocator.FindFit` | user/lib.c:489-490 | the first free chunk that is large enough |
| `UserHeap.Allocator.TakeOut` | user/lib.c:491-495 | the chunk leaves the list, the others stay in order |
| `UserHeap.Allocator.Free` | user/lib.c:508-517 | exactly that block stops being live |

## Left out

- MemoryManager.Memory.GetFreePage: the unmapping of a shared page as last resort counts as failure; `Reclaim.FallbackLeaks` says what it would do to the accounting.
- MemoryManager.Memory.SwapOut: when the write fails and the address space has gone meanwhile, the scan gives up where the code goes on with the table it was reading.
- MemoryManager.Memory.TryToFreePage: reports that last resort instead of taking it; the order in which tasks are scanned is modelled, the statistics printed are not.
- MemoryManager.Memory.DoNoPage: an address space is told by its task slot and page directory; a directory page freed and reused for the same slot during one sleep is not told apart.
- MemoryManager.Memory.CopyPageTables: nobody acts for the child while it is being made; in the code it is marked runnable before its pages are copied (`kernel/process.c:176`, `kernel/process.c:271`), so a tick or a sleep in the copy can let it run early.
- MemoryManager.ForkedMemory: under the same condition on the child.
- SwapWindow.StoreInWindow: windows that keep the page in its frame; `SwapLosses.RemappedIsMissed` and `SwapLosses.BorrowedFrame` are cases of windows that do not.
- CopyOnWrite.LoadsSeePrivateMemory: about user-mode stores; the kernel's own stores ignore write protection on this CPU.
- BufferCache.Cache.GetBlk: one device, calls one after the other; when every buffer is in use the result is None where the code sleeps and tries again, and the eight-bit count is unbounded.
- BufferCache.Cache.Bread: the wait for a buffer that another task is reading is in `WaitQueue` only.
- BufferCache.Cache.SyncDev: the inode table is a value the caller passes in; its promise needs one idle buffer.
- DirectoryCache.Namespace.Enter: the directory blocks behind the slots are left to `Files`; slots whose block cannot be read are not modelled.
- Paths.Resolve: permission is a set of directories the caller may search; the inode table is never full.
- Volume.StepKeepsWholeIff: calls that fail change nothing here; a rename out of a path that names a file is not modelled, nor is what the bytes of a file renamed into become.
- InodeTable.Inodes.Iget: one call at a time although reading and writing an inode sleep; the writes succeed.
- Files.FileSystem.NewBlock: the zone bitmap is a sequence of booleans, not bits in cached blocks; it ends at the number of zones, where the code has no test and relies on the padding bits of the last bitmap block being set.
- Files.FileSystem.FileWrite: asks for offsets within 7 + 512 zones, as the code has no check; when it has to take an indirect block it asks for zero-filled free zones, and `Files.StaleIndirectKeepsRefsIff` is the case of one that is not.
- Files.FileSystem.FileRead: asks for a size within 7 + 512 zones; reads of the device succeed.
- Descriptors.Tables.Fork: a fork that finds no task page or slot changes nothing and is not modelled.
- Descriptors.Tables.Open: the lookup of the name is left to `Paths`; the console's entry is not counted, by design of the source.
- Signals.SignalState.Sigaction: the calling task only; with SIG_DFL or SIG_IGN for signals 18 to 31 the code also clears a word of the next task's row of action masks. The old action it reports is not modelled.
- Signals.SignalState.DoSignal: the sleep of a stopped task and the exit of a killed one are outcomes, not steps; the snapshot written to the user stack is not modelled.
- Scheduler.WaitIsBounded: no fork and no nice during the wait; deadline wake-ups are ordinary wake-ups.
- Preemption.NoneStrandedIff: the only result in which a tick can fall between two assignments; every other result about several tasks takes the code between two sleeps as one step.
- Boot code, drivers and port I/O: the disk is an array of blocks.
- Page-table and TLB hardware, task-state segments, kernel stacks in fork.
- The shells, user programs, scripts and tools; string and character routines of `user/lib.c`.
- One-branch system calls such as uid, umask, uname and times.
