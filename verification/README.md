# A model of the Nachos kernel in Dafny

Nachos is an instructional operating system: a kernel that runs on a simulated MIPS
machine. This project models the parts of it that are hardest to get right, and proves
what they are for.

- **Demand paging with copy-on-write** (`Paging*.dfy`, `Aging*.dfy`, `UseRuns.dfy`,
  `WorkingSet.dfy`). Frames, swap slots, page tables, owner lists and the bits of the
  entries together give each process a private array of pages. `Paging.dfy` has the state,
  the invariant and the steps; `PagingOut`, `PagingIn`, `PagingCow`, `PagingFork` and
  `PagingRun` prove what each step keeps; `PagingTheorem` has the refinement over whole
  runs, `PagingExit` the fate of the copy-on-write bits at exit; `PagingPolicy` the
  replacement policies; `Aging`, `AgingRuns` and `UseRuns` what the aging byte, the use bit
  and the load time of a page say about the accesses of a run; `PagingKernel` and
  `PagingSpaces` the classes and loops that are proved to take those steps; `WorkingSet`
  the refresh of the working set with its contraction loop.
- **Processes** (`Processes*.dfy`). Fork, Exit and Wait as atomic steps between the points
  at which the kernel can switch threads, with any interleaving.
- **Semaphores, console, scheduler** (`Semaphore.dfy`, `Console.dfy`, `List.dfy`,
  `Scheduler.dfy`).
- **The file system** (`FreeBits.dfy`, `Bitmap.dfy`, `OpenFile.dfy`, `FsFormat.dfy`,
  `FsState.dfy`, `FileSystem.dfy`, `FsCapacity.dfy`). Byte-wise files over whole sectors, with a bitmap and a
  directory that are files of the same disk; a consistency invariant, and a refinement to a
  map from names to bytes of fixed capacity.
- **Algorithms** (`Multiply.dfy`, `Crc.dfy`, `Disk.dfy`, `Breakpoints.dfy`, `Packet.dfy`).
  The multiplier of the simulated processor, the checksum and the packets of the remote
  debugging protocol, the timing of the disk, and the index of breakpoints. The frames and
  the use of the checksum are those of "Overview" and "General Query Packets" in the GDB
  Remote Serial Protocol appendix of the GDB manual.

`Option.dfy`, `Sequences.dfy`, `Arithmetic.dfy`, `Bytes.dfy` and `DiskGeometry.dfy` hold what
several parts share.

Where the source changes things in place, the model is a class or a method with the
source's loops, proved against a function of the old state; the properties are proved about
these functions. Concurrency is a state machine over atomic steps, and its properties are
about all runs. `dafny verify dfyconfig.toml` checks everything.

Some things are not as one would expect from the code's own comments, and are kept as the
code has them:

- `pageout` leaves the frame's bit set, so contraction loses frames: `LostByContraction`
  says exactly when.
- The destructor of an address space tests the frame of page 0 at every page, so it unshares
  the last other owner of that frame and of no other. That changes nobody's memory:
  `ExitUnshares`, `LastOwnerUnshared` and, in a run from start-up, `BitStays`.
- The track buffer can serve a sector that is still passing the head when the request comes:
  `EarlyHit`, and exactly when in `HitExactly`.
- `removeBreakpoint` passes over the entry that follows one it removes: `RemovedRight` and
  `TwinSurvives`.
- The checksum of a packet does not catch every changed character: `ErrorIsTaken`, and exactly
  which it misses in `ErrorIsRepaired`.
- A semaphore's woken waiter has no claim to the unit it was woken for: `Overtaken`, and
  exactly when it gets one in `WokenGetsUnit`.
- A thread that has only just started does not delete a finished one. The next switch to a
  thread that has run before does, and `NeverFails` includes that none is forgotten
  meanwhile.

## Model

| member | source | states |
|---|---|---|
| `PagingTheorem.PagingIsTransparent` | nachos/userprog/memmgr.cc:197-409 | In every run of page faults, reads, writes, forks, exits, new spaces, contractions, refreshes of working sets and scans of use bits, under any choice of victims, the ownership invariant holds at the end and what every space sees is what private arrays of pages would hold: only a write changes anything, the written bytes of the writer; a child starts with its parent's pages |
| `PagingTheorem.StepRefines` | nachos/userprog/addrspace.cc:562-634 | One step keeps the invariant and does to the contents of all pages exactly what the abstract step does |
| `PagingTheorem.SpawnSees` | nachos/userprog/memmgr.cc:222-260 | A new space sees 128 zeros in a page marked zero, the bytes of the executable at the entry's offset in one backed by it, and nothing in a page without either |
| `PagingTheorem.ReadSees` | nachos/machine/translate.cc:53-95 | A read returns the bytes of the abstract memory |
| `PagingTheorem.BootInv` | nachos/userprog/memmgr.cc:16-26 | The start-up state satisfies the invariant |
| `PagingOut.PageOutKeeps` | nachos/userprog/memmgr.cc:301-409 | Paging out a mapped frame keeps the ownership invariant (owner lists exact and duplicate-free for frames and slots, shared is copy-on-write, owners agree, clean pages equal their backing, nothing owned is marked free) and leaves the frame unowned |
| `PagingOut.OutContent` | nachos/userprog/memmgr.cc:301-409 | Paging out keeps the contents of every page of every space |
| `PagingIn.AllocKeeps` | nachos/userprog/memmgr.cc:197-219 | Getting a frame, free or from a victim, keeps the invariant, marks the frame and leaves it unowned |
| `PagingIn.AllocKeepsPage` | nachos/userprog/memmgr.cc:197-219 | Getting a frame keeps the contents of every page of every space, and the entry of the page that must not be taken |
| `PagingIn.LoadKeeps` | nachos/userprog/memmgr.cc:221-291 | Loading a page into an unowned frame keeps the invariant, gives the frame its owners and maps the page |
| `PagingIn.LoadContent` | nachos/userprog/memmgr.cc:221-291 | Loading keeps the contents of every page of every space; the pages that are mapped have what was stored for them |
| `PagingRun.PageInKeeps` | nachos/userprog/memmgr.cc:197-291 | The whole page-in keeps the invariant and all contents and leaves the page mapped |
| `PagingCow.CopyKeeps` | nachos/userprog/addrspace.cc:596-634 | Duplicating a page on a write keeps the invariant; the writer alone owns the new frame, is off the old one and its slot, and a last remaining owner there is unshared |
| `PagingCow.CopyContent` | nachos/userprog/addrspace.cc:596-634 | Duplicating a page keeps the contents of every page of every space |
| `PagingCow.MarkKeeps` | nachos/machine/translate.cc:246-256 | A translation sets the use bit, the top bit of the aging byte and, for a write, the dirty bit of its page, changes nothing else in any entry, and keeps the invariant |
| `PagingRun.MarkContents` | nachos/machine/translate.cc:246-256 | Setting those bits keeps the contents of every page of every space |
| `PagingCow.StoreKeeps` | nachos/machine/translate.cc:111-146 | Storing bytes into a dirty private frame changes that page by exactly those bytes and no other page of anyone |
| `PagingRun.AccessKeeps` | nachos/machine/translate.cc:166-257 | A successful translation, with or without a copy, keeps the invariant and all contents, and leaves a written page private and dirty |
| `PagingRun.ForkKeeps` | nachos/userprog/addrspace.cc:562-593 | Fork keeps the invariant and everybody's contents; each page of the child has the contents of the parent's |
| `PagingRun.ExitKeeps` | nachos/userprog/addrspace.cc:467-492 | Destroying a space, with the unsharing test on the frame of page 0 as in the code, keeps the invariant and the contents of all other spaces |
| `PagingExit.ExitUnshares` | nachos/userprog/addrspace.cc:467-492 | What exit does to any entry of another space: it clears the copy-on-write bit exactly if the entry is the one other owner's of the frame that page 0 of the exiting space names, and changes nothing else |
| `PagingExit.LastOwnerUnshared` | nachos/userprog/addrspace.cc:476-481 | The last other owner of a frame that exit gives up is unshared if and only if it is the frame that page 0 names |
| `PagingExit.BitStays` | nachos/userprog/addrspace.cc:476-481 | A run from start-up after which the parent owns frame 1 alone and its page 1 is still copy-on-write, while page 0 is not |
| `PagingTheorem.VictimExists` | nachos/userprog/addrspace.cc:840-848 | When a space finds no free frame, in any state of the invariant, there is an owned frame other than the excluded one; if the space is over its limit, one of its own |
| `PagingTheorem.FaultProgress` | nachos/userprog/exception.cc:61-78 | A fault on a backed page is served, for any mapped victim, if and only if the page-out does not run out of swap slots. Then the page is mapped, the retried read succeeds, and the retried write succeeds for any second victim if and only if the page is not shared, a frame is free, or that victim can be paged out; a second victim exists whenever one is needed |
| `PagingTheorem.ContractKeeps` | nachos/threads/thread.cc:227-239 | Paging out in the contraction loop keeps the invariant, including enough usable frames for later faults, and all contents |
| `PagingTheorem.LostByContraction` | nachos/userprog/memmgr.cc:405-408 | From a state in which every marked frame is owned, a step leads to such a state again if and only if it is not a contraction |
| `PagingTheorem.OutLost` | nachos/userprog/memmgr.cc:405-408 | After a page-out alone the frame is marked and has no owner |
| `PagingPolicy.ProbeReaches` | nachos/userprog/memmgr.cc:440-450 | The probe with stride 17 modulo 128 reaches every frame within 128 steps |
| `PagingPolicy.DumbVictim` | nachos/userprog/memmgr.cc:440-450 | If an eligible frame exists, the search ends within 128 steps with the first eligible frame on the probe |
| `PagingPolicy.FifoVictim` | nachos/userprog/addrspace.cc:860-896 | Finds the valid, not excluded page with the least load time, if there is a candidate it can take |
| `PagingPolicy.LruVictim` | nachos/userprog/addrspace.cc:907-946 | Finds the least candidate by (history, load time), lexicographically |
| `PagingPolicy.SecondChanceVictim` | nachos/userprog/addrspace.cc:989-1049 | In one pass, in spite of its fall-through cases, finds the oldest page of the lowest non-empty (use, dirty) class and clears the use bits of the candidates |
| `PagingKernel.Kernel.GetNextFreePage` | nachos/userprog/memmgr.cc:34-53 | Takes the first clear frame, if the space maps no more pages than its limit and there is one |
| `PagingKernel.Kernel.GetNextFreeSlot` | nachos/userprog/swapmgr.cc:44-62 | Takes the first clear swap slot, if there is one |
| `PagingKernel.Kernel.ReleasePage` | nachos/userprog/memmgr.cc:61-90 | Removes one owner; the last one frees the frame |
| `PagingKernel.Kernel.ReleaseSlot` | nachos/userprog/swapmgr.cc:64-92 | Removes one owner of a slot; the last one frees it |
| `PagingKernel.Kernel.AddFrameOwner` | nachos/userprog/memmgr.cc:123-185 | Copies the owners and appends one that is not one yet, at the page the frame is recorded for; -1 and no change for a frame out of range |
| `PagingKernel.Kernel.PageOutFrame` | nachos/userprog/memmgr.cc:301-409 | The loops of `pageout` compute the page-out step; it fails exactly if the page is dirty, not in swap, and no slot is free, and then changes nothing; nothing is written for a clean page |
| `PagingKernel.Kernel.ChooseVictim` | nachos/userprog/memmgr.cc:419-438 | Under each policy returns an owned frame other than the excluded one, with the choice the policy promises; above the limit, a frame of the space itself |
| `PagingKernel.Kernel.OwnVictim` | nachos/userprog/memmgr.cc:424-434 | The policies among the pages of the space: an owned frame of its own, other than the excluded one, with the choice the policy promises |
| `PagingKernel.Kernel.PageInPage` | nachos/userprog/memmgr.cc:197-291 | The page-in step, for the victim chosen, and the page is valid after it; it fails only with no free swap slot; nobody's memory changes either way; the whole is steps of a run |
| `PagingKernel.Kernel.CopyPage` | nachos/userprog/addrspace.cc:608-634 | The in-place code of `duplicatePage` computes the copying step |
| `PagingKernel.Kernel.Translate` | nachos/machine/translate.cc:166-257 | Which exception, exactly when (a bus error never, running out of swap only on a write to a shared page with no free slot), and else the physical address; nobody's memory changes |
| `PagingKernel.Kernel.WriteMem` | nachos/machine/translate.cc:111-146 | A write that succeeds changes the abstract memory by exactly its bytes in the writer's space, and is the write step of a run; any other outcome leaves everybody's memory as it was; and which outcome, when |
| `PagingKernel.Kernel.ReadMem` | nachos/machine/translate.cc:53-95 | A read returns the abstract bytes, and is the read step of a run, or the exception, exactly when; nobody's memory changes |
| `PagingSpaces.CopyFrom` | nachos/userprog/addrspace.cc:562-593 | The copying and sharing loops compute the fork step of a run; the child's memory is the parent's |
| `PagingSpaces.CopyPageTable` | nachos/userprog/addrspace.cc:259-278 | Every entry copied, with use bit and history cleared |
| `PagingSpaces.Destroy` | nachos/userprog/addrspace.cc:467-492 | The destructor's loop computes the exit step of a run; exactly this space's memory goes |
| `Aging.AgingByte` | nachos/machine/translate.cc:246-251 | Bit 7-j of the aging byte of a life is set iff there is a reference in it with exactly j refreshes and no clear behind it |
| `Aging.MaskedHistory` | nachos/threads/thread.cc:179-197 | For a window of 1, 2, 4 or 8 the masked byte is non-zero iff the page was referenced within the window |
| `AgingRuns.StepAges` | nachos/machine/translate.cc:166-257 | Every step, from a page fault to an exit, does to the aging byte of every page exactly what the events that it means for that page do: a new space and the child of a fork start afresh, a read or write is a reference, a write that copies starts afresh first, a refresh slides, nothing else counts |
| `AgingRuns.AgesOverRun` | nachos/threads/thread.cc:240-247 | In every run, the aging byte of every page is the history of the events of its life |
| `AgingRuns.CountIsReferenced` | nachos/threads/thread.cc:200-206 | In every run from start-up, the count under the mask is the number of pages of the space that were referenced in the last 1, 2, 4 or 8 windows of that run |
| `AgingRuns.LruIsLeastRecent` | nachos/userprog/addrspace.cc:907-946 | In every run from start-up, the page that LRU gives up was used less recently than any other candidate: in the last of the last eight windows in which they differ it was not referenced; or there is none, and it was loaded no later |
| `UseRuns.StepUse` | nachos/machine/translate.cc:246-246 | Every step does to the use bit of every page that is mapped behind it exactly what its event for that page says: an access sets it; a load, a new space, a fork for the child and a scan of second chance that may take the page clear it |
| `UseRuns.UseBitOverRun` | nachos/userprog/addrspace.cc:989-1049 | In every run from start-up, the use bit of a mapped page is set if and only if a read or write of it lies behind its last load, fork and clearing scan |
| `UseRuns.StepTime` | nachos/userprog/addrspace.cc:860-896 | The load time that FIFO compares is that of the fault that loaded the page, whoever caused it; 0 for a copy; the parent's in the child of a fork; no other step changes it |
| `WorkingSet.ContractOnce` | nachos/threads/thread.cc:234-238 | One pass of the contraction loop takes exactly one page of the space under FIFO, LRU and second chance, at most one otherwise; it fails only with no free swap slot, and then takes none; nobody's memory changes |
| `WorkingSet.ContractAll` | nachos/threads/thread.cc:234-238 | The contraction loop ends with the owned pages cut to the limit, or with no free swap slot; nobody's memory changes |
| `WorkingSet.RefreshWss` | nachos/threads/thread.cc:172-249 | The new limit is the number of pages referenced in the last windows of whatever run from start-up has led here: that number itself from 4 to 32, 4 below and 32 above; contraction ends at it, or with no free swap slot; memory is unchanged; every aging byte slides, unless it fails; the whole is steps of a run |
| `ProcessesRun.NeverFails` | nachos/userprog/systemcall.cc:333-419 | In every reachable state every possible next step touches only live threads, passes its assertions (the child list behind P is not empty, the child count is positive) and does not overwrite a thread that is still to be destroyed |
| `ProcessesRun.ParentAlive` | nachos/userprog/systemcall.cc:350-359 | The parent of a child no Wait has finished with is alive, has not exited and counts it |
| `ProcessesRun.SleepsForGoodReason` | nachos/userprog/systemcall.cc:380-391 | A thread asleep in Wait has children, none of which has exited |
| `ProcessesRun.ReportedOnceWithOwnValue` | nachos/userprog/systemcall.cc:387-418 | No child is returned by two Waits; every report ends the last call of Wait of its parent, and has the value that the child passed to Exit if that call came with a place for it, and none if it came without or from Exit |
| `ProcessesOrder.ReturnedInExitOrder` | nachos/threads/thread.cc:118-127 | The Waits of a process return its children in the order in which they exited; what has exited and is not returned yet is in its hands or on its list, in this order, and nothing is lost |
| `ProcessesOrder.SwitchRuns` | nachos/threads/scheduler.cc:169-233 | The thread that is switched to runs, and goes on where it was |
| `ProcessesOrder.RunningCanStep` | nachos/userprog/systemcall.cc:333-419 | In every reachable state a running thread can take a safe step of its own |
| `ProcessesRun.OneDisposal` | nachos/userprog/systemcall.cc:408-416 | A reported child has been deleted exactly once, or is still there, released to finish by itself and out of its parent's reach; nothing is deleted unreported |
| `ProcessesRun.NoLeak` | nachos/threads/scheduler.cc:219-226 | Every zombie is on its living parent's list or in its hands, or is the thread the scheduler will delete next |
| `ProcessesExit.StepKeeps` | nachos/userprog/systemcall.cc:465-514 | Every step of Fork, Wait, Exit and of switching is safe and keeps the invariant that ties child counts, child lists, semaphores, exit values and deletions together |
| `ProcessesKeep.DisposeKeeps` | nachos/userprog/systemcall.cc:404-416 | The end of Wait, which deletes a zombie or releases a child that is not one yet, is safe and keeps the invariant |
| `ProcessesExit.PostKeeps` | nachos/userprog/systemcall.cc:350-359 | Queueing on the parent and the V are safe and keep the invariant |
| `ProcessesExit.SwitchKeeps` | nachos/threads/scheduler.cc:164-234 | A switch, with the deletion behind it by a thread that has run before, is safe and keeps the invariant |
| `Semaphores.KernelSemaphore.TryP` | nachos/threads/synch.cc:60-72 | One pass of the loop in P: takes a unit if and only if there is one, else queues the caller behind the others |
| `Semaphores.KernelSemaphore.V` | nachos/threads/synch.cc:83-93 | Wakes exactly the head of the queue, if anybody sleeps, and adds one |
| `SemaphoreRuns.FirstComeFirstWoken` | nachos/threads/synch.cc:59-93 | In every run sleepers are woken in the order in which they fell asleep |
| `SemaphoreRuns.WokenInTurn` | nachos/threads/synch.cc:83-93 | In every run a sleeper with k others in front is woken by the (k + 1)-th V from then on |
| `SemaphoreRuns.AlwaysBalanced` | nachos/threads/synch.cc:59-93 | In every run the value is the initial value plus completed Vs minus completed Ps, never negative; while a thread sleeps, the value is at most the number of woken threads that have not tested it again |
| `SemaphoreRuns.NoLostWakeup` | nachos/threads/synch.cc:59-93 | With a sleeper and a positive value there is a woken thread whose test will succeed |
| `SemaphoreRuns.WokenGetsUnit` | nachos/threads/synch.cc:59-93 | In any run, from the V that wakes a thread to its next test: the test succeeds if and only if fewer units were taken in between than the V left and came since; else the thread sleeps again, behind all others |
| `SemaphoreRuns.Overtaken` | nachos/threads/synch.cc:64-68 | A run from the initial value 0 in which a woken thread loses its unit to one that came later, and sleeps again |
| `Consoles.WritesAreAtomic` | nachos/machine/console.cc:88-103 | In every interleaving the output is what the returned calls were asked to write, whole and in order, and a prefix of what at most one call in progress was asked to write |
| `Consoles.NeverBusy` | nachos/machine/console.cc:231-248 | The assertion in `PutChar` never fails |
| `Consoles.SomeoneCanStep` | nachos/machine/console.cc:88-103 | While a call is in progress some thread in a call is ready or the write interrupt is due |
| `Consoles.FinishWriteKeeps` | nachos/machine/console.cc:32-40 | The interrupt prints the pending character and wakes the writer, and keeps the invariant |
| `LinkedLists.SortedList.Append` | nachos/threads/list.cc:112-123 | The relinked list has the item at its end |
| `LinkedLists.SortedList.Remove` | nachos/threads/list.cc:133-155 | The first item is taken off, or there is none |
| `LinkedLists.SortedList.Insert` | nachos/threads/list.cc:277-298 | The item is placed before the first strictly greater one, in place |
| `LinkedLists.InsertPos` | nachos/threads/list.cc:287-294 | The place of an insert: nothing greater before it, and a greater item at it |
| `Schedulers.InsertedHas` | nachos/threads/list.cc:277-298 | An insert adds exactly the one item |
| `Schedulers.StepKeeps` | nachos/threads/scheduler.cc:63-146 | Every step keeps the invariant: the ready list holds each READY thread once, ordered by priority and then by arrival, and nobody but the current thread runs; the processor is idle only after a sleep with nobody ready |
| `Schedulers.AlwaysInv` | nachos/threads/scheduler.cc:63-146 | The invariant in every state of every run; from a start with a running thread, exactly the current thread is RUNNING, or none has been since a sleep with nobody ready |
| `Schedulers.BestIsDispatched` | nachos/threads/scheduler.cc:118-146 | The processor always goes to the READY thread with the best priority, and among those to the one that has waited longest |
| `Schedulers.BoundedWait` | nachos/threads/thread.cc:582-605 | A thread at place k of the ready list runs within k + 1 turns while no better thread yields or becomes ready |
| `Schedulers.Scheduler.ReadyToRun` | nachos/threads/scheduler.cc:64-85 | Status and linked list follow the step; the invariant is kept |
| `Schedulers.Scheduler.FindNextToRun` | nachos/threads/scheduler.cc:118-146 | Takes the head of the ready list |
| `Schedulers.Scheduler.Run` | nachos/threads/scheduler.cc:164-183 | Makes the thread current and RUNNING |
| `Schedulers.Scheduler.YieldProcessor` | nachos/threads/thread.cc:582-605 | Takes the yield step and keeps the invariant; some thread runs after it |
| `Schedulers.Scheduler.Sleep` | nachos/threads/thread.cc:653-692 | Takes the sleep step; idle exactly if nobody was ready |
| `Schedulers.Scheduler.Prioritize` | nachos/threads/thread.cc:84-90 | The current thread's new priority is old + p from 0 to 40, 0 below and 40 above; nothing else changes, and the list stays in order |
| `Schedulers.NiceIsNice` | nachos/threads/thread.cc:84-90 | A positive p never makes the thread more urgent, a negative one never less, and the priority is within 0..40 |
| `Bitmaps.BitMap.Mark` | nachos/userprog/bitmap.cc:49-53 | Sets exactly this bit of the packed words |
| `Bitmaps.BitMap.Clear` | nachos/userprog/bitmap.cc:63-67 | Clears exactly this bit |
| `Bitmaps.BitMap.Test` | nachos/userprog/bitmap.cc:77-81 | Reads this bit |
| `Bitmaps.BitMap.Find` | nachos/userprog/bitmap.cc:93-101 | Sets and returns the first clear bit, or changes nothing if there is none |
| `Bitmaps.BitMap.NumClear` | nachos/userprog/bitmap.cc:110-117 | Counts the clear bits |
| `FreeBits.ClearCountFound` | nachos/userprog/bitmap.cc:93-117 | There is a bit to find iff the count is positive |
| `OpenFiles.OpenFile.ReadAt` | nachos/filesys/openfile.cc:114-141 | The sector loop returns exactly the clipped bytes of the file |
| `OpenFiles.OpenFile.WriteAt` | nachos/filesys/openfile.cc:144-183 | The read-modify-write of whole sectors splices exactly the clipped bytes into the file, and changes no sector of any other file |
| `OpenFiles.OpenFile.Read` | nachos/filesys/openfile.cc:72-77 | Reads at the seek position and advances it by what was read |
| `OpenFiles.OpenFile.Write` | nachos/filesys/openfile.cc:80-85 | Writes at the seek position and advances it by what was written |
| `OpenFiles.OpenFile.WriteThenRead` | nachos/filesys/openfile.cc:114-183 | A read after a write returns what was written |
| `OpenFiles.WroteElsewhere` | nachos/filesys/openfile.cc:144-183 | A write leaves the bytes of every file with other sectors alone |
| `FsFormat.HeaderRoundTrip` | nachos/filesys/filehdr.cc:80-96 | A header read back from its sector is the one written |
| `FsFormat.DirRoundTrip` | nachos/filesys/directory.cc:66-82 | A directory read back from its file is the one written |
| `FsFormat.BitsRoundTrip` | nachos/userprog/bitmap.cc:149-165 | A bitmap read back from its file is the one written |
| `FsFormat.StrnIsKey` | nachos/filesys/directory.cc:93-99 | The comparison of a stored name with a given one is equality on the first nine characters, padded |
| `OpenFiles.LeastSectors` | nachos/filesys/filehdr.cc:47-47 | The number of sectors allocated is the least that holds the bytes, so none for an empty file |
| `FileSystems.Allocate` | nachos/filesys/filehdr.cc:44-54 | Fails iff no number of free sectors is enough for the size, and then takes none; else takes distinct free sectors, the least number that is enough |
| `FileSystems.Deallocate` | nachos/filesys/filehdr.cc:64-70 | Clears exactly the data sectors |
| `FileSystems.FetchMap` | nachos/userprog/bitmap.cc:149-152 | The bitmap becomes the contents of its file |
| `FileSystems.WriteMap` | nachos/userprog/bitmap.cc:162-165 | The file becomes the bitmap |
| `FileSystems.Directory.FindIndex` | nachos/filesys/directory.cc:93-99 | A place in use with this name, found iff there is one |
| `FileSystems.Directory.Find` | nachos/filesys/directory.cc:111-118 | The header sector of the file with this name, or -1 |
| `FileSystems.Directory.Add` | nachos/filesys/directory.cc:132-145 | Fills the first free entry iff the name is new and there is one; else changes nothing |
| `FileSystems.Directory.Remove` | nachos/filesys/directory.cc:156-164 | Marks the entry of this name unused, iff there is one |
| `FileSystems.FileSystem.Format` | nachos/filesys/filesys.cc:80-143 | A consistent, empty file system, whatever was on the disk |
| `FileSystems.FileSystem.Create` | nachos/filesys/filesys.cc:175-215 | Succeeds iff the name is new, the directory has room and, for some n whose n sectors of 128 bytes hold the size, n + 1 sectors are free; a failure leaves the disk as it was; a success adds one file of the size asked for and changes no other; consistency is kept |
| `FileSystems.FileSystem.Open` | nachos/filesys/filesys.cc:228-241 | A handle on the file of this name, with its bytes, iff there is one |
| `FileSystems.FileSystem.Remove` | nachos/filesys/filesys.cc:258-288 | Succeeds iff the name is there; takes away exactly that file; consistency is kept |
| `FileSystems.FileSystem.WriteFile` | nachos/filesys/openfile.cc:144-183 | A write through a handle is the write request of that name: it splices exactly the clipped bytes into that file in the map of all files, keeps the disk consistent and the handle good |
| `FileSystems.FormatKeeps` | nachos/filesys/filesys.cc:80-143 | What format writes is a consistent disk without files |
| `FsState.CreateKeeps` | nachos/filesys/filesys.cc:175-215 | What create writes keeps the bitmap equal to the disjoint union of all sectors in use and names unique, and adds just the new file |
| `FsState.RemoveKeeps` | nachos/filesys/filesys.cc:258-288 | What remove writes keeps the same, and takes away just that file |
| `FsState.WriteKeeps` | nachos/filesys/openfile.cc:144-183 | What a write to a file writes keeps the same, and changes just that file |
| `FileSystems.CreateThenRemoveNamed` | nachos/filesys/filesys.cc:175-288 | Create and then remove by the same name restores the bitmap and the files |
| `FileSystems.AlwaysConsistent` | nachos/filesys/filesys.cc:80-288 | At every point of every history of creates, removes and writes the disk is consistent and the map from names to bytes has changed exactly as asked: one file added if and only if there was room, just the one named removed, just the clipped bytes of the file named written |
| `FileSystems.HandleStays` | nachos/filesys/filesys.cc:228-288 | A handle stays good through every request but the remove of its file |
| `FsCapacity.RoomIsFits` | nachos/filesys/filesys.cc:175-215 | A create succeeds if and only if the name is new, there are fewer files than directory entries, and the sectors that the metadata and the files that are there leave are enough: it depends on nothing else about the disk |
| `FsCapacity.HistoryRefines` | nachos/filesys/filesys.cc:80-288 | Every history does to the map from names to bytes what the same requests do to a table in memory of that capacity |
| `Multiply.Mult` | nachos/machine/mipssim.cc:705-762 | hi:lo is the exact 64-bit product, signed or unsigned, of all 32-bit words, the least integer included |
| `Multiply.MultiplyLoop` | nachos/machine/mipssim.cc:729-748 | The loop with its early exit and the arithmetic shift of a negative word gives the unsigned product |
| `Multiply.Negate` | nachos/machine/mipssim.cc:752-758 | Two's complement of the double word |
| `Crc.GdbStub.Crc32` | nachos/debug/nachos-stub.cc:192-214 | The table-driven loop computes the bit-by-bit checksum, for every byte string and seed, and fills the table once |
| `Crc.ByteStep` | nachos/debug/nachos-stub.cc:208-212 | Eight bits taken in one by one are one look in the table |
| `Crc.CrcComposes` | nachos/debug/nachos-stub.cc:192-214 | The checksum of a concatenation is that of the second part from that of the first |
| `Crc.CrcIsRemainder` | nachos/debug/nachos-stub.cc:192-214 | The checksum is the remainder by x^32 + 0x04c11db7 of the message with 32 zeros behind it and the 32 bits that the seed stands for in front of it; none for the seed 0 |
| `Disks.Disk.TimeToSeek` | nachos/machine/disk.cc:184-199 | 500 ticks for each track between, either way, and the ticks to the next sector boundary behind the seek |
| `Disks.SeekAdds` | nachos/machine/disk.cc:188-188 | Seek times add up along a way in one direction, are the same both ways, and are 500 ticks from a track to the next |
| `Disks.Disk.ComputeLatency` | nachos/machine/disk.cc:237-259 | The buffer is used iff a read of the current track asks for a sector that has passed completely, since the buffer began to fill, by the next boundary; otherwise the request ends one sector time after the first moment behind the seek at which the sector begins; the buffer never costs more |
| `Disks.Disk.UpdateLast` | nachos/machine/disk.cc:267-277 | The buffer starts over with a seek |
| `Disks.Disk.Request` | nachos/machine/disk.cc:120-158 | The buffer start stays a sector boundary that lies before the next request |
| `Disks.Disk.HandleInterrupt` | nachos/machine/disk.cc:166-171 | The end of the request, which keeps that |
| `Disks.CountedIsFirst` | nachos/machine/disk.cc:207-214 | Counting sectors gives the first boundary at which the sector begins |
| `Disks.EarlyHit` | nachos/machine/disk.cc:244-252 | A new disk serves a read of sector 0 at time 10 from the buffer, though the sector has not passed by then |
| `Disks.PassesIs` | nachos/machine/disk.cc:244-252 | A sector has passed since a boundary if and only if more whole sector times have gone by than sectors lie before it |
| `Disks.HitExactly` | nachos/machine/disk.cc:244-252 | The buffer serves a sector that has not passed by the time of the request if and only if it is a read of the current track, off a boundary, and the whole sector times since the buffer began are just the sectors before it |
| `Breakpoints.FindAddrSplits` | nachos/machine/breakpoint.cc:20-45 | On an ordered index the search finds the first range with the address, or the first beyond it |
| `Breakpoints.AddedSorted` | nachos/machine/breakpoint.cc:49-76 | Adding keeps the index in order iff the range is not empty and equal to or disjoint from each range there |
| `Breakpoints.RemovedRight` | nachos/machine/breakpoint.cc:80-97 | Removing keeps the order and all other breakpoints; the breakpoint is gone iff no two copies of it stood side by side |
| `Breakpoints.TwinSurvives` | nachos/machine/breakpoint.cc:80-97 | Adding twice and removing once leaves one |
| `Breakpoints.AlwaysSorted` | nachos/machine/breakpoint.cc:20-97 | After any proper sequence of adds and removes the index is in order and holds each present breakpoint exactly once |
| `Breakpoints.BreakpointSet.FindIndex` | nachos/machine/breakpoint.cc:20-45 | The bisection and the walk back on the array give the place that the search is proved about |
| `Breakpoints.BreakpointSet.AddBreakpoint` | nachos/machine/breakpoint.cc:49-76 | The array, grown by 32 if it was full and shifted in place, holds the old contents with the breakpoint at the place the search gives |
| `Breakpoints.BreakpointSet.RemoveBreakpoint` | nachos/machine/breakpoint.cc:80-97 | The loop, which shifts entries in place, leaves the contents that the removal is proved about; the array stays the same |
| `Breakpoints.WhatStops` | nachos/machine/breakpoint.cc:108-153 | A fetch is stopped by the two kinds of breakpoints, a store by watchpoints for writes and for all accesses, a load by those for reads and for all accesses |
| `Breakpoints.BreakpointSet.QueryBreakpoint` | nachos/machine/breakpoint.cc:102-156 | On an ordered index: true iff a breakpoint that stops this kind of access meets it, with the first address at which one does |
| `Packets.PacketRoundTrip` | nachos/debug/nachos-stub.cc:310-391 | Behind noise without '$', a plain packet that fits is received as sent and acknowledged |
| `Packets.TooLong` | nachos/debug/nachos-stub.cc:327-337 | A packet of the size of the buffer or longer is given up without a reply, and its end is taken for noise |
| `Packets.ErrorOutcome` | nachos/debug/nachos-stub.cc:339-391 | What the receiver makes of a frame with one character of the body changed into anything: the shorter packet for which it passes, or a refusal |
| `Packets.ChecksumAdds` | nachos/debug/nachos-stub.cc:375-383 | The checksum of one character is the character, and of a concatenation the sum modulo 256 |
| `Packets.ParityIgnored` | nachos/debug/nachos-stub.cc:319-343 | The eighth bit of the characters received does not matter |
| `Packets.FrameOfOk` | nachos/debug/nachos-stub.cc:364-389 | The frame of OK is $OK#9a |
| `Packets.ErrorIsRepaired` | nachos/debug/nachos-stub.cc:339-391 | A packet with one character of the body changed is refused and received when sent again, if and only if the change does not make a # in front of two characters that spell the checksum so far, or a $ behind which the characters add up to the checksum |
| `Packets.ErrorIsTaken` | nachos/debug/nachos-stub.cc:339-391 | A changed packet that is received as an empty one |
| `Packets.GetPacket` | nachos/debug/nachos-stub.cc:310-358 | The nested loops compute the receiver, its replies and where it stops |
| `Packets.SendFrame` | nachos/debug/nachos-stub.cc:363-389 | The loop sends the frame of any string, with its checksum |
| `Packets.MemToHex` | nachos/debug/nachos-stub.cc:397-410 | The loop writes two lower-case digits for each byte, the high one first |
| `Packets.HexToMem` | nachos/debug/nachos-stub.cc:416-429 | The loop makes a byte of each two digits |
| `Packets.HexRoundTrip` | nachos/debug/nachos-stub.cc:397-429 | Reading back what was written gives the same bytes |
| `Packets.HexRoundTripBack` | nachos/debug/nachos-stub.cc:397-429 | Writing back a pair gives it in lower case iff both are digits |

## Left out

Paging

- The TLB branch of `Translate`, exec (`ModifySpace`), loading of executables (`Setup_Load`, `ReadHeaders`): new spaces appear with fresh entries instead.
- A page that is backed by an executable is backed by a whole page of it. Short reads at the end of a file, which leave the tail of the frame as it was, are not modelled.
- Main memory, the swap file and the executables are read and written page by page, and never fail. Running out of swap slots, an assertion in the code, is a failure result.
- The read-only bit is carried along and not tested, as on the linear page table path. Words are sequences of bytes; byte order is not modelled.
- PagingKernel.Kernel.AddFrameOwner: its assertions are preconditions, running out of memory is not modelled, and neither is a frame number equal to the number of frames, which the range check of the code lets through.
- Frames that contraction has lost are never found again, in the code and in the model; the invariant keeps at least four usable ones.

Processes, semaphores, console, scheduler

- `Lock`, `Condition`, `SynchList`, `SynchDisk`: their waiting is not modelled; a sector is read or written in one step.
- ProcessesRun.ReportedOnceWithOwnValue: does not say that the exit value arrives in user memory, since the write to it may fail twice and is then given up.
- Finish for an unexpected exception, halting when one zombie is left, kernel threads that are not processes.
- Consoles.SomeoneCanStep: says that some step is possible, not that every call returns; a semaphore lets late threads overtake.
- The clock of the simulated machine: interrupts and time slices come at any time.
- `List::Remove` of a given item, `Mapcar`, forced yields from a debugger.
- Schedulers.Scheduler.Prioritize: priorities are unbounded before they are clamped; the overflow of a huge increment is not modelled.

File system

- FileSystems.Allocate: sizes are from 0 to the largest size of a file; beyond it the code would write behind the end of the header's table, which has no room for more sectors, and a negative size has no meaning.
- FileSystems.FileSystem.Create: the same sizes, for the same reason.
- FileSystems.FileSystem.Open: a handle is good until its file is removed, as `HandleStays` says; what it does after that is not modelled.
- Padding bytes of a directory entry and unused slots of a header are written as zeros, where the code writes what the memory held.
- Mounting an existing disk, `List`, `Print`; failures of the disk.

Algorithms

- The rest of the instruction set, the remote commands of the debugger stub, sockets.
- Packets.SendFrame: one try of `PutPacket`; the wait for the reply is the caller's, and `ErrorIsRepaired` joins the two sides.
- Packets.GetPacket: works on the characters that have come, and gives no packet where the code would wait for more; the zero byte that it writes behind the data is not modelled.
- Breakpoints.BreakpointSet.QueryBreakpoint: requires an ordered index and an access of at least one byte, as all callers make; `AddedSorted` and `RemovedRight` say when the index is in order.
- Disks.Disk.Request: the data transfer itself is in the file system model; time does not overflow.
