# A verified model of the kernel's memory, files, threads and machine

This project models the hard core of a Nachos-derived teaching kernel in the
configuration its file-system build uses (TLB, demand loading, swap, LRU
replacement, priority scheduling, chained file headers), and proves what that
code is for:

* **Virtual memory.** TLB, page tables, core map, frames, swap files and
  executables together give every process a private flat memory. `Paging` and
  `ProcessMemory` state the operations as functions on the whole
  virtual-memory state, `Machines` is the same in place (arrays, a bitmap
  object, a process table) with every method proved equal to its function,
  `Lru` is about the choice of victims, `Executables` about demand loading.
* **Arguments.** `Arguments` is the `argv` writer and reader on top of the
  paged memory, with the loops that retry a faulted access.
* **Files.** `Headers` is the one-sector header and the sectors it lists,
  `Chains` what a chain of headers stands for, `Growth` what an allocation or a
  new header does to it, `OpenFiles` the code of `OpenFile` and `FileHeader`,
  `FileSystems` all files together.
* **Threads.** `Semaphores`, `Locks`, `SynchDisks` and `Schedulers` are step
  systems: theorems are about every interleaving. `Processors` is the scheduler
  in memory, over the linked list of `Lists`.
* **Machine.** `Interrupts` is the clock and the queue of pending interrupts,
  `DiskTiming` the disk's latency, `Multiply` the R2000 multiplication.

`PAGE_SIZE`, `TLB_SIZE`, `NUM_PHYS_PAGES`, `NUM_DIRECT` (and with it
`SECTOR_SIZE`) and the number of sectors are symbolic; every theorem holds for all
their values, except that accesses to user memory, and so `ProcessMemory`'s runs and
`Arguments`, need pages that hold whole words (`PAGE_SIZE % 4 == 0`). `k * n`, `a / n` and `a % n` on symbolic sizes are written `Base`,
`Index` and `Offset` (module `Blocks`).

The main theorems:

* `ProcessMemory.RunsAreTransparent`: in every run of loads, stores, faults, context
  switches, creations and exits, every load returns what the process's own flat
  memory holds; `FrameOwnership` and `SlotsNeverAlias` are the ownership laws of
  frames and TLB slots over all runs, `Lru.EvictsLeastRecent` the law of replacement.
* `Executables.DemandEqualsEager`: the demand-loaded pages are the eager image if and
  only if the executable has a clean tail. `LoadPage` reads a whole page past the
  end of the code, so a nonzero byte behind the segments of a proper NOFF file shows up in
  memory (`TrailingByteLeaksIn`); a file that ends with its segments is fine. `LoadableIff`
  says for which headers the loader's own assertions hold on every page.
* `OpenFiles.OpenFile.Write` and `FileSystems.FileSystem.Write`: on every exit the result
  `k` is exactly what happened — the first `k` bytes were spliced in at the cursor, the
  cursor moved by `k`, no other file changed, every header but the last is full, the
  chain is 0-terminated — and `k` is the whole length if and only if the free
  sectors cover what the longer file needs more than the shorter one. `WriteThenRead` is the
  round trip.
* `Semaphores.SemaphoreIsSafe`, `Locks.MutualExclusion`, `SynchDisks.SynchDiskIsSafe`,
  `Schedulers.OnePlace`, `Schedulers.NextIsFirst`: safety over all interleavings.
* `Interrupts`: no handler is called early, due times and clock never go back over
  the whole history, the tick counts add up, and `OneTick` leaves nothing overdue.
  Two things the code does differently from what one might expect are stated as they are, with
  the exact condition and an instance: an idle machine can leave one lone due timer
  interrupt behind (`Drain`, `Idle`, `LeftTimer`), and a look at the queue can reorder entries
  due at the same time (`PutBackReorders`, `Reordered`).
* `DiskTiming.Disk.ComputeLatency`: the transfer starts at the first moment after the seek at
  which the sector is under the head, or comes from the track buffer exactly when the
  sector has passed by the next sector boundary. "Has passed by now" is not true of the
  code: `PastByNow` says exactly when, `StillPassing` runs into it with a new disk.
* `Multiply.Mult`: `hi:lo` is the 64-bit product for all operands, signed and unsigned.
* `Arguments.RoundTrip`: what `SaveArgs` reads back is the list `WriteArgs` wrote.

## Model

| member | source | states |
|---|---|---|
| `ProcessMemory.RunsAreTransparent` | userprog/exception.cc:556-619 | over every run the outcomes of all accesses are those of the ideal machine in which each process has its own flat memory; faults, evictions, TLB replacement and swap are invisible |
| `ProcessMemory.StepIsIdeal` | machine/mmu.cc:96-295 | each step faults and changes no process's memory, or does to all memories exactly what the ideal step does |
| `ProcessMemory.ReadIsFlat` | machine/mmu.cc:96-132 | a load returns the decoded bytes of the current process's flat memory or faults; no memory changes; misaligned exactly when fatal |
| `ProcessMemory.WriteIsFlat` | machine/mmu.cc:143-175 | a store splices the encoded value into the current process's memory and no other, or faults and changes none |
| `ProcessMemory.RetrySucceeds` | userprog/exception.cc:556-619 | after one handled fault the retried load or store goes through |
| `ProcessMemory.EncodeDecodeWord` | machine/mmu.cc:96-175 | a 32-bit value stored little-endian is read back as it was |
| `ProcessMemory.DecodeIs` | machine/mmu.cc:108-128 | what a load of one, two and four bytes delivers, as arithmetic on the bytes: a signed byte, an unsigned half, a signed word |
| `ProcessMemory.EncodeIs` | machine/mmu.cc:155-172 | what a store of each size writes, byte by byte |
| `ProcessMemory.EncodeDecodeHalf` | machine/mmu.cc:96-175 | a half that was stored is read back as it was |
| `ProcessMemory.EncodeDecodeByte` | machine/mmu.cc:96-175 | a byte that was stored is read back with its sign |
| `ProcessMemory.MisalignedIff` | machine/mmu.cc:252-257 | an access is misaligned exactly when its size does not divide its address |
| `ProcessMemory.Switch` | threads/scheduler.cc:85-136 | a context switch with the deletion of a finished process removes that process's memory and leaves all others, whatever was dirty in the TLB |
| `ProcessMemory.CreateIsFlat` | userprog/address_space.cc:20-146 | a new process, whatever its header says, has its initial memory, the others theirs, and the invariant is kept |
| `ProcessMemory.InitialIsImage` | userprog/address_space.cc:103-146 | for the layout text then data with a clean tail, the initial memory is the executable's image at every address |
| `ProcessMemory.DestroyIsFlat` | userprog/address_space.cc:301-317 | deleting an address space removes that memory only |
| `ProcessMemory.DestroyFrees` | userprog/address_space.cc:301-317 | the frames in which its pages were are clear and zero; every other frame is as it was |
| `ProcessMemory.BootIsOk` | userprog/address_space.cc:20-146 | the state at start satisfies the invariant and holds no memories |
| `ProcessMemory.FrameOwnership` | userprog/address_space.cc:226-259 | after every run a frame is marked if and only if some page is resident in it; that page is unique and is the one in the core map |
| `ProcessMemory.SlotsNeverAlias` | machine/mmu.cc:177-228 | after every run two valid TLB slots differ in page and in frame |
| `Paging.Flush` | userprog/address_space.cc:356-369 | writing TLB slots back keeps the invariant and every page's content |
| `Paging.EvacuatePage` | userprog/address_space.cc:226-259 | with all frames marked, evacuation frees the victim's frame; no page's content changes although it moves to swap or back to the executable |
| `Paging.SwappedOut` | userprog/address_space.cc:226-259 | the entry of the page that was in the frame says out of memory and invalid, with its dirty bit kept; no other entry changes |
| `Paging.ObtainFrame` | userprog/exception.cc:576-593 | finding a frame, by a clear bit or an eviction, keeps the invariant up to that frame and every page's content |
| `Paging.LoadKeeps` | userprog/address_space.cc:153-223 | loading a page from swap if dirty and from the executable otherwise restores its content |
| `Paging.Install` | userprog/exception.cc:604-616 | replacing a TLB slot saves its bits first and changes no content; the page is then mapped |
| `Paging.HandleFault` | userprog/exception.cc:556-619 | the handler keeps the invariant and all contents and leaves the page mapped |
| `Paging.FaultRotates` | userprog/exception.cc:604-616 | the page goes to the slot that the process's number of faults points at, going round, and the number goes up by one |
| `Paging.Translate` | machine/mmu.cc:242-295 | translation succeeds exactly for an aligned address whose page is in the TLB, and then marks the slot dirty on a write; no content changes |
| `Paging.TranslateBits` | machine/mmu.cc:264-294 | success marks that slot used, and dirty for a write only, and touches no other slot; failure touches none |
| `Paging.Scan` | userprog/address_space.cc:261-288 | the scan returns a frame whose counter is least |
| `Machines.Machine.LoadPage` | userprog/address_space.cc:153-223 | in place: the frame holds the swap block or the loaded page, the core map names the page, nothing else changed |
| `Machines.Machine.PickVictim` | userprog/address_space.cc:261-288 | in place, equal to the function that `Lru` is about |
| `Machines.Machine.EvacuatePage` | userprog/address_space.cc:226-259 | in place, equal to `Paging.EvacuatePage` |
| `Machines.Machine.SaveState` | userprog/address_space.cc:356-369 | in place, equal to flushing all slots |
| `Machines.Machine.RestoreState` | userprog/address_space.cc:375-390 | in place: every slot invalid |
| `Machines.Machine.TLBPageFaultHandler` | userprog/exception.cc:556-619 | in place, equal to `Paging.HandleFault` |
| `Machines.Machine.RetrievePageEntry` | machine/mmu.cc:177-228 | the slot scan finds the entry of the page or none, and counts the search |
| `Machines.Machine.Translate` | machine/mmu.cc:242-295 | in place, equal to `Paging.Translate` |
| `Machines.Machine.ReadMem` | machine/mmu.cc:96-132 | in place, equal to `ProcessMemory.ReadMem` |
| `Machines.Machine.WriteMem` | machine/mmu.cc:143-175 | in place, equal to `ProcessMemory.WriteMem` |
| `Machines.Machine.CreateSpace` | userprog/address_space.cc:20-101 | in place, equal to `ProcessMemory.CreateSpace` |
| `Machines.Machine.DestroySpace` | userprog/address_space.cc:301-317 | in place: exactly the frames of the resident pages are cleared |
| `Machines.Machine.Run` | threads/scheduler.cc:85-136 | in place, equal to `ProcessMemory.Switch` |
| `Lru.VictimIsLeastRecent` | userprog/address_space.cc:261-288 | while the counter has not wrapped, no frame's latest use in the history is earlier than the victim's |
| `Lru.RunKeeps` | machine/mmu.cc:200-217 | over every run the counters order the frames as the kernel's record of uses does |
| `Lru.RunRecord` | machine/mmu.cc:200-217 | the kernel's record is exactly the run's: for each step the frame of the page, if the access went through or loaded the page; and the counter counts searches and loads |
| `Lru.WrapRestarts` | userprog/address_space.cc:261-288 | when the counter is at its end all counters start afresh and frame 0 is taken |
| `Lru.EvictsLeastRecent` | userprog/exception.cc:595-598 | in every run, an access that faults on a page that is out of memory with no clear frame: the frame in which the page is left was used in that run, by accesses that went through and by loads as the run itself shows them, no later than any other |
| `Executables.DemandEqualsEager` | userprog/address_space.cc:153-207 | for text then data: all demand-loaded pages equal the image if and only if the bytes of the file that follow the segments, up to the end of the last code page, are zero |
| `Executables.NothingAfterIsClean` | bin/coff2noff.c:127-168 | a file that ends with its segments satisfies that condition |
| `Executables.TrailingByteLeaksIn` | userprog/address_space.cc:56-190 | an instance with a proper NOFF header that the loader accepts: the byte after the code is in the loaded page and not in the image |
| `Executables.LoadableIff` | userprog/address_space.cc:180-207 | the assertions of `ReadCodeBlock` and `ReadDataBlock` hold for every page of the process if and only if no page boundary lies between the count of code and data bytes and the end of the data |
| `Executables.TextThenDataLoadable` | bin/coff2noff.c:127-168 | that is so whenever the data does not start behind the code |
| `Executables.CopySegment` | userprog/address_space.cc:103-146 | copying a segment byte by byte through the page table changes exactly its addresses |
| `Executables.EagerLoad` | userprog/address_space.cc:103-146 | the eager constructor leaves the image byte at every virtual address |
| `Executables.MemoryIsJustEnough` | userprog/address_space.cc:68-72 | the pages of a process hold code, data, uninitialised data and 2048 bytes of stack, and one page less would not |
| `Bitmaps.Bitmap.Mark` | lib/bitmap.cc:40-45 | sets that bit and no other |
| `Bitmaps.Bitmap.Clear` | lib/bitmap.cc:50-55 | clears that bit and no other |
| `Bitmaps.Bitmap.Test` | lib/bitmap.cc:60-65 | returns that bit |
| `Bitmaps.Bitmap.Find` | lib/bitmap.cc:71-81 | marks and returns the first clear bit, or returns -1 and changes nothing |
| `Bitmaps.Bitmap.CountClearBits` | lib/bitmap.cc:85-96 | counts the clear bits |
| `Bitmaps.Bitmap.FetchFrom` | lib/bitmap.cc:119-124 | the bits become those of the file's words |
| `Bitmaps.Bitmap.WriteBack` | lib/bitmap.cc:131-136 | the file's words stand for the same bits |
| `Bitmaps.SetThenTest` | lib/bitmap.cc:40-65 | on a word, or-ing a mask sets its bit and keeps all others |
| `Bitmaps.ResetThenTest` | lib/bitmap.cc:50-65 | on a word, and-ing with the complement clears its bit and keeps all others |
| `Bitmaps.TakeOne` | lib/bitmap.cc:71-81 | as long as the count is positive, one more `Find` takes a bit that was clear and was not taken before |
| `Blocks.IndexIsQuotient` | lib/utility.hh:31-43 | the block index and offset used throughout are the source's quotient and remainder |
| `Blocks.RoundUpCovers` | lib/utility.hh:38-43 | `DivRoundUp` is the least number of blocks that covers the bytes |
| `Arguments.Peek` | userprog/transfer.cc:39-60 | a load in a retry loop returns the process's own bytes and changes no memory |
| `Arguments.Poke` | userprog/transfer.cc:86-103 | a store in a retry loop changes exactly its bytes |
| `Arguments.ReadStringFromUser` | userprog/transfer.cc:39-60 | reads the characters up to and with the terminator, or as many as the limit, and says which |
| `Arguments.WriteStringToUser` | userprog/transfer.cc:86-103 | the string with its terminator is spliced in, nothing else changes |
| `Arguments.CountArgsToSave` | userprog/args.cc:20-40 | counts the nonzero words before the first zero; fails exactly from 32 on |
| `Arguments.SaveArgs` | userprog/args.cc:42-69 | returns for each pointer the string it points to, cut at 128 bytes, or fails exactly when there are 32 or more |
| `Arguments.PushStrings` | userprog/args.cc:71-92 | the strings are on the stack one below the other, and memory outside is untouched |
| `Arguments.PushPointers` | userprog/args.cc:101-105 | the array of their addresses with its null is in place, and memory outside is untouched |
| `Arguments.WriteArgs` | userprog/args.cc:71-109 | the new stack top is 4-aligned, holds a proper `argv`, and the array ends below the strings |
| `Arguments.StackIsTight` | userprog/args.cc:84-97 | the strings lie back to back below the old stack top and `argv` less than a word further down than it has to be |
| `Arguments.RoundTrip` | userprog/args.cc:20-109 | for up to 31 NUL-free strings shorter than 128 that fit, reading back gives the list written, and no other process's memory changes |
| `Headers.UnpackPack` | filesys/raw_file_header.hh:35-42 | a header stored as a sector's bytes is read back as it was |
| `Headers.PackLayout` | filesys/raw_file_header.hh:35-42 | the layout of a header in its sector, word by word |
| `Headers.WriteOne` | filesys/file_header.cc:117-121 | writing one listed sector splices it into the header's bytes at its place |
| `OpenFiles.FileHeader.ByteToSector` | filesys/file_header.cc:117-121 | the sector returned is where the byte is stored: the byte is found in it at the offset within the sector, and writing that sector replaces exactly the block of the header's bytes around it |
| `OpenFiles.FileHeader.Allocate` | filesys/file_header.cc:39-77 | fails exactly when too few sectors are free, leaving the map as it was; otherwise the new entries are distinct sectors that were free, now marked, and the old entries stay |
| `OpenFiles.FileHeader.Deallocate` | filesys/file_header.cc:82-91 | clears exactly the listed sectors; each is marked when its turn comes, so the assertion holds |
| `OpenFiles.FileHeader.FetchFrom` | filesys/file_header.cc:96-100 | the header in memory is the one on disk |
| `OpenFiles.FileHeader.WriteBack` | filesys/file_header.cc:105-109 | the sector holds the header, no other sector changes |
| `OpenFiles.OpenFile.ReadAt` | filesys/open_file.cc:467-508 | returns the slice of the header's bytes, clipped at the length |
| `OpenFiles.OpenFile.WriteAt` | filesys/open_file.cc:510-564 | the header's bytes become the old ones with the data spliced in, clipped at the length, for every alignment; no sector outside the header's data changes |
| `OpenFiles.WriteBuffer` | filesys/open_file.cc:540-561 | writing whole sectors with kept edges is writing just the bytes meant |
| `OpenFiles.OpenFile.WriteHere` | filesys/open_file.cc:200-249 | first phase: what fits in the current header goes in at the cursor; on failure nothing changed and the whole write cannot fit |
| `OpenFiles.OpenFile.WriteExisting` | filesys/open_file.cc:255-295 | second phase: the existing later headers; on failure the cursor stays at the end of the last header written |
| `OpenFiles.OpenFile.Reserve` | filesys/open_file.cc:312-316 | as many distinct sectors as asked for, all free before and marked on disk now |
| `OpenFiles.OpenFile.AppendHeader` | filesys/open_file.cc:324-367 | a new header behind the last one adds exactly its bytes to the file; it fails exactly when its data sectors are not free, and then changes nothing |
| `OpenFiles.OpenFile.StepNew` | filesys/open_file.cc:375-416 | one round of the loop over new headers, with the partial allocation when sectors run short |
| `OpenFiles.OpenFile.WriteNew` | filesys/open_file.cc:298-433 | third phase, with all its out-of-space exits: the bytes written extend the file at its end; it comes short if and only if the free sectors are fewer than data sectors plus headers needed |
| `OpenFiles.OpenFile.Write` | filesys/open_file.cc:170-440 | for every exit: content and cursor after `k` bytes, chain still proper, nothing else touched; `k` is all if and only if enough sectors are free, and then exactly the sectors that the longer file needs more were taken |
| `OpenFiles.OpenFile.Read` | filesys/open_file.cc:118-168 | reads the file's bytes from the cursor on across headers, fewer than asked for only at the end; the cursor moves by as many |
| `OpenFiles.OpenFile.ReadAll` | filesys/open_file.cc:118-168 | any sequence of read sizes gives consecutive pieces of the contents, none short but at the end |
| `Growth.HeadersNeeded` | filesys/open_file.cc:302-303 | the number of new headers computed is the least number that holds the bytes |
| `Growth.SectorsOfShape` | filesys/file_header.cc:50-60 | the sectors of a file in closed form: data sectors and headers of its length |
| `Growth.SectorsUsed` | filesys/file_header.cc:39-77 | the sectors that a proper chain really has, headers and data, are those that its length calls for |
| `Growth.BudgetAppend` | filesys/open_file.cc:298-433 | a write through new headers that goes through takes just their sectors and its data's |
| `Growth.ShortIff` | filesys/open_file.cc:302-310 | what a write behind a full last header needs |
| `Growth.StoredContent` | filesys/open_file.cc:211-249 | storing at an offset of a header is writing at the position it stands for |
| `Growth.ExtendedContent` | filesys/open_file.cc:340-367 | an added header appends its bytes to the contents |
| `Chains.FlattenWrite` | filesys/open_file.cc:211-295 | a write within one part is a write in the flat contents at the header's base plus the offset |
| `Chains.ChainFrame` | filesys/open_file.cc:118-168 | a chain whose sectors are left alone and marked is the same file as before |
| `Chains.Update` | filesys/open_file.cc:211-249 | changing one header within its own and free sectors keeps the chain proper and changes that part only |
| `Chains.Extend` | filesys/open_file.cc:340-367 | linking a header behind the last full one keeps the chain proper and adds one part |
| `FileSystems.FileSystem.Create` | filesys/file_system.cc:249-271 | a new empty file in a sector that was free, exactly that sector marked, all other contents unchanged; fails exactly when no sector is free |
| `FileSystems.FileSystem.Format` | filesys/file_system.cc:75-85 | a new disk with the sectors of the two reserved headers taken meets the invariant, with no files |
| `FileSystems.FileSystem.Write` | filesys/open_file.cc:170-440 | the file's contents become the spliced ones, all other files' stay, all sectors stay disjoint and marked |
| `FileSystems.FileSystem.WriteThenRead` | filesys/open_file.cc:118-440 | a new file written through one handle and read through another gives back the bytes that went in; all went in if and only if the sectors for that length were free |
| `FileSystems.FileSystem.Remove` | filesys/file_system.cc:687-719 | exactly the sectors of the removed chain become free, all other contents stay |
| `FileSystems.FileSystem.FreeChain` | filesys/file_system.cc:706-714 | the walk along the chain ends and clears the cell of every header |
| `FileSystems.OneChanged` | filesys/open_file.cc:298-433 | a change within one file's sectors and free ones keeps all files proper, disjoint and marked |
| `FileSystems.CursorsSurvive` | filesys/open_file.cc:191-193 | a write through one handle leaves the cursor of every other handle within its header, on the same file too |
| `Semaphores.SemaphoreIsSafe` | threads/semaphore.cc:62-96 | in every run the value is initial plus Vs less completed Ps and not negative, and with a thread queued at least `value` others are woken and have not checked again |
| `Semaphores.RunKeeps` | threads/semaphore.cc:62-96 | every interleaving of attempts and Vs keeps the invariant, barging included |
| `Semaphores.TryKeeps` | threads/semaphore.cc:62-75 | one pass through the loop gets in or queues the thread, and keeps the invariant |
| `Semaphores.VKeeps` | threads/semaphore.cc:82-96 | a V adds one and keeps the invariant; the head of the queue, which was not woken before, goes to the woken threads, and nothing else moves |
| `Semaphores.WakesInOrder` | threads/semaphore.cc:82-96 | n Vs wake the first n of the queue |
| `Semaphores.Semaphore.P` | threads/semaphore.cc:62-75 | in place, one pass of the abstract semaphore |
| `Semaphores.Semaphore.V` | threads/semaphore.cc:82-96 | in place, one V of the abstract semaphore, returning the thread to make ready |
| `Locks.MutualExclusion` | threads/lock.cc:46-95 | in every run at most one thread is between the end of P and the start of V; the owner is nobody or that thread; nobody there and threads queued means one was woken |
| `Locks.LockStep` | threads/lock.cc:46-95 | each step, with a switch possible between P and the owner's assignment, keeps the lock invariant |
| `Locks.AssertionsAreExact` | threads/lock.cc:46-101 | in every run `IsHeldByCurrentThread` is true of a thread exactly from its assignment of the owner to its call of `Release`, whatever others do in between; so the assertions of `Acquire` and `Release` fail exactly on wrong use |
| `SynchDisks.SynchDiskIsSafe` | filesys/synch_disk.cc:54-87 | in every run at most one request is under way, no assertion of disk or lock fails, and a thread returns only after a request made since it got the lock, the latest of all, with as many interrupts as requests; all counted from the events |
| `SynchDisks.CountsMatch` | filesys/synch_disk.cc:54-87 | the counters of the model are the counts of events, and a thread is past its request exactly if it made one since it got the lock |
| `SynchDisks.StepKeeps` | machine/disk.cc:117-171 | every step keeps the invariant that ties the owner's progress, the busy flag and the semaphore |
| `SynchDisks.AssertionsHold` | machine/disk.cc:117-162 | the disk is idle whenever a request is issued |
| `SynchDisks.SleeperIsServed` | filesys/synch_disk.cc:83-87 | a thread asleep at the semaphore has its request under way, and the interrupt wakes it and lets it in |
| `Schedulers.OnePlace` | threads/thread.cc:253-299 | in every run each thread is in exactly one of: running, ready, waiting at one semaphore, finished, just created; and there once; ready keys are current priorities |
| `Schedulers.NextIsFirst` | threads/scheduler.cc:62-66 | in every run the next thread has the greatest priority, as the events gave it, and among equals came to the ready list first, as the run shows it |
| `Schedulers.SemaphoreCounts` | threads/semaphore.cc:62-96 | in every run of the kernel each semaphore's value is its initial value plus the Vs on it less the Ps that got in, and not negative |
| `Schedulers.PrioritiesFollow` | threads/lock.cc:59-72 | in every run a thread has the priority it was given last, at its creation or by a change |
| `Schedulers.SinceIsEntered` | threads/scheduler.cc:43-55 | the order of the ready list among equals is the order in which the run put the threads there |
| `Schedulers.YieldKeeps` | threads/thread.cc:253-268 | with nobody ready `Yield` changes nothing; otherwise the head of the ready list runs and the yielding thread is ready; the kernel invariant is kept |
| `Schedulers.PKeeps` | threads/semaphore.cc:62-75 | a P that gets in takes one off the value and leaves the thread running; one that does not puts it last in the semaphore's queue and runs the head of the ready list, or idles; other semaphores and the priorities stay |
| `Schedulers.UpKeeps` | threads/semaphore.cc:82-96 | a V by a thread or a handler adds one to the value and moves the head of the queue, and no other thread, to the ready list; other semaphores and the priorities stay |
| `Schedulers.PriorityKeeps` | threads/lock.cc:59-72 | the thread gets the new priority and no other does; the same threads are ready; a ready one stands behind every priority of at least its own and before every smaller one |
| `Schedulers.FinishKeeps` | threads/thread.cc:210-236 | a finished thread is in no list and not running; the head of the ready list runs, or the processor idles; the kernel invariant is kept |
| `Schedulers.ForkKeeps` | threads/thread.cc:145-158 | a forked thread, which was not ready, and no other comes to the ready list; the kernel invariant is kept |
| `Schedulers.CreateKeeps` | threads/thread.cc:44-73 | a new thread has its priority and is in no list; nothing else changes |
| `Processors.Scheduler.ReadyToRun` | threads/scheduler.cc:43-55 | in place over the linked list, equal to the step of `Schedulers` |
| `Processors.Scheduler.FindNextToRun` | threads/scheduler.cc:62-66 | in place, equal to the step of `Schedulers` |
| `Processors.Scheduler.Run` | threads/scheduler.cc:106-107 | in place, equal to the step of `Schedulers` |
| `Processors.Scheduler.ModifyPriority` | threads/scheduler.cc:156-166 | in place, equal to the step of `Schedulers` |
| `Processors.Scheduler.SetPriority` | threads/lock.cc:68-71 | in place: the thread gets the priority, equal to the change of `Schedulers` |
| `Processors.Scheduler.Yield` | threads/thread.cc:253-268 | in place, equal to the step of `Schedulers` |
| `Processors.Scheduler.Sleep` | threads/thread.cc:284-299 | in place, up to the first look at the ready list, equal to the step of `Schedulers` |
| `Lists.InsertSorted` | lib/list.hh:265-315 | sorted insertion keeps the order, up or down |
| `Lists.InsertKeeps` | lib/list.hh:265-315 | insertion adds exactly the new entry |
| `Lists.InsertStable` | lib/list.hh:265-315 | among equal keys the new entry is last and the order of the others is kept |
| `Lists.HeadIsFirst` | lib/list.hh:326-348 | the head of a sorted list is preceded by none and is the first of its key |
| `Lists.RemoveKeeps` | lib/list.hh:197-218 | removal takes out one entry with the item, if there is one, and keeps the order |
| `Lists.List.Append` | lib/list.hh:134-147 | in place: the item is last, the links are proper |
| `Lists.List.Prepend` | lib/list.hh:157-170 | in place: the item is first |
| `Lists.List.SortedInsert` | lib/list.hh:265-289 | in place, equal to insertion before the first greater key |
| `Lists.List.SortedInsertInverted` | lib/list.hh:291-315 | in place, equal to insertion before the first smaller key |
| `Lists.List.SortedPop` | lib/list.hh:326-348 | in place: the head comes off, nothing when empty |
| `Lists.List.Remove` | lib/list.hh:197-218 | in place: the first entry with the item is unlinked |
| `Lists.List.Has` | lib/list.hh:235-245 | whether some entry has the item |
| `Interrupts.Interrupt.Schedule` | machine/interrupt.cc:274-301 | exactly one entry comes to the queue, due `fromNow` after the present time; the queue stays sorted and behind the history |
| `Interrupts.ScheduledAdds` | machine/interrupt.cc:293-300 | the requests of a handler put exactly their entries into the queue, each due as far from now as asked |
| `Interrupts.Interrupt.CheckIfDue` | machine/interrupt.cc:311-358 | fires exactly when an entry is due (or the clock may advance) and it is not a lone timer on an idle machine; what it does to queue, clock and history in each case |
| `Interrupts.Interrupt.OneTick` | machine/interrupt.cc:146-173 | time moves by 10 ticks in the system or 1 for the user, counted on that side; the drain ends, nothing overdue is left, and the interrupted thread is to yield exactly if a handler asked for it |
| `Interrupts.Interrupt.Drain` | machine/interrupt.cc:164-164 | the loop ends although handlers schedule more; a due entry is left if and only if the machine is idle, everything pending was due, a timer came last and the handlers before it scheduled nothing; it is then that timer alone |
| `Interrupts.Interrupt.Idle` | machine/interrupt.cc:196-222 | halts exactly when nothing but a timer is pending or the console is waited for; otherwise the clock is at the first entry's time, a handler ran, and nothing due is left but for the case stated for the drain |
| `Interrupts.FireNext` | machine/interrupt.cc:311-358 | calling the head's handler keeps the history in order and takes one off the number due |
| `Interrupts.PutBackReorders` | machine/interrupt.cc:331-334 | popping and reinserting restores the queue exactly when the first two entries are not due together |
| `Interrupts.LeftTimer` | machine/interrupt.cc:196-222 | an instance: a disk and a timer interrupt due together leave the timer, due, in the queue |
| `Interrupts.Reordered` | machine/interrupt.cc:331-334 | an instance: a look before the time of two interrupts due together swaps them |
| `DiskTiming.ModuloDiff` | machine/disk.cc:207-214 | the distance to the sector going round |
| `DiskTiming.Rotation` | machine/disk.cc:251-252 | from a boundary the sector comes under the head after that many sectors, no sooner |
| `DiskTiming.Disk.TimeToSeek` | machine/disk.cc:186-203 | the seek time by tracks, and the wait to the next boundary |
| `DiskTiming.DiffIsDistance` | machine/disk.cc:173-177 | the number of tracks to go is the distance, either way |
| `DiskTiming.Disk.ComputeLatency` | machine/disk.cc:232-256 | buffer or not, exactly; otherwise the transfer starts at the first pass of the sector after the seek |
| `DiskTiming.Disk.UpdateLast` | machine/disk.cc:260-271 | the buffer restarts at the boundary after a seek, and only then |
| `DiskTiming.Disk.Request` | machine/disk.cc:117-162 | a request on an idle disk: its latency, and the invariant that the buffer was started at time 0 or at a boundary by a seek whose request has been served since |
| `DiskTiming.Disk.HandleInterrupt` | machine/disk.cc:166-171 | after the interrupt the disk is idle and the invariant holds with the time that it is |
| `DiskTiming.PastByNow` | machine/disk.cc:239-248 | the buffer serves only sectors past by now if and only if the first pass since it was started is not going on |
| `DiskTiming.StillPassing` | machine/disk.cc:232-256 | an instance on a new disk: sector 0 asked for at time 10 is taken from the buffer while it is still passing |
| `DiskTiming.SeekAndWait` | machine/disk.cc:232-256 | an instance with a seek, in ticks: 500 for the track, 31 sectors of waiting and one of transfer |
| `DiskTiming.PastByCompletion` | machine/disk.cc:239-248 | by the end of the transfer the sector has passed |
| `Multiply.Mult` | machine/mips_sim.cc:91-155 | `hi:lo` is the product of the signed values, or of the unsigned words, for all operands |
| `Multiply.UnsignedProduct` | machine/mips_sim.cc:118-140 | the loop with its early break computes the product of the operands as unsigned words, also for a negative multiplier shifted arithmetically |

## Left out

- Addresses at or above `numPages * PAGE_SIZE`: accesses are taken to be within the process.
- `ReadOnlyError` and `BusError` of the MMU cannot occur with the tables this kernel builds; the branches are in the model but never taken.
- Swap files and executables are host files: byte sequences with the meaning of `pread` and `pwrite`.
- Address spaces are values in the process table of `Machines.Machine`; the table's size limit is not modelled.
- 32-bit wrap-around of sizes, positions and of the fault counter; the LRU counter's wrap-around is modelled.
- Arguments.RoundTrip: needs the arguments to fit on the stack above address 0 and fewer than 32 of them, as the code does.
- Arguments.ReadStringFromUser: every address it reads is taken to be within the process's memory.
- Arguments.SaveArgs: the array and the strings, as far as they are read, are taken to be within the process's memory, and the array to be aligned; the kernel stops otherwise.
- A failing assertion of the loader (`Executables.LoadableIff`) stops the kernel; the runs of `ProcessMemory` go on as if it were not there.
- The free map is kept apart from the sectors: that it is itself a file whose header is in sector 0 is not modelled, only that sector 0 is never free.
- OpenFiles.OpenFile.Write: one operation at a time; the write lock, `isDirectory` and concurrent users of different copies of the free map are not modelled.
- OpenFiles.OpenFile.Read: handles are used either for reading or for writing; `Seek`, and `Read` after `Write` on one handle, are left out because `Read` moves the header but not the current sector.
- That the free map equals the owned sectors: it does not, since failed extensions leave header sectors marked; owned implies marked is what is proved.
- FileSystems.FileSystem.Create: directories, names and paths; only the header's creation is modelled.
- FileSystems.FileSystem.Remove: waiting for other users of the file, and the directory entry.
- `Condition`, `Channel`, `SynchList`, `Join`: `Signal` does not take the thread off its queue, so nothing about wake-ups follows.
- Locks.MutualExclusion: the restoring of priorities in `Release` is covered only by `Schedulers.PriorityKeeps` (keys follow priorities), not by what value is restored.
- Schedulers.FinishKeeps: the deallocation of finished threads (`threadToBeDestroyed`) is not modelled.
- Processors.Scheduler.Sleep: the idle loop is one look at the ready list per step, with interrupts in between as steps of `Schedulers`.
- Interrupts.Interrupt.OneTick: says whether the thread is to yield; the switch itself is a step of `Schedulers`. `RestartTicks` is left out: times are taken below 2^31, where keys and clock do not wrap. It is not called on an idle machine.
- Interrupts.Interrupt.Call: handlers are parameters: the n-th call schedules, and asks for a yield, as a given function says.
- Disk contents during a request: the data is transferred when the request is issued, so `OpenFiles.Disk` reads and writes at once.
- Lists.List.SortedPop: the null item returned for an empty list is an empty sequence here.
- `Head` and `Apply` of the list, the other instructions of the CPU, the console, the network, the debugger, `Check` and formatting beyond the two reserved sectors: foreign calls, or code of a single branch with no state of its own.
