# OpenHobbyOS, verified models

Dafny models of the parts of OpenHobbyOS that keep state over long runs, with proofs of what they
promise. Check everything with `dafny verify dfyconfig.toml`.

- **Address spaces** (`Entries`, `FrameAllocator`, `PageTables`, `CopyOnWrite`, `PartialFork`,
  `AddressSpaces`, `AddressSpaceRuns`). Physical memory is a sequence of frames of 1024 words, and
  directories, tables and user pages live in the same frames. The in-place operations on it are tied
  to an abstract machine, with the exact number of frames each one takes, and that machine is shown
  to present, over every run, what a fork that copies every page would.
- **Kernel heap** (`Bytes`, `Blocks`, `KernelHeap`). The block list is laid over the bytes it
  describes. The laws of the heap follow from one fact: a coalesced list is determined by its used
  blocks.
- **Processes** (`ProcessTable`, `Processes`, `Scheduler`). The slot table as a state machine over
  fork, spawn, exit, waitpid, sleep and wake, with the log of exits and reports; the in-place loops
  refine its steps. Round-robin picking with its bound on waiting.
- **User memory** (`UserRange`, `MmapLayout`, `UserStack`, `ProgramStart`). The mapping table and the break; the
  first stack of a process, from the kernel that writes it to the start code that reads it.
- **Byte streams** (`ByteRing`, `Streams`). The wrapping ring as a queue; pipes; the hand-over of
  bytes to a blocked reader.
- **XNX display protocol** (`XnxFraming`, `XnxUpload`, `XnxPayload`, `Desktop`, `Compositor`, `Painting`).
  Message framing under any fragmentation, chunked pixel uploads down to the bytes, the surface and
  client tables, and the painting pass.
- **Algorithms** (`Words`, `Sha1Spec`, `Sha1`, `Paths`, `Vfs`, `Division`). Streaming SHA-1 against
  FIPS 180-4, path printing, resolving and normalising, and shift-subtract division.

Clocks, user memory that may refuse a copy, allocation inside foreign code (pixman, malloc), what
`recv` and `send` return, and whether an executable loads are parameters of the operations.

Where a promise does not hold of the code as it is, the model keeps the code and states the exact
condition, with an input that fails: `FrameAllocator.Allocator.Release` (`ReleaseTwice`),
`CopyOnWrite.ForkPermissions` (`ForkWidens`), `CopyOnWrite.KernelStore` (`KernelStoreAfterFork`),
`AddressSpaces.Paging.CopyCow` (`ForkLoses`),
`AddressSpaces.Paging.Destroy` (`ForkThenDestroy`), `KernelHeap.FitsExactly` (`HeaderOverrun`),
`MmapLayout.Task.Mmap` (`FixedWraps`, `LengthWraps`), `Streams.PeekHarmless` (`PeekConsumes`),
`XnxUpload.WholeIffHarmless` (`WrapExample`), `XnxPayload.HandleBuffer` (`WrapAccepted`),
`Vfs.FileSystem.Mkdir` (`DotDirectory`) and
`Vfs.FileSystem.PathAndBack` (`TooDeep`).

## Model

| member | source | states |
|---|---|---|
| FrameAllocator.Allocator.constructor | src/paging.c:38-54 | the cleared bitmap: no frame in use, the count 0 |
| FrameAllocator.Allocator.Init | src/paging.c:55-60 | marks exactly the bits 0 to first_frame, each counted once (for first_frame at most total_frames) |
| FrameAllocator.Allocator.Mark | src/paging.c:69-76 | setting or clearing bit i of the word array changes the membership of that one frame |
| FrameAllocator.Allocator.Alloc | src/paging.c:68-80 | the lowest free frame, never one in use; 0 exactly when the free count is 0; used_frames stays the number of set bits |
| FrameAllocator.Allocator.Release | src/paging.c:82-96 | the frame is free afterwards, and the count goes down by one modulo 2^32 for every managed frame; it stays right if and only if the frame was in use or is not managed |
| FrameAllocator.Allocator.SomeFree | src/paging.c:106-108 | the free count is positive exactly when some managed frame is free |
| FrameAllocator.ReleaseTwice | src/paging.c:82-96 | a failing input: a frame released twice leaves the count one short, or at 2^32 - 1 |
| Entries.MarkCow | src/task.c:2190-2194 | the parent keeps the frame, loses write permission, and is copy-on-write if it could be written |
| Entries.ShareCow | src/task.c:2196-2198 | the child maps the same frame, copy-on-write and never writable |
| Entries.Privatize | src/paging.c:628-631 | after the copy the entry is writable, no longer copy-on-write, on the new frame |
| Entries.MapEntry | src/paging.c:224-262 | the entry page_map makes is present and owned, with the permissions asked for |
| PageTables.WalkFrame | src/paging.c:319-337 | the table a walk goes through is the directory's own for user pages and the kernel's otherwise |
| PageTables.DataWrite | src/paging.c:26-31 | writing a frame that is neither directory nor table changes no translation of any directory |
| PageTables.EntryWrite | src/paging.c:254-256 | writing one table entry changes that translation and no other, in any directory |
| PageTables.TableAdd | src/paging.c:233-243 | hooking in a zeroed fresh table changes no translation |
| PageTables.DirectoryAdd | src/paging.c:114-151 | a new directory has no user page and disturbs no other directory |
| PageTables.SlotFlags | src/paging.c:244-252 | permission bits of a directory slot change no translation |
| PageTables.KernelEntryWrite | src/paging.c:254-256 | writing a kernel table changes no user translation |
| AddressSpaces.Paging.PageMap | src/paging.c:224-262 | for every address: succeeds exactly when aligned and a table is there or a frame is left; then the page translates to the frame. In the user range every other page of every directory stays; outside it the tables stay in order if and only if the slot leads to a kernel table that need not be opened to user mode; a failure changes nothing |
| AddressSpaces.Paging.PageGetPhys | src/paging.c:319-337 | the frame of the walk times 4096 plus the offset, 0 when unmapped |
| AddressSpaces.Paging.MapThenTranslate | src/paging.c:319-337 | what a successful map installs is what translation finds, for every address and every offset in the page |
| AddressSpaces.Paging.AllocUserPage | src/paging.c:416-436 | succeeds exactly when the address is aligned and in the user range and one frame is free, or two when the slot has no table; is the allocation step of the run model on a frame that was free; on failure nothing has changed and the frame is back |
| AddressSpaces.Paging.CreateDirectory | src/paging.c:114-151 | fails exactly when no frame is free; takes one frame; is the creation step of the run model |
| AddressSpaces.Paging.CowFault | src/paging.c:603-636 | succeeds exactly when a frame is free; moves the page to it with the same contents; every other page of every space shows what it did |
| AddressSpaces.Paging.UserWrite | src/paging.c:593-640 | runs out of memory exactly when the page is copy-on-write, not writable, and nothing is free; otherwise the store, with the fault if there is one, is the write step of the run model |
| AddressSpaces.Paging.ShareEntry | src/task.c:2183-2198 | one page: the parent's entry marked, the child's shared exactly when its slot has a table or a frame is free, nothing else touched |
| AddressSpaces.Paging.CopyCow | src/task.c:2170-2205 | fails exactly when no frame is free; is the fork step of the run model if and only if the free frames number at least one plus the slots of the parent that hold a page; otherwise the child has exactly the pages of the first slots, as many as frames are left, and all frames are taken |
| PartialFork.VisitedTables | src/task.c:2178-2202 | in page order, tables are made for the first n slots that hold a page, and one frame is taken for each |
| PartialFork.VisitedEntries | src/task.c:2178-2202 | with room for n tables, the child gets exactly the pages with fewer than n page-holding slots before theirs; the parent is marked throughout |
| PartialFork.ForkDone | src/task.c:2178-2202 | visiting every page gives the forked entry map if and only if the slots in use number at most n |
| CopyOnWrite.FaultThenStore | src/paging.c:603-636 | the fault followed by the repeated store is one copying write |
| CopyOnWrite.ForkKeepsSharing | src/task.c:2190-2198 | fork leaves no frame writable that is mapped at two places |
| CopyOnWrite.ForkShows | src/task.c:2170-2205 | after fork every page shows what an eager copy would |
| CopyOnWrite.ForkPermissions | src/task.c:2196-2198 | false as a law: the child may write every page. Permissions carry over if and only if the parent may write all of its pages |
| CopyOnWrite.KernelStore | src/task.c:198-219 | a store by the kernel, which no write protection stops, does what it does to pages of their own if and only if no other place maps the frame or the word does not change |
| CopyOnWrite.KernelStoreAfterFork | src/task.c:198-219 | the failing inputs a fork leaves: any changed word shows in the other process |
| CopyOnWrite.StepRefines | src/paging.c:603-640 | every step keeps the invariant and the agreement with the eager machine |
| CopyOnWrite.ChainShows | src/task.c:2170-2205 | from any state that agrees with the eager machine, every later state of a run does |
| CopyOnWrite.CopyOnWriteRefinesEager | src/task.c:2170-2205 | over every run: a frame mapped twice is writable through neither place, and each space reads exactly what it would if fork copied every page |
| AddressSpaces.Paging.Destroy | src/paging.c:153-191 | of any directory: exactly the frames of it, its tables and its pages become free; the count stays right if and only if no managed frame backs two of its pages; tables, pages and allocator stay in order if and only if no managed frame of it is mapped anywhere else |
| AddressSpaces.Paging.DestroySafeIff | src/paging.c:153-191 | the half of that about others: they keep their pages if and only if none of them shares a managed frame with the directory |
| AddressSpaces.Paging.OwnershipGrows | src/paging.c:416-436 | an allocation makes the directory own exactly the frames newly taken |
| AddressSpaces.Paging.Lifetime | src/paging.c:153-191 | create, any allocations of distinct pages, destroy: the set of frames in use and its count are as before |
| AddressSpaceRuns.Perform | src/task.c:2170-2205 | one call: with the frames it needs, exactly that step of the run model and exactly those frames taken; without them a failure that changes nothing, but for fork, which may report success |
| AddressSpaceRuns.Execute | src/task.c:2170-2205 | every list of creations, allocations, forks and stores on physical memory: step by step the run model, exactly up to the first call whose frames are lacking, or to the end |
| AddressSpaceRuns.TraceShows | src/task.c:2170-2205 | along such a run no frame is writable at two places and every page shows what it would if fork copied |
| AddressSpaceRuns.BudgetSuffices | src/task.c:2170-2205 | no call lacks frames if there are as many as the calls can take at most |
| AddressSpaceRuns.Run | src/task.c:2170-2205 | from a machine without address spaces: when no call lacks frames, memory shows at the end what the eager machine does |
| AddressSpaceRuns.ForkWidens | src/task.c:2196-2198 | a failing input for permissions: create, allocate read-only, fork; the child may write the page and the parent may not |
| AddressSpaceRuns.ForkLoses | src/task.c:2199-2205 | a failing input for completeness: with one frame left fork reports success and the child lacks the page |
| AddressSpaceRuns.ForkThenDestroy | src/paging.c:153-191 | a failing input for destruction: create, allocate, fork, destroy the child; the frame of the parent's page is free |
| KernelHeap.Needed | src/memory.c:24-26 | at least the size asked for if and only if that is at most 2^32 - 8; beyond it wraps to 0 |
| Blocks.UsedDetermines | src/memory.c:47-60 | a coalesced list that tiles a region is determined by its used blocks |
| Blocks.MergeKeeps | src/memory.c:47-60 | a merge pass keeps the tiling and the used blocks, and leaves no two free neighbours |
| Blocks.MergeFixpoint | src/memory.c:66-82 | a pass over a coalesced list changes nothing |
| Blocks.AllocatedKeeps | src/memory.c:207-219 | carving a block keeps the tiling and the coalescing and adds just that used block |
| Blocks.FreedKeeps | src/memory.c:293-303 | freeing and merging keep the tiling and remove just that used block |
| Blocks.FreeUndoesAlloc | src/memory.c:293-303 | freeing the block that was carved gives back the exact list |
| Blocks.IndexUnique | src/memory.c:293-300 | the addresses of a tiling are all different, so kfree finds the block by its address |
| Blocks.FreeAtUndoesAlloc | src/memory.c:293-303 | kfree of the address kmalloc returned gives back the exact list |
| Blocks.FreeAllRestores | src/memory.c:293-303 | freeing all used blocks, in any order, gives back the single initial block |
| Blocks.TilesTotal | src/memory.c:305-325 | headers and payloads fill the region |
| KernelHeap.Heap.constructor | src/memory.c:150-158 | one region: one free block that spans it |
| KernelHeap.MergeList | src/memory.c:47-60 | the in-place loop computes the merge pass, keeps live payloads byte for byte, and reports whether anything was joined |
| KernelHeap.Heap.MergeBlocks | src/memory.c:47-60 | the same on the heap |
| KernelHeap.Heap.Defragment | src/memory.c:66-82 | terminates with a coalesced list; on a heap between calls it changes no byte |
| KernelHeap.Heap.Kmalloc | src/memory.c:196-225 | first fit: the first free block that is large enough, carved; null exactly for size 0 or no fit; live blocks keep their bytes |
| KernelHeap.Heap.Kfree | src/memory.c:293-303 | the block leaves the used blocks, the list is coalesced again, other live blocks keep their bytes |
| KernelHeap.Heap.Krealloc | src/memory.c:265-291 | kmalloc for a null pointer, kfree for size 0, else keeps the block if it is large enough or moves the contents to a first-fit block and frees the old one; other live blocks keep their bytes; a failure changes nothing |
| KernelHeap.AllocThenFree | src/memory.c:196-303 | kmalloc and then kfree: the block list is the old one and no live byte has changed |
| KernelHeap.FitsExactly | src/memory.c:265-291 | the contents fit the block that krealloc gets if and only if the request is at most 2^32 - 8 or at most the old size, or no block is free, or the first free one is handed out whole and is large enough |
| KernelHeap.Overrun | src/memory.c:282-287 | whenever they do not fit: kmalloc carves the first free block for 0 bytes, the copy of the old contents runs past its end, and the bytes there are the old contents |
| KernelHeap.HeaderOverrun | src/memory.c:282-287 | the inputs where that is the header of the next block |
| KernelHeap.Heap.Stats | src/memory.c:305-325 | used bytes, free bytes and headers add up to the region |
| ProcessTable.NextKeeps | src/task.c:748-824 | every event keeps pids unique, parents older than children, every waiter with a live child and no missed zombie, and the exit log exact |
| ProcessTable.RunSound | src/task.c:2311-2341 | so does every run from the empty table, for any number of slots |
| ProcessTable.NoWaitDeadlock | src/task.c:2311-2341 | in every reachable state the youngest live process is runnable or sleeping, so waiting never deadlocks |
| ProcessTable.ExactlyOnce | src/task.c:767-824 | in every reachable state an exit has at most one report, made to the parent with the pid and status word; unreported, with the parent in the table, it is exactly one zombie |
| ProcessTable.LogsGrow | src/task.c:767-824 | reports and exits are never taken back |
| ProcessTable.ExitWakesParent | src/task.c:795-824 | an exit someone waits for reaches that parent at once and frees the slot |
| ProcessTable.WaitAnswers | src/task.c:2311-2341 | no child: ECHILD; a zombie child: its pid, reaped; else it blocks; each exactly then |
| ProcessTable.ForkMakesChild | src/task.c:2207-2256 | a fork fills one free slot with a runnable child of the caller, return value 0, a pid no slot has, and touches no other slot |
| ProcessTable.ForkExitWait | src/task.c:2311-2341 | fork, child runs and exits, parent waits for it: the answer is the child's pid and exactly its status word is reported, in any sound table |
| ProcessTable.TerminatedKeeps | src/task.c:2539-2556 | exit keeps all of the invariant |
| ProcessTable.WaitedKeeps | src/task.c:2311-2341 | waitpid keeps all of the invariant |
| Processes.Kernel.constructor | src/task.c:630-649 | the empty table is the start of the runs |
| Processes.Kernel.ForkCurrent | src/task.c:2207-2256 | the fork event; a full table or a failed copy is ENOMEM and changes nothing |
| Processes.Kernel.SpawnChild | src/task.c:1087-1106 | the spawn event, with the pid that a late failure uses up |
| Processes.Kernel.ExitCurrent | src/task.c:2539-2556 | the exit event |
| Processes.Kernel.WakeWaitingParents | src/task.c:795-824 | the loop hands the exit to the first waiting parent that matches, or leaves the table alone |
| Processes.Kernel.ReapMatchingChild | src/task.c:767-793 | the loop reaps the first matching zombie; a status word that cannot be written leaves it |
| Processes.Kernel.HasMatchingChild | src/task.c:755-765 | true exactly when a matching child is in the table |
| Processes.Kernel.WaitChild | src/task.c:2311-2341 | the waitpid event and its answer |
| Processes.Kernel.SleepCurrent | src/task.c:2343-2355 | the sleep event |
| Processes.Kernel.WakeSlot | src/task.c:1461-1471 | the wake event: any used slot but a zombie becomes runnable |
| Processes.Kernel.WakeReadySlots | src/task.c:273-285 | wakes exactly the sleepers that are due, by the signed 32-bit comparison |
| Processes.Kernel.CollectRoot | src/task.c:1283-1305 | the kernel takes the exit code of a process it started; it was never reported to anyone |
| Processes.Kernel.HasLiveSlots | src/task.c:287-294 | true exactly when some slot is used and no zombie |
| Processes.Kernel.EndSession | src/task.c:1139-1155 | the event that frees every slot when nothing is live; the result is the exit code recorded for the root, or -1 if it was already reported |
| Scheduler.AheadIndex | src/task.c:296-305 | (current + 1 + pass) mod n visits the slots in cyclic order |
| Scheduler.RoundRobin.PickNext | src/task.c:296-305 | the nearest runnable slot after the current one; none only if none can run; the cursor follows |
| Scheduler.RoundRobin.Dispatch | src/task.c:1111-1137 | each pick starts from the slot picked before, and that slot runs if it passes validation |
| Scheduler.RoundRobin.TimerTick | src/task.c:2480-2511 | a switching tick picks from the running slot and moves the cursor; the pick runs if it passes validation, else the running slot stays; other ticks change nothing |
| Scheduler.Schedule | src/task.c:1111-1137 | any list of dispatches and timer ticks makes a schedule in the sense of the bound, and every slot runnable throughout the first n turns is picked in them |
| Scheduler.BoundedWaiting | src/task.c:296-305 | for any number of slots and any changes in between: a slot that stays runnable is picked within n picks, and no other slot twice before it |
| MmapLayout.AlignUp | src/task.c:112-114 | the next multiple of 4096, or 0 when the sum wraps |
| MmapLayout.OverlapWithoutWrap | src/task.c:116-120 | range_overlaps is interval overlap when no end wraps |
| MmapLayout.Task.MappingOverlaps | src/task.c:614-628 | true exactly when the stretch meets a mapping or [USER_BASE, brk) |
| MmapLayout.Task.Search | src/task.c:1864-1874 | the highest free page-aligned base, and failure only when there is none; a size above the top of the window is placed beyond it, exactly when the break ends below that |
| MmapLayout.Task.Place | src/task.c:1858-1875 | fixed and searched placement, and what happens to sizes that wrap |
| MmapLayout.Task.Mmap | src/task.c:1817-1957 | keeps all mappings aligned, inside the window, disjoint and clear of the heap if and only if the sizes do not wrap, or the request is fixed and the length recorded for a framebuffer happens to fit there; fails for the listed reasons only; for fresh pages a size that wraps never returns, as the kernel clears a range it has not mapped |
| MmapLayout.Task.Munmap | src/task.c:1959-1974 | removes the mapping with that base and length, EINVAL exactly when there is none |
| MmapLayout.Task.Brk | src/task.c:707-746 | moves exactly for addresses from the base of the heap up to the mmap window; the overlap test never refuses |
| MmapLayout.MapUnmap | src/task.c:1959-1974 | unmapping what was mapped restores the table |
| MmapLayout.FixedWraps | src/task.c:1859-1862 | a fixed request for the framebuffer whose end wraps is accepted and breaks the layout |
| MmapLayout.LengthWraps | src/task.c:1864-1874 | so is one longer than the top of the window |
| UserStack.Builder.PushBytes | src/task.c:419-429 | pushes exactly if the bytes fit above USER_BASE |
| UserStack.Builder.PushStrings | src/task.c:471-483 | all strings stand intact below the old stack pointer, or they do not fit |
| UserStack.Builder.PushWords | src/task.c:501-541 | the words stand in order below the old stack pointer, everything above untouched |
| UserStack.Builder.PushFrame | src/task.c:489-541 | argc, argv, null, envp, null and the auxiliary vector at a 16-byte aligned stack pointer |
| UserStack.Builder.Prepare | src/task.c:435-544 | succeeds exactly if there are at most 32 arguments and everything fits; then no string has been overwritten |
| ProgramStart.FromStack | user/lib/start.c:110-123 | argc, argv and envp as _start takes them off the stack |
| ProgramStart.Strlen | user/lib/start.c:16-28 | the length of the string |
| ProgramStart.Arena.CopyString | user/lib/start.c:30-46 | a copy of the string if there is room, earlier copies untouched |
| ProgramStart.CopyVectors | user/lib/start.c:48-84 | copies all strings exactly if both tables and the byte arena are large enough |
| ProgramStart.StartC | user/lib/start.c:93-107 | main gets the strings of the stack, copied or not |
| ProgramStart.Launch | src/task.c:435-544 | from the kernel to main: exactly the argc, argv and environment the process was started with, exactly if they fit |
| ByteRing.PutChunk | src/pipe.c:35-43 | a chunk copied to the tail extends the queue |
| ByteRing.TakeChunk | src/pipe.c:60-68 | a chunk copied from the head is the front of the queue |
| ByteRing.Ring.Write | src/pipe.c:24-47 | appends as much as fits into a queue of size - 1 bytes |
| ByteRing.Ring.Read | src/pipe.c:49-72 | removes up to that many bytes from the front, in order |
| ByteRing.Ring.Peek | src/socket.c:384-405 | returns what a read would, and changes nothing |
| Streams.Pipe.Write | src/pipe.c:148-166 | a queue write, or EBADF or EPIPE |
| Streams.Pipe.Read | src/pipe.c:120-146 | a queue read, or EBADF; 0 when empty |
| Streams.Endpoint.Receive | src/socket.c:376-419 | the front of the queue; peeking leaves queue and history alone; EAGAIN exactly when empty, connected and open |
| Streams.Endpoint.ReceiveOrBlock | src/syscall.c:682-713 | a reader is registered exactly when there is nothing to read and the peer is there |
| Streams.Endpoint.HandOver | src/socket.c:432-464 | bytes go straight to the blocked reader, who is released |
| Streams.Endpoint.Enqueue | src/socket.c:466-477 | the rest is queued, and a reader still registered is woken |
| Streams.Endpoint.Accept | src/socket.c:421-478 | a registered reader means an empty ring, and delivered bytes followed by queued bytes are the accepted bytes in order; the count returned and who is woken |
| Streams.PeekConsumes | src/socket.c:432-464 | a failing input: the bytes sent to a peek that sleeps are gone for the next read |
| Streams.SendRead | src/socket.c:376-478 | a send and then a read: the front of the queue with the data appended |
| Streams.PeekSendRead | src/socket.c:376-478 | the same after a peek: what the sleeping reader was handed is missing |
| Streams.PeekHarmless | src/socket.c:432-464 | a peek before the send makes no difference to the read, whatever is sent, if and only if it does not sleep, or the copy to the sleeper fails, or nothing is sent or read |
| Streams.Endpoint.Shutdown | src/socket.c:480-495 | no reader stays registered |
| XnxFraming.ReadOn | user/xnx/compositor.c:576-622 | reading more bytes goes on from what was left over: the reference does not depend on how the stream is cut |
| XnxFraming.RoundTrip | user/lib/xnx/xnx.c:85-108 | the messages read are the messages sent, up to the first that is refused |
| XnxFraming.SentIsDispatched | user/lib/xnx/xnx.c:85-108 | with nothing refused, the list sent is the list dispatched |
| XnxFraming.Client.ReadHeader | user/xnx/compositor.c:579-602 | the header branch refines the reference reading |
| XnxFraming.Client.ReadPayload | user/xnx/compositor.c:604-621 | the payload branch refines the reference reading |
| XnxFraming.Client.ReadData | user/xnx/compositor.c:576-622 | what was consumed so far reads as the messages dispatched and the bytes held; giving up agrees with the reference |
| XnxFraming.Serve | user/xnx/compositor.c:576-622 | however recv splits the stream, the messages dispatched and the verdict are those of the reference |
| XnxFraming.Connection.SendAll | user/lib/xnx/xnx.c:25-53 | sends the buffer in order; done exactly when the attempts move all of it |
| XnxFraming.Connection.SendMessage | user/lib/xnx/xnx.c:85-108 | the wire form of the message, done exactly when the attempts move header and payload, or EMSGSIZE with nothing sent |
| XnxFraming.Connection.RecvAll | user/lib/xnx/xnx.c:55-83 | takes exactly the next bytes of the stream; done exactly when there are enough and the attempts move them |
| XnxFraming.Connection.RecvMessage | user/lib/xnx/xnx.c:110-128 | the inverse of sending, exactly when the payload is within the capacity and the attempts move header and payload |
| XnxUpload.HandleWrite | user/xnx/compositor.c:294-338 | exactly the pixels of the rectangle that lie on the surface are written |
| XnxUpload.Upload | user/lib/xnx/xnx.c:330-390 | cuts the rectangle into messages of whole rows that fit, EMSGSIZE exactly when a row does not |
| XnxUpload.ChunkedIsWhole | user/lib/xnx/xnx.c:363-385 | the messages together are one clipped write, unless a chunk wraps onto the surface |
| XnxUpload.WholeIffHarmless | user/lib/xnx/xnx.c:363-385 | for all pixels at once: chunked equals whole if and only if no chunk wraps onto the surface |
| XnxUpload.NoWrapHarmless | user/lib/xnx/xnx.c:363-385 | a rectangle that ends by 2^32 never wraps |
| XnxUpload.WrapExample | user/lib/xnx/xnx.c:363-385 | two rows at y = 2^32 - 1 where chunked differs from whole |
| XnxUpload.UploadTo | user/xnx/compositor.c:541-555 | from the client to the surface |
| XnxPayload.HandleBuffer | user/xnx/compositor.c:541-555 | a pixel write from the bytes of its payload: accepted exactly when its 32-bit pixel size fits the payload; reads only the payload if and only if the clipped rows lie in it, and then writes exactly those pixels |
| XnxPayload.CopyRows | user/xnx/compositor.c:329-336 | the rows that lie on the surface, from their 32-bit offsets, or the first one that is not in the payload |
| XnxPayload.InsideWithoutWrap | user/xnx/compositor.c:549-552 | an accepted write of less than 2^32 pixel bytes reads only its payload |
| XnxPayload.LastRowDecides | user/xnx/compositor.c:329-336 | as long as no row offset wraps, the last clipped row decides |
| XnxPayload.WrapAccepted | user/xnx/compositor.c:549-552 | a failing input: width 0x10000 and height 0x4000 without a pixel are accepted, the first row is read behind the payload and the second behind the read buffer |
| XnxPayload.DecodeEncodeWrite | user/lib/xnx/xnx.c:363-385 | decoding inverts the encoding of the header |
| XnxPayload.SentIsRead | user/lib/xnx/xnx.c:363-385 | every message the client may send is accepted and read inside its payload |
| XnxPayload.SentPixel | user/lib/xnx/xnx.c:363-385 | and each pixel arrives where the rows put it |
| XnxPayload.WriteThrough | user/xnx/compositor.c:541-555 | encoding and handling together are the clipped write of the rows |
| XnxPayload.HandleBytes | user/xnx/compositor.c:481-574 | a message as bytes, with the size test of its type, does what its request does |
| Desktop.ListedOnce | user/xnx/compositor.c:221-255 | every surface is listed once, by the client it belongs to |
| Desktop.SwapRemoves | user/xnx/compositor.c:169-179 | swap-removal removes just that surface |
| Desktop.CreateKeeps | user/xnx/compositor.c:221-255 | creation keeps ids unique, ownership exact and the focus on top |
| Desktop.DestroyKeeps | user/xnx/compositor.c:508-528 | so does destruction |
| Desktop.ChangeKeeps | user/xnx/compositor.c:257-281 | so do moving, resizing and raising a surface |
| Desktop.LeaveKeeps | user/xnx/compositor.c:187-204 | so does a client that leaves; exactly its surfaces go |
| Compositor.Server.TopVisible | user/xnx/compositor.c:122-135 | a surface of the greatest z-order |
| Compositor.Server.EnsureFocus | user/xnx/compositor.c:137-146 | keeps a focus that exists, else focuses the top surface, 0 if there is none |
| Compositor.Server.DropSurface | user/xnx/compositor.c:169-185 | just that surface goes, and the top one has the focus |
| Compositor.Server.AddClient | user/xnx/compositor.c:206-219 | a client without surfaces, up to 32 |
| Compositor.Server.CreateSurface | user/xnx/compositor.c:221-255 | within the limits exactly; the new surface is on top and focused |
| Compositor.Server.DestroySurface | user/xnx/compositor.c:508-528 | exactly for the owner; just that surface and its list entry go |
| Compositor.Server.RemoveClient | user/xnx/compositor.c:187-204 | exactly the surfaces of that client go |
| Compositor.Server.SetGeometry | user/xnx/compositor.c:257-281 | only the owner moves or resizes a surface |
| Compositor.Server.Commit | user/xnx/compositor.c:556-571 | exactly for the owner: the surface comes to the top and gets the focus |
| Compositor.HandleMessage | user/xnx/compositor.c:482-574 | every message: the client is kept exactly when the request is well formed, within the limits and its own, and the answer gets through; then exactly that request takes effect, and no surface or list of another client is touched |
| Compositor.Session | user/xnx/compositor.c:691-754 | over every sequence of connections, messages and hang-ups: each round does to the tables what its input asks for, drops a client whose message fails with its surfaces and nobody else's, leaves the tables in order, and paints just what is then on the screen, lowest first |
| Compositor.Listen | user/xnx/compositor.c:481-574 | one message in the main loop: it takes effect, or the client is dropped |
| Compositor.EachOnce | user/xnx/compositor.c:357-445 | in such a round every surface on the screen is painted once |
| Painting.Clip | user/xnx/compositor.c:385-428 | in 32-bit arithmetic, for every position and every size that has pixels: paints exactly the points that are in the surface and on the screen, each with its own pixel; nothing exactly when there are none |
| Painting.Lowest | user/xnx/compositor.c:372-382 | the lowest visible surface from z on |
| Painting.Composite | user/xnx/compositor.c:357-445 | the pass ends having painted each visible surface that is on the screen once, by rising z-order, exactly clipped |
| Painting.TopmostLast | user/xnx/compositor.c:357-445 | the last call that covers a point is that of the topmost visible surface there |
| Words.ChooseByOr | ports/libsha1/libsha1.c:65-66 | the source's choice by or is the standard's by exclusive or |
| Words.MajorityByOr | ports/libsha1/libsha1.c:73-74 | and so is the majority |
| Sha1.LoadBe32 | ports/libsha1/libsha1.c:9-14 | the big-endian word |
| Sha1.StoresFour | ports/libsha1/libsha1.c:16-21 | the bytes of a word, most significant first |
| Sha1.StoresEight | ports/libsha1/libsha1.c:23-32 | the bytes of the 64-bit length |
| Sha1.MakeSchedule | ports/libsha1/libsha1.c:43-50 | the message schedule of section 6.1.2 of FIPS 180-4 |
| Sha1.Step | ports/libsha1/libsha1.c:59-85 | one round of section 6.1.2 |
| Sha1.Transform | ports/libsha1/libsha1.c:34-93 | the compression of one block of section 6.1.2 |
| Sha1.Context.FillBuffer | ports/libsha1/libsha1.c:110-126 | bytes go to the buffer, a full buffer into the state |
| Sha1.Context.HashRest | ports/libsha1/libsha1.c:128-136 | whole blocks go into the state, the rest into the buffer |
| Sha1.Context.Hash | ports/libsha1/libsha1.c:105-137 | the data is appended to the message the context stands for |
| Sha1.PadTail | ports/libsha1/libsha1.c:139-160 | the padding of section 5.1.1 is one block or two, by the room that is left |
| Sha1.Context.End | ports/libsha1/libsha1.c:139-167 | the state of the padded message, as bytes |
| Sha1.Sha1 | ports/libsha1/libsha1.c:95-167 | for every chunking: the digest FIPS 180-4 defines for the concatenation |
| Paths.NextSegment | src/vfs.c:66-85 | the next component, or none, or one that is too long |
| Paths.SegmentsJoin | src/vfs.c:166-191 | splitting a printed path gives its components back |
| Paths.PathPush | ports/newlib/openhobbyos/compat_fs.c:38-63 | appends the component exactly if the result fits |
| Paths.CutAtSlash | ports/newlib/openhobbyos/compat_fs.c:115-123 | cutting at the last slash drops the last component, not above the root |
| Paths.Normalize | ports/newlib/openhobbyos/compat_fs.c:65-131 | the normal form, and success exactly if every component and every intermediate path fits |
| Paths.NormalIdempotent | ports/newlib/openhobbyos/compat_fs.c:65-131 | a normal path is its own normal form |
| Paths.NormalAccepted | ports/newlib/openhobbyos/compat_fs.c:65-131 | what was produced is accepted again, unchanged |
| Paths.NormalShorter | ports/newlib/openhobbyos/compat_fs.c:65-131 | normalising never lengthens an absolute path |
| Vfs.GrownTree | src/vfs.c:193-210 | a new node keeps the sibling lists right and the tree well formed |
| Vfs.FileSystem.FindChild | src/vfs.c:212-221 | the child of that name, or none |
| Vfs.FileSystem.FindOrCreate | src/vfs.c:223-231 | the child of that name, made if it was not there; the tree stays in order if and only if the name is neither "." nor ".." |
| Vfs.FileSystem.Mkdir | src/vfs.c:503-531 | makes every component that is missing, literally; the tree stays in order if and only if none is "." or ".."; 0 exactly when the path does not end in a slash and the last component was not there |
| Vfs.DotDirectory | src/vfs.c:503-531 | a failing input: mkdir "/." |
| Vfs.NamesUnique | src/vfs.c:212-221 | the names from the root determine a node, whatever they are |
| Vfs.FileSystem.Resolve | src/vfs.c:467-501 | the node the components lead to, nothing exactly if they lead nowhere, panic only on a component of 64 characters |
| Vfs.FileSystem.BuildPath | src/vfs.c:166-191 | the path of the node, cut off at the end of the buffer |
| Vfs.FileSystem.PathAndBack | src/vfs.c:541-548 | resolving the printed path gives the node back if and only if the path fits the buffer |
| Vfs.TooDeep | src/vfs.c:166-191 | a failing input: four names of 63 characters, whose path of 256 loses its end |
| Vfs.NamesLead | src/vfs.c:467-501 | the names from the root lead to the node |
| Vfs.LeadNames | src/vfs.c:467-501 | and to no other node |
| Vfs.NormalLeads | ports/newlib/openhobbyos/compat_fs.c:65-131 | a path that resolves leads to the same node when normalised |
| Vfs.NormalizeAndResolve | ports/newlib/openhobbyos/compat_fs.c:65-131 | normalising and then resolving an absolute path gives the node the path itself resolves to |
| Division.Normalize | src/compiler_rt.c:18-20 | the shift that brings the divisor to the top bit without losing one |
| Division.LevelDown | src/compiler_rt.c:22-30 | one subtraction step; the quotient bit is not yet set |
| Division.UDivMod | src/compiler_rt.c:10-34 | quotient and remainder for every 64-bit pair, 0 and 0 for division by zero |
| Division.Divide | src/syscall.c:37-56 | floor(a / d) modulo 2^32, 0 for a zero divisor |
| Division.FindFirstSet | src/compiler_rt.c:53-64 | one more than the number of trailing zero bits, 0 for 0 |

## Left out

- KernelHeap.Heap.Krealloc: requests for which the old contents do not fit the block found (`KernelHeap.FitsExactly` says which) are excluded; what the copy does then is `KernelHeap.Overrun`, and what the heap does afterwards, or a copy that leaves the managed memory, is not modelled.
- XnxFraming.Connection.SendAll: a peer that never takes the rest is the outcome `Stuck` when the given attempts end, where the source goes on trying.
- UserStack.Builder.PushBytes: the sum USER_BASE + length is taken without 32-bit wrap-around; the strings come from buffers of 256 bytes.
- Painting.Clip: sides of 2^30 pixels or more, for which there can be no image in a 32-bit address space, are excluded.
- Compositor.Server.SetGeometry: likewise, `image` is never true for such sides.
- AddressSpaces.Paging.AllocUserPage: addresses between the user range and the kernel half are excluded; `AddressSpaces.Paging.PageMap` says what mapping there does.
- Streams.PeekSendRead: no other reader is asleep on the endpoint beforehand.
- XnxUpload.HandleWrite: takes the rows of the rectangle as they are; from the bytes of a message it is `XnxPayload.HandleBuffer`.
- XnxUpload.Upload: rows of 2^30 pixels or more, which do not fit into a 32-bit address space, are excluded.
- Processes.Kernel.SpawnChild: loading the executable is a parameter; every failure is one negative result.
- Streams.Endpoint.Accept: the ENOTCONN and socket type checks, and kmalloc failure, which the flag `copied` stands for together with a failed copy.
- A heap of two regions, where the merge joins list neighbours that are not adjacent in memory, and kmalloc_aligned, whose results kfree does not recognise.
- AddressSpaces.Paging.CowFault: the copy is made without the temporary kernel mapping of the handler (src/paging.c:627). Its table takes a further frame at the first fault, which is not counted, and its failure for want of one is not modelled.
- AddressSpaces.Paging.UserWrite: likewise.
- Kernel stores into user pages, which bypass copy-on-write because CR0.WP is not set, are a step of their own (`CopyOnWrite.KernelStore`) and not among the events of a run.
- Demand-zero pages, page_map_existing, page_unmap (which never clears the entry) and TLB maintenance.
- The registers, descriptors and FPU state of a slot, apart from the return value in eax; reference counts of sockets and pipes.
- The wrap-around of next_pid, next_surface_id and next_z_order.
- Signals to a process that waits; the bound on waiting when slots fail validation.
- Page allocation and contents behind mmap and brk, beyond whether the pages could be had.
- The twelve fixed environment strings, PWD and the fallback program path; any lists of strings are covered.
- Listening sockets, connection set-up and passing of descriptors.
- XnxPayload.HandleBuffer: stops at the first row outside the payload, where the source copies whatever memory is there.
- XnxPayload.HandleBytes: a pixel write is only accepted or refused here; the pixels are `XnxPayload.HandleBuffer`.
- Titles, key events and the display info message of the compositor, which touch no table.
- Clearing the SHA-1 context at the end.
- The cached path string of a node, relative paths in oh_normalize_path, and the ext2 and ramfile back ends.
- Drivers, interrupt set-up, the shell, the network stack and other foreign code.
