# A verified model of the kernel's cores

A Dafny model of the hard parts of a small i386 kernel and its C library, with proofs about them. `dafny verify dfyconfig.toml` checks everything.

| file | what it holds |
|---|---|
| `Words.dfy`, `LittleEndian.dfy`, `Options.dfy` | machine words with explicit wrap-around, fields in bytes, missing results |
| `Division.dfy`, `Printf.dfy` | 64-bit division from a 64-by-32-bit instruction, and the number printer on top of it |
| `HeapSpec.dfy`, `HeapMemory.dfy`, `HeapGrowth.dfy`, `Heap.dfy`, `HeapRuns.dfy`, `HeapLaws.dfy` | malloc, free and realloc: chunk lists, boundary tags in byte memory, growth over the page allocator, the code, whole histories, and exact sizes, places and bytes |
| `SchedulerSpec.dfy`, `SchedulerRuns.dfy`, `SchedulerWaiting.dfy`, `SchedulerContexts.dfy`, `SchedulerLaws.dfy`, `Scheduler.dfy` | the scheduler as a state machine, its runs, waiting times, saved contexts and order over runs, and the linked-list code that refines it |
| `Multiboot.dfy`, `Frames.dfy`, `PageTables.dfy`, `PageRuns.dfy`, `PageSteps.dfy`, `PageAllocator.dfy` | the boot memory map, the page list threaded through free pages, the two-level table against a flat map, histories, single writes, and the code |
| `RingBuffer.dfy` | the ring buffer, and its producer/consumer protocol at the grain of check, copy and publish |
| `Strtok.dfy`, `TarSpec.dfy`, `TarLaws.dfy`, `Tarfs.dfy` | the tokenizer, ustar archives, their names and trees, mounting, path walks and reading |
| `Stacks.dfy` | stack slots and the control block address |

How the parts fit together:

- Code that updates memory in place is a class or a method proved against a function or a state machine on values (`Scheduler` against `SchedulerSpec.Step`, `Heap` against `Allocated` and `Released`, `PageAllocator` against `Mapped` and `Unmapped`, `Vfs` against `Build`). What holds in every run is proved about those.
- The heap is generic in alignment and marker sizes; heap memory is bytes, and the invariant says which tags stand where.
- Archives are described without reference to the code: `ArchiveAt` says what bytes an archive of given headers has, `Build` which tree it stands for.

Where code and documentation disagree, the model follows the code:

- `mm_unmap_page` is documented to return the physical address; line 184 of `page_allocator.c` uses `&&`, so it returns 1 for every mapped page.
- `!pte & 1` on line 149 of `page_allocator.c` accepts only a raw entry of 0, so a page that was unmapped is refused until its table is released.
- `realloc(ptr, 0)` returns NULL and does not free.
- `vn_open` rejects a trailing slash with the remark that directories cannot be opened, but opens a directory named without one; reads from it fail, and still advance the position.
- `malloc(0)` is NULL, so an archive with an empty regular file does not mount.
- The guard of the digit loop in `printf_u` comes one round too late to stop a write past the buffer; no call in the repository asks for a base below 8, where that could happen.

Assumptions: each call of the heap and page functions is one atomic step, as their locks intend; creating a thread is one atomic step (scheduler.c:105 demands it, although `nexttid` re-enables interrupts early); free and realloc get live blocks; the page below the self-map, the first of the bootstrap stack, stays mapped; boot-time page tables lie in the kernel image.

## Model

| member | source | states |
|---|---|---|
| `HeapRuns.ReachableListOk` | libk/src/all/stdlib/malloc.c:57-177 | In every heap reachable by allocations and releases the chunks tile [heap_start, heap_end) exactly, are aligned, and no two neighbours are free. |
| `HeapRuns.ReachableNonEmpty` | libk/src/all/stdlib/malloc.c:57-139 | None of them is empty, unless a request wrapped to 0. |
| `HeapRuns.LiveIsOutstanding` | libk/src/all/stdlib/malloc.c:57-177 | Over every history the chunks not marked free are exactly the blocks handed out and not given back; when none is outstanding the heap is empty or one free chunk that covers it. |
| `HeapRuns.AllocLive` | libk/src/all/stdlib/malloc.c:86-138 | An allocation adds exactly one block to the live ones, and that block was not live before. |
| `HeapRuns.ReleaseLive` | libk/src/all/stdlib/malloc.c:157-174 | A release removes exactly the freed block from the live ones, whichever neighbours it merges with. |
| `HeapRuns.WalkFindsChunks` | libk/src/all/stdlib/malloc.c:72-84 | Walking the start markers in memory from heap_start finds exactly the chunks of the invariant and stops exactly at heap_end. |
| `HeapRuns.BackwardStep` | libk/src/all/stdlib/malloc.c:165-170 | The step back over the end marker in front of a chunk finds an intact canary and reaches the true predecessor. |
| `Heap.Heap.Malloc` | libk/src/all/stdlib/malloc.c:57-139 | For every 32-bit size: NULL exactly for 0; panic exactly when the page allocator has no page or cannot map one; lost exactly when the size with its markers wraps or a page table is needed with no page left; otherwise an aligned block, the determined chunk list, the heap invariant, and every live payload unchanged byte for byte. The block is large enough if and only if the size is at most 2^32 less the alignment. |
| `Heap.Heap.FindBest` | libk/src/all/stdlib/malloc.c:71-84 | The scan with early exit returns the lowest-addressed among the smallest sufficient free chunks of the whole heap, or says that none fits. |
| `Heap.Heap.UseFit` | libk/src/all/stdlib/malloc.c:86-99 | Cutting the request out of the best fit, with or without a split, keeps the heap invariant and all live payloads. |
| `Heap.Heap.ExtendHeap` | libk/src/all/stdlib/malloc.c:113-125 | The growth loop, over the page allocator, ends and stops at the least number of pages that fits the request; it fails exactly where the page-by-page growth of the address space fails. |
| `Heap.Heap.AddPage` | libk/src/all/stdlib/malloc.c:116-124 | One round takes a zeroed page, maps it at the end of the heap and keeps the heap mapped below the bootstrap stack; it panics exactly without a page or when the address is taken. |
| `HeapGrowth.GrowsExactly` | libk/src/all/stdlib/malloc.c:113-125 | Growing by k pages succeeds if and only if none of the addresses is mapped or refused and there is a free page for each and for every page table that has to be opened. |
| `HeapGrowth.GrowKinds` | libk/src/all/stdlib/malloc.c:116-124 | How one page more can fail, and what it takes from the free list and maps when it does not. |
| `Heap.Heap.GrowAndUse` | libk/src/all/stdlib/malloc.c:100-138 | Growth absorbs a free last chunk, takes the least number of pages, and keeps the heap invariant and all live payloads; it panics exactly when that growth does. |
| `Heap.Heap.MarkChunk` | libk/src/all/stdlib/malloc.c:48-55 | The memory after the four marker writes is the memory with that chunk tagged. |
| `HeapMemory.MarkedTagged` | libk/src/all/stdlib/malloc.c:48-55 | After marking, both markers carry size, state and canary, and nothing outside the chunk has changed. |
| `Heap.Heap.Free` | libk/src/all/stdlib/malloc.c:141-177 | free(NULL) does nothing; freeing a live block merges it with its free neighbours, never panics on a canary, keeps the heap invariant and every other live payload. |
| `Heap.FreeInstalled` | libk/src/all/stdlib/malloc.c:157-174 | Tagging the merged chunk with all writes inside it preserves invariant, tags and payloads of everything else. |
| `Heap.Heap.Realloc` | libk/src/all/stdlib/malloc.c:179-196 | realloc to 0 returns NULL and changes nothing; to another size it gives a block with the first min(old, new) bytes, releases the old block and keeps every other payload; it is lost exactly when malloc is or the copy would run over the new block. |
| `Heap.Heap.Store` | libk/src/all/stdlib/malloc.c:18-25 | A user's write inside a live block changes that byte and keeps the heap invariant and every other payload. |
| `Heap.LiveKeptTrans` | libk/src/all/stdlib/malloc.c:57-196 | Payload preservation composes over consecutive calls. |
| `HeapSpec.AlignedSizeLeast` | libk/src/all/stdlib/malloc.c:40-43 | The aligned size is the least multiple of the alignment not below the request. |
| `HeapSpec.AlignedSizeWraps` | libk/src/all/stdlib/malloc.c:40-43 | In 32 bits the aligned size falls below the request exactly for requests within one alignment of 2^32, and is then 0. |
| `HeapSpec.ChunksDisjoint` | libk/src/all/stdlib/malloc.c:48-55 | Distinct chunks never overlap. |
| `HeapSpec.ChoiceUnique` | libk/src/all/stdlib/malloc.c:71-125 | Best fit or page count are determined by the heap and the request alone. |
| `HeapSpec.AllocatedOk` | libk/src/all/stdlib/malloc.c:86-138 | Split and growth keep the list invariant, in particular no two free neighbours. |
| `HeapSpec.ReleasedOk` | libk/src/all/stdlib/malloc.c:157-174 | Two-sided coalescing keeps the list invariant, in particular no two free neighbours. |
| `HeapSpec.AllFreeIsOne` | libk/src/all/stdlib/malloc.c:157-174 | A heap without live blocks is a single free chunk from start to end. |
| `HeapLaws.BlockSizeExact` | libk/src/all/stdlib/malloc.c:86-135 | The block has exactly the padded size when the hole has room for one more chunk; otherwise it is the whole hole, which exceeds the request by at most one pair of markers. |
| `HeapLaws.FitIsLeast` | libk/src/all/stdlib/malloc.c:71-84 | A block from a free chunk comes from the lowest-addressed among the smallest that are large enough. |
| `HeapLaws.GrowthIsLeast` | libk/src/all/stdlib/malloc.c:100-125 | The heap grows only when no free chunk is large enough, by the least number of pages beside the free chunk at its end. |
| `HeapLaws.BlockPlace` | libk/src/all/stdlib/malloc.c:101-112 | A block from a grown heap starts at the free chunk at its end, or at the old end if there is none. |
| `HeapLaws.AllocationConserves` | libk/src/all/stdlib/malloc.c:86-138 | The free bytes after an allocation are those before plus the new pages, less exactly the block with its markers. |
| `HeapLaws.ReleaseConserves` | libk/src/all/stdlib/malloc.c:157-174 | A release adds exactly the block with its markers to the free bytes. |
| `HeapLaws.BytesCovered` | libk/src/all/stdlib/malloc.c:18-25 | Free and live bytes together are all bytes of the heap. |
| `HeapLaws.KeptBytes` | libk/src/all/stdlib/malloc.c:57-177 | Keeping a live block means keeping each of its bytes at its address. |
| `HeapLaws.MovedBytes` | libk/src/all/stdlib/malloc.c:190-191 | Moving bytes means that every byte below both sizes arrives. |
| `HeapMemory.MarkedFields` | libk/src/all/stdlib/malloc.c:48-55 | The four fields of a marked chunk in numbers, canary included. |
| `SchedulerRuns.ReachableSafe` | kernel/src/arch/i386/sched/scheduler.c:59-200 | In every reachable state run ring, sleep queue, doomed list and reaped tasks are duplicate-free, disjoint and together exactly the tasks ever created; a reaped task never runs again. |
| `SchedulerRuns.SleepsExactly` | kernel/src/arch/i386/sched/scheduler.c:128-200 | A task parked for ms > 0 is asleep after fewer than ms ticks and back in the ring right after the ms-th, whatever else is parked, woken, killed or spawned in between. |
| `SchedulerRuns.InsertWake` | kernel/src/arch/i386/sched/scheduler.c:167-199 | Delta insertion gives the new sleeper its own time and leaves the wake time of every other sleeper unchanged. |
| `SchedulerRuns.TickWake` | kernel/src/arch/i386/sched/scheduler.c:130-138 | A tick takes one ms off every sleeper and wakes exactly those with one left; nobody has less than one before it. |
| `SchedulerRuns.RoundRobin` | kernel/src/arch/i386/sched/scheduler.c:59-148 | While only ticks happen and none wakes a sleeper, the ring is served in order, each task for exactly its quantum. |
| `SchedulerRuns.NoStarvation` | kernel/src/arch/i386/sched/scheduler.c:140-147 | In that case every ring task runs within the sum of the ring priorities. |
| `SchedulerWaiting.WaitExact` | kernel/src/arch/i386/sched/scheduler.c:107-148 | Over any run, a ring task that has not run yet gets the CPU in exactly the first state in which the ticks used up make good its first wait and the priorities of everyone spawned or woken since. |
| `SchedulerWaiting.WaitStep` | kernel/src/arch/i386/sched/scheduler.c:107-200 | The account of one event: the wait of a ring task changes by exactly what arrives in front of it less the ticks used up. |
| `SchedulerWaiting.WaitBound` | kernel/src/arch/i386/sched/scheduler.c:107-148 | Hence it waits for fewer ticks than the priorities of the ring and of all arrivals; without arrivals, than those of the ring. |
| `SchedulerWaiting.Starvation` | kernel/src/arch/i386/sched/scheduler.c:107-113 | Because insertion is behind the running task, with arrivals there is no bound: for every n there is a run of n ticks in which tasks that spawn and exit keep a ring task from running. |
| `SchedulerLaws.QuantumExact` | kernel/src/arch/i386/sched/scheduler.c:71-77 | Whoever is switched in gets exactly its priority in ticks, a lone task that yields included; a tick that does not switch takes one. |
| `SchedulerLaws.TickRing` | kernel/src/arch/i386/sched/scheduler.c:107-147 | The ring after a tick: sleepers that wake come right behind the running task, the last of the queue first; a used-up task goes to the end; an idle CPU goes to the first to wake. |
| `SchedulerLaws.EventRing` | kernel/src/arch/i386/sched/scheduler.c:107-200 | The ring after a yield, a sleep, an exit and a spawn. |
| `SchedulerLaws.SleepersOrder` | kernel/src/arch/i386/sched/scheduler.c:180-199 | A new sleeper comes behind all that wake before it and in front of all others, ties included. |
| `SchedulerLaws.ExitIsFinal` | kernel/src/arch/i386/sched/scheduler.c:288-295 | Over any run, a task that exits never runs or sleeps again, and the next tick gives it back. |
| `SchedulerLaws.EachInOnePlace` | kernel/src/arch/i386/sched/scheduler.c:59-200 | The invariant task by task: in one place only, and there once. |
| `SchedulerContexts.ResumesAsLeft` | kernel/src/arch/i386/sched/scheduler.c:59-86 | Over any run, a task (or idle) that leaves the CPU and gets it back resumes in exactly the context it was interrupted in. |
| `SchedulerContexts.ResumesLastContext` | kernel/src/arch/i386/sched/scheduler.c:59-86 | Over any run, whoever has the CPU after an interrupt, having lost it or not, goes on in exactly the context of its own last interrupt, that one included. |
| `SchedulerContexts.StaysPut` | kernel/src/arch/i386/sched/scheduler.c:60-85 | An interrupt that switches nothing returns to exactly where it came from. |
| `SchedulerContexts.StartsAsCreated` | kernel/src/arch/i386/sched/scheduler.c:71-77 | A new task starts in exactly the context it was created with. |
| `SchedulerSpec.StepKeepsInv` | kernel/src/arch/i386/sched/scheduler.c:59-200 | Every event keeps the invariant; tasks are never lost, only a spawn adds one, only a tick reaps, and it reaps exactly the doomed. |
| `SchedulerSpec.TickKeepsInv` | kernel/src/arch/i386/sched/scheduler.c:128-148 | The tick keeps the invariant: first delta at least 1, running task with at least 1 tick left, idle exactly when the ring is empty. |
| `SchedulerSpec.InsertSleeperShape` | kernel/src/arch/i386/sched/scheduler.c:176-199 | The new sleeper lands at the position the search loop stops at; all others keep their order. |
| `Scheduler.Scheduler.Irq0` | kernel/src/arch/i386/sched/interrupts.S:34-47 | The timer interrupt on linked tasks is exactly the tick of the state machine, keeps all links sound, saves the context of whoever leaves the CPU, idle included, restores the one saved for whoever gets it, and touches no other. |
| `Scheduler.Scheduler.Int50` | kernel/src/arch/i386/sched/interrupts.S:50-60 | Sleeping or yielding on linked tasks is exactly the park step, with the contexts saved and restored as above. |
| `Scheduler.Scheduler.Int51` | kernel/src/arch/i386/sched/interrupts.S:63-73 | Exiting on linked tasks is exactly the kill step, with the contexts saved and restored as above. |
| `Scheduler.Scheduler.NewThread` | kernel/src/arch/i386/sched/scheduler.c:278-286 | A new thread joins the ring right behind its creator: the spawn step. |
| `Scheduler.Scheduler.constructor` | kernel/src/arch/i386/sched/scheduler.c:304-322 | The boot flow becomes the only task, an initial state of the runs above, with a separate idle context; the previous link of a ring of one is not relied on. |
| `Scheduler.Scheduler.SwitchNextTask` | kernel/src/arch/i386/sched/scheduler.c:59-86 | The CPU goes to the head of the ring or idles exactly when the ring is empty; a stale switched_task is never used; contexts are saved and restored for the right task. |
| `Scheduler.Scheduler.MsTick` | kernel/src/arch/i386/sched/scheduler.c:128-148 | Clean-up, wake-ups and charge together decide exactly the state the tick specifies; the decrements never wrap. |
| `Scheduler.Scheduler.WakeDue` | kernel/src/arch/i386/sched/scheduler.c:134-138 | The wake-up loop moves exactly the leading zero deltas into the ring, one behind the running task after the other. |
| `Scheduler.Scheduler.CleanupDoomedTasks` | kernel/src/arch/i386/sched/scheduler.c:88-102 | Releases exactly the doomed tasks, newest first, and empties the list. |
| `Scheduler.Scheduler.PutInScheduleRing` | kernel/src/arch/i386/sched/scheduler.c:107-125 | Inserts behind the running or the just switched-in task, or starts a new ring; both link directions stay consistent. |
| `Scheduler.Scheduler.RemoveFromScheduleRing` | kernel/src/arch/i386/sched/scheduler.c:154-165 | Takes the head out of the ring, keeps both link directions of the rest and names its successor. |
| `Scheduler.Scheduler.ParkTask` | kernel/src/arch/i386/sched/scheduler.c:167-200 | Yield rotates the ring, sleep moves the task to its place in the delta queue. |
| `Scheduler.Scheduler.FindSlot` | kernel/src/arch/i386/sched/scheduler.c:180-185 | The search loop finds the one place where the delta list stays correct, and what is left to wait there. |
| `Scheduler.Scheduler.KillTask` | kernel/src/arch/i386/sched/scheduler.c:288-295 | The running task goes from the ring to the top of the doomed list. |
| `Division.Udiv64` | libk/src/arch/i386/arithmetic.c:83-127 | For every 64-bit n and non-zero d the result is the floor of n / d; neither use of the DIV instruction can trap. |
| `Division.EstimateOffByOne` | libk/src/arch/i386/arithmetic.c:116-124 | Dividing by the normalised, truncated divisor gives the true quotient or one more. |
| `Division.Correction` | libk/src/arch/i386/arithmetic.c:124-124 | The final comparison never underflows and is true exactly when the estimate is one too large. |
| `Division.UdivSmall` | libk/src/arch/i386/arithmetic.c:109-114 | For a 32-bit divisor the two partial quotients add up to the floor. |
| `Division.Nlz` | libk/src/arch/i386/arithmetic.c:52-79 | For every non-zero x the result shifts its top bit to position 31. |
| `Division.Divl` | libk/src/arch/i386/arithmetic.c:38-48 | The instruction gives the floor when the quotient fits 32 bits. |
| `Division.Umod64` | libk/src/arch/i386/arithmetic.c:131-133 | The remainder reduced to 32 bits; exact if and only if it fits, hence for d up to 2^32. |
| `Division.Sdiv64` | libk/src/arch/i386/arithmetic.c:137-142 | C truncated division if and only if the operands are not INT64_MIN and -1: the quotient of the magnitudes with the sign of the operands. |
| `Division.Smod64` | libk/src/arch/i386/arithmetic.c:146-148 | The remainder of truncated division reduced to 32 signed bits; exact if and only if it fits, hence for |d| up to 2^31. |
| `Division.FloorUnique` | libk/src/arch/i386/arithmetic.c:85-108 | The floor is determined by its bounds. |
| `Printf.PrintfU` | libk/src/all/stdio/printf.c:12-42 | For every value and base: panics exactly above base 16, traps exactly for base 0 and a value above 0, writes past its buffer exactly for values of base^22 or more; otherwise prints digits of the asked case and base that evaluate to the value, without leading zeros, at most 22, and returns their number. |
| `Printf.FillReversed` | libk/src/all/stdio/printf.c:23-35 | The digit loop fills the buffer with the digits, least significant first; it reaches the 23rd write, which its own guard lets through, if and only if the value is base^22 or more. |
| `Printf.FitsFromOctal` | libk/src/all/stdio/printf.c:71-91 | From base 8 on, and printf only asks for 8, 10 and 16, every 64-bit value is below base^22. |
| `Printf.OverrunBelowOctal` | libk/src/all/stdio/printf.c:23-35 | Below base 8 the largest 64-bit value is not, so some call overruns. |
| `Printf.NumeralUnique` | libk/src/all/stdio/printf.c:12-42 | There is only one such numeral, so the output is determined by value and base. |
| `Printf.EvalDigits` | libk/src/all/stdio/printf.c:27-35 | What a numeral evaluates to, digit by digit. |
| `Tarfs.ReadBack` | kernel/src/all/kernel/vfs.c:70-149 | For every well-formed archive, mounting it, opening any of its regular files by its path from the root or from the current directory, and calling fgetc until EOF yields exactly the bytes of that file. |
| `Tarfs.Vfs.Mount` | kernel/src/all/kernel/vfs/tarfs.c:247-294 | For every archive, mount succeeds, fails or corrupts memory exactly when building its tree does; on success the vnodes stand for exactly that tree. Of listings with distinct paths and parents first it refuses exactly those with an empty regular file. |
| `Tarfs.Vfs.MountEntry` | kernel/src/all/kernel/vfs/tarfs.c:266-291 | One round adds exactly the entry of its header, fails for a bad magic, a missing parent, another type or an empty file, or takes a regular file for the parent directory. |
| `TarSpec.ListingMounts` | kernel/src/all/kernel/vfs/tarfs.c:247-294 | A listing without empty files mounts, and its tree has the root and exactly one node per entry with its content. |
| `TarSpec.MountsIffNoEmptyFile` | kernel/src/all/kernel/vfs/tarfs.c:121-144 | A listing mounts if and only if it has no empty regular file, because malloc(0) is NULL, and never corrupts memory. |
| `TarSpec.BuildStops` | kernel/src/all/kernel/vfs/tarfs.c:265-290 | Once a header has stopped the mount no later header changes the outcome. |
| `TarSpec.BuildOk` | kernel/src/all/kernel/vfs/tarfs.c:265-292 | Whatever the archive, in the mounted tree every path hangs below a directory. |
| `TarLaws.TreeExact` | kernel/src/all/kernel/vfs/tarfs.c:146-162 | The tree of any archive that mounts: a path is there exactly when some header is the last word on it, and is what that header says. |
| `TarLaws.RoundExact` | kernel/src/all/kernel/vfs/tarfs.c:265-292 | One round of mount by the fields of the header: types, magic, parent and empty content. |
| `TarLaws.MountedOnly` | kernel/src/all/kernel/vfs/tarfs.c:266-291 | Every header of an archive that mounts is a valid one of a non-empty file or a directory. |
| `TarLaws.UstarFields` | kernel/src/all/kernel/vfs/tarfs.c:41-69 | Where the fields of a header stand, as the ustar format has them. |
| `TarLaws.SpanLeast` | kernel/src/all/kernel/vfs/tarfs.c:79-86 | A header and its content take the least whole number of 512-byte blocks. |
| `TarLaws.OctalAppend` | kernel/src/all/kernel/vfs/tarfs.c:71-77 | Octal numbers, digit by digit. |
| `TarLaws.SegmentsMeaning` | kernel/src/all/kernel/vfs/tarfs.c:165-193 | The path of any name, empty segments included: less one slash at its end, the name is the joined path, or, if it still ends in one, the joined parent, a slash, and the last segment again. |
| `TarSpec.JoinedName` | kernel/src/all/kernel/vfs/tarfs.c:165-193 | A path without empty segments is the path of its joined name, with or without a slash behind. |
| `TarSpec.SegmentsOfJoin` | kernel/src/all/kernel/vfs/tarfs.c:174-189 | For such names the segments lookup_parent goes through are the tokens strtok_r finds. |
| `Tarfs.LookupParent` | kernel/src/all/kernel/vfs/tarfs.c:165-193 | For every name, with empty segments or not, the result is the vnode of the parent path and the new name; it fails exactly when the parent is not in the tree. |
| `Tarfs.NodeLookup` | kernel/src/all/kernel/vfs/tarfs.c:205-220 | The first entry of that name, or failure for files and unknown names. |
| `Tarfs.Vfs.AddToDir` | kernel/src/all/kernel/vfs/tarfs.c:146-162 | The new entry shadows an older one of the same path with everything below it; all other paths stay. |
| `Tarfs.ReadOctal` | kernel/src/all/kernel/vfs/tarfs.c:71-77 | The 32-bit result for whatever text the field holds. |
| `TarSpec.OctalWordExact` | kernel/src/all/kernel/vfs/tarfs.c:71-77 | On octal digits that result is their value whenever the value is below 2^31. |
| `Tarfs.NextHeaderSpans` | kernel/src/all/kernel/vfs/tarfs.c:79-86 | The next header follows the content rounded up to whole blocks, the least number of them. |
| `Tarfs.Vfs.VnOpen` | kernel/src/all/kernel/vfs.c:70-129 | Opening fails exactly for an empty path, a trailing slash, or segments that name no vnode below root or current directory; it panics exactly when all slots of the open-file table are taken; otherwise the handle is for that vnode, at position 0, in the first free slot. |
| `Tarfs.Vfs.WalkPath` | kernel/src/all/kernel/vfs.c:81-107 | The token loop reaches the vnode of the path, or fails exactly when there is none. |
| `Tarfs.Vfs.ResolveNames` | kernel/src/all/kernel/vfs.c:81-106 | A joined name resolves from the root behind a slash, and from the current directory without one. |
| `Tarfs.Vfs.PutFileHandle` | kernel/src/all/kernel/vfs.c:31-52 | The handle goes to the first free slot; none exactly when all are taken. |
| `Tarfs.Vfs.RemoveFileHandle` | kernel/src/all/kernel/vfs.c:54-68 | The slot of the handle is freed; panic exactly when it is in none. |
| `Tarfs.CloseUndoesOpen` | kernel/src/all/kernel/vfs.c:115-137 | Closing a file undoes its opening in the table and loses no other handle. |
| `Tarfs.WalkFails` | kernel/src/all/kernel/vfs.c:98-106 | A lookup that fails cannot be saved by further segments. |
| `Tarfs.FileHandle.VnRead` | kernel/src/all/kernel/vfs.c:139-149 | A read returns the next bytes of the file, as many as asked or all that are left, and advances by their number; on a directory it fails and still advances. |
| `Tarfs.FileHandle.Fgetc` | libk/src/all/stdio/fgetc.c:3-18 | The next byte, or EOF with the end or the error flag set; on a directory the position still advances. |
| `Tarfs.FileHandle.ReadToEof` | libk/src/all/stdio/fgetc.c:3-18 | Reading until EOF yields the rest of the file. |
| `Strtok.StrtokR` | libk/src/all/string/strtok_r.c:3-22 | One call returns the next run of non-delimiters as a C string, overwrites at most the delimiter behind it and leaves a valid string to go on with; after the last token it returns NULL for ever. |
| `Strtok.TokenizeAll` | libk/src/all/string/strtok_r.c:3-22 | Repeated calls until NULL return the tokens of the original string in order, all still readable as strings, and overwrite delimiters only. |
| `Strtok.TokensAreMaximalRuns` | libk/src/all/string/strtok_r.c:7-21 | The tokens are exactly the maximal delimiter-free runs. |
| `Strtok.TokensIncrease` | libk/src/all/string/strtok_r.c:7-21 | They come in order and do not touch. |
| `Strtok.TokensOfJoin` | kernel/src/all/kernel/vfs.c:93-106 | For paths without empty segments splitting at slashes gives back the segments that were joined. |
| `Strtok.TextsOfTokens` | kernel/src/all/kernel/vfs.c:97-106 | The path segments the walk uses are the texts of exactly those tokens. |
| `Strtok.FirstSegment` | kernel/src/all/kernel/vfs/tarfs.c:174-189 | The segment lookup_parent reads next is the token strtok_r returns next. |
| `PageAllocator.PageAllocator.MapPage` | kernel/src/arch/i386/mm/page_allocator.c:139-169 | Refuses exactly address 0 and slots whose raw entry is not 0; otherwise writes one entry, address + 3, in the table that is there or in a new one from the free list, and so adds exactly one binding to the flat map. If and only if a table is needed and no page is left, physical page 0 becomes the table and the invariant is lost; the flat map is then still right if and only if page 0 was empty. |
| `PageAllocator.PageAllocator.UnmapPage` | kernel/src/arch/i386/mm/page_allocator.c:174-205 | Clears one entry and so removes exactly one binding, gives the table page back exactly when it serves no other page, and returns 1, not the address, for every mapped page. |
| `PageTables.PresentIffMapped` | kernel/src/arch/i386/mm/page_allocator.c:189-201 | A directory entry is present if and only if some page under it is mapped. |
| `PageTables.RemapRefused` | kernel/src/arch/i386/mm/page_allocator.c:149-149 | An unmapped page is refused until its table is released: if and only if the table still serves another page. |
| `PageTables.TablesGiveSpaceOk` | kernel/src/arch/i386/mm/page_allocator.c:185-201 | Every refused unmapped slot shares its table with a mapped page. |
| `PageTables.PageIndexSplits` | kernel/src/arch/i386/mm/page_allocator.c:26-34 | The two indices are in range and together are the page number. |
| `PageRuns.BindingLasts` | kernel/src/arch/i386/mm/page_allocator.c:139-205 | Over any history of maps and unmaps a binding keeps its physical page until it is unmapped itself. |
| `PageRuns.RefusedWhileShared` | kernel/src/arch/i386/mm/page_allocator.c:146-156 | Over any history an unmapped page stays refused for as long as its table serves any page. |
| `PageRuns.PagesConserved` | kernel/src/arch/i386/mm/page_allocator.c:104-134 | Over any history of takes and gives, which is what the allocator methods are proved to be, the free and the held pages are together the pages there were at the start, none twice. |
| `PageAllocator.PageAllocator.InitPageAllocator` | kernel/src/arch/i386/mm/page_allocator.c:55-79 | Stepping through the bytes of the memory map, threads exactly the usable pages past the kernel and below 4G, in scan order, and establishes the allocator invariant; every boot-time mapping and every page off the list but page 0 is unchanged. |
| `PageAllocator.PageAllocator.AllocPhysicalPage` | kernel/src/arch/i386/mm/page_allocator.c:104-121 | Hands out the head of the list, zeroed if asked, or 0 exactly when the list is empty; one take of the page pool, and no mapping changes. |
| `PageAllocator.PageAllocator.FreePhysicalPage` | kernel/src/arch/i386/mm/page_allocator.c:123-134 | The page becomes the new head: one give of the page pool; if it is held and no table, the invariant and every mapping stay. |
| `PageSteps.TakenPageIsNoTable` | kernel/src/arch/i386/mm/page_allocator.c:104-121 | Writing a page just taken changes no table and no mapping. |
| `PageSteps.GivenPageIsNoTable` | kernel/src/arch/i386/mm/page_allocator.c:123-134 | Giving back a page that is no table changes no table and no mapping. |
| `PageSteps.PageZeroTable` | kernel/src/arch/i386/mm/page_allocator.c:157-165 | With physical page 0 for a table, the map is the intended one if and only if the rest of page 0 is zero. |
| `PageSteps.WordsWritten` | kernel/src/arch/i386/mm/page_allocator.c:146-165 | What a successful map writes: the entry is the page address + 3, a table opened for it is the head of the list with the directory entry + 3, and no other word changes. |
| `PageSteps.WordsCleared` | kernel/src/arch/i386/mm/page_allocator.c:179-201 | What an unmap writes: 2 in the entry, or 2 in the directory entry if it was the last present one, and nothing else outside the table. |
| `Multiboot.MapHead` | kernel/src/arch/i386/mm/page_allocator.c:64-66 | The step by the size field goes through exactly the entries of the map. |
| `Multiboot.EntryRead` | kernel/src/arch/i386/mm/page_allocator.c:64-68 | What the loop reads of an entry is what its bytes say. |
| `LittleEndian.LongIsValue` | kernel/src/arch/i386/mm/page_allocator.c:68-68 | A 64-bit field is the sum of its bytes times the powers of 256, lowest first. |
| `LittleEndian.ValueAppend` | kernel/src/arch/i386/mm/page_allocator.c:68-68 | A byte behind counts 256 to the number of bytes before it. |
| `Frames.ChainUnique` | kernel/src/arch/i386/mm/page_allocator.c:94-134 | The list is a function of memory: acyclic, closed by 0, and no other sequence is threaded from the same head. |
| `Frames.UsablePagesMembers` | kernel/src/arch/i386/mm/page_allocator.c:64-77 | A page is listed if and only if it is aligned, past the kernel, below 4G and in a usable region. |
| `Frames.UsableInOrder` | kernel/src/arch/i386/mm/page_allocator.c:64-77 | The list follows the map region by region, and within a region the addresses. |
| `Frames.ChainLinks` | kernel/src/arch/i386/mm/page_allocator.c:94-118 | The list, link by link: every page leads to the next, the last one to 0, none is there twice. |
| `Frames.UsablePagesNoRepeat` | kernel/src/arch/i386/mm/page_allocator.c:64-77 | Disjoint regions never list a page twice. |
| `RingBuffer.RingBuffer.Put` | kernel/src/all/kernel/ringbuffer.c:16-24 | Appends to the queue, or returns -1 and changes nothing exactly when nb_elems elements wait. |
| `RingBuffer.RingBuffer.Get` | kernel/src/all/kernel/ringbuffer.c:26-34 | Takes the oldest element, or returns -1 and changes nothing exactly when the queue is empty. |
| `RingBuffer.SlotOfWrapped` | kernel/src/all/kernel/ringbuffer.c:6-6 | Wrapping a position at 2^32 keeps its slot when the size divides 2^32. |
| `RingProtocol.StepKeepsInv` | kernel/src/all/kernel/ringbuffer.c:16-34 | Every check, copy or publish step of either side keeps the invariant, with the other side stopped anywhere. |
| `RingProtocol.AlwaysFaithful` | kernel/src/all/kernel/ringbuffer.c:8-34 | With a size that divides 2^32, in every interleaving the consumer sees a prefix of what was accepted and at most nb_elems elements wait. |
| `RingProtocol.LetIn` | kernel/src/all/kernel/ringbuffer.c:8-17 | In every reachable state, whatever the other side is in the middle of, a put is let in exactly when fewer than nb_elems elements wait, and a get exactly when one does. |
| `RingProtocol.PutGoesIn` | kernel/src/all/kernel/ringbuffer.c:16-24 | A put that was let in adds exactly its element to what is accepted, amid any steps of the consumer. |
| `RingProtocol.GetComesOut` | kernel/src/all/kernel/ringbuffer.c:26-34 | A get that was let in takes exactly the oldest element, amid any steps of the producer. |
| `RingProtocol.Unfaithful` | kernel/src/all/kernel/ringbuffer.c:6-24 | With any other size there is an interleaving, across the wrap, in which an unread element is overwritten. |
| `RingProtocol.FaithfulExactly` | kernel/src/all/kernel/ringbuffer.c:6-34 | All interleavings are faithful if and only if the size divides 2^32. |
| `Stacks.FindFreeBit` | kernel/src/arch/i386/mm/stack.c:42-56 | The first 0 bit, and none if and only if all 32 are set. |
| `Stacks.TakeAndGive` | kernel/src/arch/i386/mm/stack.c:84-84 | Setting or clearing a slot bit changes that bit and no other. |
| `Stacks.SlotRecovered` | kernel/src/arch/i386/mm/stack.c:117-121 | mm_free_stack computes slot n from a stack pointer if and only if the pointer is above the slot and not above its end. |
| `Stacks.SlotsDisjoint` | kernel/src/arch/i386/mm/stack.c:95-105 | Slots are aligned 16 KiB blocks and no address is in two of them. |
| `Stacks.BlockAround` | kernel/src/arch/i386/mm/stack.c:105-111 | Every address lies between the first and the last byte of its 16 KiB block. |
| `Stacks.PcbFound` | kernel/src/arch/i386/sched/process.c:3-11 | Masking the stack pointer gives the control block pointer of a slot if and only if the pointer lies in that slot. |
| `Stacks.PcbPlace` | kernel/src/arch/i386/mm/stack.c:105-110 | The control block pointer stands 8 bytes below the end of its 16 KiB slot. |

## Left out

- Heap.Heap.Malloc: says when, but not how, the heap is damaged by a request whose size with one pair of markers wraps at 2^32, or by growth that needs a page table with no page left.
- Heap.Heap.Realloc: the same, and for a copy that runs over a block that came out short.
- Heap.Heap.AddPage: heap bytes are kept apart from the physical pages they lie in.
- Scheduler.Scheduler.NewThread: the filling of the first stack frame is not modelled; a context stands for the saved registers.
- PageAllocator.PageAllocator.MapPage: addresses under the self-map are excluded, and so are physical addresses that are no page address.
- PageAllocator.PageAllocator.InitPageAllocator: memory maps whose regions are not page-aligned, overlap or pass 2^64 are excluded.
- Tarfs.Vfs.Mount: says when, but not how, memory is damaged by an archive in which the parent of an entry is a regular file; images whose size fields do not give the sizes of their entries are no archives here; failing allocations other than the empty file are left out.
- Tarfs.Vfs.VnOpen: the chain of open-file blocks is one table, and the two nested loops over it one loop.
- Directory entry lists are sequences and not linked through `list_head`; update in place of those links is not captured. `list_empty` has no modelled caller.
- Mutexes and semaphores: the spin loops lose the thread id in a register over a yield, so mutual exclusion would have to be assumed.
- The self-map and scratch mappings of the page tables, TLB invalidation and new page directories.
- The bitmap array of stack slots as an object, and page reuse through `mm_free_stack`, which depends on the result of `mm_unmap_page`.
- The idle task's own loop, reclaiming of a reaped task's memory, and the result code of an exit.
- Boot code, interrupt and descriptor tables, timer and interrupt controller set-up.
- Terminal output, keyboard tables, the shell, the `printf` format driver and the plain string functions: they would only add easy members.
