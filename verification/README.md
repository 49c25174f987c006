# LoOS, verified

A Dafny model of the parts of the LoOS kernel whose correctness depends on more than one function at a time,
with proofs. It follows the C code branch by branch: what the code mutates in place is a field or an array that
methods change, its loops are loops with invariants, and every such method is tied to a description of the
state that the theorems are then about.

- **Page memory** (`Bits`, `Mmu`, `PageTable`, `AddressSpace`, `Teardown`, `VirtualMemory`, `Fork`, `UserStack`,
  `Machine`, `MemoryTheorems`, `MemoryRuns`). The page allocator, the three-level page tables with their real
  masks, mapping, translation, copying across address spaces, fork's copy, exec's stack and teardown. Memory is a
  heap of pages at kernel addresses; `Machine.Kernel` is the kernel. A ghost `owner` says who has each page, and
  for a table page which slot of which parent points to it, so that all invariants are local. A process's data
  pages are those on its mapping list, not those its leaves point to: a page mapped twice leaves the earlier frame
  on the list.
- **Processes** (`Process`, `ProcessTheorems`, `ProcessCalls`, `Fairness`, `Waits`, `Slots`, `Scheduler`,
  `TaskRings`). The process table as a state machine whose steps are scheduler iterations and system calls; the kernel
  is not preempted between them. What each step does, the invariant, safety of every run, fairness of round robin and
  liveness of wait4 are proved about it. `Scheduler.ProcTable` is the table in place, with the C routines and the
  scheduler's loops; whole runs of it are runs of the machine. `TaskRings` has the `children` and `tasks` nodes in
  memory and keeps them linked as the machine says through every run.
- **Both together** (`Loader`, `ProcessMemory`). Each request takes its step in the process machine and in the
  kernel's memory: fork with its copy, execve with elf_loader and the new stack or with everything given back, stores
  through a process's own addresses, and the events that touch no page.
- **ext2 reader** (`Disk`, `BlockTree`, `Directory`, `PathLookup`, `SearchEnds`), for 1024-byte blocks. Block
  addressing, file reading, directory search and path resolution, against a file as a list of blocks, a directory as a
  list of entries and a path as a list of names; and when the searches end.
- **Library** (`KList`, `MList`, `QSort`, `Stdio`, `Strings`, `Sequences`, `Wrappers`). Circular lists of nodes, the
  ownership list, in-place quicksort, number printing and parsing, string functions.

`dafny verify dfyconfig.toml` checks the whole project.

What the proofs found where the code differs from its comments or from what one would expect:

- `get_physical_block` reads block 0 when an indirect pointer is missing. That is right for every possible file
  exactly when block 0 holds only zero words (`BlockTree.HolesExactly`). A single file reads right, whatever block 0
  holds, when no block within its size lies behind a missing pointer; holes among the direct blocks never matter
  (`BlockTree.FileReadsRight`, `BlockTree.FileHolesRight`).
- `execve` gives the new image the caller's pid but leaves the caller's slot killed. A parent that waits for that
  slot by pid waits forever (`ProcessTheorems.ExecLeavesDead`, `ProcessTheorems.StrandedForever`), and that state is
  reached from boot: the first program forks, waits for its child, and the child calls `execve`
  (`ProcessTheorems.StrandedReachable`). A parent that waits by pid for a child it has already reaped is stranded in
  the same way, since a reaped slot keeps its pid (`ProcessTheorems.ReapedStrands`), in a state also reached from boot
  (`ProcessTheorems.ReapedReachable`).
- `copy_pagetable` copies a mapping soundly exactly when the mapping starts on a page, below MAXVA (2^47). From an unaligned
  start the page it fills is mapped twice, and the child's second page gets the next frame in memory, which was never allocated to
  it (`MemoryTheorems.CopyOwnFrame`, `Fork.SecondEntry`, `Fork.RecordedFrame`). `alloc_vm` lists such mappings when
  its start is not aligned, and `elf_loader` takes the start from the file's `p_align` unchecked: its segments start
  on pages, whatever their addresses, exactly when `p_align` is at most a page or a multiple of one
  (`MemoryTheorems.SegmentsAligned`). A segment at 0x6000 with that alignment and then a fork break the kernel's
  invariant (`MemoryRuns.UnalignedForkBreaks`); for the whole list, the invariant holds afterwards exactly when all
  mappings are aligned and below MAXVA (`Machine.Kernel.CopyPagetable`).
- The mapper stores raw kernel pointers in directory entries and the walker masks them; they agree because the
  pointer's frame bits survive the mask and its high bits are the direct-map window
  (`Mmu.KernelPointerDecodes`).
- `copy_pagetable` reverses the parent's mapping list. Nothing may depend on its order, and nothing does.
- `mlist_pop` leaves the new head's `prev` pointing at the freed element; the list's invariant leaves that pointer
  out.
- The directory test in `ext2_path_lookup` is one bit, which block devices and sockets have too: it agrees with the
  type field being 4 exactly when that field is not 5, 6, 7 or 12 to 15 (`PathLookup.IsDirExactly`,
  `PathLookup.BlockDeviceIsDir`).
- `find_dir_entry` follows record lengths from the disk. Its loop goes on for ever exactly when it comes to an entry
  of length zero that is not the name sought, and an unused first entry of length zero is enough
  (`SearchEnds.EndlessExactly`, `SearchEnds.BlankBlockLoops`); `ext2_path_lookup` stays inside the blocks and comes
  to an end exactly when no search on the way comes to such an entry or to one that reaches out of its block (`SearchEnds.ResolvableExactly`).
- A process that has ended, reaped or replaced by `execve`, keeps its slot and all its pages; only an `execve` that
  fails gives pages back (`ProcessMemory.DeadKeepsPages`, `ProcessMemory.FreePagesExactly`). So no more than
  PROC_MAX - 2 forks and successful `execve`s can ever happen (`Slots.SlotsRunOut`).
- `elf_loader` maps new zero pages over those of an earlier segment. Where two segments share pages, all that is left
  there of the first is what the second has in its own bytes; the rest reads as zeros (`Loader.LoadSegment`).
- `copy_fmt_str` with the left flag overwrites the string's NUL when it pads and writes no other; in every other case
  the field ends with a NUL (`Stdio.CopyFmtStr`).

## Model

| member | source | states |
|---|---|---|
| Mmu.PteToPaField | include/asm/mmu.h:20-22 | PTE2PA and PA2PTE select exactly the frame field, bits 14 to 49, in place |
| Mmu.KernelPointerDecodes | include/asm/mmu.h:20-27 | a raw page pointer, masked and turned back as the walker does, is itself |
| Mmu.LeafDecodes | mm/n_vm.c:49 | a leaf built from a frame and a permission decodes to that frame, is valid, and has exactly those flags |
| Mmu.PxSplit | include/memlayout.h:111-113 | the three 11-bit indices determine the page number and lose nothing |
| Mmu.UserPermValid | core/exec.c:124 | the permission word exec uses has only flag bits and is valid |
| PageTable.AttachTable | mm/n_vm.c:37-46 | putting a zero table into an empty entry keeps the tables a forest and changes no leaf of any process |
| PageTable.WriteLeaf | mm/n_vm.c:48-50 | writing the entry the walk ends at changes that one leaf of that one process |
| AddressSpace.LeafMeaning | mm/n_vm.c:97-118 | a leaf is valid exactly when its page is on the mapping list, lies on a frame of the process, and carries the union of the listed permissions |
| AddressSpace.FramesInjective | mm/n_vm.c:163-175 | two mapped pages of a process never share a frame |
| AddressSpace.AddMapping | mm/n_vm.c:171-172 | writing a leaf and pushing the mapping together keep every process's tables, leaves and list consistent |
| Machine.Kernel.KfreePage | mm/memblock.c:40-50 | a page that is not free goes to the front of the free list, linked through itself |
| Machine.Kernel.Kfree | mm/mm.c:40-46 | the same for an aligned pointer; it panics exactly on an unaligned one |
| Machine.Kernel.Kalloc | mm/memblock.c:56-69 | pops the front page and fills it with junk; panics exactly when the list is empty |
| Machine.Kernel.Freerange | mm/memblock.c:26-34 | the list gets exactly the whole pages of the range, highest first, and nothing else changes |
| Machine.WholePagesExact | mm/memblock.c:26-34 | those pages are all the aligned addresses whose page lies inside the range |
| Machine.Boot | mm/memblock.c:15-34 | booting leaves the kernel's invariant true with exactly the whole pages of its memory free and no process |
| Machine.Kernel.CreateSpace | mm/n_vm.c:139-146 | a new process has an empty list and a zero root: every address is unmapped; panics exactly without a free page |
| Machine.Kernel.NewTable | mm/n_vm.c:38-43 | filling an empty entry changes no leaf and no other entry; panics exactly without a free page |
| Machine.Kernel.MapSinglePage | mm/n_vm.c:28-53 | for any address, one leaf of one process becomes the frame, the old flags and the permission or'ed; every other leaf of every process stays; two free pages suffice |
| Machine.Kernel.Walk | mm/n_vm.c:70-92 | reaches the same leaf the mapper writes, and reports missing only when that leaf is zero |
| Machine.Kernel.VaToPa | mm/n_vm.c:97-118 | is the translation the leaf defines, 0 from 2^47 on or when invalid |
| VirtualMemory.TranslateMeans | mm/n_vm.c:184-192 | 0 exactly when no byte is mapped there; otherwise the direct-map pointer of that very byte |
| Machine.Kernel.MapFrame | mm/n_vm.c:171-172 | maps a kernel page and hands it to the process, keeping the whole invariant; two free pages suffice |
| Machine.Kernel.AllocOne | mm/n_vm.c:167-173 | one zero frame, taken from the free list, mapped and listed; three free pages suffice; the leaf of its page, and no other of any process, leads to it |
| Machine.Kernel.AllocVm | mm/n_vm.c:163-175 | a fresh zero frame for each page of the range, listed in order from any start; nobody else's page changes; three free pages for each page of the range suffice; each leaf of the process is what mapping those frames one after the other makes it, and no other process's leaf changes |
| AddressSpace.LeafLeads | mm/n_vm.c:163-175 | after that, page k of the range leads to frame k with the permission, whatever was mapped there before |
| Machine.FreshByte | mm/n_vm.c:163-175 | so every byte of the range is zero and in a page the user can read and write |
| Machine.StepsMean | mm/n_vm.c:164-166 | a step of the range is taken exactly when its page begins before the end of the last page |
| Machine.Kernel.MapPages | mm/n_vm.c:124-137 | every page the byte range touches, and no other, is mapped to consecutive frames; two free pages for each suffice |
| AddressSpace.TouchedMeans | mm/n_vm.c:127-131 | the pages counted as touched are exactly those with a byte of the range in them |
| AddressSpace.RangeEntries | mm/n_vm.c:124-137 | after a range is mapped, page k of it has frame k, its old flags and the new ones; all other entries are as before |
| MemoryTheorems.MapRefines | mm/n_vm.c:28-53 | after mapping, addresses in the page translate into the frame at their offset, all others of all processes as before, and the flags are the union |
| MemoryTheorems.SamePageNumber | include/memlayout.h:111-113 | below 2^47 equal index paths, equal page numbers and equal pages are the same thing |
| Machine.Kernel.FreePagetable | mm/n_vm.c:306-316 | exactly the pages of the tree go back, each once, none read after it is freed |
| Machine.Kernel.PgtblFree | mm/n_vm.c:149-159 | exactly what the process owned goes back; every other page and process is untouched |
| Teardown.RootReachesAll | mm/n_vm.c:306-316 | the tree below a root holds all the table pages the process owns |
| MemoryTheorems.PagesPartition | mm/memblock.c:26-69 | every managed page is on the free list, with the kernel, or owned by one process, and there it is a table page or on the mapping list, once |
| MemoryRuns.Step | mm/n_vm.c:139-175 | each operation has its stated effect and keeps the invariant and the set of managed pages |
| MemoryRuns.Run | mm/n_vm.c:139-316 | so does any sequence of creating, growing from any address, writing, cloning and destroying any number of processes; it panics only in an operation that had fewer free pages than suffice for it |
| MemoryRuns.UnalignedForkBreaks | mm/n_vm.c:276-296 | growing a process at 0x6000 and copying it leaves the kernel's invariant false; sixteen free pages, and what copying the other mappings takes, suffice for it to get there |
| Machine.Kernel.CopyToVa | mm/n_vm.c:180-199 | for any address and length a byte-by-byte virtual write; -1 exactly when a page is unmapped, with exactly the bytes before it written |
| Machine.Kernel.CopyFromVa | mm/n_vm.c:204-221 | reads the virtual bytes; -1 exactly when a page is unmapped, after exactly the bytes before it |
| Machine.Kernel.TakeUntilNul | mm/n_vm.c:239-252 | takes the bytes of a page up to and including the first NUL |
| Machine.Kernel.CopyFromVaStr | mm/n_vm.c:227-261 | succeeds exactly when a NUL comes within max bytes and before any unmapped byte, and then yields the string |
| MemoryTheorems.CopyRoundTrip | mm/n_vm.c:180-221 | reading back what was written gives it, and no other process sees a change |
| Machine.Kernel.CopyRound | mm/n_vm.c:282-293 | one mapping of the parent, from any start, becomes a mapping of the child over a page that was free and gets the parent's bytes; what is recorded for it is that page exactly when the mapping is aligned and below MAXVA, and then the frame is the child's own |
| MemoryTheorems.CopyOwnFrame | mm/n_vm.c:287-289 | the pages of a copied mapping all lead to the child's own frame exactly when its start is aligned; otherwise the second one leads to the page behind that frame |
| Fork.SecondEntry | mm/n_vm.c:288 | an unaligned mapping touches two pages and the second entry is valid with the page behind the frame |
| Fork.RecordedFrame | mm/n_vm.c:290-292 | the frame recorded for the child is a page at all, and then the one filled, exactly when the mapping is one aligned page below MAXVA |
| Machine.Kernel.CopyPage | mm/n_vm.c:285-287 | a fresh page gets the parent's bytes of an aligned mapping, from whatever lists the process is between; it panics exactly without a free page |
| MemoryTheorems.SegmentsAligned | core/exec.c:63-65 | segments start on pages, whatever their addresses, exactly when p_align is at most a page or a multiple of one |
| Machine.Kernel.CopyPagetable | mm/n_vm.c:276-296 | afterwards the invariant holds exactly when every mapping of the parent is aligned and below MAXVA, and then parent and child see equal bytes and flags everywhere, even with a page listed twice; in every case the parent keeps its bytes and its mappings, counted with repetition; a stated number of free pages suffices |
| Fork.FramesDisjoint | mm/n_vm.c:276-296 | mapped pages of two processes never share a frame |
| Fork.ParentKept | mm/n_vm.c:276-296 | growing the child changes no leaf and no byte of the parent |
| Fork.OthersSee | mm/n_vm.c:163-199 | while one process takes free pages and writes its own, every other process keeps its leaves and its bytes |
| Fork.ForkedView | mm/n_vm.c:276-296 | copying each listed page makes the whole views equal |
| Fork.MoveFront | mm/n_vm.c:283-291 | the order of a mapping list does not matter to the invariant |
| Machine.Kernel.ForkImage | core/exec.c:192-201 | the child differs from the parent only in the saved a0, sp and ra, which hold 0, the trapframe and the helper; p->context points at the child's own copy; only the child takes pages, no page of another process is written, and all others see what they saw |
| UserStack.ForkWrites | core/exec.c:199-201 | what the three stores of fork leave, mapped or not |
| Machine.Kernel.ExecArgs | core/exec.c:137-142 | the first ARGS_MAX arguments are laid out from the bottom with pointers to them in order when they fit; whether or not they do, only the process's own frames change |
| Machine.Kernel.ExecEnvs | core/exec.c:146-151 | the same for the environment, after the arguments |
| Machine.Kernel.PokeLast | core/exec.c:162-170 | the eight last words are stored and nothing else |
| UserStack.LastWordsApart | core/exec.c:129-170 | those words overlap neither each other nor the vectors nor the strings |
| UserStack.RegistersDone | core/exec.c:129-170 | the last stores leave argc, argv, envp, entry and the saved registers where they are looked for, whatever the stack held |
| UserStack.VectorDecodes | core/exec.c:137-151 | reading a vector of string pointers gives back the strings |
| UserStack.ImageDone | core/exec.c:129-170 | the finished stack decodes to exactly argc, argv and envp, with the saved registers where they are looked for |
| Machine.Kernel.ExecStack | core/exec.c:129-170 | panics exactly on too many arguments or environment strings; otherwise the registers are in place for any strings, and the stack is that image when they fit |
| Machine.Kernel.Exec | core/exec.c:124-172 | the same in a new address space, and p->context aliases the context stored through the user address; three free pages for each stack page suffice; only this process takes pages, no page of another is written, and all others see what they saw; every stack page is valid, present, dirty and writable |
| Loader.SegmentInside | core/exec.c:63-75 | a segment lies inside the range mapped for it, which holds no more than the units of its alignment that it touches and four pages behind it when it can be written |
| Loader.LoadSegment | core/exec.c:56-85 | gives up exactly when the segment does not start below MAXVA; when its range ends below it, every byte mapped is writable and is the file's, or zero before and behind the file's bytes; only this process takes pages and writes |
| Loader.LoadProgram | core/exec.c:47-93 | gives up exactly at a segment that does not start below MAXVA; segments with aligned starts below MAXVA leave mappings that fork can copy; panics only for a segment that fails its assertion or for too few free pages |
| Process.FirstFree | core/proc.c:83-86 | the first unused slot |
| Process.FindPid | core/proc.c:43-50 | the first used slot with the pid |
| Process.FirstZombie | core/syscall.c:369-375 | the zombie nearest the head of the ring |
| Process.InitInv | core/proc.c:58-79 | the table after booting satisfies the invariant |
| Process.YieldInv | core/proc.c:130-139 | yielding, with cur_proc kept, keeps the invariant |
| Process.VisitInv | core/sche.c:14-34 | so does each iteration of the sweep, dispatching or not |
| Process.ForkInv | core/exec.c:175-205 | so does fork: one slot joins the tree as the caller's newest child |
| Process.ExecInv | core/syscall.c:161-187 | so does execve, with the pid handed over and the caller killed but still running |
| Process.ExecFailInv | core/exec.c:118-122 | so does a failed exec, whose slot is given up and whose pid is lost |
| Process.ExitInv | core/proc.c:141-155 | so does exit |
| Process.ScanInv | core/syscall.c:364-382 | so does a pass of wait4(-1) |
| Process.WaitPidInv | core/syscall.c:383-389 | so does wait4(pid) for a pid in use |
| Process.StepInv | core/sche.c:7-36 | every step of the machine keeps pids, forest, rings, the running process, the sweep and the waits in order |
| ProcessCalls.TickDoes | core/proc.c:130-139 | a timer interrupt makes the current process runable, leaves a killed one killed, and hands the processor back; nothing else changes |
| ProcessCalls.VisitDoes | core/sche.c:13-34 | an iteration dispatches exactly a used, runable slot with a pid other than 0, and otherwise only moves on |
| ProcessCalls.ForkDoes | core/syscall.c:155-159 | the first unused slot becomes a runable child with a new pid, to which 0 comes back; the caller gets that pid, which is positive; all other slots stay |
| ProcessCalls.ExecDoes | core/syscall.c:161-187 | the first unused slot takes over the caller's pid and parent, first among the parent's children; the caller is killed and loses its pid; all other slots stay |
| ProcessCalls.ExecFailDoes | core/syscall.c:172-175 | -1 comes back, a pid is lost, and no slot in use changes but for that |
| ProcessCalls.ExitDoes | core/proc.c:141-155 | the process is a zombie with the code it gave, the kernel runs, and all other slots stay |
| ProcessCalls.WaitAnyDoes | core/syscall.c:364-404 | the zombie nearest the head is reaped, with pid and shifted code; with none but a runable child the caller blocks; otherwise it gets -1; nothing else changes |
| ProcessCalls.WaitPidDoes | core/syscall.c:383-404 | for the first slot with the pid: -1 when it is no child of the caller, reaped at once when it is a zombie, otherwise the caller blocks on it; nothing else changes |
| ProcessCalls.WaitSlotDoes | core/syscall.c:386-404 | going on with it reaps that slot's zombie or blocks again |
| ProcessTheorems.ReachableInv | core/sche.c:7-36 | the invariant holds in every reachable state |
| ProcessTheorems.ClimbsToKernel | core/exec.c:175-180 | parent links lead to slot 0 |
| ProcessTheorems.TreeSafety | core/proc.c:81-105 | in every reachable state pids are distinct and below last_pid, parents form a forest under slot 0, rings hold only children, and no tasks node is on two rings |
| ProcessTheorems.OneRunning | core/sche.c:22-24 | at most one process runs, the kernel or the current one |
| ProcessTheorems.ZombieStep | core/proc.c:141-155 | a zombie is not dispatched and keeps its exit code; only its parent's wait4 ends it, delivering that code |
| ProcessTheorems.ZombieRun | core/proc.c:141-155 | so over any run: still the same zombie, or dead with the same code |
| ProcessCalls.ExitCodeDelivered | core/proc.c:141-155 | over any run, whenever a process that exited with a code stops being a zombie, its parent has just got that code, shifted by 8, and its pid |
| ProcessTheorems.DeadStep | core/syscall.c:402-404 | no step changes the state, exit code, pid or parent of a dead process, reaped or replaced |
| ProcessTheorems.DeadForever | core/syscall.c:402-404 | over any run it stays dead with its exit code and pid |
| ProcessTheorems.WaitAnyReaps | core/syscall.c:369-404 | with a zombie child, exactly the one nearest the head is reaped, its code delivered, nobody else changed |
| ProcessTheorems.WaitAnyBlocks | core/syscall.c:376-381 | with none but a runable child, the caller yields, will look again, and changes nobody else |
| ProcessTheorems.WaitAnyNone | core/syscall.c:379 | otherwise every child is killed and -1 comes back with nothing else changed |
| ProcessTheorems.WaitPidEnds | core/syscall.c:386-388 | a dispatched wait4(pid) ends exactly when its slot holds a zombie |
| ProcessTheorems.ExecLeavesDead | core/syscall.c:179-185 | after execve the caller's slot is dead as soon as it yields, while another slot carries its pid and parent |
| ProcessTheorems.StrandedForever | core/syscall.c:386-388 | a process waiting for a dead slot waits through every run |
| ProcessTheorems.StrandedReachable | core/syscall.c:161-187 | a run from boot ends with process 1 waiting for slot 2, which is dead, while slot 3 carries pid 2 |
| ProcessTheorems.ReapedStrands | core/syscall.c:383-389 | wait4 on the pid of a reaped child waits for its dead slot |
| ProcessTheorems.ReapedReachable | core/syscall.c:383-404 | a run from boot ends with process 1 waiting for slot 2 again, which it has reaped before |
| ProcessTheorems.OffMeansIdle | core/sche.c:31-33 | the scheduler is never left while a process can run |
| Fairness.WaitingStep | core/sche.c:17-30 | no step takes a waiting process's turn away, and every other dispatch brings it closer |
| Fairness.BoundedWaiting | core/sche.c:13-34 | a runable process is passed over at most PROC_MAX - 2 times, whatever happens in between |
| Fairness.NoRepeat | core/sche.c:13-34 | and no other process is dispatched twice meanwhile |
| Fairness.EventuallyDispatched | core/sche.c:13-34 | if dispatched processes always yield, it is dispatched |
| Waits.SlotWaitReturns | core/syscall.c:383-404 | if dispatched processes always yield, a live process waiting by pid for a zombie returns with its pid and exit code, and the child is dead |
| Waits.SlotWaitEnds | core/syscall.c:386-388 | a live process in wait4(pid) leaves it exactly when at some time its slot holds a zombie |
| Waits.AnyWaitReturns | core/syscall.c:364-404 | a live process in wait4(-1) with a zombie child returns with one of its zombie children |
| ProcessCalls.ExitWaitedFor | core/syscall.c:383-404 | a process exits with a code: if dispatched processes always yield, the live parent waiting for it returns with that code and its pid |
| Slots.SlotUse | core/proc.c:81-116 | a step takes a slot into use exactly when it makes a process, the first free one, and gives none back |
| Slots.SlotsRunOut | core/proc.c:81-91 | over any run from boot at most PROC_MAX - 2 processes are made, and there is a slot for one more exactly when fewer have been |
| Scheduler.ProcTable.constructor | core/proc.c:58-79 | booting gives the initial state of the machine |
| Scheduler.ProcTable.ProcAlloc | core/proc.c:81-105 | finds the first free slot and sets it up, or panics when there is none |
| Scheduler.ProcTable.ProcFind | core/proc.c:43-50 | finds the first used slot with the pid |
| Scheduler.ProcTable.YieldCpu | core/proc.c:130-139 | takes the yield step |
| Scheduler.ProcTable.Exit | core/proc.c:141-155 | takes the exit step |
| Scheduler.ProcTable.Clone | core/syscall.c:155-159 | takes the fork step exactly when a slot is free |
| Scheduler.ProcTable.Execve | core/syscall.c:161-187 | takes the execve step, or the failing one |
| Scheduler.ProcTable.WaitForAny | core/syscall.c:364-382 | its ring loop takes the wait4(-1) step |
| Scheduler.ProcTable.WaitForSlot | core/syscall.c:386-388 | takes one test of wait4(pid) |
| Scheduler.ProcTable.WaitForPid | core/syscall.c:383-389 | takes the wait4(pid) step exactly when the pid is in use |
| Scheduler.ProcTable.Collect | core/syscall.c:391-404 | delivers the exit code, shifted by 8, and marks the child killed |
| Scheduler.ProcTable.Act | core/syscall.c:355-404 | does the call exactly when the machine allows it, and then takes that step |
| Scheduler.ProcTable.Dispatch | core/proc.c:157-165 | takes the dispatching step |
| Scheduler.ProcTable.RunProcess | core/sche.c:20-26 | a turn is a run of the machine and hands the sweep back at the next slot |
| Scheduler.ProcTable.Run | core/sche.c:7-36 | the nested loops are a run of the machine whose calls are the script's; they end exactly with a sweep that dispatched nobody, and then nobody can run |
| Scheduler.ReachesOn | core/sche.c:7-36 | a run of the table from a reachable state ends in a reachable state |
| Scheduler.BootAndRun | core/kmain.c:22-26 | booting and scheduling leaves the table in a reachable state, with its tree sound, and stops by itself only idle |
| Scheduler.StepKeepsTurn | core/proc.c:130-139 | a process keeps the processor or sends the sweep on to the slot after its own |
| TaskRings.OneRing | core/exec.c:179 | two places on children lists with the same node are one place on one list |
| TaskRings.Attach | core/proc.c:101-102 | making a slot's two lists and adding its node in front of a third leaves every list without those nodes linked |
| TaskRings.Graft | core/exec.c:175-180 | on real nodes, proc_alloc and list_add leave every process's children linked in the machine's order, the new one first |
| TaskRings.GraftAndFree | core/exec.c:118-122 | and a slot taken and given back disturbs none |
| TaskRings.RingsStay | core/syscall.c:355-404 | an event that makes no process changes no list |
| TaskRings.FollowStep | core/sche.c:7-36 | every step of the machine has pointer writes that keep all children lists linked as it says |
| TaskRings.FollowRun | core/sche.c:7-36 | so has every run from boot |
| ProcessMemory.ServeClone | core/exec.c:175-205 | a new slot with its own address space, a copy of the caller's but for the three stores; nobody else's pages or bytes change |
| ProcessMemory.ServeExecve | core/syscall.c:161-187 | the new image in a slot and address space of its own, or, exactly when exec fails, every page owned as before |
| ProcessMemory.TakenAndReleased | core/exec.c:118-122 | freeing an unfinished process undoes all it took and leaves every other page as it was |
| ProcessMemory.Start | core/user.c:7-14 | booting with a first program gives the machine's initial state with an address space for each process in use |
| ProcessMemory.Run | core/sche.c:7-36 | any list of requests keeps both sides in order and their processes the same; a panic names its request and its cause |
| ProcessMemory.MomentsReachable | core/sche.c:7-36 | the process side of such a run is a run of the machine, so its theorems hold at every moment |
| ProcessMemory.PagesNeverBack | core/proc.c:107-116 | over any run whoever owns a page keeps it |
| ProcessMemory.PagesFixed | core/proc.c:107-116 | a process has the same pages from its making to the end of the run |
| ProcessMemory.DeadKeepsPages | core/syscall.c:402-404 | a dead process keeps all its pages, at least one, to the end of every run |
| ProcessMemory.FreePagesExactly | core/exec.c:118-122 | the free pages stay the same exactly while no fork and no execve succeeds |
| ProcessMemory.BytesKept | mm/n_vm.c:180-199 | over any run what a process sees changes only by its own stores |
| BlockTree.PathRoundTrip | fs/ext2.c:296-343 | every addressable logical block has an index path inside the pointer blocks that leads back to it |
| BlockTree.PathUnique | fs/ext2.c:296-343 | and no other path leads there |
| BlockTree.LeavesAt | fs/ext2.c:305-342 | following a path finds the leaf at the path's place in the recursive list of leaves |
| BlockTree.GetPhysicalBlock | fs/ext2.c:296-343 | is the entry of the file's block list, twelve direct blocks and the leaves of three trees end to end, and is found from the bytes on disk: the four bytes at the block's place in the pointer block reached over one, two or three levels |
| Disk.PointerBytes | fs/ext2.c:305-342 | entry i of a pointer block is its bytes 4i to 4i + 3, the lowest first |
| BlockTree.ListedBytes | fs/ext2.c:296-343 | the block list, entry by entry, is what those bytes say |
| BlockTree.FileBytes | fs/ext2.c:363-378 | byte j of a file is byte j mod 1024 of that block, or zero when the pointer is zero |
| BlockTree.HolesExactly | fs/ext2.c:305-342 | it is right about holes for all files exactly when block 0 is all zero pointers |
| BlockTree.FileHolesRight | fs/ext2.c:296-343 | a block of one file is right whenever no pointer on the way to it is missing; direct blocks always are |
| BlockTree.FileReadsRight | fs/ext2.c:345-382 | so a file none of whose blocks within its size lies behind a missing pointer reads right, holes as zeros |
| BlockTree.ReadPart | fs/ext2.c:363-378 | the wanted part of one block is the file's bytes there, zeros for a hole, and nothing after it is written |
| BlockTree.Fread | fs/ext2.c:345-382 | min(count, i_size) bytes, each the file's byte or 0 in a hole, nothing after them written, no counter beyond 32 bits, no block beyond reach; each byte is also said from the bytes on disk |
| Directory.TiledWalks | include/ext2.h:134-140 | entries that tile a block as the format asks can be walked by the code |
| Directory.EntryFields | include/ext2.h:134-140 | an entry's inode is in its bytes 0 to 3, its length in 4 and 5, its name's length in 6; it is live exactly when inode and name length are not zero |
| Directory.EntriesBytes | fs/ext2.c:209-231 | the entries of a block, byte by byte: the live one here with its name from byte 8 on, then those from its length on |
| Directory.ListingHas | fs/ext2.c:204-209 | a listing has exactly the entries of the direct blocks before the first zero pointer |
| Directory.FindNameMeans | fs/ext2.c:199-236 | the first entry of that name, nothing exactly when there is none |
| Directory.FindInBlock | fs/ext2.c:209-231 | the entry loop finds the first live entry of that name in the block, looking at nothing behind it |
| Directory.FindDirEntry | fs/ext2.c:199-236 | terminates with the inode of the first live entry of that name in the direct blocks before the first zero pointer, -1 exactly when there is none, on every directory whose search ends |
| Directory.SearchFinds | fs/ext2.c:209-231 | on a block that can be walked the search is the first entry of that name in its list of entries |
| Directory.SearchDirFinds | fs/ext2.c:199-236 | on a directory whose blocks can be walked it is the first entry of that name in the directory's listing |
| SearchEnds.SearchableExactly | fs/ext2.c:209-231 | the entry loop ends inside the block exactly when no entry it comes to reaches out of it or has length zero without being the name |
| SearchEnds.SearchIs | fs/ext2.c:209-231 | a search that ends finds something exactly when it comes to a live entry of the name, and then that entry's inode |
| SearchEnds.EndlessExactly | fs/ext2.c:209-231 | no iteration of it is the last exactly when it comes to an entry of length zero that is not the name |
| SearchEnds.BlankBlockLoops | fs/ext2.c:211-214 | an unused first entry of length zero keeps it for ever, whatever the name |
| SearchEnds.SearchableDirExactly | fs/ext2.c:199-236 | the search of a directory ends exactly when no entry it comes to in any block is such an entry |
| SearchEnds.NothingMissed | fs/ext2.c:199-236 | a search that ends finds nothing exactly when the directory can be listed and no entry in it has the name |
| PathLookup.GetInodeReads | fs/ext2.c:57-111 | -1 exactly for inode 0 and beyond the count; otherwise, while the arithmetic fits 32 bits, it is the record at the inode's place in its group's table, -3 exactly when that straddles blocks |
| PathLookup.InodeBytes | fs/ext2.c:57-111 | inode g * s_inodes_per_group + k + 1 is the record k records into the table named in bytes 8 to 11 of the g-th 32-byte descriptor, in 32-bit arithmetic; -3 when it straddles blocks, -5 when its mode is zero |
| PathLookup.ParsedInode | include/ext2.h:95-108 | mode, size and the fifteen block pointers of a record, from bytes 0, 4 and 40 on |
| PathLookup.NeverStraddles | fs/ext2.c:89-92 | record sizes that divide the block never give -3, wrap-around included |
| PathLookup.NextToken | fs/ext2.c:187-191 | a name taken up to a slash, the end or 255 characters is the first token |
| PathLookup.TokensCat | fs/ext2.c:180-196 | the tokens of p/q are those of p, then those of q, names over 255 characters included |
| PathLookup.ParsePathComponent | fs/ext2.c:180-196 | writes the next token, NUL-terminated, and moves to the rest; length 0 exactly at the end |
| PathLookup.WalkCat | fs/ext2.c:255-276 | a walk over two lists of names is two walks, and its searches end exactly when theirs do |
| PathLookup.PathLookup | fs/ext2.c:239-280 | is the walk from the root over the tokens, with the code's errors, and terminates, on every path whose own searches end; on a file system laid out as the format asks it is a record exactly when the names lead there listing by listing, and an error exactly when the way ends with it |
| PathLookup.WalkMeans | fs/ext2.c:255-276 | a walk comes to a record exactly when each record on the way has the directory bit and the first entry of the next name has the inode of the next record; it ends with -20 at a record without the bit, -1 where no entry has the name, and otherwise with the code of the inode that cannot be read |
| PathLookup.LookupMeans | fs/ext2.c:239-280 | so does a lookup, from inode 2 over the names of the path |
| PathLookup.TidyWalks | fs/ext2.c:255-276 | on a disk whose directories are laid out as the format asks the searches of every walk end |
| SearchEnds.ResolvableExactly | fs/ext2.c:239-280 | a lookup comes to an end exactly when no search on its way comes to such an entry |
| SearchEnds.BlankRootLoops | fs/ext2.c:239-280 | an unused first entry of length zero in the root directory keeps every path with a name in it from being looked up |
| PathLookup.IsDirBit | fs/ext2.c:262 | the directory test is bit 14 of the mode |
| PathLookup.IsDirExactly | fs/ext2.c:262 | it agrees with the type being a directory exactly when the type is none of 5, 6, 7 and 12 to 15 |
| PathLookup.BlockDeviceIsDir | include/ext2.h:17 | a block device passes it |
| PathLookup.LookupCat | fs/ext2.c:239-280 | looking up p/q continues from p with the tokens of q |
| PathLookup.SlashesIgnored | fs/ext2.c:184-185 | leading, trailing and repeated slashes make no difference |
| PathLookup.GetPath | core/syscall.c:49-58 | the buffer holds the absolute path as it is, or the working directory, a slash unless that is the root, and the path |
| PathLookup.RelativeContinues | core/syscall.c:49-58 | resolving a relative path continues the lookup from the working directory |
| Strings.StrNCmp | lolibc/string.c:44-50 | the signed difference at the first difference, NUL or n-th character |
| Strings.StrCmp | lolibc/string.c:40-42 | 0 exactly for strings equal in their first 1024 characters |
| Strings.MemCpy | lolibc/string.c:71-75 | the destination gets the bytes, the rest stays |
| Strings.MemSet | lolibc/string.c:52-56 | the range gets the byte, the rest stays |
| Strings.MemMove | lolibc/string.c:58-69 | whatever the overlap, the destination gets the bytes the source had |
| Strings.MovedMeans | lolibc/string.c:58-69 | the destination equals the old source and everything outside it is as it was |
| Strings.StrLen | lolibc/string.c:4-8 | the number of bytes before the NUL |
| Strings.StrCpy | lolibc/string.c:10-17 | the string and its NUL at the place given, every other byte as before |
| Strings.StrCat | lolibc/string.c:32-38 | the buffer's string followed by the other and a NUL, the bytes behind it as before |
| KList.RingInverse | lolibc/kstruct/list.h:7-11 | next and prev undo each other on a ring |
| KList.InitListHead | lolibc/kstruct/list.h:76-80 | an empty list |
| KList.AddBetween | lolibc/kstruct/list.h:83-89 | a node goes in after a place of a ring, touching only its neighbours |
| KList.ListAdd | lolibc/kstruct/list.h:90-93 | becomes the first |
| KList.ListAddTail | lolibc/kstruct/list.h:95-98 | becomes the last |
| KList.Unlink | lolibc/kstruct/list.h:101-105 | the ring without that place; a ring of one stays |
| KList.ListDel | lolibc/kstruct/list.h:106-111 | the node ends alone, the others keep their order |
| KList.ListReplace | lolibc/kstruct/list.h:113-119 | the new node stands where the old one stood, alone if it was alone |
| KList.ListReplaceInit | lolibc/kstruct/list.h:120-124 | and the old one ends alone |
| KList.ListMove | lolibc/kstruct/list.h:127-131 | comes first in its own or another list, and leaves its own in order |
| KList.ListMoveTail | lolibc/kstruct/list.h:132-136 | comes last |
| KList.ListIsEmpty | lolibc/kstruct/list.h:139-142 | exactly when there are no contents |
| KList.ListSpliceInit | lolibc/kstruct/list.h:149-160 | the contents go to the end of the other list and the list ends empty, either possibly empty before |
| KList.ListPop | lolibc/kstruct/list.h:163-169 | takes the first out, null exactly when empty |
| KList.ListPopTail | lolibc/kstruct/list.h:170-176 | takes the last out |
| KList.ForEach | lolibc/kstruct/list.h:33-36 | visits the contents in order and stops |
| MList.List.constructor | lolibc/struct/mlist.c:12-17 | an empty list |
| MList.List.IsEmpty | lolibc/struct/mlist.c:26-30 | exactly when there is no element |
| MList.List.Push | lolibc/struct/mlist.c:32-41 | in front of the contents |
| MList.List.Append | lolibc/struct/mlist.c:58-67 | behind the contents |
| MList.List.Pop | lolibc/struct/mlist.c:43-57 | takes the front element, nothing from an empty list |
| QSort.SkipLeft | lolibc/string.c:174-177 | stops at an element greater than the pivot, or past the right cursor |
| QSort.SkipRight | lolibc/string.c:178-181 | stops at one that is not |
| QSort.Partition | lolibc/string.c:166-199 | a rearrangement with nothing greater before the pivot and everything greater after it |
| QSort.Sort | lolibc/string.c:162-205 | terminates with the window sorted, a permutation of what it was, and nothing else changed |
| QSort.Combine | lolibc/string.c:200-205 | splitting and sorting both sides sorts |
| Stdio.GetItoaTableIndex | lolibc/stdio.c:21-27 | the place of the character among the first len of the table, -1 when it has none |
| Stdio.ReverseInPlace | lolibc/stdio.c:41-47 | the cursor loop reverses exactly the digits |
| Stdio.PutDigits | lolibc/stdio.c:36-40 | the digits, least significant first |
| Stdio.UItoA | lolibc/stdio.c:29-50 | the numeral and its NUL, nothing after; the result is the number of digits plus 1 |
| Stdio.UAtoI | lolibc/stdio.c:63-75 | consumes the longest run of digits, of either case, and wraps its value at 64 bits |
| Stdio.NumeralMeans | lolibc/stdio.c:29-50 | a numeral is canonical, with no leading zero but for 0, and worth its number |
| Stdio.PrintParse | lolibc/stdio.c:29-75 | parsing a printed 64-bit number gives it back and stops at its NUL |
| Stdio.ParsePrint | lolibc/stdio.c:29-75 | printing the value of a canonical string gives the string back |
| Stdio.CaseIgnored | lolibc/stdio.c:17 | lower-case digits are worth what upper-case ones are |
| Stdio.CopyFmtStr | lolibc/stdio.c:97-117 | the string in a field of at least the width, padded on the side and with the character the flag says; with left padding the bytes behind the field stay, otherwise a NUL follows and the rest stays |
| Stdio.PaddedMeans | lolibc/stdio.c:97-117 | that field, character by character: the string at its end, or at its start with the left flag, zeros or blanks in the rest |

## Left out

- Machine.Kernel.CopyPagetable: asks that every listed mapping has the size of a page, which alloc_vm always lists, and that the child's list is empty, which it is after proc_alloc.
- Machine.Kernel.ForkImage: asks for aligned mappings, since after any other copy the kernel's invariant is false and the stores through the child's table may go to pages of others.
- Machine.Kernel.MapPages: leaves out va = 0 with size = 0, where the last address wraps round to the end of the address space and the loop runs over all of it.
- MemoryRuns.Run: cloning a process with an unaligned mapping is no operation of a run; MemoryRuns.UnalignedForkBreaks says what it would do.
- Machine.Kernel.Exec: promises the decoded vectors when the strings fit below the trapframe, which the source does not check, and the registers always; Loader has elf_loader, without reading the file and checking its header.
- Machine.Kernel.CopyFromVa: hands the bytes back instead of storing them through a kernel pointer, so a destination that overlaps the user page is not modelled.
- Process.WaitPidInv: a pid that no slot has, where the source dereferences NULL, stops the machine.
- Scheduler.ProcTable.Run: user code is a script of the calls processes make; context switching, TLB and registers are not part of it.
- PathLookup.PathLookup: asks that the searches on the path end; SearchEnds.ResolvableExactly says exactly when they do.
- BlockTree.Fread: block size 1024 only, the size read_block always reads.
- Integers for pids and exit codes are unbounded; 64-bit addresses do not wrap in copy loops.
- The mapping lists in Machine.Kernel are sequences; the list with real nodes is MList, and the two are not composed.
- TaskRings.FollowRun: the reading loop of wait4 is on the sequence of children only (Scheduler.ProcTable.WaitForAny), not on the nodes.
- ProcessMemory.Run: a fork of a process with an unaligned mapping is no request of a run (MemoryRuns.UnalignedForkBreaks says what it would do), and the words wait4 stores through its pointers are on the process side only.
- Allocation of small objects (malloc and free), file descriptors, pipes, signals, timers and the console.
- proc_free's release of context, trapframe and descriptor table, and mlist_remove, which does not relink its neighbours.
- va_to_pte_pointer with allocation, which nothing calls.
- The superblock reader, ext2_read_dir (logging), indirect blocks of directories (the source searches direct ones only), and writing.
- vsprintf's dispatch, signed printing, strtok and the comparison functions not used by the parts above.
- Hardware: AHCI, UART, interrupts and traps, CSR and TLB instructions.
