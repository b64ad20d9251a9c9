# A verified model of the CoreOS kernel

CoreOS is a small AMD64 kernel.  This project models its memory stack, its process resources and
its data paths in Dafny, in the form the kernel has them (tables and arrays that are updated in
place, loops, error returns), and proves what each layer promises to the one above it.
`dafny verify dfyconfig.toml` checks everything.

## What is modelled, and what is proved

**Memory.**  Physical memory is a sequence of 2^20 frames.  A frame is named by its number, and is
typed by the way it was last written (page table, bytes, heap words); the accessors refuse any other
reading, so every proof also shows that no table is ever read as data or the other way round.

| file | kernel source | main result |
|---|---|---|
| `Physical.dfy`, `Pmm.dfy` | `mem/pmm.rs` | the bitmap, the counter and the set of free frames agree in every state; `alloc_frames` returns the lowest run, and 0 iff there is none |
| `EntryBits.dfy`, `Paging.dfy` | `arch/amd64/paging.rs` | the four-level tables refine a map from pages to entries: map, unmap and protect change one key, in one space; the rights the processor grants are those of the entry |
| `Fork.dfy` | `arch/amd64/paging.rs` | fork is a deep copy into frames that were free |
| `UserMemory.dfy`, `LittleEndian.dfy` | `proc/exec.rs` | a write through the page tables changes exactly those user bytes, in one space |
| `Elf.dfy`, `ElfFormat.dfy` | `proc/elf.rs` | a program written as the System V gABI, chapters 4 and 5, lays it out and loaded reads back through its page tables, on pages user code may execute |
| `Exec.dfy` | `proc/exec.rs` | the initial stack, read through the page tables, parses as sections 3.4.1 and 3.4.3 of the System V AMD64 psABI say |
| `VirtualMemory.dfy` | `syscall/mm.rs`, `proc/vm.rs` | regions stay disjoint; mmap maps or undoes, and exactly when; mmap then munmap is the identity |
| `AddressSpaces.dfy` | `proc/exec.rs`, `syscall/process.rs` | over every run of exec, fork, brk, mmap, munmap and mprotect no frame is used twice, no process notices another's calls and the processor enforces the protections asked for; a started program finds itself on its stack |
| `Heap.dfy` | `mem/heap.rs` | over every run of alloc, dealloc and writes the heap is a faithful store, fails only when it must, and nothing leaks |
| `SharedMemory.dfy` | `mem/heap.rs`, `arch/amd64/paging.rs` | over every run of heap actions and memory calls on one machine no frame is used by both, no process notices the heap and no block changes under a call |

A ghost ownership map gives every page-table frame and every page frame its level, parent and index.
It makes trees disjoint by construction, and every operation is proved against it.

**Process resources.**

| file | kernel source | main result |
|---|---|---|
| `Descriptors.dfy` | `proc/fd.rs`, `fd_open.rs`, `fd_pipe.rs` | over every run no descriptor dangles; counts are exact iff no call overwrote names or opened a file outside a process |
| `Rings.dfy`, `Pipes.dfy` | `proc/fd_pipe.rs` | over every run what is read from a pipe is a prefix of what was written to it, through any duplicates of its ends |
| `KernelStacks.dfy` | `proc/scheduler.rs`, `proc/task.rs`, `syscall/mod.rs` | the context switch and the system call are round trips; a new task enters user mode where it should, and a forked child returns from its parent's call with 0 |
| `Tasks.dfy` | `proc/task.rs`, `proc/scheduler.rs` | over every run: one running task, whose tables are loaded; a task goes on where it was switched away from; a ready task runs within 7 switches, a dead one never |
| `SignalSets.dfy`, `FlatMemory.dfy`, `Signals.dfy` | `syscall/process.rs` | SIGKILL cannot be blocked or pending over any run; a handler is entered iff its stack has room; delivery and sigreturn are a round trip |
| `RobustList.dfy` | `syscall/process.rs` | the exit walk marks exactly the visited words of the exiting thread, each once; on a list as the C library keeps it these are the locks of all its nodes |

**Data paths.**

| file | kernel source | main result |
|---|---|---|
| `FileIo.dfy` | `syscall/io.rs`, `syscall/fs.rs`, `proc/fd.rs` | vectored reads and writes are one flat read or write |
| `Tty.dfy` | `hw/tty.rs` | over every session reads deliver the edited lines, in order, iff no commit overflowed the ring |

## Where the code and its promise differ

Each of these is stated exactly, and the code is modelled as it is.

- `dup` and `close` keep counts exact, but `spawn` and `fork` into a slot that still holds a process
  overwrite its descriptors: counts stay exact if and only if that process named nothing counted
  (`Descriptors.Overwrite`; `Descriptors.SpawnLeak` is a run from empty tables that leaks a file).
  `open` without a current process leaks its entry (`Descriptors.Leaked`; `Descriptors.OpenLeak` is
  such a run).  Descriptors never dangle in either case.
- A block of an alignment beyond a page is aligned if and only if the lowest run of free frames that
  is long enough begins at a suitable frame (`Heap.AllocAligned`; `Heap.Misaligned` is a heap in
  which 8192 bytes aligned to 8192 are not).
- `mmap` of a bad descriptor leaves its region behind, and no other error does; only the
  out-of-memory path undoes it (`VirtualMemory.ProcessMemory.Mmap`; `VirtualMemory.BadDescriptor` is
  a call that does it in every new process).
- The loader stops at the first program header that is not well-formed, and that header decides how:
  out of the file, or with a segment out of the file, gives TooSmall; in the file but shorter than 48
  bytes panics; a file part that reaches beyond the mapped pages is reported as out of memory
  (`Elf.LoadInto`; `Elf.ShortHeaders` is a file that panics, `Elf.OverhangingFile` one that is called
  out of memory while there are frames).
- `pread` panics if and only if the position is past the end of the file (`FileIo.OpenFile.Pread`,
  `FileIo.OpenFile.Preadv`; `FileIo.PreadPastEnd` is such a read).
- A write of no bytes past the end of a file still extends it (`FileIo.WriteAt`).
- A vectored write that meets a bad buffer has written the buffers before it
  (`FileIo.OpenFile.Writev`, `FileIo.OpenFile.Pwritev`).
- `futex_wake` with a count of zero wakes every waiter (`RobustList.Futexes.FutexWake`).
- Erasing undoes a typed character if and only if the line buffer had room for it (`Tty.EraseUndoes`).
- A signal whose handler cannot be entered, because its stack has no room for the signal frame, is
  consumed and lost, and this is exactly when it is (`Signals.DeliverEnters`; `Signals.LostSignal` is
  a run in which it happens).  The check for a missing restorer never fires
  (`Signals.AlwaysRestorable`).

## Model

| member | source | states |
|---|---|---|
| `Pmm.FrameUpdate` | kernel/src/mem/pmm.rs:81-94 | setting or clearing the bit of one frame changes the state of that frame and of no other |
| `Pmm.Machine.SetUsed` | kernel/src/mem/pmm.rs:81-84 | the bitmap keeps describing the free set, which loses exactly this frame |
| `Pmm.Machine.SetFree` | kernel/src/mem/pmm.rs:86-89 | the bitmap keeps describing the free set, which gains exactly this frame |
| `Pmm.Machine.ReleaseRegion` | kernel/src/mem/pmm.rs:111-133 | a conventional map entry frees exactly its frames below 4 GB, each counted once even if regions overlap |
| `Pmm.Machine.ReserveKernel` | kernel/src/mem/pmm.rs:135-154 | exactly the frames that overlap the kernel image, and frame 0, leave the free set, and the counter follows |
| `Pmm.Machine.Init` | kernel/src/mem/pmm.rs:104-162 | after boot a frame is free iff it is conventional memory, does not overlap the kernel image and is not frame 0; no byte of the image lies in a free frame; the counter is the number of free frames, the total that of conventional ones |
| `Pmm.Machine.AllocFrame` | kernel/src/mem/pmm.rs:168-192 | the lowest free frame, zeroed and taken, and 0 iff nothing is free; the counter never saturates |
| `Pmm.Machine.TakeRun` | kernel/src/mem/pmm.rs:215-233 | a run is taken and zeroed as a whole |
| `Pmm.Machine.AllocFrames` | kernel/src/mem/pmm.rs:194-241 | the lowest-starting run of n free frames, and 0 iff there is no such run (or n is 0) |
| `Pmm.Machine.FreeFrame` | kernel/src/mem/pmm.rs:247-260 | a used frame comes back exactly once; frame 0, frames out of range and double frees change nothing |
| `EntryBits.DecodeInjective` | kernel/src/arch/amd64/paging.rs:6-11 | the fields of a decoded entry determine its 64-bit word |
| `EntryBits.WordOperations` | kernel/src/arch/amd64/paging.rs:186-406 | every bit expression of the source, the test for zero included, has on the decoded entry the effect the model gives it; the words it writes decode to the leaf, table and protected entries of the model |
| `EntryBits.TableAddress` | kernel/src/arch/amd64/paging.rs:48-73 | masking with !0xFFF and with the address mask name the same table |
| `Paging.PageOfInjective` | kernel/src/arch/amd64/paging.rs:186-190 | the four indices determine the page of a user address |
| `Paging.ReachUnique` | kernel/src/arch/amd64/paging.rs:186-315 | two user paths that meet in a frame start in the same space and agree on every index above it |
| `Paging.LeafUnique` | kernel/src/arch/amd64/paging.rs:186-315 | no two user pages, of any spaces, share a frame |
| `Paging.LeafWriteView` | kernel/src/arch/amd64/paging.rs:220-231 | rewriting one leaf entry changes one page of one space, even among pages that share its tables |
| `Paging.LinkTableView` | kernel/src/arch/amd64/paging.rs:192-213 | linking a fresh table changes the meaning of no page |
| `Paging.OnePageMap` | kernel/src/arch/amd64/paging.rs:186-315 | a one-page change is one update or one removal of the abstract page map |
| `Paging.RightsOfWalk` | kernel/src/arch/amd64/paging.rs:192-213 | if every link passes user accesses, the walk of the processor grants exactly the rights of the leaf entry |
| `Paging.OpenEnforced` | kernel/src/arch/amd64/paging.rs:186-315 | then the processor grants each space exactly the rights its pages have, and none to pages it does not map |
| `Paging.Vmm.EnsureTable` | kernel/src/arch/amd64/paging.rs:192-206 | one level: an empty entry gets a fresh table through an entry that is present, writable, user and executable; a present one is kept, no page changes; it takes at most one frame and fails only without any; for a user page all links pass user accesses afterwards if they did before |
| `Paging.Vmm.MapPageIn` | kernel/src/arch/amd64/paging.rs:186-238 | the page maps to this frame, and is present, writable, user and not executable exactly as asked; every other page of every space as before; a huge page on the path makes it a no-op; it takes at most three frames and fails only if fewer were free; mapping user pages keeps links that pass user accesses |
| `Paging.Vmm.PtePtr` | kernel/src/arch/amd64/paging.rs:48-73 | finds the page table that holds a page's entry, iff the upper levels lead to one |
| `Paging.Vmm.TranslatePage` | kernel/src/arch/amd64/paging.rs:240-270 | looks the page up in the map; a huge page yields the address inside it |
| `Paging.Vmm.UnmapPageIn` | kernel/src/arch/amd64/paging.rs:272-286 | removes one page and returns its frame, which no tree owns any more |
| `Paging.Vmm.ProtectPageIn` | kernel/src/arch/amd64/paging.rs:288-315 | one mapped page becomes writable and user as asked, and executable or not; its frame and all other pages stay |
| `Fork.CloneLeaf` | kernel/src/arch/amd64/paging.rs:382-400 | a mapped page is copied byte for byte into a frame that was free |
| `Fork.CloneEntry` | kernel/src/arch/amd64/paging.rs:337-401 | one entry of any level is copied: shared if huge, deeply copied otherwise |
| `Fork.CloneBelow` | kernel/src/arch/amd64/paging.rs:337-381 | a link gets a fresh table with the same flags, and everything below it is copied; links that pass user accesses still do |
| `Fork.CloneTable` | kernel/src/arch/amd64/paging.rs:337-403 | the loop over a table leaves a deep copy of it, and the source untouched |
| `Fork.CopyWalk` | kernel/src/arch/amd64/paging.rs:337-403 | below a copied table every page has the same flags and the same bytes |
| `Fork.CopyReach` | kernel/src/arch/amd64/paging.rs:337-403 | every table and page frame of the copy was free before |
| `Fork.CloneKernelAddressSpace` | kernel/src/arch/amd64/paging.rs:317-330 | a new space with an empty user half and the kernel half of the boot tables |
| `Fork.CloneUserAddressSpace` | kernel/src/arch/amd64/paging.rs:317-406 | the child maps exactly the parent's pages with equal flags and equal bytes, in fresh frames; the parent, every other space and the kernel half are unchanged; it fails only when every frame is taken |
| `Fork.KernelHalfView` | kernel/src/arch/amd64/paging.rs:324-327 | kernel-half addresses translate identically in all spaces |
| `UserMemory.WriteUserBytes` | kernel/src/proc/exec.rs:26-40 | copies across pages; exactly the given user bytes of one space change; it fails iff it meets an unmapped page, after the bytes before it |
| `UserMemory.MapFresh` | kernel/src/proc/elf.rs:220-234 | alloc_frame, map_page_in and zeroing: one more page, reading as zeros, nothing else changed; it fails only with fewer than four free frames |
| `UserMemory.FramesDistinct` | kernel/src/arch/amd64/paging.rs:186-315 | mapped user pages that name one frame are one page |
| `LittleEndian.DecodeEncode` | kernel/src/proc/elf.rs:48-64 | a number written little-endian reads back as itself |
| `LittleEndian.EncodeDecode` | kernel/src/proc/elf.rs:48-64 | bytes read as a number and written again are the same bytes |
| `Elf.MapSegment` | kernel/src/proc/elf.rs:214-237 | every page of the segment is mapped, and user code may read, write and execute it; pages shared with earlier segments keep their bytes, new ones read as zeros; it fails only when every frame is taken |
| `Elf.CopySegment` | kernel/src/proc/elf.rs:239-259 | the chunked copy puts exactly the file part at its addresses; it fails iff one of them is not mapped |
| `Elf.LoadSegment` | kernel/src/proc/elf.rs:214-259 | one more segment is loaded over the ones before; it fails only without frames, or if the file part reaches beyond the mapped pages |
| `Elf.OverhangExact` | kernel/src/proc/elf.rs:239-253 | the file part has a page for each byte iff the segment does not overhang the pages of the segments so far |
| `Elf.LoadHeader` | kernel/src/proc/elf.rs:175-259 | one program header: skipped, loaded, or refused in exactly the way its first fault gives, unless frames run out; a short header panics whatever frames there are |
| `Elf.LoadInto` | kernel/src/proc/elf.rs:122-285 | on success the space holds the image of all loadable segments and nothing else, on pages user code may read, write and execute; while frames last a file is loaded iff it is well-formed, and otherwise the first bad header decides which error or panic; no other space is touched |
| `Elf.ShortHeaders` | kernel/src/proc/elf.rs:175-187 | a file that holds one of its two 32-byte program headers makes the loader panic |
| `Elf.OverhangingFile` | kernel/src/proc/elf.rs:239-253 | a file whose segment has 4097 bytes and one byte of memory is called out of memory while there are frames |
| `Elf.ImageSized` | kernel/src/proc/elf.rs:200-202 | the entry point and the program-header address of an accepted file fit in a word |
| `Elf.SegmentMeaning` | kernel/src/proc/elf.rs:214-259 | with disjoint segments every byte of a segment is its file byte, or zero beyond the file size, even on shared pages |
| `Elf.PhdrSegment` | kernel/src/proc/elf.rs:200-202 | a non-zero program-header address lies in a segment that holds the headers |
| `Elf.LoadedMeaning` | kernel/src/proc/elf.rs:175-285 | the loaded program, read through its page tables, is what the file says, program headers included |
| `ElfFormat.HeaderReads` | kernel/src/proc/elf.rs:82-89 | the loader reads entry point, program-header offset, size and number where the gABI puts them |
| `ElfFormat.IdentChecks` | kernel/src/proc/elf.rs:126-159 | it accepts exactly the 64-bit little-endian executables for x86-64 that have program headers |
| `ElfFormat.SegmentReads` | kernel/src/proc/elf.rs:105-109 | it reads type, offset, address and sizes of a program header where the gABI puts them |
| `ElfFormat.SegmentsRead` | kernel/src/proc/elf.rs:175-202 | in a file as a linker writes it the loader finds exactly the loadable segments, in order |
| `ElfFormat.WrittenProgram` | kernel/src/proc/elf.rs:122-285 | a written and loaded program starts at its entry point, and each byte of each segment reads through the page tables as it was written, or as zero beyond the file size |
| `Exec.PushUserBytes` | kernel/src/proc/exec.rs:42-46 | the pointer moves down and is aligned, the bytes are there, nothing else changed |
| `Exec.PushUserU64` | kernel/src/proc/exec.rs:48-51 | one word more below the words that are there; strings and words above are kept |
| `Exec.PushAux` | kernel/src/proc/exec.rs:81-139 | the auxiliary vector lies below the strings in order |
| `Exec.ExecFn` | kernel/src/proc/exec.rs:59-67 | the path is a slash, the name byte by byte up to 64 of them, and a NUL |
| `Exec.BuildInitialStack` | kernel/src/proc/exec.rs:53-146 | the pointer is 16-byte aligned without the final mask, and the complete layout is there: the path, character by character as `ExecFn` states, the random bytes and the words; it succeeds whenever the top page is mapped |
| `Exec.WordReadsBack` | kernel/src/proc/exec.rs:48-51 | every word reads back through the page tables as the number pushed |
| `Exec.StackParses` | kernel/src/proc/exec.rs:53-146 | the words of the stack parse by the psABI to argc 1, one argument, no environment and the auxiliary entries in order up to AT_NULL |
| `Exec.StackReads` | kernel/src/proc/exec.rs:53-146 | reading words from the stack pointer on through the page tables, and parsing them, yields the same |
| `VirtualMemory.OverlapsExact` | kernel/src/proc/vm.rs:3-7 | the overlap test holds iff some address lies in both regions |
| `VirtualMemory.AddRegion` | kernel/src/proc/vm.rs:9-29 | a region that conflicts with none, put into the first unused slot, keeps the table disjoint |
| `VirtualMemory.ProcessMemory.AllocVma` | kernel/src/proc/vm.rs:18-29 | the first unused slot, or failure iff there is none |
| `VirtualMemory.ProcessMemory.FindVmaExact` | kernel/src/proc/vm.rs:31-36 | finds the slot with exactly this region, iff there is one |
| `VirtualMemory.ProcessMemory.ReserveMmapBase` | kernel/src/proc/vm.rs:38-44 | takes the address and moves the base on by the length |
| `VirtualMemory.MapPages` | kernel/src/syscall/mm.rs:115-143 | the page loop: how much was mapped, with which bytes, and where every frame went; it stops early only without frames, and never with four free frames for each page |
| `VirtualMemory.RangeShows` | kernel/src/syscall/mm.rs:115-143 | each byte of a mapped range is the file byte at the offset, or zero, and its page is writable and executable exactly as the protection asked |
| `VirtualMemory.UnmapPages` | kernel/src/syscall/mm.rs:159-163 | the range is cleared and its frames are free again, nothing else moves |
| `VirtualMemory.MapThenClear` | kernel/src/syscall/mm.rs:117-128 | clearing what was mapped over unmapped pages restores the space and returns every leaf frame |
| `VirtualMemory.ProcessMemory.Mmap` | kernel/src/syscall/mm.rs:75-145 | success maps the whole range, byte by byte the file from the offset on and then zeros, with the protection asked for, and records it; running out of frames restores regions, translations and leaf frames; which error, and when, is stated for every request; exactly a bad descriptor leaves a region behind, and which; good arguments, a free place and four free frames for each page suffice |
| `VirtualMemory.BadDescriptor` | kernel/src/syscall/mm.rs:99-113 | in any new process, mapping a descriptor that names no file fails and leaves the region recorded |
| `VirtualMemory.ProcessMemory.Munmap` | kernel/src/syscall/mm.rs:151-166 | succeeds iff a region matches exactly, and then clears its pages and its slot |
| `VirtualMemory.ProcessMemory.Mprotect` | kernel/src/syscall/mm.rs:172-187 | after success each page of the range is writable and executable exactly as asked; after failure the pages before the first unmapped one; bytes and other pages never change |
| `VirtualMemory.ProcessMemory.Brk` | kernel/src/syscall/mm.rs:26-62 | growing maps zeroed pages; without memory the break stays, which four free frames for each page rule out |
| `VirtualMemory.ProcessMemory.MmapMunmap` | kernel/src/syscall/mm.rs:75-166 | mmap then munmap of the same range is the identity up to table frames and the mmap base |
| `VirtualMemory.ProcessMemory.ForkFrom` | kernel/src/proc/state.rs:310-335 | what a forked process inherits of the region table, break and mmap base |
| `AddressSpaces.ExecAsTask` | kernel/src/proc/exec.rs:150-204 | a started program finds its image on executable pages and its stack on pages that are writable and not executable; existing spaces keep every byte, whatever happens; with a task slot a file is started iff it is well-formed, unless frames run out; it panics on a short first header, and otherwise only without frames |
| `AddressSpaces.ProgramStarts` | kernel/src/proc/exec.rs:53-204 | a started program that reads and parses its stack finds argc 1, its path character by character, and the entry point, program headers and random bytes of the file it was loaded from |
| `AddressSpaces.ForkTask` | kernel/src/syscall/process.rs:757-771 | the child reads every byte the parent had; existing spaces keep every byte; with a task slot a child is spawned unless frames run out |
| `AddressSpaces.WfExclusive` | kernel/src/arch/amd64/paging.rs:186-406 | owned frames are used in one place: leaf frames are not tables, no two leaves share one, none is free |
| `AddressSpaces.MemoryCall` | kernel/src/syscall/mm.rs:26-187 | brk, mmap, munmap and mprotect as relations between what a process had and what it has: each error has its one cause, running out of memory means fewer than four free frames for each page, and mmap gives everything back |
| `AddressSpaces.Kernel.Step` | kernel/src/syscall/mm.rs:26-187 | one call does what it promises: exec and fork add a process that is prepared or a copy, or fail or crash only for their stated causes; a memory call changes the process it is about, as `MemoryCall` says, and no other; kernel frames stay |
| `AddressSpaces.Kernel.Run` | kernel/src/syscall/mm.rs:26-187 | over every run of exec, fork, brk, mmap, munmap and mprotect by any processes each call did what it promises, and at every moment frames are exclusive, roots distinct, regions disjoint, and the processor grants user code exactly the rights its page entries say |
| `AddressSpaces.RightsGranted` | kernel/src/syscall/mm.rs:14-24 | on a range that mmap or mprotect has set up, user code can read, and can write and execute exactly as the protection asked |
| `AddressSpaces.Isolation` | kernel/src/syscall/mm.rs:26-187 | over any such run a process that no call was about keeps its pages, bytes, regions and break |
| `AddressSpaces.KernelUntouched` | kernel/src/syscall/mm.rs:26-187 | over any such run frames of the kernel keep place and contents |
| `Heap.ClassFor` | kernel/src/mem/heap.rs:47-53 | the smallest class that fits, none iff larger than 2048 |
| `Heap.PagesFor` | kernel/src/mem/heap.rs:134 | the least number of pages that hold the size |
| `Heap.PopSlot` | kernel/src/mem/heap.rs:125-128 | taking the first slot leaves the rest of the in-slot list intact |
| `Heap.PushSlot` | kernel/src/mem/heap.rs:163-165 | linking a slot back in front keeps the list acyclic and exact |
| `Heap.LiveDisjoint` | kernel/src/mem/heap.rs:101-144 | live blocks never overlap |
| `Heap.LiveAligned` | kernel/src/mem/heap.rs:101-144 | a live block is large enough and aligned for every alignment up to 4096 |
| `Heap.LargeAlignment` | kernel/src/mem/heap.rs:134-142 | a block of whole pages is aligned beyond a page iff its first frame number is |
| `Heap.LargeAlignments` | kernel/src/mem/heap.rs:101-104 | every power of two from 2^13 to 2^47 is an alignment this is about |
| `Heap.AllocAligned` | kernel/src/mem/heap.rs:101-144 | alloc with such an alignment returns the start of the lowest long enough run of free frames, which is aligned iff that frame number is |
| `Heap.Misaligned` | kernel/src/mem/heap.rs:134-142 | with frames 1 to 7 free, 8192 bytes aligned to 8192 come at frame 1 |
| `Heap.Conservation` | kernel/src/mem/heap.rs:101-185 | free frames and heap frames are disjoint and their number is constant |
| `Heap.SlabAllocator.ThreadPage` | kernel/src/mem/heap.rs:74-80 | all slots of a page are on one list, each once, in order |
| `Heap.SlabAllocator.NewSlab` | kernel/src/mem/heap.rs:65-96 | a fresh page becomes a slab, or nothing changes, iff no header or no frame is free; live blocks keep their contents |
| `Heap.SlabAllocator.TakeSlot` | kernel/src/mem/heap.rs:125-129 | one slot becomes live and reads as zeros; every other block is as it was |
| `Heap.SlabAllocator.TakePages` | kernel/src/mem/heap.rs:133-143 | a large block is the lowest long enough run of free frames, zeroed, and null iff there is none; it overlaps nothing |
| `Heap.SlabAllocator.Alloc` | kernel/src/mem/heap.rs:101-144 | a zeroed block that serves the layout and overlaps no live block; null iff no slot, no frame for a new slab or no run of frames can serve it, and then nothing changed |
| `Heap.SlabAllocator.DropSlot` | kernel/src/mem/heap.rs:155-173 | the slot is free again, and the page goes back iff no live slot is left in it |
| `Heap.SlabAllocator.DropPages` | kernel/src/mem/heap.rs:176-182 | exactly the frames of the block go back |
| `Heap.SlabAllocator.Dealloc` | kernel/src/mem/heap.rs:146-185 | exactly this block dies, every other keeps its place and contents, frames are conserved; null changes nothing |
| `Heap.NothingLeaks` | kernel/src/mem/heap.rs:166-170 | without live blocks the heap holds no frame |
| `Heap.Step` | kernel/src/mem/heap.rs:101-185 | one allocation, free or write does to the heap what it does to a map from pointers to words; an allocation fails iff it cannot be served |
| `Heap.Run` | kernel/src/mem/heap.rs:65-185 | over every run each action did what it means, and at every moment blocks are disjoint, aligned and hold what was last written; when all are returned the frame allocator has every frame and its count back |
| `SharedMemory.TreesUntouched` | kernel/src/arch/amd64/paging.rs:186-406 | writing and freeing only frames outside the page-table trees keeps the trees, and every page and byte they map |
| `SharedMemory.HeapUntouched` | kernel/src/mem/heap.rs:101-185 | leaving the heap's frames alone keeps the heap and the contents of every block |
| `SharedMemory.Start` | kernel/src/mem/pmm.rs:104-162 | an empty heap and no processes on one machine meet what the run needs |
| `SharedMemory.HeapStep` | kernel/src/mem/heap.rs:101-185 | a heap action does what it means and every process keeps its pages, bytes and regions |
| `SharedMemory.CallStep` | kernel/src/syscall/mm.rs:26-187 | an exec, fork or memory call does what it promises and every block keeps its contents |
| `SharedMemory.Run` | kernel/src/mem/pmm.rs:168-260 | over every interleaving of heap actions and calls on one frame allocator: each did its part, and at every moment both sides are in order and share no frame |
| `SharedMemory.BlockKept` | kernel/src/mem/heap.rs:101-185 | over any such run a block keeps its contents until its holder writes or frees it, whatever processes do |
| `SharedMemory.ProcessKept` | kernel/src/syscall/mm.rs:26-187 | over any such run a process that no call was about keeps its pages, bytes and regions, whatever the heap does |
| `Descriptors.TakeRef` | kernel/src/proc/fd.rs:16-24 | whatever some descriptor names can be retained, and the new reference is counted |
| `Descriptors.DropRef` | kernel/src/proc/fd.rs:26-33 | an entry is freed only when nobody names it; everything still named keeps its state |
| `Descriptors.Tables.Retain` | kernel/src/proc/fd.rs:16-24 | counts one more reference iff the entry is in use |
| `Descriptors.Tables.Release` | kernel/src/proc/fd.rs:26-33 | drops one reference, and the entry with the last one |
| `Descriptors.Tables.AllocFd` | kernel/src/proc/fd.rs:373-386 | the lowest empty descriptor from 3 on, or failure iff there is none |
| `Descriptors.Tables.CloseFd` | kernel/src/proc/fd.rs:147-163 | succeeds iff the descriptor names something; counts stay sound, and exact if they were |
| `Descriptors.Tables.DupFd` | kernel/src/proc/fd.rs:169-216 | exactly when and where it duplicates; what the target named before is released, never something still named |
| `Descriptors.Tables.OpenFd` | kernel/src/proc/fd.rs:99-117 | a file entry nobody named, on the lowest descriptor; counts stay exact iff there is a current process or no entry was free |
| `Descriptors.Tables.AllocPipe` | kernel/src/proc/fd.rs:388-403 | both ends of a pipe nobody named, with an empty ring, iff there are a process, a free pipe and two empty descriptors; otherwise no table changes but the flags of an empty descriptor |
| `Descriptors.Tables.OpenDevice` | kernel/src/proc/fd.rs:409-421 | character devices are named without being counted; fails iff it is no such device, or there is no process or no empty descriptor |
| `Descriptors.Tables.Fork` | kernel/src/proc/fd.rs:41-74 | the child names what the parent names, each counted again; exact iff the slot named nothing |
| `Descriptors.Tables.Spawn` | kernel/src/proc/process.rs:11-20 | a process with the three standard descriptors; exact iff the slot named nothing |
| `Descriptors.Tables.ReleaseFds` | kernel/src/proc/fd.rs:35-39 | one reference per descriptor is dropped |
| `Descriptors.Tables.Reap` | kernel/src/proc/fd.rs:76-88 | a zombie's names are dropped with it, its exit code returned; anything else is left alone |
| `Descriptors.Overwrite` | kernel/src/proc/fd.rs:62 | overwriting a process keeps counts exact iff it named nothing counted |
| `Descriptors.SpawnLeak` | kernel/src/proc/process.rs:11-20 | from empty tables: a process opens a file, exits and is spawned over before it is reaped, and the file stays open with no name |
| `Descriptors.OpenLeak` | kernel/src/proc/fd.rs:99-107 | from empty tables: a file opened while no process runs stays open with no name |
| `Descriptors.Leaked` | kernel/src/proc/fd.rs:99-107 | opening without a current process leaves an entry counted that nobody names |
| `Descriptors.NoDangling` | kernel/src/proc/fd.rs:119-145 | whatever a descriptor names is in use, with a positive count |
| `Descriptors.Tables.Step` | kernel/src/proc/fd.rs:16-421 | what one call does to every process's descriptors; a write puts what fits into the pipe its descriptor names, a read takes what there is up to its count or waits, only creating a pipe nobody names starts a new history; counts are exact afterwards iff they were and the call was careful |
| `Descriptors.Tables.Run` | kernel/src/proc/fd.rs:16-421 | over every interleaving of open, close, dup, pipe, fork, spawn, exit, reap, read and write: each call does what it promises, and at every moment no descriptor dangles and the bytes read from a pipe are a prefix of those written to it since it was created |
| `Descriptors.ExactIff` | kernel/src/proc/fd.rs:16-421 | over any such run the counts are exact at a moment iff they were at the start and every call until then was careful |
| `Descriptors.ReadsPrefix` | kernel/src/proc/fd_pipe.rs:111-153 | over any such run the histories are what the reads returned and the writes put in, and the first is a prefix of the second |
| `Pipes.Ring.Fill` | kernel/src/proc/fd_pipe.rs:120-127 | appends as much as fits, in order |
| `Pipes.Ring.Drain` | kernel/src/proc/fd_pipe.rs:137-146 | takes the oldest bytes; accepted bytes are always delivered bytes and then the contents |
| `Rings.WindowPush` | kernel/src/proc/fd_pipe.rs:121-126 | a byte at the wrapping write position is the last of the window |
| `Rings.WindowPop` | kernel/src/proc/fd_pipe.rs:139-144 | the byte at the read position is the first of the window |
| `Descriptors.Tables.WritePipe` | kernel/src/proc/fd_pipe.rs:111-128 | through any write end: the prefix that fits is accepted, nothing once no read end is left; no other pipe changes |
| `Descriptors.Tables.ReadPipe` | kernel/src/proc/fd_pipe.rs:130-153 | through any read end: the next bytes; end of file only if the ring is empty and no write end is left; otherwise it waits |
| `KernelStacks.Pushed` | kernel/src/proc/scheduler.rs:118-126 | registers pushed lie before what was on the stack, the last one first |
| `KernelStacks.Popped` | kernel/src/proc/scheduler.rs:136-143 | each register popped takes the word at its place, no other register changes |
| `KernelStacks.SwitchRoundTrip` | kernel/src/proc/scheduler.rs:111-148 | a stack switched away from and to again: the return address, the stack and all registers a callee must preserve are as they were, whatever the others hold |
| `KernelStacks.EntryPushesFrame` | kernel/src/syscall/mod.rs:76-100 | what the system call entry pushes is the frame struct, field by field |
| `KernelStacks.FrameReturns` | kernel/src/syscall/mod.rs:123-143 | a return through the frame struct goes on where the user was, with the rax and the rsp of the frame |
| `KernelStacks.SyscallRoundTrip` | kernel/src/syscall/mod.rs:76-143 | a system call changes rax, and otherwise only rcx, r11 and r10; rip, rsp and flags are as before |
| `KernelStacks.PushContext` | kernel/src/proc/task.rs:226-239 | a return address and six zeros below it, the rest of the stack as before |
| `KernelStacks.UserStack` | kernel/src/proc/task.rs:214-239 | a switch to this stack enters user mode at the entry point with the user stack and the tables given |
| `KernelStacks.KernelTaskStack` | kernel/src/proc/task.rs:66-80 | a switch to this stack goes to the entry point in the kernel, with an empty stack |
| `KernelStacks.ForkStack` | kernel/src/proc/task.rs:281-298 | a switch to this stack returns from the parent's system call with the parent's registers and 0 in rax |
| `KernelStacks.SetChildStack` | kernel/src/syscall/process.rs:860-863 | a clone with a stack of its own returns the same way, on that stack |
| `Tasks.StepInv` | kernel/src/proc/task.rs:116-171 | every step keeps at most one running task, the current one, and its tables loaded |
| `Tasks.AlwaysInv` | kernel/src/proc/task.rs:116-392 | the same in every state of every run |
| `Tasks.StepCloser` | kernel/src/proc/task.rs:116-171 | a switch runs a waiting task or brings the scheduler nearer to it |
| `Tasks.Fairness` | kernel/src/proc/task.rs:116-171 | a ready task that is not killed runs within 7 switches, whatever is spawned and killed meanwhile |
| `Tasks.DeadForever` | kernel/src/proc/task.rs:385-392 | a killed task never runs again in any run |
| `Tasks.StepParks` | kernel/src/proc/task.rs:133-149 | a running task that is switched away from waits in its slot with the stack pointer and registers it saved, its tables and its stack |
| `Tasks.StepSpawns` | kernel/src/proc/task.rs:241-250 | a spawned task waits in an empty slot, under a new id, with exactly the stack pointer, stack and tables it was given |
| `Tasks.Resumes` | kernel/src/proc/task.rs:116-171 | over any run, a waiting task is next run with exactly what was saved |
| `Tasks.GoesOnWhereItWas` | kernel/src/proc/scheduler.rs:74-148 | over any run, a task that gave up the processor goes on at its return address, with its stack, preserved registers and tables |
| `Tasks.FirstRunOfSpawned` | kernel/src/proc/task.rs:191-262 | over any run, the first switch to a spawned task loads the stack pointer and tables it was given, and the top of its stack |
| `Tasks.ForkedChildGoesOn` | kernel/src/proc/task.rs:264-312 | over any run, a forked child first returns from its parent's system call with 0, in its own tables |
| `Tasks.Keeps` | kernel/src/proc/task.rs:116-262 | over any run, a task stays in its slot with the tables and the stack it was spawned with |
| `Tasks.Scheduler.FindNext` | kernel/src/proc/task.rs:120-129 | the search finds the nearest task that can run, iff there is one |
| `Tasks.Scheduler.NextTaskSwitch` | kernel/src/proc/task.rs:116-171 | picks the nearest ready task with its stack and tables; a dead task's slot is emptied; nothing changes iff nobody can run |
| `Tasks.Scheduler.TrySwitch` | kernel/src/proc/scheduler.rs:74-83 | saves the running task and loads the nearest ready one; nothing happens inside a system call |
| `Tasks.Scheduler.CurrentPml4` | kernel/src/proc/task.rs:108-114 | the tables of the current task are those that are loaded |
| `Tasks.Scheduler.KillTask` | kernel/src/proc/task.rs:385-392 | marks one task dead |
| `Tasks.Scheduler.FreeSlot` | kernel/src/proc/task.rs:193-199 | the lowest empty slot, none iff the table is full |
| `Tasks.Scheduler.AddTask` | kernel/src/proc/task.rs:241-250 | the new task waits in its slot with the stack pointer, stack and tables given |
| `Tasks.Scheduler.SpawnUserTask` | kernel/src/proc/task.rs:191-262 | a task whose first switch enters user mode at the entry point; none iff the table is full or there is no stack |
| `Tasks.Scheduler.SpawnForkedTask` | kernel/src/proc/task.rs:264-312 | a task whose first switch returns from the parent's system call; none iff the table is full or there is no stack |
| `Tasks.Scheduler.InitMainTask` | kernel/src/proc/task.rs:173-187 | the boot thread is the running task 0, with its stack and the kernel's tables |
| `SignalSets.AddMeaning` | kernel/src/syscall/process.rs:111-114 | setting a bit adds exactly that signal |
| `SignalSets.RemoveMeaning` | kernel/src/syscall/process.rs:116-119 | clearing a bit removes exactly that signal |
| `SignalSets.UnionMeaning` | kernel/src/syscall/process.rs:723-727 | or-ing words is set union |
| `SignalSets.MinusMeaning` | kernel/src/syscall/process.rs:728-732 | and-not of words is set difference |
| `SignalSets.ContainsBit` | kernel/src/syscall/process.rs:100-109 | signal n is bit n - 1 of the sixteen words |
| `Signals.ApplyGood` | kernel/src/syscall/process.rs:125-273 | every call keeps SIGKILL out of every mask, saved mask and pending set |
| `Signals.NeverKill` | kernel/src/syscall/process.rs:505-541 | the same in every state of every run, fork and clone included |
| `Signals.DeliverTakesOne` | kernel/src/syscall/process.rs:197-215 | the lowest pending unblocked signal is taken, the thread's own first, and exactly one pending bit goes |
| `Signals.DeliverNothing` | kernel/src/syscall/process.rs:193-210 | nothing deliverable, or already in a handler: no change |
| `Signals.LowestExists` | kernel/src/syscall/process.rs:197-207 | whenever something is deliverable, something is the lowest |
| `Signals.DeliverTerminates` | kernel/src/syscall/process.rs:158-179 | without a handler the process ends with 128 plus the signal, with all its threads and no others |
| `Signals.ParentTold` | kernel/src/syscall/process.rs:158-179 | the parent of a terminated process, if it is there, has SIGCHLD pending |
| `Signals.KillQueues` | kernel/src/syscall/process.rs:505-517 | kill makes exactly this signal pending, for exactly the first process with this pid |
| `Signals.TkillQueues` | kernel/src/syscall/process.rs:523-541 | tkill makes exactly this signal pending, for exactly the first thread with this id |
| `Signals.ForkInherits` | kernel/src/proc/state.rs:311-335 | a forked child has its parent's mask, actions, memory and registers but for a rax of 0, and no signal to deliver |
| `Signals.CloneInherits` | kernel/src/proc/process.rs:188-207 | a thread added by clone has the caller's mask and registers but for a rax of 0, nothing pending, and is counted |
| `Signals.HandlerMaskMeaning` | kernel/src/syscall/process.rs:259-266 | in a handler a signal is blocked iff it is not SIGKILL and was blocked, is the one handled or is in the action's mask |
| `Signals.NewMaskMeaning` | kernel/src/syscall/process.rs:718-737 | what blocking, unblocking and setting leave blocked, signal by signal |
| `Signals.AltStackMeaning` | kernel/src/syscall/sys.rs:190-221 | after sigaltstack handlers that ask for it run at the end of the new stack, none does once it is disabled, and a bad stack changes nothing |
| `Signals.ActionMeaning` | kernel/src/syscall/process.rs:669-693 | after sigaction exactly this signal has the new action, unless that has a handler without restorer |
| `Signals.EnterSaves` | kernel/src/syscall/process.rs:227-271 | the handler is entered iff its stack has room, the alternate one iff the action asks for it and there is one; then the return address and all registers lie at its end, and exactly the right signals are blocked |
| `Signals.DeliverEnters` | kernel/src/syscall/process.rs:212-271 | a signal with a handler reaches it iff the stack has room for the frame; otherwise exactly its pending bit is gone |
| `Signals.ApplyRestorable` | kernel/src/syscall/process.rs:669-693 | every call keeps a restorer beside every handler |
| `Signals.AlwaysRestorable` | kernel/src/syscall/process.rs:669-693 | the same in every state of every run |
| `Signals.LostSignal` | kernel/src/syscall/process.rs:241-249 | a run from empty tables in which a handled signal is consumed and never reaches its handler |
| `Signals.HandlerKept` | kernel/src/syscall/process.rs:190-273 | over any run, what a handler will return to changes only by its own sigreturn |
| `Signals.RoundTrip` | kernel/src/syscall/process.rs:190-288 | delivery, any run, return through the restorer and sigreturn: every register, rax and the mask as before, handler flags clear |
| `Signals.WordsRoundTrip` | kernel/src/syscall/types.rs:125-141 | fifteen registers written to user memory read back |
| `Signals.SignalTables.ChooseSignal` | kernel/src/syscall/process.rs:197-210 | the search loop finds the lowest deliverable signal |
| `Signals.SignalTables.DeliverPendingSignal` | kernel/src/syscall/process.rs:190-273 | does what `Deliver` says, on every path |
| `Signals.SignalTables.EnterHandler` | kernel/src/syscall/process.rs:227-272 | builds the signal frame, with every failure path |
| `Signals.SignalTables.FinishSyscall` | kernel/src/syscall/process.rs:275-288 | stores the result and delivers |
| `Signals.SignalTables.RtSigreturn` | kernel/src/syscall/process.rs:745-755 | restores the frame and the mask, with every failure path |
| `Signals.SignalTables.RtSigprocmask` | kernel/src/syscall/process.rs:700-739 | blocks, unblocks or sets, never SIGKILL |
| `Signals.SignalTables.KillProcess` | kernel/src/syscall/process.rs:505-517 | queues the signal to the process, or ends it for SIGKILL |
| `Signals.SignalTables.KillThread` | kernel/src/syscall/process.rs:523-541 | queues the signal to the thread, or ends its process for SIGKILL |
| `Signals.SignalTables.TerminateGroup` | kernel/src/syscall/process.rs:158-179 | the process and its threads become zombies, the parent learns of it |
| `FutexWords.OrphanMeaning` | kernel/src/syscall/process.rs:362-366 | the owner field is cleared, OWNER_DIED set, bit 31 kept, and doing it again changes nothing |
| `FutexWords.HeldByMeaning` | kernel/src/syscall/process.rs:362-364 | a word names the thread iff its low 30 bits are the thread's number |
| `RobustList.ReleaseIsVisits` | kernel/src/syscall/process.rs:370-411 | for any list, cyclic or broken, the exit is a sequence of at most 65 visits |
| `RobustList.VisitAllWords` | kernel/src/syscall/process.rs:355-368 | a word ends up marked iff it was visited and named the exiting thread |
| `RobustList.ChangedOnce` | kernel/src/syscall/process.rs:355-368 | no word changes twice |
| `RobustList.ExitMeaning` | kernel/src/syscall/process.rs:370-411 | all of this for the exit of a thread, whose words are those with its number in the low 30 bits |
| `RobustList.VisitsOfList` | kernel/src/syscall/process.rs:370-411 | along a well-formed list the walk looks at the lock of every node, in order |
| `RobustList.ExitReleasesLocks` | kernel/src/syscall/process.rs:370-411 | when a thread with a well-formed list exits, exactly the locks on it that name the thread are marked |
| `RobustList.OnlyVisited` | kernel/src/syscall/process.rs:355-368 | whatever the alignment, only bytes of visited words change |
| `RobustList.Futexes.FutexWake` | kernel/src/syscall/process.rs:340-353 | waiters are released in table order, up to the count; all of them for a count of zero |
| `RobustList.Futexes.WakeRobustFutex` | kernel/src/syscall/process.rs:355-368 | marks the word and releases the first waiter on it, if there is one, and nobody else, iff the word names the thread |
| `RobustList.Futexes.ReleaseRobustList` | kernel/src/syscall/process.rs:370-411 | memory ends up as `Release` says, and only waiters on visited words are released |
| `FileIo.WriteAt` | kernel/src/syscall/fs.rs:55-70 | the written bytes at their place, zeros in a hole, the rest as before |
| `FileIo.WriteTwice` | kernel/src/syscall/fs.rs:55-70 | two writes in a row are one |
| `FileIo.ReadTwice` | kernel/src/syscall/fs.rs:20-37 | two reads in a row are one, and a short read is the end |
| `FileIo.ReadBack` | kernel/src/syscall/fs.rs:20-70 | a write is read back |
| `FileIo.OpenFile.FsWriteAt` | kernel/src/syscall/fs.rs:55-70 | writes this file and no other, iff it exists |
| `FileIo.OpenFile.WriteFile` | kernel/src/proc/fd.rs:341-364 | writes at the cursor or at the end, and moves the cursor behind it |
| `FileIo.OpenFile.Writev` | kernel/src/syscall/io.rs:57-81 | one write of all buffers; on a bad buffer, of those before it |
| `FileIo.OpenFile.Pwritev` | kernel/src/syscall/io.rs:257-274 | one positional write of all buffers, cursor unmoved |
| `FileIo.OpenFile.ReadFile` | kernel/src/proc/fd.rs:329-340 | the bytes at the cursor, which moves on |
| `FileIo.OpenFile.Readv` | kernel/src/syscall/io.rs:87-111 | one read of the summed length, dealt out in order |
| `FileIo.OpenFile.Pread` | kernel/src/syscall/io.rs:171-194 | the bytes at the position; panics iff it is past the end |
| `FileIo.OpenFile.Preadv` | kernel/src/syscall/io.rs:230-251 | one positional read dealt out in order, whenever the position is not past the end |
| `FileIo.PreadPastEnd` | kernel/src/syscall/io.rs:171-194 | a three-byte file read at position 4 panics |
| `Tty.EraseUndoes` | kernel/src/hw/tty.rs:105-121 | erase undoes a character iff the line had room for it |
| `Tty.PlainLineCommitted` | kernel/src/hw/tty.rs:99-123 | a typed line that fits is delivered as typed, with its newline |
| `Tty.Inner.CookedPush` | kernel/src/hw/tty.rs:38-44 | appends, or drops the byte iff 1023 bytes wait |
| `Tty.Inner.CookedPop` | kernel/src/hw/tty.rs:47-54 | the oldest byte, or none iff nothing waits |
| `Tty.Inner.CommitLine` | kernel/src/hw/tty.rs:56-62 | appends exactly the prefix of line and newline that fits |
| `Tty.Inner.InputChar` | kernel/src/hw/tty.rs:99-131 | every byte typed edits, commits or is ignored, and echoes accordingly |
| `Tty.Inner.Read` | kernel/src/hw/tty.rs:138-162 | a maximal prefix of what waits that does not cross a newline, which is exactly what the automaton serves |
| `Tty.Inner.Run` | kernel/src/hw/tty.rs:99-162 | over every interleaving each read returns what the terminal automaton says, the histories are what was typed and what was returned |
| `Tty.Inner.Handle` | kernel/src/hw/tty.rs:99-162 | one byte typed or one read is one step of the automaton |
| `Tty.DeliversLines` | kernel/src/hw/tty.rs:38-162 | from a new terminal what was delivered and what waits are exactly the edited lines iff no commit overflowed |
| `Tty.Session` | kernel/src/hw/tty.rs:99-162 | the same of the code: the reads of any session return a prefix of the edited lines typed in it |

## Left out

- Frame numbers stand for page-aligned physical addresses, and frames are typed; the direct map `p2v`/`v2p` is implicit.
- Panics (a failed `alloc_table`, a slice out of range, `expect`) are results of the model, after which nothing further is claimed.
- Interrupt masking, locks, the TLB and the write-protect bit of CR0 (mmap copies file bytes through the new mapping): each call is one step.
- UserMemory.MapFresh, VirtualMemory.MapPages: map user pages, as all their callers in the source do.
- Paging.Vmm.MapPageIn: kernel-half addresses are outside its domain, as are unaligned frames and frames that already belong to a space; the modelled callers map frames they have just allocated.
- Fork.CloneTable: the four nested loops of the source are one loop that recurses by level; the order of allocations is the same.
- Fork.CloneKernelAddressSpace: the source does not check its allocation, so a free frame is required.
- AddressSpaces.ExecAsTask: files outside the domain of `Elf.LoadInto`, and a machine without a free frame, are outside its domain.
- Elf.LoadInto: addresses that wrap around or leave user space are outside its domain (`Sane`).
- VirtualMemory.ProcessMemory.Mmap: requests that reach beyond user space or wrap around are outside its domain.
- VirtualMemory.ProcessMemory.Brk: breaks beyond user space are outside its domain.
- Heap.SlabAllocator.Dealloc: called, as the allocator interface demands, with null or a live block and its layout.
- Descriptors.Tables.ReadPipe: the waiting loop is one pass that reports it would block; a cleared pipe's ring is wiped when the entry is next used.
- Descriptors.Tables.Exit: exit of the last thread of a process; threads that share a process share its table through `current`.
- Tasks.Scheduler.TrySwitch: a kernel stack that overflows, and the thread's FS base, are not modelled; the boot task's stack is what it saves when it is first switched away from.
- KernelStacks.SyscallRoundTrip: a handler that rewrites the frame is the subject of `Signals.dfy`.
- Signals.SetAction: flag bits other than SA_ONSTACK are refused by the source and do not appear.
- Signals.UserStep: stands for anything user code, and copies the kernel makes to user memory on its request, do between calls.
- Signals.Deliver: page faults while the signal frame is written are not modelled.
- RobustList.ExitMeaning: futex words are aligned, as futexes must be; `RobustList.OnlyVisited` needs no alignment.
- FileIo.OpenFile: one open file; offsets that overflow 64 bits, and files removed while open, are outside the model.
- Tty.Inner.Read: the waiting loop is one pass.
- Boot-time mapping (`paging::init`), assembly stubs, device drivers, the shells, id and time system calls, sendfile, ioctl and the network stubs: plumbing or single-branch facts.
- Liveness of blocking calls (pipe read, futex wait, waitpid, sleep).
