# RVOS, modelled and proved in Dafny

RVOS is a small RISC-V kernel written in Rust. This project models the parts of it that carry
state from one call to the next, and proves what they keep over every run:

- **Memory.** A bump allocator hands out physical frames. Sv39 page tables live in those frames and
  are changed by the very code that walks them (`Pte`, `Sv39`, `PhysMem`, `HwWalk`, `TableCount`). The
  kernel's heap is a range of the same memory (`KernelHeap`, `HeapStore`).
- **Address spaces.** fork copies one, exec builds one from an ELF file and an argument list, brk and
  mmap extend one (`AddressSpace`, `CloneSpace`, `ElfLoad`, `UserRead`, `UserStack`, `UserHeap`,
  `UserStore`, `KernelStore`, `Exec`), and `Spaces` puts them together for any number of processes.
- **Processes.** Trap handler, fork, exit, blocking wait4 and the round-robin scheduler form one
  transition system (`Sched`), with its runs (`SchedRuns`), the life of a pid (`Lifecycle`), waiting
  and waking (`Wakeup`), fairness (`Bypass`), and the kernel's own code on its globals (`SchedKernel`).
- **Both together.** `WholeSystem` joins the scheduler and the address spaces: only the current process
  takes steps, through the table in satp, and whoever never runs keeps registers and memory. execve's
  arguments are followed from the caller's memory to the stack of the new program.
- **Byte streams.** The pipe's ring buffer (`Pipe`), vectored write (`Files`) and the paging of
  directory records (`Directory`).

`dafny verify dfyconfig.toml` checks everything.

## How it is modelled

Physical memory is an object (`PhysMem.Phys`) whose frames are overwritten in place. A frame is 512
words, and a word is kept as the fields that a page-table entry has; `Pte.EncodeDecode`,
`Pte.DecodeEncode`, `FrameBytes.BytesOfCellsOf` and `FrameBytes.CellsOfBytesOf` are the conversions to
numbers and bytes, so the same frame can be a table, a page of data or a stack. A ghost map gives every
frame that was handed out one role: table at a place of a tree, page of an address space, kernel stack, or
not used yet. That the trees share nothing, and that no two address spaces share a page, are invariants
over this map.

The kernel is built in release mode, so machine arithmetic wraps at 2^64; the model wraps where a
value can get that far (rounding up, the break, the mmap base). An operation ends with a value, with
`None`, or with a panic, and the three are told apart (`PhysMem.Outcome`).

A step of the scheduler is one trap, from user mode back to user mode. The registers at the trap are
part of the event, so the user program is not restricted. The number of frames a call takes, and the result
of calls that do not touch the process table, come with the event.

Stores go through the processor's walk. A store of the program needs a canonical address and a leaf with
R, W and U. The kernel stores for a program with SUM set and in its table, so there R and W are enough,
and the identity-mapped kernel pages have both: such a store can reach any frame. `build_stack` writes
to physical addresses and runs on into the next frame if the strings do.

The kernel's heap, 0x86000000 to 0x87000000, lies in the range that `alloc_page` hands out. exec copies the
whole file there, and any other call may write there. As long as the frame cursor has not passed
0x86000000 these writes meet no frame in use; beyond it they do, and `alloc_page` zeroes heap blocks. All
claims over runs are therefore for runs that stay below it.

Several properties hold only under a condition that the kernel does not check. For all but the last
the condition is proved to be necessary and sufficient; for that one it is sufficient, and a lemma shows
what happens without it:

| property | condition | without it |
|---|---|---|
| both page walks agree | `HwWalk.WalksAgree` | the processor faults |
| the stack image stays in its page | `UserStack.StaysInExactly` | `Exec.ThirteenStringsHitTable` |
| a kernel store through a user pointer spares all others | `KernelStore.SparesExactly` | `Spaces.StatusHitsNeighbour` |
| the heap is backed up to the break | `UserHeap.BackedExactly` | `UserHeap.WrappedBreakRun` |
| writev is one write | `Files.WritevIsWrite` | the same lemma |
| frames and heap stay apart | `KernelHeap.FramesAvoidHeap` | `KernelHeap.HeapAndFramesMeet` |
| what the kernel writes to its heap spares every frame in use | `HeapStore.HeapSafeExactly` | `Spaces.ExecHitsNeighbour` |
| argv and envp come back from the stack of the new program | `UserStack.ArgumentsRoundTrip` | `UserStack.LongArgumentIsCut` |
| bytes pushed as characters come back | `UserRead.Utf8IsIdentity` | the same lemma |
| nobody is ever left waiting without a live child | `Wakeup.CarefulRunExactly` | `Wakeup.CarelessForGood` |
| a ready process runs within its distance | `Bypass.BoundedBypass` | `Bypass.ForksStarve`, bounded by `Bypass.NoStarvation` |

Where code and its surroundings differ, the model follows the code: a process that is the only ready
one returns to user mode still marked ready; a blocked wait4 is repeated with -11 in a0 and then takes any
child; execve leaves 0 in a0, not argc; a write of no bytes behind the end of a file extends it.

## Model

| member | source | states |
|---|---|---|
| `Pte.NewPteIsShiftOr` | src/mm.rs:121-124 | the fields of a new entry stand for the number ppn shifted by 10 or-ed with the flags, with no bit lost and no bit shared |
| `Pte.EncodeDecode` | src/mm.rs:121-137 | encoding the decoded fields of any number gives the number |
| `Pte.DecodeEncode` | src/mm.rs:121-137 | decoding the number of a word gives back its fields |
| `Sv39.WalkStaysOwned` | src/mm.rs:195-213 | a walk visits only table frames of its own root, on the path of its own page number: the trees are unshared |
| `Sv39.LookupFrame` | src/mm.rs:195-213 | a lookup depends on the table frames of its own root and on nothing else |
| `Sv39.LinkKeepsTrees` | src/mm.rs:170-175 | linking a fresh zeroed table keeps every tree well formed |
| `Sv39.LinkKeepsLookups` | src/mm.rs:170-175 | linking an intermediate table changes no translation of any root |
| `Sv39.LeafChangesOne` | src/mm.rs:180-193 | overwriting one leaf entry changes the translation of one page of one root |
| `Sv39.NumberOfIndices` | src/mm.rs:159-163 | the three index masks keep exactly the page number mod 2^27 |
| `Sv39.IndicesOfNumber` | src/mm.rs:280-281 | the page number that clone puts together has the indices it was put together from |
| `Sv39.LeafSetRefines` | src/mm.rs:180-193 | map inserts one key of the finite map (27-bit page number to frame and flags), unmap removes one, and the maps of other roots stay the same |
| `Sv39.ConfinedKeepsOthers` | src/mm.rs:158-186 | an operation confined to one root leaves translations, roles and contents of every other address space |
| `PhysMem.Phys.constructor` | src/mm.rs:64-70 | at boot nothing is handed out and the cursor is the page-aligned end of the kernel |
| `PhysMem.Phys.AllocPage` | src/mm.rs:72-82 | hands out the zeroed frame at the cursor, exactly when it lies below the end |
| `PhysMem.Phys.AllocPages` | src/mm.rs:84-95 | hands out n zeroed consecutive frames, none in use before, exactly when they lie below the end |
| `PhysMem.Phys.NewTable` | src/mm.rs:144-149 | a new root on a fresh frame, with no translation |
| `PhysMem.Phys.FindPteCreate` | src/mm.rs:158-178 | returns the slot that the walk reaches, having added only empty tables; fails only when frames run out |
| `PhysMem.Phys.Map` | src/mm.rs:180-186 | adds one translation; panics with a remap exactly if the page was mapped, and with out of memory only if no frame is left |
| `PhysMem.Phys.FindPte` | src/mm.rs:195-213 | finds the slot of the leaf exactly if the page is mapped |
| `PhysMem.Phys.Translate` | src/mm.rs:215-221 | the frame of the leaf with the 12-bit offset, or nothing exactly if the page is not mapped |
| `PhysMem.Phys.Unmap` | src/mm.rs:188-193 | removes one translation and leaves all others |
| `HwWalk.SamePath` | src/mm.rs:195-213 | on every table this code builds, the processor's walk takes the software's path: interior entries are pure pointers, so no superpage arises |
| `HwWalk.WalksAgree` | src/mm.rs:215-221 | the software walk and the Sv39 walk agree if and only if the page is unmapped or the address is canonical and the leaf has R or X, not W without R, and a 44-bit frame; otherwise the processor faults |
| `HwWalk.ProcessWalksAgree` | src/mm.rs:215-221 | in a process's table the two agree on a canonical address if and only if a user leaf there has R or X and not W without R |
| `FrameBytes.CellsOfBytesOf` | src/mm.rs:114-137 | the 512 words of a frame come back from its 4096 bytes |
| `FrameBytes.PhysWriteByte` | src/proc.rs:222 | a write through the identity map puts its bytes at their physical addresses, over as many frames as it takes, and leaves every other byte |
| `KernelHeap.Bump.Alloc` | src/mm.rs:26-36 | blocks are aligned, inside the heap's range and pairwise disjoint, over every sequence of allocations; fails exactly when the aligned block passes the end |
| `KernelHeap.FramesAvoidHeap` | src/mm.rs:18-22 | frames and the heap's range are disjoint if and only if the frame cursor has not passed the heap's start (or frames begin behind it, or none was taken) |
| `KernelHeap.BlocksAvoidFrames` | src/mm.rs:26-36 | while the cursor is in bounds no heap block overlaps a frame |
| `KernelHeap.HeapAndFramesMeet` | src/mm.rs:64-70 | past the bound the first heap block, whatever its size, and a frame share an address |
| `HeapStore.KeptOwned` | src/mm.rs:26-36 | a write that leaves all frames in use alone changes no translation and no page of any address space |
| `HeapStore.HeapSafeExactly` | src/mm.rs:18-22 | writes to any place of the heap, of any bytes, leave every frame in use as it is if and only if the frame cursor has not passed the heap's start (or frames begin behind it, or none was taken) |
| `HeapStore.HeapWriteReaches` | src/proc.rs:162 | a heap write that meets the page of a process, and no table, is what the process reads there |
| `HeapStore.CopyToHeap` | src/proc.rs:158-164 | the file goes to the next 16-aligned block, if a layout of its size exists and the heap has room, and nowhere else |
| `HeapStore.HeapWriteCommutes` | src/proc.rs:158-164 | with frames below the heap, the copy may as well have come before the frames that were taken first |
| `HeapStore.FileStays` | src/proc.rs:262-275 | while frames stay below the heap the loader reads the file's bytes from its block |
| `TableCount.KernelPagesCost` | src/mm.rs:250-260 | a table with the kernel's pages has at least 69 tables of its own: the root, two of the second level and 66 of the third |
| `AddressSpace.MapRange` | src/mm.rs:251-253 | identity-maps the pages of a range and nothing else |
| `AddressSpace.MapKernel` | src/mm.rs:250-260 | the four loops give an empty table exactly the kernel's pages, all four regions with their permissions |
| `AddressSpace.NewSpace` | src/mm.rs:249-260 | a fresh root with exactly the kernel's pages; every other address space is untouched |
| `CloneSpace.ParentUntouched` | src/mm.rs:263-279 | while the loops copy, the parent's tables read as they did at the start |
| `CloneSpace.CloneEntry` | src/mm.rs:275-292 | one entry: a user page is copied to a fresh frame with the same flags and bytes, anything else is skipped |
| `CloneSpace.CloneLoops` | src/mm.rs:262-296 | the three loops visit every page number, and each is a copy or a kernel page |
| `CloneSpace.CloneUserSpace` | src/mm.rs:248-297 | an exact copy of the parent's user pages on frames not in use before, plus the kernel's pages; the parent keeps translations and contents; a remap panic happens only if the parent has a user page on a kernel page number |
| `CloneSpace.CopyCost` | src/mm.rs:248-297 | a copy takes at least 69 frames |
| `ElfLoad.LoadPage` | src/proc.rs:125-147 | one page: a fresh frame mapped with the segment's permissions, holding the file's bytes where they fall and zeros elsewhere |
| `ElfLoad.LoadSegment` | src/proc.rs:110-148 | every page from the segment's first to its last byte is loaded |
| `ElfLoad.LoadElf` | src/proc.rs:106-152 | on success all segments are loaded, exactly their pages were added, they were free and all different before, nothing mapped before changed, and the highest end is returned; a remap panic happens only if they were not free and different, and any other failure only for a bad header or for lack of frames |
| `ElfLoad.LoadedByte` | src/proc.rs:106-152 | any address of a segment reads the file's byte below filesz and 0 from there to memsz, with the segment's R/W/X plus U, A, D |
| `UserRead.ReadStr` | src/syscall.rs:382-393 | the loop of read_user_str computes the string up to the first NUL, at most 4096 bytes |
| `UserRead.ReadVector` | src/syscall.rs:835-851 | the argument loop computes the strings up to the first null, unmapped or unreadable pointer, at most 129 |
| `UserRead.StrFromReads` | src/syscall.rs:382-393 | a NUL-terminated string in readable memory is read back, with each byte taken as a Unicode character |
| `UserRead.Utf8IsIdentity` | src/syscall.rs:388 | pushing bytes as characters gives back the same bytes if and only if they are ASCII |
| `UserRead.Utf8Decodes` | src/syscall.rs:388 | decoded as UTF-8, what was pushed has one character for each byte of memory, with that byte's value |
| `UserRead.VectorFromReads` | src/syscall.rs:835-851 | a null-terminated vector of pointers to NUL-free ASCII strings is read back whole |
| `UserStack.InPageCount` | src/proc.rs:218-232 | strings that stay within the page are at most 12 |
| `UserStack.BuildStack` | src/proc.rs:166-238 | for all argument lists, the writes in their order: words, strings with their NULs, random bytes, from the start of the frame on and over its end if they go that far |
| `UserStack.ImageFits` | src/proc.rs:166-238 | if every string ends in the page, the one frame receives argc, both pointer vectors with their nulls, the auxiliary vector, of every string the part that fits its slot of 256 bytes, the last string whole, and the random bytes, and no other frame changes |
| `UserStack.StaysInExactly` | src/proc.rs:218-232 | the writes leave all other frames alone, whatever memory holds, if and only if every string with its NUL ends in the page |
| `UserStack.LastStringStands` | src/proc.rs:226-232 | the last string is found at its slot, in whatever frame that is |
| `UserStack.ShownExactly` | src/proc.rs:218-232 | every slot is left with its own string if and only if each string before the last is shorter than 256 bytes or goes on with exactly the next string |
| `UserStack.ArgumentsReadBack` | src/proc.rs:166-238 | reading back from the returned stack pointer with the loops of execve gives argc and, for NUL-free ASCII strings that end in the page, for each string its first 256 bytes followed by what is read at the next slot, or the string itself if it is shorter or the last |
| `UserStack.ArgumentsRoundTrip` | src/proc.rs:166-238 | for NUL-free ASCII strings that end in the page, argv and envp read back are the given ones if and only if each string before the last is shorter than 256 bytes or goes on with exactly the next string |
| `UserStack.LongArgumentIsCut` | src/proc.rs:220-225 | an argument of 300 bytes with a one-byte environment comes back as its first 256 bytes and that byte |
| `UserHeap.Brk` | src/syscall.rs:459-482 | returns the new break; the pages added are zeroed user read-write pages between the two roundings, all of them while frames last; nothing changes if the break does not rise or its rounding does not; no translation is altered |
| `UserHeap.BrkRun` | src/syscall.rs:459-482 | over any sequence of brk calls, wrapping ones included, no translation is altered, and while a frame is left the mapped pages are exactly those of before and those the calls cover |
| `UserHeap.BackedExactly` | src/syscall.rs:459-482 | after any sequence of calls the heap is mapped up to the rounded break if and only if every page below it was mapped before or is covered by a call |
| `UserHeap.RoundingStaysBacked` | src/syscall.rs:468-478 | if no rounding wraps, a heap that was mapped up to its break stays so, whatever the calls |
| `UserHeap.WrappedBreakRun` | src/syscall.rs:465-480 | two calls of the code: a break of 2^64 - 1 maps nothing, and the lower break after it is accepted with its page unmapped |
| `UserStore.StoreChunk` | src/syscall.rs:516-517 | a store within a page goes through exactly if the processor translates the address and the leaf has W, and U for the program; it overwrites the bytes of the frame it reaches |
| `UserStore.StoreFrameIs` | src/mm.rs:215-221 | in terms of the table: canonical address, leaf with R and W, a 44-bit frame, and U for the program; the frame is the leaf's |
| `UserStore.StoreRange` | src/syscall.rs:516-528 | a store of any length goes page by page, wraps at 2^64 and stops at the first fault |
| `UserStore.StoreAllIsOwn` | src/syscall.rs:516-528 | a store by the program, or by the kernel off its own pages, changes user pages of its own address space only, goes through exactly if every byte can be stored, and then leaves exactly its data there |
| `UserStore.Mmap` | src/syscall.rs:484-534 | for every request: zeroed pages of the range with the asked permissions and nothing else are added, all of them while frames last; then the kernel zeroes the range and copies the file through the table; the call panics only for lack of frames, returns exactly if those stores go through, and moves the base past the mapping unless MAP_FIXED |
| `UserStore.MmapOff` | src/syscall.rs:484-534 | off the kernel's pages the range reads as the file followed by zeros and belongs to the caller, every byte outside it reads as before, and every page that is new lies in the range with U and exactly the asked R, W and X |
| `UserStore.MmapRun` | src/syscall.rs:496-534 | any sequence of calls without MAP_FIXED that do not wrap the base: the first range is at 0x50000000 if nothing was mapped before, each next one lies behind the one before it, so no two overlap, and after all of them each range still reads as its own file followed by zeros |
| `UserStore.FillIsOwn` | src/syscall.rs:516-528 | off the kernel's pages the range reads back as the file followed by zeros, exactly if every byte of it can be stored, and nothing but the caller's user pages changes |
| `UserStore.GrownThenFilled` | src/syscall.rs:501-531 | growing and then filling off the kernel's pages is confined to the address space and alters no translation |
| `UserStore.AddedIsHeap` | src/syscall.rs:468-478 | the pages that brk adds lie between the two roundings, the program can store to every byte of them and reads 0 there |
| `UserStore.BrkThenAsk` | src/syscall.rs:459-482 | brk(a) and then brk(0) returns a, and brk(0) alone the break of before, which is 0x10000 if it was 0; brk(0) changes nothing |
| `KernelStore.ReachesAnyFrame` | src/syscall.rs:941-943 | through every process's table a kernel store to an address of physical memory reaches that frame |
| `KernelStore.HitsOtherProcess` | src/syscall.rs:941-943 | a kernel store to the physical address of another process's page goes through, and that process reads the stored bytes |
| `KernelStore.SparesExactly` | src/syscall.rs:941-943 | a kernel store of up to a page at any address changes nothing but user pages of the caller if and only if each of its two parts faults, reaches no memory or the caller's own page, or finds its bytes already there |
| `KernelStore.SparesAllAlong` | src/syscall.rs:516-528 | a kernel store of any length has changed nothing but user pages of the caller at every page boundary if and only if every part that is reached is harmless in that sense before it |
| `KernelStore.OffKernelSpares` | src/syscall.rs:941-943 | off the kernel's pages it always does |
| `Exec.MapStack` | src/proc.rs:254-260 | nine fresh user pages from the top of the stack down, and nothing else; the frame behind the top page is the second-level table above the stack |
| `Exec.ExecProcess` | src/proc.rs:241-286 | for all argument lists: while frames stay below the heap and the heap has room for the file, it succeeds on a readable image exactly if the segments' pages are all different and off the kernel and the stack, and panics with a remap otherwise; on success the file is in the heap, the segments are loaded, the stack image is written over that memory, and the break is a multiple of 4096 that is not below the end of any segment and less than 4096 above the end of one, or 0x10000 without segments; with arguments that fit the page the result is ready to run, has besides the kernel's pages only the segments' and the nine stack pages, and nothing in use is touched; when it fails nothing in use is touched. If frames have reached the heap, the copy of the file is written all the same |
| `Exec.ThirteenStringsHitTable` | src/proc.rs:218-232 | with thirteen strings the bytes of the thirteenth are the first bytes of a page table of the new address space |
| `Exec.LoadsIfPlaceable` | src/proc.rs:275 | over the kernel's pages and the stack, loading goes through exactly if the segments' pages are all different and off those pages |
| `Exec.NewProcess` | src/proc.rs:36-52 | a fresh root with the kernel's pages and a kernel stack of two fresh frames |
| `Exec.InitUserProc` | src/proc.rs:64-104 | the first process gets an address space as exec builds it, with the same conditions and the same break, and a kernel stack |
| `Exec.ArgumentsArrive` | src/proc.rs:241-286 | in an address space that exec built from NUL-free ASCII arguments that end in the page, argv and envp read back from the stack are the ones given to exec if and only if each string before the last is shorter than 256 bytes or goes on with exactly the next string |
| `Exec.AuxvArrives` | src/proc.rs:199-216 | behind the nulls of argv and envp the new program reads the pairs 6: 4096, 3: program headers, 4: their size, 5: their number, 9: entry point, 25: an address, 17: 100 and 0: 0, and 16 bytes 0xab at that address |
| `Exec.FirstBreakIsBehind` | src/proc.rs:279 | the rounded highest end is the break that the segments ask for, in terms of vaddr + memsz alone |
| `Exec.HeapIsBehind` | src/syscall.rs:459-482 | no page at or above such a break is a page of a segment |
| `Exec.BrkSparesProgram` | src/syscall.rs:459-482 | a brk after exec adds no page of a segment |
| `Spaces.OneOwner` | src/mm.rs:284-292 | a user-mapped frame belongs to exactly one process and one page number |
| `Spaces.NoKernelFrame` | src/mm.rs:72-95 | no page-table frame and no kernel stack is user-mapped by any process |
| `Spaces.SameReads` | src/syscall.rs:376-380 | what an undisturbed process reads from its pages stays the same |
| `Spaces.Machine.Init` | src/proc.rs:64-104 | after boot the table holds process 1 alone, ready to run if its arguments fit and frames are below the heap |
| `Spaces.Machine.Fork` | src/proc.rs:289-327 | adds one process with an exact copy of the parent's pages and its break, under a new pid and at the cost of at least 71 frames, or nothing and only if frames for a kernel stack ran out; parent and all others are unchanged |
| `Spaces.ForkSpace` | src/proc.rs:296-303 | the memory part of fork; the remap panic never happens for a table this kernel built |
| `Spaces.Machine.Exec` | src/syscall.rs:871-906 | a missing file changes nothing; otherwise, with frames below the heap, the process moves to the next free frame as its table, with the stack image written over the loaded memory and the break at the page boundary behind its segments as `Exec.ExecProcess` states it, or keeps its own if the file is no ELF file or the heap is full; if the arguments fit it is ready to run and all others are unchanged; if frames have reached the heap, memory after the copy of the file is stated |
| `Spaces.CopyHitsNeighbour` | src/proc.rs:158-164 | with the heap's first frame the page of a process, a file copied to the first block is what that process reads |
| `Spaces.ExecHitsNeighbour` | src/proc.rs:241-264 | so after an exec that finds frames in the heap, another process reads the bytes of the file on its own page |
| `Spaces.Machine.HeapWrite` | src/mm.rs:26-36 | any write of the kernel to its heap: with frames below the heap it is no change for any process |
| `Spaces.Machine.Brk` | src/syscall.rs:459-482 | only the caller's address space changes; with frames below the heap all pages up to the new break are mapped, and those that are new are zero and the program can store to them; the new break is recorded |
| `Spaces.Machine.Mmap` | src/syscall.rs:484-534 | off the kernel's pages only the caller's address space changes, no translation of it is altered, the range reads as the file followed by zeros and everything else as before, new pages have the asked permissions, and the base for the next mapping moves as `UserStore.MmapRun` needs it |
| `Spaces.Machine.Store` | src/mm.rs:215-221 | a store of the program goes through exactly if the processor lets every byte through, puts the bytes at their addresses and changes its own pages only |
| `Spaces.Machine.Wait4` | src/syscall.rs:939-947 | the eight bytes of the status word are stored by the kernel through the caller's table, then the child leaves the table; with a null pointer or one off the kernel's pages only the caller's pages change |
| `Spaces.Machine.Step` | src/syscall.rs:459-956 | what each kind of step does to memory while frames are below the heap: fork gives the child pages that read as the parent's with the same permissions, brk, mmap, stores and the status of wait4 do what their rows say, other calls change nothing; and no other process changes |
| `Spaces.ForkedCopies` | src/proc.rs:289-327 | at every address the child has a user page exactly if the parent had, with the same byte and the same permissions |
| `Spaces.StatusHitsNeighbour` | src/syscall.rs:941-943 | a status pointer at the physical address of another process's page puts the status there, and that process reads it |
| `Spaces.StatusAtConcretePointer` | src/syscall.rs:941-943 | with the pointer 0x85000000 the owner of frame 0x85000 reads the exit code in its second byte |
| `Spaces.Machine.Run` | src/proc.rs:241-344 | isolation over every run in which frames stay below 0x86000000: after any interleaving of fork, exec, brk, mmap, stores, exit, wait4 and kernel heap writes by any processes, with arguments that fit and pointers off the kernel's pages, a process that took no step itself has every translation and every byte as before, and the invariant behind `OneOwner` and `NoKernelFrame` holds |
| `Sched.FindZombie` | src/syscall.rs:930-938 | the smallest pid of a zombie child of the caller that matches the asked pid, or none exactly if there is none |
| `Sched.FirstReady` | src/trap.rs:266-269 | the smallest ready pid in a range, or none exactly if there is none |
| `SchedRuns.StepKeeps` | src/trap.rs:153-331 | return-to-user invariant: the current pid is in the table and running or ready, no other process is running, satp holds its root, the trap frame lies at its kernel stack minus 288, and roots and kernel stacks of all processes are disjoint |
| `SchedRuns.EveryRun` | src/trap.rs:153-331 | the invariant holds in every state of every run from the first process on |
| `SchedRuns.ScheduleContext` | src/trap.rs:246-260 | saving and switching moves registers but changes none |
| `SchedRuns.HandleContext` | src/trap.rs:169-216 | a call changes the registers of the caller only, and gives a new child its own |
| `SchedRuns.OwnEffect` | src/trap.rs:189-216 | apart from a0 a call leaves all registers, sp and sstatus, and moves sepc past the ecall, except a blocked wait4 (same sepc, a0 = -11) and a successful execve (entry point and new sp) |
| `SchedRuns.Results` | src/trap.rs:189-216 | what each call leaves in a0 and in the table, by its number: exit a zombie with the code, clone the child's pid or -1, execve 0 or -1 or -2, wait4 the smallest zombie child that fits the request, else 0 with WNOHANG and -11 without, all others the result of the call |
| `SchedRuns.FoundIsFirst` | src/syscall.rs:930-938 | the scan finds the smallest pid of the zombie children, or the one asked for if a0 is positive |
| `SchedRuns.ChildDiffers` | src/proc.rs:305-307 | a fork child has its parent's registers except a0 = 0 and, if a stack was given, sp |
| `SchedRuns.RunContext` | src/trap.rs:304-327 | whatever runs in between, a process that does not run keeps its registers |
| `SchedRuns.ResumesAsLeft` | src/trap.rs:304-327 | transparency: when a process resumes, its registers are those its own last trap left |
| `SchedRuns.GoneForGood` | src/proc.rs:309-311 | a pid that is gone never comes back, in any run |
| `Lifecycle.StepHistory` | src/proc.rs:289-344 | a trap keeps the history true: parents, exit codes and reapers of all pids ever given out |
| `Lifecycle.EveryHistory` | src/syscall.rs:926-947 | the history is true after every run from the first process on |
| `Lifecycle.Conservation` | src/syscall.rs:944-945 | created = present + reaped |
| `Lifecycle.PresentOrReaped` | src/syscall.rs:944-945 | a pid was created exactly if it is present or reaped, and never both |
| `Lifecycle.FreshPid` | src/proc.rs:309-311 | the next child's pid was never given out before |
| `Lifecycle.ReapsOnce` | src/syscall.rs:926-947 | the pid that wait4 returns was forked by the caller, has exited, was not returned before, and the word the call stores for the caller is the low eight bits of that pid's own exit code, shifted by eight |
| `Lifecycle.StoresOnlyWhenReaping` | src/syscall.rs:939-943 | no trap stores a status but a wait4 that reaps, with a pointer that is not null |
| `Lifecycle.ExitsOnce` | src/proc.rs:330-338 | no process exits twice |
| `Lifecycle.ZombieForGood` | src/proc.rs:334-336 | a pid that has exited is a zombie for as long as it is in the table, in every run |
| `Wakeup.StepWakes` | src/proc.rs:339-343 | a trap keeps: a waiting process has no zombie child that its call asked for, and a woken one has a zombie child and is about to repeat its call |
| `Wakeup.NoLostWakeup` | src/trap.rs:193-200 | this holds in every state of every run |
| `Wakeup.WokenReaps` | src/syscall.rs:930-947 | a process woken by a child's exit finds a child to reap when its wait4 is repeated |
| `Wakeup.NobodyWaits` | src/trap.rs:264-292 | if nobody is ready or running then nobody waits: a waiting process would have a live child with a larger pid |
| `Wakeup.StepSafe` | src/trap.rs:264-292 | if blocking wait4 calls are made by processes with a live child, whichever they ask for, a step neither falls back on a waiting process nor shuts down with unfinished ones |
| `Wakeup.DeadlockFree` | src/trap.rs:264-292 | the same for every step of every such run |
| `Wakeup.ChildlessWaitSpins` | src/trap.rs:290-292 | without the hypothesis: a lone process that waits without a child is run again in the same state, for ever |
| `Wakeup.StrandedForGood` | src/proc.rs:339-343 | and a process that waits while it has no live child is never woken and never runs again, in any run |
| `Wakeup.CarefulExactly` | src/syscall.rs:930-956 | a call made while nobody waits without a live child leaves it so if and only if it is not a blocking wait4 of a process without a live child |
| `Wakeup.CarefulRunExactly` | src/trap.rs:193-200 | over every run from the first process on, nobody is ever left waiting without a live child if and only if every blocking wait4 is issued by a process that has one |
| `Wakeup.CarelessForGood` | src/trap.rs:264-297 | what any other blocking wait4 comes to: if another process is ready the caller never runs again; if not, it takes an exited child it did not ask for, or without one repeats its call for ever |
| `Bypass.StepCloser` | src/trap.rs:294-297 | a ready process stays ready until chosen; every trap but a fork brings it strictly closer, a fork never puts it further away |
| `Bypass.BoundedBypass` | src/trap.rs:264-297 | a ready process runs before more traps other than successful forks have happened than its cyclic distance q - cur, or NEXT_PID - cur + q |
| `Bypass.NoStarvation` | src/trap.rs:264-297 | a ready process runs within its cyclic distance plus the frames left divided by the frames a clone takes at least, of any traps: frames never come back |
| `Bypass.ForksStarve` | src/proc.rs:309-311 | forks use up that bound: as long as there are frames for each, whatever number they take, new children that fork in turn keep a ready process with a smaller pid from running |
| `SchedKernel.Pick` | src/trap.rs:294-296 | the first element above the current pid, or else the first |
| `SchedKernel.PickIsNext` | src/trap.rs:294-296 | picking from the sorted list of ready pids is the round robin of the transition system |
| `SchedKernel.System.ScanZombie` | src/syscall.rs:930-938 | the scan loop finds what `FindZombie` specifies |
| `SchedKernel.System.ReadyPids` | src/trap.rs:266-269 | the ready pids, all of them, in ascending order |
| `SchedKernel.System.ExitProcess` | src/proc.rs:330-344 | the caller becomes a zombie with its code, its parent becomes ready if it was waiting, and every other entry stays |
| `SchedKernel.ExitIs` | src/proc.rs:330-344 | that determines the table, and it is the one of the transition system's exit |
| `SchedKernel.System.SysClone` | src/syscall.rs:909-924 | table, pid counter, frames and result are those of the transition system's clone |
| `SchedKernel.System.SysWait4` | src/syscall.rs:926-956 | reaps the first match, stores its status word unless the pointer is null, and returns its pid, or returns 0 or -11 with the table unchanged and nothing stored |
| `SchedKernel.System.SysExecve` | src/syscall.rs:885-906 | the new root goes into the table and satp, entry point and stack pointer into the synced frame, or -1 or -2 is returned |
| `SchedKernel.System.TrapHandler` | src/trap.rs:178-217 | the handler's updates in place, with sepc advanced and rolled back, are the transition system's handler, and leave in a0 and the table what `SchedRuns.Results` says of each call |
| `SchedKernel.System.DoSchedule` | src/trap.rs:243-331 | saving, collecting, picking and switching in place are the transition system's scheduler, with its fallback and its shutdown |
| `SchedKernel.System.Trap` | src/trap.rs:93-140 | one trap through the code is one step of the transition system, and keeps the return-to-user invariant |
| `WholeSystem.HandleAgrees` | src/trap.rs:169-216 | the handler and the memory side of the same call leave the same processes at the same frames, with the same free frames |
| `WholeSystem.Whole.constructor` | src/proc.rs:64-104 | the first process is in both halves, and satp holds its root |
| `WholeSystem.Whole.Step` | src/trap.rs:93-140 | one step of the current process, a store or a whole trap, with frames below the heap, keeps both halves in agreement with their invariants, and changes registers and memory of no other process. The caller finds in a0: after brk the recorded break, which is the address asked for, or for 0 the one before; after mmap the address from which the file followed by zeros reads back, with the permissions of a2; after clone the pid of the child, which reads every byte as the caller does; after wait4 the pid of the child it reaped, with its exit code in the second byte of the status; after any other call its result, with memory unchanged. After a successful execve sepc is the entry point and the address space is ready to run with the argument lists the caller had in memory and the break behind its segments |
| `WholeSystem.CallAnswers` | src/trap.rs:189-216 | the result that the caller finds when it is next scheduled, by call number and by the registers it passed |
| `WholeSystem.ActPerforms` | src/syscall.rs:459-956 | what the step does to memory, by call number and by the registers it passed |
| `WholeSystem.Whole.Run` | src/trap.rs:153-331 | over every run of the whole kernel in which frames stay below 0x86000000, a process that was never current keeps its registers, every translation and every byte |
| `WholeSystem.ThroughSatp` | src/trap.rs:304-327 | satp holds the root of the current process |
| `WholeSystem.TrapFrameIsSafe` | src/trap.rs:93-140 | no process has a user mapping to the frame with the trap frame that the kernel returns with |
| `WholeSystem.StoredIsWritten` | src/syscall.rs:939-943 | the status the process side hands out is the one the memory side stores, at the same address |
| `WholeSystem.CloneTakes` | src/proc.rs:289-327 | every clone that succeeds takes 68 frames or more besides the root and the kernel stack, which is what `Bypass.NoStarvation` divides by |
| `WholeSystem.ExecveEndToEnd` | src/syscall.rs:828-906 | for ASCII arguments that end in the page, argv read from the stack of the new program is what the caller's a1 pointed to, and envp starts with what its a2 pointed to, is just that if some string of it starts with PATH=, and else has the one string PATH=/bin behind it, if and only if each string before the last is shorter than 256 bytes or goes on with exactly the next |
| `WholeSystem.OnePathAdded` | src/syscall.rs:880-882 | the environment that execve passes on is the only one that extends the caller's in this way |
| `Pipe.Pushed` | src/syscall.rs:45-48 | storing at the tail appends to the queue |
| `Pipe.Popped` | src/syscall.rs:56-57 | taking at the head removes the queue's first byte |
| `Pipe.PipeInner.Write` | src/syscall.rs:41-52 | appends exactly min(len, free) bytes, of at most 4095 queued, and none if the reader is closed |
| `Pipe.PipeInner.Read` | src/syscall.rs:53-61 | returns exactly the first min(len, queued) bytes in order and leaves the rest queued |
| `Pipe.Fifo` | src/syscall.rs:41-61 | over any interleaving, the bytes read followed by the bytes queued are the bytes accepted |
| `Pipe.RunPipe` | src/syscall.rs:41-61 | the ring buffer goes through exactly this traffic |
| `Files.ReadBack` | src/fs.rs:219-249 | what was written at an offset is read back from there |
| `Files.WrittenTwice` | src/fs.rs:234-249 | writing two pieces one after the other is writing them at once, gaps included |
| `Files.FileSystem.WriteInode` | src/fs.rs:234-249 | resizing and overwriting gives the file that the specification says, and other files stay |
| `Files.FileSystem.SysWrite` | src/syscall.rs:204-248 | with the real ring buffers and the in-place file writes, result and state are those of the specification: standard output and error take everything, a pipe accepts what fits, a file is overwritten and extended at its offset, a closed descriptor gives -1 |
| `Files.WriteResults` | src/syscall.rs:204-248 | by kind of descriptor: 1 and 2 return the length and change nothing; a closed one gives -1; a pipe appends min(length, 4095 - queued) bytes, none if its reader is closed; a file that can be written has the bytes at the position, zeros between its old end and them, all other bytes as before, and the position behind them; every other file, pipe and descriptor stays |
| `Files.FileSystem.WritePipe` | src/syscall.rs:230-241 | the ring buffer of one pipe takes the accepted bytes at the end of its queue, and every other pipe keeps its own |
| `Files.FileSystem.NewPipe` | src/syscall.rs:769-775 | a new pipe has a new id, is empty and open, and leaves every other pipe as it is |
| `Files.FileSystem.SysWritev` | src/syscall.rs:338-355 | the loop computes the specified result and state |
| `Files.ShortWrite` | src/syscall.rs:351-352 | a short write stops at the same byte whatever follows |
| `Files.WritevIsWrite` | src/syscall.rs:338-355 | on the console or an open descriptor, writev has result and final state of one write of the concatenated buffers if and only if there is something to write or the position is not behind the end of a writable file |
| `Files.FileSystem.AllocFd` | src/syscall.rs:80-90 | the lowest free descriptor, all others unchanged |
| `Directory.DecodeEncode` | src/fs.rs:347-365 | a reader gets the inode, next index, type and name back from a record, for NUL-free names with a 16-bit record length |
| `Directory.PageDecodes` | src/fs.rs:341-370 | one call returns whole 8-aligned records of consecutive entries, and nothing exactly if none is left or the next does not fit |
| `Directory.CallsDecode` | src/syscall.rs:794-806 | calls of any sizes together return the entries in order, each once |
| `Directory.CallsFinish` | src/syscall.rs:794-806 | with room for the next record, enough calls return all entries, and the next call returns 0 |
| `Directory.ListingIsExact` | src/fs.rs:276-337 | an inode has a listing exactly if its path is that of a file of length 0. The listing is ".", ".." and then, in the order of the file map, one record for each name without a slash such that some path is that of the directory, a slash (none more for "/") and the name, or goes on from there with a slash; the record is about the first such file: the smallest inode with its path, or 0, and type 4 if its length is 0, else 8 |
| `Directory.ListedNames` | src/fs.rs:301-337 | names are distinct, a name is listed exactly if some path is the entry's own or lies below it, and if the entry's own path is a file the record is about that file |
| `Directory.OwnIsFirst` | src/fs.rs:311-337 | among the paths in one entry the entry's own path comes first in the file map |
| `Directory.NameOfIs` | src/fs.rs:318-322 | a remainder has a given first component exactly if it is that component or goes on with a slash |
| `Directory.CollectEntries` | src/fs.rs:301-337 | the loop with its set of seen names collects the specified entries |
| `Directory.FillBuffer` | src/fs.rs:345-370 | the loop that fills the buffer in place writes the specified page |
| `Directory.ReadDir` | src/fs.rs:276-371 | the page of the directory's entries from the offset on, for a listing as `Directory.ListingIsExact` describes it, and nothing exactly if the inode does not name a file of length 0 |
| `Directory.GetdentsRun` | src/syscall.rs:794-806 | repeated calls on one descriptor decode to the directory's entries, in order and each once |

## Left out

- virtio, the network stack, sockets, epoll and the other fake descriptors: glue over libraries and hardware.
- Console, logging, SBI calls and boot data: input and output.
- CSR and assembly instructions: satp, sscratch, sepc and sstatus are plain fields; floating-point registers are not saved by the code and are not modelled.
- TLB contents: every change of satp or of a table is taken to be seen at once.
- ELF parsing: the list of program headers, and for the auxiliary vector the entry point and header address, are inputs.
- The lookup of a path in the file map: the file that execve finds is an input.
- Stub system calls (munmap, mprotect, signals, ids, limits) and stat: constants or single branches.
- Kernel stores through user pointers other than those of mmap and the status of wait4 (read, stat, getdents and others): `KernelStore` states what any such store can reach, but `WholeSystem` has no step for them.
- What a run does after a step that breaks the rules of `Spaces.Guarded`: the effect of that step on memory is stated, and the run ends.
- The kernel past 0x86000000: `alloc_page` then zeroes heap blocks, among them the process table, and exec loads from a file that it overwrites. Only what the heap writes do to frames is stated there (`HeapStore.HeapWriteReaches`, `Spaces.ExecHitsNeighbour`).
- Which blocks other heap data has: a write of the kernel to any place of its heap is a step of its own.
- Reads from devices through identity maps read as zero.
- PhysMem.Phys.AllocPages: does not model the wrap of the cursor plus n * 4096, because its only argument is 2.
- ElfLoad.LoadPage: a segment's file range must lie in `data`, the bytes readable from the start of the file, and the segment must end above 0 and below 2^64 - 4096, because otherwise the source copies through a pointer outside its buffer or its page loop wraps round.
- ElfLoad.LoadSegment: the same condition on the segment.
- ElfLoad.LoadElf: the same condition on every segment.
- Exec.ExecProcess: the same condition on every segment; argument lists are not restricted. Apart from the copy of the file its clauses are for frames that stay below the heap, because past it the file is overwritten while it is loaded.
- Exec.InitUserProc: the same condition on every segment.
- Spaces.Machine.Run: the claim covers runs up to the first step with arguments that do not fit the stack page, with a mapping or status pointer on a kernel page, or with a frame of the heap's range, because from there on frames of others can be overwritten (`Exec.ThirteenStringsHitTable`, `KernelStore.HitsOtherProcess`, `Spaces.ExecHitsNeighbour`).
- WholeSystem.Whole.Run: the same.
- KernelStore.SparesExactly: is for up to a page, because a longer store that first damages a table can come back to the same bytes; for longer ones `KernelStore.SparesAllAlong` speaks of every page boundary.
- UserStack.ArgumentsRoundTrip: is for ASCII strings, because others come back encoded twice (`UserRead.Utf8IsIdentity`), and for strings that end in the page, because others overwrite tables.
- UserStore.Mmap: the bytes read for a file-backed mapping are an input and no more than the range holds, because the read is into a buffer of that length. Without PROT_READ and PROT_WRITE the kernel's own zeroing faults and the call ends in `Hangs`.
- UserStore.StoreRange: a store that crosses a page boundary and faults on the second page has stored its first part, because the model splits at page boundaries; the kernel does not go on after such a fault.
- SchedKernel.System.Trap: pids stay below 2^63, because the counter's wrap is not modelled.
- Files.FileSystem.WriteInode: sizes are not bounded, so an allocation failure and the wrap of offset + length are not modelled; the console echo of descriptors 3 to 6 is left out.
- Files.FileSystem.SysWrite: what the console prints is not part of the state, and sockets are not told apart from files.
- Files.ReadBack: reading at an offset past the end, which panics in the source, is outside `ReadAt`.
- Directory.ReadDir: the file map is a sequence in the map's order, and two creations of one path are one file with two inodes; the buffer is zeroed memory of the caller's size.
