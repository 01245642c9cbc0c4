# Voland guest memory kernel, verified

Voland runs Horizon programs on a softmmu: 39-bit guest addresses, a two-level page table whose
second-level tables come from a pool of 256, one block of guest RAM behind it, and a small kernel that
hands out physical pages, loads a process, and serves the memory and IPC system calls. This project
models that kernel in Dafny and proves what each layer promises the one above it:

| file | what it models |
|---|---|
| `FlatMap.dfy`, `PageTables.dfy`, `QueryRuns.dfy`, `GuestMemory.dfy`, `Vmm.dfy` | the softmmu: pool, map/unmap/reprotect, query, block and sized access, host pointers, borrow scopes, and the flat map `page -> (physical page, permissions)` it refines |
| `PageAllocator.dfy` | guest physical pages: bump cursor, free list, coalescing |
| `AddressSpace.dfy` | region carve-up and ASLR |
| `MemoryKernel.dfy`, `SvcMemory.dfy` | the memory SVCs, as a state machine with its invariant and as handlers in place |
| `Tls.dfy`, `FreshMapping.dfy` | thread-local-storage blocks |
| `Nso.dfy`, `ModuleImage.dfy`, `MappingList.dfy`, `CodeRegion.dfy`, `Bootstrap.dfy`, `LoadedProgram.dfy`, `Machine.dfy`, `Process.dfy`, `Teardown.dfy` | from executables to a running process, what its guest then sees, and back to an empty machine |
| `RomFs.dfy`, `RomFsLayout.dfy` | hashed lookup in a RomFS image, and the image's layout |
| `Sessions.dfy`, `Ipc.dfy`, `SvcIpc.dfy` | session table, HIPC/CMIF framing, the IPC SVCs |
| `Npdm.dfy` | the SVC permission bitmap |
| `Results.dfy`, `Geometry.dfy`, `Bytes.dfy`, `Bits.dfy` | shared vocabulary |

State the C code changes in place is held in classes whose methods change the same fields; each method is
proved against a function of the old state, and the theorems are about those functions. Lemmas named
`...Means`, `...Decides` and `...Result` say in numbers, addresses and bits when such a function succeeds and
what it yields, without naming it or the constants it uses. The page table's
concrete arrays are tied to the flat map by a ghost field that every method keeps up to date.

How the pieces compose. A `Machines.Emulator` is fresh or runs a program. `LoadProgram` bootstraps a process
and delivers a `MemoryService` whose `Valid()` is the memory-SVC invariant, or leaves the machine fresh; every
handler keeps the invariant; `UnloadProgram` accepts any state so reached and leaves the machine fresh again.
`MemoryKernel.RunIsSafe` is the statement over whole runs: no assertion of the handlers fires, two guest
pages share a physical page only as the two halves of a live MapMemory, nothing is writable and
executable, and the code region stays exactly as it was loaded.

Where the code and its comments differ, the model follows the code:

- `romfs.h:44-46` says empty path components are rejected. One trailing separator is stripped, and what is
  left of `"a//"` still ends with one, so `romfs_find_dir` yields the root. `RomFss.FindDirAsPromised` says
  exactly when the promise is kept and `RomFss.DoubleSlashIsRoot` is a concrete failure. `romfs_find_file`
  is not affected. (`"//"` is read as one leading and one trailing separator around nothing, the root.)
- `svc_memory.h:70-76` says an UnmapMemory without an exact match is an invalid argument; the handler
  answers with an invalid memory state.

## Model

| member | source | states |
|---|---|---|
| PageTables.SameMapSameCapacity | core/common/vmm.c:117-159 | two tables reached by any histories that mean the same flat map occupy the same slots and have the same number of tables left |
| PageTables.LiveTables | core/common/vmm.c:95-159 | live tables are exactly the 64 MB slots that hold a mapped page |
| PageTables.PteDecodes | core/common/vmm.c:110-114 | a PTE of a mapped page is never zero, and its host page and permission bits come apart again |
| Vmms.Vmm.AcquireTable | core/common/vmm.c:125-141 | when fewer than 256 tables are live one is handed out, all zero, and live, free and uncarved tables still partition the pool |
| Vmms.Vmm.ReleaseTable | core/common/vmm.c:144-148 | an emptied table joins the free list, which stays threaded through otherwise zero tables |
| Vmms.Vmm.CountAbsentSlots | core/common/vmm.c:151-159 | counts exactly the slots of the range that hold no mapped page |
| Vmms.Vmm.CommitPage | core/common/vmm.c:304-316 | one step of a map adds exactly one page to the flat map and keeps the pool invariant |
| Vmms.Vmm.RetirePage | core/common/vmm.c:344-356 | one step of an unmap removes exactly one page; a slot's last page gives its table back |
| Vmms.Vmm.Map | core/common/vmm.c:278-318 | succeeds exactly on an aligned, unmapped range backed by guest RAM when the distinct slots in use afterwards are at most 256; then the flat map gains that range, else nothing changes; live borrows outside the range keep their translation |
| FlatMaps.MapErrorMeans | core/common/vmm.c:278-301 | a map succeeds exactly on a page range of the address space whose bytes are all unmapped, onto RAM, with at most 256 slots in use afterwards; only the slots give OutOfMemory |
| FlatMaps.SlotsMean | core/common/vmm.c:151-159 | the slots counted are the 64 MB stretches that hold a mapped address or an address of the new range |
| Vmms.Vmm.Unmap | core/common/vmm.c:336-358 | all of the range or nothing, and what else the flat map holds is untouched |
| Vmms.Vmm.Reprotect | core/common/vmm.c:360-378 | changes the permissions of a fully mapped range, never its backing, or nothing at all |
| FlatMaps.MappedRangeMeans | core/common/vmm.c:320-378 | unmap and reprotect succeed exactly on page ranges mapped at every byte (and three permission bits) |
| Vmms.Vmm.LeasesSurvive | core/common/vmm.c:165-185 | a mutation that avoids a borrowed range leaves every byte of it at the promised host address with the promised permissions |
| Vmms.Vmm.ExtendBackward | core/common/vmm.c:397-436 | stepping over whole absent tables finds the same run start as looking at every page |
| Vmms.Vmm.ExtendForward | core/common/vmm.c:397-436 | the same for the run end, up to the top of the address space |
| Vmms.Vmm.Query | core/common/vmm.c:388-436 | the maximal run of pages that agree with the queried one on being mapped and on permissions |
| QueryRuns.RunIsUnique | core/common/vmm.c:380-436 | there is only one such run, and it is the one a page-by-page scan finds |
| QueryRuns.RunMeans | core/common/vmm.c:380-436 | a run in terms of its pages: all agree on being mapped and on permissions, and the neighbour on either side does not |
| QueryRuns.TilesPartition | core/common/vmm.h:138-144 | querying from run to run cuts the whole address space into back-to-back runs |
| Vmms.Vmm.Translate | core/common/vmm.h:277-309 | a host address exactly when the byte is mapped and grants the permissions, else the fault that describes why not |
| Vmms.Vmm.TranslateDecides | core/common/vmm.h:277-309 | bit by bit: a read goes through exactly when the page has bit 0, a write bit 1, an execution bit 2, a combined mask exactly when every bit it asks for is there; the host address is the page's |
| Vmms.Vmm.ValidateByteRange | core/common/vmm.c:451-464 | checking one byte per page decides the whole range, and the fault is the first failing address |
| GuestMemory.FirstFaultUnique | core/common/vmm.c:444-464 | a range has at most one first fault |
| GuestMemory.FirstFaultMeans | core/common/vmm.c:444-464 | the fault is at the lowest byte that is unmapped or lacks a right asked for, and says which of the two |
| GuestMemory.AccessibleMeans | core/common/vmm.c:444-464 | a block read (write) goes through exactly when it is empty or every byte is mapped with its read (write) bit |
| Vmms.Vmm.ReadBlock | core/common/vmm.c:567-577 | every byte of the range in order, or nothing and the first fault |
| Vmms.Vmm.WriteBlock | core/common/vmm.c:579-589 | guest RAM is the source stored byte by byte, or unchanged with the first fault recorded |
| GuestMemory.LastStoreWins | core/common/vmm.c:484-499 | a host byte hit by the store holds the source byte of the highest offset that translates to it |
| GuestMemory.UntouchedByte | core/common/vmm.c:484-499 | a host byte no offset translates to is unchanged |
| GuestMemory.LoadedByte | core/common/vmm.c:467-482 | byte k of a load is the RAM byte at the page's backing and the address's offset in it |
| GuestMemory.StoredByte | core/common/vmm.c:484-499 | an address holds the byte sent to it after a store, unless a later byte went to the same place |
| GuestMemory.StoredElsewhere | core/common/vmm.c:484-499 | no other byte of guest RAM changes |
| GuestMemory.StoreThenLoad | core/common/vmm.c:467-499 | over pages with distinct backing a block store reads back exactly, scattered or not |
| Vmms.Vmm.ReadInline | core/common/vmm.h:319-333 | the sized fast path agrees with the block read on value and fault, crossing a page or not |
| Vmms.Vmm.WriteInline | core/common/vmm.h:335-345 | the same for sized stores |
| Vmms.Vmm.GuestToHost | core/common/vmm.c:591-627 | a host pointer exactly when every byte of the range translates to consecutive host addresses; otherwise the first fault, or a page where contiguity breaks |
| Vmms.Vmm.BorrowScopeEnd | core/common/vmm.c:199-208 | a scope ends with no live borrow; until then the invariant carries what each was promised |
| PageAllocators.TakeConserves | core/hle/kernel/page_allocator.c:41-88 | taking pages, by splitting, using up a run or bumping the cursor, hands out only pages that were not out, and loses none |
| PageAllocators.TakeSucceeds | core/hle/kernel/page_allocator.c:41-88 | allocation succeeds exactly when pages are asked for, the host backs them, and some free run or the space above the cursor has that many |
| PageAllocators.TakeReuses | core/hle/kernel/page_allocator.c:50-71 | the first free run that is big enough gives its front pages, the others and the cursor stay |
| PageAllocators.TakeExtends | core/hle/kernel/page_allocator.c:73-87 | only when no free run fits does the cursor move, by exactly that many pages |
| PageAllocators.ReturnConserves | core/hle/kernel/page_allocator.c:90-158 | returning pages, by retraction with absorption, merging or appending, loses none; a range that is out is refused only when the free list is full |
| PageAllocators.ReturnCoalesces | core/hle/kernel/page_allocator.c:137-152 | pages next to a free run make it longer: the number of runs stays |
| PageAllocators.ReturnLists | core/hle/kernel/page_allocator.c:153-157 | pages next to none become a run of their own |
| PageAllocators.ReturnMovesCursor | core/hle/kernel/page_allocator.c:116-134 | pages that end at the cursor lower it |
| PageAllocators.ReturnAbsorbs | core/hle/kernel/page_allocator.c:124-133 | and a free run that ends at the lowered cursor goes with it |
| PageAllocators.ReturnRefuses | core/hle/kernel/page_allocator.c:90-112 | exactly which ranges are refused |
| PageAllocators.FreePagesExact | core/hle/kernel/page_allocator.c:160-167 | cursor and free list together account for exactly the extent less what is handed out |
| PageAllocators.TakeThenReturn | core/hle/kernel/page_allocator.c:41-158 | giving a run straight back always succeeds and restores the number of free pages |
| PageAllocators.RunConserves | core/hle/kernel/page_allocator.c:41-167 | conservation after every run of takes and returns of held pages |
| PageAllocators.PageAllocator.Allocate | core/hle/kernel/page_allocator.c:41-88 | first fit, then the cursor, in place; the new pages are disjoint from all pages out |
| PageAllocators.PageAllocator.Free | core/hle/kernel/page_allocator.c:90-158 | exactly the returned pages stop being out, or nothing changes |
| PageAllocators.PageAllocator.Absorb | core/hle/kernel/page_allocator.c:124-133 | one absorption pass: at most one run that ends at the new cursor joins the space above it |
| PageAllocators.PageAllocator.FreeByteCount | core/hle/kernel/page_allocator.c:160-167 | extent minus handed-out pages, in bytes |
| AddressSpaces.AddressSpaceInit | core/hle/kernel/address_space.c:25-78 | which inputs are refused; otherwise the regions are aligned, in range, pairwise disjoint, and back to back from the shift that AslrShiftMeans gives in numbers |
| AddressSpaces.CarveMeans | core/hle/kernel/address_space.c:62-77 | code, alias, heap, stack and TLS regions in that order, each starting where the one before ends, with their sizes |
| AddressSpaces.AslrShiftMeans | core/hle/kernel/address_space.c:49-56 | the shift is the mixed seed folded into the 2 MB granules of slack; none for seed 0 |
| AddressSpaces.MixSeedInjective | core/hle/kernel/address_space.c:17-23 | different seeds mix to different words |
| MemoryKernel.NoOtherAliases | core/hle/kernel/svc_memory.c:128-287 | two guest pages share a physical page only at matching offsets of the halves of one live borrow |
| MemoryKernel.BackedBelowCursor | core/hle/kernel/svc_memory.c:146-173 | pages a grow takes are visible through no mapping |
| MemoryKernel.CodeIsSafe | core/hle/kernel/svc_memory.c:128-287 | nothing is writable and executable; the bootstrap's pages are as it left them; nothing else appears in the code region |
| MemoryKernel.SetHeapSizeKeeps | core/hle/kernel/svc_memory.c:128-187 | no assertion fires, the invariant holds again, a refused call changes nothing, pages taken for a failed map included, and a successful one sets exactly the size asked for |
| MemoryKernel.SetHeapSizeResult | core/hle/kernel/svc_memory.c:128-187 | the result for every input: whole 2 MB granules inside the region; growing succeeds exactly when the host commits, the pages above the cursor suffice and at most 256 slots are in use afterwards; shrinking exactly when nothing in the dropped part is lent; which error each refusal gives |
| MemoryKernel.ShrinkKeeps | core/hle/kernel/svc_memory.c:109-126 | a shrink always releases one physical run: the page-by-page path is never taken |
| MemoryKernel.SourceReadable | core/hle/kernel/svc_memory.c:227-234 | MapMemory refuses a source inside the heap exactly when it is not committed or lent out, never for scattered backing |
| MemoryKernel.MapMemoryKeeps | core/hle/kernel/svc_memory.c:189-250 | the invariant holds again, the new borrow fits beside the others, and the rollback of a refused mirror restores the state |
| MemoryKernel.MapMemoryResult | core/hle/kernel/svc_memory.c:189-250 | the result for every input: alignment, regions, eight borrows, a free destination, a committed and unlent source, 256 slots; success exactly when all hold |
| MemoryKernel.UnmapMemoryKeeps | core/hle/kernel/svc_memory.c:252-287 | succeeds exactly on a recorded triple, and then that borrow alone is gone |
| MemoryKernel.MapThenUnmap | core/hle/kernel/svc_memory.c:237-286 | unmapping what was just mapped restores the whole kernel state |
| MemoryKernel.ShapeDetermines | core/hle/kernel/svc_memory.c:128-287 | the flat map is determined by the bootstrap, the heap size and the borrow table |
| MemoryKernel.BorrowTable | core/hle/kernel/svc_memory.c:189-287 | sources are disjoint, in the committed heap and inaccessible; mirrors are disjoint, in the stack region and RW on the sources' pages; other heap pages are RW and the heap ends at its size |
| MemoryKernel.RunKeeps | core/hle/kernel/svc_memory.c:128-287 | the invariant after every run of memory SVCs, with no assertion firing |
| MemoryKernel.RunIsSafe | core/hle/kernel/svc_memory.c:128-287 | over every run: no other aliases, W^X, and the code region unchanged |
| MemoryKernel.GuestStoreReadsBack | core/hle/kernel/svc_memory.c:237-249 | in every reachable state what the guest stores reads back: no two writable pages share a physical page |
| MemoryKernel.CodeBytesSurvive | core/hle/kernel/svc_memory.c:128-287 | in every reachable state no store of the guest changes a byte of the program's text or constants |
| SvcMemory.FreeAndUnmapHeapRange | core/hle/kernel/svc_memory.c:79-126 | the released range's pages go back to the allocator, as one run or one by one, and the range is unmapped |
| Teardowns.StrictFrees | core/hle/kernel/svc_memory.c:119-123 | the page-by-page release of a shrink goes through exactly when every page is readable, and then gives back what the best-effort one would |
| SvcMemory.MemoryService.SetHeapSize | core/hle/kernel/svc_memory.c:128-187 | the handler takes the state machine's step, so its result is the one SetHeapSizeResult decides; no byte of a page mapped before changes, and fresh heap is zero |
| SvcMemory.MemoryService.MapMemory | core/hle/kernel/svc_memory.c:189-250 | the handler takes the state machine's step, its query deciding whether the destination is free, and moves no guest byte |
| SvcMemory.MemoryService.UnmapMemory | core/hle/kernel/svc_memory.c:252-287 | the same for UnmapMemory |
| SvcMemory.MemoryService.QueryMemory | core/hle/kernel/svc_memory.c:289-327 | the kernel state never changes; on success the forty bytes the guest loads from its buffer are the base and size of the address's maximal run, its type as a Horizon number, its permissions, and zeros; else guest RAM is unchanged |
| SvcMemory.UnmappedRunCovers | core/hle/kernel/svc_memory.c:213-218 | an unmapped run covers the destination exactly when no page of it is mapped |
| SvcMemory.ClassifyIsTruth | core/hle/kernel/svc_memory.c:53-67 | in every reachable state the reported type tells committed heap, lent heap, mirror, stack, code, TLS and unmapped apart correctly |
| SvcMemory.AnswerTells | core/hle/kernel/svc_memory.c:306-320 | the answer laid out in bytes is true of the address in every reachable state, field by field, the type being 0, 2, 3, 5, 7, 0x0B or 0x0C |
| SvcMemory.InfoDecodes | core/hle/kernel/svc_memory.h:119-128 | the guest reads back address, size, type and permissions |
| TlsAllocators.LowestIsLeast | core/hle/kernel/tls.c:43-63 | the lowest clear bit of the first page that is not full is the least free block of all |
| TlsAllocators.TlsAllocator.PickBlock | core/hle/kernel/tls.c:51-63 | the least free block; a fresh page is asked for exactly when every block is taken |
| TlsAllocators.TlsAllocator.LocateBlock | core/hle/kernel/tls.c:29-41 | finds the page and block of an address, or no allocated block has that address |
| TlsAllocators.TlsAllocator.Allocate | core/hle/kernel/tls.c:101-121 | the least block not in use, zeroed, joins the set of blocks in use; fails exactly when all are taken and no page can be added |
| TlsAllocators.TlsAllocator.NewPageMeans | core/hle/kernel/tls.c:66-83 | blocks of 0x200 bytes, eight to a page; a page can be added exactly when there are fewer than 64, the region has room and a physical page is mapped |
| TlsAllocators.TlsAllocator.Free | core/hle/kernel/tls.c:123-134 | removes exactly that block, or no allocated block has that address |
| TlsAllocators.TlsAllocator.IsAllocated | core/hle/kernel/tls.c:136-142 | true exactly for the base of a block in use |
| TlsAllocators.TlsAllocator.Capacity | core/hle/kernel/tls.c:66-83 | at most 512 blocks, all inside the region |
| TlsAllocators.TlsAllocator.Teardown | core/hle/kernel/tls.c:144-154 | every page of the allocator is unmapped and nothing else |
| Nsos.Open | core/hle/loader/nso.c:64-162 | accepts exactly the well-formed headers, and then the segments are in bounds, aligned, ascending and apart |
| Nsos.AcceptableMeans | core/hle/loader/nso.c:64-162 | the accepted files, word by word of the header |
| Nsos.HeaderFields | core/hle/loader/nso.c:10-30 | which header word gives each segment's file offset, file size, memory offset, memory size and compression, and the image size |
| Nsos.PagesApart | core/hle/loader/nso.c:91-130 | rounding a segment to pages never reaches the next segment or the end of the image |
| Nsos.ReadableMeans | core/hle/loader/nso.c:164-206 | a segment can be read exactly when it is raw, or small enough and decoded to exactly its memory size |
| Nsos.ImageByteIs | core/hle/loader/nso.c:164-206 | byte i of a segment in memory is byte i behind its file offset, or byte i of what the decoder makes of its stored bytes |
| Nsos.ImageGap | core/hle/kernel/process.c:99-114 | between segments and in .bss the image is zero |
| ModuleImages.ImageBytes | core/hle/kernel/process.c:99-114 | zeroing and copying the segments in turn leaves each image byte its segment's, or zero (what those bytes are: Nsos.ImageByteIs) |
| ModuleImages.ProtectedAt | core/hle/kernel/process.c:116-149 | after the two reprotections text is RX, rodata R, the rest of the image RW, and nothing else changed |
| ModuleImages.LoadModuleImage | core/hle/kernel/process.c:99-128 | succeeds exactly when every segment can be read; then the image's bytes and permissions are final |
| LoadedPrograms.DescribeMeans | core/hle/kernel/process.c:132-149 | where a module's text, rodata and data regions start and end |
| LoadedPrograms.PagePermsMeans | core/hle/kernel/process.c:116-128 | a page that holds a byte of text is read-execute, of rodata read-only, any other read-write |
| FreshMapping.MapFresh | core/hle/kernel/process.c:73-84 | fresh pages appear RW where nothing was mapped, or the page table is as before |
| MappingLists.UnmapAll | core/hle/kernel/process.c:61-69 | unmaps exactly the pages of the list |
| MappingLists.AddOwned | core/hle/kernel/process.c:73-84 | pages mapped one after the other keep distinct backing of their own |
| Bootstraps.OpenModules | core/hle/kernel/process.c:164-196 | succeeds exactly when main is present and every present module is well formed; totals the code region |
| LoadedPrograms.PresentMeans | core/hle/kernel/process.c:164-196 | the modules are the files that exist, in the order of their list |
| Bootstraps.MapModule | core/hle/kernel/process.c:208-216 | a module is in place, what was built before is kept, and whatever happens the list undoes it |
| Bootstraps.Bootstrap | core/hle/kernel/process.c:151-267 | any failure leaves the page table exactly as it was; success adds back-to-back modules with final bytes and permissions, a zeroed stack behind a guard page and a zeroed TLS block, all on pages of their own, in the address space of the seed; from an empty page table it succeeds exactly when BootableMeans says |
| CodeRegions.ProgramFitsMeans | core/hle/kernel/process.c:198-259 | mapping module after module, then stack and TLS, goes through exactly when every module can be read and none is empty, every allocation is backed, the stack fits its region behind the guard page, and pages and 256 tables suffice in total |
| Machines.BootableMeans | core/hle/kernel/process.c:151-259 | when opened modules boot on an empty machine, in numbers |
| LoadedPrograms.ProgramLoaded | core/hle/kernel/process.c:198-224 | every module lies page-aligned in the code region, each where the one before ends, the last ending with the region |
| LoadedPrograms.ModuleReads | core/hle/kernel/process.c:99-128 | reading any part of a loaded module goes through and gives the bytes of its image |
| LoadedPrograms.SegmentReads | core/hle/loader/nso.c:164-206 | what the guest reads in a segment is what the file stores behind its file offset, decoded when it is compressed |
| LoadedPrograms.ModuleWrites | core/hle/kernel/process.c:116-128 | a store into a loaded module goes through exactly when it touches no page of text or rodata |
| LoadedPrograms.ModuleExecutes | core/hle/kernel/process.c:116-128 | the guest can execute exactly the pages of text |
| Machines.BootedInv | core/hle/kernel/process.c:198-259 | a bootstrap on an empty machine ends in a state of the memory-SVC invariant |
| Machines.Emulator.LoadProgram | core/emulator.c:138-156 | on a fresh machine: succeeds exactly when the program is bootable, and then the process is in a state of the memory-SVC invariant with every module loaded as the guest should see it and the entry point at the first module's text; else the machine is fresh again; refused while a program is loaded |
| Machines.Emulator.UnloadProgram | core/emulator.c:170-176 | whatever the program did, nothing is mapped and no page is handed out |
| Teardowns.UnwindBorrows | core/hle/kernel/process.c:306-320 | after unwinding every borrow the heap is whole again and no mirror is left |
| Teardowns.HeapReleased | core/hle/kernel/process.c:338-378 | the whole heap goes back in one piece and the cursor returns to where the bootstrap left it |
| Teardowns.FreeTeardownHeap | core/hle/kernel/process.c:338-378 | best-effort release, as one run or page by page skipping what fails, then one unmap |
| Teardowns.BestEffortFrees | core/hle/kernel/process.c:353-371 | page by page, while the free list has room, exactly the backing of the readable pages stops being out, whatever the other pages are |
| Teardowns.TeardownProcess | core/hle/kernel/process.c:380-399 | from any state the memory SVCs can reach: nothing stays mapped and only the bootstrap's own pages count as used |
| RomFss.DecodeEntry | core/hle/loader/romfs.c:157-218 | an entry is decoded exactly when it is aligned and lies in its table, name and data included |
| RomFsLayouts.DirRecord | core/hle/loader/romfs.c:25-30 | a directory record field by field: when it is well formed, its parent, sibling, name, next in bucket, and where the next record starts |
| RomFsLayouts.FileRecord | core/hle/loader/romfs.c:33-38 | the same for a file record, whose data must lie in the source |
| RomFss.PathHash | core/hle/loader/romfs.c:224-232 | the accumulating loop computes the rotate-and-xor fold of the name |
| RomFsLayouts.HashMeans | core/hle/loader/romfs.c:224-232 | 123456789 xor the parent, then for each byte a rotation right by five and a xor |
| RomFss.FindChild | core/hle/loader/romfs.c:237-273 | the walk ends on every image, and what it finds lies in the table with that parent and name |
| RomFss.BoundNeverRejects | core/hle/loader/romfs.c:241-244 | the step bound never rejects a chain of entries that do not overlap |
| RomFss.ChainFits | core/hle/loader/romfs.c:241-244 | entries that do not overlap are fewer than the step bound |
| RomFss.HashedIsLinear | core/hle/loader/romfs.c:234-273 | on every well-formed table the hashed lookup finds what a linear scan finds |
| RomFsLayouts.ChildMeans | core/hle/loader/romfs.c:234-273 | on every well-formed table a name is found exactly at the record with that parent and name, and is NotFound when there is none |
| RomFsLayouts.ScanSteps | core/hle/loader/romfs.c:157-218 | the records of a table: one right behind the other's padded name, up to the first malformed one |
| RomFss.Open | core/hle/loader/romfs.c:89-151 | accepts exactly the images whose tables lie in the source under the cap with a decodable root |
| RomFsLayouts.HeaderMeans | core/hle/loader/romfs.c:98-127 | which header words locate the four tables, and the bounds they must keep |
| RomFsLayouts.ImageMeans | core/hle/loader/romfs.c:129-144 | which bytes of the file become which table, and which words the buckets |
| RomFss.WalkToParent | core/hle/loader/romfs.c:279-318 | the cursor walk computes the recursive walk of the trimmed path |
| RomFss.WalkIsFold | core/hle/loader/romfs.c:295-317 | the walk is the lookup of all components but the last, one inside the other, empty ones rejected |
| RomFsLayouts.ComponentsMean | core/hle/loader/romfs.c:295-304 | components hold no separator and joined by separators give the path back |
| RomFsLayouts.TrimmedMeans | core/hle/loader/romfs.c:288-293 | at most one separator is stripped in front and one behind |
| RomFsLayouts.ResolveTrails | core/hle/loader/romfs.c:295-317 | resolving follows the trail of directories as far as it goes, and fails at the first empty or unknown name |
| RomFss.FindDir | core/hle/loader/romfs.c:320-330 | the promised directory, except the root for a doubly trailing separator |
| RomFss.FindDirAsPromised | core/hle/loader/romfs.c:320-330 | the promise is kept if and only if the path is not doubly trailing after directories that exist |
| RomFss.DoubleSlashIsRoot | core/hle/loader/romfs.c:292-317 | "a//" names the root wherever a directory "a" exists, where an error is promised |
| RomFss.FindFile | core/hle/loader/romfs.c:332-344 | the file the components name; paths that name a directory are refused |
| SessionTables.OpenAllAdds | core/hle/kernel/ipc.c:51-64 | new handles are different from each other and from all open ones, and nothing else changes |
| SessionTables.OpenAllMeans | core/hle/kernel/ipc.c:51-64 | all objects get a session exactly when that many of the 32 handles are free, and they get the lowest ones in order |
| SessionTables.OpenOneMeans | core/hle/kernel/ipc.c:51-64 | one more session: refused exactly when 32 are open, else at the lowest free handle |
| SessionTables.RollbackRestores | core/hle/kernel/svc_ipc.c:22-29 | closing what a response opened restores the table exactly |
| SessionTables.SessionTable.OpenSession | core/hle/kernel/ipc.c:51-64 | the lowest free slot is taken, or the table is full and unchanged |
| SessionTables.SessionTable.CloseSession | core/hle/kernel/ipc.c:73-80 | an open handle is freed, any other is refused |
| SessionTables.SessionTable.OpenSessions | core/hle/kernel/svc_ipc.c:132-144 | all objects get a session or the table is as before |
| Ipcs.ParseRequest | core/hle/kernel/ipc.c:86-177 | the running-offset parser computes the meaning of the buffer, for every buffer |
| Ipcs.MeaningMeans | core/hle/kernel/ipc.c:86-177 | what is refused and why, where the pid, the command id and the data lie, in bytes of the buffer |
| Ipcs.LibnxRequestParses | core/hle/kernel/ipc.h:22-35 | every request laid out by libnx is accepted with its command id, its pid and its payload, padded to whole words |
| Ipcs.FindCommand | core/hle/kernel/ipc.c:190-206 | in a sorted table the binary search finds the command with the id if and only if there is one |
| Ipcs.Dispatch | core/hle/kernel/ipc.c:183-218 | the response of the one command with the id, or not-implemented without objects |
| Ipcs.UnknownCommand | core/hle/kernel/ipc.c:208-215 | a command nobody has is answered 0x4201 without objects |
| Ipcs.ReplyIsUnique | core/hle/kernel/ipc.h:138-142 | over a sorted table there is only one possible reply |
| Ipcs.WriteResponse | core/hle/kernel/ipc.c:224-271 | every word of the buffer is determined by the result and the handles, or the response does not fit |
| Ipcs.ResponseLayout | core/hle/kernel/ipc.c:224-271 | the words of a response without and with an object |
| Ipcs.ResponseReadsBack | core/hle/kernel/ipc.c:224-271 | the guest reads back the result and the handles |
| SvcIpcs.StepHandles | core/hle/kernel/svc_ipc.c:31-172 | each SVC opens exactly the handles it delivers and closes exactly the one it is asked to; a failing one leaves the table unchanged |
| SvcIpcs.ConnectMeans | core/hle/kernel/svc_ipc.c:31-71 | each result by what is in memory: only the bytes s, m, colon, NUL are served, with the lowest free handle, as long as one of 32 is free |
| SvcIpcs.SendMeans | core/hle/kernel/svc_ipc.c:73-161 | each result by handle, server end, message, free handles and buffer; what a delivered response adds to the table |
| SvcIpcs.CloseMeans | core/hle/kernel/svc_ipc.c:163-172 | succeeds exactly on an open handle, and closes that one alone |
| SvcIpcs.OpenIffDelivered | core/hle/kernel/svc_ipc.c:31-172 | over any run the open sessions are the handles delivered and not closed since |
| SvcIpcs.ClosedStaysClosed | core/hle/kernel/svc_ipc.c:82-85 | after a Close message every request on the handle fails until CloseHandle |
| SvcIpcs.CloseMessageCloses | core/hle/kernel/svc_ipc.c:115-123 | an accepted Close message closes the server end and keeps the handle open |
| SvcIpcs.NameUnique | core/hle/kernel/svc_ipc.c:39-55 | memory determines which name, fault or overlong outcome is read |
| SvcIpcs.IpcService.ReadPortName | core/hle/kernel/svc_ipc.c:39-55 | reading byte by byte up to the NUL finds the name, the first unreadable byte, or that it is too long |
| SvcIpcs.IpcService.ConnectToNamedPort | core/hle/kernel/svc_ipc.c:31-71 | the handler takes the step of the session machine and returns the handle delivered |
| SvcIpcs.IpcService.SendSyncRequest | core/hle/kernel/svc_ipc.c:73-161 | the handler takes the step; the response written reads back as the dispatched result and the handles opened; any failure leaves memory and table as they were |
| SvcIpcs.IpcService.CloseHandle | core/hle/kernel/svc_ipc.c:163-172 | the handler takes the step |
| Npdms.TrailingOnes | core/hle/loader/npdm.c:112-116 | the number of trailing one bits |
| Npdms.MaskBit | core/hle/loader/npdm.c:144-156 | bit b of the mask field is bit 5 + b of the descriptor |
| Npdms.EnableDescriptor | core/hle/loader/npdm.c:144-156 | a descriptor built from 24 mask bits and an index enables exactly the calls of its group of 24 whose bit is set |
| Npdms.ThreadInfoDescriptor | core/hle/loader/npdm.c:118-142 | a descriptor built from two priorities and two cores decodes to them |
| Npdms.ListMeans | core/hle/loader/npdm.c:158-219 | the accepted lists in numbers: known types, one thread info at most, its bounds |
| Npdms.KernelCapabilities.ApplySystemCalls | core/hle/loader/npdm.c:144-156 | exactly the descriptor's calls are added; the range error cannot happen |
| Npdms.KernelCapabilities.Parse | core/hle/loader/npdm.c:158-219 | accepts exactly the well-formed lists, and then a call is allowed if and only if some descriptor lists it |
| Npdms.KernelCapabilities.SvcAllowed | core/hle/loader/npdm.c:346-349 | reads the bitmap bit of the call; false past the last call |

## Left out

- NULL-argument checks, log and error messages, and the numeric Horizon result codes; results are named values.
- The release build: borrow tracking is modelled as in the debug build, whose assertions are preconditions of the mutating calls.
- A table's address is its number in one flat pool array, with 0 for NULL; alignment and placement of the arena are not modelled.
- The page allocator counts in pages: its byte fields are multiples of the page size throughout.
- `layout_guest_ram_commit`, reserve and release of host memory: whether a commit succeeds is a parameter of each allocation.
- Fixed-size C arrays with a count (modules, heap borrows, live borrows) are sequences whose bounds are the source's checks.
- FreshMapping.MapFresh: physical pages taken before a map that then fails are not given back, as in the source, so no conservation is claimed for a failed bootstrap or TLS page.
- ModuleImages.FillImage: LZ4 is a parameter that yields bytes or nothing; what a failed decode leaves in the image, and an exhausted staging arena, are not distinguished from a malformed stream.
- RomFss.Open: the arena and I/O errors of the byte source are not modelled; the image is a sequence of bytes.
- RomFs enumeration by sibling links, file reads and slices: straight-line bounds checks.
- ExeFS, NCA and byte sources, module names and ids, and the npdm fields other than the capability list, its thread info and the values the bootstrap reads.
- Thread creation, scheduling, arming the main thread and the CPU backends; the modelled SVCs take their arguments as parameters.
- Service implementations: command handlers are a parameter, and state a handler keeps on the host is not modelled.
- TIPC, domains, buffer descriptors and other messages the parser only refuses.
- A teardown from states outside the memory-SVC invariant, where it is best effort and promises nothing.
