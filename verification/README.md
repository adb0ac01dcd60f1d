# A verified model of the kernel's memory manager, formatter and initial file system

This project models three parts of the kernel in Dafny and proves what they promise. `dafny verify dfyconfig.toml` checks it.

**The virtual-memory manager.** `map_pages` builds the 4-level page tree of the Intel SDM (Vol. 3A, section 4.5) in
physical memory, through a three-level walk cache kept in globals and a bump allocator of frames; `request_pages` and
`kmalloc` sit on top, and `exec_process` switches to a new top level.

- `Bits`, `Paging`: words, `|`, table indices, entries, and the processor's own walk `Paging.Translate`, written from the
  manual and not from the kernel's code. It is the reference for everything below.
- `PageTree`: the shape of the tree (`Shape`: every reachable table is an aligned frame of the arena, referenced by one
  slot, and the arena above its head is zero) and what one store to a table does to every address.
- `MapPages`, `MapRange`: `map_page` and `map_pages` without the cache, and the translation theorem.
- `WalkCache`: the code with its cache, its refinement of the uncached walk, and what is left when the cache is stale.
- `Arena`, `Heap`: the virtual arena and the byte allocator, over any run of calls mixed with writes of their clients.
- `AddressSpace`: `setup_vm`, the switch to a new top level, and the loading of segments.
- `Processes`: the whole life of the system from boot, with allocations, client writes, mappings at fixed addresses and new
  address spaces in any order; the heap invariant and the direct map hold throughout, and the memory of processes and the
  kernel stack are kept apart from the heap and from the page tables.
- `Rights`: which accesses the entries of a walk permit, by section 4.6 of the manual: user accesses to a new process, writes
  to the kernel's own memory.
- `MemoryManager`: a class with the kernel's globals and `ram`, whose methods are the C functions. The state after each
  method is the specification function of the state before it, and the theorems are about those functions.

**The formatter.** `Digits`, `Ntoa` and `Format` say what a format and its arguments print, and `Ntoa` when a field is the one
section 7.21.6.1 of ISO/IEC 9899:2018 asks for with the same flags, width and precision. `Standard` has that section written
out with none of the formatter's functions: the directives, the numerals, the conversions, the fields and the output of
whole formats. It says when the code agrees with it, and reads the printed numbers back. `Printf` has the loops over the digit
buffer and the output buffer, and the truncation theorem for `_vsnprintf`.

**The initial file system.** `Paths` and `Ustar` are the path helpers and the "ustar Interchange Format" of IEEE Std
1003.1-2017, `VfsTree` proves that building undoes listing, and `CreateVfs` goes from the bytes of the ramdisk to the tree
and back to the bytes of each file. `Strtok` is the tokenizer with its hidden pointer.

## What the theorems assume

- The arena's begin is page-aligned and not zero; memory of the arena at or above its head is zero, since `alloc_pages`
  does not clear frames (`PageTree.ArenaOk`). Physical addresses stay below 2^52.
- Mapping flags have bit 7 clear; physical addresses given to `map_pages` are aligned to the page size.
- Physical memory is reached through the direct map, so a table at physical address t is written at `P2V(t)`; the model
  writes to t. Reads beyond the modelled memory give 0 and writes there are lost.
- The guards of `kmalloc`, `request_pages` and `alloc_pages`, which compute ends modulo 2^64, are right about the sizes asked
  for (`Heap.SizeFits`, `Arena.RangeFits`, `Arena.FramesFit`). These are the exact conditions, by `Heap.HitExactly`,
  `Arena.GuardExactly` and `Arena.AllocGuardExactly`. `Heap.SmallRunsAreSafe` needs only sizes below a constant, about 2.5 GiB.
- Before `setup_vm`, and before each switch to a new address space, at least one frame is free, because neither `setup_vm` nor
  `exec_process` checks the allocation of the top level.
- For the direct map to reach every table the arena ends below `HHDM_SIZE`.
- A format is the characters before its NUL. Of the arguments, a number is its 64-bit slot and a string its characters.

## Where the code is not what one would expect

- A 4 KiB mapping below a 1 GiB entry replaces that entry by an empty table: the other pages of the gigabyte are lost, even
  when the call then fails for want of the page table. `MapPages.KeepsTranslationsExactly` says exactly when nothing is lost.
- A walk that fails half way moves an upper cache level and leaves the lower ones. `WalkCache.CoherenceExactly` says
  exactly when a 4 KiB call leaves a warm cache coherent and `WalkCache.HugeCoherenceExactly` when a 1 GiB call does;
  `WalkCache.StaleRunMisplaces` is the run in which a later call then reports success without mapping its page.
- The cache is not flushed when the address space is switched: `AddressSpace.SwitchCoherenceExactly`.
- `load_mapping` counts pages from the size alone, so an unaligned segment can end up one page short:
  `AddressSpace.SegmentLoadedExactly`.
- The formatter's digit buffer has 32 characters. Precision zeros, zero padding and the sign compete for it, and `-` drops
  precision zeros: `Ntoa.Fits` is the exact condition in `Ntoa.FieldExactly`.
- A negative `*` precision, which the standard takes as omitted, leaves the code with a precision of 0 and without the `0` flag:
  `"%.*d"` with -1 and 0 prints nothing. Numbers in a format wrap at 2^32. `Standard.IntegerFieldExactly`,
  `Standard.StringFieldExactly` and `Standard.CharFieldExactly` have the exact conditions.
- `setup_vm` does not check the allocation of the kernel stack either: without room no frames are set aside, and the stack
  is at `P2V(0)` (`AddressSpace.StackExactly`).
- A size that wraps in `kmalloc` moves it back into blocks it has handed out (`Heap.WrappedSizeOverlaps`). A count whose end wraps
  in `request_pages` can pass the guard, and moves the head of the arena to the end modulo 2^64, back or forward
  (`Arena.GuardExactly`). The largest size, on an empty heap, passes all guards: 2^52 pages, for which no frame is set aside
  (`Heap.LargestSizePasses`).
- `exec_elf` rounds a segment up to whole pages in bytes and passes that as a page count, 4096 times what it needs.
- `rdisk_read` cannot read the last byte of the disk. An archive without zero blocks behind it loses its last member if that has
  no data, and the end of its last file if the data fills its last block: `CreateVfs.RestoredExactly`.
- The name of a directory with a leading slash breaks the agreement of parent and path, and a name that ends with two slashes
  makes a node without a name: `VfsTree.VisitAgreesExactly`.

## Model

| member | source | states |
|---|---|---|
| Paging.IndicesReassemble | kernel/include/mm/mmhelpers.h:18-40 | the four table indices and the page offset are the digits of the 48-bit address, each index below 512 |
| Paging.SlotsDeterminePage | kernel/include/mm/mmhelpers.h:18-40 | two addresses use the same leaf slot if and only if they are on the same 4 KiB page, and the same PDPT slot if and only if they are on the same 1 GiB page |
| Paging.NextPageCarries | kernel/include/mm/mmhelpers.h:13-40 | adding 4096 carries from level to level like a base-512 counter |
| Paging.EntryFields | kernel/mm/vm/map_pages.c:21-21 | an entry made by bitwise or has the frame, the present bit and the size bit it was made from |
| Paging.EntryExactly | kernel/mm/vm/map_pages.c:109-109 | the entry is the sum of the frame, the low twelve flags and, where bit 0 is not among them, 1 |
| Paging.FlagsAreKept | kernel/mm/vm/map_pages.c:21-21 | every flag from bit 1 to bit 11, write and user among them, is in the entry just as it was asked for |
| PageTree.TranslateViaTables | kernel/mm/vm/map_pages.c:9-25 | in a well-shaped tree the processor's walk follows exactly the tables that `walk_table` reaches |
| PageTree.LinkKeepsShape | kernel/mm/vm/map_pages.c:15-23 | linking a fresh frame below any reachable table keeps the shape: tables aligned, in the arena, referenced once, unused memory zero |
| PageTree.EntryKeepsShape | kernel/mm/vm/map_pages.c:104-109 | writing a leaf or huge entry into a free slot keeps the shape and every table |
| PageTree.TranslateAfterLink | kernel/mm/vm/map_pages.c:15-23 | a newly linked table changes no translation, except that it takes away a 1 GiB page its slot held |
| PageTree.DataStoreKeepsTree | kernel/mm/vm/map_pages.c:9-25 | a write to allocated memory outside the tables changes neither the tree nor any translation or last entry of a walk |
| MapPages.MapPageShape | kernel/mm/vm/map_pages.c:36-112 | a 4 KiB `map_page` keeps the shape and succeeds if and only if the leaf slot is free and there are frames for the missing tables, of which it takes exactly those |
| MapPages.MapPageTranslates | kernel/mm/vm/map_pages.c:36-112 | the translation of every address after a 4 KiB `map_page`, successful or not, in terms of the state before: also when a call below a 1 GiB page fails after it has replaced the page; and, where a page is mapped, the low twelve bits of the last entry of the walk, which are the flags asked for |
| MapPages.KeepsTranslationsExactly | kernel/mm/vm/map_pages.c:15-23 | a 4 KiB `map_page`, successful or not, keeps all earlier translations if and only if no 1 GiB page covers its address or no frame is left at all |
| MapPages.MapHugeShape | kernel/mm/vm/map_pages.c:64-70 | a 1 GiB `map_page` keeps the shape and succeeds if and only if the PDPT entry is free and there is a frame for the PDPT if it is missing |
| MapPages.MapHugeTranslates | kernel/mm/vm/map_pages.c:64-109 | a 1 GiB `map_page` maps exactly its own gigabyte with the flags asked for, and keeps every other translation and last entry |
| MapRange.MapAllTranslates | kernel/mm/vm/map_pages.c:114-126 | the translation theorem: after `map_pages`, successful or failed at page k, exactly the first k pages have been added to the translation of the whole address space, each with the flags asked for in its last entry; they were free before, all other translations and last entries are kept, and 0 is returned if and only if k is all of them |
| MapRange.ByteTranslates | kernel/mm/vm/map_pages.c:114-126 | after success byte o of page i translates to byte o of frame i |
| MapRange.MapAllSucceeds | kernel/mm/vm/map_pages.c:114-126 | 4 KiB pages that do not translate are all mapped when there is room for three tables a page, and no more frames are taken |
| MapRange.HugeRunSucceeds | kernel/mm/vm/map_pages.c:114-126 | the same for 1 GiB pages with free PDPT entries and room for one table a page; no other PDPT entry changes |
| WalkCache.CachedPageRefines | kernel/mm/vm/map_pages.c:36-112 | from a coherent cache the cached 4 KiB `map_page` leaves the same memory and result as the uncached walk from the top level, and the cache stays coherent unless frames run out |
| WalkCache.CachedHugeRefines | kernel/mm/vm/map_pages.c:64-112 | the same memory and result for 1 GiB pages, and a coherent cache after success, although the lower levels are left behind |
| WalkCache.HugeCoherenceExactly | kernel/mm/vm/map_pages.c:50-70 | a 1 GiB call leaves a warm cache coherent if and only if its PDPT entry is free, or it stays in the cached PML4 slot, or its slot holds huge pages |
| WalkCache.CachedMapAllRefines | kernel/mm/vm/map_pages.c:114-126 | the refinement for a whole `map_pages` call |
| WalkCache.CachedRunRefines | kernel/mm/vm/map_pages.c:27-126 | over every run of calls that do not run out of frames, with 4 KiB pages only in PML4 slots free of huge pages, cached and uncached code build the same memory and the cache is coherent throughout |
| WalkCache.FailsForFrames | kernel/mm/vm/map_pages.c:114-126 | `map_pages` of 4 KiB pages that did not translate can fail only when no frame is left |
| WalkCache.CachedPageOnlyAdds | kernel/mm/vm/map_pages.c:36-112 | whatever an earlier failed walk left in the cache, a 4 KiB call outside huge-page slots keeps the shape and every translation |
| WalkCache.CachedRunOnlyAdds | kernel/mm/vm/map_pages.c:36-126 | mappings are only ever added: over any run of such calls, failing or not, an address that translated keeps its translation |
| WalkCache.CoherenceExactly | kernel/mm/vm/map_pages.c:50-97 | a 4 KiB call leaves a warm cache coherent if and only if its walk completes or fails at the first table it looks up, with no frame left |
| WalkCache.StaleRunMisplaces | kernel/mm/vm/map_pages.c:72-111 | after a call whose walk stopped half way, a call whose indices match the cache it left returns 0 and its address translates as before |
| Arena.AllocGuardExactly | kernel/mm/pm/alloc_pages.c:9-18 | for every count: `alloc_pages` refuses just the requests that do not fit if and only if they fit or their end modulo 2^64 is beyond the arena |
| Arena.MapAllocMaps | kernel/mm/vm/map_pages.c:128-140 | for every count about which the guard of `alloc_pages` is right: `mapalloc_pages` maps the range to fresh frames that hold no table, keeps all other translations, and fails cleanly |
| Arena.HugeSetsAside | kernel/mm/vm/map_pages.c:128-140 | of 1 GiB pages `mapalloc_pages` sets a GiB of frames aside for each if they fit the arena, and otherwise refuses and changes nothing |
| Arena.GuardExactly | kernel/mm/vm/request_pages.c:8-13 | for every count and page size: `request_pages` refuses just the ranges that leave the arena if and only if the range fits or its end modulo 2^64 is beyond the arena; what it lets through moves the head to that end |
| Arena.RequestOk | kernel/mm/vm/request_pages.c:8-27 | for every count about which the guard is right: the range starts at the head, or is refused if it leaves the arena; nothing at or above the new head translates |
| Arena.RequestDeviceOk | kernel/mm/vm/request_pages.c:18-20 | the same for frames of a device, mapped in order |
| Arena.RequestSucceeds | kernel/mm/vm/request_pages.c:8-27 | the range at the head is handed out whenever it fits the arena and there are four frames a page |
| Heap.KmallocStep | kernel/mm/vm/kmalloc.c:10-26 | `kmalloc`, from the rest of the current chunk or from a new one, hands out a block that overlaps no other |
| Heap.KmallocSucceeds | kernel/mm/vm/kmalloc.c:10-26 | `kmalloc` does not fail while arena and frames last; the block continues the current chunk if offset and size stay below the chunk's size, else starts at the arena's head |
| Heap.ChunkAfterMiss | kernel/mm/vm/kmalloc.c:18-25 | after a successful miss of m bytes the block starts at the arena's head, the current chunk is that block rounded up to whole pages (one more if m is a multiple of 4096), its first m bytes are taken, and the arena's head is behind it |
| Heap.SmallBlocksShare | kernel/mm/vm/kmalloc.c:10-26 | after such a miss any run of sizes whose sum stays below the rest of the chunk gets contiguous blocks right behind the first, and changes no memory, no frames, no cache and not the arena |
| Heap.RunKeepsHeap | kernel/mm/vm/kmalloc.c:10-26 | the heap invariant over every run of `kmalloc`, `request_pages` and client writes |
| Heap.AllocatorsAreSafe | kernel/mm/vm/kmalloc.c:10-26 | end to end: over every such run all returned ranges are disjoint and inside the arena, each byte translates, different bytes to different bytes of memory, none in a page table |
| Heap.RangesIncrease | kernel/mm/vm/request_pages.c:6-27 | over every run the ranges of `request_pages`, devices included, are disjoint and increasing, and nothing between the head and the end of the arena translates |
| Heap.CallKeepsWord | kernel/mm/vm/kmalloc.c:10-26 | a call changes a client's word only if it is the write to that word, and then to the value written |
| Heap.RunKeepsWord | kernel/mm/vm/kmalloc.c:10-26 | a client's word keeps its value over every run that does not write it |
| Heap.SmallRunsAreSafe | kernel/mm/vm/kmalloc.c:10-26 | allocator safety for every run whose sizes are below a constant, without a condition on the allocator's state |
| Heap.LargestSizePasses | kernel/mm/vm/kmalloc.c:10-17 | `kmalloc` of the largest size on an empty heap: the guards let 2^52 pages through, no frame is set aside, and the head of the arena stays |
| Heap.LargestRangeMovesOn | kernel/mm/vm/request_pages.c:9-20 | one page more, and the head moves on by one page |
| Heap.HitExactly | kernel/mm/vm/kmalloc.c:11-16 | a block cut from the current chunk lies inside it if and only if offset and size do not wrap |
| Heap.WrappedSizeOverlaps | kernel/mm/vm/kmalloc.c:11-16 | after a size that wraps the next block overlaps the earlier block that holds the byte the allocator moved back to |
| Heap.WrappedRunOverlaps | kernel/mm/vm/kmalloc.c:11-16 | three calls from any state with room, the second of which wraps: the third block starts where the first does |
| AddressSpace.SetupVmMaps | kernel/mm/vm/setup_vm.c:29-50 | after a successful `setup_vm` the tree translates exactly the direct map and the kernel image, the last entries of these walks have the low bits 0x83 and 0x3, and the allocators' invariant holds |
| AddressSpace.StackExactly | kernel/mm/vm/setup_vm.c:48-50 | with room the 0x8000 bytes of the kernel stack are frames behind all earlier ones, below the new head, that hold no page table; without room the head stays |
| AddressSpace.SetupVmSucceeds | kernel/mm/vm/setup_vm.c:29-42 | with enough frames `setup_vm` does not panic |
| AddressSpace.BootAddresses | kernel/mm/vm/setup_vm.c:33-42 | `P2V` is a right inverse of translation on the whole direct map, in writable 1 GiB pages, and kernel text translates to where the image was loaded, in writable 4 KiB pages |
| AddressSpace.SwitchKeepsShape | kernel/proc/exec_process.c:31-36 | the new top level with the copied upper half is a well-shaped tree |
| AddressSpace.SwitchTranslates | kernel/proc/exec_process.c:31-36 | after the switch every upper-half address translates as before, through the same last entry, and no lower-half address translates |
| AddressSpace.SwitchCoherenceExactly | kernel/proc/exec_process.c:31-36 | the unflushed cache is coherent with the new tree if and only if it is cold or the last mapping was in the upper half |
| AddressSpace.RequestWarmsCache | kernel/proc/exec_elf.c:50-75 | a successful `request_pages`, which each PT_LOAD segment makes, leaves the cache coherent in the upper half |
| AddressSpace.SwitchKeepsVm | kernel/proc/exec_process.c:31-36 | the allocators' invariant survives the switch |
| AddressSpace.LoadMappingMaps | kernel/proc/exec_process.c:14-27 | where each byte of a segment translates after `load_mapping`, with the segment's flags and the user flag in its last entry, and that earlier translations are kept |
| AddressSpace.SegmentLoadedExactly | kernel/proc/exec_process.c:14-27 | a successful load maps every byte of an unmapped segment if and only if its bytes fit the pages counted from its first page |
| AddressSpace.DisjointSegmentsLoad | kernel/proc/exec_process.c:38-40 | page-aligned, page-disjoint segments over unmapped pages all load, unless frames run out |
| AddressSpace.EnoughFramesLoad | kernel/proc/exec_process.c:38-40 | and with four frames a page they do all load |
| AddressSpace.ProgramLoaded | kernel/proc/exec_process.c:38-40 | each byte of each loaded segment translates, and bytes of different segments to different bytes of memory |
| AddressSpace.NewProcess | kernel/proc/exec_process.c:31-40 | switch and loading together: all segments mapped unless frames run out, and the kernel's half as it was |
| Processes.StepKeeps | kernel/proc/exec_process.c:14-40 | the heap invariant and the direct map survive every allocation, client write, mapping outside the arena and switch |
| Processes.SegmentIsPermitted | kernel/proc/exec_process.c:14-27 | `load_mapping` of any lower-half segment is such a mapping |
| Processes.AboveArenaIsPermitted | kernel/include/apic.h:78-80 | and so is any mapping between the arena and the kernel text, where the interrupt controllers are |
| Processes.SystemStarts | kernel/mm/vm/setup_vm.c:29-50 | `setup_vm` establishes the invariant |
| Processes.SystemIsSafe | kernel/mm/vm/kmalloc.c:10-26 | from boot on, over every life of the system with any number of address spaces: all returned ranges are disjoint, mapped to memory of their own and outside the page tables, and `P2V` is a right inverse of translation |
| Processes.ProcessIsSafe | kernel/proc/exec_process.c:14-40 | over every such life each byte of each page mapped for the current address space is a byte of memory of its own, mapped with the flags asked for, shared with no kernel range, no other mapping and no page table |
| Processes.StackIsSafe | kernel/mm/vm/setup_vm.c:48-50 | over every such life no byte of the 0x8000 bytes of the kernel stack is in a page table, in a range of the allocators or in a page mapped for the current process |
| Processes.VisibleLivesArePermitted | kernel/proc/exec_process.c:31-40 | every life is permitted that keeps to rules on arguments, earlier results and frames left: a switch needs a successful `request_pages` since the last lower-half mapping |
| Processes.ExecIsVisible | kernel/proc/exec_process.c:31-109 | starting a program keeps to these rules, and if its last `request_pages` succeeds the next program can be started |
| Processes.TablesAreReachable | kernel/include/mm/mmhelpers.h:42-43 | each byte of each page table is reached where `P2V` says |
| Processes.LifeKeepsWord | kernel/mm/vm/kmalloc.c:10-26 | what a client wrote stays over every such life that does not write it |
| Rights.ProcessRights | kernel/proc/exec_process.c:14-40 | every byte of every loaded segment of a new process permits user accesses in the entries of all four levels, and its page is writable in the last one if and only if the segment is |
| Rights.BootIsWritable | kernel/mm/vm/setup_vm.c:29-42 | every entry of the boot tree permits writing |
| Rights.HeapIsWritable | kernel/mm/vm/kmalloc.c:18-20 | over every run whose `request_pages` all ask for it, each byte handed out permits writing at all levels; the last entry has the flags asked for, 0x3 for `kmalloc` |
| MemoryManager.Manager.constructor | kernel/mm/vm/map_pages.c:27-34 | the initial values of the globals |
| MemoryManager.Manager.AllocPages | kernel/mm/pm/alloc_pages.c:9-18 | the bump allocator on its globals |
| MemoryManager.Manager.WalkTable | kernel/mm/vm/map_pages.c:9-25 | one level of the walk, with the store of a new table |
| MemoryManager.Manager.Descend | kernel/mm/vm/map_pages.c:53-59 | `walk_table` with the test and the masking of its result |
| MemoryManager.Manager.Place | kernel/mm/vm/map_pages.c:104-111 | the step at the label `alloc` |
| MemoryManager.Manager.MapPage | kernel/mm/vm/map_pages.c:36-112 | the function as written: cached globals, `fill_caches`, the huge branch, the final slot |
| MemoryManager.Manager.MapPages | kernel/mm/vm/map_pages.c:114-126 | the loop; from a coherent cache it maps in `ram` exactly the first k pages, all of them when it returns 0, and no other translation changes |
| MemoryManager.Manager.MapAllocPages | kernel/mm/vm/map_pages.c:128-140 | frames first, then the mapping |
| MemoryManager.Manager.RequestPages | kernel/mm/vm/request_pages.c:8-27 | the virtual arena on its globals |
| MemoryManager.Manager.Kmalloc | kernel/mm/vm/kmalloc.c:10-26 | the byte allocator on its globals |
| MemoryManager.Manager.SetupVm | kernel/mm/vm/setup_vm.c:29-50 | the mapping sequence at boot |
| MemoryManager.Manager.SwitchSpace | kernel/proc/exec_process.c:32-36 | the new top level, copied word by word |
| MemoryManager.Manager.LoadMapping | kernel/proc/exec_process.c:14-27 | the page count and the mapping of one segment |
| MemoryManager.Manager.LoadAll | kernel/proc/exec_process.c:38-40 | the loop over the segments, ignoring results |
| Digits.TextReadsBack | kernel/printf.c:283-303 | the digits of a number read back as the number, in every base |
| Digits.DigitLoopIsText | kernel/printf.c:293-300 | the do-while loop leaves the number's last 32 digits, backwards |
| Digits.WordLength | kernel/printf.c:293-300 | a 64-bit number has at most 22 digits in base 8 or more, so the buffer holds them |
| Ntoa.FieldLength | kernel/printf.c:201-303 | for every value, base, precision, width and flag set the buffer holds at most 32 characters, and the field has max(len, width) of them unless it is zero-padded on the left, when it has len |
| Ntoa.FieldExactly | kernel/printf.c:229-303 | for bases 8 and more, any 64-bit magnitude and any flags but `#`: the code puts out the standard's field (spaces, sign, zeros, minimal digits) if and only if `Fits` holds |
| Ntoa.NumberReadsBack | kernel/printf.c:283-303 | the digits of the standard's field, zeros included, read back as the number |
| Standard.ParserReads | kernel/printf.c:600-682 | the parser agrees with the standard's reading of every directive, modulo 2^32, but for the sign of a `*` precision, and is undefined just for the least width argument |
| Standard.DirectiveReadsBack | kernel/printf.c:600-682 | parsing inverts writing: flags in any order, a width and a precision as numbers, as `*` or as a `.` alone, and a length modifier are read back from any place in a format, by the standard's reading and by the parser |
| Standard.IntegerFieldExactly | kernel/printf.c:686-758 | for every `d`, `i`, `u`, `o`, `x` and `X` directive without an effective `#` and every argument list: the directive uses one argument, is undefined just for the least value of a signed conversion, and puts out the field section 7.21.6.1 asks for if and only if `Meets` holds |
| Standard.IntegerReadsBack | kernel/printf.c:686-758 | the number in the standard's field, read in base 10, 8 or 16 by its conversion character, is the argument's value in the type the length modifier names |
| Standard.PrintedReadsBack | kernel/printf.c:686-758 | and where the code meets the standard, so is the number in what the code puts out |
| Standard.MarkedAndBinary | kernel/printf.c:229-279 | what `%#x`, `%#X`, `%#o` and `%b` render for every argument, which `IntegerFieldExactly` leaves out |
| Standard.NegativePrecisionOfZero | kernel/printf.c:633-646 | `"%.*d"` with -1 and 0 prints nothing where the standard asks for 0 |
| Standard.NegativePrecisionOfZeros | kernel/printf.c:633-646 | `"%05.*d"` with -1 and 42 fills with spaces where the standard asks for zeros |
| Format.AtoiInvertsText | kernel/printf.c:190-197 | `_atoi` reads a decimal number back modulo 2^32, and stops behind it |
| Standard.StringFieldExactly | kernel/printf.c:798-822 | for every `%s` directive, argument list and string: the field put out is the one the standard asks for if and only if `StringMeets` holds |
| Standard.CharFieldExactly | kernel/printf.c:778-796 | `%c` uses one argument and puts out its low byte once, padded with spaces on the side the flags ask for, up to the width if and only if that is below 2^32 |
| Standard.PointerPrints | kernel/printf.c:824-836 | a `%p` without flags and precision uses one argument and puts out 16 characters, its upper-case hexadecimal digits behind zeros, whatever the width |
| Standard.PointerReadsBack | kernel/printf.c:824-836 | the format `"%p"` renders every 64-bit value as 16 characters, digits or `A` to `F`, that read back in base 16 as the value |
| Standard.OthersAreCopied | kernel/printf.c:842-850 | `%%` puts out one `%`, and any other character that is no conversion itself, without an argument |
| Standard.FormatMeets | kernel/printf.c:579-859 | a whole format whose directives all meet their conditions renders the text section 7.21.6.1 asks for, the directives taking the arguments in turn |
| Printf.OutBuffer | kernel/printf.c:135-140 | one more character offered to the bounded sink |
| Printf.OutRev | kernel/printf.c:201-225 | the padding and the reversed digits are appended, and the index grows by their number |
| Printf.NtoaFormat | kernel/printf.c:229-279 | the whole field is appended, without leaving the 32-character buffer |
| Printf.NtoaLong | kernel/printf.c:283-328 | the digit loop and the field, for `_ntoa_long` and `_ntoa_long_long` |
| Printf.ReadNumber | kernel/printf.c:190-197 | the loop of `_atoi` |
| Printf.StrnLen | kernel/printf.c:173-178 | the smaller of length and limit |
| Printf.Vsnprintf | kernel/printf.c:579-859 | the truncation theorem: the first min(L, n-1) characters of the unbounded output and a NUL, the rest of the buffer untouched, the result L modulo 2^32 as an `int` whatever n is, nothing written for n = 0 or without a buffer |
| Printf.PrintTo | kernel/printf.c:588-858 | the loop over the format and the termination |
| Printf.UnsignedRoundTrip | kernel/printf.c:190-330 | printing a 32-bit number with `%u` and reading it with `_atoi` gives it back |
| Paths.Memrchr | kernel/_stdfuncs.c:73-84 | finds the last slash of a prefix |
| Paths.GetBasename | kernel/fs/fsutils.c:8-14 | the last slash that is not the final character, or the start |
| Paths.GetDirname | kernel/fs/fsutils.c:16-23 | the copy of what is before it |
| Paths.DirnameOfJoin | kernel/fs/fsutils.c:16-23 | taking the directory undoes joining a name to it, and shortens |
| Ustar.Oct2binLoop | kernel/tar/create_vfs.c:8-15 | the accumulating loop, in 32-bit arithmetic |
| Ustar.Oct2binIs | kernel/tar/create_vfs.c:8-15 | whatever the bytes are, the result is the base-8 sum of each byte, as a signed one, less 48, modulo 2^32 |
| Ustar.OctalReadsBack | kernel/tar/create_vfs.c:8-15 | an octal size field reads back as the size |
| Ustar.HeaderReadsBack | kernel/include/fs/tar.h:22-39 | magic, version, name, type, link name and size of a written header are read back by the kernel |
| Ustar.MemberCoversData | kernel/tar/create_vfs.c:105-106 | the step is the least multiple of 512 that covers header and data |
| Ustar.NextMember | kernel/tar/create_vfs.c:105-110 | the step lands exactly on the next header, and the read there succeeds if and only if the disk goes on behind that header |
| Ustar.NoMoreMembers | kernel/tar/create_vfs.c:105-110 | behind the last member there is no header |
| Ustar.DataReadsExactly | kernel/ramdisk/new_ramdisk_mount.c:8-15 | every range inside a member's data reads back its bytes if and only if the data does not end with the disk |
| VfsTree.ClimbReaches | kernel/tar/create_vfs.c:59-63 | the pop loop ends at the record's own directory, with an identifier that got shorter |
| VfsTree.VisitListed | kernel/tar/create_vfs.c:45-103 | the body of the loop adds to the record's directory one node with its name, kind, link and offset, and changes nothing else |
| VfsTree.BuildingUndoesListing | kernel/tar/create_vfs.c:42-111 | for every directory tree listed depth first the loop rebuilds the tree: shape, order, names, kinds, links, offsets |
| VfsTree.VisitAgreesExactly | kernel/tar/create_vfs.c:39-103 | a record of any archive keeps all nodes properly named and the path to `current_parent` equal to `samedir_identifier` if and only if its name does not end with two slashes, and is relative or no directory |
| VfsTree.VisitsAgree | kernel/tar/create_vfs.c:39-111 | so they are equal at the top of every record of any archive with relative names that do not end with two slashes |
| CreateVfs.LoopVisits | kernel/tar/create_vfs.c:42-111 | on the bytes of an archive the loop sees, in order, exactly the members whose headers can be read |
| CreateVfs.CreateRebuildsExactly | kernel/tar/create_vfs.c:17-115 | from the bytes of a tree's archive the whole tree is rebuilt if and only if zeros follow or the last member has data |
| CreateVfs.EmptyIsRefused | kernel/tar/create_vfs.c:20-26 | an archive without members gives NULL |
| CreateVfs.RefusedExactly | kernel/tar/create_vfs.c:20-26 | NULL if and only if the first 512 bytes cannot be read, bytes 257 to 261 are not `ustar`, or bytes 263 and 264 are not `00` |
| CreateVfs.RestoredExactly | kernel/tar/tar_fileops.c:9-16 | the tree is rebuilt and `tar_read` of every range of every file gives the archived bytes if and only if zeros follow the last member or its data does not fill its last block |
| CreateVfs.CreateVfsTar | kernel/tar/create_vfs.c:17-115 | the function with its loop, over a growing set of nodes |
| CreateVfs.VisitRecord | kernel/tar/create_vfs.c:45-103 | name, pop loop, node and footer |
| CreateVfs.Vfs.AddChild | kernel/tar/create_vfs.c:96-103 | the new node becomes the last child of its parent |
| Strtok.OneCall | kernel/_stdfuncs.c:87-132 | one call returns the first maximal delimiter-free run at or after its start, or nothing if there is none |
| Strtok.AllCallsDeliver | kernel/_stdfuncs.c:87-132 | calling until NULL delivers, in order, exactly the maximal runs of the original string, each terminated, and writes only NULs over delimiters |
| Strtok.Tokenizer.StrTok | kernel/_stdfuncs.c:87-132 | the function with its static pointer, on a buffer in place |

## Left out

- MemoryManager.Manager.SwitchSpace: copies aligned words, where the C code copies bytes; CR3, the TLB and the direct map's own virtual addresses are not modelled.
- MemoryManager.Manager.LoadMapping: does not fill the segment's bytes; that copy writes through the new lower-half addresses from a buffer that is not modelled.
- AddressSpace.SetupVmMaps: requires a free frame, since the result of the first allocation is not checked; the switch of stacks is reduced to its allocation.
- Heap.AllocatorsAreSafe: excludes sizes about which a guard is wrong and clients that write outside their ranges; client writes are aligned 64-bit words.
- Heap.RunKeepsHeap: devices are mapped while frames remain, because a device mapping after a failed walk may use a stale cache.
- Processes.StepKeeps: mappings at fixed addresses avoid the virtual arena and huge pages, and given frames are mapped and address spaces switched while frames remain and, for the switch, the last mapping was in the upper half.
- Processes.ExecIsVisible: leaves out the buffers `exec_elf` takes from `kmalloc` between its requests; the events are those for the manager, without the contents of segments and stack.
- Rights.HeapIsWritable: requires every request to ask for the write flag, as intermediate entries keep the flags of whoever linked them first; for segments of a process the write flag is therefore stated of the last entry alone.
- Arena.HugeSetsAside: does not say what is mapped, because the frames are not aligned to 1 GiB; the entries then have reserved bits.
- Ntoa.FieldExactly: excludes `#`, which can take back digits, and base 2, where digits beyond 32 are lost; buffer safety and length cover both.
- Printf.Vsnprintf: `_out_char`, `sprintf`'s unlimited size and floating point, which is compiled out, are not modelled. Formats that end inside a directive, arguments that are missing, the negation of the least signed value and a width of INT_MIN are outside its requires.
- Standard.IntegerFieldExactly: excludes an effective `#` and `%b`, which is no conversion of the standard; `MarkedAndBinary` has their plain forms.
- Standard.PointerPrints: excludes flags and a precision, for which the standard defines nothing.
- CreateVfs.CreateVfsTar: nodes are named by their index, as `create_vfs_tar` never moves a child array; a full child array, a climb past the root, an empty last component and a 32-bit wrap of the offset are outside its requires. The root's uninitialised offset is 0.
- Ustar.HeaderReadsBack: the kernel's header structure is 500 bytes and 512 are read into it; the bytes behind it are not modelled. The prefix field is ignored by the code.
- Strtok.Tokenizer.StrTok: one buffer; calls that go on in another string than the one before are not modelled.
- Writing to the ramdisk, `tar_write`, `mkdir` and `open`: they would only add easy members.
- `walk_path`, `load_module` and symbol resolution, `parse_memmap`, the temporary boot tree and the layout of the user stack.
- Hardware: ports, serial line, APIC, ACPI, interrupts, task state, assembly, logging and panic.
