# Memory bring-up of the kernel, in Dafny

The kernel brings its memory up in two steps: `initialize_memmap` turns the boot memory map into regions and a
nibble-per-frame bitmap, and `initialize_paging` builds four-level page tables in frames taken from that bitmap. This
project models both over one byte-addressed physical memory, and proves that the tables, built in place, are exactly a
finite map from virtual pages to frames and permissions. It also covers the array moves, the log formatter and the
glyph writer.

How the files build on each other:

- `MachineInts`, `PhysicalMemory`, `Entries`: integer widths, bytes and 64-bit words, the entry bit layout. Bitmap and
  page tables share the one memory, so "does not disturb" is always a statement about bytes.
- `Regions`, `Bitmap`, `BootMap`, `FrameAllocation`: what the allocator computes, on values. `BootRuns`: runs of it from
  boot, among them the repository's own 8 GiB machine and the smallest machines that show each failing case. `Pmem`
  holds the class with the allocator's globals as fields; its methods are the loops of `pmem.c`, casts and wrap-around
  included, and hold for regions of any size.
- `PageTables`: the hardware walk, and the predicate `Tree` that says memory holds exactly these tables mapping exactly
  these pages. `AbstractPaging`: the finite map, with all counting. `PagingOverMemory`: `map_page` on memory and the
  simulation between the two. `PagingTheorems`, `PagingFootprint`: consequences for calls and for whole runs, in which
  other clients take frames and write into them.
- `Vm`: the class with `map_page` and `initialize_paging` as methods. `InitialMappings`, `InitialTranslation`: what the
  second leaves mapped. `Boot`: both steps in order.
- `MemoryMoves`, `CStrings`, `Logf`, `Font`: the array algorithms, the log formatter and the glyph writer.

A failed CHASSERT never returns, so an operation yields `Halt(site)` or `Done(value)` and nothing is said about memory
after a halt. One source function is split where it repeats itself: the three upper levels of `map_page` are
`Descend`, the field stores are `SetField`, and the loops of `frame_alloc`, `initialize_memmap` and
`initialize_paging` are methods of their own. Automatic induction is switched off everywhere; every inductive proof is
written out.

## Assumptions

- Usable memory-map entries are page-aligned in base and length, mutually disjoint, not at address 0 and inside the
  52-bit physical address space, as the Limine Boot Protocol promises (`LimineUsable`).
- `Supported` adds: at most 32 usable entries, one of them long enough for the bitmap, a byte of physical memory behind
  each, fewer than 2^32 frames and at most 2^31 pages in a trimmed region. `IndexBoundsTight` shows the walk failing
  beyond the last two. At least two frames are required where a lemma says so; `MinusOneReachable` and `SingleFrame` say
  what happens otherwise.
- Results about page tables require that the frames taken by the run at hand are distinct and lie below 2^40 (`Trusted`,
  `Covered`, `OpCovered`): no offset among them reaches 2^20 pages into its region, which by `AllocRunSafe` is exactly when
  `frame_alloc` has not repeated itself. Only the frames taken count, so the 8 GiB machine of `src/Makefile:67`, whose
  upper region is larger than 2^20 pages, comes up (`EightGiBComesUp`, for the usual split into 3 and 5 GiB). The 2^40
  bound follows the reading of section 6.7.2.1 of ISO C99 in which a 40-bit field is shifted in 40 bits
  (`TablePointerFaithful`); the hardware walk itself uses 52 bits.
- Another client writes only into frames that it has taken (`Behaved`).
- The direct-map offset is page-aligned and in the higher half, and the map reaches all usable memory (`DirectMapped`);
  `bitmap_length` is below 2^32, the range of the fill loop's counter.
- For `initialize_paging`: the stack lies in the direct map, KERNEL_END leaves room for one more page below 2^64, and
  the framebuffer entries do not wrap (`SaneBoot`). A page in both the direct map and the kernel image goes to the
  kernel, as in the code.

## Where the code does less than it seems to

- `frame_alloc` multiplies a 32-bit page offset by 4096 in 32 bits: inside a region of more than 2^20 pages addresses
  repeat. A run from boot hands out distinct frames exactly as long as no offset reaches 2^20 pages; on the 8 GiB machine
  that is for 0x1B_FD00 calls out of 0x1F_FC00.
- `max_frames` is not reduced after trimming, and the bitmap rounds `max_frames / 2` down. With two frames or more this
  is harmless. With exactly one, the only allocatable frame has no nibble: a stray byte decides whether it can be had,
  and the call after it returns -1, which no run on a larger machine does.
- The call after the last frame does not always halt in the region walk: if the first missing frame has no nibble of
  its own, the stray byte behind the bitmap decides whether the scan or the walk stops. Three usable frames are enough
  to see both.
- The parameter `is_supervisor` sets the user bit of the leaf. No page becomes user-accessible, because the upper
  entries never set theirs.
- A tab can move the text cursor past the right edge, where no wrapping happens; drawing there is excluded.
- `%ld` fetches an unsigned number, although its comment calls it signed.

## Model

| member | source | states |
|---|---|---|
| `MachineInts.RoundDownIsMask` | src/memory/memory.h:16-18 | masking with the complement of 4095, bit by bit, is rounding down |
| `PageTables.MacrosNamePage` | src/memory/memory.h:44-47 | the four index macros, shift and mask, are the four indices of the page |
| `MachineInts.PgRoundUp` | src/memory/memory.h:11-13 | the least page boundary at or above the address, or 0 where the addition wraps in the last page below 2^64 |
| `MachineInts.PgRoundDown` | src/memory/memory.h:16-18 | the greatest page boundary at or below the address |
| `MachineInts.DirectMapRoundTrip` | src/memory/pmem.c:20-25 | `v2p` undoes `p2v` in 64-bit arithmetic, also after advancing the pointer |
| `PhysicalMemory.LoadAfterStore` | src/memory/memory.h:69-132 | an aligned 64-bit store is read back and leaves every other word alone |
| `PhysicalMemory.LoadAfterFill` | src/lib/stdlib.c:13-21 | zeroing a range zeroes its words and leaves every word outside alone |
| `PhysicalMemory.LittleEndian` | src/memory/memory.h:69-132 | a 64-bit word is the sum of its bytes, the one at the lowest address counting least |
| `Entries.DecodeEncode` | src/memory/memory.h:69-132 | the bit layout loses no field: entry to word and back |
| `Entries.EncodeDecode` | src/memory/memory.h:69-132 | and no bit: word to entry and back |
| `Entries.BitPositions` | src/memory/memory.h:69-132 | present, rw, us, pwt, pcd and accessed are the bits 0 to 5 of the word by quotient and remainder, the frame its bits 12 to 51, nx bit 63, and so on for all thirteen fields |
| `Entries.SlotBits` | src/memory/memory.h:69-132 | the same of the word that lies in memory at an entry's place |
| `Entries.EncodedSum` | src/memory/memory.h:69-132 | the word of an entry is the sum of its fields at their places |
| `Entries.TableEntryWord` | src/memory/vm.c:77-79 | a pointer to the table in frame f is the word 3 + 4096 f |
| `Entries.LeafEntryWord` | src/memory/vm.c:110-118 | a fresh leaf is 1 + 2 rw + 4 us + 8 pwt + 4096 frame + 2^63 nx |
| `Entries.TablePointerFaithful` | src/memory/vm.c:79-82 | a table address survives being stored and read back through the 40-bit field if and only if it is below 2^40 |
| `Entries.SlotAfterPut` | src/memory/vm.c:77-79 | a store to one entry changes that entry of that table and no other |
| `Regions.WalkExactCondition` | src/memory/pmem.c:203-220 | the walk, casts and 32-bit product included, finds the j-th page for every j, equivalently never gives one address twice, if and only if no region exceeds 2^20 pages |
| `Regions.WalkExactUpTo` | src/memory/pmem.c:203-220 | the same for the first n indices: right, and equivalently without repetition, if and only if no offset below n reaches 2^20 pages |
| `Regions.FlatIndexBijection` | src/memory/pmem.c:203-220 | flat indices below the page total and pages of the regions correspond one to one |
| `Regions.LargeRegionRepeats` | src/memory/pmem.c:220 | at any offset of any region, the address 2^20 pages on is the same |
| `Regions.WalkAtOffset` | src/memory/pmem.c:206-220 | at an offset below 2^31 and a flat index below 2^32, the address computed is that of the offset modulo 2^20 |
| `Regions.WalkPastTheEnd` | src/memory/pmem.c:211-214 | past the last page, up to index 2^32, the walk reaches the failing bound check |
| `Regions.IndexBoundsTight` | src/memory/pmem.c:203-214 | both bounds are tight: at offset 2^31 the cast turns negative and the walk leaves the region, at index 2^32 it starts over |
| `Regions.WalkStaysInside` | src/memory/pmem.c:203-220 | whatever the index, an address returned is a page of some region |
| `Bitmap.FlagsOfOneByte` | src/memory/pmem.c:29-59 | writing one nibble reads back, and the byte-mate's nibble is kept |
| `Bitmap.NibbleAfterPut` | src/memory/pmem.c:29-59 | setting one frame's flags keeps those of every other frame |
| `Bitmap.NibbleByValue` | src/memory/pmem.c:46-59 | an even frame's flags are its byte divided by 16, an odd frame's the remainder |
| `Bitmap.PutNibbleByValue` | src/memory/pmem.c:29-43 | setting flags replaces the quotient for an even frame and the remainder for an odd one, and no other byte |
| `Bitmap.AvailableByValue` | src/memory/pmem.c:189-190 | a frame is available when its nibble is at least 8 |
| `BootMap.TrimOneRegion` | src/memory/pmem.c:149-158 | trimming keeps a region well formed, never pushes its start past its end, clears the bitmap's bytes and costs exactly ceil(bitmap_length / 4096) pages |
| `BootMap.TrimConserves` | src/memory/pmem.c:80-161 | conservation: trimmed pages plus the bitmap's pages for each of the k large entries make up max_frames |
| `BootMap.HomeIsLastLarge` | src/memory/pmem.c:143-162 | the bitmap ends up in the last entry that is long enough, none being chosen exactly when none is |
| `BootMap.UsableEntriesAre` | src/memory/pmem.c:84-89 | the usable entries are exactly those of that kind, in order and with repetitions |
| `BootMap.BootLayoutSound` | src/memory/pmem.c:76-165 | the layout computed from a supported map has disjoint regions that avoid the bitmap, and has fewer pages than max_frames if and only if there are two frames or more |
| `BootMap.TotalBelowMaxFrames` | src/memory/pmem.c:139-140 | the pages left by trimming never exceed max_frames, and fall short of it if and only if max_frames is at least 2 |
| `BootMap.NibblesInsideBitmap` | src/memory/pmem.c:139-140 | every allocatable frame has its nibble inside the bitmap if and only if max_frames is not 1 |
| `FrameAllocation.NextAvailable` | src/memory/pmem.c:189-194 | from an arbitrary bitmap the scan finds the least available frame at or above index, or none |
| `FrameAllocation.PageFrameSafe` | src/memory/pmem.c:203-220 | the frame handed out for an index below the page total lies inside a region and shares no byte with the bitmap |
| `FrameAllocation.WalkInSound` | src/memory/pmem.c:203-220 | the walk succeeds exactly below the page total, regions of any size included |
| `FrameAllocation.PageFrameInjective` | src/memory/pmem.c:203-220 | two of the first n indices never share a frame if and only if no offset below n reaches 2^20 pages |
| `FrameAllocation.TakenNibbles` | src/memory/pmem.c:196-199 | taking a frame clears its AVAIL flag, keeps its other three, and keeps all flags of all other frames, even when the frame is zeroed |
| `FrameAllocation.TakenFootprint` | src/memory/pmem.c:196-224 | no byte changes but the bitmap byte and the zeroed frame, which is all zeros |
| `FrameAllocation.TakenByte` | src/memory/pmem.c:196-199 | taking an available frame lowers its bitmap byte by 128 if the frame number is even, by 8 if it is odd |
| `FrameAllocation.BitmapBytes` | src/memory/pmem.c:167-199 | the state reached from boot byte by byte: 0x00 below the index, 0x08 where only the first frame of the byte is taken, 0x88 above |
| `FrameAllocation.BitmapFillInOrder` | src/memory/pmem.c:173-176 | after initialisation every frame is available |
| `FrameAllocation.AllocInOrder` | src/memory/pmem.c:183-229 | in every state reached from boot, AVAIL is clear exactly below index, the next page is handed out, the call halts exactly when none is left, and -1 is never returned |
| `FrameAllocation.LastCallHalts` | src/memory/pmem.c:189-214 | the exact condition under which the first failing call stops in the region walk rather than in the scan |
| `FrameAllocation.AllocRunSafe` | src/memory/pmem.c:183-229 | over any run, as many calls succeed as there are pages, with aligned addresses in usable regions, clear of the bitmap; they are pairwise distinct if and only if no offset among them reaches 2^20 pages |
| `BootRuns.BootAllocations` | src/memory/pmem.c:76-229 | from boot, exactly max_frames minus k times ceil(bitmap_length / 4096) allocations succeed, each in a usable memory-map entry and clear of the bitmap, never repeated if and only if no page used lies 2^20 pages into its region |
| `BootRuns.BitmapAfterRun` | src/memory/pmem.c:167-229 | after any run from boot each bitmap byte is 0x00, 0x08 or 0x88 according to the number of calls |
| `BootRuns.MinusOneReachable` | src/memory/pmem.c:183-187 | for some memory and some run frame_alloc returns -1 after boot if and only if there are fewer than two usable frames |
| `BootRuns.SingleFrame` | src/memory/pmem.c:183-229 | with one frame the stray byte at the bitmap's address decides whether it can be had, and the next call returns -1 |
| `BootRuns.OneFrameMachine` | src/memory/pmem.c:139-187 | a concrete map of one frame and a memory for which two calls give 0x1000 and -1 |
| `BootRuns.ThreeFrameMachine` | src/memory/pmem.c:139-214 | a concrete map of three frames on which the third call stops in the scan or in the walk, as the byte behind the bitmap has it |
| `BootRuns.EightGiBRuns` | src/Makefile:66-67 | the 8 GiB machine: 0x1F_FC00 calls succeed, and their addresses are distinct exactly up to 0x1B_FD00 calls |
| `Pmem.FrameAllocator.constructor` | src/memory/pmem.c:4-10 | static storage starts at zero |
| `Pmem.FrameAllocator.Memset` | src/lib/stdlib.c:13-21 | the loop fills exactly the n bytes behind the pointer |
| `Pmem.FrameAllocator.GetFrameFlags` | src/memory/pmem.c:46-59 | reads the frame's nibble out of the shared memory, the byte's quotient or remainder by 16 |
| `Pmem.FrameAllocator.SetFrameFlags` | src/memory/pmem.c:29-43 | replaces the frame's nibble, quotient or remainder, and nothing else |
| `Pmem.FrameAllocator.InitializeMemmap` | src/memory/pmem.c:76-124 | halts for too many entries or no home, otherwise leaves the boot layout and a memory changed in the bitmap alone |
| `Pmem.FrameAllocator.ReadUsableEntries` | src/memory/pmem.c:80-119 | one region per usable entry, in order, and the frame count |
| `Pmem.FrameAllocator.LocateForBitmap` | src/memory/pmem.c:127-165 | every large entry is trimmed, the last one hosts the bitmap; the second loop's counter names the first loop's region |
| `Pmem.FrameAllocator.InitializeBitmap` | src/memory/pmem.c:167-178 | every byte of the bitmap, and no other, becomes 0x88 |
| `Pmem.FrameAllocator.ScanForAvailable` | src/memory/pmem.c:189-194 | the scan terminates at the least available frame |
| `Pmem.FrameAllocator.WalkRegions` | src/memory/pmem.c:203-220 | for any regions the loop with its casts is the walk of the specification, its repetitions on large regions included |
| `Pmem.FrameAllocator.FrameAlloc` | src/memory/pmem.c:183-229 | outcome, new memory and new index are those of the specification, from any bitmap and for regions of any size |
| `PageTables.WalkIsLookup` | src/memory/vm.c:110-118 | the hardware walk with protection combined over four levels is the lookup in the finite map; no page is user-accessible |
| `PageTables.UpperWord` | src/memory/vm.c:77-107 | every word of an upper table is 3 plus the address of the child table, or zero |
| `PageTables.LowestWord` | src/memory/vm.c:110-118 | every word of a lowest table is its leaf's bits at their places, or zero |
| `PageTables.AddTable` | src/memory/vm.c:75-80 | hanging a zeroed frame below a table adds one empty table, maps nothing and keeps the tree |
| `PageTables.PutLeaf` | src/memory/vm.c:109-118 | the leaf stores change the map at one page only |
| `PageTables.OnePointerPerTable` | src/memory/vm.c:74-107 | each table but the root is pointed to by exactly one entry |
| `PageTables.LeafSlotIsPage` | src/memory/memory.h:44-47 | two canonical addresses share a leaf entry if and only if they are in the same page |
| `AbstractPaging.MapTablesCount` | src/memory/vm.c:74-107 | one call takes one frame per missing table of its path and fails only for want of frames |
| `AbstractPaging.RunCount` | src/memory/vm.c:71-119 | a run succeeds if and only if the frames left cover the distinct tables its pages need and what other clients take; it consumes exactly those and yields the finite map |
| `AbstractPaging.TableCount` | src/memory/vm.c:75-107 | the tables number one plus the distinct PML4 indices, (PML4, PDPT) pairs and (PML4, PDPT, PD) triples |
| `PagingOverMemory.TakenKeepsFrame` | src/memory/pmem.c:196-224 | allocation leaves every frame handed out earlier byte for byte alone |
| `PagingOverMemory.TakeSimulates` | src/memory/pmem.c:183-229 | an allocation by any other client leaves the address space as it is |
| `PagingOverMemory.WriteSimulates` | src/memory/pmem.c:183-229 | a client's write into a frame it has taken changes neither the address space nor the allocator's state |
| `PagingOverMemory.DescendSimulates` | src/memory/vm.c:74-107 | one level of map_page follows or creates the table the finite model names, halting alike |
| `PagingOverMemory.MapPageSimulates` | src/memory/vm.c:71-119 | map_page on memory refines the update of the finite map and keeps allocator invariant and tree |
| `PagingTheorems.MapPageChangesOnePage` | src/memory/vm.c:71-119 | the page asked for walks to paddr >> 12 with the requested bits; every other page walks as before, whatever tables were added |
| `PagingTheorems.MapPageWords` | src/memory/vm.c:71-119 | after map_page the three pointers on the page's path are 3 plus the table's address, and the leaf has each of its bits, the user bit included, as asked |
| `PagingTheorems.LeafFields` | src/memory/vm.c:110-118 | all thirteen fields of the leaf: six as asked, the other seven as before, or zero on a page mapped for the first time |
| `PagingTheorems.LeafFieldsAnyMemory` | src/memory/vm.c:74-118 | the same where the entries on the path hold anything the processor may have marked |
| `PagingTheorems.MapPageHalts` | src/memory/vm.c:74-107 | it halts if and only if the missing tables outnumber the frames left |
| `PagingTheorems.RemapTouchesLeafOnly` | src/memory/vm.c:71-119 | mapping a mapped page allocates nothing and rewrites its leaf entry only |
| `PagingTheorems.RepeatIsIdentity` | src/memory/vm.c:71-119 | repeating a call with the same arguments leaves memory and allocator identical |
| `PagingTheorems.OrderDoesNotMatter` | src/memory/vm.c:71-119 | two runs over the same pages with the same last request for each and as many other allocations succeed or halt alike, consume alike and translate alike, in any order and with any repeats |
| `PagingTheorems.RunSimulates` | src/memory/vm.c:71-119 | every interleaving of map_page, other allocations and writes into the frames so obtained keeps the refinement |
| `PagingTheorems.RunTranslation` | src/memory/vm.c:110-118 | after any run each page has the frame, write and no-execute permission its latest request asked for, and is never user-accessible |
| `PagingTheorems.ReachableTables` | src/memory/vm.c:74-107 | following pointers from the PML4 reaches exactly the tables of the model, each in its own frame |
| `PagingTheorems.FreshSpace` | src/memory/vm.c:34-35 | the zeroed PML4 is an address space that maps nothing |
| `PagingTheorems.FramesConsumed` | src/memory/vm.c:75-107 | from a zeroed PML4, the frames used by any sequence of calls are the table count above, whatever order and repeats |
| `PagingTheorems.FramesAreTables` | src/memory/vm.c:34-107 | no leak: with paging the only client, the frames handed out are exactly the tables reachable from the PML4 |
| `PagingFootprint.MapPageFootprint` | src/memory/vm.c:71-119 | map_page writes only the four entries on the page's path, the frames it newly takes and their bitmap bytes |
| `PagingFootprint.OtherFramesUntouched` | src/memory/vm.c:71-119 | an earlier frame that holds none of the page's tables keeps every byte |
| `PagingFootprint.ClientsKeepTheirData` | src/memory/vm.c:71-119 | over any run a client finds in its frame what it last wrote there: no map_page call and no other allocation touches it |
| `Vm.AddressSpace.SetField` | src/memory/vm.c:77-79 | a bit-field store changes one field of one entry |
| `Vm.AddressSpace.StorePointer` | src/memory/vm.c:77-79 | three field stores make the entry point to the table and keep its other bits |
| `Vm.AddressSpace.StoreLeaf` | src/memory/vm.c:110-118 | six field stores write the leaf: each of the thirteen fields is the one asked for or the one before |
| `Vm.AddressSpace.Descend` | src/memory/vm.c:74-83 | one level in place: memory, index and returned pointer are those of the specification |
| `Vm.AddressSpace.MapPage` | src/memory/vm.c:71-119 | in place: halts exactly for want of frames, otherwise the map gains this page, its leaf word is as asked bit by bit, its walk likewise, and every other walk is unchanged |
| `Vm.AddressSpace.CreatePml4` | src/memory/vm.c:34-35 | an empty address space in the next frame, or a halt if there is none |
| `Vm.AddressSpace.MapStack` | src/memory/vm.c:39-41 | the loop performs exactly the sixteen stack requests |
| `Vm.AddressSpace.MapBuffer` | src/memory/vm.c:48-50 | the inner loop maps one framebuffer entry to its last, possibly partial, page |
| `Vm.AddressSpace.MapFramebuffers` | src/memory/vm.c:44-52 | all framebuffer entries, in order, and no other |
| `Vm.AddressSpace.MapKernel` | src/memory/vm.c:55-59 | the kernel pages up to and including the one at KERNEL_END |
| `Vm.AddressSpace.InitializePaging` | src/memory/vm.c:30-59 | the resulting address space is the run of all requests from an empty one; halts exactly when that run does |
| `InitialTranslation.InitialPages` | src/memory/vm.c:30-59 | which pages end up mapped, to what, with the kernel image overriding framebuffers, and these the stack and PML4 |
| `InitialTranslation.InitialFrames` | src/memory/vm.c:30-59 | it succeeds exactly when the frames left cover the distinct tables of the pages requested, consumes exactly those, and maps exactly those pages |
| `InitialTranslation.InitialWalk` | src/memory/vm.c:30-59 | the hardware walk of every canonical address afterwards: kernel to physical_base plus offset, direct map to address minus offset, all else faults |
| `InitialTranslation.WhereAddressesGo` | src/memory/vm.c:30-59 | the same walk in plain numbers: kernel image, framebuffers, the sixteen stack pages and the PML4, and a fault elsewhere |
| `InitialTranslation.InitialWord` | src/memory/vm.c:30-59 | the leaf word of every page mapped at start-up, kernel, framebuffer and stack, user and write-through bits included |
| `InitialMappings.DemandBound` | src/memory/vm.c:30-59 | the frames asked for are at most one plus three for each page requested |
| `Boot.BringUpMemory` | src/boot/kernel.c:52-62 | both initialisations in order on an arbitrary memory: every canonical address then translates as it should, the PML4 is in the first frame, the tables consume exactly the frames counted, and only missing frames can stop it |
| `Boot.EightGiBComesUp` | src/Makefile:66-67 | the 8 GiB machine meets the conditions of bring-up and bring-up succeeds, for kernel and framebuffers up to an explicit size |
| `MemoryMoves.Memmove` | src/lib/stdlib.c:23-38 | for any overlap the destination holds the old source and everything else is unchanged |
| `MemoryMoves.Memcpy` | src/lib/stdlib.c:2-11 | the forward copy, each byte read after the earlier writes |
| `MemoryMoves.MemcpyMovesExactly` | src/lib/stdlib.c:2-38 | the forward copy does memmove's job on all contents if and only if the destination does not start inside the source |
| `MemoryMoves.ForwardCopyRepeats` | src/lib/stdlib.c:6-8 | on such an overlap it repeats the bytes before the destination |
| `Logf.NumeralReadsBack` | src/lib/stdlib.c:119-176 | a printed number parses back to the argument and has no leading zero |
| `Logf.ParseStep` | src/lib/stdlib.c:119-176 | how a numeral is read: a digit at place d of 0123456789abcdef multiplies by the base and adds d |
| `Logf.HexadecimalPrints` | src/lib/stdlib.c:129-141 | %x prints the one hexadecimal numeral that reads back as the argument, and goes on behind it |
| `Logf.LongHexadecimalPrints` | src/lib/stdlib.c:165-178 | %lx likewise for 64 bits |
| `Logf.LongDecimalPrints` | src/lib/stdlib.c:147-164 | %ld prints the 64-bit argument in decimal, never a sign |
| `Logf.DecimalPrints` | src/lib/stdlib.c:112-128 | %d prints a minus exactly for negative numbers, then the magnitude in decimal |
| `Logf.StringPrints` | src/lib/stdlib.c:105-111 | %s prints the text before the NUL, and nothing for a null pointer |
| `Logf.UnknownPrints` | src/lib/stdlib.c:179-195 | an unknown specifier is printed as it stands and fetches no argument |
| `Logf.TrailingPercentPrints` | src/lib/stdlib.c:102-197 | a percent sign at the end is printed, %l at the end is not |
| `Logf.LevelReadsBack` | src/lib/stdlib.c:71-94 | the level and the rest can be read off a log line |
| `Logf.NumeralsFit` | src/lib/stdlib.c:98-123 | 64-bit numbers need at most 20 decimal or 16 hexadecimal places of the 32-byte buffer |
| `CStrings.TextOfStored` | src/serial/serial.c:41-46 | the text read back from a stored string is the text before its NUL |
| `CStrings.TextBeforeNul` | src/serial/serial.c:41-46 | whatever follows the NUL does not matter |
| `Logf.PlainTextPrintsItself` | src/lib/stdlib.c:195-197 | text without a percent sign comes out as it stands, whatever follows |
| `Logf.Serial.FillDigits` | src/lib/stdlib.c:119-123 | the digit loop leaves the numeral reversed in the buffer, within its bounds |
| `Logf.Serial.WriteNumber` | src/lib/stdlib.c:119-126 | filling and sending backwards prints the numeral |
| `Logf.Serial.SerialLog` | src/serial/serial.c:41-46 | appends the text up to the first NUL and no more |
| `Logf.Serial.PrintItem` | src/lib/stdlib.c:102-198 | one turn of the scanner prints one item and advances past it |
| `Logf.Serial.Log` | src/lib/stdlib.c:78-202 | the output is the prefix written out for each level and the rendered format, for every format and arguments that fit it, never reading past the terminator |
| `Font.Console.constructor` | src/resources/font/font.c:12-27 | rows and columns that fit the framebuffer, cursor at the top left |
| `Font.Console.DrawRow` | src/resources/font/font.c:59-65 | eight pixels from one byte: pixel x is foreground exactly if the digit of weight 128, 64, 32, ... is 1, else background; nothing else changes |
| `Font.PixelDigit` | src/resources/font/font.c:59-64 | testing bit 7 - x of a byte is asking for its binary digit by quotient and remainder |
| `Font.Console.DrawGlyph` | src/resources/font/font.c:52-73 | the glyph fills the cursor's cell, no other pixel changes, and the cursor moves one cell on |
| `Font.Console.Putchar` | src/resources/font/font.c:37-74 | newline and tab move the cursor only, in 16 bits; any other character's glyph is drawn in the cursor's cell, each pixel foreground or background by its binary digit, and the cursor moves on, wrapping at the right edge |
| `Font.Console.Puts` | src/resources/font/font.c:77-82 | for any text of glyphs, tabs and newlines, each pixel of a cell is foreground or background by the binary digit of the last character drawn there, all other pixels are kept, and the cursor ends where the characters take it |
| `Font.PlainTextCells` | src/resources/font/font.c:37-82 | without tabs and newlines the k-th character lands in cell start + k, row by division and column by remainder, and stays |
| `Font.SeveralLines` | src/resources/font/font.c:37-82 | lines joined by newlines stand one below the other, each character behind the columns of those before it, tabs counting four, and the cursor ends behind the last line |

## Left out

- Freeing frames: `frame_free` (src/memory/pmem.c:231-239) is unfinished.
- Everything from the CR3 load on (src/memory/vm.c:66): the tables are reached through the direct map the boot loader
  set up, and what the processor caches or marks accessed and dirty afterwards is not modelled.
- Interrupts, the timer, serial port handshakes and register access: hardware effects.
- The log lines and statistics printed during initialisation: text only.
- `Logf.Serial.Log`: the least int under `%d` is excluded, because negating it overflows in C; logging is taken as enabled.
- `Font.Console.Puts`: codes of 128 and above, which a plain `char` sign-extends, and glyphs off the screen are excluded;
  the source implements no scrolling.
- `Boot.BringUpMemory`: says nothing of machines on which a table would be given a frame already handed out, or one at or
  above 2^40; the lemmas on exact conditions say when that is.
- `AbstractPaging.Covered`: asks of frames taken by other clients, too, that they lie below 2^40.
- `Pmem.FrameAllocator.InitializeMemmap`: models the first call only, from zeroed static storage.
- `memcmp` and the unused default entries: only easy members.
