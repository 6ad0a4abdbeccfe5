# Kernel memory, scheduling and archive core, modelled and proved in Dafny

This project models the core of a small x86_64 kernel and proves properties of it.

- `PhysMem`, `PageRun`, `BootNumbers` (page.c): the physical page allocator, a bitmap of real bytes with bit operations
  and three counters, proved to be a set of free frames. Physical memory is one store from frame number to 512 words.
- `Words`, `Mmu`: the processor's view of page tables, on plain numbers and apart from the kernel's code: which entry of
  which table an address selects, what its bits mean, and what it translates to. `VmmNumbers`, `TableNumbers`,
  `CloneNumbers` and `KernelNumbers` tell what mapping, cloning and boot do by what the processor then finds.
- `Pte`, `PageTree`, `VmmSpec`, `VmmMap`, `VmmRun`, `VmmCount` (vmm_map.c): four-level page tables in that memory.
  A recursive footprint gives ownership; mapping and unmapping are functions (`Plant`, `Prune`) that the methods
  refine, and over any run of operations on any number of pagemaps the tables refine partial maps.
- `CloneSpec`, `VmmClone`, `CloneTheorems` (vmm_clone.c): deep clone with rollback, and release. The
  four nested loops do the same at each level and are one recursive method here, called with levels 4 to 1. Success is
  characterised exactly, and failure is all-or-nothing. `VmmIsolation` proves that a clone and its source stay apart
  however they interleave, and `VmmWorld` that every world reached by maps, unmaps, clones, releases and other clients
  of the page allocator keeps all pagemaps intact, leaves no empty table unless a map fails, and accounts for every page.
  `VmmProcesses` proves isolation for any number of processes that map, store, clone and are released: none sees what
  the others do.
- `VirtAddr`, `KernelSpace` (vmm_init and heap_init): the mapping loops of boot and how they compose.
- `HeapMem`, `HeapSpec`, `HeapBlocks`, `HeapSteps`, `Heap`, `HeapTheorems` (heap.c): the first-fit heap, on the bytes of
  the heap itself. Its free list is proved canonical: a function of the live blocks.
- `Stacks`, `Sched`, `SchedRun` (proc.c, swtch.asm): the round-robin table, and the context switch as pushes and pops
  on stacks that live in the heap's bytes (the idle process's stack lies outside the heap). `Snapshot` and `Do` give
  the meaning that the methods refine, and runs are proved fair and transparent over it.
- `Octal`, `TarFormat`, `TarLoop`, `TarFs` (tar_octal.c, tar_parse.c): the ustar reader, proved to invert a writer of the
  ustar Interchange Format (the pax utility, IEEE Std 1003.1), with open files as handles in the kernel heap. `TarLoop`
  decides on which data the header loop ends.

Conventions: physical addresses stand for their direct-map pointers, so `Pfn` 0 is the null pointer. A panic is a
`false` result from which nothing is claimed. Objects the C code mutates are classes; ghost fields hold their meaning.
64-bit wrap-around is written out where the code can meet it.

Where code and comments or documentation disagree the code is followed:

- Clone comments say kernel mappings are shared; the region test lacks sign extension, so no slot ever is
  (`VmmClone.NoSlotIsShared`), and all present slots are deep-copied.
- Clone keeps only the low 12 flag bits, so the no-execute bit is dropped (`CloneTheorems.CloneDropsNoExecute`).
- Releasing a clone leaves the page of its `pagemap_t`; only the failure path of clone frees it.
- The kernel range reserved at boot is sized from the text section, not from the image base, so the last pages of the
  image are outside it (`PageRun.KernelRangeExact`, `PageRun.LastImageFrameNotReserved`).
- `kmalloc` rounding wraps for sizes of 2^64 - 23 and more (`Heap.RoundedRoom`).
- A size field near 2^64 wraps the pointer of `tarfs_init`: it stays at the header (`TarLoop.StuckHeader`) or steps back,
  and then loops for ever (`TarLoop.TwoHeaderLoop`) or ends all the same (`TarLoop.StepsBackAndEnds`). When the loop
  ends is decided exactly by `TarLoop.EndsExactly`.
- The ustar format allows a space after a number; `oct2bin` then decodes a wrong value (`Octal.OnlyNulTerminates`).
- `tarfs_read` treats a negative buffer size as all that remains (`TarFs.ReadCountSound`).

## Model

| member | source | states |
|---|---|---|
| PhysMem.PhysicalMemory.PmmInit | sys/arch/x86_64/page.c:59-187 | for any memory map, overlapping or unaligned entries included: the clear bits are exactly the frames some usable region wholly covers, less the kernel range as the code computes it, the bitmap and the first megabyte; each usable frame is counted once; used + free = total |
| PhysMem.PhysicalMemory.FindHighest | sys/arch/x86_64/page.c:72-93 | the highest page is that of the highest region end, capped at what the bitmap can hold |
| PhysMem.HighestAddr | sys/arch/x86_64/page.c:72-81 | an upper bound of all region ends that some region attains |
| PhysMem.PhysicalMemory.CountRam | sys/arch/x86_64/page.c:97-126 | after the pass the free set is the union of whole usable frames, and the counter its size, whatever the overlaps |
| PhysMem.PhysicalMemory.ReleaseRange | sys/arch/x86_64/page.c:114-124 | frees exactly a range of frames within the managed ones and counts only those that were not free |
| PhysMem.PhysicalMemory.ReserveRange | sys/arch/x86_64/page.c:141-151 | takes exactly a range of frames out of the free set and uncounts only those that were free |
| PhysMem.PhysicalMemory.ReserveBoot | sys/arch/x86_64/page.c:138-184 | the three reserve loops leave the boot free set |
| PhysMem.BootFreeIsRam | sys/arch/x86_64/page.c:173-184 | no frame below 1 MiB is free after boot, and the boot free set is within RAM |
| PhysMem.PhysicalMemory.SetUsed | sys/arch/x86_64/page.c:30 | setting a bit removes exactly that frame from the free set |
| PhysMem.PhysicalMemory.SetFree | sys/arch/x86_64/page.c:31-32 | clearing a bit adds exactly that frame to the free set |
| PhysMem.SetBitInMap | sys/arch/x86_64/page.c:30 | a byte-wise OR changes exactly one bit of the map |
| PhysMem.ClearBitInMap | sys/arch/x86_64/page.c:31-32 | a byte-wise AND-NOT changes exactly one bit of the map |
| PhysMem.PhysicalMemory.AllocatePage | sys/arch/x86_64/page.c:189-211 | hands out the lowest free frame, all of its words zero and no other frame changed, and 0 exactly if none is free; counters stay balanced |
| PhysMem.PhysicalMemory.FreePage | sys/arch/x86_64/page.c:213-254 | gives back a page address, ignoring null, unaligned and unmanaged ones; a second free changes nothing; counters stay balanced |
| PhysMem.PhysicalMemory.IsPageFree | sys/arch/x86_64/page.c:256-266 | true exactly for managed frames in the free set |
| PhysMem.BitNumber | sys/arch/x86_64/page.c:28-32 | frame i has binary digit i mod 8 of byte i / 8 of the map |
| BootNumbers.RegionExact | sys/arch/x86_64/page.c:106-116 | for a region that does not reach 2^64 the pages the loop frees are those it wholly covers, exactly if it does not begin in the last page below 2^64, where rounding up wraps |
| BootNumbers.TopExact | sys/arch/x86_64/page.c:72-93 | the highest frame is the one of the highest region end, at most 2^23 - 1 |
| BootNumbers.BitmapExact | sys/arch/x86_64/page.c:153-157 | the frames reserved for the bitmap are exactly those that hold a byte of it under the linear image map |
| BootNumbers.KernelExact | sys/arch/x86_64/page.c:130-139 | the frames reserved for the kernel are exactly those that would hold a byte from its text start to its end if the text began at the physical base |
| BootNumbers.BootFreeExact | sys/arch/x86_64/page.c:59-187 | a frame is free after boot exactly if it is managed, wholly within a usable or reclaimable region, not below one mebibyte, and holds no byte of the bitmap or of that kernel range; in plain addresses |
| BootNumbers.BitmapNeverHandedOut | sys/arch/x86_64/page.c:153-211 | in no run of takes, writes and returns is a page handed out that holds a byte of the bitmap |
| BootNumbers.OnlyUsableHandedOut | sys/arch/x86_64/page.c:97-211 | every page handed out in any run is wholly within a usable or reclaimable region and above one mebibyte |
| PageRun.HandedOutZero | sys/arch/x86_64/page.c:200-205 | in every run, with clients writing to their pages, a page reads zero in all 512 words when it is handed out, and no other page changes |
| PageRun.ServeConserves | sys/arch/x86_64/page.c:189-254 | taking and giving back keeps free and held pages apart and their union fixed |
| PageRun.NextPage | sys/arch/x86_64/page.c:189-254 | in every reachable state the next page is the lowest boot-free page nobody holds, and there is none exactly if clients hold them all |
| PageRun.NeverReserved | sys/arch/x86_64/page.c:138-211 | from boot on no page handed out is below 1 MiB, in the bitmap, in the reserved kernel range, or outside RAM |
| PageRun.KernelRangeExact | sys/arch/x86_64/page.c:130-139 | for a page-aligned image the reserved kernel range ends short of the image by the pages before the text section, so it covers the image exactly if the image begins with its text |
| PageRun.LastImageFrameNotReserved | sys/arch/x86_64/conf/kern.ld:17-27 | with a page of boot requests before the text section, as the linker script lays it out, the last image frame is outside that range: only the memory map, the bitmap or the first megabyte keep it from being free |
| Pte.EntryFrame | include/x86_64/vmm/vmm_map.h:36-37 | the frame read back from an entry is the frame it was made from |
| Pte.EntryFlags | include/x86_64/vmm/vmm_map.h:36-38 | so are the flags and the present bit |
| Mmu.FrameNumber | include/x86_64/vmm/vmm_map.h:36-37 | the frame read from an entry is the number in its bits 12 to 51 |
| Mmu.WalkByNumbers | sys/arch/x86_64/vmm/vmm_map.c:183-203 | the walk by index paths finds the word that four steps on plain numbers find: entry v / 2^39 mod 512 of the root, then v / 2^30, v / 2^21 and v / 2^12, each through a present entry |
| PageTree.SlotUpdate | sys/arch/x86_64/vmm/vmm_map.c:64-65 | replacing what hangs in one slot of a table, by something apart from the rest, keeps the tree and changes its footprint by exactly that |
| VmmSpec.NextLevelCases | sys/arch/x86_64/vmm/vmm_map.c:32-68 | one step down returns the existing table, links a fresh zeroed one, or fails only if no page is free, changing nothing |
| VmmSpec.PlantGrows | sys/arch/x86_64/vmm/vmm_map.c:70-106 | mapping, successful or not, grows the tree of owned tables by exactly the pages it took and changes no other frame |
| VmmSpec.PlantWalk | sys/arch/x86_64/vmm/vmm_map.c:70-106 | afterwards the mapped page leads to the new entry, if the map succeeded, and every other page where it did |
| VmmSpec.PlantOutcome | sys/arch/x86_64/vmm/vmm_map.c:86-106 | a map succeeds exactly if the missing tables fit in free memory, and then takes just those; a failed one exhausts memory |
| VmmSpec.PlantNoEmpty | sys/arch/x86_64/vmm/vmm_map.c:70-100 | a successful map leaves no empty table |
| VmmSpec.PruneShrinks | sys/arch/x86_64/vmm/vmm_map.c:150-175 | unmapping shrinks the tree by exactly the tables it frees, none of them still linked |
| VmmSpec.PruneWalk | sys/arch/x86_64/vmm/vmm_map.c:150-175 | afterwards the page is unmapped and every other page is as it was |
| VmmSpec.PruneNoEmpty | sys/arch/x86_64/vmm/vmm_map.c:150-175 | bottom-up reclaiming leaves no empty table |
| VmmSpec.PlantPrune | sys/arch/x86_64/vmm/vmm_map.c:70-178 | mapping an unmapped page and unmapping it restores the free set and every frame that was in use |
| VmmMap.PathIsPage | sys/arch/x86_64/vmm/vmm_map.c:77-80 | two addresses take the same four indices exactly if they agree on bits 12 to 47 |
| VmmMap.LeafAddress | sys/arch/x86_64/vmm/vmm_map.c:97 | a leaf entry for an address below 2^52, with flags outside the address bits, points to that address |
| VmmMap.PathIndices | sys/arch/x86_64/vmm/vmm_map.c:77-80 | the four indices are v / 2^39, v / 2^30, v / 2^21 and v / 2^12, each mod 512, in that order from the root |
| VmmMap.LeafNumber | sys/arch/x86_64/vmm/vmm_map.c:97 | as a number the leaf entry is the page address plus the flags, plus one if they lack the present bit |
| VmmNumbers.MapLooksUp | sys/arch/x86_64/vmm/vmm_map.c:70-98 | after a successful map the processor finds, at every address of the page, the physical page with the flags of the caller and the present bit; everywhere else, and after a failure, what it found before |
| VmmNumbers.MapKeepsFlags | sys/arch/x86_64/vmm/vmm_map.c:97 | the flags of the entry reached at the mapped address are those of the caller and the present bit, no others |
| VmmNumbers.LeafBits | sys/arch/x86_64/vmm/vmm_map.c:97 | so the page is writable, open to the user and not executable exactly as the flags say |
| VmmNumbers.NextLevelEntry | sys/arch/x86_64/vmm/vmm_map.c:60-65 | a new table is linked by its address plus the flags given, or as present and writable if none are |
| VmmNumbers.MapMakesTables | sys/arch/x86_64/vmm/vmm_map.c:82-93 | on its way a map keeps every present table entry; those it makes are present, writable, and open to the user exactly if the flags are |
| VmmNumbers.UnmapLooksUp | sys/arch/x86_64/vmm/vmm_map.c:108-178 | unmapping succeeds exactly for page-aligned addresses, mapped or not; then the processor faults in that page and finds elsewhere what it found before |
| VmmNumbers.RunLooksUp | sys/arch/x86_64/vmm/vmm_map.c:70-178 | after any run over any pagemaps the processor finds at each address what the last successful operation on its page left: the frame and the flags last given, or nothing |
| VmmNumbers.EmptyLooksUp | sys/arch/x86_64/vmm/vmm_map.c:250-260 | through a zeroed root it finds nothing |
| VmmMap.LeafFrame | sys/arch/x86_64/vmm/vmm_map.c:97 | the leaf entry for a frame points to that frame |
| VmmMap.IsTableEmpty | sys/arch/x86_64/vmm/vmm_map.c:19-30 | true exactly for a zero table |
| VmmMap.GetNextLevel | sys/arch/x86_64/vmm/vmm_map.c:32-68 | refines one step down of the specification |
| VmmMap.MapPage | sys/arch/x86_64/vmm/vmm_map.c:70-106 | refines the specification of mapping: new memory, free pages and result |
| VmmMap.DownIsNextLevel | sys/arch/x86_64/vmm/vmm_map.c:36-46 | a step down without allocation follows a present entry or finds nothing, and changes nothing |
| VmmMap.FindTables | sys/arch/x86_64/vmm/vmm_map.c:123-143 | finds the three tables below the root exactly if each step finds its entry present, or shows the page unmapped; nothing changes |
| VmmMap.ReclaimIfEmpty | sys/arch/x86_64/vmm/vmm_map.c:154-159 | frees a table and clears its slot exactly if it is empty |
| VmmMap.ClearAndReclaim | sys/arch/x86_64/vmm/vmm_map.c:150-175 | refines bottom-up pruning |
| VmmMap.UnmapPage | sys/arch/x86_64/vmm/vmm_map.c:108-178 | refines the specification of unmapping, with the unaligned and unmapped cases |
| VmmMap.VirtToPhys | sys/arch/x86_64/vmm/vmm_map.c:180-218 | returns the translation of the processor on plain numbers: the frame in the last entry that the four indices lead to, from the root down, plus v mod 4096; all ones if any step is absent |
| VmmRun.ExecConfined | sys/arch/x86_64/vmm/vmm_map.c:70-178 | an operation exchanges tables with free pages only and touches no frame outside both |
| VmmRun.StepConsistent | sys/arch/x86_64/vmm/vmm_map.c:70-178 | one operation on one of several pagemaps keeps all of them disjoint trees of used tables refining their maps, changes that one as intended, and loses no page |
| VmmRun.RunConsistent | sys/arch/x86_64/vmm/vmm_map.c:70-178 | the same over any run of maps and unmaps over any pagemaps; runs with clones, releases and other clients of the allocator are those of VmmWorld.EveryWorldFine |
| VmmRun.RunTranslates | sys/arch/x86_64/vmm/vmm_map.c:180-218 | after any run every address translates to the frame last mapped for its page plus offset, or to all ones |
| VmmRun.StepTrim | sys/arch/x86_64/vmm/vmm_map.c:19-178 | an operation other than a failed map leaves no empty table in any pagemap |
| VmmRun.RunTrim | sys/arch/x86_64/vmm/vmm_map.c:19-178 | in any run without a failed map no table below a root is ever left empty |
| VmmRun.EmptySpace | sys/arch/x86_64/vmm/vmm_map.c:250-260 | a zeroed allocated root is a consistent empty pagemap |
| VmmRun.MapThenUnmap | sys/arch/x86_64/vmm/vmm_map.c:70-178 | mapping then unmapping an unmapped page restores translation, free pages and memory |
| VmmCount.KeysCount | sys/arch/x86_64/vmm/vmm_map.c:32-68 | tables are as many as the index sequences that lead to them |
| VmmCount.KeysArePrefixes | sys/arch/x86_64/vmm/vmm_map.c:150-175 | without empty tables those sequences are exactly the index prefixes of mapped pages |
| VmmCount.TableCount | sys/arch/x86_64/vmm/vmm_map.c:77-175 | table pages number one plus the distinct PML4, PDPT and PD prefixes of mapped pages |
| TableNumbers.TablesNumbered | sys/arch/x86_64/vmm/vmm_map.c:77-175 | table pages number one, plus the distinct values of v / 2^39, of v / 2^30 and of v / 2^21 over the mapped addresses v |
| VmmClone.NoSlotIsShared | sys/arch/x86_64/vmm/vmm_clone.c:150-156 | with a higher-half direct map the unextended region base of every slot lies below it, so the share and skip branches are never taken |
| VmmClone.RegionNumber | sys/arch/x86_64/vmm/vmm_clone.c:55-57 | slot i is taken to begin at i times 2^39, for kernel slots too |
| VmmClone.Fill | sys/arch/x86_64/vmm/vmm_clone.c:221-228 | afterwards the frame holds the source page, or zeros for a table; the slot decodes to that frame with exactly the low 12 flag bits of the source entry; every other slot and frame is unchanged |
| VmmClone.HangCopy | sys/arch/x86_64/vmm/vmm_clone.c:217-228 | allocates, fills and links one frame, or fails exactly if memory is exhausted |
| CloneSpec.CopiedEntry | sys/arch/x86_64/vmm/vmm_clone.c:168-169 | the copied entry is present and points to the new frame |
| CloneSpec.TakeSlot | sys/arch/x86_64/vmm/vmm_clone.c:144-232 | copying one more slot extends the partial copy, or proves that memory cannot hold the rest |
| CloneSpec.ReleaseSlot | sys/arch/x86_64/vmm/vmm_clone.c:45-103 | releasing one more slot frees exactly its subtree, once |
| VmmClone.CopyTable | sys/arch/x86_64/vmm/vmm_clone.c:144-232 | the nested loops, one level a call: a finished deep copy with an exact page count, or exhausted memory |
| VmmClone.CopySlot | sys/arch/x86_64/vmm/vmm_clone.c:146-169 | one turn of such a loop at a slot in use |
| VmmClone.ReleaseTable | sys/arch/x86_64/vmm/vmm_clone.c:45-103 | the nested release loops: everything below a table is freed, once, all its tables read zero, and nothing else changes |
| VmmClone.ReleaseEntry | sys/arch/x86_64/vmm/vmm_clone.c:79-103 | one turn of such a loop: the subtree is freed and the slot cleared |
| VmmClone.FreePagemapClone | sys/arch/x86_64/vmm/vmm_clone.c:36-107 | frees all tables and frames of a clone, clears its tables, and leaves the pagemap_t page and the contents of every other frame |
| VmmClone.NewPagemap | sys/arch/x86_64/vmm/vmm_clone.c:119-140 | a pagemap_t and an empty PML4, or neither |
| VmmClone.ClonePagemap | sys/arch/x86_64/vmm/vmm_clone.c:111-242 | succeeds exactly if 2 + (present upper entries) + (present leaves) pages are free, and then takes just those for a deep copy disjoint from everything in use; a failure restores memory, free set and both counters |
| VmmClone.CloneSucceeds | sys/arch/x86_64/vmm/vmm_clone.c:140-234 | a finished copy is a clone, with its exact page count |
| VmmClone.RollbackRestores | sys/arch/x86_64/vmm/vmm_clone.c:236-241 | rollback from any point gives back exactly what was taken |
| VmmClone.BalanceUnique | sys/arch/x86_64/page.c:196-198 | balanced counters are determined by the number of free pages |
| CloneTheorems.CopyWalk | sys/arch/x86_64/vmm/vmm_clone.c:144-232 | a copy translates every path its source does, with the low 12 flag bits and equal contents, and no other |
| CloneTheorems.LeafOwned | sys/arch/x86_64/vmm/vmm_clone.c:217-228 | a mapped frame of an owned tree belongs to it and is none of its tables |
| CloneTheorems.LeavesDistinct | sys/arch/x86_64/vmm/vmm_clone.c:217-228 | two pages of such a tree never share a frame |
| CloneTheorems.CloneIsDeepCopy | sys/arch/x86_64/vmm/vmm_clone.c:111-234 | child and source translate the same addresses; each child leaf has the low 12 bits, a fresh frame of its own and the same contents; the source is unchanged |
| CloneNumbers.CloneLooksUp | sys/arch/x86_64/vmm/vmm_clone.c:111-234 | at every address the processor finds a page through the clone exactly if it does through the source: a frame that was free, equal contents, and as flags the twelve lowest bits of the source entry; what it finds through the source does not change |
| CloneNumbers.ClonePermissions | sys/arch/x86_64/vmm/vmm_clone.c:227-228 | so it is writable and open to the user exactly if the source is, and never forbids execution |
| CloneTheorems.CloneFramesDistinct | sys/arch/x86_64/vmm/vmm_clone.c:209-229 | different pages of a clone have different frames |
| CloneTheorems.CloneThenFree | sys/arch/x86_64/vmm/vmm_clone.c:36-107 | freeing a clone returns every page it took except the pagemap_t page |
| CloneTheorems.CloneDropsNoExecute | sys/arch/x86_64/vmm/vmm_clone.c:227-228 | a cloned leaf keeps its flags exactly if the source leaf has none above the low 12; it is writable and executable exactly if the source leaf is writable |
| VmmWorld.StepFine | sys/arch/x86_64/vmm/vmm_clone.c:36-242 | one event - a map or unmap in any pagemap, a page taken, given back or written by a client, a clone or its rollback, a release - keeps every live pagemap a tree of its own used tables refining its map, keeps free pages, tables and client pages apart, and loses no page |
| VmmWorld.EveryWorldFine | sys/arch/x86_64/vmm/vmm_clone.c:36-242 | the same in every world reachable by any run of such events, over a set of pagemaps that grows and shrinks |
| VmmWorld.ChildRefines | sys/arch/x86_64/vmm/vmm_clone.c:144-232 | a clone refines the map of its source through its own leaf entries |
| VmmWorld.CloneFine | sys/arch/x86_64/vmm/vmm_clone.c:111-234 | a clone joins the live pagemaps, its leaves and its pagemap_t become client pages |
| VmmWorld.ReleaseFine | sys/arch/x86_64/vmm/vmm_clone.c:36-107 | a release takes the clone and its leaves out and leaves all other pagemaps as they were |
| VmmWorld.CopyNoEmpty | sys/arch/x86_64/vmm/vmm_clone.c:144-232 | a copy of a tree without empty tables has none |
| VmmWorld.StepStaysTrim | sys/arch/x86_64/vmm/vmm_clone.c:36-242 | an event other than a failed map leaves no empty table in any live pagemap, clones included |
| VmmWorld.EveryWorldTrim | sys/arch/x86_64/vmm/vmm_clone.c:36-242 | nor does any run of such events with clones, releases and other clients |
| VmmWorld.EveryPagemapCounted | sys/arch/x86_64/vmm/vmm_clone.c:36-242 | so in every world such a run reaches the table pages of every live pagemap number one plus the distinct index prefixes of its mapped pages |
| TableNumbers.EveryPagemapNumbered | sys/arch/x86_64/vmm/vmm_clone.c:36-242 | so the tables of every live pagemap in such a world are counted by the regions of 2^39, 2^30 and 2^21 bytes in which it maps something |
| VmmWorld.FirstWorld | sys/arch/x86_64/vmm/vmm_map.c:250-260 | one empty pagemap on a zeroed page is a world to start from |
| VmmIsolation.AllocateSpares | sys/arch/x86_64/page.c:189-211 | allocating a page takes it out of the stock of one pagemap and leaves frames apart from it alone |
| VmmIsolation.FreshIsZero | sys/arch/x86_64/page.c:200-205 | allocating a page and mapping it succeeds exactly if free memory holds the page and the missing tables, and then the page at that address reads zero in all its words |
| VmmIsolation.StepIsolated | sys/arch/x86_64/vmm/vmm_map.c:70-178 | a map, unmap, store, or allocation of a page to map, through one pagemap cannot reach a set of frames apart from it |
| VmmIsolation.ReachIs | sys/arch/x86_64/vmm/vmm_map.c:180-218 | what a pagemap reaches is a table of its or the frame of some mapped page |
| VmmIsolation.IsolatedIsSource | sys/arch/x86_64/vmm/vmm_clone.c:142-217 | an isolated pagemap can be cloned: all it reaches is in use |
| VmmIsolation.EmptyIsolated | sys/arch/x86_64/vmm/vmm_map.c:250-260 | an empty pagemap is isolated |
| VmmIsolation.StepKeepsApart | sys/arch/x86_64/vmm/vmm_map.c:70-178 | a step of one of two pagemaps that are apart keeps them apart, and the other sees nothing of it |
| VmmIsolation.Interleaved | sys/arch/x86_64/vmm/vmm_map.c:70-178 | so it is at every step of every interleaving of two processes |
| VmmIsolation.CloneApart | sys/arch/x86_64/vmm/vmm_clone.c:140-234 | a clone and its source are apart |
| VmmIsolation.CloneInterleaved | sys/arch/x86_64/vmm/vmm_clone.c:140-234 | however parent and child interleave after a clone, mapping newly allocated pages included, no step of one changes what the other translates or holds |
| VmmIsolation.RunIsolated | sys/arch/x86_64/vmm/vmm_map.c:70-178 | nor can any run of them, each access judged in the state it meets |
| VmmIsolation.ChildRunKeepsSource | sys/arch/x86_64/vmm/vmm_clone.c:140-234 | after a clone no run through the child changes what the source translates or holds |
| VmmIsolation.SourceRunKeepsChild | sys/arch/x86_64/vmm/vmm_clone.c:140-234 | and no run through the source changes what the child translates or holds |
| VmmProcesses.StepSecure | sys/arch/x86_64/vmm/vmm_clone.c:36-242 | an access of one process, a page the kernel takes, gives back or writes, a clone or its rollback, a release: each keeps all processes and the kernel apart and changes nothing that any other process sees |
| VmmProcesses.RunSecure | sys/arch/x86_64/vmm/vmm_map.c:70-178 | a map, unmap, allocation or store of one among any number of processes keeps all of them apart |
| VmmProcesses.CloneSecure | sys/arch/x86_64/vmm/vmm_clone.c:111-234 | a clone of any live process, made while others live, reaches nothing that they or the kernel hold |
| VmmProcesses.ReleaseSecure | sys/arch/x86_64/vmm/vmm_clone.c:36-107 | releasing a clone touches no other process |
| VmmProcesses.EveryStateSecure | sys/arch/x86_64/vmm/vmm_clone.c:36-242 | in every state of every run of such events no frame is reached by two processes, or by a process and the kernel |
| VmmProcesses.FoundAsLeft | sys/arch/x86_64/vmm/vmm_clone.c:36-242 | between two steps of its own a process finds every translation and every word of its pages as it left them, whatever the others did meanwhile |
| VmmProcesses.FirstUse | sys/arch/x86_64/page.c:200-205 | what a process finds in a page it has just had allocated and mapped is zero: it learns nothing of what the frame held before |
| VmmProcesses.FirstSystem | sys/arch/x86_64/vmm/vmm_map.c:250-260 | one empty process on a zeroed page is a state to start from |
| VirtAddr.VirtIsCanonical | sys/arch/x86_64/vmm/vmm_map.c:276-279 | the sign-extended word of a page number is the canonical address |
| VirtAddr.PathsDiffer | sys/arch/x86_64/vmm/vmm_map.c:77-80 | different pages take different paths |
| KernelSpace.MapImage | sys/arch/x86_64/vmm/vmm_map.c:276-302 | every page of the image is mapped as planned, section by section |
| KernelSpace.MapDirect | sys/arch/x86_64/vmm/vmm_map.c:317-324 | every whole page of a region is mapped at its direct-map address |
| KernelSpace.MapIdentity | sys/arch/x86_64/vmm/vmm_map.c:326-339 | the pages below 1 MiB are mapped to themselves as well, and nothing planned is lost |
| KernelSpace.MapRegion | sys/arch/x86_64/vmm/vmm_map.c:304-340 | one memory-map entry, with the empty case |
| KernelSpace.VmmInit | sys/arch/x86_64/vmm/vmm_map.c:235-342 | on normal return the pagemap is a consistent tree whose every mapping is a planned one, and the image and all regions are mapped |
| KernelSpace.HeapInit | sys/arch/x86_64/heap.c:46-59 | on normal return 256 further pages are backed by distinct frames, all else as before |
| KernelSpace.AddHeapPage | sys/arch/x86_64/heap.c:46-59 | one turn of that loop |
| KernelSpace.TakePage | sys/arch/x86_64/heap.c:48-52 | allocating a page leaves a pagemap as it is |
| KernelSpace.DirectMapTranslates | sys/arch/x86_64/vmm/vmm_map.c:304-324 | after boot every address in a whole memory-map page p translates from p + HHDM to p |
| KernelSpace.ImageTranslates | sys/arch/x86_64/vmm/vmm_map.c:276-302 | the kernel image keeps its linear translation |
| KernelSpace.HeapTranslates | sys/arch/x86_64/heap.c:46-59 | the 256 heap pages translate to 256 distinct frames, none free and none a table |
| KernelSpace.HeapBytesApart | sys/arch/x86_64/heap.c:43-59 | each byte of the heap the allocator works on has a byte of physical memory of its own |
| KernelSpace.NothingWritableExecutable | sys/arch/x86_64/vmm/vmm_map.c:280-296 | after boot no translation at all is both writable and executable |
| KernelNumbers.ImageFound | sys/arch/x86_64/vmm/vmm_map.c:273-302 | every address of the image translates linearly; the entry of a text page is present, executable and not writable, of a read-only data page neither, of any other page writable and not executable; in plain numbers |
| KernelNumbers.DirectFound | sys/arch/x86_64/vmm/vmm_map.c:304-324 | every address of a page wholly within a region is found at 0xffff800000000000 plus it, writable and not executable |
| KernelNumbers.IdentityFound | sys/arch/x86_64/vmm/vmm_map.c:326-339 | below one mebibyte it is found at itself as well |
| KernelNumbers.HeapFound | sys/arch/x86_64/heap.c:46-59 | every address of the first mebibyte of the heap is found in a frame of its page alone, not free, writable and not executable |
| KernelNumbers.OnlyPlannedFound | sys/arch/x86_64/vmm/vmm_map.c:262-340 | a canonical address that is found lies in the direct map, the heap, the first mebibyte or the image, with just that frame and those flags |
| HeapMem.WordBytes | sys/arch/x86_64/heap.c:89-101 | a word of the heap is its eight bytes, the least significant first |
| HeapSpec.LinkInLinks | sys/arch/x86_64/heap.c:160-172 | writing a node and the pointer before it makes memory hold the longer list |
| HeapSpec.MergeInLinks | sys/arch/x86_64/heap.c:174-186 | absorbing the next node makes memory hold the merged list |
| HeapSpec.CloseLinks | sys/arch/x86_64/heap.c:105-115 | redirecting one pointer makes memory hold the list without the node |
| HeapBlocks.Canonical | sys/arch/x86_64/heap.c:151-186 | two gapped lists that cover the same bytes are equal |
| HeapBlocks.FreeListDetermined | sys/arch/x86_64/heap.c:151-186 | the free list is a function of the live blocks |
| HeapBlocks.RunInBlock | sys/arch/x86_64/heap.c:174-186 | any contiguous run of free bytes lies within one free block |
| HeapBlocks.FirstFitIsLowest | sys/arch/x86_64/heap.c:83-85 | the first block that fits starts the lowest run of that many free bytes |
| HeapBlocks.NoFit | sys/arch/x86_64/heap.c:83-129 | if no block fits there is no such run anywhere |
| HeapBlocks.TakenPartition | sys/arch/x86_64/heap.c:87-115 | cutting or unlinking a block keeps heap bytes partitioned into free and live |
| HeapBlocks.FreedPartition | sys/arch/x86_64/heap.c:160-186 | two-sided coalescing keeps the partition and leaves no adjacent free blocks |
| HeapSteps.GrantStep | sys/arch/x86_64/heap.c:87-122 | the writes of an allocation lead from a valid heap to a valid heap with the lowest fitting run granted |
| HeapSteps.FreeStep | sys/arch/x86_64/heap.c:160-186 | the writes of a free lead from a valid heap to a valid heap without the block |
| HeapSteps.PayloadWrite | sys/arch/x86_64/heap.c:200 | writing in one payload keeps the heap structure and the bytes of every other live block |
| Heap.RoundedRoom | sys/arch/x86_64/heap.c:74-78 | the block size holds header and request exactly if size + 23 < 2^64; otherwise rounding wraps to the minimum |
| Heap.ProductFits | sys/arch/x86_64/heap.c:192-196 | the division test rejects exactly the products that overflow |
| Heap.KernelHeap.constructor | sys/arch/x86_64/heap.c:43-63 | one free block of the whole heap |
| Heap.KernelHeap.TakeBlock | sys/arch/x86_64/heap.c:87-118 | memory holds the list with the block cut or gone, writing only free bytes |
| Heap.KernelHeap.Split | sys/arch/x86_64/heap.c:89-104 | the remainder takes the place of the block in the list |
| Heap.KernelHeap.Unlink | sys/arch/x86_64/heap.c:105-115 | the block is gone from the list |
| Heap.KernelHeap.Kmalloc | sys/arch/x86_64/heap.c:67-130 | NULL exactly if no run of rounded-size free bytes exists; otherwise the lowest such run becomes live; no live byte changes |
| Heap.KernelHeap.Hook | sys/arch/x86_64/heap.c:160-172 | the freed node is linked at its address-ordered place |
| Heap.KernelHeap.JoinNext | sys/arch/x86_64/heap.c:174-180 | merged with the next node exactly if they touch |
| Heap.KernelHeap.JoinPrev | sys/arch/x86_64/heap.c:182-186 | merged with the previous node exactly if they touch |
| Heap.KernelHeap.Relink | sys/arch/x86_64/heap.c:160-186 | the list after a free: ordered, gapped, covering the freed bytes |
| Heap.KernelHeap.Kfree | sys/arch/x86_64/heap.c:133-187 | never trips the corruption check on a live pointer, removes that block, changes no byte of the others |
| Heap.KernelHeap.Fill | sys/arch/x86_64/heap.c:200 | memset and memcpy within a payload |
| Heap.KernelHeap.Kcalloc | sys/arch/x86_64/heap.c:190-203 | NULL on overflow or lack of room; otherwise a granted block, whose num * size bytes are all zero if num * size + 23 < 2^64 |
| Heap.KernelHeap.Krealloc | sys/arch/x86_64/heap.c:206-232 | keeps, moves with the whole old payload, or fails and leaves the old block intact |
| HeapTheorems.SameLiveSameList | sys/arch/x86_64/heap.c:66-187 | heaps with the same live blocks have the same list, node for node |
| HeapTheorems.FreesCommute | sys/arch/x86_64/heap.c:133-187 | a client of two heaps with the same live blocks that frees two of them in opposite orders ends with equal lists, heads and live blocks |
| HeapTheorems.FreeUndoesMalloc | sys/arch/x86_64/heap.c:66-187 | a heap whose live blocks are those after a grant, less the granted one, has the list and head from before the grant |
| HeapTheorems.MallocThenFree | sys/arch/x86_64/heap.c:66-187 | a client that allocates a block and frees it ends with the free list, its head and the live blocks it had |
| HeapTheorems.AllFreed | sys/arch/x86_64/heap.c:133-187 | freeing everything leaves one block of the heap size |
| HeapTheorems.ExactlyOneBlock | sys/arch/x86_64/heap.c:66-232 | every heap byte is in exactly one block, free or live |
| Stacks.Stored | sys/kern/proc.c:158-159 | a store changes the word it names and no word apart from it |
| Stacks.FrameKept | sys/arch/x86_64/swtch.asm:25-39 | work on one stack keeps a saved context on another |
| Stacks.StackFrameKept | sys/arch/x86_64/heap.c:67-187 | heap calls keep a saved context on a live stack |
| Stacks.StackGranted | sys/kern/proc.c:155-156 | a granted block is a new stack apart from all others |
| Sched.FindNext | sys/kern/proc.c:115-120 | terminates at the first READY entry in cyclic order, or back at the current one |
| Sched.NextIsAfter | sys/kern/proc.c:115-120 | when all others are READY that is the next entry |
| Sched.FramesSwitched | sys/arch/x86_64/swtch.asm:25-42 | after a switch every process that is not running has its context saved on its stack |
| Sched.FramesAdded | sys/kern/proc.c:158-192 | so it is after a creation |
| Sched.Kernel.constructor | sys/kern/proc.c:233-249 | the idle process runs, alone |
| Sched.Kernel.SaveContext | sys/arch/x86_64/swtch.asm:25-39 | fifteen registers and the return address make a frame below the stack pointer; no other stack changes |
| Sched.Kernel.LoadContext | sys/arch/x86_64/swtch.asm:44-62 | popping in the opposite order gives back exactly the saved context |
| Sched.Kernel.ProcSwitch | sys/arch/x86_64/swtch.asm:24-62 | saves the old context, records its stack pointer, and becomes the new context |
| Sched.Kernel.FindCurrent | sys/kern/proc.c:105-113 | the index of the table entry that the current pointer points to, -1 if it points to none |
| Sched.Kernel.Schedule | sys/kern/proc.c:103-138 | keeps the invariant (one RUNNING process, the current one) and acts as one round-robin turn |
| Sched.Kernel.Switch | sys/kern/proc.c:127-137 | the old process is READY with its context saved, the new one RUNNING with the context it had saved |
| Sched.Kernel.ProcCreate | sys/kern/proc.c:142-193 | a full table changes nothing; otherwise one more READY process, to start at its entry with all registers zero, on a new stack |
| Sched.Kernel.AddProc | sys/kern/proc.c:151-192 | the part of that after the stack is allocated |
| Sched.Kernel.PutFrame | sys/kern/proc.c:158-190 | entry point and fifteen zeros are a saved context |
| Sched.Kernel.NewStack | sys/kern/proc.c:155 | the allocated stack lies apart from all others and keeps what they hold |
| Sched.Kernel.Compute | sys/kern/proc.c:83-90 | a process that writes its own stack and registers keeps the invariant |
| Sched.Kernel.Allocate | sys/arch/x86_64/heap.c:67-130 | so does one that allocates |
| Sched.Kernel.Release | sys/arch/x86_64/heap.c:133-187 | or frees a block that is nobody's stack |
| SchedRun.TurnComes | sys/kern/proc.c:103-138 | process j runs within its distance in turns, whatever is created meanwhile |
| SchedRun.Fairness | sys/kern/proc.c:103-193 | in any run with creations interleaved every process runs within 99 calls of schedule |
| SchedRun.Parked | sys/arch/x86_64/swtch.asm:24-62 | what a process saved is untouched while it is away and is what it gets back |
| SchedRun.SwitchIsTransparent | sys/arch/x86_64/swtch.asm:24-62 | a process that runs again has exactly the registers, stack pointer and place it was switched out with |
| SchedRun.StartsAtEntry | sys/kern/proc.c:142-193 | a new process first runs with the context it was created with |
| Octal.Oct2Bin | sys/fs/tar/tar_octal.c:20-29 | the loop computes the specified decoding, signed characters and 64-bit wrap-around included |
| Octal.DecodeDigits | sys/fs/tar/tar_octal.c:20-29 | decoding octal digits adds their positional value |
| Octal.DecodeInverts | sys/fs/tar/tar_octal.c:20-29 | octal digits up to a NUL decode to the number they write |
| Octal.OnlyNulTerminates | sys/fs/tar/tar_octal.c:20-29 | for a number of one to eleven digits, filled up to the end of the field with NULs and spaces, the result is the number exactly if the byte after the digits is NUL; after spaces it is the stated wrong value |
| TarFormat.CopyName | sys/fs/tar/tar_parse.c:92-106 | the name up to its NUL, at most 99 bytes, and the type |
| TarFormat.TarfsInit | sys/fs/tar/tar_parse.c:77-114 | terminates and indexes exactly the first 64 files met, for every archive on which the loop ends without looking outside the data |
| TarFormat.EndsOnce | sys/fs/tar/tar_parse.c:82-113 | the loop ends after one number of headers only |
| TarLoop.AdvanceExact | sys/fs/tar/tar_parse.c:111-112 | the advance is header plus contents in whole blocks exactly for sizes up to 2^64 - 1024, and zero exactly for sizes from 2^64 - 1023 to 2^64 - 512 |
| TarLoop.EndsExactly | sys/fs/tar/tar_parse.c:82-113 | the loop, its pointer a 64-bit word that can move back, ends without looking outside the data exactly if it does so within as many headers as the data has blocks of 512 bytes, which a caller can check |
| TarLoop.RoundsBounded | sys/fs/tar/tar_parse.c:82-113 | when it ends, it has met fewer headers than the data has blocks, whichever way it moved |
| TarLoop.NeverEnds | sys/fs/tar/tar_parse.c:111-112 | a header whose advance leads back to it is met again for ever |
| TarLoop.StuckHeader | sys/fs/tar/tar_parse.c:87-112 | a size field of /000 and NULs decodes to 2^64 - 512 and makes the loop stay at its header for ever |
| TarLoop.BackField | sys/fs/tar/tar_parse.c:87-112 | a size field of .000 and NULs leads back to the block before its header |
| TarLoop.TwoHeaderLoop | sys/fs/tar/tar_parse.c:82-113 | an empty file and then a header that leads back to it are met in turn for ever, though no advance is zero |
| TarLoop.StepsBackAndEnds | sys/fs/tar/tar_parse.c:82-113 | and a loop that steps back into the data may end there, after two headers |
| TarFormat.HeaderRead | sys/fs/tar/tar_parse.c:84-112 | a ustar header is read as what was written in it, and the advance is to the next header |
| TarFormat.ReaderInvertsWriter | sys/fs/tar/tar_parse.c:77-114 | on every archive the loop ends, and it is indexed file by file with right name, type, size and place of contents |
| TarFormat.WrittenIsArchive | sys/fs/tar/tar_parse.c:29-48 | what the writer produces is an archive |
| TarFormat.WriteThenRead | sys/fs/tar/tar_parse.c:77-114 | the round trip for any list of files |
| TarFs.FirstNamed | sys/fs/tar/tar_parse.c:121-129 | the first entry of a name, and none before it |
| TarFs.ReadCountSound | sys/fs/tar/tar_parse.c:144-146 | the count lies within what remains exactly if the buffer size is not negative or the remainder fits an int; for non-negative sizes it is the minimum |
| TarFs.TarFileSystem.constructor | sys/fs/tar/tar_parse.c:77-114 | the index of an archive on which the loop ends |
| TarFs.TarFileSystem.Lookup | sys/fs/tar/tar_parse.c:121-129 | finds the first entry of that name |
| TarFs.TarFileSystem.Find | sys/fs/tar/tar_parse.c:119-131 | address and size of the first file of that name, NULL if there is none |
| TarFs.TarFileSystem.Open | sys/fs/tar/tar_parse.c:156-180 | NULL exactly if there is no such file, it is a directory, or the heap has no room; otherwise a handle at offset 0 |
| TarFs.TarFileSystem.NewHandle | sys/fs/tar/tar_parse.c:167-175 | the handle is in a fresh heap block and other handles are kept |
| TarFs.TarFileSystem.Read | sys/fs/tar/tar_parse.c:135-152 | the next bytes are at the start of the buffer, the rest of it unchanged, and the handle has advanced by as much |
| TarFs.TarFileSystem.CopyOut | sys/fs/tar/tar_parse.c:148 | copies a range, in place |
| TarFs.TarFileSystem.Close | sys/fs/tar/tar_parse.c:183-190 | frees exactly that handle |
| TarFs.TarFileSystem.OpenThenClose | sys/fs/tar/tar_parse.c:156-190 | leaves free list, live blocks and open files as they were |
| TarFs.TarFileSystem.ReadAll | sys/fs/tar/tar_parse.c:135-152 | a client that reads once for each of any sequence of buffer sizes gets the next part of the contents, up to their sum or the end, and the handle is there |
| TarFs.TarFileSystem.ReadNext | sys/fs/tar/tar_parse.c:135-152 | one of those reads, with its own buffer |
| TarFs.TarFileSystem.ReadArchived | sys/fs/tar/tar_parse.c:77-152 | reading a file of an archive to its end gives what was archived |

## Left out

- Hardware effects: `invlpg`, CR3 loads, the TLB, `cli`, `sti`, `hlt` and port access are no-ops and do not appear.
- The huge-page bit and effective user permission: an existing intermediate table is not upgraded to user access, so
  flag claims are about leaf entries only.
- VmmClone.ClonePagemap: requires a direct map in the higher half, where the share branch is dead, and a source whose
  tables and mapped frames are in use; null pagemap arguments and null `top_level` pointers are not part of this model.
- VmmClone.FreePagemapClone: requires the same of the direct map, where the skip branch is dead, and a tree that owns its
  tables and frames, as a clone is; null arguments are not part of this model.
- VmmClone.ReleaseTable: likewise a tree that owns its tables and frames, none of them twice.
- VmmIsolation.ChildRunKeepsSource: a frame mapped by its address is, at that time, neither free, nor one of the child's
  tables, nor reached by the source; a page allocated to be mapped may be any, with flags outside the address bits.
- VmmIsolation.SourceRunKeepsChild: likewise for the source, which starts with tables and frames apart from the free
  pages, as every pagemap does that was built by such accesses from an empty one.
- VmmIsolation.CloneInterleaved: likewise for both.
- VmmNumbers.MapLooksUp: for physical addresses below 2^52 and flags outside the address bits, as for `VmmMap.LeafAddress`.
- BootNumbers.BootFreeExact: for regions that do not reach 2^64 or begin in its last page (`BootNumbers.RegionExact`), a
  page-aligned image and no address of image or bitmap near 2^64.
- VmmWorld.StepFine: clients give back and write only pages they hold, a clone's source maps no free page, and a release
  is of a pagemap that still owns its leaves.
- VmmProcesses.StepSecure: accesses as in `VmmIsolation.CloneInterleaved`; the kernel gives back and writes only pages it
  holds, and a release is of a pagemap that still owns the frames it maps.
- VmmWorld.EveryWorldFine: runs of such events.
- VmmWorld.CloneFine: a clone's source maps no free page.
- VmmWorld.ReleaseFine: of a pagemap that still owns its leaves.
- VmmMap.MapPage: physical addresses and flags are arbitrary words; what the entry then points to is stated for
  addresses below 2^52 and flags outside the address bits (`VmmMap.LeafAddress`).
- KernelSpace.VmmInit: for a direct map at 0xffff800000000000, memory ending below 2^40, and a page-aligned image in the
  top two gigabytes; boot protocol responses are parameters, assumed present.
- KernelSpace.MapImage: under the same bounds.
- KernelSpace.MapDirect: under the same bounds.
- KernelSpace.MapRegion: under the same bounds.
- KernelSpace.HeapInit: the first call only; a second call returns at once.
- Heap.KernelHeap.constructor: the heap's pages are mapped before (`KernelSpace.HeapInit`); their bytes are a parameter.
- Heap.KernelHeap.Krealloc: of a live pointer, for size + 23 < 2^64, beyond which the block found has no room for the old payload.
- Heap.KernelHeap.Kcalloc: of a payload of 2^64 - 23 bytes or more nothing is promised: the block found has 16 bytes
  (`Heap.RoundedRoom`), and the length given to `memset` as an int is not positive.
- Heap.KernelHeap.Kfree: for null and live pointers only.
- Sched.Kernel.ProcCreate: requires that the stack can be allocated; the code does not test for a null stack.
- Sched.Kernel.Schedule: requires 128 bytes of stack below the stack pointer, the return address included. Registers at
  the call are arbitrary.
- Sched.Kernel.Switch: requires the same 128 bytes.
- Sched.Kernel.ProcSwitch: requires the same 128 bytes.
- Sched.Kernel.SaveContext: requires the same 128 bytes.
- Sched.Kernel.NewStack: requires room in the heap for the stack.
- Sched.Kernel.Compute: a process writes its own stack only, and blocks of the heap only through heap calls.
- `proc_destroy`: moving table entries under the current process breaks the invariant; runs exclude it.
- `switch_to_user`, interrupt and descriptor tables, console, keyboard, mount list: not part of this model.
- TarFormat.TarfsInit: for data on which the loop ends without looking outside of it, which `TarLoop.EndsExactly` decides
  for all data. Addresses are offsets from the start of the archive, modulo 2^64.
- TarFs.TarFileSystem.constructor: for archives whose files lie inside the data, as written archives do.
- TarFs.TarFileSystem.Read: handles come from open; the negative buffer sizes whose count would be out of range are
  excluded by the exact condition of `TarFs.ReadCountSound`.
- String comparison, `memcpy` and `memset` appear by their meaning; `printk` output is not modelled.
