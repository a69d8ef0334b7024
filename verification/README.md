# Verified models of the kernel's memory manager, loader and drivers

A Dafny model of the parts of the kernel whose correctness cannot be seen from one function: the virtual memory
managers of x86_64 (4 levels) and AArch64 (3 levels) on top of the bitmap frame allocator, the kernel heap, the ELF
loader of `process_run`, the split virtqueue drivers, the disk image writer and its reader, line drawing, and the
scheduler ring. `dafny verify dfyconfig.toml` checks everything.

## How it is built

Page tables live in a memory of frames of 512 words, the same memory the loader stores bytes into. One theory of radix
trees, in the depth and in the leaf test of the architecture, covers both managers: `PageTable` (words, walks,
ownership, the operations as functions), `PageTree`, `PageOps`, `PageClone` (what one operation does to one tree),
`PageRuns` and `PageTheorems` (many spaces, whole runs), `PageFailure` (what happens without enough frames),
`PageIdentity`, `Paging`, `PageBoot` and `BootRuns` (boot tables, 2MB identity leaves, and runs from boot on), `PageBits`
(every bit of the words stored). `Vmm` is the code of the two `vmm.c`
files, writing tables in place over `Pmm`'s bitmap, each method proved equal to its function. A space stands for a
map from page numbers to leaf words; the main theorem is that spaces behave as unrelated such maps in every run.

`Elf` reads the headers of ELF files and relates them to the records they were packed from. `Loader`, `LoaderImage`,
`LoaderStray`, `LoaderFailure`, `LoaderRuns` and `Process` compose all of this: which byte every address of a loaded image
reads, what else may change (nothing), and what a process leaves behind; `ProcessImage` says it in terms of the file.
`Shortfalls` shows, on a booted
kernel, where the code does less than its headers say.

`HeapView` and `HeapRuns` are the heap as rows of blocks, `Heap` the linked lists in memory. `HeapMemory` spells
their headers out as words of the memory of frames, and `Kernel` puts heap and page tables on one allocator in that memory
and proves who owns which frame. `Virtqueue` has driver and
device as small steps in any order, with free-running 16-bit indices (section 2.6 of VIRTIO 1.1); `VirtioInput` and
`Virtio` are its two clients. `Mkfs` and `Vfs` are the two ends of the disk format. `Framebuffer` and `Sched` stand alone.
`Arith` and `PhysBytes` hold arithmetic on words and bytes.

## What is assumed

- Each kernel operation is atomic: the code takes no locks.
- Frame 0 is in use and is never freed, since 0 also means failure.
- The page-table code never checks for a failed allocation. Theorems about runs ask for as many free frames as tables
  are missing; `PageFailure` shows that this is exactly what is needed.
- A pointer handed to `kfree` is NULL or a live block. Runs with `kmalloc` leave out requests whose sizes wrap around on
  a heap without room; `HeapRuns.KmallocKeepsIff` says when requests are honoured, for every size.
- Program headers give addresses the tables can tell apart and file bytes that end within the segment's pages, as all
  with `p_filesz <= p_memsz` do (ELF gABI, chapter 5, "Program Header"). For the image as a whole, segments are away
  from the stack and from block leaves; `LoaderStray` says what happens otherwise. They may share pages.
- Lines do not overflow 32-bit arithmetic (`Framebuffer.ReachFits` gives a range that never does).

## Where the code differs from what it says

The model follows the code. Each case has its exact condition and an input that shows it.

- `include/mm/pmm.h` says the reserved range stays used. `mark_range` rounds both ends down, so a last partial frame
  stays free if it is in a region (`Pmm.ReservedUsedIff`, `Pmm.BitmapTailIsFree`), and a region that does not start on a
  frame boundary frees a frame beginning before it (`Pmm.FreedInsideIff`, `Pmm.HalfFrameIsFree`).
- `include/arch/x86_64/vmm.h` says `vmm_translate` gives 0 if unmapped. It also gives 0 for every address mapped by a
  huge or block leaf, the boot identity map among them, and for the first byte of frame 0 (`PageTheorems.TranslateZeroIff`,
  `PageBoot.BlocksTranslateToZero`).
- `include/arch/x86_64/vmm.h` speaks of spaces sharing the kernel's mappings. They are copies: a later change in the
  kernel's space is not seen in spaces already created, and a page unmapped there stays mapped in them
  (`PageTheorems.MapSharedIff`, `PageTheorems.UnmapSharedIff`, `Shortfalls.LaterMappingUnseen`, `Shortfalls.StalePageStays`).
- `include/arch/x86_64/paging.h` says the range ends present, writable and identity-mapped. Directory entries already
  present are left as they are, so this holds exactly where they were absent below writable tables or writable identity
  leaves (`Paging.IdentityMapFacts`, `Shortfalls.TableIsLeft`). Tables are writable in every reachable state.
- The loader gives two segments that share a page two frames in turn, so the earlier segment loses its bytes there
  (`Shortfalls.SharedPageLoses`); `LoaderImage.ImageCorrectIff` says when the image is nevertheless right.
- The comment in `arch/x86_64/process.c` has the loader write to the frames it allocated. Under a block leaf, as at the usual
  link address 0x400000, `vmm_map` maps nothing and `vmm_translate` gives 0: the frame is lost, one for each page, and the
  file bytes go to physical address 0. So do bytes past the segment's pages where nothing is mapped; where something is
  mapped, they go there (`LoaderStray.ZeroSparedIff`, `LoaderStray.PastByteLands`, `LoaderStray.BlockedPageLeaks`,
  `Shortfalls.BlockedWritesZero`, `Shortfalls.OverlongWritesZero`).
- Above `MAX_REQUEST` the 64-bit sizes of `kmalloc` wrap: it hands out too little, or writes a header below the block
  (`HeapRuns.KmallocKeepsIff`, `HeapRuns.OverrunWrites`, `HeapRuns.OverrunHitsFrameZero`).
- Neither the page-table code nor the loader checks for failed allocations (`PageFailure.MapKeepsTreeIff`,
  `PageFailure.CloneWholeIff`, `LoaderFailure.LoadPageWholeIff`, `LoaderFailure.IdentityWholeIff`, `Shortfalls.NoFramesBreak`).
- `fb_fill_rect` adds in 32 bits: a rectangle whose end wraps around is not clipped but dropped
  (`Framebuffer.FillClipsIff`, `Framebuffer.FillDropsWide`).
- `vfs_read_file` rounds a size up in 32 bits: a file within 511 bytes of 4GB is reported but not copied
  (`Vfs.CopiesAllIff`, `Vfs.LargestFilesUnread`).

## Model

| member | source | states |
|---|---|---|
| `PageTheorems.RunKeepsInv` | arch/x86_64/mm/vmm.c:22-170 | In every reachable state each used frame is held by somebody or is a table of exactly one space at exactly one tree position; every owned frame is marked used |
| `PageTheorems.RunRefines` | arch/x86_64/mm/vmm.c:22-170 | Any run of create, destroy, map, unmap and other frame traffic acts on the spaces as the abstract run acts on independent page maps, at either depth |
| `PageTheorems.WholeRun` | arch/aarch64/mm/vmm.c:52-189 | After any run every address of every space walks and translates as its own abstract page map says |
| `PageTheorems.Isolation` | arch/x86_64/mm/vmm.c:116-151 | A space no operation names keeps its root, tables, table contents and every translation through any run |
| `PageTheorems.CreateUseDestroy` | arch/x86_64/mm/vmm.c:68-114 | Create, any maps and unmaps with frames taken, stored to and given back in between, destroy: every table frame is back, so frames in use are those of before but for what is held; other spaces unchanged |
| `PageTheorems.CreateMapDestroy` | arch/aarch64/mm/vmm.c:94-157 | With maps and unmaps alone in between, the allocator and every frame that was in use are exactly as before |
| `PageTheorems.MapAfterCreate` | arch/x86_64/mm/vmm.c:91-132 | What vmm_map does in the kernel's space after a create is seen there, for every address; the created space keeps what the kernel's had |
| `PageTheorems.UnmapAfterCreate` | arch/x86_64/mm/vmm.c:91-151 | The same for vmm_unmap |
| `PageTheorems.MapSharedIff` | include/arch/x86_64/vmm.h:3-5 | After a create and a map in the kernel's space the two spaces agree on an address exactly when the map was about another page, stopped by a block, or left there what was there |
| `PageTheorems.UnmapSharedIff` | include/arch/x86_64/vmm.h:3-5 | After a create and an unmap in the kernel's space they agree exactly when the unmap was about another page, stopped by a block, or found nothing |
| `PageTheorems.TranslateZeroIff` | arch/x86_64/mm/vmm.c:153-170 | vmm_translate gives 0 exactly for an unmapped address, one a block or huge leaf maps, or the first byte of frame 0 |
| `PageTheorems.BlocksSurvive` | arch/x86_64/mm/vmm.c:24-26 | A block or huge leaf shared by all spaces is still there, in all spaces then alive, after any run |
| `PageTheorems.RightsAreTheLeafs` | arch/x86_64/mm/vmm.c:22-41 | In every reachable x86_64 state the AND of W and U over a walk is the leaf's own W and U: widening a table exposes no other page |
| `PageTheorems.MapThenTranslate` | arch/x86_64/mm/vmm.c:116-170 | vmm_map then vmm_translate, for every address: the mapped page, everything else as before, nothing past a block, and what a request without PRESENT does on each architecture |
| `PageTheorems.UnmapThenTranslate` | arch/aarch64/mm/vmm.c:159-189 | vmm_unmap removes exactly the one page, and nothing past a block |
| `PageRuns.StepKeeps` | arch/x86_64/mm/vmm.c:22-151 | Each single operation keeps the partition, all trees and the rights invariant, and leaves every other space as it was |
| `PageRuns.StepRefines` | arch/x86_64/mm/vmm.c:22-170 | Each single operation is its abstract operation on the page maps |
| `PageRuns.StepMap` | arch/x86_64/mm/vmm.c:116-132 | vmm_map in a system of many spaces: the new walk of every address, the exact number of frames taken |
| `PageRuns.StepUnmap` | arch/x86_64/mm/vmm.c:134-151 | vmm_unmap in a system of many spaces |
| `PageRuns.StepCreate` | arch/x86_64/mm/vmm.c:91-99 | A created space walks like the kernel's, from a fresh root, for one frame per kernel table |
| `PageRuns.StepDestroy` | arch/x86_64/mm/vmm.c:101-114 | Destroying a space frees exactly its tables and writes nothing |
| `PageRuns.StepTake` | mm/pmm.c:94-119 | Taking frames from the allocator disturbs no space |
| `Kernel.RunOneOwner` | arch/x86_64/mm/vmm.c:22-170 | In every state reachable by any mix of address-space operations, kmalloc, kfree and direct frame use, a frame is in use exactly when it has an owner, and it has one only: one space's table, one arena, or another holder |
| `Kernel.KernelCreateUseDestroy` | arch/x86_64/mm/vmm.c:91-114 | The same life of a space with kmalloc and kfree in between too: afterwards frames in use differ only by what callers hold and, if they took and gave none, by the heap's growth alone |
| `Kernel.MallocSparesPayloads` | mm/heap.c:58-100 | kmalloc changes no word of a live block's payload in the memory of frames |
| `Kernel.FreeSparesPayloads` | mm/heap.c:102-115 | kfree changes no word of another live block's payload |
| `Kernel.OneOwner` | mm/heap.c:33-56 | The same of one state that satisfies the joint invariant |
| `Kernel.KernelStepKeeps` | mm/heap.c:83-115 | Each operation of the memory manager, the heap and other frame users keeps the joint invariant |
| `Kernel.MallocStep` | mm/heap.c:83-100 | kmalloc, storing its headers into the memory the tables live in and growing or not, disturbs no address space, and the words of memory spell out the heap it leaves |
| `Kernel.FreeStep` | mm/heap.c:102-115 | So does kfree, storing its header |
| `Kernel.SpaceSpells` | arch/x86_64/mm/vmm.c:22-151 | No address-space operation, and no store into the payload of a live block, touches a word of a heap header |
| `HeapMemory.MallocSpells` | mm/heap.c:58-100 | All the words kmalloc stores, as three-word headers: they spell out the arenas and blocks it leaves, and go into headers only |
| `HeapMemory.TakeSpells` | mm/heap.c:60-75 | The stores of alloc_from_block turn memory that spells a heap into memory that spells it with the block taken |
| `HeapMemory.GiveSpells` | mm/heap.c:107-114 | The stores of kfree turn it into memory that spells it with the block given back |
| `HeapMemory.NewSpells` | mm/heap.c:44-54 | The stores of grow_heap spell the new arena in front of the others |
| `HeapMemory.SpellsKept` | mm/heap.c:12-24 | Memory goes on spelling the heap while header words are left alone |
| `HeapMemory.PayloadIsNoHeader` | mm/heap.c:58-76 | A word of a live payload belongs to no header |
| `HeapMemory.BlockStored` | mm/heap.c:66-74 | A header stored as three words is read back, and headers that do not overlap it are unchanged |
| `HeapMemory.HeaderLayout` | mm/heap.c:14-24 | Size, free flag and next of a block, and next, frame count and first block of an arena, lie at offsets 0, 8 and 16; the seven bytes behind the flag are not touched |
| `Kernel.HeaderStores` | mm/heap.c:44-54 | Headers that lie in arenas are stored in frames of arenas only |
| `Kernel.MallocFrames` | mm/heap.c:95-99 | kmalloc adds to the arenas exactly the frames it took from the allocator |
| `Kernel.SpaceStep` | arch/x86_64/mm/vmm.c:22-151 | No address-space operation takes a frame of an arena |
| `PageOps.MapGrows` | arch/x86_64/mm/vmm.c:116-132 | vmm_map keeps the tables a tree, takes exactly the missing tables out of free frames, and writes nothing but tables of this tree |
| `PageOps.MapWalks` | arch/aarch64/mm/vmm.c:143-157 | vmm_map changes the walks of exactly the addresses of its page, to the new leaf, and withdraws no right on the way |
| `PageOps.UnmapKeeps` | arch/x86_64/mm/vmm.c:134-151 | vmm_unmap keeps the tree and its footprint and writes one table of it |
| `PageOps.UnmapWalks` | arch/aarch64/mm/vmm.c:159-173 | vmm_unmap turns exactly the walks of its page into misses and keeps all rights |
| `PageOps.CreateFacts` | arch/x86_64/mm/vmm.c:22-35 | get_or_create_table on an absent entry hangs one fresh, zeroed, owned table there |
| `PageOps.DescendFacts` | arch/x86_64/mm/vmm.c:36-41 | get_or_create_table on a table entry changes at most that entry's user bit |
| `PageClone.CloneFacts` | arch/x86_64/mm/vmm.c:43-63 | The clone walks to the same leaf word with the same rights as its source for every address, out of fresh frames only, one per source table, writing nothing else |
| `PageClone.SlotFacts` | arch/aarch64/mm/vmm.c:72-88 | One turn of the cloning loop fills one entry, and only there changes the clone's walks |
| `PageClone.ReleaseFacts` | arch/x86_64/mm/vmm.c:68-77 | free_table_level frees exactly the tables of the tree |
| `PageClone.TablesIsSize` | arch/aarch64/mm/vmm.c:94-103 | Counting tables entry by entry counts the frames of the footprint |
| `PageTree.Frame` | arch/x86_64/mm/vmm.c:14-20 | A tree, its footprint and its shape depend on the frames of the footprint alone |
| `PageTree.FrameWalk` | arch/x86_64/mm/vmm.c:153-170 | So do all its walks and rights |
| `PageTree.Graft` | arch/x86_64/mm/vmm.c:22-41 | A tree stays a tree when one child is replaced by a tree of fresh frames |
| `PageFailure.MapKeepsTreeIff` | arch/x86_64/mm/vmm.c:29-33 | vmm_map, which never checks for allocation failure, leaves a tree exactly when there is a free frame for every missing table |
| `PageFailure.CloneWholeIff` | arch/x86_64/mm/vmm.c:43-63 | A clone is a well-formed tree exactly when there is a free frame for every table of its source |
| `PageFailure.CloneBreaks` | arch/x86_64/mm/vmm.c:45-46 | A clone short of frames leads to frame 0 by a path no later turn rewrites; other used frames are spared |
| `PageAddress.SamePageIff` | arch/x86_64/mm/vmm.c:117-120 | Two addresses share all table indices exactly when their page numbers agree in the translated bits |
| `PageTable.LeafEntryFacts` | arch/x86_64/mm/vmm.c:131-131 | The leaf written carries the requested frame and presence, and on x86_64 the requested rights; PageBits.LeafBits has all bits |
| `PageBits.MappedWord` | arch/aarch64/mm/vmm.c:143-157 | In every reachable state vmm_map leaves for its address a 4KB leaf whose 64 bits are, one by one: the frame of phys under the mask; on x86_64 PRESENT, WRITABLE and USER as asked; on AArch64 a valid page of normal memory, inner shareable, accessed, AP[1] set for user access, AP[2] for read-only; every other bit 0 |
| `PageBits.LeafBits` | arch/aarch64/mm/vmm.c:38-50 | The same of the word alone, for every phys and flags |
| `PageBits.EntryBits` | arch/x86_64/mm/vmm.c:29-33 | Bit by bit, a new table entry has the table's frame, PRESENT and WRITABLE and, if asked for, USER (VALID and TABLE on AArch64), and no other bit |
| `PageBits.CloneBits` | arch/x86_64/mm/vmm.c:60-60 | Bit by bit, a cloned table entry has the clone's frame and the source's twelve low bits (VALID and TABLE on AArch64), and no bit above |
| `PageBits.WidenBits` | arch/x86_64/mm/vmm.c:36-39 | Widening sets bit 2 of the 64 and leaves all others |
| `PageBits.BigBits` | arch/x86_64/mm/paging.c:53-54 | Bit by bit, a 2MB leaf is the address, unmasked, with PRESENT, WRITABLE and HUGE |
| `PageBits.UnmapStores` | arch/x86_64/mm/vmm.c:134-151 | vmm_unmap of a mapped page stores one zero word, in the leaf table and nowhere else; of a page in a block it stores nothing |
| `PageBits.BootBitsA64` | arch/aarch64/mm/mmu_boot.c:47-51 | Bit by bit, the two boot blocks: device memory never executed, and normal memory at 1GB |
| `PageBits.BootBitsX86` | arch/x86_64/boot/boot.asm:164-190 | Bit by bit, the boot tables and their 512 2MB leaves |
| `PageBits.MaskedIs` | arch/x86_64/mm/vmm.c:131-131 | Addresses below the mask keep all but their offset in the page |
| `PageTable.WidenFacts` | arch/x86_64/mm/vmm.c:36-39 | Setting the user bit changes no other field the walk looks at |
| `PageTable.CloneEntryFacts` | arch/x86_64/mm/vmm.c:60-60 | A cloned table entry points to the clone with the source entry's rights |
| `Vmm.Machine.GetOrCreateX86` | arch/x86_64/mm/vmm.c:22-41 | get_or_create_table on the machine: the new memory, allocator and table are those of PageTable.GetOrCreate (x86_64) |
| `Vmm.Machine.CloneTableLevelX86` | arch/x86_64/mm/vmm.c:43-63 | The recursive cloning loop is PageTable.Clone, about which PageClone.CloneFacts speaks (x86_64) |
| `Vmm.Machine.FreeTableLevelX86` | arch/x86_64/mm/vmm.c:68-77 | The recursive freeing loop is PageTable.Release and writes no memory (x86_64) |
| `Vmm.Machine.CreateX86` | arch/x86_64/mm/vmm.c:93-94 | The tables of vmm_create_address_space: a clone of the kernel's (x86_64) |
| `Vmm.Machine.DestroyX86` | arch/x86_64/mm/vmm.c:103-105 | The tables of vmm_destroy_address_space: none for the kernel's space, otherwise all of the tree's (x86_64) |
| `Vmm.Machine.MapX86` | arch/x86_64/mm/vmm.c:116-132 | The unrolled walk of vmm_map is the generic PageTable.MapPage at this depth (x86_64) |
| `Vmm.Machine.UnmapX86` | arch/x86_64/mm/vmm.c:134-151 | The unrolled walk of vmm_unmap is the generic PageTable.UnmapPage at this depth (x86_64) |
| `Vmm.Machine.TranslateX86` | arch/x86_64/mm/vmm.c:153-170 | vmm_translate is the generic walk, answering for 4KB leaves only (x86_64) |
| `Vmm.Machine.GetOrCreateA64` | arch/aarch64/mm/vmm.c:52-67 | get_or_create_table on the machine: the new memory, allocator and table are those of PageTable.GetOrCreate (AArch64) |
| `Vmm.Machine.CloneTableLevelA64` | arch/aarch64/mm/vmm.c:69-89 | The recursive cloning loop is PageTable.Clone, about which PageClone.CloneFacts speaks (AArch64) |
| `Vmm.Machine.FreeTableLevelA64` | arch/aarch64/mm/vmm.c:94-103 | The recursive freeing loop is PageTable.Release and writes no memory (AArch64) |
| `Vmm.Machine.CreateA64` | arch/aarch64/mm/vmm.c:119-120 | The tables of vmm_create_address_space: a clone of the kernel's (AArch64) |
| `Vmm.Machine.DestroyA64` | arch/aarch64/mm/vmm.c:129-131 | The tables of vmm_destroy_address_space: none for the kernel's space, otherwise all of the tree's (AArch64) |
| `Vmm.Machine.MapA64` | arch/aarch64/mm/vmm.c:143-157 | The unrolled walk of vmm_map is the generic PageTable.MapPage at this depth (AArch64) |
| `Vmm.Machine.UnmapA64` | arch/aarch64/mm/vmm.c:159-173 | The unrolled walk of vmm_unmap is the generic PageTable.UnmapPage at this depth (AArch64) |
| `Vmm.Machine.TranslateA64` | arch/aarch64/mm/vmm.c:175-189 | vmm_translate is the generic walk, answering for 4KB leaves only (AArch64) |
| `Vmm.Machine.Alloc` | mm/pmm.c:72-82 | The frame the page tables are built from is the lowest free one |
| `Vmm.Machine.ZeroedTable` | arch/x86_64/mm/vmm.c:14-20 | Clears one frame and no other |
| `PageBoot.BootX86Inv` | arch/x86_64/boot/boot.asm:164-190 | The boot tables satisfy the invariant all runs start from |
| `PageBoot.BootA64Inv` | arch/aarch64/mm/mmu_boot.c:47-51 | The boot tables satisfy the invariant all runs start from |
| `PageBoot.BootIdentityX86` | arch/x86_64/boot/boot.asm:164-190 | From boot on, in every space alive after any run, the hardware maps the first gigabyte to itself |
| `PageBoot.BootIdentityA64` | arch/aarch64/mm/mmu_boot.c:47-51 | From boot on, in every space alive after any run, the hardware maps the first two gigabytes to themselves |
| `PageBoot.BlocksTranslateToZero` | include/arch/x86_64/vmm.h:35-35 | From boot on, after any run, a boot address is mapped by the hardware and translated to 0 by vmm_translate |
| `BootRuns.ExtendedIdentity` | arch/x86_64/mm/paging.c:38-62 | From boot through paging_identity_map and then any run, every space maps the boot range and [phys, phys+size) to themselves, writable |
| `BootRuns.ExtendedFacts` | arch/x86_64/mm/paging.c:38-55 | Right after paging_identity_map on a booted kernel both ranges are identity-mapped by big leaves and the invariant holds |
| `BootRuns.IdentityEnough` | arch/x86_64/mm/paging.c:26-36 | Two frames for every 2MB are enough for paging_identity_map |
| `BootRuns.OneOwnerFromBoot` | arch/x86_64/boot/boot.asm:164-190 | From boot on every frame in use has exactly one owner |
| `BootRuns.SelftestPasses` | arch/x86_64/arch.c:48-77 | vmm_selftest passes on a booted kernel with frames enough, on either architecture, and leaves the allocator as it was |
| `PageBoot.IdentityKeepsInv` | arch/x86_64/mm/paging.c:38-55 | paging_identity_map on the live kernel tables keeps the partition, the trees, the rights and every other space |
| `PageIdentity.IdentityGrows` | arch/x86_64/mm/paging.c:45-55 | One turn keeps the tree and takes exactly the tables it creates |
| `PageIdentity.IdentityWalks` | arch/x86_64/mm/paging.c:45-55 | One turn maps exactly the absent 2MB unit it is for, and disturbs no other walk |
| `PageIdentity.IdentityRangeFacts` | arch/x86_64/mm/paging.c:38-55 | After the loop an address of the range is identity-mapped and writable exactly when its directory entry was absent below writable tables or it was so already; nothing else changes |
| `Paging.IdentityMapFacts` | include/arch/x86_64/paging.h:18-20 | An address of [phys, phys+size) ends present, writable and identity-mapped exactly under that condition; what was present walks as before |
| `Shortfalls.TableIsLeft` | arch/x86_64/mm/paging.c:53-54 | After a vmm_map in the kernel's space, paging_identity_map over that 2MB unit leaves its second page unmapped |
| `Shortfalls.NoFramesBreak` | arch/x86_64/mm/vmm.c:29-33 | On a booted kernel with no frame left, a map breaks the kernel's tables and a clone is no tree |
| `Shortfalls.LaterMappingUnseen` | arch/x86_64/mm/vmm.c:91-99 | On a booted kernel, a page mapped in the kernel's space after a create is not mapped in the created space |
| `Shortfalls.StalePageStays` | arch/x86_64/mm/vmm.c:91-151 | On a booted kernel, a page mapped before a create and unmapped after it stays mapped in the created space |
| `LoaderFailure.LoadPageWholeIff` | arch/x86_64/process.c:134-140 | One turn of the loader ends with sound tables and a frame for the page exactly when there is a free frame for it and for every table missing on its path |
| `LoaderFailure.NoFrameMapsZero` | arch/x86_64/process.c:135-139 | Without a free frame the loader clears frame 0 and maps it for user code |
| `LoaderFailure.IdentityWholeIff` | arch/x86_64/mm/paging.c:26-55 | One turn of paging_identity_map leaves the tables a tree exactly when there is a free frame for every table it misses |
| `Paging.LiveTables.Ensure` | arch/x86_64/mm/paging.c:26-36 | ensure_table on the machine is PageIdentity.EnsureTable |
| `Paging.LiveTables.IdentityMap` | arch/x86_64/mm/paging.c:38-55 | The loop of paging_identity_map, with its 64-bit rounding, is PageIdentity.IdentityRange |
| `LoaderImage.LoadImageFacts` | arch/x86_64/process.c:124-157 | For any list of segments, overlapping or not: each address of their pages reads the byte of the last segment over it, with that segment's rights, through the new space; stack pages are mapped; all pages have frames of their own, none a table; nothing else in use is written |
| `LoaderImage.ImageCorrectIff` | arch/x86_64/process.c:124-151 | Every segment reads its file bytes and then zeros exactly when no later segment sharing a page brings other bytes there; always when no page is shared |
| `Shortfalls.SharedPageLoses` | arch/x86_64/process.c:134-140 | Launching, on a booted kernel, an image with two segments in one page loses the first one's byte |
| `Shortfalls.TwoInOneReady` | arch/x86_64/process.c:120-140 | A booted kernel with 27 free frames can launch that image |
| `LoaderStray.ZeroSparedIff` | arch/x86_64/process.c:124-151 | Loading a segment leaves the byte at physical address 0 alone, whatever the file, exactly when no file byte is under a block leaf in the segment's pages, or past them where nothing or a block is mapped or at the start of a page on frame 0 |
| `LoaderStray.AliasedTable` | arch/x86_64/process.c:147-150 | That needs the pages mapped past the segment to be data: if one is mapped to its own leaf table a byte reaches address 0 all the same |
| `LoaderStray.ZeroGets` | arch/x86_64/process.c:147-150 | Otherwise the last of the file bytes that go there is found at physical address 0 |
| `LoaderStray.PastByteLands` | arch/x86_64/process.c:147-150 | Past the segment's pages a file byte goes into whatever 4KB page is mapped there |
| `LoaderStray.RangeAny` | arch/x86_64/process.c:134-140 | The mapping loop with blocks in the way: each page gets a frame of its own, or stays under its block |
| `LoaderStray.BlockedPageLeaks` | arch/x86_64/process.c:134-140 | Each page under a block costs one frame, which is mapped nowhere |
| `LoaderStray.CopyLands` | arch/aarch64/process.c:138-141 | In the copying loop the last byte that goes to an address stays there, wherever bytes go outside the tables |
| `LoaderStray.CopyMisses` | arch/aarch64/process.c:138-141 | An address no byte goes to keeps its byte |
| `Shortfalls.OverlongWritesZero` | arch/x86_64/process.c:147-150 | On a booted kernel a header with one file byte and no memory writes that byte to physical address 0 |
| `Shortfalls.BlockedWritesZero` | arch/aarch64/process.c:138-141 | On a booted kernel a sound header with one byte at the usual link address 0x400000 writes that byte to physical address 0 |
| `Shortfalls.AliasWritesZero` | arch/x86_64/process.c:147-150 | On a booted kernel, after two maps of one page, a page on its own leaf table: a file byte reaches physical address 0 though none was translated there |
| `LoaderImage.ImageRights` | arch/aarch64/process.c:121-123 | Image pages admit user code, and its writes exactly when the segment is writable, in each architecture's own bits |
| `LoaderImage.SegmentsFacts` | arch/aarch64/process.c:115-142 | The segment loop alone, with the frames it costs at most |
| `LoaderImage.MapStackFacts` | arch/x86_64/process.c:153-157 | The four stack pages are mapped writable for user code, each in a frame of its own |
| `LoaderImage.RangeEnough` | arch/x86_64/process.c:134-140 | A frame per page and per missing table on its path is enough, and never more is taken |
| `Loader.SegmentFacts` | arch/x86_64/process.c:128-150 | One segment: every byte of its pages reads its file byte or zero |
| `Loader.MapRangeFacts` | arch/x86_64/process.c:134-140 | The mapping loop: every page of the range is backed by its own fresh frame and reads zero |
| `Loader.CopyFacts` | arch/x86_64/process.c:147-150 | The copying loop writes the file bytes through the translation and touches no table and no other address of the range |
| `Loader.LoadPageFacts` | arch/aarch64/process.c:125-131 | One turn: a fresh zeroed frame at the page, every other page as before |
| `Loader.ZeroBytesFacts` | arch/x86_64/process.c:136-138 | The byte loop clears one whole frame and no other |
| `LoaderRuns.ImageLoading` | arch/x86_64/process.c:124-157 | Loading keeps the kernel-wide invariant and every other space, and makes exactly one held frame per page of segments and stack |
| `LoaderRuns.PageLoading` | arch/aarch64/process.c:125-131 | One turn of the mapping loop as kernel operations: take, write, map |
| `LoaderRuns.CopyLoading` | arch/x86_64/process.c:147-150 | The copying loop writes only frames held by the process |
| `Process.LoadFacts` | arch/x86_64/process.c:124-157 | Loading into any space of any reachable state, whatever happened since its creation: invariant and other spaces kept, no frame in use but the space's tables written, image correct exactly as in ImageCorrectIff |
| `Process.LaunchFacts` | arch/x86_64/process.c:120-157 | The same right after the clone: besides, no frame in use before is written, and every other address is as in the kernel's space |
| `Process.FinishFacts` | arch/x86_64/process.c:180-181 | After the process: every table returned, every other space kept, and exactly the data frames of its pages left behind |
| `Process.BlockRoom` | arch/x86_64/process.c:165-166 | The block allocated for the address_space_t has room for its eight bytes, the launch stack for its 16KB |
| `ProcessImage.LaunchedImage` | arch/x86_64/process.c:114-151 | In terms of the file: with its ELF header and program headers laid out as the C structs, every address of every PT_LOAD record's memory reads, through the launched process's own translation, the byte at p_offset or zero past p_filesz, is open to user code, and writable exactly if PF_W is set, provided no page belongs to two records |
| `ProcessImage.LaunchedStack` | arch/x86_64/process.c:153-157 | The 16KB below 0x7FFFFFFFF000, or 0xF0000000, are open to user code and writable |
| `ProcessImage.CoversIs` | arch/x86_64/process.c:128-129 | The pages mapped for a segment are exactly those its memory touches |
| `Elf.SegmentsAreLoads` | arch/x86_64/process.c:122-151 | For every file that holds a header and program headers field by field, the segments loaded are its PT_LOAD records, in order, with their p_vaddr, p_offset, p_filesz, p_memsz and PF_W |
| `Elf.LoadIsAmong` | arch/x86_64/process.c:124-126 | Every PT_LOAD record is among them, behind as many as come before it |
| `Elf.ElfValidIff` | arch/x86_64/process.c:100-112 | A file with a header is accepted exactly for the magic number, the 64-bit class and this machine |
| `Elf.ShortIsInvalid` | arch/x86_64/process.c:102-103 | A file shorter than a header is not |
| `Elf.EhdrRead` | arch/x86_64/process.c:40-55 | e_ident, e_machine, e_phoff and e_phnum are read as they were packed |
| `Elf.PhdrRead` | arch/x86_64/process.c:57-66 | So are p_type, p_flags, p_offset, p_vaddr, p_filesz and p_memsz |
| `Elf.FieldRead` | arch/x86_64/process.c:40-66 | A field packed in little-endian bytes is read as its number |
| `Elf.LittleBytes` | arch/x86_64/process.c:40-66 | A number read is the little-endian number of its bytes |
| `Process.Launcher.Create` | arch/x86_64/mm/vmm.c:91-99 | vmm_create_address_space: the clone of the kernel's tables at this architecture's depth, and a heap block for the address_space_t |
| `Process.Launcher.Destroy` | arch/x86_64/mm/vmm.c:101-107 | vmm_destroy_address_space: nothing for the kernel's space; otherwise exactly its tables released and its heap block freed |
| `Process.Launcher.ZeroFrame` | arch/x86_64/process.c:136-138 | The clearing loop on the machine |
| `Process.Launcher.MapSegment` | arch/x86_64/process.c:128-140 | The mapping loop on the machine is Loader.MapRange over the rounded bounds |
| `Process.Launcher.CopySegment` | arch/x86_64/process.c:147-150 | The copying loop on the machine is Loader.CopyBytes |
| `Process.Launcher.LoadAll` | arch/x86_64/process.c:124-151 | The program-header loop loads SegmentsFrom of the file in order, which Elf.SegmentsAreLoads shows to be its PT_LOAD records |
| `Process.Launcher.MapUserStack` | arch/x86_64/process.c:153-157 | The stack loop on the machine |
| `Process.Launcher.Launch` | arch/x86_64/process.c:114-165 | Rejects a file that is no ELF image without touching anything; otherwise clones, allocates, loads as LoadImage says, and allocates the launch stack |
| `Process.Launcher.Finish` | arch/x86_64/process.c:180-181 | The space is destroyed and its block and the launch stack are freed; exactly the tables are given back |
| `PhysBytes.LoadStore` | arch/x86_64/process.c:149-149 | A byte stored at a physical address is read back there and nowhere else, in the same memory the page tables live in |
| `PhysBytes.GetSetByte` | arch/x86_64/process.c:149-149 | Replacing one byte of a word changes no other byte |
| `Pmm.FrameBitmap.AllocFrame` | mm/pmm.c:72-82 | Takes the lowest free frame, agreeing with the search for a run of one; 0 and no change if there is none |
| `Pmm.FrameBitmap.AllocFrames` | mm/pmm.c:94-119 | Takes the lowest free run of count frames, and exactly it; 0 and no change exactly if there is none |
| `Pmm.FrameBitmap.FreeFrame` | mm/pmm.c:84-92 | Frees that one frame; harmless for free or non-existent ones |
| `Pmm.FrameBitmap.FreeFrames` | mm/pmm.c:121-127 | Frees exactly the range, whose end is computed in 64 bits |
| `Pmm.FrameBitmap.MarkRange` | mm/pmm.c:30-42 | Sets or clears exactly the frames between the floored ends; the counter follows even if ranges overlap |
| `Pmm.FrameBitmap.Init` | mm/pmm.c:44-70 | After pmm_init a frame is free exactly when some floored region has it and the floored reservation does not; the counter is the number of free frames |
| `Pmm.FrameBitmap.BitSet` | mm/pmm.c:15-18 | Adds one frame to the set the bitmap stands for |
| `Pmm.FrameBitmap.BitClear` | mm/pmm.c:20-23 | Removes one frame |
| `Pmm.FrameBitmap.BitTest` | mm/pmm.c:25-28 | Tests membership |
| `Pmm.FirstRunIsLowest` | mm/pmm.c:94-119 | The run found is free and none starts lower; none found means there is none |
| `Pmm.FreeAtStartIff` | mm/pmm.c:45-70 | Where regions start, and the reservation with the bitmap ends, on frame boundaries, a frame is free after pmm_init exactly when some region has all of it and none of its bytes is reserved |
| `Pmm.HighestIsMax` | mm/pmm.c:47-54 | The address that sets the number of frames is the largest end of a region |
| `Pmm.BitmapFits` | mm/pmm.c:56-61 | The bitmap lies 8-aligned right behind the reservation and has a bit for every frame, in as few bytes as that takes |
| `Pmm.LowestIsFirstRun` | mm/pmm.c:94-119 | Conversely, the lowest free run is the one found |
| `Pmm.ReservedUsedIff` | mm/pmm.c:32-33 | After pmm_init every reserved byte is in a used frame exactly when the reservation is empty or ends frame-aligned, or its last partial frame is beyond memory or in no region |
| `Pmm.BitmapTailIsFree` | mm/pmm.c:54-69 | With one region and the kernel at its start, the frame holding the end of the bitmap is free |
| `Pmm.HalfFrameIsFree` | mm/pmm.c:32-38 | Memory that starts in the middle of a frame: that frame is free after pmm_init |
| `Pmm.FreedInsideIff` | mm/pmm.c:32-33 | A region frees only frames inside it exactly when it starts on a frame boundary (or frees none) |
| `Pmm.SetBitInByte` | mm/pmm.c:15-18 | OR with the mask sets that bit of the byte and no other |
| `Pmm.ClearBitInByte` | mm/pmm.c:20-23 | AND with the complement clears that bit of the byte and no other |
| `HeapRuns.KmallocFacts` | mm/heap.c:83-100 | kmalloc of any size that does not overrun fails exactly when size is 0 or no free block fits and no frame run is long enough; otherwise one new aligned block as large as the rounded request, all live blocks kept |
| `HeapRuns.KmallocKeepsIff` | mm/heap.c:83-100 | In every state of the heap the block handed out has room for the request, and the header of the rest lies behind it, exactly for requests up to MAX_REQUEST |
| `HeapRuns.OverrunWrites` | mm/heap.c:60-71 | For requests above whose sizes wrap, the header of the rest is written 8 to 4136 bytes below the payload |
| `HeapRuns.OverrunHitsFrameZero` | mm/heap.c:60-71 | On a fresh heap the first such request writes that header at physical address 8, in frame 0 |
| `HeapRuns.MallocHeadersFit` | mm/heap.c:44-75 | Every header kmalloc writes lies in an arena and outside every live block |
| `HeapRuns.FreeHeaderFits` | mm/heap.c:107-114 | The header kfree writes lies in its arena and outside every other live block |
| `HeapRuns.KfreeFacts` | mm/heap.c:102-115 | kfree removes exactly that block from the live ones and keeps the tiling |
| `HeapRuns.KfreeUndoesKmalloc` | mm/heap.c:58-115 | kfree right after a kmalloc restores the heap exactly, except for merging one free right neighbour when nothing was split |
| `HeapRuns.LiveUntilFreed` | mm/heap.c:33-115 | Over any run: arenas tiled and apart, and a block stays live, in place, disjoint from all other live blocks until it is freed |
| `HeapRuns.LiveDisjoint` | mm/heap.c:58-76 | Live blocks never overlap, header or payload, and payloads are 8-aligned |
| `HeapRuns.HeadersMissOthers` | mm/heap.c:58-76 | The headers written by allocating from or freeing a block lie outside every other block |
| `HeapRuns.GrowFacts` | mm/heap.c:33-56 | A new arena is made of free frames, tiled by one block, apart from all others |
| `HeapView.TilingIsExact` | mm/heap.c:44-50 | Headers and payloads add up to exactly the arena without its own header |
| `HeapView.FirstFitIsFirst` | mm/heap.c:90-93 | The block found fits and none before it in list order does; none found means none fits |
| `HeapView.FreeUndoesAlloc` | mm/heap.c:58-76 | Splitting and merging are inverse on an arena's block list |
| `HeapView.RequestSizes` | mm/heap.c:28-38 | Where the rounding of a request and the sum of grow_heap wrap around in 64 bits |
| `HeapView.GrowFramesNumber` | mm/heap.c:35-38 | A new arena has sixteen frames, or as many as two headers and the request need and no more |
| `HeapView.TakeTiles` | mm/heap.c:58-76 | Allocation keeps the arena tiled |
| `HeapView.GiveTiles` | mm/heap.c:102-115 | Freeing keeps the arena tiled |
| `Heap.KernelHeap.Kmalloc` | mm/heap.c:83-100 | The linked-list kmalloc, for every size: the first-fit function on tiled arenas, or, where the sizes wrap, the headers the code then writes |
| `Heap.KernelHeap.Kfree` | mm/heap.c:102-115 | The linked-list kfree refines its function and writes one header |
| `Heap.KernelHeap.GrowHeap` | mm/heap.c:33-56 | A new arena at the head of the list, or nothing changed |
| `Heap.KernelHeap.AllocFromBlock` | mm/heap.c:58-76 | Writes at most two headers, in 64-bit arithmetic; on a block large enough that takes it from the view, splitting when there is room |
| `Heap.KernelHeap.FindBlock` | mm/heap.c:90-93 | The two nested list walks find the first fitting block |
| `VirtioInput.EventsInOrder` | arch/aarch64/drivers/virtio_input.c:100-120 | Under any interleaving with a conforming device the events returned are the contents the device completed, in order, none repeated or torn; between polls all buffers are with the device or used. That they are returned at all is OneEvent and EnoughSteps |
| `VirtioInput.OneEvent` | arch/aarch64/drivers/virtio_input.c:111-120 | poll_event with something to take, the device stepping in between: its five steps return exactly the oldest completed event not yet returned, and publish that buffer again |
| `VirtioInput.EnoughSteps` | arch/aarch64/drivers/virtio_input.c:111-120 | Whatever the device does, five driver steps for each event still to return are enough to return every event completed so far |
| `VirtioInput.AllDelivered` | arch/aarch64/drivers/virtio_input.c:115-116 | When poll_event finds nothing, every completed event has been returned |
| `VirtioInput.SeedingEnds` | arch/aarch64/drivers/virtio_input.c:100-109 | seed_queue ends within seventeen steps |
| `Virtio.VirtioDevice.SeedQueue` | arch/aarch64/drivers/virtio_input.c:100-109 | Each descriptor is a chain of its own, event buffer i for the device to write, and all eight are published in order |
| `Virtio.VirtioDevice.ReadSector` | arch/aarch64/drivers/virtio_blk.c:47-64 | The device is shown a 16-byte header to read, the caller's 512 bytes to write and one status byte to write, and the call returns after the completion of that request |
| `VirtioInput.DriverKeeps` | arch/aarch64/drivers/virtio_input.c:111-120 | Each driver step keeps the invariant; an event is copied before its buffer is recycled |
| `VirtioInput.DeviceKeeps` | arch/aarch64/drivers/virtio.c:194-206 | So does each step of a conforming device |
| `VirtioInput.StartOk` | arch/aarch64/drivers/virtio_input.c:100-109 | seed_queue starts from a sound state |
| `Virtqueue.Outstanding` | arch/aarch64/drivers/virtio.c:165-173 | At most queue-size heads are outstanding, exactly those the driver does not hold |
| `Virtqueue.WriteSlotKeeps` | arch/aarch64/drivers/virtio.c:167-168 | Publishing overwrites no slot the device has yet to fetch, across 16-bit wrap-around |
| `Virtqueue.BumpIndexKeeps` | arch/aarch64/drivers/virtio.c:170-170 | Bumping the index hands exactly that head over |
| `Virtqueue.FetchKeeps` | arch/aarch64/drivers/virtio.c:165-173 | The device fetches heads in publication order, each once |
| `Virtqueue.CompleteKeeps` | arch/aarch64/drivers/virtio.c:186-190 | Completing overwrites no element the driver has yet to read |
| `Virtqueue.TakeUsedKeeps` | arch/aarch64/drivers/virtio.c:194-206 | The 16-bit test is exact and the element read is the oldest completion not yet taken |
| `Virtio.ChainIsRequest` | arch/aarch64/drivers/virtio.c:177-182 | A device following the chain through its NEXT bits finds exactly the request's buffers in order, each with its address, its length and its flags but for NEXT, however far it would go |
| `Virtio.DeviceStepKeeps` | arch/aarch64/drivers/virtio.c:184-187 | While one request is outstanding a device step can only advance that request |
| `Virtio.VirtioDevice.SubmitAndWait` | arch/aarch64/drivers/virtio.c:175-192 | Shows the device exactly the request's buffers from head 0, returns the length of the completion of its own request and leaves the queue idle, whatever the device did meanwhile |
| `Virtio.VirtioDevice.Publish` | arch/aarch64/drivers/virtio.c:165-173 | On the rings: one slot written, index bumped |
| `Virtio.VirtioDevice.PollUsed` | arch/aarch64/drivers/virtio.c:194-206 | On the rings: takes the oldest completion or reports none |
| `Virtio.VirtioDevice.FillChain` | arch/aarch64/drivers/virtio.c:177-182 | The descriptor loop writes every buffer of the request, chained in order, and nothing else |
| `Vfs.RoundTrip` | fs/vfs.c:71-119 | Reading any name from the image of any packable list of files yields the true size and first bytes of the first file stored under it, and fails for absent names |
| `Vfs.PathRoundTrip` | fs/vfs.c:71-119 | In terms of paths: the last component of a path, cut to 31 bytes, finds the first file whose path ends in it, with its size and as many of its bytes as the buffer takes |
| `Vfs.PathAbsent` | fs/vfs.c:85-88 | A name that is no path's last component so cut is not found |
| `Vfs.DiskFormat` | tools/mkfs.py:50-61 | The numbers on the disk: magic, file count and table place in the superblock; name, start sector and size at their offsets in each entry |
| `Vfs.CopiesAllIff` | fs/vfs.c:91-92 | All requested bytes arrive exactly when rounding up to sectors does not overflow 32 bits (or none were requested) |
| `Vfs.LargestFilesUnread` | fs/vfs.c:91-107 | Of any file within 511 bytes of 4GB the size is reported and nothing is copied |
| `Vfs.SuperblockRead` | fs/vfs.c:49-64 | vfs_init accepts every image mkfs writes |
| `Vfs.FirstMatchIsFirst` | fs/vfs.c:85-88 | The file meant is the first with that stored name |
| `Vfs.StrEq` | fs/vfs.c:39-47 | Equality of the two C strings |
| `Vfs.FileSystem.Init` | fs/vfs.c:49-64 | Available exactly after a readable superblock with the magic |
| `Vfs.FileSystem.Copy` | fs/vfs.c:91-107 | The sector loop fills the buffer with the file's first bytes and nothing behind them |
| `Vfs.FileSystem.Read` | fs/vfs.c:71-119 | The two search loops and the copy are ReadFile; the buffer beyond the data is untouched |
| `Mkfs.MakeImage` | tools/mkfs.py:50-66 | The image built in loops is Image |
| `Mkfs.LayOut` | tools/mkfs.py:39-48 | Names, sizes and start sectors as laid out |
| `Mkfs.StoredNameIs` | tools/mkfs.py:45-45 | The stored name of a path is what follows its last slash, or the path itself, cut to 31 bytes |
| `Mkfs.EntryInImage` | tools/mkfs.py:54-61 | Directory entry i lies at its place in the image |
| `Mkfs.DataInImage` | tools/mkfs.py:63-66 | File i's bytes lie at its start sector |
| `Mkfs.ExtentsDisjoint` | tools/mkfs.py:41-48 | Files occupy disjoint runs of whole sectors behind the directory |
| `Mkfs.U32RoundTrip` | tools/mkfs.py:51-57 | Little-endian packing is undone by reading |
| `Framebuffer.StepStaysNear` | arch/x86_64/drivers/framebuffer.c:76-85 | A turn always steps along the major axis, never past an end, and stays within half a pixel of the line |
| `Framebuffer.NearIsOne` | arch/x86_64/drivers/framebuffer.c:76-85 | Within half a pixel, with ties decided, is one pixel at each step along the major axis |
| `Framebuffer.TieGoesOn` | arch/x86_64/drivers/framebuffer.c:82-83 | From (0, 0) to (2, 1) it is (1, 1) |
| `Framebuffer.ReachFits` | arch/x86_64/drivers/framebuffer.c:71-80 | Lines up to REACH in either direction never overflow 32 bits |
| `Framebuffer.FillClipsIff` | arch/aarch64/drivers/framebuffer.c:175-182 | fb_fill_rect sets exactly the visible part of its rectangle iff neither end wraps in 32 bits, or the rectangle is empty or starts off screen |
| `Framebuffer.FillDropsWide` | arch/aarch64/drivers/framebuffer.c:175-182 | A rectangle whose end wraps sets no pixel of a 640x480 screen |
| `Framebuffer.Framebuffer.DrawLine` | arch/x86_64/drivers/framebuffer.c:69-86 | Terminates at the far end after max(D, E) + 1 pixels, each within half a pixel of the true line; sets exactly those |
| `Framebuffer.Framebuffer.FillRect` | arch/x86_64/drivers/framebuffer.c:39-60 | Sets exactly the pixels of the clipped rectangle |
| `Framebuffer.Framebuffer.PutPixel` | arch/aarch64/drivers/framebuffer.c:166-173 | Sets one visible pixel, or nothing |
| `Sched.WaitIsBounded` | kernel/sched.c:62-90 | A thread has run once the switches outnumber its distance plus the threads created meanwhile |
| `Sched.OneStep` | kernel/sched.c:35-90 | A yield or exit brings every other thread one step closer; a create delays it by at most one |
| `Sched.Members` | kernel/sched.c:35-90 | A yield keeps all threads and puts the current one last, a create adds one right behind the current one, an exit removes the current one alone |
| `Sched.Scheduler.ThreadCreate` | kernel/sched.c:35-48 | The new thread comes right after the current one in the one cycle |
| `Sched.Scheduler.Yield` | kernel/sched.c:62-66 | The cycle rotates by one |
| `Sched.Scheduler.ThreadExit` | kernel/sched.c:75-90 | The predecessor search terminates and the cycle loses exactly the current thread |

## Left out

- Process.Launcher.Create: does not store the root into the block it allocates; the address_space_t is an object, and a failed allocation is not dereferenced.
- Process.Launcher.Launch: does not fill the launch stack nor switch to the process; the entry point is not followed. File bytes beyond the end of the image read as 0, where the code would read whatever lies behind the buffer.
- Process.Launcher.Destroy: asks that no table lies in an arena, which Kernel.RunOneOwner proves of every reachable state.
- Process.FinishFacts: claims no reclamation of a process's data and stack frames, because process_run does none.
- LoaderStray.ZeroSparedIff: asks that pages mapped past the segment lead to no table of the space and to no free frame; LoaderStray.AliasedTable shows the condition fails without that.
- LoaderImage.MapStackFacts: says nothing about what the stack holds, because the code does not clear it.
- Heap.KernelHeap.Kmalloc: where a header is written below its block, what it overwrites there is not followed further.
- Heap.KernelHeap.Kfree: takes the block's place in the lists as ghost arguments; a pointer that is no live block is not covered. In this class heap headers are maps from addresses to records; HeapMemory and Kernel have them as words in the memory of frames.
- VirtioInput.EventsInOrder: the descriptors seeded are those of Virtio.VirtioDevice.SeedQueue. It is about values stepping through seed_queue and poll_event rather than the driver's static variables, since device steps fall between the driver's own; a device that completes buffers it does not hold is not covered.
- Virtio.VirtioDevice.SubmitAndWait: asks that the device eventually completes the request; the code would wait forever otherwise.
- Framebuffer.Framebuffer.DrawLine: does not cover lines on which an i32 overflows.
- Sched.Scheduler.ThreadExit: switches the current thread only. Context switching, stacks and the state field, which switch_to does not maintain, are left out; the last thread cannot leave the ring.
- Vfs.RoundTrip: speaks of files whose stored names are ASCII without NUL and whose sizes and sectors fit 32 bits, as mkfs.py's packing demands.
- Pmm.FrameBitmap.Init: keeps the bitmap in an array of its own; its address enters only through the end of the reservation.
- What virtio_blk_read_sector stores in its request header and makes of the status byte, keyboard and mouse event decoding: field copying without further logic.
- Device probing, feature negotiation, MMIO and port access, fw_cfg, ATA, PS/2, UART, timers and interrupt controllers: no semantics to state.
- TLB flushes, CR3 and TTBR0 loads, privilege transitions, GDT, IDT and TSS: outside the tables' contents.
- The Multiboot2 tag walk: the region list is an input.
- Text, fonts, GUI, VGA console and number printing: user interface.
