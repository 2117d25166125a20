# Verification of the kernel's memory managers, FAT16 driver, paging and program loader

This project models five parts of the Mercury kernel in Dafny and proves what they are for:

- **the heap** (`malloc`, `free`, `malloc_aligned`): chunk headers stored as little-endian words in a byte array,
  proved to represent a list of chunks that tiles the heap. Whole runs refine a map from live blocks to the bytes
  their owners last wrote;
- **the block manager**: the bitmap with its search across words, and the counter kept beside it;
- **two-level paging**: directory and tables as 32-bit entries in the same byte array, refining one entry for every
  page, with tables allocated from the heap above. Runs mix mapping, unmapping, `malloc`, `free` and client writes,
  on well-formed tables and on those the kernel starts with;
- **the FAT16 driver**: from 512-byte sectors through the flat byte device, boot sector, cluster chains,
  directories and paths up to the handle table and `fat16_open` / `fat16_size` / `fat16_read`. Over whole runs every
  handle delivers its own file;
- **the ELF loader**: segments laid over each other by `memmove`, jump slots patched with resolved symbols, in a
  buffer from the heap; and the whole way from a path to the entry point.

What the layouts mean is stated apart from the functions that compute with them, in bytes, masks and plain numbers:
`HeapLinks.HeaderWords` and `HeapRuns.MallocOutcome` for the heap, `PageBits.MapWordIs` and `Paging.FirstWords` for page
entries, `FatInit.BootBytes`, `FatInit.MountedNext` and `FatRecords.ParseLayout` for the volume, `ElfLayout` for ELF
files. `FatExample` is one volume byte by byte, mounted, listed and read by the driver's own methods.

Code that changes state is modelled by methods over arrays and classes; each is proved against a function or
predicate on plain values, and the properties are lemmas about those.

| files | part of the kernel |
|---|---|
| `Bytes`, `Arith`, `Masks`, `MemOps` | words in memory, products and quotients, masks, `memory/common.c` |
| `HeapLayout`, `HeapLinks`, `HeapRuns`, `Heap` | chunk lists, their headers in memory, runs, the heap itself |
| `BlockBits`, `BlockRuns`, `Blocks` | bits and maps, the books over runs, the block manager |
| `PageBits`, `PageTables`, `PagingSteps` | entries, tables in memory, what the stores of mapping and unmapping mean |
| `Paging`, `PagingRuns` | `map_page` / `unmap_page` / `paging_enable`, runs of pager and heap together |
| `PagingSelf`, `PagingBoot` | the pages that pager and heap use themselves, the tables the kernel starts with |
| `Patches`, `SymTable`, `ElfFormat`, `ElfLoader` | layered writes, symbols, the file format, `image_load` |
| `ElfLayout` | the structures of an ELF file word by word, and the image in these words |
| `FatDisk`, `FatVolume`, `FatStream`, `FatHandle`, `FatReader` | device, volume, files as streams, reading |
| `FatRecords`, `FatDirs`, `FatListing`, `FatPath` | records, directories, listings, names and paths |
| `FatTable`, `Fat16`, `FatInit` | the table of open files, the driver's interface, mounting |
| `FatFiles`, `FatLoad`, `Launch`, `FatExample` | runs over open files, loading a file or a program, one volume |

Sectors come from a constant disk (`FatDisk.Disk`); `malloc`'s callers, addresses and file contents are parameters.
Integers are unbounded and every 32-bit or 16-bit operation that may wrap is written with `U32` or `U16`. The mask
`& ~(alignment - 1)` works on binary digits (`Masks.WithoutBits`), for every alignment; that it rounds down for
powers of two is `Masks.MaskRounds`. Page entries are 32-bit vectors.

The paging results are about physical memory: which word a step reads and writes. With paging switched on, the pager's
own accesses go through the tables. They reach the memory they mean as long as page 0, directory, tables and heap are
mapped to themselves; this holds at the start and along every run that maps and unmaps other pages only
(`PagingSelf.StartsSelfMapped`, `PagingSelf.StaysSelfMapped`, `PagingSelf.ItselfExactly`).

What the code does differently from what one would expect is kept, with the exact condition:

- `malloc_aligned` delivers aligned blocks for all addresses only if the alignment is a power of two
  (`Heap.AlignedExactly`), and blocks that fit the memory asked for only if the enlarged request does not wrap
  (`Heap.ContainedExactly`); `free_aligned` finds the saved pointer only if the mask had nothing to remove
  (`Heap.SavedPointerFound`, `Heap.SavedPointerLost`); when `malloc` fails, `malloc_aligned` returns an address all the
  same (`Heap.FailureAddress`).
- `alloc_blocks` refuses a request for all remaining blocks (`BlockRuns.AllocThenFree`, `BlockRuns.LastBlocksRefused`),
  and `init_memory_region` counts block 0 as given even though it stays set (`BlockRuns.RegionAgrees`,
  `BlockRuns.RegionAtZero`).
- `SET_FRAME` leaves bit 31 of an entry alone, and nothing else clears it. A page is translated to the frame of its
  last mapping if and only if this frame lies from 2^31 on or bit 31 was never in the entry before
  (`PagingRuns.RunTranslates`, `PagingRuns.TopStays`); a low page mapped after a device page is not
  (`PagingRuns.TopLeftBehind`). An address that is not page-aligned is rounded down, its offset joins the attributes
  (`PageBits.MappedEntry`).
- `kernel_main` switches paging on before the block manager is initialised, so directory and first table are both page 0
  (`BlockRuns.NoBlocksYet`). The tables are not those meant (`Paging.FirstPaging`): every slot has one, and the entry of
  page `v` is the word at `4 * v` (`Paging.BootAtZero`, `PagingBoot.FlatStore`). Runs that map pages from 4 MiB to
  2 GiB do what they are meant to (`PagingBoot.FairExactly`, `PagingBoot.BootRunRefines`); for pages above, `map_page`
  writes into the heap (`PagingBoot.EntryInBlock`, `PagingBoot.EntryInHeader`).
- With a full heap `map_page` puts every new table on the page at 0x1000; a second one clears the entries of the first
  (`PagingSteps.FullHeapShares`).
- `kernel_main` passes the size of a pointer as the size of a program: no file with a loadable segment of more than 4
  bytes can be loaded into such a buffer (`Launch.PointerSize`).
- `unmap_page` without a table for the page clears a word of page 0; memory changes exactly when that word has a frame
  or the present bit (`Paging.Pager.UnmapPage`).
- `fat16_open` does not look for conflicts in the root directory (`FatTable.RootOpenExclusive`,
  `FatTable.RunExclusive`, `FatTable.RootOpensCollide`) and returns 0 whichever slot it filled: that is its handle
  exactly when slot 0 was free (`Fat16.Fat16.OpenRoot`, `FatTable.RootOpenNamesOther`).
- Opening a directory does not ask whether the record is one: every record but a volume label will do, so a path may
  lead through a plain file (`FatDirs.DirectoryUnchecked`).
- A listing contains erased records and pieces of long names; a listed name can be looked up exactly when its record is
  in use and the first of that name (`FatListing.ListedFoundExactly`, `FatListing.ListedNotFound`).
- `kernel_main` lists names into 11 bytes, which is room enough exactly for base and extension of at most nine
  characters together (`FatPath.FormatLength`, `FatPath.LongNameFormats`); `FatListing.ListRoot` asks for that.
- An invalid jump instruction is error 0, which `fat16_init` takes for success and then divides by 0; a volume whose
  size is in the 32-bit field only is never mounted (`FatInit.Init`, `FatInit.NoSectors`).
- A root directory that does not fill whole sectors runs into the data region; `fat16_init` does not look
  (`FatInit.MountedSound`, `FatInit.RootRecordsInData`, `FatInit.OneRecordMounted`).
- `memcpy` repeats bytes when the target starts inside the source (`MemOps.MemcpyFaithful`).

## Model

| member | source | states |
|---|---|---|
| HeapLayout.Disjoint | kernel/src/memory/mem_manager.c:128-173 | chunks of a tiled heap lie in order inside it and end before the next one begins |
| HeapLayout.ChunksApart | kernel/src/memory/mem_manager.c:145-173 | payloads of different chunks overlap neither each other nor any header |
| HeapLayout.Conservation | kernel/src/memory/mem_manager.c:128-199 | headers and payloads always add up to the heap |
| HeapLayout.Canonical | kernel/src/memory/mem_manager.c:145-199 | a tiled heap without adjacent free chunks is determined by its live chunks |
| HeapLayout.FirstFit | kernel/src/memory/mem_manager.c:149-154 | the answer is the lowest free chunk larger than the request, or none exists |
| HeapLayout.Granted | kernel/src/memory/mem_manager.c:156-172 | the payload granted has at least n and at most n + 16 bytes and lies inside the chunk it was cut from |
| HeapLayout.MallocTiles | kernel/src/memory/mem_manager.c:156-171 | allocation keeps the tiling and leaves no two adjacent free chunks |
| HeapLayout.MallocLive | kernel/src/memory/mem_manager.c:156-172 | exactly one live chunk is added, in place of the chunk taken; the others are unchanged |
| HeapLayout.FreeShape | kernel/src/memory/mem_manager.c:175-199 | freeing replaces the chunk and its free neighbours by one free chunk between chunks in use |
| HeapLayout.FreeCorrect | kernel/src/memory/mem_manager.c:175-199 | freeing keeps tiling and coalescing and removes exactly the released live chunk |
| HeapLayout.MallocThenFree | kernel/src/memory/mem_manager.c:145-199 | free after malloc restores the previous chunk list, whether or not the chunk was split |
| HeapLayout.NothingLive | kernel/src/memory/mem_manager.c:175-199 | with no live chunk the heap is one free chunk of its size less 16 |
| HeapLayout.FreesCommute | kernel/src/memory/mem_manager.c:175-199 | two frees give the same heap in either order |
| HeapLinks.MarkLinked | kernel/src/memory/mem_manager.c:171-179 | setting a chunk's flag keeps headers and list in step |
| HeapLinks.HeaderWords | kernel/src/memory/mem_manager.c:118-124 | the four words of each header, in the order of the structure: next, previous, 1 for in use, size; ends are null |
| Bytes.LittleEndian | kernel/src/memory/mem_manager.c:118-124 | words are little-endian, byte by byte, when read and when written |
| Bytes.Wraps | kernel/include/common/types.h:11-12 | 16-bit and 32-bit conversions drop multiples of 2^16 and 2^32 |
| HeapLinks.MergeLinked | kernel/src/memory/mem_manager.c:183-196 | the writes of a merge make the headers represent the merged list, links mirrored |
| HeapLinks.SplitLinked | kernel/src/memory/mem_manager.c:158-171 | the writes of a split make the headers represent the list after allocation, links mirrored |
| HeapLinks.LinkedFrame | kernel/src/memory/mem_manager.c:118-124 | headers survive any change of bytes outside them |
| HeapRuns.MallocRefines | kernel/src/memory/mem_manager.c:145-173 | allocation adds one block of at least n and at most n + 16 bytes to the store and keeps the content of all others |
| HeapRuns.MallocOutcome | kernel/src/memory/mem_manager.c:149-154 | malloc returns null if and only if every chunk is in use or not larger than the request; otherwise the address 16 bytes into the first chunk that is free and larger |
| HeapRuns.MallocCuts | kernel/src/memory/mem_manager.c:156-172 | that chunk is taken whole if at most 16 bytes are left over, otherwise cut into n bytes in use and a free rest behind a new header |
| HeapRuns.FreeRefines | kernel/src/memory/mem_manager.c:175-199 | release removes one block from the store and keeps the content of all others |
| HeapRuns.FreeOutcome | kernel/src/memory/mem_manager.c:175-199 | the chunk freed takes in each free neighbour with its 16 header bytes, at the address of the lowest of them |
| HeapRuns.MallocKeeps | kernel/src/memory/mem_manager.c:145-173 | malloc changes no byte outside the heap and none in a block in use |
| HeapRuns.FreeKeeps | kernel/src/memory/mem_manager.c:175-199 | free changes no byte outside the heap and none in a block that stays in use |
| HeapRuns.WriteRefines | kernel/src/memory/mem_manager.c:172 | a write inside a live payload changes that block only and no header |
| HeapRuns.StepRefines | kernel/src/memory/mem_manager.c:145-199 | every step keeps the heap's invariant and does to the store what the event says |
| HeapRuns.RunRefines | kernel/src/memory/mem_manager.c:128-199 | after any run the heap is well formed and each live block holds what its owner last wrote |
| HeapRuns.AllReleased | kernel/src/memory/mem_manager.c:128-199 | when all blocks have been released, in any order, one free chunk is left |
| HeapRuns.HistoryIndependent | kernel/src/memory/mem_manager.c:145-199 | two runs that leave the same blocks live leave the same chunk list |
| Heap.SplitCorrect | kernel/src/memory/mem_manager.c:156-171 | the stores of a split represent the new list and change no byte in use |
| Heap.TakeCorrect | kernel/src/memory/mem_manager.c:171 | the same for a chunk taken whole |
| Heap.MergeCorrect | kernel/src/memory/mem_manager.c:183-196 | the stores of a merge represent the merged list and change no byte in use |
| Heap.AlignedInside | kernel/src/memory/mem_manager.c:201-208 | for every alignment the block delivered lies inside the payload it was cut from, at least 4 bytes behind its start |
| Heap.AlignedRounds | kernel/src/memory/mem_manager.c:201-208 | for a power of two the block lies at the payload address plus alignment plus 3, rounded down |
| Heap.ContainedExactly | kernel/src/memory/mem_manager.c:201-208 | the block fits the bytes asked of malloc if and only if the enlarged request does not wrap 32 bits |
| Masks.MaskedDigits | kernel/src/memory/mem_manager.c:207 | the mask keeps exactly the binary digits that are 0 in the mask operand |
| Masks.MaskRounds | kernel/src/memory/mem_manager.c:207 | for a power of two the mask rounds down to a multiple of it |
| Heap.AlignedExactly | kernel/src/memory/mem_manager.c:201-208 | for every alignment for which an address can be delivered without wrapping: the blocks for all addresses are aligned if and only if the alignment is a power of two |
| Heap.SavedPointerFound | kernel/src/memory/mem_manager.c:201-214 | free_aligned reads the saved pointer if and only if the mask had no digit to remove; for powers of two, if and only if the payload address plus 3 is aligned |
| Heap.SavedPointerLost | kernel/src/memory/mem_manager.c:201-214 | for a page-aligned block at the kernel's first heap payload it does not |
| Heap.FailureAddress | kernel/src/memory/mem_manager.c:201-208 | when malloc fails, the result is never null, and is the alignment if and only if that is a power of two from 4 on |
| Heap.WriteInside | kernel/src/memory/mem_manager.c:172 | filling part of one live block keeps all headers and the blocks named |
| Heap.GrantFilled | kernel/src/memory/mem_manager.c:145-173 | filling the block just granted leaves headers and all other live blocks as malloc left them |
| Heap.Heap.constructor | kernel/src/memory/mem_manager.c:128-143 | one free chunk, or none when the region is too small for a header; only the header is written |
| Heap.Heap.FindFit | kernel/src/memory/mem_manager.c:149-151 | the walk along the links finds the first fit, or null |
| Heap.Heap.Malloc | kernel/src/memory/mem_manager.c:145-173 | null and nothing changed exactly when every chunk is in use or not larger than n; else the payload of the first free larger chunk, the headers follow, no live byte changes |
| Heap.Heap.Split | kernel/src/memory/mem_manager.c:156-169 | the seven stores that link in a new chunk |
| Heap.Heap.JoinPrev | kernel/src/memory/mem_manager.c:181-189 | a free chunk is joined with the free one before it; live chunks and their bytes stay |
| Heap.Heap.JoinNext | kernel/src/memory/mem_manager.c:191-197 | a free chunk is joined with the free one behind it; live chunks and their bytes stay |
| Heap.Heap.Free | kernel/src/memory/mem_manager.c:175-199 | the chunk is released and joined with its free neighbours, no byte of a live chunk changes |
| Heap.Heap.MallocAligned | kernel/src/memory/mem_manager.c:201-208 | the masked address inside the payload of an enlarged request, for every alignment, the payload address saved at alignment - 1 bytes into it, other live bytes unchanged; the masked null on failure |
| Heap.Heap.FreeAligned | kernel/src/memory/mem_manager.c:210-214 | the block is released whose payload address is the word below the pointer |
| BlockBits.SetBit | kernel/src/memory/mem_manager.c:13-16 | setting a bit sets that bit and no other |
| BlockBits.ClearBit | kernel/src/memory/mem_manager.c:18-21 | clearing a bit clears that bit and no other |
| BlockBits.FlagIsBit | kernel/src/memory/mem_manager.c:13-21 | block b is bit b % 32 of word b / 32 |
| BlockBits.MaskIsShift | kernel/src/memory/mem_manager.c:13-21 | bits are counted from the lowest |
| BlockBits.BitOperations | kernel/src/memory/mem_manager.c:13-21 | a bit is tested, set and cleared with its mask |
| BlockBits.FlagsUpdate | kernel/src/memory/mem_manager.c:13-21 | one bit of one word is one flag of the map |
| BlockBits.CountFill | kernel/src/memory/mem_manager.c:58-91 | filling a run changes the number of set bits by what the run held |
| BlockRuns.SearchOutcome | kernel/src/memory/mem_manager.c:23-56 | -1 exactly when there is no free run; otherwise the run lies in the map |
| BlockRuns.BooksAfter | kernel/src/memory/mem_manager.c:67-116 | each block and the 32-bit count after handing over, withdrawing and freeing |
| BlockRuns.AllocRefuses | kernel/src/memory/mem_manager.c:93-98 | a request yields 0 exactly when it is for none, for what the count leaves or more, or for a longer free run than there is |
| BlockRuns.AllocTakes | kernel/src/memory/mem_manager.c:97-107 | otherwise 4096 times the start of the lowest free run; exactly its blocks become used, the count grows by their number |
| BlockRuns.GiveAgrees | kernel/src/memory/mem_manager.c:109-116 | freeing keeps count and map in agreement if and only if all freed blocks were in use and block 0 is not among them |
| BlockRuns.RegionAgrees | kernel/src/memory/mem_manager.c:67-79 | the same condition, exactly, for handing over a region |
| BlockRuns.RegionAtZero | kernel/src/memory/mem_manager.c:67-79 | a region at address 0, of any number of blocks, always breaks the agreement; if all of them were in use the count is one too low |
| BlockRuns.TakeAgrees | kernel/src/memory/mem_manager.c:81-91 | withdrawing blocks keeps the agreement if and only if none was in use |
| BlockRuns.AllocThenFree | kernel/src/memory/mem_manager.c:93-116 | allocation keeps the agreement, is refused exactly when its result is 0, and freeing restores map and count |
| BlockRuns.LastBlocksRefused | kernel/src/memory/mem_manager.c:95 | with only block 0 in use a request for all other blocks is refused although they form a free run |
| BlockRuns.NoBlocksYet | kernel/src/memory/mem_manager.c:93-95 | before init_memory_manager every request yields 0 and changes nothing |
| BlockRuns.StepAgrees | kernel/src/memory/mem_manager.c:58-116 | each step keeps the agreement exactly under its caller's rule; requests need none |
| BlockRuns.RunAgrees | kernel/src/memory/mem_manager.c:58-116 | over a whole run the count equals the set bits throughout if and only if every caller kept the rules |
| Blocks.BlockManager.SetBlock | kernel/src/memory/mem_manager.c:13-16 | exactly one flag of the map becomes set |
| Blocks.BlockManager.UnsetBlock | kernel/src/memory/mem_manager.c:18-21 | exactly one flag of the map becomes clear |
| Blocks.BlockManager.RunIsFree | kernel/src/memory/mem_manager.c:37-49 | the counting loop tells whether n consecutive blocks are clear, across the end of a word |
| Blocks.BlockManager.FindFirstFreeBlocks | kernel/src/memory/mem_manager.c:23-56 | the least start of n clear blocks, -1 exactly when there is none |
| Blocks.BlockManager.GuardedSearch | kernel/src/memory/mem_manager.c:39-41 | with an all-ones word behind the map, the search over the extended map is the search over the map |
| Blocks.BlockManager.constructor | kernel/src/memory/mem_manager.c:58-65 | all blocks in use, count in agreement |
| Blocks.BlockManager.InitMemoryRegion | kernel/src/memory/mem_manager.c:67-79 | the region's blocks become clear, block 0 stays set, the count drops by the region |
| Blocks.BlockManager.DeinitMemoryRegion | kernel/src/memory/mem_manager.c:81-91 | the region's blocks become set, the count grows by the region |
| Blocks.BlockManager.AllocBlocks | kernel/src/memory/mem_manager.c:93-107 | the lowest free run is taken, or nothing changes and the result is 0 |
| Blocks.BlockManager.FreeBlocks | kernel/src/memory/mem_manager.c:109-116 | the run's blocks become clear, the count drops |
| MemOps.Memset | kernel/src/memory/common.c:8-15 | exactly the named bytes become the value |
| MemOps.FilledWith | kernel/src/memory/common.c:8-15 | each byte of the range becomes the value, every other byte stays |
| MemOps.Memmove | kernel/src/memory/common.c:17-32 | the old source arrives at the target, for any overlap |
| MemOps.MovedFrom | kernel/src/memory/common.c:17-33 | where each byte of the target comes from |
| MemOps.Memcpy | kernel/src/memory/common.c:34-43 | which old byte each target byte receives, for any overlap |
| MemOps.MemcpyFaithful | kernel/src/memory/common.c:34-43 | this is a copy of the source if and only if the target does not start inside the source |
| MemOps.Memcmp | kernel/src/memory/common.c:51-62 | 0 exactly for equal bytes, otherwise the difference at the first unequal pair |
| MemOps.CStringUnique | kernel/src/memory/common.c:45-49 | memory holds one string at an address |
| MemOps.Strcmp | kernel/src/memory/common.c:45-49 | 0 exactly for equal strings |
| PageBits.AddressFrame | kernel/include/memory/paging.h:12 | the frame bits of any address are the address rounded down to its page |
| PageBits.HighAddress | kernel/include/memory/paging.h:16 | an address has bit 31, which SET_FRAME keeps, if and only if it lies from 2^31 on |
| PageBits.SetFrameIs | kernel/include/memory/paging.h:16 | SET_FRAME in masks |
| PageBits.FrameBitsIs | kernel/include/memory/paging.h:12 | PAGE_PHYS_ADDRESS in masks |
| PageBits.PresentIs | kernel/src/memory/paging.c:78 | the present bit is the lowest |
| PageBits.MapWordIs | kernel/src/memory/paging.c:93-94 | the entry map_page leaves, in masks: old entry and flags without their frame bits below bit 31, present, and the address |
| PageBits.UnmapWordIs | kernel/src/memory/paging.c:102-103 | the entry unmap_page leaves: bit 31 and the attributes but present |
| PageBits.PointedEntry | kernel/include/memory/paging.h:12-16 | setting attributes and frame, for every address and every old entry: present, old and new flags, and the frame shown is the page of the address if and only if the address has bit 31 or neither entry nor attributes had it |
| PageBits.MappedEntry | kernel/src/memory/paging.c:93-94 | the same for the two stores of map_page; the offset of an address inside a page joins the flags |
| PageBits.ClearedEntry | kernel/src/memory/paging.c:102-103 | clearing frame and present bit leaves an entry that is not present |
| PageBits.UnmapChanges | kernel/src/memory/paging.c:102-103 | unmapping changes an entry if and only if it has a frame below 2^31 or the present bit |
| PageTables.PagingFrame | kernel/src/memory/paging.c:26-36 | memory that agrees on directory and tables has the same entry for every page |
| PageTables.WalkInWords | kernel/include/memory/paging.h:10-12 | the two-level walk in words: directory word v / 1024, page of its upper twenty bits, table word v % 1024 |
| PageTables.EntryIsWord | kernel/include/memory/paging.h:18-19 | entries are little-endian words |
| PageTables.TableWrite | kernel/src/memory/paging.c:89-94 | storing any word in a table changes the entry of that page and of no other |
| PageTables.InstallTable | kernel/src/memory/paging.c:78-87 | a fresh zeroed table changes the entry of no page |
| PageTables.PageZeroWrite | kernel/src/memory/paging.c:99-104 | a write to page 0 changes the entry of no page |
| PagingSteps.HeapKeepsTables | kernel/src/memory/paging.c:80-86 | heap work that leaves the blocks of the tables alone changes the entry of no page |
| PagingSteps.PageFromHeap | kernel/src/memory/paging.c:80-82 | the zeroed page cut from an aligned allocation lies in a block of its own, apart from directory and other tables; no live byte and no entry has changed |
| PagingSteps.TableInstalled | kernel/src/memory/paging.c:80-86 | a new table comes from the lowest free chunk of more than 8195 bytes, on a page boundary, zeroed, and is hung into its slot |
| PagingSteps.TableWordIs | kernel/src/memory/paging.c:85-86 | the slot of a new table in masks |
| PagingSteps.TableAttributes | kernel/src/memory/paging.c:85-86 | the slot of a new table is present and writable on top of the bits it had |
| PagingSteps.MapStoresWord | kernel/src/memory/paging.c:89-94 | with a table in place map_page changes one word, where the walk ends |
| PagingSteps.WalkEndsAt | kernel/src/memory/paging.c:26-36 | where the walk ends, in words of the directory |
| PagingSteps.PutsWord | kernel/src/memory/paging.c:93-94 | an entry is stored as a little-endian word |
| PagingSteps.UnmapStoresWord | kernel/src/memory/paging.c:99-104 | so does unmap_page, with or without a table |
| PagingSteps.TableRefines | kernel/src/memory/paging.c:78-87 | making sure of a table changes no entry, no client block and no byte of any block that was live |
| PagingSteps.FullHeapShares | kernel/src/memory/paging.c:78-87 | with a full heap two slots get the same table at 0x1000, and installing the second one clears every entry in it |
| PagingSteps.MapRefines | kernel/src/memory/paging.c:72-97 | for every physical address and all flags, the stores of map_page set the entry of their page and of no other; heap and tables stay well formed, client blocks keep their bytes |
| PagingSteps.UnmapRefines | kernel/src/memory/paging.c:99-104 | the stores of unmap_page clear the entry of their page and of no other, with or without a table |
| Paging.Pager.NewTable | kernel/src/memory/paging.c:80-82 | a zeroed page inside a block newly granted to the pager; heap, tables and live bytes as before |
| Paging.Pager.EnsureTable | kernel/src/memory/paging.c:78-87 | afterwards the page has a table; nothing changes if it had one; a new one is present and writable; on well-formed tables no entry, no live chunk and no live byte changes |
| Paging.Pager.MapPage | kernel/src/memory/paging.c:72-97 | for every address and all flags: the entry is present, has the old flags and the new ones, and points to the frame asked for if and only if that has bit 31 or neither flags nor entry had it; on well-formed tables the address space changes in this page only, live chunks stay live and client blocks keep their bytes |
| Paging.Pager.UnmapPage | kernel/src/memory/paging.c:99-104 | one word is cleared, in page 0 if there is no table, and memory changes if and only if the word had a frame below 2^31 or the present bit; on well-formed tables the address space loses exactly that page |
| Paging.FirstPaging | kernel/src/memory/paging.c:108-128 | for any two pages the fill loops give well-formed tables if and only if they are different, neither is page 0 and neither lies in the heap |
| Paging.FirstWords | kernel/src/memory/paging.c:108-128 | slot 0 of the directory is present, writable and points to the table, every other slot is 2, every entry of the table is present, writable and for its own page; with both in one page slot 0 is present and writable |
| Paging.IdentityLeaves | kernel/src/memory/paging.c:115-128 | on two different pages exactly the first 1024 pages have an entry, each for itself |
| Paging.BootAtZero | kernel/src/kernel.c:74-86 | with both at address 0, as the kernel starts, every slot has a table, that of slot i in page i, the upper half of them in the heap; the first 1024 pages are mapped to themselves |
| Paging.PagingEnable | kernel/src/memory/paging.c:106-129 | for any two pages, the words the fill loops store; the result is a well-formed pager if and only if the pages can start one, and then maps exactly the first 1024 pages, each to itself, and leaves the live blocks alone |
| PagingRuns.StepRefines | kernel/src/memory/paging.c:26-104 | each step of pager or heap keeps both well formed and does to entries and client blocks what its event says |
| PagingRuns.RunRefines | kernel/src/memory/paging.c:26-104 | after any run of map_page, unmap_page, malloc, free and writes the entry of each page is what the events about it make of it, and each client block holds what its owner last wrote |
| PagingRuns.TopStays | kernel/include/memory/paging.h:16 | after any events an entry has bit 31 if and only if it had it at the start or some mapping brought it, with address or flags |
| PagingRuns.RunTranslates | kernel/src/memory/paging.c:26-104 | each page is translated as the last event about it says: not at all after unmap_page; after map_page present, with its flags, and to the frame asked for if and only if that lies from 2^31 on or bit 31 never came into the entry; as at the start without event |
| PagingRuns.TopLeftBehind | kernel/src/memory/paging.c:93-103 | mapping 0xFEBF1000, unmapping it and mapping 0x5000 in its place leaves an entry for 0x80005000 |
| PagingSelf.ItselfExactly | kernel/src/memory/paging.c:72-104 | after a run a page is mapped to itself if and only if it was and no event was about it, or the last one was a mapping that put it there |
| PagingSelf.StaysSelfMapped | kernel/src/memory/paging.c:72-130 | along every run that leaves page 0, directory, tables and heap alone, these stay mapped to themselves, tables installed on the way included |
| PagingSelf.StartsSelfMapped | kernel/src/memory/paging.c:106-130 | the first tables map all of these to themselves if they lie in the first 4 MiB |
| PagingBoot.FlatStore | kernel/src/memory/paging.c:72-97 | with directory and first table in page 0 a new entry changes the entry of its page and of no other, and keeps the tables in place if and only if the page is none of the first 1024 or stays mapped to itself |
| PagingBoot.BootIsBooted | kernel/src/kernel.c:74-86 | what the kernel starts with is such a directory, next to an unchanged heap |
| PagingBoot.MapStores | kernel/src/memory/paging.c:72-97 | there map_page installs no table and stores one word, at four times the page number |
| PagingBoot.BootRunRefines | kernel/src/memory/paging.c:72-104 | along every run that maps and unmaps pages from 4 MiB on with entries outside the heap, the heap stays well formed, client blocks hold what their owners wrote and every entry outside the heap is what the events about its page make of it |
| PagingBoot.BootRunTranslates | kernel/src/memory/paging.c:72-104 | the translation after such a run, with the same condition on bit 31; no event is about the first 4 MiB, so tables and heap stay mapped to themselves |
| PagingBoot.FairExactly | kernel/src/kernel.c:74 | with the kernel's heap these pages are exactly those from 4 MiB to 2 GiB |
| PagingBoot.EntryInBlock | kernel/src/memory/paging.c:89-94 | mapping a page whose entry lies in a live block replaces four bytes of that block by the entry |
| PagingBoot.EntryInHeader | kernel/src/memory/paging.c:89-94 | mapping 0x80000000 keeps the heap's headers in step with its chunks if and only if the entry equals the link to the second chunk; never with one chunk |
| Patches.LastWins | kernel/src/exec/elf/elf_loader.c:100-129 | a byte under several writes is the one of the last write that covers it |
| SymTable.ResolveIsFirst | kernel/src/exec/elf/symtable.c:51-62 | the address is that of the first entry of the name, 0 if there is none |
| SymTable.ResolveAfterRegister | kernel/src/exec/elf/symtable.c:44-62 | registering matters for a name not yet registered and for no other |
| SymTable.SymbolTable.RegisterSymbol | kernel/src/exec/elf/symtable.c:44-49 | the symbol is appended |
| SymTable.SymbolTable.ResolveSymbol | kernel/src/exec/elf/symtable.c:51-62 | the search loop resolves the C string at the address given |
| ElfFormat.FindSection | kernel/src/exec/elf/elf_loader.c:25-51 | the first section of a type, or none of that type exists |
| ElfFormat.SegmentsLast | kernel/src/exec/elf/elf_loader.c:100-115 | the last write to cover an address is that of the last loadable segment to cover it |
| ElfFormat.SlotMember | kernel/src/exec/elf/elf_loader.c:11-22 | the words written are those of the file's R_386_JMP_SLOT relocations, all of them and no others |
| ElfFormat.ImageOutsideSlots | kernel/src/exec/elf/elf_loader.c:96-115 | outside jump slots each byte comes from the last loadable segment that covers it, or is 0 |
| ElfFormat.ImageAtSlot | kernel/src/exec/elf/elf_loader.c:7-23 | a jump slot apart from the others holds the first registered address of its symbol, or 0 |
| ElfLoader.FindTable | kernel/src/exec/elf/elf_loader.c:25-51 | the search loop finds the first section of the type in memory |
| ElfLoader.EntryIsFirst | kernel/src/exec/elf/elf_loader.c:53-67 | the entry is the address of the first symbol of the name, null if there is none |
| ElfLoader.FindSym | kernel/src/exec/elf/elf_loader.c:53-67 | the search loop over the symbol table in memory finds that entry |
| ElfLoader.LoadSegments | kernel/src/exec/elf/elf_loader.c:98-115 | the loop lays the loadable segments over the buffer in order and touches nothing else |
| ElfLoader.Relocate | kernel/src/exec/elf/elf_loader.c:7-23 | one section's jump slots are patched in order, other relocations are left alone |
| ElfLoader.RelocateAll | kernel/src/exec/elf/elf_loader.c:117-129 | the jump slots of all relocation sections are patched in order |
| ElfLoader.IsElfImage | kernel/src/exec/elf/elf.c:3-9 | true exactly for the four magic bytes |
| ElfLoader.BuildImage | kernel/src/exec/elf/elf_loader.c:96-132 | memory changes in the buffer only, which then holds the image |
| ElfLoader.ImageLoad | kernel/src/exec/elf/elf_loader.c:69-148 | null without any change for a wrong magic or a full heap; else a fresh heap block holds the image, the file and all live blocks are intact, and the entry is that of `main` |
| ElfLayout.FileHeader | kernel/include/exec/elf/elf.h:31-47 | the fields of the file header the loader reads, in their place among all of them |
| ElfLayout.ProgramHeaderFields | kernel/include/exec/elf/elf.h:62-71 | a program header is eight words; the loader reads type, offset, address and size in the file |
| ElfLayout.SectionHeaderFields | kernel/include/exec/elf/elf.h:49-60 | a section header is ten words; the loader reads type, offset, size and link |
| ElfLayout.RelocationFields | kernel/include/exec/elf/elf.h:82-85 | a relocation is a place and a word with the symbol above eight bits of type |
| ElfLayout.ImageOfHeaders | kernel/src/exec/elf/elf_loader.c:96-115 | outside jump slots each byte of the image is byte a - p_vaddr of the last segment of type 1 with p_filesz bytes there; behind p_filesz, where no other segment has file bytes, it is 0 |
| ElfLayout.SlotMeans | kernel/src/exec/elf/elf_loader.c:7-22 | the jump slots are the relocations of type 7 in sections of type 9 |
| ElfLayout.SlotHolds | kernel/src/exec/elf/elf_loader.c:7-22 | a lone one holds the address registered for the name of its symbol in the first section of type 11 |
| ElfLayout.EntryOfMain | kernel/src/exec/elf/elf_loader.c:53-67 | the entry point is the value of the first symbol called main in the first section of type 2, from the start of the image |
| ElfLayout.WellFormedWhen | kernel/src/exec/elf/elf_loader.c:98-129 | with tables, names and slots in place, a file can be loaded if and only if every segment of type 1 lies inside file and image |
| ElfLayout.MagicMeans | kernel/src/exec/elf/elf.c:3-9 | the four bytes 7F 45 4C 46 |
| Launch.FromBlock | kernel/src/kernel.c:120-121 | image_load and free: the file's block is gone, a new block starts with the image, and every other block holds what it held; null leaves the very same chunks as before the file was read |
| Launch.LoadProgram | kernel/src/kernel.c:114-121 | from the path to the entry point: the heap gains exactly one block, which starts with the image of the file that the path names, or stays as it was |
| Launch.PointerSize | kernel/src/kernel.c:120 | with the size of a pointer no file with a loadable segment of more than 4 bytes meets what the loader takes for granted, and one that ends behind byte 20 is written past its block |
| FatDisk.Device.Read | kernel/src/fs/fat16/fat16.c:478-517 | for every pointer and length the buffer receives the device's bytes from the pointer on, and the pointer advances by the length |
| FatDisk.DeviceByte | kernel/src/fs/fat16/fat16.c:478-517 | byte p of the device is byte 51200 + p of the disk |
| FatDisk.DeviceReadsAgree | kernel/src/fs/fat16/fat16.c:478-517 | two reads in a row leave the same pointer as one; the same bytes if the pointer does not wrap in between, and otherwise if and only if the start of the device holds what lies behind its end |
| FatDisk.Device.ReadPart | kernel/src/fs/fat16/fat16.c:489-497 | part of a sector by way of a sector buffer |
| FatDisk.Device.Seek | kernel/src/fs/fat16/fat16.c:529-533 | the pointer is the offset |
| FatVolume.DataPosFits | kernel/src/fs/fat16/fat16_priv.c:91-106 | the address arithmetic for a data cluster stays below 2^32 |
| FatVolume.NextInBytes | kernel/src/fs/fat16/fat16_priv.c:79-89 | the FAT entry of cluster c is the little-endian half-word number c behind the start of the FAT |
| FatVolume.ClusterByte | kernel/src/fs/fat16/fat16_priv.c:91-106 | cluster 2 is the first of the data region |
| FatVolume.EndsMeans | kernel/src/fs/fat16/fat16_subdir.c:10-18 | a chain ends where the FAT entry is 0xFFF8 or more, and nowhere before |
| FatVolume.ClustersDisjoint | kernel/src/fs/fat16/fat16_priv.c:91-106 | different clusters occupy different bytes of the data region, behind a root directory that fits |
| FatVolume.ChainUnique | kernel/src/fs/fat16/fat16_priv.c:12-18 | a chain that ends is the only one from its first cluster |
| FatVolume.ChainPiece | kernel/src/fs/fat16/fat16_priv.c:28-64 | a piece of the concatenated clusters is the same piece of one cluster on the device |
| FatStream.ReadsCompose | kernel/src/fs/fat16/fat16_priv.c:20-65 | the bytes of n and then m are those of n + m, and the positions agree |
| FatStream.ContentByte | kernel/src/fs/fat16/fat16_priv.c:20-65 | each byte of a file on the disk: its cluster in the chain and its place there |
| FatStream.AtStep | kernel/src/fs/fat16/fat16_priv.c:36-57 | how cluster and offset move with the position, over cluster ends and at the end of the file |
| FatReader.ReadsAgree | kernel/src/fs/fat16/fat16_priv.c:20-65 | two calls in a row leave the same bytes in memory, the same total and the same handle as one call for both lengths |
| FatReader.Volume.MoveToRootDirectoryRegion | kernel/src/fs/fat16/fat16_priv.c:67-77 | the device stands at the record, without overflow |
| FatReader.Volume.MoveToFatRegion | kernel/src/fs/fat16/fat16_priv.c:79-89 | the device stands at the FAT entry, without overflow |
| FatReader.Volume.MoveToDataRegion | kernel/src/fs/fat16/fat16_priv.c:91-106 | the device stands at the byte of the cluster, the scalings in 32 bits notwithstanding |
| FatReader.Volume.GetNextCluster | kernel/src/fs/fat16/fat16_priv.c:12-18 | the two bytes of the disk at twice the cluster number behind the start of the FAT |
| FatReader.Volume.ReadFromHandle | kernel/src/fs/fat16/fat16_priv.c:20-65 | exactly the next min(count, remaining) bytes of the file's clusters arrive, that number is returned and the handle stands behind them |
| FatReader.Volume.ReadChunk | kernel/src/fs/fat16/fat16_priv.c:30-62 | one round of the loop advances the handle along the chain |
| FatRecords.FoundUnique | kernel/src/fs/fat16/fat16_subdir.c:30-60 | a search has one answer |
| FatRecords.ParseLayout | kernel/include/fs/fat16/fat16_priv.h:44-53 | name, attribute, first cluster and size come back from a record laid out in the order of the structure |
| FatRecords.FoundMeans | kernel/src/fs/fat16/fat16_rootdir.c:11-33 | a search finds the first record with these 11 bytes that is not erased and no piece of a long name, before any record that starts with 0 |
| FatRecords.NotFoundMeans | kernel/src/fs/fat16/fat16_rootdir.c:11-33 | it fails when there is none before the first record that starts with 0 |
| FatRecords.SubRecordAt | kernel/src/fs/fat16/fat16_subdir.c:10-28 | a record of the concatenated clusters is the record at its place on the device |
| FatDirs.ReadEntryFromSubdir | kernel/src/fs/fat16/fat16_subdir.c:10-28 | the next record of the chain, -1 exactly at the end of the chain |
| FatDirs.FindEntryInSubdir | kernel/src/fs/fat16/fat16_subdir.c:30-60 | the first live record of the name before the first terminator, with its position on the device, or -1 exactly when there is none; the handle is back at the start |
| FatDirs.FindRootDirectoryEntry | kernel/src/fs/fat16/fat16_rootdir.c:11-33 | the first live record of the name before the first terminator, or -1 exactly when there is none |
| FatDirs.DirectoryUnchecked | kernel/src/fs/fat16/fat16_rootdir.c:46-48 | opening as a directory admits every record that is no volume label, a plain file included |
| FatDirs.AdmitsMeans | kernel/src/fs/fat16/fat16_rootdir.c:46-48 | attribute bit 8 refuses, bit 16 refuses for files, bit 1 refuses for other modes than reading |
| FatDirs.OpenedFields | kernel/src/fs/fat16/fat16_rootdir.c:50-75 | mode, position, cluster, offset and remaining bytes of an opened handle, for each mode |
| FatDirs.RecordPosition | kernel/src/fs/fat16/fat16_subdir.c:52-56 | the position of a record on the device |
| FatDirs.AppendOffsetExact | kernel/src/fs/fat16/fat16_rootdir.c:52-67 | the append offset is the one meant if and only if the size reaches into the last cluster and fits 16 bits |
| FatDirs.AppendAtEnd | kernel/src/fs/fat16/fat16_rootdir.c:52-67 | for a size that matches the chain, appending starts at the end of the file inside the last cluster |
| FatDirs.SeekEnd | kernel/src/fs/fat16/fat16_subdir.c:75-88 | the walk ends on the chain's last cluster with that offset |
| FatDirs.OpenEntryInRoot | kernel/src/fs/fat16/fat16_rootdir.c:35-78 | succeeds exactly for a found and admitted record; the handle stands at its first byte, or at its end for appending |
| FatDirs.OpenEntryInSubdir | kernel/src/fs/fat16/fat16_subdir.c:62-99 | the same in a directory; refused, the handle stays at the directory's start |
| FatDirs.RootDirectoryEntrySize | kernel/src/fs/fat16/fat16_rootdir.c:90-102 | the size in the found record, -1 exactly when there is none |
| FatDirs.SubdirEntrySize | kernel/src/fs/fat16/fat16_subdir.c:111-119 | the size in the found record, 0 when there is none |
| FatListing.LsInRoot | kernel/src/fs/fat16/fat16_rootdir.c:104-123 | 1 for a record before the end, 0 at a terminator or the last index, -1 beyond |
| FatListing.LsInSubdir | kernel/src/fs/fat16/fat16_subdir.c:121-141 | 1 for the record of that index, 0 at a terminator, -1 behind the chain |
| FatListing.ListRoot | kernel/src/kernel.c:106-112 | if every listed name fits the 11-byte buffer, the loop prints the names of all records before the first terminator, in order |
| FatListing.FoundIsListed | kernel/src/fs/fat16/fat16_rootdir.c:11-33 | what a lookup finds is in the listing, at its record's place |
| FatListing.ListedIsFound | kernel/src/fs/fat16/fat16.c:407-443 | the listed name of a record in use parses back and finds the first record in use of that name |
| FatListing.ListedFoundExactly | kernel/src/fs/fat16/fat16_rootdir.c:11-33 | a listed record is what a lookup of its name finds if and only if it is in use and no record in use before it has the name |
| FatListing.ListedNotFound | kernel/src/fs/fat16/fat16_rootdir.c:104-123 | an erased record or a piece of a long name is listed and cannot be looked up |
| FatPath.ToShortFilename | kernel/src/fs/fat16/fat16_path.c:9-58 | accepts exactly names of up to 8 and 3 valid characters and gives their 11 padded bytes |
| FatPath.ShortNameMeans | kernel/src/fs/fat16/fat16_path.c:9-58 | a dotted name of capital letters and digits: eight bytes and three, filled with spaces |
| FatPath.PlainNameMeans | kernel/src/fs/fat16/fat16_path.c:16-24 | the same without a dot |
| FatPath.ShortNameOnly | kernel/src/fs/fat16/fat16_path.c:9-58 | nothing else is accepted, but for a slash in front |
| FatPath.FormatMeans | kernel/src/fs/fat16/fat16.c:424-442 | a listed name is the bytes before the first space of the eight, a dot, and those of the three |
| FatPath.FormatDots | kernel/src/fs/fat16/fat16.c:410-422 | the records for the directory itself and the one above |
| FatPath.FormatShortName | kernel/src/fs/fat16/fat16.c:424-442 | formatting the 11 bytes gives back the name, with a dot added if it had none |
| FatPath.ReparseFormatted | kernel/src/fs/fat16/fat16.c:424-442 | the formatted name parses to the same 11 bytes |
| FatPath.FormatName | kernel/src/fs/fat16/fat16.c:407-443 | the loops write the formatted name and its terminator, and nothing behind it |
| FatPath.FormatLength | kernel/src/kernel.c:106-108 | the formatted name fits 11 bytes if and only if base and extension have at most nine characters together |
| FatPath.LongNameFormats | kernel/src/kernel.c:106-108 | a record with eight and three characters needs 13 bytes |
| FatPath.GetSubdir | kernel/src/fs/fat16/fat16_path.c:60-84 | the component at the index if another one follows, otherwise -1 or -2 |
| FatPath.IsInRoot | kernel/src/fs/fat16/fat16_path.c:86-92 | true exactly for paths without a second component |
| FatTable.RootOpenExclusive | kernel/src/fs/fat16/fat16.c:258-279 | a root open keeps entries exclusive if and only if the skipped scan would have found nothing |
| FatTable.StepExclusive | kernel/src/fs/fat16/fat16.c:222-370 | a call keeps entries exclusive if and only if it is no root open that meets a conflict |
| FatTable.RunExclusive | kernel/src/fs/fat16/fat16.c:222-370 | along any run, root opens included, handles on one entry are all for reading throughout if and only if no root open met a conflict |
| FatTable.RootOpensCollide | kernel/src/fs/fat16/fat16.c:258-279 | on sixteen closed handles two root opens of one file for writing are both granted |
| FatTable.RootOpenNamesOther | kernel/src/fs/fat16/fat16.c:258-279 | after opens of two root files the returned 0 is the handle of the first file |
| Fat16.ShortNameIsLast | kernel/src/fs/fat16/fat16_priv.c:121-130 | a valid short name has no further slash, so the loop over components ends after the third |
| Fat16.PathMeans | kernel/src/fs/fat16/fat16_priv.c:108-130 | a path of two components names a directory and a file in it |
| Fat16.LongPathMeans | kernel/src/fs/fat16/fat16_priv.c:121-130 | of three components the first is the directory and the third the name |
| Fat16.PathInRoot | kernel/src/fs/fat16/fat16_path.c:86-92 | a path of one component is looked up in the root directory |
| Fat16.NavigateToSubdir | kernel/src/fs/fat16/fat16_priv.c:108-132 | succeeds exactly when the first component opens as a directory and the last one is a short name; for two components the handle is at the directory's start; for three the third has been tried as a directory in the first |
| Fat16.Descend | kernel/src/fs/fat16/fat16_priv.c:121-130 | the loop leaves the name behind the last of at most three components, and the handle on the first, or on what the third names in it if that opens as a directory |
| Fat16.NoTarget | kernel/src/fs/fat16/fat16.c:280-296 | when one of the searches fails, the path leads to no file at all |
| Fat16.FileByteAt | kernel/src/fs/fat16/fat16_priv.c:20-65 | the place on the disk of each byte of the file a record names |
| Fat16.Fat16.constructor | kernel/src/fs/fat16/fat16.c:217 | all handles closed |
| Fat16.Fat16.FindAvailableHandle | kernel/src/fs/fat16/fat16.c:222-235 | the first closed slot, 255 exactly when all are open |
| Fat16.Fat16.CheckHandle | kernel/src/fs/fat16/fat16.c:237-243 | true exactly for open slots |
| Fat16.Fat16.Close | kernel/src/fs/fat16/fat16.c:346-355 | one open slot becomes closed, or -1 and no change |
| Fat16.Fat16.Read | kernel/src/fs/fat16/fat16.c:357-370 | -1 for closed slots and null buffers; else the next bytes of the file, the table unchanged |
| Fat16.Fat16.Lookup | kernel/src/fs/fat16/fat16.c:282-295 | a fresh handle on the record the path leads to; refused exactly when the path leads to none |
| Fat16.Fat16.ScanForConflict | kernel/src/fs/fat16/fat16.c:300-313 | true exactly when another of the sixteen handles is open on the record and not both are for reading |
| Fat16.Fat16.OpenBelow | kernel/src/fs/fat16/fat16.c:280-316 | the first free slot is opened on the record, closed again exactly on a conflict; other slots unchanged |
| Fat16.Fat16.OpenRoot | kernel/src/fs/fat16/fat16.c:258-279 | the first free slot is opened without a scan; the result 0 is its handle if and only if slot 0 was free, and otherwise names the file that was open there; on failure the open files are unchanged |
| Fat16.Fat16.Open | kernel/src/fs/fat16/fat16.c:245-316 | fails exactly when the mode is unknown, no record fits or a conflict exists; every call is one step of the table |
| Fat16.Fat16.Size | kernel/src/fs/fat16/fat16.c:318-344 | the size in the record the path names, -1 or 0 exactly when it names none; the open files are unchanged |
| Fat16.Fat16.OpenReadable | kernel/src/fs/fat16/fat16.c:245-316 | a file open nowhere for writing opens for reading, at its first byte |
| Fat16.Fat16.OpenAndRead | kernel/src/fs/fat16/fat16.c:245-370 | opening `/DIR/FILE` and reading n bytes yields the first min(n, size) bytes of the file's chain |
| FatFiles.RunDelivers | kernel/src/fs/fat16/fat16.c:245-370 | over any run of opens, reads, sizes and closes a handle has delivered the beginning of its own file, as much as was asked for or all of it, whatever other handles did |
| FatFiles.WholeFile | kernel/src/fs/fat16/fat16.c:245-370 | the pieces put together are the whole file if and only if that much was asked for |
| FatFiles.OpenFor | kernel/src/fs/fat16/fat16.c:245-316 | an open for reading is such an event: one file more, undelivered, the others where they were |
| FatFiles.OpenRootFor | kernel/src/fs/fat16/fat16.c:258-279 | in the root directory, too; the file is that of the slot filled |
| FatFiles.NextPiece | kernel/src/fs/fat16/fat16.c:357-370 | a read delivers the next piece of its handle's file to the buffer, the others stay where they were |
| FatFiles.CloseFile | kernel/src/fs/fat16/fat16.c:346-355 | a close takes one file away |
| FatFiles.OpenElsewhere | kernel/src/fs/fat16/fat16.c:245-316 | every other open, refused or not, leaves all files where they were |
| FatFiles.SizeElsewhere | kernel/src/fs/fat16/fat16.c:318-344 | so does a size query |
| FatFiles.ReadElsewhere | kernel/src/fs/fat16/fat16.c:357-370 | so does a read from a closed handle or one with nothing left, which delivers nothing |
| FatLoad.LoadFile | kernel/src/kernel.c:114-117 | open, size, malloc, read: a block of the heap holds exactly the file and no other block changes; without room the read of the null buffer is refused and the heap is unchanged |
| FatInit.ReadBpb | kernel/src/fs/fat16/fat16.c:22-161 | the fields at their places in the boot sector, and which error each bad sector gives |
| FatInit.BootBytes | kernel/src/fs/fat16/fat16.c:22-161 | the place of each field in the boot sector |
| FatInit.ByteIs | kernel/src/fs/fat16/fat16.c:478-523 | a byte of the boot sector on the disk |
| FatInit.HalfIs | kernel/src/fs/fat16/fat16.c:478-517 | a half-word of it |
| FatInit.LongIs | kernel/src/fs/fat16/fat16.c:478-517 | a word of it |
| FatInit.CodeMeans | kernel/src/fs/fat16/fat16.c:22-161 | which boot sectors give the errors 1, 2 and 5 |
| FatInit.WrapRejected | kernel/src/fs/fat16/fat16.c:182-187 | a subtraction that wraps gives a cluster count that is rejected |
| FatInit.NoSectors | kernel/src/fs/fat16/fat16.c:126-129 | a volume sized by the 32-bit field only has a cluster count that is rejected |
| FatInit.Init | kernel/src/fs/fat16/fat16.c:163-220 | mounts exactly the volumes whose regions and 4085 to 65524 clusters fit their sectors, with the layout in plain numbers; faults exactly on an invalid jump |
| FatInit.AcceptableMeans | kernel/src/fs/fat16/fat16.c:163-187 | the volumes that are mounted, in the numbers of the boot sector |
| FatInit.LayoutNumbers | kernel/src/fs/fat16/fat16.c:182-197 | start of FAT, root directory and clusters, their number and size, in the numbers of the boot sector |
| FatInit.MountedNext | kernel/src/fs/fat16/fat16_priv.c:12-18 | on a mounted volume the FAT entry of a cluster is two bytes at 512 times the reserved sectors plus twice its number |
| FatInit.MountedData | kernel/src/fs/fat16/fat16_priv.c:91-106 | where the bytes of each cluster are on the disk |
| FatInit.MountedRecord | kernel/src/fs/fat16/fat16_priv.c:67-77 | where each root record is on the disk |
| FatInit.Regions | kernel/src/fs/fat16/fat16.c:189-197 | the 32-bit products and sums of the layout do not wrap |
| FatInit.RegionsInVolume | kernel/src/fs/fat16/fat16.c:175-197 | on a mounted volume FAT, root and data regions are in order, end within its sectors, and clusters have at most 8192 bytes |
| FatInit.MountedSound | kernel/src/fs/fat16/fat16.c:175-197 | every mounted volume has positions below 2^32 and regions in order; the root directory keeps clear of the data region if and only if it fills whole sectors |
| FatInit.RootRecordsInData | kernel/src/fs/fat16/fat16.c:175-197 | exactly the records behind the last full sector lie in the data region |
| FatInit.OneRecordMounted | kernel/src/fs/fat16/fat16.c:175-197 | a volume with one root record is mounted, and the record is the start of its first cluster |
| FatInit.MountedClusters | kernel/src/fs/fat16/fat16_priv.c:91-106 | on every mounted volume different clusters occupy different bytes of the data region, within the sectors announced |
| FatInit.Mount | kernel/src/fs/fat16/fat16.c:163-220 | exactly for acceptable boot sectors: a volume that every operation above can work with, all handles closed |
| FatInit.EntriesInFat | kernel/src/fs/fat16/fat16_priv.c:79-89 | with a large enough FAT every data cluster's entry lies in the first FAT |
| FatExample.Numbers | kernel/src/fs/fat16/fat16.c:163-220 | a volume of 20000 sectors, byte by byte, is mounted with 4989 clusters of 2048 bytes |
| FatExample.ListExample | kernel/src/fs/fat16/fat16_rootdir.c:104-123 | its root directory lists one name |
| FatExample.ReadExample | kernel/src/fs/fat16/fat16.c:163-370 | mounting it, opening its file by path and reading n bytes yields the first min(n, 3000) bytes, across the end of a cluster |

## Left out

- Blocks.BlockManager.FindFirstFreeBlocks: requests above 33 blocks, where the shift exceeds the word, and maps without an all-ones word behind them or with a number of blocks not divisible by 32, because the code reads past the map there.
- Blocks.BlockManager.InitMemoryRegion: regions that reach past the map, where the code writes behind it; the same for Blocks.BlockManager.DeinitMemoryRegion.
- Heap.Heap.MallocAligned: enlarged requests that wrap 32 bits, where the block would not fit (Heap.ContainedExactly); when `malloc` fails, a word saved inside the heap.
- Heap.Heap.Free: pointers that are not the payload of a live chunk, for which the code promises nothing.
- ElfLoader.ImageLoad: files with segments, relocations or names outside the buffer or the file and files without a dynamic or a static symbol table, none of which the loader checks; files outside a live heap block, where the buffer might overlap them.
- Launch.LoadProgram: a heap without room for the file, where the kernel hands the null pointer to `image_load` and to `free`; the size is a parameter.
- Paging.Pager.MapPage: a page without a table when the heap is full or the tables are not well formed; PagingSteps.FullHeapShares says what a full heap leads to.
- PagingRuns.RunRefines: accesses of the pager through pages mapped elsewhere; PagingSelf.StaysSelfMapped gives the condition under which there are none.
- PagingBoot.BootRunRefines: entries inside the heap after other work of the heap, which are whatever the heap left there.
- Fat16.Fat16.Open: a full handle table, where the code indexes past it, paths of more than two components, for which Fat16.NavigateToSubdir says where the lookup goes on, and components longer than the 13-byte buffer.
- FatDirs.OpenEntryInRoot: what a failed open leaves in a closed handle besides its mode.
- Fat16.Fat16.Size: a full handle table and paths of more than two components, as for opening.
- FatPath.GetSubdir: components longer than the caller's buffer of 13 bytes; the same for FatPath.IsInRoot.
- SymTable.SymbolTable.RegisterSymbol: a 257th symbol, which the code would write behind its table.
- FatListing.ListRoot: names that do not fit the kernel's 11 bytes; the bytes behind the buffer are not modelled.
- FatInit.MountedSound: volumes that start less than 34 MiB below 2^32.
- FatReader.Volume.ReadFromHandle: clusters above 32768 bytes, whose offset would not fit 16 bits; `FatInit.RegionsInVolume` shows that no such volume is mounted.
- FatInit.ReadBpb: volume id, label and file system type are skipped, not kept; boot sectors that cross 2^32.
- Null names and paths; the check that `fat16_ls` makes of the first character of a path.
- `fat16_ls` below the root is modelled by `FatListing.LsInSubdir` on an open directory, without the path lookup in front of it.
- `_write` and all writing to files: the functions are stubs.
- Sector transfer by ATA and AHCI, PCI, keyboard, timer and interrupt controller: hardware.
- `alloc_page`, `free_page`, `get_pt_entry` and `get_pd_entry`: single-branch helpers that nothing calls.
- Loading CR3 and CR0, TLB flushes, page faults, GDT, IDT, user mode and linker scripts: machine-level effects.
- Screen output, driver table, file descriptors and system calls: user interface and dispatch.
- `elf_so.c`: repeats the symbol search with fixed sizes.
- The copies of the FAT16 reader in the boot loader: the same code again.
- `init_symtable`: a list of constants.
