# Verified model of the adaOS kernel core

This project models the parts of the kernel that other parts have to trust, and proves what they promise:
the kernel heap, the 4-level page tables, the address space that boot builds, the physical page allocator, the
boot memory map, the clock's calendar arithmetic and timestamp text, the printf engine, and the Mersenne Twister.

`dafny verify dfyconfig.toml` checks everything.

## How it is built

Code that works by changing things in place is imperative here too, and proved against specifications on values.

* **Heap** (`HeapBlocks`, `HeapRuns`, `HeapList`, `HeapSurgery`, `HeapGrowth`, `KernelHeap`). `KHeap` holds the bytes
  of the heap. Headers and free-list links are 64-bit little-endian words inside those bytes, and every list operation
  is a sequence of word writes. Ghost `blocks` is the tiling that the bytes encode: free and live blocks in address order.
  Each method ties the new tiling to a function of the old one (`Carve`, `Release`, `Extend`), and says which payloads
  it keeps. `HeapRuns` proves what whole runs of these functions keep. The key fact is that the live blocks determine the
  tiling, so the free list carries no history: defragmentation, order independence and exact inverses follow from it.
* **Page tables** (`PageTable`, `PageTree`, `PageCanon`, `PageRuns`, `Vmm`). `PageMap` holds physical memory as one array
  of 64-bit words per frame. Ghost `tables` records which frames are tables and where each one hangs. The tree shape
  (every entry zero or present, every table pointed at by exactly one entry) is what makes `map_page` and `unmap_page`
  refine an update of an abstract map from pages to entries. `PageCanon` proves that a tree without superfluous empty
  tables is determined by what it translates, which gives the exact inverse of map and unmap.
* **Address space** (`MemMap`, `AddressSpace`). The boot map is reduced to chunks, proved to be the maximal runs of usable
  memory. `setup_vmm` is proved to build exactly one layout, from which the rights of every kernel page and the place of
  every page of free memory follow.
* **Physical pages** (`PhysPages`). The bitmap with its wrapping 64-bit counters, and the segment table searched from
  where the last search stopped.
* **Clock** (`Calendar`, `Timestamp`, `Clock`). The reference is a calendar that steps from one day to the next. Both date
  algorithms of the code are proved against it, and thereby against each other.
* **Printf** (`PrintfSpec`, `FormatSpec`, `Printf`). `Render` says what a format and its arguments print without any bound.
  The interpreter, with its 32-character reversed number buffer and its bounded sink, is proved to show a prefix of it.
* **Mersenne Twister** (`Random`). The circular buffer is proved to hold the last 624 terms of the unbounded recurrence.

Where the code falls short of what its callers expect, the exact condition is proved: `FormattedFields` (dates before
1970), `YearReadRight` (years ending in 00 to 09), `RightByte`
(registers that are not decimal), `TotalHoldsRequest` (requests near 2^64), `FieldLength` (zero padding
beyond 32), `SignFitsIs` (signs that a full number buffer loses), `DigitsParse` (numbers of more than 32 digits), `PpAllocAt` (pages that no segment holds are lost),
`StampLength` (years beyond 9999 do not fit the 25-byte buffer).

Calls that end in a panic are results of their own (`Halted`, `Panic`, `false`), since the kernel never returns from one.

## Model

| member | source | states |
|---|---|---|
| HeapBlocks.LiveDetermines | kernel/src/memory/heap.c:57-83 | two well-formed heaps over one region with the same live blocks are the same heap, block for block: the free list carries no history |
| HeapBlocks.BytesConserved | kernel/src/memory/heap.c:25-27 | free bytes and live bytes add up to the heap |
| HeapBlocks.TotalHoldsRequest | kernel/src/memory/heap.c:101-106 | the bytes taken for a request hold header and payload if and only if the size arithmetic does not wrap, and then waste less than 16 |
| HeapBlocks.MulOverflows | kernel/src/memory/heap.c:211-214 | the overflow test of kcalloc refuses exactly the products that do not fit a word |
| HeapBlocks.FirstFit | kernel/src/memory/heap.c:112-143 | the first free block that is large enough, and none before it |
| HeapBlocks.CarveSpec | kernel/src/memory/heap.c:113-139 | serving a request adds exactly one live block, of exactly the rounded size, and keeps the heap well formed |
| HeapBlocks.ReleaseSpec | kernel/src/memory/heap.c:180-207 | freeing removes exactly one live block, and leaves no touching free blocks |
| HeapBlocks.ExtendSpec | kernel/src/memory/heap.c:53-86 | growth keeps the live blocks and covers the larger region |
| HeapRuns.StepKeeps | kernel/src/memory/heap.c:31-208 | every step keeps the invariant and changes the live blocks exactly as it should |
| HeapRuns.RunKeeps | kernel/src/memory/heap.c:31-208 | over every run free and live blocks tile the region in units of 16 and no two free blocks touch |
| HeapRuns.RunConservesBytes | kernel/src/memory/heap.c:31-208 | after every run free and live bytes make up the whole heap |
| HeapRuns.RunDefragments | kernel/src/memory/heap.c:180-207 | after every run that leaves nothing live, one free block covers the heap |
| HeapRuns.NothingLive | kernel/src/memory/heap.c:74-83 | the same for any heap in order, however it came about, so for krealloc and kcalloc too |
| HeapRuns.RunsAgree | kernel/src/memory/heap.c:31-208 | runs that leave the same live blocks leave the same heap, whatever the order of their requests |
| HeapRuns.FreeUndoesAlloc | kernel/src/memory/heap.c:113-139 | freeing what was just allocated restores the heap exactly |
| HeapRuns.RetriesRaiseTop | kernel/src/memory/heap.c:145-154 | every retry adds at least a page to the free block at the top and touches nothing below it |
| HeapRuns.RetriesBounded | kernel/src/memory/heap.c:111-154 | the number of grows of one request is bounded by the bytes missing at the top |
| HeapRuns.GrownRequestAtTop | kernel/src/memory/heap.c:111-154 | a request that had to grow is served from the block at the top |
| HeapList.RedirectStretch | kernel/src/memory/heap.c:122-132 | redirecting the link out of a stretch, through the head or the last free block, leads the whole stretch to the new target |
| HeapSurgery.ReplaceMiddle | kernel/src/memory/heap.c:113-133 | writing inside one stretch of memory and redirecting the link before it replaces that stretch of the list and nothing else |
| HeapSurgery.InsertListed | kernel/src/memory/heap.c:187-196 | inserting a block enters it into the list at its place |
| HeapSurgery.CutListed | kernel/src/memory/heap.c:114-126 | splitting a block leaves a correct list with the rest in its place |
| HeapSurgery.TakeListed | kernel/src/memory/heap.c:127-133 | handing out a whole block takes it off the list |
| HeapSurgery.MergeListed | kernel/src/memory/heap.c:198-207 | joining two touching blocks leaves a correct list |
| HeapSurgery.NextTouches | kernel/src/memory/heap.c:198-199 | the address test finds a free upper neighbour if and only if there is one |
| HeapSurgery.PreviousTouches | kernel/src/memory/heap.c:203-204 | the address test finds a free lower neighbour if and only if there is one |
| HeapSurgery.CursorPlace | kernel/src/memory/heap.c:180-185 | the search for a block's place stops behind the last free block below it |
| HeapSurgery.ClientWrite | kernel/src/memory/heap.c:138-139 | a client writing to its payload disturbs neither the list nor any other payload |
| KernelHeap.BlocksApart | kernel/src/memory/heap.c:98-208 | blocks at different addresses do not overlap |
| KernelHeap.KHeap.FindFit | kernel/src/memory/heap.c:108-143 | the search through memory finds the first fit and the free block before it |
| KernelHeap.KHeap.FindPlace | kernel/src/memory/heap.c:60-65 | the search through memory finds the last free block below an address |
| KernelHeap.KHeap.ReleaseBlock | kernel/src/memory/heap.c:187-207 | the word writes of a release turn the tiling into Release of it and keep every live payload |
| KernelHeap.KHeap.CarveBlock | kernel/src/memory/heap.c:113-139 | the word writes of an allocation turn the tiling into Carve of it and keep every live payload |
| KernelHeap.KHeap.AddRegion | kernel/src/memory/heap.c:53-86 | the word writes of a growth turn the tiling into Extend of it and keep every live payload |
| KernelHeap.KHeap.MapRegion | kernel/src/memory/heap.c:38-51 | every new page translates to its own fresh frame, writable and not executable, and no other translation changes |
| KernelHeap.KHeap.HeapGrowPages | kernel/src/memory/heap.c:31-88 | growth composes mapping and list surgery; on failure bytes, list and size are as before |
| HeapGrowth.HeapLeafFields | kernel/src/memory/heap.c:46-47 | a heap page lies in its frame, writable and not executable |
| KernelHeap.KHeap.Kmalloc | kernel/src/memory/heap.c:98-155 | first fit over the grown heap, with termination under an allocator that may fail at any time; NULL only if nothing fits and the allocator has refused a frame |
| KernelHeap.KHeap.KmallocBlock | kernel/src/memory/heap.c:98-155 | exactly one more live block, the others and their bytes untouched |
| KernelHeap.KHeap.Kfree | kernel/src/memory/heap.c:157-208 | frees the block behind a pointer; succeeds if and only if the pointer is NULL or that of a live block, and otherwise changes nothing |
| KernelHeap.KHeap.Kcalloc | kernel/src/memory/heap.c:210-220 | a live block of zeros, large enough for the product, or NULL on overflow |
| KernelHeap.KHeap.Krealloc | kernel/src/memory/heap.c:222-246 | the old payload is a prefix of the new one, the other payloads are kept, and a failure keeps the old block |
| KernelHeap.KHeap.SetupHeap | kernel/src/memory/heap.c:248-261 | one free block of 256 pages |
| PageTable.EntryFields | kernel/src/memory/virtual/header/vmm.h:20-22 | address and flags are recovered from an entry exactly |
| PageTable.LeafFields | kernel/src/memory/virtual/vmm.c:107-107 | a leaf entry holds the frame and the flags asked for, plus PRESENT |
| PageTable.IndicesDeterminePage | kernel/src/memory/virtual/vmm.c:85-88 | two addresses have the same four indices if and only if they lie in the same page |
| PageTree.WalkStaysInTree | kernel/src/memory/virtual/vmm.c:33-42 | a walk visits only tables of the tree, each hanging from the one before |
| PageTree.WalksMeet | kernel/src/memory/virtual/vmm.c:85-105 | walks that meet in a table took the same indices: no table is shared |
| PageTree.LeafWriteTranslates | kernel/src/memory/virtual/vmm.c:107-107 | writing a leaf entry changes the translation of one page and of no other |
| PageTree.GraftKeepsTranslation | kernel/src/memory/virtual/vmm.c:44-66 | hanging an empty table, or taking it off, changes no translation |
| PageTree.PruneShape | kernel/src/memory/virtual/vmm.c:159-178 | taking an empty table off leaves a tree |
| PageCanon.MappedBelow | kernel/src/memory/virtual/vmm.c:159-180 | below every table that is not kept empty some page is mapped |
| PageCanon.SameTranslationSameTree | kernel/src/memory/virtual/vmm.c:76-183 | canonical trees carved from one tree that translate alike are equal frame by frame and entry by entry |
| PageRuns.RunRefinesMap | kernel/src/memory/virtual/vmm.c:76-183 | after every run each page translates to what the last call for it left, and the tree is canonical |
| PageRuns.RightsOfLeaf | kernel/src/memory/virtual/vmm.c:90-107 | taking every level of the walk into account, a page may be written or executed if and only if its leaf entry says so |
| PageRuns.RunGivesBackTables | kernel/src/memory/virtual/vmm.c:159-180 | a run that ends with nothing mapped holds only the root and the PDPTs of the upper half |
| PageRuns.MapThenUnmapRestores | kernel/src/memory/virtual/vmm.c:76-183 | mapping and unmapping a page restores the same tables with the same entries |
| Vmm.PageMap.constructor | kernel/src/memory/virtual/vmm.c:22-22 | the frame invariant can be established: all frames cleared and free, no table |
| Vmm.PageMap.IsTableEmpty | kernel/src/memory/virtual/vmm.c:24-31 | true if and only if all 512 entries are zero |
| Vmm.PageMap.GetNextLevel | kernel/src/memory/virtual/vmm.c:33-42 | the frame of a present entry, and nothing otherwise |
| Vmm.PageMap.AllocateNextLevel | kernel/src/memory/virtual/vmm.c:44-66 | hangs a fresh cleared frame from the entry, with the default flags if none are given, or changes nothing |
| Vmm.PageMap.GetOrAllocateNextLevel | kernel/src/memory/virtual/vmm.c:68-74 | follows a present entry as it is, and gives an empty one a table; no translation changes |
| Vmm.PageMap.MapPage | kernel/src/memory/virtual/vmm.c:76-118 | one page translates to the entry asked for and all others as before; fails if and only if the allocator refuses a frame, and then no translation changes; no frame is lost and no table takes rights away |
| Vmm.PageMap.PruneTable | kernel/src/memory/virtual/vmm.c:159-163 | a table is given back only when it is empty and after it has been unlinked |
| Vmm.PageMap.Reclaim | kernel/src/memory/virtual/vmm.c:159-180 | empty tables go back bottom up, a PDPT of the upper half stays, no translation changes, and no empty table is left |
| Vmm.PageMap.UnmapPage | kernel/src/memory/virtual/vmm.c:120-183 | only the translation of one page disappears; a misaligned or unmapped address changes nothing |
| Vmm.PageMap.MapThenUnmap | kernel/src/memory/virtual/vmm.c:76-183 | from any canonical state the same tables, entries and free frames come back |
| AddressSpace.WriteXorExecute | kernel/src/memory/virtual/vmm.c:223-234 | no kernel page is both writable and executable; exactly the text is executable |
| AddressSpace.SetupRoot | kernel/src/memory/virtual/vmm.c:199-216 | the tables start with nothing mapped, and canonical if every PDPT could be allocated |
| AddressSpace.MapFramebuffer | kernel/src/memory/virtual/vmm.c:275-291 | maps the framebuffer; pages that could not be mapped are the only difference from the full layout |
| AddressSpace.SetupVmm | kernel/src/memory/virtual/vmm.c:196-296 | exactly the pages of the layout are mapped, each by its entry; all goes well if and only if the allocator refuses nothing |
| AddressSpace.KernelMapped | kernel/src/memory/virtual/vmm.c:218-240 | every kernel page maps to virtual minus virtual base plus physical base, with the rights of its section |
| AddressSpace.KernelProtected | kernel/src/memory/virtual/vmm.c:218-240 | no kernel page can be both written and executed, taking every level of the tables into account |
| AddressSpace.LeafHolds | kernel/src/memory/virtual/vmm.c:107-107 | a leaf for a page-aligned address in range leads to that frame with those flags |
| AddressSpace.ChunkMapped | kernel/src/memory/virtual/vmm.c:248-271 | every page of every window maps to its page of the chunk |
| AddressSpace.MaximalWindowsApart | kernel/src/memory/virtual/vmm.c:259-263 | the page-aligned windows of maximal runs never overlap |
| AddressSpace.FreeMemoryMapped | kernel/src/memory/virtual/vmm.c:248-271 | every page that the boot map reports as usable is mapped at its higher-half address |
| MemMap.GetMemoryDescriptor | kernel/src/memory/memmap.c:82-116 | the table holds the chunks of the boot map, and the length is the sum of the usable entries |
| MemMap.ChunksAreMaximalRuns | kernel/src/memory/memmap.c:90-106 | for a sorted map the chunks are maximal runs, cover exactly the usable addresses, and conserve the bytes |
| MemMap.MaximalRunsUnique | kernel/src/memory/memmap.c:96-104 | maximal runs are determined by the addresses they cover |
| PhysPages.PageAllocator.constructor | kernel/src/memory/physical/pmm.c:17-27 | the allocator's invariant can be established, with nothing taken, for any table of up to 30 segments |
| PhysPages.PageAllocator.SetPage | kernel/src/memory/physical/pmm.c:53-67 | one bit changes, and one page moves between the counters |
| PhysPages.PageAllocator.GetFreePage | kernel/src/memory/physical/pmm.c:70-95 | finds a free page if and only if there is one: the one behind the last used, or else the lowest |
| PhysPages.PageAllocator.PageToPtr | kernel/src/memory/physical/pmm.c:153-184 | terminates, fails exactly if no segment holds the page, and from every cursor agrees with a plain scan of disjoint segments |
| PhysPages.PageAllocator.PtrToPage | kernel/src/memory/physical/pmm.c:115-151 | the same for addresses |
| PhysPages.LocatedInverse | kernel/src/memory/physical/pmm.c:115-184 | on disjoint segments page to address to page is the identity |
| PhysPages.LocatedInverseAddress | kernel/src/memory/physical/pmm.c:115-184 | and so is address to page to address |
| PhysPages.NoDoubleHandOut | kernel/src/memory/physical/pmm.c:186-239 | over every run no page is handed out twice without being given back in between |
| PhysPages.RunKeepsAccounts | kernel/src/memory/physical/pmm.c:53-67 | over every run free plus used pages, and used pages minus set bits, stay what they were, on 64-bit words |
| PhysPages.PageAllocator.PpAllocAt | kernel/src/memory/physical/pmm.c:186-214 | takes exactly a free page inside the guards, and returns a pointer if and only if a segment holds the page |
| PhysPages.PageAllocator.PpAlloc | kernel/src/memory/physical/pmm.c:216-220 | takes the page that get_free_page finds if it lies before the kernel's address taken as an index; no pointer comes back if and only if no page is free, that guard refuses it, or no segment holds it |
| PhysPages.PageAllocator.PpFreeAt | kernel/src/memory/physical/pmm.c:222-239 | gives back exactly the page, or changes nothing |
| PhysPages.PageAllocator.PpFree | kernel/src/memory/physical/pmm.c:241-245 | gives back exactly the taken page at an address; NULL, misaligned and unknown addresses and free pages change nothing |
| PhysPages.PageAllocator.AllocThenFree | kernel/src/memory/physical/pmm.c:186-245 | on disjoint segments giving back what was handed out restores bitmap and counters |
| Calendar.NextDay | kernel/src/platform/x86_64/rtc.c:77-87 | day numbers count days across months, leap years and centuries |
| Calendar.JdnIs | kernel/src/platform/x86_64/rtc.c:94-98 | the Julian day formula, with truncating division, is the day number plus a constant, for every date |
| Calendar.JdnCountsDays | kernel/src/platform/x86_64/rtc.c:94-98 | the Julian day of the next day is the next Julian day |
| Calendar.JdnOfDateOf | kernel/src/platform/x86_64/rtc.c:77-98 | the two date algorithms are inverse to each other |
| Calendar.JdnFitsInt | kernel/src/platform/x86_64/rtc.c:94-98 | no step of the formula, taken in the code's order, leaves a 32-bit int for any register value |
| Calendar.CivilSteps | kernel/src/platform/x86_64/rtc.c:77-87 | era, year, day of year, month and day are found from the day number of every date |
| Calendar.Ranges | kernel/src/platform/x86_64/rtc.c:79-86 | every range in the comments holds for every day |
| Calendar.CivilFromDays | kernel/src/platform/x86_64/rtc.c:77-87 | with the code's fixed widths, day n is what stepping day by day from 1970-01-01 reaches |
| Calendar.MsToFields | kernel/src/platform/x86_64/rtc.c:58-87 | no 64-bit millisecond count loses anything: date and time of day split it exactly |
| Calendar.EpochIs | kernel/src/platform/x86_64/rtc.c:100-108 | the seconds since 1970, modulo 2^64 |
| Calendar.FormattedFields | kernel/src/platform/x86_64/rtc.c:58-108 | date and time survive the way through seconds and back if and only if the year is 1970 or later |
| Random.TemperBijective | kernel/src/crypt/random.c:60-63 | tempering is a bijection on 32-bit words |
| Random.OutputsDetermineRest | kernel/src/crypt/random.c:27-68 | any 624 outputs in a row determine every later output |
| Random.HoldsNext | kernel/src/crypt/random.c:53-58 | overwriting the oldest term keeps the buffer the last 624 terms |
| Random.MersenneTwister.SetupRandom | kernel/src/crypt/random.c:10-25 | the buffer is the first 624 terms of the sequence |
| Random.MersenneTwister.RandomUint32 | kernel/src/crypt/random.c:27-68 | call t returns the tempering of term 624 + t, and the index stays in the buffer |
| PrintfSpec.DigitsParse | kernel/src/util/printf.c:308-317 | the digits denote the number if and only if it is below base to the 32nd |
| PrintfSpec.DigitsCanonical | kernel/src/util/printf.c:308-317 | no leading zeros, and one zero for zero |
| PrintfSpec.FieldLength | kernel/src/util/printf.c:212-293 | without a base prefix a field is as long as the longer of width and number if and only if the width fits the buffer or is not filled with zeros |
| PrintfSpec.DigitsLength | kernel/src/util/printf.c:308-317 | a number has at most k digits if and only if it is below base to the k-th |
| PrintfSpec.SignFitsIs | kernel/src/util/printf.c:245-290 | digits and zeros leave room for a sign if and only if number, precision and zero-padded width are small enough |
| PrintfSpec.FieldParses | kernel/src/util/printf.c:240-293 | a field is spaces, sign, digits of the base, spaces; the digits denote the number if and only if it is below base to the 32nd; the sign is there if and only if SignFits |
| FormatSpec.FormatsCompose | kernel/src/util/printf.c:623-922 | a complete format prints the same whatever follows it, and what follows prints with the arguments it leaves |
| Printf.OutRev | kernel/src/util/printf.c:212-237 | the reversed buffer comes out forwards, padded |
| Printf.NtoaFormat | kernel/src/util/printf.c:240-293 | the in-place number buffer shows exactly the specified field |
| Printf.PushDigits | kernel/src/util/printf.c:308-317 | the digit loop leaves the low 32 digits, least significant first |
| Printf.Ntoa | kernel/src/util/printf.c:296-351 | a number is put out as specified |
| Printf.ReadHead | kernel/src/util/printf.c:635-735 | flags, width, precision and length are read as specified, from format and arguments |
| Printf.StrnlenS | kernel/src/util/printf.c:191-196 | the length, limited |
| Printf.OutText | kernel/src/util/printf.c:865-889 | a string is cut to the precision and justified |
| Printf.Vsnprintf | kernel/src/util/printf.c:613-929 | the count is that of the unbounded text whatever the buffer size; the buffer holds its first characters, NUL, and behind that what it held |
| Timestamp.StampRenders | kernel/src/platform/x86_64/rtc.c:89-90 | the format string prints the timestamp text |
| Timestamp.StampLength | kernel/src/platform/x86_64/rtc.c:53-54 | the text has 24 characters if and only if the year is at most 9999 |
| Timestamp.StampParses | kernel/src/platform/x86_64/rtc.c:89-90 | the fields are read back from the text (section 5.6 of RFC 3339) |
| Timestamp.OrderOfTexts | kernel/src/platform/x86_64/rtc.c:58-91 | texts are in lexicographic order if and only if the instants are (section 5.1 of RFC 3339) |
| Timestamp.LateText | kernel/src/platform/x86_64/rtc.c:89-90 | no text of a year beyond 9999 starts like one of a year up to 9999 |
| Clock.MsToIso8601 | kernel/src/platform/x86_64/rtc.c:58-91 | the buffer holds the text of the instant, cut to its size |
| Clock.StampFits | kernel/src/platform/x86_64/rtc.c:149-159 | 25 characters hold the text and NUL for years up to 9999 |
| Clock.Atoi | kernel/src/platform/x86_64/rtc.c:34-46 | the decimal value of the text up to NUL |
| Clock.BcdText | kernel/src/platform/x86_64/rtc.c:124-137 | printing a register in hexadecimal and reading it as decimal decodes it |
| Clock.YearReadRight | kernel/src/platform/x86_64/rtc.c:139-140 | the year is read right if and only if it does not end in 00 to 09, or the century is 0 |
| Clock.RightByte | kernel/src/platform/x86_64/rtc.c:124-137 | a register is decoded right if and only if it holds two decimal digits |
| Clock.GetUnixTimestamp | kernel/src/platform/x86_64/rtc.c:110-147 | the seconds that the texts of the registers say, for all registers; for decimal ones those of their digits |
| Clock.GetFormattedTime | kernel/src/platform/x86_64/rtc.c:149-159 | from registers to text, for every date they can hold: right if and only if the year is 1970 or later and does not end in 00 to 09 |

## Left out

- Ports, CMOS reads, CPUID, interrupt controllers, assembly: hardware effects. Register values are parameters.
- `invlpg`, CR3 and the TLB: only the contents of the tables are modelled. Nothing is claimed about effective user permissions.
- Huge pages, accessed and dirty bits: the walk follows the address field of every present entry, as the kernel does.
- Framebuffer drawing, logging, serial output, the debug shell, ACPI tables.
- The floating-point code of printf, which is compiled out. A buffer of NULL, which behaves like one of size 0.
- Formats that break off inside a directive, arguments that do not fit their directive, strings of 4 GiB and more, and more than 2^64 characters of output.
- The `#` flag: its characters are modelled, no property of its fields is stated.
- `setup_pmm` and `generate_page_mapping`: they count overlapping ranges twice; the page allocator is taken after them, with a table of at most 30 segments.
- The page tables take frames from an allocator that may refuse at any time and otherwise hands out a cleared frame. `PhysPages` does not promise that much (see `PpAllocAt`), so the two are not composed.
- The clearing of a page in `_pp_alloc` is not modelled; addresses are only numbers in `PhysPages`.
- What a failed `map_page` leaves: tables hung on the way down stay, empty. No translation changes, but the tree need not be canonical then.
- The bytes of the heap are one array, and heap growth also maps pages for them. That the bytes are those of the mapped frames is not modelled. The array is large enough for all free frames.
- `heap_dump`, and the rewrite of a block's size by itself in `kmalloc`.
- `get_formatted_time` takes its buffer from `kmalloc` without a check; here the allocation succeeds. The registers' texts go through buffers of 9 bytes of which printf is told 10; here they have 10, and never use more than 5.
- `random_range` and `get_state`.
- KernelHeap.KHeap.Kcalloc: products in the last 31 bytes below 2^64 are excluded, because the size arithmetic wraps there and the block is too small (TotalHoldsRequest).
- KernelHeap.KHeap.Krealloc: sizes in the last 31 bytes below 2^64 are excluded for the same reason.
- KernelHeap.KHeap.Kfree: pointers into the heap that are aligned but belong to no live block are excluded, because the code cannot tell them from live ones.
- PhysPages.LocatedInverse: takes disjoint segments as an assumption, and holds on their interior, because the lookups miss the first page of every segment.
- AddressSpace.FreeMemoryMapped: takes kernel, windows and framebuffer to lie apart in the upper half, because the code does not check it.
- MemMap.GetMemoryDescriptor: takes at most 128 chunks, because the code does not check the end of its table.
- Clock.Atoi: takes texts whose value is an int on the way, because the code's arithmetic overflows otherwise.
