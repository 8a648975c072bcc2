# Verification model of nyrf OS

nyrf OS is a UEFI bootloader and a small x86_64 kernel. The loader reads an ELF64 kernel from a
file that may answer with short reads, places its segments, and leaves boot services with the
memory map's key. The kernel installs its segment, task and interrupt tables, builds a page
allocator whose bitmap lives in the memory it manages, runs a self-test on it, and draws a
pattern into the framebuffer. This project models those parts in Dafny and proves what they
guarantee, separately and end to end.

`dafny verify dfyconfig.toml` checks the whole project.

## How the model is laid out

| module | what it models |
|---|---|
| Words, Storage | machine integers, bit operations, little-endian fields and 64-bit bitmap words in byte memory |
| MemoryMap, MapImage | the UEFI descriptor list, how it is read at a stride, and how it is written |
| PageBitmap | the allocator's state and its two operations as functions on values |
| Pmm | the allocator as an object over shared memory: start-up, allocation, release |
| PmmRuns, PmmTheorems, PmmStart | whole runs of allocations, releases and client writes |
| PmmStatics | the allocator's own variables at an address of their own in that memory |
| PmmUnchecked | releases of pages nobody holds, which the code does not refuse |
| PmmClient | clients of the object, and the self-test |
| Firmware | boot services as a nondeterministic state machine, and a file with short reads |
| ElfFile, ElfImage | the ELF loader, and how a file lays its headers out |
| BootLoader | the map buffer, the exit loop and BootInfo |
| EndToEnd | firmware, loader, start-up and runs together |
| Cpu, KernelTables, Exceptions | how the processor decodes tables, how the kernel writes them, and delivery of an exception |
| Framebuffer | pixel packing and the drawing loops |

Memory is one byte sequence shared by everything that runs in it: the bitmap words, the map the
allocator reads while it writes the bitmap, BootInfo, the segments and the pages of clients. The
allocator's five variables (project/kernel/mm/pmm.c:61-69) are fields of an object in Pmm;
PmmStatics lays them out in memory and shows that each step is a store of a bitmap word and of
those variables, and that client writes miss them.
Each state-changing operation is proved against a function on values, and the properties below
are proved about that function over every run.

## What is assumed

- The memory map is well formed as section 7.2 of UEFI 2.10 requires: starts of regions are
  page-aligned and no region runs past the 64-bit address space; the stride is at least the
  40 bytes of the published descriptor; conventional memory is backed by RAM. Descriptors
  may overlap.
- BootInfo and the map buffer lie outside conventional memory when the kernel starts. This is a
  precondition of start-up on its own and a theorem (`EndToEnd.HandOverIsBootable`) in the
  composed system.
- Clients give back only pages they hold, once, and write only inside pages they hold
  (project/include/kernel/pmm.h:44). The allocator does not check the first part;
  `PmmUnchecked.PoolGrowsByReleases` says exactly what then happens as long as no one writes to the
  bitmap, and `PmmUnchecked.BitmapPageGivenOut` how a client comes to do that.
- Nothing is assumed of the kernel file. What is promised of the loaded image holds for files
  whose loadable segments fit the pages the loader requests for them: p_filesz is at most the
  rounded-up size and the rounding does not wrap (`ElfFile.Fitting`, `ElfFile.FitsGuard`). The System
  V gABI, chapter 5, asks for more (p_filesz at most p_memsz); the loader checks neither.
  `ElfFile.InsideExactlyWhenFits` shows the condition is exact. Stores past the end of RAM may leave
  memory in any state.
- The allocator's variables are consecutive, in the order they are declared, in a block the
  loader owns that is neither BootInfo nor the map, such as a segment of the kernel image. What
  else the kernel keeps in its image (tables, stack) is not part of the memory of EndToEnd, so
  its writes there are not either.
- Firmware keeps the promises of UEFI 2.10 sections 7.2, 7.4 and 13.5: an allocation returns
  memory apart from everything the loader still owns and typed as loader data in every later
  map, AllocateAddress succeeds only at a page boundary, the key changes whenever the map does,
  and a successful read returns between 1 and the requested number of bytes before the end of
  the file. Which addresses, lengths, failures and asynchronous changes occur is left open.
- The screen has a visible column or no rows between the first and the last
  (`Framebuffer.EndStoresInside`), and the buffer reaches to the end of the last visible row.
- The kernel's descriptor tables, TSS and double-fault stack are pairwise disjoint static
  objects, zeroed by the loader, and the stack an exception is delivered on has room for 200
  bytes.

## Where the code and its comments differ

- project/kernel/mm/pmm.c:66-69 calls the search next-fit. Because a release pulls the cursor
  back, every reachable state has only full words below it, and the search is exactly
  lowest-address first-fit.
- project/kernel/mm/pmm.c:205-206 relies on descriptors not overlapping for the count. The count
  is the cardinality of the free set even when they do.
- project/kernel/main.c:183-186 lets the last bar absorb the remainder. It does for the colour,
  but the brightness starts again at the dark end (`Framebuffer.LastColourRisesExactly`). The
  brightest level is 254, not the 255 of project/kernel/main.c:197.
- project/kernel/mm/pmm.c:219-221 says reserving the kernel survives a bootloader that does not
  own its pages. The bitmap is placed before the reservation and may then lie on the kernel
  (`PmmStart.BitmapCanCoverKernel`).
- project/include/kernel/pmm.h:40-41 says page 0 is never handed out. That holds for disciplined
  clients; a release of address 0 passes all three checks, and the next allocation then returns 0
  with memory free (`PmmUnchecked.PageZeroCanBeReleased`).
- project/boot/elf.c:216-218 rounds a segment up to whole pages from p_memsz, while the copy below
  it goes by p_filesz. `ElfFile.OverrunChangesNeighbour` is a file with p_memsz 1 and p_filesz 4097
  that passes the header check and whose last byte lands in the block behind its page.
- project/kernel/arch/x86_64/isr.asm:109-113 says the stack is aligned "either way". That holds
  exactly when the processor pushes an error code on the eight vectors the file lists. Vectors
  29 and 30 of the AMD64 manual push one as well, and their stubs do not expect it
  (`Exceptions.AmdErrorCodeMisread`).

## Model

| member | source | states |
|---|---|---|
| `EndToEnd.NothingOwnedIsHandedOut` | project/boot/main.c:464-559 | In every boot that reaches a running kernel and every disciplined run of the allocator after it, no address returned lies in a page of BootInfo, the map buffer, any other block the loader owns, the bitmap or the kernel extent; for a file whose segments fit, those blocks hold the whole kernel image. With the allocator's variables anywhere in them, they are the only bytes of the loader's blocks that allocations, releases and client writes change in physical memory; BootInfo and the map keep every byte |
| `EndToEnd.Boot` | project/kernel/main.c:80-151 | For any kernel file: loader, magic check, start-up and self-test in sequence; whenever the kernel goes on, the hand-over record holds and the allocator is exactly as started over the inherited memory. Every arrival has its cause: a stop of the loader, a BootInfo at 0, no region for the bitmap, fewer than three free pages, or none of these and a running kernel; an ordinary boot reaches the jump |
| `PmmRuns.RunKeepsGood` | project/kernel/mm/pmm.c:248-290 | Safety and conservation over every interleaving of allocations, disciplined releases and client writes: cursor, tail and count invariants hold, the bitmap in memory equals the abstract words, free and held pages stay a split of one fixed pool, `free_pages` plus held pages is constant, and memory outside pool and bitmap never changes |
| `PmmTheorems.RunRefinesSet` | project/kernel/mm/pmm.c:248-290 | Every run returns what "remove the minimum of a set" returns, each result is 0 exactly when the set that allocation finds is empty, and the run ends with the free set that specification computes |
| `PageBitmap.NextFitIsFirstFit` | project/kernel/mm/pmm.c:250-266 | With every word below the cursor full, the cursor-guided scan equals first-fit, and inspects the whole bitmap on failure and exactly the cursor movement plus one on success |
| `PageBitmap.LowestExactlyUnlessStraddling` | project/kernel/mm/pmm.c:250-266 | For an arbitrary cursor, the scan returns the lowest free page if and only if the free pages do not lie on both sides of the cursor |
| `Pmm.PageAllocator.Init` | project/kernel/mm/pmm.c:152-235 | Fails exactly when no region of type 7 at or above 1 MiB can hold the bitmap, leaving memory alone; the bitmap covers the least page count above every region of type 1, 3, 4 or 7 and goes to the first region that can hold it; the allocator reaches the initial state determined by the descriptors, and only bitmap bytes are written |
| `PmmStart.FreeExactly` | project/kernel/mm/pmm.c:205-226 | After start-up a page is free if and only if a conventional descriptor covers it, it is at or above 1 MiB, and it overlaps neither the kernel image nor the bitmap |
| `PmmStart.FreeByAddress` | project/kernel/mm/pmm.c:205-226 | The same in addresses and numbers: a page is free if and only if it lies at or above 0x100000, inside a region of type 7, and shares no byte with the kernel image or the bitmap |
| `PmmStart.StrideIndependent` | project/kernel/mm/pmm.c:127-131 | Two maps that encode the same descriptors at any two strides of at least 40 bytes, with any trailing bytes, at any two places, give the same allocator and bitmap address |
| `PmmTheorems.InvisibleAfterwards` | project/kernel/mm/pmm.c:269-290 | After any run that restores the held set, a later run is disciplined if and only if it was before, and returns the same addresses, although the cursor may differ |
| `PmmTheorems.TakeThenGiveBackAnyOrder` | project/kernel/mm/pmm.c:248-290 | Allocating any k pages and releasing them in any permutation never halts and restores the bitmap and the free count |
| `PmmTheorems.ScanCost` | project/kernel/mm/pmm.c:250-289 | Exact amortised cost of every run: words inspected equal successes plus net cursor movement plus all pull-backs plus one whole bitmap per failure |
| `PmmUnchecked.ReleaseKeepsPoolExactlyWhenHeld` | project/kernel/mm/pmm.c:271-286 | A release that passes the three checks keeps the set of managed pages if and only if the page was held; otherwise a reserved page joins the free set, and is handed out next when no free page is lower |
| `PmmUnchecked.PoolGrowsByReleases` | project/kernel/mm/pmm.c:269-290 | Over every run that does not halt, of allocations, arbitrary releases and writes to any memory but the bitmap, the allocator's invariants hold, its words are those in memory, and free plus given-out pages end as what they were plus exactly the pages released; they stay the same if and only if no reserved page was released |
| `PmmUnchecked.PageZeroCanBeReleased` | project/kernel/mm/pmm.c:271-281 | In every started state a release of address 0 does not halt, and the next allocation returns 0 although memory is free |
| `PmmUnchecked.BitmapPageCanBeReleased` | project/kernel/mm/pmm.c:271-281 | In every started state a release of the bitmap's own address does not halt, and its page joins the free set |
| `PmmUnchecked.WriteSetsWord` | project/kernel/mm/pmm.c:87-106 | A write of eight bytes over a bitmap word puts any word the writer likes in its place |
| `PmmUnchecked.BitmapPageGivenOut` | project/kernel/mm/pmm.c:248-290 | In every started state, one release of the bitmap's page followed by allocations until memory is exhausted gives that page to a client, whose write inside it then frees page 0 although nobody released it |
| `PmmClient.SelfTest` | project/kernel/mm/pmm.c:308-356 | Halts with "out of memory" exactly when fewer than three pages are free, and otherwise in no way: it draws the three lowest free pages in ascending order, leaves them holding their tags, and restores bitmap and count |
| `ElfFile.ReadAt` | project/boot/elf.c:95-121 | For every schedule of short reads: success if and only if no call failed and the file holds the range; then the buffer is exactly that range; a file too short gives the load error; nothing else is written either way |
| `ElfFile.ElfLoadKernel` | project/boot/elf.c:165-276 | For a file whose segments fit: it succeeds if and only if no file call failed, no allocation was refused and the file is loadable; then every PT_LOAD segment is in place (file bytes, then zeros up to p_memsz), exactly the segments' page blocks are newly owned and the table is released; on success and failure alike nothing but those blocks and the table is written. For any file: the table is given back on every way out, earlier blocks stay owned, and a short file or a bad header gives the load error |
| `BootLoader.LeaveBootServices` | project/boot/main.c:508-538 | One to three attempts, tied call by call to the firmware's record of map reads and exit requests; boot services are left if and only if some attempt's map read succeeds and its key is still current when the exit request is decided; it gives up only after the third refusal or when the map has outgrown the buffer; when left, BootInfo describes the map current at the accepted key; with no asynchronous change and a map that fits, the first attempt succeeds; only the map buffer and the BootInfo page are written |
| `BootLoader.EfiMain` | project/boot/main.c:391-566 | For any kernel file: jumps exactly when boot services were left; then BootInfo and map buffer are owned under the final map and BootInfo holds head fields and that map; if the file's segments fit, they are all loaded, in owned blocks apart from those two. Every outcome is explained: it jumps with nothing refused, no failed call, a loadable file, room for the maps and a settled last attempt; each fatal stage names its own cause. With a quiet firmware, a loadable file that fits and nothing missing, it jumps on the first attempt |
| `Exceptions.TakeException` | project/kernel/arch/x86_64/isr.asm:41-143 | From fault to `exception_dispatch` through the installed tables: RSP is 16-byte aligned at the call if and only if the processor pushed an error code on exactly the vectors 8, 10, 11, 12, 13, 14, 17 and 21, and (for a non-null interrupted CS) exactly then the frame read is the faulting state with the vector (255 from 32 up) and the error code or 0; a double fault runs on the top of its own stack and leaves all tables installed |
| `Exceptions.EveryVectorResolves` | project/kernel/arch/x86_64/idt.c:182-201 | For all 256 vectors the processor finds a present ring-0 interrupt gate within the IDT limit, its stub's address (the shared one from 32 up), IST 1 for vector 8 and 0 otherwise, and through selector 8 a present 64-bit code descriptor within the GDT limit |
| `Exceptions.OnlyDoubleFaultSwitches` | project/kernel/arch/x86_64/tss.c:65-66 | Vector 8 alone is delivered on the top of the double-fault stack; every other vector goes on the interrupted stack aligned down to 16 |
| `Framebuffer.DrawPattern` | project/kernel/main.c:164-226 | With a column or no inner rows, all writes are in bounds, cells of no row are unchanged, and every visible cell ends as it should (white on the frame; otherwise, o columns into a ramp of width s, 32 plus the rounded-down quotient of o*223 in 32 bits by s, in the one channel of its third, and 0 in the other two) if and only if there are at most two rows, at most two columns, or rows at least `width - 1` apart |
| `Words.TestOfWithBit` | project/kernel/mm/pmm.c:95 | Or-ing `1 << i` sets bit i and no other |
| `Words.TestOfWithoutBit` | project/kernel/mm/pmm.c:103 | And-ing `~(1 << i)` clears bit i and no other |
| `Words.LowestClear` | project/kernel/mm/pmm.c:257 | The bit chosen in a word that is not full is clear and every bit below it is set |
| `Words.CtzOfComplement` | project/kernel/mm/pmm.c:257 | Counting trailing zeros of `~w` gives a clear bit of w below which every bit is set |
| `PageBitmap.FreeAfterMarkUsed` | project/kernel/mm/pmm.c:92-98 | Marking used removes exactly that page from the free set |
| `PageBitmap.FreeAfterMarkFree` | project/kernel/mm/pmm.c:100-106 | Marking free adds exactly that page to the free set |
| `PageBitmap.FullWordHasNoFreePage` | project/kernel/mm/pmm.c:256 | A word equals all ones if and only if none of its 64 pages is free, so skipping it loses nothing |
| `PageBitmap.SameFreeSameWords` | project/kernel/mm/pmm.c:53-64 | The bitmap is a faithful representation: equal free sets mean equal words |
| `PageBitmap.SkippedStops` | project/kernel/mm/pmm.c:250-256 | The scan stops at the first word, in wrapped order from the cursor, that is not all ones |
| `PageBitmap.NextFitTakesAFreePage` | project/kernel/mm/pmm.c:248-267 | From any cursor: 0 and no change exactly when nothing is free; otherwise one free page is taken, its bit is the only one flipped and the cursor moves to its word |
| `PageBitmap.AllocationKeepsValid` | project/kernel/mm/pmm.c:248-267 | Allocation keeps count, tail bits and cursor tightness, takes the minimum of the free set and stores one word |
| `PageBitmap.ReleaseKeepsValid` | project/kernel/mm/pmm.c:269-290 | Release of a used tracked page does not halt, keeps the invariants (the pull-back restores cursor tightness) and adds exactly that page |
| `MemoryMap.EntryInside` | project/kernel/mm/pmm.c:127-131 | Every descriptor read, at any stride of at least 40, stays inside the map's bytes |
| `MemoryMap.TopIsLeastBound` | project/kernel/mm/pmm.c:156-171 | The bound found covers every region that may become free and is attained by one of them |
| `MemoryMap.TrackedExactly` | project/kernel/mm/pmm.c:146-171 | The page count is the least one covering every region of type 1, 3, 4 or 7 |
| `MemoryMap.OtherTypesUntracked` | project/kernel/mm/pmm.c:143-150 | A region of any other type, anywhere in the map, does not change it |
| `MemoryMap.PlacementIsFirstFit` | project/kernel/mm/pmm.c:181-192 | The place chosen is the start of the first descriptor that can hold the bitmap; none exactly when no descriptor can |
| `MemoryMap.PlacedExactly` | project/kernel/mm/pmm.c:181-192 | The same in numbers: type 7, start at or above 0x100000, room for the bytes, and none before it |
| `MemoryMap.RegionTracked` | project/kernel/mm/pmm.c:170-171 | The pages of every region that may become free lie below the tracked page count |
| `MemoryMap.TrackedBound` | project/kernel/mm/pmm.c:163-171 | The bound found is page-aligned and fits 64 bits, and so does the size of the bitmap: the sizing pass does not wrap |
| `MemoryMap.RangeRemoved` | project/kernel/mm/pmm.c:112-123 | The clamped loop range removes exactly the free pages that overlap the byte range, half-covered pages included |
| `MemoryMap.InConventional` | project/kernel/mm/pmm.c:207-217 | The set freed is the union of the conventional descriptors, overlapping or not |
| `MemoryMap.DescriptorsAgree` | project/kernel/mm/pmm.c:200-217 | The list read depends on the map's own bytes only, so filling the bitmap does not disturb it |
| `MapImage.ImageReadsBack` | project/include/bootinfo.h:75-80 | Encoding descriptors row by row at a stride and walking the bytes in `desc_size` steps gives the descriptors back |
| `Pmm.PageAllocator.PageIsUsed` | project/kernel/mm/pmm.c:87-90 | Shift and mask answer whether the page is outside the free set |
| `Pmm.PageAllocator.MarkPageUsed` | project/kernel/mm/pmm.c:92-98 | Removes the page from the free set, stores at most its word, and keeps `free_pages` the cardinality |
| `Pmm.PageAllocator.MarkPageFree` | project/kernel/mm/pmm.c:100-106 | Adds the page to the free set, stores at most its word, and keeps `free_pages` the cardinality |
| `Pmm.PageAllocator.ReserveRange` | project/kernel/mm/pmm.c:112-123 | Removes exactly the pages overlapping the byte range; count and tail bits stay right |
| `Pmm.PageAllocator.AllocPage` | project/kernel/mm/pmm.c:248-267 | The in-place scan over memory computes the specified next-fit step and stores one bitmap word and nothing else |
| `Pmm.PageAllocator.FreePage` | project/kernel/mm/pmm.c:269-290 | The three halts in their order, by the address alone; otherwise the specified release, the cursor pulled back to the page's word if that is lower; a halt changes no memory |
| `Pmm.PageAllocator.DescAt` | project/kernel/mm/pmm.c:127-131 | Reads the i-th descriptor of the handed-over list |
| `Pmm.PageAllocator.CountEntries` | project/kernel/mm/pmm.c:154 | The entry count is the length of the list |
| `Pmm.PageAllocator.FindTop` | project/kernel/mm/pmm.c:159-168 | Computes the least bound over the regions that may become free |
| `Pmm.PageAllocator.FindPlace` | project/kernel/mm/pmm.c:181-189 | Computes the first-fit place, stopping at the first hit |
| `Pmm.PageAllocator.SizeAndPlace` | project/kernel/mm/pmm.c:159-193 | Sets page count, word count and bitmap address; a place found is backed by memory |
| `Pmm.PageAllocator.FillUsed` | project/kernel/mm/pmm.c:200-203 | No page is free afterwards, tail bits included, and the count is 0 |
| `Pmm.PageAllocator.FreeRegion` | project/kernel/mm/pmm.c:211-214 | Adds exactly the pages of the region |
| `Pmm.PageAllocator.FreeConventional` | project/kernel/mm/pmm.c:207-217 | Frees exactly the pages of conventional descriptors while the map it reads lies in the same memory; the count is the cardinality even if descriptors overlap |
| `Pmm.PageAllocator.ReserveExceptions` | project/kernel/mm/pmm.c:219-226 | Removes exactly the low megabyte, the kernel image and the bitmap's own pages |
| `PmmStart.InitDetermined` | project/kernel/mm/pmm.c:152-228 | Descriptors and kernel extent determine bitmap address, words, count and cursor |
| `PmmStart.StartIsGood` | project/kernel/mm/pmm.c:152-228 | The state after start-up meets the run invariant with nothing held |
| `PmmStart.OnlyFreeMemoryHandedOut` | project/kernel/mm/pmm.c:205-267 | Over every disciplined run from start-up, each address returned is aligned, at or above 1 MiB, inside a conventional descriptor, and misses kernel and bitmap |
| `PmmStart.OtherMemoryUntouched` | project/kernel/mm/pmm.c:200-290 | Bytes outside conventional memory are the same in every state of every run |
| `PmmStart.BitmapInsideRegion` | project/kernel/mm/pmm.c:181-189 | All bytes of the bitmap fit in the conventional region that starts at its address |
| `PmmStart.BitmapPagesTracked` | project/kernel/mm/pmm.c:117-119 | Every page the bitmap touches is tracked, so the clamp loses none of them |
| `PmmStart.BitmapMissesKernel` | project/kernel/mm/pmm.c:219-224 | If the kernel lies outside conventional memory the bitmap does not overlap it |
| `PmmStart.BitmapCanCoverKernel` | project/kernel/mm/pmm.c:181-224 | With one conventional region at 1 MiB and the kernel in it, the bitmap starts on the kernel |
| `PmmRuns.TakeStep` | project/kernel/mm/pmm.c:248-267 | One allocation keeps the invariant; the page moves from free to held and was not held before |
| `PmmRuns.TakeDraws` | project/kernel/mm/pmm.c:248-267 | When a page is free the allocation is not 0 and draws the least one |
| `PmmRuns.GiveBackStep` | project/include/kernel/pmm.h:44-48 | A disciplined release reaches none of the halts and keeps the invariant |
| `PmmRuns.PokeKeepsWords` | project/kernel/mm/pmm.c:219-226 | A client's write inside a held page leaves every bitmap word unchanged |
| `PmmRuns.PokeStep` | project/kernel/mm/pmm.c:219-226 | Such a write keeps the invariant and changes nothing outside its page |
| `PmmRuns.StepKeepsGood` | project/kernel/mm/pmm.c:248-290 | Every disciplined step keeps the invariant, pool and frame |
| `PmmTheorems.StepRefinesSet` | project/kernel/mm/pmm.c:248-290 | Each step acts on the free set as the specification does |
| `PmmTheorems.ResultsComeFromPool` | project/include/kernel/pmm.h:37-42 | Every result is 0 or an aligned, tracked address at or above 1 MiB of a pool page that misses the bitmap |
| `PmmTheorems.RestoredWhenHeldRestored` | project/kernel/mm/pmm.c:345-353 | Any run that ends with the held set it began with ends with the same bitmap and count |
| `PmmTheorems.TakesAreFresh` | project/kernel/mm/pmm.c:248-267 | k allocations with k pages free return k distinct, aligned, formerly free pages |
| `PmmTheorems.GiveBacksRun` | project/kernel/mm/pmm.c:269-290 | Distinct held pages can be released in any order without a halt |
| `PmmTheorems.StraightRunCost` | project/kernel/mm/pmm.c:237-247 | k successful allocations in a row inspect at most k plus the bitmap length minus one words |
| `PmmClient.Drive` | project/kernel/mm/pmm.c:248-290 | Running operations on the allocator object yields the state and results of the abstract run |
| `PmmClient.TakePage` | project/kernel/mm/pmm.c:248-267 | The object's allocation is the abstract step, memory included |
| `PmmClient.GivePageBack` | project/kernel/mm/pmm.c:269-290 | The object's release of a held page does not halt and is the abstract step |
| `PmmClient.TakeAndTag` | project/kernel/mm/pmm.c:313-336 | One round: out of memory exactly when all initially free pages are drawn; otherwise the checks pass, the new page is tagged and earlier tags survive |
| `PmmClient.CheckPage` | project/kernel/mm/pmm.c:319-329 | The checks in order: alignment, low megabyte, duplicate |
| `PmmClient.TagBits` | project/kernel/mm/pmm.c:333-335 | The first tag is the address with the bits of the pattern 0xA5A5A5A5A5A5A5A5 inverted |
| `PmmClient.CheckTags` | project/kernel/mm/pmm.c:338-343 | Reports a broken pattern if and only if some page does not hold its two tags |
| `PmmClient.ReturnPages` | project/kernel/mm/pmm.c:348-350 | All drawn pages go back without a halt and the free set is restored |
| `ElfFile.ReadHeader` | project/boot/elf.c:167-173 | Success if and only if no call failed and the file has 64 bytes; then the header is the file's |
| `ElfFile.PagesCover` | project/boot/elf.c:216-219 | The rounded-up page count covers p_memsz and wastes less than a page, unless the 64-bit rounding wraps; then it is 0 |
| `ElfImage.EntryReadsBack` | project/boot/elf.c:76-86 | Of the eight fields of a program header, those the loader uses read back, whatever the others hold |
| `ElfImage.HeaderReadsBack` | project/boot/elf.c:46-61 | The same for the ELF header; it is accepted if and only if magic, class, byte order, type 2, machine 62, entry size 56 and a non-zero count stand in their fields |
| `ElfImage.WrittenFileReads` | project/boot/elf.c:129-205 | A file written with an acceptable header and program headers at e_phoff has a table, and its segments are those headers' kinds, offsets, addresses and sizes |
| `ElfImage.WrittenFileLoaded` | project/boot/elf.c:204-260 | After a load of such a file, the bytes at each loadable header's p_offset stand at its p_paddr, followed by zeros up to p_memsz |
| `ElfFile.ZeroTail` | project/boot/elf.c:249-257 | Bytes from p_filesz to p_memsz, if any, become 0 and nothing else changes |
| `ElfFile.LoadSegment` | project/boot/elf.c:213-259 | For any segment: on success a new page-aligned block apart from all others is owned. If the bytes stored fit it or at least lie in RAM: success if and only if no call failed, the pages were granted and the file holds the bytes; then all file bytes are in place with zeros up to p_memsz; only the bytes stored are written in any case, and nothing outside the block when they fit |
| `ElfFile.FitsGuard` | project/boot/elf.c:216-219 | A segment fits if and only if the rounding of p_memsz does not wrap and p_filesz is at most the size requested |
| `ElfFile.InsideExactlyWhenFits` | project/boot/elf.c:231-257 | A load leaves memory outside its pages alone, whatever was there, if and only if the segment fits |
| `ElfFile.OverrunFileRead` | project/boot/elf.c:129-161 | A concrete file of 4097 bytes passes the header check and has one segment, with p_filesz 4097 and p_memsz 1 |
| `ElfFile.OverrunChangesNeighbour` | project/boot/elf.c:219-257 | Loading that segment changes a byte of the block behind its one page |
| `ElfFile.SegmentFromTable` | project/boot/elf.c:193-205 | Indexing the buffered table gives the file's program headers |
| `ElfFile.OneMoreSegment` | project/boot/elf.c:204-260 | A later segment never disturbs an earlier one or the table |
| `ElfFile.LoadSegments` | project/boot/elf.c:202-260 | For a file whose segments fit, the loop keeps all segments so far in place, counts a load exactly when a PT_LOAD header was seen, succeeds exactly when no call failed, nothing was refused and the file holds all bytes, and writes nothing but the image and the table |
| `BootLoader.MapBuffer.Refresh` | project/boot/main.c:232-259 | The first call probes, makes room for eight more descriptors and allocates, and fails only if the allocation is refused or the map has outgrown that room; later calls allocate nothing and succeed exactly when the map fits; on success size, key and stride are the current map's and only the buffer is written |
| `BootLoader.PublishMap` | project/boot/main.c:517-519 | The three map fields of BootInfo read back, and only those 24 bytes change |
| `BootLoader.TryExit` | project/boot/main.c:509-525 | Refresh, publish, exit with that key, and nothing else the firmware sees: leaving is equivalent to a refresh whose key is still current, and BootInfo then describes the current map |
| `BootLoader.HandOver` | project/boot/main.c:472-545 | From the BootInfo page to the jump: the same explanation of every outcome for the second half |
| `BootLoader.OrdinaryBootJumps` | project/boot/main.c:443-538 | A loadable file that fits, no failed call, no refusal, room for every map and a first attempt whose map does not move leave no outcome but the jump, on attempt one |
| `BootLoader.WriteHead` | project/boot/main.c:481-489 | The fixed BootInfo fields are stored inside the structure's 72 bytes |
| `BootLoader.HeadReadsBack` | project/include/bootinfo.h:46-86 | Each of them reads back at its declared offset |
| `EndToEnd.HandOverIsBootable` | project/boot/main.c:517-519 | What the loader hands over is what the allocator's start-up asks for: BootInfo and map lie outside conventional memory, and the magic matches |
| `EndToEnd.ResultMissesBlock` | project/kernel/mm/pmm.c:207-226 | No allocation result touches a block the final map types as loader data |
| `EndToEnd.BlockKept` | project/kernel/mm/pmm.c:207-226 | Such a block keeps its bytes in physical memory over every disciplined run, the allocator's variables excepted |
| `PmmStatics.StaticsReadBack` | project/kernel/mm/pmm.c:61-69 | Physical memory holds each variable at its offset |
| `PmmStatics.TakeStores` | project/kernel/mm/pmm.c:261-262 | A successful allocation is three stores to physical memory: its bitmap word, `free_pages` and `next_word` |
| `PmmStatics.GiveBackStores` | project/kernel/mm/pmm.c:286-289 | So is a disciplined release |
| `PmmStatics.PokeStores` | project/kernel/mm/pmm.c:219-226 | A client's write inside a held page is that write to physical memory and misses the variables |
| `PmmStatics.RunKeepsStatics` | project/kernel/mm/pmm.c:248-290 | Over every disciplined run the variables are the only bytes outside bitmap and pool that change |
| `PmmStatics.PhysicalStepIs` | project/kernel/mm/pmm.c:248-290 | One operation on physical memory, with variables and words read from it and stored back to it, is one step of the system |
| `PmmStatics.PhysicalRunIs` | project/kernel/mm/pmm.c:248-290 | Every disciplined run played on physical memory alone gives the memory and the results of the system's run |
| `PmmStatics.StartHouses` | project/kernel/mm/pmm.c:219-226 | Variables outside conventional memory lie off the bitmap and off every page that is free after start-up |
| `KernelTables.GateDecodes` | project/kernel/arch/x86_64/idt.c:154-165 | The gate bytes decode to the handler address, selector 0x08, the masked IST index and a usable ring-0 interrupt gate |
| `KernelTables.TssDescriptorDecodes` | project/kernel/arch/x86_64/gdt.c:144-158 | The base reassembles from its four pieces and a limit below 2^20 from its two; present, available, byte granularity |
| `KernelTables.RowsDecode` | project/kernel/arch/x86_64/gdt.c:86-105 | The two rows are the values 0x00AF9A000000FFFF and 0x00CF92000000FFFF: a present 64-bit ring-0 code segment and a present writable ring-0 data segment |
| `KernelTables.Tables.GdtSet` | project/kernel/arch/x86_64/gdt.c:125-133 | Writes one row and no byte outside it |
| `KernelTables.Tables.GdtSetTss` | project/kernel/arch/x86_64/gdt.c:144-158 | Writes the 16-byte descriptor over rows 3 and 4 and no byte outside them |
| `KernelTables.Tables.GdtInit` | project/kernel/arch/x86_64/gdt.c:160-174 | Null row, code row, data row in place; GDTR names the five-row table |
| `KernelTables.Tables.TssInit` | project/kernel/arch/x86_64/tss.c:59-91 | IST1 is the top of the double-fault stack, the descriptor decodes to this TSS and its limit, the task register names it, and the segments survive |
| `KernelTables.Tables.IdtSetGate` | project/kernel/arch/x86_64/idt.c:154-165 | Writes one gate and no byte outside it |
| `KernelTables.Tables.IdtInit` | project/kernel/arch/x86_64/idt.c:167-201 | All 256 gates hold the handler and IST of their vector, with the double-fault override, IDTR names the table, and TSS and segments survive |
| `KernelTables.Tables.TablesKept` | project/kernel/arch/x86_64/idt.c:82-89 | Stores outside the three tables leave all of them as they are |
| `Exceptions.Install` | project/kernel/main.c:97-106 | The start-up order leaves every table installed and both registers loaded |
| `Exceptions.FrameOfStack` | project/include/kernel/idt.h:51-79 | Twenty-two words in push order are the fields of the frame structure at their offsets |
| `Exceptions.AgreedExactly` | project/kernel/arch/x86_64/isr.asm:13-88 | Stubs and processor agree exactly on the eight vectors; a processor that also pushes a code on 29 and 30 disagrees on those two only |
| `Exceptions.FrameWhenDisagreed` | project/kernel/arch/x86_64/isr.asm:103-113 | If processor and stub disagree on the error code, the frame read is not the faulting state (for a non-null interrupted CS) |
| `Exceptions.AmdErrorCodeMisread` | project/kernel/arch/x86_64/isr.asm:86-87 | On vectors 29 and 30 with an error code, the handler reads error code 0, the code as RIP, RIP as CS and CS as RFLAGS |
| `Exceptions.Processor.IsrCommon` | project/kernel/arch/x86_64/isr.asm:115-142 | Fifteen pushes build the saved registers below what was there, clear DF and pass RSP |
| `Exceptions.Processor.RunStub` | project/kernel/arch/x86_64/isr.asm:41-99 | Each stub shape pushes its own words, vector last, then the common part |
| `Exceptions.Processor.Deliver` | project/kernel/arch/x86_64/isr.asm:103-113 | The processor's part: stack choice, alignment, five words and any error code, then the gate's selector and offset |
| `Framebuffer.PackedChannels` | project/kernel/main.c:73-78 | All three channels are recoverable from a packed pixel in either format, and the top byte is 0 |
| `Framebuffer.LevelBounds` | project/kernel/main.c:203 | The level lies in 32..254 for every width, so the 8-bit cast loses nothing |
| `Framebuffer.LitByLevel` | project/kernel/main.c:192-203 | The level computed is the brightness described by the position in the ramp, remainder columns and rows of one or two columns included |
| `Framebuffer.LitOnce` | project/kernel/main.c:203 | That description has one value in each column, between 32 and 254 |
| `Framebuffer.RampRisesExactly` | project/kernel/main.c:192-203 | The level never falls within a bar if and only if the widest offset times 223 fits 32 bits |
| `Framebuffer.LastColourRisesExactly` | project/kernel/main.c:182-193 | The last colour rises to the right edge if and only if, besides that, the width is a multiple of three or below six |
| `Framebuffer.FillRow` | project/kernel/main.c:181-210 | The row holds the ramp pixel of each column and no other cell changes |
| `Framebuffer.FrameRow` | project/kernel/main.c:218-225 | Frame cells of the row become white, its other cells and all other rows keep their values |
| `Framebuffer.EndStoresInside` | project/kernel/main.c:222-225 | In a buffer of fewer than 2^32 pixels that reaches to the last visible cell, both end stores of every inner row stay inside if and only if there is a column or no inner row |
| `Framebuffer.OverlappingRowsCannotShow` | project/kernel/main.c:172-179 | With more than two rows and columns and rows less than `width - 1` apart, no framebuffer contents show the picture |
| `Framebuffer.RowDrawn` | project/kernel/main.c:172-226 | Where rows share cells only on the frame, a finished row leaves earlier rows showing the picture |
| `Framebuffer.SharedCellOnFrame` | project/kernel/main.c:172-226 | A cell shared by two rows is on the frame of both when there are at most two rows or columns, or rows at least `width - 1` apart |

## Left out

- poc1: a frozen snapshot of the same loader and drawing code.
- Serial output and log lines: port I/O and formatting; every log call is a no-op here, and a
  fatal stop is an explicit outcome.
- Graphics lookup, pixel-format normalisation, the RSDP search, opening the kernel file, console
  output and the watchdog: firmware plumbing; their results are parameters of `EfiMain`.
- Inline assembly, gdt_flush.asm and entry.asm: loading a register is modelled as an assignment
  to the register's field.
- memset, memcpy, the Makefiles, disk images and linker scripts: the kernel's extent is a pair of
  parameters.
- Paging, caches and concurrency: memory is identity-mapped, and one core runs with interrupts
  masked.
- The entry point lying inside a loaded segment: the loader does not check it.
- Eight spare descriptors always being enough for the map buffer: a hypothesis of the claim that
  the first exit attempt succeeds.
- Memory the firmware writes for itself: only writes that the called services document are
  modelled.
- ElfFile.LoadSegments: which blocks and bytes the rest of the load touches once a segment that does
  not fit has been stored; it may have changed the program header table, or the loader itself,
  whose own memory is not part of the model.
- RFLAGS changes at gate entry, canonical-address checks and privilege changes: the kernel runs in
  ring 0 only.
- What exception_dispatch prints, and CR2.
- Pmm.PageAllocator.Init: the passes of the source's one function are separate methods called in
  its order; so are the loop body of the self-test, the segment loop of the loader, the exit
  attempt, the two halves of the boot sequence and the two row loops of the drawing code.
- ElfFile.ReadHeader: the ELF header lives in an object of its own instead of the loader's stack.
- KernelTables.Tables.GdtInit: the readback of CS and SS is only logged in the source and is not
  modelled.
- Page and word counts reported for logging, and pmm_free_count and pmm_tracked_count, which
  return a field.
