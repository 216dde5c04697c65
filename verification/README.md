# kernalite memory management, modelled and proved

A Dafny model of the memory-management core of kernalite, a small AArch64 kernel: the bitmap page allocator, the
four-level page table built on its pages, the boot sequence that protects the kernel image, and the loops around
them (cache invalidation, number printing and parsing, formatted output, memory moves, device-tree memory regions).

The methods keep the source's steps: the allocator is a class over a byte array, the page-table code a class over
physical memory, and each loop of the source is a loop with invariants. Every such method is proved against a
specification function or predicate, and the results are lemmas about those.

| file | what it holds |
|---|---|
| `Descriptors.dfy`, `DescriptorLayout.dfy` | page table entries: the bit-fields, the leaf `map_page` writes, and the raw 64-bit word |
| `Bitmap.dfy`, `PageSets.dfy`, `PageAllocator.dfy` | bytes and bits, sets of pages and first fit, and the allocator class |
| `TableTree.dfy`, `TableSteps.dfy`, `Mapping.dfy` | the tree in memory and the flat map it stands for, single writes, and `map_page` |
| `PageTable.dfy` | the page-table methods over memory and allocator |
| `Dump.dfy`, `Rebuild.dfy` | the recursive dump, and rebuilding a tree from it |
| `Ownership.dfy`, `Boot.dfy` | whole runs of clients, many trees at once, and what boot guarantees them |
| `PhysicalMemory.dfy`, `OneMemory.dfy` | one byte-addressed memory that holds tables, pages, image and bitmap, and every operation as stores on it |
| `CacheMaintenance.dfy` | `dcache_inval_poc` |
| `Numerals.dfy`, `Formatter.dfy`, `Copy.dfy`, `MemoryMap.dfy` | `itoa`/`strtoul`, `vprintf`, `memmove`/`memcpy`, `get_mem` |
| `Arithmetic.dfy`, `Wrappers.dfy` | word sizes, division facts, an option type |

## How to read it

- A page table is a 4 KiB frame of 512 entries; memory is a map from frame addresses to frames. `Walk` gives the
  table that serves a prefix of the virtual page number, `Translate` the mapping of a page number (bits 47:12 of a
  virtual address). `WellFormed` says that no frame is reached in two ways, that every table below the root is a page
  marked used, and that every entry is zero, a table entry, or a leaf of `map_page`.
- A pointer is an address and 0 is NULL. A pointer to an entry is modelled by passing the entry in and out
  (`Kernel.GetNextLevelTable`); the dump drops the result because its pointer is to a local copy.
- 64-bit arithmetic is written out with `% TWO_64` where it can wrap. Shifts and masks by constants are divisions and
  remainders. The bits of the bitmap are real bit operations on bytes.
- The descriptor union is a record of its fields; `DescriptorLayout` proves that the record and the raw word are two
  views of the same 64 bits, and where the fields stand. `PhysicalMemory` reads frames and used pages off one memory of
  bytes, and `OneMemory` carries the results over to it: its run functions do what the run model does with bitmap and
  frames apart, and a walk that loads raw words finds the flat map.
- An integer argument of `%x` or `%l` is its 64 bits, a negative one in two's complement.

## Findings

- `map_page` keeps only bits 47:12 of the physical address, so what it maps is the address exactly when that is below
  2^48 (`MappedAddress`).
- Writable but unreadable pages decode as neither (`LeafEntryMeaning`), because the code overwrites the access bits
  when reading is denied. The comment there promises read/write access at EL1, the constant it writes denies writing
  at both levels; the model follows the code.
- A block at address 0 looks like a failed allocation, and `page_free` takes it for NULL, so its pages leak: exactly when
  the managed range starts at address 0 and its first n pages are free (`AllocThenFree`, with `LeakAtZero` a run that
  does). After a successful boot it cannot happen: `BootMemory` ensures `0 < memBase`.
- `reserve_page` from an address inside a page leaves out the last page of the range (`ReservationCoversExactly`); the
  image reservation at boot is safe because the image starts on a page boundary (`ImagePagesCover`).
- `dcache_inval_poc` can lose data exactly when the interval is empty and starts on a line boundary, or when the start is in the last
  line of the address space and the end is not in the first (`InvalPocExactlySafe`).
- `%lu` and `%ld` print hexadecimal (`LongIsAlwaysHex`), although the kernel's own messages use `%lu`: the output is the
  decimal one exactly for single digits, 0 to 9 (`LongIsDecimalExactly`); 10 already prints as `a` (`TenPrintsAsA`).
- `tests/page_table_map_test.c` uses a root page it never clears. A used page is an empty tree exactly when it is cleared
  (`ClearedRootExactly`), as `page_table_init` leaves it.

## Model

| member | source | states |
|---|---|---|
| Mapping.MapPageRefinesFlatMap | src/kernel/page_table/page_table.c:185-261 | A successful `map_page` is an update of the flat map at one page number and nowhere else; it succeeds exactly when the address is page aligned and no more tables are missing than pages are free, takes exactly that many pages, keeps the tree well formed either way, and a failed call changes no translation and, unless refused for alignment, leaves no free page |
| Mapping.MapPageTouchesOnlyThePath | src/kernel/page_table/page_table.c:87-115 | Every table is kept, new tables stand only on the path to the page and were free pages, a successful call completes the path, no frame but a table on it is written, and no page is taken that is not such a table |
| Mapping.MappedAddress | src/kernel/page_table/page_table.c:29-35 | The mapped address is the given one modulo 2^48, the given one exactly when it is below 2^48 |
| Mapping.MapPageStoresWord | src/kernel/page_table/page_table.c:225-259 | After a successful call the raw leaf word is 3 (valid and table), plus bits 47:12 of the address, plus the access bits 62:61 (0b11 no access, 0b00 read and write, 0b01 read only), plus bits 59 and 60 unless executable; every other bit is 0 |
| Mapping.NextLevelStep | src/kernel/page_table/page_table.c:105-115 | One level of the descent returns the table below or links a cleared free page; it fails exactly when the table is missing and no page is free |
| Mapping.IndicesSpellPrefixes | src/kernel/page_table/page_table.c:195-204 | The four nine-bit indices of an address spell bits 47:12 of it, level by level, whatever bits 63:48 and 11:0 are |
| Mapping.PageNumberBits | src/kernel/page_table/page_table.c:195-204 | Bit b of the page number is bit b + 12 of the address for b below 36, and there are no others, for every address |
| Mapping.RunIsLastWriteWins | src/kernel/page_table/page_table.c:185-261 | After any sequence of calls every page has the mapping of the last successful call that named it, or its old one |
| Rebuild.RunSucceedsExactly | src/kernel/page_table/page_table.c:206-223 | Any sequence of calls succeeds throughout exactly when every address is page aligned and there is a free page for each distinct table the calls need and the tree lacks |
| Rebuild.RunTakesTables | src/kernel/page_table/page_table.c:206-223 | An aligned sequence that succeeds also leaves exactly the old tables and the needed ones, and takes one page for each new one |
| Rebuild.RebuildRoundTrip | src/kernel/page_table/page_table.c:124-176 | Replaying the dump of any well-formed tree into a cleared root gives the same flat map, and every call succeeds exactly when each table the mapped pages need has a free page, never more than the old tree has |
| Dump.DumpListsFlatMap | src/kernel/page_table/page_table.c:124-176 | The dump visits exactly the domain of the flat map, one record a page with its address and leaf, in strictly increasing address order |
| Dump.EntriesList | src/kernel/page_table/page_table.c:127-145 | The dump of part of a table at any level lists exactly the pages those entries span, at the addresses their indices spell |
| Dump.PartialAddressBits | src/kernel/page_table/page_table.c:127-139 | Bit by bit, the partial address takes the nine bits of its level from the index and all other bits from the prefix, as the shift, the mask and the or do |
| TableTree.OneParent | src/kernel/page_table/page_table.c:74-115 | In a well-formed tree each table below the root is the target of exactly one valid entry at exactly one level, the root of none, and valid entries have the table bit |
| TableSteps.LinkWalk | src/kernel/page_table/page_table.c:87-98 | Linking a table adds exactly one table to the tree and moves none |
| TableSteps.LinkWellFormed | src/kernel/page_table/page_table.c:87-98 | Linking a table keeps the tree well formed |
| TableSteps.LinkTranslate | src/kernel/page_table/page_table.c:87-98 | Linking a table changes no translation |
| TableSteps.LeafTranslate | src/kernel/page_table/page_table.c:225-259 | Overwriting a leaf changes the translation of its page and of no other |
| TableSteps.LeafWellFormed | src/kernel/page_table/page_table.c:225-259 | Overwriting a leaf keeps the tree well formed |
| PageTable.Kernel.PageTableInit | src/kernel/page_table/page_table.c:178-183 | Clears all 512 entries of one frame and changes nothing else |
| PageTable.Kernel.AllocateNewTable | src/kernel/page_table/page_table.c:87-98 | Takes and clears the lowest free page and points the entry at it; without a free page nothing changes |
| PageTable.Kernel.GetNextLevelTable | src/kernel/page_table/page_table.c:105-115 | The table a valid entry points at, with nothing changed; otherwise a fresh one, or NULL |
| PageTable.Kernel.NextTable | src/kernel/page_table/page_table.c:206-223 | One level of the descent in place refines the function the lemmas are about, and NULL means no page was free |
| PageTable.Kernel.Descend | src/kernel/page_table/page_table.c:206-223 | The three levels in place refine the same descent, and a table returned is real memory |
| PageTable.Kernel.MapPage | src/kernel/page_table/page_table.c:185-261 | The method over memory and bitmap has exactly the effect and result of the function the theorems are about, and keeps the tree well formed |
| PageTable.Kernel.DumpMemoryMapRecursive | src/kernel/page_table/page_table.c:124-176 | Prints the records of the table and changes neither memory nor bitmap, though it calls the allocating helper; terminates by level |
| PageTable.Kernel.DumpMemoryMap | src/kernel/page_table/page_table.c:263-268 | Prints the records of the whole tree and changes neither memory nor bitmap |
| Descriptors.LeafEntryMeaning | src/kernel/page_table/page_table.c:225-259 | A leaf is valid with bits 47:12 of its address, is executable and readable as asked and writable only if also readable, and is rewritten by what it decodes to |
| Descriptors.AddressKeptExactly | src/kernel/page_table/page_table.c:29-46 | An address survives the entry exactly when it is page aligned and below 2^48, and the other fields are untouched |
| DescriptorLayout.UnionViews | src/include/page_table/page_table.h:67-230 | The bit-fields and the raw word determine each other, for every entry and every 64-bit word |
| DescriptorLayout.FieldPositions | src/include/page_table/page_table.h:79-218 | valid, table, the address, PXN, XN and AP stand at bits 0, 1, 47:12, 59, 60 and 62:61 of the raw word |
| DescriptorLayout.LeafWord | src/include/page_table/page_table.h:248-253 | The word of the leaf for an aligned address and permissions, every bit written out |
| DescriptorLayout.TableWord | src/kernel/page_table/page_table.c:74-81 | The word of a link is the table address plus 3 |
| DescriptorLayout.PermissionBits | src/kernel/page_table/page_table.c:151-171 | The permissions read back are bits 62:61 and bit 60 of the raw word, for every word |
| DescriptorLayout.LeafFlags | src/kernel/page_table/page_table.c:149-150 | The low twelve bits the dump prints are 3 for every leaf |
| PageSets.FirstFitFrom | src/kernel/allocator/page_allocator.c:134-166 | The search finds a free window inside the pool, no lower one is free, and it finds none only if there is none |
| PageSets.FirstFitUnique | src/kernel/allocator/page_allocator.c:134-166 | The window found is the lowest one of n free pages, and none is found exactly when there is none |
| PageSets.FreeCountCounts | src/kernel/allocator/page_allocator.c:122-197 | The free count is the number of pages of the pool that are not used |
| PageSets.TakeAndGiveBack | src/kernel/allocator/page_allocator.c:122-197 | Taking a free window lowers the free count by its size and giving it back restores the set; reserving lowers it by the pages newly used and is idempotent |
| PageSets.OnePageFits | src/kernel/allocator/page_allocator.c:137-159 | A single page can be had exactly while some page is free |
| PageAllocator.Allocator.constructor | src/kernel/allocator/page_allocator.c:23-30 | Before page_init the allocator manages nothing |
| PageAllocator.Allocator.PageInit | src/kernel/allocator/page_allocator.c:32-92 | Succeeds exactly when the region holds its own alignment and its bitmap fits; it then manages the largest run of whole pages in the region, all free; a region that is too small leaves every field alone, and one whose bitmap does not fit leaves base and page count set to that run and the bitmap pointer alone |
| PageAllocator.AlignUp | src/kernel/allocator/page_allocator.c:37-59 | Rounding up and dividing, in wrapping arithmetic, gives the only largest run of whole pages |
| PageAllocator.Allocator.ReservePage | src/kernel/allocator/page_allocator.c:94-120 | Exactly when the range is accepted; then the bits of its n pages are set and no other bit of the bitmap changes |
| PageAllocator.ReservationCoversExactly | src/kernel/allocator/page_allocator.c:112-116 | Every byte of the range is in a reserved page exactly when the pointer is page aligned or the count is 0 |
| PageAllocator.Allocator.FindWindow | src/kernel/allocator/page_allocator.c:134-162 | The scan that counts consecutive free pages finds the lowest window of n free pages, or that there is none |
| PageAllocator.Allocator.PageAlloc | src/kernel/allocator/page_allocator.c:122-167 | Marks exactly the lowest window of n free pages and returns its address; without one, or for n = 0, returns NULL with the bitmap untouched |
| PageAllocator.Allocator.PageFree | src/kernel/allocator/page_allocator.c:169-197 | Clears exactly the named pages, cut off at the last one; outside the range, or when the count wraps, nothing changes |
| PageAllocator.FreeEnd | src/kernel/allocator/page_allocator.c:184-194 | Where the loop stops in 64-bit arithmetic: at the range's end or the last page, and before its start when the sum wraps |
| PageAllocator.Allocator.AllocThenFree | src/kernel/allocator/page_allocator.c:122-197 | Allocating and freeing restores every bitmap byte, except exactly when the managed range starts at address 0 and its first n pages are free: they leak |
| PageAllocator.LeakAtZero | src/kernel/allocator/page_allocator.c:169-172 | Such a range exists: the first page of eight at address 0 stays used after it was freed |
| PageAllocator.FillThenClear | src/kernel/allocator/page_allocator.c:148-196 | Setting and clearing the bits of free pages restores the bitmap byte for byte |
| PageAllocator.Allocator.MarkUsed | src/kernel/allocator/page_allocator.c:148-151 | The byte-level loop sets the bits of the range and no other bit |
| PageAllocator.Allocator.MarkFree | src/kernel/allocator/page_allocator.c:194-196 | The byte-level loop clears the bits of the range and no other bit |
| PageAllocator.FillUses | src/kernel/allocator/page_allocator.c:112-116 | Setting bits below the page count is a union of page sets and keeps the padding bits clear |
| PageAllocator.FillFrees | src/kernel/allocator/page_allocator.c:184-196 | Clearing them is a difference of page sets, also for a range cut off at the end |
| Bitmap.StoresInjective | src/kernel/allocator/page_allocator.c:138 | The bits determine the bytes |
| Bitmap.MaskIsShift | src/kernel/allocator/page_allocator.c:115 | The mask the other lemmas use is 1 shifted left by the bit's number |
| Bitmap.BitAtIs | src/kernel/allocator/page_allocator.c:138 | Page 8j + k has bit k of byte j |
| Bitmap.SetStores | src/kernel/allocator/page_allocator.c:115 | Setting bit i % 8 of byte i / 8 changes bit i of the bit string and no other |
| Bitmap.ClearStores | src/kernel/allocator/page_allocator.c:195 | Clearing bit i % 8 of byte i / 8 changes bit i of the bit string and no other |
| PageAllocator.Allocator.PageDumpStatus | src/kernel/allocator/page_allocator.c:199-243 | The printed lines are the blocks of the run-length code of the pages, nonempty, adjacent, alternating, covering all pages, each with its first and its inclusive last address and its number of pages |
| PageAllocator.LinesAre | src/kernel/allocator/page_allocator.c:225-236 | The lines start at the base, leave no gap, end at the last byte of the last page, alternate, count their pages, and say of every page whether its bit is set |
| PageAllocator.LinesDetermineBitmap | src/kernel/allocator/page_allocator.c:225-236 | Two bitmaps that print the same lines over the same base are equal, so the printed addresses lose nothing |
| PageAllocator.RunLengthCodeUnique | src/kernel/allocator/page_allocator.c:215-241 | A bitmap has only one run-length code, so the dump is canonical |
| Ownership.RunKeepsOwnership | src/kernel/allocator/page_allocator.c:94-197 | Over any run of allocations, releases of live blocks, new roots, mappings and stores into live blocks, reserved pages, live blocks and trees are disjoint and exactly the used pages, every tree is well formed, and no reserved page or frame outside the range is written |
| Ownership.TreesAreIsolated | src/kernel/page_table/page_table.c:185-261 | No operation but a mapping in a tree itself changes what that tree translates, however many trees share the allocator |
| Ownership.StepKeepsInv | src/kernel/page_table/page_table.c:87-98 | Every single operation keeps the one-owner invariant |
| Ownership.AllocMeans | src/kernel/allocator/page_allocator.c:122-167 | An allocation adds one live block, the lowest n adjacent free pages, and marks exactly them, exactly when n > 0 and there are such pages; otherwise nothing happens |
| Ownership.ReleaseMeans | src/kernel/allocator/page_allocator.c:169-197 | A release frees exactly the pages of a live block and ends it |
| Ownership.NewRootMeans | src/kernel/page_table/page_table.c:178-183 | A new root is one page of a client, becomes a tree of one page, and maps nothing |
| Ownership.StoreMeans | src/kernel/allocator/page_allocator.c:122-167 | A store leaves its words in a page of a live block and changes nothing else |
| Ownership.MapOwnTree | src/kernel/page_table/page_table.c:206-223 | After a mapping the pages of the tree are its old ones and exactly the pages newly marked used |
| Ownership.ClearedRootExactly | src/kernel/page_table/page_table.c:178-183 | A used page is a well-formed tree of one page exactly when it is cleared |
| Ownership.RunTranslates | src/kernel/page_table/page_table.c:185-261 | After any run of allocations, releases, new roots, stores and mappings in any trees, each tree maps exactly what the last successful map_page calls on it wrote, or what it mapped before |
| Boot.ReserveKernelImagePages | src/kernel/main.c:82-96 | Succeeds exactly when the rounded-up image lies inside a managed range that does not start at 0; then as many pages as the image size rounds up to are marked, from the image start on; a refused one changes nothing |
| Boot.BootMemory | src/kernel/main.c:126-146 | Boot goes on exactly when there is one region, the bitmap has room for its largest run of whole pages, and the rounded-up image lies inside that run above address 0; then exactly the image pages are in use |
| Boot.ImagePagesCover | src/kernel/main.c:84-86 | The reserved pages are those that hold a byte of the image exactly under a condition on its start and size; an image on a page boundary always meets it |
| Boot.BootProtectsImage | scripts/linker.ld:13-16 | After boot no table, root or client store of any run writes a frame that holds any part of the image, and no block or tree overlaps it |
| Boot.BootAndRun | src/kernel/main.c:126-146 | Booting and then performing any run with the kernel's own methods: boot succeeds exactly when it can, memory and bitmap end in the run model's state, every frame of the image is what it was before boot, and no block or tree overlaps it |
| Boot.Perform | src/kernel/allocator/page_allocator.c:122-197 | Every step of a run is what the kernel's own methods do to memory and bitmap, with clients keeping their blocks and roots |
| Boot.PerformAll | src/kernel/allocator/page_allocator.c:122-197 | So is every whole run |
| PhysicalMemory.FramesStored | src/include/page_table/page_table.h:67-230 | Storing the eight bytes of an entry's raw word changes that entry of the memory read as frames, and nothing else |
| PhysicalMemory.FrameBytes | src/include/page_table/page_table.h:67-230 | A frame of entries determines its 4096 bytes |
| PhysicalMemory.WordOfAt | src/include/page_table/page_table.h:67-230 | Words are little-endian: byte j counts 256 to the power j |
| PhysicalMemory.BitInIs | src/kernel/allocator/page_allocator.c:138 | In memory too, page 8j + k has bit k of the j-th byte of the bitmap |
| PhysicalMemory.BitUsed | src/kernel/allocator/page_allocator.c:148-196 | A byte store that sets or clears one bit of the bitmap in memory adds or removes exactly that page |
| OneMemory.LinkIn | src/kernel/page_table/page_table.c:87-98 | Setting the bit, clearing the page and storing the entry, one after the other in one memory, links the table |
| OneMemory.MapPageAgrees | src/kernel/page_table/page_table.c:185-261 | map_page's loads and stores on one memory do what map_page does with bitmap and frames apart, as long as the bitmap reaches into no free page and no table on the path |
| OneMemory.RunAgrees | src/kernel/allocator/page_allocator.c:94-197 | Every run of operations on one memory does what the run model does with bitmap and frames apart, while the pages the bitmap reaches into are reserved |
| OneMemory.RawWalkReadsFlatMap | tests/page_table_map_test.c:41-71 | A walk that loads one raw word a level finds the raw word of the flat map's leaf, and nothing exactly where the flat map has nothing |
| OneMemory.BootedMemoryIsSafe | scripts/linker.ld:29-33 | From any memory, after boot with the bitmap inside the image and any run: each bit of the bitmap, padding included, says whether its page has an owner, and every other byte of the image is unchanged |
| CacheMaintenance.LineSizeDivides | src/boot/boot.s:69-74 | The line size read from CTR_EL0 divides the address space |
| CacheMaintenance.LineSizeIs | src/boot/boot.s:69-74 | A field of k in bits 19:16 of CTR_EL0 means lines of 2 to the k + 2 bytes |
| CacheMaintenance.Cache.DcacheInvalPoc | src/boot/boot.s:251-269 | The register loop, additions wrapping, ends in the state the lemmas below describe, for all starts and ends; for a nonempty interval not starting in the last line, exactly the lines of 2 to the k + 2 bytes that overlap it have left the cache |
| CacheMaintenance.ResultIs | src/boot/boot.s:251-269 | For all inputs: which lines leave the cache, and which of them reach memory first |
| CacheMaintenance.InvalPocIsSafe | src/boot/boot.s:241-250 | For a nonempty interval not starting in the last line, exactly the overlapping lines leave the cache, partial lines reach memory, and every line with a byte outside loads as before |
| CacheMaintenance.InvalPocExactlySafe | src/boot/boot.s:251-269 | Exactly for which intervals no cache with lines of the given size can lose a byte outside the interval |
| CacheMaintenance.OverlapsByBytes | src/boot/boot.s:241-250 | A line overlaps the interval when it has a byte in it, and spills over when it has a byte outside |
| Numerals.Itoa | src/kernel/utils/kprintf.c:25-49 | The buffer holds the positional numeral and its terminator, and nothing behind it changes |
| Numerals.ReverseInPlace | src/kernel/utils/kprintf.c:41-48 | The two-pointer loop reverses the digits in place |
| Numerals.Strtoul | src/kernel/utils/string.c:123-159 | Reads the longest run of digits behind an optional hexadecimal prefix, modulo 2^64, and says where it ends |
| Numerals.SpelledAppend | src/kernel/utils/string.c:152 | One more digit multiplies by the base and adds its value |
| Numerals.DetectsBase | src/kernel/utils/string.c:128-134 | Base 0 reads as base 16 behind 0x or 0X, and as base 10 otherwise |
| Numerals.SkipsPrefix | src/kernel/utils/string.c:128-131 | Behind 0x or 0X the digits are read as without it, two characters further on |
| Numerals.CaseDoesNotMatter | src/kernel/utils/string.c:142-145 | Upper-case and lower-case spellings, prefix included, read alike |
| Numerals.NumeralSpells | src/kernel/utils/kprintf.c:32-37 | A numeral consists of digits of its base and spells its number |
| Numerals.NumeralDigit | src/kernel/utils/kprintf.c:32-37 | Digit i from the right is the remainder of n / base^i, as one of 0 to 9 and a to f |
| Numerals.DigitTable | src/kernel/utils/string.c:140-147 | The sixteen digit characters in both cases, and no other character is a digit |
| Numerals.LowerCase | src/kernel/utils/kprintf.c:26-37 | Only decimal digits and the lower-case letters a to f are printed, for every base up to 16 |
| Numerals.SameNumeralExactly | src/kernel/utils/kprintf.c:25-49 | Hexadecimal and decimal print the same exactly for numbers below 10 |
| Numerals.NoLeadingZero | src/kernel/utils/kprintf.c:32-37 | No numeral starts with 0 but that of zero, which is a single 0 |
| Numerals.NumeralFits | src/kernel/utils/kprintf.c:67 | A 64-bit number has at most 20 decimal and 16 hexadecimal digits, so it fits the 64-byte buffer |
| Numerals.RoundTrip | src/kernel/utils/string.c:123-159 | For every base from 2 to 16, what itoa prints strtoul reads back, ending at the terminator |
| Numerals.PrintThenParse | src/kernel/utils/kprintf.c:96-98 | The two loops one after the other, over the 64-byte buffer, return the number printed |
| Formatter.Console.Vprintf | src/kernel/utils/kprintf.c:62-162 | The characters sent are the rendering of the parsed format, and the result is their number; without a console nothing is sent |
| Formatter.Console.PutConversion | src/kernel/utils/kprintf.c:84-159 | The switch on the conversion character sends what the directive means and takes an argument exactly if the directive has one |
| Formatter.Console.PutNumber | src/kernel/utils/kprintf.c:96-102 | A number is sent as its numeral, through the 64-byte buffer |
| Formatter.PrintsUnsigned | src/kernel/utils/kprintf.c:138-146 | `%u` sends the decimal numeral, whatever follows |
| Formatter.PrintsDecimal | src/kernel/utils/kprintf.c:122-137 | `%d` sends the decimal numeral, behind a minus sign if the number is negative |
| Formatter.PrintsHex | src/kernel/utils/kprintf.c:89-103 | `%x` sends the hexadecimal numeral of its argument, of a signed one modulo 2^64 |
| Formatter.PrintsPointer | src/kernel/utils/kprintf.c:90-104 | `%p` sends 0x and the hexadecimal numeral |
| Formatter.PrintsChar | src/kernel/utils/kprintf.c:105-111 | `%c` sends its character |
| Formatter.PrintsText | src/kernel/utils/kprintf.c:112-121 | `%s` sends its text, and (null) for a null pointer |
| Formatter.PrintsPercent | src/kernel/utils/kprintf.c:147-157 | `%%` sends one percent sign, and a percent sign before any unknown character is sent with it |
| Formatter.PrintsPlain | src/kernel/utils/kprintf.c:72-80 | Any other character is sent as it is, a newline behind a carriage return |
| Formatter.WordIs | src/kernel/utils/kprintf.c:96 | The 64 bits of an integer argument are its value modulo 2^64 |
| Formatter.LongIsAlwaysHex | src/kernel/utils/kprintf.c:85-104 | A directive starting with l prints the 64 bits of its argument, signed or not, in hexadecimal whatever follows, and takes one more character |
| Formatter.LongIsDecimalExactly | src/kernel/utils/kprintf.c:85-104 | `%lu` of an unsigned and `%ld` of a signed number give the decimal output exactly when the number is 0 to 9, before any rest of the format |
| Formatter.TenPrintsAsA | src/kernel/utils/kprintf.c:85-104 | A number that `%lu` gets wrong: 10 is printed as a |
| Formatter.PointerReadsBack | src/kernel/utils/kprintf.c:90-104 | A printed pointer, prefix and all, parses back to itself |
| Copy.Memmove | src/kernel/utils/string.c:50-69 | The destination gets the bytes the source had, for every overlap, and nothing else changes |
| Copy.Memcpy | src/kernel/utils/string.c:15-23 | The loop is the forward copy the next member is about |
| Copy.MemcpyExactlySafe | src/kernel/utils/string.c:15-23 | A forward copy moves every buffer correctly exactly when the destination does not start inside the source |
| MemoryMap.GetMem | src/kernel/fdt/fdt.c:48-129 | Refuses null arguments with nothing written, and a tree without a root with its code; succeeds exactly with a root, one or two cells of each kind, and reg properties that are whole numbers of entries; the map holds what the nodes before a refused one give |
| MemoryMap.ReadTree | src/kernel/fdt/fdt.c:54-128 | The same past the null checks, with every pair read accounted for |
| MemoryMap.PairAt | src/kernel/fdt/fdt.c:100-116 | The i-th pair of a property starts (a + s) * 4 * i bytes in; its first a cells are the base and the next s cells the size |
| MemoryMap.PairCount | src/kernel/fdt/fdt.c:94 | A property has as many pairs as fit into its bytes |
| MemoryMap.BigEndianAt | src/kernel/fdt/fdt.c:107-116 | Byte j of n counts 256 to the power n - 1 - j |
| MemoryMap.NodesInOrder | src/kernel/fdt/fdt.c:76-80 | The nodes are read one after the other |
| MemoryMap.OneNode | src/kernel/fdt/fdt.c:79-84 | A node gives the pairs of its property, and none without one |
| MemoryMap.PairsReadAre | src/kernel/fdt/fdt.c:86-92 | What is read is the pairs of all nodes before the first whose property is not whole |
| MemoryMap.NonZeroPicks | src/kernel/fdt/fdt.c:119-123 | The pairs kept are all those of nonzero size, in their order |
| MemoryMap.WantedIsFirstSixteen | src/kernel/fdt/fdt.c:96-125 | What the map holds is the first 16 entries of nonzero size, in order |
| MemoryMap.PrefixEnds | src/kernel/fdt/fdt.c:86-92 | A refused property ends the reading there, and success means every property was whole, even past a full map |
| MemoryMap.RegionMap.AddReg | src/kernel/fdt/fdt.c:94-125 | The pairs of a property are read in order, whether or not the map fills up on the way |
| MemoryMap.RegionMap.ReadCells | src/kernel/fdt/fdt.c:107-116 | Shifting 32-bit cells together gives the big-endian number their bytes spell |

## Left out

- Physical memory at or above 2^48 for page tables: `ValidState` requires the managed range to end at 2^48 or below, because a descriptor has no more address bits (`AddressKeptExactly`).
- Boot.BootMemory: does not model a region or image that ends at the very top of the 64-bit address space, where the source's end addresses wrap.
- PageAllocator.Allocator.ReservePage: does not model page counts so large that `num_pages * PAGE_SIZE` or the end address wraps 64 bits; the source has no check for them.
- PageAllocator.Allocator.PageAlloc: does not model calls after a `page_init` that failed for want of bitmap space, which leaves the page count set and the bitmap pointer NULL.
- Formatter.Console.Vprintf: does not model formats whose last directive runs into the terminator, `%d` of the least 64-bit number, or more characters than an `int` counts, all undefined in C.
- Copy.Memmove: source and destination are offsets in one buffer; two separate objects are not modelled.
- Invalidation without cleaning (`dc ivac`) is modelled as dropping the line; hardware may also write it back.
- The kernel's methods keep the bitmap in an array beside the frames of memory; `OneMemory` models the one memory that holds both on values, as functions of its bytes, and shows the two agree.
- The leaf and table writes of one entry are one store of the final entry, not one store for each field.
- libfdt itself: the root offset, the cell counts and the memory nodes' reg properties are inputs, and every end of the node search counts as the end of the nodes.
- TLB and MMU, and the hardware meaning of leaf permission bits: the code never turns the MMU on; permissions are stated against the dump's own decoding.
- The UART, panic and exit paths, exception vectors, the rest of `boot.s` and the register decoder tool: device access and fixed tables with no deep invariant.
- Diagnostic messages of the allocator and the page table.
