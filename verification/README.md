# A verified model of the proxy kernel's memory, files and firmware algorithms

This project models the parts of the RISC-V proxy kernel and its firmware whose correctness is
least obvious from reading them, and proves what they promise. `dafny verify dfyconfig.toml`
checks all of it. The model follows the form of the C code: state that the code updates in
place is a class or an array, loops are loops, and each method is proved against a
specification that does not mention the method's own steps.

**Virtual memory (`pk/mmap.c`).** `PageAllocator` is the bump allocator with its freelist and
the fuzzer that recurses into it. `PageTable` is the three-level Sv39 radix table (section 4.4
of the RISC-V Privileged Architecture) and the flat map it stands for. `AddressSpace` holds the
invariants about regions, reference counts, page ownership and what a process sees, and
`VirtualMemory.Kernel` is the kernel's state with every operation on it. The address space a
process sees is one map from page number to permissions and 4096 bytes (`Kernel.Space`); a page
not faulted in yet is in that map with the bytes it will have, so "demand paging refines eager
paging" is the statement that a fault leaves the map as it was. `Kernel.Valid` is kept by every
operation and contains the admission bound `promised <= |free pages|`, hence no fault ever finds
the allocator empty.

**Files and the ELF loader (`pk/file.c`, `pk/elf.c`).** `FileTable.Files` has biased reference
counts shared by descriptors, lazy regions and running calls; the file operations keep
`Kernel.Valid` and the address space too (`Kernel.FdClose` and the others). `Elf` loads segments
through the kernel's `mmap`, `memset` and `mprotect`.

**Devicetree (`machine/fdt.c`).** `DeviceTree` and `FdtScan` have the structure block of section
5.4 of the Devicetree Specification as a tree and its printed words, the scanner run in place on
an array of words, and the pruner `filter_compat`.

**Binary128 arithmetic (`softfloat/`).** `F128Rem` is the estimate-and-correct remainder loop
(section 5.3.1 of IEEE 754-2008). `RoundToInt` and `RoundToIntM` are rounding to an integer on
two 64-bit limbs and on four 32-bit words, `F128ToInt` and `F128MToInt` the truncating
conversions in both forms (sections 5.8 and 5.9). The two forms of an operation are proved
against one specification with exactly one result, so they agree.

**Firmware traps (`machine/mtrap.c`, `machine/misaligned_vec_ldst.c`).** `Ipi` is the handshake
of `send_ipi_many` between any number of harts as interleaved steps. `VectorSpec` and
`VectorEmulation` are the restartable emulation of misaligned vector loads and stores (sections
3.7 and 7 of the RISC-V "V" extension), and `VectorIsa` is those instructions as the extension
defines and encodes them.

## Where the code does less than one might expect

* `filter_compat` starts with `kill = 999`. A node at depth 999 that lists nothing is deleted
  all the same. `FdtScan.FilterCompat` states for every tree that the block is the pruned one if
  and only if the tree is `Faithful` (every node at depth 999 outside pruned subtrees lists the
  string); `DeviceTree.TowerFaithful` gives the family of trees for which it fails.
* A lazily mapped file page that starts at or past the end of the file panics when it is touched
  (`kassert(ret > 0)`). `Kernel.HandlePageFault` and `Kernel.Mmap` say exactly when.
* `__vm_alloc_at` returns 0 both for "none" and for a window at address 0, which happens only
  while `brk` is 0. Its contract excepts that case and no other.
* `mprotect` on a page not faulted in yet narrows the whole region, so a page outside the range
  can lose W or X. What is proved is which calls succeed, what the range then looks like, that no
  page gains W or X, and that pages sharing no region with the range keep their flags. In
  `load_elf` no other page shares one (`Elf.PlacedApart`).
* `mprotect` does not check its range. An end that wraps around 2^64 to the start or below
  succeeds and does nothing, which `Kernel.DoMprotect` includes.
* The vector emulation tests the element count after an element, so it executes one element even
  from a `vstart` at or past the count; `VectorSpec.Entered` is that reading.
* `mprotect` lets reading be added to a page that is present and was mapped with no permission
  at all, because its entry has R. `AddressSpace.ReadGained` says that this is the only case.
* `send_ipi_many` waits until each target's ipi is clear, which is before the target takes the
  event. `Ipi.ReturnsEarly` is a run that shows it, `Ipi.Delivered` what a caller does get.
* A failed `openat` closes the host descriptor number that its file object had before.
* A fault-only-first load sets `vl` to 1 whatever the starting element.

## Model

| member | source | states |
|---|---|---|
| PageAllocator.Pages.NumFreeIsSize | pk/mmap.c:120-123 | the computed number of free pages is the size of the set of pages not handed out, whatever the fuzzer did |
| PageAllocator.Pages.RoomForOneMore | pk/mmap.c:74-79 | freeing any handed-out page never overflows the freelist storage, by counting pages below the bump pointer |
| PageAllocator.Pages.constructor | pk/mmap.c:544-563 | every managed page is free at first |
| PageAllocator.Pages.EarlyAlloc | pk/mmap.c:53-70 | n adjacent fresh pages or 0 exactly when they do not fit; what remains is the same set less those pages |
| PageAllocator.Pages.Insert | pk/mmap.c:74-79 | adds exactly one page to the free set and terminates although it may fuzz, augment and insert again |
| PageAllocator.Pages.Augment | pk/mmap.c:88-96 | moves a page from the bump region to the freelist if one is left; the free set is unchanged |
| PageAllocator.Pages.MaybeFuzz | pk/mmap.c:98-113 | reorders and refills the freelist but never changes which pages are free nor empties the freelist |
| PageAllocator.Pages.SwapWithTop | pk/mmap.c:104-107 | a swap in the freelist keeps it free of duplicates and its set of pages |
| PageAllocator.Pages.Remove | pk/mmap.c:81-86 | hands out one page that was free, and only that one leaves the free set |
| PageAllocator.Pages.Take | pk/mmap.c:125-135 | 0 exactly when no page at all is free, even if the freelist is empty and pages remain in the bump region |
| PageAllocator.Pages.Release | pk/mmap.c:147-151 | the page is free again and no other page changes |
| PageTable.WalkStep | pk/mmap.c:213-230 | the entry a level of the walk reads is a pointer to the next table exactly when that table exists |
| PageTable.SlotsDistinct | pk/mmap.c:207-235 | distinct user pages have distinct slots |
| PageTable.AddTable | pk/mmap.c:219-226 | linking a fresh zeroed page as a table keeps the tree and leaves every page's slot as it was |
| PageTable.SetSlot | pk/mmap.c:213-235 | writing one slot changes the flat map at that page and nowhere else |
| PageTable.WriteElsewhere | pk/mmap.c:213-240 | writes to pages that are no tables cannot disturb the tree |
| PageTable.NeededSize | pk/mmap.c:219-226 | the number of tables over n adjacent pages, level by level |
| PageTable.NeededFits | pk/mmap.c:365-368 | one record page and all tables for n adjacent pages fit in n/16 + 16 pages |
| AddressSpace.CountLazy | pk/mmap.c:184-195 | when one slot stops being lazy the number of lazy pages goes down by one, and so does the number of slots of its region and of no other |
| AddressSpace.DropLazy | pk/mmap.c:184-195 | taking one lazy slot away keeps: each region's count is the number of its slots, the promise their total |
| AddressSpace.PlaceLazy | pk/mmap.c:382-391 | filling one slot of a region being mapped keeps the same accounting |
| AddressSpace.DropBacked | pk/mmap.c:184-195 | when a region goes, the file it named has one region fewer, and only that file |
| AddressSpace.FilledPage | pk/mmap.c:316-323 | what a fault reads into a page, zero filled past the data, is the page a region shows before the fault |
| AddressSpace.Pread | pk/file.c:139-142 | a read at an offset comes back empty exactly when nothing is asked for or the offset is at or past the end of the file, and never longer than asked |
| AddressSpace.PopulatedView | pk/mmap.c:299-335 | replacing a lazy slot by a page so filled shows the same flags and bytes at every page |
| AddressSpace.PlacedView | pk/mmap.c:382-391 | a slot given to a region shows the region's page there and what was elsewhere |
| AddressSpace.PermitsOwn | pk/mmap.c:275-284 | the flags made from a protection permit every access the protection asks for |
| AddressSpace.TypeBits | pk/mmap.c:275-284 | the entry made from a protection has W and X as asked, R as asked or when nothing else is, and A exactly when something is asked |
| AddressSpace.PermitsExactly | pk/mmap.c:275-334 | a fault is granted exactly when the mapping has what it asks for: write for stores, execute for fetches, read or write for loads |
| AddressSpace.PermitsBounded | pk/mmap.c:329-332 | where W and X are within what a page was mapped with, no store or fetch is granted that the mapping does not grant |
| AddressSpace.NarrowsWX | pk/mmap.c:466-506 | a protection that mprotect accepts grants no W or X beyond the one it replaces |
| AddressSpace.NarrowsExactly | pk/mmap.c:481-488 | a page not present accepts exactly the protections within its own |
| AddressSpace.AllowsExactly | pk/mmap.c:489-497 | a present page accepts W and X exactly when mapped with them, and reading when mapped with it or with neither of them |
| AddressSpace.ReadGained | pk/mmap.c:481-498 | mprotect makes a page readable that was not exactly when it is present, was mapped or protected with nothing, and reading is asked for |
| AddressSpace.NarrowRegion | pk/mmap.c:481-488 | narrowing a region keeps every page's bytes and its W and X within their old values |
| AddressSpace.NarrowLeaf | pk/mmap.c:489-499 | the same for a page that is present |
| AddressSpace.NarrowedBound | pk/mmap.c:466-506 | narrowed pages stay within the protection they were mapped with |
| VirtualMemory.ValidUserRangeExact | pk/mmap.c:286-292 | the wrapping 64-bit test accepts exactly the nonempty ranges inside user space |
| VirtualMemory.Boot | pk/mmap.c:508-579 | after boot the root table is empty for user space and leads to the kernel's own tables above it; storage, tables and stack are the only pages handed out |
| VirtualMemory.Kernel.constructor | pk/mmap.c:558-579 | boot establishes the invariant with an empty address space and no promise |
| VirtualMemory.Kernel.PageAlloc | pk/mmap.c:125-135 | a zeroed page that was free, or 0 exactly when none is |
| VirtualMemory.Kernel.Walk | pk/mmap.c:213-235 | finds the last-level table of a page exactly when there is one |
| VirtualMemory.Kernel.WalkCreate | pk/mmap.c:213-240 | each page it spends is a missing table of the budget; it fails only when no page is free and the budget is not; other slots stay, the pages it takes become tables, and no page used otherwise changes |
| VirtualMemory.Kernel.VmrDecref | pk/mmap.c:184-195 | the region goes to the freelist and drops its file reference exactly when its last slot goes |
| VirtualMemory.Kernel.ReadPage | pk/mmap.c:316-323 | the read fails its kassert exactly when the page starts at or past the end of the file; else the frame holds the region's page, zeros behind the data |
| VirtualMemory.Kernel.PopulatePage | pk/mmap.c:310-329 | never runs out of memory; the process sees no change; pages free less pages promised stays the same |
| VirtualMemory.Kernel.HandlePageFault | pk/mmap.c:299-335 | granted exactly when the flags the page showed before permit the access, and then the page was mapped with write or execute permission if that was asked; contents and flags of every page stay as seen; panics exactly when a file page lies past the file's end |
| VirtualMemory.Kernel.StoreByte | pk/mmap.c:337-343 | a write to a page present or not changes that one byte of the address space and nothing else; it succeeds only on a page mapped with write permission |
| VirtualMemory.Kernel.VaAvail | pk/mmap.c:242-246 | a page is available exactly when no slot is mapped there |
| VirtualMemory.Kernel.VmAllocAt | pk/mmap.c:248-261 | lowest-address first fit: the skip-ahead scan passes over no window of free pages, and 0 means there is none |
| VirtualMemory.Kernel.VmAlloc | pk/mmap.c:263-273 | the lowest window from the last guess on, if there is none the lowest from brk on; none only when there is none above brk |
| VirtualMemory.Kernel.MunmapPage | pk/mmap.c:348-358 | removes one page from the address space, gives back its page or its share of a region, and touches no other |
| VirtualMemory.Kernel.Munmap | pk/mmap.c:345-361 | the address space is the old one without the range |
| VirtualMemory.Kernel.RefillRecords | pk/mmap.c:156-165 | one page becomes region records; nothing a process sees changes |
| VirtualMemory.Kernel.VmrAlloc | pk/mmap.c:153-182 | a fresh record with n promised pages, a reference to its file, at most one page spent |
| VirtualMemory.Kernel.AdmittedFits | pk/mmap.c:365-368 | a length the admission check lets through leaves pages for the record, every table at any address and every page promised, also where 64-bit arithmetic could wrap |
| VirtualMemory.Kernel.PlaceRegion | pk/mmap.c:382-391 | every page of the range is mapped lazily, and what was there before is gone |
| VirtualMemory.Kernel.ChooseAddress | pk/mmap.c:370-376 | without MAP_FIXED the chosen range held no mapping; it fails only when no range is free or the fixed one is bad |
| VirtualMemory.Kernel.MmapAt | pk/mmap.c:378-399 | with the memory set aside the mapping cannot fail, and MAP_POPULATE panics exactly when the last page starts past the file |
| VirtualMemory.Kernel.Mmap | pk/mmap.c:363-400 | the address space is the old one with the region laid over it, or unchanged; a non-fixed mapping disturbs no mapping; each failure has its exact cause; the range and nothing else is recorded as mapped with prot |
| VirtualMemory.Kernel.DoMunmap | pk/mmap.c:402-412 | -EINVAL exactly for unaligned, empty or outside ranges, else the range is gone |
| VirtualMemory.Kernel.DoMmap | pk/mmap.c:414-432 | the errors in their order; a fixed mapping lands where asked, another where nothing was mapped; when it fails and when it panics; the reference taken from the descriptor is given back; brk_max ends up at or below the mapping |
| VirtualMemory.Kernel.Brk | pk/mmap.c:434-459 | the break moves exactly when asked within its bounds and admitted; shrinking removes and growing adds just the pages between |
| VirtualMemory.Kernel.ProtectPage | pk/mmap.c:474-499 | success exactly when the page is mapped and the protection within the old one; nobody gains W or X |
| VirtualMemory.Kernel.DoMprotect | pk/mmap.c:466-506 | succeeds exactly when every page of the range, its end taken modulo 2^64, allows it in the state before the call; then all have the new flags; else the first page that refuses decides between -ENOMEM (not mapped) and -EACCES; W and X never grow anywhere, reading only where nothing was granted, and pages that share no region with the range keep their flags |
| VirtualMemory.Kernel.PagesDivided | pk/mmap.c:48-240 | in every reachable state each managed page is free, a table, a data page, a page of records or reserved, and only one of them |
| VirtualMemory.Kernel.DataPagesDistinct | pk/mmap.c:299-335 | two mapped pages never share memory |
| VirtualMemory.Kernel.RegionsCounted | pk/mmap.c:153-195 | a live region's count is the number of slots holding it, its slots lie in its address range, it is on the freelist exactly when none holds it, and the promise is the number of lazy pages and at most the free pages |
| VirtualMemory.Kernel.PromiseIsSum | pk/mmap.c:153-195 | the promised pages are the reference counts of all live regions summed |
| VirtualMemory.Kernel.FileReferences | pk/file.c:17-94 | an object's count is 0, or 1 plus its descriptors plus the regions that name it plus the calls that hold it |
| VirtualMemory.Kernel.BackedReferenced | pk/mmap.c:153-195 | a file that a live region names has a reference, so it is neither closed nor handed out for another file |
| VirtualMemory.Kernel.OnlyReference | pk/file.c:17-33 | a descriptor holds the last reference exactly when no other descriptor, no running call and no lazy region refers to the file |
| VirtualMemory.Kernel.FdClose | pk/file.c:121-132 | closing keeps the whole invariant and what every process sees; the host descriptor is closed exactly when no descriptor, no call and no lazy region is left |
| VirtualMemory.Kernel.FileOpenAt | pk/file.c:101-119 | opening keeps them too: the object handed out backs no lazy page, every file a region names keeps its host descriptor, and success and each error have the same exact causes |
| VirtualMemory.Kernel.FdGet | pk/file.c:80-94 | looking a descriptor up keeps them and takes one reference |
| VirtualMemory.Kernel.FileDup | pk/file.c:43-54 | duplicating to the first free descriptor keeps them; it fails exactly when all are taken |
| VirtualMemory.Kernel.FileDup3 | pk/file.c:56-68 | duplicating to the asked descriptor, if in range and free, keeps them |
| VirtualMemory.Kernel.WXWithinBorn | pk/mmap.c:275-506 | after any run a page's W and X are set only if it was mapped with write and execute permission; the record of that protection changes only where mmap or brk maps a page, to that mapping's protection (stated by Mmap, DoMmap and Brk) |
| FileTable.Files.IncRef | pk/file.c:17-21 | one more reference; the object was not free |
| FileTable.Files.DecRef | pk/file.c:23-33 | the host descriptor is closed exactly when the last reference goes, and the object is free again |
| FileTable.Files.GetFree | pk/file.c:35-41 | the first unreferenced object, or none exactly when all are referenced |
| FileTable.Files.Dup | pk/file.c:43-54 | the lowest free descriptor, or -1 exactly when all are taken |
| FileTable.Files.Dup3 | pk/file.c:56-68 | the asked descriptor exactly when in range and free |
| FileTable.Files.Get | pk/file.c:80-94 | the object behind an open descriptor, one reference more; an open descriptor's object is never free |
| FileTable.Files.OpenAt | pk/file.c:101-119 | -ENOMEM exactly when every object is in use; else a fresh object when the host opens, and the host's own error with every reference given back when it does not; objects in use are untouched |
| FileTable.Files.Close | pk/file.c:121-132 | the descriptor is empty, and the host descriptor is closed exactly when nothing else referred to the object, so lazy pages keep their file |
| FileTable.Files.StandardRefs | pk/file.c:70-78 | each standard object has its descriptor and the reference that file_init keeps |
| FileTable.Files.Init | pk/file.c:70-78 | descriptors 0 to 2 and counts of 3, so the standard files are never freed |
| Elf.ProtAsHeader | pk/elf.c:17-26 | the entry made for p_flags has X, W and R as bits 0, 1 and 2 ask, and faults are granted accordingly: loads when bit 1 or 2 is set |
| Elf.ZeroUser | pk/elf.c:91 | zeroing the start of a page changes those bytes of the address space only, and cannot fail on a populated writable page |
| Elf.FilledByte | pk/elf.c:81-95 | after both mappings and the zeroing, each byte of a segment is its file byte below filesz and zero up to memsz |
| Elf.FilledOutside | pk/elf.c:81-95 | pages outside the segment's pages are as before |
| Elf.FillSegment | pk/elf.c:82-95 | the loader's steps have that effect, across the eager, lazy and anonymous parts; on a well-formed segment they succeed when the pages free beyond those promised exceed what the mappings are charged |
| Elf.FilledFlags | pk/elf.c:85-95 | a writable segment's file and anonymous pages all end up with exactly its permissions |
| Elf.PlacedApart | pk/elf.c:85-99 | once a segment's mappings are made, no page outside it shares a lazy region with a page inside, so mprotect on it reaches no other page |
| Elf.PlacedProtectable | pk/elf.c:85-98 | each page of a segment so placed accepts the segment's own protection |
| Elf.LoadSegment | pk/elf.c:78-99 | a segment is loaded with its bytes and exactly its permissions, write permission taken back if it was not asked for, brk_min at least at its end, every other page unchanged; a well-formed segment with memory to spare is loaded |
| Elf.StaysLoaded | pk/elf.c:74-100 | loading a segment on other pages leaves a loaded one its bytes and its permissions |
| Elf.LoadElf | pk/elf.c:68-104 | every segment of a page-disjoint image is loaded at once in the end with exactly its permissions, the break is above all of them, and the file reference is given back; loading succeeds when the segments are well formed, none names an interpreter and memory covers their charges |
| DeviceTree.EmittedIsMeant | machine/fdt.c:35-92 | the events of the scanner's loop are open, every property, one done, every child in order, close, for any tree |
| DeviceTree.StringListIndex | machine/fdt.c:139-150 | the first position of the string in the NUL-separated list, or -1 exactly when it is not there |
| DeviceTree.NameAtIs | machine/fdt.c:57-66 | the name of a property is the bytes from its offset to the next NUL |
| DeviceTree.WordByte | machine/fdt.c:57-66 | the bytes of a value are those of its words, in order |
| DeviceTree.CompatibleIs | machine/fdt.c:530 | the name looked for is the string "compatible" |
| DeviceTree.MarkedStays | machine/fdt.c:527-544 | below a marked node nothing is marked or deleted on its own |
| DeviceTree.FilterIsPrune | machine/fdt.c:521-561 | the effect of the callbacks is the pruning of outermost listed nodes if and only if the tree is Faithful |
| DeviceTree.TowerFaithful | machine/fdt.c:535-544 | a chain of nodes that list nothing is spared if and only if it ends above depth 999 |
| DeviceTree.FilterSize | machine/fdt.c:77-79 | deleting nodes keeps the length of the block |
| DeviceTree.PruneEvents | machine/fdt.c:521-561 | scanning the pruned block reports the nodes not pruned, with all their properties, and nothing else |
| FdtScan.CompatScan.Prop | machine/fdt.c:527-533 | a node is marked exactly when the property lists the string and no node above it is marked |
| FdtScan.CompatScan.Close | machine/fdt.c:535-544 | deletion is asked for exactly by the node that was marked |
| FdtScan.NameWords | machine/fdt.c:72-76 | skips exactly the words of the name |
| FdtScan.Overwrite | machine/fdt.c:77-79 | the node's words become NOPs and no other word changes |
| FdtScan.ScanChild | machine/fdt.c:68-81 | a child's words are replaced by what its filtered tree prints, or by NOPs, in place |
| FdtScan.Scan | machine/fdt.c:35-92 | on the printed words of any tree: returns the word after the node, reports its events, and leaves the words of the filtered tree |
| FdtScan.ReadProp | machine/fdt.c:57-66 | reads back the property that was printed |
| FdtScan.SmallBlock | machine/fdt.h:22-26 | the words of a small tree, token by token |
| FdtScan.Unique | machine/fdt.c:35-92 | words are the print of at most one tree: printing is injective and self-delimiting |
| FdtScan.HoldsOne | machine/fdt.c:94-106 | the block a header points at holds one tree only |
| FdtScan.FilterCompat | machine/fdt.c:546-561 | nothing happens to a block it does not understand; else the block has its length, the scan reports the tree, and the words are those of the pruned tree if and only if the tree is Faithful |
| RemArith.DivisionRecip | softfloat/primitives.h:166-179 | the division form of the reciprocal meets the error bound the loop needs |
| RemArith.RecipError | softfloat/f128_rem.c:127 | what a reciprocal of 32 leading bits is off by against the whole significand |
| RemArith.LoopStep | softfloat/f128_rem.c:129-141 | the loop's invariant bound on the partial remainder survives an estimate, with or without the correction |
| RemArith.LastStep | softfloat/f128_rem.c:145-151 | the last, shorter estimate leaves a remainder between minus and three times the divisor |
| F128Rem.Estimate | softfloat/f128_rem.c:129-141 | after any number of rounds the partial remainder is congruent to the shifted significand and bounded, and expDiff is between -29 and -1 |
| F128Rem.Reduce | softfloat/f128_rem.c:132-139 | one round: no wrap modulo 2^128 is visible, the words hold the true difference, and the bound survives |
| F128Rem.LastBits | softfloat/f128_rem.c:145-151 | the last, shorter estimate: the words hold the true difference, between minus half and three times the divisor |
| F128Rem.Total | softfloat/f128_rem.c:132-168 | the multiples taken in all rounds add up to one quotient, and q has its parity |
| F128Rem.SelectRem | softfloat/f128_rem.c:155-168 | the do/while ends and the nearer of two neighbours is taken, the even one on a tie |
| F128Rem.NearestUnique | softfloat/f128_rem.c:161-168 | there is one nearest multiple, even on a tie, and one remainder |
| F128Rem.Normalize | softfloat/f128_rem.c:96-107 | a subnormal's normalised significand and exponent stand for the same number |
| F128Rem.RemFinite | softfloat/f128_rem.c:96-174 | the same as F128Rem for operands that are finite and not zero, the sign of a zero remainder included |
| F128Rem.F128Rem | softfloat/f128_rem.c:82-188 | the exact a - n*b with n the integer nearest a/b, even on a tie, for all finite a and finite nonzero b, a zero remainder with the sign of a; the other outcomes exactly when their operands occur |
| RoundArith.RoundedOne | softfloat/f128_roundToInt.c:81-104 | in each of the six modes one integer only is the rounded one |
| RoundArith.DropLow | softfloat/f128_roundToInt.c:137-155 | a lower limb or lower words matter only as a sticky bit |
| RoundArith.NearBits | softfloat/f128_roundToInt.c:92-97 | adding half a unit, cutting off and clearing one bit on a tie is rounding to nearest, with and without ties to even |
| RoundArith.UpBits | softfloat/f128_roundToInt.c:148-154 | adding all ones and cutting off rounds up, with the sticky bit OR-ed in |
| RoundArith.OddBits | softfloat/f128_roundToInt.c:158-166 | cutting off and setting the last bit when anything was lost is rounding to odd |
| RoundSpec.MiddleRounds | softfloat/f128_roundToInt.c:76-157 | rounding the whole 128-bit word rounds the number, a carry out of the significand going into the exponent |
| RoundSpec.SmallRounds | softfloat/f128_roundToInt.c:110-134 | a number below 1 becomes the 0 or 1 of its sign that the mode demands |
| RoundSpec.BigRounds | softfloat/f128_roundToInt.c:67-73 | from 2^112 on every number is an integer |
| RoundSpec.RoundedToIntOne | softfloat/f128_roundToInt.c:44-171 | one result is right, so the two forms return the same words |
| RoundToInt.RoundLow | softfloat/f128_roundToInt.c:76-106 | the branch with the last integer bit in the lower limb, or just above it, rounds the word |
| RoundToInt.RoundHigh | softfloat/f128_roundToInt.c:137-156 | the branch with the last integer bit in the upper limb rounds the word |
| RoundToInt.RoundBelowOne | softfloat/f128_roundToInt.c:110-134 | right result and inexact flag for every number below 1 |
| RoundToInt.RoundToInt | softfloat/f128_roundToInt.c:44-171 | for every non-NaN input and mode the correctly rounded integer, inexact exactly when asked and the number changed |
| WordArrays.Split | softfloat/f128M_roundToInt.c:154-161 | the number of an array of words is that of its lower words plus the weighted upper ones |
| RoundToIntM.PassWords | softfloat/f128M_roundToInt.c:151-161 | the words below the rounding bit are cleared and remembered as one sticky bit |
| RoundToIntM.Propagate | softfloat/f128M_roundToInt.c:207-213 | the carry chain leaves exactly the sum, with no carry out of the last word |
| RoundToIntM.PropagateTie | softfloat/f128M_roundToInt.c:175-182 | the tie whose last integer bit is in the next word |
| RoundToIntM.NearWords | softfloat/f128M_roundToInt.c:162-184 | the words rounded to nearest from the word of the first fraction bit |
| RoundToIntM.DirectedWords | softfloat/f128M_roundToInt.c:185-206 | the words rounded in the other modes |
| RoundToIntM.RoundBelowOne | softfloat/f128M_roundToInt.c:93-126 | right result and inexact flag for every number below 1 |
| RoundToIntM.RoundToIntM | softfloat/f128M_roundToInt.c:61-220 | the word-array form meets the same specification as the two-limb form |
| ConvertSpec.TruncShift | softfloat/f128_to_i64_r_minMag.c:85-109 | the integer part is the significand shifted right, the fraction what is shifted out |
| ConvertSpec.TruncBig | softfloat/f128_to_i64_r_minMag.c:70-84 | from exponent 0x403F on nothing fits in 64 bits |
| ConvertSpec.SignedNearest | softfloat/f128_to_i64_r_minMag.c:44-112 | what that specification returns: the representable integer nearest the integer part, 2^63 - 1 for NaN and the extremes for infinities; invalid exactly when that is not the integer part |
| ConvertSpec.UnsignedNearest | softfloat/f128_to_ui64_r_minMag.c:44-104 | the same for unsigned results, 0 for what is negative |
| ConvertSpec.ClampNearest | softfloat/f128_to_i64_r_minMag.c:44-112 | no representable integer is nearer than the one returned |
| F128ToInt.ToI64Truncates | softfloat/f128_to_i64_r_minMag.c:44-112 | the truncated number when it fits, -2^63 included; invalid with the substitute exactly when not or NaN; inexact exactly when asked and a fraction was dropped |
| F128ToInt.ToUI64Truncates | softfloat/f128_to_ui64_r_minMag.c:44-104 | the same for unsigned results |
| F128MToInt.JamFraction | softfloat/f128M_to_i64_r_minMag.c:84-91 | the jamming shift keeps the integer part and shows any lost bit in the lowest word |
| F128MToInt.Shifted | softfloat/f128M_to_i64_r_minMag.c:78-91 | the shifted words are the integer part, the lowest one the fraction |
| F128MToInt.DirectShift | softfloat/f128M_to_i64_r_minMag.c:93-100 | assembling the top words without the low ones gives the same integer part |
| F128MToInt.ToI64M | softfloat/f128M_to_i64_r_minMag.c:55-121 | the word-array form returns and raises what the two-limb form does |
| F128MToInt.ToUI64M | softfloat/f128M_to_ui64_r_minMag.c:55-112 | the same for unsigned results |
| Ipi.StepOk | machine/mtrap.c:61-130 | every step of every hart keeps the whole invariant |
| Ipi.NoIpiLost | machine/mtrap.c:61-67 | in every interleaving a hart with pending events has its ipi set, or a sender between its two writes, or an ipi it consumed and will restore, or is about to take them |
| Ipi.Recorded | machine/mtrap.c:102-130 | the times a hart keeps are those of the run: it set the ipi then, and read it clear then |
| Ipi.LastCall | machine/mtrap.c:102-130 | whatever a hart has recorded as set or seen clear happened after the start of its last call |
| Ipi.ReturnedSeen | machine/mtrap.c:109-130 | when a call other than for IPI_SOFT has returned, then after the start of that very call and for each enabled target, the caller set the target's ipi and at a later move read it clear |
| Ipi.PendingStep | machine/mtrap.c:61-67 | the pending set of a hart grows by exactly the event of a call that targets it and shrinks only when the hart takes all of it |
| Ipi.Delivered | machine/mtrap.c:102-130 | when a call has returned, its event was added for each enabled target during that very call; since then the target has taken it, or has its ipi set or is in the firmware and will |
| Ipi.ReturnsEarly | machine/mtrap.c:113-122 | a run in which a call returns before its target has taken the event: what is waited for is the ipi word |
| Ipi.CanClear | machine/mentry.S:77-88 | by its own steps alone an enabled hart comes to clear its ipi, wherever it is in a call |
| Ipi.CanReturn | machine/mtrap.c:117-130 | no deadlock: from every reachable state every call can return, also when harts wait for each other or for themselves |
| Ipi.CanTake | machine/mtrap.c:61-130 | no pending event is stranded: from every reachable state its hart can come to take it |
| VectorSpec.Restart | machine/misaligned_vec_ldst.c:95-133 | trapping at any byte and executing again from the saved element gives what one execution would have, also after a store was cut short |
| VectorSpec.ResumedIsExec | machine/misaligned_vec_ldst.c:53-138 | the same for any number of traps, the mask read anew each time |
| VectorSpec.LoadByte | machine/misaligned_vec_ldst.c:96-125 | each destination byte comes from its element's address if active and not before vstart, else is undisturbed; memory is unchanged |
| VectorSpec.ExecOutside | machine/misaligned_vec_ldst.c:123-125 | no register byte outside the destination groups changes |
| VectorSpec.StoreByte | machine/misaligned_vec_ldst.c:107-130 | the last active element that writes a byte decides it; registers are unchanged |
| VectorSpec.StoreOther | machine/misaligned_vec_ldst.c:126-131 | a byte of memory that no active element writes is undisturbed |
| VectorSpec.Apart | machine/misaligned_vec_ldst.c:109-125 | no byte of another segment or element is hit |
| VectorSpec.StoreAgain | machine/misaligned_vec_ldst.c:127-130 | storing an element again leaves no trace of a store that was cut short |
| VectorSpec.MaskKept | machine/misaligned_vec_ldst.c:91-93 | the mask survives what was executed before a trap |
| VectorSpec.IsaIsLegal | machine/misaligned_vec_ldst.c:60-105 | the instruction set's own rules (aligned register groups, at most eight registers, elements that fit their group, no overlap of a destination with mask or index) imply what the emulation needs |
| VectorEmulation.DecodeBounds | machine/misaligned_vec_ldst.c:60-105 | for every instruction word an element fits the 64-byte buffer, an index its variable and the mask its buffer |
| VectorEmulation.DecodedLegal | machine/misaligned_vec_ldst.c:60-105 | so every instruction that decodes and whose operands the instruction set allows is emulated as specified |
| VectorIsa.DecodesTo | machine/misaligned_vec_ldst.c:60-84 | the word of each vector load and store of the instruction set decodes to that instruction: direction, mask, registers, widths, segments, group size, element count and stride |
| VectorIsa.DecodesOnly | machine/misaligned_vec_ldst.c:60-87 | of the words of these opcodes, those that decode are the encodings of these instructions and no others |
| VectorIsa.PlacesAre | machine/misaligned_vec_ldst.c:97-131 | element e of segment s lies at rs1 + e * nf * width, rs1 + e * rs2 or rs1 plus its index, plus s widths; in the register group of its segment |
| VectorEmulation.VectorUnit.SetVreg | machine/misaligned_vec_ldst.c:12-27 | writes exactly the named bytes of the register file, counted from the start of the register |
| VectorEmulation.VectorUnit.GetVreg | machine/misaligned_vec_ldst.c:29-44 | reads exactly the named bytes |
| VectorEmulation.VectorUnit.ElementAddress | machine/misaligned_vec_ldst.c:97-103 | unit, strided and indexed addresses, the index read little-endian |
| VectorEmulation.VectorUnit.LoadElement | machine/misaligned_vec_ldst.c:117-121 | all bytes of the element, or a trap exactly when one of them is not accessible |
| VectorEmulation.VectorUnit.StoreElement | machine/misaligned_vec_ldst.c:126-131 | stores up to the first byte that traps |
| VectorEmulation.VectorUnit.DoElement | machine/misaligned_vec_ldst.c:96-132 | one element as specified, and on a trap vl, vtype and vstart as the restart needs them |
| VectorEmulation.VectorUnit.Emulate | machine/misaligned_vec_ldst.c:53-138 | the loop is the element-wise execution from vstart, at least one element; on a trap vstart is the trapping element and vl and vtype are restored, at the end vstart is 0 and the pc has advanced |
| VectorIsa.EmulatesRun | machine/misaligned_vec_ldst.c:53-138 | what `Emulate` is proved to do with an instruction's word is the run that the next rows describe |
| VectorIsa.LoadMeans | machine/misaligned_vec_ldst.c:95-125 | a finished load of the instruction set: each byte of each enabled element comes from its address, those of other elements stay |
| VectorIsa.FirstMeans | machine/misaligned_vec_ldst.c:95-137 | the same for the one element of a fault-only-first load |
| VectorIsa.StoreMeans | machine/misaligned_vec_ldst.c:95-131 | a finished store: a byte of memory holds what the last enabled element to store there has |
| VectorIsa.StoreKeepsOthers | machine/misaligned_vec_ldst.c:126-131 | and every other byte of memory is as it was |
| VectorIsa.LittleEndianByte | machine/misaligned_vec_ldst.c:99-103 | an index read from its register is little-endian |
| VectorSpec.TrapsAt | machine/misaligned_vec_ldst.c:95-133 | execution traps exactly at the first active element with an inaccessible byte |

## Left out

- Memory layout: pages are page numbers, page-table words and records are datatype values, and a page's bytes are a sequence; alignment of records in a page and the physical-to-virtual offset are not modelled.
- Kernel mappings: the kernel half of the root table, megapages, TLB flushes, and copies to and from user memory outside the ELF loader.
- Locks and atomics in `pk/`: the proxy kernel runs on one hart, so its operations are modelled one at a time and a compare-and-swap that could only fail under contention succeeds.
- VirtualMemory.Boot: running out of memory during boot is a precondition, because the code then panics before any user exists.
- VirtualMemory.Kernel.HandlePageFault: the user-range test is made before the walk, which finds nothing for addresses outside user space.
- VirtualMemory.Kernel.DoMprotect: calls whose loop leaves the user half, because the walk then goes through the kernel's own tables, which are not modelled; the code itself makes no such test. Which flags the other pages of a narrowed region end with is bounded and not spelled out.
- VirtualMemory.Kernel.VmAllocAt: the result 0 is not told apart from a window at address 0, because the code does not.
- VirtualMemory.Kernel.VmrAlloc: the intrusive freelist is a sequence of record identifiers, not a linked list through the records.
- VirtualMemory.Kernel.Brk: says nothing about ELF segments and the stack, which the code maps without lowering brk_max.
- File contents: a file is a fixed byte sequence and `file_pread` returns a prefix of what was asked, short only at the end; the host may not change it meanwhile.
- Elf.LoadSegment: headers whose address sums wrap around 2^64 are excluded by `Fits`, and a segment with filesz 0 is claimed loaded only at a page-aligned address.
- The ELF header: reading and checking it, the entry point and the program-header table; failures panic and are only marked as not ok.
- Elf.LoadElf: the memory a program needs is bounded by the admission charges of its mappings, which is enough and not always necessary.
- FDT cell counts, and the other device queries and filters built on the scanner (`query_*`, `filter_plic`, `filter_harts`, `fdt_print`): thin callbacks over the same scan.
- FdtScan.FilterCompat: the words are in host order; the byte swap is a change of representation.
- F128Rem.F128Rem: `softfloat_approxRecip32_1` is a parameter assumed never above 2^63/x and less than 2.007 below; that is proved for the division form and not for the table form. `softfloat_normRoundPackToF128` and NaN propagation are not modelled; the value handed to the packer is exact.
- RoundToInt.RoundToInt: NaN inputs, whose result is that of the propagation helper.
- RoundToIntM.RoundToIntM: NaN inputs, and output aliased with the input; words are in little-endian order, the configured one.
- F128MToInt.ShiftRightJam128M: the helper is taken as exact arithmetic on the number the words make.
- Other softfloat operations (add, multiply, divide, square root, fused multiply-add, conversions between formats).
- Ipi.CanTake: the machine-mode handler is a step that clears ipi and then one that takes the pending set; which fence it executes and `IPI_HALT` are not modelled, a call's mask is the one already cut down to `hart_mask`, and memory is sequentially consistent.
- VectorEmulation.VectorUnit.Emulate: operands the instruction set reserves (groups past register 31 or out of alignment, destinations over the mask or the index) are excluded by `Legal`; loads and stores share one set of accessible addresses.
- VectorSpec.Restart: fault-only-first loads, which the code cuts to one element.
- Other trap handlers, SBI calls, device drivers, system-call dispatch and console output.
