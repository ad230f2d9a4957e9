# X2W-OS kernel core in Dafny

X2W-OS is a small RISC-V kernel with its own M-mode SBI. This project models
the parts of it that are sequential logic and states what they promise:

- **Sv39 encoding** (`Sv39`, `PageTable`): the PTE attribute bits and the
  `is_*_page` predicates, the VPN/PPN/offset masks and table geometry,
  `page_align`, `get_offset`, `get_vpn`, `get_ppn`, entry packing
  `((paddr >> 12) << 10) | prot` and its inverse, and `get_mapping_end`.
  The scheme is the one of section 4.4 of the RISC-V Privileged Architecture
  (version 1.12).
- **Page-table builder** (`Paging`, `KernelMap`): physical memory is a map
  from frame addresses to 512-entry tables. `create_mapping`,
  `make_pgd_entry` and `make_pmd_entry` allocate intermediate tables on
  demand and write one leaf per 4 KiB page, with the virtual and physical
  cursors moving in lockstep. `create_identical_mapping`,
  `create_mmio_mapping` and `paging_init` lay the kernel address space out
  in layers. Translation is stated through a three-level walk. The builder
  and the kernel map are proved with `make_pgd_entry` corrected to advance
  the PMD entry per 2 MiB chunk. The loop as written is modelled separately
  (`Paging.MakePgdEntryAsWritten`); see Findings.
- **Page pools** (`Bitmaps`, `Mm`, `PageMalloc`): the byte bitmap with
  `bitmap_set`, `bitmap_test`, `bitmap_scan`, `bitmap_release` and
  `bitmap_acquire`. Over it sit the kernel and user physical pools and the
  kernel virtual pool, with `memory_init`, `init_pools`, `alloc_ppage`,
  `free_ppage`, `alloc_vpage`, `free_vpage` and `malloc_page`.
- **CSR fields** (`Csr`): the `SET_FIELD` macro, field read-back, the
  `mstatus` and `mcause` constants, and the split of a cause value on bit 63.
- **Traps** (`TrapRegistry`, `Ktrap`, `Strap`, `Secall`): the handler and
  message tables of the kernel (S-mode) and the SBI (M-mode), their register
  calls and dispatchers, the messages the general handlers report,
  `delegate_traps`' masks, and the SBI ecall handler with its `mepc` advance.
- **PLIC** (`Plic`): the register address formulas.
- **Freestanding libc**:
  - `CString`: the mem/str functions over NUL-terminated byte buffers;
  - `Numerals` and `Stdlib`: recursive `itoa`;
  - `Stdfmt` and `Printf`: `_scan_number`, `copy_number`, `vsprintf` and
    `sprintf`, after the conversion specification of section 7.21.6.1 of
    ISO/IEC 9899:2011. The methods implement the corrected formatter; the
    text as written is the specification function `Printf.FormatAsWritten`;
  - `Stdlist`: list init and insert.

64-bit machine words are integers in [0, 2^64) (`Words.u64`). The C bit
operators are defined bit by bit in `Words`, and wrap-around is written out
(`Add`, `Sub`, `Shl`). Code that updates memory in place is modelled with
classes over arrays (bitmaps, output buffers, linked nodes, trap tables) or
with a `Memory` object that holds the frame map. Every such method is proved
against a specification function.

Two places where a comment in the source disagrees with its code; the model
follows the code:

- `page_align(1, True)` is 4096, not the 1 of the comment at
  include/kernel/paging.h:87.
- The worked example of `SET_FIELD` in include/asm/csr.h has wrong
  intermediate values; the model follows the macro.

## Model

| member | source | states |
|---|---|---|
| Words.And | include/asm/csr.h:131-132 | C `&` on naturals, bit by bit; the result is at most either operand, and Words.BitAnd states each bit |
| Words.Or | include/asm/csr.h:131-132 | C bitwise OR on naturals, bit by bit; the result lies between the larger operand and the sum, and Words.BitOr states each bit |
| Words.Not | include/asm/csr.h:131-132 | C `~` on a 64-bit word: a + ~a is 2^64 - 1, and Words.BitNot flips each bit |
| Words.Sub | include/asm/csr.h:132 | 64-bit `-`: a - b when b <= a, and a - b + 2^64 when it wraps |
| Words.Add | include/kernel/paging.h:92 | 64-bit `+`: a + b below 2^64, and a + b - 2^64 when it wraps |
| Words.Shr | include/kernel/paging.h:165 | `a >> k` is the quotient of a by 2^k |
| Words.Shl | include/kernel/paging.h:165 | `a << k` is a * 2^k when that fits in 64 bits |
| Sv39.IsValidPage | include/asm/svxx.h:46-56 | `is_valid_page` holds exactly when bit 0 (V) of the entry is set |
| Sv39.IsReadablePage | include/asm/svxx.h:63-73 | `is_readable_page` holds exactly when bit 1 (R) is set |
| Sv39.IsWritablePage | include/asm/svxx.h:80-90 | `is_writable_page` holds exactly when bit 2 (W) is set |
| Sv39.IsExecutablePage | include/asm/svxx.h:97-107 | `is_executable_page` holds exactly when bit 3 (X) is set |
| Sv39.IsUserPage | include/asm/svxx.h:114-124 | `is_user_page` holds exactly when bit 4 (U) is set |
| Sv39.IsGlobalPage | include/asm/svxx.h:126-136 | `is_global_page` holds exactly when bit 5 (G) is set |
| Sv39.IsAccessedPage | include/asm/svxx.h:143-153 | `is_accessed_page` holds exactly when bit 6 (A) is set |
| Sv39.IsDirtyPage | include/asm/svxx.h:160-170 | `is_dirty_page` holds exactly when bit 7 (D) is set |
| Sv39.IsLeafPage | include/asm/svxx.h:180-190 | `is_leaf_page` holds exactly when V is set and at least one of R, W, X is set |
| Sv39.LeafMaskBits | include/asm/svxx.h:180 | PAGE_ATTR_LEAF is 14: its set bits are exactly bits 1 to 3 |
| Sv39.LeafMask | include/asm/svxx.h:188-190 | `val & PAGE_ATTR_LEAF` is non-zero exactly when one of R, W, X is set |
| Sv39.AttributesBelowPfn | include/asm/svxx.h:46-175 | no attribute bit (V, R, W, X, U, G, A, D, RSW) reaches bit PAGE_PFN_SHIFT = 10, so none overlaps the frame number |
| Sv39.SoftwareBits | include/asm/svxx.h:175 | the RSW field PAGE_ATTR_SOFTWARE is exactly bits 8 and 9 |
| Sv39.AddressMaskBits | include/asm/svxx.h:347-360 | the offset, VPN0/1/2 and PPN0/1/2 masks select exactly bits 11:0, 20:12, 29:21, 38:30, 20:12, 29:21 and 55:30 |
| Sv39.VirtualMasksPartition | include/asm/svxx.h:347-353 | the offset and VPN masks are pairwise disjoint and together cover exactly bits 0..38 (2^39 - 1) |
| Sv39.Geometry | include/asm/svxx.h:372-407 | PGD_SIZE = 2^30, PMD_SIZE = 2^21, PTE_SIZE = 2^12; each *_MASK rounds an address down to a multiple of its size; every level has 512 entries |
| PageTable.SysPropertyValues | include/kernel/paging.h:38-50 | the values of the SYS_PAGE_ATTR_* properties, with SYS_PAGE_ATTR_NONE = ~V |
| PageTable.KernelPropertyValues | include/kernel/paging.h:53-67 | the values of PAGE_TABLE and the KERNEL_PAGE* properties (KERNEL_PAGE = 0xE7, READ_EXEC = 0xEB, RESERVED = 0x300) |
| PageTable.TablePropertyMeaning | include/kernel/paging.h:53 | a directory entry written with PAGE_TABLE is valid and not a leaf |
| PageTable.KernelPropertyMeaning | include/kernel/paging.h:57-67 | KERNEL_PAGE_READ_EXEC is a valid, readable, executable, global, accessed, dirty page that is neither writable nor user; KERNEL_PAGE is a writable non-executable leaf; KERNEL_PAGE_RESERVED is invalid |
| PageTable.SysPropertyMeaning | include/kernel/paging.h:38-50 | the read, write and execute SYS_ properties are valid, accessed user leaves |
| PageTable.PageAlign | include/kernel/paging.h:89-93 | rounding down gives the page holding addr; rounding up gives the least page multiple at or above addr, which equals addr iff addr is aligned; rounding up an address in the last page wraps to 0 |
| PageTable.PageAlignIdempotent | include/kernel/paging.h:89-93 | both modes are idempotent, in either order, when rounding up does not wrap |
| PageTable.PageAlignAligned | include/kernel/paging.h:89-93 | an aligned address is a fixed point of both modes |
| PageTable.PageAlignLeast | include/kernel/paging.h:92 | rounding up gives a result no larger than any page multiple at or above addr |
| PageTable.PageAlignFirstPage | include/kernel/paging.h:85-92 | every address inside the first page rounds down to 0 and up to 0x1000 (the documented "page_align(1, True) = 1" does not hold) |
| PageTable.GetOffset | include/kernel/paging.h:101-103 | the offset is below the page size and the page base plus the offset is the address |
| PageTable.GetVpn | include/kernel/paging.h:112-124 | levels 2, 1, 0 give bits 38:30, 29:21, 20:12 and level -1 the 12-bit offset; any other level is the assertion failure (None) |
| PageTable.VpnDecomposition | include/kernel/paging.h:112-124 | (i2 << 30) OR (i1 << 21) OR (i0 << 12) OR off == vaddr & (2^39 - 1) |
| PageTable.GetPpn | include/kernel/paging.h:133-143 | levels 2 and 0 give bits 55:30 and 20:12; level 1 masks bits 29:21 but shifts by 20; any other level is the assertion failure |
| PageTable.GetPpnLevelOneDoubles | include/kernel/paging.h:137 | the level-1 page number is twice the level-1 index of the same address |
| PageTable.MakeEntryValue | include/kernel/paging.h:164-166 | for paddr < 2^56 and prot < 2^10 the stored entry ((paddr >> 12) << 10) OR prot is paddr / 4096 * 1024 + prot |
| PageTable.MakeEntry | include/kernel/paging.h:164-166 | the packed entry ((paddr >> 12) << 10) OR prot; stated by PageTable.MakeEntryValue and PageTable.EntryRoundTrip |
| PageTable.EntryBase | include/kernel/paging.h:175-179 | the table address read out of an entry is page aligned and is the entry's frame number times the page size (mod 2^64) |
| PageTable.EntryRoundTrip | include/kernel/paging.h:164-179 | for an aligned paddr < 2^56 and prot < 2^10, the base read back from the stored entry is paddr and its low ten bits are prot |
| PageTable.EntryAttributes | include/kernel/paging.h:164-166 | each of the ten low bits of a stored entry equals that bit of the property |
| PageTable.Memory.Load | include/kernel/paging.h:152-155 | the entry a pointer designates is one of its table's words |
| PageTable.Memory.ZeroPage | kernel/mm.c:124 | after `memset(page, 0, PAGE_SIZE)` the page holds 512 zero words and no other table changes |
| PageTable.Memory.SetEntry | include/kernel/paging.h:212-214 | the designated entry becomes ((paddr >> 12) << 10) OR prot and every other word of memory is unchanged |
| PageTable.Memory.EntryBelow | include/kernel/paging.h:199-203 | the pointed-to table is the entry's frame number times the page size, page aligned, indexed by the given index |
| PageTable.RegionSize | include/asm/svxx.h:372-389 | one PGD entry maps 2^30 bytes and one PMD entry 2^21 bytes |
| PageTable.NextBoundary | include/kernel/paging.h:231-233 | the first multiple of the region size strictly above s: at most one region above s, at most 2^64, in the same region as s |
| PageTable.GetMappingEnd | include/kernel/paging.h:228-235 | the result is the smaller of e (0 standing for 2^64) and the next region boundary above s, taken mod 2^64 |
| PageTable.MappingEndChoice | include/kernel/paging.h:234 | the wrapping `boundary - 1 < e - 1` comparison picks the smaller of boundary and e, with a wrapped boundary of 0 yielding e |
| PageTable.MappingEndBounds | include/kernel/paging.h:228-235 | for s < e the chunk [s, r) is non-empty, ends within the range, lies in one region, and stops short of e only at a region boundary |
| Paging.ChildIsEntryBase | include/kernel/paging.h:175-179 | the table an entry leads to in the walk is exactly the address `get_pmd_entry` / `get_pt_entry` read out of it |
| Paging.Store | include/kernel/paging.h:212-214 | storing one entry changes only that word of that table: same frames, every other table unchanged |
| Paging.WalkPath | include/kernel/paging.h:112-124 | the walk of a page goes through root entry VPN2 to the PMD of that role, PMD entry VPN1 to the PT of role (VPN2, VPN1), and reads entry VPN0 there; a zero directory entry on the way gives 0 |
| Paging.WriteOutsideTree | kernel/mm.c:124 | zeroing a frame that is not a table keeps the tree and changes no translation |
| Paging.WritePtAt | include/kernel/paging.h:212-214 | rewriting the entries of one PT changes the translation of the pages of its 2 MiB region only, to the new entries |
| Paging.LinkPt | kernel/paging.c:101-106 | linking a fresh zeroed page below a zero PMD entry with PAGE_TABLE makes it that entry's PT, keeps the tree, and changes no translation |
| Paging.LinkPmd | kernel/paging.c:130-135 | linking a fresh zeroed page below a zero root entry with PAGE_TABLE makes it that entry's PMD, keeps the tree, and changes no translation |
| Paging.LinkedEntry | kernel/paging.c:103-105 | the PAGE_TABLE entry of an aligned frame below 2^56 is non-zero and leads back to the frame |
| Paging.Leaves | kernel/paging.c:113-118 | the leaves of a run of n pages number n |
| Paging.LeavesAt | kernel/paging.c:113-118 | leaf k of the run maps physical page paddr + k * 4096 with the given properties |
| Paging.LeavesAppend | kernel/paging.c:153 | the run of n1 + n2 leaves is the run of n1 followed by the run of n2 from page n1 on, so the physical cursor moves in lockstep with the virtual one |
| Paging.PmdChunk | kernel/paging.c:149 | a 2 MiB chunk `get_mapping_end(v, e, False)` of a non-empty range is non-empty, ends within it, lies in one 2 MiB region and stops short of e only at a boundary |
| Paging.PgdChunk | kernel/paging.c:177 | the same for 1 GiB chunks |
| Paging.NextPmdIndex | kernel/paging.c:149-154 | inside one 1 GiB region, the chunk after a 2 MiB boundary belongs to the next PMD entry |
| Paging.NextPgdIndex | kernel/paging.c:177-182 | the chunk after a 1 GiB boundary belongs to the next root entry |
| Paging.WritesRunAppend | kernel/paging.c:172-182 | two adjacent runs of new translations form one run |
| Paging.AllocTable | kernel/paging.c:102 | `alloc_ppage(True)` for a table: the frame is a free kernel page, aligned, below 2^56, not yet a table, zero-filled and now owned; the tree and every translation are unchanged |
| Paging.FillRowAt | kernel/paging.c:112-118 | after the leaf loop the PT holds the run from index VPN0(s) on and its old entries elsewhere |
| Paging.FillRowStep | kernel/paging.c:114-118 | writing entry c0 + k after k leaves extends the filled run by one leaf |
| Paging.RunInRegion | kernel/paging.c:112 | a page lies in the run written from PT index c0 of PT (a, b) exactly when it has that PT's indices and its VPN0 lies in the run |
| Paging.FillRowWrites | kernel/paging.c:112-118 | filling PT (a, b) from index c0 keeps the tree and changes exactly the translations of the run's pages, to the run's leaves |
| Paging.FillRun | kernel/paging.c:112-118 | the leaf loop writes entry VPN0(s) + k with the frame paddr + k * 4096 for each page k of [s, e), stays below index 512, and changes no other word |
| Paging.PageStep | kernel/paging.c:117-118 | the cursor steps one page and the do-while ends exactly after the last page of [s, e) |
| Paging.EnsurePt | kernel/paging.c:101-106 | a zero PMD entry gets a new zeroed PT linked with PAGE_TABLE; a non-zero entry is left alone and nothing is allocated; either way the entry then leads to PT (a, index) and no translation changed; a failed allocation is not ok |
| Paging.FillLeaves | kernel/paging.c:112-118 | once the PMD entry leads to its PT, the leaves written for [s, e) are exactly the run of translations from paddr |
| Paging.MakePmdEntry | kernel/paging.c:93-119 | `make_pmd_entry` changes exactly the translations of the pages of [s, e), to the lockstep frames from paddr with the given properties, and keeps the tree well formed |
| Paging.EnsurePmd | kernel/paging.c:130-138 | a zero root entry gets a new zeroed PMD linked with PAGE_TABLE; a non-zero entry is never rewritten; either way the entry then leads to PMD index and no translation changed |
| Paging.ChunkStep | kernel/paging.c:149-154 | each chunk advances the page cursor by a whole number of pages, and the loop has covered all of [s, e) when the chunk ends at e |
| Paging.ChunkPlace | kernel/paging.c:141 | a chunk k pages into [s, e) inside one 1 GiB region lands, through PMD entry VPN1 and PT index VPN0 of its start, at page s / 4096 + k |
| Paging.ChunkLands | kernel/paging.c:151-153 | the chunk mapped through its own PMD entry continues the run of leaves written so far |
| Paging.MapPmdChunk | kernel/paging.c:149-153 | one pass of the chunk loop extends the run of lockstep translations by the pages of its chunk |
| Paging.MapPmdRange | kernel/paging.c:141-154 | the corrected chunk loop (PMD entry advanced per chunk) maps exactly the pages of [s, e) to the lockstep frames from paddr |
| Paging.MakePgdEntry | kernel/paging.c:122-155 | corrected `make_pgd_entry`: exactly the pages of [s, e) inside one 1 GiB region translate to consecutive frames from paddr with the given properties; the tree stays well formed |
| Paging.MapPmdRangeAsWritten | kernel/paging.c:141-154 | as written (`pgd_ent++` instead of `pmd_ent++`): every chunk goes through the PMD entry of s, and the last chunk lands in the PT of the region of s from VPN0 of its start on |
| Paging.MakePgdEntryAsWritten | kernel/paging.c:122-155 | `make_pgd_entry` as written: the last chunk's leaves land in the PT of the 2 MiB region of s |
| Paging.MakePgdEntryAsWrittenMisplaces | kernel/paging.c:154 | counterexample: for [0x1F_F000, 0x20_1000) the as-written loop does not map the pages to the lockstep frames (page 0x200 is written into entry 0 of the first PT) |
| Paging.MakePgdEntryAsWrittenInOneRegion | kernel/paging.c:122-155 | where the as-written loop is right: a range inside one 2 MiB region maps exactly its pages to consecutive frames |
| Paging.MapPgdChunk | kernel/paging.c:177-181 | with the corrected `make_pgd_entry`, one pass of the top-level loop maps its 1 GiB chunk through its root entry and extends the run |
| Paging.AlignedRange | kernel/paging.c:163-166 | the mapped range runs from the page holding vaddr to the first page boundary at or above vaddr + size; it is non-empty and inside the 39-bit space |
| Paging.AlignedRangeCovers | kernel/paging.c:163-166 | every byte of [vaddr, vaddr + size) lies in a mapped page, so partial boundary pages are mapped whole |
| Paging.MapPgdRange | kernel/paging.c:169-182 | with the corrected `make_pgd_entry`, the top-level chunk loop maps exactly the pages of [s, e) to the lockstep frames from paddr |
| Paging.CreateMapping | kernel/paging.c:158-183 | size 0 fails the assertion and changes nothing; otherwise, with the corrected `make_pgd_entry`, exactly the pages of [page_align(vaddr, False), page_align(vaddr + size, True)) translate to consecutive frames from page_align(paddr, False) with the given properties |
| Bitmaps.BitMaskIsShift | lib/stdbitmap.c:32 | the mask of bit r is `BITMAP_TAKEN << r` |
| Bitmaps.ByteBitUpdate | lib/stdbitmap.c:30-35 | OR-ing the mask sets bit r alone; AND-ing its complement clears bit r alone |
| Bitmaps.ByteAfter | lib/stdbitmap.c:30-35 | after `bitmap_set` on bit r of a byte, bit r is `taken` and every other bit keeps its value |
| Bitmaps.FreeCount | lib/stdbitmap.c:46-87 | the number of free bits is at most the number of bits |
| Bitmaps.FreeCountTake | lib/stdbitmap.c:104 | taking one free bit lowers the free count by exactly one |
| Bitmaps.FreeCountNone | lib/stdbitmap.c:55-56 | when every bit is taken the free count is zero |
| Bitmaps.AcquiredAsWritten | lib/stdbitmap.c:92-95 | the out[] array as written: out[1..cnt] all hold the first free bit and out[0] keeps the caller's value |
| Bitmaps.AcquiredAsWrittenBits | lib/stdbitmap.c:92-104 | the bits marked as written are only the caller's out[0] and the first free bit; for cnt >= 3 the same bit is reported twice |
| Bitmaps.AcquiredAsWrittenExample | lib/stdbitmap.c:92-104 | on an empty bitmap, out = [7, 7, 7, 7] and cnt = 3 give [7, 0, 0] |
| Bitmaps.Bitmap.constructor | include/stdbitmap.h:29-34 | a bitmap header over its byte buffer, size 0 |
| Bitmaps.Bitmap.Init | lib/stdbitmap.c:19-22 | `bitmap_init` records the size and sets the first size bytes to BITMAP_FREE, so every bit in use is free; later bytes are unchanged |
| Bitmaps.Bitmap.Set | lib/stdbitmap.c:24-36 | `bitmap_set(i, taken)` makes bit i%8 of byte i/8 equal to taken; every other bit and every other byte is unchanged |
| Bitmaps.Bitmap.TakenAfter | lib/stdbitmap.c:26-35 | after the byte update, bit i is `taken`, the other bits of the same byte keep their values, and other bytes are read as before |
| Bitmaps.Bitmap.TestIsTaken | lib/stdbitmap.c:38-44 | `bitmap_test(i)` reads byte i, bit 0 (i / sizeof(byte), i % sizeof(byte)), which is bit 8i in the numbering of `bitmap_set`, not bit i |
| Bitmaps.Bitmap.FirstFreeFrom | lib/stdbitmap.c:52-63 | the lowest free bit at or above i among the bits in use, with every bit before it taken; None when all of them are taken |
| Bitmaps.Bitmap.RunAt | lib/stdbitmap.c:74-79 | the running count of consecutive free indices is at most the number of indices looked at |
| Bitmaps.Bitmap.RunIsFree | lib/stdbitmap.c:74-79 | a running count of c at index n means the c indices ending at n are the first free bit or reported free by `bitmap_test` |
| Bitmaps.Bitmap.FindFirstFree | lib/stdbitmap.c:52-63 | the byte-wise search (skip 0xFF bytes, then skip set bits) finds exactly the lowest free bit, or reports that there is none |
| Bitmaps.Bitmap.Scan | lib/stdbitmap.c:46-87 | -1 when every bit in use is taken; for cnt = 1 the lowest free bit; for other cnt the outcome of the run search from that bit (a start bit, -1, or a read past the buffer); it only reads the bitmap |
| Bitmaps.Bitmap.ScanRun | lib/stdbitmap.c:70-86 | the run search from the first free bit returns next_bit - cnt + 1 at the first index where the count reaches cnt, -1 when it never does, and flags the first read past the buffer |
| Bitmaps.Bitmap.FoundRunIsFree | lib/stdbitmap.c:74-81 | a start bit the run search returns begins cnt indices that are the first free bit or reported free by `bitmap_test` |
| Bitmaps.Bitmap.RunOutcomeUnique | lib/stdbitmap.c:70-86 | the run search has a single outcome: once it finds a run of cnt at x it reports no other start, no -1 and no out-of-bounds |
| Bitmaps.Bitmap.Release | lib/stdbitmap.c:108-111 | `bitmap_release` frees exactly the bits in[0..cnt); every other bit is unchanged |
| Bitmaps.Bitmap.TakenBits | include/stdbitmap.h:29-34 | the taken flags of the 8 * size bits in use |
| Bitmaps.Bitmap.AcquireAsWritten | lib/stdbitmap.c:89-106 | `bitmap_acquire` as written: out[1..cnt] all receive the same first free bit and the bits out[0..cnt) are marked taken |
| Bitmaps.Bitmap.TakeFirstFree | lib/stdbitmap.c:92-94 | one round of the corrected acquire: the lowest free bit is marked taken, nothing else changes, and the free count drops by one; None exactly when nothing is free |
| Bitmaps.Bitmap.Acquire | lib/stdbitmap.c:89-106 | the corrected acquire succeeds exactly when at least cnt bits are free; it then takes cnt distinct, previously free bits and nothing else; on failure nothing changes |
| Mm.ZeroRow | kernel/mm.c:124 | the page `memset(page, 0, PAGE_SIZE)` leaves: 512 zero words |
| Mm.KPages | kernel/mm.c:16 | KPAGES is PAGE_NUMS / MEMORY_US_RATIO rounded down: at most PAGE_NUMS, and ratio * KPAGES is within one ratio of PAGE_NUMS |
| Mm.UPages | kernel/mm.c:18 | UPAGES + KPAGES == PAGE_NUMS |
| Mm.BitmapBytes | kernel/mm.c:27-31 | a pool bitmap of n / 8 + 1 bytes has a bit for each of its n pages |
| Mm.PageAddrFacts | kernel/mm.c:123 | paddr_start + bit * PAGE_SIZE keeps the alignment of the start and, without wrap-around, is start plus bit pages |
| Mm.PageAddr | kernel/mm.c:123 | paddr_start + bit * PAGE_SIZE in 64 bits; stated by Mm.PageAddrFacts |
| Mm.PageIndex | kernel/mm.c:133 | (addr - start) / PAGE_SIZE, in 64 bits, is below 2^52 (never negative) and names the page holding addr when addr >= start |
| Mm.PageIndexRoundTrip | kernel/mm.c:123-133 | freeing the address an allocation returned clears the very bit the allocation set |
| Mm.TotalPages | kernel/mm.c:94-96 | with start rounded up and end rounded down, total_pages * PAGE_SIZE == end - start + PAGE_SIZE, i.e. (end - start) / 4096 + 1 |
| Mm.TotalPagesExact | kernel/mm.c:96 | for aligned bounds the 64-bit quotient plus one is exact and does not wrap |
| Mm.PhysicalPool.constructor | include/kernel/mm.h:27-36 | a physical pool over its bitmap, empty and starting at 0 |
| Mm.VirtualPool.constructor | include/kernel/mm.h:44-51 | a virtual pool over its bitmap, starting at 0 |
| Mm.MemoryManager.constructor | kernel/mm.c:25-52 | the three zero-filled pool bitmaps sized KPAGES / 8 + 1 and UPAGES / 8 + 1, the pools and physical memory |
| Mm.MemoryManager.Pool | kernel/mm.c:112 | `alloc_ppage` and `free_ppage` use the kernel pool iff kpage |
| Mm.MemoryManager.InitPools | kernel/mm.c:57-90 | the kernel pool holds KPAGES pages from start_paddr; the user pool UPAGES pages from start_paddr + KPAGES (a page count added to an address, as written); the kernel virtual pool starts at page_align(_e_kernel, True); every bitmap is cleared |
| Mm.MemoryManager.MemoryInit | kernel/mm.c:93-108 | the bounds are rounded to pages, the page total is (end - start) / 4096 + 1, and the pools are set up from the rounded start with every bit free |
| Mm.MemoryManager.AllocPpage | kernel/mm.c:111-127 | the lowest free bit of the chosen pool is marked taken and nothing else; the result is paddr_start + bit * 4096 and that page is zero; when no bit is free (the failed assertion) nothing changes |
| Mm.MemoryManager.FreePpage | kernel/mm.c:130-139 | exactly bit (ppage - paddr_start) / 4096 of the chosen pool is cleared |
| Mm.MemoryManager.AllocVpage | kernel/mm.c:142-153 | the call succeeds exactly when the pool has a free bit and (for cnt above 1) the scan from the first free bit finds a run of cnt; then only the start bit is marked taken and the result is vaddr_start + bit * 4096; a failed scan changes nothing |
| Mm.MemoryManager.FreeVpage | kernel/mm.c:156-164 | exactly bit (vpage - vaddr_start) / 4096 is cleared |
| PageMalloc.ReservedLeaves | kernel/mm.c:206-216 | one reserved leaf per frame `malloc_page` allocates |
| PageMalloc.ReservedLeavesAt | kernel/mm.c:209-212 | leaf i maps frames[i] with KERNEL_PAGE_RESERVED |
| PageMalloc.ReservedLeafInvalid | kernel/mm.c:209 | a KERNEL_PAGE_RESERVED leaf carries only the RSW bits: it is not valid, yet it still leads back to its frame |
| PageMalloc.OnePageRun | kernel/mm.c:212 | `create_mapping(pgd, v, p, PAGE_SIZE, prop, 0)` for aligned v and p writes exactly one leaf, for page v |
| PageMalloc.OnePage | kernel/mm.c:212 | the translation change of that call is the single leaf of page v to frame p |
| PageMalloc.MapReservedPage | kernel/mm.c:208-212 | one pass of the loop: an aligned kernel frame below 2^56 is taken and page vpage, and only it, now translates to it with KERNEL_PAGE_RESERVED |
| PageMalloc.ReservedLeavesSnoc | kernel/mm.c:206-216 | one more frame adds one more reserved leaf at the end |
| PageMalloc.MapReservedPages | kernel/mm.c:206-216 | the loop maps each of the cnt pages from vstart to a frame of its own and ends with vpage one page past the last page mapped |
| PageMalloc.MallocRun | kernel/mm.c:189-216 | cnt == 0 or kpage == False fails the assertion with nothing mapped; otherwise `alloc_vpage` gives vstart in the kernel virtual pool and exactly the cnt pages from vstart translate to fresh reserved leaves |
| PageMalloc.MallocPageAsWritten | kernel/mm.c:189-218 | `malloc_page` as written returns vstart + cnt * 4096, the address one page past the last page it mapped |
| PageMalloc.MallocPageAsWrittenPastEnd | kernel/mm.c:215-217 | the page the as-written `malloc_page` returns is not one it mapped: its translation is unchanged by the call |
| PageMalloc.MallocPage | kernel/mm.c:189-218 | corrected: the result is the first of the cnt pages, aligned, and exactly those cnt pages from it translate to reserved leaves |
| PageMalloc.MallocPageMaps | kernel/mm.c:206-216 | page i from the returned page maps to frame i with KERNEL_PAGE_RESERVED |
| KernelMap.LeafIsIdentity | kernel/paging.c:52 | leaf j of the run from frame s is the identity leaf of page s / 4096 + j |
| KernelMap.IdentityMapping | kernel/paging.c:52 | a mapping of [vaddr, vaddr + size) to itself, as `create_mapping` makes it, is one layer of identity leaves over the old translation |
| KernelMap.OverlayAppend | kernel/paging.c:26-28 | laying layers A then B is laying B over the result of A |
| KernelMap.OverlayOutside | kernel/paging.c:26-28 | a page no layer covers keeps its leaf |
| KernelMap.OverlayLast | kernel/paging.c:26-28 | a page takes the identity leaf of the last layer that covers it |
| KernelMap.LastCovering | kernel/paging.c:26-28 | a page some layer covers takes the identity leaf of that layer or of a later one |
| KernelMap.OverlaidConcat | kernel/paging.c:26-28 | successive overlays compose into the overlay of the concatenated layers |
| KernelMap.OverlaidThree | kernel/paging.c:70-82 | three mappings laid one after another are the three-layer overlay |
| KernelMap.MapIdentity | kernel/paging.c:52 | `create_mapping(pgd, v, v, size, prop, 0)`: size 0 fails, otherwise, with the corrected `make_pgd_entry`,  exactly the layer of [v, v + size) with prop is laid |
| KernelMap.CreateIdenticalMapping | kernel/paging.c:43-60 | with the corrected `make_pgd_entry`, the text is identity-mapped with KERNEL_PAGE_READ_EXEC, then the data with KERNEL_PAGE (an empty section fails the size assertion) |
| KernelMap.CreateMmioMapping | kernel/paging.c:63-83 | with the corrected `make_pgd_entry`, the PLIC, CLINT and UART register windows are identity-mapped with KERNEL_PAGE, in that order |
| KernelMap.KernelLayers | kernel/paging.c:21-31 | the five layers of the kernel space: text read-execute first, then data and the three MMIO windows read-write |
| KernelMap.EmptyTree | kernel/paging.c:23 | a cleared root table is a well-formed tree |
| KernelMap.EmptyRootOverlaid | kernel/paging.c:23-28 | over a cleared root every page's translation is the layers laid over an unmapped leaf |
| KernelMap.PagingInit | kernel/paging.c:21-31 | `paging_init` clears the root first, then, with the corrected `make_pgd_entry`,  every page translates to the kernel layers laid over an empty table; enabling translation is last and is left out |
| KernelMap.InRangeLayer | kernel/paging.c:52 | the page of an address inside [s, e) lies in the layer of [s, e) |
| KernelMap.CoveredWithProp | kernel/paging.c:26-28 | a page covered by a layer whose later layers share one property takes that property |
| KernelMap.CoveredWithTwoProps | kernel/paging.c:26-28 | a page covered by the first layer, all layers having one of two properties, takes one of them |
| KernelMap.KernelMmioPages | kernel/paging.c:63-83 | with the corrected `make_pgd_entry`, after `paging_init` every page of the PLIC, CLINT and UART windows maps to itself with KERNEL_PAGE |
| KernelMap.KernelDataPages | kernel/paging.c:56-59 | with the corrected `make_pgd_entry`, every page of the data sections maps to itself with KERNEL_PAGE |
| KernelMap.KernelTextPages | kernel/paging.c:49-52 | with the corrected `make_pgd_entry`, every page of the text maps to itself, read-execute unless a later (data) layer shares the page |
| Csr.LowBit | include/asm/csr.h:131-132 | `which & ~(which - 1)` never exceeds which |
| Csr.SetField | include/asm/csr.h:131-132 | `SET_FIELD` with the product wrapping in 64 bits; no contract of its own, its meaning is stated by Csr.SetFieldBits, Csr.SetFieldReadBack and Csr.SetFieldOtherField |
| Csr.MaskPowers | include/asm/csr.h:131-132 | a contiguous mask of bits lo..hi-1 is (2^(hi-lo) - 1) * 2^lo and fits in 64 bits |
| Csr.LowBitOfMask | include/asm/csr.h:132 | the lowest set bit of a contiguous mask is the bit it starts at, 2^lo |
| Csr.SetFieldForm | include/asm/csr.h:131-132 | for a contiguous mask and a value that fits the field, the product places fieldval at bit lo without wrapping, so SET_FIELD is (origin & ~which) OR (fieldval << lo) |
| Csr.SetFieldBits | include/asm/csr.h:131-132 | bit by bit, inside the field SET_FIELD holds fieldval and outside it holds origin |
| Csr.SetFieldKeepsOtherBits | include/asm/csr.h:131-132 | every bit outside a contiguous field equals that bit of origin |
| Csr.GetField | include/asm/csr.h:119-128 | the documented read-back `(x & which) / lowbit(which)` never exceeds x |
| Csr.GetFieldValue | include/asm/csr.h:119-128 | the read-back of a contiguous field is the number held in its bits, (x / 2^lo) mod 2^(hi-lo) |
| Csr.SetFieldReadBack | include/asm/csr.h:119-132 | reading the field back after SET_FIELD gives fieldval |
| Csr.SetFieldOtherField | include/asm/csr.h:131-132 | writing one field leaves the read-back of any disjoint field unchanged |
| Csr.SetFieldLastWins | include/asm/csr.h:131-132 | SET_FIELD(SET_FIELD(o, w, a), w, b) == SET_FIELD(o, w, b), so writing the same value twice is idempotent |
| Csr.FieldBitAt | include/asm/csr.h:119-128 | bit n - lo of the read-back field is bit n of x |
| Csr.SetFieldOwnValue | include/asm/csr.h:119-132 | writing a field's own read-back value changes nothing, and the read-back fits the field |
| Csr.MstatusFields | include/asm/csr.h:26-75 | MSTATUS_MPP is bits 12:11 with U, S, M = 0, 1, 3; MSTATUS_MPIE is bit 7 with DS = 0 and EN = bit 7; MCAUSE_INTERRUPT_FLAG is bit 63 |
| Csr.ExceptionCodes | include/asm/csr.h:76-94 | every listed exception code is below 0x18 |
| Csr.CauseFlagBit | include/asm/csr.h:75 | the interrupt flag is 2^63, half of 2^64 |
| Csr.KernelEntryStatus | sbi/smain.c:28-32 | the mstatus value `jump_to_kernel` writes; stated by Csr.KernelEntryStatusFields |
| Csr.KernelEntryStatusFields | sbi/smain.c:28-32 | after `jump_to_kernel`'s two SET_FIELD calls MPP reads S (1), MPIE reads 0, and every other mstatus bit is kept |
| Csr.SplitCause | kernel/ktrap.c:75-76 | the interrupt flag and code of a cause; stated by Csr.SplitCauseFlag, Csr.SplitCauseCode and Csr.SplitCauseParts |
| Csr.SplitCauseFlag | kernel/ktrap.c:75 | the interrupt half of the split is bit 63 of the cause |
| Csr.SplitCauseCode | kernel/ktrap.c:76 | the code half is the cause with bit 63 cleared |
| Csr.SplitCauseParts | sbi/strap.c:114-115 | the split reads bit 63 and the remaining 63 bits, and the two put the cause back together |
| Csr.SplitExceptionCause | sbi/strap.c:114-115 | a cause below 2^63 is an exception whose code is the cause itself |
| TrapRegistry.Padded | kernel/ktrap.c:17-50 | a static message table is the listed messages followed by NULL up to its size |
| TrapRegistry.AllSlots | kernel/ktrap.c:65-68 | one fill loop registers every slot of one table, in index order, with no message |
| TrapRegistry.Registry.constructor | kernel/ktrap.c:17-56 | the tables as loaded: every handler slot NULL, the message tables initialised with their listed messages and NULL after them |
| TrapRegistry.Registry.Register | kernel/ktrap.c:103-107 | exactly one handler slot of the table chosen by `interrupt` is overwritten; its message slot is replaced iff msg is not NULL; every other slot of all four tables is unchanged |
| TrapRegistry.Registry.RegisterTable | kernel/ktrap.c:65-66 | one fill loop gives every slot of one table the handler and leaves the other table and both message tables unchanged |
| TrapRegistry.Registry.RegisterAll | kernel/ktrap.c:65-68 | after both fill loops every slot of both tables holds the handler and the messages are unchanged |
| TrapRegistry.Registry.Dispatch | kernel/ktrap.c:72-78 | the handler called for a cause is the one most recently registered for its bit 63 and its code (bit 63 cleared); the code must be below the table size, since there is no bounds check |
| TrapRegistry.Registry.GeneralReport | kernel/ktrap.c:81-100 | the general handler reports "Interrupt" or "Exception" by bit 63, the code without bit 63, the cause, and the current message of that slot of the matching message table |
| TrapRegistry.LatestAfterAll | kernel/ktrap.c:65-68 | after the fill loops a slot holds the last handler registered there since, or the fill handler when there was none |
| TrapRegistry.LatestInFill | kernel/ktrap.c:65-68 | right after the fill loops every slot of both tables holds the fill handler |
| TrapRegistry.LatestInSuffix | kernel/ktrap.c:103-107 | the last registration of a slot decides its handler |
| TrapRegistry.LatestSkipsOthers | kernel/ktrap.c:103-107 | registrations of other slots do not change a slot's handler |
| Ktrap.KernelTables | kernel/ktrap.c:17-56 | the kernel's tables as loaded: NULL handlers and the 12 interrupt and 16 exception messages, NULL after them |
| Ktrap.KtrapInit | kernel/ktrap.c:59-69 | every exception slot and then every interrupt slot holds general_ktrap_handler, the messages keep their text, and every in-range cause dispatches to general_ktrap_handler |
| Strap.SbiTables | sbi/strap.c:19-58 | the SBI's tables as loaded: NULL handlers and the 12 interrupt and 16 exception messages, NULL after them |
| Strap.StrapInit | sbi/strap.c:60-72 | both tables are filled with general_strap_handler, then the machine timer interrupt gets stimer_interrupt_handler and "Machine Timer Interrupt"; every other slot dispatches to the general handler |
| Strap.DispatchAfterInit | sbi/strap.c:60-72 | after `strap_init` and any later registrations, a slot runs its last registered handler, else stimer_interrupt_handler for the machine timer and the general SBI handler for every other slot |
| Strap.LatestInPrefixed | sbi/strap.c:142-146 | a registration in front of later registrations of a slot does not change that slot |
| Strap.SingleBit | sbi/strap.c:97 | below 64, `1UL << c` is the single bit c |
| Strap.CodeMask | sbi/strap.c:96-105 | the OR of `1UL << c` over the codes; stated by Strap.CodeMaskBits |
| Strap.CodeMaskBits | sbi/strap.c:96-105 | the OR of `1UL << c` over a list of codes has exactly the bits of those codes |
| Strap.DelegateTraps | sbi/strap.c:75-108 | the mideleg and medeleg values; stated by Strap.DelegatedBits |
| Strap.DelegatedBits | sbi/strap.c:75-108 | mideleg has exactly bits 1, 5, 9 (S-mode software, timer, external) and medeleg exactly the nine listed exceptions {0, 2, 3, 5, 7, 8, 12, 13, 15}; the S-mode ecall (9) stays in M-mode |
| Secall.StrapFrame.constructor | include/trap/trapframe.h:131-138 | a trap frame with the given a0, a1, a2, a7 and mepc |
| Secall.SupEcallHandler | sbi/secall.c:19-45 | corrected: the id comes from a7 and the argument from a0; the outcome is that of the id, and mepc advances by exactly 4 iff the result is 0; no other register changes |
| Secall.EcallOutcomeAsWritten | sbi/secall.c:26-38 | as written, only the PUTCHAR and PUTSTR ids return, the result is 0 exactly for PUTCHAR, and every other id prints the error and halts |
| Secall.EcallOutcomeOf | sbi/secall.c:26-38 | corrected, a call halts exactly when its output is the error message; Secall.EcallPrintsOnce and Secall.OutcomesAgree state the rest |
| Secall.RoundsAsWritten | sbi/secall.c:26-42 | as written, the console output of n trap round trips, at most one line per round |
| Secall.Rounds | sbi/secall.c:26-42 | corrected, the console output of n trap round trips, at most one line per round |
| Secall.PutStrRepeatsAsWritten | sbi/secall.c:32-34 | as written, a PUTSTR ecall leaves the result at -1, so mepc never advances and every round prints the string again |
| Secall.EcallPrintsOnce | sbi/secall.c:27-42 | corrected, every ecall prints exactly once; only PUTCHAR (1) and PUTSTR (2) return, with 0; any other id, SETTIMER (0) among them, hangs |
| Secall.OutcomesAgree | sbi/secall.c:27-38 | the as-written and corrected outcomes print the same and differ exactly for PUTSTR |
| Secall.EcallInit | sbi/secall.c:15-17 | exception 9 (S-mode ecall) gets sup_ecall_handler with no message, nothing else changes, and a trap with cause 9 dispatches to it |
| Plic.PriorityAddr | include/asm/plic.h:42-44 | the priority register of source h is PLIC_BASE_ADDR + 4h (for h below 2^30, where the 32-bit product does not wrap) |
| Plic.PendingAddr | include/asm/plic.h:54-56 | the pending word of source h is PLIC_BASE_ADDR + 0x1000 + 4 (h / 32) |
| Plic.EnableAddr | include/asm/plic.h:68-71 | `plic_enable_addr`; its value is stated by Plic.ContextInWindow |
| Plic.ThresholdAddr | include/asm/plic.h:83-86 | `plic_threshold_addr`; its value is stated by Plic.ContextInWindow |
| Plic.ClaimAddr | include/asm/plic.h:98-100 | `plic_claim_addr`, the threshold address plus 4; its value is stated by Plic.ContextInWindow |
| Plic.CompleteAddr | include/asm/plic.h:113-115 | `plic_complete_addr` is the claim register; stated by Plic.AddressesInWindow |
| Plic.AddressesInWindow | include/asm/plic.h:24-115 | for h < 1024 and hid < 4096 every priority, pending, enable, threshold and claim address lies in [PLIC_BASE_ADDR, PLIC_END_ADDR) and is word aligned, and the complete address is the claim address |
| Plic.SourceInWindow | include/asm/plic.h:42-56 | the priority and pending registers of the first 1024 sources are words 0x300_0000 + h and 0x300_0400 + h / 32 |
| Plic.ContextInWindow | include/asm/plic.h:68-100 | enable is BASE + (0x2000 or 0x2080) + 0x80 hid, threshold BASE + (0x20_0000 or 0x20_1000) + 0x1000 hid, and claim is threshold + 4 |
| Plic.SourceRegisters | include/asm/plic.h:42-56 | distinct sources have distinct priority registers; two sources share a pending word iff they agree on h / 32 |
| Plic.PriorityWraps | include/asm/plic.h:43 | the 32-bit product hwiid * 4 wraps: source 2^30 gets the priority register of source 0 |
| Plic.HartContexts | include/asm/plic.h:68-100 | the S-mode enable block and threshold register of hart hid are those of the M-mode context of hart hid + 1 (0x80 and 0x1000 further on); claim is 4 bytes past threshold |
| CString.NulIndex | lib/string.c:62-67 | a terminated buffer has a first NUL: it lies in the buffer and no NUL comes before it |
| CString.Str | lib/string.c:54-67 | the C string of a buffer is NUL-free and is followed by a NUL in the buffer |
| CString.StrOfPrefix | lib/string.c:54-59 | any NUL-free run followed by NUL at the front of a buffer is that buffer's C string |
| CString.Compare | lib/string.c:42-51 | the three-way comparison only ever yields -1, 0 or 1 |
| CString.CompareZero | lib/string.c:42-51 | the comparison is 0 exactly when the two byte sequences are equal |
| CString.CompareAntisymmetric | lib/string.c:70-75 | swapping the operands negates the comparison |
| CString.Memset | lib/string.c:15-21 | the first size bytes become value, every later byte keeps its old value, and size is returned |
| CString.Strmset | lib/string.c:23-30 | min(size, strlen(dst)) bytes become value, the rest (including the NUL) are unchanged, and that count is returned |
| CString.Memcpy | lib/string.c:32-39 | the first size bytes of dst become those src held before the call (a self-copy changes nothing), the rest are unchanged, and size is returned |
| CString.Memcmp | lib/string.c:42-51 | the result is the three-way comparison of the first size bytes of a and b |
| CString.Strcpy | lib/string.c:54-59 | dst starts with src's string and a NUL, the rest of dst is unchanged, dst's string is then src's, and dst is returned |
| CString.Strlen | lib/string.c:62-67 | the result is the index of the first NUL, i.e. the length of the C string |
| CString.Strcmp | lib/string.c:70-75 | the result is the three-way comparison of the two C strings |
| CString.Strcat | lib/string.c:78-85 | src's string and a NUL are written over dst's NUL, so dst's string becomes the concatenation; bytes after the new NUL are unchanged |
| CString.Strchr | lib/string.c:88-96 | a found position holds ch inside the string with no earlier ch; none means ch does not occur in the string |
| CString.Strrchr | lib/string.c:99-108 | a found position holds ch inside the string with no later ch in the string; none means ch does not occur |
| CString.Strchrs | lib/string.c:111-120 | the count is the number of occurrences of ch in the string |
| CString.StrchrsExample | test/test_string.c:41-42 | "abbbbc" holds four 'b's |
| Numerals.Digits | lib/stdlib.c:16-27 | a numeral has at least one digit and every digit is below the base |
| Numerals.Shift | lib/stdlib.c:19 | dropping the last digit of a number of two or more digits leaves a smaller positive number, the quotient by the base |
| Numerals.DivStep | lib/stdlib.c:18-19 | the number is the quotient times the base plus a remainder below the base, and the quotient is positive and smaller |
| Numerals.DigitsRoundTrip | lib/stdlib.c:16-27 | reading the digits back in the same base gives the number, and there are no leading zeros |
| Numerals.ValueRoundTrip | lib/stdfmt.c:97-102 | every numeral without leading zeros is the digit expansion of its own value (the inverse direction) |
| Numerals.DigitsBound | lib/stdfmt.c:57-64 | a number below 2^k has at most k digits in any base, so the 64-character digit buffer always suffices for a u64 |
| Stdlib.ItoaText | lib/stdlib.c:16-27 | the text has one character per base-b digit of the integer |
| Stdlib.ItoaChar | lib/stdlib.c:23-26 | a digit below 10 becomes '0'..'9' and a digit from 10 to 35 becomes 'A'..'Z', each reading back as that digit |
| Stdlib.Itoa | lib/stdlib.c:16-27 | the pointer advances by the number of digits and exactly that window of the buffer now holds the digit text; everything else is unchanged |
| Stdlib.QuotientZero | lib/stdlib.c:19-22 | the recursion stops exactly when the integer is below the base, and the remainder is then the integer itself |
| Stdlib.SpliceLast | lib/stdlib.c:23-26 | writing one character just past a written run extends the run by that character |
| Stdlib.ItoaTextStep | lib/stdlib.c:19-26 | the text of n is the text of n / base followed by the character of n % base, or a single character below the base |
| Stdlib.ItoaRoundTrip | include/stdlib.h:22-31 | for bases 2..36, reading the text back in the same base gives the integer, and it has no leading '0' unless it is "0" |
| Stdlib.ItoaLength | include/stdlib.h:22-33 | any u64 is written with 1 to 64 characters |
| Stdlib.ItoaExamples | include/stdlib.h:26-31 | 6 in base 2 is "110", 23 in base 8 is "27", 47 in base 16 is "2F" and 0 is "0" |
| Stdlist.ListElem.constructor | include/stdlist.h:25-30 | a fresh node is unlinked: no predecessor and no successor |
| Stdlist.List.constructor | include/stdlist.h:35-40 | a list owns two distinct fresh sentinel nodes |
| Stdlist.ListInit | lib/stdlist.c:15-20 | the head has no predecessor and points to the tail, the tail points back to the head and has no successor, so the sentinels form a well-linked empty list |
| Stdlist.ListInsert | lib/stdlist.c:23-29 | add sits between before and its old predecessor, whose other links are unchanged; inserted at position k of a well-linked list it is not in, the list stays well-linked and gains add at k |
| Stdlist.InsertLinked | lib/stdlist.c:25-28 | after the four pointer writes, a node sequence whose links were intact except around the insertion point is well-linked with add inserted |
| Stdfmt.DigitRunEnd | lib/stdfmt.c:48 | the run of digits starting at i ends at the first non-digit (or NUL) at or after i, and everything before that is a digit |
| Stdfmt.DecimalStep | lib/stdfmt.c:49-50 | reading one more digit multiplies what was read by ten and adds the digit's value |
| Stdfmt.ScanNumber | lib/stdfmt.c:46-54 | the returned position is just past the maximal digit run and the number is that run's decimal value |
| Stdfmt.DigitsText | lib/stdfmt.c:63-65 | one character per digit |
| Stdfmt.Effective | lib/stdfmt.c:70-72 | FLAG_LEFT clears FLAG_ZEROPAD and nothing else: the two are never both set, and without FLAG_LEFT the flags are unchanged |
| Stdfmt.SignOf | lib/stdfmt.c:76-87 | the sign is '-' exactly for a signed conversion of a negative `long`, whose magnitude is then its negation; it is '+', ' ' or none otherwise, and an unsigned conversion keeps num |
| Stdfmt.Head | lib/stdfmt.c:76-94 | the sign then the '#' prefix; stated by Stdfmt.NumberCases |
| Stdfmt.Body | lib/stdfmt.c:105-139 | the zeros and digits are max(precision, digit count) characters; Stdfmt.BodySplit states their order |
| Stdfmt.Repeat | lib/stdfmt.c:110-111 | a padding loop writes n characters when n is positive and none otherwise |
| Stdfmt.NumberLayout | lib/stdfmt.c:57-144 | a layout is produced exactly when the base is in [2, 36] (NULL otherwise) |
| Stdfmt.NumberText | lib/stdfmt.c:57-144 | the corrected conversion gives text exactly when the base is in [2, 36] |
| Stdfmt.NumberTextAsWritten | lib/stdfmt.c:57-144 | the conversion as written gives text exactly when the base is in [2, 36] |
| Stdfmt.Extend | lib/stdfmt.c:111 | writing a segment just after the output written so far extends that output by the segment |
| Stdfmt.PutChar | lib/stdfmt.c:115 | one byte is written at the pointer, which moves past it; the output grows by that byte and nothing else changes |
| Stdfmt.Pad | lib/stdfmt.c:110-111 | the loop writes max(n, 0) copies of c after the output, leaves the rest of the buffer alone, and leaves the counter at min(n, 0) - 1 |
| Stdfmt.Reverse | lib/stdfmt.c:138-139 | reversal keeps the length |
| Stdfmt.LowDigits | lib/stdfmt.c:101-102 | every remainder produced by repeated division is below the base |
| Stdfmt.DigitsLast | lib/stdfmt.c:37-43 | one division step yields a smaller quotient and the last digit of the numeral |
| Stdfmt.LowDigitsReversed | lib/stdfmt.c:101-102 | the remainders of repeated division, read backwards, are the numeral's digits |
| Stdfmt.StoredDigits | lib/stdfmt.c:97-102 | every digit stored in char_num is below the base |
| Stdfmt.StoredText | lib/stdfmt.c:97-139 | the stored digit characters read backwards are the numeral's text, one character per digit |
| Stdfmt.StoredBound | lib/stdfmt.c:60-102 | a u64 has at most 64 stored digits, so the 128-byte char_num never overflows |
| Stdfmt.ConvertDigits | lib/stdfmt.c:96-102 | char_num holds the digit characters of num least significant first (the single '0' for zero), and i is their number, at most 64 |
| Stdfmt.EmitReversed | lib/stdfmt.c:138-139 | the first i stored digits are written in reverse order after the output and the pointer moves past them |
| Stdfmt.Spliced | lib/stdfmt.c:109-141 | a buffer that agrees with another outside a window and holds a text inside it is that buffer with the text spliced in |
| Stdfmt.NumberCases | lib/stdfmt.c:70-141 | the corrected text is sign+prefix, digits, then spaces when left-justified; sign+prefix, '0's, digits when zero-padded; and spaces, sign+prefix, digits otherwise |
| Stdfmt.BodySplit | lib/stdfmt.c:105-139 | the body is precision - i zeros followed by the digit characters |
| Stdfmt.FieldCases | lib/stdfmt.c:109-141 | at most one of the three padding loops writes anything, giving one of the three justifications |
| Stdfmt.NumberField | lib/stdfmt.c:76-141 | the corrected text is the field emitted for the sign and magnitude of num and the width left after sign and prefix |
| Stdfmt.PutPrefix | lib/stdfmt.c:118-128 | the '#' prefix ("0b", "0", "0x" or nothing) is written after the output and the pointer moves past it |
| Stdfmt.EmitHead | lib/stdfmt.c:109-133 | leading spaces, the sign, the prefix and the '0' padding are written in that order; the width counter is unchanged when left-justified and used up otherwise |
| Stdfmt.EmitLead | lib/stdfmt.c:109-128 | the leading spaces (right-justified without zero padding only), the sign and the prefix are written; the counter is used up exactly when the space loop ran |
| Stdfmt.EmitTail | lib/stdfmt.c:136-141 | the precision zeros, the stored digits backwards and the trailing spaces are written in that order |
| Stdfmt.EmitField | lib/stdfmt.c:109-141 | the whole field (paddings, sign, prefix, zeros, digits) is written at pos and the pointer ends just past it |
| Stdfmt.EmitNumber | lib/stdfmt.c:96-141 | the digit field of the magnitude, with at least precision digits and the remaining width as padding, is written at pos |
| Stdfmt.FieldOfDigits | lib/stdfmt.c:105-106 | raising the precision to the digit count and taking it off the width gives the field the emission writes |
| Stdfmt.Written | lib/stdfmt.c:109-141 | the buffer is its original contents with the output spliced in at pos |
| Stdfmt.SignWidth | lib/stdfmt.c:70-94 | corrected (the '-' counted against the width like '+' and ' '): the sign and magnitude are those of the signed reading of num, and the width is reduced by the sign and the prefix |
| Stdfmt.CopyNumber | lib/stdfmt.c:57-144 | a base outside [2, 36] returns NULL and writes nothing; otherwise the buffer gets exactly the corrected text at pos, the rest is unchanged, and the pointer past it is returned |
| Stdfmt.CopyInBase | lib/stdfmt.c:63-143 | for a valid base the corrected text is written at pos and the pointer ends just past it |
| Stdfmt.NumberWidth | lib/stdfmt.c:105-141 | the field is exactly width columns when the sign, prefix and digits fit, and exactly their width otherwise |
| Stdfmt.ZerosValue | lib/stdfmt.c:136-137 | leading zero digits do not change a numeral's value |
| Stdfmt.ZerosOnly | lib/stdfmt.c:136-137 | a run of zeros denotes zero |
| Stdfmt.ScanPrinted | lib/stdfmt.c:46-141 | _scan_number reads back what copy_number prints for an unsigned decimal without width: all digits, denoting num, whatever the precision |
| Stdfmt.DecimalBody | lib/stdfmt.c:136-139 | padding zeros followed by the decimal digits of num are all digits and denote num |
| Stdfmt.DigitValues | lib/stdfmt.c:136-139 | each character of the zeros and digits is a digit whose value is the zero or the digit |
| Stdfmt.MinusOverflow | lib/stdfmt.c:76-79 | as written a negative number that fits comes out width + 1 columns, the '-' not being counted; corrected it is exactly width |
| Stdfmt.MinusExample | lib/stdfmt.c:76-79 | -5 with width 4 is "   -5" as written and "  -5" corrected |
| Printf.AddFlag | lib/stdfmt.c:185-215 | a flag character never sets the sign or capital type bits |
| Printf.FlagsEnd | lib/stdfmt.c:185-215 | the flag run ends at or after p on a byte that is not a flag character, and sets no type bit |
| Printf.Int32 | lib/stdfmt.c:358-361 | an `int` argument is the signed number in [-2^31, 2^31) congruent to the slot modulo 2^32 |
| Printf.Int16 | lib/stdfmt.c:347-351 | a `short` is the signed number in [-2^15, 2^15) congruent to the slot modulo 2^16 |
| Printf.Unsigned | lib/stdfmt.c:358-359 | converting a signed value to `unsigned long` keeps it modulo 2^64 |
| Printf.WithWidth | lib/stdfmt.c:218-232 | the width field only moves forward in the format and the arguments and does not touch the type bits |
| Printf.WithPrecision | lib/stdfmt.c:236-253 | the precision field only moves forward in the format and the arguments and leaves the flags alone |
| Printf.WithLength | lib/stdfmt.c:257-266 | the length field consumes at most two bytes and leaves the arguments and flags alone |
| Printf.ParseSpec | lib/stdfmt.c:180-266 | the specification only moves forward and starts without the sign or capital type bits |
| Printf.CText | lib/stdfmt.c:284-287 | the C string of an argument is a NUL-free prefix of it |
| Printf.Kept | lib/stdfmt.c:284-289 | the characters %s prints; stated by Printf.StringLayout |
| Printf.CharField | lib/stdfmt.c:273-282 | the %c field; stated by Printf.CharLayout |
| Printf.StringField | lib/stdfmt.c:283-300 | the %s field; stated by Printf.StringLayout |
| Printf.NumberConv | lib/stdfmt.c:305-364 | the text of %p and the integer conversions; Printf.EmitNumberConv and Printf.OneDigit state it |
| Printf.BaseOf | lib/stdfmt.c:315-331 | every integer conversion selects a base in [2, 36] |
| Printf.IntArg | lib/stdfmt.c:342-362 | an unsigned conversion without length takes the low 32 bits of the slot, and with `h` the low 16 bits |
| Printf.Convert | lib/stdfmt.c:269-364 | a conversion only moves forward in the format and the arguments |
| Printf.Step | lib/stdfmt.c:172-364 | each turn of the loop consumes at least one format byte and never goes back in the arguments |
| Printf.ScanFlags | lib/stdfmt.c:185-215 | the flags read and the position reached are those of the flag run at p |
| Printf.ScanWidth | lib/stdfmt.c:218-232 | the loop reads the width field as specified |
| Printf.ScanPrecision | lib/stdfmt.c:236-253 | the loop reads the precision field as specified |
| Printf.ScanLength | lib/stdfmt.c:257-266 | the length field is read as specified |
| Printf.ScanSpec | lib/stdfmt.c:180-266 | the four fields after a '%' are read as specified, width and precision starting at -1 |
| Printf.EmitChar | lib/stdfmt.c:273-282 | the %c field is written after the output and the pointer moves past it |
| Printf.PutBytes | lib/stdfmt.c:295-296 | the bytes are written after the output and the pointer moves past them |
| Printf.EmitString | lib/stdfmt.c:283-300 | the %s field is written after the output and the pointer moves past it |
| Printf.PutNumber | lib/stdfmt.c:310-364 | copy_number appends the corrected number text and the pointer moves past it |
| Printf.EmitNumberConv | lib/stdfmt.c:305-364 | corrected number text: %p and the integer conversions append the text of the argument slot |
| Printf.EmitConversion | lib/stdfmt.c:269-364 | the conversion appends exactly its piece's text and reports its next format position, argument index and %n stores |
| Printf.EmitStep | lib/stdfmt.c:172-364 | one turn of the loop writes the first part of what the format still owes and leaves the rest to the following turns |
| Printf.StepRest | lib/stdfmt.c:172-365 | once the piece at p is known, the output from p is that piece followed by the output from its end |
| Printf.FormatStep | lib/stdfmt.c:172-365 | a format that does not end at p is the piece at p followed by the output after it |
| Printf.FormatFrom | lib/stdfmt.c:172-365 | the output of the loop from a format position; stated by Printf.FormatStep, Printf.Unfold and Printf.StoreCounts |
| Printf.Format | lib/stdfmt.c:147-369 | what the corrected `vsprintf` writes; stated by Printf.Vsprintf, Printf.PlainCopy and Printf.StoreCounts |
| Printf.FormatAsWritten | lib/stdfmt.c:147-369 | what `vsprintf` as written writes; stated by Printf.UnknownConversionExample and Printf.ExampleRun |
| Printf.Vsprintf | lib/stdfmt.c:147-369 | for the corrected formatter, the buffer starts with the formatted text and a NUL, the returned count is the text's length, and the %n stores are those of the format |
| Printf.Advance | lib/stdfmt.c:172-365 | moving one piece from what is left to write to what is written keeps the whole output |
| Printf.Terminate | lib/stdfmt.c:367 | the NUL written after the text ends the string |
| Printf.Sprintf | lib/stdfmt.c:371-378 | for the corrected formatter, sprintf writes and returns exactly what vsprintf does for the same arguments |
| Printf.PlainCopy | lib/stdfmt.c:172-176 | a format without '%' is copied unchanged, taking no argument and storing nothing |
| Printf.StepStores | lib/stdfmt.c:301-304 | a %n stores the number of bytes written before it |
| Printf.StoreCounts | lib/stdfmt.c:301-304 | every %n count lies between what was written before and the total written, and the counts never decrease |
| Printf.JoinStores | lib/stdfmt.c:301-304 | stores of the count written so far followed by later stores keep both bounds and order |
| Printf.CharLayout | lib/stdfmt.c:273-282 | %c is max(width, 1) columns: the character last (first when left-justified) and spaces elsewhere |
| Printf.StringLayout | lib/stdfmt.c:283-300 | %s is max(width, kept) columns holding a prefix of the string ("<NULL>" for an empty one), at most precision of it when precision is positive, last (first when left-justified), and spaces elsewhere |
| Printf.UnknownConversion | lib/stdfmt.c:333-364 | corrected, an unknown conversion byte is copied alone and takes no argument; as written it also prints the next argument in the last base (a strict extension), and is undefined when no base was set |
| Printf.Unfold | lib/stdfmt.c:172-365 | the output at a non-NUL byte is the piece there followed by the output after it |
| Printf.OneDigit | lib/stdfmt.c:97-143 | a one-digit number without sign, prefix, width or precision prints as its digit |
| Printf.UnknownConversionExample | lib/stdfmt.c:333-364 | "%d%y" with 1 and 2 prints "1y2" as written and "1y" corrected |
| Printf.ExampleRun | lib/stdfmt.c:172-365 | the two runs of the example, piece by piece |
| Printf.ExampleY | lib/stdfmt.c:333-364 | as written the "%y" prints "y2" and takes an argument; corrected it prints "y" |
| Printf.PercentExample | lib/stdfmt.c:269-272 | "a%%b" prints "a%b" |

## Left out

- CSR and MMIO access: the `read_csr`/`write_csr`/`set_csr`/`clear_csr` assembly, the volatile accessors and `enable_vm_translation` are hardware side effects. The trap cause is a parameter, and `paging_init` ends where translation would be enabled.
- Device and timer drivers (kernel/kplic.c, kernel/ktimer.c, sbi/stimer.c, sbi/sbi.c) and the `_SBICALL` macros: they are not part of this model. Only the PLIC address formulas are modelled.
- Spinlocks: their point is concurrency. The lock calls inside kernel/mm.c are treated as no-ops.
- Console output and halts: printed text is UART output. A halt is a `Halted` outcome (ecall handler), a `None` or `false` result (pools, mapping, malloc), or a message choice (general trap handlers). A failed `ASSERT` is modelled as the DEBUG build has it (include/kernel/kdebug.h:43-51): it halts. Without DEBUG, `ASSERT` expands to nothing and the call goes on into undefined behaviour. For example, `alloc_ppage` on a full pool sets bit -1 and zeroes the page below `paddr_start`, `create_mapping` with size 0 still runs its loop, and `malloc_page` with cnt 0 carries on. PageTable.GetVpn, PageTable.GetPpn, Mm.MemoryManager.AllocPpage, Paging.CreateMapping, KernelMap.MapIdentity and PageMalloc.MallocRun model only the DEBUG behaviour.
- Boot glue: trap-entry stubs, `jump_to_kernel`/`sbi_main` CSR sequences and the kernel boot order are not modelled. Linker symbols (`kernel_pgd`, `_s_text_boot`, `_e_text`, `_s_rodata`, `_e_bss`, `_e_kernel`) are parameters.
- Trap-frame layouts and offset tables: they are constants consumed by assembly that is not part of this model. The frame is a class with the registers the handlers touch.
- `va_list`: the arguments are a sequence of tagged values (`Printf.Arg`). A string argument is passed by value. `%n` is modelled as a returned list of stores rather than writes through pointers.
- Undefined behaviour in `vsprintf` (a missing argument, or one of the wrong kind) gives `None` and is excluded by the precondition of `Printf.Vsprintf`.
- Printf.Vsprintf: states the buffer only up to and including the final NUL. The bytes `strcpy` writes past a precision-truncated `%s` and later overwrites are not described.
- 32-bit `int` arithmetic in `_scan_number` and in the width and precision fields (overflow of long digit runs, `-INT_MIN`): integers are unbounded there.
- Stdfmt.ScanNumber: does not model the wrap-around of `int tmp` for digit runs of more than nine digits.
- Bitmaps.Bitmap.AcquireAsWritten: when no bit is free, the source enters a `while (i-- >= 0)` loop on an unsigned counter that never ends. The model returns `false` with the bitmap unchanged instead. It also requires `cnt < |out|` and a valid bit number in out[0]. The source writes `out[cnt]`, one past a cnt-entry array (lib/stdbitmap.c:92-95), and calls `bitmap_set` on the never-written out[0] without a bound check (lib/stdbitmap.c:103-104). Both are writes outside the objects the model has, so those inputs have no modelled outcome.
- Paging.CreateMapping and the kernel map operations require addresses below 2^39, the Sv39 range. Larger virtual addresses are not given a translation.
- PageMalloc.MallocPage: does not promise that the physical frames are distinct from other live mappings. The pool contracts do not carry ownership of frames across pools.
- Csr.SetFieldReadBack and the other SET_FIELD lemmas cover contiguous masks only. A non-contiguous mask has no field reading to state.
- Declared but unimplemented functions (`paging_load_page_fault_exception_handler`, `list_append`, `list_remove` and the rest of include/stdlist.h): there is no code to model.
- Test programs under test/: they only print. The one expected value used, the `strchrs` count, is `CString.StrchrsExample`.
- Constants the shown headers do not fix (`MAX_INTR_EXCP_INFO_NUM`, `PAGE_NUMS`, `MEMORY_US_RATIO`, `MEMORY_TOTAL`) are fields or parameters with the bounds the code needs.
- Paging.CreateMapping, KernelMap.PagingInit: the translation they promise holds for the corrected `make_pgd_entry`, which advances the PMD entry after each 2 MiB chunk. As written (kernel/paging.c:154) every chunk reuses the first PMD entry and its page table, so a range that crosses a 2 MiB boundary is not mapped at its own addresses. The PLIC window [0xC00_0000, 0x1000_0000) is such a range. Only Paging.MakePgdEntryAsWritten and Paging.MakePgdEntryAsWrittenMisplaces describe the code as written.
- Paging.MapPgdChunk: proved for the corrected `make_pgd_entry` only (see Paging.CreateMapping).
- Paging.MapPgdRange: proved for the corrected `make_pgd_entry` only (see Paging.CreateMapping).
- KernelMap.MapIdentity: proved for the corrected `make_pgd_entry` only (see Paging.CreateMapping).
- KernelMap.CreateIdenticalMapping: proved for the corrected `make_pgd_entry` only. As written, a kernel text or data section that crosses a 2 MiB boundary is misplaced.
- KernelMap.CreateMmioMapping: proved for the corrected `make_pgd_entry` only. As written, the PLIC window crosses 2 MiB boundaries and is misplaced.
- KernelMap.KernelMmioPages: proved for the corrected `make_pgd_entry` only. As written, the PLIC pages past its first 2 MiB do not map to themselves.
- KernelMap.KernelDataPages: proved for the corrected `make_pgd_entry` only (see KernelMap.CreateIdenticalMapping).
- KernelMap.KernelTextPages: proved for the corrected `make_pgd_entry` only (see KernelMap.CreateIdenticalMapping).
- Printf.Vsprintf, Stdfmt.CopyNumber: only the corrected formatter is implemented as a method. In it, '-' counts against the width, and an unknown conversion copies its byte and takes no argument. The as-written text is Printf.FormatAsWritten and Stdfmt.NumberTextAsWritten. Stdfmt.MinusOverflow and Printf.UnknownConversion compare the two.
- Stdfmt.SignWidth: states the corrected width, with '-' counted (see Printf.Vsprintf).
- Printf.EmitNumberConv: appends the corrected number text (see Printf.Vsprintf).
- Printf.PutNumber: appends the corrected number text (see Printf.Vsprintf).
- Printf.Sprintf: is `vsprintf` for the corrected formatter (see Printf.Vsprintf).
- Secall.EcallInit: sbi/secall.c:16 calls `regitser_trap_handler`, which none of the files defines. It is read as the SBI's `regitser_strap_handler` (sbi/strap.c). include/sbi/secall.h declares `secall_init`, but sbi/secall.c defines `ecall_init`; the model follows the definition.
- Stdlib.Itoa: requires a base of at least 2. In the source, base 0 divides by zero and base 1 recurses forever, so those bases have no defined outcome.
- Mm.MemoryManager.AllocVpage: two choices. (1) A failed scan (-1) is the DEBUG `ASSERT` halt, modelled as None (see Console output and halts). (2) A run search that would read past the bitmap's bytes also ends in None. `bitmap_test` reads byte `bit_idx / sizeof(byte)`, which is byte `bit_idx` (lib/stdbitmap.c:40-42), so for cnt above 1 the search reaches past the buffer once the bit number passes the byte count (lib/stdbitmap.c:74-79). The source then reads whatever memory follows the buffer and may report a run there; the model gives no outcome for that memory.
- Secall.SupEcallHandler: implements the corrected PUTSTR branch, which returns 0 and advances mepc. As written (sbi/secall.c:26-34 and 41-42), PUTSTR leaves the result at -1 and mepc unchanged. That outcome is Secall.EcallOutcomeAsWritten, and Secall.PutStrRepeatsAsWritten shows its effect.

## Findings

| source | as written | input that shows it | evidently intended | confidence | as-written member | corrected member |
|---|---|---|---|---|---|---|
| kernel/paging.c:154 | `make_pgd_entry` advances `pgd_ent` after each 2 MiB chunk, so every chunk reuses the first PMD entry and its page table | the range [0x1F_F000, 0x20_1000), which crosses a 2 MiB boundary: page 0x20_0000 is written into entry 0 of the first chunk's PT, i.e. at virtual page 0, and is not mapped at its own address | advance `pmd_ent`, so each chunk gets its own PMD entry | not executed | Paging.MakePgdEntryAsWrittenMisplaces | Paging.MakePgdEntry |
| lib/stdbitmap.c:92-95 | `bitmap_acquire` increments `i` before storing, and scans without marking, so out[1..cnt] all get the same first free bit and out[0] is never written | out = [7, 7, 7, 7], first free bit 0, cnt 3: out[..3] becomes [7, 0, 0], so out[0] keeps its old value and bit 0 is reported twice | cnt distinct free bits, each marked as it is found | not executed | Bitmaps.AcquiredAsWrittenExample | Bitmaps.Bitmap.Acquire |
| kernel/mm.c:215-217 | `malloc_page` returns `vpage` after the loop, one page past the last mapped page | cnt 1: the result is vstart + 4096, a page whose translation the call leaves unchanged | return the first mapped page vstart | not executed | PageMalloc.MallocPageAsWrittenPastEnd | PageMalloc.MallocPageMaps |
| sbi/secall.c:32-34 | the PUTSTR case leaves `ret` at -1, so `mepc` is not advanced and the same ecall runs again | id 2: every trap round prints the string once more | set `ret` to 0 as PUTCHAR does | not executed | Secall.PutStrRepeatsAsWritten | Secall.EcallPrintsOnce |
| lib/stdfmt.c:76-79 | `copy_number` does not take the '-' sign off the width, unlike '+' and ' ' | -5, base 10, width 4, signed: "   -5" (five columns) | "  -5", exactly width columns | not executed | Stdfmt.MinusExample | Stdfmt.NumberWidth |
| lib/stdfmt.c:333-364 | the default case of `vsprintf` copies an unknown conversion byte, then falls into the integer section and prints the next argument in the last base | "%d%y" with 1 and 2: "1y2" | copy the byte alone and take no argument | not executed | Printf.UnknownConversionExample | Printf.UnknownConversion |
