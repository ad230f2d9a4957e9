/**
 * Physical and virtual page pools of the kernel memory manager: two
 * physical pools (kernel and user) and the kernel virtual pool, each a
 * start address and a bitmap with one bit per page.
 */
module Mm {
  import opened Words
  import opened Options
  import opened Bitmaps
  import opened PageTable

  /** A page of 512 zero words, what `memset(page, 0, PAGE_SIZE)` leaves. */
  function ZeroRow(): (row: seq<u64>)
    ensures |row| == 512 && forall k :: 0 <= k < 512 ==> row[k] == 0
  {
    seq(512, _ => 0)
  }

  /** `KPAGES`: the pages of the kernel pools, `PAGE_NUMS / MEMORY_US_RATIO`. */
  function KPages(pageNums: nat, ratio: nat): (k: nat)
    requires ratio > 0
    ensures k <= pageNums && ratio * k <= pageNums < ratio * k + ratio
  {
    var k := pageNums / ratio;
    DivUnique(pageNums, ratio, k, pageNums % ratio);
    MulLe(1, ratio, k);
    k
  }

  /** `UPAGES`: the pages left to the user pool. */
  function UPages(pageNums: nat, ratio: nat): (u: nat)
    requires ratio > 0
    ensures u + KPages(pageNums, ratio) == pageNums
  {
    pageNums - KPages(pageNums, ratio)
  }

  /** Bytes of a pool bitmap for n pages, `n / 8 + 1`: one bit per page and more. */
  function BitmapBytes(n: nat): (b: nat)
    ensures n < 8 * b && b >= 1
  {
    n / 8 + 1
  }

  /**
   * `start + bit_idx * PAGE_SIZE` in 64-bit arithmetic: the address of page
   * `bit` of a pool starting at start.
   */
  function PageAddr(start: u64, bit: nat): u64
  {
    (start + bit * PAGE_SIZE) % WORD
  }

  /** A page address keeps the alignment of start, and is start + bit pages when that fits in 64 bits. */
  lemma PageAddrFacts(start: u64, bit: nat)
    ensures PageAddr(start, bit) % PAGE_SIZE == start % PAGE_SIZE
    ensures start + bit * PAGE_SIZE < WORD ==> PageAddr(start, bit) == start + bit * PAGE_SIZE
  {
    var x := start + bit * PAGE_SIZE;
    var q := x / WORD;
    DivUnique(x, WORD, q, x % WORD);
    var k := start / PAGE_SIZE + bit - q * 0x10_0000_0000_0000;
    DivUnique(start, PAGE_SIZE, start / PAGE_SIZE, start % PAGE_SIZE);
    assert x % WORD == PAGE_SIZE * k + start % PAGE_SIZE;
    DivUnique(x % WORD, PAGE_SIZE, k, start % PAGE_SIZE);
  }

  /**
   * `(addr - start) / PAGE_SIZE` in 64-bit arithmetic: the bit that
   * `free_ppage` and `free_vpage` clear for the page at addr.
   */
  function PageIndex(addr: u64, start: u64): (r: nat)
    ensures r < 0x10_0000_0000_0000
    ensures start <= addr ==> start + r * PAGE_SIZE <= addr < start + (r + 1) * PAGE_SIZE
  {
    Sub(addr, start) / PAGE_SIZE
  }

  /** Freeing the address an allocation returned clears the very bit the allocation set. */
  lemma PageIndexRoundTrip(start: u64, bit: nat)
    requires bit < 0x10_0000_0000_0000
    ensures PageIndex(PageAddr(start, bit), start) == bit
  {
    var a := PageAddr(start, bit);
    if start + bit * PAGE_SIZE < WORD {
      assert Sub(a, start) == bit * PAGE_SIZE;
    } else {
      assert a == start + bit * PAGE_SIZE - WORD;
      assert Sub(a, start) == bit * PAGE_SIZE;
    }
    DivUnique(bit * PAGE_SIZE, PAGE_SIZE, bit, 0);
  }

  /**
   * Page-aligned start and end of the memory and the page count that
   * `memory_init` computes: `(end - start) / PAGE_SIZE + 1` after rounding
   * start up and end down, in 64-bit arithmetic.
   */
  function TotalPages(startPaddr: u64, endPaddr: u64): (r: u64)
    ensures var s := PageAlign(startPaddr, true);
            var e := PageAlign(endPaddr, false);
            s <= e ==> r * PAGE_SIZE == e - s + PAGE_SIZE
  {
    var s := PageAlign(startPaddr, true);
    var e := PageAlign(endPaddr, false);
    TotalPagesExact(s, e);
    Sub(e, s) / PAGE_SIZE + 1
  }

  lemma TotalPagesExact(s: u64, e: u64)
    requires s % PAGE_SIZE == 0 && e % PAGE_SIZE == 0
    ensures s <= e ==> (Sub(e, s) / PAGE_SIZE + 1) * PAGE_SIZE == e - s + PAGE_SIZE
    ensures Sub(e, s) / PAGE_SIZE + 1 < WORD
  {
    if s <= e {
      DivUnique(s, PAGE_SIZE, s / PAGE_SIZE, 0);
      DivUnique(e, PAGE_SIZE, e / PAGE_SIZE, 0);
      DivUnique(e - s, PAGE_SIZE, e / PAGE_SIZE - s / PAGE_SIZE, 0);
    }
  }

  /** `ppool_t`: a physical page pool. */
  class PhysicalPool {
    const btmp: Bitmap
    var paddrStart: u64
    var size: nat

    constructor (b: Bitmap)
      ensures btmp == b && paddrStart == 0 && size == 0
    {
      btmp := b;
      paddrStart := 0;
      size := 0;
    }
  }

  /** `vpool_t`: a virtual page pool. */
  class VirtualPool {
    const btmp: Bitmap
    var vaddrStart: u64

    constructor (b: Bitmap)
      ensures btmp == b && vaddrStart == 0
    {
      btmp := b;
      vaddrStart := 0;
    }
  }

  /**
   * The memory manager's globals: `kernel_ppool`, `user_ppool`,
   * `kernel_vpool` with their bitmap buffers, and physical memory, which
   * `alloc_ppage` clears page by page. `PAGE_NUMS`, `MEMORY_US_RATIO` and
   * the linker symbol `_e_kernel` are parameters.
   */
  class MemoryManager {
    const pageNums: nat
    const ratio: nat
    const kpages: nat    // KPAGES
    const upages: nat    // UPAGES
    const eKernel: u64
    const kernelPpool: PhysicalPool
    const userPpool: PhysicalPool
    const kernelVpool: VirtualPool
    const mem: Memory

    ghost predicate Valid()
      reads this, kernelPpool.btmp, userPpool.btmp, kernelVpool.btmp, mem
    {
      && kernelPpool.btmp.Valid() && userPpool.btmp.Valid() && kernelVpool.btmp.Valid()
      && kernelPpool.btmp.bits.Length == BitmapBytes(kpages)
      && kernelVpool.btmp.bits.Length == BitmapBytes(kpages)
      && userPpool.btmp.bits.Length == BitmapBytes(upages)
      && kernelPpool.btmp.bits != userPpool.btmp.bits
      && kernelPpool.btmp.bits != kernelVpool.btmp.bits
      && userPpool.btmp.bits != kernelVpool.btmp.bits
      && mem.Valid()
    }

    /** `pool_btmps`: three zero-filled bitmap buffers sized for their pools. */
    constructor (pageNums: nat, ratio: nat, eKernel: u64)
      requires ratio > 0
      ensures Valid()
      ensures this.pageNums == pageNums && this.ratio == ratio && this.eKernel == eKernel
      ensures kpages == KPages(pageNums, ratio) && upages == UPages(pageNums, ratio)
      ensures fresh(kernelPpool) && fresh(userPpool) && fresh(kernelVpool) && fresh(mem)
      ensures fresh(kernelPpool.btmp) && fresh(userPpool.btmp) && fresh(kernelVpool.btmp)
      ensures fresh(kernelPpool.btmp.bits) && fresh(userPpool.btmp.bits) && fresh(kernelVpool.btmp.bits)
    {
      this.pageNums := pageNums;
      this.ratio := ratio;
      this.eKernel := eKernel;
      kpages := KPages(pageNums, ratio);
      upages := UPages(pageNums, ratio);
      var kbits := new bv8[BitmapBytes(KPages(pageNums, ratio))](_ => 0);
      var ubits := new bv8[BitmapBytes(UPages(pageNums, ratio))](_ => 0);
      var vbits := new bv8[BitmapBytes(KPages(pageNums, ratio))](_ => 0);
      var kb := new Bitmap(kbits);
      var ub := new Bitmap(ubits);
      var vb := new Bitmap(vbits);
      kernelPpool := new PhysicalPool(kb);
      userPpool := new PhysicalPool(ub);
      kernelVpool := new VirtualPool(vb);
      mem := new Memory();
    }

    /** The pool `alloc_ppage` and `free_ppage` choose: the kernel pool iff kpage. */
    function Pool(kpage: bool): (p: PhysicalPool)
      ensures p == (if kpage then kernelPpool else userPpool)
    {
      if kpage then kernelPpool else userPpool
    }

    /**
     * `init_pools`: the kernel physical pool holds KPAGES pages from
     * startPaddr; the user pool UPAGES pages from startPaddr + KPAGES (a page
     * count added to an address, as written); the kernel virtual pool starts
     * at the page boundary at or above `_e_kernel`. All three bitmaps are
     * cleared over their whole buffers. The page total is not used.
     */
    method InitPools(startPaddr: u64, totalPages: u64)
      modifies kernelPpool, userPpool, kernelVpool
      modifies kernelPpool.btmp, userPpool.btmp, kernelVpool.btmp
      modifies kernelPpool.btmp.bits, userPpool.btmp.bits, kernelVpool.btmp.bits
      requires Valid()
      ensures Valid() && unchanged(mem)
      ensures kernelPpool.size == kpages && kernelPpool.paddrStart == startPaddr
      ensures userPpool.size == upages
      ensures userPpool.paddrStart == Add(startPaddr, kpages % WORD)
      ensures kernelVpool.vaddrStart == PageAlign(eKernel, true)
      ensures kernelPpool.btmp.size == kernelPpool.btmp.bits.Length
      ensures userPpool.btmp.size == userPpool.btmp.bits.Length
      ensures kernelVpool.btmp.size == kernelVpool.btmp.bits.Length
      ensures forall i: nat :: i < 8 * kernelPpool.btmp.size ==> !kernelPpool.btmp.Taken(i)
      ensures forall i: nat :: i < 8 * userPpool.btmp.size ==> !userPpool.btmp.Taken(i)
      ensures forall i: nat :: i < 8 * kernelVpool.btmp.size ==> !kernelVpool.btmp.Taken(i)
    {
      kernelPpool.size := kpages;
      kernelPpool.paddrStart := startPaddr;
      kernelPpool.btmp.Init(BitmapBytes(kpages));

      userPpool.size := upages;
      userPpool.paddrStart := Add(startPaddr, kpages % WORD);
      userPpool.btmp.Init(BitmapBytes(upages));

      kernelVpool.vaddrStart := PageAlign(eKernel, true);
      kernelVpool.btmp.Init(BitmapBytes(kpages));
    }

    /**
     * `memory_init`: rounds the bounds to pages, computes the page total
     * (returned here; the source only prints it) and sets up the pools from
     * the rounded start.
     */
    method MemoryInit(startPaddr: u64, endPaddr: u64) returns (totalPages: u64)
      modifies kernelPpool, userPpool, kernelVpool
      modifies kernelPpool.btmp, userPpool.btmp, kernelVpool.btmp
      modifies kernelPpool.btmp.bits, userPpool.btmp.bits, kernelVpool.btmp.bits
      requires Valid()
      ensures Valid()
      ensures totalPages == TotalPages(startPaddr, endPaddr)
      ensures kernelPpool.paddrStart == PageAlign(startPaddr, true)
      ensures userPpool.paddrStart == Add(PageAlign(startPaddr, true), kpages % WORD)
      ensures kernelVpool.vaddrStart == PageAlign(eKernel, true)
      ensures forall i: nat :: i < 8 * kernelPpool.btmp.size ==> !kernelPpool.btmp.Taken(i)
      ensures forall i: nat :: i < 8 * userPpool.btmp.size ==> !userPpool.btmp.Taken(i)
      ensures forall i: nat :: i < 8 * kernelVpool.btmp.size ==> !kernelVpool.btmp.Taken(i)
    {
      var s := PageAlign(startPaddr, true);
      totalPages := TotalPages(startPaddr, endPaddr);
      InitPools(s, totalPages);
    }

    /**
     * `alloc_ppage`: the lowest free bit of the chosen pool is marked taken
     * and its page, paddr_start + bit * PAGE_SIZE, is cleared. None is the
     * failed assertion when the pool has no free bit.
     */
    method AllocPpage(kpage: bool) returns (r: Option<u64>)
      modifies Pool(kpage).btmp.bits, mem
      requires Valid()
      ensures Valid()
      ensures r.None? <==> old(Pool(kpage).btmp.FirstFreeFrom(0)).None?
      ensures r.None? ==> unchanged(Pool(kpage).btmp.bits) && unchanged(mem)
      ensures r.Some? ==>
                var g := old(Pool(kpage).btmp.FirstFreeFrom(0)).value;
                && g < 8 * Pool(kpage).btmp.size
                && !old(Pool(kpage).btmp.Taken(g))
                && r.value == PageAddr(Pool(kpage).paddrStart, g)
                && (forall j: nat :: j < 8 * Pool(kpage).btmp.bits.Length ==>
                      Pool(kpage).btmp.Taken(j) == (j == g || old(Pool(kpage).btmp.Taken(j))))
                && mem.frames == old(mem.frames)[r.value := ZeroRow()]
    {
      var pool := Pool(kpage);
      var found := pool.btmp.Scan(1);
      if !found.Found? {
        return None;
      }
      var bitIdx := found.bit;
      pool.btmp.Set(bitIdx, true);
      var ppage := PageAddr(pool.paddrStart, bitIdx);
      mem.ZeroPage(ppage);
      r := Some(ppage);
    }

    /**
     * `free_ppage`: clears bit (ppage - paddr_start) / PAGE_SIZE of the
     * chosen pool and nothing else. The source's assertion that the index
     * is not negative always holds, since the unsigned quotient is below
     * 2^52; the caller must name a bit inside the buffer.
     */
    method FreePpage(ppage: u64, kpage: bool)
      modifies Pool(kpage).btmp.bits
      requires Valid()
      requires PageIndex(ppage, Pool(kpage).paddrStart) / 8 < Pool(kpage).btmp.bits.Length
      ensures Valid()
      ensures forall j: nat :: j < 8 * Pool(kpage).btmp.bits.Length ==>
                Pool(kpage).btmp.Taken(j) ==
                  (j != PageIndex(ppage, Pool(kpage).paddrStart) && old(Pool(kpage).btmp.Taken(j)))
    {
      var pool := Pool(kpage);
      var bitIdx := PageIndex(ppage, pool.paddrStart);
      pool.btmp.Set(bitIdx, false);
    }

    /**
     * `alloc_vpage`: scans the pool for cnt consecutive free bits but marks
     * only the first of them taken, and returns vaddr_start + bit *
     * PAGE_SIZE. None is the failed assertion when the scan reports no run;
     * a scan that would read past the buffer also ends in None.
     */
    method AllocVpage(vpool: VirtualPool, cnt: nat) returns (r: Option<u64>)
      modifies vpool.btmp.bits
      requires vpool.btmp.Valid()
      ensures vpool.btmp.Valid()
      ensures r.Some? <==>
                old(vpool.btmp.FirstFreeFrom(0)).Some? &&
                (cnt == 1 || exists x: nat :: old(vpool.btmp.RunOutcome(vpool.btmp.FirstFreeFrom(0).value, cnt, Found(x))))
      ensures r.None? ==> unchanged(vpool.btmp.bits)
      ensures r.Some? ==>
                var g := old(vpool.btmp.FirstFreeFrom(0)).value;
                exists x: nat ::
                  && (if cnt == 1 then x == g else old(vpool.btmp.RunOutcome(g, cnt, Found(x))))
                  && (cnt > 0 ==> x < 8 * vpool.btmp.size)
                  && r.value == PageAddr(vpool.vaddrStart, x)
                  && forall j: nat :: j < 8 * vpool.btmp.bits.Length ==>
                       vpool.btmp.Taken(j) == (j == x || old(vpool.btmp.Taken(j)))
    {
      var found := vpool.btmp.Scan(cnt);
      if !found.Found? {
        if vpool.btmp.FirstFreeFrom(0).Some? && cnt != 1 {
          ghost var g := vpool.btmp.FirstFreeFrom(0).value;
          forall x: nat | vpool.btmp.RunOutcome(g, cnt, Found(x))
            ensures false
          {
            vpool.btmp.RunOutcomeUnique(g, cnt, x, found);
          }
        }
        return None;
      }
      var bitIdx := found.bit;
      ghost var g := vpool.btmp.FirstFreeFrom(0).value;
      if cnt != 1 {
        assert vpool.btmp.RunOutcome(g, cnt, found);
      }
      assert bitIdx / 8 < vpool.btmp.bits.Length;
      vpool.btmp.Set(bitIdx, true);
      r := Some(PageAddr(vpool.vaddrStart, bitIdx));
    }

    /**
     * `free_vpage`: clears bit (vpage - vaddr_start) / PAGE_SIZE and
     * nothing else.
     */
    method FreeVpage(vpool: VirtualPool, vpage: u64)
      modifies vpool.btmp.bits
      requires PageIndex(vpage, vpool.vaddrStart) / 8 < vpool.btmp.bits.Length
      ensures forall j: nat :: j < 8 * vpool.btmp.bits.Length ==>
                vpool.btmp.Taken(j) == (j != PageIndex(vpage, vpool.vaddrStart) && old(vpool.btmp.Taken(j)))
    {
      var bitIdx := PageIndex(vpage, vpool.vaddrStart);
      vpool.btmp.Set(bitIdx, false);
    }
  }
}
