/**
 * The page-table helpers of `paging.h`: page alignment, the decomposition
 * of a virtual address into VPN indices and offset, the packing of a
 * physical page number and attribute bits into an entry, the walk from an
 * entry to the next-level table, and the end of a mapping chunk.
 *
 * Physical memory is a `Memory` object that maps the base address of each
 * page in use to its 512 64-bit words; a pointer to a table entry is the
 * pair (table page, index).
 */
module PageTable {
  import opened Words
  import opened Sv39
  import opened Options

  const PAGE_SHIFT: nat := 12
  const PAGE_SIZE: u64 := 0x1000    // 1 << PAGE_SHIFT

  /* The page properties the kernel uses. */
  const SYS_PAGE_ATTR_BASE: u64 := Or(Or(PAGE_ATTR_VALID, PAGE_ATTR_ACCESS), PAGE_ATTR_USER)
  const SYS_PAGE_ATTR_NONE: u64 := Not(PAGE_ATTR_VALID)
  const SYS_PAGE_ATTR_READ: u64 := Or(SYS_PAGE_ATTR_BASE, PAGE_ATTR_READ)
  const SYS_PAGE_ATTR_WRITE: u64 := Or(SYS_PAGE_ATTR_BASE, PAGE_ATTR_WRITE)
  const SYS_PAGE_ATTR_EXEC: u64 := Or(SYS_PAGE_ATTR_BASE, PAGE_ATTR_EXEC)
  const SYS_PAGE_ATTR_READ_EXEC: u64 := Or(Or(SYS_PAGE_ATTR_BASE, PAGE_ATTR_READ), PAGE_ATTR_EXEC)
  const SYS_PAGE_ATTR_WRITE_EXEC: u64 := Or(Or(SYS_PAGE_ATTR_BASE, PAGE_ATTR_WRITE), PAGE_ATTR_EXEC)
  const PAGE_TABLE: u64 := PAGE_ATTR_VALID
  const KERNEL_PAGE: u64 :=
    Or(Or(Or(Or(Or(PAGE_ATTR_READ, PAGE_ATTR_WRITE), PAGE_ATTR_VALID), PAGE_ATTR_ACCESS), PAGE_ATTR_DIRTY), PAGE_ATTR_GLOBAL)
  const KERNEL_PAGE_READ: u64 := And(KERNEL_PAGE, Not(PAGE_ATTR_WRITE))
  const KERNEL_PAGE_EXEC: u64 := Or(KERNEL_PAGE, PAGE_ATTR_EXEC)
  const KERNEL_PAGE_READ_EXEC: u64 := Or(And(KERNEL_PAGE, Not(PAGE_ATTR_WRITE)), PAGE_ATTR_EXEC)
  const KERNEL_PAGE_READ_WRITE_EXEC: u64 := Or(Or(KERNEL_PAGE, PAGE_ATTR_WRITE), PAGE_ATTR_EXEC)
  const KERNEL_PAGE_RESERVED: u64 := PAGE_ATTR_SOFTWARE

  /** The numeric values of the user page properties. */
  lemma SysPropertyValues()
    ensures SYS_PAGE_ATTR_BASE == 0x51 && SYS_PAGE_ATTR_READ == 0x53 && SYS_PAGE_ATTR_WRITE == 0x55
    ensures SYS_PAGE_ATTR_EXEC == 0x59 && SYS_PAGE_ATTR_READ_EXEC == 0x5B && SYS_PAGE_ATTR_WRITE_EXEC == 0x5D
    ensures SYS_PAGE_ATTR_NONE == WORD - 2
  {
    assert Or(1, 0x40) == 0x41;
    assert Or(0x41, 0x10) == 0x51;
    assert Or(0x51, 2) == 0x53;
    assert Or(0x51, 4) == 0x55;
    assert Or(0x51, 8) == 0x59;
    assert Or(0x53, 8) == 0x5B;
    assert Or(0x55, 8) == 0x5D;
  }

  /** The numeric values of the kernel page properties. */
  lemma KernelPropertyValues()
    ensures KERNEL_PAGE == 0xE7 && KERNEL_PAGE_READ == 0xE3 && KERNEL_PAGE_EXEC == 0xEF
    ensures KERNEL_PAGE_READ_EXEC == 0xEB && KERNEL_PAGE_READ_WRITE_EXEC == 0xEF
    ensures KERNEL_PAGE_RESERVED == 0x300 && PAGE_TABLE == 1
  {
    assert KERNEL_PAGE == 0xE7 by {
      assert Or(2, 4) == 6;
      assert Or(6, 1) == 7;
      assert Or(7, 0x40) == 0x47;
      assert Or(0x47, 0x80) == 0xC7;
      assert Or(0xC7, 0x20) == 0xE7;
    }
    KernelReadOnly();
    assert Or(0xE3, 8) == 0xEB;
    assert Or(0xE7, 8) == 0xEF;
    assert Or(0xE7, 4) == 0xE7;
  }

  lemma KernelReadOnly()
    ensures And(0xE7, Not(PAGE_ATTR_WRITE)) == 0xE3
  {
    Pow2Word();
    forall n: nat | n < 64
      ensures Bit(And(0xE7, Not(PAGE_ATTR_WRITE)), n) == Bit(0xE3, n)
    {
      BitAnd(0xE7, Not(PAGE_ATTR_WRITE), n);
      BitNot(PAGE_ATTR_WRITE, n);
      assert Pow2(2) == 4;
      BitPow2(2, n);
      if n >= 8 {
        assert Pow2(8) == 0x100;
        BitBound(0xE7, 8, n);
        BitBound(0xE3, 8, n);
      } else if n == 0 {
      } else if n == 1 {
      } else if n == 2 {
      } else if n == 3 {
      } else if n == 4 {
      } else if n == 5 {
      } else if n == 6 {
      } else {
        assert n == 7;
      }
    }
    BitsEq(And(0xE7, Not(PAGE_ATTR_WRITE)), 0xE3, 64);
  }

  /** A directory entry written with PAGE_TABLE is valid and not a leaf. */
  lemma TablePropertyMeaning()
    ensures IsValidPage(PAGE_TABLE) && !IsLeafPage(PAGE_TABLE)
  {
    assert Bit(1, 0) && !Bit(1, 1) && !Bit(1, 2) && !Bit(1, 3);
  }

  /**
   * The kernel text property is a global, accessed, dirty, readable and
   * executable page that is neither writable nor user-accessible; the data
   * property is a writable, non-executable leaf; the reserved property
   * is not valid.
   */
  lemma KernelPropertyMeaning()
    ensures IsReadablePage(KERNEL_PAGE_READ_EXEC) && IsExecutablePage(KERNEL_PAGE_READ_EXEC)
    ensures !IsWritablePage(KERNEL_PAGE_READ_EXEC) && !IsUserPage(KERNEL_PAGE_READ_EXEC)
    ensures IsValidPage(KERNEL_PAGE_READ_EXEC) && IsAccessedPage(KERNEL_PAGE_READ_EXEC)
    ensures IsDirtyPage(KERNEL_PAGE_READ_EXEC) && IsGlobalPage(KERNEL_PAGE_READ_EXEC)
    ensures IsLeafPage(KERNEL_PAGE) && IsWritablePage(KERNEL_PAGE) && !IsExecutablePage(KERNEL_PAGE)
    ensures !IsValidPage(KERNEL_PAGE_RESERVED)
  {
    KernelPropertyValues();
    assert Bit(0xEB, 0) && Bit(0xEB, 1) && !Bit(0xEB, 2) && Bit(0xEB, 3) && !Bit(0xEB, 4);
    assert Bit(0xEB, 5) && Bit(0xEB, 6) && Bit(0xEB, 7);
    assert Bit(0xE7, 0) && Bit(0xE7, 1) && Bit(0xE7, 2) && !Bit(0xE7, 3);
    assert !Bit(0x300, 0);
  }

  /** The readable, writable and executable SYS_ properties are valid, accessed user leaves. */
  lemma SysPropertyMeaning()
    ensures IsLeafPage(SYS_PAGE_ATTR_READ) && IsUserPage(SYS_PAGE_ATTR_READ) && IsAccessedPage(SYS_PAGE_ATTR_READ)
    ensures IsLeafPage(SYS_PAGE_ATTR_WRITE) && IsUserPage(SYS_PAGE_ATTR_WRITE) && IsAccessedPage(SYS_PAGE_ATTR_WRITE)
    ensures IsLeafPage(SYS_PAGE_ATTR_EXEC) && IsUserPage(SYS_PAGE_ATTR_EXEC) && IsAccessedPage(SYS_PAGE_ATTR_EXEC)
  {
    SysPropertyValues();
    assert Bit(0x53, 0) && Bit(0x53, 1) && Bit(0x53, 4) && Bit(0x53, 6);
    assert Bit(0x55, 0) && Bit(0x55, 2) && Bit(0x55, 4) && Bit(0x55, 6);
    assert Bit(0x59, 0) && Bit(0x59, 3) && Bit(0x59, 4) && Bit(0x59, 6);
  }

  /**
   * `page_align`: the start of the page holding addr, or, with next, the
   * start of the first page at or above addr.  The sum addr + PAGE_SIZE - 1
   * wraps in 64 bits, so an address in the last page rounds up to 0.
   */
  function PageAlign(addr: u64, next: bool): (r: u64)
    ensures r % PAGE_SIZE == 0
    ensures !next ==> r <= addr < r + PAGE_SIZE
    ensures next && addr + PAGE_SIZE - 1 < WORD ==>
              addr <= r < addr + PAGE_SIZE && (r == addr <==> addr % PAGE_SIZE == 0)
    ensures next && addr + PAGE_SIZE - 1 >= WORD ==> r == 0
  {
    var up := Sub(Add(addr, PAGE_SIZE), 1);
    AlignDownForm(addr);
    AlignDownForm(up);
    var r := if !next then And(addr, Not(PAGE_OFFSET_MASK)) else And(up, Not(PAGE_OFFSET_MASK));
    PageAlignFacts(addr, next, r);
    r
  }

  lemma PageAlignFacts(addr: u64, next: bool, r: int)
    requires !next ==> r == addr / 0x1000 * 0x1000
    requires next ==> r == Sub(Add(addr, PAGE_SIZE), 1) / 0x1000 * 0x1000
    ensures r % PAGE_SIZE == 0
    ensures !next ==> r <= addr < r + PAGE_SIZE
    ensures next && addr + PAGE_SIZE - 1 < WORD ==>
              addr <= r < addr + PAGE_SIZE && (r == addr <==> addr % PAGE_SIZE == 0)
    ensures next && addr + PAGE_SIZE - 1 >= WORD ==> r == 0
  {
    var x := if !next then addr else Sub(Add(addr, PAGE_SIZE), 1);
    RoundDown(x, 0x1000);
    if next && addr + PAGE_SIZE - 1 < WORD && addr % PAGE_SIZE == 0 {
      DivUnique(x, 0x1000, addr / 0x1000, 0xFFF);
    }
  }

  lemma RoundDown(x: int, d: nat)
    requires d > 0 && x >= 0
    ensures x / d * d <= x < x / d * d + d
    ensures (x / d * d) % d == 0
  {
    DivUnique(x / d * d, d, x / d, 0);
  }

  /** Both modes of `page_align` are idempotent, and an aligned address is a fixed point. */
  lemma PageAlignIdempotent(addr: u64, next: bool, again: bool)
    requires next ==> addr + PAGE_SIZE - 1 < WORD
    ensures PageAlign(PageAlign(addr, next), again) == PageAlign(addr, next)
  {
  }

  /** A page-aligned address is a fixed point of both modes. */
  lemma PageAlignAligned(addr: u64)
    requires addr % PAGE_SIZE == 0
    ensures PageAlign(addr, false) == addr
    ensures addr + PAGE_SIZE - 1 < WORD ==> PageAlign(addr, true) == addr
  {
    var down := PageAlign(addr, false);
    DivUnique(addr, PAGE_SIZE, down / PAGE_SIZE, addr - down);
  }

  /** Rounding up gives the least page multiple at or above addr. */
  lemma PageAlignLeast(addr: u64, m: int)
    requires addr + PAGE_SIZE - 1 < WORD
    requires m % PAGE_SIZE == 0 && addr <= m
    ensures PageAlign(addr, true) <= m
  {
  }

  /**
   * The examples of the documentation comment, for every address inside
   * the first page: rounding down gives 0 and rounding up gives 0x1000.
   */
  lemma PageAlignFirstPage(addr: u64)
    requires 0 < addr < PAGE_SIZE
    ensures PageAlign(addr, false) == 0
    ensures PageAlign(addr, true) == PAGE_SIZE
  {
    var down := PageAlign(addr, false);
    assert down == 0 by {
      DivUnique(down, PAGE_SIZE, 0, down);
    }
    var up := PageAlign(addr, true);
    assert up == PAGE_SIZE by {
      if up < PAGE_SIZE {
        DivUnique(up, PAGE_SIZE, 0, up);
      } else {
        DivUnique(up, PAGE_SIZE, 1, up - PAGE_SIZE);
      }
    }
  }

  /** `get_offset`: the position of vaddr inside its page. */
  function GetOffset(vaddr: u64): (r: u64)
    ensures r < PAGE_SIZE
    ensures PageAlign(vaddr, false) + r == vaddr
  {
    LowForm(vaddr);
    And(vaddr, PAGE_OFFSET_MASK)
  }

  /**
   * `get_vpn`: level 2, 1 and 0 give VPN[2], VPN[1] and VPN[0], the 9-bit
   * fields at bits 38:30, 29:21 and 20:12; level -1 gives the page offset.
   * Any other level fails the kernel's assertion (None).
   */
  function GetVpn(vaddr: u64, level: int): (r: Option<u64>)
    ensures r.Some? <==> -1 <= level <= 2
    ensures level == 2 ==> r == Some(vaddr / 0x4000_0000 % 512)
    ensures level == 1 ==> r == Some(vaddr / 0x20_0000 % 512)
    ensures level == 0 ==> r == Some(vaddr / 0x1000 % 512)
    ensures level == -1 ==> r == Some(vaddr % 0x1000)
  {
    if level == 2 then
      Vpn2Form(vaddr);
      Some(And(Shr(vaddr, 30), PGDE_PER_PGD - 1))
    else if level == 1 then
      Vpn1Form(vaddr);
      Some(Shr(And(vaddr, PAGE_VPN1_MASK), 21))
    else if level == 0 then
      Vpn0Form(vaddr);
      Some(Shr(And(vaddr, PAGE_VPN0_MASK), 12))
    else if level == -1 then
      LowForm(vaddr);
      Some(And(vaddr, PAGE_SIZE - 1))
    else
      None
  }

  /**
   * The three indices and the offset reassemble the low 39 bits of the
   * address: (i2 << 30) | (i1 << 21) | (i0 << 12) | off == vaddr & (2^39 - 1).
   */
  lemma VpnDecomposition(vaddr: u64)
    ensures var i2, i1, i0, off := GetVpn(vaddr, 2).value, GetVpn(vaddr, 1).value,
                                   GetVpn(vaddr, 0).value, GetVpn(vaddr, -1).value;
            Or(Or(Or(Shl(i2, 30), Shl(i1, 21)), Shl(i0, 12)), off) == And(vaddr, Pow2(39) - 1)
  {
    var i2, i1, i0, off := GetVpn(vaddr, 2).value, GetVpn(vaddr, 1).value,
                           GetVpn(vaddr, 0).value, GetVpn(vaddr, -1).value;
    DigitsCombine(vaddr, i2, i1, i0, off);
    FieldsCombine(i2, i1, i0, off);
    Low39Form(vaddr);
  }

  lemma Low39Form(a: u64)
    ensures And(a, Pow2(39) - 1) == a % 0x80_0000_0000
  {
    Pow2Table();
    AndLow(a, 39);
  }

  lemma DigitsCombine(v: u64, i2: nat, i1: nat, i0: nat, off: nat)
    requires i2 == v / 0x4000_0000 % 512 && i1 == v / 0x20_0000 % 512
    requires i0 == v / 0x1000 % 512 && off == v % 0x1000
    ensures v % 0x80_0000_0000 == i2 * 0x4000_0000 + i1 * 0x20_0000 + i0 * 0x1000 + off
  {
    SplitDigit(v, 0x4000_0000, 512);
    SplitDigit(v, 0x20_0000, 512);
    SplitDigit(v, 0x1000, 512);
  }

  lemma FieldsCombine(i2: nat, i1: nat, i0: nat, off: nat)
    requires i2 < 512 && i1 < 512 && i0 < 512 && off < 0x1000
    ensures Or(Or(Or(Shl(i2, 30), Shl(i1, 21)), Shl(i0, 12)), off)
            == i2 * 0x4000_0000 + i1 * 0x20_0000 + i0 * 0x1000 + off
  {
    Pow2Table();
    ShlSmall(i2, 30, 0x4000_0000);
    ShlSmall(i1, 21, 0x20_0000);
    ShlSmall(i0, 12, 0x1000);
    var top := i2 * 512 + i1;
    assert Or(i2 * 0x4000_0000, i1 * 0x20_0000) == top * 0x20_0000 by {
      OrAt(i2, 30, 0x4000_0000, i1 * 0x20_0000);
    }
    var upper := top * 0x200 + i0;
    assert Or(top * 0x20_0000, i0 * 0x1000) == upper * 0x1000 by {
      OrAt(top, 21, 0x20_0000, i0 * 0x1000);
    }
    assert Or(upper * 0x1000, off) == upper * 0x1000 + off by {
      OrAt(upper, 12, 0x1000, off);
    }
  }

  /** `x << k` of a value that fits is x * 2^k. */
  lemma ShlSmall(x: u64, k: nat, p: nat)
    requires p == Pow2(k) && x * p < WORD
    ensures Shl(x, k) == x * p
  {
  }

  /** `x << k | low` with low below 2^k is x * 2^k + low. */
  lemma OrAt(x: nat, k: nat, p: nat, low: nat)
    requires p == Pow2(k) && low < p
    ensures Or(x * p, low) == x * p + low
  {
    OrLow(x, k, low);
  }

  /** x mod (p*q) splits into the digit (x/p) mod q and the remainder x mod p. */
  lemma SplitDigit(x: nat, p: nat, q: nat)
    requires p > 0 && q > 0
    ensures x % (p * q) == (x / p % q) * p + x % p
  {
    DivDiv(x, p, q);
    var d := x / (p * q);
    assert x == (p * q) * d + x % (p * q);
    assert x / p == q * d + (x / p) % q;
    assert x == p * (x / p) + x % p;
    assert x == (p * q) * d + ((x / p % q) * p + x % p);
    SplitBound(x / p % q, p, q, x % p);
    DivUnique(x, p * q, d, (x / p % q) * p + x % p);
  }

  lemma SplitBound(digit: nat, p: nat, q: nat, rest: nat)
    requires digit < q && rest < p
    ensures digit * p + rest < p * q
  {
    MulLe(digit, q - 1, p);
  }

  /**
   * `get_ppn`: levels 2 and 0 give PPN[2] (bits 55:30) and PPN[0] (bits
   * 20:12); level 1 masks bits 29:21 but shifts by 20, so it gives twice
   * PPN[1].  Any other level fails the kernel's assertion.
   */
  function GetPpn(paddr: u64, level: int): (r: Option<u64>)
    ensures r.Some? <==> 0 <= level <= 2
    ensures level == 2 ==> r == Some(paddr / 0x4000_0000 % 0x400_0000)
    ensures level == 1 ==> r == Some(paddr / 0x20_0000 % 512 * 2)
    ensures level == 0 ==> r == Some(paddr / 0x1000 % 512)
  {
    if level == 2 then
      Ppn2Form(paddr);
      Some(Shr(And(paddr, PAGE_PPN2_MASK), 30))
    else if level == 1 then
      Ppn1Form(paddr);
      Some(Shr(And(paddr, PAGE_PPN1_MASK), 20))
    else if level == 0 then
      Vpn0Form(paddr);
      Some(Shr(And(paddr, PAGE_PPN0_MASK), 12))
    else
      None
  }

  /** The level-1 page number is twice the level-1 index field of the same address. */
  lemma GetPpnLevelOneDoubles(paddr: u64)
    ensures GetPpn(paddr, 1).value == 2 * GetVpn(paddr, 1).value
  {
  }

  /**
   * The value `set_pgd_entry`, `set_pmd_entry` and `set_pt_entry` store:
   * the physical page number of paddr placed at PAGE_PFN_SHIFT, combined
   * with the property bits.
   */
  function MakeEntry(paddr: u64, prot: u64): u64
  {
    OrWord(Shl(Shr(paddr, PAGE_SHIFT), PAGE_PFN_SHIFT), prot);
    Or(Shl(Shr(paddr, PAGE_SHIFT), PAGE_PFN_SHIFT), prot)
  }

  /**
   * For a physical address below 2^56 and property bits below 2^10 the
   * entry is the page number times 2^10 plus the properties.
   */
  lemma MakeEntryValue(paddr: u64, prot: u64)
    requires paddr < 0x100_0000_0000_0000 && prot < 0x400
    ensures MakeEntry(paddr, prot) == paddr / PAGE_SIZE * 0x400 + prot
  {
    Pow2Table();
    OrLow(paddr / PAGE_SIZE, 10, prot);
  }

  /** The table address `get_pmd_entry` and `get_pt_entry` read out of an entry. */
  function EntryBase(val: u64): (r: u64)
    ensures r % PAGE_SIZE == 0
    ensures r == val / 0x400 * PAGE_SIZE % WORD
    ensures val < 0x40_0000_0000_0000 ==> r == val / 0x400 * PAGE_SIZE
  {
    EntryBaseForm(val);
    EntryBaseFacts(val, Shl(Shr(val, PAGE_PFN_SHIFT), PTE_SHIFT));
    Shl(Shr(val, PAGE_PFN_SHIFT), PTE_SHIFT)
  }

  lemma EntryBaseFacts(val: u64, r: int)
    requires r == val / 0x400 * PAGE_SIZE % WORD
    ensures r % PAGE_SIZE == 0
    ensures val < 0x40_0000_0000_0000 ==> r == val / 0x400 * PAGE_SIZE
  {
    var x := val / 0x400 * PAGE_SIZE;
    var k := x / WORD;
    assert x == WORD * k + r;
    assert WORD == PAGE_SIZE * 0x10_0000_0000_0000;
    DivUnique(r, PAGE_SIZE, val / 0x400 - k * 0x10_0000_0000_0000, 0);
    if val < 0x40_0000_0000_0000 {
      DivUnique(x, WORD, 0, x);
    }
  }

  /**
   * Packing and unpacking agree: for an aligned paddr below 2^56 and
   * property bits below 2^10, the base read back is paddr and the low ten
   * bits are the property.
   */
  lemma EntryRoundTrip(paddr: u64, prot: u64)
    requires paddr % PAGE_SIZE == 0 && paddr < 0x100_0000_0000_0000 && prot < 0x400
    ensures EntryBase(MakeEntry(paddr, prot)) == paddr
    ensures And(MakeEntry(paddr, prot), 0x3FF) == prot
  {
    Pow2Table();
    var e := MakeEntry(paddr, prot);
    MakeEntryValue(paddr, prot);
    DivUnique(e, 0x400, paddr / PAGE_SIZE, prot);
    AndLow(e, 10);
  }

  /** The entry of a leaf or directory is valid iff its property is. */
  lemma EntryAttributes(paddr: u64, prot: u64, n: nat)
    requires paddr < 0x100_0000_0000_0000 && prot < 0x400 && n < 10
    ensures Bit(MakeEntry(paddr, prot), n) == Bit(prot, n)
  {
    var e := MakeEntry(paddr, prot);
    assert e % 0x400 == prot by {
      MakeEntryValue(paddr, prot);
      DivUnique(e, 0x400, paddr / PAGE_SIZE, prot);
    }
    assert Pow2(10) == 0x400 by {
      Pow2Table();
    }
    BitMod(e, 10, n);
  }

  /** A pointer to entry `index` of the table page at `table`. */
  datatype EntryPtr = EntryPtr(table: u64, index: nat)

  /** Physical memory: the words of each page in use, keyed by page address. */
  class Memory {
    var frames: map<u64, seq<u64>>

    ghost predicate Valid()
      reads this
    {
      forall f :: f in frames ==> |frames[f]| == 512
    }

    constructor ()
      ensures frames == map[] && Valid()
    {
      frames := map[];
    }

    /** The entry a pointer designates. */
    function Load(p: EntryPtr): (r: u64)
      reads this
      requires p.table in frames && p.index < |frames[p.table]|
      ensures r in frames[p.table]
    {
      frames[p.table][p.index]
    }

    /** `memset(page, 0, PAGE_SIZE)`: the page holds 512 zero words afterwards. */
    method ZeroPage(page: u64)
      modifies this
      requires Valid()
      ensures Valid()
      ensures frames == old(frames)[page := seq(512, _ => 0)]
    {
      frames := frames[page := seq(512, _ => 0)];
    }

    /**
     * `set_pgd_entry`, `set_pmd_entry`, `set_pt_entry`: the designated
     * entry becomes MakeEntry(paddr, prot); every other word is unchanged.
     */
    method SetEntry(p: EntryPtr, paddr: u64, prot: u64)
      modifies this
      requires Valid() && p.table in frames && p.index < 512
      ensures Valid()
      ensures var row: seq<u64> := old(frames)[p.table][p.index := MakeEntry(paddr, prot)];
              frames == old(frames)[p.table := row]
    {
      var row: seq<u64> := frames[p.table][p.index := MakeEntry(paddr, prot)];
      frames := frames[p.table := row];
    }

    /**
     * `get_pmd_entry`, `get_pt_entry`: entry `index` of the table the entry
     * at p points to; that table's address is the entry's page number
     * times the page size.
     */
    function EntryBelow(p: EntryPtr, index: nat): (r: EntryPtr)
      reads this
      requires p.table in frames && p.index < |frames[p.table]|
      ensures r.index == index && r.table % PAGE_SIZE == 0
      ensures r.table == Load(p) / 0x400 * PAGE_SIZE % WORD
      ensures Load(p) < 0x40_0000_0000_0000 ==> r.table == Load(p) / 0x400 * PAGE_SIZE
    {
      EntryPtr(EntryBase(Load(p)), index)
    }
  }

  /** The size of the region one PGD entry (1 GiB) or one PMD entry (2 MiB) maps. */
  function RegionSize(pgdEntry: bool): (r: nat)
    ensures r == Pow2(if pgdEntry then PGD_SHIFT else PMD_SHIFT)
  {
    Pow2Table();
    if pgdEntry then PGD_SIZE else PMD_SIZE
  }

  /** The first multiple of size strictly above s; it may be 2^64. */
  function NextBoundary(s: u64, size: nat): (b: nat)
    requires size > 0 && WORD % size == 0
    ensures s < b <= s + size && b % size == 0 && b <= WORD
    ensures (b - 1) / size == s / size
  {
    var q := s / size;
    BoundaryBelowWord(s, size, q);
    BoundaryFacts(s, size, q, (q + 1) * size);
    (q + 1) * size
  }

  lemma BoundaryFacts(s: u64, size: nat, q: nat, b: int)
    requires size > 0 && q == s / size && b == (q + 1) * size
    ensures s < b <= s + size && b % size == 0
    ensures (b - 1) / size == s / size
  {
    assert b == size * q + size;
    assert s == size * q + s % size;
    DivUnique(b, size, q + 1, 0);
    DivUnique(b - 1, size, q, size - 1);
  }

  lemma BoundaryBelowWord(s: u64, size: nat, q: nat)
    requires size > 0 && WORD % size == 0 && q == s / size
    ensures (q + 1) * size <= WORD
  {
    var w := WORD / size;
    assert WORD == w * size;
    if q + 1 > w {
      MulLe(w + 1, q, size);
      assert false;
    }
    MulLe(q + 1, w, size);
  }

  /**
   * `get_mapping_end`: the end of the chunk of [s, e) that one PGD entry
   * or one PMD entry maps, i.e. the smaller of e and the first region
   * boundary strictly above s.  An end of 0 stands for 2^64, and a
   * boundary that wraps to 0 yields e.
   */
  function GetMappingEnd(s: u64, e: u64, pgdEntry: bool): (r: u64)
    ensures RegionSize(pgdEntry) > 0 && WORD % RegionSize(pgdEntry) == 0
    ensures var boundary := NextBoundary(s, RegionSize(pgdEntry));
            var end := if e == 0 then WORD else e;
            r == (if boundary < end then boundary else end) % WORD
  {
    var size := if pgdEntry then PGD_SIZE else PMD_SIZE;
    BoundaryForm(s, pgdEntry);
    var boundary := And(Add(s, size), if pgdEntry then PGD_MASK else PMD_MASK);
    var r := if Sub(boundary, 1) < Sub(e, 1) then boundary else e;
    MappingEndChoice(NextBoundary(s, RegionSize(pgdEntry)), boundary, e, r);
    r
  }

  /** The wrapping "- 1" comparison picks the smaller of the boundary and the end. */
  lemma MappingEndChoice(b: nat, boundary: u64, e: u64, r: u64)
    requires 0 < b <= WORD && boundary == b % WORD
    requires r == if Sub(boundary, 1) < Sub(e, 1) then boundary else e
    ensures r == (if b < (if e == 0 then WORD else e) then b else (if e == 0 then WORD else e)) % WORD
  {
    if b == WORD {
      assert boundary == 0;
    }
  }

  /**
   * A chunk of a non-empty range is non-empty, ends within the range, and
   * lies in a single region; it stops short of e only at a region boundary.
   */
  lemma MappingEndBounds(s: u64, e: u64, pgdEntry: bool)
    requires s < e
    ensures var r := GetMappingEnd(s, e, pgdEntry);
            var size := RegionSize(pgdEntry);
            s < r <= e && r - s <= size && (r < e ==> r % size == 0) && (r - 1) / size == s / size
  {
    var size := RegionSize(pgdEntry);
    var r := GetMappingEnd(s, e, pgdEntry);
    var b := NextBoundary(s, size);
    var q := s / size;
    if b < e {
      assert r == b;
    } else {
      assert r == e;
      assert (e - 1) / size == q by {
        assert b == (q + 1) * size;
        MulAddOne(q, size);
        assert s == size * q + s % size;
        DivUnique(e - 1, size, q, e - 1 - q * size);
      }
    }
  }

  lemma MulAddOne(q: int, size: int)
    ensures (q + 1) * size == q * size + size
  {
  }

  /* The masks and shifts of this file in terms of division and remainder. */

  lemma AlignDownForm(a: u64)
    ensures And(a, Not(PAGE_OFFSET_MASK)) == a / 0x1000 * 0x1000
  {
    Pow2Table();
    AndNotLow(a, 12);
  }

  lemma LowForm(a: u64)
    ensures And(a, PAGE_OFFSET_MASK) == a % 0x1000
  {
    Pow2Table();
    AndLow(a, 12);
  }

  lemma Vpn2Form(a: u64)
    ensures And(Shr(a, 30), 511) == a / 0x4000_0000 % 512
  {
    Pow2Table();
    AndLow(Shr(a, 30), 9);
  }

  lemma Vpn1Form(a: u64)
    ensures Shr(And(a, PAGE_VPN1_MASK), 21) == a / 0x20_0000 % 512
  {
    Pow2Table();
    AndMask(a, 21, 30);
  }

  lemma Vpn0Form(a: u64)
    ensures Shr(And(a, PAGE_VPN0_MASK), 12) == a / 0x1000 % 512
  {
    Pow2Table();
    AndMask(a, 12, 21);
  }

  lemma Ppn2Form(a: u64)
    ensures Shr(And(a, PAGE_PPN2_MASK), 30) == a / 0x4000_0000 % 0x400_0000
  {
    Pow2Table();
    Pow2Add(30, 26);
    AndMask(a, 30, 56);
  }

  lemma Ppn1Form(a: u64)
    ensures Shr(And(a, PAGE_PPN1_MASK), 20) == a / 0x20_0000 % 512 * 2
  {
    Pow2Table();
    Pow2Add(1, 20);
    AndMask(a, 21, 30);
    var f := a / 0x20_0000 % 512;
    assert And(a, PAGE_PPN1_MASK) == f * 0x20_0000;
    DivUnique(f * 0x20_0000, 0x10_0000, f * 2, 0);
  }

  lemma EntryBaseForm(val: u64)
    ensures Shl(Shr(val, PAGE_PFN_SHIFT), PTE_SHIFT) == val / 0x400 * 0x1000 % WORD
  {
    Pow2Table();
  }

  lemma BoundaryForm(s: u64, pgdEntry: bool)
    ensures RegionSize(pgdEntry) > 0 && WORD % RegionSize(pgdEntry) == 0
    ensures var size := if pgdEntry then PGD_SIZE else PMD_SIZE;
            And(Add(s, size), if pgdEntry then PGD_MASK else PMD_MASK) == NextBoundary(s, RegionSize(pgdEntry)) % WORD
  {
    var size := if pgdEntry then PGD_SIZE else PMD_SIZE;
    var a := Add(s, size);
    if pgdEntry {
      PgdAlignForm(a);
    } else {
      PmdAlignForm(a);
    }
    AddBoundary(s, size, a);
    assert NextBoundary(s, RegionSize(pgdEntry)) == (s / size + 1) * size;
  }

  lemma PgdAlignForm(a: u64)
    ensures RegionSize(true) == PGD_SIZE == 0x4000_0000
    ensures And(a, PGD_MASK) == a / PGD_SIZE * PGD_SIZE
  {
    Geometry(a);
  }

  lemma PmdAlignForm(a: u64)
    ensures RegionSize(false) == PMD_SIZE == 0x20_0000
    ensures And(a, PMD_MASK) == a / PMD_SIZE * PMD_SIZE
  {
    Geometry(a);
  }

  /** Rounding the wrapped sum s + size down to a multiple of size gives the next boundary. */
  lemma AddBoundary(s: u64, size: nat, a: nat)
    requires 0 < size < WORD && WORD % size == 0 && a == (s + size) % WORD
    ensures a / size * size == (s / size + 1) * size % WORD
  {
    if s + size < WORD {
      NoWrapBoundary(s, size, s / size);
    } else {
      assert a / size == 0 by {
        DivUnique(a, size, 0, a);
      }
      WrapBoundary(s, size, s / size);
    }
  }

  /** When s + size stays below 2^64, it lies in the block after the one holding s. */
  lemma NoWrapBoundary(s: u64, size: nat, q: nat)
    requires 0 < size && s + size < WORD && q == s / size
    ensures (s + size) / size == q + 1 && (q + 1) * size < WORD
  {
    assert s == size * q + s % size;
    MulAddOne(q, size);
    DivUnique(s + size, size, q + 1, s % size);
  }

  /** When s + size reaches 2^64, the next boundary above s is 2^64 itself. */
  lemma WrapBoundary(s: u64, size: nat, q: nat)
    requires 0 < size && WORD % size == 0 && s + size >= WORD && q == s / size
    ensures (q + 1) * size == WORD
  {
    var w := WORD / size;
    assert WORD == w * size;
    BoundaryBelowWord(s, size, q);
    if q + 1 < w {
      MulLe(q + 1, w - 1, size);
      MulSubOne(w, size);
      assert false;
    }
    if q + 1 > w {
      MulLe(w + 1, q + 1, size);
      assert false;
    }
  }
}
