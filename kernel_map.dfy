/**
 * The kernel's own address space, as `paging_init` builds it: the kernel
 * text and data and the MMIO windows of the PLIC, the CLINT and the UART
 * are identity-mapped into the root table with `create_mapping`.
 *
 * What a sequence of such mappings leaves behind is described by layers:
 * a layer is a page range mapped to itself with one set of properties, and
 * a later layer wins over an earlier one on the pages they share.
 */
module KernelMap {
  import opened Words
  import opened Sv39
  import opened PageTable
  import opened Mm
  import opened Paging
  import Plic

  const CLINT_MMIO_SIZE: u64 := 0x1_0000
  const CLINT_BASE_ADDR: u64 := 0x200_0000
  const CLINT_END_ADDR: u64 := CLINT_BASE_ADDR + CLINT_MMIO_SIZE
  const UART_MMIO_SIZE: u64 := 4096
  const UART_BASE_ADDR: u64 := 0x1000_0000
  const UART_END_ADDR: u64 := UART_BASE_ADDR + UART_MMIO_SIZE

  /** The leaf that maps virtual page vpn to the frame at the same address. */
  function IdentityLeaf(vpn: nat, prop: u64): u64
    requires vpn < VPAGES
  {
    MakeEntry(vpn * PAGE_SIZE, prop)
  }

  /** The pages [first, end), each mapped to itself with properties prop. */
  datatype Layer = Layer(first: nat, end: nat, prop: u64)

  /** The layer `create_mapping(pgd, s, s, e - s, prop)` writes: every page touching [s, e). */
  function RangeLayer(s: u64, e: u64, prop: u64): (l: Layer)
  {
    Layer(PageAlign(s, false) / PAGE_SIZE, PageAlign(e, true) / PAGE_SIZE, prop)
  }

  /** The leaf of vpn after the layers, over the leaf base it had before them. */
  function Overlay(base: u64, vpn: nat, layers: seq<Layer>): u64
    requires vpn < VPAGES
    decreases |layers|
  {
    if |layers| == 0 then base
    else
      var l := layers[|layers| - 1];
      if l.first <= vpn < l.end then IdentityLeaf(vpn, l.prop) else Overlay(base, vpn, layers[..|layers| - 1])
  }

  /** The translation of m1 is that of m0 with the layers laid over it. */
  ghost predicate Overlaid(m0: Frames, m1: Frames, root: u64, layers: seq<Layer>)
  {
    forall vpn: nat :: vpn < VPAGES ==> Walk(m1, root, vpn) == Overlay(Walk(m0, root, vpn), vpn, layers)
  }

  /** Leaf j of the run from frame s is the identity leaf of page s / PAGE_SIZE + j. */
  lemma LeafIsIdentity(s: u64, n: nat, prop: u64, first: nat, vpn: nat)
    requires s % PAGE_SIZE == 0 && first == s / PAGE_SIZE && first <= vpn < first + n && vpn < VPAGES
    ensures Leaves(s, n, prop)[vpn - first] == IdentityLeaf(vpn, prop)
  {
    LeavesAt(s, n, prop, vpn - first);
    DivUnique(s, PAGE_SIZE, first, 0);
    PageAddrFacts(s, vpn - first);
  }

  /**
   * A mapping of [vaddr, vaddr + size) to itself, as `create_mapping` promises it,
   * is the single layer of that range.
   */
  lemma IdentityMapping(m0: Frames, m1: Frames, root: u64, vaddr: u64, size: u64, prop: u64,
                        first: nat, run: seq<u64>)
    requires 0 < size && vaddr + size <= 0x80_0000_0000
    requires first == PageAlign(vaddr, false) / PAGE_SIZE
    requires run == Leaves(PageAlign(vaddr, false), (PageAlign(vaddr + size, true) - PageAlign(vaddr, false)) / PAGE_SIZE, prop)
    requires WritesRun(m0, m1, root, first, run)
    ensures Overlaid(m0, m1, root, [RangeLayer(vaddr, vaddr + size, prop)])
  {
    var s := PageAlign(vaddr, false);
    var e := PageAlign(vaddr + size, true);
    var l := RangeLayer(vaddr, vaddr + size, prop);
    AlignedRange(vaddr, size, s, e);
    DivUnique(s, PAGE_SIZE, first, 0);
    DivUnique(e, PAGE_SIZE, e / PAGE_SIZE, 0);
    DivUnique(e - s, PAGE_SIZE, e / PAGE_SIZE - first, 0);
    assert l.first == first && l.end == first + |run|;
    forall vpn: nat | vpn < VPAGES
      ensures Walk(m1, root, vpn) == Overlay(Walk(m0, root, vpn), vpn, [l])
    {
      assert [l][..0] == [];
      if first <= vpn < first + |run| {
        LeafIsIdentity(s, |run|, prop, first, vpn);
      }
    }
  }

  /** Laying A and then B is laying B over the result of A. */
  lemma {:induction false} OverlayAppend(base: u64, vpn: nat, a: seq<Layer>, b: seq<Layer>)
    requires vpn < VPAGES
    ensures Overlay(base, vpn, a + b) == Overlay(Overlay(base, vpn, a), vpn, b)
    decreases |b|
  {
    if |b| == 0 {
      assert a + b == a;
    } else {
      var all := a + b;
      assert all[..|all| - 1] == a + b[..|b| - 1];
      assert all[|all| - 1] == b[|b| - 1];
      OverlayAppend(base, vpn, a, b[..|b| - 1]);
    }
  }

  /** A page no layer covers keeps its leaf. */
  lemma {:induction false} OverlayOutside(base: u64, vpn: nat, layers: seq<Layer>)
    requires vpn < VPAGES
    requires forall i :: 0 <= i < |layers| ==> !(layers[i].first <= vpn < layers[i].end)
    ensures Overlay(base, vpn, layers) == base
    decreases |layers|
  {
    if |layers| > 0 {
      OverlayOutside(base, vpn, layers[..|layers| - 1]);
    }
  }

  /** A page takes the identity leaf of the last layer that covers it. */
  lemma {:induction false} OverlayLast(base: u64, vpn: nat, layers: seq<Layer>, i: nat)
    requires vpn < VPAGES && i < |layers| && layers[i].first <= vpn < layers[i].end
    requires forall j :: i < j < |layers| ==> !(layers[j].first <= vpn < layers[j].end)
    ensures Overlay(base, vpn, layers) == IdentityLeaf(vpn, layers[i].prop)
    decreases |layers|
  {
    if i < |layers| - 1 {
      OverlayLast(base, vpn, layers[..|layers| - 1], i);
    }
  }

  /** A page some layer covers takes the identity leaf of that layer or of a later one. */
  lemma {:induction false} LastCovering(base: u64, vpn: nat, layers: seq<Layer>, i: nat)
    requires vpn < VPAGES && i < |layers| && layers[i].first <= vpn < layers[i].end
    ensures exists j :: i <= j < |layers| && Overlay(base, vpn, layers) == IdentityLeaf(vpn, layers[j].prop)
    decreases |layers|
  {
    var last := |layers| - 1;
    if layers[last].first <= vpn < layers[last].end {
      assert Overlay(base, vpn, layers) == IdentityLeaf(vpn, layers[last].prop);
    } else {
      LastCovering(base, vpn, layers[..last], i);
      var j :| i <= j < last && Overlay(base, vpn, layers[..last]) == IdentityLeaf(vpn, layers[..last][j].prop);
      assert layers[..last][j] == layers[j];
    }
  }

  /** Overlays compose: A over m0 gives m1, B over m1 gives m2, so A + B over m0 gives m2. */
  lemma OverlaidConcat(m0: Frames, m1: Frames, m2: Frames, root: u64, a: seq<Layer>, b: seq<Layer>)
    requires Overlaid(m0, m1, root, a) && Overlaid(m1, m2, root, b)
    ensures Overlaid(m0, m2, root, a + b)
  {
    forall vpn: nat | vpn < VPAGES
      ensures Walk(m2, root, vpn) == Overlay(Walk(m0, root, vpn), vpn, a + b)
    {
      OverlayAppend(Walk(m0, root, vpn), vpn, a, b);
    }
  }

  /** Three single layers laid one after another are the three-layer overlay. */
  lemma OverlaidThree(m0: Frames, m1: Frames, m2: Frames, m3: Frames, root: u64, a: Layer, b: Layer, c: Layer)
    requires Overlaid(m0, m1, root, [a]) && Overlaid(m1, m2, root, [b]) && Overlaid(m2, m3, root, [c])
    ensures Overlaid(m0, m3, root, [a, b, c])
  {
    OverlaidConcat(m0, m1, m2, root, [a], [b]);
    assert [a] + [b] == [a, b];
    OverlaidConcat(m0, m2, m3, root, [a, b], [c]);
    assert [a, b] + [c] == [a, b, c];
  }

  /** The layers `create_identical_mapping` lays: the text, then the data. */
  function IdenticalLayers(sText: u64, eText: u64, sRodata: u64, eBss: u64): (ls: seq<Layer>)
  {
    [RangeLayer(sText, eText, KERNEL_PAGE_READ_EXEC), RangeLayer(sRodata, eBss, KERNEL_PAGE)]
  }

  /** The layers `create_mmio_mapping` lays: PLIC, CLINT and UART registers. */
  function MmioLayers(): (ls: seq<Layer>)
  {
    [RangeLayer(Plic.PLIC_BASE_ADDR, Plic.PLIC_END_ADDR, KERNEL_PAGE),
     RangeLayer(CLINT_BASE_ADDR, CLINT_END_ADDR, KERNEL_PAGE),
     RangeLayer(UART_BASE_ADDR, UART_END_ADDR, KERNEL_PAGE)]
  }

  /**
   * `create_mapping(pgd, vaddr, vaddr, size, prop, 0)`: [vaddr, vaddr + size) mapped to
   * itself, seen as the one layer it lays.
   */
  method MapIdentity(mm: MemoryManager, pgd: u64, vaddr: u64, size: u64, prop: u64, ghost roles: map<u64, Role>)
      returns (ok: bool, ghost roles': map<u64, Role>)
    modifies mm.kernelPpool.btmp.bits, mm.mem
    requires Ready(mm, pgd, roles)
    requires vaddr + size <= 0x80_0000_0000
    ensures mm.Valid()
    ensures size == 0 ==> !ok
    ensures ok ==> Ready(mm, pgd, roles') && Extends(roles, roles')
    ensures ok ==> Overlaid(old(mm.mem.frames), mm.mem.frames, pgd, [RangeLayer(vaddr, vaddr + size, prop)])
  {
    ok, roles' := CreateMapping(mm, pgd, vaddr, vaddr, size, prop, roles);
    if ok {
      IdentityMapping(old(mm.mem.frames), mm.mem.frames, pgd, vaddr, size, prop,
                      PageAlign(vaddr, false) / PAGE_SIZE,
                      Leaves(PageAlign(vaddr, false), (PageAlign(vaddr + size, true) - PageAlign(vaddr, false)) / PAGE_SIZE, prop));
    }
  }

  /**
   * `create_identical_mapping`: the kernel text [sText, eText) is mapped to itself
   * read-execute (`KERNEL_PAGE_READ_EXEC`), then the data [sRodata, eBss) read-write
   * (`KERNEL_PAGE`), so the data wins on a page the two share. The four addresses are
   * the linker symbols `_s_text_boot`, `_e_text`, `_s_rodata` and `_e_bss`. ok is
   * false when a mapping fails its assertion (an empty section) or runs out of pages.
   */
  method CreateIdenticalMapping(mm: MemoryManager, pgd: u64, sText: u64, eText: u64, sRodata: u64, eBss: u64,
                                ghost roles: map<u64, Role>)
      returns (ok: bool, ghost roles': map<u64, Role>)
    modifies mm.kernelPpool.btmp.bits, mm.mem
    requires Ready(mm, pgd, roles)
    requires sText <= eText <= 0x80_0000_0000 && sRodata <= eBss <= 0x80_0000_0000
    ensures mm.Valid()
    ensures sText == eText || sRodata == eBss ==> !ok
    ensures ok ==> Ready(mm, pgd, roles') && Extends(roles, roles')
    ensures ok ==> Overlaid(old(mm.mem.frames), mm.mem.frames, pgd, IdenticalLayers(sText, eText, sRodata, eBss))
  {
    ok, roles' := MapIdentity(mm, pgd, sText, Sub(eText, sText), KERNEL_PAGE_READ_EXEC, roles);
    if !ok {
      return;
    }
    ghost var m1 := mm.mem.frames;
    ok, roles' := MapIdentity(mm, pgd, sRodata, Sub(eBss, sRodata), KERNEL_PAGE, roles');
    if ok {
      OverlaidConcat(old(mm.mem.frames), m1, mm.mem.frames, pgd, IdenticalLayers(sText, eText, sRodata, eBss)[..1],
                     IdenticalLayers(sText, eText, sRodata, eBss)[1..]);
    }
  }

  /**
   * `create_mmio_mapping`: the PLIC window [PLIC_BASE_ADDR, PLIC_END_ADDR), the CLINT
   * registers and the UART registers, each mapped to itself with `KERNEL_PAGE`.
   */
  method CreateMmioMapping(mm: MemoryManager, pgd: u64, ghost roles: map<u64, Role>)
      returns (ok: bool, ghost roles': map<u64, Role>)
    modifies mm.kernelPpool.btmp.bits, mm.mem
    requires Ready(mm, pgd, roles)
    ensures mm.Valid()
    ensures ok ==> Ready(mm, pgd, roles') && Extends(roles, roles')
    ensures ok ==> Overlaid(old(mm.mem.frames), mm.mem.frames, pgd, MmioLayers())
  {
    ghost var m0 := mm.mem.frames;
    ok, roles' := MapIdentity(mm, pgd, Plic.PLIC_BASE_ADDR, Plic.PLIC_END_ADDR - Plic.PLIC_BASE_ADDR, KERNEL_PAGE, roles);
    if !ok {
      return;
    }
    ghost var m1 := mm.mem.frames;
    ok, roles' := MapIdentity(mm, pgd, CLINT_BASE_ADDR, CLINT_MMIO_SIZE, KERNEL_PAGE, roles');
    if !ok {
      return;
    }
    ghost var m2 := mm.mem.frames;
    ok, roles' := MapIdentity(mm, pgd, UART_BASE_ADDR, UART_MMIO_SIZE, KERNEL_PAGE, roles');
    if ok {
      OverlaidThree(m0, m1, m2, mm.mem.frames, pgd, MmioLayers()[0], MmioLayers()[1], MmioLayers()[2]);
    }
  }

  /** All the layers the kernel address space is built from, in the order they are laid. */
  function KernelLayers(sText: u64, eText: u64, sRodata: u64, eBss: u64): (ls: seq<Layer>)
    ensures |ls| == 5 && ls[0].prop == KERNEL_PAGE_READ_EXEC
    ensures forall j :: 1 <= j < |ls| ==> ls[j].prop == KERNEL_PAGE
  {
    IdenticalLayers(sText, eText, sRodata, eBss) + MmioLayers()
  }

  /** A cleared root table is a tree of its own. */
  lemma EmptyTree(m: Frames, root: u64)
    requires root in m && m[root] == seq(512, _ => 0)
    ensures Tree(m, root, map[root := Root])
  {
  }

  /** Layers laid over a cleared root table: every page is the layers over an unmapped leaf. */
  lemma EmptyRootOverlaid(m0: Frames, m1: Frames, root: u64, layers: seq<Layer>)
    requires root in m0 && m0[root] == seq(512, _ => 0)
    requires Overlaid(m0, m1, root, layers)
    ensures forall vpn: nat :: vpn < VPAGES ==> Walk(m1, root, vpn) == Overlay(0, vpn, layers)
  {
    forall vpn: nat | vpn < VPAGES
      ensures Walk(m1, root, vpn) == Overlay(0, vpn, layers)
    {
      assert m0[root][vpn / 0x4_0000] == 0;
    }
  }

  /**
   * `paging_init`: the root table `kernel_pgd` is cleared, then the kernel sections and
   * the MMIO windows are identity-mapped. Translation of every page is then the kernel
   * layers laid over an empty table. pgd is the root table frame; it lies outside the
   * free part of the kernel pool (`kernel_pgd` is a static array of the kernel image).
   */
  method PagingInit(mm: MemoryManager, pgd: u64, sText: u64, eText: u64, sRodata: u64, eBss: u64)
      returns (ok: bool, ghost roles: map<u64, Role>)
    modifies mm.kernelPpool.btmp.bits, mm.mem
    requires mm.Valid() && Placed(mm) && Owned(mm, {pgd})
    requires sText <= eText <= 0x80_0000_0000 && sRodata <= eBss <= 0x80_0000_0000
    ensures mm.Valid()
    ensures sText == eText || sRodata == eBss ==> !ok
    ensures ok ==> Ready(mm, pgd, roles)
    ensures ok ==> forall vpn: nat :: vpn < VPAGES ==>
                     Walk(mm.mem.frames, pgd, vpn) == Overlay(0, vpn, KernelLayers(sText, eText, sRodata, eBss))
  {
    mm.mem.ZeroPage(pgd);
    roles := map[pgd := Root];
    EmptyTree(mm.mem.frames, pgd);
    assert roles.Keys == {pgd};
    ghost var m0 := mm.mem.frames;
    ok, roles := CreateIdenticalMapping(mm, pgd, sText, eText, sRodata, eBss, roles);
    if !ok {
      return;
    }
    ghost var m1 := mm.mem.frames;
    ok, roles := CreateMmioMapping(mm, pgd, roles);
    if ok {
      OverlaidConcat(m0, m1, mm.mem.frames, pgd, IdenticalLayers(sText, eText, sRodata, eBss), MmioLayers());
      EmptyRootOverlaid(m0, mm.mem.frames, pgd, KernelLayers(sText, eText, sRodata, eBss));
    }
  }

  /** Page vpn of an address in [s, e) lies in the range layer of [s, e). */
  lemma InRangeLayer(s: u64, e: u64, prop: u64, a: nat)
    requires s <= a < e <= 0x80_0000_0000
    ensures a / PAGE_SIZE < VPAGES
    ensures RangeLayer(s, e, prop).first <= a / PAGE_SIZE < RangeLayer(s, e, prop).end
  {
    var ps := PageAlign(s, false);
    var pe := PageAlign(e, true);
    AlignedRangeCovers(s, e - s, a);
    AlignedRange(s, e - s, ps, pe);
    DivUnique(ps, PAGE_SIZE, ps / PAGE_SIZE, 0);
    DivUnique(pe, PAGE_SIZE, pe / PAGE_SIZE, 0);
    DivUnique(pe - ps, PAGE_SIZE, pe / PAGE_SIZE - ps / PAGE_SIZE, 0);
    DivLt(a, PAGE_SIZE, VPAGES);
  }

  /** A page covered by layer i, where layer i and every later one share prop, takes prop. */
  lemma CoveredWithProp(base: u64, vpn: nat, layers: seq<Layer>, i: nat, prop: u64)
    requires vpn < VPAGES && i < |layers| && layers[i].first <= vpn < layers[i].end
    requires forall j :: i <= j < |layers| ==> layers[j].prop == prop
    ensures Overlay(base, vpn, layers) == IdentityLeaf(vpn, prop)
  {
    LastCovering(base, vpn, layers, i);
  }

  /** A page covered by the first layer, where every layer has one of two properties, takes one of them. */
  lemma CoveredWithTwoProps(base: u64, vpn: nat, layers: seq<Layer>, p: u64, q: u64)
    requires vpn < VPAGES && 0 < |layers| && layers[0].first <= vpn < layers[0].end
    requires forall j :: 0 <= j < |layers| ==> layers[j].prop == p || layers[j].prop == q
    ensures Overlay(base, vpn, layers) in {IdentityLeaf(vpn, p), IdentityLeaf(vpn, q)}
  {
    LastCovering(base, vpn, layers, 0);
  }

  /** The pages of the MMIO windows are mapped to themselves read-write. */
  lemma KernelMmioPages(sText: u64, eText: u64, sRodata: u64, eBss: u64, a: nat)
    requires sText <= eText <= 0x80_0000_0000 && sRodata <= eBss <= 0x80_0000_0000
    requires Plic.PLIC_BASE_ADDR <= a < Plic.PLIC_END_ADDR || CLINT_BASE_ADDR <= a < CLINT_END_ADDR
             || UART_BASE_ADDR <= a < UART_END_ADDR
    ensures a / PAGE_SIZE < VPAGES
    ensures Overlay(0, a / PAGE_SIZE, KernelLayers(sText, eText, sRodata, eBss)) == IdentityLeaf(a / PAGE_SIZE, KERNEL_PAGE)
  {
    var ls := KernelLayers(sText, eText, sRodata, eBss);
    if UART_BASE_ADDR <= a < UART_END_ADDR {
      InRangeLayer(UART_BASE_ADDR, UART_END_ADDR, KERNEL_PAGE, a);
      CoveredWithProp(0, a / PAGE_SIZE, ls, 4, KERNEL_PAGE);
    } else if CLINT_BASE_ADDR <= a < CLINT_END_ADDR {
      InRangeLayer(CLINT_BASE_ADDR, CLINT_END_ADDR, KERNEL_PAGE, a);
      CoveredWithProp(0, a / PAGE_SIZE, ls, 3, KERNEL_PAGE);
    } else {
      InRangeLayer(Plic.PLIC_BASE_ADDR, Plic.PLIC_END_ADDR, KERNEL_PAGE, a);
      CoveredWithProp(0, a / PAGE_SIZE, ls, 2, KERNEL_PAGE);
    }
  }

  /** The pages of the data sections are mapped to themselves read-write, whatever the text shares with them. */
  lemma KernelDataPages(sText: u64, eText: u64, sRodata: u64, eBss: u64, a: nat)
    requires sText <= eText <= 0x80_0000_0000 && sRodata <= a < eBss <= 0x80_0000_0000
    ensures a / PAGE_SIZE < VPAGES
    ensures Overlay(0, a / PAGE_SIZE, KernelLayers(sText, eText, sRodata, eBss)) == IdentityLeaf(a / PAGE_SIZE, KERNEL_PAGE)
  {
    InRangeLayer(sRodata, eBss, KERNEL_PAGE, a);
    CoveredWithProp(0, a / PAGE_SIZE, KernelLayers(sText, eText, sRodata, eBss), 1, KERNEL_PAGE);
  }

  /** The pages of the text are mapped to themselves, read-execute unless a later layer shares the page. */
  lemma KernelTextPages(sText: u64, eText: u64, sRodata: u64, eBss: u64, a: nat)
    requires sText <= a < eText <= 0x80_0000_0000 && sRodata <= eBss <= 0x80_0000_0000
    ensures a / PAGE_SIZE < VPAGES
    ensures Overlay(0, a / PAGE_SIZE, KernelLayers(sText, eText, sRodata, eBss))
              in {IdentityLeaf(a / PAGE_SIZE, KERNEL_PAGE_READ_EXEC), IdentityLeaf(a / PAGE_SIZE, KERNEL_PAGE)}
  {
    var ls := KernelLayers(sText, eText, sRodata, eBss);
    InRangeLayer(sText, eText, KERNEL_PAGE_READ_EXEC, a);
    CoveredWithTwoProps(0, a / PAGE_SIZE, ls, KERNEL_PAGE_READ_EXEC, KERNEL_PAGE);
  }
}
