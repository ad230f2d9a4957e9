/**
 * `malloc_page`: cnt consecutive kernel virtual pages, each mapped in the
 * kernel root table to a physical page of its own from the kernel pool,
 * with `KERNEL_PAGE_RESERVED`.
 */
module PageMalloc {
  import opened Words
  import opened Options
  import opened Sv39
  import opened PageTable
  import opened Mm
  import opened Paging

  /** The leaves of the pages `malloc_page` maps: page i goes to frames[i], reserved. */
  function ReservedLeaves(frames: seq<u64>): (run: seq<u64>)
    ensures |run| == |frames|
    decreases |frames|
  {
    if |frames| == 0 then []
    else ReservedLeaves(frames[..|frames| - 1]) + [MakeEntry(frames[|frames| - 1], KERNEL_PAGE_RESERVED)]
  }

  lemma {:induction false} ReservedLeavesAt(frames: seq<u64>, i: nat)
    requires i < |frames|
    ensures ReservedLeaves(frames)[i] == MakeEntry(frames[i], KERNEL_PAGE_RESERVED)
    decreases |frames|
  {
    if i < |frames| - 1 {
      ReservedLeavesAt(frames[..|frames| - 1], i);
    }
  }

  /**
   * A reserved leaf carries only the two RSW bits: it is not valid, so a
   * page `malloc_page` maps is not accessible until its entry is rewritten.
   */
  lemma ReservedLeafInvalid(frame: u64)
    requires frame % PAGE_SIZE == 0 && frame < 0x100_0000_0000_0000
    ensures !IsValidPage(MakeEntry(frame, KERNEL_PAGE_RESERVED))
    ensures EntryBase(MakeEntry(frame, KERNEL_PAGE_RESERVED)) == frame
  {
    KernelPropertyValues();
    MakeEntryValue(frame, KERNEL_PAGE_RESERVED);
    EntryRoundTrip(frame, KERNEL_PAGE_RESERVED);
  }

  /** The run `create_mapping` writes for one aligned page v to the aligned frame p. */
  lemma OnePageRun(v: u64, p: u64, prop: u64)
    requires v % PAGE_SIZE == 0 && p % PAGE_SIZE == 0 && v + PAGE_SIZE <= 0x80_0000_0000
    ensures PageAlign(v, false) / PAGE_SIZE == v / PAGE_SIZE
    ensures Leaves(PageAlign(p, false), (PageAlign(v + PAGE_SIZE, true) - PageAlign(v, false)) / PAGE_SIZE, prop)
              == [MakeEntry(p, prop)]
  {
    PageAlignAligned(v);
    PageAlignAligned(p);
    DivUnique(v + PAGE_SIZE, PAGE_SIZE, v / PAGE_SIZE + 1, 0);
    PageAlignAligned(v + PAGE_SIZE);
    var run := Leaves(p, 1, prop);
    LeavesAt(p, 1, prop, 0);
    assert PageAddr(p, 0) == p by {
      DivUnique(p, WORD, 0, p);
    }
    assert run == [MakeEntry(p, prop)];
  }

  /** `create_mapping(pgd, v, p, PAGE_SIZE, prop, 0)` for aligned v and p writes the one leaf of page v. */
  lemma OnePage(m0: Frames, m1: Frames, root: u64, v: u64, p: u64, prop: u64, first: nat, run: seq<u64>)
    requires v % PAGE_SIZE == 0 && p % PAGE_SIZE == 0 && v + PAGE_SIZE <= 0x80_0000_0000
    requires first == PageAlign(v, false) / PAGE_SIZE
    requires run == Leaves(PageAlign(p, false), (PageAlign(v + PAGE_SIZE, true) - PageAlign(v, false)) / PAGE_SIZE, prop)
    requires WritesRun(m0, m1, root, first, run)
    ensures WritesRun(m0, m1, root, v / PAGE_SIZE, [MakeEntry(p, prop)])
  {
    OnePageRun(v, p, prop);
  }

  /**
   * One pass of the loop of `malloc_page`: `alloc_ppage(True)` takes a frame and
   * `create_mapping(pgd, vpage, ppage, PAGE_SIZE, KERNEL_PAGE_RESERVED, 0)` maps page
   * vpage to it. ok is false when either fails.
   */
  method MapReservedPage(mm: MemoryManager, pgd: u64, vpage: u64, ghost roles: map<u64, Role>)
      returns (ok: bool, ghost frame: u64, ghost roles': map<u64, Role>)
    modifies mm.kernelPpool.btmp.bits, mm.mem
    requires Ready(mm, pgd, roles)
    requires vpage % PAGE_SIZE == 0 && vpage + PAGE_SIZE <= 0x80_0000_0000
    ensures mm.Valid()
    ensures ok ==> Ready(mm, pgd, roles') && Extends(roles, roles')
    ensures ok ==> frame % PAGE_SIZE == 0 && frame < 0x100_0000_0000_0000
    ensures ok ==> WritesRun(old(mm.mem.frames), mm.mem.frames, pgd, vpage / PAGE_SIZE, [MakeEntry(frame, KERNEL_PAGE_RESERVED)])
  {
    var ppage := AllocTable(mm, pgd, roles);
    if ppage.None? {
      return false, 0, roles;
    }
    frame := ppage.value;
    ghost var m1 := mm.mem.frames;
    ok, roles' := CreateMapping(mm, pgd, vpage, ppage.value, PAGE_SIZE, KERNEL_PAGE_RESERVED, roles);
    if ok {
      OnePage(m1, mm.mem.frames, pgd, vpage, ppage.value, KERNEL_PAGE_RESERVED,
              PageAlign(vpage, false) / PAGE_SIZE,
              Leaves(PageAlign(ppage.value, false), (PageAlign(vpage + PAGE_SIZE, true) - PageAlign(vpage, false)) / PAGE_SIZE,
                     KERNEL_PAGE_RESERVED));
      WritesRunAfterSame(old(mm.mem.frames), m1, mm.mem.frames, pgd, vpage / PAGE_SIZE, [MakeEntry(ppage.value, KERNEL_PAGE_RESERVED)]);
    }
  }

  lemma ReservedLeavesSnoc(frames: seq<u64>, frame: u64)
    ensures ReservedLeaves(frames + [frame]) == ReservedLeaves(frames) + [MakeEntry(frame, KERNEL_PAGE_RESERVED)]
  {
    var all := frames + [frame];
    assert all[..|all| - 1] == frames && all[|all| - 1] == frame;
  }

  /**
   * The loop of `malloc_page`: for each of cnt pages from vstart, a frame is taken with
   * `alloc_ppage(True)` and page vpage is mapped to it with `create_mapping`; vpage then
   * moves on one page. vpage ends one page past the last page mapped. ok is false when
   * an allocation or a mapping fails.
   */
  method MapReservedPages(mm: MemoryManager, pgd: u64, vstart: u64, cnt: nat, ghost first: nat, ghost m0: Frames,
                          ghost roles: map<u64, Role>)
      returns (ok: bool, vpage: u64, ghost frames: seq<u64>, ghost roles': map<u64, Role>)
    modifies mm.kernelPpool.btmp.bits, mm.mem
    requires Ready(mm, pgd, roles)
    requires vstart % PAGE_SIZE == 0 && vstart + cnt * PAGE_SIZE <= 0x80_0000_0000 && first == vstart / PAGE_SIZE
    requires m0 == mm.mem.frames
    ensures mm.Valid()
    ensures ok ==> Ready(mm, pgd, roles') && Extends(roles, roles')
    ensures ok ==> vpage == vstart + cnt * PAGE_SIZE && |frames| == cnt
    ensures ok ==> forall i :: 0 <= i < |frames| ==> frames[i] % PAGE_SIZE == 0 && frames[i] < 0x100_0000_0000_0000
    ensures ok ==> WritesRun(m0, mm.mem.frames, pgd, first, ReservedLeaves(frames))
  {
    vpage := vstart;
    var n := cnt;
    frames := [];
    roles' := roles;
    ok := true;
    DivUnique(vstart, PAGE_SIZE, vstart / PAGE_SIZE, 0);
    while n > 0
      invariant Ready(mm, pgd, roles') && Extends(roles, roles')
      invariant |frames| + n == cnt && vpage == vstart + |frames| * PAGE_SIZE
      invariant vpage / PAGE_SIZE == vstart / PAGE_SIZE + |frames|
      invariant forall i :: 0 <= i < |frames| ==> frames[i] % PAGE_SIZE == 0 && frames[i] < 0x100_0000_0000_0000
      invariant WritesRun(m0, mm.mem.frames, pgd, first, ReservedLeaves(frames))
    {
      ghost var mPrev := mm.mem.frames;
      ghost var frame;
      ok, frame, roles' := MapReservedPage(mm, pgd, vpage, roles');
      if !ok {
        return;
      }
      WritesRunAppend(m0, mPrev, mm.mem.frames, pgd, first, ReservedLeaves(frames),
                      [MakeEntry(frame, KERNEL_PAGE_RESERVED)], vpage / PAGE_SIZE);
      ReservedLeavesSnoc(frames, frame);
      frames := frames + [frame];
      vpage := vpage + PAGE_SIZE;
      DivUnique(vpage, PAGE_SIZE, vstart / PAGE_SIZE + |frames|, 0);
      n := n - 1;
    }
  }

  /**
   * The body of `malloc_page` up to its return: the assertions on cnt and kpage (a
   * failed one is ok false, with nothing changed), `alloc_vpage` for cnt pages of the
   * kernel virtual pool, then the loop. vstart is the page `alloc_vpage` returned and
   * vend the cursor after the loop. The kernel virtual pool and cnt pages past it must
   * lie in the lower 2^39 bytes, where the page tables are indexed by the whole address.
   */
  method MallocRun(mm: MemoryManager, pgd: u64, cnt: nat, kpage: bool, ghost roles: map<u64, Role>)
      returns (ok: bool, vstart: u64, vend: u64, ghost vbit: nat, ghost frames: seq<u64>, ghost roles': map<u64, Role>)
    modifies mm.kernelVpool.btmp.bits, mm.kernelPpool.btmp.bits, mm.mem
    requires Ready(mm, pgd, roles)
    requires mm.kernelVpool.vaddrStart % PAGE_SIZE == 0
    requires mm.kernelVpool.vaddrStart + (8 * mm.kernelVpool.btmp.bits.Length + cnt) * PAGE_SIZE <= 0x80_0000_0000
    ensures mm.Valid()
    ensures cnt == 0 || !kpage ==> !ok && mm.mem.frames == old(mm.mem.frames) && unchanged(mm.kernelVpool.btmp.bits)
    ensures ok ==> Ready(mm, pgd, roles') && Extends(roles, roles')
    ensures ok ==> vstart % PAGE_SIZE == 0 && vend == vstart + cnt * PAGE_SIZE && |frames| == cnt
    ensures ok ==> forall i :: 0 <= i < |frames| ==> frames[i] % PAGE_SIZE == 0 && frames[i] < 0x100_0000_0000_0000
    ensures ok ==> WritesRun(old(mm.mem.frames), mm.mem.frames, pgd, vstart / PAGE_SIZE, ReservedLeaves(frames))
    ensures ok ==> vbit < 8 * mm.kernelVpool.btmp.size && vstart == mm.kernelVpool.vaddrStart + vbit * PAGE_SIZE
  {
    if cnt == 0 || !kpage {
      return false, 0, 0, 0, [], roles;
    }
    ghost var m0 := mm.mem.frames;
    var v := mm.AllocVpage(mm.kernelVpool, cnt);
    assert mm.mem.frames == m0;
    if v.None? {
      return false, 0, 0, 0, [], roles;
    }
    vstart := v.value;
    vbit :| && vbit < 8 * mm.kernelVpool.btmp.size
            && v.value == PageAddr(mm.kernelVpool.vaddrStart, vbit)
            && forall j: nat :: j < 8 * mm.kernelVpool.btmp.bits.Length ==>
                 mm.kernelVpool.btmp.Taken(j) == (j == vbit || old(mm.kernelVpool.btmp.Taken(j)));
    PageAddrFacts(mm.kernelVpool.vaddrStart, vbit);
    ok, vend, frames, roles' := MapReservedPages(mm, pgd, vstart, cnt, vstart / PAGE_SIZE, m0, roles);
  }

  /**
   * `malloc_page` as written: it returns the cursor after the loop, the address one
   * page past the last page it mapped. None stands for a failed assertion or an
   * allocation that ran out of pages.
   */
  method MallocPageAsWritten(mm: MemoryManager, pgd: u64, cnt: nat, kpage: bool, ghost roles: map<u64, Role>)
      returns (r: Option<u64>, ghost vstart: u64, ghost frames: seq<u64>, ghost roles': map<u64, Role>)
    modifies mm.kernelVpool.btmp.bits, mm.kernelPpool.btmp.bits, mm.mem
    requires Ready(mm, pgd, roles)
    requires mm.kernelVpool.vaddrStart % PAGE_SIZE == 0
    requires mm.kernelVpool.vaddrStart + (8 * mm.kernelVpool.btmp.bits.Length + cnt) * PAGE_SIZE <= 0x80_0000_0000
    ensures mm.Valid()
    ensures cnt == 0 || !kpage ==> r.None? && mm.mem.frames == old(mm.mem.frames)
    ensures r.Some? ==> Ready(mm, pgd, roles') && Extends(roles, roles')
    ensures r.Some? ==> vstart % PAGE_SIZE == 0 && r.value == vstart + cnt * PAGE_SIZE && |frames| == cnt
    ensures r.Some? ==> WritesRun(old(mm.mem.frames), mm.mem.frames, pgd, vstart / PAGE_SIZE, ReservedLeaves(frames))
  {
    var ok, vs, vend;
    ghost var vbit;
    ok, vs, vend, vbit, frames, roles' := MallocRun(mm, pgd, cnt, kpage, roles);
    vstart := vs;
    r := if ok then Some(vend) else None;
  }

  /**
   * The page `malloc_page` as written returns is not one it mapped: its translation is
   * what it was before the call.
   */
  lemma MallocPageAsWrittenPastEnd(m0: Frames, m1: Frames, root: u64, vstart: u64, cnt: nat, frames: seq<u64>, r: u64)
    requires vstart % PAGE_SIZE == 0 && r == vstart + cnt * PAGE_SIZE && r < 0x80_0000_0000 && |frames| == cnt
    requires WritesRun(m0, m1, root, vstart / PAGE_SIZE, ReservedLeaves(frames))
    ensures r / PAGE_SIZE < VPAGES && r / PAGE_SIZE == vstart / PAGE_SIZE + cnt
    ensures Walk(m1, root, r / PAGE_SIZE) == Walk(m0, root, r / PAGE_SIZE)
  {
    DivUnique(r, PAGE_SIZE, vstart / PAGE_SIZE + cnt, 0);
    DivLt(r, PAGE_SIZE, VPAGES);
  }

  /**
   * `malloc_page` returning the page it allocated: the first of the cnt pages, each
   * mapped to a frame of its own by a reserved leaf.
   */
  method MallocPage(mm: MemoryManager, pgd: u64, cnt: nat, kpage: bool, ghost roles: map<u64, Role>)
      returns (r: Option<u64>, ghost frames: seq<u64>, ghost roles': map<u64, Role>)
    modifies mm.kernelVpool.btmp.bits, mm.kernelPpool.btmp.bits, mm.mem
    requires Ready(mm, pgd, roles)
    requires mm.kernelVpool.vaddrStart % PAGE_SIZE == 0
    requires mm.kernelVpool.vaddrStart + (8 * mm.kernelVpool.btmp.bits.Length + cnt) * PAGE_SIZE <= 0x80_0000_0000
    ensures mm.Valid()
    ensures cnt == 0 || !kpage ==> r.None? && mm.mem.frames == old(mm.mem.frames)
    ensures r.Some? ==> Ready(mm, pgd, roles') && Extends(roles, roles')
    ensures r.Some? ==> r.value % PAGE_SIZE == 0 && r.value + cnt * PAGE_SIZE <= 0x80_0000_0000 && |frames| == cnt
    ensures r.Some? ==> WritesRun(old(mm.mem.frames), mm.mem.frames, pgd, r.value / PAGE_SIZE, ReservedLeaves(frames))
  {
    var ok, vstart, vend;
    ghost var vbit;
    ok, vstart, vend, vbit, frames, roles' := MallocRun(mm, pgd, cnt, kpage, roles);
    r := if ok then Some(vstart) else None;
  }

  /**
   * What MallocPage promises, page by page: page i from the returned page (first) maps to
   * frame i with `KERNEL_PAGE_RESERVED` (WritesRun says every other page keeps its translation).
   */
  lemma MallocPageMaps(m0: Frames, m1: Frames, root: u64, first: nat, frames: seq<u64>, k: nat)
    requires WritesRun(m0, m1, root, first, ReservedLeaves(frames)) && k < |frames| && first + k < VPAGES
    ensures Walk(m1, root, first + k) == MakeEntry(frames[k], KERNEL_PAGE_RESERVED)
  {
    ReservedLeavesAt(frames, k);
  }
}
