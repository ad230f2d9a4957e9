/**
 * Register addresses of the platform-level interrupt controller (PLIC):
 * each is the MMIO base plus a fixed offset and a per-source or per-hart
 * stride. `hwiid` is a 32-bit interrupt source number, so `hwiid * 4` is
 * computed, and wraps, in 32 bits before it is added to the 64-bit base;
 * the sums themselves are 64-bit.
 */
module Plic {
  import opened Words

  const U32: nat := 0x1_0000_0000
  type u32 = x: int | 0 <= x < U32

  const PLIC_BASE_ADDR: u64 := 0xC00_0000
  const PLIC_END_ADDR: u64 := 0x1000_0000

  /** `plic_priority_addr`: one 4-byte priority register per source. */
  function PriorityAddr(hwiid: u32): (r: u64)
    ensures hwiid < 0x4000_0000 ==> r - PLIC_BASE_ADDR == 4 * hwiid
  {
    Add(PLIC_BASE_ADDR, (hwiid * 4) % U32)
  }

  /** `plic_pending_addr`: one 32-bit pending word per 32 sources. */
  function PendingAddr(hwiid: u32): (r: u64)
    ensures r - PLIC_BASE_ADDR - 0x1000 == hwiid / 32 * 4
  {
    Add(Add(PLIC_BASE_ADDR, 0x1000), hwiid / 32 * 4)
  }

  /** `plic_enable_addr`: the enable block of hart hid, M-mode at 0x2000, S-mode 0x80 further on. */
  function EnableAddr(hid: u64, mMode: bool): (r: u64)
  {
    var offset: u64 := if mMode then 0x2000 else 0x2080;
    Add(Add(PLIC_BASE_ADDR, offset), (hid * 0x80) % WORD)
  }

  /** `plic_threshold_addr`: the threshold register of hart hid, M-mode at 0x20_0000, S-mode 0x1000 further on. */
  function ThresholdAddr(hid: u64, mMode: bool): (r: u64)
  {
    var offset: u64 := if mMode then 0x20_0000 else 0x20_1000;
    Add(Add(PLIC_BASE_ADDR, offset), (hid * 0x1000) % WORD)
  }

  /** `plic_claim_addr`: the word after the threshold register. */
  function ClaimAddr(hid: u64, mMode: bool): (r: u64)
  {
    Add(ThresholdAddr(hid, mMode), 4)
  }

  /** `plic_complete_addr`: completion is written to the claim register. */
  function CompleteAddr(hid: u64, mMode: bool): (r: u64)
  {
    ClaimAddr(hid, mMode)
  }

  /** For the first 1024 sources and 4096 harts every register lies in the PLIC window and is word aligned. */
  lemma AddressesInWindow(hwiid: u32, hid: u64, mMode: bool)
    requires hwiid < 1024 && hid < 4096
    ensures PLIC_BASE_ADDR <= PriorityAddr(hwiid) < PLIC_END_ADDR && PriorityAddr(hwiid) % 4 == 0
    ensures PLIC_BASE_ADDR <= PendingAddr(hwiid) < PLIC_END_ADDR && PendingAddr(hwiid) % 4 == 0
    ensures PLIC_BASE_ADDR <= EnableAddr(hid, mMode) < PLIC_END_ADDR && EnableAddr(hid, mMode) % 4 == 0
    ensures PLIC_BASE_ADDR <= ThresholdAddr(hid, mMode) < PLIC_END_ADDR && ThresholdAddr(hid, mMode) % 4 == 0
    ensures PLIC_BASE_ADDR <= ClaimAddr(hid, mMode) < PLIC_END_ADDR && ClaimAddr(hid, mMode) % 4 == 0
    ensures CompleteAddr(hid, mMode) == ClaimAddr(hid, mMode)
  {
    SourceInWindow(hwiid);
    ContextInWindow(hid, mMode);
    var e := if mMode then 0x300_0800 else 0x300_0820;
    var t := if mMode then 0x308_0000 else 0x308_0400;
    InWindow(PriorityAddr(hwiid), 0x300_0000 + hwiid);
    InWindow(PendingAddr(hwiid), 0x300_0400 + hwiid / 32);
    InWindow(EnableAddr(hid, mMode), e + hid * 0x20);
    InWindow(ThresholdAddr(hid, mMode), t + hid * 0x400);
    InWindow(ClaimAddr(hid, mMode), t + 1 + hid * 0x400);
  }

  /** Four times a word index of the window is an aligned address in it. */
  lemma InWindow(a: int, k: int)
    requires a == 4 * k && 0x300_0000 <= k < 0x400_0000
    ensures PLIC_BASE_ADDR <= a < PLIC_END_ADDR && a % 4 == 0
  {
  }

  /** The priority and pending registers of the first 1024 sources. */
  lemma SourceInWindow(hwiid: u32)
    requires hwiid < 1024
    ensures PriorityAddr(hwiid) == 4 * (0x300_0000 + hwiid)
    ensures PendingAddr(hwiid) == 4 * (0x300_0400 + hwiid / 32)
  {
    assert (hwiid * 4) % U32 == hwiid * 4;
  }

  /** The enable, threshold and claim registers of the first 4096 harts. */
  lemma ContextInWindow(hid: u64, mMode: bool)
    requires hid <= 4096
    ensures EnableAddr(hid, mMode) == 4 * ((if mMode then 0x300_0800 else 0x300_0820) + hid * 0x20)
    ensures ThresholdAddr(hid, mMode) == 4 * ((if mMode then 0x308_0000 else 0x308_0400) + hid * 0x400)
    ensures ClaimAddr(hid, mMode) == 4 * ((if mMode then 0x308_0001 else 0x308_0401) + hid * 0x400)
  {
    assert (hid * 0x80) % WORD == hid * 0x80;
    assert (hid * 0x1000) % WORD == hid * 0x1000;
  }

  /** Distinct sources have distinct priority registers; sources share a pending word iff they agree on hwiid / 32. */
  lemma SourceRegisters(h1: u32, h2: u32)
    requires h1 < 0x4000_0000 && h2 < 0x4000_0000
    ensures PriorityAddr(h1) == PriorityAddr(h2) <==> h1 == h2
    ensures PendingAddr(h1) == PendingAddr(h2) <==> h1 / 32 == h2 / 32
  {
  }

  /**
   * Above 2^30 the 32-bit product wraps: source 2^30 has the priority register
   * of source 0.
   */
  lemma PriorityWraps()
    ensures PriorityAddr(0x4000_0000) == PriorityAddr(0)
  {
  }

  /**
   * The per-hart strides equal the M-to-S offsets, so the S-mode enable block
   * and threshold register of hart hid are those of the M-mode context of hart
   * hid + 1; the claim register is 4 bytes past the threshold register.
   */
  lemma HartContexts(hid: u64)
    requires hid < 4096
    ensures EnableAddr(hid, false) == EnableAddr(hid + 1, true) == EnableAddr(hid, true) + 0x80
    ensures ThresholdAddr(hid, false) == ThresholdAddr(hid + 1, true) == ThresholdAddr(hid, true) + 0x1000
    ensures ClaimAddr(hid, true) == ThresholdAddr(hid, true) + 4
  {
    ContextInWindow(hid, false);
    ContextInWindow(hid, true);
    ContextInWindow(hid + 1, true);
  }
}
