/**
 * The three-level Sv39 page-table builder of the kernel: `create_mapping`,
 * `make_pgd_entry` and `make_pmd_entry` write one leaf per 4 KiB page,
 * allocating directory pages from the kernel physical pool on demand.
 *
 * Physical memory is the frame map of `PageTable.Memory`. Which frames are
 * page tables is ghost bookkeeping: a map from each table frame to its
 * role in the tree, the root, the PMD under root entry a, or the PT under
 * PMD entry (a, b). The tree shape is what makes a write to one table
 * change the translation of exactly the pages that table serves.
 */
module Paging {
  import opened Words
  import opened Sv39
  import opened Options
  import opened Bitmaps
  import opened PageTable
  import opened Mm

  /** Number of 4 KiB virtual pages in the 39-bit address space. */
  const VPAGES: nat := 0x800_0000

  /** The role of a page-table frame. */
  datatype Role = Root | Pmd(a: nat) | Pt(a: nat, b: nat)

  type Frames = map<u64, seq<u64>>

  /**
   * The table frame entry i of table t points to: the entry's page number
   * times the page size, in 64 bits, which is what `get_pmd_entry` and
   * `get_pt_entry` compute (`PageTable.EntryBase`).
   */
  function Child(m: Frames, t: u64, i: nat): u64
    requires t in m && i < |m[t]|
  {
    m[t][i] / 0x400 * PAGE_SIZE % WORD
  }

  lemma ChildIsEntryBase(m: Frames, t: u64, i: nat)
    requires t in m && i < |m[t]|
    ensures Child(m, t, i) == EntryBase(m[t][i])
  {
  }

  /** The frames after entry i of table t is set to v, as `SetEntry` leaves them. */
  function Store(m: Frames, t: u64, i: nat, v: u64): (m': Frames)
    requires t in m && i < |m[t]|
    ensures m'.Keys == m.Keys && m'[t] == m[t][i := v]
    ensures forall u :: u in m && u != t ==> m'[u] == m[u]
  {
    var row: seq<u64> := m[t][i := v];
    m[t := row]
  }

  ghost predicate IsTable(m: Frames, t: u64)
  {
    t in m && |m[t]| == 512
  }

  /**
   * A well-formed tree under root: every table frame has 512 entries;
   * a non-zero root entry a points to the frame whose role is Pmd(a); a
   * non-zero entry b of that PMD points to the frame whose role is
   * Pt(a, b); and every PMD and PT frame is reached that way.
   */
  ghost predicate Tree(m: Frames, root: u64, roles: map<u64, Role>)
  {
    && root in roles && roles[root] == Root
    && (forall t :: t in roles ==> IsTable(m, t))
    && (forall a: nat :: a < 512 && m[root][a] != 0 ==>
          Child(m, root, a) in roles && roles[Child(m, root, a)] == Pmd(a))
    && (forall t, b: nat :: t in roles && roles[t].Pmd? && b < 512 && m[t][b] != 0 ==>
          Child(m, t, b) in roles && roles[Child(m, t, b)] == Pt(roles[t].a, b))
    && (forall t :: t in roles && roles[t].Pmd? ==> PmdLinked(m, root, t, roles[t].a))
    && (forall t :: t in roles && roles[t].Pt? ==> PtLinked(m, root, t, roles[t].a, roles[t].b))
  }

  ghost predicate PmdLinked(m: Frames, root: u64, t: u64, a: nat)
    requires IsTable(m, root)
  {
    a < 512 && m[root][a] != 0 && Child(m, root, a) == t
  }

  ghost predicate PtLinked(m: Frames, root: u64, t: u64, a: nat, b: nat)
    requires IsTable(m, root)
  {
    && a < 512 && b < 512 && m[root][a] != 0
    && var p := Child(m, root, a);
       IsTable(m, p) && m[p][b] != 0 && Child(m, p, b) == t
  }

  /**
   * The leaf entry of virtual page vpn, reached through `get_pgd_entry`,
   * `get_pmd_entry` and `get_pt_entry` with the page's VPN2, VPN1 and VPN0;
   * 0 when a directory entry on the way is 0.
   */
  function Walk(m: Frames, root: u64, vpn: nat): u64
    requires vpn < VPAGES
  {
    var a := vpn / 0x4_0000;
    var b := vpn / 512 % 512;
    var c := vpn % 512;
    if root !in m || |m[root]| != 512 || m[root][a] == 0 then 0
    else
      var pmd := Child(m, root, a);
      if pmd !in m || |m[pmd]| != 512 || m[pmd][b] == 0 then 0
      else
        var pt := Child(m, pmd, b);
        if pt !in m || |m[pt]| != 512 then 0 else m[pt][c]
  }

  /** The first page of the 2 MiB region that PT (a, b) serves. */
  function RegionBase(a: nat, b: nat): nat
  {
    (a * 512 + b) * 512
  }

  /** The table walk of vpn only reads frames with the roles along its own path. */
  lemma WalkPath(m: Frames, root: u64, roles: map<u64, Role>, vpn: nat)
    requires Tree(m, root, roles) && vpn < VPAGES
    ensures var a := vpn / 0x4_0000;
            var b := vpn / 512 % 512;
            m[root][a] != 0 ==> Child(m, root, a) in roles && roles[Child(m, root, a)] == Pmd(a)
    ensures var a := vpn / 0x4_0000;
            var b := vpn / 512 % 512;
            m[root][a] != 0 && m[Child(m, root, a)][b] != 0 ==>
              var q := Child(m, Child(m, root, a), b);
              q in roles && roles[q] == Pt(a, b) && Walk(m, root, vpn) == m[q][vpn % 512]
    ensures var a := vpn / 0x4_0000;
            m[root][a] == 0 ==> Walk(m, root, vpn) == 0
    ensures var a := vpn / 0x4_0000;
            var b := vpn / 512 % 512;
            m[root][a] != 0 && m[Child(m, root, a)][b] == 0 ==> Walk(m, root, vpn) == 0
  {
  }

  /** A page's position in the tree, and back. */
  lemma RegionOf(vpn: nat)
    requires vpn < VPAGES
    ensures vpn / 0x4_0000 < 512
    ensures RegionBase(vpn / 0x4_0000, vpn / 512 % 512) + vpn % 512 == vpn
  {
    var a := vpn / 0x4_0000;
    var b := vpn / 512 % 512;
    var c := vpn % 512;
    DivDiv(vpn, 512, 512);
    DivUnique(vpn, 512, vpn / 512, c);
    DivUnique(vpn / 512, 512, a, b);
  }

  lemma RegionInverse(a: nat, b: nat, c: nat)
    requires a < 512 && b < 512 && c < 512
    ensures RegionBase(a, b) + c < VPAGES
    ensures (RegionBase(a, b) + c) / 0x4_0000 == a
    ensures (RegionBase(a, b) + c) / 512 % 512 == b
    ensures (RegionBase(a, b) + c) % 512 == c
  {
    var v := RegionBase(a, b) + c;
    DivUnique(v, 512, a * 512 + b, c);
    DivUnique(a * 512 + b, 512, a, b);
    DivDiv(v, 512, 512);
  }

  /** Writing a frame that is not a table changes no translation and keeps the tree. */
  lemma WriteOutsideTree(m: Frames, root: u64, roles: map<u64, Role>, f: u64, row: seq<u64>)
    requires Tree(m, root, roles) && f !in roles
    ensures Tree(m[f := row], root, roles)
    ensures forall vpn: nat :: vpn < VPAGES ==> Walk(m[f := row], root, vpn) == Walk(m, root, vpn)
  {
    var m' := m[f := row];
    forall vpn: nat | vpn < VPAGES
      ensures Walk(m', root, vpn) == Walk(m, root, vpn)
    {
      WalkPath(m, root, roles, vpn);
    }
  }

  /** Replacing the entries of a PT keeps the tree. */
  lemma WritePt(m: Frames, m': Frames, root: u64, roles: map<u64, Role>, q: u64, row: seq<u64>)
    requires Tree(m, root, roles) && q in roles && roles[q].Pt? && |row| == 512 && m' == m[q := row]
    ensures Tree(m', root, roles)
  {
    assert PtLinked(m, root, q, roles[q].a, roles[q].b);
    forall t | t in roles && roles[t].Pmd?
      ensures PmdLinked(m', root, t, roles[t].a)
    {
      assert PmdLinked(m, root, t, roles[t].a);
    }
    forall t | t in roles && roles[t].Pt?
      ensures PtLinked(m', root, t, roles[t].a, roles[t].b)
    {
      assert PtLinked(m, root, t, roles[t].a, roles[t].b);
    }
  }

  /**
   * Replacing the entries of PT (a, b) changes the translation of the pages
   * of its 2 MiB region only, to the new entries.
   */
  lemma WritePtAt(m: Frames, m': Frames, root: u64, roles: map<u64, Role>, q: u64, row: seq<u64>, vpn: nat)
    requires Tree(m, root, roles) && q in roles && roles[q].Pt? && |row| == 512 && m' == m[q := row]
    requires vpn < VPAGES
    ensures Walk(m', root, vpn) ==
              if vpn / 512 == roles[q].a * 512 + roles[q].b then row[vpn % 512] else Walk(m, root, vpn)
  {
    var a, b := roles[q].a, roles[q].b;
    assert PtLinked(m, root, q, a, b);
    WalkPath(m, root, roles, vpn);
    RegionOf(vpn);
    DivUnique(vpn / 512, 512, vpn / 0x4_0000, vpn / 512 % 512);
    if vpn / 512 == a * 512 + b {
      DivUnique(vpn / 512, 512, a, b);
    }
  }

  /**
   * Linking a zero-filled frame f, not yet a table, below PMD entry (a, b)
   * that was 0, with `PAGE_TABLE` properties: f becomes PT (a, b) and no
   * translation changes.
   */
  lemma LinkPt(m: Frames, m': Frames, root: u64, roles: map<u64, Role>, roles': map<u64, Role>,
               p: u64, a: nat, b: nat, f: u64)
    requires Tree(m, root, roles) && p in roles && roles[p] == Pmd(a) && b < 512 && m[p][b] == 0
    requires f !in roles && f in m && m[f] == ZeroRow()
    requires f % PAGE_SIZE == 0 && f < 0x100_0000_0000_0000
    requires m' == Store(m, p, b, MakeEntry(f, PAGE_TABLE)) && roles' == roles[f := Pt(a, b)]
    ensures Tree(m', root, roles')
    ensures SameWalk(m, m', root)
  {
    LinkedEntry(f);
    assert Child(m', p, b) == f;
    assert PmdLinked(m, root, p, a);
    forall i: nat | i < 512 && m'[root][i] != 0
      ensures Child(m', root, i) in roles' && roles'[Child(m', root, i)] == Pmd(i)
    {
      assert Child(m', root, i) == Child(m, root, i);
    }
    forall t, c: nat | t in roles' && roles'[t].Pmd? && c < 512 && m'[t][c] != 0
      ensures Child(m', t, c) in roles' && roles'[Child(m', t, c)] == Pt(roles'[t].a, c)
    {
      if t != p || c != b {
        assert Child(m', t, c) == Child(m, t, c);
      }
    }
    forall t | t in roles' && roles'[t].Pt?
      ensures PtLinked(m', root, t, roles'[t].a, roles'[t].b)
    {
      if t != f {
        assert PtLinked(m, root, t, roles[t].a, roles[t].b);
      }
    }
    forall t | t in roles' && roles'[t].Pmd?
      ensures PmdLinked(m', root, t, roles'[t].a)
    {
      assert PmdLinked(m, root, t, roles[t].a);
    }
    LinkKeepsWalk(m, m', root, roles, p, b, f);
  }

  /**
   * Linking a zero-filled frame f, not yet a table, below root entry a
   * that was 0: f becomes PMD a and no translation changes.
   */
  lemma LinkPmd(m: Frames, m': Frames, root: u64, roles: map<u64, Role>, roles': map<u64, Role>, a: nat, f: u64)
    requires Tree(m, root, roles) && a < 512 && m[root][a] == 0
    requires f !in roles && f in m && m[f] == ZeroRow()
    requires f % PAGE_SIZE == 0 && f < 0x100_0000_0000_0000
    requires m' == Store(m, root, a, MakeEntry(f, PAGE_TABLE)) && roles' == roles[f := Pmd(a)]
    ensures Tree(m', root, roles')
    ensures SameWalk(m, m', root)
  {
    LinkedEntry(f);
    assert Child(m', root, a) == f;
    forall i: nat | i < 512 && m'[root][i] != 0
      ensures Child(m', root, i) in roles' && roles'[Child(m', root, i)] == Pmd(i)
    {
      if i != a {
        assert Child(m', root, i) == Child(m, root, i);
      }
    }
    forall t, c: nat | t in roles' && roles'[t].Pmd? && c < 512 && m'[t][c] != 0
      ensures Child(m', t, c) in roles' && roles'[Child(m', t, c)] == Pt(roles'[t].a, c)
    {
      assert t != f;
      assert Child(m', t, c) == Child(m, t, c);
    }
    forall t | t in roles' && roles'[t].Pt?
      ensures PtLinked(m', root, t, roles'[t].a, roles'[t].b)
    {
      assert PtLinked(m, root, t, roles[t].a, roles[t].b);
    }
    forall t | t in roles' && roles'[t].Pmd?
      ensures PmdLinked(m', root, t, roles'[t].a)
    {
      if t != f {
        assert PmdLinked(m, root, t, roles[t].a);
      }
    }
    LinkKeepsWalk(m, m', root, roles, root, a, f);
  }

  /**
   * Pointing a zero directory entry at a zero-filled frame that is not a
   * table yet changes no translation: the walk through it still meets a
   * zero entry.
   */
  lemma LinkKeepsWalk(m: Frames, m': Frames, root: u64, roles: map<u64, Role>, t: u64, i: nat, f: u64)
    requires Tree(m, root, roles) && t in roles && !roles[t].Pt? && i < 512 && m[t][i] == 0
    requires f !in roles && f in m && m[f] == ZeroRow()
    requires f % PAGE_SIZE == 0 && f < 0x100_0000_0000_0000
    requires m' == Store(m, t, i, MakeEntry(f, PAGE_TABLE))
    ensures SameWalk(m, m', root)
  {
    LinkedEntry(f);
    forall vpn: nat | vpn < VPAGES
      ensures Walk(m', root, vpn) == Walk(m, root, vpn)
    {
      WalkPath(m, root, roles, vpn);
    }
  }

  /** A directory entry made for an aligned frame below 2^56 is non-zero and leads back to the frame. */
  lemma LinkedEntry(f: u64)
    requires f % PAGE_SIZE == 0 && f < 0x100_0000_0000_0000
    ensures MakeEntry(f, PAGE_TABLE) != 0
    ensures MakeEntry(f, PAGE_TABLE) / 0x400 * PAGE_SIZE % WORD == f
  {
    EntryRoundTrip(f, PAGE_TABLE);
    assert MakeEntry(f, PAGE_TABLE) != 0 by {
      assert And(0, 0x3FF) == 0;
    }
  }

  /** The region sizes `get_mapping_end` works with. */
  lemma RegionSizes()
    ensures RegionSize(true) == PGD_SIZE == 0x4000_0000
    ensures RegionSize(false) == PMD_SIZE == 0x20_0000
  {
    Geometry(0);
  }

  /** Stepping a 64-bit page cursor by j pages. */
  lemma PageAddrStep(p: u64, k: nat, j: nat, kj: nat)
    requires j * PAGE_SIZE < WORD && kj == k + j
    ensures Add(PageAddr(p, k), j * PAGE_SIZE) == PageAddr(p, kj)
  {
    PageAddrCompose(p, k, j);
  }

  /** Page j of the run that starts at page k of p is page k + j of p. */
  lemma PageAddrCompose(p: u64, k: nat, j: nat)
    ensures PageAddr(PageAddr(p, k), j) == PageAddr(p, k + j)
  {
    var x := p + k * PAGE_SIZE;
    var a := x % WORD;
    var y := a + j * PAGE_SIZE;
    DivUnique(x, WORD, x / WORD, a);
    DivUnique(x + j * PAGE_SIZE, WORD, x / WORD + y / WORD, y % WORD);
  }

  /**
   * The leaf entries of a run of n pages: entry k maps physical page k of
   * the run that starts at paddr, with the given properties.
   */
  function Leaves(paddr: u64, n: nat, prop: u64): (r: seq<u64>)
    ensures |r| == n
    decreases n
  {
    if n == 0 then [] else Leaves(paddr, n - 1, prop) + [MakeEntry(PageAddr(paddr, n - 1), prop)]
  }

  lemma {:induction false} LeavesAt(paddr: u64, n: nat, prop: u64, k: nat)
    requires k < n
    ensures Leaves(paddr, n, prop)[k] == MakeEntry(PageAddr(paddr, k), prop)
    decreases n
  {
    if k < n - 1 {
      LeavesAt(paddr, n - 1, prop, k);
    }
  }

  /** A run of n = n1 + n2 leaves is the run of n1 followed by the run of n2 from page n1 on. */
  lemma {:induction false} LeavesAppend(paddr: u64, n1: nat, n2: nat, n: nat, prop: u64)
    requires n == n1 + n2
    ensures Leaves(paddr, n, prop) == Leaves(paddr, n1, prop) + Leaves(PageAddr(paddr, n1), n2, prop)
    decreases n2
  {
    if n2 > 0 {
      LeavesAppend(paddr, n1, n2 - 1, n - 1, prop);
      PageAddrCompose(paddr, n1, n2 - 1);
      assert PageAddr(paddr, n1 + (n2 - 1)) == PageAddr(paddr, n - 1);
    }
  }

  /** An aligned address v in the 2 MiB region of s is page s's index plus the distance. */
  lemma InRegion(s: u64, v: u64, e: u64)
    requires s % PAGE_SIZE == 0 && v % PAGE_SIZE == 0 && s <= v < e && (e - 1) / PMD_SIZE == s / PMD_SIZE
    ensures v / PAGE_SIZE == s / PAGE_SIZE + (v - s) / PAGE_SIZE
    ensures v / PAGE_SIZE % 512 == s / PAGE_SIZE % 512 + (v - s) / PAGE_SIZE
  {
    DivBetween(s, v, e - 1, PMD_SIZE);
    var vp, sp := v / PAGE_SIZE, s / PAGE_SIZE;
    DivUnique(v, PAGE_SIZE, vp, 0);
    DivUnique(s, PAGE_SIZE, sp, 0);
    DivUnique(v - s, PAGE_SIZE, vp - sp, 0);
    DivDiv(v, PAGE_SIZE, 512);
    DivDiv(s, PAGE_SIZE, 512);
    DivUnique(vp, 512, vp / 512, vp % 512);
    DivUnique(sp, 512, sp / 512, sp % 512);
  }

  /** Page number of an address below 2^39, split by the three levels. */
  lemma AddrRegion(v: u64)
    requires v < 0x80_0000_0000
    ensures v / PAGE_SIZE < VPAGES && v / PGD_SIZE < 512
    ensures RegionBase(v / PGD_SIZE, v / PMD_SIZE % 512) + v / PAGE_SIZE % 512 == v / PAGE_SIZE
  {
    var vp := v / PAGE_SIZE;
    DivDiv(v, PAGE_SIZE, 512);
    DivDiv(v, PAGE_SIZE, 0x4_0000);
    DivLt(v, PAGE_SIZE, VPAGES);
    RegionOf(vp);
  }

  /** A 2 MiB chunk of [v, e), as `get_mapping_end(v, e, False)` ends it. */
  lemma PmdChunk(v: u64, e: u64, next: u64)
    requires v < e && next == GetMappingEnd(v, e, false)
    ensures v < next <= e && (next < e ==> next % PMD_SIZE == 0) && (next - 1) / PMD_SIZE == v / PMD_SIZE
  {
    MappingEndBounds(v, e, false);
  }

  /** A 1 GiB chunk of [v, e), as `get_mapping_end(v, e, True)` ends it. */
  lemma PgdChunk(v: u64, e: u64, next: u64)
    requires v < e && next == GetMappingEnd(v, e, true)
    ensures v < next <= e && (next < e ==> next % PGD_SIZE == 0) && (next - 1) / PGD_SIZE == v / PGD_SIZE
  {
    MappingEndBounds(v, e, true);
  }

  /**
   * A chunk end below e that is a region boundary starts the next region;
   * inside one 1 GiB region its PMD index is one more.
   */
  lemma NextPmdIndex(s: u64, cur: u64, next: u64, e: u64, b: nat)
    requires s <= cur < next < e && next % PMD_SIZE == 0 && (next - 1) / PMD_SIZE == cur / PMD_SIZE
    requires (e - 1) / PGD_SIZE == s / PGD_SIZE && b == cur / PMD_SIZE % 512
    ensures next / PMD_SIZE == cur / PMD_SIZE + 1
    ensures next / PMD_SIZE % 512 == b + 1
  {
    var n := next / PMD_SIZE;
    DivUnique(next, PMD_SIZE, n, 0);
    DivUnique(next - 1, PMD_SIZE, n - 1, PMD_SIZE - 1);
    DivDiv(next, PMD_SIZE, 512);
    DivDiv(next - 1, PMD_SIZE, 512);
    DivDiv(s, PMD_SIZE, 512);
    DivDiv(e - 1, PMD_SIZE, 512);
    assert s / PGD_SIZE <= next / PGD_SIZE <= (e - 1) / PGD_SIZE;
    assert s / PGD_SIZE <= (next - 1) / PGD_SIZE <= (e - 1) / PGD_SIZE;
    assert n / 512 == (n - 1) / 512;
    DivUnique(n, 512, n / 512, n % 512);
    DivUnique(n - 1, 512, n / 512, (n - 1) % 512);
  }

  /** The same for 1 GiB chunks: the next PGD index. */
  lemma NextPgdIndex(cur: u64, next: u64, i: nat)
    requires cur < next && next % PGD_SIZE == 0 && (next - 1) / PGD_SIZE == cur / PGD_SIZE && i == cur / PGD_SIZE
    ensures next / PGD_SIZE == i + 1
  {
    DivUnique(next, PGD_SIZE, next / PGD_SIZE, 0);
    DivUnique(next - 1, PGD_SIZE, next / PGD_SIZE - 1, PGD_SIZE - 1);
  }

  /**
   * The translation changes exactly on pages first .. first + |run| - 1,
   * and page first + k there translates to run[k].
   */
  ghost predicate WritesRun(m0: Frames, m1: Frames, root: u64, first: nat, run: seq<u64>)
  {
    forall vpn: nat :: vpn < VPAGES ==>
      Walk(m1, root, vpn) ==
        if first <= vpn < first + |run| then run[vpn - first] else Walk(m0, root, vpn)
  }

  /** No translation changes. */
  ghost predicate SameWalk(m0: Frames, m1: Frames, root: u64)
  {
    forall vpn: nat :: vpn < VPAGES ==> Walk(m1, root, vpn) == Walk(m0, root, vpn)
  }

  /** Two adjacent runs form one run. */
  lemma WritesRunAppend(m0: Frames, m1: Frames, m2: Frames, root: u64, first: nat, run1: seq<u64>, run2: seq<u64>, mid: nat)
    requires WritesRun(m0, m1, root, first, run1)
    requires WritesRun(m1, m2, root, mid, run2) && mid == first + |run1|
    ensures WritesRun(m0, m2, root, first, run1 + run2)
  {
  }

  /** A run that follows a change-free step is still that run. */
  lemma WritesRunAfterSame(m0: Frames, m1: Frames, m2: Frames, root: u64, first: nat, run: seq<u64>)
    requires SameWalk(m0, m1, root) && WritesRun(m1, m2, root, first, run)
    ensures WritesRun(m0, m2, root, first, run)
  {
  }

  /** Kernel pool pages are aligned and below 2^56, so an entry can hold them. */
  ghost predicate Placed(mm: MemoryManager)
    reads mm, mm.kernelPpool
  {
    && mm.kernelPpool.paddrStart % PAGE_SIZE == 0
    && mm.kernelPpool.paddrStart + 8 * mm.kernelPpool.btmp.bits.Length * PAGE_SIZE <= 0x100_0000_0000_0000
  }

  /** Every table frame that is a kernel pool page is marked taken in the pool. */
  ghost predicate Owned(mm: MemoryManager, tables: set<u64>)
    reads mm, mm.kernelPpool, mm.kernelPpool.btmp, mm.kernelPpool.btmp.bits
  {
    forall g: nat :: g < 8 * mm.kernelPpool.btmp.bits.Length && PageAddr(mm.kernelPpool.paddrStart, g) in tables ==>
      mm.kernelPpool.btmp.Taken(g)
  }

  /** The state the builder works in: pools, placement, ownership and tree shape. */
  ghost predicate Ready(mm: MemoryManager, root: u64, roles: map<u64, Role>)
    reads mm, mm.kernelPpool, mm.userPpool, mm.kernelVpool
    reads mm.kernelPpool.btmp, mm.userPpool.btmp, mm.kernelVpool.btmp, mm.kernelPpool.btmp.bits, mm.mem
  {
    mm.Valid() && Placed(mm) && Owned(mm, roles.Keys) && Tree(mm.mem.frames, root, roles)
  }

  /**
   * `alloc_ppage(True)` for a new directory page: the frame is a free
   * kernel pool page, so it is not a table yet, it is aligned and below
   * 2^56, and it is zero-filled; no translation changes.
   */
  method AllocTable(mm: MemoryManager, ghost root: u64, ghost roles: map<u64, Role>) returns (f: Option<u64>)
    modifies mm.kernelPpool.btmp.bits, mm.mem
    requires Ready(mm, root, roles)
    ensures mm.Valid() && Placed(mm)
    ensures f.Some? ==>
              && f.value !in roles && f.value % PAGE_SIZE == 0 && f.value < 0x100_0000_0000_0000
              && mm.mem.frames == old(mm.mem.frames)[f.value := ZeroRow()]
              && Owned(mm, roles.Keys + {f.value})
              && Tree(mm.mem.frames, root, roles)
              && SameWalk(old(mm.mem.frames), mm.mem.frames, root)
  {
    ghost var m0 := mm.mem.frames;
    ghost var start := mm.kernelPpool.paddrStart;
    ghost var len := mm.kernelPpool.btmp.bits.Length;
    f := mm.AllocPpage(true);
    if f.Some? {
      ghost var g := old(mm.kernelPpool.btmp.FirstFreeFrom(0)).value;
      assert f.value == PageAddr(start, g);
      assert f.value !in roles;
      assert start + g * PAGE_SIZE < 0x100_0000_0000_0000;
      forall h: nat | h < 8 * len && PageAddr(start, h) in roles.Keys + {f.value}
        ensures mm.kernelPpool.btmp.Taken(h)
      {
        if PageAddr(start, h) == f.value {
          PageIndexRoundTrip(start, h);
          PageIndexRoundTrip(start, g);
        }
      }
      WriteOutsideTree(m0, root, roles, f.value, ZeroRow());
    }
  }

  /** roles' keeps every role of roles. */
  ghost predicate Extends(roles: map<u64, Role>, roles': map<u64, Role>)
  {
    forall t :: t in roles ==> t in roles' && roles'[t] == roles[t]
  }

  /** The entries of a PT after the leaf loop: from index c0 on they are the run; the others are kept. */
  function FillRow(row: seq<u64>, c0: nat, run: seq<u64>): (r: seq<u64>)
    requires c0 + |run| <= |row|
    ensures |r| == |row|
  {
    row[..c0] + run + row[c0 + |run|..]
  }

  /** Entry i of a filled row: the run's entry inside c0 .. c0 + |run| - 1, the old one elsewhere. */
  lemma FillRowAt(row: seq<u64>, c0: nat, run: seq<u64>)
    requires c0 + |run| <= |row|
    ensures forall i :: 0 <= i < |row| && !(c0 <= i < c0 + |run|) ==> FillRow(row, c0, run)[i] == row[i]
    ensures forall i :: c0 <= i < c0 + |run| ==> FillRow(row, c0, run)[i] == run[i - c0]
  {
  }

  /** Filling no entries leaves the row as it is. */
  lemma FillRowEmpty(row: seq<u64>, c0: nat)
    requires c0 <= |row|
    ensures FillRow(row, c0, []) == row
  {
    assert row[..c0] + row[c0..] == row;
  }

  /** Writing entry c0 + k after filling k leaves fills k + 1. */
  lemma FillRowStep(row: seq<u64>, c0: nat, paddr: u64, k: nat, prop: u64)
    requires c0 + k < |row|
    ensures FillRow(row, c0, Leaves(paddr, k, prop))[c0 + k := MakeEntry(PageAddr(paddr, k), prop)]
            == FillRow(row, c0, Leaves(paddr, k + 1, prop))
  {
    var run := Leaves(paddr, k, prop);
    var v := MakeEntry(PageAddr(paddr, k), prop);
    assert Leaves(paddr, k + 1, prop) == run + [v];
    FillRowAt(row, c0, run);
    FillRowAt(row, c0, run + [v]);
  }

  /** Page vpn is one of pages first .. first + n - 1 of PT (a, b) exactly when it has that PT's index and lies in c0 .. c0 + n - 1. */
  lemma RunInRegion(a: nat, b: nat, c0: nat, n: nat, vpn: nat)
    requires b < 512 && c0 + n <= 512
    ensures var first := RegionBase(a, b) + c0;
            (first <= vpn < first + n) <==> (vpn / 512 == a * 512 + b && c0 <= vpn % 512 < c0 + n)
    ensures var first := RegionBase(a, b) + c0;
            first <= vpn < first + n ==> vpn % 512 - c0 == vpn - first
  {
    var first := RegionBase(a, b) + c0;
    DivUnique(vpn, 512, vpn / 512, vpn % 512);
    if first <= vpn < first + n {
      DivUnique(vpn, 512, a * 512 + b, c0 + (vpn - first));
    }
  }

  /** Filling PT (a, b) from index c0 on maps the pages of the run there and changes nothing else. */
  lemma FillRowWrites(m: Frames, m': Frames, root: u64, roles: map<u64, Role>,
                      q: u64, a: nat, b: nat, c0: nat, run: seq<u64>, first: nat)
    requires Tree(m, root, roles) && q in roles && roles[q] == Pt(a, b) && c0 + |run| <= 512
    requires q in m && m' == m[q := FillRow(m[q], c0, run)]
    requires first == RegionBase(a, b) + c0
    ensures Tree(m', root, roles)
    ensures WritesRun(m, m', root, first, run)
  {
    WritePt(m, m', root, roles, q, m'[q]);
    FillRowAt(m[q], c0, run);
    forall vpn: nat | vpn < VPAGES
      ensures Walk(m', root, vpn) ==
                if first <= vpn < first + |run| then run[vpn - first] else Walk(m, root, vpn)
    {
      WritePtAt(m, m', root, roles, q, m'[q], vpn);
      RunInRegion(a, b, c0, |run|, vpn);
    }
  }

  /**
   * The translation effect of filling part of a leaf table that sits
   * behind a change-free step: the run appears at the table's place in
   * the address space and the tree shape is kept.
   */
  lemma FillRowAfterSame(m0: Frames, m1: Frames, m2: Frames, root: u64, roles: map<u64, Role>,
                         q: u64, a: nat, b: nat, c0: nat, run: seq<u64>, first: nat)
    requires SameWalk(m0, m1, root) && Tree(m1, root, roles)
    requires q in roles && roles[q] == Pt(a, b) && c0 + |run| <= 512
    requires q in m1 && m2 == m1[q := FillRow(m1[q], c0, run)]
    requires first == RegionBase(a, b) + c0
    ensures Tree(m2, root, roles)
    ensures WritesRun(m0, m2, root, first, run)
  {
    FillRowWrites(m1, m2, root, roles, q, a, b, c0, run, first);
    WritesRunAfterSame(m0, m1, m2, root, first, run);
  }

  /**
   * The leaf loop of `make_pmd_entry`: entries ptEnt, ptEnt + 1, ... of
   * the PT map one page each of [s, e) to the lockstep frames from paddr;
   * the range stays inside one 2 MiB region, so the index stays below 512.
   */
  method FillRun(mem: Memory, ptEnt: EntryPtr, s: u64, e: u64, paddr: u64, prop: u64)
    modifies mem
    requires mem.Valid() && ptEnt.table in mem.frames
    requires s % PAGE_SIZE == 0 && e % PAGE_SIZE == 0 && s < e && (e - 1) / PMD_SIZE == s / PMD_SIZE
    requires ptEnt.index == s / PAGE_SIZE % 512
    ensures mem.Valid()
    ensures ptEnt.index + (e - s) / PAGE_SIZE <= 512
    ensures mem.frames == old(mem.frames)[ptEnt.table :=
              FillRow(old(mem.frames[ptEnt.table]), ptEnt.index, Leaves(paddr, (e - s) / PAGE_SIZE, prop))]
  {
    ghost var m1 := mem.frames;
    ghost var q := ptEnt.table;
    ghost var c0 := ptEnt.index;
    var pt := ptEnt;
    var currP := paddr;
    var currV := s;
    ghost var k: nat := 0;
    FillRowEmpty(m1[q], c0);
    assert m1[q := m1[q]] == m1;
    while true
      invariant s <= currV < e && currV % PAGE_SIZE == 0 && currV == s + k * PAGE_SIZE
      invariant pt == EntryPtr(q, c0 + k) && pt.index < 512
      invariant currP == PageAddr(paddr, k)
      invariant c0 + k <= 512
      invariant mem.Valid() && mem.frames == m1[q := FillRow(m1[q], c0, Leaves(paddr, k, prop))]
      decreases e - currV
    {
      mem.SetEntry(pt, currP, prop);
      assert mem.frames == m1[q := FillRow(m1[q], c0, Leaves(paddr, k + 1, prop))] by {
        FillRowStep(m1[q], c0, paddr, k, prop);
      }
      assert Add(currP, PAGE_SIZE) == PageAddr(paddr, k + 1) by {
        PageAddrStep(paddr, k, 1, k + 1);
      }
      PageStep(s, currV, e, k);
      currP := Add(currP, PAGE_SIZE);
      pt := EntryPtr(pt.table, pt.index + 1);
      currV := Add(currV, PAGE_SIZE);
      k := k + 1;
      if !(currV < e) {
        break;
      }
      InRegion(s, currV, e);
    }
    InRegion(s, currV - PAGE_SIZE, e);
  }

  /** One page step of an aligned cursor inside [s, e). */
  lemma PageStep(s: nat, v: nat, e: nat, k: nat)
    requires s % PAGE_SIZE == 0 && e % PAGE_SIZE == 0 && v == s + k * PAGE_SIZE && v < e
    ensures v + PAGE_SIZE <= e && (v + PAGE_SIZE) % PAGE_SIZE == 0
    ensures k < (e - s) / PAGE_SIZE
    ensures v + PAGE_SIZE == e <==> k + 1 == (e - s) / PAGE_SIZE
  {
    DivUnique(s, PAGE_SIZE, s / PAGE_SIZE, 0);
    DivUnique(e, PAGE_SIZE, e / PAGE_SIZE, 0);
    DivUnique(e - s, PAGE_SIZE, e / PAGE_SIZE - s / PAGE_SIZE, 0);
    DivUnique(v + PAGE_SIZE, PAGE_SIZE, s / PAGE_SIZE + k + 1, 0);
  }

  /**
   * The first step of `make_pmd_entry`: when the PMD entry is 0, a zeroed
   * kernel page becomes its PT, linked with `PAGE_TABLE`; a non-zero entry
   * is left as it is. Either way the entry then points to PT (a, b) and no
   * translation has changed. ok is false when the pool has no free page
   * (the failed assertion).
   */
  method EnsurePt(mm: MemoryManager, pmdEnt: EntryPtr, ghost root: u64, ghost roles: map<u64, Role>)
      returns (ok: bool, ghost roles': map<u64, Role>)
    modifies mm.kernelPpool.btmp.bits, mm.mem
    requires Ready(mm, root, roles)
    requires pmdEnt.table in roles && roles[pmdEnt.table].Pmd? && pmdEnt.index < 512
    ensures mm.Valid()
    ensures ok ==> Ready(mm, root, roles') && Extends(roles, roles')
    ensures ok ==> SameWalk(old(mm.mem.frames), mm.mem.frames, root)
    ensures ok ==> pmdEnt.table in mm.mem.frames && |mm.mem.frames[pmdEnt.table]| == 512
    ensures ok ==> var t := Child(mm.mem.frames, pmdEnt.table, pmdEnt.index);
                   mm.mem.frames[pmdEnt.table][pmdEnt.index] != 0 &&
                   t in roles' && roles'[t] == Pt(roles[pmdEnt.table].a, pmdEnt.index)
    ensures old(mm.mem.frames[pmdEnt.table][pmdEnt.index]) != 0 ==>
              ok && roles' == roles && mm.mem.frames == old(mm.mem.frames) && unchanged(mm.kernelPpool.btmp.bits)
  {
    ghost var a := roles[pmdEnt.table].a;
    ghost var b := pmdEnt.index;
    assert Tree(mm.mem.frames, root, roles);
    if mm.mem.Load(pmdEnt) != 0 {
      return true, roles;
    }
    var ptPage := AllocTable(mm, root, roles);
    if ptPage.None? {
      return false, roles;
    }
    LinkPt(mm.mem.frames, Store(mm.mem.frames, pmdEnt.table, b, MakeEntry(ptPage.value, PAGE_TABLE)),
           root, roles, roles[ptPage.value := Pt(a, b)], pmdEnt.table, a, b, ptPage.value);
    mm.mem.SetEntry(pmdEnt, ptPage.value, PAGE_TABLE);
    roles' := roles[ptPage.value := Pt(a, b)];
    ok := true;
  }

  /**
   * The leaf half of `make_pmd_entry`, once the PMD entry points at a
   * PT: the PT entries of [s, e) are written with consecutive physical
   * pages, which is exactly that run of translations.
   */
  method FillLeaves(mm: MemoryManager, pmdEnt: EntryPtr, s: u64, e: u64, paddr: u64, prop: u64,
                    ghost root: u64, ghost roles: map<u64, Role>, ghost a: nat, ghost m0: Frames, ghost first: nat, ghost run: seq<u64>)
    modifies mm.mem
    requires Ready(mm, root, roles) && SameWalk(m0, mm.mem.frames, root)
    requires pmdEnt.table in roles && roles[pmdEnt.table] == Pmd(a) && pmdEnt.index < 512
    requires mm.mem.frames[pmdEnt.table][pmdEnt.index] != 0
    requires Child(mm.mem.frames, pmdEnt.table, pmdEnt.index) in roles
    requires roles[Child(mm.mem.frames, pmdEnt.table, pmdEnt.index)] == Pt(a, pmdEnt.index)
    requires s % PAGE_SIZE == 0 && e % PAGE_SIZE == 0 && s < e && (e - 1) / PMD_SIZE == s / PMD_SIZE
    requires first == RegionBase(a, pmdEnt.index) + s / PAGE_SIZE % 512 && run == Leaves(paddr, (e - s) / PAGE_SIZE, prop)
    ensures Ready(mm, root, roles)
    ensures WritesRun(m0, mm.mem.frames, root, first, run)
  {
    var ptEnt := mm.mem.EntryBelow(pmdEnt, GetVpn(s, 0).value);
    FillRun(mm.mem, ptEnt, s, e, paddr, prop);
    FillRowAfterSame(m0, old(mm.mem.frames), mm.mem.frames, root, roles, ptEnt.table, a, pmdEnt.index,
                     ptEnt.index, run, first);
  }

  /**
   * `make_pmd_entry`: makes sure the PMD entry points to a PT (EnsurePt),
   * then one leaf per page of [s, e), starting at PT index VPN0(s), maps
   * the lockstep frame from paddr with the given properties. The range
   * stays inside one 2 MiB region, so the index stays below 512. ok is
   * false when the pool has no free page (the failed assertion).
   */
  method MakePmdEntry(mm: MemoryManager, pmdEnt: EntryPtr, s: u64, e: u64, paddr: u64, prop: u64,
                      ghost root: u64, ghost roles: map<u64, Role>, ghost first: nat, ghost run: seq<u64>)
      returns (ok: bool, ghost roles': map<u64, Role>)
    modifies mm.kernelPpool.btmp.bits, mm.mem
    requires Ready(mm, root, roles)
    requires pmdEnt.table in roles && roles[pmdEnt.table].Pmd? && pmdEnt.index < 512
    requires s % PAGE_SIZE == 0 && e % PAGE_SIZE == 0 && s < e && (e - 1) / PMD_SIZE == s / PMD_SIZE
    requires first == RegionBase(roles[pmdEnt.table].a, pmdEnt.index) + s / PAGE_SIZE % 512
    requires run == Leaves(paddr, (e - s) / PAGE_SIZE, prop)
    ensures mm.Valid()
    ensures ok ==> Ready(mm, root, roles') && Extends(roles, roles')
    ensures ok ==> WritesRun(old(mm.mem.frames), mm.mem.frames, root, first, run)
  {
    ok, roles' := EnsurePt(mm, pmdEnt, root, roles);
    if !ok {
      return;
    }
    FillLeaves(mm, pmdEnt, s, e, paddr, prop, root, roles', roles[pmdEnt.table].a, old(mm.mem.frames), first, run);
  }

  /**
   * The first step of `make_pgd_entry`: when the root entry is 0, a zeroed
   * kernel page becomes its PMD, linked with `PAGE_TABLE`; a non-zero entry
   * is left as it is. Either way the entry then points to PMD a and no
   * translation has changed. ok is false when the pool has no free page
   * (the failed assertion).
   */
  method EnsurePmd(mm: MemoryManager, pgdEnt: EntryPtr, ghost root: u64, ghost roles: map<u64, Role>)
      returns (ok: bool, ghost roles': map<u64, Role>)
    modifies mm.kernelPpool.btmp.bits, mm.mem
    requires Ready(mm, root, roles)
    requires pgdEnt.table == root && pgdEnt.index < 512
    ensures mm.Valid()
    ensures ok ==> Ready(mm, root, roles') && Extends(roles, roles')
    ensures ok ==> SameWalk(old(mm.mem.frames), mm.mem.frames, root)
    ensures ok ==> root in mm.mem.frames && |mm.mem.frames[root]| == 512
    ensures ok ==> var t := Child(mm.mem.frames, root, pgdEnt.index);
                   mm.mem.frames[root][pgdEnt.index] != 0 && t in roles' && roles'[t] == Pmd(pgdEnt.index)
    ensures old(mm.mem.frames[root][pgdEnt.index]) != 0 ==>
              ok && roles' == roles && mm.mem.frames == old(mm.mem.frames) && unchanged(mm.kernelPpool.btmp.bits)
  {
    ghost var a := pgdEnt.index;
    assert Tree(mm.mem.frames, root, roles);
    if mm.mem.Load(pgdEnt) != 0 {
      return true, roles;
    }
    var pmdPage := AllocTable(mm, root, roles);
    if pmdPage.None? {
      return false, roles;
    }
    LinkPmd(mm.mem.frames, Store(mm.mem.frames, root, a, MakeEntry(pmdPage.value, PAGE_TABLE)),
            root, roles, roles[pmdPage.value := Pmd(a)], a, pmdPage.value);
    mm.mem.SetEntry(pgdEnt, pmdPage.value, PAGE_TABLE);
    roles' := roles[pmdPage.value := Pmd(a)];
    ok := true;
  }

  /**
   * One chunk step of an aligned cursor v = s + k pages towards e: a chunk
   * end that is e or a multiple of size (itself a whole number of pages)
   * lies n pages further on, and when it is e the cursor has covered all
   * of [s, e).
   */
  lemma ChunkStep(s: u64, v: u64, next: u64, e: u64, size: nat, k: nat, n: nat, k2: nat, total: nat)
    requires s % PAGE_SIZE == 0 && e % PAGE_SIZE == 0 && v == s + k * PAGE_SIZE && v < next <= e
    requires size > 0 && size % PAGE_SIZE == 0 && (next < e ==> next % size == 0)
    requires n == (next - v) / PAGE_SIZE && k2 == k + n && total == (e - s) / PAGE_SIZE
    ensures v % PAGE_SIZE == 0 && next % PAGE_SIZE == 0
    ensures v / PAGE_SIZE == s / PAGE_SIZE + k
    ensures next - v == n * PAGE_SIZE && next == s + k2 * PAGE_SIZE
    ensures next == e ==> k2 == total
  {
    var sp := s / PAGE_SIZE;
    DivUnique(s, PAGE_SIZE, sp, 0);
    DivUnique(v, PAGE_SIZE, sp + k, 0);
    if next < e {
      var q := next / size;
      var r := size / PAGE_SIZE;
      DivUnique(size, PAGE_SIZE, r, 0);
      DivUnique(next, size, q, 0);
      DivUnique(next, PAGE_SIZE, q * r, 0);
    } else {
      DivUnique(e, PAGE_SIZE, e / PAGE_SIZE, 0);
    }
    var np := next / PAGE_SIZE;
    DivUnique(next, PAGE_SIZE, np, 0);
    DivUnique(next - v, PAGE_SIZE, np - sp - k, 0);
    if next == e {
      DivUnique(e - s, PAGE_SIZE, np - sp, 0);
    }
  }

  /**
   * A chunk of [s, e) starting at page k of s, inside the 1 GiB region idx
   * of s, lands where PMD entry VPN1(v) and PT index VPN0(v) place it: at
   * page s / 4096 + k.
   */
  lemma ChunkPlace(s: u64, v: u64, e: u64, idx: nat, b: nat, c: nat, k: nat, chunkFirst: nat)
    requires s % PAGE_SIZE == 0 && v == s + k * PAGE_SIZE && v < e <= 0x80_0000_0000
    requires idx == s / PGD_SIZE && (e - 1) / PGD_SIZE == s / PGD_SIZE
    requires b == v / PMD_SIZE % 512 && c == v / PAGE_SIZE % 512 && chunkFirst == RegionBase(idx, b) + c
    ensures chunkFirst == s / PAGE_SIZE + k
  {
    DivBetween(s, v, e - 1, PGD_SIZE);
    AddrRegion(v);
    DivUnique(s, PAGE_SIZE, s / PAGE_SIZE, s % PAGE_SIZE);
    DivUnique(v, PAGE_SIZE, s / PAGE_SIZE + k, 0);
  }

  /** A run of k leaves followed by the chunk of n leaves from page k is the run of k + n leaves. */
  lemma ChunkAppend(m0: Frames, m1: Frames, m2: Frames, root: u64, first: nat, k: nat, k2: nat,
                    paddr: u64, prop: u64, q: u64, n: nat, chunkFirst: nat)
    requires WritesRun(m0, m1, root, first, Leaves(paddr, k, prop))
    requires WritesRun(m1, m2, root, chunkFirst, Leaves(q, n, prop))
    requires chunkFirst == first + k && q == PageAddr(paddr, k) && k2 == k + n
    ensures WritesRun(m0, m2, root, first, Leaves(paddr, k2, prop))
  {
    LeavesAppend(paddr, k, n, k2, prop);
    WritesRunAppend(m0, m1, m2, root, first, Leaves(paddr, k, prop), Leaves(q, n, prop), chunkFirst);
  }

  /**
   * The chunk [v, ...) written through PMD entry b of PMD a, k pages into
   * [s, e), continues the run of leaves written so far.
   */
  lemma ChunkLands(m0: Frames, m1: Frames, m2: Frames, root: u64, s: u64, v: u64, e: u64, a: nat, b: nat,
                   k: nat, k2: nat, paddr: u64, prop: u64, q: u64, n: nat, chunk: seq<u64>, cf: nat, first: nat)
    requires s % PAGE_SIZE == 0 && v == s + k * PAGE_SIZE && v < e <= 0x80_0000_0000
    requires a == s / PGD_SIZE && (e - 1) / PGD_SIZE == s / PGD_SIZE && b == v / PMD_SIZE % 512
    requires WritesRun(m0, m1, root, first, Leaves(paddr, k, prop)) && first == s / PAGE_SIZE
    requires WritesRun(m1, m2, root, cf, chunk) && cf == RegionBase(a, b) + v / PAGE_SIZE % 512 && chunk == Leaves(q, n, prop)
    requires q == PageAddr(paddr, k) && k2 == k + n
    ensures WritesRun(m0, m2, root, first, Leaves(paddr, k2, prop))
  {
    ChunkPlace(s, v, e, a, b, v / PAGE_SIZE % 512, k, cf);
    ChunkAppend(m0, m1, m2, root, first, k, k2, paddr, prop, q, n, cf);
  }

  /** No translation changed is the empty run. */
  lemma SameWalkIsEmptyRun(m0: Frames, m1: Frames, root: u64, first: nat, paddr: u64, prop: u64)
    requires SameWalk(m0, m1, root)
    ensures WritesRun(m0, m1, root, first, Leaves(paddr, 0, prop))
  {
  }

  /**
   * One pass of the chunk loop of `make_pgd_entry`: the chunk [v, next),
   * k pages into [s, e), is mapped by `make_pmd_entry` through PMD entry
   * VPN1(v), which extends the run of leaves written so far by the n
   * leaves of the chunk.
   */
  method MapPmdChunk(mm: MemoryManager, pmdEnt: EntryPtr, v: u64, next: u64, currP: u64, prop: u64,
                     ghost root: u64, ghost roles: map<u64, Role>, ghost m0: Frames,
                     ghost s: u64, ghost e: u64, ghost paddr: u64, ghost k: nat, ghost k2: nat, ghost first: nat)
      returns (ok: bool, ghost roles': map<u64, Role>)
    modifies mm.kernelPpool.btmp.bits, mm.mem
    requires Ready(mm, root, roles) && pmdEnt.table in roles && roles[pmdEnt.table].Pmd? && pmdEnt.index < 512
    requires v % PAGE_SIZE == 0 && next % PAGE_SIZE == 0 && v < next && (next - 1) / PMD_SIZE == v / PMD_SIZE
    requires s % PAGE_SIZE == 0 && v == s + k * PAGE_SIZE && v < e <= 0x80_0000_0000
    requires roles[pmdEnt.table].a == s / PGD_SIZE && (e - 1) / PGD_SIZE == s / PGD_SIZE && pmdEnt.index == v / PMD_SIZE % 512
    requires WritesRun(m0, mm.mem.frames, root, first, Leaves(paddr, k, prop)) && first == s / PAGE_SIZE
    requires currP == PageAddr(paddr, k) && k2 == k + (next - v) / PAGE_SIZE
    ensures mm.Valid()
    ensures ok ==> Ready(mm, root, roles') && Extends(roles, roles')
    ensures ok ==> WritesRun(m0, mm.mem.frames, root, first, Leaves(paddr, k2, prop))
  {
    ghost var m1 := mm.mem.frames;
    ok, roles' := MakePmdEntry(mm, pmdEnt, v, next, currP, prop, root, roles,
                               RegionBase(roles[pmdEnt.table].a, pmdEnt.index) + v / PAGE_SIZE % 512,
                               Leaves(currP, (next - v) / PAGE_SIZE, prop));
    if ok {
      ChunkLands(m0, m1, mm.mem.frames, root, s, v, e, roles[pmdEnt.table].a, pmdEnt.index, k, k2, paddr, prop,
                 currP, (next - v) / PAGE_SIZE, Leaves(currP, (next - v) / PAGE_SIZE, prop),
                 RegionBase(roles[pmdEnt.table].a, pmdEnt.index) + v / PAGE_SIZE % 512, first);
    }
  }

  /**
   * The chunk loop of `make_pgd_entry`, as evidently intended: [s, e) is
   * mapped one 2 MiB chunk at a time with `make_pmd_entry`, each chunk
   * through the PMD entry of its own region, the next entry for the next
   * chunk, and the physical cursor advances with the virtual one.
   */
  method MapPmdRange(mm: MemoryManager, pmdEnt0: EntryPtr, s: u64, e: u64, paddr: u64, prop: u64,
                     ghost root: u64, ghost roles: map<u64, Role>, ghost idx: nat, ghost first: nat, ghost run: seq<u64>)
      returns (ok: bool, ghost roles': map<u64, Role>)
    modifies mm.kernelPpool.btmp.bits, mm.mem
    requires Ready(mm, root, roles) && pmdEnt0.table in roles && roles[pmdEnt0.table] == Pmd(idx)
    requires pmdEnt0.index == s / PMD_SIZE % 512 && idx == s / PGD_SIZE
    requires s % PAGE_SIZE == 0 && e % PAGE_SIZE == 0 && s < e <= 0x80_0000_0000
    requires (e - 1) / PGD_SIZE == s / PGD_SIZE
    requires first == s / PAGE_SIZE && run == Leaves(paddr, (e - s) / PAGE_SIZE, prop)
    ensures mm.Valid()
    ensures ok ==> Ready(mm, root, roles') && Extends(roles, roles')
    ensures ok ==> WritesRun(old(mm.mem.frames), mm.mem.frames, root, first, run)
  {
    ghost var m0 := mm.mem.frames;
    var pmdEnt := pmdEnt0;
    var currP := paddr;
    var currV := s;
    ghost var k: nat := 0;
    ghost var total: nat := (e - s) / PAGE_SIZE;
    roles' := roles;
    SameWalkIsEmptyRun(m0, m0, root, first, paddr, prop);
    PageAddrFacts(paddr, 0);
    while true
      invariant s <= currV < e && currV == s + k * PAGE_SIZE
      invariant currP == PageAddr(paddr, k)
      invariant pmdEnt.table == pmdEnt0.table && pmdEnt.index == currV / PMD_SIZE % 512
      invariant Ready(mm, root, roles') && Extends(roles, roles')
      invariant pmdEnt0.table in roles' && roles'[pmdEnt0.table] == Pmd(idx)
      invariant WritesRun(m0, mm.mem.frames, root, first, Leaves(paddr, k, prop))
      decreases e - currV
    {
      var next := GetMappingEnd(currV, e, false);
      PmdChunk(currV, e, next);
      ghost var n: nat := (next - currV) / PAGE_SIZE;
      ghost var k2: nat := k + n;
      ChunkStep(s, currV, next, e, PMD_SIZE, k, n, k2, total);
      var chunkOk;
      chunkOk, roles' := MapPmdChunk(mm, pmdEnt, currV, next, currP, prop, root, roles', m0, s, e, paddr, k, k2, first);
      if !chunkOk {
        return false, roles';
      }
      PageAddrStep(paddr, k, n, k2);
      currP := Add(currP, next - currV);
      if next < e {
        NextPmdIndex(s, currV, next, e, pmdEnt.index);
      }
      pmdEnt := EntryPtr(pmdEnt.table, pmdEnt.index + 1);
      k := k2;
      if !(next < e) {
        break;
      }
      currV := next;
    }
    ok := true;
  }

  /**
   * `make_pgd_entry` as evidently intended: it makes sure the root entry
   * points to a PMD (EnsurePmd), then maps [s, e) chunk by chunk from the
   * PMD entry of s on (MapPmdRange). The range lies inside the 1 GiB
   * region of pgdEnt. The translation of exactly the pages of [s, e)
   * changes, to consecutive physical pages from paddr.
   */
  method MakePgdEntry(mm: MemoryManager, pgdEnt: EntryPtr, s: u64, e: u64, paddr: u64, prop: u64,
                      ghost root: u64, ghost roles: map<u64, Role>, ghost first: nat, ghost run: seq<u64>)
      returns (ok: bool, ghost roles': map<u64, Role>)
    modifies mm.kernelPpool.btmp.bits, mm.mem
    requires Ready(mm, root, roles)
    requires pgdEnt.table == root && pgdEnt.index == s / PGD_SIZE
    requires s % PAGE_SIZE == 0 && e % PAGE_SIZE == 0 && s < e <= 0x80_0000_0000
    requires (e - 1) / PGD_SIZE == s / PGD_SIZE
    requires first == s / PAGE_SIZE && run == Leaves(paddr, (e - s) / PAGE_SIZE, prop)
    ensures mm.Valid()
    ensures ok ==> Ready(mm, root, roles') && Extends(roles, roles')
    ensures ok ==> WritesRun(old(mm.mem.frames), mm.mem.frames, root, first, run)
  {
    DivLt(s, PGD_SIZE, 512);
    ghost var roles1;
    ok, roles1 := EnsurePmd(mm, pgdEnt, root, roles);
    if !ok {
      return false, roles1;
    }
    var pmdEnt := mm.mem.EntryBelow(pgdEnt, GetVpn(s, 1).value);
    ghost var m1 := mm.mem.frames;
    ok, roles' := MapPmdRange(mm, pmdEnt, s, e, paddr, prop, root, roles1, pgdEnt.index, first, run);
    if ok {
      WritesRunAfterSame(old(mm.mem.frames), m1, mm.mem.frames, root, first, run);
    }
  }

  /**
   * The chunk loop of `make_pgd_entry` as written: the loop steps `pgd_ent` and never
   * `pmd_ent`, so every chunk goes through the PMD entry of s, and every chunk after
   * the first lands in the PT of the 2 MiB region of s, from entry VPN0 of the chunk
   * on. The last chunk [lastV, e) is written, over the frames mid before it, as the
   * leaves of n pages from frame q, from page `cf` on: page `base` is the first page of the region of s.
   * lastV is the start of the 2 MiB region of e - 1 whenever the range crosses a
   * 2 MiB boundary.
   */
  method MapPmdRangeAsWritten(mm: MemoryManager, pmdEnt: EntryPtr, s: u64, e: u64, paddr: u64, prop: u64,
                              ghost root: u64, ghost roles: map<u64, Role>, ghost idx: nat, ghost base: nat)
      returns (ok: bool, ghost roles': map<u64, Role>, ghost lastV: u64, ghost mid: Frames,
               ghost cf: nat, ghost k: nat, ghost q: u64, ghost n: nat)
    modifies mm.kernelPpool.btmp.bits, mm.mem
    requires Ready(mm, root, roles) && pmdEnt.table in roles && roles[pmdEnt.table] == Pmd(idx)
    requires pmdEnt.index == s / PMD_SIZE % 512 && idx == s / PGD_SIZE && base == RegionBase(idx, pmdEnt.index)
    requires s % PAGE_SIZE == 0 && e % PAGE_SIZE == 0 && s < e <= 0x80_0000_0000
    requires (e - 1) / PGD_SIZE == s / PGD_SIZE
    ensures mm.Valid()
    ensures s <= lastV < e && lastV % PAGE_SIZE == 0 && (lastV == s || lastV % PMD_SIZE == 0)
    ensures lastV == s ==> mid == old(mm.mem.frames)
    ensures ok ==> Ready(mm, root, roles') && Extends(roles, roles') && (e - 1) / PMD_SIZE == lastV / PMD_SIZE
    ensures ok ==> cf == base + lastV / PAGE_SIZE % 512
    ensures ok ==> lastV == s + k * PAGE_SIZE && q == PageAddr(paddr, k) && n == (e - lastV) / PAGE_SIZE
    ensures ok ==> WritesRun(mid, mm.mem.frames, root, cf, Leaves(q, n, prop))
  {
    var currP := paddr;
    var currV := s;
    k := 0;
    roles' := roles;
    PageAddrFacts(paddr, 0);
    while true
      invariant s <= currV < e && currV % PAGE_SIZE == 0 && currV == s + k * PAGE_SIZE
      invariant currV == s || currV % PMD_SIZE == 0
      invariant currV == s ==> mm.mem.frames == old(mm.mem.frames)
      invariant currP == PageAddr(paddr, k)
      invariant Ready(mm, root, roles') && Extends(roles, roles')
      invariant pmdEnt.table in roles' && roles'[pmdEnt.table] == Pmd(idx)
      decreases e - currV
    {
      var next := GetMappingEnd(currV, e, false);
      PmdChunk(currV, e, next);
      n := (next - currV) / PAGE_SIZE;
      ghost var k2: nat := k + n;
      ChunkStep(s, currV, next, e, PMD_SIZE, k, n, k2, (e - s) / PAGE_SIZE);
      lastV, mid, cf, q := currV, mm.mem.frames, base + currV / PAGE_SIZE % 512, currP;
      ok, roles' := MakePmdEntry(mm, pmdEnt, currV, next, currP, prop, root, roles', cf, Leaves(q, n, prop));
      if !ok {
        return;
      }
      if !(next < e) {
        break;
      }
      PageAddrStep(paddr, k, n, k2);
      currP := Add(currP, next - currV);
      currV := next;
      k := k2;
    }
  }

  /**
   * `make_pgd_entry` as written: EnsurePmd, then the chunk loop above from the PMD
   * entry of s, which it never leaves.
   */
  method MakePgdEntryAsWritten(mm: MemoryManager, pgdEnt: EntryPtr, s: u64, e: u64, paddr: u64, prop: u64,
                               ghost root: u64, ghost roles: map<u64, Role>)
      returns (ok: bool, ghost roles': map<u64, Role>, ghost lastV: u64, ghost mid: Frames,
               ghost cf: nat, ghost k: nat, ghost q: u64, ghost n: nat)
    modifies mm.kernelPpool.btmp.bits, mm.mem
    requires Ready(mm, root, roles)
    requires pgdEnt.table == root && pgdEnt.index == s / PGD_SIZE
    requires s % PAGE_SIZE == 0 && e % PAGE_SIZE == 0 && s < e <= 0x80_0000_0000
    requires (e - 1) / PGD_SIZE == s / PGD_SIZE
    ensures mm.Valid()
    ensures s <= lastV < e && lastV % PAGE_SIZE == 0 && (lastV == s || lastV % PMD_SIZE == 0)
    ensures ok && lastV == s ==> SameWalk(old(mm.mem.frames), mid, root)
    ensures ok ==> Ready(mm, root, roles') && Extends(roles, roles') && (e - 1) / PMD_SIZE == lastV / PMD_SIZE
    ensures ok ==> cf == RegionBase(s / PGD_SIZE, s / PMD_SIZE % 512) + lastV / PAGE_SIZE % 512
    ensures ok ==> lastV == s + k * PAGE_SIZE && q == PageAddr(paddr, k) && n == (e - lastV) / PAGE_SIZE
    ensures ok ==> WritesRun(mid, mm.mem.frames, root, cf, Leaves(q, n, prop))
  {
    DivLt(s, PGD_SIZE, 512);
    lastV, mid, cf, k, q, n := s, mm.mem.frames, 0, 0, 0, 0;
    ghost var roles1;
    ok, roles1 := EnsurePmd(mm, pgdEnt, root, roles);
    if !ok {
      return false, roles1, lastV, mid, cf, k, q, n;
    }
    var pmdEnt := mm.mem.EntryBelow(pgdEnt, GetVpn(s, 1).value);
    ok, roles', lastV, mid, cf, k, q, n := MapPmdRangeAsWritten(mm, pmdEnt, s, e, paddr, prop, root, roles1, pgdEnt.index,
                                                           RegionBase(s / PGD_SIZE, s / PMD_SIZE % 512));
  }

  /**
   * The counterexample to `make_pgd_entry` as written: [0x1F_F000, 0x20_1000) crosses the
   * 2 MiB boundary at 0x20_0000. Whatever the postcondition of MakePgdEntryAsWritten lets
   * the tables be when ok, the second page is mapped at virtual page 0 (entry 0 of the PT
   * of region 0) instead of page 0x200, so unless page 0 already held that leaf the
   * intended run from page 0x1FF is not what happened.
   */
  lemma MakePgdEntryAsWrittenMisplaces(m0: Frames, mid: Frames, m: Frames, root: u64, paddr: u64, prop: u64,
                                       lastV: u64, cf: nat, k: nat, q: u64, n: nat)
    requires 0x1F_F000 <= lastV < 0x20_1000 && lastV % PAGE_SIZE == 0 && (lastV == 0x1F_F000 || lastV % PMD_SIZE == 0)
    requires (0x20_1000 - 1) / PMD_SIZE == lastV / PMD_SIZE
    requires cf == RegionBase(0x1F_F000 / PGD_SIZE, 0x1F_F000 / PMD_SIZE % 512) + lastV / PAGE_SIZE % 512
    requires lastV == 0x1F_F000 + k * PAGE_SIZE && q == PageAddr(paddr, k) && n == (0x20_1000 - lastV) / PAGE_SIZE
    requires WritesRun(mid, m, root, cf, Leaves(q, n, prop))
    requires Walk(m0, root, 0) != MakeEntry(PageAddr(paddr, 1), prop)
    ensures !WritesRun(m0, m, root, 0x1F_F000 / PAGE_SIZE, Leaves(paddr, (0x20_1000 - 0x1F_F000) / PAGE_SIZE, prop))
  {
    assert lastV == 0x20_0000 && k == 1 && cf == 0 && n == 1;
    LeavesAt(q, 1, prop, 0);
    PageAddrFacts(q, 0);
    assert Walk(m, root, 0) == MakeEntry(PageAddr(paddr, 1), prop);
  }

  /**
   * One pass of the chunk loop of `create_mapping`: the chunk [v, next) inside one
   * 1 GiB region is mapped with `make_pgd_entry` through root entry VPN2(v), k pages
   * into the run from paddr, so the run grows to k2 pages.
   */
  method MapPgdChunk(mm: MemoryManager, pgdEnt: EntryPtr, v: u64, next: u64, currP: u64, prop: u64,
                     ghost root: u64, ghost roles: map<u64, Role>, ghost m0: Frames,
                     ghost s: u64, ghost paddr: u64, ghost k: nat, ghost k2: nat, ghost first: nat)
      returns (ok: bool, ghost roles': map<u64, Role>)
    modifies mm.kernelPpool.btmp.bits, mm.mem
    requires Ready(mm, root, roles) && pgdEnt.table == root && pgdEnt.index == v / PGD_SIZE
    requires v % PAGE_SIZE == 0 && next % PAGE_SIZE == 0 && v < next <= 0x80_0000_0000
    requires (next - 1) / PGD_SIZE == v / PGD_SIZE
    requires WritesRun(m0, mm.mem.frames, root, first, Leaves(paddr, k, prop)) && first + k == v / PAGE_SIZE
    requires currP == PageAddr(paddr, k) && k2 == k + (next - v) / PAGE_SIZE
    ensures mm.Valid()
    ensures ok ==> Ready(mm, root, roles') && Extends(roles, roles')
    ensures ok ==> WritesRun(m0, mm.mem.frames, root, first, Leaves(paddr, k2, prop))
  {
    ghost var m1 := mm.mem.frames;
    ok, roles' := MakePgdEntry(mm, pgdEnt, v, next, currP, prop, root, roles,
                               v / PAGE_SIZE, Leaves(currP, (next - v) / PAGE_SIZE, prop));
    if ok {
      ChunkAppend(m0, m1, mm.mem.frames, root, first, k, k2, paddr, prop, currP, (next - v) / PAGE_SIZE, v / PAGE_SIZE);
    }
  }

  /**
   * The page-aligned range `create_mapping` maps: from the page holding vaddr up to the
   * first page boundary at or above vaddr + size. It is not empty and, for a request
   * inside the 39-bit space, ends inside it.
   */
  lemma AlignedRange(vaddr: u64, size: u64, s: u64, e: u64)
    requires 0 < size && vaddr + size <= 0x80_0000_0000
    requires s == PageAlign(vaddr, false) && e == PageAlign(vaddr + size, true)
    ensures s % PAGE_SIZE == 0 && e % PAGE_SIZE == 0 && s <= vaddr < vaddr + size <= e <= 0x80_0000_0000
    ensures s / PGD_SIZE < 512 && s / PGD_SIZE % 512 == s / PGD_SIZE
  {
    DivUnique(e, PAGE_SIZE, e / PAGE_SIZE, 0);
    DivLt(s, PGD_SIZE, 512);
  }

  /** Every byte of [vaddr, vaddr + size) lies in one of the pages `create_mapping` maps. */
  lemma AlignedRangeCovers(vaddr: u64, size: u64, a: nat)
    requires 0 < size && vaddr + size <= 0x80_0000_0000 && vaddr <= a < vaddr + size
    ensures var s := PageAlign(vaddr, false);
            var e := PageAlign(vaddr + size, true);
            s / PAGE_SIZE <= a / PAGE_SIZE < s / PAGE_SIZE + (e - s) / PAGE_SIZE
  {
    var s := PageAlign(vaddr, false);
    var e := PageAlign(vaddr + size, true);
    AlignedRange(vaddr, size, s, e);
    DivUnique(s, PAGE_SIZE, s / PAGE_SIZE, 0);
    DivUnique(e, PAGE_SIZE, e / PAGE_SIZE, 0);
    DivUnique(e - s, PAGE_SIZE, e / PAGE_SIZE - s / PAGE_SIZE, 0);
    DivBounds(a, PAGE_SIZE);
  }

  /**
   * The chunk loop of `create_mapping`: the aligned range [s, e) is cut at every 1 GiB
   * boundary and each chunk is mapped with `make_pgd_entry` through its own root entry,
   * the next entry for the next chunk, the physical cursor moving with the virtual one.
   */
  method MapPgdRange(mm: MemoryManager, pgd: u64, s: u64, e: u64, paddr: u64, prop: u64,
                     ghost roles: map<u64, Role>, ghost first: nat, ghost run: seq<u64>)
      returns (ok: bool, ghost roles': map<u64, Role>)
    modifies mm.kernelPpool.btmp.bits, mm.mem
    requires Ready(mm, pgd, roles)
    requires s % PAGE_SIZE == 0 && e % PAGE_SIZE == 0 && s < e <= 0x80_0000_0000 && s / PGD_SIZE < 512
    requires first == s / PAGE_SIZE && run == Leaves(paddr, (e - s) / PAGE_SIZE, prop)
    ensures mm.Valid()
    ensures ok ==> Ready(mm, pgd, roles') && Extends(roles, roles')
    ensures ok ==> WritesRun(old(mm.mem.frames), mm.mem.frames, pgd, first, run)
  {
    var currP := paddr;
    var currV := s;
    var pgdEnt := EntryPtr(pgd, s / PGD_SIZE);
    ghost var m0 := mm.mem.frames;
    ghost var k: nat := 0;
    ghost var total: nat := (e - s) / PAGE_SIZE;
    roles' := roles;
    SameWalkIsEmptyRun(m0, m0, pgd, first, paddr, prop);
    PageAddrFacts(paddr, 0);
    while true
      invariant s <= currV < e && currV == s + k * PAGE_SIZE
      invariant currP == PageAddr(paddr, k)
      invariant pgdEnt.table == pgd && pgdEnt.index == currV / PGD_SIZE
      invariant Ready(mm, pgd, roles') && Extends(roles, roles')
      invariant WritesRun(m0, mm.mem.frames, pgd, first, Leaves(paddr, k, prop))
      decreases e - currV
    {
      var next := GetMappingEnd(currV, e, true);
      PgdChunk(currV, e, next);
      ghost var n: nat := (next - currV) / PAGE_SIZE;
      ghost var k2: nat := k + n;
      ChunkStep(s, currV, next, e, PGD_SIZE, k, n, k2, total);
      var chunkOk;
      chunkOk, roles' := MapPgdChunk(mm, pgdEnt, currV, next, currP, prop, pgd, roles', m0, s, paddr, k, k2, first);
      if !chunkOk {
        return false, roles';
      }
      PageAddrStep(paddr, k, n, k2);
      currP := Add(currP, next - currV);
      if next < e {
        NextPgdIndex(currV, next, pgdEnt.index);
      }
      pgdEnt := EntryPtr(pgd, pgdEnt.index + 1);
      k := k2;
      if !(next < e) {
        break;
      }
      currV := next;
    }
    ok := true;
  }

  /**
   * `create_mapping`: maps [PageAlign(vaddr, false), PageAlign(vaddr + size, true)),
   * the physical cursor starting at PageAlign(paddr, false), with the chunk loop
   * above from root entry VPN2 of the start. Afterwards exactly the pages of that range
   * translate to consecutive frames with the given properties, and no other
   * translation changed. size == 0 fails the assertion: ok is false then and nothing
   * is written. ok is false as well when a table page could not be allocated.
   */
  method CreateMapping(mm: MemoryManager, pgd: u64, vaddr: u64, paddr: u64, size: u64, prop: u64,
                       ghost roles: map<u64, Role>)
      returns (ok: bool, ghost roles': map<u64, Role>)
    modifies mm.kernelPpool.btmp.bits, mm.mem
    requires Ready(mm, pgd, roles)
    requires vaddr + size <= 0x80_0000_0000
    ensures mm.Valid()
    ensures size == 0 ==> !ok && mm.mem.frames == old(mm.mem.frames)
    ensures ok ==> Ready(mm, pgd, roles') && Extends(roles, roles')
    ensures ok ==> WritesRun(old(mm.mem.frames), mm.mem.frames, pgd, PageAlign(vaddr, false) / PAGE_SIZE,
                             Leaves(PageAlign(paddr, false),
                                    (PageAlign(vaddr + size, true) - PageAlign(vaddr, false)) / PAGE_SIZE, prop))
  {
    if size == 0 {
      return false, roles;
    }
    var currP := PageAlign(paddr, false);
    var currV := PageAlign(vaddr, false);
    var endV := PageAlign(Add(vaddr, size), true);
    AlignedRange(vaddr, size, currV, endV);
    ok, roles' := MapPgdRange(mm, pgd, currV, endV, currP, prop, roles,
                              PageAlign(vaddr, false) / PAGE_SIZE,
                              Leaves(PageAlign(paddr, false), (PageAlign(vaddr + size, true) - PageAlign(vaddr, false)) / PAGE_SIZE, prop));
  }

  /**
   * Where `make_pgd_entry` as written is right: when [s, e) lies inside one 2 MiB region
   * there is a single chunk, and whatever the postcondition of MakePgdEntryAsWritten lets
   * the tables be when ok, exactly the pages of [s, e) map to consecutive frames from
   * paddr, as for MakePgdEntry.
   */
  lemma MakePgdEntryAsWrittenInOneRegion(m0: Frames, mid: Frames, m: Frames, root: u64, s: u64, e: u64,
                                         paddr: u64, prop: u64, lastV: u64, cf: nat, k: nat, q: u64, n: nat)
    requires s % PAGE_SIZE == 0 && s < e <= 0x80_0000_0000 && (e - 1) / PMD_SIZE == s / PMD_SIZE
    requires s <= lastV < e && (lastV == s || lastV % PMD_SIZE == 0)
    requires lastV == s ==> SameWalk(m0, mid, root)
    requires cf == RegionBase(s / PGD_SIZE, s / PMD_SIZE % 512) + lastV / PAGE_SIZE % 512
    requires lastV == s + k * PAGE_SIZE && q == PageAddr(paddr, k) && n == (e - lastV) / PAGE_SIZE
    requires WritesRun(mid, m, root, cf, Leaves(q, n, prop))
    ensures WritesRun(m0, m, root, s / PAGE_SIZE, Leaves(paddr, (e - s) / PAGE_SIZE, prop))
  {
    if lastV % PMD_SIZE == 0 {
      DivBetween(s, lastV, e - 1, PMD_SIZE);
      DivUnique(lastV, PMD_SIZE, lastV / PMD_SIZE, 0);
      DivBounds(s, PMD_SIZE);
    }
    assert lastV == s && k == 0;
    PageAddrFacts(paddr, 0);
    AddrRegion(s);
    assert cf == s / PAGE_SIZE && q == paddr && n == (e - s) / PAGE_SIZE;
    WritesRunAfterSame(m0, mid, m, root, cf, Leaves(q, n, prop));
  }
}
