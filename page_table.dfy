/** The AArch64 four-level page tables of the kernel (VMSAv8-64 translation
    tables with a 4 KB granule): each level indexes a 512-entry table page
    with 9 bits of the virtual address above the 12-bit page offset.

    Physical memory is seen only through the table pages: `tables` maps the
    frame number of every page-table page to its 512 descriptors, and the
    pages that `get_pages(0)` would hand out are an explicit supply of frame
    numbers.  A descriptor keeps the fields the kernel reads or writes: the
    valid bit (bit 0), the table/page bit (bit 1), the 36-bit address field
    (bits 12 to 47, a frame number) and the attribute fields. */
module PageTable {
  import opened Common

  const PTP_ENTRIES: nat := 512
  const PAGE_SIZE: nat := 0x1000
  const L2_PAGE_SIZE: nat := 0x20_0000
  /** 2^36: values of the address field at bits 12 to 47. */
  const PFN_LIMIT: nat := 0x10_0000_0000
  /** 2^27: values of the block address field at bits 21 to 47. */
  const BLOCK_PFN_LIMIT: nat := 0x800_0000

  /** Permission bits of a virtual memory region (vmr_prop_t). */
  const VMR_WRITE: nat := 2
  const VMR_EXEC: nat := 4

  /** The `kind` argument of set_pte_flags. */
  const USER_PTE: int := 0
  const KERNEL_PTE: int := 1

  /** Field values of a descriptor: AP[2:1] for kernel-and-user read-write and
      for kernel-and-user read-only, inner shareable, and the MAIR index of
      normal memory. */
  const AP_HIGH_RW_EL0_RW: nat := 1
  const AP_HIGH_RO_EL0_RO: nat := 3
  const INNER_SHAREABLE: nat := 3
  const NORMAL_MEMORY: nat := 4

  datatype Attrs = Attrs(attrIndex: nat, ap: nat, sh: nat, af: bool, pxn: bool, uxn: bool)

  /** One 64-bit descriptor.  `table` is bit 1: set in a table descriptor and in
      a level-3 page descriptor, clear in a block descriptor.  `addr` is the
      36-bit field at bits 12 to 47: `next_table_addr` of a table descriptor,
      the frame number of a page, and for a 2 MiB block its `pfn` field
      (bits 21 to 47) times 512 plus whatever bits 12 to 20 hold. */
  datatype Entry = Entry(valid: bool, table: bool, addr: nat, attrs: Attrs)

  const NO_ATTRS := Attrs(0, 0, 0, false, false, false)
  /** The descriptor whose 64 bits are all zero. */
  const ZERO_PTE := Entry(false, false, 0, NO_ATTRS)

  type Table = t: seq<Entry> | |t| == PTP_ENTRIES witness seq(512, _ => ZERO_PTE)

  /** A pointer to one descriptor: the table page it lies in and its index. */
  datatype Slot = Slot(frame: nat, index: nat)

  /** The int codes the walk returns, and two outcomes the C code has no code
      for: `Halted` when BUG_ON stops the kernel, `Wild` when the walk reads a
      page that is not a page-table page. */
  datatype Code = Ok | BlockPtp | NoMapping | Halted | Wild

  /** What get_next_ptp reports: NORMAL_PTP or BLOCK_PTP (`isTable` tells
      which) with the next table pointer and the descriptor pointer, or an
      error. */
  datatype PtpResult = Ptp(isTable: bool, next: nat, pte: Slot) | PtpError(code: Code)

  /** What the two query functions report: the address they store through
      `pa` and the descriptor they store through `entry`, or an error. */
  datatype QueryResult = Found(pa: nat, pte: Slot) | QueryError(code: Code)

  predicate HasFlag(flags: nat, bit: nat)
    requires bit > 0
  {
    (flags / bit) % 2 == 1
  }

  /** The fields a walk looks at. */
  predicate SameWalk(e1: Entry, e2: Entry)
  {
    e1.valid == e2.valid && e1.table == e2.table && e1.addr == e2.addr
  }

  /** set_pte_flags: access permission from VMR_WRITE, user execute-never
      unless VMR_EXEC, privileged execute-never for user descriptors, and the
      access flag, inner shareability and normal memory type always. */
  function SetPteFlags(e: Entry, flags: nat, kind: int): (r: Entry)
    ensures SameWalk(r, e)
    ensures r.attrs.ap == (if HasFlag(flags, VMR_WRITE) then AP_HIGH_RW_EL0_RW else AP_HIGH_RO_EL0_RO)
    ensures r.attrs.uxn <==> !HasFlag(flags, VMR_EXEC)
    ensures r.attrs.pxn <==> kind == USER_PTE || e.attrs.pxn
    ensures r.attrs.af && r.attrs.sh == INNER_SHAREABLE && r.attrs.attrIndex == NORMAL_MEMORY
  {
    var ap := if HasFlag(flags, VMR_WRITE) then AP_HIGH_RW_EL0_RW else AP_HIGH_RO_EL0_RO;
    var uxn := !HasFlag(flags, VMR_EXEC);
    var pxn := if kind == USER_PTE then true else e.attrs.pxn;
    e.(attrs := Attrs(NORMAL_MEMORY, ap, INNER_SHAREABLE, true, pxn, uxn))
  }

  /** The level-3 descriptor map_range_in_pgtbl leaves behind for a page. */
  function PageEntry(pfn: nat, flags: nat): Entry
  {
    SetPteFlags(Entry(true, true, pfn, NO_ATTRS), flags, USER_PTE)
  }

  /** The table descriptor get_next_ptp installs for a new table page. */
  function TableEntry(frame: nat): Entry
  {
    Entry(true, true, frame % PFN_LIMIT, NO_ATTRS)
  }

  function EmptyTable(): Table
  {
    seq(PTP_ENTRIES, _ => ZERO_PTE)
  }

  /** Bytes covered by one entry of a level-`level` table: 2^(39 - 9*level). */
  function LevelSize(level: nat): (r: nat)
    requires level <= 3
    ensures r > 0
  {
    if level == 0 then 0x80_0000_0000
    else if level == 1 then 0x4000_0000
    else if level == 2 then 0x20_0000
    else 0x1000
  }

  /** 512^(level + 1): the number of level-`level` regions in the 48-bit space. */
  function RegionCount(level: nat): (r: nat)
    requires level <= 3
    ensures r > 0
  {
    if level == 0 then 0x200
    else if level == 1 then 0x4_0000
    else if level == 2 then 0x800_0000
    else 0x10_0000_0000
  }

  /** GET_Lx_INDEX: bits 39-47, 30-38, 21-29 or 12-20 of va. */
  function Index(va: nat, level: nat): (r: nat)
    requires level <= 3
    ensures r < PTP_ENTRIES
  {
    (va / LevelSize(level)) % PTP_ENTRIES
  }

  /** The number of the region of size LevelSize(level) that va lies in,
      within the 48-bit space the four indices cover: the virtual page number
      for level 3, the 2 MiB block number for level 2. */
  function Region(va: nat, level: nat): nat
    requires level <= 3
  {
    (va / LevelSize(level)) % RegionCount(level)
  }

  /** The address of the i-th page of a range: `va += size` i times in u64. */
  function Advance(va: nat, i: nat, size: nat): nat
  {
    (va + i * size) % U64_LIMIT
  }

  /** `n_pages = len / size` stored in an int. */
  function NPages(len: nat, size: nat): int
    requires size > 0
  {
    ToInt32(len / size)
  }

  /** `pa >> 12` stored in the 36-bit pfn field of a page descriptor. */
  function PagePfn(pa: nat): nat
  {
    (pa / PAGE_SIZE) % PFN_LIMIT
  }

  /** `pa >> 21` stored in the 27-bit pfn field of a block descriptor. */
  function BlockPfn(pa: nat): nat
  {
    (pa / L2_PAGE_SIZE) % BLOCK_PFN_LIMIT
  }

  /** get_next_ptp without allocation: the entry of `cur` that va selects at
      this level.  A cur_ptp that is not a page-table page is `Wild`. */
  function NextPtp(tables: map<nat, Table>, cur: Option<nat>, level: nat, va: nat): (r: PtpResult)
    requires level <= 3
    ensures r.PtpError? ==> r.code == NoMapping || r.code == Wild
    ensures r.Ptp? ==> cur.Some? && cur.value in tables && r.pte == Slot(cur.value, Index(va, level))
  {
    if cur.None? then PtpError(NoMapping)
    else if cur.value !in tables then PtpError(Wild)
    else
      var index := Index(va, level);
      var e := tables[cur.value][index];
      if !e.valid then PtpError(NoMapping)
      else Ptp(e.table, e.addr, Slot(cur.value, index))
  }

  /** `if (err) return err;` after a call of get_next_ptp. */
  function Failure(r: PtpResult): Code
  {
    if r.PtpError? then r.code else BlockPtp
  }

  /** query_in_pgtbl: four levels, any error or block ends the walk, and the
      result is the pfn field of the level-3 descriptor (not an address). */
  function QueryInPgtbl(tables: map<nat, Table>, pgtbl: Option<nat>, va: nat): QueryResult
  {
    var r0 := NextPtp(tables, pgtbl, 0, va);
    if !(r0.Ptp? && r0.isTable) then QueryError(Failure(r0)) else
    var r1 := NextPtp(tables, Some(r0.next), 1, va);
    if !(r1.Ptp? && r1.isTable) then QueryError(Failure(r1)) else
    var r2 := NextPtp(tables, Some(r1.next), 2, va);
    if !(r2.Ptp? && r2.isTable) then QueryError(Failure(r2)) else
    var r3 := NextPtp(tables, Some(r2.next), 3, va);
    if !(r3.Ptp? && r3.isTable) then QueryError(Failure(r3)) else
    Found(r3.next, r3.pte)
  }

  /** query_in_pgtbl_level: level 0 must be a table; below it only errors stop
      the walk, and a block is walked through as if it were a table.  Level 3
      yields the page pfn, level 2 the address inside a 2 MiB block, level 1
      the 1 GiB block pfn; any other level is BUG_ON. */
  function QueryInPgtblLevel(tables: map<nat, Table>, pgtbl: Option<nat>, va: nat, level: nat): QueryResult
  {
    var r0 := NextPtp(tables, pgtbl, 0, va);
    if !(r0.Ptp? && r0.isTable) then QueryError(Failure(r0))
    else if level == 3 then
      var r1 := NextPtp(tables, Some(r0.next), 1, va);
      if r1.PtpError? then QueryError(r1.code) else
      var r2 := NextPtp(tables, Some(r1.next), 2, va);
      if r2.PtpError? then QueryError(r2.code) else
      var r3 := NextPtp(tables, Some(r2.next), 3, va);
      if r3.PtpError? then QueryError(r3.code) else
      Found(r3.next, r3.pte)
    else if level == 2 then
      var r1 := NextPtp(tables, Some(r0.next), 1, va);
      if r1.PtpError? then QueryError(r1.code) else
      var r2 := NextPtp(tables, Some(r1.next), 2, va);
      if r2.PtpError? then QueryError(r2.code) else
      Found((r2.next / PTP_ENTRIES) * L2_PAGE_SIZE + va % L2_PAGE_SIZE, r2.pte)
    else if level == 1 then
      var r1 := NextPtp(tables, Some(r0.next), 1, va);
      if r1.PtpError? then QueryError(r1.code) else
      Found(r1.next / 0x4_0000, r1.pte)
    else
      QueryError(Halted)
  }

  // ---------------------------------------------------------------------
  // The translation a walk performs, as a specification.

  /** One step down from table `cur` towards va, if the entry is a valid
      table descriptor naming a page-table page. */
  function Step(tables: map<nat, Table>, cur: Option<nat>, level: nat, va: nat): (r: Option<nat>)
    requires level <= 3
    ensures r.Some? ==> r.value in tables
  {
    var p := NextPtp(tables, cur, level, va);
    if p.Ptp? && p.isTable && p.next in tables then Some(p.next) else None
  }

  /** The level-`level` table on va's path from `root`, if every entry above
      it is a table descriptor. */
  function PathTable(tables: map<nat, Table>, root: nat, va: nat, level: nat): (r: Option<nat>)
    requires level <= 3
    ensures r.Some? ==> r.value in tables
    decreases level
  {
    if level == 0 then (if root in tables then Some(root) else None)
    else Step(tables, PathTable(tables, root, va, level - 1), level - 1, va)
  }

  /** The level-`level` descriptor that translates va is e. */
  predicate MapsAt(tables: map<nat, Table>, root: nat, va: nat, level: nat, e: Entry)
    requires level <= 3
  {
    var t := PathTable(tables, root, va, level);
    t.Some? && tables[t.value][Index(va, level)] == e
  }

  /** Every table page is reached from at most one descriptor, one level
      below it, and the first two levels hold no block descriptors.  `depth`
      is the level of each table page (0 for a root) and `parent` the
      descriptor that names it. */
  ghost predicate Wf(tables: map<nat, Table>, depth: map<nat, nat>, parent: map<nat, Slot>)
  {
    depth.Keys == tables.Keys &&
    (forall f, x | f in tables && depth[f] < 2 && 0 <= x < PTP_ENTRIES && tables[f][x].valid ::
       tables[f][x].table) &&
    (forall f, x | f in tables && depth[f] < 3 && 0 <= x < PTP_ENTRIES && tables[f][x].valid && tables[f][x].table ::
       tables[f][x].addr in tables && depth[tables[f][x].addr] == depth[f] + 1 &&
       tables[f][x].addr in parent && parent[tables[f][x].addr] == Slot(f, x))
  }

  ghost predicate IsRoot(tables: map<nat, Table>, depth: map<nat, nat>, root: nat)
  {
    root in tables && root in depth && depth[root] == 0
  }

  /** The frames still to hand out are distinct, below 2^36 and not tables. */
  ghost predicate FreshSupply(tables: map<nat, Table>, frames: seq<nat>)
  {
    (forall i | 0 <= i < |frames| :: frames[i] !in tables && frames[i] < PFN_LIMIT) &&
    (forall i, j | 0 <= i < j < |frames| :: frames[i] != frames[j])
  }

  /** tables2 is tables1 with at most descriptor x of table f changed and
      possibly new table pages added. */
  ghost predicate UnchangedExcept(tables1: map<nat, Table>, tables2: map<nat, Table>, f: nat, x: nat)
  {
    f in tables1 && f in tables2 && x < PTP_ENTRIES &&
    (forall g | g in tables1 :: g in tables2) &&
    (forall g | g in tables1 && g != f :: tables2[g] == tables1[g]) &&
    (forall y | 0 <= y < PTP_ENTRIES && y != x :: tables2[f][y] == tables1[f][y])
  }

  // ---------------------------------------------------------------------
  // Index arithmetic.

  /** The region number at a level is the one a level up, then this level's index. */
  lemma RegionDigits(va: nat, level: nat)
    requires 1 <= level <= 3
    ensures Region(va, level) == Region(va, level - 1) * PTP_ENTRIES + Index(va, level)
  {
    var y := va / LevelSize(level);
    assert LevelSize(level - 1) == LevelSize(level) * PTP_ENTRIES;
    assert RegionCount(level) == PTP_ENTRIES * RegionCount(level - 1);
    ModSplit(va, LevelSize(level), PTP_ENTRIES);
    ModSplit(y, PTP_ENTRIES, RegionCount(level - 1));
  }

  /** The i-th region of a range that advances by LevelSize(level) each step. */
  lemma AdvanceRegion(va: nat, i: nat, level: nat)
    requires level <= 3
    ensures Region(Advance(va, i, LevelSize(level)), level) == (va / LevelSize(level) + i) % RegionCount(level)
  {
    var S, M := LevelSize(level), RegionCount(level);
    var K := M * 0x1_0000;
    assert S * K == U64_LIMIT;
    var q, c := va / S, va % S;
    var x := va + i * S;
    assert x == S * (q + i) + c;
    DivModUnique(x, S, q + i, c);
    ModSplit(x, S, K);
    var y := x % U64_LIMIT;
    assert y == S * ((q + i) % K) + c;
    DivModUnique(y, S, (q + i) % K, c);
    ModOfMod(q + i, M, 0x1_0000);
  }

  /** Two steps of a range fewer than RegionCount(level) apart lie in different regions. */
  lemma AdvanceDistinct(va: nat, i: nat, j: nat, level: nat)
    requires level <= 3 && i < j < i + RegionCount(level)
    ensures Region(Advance(va, i, LevelSize(level)), level) != Region(Advance(va, j, LevelSize(level)), level)
  {
    AdvanceRegion(va, i, level);
    AdvanceRegion(va, j, level);
    var q := va / LevelSize(level);
    DistinctMod(q + i, q + j, RegionCount(level));
  }

  // ---------------------------------------------------------------------
  // Walks over well-formed tables.

  lemma {:induction false} PathPrefix(tables: map<nat, Table>, root: nat, va: nat, l: nat, level: nat)
    requires l <= level <= 3 && PathTable(tables, root, va, level).Some?
    ensures PathTable(tables, root, va, l).Some?
    decreases level
  {
    if l < level {
      PathPrefix(tables, root, va, l, level - 1);
    }
  }

  /** The table a walk reaches at a level sits at that depth. */
  lemma {:induction false} PathDepth(tables: map<nat, Table>, depth: map<nat, nat>, parent: map<nat, Slot>,
                                     root: nat, va: nat, level: nat)
    requires Wf(tables, depth, parent) && IsRoot(tables, depth, root) && level <= 3
    requires PathTable(tables, root, va, level).Some?
    ensures depth[PathTable(tables, root, va, level).value] == level
    decreases level
  {
    if level > 0 {
      PathDepth(tables, depth, parent, root, va, level - 1);
    }
  }

  /** Two addresses whose walks reach the same descriptor at a level lie in
      the same region at that level: no table page is shared. */
  lemma {:induction false} SameSlotSameRegion(tables: map<nat, Table>, depth: map<nat, nat>, parent: map<nat, Slot>,
                                              root: nat, v: nat, w: nat, level: nat)
    requires Wf(tables, depth, parent) && IsRoot(tables, depth, root) && level <= 3
    requires PathTable(tables, root, v, level).Some?
    requires PathTable(tables, root, v, level) == PathTable(tables, root, w, level)
    requires Index(v, level) == Index(w, level)
    ensures Region(v, level) == Region(w, level)
    decreases level
  {
    if level > 0 {
      var pv := PathTable(tables, root, v, level - 1);
      var pw := PathTable(tables, root, w, level - 1);
      PathDepth(tables, depth, parent, root, v, level - 1);
      PathDepth(tables, depth, parent, root, w, level - 1);
      var n := PathTable(tables, root, v, level).value;
      assert parent[n] == Slot(pv.value, Index(v, level - 1));
      assert parent[n] == Slot(pw.value, Index(w, level - 1));
      SameSlotSameRegion(tables, depth, parent, root, v, w, level - 1);
      RegionDigits(v, level);
      RegionDigits(w, level);
    }
  }

  /** A step through a descriptor whose walk fields are unchanged goes to
      the same table. */
  lemma StepKept(tables: map<nat, Table>, tables': map<nat, Table>, t: nat, level: nat, va: nat)
    requires level <= 3 && t in tables && t in tables' && (forall g | g in tables :: g in tables')
    requires SameWalk(tables[t][Index(va, level)], tables'[t][Index(va, level)])
    requires Step(tables, Some(t), level, va).Some?
    ensures Step(tables', Some(t), level, va) == Step(tables, Some(t), level, va)
  {
  }

  /** A change of one descriptor leaves a walk alone when the walk does not
      read it, or reads only its unchanged walk fields. */
  lemma {:induction false} KeepsPath(tables: map<nat, Table>, tables': map<nat, Table>, depth: map<nat, nat>,
                                     parent: map<nat, Slot>, root: nat, w: nat, level: nat, f: nat, x: nat)
    requires Wf(tables, depth, parent) && IsRoot(tables, depth, root) && level <= 3
    requires UnchangedExcept(tables, tables', f, x)
    requires PathTable(tables, root, w, level).Some?
    requires depth[f] >= level || !tables[f][x].valid || SameWalk(tables[f][x], tables'[f][x]) ||
             PathTable(tables, root, w, depth[f]) != Some(f) || Index(w, depth[f]) != x
    ensures PathTable(tables', root, w, level) == PathTable(tables, root, w, level)
    decreases level
  {
    if level > 0 {
      PathPrefix(tables, root, w, level - 1, level);
      KeepsPath(tables, tables', depth, parent, root, w, level - 1, f, x);
      KeepsPathStep(tables, tables', depth, parent, root, w, level, f, x);
    }
  }

  /** The last step of KeepsPath: the walk to the level above is kept, and the
      descriptor it reads next is either untouched or keeps its walk fields. */
  lemma KeepsPathStep(tables: map<nat, Table>, tables': map<nat, Table>, depth: map<nat, nat>,
                      parent: map<nat, Slot>, root: nat, w: nat, level: nat, f: nat, x: nat)
    requires Wf(tables, depth, parent) && IsRoot(tables, depth, root) && 1 <= level <= 3
    requires UnchangedExcept(tables, tables', f, x)
    requires PathTable(tables, root, w, level).Some?
    requires PathTable(tables', root, w, level - 1) == PathTable(tables, root, w, level - 1)
    requires depth[f] >= level || !tables[f][x].valid || SameWalk(tables[f][x], tables'[f][x]) ||
             PathTable(tables, root, w, depth[f]) != Some(f) || Index(w, depth[f]) != x
    ensures PathTable(tables', root, w, level) == PathTable(tables, root, w, level)
  {
    var p := PathTable(tables, root, w, level - 1);
    PathPrefix(tables, root, w, level - 1, level);
    PathDepth(tables, depth, parent, root, w, level - 1);
    var i := Index(w, level - 1);
    if p.value == f && i == x {
      assert tables[f][x].valid;
      assert SameWalk(tables[f][x], tables'[f][x]);
    } else if p.value != f {
      assert tables'[p.value] == tables[p.value];
    }
    StepKept(tables, tables', p.value, level - 1, w);
  }


  /** A change of one descriptor keeps the translation of w at a level when
      it does not touch the descriptors w's walk reads: it lies below that
      level, fills an empty slot or changes only attributes above it, or lies
      off w's walk. */
  lemma MapsKept(tables: map<nat, Table>, tables': map<nat, Table>, depth: map<nat, nat>, parent: map<nat, Slot>,
                 root: nat, w: nat, level: nat, e: Entry, f: nat, x: nat)
    requires Wf(tables, depth, parent) && IsRoot(tables, depth, root) && level <= 3
    requires UnchangedExcept(tables, tables', f, x)
    requires MapsAt(tables, root, w, level, e)
    requires depth[f] > level ||
             (depth[f] < level && (!tables[f][x].valid || SameWalk(tables[f][x], tables'[f][x]))) ||
             PathTable(tables, root, w, depth[f]) != Some(f) || Index(w, depth[f]) != x
    ensures MapsAt(tables', root, w, level, e)
  {
    KeepsPath(tables, tables', depth, parent, root, w, level, f, x);
    PathDepth(tables, depth, parent, root, w, level);
  }

  /** Rewriting the level-`l` descriptor of va keeps va's walk down to it and
      the translation, at that level or below, of every address outside va's
      level-`l` region; when the write fills an empty slot or changes only
      attributes, it also keeps every translation below level `l`.  Walks
      that stop above level `l` never read it. */
  lemma SlotWrite(tables: map<nat, Table>, tables': map<nat, Table>, depth: map<nat, nat>, parent: map<nat, Slot>,
                  root: nat, va: nat, l: nat)
    requires Wf(tables, depth, parent) && IsRoot(tables, depth, root) && l <= 3
    requires PathTable(tables, root, va, l).Some?
    requires UnchangedExcept(tables, tables', PathTable(tables, root, va, l).value, Index(va, l))
    ensures PathTable(tables', root, va, l) == PathTable(tables, root, va, l)
    ensures forall w, e: Entry, level | l <= level <= 3 && Region(w, l) != Region(va, l) && MapsAt(tables, root, w, level, e) ::
              MapsAt(tables', root, w, level, e)
    ensures var f, x := PathTable(tables, root, va, l).value, Index(va, l);
            !tables[f][x].valid || SameWalk(tables[f][x], tables'[f][x]) ==>
              forall w, e: Entry, level | l < level <= 3 && MapsAt(tables, root, w, level, e) :: MapsAt(tables', root, w, level, e)
    ensures forall w, e: Entry, level: nat | level < l && MapsAt(tables, root, w, level, e) :: MapsAt(tables', root, w, level, e)
  {
    var f, x := PathTable(tables, root, va, l).value, Index(va, l);
    PathDepth(tables, depth, parent, root, va, l);
    KeepsPath(tables, tables', depth, parent, root, va, l, f, x);
    forall w, e: Entry, level | l <= level <= 3 && Region(w, l) != Region(va, l) && MapsAt(tables, root, w, level, e)
      ensures MapsAt(tables', root, w, level, e)
    {
      PathPrefix(tables, root, w, l, level);
      if PathTable(tables, root, w, l) == Some(f) && Index(w, l) == x {
        SameSlotSameRegion(tables, depth, parent, root, va, w, l);
      }
      MapsKept(tables, tables', depth, parent, root, w, level, e, f, x);
    }
    forall w, e: Entry, level: nat | level < l && MapsAt(tables, root, w, level, e)
      ensures MapsAt(tables', root, w, level, e)
    {
      MapsKept(tables, tables', depth, parent, root, w, level, e, f, x);
    }
    if !tables[f][x].valid || SameWalk(tables[f][x], tables'[f][x]) {
      forall w, e: Entry, level | l < level <= 3 && MapsAt(tables, root, w, level, e)
        ensures MapsAt(tables', root, w, level, e)
      {
        MapsKept(tables, tables', depth, parent, root, w, level, e, f, x);
      }
    }
  }

  /** Writing one descriptor keeps the tables well formed when the write is
      below level 2, or keeps the walk fields, or puts a non-table descriptor
      at level 2. */
  lemma WfWrite(tables: map<nat, Table>, depth: map<nat, nat>, parent: map<nat, Slot>, f: nat, x: nat, e: Entry)
    requires Wf(tables, depth, parent) && f in tables && x < PTP_ENTRIES
    requires depth[f] >= 3 || SameWalk(tables[f][x], e) || (depth[f] == 2 && !e.table)
    ensures Wf(tables[f := tables[f][x := e]], depth, parent)
  {
    var t: map<nat, Table> := tables[f := tables[f][x := e]];
    forall g, y | g in t && depth[g] < 3 && 0 <= y < PTP_ENTRIES && t[g][y].valid && t[g][y].table
      ensures t[g][y].addr in t && depth[t[g][y].addr] == depth[g] + 1
      ensures t[g][y].addr in parent && parent[t[g][y].addr] == Slot(g, y)
    {
      if g != f || y != x {
        assert t[g][y] == tables[g][y];
      }
    }
    forall g, y | g in t && depth[g] < 2 && 0 <= y < PTP_ENTRIES && t[g][y].valid
      ensures t[g][y].table
    {
      if g != f || y != x {
        assert t[g][y] == tables[g][y];
      }
    }
  }

  /** Installing a fresh table page under an empty slot keeps the tables well
      formed and the rest of the supply fresh. */
  lemma WfAlloc(tables: map<nat, Table>, depth: map<nat, nat>, parent: map<nat, Slot>, frames: seq<nat>, f: nat, x: nat)
    requires Wf(tables, depth, parent) && FreshSupply(tables, frames) && |frames| > 0
    requires f in tables && x < PTP_ENTRIES && !tables[f][x].valid
    ensures var n := frames[0];
            var t := tables[f := tables[f][x := TableEntry(n)]][n := EmptyTable()];
            Wf(t, depth[n := depth[f] + 1], parent[n := Slot(f, x)]) &&
            FreshSupply(t, frames[1..]) && UnchangedExcept(tables, t, f, x) &&
            t[f][x] == TableEntry(n) && TableEntry(n).addr == n
  {
    var n := frames[0];
    var t: map<nat, Table> := tables[f := tables[f][x := TableEntry(n)]][n := EmptyTable()];
    var d: map<nat, nat> := depth[n := depth[f] + 1];
    var p: map<nat, Slot> := parent[n := Slot(f, x)];
    assert n !in tables && n < PFN_LIMIT;
    forall g, y | g in t && d[g] < 3 && 0 <= y < PTP_ENTRIES && t[g][y].valid && t[g][y].table
      ensures t[g][y].addr in t && d[t[g][y].addr] == d[g] + 1
      ensures t[g][y].addr in p && p[t[g][y].addr] == Slot(g, y)
    {
      assert g != n;
      if g != f || y != x {
        assert t[g][y] == tables[g][y];
        assert tables[g][y].addr != n;
      }
    }
    forall g, y | g in t && d[g] < 2 && 0 <= y < PTP_ENTRIES && t[g][y].valid
      ensures t[g][y].table
    {
      if g != f || y != x {
        assert g != n;
        assert t[g][y] == tables[g][y];
      }
    }
    forall i | 0 <= i < |frames[1..]|
      ensures frames[1..][i] !in t && frames[1..][i] < PFN_LIMIT
    {
      assert frames[1..][i] == frames[i + 1];
    }
  }

  // ---------------------------------------------------------------------
  // What the queries read back.

  /** A level-3 page descriptor is what query_in_pgtbl reports: its pfn
      field, or -ENOMAPPING once its valid bit is clear. */
  lemma QueryPage(tables: map<nat, Table>, root: nat, va: nat, e: Entry)
    requires MapsAt(tables, root, va, 3, e) && (e.valid ==> e.table)
    ensures var t := PathTable(tables, root, va, 3).value;
            QueryInPgtbl(tables, Some(root), va) ==
              (if e.valid then Found(e.addr, Slot(t, Index(va, 3))) else QueryError(NoMapping))
  {
  }

  /** A 2 MiB block at level 2 is reported by query_in_pgtbl_level(.., 2) as
      its block address plus the offset of va, while query_in_pgtbl refuses it
      with BLOCK_PTP. */
  lemma QueryBlock(tables: map<nat, Table>, root: nat, va: nat, e: Entry)
    requires MapsAt(tables, root, va, 2, e) && e.valid && !e.table
    ensures var t := PathTable(tables, root, va, 2).value;
            QueryInPgtblLevel(tables, Some(root), va, 2) ==
              Found((e.addr / PTP_ENTRIES) * L2_PAGE_SIZE + va % L2_PAGE_SIZE, Slot(t, Index(va, 2)))
    ensures QueryInPgtbl(tables, Some(root), va) == QueryError(BlockPtp)
  {
  }

  // ---------------------------------------------------------------------
  // Range predicates.

  /** Every table page of T is still there, at the same depth. */
  ghost predicate Grows(T: map<nat, Table>, D: map<nat, nat>, T': map<nat, Table>, D': map<nat, nat>)
  {
    forall g | g in T :: g in T' && g in D' && (g in D ==> D'[g] == D[g])
  }

  /** Every translation at levels l to 3 of an address outside v's level-l
      region is the same in T' as in T. */
  ghost predicate KeepsBeside(T: map<nat, Table>, T': map<nat, Table>, root: nat, v: nat, l: nat)
    requires l <= 3
  {
    forall w, e: Entry, level | l <= level <= 3 && Region(w, l) != Region(v, l) && MapsAt(T, root, w, level, e) ::
      MapsAt(T', root, w, level, e)
  }

  /** A valid descriptor with bit 1 clear, for which get_next_ptp reports
      BLOCK_PTP. */
  predicate IsBlock(e: Entry)
  {
    e.valid && !e.table
  }

  /** Every block descriptor in T' was already there in T. */
  ghost predicate NoNewBlocks(T: map<nat, Table>, T': map<nat, Table>)
  {
    forall f, x | f in T' && 0 <= x < PTP_ENTRIES && IsBlock(T'[f][x]) :: f in T && T[f][x] == T'[f][x]
  }

  /** No table page holds a block descriptor. */
  ghost predicate NoBlocks(T: map<nat, Table>)
  {
    forall f, x | f in T && 0 <= x < PTP_ENTRIES :: !IsBlock(T[f][x])
  }

  /** v's walk from root meets a block descriptor. */
  ghost predicate BlockOnWalk(T: map<nat, Table>, root: nat, v: nat)
  {
    exists l: nat | l <= 3 :: PathTable(T, root, v, l).Some? && IsBlock(EntryAt(T, root, v, l))
  }

  /** Where T holds no block and T' adds none, no walk in T' meets a block. */
  lemma NoBlocksOnWalk(T: map<nat, Table>, T': map<nat, Table>, root: nat, v: nat)
    requires BlockOnWalk(T', root, v) && NoNewBlocks(T, T')
    ensures !NoBlocks(T)
  {
    var l: nat :| l <= 3 && PathTable(T', root, v, l).Some? && IsBlock(EntryAt(T', root, v, l));
    var f := PathTable(T', root, v, l).value;
    assert IsBlock(T'[f][Index(v, l)]);
  }

  /** w lies in none of the n level-l regions of a range starting at va. */
  predicate OutsideRange(w: nat, va: nat, n: int, l: nat)
    requires l <= 3
  {
    forall i | 0 <= i < n :: Region(w, l) != Region(Advance(va, i, LevelSize(l)), l)
  }

  /** Every translation at levels l to 3 of an address outside the range is
      the same in T' as in T. */
  ghost predicate KeptOutside(T: map<nat, Table>, T': map<nat, Table>, root: nat, va: nat, n: int, l: nat)
    requires l <= 3
  {
    forall w, e: Entry, level | l <= level <= 3 && OutsideRange(w, va, n, l) && MapsAt(T, root, w, level, e) ::
      MapsAt(T', root, w, level, e)
  }

  /** The first k pages of a 4 KiB range are mapped to the matching physical pages. */
  ghost predicate PagesMapped(T: map<nat, Table>, root: nat, va: nat, pa: nat, flags: nat, k: int)
  {
    forall i | 0 <= i < k ::
      MapsAt(T, root, Advance(va, i, PAGE_SIZE), 3, PageEntry(PagePfn(Advance(pa, i, PAGE_SIZE)), flags))
  }

  /** The level-2 descriptor map_range_in_pgtbl_2m makes of e: the block pfn
      field (bits 21 to 47), the table bit clear, UXN, AF, inner shareable,
      normal memory, valid.  Bits 12 to 20 and the other attributes keep
      what e held. */
  function BlockEntry(e: Entry, pfn: nat): (r: Entry)
    ensures r.addr / PTP_ENTRIES == pfn && r.addr % PTP_ENTRIES == e.addr % PTP_ENTRIES
    ensures r.attrs.ap == e.attrs.ap && r.attrs.pxn == e.attrs.pxn
    ensures IsBlockFor(r, pfn)
  {
    var low := e.addr % PTP_ENTRIES;
    DivModUnique(pfn * PTP_ENTRIES + low, PTP_ENTRIES, pfn, low);
    Entry(true, false, pfn * PTP_ENTRIES + low,
          e.attrs.(uxn := true, af := true, sh := INNER_SHAREABLE, attrIndex := NORMAL_MEMORY))
  }

  /** The descriptor that translates va at a level. */
  function EntryAt(tables: map<nat, Table>, root: nat, va: nat, level: nat): Entry
    requires level <= 3 && PathTable(tables, root, va, level).Some?
  {
    tables[PathTable(tables, root, va, level).value][Index(va, level)]
  }

  /** A 2 MiB block descriptor as map_range_in_pgtbl_2m writes it, for the block pfn. */
  predicate IsBlockFor(e: Entry, pfn: nat)
  {
    e.valid && !e.table && e.addr / PTP_ENTRIES == pfn &&
    e.attrs.uxn && e.attrs.af && e.attrs.sh == INNER_SHAREABLE && e.attrs.attrIndex == NORMAL_MEMORY
  }

  /** Those of the first k blocks of a 2 MiB range that no later block of the
      first k aliases are mapped to the matching physical blocks. */
  ghost predicate BlocksMapped(T: map<nat, Table>, root: nat, va: nat, pa: nat, k: int)
  {
    forall i | 0 <= i < k && k - i <= RegionCount(2) ::
      PathTable(T, root, Advance(va, i, L2_PAGE_SIZE), 2).Some? &&
      IsBlockFor(EntryAt(T, root, Advance(va, i, L2_PAGE_SIZE), 2), BlockPfn(Advance(pa, i, L2_PAGE_SIZE)))
  }

  /** The first k pages of a 4 KiB range have a cleared level-3 descriptor. */
  ghost predicate PagesUnmapped(T: map<nat, Table>, root: nat, va: nat, k: int)
  {
    forall i | 0 <= i < k ::
      PathTable(T, root, Advance(va, i, PAGE_SIZE), 3).Some? &&
      !EntryAt(T, root, Advance(va, i, PAGE_SIZE), 3).valid
  }

  lemma UnchangedExceptTrans(T0: map<nat, Table>, T1: map<nat, Table>, T2: map<nat, Table>, f: nat, x: nat)
    requires UnchangedExcept(T0, T1, f, x) && UnchangedExcept(T1, T2, f, x)
    ensures UnchangedExcept(T0, T2, f, x)
  {
  }

  /** Keeping twice beside the same region keeps beside it. */
  lemma KeepsBesideTrans(T0: map<nat, Table>, T1: map<nat, Table>, T2: map<nat, Table>, root: nat, v: nat, l: nat)
    requires l <= 3 && KeepsBeside(T0, T1, root, v, l) && KeepsBeside(T1, T2, root, v, l)
    ensures KeepsBeside(T0, T2, root, v, l)
  {
  }

  /** query_in_pgtbl finds the first k pages of a 4 KiB range at the matching physical pages. */
  ghost predicate PagesFound(T: map<nat, Table>, root: nat, va: nat, pa: nat, k: int)
  {
    forall i | 0 <= i < k ::
      var v := Advance(va, i, PAGE_SIZE);
      PathTable(T, root, v, 3).Some? &&
      QueryInPgtbl(T, Some(root), v) == Found(PagePfn(Advance(pa, i, PAGE_SIZE)), Slot(PathTable(T, root, v, 3).value, Index(v, 3)))
  }

  /** Mapped pages read back through query_in_pgtbl. */
  lemma PagesReadBack(T: map<nat, Table>, root: nat, va: nat, pa: nat, flags: nat, k: int)
    requires PagesMapped(T, root, va, pa, flags, k)
    ensures PagesFound(T, root, va, pa, k)
  {
    forall i | 0 <= i < k
      ensures var v := Advance(va, i, PAGE_SIZE);
              PathTable(T, root, v, 3).Some? &&
              QueryInPgtbl(T, Some(root), v) == Found(PagePfn(Advance(pa, i, PAGE_SIZE)), Slot(PathTable(T, root, v, 3).value, Index(v, 3)))
    {
      QueryPage(T, root, Advance(va, i, PAGE_SIZE), PageEntry(PagePfn(Advance(pa, i, PAGE_SIZE)), flags));
    }
  }

  /** A write through the level-k descriptor of v keeps v's walk down to it,
      and keeps every translation outside v's level-l region when it lies at
      level l or fills an empty slot or changes only attributes above l; an
      attribute-only write also keeps v's walk one level further. */
  lemma StepWrite(T: map<nat, Table>, T': map<nat, Table>, D: map<nat, nat>, P: map<nat, Slot>,
                  root: nat, v: nat, k: nat, l: nat)
    requires Wf(T, D, P) && IsRoot(T, D, root) && k <= l <= 3
    requires PathTable(T, root, v, k).Some?
    requires UnchangedExcept(T, T', PathTable(T, root, v, k).value, Index(v, k))
    requires var f, x := PathTable(T, root, v, k).value, Index(v, k);
             k == l || !T[f][x].valid || SameWalk(T[f][x], T'[f][x])
    ensures PathTable(T', root, v, k) == PathTable(T, root, v, k)
    ensures KeepsBeside(T, T', root, v, l)
    ensures var f, x := PathTable(T, root, v, k).value, Index(v, k);
            k < 3 && SameWalk(T[f][x], T'[f][x]) && PathTable(T, root, v, k + 1).Some? ==>
              PathTable(T', root, v, k + 1) == PathTable(T, root, v, k + 1)
  {
    var f, x := PathTable(T, root, v, k).value, Index(v, k);
    SlotWrite(T, T', D, P, root, v, k);
    if k < l {
      forall w, e: Entry, level | l <= level <= 3 && Region(w, l) != Region(v, l) && MapsAt(T, root, w, level, e)
        ensures MapsAt(T', root, w, level, e)
      {
      }
    }
    if k < 3 && SameWalk(T[f][x], T'[f][x]) && PathTable(T, root, v, k + 1).Some? {
      KeepsPath(T, T', D, P, root, v, k + 1, f, x);
    }
  }

  /** Keeping everything beside the pg-th region keeps everything outside the range. */
  lemma KeptOutsideStep(T0: map<nat, Table>, T1: map<nat, Table>, T2: map<nat, Table>, root: nat,
                        va: nat, n: int, l: nat, pg: nat)
    requires l <= 3 && pg < n
    requires KeptOutside(T0, T1, root, va, n, l)
    requires KeepsBeside(T1, T2, root, Advance(va, pg, LevelSize(l)), l)
    ensures KeptOutside(T0, T2, root, va, n, l)
  {
    forall w, e: Entry, level | l <= level <= 3 && OutsideRange(w, va, n, l) && MapsAt(T0, root, w, level, e)
      ensures MapsAt(T2, root, w, level, e)
    {
      assert Region(w, l) != Region(Advance(va, pg, LevelSize(l)), l);
    }
  }

  /** Distinct pages of a range shorter than 2^31 pages lie in distinct regions. */
  lemma RangeDistinct(va: nat, k: nat, l: nat)
    requires l <= 3 && k < 0x8000_0000 && 0x8000_0000 <= RegionCount(l)
    ensures forall i | 0 <= i < k :: Region(Advance(va, i, LevelSize(l)), l) != Region(Advance(va, k, LevelSize(l)), l)
  {
    forall i | 0 <= i < k
      ensures Region(Advance(va, i, LevelSize(l)), l) != Region(Advance(va, k, LevelSize(l)), l)
    {
      AdvanceDistinct(va, i, k, l);
    }
  }

  /** Mapping page k beside the first k keeps them and extends the range. */
  lemma PagesMappedStep(T1: map<nat, Table>, T2: map<nat, Table>, root: nat, va: nat, pa: nat, flags: nat, k: nat)
    requires k < 0x8000_0000
    requires PagesMapped(T1, root, va, pa, flags, k)
    requires KeepsBeside(T1, T2, root, Advance(va, k, PAGE_SIZE), 3)
    requires MapsAt(T2, root, Advance(va, k, PAGE_SIZE), 3, PageEntry(PagePfn(Advance(pa, k, PAGE_SIZE)), flags))
    ensures PagesMapped(T2, root, va, pa, flags, k + 1)
  {
    RangeDistinct(va, k, 3);
  }

  /** Writing block k beside the earlier blocks keeps those that are fewer
      than 2^27 blocks before it. */
  lemma BlocksMappedStep(T1: map<nat, Table>, T2: map<nat, Table>, root: nat, va: nat, pa: nat, k: nat)
    requires BlocksMapped(T1, root, va, pa, k)
    requires KeepsBeside(T1, T2, root, Advance(va, k, L2_PAGE_SIZE), 2)
    requires PathTable(T2, root, Advance(va, k, L2_PAGE_SIZE), 2).Some?
    requires IsBlockFor(EntryAt(T2, root, Advance(va, k, L2_PAGE_SIZE), 2), BlockPfn(Advance(pa, k, L2_PAGE_SIZE)))
    ensures BlocksMapped(T2, root, va, pa, k + 1)
  {
    forall i | 0 <= i < k + 1 && k + 1 - i <= RegionCount(2)
      ensures PathTable(T2, root, Advance(va, i, L2_PAGE_SIZE), 2).Some? &&
              IsBlockFor(EntryAt(T2, root, Advance(va, i, L2_PAGE_SIZE), 2), BlockPfn(Advance(pa, i, L2_PAGE_SIZE)))
    {
      if i < k {
        var w := Advance(va, i, L2_PAGE_SIZE);
        AdvanceDistinct(va, i, k, 2);
        assert MapsAt(T1, root, w, 2, EntryAt(T1, root, w, 2));
      }
    }
  }

  /** get_next_ptp on v's walk at level i that yields a valid descriptor
      (found or freshly installed): the walk down to it is kept, a table
      descriptor leads one level further, and nothing at levels l to 3 beside
      v's level-l region changes. */
  lemma AllocStep(T: map<nat, Table>, D: map<nat, nat>, P: map<nat, Slot>,
                  T1: map<nat, Table>, D1: map<nat, nat>, P1: map<nat, Slot>, root: nat, v: nat, i: nat, l: nat)
    requires Wf(T, D, P) && IsRoot(T, D, root) && i <= l <= 3 && PathTable(T, root, v, i).Some?
    requires Wf(T1, D1, P1) && IsRoot(T1, D1, root)
    requires var f, x := PathTable(T, root, v, i).value, Index(v, i);
             (T1 == T || (!T[f][x].valid && UnchangedExcept(T, T1, f, x))) && T1[f][x].valid
    ensures var f, x := PathTable(T, root, v, i).value, Index(v, i);
            PathTable(T1, root, v, i) == Some(f) && D1[f] == i &&
            (i < 2 ==> T1[f][x].table) &&
            (i < 3 && T1[f][x].table ==> PathTable(T1, root, v, i + 1) == Some(T1[f][x].addr)) &&
            KeepsBeside(T, T1, root, v, l) && UnchangedExcept(T, T1, f, x)
  {
    if T1 != T {
      StepWrite(T, T1, D, P, root, v, i, l);
    }
    PathDepth(T1, D1, P1, root, v, i);
  }

  /** get_next_ptp followed by a write that keeps the walk fields (what
      set_pte_flags does) on a table descriptor of v's walk: the walk goes on
      through it, and nothing beside v's page changes. */
  lemma DescendWrite(T: map<nat, Table>, D: map<nat, nat>, P: map<nat, Slot>,
                     T1: map<nat, Table>, D1: map<nat, nat>, P1: map<nat, Slot>, T2: map<nat, Table>,
                     root: nat, v: nat, i: nat)
    requires Wf(T, D, P) && IsRoot(T, D, root) && i <= 3 && PathTable(T, root, v, i).Some?
    requires Wf(T1, D1, P1) && IsRoot(T1, D1, root)
    requires var f, x := PathTable(T, root, v, i).value, Index(v, i);
             (T1 == T || (!T[f][x].valid && UnchangedExcept(T, T1, f, x))) &&
             T1[f][x].valid && T1[f][x].table &&
             UnchangedExcept(T1, T2, f, x) && SameWalk(T1[f][x], T2[f][x])
    ensures var f, x := PathTable(T, root, v, i).value, Index(v, i);
            PathTable(T2, root, v, i) == Some(f) &&
            (i < 3 ==> PathTable(T2, root, v, i + 1) == Some(T1[f][x].addr)) &&
            KeepsBeside(T, T2, root, v, 3) && UnchangedExcept(T, T2, f, x)
  {
    var f, x := PathTable(T, root, v, i).value, Index(v, i);
    AllocStep(T, D, P, T1, D1, P1, root, v, i, 3);
    StepWrite(T1, T2, D1, P1, root, v, i, 3);
    KeepsBesideTrans(T, T1, T2, root, v, 3);
    UnchangedExceptTrans(T, T1, T2, f, x);
  }

  /** Overwriting v's level-2 descriptor with a block descriptor makes v's
      2 MiB region a block of the given pfn and keeps every translation at
      levels 2 and 3 beside that region. */
  lemma BlockWrite(T: map<nat, Table>, D: map<nat, nat>, P: map<nat, Slot>, T2: map<nat, Table>,
                   root: nat, v: nat, pfn: nat)
    requires Wf(T, D, P) && IsRoot(T, D, root) && PathTable(T, root, v, 2).Some?
    requires var f, x := PathTable(T, root, v, 2).value, Index(v, 2);
             T2 == T[f := T[f][x := BlockEntry(T[f][x], pfn)]]
    ensures PathTable(T2, root, v, 2) == PathTable(T, root, v, 2)
    ensures IsBlockFor(EntryAt(T2, root, v, 2), pfn)
    ensures KeepsBeside(T, T2, root, v, 2)
  {
    var f, x := PathTable(T, root, v, 2).value, Index(v, 2);
    assert UnchangedExcept(T, T2, f, x);
    StepWrite(T, T2, D, P, root, v, 2, 2);
  }

  /** query_in_pgtbl_level(.., 2) finds the first k blocks of a 2 MiB range
      (those no later block aliases) at the matching physical addresses. */
  ghost predicate BlocksFound(T: map<nat, Table>, root: nat, va: nat, pa: nat, k: int)
  {
    forall i | 0 <= i < k && k - i <= RegionCount(2) ::
      var v := Advance(va, i, L2_PAGE_SIZE);
      PathTable(T, root, v, 2).Some? &&
      QueryInPgtblLevel(T, Some(root), v, 2) ==
        Found(BlockPfn(Advance(pa, i, L2_PAGE_SIZE)) * L2_PAGE_SIZE + v % L2_PAGE_SIZE, Slot(PathTable(T, root, v, 2).value, Index(v, 2))) &&
      QueryInPgtbl(T, Some(root), v) == QueryError(BlockPtp)
  }

  /** Mapped blocks read back through query_in_pgtbl_level, and
      query_in_pgtbl refuses them with BLOCK_PTP. */
  lemma BlocksReadBack(T: map<nat, Table>, root: nat, va: nat, pa: nat, k: int)
    requires BlocksMapped(T, root, va, pa, k)
    ensures BlocksFound(T, root, va, pa, k)
  {
    forall i | 0 <= i < k && k - i <= RegionCount(2)
      ensures var v := Advance(va, i, L2_PAGE_SIZE);
              PathTable(T, root, v, 2).Some? &&
              QueryInPgtblLevel(T, Some(root), v, 2) ==
                Found(BlockPfn(Advance(pa, i, L2_PAGE_SIZE)) * L2_PAGE_SIZE + v % L2_PAGE_SIZE, Slot(PathTable(T, root, v, 2).value, Index(v, 2))) &&
              QueryInPgtbl(T, Some(root), v) == QueryError(BlockPtp)
    {
      var v := Advance(va, i, L2_PAGE_SIZE);
      QueryBlock(T, root, v, EntryAt(T, root, v, 2));
    }
  }

  /** Translations at levels above l are the same in T' as in T. */
  ghost predicate KeepsAbove(T: map<nat, Table>, T': map<nat, Table>, root: nat, l: nat)
  {
    forall w, e: Entry, level: nat | level < l && level <= 3 && MapsAt(T, root, w, level, e) :: MapsAt(T', root, w, level, e)
  }

  /** A valid table descriptor at level i < 3 of v's walk leads to the next table. */
  lemma WalkOn(T: map<nat, Table>, D: map<nat, nat>, P: map<nat, Slot>, root: nat, v: nat, i: nat)
    requires Wf(T, D, P) && IsRoot(T, D, root) && i < 3 && PathTable(T, root, v, i).Some?
    requires T[PathTable(T, root, v, i).value][Index(v, i)].valid && T[PathTable(T, root, v, i).value][Index(v, i)].table
    ensures PathTable(T, root, v, i + 1) == Some(T[PathTable(T, root, v, i).value][Index(v, i)].addr)
  {
    PathDepth(T, D, P, root, v, i);
  }

  /** On well-formed tables query_in_pgtbl finds va exactly when va's walk
      reaches a valid page descriptor, and otherwise fails with -ENOMAPPING
      or BLOCK_PTP; it never reads a page that is not a page-table page. */
  lemma QueryWalk(T: map<nat, Table>, D: map<nat, nat>, P: map<nat, Slot>, root: nat, v: nat)
    requires Wf(T, D, P) && IsRoot(T, D, root)
    ensures var q := QueryInPgtbl(T, Some(root), v);
            (q.Found? <==> PathTable(T, root, v, 3).Some? && EntryAt(T, root, v, 3).valid && EntryAt(T, root, v, 3).table) &&
            (q.QueryError? ==> q.code == NoMapping || q.code == BlockPtp)
  {
    var r0 := NextPtp(T, Some(root), 0, v);
    if r0.Ptp? && r0.isTable {
      WalkOn(T, D, P, root, v, 0);
      var r1 := NextPtp(T, Some(r0.next), 1, v);
      if r1.Ptp? && r1.isTable {
        WalkOn(T, D, P, root, v, 1);
        var r2 := NextPtp(T, Some(r1.next), 2, v);
        if r2.Ptp? && r2.isTable {
          WalkOn(T, D, P, root, v, 2);
        }
      }
    }
  }

  /** A page whose walk keeps every descriptor it reads gets the same answer
      from query_in_pgtbl: found at the same descriptor, or the same error. */
  lemma QueryKept(T: map<nat, Table>, T': map<nat, Table>, D: map<nat, nat>, P: map<nat, Slot>, root: nat, w: nat)
    requires Wf(T, D, P) && IsRoot(T, D, root) && Wf(T', D, P) && IsRoot(T', D, root)
    requires forall e: Entry, level: nat | level <= 3 && MapsAt(T, root, w, level, e) :: MapsAt(T', root, w, level, e)
    ensures QueryInPgtbl(T', Some(root), w) == QueryInPgtbl(T, Some(root), w)
  {
    var e0 := T[root][Index(w, 0)];
    assert MapsAt(T, root, w, 0, e0);
    if e0.valid && e0.table {
      WalkOn(T, D, P, root, w, 0);
      WalkOn(T', D, P, root, w, 0);
      var e1 := T[e0.addr][Index(w, 1)];
      assert MapsAt(T, root, w, 1, e1);
      if e1.valid && e1.table {
        WalkOn(T, D, P, root, w, 1);
        WalkOn(T', D, P, root, w, 1);
        var e2 := T[e1.addr][Index(w, 2)];
        assert MapsAt(T, root, w, 2, e2);
        if e2.valid && e2.table {
          WalkOn(T, D, P, root, w, 2);
          WalkOn(T', D, P, root, w, 2);
          assert MapsAt(T, root, w, 3, T[e2.addr][Index(w, 3)]);
        }
      }
    }
  }

  /** Clearing the valid bit of v's level-3 descriptor unmaps v's page and
      keeps every other page and every translation above level 3. */
  lemma ClearWrite(T: map<nat, Table>, D: map<nat, nat>, P: map<nat, Slot>, T2: map<nat, Table>, root: nat, v: nat)
    requires Wf(T, D, P) && IsRoot(T, D, root) && PathTable(T, root, v, 3).Some?
    requires var f, x := PathTable(T, root, v, 3).value, Index(v, 3);
             T2 == T[f := T[f][x := T[f][x].(valid := false)]]
    ensures PathTable(T2, root, v, 3) == PathTable(T, root, v, 3)
    ensures !EntryAt(T2, root, v, 3).valid
    ensures KeepsBeside(T, T2, root, v, 3) && KeepsAbove(T, T2, root, 3)
  {
    var f, x := PathTable(T, root, v, 3).value, Index(v, 3);
    assert UnchangedExcept(T, T2, f, x);
    SlotWrite(T, T2, D, P, root, v, 3);
  }

  /** Unmapping page pg leaves every later page of the range reading back
      through query_in_pgtbl as before. */
  lemma QueryRestStep(T: map<nat, Table>, T': map<nat, Table>, D: map<nat, nat>, P: map<nat, Slot>,
                      root: nat, va: nat, n: int, pg: nat)
    requires Wf(T, D, P) && IsRoot(T, D, root) && Wf(T', D, P) && IsRoot(T', D, root)
    requires n < 0x8000_0000
    requires KeepsBeside(T, T', root, Advance(va, pg, PAGE_SIZE), 3) && KeepsAbove(T, T', root, 3)
    ensures forall i | pg + 1 <= i < n ::
              QueryInPgtbl(T', Some(root), Advance(va, i, PAGE_SIZE)) == QueryInPgtbl(T, Some(root), Advance(va, i, PAGE_SIZE))
  {
    forall i | pg + 1 <= i < n
      ensures QueryInPgtbl(T', Some(root), Advance(va, i, PAGE_SIZE)) == QueryInPgtbl(T, Some(root), Advance(va, i, PAGE_SIZE))
    {
      AdvanceDistinct(va, pg, i, 3);
      QueryKept(T, T', D, P, root, Advance(va, i, PAGE_SIZE));
    }
  }

  /** Clearing page k beside the first k cleared pages extends them. */
  lemma PagesUnmappedStep(T1: map<nat, Table>, T2: map<nat, Table>, root: nat, va: nat, k: nat)
    requires k < 0x8000_0000
    requires PagesUnmapped(T1, root, va, k)
    requires KeepsBeside(T1, T2, root, Advance(va, k, PAGE_SIZE), 3)
    requires PathTable(T2, root, Advance(va, k, PAGE_SIZE), 3).Some? && !EntryAt(T2, root, Advance(va, k, PAGE_SIZE), 3).valid
    ensures PagesUnmapped(T2, root, va, k + 1)
  {
    forall i | 0 <= i < k
      ensures PathTable(T2, root, Advance(va, i, PAGE_SIZE), 3).Some? && !EntryAt(T2, root, Advance(va, i, PAGE_SIZE), 3).valid
    {
      var w := Advance(va, i, PAGE_SIZE);
      AdvanceDistinct(va, i, k, 3);
      assert MapsAt(T1, root, w, 3, EntryAt(T1, root, w, 3));
    }
  }

  /** query_in_pgtbl reports -ENOMAPPING for the first k pages of a 4 KiB range. */
  ghost predicate PagesGone(T: map<nat, Table>, root: nat, va: nat, k: int)
  {
    forall i | 0 <= i < k :: QueryInPgtbl(T, Some(root), Advance(va, i, PAGE_SIZE)) == QueryError(NoMapping)
  }

  /** Cleared pages read back as -ENOMAPPING. */
  lemma PagesGoneOf(T: map<nat, Table>, root: nat, va: nat, k: int)
    requires PagesUnmapped(T, root, va, k)
    ensures PagesGone(T, root, va, k)
  {
    forall i | 0 <= i < k
      ensures QueryInPgtbl(T, Some(root), Advance(va, i, PAGE_SIZE)) == QueryError(NoMapping)
    {
      var w := Advance(va, i, PAGE_SIZE);
      QueryPage(T, root, w, EntryAt(T, root, w, 3));
    }
  }

  // ---------------------------------------------------------------------
  // unmap_range_in_pgtbl as written.

  /** unmap_range_in_pgtbl as the loop is written: `cur_pt` is set from
      `pgtbl` once, before the page loop, and every get_next_ptp stores its
      next table back into it, so the walk of the second page starts from
      whatever the level-3 descriptor of the first page named, a data page
      rather than the root table.  Returns the code and the tables after the
      calls. */
  function UnmapAsWritten(tables: map<nat, Table>, cur: Option<nat>, va: nat, n: int): (r: (Code, map<nat, Table>))
    ensures r.1.Keys == tables.Keys
    decreases if n > 0 then n else 0
  {
    if n <= 0 then (Ok, tables) else
    var r0 := NextPtp(tables, cur, 0, va);
    if !(r0.Ptp? && r0.isTable) then (Failure(r0), tables) else
    var r1 := NextPtp(tables, Some(r0.next), 1, va);
    if !(r1.Ptp? && r1.isTable) then (Failure(r1), tables) else
    var r2 := NextPtp(tables, Some(r1.next), 2, va);
    if !(r2.Ptp? && r2.isTable) then (Failure(r2), tables) else
    var r3 := NextPtp(tables, Some(r2.next), 3, va);
    if !(r3.Ptp? && r3.isTable) then (Failure(r3), tables) else
    var f, x := r3.pte.frame, r3.pte.index;
    var cleared := tables[f := tables[f][x := tables[f][x].(valid := false)]];
    UnmapAsWritten(cleared, Some(r3.next), (va + PAGE_SIZE) % U64_LIMIT, n - 1)
  }

  /** A table page whose descriptor `index` is e and all others zero. */
  function OneEntry(index: nat, e: Entry): Table
    requires index < PTP_ENTRIES
  {
    EmptyTable()[index := e]
  }

  /** Two mapped pages at virtual 0 and 0x1000 under one chain of tables:
      root 1, then 2, 3 and the level-3 table 4, mapping the data frames 100
      and 101. */
  function ExampleTables(): map<nat, Table>
  {
    map[1 := OneEntry(0, TableEntry(2)), 2 := OneEntry(0, TableEntry(3)), 3 := OneEntry(0, TableEntry(4)),
        4 := OneEntry(0, PageEntry(100, 0))[1 := PageEntry(101, 0)]]
  }

  /** The example tables are well formed, with page 1 as root. */
  lemma ExampleWf()
    ensures Wf(ExampleTables(), map[1 := 0, 2 := 1, 3 := 2, 4 := 3], map[2 := Slot(1, 0), 3 := Slot(2, 0), 4 := Slot(3, 0)])
    ensures IsRoot(ExampleTables(), map[1 := 0, 2 := 1, 3 := 2, 4 := 3], 1)
  {
    var T := ExampleTables();
    var D: map<nat, nat> := map[1 := 0, 2 := 1, 3 := 2, 4 := 3];
    forall f, x | f in T && D[f] < 3 && 0 <= x < PTP_ENTRIES && T[f][x].valid
      ensures x == 0 && T[f][x] == TableEntry(f + 1)
    {
      assert T[f] == OneEntry(0, TableEntry(f + 1));
    }
  }

  /** query_in_pgtbl finds both example pages, so UnmapRange over them
      succeeds. */
  lemma ExampleQueries()
    ensures QueryInPgtbl(ExampleTables(), Some(1), 0) == Found(100, Slot(4, 0))
    ensures QueryInPgtbl(ExampleTables(), Some(1), PAGE_SIZE) == Found(101, Slot(4, 1))
  {
    assert Index(PAGE_SIZE, 0) == 0 && Index(PAGE_SIZE, 1) == 0 && Index(PAGE_SIZE, 2) == 0 && Index(PAGE_SIZE, 3) == 1;
  }

  /** The loop as written clears the first example page and then walks the
      second from frame 100, which is no page-table page. */
  lemma UnmapAsWrittenExample()
    ensures UnmapAsWritten(ExampleTables(), Some(1), 0, 2).0 == Wild
  {
    var T := ExampleTables();
    var l3 := T[4];
    var T': map<nat, Table> := T[4 := l3[0 := l3[0].(valid := false)]];
    assert UnmapAsWritten(T, Some(1), 0, 2) == UnmapAsWritten(T', Some(100), PAGE_SIZE, 1);
  }

  // ---------------------------------------------------------------------
  // The page-table memory.

  /** The page-table pages in physical memory and the pages get_pages(0)
      still has for new table pages. */
  class PageTables {
    var tables: map<nat, Table>
    var freeFrames: seq<nat>
    ghost var depth: map<nat, nat>
    ghost var parent: map<nat, Slot>

    ghost predicate Valid()
      reads this
    {
      Wf(tables, depth, parent) && FreshSupply(tables, freeFrames)
    }

    /** An address space whose root table at frame `root` is empty. */
    constructor Init(root: nat, frames: seq<nat>)
      requires FreshSupply(map[root := EmptyTable()], frames)
      ensures Valid() && IsRoot(tables, depth, root)
      ensures tables == map[root := EmptyTable()] && freeFrames == frames
    {
      tables := map[root := EmptyTable()];
      freeFrames := frames;
      depth := map[root := 0];
      parent := map[];
    }

    /** Stores e through the descriptor pointer s. */
    method WriteEntry(s: Slot, e: Entry)
      requires Valid() && s.frame in tables && s.index < PTP_ENTRIES
      requires depth[s.frame] >= 3 || SameWalk(tables[s.frame][s.index], e) || (depth[s.frame] == 2 && !e.table)
      modifies this
      ensures tables == old(tables)[s.frame := old(tables)[s.frame][s.index := e]]
      ensures freeFrames == old(freeFrames) && depth == old(depth) && parent == old(parent)
      ensures Valid() && UnchangedExcept(old(tables), tables, s.frame, s.index)
      ensures !IsBlock(e) ==> NoNewBlocks(old(tables), tables)
    {
      WfWrite(tables, depth, parent, s.frame, s.index, e);
      tables := tables[s.frame := tables[s.frame][s.index := e]];
    }

    /** get_next_ptp: NULL and (without `alloc`) an invalid entry give
        -ENOMAPPING and change nothing; with `alloc` an invalid entry first
        becomes a table descriptor for a zero-filled page from the supply, and
        nothing else changes; the result is NORMAL_PTP for a table or page
        descriptor and BLOCK_PTP otherwise. */
    method GetNextPtp(cur: Option<nat>, level: nat, va: nat, alloc: bool) returns (r: PtpResult)
      requires Valid() && level <= 3
      requires cur.Some? ==> cur.value in tables
      modifies this
      ensures Valid() && Grows(old(tables), old(depth), tables, depth) && NoNewBlocks(old(tables), tables)
      ensures r.Ptp? ==> cur.Some? && cur.value in tables && r.pte == Slot(cur.value, Index(va, level)) &&
                         tables[cur.value][Index(va, level)].valid &&
                         r.isTable == tables[cur.value][Index(va, level)].table &&
                         r.next == tables[cur.value][Index(va, level)].addr
      ensures r.PtpError? ==> unchanged(this) && (r.code == NoMapping || r.code == Halted)
      ensures r.PtpError? && r.code == NoMapping ==> cur.None? || !alloc
      ensures r.Ptp? ==>
                tables == old(tables) ||
                (!old(tables)[cur.value][Index(va, level)].valid && UnchangedExcept(old(tables), tables, cur.value, Index(va, level)))
      ensures var missing := cur.Some? && !old(tables)[cur.value][Index(va, level)].valid;
              if !alloc || !missing then unchanged(this) && r == NextPtp(old(tables), cur, level, va)
              else if old(freeFrames) == [] then unchanged(this) && r == PtpError(Halted)
              else
                var n, x := old(freeFrames)[0], Index(va, level);
                r == Ptp(true, n, Slot(cur.value, x)) &&
                tables == old(tables)[cur.value := old(tables)[cur.value][x := TableEntry(n)]][n := EmptyTable()] &&
                tables[n] == EmptyTable() && TableEntry(n).addr == n && n !in old(tables) &&
                freeFrames == old(freeFrames)[1..] &&
                UnchangedExcept(old(tables), tables, cur.value, x)
    {
      if cur.None? {
        return PtpError(NoMapping);
      }
      var index := Index(va, level);
      var entry := tables[cur.value][index];
      if !entry.valid {
        if !alloc {
          return PtpError(NoMapping);
        }
        if freeFrames == [] {
          // BUG_ON(new_ptp == NULL)
          return PtpError(Halted);
        }
        var n := freeFrames[0];
        WfAlloc(tables, depth, parent, freeFrames, cur.value, index);
        tables := tables[cur.value := tables[cur.value][index := TableEntry(n)]][n := EmptyTable()];
        freeFrames := freeFrames[1..];
        depth := depth[n := depth[cur.value] + 1];
        parent := parent[n := Slot(cur.value, index)];
        entry := tables[cur.value][index];
      }
      r := Ptp(entry.table, entry.addr, Slot(cur.value, index));
    }

    /** One level of the walk in map_range_in_pgtbl: get_next_ptp with
        allocation from the table `cur` on v's walk, then set_pte_flags on the
        descriptor it returns unless that is a block.  The walk down to `cur`
        stays as it was, a table descriptor leads one level further down v's
        walk, and only translations inside v's page can change. */
    method WalkLevel(cur: Option<nat>, i: nat, v: nat, flags: nat, ghost root: nat) returns (res: PtpResult)
      requires Valid() && IsRoot(tables, depth, root) && i <= 3
      requires cur.Some? && cur == PathTable(tables, root, v, i)
      modifies this
      ensures Valid() && Grows(old(tables), old(depth), tables, depth) && IsRoot(tables, depth, root)
      ensures NoNewBlocks(old(tables), tables) && |old(freeFrames)| <= |freeFrames| + 1
      ensures res.PtpError? <==> !old(tables)[cur.value][Index(v, i)].valid && old(freeFrames) == []
      ensures res.PtpError? ==> unchanged(this) && res.code == Halted
      ensures res.Ptp? ==>
                res.pte == Slot(cur.value, Index(v, i)) && PathTable(tables, root, v, i) == cur &&
                (res.isTable && i < 3 ==> PathTable(tables, root, v, i + 1) == Some(res.next))
      ensures res.Ptp? && !res.isTable ==> unchanged(this) && IsBlock(EntryAt(tables, root, v, i))
      ensures res.Ptp? && res.isTable ==>
                UnchangedExcept(old(tables), tables, cur.value, Index(v, i)) &&
                var e := old(tables)[cur.value][Index(v, i)];
                tables[cur.value][Index(v, i)] == SetPteFlags(if e.valid then e else TableEntry(res.next), flags, USER_PTE)
      ensures KeepsBeside(old(tables), tables, root, v, 3)
    {
      ghost var T, D, P := tables, depth, parent;
      res := GetNextPtp(cur, i, v, true);
      if res.PtpError? || !res.isTable {
        return;
      }
      ghost var T1, D1, P1 := tables, depth, parent;
      assert T1[cur.value][Index(v, i)] == (if T[cur.value][Index(v, i)].valid then T[cur.value][Index(v, i)] else TableEntry(res.next));
      WriteEntry(res.pte, SetPteFlags(tables[res.pte.frame][res.pte.index], flags, USER_PTE));
      DescendWrite(T, D, P, T1, D1, P1, tables, root, v, i);
    }

    /** One pass of the page loop of map_range_in_pgtbl: walk the four levels
        allocating missing tables and applying set_pte_flags to every
        descriptor on the way, then make the level-3 descriptor a page
        descriptor for p.  Only v's page can change translation. */
    method MapPage(pgtbl: Option<nat>, v: nat, p: nat, flags: nat) returns (r: Code)
      requires Valid() && (pgtbl.Some? ==> IsRoot(tables, depth, pgtbl.value))
      modifies this
      ensures Valid() && Grows(old(tables), old(depth), tables, depth)
      ensures pgtbl.None? ==> r == NoMapping && unchanged(this)
      ensures NoNewBlocks(old(tables), tables) && |old(freeFrames)| <= |freeFrames| + 4
      ensures pgtbl.Some? ==>
                IsRoot(tables, depth, pgtbl.value) &&
                (r == Ok || r == BlockPtp || r == Halted) &&
                (r == Ok ==> MapsAt(tables, pgtbl.value, v, 3, PageEntry(PagePfn(p), flags))) &&
                (r == BlockPtp ==> BlockOnWalk(tables, pgtbl.value, v)) &&
                (r == Halted ==> freeFrames == [] && |old(freeFrames)| < 4) &&
                KeepsBeside(old(tables), tables, pgtbl.value, v, 3)
    {
      if pgtbl.None? {
        // get_next_ptp refuses a NULL table at level 0
        var res := GetNextPtp(pgtbl, 0, v, true);
        return res.code;
      }
      ghost var root := pgtbl.value;
      var cur := pgtbl;
      var pte := Slot(0, 0);
      var i := 0;
      while i < 4
        invariant 0 <= i <= 4 && Valid() && Grows(old(tables), old(depth), tables, depth) && IsRoot(tables, depth, root)
        invariant i < 4 ==> cur.Some? && cur == PathTable(tables, root, v, i)
        invariant 0 < i ==> PathTable(tables, root, v, i - 1) == Some(pte.frame) && pte.index == Index(v, i - 1)
        invariant KeepsBeside(old(tables), tables, root, v, 3)
        invariant NoNewBlocks(old(tables), tables) && |old(freeFrames)| <= |freeFrames| + i
      {
        ghost var T := tables;
        var res := WalkLevel(cur, i, v, flags, root);
        KeepsBesideTrans(old(tables), T, tables, root, v, 3);
        if res.PtpError? {
          return res.code;
        }
        if !res.isTable {
          return BlockPtp;
        }
        cur := Some(res.next);
        pte := res.pte;
        i := i + 1;
      }
      PathDepth(tables, depth, parent, root, v, 3);
      ghost var T, D, P := tables, depth, parent;
      var e := tables[pte.frame][pte.index];
      WriteEntry(pte, SetPteFlags(e.(valid := true, table := true, addr := PagePfn(p)), flags, USER_PTE));
      StepWrite(T, tables, D, P, root, v, 3, 3);
      KeepsBesideTrans(old(tables), T, tables, root, v, 3);
      r := Ok;
    }

    /** map_range_in_pgtbl: maps the `len / PAGE_SIZE` pages from va to the
        pages from pa, in order.  On success every page of the range
        translates to its physical page and reads back through
        query_in_pgtbl; whatever the outcome, no page outside the range
        changes translation, and the only errors are BLOCK_PTP (a 2 MiB block
        in the way), a halt for want of memory, and -ENOMAPPING for a NULL
        table.  The call creates no block descriptor; it takes at most four
        frames per page, so with no block in the tables and that many frames
        it succeeds, and an empty range changes nothing. */
    method MapRange(pgtbl: Option<nat>, va: nat, pa: nat, len: nat, flags: nat) returns (r: Code)
      requires Valid() && (pgtbl.Some? ==> IsRoot(tables, depth, pgtbl.value))
      modifies this
      ensures Valid() && Grows(old(tables), old(depth), tables, depth)
      ensures r == Ok || r == BlockPtp || r == Halted || (r == NoMapping && pgtbl.None?)
      ensures pgtbl.None? ==> unchanged(this) && (r == Ok <==> NPages(len, PAGE_SIZE) <= 0)
      ensures pgtbl.Some? ==>
                IsRoot(tables, depth, pgtbl.value) &&
                KeptOutside(old(tables), tables, pgtbl.value, va, NPages(len, PAGE_SIZE), 3)
      ensures pgtbl.Some? && r == Ok ==>
                PagesMapped(tables, pgtbl.value, va, pa, flags, NPages(len, PAGE_SIZE)) &&
                PagesFound(tables, pgtbl.value, va, pa, NPages(len, PAGE_SIZE))
      ensures NoNewBlocks(old(tables), tables)
      ensures pgtbl.Some? && NPages(len, PAGE_SIZE) <= 0 ==> r == Ok && unchanged(this)
      ensures pgtbl.Some? && r == BlockPtp ==>
                exists i | 0 <= i < NPages(len, PAGE_SIZE) :: BlockOnWalk(tables, pgtbl.value, Advance(va, i, PAGE_SIZE))
      ensures r == Halted ==> freeFrames == [] && |old(freeFrames)| < 4 * NPages(len, PAGE_SIZE)
      ensures pgtbl.Some? && NoBlocks(old(tables)) && |old(freeFrames)| >= 4 * NPages(len, PAGE_SIZE) ==> r == Ok
    {
      var n := NPages(len, PAGE_SIZE);
      var pg := 0;
      while pg < n
        invariant 0 <= pg && (n >= 0 ==> pg <= n) && (n <= 0 ==> pg == 0)
        invariant Valid() && Grows(old(tables), old(depth), tables, depth)
        invariant pgtbl.None? ==> pg == 0 && unchanged(this)
        invariant pg == 0 ==> unchanged(this)
        invariant NoNewBlocks(old(tables), tables) && |old(freeFrames)| <= |freeFrames| + 4 * pg
        invariant pgtbl.Some? ==>
                    IsRoot(tables, depth, pgtbl.value) &&
                    PagesMapped(tables, pgtbl.value, va, pa, flags, pg) &&
                    KeptOutside(old(tables), tables, pgtbl.value, va, n, 3)
      {
        // va and pa after pg steps of `+= PAGE_SIZE`
        var vaCur, paCur := Advance(va, pg, PAGE_SIZE), Advance(pa, pg, PAGE_SIZE);
        ghost var T := tables;
        r := MapPage(pgtbl, vaCur, paCur, flags);
        if pgtbl.Some? {
          KeptOutsideStep(old(tables), T, tables, pgtbl.value, va, n, 3, pg);
        }
        if r != Ok {
          if r == BlockPtp {
            NoBlocksOnWalk(old(tables), tables, pgtbl.value, vaCur);
          }
          return;
        }
        if pgtbl.Some? {
          PagesMappedStep(T, tables, pgtbl.value, va, pa, flags, pg);
        }
        pg := pg + 1;
      }
      r := Ok;
      if pgtbl.Some? {
        PagesReadBack(tables, pgtbl.value, va, pa, flags, n);
      }
    }

    /** One level of the walk in map_range_in_pgtbl_2m: get_next_ptp with
        allocation from the table `cur` on v's walk.  The walk down to `cur`
        stays as it was, the descriptor at levels 0 and 1 leads one level
        further down v's walk, and only translations inside v's 2 MiB block
        can change. */
    method AllocLevel(cur: Option<nat>, i: nat, v: nat, ghost root: nat) returns (res: PtpResult)
      requires Valid() && IsRoot(tables, depth, root) && i <= 2
      requires cur.Some? && cur == PathTable(tables, root, v, i)
      modifies this
      ensures Valid() && Grows(old(tables), old(depth), tables, depth) && IsRoot(tables, depth, root)
      ensures NoNewBlocks(old(tables), tables) && |old(freeFrames)| <= |freeFrames| + 1
      ensures res.PtpError? <==> !old(tables)[cur.value][Index(v, i)].valid && old(freeFrames) == []
      ensures res.PtpError? ==> unchanged(this) && res.code == Halted
      ensures res.Ptp? ==>
                res.pte == Slot(cur.value, Index(v, i)) && PathTable(tables, root, v, i) == cur &&
                (i < 2 ==> PathTable(tables, root, v, i + 1) == Some(res.next))
      ensures res.Ptp? && !res.isTable ==> i == 2 && unchanged(this) && IsBlock(EntryAt(tables, root, v, i))
      ensures KeepsBeside(old(tables), tables, root, v, 2)
    {
      ghost var T, D, P := tables, depth, parent;
      res := GetNextPtp(cur, i, v, true);
      if res.Ptp? {
        AllocStep(T, D, P, tables, depth, parent, root, v, i, 2);
      }
    }

    /** One pass of the page loop of map_range_in_pgtbl_2m: walk three levels
        allocating missing tables (a block met on the way is walked through
        like a table), then overwrite the level-2 descriptor with a block
        descriptor for p.  Only v's 2 MiB region can change translation. */
    method MapBlock(pgtbl: Option<nat>, v: nat, p: nat) returns (r: Code)
      requires Valid() && (pgtbl.Some? ==> IsRoot(tables, depth, pgtbl.value))
      modifies this
      ensures Valid() && Grows(old(tables), old(depth), tables, depth)
      ensures pgtbl.None? ==> r == NoMapping && unchanged(this)
      ensures pgtbl.Some? ==>
                IsRoot(tables, depth, pgtbl.value) &&
                (r == Ok || r == Halted) &&
                (r == Ok ==> PathTable(tables, pgtbl.value, v, 2).Some? &&
                             IsBlockFor(EntryAt(tables, pgtbl.value, v, 2), BlockPfn(p))) &&
                (r == Halted ==> freeFrames == [] && |old(freeFrames)| < 3) &&
                KeepsBeside(old(tables), tables, pgtbl.value, v, 2)
      ensures |old(freeFrames)| <= |freeFrames| + 3
    {
      if pgtbl.None? {
        // get_next_ptp refuses a NULL table at level 0
        var res := GetNextPtp(pgtbl, 0, v, true);
        return res.code;
      }
      ghost var root := pgtbl.value;
      var cur := pgtbl;
      var pte := Slot(0, 0);
      var i := 0;
      while i < 3
        invariant 0 <= i <= 3 && Valid() && Grows(old(tables), old(depth), tables, depth) && IsRoot(tables, depth, root)
        invariant i < 3 ==> cur.Some? && cur == PathTable(tables, root, v, i)
        invariant 0 < i ==> PathTable(tables, root, v, i - 1) == Some(pte.frame) && pte.index == Index(v, i - 1)
        invariant KeepsBeside(old(tables), tables, root, v, 2)
        invariant |old(freeFrames)| <= |freeFrames| + i
      {
        ghost var T := tables;
        var res := AllocLevel(cur, i, v, root);
        KeepsBesideTrans(old(tables), T, tables, root, v, 2);
        if res.PtpError? {
          return res.code;
        }
        cur := Some(res.next);
        pte := res.pte;
        i := i + 1;
      }
      PathDepth(tables, depth, parent, root, v, 2);
      ghost var T, D, P := tables, depth, parent;
      WriteEntry(pte, BlockEntry(tables[pte.frame][pte.index], BlockPfn(p)));
      BlockWrite(T, D, P, tables, root, v, BlockPfn(p));
      KeepsBesideTrans(old(tables), T, tables, root, v, 2);
      r := Ok;
    }

    /** map_range_in_pgtbl_2m: maps the `len / L2_PAGE_SIZE` 2 MiB blocks
        from va to the blocks from pa, in order.  On success every block of
        the range that no later block aliases translates to its physical
        block through query_in_pgtbl_level; whatever the outcome, no
        translation at levels 2 and 3 outside the range changes, and the only
        errors are a halt for want of memory and -ENOMAPPING for a NULL
        table.  It takes at most three frames per block (level 2 may first
        get a table page that the block descriptor then replaces), so with
        that many frames it succeeds, and an empty range changes nothing.
        `flags` is not used. */
    method MapRange2M(pgtbl: Option<nat>, va: nat, pa: nat, len: nat, flags: nat) returns (r: Code)
      requires Valid() && (pgtbl.Some? ==> IsRoot(tables, depth, pgtbl.value))
      modifies this
      ensures Valid() && Grows(old(tables), old(depth), tables, depth)
      ensures r == Ok || r == Halted || (r == NoMapping && pgtbl.None?)
      ensures pgtbl.None? ==> unchanged(this) && (r == Ok <==> NPages(len, L2_PAGE_SIZE) <= 0)
      ensures pgtbl.Some? ==>
                IsRoot(tables, depth, pgtbl.value) &&
                KeptOutside(old(tables), tables, pgtbl.value, va, NPages(len, L2_PAGE_SIZE), 2)
      ensures pgtbl.Some? && r == Ok ==>
                BlocksMapped(tables, pgtbl.value, va, pa, NPages(len, L2_PAGE_SIZE)) &&
                BlocksFound(tables, pgtbl.value, va, pa, NPages(len, L2_PAGE_SIZE))
      ensures pgtbl.Some? && NPages(len, L2_PAGE_SIZE) <= 0 ==> r == Ok && unchanged(this)
      ensures r == Halted ==> freeFrames == [] && |old(freeFrames)| < 3 * NPages(len, L2_PAGE_SIZE)
      ensures pgtbl.Some? && |old(freeFrames)| >= 3 * NPages(len, L2_PAGE_SIZE) ==> r == Ok
    {
      var n := NPages(len, L2_PAGE_SIZE);
      var pg := 0;
      while pg < n
        invariant 0 <= pg && (n >= 0 ==> pg <= n) && (n <= 0 ==> pg == 0)
        invariant Valid() && Grows(old(tables), old(depth), tables, depth)
        invariant pgtbl.None? ==> pg == 0 && unchanged(this)
        invariant pg == 0 ==> unchanged(this)
        invariant |old(freeFrames)| <= |freeFrames| + 3 * pg
        invariant pgtbl.Some? ==>
                    IsRoot(tables, depth, pgtbl.value) &&
                    BlocksMapped(tables, pgtbl.value, va, pa, pg) &&
                    KeptOutside(old(tables), tables, pgtbl.value, va, n, 2)
      {
        // va and pa after pg steps of `+= page_size`
        var vaCur, paCur := Advance(va, pg, L2_PAGE_SIZE), Advance(pa, pg, L2_PAGE_SIZE);
        ghost var T := tables;
        r := MapBlock(pgtbl, vaCur, paCur);
        if pgtbl.Some? {
          KeptOutsideStep(old(tables), T, tables, pgtbl.value, va, n, 2, pg);
        }
        if r != Ok {
          return;
        }
        if pgtbl.Some? {
          BlocksMappedStep(T, tables, pgtbl.value, va, pa, pg);
        }
        pg := pg + 1;
      }
      r := Ok;
      if pgtbl.Some? {
        BlocksReadBack(tables, pgtbl.value, va, pa, n);
      }
    }

    /** One pass of the page loop of unmap_range_in_pgtbl, with the walk
        starting from the root table: the four get_next_ptp calls without
        allocation are exactly the walk of query_in_pgtbl, so the page is
        cleared (valid bit off, all other bits kept) exactly when
        query_in_pgtbl finds it, and otherwise its error is returned and
        nothing changes. */
    method UnmapPage(pgtbl: Option<nat>, v: nat) returns (r: Code)
      requires Valid() && (pgtbl.Some? ==> IsRoot(tables, depth, pgtbl.value))
      modifies this
      ensures Valid() && freeFrames == old(freeFrames) && depth == old(depth) && parent == old(parent)
      ensures tables.Keys == old(tables).Keys
      ensures var q := QueryInPgtbl(old(tables), pgtbl, v);
              r == (if q.Found? then Ok else q.code) &&
              (q.QueryError? ==> unchanged(this)) &&
              (q.Found? ==>
                 q.pte.frame in old(tables) && q.pte.index < PTP_ENTRIES &&
                 tables == old(tables)[q.pte.frame := old(tables)[q.pte.frame][q.pte.index := old(tables)[q.pte.frame][q.pte.index].(valid := false)]])
      ensures pgtbl.Some? ==>
                IsRoot(tables, depth, pgtbl.value) &&
                KeepsBeside(old(tables), tables, pgtbl.value, v, 3) &&
                KeepsAbove(old(tables), tables, pgtbl.value, 3) &&
                (r == Ok ==> PathTable(tables, pgtbl.value, v, 3).Some? && !EntryAt(tables, pgtbl.value, v, 3).valid)
    {
      var res := GetNextPtp(pgtbl, 0, v, false);
      if !(res.Ptp? && res.isTable) {
        return Failure(res);
      }
      ghost var root := pgtbl.value;
      WalkOn(tables, depth, parent, root, v, 0);
      var cur := Some(res.next);
      res := GetNextPtp(cur, 1, v, false);
      if !(res.Ptp? && res.isTable) {
        return Failure(res);
      }
      WalkOn(tables, depth, parent, root, v, 1);
      cur := Some(res.next);
      res := GetNextPtp(cur, 2, v, false);
      if !(res.Ptp? && res.isTable) {
        return Failure(res);
      }
      WalkOn(tables, depth, parent, root, v, 2);
      cur := Some(res.next);
      res := GetNextPtp(cur, 3, v, false);
      if !(res.Ptp? && res.isTable) {
        return Failure(res);
      }
      PathDepth(tables, depth, parent, root, v, 3);
      ghost var T := tables;
      assert PathTable(T, root, v, 3) == Some(res.pte.frame) && res.pte.index == Index(v, 3);
      WriteEntry(res.pte, tables[res.pte.frame][res.pte.index].(valid := false));
      ClearWrite(T, depth, parent, tables, root, v);
      r := Ok;
    }

    /** unmap_range_in_pgtbl, with the walk of every page starting from the
        root table: clears the `len / PAGE_SIZE` pages from va in order and
        stops at the first page query_in_pgtbl does not find, returning its
        error (-ENOMAPPING or BLOCK_PTP).  So it succeeds exactly when every page
        of the range is mapped; on success every page of the range reads back
        as -ENOMAPPING.  No page outside the range and no translation above
        level 3 changes, and no table page is added or freed. */
    method UnmapRange(pgtbl: Option<nat>, va: nat, len: nat) returns (r: Code)
      requires Valid() && (pgtbl.Some? ==> IsRoot(tables, depth, pgtbl.value))
      modifies this
      ensures Valid() && freeFrames == old(freeFrames) && depth == old(depth) && parent == old(parent)
      ensures tables.Keys == old(tables).Keys
      ensures r == Ok || r == NoMapping || r == BlockPtp
      ensures r == Ok <==>
                forall i | 0 <= i < NPages(len, PAGE_SIZE) :: QueryInPgtbl(old(tables), pgtbl, Advance(va, i, PAGE_SIZE)).Found?
      ensures r != Ok ==>
                exists k :: 0 <= k < NPages(len, PAGE_SIZE) &&
                  (forall i | 0 <= i < k :: QueryInPgtbl(old(tables), pgtbl, Advance(va, i, PAGE_SIZE)).Found?) &&
                  QueryInPgtbl(old(tables), pgtbl, Advance(va, k, PAGE_SIZE)) == QueryError(r) &&
                  QueryInPgtbl(tables, pgtbl, Advance(va, k, PAGE_SIZE)) == QueryError(r) &&
                  (pgtbl.Some? ==> PagesUnmapped(tables, pgtbl.value, va, k))
      ensures pgtbl.None? ==> unchanged(this)
      ensures pgtbl.Some? ==>
                KeptOutside(old(tables), tables, pgtbl.value, va, NPages(len, PAGE_SIZE), 3) &&
                KeepsAbove(old(tables), tables, pgtbl.value, 3)
      ensures pgtbl.Some? && r == Ok ==>
                PagesUnmapped(tables, pgtbl.value, va, NPages(len, PAGE_SIZE)) &&
                PagesGone(tables, pgtbl.value, va, NPages(len, PAGE_SIZE))
    {
      var n := NPages(len, PAGE_SIZE);
      var pg := 0;
      while pg < n
        invariant 0 <= pg && (n >= 0 ==> pg <= n)
        invariant Valid() && freeFrames == old(freeFrames) && depth == old(depth) && parent == old(parent)
        invariant tables.Keys == old(tables).Keys
        invariant pgtbl.None? ==> pg == 0 && unchanged(this)
        invariant forall i | 0 <= i < pg :: QueryInPgtbl(old(tables), pgtbl, Advance(va, i, PAGE_SIZE)).Found?
        invariant forall i | pg <= i < n ::
                    QueryInPgtbl(tables, pgtbl, Advance(va, i, PAGE_SIZE)) == QueryInPgtbl(old(tables), pgtbl, Advance(va, i, PAGE_SIZE))
        invariant pgtbl.Some? ==>
                    IsRoot(tables, depth, pgtbl.value) &&
                    PagesUnmapped(tables, pgtbl.value, va, pg) &&
                    KeptOutside(old(tables), tables, pgtbl.value, va, n, 3) &&
                    KeepsAbove(old(tables), tables, pgtbl.value, 3)
      {
        // va after pg steps of `+= PAGE_SIZE`
        var vaCur := Advance(va, pg, PAGE_SIZE);
        ghost var T := tables;
        r := UnmapPage(pgtbl, vaCur);
        if r != Ok {
          if pgtbl.Some? {
            QueryWalk(T, depth, parent, pgtbl.value, vaCur);
          }
          return;
        }
        ghost var root := pgtbl.value;
        QueryWalk(T, depth, parent, root, vaCur);
        assert QueryInPgtbl(old(tables), pgtbl, vaCur).Found?;
        KeptOutsideStep(old(tables), T, tables, root, va, n, 3, pg);
        PagesUnmappedStep(T, tables, root, va, pg);
        QueryRestStep(T, tables, depth, parent, root, va, n, pg);
        pg := pg + 1;
      }
      r := Ok;
      if pgtbl.Some? {
        PagesGoneOf(tables, pgtbl.value, va, n);
      }
    }
  }
}
