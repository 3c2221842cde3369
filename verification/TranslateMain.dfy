// translate.c: main's set-up, what it makes of the address space, and the accesses it checks.

module TranslateMain {
  import opened PageEntries
  import opened PageTables

  // ---------------------------------------------------------------------
  // get_field, set_field and satp
  // ---------------------------------------------------------------------

  /** The lowest bit of a mask. */
  function LowBit(mask: bv64): bv64 {
    mask & !(mask << 1)
  }

  function GetField(reg: bv64, mask: bv64): bv64
    requires LowBit(mask) != 0
  {
    (reg & mask) / LowBit(mask)
  }

  function SetField(reg: bv64, mask: bv64, val: bv64): bv64 {
    (reg & !mask) | ((val * LowBit(mask)) & mask)
  }

  function Satp(s: System, table: bv64): bv64 {
    SetField(SetField(0, s.SatpMode(), s.Mode()), s.SatpPpn(), table >> 12)
  }

  lemma SatpTable32(table: bv64)
    requires Aligned(table) && table < 0x1_0000_0000
    ensures RootTable(Sv32, Satp(Sv32, table)) == table
  {
  }

  lemma SatpTable39(table: bv64)
    requires Aligned(table) && table < 0x40_0000_0000
    ensures RootTable(Sv39, Satp(Sv39, table)) == table
  {
  }

  lemma SatpTable48(table: bv64)
    requires Aligned(table) && table < 0x8000_0000_0000
    ensures RootTable(Sv48, Satp(Sv48, table)) == table
  {
  }

  lemma SatpSelects32(table: bv64)
    ensures Selects(Sv32, Satp(Sv32, table))
  {
  }

  lemma SatpSelects39(table: bv64)
    ensures Selects(Sv39, Satp(Sv39, table))
  {
  }

  lemma SatpSelects48(table: bv64)
    ensures Selects(Sv48, Satp(Sv48, table))
  {
  }

  lemma SatpMode32(table: bv64)
    ensures GetField(Satp(Sv32, table), Sv32.SatpMode()) == Sv32.Mode()
  {
  }

  lemma SatpMode39(table: bv64)
    ensures GetField(Satp(Sv39, table), Sv39.SatpMode()) == Sv39.Mode()
  {
  }

  lemma SatpMode48(table: bv64)
    ensures GetField(Satp(Sv48, table), Sv48.SatpMode()) == Sv48.Mode()
  {
  }

  // ---------------------------------------------------------------------
  // The virtual address
  // ---------------------------------------------------------------------

  /** The address main chooses for physical: its four topmost translated bits flipped, then sign-extended. */
  function VirtualOf(s: System, physical: bv64): bv64 {
    var v := physical ^ (0xf << (s.VaddrBits() - 4));
    if s.VaddrBits() < s.Xlen() && v & (1 << (s.VaddrBits() - 1)) != 0 then v | !s.VaddrMask() else v
  }

  lemma ShiftOfPage12(a: bv64)
    ensures Shifted(PageOf(a), 12) == Shifted(a, 12)
  {
  }

  lemma ShiftOfPage21(a: bv64)
    ensures Shifted(PageOf(a), 21) == Shifted(a, 21)
  {
  }

  lemma ShiftOfPage22(a: bv64)
    ensures Shifted(PageOf(a), 22) == Shifted(a, 22)
  {
  }

  lemma ShiftOfPage30(a: bv64)
    ensures Shifted(PageOf(a), 30) == Shifted(a, 30)
  {
  }

  lemma ShiftOfPage39(a: bv64)
    ensures Shifted(PageOf(a), 39) == Shifted(a, 39)
  {
  }

  /** The shifts of the page-table indices. */
  predicate IsVpnShift(n: bv8) {
    n == 12 || n == 21 || n == 22 || n == 30 || n == 39
  }

  lemma VpnShifts(s: System, level: nat)
    requires level < s.Levels()
    ensures IsVpnShift(VpnShift(s, level))
  {
    assert level == 0 || level == 1 || level == 2 || level == 3;
  }

  lemma ShiftOfPage(a: bv64, n: bv8)
    requires IsVpnShift(n)
    ensures n <= 64 && Shifted(PageOf(a), n) == Shifted(a, n)
  {
    hide PageOf, Shifted;
    if
    case n == 12 => ShiftOfPage12(a);
    case n == 21 => ShiftOfPage21(a);
    case n == 22 => ShiftOfPage22(a);
    case n == 30 => ShiftOfPage30(a);
    case n == 39 => ShiftOfPage39(a);
  }

  lemma IndexOfPage(s: System, a: bv64, level: nat)
    requires level < s.Levels()
    ensures Vpn(s, PageOf(a), level) == Vpn(s, a, level)
  {
    hide PageOf, Shifted, VpnShift, IsVpnShift;
    VpnShifts(s, level);
    ShiftOfPage(a, VpnShift(s, level));
  }

  lemma SamePageSameIndex(s: System, a: bv64, b: bv64, level: nat)
    requires PageOf(a) == PageOf(b) && level < s.Levels()
    ensures Vpn(s, a, level) == Vpn(s, b, level)
  {
    hide Vpn, PageOf;
    IndexOfPage(s, a, level);
    IndexOfPage(s, b, level);
  }

  lemma VirtualCanonical32(physical: bv64, va: bv64)
    requires physical < 0x1_0000_0000 && PageOf(va) == VirtualOf(Sv32, physical)
    ensures Canonical(Sv32, va)
  {
  }

  lemma VirtualCanonical39(physical: bv64, va: bv64)
    requires physical < 0x40_0000_0000 && PageOf(va) == VirtualOf(Sv39, physical)
    ensures Canonical(Sv39, va)
  {
  }

  lemma VirtualCanonical48(physical: bv64, va: bv64)
    requires physical < 0x8000_0000_0000 && PageOf(va) == VirtualOf(Sv48, physical)
    ensures Canonical(Sv48, va)
  {
  }

  predicate IsFlipped(s: System, physical: bv64, virtual: bv64) {
    match s
    case Sv32 => virtual == physical ^ 0xf000_0000
    case Sv39 => virtual == physical ^ 0xffff_fff8_0000_0000
    case Sv48 => virtual == physical ^ 0xffff_f000_0000_0000
  }

  lemma VirtualIs32(physical: bv64)
    requires physical < 0x1_0000_0000
    ensures IsFlipped(Sv32, physical, VirtualOf(Sv32, physical))
  {
  }

  lemma VirtualIs39(physical: bv64)
    requires physical < 0x40_0000_0000
    ensures IsFlipped(Sv39, physical, VirtualOf(Sv39, physical))
  {
  }

  lemma VirtualIs48(physical: bv64)
    requires physical < 0x8000_0000_0000
    ensures IsFlipped(Sv48, physical, VirtualOf(Sv48, physical))
  {
  }

  /** Below the bound the sign extension is always needed, since the sign bit is among those flipped. */
  lemma VirtualIs(s: System, physical: bv64)
    requires physical < s.AddressBound()
    ensures IsFlipped(s, physical, VirtualOf(s, physical))
  {
    hide VirtualOf, IsFlipped;
    match s
    case Sv32 => VirtualIs32(physical);
    case Sv39 => VirtualIs39(physical);
    case Sv48 => VirtualIs48(physical);
  }

  lemma VirtualAligned32(physical: bv64)
    requires Aligned(physical)
    ensures Aligned(VirtualOf(Sv32, physical))
  {
  }

  lemma VirtualAligned39(physical: bv64)
    requires Aligned(physical)
    ensures Aligned(VirtualOf(Sv39, physical))
  {
  }

  lemma VirtualAligned48(physical: bv64)
    requires Aligned(physical)
    ensures Aligned(VirtualOf(Sv48, physical))
  {
  }

  lemma OtherRoot32(physical: bv64)
    ensures Vpn(Sv32, VirtualOf(Sv32, physical), 1) != Vpn(Sv32, physical, 1)
  {
  }

  lemma OtherRoot39(physical: bv64)
    ensures Vpn(Sv39, VirtualOf(Sv39, physical), 2) != Vpn(Sv39, physical, 2)
  {
  }

  lemma OtherRoot48(physical: bv64)
    ensures Vpn(Sv48, VirtualOf(Sv48, physical), 3) != Vpn(Sv48, physical, 3)
  {
  }

  lemma LowCanonical32(va: bv64)
    requires PageOf(va) < 0x1_0000_0000
    ensures Canonical(Sv32, va)
  {
  }

  lemma LowTruncate32(va: bv64)
    requires PageOf(va) < 0x1_0000_0000
    ensures Truncate(Sv32, va) == va
  {
  }

  lemma LowCanonical39(va: bv64)
    requires PageOf(va) < 0x40_0000_0000
    ensures Canonical(Sv39, va)
  {
  }

  lemma LowTruncate39(va: bv64)
    requires PageOf(va) < 0x40_0000_0000
    ensures Truncate(Sv39, va) == va
  {
  }

  lemma LowCanonical48(va: bv64)
    requires PageOf(va) < 0x8000_0000_0000
    ensures Canonical(Sv48, va)
  {
  }

  lemma LowTruncate48(va: bv64)
    requires PageOf(va) < 0x8000_0000_0000
    ensures Truncate(Sv48, va) == va
  {
  }

  // The same for every system

  lemma SatpHolds(s: System, table: bv64)
    requires Aligned(table) && table < s.AddressBound()
    ensures RootTable(s, Satp(s, table)) == table
  {
    hide Satp, Aligned, RootTable;
    match s
    case Sv32 => SatpTable32(table);
    case Sv39 => SatpTable39(table);
    case Sv48 => SatpTable48(table);
  }

  lemma ModeHolds(s: System, table: bv64)
    ensures LowBit(s.SatpMode()) != 0 && GetField(Satp(s, table), s.SatpMode()) == s.Mode()
    ensures Selects(s, Satp(s, table))
  {
    hide Satp, GetField, Selects;
    match s
    case Sv32 => SatpMode32(table); SatpSelects32(table);
    case Sv39 => SatpMode39(table); SatpSelects39(table);
    case Sv48 => SatpMode48(table); SatpSelects48(table);
  }

  lemma VirtualIsCanonical(s: System, physical: bv64, va: bv64)
    requires physical < s.AddressBound() && PageOf(va) == VirtualOf(s, physical)
    ensures Canonical(s, va)
  {
    hide PageOf, VirtualOf, Canonical;
    match s
    case Sv32 => VirtualCanonical32(physical, va);
    case Sv39 => VirtualCanonical39(physical, va);
    case Sv48 => VirtualCanonical48(physical, va);
  }

  lemma VirtualIsAligned(s: System, physical: bv64)
    requires Aligned(physical)
    ensures Aligned(VirtualOf(s, physical))
  {
    hide Aligned, VirtualOf;
    match s
    case Sv32 => VirtualAligned32(physical);
    case Sv39 => VirtualAligned39(physical);
    case Sv48 => VirtualAligned48(physical);
  }

  lemma OtherRoot(s: System, physical: bv64)
    ensures Vpn(s, VirtualOf(s, physical), s.Top()) != Vpn(s, physical, s.Top())
  {
    hide Vpn, VirtualOf;
    match s
    case Sv32 => OtherRoot32(physical);
    case Sv39 => OtherRoot39(physical);
    case Sv48 => OtherRoot48(physical);
  }

  lemma LowIsItself(s: System, va: bv64)
    requires PageOf(va) < s.AddressBound()
    ensures Canonical(s, va) && Truncate(s, va) == va
  {
    hide PageOf, Canonical, Truncate;
    match s
    case Sv32 => LowCanonical32(va); LowTruncate32(va);
    case Sv39 => LowCanonical39(va); LowTruncate39(va);
    case Sv48 => LowCanonical48(va); LowTruncate48(va);
  }

  // ---------------------------------------------------------------------
  // The address space main sets up
  // ---------------------------------------------------------------------

  /** The root table maps every address outside one root index to itself. */
  ghost predicate RootIdentity(s: System, m: Memory, root: bv64, address: bv64) {
    forall j: bv64 :: IsIndex(s, j) && j != Vpn(s, address, s.Top()) ==>
      Entry(s, m, root, j) == Stored(s, TablePte(s, s.Top(), 0, j))
  }

  /** satp's tables map one page to another, and everything under other root indices to itself. */
  ghost predicate Mapped(s: System, m: Memory, satp: bv64, tables: seq<bv64>, virtual: bv64, physical: bv64) {
    && tables != [] && RootTable(s, satp) == tables[0]
    && ArePages(s, tables) && FitsPhysical(s, physical)
    && Chain(s, m, virtual, s.Top(), tables, 0)
    && Entry(s, m, tables[|tables| - 1], Vpn(s, virtual, 0)) == LeafPte(s, 0, physical)
    && RootIdentity(s, m, tables[0], virtual)
  }

  lemma JoinPage(physical: bv64, va: bv64)
    ensures Join(physical, va, 12) == (physical & !0xfff) | (va & 0xfff)
  {
  }

  /** Every address of the virtual page goes to the same offset in the physical one. */
  lemma VirtualGoesToPhysical(s: System, m: Memory, satp: bv64, tables: seq<bv64>, virtual: bv64, physical: bv64,
                              va: bv64)
    requires Mapped(s, m, satp, tables, virtual, physical)
    requires Canonical(s, va) && PageOf(va) == PageOf(virtual)
    ensures Translate(s, m, satp, va) == Some(Join(physical, va, 12)) == Some((physical & !0xfff) | (va & 0xfff))
  {
    hide Entry, Vpn, LeafPte, Chain, RootIdentity, ArePages, FitsPhysical, Walk, Canonical, PageOf, RootTable, Join;
    JoinPage(physical, va);
    forall k: nat | k < s.Levels()
      ensures Vpn(s, va, k) == Vpn(s, virtual, k)
    {
      SamePageSameIndex(s, va, virtual, k);
    }
    WalkChain(s, m, virtual, s.Top(), tables, 0, physical, va);
  }

  lemma RootStored(s: System, va: bv64)
    ensures Stored(s, RootPte(s, va)) == RootPte(s, va)
  {
    hide RootPte, Stored;
    if s.Sv32? {
      RootFits32(va);
    }
    StoredWhole(s, RootPte(s, va));
  }

  lemma RootEntryAt(s: System, m: Memory, root: bv64, virtual: bv64, j: bv64)
    requires RootIdentity(s, m, root, virtual) && j < s.Entries() && j != Vpn(s, virtual, s.Top())
    ensures Entry(s, m, root, j) == Stored(s, TablePte(s, s.Top(), 0, j))
  {
    hide Entry, Vpn, TablePte, Stored;
    assert IsIndex(s, j);
  }

  /** The root's entry for an address under another index. */
  lemma RootEntry(s: System, m: Memory, root: bv64, virtual: bv64, va: bv64)
    requires RootIdentity(s, m, root, virtual) && Vpn(s, va, s.Top()) != Vpn(s, virtual, s.Top())
    ensures Entry(s, m, root, Vpn(s, va, s.Top())) == RootPte(s, va)
  {
    hide Entry, Vpn, TablePte, Stored, s.Entries, RootIdentity;
    VpnIsIndex(s, va, s.Top());
    RootEntryAt(s, m, root, virtual, Vpn(s, va, s.Top()));
    RootStored(s, va);
  }

  /** A walk that ends at the root. */
  lemma WalkOfLeaf(s: System, m: Memory, root: bv64, va: bv64, pte: bv64)
    requires Entry(s, m, root, Vpn(s, va, s.Top())) == pte && !PteFaults(s, pte) && IsLeaf(pte)
    ensures Walk(s, m, root, s.Top(), va) == LeafTarget(s, s.Top(), pte, va)
  {
    hide Entry, Vpn, PteFaults, IsLeaf, LeafTarget, Walk;
    WalkStep(s, m, root, s.Top(), va);
  }

  lemma MappedRoot(s: System, m: Memory, satp: bv64, tables: seq<bv64>, virtual: bv64, physical: bv64)
    requires Mapped(s, m, satp, tables, virtual, physical)
    ensures tables != [] && RootTable(s, satp) == tables[0] && RootIdentity(s, m, tables[0], virtual)
  {
    hide Entry, Vpn, LeafPte, Chain, ArePages, FitsPhysical, RootTable, RootIdentity;
  }

  /** Every address under another root index goes to itself, less its sign extension. */
  lemma OthersGoToThemselves(s: System, m: Memory, satp: bv64, tables: seq<bv64>, virtual: bv64, physical: bv64,
                             va: bv64)
    requires Mapped(s, m, satp, tables, virtual, physical)
    requires Canonical(s, va) && Vpn(s, va, s.Top()) != Vpn(s, virtual, s.Top())
    ensures Translate(s, m, satp, va) == Some(Truncate(s, va))
  {
    hide Entry, Vpn, Mapped, Walk, Canonical, RootTable, Truncate, PteFaults, IsLeaf, LeafTarget, RootPte, RootIdentity;
    MappedRoot(s, m, satp, tables, virtual, physical);
    RootEntry(s, m, tables[0], virtual, va);
    RootIsIdentity(s, va);
    WalkOfLeaf(s, m, tables[0], va, RootPte(s, va));
  }

  /** Writing to a page that holds no table of the path changes nothing of this. */
  lemma MappingKept(s: System, m: Memory, m': Memory, satp: bv64, tables: seq<bv64>, virtual: bv64, physical: bv64,
                    page: bv64)
    requires Mapped(s, m, satp, tables, virtual, physical) && SameOutside(m, m', [page]) && page !in tables
    ensures Mapped(s, m', satp, tables, virtual, physical)
  {
    hide Entry, Vpn, LeafPte, FitsPhysical, Aligned, SameOutside, Stored, TablePte, RootTable, Chain;
    OtherPageFilled(s, m, m', virtual, tables, 0, page);
    VpnFrame(s, m, m', [page], tables[|tables| - 1], virtual, 0);
  }

  lemma StoreFrame(m: Memory, address: bv64, word: bv32)
    ensures SameOutside(m, Store(m, address, word), [PageOf(address)])
  {
    hide PageOf;
  }

  /** What main has established when it turns translation on. */
  ghost predicate Ready(s: System, m: Memory, satp: bv64, tables: seq<bv64>, virtual: bv64, physical: bv64) {
    && Mapped(s, m, satp, tables, virtual, physical)
    && virtual == VirtualOf(s, physical) && Aligned(physical) && physical < s.AddressBound() && physical !in tables
  }

  /** The first two words of either page are reached through both addresses. */
  lemma BothReachPhysical(s: System, m: Memory, satp: bv64, tables: seq<bv64>, virtual: bv64, physical: bv64)
    requires Ready(s, m, satp, tables, virtual, physical)
    ensures Translate(s, m, satp, physical) == Some(physical)
    ensures Translate(s, m, satp, physical + 4) == Some(physical + 4)
    ensures Translate(s, m, satp, virtual) == Some(physical)
    ensures Translate(s, m, satp, virtual + 4) == Some(physical + 4)
  {
    hide Mapped, Vpn, Translate, VirtualOf, Aligned, PageOf, Join;
    VirtualIsAligned(s, physical);
    FirstWords(physical);
    FirstWords(virtual);
    GoesToItself(s, m, satp, tables, virtual, physical, physical);
    GoesToItself(s, m, satp, tables, virtual, physical, physical + 4);
    GoesToPhysical(s, m, satp, tables, virtual, physical, virtual);
    GoesToPhysical(s, m, satp, tables, virtual, physical, virtual + 4);
    JoinFirst(physical, virtual);
    JoinSecond(physical, virtual);
  }

  /** An address of the physical page. */
  lemma GoesToItself(s: System, m: Memory, satp: bv64, tables: seq<bv64>, virtual: bv64, physical: bv64, a: bv64)
    requires Ready(s, m, satp, tables, virtual, physical) && PageOf(a) == physical == PageOf(physical)
    ensures Translate(s, m, satp, a) == Some(a)
  {
    hide Mapped, Vpn, Translate, VirtualOf, Aligned, PageOf, Canonical, Truncate;
    OtherRoot(s, physical);
    LowIsItself(s, a);
    SamePageSameIndex(s, a, physical, s.Top());
    OthersGoToThemselves(s, m, satp, tables, virtual, physical, a);
  }

  /** An address of the virtual page. */
  lemma GoesToPhysical(s: System, m: Memory, satp: bv64, tables: seq<bv64>, virtual: bv64, physical: bv64, a: bv64)
    requires Ready(s, m, satp, tables, virtual, physical) && PageOf(a) == virtual == PageOf(virtual)
    ensures Translate(s, m, satp, a) == Some(Join(physical, a, 12))
  {
    hide Mapped, Translate, VirtualOf, Aligned, PageOf, Canonical, Join;
    VirtualIsCanonical(s, physical, a);
    VirtualGoesToPhysical(s, m, satp, tables, virtual, physical, a);
  }

  lemma FirstWords(page: bv64)
    requires Aligned(page)
    ensures PageOf(page) == page && PageOf(page + 4) == page
  {
  }

  lemma JoinFirst(page: bv64, other: bv64)
    requires Aligned(page) && Aligned(other)
    ensures Join(page, other, 12) == page
  {
  }

  lemma JoinSecond(page: bv64, other: bv64)
    requires Aligned(page) && Aligned(other)
    ensures Join(page, other + 4, 12) == page + 4
  {
  }

  // ---------------------------------------------------------------------
  // main
  // ---------------------------------------------------------------------

  /** main up to the writing of satp. No get_page waits: the five pages of the buffer are enough. */
  method SetUp(p: Program) returns (satp: bv64, physical: bv64, virtual: bv64, ghost tables: seq<bv64>)
    requires p.Valid() && p.taken == 0
    modifies p
    ensures Ready(p.vms, p.memory, satp, tables, virtual, physical)
    ensures Selects(p.vms, satp)
    ensures LowBit(p.vms.SatpMode()) != 0 && GetField(satp, p.vms.SatpMode()) == p.vms.Mode()
  {
    hide Selects, PageNo, NextAfter, Exhausted, PageUp, BufferFits, Entry, Vpn, Replaceable, FitsPhysical, Aligned,
         Added, NewPages, AreTaken, FilledBelow, SameOutside, SameRoot, Ready, Satp, GetField, LowBit, VirtualOf;
    PagesAtHand(p.vms, p.pageBuffer);
    var masterTable := p.GetPage();
    p.SetupPageTable(masterTable, p.vms.Top(), 0);
    ghost var filled := p.memory;
    physical := p.GetPage();
    virtual := VirtualOf(p.vms, physical);
    FreshOpens(p.vms, filled, masterTable, virtual, 0);
    tables := p.AddEntry(masterTable, 0, virtual, physical, 0);
    satp := Satp(p.vms, masterTable);
    ModeHolds(p.vms, masterTable);
    ReadyNow(p.vms, p.pageBuffer, filled, p.memory, p.taken, tables);
  }

  lemma PagesAtHand(s: System, buffer: bv64)
    requires BufferFits(s, buffer)
    ensures !Exhausted(buffer, PageUp(NextAfter(buffer, 0))) && !Exhausted(buffer, PageUp(NextAfter(buffer, 1)))
    ensures Aligned(PageNo(buffer, 0)) && Aligned(PageNo(buffer, 1)) && FitsPhysical(s, PageNo(buffer, 1))
  {
    hide PageNo, NextAfter, Exhausted, PageUp, BufferFits, FitsPhysical, Aligned;
    BufferIsLow(s, buffer);
    FivePages(buffer, 0);
    FivePages(buffer, 1);
    PageNoAligned(buffer, 0);
    PageNoAligned(buffer, 1);
    PageFits(s, buffer, 1);
  }

  lemma ReadyNow(s: System, buffer: bv64, filled: Memory, m: Memory, taken: nat, tables: seq<bv64>)
    requires BufferFits(s, buffer) && taken <= 5
    requires FilledBelow(s, filled, PageNo(buffer, 0), s.Top(), 0, s.Entries())
    requires Added(s, filled, m, PageNo(buffer, 0), VirtualOf(s, PageNo(buffer, 1)), 0, PageNo(buffer, 1), tables)
    requires AreTaken(buffer, tables, taken) && NewPages(buffer, tables, 2, taken)
    ensures Ready(s, m, Satp(s, PageNo(buffer, 0)), tables, VirtualOf(s, PageNo(buffer, 1)), PageNo(buffer, 1))
  {
    hide Entry, Vpn, LeafPte, Chain, FitsPhysical, Aligned, SameOutside, Stored, TablePte, Satp, VirtualOf, RootTable,
         PageNo, BufferFits, ArePages, AreTaken, NewPages, FilledBelow, SameRoot, RootIdentity;
    var root, physical := PageNo(buffer, 0), PageNo(buffer, 1);
    TakenArePages(s, buffer, tables, taken);
    PageNoAligned(buffer, 0);
    PageNoAligned(buffer, 1);
    PageFits(s, buffer, 1);
    PageBelowBound(s, buffer, 0);
    PageBelowBound(s, buffer, 1);
    SatpHolds(s, root);
    RootStays(s, filled, m, root, VirtualOf(s, physical));
    PhysicalIsNoTable(buffer, tables, taken);
  }

  lemma RootStays(s: System, filled: Memory, m: Memory, root: bv64, virtual: bv64)
    requires FilledBelow(s, filled, root, s.Top(), 0, s.Entries()) && SameRoot(s, filled, m, root, virtual)
    ensures RootIdentity(s, m, root, virtual)
  {
    hide Entry, Vpn, Stored, TablePte;
  }

  lemma PhysicalIsNoTable(buffer: bv64, tables: seq<bv64>, taken: nat)
    requires NewPages(buffer, tables, 2, taken) && tables != [] && tables[0] == PageNo(buffer, 0)
    ensures PageNo(buffer, 1) !in tables
  {
    hide PageNo;
    forall i | 0 <= i < |tables|
      ensures tables[i] != PageNo(buffer, 1)
    {
      if i == 0 {
        PagesDiffer(buffer, 0, 1);
      } else {
        assert IsNewPage(buffer, tables[i], 2, taken);
        var k: nat :| 2 <= k < taken <= 5 && tables[i] == PageNo(buffer, k);
        PagesDiffer(buffer, 1, k);
      }
    }
  }

  /** A word written through the tables. */
  method Write(p: Program, satp: bv64, va: bv64, word: bv32)
    requires Translate(p.vms, p.memory, satp, va).Some?
    modifies p`memory
    ensures p.memory == Store(old(p.memory), Translate(p.vms, old(p.memory), satp, va).value, word)
  {
    p.memory := Store(p.memory, Translate(p.vms, p.memory, satp, va).value, word);
  }

  method Read(p: Program, satp: bv64, va: bv64) returns (word: bv32)
    requires Translate(p.vms, p.memory, satp, va).Some?
    ensures word == Load(p.memory, Translate(p.vms, p.memory, satp, va).value)
  {
    word := Load(p.memory, Translate(p.vms, p.memory, satp, va).value);
  }

  /** All of main: each page is seen through both addresses, so none of its four asserts fails. */
  method Run(p: Program) returns (virtual0: bv32, physical0: bv32, virtual1: bv32, physical1: bv32)
    requires p.Valid() && p.taken == 0
    modifies p
    ensures virtual0 == physical0 == 0xdead_beef && virtual1 == physical1 == 0x5566_7788
  {
    hide Translate, Ready, Load, GetField, LowBit;
    var satp, physical, virtual;
    ghost var tables;
    satp, physical, virtual, tables := SetUp(p);
    BothReachPhysical(p.vms, p.memory, satp, tables, virtual, physical);
    ghost var m0 := p.memory;
    Write(p, satp, physical, 0xdead_beef);
    ReadyKept(p.vms, m0, satp, tables, virtual, physical, physical, 0xdead_beef);
    BothReachPhysical(p.vms, p.memory, satp, tables, virtual, physical);
    ghost var m1 := p.memory;
    Write(p, satp, virtual + 4, 0x5566_7788);
    ReadyKept(p.vms, m1, satp, tables, virtual, physical, physical + 4, 0x5566_7788);
    BothReachPhysical(p.vms, p.memory, satp, tables, virtual, physical);
    LoadStore(m0, physical, 0xdead_beef, physical);
    LoadStore(m1, physical + 4, 0x5566_7788, physical);
    LoadStore(m1, physical + 4, 0x5566_7788, physical + 4);
    virtual0 := Read(p, satp, virtual);
    physical0 := Read(p, satp, physical);
    virtual1 := Read(p, satp, virtual + 4);
    physical1 := Read(p, satp, physical + 4);
  }

  lemma ReadyKept(s: System, m: Memory, satp: bv64, tables: seq<bv64>, virtual: bv64, physical: bv64, a: bv64,
                  word: bv32)
    requires Ready(s, m, satp, tables, virtual, physical) && (a == physical || a == physical + 4)
    ensures Ready(s, Store(m, a, word), satp, tables, virtual, physical)
  {
    hide Mapped, VirtualOf, Aligned, Store, SameOutside, PageOf;
    FirstWords(physical);
    StoreFrame(m, a, word);
    MappingKept(s, m, Store(m, a, word), satp, tables, virtual, physical, physical);
  }
}
