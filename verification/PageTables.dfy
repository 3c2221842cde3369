// translate.c: building the page tables. After main's set-up the page at `virtual` is translated
// to `physical`, and every address under another root index to itself.

module PageTables {
  import opened PageEntries

  // ---------------------------------------------------------------------
  // get_page
  // ---------------------------------------------------------------------

  /** The next multiple of the page size. */
  function PageUp(address: bv64): bv64 {
    (address + 4095) & !OFFSET
  }

  /** page_buffer ends at least one byte below the bound. */
  predicate BufferFits(s: System, buffer: bv64) {
    match s
    case Sv32 => buffer < 0x1_0000_0000 - BUFFER_SIZE
    case Sv39 => buffer < 0x40_0000_0000 - BUFFER_SIZE
    case Sv48 => buffer < 0x8000_0000_0000 - BUFFER_SIZE
  }

  function PageEnd(page: bv64): bv64 {
    page + PAGE_SIZE
  }

  /** get_page waits for ever on a page that ends at the end of the buffer or past it. */
  predicate Exhausted(buffer: bv64, page: bv64) {
    PageEnd(page) >= buffer + BUFFER_SIZE
  }

  /** The k-th page of the buffer. */
  function PageNo(buffer: bv64, k: nat): bv64
    requires k < 6
  {
    PageAt(PageUp(buffer), Bits(k))
  }

  function PageAt(first: bv64, k: bv8): bv64 {
    first + ((k as bv64) << 12)
  }

  /** page_buffer_next after k pages. */
  function NextAfter(buffer: bv64, k: nat): bv64
    requires k < 6
  {
    if k == 0 then buffer else PageNo(buffer, k)
  }

  lemma PageNoAligned(buffer: bv64, k: nat)
    requires k < 6
    ensures Aligned(PageNo(buffer, k))
  {
  }

  lemma PageUpOfAligned(address: bv64)
    requires Aligned(address)
    ensures PageUp(address) == address
  {
  }

  lemma PageAtZero(first: bv64)
    ensures PageAt(first, 0) == first
  {
  }

  lemma FirstPage(buffer: bv64)
    ensures PageUp(buffer) == PageNo(buffer, 0)
  {
    hide PageUp, PageAt;
    PageAtZero(PageUp(buffer));
  }

  lemma PageUpOfNext(buffer: bv64, k: nat)
    requires k < 6
    ensures PageUp(NextAfter(buffer, k)) == PageNo(buffer, k)
  {
    hide PageUp, PageNo, Aligned;
    FirstPage(buffer);
    PageNoAligned(buffer, k);
    PageUpOfAligned(PageNo(buffer, k));
  }

  lemma PageAtNext(first: bv64, k: bv8)
    requires k < 5
    ensures PageEnd(PageAt(first, k)) == PageAt(first, k + 1)
  {
    if
    case k == 0 => assert PageEnd(PageAt(first, 0)) == PageAt(first, 1);
    case k == 1 => assert PageEnd(PageAt(first, 1)) == PageAt(first, 2);
    case k == 2 => assert PageEnd(PageAt(first, 2)) == PageAt(first, 3);
    case k == 3 => assert PageEnd(PageAt(first, 3)) == PageAt(first, 4);
    case k == 4 => assert PageEnd(PageAt(first, 4)) == PageAt(first, 5);
  }

  lemma PageAfter(buffer: bv64, k: nat)
    requires k < 5
    ensures PageEnd(PageNo(buffer, k)) == NextAfter(buffer, k + 1)
  {
    hide PageAt, PageEnd, PageUp, Bits;
    SmallBits(k);
    PageAtNext(PageUp(buffer), Bits(k));
  }

  lemma PagesDiffer(buffer: bv64, j: nat, k: nat)
    requires j < 6 && k < 6 && j != k
    ensures PageNo(buffer, j) != PageNo(buffer, k)
  {
  }

  lemma EndsInside(buffer: bv64, offset: bv64)
    requires buffer < 0x8000_0000_0000 && offset <= 0x4000
    ensures !Exhausted(buffer, PageUp(buffer) + offset)
  {
  }

  lemma FirstPagesEnd(buffer: bv64, k: bv8)
    requires buffer < 0x8000_0000_0000 && k < 5
    ensures !Exhausted(buffer, PageAt(PageUp(buffer), k))
  {
    hide PageUp, Exhausted;
    if
    case k == 0 => EndsInside(buffer, 0);
    case k == 1 => EndsInside(buffer, 0x1000);
    case k == 2 => EndsInside(buffer, 0x2000);
    case k == 3 => EndsInside(buffer, 0x3000);
    case k == 4 => EndsInside(buffer, 0x4000);
  }

  lemma SmallBits(k: nat)
    requires k < 5
    ensures Bits(k) < 5 && Bits(k + 1) == Bits(k) + 1
  {
  }

  lemma FirstFive(buffer: bv64, k: nat)
    requires buffer < 0x8000_0000_0000 && k < 5
    ensures !Exhausted(buffer, PageNo(buffer, k))
  {
    hide PageAt, PageUp, Exhausted, Bits;
    SmallBits(k);
    FirstPagesEnd(buffer, Bits(k));
  }

  lemma SixthPageEnds(buffer: bv64)
    requires buffer < 0x8000_0000_0000
    ensures Exhausted(buffer, PageAt(PageUp(buffer), 5))
  {
  }

  lemma NoSixth(buffer: bv64)
    requires buffer < 0x8000_0000_0000
    ensures Exhausted(buffer, PageNo(buffer, 5))
  {
    hide PageAt, PageUp, Exhausted;
    SixthPageEnds(buffer);
  }

  /** Whatever the alignment of page_buffer, get_page answers five times and never a sixth time. */
  lemma FivePages(buffer: bv64, k: nat)
    requires buffer < 0x8000_0000_0000 && k <= 5
    ensures PageUp(NextAfter(buffer, k)) == PageNo(buffer, k)
    ensures Exhausted(buffer, PageNo(buffer, k)) <==> k == 5
    ensures k < 5 ==> PageEnd(PageNo(buffer, k)) == NextAfter(buffer, k + 1)
  {
    hide PageUp, PageNo, NextAfter, Exhausted, PageEnd;
    PageUpOfNext(buffer, k);
    if k < 5 {
      FirstFive(buffer, k);
      PageAfter(buffer, k);
    } else {
      NoSixth(buffer);
    }
  }

  /** An aligned address in the first page of the buffer, with room for five pages behind it. */
  predicate BeginsIn(buffer: bv64, first: bv64) {
    first & 0xfff == 0 && buffer <= first < buffer + 0x1000 && first + 0x5000 < buffer + 0x6000
  }

  function Onward(first: bv64, k: nat): bv64 {
    if k == 0 then first
    else if k == 1 then first + 0x1000
    else if k == 2 then first + 0x2000
    else if k == 3 then first + 0x3000
    else first + 0x4000
  }

  lemma FirstPageInside(buffer: bv64)
    requires buffer < 0x8000_0000_0000
    ensures BeginsIn(buffer, PageUp(buffer))
  {
  }

  lemma Page0(first: bv64)
    ensures PageAt(first, 0) == Onward(first, 0)
  {
  }

  lemma Page1(first: bv64)
    ensures PageAt(first, 1) == Onward(first, 1)
  {
  }

  lemma Page2(first: bv64)
    ensures PageAt(first, 2) == Onward(first, 2)
  {
  }

  lemma Page3(first: bv64)
    ensures PageAt(first, 3) == Onward(first, 3)
  {
  }

  lemma Page4(first: bv64)
    ensures PageAt(first, 4) == Onward(first, 4)
  {
  }

  lemma PageAtIs(first: bv64, k: nat)
    requires k < 5
    ensures PageAt(first, Bits(k)) == Onward(first, k)
  {
    hide PageAt, Onward;
    if
    case k == 0 => Page0(first);
    case k == 1 => Page1(first);
    case k == 2 => Page2(first);
    case k == 3 => Page3(first);
    case k == 4 => Page4(first);
  }

  /** The pages start at the first aligned address of the buffer, follow one another, and end inside it. */
  lemma PagesInside(buffer: bv64, k: nat)
    requires buffer < 0x8000_0000_0000 && k < 5
    ensures BeginsIn(buffer, PageNo(buffer, 0)) && PageNo(buffer, k) == Onward(PageNo(buffer, 0), k)
  {
    hide PageUp, PageAt, BeginsIn, Onward;
    FirstPageInside(buffer);
    FirstPage(buffer);
    PageAtIs(PageUp(buffer), k);
  }

  lemma PageBelow32(buffer: bv64, k: nat)
    requires buffer < 0x1_0000_0000 - BUFFER_SIZE && k < 5
    ensures PageNo(buffer, k) < 0x1_0000_0000
  {
  }

  lemma PageBelow39(buffer: bv64, k: nat)
    requires buffer < 0x40_0000_0000 - BUFFER_SIZE && k < 5
    ensures PageNo(buffer, k) < 0x40_0000_0000
  {
  }

  lemma PageBelow48(buffer: bv64, k: nat)
    requires buffer < 0x8000_0000_0000 - BUFFER_SIZE && k < 5
    ensures PageNo(buffer, k) < 0x8000_0000_0000
  {
  }

  lemma PageBelowBound(s: System, buffer: bv64, k: nat)
    requires BufferFits(s, buffer) && k < 5
    ensures PageNo(buffer, k) < s.AddressBound()
  {
    hide PageNo;
    match s
    case Sv32 => PageBelow32(buffer, k);
    case Sv39 => PageBelow39(buffer, k);
    case Sv48 => PageBelow48(buffer, k);
  }

  lemma BufferIsLow(s: System, buffer: bv64)
    requires BufferFits(s, buffer)
    ensures buffer < 0x8000_0000_0000
  {
  }

  lemma BelowFits32(page: bv64)
    requires page < 0x1_0000_0000
    ensures FitsPhysical(Sv32, page)
  {
  }

  lemma BelowFits64(s: System, page: bv64)
    requires !s.Sv32? && page < 0x8000_0000_0000
    ensures FitsPhysical(s, page)
  {
  }

  lemma PageFits(s: System, buffer: bv64, k: nat)
    requires BufferFits(s, buffer) && k < 5
    ensures FitsPhysical(s, PageNo(buffer, k))
  {
    hide PageNo, FitsPhysical;
    match s
    case Sv32 => PageBelow32(buffer, k); BelowFits32(PageNo(buffer, k));
    case _ => FitsIn48(s, buffer); PageBelow48(buffer, k); BelowFits64(s, PageNo(buffer, k));
  }

  lemma FitsIn48(s: System, buffer: bv64)
    requires BufferFits(s, buffer)
    ensures buffer < 0x8000_0000_0000 - BUFFER_SIZE
  {
  }

  // ---------------------------------------------------------------------
  // Chains of tables
  // ---------------------------------------------------------------------

  /** The entries for an address lead through these tables, from a level down to the bottom one. */
  ghost predicate Chain(s: System, m: Memory, address: bv64, level: nat, tables: seq<bv64>, bottom: nat)
    requires level < s.Levels()
    decreases |tables|
  {
    if |tables| <= 1 then |tables| == 1 && level == bottom
    else
      && level > 0
      && Entry(s, m, tables[0], Vpn(s, address, level)) == PointerPte(tables[1])
      && Chain(s, m, address, level - 1, tables[1..], bottom)
  }

  ghost predicate ArePages(s: System, pages: seq<bv64>) {
    forall p :: p in pages ==> Aligned(p) && FitsPhysical(s, p)
  }

  /** Two addresses agree in every index from a level up. */
  ghost predicate SameIndices(s: System, a: bv64, b: bv64, level: nat) {
    forall k: nat :: level <= k < s.Levels() ==> Vpn(s, a, k) == Vpn(s, b, k)
  }

  /** Walking down a chain that ends in the entry add_entry writes: the offset is kept, the rest replaced. */
  lemma {:induction false} WalkChain(s: System, m: Memory, address: bv64, level: nat, tables: seq<bv64>, bottom: nat,
                                     physical: bv64, va: bv64)
    requires bottom <= level < s.Levels() && PteShift(s, bottom) < 31
    requires Chain(s, m, address, level, tables, bottom) && ArePages(s, tables) && FitsPhysical(s, physical)
    requires Entry(s, m, tables[|tables| - 1], Vpn(s, address, bottom)) == LeafPte(s, bottom, physical)
    requires SameIndices(s, va, address, bottom)
    ensures Walk(s, m, tables[0], level, va) == Some(Join(physical, va, VpnShift(s, bottom)))
    decreases |tables|
  {
    hide Entry, Vpn, LeafPte, PointerPte, PteFaults, IsLeaf, LeafTarget, Join, PteAddress, Aligned, FitsPhysical,
         VpnShift, PteShift, Walk;
    assert Vpn(s, va, level) == Vpn(s, address, level);
    WalkStep(s, m, tables[0], level, va);
    if |tables| == 1 {
      LeafIsPhysical(s, bottom, physical, va);
    } else {
      PointerFollowed(s, tables[1]);
      assert tables[1..][|tables[1..]| - 1] == tables[|tables| - 1];
      ChainGoesDown(s, m, address, level, tables, bottom);
      WalkChain(s, m, address, level - 1, tables[1..], bottom, physical, va);
    }
  }

  lemma {:induction false} ChainGoesDown(s: System, m: Memory, address: bv64, level: nat, tables: seq<bv64>,
                                         bottom: nat)
    requires level < s.Levels() && Chain(s, m, address, level, tables, bottom) && |tables| > 1
    ensures bottom <= level - 1
    decreases |tables|
  {
    hide Entry, Vpn, PointerPte;
    if |tables| > 2 {
      ChainGoesDown(s, m, address, level - 1, tables[1..], bottom);
    }
  }

  /** A chain is extended by the entry for a new table. */
  lemma {:induction false} ChainExtended(s: System, m: Memory, address: bv64, level: nat, tables: seq<bv64>,
                                         bottom: nat, page: bv64)
    requires level < s.Levels() && 0 < bottom < s.Levels() && Chain(s, m, address, level, tables, bottom)
    requires Entry(s, m, tables[|tables| - 1], Vpn(s, address, bottom)) == PointerPte(page)
    ensures Chain(s, m, address, level, tables + [page], bottom - 1)
    decreases |tables|
  {
    hide Entry, Vpn, PointerPte;
    var longer := tables + [page];
    assert longer[1..] == tables[1..] + [page];
    if |tables| > 1 {
      ChainExtended(s, m, address, level - 1, tables[1..], bottom, page);
    }
  }

  /** A chain depends on the entries of all its tables but the last. */
  lemma {:induction false} ChainFrame(s: System, m: Memory, m': Memory, address: bv64, level: nat, tables: seq<bv64>,
                                      bottom: nat)
    requires level < s.Levels() && Chain(s, m, address, level, tables, bottom)
    requires forall t, k: nat :: t in tables[..|tables| - 1] && k < s.Levels() ==>
               Entry(s, m', t, Vpn(s, address, k)) == Entry(s, m, t, Vpn(s, address, k))
    ensures Chain(s, m', address, level, tables, bottom)
    decreases |tables|
  {
    hide Entry, Vpn, PointerPte;
    if |tables| > 1 {
      assert tables[0] in tables[..|tables| - 1];
      assert tables[1..][..|tables[1..]| - 1] == tables[..|tables| - 1][1..];
      ChainFrame(s, m, m', address, level - 1, tables[1..], bottom);
    }
  }

  /** Every one of these is a page already taken from the buffer. */
  ghost predicate AreTaken(buffer: bv64, pages: seq<bv64>, taken: nat) {
    forall p :: p in pages ==> exists k: nat :: k < taken <= 5 && p == PageNo(buffer, k)
  }

  lemma TakenArePages(s: System, buffer: bv64, pages: seq<bv64>, taken: nat)
    requires BufferFits(s, buffer) && taken <= 5 && AreTaken(buffer, pages, taken)
    ensures ArePages(s, pages)
  {
    hide BufferFits, Aligned, FitsPhysical, PageNo;
    forall p | p in pages
      ensures Aligned(p) && FitsPhysical(s, p)
    {
      var k: nat :| k < taken <= 5 && p == PageNo(buffer, k);
      PageNoAligned(buffer, k);
      PageFits(s, buffer, k);
    }
  }

  lemma NextIsNew(buffer: bv64, pages: seq<bv64>, taken: nat)
    requires taken < 5 && AreTaken(buffer, pages, taken)
    ensures PageNo(buffer, taken) !in pages
    ensures AreTaken(buffer, pages + [PageNo(buffer, taken)], taken + 1)
  {
    hide PageNo;
    var page := PageNo(buffer, taken);
    if page in pages {
      var k: nat :| k < taken <= 5 && page == PageNo(buffer, k);
      PagesDiffer(buffer, k, taken);
      assert false;
    }
    forall p | p in pages + [page]
      ensures exists k: nat :: k < taken + 1 && p == PageNo(buffer, k)
    {
      if p in pages {
        var k: nat :| k < taken <= 5 && p == PageNo(buffer, k);
        assert k < taken + 1;
      } else {
        assert taken < taken + 1;
      }
    }
  }

  // ---------------------------------------------------------------------
  // The program
  // ---------------------------------------------------------------------

  lemma IndexStep(i: bv64, j: bv64)
    requires i < 1024 && j < i + 1 && j != i
    ensures j < i
  {
  }

  lemma SameThrough(m: Memory, m': Memory, m'': Memory, pages: seq<bv64>, more: seq<bv64>)
    requires SameOutside(m, m', pages) && SameOutside(m', m'', more)
    requires forall p :: p in more ==> p in pages
    ensures SameOutside(m, m'', pages)
  {
    hide Load, PageOf;
  }

  class Program {
    const vms: System
    const pageBuffer: bv64
    var pageBufferNext: bv64
    var memory: Memory
    /** How many pages get_page has handed out. */
    ghost var taken: nat

    ghost predicate Valid()
      reads this
    {
      BufferFits(vms, pageBuffer) && taken <= 5 && pageBufferNext == NextAfter(pageBuffer, taken)
    }

    constructor (vms: System, pageBuffer: bv64, memory: Memory)
      requires BufferFits(vms, pageBuffer)
      ensures Valid() && taken == 0 && this.vms == vms && this.pageBuffer == pageBuffer && this.memory == memory
    {
      this.vms, this.pageBuffer, this.memory := vms, pageBuffer, memory;
      pageBufferNext, taken := pageBuffer, 0;
    }

    /** The next page of the buffer; the source waits for ever once there is none. */
    method GetPage() returns (result: bv64)
      requires Valid() && !Exhausted(pageBuffer, PageUp(pageBufferNext))
      modifies `pageBufferNext, `taken
      ensures Valid() && old(taken) < 5 && taken == old(taken) + 1
      ensures result == PageNo(pageBuffer, old(taken))
    {
      hide PageUp, PageNo, NextAfter, Exhausted, PageEnd, BufferFits;
      BufferIsLow(vms, pageBuffer);
      FivePages(pageBuffer, taken);
      pageBufferNext := PageUp(pageBufferNext);
      result := pageBufferNext;
      pageBufferNext := PageEnd(pageBufferNext);
      taken := taken + 1;
    }

    method SetupPageTable(table: bv64, level: nat, physical: bv64)
      requires Aligned(table) && level < vms.Levels()
      modifies `memory
      ensures FilledBelow(vms, memory, table, level, physical, vms.Entries())
      ensures SameOutside(old(memory), memory, [table])
    {
      hide Filling, FilledBelow, SameOutside, EntrySet, TablePte, IsIndex, Count;
      var i: bv64 := 0;
      NothingFilled(vms, memory, table, level, physical);
      while IsIndex(vms, i)
        invariant Filling(vms, old(memory), memory, table, level, physical, i)
        decreases 1024 - Count(i)
      {
        FillOne(vms, old(memory), memory, table, level, physical, i);
        var pte := TablePte(vms, level, physical, i);
        memory := EntrySet(vms, memory, table, i, pte);
        i := i + 1;
      }
      AllFilled(vms, old(memory), memory, table, level, physical, i);
    }

    /** A new table, filled, and its entry in the table above; `filled` is the memory between the two. */
    method NewTable(current: bv64, currentLevel: nat, virtual: bv64) returns (newPage: bv64, ghost filled: Memory)
      requires 0 < currentLevel < vms.Levels() && Valid() && !Exhausted(pageBuffer, PageUp(pageBufferNext))
      modifies this
      ensures Valid() && old(taken) < 5 && taken == old(taken) + 1 && newPage == PageNo(pageBuffer, old(taken))
      ensures FilledBelow(vms, filled, newPage, currentLevel - 1, virtual, vms.Entries())
      ensures SameOutside(old(memory), filled, [newPage])
      ensures memory == EntrySet(vms, filled, current, Vpn(vms, virtual, currentLevel), PointerPte(newPage))
    {
      hide EntrySet, FilledBelow, SameOutside, PointerPte, Vpn, Aligned, PageNo, PageUp, Exhausted, NextAfter,
           BufferFits;
      newPage := GetPage();
      PageNoAligned(pageBuffer, old(taken));
      SetupPageTable(newPage, currentLevel - 1, virtual);
      filled := memory;
      memory := EntrySet(vms, memory, current, Vpn(vms, virtual, currentLevel), PointerPte(newPage));
    }

    /**
     * Maps virtual to physical at a level, 0 for a 4 KB page. `tables` are the tables the loop goes through.
     * Where the first entry read is a leaf or invalid they are new and lead to the entry written. Where it
     * is a pointer, the loop takes the entry for the address of the next table and goes astray.
     */
    method AddEntry(table: bv64, level: nat, virtual: bv64, physical: bv64, ghost r: nat)
      returns (ghost tables: seq<bv64>)
      requires level <= vms.Top() && PteShift(vms, level) < 31
      requires Valid() && r < taken && table == PageNo(pageBuffer, r) && FitsPhysical(vms, physical)
      requires taken + (vms.Top() - level) <= 5
      modifies this
      ensures Valid() && old(taken) <= taken
      ensures OpensPath(vms, old(memory), table, virtual, level) ==>
                && taken == old(taken) + (vms.Top() - level)
                && Added(vms, old(memory), memory, table, virtual, level, physical, tables)
                && NewPages(pageBuffer, tables, old(taken), taken) && AreTaken(pageBuffer, tables, taken)
      ensures !OpensPath(vms, old(memory), table, virtual, level) ==>
                Strayed(vms, pageBuffer, old(memory), memory, table, virtual, level, tables, old(taken), taken)
    {
      hide Entry, EntrySet, Descending, Straying, OnTheWay, OpensPath, Added, Strayed, NewPages, AreTaken,
           Replaceable, LeafPte, Vpn, FitsPhysical, PageNo, NextAfter, BufferFits, PteShift, PageOf, FilledBelow,
           SameOutside, PointerPte, Exhausted, PageUp;
      ghost var d := Descent(vms, pageBuffer, memory, taken, table, virtual, level);
      var current := table;
      tables := [table];
      var currentLevel := vms.Top();
      PathStarts(d, r);
      while true
        invariant level <= currentLevel <= vms.Top() && tables != [] && tables[|tables| - 1] == current
        invariant Valid() && OnTheWay(d, memory, taken, tables, currentLevel)
        decreases currentLevel
      {
        var index := Vpn(vms, virtual, currentLevel);
        if currentLevel <= level {
          var pte := LeafPte(vms, currentLevel, physical);
          PathEnds(d, memory, taken, tables, physical, EntrySet(vms, memory, current, index, pte));
          memory := EntrySet(vms, memory, current, index, pte);
          return;
        }
        var pte := Entry(vms, memory, current, index);
        ghost var before, k := memory, taken;
        if Replaceable(pte) {
          PathNeedsPage(d, memory, taken, tables, currentLevel);
          ghost var filled;
          current, filled := NewTable(current, currentLevel, virtual);
          PathGoesDown(d, before, k, tables, currentLevel, filled, memory);
          tables := tables + [current];
        } else {
          PathTurns(d, memory, taken, tables, currentLevel);
          current := PageOf(pte);
          tables := tables + [current];
        }
        currentLevel := currentLevel - 1;
      }
    }
  }

  /** add_entry makes new tables: it is asked for a root entry, or the root's entry is a leaf or invalid. */
  predicate OpensPath(s: System, m: Memory, root: bv64, virtual: bv64, level: nat) {
    level == s.Top() || Replaceable(Entry(s, m, root, Vpn(s, virtual, s.Top())))
  }

  /** The tables past the first are pages handed out between two moments. */
  ghost predicate NewPages(buffer: bv64, tables: seq<bv64>, from: nat, to: nat) {
    forall i :: 1 <= i < |tables| ==> IsNewPage(buffer, tables[i], from, to)
  }

  ghost predicate IsNewPage(buffer: bv64, page: bv64, from: nat, to: nat) {
    exists k: nat :: from <= k < to <= 5 && page == PageNo(buffer, k)
  }

  /** What add_entry does: a chain of tables to the new entry, and no other change at the root or outside them. */
  ghost predicate Added(s: System, m0: Memory, m: Memory, root: bv64, virtual: bv64, level: nat, physical: bv64,
                        tables: seq<bv64>)
  {
    && level < s.Levels()
    && tables != [] && tables[0] == root
    && Chain(s, m, virtual, s.Top(), tables, level)
    && Entry(s, m, tables[|tables| - 1], Vpn(s, virtual, level)) == LeafPte(s, level, physical)
    && SameOutside(m0, m, tables)
    && SameRoot(s, m0, m, root, virtual)
  }

  /**
   * What add_entry does where the root's entry is a pointer: nothing to the root. Everything it writes is
   * in the page whose address the entry would be, and in the tables it reaches from there; these are new
   * pages when that page holds a leaf or nothing for the address.
   */
  ghost predicate Strayed(s: System, buffer: bv64, m0: Memory, m: Memory, root: bv64, virtual: bv64, level: nat,
                          tables: seq<bv64>, from: nat, to: nat)
  {
    && |tables| >= 2 && tables[0] == root
    && tables[1] == PageOf(Entry(s, m0, root, Vpn(s, virtual, s.Top())))
    && SameOutside(m0, m, tables[1..])
    && (StaysThere(s, buffer, m0, tables[1], virtual, level, from) ==> NewPages(buffer, tables[1..], from, to))
  }

  /** From a table below the root, add_entry meets no further pointer. */
  ghost predicate StaysThere(s: System, buffer: bv64, m: Memory, table: bv64, virtual: bv64, level: nat, taken: nat) {
    || level == s.Top() - 1
    || (Replaceable(Entry(s, m, table, Vpn(s, virtual, s.Top() - 1)))
        && forall k: nat :: taken <= k < 5 ==> table != PageNo(buffer, k))
  }

  /** The root table is the same but for the entry of an address. */
  ghost predicate SameRoot(s: System, m0: Memory, m: Memory, root: bv64, address: bv64) {
    forall j: bv64 :: IsIndex(s, j) && j != Vpn(s, address, s.Top()) ==> Entry(s, m, root, j) == Entry(s, m0, root, j)
  }

  /** One call of add_entry: its arguments, and the memory and pages handed out when it began. */
  datatype Descent = Descent(s: System, buffer: bv64, m0: Memory, t0: nat, root: bv64, virtual: bv64, level: nat)

  /** Of the five pages, one was used for each level passed, and one is left for each level to come. */
  ghost predicate Budget(s: System, t0: nat, taken: nat, level: nat, current: nat) {
    && level <= current <= s.Top() && t0 <= taken <= 5
    && taken == t0 + (s.Top() - current) && taken + (current - level) <= 5
  }

  lemma BudgetStep(s: System, t0: nat, taken: nat, level: nat, current: nat)
    requires Budget(s, t0, taken, level, current) && level < current
    ensures t0 <= taken < 5 && Budget(s, t0, taken + 1, level, current - 1)
  {
  }

  lemma BudgetBound(s: System, t0: nat, taken: nat, level: nat, current: nat)
    requires Budget(s, t0, taken, level, current)
    ensures t0 <= taken <= 5
  {
  }

  /** add_entry on its way down, at a level. */
  ghost predicate Descending(d: Descent, m: Memory, taken: nat, tables: seq<bv64>, current: nat) {
    && d.level <= current < d.s.Levels() && tables != []
    && (d.level < current ==> Replaceable(Entry(d.s, m, tables[|tables| - 1], Vpn(d.s, d.virtual, current))))
    && tables[0] == d.root && tables[|tables| - 1] !in tables[..|tables| - 1]
    && Chain(d.s, m, d.virtual, d.s.Top(), tables, current)
    && AreTaken(d.buffer, tables, taken) && NewPages(d.buffer, tables, d.t0, taken)
    && SameOutside(d.m0, m, tables) && SameRoot(d.s, d.m0, m, d.root, d.virtual)
    && Budget(d.s, d.t0, taken, d.level, current)
  }

  /** add_entry on its way down after it has gone astray at the root. */
  ghost predicate Straying(d: Descent, m: Memory, taken: nat, tables: seq<bv64>, current: nat) {
    && d.level <= current < d.s.Top() && |tables| >= 2 && tables[0] == d.root
    && tables[1] == PageOf(Entry(d.s, d.m0, d.root, Vpn(d.s, d.virtual, d.s.Top())))
    && Aligned(tables[|tables| - 1])
    && SameOutside(d.m0, m, tables[1..])
    && StrayBudget(d.t0, taken, d.level, current)
    && (StaysThere(d.s, d.buffer, d.m0, tables[1], d.virtual, d.level, d.t0) ==> Staying(d, m, taken, tables, current))
  }

  /** The tables after the wrong one are new, and the last is still to be replaced. */
  ghost predicate Staying(d: Descent, m: Memory, taken: nat, tables: seq<bv64>, current: nat)
    requires |tables| >= 2 && current < d.s.Levels()
  {
    && NewPages(d.buffer, tables[1..], d.t0, taken)
    && (d.level < current ==> Replaceable(Entry(d.s, m, tables[|tables| - 1], Vpn(d.s, d.virtual, current))))
  }

  ghost predicate StrayBudget(t0: nat, taken: nat, level: nat, current: nat) {
    level <= current && t0 <= taken <= 5 && taken + (current - level) <= 5
  }

  // ---------------------------------------------------------------------
  // The loop of setup_page_table
  // ---------------------------------------------------------------------

  /** The first n entries of a table are those setup_page_table writes. */
  ghost predicate FilledBelow(s: System, m: Memory, table: bv64, level: nat, physical: bv64, n: bv64) {
    && level < s.Levels()
    && forall i: bv64 :: i < n ==> Entry(s, m, table, i) == Stored(s, TablePte(s, level, physical, i))
  }

  lemma FilledAt(s: System, m: Memory, table: bv64, level: nat, physical: bv64, i: bv64)
    requires FilledBelow(s, m, table, level, physical, s.Entries()) && i < s.Entries()
    ensures level < s.Levels() && Entry(s, m, table, i) == Stored(s, TablePte(s, level, physical, i))
  {
    hide Entry, TablePte, Stored;
  }

  /** The loop test of setup_page_table. */
  predicate IsIndex(s: System, i: bv64) {
    i < s.Entries()
  }

  function Count(i: bv64): nat {
    i as nat
  }

  predicate UpTo(s: System, i: bv64) {
    i <= s.Entries()
  }

  /** Half-way through setup_page_table. */
  ghost predicate Filling(s: System, m0: Memory, m: Memory, table: bv64, level: nat, physical: bv64, i: bv64) {
    UpTo(s, i) && FilledBelow(s, m, table, level, physical, i) && SameOutside(m0, m, [table])
  }

  lemma NothingFilled(s: System, m: Memory, table: bv64, level: nat, physical: bv64)
    requires level < s.Levels()
    ensures Filling(s, m, m, table, level, physical, 0)
  {
  }

  lemma FillOne(s: System, m0: Memory, m: Memory, table: bv64, level: nat, physical: bv64, i: bv64)
    requires Aligned(table) && level < s.Levels() && IsIndex(s, i)
    requires Filling(s, m0, m, table, level, physical, i)
    ensures Filling(s, m0, EntrySet(s, m, table, i, TablePte(s, level, physical, i)), table, level, physical, i + 1)
    ensures Count(i + 1) == Count(i) + 1 <= 1024
  {
    hide UpTo, FilledBelow, SameOutside, EntrySet, TablePte, Aligned;
    var pte := TablePte(s, level, physical, i);
    var m' := EntrySet(s, m, table, i, pte);
    IndexAdvances(s, i);
    CountAdvances(i);
    OneFilled(s, m, table, level, physical, i);
    EntrySetFrame(s, m, table, i, pte);
    SameThrough(m0, m, m', [table], [table]);
  }

  lemma AllFilled(s: System, m0: Memory, m: Memory, table: bv64, level: nat, physical: bv64, i: bv64)
    requires !IsIndex(s, i) && Filling(s, m0, m, table, level, physical, i)
    ensures FilledBelow(s, m, table, level, physical, s.Entries()) && SameOutside(m0, m, [table])
  {
    hide UpTo, FilledBelow, SameOutside;
    IndexDone(s, i);
  }

  lemma OneFilled(s: System, m: Memory, table: bv64, level: nat, physical: bv64, i: bv64)
    requires Aligned(table) && level < s.Levels() && i < s.Entries()
    requires FilledBelow(s, m, table, level, physical, i)
    ensures FilledBelow(s, EntrySet(s, m, table, i, TablePte(s, level, physical, i)), table, level, physical, i + 1)
  {
    hide Entry, EntrySet, Stored, TablePte, Aligned;
    var pte := TablePte(s, level, physical, i);
    forall j: bv64 | j < i + 1
      ensures Entry(s, EntrySet(s, m, table, i, pte), table, j) == Stored(s, TablePte(s, level, physical, j))
    {
      IndicesBelow(s, i, j);
      EntryStored(s, m, table, i, pte, j);
      if j != i {
        IndexStep(i, j);
      }
    }
  }

  lemma IndicesBelow(s: System, i: bv64, j: bv64)
    requires i < s.Entries() && j < i + 1
    ensures j < s.Entries() && i < 1024
  {
  }

  lemma CountAdvances(i: bv64)
    requires i < 1024
    ensures Count(i + 1) == Count(i) + 1 <= 1024
  {
  }

  lemma Advance1024(i: bv64)
    requires i < 1 << 10
    ensures i + 1 <= 1 << 10
  {
  }

  lemma Advance512(i: bv64)
    requires i < 1 << 9
    ensures i + 1 <= 1 << 9
  {
  }

  lemma IndexAdvances(s: System, i: bv64)
    requires i < s.Entries()
    ensures UpTo(s, i + 1) && i < 1024
  {
    match s
    case Sv32 => Advance1024(i);
    case _ => Advance512(i);
  }

  lemma Done1024(i: bv64)
    requires i <= 1 << 10 && !(i < 1 << 10)
    ensures i == 1 << 10
  {
  }

  lemma Done512(i: bv64)
    requires i <= 1 << 9 && !(i < 1 << 9)
    ensures i == 1 << 9
  {
  }

  lemma IndexDone(s: System, i: bv64)
    requires UpTo(s, i) && !(i < s.Entries())
    ensures i == s.Entries()
  {
    match s
    case Sv32 => Done1024(i);
    case _ => Done512(i);
  }

  /** add_entry replaces any entry of a table just filled. */
  lemma FreshOpens(s: System, m: Memory, root: bv64, va: bv64, level: nat)
    requires FilledBelow(s, m, root, s.Top(), 0, s.Entries())
    ensures OpensPath(s, m, root, va, level)
  {
    hide Entry, Vpn, Replaceable, TablePte, Stored, FilledBelow;
    VpnIsIndex(s, va, s.Top());
    FilledAt(s, m, root, s.Top(), 0, Vpn(s, va, s.Top()));
    FreshIsReplaceable(s, s.Top(), 0, Vpn(s, va, s.Top()));
  }

  // ---------------------------------------------------------------------
  // The steps of add_entry
  // ---------------------------------------------------------------------

  lemma DescentStarts(d: Descent, r: nat)
    requires d.level <= d.s.Top() && r < d.t0 <= 5 && d.root == PageNo(d.buffer, r)
    requires Budget(d.s, d.t0, d.t0, d.level, d.s.Top())
    requires OpensPath(d.s, d.m0, d.root, d.virtual, d.level)
    ensures Descending(d, d.m0, d.t0, [d.root], d.s.Top())
  {
    hide Entry, Vpn, Replaceable, PageNo, Budget;
    assert AreTaken(d.buffer, [d.root], d.t0) && NewPages(d.buffer, [d.root], d.t0, d.t0) && [d.root][..0] == [];
  }

  /** Where add_entry is at a level: on its new path, or astray below the root. */
  ghost predicate OnTheWay(d: Descent, m: Memory, taken: nat, tables: seq<bv64>, current: nat) {
    && d.level <= current <= d.s.Top() && tables != []
    && (current == d.s.Top() ==> m == d.m0 && taken == d.t0 && tables == [d.root])
    && if OpensPath(d.s, d.m0, d.root, d.virtual, d.level) then Descending(d, m, taken, tables, current)
       else current == d.s.Top() || Straying(d, m, taken, tables, current)
  }

  lemma PathStarts(d: Descent, r: nat)
    requires d.level <= d.s.Top() && r < d.t0 <= 5 && d.root == PageNo(d.buffer, r)
    requires Budget(d.s, d.t0, d.t0, d.level, d.s.Top())
    ensures OnTheWay(d, d.m0, d.t0, [d.root], d.s.Top())
  {
    hide OpensPath, Descending, PageNo, Budget;
    if OpensPath(d.s, d.m0, d.root, d.virtual, d.level) {
      DescentStarts(d, r);
    }
  }

  lemma BudgetLeft(s: System, t0: nat, taken: nat, level: nat, current: nat)
    requires level < current && (Budget(s, t0, taken, level, current) || StrayBudget(t0, taken, level, current))
    ensures taken < 5
  {
  }

  lemma PathNeedsPage(d: Descent, m: Memory, taken: nat, tables: seq<bv64>, current: nat)
    requires d.level < current && BufferFits(d.s, d.buffer) && OnTheWay(d, m, taken, tables, current)
    requires Replaceable(Entry(d.s, m, tables[|tables| - 1], Vpn(d.s, d.virtual, current)))
    ensures taken < 5 && !Exhausted(d.buffer, PageUp(NextAfter(d.buffer, taken)))
  {
    hide Entry, Vpn, Replaceable, PageNo, PageUp, NextAfter, Exhausted, Aligned, Chain, SameOutside, SameRoot,
         BufferFits, Budget, StrayBudget, AreTaken, NewPages, PageOf, StaysThere, Staying;
    BudgetLeft(d.s, d.t0, taken, d.level, current);
    BufferIsLow(d.s, d.buffer);
    FivePages(d.buffer, taken);
  }

  lemma NotAtTop(d: Descent, m: Memory, taken: nat, tables: seq<bv64>, current: nat)
    requires d.level < current && OnTheWay(d, m, taken, tables, current)
    requires Replaceable(Entry(d.s, m, tables[|tables| - 1], Vpn(d.s, d.virtual, current)))
    requires !OpensPath(d.s, d.m0, d.root, d.virtual, d.level)
    ensures current < d.s.Top()
  {
    hide Entry, Vpn, Replaceable, Straying, Descending;
  }

  /** The loop's step where the entry is replaced. */
  lemma PathGoesDown(d: Descent, m: Memory, taken: nat, tables: seq<bv64>, current: nat, m1: Memory, m2: Memory)
    requires d.level < current < d.s.Levels() && BufferFits(d.s, d.buffer) && taken < 5
    requires OnTheWay(d, m, taken, tables, current)
    requires Replaceable(Entry(d.s, m, tables[|tables| - 1], Vpn(d.s, d.virtual, current)))
    requires m2 ==
             EntrySet(d.s, m1, tables[|tables| - 1], Vpn(d.s, d.virtual, current), PointerPte(PageNo(d.buffer, taken)))
    requires SameOutside(m, m1, [PageNo(d.buffer, taken)])
    requires FilledBelow(d.s, m1, PageNo(d.buffer, taken), current - 1, d.virtual, d.s.Entries())
    ensures OnTheWay(d, m2, taken + 1, tables + [PageNo(d.buffer, taken)], current - 1)
  {
    hide Entry, EntrySet, Vpn, Replaceable, PageNo, Descending, Straying, SameOutside, FilledBelow, PointerPte,
         BufferFits;
    if OpensPath(d.s, d.m0, d.root, d.virtual, d.level) {
      DescentStep(d, m, taken, tables, current, m1, m2);
    } else {
      assert current < d.s.Top() by { NotAtTop(d, m, taken, tables, current); }
      StrayStep(d, m, taken, tables, current, m1, m2);
    }
  }

  /** The loop's step where the entry is a pointer. */
  lemma PathTurns(d: Descent, m: Memory, taken: nat, tables: seq<bv64>, current: nat)
    requires d.level < current && OnTheWay(d, m, taken, tables, current)
    requires d.t0 + (d.s.Top() - d.level) <= 5
    requires !Replaceable(Entry(d.s, m, tables[|tables| - 1], Vpn(d.s, d.virtual, current)))
    ensures OnTheWay(d, m, taken, tables + [PageOf(Entry(d.s, m, tables[|tables| - 1], Vpn(d.s, d.virtual, current)))],
                     current - 1)
  {
    hide Entry, Vpn, Replaceable, Descending, Straying, PageOf;
    if OpensPath(d.s, d.m0, d.root, d.virtual, d.level) {
      DescentReplaces(d, m, taken, tables, current);
      assert false;
    } else if current == d.s.Top() {
      StrayStarts(d);
    } else {
      StrayTurns(d, m, taken, tables, current);
    }
  }

  /** The loop's end. */
  lemma PathEnds(d: Descent, m: Memory, taken: nat, tables: seq<bv64>, physical: bv64, m': Memory)
    requires d.level < d.s.Levels() && PteShift(d.s, d.level) < 31 && FitsPhysical(d.s, physical) && tables != []
    requires m' == EntrySet(d.s, m, tables[|tables| - 1], Vpn(d.s, d.virtual, d.level), LeafPte(d.s, d.level, physical))
    requires BufferFits(d.s, d.buffer) && OnTheWay(d, m, taken, tables, d.level)
    ensures d.t0 <= taken
    ensures OpensPath(d.s, d.m0, d.root, d.virtual, d.level) ==>
              && taken == d.t0 + (d.s.Top() - d.level)
              && Added(d.s, d.m0, m', d.root, d.virtual, d.level, physical, tables)
              && NewPages(d.buffer, tables, d.t0, taken) && AreTaken(d.buffer, tables, taken)
    ensures !OpensPath(d.s, d.m0, d.root, d.virtual, d.level) ==>
              Strayed(d.s, d.buffer, d.m0, m', d.root, d.virtual, d.level, tables, d.t0, taken)
  {
    hide Entry, EntrySet, Vpn, Replaceable, Descending, Straying, Added, Strayed, NewPages, AreTaken, LeafPte,
         PteShift, FitsPhysical, BufferFits;
    if OpensPath(d.s, d.m0, d.root, d.virtual, d.level) {
      DescentEnds(d, m, taken, tables, physical, m');
    } else {
      StrayEnds(d, m, taken, tables, physical, m');
    }
  }

  lemma DescentReplaces(d: Descent, m: Memory, taken: nat, tables: seq<bv64>, current: nat)
    requires d.level < current && Descending(d, m, taken, tables, current)
    ensures Replaceable(Entry(d.s, m, tables[|tables| - 1], Vpn(d.s, d.virtual, current)))
  {
    hide Entry, Vpn, Replaceable, Chain, SameOutside, SameRoot, Budget, AreTaken, NewPages;
  }

  // Astray

  lemma PageOfAligned(a: bv64)
    ensures Aligned(PageOf(a))
  {
  }

  lemma SameToItself(m: Memory, pages: seq<bv64>)
    ensures SameOutside(m, m, pages)
  {
    hide Load, PageOf;
  }

  lemma StrayStarts(d: Descent)
    requires d.level < d.s.Top() && d.t0 + (d.s.Top() - d.level) <= 5
    ensures var wrong := PageOf(Entry(d.s, d.m0, d.root, Vpn(d.s, d.virtual, d.s.Top())));
            Straying(d, d.m0, d.t0, [d.root] + [wrong], d.s.Top() - 1)
  {
    hide Entry, Vpn, Replaceable, PageOf, Aligned, SameOutside, PageNo;
    var entry := Entry(d.s, d.m0, d.root, Vpn(d.s, d.virtual, d.s.Top()));
    PageOfAligned(entry);
    SameToItself(d.m0, ([d.root] + [PageOf(entry)])[1..]);
  }

  lemma TailGrows(tables: seq<bv64>, page: bv64)
    requires tables != []
    ensures (tables + [page])[1..] == tables[1..] + [page]
  {
  }

  lemma LastInTail(tables: seq<bv64>)
    requires |tables| >= 2
    ensures tables[|tables| - 1] in tables[1..]
  {
    assert tables[1..][|tables| - 2] == tables[|tables| - 1];
  }

  lemma StrayTurns(d: Descent, m: Memory, taken: nat, tables: seq<bv64>, current: nat)
    requires d.level < current && Straying(d, m, taken, tables, current)
    requires !Replaceable(Entry(d.s, m, tables[|tables| - 1], Vpn(d.s, d.virtual, current)))
    ensures Straying(d, m, taken, tables + [PageOf(Entry(d.s, m, tables[|tables| - 1], Vpn(d.s, d.virtual, current)))],
                     current - 1)
  {
    hide Entry, Vpn, Replaceable, PageOf, Aligned, SameOutside, StaysThere, NewPages;
    var page := PageOf(Entry(d.s, m, tables[|tables| - 1], Vpn(d.s, d.virtual, current)));
    PageOfAligned(Entry(d.s, m, tables[|tables| - 1], Vpn(d.s, d.virtual, current)));
    TailGrows(tables, page);
    Widened(d.m0, m, tables[1..], tables[1..] + [page]);
  }

  lemma StrayStep(d: Descent, m: Memory, taken: nat, tables: seq<bv64>, current: nat, m1: Memory, m2: Memory)
    requires d.level < current < d.s.Top() && tables != [] && taken < 5
    requires m2 ==
             EntrySet(d.s, m1, tables[|tables| - 1], Vpn(d.s, d.virtual, current), PointerPte(PageNo(d.buffer, taken)))
    requires SameOutside(m, m1, [PageNo(d.buffer, taken)])
    requires FilledBelow(d.s, m1, PageNo(d.buffer, taken), current - 1, d.virtual, d.s.Entries())
    requires Straying(d, m, taken, tables, current)
    ensures Straying(d, m2, taken + 1, tables + [PageNo(d.buffer, taken)], current - 1)
  {
    hide Entry, EntrySet, Vpn, SameOutside, PointerPte, Aligned, StaysThere, Staying, PageNo, PageOf, FilledBelow;
    var page, last := PageNo(d.buffer, taken), tables[|tables| - 1];
    PageNoAligned(d.buffer, taken);
    TailGrows(tables, page);
    VpnIsIndex(d.s, d.virtual, current);
    EntrySetFrame(d.s, m1, last, Vpn(d.s, d.virtual, current), PointerPte(page));
    LastInTail(tables);
    Widened(d.m0, m, tables[1..], tables[1..] + [page]);
    SameThrough(d.m0, m, m1, tables[1..] + [page], [page]);
    SameThrough(d.m0, m1, m2, tables[1..] + [page], [last]);
    if StaysThere(d.s, d.buffer, d.m0, tables[1], d.virtual, d.level, d.t0) {
      StayStep(d, m, taken, tables, current, m1, m2);
    }
  }

  lemma StayStep(d: Descent, m: Memory, taken: nat, tables: seq<bv64>, current: nat, m1: Memory, m2: Memory)
    requires d.level < current < d.s.Top() && |tables| >= 2 && d.t0 <= taken < 5 && Aligned(tables[|tables| - 1])
    requires SameOutside(m1, m2, [tables[|tables| - 1]])
    requires FilledBelow(d.s, m1, PageNo(d.buffer, taken), current - 1, d.virtual, d.s.Entries())
    requires StaysThere(d.s, d.buffer, d.m0, tables[1], d.virtual, d.level, d.t0)
    requires Staying(d, m, taken, tables, current)
    ensures Staying(d, m2, taken + 1, tables + [PageNo(d.buffer, taken)], current - 1)
  {
    hide Entry, Vpn, SameOutside, Aligned, PageNo, FilledBelow, Replaceable, TablePte, Stored;
    var page, last := PageNo(d.buffer, taken), tables[|tables| - 1];
    TailGrows(tables, page);
    NewPagesGrow(d.buffer, tables[1..], d.t0, taken);
    assert last != page by {
      assert last == tables[1..][|tables| - 2];
      if |tables| > 2 {
        var k: nat :| d.t0 <= k < taken <= 5 && last == PageNo(d.buffer, k);
        PagesDiffer(d.buffer, k, taken);
      }
    }
    var index := Vpn(d.s, d.virtual, current - 1);
    VpnIsIndex(d.s, d.virtual, current - 1);
    PageNoAligned(d.buffer, taken);
    FilledAt(d.s, m1, page, current - 1, d.virtual, index);
    FreshIsReplaceable(d.s, current - 1, d.virtual, index);
    EntryFrame(d.s, m1, m2, [last], page, index);
  }

  lemma VpnSetFrame(s: System, m: Memory, table: bv64, va: bv64, level: nat, value: bv64)
    requires level < s.Levels() && Aligned(table)
    ensures SameOutside(m, EntrySet(s, m, table, Vpn(s, va, level), value), [table])
  {
    hide EntrySet, Vpn, SameOutside, Aligned;
    VpnIsIndex(s, va, level);
    EntrySetFrame(s, m, table, Vpn(s, va, level), value);
  }

  lemma LastWritten(s: System, m0: Memory, m: Memory, tables: seq<bv64>, va: bv64, level: nat, value: bv64, m': Memory)
    requires level < s.Levels() && |tables| >= 2 && Aligned(tables[|tables| - 1]) && SameOutside(m0, m, tables[1..])
    requires m' == EntrySet(s, m, tables[|tables| - 1], Vpn(s, va, level), value)
    ensures SameOutside(m0, m', tables[1..])
  {
    hide EntrySet, Vpn, SameOutside, Aligned;
    VpnSetFrame(s, m, tables[|tables| - 1], va, level, value);
    LastInTail(tables);
    SameThrough(m0, m, m', tables[1..], [tables[|tables| - 1]]);
  }

  lemma StrayedBudget(t0: nat, taken: nat, level: nat, current: nat)
    requires StrayBudget(t0, taken, level, current)
    ensures t0 <= taken
  {
  }

  lemma StrayEnds(d: Descent, m: Memory, taken: nat, tables: seq<bv64>, physical: bv64, m': Memory)
    requires d.level < d.s.Top() && tables != []
    requires m' == EntrySet(d.s, m, tables[|tables| - 1], Vpn(d.s, d.virtual, d.level), LeafPte(d.s, d.level, physical))
    requires Straying(d, m, taken, tables, d.level)
    ensures Strayed(d.s, d.buffer, d.m0, m', d.root, d.virtual, d.level, tables, d.t0, taken) && d.t0 <= taken
  {
    hide Entry, EntrySet, Vpn, SameOutside, LeafPte, Aligned, StaysThere, PageOf, NewPages, StrayBudget;
    StrayedBudget(d.t0, taken, d.level, d.level);
    LastWritten(d.s, d.m0, m, tables, d.virtual, d.level, LeafPte(d.s, d.level, physical), m');
  }

  /** Entries of other pages do not change. */
  lemma VpnFrame(s: System, m: Memory, m': Memory, pages: seq<bv64>, table: bv64, va: bv64, level: nat)
    requires SameOutside(m, m', pages) && table !in pages && Aligned(table) && level < s.Levels()
    ensures Entry(s, m', table, Vpn(s, va, level)) == Entry(s, m, table, Vpn(s, va, level))
  {
    hide Entry, Vpn, SameOutside, Aligned;
    VpnIsIndex(s, va, level);
    EntryFrame(s, m, m', pages, table, Vpn(s, va, level));
  }

  lemma PageOfChain(s: System, tables: seq<bv64>, page: bv64)
    requires ArePages(s, tables) && page in tables
    ensures Aligned(page)
  {
    hide Aligned, FitsPhysical;
  }

  /** A chain stands as long as nothing but its last table changes. */
  lemma ChainStands(s: System, m: Memory, m': Memory, virtual: bv64, tables: seq<bv64>, current: nat, page: bv64)
    requires current < s.Levels() && tables != [] && ArePages(s, tables)
    requires Chain(s, m, virtual, s.Top(), tables, current)
    requires SameOutside(m, m', [page]) && page !in tables[..|tables| - 1]
    ensures Chain(s, m', virtual, s.Top(), tables, current)
  {
    hide Entry, Vpn, SameOutside, ArePages, Aligned;
    forall t, k: nat | t in tables[..|tables| - 1] && k < s.Levels()
      ensures Entry(s, m', t, Vpn(s, virtual, k)) == Entry(s, m, t, Vpn(s, virtual, k))
    {
      assert t in tables;
      PageOfChain(s, tables, t);
      VpnFrame(s, m, m', [page], t, virtual, k);
    }
    ChainFrame(s, m, m', virtual, s.Top(), tables, current);
  }

  lemma SameRootOutside(s: System, m: Memory, m': Memory, root: bv64, virtual: bv64, page: bv64)
    requires SameOutside(m, m', [page]) && root != page && Aligned(root)
    ensures SameRoot(s, m, m', root, virtual)
  {
    hide Entry, Vpn, SameOutside, Aligned;
    forall j: bv64 | IsIndex(s, j) && j != Vpn(s, virtual, s.Top())
      ensures Entry(s, m', root, j) == Entry(s, m, root, j)
    {
      EntryFrame(s, m, m', [page], root, j);
    }
  }

  lemma SameRootSet(s: System, m: Memory, root: bv64, virtual: bv64, value: bv64)
    requires Aligned(root)
    ensures SameRoot(s, m, EntrySet(s, m, root, Vpn(s, virtual, s.Top()), value), root, virtual)
  {
    hide Entry, EntrySet, Vpn, Aligned, Stored;
    VpnIsIndex(s, virtual, s.Top());
    forall j: bv64 | IsIndex(s, j) && j != Vpn(s, virtual, s.Top())
      ensures Entry(s, EntrySet(s, m, root, Vpn(s, virtual, s.Top()), value), root, j) == Entry(s, m, root, j)
    {
      EntryStored(s, m, root, Vpn(s, virtual, s.Top()), value, j);
    }
  }

  lemma SameStored(s: System, m: Memory, table: bv64, index: bv64, value: bv64)
    requires Aligned(table) && index < s.Entries()
    ensures Entry(s, EntrySet(s, m, table, index, value), table, index) == Stored(s, value)
  {
    hide Entry, EntrySet, Aligned, Stored;
    EntryStored(s, m, table, index, value, index);
  }

  lemma VpnStored(s: System, m: Memory, table: bv64, va: bv64, level: nat, value: bv64)
    requires level < s.Levels() && Aligned(table)
    ensures Entry(s, EntrySet(s, m, table, Vpn(s, va, level), value), table, Vpn(s, va, level)) == Stored(s, value)
  {
    hide Entry, EntrySet, Vpn, Aligned, Stored, s.Entries;
    VpnIsIndex(s, va, level);
    SameStored(s, m, table, Vpn(s, va, level), value);
  }

  /** A chain of one table is at the top. */
  lemma ChainOfOne(s: System, m: Memory, virtual: bv64, tables: seq<bv64>, current: nat)
    requires current < s.Levels() && Chain(s, m, virtual, s.Top(), tables, current)
    ensures tables != [] && (|tables| == 1 ==> current == s.Top())
  {
    hide Entry, Vpn, PointerPte;
  }

  /** Writing the entry of the last table of a chain. */
  lemma LastEntrySet(s: System, m: Memory, virtual: bv64, tables: seq<bv64>, current: nat, value: bv64, m': Memory)
    requires current < s.Levels() && tables != [] && ArePages(s, tables)
    requires Chain(s, m, virtual, s.Top(), tables, current)
    requires tables[|tables| - 1] !in tables[..|tables| - 1]
    requires m' == EntrySet(s, m, tables[|tables| - 1], Vpn(s, virtual, current), value)
    ensures Chain(s, m', virtual, s.Top(), tables, current)
    ensures SameOutside(m, m', [tables[|tables| - 1]])
    ensures SameRoot(s, m, m', tables[0], virtual)
    ensures Entry(s, m', tables[|tables| - 1], Vpn(s, virtual, current)) == Stored(s, value)
  {
    hide Entry, EntrySet, Vpn, SameOutside, SameRoot, Aligned, ArePages, Stored, Chain;
    var last := tables[|tables| - 1];
    PageOfChain(s, tables, last);
    PageOfChain(s, tables, tables[0]);
    VpnSetFrame(s, m, last, virtual, current, value);
    VpnStored(s, m, last, virtual, current, value);
    ChainStands(s, m, m', virtual, tables, current, last);
    ChainOfOne(s, m, virtual, tables, current);
    if |tables| == 1 {
      SameRootSet(s, m, last, virtual, value);
    } else {
      assert tables[0] in tables[..|tables| - 1];
      SameRootOutside(s, m, m', tables[0], virtual, last);
    }
  }

  /** Filling a page that is not in a chain. */
  lemma OtherPageFilled(s: System, m: Memory, m': Memory, virtual: bv64, tables: seq<bv64>, current: nat, page: bv64)
    requires current < s.Levels() && ArePages(s, tables) && Chain(s, m, virtual, s.Top(), tables, current)
    requires SameOutside(m, m', [page]) && page !in tables
    ensures Chain(s, m', virtual, s.Top(), tables, current) && SameRoot(s, m, m', tables[0], virtual)
  {
    hide Entry, Vpn, SameOutside, Aligned, FitsPhysical, SameRoot, ArePages, Chain;
    ChainOfOne(s, m, virtual, tables, current);
    PageOfChain(s, tables, tables[0]);
    ChainStands(s, m, m', virtual, tables, current, page);
    SameRootOutside(s, m, m', tables[0], virtual, page);
  }

  lemma SameRootThrough(s: System, m: Memory, m': Memory, m'': Memory, root: bv64, address: bv64)
    requires SameRoot(s, m, m', root, address) && SameRoot(s, m', m'', root, address)
    ensures SameRoot(s, m, m'', root, address)
  {
    hide Entry, Vpn, IsIndex;
  }

  lemma DescentEnds(d: Descent, m: Memory, taken: nat, tables: seq<bv64>, physical: bv64, m': Memory)
    requires d.level < d.s.Levels() && PteShift(d.s, d.level) < 31 && FitsPhysical(d.s, physical) && tables != []
    requires m' == EntrySet(d.s, m, tables[|tables| - 1], Vpn(d.s, d.virtual, d.level), LeafPte(d.s, d.level, physical))
    requires BufferFits(d.s, d.buffer) && Descending(d, m, taken, tables, d.level)
    ensures Added(d.s, d.m0, m', d.root, d.virtual, d.level, physical, tables)
    ensures AreTaken(d.buffer, tables, taken) && NewPages(d.buffer, tables, d.t0, taken)
    ensures Budget(d.s, d.t0, taken, d.level, d.level)
  {
    hide Entry, EntrySet, Vpn, SameOutside, SameRoot, BufferFits, AreTaken, NewPages, Chain, Stored, LeafPte,
         FitsPhysical, ArePages, Replaceable, Budget, VpnShift, PteShift, Join, LeafTarget, IsLeaf, PteFaults;
    BudgetBound(d.s, d.t0, taken, d.level, d.level);
    var value, last := LeafPte(d.s, d.level, physical), tables[|tables| - 1];
    TakenArePages(d.s, d.buffer, tables, taken);
    LastEntrySet(d.s, m, d.virtual, tables, d.level, value, m');
    LeafIsPhysical(d.s, d.level, physical, 0);
    StoredWhole(d.s, value);
    SameThrough(d.m0, m, m', tables, [last]);
    SameRootThrough(d.s, d.m0, m, m', d.root, d.virtual);
  }

  lemma NewPagesGrow(buffer: bv64, tables: seq<bv64>, from: nat, to: nat)
    requires NewPages(buffer, tables, from, to) && from <= to < 5 && tables != []
    ensures NewPages(buffer, tables + [PageNo(buffer, to)], from, to + 1)
  {
    hide PageNo;
    var longer := tables + [PageNo(buffer, to)];
    forall i | 1 <= i < |longer|
      ensures IsNewPage(buffer, longer[i], from, to + 1)
    {
      if i < |tables| {
        assert longer[i] == tables[i] && IsNewPage(buffer, tables[i], from, to);
        var k: nat :| from <= k < to <= 5 && tables[i] == PageNo(buffer, k);
        assert k < to + 1;
      } else {
        assert from <= to < to + 1;
      }
    }
  }

  /** One level down: m1 is memory with the new page filled, m2 with its entry set as well. */
  lemma DescentStep(d: Descent, m: Memory, taken: nat, tables: seq<bv64>, current: nat, m1: Memory, m2: Memory)
    requires d.level < current < d.s.Levels() && tables != [] && taken < 5
    requires m2 ==
             EntrySet(d.s, m1, tables[|tables| - 1], Vpn(d.s, d.virtual, current), PointerPte(PageNo(d.buffer, taken)))
    requires SameOutside(m, m1, [PageNo(d.buffer, taken)])
    requires FilledBelow(d.s, m1, PageNo(d.buffer, taken), current - 1, d.virtual, d.s.Entries())
    requires BufferFits(d.s, d.buffer) && Descending(d, m, taken, tables, current)
    ensures Descending(d, m2, taken + 1, tables + [PageNo(d.buffer, taken)], current - 1)
  {
    hide Entry, EntrySet, Vpn, SameOutside, SameRoot, BufferFits, AreTaken, NewPages, Chain, Stored, PointerPte,
         TablePte, FitsPhysical, Aligned, ArePages, Replaceable, PageNo, Budget, PteFaults, IsLeaf, PteAddress;
    BudgetStep(d.s, d.t0, taken, d.level, current);
    var page, last, s := PageNo(d.buffer, taken), tables[|tables| - 1], d.s;
    TakenArePages(s, d.buffer, tables, taken);
    NextIsNew(d.buffer, tables, taken);
    NewPagesGrow(d.buffer, tables, d.t0, taken);
    OtherPageFilled(s, m, m1, d.virtual, tables, current, page);
    LastEntrySet(s, m1, d.virtual, tables, current, PointerPte(page), m2);
    PageNoAligned(d.buffer, taken);
    PageFits(s, d.buffer, taken);
    PointerFollowed(s, page);
    StoredWhole(s, PointerPte(page));
    ChainExtended(s, m2, d.virtual, s.Top(), tables, current, page);
    assert Replaceable(Entry(s, m2, page, Vpn(s, d.virtual, current - 1))) by {
      VpnIsIndex(s, d.virtual, current - 1);
      FilledAt(s, m1, page, current - 1, d.virtual, Vpn(s, d.virtual, current - 1));
      FreshIsReplaceable(s, current - 1, d.virtual, Vpn(s, d.virtual, current - 1));
      EntryFrame(s, m1, m2, [last], page, Vpn(s, d.virtual, current - 1));
    }
    var longer := tables + [page];
    assert longer[..|longer| - 1] == tables;
    Widened(d.m0, m, tables, longer);
    SameThrough(d.m0, m, m1, longer, [page]);
    SameThrough(d.m0, m1, m2, longer, [last]);
    SameRootThrough(s, d.m0, m, m1, d.root, d.virtual);
    SameRootThrough(s, d.m0, m1, m2, d.root, d.virtual);
  }

  lemma Widened(m: Memory, m': Memory, pages: seq<bv64>, more: seq<bv64>)
    requires SameOutside(m, m', pages) && forall p :: p in pages ==> p in more
    ensures SameOutside(m, m', more)
  {
    hide Load, PageOf;
  }
}
