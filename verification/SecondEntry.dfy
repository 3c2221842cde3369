// translate.c: what add_entry does when it is called on a table it has been called on before. Its way
// down takes the entry for the address of the next table, so a root index can be used only once.

module SecondEntry {
  import opened PageEntries
  import opened PageTables

  // ---------------------------------------------------------------------
  // Walks and the tables they read
  // ---------------------------------------------------------------------

  /** The tables that the translation of an address reads. */
  ghost function WalkTables(s: System, m: Memory, table: bv64, level: nat, va: bv64): seq<bv64>
    requires level < s.Levels()
    decreases level
  {
    var pte := Entry(s, m, table, Vpn(s, va, level));
    if PteFaults(s, pte) || IsLeaf(pte) || level == 0 then [table]
    else [table] + WalkTables(s, m, PteAddress(s, pte), level - 1, va)
  }

  lemma FieldIsAligned(pte: bv64, mask: bv64)
    ensures Aligned(PteField(pte) & mask)
  {
  }

  lemma TargetIsAligned(s: System, pte: bv64)
    ensures Aligned(PteAddress(s, pte))
  {
    hide Aligned, PteField;
    FieldIsAligned(pte, s.PhysicalMask());
  }

  /** Writes outside the tables a walk reads do not change where it ends. */
  lemma {:induction false} WalkUnchanged(s: System, m: Memory, m': Memory, pages: seq<bv64>, table: bv64, level: nat,
                                         va: bv64)
    requires level < s.Levels() && Aligned(table) && SameOutside(m, m', pages)
    requires forall t :: t in WalkTables(s, m, table, level, va) ==> t !in pages
    ensures Walk(s, m', table, level, va) == Walk(s, m, table, level, va)
    decreases level
  {
    hide Entry, Vpn, PteFaults, IsLeaf, PteAddress, LeafTarget, Aligned, SameOutside, Walk;
    WalkStep(s, m, table, level, va);
    WalkStep(s, m', table, level, va);
    var pte := Entry(s, m, table, Vpn(s, va, level));
    assert table == WalkTables(s, m, table, level, va)[0];
    VpnFrame(s, m, m', pages, table, va, level);
    if !PteFaults(s, pte) && !IsLeaf(pte) && level > 0 {
      TargetIsAligned(s, pte);
      WalkUnchanged(s, m, m', pages, PteAddress(s, pte), level - 1, va);
    }
  }

  // ---------------------------------------------------------------------
  // A pointer at the root
  // ---------------------------------------------------------------------

  lemma NotReplaced(pte: bv64)
    requires pte & PTE_V == PTE_V && pte & PTE_R == 0
    ensures !Replaceable(pte)
  {
  }

  lemma PointerKept(page: bv64)
    ensures !Replaceable(PointerPte(page))
  {
    hide Replaceable, Pte;
    FlagsOfPte(PTE_V, page, 0);
    FlagBits(PointerPte(page), PTE_V);
    NotReplaced(PointerPte(page));
  }

  /** add_entry does not replace a pointer at the root. */
  lemma PointerBars(s: System, m: Memory, root: bv64, virtual: bv64, level: nat, page: bv64)
    requires level < s.Top() && Entry(s, m, root, Vpn(s, virtual, s.Top())) == PointerPte(page)
    ensures !OpensPath(s, m, root, virtual, level)
  {
    hide Entry, Vpn, Replaceable, PointerPte;
    PointerKept(page);
  }

  /**
   * What it does instead: it leaves the table pointed to aside, whatever that table holds, and as long
   * as it does not run into the walk's tables by chance the address is translated as before.
   */
  lemma PointerGoesAstray(s: System, buffer: bv64, m0: Memory, m: Memory, root: bv64, virtual: bv64, level: nat,
                          page: bv64, tables: seq<bv64>, from: nat, to: nat)
    requires level < s.Top() && Aligned(root) && Aligned(page) && page != 0
    requires Entry(s, m0, root, Vpn(s, virtual, s.Top())) == PointerPte(page)
    requires Strayed(s, buffer, m0, m, root, virtual, level, tables, from, to)
    requires forall t :: t in WalkTables(s, m0, root, s.Top(), virtual) ==> t !in tables[1..]
    ensures tables[1] != page
    ensures Walk(s, m, root, s.Top(), virtual) == Walk(s, m0, root, s.Top(), virtual)
  {
    hide Entry, Vpn, PointerPte, Walk, WalkTables, Aligned, SameOutside, StaysThere, NewPages;
    PointerIsNotAnAddress(page);
    WalkUnchanged(s, m0, m, tables[1..], root, s.Top(), virtual);
  }

  // ---------------------------------------------------------------------
  // Two calls on one table
  // ---------------------------------------------------------------------

  /** After add_entry below the root, only the root index it used is barred. */
  lemma OnlyItsIndexIsBarred(s: System, m0: Memory, m: Memory, root: bv64, virtual: bv64, level: nat, physical: bv64,
                             tables: seq<bv64>, other: bv64, otherLevel: nat)
    requires FilledBelow(s, m0, root, s.Top(), 0, s.Entries()) && level < s.Top() && otherLevel < s.Top()
    requires Added(s, m0, m, root, virtual, level, physical, tables)
    ensures OpensPath(s, m, root, other, otherLevel) <==> Vpn(s, other, s.Top()) != Vpn(s, virtual, s.Top())
  {
    hide Entry, Vpn, Replaceable, PointerPte, LeafPte, SameOutside, FilledBelow, Stored, TablePte;
    VpnIsIndex(s, other, s.Top());
    if Vpn(s, other, s.Top()) == Vpn(s, virtual, s.Top()) {
      PointerBars(s, m, root, other, otherLevel, tables[1]);
    } else {
      assert IsIndex(s, Vpn(s, other, s.Top()));
      FilledAt(s, m0, root, s.Top(), 0, Vpn(s, other, s.Top()));
      FreshIsReplaceable(s, s.Top(), 0, Vpn(s, other, s.Top()));
    }
  }

  /** The address under a level goes to physical, and so does every address that shares its indices. */
  ghost predicate Maps(s: System, m: Memory, root: bv64, virtual: bv64, level: nat, physical: bv64) {
    level < s.Levels() && forall va: bv64 :: SameIndices(s, va, virtual, level) ==>
      Walk(s, m, root, s.Top(), va) == Some(Join(physical, va, VpnShift(s, level)))
  }

  /** A path of tables to the entry for an address. */
  ghost predicate Path(s: System, m: Memory, virtual: bv64, level: nat, physical: bv64, tables: seq<bv64>) {
    && level <= s.Top() && tables != [] && ArePages(s, tables)
    && Chain(s, m, virtual, s.Top(), tables, level)
    && Entry(s, m, tables[|tables| - 1], Vpn(s, virtual, level)) == LeafPte(s, level, physical)
  }

  lemma PathMaps(s: System, m: Memory, virtual: bv64, level: nat, physical: bv64, tables: seq<bv64>)
    requires Path(s, m, virtual, level, physical, tables) && PteShift(s, level) < 31 && FitsPhysical(s, physical)
    ensures Maps(s, m, tables[0], virtual, level, physical)
  {
    hide Entry, LeafPte, Chain, ArePages, FitsPhysical, Walk, Join, SameIndices, PteShift;
    forall va: bv64 | SameIndices(s, va, virtual, level)
      ensures Walk(s, m, tables[0], s.Top(), va) == Some(Join(physical, va, VpnShift(s, level)))
    {
      WalkChain(s, m, virtual, s.Top(), tables, level, physical, va);
    }
  }

  /** A path is kept if the first entry is and no other table of it is written to. */
  lemma PathKept(s: System, m: Memory, m': Memory, pages: seq<bv64>, virtual: bv64, level: nat, physical: bv64,
                 tables: seq<bv64>)
    requires level < s.Top() && Path(s, m, virtual, level, physical, tables) && SameOutside(m, m', pages)
    requires Entry(s, m', tables[0], Vpn(s, virtual, s.Top())) == Entry(s, m, tables[0], Vpn(s, virtual, s.Top()))
    requires forall t :: t in tables[1..] ==> t !in pages
    ensures Path(s, m', virtual, level, physical, tables)
  {
    hide Entry, Vpn, LeafPte, PointerPte, SameOutside, Aligned, FitsPhysical;
    var lower := tables[1..];
    forall t, k: nat | t in lower[..|lower| - 1] && k < s.Levels()
      ensures Entry(s, m', t, Vpn(s, virtual, k)) == Entry(s, m, t, Vpn(s, virtual, k))
    {
      assert t in lower && t in tables;
      VpnFrame(s, m, m', pages, t, virtual, k);
    }
    ChainFrame(s, m, m', virtual, s.Top() - 1, lower, level);
    var last := tables[|tables| - 1];
    assert last == lower[|lower| - 1] && last in lower && last in tables;
    VpnFrame(s, m, m', pages, last, virtual, level);
  }

  lemma AddedIsPath(s: System, buffer: bv64, m0: Memory, m: Memory, root: bv64, virtual: bv64, level: nat,
                    physical: bv64, tables: seq<bv64>, taken: nat)
    requires BufferFits(s, buffer) && taken <= 5 && AreTaken(buffer, tables, taken)
    requires Added(s, m0, m, root, virtual, level, physical, tables)
    ensures Path(s, m, virtual, level, physical, tables)
  {
    hide Entry, Vpn, LeafPte, Chain, SameOutside, SameRoot, ArePages, AreTaken, BufferFits;
    TakenArePages(s, buffer, tables, taken);
  }

  // Where the loop goes astray to

  lemma QuarterIsElsewhere(first: bv64, j: bv8, k: bv8)
    requires Aligned(first) && 0x2000 <= first < 0x1_0000_0000_0000 && j < 6 && k < 6
    ensures PageOf(PointerPte(PageAt(first, j))) != PageAt(first, k)
  {
  }

  lemma FirstIsAbove(buffer: bv64)
    requires 0x2000 <= buffer < 0x8000_0000_0000
    ensures Aligned(PageUp(buffer)) && 0x2000 <= PageUp(buffer) < 0x1_0000_0000_0000
  {
  }

  /** The wrong table is below the buffer, unless the buffer is in the first two pages of memory. */
  lemma WrongTableIsElsewhere(buffer: bv64, j: nat, k: nat)
    requires 0x2000 <= buffer < 0x8000_0000_0000 && j < 5 && k < 5
    ensures PageOf(PointerPte(PageNo(buffer, j))) != PageNo(buffer, k)
  {
    hide PageAt, PageOf, PointerPte, PageUp, Aligned;
    FirstIsAbove(buffer);
    QuarterIsElsewhere(PageUp(buffer), Bits(j), Bits(k));
  }

  /** A call of add_entry: the page at `virtual`, of the size that goes with a level, is to be found at physical. */
  datatype Mapping = Mapping(virtual: bv64, level: nat, physical: bv64) {
    predicate Legal(s: System) { level < s.Top() && PteShift(s, level) < 31 && FitsPhysical(s, physical) }
    ghost predicate In(s: System, m: Memory, root: bv64) { Maps(s, m, root, virtual, level, physical) }
  }

  /** The table add_entry takes for the next one holds a leaf or nothing for the address. */
  predicate MeetsNoPointer(s: System, m: Memory, root: bv64, a: Mapping) {
    || a.level == s.Top() - 1
    || Replaceable(Entry(s, m, PageOf(Entry(s, m, root, Vpn(s, a.virtual, s.Top()))), Vpn(s, a.virtual, s.Top() - 1)))
  }

  /** The walk astray writes to none of the pages taken before. */
  lemma StrayedElsewhere(s: System, buffer: bv64, m0: Memory, m: Memory, root: bv64, a: Mapping, j: nat,
                         tables: seq<bv64>, from: nat, to: nat, first: seq<bv64>)
    requires 0x2000 <= buffer < 0x8000_0000_0000 && j < 5 && AreTaken(buffer, first, from)
    requires Strayed(s, buffer, m0, m, root, a.virtual, a.level, tables, from, to)
    requires Entry(s, m0, root, Vpn(s, a.virtual, s.Top())) == PointerPte(PageNo(buffer, j))
    requires MeetsNoPointer(s, m0, root, a)
    ensures forall t :: t in first ==> t !in tables[1..]
  {
    hide Entry, Vpn, Replaceable, PageNo, PageOf, PointerPte, SameOutside;
    var lower := tables[1..];
    forall k: nat | k < 5
      ensures lower[0] != PageNo(buffer, k)
    {
      WrongTableIsElsewhere(buffer, j, k);
    }
    forall t | t in first
      ensures t !in lower
    {
      var k: nat :| k < from <= 5 && t == PageNo(buffer, k);
      if i: nat :| i < |lower| && lower[i] == t {
        if i > 0 {
          var h: nat :| from <= h < to <= 5 && lower[i] == PageNo(buffer, h);
          PagesDiffer(buffer, h, k);
        }
        assert false;
      }
    }
  }

  lemma AddedMaps(s: System, buffer: bv64, m0: Memory, m: Memory, root: bv64, a: Mapping, tables: seq<bv64>, taken: nat)
    requires BufferFits(s, buffer) && taken <= 5 && AreTaken(buffer, tables, taken) && a.Legal(s)
    requires Added(s, m0, m, root, a.virtual, a.level, a.physical, tables)
    ensures Path(s, m, a.virtual, a.level, a.physical, tables) && a.In(s, m, root)
  {
    hide Path, Maps, BufferFits, AreTaken, Chain, SameOutside, SameRoot, Entry, Vpn, LeafPte, FitsPhysical, PteShift;
    AddedIsPath(s, buffer, m0, m, root, a.virtual, a.level, a.physical, tables, taken);
    PathMaps(s, m, a.virtual, a.level, a.physical, tables);
  }

  lemma NewPageAt(buffer: bv64, tables: seq<bv64>, from: nat, to: nat, i: nat) returns (k: nat)
    requires NewPages(buffer, tables, from, to) && 1 <= i < |tables|
    ensures from <= k < to <= 5 && tables[i] == PageNo(buffer, k)
  {
    hide PageNo;
    assert IsNewPage(buffer, tables[i], from, to);
    k :| from <= k < to <= 5 && tables[i] == PageNo(buffer, k);
  }

  /** Tables of two calls have only the root in common. */
  lemma PathsAreApart(buffer: bv64, first: seq<bv64>, second: seq<bv64>, r: nat, from: nat, between: nat, to: nat)
    requires r < from <= between <= 5 && first != [] && second != [] && first[0] == second[0] == PageNo(buffer, r)
    requires NewPages(buffer, first, from, between) && NewPages(buffer, second, between, to)
    ensures forall t :: t in first[1..] ==> t !in second
  {
    hide PageNo;
    forall i: nat, j: nat | 1 <= i < |first| && j < |second|
      ensures first[i] != second[j]
    {
      var k := NewPageAt(buffer, first, from, between, i);
      if j == 0 {
        PagesDiffer(buffer, k, r);
      } else {
        var h := NewPageAt(buffer, second, between, to, j);
        PagesDiffer(buffer, k, h);
      }
    }
  }

  lemma BothTakeEffect(s: System, buffer: bv64, m0: Memory, m1: Memory, m2: Memory, root: bv64, a: Mapping, b: Mapping,
                       first: seq<bv64>, second: seq<bv64>, r: nat, from: nat, between: nat, to: nat)
    requires BufferFits(s, buffer) && a.Legal(s) && b.Legal(s) && r < from <= between <= to <= 5
    requires root == PageNo(buffer, r)
    requires Added(s, m0, m1, root, a.virtual, a.level, a.physical, first) && AreTaken(buffer, first, between)
    requires Added(s, m1, m2, root, b.virtual, b.level, b.physical, second) && AreTaken(buffer, second, to)
    requires NewPages(buffer, first, from, between) && NewPages(buffer, second, between, to)
    requires Vpn(s, b.virtual, s.Top()) != Vpn(s, a.virtual, s.Top())
    ensures a.In(s, m2, root) && b.In(s, m2, root)
  {
    hide Path, Maps, BufferFits, AreTaken, NewPages, Vpn, PteShift, FitsPhysical, PageNo, Added;
    AddedMaps(s, buffer, m0, m1, root, a, first, between);
    AddedMaps(s, buffer, m1, m2, root, b, second, to);
    AddedShape(s, m0, m1, root, a, first);
    AddedShape(s, m1, m2, root, b, second);
    PathsAreApart(buffer, first, second, r, from, between, to);
    FirstStays(s, m1, m2, root, a, b, first, second);
  }

  lemma AddedShape(s: System, m0: Memory, m: Memory, root: bv64, a: Mapping, tables: seq<bv64>)
    requires Added(s, m0, m, root, a.virtual, a.level, a.physical, tables)
    ensures tables != [] && tables[0] == root && SameOutside(m0, m, tables) && SameRoot(s, m0, m, root, a.virtual)
  {
    hide Entry, Vpn, LeafPte, Chain, SameOutside, SameRoot;
  }

  lemma SameRootAt(s: System, m: Memory, m': Memory, root: bv64, virtual: bv64, j: bv64)
    requires SameRoot(s, m, m', root, virtual) && j < s.Entries() && j != Vpn(s, virtual, s.Top())
    ensures Entry(s, m', root, j) == Entry(s, m, root, j)
  {
    hide Entry, Vpn;
    assert IsIndex(s, j);
  }

  /** The first path keeps its entry at the root and all its other tables. */
  lemma FirstStays(s: System, m1: Memory, m2: Memory, root: bv64, a: Mapping, b: Mapping, first: seq<bv64>,
                   second: seq<bv64>)
    requires a.Legal(s) && Path(s, m1, a.virtual, a.level, a.physical, first) && first[0] == root
    requires SameOutside(m1, m2, second) && SameRoot(s, m1, m2, root, b.virtual)
    requires (forall t :: t in first[1..] ==> t !in second) && Vpn(s, b.virtual, s.Top()) != Vpn(s, a.virtual, s.Top())
    ensures a.In(s, m2, root)
  {
    hide Path, Maps, SameOutside, SameRoot, Entry, Vpn, FitsPhysical, PteShift, s.Entries;
    VpnIsIndex(s, a.virtual, s.Top());
    SameRootAt(s, m1, m2, root, b.virtual, Vpn(s, a.virtual, s.Top()));
    PathKept(s, m1, m2, second, a.virtual, a.level, a.physical, first);
    PathMaps(s, m2, a.virtual, a.level, a.physical, first);
  }

  /** A second call for the same page finds the pointer to the table the first one made. */
  lemma SecondIsLost(s: System, buffer: bv64, m0: Memory, m1: Memory, m2: Memory, root: bv64, a: Mapping, b: Mapping,
                     first: seq<bv64>, second: seq<bv64>, from: nat, between: nat, to: nat)
    requires BufferFits(s, buffer) && 0x2000 <= buffer && a.Legal(s) && b.Legal(s) && from <= between <= 5
    requires Added(s, m0, m1, root, a.virtual, a.level, a.physical, first) && AreTaken(buffer, first, between)
    requires NewPages(buffer, first, from, between)
    requires Strayed(s, buffer, m1, m2, root, b.virtual, b.level, second, between, to)
    requires Vpn(s, b.virtual, s.Top()) == Vpn(s, a.virtual, s.Top()) && MeetsNoPointer(s, m1, root, b)
    ensures a.In(s, m2, root)
  {
    hide Path, Maps, BufferFits, AreTaken, SameOutside, Entry, Vpn, LeafPte, FitsPhysical, PteShift, PageNo,
         PointerPte, MeetsNoPointer, SameRoot, Strayed, Added, NewPages, Aligned, IsIndex, ArePages;
    AddedMaps(s, buffer, m0, m1, root, a, first, between);
    BufferIsLow(s, buffer);
    var j := FirstPointer(s, buffer, m0, m1, root, a, first, from, between);
    StrayedElsewhere(s, buffer, m1, m2, root, b, j, second, between, to, first);
    StrayedFrame(s, buffer, m1, m2, root, b, second, between, to);
    assert first[0] in first && forall t :: t in first[1..] ==> t in first;
    RootAligned(s, m1, a, first);
    VpnFrame(s, m1, m2, second[1..], root, a.virtual, s.Top());
    PathKept(s, m1, m2, second[1..], a.virtual, a.level, a.physical, first);
    PathMaps(s, m2, a.virtual, a.level, a.physical, first);
  }

  /** The root's entry points to the first table made. */
  lemma FirstPointer(s: System, buffer: bv64, m0: Memory, m: Memory, root: bv64, a: Mapping, tables: seq<bv64>,
                     from: nat, to: nat)
    returns (j: nat)
    requires Added(s, m0, m, root, a.virtual, a.level, a.physical, tables) && NewPages(buffer, tables, from, to)
    requires a.level < s.Top() && to <= 5
    ensures j < 5 && tables != [] && tables[0] == root
    ensures Entry(s, m, root, Vpn(s, a.virtual, s.Top())) == PointerPte(PageNo(buffer, j))
  {
    hide SameOutside, SameRoot, Entry, Vpn, LeafPte, PageNo, PointerPte;
    j :| from <= j < to <= 5 && tables[1] == PageNo(buffer, j);
  }

  lemma RootAligned(s: System, m: Memory, a: Mapping, tables: seq<bv64>)
    requires Path(s, m, a.virtual, a.level, a.physical, tables)
    ensures Aligned(tables[0])
  {
    hide Chain, Entry, Vpn, LeafPte, Aligned, FitsPhysical;
  }

  lemma StrayedFrame(s: System, buffer: bv64, m0: Memory, m: Memory, root: bv64, a: Mapping, tables: seq<bv64>,
                     from: nat, to: nat)
    requires Strayed(s, buffer, m0, m, root, a.virtual, a.level, tables, from, to)
    ensures |tables| >= 2 && SameOutside(m0, m, tables[1..])
  {
    hide Entry, Vpn, SameOutside, StaysThere, NewPages;
  }

  lemma UpperOfJoin(upper: bv64, lower: bv64, n: bv8)
    requires n <= 64
    ensures Clear(Join(upper, lower, n), n) == Clear(upper, n)
  {
    hide Ones;
  }

  /** One page cannot be mapped to two places: a second call that leaves the first mapping is lost. */
  lemma OnePageOneTarget(s: System, m: Memory, root: bv64, a: Mapping, b: Mapping)
    requires a.level == b.level < s.Levels() && SameIndices(s, b.virtual, a.virtual, a.level)
    requires Clear(a.physical, VpnShift(s, a.level)) != Clear(b.physical, VpnShift(s, a.level))
    requires a.In(s, m, root)
    ensures !b.In(s, m, root)
  {
    hide Walk, VpnShift, Join, Clear, Vpn;
    UpperOfJoin(a.physical, b.virtual, VpnShift(s, a.level));
    UpperOfJoin(b.physical, b.virtual, VpnShift(s, a.level));
    assert SameIndices(s, b.virtual, b.virtual, b.level);
  }

  /**
   * Two calls of add_entry on a table that setup_page_table has just filled. Both take effect if their
   * root indices differ. A second call for the same page does not: the first mapping stays, unless the
   * buffer is in the first two pages of memory or the wrong table holds a further pointer.
   */
  method AddTwice(p: Program, root: bv64, ghost r: nat, a: Mapping, b: Mapping) returns (ghost middle: Memory)
    requires p.Valid() && r < p.taken && root == PageNo(p.pageBuffer, r)
    requires FilledBelow(p.vms, p.memory, root, p.vms.Top(), 0, p.vms.Entries())
    requires a.Legal(p.vms) && b.Legal(p.vms)
    requires p.taken + (p.vms.Top() - a.level) + (p.vms.Top() - b.level) <= 5
    modifies p
    ensures p.Valid() && a.In(p.vms, middle, root)
    ensures Vpn(p.vms, b.virtual, p.vms.Top()) != Vpn(p.vms, a.virtual, p.vms.Top()) ==>
              a.In(p.vms, p.memory, root) && b.In(p.vms, p.memory, root)
    ensures (Vpn(p.vms, b.virtual, p.vms.Top()) == Vpn(p.vms, a.virtual, p.vms.Top()) && 0x2000 <= p.pageBuffer
             && MeetsNoPointer(p.vms, middle, root, b)) ==> a.In(p.vms, p.memory, root)
  {
    hide FilledBelow, Added, Strayed, OpensPath, NewPages, AreTaken, SameIndices, Vpn, PageNo, BufferFits,
         FitsPhysical, PteShift, NextAfter, MeetsNoPointer, Path, Maps;
    ghost var s, buffer, filled, from := p.vms, p.pageBuffer, p.memory, p.taken;
    FreshOpens(s, filled, root, a.virtual, a.level);
    ghost var first := p.AddEntry(root, a.level, a.virtual, a.physical, r);
    middle := p.memory;
    ghost var between := p.taken;
    AddedMaps(s, buffer, filled, middle, root, a, first, between);
    OnlyItsIndexIsBarred(s, filled, middle, root, a.virtual, a.level, a.physical, first, b.virtual, b.level);
    ghost var second := p.AddEntry(root, b.level, b.virtual, b.physical, r);
    if Vpn(s, b.virtual, s.Top()) != Vpn(s, a.virtual, s.Top()) {
      BothTakeEffect(s, buffer, filled, middle, p.memory, root, a, b, first, second, r, from, between, p.taken);
    } else if 0x2000 <= buffer && MeetsNoPointer(s, middle, root, b) {
      SecondIsLost(s, buffer, filled, middle, p.memory, root, a, b, first, second, from, between, p.taken);
    }
  }
}
