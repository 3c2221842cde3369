// translate.c: page-table entries of Sv32, Sv39 and Sv48 and their address translation, as
// section 4.3.2 of the RISC-V Privileged Architecture, version 1.12, defines it (sections 4.4
// and 4.5 for Sv39 and Sv48). Each fact about bits is a lemma of its own; nothing else looks at bits.

module PageEntries {

  datatype Option<T> = None | Some(value: T)

  const PTE_V: bv64 := 0x01
  const PTE_R: bv64 := 0x02
  const PTE_W: bv64 := 0x04
  const PTE_X: bv64 := 0x08
  const PTE_U: bv64 := 0x10
  const PTE_A: bv64 := 0x40
  const PTE_D: bv64 := 0x80
  const PTE_PPN_SHIFT: bv8 := 10
  const LEAF: bv64 := PTE_V | PTE_R | PTE_W | PTE_X | PTE_U | PTE_A | PTE_D
  const OFFSET: bv64 := 0xfff
  const PAGE_SIZE: bv64 := 4096
  const BUFFER_SIZE: bv64 := 4096 * 6

  /** virtual_memory_system_t. */
  datatype System = Sv32 | Sv39 | Sv48 {
    function Mode(): bv64 { match this case Sv32 => 1 case Sv39 => 8 case Sv48 => 9 }
    function Levels(): nat { match this case Sv32 => 2 case Sv39 => 3 case Sv48 => 4 }
    function Top(): nat { Levels() - 1 }
    function Width(): bv8 { match this case Sv32 => 10 case _ => 9 }
    function EntryBytes(): bv64 { match this case Sv32 => 4 case _ => 8 }
    function VaddrBits(): bv8 { match this case Sv32 => 32 case Sv39 => 39 case Sv48 => 48 }
    function Xlen(): bv8 { match this case Sv32 => 32 case _ => 64 }
    function SatpMode(): bv64 { match this case Sv32 => 0x8000_0000 case _ => 0xf000_0000_0000_0000 }
    function SatpPpn(): bv64 { match this case Sv32 => 0x3f_ffff case _ => 0xfff_ffff_ffff }
    /** Number of entries in a table: 1 << vpn_width_bits. */
    function Entries(): bv64 { match this case Sv32 => 1 << 10 case _ => 1 << 9 }
    /** The bits of a virtual address that are translated. */
    function VaddrMask(): bv64 { (1 << VaddrBits()) - 1 }
    /** Physical addresses have 34 or 56 bits. */
    function PhysicalMask(): bv64 { match this case Sv32 => 0x3_ffff_ffff case _ => 0xff_ffff_ffff_ffff }
    /** One past the largest address that needs no sign extension. */
    function AddressBound(): bv64 { match this case Sv32 => 1 << 32 case Sv39 => 1 << 38 case Sv48 => 1 << 47 }
  }

  // ---------------------------------------------------------------------
  // Memory: 32-bit words by address
  // ---------------------------------------------------------------------

  type Memory = bv64 -> bv32

  function Load(m: Memory, address: bv64): bv32 {
    m(address)
  }

  function Store(m: Memory, address: bv64, word: bv32): Memory {
    (a: bv64) => if a == address then word else m(a)
  }

  lemma LoadStore(m: Memory, address: bv64, word: bv32, a: bv64)
    ensures Load(Store(m, address, word), a) == if a == address then word else Load(m, a)
  {
  }

  function EntryAddress(s: System, table: bv64, index: bv64): bv64 {
    if s.EntryBytes() == 4 then Word(table, index) else DoubleWord(table, index)
  }

  function Word(table: bv64, index: bv64): bv64 {
    table + (index << 2)
  }

  function DoubleWord(table: bv64, index: bv64): bv64 {
    table + (index << 3)
  }

  /** The upper half of an eight-byte entry. */
  function UpperAddress(s: System, table: bv64, index: bv64): bv64 {
    Upper(EntryAddress(s, table, index))
  }

  function Upper(address: bv64): bv64 {
    address + 4
  }

  function LowWord(value: bv64): bv32 {
    (value & 0xffff_ffff) as bv32
  }

  function HighWord(value: bv64): bv32 {
    (value >> 32) as bv32
  }

  function Whole(low: bv32, high: bv32): bv64 {
    (low as bv64) | ((high as bv64) << 32)
  }

  /** entry. */
  function Entry(s: System, m: Memory, table: bv64, index: bv64): bv64 {
    var low := Load(m, EntryAddress(s, table, index));
    if s.EntryBytes() == 4 then Whole(low, 0) else Whole(low, Load(m, UpperAddress(s, table, index)))
  }

  /** entry_set: a value for a four-byte entry loses its upper half. */
  function EntrySet(s: System, m: Memory, table: bv64, index: bv64, value: bv64): Memory {
    var low := Store(m, EntryAddress(s, table, index), LowWord(value));
    if s.EntryBytes() == 4 then low else Store(low, UpperAddress(s, table, index), HighWord(value))
  }

  /** A value as entry_set keeps it. */
  function Stored(s: System, value: bv64): bv64 {
    if s.EntryBytes() == 4 then value & 0xffff_ffff else value
  }

  predicate Aligned(page: bv64) {
    page & OFFSET == 0
  }

  function PageOf(address: bv64): bv64 {
    address & !OFFSET
  }

  /** Two memories hold the same words outside the given pages. */
  ghost predicate SameOutside(m: Memory, m': Memory, pages: seq<bv64>) {
    forall a: bv64 :: PageOf(a) !in pages ==> Load(m', a) == Load(m, a)
  }

  // ---------------------------------------------------------------------
  // Address translation, as the architecture defines it: nothing here is taken from the program
  // ---------------------------------------------------------------------

  /** The fields VPN[0], VPN[1] and so on of a virtual address. */
  function VpnField(s: System, va: bv64, level: nat): bv64 {
    match s
    case Sv32 => if level == 0 then (va >> 12) & 0x3ff else (va >> 22) & 0x3ff
    case Sv39 =>
      if level == 0 then (va >> 12) & 0x1ff
      else if level == 1 then (va >> 21) & 0x1ff
      else (va >> 30) & 0x1ff
    case Sv48 =>
      if level == 0 then (va >> 12) & 0x1ff
      else if level == 1 then (va >> 21) & 0x1ff
      else if level == 2 then (va >> 30) & 0x1ff
      else (va >> 39) & 0x1ff
  }

  /** The offset within a page, megapage, gigapage or terapage. */
  function OffsetMask(s: System, level: nat): bv64 {
    match s
    case Sv32 => if level == 0 then 0xfff else 0x3f_ffff
    case _ =>
      if level == 0 then 0xfff
      else if level == 1 then 0x1f_ffff
      else if level == 2 then 0x3fff_ffff
      else 0x7f_ffff_ffff
  }

  /** Where an entry of four or eight bytes is. */
  function Slot(s: System, table: bv64, index: bv64): bv64 {
    match s
    case Sv32 => table + (index << 2)
    case _ => table + (index << 3)
  }

  function HighSlot(table: bv64, index: bv64): bv64 {
    table + (index << 3) + 4
  }

  function LittleEndian(low: bv32, high: bv32): bv64 {
    ((high as bv64) << 32) | (low as bv64)
  }

  function Fetch(s: System, m: Memory, table: bv64, index: bv64): bv64 {
    match s
    case Sv32 => m(Slot(s, table, index)) as bv64
    case _ => LittleEndian(m(Slot(s, table, index)), m(HighSlot(table, index)))
  }

  /** The page an entry points to: its PPN has 22 or 44 bits. */
  function PpnPage(s: System, pte: bv64): bv64 {
    match s
    case Sv32 => ((pte >> 10) & 0x3f_ffff) << 12
    case _ => ((pte >> 10) & 0xfff_ffff_ffff) << 12
  }

  predicate Reserved(pte: bv64) {
    pte >> 54 != 0
  }

  /** Not valid, or writable but not readable, or with a reserved bit set. */
  predicate PteFaults(s: System, pte: bv64) {
    || pte & 0x1 == 0
    || (pte & 0x2 == 0 && pte & 0x4 != 0)
    || (!s.Sv32? && Reserved(pte))
  }

  /** Readable or executable. */
  predicate IsLeaf(pte: bv64) {
    pte & 0x2 != 0 || pte & 0x8 != 0
  }

  /** Accessed and dirty. */
  predicate IsMarked(pte: bv64) {
    pte & 0x40 != 0 && pte & 0x80 != 0
  }

  function OffsetOf(s: System, level: nat, address: bv64): bv64 {
    address & OffsetMask(s, level)
  }

  function WithOffset(page: bv64, offset: bv64): bv64 {
    page | offset
  }

  /** A leaf above level 0 must point to memory aligned to its size, and be marked accessed and dirty. */
  function LeafTarget(s: System, level: nat, pte: bv64, va: bv64): Option<bv64> {
    if OffsetOf(s, level, PpnPage(s, pte)) != 0 || !IsMarked(pte) then None
    else Some(WithOffset(PpnPage(s, pte), OffsetOf(s, level, va)))
  }

  function Walk(s: System, m: Memory, table: bv64, level: nat, va: bv64): Option<bv64>
    decreases level
  {
    var pte := Fetch(s, m, table, VpnField(s, va, level));
    if PteFaults(s, pte) then None
    else if IsLeaf(pte) then LeafTarget(s, level, pte, va)
    else if level == 0 then None
    else Walk(s, m, PpnPage(s, pte), level - 1, va)
  }

  /** The untranslated upper bits repeat the topmost translated one. */
  predicate Canonical(s: System, va: bv64) {
    match s
    case Sv32 => va < 0x1_0000_0000
    case Sv39 => va >> 38 == 0 || va >> 38 == 0x3ff_ffff
    case Sv48 => va >> 47 == 0 || va >> 47 == 0x1_ffff
  }

  /** The mode field of satp selects the system. */
  predicate Selects(s: System, satp: bv64) {
    match s
    case Sv32 => satp >> 31 == 1
    case Sv39 => satp >> 60 == 8
    case Sv48 => satp >> 60 == 9
  }

  function RootTable(s: System, satp: bv64): bv64 {
    match s
    case Sv32 => (satp & 0x3f_ffff) << 12
    case _ => (satp & 0xfff_ffff_ffff) << 12
  }

  function Translate(s: System, m: Memory, satp: bv64, va: bv64): Option<bv64> {
    if !Canonical(s, va) then None
    else
      match s
      case Sv32 => Walk(s, m, RootTable(s, satp), 1, va)
      case Sv39 => Walk(s, m, RootTable(s, satp), 2, va)
      case Sv48 => Walk(s, m, RootTable(s, satp), 3, va)
  }

  // ---------------------------------------------------------------------
  // The same in the program's terms
  // ---------------------------------------------------------------------

  /** A small number as bits, for shift amounts. */
  function Bits(n: nat): (b: bv8)
    requires n < 6
    ensures b < 6
  {
    if n == 0 then 0 else if n == 1 then 1 else if n == 2 then 2 else if n == 3 then 3 else if n == 4 then 4 else 5
  }

  function VpnShift(s: System, level: nat): (r: bv8)
    requires level < s.Levels()
    ensures r <= 39
  {
    12 + s.Width() * Bits(level)
  }

  function PteShift(s: System, level: nat): (r: bv8)
    requires level <= s.Levels()
    ensures r <= 46
  {
    PTE_PPN_SHIFT + s.Width() * Bits(level)
  }

  /** vpn. */
  function Vpn(s: System, va: bv64, level: nat): bv64
    requires level < s.Levels()
  {
    Shifted(va, VpnShift(s, level)) & (s.Entries() - 1)
  }

  function Shifted(va: bv64, n: bv8): bv64
    requires n <= 64
  {
    va >> n
  }

  function Ones(n: bv8): bv64
    requires n <= 64
  {
    (1 << n) - 1
  }

  /** An address without its lowest n bits. */
  function Clear(address: bv64, n: bv8): bv64
    requires n <= 64
  {
    address & !Ones(n)
  }

  /** The upper bits of one address with the lower n bits of another. */
  function Join(upper: bv64, lower: bv64, n: bv8): bv64
    requires n <= 64
  {
    Clear(upper, n) | (lower & Ones(n))
  }

  predicate Misaligned(address: bv64, n: bv8)
    requires n <= 64
  {
    address & Ones(n) != 0
  }

  /** The physical page an entry points to. */
  function PteAddress(s: System, pte: bv64): bv64 {
    PteField(pte) & s.PhysicalMask()
  }

  function PteField(pte: bv64): bv64 {
    (pte >> 10) << 12
  }

  lemma Field32At0(va: bv64)
    ensures Vpn(Sv32, va, 0) == VpnField(Sv32, va, 0)
  {
  }

  lemma Field32At1(va: bv64)
    ensures Vpn(Sv32, va, 1) == VpnField(Sv32, va, 1)
  {
  }

  lemma Field39At0(va: bv64)
    ensures Vpn(Sv39, va, 0) == VpnField(Sv39, va, 0)
  {
  }

  lemma Field39At1(va: bv64)
    ensures Vpn(Sv39, va, 1) == VpnField(Sv39, va, 1)
  {
  }

  lemma Field39At2(va: bv64)
    ensures Vpn(Sv39, va, 2) == VpnField(Sv39, va, 2)
  {
  }

  lemma Field48At0(va: bv64)
    ensures Vpn(Sv48, va, 0) == VpnField(Sv48, va, 0)
  {
  }

  lemma Field48At1(va: bv64)
    ensures Vpn(Sv48, va, 1) == VpnField(Sv48, va, 1)
  {
  }

  lemma Field48At2(va: bv64)
    ensures Vpn(Sv48, va, 2) == VpnField(Sv48, va, 2)
  {
  }

  lemma Field48At3(va: bv64)
    ensures Vpn(Sv48, va, 3) == VpnField(Sv48, va, 3)
  {
  }

  /** vpn takes the fields of the architecture from an address. */
  lemma VpnIsField(s: System, va: bv64, level: nat)
    requires level < s.Levels()
    ensures Vpn(s, va, level) == VpnField(s, va, level)
  {
    hide Vpn, VpnField;
    if
    case s.Sv32? && level == 0 => Field32At0(va);
    case s.Sv32? && level == 1 => Field32At1(va);
    case s.Sv39? && level == 0 => Field39At0(va);
    case s.Sv39? && level == 1 => Field39At1(va);
    case s.Sv39? && level == 2 => Field39At2(va);
    case s.Sv48? && level == 0 => Field48At0(va);
    case s.Sv48? && level == 1 => Field48At1(va);
    case s.Sv48? && level == 2 => Field48At2(va);
    case s.Sv48? && level == 3 => Field48At3(va);
  }

  lemma SlotOf4(table: bv64, index: bv64)
    ensures Word(table, index) == Slot(Sv32, table, index)
  {
  }

  lemma SlotOf8(s: System, table: bv64, index: bv64)
    requires !s.Sv32?
    ensures DoubleWord(table, index) == Slot(s, table, index)
  {
  }

  lemma HighSlotOf8(table: bv64, index: bv64)
    ensures Upper(DoubleWord(table, index)) == HighSlot(table, index)
  {
  }

  lemma WholeIs(low: bv32)
    ensures Whole(low, 0) == low as bv64
  {
  }

  lemma BothHalves(low: bv32, high: bv32)
    ensures Whole(low, high) == LittleEndian(low, high)
  {
  }

  /** entry reads the four or eight bytes of an entry. */
  lemma EntryIsFetched(s: System, m: Memory, table: bv64, index: bv64)
    ensures Entry(s, m, table, index) == Fetch(s, m, table, index)
  {
    hide Word, DoubleWord, Upper, Slot, HighSlot, Whole, LittleEndian;
    if s.Sv32? {
      SlotOf4(table, index);
      WholeIs(m(Slot(s, table, index)));
    } else {
      SlotOf8(s, table, index);
      HighSlotOf8(table, index);
      BothHalves(m(Slot(s, table, index)), m(HighSlot(table, index)));
    }
  }

  lemma PpnPage32(pte: bv64)
    ensures PteAddress(Sv32, pte) == ((pte >> 10) & 0x3f_ffff) << 12
  {
  }

  lemma PpnPage64(pte: bv64)
    ensures ((pte >> 10) << 12) & 0xff_ffff_ffff_ffff == ((pte >> 10) & 0xfff_ffff_ffff) << 12
  {
  }

  lemma PteAddressIsPage(s: System, pte: bv64)
    ensures PteAddress(s, pte) == PpnPage(s, pte)
  {
    match s
    case Sv32 => PpnPage32(pte);
    case _ => PpnPage64(pte);
  }

  lemma MaskIs(s: System, level: nat)
    requires level < s.Levels()
    ensures Ones(VpnShift(s, level)) == OffsetMask(s, level)
  {
  }

  lemma MisalignedIs(s: System, page: bv64, level: nat)
    requires level < s.Levels()
    ensures Misaligned(page, VpnShift(s, level)) <==> OffsetOf(s, level, page) != 0
  {
    hide VpnShift, OffsetMask, Ones;
    MaskIs(s, level);
  }

  lemma JoinAligned(page: bv64, va: bv64, n: bv8)
    requires n <= 64 && !Misaligned(page, n)
    ensures Join(page, va, n) == WithOffset(page, va & Ones(n))
  {
    hide Ones;
  }

  /** Where a leaf leads: the offset is the address's own, the rest comes from the entry. */
  lemma JoinMeans(s: System, upper: bv64, lower: bv64, level: nat)
    requires level < s.Levels()
    ensures Join(upper, lower, VpnShift(s, level))
         == (upper & !OffsetMask(s, level)) | (lower & OffsetMask(s, level))
  {
    hide VpnShift, OffsetMask, Ones;
    MaskIs(s, level);
  }

  lemma JoinOfAligned(s: System, page: bv64, va: bv64, level: nat)
    requires level < s.Levels() && OffsetOf(s, level, page) == 0
    ensures Join(page, va, VpnShift(s, level)) == WithOffset(page, OffsetOf(s, level, va))
  {
    hide VpnShift, OffsetMask, Join, Misaligned, Ones, WithOffset;
    MaskIs(s, level);
    MisalignedIs(s, page, level);
    JoinAligned(page, va, VpnShift(s, level));
  }

  lemma LeafTargetIs(s: System, level: nat, pte: bv64, va: bv64)
    requires level < s.Levels()
    ensures LeafTarget(s, level, pte, va) ==
            if Misaligned(PteAddress(s, pte), VpnShift(s, level)) || !IsMarked(pte) then None
            else Some(Join(PteAddress(s, pte), va, VpnShift(s, level)))
  {
    hide VpnShift, OffsetOf, WithOffset, PteAddress, PpnPage, Join, Misaligned, IsMarked;
    PteAddressIsPage(s, pte);
    MisalignedIs(s, PpnPage(s, pte), level);
    if OffsetOf(s, level, PpnPage(s, pte)) == 0 {
      JoinOfAligned(s, PpnPage(s, pte), va, level);
    }
  }

  /** One step of the walk. */
  lemma WalkStep(s: System, m: Memory, table: bv64, level: nat, va: bv64)
    requires level < s.Levels()
    ensures var pte := Entry(s, m, table, Vpn(s, va, level));
            Walk(s, m, table, level, va) ==
            if PteFaults(s, pte) then None
            else if IsLeaf(pte) then LeafTarget(s, level, pte, va)
            else if level == 0 then None
            else Walk(s, m, PteAddress(s, pte), level - 1, va)
  {
    hide Entry, Fetch, Vpn, VpnField, PteAddress, PpnPage, PteFaults, IsLeaf, LeafTarget;
    VpnIsField(s, va, level);
    EntryIsFetched(s, m, table, Vpn(s, va, level));
    PteAddressIsPage(s, Fetch(s, m, table, VpnField(s, va, level)));
  }

  // ---------------------------------------------------------------------
  // What the program writes into its tables
  // ---------------------------------------------------------------------

  /** The entry setup_page_table gives index i; the portion of physical is taken without shifting it. */
  function TablePte(s: System, level: nat, physical: bv64, i: bv64): bv64
    requires level < s.Levels()
  {
    LEAF
    | (physical & ((s.Entries() - 1) << PteShift(s, level + 1)))
    | (i << PteShift(s, level))
  }

  /** The entry add_entry ends with. */
  function LeafPte(s: System, level: nat, physical: bv64): bv64
    requires level < s.Levels()
  {
    Pte(LEAF, physical, PteShift(s, level))
  }

  /** Flags, and an address without the bits that fall below a shift. */
  function Pte(flags: bv64, address: bv64, shift: bv8): bv64
    requires shift <= 64
  {
    flags | Clear(address >> 2, shift)
  }

  /** The entry add_entry gives a new table. */
  function PointerPte(page: bv64): bv64 {
    Pte(PTE_V, page, 10)
  }

  predicate FitsPhysical(s: System, address: bv64) {
    address & !s.PhysicalMask() == 0
  }

  lemma LeafBits32(level: nat, physical: bv64)
    requires level < 2
    ensures LeafPte(Sv32, level, physical) == 0xdf | ((physical & !OffsetMask(Sv32, level)) >> 2)
  {
  }

  lemma LeafBits64(s: System, level: nat, physical: bv64)
    requires level < s.Levels() && !s.Sv32?
    ensures LeafPte(s, level, physical) == 0xdf | ((physical & !OffsetMask(s, level)) >> 2)
  {
  }

  /** The leaf for physical: all flags but G, and its page. */
  lemma LeafBits(s: System, level: nat, physical: bv64)
    requires level < s.Levels()
    ensures LeafPte(s, level, physical) == 0xdf | ((physical & !OffsetMask(s, level)) >> 2)
  {
    hide LeafPte, OffsetMask;
    match s
    case Sv32 => LeafBits32(level, physical);
    case _ => LeafBits64(s, level, physical);
  }

  /** The entry for a table. */
  lemma PointerBits(page: bv64)
    ensures PointerPte(page) == 0x1 | ((page & !0xfff) >> 2)
  {
  }

  lemma TableBits32(physical: bv64, i: bv64)
    ensures TablePte(Sv32, 0, physical, i) == 0xdf | (physical & 0x3ff0_0000) | (i << 10)
    ensures TablePte(Sv32, 1, physical, i) == 0xdf | (physical & 0xff_c000_0000) | (i << 20)
  {
  }

  lemma TableBits39At0(physical: bv64, i: bv64)
    ensures TablePte(Sv39, 0, physical, i) == 0xdf | (physical & 0xff8_0000) | (i << 10)
  {
  }

  lemma TableBits39At1(physical: bv64, i: bv64)
    ensures TablePte(Sv39, 1, physical, i) == 0xdf | (physical & 0x1f_f000_0000) | (i << 19)
  {
  }

  lemma TableBits39At2(physical: bv64, i: bv64)
    ensures TablePte(Sv39, 2, physical, i) == 0xdf | (physical & 0x3fe0_0000_0000) | (i << 28)
  {
  }

  lemma TableBits48At0(physical: bv64, i: bv64)
    ensures TablePte(Sv48, 0, physical, i) == 0xdf | (physical & 0xff8_0000) | (i << 10)
  {
  }

  lemma TableBits48At1(physical: bv64, i: bv64)
    ensures TablePte(Sv48, 1, physical, i) == 0xdf | (physical & 0x1f_f000_0000) | (i << 19)
  {
  }

  lemma TableBits48At2(physical: bv64, i: bv64)
    ensures TablePte(Sv48, 2, physical, i) == 0xdf | (physical & 0x3fe0_0000_0000) | (i << 28)
  {
  }

  lemma TableBits48At3(physical: bv64, i: bv64)
    ensures TablePte(Sv48, 3, physical, i) == 0xdf | (physical & 0x7f_c000_0000_0000) | (i << 37)
  {
  }

  /** The leaves setup_page_table writes: all flags but G, the index, and the bits of physical above it. */
  lemma TableBits(s: System, level: nat, physical: bv64, i: bv64)
    requires level < s.Levels()
    ensures TablePte(s, level, physical, i) ==
            match s
            case Sv32 =>
              if level == 0 then 0xdf | (physical & 0x3ff0_0000) | (i << 10)
              else 0xdf | (physical & 0xff_c000_0000) | (i << 20)
            case _ =>
              if level == 0 then 0xdf | (physical & 0xff8_0000) | (i << 10)
              else if level == 1 then 0xdf | (physical & 0x1f_f000_0000) | (i << 19)
              else if level == 2 then 0xdf | (physical & 0x3fe0_0000_0000) | (i << 28)
              else 0xdf | (physical & 0x7f_c000_0000_0000) | (i << 37)
  {
    hide TablePte;
    if
    case s.Sv32? => TableBits32(physical, i);
    case s.Sv39? && level == 0 => TableBits39At0(physical, i);
    case s.Sv39? && level == 1 => TableBits39At1(physical, i);
    case s.Sv39? && level == 2 => TableBits39At2(physical, i);
    case s.Sv48? && level == 0 => TableBits48At0(physical, i);
    case s.Sv48? && level == 1 => TableBits48At1(physical, i);
    case s.Sv48? && level == 2 => TableBits48At2(physical, i);
    case s.Sv48? && level == 3 => TableBits48At3(physical, i);
  }

  // ---------------------------------------------------------------------
  // Entries and addresses
  // ---------------------------------------------------------------------

  lemma WordInPage(table: bv64, index: bv64)
    requires Aligned(table) && index < 1024
    ensures PageOf(Word(table, index)) == table
  {
  }

  lemma WordsInPage(table: bv64, index: bv64)
    requires Aligned(table) && index < 512
    ensures PageOf(DoubleWord(table, index)) == table && PageOf(Upper(DoubleWord(table, index))) == table
  {
  }

  lemma EntryInPage(s: System, table: bv64, index: bv64)
    requires Aligned(table) && index < s.Entries()
    ensures PageOf(EntryAddress(s, table, index)) == table
    ensures s.EntryBytes() == 8 ==> PageOf(UpperAddress(s, table, index)) == table
  {
    hide PageOf, Aligned, Word, DoubleWord, Upper;
    match s
    case Sv32 => WordInPage(table, index);
    case _ => WordsInPage(table, index);
  }

  lemma EntriesApart32(table: bv64, i: bv64, j: bv64)
    requires Aligned(table) && i < 1024 && j < 1024 && i != j
    ensures Word(table, i) != Word(table, j)
  {
  }

  lemma EntriesApart64(table: bv64, i: bv64, j: bv64)
    requires Aligned(table) && i < 512 && j < 512
    ensures DoubleWord(table, i) != Upper(DoubleWord(table, j))
    ensures i != j ==> DoubleWord(table, i) != DoubleWord(table, j)
    ensures i != j ==> Upper(DoubleWord(table, i)) != Upper(DoubleWord(table, j))
  {
  }

  lemma EntriesApart(s: System, table: bv64, i: bv64, j: bv64)
    requires Aligned(table) && i < s.Entries() && j < s.Entries()
    ensures i != j ==> EntryAddress(s, table, i) != EntryAddress(s, table, j)
    ensures s.EntryBytes() == 8 ==> EntryAddress(s, table, i) != UpperAddress(s, table, j)
    ensures s.EntryBytes() == 8 && i != j ==> UpperAddress(s, table, i) != UpperAddress(s, table, j)
  {
    hide Aligned, Word, DoubleWord, Upper;
    match s
    case Sv32 => if i != j { EntriesApart32(table, i, j); }
    case _ => EntriesApart64(table, i, j);
  }

  /** A stored entry is read back, and no other entry of the table changes. */
  lemma EntryStored(s: System, m: Memory, table: bv64, index: bv64, value: bv64, other: bv64)
    requires Aligned(table) && index < s.Entries() && other < s.Entries()
    ensures Entry(s, EntrySet(s, m, table, index, value), table, other)
         == if other == index then Stored(s, value) else Entry(s, m, table, other)
  {
    hide EntryAddress, UpperAddress, Whole, LowWord, HighWord, Aligned;
    EntriesApart(s, table, index, other);
    EntriesApart(s, table, other, index);
    WordsOfEntry(value);
  }

  lemma WordsOfEntry(value: bv64)
    ensures Whole(LowWord(value), HighWord(value)) == value
    ensures Whole(LowWord(value), 0) == value & 0xffff_ffff
  {
  }

  /** Storing an entry leaves all other pages alone. */
  lemma EntrySetFrame(s: System, m: Memory, table: bv64, index: bv64, value: bv64)
    requires Aligned(table) && index < s.Entries()
    ensures SameOutside(m, EntrySet(s, m, table, index, value), [table])
  {
    hide PageOf, EntryAddress, UpperAddress, LowWord, HighWord;
    EntryInPage(s, table, index);
    var m' := EntrySet(s, m, table, index, value);
    forall a: bv64 | PageOf(a) !in [table]
      ensures Load(m', a) == Load(m, a)
    {
    }
  }

  /** Entries of other pages are the same. */
  lemma EntryFrame(s: System, m: Memory, m': Memory, pages: seq<bv64>, table: bv64, index: bv64)
    requires SameOutside(m, m', pages) && table !in pages
    requires Aligned(table) && index < s.Entries()
    ensures Entry(s, m', table, index) == Entry(s, m, table, index)
  {
    hide PageOf, EntryAddress, UpperAddress, Whole, Load;
    EntryInPage(s, table, index);
  }

  lemma VpnIsIndex(s: System, va: bv64, level: nat)
    requires level < s.Levels()
    ensures Vpn(s, va, level) < s.Entries()
  {
  }

  lemma FieldOfPte(flags: bv64, address: bv64, k: bv8)
    requires flags < 0x400 && k <= 20
    ensures PteField(Pte(flags, address, 10 + k)) == Clear(address, 12 + k)
  {
  }

  lemma FlagsOfPte(flags: bv64, address: bv64, k: bv8)
    requires flags < 0x400 && k <= 20
    ensures Pte(flags, address, 10 + k) & 0x3ff == flags
  {
  }

  lemma PteFits32(flags: bv64, address: bv64, k: bv8)
    requires flags < 0x400 && k <= 20 && address & !0x3_ffff_ffff == 0
    ensures Pte(flags, address, 10 + k) < 0x1_0000_0000
  {
  }

  lemma PteFits64(flags: bv64, address: bv64, k: bv8)
    requires flags < 0x400 && k <= 20 && address & !0xff_ffff_ffff_ffff == 0
    ensures !Reserved(Pte(flags, address, 10 + k))
  {
  }

  lemma KeptBits(x: bv64, n: bv8, mask: bv64)
    requires n <= 64 && x & !mask == 0
    ensures Clear(x, n) & mask == Clear(x, n)
  {
  }

  lemma ClearTwice(x: bv64, n: bv8)
    requires n <= 64
    ensures Clear(Clear(x, n), n) == Clear(x, n)
  {
    hide Ones;
  }

  lemma ClearedIsAligned(x: bv64, n: bv8)
    requires n <= 64
    ensures !Misaligned(Clear(x, n), n)
  {
    hide Ones;
  }

  lemma JoinOfCleared(x: bv64, va: bv64, n: bv8)
    requires n <= 64
    ensures Join(Clear(x, n), va, n) == Join(x, va, n)
  {
    hide Ones, Clear;
    ClearTwice(x, n);
  }

  lemma AddressOfPte(s: System, flags: bv64, address: bv64, k: bv8)
    requires flags < 0x400 && k <= 20 && FitsPhysical(s, address)
    ensures PteAddress(s, Pte(flags, address, 10 + k)) == Clear(address, 12 + k)
  {
    hide Pte, PteField, Clear;
    FieldOfPte(flags, address, k);
    KeptBits(address, 12 + k, s.PhysicalMask());
  }

  lemma PteFits(s: System, flags: bv64, address: bv64, k: bv8)
    requires flags < 0x400 && k <= 20 && FitsPhysical(s, address)
    ensures if s.Sv32? then Pte(flags, address, 10 + k) < 0x1_0000_0000 else !Reserved(Pte(flags, address, 10 + k))
  {
    hide Pte, Reserved;
    match s
    case Sv32 => PteFits32(flags, address, k);
    case _ => PteFits64(flags, address, k);
  }

  lemma FlagBits(pte: bv64, flags: bv64)
    requires pte & 0x3ff == flags
    ensures pte & PTE_V == flags & PTE_V && pte & PTE_R == flags & PTE_R && pte & PTE_W == flags & PTE_W
    ensures pte & PTE_X == flags & PTE_X && pte & PTE_A == flags & PTE_A && pte & PTE_D == flags & PTE_D
  {
  }

  lemma PageIsAligned(page: bv64)
    requires Aligned(page)
    ensures Clear(page, 12) == page
  {
  }

  /** A new table is found again through its entry. */
  lemma PointerFollowed(s: System, page: bv64)
    requires Aligned(page) && FitsPhysical(s, page)
    ensures var pte := PointerPte(page);
            !PteFaults(s, pte) && !IsLeaf(pte) && PteAddress(s, pte) == page && (s.Sv32? ==> pte < 0x1_0000_0000)
  {
    hide Pte, PteAddress, Reserved, FitsPhysical, Clear;
    AddressOfPte(s, PTE_V, page, 0);
    PageIsAligned(page);
    PteFits(s, PTE_V, page, 0);
    FlagsOfPte(PTE_V, page, 0);
    FlagBits(PointerPte(page), PTE_V);
  }

  /** What add_entry overwrites on its way down. */
  predicate Replaceable(pte: bv64) {
    pte & PTE_V == 0 || (pte & PTE_R != 0 && pte & PTE_W != 0)
  }

  lemma ReplaceableBits(pte: bv64)
    ensures Replaceable(pte) <==> pte & 0x1 == 0 || pte & 0x6 == 0x6
  {
  }

  lemma FreshFlags(s: System, level: nat, physical: bv64, i: bv64)
    requires level < s.Levels() && i < s.Entries()
    ensures Stored(s, TablePte(s, level, physical, i)) & LEAF == LEAF
  {
  }

  lemma LeafFlagsReplaceable(pte: bv64)
    requires pte & LEAF == LEAF
    ensures Replaceable(pte)
  {
  }

  /** An entry of a fresh table is a readable, writable leaf, so add_entry will replace it. */
  lemma FreshIsReplaceable(s: System, level: nat, physical: bv64, i: bv64)
    requires level < s.Levels() && i < s.Entries()
    ensures Replaceable(Stored(s, TablePte(s, level, physical, i)))
  {
    hide TablePte, Stored, Replaceable;
    FreshFlags(s, level, physical, i);
    LeafFlagsReplaceable(Stored(s, TablePte(s, level, physical, i)));
  }

  lemma SmallIsWhole(value: bv64)
    requires value < 0x1_0000_0000
    ensures value & 0xffff_ffff == value
  {
  }

  lemma StoredWhole(s: System, value: bv64)
    requires s.Sv32? ==> value < 0x1_0000_0000
    ensures Stored(s, value) == value
  {
    if s.Sv32? {
      SmallIsWhole(value);
    }
  }

  lemma RootFits32(va: bv64)
    ensures RootPte(Sv32, va) < 0x1_0000_0000
  {
  }

  function RootPte(s: System, va: bv64): bv64 {
    TablePte(s, s.Top(), 0, Vpn(s, va, s.Top()))
  }

  /** The root entry written out. */
  function RootField39(va: bv64): bv64 {
    LEAF | (((va >> 30) & 0x1ff) << 28)
  }

  function RootField48(va: bv64): bv64 {
    LEAF | (((va >> 39) & 0x1ff) << 37)
  }

  lemma RootIs39(va: bv64)
    ensures RootPte(Sv39, va) == RootField39(va)
  {
  }

  lemma RootIs48(va: bv64)
    ensures RootPte(Sv48, va) == RootField48(va)
  {
  }

  /** An address without its sign extension. */
  function Truncate(s: System, va: bv64): bv64 {
    va & s.VaddrMask()
  }

  lemma RootFlags32(va: bv64)
    ensures RootPte(Sv32, va) & 0x3ff == LEAF
  {
  }

  lemma RootFlags39(va: bv64)
    ensures RootPte(Sv39, va) & 0x3ff == LEAF
  {
  }

  lemma RootFlags48(va: bv64)
    ensures RootPte(Sv48, va) & 0x3ff == LEAF
  {
  }

  lemma RootFlags(s: System, va: bv64)
    ensures RootPte(s, va) & 0x3ff == LEAF
  {
    hide RootPte, Reserved, Join, Misaligned, PteAddress, Truncate;
    match s
    case Sv32 => RootFlags32(va);
    case Sv39 => RootFlags39(va);
    case Sv48 => RootFlags48(va);
  }

  lemma RootFits39(va: bv64)
    ensures !Reserved(RootPte(Sv39, va))
  {
    hide RootPte;
    RootIs39(va);
  }

  lemma RootFits48(va: bv64)
    ensures !Reserved(RootPte(Sv48, va))
  {
    hide RootPte;
    RootIs48(va);
  }

  lemma RootFits(s: System, va: bv64)
    requires !s.Sv32?
    ensures !Reserved(RootPte(s, va))
  {
    hide RootPte, Reserved, Join, Misaligned, PteAddress, Truncate;
    match s
    case Sv39 => RootFits39(va);
    case Sv48 => RootFits48(va);
  }

  lemma RootJoins32(va: bv64)
    ensures Join(PteAddress(Sv32, RootPte(Sv32, va)), va, VpnShift(Sv32, 1)) == Truncate(Sv32, va)
  {
  }

  lemma RootJoins39(va: bv64)
    ensures Join(PteAddress(Sv39, RootPte(Sv39, va)), va, VpnShift(Sv39, 2)) == Truncate(Sv39, va)
  {
    hide RootPte;
    RootIs39(va);
  }

  lemma RootJoins48(va: bv64)
    ensures Join(PteAddress(Sv48, RootPte(Sv48, va)), va, VpnShift(Sv48, 3)) == Truncate(Sv48, va)
  {
    hide RootPte;
    RootIs48(va);
  }

  lemma RootJoins(s: System, va: bv64)
    ensures Join(PteAddress(s, RootPte(s, va)), va, VpnShift(s, s.Top())) == Truncate(s, va)
  {
    hide RootPte, Reserved, Join, Misaligned, PteAddress, Truncate;
    match s
    case Sv32 => RootJoins32(va);
    case Sv39 => RootJoins39(va);
    case Sv48 => RootJoins48(va);
  }

  lemma RootIsAligned32(va: bv64)
    ensures !Misaligned(PteAddress(Sv32, RootPte(Sv32, va)), VpnShift(Sv32, 1))
  {
  }

  lemma RootIsAligned39(va: bv64)
    ensures !Misaligned(PteAddress(Sv39, RootPte(Sv39, va)), VpnShift(Sv39, 2))
  {
    hide RootPte;
    RootIs39(va);
  }

  lemma RootIsAligned48(va: bv64)
    ensures !Misaligned(PteAddress(Sv48, RootPte(Sv48, va)), VpnShift(Sv48, 3))
  {
    hide RootPte;
    RootIs48(va);
  }

  lemma RootIsAligned(s: System, va: bv64)
    ensures !Misaligned(PteAddress(s, RootPte(s, va)), VpnShift(s, s.Top()))
  {
    hide RootPte, Reserved, Join, Misaligned, PteAddress, Truncate;
    match s
    case Sv32 => RootIsAligned32(va);
    case Sv39 => RootIsAligned39(va);
    case Sv48 => RootIsAligned48(va);
  }

  /** The root table maps every address to itself, without its sign extension. */
  lemma RootIsIdentity(s: System, va: bv64)
    ensures var pte := RootPte(s, va);
            !PteFaults(s, pte) && IsLeaf(pte) && LeafTarget(s, s.Top(), pte, va) == Some(Truncate(s, va))
  {
    hide RootPte, Reserved, Join, Misaligned, PteAddress, Truncate, LeafTarget, VpnShift;
    RootFlags(s, va);
    LeafTargetIs(s, s.Top(), RootPte(s, va), va);
    FlagBits(RootPte(s, va), LEAF);
    RootJoins(s, va);
    RootIsAligned(s, va);
    if !s.Sv32? {
      RootFits(s, va);
    }
  }

  /** The entry for physical maps to it. */
  lemma LeafIsPhysical(s: System, level: nat, physical: bv64, va: bv64)
    requires level < s.Levels() && PteShift(s, level) < 31 && FitsPhysical(s, physical)
    ensures var pte := LeafPte(s, level, physical);
            !PteFaults(s, pte) && IsLeaf(pte) && (s.Sv32? ==> pte < 0x1_0000_0000) &&
            LeafTarget(s, level, pte, va) == Some(Join(physical, va, VpnShift(s, level)))
  {
    hide Pte, PteAddress, Reserved, Clear, Join, Misaligned, FitsPhysical, LeafTarget;
    LeafTargetIs(s, level, LeafPte(s, level, physical), va);
    var k := s.Width() * Bits(level);
    AddressOfPte(s, LEAF, physical, k);
    JoinOfCleared(physical, va, 12 + k);
    ClearedIsAligned(physical, 12 + k);
    PteFits(s, LEAF, physical, k);
    FlagsOfPte(LEAF, physical, k);
    FlagBits(LeafPte(s, level, physical), LEAF);
  }

  /** Why a path whose tables already exist is outside add_entry's reach: it takes the entry for the address. */
  lemma PointerIsNotAnAddress(page: bv64)
    requires Aligned(page)
    ensures PointerPte(page) & !OFFSET == page <==> page == 0
  {
  }
}
