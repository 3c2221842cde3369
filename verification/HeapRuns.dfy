// Whole runs of the allocator: any number of malloc, free, realloc and
// memalign calls, in any order, as long as free and realloc are given NULL or
// the payload of a live block.

module HeapRuns {
  import opened HeapTiling
  import opened HeapSpec
  import opened HeapLaws

  datatype Call = Malloc(sz: nat) | Free(p: nat) | Realloc(p: nat, sz: nat) | Memalign(align: int, sz: nat)

  datatype State = State(blocks: seq<Block>, end: nat)

  /** The pointer a call gives back to the allocator, or 0. */
  function Named(c: Call): nat {
    match c
    case Free(p) => p
    case Realloc(p, _) => p
    case _ => 0
  }

  /** The header of the block a call names. */
  function NamedHeader(ar: Arena, c: Call): int {
    Named(c) - ar.w
  }

  predicate Legal(ar: Arena, s: State, c: Call) {
    Named(c) != 0 ==> Named(c) >= ar.w && IsLive(s.blocks, Named(c) - ar.w)
  }

  function Step(ar: Arena, s: State, c: Call): State
    requires Legal(ar, s, c)
  {
    match c
    case Malloc(sz) =>
      var o := HeapSpec.Malloc(ar, s.blocks, s.end, RealSize(sz, ar.w)); State(o.blocks, o.end)
    case Free(p) =>
      if p == 0 then s else State(FreeAt(s.blocks, IndexOf(s.blocks, p - ar.w)), s.end)
    case Realloc(p, sz) =>
      var o := if p == 0 then HeapSpec.Malloc(ar, s.blocks, s.end, RealSize(sz, ar.w))
               else HeapSpec.Realloc(ar, s.blocks, s.end, p - ar.w, RealSize(sz, ar.w));
      State(o.blocks, o.end)
    case Memalign(align, sz) =>
      var o := HeapSpec.Memalign(ar, s.blocks, s.end, align, RealSize(sz, ar.w)); State(o.blocks, o.end)
  }

  predicate LegalRun(ar: Arena, s: State, calls: seq<Call>)
    decreases |calls|
  {
    calls == [] || (Legal(ar, s, calls[0]) && LegalRun(ar, Step(ar, s, calls[0]), calls[1..]))
  }

  function Run(ar: Arena, s: State, calls: seq<Call>): State
    requires LegalRun(ar, s, calls)
    decreases |calls|
  {
    if calls == [] then s else Run(ar, Step(ar, s, calls[0]), calls[1..])
  }

  /** Every call keeps the heap invariant, and every live block it does not name. */
  lemma StepKeeps(ar: Arena, s: State, c: Call)
    requires WellFormed(ar, s.blocks, s.end) && Legal(ar, s, c)
    ensures var t := Step(ar, s, c);
            && WellFormed(ar, t.blocks, t.end)
            && forall b :: b in Live(s.blocks) && b.addr != NamedHeader(ar, c) ==> b in Live(t.blocks)
  {
    hide WellFormed, Tiles, Coalesced, HeapSpec.Malloc, HeapSpec.Realloc, HeapSpec.Memalign, FreeAt, RealSize,
         OutOfMemory;
    match c
    case Malloc(sz) =>
      RealSizeIsBlock(sz, ar.w);
      var b := MallocGrants(ar, s.blocks, s.end, RealSize(sz, ar.w));
    case Free(p) =>
      if p != 0 {
        FreeReleases(ar, s.blocks, s.end, IndexOf(s.blocks, p - ar.w));
      }
    case Realloc(p, sz) =>
      RealSizeIsBlock(sz, ar.w);
      if p == 0 {
        var b := MallocGrants(ar, s.blocks, s.end, RealSize(sz, ar.w));
      } else {
        var b := ReallocExchanges(ar, s.blocks, s.end, p - ar.w, RealSize(sz, ar.w));
      }
    case Memalign(align, sz) =>
      RealSizeIsBlock(sz, ar.w);
      var b, from := MemalignAnswers(ar, s.blocks, s.end, align, RealSize(sz, ar.w));
  }

  /** The blocks tile the arena, free blocks never touch, live blocks never overlap, and free bytes plus live bytes
      are the arena. */
  ghost predicate Sound(ar: Arena, s: State) {
    && WellFormed(ar, s.blocks, s.end)
    && FreeBytes(s.blocks) + LiveBytes(s.blocks) == s.end - ar.start
    && forall b, c :: b in Live(s.blocks) && c in Live(s.blocks) && b != c ==>
         b.addr + b.size <= c.addr || c.addr + c.size <= b.addr
  }

  lemma WellFormedIsSound(ar: Arena, s: State)
    requires WellFormed(ar, s.blocks, s.end)
    ensures Sound(ar, s)
  {
    hide FreeBytes, LiveBytes, Coalesced;
    BytesConserved(s.blocks, ar.start, s.end, ar.w);
    forall b, c | b in Live(s.blocks) && c in Live(s.blocks) && b != c
      ensures b.addr + b.size <= c.addr || c.addr + c.size <= b.addr
    {
      NewBlockDisjoint(s.blocks, b, c, ar.start, s.end, ar.w);
    }
  }

  /** Any legal run of calls leaves the heap sound. */
  lemma {:induction false} RunKeepsHeap(ar: Arena, s: State, calls: seq<Call>)
    requires WellFormed(ar, s.blocks, s.end) && LegalRun(ar, s, calls)
    ensures Sound(ar, Run(ar, s, calls))
    decreases |calls|
  {
    if calls == [] {
      WellFormedIsSound(ar, s);
    } else {
      hide WellFormed, Step, Sound;
      StepKeeps(ar, s, calls[0]);
      RunKeepsHeap(ar, Step(ar, s, calls[0]), calls[1..]);
    }
  }

  /** So does any legal run from the heap before the first call. */
  lemma RunFromEmpty(ar: Arena, calls: seq<Call>)
    requires 0 < ar.start && Aligned(ar.start, ar.w) && ar.start + MALLOC_MINIMUM_GAP <= ar.limit
    requires LegalRun(ar, State([], ar.start), calls)
    ensures Sound(ar, Run(ar, State([], ar.start), calls))
  {
    hide Sound, Run, LegalRun;
    RunKeepsHeap(ar, State([], ar.start), calls);
  }

  /** A block stays live, at its address and with its size, through any legal run that does not name it. */
  lemma {:induction false} RunKeepsBlock(ar: Arena, s: State, calls: seq<Call>, b: Block)
    requires WellFormed(ar, s.blocks, s.end) && LegalRun(ar, s, calls) && b in Live(s.blocks)
    requires forall c :: c in calls ==> NamedHeader(ar, c) != b.addr
    ensures b in Live(Run(ar, s, calls).blocks)
    decreases |calls|
  {
    hide WellFormed, Step, Live;
    if calls != [] {
      assert calls[0] in calls;
      StepKeeps(ar, s, calls[0]);
      assert forall c :: c in calls[1..] ==> c in calls;
      RunKeepsBlock(ar, Step(ar, s, calls[0]), calls[1..], b);
    }
  }

  /** Every pointer handed out is a word boundary past its header, inside the arena. */
  lemma {:induction false} RunAligns(ar: Arena, s: State, calls: seq<Call>, b: Block)
    requires WellFormed(ar, s.blocks, s.end) && LegalRun(ar, s, calls)
    requires b in Live(Run(ar, s, calls).blocks)
    ensures Aligned(b.addr + ar.w, ar.w) && b.addr >= ar.start && b.size >= 2 * ar.w
    ensures b.addr + b.size <= Run(ar, s, calls).end
  {
    hide Tiles, Coalesced, Run, Aligned;
    RunKeepsHeap(ar, s, calls);
    var t := Run(ar, s, calls);
    BlockInArena(t.blocks, b, ar.start, t.end, ar.w);
  }

  lemma BlockInArena(bs: seq<Block>, b: Block, lo: nat, hi: nat, w: WordSize)
    requires Tiles(bs, lo, hi, w) && Aligned(lo, w) && b in bs
    ensures Aligned(b.addr + w, w) && lo <= b.addr && b.size >= 2 * w && b.addr + b.size <= hi
  {
    hide Aligned;
    var k :| 0 <= k < |bs| && bs[k] == b;
    TilesSplit(bs, k, lo, hi, w);
    AddrsAligned(bs, k, lo, hi, w);
    AddWords(b.addr, w);
  }
}
