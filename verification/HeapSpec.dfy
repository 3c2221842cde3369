// What each allocator call does to the list of blocks, as functions on that
// list, and what those functions keep: the tiling, the coalescing of free
// neighbours, the live blocks, alignment, and the bounds on waste.

module HeapSpec {
  import opened HeapTiling
  import opened PowersOfTwo

  /** The fixed part of a heap: word size, first byte, and the stack limit. */
  datatype Arena = Arena(w: WordSize, start: nat, limit: nat)

  /** Blocks and end of the arena after a call, with the header of the block it returns (0 for NULL). */
  datatype Outcome = Outcome(blocks: seq<Block>, end: nat, header: nat)

  const MALLOC_MINIMUM_GAP := 32

  /** Bytes to add to x to reach a multiple of align; for a power of two this is -x & (align - 1). */
  function MAlign(x: int, align: int): nat
    requires align > 0
  {
    (-x) % align
  }

  /** Bytes a request of sz really takes: header, payload, rounding to a word, and room for a free-list entry. */
  function RealSize(sz: nat, w: WordSize): nat {
    if sz < w then 2 * w else sz + w + MAlign(sz, w)
  }

  predicate CanAlloc(ar: Arena, end: nat, required: int) {
    ar.limit - end - MALLOC_MINIMUM_GAP >= required
  }

  /** The heap invariant: the blocks tile the arena, free blocks never touch, and the gap to the stack is kept. */
  predicate WellFormed(ar: Arena, bs: seq<Block>, end: nat) {
    && 0 < ar.start <= end
    && Aligned(ar.start, ar.w)
    && end + MALLOC_MINIMUM_GAP <= ar.limit
    && Tiles(bs, ar.start, end, ar.w)
    && Coalesced(bs)
  }

  // ---------------------------------------------------------------------
  // malloc
  // ---------------------------------------------------------------------

  /** Index of the first free block of at least rs bytes, or |bs|. */
  function FirstFit(bs: seq<Block>, rs: nat): (i: nat)
    ensures i <= |bs|
    ensures forall k :: 0 <= k < i ==> !(bs[k].free && bs[k].size >= rs)
    ensures i < |bs| ==> bs[i].free && bs[i].size >= rs
  {
    if bs == [] || (bs[0].free && bs[0].size >= rs) then 0 else 1 + FirstFit(bs[1..], rs)
  }

  /** A free block cut for rs bytes: the rest is split off only when it can hold a free-list entry. */
  function Cut(b: Block, rs: nat, w: WordSize): seq<Block>
    requires b.size >= rs
  {
    if b.size < rs + 2 * w then [Block(b.addr, b.size, false)]
    else [Block(b.addr, rs, false), Block(b.addr + rs, b.size - rs, true)]
  }

  predicate EndsFree(bs: seq<Block>) {
    bs != [] && bs[|bs| - 1].free
  }

  function Malloc(ar: Arena, bs: seq<Block>, end: nat, rs: nat): Outcome {
    var i := FirstFit(bs, rs);
    if i < |bs| then
      Outcome(bs[..i] + Cut(bs[i], rs, ar.w) + bs[i + 1..], end, bs[i].addr)
    else if EndsFree(bs) then
      var n := |bs| - 1;
      if !CanAlloc(ar, end, rs - bs[n].size) then Outcome(bs, end, 0)
      else Outcome(bs[..n] + [Block(bs[n].addr, rs, false)], bs[n].addr + rs, bs[n].addr)
    else if !CanAlloc(ar, end, rs) then Outcome(bs, end, 0)
    else Outcome(bs + [Block(end, rs, false)], end + rs, end)
  }

  // ---------------------------------------------------------------------
  // free
  // ---------------------------------------------------------------------

  /** Index of the block with header h, or |bs|. */
  function IndexOf(bs: seq<Block>, h: nat): (i: nat)
    ensures i <= |bs|
    ensures forall k :: 0 <= k < i ==> bs[k].addr != h
    ensures i < |bs| ==> bs[i].addr == h
  {
    if bs == [] || bs[0].addr == h then 0 else 1 + IndexOf(bs[1..], h)
  }

  /** h is the header of an allocated block. */
  predicate IsLive(bs: seq<Block>, h: nat) {
    var i := IndexOf(bs, h); i < |bs| && !bs[i].free
  }

  /** First block of the run that merges when block t becomes free. */
  function MergeLo(bs: seq<Block>, t: nat): (lo: nat)
    requires t < |bs|
    ensures lo <= t
  {
    if t > 0 && bs[t - 1].free then t - 1 else t
  }

  /** One past the last block of the run that merges when block t becomes free. */
  function MergeHi(bs: seq<Block>, t: nat): (hi: nat)
    requires t < |bs|
    ensures t < hi <= |bs|
  {
    if t + 1 < |bs| && bs[t + 1].free then t + 2 else t + 1
  }

  /** Block t becomes free and merges with its free neighbours. */
  function FreeAt(bs: seq<Block>, t: nat): seq<Block>
    requires t < |bs|
  {
    var lo, hi := MergeLo(bs, t), MergeHi(bs, t);
    bs[..lo] + [Block(bs[lo].addr, Total(bs[lo..hi]), true)] + bs[hi..]
  }

  // ---------------------------------------------------------------------
  // realloc
  // ---------------------------------------------------------------------

  /** Block t cut in two allocated blocks, the first of rs bytes. */
  function Shrink(bs: seq<Block>, t: nat, rs: nat): seq<Block>
    requires t < |bs| && rs <= bs[t].size
  {
    bs[..t] + [Block(bs[t].addr, rs, false), Block(bs[t].addr + rs, bs[t].size - rs, false)] + bs[t + 1..]
  }

  function Realloc(ar: Arena, bs: seq<Block>, end: nat, h: nat, rs: nat): Outcome
    requires IsLive(bs, h)
  {
    var t := IndexOf(bs, h);
    if bs[t].size < rs then
      var o := Malloc(ar, bs, end, rs);
      var u := IndexOf(o.blocks, h);
      if o.header == 0 || u == |o.blocks| then o
      else o.(blocks := FreeAt(o.blocks, u))
    else if bs[t].size - rs >= 2 * ar.w then
      Outcome(FreeAt(Shrink(bs, t, rs), t + 1), end, h)
    else
      Outcome(bs, end, h)
  }

  // ---------------------------------------------------------------------
  // memalign
  // ---------------------------------------------------------------------

  /** Bytes to leave before an aligned block: none, or enough for a free-list entry. */
  function BeforeSize(addr: nat, align: int, w: WordSize): nat
    requires align > 0
  {
    if MAlign(addr + w, align) == 0 then 0 else 2 * w + MAlign(addr + 3 * w, align)
  }

  function FirstAlignedFit(bs: seq<Block>, align: int, rs: nat, w: WordSize): (i: nat)
    requires align > 0
    ensures i <= |bs|
    ensures forall k :: 0 <= k < i ==> !(bs[k].free && bs[k].size >= rs + BeforeSize(bs[k].addr, align, w))
    ensures i < |bs| ==> bs[i].free && bs[i].size >= rs + BeforeSize(bs[i].addr, align, w)
  {
    if bs == [] || (bs[0].free && bs[0].size >= rs + BeforeSize(bs[0].addr, align, w)) then 0
    else 1 + FirstAlignedFit(bs[1..], align, rs, w)
  }

  /** A free block cut for rs bytes; memalign keeps up to a whole free-list entry of excess. */
  function CutWide(b: Block, rs: nat, w: WordSize): seq<Block>
    requires b.size >= rs
  {
    if b.size <= rs + 2 * w then [Block(b.addr, b.size, false)]
    else [Block(b.addr, rs, false), Block(b.addr + rs, b.size - rs, true)]
  }

  /** A free block carved into an optional free hole, the allocated block, and an optional free rest. */
  function Carve(b: Block, before: nat, rs: nat, w: WordSize): seq<Block>
    requires b.size >= rs + before
  {
    (if before == 0 then [] else [Block(b.addr, before, true)])
    + CutWide(Block(b.addr + before, b.size - before, true), rs, w)
  }

  /** bs with block i carved. */
  function CarveAt(ar: Arena, bs: seq<Block>, end: nat, i: nat, align: int, rs: nat): Outcome
    requires align > 0 && i < |bs|
    requires bs[i].size >= rs + BeforeSize(bs[i].addr, align, ar.w)
  {
    var before := BeforeSize(bs[i].addr, align, ar.w);
    Outcome(bs[..i] + Carve(bs[i], before, rs, ar.w) + bs[i + 1..], end, bs[i].addr + before)
  }

  /** The last block, free and too small, grown to fit and carved; nothing changes when there is no room. */
  function GrowLast(ar: Arena, bs: seq<Block>, end: nat, align: int, rs: nat): Outcome
    requires align > 0 && bs != []
  {
    var n := |bs| - 1;
    var before := BeforeSize(bs[n].addr, align, ar.w);
    if !CanAlloc(ar, end, before + rs - bs[n].size) then Outcome(bs, end, 0)
    else
      CarveAt(ar, bs[..n] + [Block(bs[n].addr, before + rs, true)], bs[n].addr + before + rs, n, align, rs)
  }

  /** The last free block, carved if it is large enough and grown otherwise. */
  function TakenTop(ar: Arena, bs: seq<Block>, end: nat, align: int, rs: nat): Outcome
    requires align > 0 && bs != []
  {
    var n := |bs| - 1;
    if bs[n].size >= rs + BeforeSize(bs[n].addr, align, ar.w) then CarveAt(ar, bs, end, n, align, rs)
    else GrowLast(ar, bs, end, align, rs)
  }

  /** New space at the top, made a free block first. */
  function TakeTop(ar: Arena, bs: seq<Block>, end: nat, align: int, rs: nat): Outcome
    requires align > 0
  {
    var size := rs + MAlign(end + ar.w, align);
    if !CanAlloc(ar, end, size) then Outcome(bs, end, 0)
    else TakenTop(ar, bs + [Block(end, size, true)], end + size, align, rs)
  }

  function Memalign(ar: Arena, bs: seq<Block>, end: nat, align: int, rs: nat): Outcome {
    if !IsPowerOfTwo(align) then Outcome(bs, end, 0)
    else
      var i := FirstAlignedFit(bs, align, rs, ar.w);
      if i < |bs| then CarveAt(ar, bs, end, i, align, rs)
      else if EndsFree(bs) then GrowLast(ar, bs, end, align, rs)
      else TakeTop(ar, bs, end, align, rs)
  }
}
