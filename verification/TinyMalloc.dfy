// The allocator of tiny-malloc.c on memory: headers and next fields are words
// in RAM, and every call walks and rewires the free list in place. The ghost
// field blocks is the tiling those words describe; each method is proved to
// turn it as the functions of HeapSpec say.

module TinyMalloc {
  import opened HeapTiling
  import opened PowersOfTwo
  import opened HeapSpec
  import opened FreeList
  import opened HeapLaws

  /** Memory changed only where no live block of bs lies. */
  ghost predicate KeepsLive(m: seq<nat>, m': seq<nat>, live: set<Block>) {
    && |m'| == |m|
    && forall b, x :: b in live && b.addr <= x < b.addr + b.size && x < |m| ==> m'[x] == m[x]
  }

  /** One local rewrite of the heap: the blocks bs[i..j] over [a, b) become mid, whose chain starts at v. */
  lemma Rewire(m: seq<nat>, m': seq<nat>, bs: seq<Block>, i: nat, j: nat, mid: seq<Block>, p: nat, p': nat, v: nat,
               lo: nat, a: nat, b: nat, hi: nat, w: WordSize)
    requires i <= j <= |bs| && 0 < lo && a <= b && a <= |m|
    requires Tiles(bs[..i], lo, a, w) && Tiles(bs[j..], b, hi, w)
    requires Headers(m, bs) && Linked(m, bs, p, 0, w) && ChangedOnly(m, m', bs[..i], a, b, w)
    requires var prev := LastFree(bs[..i], 0);
             if prev == 0 then p' == v else p' == p && prev + w < |m| && m'[prev + w] == v
    requires Headers(m', mid) && Linked(m', mid, v, FirstFree(bs[j..], 0), w)
    ensures Headers(m', bs[..i] + mid + bs[j..]) && Linked(m', bs[..i] + mid + bs[j..], p', 0, w)
  {
    ChainUpTo(m, bs, p, i, w);
    ChainUpTo(m, bs, p, j, w);
    Relink(m, m', bs[..i], mid, bs[j..], p, FirstFree(bs[i..], 0), p', v, FirstFree(bs[j..], 0), lo, a, b, hi, w);
  }

  /** An allocated block followed by a free one that continues the chain at next. */
  lemma TwoPieces(m: seq<nat>, mid: seq<Block>, next: nat, w: WordSize)
    requires |mid| == 2 && !mid[0].free && mid[1].free
    requires mid[0].addr < |m| && mid[1].addr + w < |m|
    requires m[mid[0].addr] == mid[0].size && m[mid[1].addr] == mid[1].size && m[mid[1].addr + w] == next
    ensures Headers(m, mid) && Linked(m, mid, mid[1].addr, next, w)
  {
    assert mid[1..] == [mid[1]] && mid[1..][1..] == [];
  }

  /** One allocated block adds nothing to the chain. */
  lemma OneLive(m: seq<nat>, mid: seq<Block>, next: nat, w: WordSize)
    requires |mid| == 1 && !mid[0].free && mid[0].addr < |m| && m[mid[0].addr] == mid[0].size
    ensures Headers(m, mid) && Linked(m, mid, next, next, w)
  {
    assert mid[1..] == [];
  }

  /** One free block continues the chain at its next field. */
  lemma OneFree(m: seq<nat>, mid: seq<Block>, next: nat, w: WordSize)
    requires |mid| == 1 && mid[0].free && mid[0].addr + w < |m|
    requires m[mid[0].addr] == mid[0].size && m[mid[0].addr + w] == next
    ensures Headers(m, mid) && Linked(m, mid, mid[0].addr, next, w)
  {
    assert mid[1..] == [];
  }

  /** Two allocated blocks add nothing to the chain. */
  lemma TwoLive(m: seq<nat>, mid: seq<Block>, next: nat, w: WordSize)
    requires |mid| == 2 && !mid[0].free && !mid[1].free
    requires mid[0].addr < |m| && mid[1].addr < |m| && m[mid[0].addr] == mid[0].size && m[mid[1].addr] == mid[1].size
    ensures Headers(m, mid) && Linked(m, mid, next, next, w)
  {
    assert mid[1..] == [mid[1]] && mid[1..][1..] == [];
  }

  /** A free hole, an allocated block, and perhaps a free rest: the chain runs through the free ones to next. */
  lemma HolePieces(m: seq<nat>, mid: seq<Block>, next: nat, w: WordSize)
    requires |mid| == 2 || (|mid| == 3 && mid[2].free)
    requires mid[0].free && !mid[1].free && mid[0].addr + w < |m| && mid[1].addr < |m|
    requires m[mid[0].addr] == mid[0].size && m[mid[1].addr] == mid[1].size
    requires |mid| == 2 ==> m[mid[0].addr + w] == next
    requires |mid| == 3 ==> mid[2].addr + w < |m| && m[mid[2].addr] == mid[2].size
                            && m[mid[0].addr + w] == mid[2].addr && m[mid[2].addr + w] == next
    ensures Headers(m, mid) && Linked(m, mid, mid[0].addr, next, w)
  {
    var tail := mid[1..];
    assert tail[0] == mid[1] && tail[1..] == mid[2..];
    if |mid| == 3 {
      assert mid[2..] == [mid[2]] && mid[2..][1..] == [];
      assert Linked(m, mid[2..], mid[2].addr, next, w);
    }
    assert Linked(m, tail, m[mid[0].addr + w], next, w);
  }

  /** The words that WriteHole stores spell out a carved block. */
  lemma HoleWords(m: seq<nat>, b: Block, before: nat, realSize: nat, next: nat, w: WordSize)
    requires 2 * w <= before && 2 * w <= realSize && b.size >= realSize + before && b.addr + b.size <= |m|
    requires m[b.addr] == before
    requires var block, room := b.addr, b.size - before;
             if room <= realSize + 2 * w then m[block + w] == next && m[block + before] == room
             else
               && m[block + w] == block + before + realSize && m[block + before] == realSize
               && m[block + before + realSize] == room - realSize && m[block + before + realSize + w] == next
    ensures Headers(m, Carve(b, before, realSize, w)) && Linked(m, Carve(b, before, realSize, w), b.addr, next, w)
  {
    HolePieces(m, Carve(b, before, realSize, w), next, w);
  }

  /** A free block may be carved where it lies. */
  lemma CarveKeeps(ar: Arena, bs: seq<Block>, end: nat, j: nat, before: nat, realSize: nat)
    requires WellFormed(ar, bs, end) && realSize >= 2 * ar.w && Aligned(realSize, ar.w)
    requires before >= 2 * ar.w && Aligned(before, ar.w)
    requires j < |bs| && bs[j].free && bs[j].size >= realSize + before
    ensures WellFormed(ar, bs[..j] + Carve(bs[j], before, realSize, ar.w) + bs[j + 1..], end)
  {
    TilesSplit(bs, j, ar.start, end, ar.w);
    var used := CarveTiles(bs[j], before, realSize, ar.w);
    ReplaceFree(ar, bs, end, j, Carve(bs[j], before, realSize, ar.w));
  }

  /** A free block may give its front away as an allocated block. */
  lemma FrontSplits(ar: Arena, bs: seq<Block>, end: nat, j: nat, realSize: nat)
    requires WellFormed(ar, bs, end) && realSize >= 2 * ar.w && Aligned(realSize, ar.w)
    requires j < |bs| && bs[j].free && bs[j].size >= realSize + 2 * ar.w
    ensures var b := bs[j];
            WellFormed(ar, bs[..j]
              + [Block(b.addr, realSize, false), Block(b.addr + realSize, b.size - realSize, true)] + bs[j + 1..], end)
  {
    TilesSplit(bs, j, ar.start, end, ar.w);
    CutTiles(bs[j], realSize, ar.w);
    ReplaceFree(ar, bs, end, j, Cut(bs[j], realSize, ar.w));
  }

  /** A block of a tiling lies outside a stretch that it is not part of. */
  lemma BlockOutside(bs: seq<Block>, i: nat, j: nat, c: Block, lo: nat, a: nat, b: nat, hi: nat, w: WordSize)
    requires i <= j <= |bs| && Tiles(bs[..i], lo, a, w) && Tiles(bs[j..], b, hi, w) && a <= b
    requires c in bs && forall k :: i <= k < j ==> bs[k] != c
    ensures c.addr + c.size <= a || b <= c.addr
  {
    var k :| 0 <= k < |bs| && bs[k] == c;
    if k < i {
      assert bs[..i][k] == c;
      HeaderInside(bs[..i], c, lo, a, w);
    } else {
      assert bs[j..][k - j] == c;
      HeaderInside(bs[j..], c, b, hi, w);
    }
  }

  lemma MergedBytes(bs: seq<Block>, t: nat)
    requires t < |bs|
    ensures var lo, hi := MergeLo(bs, t), MergeHi(bs, t);
            Total(bs[lo..hi]) == (if lo < t then bs[t - 1].size else 0) + bs[t].size
                                 + (if hi > t + 1 then bs[t + 1].size else 0)
  {
    var lo, hi := MergeLo(bs, t), MergeHi(bs, t);
    var left := if lo < t then [bs[t - 1]] else [];
    var right := if hi > t + 1 then [bs[t + 1]] else [];
    assert bs[lo..hi] == left + [bs[t]] + right;
    TotalConcat(left + [bs[t]], right);
    TotalConcat(left, [bs[t]]);
    assert left != [] ==> left[1..] == [];
    assert right != [] ==> right[1..] == [];
    assert [bs[t]][1..] == [];
  }

  class Heap {
    const w: WordSize
    const start: nat
    const limit: nat
    /** mem[a] is the word stored at byte address a. */
    const mem: array<nat>
    var end: nat
    var freelist: nat
    ghost var blocks: seq<Block>

    function Ar(): Arena {
      Arena(w, start, limit)
    }

    ghost predicate Valid()
      reads this, mem
    {
      && mem.Length == limit
      && WellFormed(Ar(), blocks, end)
      && Headers(mem[..], blocks)
      && Linked(mem[..], blocks, freelist, 0, w)
    }

    constructor (w: WordSize, start: nat, limit: nat)
      requires 0 < start && Aligned(start, w) && start + MALLOC_MINIMUM_GAP <= limit
      ensures Valid() && blocks == [] && end == start
      ensures this.w == w && this.start == start && this.limit == limit && fresh(mem)
    {
      this.w, this.start, this.limit := w, start, limit;
      mem := new nat[limit];
      end, freelist, blocks := start, 0, [];
    }

    /** The parts of Valid. */
    lemma Parts()
      requires Valid()
      ensures mem.Length == limit && 0 < start <= end && end + MALLOC_MINIMUM_GAP <= limit
      ensures WellFormed(Ar(), blocks, end) && Tiles(blocks, start, end, w)
      ensures Headers(mem[..], blocks) && Linked(mem[..], blocks, freelist, 0, w)
      ensures freelist == FirstFree(blocks[0..], 0) && LastFree(blocks[..0], 0) == 0
    {
      assert blocks[0..] == blocks;
      LinkedStart(mem[..], blocks, freelist, 0, w);
    }

    /** Stores v through nextfree: the list head when prev is 0, else the next field of the block at prev. */
    method SetNext(prev: nat, v: nat)
      requires prev != 0 ==> prev + w < mem.Length
      modifies this`freelist, mem
      ensures if prev == 0 then freelist == v && mem[..] == old(mem[..])
              else freelist == old(freelist) && mem[..] == old(mem[..])[prev + w := v]
    {
      if prev == 0 {
        freelist := v;
      } else {
        mem[prev + w] := v;
      }
    }

    /** What one step of a free-list walk sees at the block *nextfree, index j of blocks. */
    lemma Visit(i: nat) returns (j: nat)
      requires Valid() && i <= |blocks| && FirstFree(blocks[i..], 0) != 0
      ensures i <= j < |blocks| && blocks[j].free && blocks[j].addr == FirstFree(blocks[i..], 0)
      ensures forall k :: i <= k < j ==> !blocks[k].free
      ensures start <= blocks[j].addr && blocks[j].size >= 2 * w && blocks[j].addr + blocks[j].size <= end
      ensures blocks[j].addr + blocks[j].size <= mem.Length && mem[blocks[j].addr] == blocks[j].size
      ensures mem[blocks[j].addr + w] == FirstFree(blocks[j + 1..], 0)
      ensures LastFree(blocks[..j], 0) == LastFree(blocks[..i], 0)
      ensures LastFree(blocks[..j + 1], 0) == blocks[j].addr
    {
      j := NextFree(blocks, i);
      TilesSplit(blocks, j, start, end, w);
      ChainAt(mem[..], blocks, freelist, j, w);
      LastFreeSkips(blocks, i, j);
      LastFreeAt(blocks, j);
      assert blocks[j] in blocks;
    }
  
    /** A heap rewired from memory m0, blocks bs and list head p: valid again, and the live blocks kept untouched. */
    lemma Rewired(m0: seq<nat>, bs: seq<Block>, p: nat, i: nat, j: nat, mid: seq<Block>, v: nat, a: nat, b: nat,
                  hi: nat, kept: set<Block>)
      requires Tiles(bs, start, hi, w) && Headers(m0, bs) && Linked(m0, bs, p, 0, w)
      requires i <= j <= |bs| && a <= b && a <= limit == mem.Length
      requires kept <= Live(bs) && forall k :: i <= k < j ==> bs[k] !in kept
      requires Tiles(bs[..i], start, a, w) && Tiles(bs[j..], b, end, w)
      requires blocks == bs[..i] + mid + bs[j..] && WellFormed(Ar(), blocks, end)
      requires ChangedOnly(m0, mem[..], bs[..i], a, b, w)
      requires LastFree(bs[..i], 0) == 0 ==> freelist == v
      requires LastFree(bs[..i], 0) != 0 ==>
                 freelist == p && LastFree(bs[..i], 0) + w < limit && mem[LastFree(bs[..i], 0) + w] == v
      requires Headers(mem[..], mid) && Linked(mem[..], mid, v, FirstFree(bs[j..], 0), w)
      ensures Valid() && KeepsLive(m0, mem[..], kept)
    {
      Rewire(m0, mem[..], bs, i, j, mid, p, freelist, v, start, a, b, end, w);
      forall c, x | c in kept && c.addr <= x < c.addr + c.size && x < limit
        ensures mem[x] == m0[x]
      {
        BlockOutside(bs, i, j, c, start, a, b, end, w);
        ChangedOnlyKeeps(m0, mem[..], bs, i, a, b, c, x, start, hi, w);
      }
    }

    /** The free block j rewritten as mid, whose chain starts at v. */
    lemma RewiredFree(m0: seq<nat>, bs: seq<Block>, p: nat, j: nat, mid: seq<Block>, v: nat)
      requires WellFormed(Ar(), bs, end) && Headers(m0, bs) && Linked(m0, bs, p, 0, w) && limit == mem.Length
      requires j < |bs| && bs[j].free
      requires blocks == bs[..j] + mid + bs[j + 1..] && WellFormed(Ar(), blocks, end)
      requires ChangedOnly(m0, mem[..], bs[..j], bs[j].addr, bs[j].addr + bs[j].size, w)
      requires LastFree(bs[..j], 0) == 0 ==> freelist == v
      requires LastFree(bs[..j], 0) != 0 ==>
                 freelist == p && LastFree(bs[..j], 0) + w < limit && mem[LastFree(bs[..j], 0) + w] == v
      requires Headers(mem[..], mid) && Linked(mem[..], mid, v, FirstFree(bs[j + 1..], 0), w)
      ensures Valid() && KeepsLive(m0, mem[..], Live(bs))
    {
      hide Linked, Tiles, Coalesced, FirstFree, LastFree, Aligned;
      TilesSplit(bs, j, start, end, w);
      Rewired(m0, bs, p, j, j + 1, mid, v, bs[j].addr, bs[j].addr + bs[j].size, end, Live(bs));
    }

    /** The top of the heap, the last block if it is free and the space above it, rewritten as mid. */
    lemma RewiredTop(m0: seq<nat>, bs: seq<Block>, p: nat, hi: nat, mid: seq<Block>, v: nat)
      requires WellFormed(Ar(), bs, hi) && Headers(m0, bs) && Linked(m0, bs, p, 0, w) && limit == mem.Length
      requires var n := if EndsFree(bs) then |bs| - 1 else |bs|;
               && blocks == bs[..n] + mid && WellFormed(Ar(), blocks, end) && 0 <= hi - TopFree(bs) <= end
               && ChangedOnly(m0, mem[..], bs[..n], hi - TopFree(bs), end, w)
               && (LastFree(bs[..n], 0) == 0 ==> freelist == v)
               && (LastFree(bs[..n], 0) != 0 ==>
                     freelist == p && LastFree(bs[..n], 0) + w < limit && mem[LastFree(bs[..n], 0) + w] == v)
      requires Headers(mem[..], mid) && Linked(mem[..], mid, v, 0, w)
      ensures Valid() && KeepsLive(m0, mem[..], Live(bs))
    {
      hide Linked, Coalesced, LastFree, Aligned;
      LastBlockEnds(Ar(), bs, hi);
      var n := if EndsFree(bs) then |bs| - 1 else |bs|;
      if EndsFree(bs) {
        TilesSplit(bs, n, start, hi, w);
      }
      assert bs[|bs|..] == [] && bs[..|bs|] == bs;
      assert blocks == bs[..n] + mid + bs[|bs|..];
      Rewired(m0, bs, p, n, |bs|, mid, v, hi - TopFree(bs), end, hi, Live(bs));
    }

    /** Where a walk rewires the list when the top of the heap changes. */
    lemma TopPlace()
      requires Valid()
      ensures var n := if EndsFree(blocks) then |blocks| - 1 else |blocks|;
              var prev := LastFree(blocks[..n], 0);
              && blocks[..n] + blocks[n..] == blocks && start <= end - TopFree(blocks)
              && (EndsFree(blocks) ==> blocks[n].addr == end - TopFree(blocks)
                                       && mem[blocks[n].addr] == blocks[n].size >= 2 * w
                                       && mem[blocks[n].addr + w] == 0)
              && (prev != 0 ==> prev + 2 * w <= end - TopFree(blocks)
                                && mem[prev + w] == if EndsFree(blocks) then blocks[n].addr else 0)
              && (prev == 0 ==> freelist == if EndsFree(blocks) then blocks[n].addr else 0)
    {
      hide Linked, Tiles, Coalesced, FirstFree, LastFree, Aligned;
      var n := |blocks| - 1;
      LastBlockEnds(Ar(), blocks, end);
      if EndsFree(blocks) {
        TilesSplit(blocks, n, start, end, w);
        assert blocks[n] in blocks;
        LastVisited(n);
        ChainAt(mem[..], blocks, freelist, n, w);
        assert blocks[n + 1..] == [];
        PrevField(n);
        PrevFits(n);
      } else {
        assert blocks[..|blocks|] == blocks;
        LastNext(mem[..], blocks, freelist, 0, start, end, w);
        if LastFree(blocks, 0) != 0 {
          var k := LastFreeIsFree(blocks);
          HeaderInside(blocks, blocks[k], start, end, w);
        }
      }
    }

    /** The next field that a walk would rewire lies below block j. */
    lemma PrevFits(j: nat)
      requires Valid() && j < |blocks|
      ensures LastFree(blocks[..j], 0) != 0 ==>
                start <= LastFree(blocks[..j], 0) && LastFree(blocks[..j], 0) + 2 * w <= blocks[j].addr
    {
      TilesSplit(blocks, j, start, end, w);
      if LastFree(blocks[..j], 0) != 0 {
        var k := LastFreeIsFree(blocks[..j]);
        HeaderInside(blocks[..j], blocks[..j][k], start, blocks[j].addr, w);
      }
    }

    /** Block j leaves the free list whole. */
    method Unlink(prev: nat, block: nat, ghost j: nat)
      requires Valid() && j < |blocks| && blocks[j].free
      requires block == blocks[j].addr && prev == LastFree(blocks[..j], 0)
      modifies this`freelist, this`blocks, mem
      ensures Valid()
      ensures blocks == old(blocks)[..j] + [Block(block, old(blocks)[j].size, false)] + old(blocks)[j + 1..]
      ensures KeepsLive(old(mem[..]), mem[..], Live(old(blocks)))
    {
      hide Valid, WellFormed, Linked, Tiles, Coalesced, FirstFree, LastFree, Aligned, Live;
      ghost var m0, bs, p0, b := mem[..], blocks, freelist, blocks[j];
      ghost var mid := [Block(b.addr, b.size, false)];
      Parts();
      TilesSplit(bs, j, start, end, w);
      ChainAt(m0, bs, p0, j, w);
      PrevFits(j);
      assert b in bs;
      OneTile(mid[0], w);
      ReplaceFree(Ar(), bs, end, j, mid);
      SetNext(prev, mem[block + w]);
      blocks := bs[..j] + mid + bs[j + 1..];
      OneLive(mem[..], mid, FirstFree(bs[j + 1..], 0), w);
      RewiredFree(m0, bs, p0, j, mid, FirstFree(bs[j + 1..], 0));
    }

    /** The stores that split the block at block: its tail takes over its place in the chain. */
    method WriteSplit(realSize: nat, prev: nat, block: nat)
      requires block + realSize + w < mem.Length && 2 * w <= realSize <= mem[block]
      requires prev != 0 ==> prev + 2 * w <= block
      modifies this`freelist, mem
      ensures prev == 0 ==> freelist == block + realSize
      ensures prev != 0 ==> freelist == old(freelist) && mem[prev + w] == block + realSize
      ensures mem[block] == realSize
      ensures mem[block + realSize] == old(mem[block]) - realSize
      ensures mem[block + realSize + w] == old(mem[block + w])
      ensures forall x :: 0 <= x < mem.Length && !(block <= x <= block + realSize + w) && !(prev != 0 && x == prev + w)
                ==> mem[x] == old(mem[x])
    {
      var newSize, newNext := mem[block] - realSize, mem[block + w];
      SetNext(prev, block + realSize);
      mem[block + realSize] := newSize;
      mem[block + realSize + w] := newNext;
      mem[block] := realSize;
    }

    /** After WriteSplit on a valid heap m0, bs, p0 the heap is valid with block j split. */
    lemma SplitDone(m0: seq<nat>, bs: seq<Block>, p0: nat, j: nat, realSize: nat)
      requires WellFormed(Ar(), bs, end) && Headers(m0, bs) && Linked(m0, bs, p0, 0, w) && |m0| == limit == mem.Length
      requires realSize >= 2 * w && j < |bs| && bs[j].free && bs[j].size >= realSize + 2 * w
      requires var a := bs[j].addr;
               var mid := [Block(a, realSize, false), Block(a + realSize, bs[j].size - realSize, true)];
               blocks == bs[..j] + mid + bs[j + 1..] && WellFormed(Ar(), blocks, end)
      requires ChangedOnly(m0, mem[..], bs[..j], bs[j].addr, bs[j].addr + bs[j].size, w)
      requires LastFree(bs[..j], 0) == 0 ==> freelist == bs[j].addr + realSize
      requires LastFree(bs[..j], 0) != 0 ==> freelist == p0 && LastFree(bs[..j], 0) + w < limit
                                             && mem[LastFree(bs[..j], 0) + w] == bs[j].addr + realSize
      requires bs[j].addr + bs[j].size <= end
      requires mem[bs[j].addr] == realSize && mem[bs[j].addr + realSize] == bs[j].size - realSize
      requires mem[bs[j].addr + realSize + w] == FirstFree(bs[j + 1..], 0)
      ensures Valid() && KeepsLive(m0, mem[..], Live(bs))
    {
      var b := bs[j];
      var mid := [Block(b.addr, realSize, false), Block(b.addr + realSize, b.size - realSize, true)];
      hide Linked, Tiles, Coalesced, FirstFree, LastFree, Aligned;
      TwoPieces(mem[..], mid, FirstFree(bs[j + 1..], 0), w);
      RewiredFree(m0, bs, p0, j, mid, b.addr + realSize);
    }

    /** Block j gives its first realSize bytes away; the rest takes its place on the free list. */
    method SplitFront(realSize: nat, prev: nat, block: nat, ghost j: nat)
      requires Valid() && realSize >= 2 * w && Aligned(realSize, w)
      requires j < |blocks| && blocks[j].free && blocks[j].size >= realSize + 2 * w
      requires block == blocks[j].addr && prev == LastFree(blocks[..j], 0)
      modifies this`freelist, this`blocks, mem
      ensures Valid()
      ensures blocks == old(blocks)[..j]
                        + [Block(block, realSize, false), Block(block + realSize, old(blocks)[j].size - realSize, true)]
                        + old(blocks)[j + 1..]
      ensures KeepsLive(old(mem[..]), mem[..], Live(old(blocks)))
    {
      hide Linked, Tiles, Coalesced, FirstFree, LastFree, Aligned;
      ghost var m0, bs, p0, b := mem[..], blocks, freelist, blocks[j];
      TilesSplit(bs, j, start, end, w);
      ChainAt(m0, bs, p0, j, w);
      PrevFits(j);
      FrontSplits(Ar(), bs, end, j, realSize);
      assert b in bs;
      WriteSplit(realSize, prev, block);
      blocks := bs[..j]
                + [Block(block, realSize, false), Block(block + realSize, b.size - realSize, true)]
                + bs[j + 1..];
      SplitDone(m0, bs, p0, j, realSize);
    }

    /** The free block at the very end grows to realSize and is taken off the list. */
    method TakeLast(realSize: nat, prev: nat, block: nat)
      requires Valid() && EndsFree(blocks) && realSize >= 2 * w && Aligned(realSize, w)
      requires block == blocks[|blocks| - 1].addr && prev == LastFree(blocks[..|blocks| - 1], 0)
      requires block + realSize + MALLOC_MINIMUM_GAP <= limit
      modifies this`end, this`freelist, this`blocks, mem
      ensures Valid() && end == block + realSize
      ensures blocks == old(blocks)[..|old(blocks)| - 1] + [Block(block, realSize, false)]
      ensures KeepsLive(old(mem[..]), mem[..], Live(old(blocks)))
    {
      hide Valid, WellFormed, Headers, Linked, Tiles, Coalesced, FirstFree, LastFree, Aligned, Live;
      ghost var m0, bs, p0, hi, mid := mem[..], blocks, freelist, end, [Block(block, realSize, false)];
      Parts();
      TopPlace();
      assert WellFormed(Ar(), bs[..|bs| - 1] + mid, block + realSize) by {
        OneTile(mid[0], w);
        ReplaceTop(Ar(), bs, end, mid, block + realSize);
      }
      SetNext(prev, 0);
      end := block + realSize;
      mem[block] := realSize;
      blocks := bs[..|bs| - 1] + mid;
      assert ChangedOnly(m0, mem[..], bs[..|bs| - 1], block, end, w);
      assert Headers(mem[..], mid) && Linked(mem[..], mid, 0, 0, w) by {
        OneLive(mem[..], mid, 0, w);
      }
      RewiredTop(m0, bs, p0, hi, mid, 0);
    }

    /** New space at the end becomes an allocated block. */
    method NewBlock(realSize: nat)
      requires Valid() && !EndsFree(blocks) && realSize >= 2 * w && Aligned(realSize, w)
      requires end + realSize + MALLOC_MINIMUM_GAP <= limit
      modifies this`end, this`blocks, mem
      ensures Valid() && end == old(end) + realSize
      ensures blocks == old(blocks) + [Block(old(end), realSize, false)]
      ensures KeepsLive(old(mem[..]), mem[..], Live(old(blocks)))
    {
      hide Valid, WellFormed, Headers, Linked, Tiles, Coalesced, FirstFree, LastFree, Aligned, Live;
      ghost var m0, bs, hi, mid := mem[..], blocks, end, [Block(end, realSize, false)];
      Parts();
      TopPlace();
      assert bs[..|bs|] == bs && !EndsFree(bs) && TopFree(bs) == 0;
      assert WellFormed(Ar(), bs + mid, end + realSize) by {
        OneTile(mid[0], w);
        ReplaceTop(Ar(), bs, end, mid, end + realSize);
      }
      mem[end] := realSize;
      end := end + realSize;
      blocks := bs + mid;
      assert ChangedOnly(m0, mem[..], bs, hi, end, w);
      assert Headers(mem[..], mid) && Linked(mem[..], mid, 0, 0, w) by {
        OneLive(mem[..], mid, 0, w);
      }
      RewiredTop(m0, bs, freelist, hi, mid, 0);
    }

    /** malloc: first fit, else the last free block grown, else new space at the end. */
    method Malloc(sz: nat) returns (p: nat)
      requires Valid()
      modifies this`end, this`freelist, this`blocks, mem
      ensures Valid()
      ensures var o := HeapSpec.Malloc(Ar(), old(blocks), old(end), RealSize(sz, w));
              blocks == o.blocks && end == o.end && p == (if o.header == 0 then 0 else o.header + w)
      ensures KeepsLive(old(mem[..]), mem[..], Live(old(blocks)))
      ensures p == 0 ==> mem[..] == old(mem[..])
    {
      hide RealSize;
      RealSizeIsBlock(sz, w);
      p := MallocReal(RealSize(sz, w));
    }

    /** The walk of malloc: stops at the first block that fits, or at a last block that ends the arena. */
    method FindFit(realSize: nat) returns (prev: nat, block: nat, ghost j: nat)
      requires Valid()
      ensures block == 0 ==> FirstFit(blocks, realSize) == |blocks| && !EndsFree(blocks)
      ensures block != 0 ==>
                && j < |blocks| && blocks[j].free && block == blocks[j].addr && prev == LastFree(blocks[..j], 0)
                && block + w < mem.Length && mem[block] == blocks[j].size && start <= block
                && if blocks[j].size >= realSize then FirstFit(blocks, realSize) == j
                   else FirstFit(blocks, realSize) == |blocks| && j == |blocks| - 1
    {
      hide Valid, FirstFree, LastFree, FirstFit;
      prev, block, j := 0, freelist, 0;
      ghost var i := 0;
      Parts();
      while block != 0
        invariant i <= |blocks| && i <= FirstFit(blocks, realSize)
        invariant block == FirstFree(blocks[i..], 0) && prev == LastFree(blocks[..i], 0)
        invariant EndsFree(blocks) ==> i < |blocks|
        decreases |blocks| - i
      {
        j := Visit(i);
        LastVisited(j);
        var fits := mem[block] >= realSize;
        assert if fits then FirstFit(blocks, realSize) == j else FirstFit(blocks, realSize) > j;
        if fits || (mem[block + w] == 0 && end == block + mem[block]) {
          return;
        }
        prev, block, i := block, mem[block + w], j + 1;
      }
      NothingLeft(i);
    }

    /** A block that fits is taken whole or split. */
    method TakeFit(realSize: nat, prev: nat, block: nat, ghost j: nat)
      requires Valid() && realSize >= 2 * w && Aligned(realSize, w)
      requires j < |blocks| && blocks[j].free && blocks[j].size >= realSize
      requires block == blocks[j].addr && prev == LastFree(blocks[..j], 0)
      requires block < mem.Length && mem[block] == blocks[j].size
      modifies this`freelist, this`blocks, mem
      ensures Valid()
      ensures blocks == old(blocks)[..j] + Cut(old(blocks)[j], realSize, w) + old(blocks)[j + 1..]
      ensures KeepsLive(old(mem[..]), mem[..], Live(old(blocks)))
    {
      ghost var b := blocks[j];
      if mem[block] < realSize + 2 * w {
        assert Cut(b, realSize, w) == [Block(block, b.size, false)];
        Unlink(prev, block, j);
      } else {
        assert Cut(b, realSize, w) == [Block(block, realSize, false), Block(block + realSize, b.size - realSize, true)];
        SplitFront(realSize, prev, block, j);
      }
    }

    /** The body of malloc, from the real size on. */
    method MallocReal(realSize: nat) returns (p: nat)
      requires Valid() && realSize >= 2 * w && Aligned(realSize, w)
      modifies this`end, this`freelist, this`blocks, mem
      ensures Valid()
      ensures var o := HeapSpec.Malloc(Ar(), old(blocks), old(end), realSize);
              blocks == o.blocks && end == o.end && p == (if o.header == 0 then 0 else o.header + w)
      ensures KeepsLive(old(mem[..]), mem[..], Live(old(blocks)))
      ensures p == 0 ==> mem[..] == old(mem[..])
    {
      var prev, block, j := FindFit(realSize);
      if block == 0 {
        if !CanAlloc(Ar(), end, realSize) {
          return 0;
        }
        p := end + w;
        NewBlock(realSize);
      } else if mem[block] < realSize {
        if !CanAlloc(Ar(), end, realSize - mem[block]) {
          return 0;
        }
        LastVisited(j);
        TakeLast(realSize, prev, block);
        p := block + w;
      } else {
        TakeFit(realSize, prev, block, j);
        p := block + w;
      }
    }

    /** The free block j ends the arena exactly when it is the last block. */
    lemma LastVisited(j: nat)
      requires Valid() && j < |blocks|
      ensures blocks[j].addr + blocks[j].size == end <==> j == |blocks| - 1
      ensures j == |blocks| - 1 ==> FirstFree(blocks[j + 1..], 0) == 0
    {
      LastBlockEnds(Ar(), blocks, end);
      if j < |blocks| - 1 {
        AddressOrder(blocks, j, |blocks| - 1, start, end, w);
        TilesSplit(blocks, |blocks| - 1, start, end, w);
      }
    }

    /** When a walk runs off the list, no block from index i on is free. */
    lemma NothingLeft(i: nat)
      requires Valid() && i <= |blocks| && FirstFree(blocks[i..], 0) == 0
      ensures forall k :: i <= k < |blocks| ==> !blocks[k].free
    {
      forall k | i <= k < |blocks|
        ensures !blocks[k].free
      {
        NoneFree(blocks, i, k, start, end, w);
      }
    }
  
    // -------------------------------------------------------------------
    // free
    // -------------------------------------------------------------------

    /** The walk of free: stops at the first free block that touches block t or lies after it. */
    method FindPlace(block: nat, ghost t: nat) returns (prev: nat, here: nat, ghost j: nat)
      requires Valid() && t < |blocks| && !blocks[t].free && block == blocks[t].addr
      ensures here == 0 ==> FirstFree(blocks[t + 1..], 0) == 0 && j == |blocks|
      ensures here != 0 ==>
                && j < |blocks| && blocks[j].free && here == blocks[j].addr
                && block + blocks[t].size <= end && here + blocks[j].size <= end
                && mem[here] == blocks[j].size && mem[block] == blocks[t].size
      ensures here == 0 || j > t ==>
                && FirstFree(blocks[t + 1..], 0) == here && LastFree(blocks[..t], 0) == prev
                && MergeLo(blocks, t) == t && (MergeHi(blocks, t) == t + 2 <==> here != 0 && j == t + 1)
      ensures here != 0 && j <= t ==> j == t - 1 && MergeLo(blocks, t) == t - 1
    {
      hide Valid, FirstFree, LastFree;
      prev, here, j := 0, freelist, |blocks|;
      ghost var i := 0;
      Parts();
      RunBytes(t);
      hide MergeLo, MergeHi, Total, WellFormed, Headers, Linked, Tiles;
      while here != 0
        invariant i <= t
        invariant here == FirstFree(blocks[i..], 0) && prev == LastFree(blocks[..i], 0)
        invariant forall k :: 0 <= k < i && blocks[k].free ==> k + 1 < t
        invariant j == |blocks|
        decreases |blocks| - i
      {
        ghost var k := Visit(i);
        Placed(t, k);
        if here + mem[here] == block || here == block + mem[block] || here > block {
          j := k;
          if k > t {
            BetweenIsLive(i, t, k);
          }
          return;
        }
        prev, here, i := here, mem[here + w], k + 1;
      }
      NothingLeft(i);
      BetweenIsLive(i, t, |blocks|);
    }

    /** The stores that let the block at here take over the one at block, and the next one if that touches it. */
    method WriteMergeLeft(block: nat, here: nat)
      requires here + 2 * w <= block && block + w < mem.Length && block + 2 * w <= block + mem[block]
      requires block + mem[block] == mem[here + w] ==> mem[here + w] + w < mem.Length
      modifies mem
      ensures var next := old(mem[here + w]);
              var right := next != 0 && block + old(mem[block]) == next;
              && mem[here] == old(mem[here]) + old(mem[block]) + (if right then old(mem[next]) else 0)
              && mem[here + w] == (if right then old(mem[next + w]) else next)
      ensures forall x :: 0 <= x < mem.Length && x != here && x != here + w ==> mem[x] == old(mem[x])
    {
      mem[here] := mem[here] + mem[block];
      if mem[here + w] != 0 && block + mem[block] == mem[here + w] {
        var next := mem[here + w];
        mem[here] := mem[here] + mem[next];
        mem[here + w] := mem[next + w];
      }
    }

    /** A free block just before block t takes it over, and the free block just after it as well. */
    method MergeLeft(block: nat, here: nat, ghost t: nat)
      requires Valid() && t < |blocks| && !blocks[t].free && block == blocks[t].addr
      requires t > 0 && blocks[t - 1].free && here == blocks[t - 1].addr && here + w < mem.Length
      modifies this`blocks, mem
      ensures Valid() && blocks == FreeAt(old(blocks), t)
      ensures KeepsLive(old(mem[..]), mem[..], Live(old(blocks)) - {old(blocks)[t]})
    {
      hide Linked, Tiles, Coalesced, FirstFree, LastFree, Aligned, Total;
      ghost var m0, bs := mem[..], blocks;
      FreeTiles(Ar(), bs, end, t);
      RunBytes(t);
      LeftOf(t);
      RightOf(t);
      PrevField(t - 1);
      PrevFits(t - 1);
      WriteMergeLeft(block, here);
      blocks := FreeAt(bs, t);
      FreeDone(m0, bs, freelist, t);
    }

    /** Block t, with no free block before it, takes over the free block just after it. */
    method MergeRight(prev: nat, block: nat, here: nat, ghost t: nat)
      requires Valid() && t < |blocks| && !blocks[t].free && block == blocks[t].addr && block + w < mem.Length
      requires t + 1 < |blocks| && blocks[t + 1].free && here == blocks[t + 1].addr && here + w < mem.Length
      requires MergeLo(blocks, t) == t && prev == LastFree(blocks[..t], 0)
      modifies this`freelist, this`blocks, mem
      ensures Valid() && blocks == FreeAt(old(blocks), t)
      ensures KeepsLive(old(mem[..]), mem[..], Live(old(blocks)) - {old(blocks)[t]})
    {
      hide Linked, Coalesced, FirstFree, LastFree, Aligned, Total, Tiles;
      ghost var m0, bs, p0 := mem[..], blocks, freelist;
      FreeTiles(Ar(), bs, end, t);
      RunBytes(t);
      RightOf(t);
      PrevFits(t);
      mem[block] := mem[block] + mem[here];
      mem[block + w] := mem[here + w];
      SetNext(prev, block);
      blocks := FreeAt(bs, t);
      FreeDone(m0, bs, p0, t);
    }

    /** Block t, touching no free block, joins the list between prev and here. */
    method Insert(prev: nat, block: nat, here: nat, ghost t: nat)
      requires Valid() && t < |blocks| && !blocks[t].free && block == blocks[t].addr && block + w < mem.Length
      requires MergeLo(blocks, t) == t && MergeHi(blocks, t) == t + 1
      requires prev == LastFree(blocks[..t], 0) && here == FirstFree(blocks[t + 1..], 0)
      modifies this`freelist, this`blocks, mem
      ensures Valid() && blocks == FreeAt(old(blocks), t)
      ensures KeepsLive(old(mem[..]), mem[..], Live(old(blocks)) - {old(blocks)[t]})
    {
      hide Linked, Coalesced, FirstFree, LastFree, Aligned, Total, Tiles;
      ghost var m0, bs, p0 := mem[..], blocks, freelist;
      FreeTiles(Ar(), bs, end, t);
      RunBytes(t);
      RightOf(t);
      PrevFits(t);
      mem[block + w] := here;
      SetNext(prev, block);
      blocks := FreeAt(bs, t);
      FreeDone(m0, bs, p0, t);
    }

    /** free: the block merges with the free neighbours it touches, or joins the list in address order. */
    method Free(p: nat)
      requires Valid() && (p == 0 || (p >= w && IsLive(blocks, p - w)))
      modifies this`freelist, this`blocks, mem
      ensures Valid()
      ensures p == 0 ==> blocks == old(blocks) && freelist == old(freelist) && mem[..] == old(mem[..])
      ensures p != 0 ==>
                var t := IndexOf(old(blocks), p - w);
                && blocks == FreeAt(old(blocks), t)
                && KeepsLive(old(mem[..]), mem[..], Live(old(blocks)) - {old(blocks)[t]})
    {
      if p == 0 {
        return;
      }
      var block := p - w;
      ghost var t := IndexOf(blocks, block);
      var prev, here, j := FindPlace(block, t);
      TilesSplit(blocks, t, start, end, w);
      if here != 0 {
        Placed(t, j);
      }
      if here != 0 && here + mem[here] == block {
        MergeLeft(block, here, t);
      } else if here != 0 && here == block + mem[block] {
        MergeRight(prev, block, here, t);
      } else {
        Insert(prev, block, here, t);
      }
    }

    /** The bytes of the run that merges around block t. */
    lemma RunBytes(t: nat)
      requires Valid() && t < |blocks| && !blocks[t].free
      ensures var lo, hi := MergeLo(blocks, t), MergeHi(blocks, t);
              && start <= blocks[lo].addr && blocks[lo].addr + Total(blocks[lo..hi]) <= end
              && Total(blocks[lo..hi]) == (if lo < t then blocks[t - 1].size else 0) + blocks[t].size
                                          + (if hi > t + 1 then blocks[t + 1].size else 0)
      ensures blocks[t].addr + blocks[t].size <= end && mem[blocks[t].addr] == blocks[t].size && blocks[t].size >= 2 * w
    {
      var lo, hi := MergeLo(blocks, t), MergeHi(blocks, t);
      TotalOfRun(blocks, lo, hi, start, end, w);
      TotalIsSpan(blocks[hi..], blocks[lo].addr + Total(blocks[lo..hi]), end, w);
      TilesSplit(blocks, lo, start, end, w);
      TilesSplit(blocks, t, start, end, w);
      assert blocks[t] in blocks;
      MergedBytes(blocks, t);
    }

    /** The free block just before block t. */
    lemma LeftOf(t: nat)
      requires Valid() && 0 < t < |blocks| && blocks[t - 1].free
      ensures blocks[t - 1].addr + blocks[t - 1].size == blocks[t].addr
      ensures mem[blocks[t - 1].addr] == blocks[t - 1].size >= 2 * w
      ensures mem[blocks[t - 1].addr + w] == FirstFree(blocks[t..], 0)
    {
      AddressOrder(blocks, t - 1, t, start, end, w);
      TilesSplit(blocks, t, start, end, w);
      ChainAt(mem[..], blocks, freelist, t - 1, w);
      assert blocks[t - 1] in blocks;
    }

    /** What follows the live block t on the list, and whether it touches it. */
    lemma RightOf(t: nat)
      requires Valid() && t < |blocks| && !blocks[t].free
      ensures FirstFree(blocks[t..], 0) == FirstFree(blocks[t + 1..], 0)
      ensures var next := FirstFree(blocks[t + 1..], 0);
              && (MergeHi(blocks, t) == t + 2 <==> next != 0 && next == blocks[t].addr + blocks[t].size)
              && (MergeHi(blocks, t) == t + 2 ==>
                    && next == blocks[t + 1].addr && blocks[t + 1].size >= 2 * w
                    && next + blocks[t + 1].size <= end
                    && mem[next] == blocks[t + 1].size && mem[next + w] == FirstFree(blocks[t + 2..], 0))
    {
      FirstFreeSkips(blocks, t, t + 1);
      TilesSplit(blocks, t, start, end, w);
      if FirstFree(blocks[t + 1..], 0) != 0 {
        var k := Visit(t + 1);
        Placed(t, k);
      }
      if t + 1 < |blocks| && blocks[t + 1].free {
        TilesSplit(blocks, t + 1, start, end, w);
        ChainAt(mem[..], blocks, freelist, t + 1, w);
        Placed(t, t + 1);
      }
    }

    /** The list head or next field before block j leads to the first free block from j on. */
    lemma PrevField(j: nat)
      requires Valid() && j < |blocks|
      ensures blocks[j].free ==> FirstFree(blocks[j..], 0) == blocks[j].addr
      ensures LastFree(blocks[..j], 0) == 0 ==> freelist == FirstFree(blocks[j..], 0)
      ensures LastFree(blocks[..j], 0) != 0 ==>
                LastFree(blocks[..j], 0) + w < mem.Length
                && mem[LastFree(blocks[..j], 0) + w] == FirstFree(blocks[j..], 0)
    {
      TilesSplit(blocks, j, start, end, w);
      ChainAt(mem[..], blocks, freelist, j, w);
      LastNext(mem[..], blocks[..j], freelist, FirstFree(blocks[j..], 0), start, blocks[j].addr, w);
    }

    /** With the merged block's header, next field and predecessor in place, the heap is valid again. */
    lemma FreeDone(m0: seq<nat>, bs: seq<Block>, p0: nat, t: nat)
      requires WellFormed(Ar(), bs, end) && Headers(m0, bs) && Linked(m0, bs, p0, 0, w) && |m0| == limit == mem.Length
      requires t < |bs| && !bs[t].free && blocks == FreeAt(bs, t) && WellFormed(Ar(), blocks, end)
      requires var lo, hi := MergeLo(bs, t), MergeHi(bs, t);
               var a, n := bs[lo].addr, Total(bs[lo..hi]);
               && a + n <= end
               && ChangedOnly(m0, mem[..], bs[..lo], a, a + n, w)
               && mem[a] == n && mem[a + w] == FirstFree(bs[hi..], 0)
               && (LastFree(bs[..lo], 0) == 0 ==> freelist == a)
               && (LastFree(bs[..lo], 0) != 0 ==> freelist == p0 && LastFree(bs[..lo], 0) + w < limit
                                                  && mem[LastFree(bs[..lo], 0) + w] == a)
      ensures Valid() && KeepsLive(m0, mem[..], Live(bs) - {bs[t]})
    {
      hide Coalesced, FirstFree, LastFree, Aligned, ChangedOnly, KeepsLive, Live;
      var lo, hi := MergeLo(bs, t), MergeHi(bs, t);
      var a, n := bs[lo].addr, Total(bs[lo..hi]);
      var mid := [Block(a, n, true)];
      OneFree(mem[..], mid, FirstFree(bs[hi..], 0), w);
      hide Headers, Linked, Total;
      TotalOfRun(bs, lo, hi, start, end, w);
      OneLessLive(bs, t, lo, hi);
      Rewired(m0, bs, p0, lo, hi, mid, a, a, a + n, end, Live(bs) - {bs[t]});
    }

    /** Of the blocks that merge, only the one freed was live. */
    lemma OneLessLive(bs: seq<Block>, t: nat, lo: nat, hi: nat)
      requires t < |bs| && lo == MergeLo(bs, t) && hi == MergeHi(bs, t)
      ensures Live(bs) - {bs[t]} <= Live(bs) && forall k :: lo <= k < hi ==> bs[k] !in Live(bs) - {bs[t]}
    {
    }

    /** Where a free block k lies relative to block t, read off their addresses. */
    lemma Placed(t: nat, k: nat)
      requires Valid() && t < |blocks| && k < |blocks| && k != t
      ensures blocks[k].addr + blocks[k].size == blocks[t].addr <==> k == t - 1
      ensures blocks[k].addr == blocks[t].addr + blocks[t].size <==> k == t + 1
      ensures blocks[k].addr > blocks[t].addr <==> k > t
    {
      if k < t {
        AddressOrder(blocks, k, t, start, end, w);
        TilesSplit(blocks, t, start, end, w);
      } else {
        AddressOrder(blocks, t, k, start, end, w);
        TilesSplit(blocks, k, start, end, w);
      }
    }

    /** No free block from i to k: the list passes over block t from its last free block before i to k. */
    lemma BetweenIsLive(i: nat, t: nat, k: nat)
      requires i <= t < k <= |blocks| && !blocks[t].free
      requires forall n :: i <= n < k ==> !blocks[n].free
      ensures LastFree(blocks[..t], 0) == LastFree(blocks[..i], 0)
      ensures FirstFree(blocks[t + 1..], 0) == FirstFree(blocks[k..], 0) == FirstFree(blocks[i..], 0)
    {
      LastFreeSkips(blocks, i, t);
      FirstFreeSkips(blocks, t + 1, k);
      FirstFreeSkips(blocks, i, k);
    }
  
    // -------------------------------------------------------------------
    // realloc
    // -------------------------------------------------------------------

    /** memcpy of n bytes, whole words, between payloads that do not overlap. */
    method CopyWords(dst: nat, src: nat, n: nat)
      requires Aligned(n, w) && dst + n <= mem.Length && src + n <= mem.Length
      requires dst + n <= src || src + n <= dst
      modifies mem
      ensures forall k :: 0 <= k < n && Aligned(k, w) ==> mem[dst + k] == old(mem[src + k])
      ensures forall x :: 0 <= x < mem.Length && !(dst <= x < dst + n) ==> mem[x] == old(mem[x])
    {
      hide Aligned;
      var done := 0;
      NextWord(done, n);
      while done < n
        invariant 0 <= done <= n && (done == 0 || Aligned(done, w))
        invariant forall k :: 0 <= k < done && Aligned(k, w) ==> mem[dst + k] == old(mem[src + k])
        invariant forall x :: 0 <= x < mem.Length && !(dst <= x < dst + done) ==> mem[x] == old(mem[x])
      {
        NextWord(done, n);
        mem[dst + done] := mem[src + done];
        done := done + w;
      }
    }

    /** The word after a word boundary before n is again one, not past n, and no boundary lies between. */
    lemma NextWord(done: nat, n: nat)
      requires Aligned(n, w) && (done == 0 || Aligned(done, w))
      ensures Aligned(done + w, w) && (done < n ==> done + w <= n)
      ensures forall k :: done <= k < done + w && Aligned(k, w) ==> k == done
    {
      WordAligned(w);
      AlignedSum(w, w, w);
      assert Aligned(done, w);
      AlignedSum(done, w, w);
      if done < n < done + w {
        NextBoundary(done, n, w);
      }
      forall k | done <= k < done + w && Aligned(k, w)
        ensures k == done
      {
        NextBoundary(done, k, w);
      }
    }

    /** Writing inside the payload of a live block disturbs nothing. */
    lemma PayloadWrite(m0: seq<nat>, b: Block)
      requires |m0| == limit == mem.Length && WellFormed(Ar(), blocks, end)
      requires Headers(m0, blocks) && Linked(m0, blocks, freelist, 0, w) && b in Live(blocks)
      requires forall x :: 0 <= x < limit && !(b.addr + w <= x < b.addr + b.size) ==> mem[x] == m0[x]
      ensures Valid()
    {
      forall c | c in blocks
        ensures start <= c.addr && c.addr + 2 * w <= c.addr + c.size <= end
      {
        HeaderInside(blocks, c, start, end, w);
      }
      forall c | c in blocks
        ensures mem[c.addr] == c.size && (c.free ==> mem[c.addr + w] == m0[c.addr + w])
      {
        if c != b {
          NewBlockDisjoint(blocks, c, b, start, end, w);
        }
      }
      LinkedFrame(m0, mem[..], blocks, freelist, 0, w);
    }

    /** A live block cut in two live blocks: two header words. */
    method CutLive(block: nat, realSize: nat, ghost t: nat)
      requires Valid() && t < |blocks| && !blocks[t].free && block == blocks[t].addr
      requires 2 * w <= realSize && Aligned(realSize, w) && realSize + 2 * w <= blocks[t].size
      requires block + realSize < mem.Length && mem[block] == blocks[t].size
      modifies this`blocks, mem
      ensures Valid() && blocks == Shrink(old(blocks), t, realSize)
      ensures IsLive(blocks, block + realSize) && IndexOf(blocks, block + realSize) == t + 1
      ensures forall x :: 0 <= x < mem.Length && x != block && x != block + realSize ==> mem[x] == old(mem[x])
    {
      hide Valid, WellFormed, Headers, Linked, Tiles, Coalesced, FirstFree, LastFree, Aligned, Live, IsLive, IndexOf;
      ghost var m0, bs := mem[..], blocks;
      Parts();
      ShrinkKeeps(Ar(), bs, end, t, realSize);
      TilesSplit(bs, t, start, end, w);
      PrevField(t);
      PrevFits(t);
      RightOf(t);
      mem[block + realSize] := mem[block] - realSize;
      mem[block] := realSize;
      blocks := Shrink(bs, t, realSize);
      CutDone(m0, bs, t, realSize);
      TailIsFound(bs, t, realSize);
    }

    lemma TailIsFound(bs: seq<Block>, t: nat, realSize: nat)
      requires Valid() && t < |bs| && realSize <= bs[t].size && blocks == Shrink(bs, t, realSize)
      ensures IsLive(blocks, bs[t].addr + realSize) && IndexOf(blocks, bs[t].addr + realSize) == t + 1
    {
      IndexOfAddr(blocks, t + 1, start, end, w);
    }

    lemma CutDone(m0: seq<nat>, bs: seq<Block>, t: nat, realSize: nat)
      requires WellFormed(Ar(), bs, end) && Tiles(bs, start, end, w) && 0 < start && end <= limit
      requires Headers(m0, bs) && Linked(m0, bs, freelist, 0, w) && |m0| == limit == mem.Length
      requires t < |bs| && !bs[t].free && 2 * w <= realSize && realSize + 2 * w <= bs[t].size
      requires blocks == bs[..t] + [Block(bs[t].addr, realSize, false),
                                    Block(bs[t].addr + realSize, bs[t].size - realSize, false)] + bs[t + 1..]
      requires WellFormed(Ar(), blocks, end) && bs[t].addr + bs[t].size <= end
      requires ChangedOnly(m0, mem[..], bs[..t], bs[t].addr, bs[t].addr + bs[t].size, w)
      requires LastFree(bs[..t], 0) == 0 ==> freelist == FirstFree(bs[t + 1..], 0)
      requires LastFree(bs[..t], 0) != 0 ==> LastFree(bs[..t], 0) + w < limit
                                             && mem[LastFree(bs[..t], 0) + w] == FirstFree(bs[t + 1..], 0)
      requires mem[bs[t].addr] == realSize && mem[bs[t].addr + realSize] == bs[t].size - realSize
      ensures Valid()
    {
      hide Valid, WellFormed, Headers, Linked, Tiles, Coalesced, FirstFree, LastFree, Aligned, Live;
      var next, b := FirstFree(bs[t + 1..], 0), bs[t];
      var mid := [Block(b.addr, realSize, false), Block(b.addr + realSize, b.size - realSize, false)];
      TilesSplit(bs, t, start, end, w);
      TwoLive(mem[..], mid, next, w);
      assert blocks == bs[..t] + mid + bs[t + 1..];
      Rewired(m0, bs, freelist, t, t + 1, mid, next, b.addr, b.addr + b.size, end, {});
    }

    /** The old payload that realloc copies is shorter than the request, and whole words. */
    lemma OldPayloadFits(size: nat, sz: nat, realSize: nat)
      requires 2 * w <= size < realSize && Aligned(size, w) && Aligned(realSize, w)
      requires realSize < sz + 2 * w || realSize == 2 * w
      ensures size - w < sz && Aligned(size - w, w) && size <= realSize - w
    {
    }

    /** The first half of a growing realloc: a new block that holds a copy of the old payload. */
    method AllocateCopy(p: nat, sz: nat, realSize: nat, ghost was: Block) returns (r: nat, ghost b: Block)
      requires Valid() && was in Live(blocks) && p == was.addr + w && was.size < realSize
      requires Aligned(realSize, w) && 2 * w <= realSize && (realSize < sz + 2 * w || realSize == 2 * w)
      modifies this`end, this`freelist, this`blocks, mem
      ensures Valid()
      ensures var o := HeapSpec.Malloc(Ar(), old(blocks), old(end), realSize);
              blocks == o.blocks && end == o.end && r == (if o.header == 0 then 0 else o.header + w)
              && (if OutOfMemory(Ar(), old(blocks), old(end), realSize) then r == 0 && mem[..] == old(mem[..])
                  else r != 0 && Grants(Ar(), old(blocks), o, b) && r == b.addr + w)
      ensures KeepsLive(old(mem[..]), mem[..], Live(old(blocks)))
      ensures r != 0 ==> r + was.size - w <= b.addr + b.size
      ensures r != 0 ==> forall k :: 0 <= k < was.size - w && Aligned(k, w) ==>
                r + k < mem.Length && p + k < mem.Length && mem[r + k] == old(mem[p + k])
    {
      hide Linked, Tiles, Coalesced, FirstFree, LastFree, HeapSpec.Malloc, Aligned, FromRightPlace;
      ghost var m0, bs, e := mem[..], blocks, end;
      HeaderInside(bs, was, start, end, w);
      BlockAligned(bs, was, start, end, w);
      OldPayloadFits(was.size, sz, realSize);
      var oldSize := mem[p - w] - w;
      r := MallocReal(realSize);
      b := MallocGrants(Ar(), bs, e, realSize);
      if r == 0 {
        return;
      }
      ghost var m1 := mem[..];
      var n := if oldSize < sz then oldSize else sz;
      assert n == was.size - w;
      assert r == b.addr + w && b in Live(blocks) && n <= b.size - w;
      assert was.addr + was.size <= b.addr || b.addr + b.size <= was.addr;
      HeaderInside(blocks, b, start, end, w);
      CopyWords(r, p, n);
      PayloadWrite(m1, b);
    }

    /** What realloc does when the block must grow: allocate, copy the old payload, free. */
    method ReallocGrow(p: nat, sz: nat, realSize: nat) returns (r: nat)
      requires Valid() && p >= w && IsLive(blocks, p - w) && blocks[IndexOf(blocks, p - w)].size < realSize
      requires Aligned(realSize, w) && 2 * w <= realSize && (realSize < sz + 2 * w || realSize == 2 * w)
      modifies this`end, this`freelist, this`blocks, mem
      ensures Valid()
      ensures var o := HeapSpec.Realloc(Ar(), old(blocks), old(end), p - w, realSize);
              blocks == o.blocks && end == o.end && r == (if o.header == 0 then 0 else o.header + w)
      ensures r == 0 ==> mem[..] == old(mem[..])
      ensures var was := old(blocks)[IndexOf(old(blocks), p - w)];
              && KeepsLive(old(mem[..]), mem[..], Live(old(blocks)) - {was})
              && (r != 0 ==> forall k :: 0 <= k < was.size - w && Aligned(k, w) ==>
                    r + k < mem.Length && p + k < mem.Length && mem[r + k] == old(mem[p + k]))
    {
      hide Linked, Tiles, Coalesced, FirstFree, LastFree, HeapSpec.Malloc, FreeAt, Aligned, FromRightPlace;
      ghost var bs, e, was := blocks, end, blocks[IndexOf(blocks, p - w)];
      assert was in Live(bs);
      ghost var b;
      r, b := AllocateCopy(p, sz, realSize, was);
      if r == 0 {
        return;
      }
      ghost var b' := ReallocGrows(Ar(), bs, e, p - w, realSize);
      LiveIsFound(blocks, was, start, end, w);
      HeaderInside(blocks, was, start, end, w);
      ghost var m1, bs1 := mem[..], blocks;
      Free(p);
      assert b in Live(bs1) - {was};
      assert Live(bs) - {was} <= Live(bs1) - {was};
    }

    /** A live block keeps its first realSize bytes; its tail is cut off and freed. */
    method FreeTail(block: nat, realSize: nat, ghost t: nat)
      requires Valid() && t < |blocks| && !blocks[t].free && block == blocks[t].addr
      requires 2 * w <= realSize && Aligned(realSize, w) && realSize + 2 * w <= blocks[t].size
      modifies this`freelist, this`blocks, mem
      ensures Valid() && blocks == FreeAt(Shrink(old(blocks), t, realSize), t + 1)
      ensures KeepsLive(old(mem[..]), mem[..], Live(old(blocks)) - {old(blocks)[t]})
      ensures forall x :: block + w <= x < block + realSize && x < mem.Length ==> mem[x] == old(mem[x])
    {
      hide Valid, WellFormed, Headers, Linked, Tiles, Coalesced, FirstFree, FreeAt, Aligned, KeepsLive, Live, IsLive,
           IndexOf, Total, Shrink;
      ghost var m0, bs := mem[..], blocks;
      Parts();
      assert bs[t] in bs;
      HeaderInside(bs, bs[t], start, end, w);
      CutLive(block, realSize, t);
      ghost var m1 := mem[..];
      Free(block + realSize + w);
      TailFreed(m0, m1, mem[..], bs, t, realSize);
    }

    /** Cutting block t and freeing its tail touches neither the other live blocks nor the payload kept. */
    lemma TailFreed(m0: seq<nat>, m1: seq<nat>, m2: seq<nat>, bs: seq<Block>, t: nat, realSize: nat)
      requires WellFormed(Ar(), bs, end) && t < |bs| && !bs[t].free
      requires 2 * w <= realSize && Aligned(realSize, w) && realSize + 2 * w <= bs[t].size
      requires |m1| == |m0| && forall x :: 0 <= x < |m0| && x != bs[t].addr && x != bs[t].addr + realSize ==>
                 m1[x] == m0[x]
      requires var bs1 := Shrink(bs, t, realSize); KeepsLive(m1, m2, Live(bs1) - {bs1[t + 1]})
      ensures KeepsLive(m0, m2, Live(bs) - {bs[t]})
      ensures forall x :: bs[t].addr + w <= x < bs[t].addr + realSize && x < |m0| ==> m2[x] == m0[x]
    {
      hide Tiles, Coalesced, Aligned;
      var bs1, was := Shrink(bs, t, realSize), bs[t];
      OthersOfCut(bs, bs1, t, realSize);
      assert bs1[t] == Block(was.addr, realSize, false);
      forall c, x | c in Live(bs) - {was} && c.addr <= x < c.addr + c.size && x < |m0|
        ensures m2[x] == m0[x]
      {
        NewBlockDisjoint(bs, c, was, start, end, w);
        assert m1[x] == m0[x];
      }
    }

    /** What realloc does when the block is large enough: a tail that can hold a free-list entry is freed. */
    method ReallocShrink(p: nat, realSize: nat)
      requires Valid() && p >= w && IsLive(blocks, p - w) && blocks[IndexOf(blocks, p - w)].size >= realSize
      requires Aligned(realSize, w) && 2 * w <= realSize
      modifies this`freelist, this`blocks, mem
      ensures Valid()
      ensures HeapSpec.Realloc(Ar(), old(blocks), end, p - w, realSize) == Outcome(blocks, end, p - w)
      ensures var was := old(blocks)[IndexOf(old(blocks), p - w)];
              && KeepsLive(old(mem[..]), mem[..], Live(old(blocks)) - {was})
              && forall x :: p <= x < p + realSize - w && x < mem.Length ==> mem[x] == old(mem[x])
    {
      hide Linked, Tiles, Coalesced, FirstFree, LastFree, FreeAt, Aligned;
      ghost var t := IndexOf(blocks, p - w);
      assert blocks[t] in blocks;
      HeaderInside(blocks, blocks[t], start, end, w);
      if mem[p - w] - realSize >= 2 * w {
        FreeTail(p - w, realSize, t);
      }
    }

    /** The front of a cut block, and all other live blocks, are not its tail. */
    lemma OthersOfCut(bs: seq<Block>, bs1: seq<Block>, t: nat, realSize: nat)
      requires WellFormed(Ar(), bs, end) && t < |bs| && !bs[t].free
      requires 2 * w <= realSize && Aligned(realSize, w) && realSize + 2 * w <= bs[t].size
      requires bs1 == Shrink(bs, t, realSize)
      ensures bs1[t] in Live(bs1) - {bs1[t + 1]}
      ensures Live(bs) - {bs[t]} <= Live(bs1) - {bs1[t + 1]}
    {
      ShrinkKeeps(Ar(), bs, end, t, realSize);
      TailNotLive(bs, t, bs1[t + 1], start, end, w);
    }

    /** The body of realloc for a live block, from the real size on. */
    method ReallocReal(p: nat, sz: nat, realSize: nat) returns (r: nat)
      requires Valid() && p >= w && IsLive(blocks, p - w) && sz + w <= realSize
      requires Aligned(realSize, w) && 2 * w <= realSize && (realSize < sz + 2 * w || realSize == 2 * w)
      modifies this`end, this`freelist, this`blocks, mem
      ensures Valid()
      ensures var o := HeapSpec.Realloc(Ar(), old(blocks), old(end), p - w, realSize);
              blocks == o.blocks && end == o.end && r == (if o.header == 0 then 0 else o.header + w)
      ensures r == 0 ==> mem[..] == old(mem[..])
      ensures var was := old(blocks)[IndexOf(old(blocks), p - w)];
              && KeepsLive(old(mem[..]), mem[..], Live(old(blocks)) - {was})
              && (r != 0 ==> forall k :: 0 <= k < was.size - w && k < sz && Aligned(k, w) ==>
                    r + k < mem.Length && p + k < mem.Length && mem[r + k] == old(mem[p + k]))
    {
      hide Linked, Tiles, Coalesced, FirstFree, LastFree, FreeAt, Aligned, HeapSpec.Malloc, KeepsLive, Live, IndexOf,
           WellFormed, HeapSpec.Realloc;
      ghost var was := blocks[IndexOf(blocks, p - w)];
      assert was in blocks;
      LiveHeader(was);
      if mem[p - w] < realSize {
        r := ReallocGrow(p, sz, realSize);
      } else {
        ReallocShrink(p, realSize);
        r := p;
      }
    }

    lemma LiveHeader(b: Block)
      requires Valid() && b in blocks
      ensures 0 < b.addr < mem.Length && mem[b.addr] == b.size && b.addr + b.size <= mem.Length
    {
      hide Linked, Tiles, Coalesced, Aligned;
      HeaderInside(blocks, b, start, end, w);
    }

    /** realloc: in place when the block is large enough, giving the tail back; else allocate, copy and free. */
    method Realloc(p: nat, sz: nat) returns (r: nat)
      requires Valid() && (p == 0 || (p >= w && IsLive(blocks, p - w)))
      modifies this`end, this`freelist, this`blocks, mem
      ensures Valid()
      ensures var o := if p == 0 then HeapSpec.Malloc(Ar(), old(blocks), old(end), RealSize(sz, w))
                       else HeapSpec.Realloc(Ar(), old(blocks), old(end), p - w, RealSize(sz, w));
              blocks == o.blocks && end == o.end && r == (if o.header == 0 then 0 else o.header + w)
      ensures r == 0 ==> mem[..] == old(mem[..])
      ensures p == 0 ==> KeepsLive(old(mem[..]), mem[..], Live(old(blocks)))
      ensures p != 0 ==>
                var was := old(blocks)[IndexOf(old(blocks), p - w)];
                && KeepsLive(old(mem[..]), mem[..], Live(old(blocks)) - {was})
                && (r != 0 ==> forall k :: 0 <= k < was.size - w && k < sz && Aligned(k, w) ==>
                      r + k < mem.Length && p + k < mem.Length && mem[r + k] == old(mem[p + k]))
    {
      hide Valid, RealSize, KeepsLive, Live, HeapSpec.Malloc, HeapSpec.Realloc, IsLive, Aligned;
      if p == 0 {
        r := Malloc(sz);
      } else {
        RealSizeIsBlock(sz, w);
        r := ReallocReal(p, sz, RealSize(sz, w));
      }
    }
  
    // -------------------------------------------------------------------
    // memalign
    // -------------------------------------------------------------------

    /** The walk of memalign: stops at the first block that fits with its hole, or at a last block that ends the arena.
        */
    method FindAligned(align: nat, realSize: nat) returns (prev: nat, block: nat, ghost j: nat)
      requires Valid() && align > 0
      ensures block == 0 ==>
                && FirstAlignedFit(blocks, align, realSize, w) == |blocks|
                && !EndsFree(blocks) && prev == LastFree(blocks, 0)
      ensures block != 0 ==>
                && j < |blocks| && blocks[j].free && block == blocks[j].addr && prev == LastFree(blocks[..j], 0)
                && block + 2 * w <= block + blocks[j].size <= end && mem[block] == blocks[j].size
                && if blocks[j].size >= realSize + BeforeSize(block, align, w) then
                     FirstAlignedFit(blocks, align, realSize, w) == j
                   else FirstAlignedFit(blocks, align, realSize, w) == |blocks| && j == |blocks| - 1
    {
      hide Valid, FirstFree, LastFree, FirstAlignedFit, BeforeSize;
      prev, block, j := 0, freelist, 0;
      ghost var i := 0;
      Parts();
      LinkedStart(mem[..], blocks, freelist, 0, w);
      while block != 0
        invariant i <= |blocks| && i <= FirstAlignedFit(blocks, align, realSize, w)
        invariant block == FirstFree(blocks[i..], 0) && prev == LastFree(blocks[..i], 0)
        invariant EndsFree(blocks) ==> i < |blocks|
        decreases |blocks| - i
      {
        j := Visit(i);
        LastVisited(j);
        var fits := mem[block] >= realSize + BeforeSize(block, align, w);
        assert if fits then FirstAlignedFit(blocks, align, realSize, w) == j
               else FirstAlignedFit(blocks, align, realSize, w) > j;
        if fits || (mem[block + w] == 0 && end == block + mem[block]) {
          return;
        }
        prev, block, i := block, mem[block + w], j + 1;
      }
      NothingLeft(i);
      LastFreeSkips(blocks, i, |blocks|);
      assert blocks[..|blocks|] == blocks;
    }

    /** New space at the end becomes the last free block. */
    method AppendFree(size: nat, prev: nat)
      requires Valid() && !EndsFree(blocks) && size >= 2 * w && Aligned(size, w)
      requires prev == LastFree(blocks, 0) && end + size + MALLOC_MINIMUM_GAP <= limit
      modifies this`end, this`freelist, this`blocks, mem
      ensures Valid() && end == old(end) + size
      ensures blocks == old(blocks) + [Block(old(end), size, true)]
      ensures KeepsLive(old(mem[..]), mem[..], Live(old(blocks)))
      ensures old(end) + w < mem.Length && mem[old(end)] == size
    {
      hide Valid, WellFormed, Headers, Linked, Tiles, Coalesced, FirstFree, LastFree, Aligned, Live;
      ghost var m0, bs, p0, hi, mid := mem[..], blocks, freelist, end, [Block(end, size, true)];
      Parts();
      TopPlace();
      assert bs[..|bs|] == bs && !EndsFree(bs) && TopFree(bs) == 0;
      assert WellFormed(Ar(), bs + mid, end + size) by {
        OneTile(mid[0], w);
        ReplaceTop(Ar(), bs, end, mid, end + size);
      }
      SetNext(prev, end);
      mem[end] := size;
      mem[end + w] := 0;
      end := end + size;
      blocks := bs + mid;
      assert ChangedOnly(m0, mem[..], bs, hi, end, w);
      assert Headers(mem[..], mid) && Linked(mem[..], mid, hi, 0, w) by {
        OneFree(mem[..], mid, 0, w);
      }
      RewiredTop(m0, bs, p0, hi, mid, hi);
    }

    /** The last free block grows to size and stays on the list. */
    method GrowFree(size: nat, block: nat)
      requires Valid() && EndsFree(blocks) && block == blocks[|blocks| - 1].addr
      requires size >= 2 * w && Aligned(size, w) && block + size + MALLOC_MINIMUM_GAP <= limit
      modifies this`end, this`blocks, mem
      ensures Valid() && end == block + size
      ensures blocks == old(blocks)[..|old(blocks)| - 1] + [Block(block, size, true)]
      ensures KeepsLive(old(mem[..]), mem[..], Live(old(blocks)))
    {
      hide Valid, WellFormed, Headers, Linked, Tiles, Coalesced, FirstFree, LastFree, Aligned, Live;
      ghost var m0, bs, hi, mid := mem[..], blocks, end, [Block(block, size, true)];
      Parts();
      TopPlace();
      assert WellFormed(Ar(), bs[..|bs| - 1] + mid, block + size) by {
        OneTile(mid[0], w);
        ReplaceTop(Ar(), bs, end, mid, block + size);
      }
      end := block + size;
      mem[block] := size;
      blocks := bs[..|bs| - 1] + mid;
      assert ChangedOnly(m0, mem[..], bs[..|bs| - 1], block, end, w);
      assert Headers(mem[..], mid) && Linked(mem[..], mid, block, 0, w) by {
        OneFree(mem[..], mid, 0, w);
      }
      RewiredTop(m0, bs, freelist, hi, mid, block);
    }

    /** The stores that carve a hole of before bytes, an allocated block, and perhaps a free rest. */
    method WriteHole(before: nat, realSize: nat, block: nat)
      requires 2 * w <= before && 2 * w <= realSize && block + w < mem.Length
      requires before + realSize <= mem[block] && block + mem[block] <= mem.Length
      modifies mem
      ensures var room := old(mem[block]) - before;
              && mem[block] == before
              && if room <= realSize + 2 * w then
                   mem[block + w] == old(mem[block + w]) && mem[block + before] == room
                 else
                   && mem[block + w] == block + before + realSize && mem[block + before] == realSize
                   && mem[block + before + realSize] == room - realSize
                   && mem[block + before + realSize + w] == old(mem[block + w])
      ensures forall x :: 0 <= x < mem.Length && !(block <= x < block + old(mem[block])) ==> mem[x] == old(mem[x])
    {
      var oldSize := mem[block];
      mem[block] := before;
      if oldSize - before <= realSize + 2 * w {
        mem[block + before] := oldSize - before;
      } else {
        var newBlock := block + before + realSize;
        mem[newBlock] := oldSize - before - realSize;
        mem[newBlock + w] := mem[block + w];
        mem[block + w] := newBlock;
        mem[block + before] := realSize;
      }
    }

    /** After WriteHole on a valid heap m0, bs the heap is valid with block j carved. */
    lemma HoleDone(m0: seq<nat>, bs: seq<Block>, j: nat, before: nat, realSize: nat)
      requires WellFormed(Ar(), bs, end) && Headers(m0, bs) && Linked(m0, bs, freelist, 0, w)
      requires |m0| == limit == mem.Length
      requires 2 * w <= before && 2 * w <= realSize && j < |bs| && bs[j].free && bs[j].size >= realSize + before
      requires blocks == bs[..j] + Carve(bs[j], before, realSize, w) + bs[j + 1..] && WellFormed(Ar(), blocks, end)
      requires ChangedOnly(m0, mem[..], bs[..j], bs[j].addr, bs[j].addr + bs[j].size, w)
      requires LastFree(bs[..j], 0) == 0 ==> freelist == bs[j].addr
      requires LastFree(bs[..j], 0) != 0 ==>
                 LastFree(bs[..j], 0) + w < limit && mem[LastFree(bs[..j], 0) + w] == bs[j].addr
      requires bs[j].addr + bs[j].size <= end
      requires var block, room := bs[j].addr, bs[j].size - before;
               && mem[block] == before
               && if room <= realSize + 2 * w then
                    mem[block + w] == FirstFree(bs[j + 1..], 0) && mem[block + before] == room
                  else
                    && mem[block + w] == block + before + realSize && mem[block + before] == realSize
                    && mem[block + before + realSize] == room - realSize
                    && mem[block + before + realSize + w] == FirstFree(bs[j + 1..], 0)
      ensures Valid() && KeepsLive(m0, mem[..], Live(bs))
    {
      hide Linked, Tiles, Coalesced, FirstFree, LastFree, Aligned, Carve, Headers, ChangedOnly, KeepsLive, Live;
      var b := bs[j];
      HoleWords(mem[..], b, before, realSize, FirstFree(bs[j + 1..], 0), w);
      RewiredFree(m0, bs, freelist, j, Carve(b, before, realSize, w), b.addr);
    }

    /** Block j is carved, leaving a hole of before bytes on the list. */
    method CarveHole(before: nat, realSize: nat, block: nat, ghost j: nat)
      requires Valid() && realSize >= 2 * w && Aligned(realSize, w) && before >= 2 * w && Aligned(before, w)
      requires j < |blocks| && blocks[j].free && block == blocks[j].addr && blocks[j].size >= realSize + before
      modifies this`blocks, mem
      ensures Valid()
      ensures blocks == old(blocks)[..j] + Carve(old(blocks)[j], before, realSize, w) + old(blocks)[j + 1..]
      ensures KeepsLive(old(mem[..]), mem[..], Live(old(blocks)))
    {
      hide Linked, Tiles, Coalesced, FirstFree, LastFree, Aligned, Carve;
      ghost var m0, bs, b := mem[..], blocks, blocks[j];
      assert b in bs;
      HeaderInside(bs, b, start, end, w);
      ChainAt(m0, bs, freelist, j, w);
      PrevField(j);
      PrevFits(j);
      CarveKeeps(Ar(), bs, end, j, before, realSize);
      WriteHole(before, realSize, block);
      blocks := bs[..j] + Carve(b, before, realSize, w) + bs[j + 1..];
      HoleDone(m0, bs, j, before, realSize);
    }

    /** The block j, large enough, is taken as memalign takes it: whole, split, or carved after a hole. */
    method TakeAligned(before: nat, realSize: nat, prev: nat, block: nat, ghost j: nat) returns (p: nat)
      requires Valid() && realSize >= 2 * w && Aligned(realSize, w) && (before == 0 || before >= 2 * w)
      requires Aligned(before, w)
      requires j < |blocks| && blocks[j].free && block == blocks[j].addr && prev == LastFree(blocks[..j], 0)
      requires blocks[j].size >= realSize + before
      modifies this`freelist, this`blocks, mem
      ensures Valid() && p == block + before + w
      ensures blocks == old(blocks)[..j] + Carve(old(blocks)[j], before, realSize, w) + old(blocks)[j + 1..]
      ensures KeepsLive(old(mem[..]), mem[..], Live(old(blocks)))
    {
      hide Linked, Tiles, Coalesced, FirstFree, LastFree, Aligned;
      ghost var b := blocks[j];
      assert b in blocks;
      HeaderInside(blocks, b, start, end, w);
      p := block + before + w;
      if before != 0 {
        CarveHole(before, realSize, block, j);
      } else if mem[block] <= realSize + 2 * w {
        assert Carve(b, before, realSize, w) == [Block(block, b.size, false)];
        Unlink(prev, block, j);
      } else {
        assert Carve(b, before, realSize, w)
            == [Block(block, realSize, false), Block(block + realSize, b.size - realSize, true)];
        SplitFront(realSize, prev, block, j);
      }
    }
  
    /** What memalign does with the last block, free: carve it if it fits, else grow it first or give up. */
    lemma TakenCases(align: nat, realSize: nat)
      requires align > 0 && EndsFree(blocks)
      ensures var n := |blocks| - 1;
              var addr, size, before := blocks[n].addr, blocks[n].size, BeforeSize(blocks[n].addr, align, w);
              TakenTop(Ar(), blocks, end, align, realSize) ==
              if size >= realSize + before then
                Outcome(blocks[..n] + Carve(blocks[n], before, realSize, w) + [], end, addr + before)
              else if !CanAlloc(Ar(), end, before + realSize - size) then Outcome(blocks, end, 0)
              else Outcome(blocks[..n] + Carve(Block(addr, before + realSize, true), before, realSize, w) + [],
                           addr + before + realSize, addr + before)
    {
      hide BeforeSize, Carve;
    }

    /** memalign for a block already on the list as the last one: grown first if it is too small. */
    method TakeLastAligned(align: nat, realSize: nat, prev: nat, block: nat) returns (p: nat)
      requires Valid() && align > 0 && IsPowerOfTwo(align) && realSize >= 2 * w && Aligned(realSize, w)
      requires EndsFree(blocks)
      requires block == blocks[|blocks| - 1].addr && prev == LastFree(blocks[..|blocks| - 1], 0)
      modifies this`end, this`freelist, this`blocks, mem
      ensures Valid()
      ensures var o := TakenTop(Ar(), old(blocks), old(end), align, realSize);
              blocks == o.blocks && end == o.end && p == (if o.header == 0 then 0 else o.header + w)
      ensures KeepsLive(old(mem[..]), mem[..], Live(old(blocks)))
    {
      hide Linked, Tiles, Coalesced, FirstFree, LastFree, Aligned, BeforeSize, Carve, TakenTop;
      ghost var bs, e, n := blocks, end, |blocks| - 1;
      TakenCases(align, realSize);
      LastBlockEnds(Ar(), bs, end);
      AddrsAligned(bs, n, start, end, w);
      BeforeSizeWholeWords(block, align, w);
      BeforeSizeAligns(block, align, w);
      assert bs[n] in bs;
      var before := BeforeSize(block, align, w);
      if mem[block] < realSize + before {
        if !CanAlloc(Ar(), end, before + realSize - mem[block]) {
          return 0;
        }
        AlignedSum(before, realSize, w);
        GrowFree(before + realSize, block);
        assert blocks[..n] == bs[..n];
      }
      assert bs[n + 1..] == [] && blocks[n + 1..] == [];
      p := TakeAligned(before, realSize, prev, block, n);
    }

    /** memalign when no block will do: new space of size bytes at the end, with room for alignment. */
    method TakeNewAligned(align: nat, realSize: nat, size: nat, prev: nat) returns (p: nat)
      requires Valid() && align > 0 && IsPowerOfTwo(align) && realSize >= 2 * w && Aligned(realSize, w)
      requires !EndsFree(blocks)
      requires prev == LastFree(blocks, 0) && size >= realSize && Aligned(size, w)
      modifies this`end, this`freelist, this`blocks, mem
      ensures Valid()
      ensures var o := if !CanAlloc(Ar(), old(end), size) then Outcome(old(blocks), old(end), 0)
                       else TakenTop(Ar(), old(blocks) + [Block(old(end), size, true)], old(end) + size, align,
                                     realSize);
              blocks == o.blocks && end == o.end && p == (if o.header == 0 then 0 else o.header + w)
      ensures KeepsLive(old(mem[..]), mem[..], Live(old(blocks)))
    {
      hide Linked, Tiles, Coalesced, FirstFree, LastFree, Aligned, TakenTop, IsPowerOfTwo, MAlign;
      ghost var bs := blocks;
      if !CanAlloc(Ar(), end, size) {
        return 0;
      }
      var block := end;
      AppendFree(size, prev);
      assert blocks[..|bs|] == bs;
      p := TakeLastAligned(align, realSize, prev, block);
    }

    /** memalign: the first block that fits once a hole makes it aligned, else the last block grown, else new space. */
    method MemalignReal(align: nat, realSize: nat) returns (p: nat)
      requires Valid() && realSize >= 2 * w && Aligned(realSize, w) && align > 0 && IsPowerOfTwo(align)
      modifies this`end, this`freelist, this`blocks, mem
      ensures Valid()
      ensures var o := HeapSpec.Memalign(Ar(), old(blocks), old(end), align, realSize);
              blocks == o.blocks && end == o.end && p == (if o.header == 0 then 0 else o.header + w)
      ensures KeepsLive(old(mem[..]), mem[..], Live(old(blocks)))
    {
      hide Linked, Tiles, Coalesced, FirstFree, LastFree, Aligned, BeforeSize, Carve, TakenTop, MAlign, IsPowerOfTwo,
           HeapSpec.Memalign, FirstAlignedFit;
      var prev, block, j := FindAligned(align, realSize);
      if block == 0 {
        FreshSize(align, realSize);
        NewTaken(align, realSize);
        p := TakeNewAligned(align, realSize, realSize + MAlign(end + w, align), prev);
      } else if mem[block] < realSize + BeforeSize(block, align, w) {
        LastVisited(j);
        LastTaken(align, realSize, j);
        p := TakeLastAligned(align, realSize, prev, block);
      } else {
        AddrsAligned(blocks, j, start, end, w);
        BeforeSizeWholeWords(block, align, w);
        BeforeSizeAligns(block, align, w);
        FitCarved(align, realSize, j);
        p := TakeAligned(BeforeSize(block, align, w), realSize, prev, block, j);
      }
    }

    /** When only the last block is left and it is too small, memalign grows it. */
    lemma LastTaken(align: nat, realSize: nat, j: nat)
      requires IsPowerOfTwo(align) && j == |blocks| - 1 && blocks[j].free
      requires FirstAlignedFit(blocks, align, realSize, w) == |blocks|
      ensures HeapSpec.Memalign(Ar(), blocks, end, align, realSize) == TakenTop(Ar(), blocks, end, align, realSize)
    {
    }

    /** A block that fits is carved. */
    lemma FitCarved(align: nat, realSize: nat, j: nat)
      requires IsPowerOfTwo(align) && FirstAlignedFit(blocks, align, realSize, w) == j < |blocks|
      ensures var before := BeforeSize(blocks[j].addr, align, w);
              && blocks[j].size >= realSize + before
              && HeapSpec.Memalign(Ar(), blocks, end, align, realSize) ==
                 Outcome(blocks[..j] + Carve(blocks[j], before, realSize, w) + blocks[j + 1..], end,
                         blocks[j].addr + before)
    {
      hide BeforeSize, Carve, IsPowerOfTwo;
    }

    /** With no block that fits or could grow, new space is taken. */
    lemma NewTaken(align: nat, realSize: nat)
      requires IsPowerOfTwo(align) && FirstAlignedFit(blocks, align, realSize, w) == |blocks| && !EndsFree(blocks)
      ensures var size := realSize + MAlign(end + w, align);
              HeapSpec.Memalign(Ar(), blocks, end, align, realSize) ==
              if !CanAlloc(Ar(), end, size) then Outcome(blocks, end, 0)
              else TakenTop(Ar(), blocks + [Block(end, size, true)], end + size, align, realSize)
    {
      hide TakenTop, MAlign, IsPowerOfTwo, FirstAlignedFit;
    }

    lemma FreshSize(align: nat, realSize: nat)
      requires Valid() && align > 0 && IsPowerOfTwo(align) && Aligned(realSize, w)
      ensures Aligned(realSize + MAlign(end + w, align), w)
    {
      hide MAlign, IsPowerOfTwo, Aligned;
      EndAligned(blocks, start, end, w);
      AddWords(end, w);
      MAlignWholeWords(end + w, align, w);
      AlignedSum(realSize, MAlign(end + w, align), w);
    }

    lemma BadAlignment(align: int)
      requires align <= 0 || And(align, align - 1) != 0
      ensures !IsPowerOfTwo(align)
    {
      if align > 0 {
        GuardIff(align);
      }
    }

    /** memalign: NULL at once unless the alignment is a power of two. */
    method Memalign(align: int, sz: nat) returns (p: nat)
      requires Valid()
      modifies this`end, this`freelist, this`blocks, mem
      ensures Valid()
      ensures var o := HeapSpec.Memalign(Ar(), old(blocks), old(end), align, RealSize(sz, w));
              blocks == o.blocks && end == o.end && p == (if o.header == 0 then 0 else o.header + w)
      ensures KeepsLive(old(mem[..]), mem[..], Live(old(blocks)))
    {
      hide RealSize;
      if align <= 0 || And(align, align - 1) != 0 {
        BadAlignment(align);
        return 0;
      }
      GuardIff(align);
      RealSizeIsBlock(sz, w);
      p := MemalignReal(align, RealSize(sz, w));
    }

    /** mallinfo: the arena, the free and used bytes and the free blocks, and the free bytes at the very end,
        all read off the free list. */
    method Mallinfo() returns (arena: nat, fordblks: nat, uordblks: nat, ordblks: nat, keepcost: nat)
      requires Valid()
      ensures arena == end - start && fordblks == FreeBytes(blocks) && uordblks == LiveBytes(blocks)
      ensures ordblks == FreeCount(blocks) && keepcost == TopFree(blocks)
    {
      hide Valid, FirstFree, LastFree, TopFree, Counted;
      Parts();
      arena, fordblks, ordblks, keepcost := end - start, 0, 0, 0;
      var here := freelist;
      ghost var i := 0;
      CountedNone();
      while here != 0
        invariant i <= |blocks| && here == FirstFree(blocks[i..], 0)
        invariant Counted(i, fordblks, ordblks)
        invariant keepcost == if i == |blocks| then TopFree(blocks) else 0
        decreases |blocks| - i
      {
        ghost var j := Visit(i);
        LastVisited(j);
        CountedTo(i, j, fordblks, ordblks);
        fordblks := fordblks + mem[here];
        ordblks := ordblks + 1;
        if mem[here + w] == 0 && here + mem[here] == end {
          keepcost := mem[here];
        }
        here, i := mem[here + w], j + 1;
      }
      CountedAll(i, fordblks, ordblks);
      uordblks := arena - fordblks;
    }

    /** bytes and count are the free totals of the blocks before index i. */
    ghost predicate Counted(i: nat, bytes: nat, count: nat)
      reads this
    {
      i <= |blocks| && bytes == FreeBytes(blocks[..i]) && count == FreeCount(blocks[..i])
    }

    lemma CountedNone()
      ensures Counted(0, 0, 0) && (|blocks| == 0 ==> TopFree(blocks) == 0)
    {
    }

    lemma CountedAll(i: nat, bytes: nat, count: nat)
      requires Valid() && Counted(i, bytes, count) && FirstFree(blocks[i..], 0) == 0
      ensures bytes == FreeBytes(blocks) && count == FreeCount(blocks) && bytes + LiveBytes(blocks) == end - start
      ensures i < |blocks| ==> TopFree(blocks) == 0
    {
      NothingLeft(i);
      CountedLive(i, |blocks|);
      assert blocks[..|blocks|] == blocks;
      BytesConserved(blocks, start, end, w);
    }

    /** Live blocks add nothing to the free totals. */
    lemma CountedLive(i: nat, j: nat)
      requires i <= j <= |blocks| && forall k :: i <= k < j ==> !blocks[k].free
      ensures FreeBytes(blocks[..j]) == FreeBytes(blocks[..i]) && FreeCount(blocks[..j]) == FreeCount(blocks[..i])
      decreases j - i
    {
      if i < j {
        CountedLive(i, j - 1);
        FreeSnoc(blocks, j - 1);
      }
    }

    /** The free totals up to and including the next free block. */
    lemma CountedTo(i: nat, j: nat, bytes: nat, count: nat)
      requires i <= j < |blocks| && blocks[j].free && forall k :: i <= k < j ==> !blocks[k].free
      requires Counted(i, bytes, count)
      ensures Counted(j + 1, bytes + blocks[j].size, count + 1)
      ensures j + 1 == |blocks| ==> TopFree(blocks) == blocks[j].size
    {
      CountedLive(i, j);
      FreeSnoc(blocks, j);
    }
  }
}
