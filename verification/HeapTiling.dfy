// The heap of tiny-malloc.c seen as the list of blocks that tile it, and the
// algebra of that view: concatenation, address order, and the singly linked
// free list that the headers in memory spell out.

module HeapTiling {
  import opened DivMod

  /** sizeof(size_t): four bytes on RV32, eight on RV64. */
  type WordSize = w: nat | w == 4 || w == 8 witness 8

  /** A block: its header address, the size in its header, and whether it is on the free list. */
  datatype Block = Block(addr: nat, size: nat, free: bool)

  /** A multiple of the word size, spelled out per width. */
  predicate Aligned(x: int, w: WordSize) {
    if w == 4 then x % 4 == 0 else x % 8 == 0
  }

  lemma AlignedSum(x: int, y: int, w: WordSize)
    requires Aligned(x, w) && Aligned(y, w)
    ensures Aligned(x + y, w) && Aligned(x - y, w)
  {
    if w == 4 {
      MultipleSum(x, y, 4);
    } else {
      MultipleSum(x, y, 8);
    }
  }

  /** Whole words plus one to three words are whole words. */
  lemma AddWords(x: nat, w: WordSize)
    requires Aligned(x, w)
    ensures Aligned(x + w, w) && Aligned(x + 2 * w, w) && Aligned(2 * w + x, w) && Aligned(x + 3 * w, w)
  {
    hide Aligned;
    assert Aligned(w, w) by {
      WordAligned(w);
    }
    AlignedSum(x, w, w);
    AlignedSum(x + w, w, w);
    AlignedSum(x + 2 * w, w, w);
  }

  /** Between one word boundary and the next there is no other. */
  lemma NextBoundary(x: int, y: int, w: WordSize)
    requires Aligned(x, w) && Aligned(y, w) && x <= y < x + w
    ensures y == x
  {
    AlignedSum(y, x, w);
    assert Aligned(y - x, w);
  }

  lemma WordAligned(w: WordSize)
    ensures Aligned(w, w)
  {
    if w == 4 {
      assert Aligned(4, 4);
    } else {
      assert Aligned(8, 8);
    }
  }

  /** The blocks bs follow each other from lo to hi without gap or overlap. */
  predicate Tiles(bs: seq<Block>, lo: nat, hi: nat, w: WordSize) {
    if bs == [] then lo == hi else
      && bs[0].addr == lo
      && bs[0].size >= 2 * w
      && Aligned(bs[0].size, w)
      && Tiles(bs[1..], lo + bs[0].size, hi, w)
  }

  /** No two neighbouring blocks are both free. */
  predicate Coalesced(bs: seq<Block>) {
    forall i :: 0 <= i < |bs| - 1 ==> !(bs[i].free && bs[i + 1].free)
  }

  /** Bytes covered by the blocks. */
  function Total(bs: seq<Block>): nat {
    if bs == [] then 0 else bs[0].size + Total(bs[1..])
  }

  /** Bytes on the free list. */
  function FreeBytes(bs: seq<Block>): nat {
    if bs == [] then 0 else (if bs[0].free then bs[0].size else 0) + FreeBytes(bs[1..])
  }

  /** Blocks on the free list. */
  function FreeCount(bs: seq<Block>): nat {
    if bs == [] then 0 else (if bs[0].free then 1 else 0) + FreeCount(bs[1..])
  }

  /** The allocated blocks. */
  ghost function Live(bs: seq<Block>): set<Block> {
    set b | b in bs && !b.free
  }

  /** Bytes in allocated blocks. */
  function LiveBytes(bs: seq<Block>): nat {
    if bs == [] then 0 else (if bs[0].free then 0 else bs[0].size) + LiveBytes(bs[1..])
  }

  /** A single legal block tiles its own bytes. */
  lemma OneTile(b: Block, w: WordSize)
    requires b.size >= 2 * w && Aligned(b.size, w)
    ensures Tiles([b], b.addr, b.addr + b.size, w) && Coalesced([b])
  {
    assert [b][1..] == [];
  }

  lemma {:induction false} TilesConcat(a: seq<Block>, b: seq<Block>, lo: nat, hi: nat, w: WordSize)
    ensures Tiles(a + b, lo, hi, w) <==> Tiles(a, lo, lo + Total(a), w) && Tiles(b, lo + Total(a), hi, w)
  {
    if a == [] {
      assert a + b == b;
    } else {
      assert (a + b)[1..] == a[1..] + b;
      TilesConcat(a[1..], b, lo + a[0].size, hi, w);
    }
  }

  lemma {:induction false} TotalConcat(a: seq<Block>, b: seq<Block>)
    ensures Total(a + b) == Total(a) + Total(b)
  {
    if a == [] {
      assert a + b == b;
    } else {
      assert (a + b)[1..] == a[1..] + b;
      TotalConcat(a[1..], b);
    }
  }

  lemma {:induction false} TotalIsSpan(bs: seq<Block>, lo: nat, hi: nat, w: WordSize)
    requires Tiles(bs, lo, hi, w)
    ensures hi == lo + Total(bs)
  {
    if bs != [] {
      TotalIsSpan(bs[1..], lo + bs[0].size, hi, w);
    }
  }

  /** Splitting a tiling at block k: everything before ends where block k begins. */
  lemma TilesSplit(bs: seq<Block>, k: nat, lo: nat, hi: nat, w: WordSize)
    requires Tiles(bs, lo, hi, w) && k < |bs|
    ensures Tiles(bs[..k], lo, bs[k].addr, w)
    ensures bs[k].size >= 2 * w && Aligned(bs[k].size, w)
    ensures Tiles(bs[k + 1..], bs[k].addr + bs[k].size, hi, w)
    ensures lo <= bs[k].addr && bs[k].addr + bs[k].size <= hi
  {
    assert bs == bs[..k] + bs[k..];
    TilesConcat(bs[..k], bs[k..], lo, hi, w);
    assert bs[k..][1..] == bs[k + 1..];
    TotalIsSpan(bs[k + 1..], bs[k].addr + bs[k].size, hi, w);
  }

  /** Two adjacent tilings make one. */
  lemma TilesJoin(a: seq<Block>, b: seq<Block>, lo: nat, mid: nat, hi: nat, w: WordSize)
    requires Tiles(a, lo, mid, w) && Tiles(b, mid, hi, w)
    ensures Tiles(a + b, lo, hi, w)
  {
    TotalIsSpan(a, lo, mid, w);
    TilesConcat(a, b, lo, hi, w);
  }

  /** Address order: an earlier block ends no later than a later one starts, exactly there iff they are neighbours. */
  lemma {:induction false} AddressOrder(bs: seq<Block>, i: nat, j: nat, lo: nat, hi: nat, w: WordSize)
    requires Tiles(bs, lo, hi, w) && i < j < |bs|
    ensures bs[i].addr + bs[i].size <= bs[j].addr
    ensures bs[i].addr + bs[i].size == bs[j].addr <==> j == i + 1
    ensures bs[i].size >= 2 * w
  {
    TilesSplit(bs, i, lo, hi, w);
    var rest := bs[i + 1..];
    assert rest[j - i - 1] == bs[j];
    TilesSplit(rest, j - i - 1, bs[i].addr + bs[i].size, hi, w);
    if j > i + 1 {
      TilesSplit(rest, 0, bs[i].addr + bs[i].size, hi, w);
      var later := rest[1..];
      assert later[j - i - 2] == bs[j];
      TilesSplit(later, j - i - 2, rest[0].addr + rest[0].size, hi, w);
    }
  }

  lemma {:induction false} BytesConcat(a: seq<Block>, b: seq<Block>)
    ensures FreeBytes(a + b) == FreeBytes(a) + FreeBytes(b)
    ensures LiveBytes(a + b) == LiveBytes(a) + LiveBytes(b)
    ensures FreeCount(a + b) == FreeCount(a) + FreeCount(b)
  {
    if a == [] {
      assert a + b == b;
    } else {
      assert (a + b)[1..] == a[1..] + b;
      BytesConcat(a[1..], b);
    }
  }

  /** The free totals with block j added at the end. */
  lemma FreeSnoc(bs: seq<Block>, j: nat)
    requires j < |bs|
    ensures FreeBytes(bs[..j + 1]) == FreeBytes(bs[..j]) + (if bs[j].free then bs[j].size else 0)
    ensures FreeCount(bs[..j + 1]) == FreeCount(bs[..j]) + (if bs[j].free then 1 else 0)
  {
    assert bs[..j + 1] == bs[..j] + [bs[j]] && [bs[j]][1..] == [];
    BytesConcat(bs[..j], [bs[j]]);
  }

  /** Conservation: free bytes and live bytes make up the whole arena. */
  lemma {:induction false} BytesConserved(bs: seq<Block>, lo: nat, hi: nat, w: WordSize)
    requires Tiles(bs, lo, hi, w)
    ensures FreeBytes(bs) + LiveBytes(bs) == hi - lo
  {
    if bs != [] {
      BytesConserved(bs[1..], lo + bs[0].size, hi, w);
    }
  }

  // ---------------------------------------------------------------------
  // The free list in memory
  // ---------------------------------------------------------------------

  /** Address of the first free block, or r when there is none. */
  function FirstFree(bs: seq<Block>, r: nat): nat {
    if bs == [] then r else if bs[0].free then bs[0].addr else FirstFree(bs[1..], r)
  }

  /** Address of the last free block, or r when there is none. */
  function LastFree(bs: seq<Block>, r: nat): nat {
    if bs == [] then r else if bs[|bs| - 1].free then bs[|bs| - 1].addr else LastFree(bs[..|bs| - 1], r)
  }

  /** From pointer p, the next fields in memory m visit exactly the free blocks of bs, in order, and end in r. */
  predicate Linked(m: seq<nat>, bs: seq<Block>, p: nat, r: nat, w: WordSize) {
    if bs == [] then p == r
    else if !bs[0].free then Linked(m, bs[1..], p, r, w)
    else p == bs[0].addr && p + w < |m| && Linked(m, bs[1..], m[p + w], r, w)
  }

  /** Every block's header holds its size. */
  predicate Headers(m: seq<nat>, bs: seq<Block>) {
    forall b :: b in bs ==> b.addr < |m| && m[b.addr] == b.size
  }

  lemma {:induction false} LinkedStart(m: seq<nat>, bs: seq<Block>, p: nat, r: nat, w: WordSize)
    requires Linked(m, bs, p, r, w)
    ensures p == FirstFree(bs, r)
  {
    if bs != [] && !bs[0].free {
      LinkedStart(m, bs[1..], p, r, w);
    }
  }

  lemma {:induction false} LinkedConcat(m: seq<nat>, a: seq<Block>, b: seq<Block>, p: nat, r: nat, w: WordSize)
    ensures Linked(m, a + b, p, r, w) <==> Linked(m, a, p, FirstFree(b, r), w) && Linked(m, b, FirstFree(b, r), r, w)
  {
    if a == [] {
      assert a + b == b;
      if Linked(m, b, p, r, w) {
        LinkedStart(m, b, p, r, w);
      }
    } else {
      assert (a + b)[1..] == a[1..] + b;
      LinkedConcat(m, a[1..], b, if a[0].free && p + w < |m| then m[p + w] else p, r, w);
    }
  }

  /** Memory that agrees on the next fields of the free blocks keeps the chain. */
  lemma {:induction false} LinkedFrame(m: seq<nat>, m': seq<nat>, bs: seq<Block>, p: nat, r: nat, w: WordSize)
    requires Linked(m, bs, p, r, w) && |m'| == |m|
    requires forall b :: b in bs && b.free && b.addr + w < |m| ==> m'[b.addr + w] == m[b.addr + w]
    ensures Linked(m', bs, p, r, w)
  {
    if bs != [] {
      assert bs[0] in bs;
      assert forall b :: b in bs[1..] ==> b in bs;
      LinkedFrame(m, m', bs[1..], if bs[0].free then m[p + w] else p, r, w);
    }
  }
}
