// What the allocator calls keep and grant, for every heap and every request.

module HeapLaws {
  import opened DivMod
  import opened HeapTiling
  import opened PowersOfTwo
  import opened HeapSpec

  // ---------------------------------------------------------------------
  // Rewriting a stretch of the heap
  // ---------------------------------------------------------------------

  lemma LiveConcat(a: seq<Block>, b: seq<Block>)
    ensures Live(a + b) == Live(a) + Live(b)
  {
  }

  lemma CoalescedConcat(a: seq<Block>, b: seq<Block>)
    requires Coalesced(a) && Coalesced(b)
    requires a != [] && b != [] ==> !(a[|a| - 1].free && b[0].free)
    ensures Coalesced(a + b)
  {
    var c := a + b;
    forall i | 0 <= i < |c| - 1
      ensures !(c[i].free && c[i + 1].free)
    {
      if i >= |a| {
        assert c[i] == b[i - |a|] && c[i + 1] == b[i - |a| + 1];
      }
    }
  }

  /** Headers are distinct, so a header finds its own block. */
  lemma IndexOfAddr(bs: seq<Block>, k: nat, lo: nat, hi: nat, w: WordSize)
    requires Tiles(bs, lo, hi, w) && k < |bs|
    ensures IndexOf(bs, bs[k].addr) == k
  {
    var i := IndexOf(bs, bs[k].addr);
    if i < k {
      AddressOrder(bs, i, k, lo, hi, w);
    }
  }

  /** A free block may be replaced by any coalesced tiling of its bytes: its neighbours are not free. */
  lemma ReplaceFree(ar: Arena, bs: seq<Block>, end: nat, i: nat, mid: seq<Block>)
    requires WellFormed(ar, bs, end) && i < |bs| && bs[i].free
    requires mid != [] && Coalesced(mid) && Tiles(mid, bs[i].addr, bs[i].addr + bs[i].size, ar.w)
    ensures WellFormed(ar, bs[..i] + mid + bs[i + 1..], end)
    ensures Live(bs[..i] + mid + bs[i + 1..]) == Live(bs) + Live(mid)
  {
    hide Tiles, Aligned;
    var pre, post := bs[..i], bs[i + 1..];
    TilesSplit(bs, i, ar.start, end, ar.w);
    TilesJoin(pre, mid, ar.start, bs[i].addr, bs[i].addr + bs[i].size, ar.w);
    TilesJoin(pre + mid, post, ar.start, bs[i].addr + bs[i].size, end, ar.w);
    assert post != [] ==> post[0] == bs[i + 1];
    CoalescedConcat(pre, mid);
    CoalescedConcat(pre + mid, post);
    assert bs == pre + [bs[i]] + post;
    LiveConcat(pre, mid);
    LiveConcat(pre + mid, post);
    LiveConcat(pre, [bs[i]]);
    LiveConcat(pre + [bs[i]], post);
  }

  /** The top of the heap, the last block if it is free and the space above it, may be tiled anew. */
  lemma ReplaceTop(ar: Arena, bs: seq<Block>, end: nat, mid: seq<Block>, end': nat)
    requires WellFormed(ar, bs, end) && mid != [] && Coalesced(mid)
    requires Tiles(mid, if EndsFree(bs) then bs[|bs| - 1].addr else end, end', ar.w)
    requires end' + MALLOC_MINIMUM_GAP <= ar.limit
    ensures var pre := if EndsFree(bs) then bs[..|bs| - 1] else bs;
            WellFormed(ar, pre + mid, end') && Live(pre + mid) == Live(bs) + Live(mid)
  {
    var n := |bs| - 1;
    var pre := if EndsFree(bs) then bs[..n] else bs;
    var top := if EndsFree(bs) then bs[n].addr else end;
    if EndsFree(bs) {
      TilesSplit(bs, n, ar.start, end, ar.w);
      assert bs == pre + [bs[n]];
      LiveConcat(pre, [bs[n]]);
    }
    TilesJoin(pre, mid, ar.start, top, end', ar.w);
    TotalIsSpan(pre, ar.start, top, ar.w);
    TotalIsSpan(mid, top, end', ar.w);
    CoalescedConcat(pre, mid);
    LiveConcat(pre, mid);
  }

  // ---------------------------------------------------------------------
  // What a call grants
  // ---------------------------------------------------------------------

  /** o differs from bs, end by one newly allocated block b, disjoint from every block that was live. */
  ghost predicate Grants(ar: Arena, bs: seq<Block>, o: Outcome, b: Block) {
    && WellFormed(ar, o.blocks, o.end)
    && b.addr == o.header && b.addr != 0 && b in o.blocks && !b.free
    && Live(o.blocks) == Live(bs) + {b}
    && forall c :: c in Live(bs) ==> c.addr + c.size <= b.addr || b.addr + b.size <= c.addr
  }

  /** A block that is new among the live blocks of a tiling overlaps none of the others. */
  lemma NewBlockDisjoint(bs: seq<Block>, b: Block, c: Block, lo: nat, hi: nat, w: WordSize)
    requires Tiles(bs, lo, hi, w) && b in bs && c in bs && b != c
    ensures c.addr + c.size <= b.addr || b.addr + b.size <= c.addr
  {
    var i :| 0 <= i < |bs| && bs[i] == b;
    var j :| 0 <= j < |bs| && bs[j] == c;
    if i < j {
      AddressOrder(bs, i, j, lo, hi, w);
    } else {
      AddressOrder(bs, j, i, lo, hi, w);
    }
  }

  lemma GrantsFromLive(ar: Arena, bs: seq<Block>, o: Outcome, b: Block)
    requires WellFormed(ar, o.blocks, o.end) && b in o.blocks && !b.free
    requires b.addr == o.header && Live(o.blocks) == Live(bs) + {b} && b !in Live(bs)
    ensures Grants(ar, bs, o, b)
  {
    var i :| 0 <= i < |o.blocks| && o.blocks[i] == b;
    TilesSplit(o.blocks, i, ar.start, o.end, ar.w);
    forall c | c in Live(bs)
      ensures c.addr + c.size <= b.addr || b.addr + b.size <= c.addr
    {
      assert c in Live(o.blocks);
      NewBlockDisjoint(o.blocks, b, c, ar.start, o.end, ar.w);
    }
  }

  /** MAlign reaches the next multiple, and no farther. */
  lemma MAlignMeets(x: int, align: int)
    requires align > 0
    ensures MAlign(x, align) < align && (x + MAlign(x, align)) % align == 0
  {
    var q, r := (-x) / align, (-x) % align;
    assert x + r == (-q) * align;
    DivModUnique(x + r, align, -q, 0);
  }

  /** A request's real size is a legal block size that holds a header and the payload. */
  lemma RealSizeIsBlock(sz: nat, w: WordSize)
    ensures RealSize(sz, w) >= 2 * w && Aligned(RealSize(sz, w), w)
    ensures sz + w <= RealSize(sz, w) && (if sz < w then RealSize(sz, w) == 2 * w else RealSize(sz, w) < sz + 2 * w)
  {
    hide MAlign;
    WordAligned(w);
    AlignedSum(w, w, w);
    MAlignMeets(sz, w);
    assert Aligned(sz + MAlign(sz, w), w);
    AlignedSum(sz + MAlign(sz, w), w, w);
  }

  /** No live block has the header of a free one. */
  lemma FreeHeaderNotLive(bs: seq<Block>, i: nat, b: Block, lo: nat, hi: nat, w: WordSize)
    requires Tiles(bs, lo, hi, w) && i < |bs| && bs[i].free && b.addr == bs[i].addr
    ensures b !in Live(bs)
  {
    if b in Live(bs) {
      var j :| 0 <= j < |bs| && bs[j] == b;
      IndexOfAddr(bs, i, lo, hi, w);
      IndexOfAddr(bs, j, lo, hi, w);
    }
  }

  /** No block has a header at or past the end. */
  lemma EndNotLive(bs: seq<Block>, b: Block, lo: nat, hi: nat, w: WordSize)
    requires Tiles(bs, lo, hi, w) && b.addr >= hi
    ensures b !in Live(bs)
  {
    if b in bs {
      var j :| 0 <= j < |bs| && bs[j] == b;
      TilesSplit(bs, j, lo, hi, w);
    }
  }

  // ---------------------------------------------------------------------
  // malloc
  // ---------------------------------------------------------------------

  lemma CutTiles(b: Block, rs: nat, w: WordSize)
    requires 2 * w <= rs <= b.size && Aligned(rs, w) && Aligned(b.size, w)
    ensures Tiles(Cut(b, rs, w), b.addr, b.addr + b.size, w) && Coalesced(Cut(b, rs, w))
  {
    hide Aligned;
    AlignedSum(b.size, rs, w);
    if b.size >= rs + 2 * w {
      OneTile(Block(b.addr + rs, b.size - rs, true), w);
      assert Cut(b, rs, w)[1..] == [Block(b.addr + rs, b.size - rs, true)];
    } else {
      OneTile(Cut(b, rs, w)[0], w);
    }
  }

  /** Free bytes at the very top of the arena. */
  function TopFree(bs: seq<Block>): nat {
    if EndsFree(bs) then bs[|bs| - 1].size else 0
  }

  /** No free block fits and the top cannot be grown to fit. */
  ghost predicate OutOfMemory(ar: Arena, bs: seq<Block>, end: nat, rs: nat) {
    && (forall c :: c in bs && c.free ==> c.size < rs)
    && end - TopFree(bs) + rs + MALLOC_MINIMUM_GAP > ar.limit
  }

  /** The first free block of at least rs bytes, in the order of addresses. */
  ghost predicate IsFirstFit(bs: seq<Block>, rs: nat, f: Block) {
    && f in bs && f.free && f.size >= rs
    && forall c :: c in bs && c.free && c.addr < f.addr ==> c.size < rs
  }

  /** Where malloc must find its block b, and how much it takes: the first free block that is large enough, whole if
      what is left could not hold a free-list entry; else the last block if it is free, grown, or new space. */
  ghost predicate FromRightPlace(ar: Arena, bs: seq<Block>, end: nat, rs: nat, newEnd: nat, b: Block) {
    if exists c :: c in bs && c.free && c.size >= rs then
      && newEnd == end
      && (exists f ::
            && IsFirstFit(bs, rs, f)
            && b.addr == f.addr && b.size == (if f.size < rs + 2 * ar.w then f.size else rs))
    else
      && b.addr == (if bs != [] && bs[|bs| - 1].free then bs[|bs| - 1].addr else end)
      && b.size == rs && newEnd == b.addr + rs
  }

  lemma FirstFitIsLowest(bs: seq<Block>, rs: nat, lo: nat, hi: nat, w: WordSize)
    requires Tiles(bs, lo, hi, w) && FirstFit(bs, rs) < |bs|
    ensures IsFirstFit(bs, rs, bs[FirstFit(bs, rs)])
  {
    hide FirstFit;
    var i := FirstFit(bs, rs);
    forall c | c in bs && c.free && c.addr < bs[i].addr
      ensures c.size < rs
    {
      var k :| 0 <= k < |bs| && bs[k] == c;
      if i < k {
        AddressOrder(bs, i, k, lo, hi, w);
        assert false;
      }
      assert k < i;
    }
  }

  /** A block found on the free list: it leaves the list, or gives up its tail. */
  lemma MallocFromList(ar: Arena, bs: seq<Block>, end: nat, rs: nat) returns (b: Block)
    requires WellFormed(ar, bs, end) && rs >= 2 * ar.w && Aligned(rs, ar.w)
    requires FirstFit(bs, rs) < |bs|
    ensures Grants(ar, bs, Malloc(ar, bs, end, rs), b) && rs <= b.size < rs + 2 * ar.w
    ensures b == Cut(bs[FirstFit(bs, rs)], rs, ar.w)[0] && Malloc(ar, bs, end, rs).end == end
  {
    var o, i := Malloc(ar, bs, end, rs), FirstFit(bs, rs);
    var cut := Cut(bs[i], rs, ar.w);
    b := cut[0];
    TilesSplit(bs, i, ar.start, end, ar.w);
    CutTiles(bs[i], rs, ar.w);
    ReplaceFree(ar, bs, end, i, cut);
    FreeHeaderNotLive(bs, i, b, ar.start, end, ar.w);
    assert Live(cut) == {b};
    assert o.blocks[i] == b;
    GrantsFromLive(ar, bs, o, b);
  }

  /** Space taken at the top: the last free block grown, or new space. */
  lemma MallocFromTop(ar: Arena, bs: seq<Block>, end: nat, rs: nat) returns (b: Block)
    requires WellFormed(ar, bs, end) && rs >= 2 * ar.w && Aligned(rs, ar.w)
    requires FirstFit(bs, rs) == |bs| && Malloc(ar, bs, end, rs).header != 0
    ensures Grants(ar, bs, Malloc(ar, bs, end, rs), b) && b.size == rs
    ensures b.addr == end - TopFree(bs) && Malloc(ar, bs, end, rs).end == b.addr + rs
  {
    LastBlockEnds(ar, bs, end);
    var o, n := Malloc(ar, bs, end, rs), |bs| - 1;
    b := Block(o.header, rs, false);
    if EndsFree(bs) {
      TilesSplit(bs, n, ar.start, end, ar.w);
      FreeHeaderNotLive(bs, n, b, ar.start, end, ar.w);
    } else {
      EndNotLive(bs, b, ar.start, end, ar.w);
    }
    assert [b][1..] == [] && Live([b]) == {b};
    ReplaceTop(ar, bs, end, [b], o.end);
    GrantsFromLive(ar, bs, o, b);
  }

  lemma FoundInPlace(ar: Arena, bs: seq<Block>, end: nat, rs: nat)
    requires WellFormed(ar, bs, end) && FirstFit(bs, rs) < |bs|
    ensures FromRightPlace(ar, bs, end, rs, end, Cut(bs[FirstFit(bs, rs)], rs, ar.w)[0])
  {
    hide FirstFit, Tiles, Coalesced;
    var f := bs[FirstFit(bs, rs)];
    FirstFitIsLowest(bs, rs, ar.start, end, ar.w);
    assert f in bs && f.free && f.size >= rs;
  }

  /** NULL exactly when the heap is out of memory, and then nothing changes; any other answer is a new block of
      at least rs bytes, wasting less than a free-list entry, from the first free block that is large enough, and from
      the top only if there is none. */
  lemma MallocGrants(ar: Arena, bs: seq<Block>, end: nat, rs: nat) returns (b: Block)
    requires WellFormed(ar, bs, end) && rs >= 2 * ar.w && Aligned(rs, ar.w)
    ensures var o := Malloc(ar, bs, end, rs);
            if OutOfMemory(ar, bs, end, rs) then o == Outcome(bs, end, 0)
            else
              && Grants(ar, bs, o, b) && rs <= b.size < rs + 2 * ar.w
              && FromRightPlace(ar, bs, end, rs, o.end, b)
  {
    hide FromRightPlace;
    b := Block(0, 0, false);
    LastBlockEnds(ar, bs, end);
    if FirstFit(bs, rs) < |bs| {
      assert bs[FirstFit(bs, rs)] in bs;
      b := MallocFromList(ar, bs, end, rs);
      FoundInPlace(ar, bs, end, rs);
    } else if !OutOfMemory(ar, bs, end, rs) {
      b := MallocFromTop(ar, bs, end, rs);
      NoneFound(ar, bs, end, rs, b);
    }
  }

  lemma NoneFound(ar: Arena, bs: seq<Block>, end: nat, rs: nat, b: Block)
    requires FirstFit(bs, rs) == |bs| && b.addr == end - TopFree(bs) && b.size == rs
    requires bs != [] ==> bs[|bs| - 1].addr + bs[|bs| - 1].size == end
    ensures FromRightPlace(ar, bs, end, rs, b.addr + rs, b)
  {
    hide FirstFit;
  }

  lemma LastBlockEnds(ar: Arena, bs: seq<Block>, end: nat)
    requires WellFormed(ar, bs, end)
    ensures bs != [] ==> ar.start <= bs[|bs| - 1].addr && bs[|bs| - 1].addr + bs[|bs| - 1].size == end
  {
    if bs != [] {
      var n := |bs| - 1;
      TilesSplit(bs, n, ar.start, end, ar.w);
      assert bs[n + 1..] == [];
    }
  }

  // ---------------------------------------------------------------------
  // free
  // ---------------------------------------------------------------------

  lemma TotalOfRun(bs: seq<Block>, i: nat, j: nat, lo: nat, hi: nat, w: WordSize)
    requires Tiles(bs, lo, hi, w) && i < j <= |bs|
    ensures Tiles(bs[..i], lo, bs[i].addr, w)
    ensures Tiles(bs[i..j], bs[i].addr, bs[i].addr + Total(bs[i..j]), w)
    ensures Tiles(bs[j..], bs[i].addr + Total(bs[i..j]), hi, w)
  {
    TilesSplit(bs, i, lo, hi, w);
    assert bs == bs[..i] + (bs[i..j] + bs[j..]);
    TilesConcat(bs[..i], bs[i..j] + bs[j..], lo, hi, w);
    TotalIsSpan(bs[..i], lo, bs[i].addr, w);
    TilesConcat(bs[i..j], bs[j..], bs[i].addr, hi, w);
  }

  /** A run of neighbouring blocks covers at least two words, and whole words. */
  lemma {:induction false} RunIsBlock(bs: seq<Block>, lo: nat, hi: nat, w: WordSize)
    requires Tiles(bs, lo, hi, w) && bs != []
    ensures Total(bs) >= 2 * w && Aligned(Total(bs), w)
  {
    hide Aligned;
    if |bs| > 1 {
      RunIsBlock(bs[1..], lo + bs[0].size, hi, w);
      AlignedSum(bs[0].size, Total(bs[1..]), w);
    }
  }

  lemma FreeTiles(ar: Arena, bs: seq<Block>, end: nat, t: nat)
    requires WellFormed(ar, bs, end) && t < |bs| && !bs[t].free
    ensures WellFormed(ar, FreeAt(bs, t), end)
  {
    var lo, hi := MergeLo(bs, t), MergeHi(bs, t);
    var merged := Block(bs[lo].addr, Total(bs[lo..hi]), true);
    var pre, post := bs[..lo], bs[hi..];
    TotalOfRun(bs, lo, hi, ar.start, end, ar.w);
    RunIsBlock(bs[lo..hi], merged.addr, merged.addr + merged.size, ar.w);
    assert [merged][1..] == [];
    TilesJoin(pre, [merged], ar.start, merged.addr, merged.addr + merged.size, ar.w);
    TilesJoin(pre + [merged], post, ar.start, merged.addr + merged.size, end, ar.w);
    assert lo > 0 ==> !bs[lo - 1].free;
    CoalescedConcat(pre, [merged]);
    CoalescedConcat(pre + [merged], post);
  }

  lemma FreeLive(bs: seq<Block>, t: nat, lo: nat, hi: nat, w: WordSize)
    requires Tiles(bs, lo, hi, w) && t < |bs| && !bs[t].free
    ensures Live(FreeAt(bs, t)) == Live(bs) - {bs[t]}
  {
    var i, j := MergeLo(bs, t), MergeHi(bs, t);
    var merged := [Block(bs[i].addr, Total(bs[i..j]), true)];
    assert FreeAt(bs, t) == bs[..i] + merged + bs[j..];
    LiveConcat(bs[..i], merged);
    LiveConcat(bs[..i] + merged, bs[j..]);
    forall b | b in Live(bs) && b != bs[t]
      ensures b in Live(bs[..i]) || b in Live(bs[j..])
    {
      var k :| 0 <= k < |bs| && bs[k] == b;
      assert k < i || k >= j;
      if k >= j {
        assert bs[j..][k - j] == b;
      }
    }
    forall k | 0 <= k < |bs| && k != t
      ensures bs[k] != bs[t]
    {
      IndexOfAddr(bs, k, lo, hi, w);
      IndexOfAddr(bs, t, lo, hi, w);
    }
  }

  /** Freeing block t leaves a well-formed heap that has lost exactly block t: its free neighbours merge with it. */
  lemma FreeReleases(ar: Arena, bs: seq<Block>, end: nat, t: nat)
    requires WellFormed(ar, bs, end) && t < |bs| && !bs[t].free
    ensures WellFormed(ar, FreeAt(bs, t), end)
    ensures Live(FreeAt(bs, t)) == Live(bs) - {bs[t]}
  {
    FreeTiles(ar, bs, end, t);
    FreeLive(bs, t, ar.start, end, ar.w);
  }

  // ---------------------------------------------------------------------
  // realloc
  // ---------------------------------------------------------------------

  /** Cutting an allocated block in two allocated blocks. */
  lemma ShrinkKeeps(ar: Arena, bs: seq<Block>, end: nat, t: nat, rs: nat)
    requires WellFormed(ar, bs, end) && t < |bs| && !bs[t].free
    requires 2 * ar.w <= rs && Aligned(rs, ar.w) && rs + 2 * ar.w <= bs[t].size
    ensures var s := Shrink(bs, t, rs);
            && WellFormed(ar, s, end) && !s[t].free && !s[t + 1].free
            && Live(s) == Live(bs) - {bs[t]} + {s[t], s[t + 1]}
  {
    hide Live, Aligned;
    var s := Shrink(bs, t, rs);
    var pre, mid, post := bs[..t], [s[t], s[t + 1]], bs[t + 1..];
    TilesSplit(bs, t, ar.start, end, ar.w);
    AlignedSum(bs[t].size, rs, ar.w);
    OneTile(s[t], ar.w);
    OneTile(s[t + 1], ar.w);
    hide Tiles;
    assert mid == [s[t]] + [s[t + 1]];
    TilesJoin([s[t]], [s[t + 1]], bs[t].addr, s[t + 1].addr, bs[t].addr + bs[t].size, ar.w);
    TilesJoin(pre, mid, ar.start, bs[t].addr, bs[t].addr + bs[t].size, ar.w);
    TilesJoin(pre + mid, post, ar.start, bs[t].addr + bs[t].size, end, ar.w);
    CoalescedConcat(pre, mid);
    CoalescedConcat(pre + mid, post);
    assert s == pre + mid + post;
    ShrinkLive(bs, t, rs, ar.start, end, ar.w);
  }

  lemma ShrinkLive(bs: seq<Block>, t: nat, rs: nat, lo: nat, hi: nat, w: WordSize)
    requires Tiles(bs, lo, hi, w) && t < |bs| && !bs[t].free && rs <= bs[t].size
    ensures var s := Shrink(bs, t, rs); Live(s) == Live(bs) - {bs[t]} + {s[t], s[t + 1]}
  {
    var s := Shrink(bs, t, rs);
    var pre, mid, post := bs[..t], [s[t], s[t + 1]], bs[t + 1..];
    LiveConcat(pre, mid);
    LiveConcat(pre + mid, post);
    LiveConcat(pre, [bs[t]]);
    LiveConcat(pre + [bs[t]], post);
    assert bs == pre + [bs[t]] + post;
    forall k | 0 <= k < |bs| && k != t
      ensures bs[k] != bs[t]
    {
      IndexOfAddr(bs, k, lo, hi, w);
      IndexOfAddr(bs, t, lo, hi, w);
    }
  }

  /** A block that is live stays findable under its header. */
  lemma LiveIsFound(bs: seq<Block>, b: Block, lo: nat, hi: nat, w: WordSize)
    requires Tiles(bs, lo, hi, w) && b in Live(bs)
    ensures IsLive(bs, b.addr) && bs[IndexOf(bs, b.addr)] == b
  {
    var k :| 0 <= k < |bs| && bs[k] == b;
    IndexOfAddr(bs, k, lo, hi, w);
  }

  /** was has been exchanged for the block b that the call returns. */
  ghost predicate Exchanges(ar: Arena, bs: seq<Block>, o: Outcome, was: Block, b: Block) {
    && WellFormed(ar, o.blocks, o.end)
    && b.addr == o.header && b.addr != 0
    && Live(o.blocks) == Live(bs) - {was} + {b}
  }

  lemma ReallocGrows(ar: Arena, bs: seq<Block>, end: nat, h: nat, rs: nat) returns (b: Block)
    requires WellFormed(ar, bs, end) && rs >= 2 * ar.w && Aligned(rs, ar.w) && IsLive(bs, h)
    requires bs[IndexOf(bs, h)].size < rs && !OutOfMemory(ar, bs, end, rs)
    ensures Grants(ar, bs, Malloc(ar, bs, end, rs), b) && b.addr != h
    ensures IsLive(Malloc(ar, bs, end, rs).blocks, h)
    ensures Exchanges(ar, bs, Realloc(ar, bs, end, h, rs), bs[IndexOf(bs, h)], b) && rs <= b.size < rs + 2 * ar.w
    ensures FromRightPlace(ar, bs, end, rs, Realloc(ar, bs, end, h, rs).end, b)
  {
    hide FromRightPlace, Realloc, Malloc, Tiles, Coalesced, OutOfMemory, Live, FreeAt;
    var was, m := bs[IndexOf(bs, h)], Malloc(ar, bs, end, rs);
    LiveInside(bs, h, ar.start, end, ar.w);
    b := MallocGrants(ar, bs, end, rs);
    GrantedIsSome(ar, bs, m, b);
    LiveIsFound(m.blocks, was, ar.start, m.end, ar.w);
    ReallocFrees(ar, bs, end, h, rs);
    FreeReleases(ar, m.blocks, m.end, IndexOf(m.blocks, h));
    NewIsNotOld(bs, was, b);
  }

  lemma LiveInside(bs: seq<Block>, h: nat, lo: nat, hi: nat, w: WordSize)
    requires Tiles(bs, lo, hi, w) && IsLive(bs, h)
    ensures bs[IndexOf(bs, h)] in Live(bs) && bs[IndexOf(bs, h)].addr == h >= lo && bs[IndexOf(bs, h)].size >= 2 * w
  {
    TilesSplit(bs, IndexOf(bs, h), lo, hi, w);
  }

  /** A new block that overlaps no live one has another header. */
  lemma NewIsNotOld(bs: seq<Block>, was: Block, b: Block)
    requires was in Live(bs) && was.size > 0 && b.size > 0
    requires forall c :: c in Live(bs) ==> c.addr + c.size <= b.addr || b.addr + b.size <= c.addr
    ensures b.addr != was.addr
  {
    hide Live;
  }

  lemma ReallocFrees(ar: Arena, bs: seq<Block>, end: nat, h: nat, rs: nat)
    requires IsLive(bs, h) && bs[IndexOf(bs, h)].size < rs && Malloc(ar, bs, end, rs).header != 0
    requires IsLive(Malloc(ar, bs, end, rs).blocks, h)
    ensures var m := Malloc(ar, bs, end, rs);
            Realloc(ar, bs, end, h, rs) == m.(blocks := FreeAt(m.blocks, IndexOf(m.blocks, h)))
  {
    hide Malloc, FreeAt, IndexOf;
  }

  lemma ReallocShrinks(ar: Arena, bs: seq<Block>, end: nat, h: nat, rs: nat)
    requires WellFormed(ar, bs, end) && rs >= 2 * ar.w && Aligned(rs, ar.w) && IsLive(bs, h)
    requires rs + 2 * ar.w <= bs[IndexOf(bs, h)].size
    ensures Exchanges(ar, bs, Realloc(ar, bs, end, h, rs), bs[IndexOf(bs, h)], Block(h, rs, false))
  {
    var t := IndexOf(bs, h);
    var s := Shrink(bs, t, rs);
    TilesSplit(bs, t, ar.start, end, ar.w);
    ShrinkKeeps(ar, bs, end, t, rs);
    FreeReleases(ar, s, end, t + 1);
    TailNotLive(bs, t, s[t + 1], ar.start, end, ar.w);
  }

  /** NULL exactly when a larger block is needed and memory is out, and then the heap is as it was, old block
      included; otherwise the old block has been exchanged for b, which stays in place, cut if what is cut off can
      hold a free-list entry, unless it had to grow: then it comes from where malloc finds it. */
  lemma ReallocExchanges(ar: Arena, bs: seq<Block>, end: nat, h: nat, rs: nat) returns (b: Block)
    requires WellFormed(ar, bs, end) && rs >= 2 * ar.w && Aligned(rs, ar.w) && IsLive(bs, h)
    ensures var o, was := Realloc(ar, bs, end, h, rs), bs[IndexOf(bs, h)];
            if was.size < rs && OutOfMemory(ar, bs, end, rs) then o == Outcome(bs, end, 0)
            else
              && Exchanges(ar, bs, o, was, b) && rs <= b.size < rs + 2 * ar.w
              && if was.size < rs then FromRightPlace(ar, bs, end, rs, o.end, b)
                 else o.end == end && b.addr == h && b.size == if was.size < rs + 2 * ar.w then was.size else rs
  {
    hide FromRightPlace;
    var t := IndexOf(bs, h);
    b := bs[t];
    TilesSplit(bs, t, ar.start, end, ar.w);
    if bs[t].size < rs {
      if OutOfMemory(ar, bs, end, rs) {
        b := MallocGrants(ar, bs, end, rs);
      } else {
        b := ReallocGrows(ar, bs, end, h, rs);
      }
    } else if bs[t].size - rs >= 2 * ar.w {
      ReallocShrinks(ar, bs, end, h, rs);
      b := Block(h, rs, false);
    } else {
      assert b in Live(bs);
    }
  }

  /** A header strictly inside block t belongs to no block. */
  lemma TailNotLive(bs: seq<Block>, t: nat, c: Block, lo: nat, hi: nat, w: WordSize)
    requires Tiles(bs, lo, hi, w) && t < |bs|
    requires bs[t].addr < c.addr < bs[t].addr + bs[t].size
    ensures c !in Live(bs)
  {
    if c in bs {
      var k :| 0 <= k < |bs| && bs[k] == c;
      if k < t {
        AddressOrder(bs, k, t, lo, hi, w);
      } else if t < k {
        AddressOrder(bs, t, k, lo, hi, w);
      }
    }
  }

  // ---------------------------------------------------------------------
  // memalign
  // ---------------------------------------------------------------------

  /** A power of two is a divisor of eight or a multiple of it. */
  lemma {:induction false} PowerOfTwoVersusEight(n: int)
    requires IsPowerOfTwo(n)
    ensures n == 1 || n == 2 || n == 4 || n % 8 == 0
  {
    if n > 1 {
      var h := n / 2;
      PowerOfTwoVersusEight(h);
      assert n == 2 * h;
      if h % 8 == 0 {
        DivModUnique(n, 8, 2 * (h / 8), 0);
      }
    }
  }

  /** A sum that is a multiple of align is whole words when align is. */
  lemma SumWholeWords(x: nat, r: nat, align: nat, w: WordSize)
    requires align > 0 && (x + r) % align == 0 && Aligned(x, w) && Aligned(align, w)
    ensures Aligned(r, w)
  {
    if w == 4 {
      MultipleOfMultiple(x + r, align, 4);
      MultipleSum(x + r, x, 4);
    } else {
      MultipleOfMultiple(x + r, align, 8);
      MultipleSum(x + r, x, 8);
    }
  }

  /** At a word boundary a smaller power of two is already met. */
  lemma WordBoundaryMeetsSmall(x: nat, align: int, w: WordSize)
    requires align == 1 || align == 2 || align == 4
    requires Aligned(x, w)
    ensures MAlign(x, align) == 0
  {
    if align == 1 {
      assert MAlign(x, 1) == 0;
    } else if align == 2 {
      assert MAlign(x, 2) == 0 by { assert x % 2 == 0; }
    } else {
      assert MAlign(x, 4) == 0 by { assert x % 4 == 0; }
    }
  }

  /** From a word boundary, the distance to the next multiple of a power of two is whole words. */
  lemma MAlignWholeWords(x: nat, align: int, w: WordSize)
    requires align > 0 && IsPowerOfTwo(align) && Aligned(x, w)
    ensures Aligned(MAlign(x, align), w)
  {
    hide MAlign, IsPowerOfTwo;
    assert align > 0;
    PowerOfTwoVersusEight(align);
    MAlignMeets(x, align);
    var r := MAlign(x, align);
    if align == 1 || align == 2 || align == 4 {
      WordBoundaryMeetsSmall(x, align, w);
    } else {
      assert Aligned(align, w);
      SumWholeWords(x, r, align, w);
    }
  }

  /** The hole before an aligned block is empty or a block of its own, and the block after it is aligned. */
  lemma BeforeSizeAligns(addr: nat, align: int, w: WordSize)
    requires align > 0
    ensures var before := BeforeSize(addr, align, w);
            && (addr + before + w) % align == 0
            && (before == 0 || before >= 2 * w)
  {
    hide MAlign;
    MAlignMeets(addr + w, align);
    MAlignMeets(addr + 3 * w, align);
    var before := BeforeSize(addr, align, w);
    if before != 0 {
      assert addr + before + w == addr + 3 * w + MAlign(addr + 3 * w, align);
    } else {
      assert addr + before + w == addr + w + MAlign(addr + w, align);
    }
  }

  lemma BeforeSizeWholeWords(addr: nat, align: int, w: WordSize)
    requires align > 0 && IsPowerOfTwo(align) && Aligned(addr, w)
    ensures Aligned(BeforeSize(addr, align, w), w)
  {
    hide MAlign, IsPowerOfTwo;
    if MAlign(addr + w, align) != 0 {
      AddWords(addr, w);
      MAlignWholeWords(addr + 3 * w, align, w);
      AddWords(MAlign(addr + 3 * w, align), w);
    }
  }

  lemma {:induction false} AddrsAligned(bs: seq<Block>, k: nat, lo: nat, hi: nat, w: WordSize)
    requires Tiles(bs, lo, hi, w) && Aligned(lo, w) && k < |bs|
    ensures Aligned(bs[k].addr, w)
  {
    hide Aligned;
    if k > 0 {
      AlignedSum(lo, bs[0].size, w);
      AddrsAligned(bs[1..], k - 1, lo + bs[0].size, hi, w);
    }
  }

  lemma {:induction false} EndAligned(bs: seq<Block>, lo: nat, hi: nat, w: WordSize)
    requires Tiles(bs, lo, hi, w) && Aligned(lo, w)
    ensures Aligned(hi, w)
  {
    hide Aligned;
    if bs != [] {
      AlignedSum(lo, bs[0].size, w);
      EndAligned(bs[1..], lo + bs[0].size, hi, w);
    }
  }

  lemma CutWideTiles(b: Block, rs: nat, w: WordSize)
    requires 2 * w <= rs <= b.size && Aligned(rs, w) && Aligned(b.size, w)
    ensures Tiles(CutWide(b, rs, w), b.addr, b.addr + b.size, w) && Coalesced(CutWide(b, rs, w))
    ensures Live(CutWide(b, rs, w)) == {CutWide(b, rs, w)[0]}
  {
    hide Aligned;
    AlignedSum(b.size, rs, w);
    var c := CutWide(b, rs, w);
    if |c| == 2 {
      OneTile(c[1], w);
      assert c[1..] == [c[1]];
    } else {
      OneTile(c[0], w);
    }
  }

  /** The pieces of a carved block tile it; the allocated piece wastes at most a free-list entry. */
  lemma CarveTiles(b: Block, before: nat, rs: nat, w: WordSize) returns (used: Block)
    requires b.size >= rs + before && Aligned(b.size, w) && Aligned(before, w) && Aligned(rs, w)
    requires (before == 0 || before >= 2 * w) && rs >= 2 * w
    ensures var c := Carve(b, before, rs, w);
            && c != [] && Tiles(c, b.addr, b.addr + b.size, w) && Coalesced(c)
            && Live(c) == {used} && used in c
            && used.addr == b.addr + before && rs <= used.size <= rs + 2 * w && !used.free
            && used.size == (if b.size - before <= rs + 2 * w then b.size - before else rs)
            && (before != 0 ==> Block(b.addr, before, true) in c)
  {
    hide Tiles, Coalesced, Live, Aligned;
    var tail := CutWide(Block(b.addr + before, b.size - before, true), rs, w);
    AlignedSum(b.size, before, w);
    CutWideTiles(Block(b.addr + before, b.size - before, true), rs, w);
    used := tail[0];
    if before == 0 {
      assert Carve(b, before, rs, w) == tail;
    } else {
      PrependHole(Block(b.addr, before, true), tail, b.addr + b.size, w);
    }
  }

  lemma PrependHole(hole: Block, tail: seq<Block>, hi: nat, w: WordSize)
    requires hole.free && hole.size >= 2 * w && Aligned(hole.size, w)
    requires tail != [] && !tail[0].free && Coalesced(tail) && Tiles(tail, hole.addr + hole.size, hi, w)
    ensures Tiles([hole] + tail, hole.addr, hi, w) && Coalesced([hole] + tail) && Live([hole] + tail) == Live(tail)
  {
    assert ([hole] + tail)[1..] == tail;
    CoalescedConcat([hole], tail);
    LiveConcat([hole], tail);
  }

  /** What a successful memalign promises besides the new block: alignment and a bound on waste. */
  ghost predicate Meets(b: Block, align: int, rs: nat, w: WordSize) {
    align > 0 && (b.addr + w) % align == 0 && rs <= b.size <= rs + 2 * w
  }

  /** What lies between `from` and the block is a free hole, large enough for the free list. */
  ghost predicate HoleBefore(o: Outcome, from: nat, b: Block, w: WordSize) {
    b.addr == from || (b.addr >= from + 2 * w && Block(from, b.addr - from, true) in o.blocks)
  }

  /** What is taken of a free block behind a hole: all, unless more than a free-list entry is left over. */
  function Taken(f: Block, hole: nat, rs: nat, w: WordSize): Block
    requires hole <= f.size
  {
    Block(f.addr + hole, if f.size - hole <= rs + 2 * w then f.size - hole else rs, false)
  }

  /** Carving a free block that is large enough. The hole, if there is one, stays on the free list. */
  lemma CarveGrants(ar: Arena, bs: seq<Block>, end: nat, i: nat, align: int, rs: nat) returns (b: Block)
    requires WellFormed(ar, bs, end) && rs >= 2 * ar.w && Aligned(rs, ar.w) && IsPowerOfTwo(align)
    requires i < |bs| && bs[i].free && bs[i].size >= rs + BeforeSize(bs[i].addr, align, ar.w)
    ensures var o := CarveAt(ar, bs, end, i, align, rs);
            && Grants(ar, bs, o, b) && Meets(b, align, rs, ar.w) && HoleBefore(o, bs[i].addr, b, ar.w)
            && b == Taken(bs[i], BeforeSize(bs[i].addr, align, ar.w), rs, ar.w) && o.end == end
  {
    hide MAlign, Tiles, Coalesced, Aligned, Carve, BeforeSize;
    var o, before := CarveAt(ar, bs, end, i, align, rs), BeforeSize(bs[i].addr, align, ar.w);
    TilesSplit(bs, i, ar.start, end, ar.w);
    AddrsAligned(bs, i, ar.start, end, ar.w);
    BeforeSizeWholeWords(bs[i].addr, align, ar.w);
    BeforeSizeAligns(bs[i].addr, align, ar.w);
    b := CarveTiles(bs[i], before, rs, ar.w);
    var mid := Carve(bs[i], before, rs, ar.w);
    ReplaceFree(ar, bs, end, i, mid);
    TailOrFreeNotLive(bs, i, b, ar.start, end, ar.w);
    GrantsFromLive(ar, bs, o, b);
  }

  /** A header inside a free block belongs to no live block. */
  lemma TailOrFreeNotLive(bs: seq<Block>, i: nat, b: Block, lo: nat, hi: nat, w: WordSize)
    requires Tiles(bs, lo, hi, w) && i < |bs| && bs[i].free
    requires bs[i].addr <= b.addr < bs[i].addr + bs[i].size
    ensures b !in Live(bs)
  {
    if b.addr == bs[i].addr {
      FreeHeaderNotLive(bs, i, b, lo, hi, w);
    } else {
      TailNotLive(bs, i, b, lo, hi, w);
    }
  }

  /** One free block of any size in place of the top keeps the heap and its live blocks. */
  lemma FreeTop(ar: Arena, bs: seq<Block>, end: nat, size: nat)
    requires WellFormed(ar, bs, end) && size >= 2 * ar.w && Aligned(size, ar.w)
    requires end - TopFree(bs) + size + MALLOC_MINIMUM_GAP <= ar.limit
    ensures var pre := if EndsFree(bs) then bs[..|bs| - 1] else bs;
            var top := if EndsFree(bs) then bs[|bs| - 1].addr else end;
            && WellFormed(ar, pre + [Block(top, size, true)], top + size)
            && Live(pre + [Block(top, size, true)]) == Live(bs)
            && Aligned(top, ar.w) && top == end - TopFree(bs)
  {
    LastBlockEnds(ar, bs, end);
    var top := if EndsFree(bs) then bs[|bs| - 1].addr else end;
    EndAligned(bs, ar.start, end, ar.w);
    if EndsFree(bs) {
      AddrsAligned(bs, |bs| - 1, ar.start, end, ar.w);
    }
    var added := [Block(top, size, true)];
    assert added[1..] == [] && Live(added) == {};
    ReplaceTop(ar, bs, end, added, top + size);
  }

  /** A hole at addr, none or one that can hold a free-list entry, that makes the block behind it aligned. */
  ghost predicate IsHole(addr: nat, align: int, w: WordSize, hole: nat)
    requires align > 0
  {
    (hole == 0 || hole >= 2 * w) && (addr + hole + w) % align == 0
  }

  ghost predicate IsLeastHole(addr: nat, align: int, w: WordSize, hole: nat)
    requires align > 0
  {
    IsHole(addr, align, w, hole) && forall h: nat :: IsHole(addr, align, w, h) ==> hole <= h
  }

  lemma HoleIsLeast(addr: nat, align: int, w: WordSize)
    requires align > 0
    ensures IsLeastHole(addr, align, w, BeforeSize(addr, align, w))
  {
    hide MAlign, IsHole, BeforeSize;
    forall h: nat | IsHole(addr, align, w, h)
      ensures BeforeSize(addr, align, w) <= h
    {
      NoSmallerHole(addr, align, w, h);
    }
    HoleAligns(addr, align, w);
  }

  lemma HoleAligns(addr: nat, align: int, w: WordSize)
    requires align > 0
    ensures IsHole(addr, align, w, BeforeSize(addr, align, w))
  {
    hide BeforeSize;
    BeforeSizeAligns(addr, align, w);
  }

  lemma NoSmallerHole(addr: nat, align: int, w: WordSize, h: nat)
    requires align > 0 && IsHole(addr, align, w, h)
    ensures BeforeSize(addr, align, w) <= h
  {
    hide MAlign;
    if h == 0 {
      LeastToAlign(addr + w, align, 0);
    } else {
      LeastToAlign(addr + 3 * w, align, h - 2 * w);
      assert (addr + 3 * w) + (h - 2 * w) == addr + h + w;
    }
  }

  /** MAlign is the least distance to a multiple. */
  lemma LeastToAlign(x: nat, align: int, d: nat)
    requires align > 0 && (x + d) % align == 0
    ensures MAlign(x, align) <= d
  {
    hide MAlign;
    var m := MAlign(x, align);
    MAlignMeets(x, align);
    if d < m {
      var y := x + d;
      assert y == y / align * align;
      DivModUnique(y + (m - d), align, y / align, m - d);
      assert false;
    }
  }

  /** A free block that holds the request behind the least hole. */
  ghost predicate FitsBehindHole(f: Block, align: int, rs: nat, w: WordSize)
    requires align > 0
  {
    f.free && exists hole: nat :: IsLeastHole(f.addr, align, w, hole) && f.size >= hole + rs
  }

  lemma FitsIff(f: Block, align: int, rs: nat, w: WordSize)
    requires align > 0
    ensures FitsBehindHole(f, align, rs, w) <==> f.free && f.size >= rs + BeforeSize(f.addr, align, w)
  {
    hide BeforeSize, IsHole;
    HoleIsLeast(f.addr, align, w);
  }

  /** The first such block, in the order of addresses. */
  ghost predicate IsFirstAligned(bs: seq<Block>, align: int, rs: nat, w: WordSize, f: Block)
    requires align > 0
  {
    && f in bs && FitsBehindHole(f, align, rs, w)
    && forall c :: c in bs && c.addr < f.addr ==> !FitsBehindHole(c, align, rs, w)
  }

  lemma FirstAlignedIsLowest(bs: seq<Block>, align: int, rs: nat, lo: nat, hi: nat, w: WordSize)
    requires align > 0 && Tiles(bs, lo, hi, w) && FirstAlignedFit(bs, align, rs, w) < |bs|
    ensures IsFirstAligned(bs, align, rs, w, bs[FirstAlignedFit(bs, align, rs, w)])
  {
    hide FirstAlignedFit, BeforeSize, FitsBehindHole;
    var i := FirstAlignedFit(bs, align, rs, w);
    FitsIff(bs[i], align, rs, w);
    forall c | c in bs && c.addr < bs[i].addr
      ensures !FitsBehindHole(c, align, rs, w)
    {
      var k :| 0 <= k < |bs| && bs[k] == c;
      FitsIff(c, align, rs, w);
      if i < k {
        AddressOrder(bs, i, k, lo, hi, w);
        assert false;
      }
      assert k < i;
    }
  }

  lemma NoneFitsAligned(bs: seq<Block>, align: int, rs: nat, w: WordSize)
    requires align > 0
    ensures FirstAlignedFit(bs, align, rs, w) == |bs| <==> forall c :: c in bs ==> !FitsBehindHole(c, align, rs, w)
  {
    hide FirstAlignedFit, BeforeSize, FitsBehindHole;
    var i := FirstAlignedFit(bs, align, rs, w);
    if i < |bs| {
      FitsIff(bs[i], align, rs, w);
      assert bs[i] in bs;
    } else {
      forall c | c in bs
        ensures !FitsBehindHole(c, align, rs, w)
      {
        var k :| 0 <= k < |bs| && bs[k] == c;
        FitsIff(c, align, rs, w);
      }
    }
  }

  /** Where the arena's last free block begins, or new space. */
  ghost function Top(bs: seq<Block>, end: nat): nat {
    if bs != [] && bs[|bs| - 1].free then bs[|bs| - 1].addr else end
  }

  /** memalign cannot be met: no free block holds the request behind its hole, and at the top, in place of the last
      free block if there is one, they would come too near the limit. */
  ghost predicate NoRoom(ar: Arena, bs: seq<Block>, end: nat, align: int, rs: nat)
    requires align > 0
  {
    && (forall c :: c in bs ==> !FitsBehindHole(c, align, rs, ar.w))
    && NoTopRoom(ar, Top(bs, end), align, rs)
  }

  ghost predicate NoTopRoom(ar: Arena, top: nat, align: int, rs: nat)
    requires align > 0
  {
    exists hole: nat :: IsLeastHole(top, align, ar.w, hole) && top + hole + rs + MALLOC_MINIMUM_GAP > ar.limit
  }

  lemma NoTopRoomIff(ar: Arena, top: nat, align: int, rs: nat)
    requires align > 0
    ensures NoTopRoom(ar, top, align, rs) <==> !CanAlloc(ar, top, BeforeSize(top, align, ar.w) + rs)
  {
    hide BeforeSize, IsHole;
    HoleIsLeast(top, align, ar.w);
  }

  /** The answer NULL: nothing has changed, or there is a free block more at the end, where there was room for the
      request but not for its hole. */
  ghost predicate Refused(ar: Arena, bs: seq<Block>, end: nat, o: Outcome, align: int, rs: nat)
    requires align > 0
  {
    && WellFormed(ar, o.blocks, o.end) && Live(o.blocks) == Live(bs)
    && var size := rs + MAlign(end + ar.w, align);
       o == if !EndsFree(bs) && end + size + MALLOC_MINIMUM_GAP <= ar.limit
            then Outcome(bs + [Block(end, size, true)], end + size, 0) else Outcome(bs, end, 0)
  }

  /** The answer b: a new block that meets the request, behind the least hole, which stays free, at the place `from`. */
  ghost predicate Granted(ar: Arena, bs: seq<Block>, o: Outcome, align: int, rs: nat, b: Block, from: nat)
    requires align > 0
  {
    && Grants(ar, bs, o, b) && Meets(b, align, rs, ar.w) && HoleBefore(o, from, b, ar.w)
    && b.addr >= from && IsLeastHole(from, align, ar.w, b.addr - from)
  }

  /** Where the block must come from: the first free block that holds it behind its hole; the top if there is none. */
  ghost predicate AlignedFromRightPlace(ar: Arena, bs: seq<Block>, end: nat, align: int, rs: nat, newEnd: nat, b: Block,
                                        from: nat)
    requires align > 0 && b.addr >= from
  {
    if exists c :: c in bs && FitsBehindHole(c, align, rs, ar.w) then
      && newEnd == end
      && exists f :: IsFirstAligned(bs, align, rs, ar.w, f) && f.addr == from
                     && b.addr - from <= f.size && b == Taken(f, b.addr - from, rs, ar.w)
    else
      from == Top(bs, end) && b.size == rs && newEnd == b.addr + rs
  }

  lemma SameLiveGrants(ar: Arena, bs1: seq<Block>, bs: seq<Block>, o: Outcome, b: Block)
    requires Grants(ar, bs1, o, b) && Live(bs1) == Live(bs)
    ensures Grants(ar, bs, o, b)
  {
  }

  /** The last free block, grown to what the request needs. */
  lemma GrowPrepares(ar: Arena, bs: seq<Block>, end: nat, align: int, rs: nat)
    requires WellFormed(ar, bs, end) && rs >= 2 * ar.w && Aligned(rs, ar.w) && IsPowerOfTwo(align) && EndsFree(bs)
    requires var top := bs[|bs| - 1].addr; CanAlloc(ar, top, BeforeSize(top, align, ar.w) + rs)
    ensures var n := |bs| - 1;
            var size := BeforeSize(bs[n].addr, align, ar.w) + rs;
            var bs1 := bs[..n] + [Block(bs[n].addr, size, true)];
            && WellFormed(ar, bs1, bs[n].addr + size) && Live(bs1) == Live(bs)
            && GrowLast(ar, bs, end, align, rs) == CarveAt(ar, bs1, bs[n].addr + size, n, align, rs)
  {
    hide MAlign, BeforeSize, CarveAt, Aligned;
    var n := |bs| - 1;
    var before := BeforeSize(bs[n].addr, align, ar.w);
    LastBlockEnds(ar, bs, end);
    AddrsAligned(bs, n, ar.start, end, ar.w);
    BeforeSizeWholeWords(bs[n].addr, align, ar.w);
    AlignedSum(before, rs, ar.w);
    FreeTop(ar, bs, end, before + rs);
  }

  /** Growing the last free block. */
  lemma GrowAnswers(ar: Arena, bs: seq<Block>, end: nat, align: int, rs: nat) returns (b: Block)
    requires WellFormed(ar, bs, end) && rs >= 2 * ar.w && Aligned(rs, ar.w) && IsPowerOfTwo(align) && EndsFree(bs)
    ensures var o := GrowLast(ar, bs, end, align, rs); var top := bs[|bs| - 1].addr;
            if !CanAlloc(ar, top, BeforeSize(top, align, ar.w) + rs) then o == Outcome(bs, end, 0)
            else
              && Granted(ar, bs, o, align, rs, b, top) && o.header != 0
              && b.size == rs && o.end == b.addr + rs
  {
    hide Tiles, Live, MAlign, BeforeSize, Carve, IsLeastHole;
    var n := |bs| - 1;
    var top := bs[n].addr;
    b := bs[n];
    LastBlockEnds(ar, bs, end);
    if CanAlloc(ar, top, BeforeSize(top, align, ar.w) + rs) {
      var size := BeforeSize(top, align, ar.w) + rs;
      var bs1 := bs[..n] + [Block(top, size, true)];
      GrowPrepares(ar, bs, end, align, rs);
      b := CarveGrants(ar, bs1, top + size, n, align, rs);
      var o := CarveAt(ar, bs1, top + size, n, align, rs);
      GrantedIsSome(ar, bs1, o, b);
      SameLiveGrants(ar, bs1, bs, o, b);
      HoleIsLeast(top, align, ar.w);
    }
  }

  /** New space at the top becomes a free block first. */
  lemma AddedTop(ar: Arena, bs: seq<Block>, end: nat, align: int, rs: nat)
    requires WellFormed(ar, bs, end) && rs >= 2 * ar.w && Aligned(rs, ar.w) && IsPowerOfTwo(align) && !EndsFree(bs)
    requires align > 0 && CanAlloc(ar, end, rs + MAlign(end + ar.w, align))
    ensures var size := rs + MAlign(end + ar.w, align);
            && WellFormed(ar, bs + [Block(end, size, true)], end + size)
            && Live(bs + [Block(end, size, true)]) == Live(bs)
  {
    hide MAlign, IsPowerOfTwo, Aligned;
    EndAligned(bs, ar.start, end, ar.w);
    AddWords(end, ar.w);
    MAlignWholeWords(end + ar.w, align, ar.w);
    AlignedSum(rs, MAlign(end + ar.w, align), ar.w);
    FreeTop(ar, bs, end, rs + MAlign(end + ar.w, align));
  }

  /** The room asked for at the top is never more than an aligned block with its hole takes. */
  lemma HoleIsEnough(addr: nat, align: int, w: WordSize)
    requires align > 0
    ensures MAlign(addr + w, align) <= BeforeSize(addr, align, w)
  {
    hide MAlign, BeforeSize;
    BeforeSizeAligns(addr, align, w);
    LeastToAlign(addr + w, align, BeforeSize(addr, align, w));
  }

  /** New space at the top: refused with or without a free block more, or the block right at the end. */
  lemma TopAnswers(ar: Arena, bs: seq<Block>, end: nat, align: int, rs: nat) returns (b: Block)
    requires WellFormed(ar, bs, end) && rs >= 2 * ar.w && Aligned(rs, ar.w) && IsPowerOfTwo(align) && !EndsFree(bs)
    ensures var o := TakeTop(ar, bs, end, align, rs);
            if !CanAlloc(ar, end, BeforeSize(end, align, ar.w) + rs) then Refused(ar, bs, end, o, align, rs)
            else
              && Granted(ar, bs, o, align, rs, b, end) && o.header != 0
              && b.size == rs && o.end == b.addr + rs
    ensures !CanAlloc(ar, end, BeforeSize(end, align, ar.w) + rs) ==> TakeTop(ar, bs, end, align, rs).header == 0
  {
    hide WellFormed, Tiles, Live, MAlign, TakenTop, Granted, BeforeSize;
    var size := rs + MAlign(end + ar.w, align);
    b := Block(end, size, true);
    assert TakeTop(ar, bs, end, align, rs) ==
      if CanAlloc(ar, end, size) then TakenTop(ar, bs + [b], end + size, align, rs) else Outcome(bs, end, 0);
    HoleIsEnough(end, align, ar.w);
    if CanAlloc(ar, end, size) {
      AddedTop(ar, bs, end, align, rs);
      b := TakenAnswers(ar, bs, end, size, align, rs);
    }
  }

  lemma GrantedSameLive(ar: Arena, bs1: seq<Block>, bs: seq<Block>, o: Outcome, align: int, rs: nat, b: Block,
                        from: nat)
    requires align > 0 && Granted(ar, bs1, o, align, rs, b, from) && Live(bs1) == Live(bs)
    ensures Granted(ar, bs, o, align, rs, b, from)
  {
    hide WellFormed, IsLeastHole, Live;
  }

  /** Once the new space is a free block of the heap, it is carved, or grown first. */
  lemma TakenAnswers(ar: Arena, bs: seq<Block>, end: nat, size: nat, align: int, rs: nat) returns (b: Block)
    requires WellFormed(ar, bs, end) && rs >= 2 * ar.w && Aligned(rs, ar.w) && IsPowerOfTwo(align) && !EndsFree(bs)
    requires size == rs + MAlign(end + ar.w, align) && CanAlloc(ar, end, size)
    requires WellFormed(ar, bs + [Block(end, size, true)], end + size)
    requires Live(bs + [Block(end, size, true)]) == Live(bs)
    ensures var o := TakenTop(ar, bs + [Block(end, size, true)], end + size, align, rs);
            if !CanAlloc(ar, end, BeforeSize(end, align, ar.w) + rs) then
              o == Outcome(bs + [Block(end, size, true)], end + size, 0)
            else
              && Granted(ar, bs, o, align, rs, b, end) && o.header != 0
              && b.size == rs && o.end == b.addr + rs
  {
    hide WellFormed, Tiles, Live, MAlign, BeforeSize, GrowLast, CarveAt, Meets, Grants, HoleBefore, IsLeastHole;
    var n, bs1 := |bs|, bs + [Block(end, size, true)];
    var before := BeforeSize(end, align, ar.w);
    HoleIsEnough(end, align, ar.w);
    HoleIsLeast(end, align, ar.w);
    if size >= rs + before {
      b := CarveGrants(ar, bs1, end + size, n, align, rs);
      var o := CarveAt(ar, bs1, end + size, n, align, rs);
      SameLiveGrants(ar, bs1, bs, o, b);
      GrantedIsSome(ar, bs1, o, b);
    } else {
      b := GrowAnswers(ar, bs1, end + size, align, rs);
      if CanAlloc(ar, end, before + rs) {
        GrantedSameLive(ar, bs1, bs, GrowLast(ar, bs1, end + size, align, rs), align, rs, b, end);
      }
    }
  }

  lemma GrantedIsSome(ar: Arena, bs: seq<Block>, o: Outcome, b: Block)
    requires Grants(ar, bs, o, b)
    ensures o.header != 0
  {
    hide Tiles, Coalesced;
    assert b in Live(o.blocks);
    LiveAddress(ar, o.blocks, o.end, b);
  }

  lemma LiveAddress(ar: Arena, bs: seq<Block>, end: nat, b: Block)
    requires WellFormed(ar, bs, end) && b in Live(bs)
    ensures b.addr >= ar.start > 0
  {
    hide Tiles, Coalesced;
    var k :| 0 <= k < |bs| && bs[k] == b;
    TilesSplit(bs, k, ar.start, end, ar.w);
  }

  /** For every alignment and size: NULL exactly if the alignment is no power of two, which changes nothing, or there
      is no room, and then every live block is kept; any other answer is a new block, aligned, large enough, and from
      the right place: behind the least hole in the first free block that holds both, at the top if there is none. */
  lemma MemalignAnswers(ar: Arena, bs: seq<Block>, end: nat, align: int, rs: nat) returns (b: Block, from: nat)
    requires WellFormed(ar, bs, end) && rs >= 2 * ar.w && Aligned(rs, ar.w)
    ensures var o := Memalign(ar, bs, end, align, rs);
            if !InPowers(align) then o == Outcome(bs, end, 0)
            else
              && align > 0
              && (o.header == 0 <==> NoRoom(ar, bs, end, align, rs))
              && if o.header == 0 then Refused(ar, bs, end, o, align, rs)
                 else
                   && Granted(ar, bs, o, align, rs, b, from)
                   && AlignedFromRightPlace(ar, bs, end, align, rs, o.end, b, from)
  {
    hide WellFormed, IsPowerOfTwo, InPowers, MAlign, BeforeSize, GrowLast, CarveAt, TakeTop, Meets, Grants,
         HoleBefore, IsLeastHole, FitsBehindHole, FirstAlignedFit, NoTopRoom;
    b, from := Block(0, 0, false), end;
    PowerOfTwoIff(align);
    if IsPowerOfTwo(align) {
      PowerIsPositive(align);
      NoneFitsAligned(bs, align, rs, ar.w);
      NoTopRoomIff(ar, Top(bs, end), align, rs);
      var i := FirstAlignedFit(bs, align, rs, ar.w);
      if i < |bs| {
        b := FoundAligned(ar, bs, end, align, rs);
        from := bs[i].addr;
      } else if EndsFree(bs) {
        b := GrowAnswers(ar, bs, end, align, rs);
        from := bs[|bs| - 1].addr;
        GrowRefused(ar, bs, end, align, rs);
      } else {
        b := TopAnswers(ar, bs, end, align, rs);
      }
    }
  }

  lemma PowerIsPositive(n: int)
    requires IsPowerOfTwo(n)
    ensures n > 0
  {
  }

  lemma GrowRefused(ar: Arena, bs: seq<Block>, end: nat, align: int, rs: nat)
    requires WellFormed(ar, bs, end) && align > 0 && EndsFree(bs)
    ensures Refused(ar, bs, end, Outcome(bs, end, 0), align, rs)
  {
    hide WellFormed, MAlign;
  }

  /** A block on the list that fits behind its hole. */
  lemma FoundAligned(ar: Arena, bs: seq<Block>, end: nat, align: int, rs: nat) returns (b: Block)
    requires WellFormed(ar, bs, end) && rs >= 2 * ar.w && Aligned(rs, ar.w) && IsPowerOfTwo(align)
    requires FirstAlignedFit(bs, align, rs, ar.w) < |bs|
    ensures var i := FirstAlignedFit(bs, align, rs, ar.w); var o := CarveAt(ar, bs, end, i, align, rs);
            && o.header != 0 && Granted(ar, bs, o, align, rs, b, bs[i].addr)
            && AlignedFromRightPlace(ar, bs, end, align, rs, o.end, b, bs[i].addr)
  {
    hide Coalesced, Tiles, Live, MAlign, BeforeSize, CarveAt, Meets, Grants, HoleBefore, IsLeastHole, FitsBehindHole,
         FirstAlignedFit;
    var i := FirstAlignedFit(bs, align, rs, ar.w);
    b := CarveGrants(ar, bs, end, i, align, rs);
    GrantedIsSome(ar, bs, CarveAt(ar, bs, end, i, align, rs), b);
    HoleIsLeast(bs[i].addr, align, ar.w);
    FirstAlignedIsLowest(bs, align, rs, ar.start, end, ar.w);
    assert bs[i] in bs && IsFirstAligned(bs, align, rs, ar.w, bs[i]);
  }
}
