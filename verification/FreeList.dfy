// The free list as the allocator walks and rewires it: where a next field
// points, and what one local change of memory does to the whole chain.

module FreeList {
  import opened HeapTiling

  /** From the free block found at pointer FirstFree(bs[i..], 0), the blocks in between are live. */
  lemma {:induction false} NextFree(bs: seq<Block>, i: nat) returns (j: nat)
    requires i <= |bs| && FirstFree(bs[i..], 0) != 0
    ensures i <= j < |bs| && bs[j].free && bs[j].addr == FirstFree(bs[i..], 0)
    ensures forall k :: i <= k < j ==> !bs[k].free
    decreases |bs| - i
  {
    if bs[i].free {
      j := i;
    } else {
      assert bs[i..][1..] == bs[i + 1..];
      j := NextFree(bs, i + 1);
    }
  }

  lemma {:induction false} NoneFree(bs: seq<Block>, i: nat, k: nat, lo: nat, hi: nat, w: WordSize)
    requires Tiles(bs, lo, hi, w) && lo > 0 && i <= k < |bs| && FirstFree(bs[i..], 0) == 0
    ensures !bs[k].free
    decreases k - i
  {
    TilesSplit(bs, i, lo, hi, w);
    assert bs[i..][1..] == bs[i + 1..];
    if i < k {
      NoneFree(bs, i + 1, k, lo, hi, w);
    }
  }

  /** Past live blocks the first free block is the same. */
  lemma {:induction false} FirstFreeSkips(bs: seq<Block>, i: nat, j: nat)
    requires i <= j <= |bs| && forall k :: i <= k < j ==> !bs[k].free
    ensures FirstFree(bs[i..], 0) == FirstFree(bs[j..], 0)
    decreases j - i
  {
    if i < j {
      assert bs[i..][1..] == bs[i + 1..];
      FirstFreeSkips(bs, i + 1, j);
    }
  }

  /** Past live blocks the last free block is the same. */
  lemma {:induction false} LastFreeSkips(bs: seq<Block>, i: nat, j: nat)
    requires i <= j <= |bs| && forall k :: i <= k < j ==> !bs[k].free
    ensures LastFree(bs[..j], 0) == LastFree(bs[..i], 0)
    decreases j - i
  {
    if i < j {
      assert bs[..j][..j - 1] == bs[..j - 1];
      LastFreeSkips(bs, i, j - 1);
    }
  }

  lemma LastFreeAt(bs: seq<Block>, j: nat)
    requires j < |bs| && bs[j].free
    ensures LastFree(bs[..j + 1], 0) == bs[j].addr
  {
    assert bs[..j + 1][j] == bs[j];
  }

  /** The chain around block j: it leads to j if j is free, and j's next field continues it. */
  lemma ChainAt(m: seq<nat>, bs: seq<Block>, p: nat, j: nat, w: WordSize)
    requires Linked(m, bs, p, 0, w) && j < |bs|
    ensures Linked(m, bs[..j], p, FirstFree(bs[j..], 0), w)
    ensures Linked(m, bs[j + 1..], FirstFree(bs[j + 1..], 0), 0, w)
    ensures bs[j].free ==> FirstFree(bs[j..], 0) == bs[j].addr && bs[j].addr + w < |m|
    ensures bs[j].free ==> m[bs[j].addr + w] == FirstFree(bs[j + 1..], 0)
  {
    assert bs == bs[..j] + bs[j..];
    LinkedConcat(m, bs[..j], bs[j..], p, 0, w);
    assert bs[j..][1..] == bs[j + 1..];
    if bs[j].free {
      LinkedStart(m, bs[j + 1..], m[bs[j].addr + w], 0, w);
    } else {
      FirstFreeSkips(bs, j, j + 1);
    }
  }

  /** The chain up to block j, whether or not there is one. */
  lemma ChainUpTo(m: seq<nat>, bs: seq<Block>, p: nat, j: nat, w: WordSize)
    requires Linked(m, bs, p, 0, w) && j <= |bs|
    ensures Linked(m, bs[..j], p, FirstFree(bs[j..], 0), w)
    ensures Linked(m, bs[j..], FirstFree(bs[j..], 0), 0, w)
  {
    assert bs == bs[..j] + bs[j..];
    LinkedConcat(m, bs[..j], bs[j..], p, 0, w);
  }

  /** Storing v in the last next field of a chain, or in the list head when it is empty, makes the chain end in v. */
  lemma {:induction false} Retarget(m: seq<nat>, m': seq<nat>, pre: seq<Block>, p: nat, r: nat, p': nat, v: nat,
                                    lo: nat, hi: nat, w: WordSize)
    requires Tiles(pre, lo, hi, w) && lo > 0 && Linked(m, pre, p, r, w) && |m'| == |m|
    requires if LastFree(pre, 0) == 0 then p' == v
             else p' == p && LastFree(pre, 0) + w < |m| && m'[LastFree(pre, 0) + w] == v
    requires forall a :: lo <= a < hi && a < |m| && a != LastFree(pre, 0) + w ==> m'[a] == m[a]
    ensures Linked(m', pre, p', v, w)
  {
    if pre != [] {
      var n := |pre| - 1;
      var front, c := pre[..n], pre[n];
      assert pre == front + [c];
      TilesSplit(pre, n, lo, hi, w);
      LinkedConcat(m, front, [c], p, r, w);
      LinkedConcat(m', front, [c], p', v, w);
      assert [c][1..] == [];
      if c.free {
        forall b | b in front && b.free && b.addr + w < |m|
          ensures m'[b.addr + w] == m[b.addr + w]
        {
          var k :| 0 <= k < n && pre[k] == b;
          AddressOrder(pre, k, n, lo, hi, w);
          TilesSplit(pre, k, lo, hi, w);
        }
        LinkedFrame(m, m', front, p, c.addr, w);
      } else {
        Retarget(m, m', front, p, r, p', v, lo, c.addr, w);
      }
    }
  }

  /** A header lies inside the span of its tiling, with its next field. */
  lemma HeaderInside(bs: seq<Block>, b: Block, lo: nat, hi: nat, w: WordSize)
    requires Tiles(bs, lo, hi, w) && b in bs
    ensures lo <= b.addr && b.addr + 2 * w <= b.addr + b.size <= hi
  {
    var k :| 0 <= k < |bs| && bs[k] == b;
    TilesSplit(bs, k, lo, hi, w);
  }

  lemma BlockAligned(bs: seq<Block>, b: Block, lo: nat, hi: nat, w: WordSize)
    requires Tiles(bs, lo, hi, w) && b in bs
    ensures Aligned(b.size, w)
  {
    var k :| 0 <= k < |bs| && bs[k] == b;
    TilesSplit(bs, k, lo, hi, w);
  }

  /** The free part of LastFree: it is 0 or the header of a free block of bs. */
  lemma {:induction false} LastFreeIsFree(bs: seq<Block>) returns (k: nat)
    requires LastFree(bs, 0) != 0
    ensures k < |bs| && bs[k].free && bs[k].addr == LastFree(bs, 0)
  {
    if bs[|bs| - 1].free {
      k := |bs| - 1;
    } else {
      k := LastFreeIsFree(bs[..|bs| - 1]);
    }
  }

  /** Memory changed only in [a, b) and in the next field of the last free block before a. */
  ghost predicate ChangedOnly(m: seq<nat>, m': seq<nat>, pre: seq<Block>, a: nat, b: nat, w: WordSize) {
    && |m'| == |m|
    && forall x :: 0 <= x < |m| && !(a <= x < b) && !(LastFree(pre, 0) != 0 && x == LastFree(pre, 0) + w) ==>
         m'[x] == m[x]
  }

  /** Replacing the blocks over [a, b) by mid: pointing the last free block before a at v, where mid's own chain
      runs from v to the first free block after b, gives a chain through all of pre + mid + post. */
  lemma Relink(m: seq<nat>, m': seq<nat>, pre: seq<Block>, mid: seq<Block>, post: seq<Block>,
               p: nat, r: nat, p': nat, v: nat, q: nat, lo: nat, a: nat, b: nat, hi: nat, w: WordSize)
    requires Tiles(pre, lo, a, w) && Tiles(post, b, hi, w) && 0 < lo && a <= b && a <= |m|
    requires ChangedOnly(m, m', pre, a, b, w)
    requires if LastFree(pre, 0) == 0 then p' == v
             else p' == p && LastFree(pre, 0) + w < |m| && m'[LastFree(pre, 0) + w] == v
    requires Linked(m, pre, p, r, w) && Linked(m, post, q, 0, w) && Linked(m', mid, v, q, w)
    requires Headers(m, pre) && Headers(m, post) && Headers(m', mid)
    ensures Linked(m', pre + mid + post, p', 0, w) && Headers(m', pre + mid + post)
  {
    RelinkBefore(m, m', pre, p, r, p', v, lo, a, b, w);
    RelinkAfter(m, m', pre, post, q, lo, a, b, hi, w);
    LinkedStart(m', post, q, 0, w);
    LinkedStart(m', mid, v, q, w);
    LinkedConcat(m', mid, post, v, 0, w);
    LinkedStart(m', mid + post, v, 0, w);
    LinkedConcat(m', pre, mid + post, p', 0, w);
    assert pre + mid + post == pre + (mid + post);
  }

  lemma RelinkBefore(m: seq<nat>, m': seq<nat>, pre: seq<Block>, p: nat, r: nat, p': nat, v: nat,
                     lo: nat, a: nat, b: nat, w: WordSize)
    requires Tiles(pre, lo, a, w) && 0 < lo && ChangedOnly(m, m', pre, a, b, w)
    requires if LastFree(pre, 0) == 0 then p' == v
             else p' == p && LastFree(pre, 0) + w < |m| && m'[LastFree(pre, 0) + w] == v
    requires Linked(m, pre, p, r, w) && Headers(m, pre)
    ensures Linked(m', pre, p', v, w) && Headers(m', pre)
  {
    Retarget(m, m', pre, p, r, p', v, lo, a, w);
    forall c | c in pre
      ensures c.addr < |m'| && m'[c.addr] == c.size
    {
      HeaderInside(pre, c, lo, a, w);
      if LastFree(pre, 0) != 0 {
        NextFieldIsNoHeader(pre, c, lo, a, w);
      }
    }
  }

  lemma NextFieldIsNoHeader(bs: seq<Block>, c: Block, lo: nat, hi: nat, w: WordSize)
    requires Tiles(bs, lo, hi, w) && c in bs && LastFree(bs, 0) != 0
    ensures c.addr != LastFree(bs, 0) + w
    ensures lo <= LastFree(bs, 0) && LastFree(bs, 0) + 2 * w <= hi
  {
    var k := LastFreeIsFree(bs);
    HeaderInside(bs, bs[k], lo, hi, w);
    var i :| 0 <= i < |bs| && bs[i] == c;
    if i < k {
      AddressOrder(bs, i, k, lo, hi, w);
    } else if k < i {
      AddressOrder(bs, k, i, lo, hi, w);
    }
  }

  lemma RelinkAfter(m: seq<nat>, m': seq<nat>, pre: seq<Block>, post: seq<Block>, q: nat,
                    lo: nat, a: nat, b: nat, hi: nat, w: WordSize)
    requires Tiles(pre, lo, a, w) && Tiles(post, b, hi, w) && a <= b && ChangedOnly(m, m', pre, a, b, w)
    requires Linked(m, post, q, 0, w) && Headers(m, post)
    ensures Linked(m', post, q, 0, w) && Headers(m', post)
  {
    if LastFree(pre, 0) != 0 {
      var k := LastFreeIsFree(pre);
      HeaderInside(pre, pre[k], lo, a, w);
    }
    forall c | c in post
      ensures b <= c.addr && c.addr + 2 * w <= c.addr + c.size
    {
      HeaderInside(post, c, b, hi, w);
    }
    LinkedFrame(m, m', post, q, 0, w);
  }

  /** The last next field of a chain, or the list head when it is empty, holds the pointer the chain ends in. */
  lemma {:induction false} LastNext(m: seq<nat>, bs: seq<Block>, p: nat, r: nat, lo: nat, hi: nat, w: WordSize)
    requires Linked(m, bs, p, r, w) && Tiles(bs, lo, hi, w) && lo > 0
    ensures if LastFree(bs, 0) == 0 then p == r else LastFree(bs, 0) + w < |m| && m[LastFree(bs, 0) + w] == r
  {
    if bs != [] {
      var n := |bs| - 1;
      var front, c := bs[..n], bs[n];
      assert bs == front + [c] && [c][1..] == [];
      TilesSplit(bs, n, lo, hi, w);
      LinkedConcat(m, front, [c], p, r, w);
      if !c.free {
        LastNext(m, front, p, r, lo, c.addr, w);
      }
    }
  }

  /** A live block outside the rewritten stretch keeps its words. */
  lemma ChangedOnlyKeeps(m: seq<nat>, m': seq<nat>, bs: seq<Block>, i: nat, a: nat, b: nat, c: Block, x: nat,
                         lo: nat, hi: nat, w: WordSize)
    requires Tiles(bs, lo, hi, w) && lo > 0 && i <= |bs| && ChangedOnly(m, m', bs[..i], a, b, w)
    requires c in bs && !c.free && (c.addr + c.size <= a || b <= c.addr)
    requires c.addr <= x < c.addr + c.size && x < |m|
    ensures m'[x] == m[x]
  {
    if LastFree(bs[..i], 0) != 0 {
      var k := LastFreeIsFree(bs[..i]);
      assert bs[k] == bs[..i][k];
      HeaderInside(bs, bs[k], lo, hi, w);
      var n :| 0 <= n < |bs| && bs[n] == c;
      if n < k {
        AddressOrder(bs, n, k, lo, hi, w);
      } else {
        AddressOrder(bs, k, n, lo, hi, w);
      }
    }
  }
}
