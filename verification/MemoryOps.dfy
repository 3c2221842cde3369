// syscalls.c: memcpy and memset, which go word by word when addresses and length allow it. Memory
// is an array of bytes, a pointer an index into it; W is sizeof(uintptr_t).

module MemoryOps {
  import opened DivMod

  /** Memory after n bytes from position at have become those of data. */
  function Overwritten(mem: seq<bv8>, at: nat, data: seq<bv8>): (r: seq<bv8>)
    requires at + |data| <= |mem|
    ensures |r| == |mem|
    ensures forall i :: 0 <= i < |mem| ==> r[i] == if at <= i < at + |data| then data[i - at] else mem[i]
  {
    mem[..at] + data + mem[at + |data|..]
  }

  /** x has none of the bits of w - 1, w a power of two. */
  predicate Aligned(x: nat, w: nat)
    requires w > 0
  {
    x % w == 0
  }

  ghost predicate Apart(dest: nat, src: nat, len: nat) {
    dest + len <= src || src + len <= dest
  }

  /** The next bytes copied. */
  lemma OverwrittenMore(mem: seq<bv8>, at: nat, data: seq<bv8>, more: seq<bv8>)
    requires at + |data| + |more| <= |mem|
    ensures Overwritten(Overwritten(mem, at, data), at + |data|, more) == Overwritten(mem, at, data + more)
  {
  }

  lemma SourceKept(mem: seq<bv8>, dest: nat, src: nat, len: nat, done: nat, n: nat)
    requires Apart(dest, src, len) && done + n <= len && dest + len <= |mem| && src + len <= |mem|
    ensures Overwritten(mem, dest, mem[src..src + done])[src + done..src + done + n] == mem[src + done..src + done + n]
    ensures mem[src..src + done] + mem[src + done..src + done + n] == mem[src..src + done + n]
  {
  }

  /** The first done bytes have been copied. */
  ghost predicate Copied(m0: seq<bv8>, m: seq<bv8>, dest: nat, src: nat, done: nat) {
    && dest + done <= |m0| && src + done <= |m0|
    && m == Overwritten(m0, dest, m0[src..src + done])
  }

  /** Reads the next n bytes, one or more words, into registers, then writes them. */
  method CopyNext(mem: array<bv8>, n: nat, ghost m0: seq<bv8>, dest: nat, src: nat, ghost len: nat, done: nat)
    requires Apart(dest, src, len) && done + n <= len && dest + len <= mem.Length && src + len <= mem.Length
    requires |m0| == mem.Length && Copied(m0, mem[..], dest, src, done)
    modifies mem
    ensures Copied(m0, mem[..], dest, src, done + n)
  {
    hide Overwritten;
    var reg := mem[src + done..src + done + n];
    assert reg == mem[..][src + done..src + done + n];
    CopyStep(m0, dest, src, len, done, n);
    WriteBytes(mem, dest + done, reg);
  }

  lemma OneMoreByte(m: seq<bv8>, at: nat, reg: seq<bv8>, i: nat)
    requires at + |reg| <= |m| && i < |reg|
    ensures Overwritten(m, at, reg[..i])[at + i := reg[i]] == Overwritten(m, at, reg[..i + 1])
  {
  }

  method WriteBytes(mem: array<bv8>, at: nat, reg: seq<bv8>)
    requires at + |reg| <= mem.Length
    modifies mem
    ensures mem[..] == Overwritten(old(mem[..]), at, reg)
  {
    for i := 0 to |reg|
      invariant mem[..] == Overwritten(old(mem[..]), at, reg[..i])
    {
      ghost var m := mem[..];
      mem[at + i] := reg[i];
      assert mem[..] == m[at + i := reg[i]];
      OneMoreByte(old(mem[..]), at, reg, i);
    }
    assert reg[..|reg|] == reg;
  }

  /** Exactly the len bytes from dest on become those from src on, whichever loops run. */
  method Memcpy(mem: array<bv8>, w: nat, dest: nat, src: nat, len: nat)
    requires w > 0 && dest + len <= mem.Length && src + len <= mem.Length && Apart(dest, src, len)
    modifies mem
    ensures mem[..] == Overwritten(old(mem[..]), dest, old(mem[..])[src..src + len])
  {
    hide Aligned, Copied;
    ghost var m0 := mem[..];
    NothingCopied(m0, dest, src);
    var done: nat := 0;
    if Aligned(dest, w) && Aligned(src, w) && Aligned(len, w) {
      ZeroAligned(w);
      while done + 8 * w < len
        invariant done <= len && Aligned(done, w) && Copied(m0, mem[..], dest, src, done)
        decreases len - done
      {
        CopyNext(mem, 8 * w, m0, dest, src, len, done);
        WordsLater(done, w, 8);
        done := done + 8 * w;
      }
      while done < len
        invariant done <= len && Aligned(done, w) && Copied(m0, mem[..], dest, src, done)
        decreases len - done
      {
        WordFits(done, len, w);
        CopyNext(mem, w, m0, dest, src, len, done);
        WordsLater(done, w, 1);
        done := done + w;
      }
    } else {
      while done < len
        invariant done <= len && Copied(m0, mem[..], dest, src, done)
      {
        CopyNext(mem, 1, m0, dest, src, len, done);
        done := done + 1;
      }
    }
    AllCopied(m0, mem[..], dest, src, len);
  }

  lemma AllCopied(m0: seq<bv8>, m: seq<bv8>, dest: nat, src: nat, len: nat)
    requires Copied(m0, m, dest, src, len)
    ensures dest + len <= |m0| && src + len <= |m0| && m == Overwritten(m0, dest, m0[src..src + len])
  {
  }

  lemma NothingCopied(mem: seq<bv8>, dest: nat, src: nat)
    requires dest <= |mem| && src <= |mem|
    ensures Copied(mem, mem, dest, src, 0)
  {
  }

  lemma CopyStep(mem: seq<bv8>, dest: nat, src: nat, len: nat, done: nat, n: nat)
    requires Apart(dest, src, len) && done + n <= len && dest + len <= |mem| && src + len <= |mem|
    ensures var now := Overwritten(mem, dest, mem[src..src + done]);
            Overwritten(now, dest + done, now[src + done..src + done + n]) ==
              Overwritten(mem, dest, mem[src..src + done + n])
  {
    SourceKept(mem, dest, src, len, done, n);
    OverwrittenMore(mem, dest, mem[src..src + done], mem[src + done..src + done + n]);
  }

  lemma ZeroAligned(w: nat)
    requires w > 0
    ensures Aligned(0, w)
  {
  }

  lemma WordsLater(done: nat, w: nat, n: nat)
    requires w > 0 && Aligned(done, w)
    ensures Aligned(done + n * w, w)
  {
    assert done == (done / w) * w;
    assert (done / w + n) * w == done + n * w;
    DivModUnique(done + n * w, w, done / w + n, 0);
  }

  /** Between two multiples of the word size there is room for a word. */
  lemma WordFits(done: nat, len: nat, w: nat)
    requires w > 0 && Aligned(done, w) && Aligned(len, w) && done < len
    ensures done + w <= len
  {
    var p, q := done / w, len / w;
    assert done == p * w && len == q * w;
    if q <= p {
      MulMonotone(q, p, w);
    }
    MulMonotone(p + 1, q, w);
  }

  // ---------------------------------------------------------------------
  // memset
  // ---------------------------------------------------------------------

  /** uintptr_t of eight bytes, or of four when w is 4. */
  function Truncated(w: nat, word: bv64): bv64 {
    if w == 4 then word & 0xffff_ffff else word
  }

  /** The byte in every byte of a word. */
  function Replicated(w: nat, byte: bv8): bv64 {
    var a := byte as bv64;
    var b := a | (a << 8);
    var c := b | (b << 16);
    Truncated(w, c | Truncated(w, Truncated(w, c << 16) << 16))
  }

  function LowByte(x: bv64): bv8 {
    (x & 0xff) as bv8
  }

  /** Byte j of a word. */
  function ByteOf(word: bv64, j: nat): bv8
    requires j < 8
  {
    if j == 0 then LowByte(word)
    else if j == 1 then LowByte(word >> 8)
    else if j == 2 then LowByte(word >> 16)
    else if j == 3 then LowByte(word >> 24)
    else if j == 4 then LowByte(word >> 32)
    else if j == 5 then LowByte(word >> 40)
    else if j == 6 then LowByte(word >> 48)
    else LowByte(word >> 56)
  }

  /** The bytes of a word in memory, the least significant first. */
  function BytesOf(w: nat, word: bv64): (s: seq<bv8>)
    requires w <= 8
    ensures |s| == w
  {
    seq(w, j requires 0 <= j < w => ByteOf(word, j))
  }

  lemma Replicated4(byte: bv8)
    ensures ByteOf(Replicated(4, byte), 0) == byte
    ensures ByteOf(Replicated(4, byte), 1) == byte
    ensures ByteOf(Replicated(4, byte), 2) == byte
    ensures ByteOf(Replicated(4, byte), 3) == byte
  {
  }

  lemma Replicated8(byte: bv8)
    ensures ByteOf(Replicated(8, byte), 0) == byte
    ensures ByteOf(Replicated(8, byte), 1) == byte
    ensures ByteOf(Replicated(8, byte), 2) == byte
    ensures ByteOf(Replicated(8, byte), 3) == byte
    ensures ByteOf(Replicated(8, byte), 4) == byte
    ensures ByteOf(Replicated(8, byte), 5) == byte
    ensures ByteOf(Replicated(8, byte), 6) == byte
    ensures ByteOf(Replicated(8, byte), 7) == byte
  {
  }

  lemma ByteReplicated(w: nat, byte: bv8, j: nat)
    requires (w == 4 || w == 8) && j < w
    ensures ByteOf(Replicated(w, byte), j) == byte
  {
    hide Replicated, ByteOf;
    if w == 4 {
      Replicated4(byte);
    } else {
      Replicated8(byte);
    }
  }

  function Copies(byte: bv8, n: nat): (s: seq<bv8>)
    ensures |s| == n && forall i :: 0 <= i < n ==> s[i] == byte
  {
    seq(n, _ => byte)
  }

  lemma BytesReplicated(w: nat, byte: bv8)
    requires w == 4 || w == 8
    ensures BytesOf(w, Replicated(w, byte)) == Copies(byte, w)
  {
    hide Replicated, ByteOf;
    forall j | 0 <= j < w
      ensures ByteOf(Replicated(w, byte), j) == byte
    {
      ByteReplicated(w, byte, j);
    }
  }

  /** Exactly the len bytes from dest on become the byte, word by word or byte by byte. */
  method Memset(mem: array<bv8>, w: nat, dest: nat, byte: bv8, len: nat)
    requires (w == 4 || w == 8) && dest + len <= mem.Length
    modifies mem
    ensures mem[..] == Overwritten(old(mem[..]), dest, Copies(byte, len))
  {
    hide Aligned, Overwritten, Replicated, BytesOf;
    ghost var m0 := mem[..];
    NothingSet(m0, dest, byte);
    var done: nat := 0;
    if Aligned(dest, w) && Aligned(len, w) {
      var word := Replicated(w, byte);
      BytesReplicated(w, byte);
      ZeroAligned(w);
      while done < len
        invariant done <= len && Aligned(done, w) && mem[..] == Overwritten(m0, dest, Copies(byte, done))
        decreases len - done
      {
        WordFits(done, len, w);
        MoreSet(m0, dest, byte, done, w);
        WriteBytes(mem, dest + done, BytesOf(w, word));
        WordsLater(done, w, 1);
        done := done + w;
      }
    } else {
      while done < len
        invariant done <= len && mem[..] == Overwritten(m0, dest, Copies(byte, done))
      {
        MoreSet(m0, dest, byte, done, 1);
        assert [byte] == Copies(byte, 1);
        WriteBytes(mem, dest + done, [byte]);
        done := done + 1;
      }
    }
  }

  lemma NothingSet(mem: seq<bv8>, dest: nat, byte: bv8)
    requires dest <= |mem|
    ensures Overwritten(mem, dest, Copies(byte, 0)) == mem
  {
  }

  lemma MoreSet(mem: seq<bv8>, dest: nat, byte: bv8, done: nat, n: nat)
    requires dest + done + n <= |mem|
    ensures Overwritten(Overwritten(mem, dest, Copies(byte, done)), dest + done, Copies(byte, n))
         == Overwritten(mem, dest, Copies(byte, done + n))
  {
    assert Copies(byte, done) + Copies(byte, n) == Copies(byte, done + n);
    OverwrittenMore(mem, dest, Copies(byte, done), Copies(byte, n));
  }
}
