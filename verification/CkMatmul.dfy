// ck_matmul.c: each core takes block rows of C in turn (block-cyclic), and goes round the column
// blocks of a row starting at its own.

module CkMatmul {
  import opened DivMod
  import opened Interleaving
  import opened Matrix
  import opened TiledProduct

  const BSIZE: nat := 16

  /** What the strides of the loops need. */
  predicate Fits(f: Factors) {
    f.lda % BSIZE == 0
  }

  /** Four rows by two columns (c1 .. c8 of the source), all terms. */
  method Tile(f: Factors, c: array<int>, j: nat, i: nat) returns (ghost p: seq<Access>)
    requires Square(f, c.Length) && f.lda % 8 == 0 && j + 4 <= f.lda && i + 2 <= f.lda
    modifies c
    ensures Adds(f, old(c[..]), c[..], 0, f.lda, Rectangle(j, j + 4, i, i + 2))
    ensures Traced(f.lda, p, old(c[..]), c[..], Rectangle(j, j + 4, i, i + 2))
  {
    hide HoldsAll, Adds, Ix, Rectangle, Entry, Dot, Square, Traced, AreLoads;
    var acc := new int[4, 2];
    p := LoadTile(f, c, acc, j, i, 0);
    var k := 0;
    while k < f.lda
      invariant k <= f.lda && k % 8 == 0 && c[..] == old(c[..]) && HoldsAll(f, c[..], acc, j, i, 0, k)
    {
      for t := 0 to 8
        invariant c[..] == old(c[..]) && HoldsAll(f, c[..], acc, j, i, 0, k + t)
      {
        AddTerms(f, acc, j, i, k + t, Ix(f.lda, k + t, i), c[..], 0, k + t);
      }
      k := k + 8;
    }
    p := StoreTile(f, c, acc, j, i, 0, f.lda, p);
  }

  /** A block of BSIZE rows by BSIZE columns. */
  method Block(f: Factors, c: array<int>, jj: nat, ii: nat) returns (ghost p: seq<Access>)
    requires Square(f, c.Length) && f.lda % 8 == 0 && jj + BSIZE <= f.lda && ii + BSIZE <= f.lda
    modifies c
    ensures Adds(f, old(c[..]), c[..], 0, f.lda, Rectangle(jj, jj + BSIZE, ii, ii + BSIZE))
    ensures Traced(f.lda, p, old(c[..]), c[..], Rectangle(jj, jj + BSIZE, ii, ii + BSIZE))
  {
    hide Adds, Rectangle, Square, Traced;
    ghost var x, whole := c[..], (jj, jj + BSIZE, ii, ii + BSIZE);
    p := [];
    TracedNothing(f.lda, x, Rectangle(jj, jj + BSIZE, ii, ii + BSIZE));
    var j := jj;
    NoRows(f, x, 0, f.lda, jj, ii, ii + BSIZE);
    ghost var m := 0;
    while j < f.lda && j < jj + BSIZE
      invariant j == jj + 4 * m <= jj + BSIZE
      invariant Adds(f, x, c[..], 0, f.lda, Rectangle(jj, j, ii, ii + BSIZE))
      invariant Traced(f.lda, p, x, c[..], Rectangle(jj, jj + BSIZE, ii, ii + BSIZE))
    {
      ghost var y := c[..];
      var i := ii;
      NoColumns(f, y, 0, f.lda, j, j + 4, ii);
      ghost var n := 0;
      while i < f.lda && i < ii + BSIZE
        invariant i == ii + 2 * n <= ii + BSIZE
        invariant Adds(f, y, c[..], 0, f.lda, Rectangle(j, j + 4, ii, i))
        invariant Traced(f.lda, p, x, c[..], Rectangle(jj, jj + BSIZE, ii, ii + BSIZE))
      {
        ghost var z := c[..];
        ghost var q := Tile(f, c, j, i);
        TracedPart(f.lda, p, q, x, z, c[..], whole, (j, j + 4, i, i + 2));
        p := p + q;
        SideBySide(f, y, z, c[..], 0, f.lda, j, j + 4, ii, i, i + 2);
        i := i + 2;
        n := n + 1;
      }
      OneAboveOther(f, x, y, c[..], 0, f.lda, jj, j, j + 4, ii, ii + BSIZE);
      j := j + 4;
      m := m + 1;
    }
  }

  /** The columns seen after n blocks from start on, round a row of lda. */
  function Seen(lda: nat, jj: nat, start: nat, n: nat): Region {
    (j: nat, i: nat) =>
      jj <= j < jj + BSIZE && (if start <= i then i < start + BSIZE * n else i + lda < start + BSIZE * n)
  }

  /** Once round the column blocks: the loop comes back to its start with each block seen once. */
  method BlockRow(f: Factors, c: array<int>, jj: nat, start: nat) returns (ghost p: seq<Access>)
    requires Fits(f) && Square(f, c.Length) && jj + BSIZE <= f.lda && start < f.lda && start % BSIZE == 0
    modifies c
    ensures Adds(f, old(c[..]), c[..], 0, f.lda, Rectangle(jj, jj + BSIZE, 0, f.lda))
    ensures Traced(f.lda, p, old(c[..]), c[..], Rectangle(jj, jj + BSIZE, 0, f.lda))
  {
    hide Adds, Rectangle, Seen, Around, At, Fits, Square, Traced;
    ghost var x, m, s, whole := c[..], f.lda / BSIZE, start / BSIZE, (jj, jj + BSIZE, 0, f.lda);
    p := [];
    TracedNothing(f.lda, x, Rectangle(jj, jj + BSIZE, 0, f.lda));
    BlockCount(f, start);
    ghost var n := 0;
    var first := true;
    var ii := start;
    SeenNone(f, x, jj, start);
    while ii != start || first
      invariant n <= m && (first <==> n == 0) && ii == BSIZE * At(s, n, m)
      invariant Adds(f, x, c[..], 0, f.lda, Seen(f.lda, jj, start, n))
      invariant Traced(f.lda, p, x, c[..], Rectangle(jj, jj + BSIZE, 0, f.lda))
      decreases m - n
    {
      first := false;
      ghost var y := c[..];
      BlockInside(f, s, n, m);
      ghost var q := Block(f, c, jj, ii);
      TracedPart(f.lda, p, q, x, y, c[..], whole, (jj, jj + BSIZE, ii, ii + BSIZE));
      p := p + q;
      SeenMore(f, x, y, c[..], jj, start, ii, s, n, m);
      StepAround(s, n, m);
      ii := Around(ii, f.lda);
      n := n + 1;
    }
    SeenAll(f, x, c[..], jj, start);
  }

  /** (bsize + ii) % lda. */
  function Around(ii: nat, lda: nat): nat
    requires lda > 0
  {
    (BSIZE + ii) % lda
  }

  /** The block after n steps from block s, of m. */
  function At(s: nat, n: nat, m: nat): (r: nat)
    requires s < m && n <= m
    ensures r < m && (r == s <==> n == 0 || n == m)
  {
    if s + n < m then s + n else s + n - m
  }

  lemma BlockCount(f: Factors, start: nat)
    requires Fits(f) && start < f.lda && start % BSIZE == 0
    ensures f.lda == BSIZE * (f.lda / BSIZE) && start == BSIZE * (start / BSIZE) && start / BSIZE < f.lda / BSIZE
  {
  }

  lemma BlockInside(f: Factors, s: nat, n: nat, m: nat)
    requires f.lda == BSIZE * m && s < m && n <= m
    ensures f.lda % 8 == 0 && BSIZE * At(s, n, m) + BSIZE <= f.lda
  {
    hide At;
    DivModUnique(f.lda, 8, 2 * m, 0);
  }

  lemma SeenNone(f: Factors, x: seq<int>, jj: nat, start: nat)
    requires Square(f, |x|) && start < f.lda
    ensures Adds(f, x, x, 0, f.lda, Seen(f.lda, jj, start, 0))
  {
    AddsNothing(f, x, 0, f.lda, Seen(f.lda, jj, start, 0));
  }

  lemma SeenMore(f: Factors, x: seq<int>, y: seq<int>, z: seq<int>, jj: nat, start: nat, ii: nat, s: nat, n: nat,
                 m: nat)
    requires f.lda == BSIZE * m && s < m && n < m && start == BSIZE * s && ii == BSIZE * At(s, n, m)
    requires Adds(f, x, y, 0, f.lda, Seen(f.lda, jj, start, n))
    requires Adds(f, y, z, 0, f.lda, Rectangle(jj, jj + BSIZE, ii, ii + BSIZE))
    ensures Adds(f, x, z, 0, f.lda, Seen(f.lda, jj, start, n + 1))
  {
    hide Adds;
    AddsBoth(f, x, y, z, 0, f.lda, Seen(f.lda, jj, start, n), Rectangle(jj, jj + BSIZE, ii, ii + BSIZE),
             Seen(f.lda, jj, start, n + 1));
  }

  lemma SeenAll(f: Factors, x: seq<int>, y: seq<int>, jj: nat, start: nat)
    requires f.lda % BSIZE == 0 && start < f.lda && Adds(f, x, y, 0, f.lda, Seen(f.lda, jj, start, f.lda / BSIZE))
    ensures Adds(f, x, y, 0, f.lda, Rectangle(jj, jj + BSIZE, 0, f.lda))
  {
    hide Adds;
    AddsSame(f, x, y, 0, f.lda, Seen(f.lda, jj, start, f.lda / BSIZE), Rectangle(jj, jj + BSIZE, 0, f.lda));
  }

  lemma StepAround(s: nat, n: nat, m: nat)
    requires s < m && n < m
    ensures Around(BSIZE * At(s, n, m), BSIZE * m) == BSIZE * At(s, n + 1, m)
  {
    var k := At(s, n, m);
    if k + 1 < m {
      DivModUnique(BSIZE + BSIZE * k, BSIZE * m, 0, BSIZE + BSIZE * k);
    } else {
      DivModUnique(BSIZE + BSIZE * k, BSIZE * m, 1, 0);
    }
  }

  // ---------------------------------------------------------------------
  // All cores
  // ---------------------------------------------------------------------

  /** The rows of a core: every ncores-th block row. */
  predicate IsRowOf(coreid: nat, ncores: nat, j: nat)
    requires ncores > 0
  {
    j / BSIZE % ncores == coreid
  }

  function RowsBelow(coreid: nat, ncores: nat, end: nat): Region
    requires ncores > 0
  {
    (j: nat, i: nat) => IsRowOf(coreid, ncores, j) && j < end
  }

  method Matmul(coreid: nat, ncores: nat, f: Factors, c: array<int>) returns (ghost p: seq<Access>)
    requires coreid < ncores && Fits(f) && Square(f, c.Length)
    modifies c
    ensures Adds(f, old(c[..]), c[..], 0, f.lda, RowsBelow(coreid, ncores, f.lda))
    ensures IsCoreProgram(f, p, RowsBelow(coreid, ncores, f.lda))
  {
    hide Adds, RowsBelow, Rectangle, Traced, IsCoreProgram;
    var start := BSIZE * coreid;
    ghost var x, m, q := c[..], f.lda / BSIZE, 0;
    p := [];
    TracedNothing(f.lda, x, RowsBelow(coreid, ncores, f.lda));
    NoRowsYet(f, x, coreid, ncores);
    var jj := start;
    while jj < f.lda
      invariant jj == BSIZE * (coreid + q * ncores)
      invariant Adds(f, x, c[..], 0, f.lda, RowsBelow(coreid, ncores, jj))
      invariant Traced(f.lda, p, x, c[..], RowsBelow(coreid, ncores, f.lda))
    {
      ghost var y := c[..];
      StartInside(coreid, q, ncores, m);
      ghost var accesses := BlockRow(f, c, jj, start);
      TraceRows(f.lda, p, accesses, x, y, c[..], coreid, q, ncores);
      p := p + accesses;
      NextRows(f, x, y, c[..], coreid, q, ncores);
      jj := jj + BSIZE * ncores;
      q := q + 1;
    }
    LastRows(f, x, c[..], coreid, ncores, jj);
    TracedIsProgram(f, p, x, c[..], RowsBelow(coreid, ncores, f.lda));
  }

  lemma TraceRows(lda: nat, p: seq<Access>, more: seq<Access>, x: seq<int>, y: seq<int>, z: seq<int>, coreid: nat,
                  q: nat, ncores: nat)
    requires coreid < ncores && Traced(lda, p, x, y, RowsBelow(coreid, ncores, lda))
    requires var jj := BSIZE * (coreid + q * ncores); Traced(lda, more, y, z, Rectangle(jj, jj + BSIZE, 0, lda))
    ensures Traced(lda, p + more, x, z, RowsBelow(coreid, ncores, lda))
  {
    hide Traced, IsRowOf;
    var jj := BSIZE * (coreid + q * ncores);
    forall j: nat | jj <= j < jj + BSIZE
      ensures IsRowOf(coreid, ncores, j)
    {
      NextQ(q, ncores);
      OwnBlock(coreid, q, ncores, j);
    }
    TracedOn(lda, p, more, x, y, z, RowsBelow(coreid, ncores, lda), Rectangle(jj, jj + BSIZE, 0, lda));
  }

  lemma NextQ(q: nat, n: nat)
    requires n > 0
    ensures (q + 1) * n == q * n + n >= q * n + 1
  {
  }

  lemma NoRowsYet(f: Factors, x: seq<int>, coreid: nat, ncores: nat)
    requires coreid < ncores && Square(f, |x|)
    ensures Adds(f, x, x, 0, f.lda, RowsBelow(coreid, ncores, BSIZE * coreid))
  {
    hide Adds;
    forall j: nat | j < BSIZE * coreid
      ensures !IsRowOf(coreid, ncores, j)
    {
      DivModUnique(j / BSIZE, ncores, 0, j / BSIZE);
    }
    AddsNothing(f, x, 0, f.lda, RowsBelow(coreid, ncores, BSIZE * coreid));
  }

  lemma StartInside(coreid: nat, q: nat, ncores: nat, m: nat)
    requires BSIZE * (coreid + q * ncores) < BSIZE * m
    ensures coreid < m && BSIZE * (coreid + q * ncores) + BSIZE <= BSIZE * m
  {
    MulMonotone(0, q, ncores);
  }

  /** Of the block rows from the core's q-th to before its next, only the q-th is its own. */
  lemma OwnBlock(coreid: nat, q: nat, ncores: nat, j: nat)
    requires coreid < ncores
    requires BSIZE * (coreid + q * ncores) <= j < BSIZE * (coreid + (q + 1) * ncores)
    ensures IsRowOf(coreid, ncores, j) <==> j < BSIZE * (coreid + q * ncores) + BSIZE
  {
    var k := j / BSIZE;
    assert coreid + q * ncores <= k < coreid + (q + 1) * ncores;
    var r := k - q * ncores;
    if r < ncores {
      DivModUnique(k, ncores, q, r);
    } else {
      DivModUnique(k, ncores, q + 1, r - ncores);
    }
  }

  lemma NextRows(f: Factors, x: seq<int>, y: seq<int>, z: seq<int>, coreid: nat, q: nat, ncores: nat)
    requires coreid < ncores
    requires var jj := BSIZE * (coreid + q * ncores);
             Adds(f, x, y, 0, f.lda, RowsBelow(coreid, ncores, jj)) &&
             Adds(f, y, z, 0, f.lda, Rectangle(jj, jj + BSIZE, 0, f.lda))
    ensures Adds(f, x, z, 0, f.lda, RowsBelow(coreid, ncores, BSIZE * (coreid + (q + 1) * ncores)))
  {
    hide Adds, IsRowOf;
    var jj, next := BSIZE * (coreid + q * ncores), BSIZE * (coreid + (q + 1) * ncores);
    forall j: nat | jj <= j < next
      ensures IsRowOf(coreid, ncores, j) <==> j < jj + BSIZE
    {
      OwnBlock(coreid, q, ncores, j);
    }
    assert jj + BSIZE <= next;
    AddsBoth(f, x, y, z, 0, f.lda, RowsBelow(coreid, ncores, jj), Rectangle(jj, jj + BSIZE, 0, f.lda),
             RowsBelow(coreid, ncores, next));
  }

  lemma LastRows(f: Factors, x: seq<int>, y: seq<int>, coreid: nat, ncores: nat, jj: nat)
    requires ncores > 0 && f.lda <= jj && Adds(f, x, y, 0, f.lda, RowsBelow(coreid, ncores, jj))
    ensures Adds(f, x, y, 0, f.lda, RowsBelow(coreid, ncores, f.lda))
  {
    hide Adds, IsRowOf;
    AddsSame(f, x, y, 0, f.lda, RowsBelow(coreid, ncores, jj), RowsBelow(coreid, ncores, f.lda));
  }

  /** The rows of the cores in a list. */
  function RowsOf(cores: seq<nat>, ncores: nat): Region
    requires ncores > 0
  {
    (j: nat, i: nat) => j / BSIZE % ncores in cores
  }

  /** All cores: C = C0 + A * B, one after the other in any order or with their accesses interleaved in any way. */
  method AllCores(order: seq<nat>, ncores: nat, f: Factors, c: array<int>) returns (ghost programs: seq<seq<Access>>)
    requires Fits(f) && Square(f, c.Length) && ncores > 0
    requires forall t :: t in order <==> t < ncores
    requires forall s, t :: 0 <= s < t < |order| ==> order[s] != order[t]
    modifies c
    ensures IsProductAdded(f, old(c[..]), c[..])
    ensures |programs| == ncores && Inside(programs, |old(c[..])|)
    ensures forall schedule :: Done(programs, After(programs, old(c[..]), schedule)) ==>
              IsProductAdded(f, old(c[..]), After(programs, old(c[..]), schedule).memory)
  {
    hide Adds, RowsBelow, IsProductAdded, Fits, IsCoreProgram, Shared, Inside, Done, After;
    ghost var x := c[..];
    programs := seq(ncores, _ => []);
    AddsNothing(f, x, 0, f.lda, RowsOf([], ncores));
    assert order[..0] == [];
    for n := 0 to |order|
      invariant Adds(f, x, c[..], 0, f.lda, RowsOf(order[..n], ncores))
      invariant |programs| == ncores
      invariant forall t: nat :: t < ncores && t in order[..n] ==>
                 IsCoreProgram(f, programs[t], RowsBelow(t, ncores, f.lda))
    {
      ghost var y := c[..];
      assert order[n] in order && order[n] !in order[..n];
      ghost var p := Matmul(order[n], ncores, f, c);
      programs := programs[order[n] := p];
      MoreCores(f, x, y, c[..], order[..n], order[n], ncores);
      assert order[..n + 1] == order[..n] + [order[n]];
    }
    assert order[..|order|] == order;
    EveryRow(f, x, c[..], order, ncores);
    ghost var regions := Regions(ncores, f.lda);
    RegionsShared(ncores, f.lda);
    EveryInterleaving(f, programs, regions, x, []);
    forall schedule
      ensures Done(programs, After(programs, x, schedule)) ==> IsProductAdded(f, x, After(programs, x, schedule).memory)
    {
      EveryInterleaving(f, programs, regions, x, schedule);
    }
  }

  function Regions(ncores: nat, lda: nat): (r: seq<Region>)
    requires ncores > 0
    ensures |r| == ncores && forall t: nat :: t < ncores ==> r[t] == RowsBelow(t, ncores, lda)
  {
    seq(ncores, (t: nat) => RowsBelow(t, ncores, lda))
  }

  lemma RegionsShared(ncores: nat, lda: nat)
    requires ncores > 0
    ensures Shared(lda, Regions(ncores, lda))
  {
    forall j: nat, i: nat | j < lda && i < lda
      ensures Owned(Regions(ncores, lda), j, i)
    {
      assert ElementOf(Regions(ncores, lda), j / BSIZE % ncores, j, i);
    }
  }

  lemma MoreCores(f: Factors, x: seq<int>, y: seq<int>, z: seq<int>, cores: seq<nat>, t: nat, ncores: nat)
    requires ncores > 0 && t !in cores
    requires Adds(f, x, y, 0, f.lda, RowsOf(cores, ncores)) && Adds(f, y, z, 0, f.lda, RowsBelow(t, ncores, f.lda))
    ensures Adds(f, x, z, 0, f.lda, RowsOf(cores + [t], ncores))
  {
    hide Adds;
    AddsBoth(f, x, y, z, 0, f.lda, RowsOf(cores, ncores), RowsBelow(t, ncores, f.lda), RowsOf(cores + [t], ncores));
  }

  lemma EveryRow(f: Factors, x: seq<int>, y: seq<int>, order: seq<nat>, ncores: nat)
    requires ncores > 0 && (forall t :: t in order <==> t < ncores)
    requires Adds(f, x, y, 0, f.lda, RowsOf(order, ncores))
    ensures IsProductAdded(f, x, y)
  {
    hide Adds;
    WholeIsProduct(f, x, y, RowsOf(order, ncores));
  }
}
