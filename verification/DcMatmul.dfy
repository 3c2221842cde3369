// dc_matmul.c: 32 x 32 matrices on two cores, each with half the rows, going through the halves
// of k in opposite order; anything else is left to core 0, element by element.

module DcMatmul {
  import opened DivMod
  import opened Interleaving
  import opened Matrix
  import opened TiledProduct

  const REG_I: nat := 8
  const REG_J: nat := 2
  const BLOCK_J: nat := 16
  const BLOCK_K: nat := 16
  const LDA: nat := 32
  const NCORES: nat := 2

  function Min(x: nat, y: nat): nat {
    if x < y then x else y
  }

  /** A register block: REG_J rows by REG_I columns, the terms kk .. kk + BLOCK_K - 1. */
  method Tile(f: Factors, c: array<int>, j: nat, i: nat, kk: nat) returns (ghost p: seq<Access>)
    requires Square(f, c.Length) && f.lda == LDA && j + REG_J <= LDA && i + REG_I <= LDA && kk + BLOCK_K <= LDA
    modifies c
    ensures Adds(f, old(c[..]), c[..], kk, kk + BLOCK_K, Rectangle(j, j + REG_J, i, i + REG_I))
    ensures Traced(LDA, p, old(c[..]), c[..], Rectangle(j, j + REG_J, i, i + REG_I))
  {
    hide Traced, AreLoads, HoldsAll, Adds, Rectangle, Entry, Dot, Square, Ix;
    var acc := new int[REG_J, REG_I];
    p := LoadTile(f, c, acc, j, i, kk);
    var k := kk;
    while k < Min(LDA, kk + BLOCK_K)
      invariant kk <= k <= kk + BLOCK_K && c[..] == old(c[..]) && HoldsAll(f, c[..], acc, j, i, kk, k)
    {
      AddTerms(f, acc, j, i, k, Ix(LDA, k, i), c[..], kk, k);
      k := k + 1;
    }
    p := StoreTile(f, c, acc, j, i, kk, kk + BLOCK_K, p);
  }

  /** One block of rows and of k. */
  method Block(f: Factors, c: array<int>, jj: nat, end: nat, kk: nat) returns (ghost p: seq<Access>)
    requires Square(f, c.Length) && f.lda == LDA && jj + BLOCK_J <= end <= LDA && kk + BLOCK_K <= LDA
    modifies c
    ensures Adds(f, old(c[..]), c[..], kk, kk + BLOCK_K, Rectangle(jj, jj + BLOCK_J, 0, LDA))
    ensures Traced(LDA, p, old(c[..]), c[..], Rectangle(jj, jj + BLOCK_J, 0, LDA))
  {
    hide Adds, Rectangle, Square, Traced;
    p := [];
    TracedNothing(LDA, c[..], Rectangle(jj, jj + BLOCK_J, 0, LDA));
    ghost var x, hi := c[..], kk + BLOCK_K;
    NoRows(f, x, kk, hi, jj, 0, LDA);
    var j := jj;
    while j < Min(end, jj + BLOCK_J)
      invariant jj <= j <= jj + BLOCK_J && (j - jj) % REG_J == 0
      invariant Adds(f, x, c[..], kk, hi, Rectangle(jj, j, 0, LDA))
      invariant Traced(LDA, p, x, c[..], Rectangle(jj, jj + BLOCK_J, 0, LDA))
    {
      ghost var y := c[..];
      NoColumns(f, y, kk, hi, j, j + REG_J, 0);
      var i := 0;
      while i < LDA
        invariant i <= LDA && i % REG_I == 0 && Adds(f, y, c[..], kk, hi, Rectangle(j, j + REG_J, 0, i))
        invariant Traced(LDA, p, x, c[..], Rectangle(jj, jj + BLOCK_J, 0, LDA))
      {
        ghost var z := c[..];
        ghost var q := Tile(f, c, j, i, kk);
        TracedPart(LDA, p, q, x, z, c[..], (jj, jj + BLOCK_J, 0, LDA), (j, j + REG_J, i, i + REG_I));
        p := p + q;
        SideBySide(f, y, z, c[..], kk, hi, j, j + REG_J, 0, i, i + REG_I);
        i := i + REG_I;
      }
      OneAboveOther(f, x, y, c[..], kk, hi, jj, j, j + REG_J, 0, LDA);
      j := j + REG_J;
    }
  }

  /** A core's rows, the terms of one half of k. */
  method Pass(f: Factors, c: array<int>, start: nat, end: nat, kkStart: nat, kkEnd: nat) returns (ghost p: seq<Access>)
    requires Square(f, c.Length) && f.lda == LDA && end == start + BLOCK_J <= LDA && kkEnd == kkStart + BLOCK_K <= LDA
    modifies c
    ensures Adds(f, old(c[..]), c[..], kkStart, kkEnd, Rectangle(start, end, 0, LDA))
    ensures Traced(LDA, p, old(c[..]), c[..], Rectangle(start, end, 0, LDA))
  {
    hide Adds, Rectangle, Square, Traced;
    p := [];
    TracedNothing(LDA, c[..], Rectangle(start, end, 0, LDA));
    ghost var x := c[..];
    var jj := start;
    while jj < end
      invariant (jj == start && c[..] == x) ||
                (jj == end && Adds(f, x, c[..], kkStart, kkEnd, Rectangle(start, end, 0, LDA)))
      invariant Traced(LDA, p, x, c[..], Rectangle(start, end, 0, LDA))
    {
      var kk := kkStart;
      while kk < kkEnd
        invariant (kk == kkStart && c[..] == x) ||
                  (kk == kkEnd && Adds(f, x, c[..], kkStart, kkEnd, Rectangle(start, end, 0, LDA)))
        invariant Traced(LDA, p, x, c[..], Rectangle(start, end, 0, LDA))
      {
        ghost var y := c[..];
        ghost var q := Block(f, c, jj, end, kk);
        TracedPart(LDA, p, q, x, y, c[..], (start, end, 0, LDA), (jj, jj + BLOCK_J, 0, LDA));
        p := p + q;
        kk := kk + BLOCK_K;
      }
      jj := jj + BLOCK_J;
    }
  }

  /** The other case: core 0 alone. */
  method Naive(f: Factors, c: array<int>) returns (ghost p: seq<Access>)
    requires Square(f, c.Length)
    modifies c
    ensures Adds(f, old(c[..]), c[..], 0, f.lda, Rectangle(0, f.lda, 0, f.lda))
    ensures Traced(f.lda, p, old(c[..]), c[..], Rectangle(0, f.lda, 0, f.lda))
  {
    hide Adds, Rectangle, Square, Traced;
    p := [];
    TracedNothing(f.lda, c[..], Rectangle(0, f.lda, 0, f.lda));
    ghost var x, lda := c[..], f.lda;
    NoColumns(f, x, 0, lda, 0, lda, 0);
    for i := 0 to f.lda
      invariant Adds(f, x, c[..], 0, lda, Rectangle(0, lda, 0, i))
      invariant Traced(lda, p, x, c[..], Rectangle(0, lda, 0, lda))
    {
      ghost var y := c[..];
      NoRows(f, y, 0, lda, 0, i, i + 1);
      for j := 0 to f.lda
        invariant Adds(f, y, c[..], 0, lda, Rectangle(0, j, i, i + 1))
        invariant Traced(lda, p, x, c[..], Rectangle(0, lda, 0, lda))
      {
        ghost var z := c[..];
        ghost var q := Element(f, c, j, i);
        TracedPart(lda, p, q, x, z, c[..], (0, lda, 0, lda), (j, j + 1, i, i + 1));
        p := p + q;
        OneAboveOther(f, y, z, c[..], 0, lda, 0, j, j + 1, i, i + 1);
      }
      SideBySide(f, x, y, c[..], 0, lda, 0, lda, 0, i, i + 1);
    }
  }

  method Element(f: Factors, c: array<int>, j: nat, i: nat) returns (ghost p: seq<Access>)
    requires Square(f, c.Length) && j < f.lda && i < f.lda
    modifies c
    ensures Adds(f, old(c[..]), c[..], 0, f.lda, Rectangle(j, j + 1, i, i + 1))
    ensures Traced(f.lda, p, old(c[..]), c[..], Rectangle(j, j + 1, i, i + 1))
  {
    hide Adds, Rectangle, Dot, Ix, Entry, Traced;
    p := [];
    TracedNothing(f.lda, c[..], Rectangle(j, j + 1, i, i + 1));
    ghost var x, lda := c[..], f.lda;
    IxInside(lda, j, i);
    var at := Ix(f.lda, j, i);
    assert x[at := x[at]] == x;
    for k := 0 to f.lda
      invariant c[..] == x[at := x[at] + f.Terms(j, i, 0, k)]
      invariant Traced(lda, p, x, c[..], Rectangle(j, j + 1, i, i + 1))
    {
      TermsStep(f, j, i, 0, k);
      ghost var y := c[..];
      c[at] := c[at] + f.a[Ix(f.lda, j, k)] * f.b[Ix(f.lda, k, i)];
      assert c[..] == y[at := y[at] + f.a[Ix(lda, j, k)] * f.b[Ix(lda, k, i)]];
      LoadThenStore(lda, p, x, y, j, i, f.a[Ix(lda, j, k)] * f.b[Ix(lda, k, i)]);
      p := p + [Load(at)] + [Store(at, f.a[Ix(lda, j, k)] * f.b[Ix(lda, k, i)])];
    }
    ElementAdded(f, x, c[..], j, i);
  }

  lemma LoadThenStore(lda: nat, p: seq<Access>, x: seq<int>, y: seq<int>, j: nat, i: nat, term: int)
    requires j < lda && i < lda && Ix(lda, j, i) < |y| && Traced(lda, p, x, y, Rectangle(j, j + 1, i, i + 1))
    ensures var at := Ix(lda, j, i);
            Traced(lda, p + [Load(at)] + [Store(at, term)], x, y[at := y[at] + term], Rectangle(j, j + 1, i, i + 1))
  {
    hide Ix, Turns, Fresh;
    var at := Ix(lda, j, i);
    TurnsLoad(p, x, y, at);
    FreshNext(p, Load(at), at);
    TurnsStore(p + [Load(at)], x, y, at, term);
    assert InRegion(lda, Rectangle(j, j + 1, i, i + 1), at);
  }

  lemma ElementAdded(f: Factors, x: seq<int>, y: seq<int>, j: nat, i: nat)
    requires Square(f, |x|) && j < f.lda && i < f.lda && Ix(f.lda, j, i) < |x|
    requires y == x[Ix(f.lda, j, i) := x[Ix(f.lda, j, i)] + f.Terms(j, i, 0, f.lda)]
    ensures Adds(f, x, y, 0, f.lda, Rectangle(j, j + 1, i, i + 1))
  {
    hide Adds, Dot;
    var none := Rectangle(j, j, i, i);
    NoRows(f, x, 0, f.lda, j, i, i);
    AddsOne(f, x, x, 0, f.lda, none, j, i, x[Ix(f.lda, j, i)] + f.Terms(j, i, 0, f.lda));
    AddsSame(f, x, y, 0, f.lda, Plus(none, j, i), Rectangle(j, j + 1, i, i + 1));
  }

  // ---------------------------------------------------------------------
  // All cores
  // ---------------------------------------------------------------------

  /** The rows of a core. */
  function RowsOf(coreid: nat, ncores: nat, lda: nat): Region {
    (j: nat, i: nat) =>
      if ncores == NCORES && lda == LDA then coreid * (LDA / NCORES) <= j < (coreid + 1) * (LDA / NCORES)
      else coreid == 0
  }

  method Matmul(coreid: nat, ncores: nat, f: Factors, c: array<int>) returns (ghost p: seq<Access>)
    requires coreid < ncores && Square(f, c.Length)
    modifies c
    ensures Adds(f, old(c[..]), c[..], 0, f.lda, RowsOf(coreid, ncores, f.lda))
    ensures IsCoreProgram(f, p, RowsOf(coreid, ncores, f.lda))
  {
    hide Adds, Square, Traced, IsCoreProgram;
    ghost var x, mine := c[..], RowsOf(coreid, ncores, f.lda);
    p := [];
    TracedNothing(f.lda, x, mine);
    var start := coreid * (LDA / NCORES);
    var end := if coreid == NCORES - 1 then LDA else (coreid + 1) * (LDA / NCORES);
    if ncores == NCORES && f.lda == LDA {
      p := Pass(f, c, start, end, if coreid == 0 then 0 else LDA / 2, if coreid == 0 then LDA / 2 else LDA);
      ghost var y := c[..];
      ghost var q := Pass(f, c, start, end, if coreid != 0 then 0 else LDA / 2, if coreid != 0 then LDA / 2 else LDA);
      TracedPart(LDA, p, q, x, y, c[..], (start, end, 0, LDA), (start, end, 0, LDA));
      p := p + q;
      TracedWiden(LDA, p, x, c[..], Rectangle(start, end, 0, LDA), mine);
      AddsMore(f, x, y, c[..], 0, LDA / 2, LDA, Rectangle(start, end, 0, LDA));
      AddsSame(f, x, c[..], 0, f.lda, Rectangle(start, end, 0, LDA), RowsOf(coreid, ncores, f.lda));
    } else if coreid > 0 {
      NoRows(f, x, 0, f.lda, 0, 0, 0);
      AddsSame(f, x, x, 0, f.lda, Rectangle(0, 0, 0, 0), RowsOf(coreid, ncores, f.lda));
    } else {
      p := Naive(f, c);
      TracedWiden(f.lda, p, x, c[..], Rectangle(0, f.lda, 0, f.lda), mine);
      AddsSame(f, x, c[..], 0, f.lda, Rectangle(0, f.lda, 0, f.lda), RowsOf(coreid, ncores, f.lda));
    }
    TracedIsProgram(f, p, x, c[..], mine);
  }

  /** The rows of the cores in a list. */
  function RowsOfAll(cores: seq<nat>, ncores: nat, lda: nat): Region {
    (j: nat, i: nat) => (if ncores == NCORES && lda == LDA then j / (LDA / NCORES) else 0) in cores
  }

  /** All cores: C = C0 + A * B, whatever the size, one after the other in any order or with their accesses interleaved
      in any way. */
  method AllCores(order: seq<nat>, ncores: nat, f: Factors, c: array<int>) returns (ghost programs: seq<seq<Access>>)
    requires Square(f, c.Length) && ncores > 0
    requires forall t :: t in order <==> t < ncores
    requires forall s, t :: 0 <= s < t < |order| ==> order[s] != order[t]
    modifies c
    ensures IsProductAdded(f, old(c[..]), c[..])
    ensures |programs| == ncores && Inside(programs, |old(c[..])|)
    ensures forall schedule :: Done(programs, After(programs, old(c[..]), schedule)) ==>
              IsProductAdded(f, old(c[..]), After(programs, old(c[..]), schedule).memory)
  {
    hide IsCoreProgram, Shared, Inside, Done, After;
    programs := seq(ncores, _ => []);
    hide Adds, RowsOf, RowsOfAll, IsProductAdded, Square;
    ghost var x := c[..];
    NoCores(f, x, ncores);
    assert order[..0] == [];
    for n := 0 to |order|
      invariant Adds(f, x, c[..], 0, f.lda, RowsOfAll(order[..n], ncores, f.lda))
      invariant |programs| == ncores
      invariant forall t: nat :: t < ncores && t in order[..n] ==>
                 IsCoreProgram(f, programs[t], RowsOf(t, ncores, f.lda))
    {
      ghost var y := c[..];
      assert order[n] in order && order[n] !in order[..n];
      ghost var p := Matmul(order[n], ncores, f, c);
      programs := programs[order[n] := p];
      MoreCores(f, x, y, c[..], order[..n], order[n], ncores);
      assert order[..n + 1] == order[..n] + [order[n]];
    }
    assert order[..|order|] == order;
    EveryRow(f, x, c[..], order, ncores);
    ghost var regions := Regions(ncores, f.lda);
    RegionsShared(ncores, f.lda);
    EveryInterleaving(f, programs, regions, x, []);
    forall schedule
      ensures Done(programs, After(programs, x, schedule)) ==> IsProductAdded(f, x, After(programs, x, schedule).memory)
    {
      EveryInterleaving(f, programs, regions, x, schedule);
    }
  }

  function Regions(ncores: nat, lda: nat): (r: seq<Region>)
    ensures |r| == ncores && forall t: nat :: t < ncores ==> r[t] == RowsOf(t, ncores, lda)
  {
    seq(ncores, (t: nat) => RowsOf(t, ncores, lda))
  }

  lemma RegionsShared(ncores: nat, lda: nat)
    requires ncores > 0
    ensures Shared(lda, Regions(ncores, lda))
  {
    forall j: nat, i: nat | j < lda && i < lda
      ensures Owned(Regions(ncores, lda), j, i)
    {
      assert ElementOf(Regions(ncores, lda), if ncores == NCORES && lda == LDA then j / (LDA / NCORES) else 0, j, i);
    }
  }

  lemma NoCores(f: Factors, x: seq<int>, ncores: nat)
    requires Square(f, |x|)
    ensures Adds(f, x, x, 0, f.lda, RowsOfAll([], ncores, f.lda))
  {
    AddsNothing(f, x, 0, f.lda, RowsOfAll([], ncores, f.lda));
  }

  lemma MoreCores(f: Factors, x: seq<int>, y: seq<int>, z: seq<int>, cores: seq<nat>, t: nat, ncores: nat)
    requires t < ncores && t !in cores
    requires Adds(f, x, y, 0, f.lda, RowsOfAll(cores, ncores, f.lda))
    requires Adds(f, y, z, 0, f.lda, RowsOf(t, ncores, f.lda))
    ensures Adds(f, x, z, 0, f.lda, RowsOfAll(cores + [t], ncores, f.lda))
  {
    hide Adds;
    AddsBoth(f, x, y, z, 0, f.lda, RowsOfAll(cores, ncores, f.lda), RowsOf(t, ncores, f.lda),
             RowsOfAll(cores + [t], ncores, f.lda));
  }

  lemma EveryRow(f: Factors, x: seq<int>, y: seq<int>, order: seq<nat>, ncores: nat)
    requires ncores > 0 && (forall t :: t in order <==> t < ncores)
    requires Adds(f, x, y, 0, f.lda, RowsOfAll(order, ncores, f.lda))
    ensures IsProductAdded(f, x, y)
  {
    hide Adds;
    WholeIsProduct(f, x, y, RowsOfAll(order, ncores, f.lda));
  }
}
