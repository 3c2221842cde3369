// bh_matmul.c: core 0 takes the upper half of the rows of C, ascending; core 1 the lower half,
// descending, as if in a mirror. Each goes through the halves of k one after the other.

module BhMatmul {
  import opened DivMod
  import opened Interleaving
  import opened Matrix
  import opened TiledProduct

  /** What the strides of the loops need. */
  predicate Fits(f: Factors) {
    f.lda % 8 == 0
  }

  /** m*lda/2, where half m of k begins. */
  function HalfStart(lda: nat, m: nat): nat {
    m * lda / 2
  }

  /** m*lda*lda/2, the index in B the source gives its first row. */
  function HalfRow(lda: nat, m: nat): nat {
    m * lda * lda / 2
  }

  lemma HalfOf(f: Factors, m: nat)
    requires Fits(f) && m < 2
    ensures HalfStart(f.lda, m + 1) == HalfStart(f.lda, m) + 2 * (f.lda / 4) <= f.lda
    ensures HalfRow(f.lda, m) == Ix(f.lda, HalfStart(f.lda, m), 0)
  {
    hide HalfStart, HalfRow, Ix;
    Halves(f);
    HalfIsEven(f.lda);
    FirstRow(f, m);
  }

  lemma HalfIsEven(lda: nat)
    requires lda % 8 == 0
    ensures lda / 2 == 2 * (lda / 4) && lda == 2 * (lda / 2)
  {
    var q := lda / 8;
    DivModUnique(lda, 2, 4 * q, 0);
    DivModUnique(lda, 4, 2 * q, 0);
  }

  lemma Eighths(f: Factors)
    requires Fits(f)
    ensures f.lda == 8 * (f.lda / 8)
  {
  }

  lemma FirstRow(f: Factors, m: nat)
    requires Fits(f) && m < 2
    ensures HalfRow(f.lda, m) == Ix(f.lda, HalfStart(f.lda, m), 0)
  {
    HalfIsEven(f.lda);
    if m == 1 {
      TwiceHalf(f.lda / 2);
    }
  }

  /** The next rows of B. */
  lemma NextRow(lda: nat, k: nat, i: nat)
    ensures Ix(lda, k + 1, i) == Ix(lda, k, i) + lda && Ix(lda, k, i) == Ix(lda, k, 0) + i
  {
  }

  lemma TwiceHalf(h: nat)
    ensures 1 * (2 * h) * (2 * h) / 2 == h * (2 * h)
  {
    assert (2 * h) * (2 * h) == (h * (2 * h)) * 2;
    DivModUnique((2 * h) * (2 * h), 2, h * (2 * h), 0);
  }

  lemma Halves(f: Factors)
    requires Fits(f)
    ensures HalfStart(f.lda, 0) == 0 && HalfStart(f.lda, 1) == f.lda / 2 && HalfStart(f.lda, 2) == f.lda
  {
  }

  /** One row by eight columns, ascending through a half of k, two terms at a time. */
  method TileUp(f: Factors, c: array<int>, j: nat, i: nat, m: nat) returns (ghost p: seq<Access>)
    requires Square(f, c.Length) && Fits(f) && j < f.lda && i + 8 <= f.lda && m < 2
    modifies c
    ensures Adds(f, old(c[..]), c[..], HalfStart(f.lda, m), HalfStart(f.lda, m + 1), Rectangle(j, j + 1, i, i + 8))
    ensures Traced(f.lda, p, old(c[..]), c[..], Rectangle(j, j + 1, i, i + 8))
  {
    hide Traced, AreLoads, HoldsAll, Adds, Rectangle, Entry, Dot, Square, HalfStart, HalfRow, Ix;
    HalfOf(f, m);
    ghost var lo, hi := HalfStart(f.lda, m), HalfStart(f.lda, m + 1);
    var acc := new int[1, 8];
    p := LoadTile(f, c, acc, j, i, lo);
    var iB0 := HalfRow(f.lda, m) + i;
    var iB1 := iB0 + f.lda;
    NextRow(f.lda, lo, i);
    var k := HalfStart(f.lda, m);
    var end := HalfStart(f.lda, m + 1);
    ghost var q := 0;
    while k < end
      invariant k == lo + 2 * q <= hi && iB0 == Ix(f.lda, k, i) && iB1 == Ix(f.lda, k + 1, i)
      invariant c[..] == old(c[..]) && HoldsAll(f, c[..], acc, j, i, lo, k)
    {
      NextRow(f.lda, k, i);
      NextRow(f.lda, k + 1, i);
      NextRow(f.lda, k + 2, i);
      AddTerms(f, acc, j, i, k, iB0, c[..], lo, k);
      AddTerms(f, acc, j, i, k + 1, iB1, c[..], lo, k + 1);
      iB0 := iB0 + 2 * f.lda;
      iB1 := iB1 + 2 * f.lda;
      k := k + 2;
      q := q + 1;
    }
    p := StoreTile(f, c, acc, j, i, lo, hi, p);
  }

  /** The mirror image: columns i - 7 .. i, descending through half m - 1 of k. */
  method TileDown(f: Factors, c: array<int>, j: nat, i: nat, m: nat) returns (ghost p: seq<Access>)
    requires Square(f, c.Length) && Fits(f) && j < f.lda && 7 <= i < f.lda && 1 <= m <= 2
    modifies c
    ensures Adds(f, old(c[..]), c[..], HalfStart(f.lda, m - 1), HalfStart(f.lda, m), Rectangle(j, j + 1, i - 7, i + 1))
    ensures Traced(f.lda, p, old(c[..]), c[..], Rectangle(j, j + 1, i - 7, i + 1))
  {
    hide Traced, AreLoads, HoldsAll, Adds, Rectangle, Entry, Dot, Square, HalfStart, HalfRow, Ix;
    HalfOf(f, m - 1);
    ghost var lo, hi := HalfStart(f.lda, m - 1), HalfStart(f.lda, m);
    var acc := new int[1, 8];
    p := LoadTile(f, c, acc, j, i - 7, hi);
    var k := HalfStart(f.lda, m) - 1;
    var end := HalfStart(f.lda, m - 1);
    ghost var left := f.lda / 4;
    while k >= end
      invariant lo - 1 <= k == lo + 2 * left - 1 < hi
      invariant c[..] == old(c[..]) && HoldsAll(f, c[..], acc, j, i - 7, k + 1, hi)
      decreases k - end
    {
      AddTerms(f, acc, j, i - 7, k, Ix(f.lda, k, i - 7), c[..], k + 1, hi);
      AddTerms(f, acc, j, i - 7, k - 1, Ix(f.lda, k - 1, i - 7), c[..], k, hi);
      k := k - 2;
      left := left - 1;
    }
    p := StoreTile(f, c, acc, j, i - 7, lo, hi, p);
  }

  /** Core 0: rows 0 .. lda / 2 - 1. */
  method Upper(f: Factors, c: array<int>) returns (ghost p: seq<Access>)
    requires Square(f, c.Length) && Fits(f)
    modifies c
    ensures Adds(f, old(c[..]), c[..], 0, f.lda, Rectangle(0, f.lda / 2, 0, f.lda))
    ensures Traced(f.lda, p, old(c[..]), c[..], Rectangle(0, f.lda / 2, 0, f.lda))
  {
    hide Adds, Rectangle, Square, Fits, HalfStart, Traced;
    ghost var x := c[..];
    p := UpperPass(f, c, 0);
    ghost var y := c[..];
    ghost var q := UpperPass(f, c, 1);
    TracedPart(f.lda, p, q, x, y, c[..], (0, f.lda / 2, 0, f.lda), (0, f.lda / 2, 0, f.lda));
    p := p + q;
    Halves(f);
    AddsMore(f, x, y, c[..], 0, f.lda / 2, f.lda, Rectangle(0, f.lda / 2, 0, f.lda));
  }

  method UpperPass(f: Factors, c: array<int>, m: nat) returns (ghost p: seq<Access>)
    requires Square(f, c.Length) && Fits(f) && m < 2
    modifies c
    ensures Adds(f, old(c[..]), c[..], HalfStart(f.lda, m), HalfStart(f.lda, m + 1), Rectangle(0, f.lda / 2, 0, f.lda))
    ensures Traced(f.lda, p, old(c[..]), c[..], Rectangle(0, f.lda / 2, 0, f.lda))
  {
    hide Adds, Rectangle, Square, HalfStart, Traced, Fits;
    Eighths(f);
    ghost var x, lo, hi := c[..], HalfStart(f.lda, m), HalfStart(f.lda, m + 1);
    NoRows(f, x, lo, hi, 0, 0, f.lda);
    p := [];
    TracedNothing(f.lda, x, Rectangle(0, f.lda / 2, 0, f.lda));
    for j := 0 to f.lda / 2
      invariant Adds(f, x, c[..], lo, hi, Rectangle(0, j, 0, f.lda))
      invariant Traced(f.lda, p, x, c[..], Rectangle(0, f.lda / 2, 0, f.lda))
    {
      ghost var y := c[..];
      NoColumns(f, y, lo, hi, j, j + 1, 0);
      var i := 0;
      ghost var n := 0;
      while i < f.lda
        invariant i == 8 * n <= f.lda && Adds(f, y, c[..], lo, hi, Rectangle(j, j + 1, 0, i))
        invariant Traced(f.lda, p, x, c[..], Rectangle(0, f.lda / 2, 0, f.lda))
      {
        ghost var z := c[..];
        ghost var q := TileUp(f, c, j, i, m);
        TracedPart(f.lda, p, q, x, z, c[..], (0, f.lda / 2, 0, f.lda), (j, j + 1, i, i + 8));
        p := p + q;
        SideBySide(f, y, z, c[..], lo, hi, j, j + 1, 0, i, i + 8);
        i := i + 8;
        n := n + 1;
      }
      OneAboveOther(f, x, y, c[..], lo, hi, 0, j, j + 1, 0, f.lda);
    }
  }

  /** Core 1: rows lda - 1 down to lda / 2. */
  method Lower(f: Factors, c: array<int>) returns (ghost p: seq<Access>)
    requires Square(f, c.Length) && Fits(f)
    modifies c
    ensures Adds(f, old(c[..]), c[..], 0, f.lda, Rectangle(f.lda / 2, f.lda, 0, f.lda))
    ensures Traced(f.lda, p, old(c[..]), c[..], Rectangle(f.lda / 2, f.lda, 0, f.lda))
  {
    hide Adds, Rectangle, Square, Fits, HalfStart, Traced;
    ghost var x := c[..];
    p := LowerPass(f, c, 2);
    ghost var y := c[..];
    ghost var q := LowerPass(f, c, 1);
    TracedPart(f.lda, p, q, x, y, c[..], (f.lda / 2, f.lda, 0, f.lda), (f.lda / 2, f.lda, 0, f.lda));
    p := p + q;
    Halves(f);
    AddsMore(f, x, y, c[..], 0, f.lda / 2, f.lda, Rectangle(f.lda / 2, f.lda, 0, f.lda));
  }

  method LowerPass(f: Factors, c: array<int>, m: nat) returns (ghost p: seq<Access>)
    requires Square(f, c.Length) && Fits(f) && 1 <= m <= 2
    modifies c
    ensures Adds(f, old(c[..]), c[..], HalfStart(f.lda, m - 1), HalfStart(f.lda, m),
                 Rectangle(f.lda / 2, f.lda, 0, f.lda))
    ensures Traced(f.lda, p, old(c[..]), c[..], Rectangle(f.lda / 2, f.lda, 0, f.lda))
  {
    hide Adds, Rectangle, Square, HalfStart, Traced, Fits;
    Eighths(f);
    ghost var x, lo, hi := c[..], HalfStart(f.lda, m - 1), HalfStart(f.lda, m);
    NoRows(f, x, lo, hi, f.lda, 0, f.lda);
    p := [];
    TracedNothing(f.lda, x, Rectangle(f.lda / 2, f.lda, 0, f.lda));
    var j := f.lda - 1;
    while j >= f.lda / 2
      invariant f.lda / 2 - 1 <= j < f.lda && Adds(f, x, c[..], lo, hi, Rectangle(j + 1, f.lda, 0, f.lda))
      invariant Traced(f.lda, p, x, c[..], Rectangle(f.lda / 2, f.lda, 0, f.lda))
      decreases j
    {
      ghost var y := c[..];
      NoColumns(f, y, lo, hi, j, j + 1, f.lda);
      var i := f.lda - 1;
      ghost var n := f.lda / 8;
      while i >= 0
        invariant -1 <= i == 8 * n - 1 < f.lda && Adds(f, y, c[..], lo, hi, Rectangle(j, j + 1, i + 1, f.lda))
        invariant Traced(f.lda, p, x, c[..], Rectangle(f.lda / 2, f.lda, 0, f.lda))
        decreases i
      {
        ghost var z := c[..];
        ghost var q := TileDown(f, c, j, i, m);
        TracedPart(f.lda, p, q, x, z, c[..], (f.lda / 2, f.lda, 0, f.lda), (j, j + 1, i - 7, i + 1));
        p := p + q;
        SideBySide(f, y, z, c[..], lo, hi, j, j + 1, i - 7, i + 1, f.lda);
        i := i - 8;
        n := n - 1;
      }
      OneAboveOther(f, x, y, c[..], lo, hi, j, j + 1, f.lda, 0, f.lda);
      j := j - 1;
    }
  }

  // ---------------------------------------------------------------------
  // All cores
  // ---------------------------------------------------------------------

  /** The rows a core works on; cores past the second do nothing, and a single core does all. */
  function RowsOf(coreid: nat, ncores: nat, lda: nat): Region {
    (j: nat, i: nat) => (coreid == 0 && j < lda / 2) || ((coreid == 1 || (coreid == 0 && ncores == 1)) && lda / 2 <= j)
  }

  method Matmul(coreid: nat, ncores: nat, f: Factors, c: array<int>) returns (ghost p: seq<Access>)
    requires coreid < ncores && Square(f, c.Length) && Fits(f)
    modifies c
    ensures Adds(f, old(c[..]), c[..], 0, f.lda, RowsOf(coreid, ncores, f.lda))
    ensures IsCoreProgram(f, p, RowsOf(coreid, ncores, f.lda))
  {
    hide Adds, Square, Fits, Traced, IsCoreProgram;
    ghost var x, mine := c[..], RowsOf(coreid, ncores, f.lda);
    p := [];
    TracedNothing(f.lda, x, mine);
    if coreid > 1 {
      SquareLength(f, c.Length);
      AddsNothing(f, x, 0, f.lda, RowsOf(coreid, ncores, f.lda));
      TracedIsProgram(f, p, x, c[..], mine);
      return;
    }
    NoRows(f, x, 0, f.lda, 0, 0, f.lda);
    if coreid == 0 {
      ghost var q := Upper(f, c);
      TracedOn(f.lda, p, q, x, x, c[..], mine, Rectangle(0, f.lda / 2, 0, f.lda));
      p := p + q;
    }
    ghost var y := c[..];
    NoRows(f, y, 0, f.lda, f.lda, 0, f.lda);
    if coreid == 1 || ncores == 1 {
      ghost var q := Lower(f, c);
      TracedOn(f.lda, p, q, x, y, c[..], mine, Rectangle(f.lda / 2, f.lda, 0, f.lda));
      p := p + q;
    }
    AddsBoth(f, x, y, c[..], 0, f.lda,
             if coreid == 0 then Rectangle(0, f.lda / 2, 0, f.lda) else Rectangle(0, 0, 0, f.lda),
             if coreid == 1 || ncores == 1 then Rectangle(f.lda / 2, f.lda, 0, f.lda)
             else Rectangle(f.lda, f.lda, 0, f.lda),
             RowsOf(coreid, ncores, f.lda));
    TracedIsProgram(f, p, x, c[..], mine);
  }

  lemma SquareLength(f: Factors, n: nat)
    requires Square(f, n)
    ensures n == f.lda * f.lda
  {
  }

  /** The rows of the cores in a list. */
  function RowsOfAll(cores: seq<nat>, ncores: nat, lda: nat): Region {
    (j: nat, i: nat) => (if j < lda / 2 || ncores == 1 then 0 else 1) in cores
  }

  /** All cores: C = C0 + A * B, one after the other in any order or with their accesses interleaved in any way. */
  method AllCores(order: seq<nat>, ncores: nat, f: Factors, c: array<int>) returns (ghost programs: seq<seq<Access>>)
    requires Square(f, c.Length) && Fits(f) && ncores > 0
    requires forall t :: t in order <==> t < ncores
    requires forall s, t :: 0 <= s < t < |order| ==> order[s] != order[t]
    modifies c
    ensures IsProductAdded(f, old(c[..]), c[..])
    ensures |programs| == ncores && Inside(programs, |old(c[..])|)
    ensures forall schedule :: Done(programs, After(programs, old(c[..]), schedule)) ==>
              IsProductAdded(f, old(c[..]), After(programs, old(c[..]), schedule).memory)
  {
    hide IsCoreProgram, Shared, Inside, Done, After;
    programs := seq(ncores, _ => []);
    hide Adds, RowsOf, IsProductAdded, Fits, Square;
    ghost var x := c[..];
    SquareLength(f, c.Length);
    AddsNothing(f, x, 0, f.lda, RowsOfAll([], ncores, f.lda));
    assert order[..0] == [];
    for n := 0 to |order|
      invariant Adds(f, x, c[..], 0, f.lda, RowsOfAll(order[..n], ncores, f.lda))
      invariant |programs| == ncores
      invariant forall t: nat :: t < ncores && t in order[..n] ==>
                 IsCoreProgram(f, programs[t], RowsOf(t, ncores, f.lda))
    {
      ghost var y := c[..];
      assert order[n] in order && order[n] !in order[..n];
      ghost var p := Matmul(order[n], ncores, f, c);
      programs := programs[order[n] := p];
      MoreCores(f, x, y, c[..], order[..n], order[n], ncores);
      assert order[..n + 1] == order[..n] + [order[n]];
    }
    assert order[..|order|] == order;
    WholeIsProduct(f, x, c[..], RowsOfAll(order, ncores, f.lda));
    ghost var regions := Regions(ncores, f.lda);
    RegionsShared(ncores, f.lda);
    EveryInterleaving(f, programs, regions, x, []);
    forall schedule
      ensures Done(programs, After(programs, x, schedule)) ==> IsProductAdded(f, x, After(programs, x, schedule).memory)
    {
      EveryInterleaving(f, programs, regions, x, schedule);
    }
  }

  function Regions(ncores: nat, lda: nat): (r: seq<Region>)
    ensures |r| == ncores && forall t: nat :: t < ncores ==> r[t] == RowsOf(t, ncores, lda)
  {
    seq(ncores, (t: nat) => RowsOf(t, ncores, lda))
  }

  lemma RegionsShared(ncores: nat, lda: nat)
    requires ncores > 0
    ensures Shared(lda, Regions(ncores, lda))
  {
    forall j: nat, i: nat | j < lda && i < lda
      ensures Owned(Regions(ncores, lda), j, i)
    {
      assert ElementOf(Regions(ncores, lda), if j < lda / 2 || ncores == 1 then 0 else 1, j, i);
    }
  }

  lemma MoreCores(f: Factors, x: seq<int>, y: seq<int>, z: seq<int>, cores: seq<nat>, t: nat, ncores: nat)
    requires t < ncores && t !in cores
    requires Adds(f, x, y, 0, f.lda, RowsOfAll(cores, ncores, f.lda))
    requires Adds(f, y, z, 0, f.lda, RowsOf(t, ncores, f.lda))
    ensures Adds(f, x, z, 0, f.lda, RowsOfAll(cores + [t], ncores, f.lda))
  {
    hide Adds;
    AddsBoth(f, x, y, z, 0, f.lda, RowsOfAll(cores, ncores, f.lda), RowsOf(t, ncores, f.lda),
             RowsOfAll(cores + [t], ncores, f.lda));
  }
}
