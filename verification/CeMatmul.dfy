// ce_matmul.c: after the cooperative transpose of ae_matmul.c, each core adds
// its rows of the product to C, eight columns and eight terms at a time, with
// the columns visited in ncores runs and no further barrier.

module CeMatmul {
  import opened Cooperative
  import opened Matrix
  import opened SharedTranspose

  /** The kernel is written for matrices of order 32, and its column runs of 32 / ncores must hold whole tiles of 8. */
  predicate Fits(p: Args) {
    Shares(p) && p.lda == 32 && p.w % 8 == 0
  }

  /** The accesses of one tile: 8 columns by 32 terms of BB, then a load and a store for each of 8 elements of C. */
  const READS := 256
  const TILE := 272

  /** A core's program counter and registers: filling column k of BB at row i, or at access number step of the tile of
      columns i to i + 7 in row j, in column run x, with accumulators c and the element of C just loaded. */
  datatype Core = Fill(k: nat, i: nat) | Tile(x: nat, i: nat, j: nat, c: seq<int>, step: nat, got: int) | Finished

  const ZEROS: seq<int> := [0, 0, 0, 0, 0, 0, 0, 0]

  function TileColumn(step: nat): nat {
    step % 64 / 8
  }

  function TileTerm(step: nat): nat {
    step / 64 * 8 + step % 8
  }

  function StoreColumn(step: nat): nat
    requires step >= READS
  {
    (step - READS) / 2
  }

  /** First column of run x. */
  function RunStart(p: Args, x: nat): nat {
    x * p.w
  }

  function Start(p: Args, t: nat): Core {
    if p.lda == 0 then Finished else Fill(0, Low(p, t))
  }

  function NextOp(p: Args, t: nat, l: Core): Op {
    match l
    case Fill(k, i) => if i < High(p, t) then Write(BBAt(p, i, k), B(p, k, i)) else Wait
    case Tile(x, i, j, c, step, got) =>
      if step < READS then Read(BBAt(p, i + TileColumn(step), TileTerm(step)))
      else
        var d := StoreColumn(step);
        if step % 2 == 0 || d >= |c| then Read(CAt(p, i + d, j)) else Write(CAt(p, i + d, j), got + c[d])
    case Finished => Done
  }

  /** The tile after (x, i, j): the next row, else the next columns of the run, else the next run. */
  function NextTile(p: Args, t: nat, x: nat, i: nat, j: nat): Core {
    if j + 1 < High(p, t) then Tile(x, i, j + 1, ZEROS, 0, 0)
    else if i + 8 < RunStart(p, x + 1) then Tile(x, i + 8, Low(p, t), ZEROS, 0, 0)
    else if x + 1 < p.ncores then Tile(x + 1, RunStart(p, x + 1), Low(p, t), ZEROS, 0, 0)
    else Finished
  }

  function Resume(p: Args, t: nat, l: Core, v: int): Core {
    match l
    case Fill(k, i) =>
      if i < High(p, t) then Fill(k, i + 1)
      else if k + 1 < p.lda then Fill(k + 1, Low(p, t))
      else Tile(0, 0, Low(p, t), ZEROS, 0, 0)
    case Tile(x, i, j, c, step, got) =>
      if step < READS then
        var d := TileColumn(step);
        Tile(x, i, j, if d < |c| then c[d := c[d] + A(p, j, TileTerm(step)) * v] else c, step + 1, got)
      else if step % 2 == 0 then Tile(x, i, j, c, step + 1, v)
      else if step + 1 < TILE then Tile(x, i, j, c, step + 1, got)
      else NextTile(p, t, x, i, j)
    case Finished => Finished
  }

  function Program(p: Args): Kernel<Core> {
    Kernel(p.ncores, t => Start(p, t), (t, l) => NextOp(p, t, l), (t, l, v) => Resume(p, t, l, v))
  }

  // ---------------------------------------------------------------------
  // What each core knows
  // ---------------------------------------------------------------------

  /** Element (y, x) of C has been stored: its tile comes before columns i to i + 7 of row j, or it is one of the
      first n elements of that tile. */
  predicate Past(i: nat, j: nat, n: nat, x: nat, y: nat) {
    x < i || (x < i + 8 && y < j) || (y == j && x < i + n && n <= 8)
  }

  /** What element (y, x) of C must hold: what it held at the start, plus the product once it has been stored. */
  function Wanted(p: Args, c0: seq<int>, i: nat, j: nat, n: nat, x: nat, y: nat): int {
    Entry(c0, p.lda, y, x) + if Past(i, j, n, x, y) then Dot(p.a, p.b, p.lda, y, x, p.lda) else 0
  }

  ghost predicate RowsAt(p: Args, c0: seq<int>, m: seq<int>, t: nat, i: nat, j: nat, n: nat) {
    forall x: nat, y: nat :: x < p.lda && Owns(p.w, t, y) ==> At(m, CAt(p, x, y)) == Wanted(p, c0, i, j, n, x, y)
  }

  /** How much of the run of eight from start on lies below r. */
  function Beyond(r: nat, start: nat): nat {
    if r < start then 0 else if r < start + 8 then r - start else 8
  }

  /** How many terms of column d of a tile have been added before a step. */
  function Terms(step: nat, d: nat): nat {
    var q, r := step / 64, step % 64;
    q * 8 + (if r < 8 * d then 0 else if r < 8 * d + 8 then r - 8 * d else 8)
  }

  ghost predicate Accumulated(p: Args, i: nat, j: nat, c: seq<int>, step: nat) {
    |c| == 8 && forall d: nat :: d < 8 ==> c[d] == Dot(p.a, p.b, p.lda, j, i + d, Terms(step, d))
  }

  /** Where a tile may lie. */
  predicate TileInside(p: Args, t: nat, x: nat, i: nat, j: nat) {
    && x < p.ncores && RunStart(p, x) <= i && i + 8 <= RunStart(p, x + 1) && i % 8 == 0
    && i + 8 <= p.lda && Owns(p.w, t, j)
  }

  ghost predicate Knows(p: Args, c0: seq<int>, t: nat, r: nat, l: Core, m: seq<int>) {
    match l
    case Fill(k, i) =>
      && k == r < p.lda && Low(p, t) <= i <= High(p, t)
      && Transposed(p, m, r) && ColumnTo(p, m, r, Low(p, t), i) && RowsAt(p, c0, m, t, 0, 0, 0)
    case Tile(x, i, j, c, step, got) =>
      && r == p.lda && TileInside(p, t, x, i, j) && step < TILE && Transposed(p, m, p.lda)
      && if step < READS then Accumulated(p, i, j, c, step) && RowsAt(p, c0, m, t, i, j, 0)
         else
           var d := StoreColumn(step);
           && Accumulated(p, i, j, c, READS) && RowsAt(p, c0, m, t, i, j, d)
           && (step % 2 == 1 ==> got == Entry(c0, p.lda, j, i + d))
    case Finished => r == p.lda && RowsAt(p, c0, m, t, p.lda, 0, 0)
  }

  ghost function KnowsOf(p: Args, c0: seq<int>): Outline<Core> {
    (t: nat, r: nat, l: Core, m: seq<int>) => Knows(p, c0, t, r, l, m)
  }

  // ---------------------------------------------------------------------
  // One tile
  // ---------------------------------------------------------------------

  lemma NextTerm(step: nat, d: nat)
    requires d < 8
    ensures TileColumn(step) < 8 && Terms(step, TileColumn(step)) == TileTerm(step)
    ensures Terms(step + 1, d) == Terms(step, d) + (if d == TileColumn(step) then 1 else 0)
  {
    var q, r := step / 64, step % 64;
    assert step == 64 * q + r;
    if r == 63 {
      DivMod.DivModUnique(step + 1, 64, q + 1, 0);
    } else {
      DivMod.DivModUnique(step + 1, 64, q, r + 1);
    }
    DivMod.DivModUnique(step, 8, 8 * q + r / 8, r % 8);
  }

  lemma Accumulate(p: Args, i: nat, j: nat, c: seq<int>, step: nat)
    requires Accumulated(p, i, j, c, step)
    ensures var d, k := TileColumn(step), TileTerm(step);
            d < 8 && Accumulated(p, i, j, c[d := c[d] + A(p, j, k) * B(p, k, i + d)], step + 1)
  {
    hide Dot, A, B, Terms, TileColumn, TileTerm;
    var d, k := TileColumn(step), TileTerm(step);
    NextTerm(step, 0);
    DotNext(p, j, i + d, k);
    var c' := c[d := c[d] + A(p, j, k) * B(p, k, i + d)];
    forall e: nat | e < 8
      ensures c'[e] == Dot(p.a, p.b, p.lda, j, i + e, Terms(step + 1, e))
    {
      NextTerm(step, e);
    }
  }

  lemma ReadStep(p: Args, c0: seq<int>, t: nat, r: nat, l: Core, m: seq<int>)
    requires Fits(p) && t < p.ncores && |m| == BB_SIZE + p.lda * p.lda
    requires l.Tile? && Knows(p, c0, t, r, l, m) && l.step < READS
    ensures StepKept(Program(p), KnowsOf(p, c0), t, r, l, m)
  {
    hide RowsAt, Transposed, BBAt, A, B, TileInside, Past, Dot;
    assert TileColumn(l.step) < 8 && TileTerm(l.step) < 32;
    hide TileColumn, TileTerm, Terms;
    var d, k := TileColumn(l.step), TileTerm(l.step);
    assert l.i + 8 <= p.lda by {
      TileBounds(p, t, l.x, l.i, l.j);
    }
    BBInside(p, l.i + d, k);
    TransposedAt(p, m, l.i + d, k);
    Accumulate(p, l.i, l.j, l.c, l.step);
    if l.step + 1 == READS {
      assert StoreColumn(READS) == 0;
    }
  }

  lemma TileBounds(p: Args, t: nat, x: nat, i: nat, j: nat)
    requires TileInside(p, t, x, i, j)
    ensures i + 8 <= p.lda && Owns(p.w, t, j)
  {
  }

  /** A load of C brings in the element's first value. */
  lemma LoadStep(p: Args, c0: seq<int>, t: nat, r: nat, l: Core, m: seq<int>)
    requires Fits(p) && t < p.ncores && |m| == BB_SIZE + p.lda * p.lda
    requires l.Tile? && Knows(p, c0, t, r, l, m) && l.step >= READS && l.step % 2 == 0
    ensures StepKept(Program(p), KnowsOf(p, c0), t, r, l, m)
  {
    hide Transposed, Accumulated, CAt;
    var d := StoreColumn(l.step);
    assert d < 8 && StoreColumn(l.step + 1) == d;
    OwnRow(p, t, l.j);
    CInside(p, l.i + d, l.j);
    assert At(m, CAt(p, l.i + d, l.j)) == Wanted(p, c0, l.i, l.j, d, l.i + d, l.j);
  }

  /** A store of C makes one more element final. */
  lemma StoreExtends(p: Args, c0: seq<int>, m: seq<int>, t: nat, i: nat, j: nat, d: nat)
    requires Fits(p) && t < p.ncores && |m| == BB_SIZE + p.lda * p.lda && d < 8 && i + 8 <= p.lda && Owns(p.w, t, j)
    requires RowsAt(p, c0, m, t, i, j, d) && Transposed(p, m, p.lda)
    ensures CAt(p, i + d, j) < |m|
    ensures var m' := m[CAt(p, i + d, j) := Entry(c0, p.lda, j, i + d) + Dot(p.a, p.b, p.lda, j, i + d, p.lda)];
            RowsAt(p, c0, m', t, i, j, d + 1) && Transposed(p, m', p.lda)
  {
    hide CAt, BBAt, Dot, Entry;
    var v := Entry(c0, p.lda, j, i + d) + Dot(p.a, p.b, p.lda, j, i + d, p.lda);
    OwnRow(p, t, j);
    CInside(p, i + d, j);
    StoreKeepsTransposed(p, m, i + d, j, v);
    var m' := Store(m, CAt(p, i + d, j), v);
    forall x: nat, y: nat | x < p.lda && Owns(p.w, t, y)
      ensures At(m', CAt(p, x, y)) == Wanted(p, c0, i, j, d + 1, x, y)
    {
      if x != i + d || y != j {
        StoreElsewhere(p, m, i + d, j, v, x, y);
      }
    }
  }

  /** A complete tile, seen from the tile after it. */
  lemma TileCompletes(p: Args, c0: seq<int>, m: seq<int>, t: nat, x: nat, i: nat, j: nat)
    requires Fits(p) && t < p.ncores && TileInside(p, t, x, i, j) && RowsAt(p, c0, m, t, i, j, 8)
    ensures RowsAt(p, c0, m, t, i, j + 1, 0)
    ensures j + 1 == High(p, t) ==> RowsAt(p, c0, m, t, i + 8, Low(p, t), 0)
    ensures j + 1 == High(p, t) && i + 8 == p.lda ==> RowsAt(p, c0, m, t, p.lda, 0, 0)
  {
    hide Dot, CAt;
    assert forall a: nat, b: nat :: Past(i, j, 8, a, b) == Past(i, j + 1, 0, a, b);
    if j + 1 == High(p, t) {
      assert forall a: nat, b: nat :: Owns(p.w, t, b) ==> Past(i, j, 8, a, b) == Past(i + 8, Low(p, t), 0, a, b);
      if i + 8 == p.lda {
        assert forall a: nat, b: nat :: a < p.lda && Owns(p.w, t, b) ==> Past(i, j, 8, a, b) == Past(p.lda, 0, 0, a, b);
      }
    }
  }

  /** Runs follow each other and hold whole tiles. */
  lemma Runs(p: Args, t: nat, x: nat, i: nat, j: nat)
    requires Fits(p) && t < p.ncores && TileInside(p, t, x, i, j)
    ensures i + 8 < RunStart(p, x + 1) ==> i + 16 <= RunStart(p, x + 1) && i + 16 <= p.lda
    ensures i + 8 >= RunStart(p, x + 1) ==> i + 8 == RunStart(p, x + 1)
    ensures x + 1 < p.ncores ==> RunStart(p, x + 1) + 8 <= RunStart(p, x + 2) && RunStart(p, x + 1) + 8 <= p.lda
    ensures x + 1 == p.ncores ==> RunStart(p, x + 1) == p.lda
    ensures RunStart(p, x + 1) % 8 == 0
  {
    DivMod.DivModUnique(p.w, 8, p.w / 8, 0);
    var q := p.w / 8;
    assert p.w == 8 * q && q > 0;
    assert RunStart(p, x + 1) == 8 * ((x + 1) * q);
    assert RunStart(p, x + 2) == RunStart(p, x + 1) + p.w;
    DivMod.MulMonotone(x + 1, p.ncores, p.w);
    if x + 1 < p.ncores {
      DivMod.MulMonotone(x + 2, p.ncores, p.w);
    }
  }

  lemma NextTileKnown(p: Args, c0: seq<int>, t: nat, r: nat, x: nat, i: nat, j: nat, m: seq<int>)
    requires Fits(p) && t < p.ncores && r == p.lda && TileInside(p, t, x, i, j)
    requires Transposed(p, m, p.lda) && RowsAt(p, c0, m, t, i, j, 8)
    ensures Knows(p, c0, t, r, NextTile(p, t, x, i, j), m)
  {
    hide Transposed, RowsAt, Dot, RunStart;
    Runs(p, t, x, i, j);
    TileCompletes(p, c0, m, t, x, i, j);
    LowIsOwn(p, t);
    ZeroAccumulated(p, i, j + 1);
    ZeroAccumulated(p, i + 8, Low(p, t));
    ZeroAccumulated(p, RunStart(p, x + 1), Low(p, t));
  }

  lemma ZeroAccumulated(p: Args, i: nat, j: nat)
    ensures Accumulated(p, i, j, ZEROS, 0)
  {
  }

  lemma StoreStep(p: Args, c0: seq<int>, t: nat, r: nat, l: Core, m: seq<int>)
    requires Fits(p) && t < p.ncores && |m| == BB_SIZE + p.lda * p.lda
    requires l.Tile? && Knows(p, c0, t, r, l, m) && l.step >= READS && l.step % 2 == 1
    ensures StepKept(Program(p), KnowsOf(p, c0), t, r, l, m)
  {
    hide Transposed, RowsAt, CAt, NextTile, TileInside;
    var d := StoreColumn(l.step);
    assert l.i + 8 <= p.lda && Owns(p.w, t, l.j) by {
      TileBounds(p, t, l.x, l.i, l.j);
    }
    assert d < 8 && Terms(READS, d) == 32;
    assert l.c[d] == Dot(p.a, p.b, p.lda, l.j, l.i + d, p.lda);
    StoreExtends(p, c0, m, t, l.i, l.j, d);
    var m' := m[CAt(p, l.i + d, l.j) := l.got + l.c[d]];
    if l.step + 1 < TILE {
      assert StoreColumn(l.step + 1) == d + 1;
    } else {
      assert d + 1 == 8;
      NextTileKnown(p, c0, t, r, l.x, l.i, l.j, m');
    }
  }

  // ---------------------------------------------------------------------
  // The outline of the kernel
  // ---------------------------------------------------------------------

  lemma OwnStep(p: Args, c0: seq<int>, t: nat, r: nat, l: Core, m: seq<int>)
    requires Fits(p) && t < p.ncores && |m| == BB_SIZE + p.lda * p.lda && Knows(p, c0, t, r, l, m)
    ensures StepKept(Program(p), KnowsOf(p, c0), t, r, l, m)
  {
    match l
    case Fill(k, i) =>
      hide BBAt, Transposed, ColumnTo;
      if i < High(p, t) {
        FillExtends(p, t, r, i, m);
        FillKeepsC(p, c0, t, t, r, i, B(p, r, i), m);
      }
    case Tile(x, i, j, c, step, got) =>
      hide Knows, StepKept;
      if step < READS {
        ReadStep(p, c0, t, r, l, m);
      } else if step % 2 == 0 {
        LoadStep(p, c0, t, r, l, m);
      } else {
        StoreStep(p, c0, t, r, l, m);
      }
    case Finished =>
  }

  /** A store to BB leaves C alone. */
  lemma FillKeepsC(p: Args, c0: seq<int>, t: nat, u: nat, r: nat, i: nat, v: int, m: seq<int>)
    requires Fits(p) && u < p.ncores && Low(p, u) <= i < High(p, u) && r < p.lda && RowsAt(p, c0, m, t, 0, 0, 0)
    ensures RowsAt(p, c0, Store(m, BBAt(p, i, r), v), t, 0, 0, 0)
  {
    OwnRow(p, u, i);
    BBInside(p, i, r);
    hide Wanted, BBAt;
  }

  /** A store to another core's row of C. */
  lemma StoreKeepsRows(p: Args, c0: seq<int>, m: seq<int>, t: nat, i: nat, j: nat, n: nat, i': nat, j': nat, v: int)
    requires i' < p.lda && RowsAt(p, c0, m, t, i, j, n) && !Owns(p.w, t, j')
    ensures RowsAt(p, c0, Store(m, CAt(p, i', j'), v), t, i, j, n)
  {
    hide CAt, Wanted;
    forall x: nat, y: nat | x < p.lda && Owns(p.w, t, y)
      ensures At(Store(m, CAt(p, i', j'), v), CAt(p, x, y)) == Wanted(p, c0, i, j, n, x, y)
    {
      StoreElsewhere(p, m, i', j', v, x, y);
    }
  }

  /** What core t knows survives a store to another core's row of C. */
  lemma StoreNonInterfering(p: Args, c0: seq<int>, t: nat, r: nat, l: Core, i: nat, j: nat, v: int, m: seq<int>)
    requires Fits(p) && t < p.ncores && i < p.lda && r == p.lda && Knows(p, c0, t, r, l, m) && !Owns(p.w, t, j)
    ensures Knows(p, c0, t, r, l, Store(m, CAt(p, i, j), v))
  {
    hide RowsAt, Transposed, Accumulated, CAt, TileInside;
    match l
    case Tile(x, i', j', c, step, got) =>
      StoreKeepsTransposed(p, m, i, j, v);
      StoreKeepsRows(p, c0, m, t, i', j', if step < READS then 0 else StoreColumn(step), i, j, v);
    case Finished =>
      StoreKeepsRows(p, c0, m, t, p.lda, 0, 0, i, j, v);
  }

  /** Another core's store leaves alone what a core knows: it goes to another row of BB or of C. */
  lemma OthersStep(p: Args, c0: seq<int>, t: nat, u: nat, r: nat, l: Core, l': Core, m: seq<int>)
    requires Fits(p) && t < p.ncores && u < p.ncores && t != u && |m| == BB_SIZE + p.lda * p.lda
    requires Knows(p, c0, t, r, l, m) && Knows(p, c0, u, r, l', m) && NextOp(p, u, l').Write?
    ensures Knows(p, c0, t, r, l, Store(m, NextOp(p, u, l').a, NextOp(p, u, l').v))
  {
    hide Transposed, ColumnTo, RowsAt, Accumulated, BBAt, CAt, A, B, Owns, Terms;
    match l'
    case Fill(k, i) =>
      FillNonInterfering(p, t, u, r, l.i, i, m);
      FillKeepsC(p, c0, t, u, r, i, B(p, k, i), m);
    case Tile(x, i, j, c, step, got) =>
      assert StoreColumn(step) < 8;
      if Owns(p.w, t, j) {
        OwnsOnce(p.w, t, u, j);
      }
      StoreNonInterfering(p, c0, t, r, l, i + StoreColumn(step), j, got + c[StoreColumn(step)], m);
  }

  lemma AllTurn(p: Args, c0: seq<int>, r: nat, ls: seq<Core>, m: seq<int>, t: nat)
    requires Fits(p) && |ls| == p.ncores && AllWait(Program(p), KnowsOf(p, c0), r, ls, m) && t < p.ncores
    ensures Knows(p, c0, t, r + 1, Resume(p, t, ls[t], 0), m)
  {
    hide Transposed, ColumnTo, RowsAt, Accumulated, BBAt, CAt, A, B;
    forall u: nat | u < p.ncores
      ensures ls[u].Fill? && Knows(p, c0, u, r, ls[u], m) && ls[u].i == High(p, u)
      ensures ColumnTo(p, m, r, Low(p, u), High(p, u))
    {
      assert KnowsOf(p, c0)(u, r, ls[u], m) && Program(p).next(u, ls[u]).Wait?;
    }
    assert ls[t].Fill? && Knows(p, c0, t, r, ls[t], m);
    ColumnComplete(p, r, m);
    LowIsOwn(p, t);
    if r + 1 == p.lda {
      FirstRun(p);
      FirstRows(p, c0, m, t);
      ZeroAccumulated(p, 0, Low(p, t));
    } else {
      NothingFilled(p, m, r + 1, t);
    }
  }

  lemma NothingFilled(p: Args, m: seq<int>, r: nat, t: nat)
    ensures ColumnTo(p, m, r, Low(p, t), Low(p, t))
  {
  }

  lemma FirstRows(p: Args, c0: seq<int>, m: seq<int>, t: nat)
    requires RowsAt(p, c0, m, t, 0, 0, 0)
    ensures RowsAt(p, c0, m, t, 0, Low(p, t), 0)
  {
    hide CAt, Dot;
    assert forall x: nat, y: nat :: Owns(p.w, t, y) ==> Past(0, 0, 0, x, y) == Past(0, Low(p, t), 0, x, y);
  }

  lemma FirstRun(p: Args)
    requires Fits(p)
    ensures RunStart(p, 0) == 0 && 8 <= RunStart(p, 1) && 8 <= p.w
  {
    assert p.w > 0;
    assert p.w >= 8;
  }

  lemma InitialRows(p: Args, c0: seq<int>, m: seq<int>, t: nat)
    requires Fits(p) && t < p.ncores && |m| == BB_SIZE + p.lda * p.lda && |c0| == p.lda * p.lda && m[BB_SIZE..] == c0
    ensures RowsAt(p, c0, m, t, 0, 0, 0)
  {
    forall x: nat, y: nat | x < p.lda && Owns(p.w, t, y)
      ensures At(m, CAt(p, x, y)) == Wanted(p, c0, 0, 0, 0, x, y)
    {
      OwnRow(p, t, y);
      CInside(p, x, y);
      assert m[BB_SIZE..][Ix(p.lda, y, x)] == m[CAt(p, x, y)];
    }
  }

  /** The kernel has a complete outline, whatever BB holds at the start. */
  lemma KernelOutlined(p: Args, c0: seq<int>, mem: seq<int>)
    requires Fits(p) && |mem| == BB_SIZE + p.lda * p.lda && |c0| == p.lda * p.lda && mem[BB_SIZE..] == c0
    ensures Outlined(Program(p), KnowsOf(p, c0), mem)
  {
    var k, inv := Program(p), KnowsOf(p, c0);
    forall t: nat | t < k.n
      ensures inv(t, 0, k.start(t), mem)
    {
      LowIsOwn(p, t);
      InitialRows(p, c0, mem, t);
    }
    forall t: nat, r: nat, l: Core, m: seq<int> | t < k.n && |m| == |mem| && inv(t, r, l, m)
      ensures StepKept(k, inv, t, r, l, m)
    {
      OwnStep(p, c0, t, r, l, m);
    }
    assert Local(k, inv, |mem|);
    forall t: nat, u: nat, r: nat, l: Core, l': Core, m: seq<int> |
      t < k.n && u < k.n && t != u && |m| == |mem| && inv(t, r, l, m) && inv(u, r, l', m) && k.next(u, l').Write?
      ensures inv(t, r, l, Store(m, k.next(u, l').a, k.next(u, l').v))
    {
      OthersStep(p, c0, t, u, r, l, l', m);
    }
    assert NonInterfering(k, inv, |mem|);
    forall r: nat, ls: seq<Core>, m: seq<int> | |ls| == k.n && |m| == |mem| && AllWait(k, inv, r, ls, m)
      ensures forall t: nat :: t < k.n ==> inv(t, r + 1, k.resume(t, ls[t], 0), m)
    {
      forall t: nat | t < k.n
        ensures inv(t, r + 1, k.resume(t, ls[t], 0), m)
      {
        AllTurn(p, c0, r, ls, m, t);
      }
    }
    assert Turning(k, inv, |mem|);
  }

  // ---------------------------------------------------------------------
  // Main results
  // ---------------------------------------------------------------------

  /** A read of BB finds an element of B, transposed, in place. */
  ghost predicate ReadIsFinal(p: Args, op: Op, m: seq<int>) {
    op.Read? && op.a < BB_SIZE ==>
      exists i: nat, k: nat :: i < p.lda && k < p.lda && op.a == BBAt(p, i, k) && At(m, BBAt(p, i, k)) == B(p, k, i)
  }

  lemma KnownRead(p: Args, c0: seq<int>, t: nat, r: nat, l: Core, m: seq<int>)
    requires Fits(p) && Knows(p, c0, t, r, l, m)
    ensures ReadIsFinal(p, NextOp(p, t, l), m)
  {
    hide RowsAt, Accumulated, Transposed;
    if NextOp(p, t, l).Read? && NextOp(p, t, l).a < BB_SIZE {
      assert l.Tile? && l.step < READS;
      var i, k := l.i + TileColumn(l.step), TileTerm(l.step);
      TileBounds(p, t, l.x, l.i, l.j);
      assert i < p.lda && k < p.lda;
      TransposedAt(p, m, i, k);
    }
  }

  /** Along every interleaving: a core that reads BB reads B transposed, never an element still to be written. */
  lemma ReadsAreFinal(p: Args, c0: seq<int>, mem: seq<int>, schedule: seq<nat>, t: nat)
    requires Fits(p) && |mem| == BB_SIZE + p.lda * p.lda && |c0| == p.lda * p.lda && mem[BB_SIZE..] == c0
    requires t < p.ncores && forall u :: u in schedule ==> u < p.ncores
    ensures var s := Run(Program(p), Boot(Program(p), mem), schedule);
            t < |s.locals| == |s.barrier.threads| &&
            (s.barrier.threads[t].place.Outside? ==> ReadIsFinal(p, NextOp(p, t, s.locals[t]), s.mem))
  {
    hide Knows, ReadIsFinal, NextOp, Fits, Resume;
    KernelOutlined(p, c0, mem);
    OutlineHolds(Program(p), KnowsOf(p, c0), mem, schedule);
    var s := Run(Program(p), Boot(Program(p), mem), schedule);
    if s.barrier.threads[t].place.Outside? {
      assert KnowsOf(p, c0)(t, s.barrier.released, s.locals[t], s.mem);
      KnownRead(p, c0, t, s.barrier.released, s.locals[t], s.mem);
    }
  }

  /** Along every interleaving: once all cores have finished, C is what it was plus the product of A and B. */
  lemma ProductAdded(p: Args, c0: seq<int>, mem: seq<int>, schedule: seq<nat>, i: nat, j: nat)
    requires Fits(p) && |mem| == BB_SIZE + p.lda * p.lda && |c0| == p.lda * p.lda && mem[BB_SIZE..] == c0
    requires forall u :: u in schedule ==> u < p.ncores
    requires AllDone(Program(p), Run(Program(p), Boot(Program(p), mem), schedule))
    requires i < p.lda && j < p.lda
    ensures var s := Run(Program(p), Boot(Program(p), mem), schedule);
            At(s.mem, CAt(p, i, j)) == Entry(c0, p.lda, j, i) + Dot(p.a, p.b, p.lda, j, i, p.lda)
  {
    KernelOutlined(p, c0, mem);
    OutlineHolds(Program(p), KnowsOf(p, c0), mem, schedule);
    var s := Run(Program(p), Boot(Program(p), mem), schedule);
    var t := OwnerOf(p.w, p.ncores, j);
    assert s.barrier.threads[t].place.Outside? && Program(p).next(t, s.locals[t]).Done?;
    assert KnowsOf(p, c0)(t, s.barrier.released, s.locals[t], s.mem);
    assert Past(p.lda, 0, 0, i, j);
  }

  /** Along every interleaving, until the product has been added some core can move. */
  lemma KernelNeverStuck(p: Args, c0: seq<int>, mem: seq<int>, schedule: seq<nat>) returns (e: nat)
    requires Fits(p) && |mem| == BB_SIZE + p.lda * p.lda && |c0| == p.lda * p.lda && mem[BB_SIZE..] == c0
    requires forall u :: u in schedule ==> u < p.ncores
    requires !AllDone(Program(p), Run(Program(p), Boot(Program(p), mem), schedule))
    ensures Enabled(Program(p), Run(Program(p), Boot(Program(p), mem), schedule), e)
  {
    var k, inv := Program(p), KnowsOf(p, c0);
    KernelOutlined(p, c0, mem);
    assert Uniform(k, inv, |mem|);
    e := NoDeadlock(k, inv, mem, schedule);
  }
}
