// ae_matmul.c: the cores transpose B into the shared static BB, one column
// per round, then each core forms its own rows of C from rows of BB, four
// columns at a time and eight terms at a time, with a barrier after each tile.

module AeMatmul {
  import opened Cooperative
  import opened Matrix
  import opened SharedTranspose
  import DivMod

  /** What the strides of the kernel need: whole tiles of four columns and eight terms as well. */
  predicate Fits(p: Args) {
    Shares(p) && p.lda % 8 == 0
  }

  /** A core's program counter and registers: filling column k of BB at row i, or at access number step of the tile of
      columns i to i + 3 in row j with accumulators c, or finished. */
  datatype Core = Fill(k: nat, i: nat) | Tile(i: nat, j: nat, c: seq<int>, step: nat) | Finished

  /** Column of the tile, and term of the dot product, that access number step works on. */
  function TileColumn(step: nat): nat {
    step % 32 / 8
  }

  function TileTerm(step: nat): nat {
    step / 32 * 8 + step % 8
  }

  function Start(p: Args, t: nat): Core {
    if p.lda == 0 then Finished else Fill(0, Low(p, t))
  }

  function NextOp(p: Args, t: nat, l: Core): Op {
    match l
    case Fill(k, i) => if i < High(p, t) then Write(BBAt(p, i, k), B(p, k, i)) else Wait
    case Tile(i, j, c, step) =>
      if step < 4 * p.lda then Read(BBAt(p, i + TileColumn(step), TileTerm(step)))
      else if step < 4 * p.lda + 4 && step - 4 * p.lda < |c| then
        Write(CAt(p, i + (step - 4 * p.lda), j), c[step - 4 * p.lda])
      else Wait
    case Finished => Done
  }

  function Resume(p: Args, t: nat, l: Core, v: int): Core {
    match l
    case Fill(k, i) =>
      if i < High(p, t) then Fill(k, i + 1)
      else if k + 1 < p.lda then Fill(k + 1, Low(p, t))
      else Tile(0, Low(p, t), [0, 0, 0, 0], 0)
    case Tile(i, j, c, step) =>
      if step < 4 * p.lda then
        var d := TileColumn(step);
        Tile(i, j, if d < |c| then c[d := c[d] + A(p, j, TileTerm(step)) * v] else c, step + 1)
      else if step < 4 * p.lda + 4 then Tile(i, j, c, step + 1)
      else if j + 1 < High(p, t) then Tile(i, j + 1, [0, 0, 0, 0], 0)
      else if i + 4 < p.lda then Tile(i + 4, Low(p, t), [0, 0, 0, 0], 0)
      else Finished
    case Finished => Finished
  }

  function Program(p: Args): Kernel<Core> {
    Kernel(p.ncores, t => Start(p, t), (t, l) => NextOp(p, t, l), (t, l, v) => Resume(p, t, l, v))
  }

  // ---------------------------------------------------------------------
  // What each core knows
  // ---------------------------------------------------------------------

  /** Element (y, x) of C comes before the tile of columns i to i + 3 in row j. */
  predicate Before(i: nat, j: nat, x: nat, y: nat) {
    x < i || (x < i + 4 && y < j)
  }

  /** The elements of core t's rows before tile (i, j) are final. */
  ghost predicate RowsTo(p: Args, m: seq<int>, t: nat, i: nat, j: nat) {
    forall x: nat, y: nat :: x < p.lda && Owns(p.w, t, y) && Before(i, j, x, y) ==>
      At(m, CAt(p, x, y)) == Dot(p.a, p.b, p.lda, y, x, p.lda)
  }

  /** Terms of column d of the tile that the first step accesses have added. */
  function Terms(step: nat, d: nat): nat {
    var q, r := step / 32, step % 32;
    q * 8 + (if r < 8 * d then 0 else if r < 8 * d + 8 then r - 8 * d else 8)
  }

  /** The accumulators hold the terms added so far. */
  ghost predicate Accumulated(p: Args, i: nat, j: nat, c: seq<int>, step: nat) {
    |c| == 4 && forall d: nat :: d < 4 ==> c[d] == Dot(p.a, p.b, p.lda, j, i + d, Terms(step, d))
  }

  ghost predicate Stored(p: Args, m: seq<int>, i: nat, j: nat, n: int) {
    forall x: nat :: i <= x < i + 4 && x < i + n ==> At(m, CAt(p, x, j)) == Dot(p.a, p.b, p.lda, j, x, p.lda)
  }

  /** The number of barriers a core has passed when it works on the tile of columns i to i + 3 in row j. */
  function TileRound(p: Args, t: nat, i: nat, j: nat): int {
    p.lda + (i / 4) * p.w + (j - Low(p, t))
  }

  /** ... and when it has finished. */
  function LastRound(p: Args): nat {
    p.lda + (p.lda / 4) * p.w
  }

  ghost predicate Knows(p: Args, t: nat, r: nat, l: Core, m: seq<int>) {
    match l
    case Fill(k, i) =>
      && k == r < p.lda && Low(p, t) <= i <= High(p, t)
      && Transposed(p, m, r) && ColumnTo(p, m, r, Low(p, t), i)
    case Tile(i, j, c, step) =>
      && r >= p.lda && r == TileRound(p, t, i, j) && i % 4 == 0 && i < p.lda && Owns(p.w, t, j)
      && |c| == 4
      && Transposed(p, m, p.lda) && RowsTo(p, m, t, i, j)
      && (if step <= 4 * p.lda then Accumulated(p, i, j, c, step)
          else step <= 4 * p.lda + 4 && Accumulated(p, i, j, c, 4 * p.lda) && Stored(p, m, i, j, step - 4 * p.lda))
    case Finished => r >= p.lda && r == LastRound(p) && RowsTo(p, m, t, p.lda, 0)
  }

  ghost function KnowsOf(p: Args): Outline<Core> {
    (t: nat, r: nat, l: Core, m: seq<int>) => Knows(p, t, r, l, m)
  }

  // ---------------------------------------------------------------------
  // One tile
  // ---------------------------------------------------------------------

  /** Access number step adds one term to one accumulator, and the term it adds is that accumulator's next. */
  lemma NextTerm(step: nat, d: nat)
    requires d < 4
    ensures TileColumn(step) < 4 && Terms(step, TileColumn(step)) == TileTerm(step)
    ensures Terms(step + 1, d) == Terms(step, d) + (if d == TileColumn(step) then 1 else 0)
  {
    var q, r := step / 32, step % 32;
    assert step == 32 * q + r;
    if r == 31 {
      assert (step + 1) / 32 == q + 1 && (step + 1) % 32 == 0;
    } else {
      assert (step + 1) / 32 == q && (step + 1) % 32 == r + 1;
    }
    assert step % 8 == r % 8;
  }

  /** The accesses of one tile use the columns of the tile and the terms of the dot product, and use them up. */
  lemma TermsInside(p: Args, step: nat, i: nat)
    requires Fits(p) && i % 4 == 0 && i < p.lda
    ensures i + 4 <= p.lda
    ensures step < 4 * p.lda ==> TileTerm(step) < p.lda && TileColumn(step) < 4
    ensures forall d: nat :: d < 4 ==> Terms(4 * p.lda, d) == p.lda && Terms(0, d) == 0
  {
    var n := p.lda / 8;
    assert 4 * p.lda == 32 * n;
    assert (4 * p.lda) / 32 == n && (4 * p.lda) % 32 == 0;
  }

  /** Reading B(k, i + d) from BB advances one accumulator. */
  lemma Accumulate(p: Args, i: nat, j: nat, c: seq<int>, step: nat)
    requires Accumulated(p, i, j, c, step)
    ensures var d, k := TileColumn(step), TileTerm(step);
            d < 4 && Accumulated(p, i, j, c[d := c[d] + A(p, j, k) * B(p, k, i + d)], step + 1)
  {
    hide Dot, A, B, Terms, TileColumn, TileTerm;
    var d, k := TileColumn(step), TileTerm(step);
    NextTerm(step, 0);
    DotNext(p, j, i + d, k);
    var c' := c[d := c[d] + A(p, j, k) * B(p, k, i + d)];
    forall e: nat | e < 4
      ensures c'[e] == Dot(p.a, p.b, p.lda, j, i + e, Terms(step + 1, e))
    {
      NextTerm(step, e);
    }
  }

  lemma ReadStep(p: Args, t: nat, r: nat, i: nat, j: nat, c: seq<int>, step: nat, m: seq<int>)
    requires Fits(p) && t < p.ncores && |m| == BB_SIZE + p.lda * p.lda
    requires Knows(p, t, r, Tile(i, j, c, step), m) && step < 4 * p.lda
    ensures var a := BBAt(p, i + TileColumn(step), TileTerm(step));
            a < |m| && Knows(p, t, r, Resume(p, t, Tile(i, j, c, step), m[a]), m)
  {
    hide RowsTo, Transposed, Accumulated, Terms, TileColumn, TileTerm, BBAt, A, B, Stored;
    TermsInside(p, step, i);
    var d, k := TileColumn(step), TileTerm(step);
    BBInside(p, i + d, k);
    TransposedAt(p, m, i + d, k);
    Accumulate(p, i, j, c, step);
  }

  lemma StoreKeepsRows(p: Args, m: seq<int>, t: nat, i: nat, j: nat, i': nat, j': nat, v: int)
    requires i' < p.lda && RowsTo(p, m, t, i, j) && (!Owns(p.w, t, j') || !Before(i, j, i', j'))
    ensures RowsTo(p, Store(m, CAt(p, i', j'), v), t, i, j)
  {
    forall x: nat, y: nat | x < p.lda && Owns(p.w, t, y) && Before(i, j, x, y)
      ensures At(Store(m, CAt(p, i', j'), v), CAt(p, x, y)) == Dot(p.a, p.b, p.lda, y, x, p.lda)
    {
      StoreElsewhere(p, m, i', j', v, x, y);
    }
  }

  lemma StoreStep(p: Args, t: nat, r: nat, i: nat, j: nat, c: seq<int>, step: nat, m: seq<int>)
    requires Fits(p) && t < p.ncores && |m| == BB_SIZE + p.lda * p.lda
    requires Knows(p, t, r, Tile(i, j, c, step), m) && 4 * p.lda <= step < 4 * p.lda + 4
    ensures var d := step - 4 * p.lda;
            && CAt(p, i + d, j) < |m|
            && Knows(p, t, r, Tile(i, j, c, step + 1), m[CAt(p, i + d, j) := c[d]])
  {
    hide Transposed, RowsTo, Terms, Dot, CAt, Ix, Owns;
    var d := step - 4 * p.lda;
    TermsInside(p, step, i);
    OwnRow(p, t, j);
    CInside(p, i + d, j);
    StoreKeepsTransposed(p, m, i + d, j, c[d]);
    StoreKeepsRows(p, m, t, i, j, i + d, j, c[d]);
    var m' := m[CAt(p, i + d, j) := c[d]];
    assert m' == Store(m, CAt(p, i + d, j), c[d]);
    forall x: nat | i <= x < i + 4 && x < i + d + 1
      ensures At(m', CAt(p, x, j)) == Dot(p.a, p.b, p.lda, j, x, p.lda)
    {
      if x != i + d {
        StoreElsewhere(p, m, i + d, j, c[d], x, j);
      }
    }
  }

  // ---------------------------------------------------------------------
  // The outline of the kernel
  // ---------------------------------------------------------------------

  lemma OwnStep(p: Args, t: nat, r: nat, l: Core, m: seq<int>)
    requires Fits(p) && t < p.ncores && |m| == BB_SIZE + p.lda * p.lda && Knows(p, t, r, l, m)
    ensures StepKept(Program(p), KnowsOf(p), t, r, l, m)
  {
    match l
    case Fill(k, i) =>
      if i < High(p, t) {
        FillExtends(p, t, r, i, m);
      }
    case Tile(i, j, c, step) =>
      TileStep(p, t, r, i, j, c, step, m);
    case Finished =>
  }

  lemma TileStep(p: Args, t: nat, r: nat, i: nat, j: nat, c: seq<int>, step: nat, m: seq<int>)
    requires Fits(p) && t < p.ncores && |m| == BB_SIZE + p.lda * p.lda && Knows(p, t, r, Tile(i, j, c, step), m)
    ensures StepKept(Program(p), KnowsOf(p), t, r, Tile(i, j, c, step), m)
  {
    hide Knows, BBAt, CAt, TileColumn, TileTerm, A, B;
    TileShape(p, t, r, i, j, c, step, m);
    if step < 4 * p.lda {
      ReadStep(p, t, r, i, j, c, step, m);
    } else if step < 4 * p.lda + 4 {
      StoreStep(p, t, r, i, j, c, step, m);
    }
  }

  lemma TileShape(p: Args, t: nat, r: nat, i: nat, j: nat, c: seq<int>, step: nat, m: seq<int>)
    requires Knows(p, t, r, Tile(i, j, c, step), m)
    ensures |c| == 4 && step <= 4 * p.lda + 4 && r >= p.lda && r == TileRound(p, t, i, j) && i % 4 == 0 && i < p.lda
    ensures Owns(p.w, t, j)
    ensures Transposed(p, m, p.lda) && RowsTo(p, m, t, i, j)
    ensures step >= 4 * p.lda ==> Stored(p, m, i, j, step - 4 * p.lda)
  {
  }

  lemma StoreNonInterfering(p: Args, t: nat, r: nat, l: Core, i: nat, j: nat, v: int, m: seq<int>)
    requires Fits(p) && t < p.ncores && |m| == BB_SIZE + p.lda * p.lda && i < p.lda && r >= p.lda
    requires Knows(p, t, r, l, m) && !Owns(p.w, t, j)
    ensures Knows(p, t, r, l, Store(m, CAt(p, i, j), v))
  {
    match l
    case Tile(i', j', c, step) =>
      StoreKeepsTransposed(p, m, i, j, v);
      StoreKeepsRows(p, m, t, i', j', i, j, v);
      TermsInside(p, step, i');
      forall x: nat | i' <= x < i' + 4 && x < i' + (step - 4 * p.lda)
        ensures At(Store(m, CAt(p, i, j), v), CAt(p, x, j')) == At(m, CAt(p, x, j'))
      {
        StoreElsewhere(p, m, i, j, v, x, j');
      }
    case Finished =>
      StoreKeepsRows(p, m, t, p.lda, 0, i, j, v);
  }

  /** Another core's store leaves alone what a core knows: it goes to another row of BB or of C. */
  lemma OthersStep(p: Args, t: nat, u: nat, r: nat, l: Core, l': Core, m: seq<int>)
    requires Fits(p) && t < p.ncores && u < p.ncores && t != u && |m| == BB_SIZE + p.lda * p.lda
    requires Knows(p, t, r, l, m) && Knows(p, u, r, l', m) && NextOp(p, u, l').Write?
    ensures Knows(p, t, r, l, Store(m, NextOp(p, u, l').a, NextOp(p, u, l').v))
  {
    hide Transposed, ColumnTo, RowsTo, Accumulated, Stored, BBAt, CAt, A, B, Owns, Terms;
    match l'
    case Fill(k, i) =>
      FillNonInterfering(p, t, u, r, l.i, i, m);
    case Tile(i, j, c, step) =>
      TileShape(p, u, r, i, j, c, step, m);
      TermsInside(p, step, i);
      if Owns(p.w, t, j) {
        OwnsOnce(p.w, t, u, j);
      }
      StoreNonInterfering(p, t, r, l, i + (step - 4 * p.lda), j, c[step - 4 * p.lda], m);
  }

  lemma FirstTile(p: Args, t: nat, r: nat, m: seq<int>)
    requires Fits(p) && t < p.ncores && p.lda > 0 && r == p.lda && Transposed(p, m, p.lda)
    ensures Knows(p, t, r, Tile(0, Low(p, t), [0, 0, 0, 0], 0), m)
  {
    TermsInside(p, 0, 0);
    assert Owns(p.w, t, Low(p, t)) by {
      assert p.w > 0;
      assert (t + 1) * p.w == t * p.w + p.w;
    }
    assert RowsTo(p, m, t, 0, Low(p, t));
  }

  /** A complete tile extends the rows that are final, to the next row of the same columns, to the next columns, or
      to all columns. */
  lemma TileCompletes(p: Args, t: nat, m: seq<int>, i: nat, j: nat)
    requires i + 4 <= p.lda && Owns(p.w, t, j) && RowsTo(p, m, t, i, j) && Stored(p, m, i, j, 4)
    ensures RowsTo(p, m, t, i, j + 1)
    ensures j + 1 == High(p, t) ==> RowsTo(p, m, t, i + 4, Low(p, t))
    ensures j + 1 == High(p, t) && i + 4 == p.lda ==> RowsTo(p, m, t, p.lda, 0)
  {
    forall x: nat, y: nat | x < p.lda && Owns(p.w, t, y) && Before(i, j + 1, x, y)
      ensures At(m, CAt(p, x, y)) == Dot(p.a, p.b, p.lda, y, x, p.lda)
    {
      if !Before(i, j, x, y) {
        assert y == j && i <= x < i + 4;
      }
    }
    forall x: nat, y: nat | x < p.lda && Owns(p.w, t, y) && x < i + 4 && j + 1 == High(p, t)
      ensures At(m, CAt(p, x, y)) == Dot(p.a, p.b, p.lda, y, x, p.lda)
    {
      assert Before(i, j + 1, x, y);
    }
  }

  lemma ZeroAccumulated(p: Args, i: nat, j: nat)
    ensures Accumulated(p, i, j, [0, 0, 0, 0], 0)
  {
  }

  /** The next tile is worked on one round later. */
  lemma TileRounds(p: Args, t: nat, i: nat, j: nat)
    requires Fits(p) && i % 4 == 0 && i < p.lda && Owns(p.w, t, j)
    ensures TileRound(p, t, i, j) < LastRound(p)
    ensures TileRound(p, t, i, j + 1) == TileRound(p, t, i, j) + 1
    ensures j + 1 == High(p, t) ==> TileRound(p, t, i + 4, Low(p, t)) == TileRound(p, t, i, j) + 1
    ensures j + 1 == High(p, t) && i + 4 == p.lda ==> LastRound(p) == TileRound(p, t, i, j) + 1
  {
    var q := i / 4;
    assert (i + 4) / 4 == q + 1;
    assert (q + 1) * p.w == q * p.w + p.w;
    assert (t + 1) * p.w == t * p.w + p.w;
    TermsInside(p, 0, i);
    DivMod.MulMonotone(q + 1, p.lda / 4, p.w);
  }

  lemma NextTile(p: Args, t: nat, r: nat, i: nat, j: nat, c: seq<int>, step: nat, m: seq<int>)
    requires Fits(p) && t < p.ncores && Knows(p, t, r, Tile(i, j, c, step), m)
    requires NextOp(p, t, Tile(i, j, c, step)).Wait?
    ensures Knows(p, t, r + 1, Resume(p, t, Tile(i, j, c, step), 0), m)
  {
    TileShape(p, t, r, i, j, c, step, m);
    hide RowsTo, Transposed, Stored, Terms, Dot, BBAt, CAt, TileColumn, TileTerm;
    assert step == 4 * p.lda + 4;
    TermsInside(p, step, i);
    TileCompletes(p, t, m, i, j);
    assert (t + 1) * p.w == t * p.w + p.w;
    assert j + 1 <= High(p, t) && Owns(p.w, t, Low(p, t));
    TileRounds(p, t, i, j);
    ZeroAccumulated(p, i, j + 1);
    ZeroAccumulated(p, i + 4, Low(p, t));
  }

  lemma AllTurn(p: Args, r: nat, ls: seq<Core>, m: seq<int>, t: nat)
    requires Fits(p) && |ls| == p.ncores && AllWait(Program(p), KnowsOf(p), r, ls, m) && t < p.ncores
    ensures Knows(p, t, r + 1, Resume(p, t, ls[t], 0), m)
  {
    assert KnowsOf(p)(t, r, ls[t], m) && Program(p).next(t, ls[t]).Wait?;
    match ls[t]
    case Fill(k, i) =>
      forall u: nat | u < p.ncores
        ensures ColumnTo(p, m, r, Low(p, u), High(p, u))
      {
        assert KnowsOf(p)(u, r, ls[u], m) && Program(p).next(u, ls[u]).Wait?;
      }
      ColumnComplete(p, r, m);
      if r + 1 == p.lda {
        FirstTile(p, t, r + 1, m);
      } else {
        assert (t + 1) * p.w == t * p.w + p.w;
      }
    case Tile(i, j, c, step) =>
      NextTile(p, t, r, i, j, c, step, m);
  }

  /** The kernel has a complete outline, whatever BB and C hold at the start. */
  lemma KernelOutlined(p: Args, mem: seq<int>)
    requires Fits(p) && |mem| == BB_SIZE + p.lda * p.lda
    ensures Outlined(Program(p), KnowsOf(p), mem)
  {
    var k, inv := Program(p), KnowsOf(p);
    forall t: nat | t < k.n
      ensures inv(t, 0, k.start(t), mem)
    {
      assert (t + 1) * p.w == t * p.w + p.w;
    }
    forall t: nat, r: nat, l: Core, m: seq<int> | t < k.n && |m| == |mem| && inv(t, r, l, m)
      ensures StepKept(k, inv, t, r, l, m)
    {
      OwnStep(p, t, r, l, m);
    }
    assert Local(k, inv, |mem|);
    forall t: nat, u: nat, r: nat, l: Core, l': Core, m: seq<int> |
      t < k.n && u < k.n && t != u && |m| == |mem| && inv(t, r, l, m) && inv(u, r, l', m) && k.next(u, l').Write?
      ensures inv(t, r, l, Store(m, k.next(u, l').a, k.next(u, l').v))
    {
      OthersStep(p, t, u, r, l, l', m);
    }
    assert NonInterfering(k, inv, |mem|);
    forall r: nat, ls: seq<Core>, m: seq<int> | |ls| == k.n && |m| == |mem| && AllWait(k, inv, r, ls, m)
      ensures forall t: nat :: t < k.n ==> inv(t, r + 1, k.resume(t, ls[t], 0), m)
    {
      forall t: nat | t < k.n
        ensures inv(t, r + 1, k.resume(t, ls[t], 0), m)
      {
        AllTurn(p, r, ls, m, t);
      }
    }
    assert Turning(k, inv, |mem|);
  }

  // ---------------------------------------------------------------------
  // Main results
  // ---------------------------------------------------------------------

  /** Along every interleaving: a core that reads BB reads B transposed, never an element still to be written. */
  lemma ReadsAreFinal(p: Args, mem: seq<int>, schedule: seq<nat>, t: nat)
    requires Fits(p) && |mem| == BB_SIZE + p.lda * p.lda && t < p.ncores && forall u :: u in schedule ==> u < p.ncores
    ensures var s := Run(Program(p), Boot(Program(p), mem), schedule);
            t < |s.locals| == |s.barrier.threads| &&
            (s.barrier.threads[t].place.Outside? && NextOp(p, t, s.locals[t]).Read? ==>
               exists i: nat, k: nat :: i < p.lda && k < p.lda && NextOp(p, t, s.locals[t]).a == BBAt(p, i, k)
                                        && At(s.mem, BBAt(p, i, k)) == B(p, k, i))
  {
    KernelOutlined(p, mem);
    OutlineHolds(Program(p), KnowsOf(p), mem, schedule);
    var s := Run(Program(p), Boot(Program(p), mem), schedule);
    if s.barrier.threads[t].place.Outside? && NextOp(p, t, s.locals[t]).Read? {
      var l := s.locals[t];
      assert KnowsOf(p)(t, s.barrier.released, l, s.mem);
      TileShape(p, t, s.barrier.released, l.i, l.j, l.c, l.step, s.mem);
      TermsInside(p, l.step, l.i);
      TransposedAt(p, s.mem, l.i + TileColumn(l.step), TileTerm(l.step));
    }
  }

  /** Along every interleaving: once all cores have finished, C is the product of A and B. */
  lemma ProductComplete(p: Args, mem: seq<int>, schedule: seq<nat>, i: nat, j: nat)
    requires Fits(p) && |mem| == BB_SIZE + p.lda * p.lda && forall u :: u in schedule ==> u < p.ncores
    requires AllDone(Program(p), Run(Program(p), Boot(Program(p), mem), schedule))
    requires i < p.lda && j < p.lda
    ensures var s := Run(Program(p), Boot(Program(p), mem), schedule);
            At(s.mem, CAt(p, i, j)) == Dot(p.a, p.b, p.lda, j, i, p.lda)
  {
    KernelOutlined(p, mem);
    OutlineHolds(Program(p), KnowsOf(p), mem, schedule);
    var s := Run(Program(p), Boot(Program(p), mem), schedule);
    var t := OwnerOf(p.w, p.ncores, j);
    assert s.barrier.threads[t].place.Outside? && Program(p).next(t, s.locals[t]).Done?;
    assert KnowsOf(p)(t, s.barrier.released, s.locals[t], s.mem);
    assert Before(p.lda, 0, i, j);
  }

  /** Along every interleaving, until the product is complete some core can move. */
  lemma KernelNeverStuck(p: Args, mem: seq<int>, schedule: seq<nat>) returns (e: nat)
    requires Fits(p) && |mem| == BB_SIZE + p.lda * p.lda && forall u :: u in schedule ==> u < p.ncores
    requires !AllDone(Program(p), Run(Program(p), Boot(Program(p), mem), schedule))
    ensures Enabled(Program(p), Run(Program(p), Boot(Program(p), mem), schedule), e)
  {
    var k, inv := Program(p), KnowsOf(p);
    KernelOutlined(p, mem);
    forall t: nat, u: nat, r: nat, l: Core, l': Core, m: seq<int> |
      t < k.n && u < k.n && |m| == |mem| && inv(t, r, l, m) && inv(u, r, l', m) && k.next(t, l).Wait?
      ensures !k.next(u, l').Done?
    {
      WaitBeforeEnd(p, t, r, l, m);
    }
    assert Uniform(k, inv, |mem|);
    e := NoDeadlock(k, inv, mem, schedule);
  }

  lemma WaitBeforeEnd(p: Args, t: nat, r: nat, l: Core, m: seq<int>)
    requires Fits(p) && Knows(p, t, r, l, m) && NextOp(p, t, l).Wait?
    ensures r < LastRound(p)
  {
    hide Transposed, ColumnTo, RowsTo, Accumulated, Stored, LastRound, TileRound;
    FillBeforeEnd(p);
    if l.Tile? {
      TileRounds(p, t, l.i, l.j);
    }
  }

  lemma FillBeforeEnd(p: Args)
    requires Fits(p)
    ensures p.lda <= LastRound(p)
  {
    DivMod.MulMonotone(0, p.lda / 4, p.w);
  }
}
