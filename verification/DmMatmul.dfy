// dm_matmul.c: the cores copy B into the shared static B1, meet once at the
// barrier, and add their rows of the product to C in 4 x 4 tiles. The last
// core reads the copy, all others read B itself.

module DmMatmul {
  import opened Cooperative
  import opened Matrix
  import opened SharedTranspose

  /** Whole 4 x 4 tiles in every core's share of w = lda / ncores rows (the last core goes on to row lda), and a copy
      of B that fits in B1. The cores need not divide lda. */
  predicate Fits(p: Args) {
    p.ncores > 0 && p.w == p.lda / p.ncores && p.w % 4 == 0 && p.lda % 4 == 0 && p.lda * p.lda <= BB_SIZE
  }

  predicate IsLast(p: Args, t: nat) {
    t + 1 == p.ncores
  }

  /** Elements of a matrix. */
  function Size(p: Args): nat {
    p.lda * p.lda
  }

  /** Where B1 splits: the last core copies below, all others above. */
  function Half(p: Args): nat
    requires p.ncores > 0
  {
    Size(p) / p.ncores
  }

  function CopyLow(p: Args, t: nat): nat
    requires p.ncores > 0
  {
    if IsLast(p, t) then 0 else Half(p)
  }

  function CopyHigh(p: Args, t: nat): nat
    requires p.ncores > 0
  {
    if IsLast(p, t) then Half(p) else Size(p)
  }

  /** B lies behind C in the shared memory of the model, B1 in front. */
  function BBase(p: Args): nat {
    BB_SIZE + Size(p)
  }

  function BValue(p: Args, a: nat): int {
    if a < |p.b| then p.b[a] else 0
  }

  function RowLow(p: Args, t: nat): nat {
    p.w * t
  }

  /** The bound of the row loop, rounded down to whole tiles. */
  function RowHigh(p: Args, t: nat): nat {
    (if IsLast(p, t) then p.lda else p.w * t + p.w) / 4 * 4
  }

  /** A core's program counter and registers: copying element i of B (loaded or not), or at access number step of the
      tile of rows i to i + 3 and columns j to j + 3 with its sixteen temporaries, or finished. */
  datatype Core = Copy(i: nat, loaded: bool, got: int) | Tile(i: nat, j: nat, c: seq<int>, step: nat) | Finished

  const NONE: seq<int> := [0, 0, 0, 0, 0, 0, 0, 0, 0, 0, 0, 0, 0, 0, 0, 0]

  /** The accesses of one tile: 16 loads of C, 4 loads of B per term, 16 stores. */
  function Loads(p: Args): nat {
    16 + 4 * p.lda
  }

  function FirstTile(p: Args, t: nat): Core {
    if RowLow(p, t) < RowHigh(p, t) && 0 < p.lda / 4 * 4 then Tile(RowLow(p, t), 0, NONE, 0) else Finished
  }

  function NextTile(p: Args, t: nat, i: nat, j: nat): Core {
    if j + 4 < p.lda / 4 * 4 then Tile(i, j + 4, NONE, 0)
    else if i + 4 < RowHigh(p, t) then Tile(i + 4, 0, NONE, 0)
    else Finished
  }

  function NextOp(p: Args, t: nat, l: Core): Op {
    match l
    case Copy(i, loaded, got) =>
      if p.ncores == 0 || i >= CopyHigh(p, t) then Wait
      else if loaded then Write(i, got) else Read(BBase(p) + i)
    case Tile(i, j, c, step) =>
      if step < 16 then Read(CAt(p, j + step / 4, i + step % 4))
      else if step < Loads(p) then
        Read((if IsLast(p, t) then 0 else BBase(p)) + Ix(p.lda, (step - 16) / 4, j + step % 4))
      else
        var n := step - Loads(p);
        if n < |c| then Write(CAt(p, j + n / 4, i + n % 4), c[n]) else Done
    case Finished => Done
  }

  /** The four temporaries of column e take one more term each. */
  function AddTerm(p: Args, i: nat, c: seq<int>, e: nat, k: nat, v: int): seq<int> {
    seq(|c|, n requires 0 <= n < |c| => if n / 4 == e then c[n] + A(p, i + n % 4, k) * v else c[n])
  }

  function Resume(p: Args, t: nat, l: Core, v: int): Core {
    match l
    case Copy(i, loaded, got) =>
      if p.ncores == 0 || i >= CopyHigh(p, t) then FirstTile(p, t)
      else if loaded then Copy(i + 1, false, 0) else Copy(i, true, v)
    case Tile(i, j, c, step) =>
      if step < 16 then Tile(i, j, if step < |c| then c[step := v] else c, step + 1)
      else if step < Loads(p) then Tile(i, j, AddTerm(p, i, c, step % 4, (step - 16) / 4, v), step + 1)
      else if step + 1 < Loads(p) + 16 then Tile(i, j, c, step + 1)
      else NextTile(p, t, i, j)
    case Finished => Finished
  }

  function Program(p: Args): Kernel<Core>
    requires p.ncores > 0
  {
    Kernel(p.ncores, t => Copy(CopyLow(p, t), false, 0), (t, l) => NextOp(p, t, l), (t, l, v) => Resume(p, t, l, v))
  }

  // ---------------------------------------------------------------------
  // What each core knows
  // ---------------------------------------------------------------------

  /** Rows of core t. */
  predicate Mine(p: Args, t: nat, y: nat) {
    RowLow(p, t) <= y && (if IsLast(p, t) then y < p.lda else y < p.w * t + p.w)
  }

  /** Element (y, x) of C has been stored when the first n elements of tile (i, j) have. */
  predicate Past(i: nat, j: nat, n: nat, x: nat, y: nat) {
    y < i || (y < i + 4 && x < j) || (i <= y < i + 4 && j <= x < j + 4 && 4 * (x - j) + (y - i) < n)
  }

  function Wanted(p: Args, c0: seq<int>, i: nat, j: nat, n: nat, x: nat, y: nat): int {
    Entry(c0, p.lda, y, x) + if Past(i, j, n, x, y) then Dot(p.a, p.b, p.lda, y, x, p.lda) else 0
  }

  ghost predicate RowsAt(p: Args, c0: seq<int>, m: seq<int>, t: nat, i: nat, j: nat, n: nat) {
    forall x: nat, y: nat :: x < p.lda && Mine(p, t, y) ==> At(m, CAt(p, x, y)) == Wanted(p, c0, i, j, n, x, y)
  }

  /** B itself is in place. */
  ghost predicate BKept(p: Args, m: seq<int>) {
    forall a: nat :: a < Size(p) ==> At(m, BBase(p) + a) == BValue(p, a)
  }

  /** Elements lo to i - 1 of B1 are in place. */
  ghost predicate CopiedTo(p: Args, m: seq<int>, lo: nat, i: nat) {
    forall a: nat :: lo <= a < i ==> At(m, a) == BValue(p, a)
  }

  /** Terms that column e of the tile has taken after s loads of B. */
  function Terms(s: nat, e: nat): nat {
    s / 4 + if e < s % 4 then 1 else 0
  }

  /** The sixteen temporaries: loaded, with the terms added so far. */
  ghost predicate Accumulated(p: Args, c0: seq<int>, i: nat, j: nat, c: seq<int>, s: nat) {
    |c| == 16 && forall n: nat :: n < 16 ==>
      c[n] == Entry(c0, p.lda, i + n % 4, j + n / 4) + Dot(p.a, p.b, p.lda, i + n % 4, j + n / 4, Terms(s, n / 4))
  }

  ghost predicate Loaded(p: Args, c0: seq<int>, i: nat, j: nat, c: seq<int>, step: nat) {
    |c| == 16 && forall n: nat :: n < 16 && n < step ==> c[n] == Entry(c0, p.lda, i + n % 4, j + n / 4)
  }

  predicate TileInside(p: Args, t: nat, i: nat, j: nat) {
    && i % 4 == 0 && j % 4 == 0 && j + 4 <= p.lda && RowLow(p, t) <= i && i + 4 <= RowHigh(p, t) <= p.lda
    && forall y: nat :: i <= y < i + 4 ==> Mine(p, t, y)
  }

  ghost predicate Knows(p: Args, c0: seq<int>, t: nat, r: nat, l: Core, m: seq<int>)
    requires p.ncores > 0
  {
    BKept(p, m) &&
    match l
    case Copy(i, loaded, got) =>
      && r == 0 && CopyLow(p, t) <= i <= CopyHigh(p, t) && CopiedTo(p, m, CopyLow(p, t), i)
      && RowsAt(p, c0, m, t, 0, 0, 0) && (loaded ==> i < CopyHigh(p, t) && got == BValue(p, i))
    case Tile(i, j, c, step) =>
      && r == 1 && CopiedTo(p, m, 0, Size(p)) && TileInside(p, t, i, j) && step < Loads(p) + 16
      && (if step < 16 then Loaded(p, c0, i, j, c, step) && RowsAt(p, c0, m, t, i, j, 0)
          else if step < Loads(p) then Accumulated(p, c0, i, j, c, step - 16) && RowsAt(p, c0, m, t, i, j, 0)
          else Accumulated(p, c0, i, j, c, 4 * p.lda) && RowsAt(p, c0, m, t, i, j, step - Loads(p)))
    case Finished => r == 1 && RowsAt(p, c0, m, t, p.lda, 0, 0)
  }

  ghost function KnowsOf(p: Args, c0: seq<int>): Outline<Core>
    requires p.ncores > 0
  {
    (t: nat, r: nat, l: Core, m: seq<int>) => Knows(p, c0, t, r, l, m)
  }

  // ---------------------------------------------------------------------
  // Rows and addresses
  // ---------------------------------------------------------------------

  lemma ShareEnds(p: Args, t: nat)
    requires Fits(p) && t < p.ncores
    ensures p.w * t + p.w <= p.lda && p.w * (t + 1) == p.w * t + p.w
  {
    DivMod.QuotientInside(p.lda, p.ncores);
    DivMod.MulMonotone(t + 1, p.ncores, p.w);
  }

  lemma ShareBounds(p: Args, t: nat)
    requires Fits(p) && t < p.ncores
    ensures p.w * t + p.w <= p.lda && RowLow(p, t) % 4 == 0
    ensures RowHigh(p, t) == if IsLast(p, t) then p.lda else p.w * t + p.w
    ensures 0 <= Half(p) <= Size(p)
  {
    ShareEnds(p, t);
    DivMod.QuotientInside(Size(p), p.ncores);
    DivMod.TimesMultipleOfFour(p.w, t);
    DivMod.MultipleSum(p.w * t, p.w, 4);
    hide Half, Size;
    assert (p.w * t + p.w) / 4 * 4 == p.w * t + p.w;
  }

  lemma MineInside(p: Args, t: nat, y: nat)
    requires Fits(p) && t < p.ncores && Mine(p, t, y)
    ensures y < p.lda
  {
    ShareBounds(p, t);
  }

  /** Every row belongs to one core ... */
  lemma MineOf(p: Args, y: nat) returns (t: nat)
    requires Fits(p) && y < p.lda
    ensures t < p.ncores && Mine(p, t, y)
  {
    if y >= p.w * (p.ncores - 1) {
      t := p.ncores - 1;
    } else {
      t := OwnerOf(p.w, p.ncores - 1, y);
      assert (t + 1) * p.w == p.w * t + p.w;
    }
  }

  /** ... and to no other. */
  lemma MineOnce(p: Args, t: nat, u: nat, y: nat)
    requires t < u < p.ncores && Mine(p, u, y)
    ensures !Mine(p, t, y)
  {
    DivMod.MulMonotone(t + 1, u, p.w);
    assert (t + 1) * p.w == p.w * t + p.w;
  }

  lemma RowInTile(p: Args, t: nat, i: nat, j: nat, n: nat)
    requires Fits(p) && t < p.ncores && TileInside(p, t, i, j) && n < 16
    ensures Mine(p, t, i + n % 4) && i + n % 4 < p.lda && j + n / 4 < p.lda
    ensures BB_SIZE <= CAt(p, j + n / 4, i + n % 4) < BB_SIZE + Size(p)
  {
    CInside(p, j + n / 4, i + n % 4);
  }

  // ---------------------------------------------------------------------
  // One tile
  // ---------------------------------------------------------------------

  lemma LoadStep(p: Args, c0: seq<int>, t: nat, r: nat, l: Core, m: seq<int>)
    requires Fits(p) && t < p.ncores && |m| == BB_SIZE + 2 * Size(p)
    requires l.Tile? && Knows(p, c0, t, r, l, m) && l.step < 16
    ensures StepKept(Program(p), KnowsOf(p, c0), t, r, l, m)
  {
    hide BKept, CopiedTo, CAt, TileInside, Dot, Entry;
    var n := l.step;
    RowInTile(p, t, l.i, l.j, n);
    assert At(m, CAt(p, l.j + n / 4, l.i + n % 4)) == Wanted(p, c0, l.i, l.j, 0, l.j + n / 4, l.i + n % 4);
    var c' := l.c[n := At(m, CAt(p, l.j + n / 4, l.i + n % 4))];
    assert Loaded(p, c0, l.i, l.j, c', n + 1);
    if n + 1 == 16 {
      NoTermsYet(p, c0, l.i, l.j, c');
    }
  }

  lemma NoTermsYet(p: Args, c0: seq<int>, i: nat, j: nat, c: seq<int>)
    requires Loaded(p, c0, i, j, c, 16)
    ensures Accumulated(p, c0, i, j, c, 0)
  {
  }

  /** One more load of B adds one term to the temporaries of one column. */
  lemma Accumulate(p: Args, c0: seq<int>, i: nat, j: nat, c: seq<int>, s: nat)
    requires Accumulated(p, c0, i, j, c, s)
    ensures Accumulated(p, c0, i, j, AddTerm(p, i, c, s % 4, s / 4, B(p, s / 4, j + s % 4)), s + 1)
  {
    hide Dot, A, B, Entry;
    var e, k := s % 4, s / 4;
    var c' := AddTerm(p, i, c, e, k, B(p, k, j + e));
    forall n: nat | n < 16
      ensures c'[n] == Entry(c0, p.lda, i + n % 4, j + n / 4)
                       + Dot(p.a, p.b, p.lda, i + n % 4, j + n / 4, Terms(s + 1, n / 4))
    {
      NextTerms(s, n / 4);
      DotNext(p, i + n % 4, j + n / 4, k);
    }
  }

  lemma NextTerms(s: nat, e: nat)
    requires e < 4
    ensures Terms(s + 1, e) == Terms(s, e) + (if e == s % 4 then 1 else 0)
    ensures e == s % 4 ==> Terms(s, e) == s / 4
  {
    var q, r := s / 4, s % 4;
    assert s == 4 * q + r;
    if r == 3 {
      assert (s + 1) / 4 == q + 1 && (s + 1) % 4 == 0;
    } else {
      assert (s + 1) / 4 == q && (s + 1) % 4 == r + 1;
    }
  }

  /** The copy and the original hold the same element. */
  lemma SourceHolds(p: Args, m: seq<int>, t: nat, k: nat, i: nat)
    requires k < p.lda && i < p.lda && BKept(p, m) && CopiedTo(p, m, 0, Size(p)) && p.lda * p.lda <= BB_SIZE
    requires |m| == BB_SIZE + 2 * Size(p)
    ensures var a := (if IsLast(p, t) then 0 else BBase(p)) + Ix(p.lda, k, i); a < |m| && m[a] == B(p, k, i)
  {
    IxInside(p.lda, k, i);
    assert At(m, BBase(p) + Ix(p.lda, k, i)) == BValue(p, Ix(p.lda, k, i));
    assert At(m, Ix(p.lda, k, i)) == BValue(p, Ix(p.lda, k, i));
  }

  lemma LoadIndex(p: Args, step: nat)
    requires 16 <= step < Loads(p)
    ensures (step - 16) / 4 < p.lda && (step - 16) % 4 == step % 4
    ensures step + 1 < Loads(p) || (step + 1 == Loads(p) && step + 1 - 16 == 4 * p.lda)
  {
  }

  lemma ReadStep(p: Args, c0: seq<int>, t: nat, r: nat, l: Core, m: seq<int>)
    requires Fits(p) && t < p.ncores && |m| == BB_SIZE + 2 * Size(p)
    requires l.Tile? && Knows(p, c0, t, r, l, m) && 16 <= l.step < Loads(p)
    ensures StepKept(Program(p), KnowsOf(p, c0), t, r, l, m)
  {
    hide BKept, CopiedTo, RowsAt, Accumulated, AddTerm, A, B, Ix, BBase, Size, TileInside, Loads;
    var s := l.step - 16;
    LoadIndex(p, l.step);
    TileParts(p, t, l.i, l.j);
    SourceHolds(p, m, t, s / 4, l.j + s % 4);
    Accumulate(p, c0, l.i, l.j, l.c, s);
  }

  lemma StoreElsewhereInC(p: Args, m: seq<int>, i: nat, j: nat, v: int)
    requires Fits(p) && i < p.lda && j < p.lda && |m| == BB_SIZE + 2 * Size(p)
    requires BKept(p, m)
    ensures BKept(p, Store(m, CAt(p, i, j), v))
    ensures CopiedTo(p, m, 0, Size(p)) ==> CopiedTo(p, Store(m, CAt(p, i, j), v), 0, Size(p))
  {
    CInside(p, i, j);
    hide BValue, CAt;
  }

  /** A store of C makes one more element final. */
  lemma StoreExtends(p: Args, c0: seq<int>, m: seq<int>, t: nat, i: nat, j: nat, n: nat, v: int)
    requires Fits(p) && t < p.ncores && |m| == BB_SIZE + 2 * Size(p) && n < 16 && TileInside(p, t, i, j)
    requires RowsAt(p, c0, m, t, i, j, n)
    requires v == Entry(c0, p.lda, i + n % 4, j + n / 4) + Dot(p.a, p.b, p.lda, i + n % 4, j + n / 4, p.lda)
    ensures RowsAt(p, c0, Store(m, CAt(p, j + n / 4, i + n % 4), v), t, i, j, n + 1)
  {
    hide CAt, Dot, Entry, TileInside, BB_SIZE;
    RowInTile(p, t, i, j, n);
    var a, b := j + n / 4, i + n % 4;
    var m' := Store(m, CAt(p, a, b), v);
    forall x: nat, y: nat | x < p.lda && Mine(p, t, y)
      ensures At(m', CAt(p, x, y)) == Wanted(p, c0, i, j, n + 1, x, y)
    {
      PastNext(i, j, n, x, y);
      if x != a || y != b {
        StoreElsewhere(p, m, a, b, v, x, y);
      }
    }
  }

  lemma PastNext(i: nat, j: nat, n: nat, x: nat, y: nat)
    requires n < 16
    ensures Past(i, j, n + 1, x, y) <==> Past(i, j, n, x, y) || (x == j + n / 4 && y == i + n % 4)
  {
  }

  /** A complete tile, seen from the tile after it. */
  lemma TileCompletes(p: Args, c0: seq<int>, m: seq<int>, t: nat, i: nat, j: nat)
    requires Fits(p) && t < p.ncores && TileInside(p, t, i, j) && RowsAt(p, c0, m, t, i, j, 16)
    ensures RowsAt(p, c0, m, t, i, j + 4, 0)
    ensures j + 4 == p.lda ==> RowsAt(p, c0, m, t, i + 4, 0, 0)
    ensures j + 4 == p.lda && i + 4 == RowHigh(p, t) ==> RowsAt(p, c0, m, t, p.lda, 0, 0)
  {
    ShareBounds(p, t);
    hide Dot, CAt, Entry;
    assert forall x: nat, y: nat :: x < p.lda && Mine(p, t, y) ==> Past(i, j, 16, x, y) == Past(i, j + 4, 0, x, y);
    if j + 4 == p.lda {
      assert forall x: nat, y: nat :: x < p.lda && Mine(p, t, y) ==> Past(i, j, 16, x, y) == Past(i + 4, 0, 0, x, y);
      if i + 4 == RowHigh(p, t) {
        assert forall x: nat, y: nat :: x < p.lda && Mine(p, t, y) ==> Past(i, j, 16, x, y) == Past(p.lda, 0, 0, x, y);
      }
    }
  }

  lemma TileFrom(p: Args, t: nat, i: nat, j: nat)
    requires Fits(p) && t < p.ncores && RowLow(p, t) <= i && i + 4 <= RowHigh(p, t) && i % 4 == 0
    requires j + 4 <= p.lda && j % 4 == 0
    ensures TileInside(p, t, i, j)
  {
    ShareBounds(p, t);
  }

  lemma NextTileKnown(p: Args, c0: seq<int>, t: nat, r: nat, i: nat, j: nat, m: seq<int>)
    requires Fits(p) && t < p.ncores && r == 1 && TileInside(p, t, i, j)
    requires BKept(p, m) && CopiedTo(p, m, 0, Size(p)) && RowsAt(p, c0, m, t, i, j, 16)
    ensures Knows(p, c0, t, r, NextTile(p, t, i, j), m)
  {
    hide BKept, CopiedTo, RowsAt, RowLow, RowHigh, Size, TileInside;
    TileCompletes(p, c0, m, t, i, j);
    TileParts(p, t, i, j);
    assert p.lda / 4 * 4 == p.lda;
    if j + 4 < p.lda {
      TileFrom(p, t, i, j + 4);
    } else if i + 4 < RowHigh(p, t) {
      TileFrom(p, t, i + 4, 0);
    }
  }

  lemma TileParts(p: Args, t: nat, i: nat, j: nat)
    requires TileInside(p, t, i, j)
    ensures i % 4 == 0 && j % 4 == 0 && j + 4 <= p.lda && RowLow(p, t) <= i && i + 4 <= RowHigh(p, t)
    ensures RowHigh(p, t) % 4 == 0
  {
  }

  lemma StoreStep(p: Args, c0: seq<int>, t: nat, r: nat, l: Core, m: seq<int>)
    requires Fits(p) && t < p.ncores && |m| == BB_SIZE + 2 * Size(p)
    requires l.Tile? && Knows(p, c0, t, r, l, m) && l.step >= Loads(p)
    ensures StepKept(Program(p), KnowsOf(p, c0), t, r, l, m)
  {
    hide BKept, CopiedTo, RowsAt, CAt, Dot, Entry, NextTile, TileInside;
    var n := l.step - Loads(p);
    assert Terms(4 * p.lda, n / 4) == p.lda;
    RowInTile(p, t, l.i, l.j, n);
    StoreElsewhereInC(p, m, l.j + n / 4, l.i + n % 4, l.c[n]);
    StoreExtends(p, c0, m, t, l.i, l.j, n, l.c[n]);
    if n + 1 == 16 {
      NextTileKnown(p, c0, t, r, l.i, l.j, Store(m, CAt(p, l.j + n / 4, l.i + n % 4), l.c[n]));
    }
  }

  // ---------------------------------------------------------------------
  // The outline of the kernel
  // ---------------------------------------------------------------------

  /** A store into B1 leaves B and C alone. */
  lemma CopyKeepsRest(p: Args, c0: seq<int>, m: seq<int>, t: nat, i: nat, v: int)
    requires Fits(p) && t < p.ncores && i < Size(p) && BKept(p, m) && RowsAt(p, c0, m, t, 0, 0, 0)
    ensures BKept(p, Store(m, i, v)) && RowsAt(p, c0, Store(m, i, v), t, 0, 0, 0)
  {
    hide Wanted, BValue;
  }

  lemma CopyStep(p: Args, c0: seq<int>, t: nat, r: nat, l: Core, m: seq<int>)
    requires Fits(p) && t < p.ncores && |m| == BB_SIZE + 2 * Size(p) && l.Copy? && Knows(p, c0, t, r, l, m)
    ensures StepKept(Program(p), KnowsOf(p, c0), t, r, l, m)
  {
    ShareBounds(p, t);
    hide RowsAt, Half;
    if l.i < CopyHigh(p, t) {
      CopyKeepsRest(p, c0, m, t, l.i, l.got);
      assert At(m, BBase(p) + l.i) == BValue(p, l.i);
    }
  }

  lemma OwnStep(p: Args, c0: seq<int>, t: nat, r: nat, l: Core, m: seq<int>)
    requires Fits(p) && t < p.ncores && |m| == BB_SIZE + 2 * Size(p) && Knows(p, c0, t, r, l, m)
    ensures StepKept(Program(p), KnowsOf(p, c0), t, r, l, m)
  {
    hide Knows, StepKept;
    match l
    case Copy(i, loaded, got) => CopyStep(p, c0, t, r, l, m);
    case Tile(i, j, c, step) =>
      if step < 16 {
        LoadStep(p, c0, t, r, l, m);
      } else if step < Loads(p) {
        ReadStep(p, c0, t, r, l, m);
      } else {
        StoreStep(p, c0, t, r, l, m);
      }
    case Finished => NothingToKeep(p, c0, t, r, m);
  }

  lemma NothingToKeep(p: Args, c0: seq<int>, t: nat, r: nat, m: seq<int>)
    requires p.ncores > 0
    ensures StepKept(Program(p), KnowsOf(p, c0), t, r, Finished, m)
  {
  }

  /** Another core's store into B1 puts the right element in place. */
  lemma CopyNonInterfering(p: Args, c0: seq<int>, t: nat, u: nat, r: nat, l: Core, l': Core, m: seq<int>)
    requires Fits(p) && t < p.ncores && u < p.ncores && |m| == BB_SIZE + 2 * Size(p)
    requires Knows(p, c0, t, r, l, m) && Knows(p, c0, u, r, l', m) && l'.Copy? && NextOp(p, u, l').Write?
    ensures Knows(p, c0, t, r, l, Store(m, NextOp(p, u, l').a, NextOp(p, u, l').v))
  {
    ShareBounds(p, u);
    hide RowsAt, Half, BKept;
    CopyKeepsRest(p, c0, m, t, l'.i, l'.got);
  }

  /** A store to another core's row of C. */
  lemma StoreKeepsRows(p: Args, c0: seq<int>, m: seq<int>, t: nat, i: nat, j: nat, n: nat, a: nat, b: nat, v: int)
    requires a < p.lda && RowsAt(p, c0, m, t, i, j, n) && !Mine(p, t, b)
    ensures RowsAt(p, c0, Store(m, CAt(p, a, b), v), t, i, j, n)
  {
    hide CAt, Wanted;
    forall x: nat, y: nat | x < p.lda && Mine(p, t, y)
      ensures At(Store(m, CAt(p, a, b), v), CAt(p, x, y)) == Wanted(p, c0, i, j, n, x, y)
    {
      StoreElsewhere(p, m, a, b, v, x, y);
    }
  }

  lemma StoreNonInterfering(p: Args, c0: seq<int>, t: nat, r: nat, l: Core, a: nat, b: nat, v: int, m: seq<int>)
    requires Fits(p) && t < p.ncores && a < p.lda && b < p.lda && r == 1 && |m| == BB_SIZE + 2 * Size(p)
    requires Knows(p, c0, t, r, l, m) && !Mine(p, t, b)
    ensures Knows(p, c0, t, r, l, Store(m, CAt(p, a, b), v))
  {
    hide RowsAt, BKept, CopiedTo, Accumulated, Loaded, CAt, TileInside;
    BKeptAfterStore(p, m, a, b, v);
    match l
    case Tile(i, j, c, step) =>
      StoreKeepsRows(p, c0, m, t, i, j, if step < Loads(p) then 0 else step - Loads(p), a, b, v);
    case Finished =>
      StoreKeepsRows(p, c0, m, t, p.lda, 0, 0, a, b, v);
  }

  lemma BKeptAfterStore(p: Args, m: seq<int>, a: nat, b: nat, v: int)
    requires Fits(p) && a < p.lda && b < p.lda && |m| == BB_SIZE + 2 * Size(p)
    ensures BKept(p, m) ==> BKept(p, Store(m, CAt(p, a, b), v))
    ensures CopiedTo(p, m, 0, Size(p)) ==> CopiedTo(p, Store(m, CAt(p, a, b), v), 0, Size(p))
  {
    if BKept(p, m) {
      StoreElsewhereInC(p, m, a, b, v);
    } else {
      CInside(p, a, b);
      hide BValue, CAt;
    }
  }

  lemma NotMine(p: Args, t: nat, u: nat, y: nat)
    requires Fits(p) && t < p.ncores && u < p.ncores && t != u && Mine(p, u, y)
    ensures !Mine(p, t, y)
  {
    if t < u {
      MineOnce(p, t, u, y);
    } else if Mine(p, t, y) {
      MineOnce(p, u, t, y);
    }
  }

  lemma OthersStep(p: Args, c0: seq<int>, t: nat, u: nat, r: nat, l: Core, l': Core, m: seq<int>)
    requires Fits(p) && t < p.ncores && u < p.ncores && t != u && |m| == BB_SIZE + 2 * Size(p)
    requires Knows(p, c0, t, r, l, m) && Knows(p, c0, u, r, l', m) && NextOp(p, u, l').Write?
    ensures Knows(p, c0, t, r, l, Store(m, NextOp(p, u, l').a, NextOp(p, u, l').v))
  {
    hide Knows, CAt, TileInside, NextOp;
    if l'.Copy? {
      CopyNonInterfering(p, c0, t, u, r, l, l', m);
    } else {
      StoringTile(p, c0, u, r, l', m);
      var n := l'.step - Loads(p);
      RowInTile(p, u, l'.i, l'.j, n);
      NotMine(p, t, u, l'.i + n % 4);
      StoreNonInterfering(p, c0, t, r, l, l'.j + n / 4, l'.i + n % 4, l'.c[n], m);
    }
  }

  /** A write after the copy stores an element of the tile. */
  lemma StoringTile(p: Args, c0: seq<int>, u: nat, r: nat, l: Core, m: seq<int>)
    requires p.ncores > 0 && Knows(p, c0, u, r, l, m) && NextOp(p, u, l).Write? && !l.Copy?
    ensures l.Tile? && r == 1 && TileInside(p, u, l.i, l.j) && |l.c| == 16 && Loads(p) <= l.step < Loads(p) + 16
    ensures var n := l.step - Loads(p);
            NextOp(p, u, l) == Write(CAt(p, l.j + n / 4, l.i + n % 4), l.c[n])
  {
    hide RowsAt, BKept, CopiedTo, TileInside, CAt, Loaded;
  }

  /** When every core has copied its part, the copy is complete. */
  lemma CopyComplete(p: Args, m: seq<int>)
    requires Fits(p)
    requires forall u: nat :: u < p.ncores ==> CopiedTo(p, m, CopyLow(p, u), CopyHigh(p, u))
    ensures CopiedTo(p, m, 0, Size(p))
  {
    hide CopiedTo, Size;
    var last := p.ncores - 1;
    assert CopiedTo(p, m, CopyLow(p, last), CopyHigh(p, last));
    assert CopyLow(p, last) == 0 && CopyHigh(p, last) == Half(p);
    if p.ncores == 1 {
      assert Half(p) == Size(p);
    } else {
      assert CopiedTo(p, m, CopyLow(p, 0), CopyHigh(p, 0));
      assert CopyLow(p, 0) == Half(p) && CopyHigh(p, 0) == Size(p);
      CopiesJoin(p, m, Half(p), Size(p));
    }
  }

  lemma CopiesJoin(p: Args, m: seq<int>, h: nat, n: nat)
    requires CopiedTo(p, m, 0, h) && CopiedTo(p, m, h, n)
    ensures CopiedTo(p, m, 0, n)
  {
  }

  lemma FirstTileKnown(p: Args, c0: seq<int>, t: nat, m: seq<int>)
    requires Fits(p) && t < p.ncores && BKept(p, m) && CopiedTo(p, m, 0, Size(p)) && RowsAt(p, c0, m, t, 0, 0, 0)
    ensures Knows(p, c0, t, 1, FirstTile(p, t), m)
  {
    ShareBounds(p, t);
    hide BKept, CopiedTo, Dot, CAt, Entry;
    assert p.lda / 4 * 4 == p.lda;
    assert forall x: nat, y: nat :: Mine(p, t, y) ==> Past(0, 0, 0, x, y) == Past(RowLow(p, t), 0, 0, x, y);
    assert RowsAt(p, c0, m, t, RowLow(p, t), 0, 0);
    if RowLow(p, t) < RowHigh(p, t) && 0 < p.lda {
      hide RowsAt;
      assert RowHigh(p, t) % 4 == 0;
      TileFrom(p, t, RowLow(p, t), 0);
    } else {
      assert p.lda > 0 ==> forall y: nat :: !Mine(p, t, y);
    }
  }

  lemma AllTurn(p: Args, c0: seq<int>, r: nat, ls: seq<Core>, m: seq<int>, t: nat)
    requires Fits(p) && |ls| == p.ncores && AllWait(Program(p), KnowsOf(p, c0), r, ls, m) && t < p.ncores
    ensures Knows(p, c0, t, r + 1, Resume(p, t, ls[t], 0), m)
  {
    hide BKept, RowsAt, CopiedTo, FirstTile, CopyLow, CopyHigh;
    forall u: nat | u < p.ncores
      ensures ls[u].Copy? && r == 0 && ls[u].i == CopyHigh(p, u) && Knows(p, c0, u, r, ls[u], m)
      ensures CopiedTo(p, m, CopyLow(p, u), CopyHigh(p, u))
    {
      assert KnowsOf(p, c0)(u, r, ls[u], m) && Program(p).next(u, ls[u]).Wait?;
    }
    assert ls[t].Copy? && Knows(p, c0, t, r, ls[t], m);
    CopyComplete(p, m);
    FirstTileKnown(p, c0, t, m);
  }

  /** The shared memory at the start: C holds c0 and B its elements; B1 holds anything. */
  ghost predicate Initial(p: Args, c0: seq<int>, mem: seq<int>) {
    && |mem| == BB_SIZE + 2 * Size(p) && |c0| == Size(p)
    && mem[BB_SIZE..BB_SIZE + Size(p)] == c0
    && BKept(p, mem)
  }

  lemma InitialKnown(p: Args, c0: seq<int>, mem: seq<int>, t: nat)
    requires Fits(p) && t < p.ncores && Initial(p, c0, mem)
    ensures Knows(p, c0, t, 0, Copy(CopyLow(p, t), false, 0), mem)
  {
    ShareBounds(p, t);
    hide BKept, Half;
    forall x: nat, y: nat | x < p.lda && Mine(p, t, y)
      ensures At(mem, CAt(p, x, y)) == Wanted(p, c0, 0, 0, 0, x, y)
    {
      MineInside(p, t, y);
      CInside(p, x, y);
      assert mem[BB_SIZE..BB_SIZE + Size(p)][Ix(p.lda, y, x)] == mem[CAt(p, x, y)];
    }
  }

  /** The kernel has a complete outline, whatever B1 holds at the start. */
  lemma KernelOutlined(p: Args, c0: seq<int>, mem: seq<int>)
    requires Fits(p) && Initial(p, c0, mem)
    ensures Outlined(Program(p), KnowsOf(p, c0), mem)
  {
    hide Initial, Knows, NextOp, Resume;
    assert |mem| == BB_SIZE + 2 * Size(p) by {
      InitialSize(p, c0, mem);
    }
    var k, inv := Program(p), KnowsOf(p, c0);
    forall t: nat | t < k.n
      ensures inv(t, 0, k.start(t), mem)
    {
      InitialKnown(p, c0, mem, t);
    }
    forall t: nat, r: nat, l: Core, m: seq<int> | t < k.n && |m| == |mem| && inv(t, r, l, m)
      ensures StepKept(k, inv, t, r, l, m)
    {
      OwnStep(p, c0, t, r, l, m);
    }
    assert Local(k, inv, |mem|);
    forall t: nat, u: nat, r: nat, l: Core, l': Core, m: seq<int> |
      t < k.n && u < k.n && t != u && |m| == |mem| && inv(t, r, l, m) && inv(u, r, l', m) && k.next(u, l').Write?
      ensures inv(t, r, l, Store(m, k.next(u, l').a, k.next(u, l').v))
    {
      OthersStep(p, c0, t, u, r, l, l', m);
    }
    assert NonInterfering(k, inv, |mem|);
    forall r: nat, ls: seq<Core>, m: seq<int> | |ls| == k.n && |m| == |mem| && AllWait(k, inv, r, ls, m)
      ensures forall t: nat :: t < k.n ==> inv(t, r + 1, k.resume(t, ls[t], 0), m)
    {
      forall t: nat | t < k.n
        ensures inv(t, r + 1, k.resume(t, ls[t], 0), m)
      {
        AllTurn(p, c0, r, ls, m, t);
      }
    }
    assert Turning(k, inv, |mem|);
  }

  lemma InitialSize(p: Args, c0: seq<int>, mem: seq<int>)
    requires Initial(p, c0, mem)
    ensures |mem| == BB_SIZE + 2 * Size(p)
  {
  }

  // ---------------------------------------------------------------------
  // Main results
  // ---------------------------------------------------------------------

  /** A read of B1 is the last core's, of an element of B in place. */
  ghost predicate ReadIsFinal(p: Args, t: nat, op: Op, m: seq<int>) {
    op.Read? && op.a < BB_SIZE ==>
      IsLast(p, t) && exists k: nat, i: nat ::
        k < p.lda && i < p.lda && op.a == Ix(p.lda, k, i) && At(m, op.a) == B(p, k, i)
  }

  lemma KnownRead(p: Args, c0: seq<int>, t: nat, r: nat, l: Core, m: seq<int>)
    requires Fits(p) && t < p.ncores && |m| == BB_SIZE + 2 * Size(p) && Knows(p, c0, t, r, l, m)
    ensures ReadIsFinal(p, t, NextOp(p, t, l), m)
  {
    hide RowsAt, Accumulated, Loaded, BKept, CopiedTo, B, Ix;
    if NextOp(p, t, l).Read? && NextOp(p, t, l).a < BB_SIZE {
      assert l.Tile? && 16 <= l.step < Loads(p);
      LoadIndex(p, l.step);
      SourceHolds(p, m, t, (l.step - 16) / 4, l.j + l.step % 4);
    }
  }

  /** Along every interleaving: only the last core reads the copy, and what it reads is B, never an element still to
      be copied. */
  lemma ReadsAreFinal(p: Args, c0: seq<int>, mem: seq<int>, schedule: seq<nat>, t: nat)
    requires Fits(p) && Initial(p, c0, mem) && t < p.ncores && forall u :: u in schedule ==> u < p.ncores
    ensures var s := Run(Program(p), Boot(Program(p), mem), schedule);
            t < |s.locals| == |s.barrier.threads| &&
            (s.barrier.threads[t].place.Outside? ==> ReadIsFinal(p, t, NextOp(p, t, s.locals[t]), s.mem))
  {
    hide Knows, ReadIsFinal, NextOp, Fits, Initial, Resume;
    KernelOutlined(p, c0, mem);
    OutlineHolds(Program(p), KnowsOf(p, c0), mem, schedule);
    InitialSize(p, c0, mem);
    var s := Run(Program(p), Boot(Program(p), mem), schedule);
    if s.barrier.threads[t].place.Outside? {
      assert KnowsOf(p, c0)(t, s.barrier.released, s.locals[t], s.mem);
      KnownRead(p, c0, t, s.barrier.released, s.locals[t], s.mem);
    }
  }

  /** Along every interleaving: once all cores have finished, C is what it was plus the product of A and B. */
  lemma ProductAdded(p: Args, c0: seq<int>, mem: seq<int>, schedule: seq<nat>, i: nat, j: nat)
    requires Fits(p) && Initial(p, c0, mem) && forall u :: u in schedule ==> u < p.ncores
    requires AllDone(Program(p), Run(Program(p), Boot(Program(p), mem), schedule))
    requires i < p.lda && j < p.lda
    ensures var s := Run(Program(p), Boot(Program(p), mem), schedule);
            At(s.mem, CAt(p, i, j)) == Entry(c0, p.lda, j, i) + Dot(p.a, p.b, p.lda, j, i, p.lda)
  {
    KernelOutlined(p, c0, mem);
    OutlineHolds(Program(p), KnowsOf(p, c0), mem, schedule);
    var s := Run(Program(p), Boot(Program(p), mem), schedule);
    var t := MineOf(p, j);
    assert s.barrier.threads[t].place.Outside? && Program(p).next(t, s.locals[t]).Done?;
    assert KnowsOf(p, c0)(t, s.barrier.released, s.locals[t], s.mem);
    assert Past(p.lda, 0, 0, i, j);
  }

  /** Along every interleaving, until the product has been added some core can move. */
  lemma KernelNeverStuck(p: Args, c0: seq<int>, mem: seq<int>, schedule: seq<nat>) returns (e: nat)
    requires Fits(p) && Initial(p, c0, mem) && forall u :: u in schedule ==> u < p.ncores
    requires !AllDone(Program(p), Run(Program(p), Boot(Program(p), mem), schedule))
    ensures Enabled(Program(p), Run(Program(p), Boot(Program(p), mem), schedule), e)
  {
    var k, inv := Program(p), KnowsOf(p, c0);
    KernelOutlined(p, c0, mem);
    assert Uniform(k, inv, |mem|);
    e := NoDeadlock(k, inv, mem, schedule);
  }
}
