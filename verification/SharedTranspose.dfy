// The first half of ae_matmul.c and ce_matmul.c: the cores fill the shared
// static BB with B transposed, column by column, each core its own rows.

module SharedTranspose {
  import opened Cooperative
  import opened Matrix

  /** Size of the static array BB; C follows it in the shared memory of the model. */
  const BB_SIZE := 1024

  /** The arguments all cores share, with w = lda / ncores rows for each core. */
  datatype Args = Args(lda: nat, ncores: nat, w: nat, a: seq<int>, b: seq<int>)

  /** The cores share the rows out evenly and a transposed B fits in BB. */
  predicate Shares(p: Args) {
    p.ncores > 0 && p.lda == p.ncores * p.w && p.lda * p.lda <= BB_SIZE
  }

  function BBAt(p: Args, i: nat, k: nat): nat {
    Ix(p.lda, i, k)
  }

  function CAt(p: Args, i: nat, j: nat): nat {
    BB_SIZE + Ix(p.lda, j, i)
  }

  function A(p: Args, j: nat, k: nat): int {
    Entry(p.a, p.lda, j, k)
  }

  function B(p: Args, k: nat, i: nat): int {
    Entry(p.b, p.lda, k, i)
  }

  function Low(p: Args, t: nat): nat {
    t * p.w
  }

  function High(p: Args, t: nat): nat {
    (t + 1) * p.w
  }

  /** The first n columns of BB hold the first n rows of B. */
  ghost predicate Transposed(p: Args, m: seq<int>, n: nat) {
    forall i: nat, k: nat :: i < p.lda && k < n ==> At(m, BBAt(p, i, k)) == B(p, k, i)
  }

  /** Rows lo to i - 1 of column k of BB are in place. */
  ghost predicate ColumnTo(p: Args, m: seq<int>, k: nat, lo: nat, i: nat) {
    forall x: nat :: lo <= x < i ==> At(m, BBAt(p, x, k)) == B(p, k, x)
  }

  // ---------------------------------------------------------------------
  // Addresses
  // ---------------------------------------------------------------------

  lemma BBInside(p: Args, i: nat, k: nat)
    requires Shares(p) && i < p.lda && k < p.lda
    ensures BBAt(p, i, k) < BB_SIZE
  {
    IxInside(p.lda, i, k);
  }

  lemma CInside(p: Args, i: nat, j: nat)
    requires i < p.lda && j < p.lda
    ensures BB_SIZE <= CAt(p, i, j) < BB_SIZE + p.lda * p.lda
  {
    IxInside(p.lda, j, i);
  }

  lemma OwnRow(p: Args, t: nat, j: nat)
    requires Shares(p) && t < p.ncores && Owns(p.w, t, j)
    ensures j < p.lda
  {
    OwnsInside(p.w, p.ncores, t, j + 1);
  }

  // ---------------------------------------------------------------------
  // One store to BB
  // ---------------------------------------------------------------------

  /** A store to column r of BB leaves the finished columns alone. */
  lemma FillKeepsTransposed(p: Args, m: seq<int>, r: nat, i: nat, v: int)
    requires Shares(p) && i < p.lda && r < p.lda && Transposed(p, m, r)
    ensures Transposed(p, Store(m, BBAt(p, i, r), v), r)
  {
    forall x: nat, k: nat | x < p.lda && k < r
      ensures At(Store(m, BBAt(p, i, r), v), BBAt(p, x, k)) == B(p, k, x)
    {
      if BBAt(p, x, k) == BBAt(p, i, r) {
        IxInjective(p.lda, x, k, i, r);
      }
    }
  }

  /** ... and the other rows of column r. */
  lemma FillKeepsColumn(p: Args, m: seq<int>, r: nat, i: nat, v: int, lo: nat, hi: nat)
    requires Shares(p) && r < p.lda && ColumnTo(p, m, r, lo, hi) && !(lo <= i < hi)
    ensures ColumnTo(p, Store(m, BBAt(p, i, r), v), r, lo, hi)
  {
    forall x: nat | lo <= x < hi
      ensures At(Store(m, BBAt(p, i, r), v), BBAt(p, x, r)) == B(p, r, x)
    {
      if BBAt(p, x, r) == BBAt(p, i, r) {
        IxInjective(p.lda, x, r, i, r);
      }
    }
  }

  lemma TransposedAt(p: Args, m: seq<int>, i: nat, k: nat)
    requires Transposed(p, m, p.lda) && i < p.lda && k < p.lda
    ensures At(m, BBAt(p, i, k)) == B(p, k, i)
  {
  }

  /** A store to C leaves BB alone. */
  lemma StoreKeepsTransposed(p: Args, m: seq<int>, i: nat, j: nat, v: int)
    requires Shares(p) && Transposed(p, m, p.lda)
    ensures Transposed(p, Store(m, CAt(p, i, j), v), p.lda)
  {
    forall x: nat, k: nat | x < p.lda && k < p.lda
      ensures At(Store(m, CAt(p, i, j), v), BBAt(p, x, k)) == B(p, k, x)
    {
      BBInside(p, x, k);
    }
  }

  /** ... and every other element of C. */
  lemma StoreElsewhere(p: Args, m: seq<int>, i: nat, j: nat, v: int, x: nat, y: nat)
    requires i < p.lda && x < p.lda && (x != i || y != j)
    ensures At(Store(m, CAt(p, i, j), v), CAt(p, x, y)) == At(m, CAt(p, x, y))
  {
    if CAt(p, x, y) == CAt(p, i, j) {
      IxInjective(p.lda, y, x, j, i);
    }
  }

  /** A core's share starts with a row of its own. */
  lemma LowIsOwn(p: Args, t: nat)
    requires Shares(p) && p.lda > 0
    ensures Owns(p.w, t, Low(p, t)) && High(p, t) == Low(p, t) + p.w && p.w > 0
  {
    assert p.w > 0;
    assert (t + 1) * p.w == t * p.w + p.w;
  }

  /** The store of B(r, i) extends column r by row i. */
  lemma FillExtends(p: Args, t: nat, r: nat, i: nat, m: seq<int>)
    requires Shares(p) && t < p.ncores && |m| >= BB_SIZE && r < p.lda && Low(p, t) <= i < High(p, t)
    requires Transposed(p, m, r) && ColumnTo(p, m, r, Low(p, t), i)
    ensures BBAt(p, i, r) < BB_SIZE
    ensures var m' := m[BBAt(p, i, r) := B(p, r, i)]; Transposed(p, m', r) && ColumnTo(p, m', r, Low(p, t), i + 1)
  {
    OwnRow(p, t, i);
    BBInside(p, i, r);
    FillKeepsTransposed(p, m, r, i, B(p, r, i));
    FillKeepsColumn(p, m, r, i, B(p, r, i), Low(p, t), i);
  }

  /** Another core's store to column r keeps what core t has filled. */
  lemma FillNonInterfering(p: Args, t: nat, u: nat, r: nat, x: nat, i: nat, m: seq<int>)
    requires Shares(p) && t < p.ncores && u < p.ncores && t != u && r < p.lda
    requires Transposed(p, m, r) && ColumnTo(p, m, r, Low(p, t), x) && x <= High(p, t)
    requires Low(p, u) <= i < High(p, u)
    ensures var m' := Store(m, BBAt(p, i, r), B(p, r, i)); Transposed(p, m', r) && ColumnTo(p, m', r, Low(p, t), x)
  {
    OwnRow(p, u, i);
    FillKeepsTransposed(p, m, r, i, B(p, r, i));
    if Low(p, t) <= i < x {
      OwnsOnce(p.w, t, u, i);
    }
    FillKeepsColumn(p, m, r, i, B(p, r, i), Low(p, t), x);
  }

  /** When every core has filled its part of column r, the column is complete. */
  lemma ColumnComplete(p: Args, r: nat, m: seq<int>)
    requires Shares(p) && r < p.lda && Transposed(p, m, r)
    requires forall u: nat :: u < p.ncores ==> ColumnTo(p, m, r, Low(p, u), High(p, u))
    ensures Transposed(p, m, r + 1)
  {
    forall i: nat, k: nat | i < p.lda && k < r + 1
      ensures At(m, BBAt(p, i, k)) == B(p, k, i)
    {
      var u := OwnerOf(p.w, p.ncores, i);
      if k == r {
        assert ColumnTo(p, m, r, Low(p, u), High(p, u));
      }
    }
  }

  lemma DotNext(p: Args, j: nat, i: nat, n: nat)
    ensures Dot(p.a, p.b, p.lda, j, i, n + 1) == Dot(p.a, p.b, p.lda, j, i, n) + A(p, j, n) * B(p, n, i)
  {
  }
}
