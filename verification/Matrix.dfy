// Square matrices stored row by row, as the matmul kernels index them, and the
// dot products they accumulate.

module Matrix {
  import opened DivMod

  /** Index of row i, column k in a matrix with rows of lda elements. */
  function Ix(lda: nat, i: nat, k: nat): nat {
    i * lda + k
  }

  /** The element there (0 outside the matrix, which no kernel reads). */
  function Entry(x: seq<int>, lda: nat, i: nat, k: nat): int {
    if Ix(lda, i, k) < |x| then x[Ix(lda, i, k)] else 0
  }

  /** First n terms of row j of a times column i of b. */
  function Dot(a: seq<int>, b: seq<int>, lda: nat, j: nat, i: nat, n: nat): int {
    if n == 0 then 0 else Dot(a, b, lda, j, i, n - 1) + Entry(a, lda, j, n - 1) * Entry(b, lda, n - 1, i)
  }

  lemma IxInside(lda: nat, i: nat, k: nat)
    requires i < lda && k < lda
    ensures Ix(lda, i, k) < lda * lda
  {
    MulMonotone(i + 1, lda, lda);
  }

  /** Distinct positions have distinct indices. */
  lemma IxInjective(lda: nat, i: nat, k: nat, i': nat, k': nat)
    requires k < lda && k' < lda && Ix(lda, i, k) == Ix(lda, i', k')
    ensures i == i' && k == k'
  {
    DivModUnique(Ix(lda, i, k), lda, i, k);
    DivModUnique(Ix(lda, i', k'), lda, i', k');
  }

  // ---------------------------------------------------------------------
  // Rows shared out among cores in equal runs of w
  // ---------------------------------------------------------------------

  /** Row x belongs to core t. */
  predicate Owns(w: nat, t: nat, x: nat) {
    t * w <= x < (t + 1) * w
  }

  lemma OwnsOnce(w: nat, t: nat, u: nat, x: nat)
    requires Owns(w, t, x) && Owns(w, u, x)
    ensures t == u
  {
    if t < u {
      MulMonotone(t + 1, u, w);
    } else if u < t {
      MulMonotone(u + 1, t, w);
    }
  }

  /** Every row below n * w belongs to one of n cores. */
  lemma OwnerOf(w: nat, n: nat, x: nat) returns (t: nat)
    requires x < n * w
    ensures t < n && Owns(w, t, x)
  {
    assert w > 0;
    t := x / w;
    assert x == t * w + x % w;
    if t >= n {
      MulMonotone(n, t, w);
    }
  }

  /** A core's rows lie within the matrix. */
  lemma OwnsInside(w: nat, n: nat, t: nat, x: nat)
    requires t < n && x <= (t + 1) * w
    ensures x <= n * w
  {
    MulMonotone(t + 1, n, w);
  }
}
