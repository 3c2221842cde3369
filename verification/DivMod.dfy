// The little integer division the models need, for a divisor that is a variable.

module DivMod {

  /** A quotient and an in-range remainder are the quotient and the remainder. */
  lemma DivModUnique(x: int, d: int, q: int, r: int)
    requires 0 <= r < d && x == q * d + r
    ensures x / d == q && x % d == r
  {
    var q', r' := x / d, x % d;
    assert x == q' * d + r';
    if q > q' {
      StepTooBig(q - q', d, r' - r);
    }
    if q < q' {
      StepTooBig(q' - q, d, r - r');
    }
  }

  lemma StepTooBig(k: int, d: int, gap: int)
    requires k >= 1 && -d < gap < d
    ensures k * d != gap
  {
    assert k * d == (k - 1) * d + d;
  }

  /** Multiples of d add and subtract to multiples of d. */
  lemma MultipleSum(x: int, y: int, d: int)
    requires d > 0 && x % d == 0 && y % d == 0
    ensures (x + y) % d == 0 && (x - y) % d == 0
  {
    assert x == (x / d) * d && y == (y / d) * d;
    assert (x / d + y / d) * d == x + y && (x / d - y / d) * d == x - y;
    DivModUnique(x + y, d, x / d + y / d, 0);
    DivModUnique(x - y, d, x / d - y / d, 0);
  }

  /** A multiple of a multiple of d is a multiple of d. */
  lemma MultipleOfMultiple(x: int, a: int, d: int)
    requires a > 0 && d > 0 && x % a == 0 && a % d == 0
    ensures x % d == 0
  {
    var p, q := x / a, a / d;
    MulAssociates(p, q, d);
    DivModUnique(x, d, p * q, 0);
  }

  lemma MulAssociates(a: int, b: int, c: int)
    ensures a * (b * c) == (a * b) * c
  {
  }

  lemma MulMonotone(a: int, b: int, c: nat)
    requires a <= b
    ensures a * c <= b * c
  {
  }

  /** A quotient of a natural number by a positive one is no larger. */
  lemma QuotientInside(x: nat, n: nat)
    requires n > 0
    ensures 0 <= x / n <= x && (x / n) * n <= x
  {
    var q := x / n;
    assert x == q * n + x % n;
    MulMonotone(1, n, q);
    assert q * n == n * q;
  }

  /** A multiple of a multiple of four. */
  lemma TimesMultipleOfFour(x: nat, t: nat)
    requires x % 4 == 0
    ensures (x * t) % 4 == 0
  {
    var q := x / 4;
    assert x == q * 4;
    assert x * t == (q * t) * 4;
    DivModUnique(x * t, 4, q * t, 0);
  }
}
