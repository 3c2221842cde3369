// Powers of two, and the bitwise test for them that memalign uses.

module PowersOfTwo {
  import opened DivMod

  function Pow2(n: nat): (r: nat)
    ensures r >= 1
  {
    if n == 0 then 1 else 2 * Pow2(n - 1)
  }

  lemma Pow2Doubles(n: nat)
    ensures Pow2(0) == 1 && Pow2(n + 1) == Pow2(n) + Pow2(n)
  {
  }

  predicate IsPowerOfTwo(n: int) {
    n > 0 && (n == 1 || (n % 2 == 0 && IsPowerOfTwo(n / 2)))
  }

  /** One of 1, 2, 4, 8 and so on. */
  ghost predicate InPowers(n: int) {
    exists k: nat :: n == Pow2(k)
  }

  lemma {:induction false} Pow2IsPower(k: nat)
    ensures IsPowerOfTwo(Pow2(k))
    decreases k
  {
    if k > 0 {
      Pow2IsPower(k - 1);
      DivModUnique(Pow2(k), 2, Pow2(k - 1), 0);
    }
  }

  lemma {:induction false} ExponentOf(n: int) returns (k: nat)
    requires IsPowerOfTwo(n)
    ensures n == Pow2(k)
    decreases n
  {
    if n == 1 {
      k := 0;
    } else {
      var h := ExponentOf(n / 2);
      k := h + 1;
    }
  }

  /** Halving down to 1 finds exactly the powers. */
  lemma PowerOfTwoIff(n: int)
    ensures IsPowerOfTwo(n) <==> InPowers(n)
  {
    if IsPowerOfTwo(n) {
      var k := ExponentOf(n);
    }
    if k: nat :| n == Pow2(k) {
      Pow2IsPower(k);
    }
  }

  /** x & y. */
  function And(x: nat, y: nat): nat {
    if x == 0 || y == 0 then 0 else 2 * And(x / 2, y / 2) + x % 2 * (y % 2)
  }

  /** Bit k of x is set. */
  predicate IsSet(x: nat, k: nat)
    decreases k
  {
    if k == 0 then x % 2 == 1 else IsSet(x / 2, k - 1)
  }

  lemma HalfOfSum(h: nat, b: nat)
    requires b < 2
    ensures (2 * h + b) / 2 == h && (2 * h + b) % 2 == b
  {
  }

  lemma {:induction false} ZeroBits(k: nat)
    ensures !IsSet(0, k)
    decreases k
  {
    if k > 0 {
      ZeroBits(k - 1);
    }
  }

  /** A bit of x & y is set exactly if it is set in both. */
  lemma {:induction false} AndBits(x: nat, y: nat, k: nat)
    ensures IsSet(And(x, y), k) <==> IsSet(x, k) && IsSet(y, k)
    decreases k
  {
    ZeroBits(k);
    if x != 0 && y != 0 {
      BitProduct(x % 2, y % 2);
      HalfOfSum(And(x / 2, y / 2), x % 2 * (y % 2));
      if k > 0 {
        AndBits(x / 2, y / 2, k - 1);
      }
    }
  }

  lemma BitProduct(a: nat, b: nat)
    requires a < 2 && b < 2
    ensures a * b == if a == 1 && b == 1 then 1 else 0
  {
  }

  lemma {:induction false} AndSelf(x: nat)
    ensures And(x, x) == x
    decreases x
  {
    if x != 0 {
      AndSelf(x / 2);
      BitProduct(x % 2, x % 2);
    }
  }

  /** align & (align - 1) is 0 for exactly the powers of two among the positive numbers. */
  lemma {:induction false} GuardIff(n: nat)
    requires n > 0
    ensures And(n, n - 1) == 0 <==> IsPowerOfTwo(n)
    decreases n
  {
    if n > 1 {
      var h := n / 2;
      if n % 2 == 0 {
        HalfOfSum(h - 1, 1);
        GuardIff(h);
      } else {
        HalfOfSum(h, 0);
        AndSelf(h);
      }
    }
  }
}
