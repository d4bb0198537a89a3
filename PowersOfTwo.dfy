/** Exact integer arithmetic on powers of two, in place of the floating-point
    logarithms and the bit trick that the source uses. */
module PowersOfTwo {

  function Pow2(k: nat): (p: nat)
    ensures p >= 1
  {
    if k == 0 then 1 else 2 * Pow2(k - 1)
  }

  /** n is 2^k for some k. */
  predicate IsPowerOfTwo(n: int)
    decreases if n < 0 then 0 else n
  {
    n == 1 || (n >= 2 && n % 2 == 0 && IsPowerOfTwo(n / 2))
  }

  lemma {:induction false} Pow2IsPowerOfTwo(k: nat)
    ensures IsPowerOfTwo(Pow2(k))
  {
    if k > 0 {
      Pow2IsPowerOfTwo(k - 1);
    }
  }

  lemma {:induction false} Pow2Monotone(j: nat, k: nat)
    requires j <= k
    ensures Pow2(j) <= Pow2(k)
  {
    if j < k {
      Pow2Monotone(j, k - 1);
    }
  }

  /** The exponent of a power of two. */
  function Log2(n: int): (k: nat)
    requires IsPowerOfTwo(n)
    ensures Pow2(k) == n
    decreases n
  {
    if n == 1 then 0 else 1 + Log2(n / 2)
  }

  lemma {:induction false} Log2OfPow2(k: nat)
    ensures IsPowerOfTwo(Pow2(k)) && Log2(Pow2(k)) == k
  {
    Pow2IsPowerOfTwo(k);
    var j := Log2(Pow2(k));
    if j < k {
      Pow2Monotone(j + 1, k);
    } else if k < j {
      Pow2Monotone(k + 1, j);
    }
  }

  /** The least a with n <= 2^a: ceil(log2(n)) for n >= 1, and 0 for n = 0. */
  function CeilLog2(n: nat): (a: nat)
    ensures n <= Pow2(a)
    ensures a > 0 ==> Pow2(a - 1) < n
  {
    if n <= 1 then 0 else 1 + CeilLog2((n + 1) / 2)
  }

  /** 2^ceil(log2 n) equals n exactly when n is a power of two. */
  lemma {:induction false} CeilLog2Exact(n: nat)
    requires n >= 1
    ensures Pow2(CeilLog2(n)) == n <==> IsPowerOfTwo(n)
  {
    var a := CeilLog2(n);
    if Pow2(a) == n {
      Pow2IsPowerOfTwo(a);
    }
    if IsPowerOfTwo(n) {
      var k := Log2(n);
      if a < k {
        Pow2Monotone(a, k - 1);
      } else if k < a {
        Pow2Monotone(k, a - 1);
      }
    }
  }

  function Max(a: int, b: int): int
  {
    if a < b then b else a
  }

  /** Bitwise AND of two non-negative integers, taken bit by bit from the
      least significant end; on values that fit a 32-bit int it is Java's `&`. */
  function BitAnd(a: nat, b: nat): nat
  {
    if a == 0 || b == 0 then 0
    else 2 * BitAnd(a / 2, b / 2) + (if a % 2 == 1 && b % 2 == 1 then 1 else 0)
  }

  lemma {:induction false} BitAndSelf(a: nat)
    ensures BitAnd(a, a) == a
  {
    if a > 0 {
      BitAndSelf(a / 2);
    }
  }

  /** The test `(n & (n - 1)) == 0` holds of a positive n exactly when n is a
      power of two. */
  lemma {:induction false} BitAndTest(n: nat)
    requires n >= 1
    ensures BitAnd(n, n - 1) == 0 <==> IsPowerOfTwo(n)
  {
    if n == 1 {
      assert BitAnd(1, 0) == 0;
    } else if n % 2 == 0 {
      BitAndTest(n / 2);
      assert (n - 1) / 2 == n / 2 - 1;
      assert BitAnd(n, n - 1) == 2 * BitAnd(n / 2, n / 2 - 1);
    } else {
      BitAndSelf(n / 2);
      assert (n - 1) / 2 == n / 2;
      assert BitAnd(n, n - 1) == 2 * BitAnd(n / 2, n / 2);
      assert !IsPowerOfTwo(n);
    }
  }
}
