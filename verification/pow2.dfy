/** Integer facts the transform engine relies on: powers of two, the integer
    logarithm that stands in for the floating-point `log2`, and the smallest
    power of two not below a length. */
module PowersOfTwo {

  import Arithmetic

  /** 2^k. */
  function Pow2(k: nat): (p: nat)
    ensures p >= 1
  {
    if k == 0 then 1 else 2 * Pow2(k - 1)
  }

  /** n is a power of two: 1, 2, 4, 8, ... */
  predicate IsPow2(n: nat)
    decreases n
  {
    n == 1 || (n >= 2 && n % 2 == 0 && IsPow2(n / 2))
  }

  /** The exponent of a power of two; for such n it is what `log2(n)` is meant
      to compute. */
  function Log2(n: nat): (k: nat)
    requires IsPow2(n)
    ensures Pow2(k) == n
    decreases n
  {
    if n == 1 then 0 else 1 + Log2(n / 2)
  }

  /** The smallest power of two that is at least n (1 for n <= 1). */
  function CeilPow2(n: nat): (p: nat)
    ensures IsPow2(p) && p >= n
    decreases n
  {
    if n <= 1 then 1 else 2 * CeilPow2((n + 1) / 2)
  }

  lemma {:induction false} Pow2IsPow2(k: nat)
    ensures IsPow2(Pow2(k))
  {
    if k > 0 {
      Pow2IsPow2(k - 1);
      assert Pow2(k) / 2 == Pow2(k - 1);
    }
  }

  lemma {:induction false} Pow2Add(a: nat, b: nat)
    ensures Pow2(a + b) == Pow2(a) * Pow2(b)
    decreases a
  {
    if a > 0 {
      Pow2Add(a - 1, b);
    }
  }

  lemma {:induction false} Pow2Monotone(a: nat, b: nat)
    requires a <= b
    ensures Pow2(a) <= Pow2(b)
    decreases b
  {
    if a < b {
      Pow2Monotone(a, b - 1);
    }
  }

  /** Pow2 is strictly increasing, so it determines its exponent. */
  lemma Pow2StrictlyMonotone(a: nat, b: nat)
    requires a < b
    ensures Pow2(a) < Pow2(b)
  {
    Pow2Monotone(a, b - 1);
  }

  /** Pow2 preserves the order of exponents both ways. */
  lemma Pow2ExponentsOrdered(a: nat, b: nat)
    requires Pow2(a) < Pow2(b)
    ensures a < b
  {
    if a >= b {
      Pow2Monotone(b, a);
    }
  }

  /** IsPow2 holds of exactly the numbers 2^k. */
  lemma IsPow2Exactly(n: nat)
    ensures IsPow2(n) <==> exists k: nat :: Pow2(k) == n
  {
    if IsPow2(n) {
      assert Pow2(Log2(n)) == n;
    }
    if exists k: nat :: Pow2(k) == n {
      var k: nat :| Pow2(k) == n;
      Pow2IsPow2(k);
    }
  }

  /** A power of two greater than one is even and halves to a power of two. */
  lemma HalfOfPow2(n: nat)
    requires IsPow2(n) && n > 1
    ensures n % 2 == 0 && IsPow2(n / 2) && n / 2 >= 1 && 2 * (n / 2) == n
  {
  }

  /** The smaller of two powers of two divides the larger one. */
  lemma Pow2Divides(n: nat, m: nat)
    requires IsPow2(n) && IsPow2(m) && n <= m
    ensures m % n == 0 && m / n >= 1 && (m / n) * n == m
  {
    var a, b := Log2(n), Log2(m);
    if a > b {
      Pow2StrictlyMonotone(b, a);
    }
    Pow2Add(b - a, a);
    Arithmetic.DivModOfProduct(Pow2(b - a), n);
  }

  /** CeilPow2(n) is the least power of two that is at least n. */
  lemma {:induction false} CeilPow2Least(n: nat, q: nat)
    requires IsPow2(q) && q >= n
    ensures CeilPow2(n) <= q
    decreases n
  {
    if n > 1 {
      HalfOfPow2(q);
      assert q / 2 >= (n + 1) / 2;
      CeilPow2Least((n + 1) / 2, q / 2);
    }
  }

  /** A length that is already a power of two needs no padding. */
  lemma CeilPow2OfPow2(n: nat)
    requires IsPow2(n)
    ensures CeilPow2(n) == n
  {
    CeilPow2Least(n, n);
  }
}

/** Facts about Euclidean division and remainder used by the index arithmetic. */
module Arithmetic {

  /** A quotient and a remainder in range determine `/` and `%`. */
  lemma DivModUnique(x: int, d: int, q: int, r: int)
    requires d > 0 && x == q * d + r && 0 <= r < d
    ensures x / d == q && x % d == r
  {
    var q0, r0 := x / d, x % d;
    assert x == q0 * d + r0;
    assert (q0 - q) * d == r - r0;
    if q0 > q {
      MulAtLeast(q0 - q, d);
    } else if q0 < q {
      MulAtLeast(q - q0, d);
    }
  }

  lemma Distributes(a: int, b: int, c: int)
    ensures (a + b) * c == a * c + b * c
  {
  }

  lemma Associates(a: int, b: int, c: int)
    ensures (a * b) * c == a * (b * c)
  {
  }

  lemma Rearranges(a: int, b: int, c: int)
    ensures a * (c * b) == (b * a) * c
  {
  }

  /** A quotient that is not zero means the dividend reaches the divisor. */
  lemma NonzeroQuotient(a: int, d: int)
    requires a >= 0 && d > 0 && a / d != 0
    ensures a >= d
  {
    if a < d {
      DivModUnique(a, d, 0, a);
    }
  }

  /** A quotient that is zero means the dividend is below the divisor. */
  lemma ZeroQuotient(a: int, d: int)
    requires a >= 0 && d > 0 && a / d == 0
    ensures a < d
  {
    assert a == (a / d) * d + a % d;
  }

  lemma MulAtLeast(k: int, d: int)
    requires k >= 1 && d > 0
    ensures k * d >= d
  {
    assert k * d == (k - 1) * d + d;
  }

  lemma MulMonotone(x: int, y: int, k: int)
    requires x <= y && k >= 0
    ensures x * k <= y * k
  {
    assert y * k - x * k == (y - x) * k;
  }

  lemma DivModOfProduct(a: int, d: int)
    requires d > 0
    ensures (a * d) / d == a && (a * d) % d == 0
  {
    DivModUnique(a * d, d, a, 0);
  }

  /** Adding a multiple of d changes neither the remainder nor, beyond that
      multiple, the quotient. */
  lemma ModAddMultiple(x: int, m: int, d: int)
    requires d > 0
    ensures (x + m * d) % d == x % d && (x + m * d) / d == x / d + m
  {
    DivModUnique(x + m * d, d, x / d + m, x % d);
  }

  /** Dividing twice is dividing by the product. */
  lemma DivDiv(a: int, b: int, c: int)
    requires a >= 0 && b > 0 && c > 0
    ensures (a / b) / c == a / (b * c)
  {
    var q1, r1 := a / b, a % b;
    var q2, r2 := q1 / c, q1 % c;
    assert a == q1 * b + r1;
    assert q1 == q2 * c + r2;
    assert q1 * b == q2 * (b * c) + r2 * b by {
      assert q1 * b == (q2 * c + r2) * b;
    }
    assert r2 * b <= (c - 1) * b by {
      MulMonotone(r2, c - 1, b);
    }
    assert (c - 1) * b == b * c - b;
    DivModUnique(a, b * c, q2, r2 * b + r1);
  }

  /** A remainder modulo a multiple w of d keeps the remainder modulo d. */
  lemma ModOfModMultiple(x: int, d: int, k: int, w: int)
    requires d > 0 && k > 0 && w == d * k
    ensures (x % w) % d == x % d
  {
    var q := x / w;
    assert x == x % w + (q * k) * d;
    ModAddMultiple(x % w, q * k, d);
  }

  /** Reducing a factor modulo a multiple w of d before multiplying does not
      change the product modulo d. */
  lemma ModMulModMultiple(x: int, p: int, d: int, k: int, w: int)
    requires d > 0 && k > 0 && w == d * k
    ensures ((x % w) * p) % d == (x * p) % d
  {
    var q := x / w;
    var r := x % w;
    assert x == r + q * w;
    assert x * p == r * p + (q * k * p) * d by {
      Distributes(r, q * w, p);
    }
    ModAddMultiple(r * p, q * k * p, d);
  }
}
