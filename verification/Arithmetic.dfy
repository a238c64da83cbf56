/** Integer facts shared by the models: division with remainder, and powers of two. */
module Arithmetic {

  function Min(a: nat, b: nat): nat {
    if a <= b then a else b
  }

  lemma Distribute(n: int, a: int, b: int)
    ensures n * (a + b) == n * a + n * b
  {
  }

  lemma Regroup(a: int, b: int)
    ensures (2 * a) * b == 2 * (a * b) == a * (2 * b)
  {
  }

  lemma MulNonNegative(a: nat, b: nat)
    ensures 0 <= a * b
  {
  }

  lemma MulGap(n: nat, a: int, b: int)
    ensures a < b ==> n * a + n <= n * b
  {
    if a < b {
      Distribute(n, a + 1, b - a - 1);
      Distribute(n, a, 1);
      MulNonNegative(n, b - a - 1);
    }
  }

  /** Quotient and remainder are unique. */
  lemma DivModUnique(x: int, q: int, d: int, n: nat)
    requires 0 < n && 0 <= d < n && x == n * q + d
    ensures x / n == q && x % n == d
  {
    MulGap(n, q, x / n);
    MulGap(n, x / n, q);
  }

  lemma ModAdd(a: nat, k: nat, n: nat)
    requires 0 < n
    ensures (a % n + k) % n == (a + k) % n
  {
    var q, d := (a % n + k) / n, (a % n + k) % n;
    assert a + k == n * (a / n + q) + d by {
      assert n * (a / n + q) == n * (a / n) + n * q;
    }
    DivModUnique(a + k, a / n + q, d, n);
  }

  // ---- powers of two ----

  function Pow2(n: nat): (r: nat)
    ensures 0 < r
  {
    if n == 0 then 1 else 2 * Pow2(n - 1)
  }

  lemma {:induction false} Pow2Add(a: nat, b: nat)
    ensures Pow2(a + b) == Pow2(a) * Pow2(b)
  {
    if b > 0 {
      Pow2Add(a, b - 1);
      Regroup(Pow2(a), Pow2(b - 1));
    }
  }

  lemma {:induction false} Pow2Monotone(a: nat, b: nat)
    requires a <= b
    ensures Pow2(a) <= Pow2(b)
  {
    if a < b {
      Pow2Monotone(a, b - 1);
    }
  }

  lemma {:induction false} Pow2StrictlyMonotone(a: nat, b: nat)
    requires a < b
    ensures 2 * Pow2(a) <= Pow2(b)
  {
    Pow2Monotone(a + 1, b);
  }

  lemma Pow2Constants()
    ensures Pow2(23) == 0x80_0000 && Pow2(24) == 0x100_0000
    ensures Pow2(52) == 0x10_0000_0000_0000 && Pow2(53) == 0x20_0000_0000_0000
    ensures Pow2(63) == 0x8000_0000_0000_0000 && Pow2(64) == 0x1_0000_0000_0000_0000
  {
    assert Pow2(12) == 0x1000;
    assert Pow2(10) == 0x400;
    Pow2Add(12, 12);
    Pow2Add(24, 24);
    Pow2Add(48, 12);
    assert Pow2(60) == 0x1000_0000_0000_0000;
    Pow2Add(53, 10);
  }

  lemma DivideShrinks(m: nat, p: nat)
    requires 0 < p
    ensures 0 <= m / p <= m
  {
    MulGap(p, m, m / p);
    MulNonNegative(p - 1, m);
    Distribute(m, p - 1, 1);
  }

  /** The number of binary digits. */
  function BitLen(n: nat): nat {
    if n == 0 then 0 else 1 + BitLen(n / 2)
  }

  lemma {:induction false} BitLenBounds(n: nat)
    requires 0 < n
    ensures 1 <= BitLen(n)
    ensures Pow2(BitLen(n) - 1) <= n < Pow2(BitLen(n))
  {
    if n > 1 {
      BitLenBounds(n / 2);
    }
  }

  lemma {:induction false} BitLenAtMost(n: nat, k: nat)
    requires n < Pow2(k)
    ensures BitLen(n) <= k
  {
    if n > 0 {
      BitLenBounds(n);
      if k < BitLen(n) {
        Pow2Monotone(k, BitLen(n) - 1);
        assert false;
      }
    }
  }

  lemma ScaleBound(n: nat, a: nat, b: nat)
    requires n < Pow2(a)
    ensures 0 <= n * Pow2(b) < Pow2(a + b)
    ensures n != 0 ==> 0 < n * Pow2(b)
  {
    Pow2Add(a, b);
    MulGap(Pow2(b), n, Pow2(a));
    MulGap(Pow2(b), 0, n);
  }

  lemma ScaleLowerBound(n: nat, a: nat, b: nat)
    requires Pow2(a) <= n
    ensures Pow2(a + b) <= n * Pow2(b)
  {
    Pow2Add(a, b);
    MulGap(Pow2(b), Pow2(a), n);
  }

  /** Multiples of `u` are ordered like their quotients. */
  lemma ProductOrder(a: int, b: int, u: nat)
    ensures a <= b ==> a * u <= b * u
    ensures a < b ==> a * u + u <= b * u
    ensures 0 < u && a * u < b * u ==> a < b
    ensures (a + 1) * u == a * u + u
  {
    MulGap(u, a, b);
    MulGap(u, b, a);
    Distribute(u, a, 1);
  }

  lemma DivideBounds(n: nat, u: nat)
    requires 0 < u
    ensures 0 <= n / u && n / u * u + n % u == n
  {
    DivideShrinks(n, u);
  }

  /** Where a quotient lies, from bounds on the dividend. */
  lemma QuotientRange(n: nat, u: nat, a: nat, b: nat)
    requires 0 < u && a * u <= n < b * u
    ensures a <= n / u < b
    ensures n / u * u <= n < (n / u + 1) * u
  {
    var q := n / u;
    DivideBounds(n, u);
    ProductOrder(q, a, u);
    ProductOrder(b, q, u);
  }
}
