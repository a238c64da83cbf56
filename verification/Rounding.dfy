/** Rounding of integers to a given number of significant binary digits, ties to
    even (section 4.3.1 of IEEE 754-2008). */
module Rounding {
  import opened Arithmetic

  /** Integers with at most `p` significant binary digits. */
  ghost predicate Representable(p: nat, y: nat) {
    exists m: nat, k: nat :: IsScaled(p, y, m, k)
  }

  ghost predicate IsScaled(p: nat, y: nat, m: nat, k: nat) {
    m < Pow2(p) && y == m * Pow2(k)
  }

  function Distance(x: int, y: int): nat {
    if x <= y then y - x else x - y
  }

  /** `r` is the correctly rounded `n`: no representable integer is nearer, and
      when another one is as near, the last of the `p` digits of `r` is zero. */
  ghost predicate NearestEven(p: nat, n: nat, r: nat)
    requires 1 <= p
  {
    && Representable(p, r)
    && (forall y: nat | Representable(p, y) :: Distance(r, n) <= Distance(y, n))
    && (forall y: nat | Representable(p, y) && y != r && Distance(y, n) == Distance(r, n) :: Representable(p - 1, r))
  }

  /** Quotient, rounded to nearest with ties to an even quotient. */
  function RoundQuotient(n: nat, k: nat): nat
    requires 1 <= k
  {
    var q, d, half := n / Pow2(k), n % Pow2(k), Pow2(k - 1);
    DivideShrinks(n, Pow2(k));
    if d > half || (d == half && q % 2 == 1) then q + 1 else q
  }

  /** What a conversion to `p` digits in the default rounding direction delivers. */
  function RoundEven(p: nat, n: nat): int
    requires 1 <= p
  {
    var len := BitLen(n);
    if len <= p then n else RoundQuotient(n, len - p) * Pow2(len - p)
  }

  // ---- RoundEven meets the specification ----

  /** The two representable neighbours of a number with too many digits. */
  ghost predicate Brackets(p: nat, n: nat, k: nat, q: nat) {
    && 1 <= p && Pow2(p - 1) <= q < Pow2(p)
    && q * Pow2(k) <= n < (q + 1) * Pow2(k)
  }

  lemma BracketExists(p: nat, n: nat)
    requires 1 <= p < BitLen(n)
    ensures 0 <= n / Pow2(BitLen(n) - p)
    ensures Brackets(p, n, BitLen(n) - p, n / Pow2(BitLen(n) - p))
  {
    var k := BitLen(n) - p;
    BitLenBounds(n);
    Pow2Add(p - 1, k);
    Pow2Add(p, k);
    QuotientRange(n, Pow2(k), Pow2(p - 1), Pow2(p));
  }

  /** A number with a coarse enough scale is a multiple of the finer unit. */
  lemma CoarserMultiple(m: nat, j: nat, k: nat) returns (z: nat)
    requires k <= j
    ensures m * Pow2(j) == z * Pow2(k)
  {
    var a, b := Pow2(j - k), Pow2(k);
    MulNonNegative(m, a);
    z := m * a;
    Pow2Add(j - k, k);
    assert m * (a * b) == (m * a) * b;
  }

  /** Nothing representable lies strictly between the two neighbours. */
  lemma NothingBetween(p: nat, n: nat, k: nat, q: nat, y: nat)
    requires Brackets(p, n, k, q) && Representable(p, y)
    ensures y <= q * Pow2(k) || (q + 1) * Pow2(k) <= y
  {
    var m: nat, j: nat :| IsScaled(p, y, m, j);
    if j < k {
      ScaleBound(m, p, j);
      Pow2Monotone(p + j, p - 1 + k);
      ScaleLowerBound(q, p - 1, k);
    } else {
      var z := CoarserMultiple(m, j, k);
      ProductOrder(q, z, Pow2(k));
      ProductOrder(z, q + 1, Pow2(k));
    }
  }

  /** A significand of `p` digits, or 2^p after rounding up. */
  lemma ScaledRepresentable(p: nat, q: nat, k: nat)
    requires q <= Pow2(p) && 1 <= p
    ensures 0 <= q * Pow2(k) && Representable(p, q * Pow2(k))
  {
    var y := q * Pow2(k);
    MulNonNegative(q, Pow2(k));
    if q < Pow2(p) {
      assert IsScaled(p, y, q, k);
    } else {
      assert y == Pow2(p + k) by {
        Pow2Add(p, k);
      }
      Pow2StrictlyMonotone(0, p);
      assert IsScaled(p, y, 1, p + k);
    }
  }

  lemma HalveScaled(q: nat, h: nat, k: nat)
    requires q == 2 * h
    ensures q * Pow2(k) == h * Pow2(k + 1)
  {
    Regroup(h, Pow2(k));
  }

  /** An even significand needs one digit less. */
  lemma EvenHalves(p: nat, q: nat, k: nat)
    requires 2 <= p && q <= Pow2(p) && q % 2 == 0
    ensures 0 <= q * Pow2(k) && Representable(p - 1, q * Pow2(k))
  {
    HalveScaled(q, q / 2, k);
    ScaledRepresentable(p - 1, q / 2, k + 1);
  }

  lemma RoundedRepresentable(p: nat, q: nat, k: nat)
    requires 2 <= p && q <= Pow2(p)
    ensures 0 <= q * Pow2(k) && Representable(p, q * Pow2(k))
    ensures q % 2 == 0 ==> Representable(p - 1, q * Pow2(k))
  {
    ScaledRepresentable(p, q, k);
    if q % 2 == 0 {
      EvenHalves(p, q, k);
    }
  }

  /** The rule: down below half a unit, up above it, to the even quotient at it. */
  lemma QuotientChoice(n: nat, k: nat)
    requires 1 <= k
    ensures var u, q := Pow2(k), n / Pow2(k);
            var d, c := n % u, RoundQuotient(n, k);
            || (c == q && (2 * d < u || (2 * d == u && c % 2 == 0)))
            || (c == q + 1 && (u < 2 * d || (2 * d == u && c % 2 == 0)))
  {
    assert Pow2(k) == 2 * Pow2(k - 1);
  }

  /** The neighbour that RoundQuotient picks is at least as near as the other one,
      and on a tie its quotient is even. */
  lemma PicksNearest(n: nat, k: nat)
    requires 1 <= k
    ensures var u, q, c := Pow2(k), n / Pow2(k), RoundQuotient(n, k);
            && (c == q || c == q + 1)
            && 2 * Distance(c * u, n) <= u
            && (2 * Distance(c * u, n) == u ==> c % 2 == 0)
  {
    DivideBounds(n, Pow2(k));
    QuotientChoice(n, k);
    DistanceToMultiples(n, n / Pow2(k), n % Pow2(k), Pow2(k));
  }

  lemma DistanceToMultiples(n: nat, q: nat, d: nat, u: nat)
    requires n == q * u + d && d < u
    ensures Distance(q * u, n) == d && Distance((q + 1) * u, n) == u - d
  {
    ProductOrder(q, q + 1, u);
  }

  /** With its neighbours known, the one picked is correctly rounded. */
  lemma PickedIsNearest(p: nat, n: nat, r: nat, below: nat, above: nat)
    requires 2 <= p && below <= n < above && (r == below || r == above) && Representable(p, r)
    requires 2 * Distance(r, n) <= above - below
    requires 2 * Distance(r, n) == above - below ==> Representable(p - 1, r)
    requires forall y: nat | Representable(p, y) :: y <= below || above <= y
    ensures NearestEven(p, n, r)
  {
  }

  lemma RoundedToNeighbour(p: nat, n: nat)
    requires 2 <= p < BitLen(n)
    ensures var k := BitLen(n) - p;
            var r := RoundQuotient(n, k) * Pow2(k);
            0 <= r && NearestEven(p, n, r) && 2 * Distance(r, n) <= Pow2(k)
  {
    var k := BitLen(n) - p;
    var q, c := n / Pow2(k), RoundQuotient(n, k);
    BracketExists(p, n);
    PicksNearest(n, k);
    RoundedRepresentable(p, c, k);
    MulNonNegative(q, Pow2(k));
    MulNonNegative(q + 1, Pow2(k));
    var r, below, above := c * Pow2(k), q * Pow2(k), (q + 1) * Pow2(k);
    assert above - below == Pow2(k) by {
      ProductOrder(q, q + 1, Pow2(k));
    }
    forall y: nat | Representable(p, y)
      ensures y <= below || above <= y
    {
      NothingBetween(p, n, k, q, y);
    }
    PickedIsNearest(p, n, r, below, above);
  }

  lemma RoundEvenIsNearest(p: nat, n: nat)
    requires 2 <= p
    ensures 0 <= RoundEven(p, n) && NearestEven(p, n, RoundEven(p, n))
    ensures BitLen(n) <= p ==> RoundEven(p, n) == n
    ensures p < BitLen(n) ==> 2 * Distance(RoundEven(p, n), n) <= Pow2(BitLen(n) - p)
  {
    if BitLen(n) <= p {
      ExactIsNearest(p, n);
    } else {
      RoundedToNeighbour(p, n);
    }
  }

  lemma ExactIsNearest(p: nat, n: nat)
    requires 1 <= p && BitLen(n) <= p
    ensures NearestEven(p, n, n)
  {
    if n > 0 {
      BitLenBounds(n);
      Pow2Monotone(BitLen(n), p);
    }
    assert Pow2(0) == 1 && n * 1 == n;
    assert IsScaled(p, n, n, 0);
  }

  // ---- the specification determines the result ----

  /** Two representable numbers around `n` are a whole spacing apart. */
  lemma TooNarrow(p: nat, n: nat, k: nat, q: nat, below: nat, above: nat)
    requires Brackets(p, n, k, q) && Representable(p, below) && Representable(p, above) && below <= n < above
    ensures Pow2(k) <= above - below
  {
    NothingBetween(p, n, k, q, below);
    NothingBetween(p, n, k, q, above);
    ProductOrder(q, q + 1, Pow2(k));
  }

  /** Of two adjacent neighbours at most one has an even significand. */
  lemma NotBothEven(p: nat, n: nat)
    requires 2 <= p < BitLen(n)
    ensures var u, q := Pow2(BitLen(n) - p), n / Pow2(BitLen(n) - p);
            && 0 <= q * u && 0 <= (q + 1) * u
            && !(Representable(p - 1, q * u) && Representable(p - 1, (q + 1) * u))
  {
    var k := BitLen(n) - p;
    var u, q := Pow2(k), n / Pow2(k);
    BracketExists(p, n);
    BracketExists(p - 1, n);
    MulNonNegative(q, u);
    MulNonNegative(q + 1, u);
    assert (q + 1) * u == q * u + u by {
      ProductOrder(q, q + 1, u);
    }
    if Representable(p - 1, q * u) && Representable(p - 1, (q + 1) * u) {
      TooNarrow(p - 1, n, k + 1, n / Pow2(k + 1), q * u, (q + 1) * u);
    }
  }

  lemma PickedNeighbour(p: nat, n: nat)
    requires 2 <= p < BitLen(n)
    ensures var u, q := Pow2(BitLen(n) - p), n / Pow2(BitLen(n) - p);
            && (RoundEven(p, n) == q * u || RoundEven(p, n) == (q + 1) * u)
            && 2 * Distance(RoundEven(p, n), n) <= u == (q + 1) * u - q * u
  {
    var k := BitLen(n) - p;
    PicksNearest(n, k);
    ProductOrder(n / Pow2(k), n / Pow2(k) + 1, Pow2(k));
  }

  lemma TieIsOtherNeighbour(p: nat, n: nat, r: nat)
    requires 2 <= p < BitLen(n) && r != RoundEven(p, n)
    requires var u, q := Pow2(BitLen(n) - p), n / Pow2(BitLen(n) - p);
             r <= q * u <= n < (q + 1) * u || q * u <= n < (q + 1) * u <= r
    requires Distance(r, n) == Distance(RoundEven(p, n), n)
    ensures var u, q := Pow2(BitLen(n) - p), n / Pow2(BitLen(n) - p);
            || (r == q * u && RoundEven(p, n) == (q + 1) * u)
            || (r == (q + 1) * u && RoundEven(p, n) == q * u)
  {
    var k := BitLen(n) - p;
    var u, q := Pow2(k), n / Pow2(k);
    PickedNeighbour(p, n);
    OtherOfTwo(n, r, RoundEven(p, n), q * u, (q + 1) * u);
  }

  lemma OtherOfTwo(n: nat, r: int, picked: int, below: int, above: int)
    requires below <= n < above && (r <= below || above <= r) && (picked == below || picked == above)
    requires r != picked && Distance(r, n) == Distance(picked, n) && 2 * Distance(picked, n) <= above - below
    ensures (r == below && picked == above) || (r == above && picked == below)
  {
  }

  /** Two different numbers that are both correctly rounded would both be even. */
  lemma TieMeansEven(p: nat, n: nat, r: nat, s: nat)
    requires 1 <= p && NearestEven(p, n, r) && NearestEven(p, n, s) && r != s
    ensures Distance(r, n) == Distance(s, n)
    ensures Representable(p, r) && Representable(p - 1, r) && Representable(p - 1, s)
  {
  }

  /** A number as near as the one picked is the other neighbour. */
  lemma NearAlternative(p: nat, n: nat, r: nat)
    requires 2 <= p < BitLen(n) && r != RoundEven(p, n) && Distance(r, n) == Distance(RoundEven(p, n), n)
    requires Representable(p, r)
    ensures var u, q := Pow2(BitLen(n) - p), n / Pow2(BitLen(n) - p);
            || (r == q * u && RoundEven(p, n) == (q + 1) * u)
            || (r == (q + 1) * u && RoundEven(p, n) == q * u)
  {
    BracketExists(p, n);
    NothingBetween(p, n, BitLen(n) - p, n / Pow2(BitLen(n) - p), r);
    TieIsOtherNeighbour(p, n, r);
  }

  lemma OtherIsNotEven(p: nat, n: nat, r: nat)
    requires 2 <= p < BitLen(n) && r != RoundEven(p, n) && Distance(r, n) == Distance(RoundEven(p, n), n)
    requires Representable(p, r) && 0 <= RoundEven(p, n)
    ensures !(Representable(p - 1, r) && Representable(p - 1, RoundEven(p, n)))
  {
    NearAlternative(p, n, r);
    NotBothEven(p, n);
  }

  /** NearestEven holds of exactly one number: RoundEven. */
  lemma NearestEvenIsUnique(p: nat, n: nat, r: nat)
    requires 2 <= p
    ensures NearestEven(p, n, r) <==> r == RoundEven(p, n)
  {
    RoundEvenIsNearest(p, n);
    if NearestEven(p, n, r) && p < BitLen(n) && r != RoundEven(p, n) {
      TieMeansEven(p, n, r, RoundEven(p, n));
      OtherIsNotEven(p, n, r);
    }
  }
}
