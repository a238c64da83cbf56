/** The three uint64 to floating-point routines of libtcc/libtcc1.c: correct
    rounding without double rounding, and the round trips with the routines that
    convert back. */
module FloatConversions {
  import opened Arithmetic
  import opened FloatValues
  import opened FixConversions
  import opened FixLaws
  import opened Rounding

  /** A conversion or an addition of the processor whose exact result is `n`,
      delivered with `p` significant digits. */
  function RoundInt(p: nat, n: int): int
    requires 1 <= p
  {
    if n < 0 then -RoundEven(p, -n) else RoundEven(p, n)
  }

  // ---- storing a rounded integer ----

  ghost predicate HasValue(x: Float, n: int) {
    x.Finite? && !x.neg && Magnitude(x.m, x.e) == n as real
  }

  /** Exponent and fraction of a non-negative integer that fits the format. */
  function EncodeFields(f: Format, n: nat): (int, int) {
    if n == 0 then (0, 0)
    else
      var len, p := BitLen(n), f.fracBits + 1;
      (len - 1 + f.bias,
       (if len <= p then n * Pow2(p - len) else n / Pow2(len - p)) - Pow2(f.fracBits))
  }

  /** A representable number with too many digits ends in zeros. */
  lemma TrailingZeros(p: nat, n: nat)
    requires 1 <= p < BitLen(n) && Representable(p, n)
    ensures n / Pow2(BitLen(n) - p) * Pow2(BitLen(n) - p) == n
  {
    var k := BitLen(n) - p;
    BracketExists(p, n);
    NothingBetween(p, n, k, n / Pow2(k), n);
  }

  /** The significand that is stored: all its digits, the first one set. */
  lemma StoredSignificand(p: nat, n: nat)
    requires 1 <= p && 0 < n && Representable(p, n)
    ensures var len := BitLen(n);
            var m := if len <= p then n * Pow2(p - len) else n / Pow2(len - p);
            Pow2(p - 1) <= m < Pow2(p) && Magnitude(m, len - p) == n as real
  {
    var len := BitLen(n);
    BitLenBounds(n);
    if len <= p {
      ScaleBound(n, len, p - len);
      ScaleLowerBound(n, len - 1, p - len);
      MagnitudeRescale(n, 0, p - len);
      MagnitudeOfInteger(n);
    } else {
      BracketExists(p, n);
      TrailingZeros(p, n);
      MagnitudeShiftedLeft(n / Pow2(len - p), len - p);
    }
  }

  /** A significand with its first digit set decodes to itself. */
  lemma DecodeNormal(f: Format, len: nat, m: nat)
    requires 1 <= len <= 65 && 1 <= f.bias && f.bias + 65 <= f.expMax
    requires Pow2(f.fracBits) <= m
    ensures DecodeFields(f, false, len - 1 + f.bias, m - Pow2(f.fracBits))
         == Finite(false, m, len - (f.fracBits + 1))
  {
  }

  lemma EncodeHasValue(f: Format, n: nat)
    requires Representable(f.fracBits + 1, n) && BitLen(n) <= 65 && 1 <= f.bias && f.bias + 65 <= f.expMax
    ensures var (exp, frac) := EncodeFields(f, n);
            && 0 <= exp < f.expMax && 0 <= frac < Pow2(f.fracBits)
            && HasValue(DecodeFields(f, false, exp, frac), n)
  {
    if n == 0 {
      MagnitudeNonNegative(0, 1 - f.bias - f.fracBits);
    } else {
      var (exp, frac) := EncodeFields(f, n);
      StoredSignificand(f.fracBits + 1, n);
      BitLenBounds(n);
      DecodeNormal(f, BitLen(n), frac + Pow2(f.fracBits));
    }
  }

  function SingleOfInt(n: nat): int {
    var (exp, frac) := EncodeFields(SINGLE, n);
    exp * 0x80_0000 + frac
  }

  function DoubleOfInt(n: nat): int {
    var (exp, frac) := EncodeFields(DOUBLE, n);
    exp * 0x10_0000_0000_0000 + frac
  }

  function ExtendedOfInt(n: nat): (int, int) {
    var (exp, frac) := EncodeFields(EXTENDED, n);
    PackExtended(false, exp, frac)
  }

  lemma SingleOfIntHasValue(n: nat)
    requires Representable(24, n) && BitLen(n) <= 65
    ensures 0 <= SingleOfInt(n) < TWO31 && HasValue(Single(SingleOfInt(n)), n)
  {
    Pow2Constants();
    EncodeHasValue(SINGLE, n);
    var (exp, frac) := EncodeFields(SINGLE, n);
    UnpackSingle(false, exp, frac);
  }

  lemma DoubleOfIntHasValue(n: nat)
    requires Representable(53, n) && BitLen(n) <= 65
    ensures 0 <= DoubleOfInt(n) < TWO63 && HasValue(Double(DoubleOfInt(n)), n)
  {
    Pow2Constants();
    EncodeHasValue(DOUBLE, n);
    var (exp, frac) := EncodeFields(DOUBLE, n);
    UnpackDouble(false, exp, frac);
  }

  lemma ExtendedOfIntHasValue(n: nat)
    requires Representable(64, n) && BitLen(n) <= 65
    ensures var (lower, upper) := ExtendedOfInt(n);
            && 0 <= lower < TWO64 && 0 <= upper < 0x1_0000 && ProperlyEncoded(lower, upper)
            && HasValue(Extended(lower, upper), n)
  {
    Pow2Constants();
    EncodeHasValue(EXTENDED, n);
    var (exp, frac) := EncodeFields(EXTENDED, n);
    UnpackExtended(false, exp, frac);
  }

  // ---- the routines ----

  /** The sign fix is exact: a uint64 in the top half goes through a 64-bit
      significand unchanged, so only the final conversion rounds. */
  lemma SignFixIsExact(a: nat)
    requires TWO63 <= a < TWO64
    ensures RoundInt(64, RoundInt(64, AsSigned(a)) + TWO64) == a
  {
    assert BitLen(TWO64 - a) <= 64 && BitLen(a) <= 64 by {
      Pow2Constants();
      BitLenAtMost(TWO64 - a, 64);
      BitLenAtMost(a, 64);
    }
    assert RoundInt(64, AsSigned(a)) == a - TWO64;
  }

  lemma RoundedFits(p: nat, a: nat)
    requires 2 <= p <= 64 && a < TWO64
    ensures 0 <= RoundEven(p, a) <= TWO64 && BitLen(RoundEven(p, a)) <= 65
    ensures Representable(p, RoundEven(p, a))
  {
    Pow2Constants();
    RoundEvenIsNearest(p, a);
    assert Representable(p, TWO64) by {
      Pow2StrictlyMonotone(0, p);
      assert IsScaled(p, TWO64, 1, 64);
    }
    if BitLen(a) > p {
      BitLenAtMost(a, 64);
      BitLenBounds(a);
      Pow2Monotone(BitLen(a), 64);
      BracketExists(p, a);
      NothingBetween(p, a, BitLen(a) - p, a / Pow2(BitLen(a) - p), TWO64);
      PicksNearest(a, BitLen(a) - p);
      ProductOrder(a / Pow2(BitLen(a) - p), a / Pow2(BitLen(a) - p) + 1, Pow2(BitLen(a) - p));
    }
    assert Pow2(65) == 2 * Pow2(64);
    BitLenAtMost(RoundEven(p, a), 65);
  }

  /** The upper half of the union, read as a signed word. */
  function HighWord(a: nat): int {
    var high := a / TWO32;
    if high < TWO31 then high else high - TWO32
  }

  /** __floatundisf: the nearest float, ties to even, for every uint64. */
  method FloatUnDiSf(a: nat) returns (f: nat)
    requires a < TWO64
    ensures f < TWO31 && HasValue(Single(f), RoundEven(24, a))
    ensures 0 <= RoundEven(24, a) && NearestEven(24, a, RoundEven(24, a))
  {
    RoundEvenIsNearest(24, a);
    RoundedFits(24, a);
    SingleOfIntHasValue(RoundEven(24, a));
    var ll := AsSigned(a);
    if HighWord(a) >= 0 {
      f := SingleOfInt(RoundInt(24, ll));
    } else {
      SignFixIsExact(a);
      var r := RoundInt(64, ll);
      r := RoundInt(64, r + 0x1_0000_0000_0000_0000);
      f := SingleOfInt(RoundInt(24, r));
    }
  }

  /** __floatundidf: the nearest double, ties to even, for every uint64. */
  method FloatUnDiDf(a: nat) returns (f: nat)
    requires a < TWO64
    ensures f < TWO63 && HasValue(Double(f), RoundEven(53, a))
    ensures 0 <= RoundEven(53, a) && NearestEven(53, a, RoundEven(53, a))
  {
    RoundEvenIsNearest(53, a);
    RoundedFits(53, a);
    DoubleOfIntHasValue(RoundEven(53, a));
    var ll := AsSigned(a);
    if HighWord(a) >= 0 {
      f := DoubleOfInt(RoundInt(53, ll));
    } else {
      SignFixIsExact(a);
      var r := RoundInt(64, ll);
      r := RoundInt(64, r + 0x1_0000_0000_0000_0000);
      f := DoubleOfInt(RoundInt(53, r));
    }
  }

  /** __floatundixf: exact for every uint64. */
  method FloatUnDiXf(a: nat) returns (lower: nat, upper: nat)
    requires a < TWO64
    ensures lower < TWO64 && upper < 0x8000 && ProperlyEncoded(lower, upper)
    ensures HasValue(Extended(lower, upper), a) && (lower, upper) == ExtendedOfInt(a)
  {
    ExactInExtended(a);
    ExtendedOfIntHasValue(a);
    var ll := AsSigned(a);
    if HighWord(a) >= 0 {
      var (lo, up) := ExtendedOfInt(RoundInt(64, ll));
      lower, upper := lo, up;
    } else {
      SignFixIsExact(a);
      var r := RoundInt(64, ll);
      r := RoundInt(64, r + 0x1_0000_0000_0000_0000);
      var (lo, up) := ExtendedOfInt(RoundInt(64, r));
      lower, upper := lo, up;
    }
  }

  lemma ExactInExtended(a: nat)
    requires a < TWO64
    ensures RoundEven(64, a) == a && Representable(64, a) && BitLen(a) <= 64
  {
    Pow2Constants();
    BitLenAtMost(a, 64);
    ExactIsNearest(64, a);
  }

  // ---- there and back ----

  lemma ToUint64OfInteger(x: Float, n: nat)
    requires HasValue(x, n)
    ensures ToUint64(x) == if n < TWO64 then n else TWO63
  {
  }

  /** Through the 80-bit format every uint64 comes back unchanged. */
  lemma ExtendedRoundTrip(a: nat)
    requires a < TWO64
    ensures var (lower, upper) := ExtendedOfInt(a);
            && 0 <= lower < TWO64 && 0 <= upper < 0x1_0000 && ProperlyEncoded(lower, upper)
            && HasValue(Extended(lower, upper), a) && ToUint64(Extended(lower, upper)) == a
  {
    ExactInExtended(a);
    ExtendedOfIntHasValue(a);
    var (lower, upper) := ExtendedOfInt(a);
    ToUint64OfInteger(Extended(lower, upper), a);
  }

  /** Just below 2^64 all `p` digits are ones and the rest is at least half a unit. */
  lemma TopQuotient(p: nat, a: nat)
    requires 2 <= p <= 63 && TWO64 - Pow2(63 - p) <= a < TWO64
    ensures a / Pow2(64 - p) == Pow2(p) - 1 && Pow2(63 - p) <= a % Pow2(64 - p)
    ensures Pow2(p) * Pow2(64 - p) == TWO64
  {
    var u, top := Pow2(64 - p), Pow2(p);
    assert top * u == TWO64 by {
      Pow2Constants();
      Pow2Add(p, 64 - p);
    }
    assert u == 2 * Pow2(63 - p);
    ProductOrder(top - 1, top, u);
    assert a == u * (top - 1) + (a - TWO64 + u);
    DivModUnique(a, top - 1, a - TWO64 + u, u);
  }

  lemma TopQuotientRoundsUp(p: nat, a: nat)
    requires 2 <= p <= 63 && TWO64 - Pow2(63 - p) <= a < TWO64
    ensures RoundQuotient(a, 64 - p) == Pow2(p)
  {
    TopQuotient(p, a);
    QuotientChoice(a, 64 - p);
    assert Pow2(p) == 2 * Pow2(p - 1) && Pow2(64 - p) == 2 * Pow2(63 - p);
  }

  /** From half a unit below 2^64 on, rounding carries up to 2^64. */
  lemma RoundsUpTo64(p: nat, a: nat)
    requires 2 <= p <= 63 && TWO64 - Pow2(63 - p) <= a < TWO64
    ensures RoundEven(p, a) == TWO64
  {
    assert BitLen(a) == 64 by {
      Pow2Constants();
      Pow2Monotone(63 - p, 63);
      BitLenAtMost(a, 64);
      BitLenAtLeast(a, 63);
    }
    TopQuotientRoundsUp(p, a);
    assert RoundEven(p, a) == Pow2(p) * Pow2(64 - p);
    TopQuotient(p, a);
  }

  lemma BitLenAtLeast(n: nat, k: nat)
    requires Pow2(k) <= n
    ensures k < BitLen(n)
  {
    BitLenBounds(n);
    if BitLen(n) <= k {
      Pow2Monotone(BitLen(n), k);
    }
  }

  /** Below that point the last number before 2^64 is nearer than 2^64 itself. */
  lemma StaysBelow64(p: nat, a: nat)
    requires 2 <= p <= 63 && a < TWO64 - Pow2(63 - p)
    ensures RoundEven(p, a) < TWO64
  {
    var k := 64 - p;
    var u, top := Pow2(k), Pow2(p);
    Pow2Constants();
    var last := TWO64 - u;
    assert top * u == TWO64 by {
      Pow2Add(p, k);
    }
    ProductOrder(top - 1, top, u);
    Pow2Monotone(k, 62);
    Pow2StrictlyMonotone(61, 64);
    assert last == (top - 1) * u;
    assert IsScaled(p, last, top - 1, k);
    RoundEvenIsNearest(p, a);
    RoundedFits(p, a);
    assert u == 2 * Pow2(63 - p);
    assert Distance(last, a) < Distance(TWO64, a);
  }

  /** The rounded number is within half of the widest spacing. */
  lemma RoundingError(p: nat, a: nat)
    requires 2 <= p <= 63 && a < TWO64
    ensures Distance(RoundEven(p, a), a) <= Pow2(63 - p)
  {
    RoundEvenIsNearest(p, a);
    assert BitLen(a) <= 64 by {
      Pow2Constants();
      BitLenAtMost(a, 64);
    }
    if p < BitLen(a) {
      Pow2Monotone(BitLen(a) - p, 64 - p);
    }
    assert Pow2(64 - p) == 2 * Pow2(63 - p);
  }

  /** Converting a uint64 to `p` digits and back differs from it by at most half
      of the widest spacing, exactly when rounding does not reach 2^64. */
  lemma RoundTripIsClose(p: nat, a: nat, x: Float)
    requires 2 <= p <= 63 && a < TWO64 && HasValue(x, RoundEven(p, a))
    ensures Distance(ToUint64(x), a) <= Pow2(63 - p) <==> a < TWO64 - Pow2(63 - p)
  {
    RoundedFits(p, a);
    ToUint64OfInteger(x, RoundEven(p, a));
    if a < TWO64 - Pow2(63 - p) {
      StaysBelow64(p, a);
      RoundingError(p, a);
    } else {
      RoundsUpTo64(p, a);
      Pow2Constants();
      Pow2Monotone(63 - p, 61);
      Pow2StrictlyMonotone(61, 62);
      Pow2StrictlyMonotone(62, 63);
    }
  }

  /** __fixunsdfdi(__floatundidf(a)): within 2^10 of `a` if and only if `a` is
      below 2^64 - 2^10. */
  lemma DoubleRoundTrip(a: nat, f: nat)
    requires a < TWO64 && f < TWO64 && HasValue(Double(f), RoundEven(53, a))
    ensures Distance(ToUint64(Double(f)), a) <= 0x400 <==> a < TWO64 - 0x400
    ensures a >= TWO64 - 0x400 ==> ToUint64(Double(f)) == TWO63
  {
    assert Pow2(10) == 0x400;
    RoundTripIsClose(53, a, Double(f));
    if a >= TWO64 - 0x400 {
      RoundsUpTo64(53, a);
      ToUint64OfInteger(Double(f), TWO64);
    }
  }

  /** __fixunssfdi(__floatundisf(a)): within 2^39 if and only if `a` < 2^64 - 2^39. */
  lemma SingleRoundTrip(a: nat, f: nat)
    requires a < TWO64 && f < TWO32 && HasValue(Single(f), RoundEven(24, a))
    ensures Distance(ToUint64(Single(f)), a) <= 0x80_0000_0000 <==> a < TWO64 - 0x80_0000_0000
    ensures a >= TWO64 - 0x80_0000_0000 ==> ToUint64(Single(f)) == TWO63
  {
    assert Pow2(39) == 0x80_0000_0000 by {
      Pow2Constants();
      assert Pow2(16) == 0x1_0000;
      Pow2Add(23, 16);
    }
    RoundTripIsClose(24, a, Single(f));
    if a >= TWO64 - 0x80_0000_0000 {
      RoundsUpTo64(24, a);
      ToUint64OfInteger(Single(f), TWO64);
    }
  }
}
