/** Binary floating-point data as libtcc/libtcc1.c sees it: bit patterns in three
    formats, the exact values they stand for, and the C99 conversion of a value to
    a 64-bit integer. */
module FloatValues {
  import opened Arithmetic

  const TWO31 := 0x8000_0000
  const TWO32 := 0x1_0000_0000
  const TWO63 := 0x8000_0000_0000_0000
  const TWO64 := 0x1_0000_0000_0000_0000

  /** A floating-point datum; a finite one is (-1)^neg * m * 2^e. */
  datatype Float = NaN | Infinite(neg: bool) | Finite(neg: bool, m: nat, e: int)

  // ---- exact powers of two, of either sign ----

  ghost function RealPow2(e: int): real
    decreases if e < 0 then -e else e
  {
    if e == 0 then 1.0 else if e > 0 then 2.0 * RealPow2(e - 1) else RealPow2(e + 1) / 2.0
  }

  lemma {:induction false} RealPow2Next(e: int)
    ensures RealPow2(e + 1) == 2.0 * RealPow2(e)
  {
  }

  lemma {:induction false} RealPow2Positive(e: int)
    ensures RealPow2(e) > 0.0
    decreases if e < 0 then -e else e
  {
    if e > 0 { RealPow2Positive(e - 1); } else if e < 0 { RealPow2Positive(e + 1); }
  }

  lemma {:induction false} RealPow2OfNat(n: nat)
    ensures RealPow2(n) == Pow2(n) as real
  {
    if n > 0 {
      RealPow2OfNat(n - 1);
    }
  }

  lemma {:induction false} RealPow2Shift(e: int, n: nat)
    ensures RealPow2(e + n) == Pow2(n) as real * RealPow2(e)
  {
    if n > 0 {
      RealPow2Shift(e, n - 1);
      RealPow2Next(e + n - 1);
      var p, r := Pow2(n - 1) as real, RealPow2(e);
      assert 2.0 * (p * r) == (2.0 * p) * r;
    }
  }

  lemma {:induction false} RealPow2Monotone(e: int, f: int)
    requires e <= f
    ensures RealPow2(e) <= RealPow2(f)
    decreases f - e
  {
    if e < f {
      RealPow2Monotone(e, f - 1);
      RealPow2Next(f - 1);
      RealPow2Positive(f - 1);
    }
  }

  lemma RealTimes(a: real, b: real, c: real)
    requires a <= b && 0.0 <= c
    ensures a * c <= b * c
  {
  }

  lemma RealTimesLeft(c: real, a: real, b: real)
    requires a <= b && 0.0 <= c
    ensures c * a <= c * b
  {
  }

  lemma RealTimesStrict(a: real, b: real, c: real)
    requires a < b && 0.0 < c
    ensures a * c < b * c
  {
  }

  /** The exact magnitude of m * 2^e. */
  ghost function Magnitude(m: int, e: int): real {
    m as real * RealPow2(e)
  }

  lemma MagnitudeNonNegative(m: nat, e: int)
    ensures Magnitude(m, e) >= 0.0
    ensures m > 0 ==> Magnitude(m, e) > 0.0
    ensures m == 0 ==> Magnitude(m, e) == 0.0
  {
    RealPow2Positive(e);
  }

  /** The same value with a longer significand. */
  lemma MagnitudeRescale(m: int, e: int, k: nat)
    ensures Magnitude(m * Pow2(k), e - k) == Magnitude(m, e)
  {
    RealPow2Shift(e - k, k);
    var a, p, r := m as real, Pow2(k) as real, RealPow2(e - k);
    assert (m * Pow2(k)) as real == a * p;
    assert (a * p) * r == a * (p * r);
  }

  lemma MagnitudeMonotone(m: int, n: int, e: int)
    requires m <= n
    ensures Magnitude(m, e) <= Magnitude(n, e)
  {
    RealPow2Positive(e);
    RealTimes(m as real, n as real, RealPow2(e));
  }

  lemma MagnitudeStrictlyMonotone(m: int, n: int, e: int)
    requires m < n
    ensures Magnitude(m, e) < Magnitude(n, e)
  {
    RealPow2Positive(e);
    RealTimesStrict(m as real, n as real, RealPow2(e));
  }

  /** The same significand with a larger exponent. */
  lemma MagnitudeExponentMonotone(m: nat, e: int, f: int)
    requires e <= f
    ensures Magnitude(m, e) <= Magnitude(m, f)
  {
    RealPow2Monotone(e, f);
    RealTimesLeft(m as real, RealPow2(e), RealPow2(f));
  }

  lemma MagnitudeOfInteger(n: int)
    ensures Magnitude(n, 0) == n as real
  {
  }

  /** For exponents that are not negative the magnitude is an integer. */
  lemma MagnitudeShiftedLeft(m: int, k: nat)
    ensures Magnitude(m, k) == (m * Pow2(k)) as real
  {
    MagnitudeRescale(m, k, k);
    assert k - k == 0;
    MagnitudeOfInteger(m * Pow2(k));
  }

  /** For negative exponents a right shift drops exactly the fraction. */
  lemma MagnitudeShiftedRight(m: nat, k: int)
    requires 0 <= k
    ensures Magnitude(m, -k).Floor == m / Pow2(k)
  {
    var p := Pow2(k);
    var q, d := m / p, m % p;
    assert m == q * p + d;
    MagnitudeRescale(q, 0, k);
    MagnitudeOfInteger(q);
    MagnitudeRescale(1, 0, k);
    assert 1 * p == p;
    MagnitudeStrictlyMonotone(d, p, -k);
    MagnitudeNonNegative(d, -k);
    var r := RealPow2(-k);
    assert m as real == (q * p) as real + d as real;
    assert Magnitude(m, -k) == Magnitude(q * p, -k) + Magnitude(d, -k) by {
      assert ((q * p) as real + d as real) * r == (q * p) as real * r + d as real * r;
    }
  }

  // ---- the three encodings ----

  /** A binary interchange format (section 3.4 of IEEE 754-2008): the number of
      stored fraction bits, the all-ones exponent, and the bias. */
  datatype Format = Format(fracBits: nat, expMax: nat, bias: nat)

  const SINGLE := Format(23, 0xFF, 127)
  const DOUBLE := Format(52, 0x7FF, 1023)

  function DecodeFields(f: Format, neg: bool, exp: nat, frac: nat): Float {
    if exp == f.expMax then
      if frac == 0 then Infinite(neg) else NaN
    else if exp == 0 then
      Finite(neg, frac, 1 - f.bias - f.fracBits)
    else
      Finite(neg, frac + Pow2(f.fracBits), exp - f.bias - f.fracBits)
  }

  /** The datum of a 32-bit pattern. */
  function Single(bits: nat): Float
    requires bits < TWO32
  {
    DecodeFields(SINGLE, bits >= TWO31, bits / 0x80_0000 % 0x100, bits % 0x80_0000)
  }

  /** The datum of a 64-bit pattern. */
  function Double(bits: nat): Float
    requires bits < TWO64
  {
    DecodeFields(DOUBLE, bits >= TWO63, bits / 0x10_0000_0000_0000 % 0x800, bits % 0x10_0000_0000_0000)
  }

  /** The datum of an x87 80-bit pattern: a 64-bit significand with an explicit
      integer bit, and sign and exponent in the upper 16 bits. */
  function Extended(lower: nat, upper: nat): Float
    requires lower < TWO64 && upper < 0x1_0000
  {
    var neg, exp := upper >= 0x8000, upper % 0x8000;
    if exp == 0x7FFF then
      if lower % TWO63 == 0 then Infinite(neg) else NaN
    else if exp == 0 then
      Finite(neg, lower, 1 - 16383 - 63)
    else
      Finite(neg, lower, exp - 16383 - 63)
  }

  /** The encodings that the processor produces: the integer bit is set whenever
      the exponent is not zero. */
  predicate ProperlyEncoded(lower: nat, upper: nat) {
    upper % 0x8000 != 0 ==> TWO63 <= lower
  }

  lemma SingleSpecial(bits: nat)
    requires bits < TWO32
    ensures Single(bits).Infinite? <==> bits % TWO31 == 0x7F80_0000
    ensures Single(bits).NaN? <==> 0x7F80_0000 < bits % TWO31
  {
    var e, f := bits / 0x80_0000 % 0x100, bits % 0x80_0000;
    assert bits % TWO31 == e * 0x80_0000 + f;
  }

  lemma DoubleSpecial(bits: nat)
    requires bits < TWO64
    ensures Double(bits).Infinite? <==> bits % TWO63 == 0x7FF0_0000_0000_0000
    ensures Double(bits).NaN? <==> 0x7FF0_0000_0000_0000 < bits % TWO63
  {
    var e, f := bits / 0x10_0000_0000_0000 % 0x800, bits % 0x10_0000_0000_0000;
    assert bits % TWO63 == e * 0x10_0000_0000_0000 + f;
  }

  /** Which patterns are infinities and NaNs. */
  lemma SpecialPatterns(single: nat, double: nat, lower: nat, upper: nat)
    requires single < TWO32 && double < TWO64 && lower < TWO64 && upper < 0x1_0000
    ensures Single(single).Infinite? <==> single % TWO31 == 0x7F80_0000
    ensures Single(single).NaN? <==> 0x7F80_0000 < single % TWO31
    ensures Double(double).Infinite? <==> double % TWO63 == 0x7FF0_0000_0000_0000
    ensures Double(double).NaN? <==> 0x7FF0_0000_0000_0000 < double % TWO63
    ensures Extended(lower, upper).Infinite? <==> upper % 0x8000 == 0x7FFF && lower % TWO63 == 0
    ensures Extended(lower, upper).NaN? <==> upper % 0x8000 == 0x7FFF && lower % TWO63 != 0
  {
    SingleSpecial(single);
    DoubleSpecial(double);
  }

  lemma PowerOfTwoIsOne(k: nat)
    ensures Magnitude(Pow2(k), 0 - k) == 1.0
  {
    MagnitudeOfInteger(1);
    MagnitudeRescale(1, 0, k);
    assert 1 * Pow2(k) == Pow2(k);
  }

  lemma SingleOne()
    ensures Single(0x3F80_0000) == Finite(false, Pow2(23), -23)
  {
  }

  lemma DoubleOne()
    ensures Double(0x3FF0_0000_0000_0000) == Finite(false, Pow2(52), -52)
  {
  }

  lemma ExtendedOne()
    ensures Extended(TWO63, 0x3FFF) == Finite(false, Pow2(63), -63)
  {
    Pow2Constants();
  }

  ghost predicate IsOne(x: Float) {
    x.Finite? && !x.neg && Magnitude(x.m, x.e) == 1.0
  }

  /** The pattern of one in each format. */
  lemma PatternsOfOne()
    ensures IsOne(Single(0x3F80_0000)) && IsOne(Double(0x3FF0_0000_0000_0000)) && IsOne(Extended(TWO63, 0x3FFF))
  {
    SingleOne();
    DoubleOne();
    ExtendedOne();
    PowerOfTwoIsOne(23);
    PowerOfTwoIsOne(52);
    PowerOfTwoIsOne(63);
  }

  /** The smallest positive pattern in each format. */
  lemma SmallestPatterns()
    ensures Single(1) == Finite(false, 1, -149) && Double(1) == Finite(false, 1, -1074)
    ensures Extended(1, 0) == Finite(false, 1, -16445)
  {
  }

  // ---- the conversion the routines are for ----

  /** A datum as an unsigned 64-bit integer: truncated toward zero and reduced
      modulo 2^64 while the magnitude is below 2^64, and 2^63 otherwise. */
  ghost function ToUint64(x: Float): nat {
    match x
    case NaN => TWO63
    case Infinite(_) => TWO63
    case Finite(neg, m, e) =>
      var v := Magnitude(m, e);
      MagnitudeNonNegative(m, e);
      if v >= TWO64 as real then TWO63
      else if neg then (TWO64 - v.Floor) % TWO64
      else v.Floor
  }

  /** Two data with the same value, whatever their significands look like. */
  ghost predicate SameValue(x: Float, y: Float) {
    match x
    case NaN => y.NaN?
    case Infinite(neg) => y == Infinite(neg)
    case Finite(neg, m, e) => y.Finite? && y.neg == neg && Magnitude(y.m, y.e) == Magnitude(m, e)
  }
}
