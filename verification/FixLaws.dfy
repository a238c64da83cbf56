/** Laws of the conversion that all six routines share: truncation in the signed
    range, agreement across formats, and monotonicity. */
module FixLaws {
  import opened Arithmetic
  import opened FloatValues
  import opened FixConversions

  // ---- truncation ----

  /** The exact value of a finite datum. */
  ghost function RealValue(x: Float): real
    requires x.Finite?
  {
    if x.neg then -Magnitude(x.m, x.e) else Magnitude(x.m, x.e)
  }

  /** The value with its fraction discarded (section 6.3.1.4 of ISO C99). */
  ghost function Truncated(x: Float): int
    requires x.Finite?
  {
    if x.neg then -(Magnitude(x.m, x.e).Floor) else Magnitude(x.m, x.e).Floor
  }

  /** In the range of a signed 64-bit integer the conversion is truncation. */
  lemma SignedRangeTruncates(x: Float)
    requires x.Finite? && -(TWO63 as real) <= RealValue(x) < TWO63 as real
    ensures AsSigned(ToUint64(x)) == Truncated(x)
  {
    MagnitudeNonNegative(x.m, x.e);
  }

  /** The conversion of a finite value is its truncation modulo 2^64 if and only if
      the magnitude is below 2^64, or that truncation happens to be the answer 2^63
      that every larger magnitude gets. */
  lemma UnsignedTruncatesModulo(x: Float)
    requires x.Finite?
    ensures ToUint64(x) == AsUnsigned(Truncated(x)) <==>
              (-(TWO64 as real) < RealValue(x) < TWO64 as real) || AsUnsigned(Truncated(x)) == TWO63
  {
    MagnitudeNonNegative(x.m, x.e);
    var v := Magnitude(x.m, x.e);
    assert v < TWO64 as real <==> v.Floor < TWO64;
  }

  /** A pattern with a large exponent and a clear integer bit is not one that the
      processor produces. The 80-bit routine answers 2^63 for it, which is what its
      value converts to if and only if the significand, shifted by the exponent, is
      2^63 or does not fit 64 bits. */
  lemma UnnormalConversion(lower: nat, upper: nat)
    requires lower < TWO63 && upper < 0x1_0000 && 16446 < upper % 0x8000 < 0x7FFF
    ensures var shifted := lower * Pow2(upper % 0x8000 - 16446);
            ToUint64(Extended(lower, upper)) == TWO63 <==> shifted == TWO63 || TWO64 <= shifted
  {
    MagnitudeShiftedLeft(lower, upper % 0x8000 - 16446);
    MagnitudeNonNegative(lower, upper % 0x8000 - 16446);
  }

  // ---- widening ----

  /** The x87 format as an interchange format with the integer bit left out. */
  const EXTENDED := Format(63, 0x7FFF, 16383)

  /** Every value of `f`, subnormals included, is a normal value of `g`. */
  predicate Wider(f: Format, g: Format) {
    && f.fracBits <= g.fracBits
    && f.bias + f.fracBits <= g.bias
    && f.expMax + g.bias <= g.expMax + f.bias
    && 0 < f.expMax && 1 <= f.bias
  }

  /** Exact conversion of exponent and fraction to a wider format; subnormals
      become normal numbers. */
  function WidenFields(f: Format, g: Format, exp: nat, frac: nat): (int, int)
    requires Wider(f, g) && frac < Pow2(f.fracBits)
  {
    if exp == f.expMax then
      (g.expMax, frac * Pow2(g.fracBits - f.fracBits))
    else if exp != 0 then
      (exp + g.bias - f.bias, frac * Pow2(g.fracBits - f.fracBits))
    else if frac == 0 then
      (0, 0)
    else
      BitLenAtMost(frac, f.fracBits);
      var k := BitLen(frac);
      (k + g.bias - f.bias - f.fracBits, frac * Pow2(g.fracBits + 1 - k) - Pow2(g.fracBits))
  }

  /** A subnormal significand shifted up to the hidden bit of the wider format. */
  lemma WidenSubnormal(f: Format, g: Format, frac: nat)
    requires Wider(f, g) && 0 < frac < Pow2(f.fracBits)
    ensures var k := BitLen(frac);
            && 1 <= k <= f.fracBits
            && Pow2(g.fracBits) <= frac * Pow2(g.fracBits + 1 - k) < Pow2(g.fracBits + 1)
            && Magnitude(frac * Pow2(g.fracBits + 1 - k), k - f.bias - f.fracBits - g.fracBits)
               == Magnitude(frac, 1 - f.bias - f.fracBits)
  {
    var k := BitLen(frac);
    BitLenBounds(frac);
    BitLenAtMost(frac, f.fracBits);
    ScaleBound(frac, k, g.fracBits + 1 - k);
    ScaleLowerBound(frac, k - 1, g.fracBits + 1 - k);
    MagnitudeRescale(frac, 1 - f.bias - f.fracBits, g.fracBits + 1 - k);
  }

  /** With the value known to be the same, the widened fields decode to it. */
  lemma SubnormalBecomesNormal(f: Format, g: Format, neg: bool, frac: nat, k: nat, m: nat)
    requires Wider(f, g) && 1 <= k <= f.fracBits
    requires Pow2(g.fracBits) <= m < Pow2(g.fracBits + 1)
    requires Magnitude(m, k - f.bias - f.fracBits - g.fracBits) == Magnitude(frac, 1 - f.bias - f.fracBits)
    ensures var exp := k + g.bias - f.bias - f.fracBits;
            && 0 <= exp <= g.expMax && m - Pow2(g.fracBits) < Pow2(g.fracBits)
            && SameValue(DecodeFields(f, neg, 0, frac), DecodeFields(g, neg, exp, m - Pow2(g.fracBits)))
  {
  }

  lemma WidenNormal(f: Format, g: Format, exp: nat, frac: nat)
    requires Wider(f, g) && frac < Pow2(f.fracBits)
    ensures var d := g.fracBits - f.fracBits;
            Magnitude(frac * Pow2(d) + Pow2(g.fracBits), exp - f.bias - g.fracBits)
            == Magnitude(frac + Pow2(f.fracBits), exp - f.bias - f.fracBits)
  {
    var d := g.fracBits - f.fracBits;
    var a, b := Pow2(f.fracBits), Pow2(d);
    Pow2Add(f.fracBits, d);
    assert (frac + a) * b == frac * b + a * b;
    MagnitudeRescale(frac + a, exp - f.bias - f.fracBits, d);
  }

  lemma NormalStaysNormal(f: Format, g: Format, neg: bool, exp: nat, frac: nat, m: nat)
    requires Wider(f, g) && 0 < exp < f.expMax
    requires Magnitude(m + Pow2(g.fracBits), exp - f.bias - g.fracBits)
          == Magnitude(frac + Pow2(f.fracBits), exp - f.bias - f.fracBits)
    ensures var exp' := exp + g.bias - f.bias;
            0 <= exp' <= g.expMax && SameValue(DecodeFields(f, neg, exp, frac), DecodeFields(g, neg, exp', m))
  {
  }

  lemma WidenKeepsValue(f: Format, g: Format, neg: bool, exp: nat, frac: nat)
    requires Wider(f, g) && exp <= f.expMax && frac < Pow2(f.fracBits)
    ensures var (exp', frac') := WidenFields(f, g, exp, frac);
            && 0 <= exp' <= g.expMax && 0 <= frac' < Pow2(g.fracBits)
            && SameValue(DecodeFields(f, neg, exp, frac), DecodeFields(g, neg, exp', frac'))
  {
    ScaleBound(frac, f.fracBits, g.fracBits - f.fracBits);
    if exp == f.expMax {
    } else if exp == 0 && frac == 0 {
      MagnitudeNonNegative(0, 1 - f.bias - f.fracBits);
      MagnitudeNonNegative(0, 1 - g.bias - g.fracBits);
    } else if exp == 0 {
      WidenSubnormal(f, g, frac);
      SubnormalBecomesNormal(f, g, neg, frac, BitLen(frac), frac * Pow2(g.fracBits + 1 - BitLen(frac)));
    } else {
      WidenNormal(f, g, exp, frac);
      NormalStaysNormal(f, g, neg, exp, frac, frac * Pow2(g.fracBits - f.fracBits));
    }
  }

  function SignBit(neg: bool, weight: nat): nat {
    if neg then weight else 0
  }

  /** The double with the value of a float. */
  function SingleToDouble(bits: nat): int
    requires bits < TWO32
  {
    Pow2Constants();
    var (exp, frac) := WidenFields(SINGLE, DOUBLE, bits / 0x80_0000 % 0x100, bits % 0x80_0000);
    SignBit(bits >= TWO31, TWO63) + exp * 0x10_0000_0000_0000 + frac
  }

  /** An 80-bit pattern: lower word and upper word. */
  function PackExtended(neg: bool, exp: int, frac: int): (int, int) {
    (frac + (if exp == 0 then 0 else TWO63), SignBit(neg, 0x8000) + exp)
  }

  function SingleToExtended(bits: nat): (int, int)
    requires bits < TWO32
  {
    Pow2Constants();
    var (exp, frac) := WidenFields(SINGLE, EXTENDED, bits / 0x80_0000 % 0x100, bits % 0x80_0000);
    PackExtended(bits >= TWO31, exp, frac)
  }

  function DoubleToExtended(bits: nat): (int, int)
    requires bits < TWO64
  {
    Pow2Constants();
    var (exp, frac) :=
      WidenFields(DOUBLE, EXTENDED, bits / 0x10_0000_0000_0000 % 0x800, bits % 0x10_0000_0000_0000);
    PackExtended(bits >= TWO63, exp, frac)
  }

  lemma UnpackSingle(neg: bool, exp: nat, frac: nat)
    requires exp <= 0xFF && frac < 0x80_0000
    ensures var bits := SignBit(neg, TWO31) + exp * 0x80_0000 + frac;
            bits < TWO32 && Single(bits) == DecodeFields(SINGLE, neg, exp, frac)
  {
    var s := if neg then 0x100 else 0;
    var bits := SignBit(neg, TWO31) + exp * 0x80_0000 + frac;
    DivModUnique(bits, s + exp, frac, 0x80_0000);
    DivModUnique(s + exp, if neg then 1 else 0, exp, 0x100);
  }

  lemma UnpackDouble(neg: bool, exp: nat, frac: nat)
    requires exp <= 0x7FF && frac < 0x10_0000_0000_0000
    ensures var bits := SignBit(neg, TWO63) + exp * 0x10_0000_0000_0000 + frac;
            bits < TWO64 && Double(bits) == DecodeFields(DOUBLE, neg, exp, frac)
  {
    var s := if neg then 0x800 else 0;
    var bits := SignBit(neg, TWO63) + exp * 0x10_0000_0000_0000 + frac;
    DivModUnique(bits, s + exp, frac, 0x10_0000_0000_0000);
    DivModUnique(s + exp, if neg then 1 else 0, exp, 0x800);
  }

  lemma UnpackExtended(neg: bool, exp: nat, frac: nat)
    requires exp <= 0x7FFF && frac < TWO63
    ensures var (lower, upper) := PackExtended(neg, exp, frac);
            && 0 <= lower < TWO64 && 0 <= upper < 0x1_0000 && ProperlyEncoded(lower, upper)
            && Extended(lower, upper) == DecodeFields(EXTENDED, neg, exp, frac)
  {
    Pow2Constants();
    var (lower, upper) := PackExtended(neg, exp, frac);
    DivModUnique(upper, if neg then 1 else 0, exp, 0x8000);
    DivModUnique(lower, if exp == 0 then 0 else 1, frac, TWO63);
  }

  /** The conversion depends on the value alone. */
  lemma ToUint64OfSameValue(x: Float, y: Float)
    requires SameValue(x, y)
    ensures ToUint64(x) == ToUint64(y)
  {
  }

  lemma PackedSameValue(x: Float, neg: bool, exp: nat, frac: nat)
    requires exp <= 0x7FF && frac < 0x10_0000_0000_0000 && SameValue(x, DecodeFields(DOUBLE, neg, exp, frac))
    ensures var d := SignBit(neg, TWO63) + exp * 0x10_0000_0000_0000 + frac;
            d < TWO64 && SameValue(x, Double(d))
  {
    UnpackDouble(neg, exp, frac);
  }

  lemma FieldsToDouble(neg: bool, exp: nat, frac: nat)
    requires exp <= 0xFF && frac < Pow2(23)
    ensures var (e, f) := WidenFields(SINGLE, DOUBLE, exp, frac);
            var d := SignBit(neg, TWO63) + e * 0x10_0000_0000_0000 + f;
            && 0 <= d < TWO64 && SameValue(DecodeFields(SINGLE, neg, exp, frac), Double(d))
  {
    Pow2Constants();
    WidenKeepsValue(SINGLE, DOUBLE, neg, exp, frac);
    var (e, f) := WidenFields(SINGLE, DOUBLE, exp, frac);
    PackedSameValue(DecodeFields(SINGLE, neg, exp, frac), neg, e, f);
  }

  lemma FieldsToExtended(g: Format, neg: bool, exp: nat, frac: nat)
    requires Wider(g, EXTENDED) && exp <= g.expMax && frac < Pow2(g.fracBits)
    ensures var (e, f) := WidenFields(g, EXTENDED, exp, frac);
            var (lower, upper) := PackExtended(neg, e, f);
            && 0 <= lower < TWO64 && 0 <= upper < 0x1_0000 && ProperlyEncoded(lower, upper)
            && SameValue(DecodeFields(g, neg, exp, frac), Extended(lower, upper))
  {
    Pow2Constants();
    WidenKeepsValue(g, EXTENDED, neg, exp, frac);
    var (e, f) := WidenFields(g, EXTENDED, exp, frac);
    UnpackExtended(neg, e, f);
  }

  /** Converting a float directly or through a double gives the same integer, for
      all 2^32 patterns. */
  lemma SingleWidensToDouble(bits: nat)
    requires bits < TWO32
    ensures var d := SingleToDouble(bits);
            && 0 <= d < TWO64 && SameValue(Single(bits), Double(d))
            && ToUint64(Single(bits)) == ToUint64(Double(d))
  {
    Pow2Constants();
    FieldsToDouble(bits >= TWO31, bits / 0x80_0000 % 0x100, bits % 0x80_0000);
    ToUint64OfSameValue(Single(bits), Double(SingleToDouble(bits)));
  }

  /** The same for floats and their 80-bit form. */
  lemma SingleWidensToExtended(bits: nat)
    requires bits < TWO32
    ensures var (lower, upper) := SingleToExtended(bits);
            && 0 <= lower < TWO64 && 0 <= upper < 0x1_0000 && ProperlyEncoded(lower, upper)
            && SameValue(Single(bits), Extended(lower, upper))
            && ToUint64(Single(bits)) == ToUint64(Extended(lower, upper))
  {
    Pow2Constants();
    FieldsToExtended(SINGLE, bits >= TWO31, bits / 0x80_0000 % 0x100, bits % 0x80_0000);
    var (lower, upper) := SingleToExtended(bits);
    ToUint64OfSameValue(Single(bits), Extended(lower, upper));
  }

  /** The same for doubles and their 80-bit form. */
  lemma DoubleWidensToExtended(bits: nat)
    requires bits < TWO64
    ensures var (lower, upper) := DoubleToExtended(bits);
            && 0 <= lower < TWO64 && 0 <= upper < 0x1_0000 && ProperlyEncoded(lower, upper)
            && SameValue(Double(bits), Extended(lower, upper))
            && ToUint64(Double(bits)) == ToUint64(Extended(lower, upper))
  {
    Pow2Constants();
    FieldsToExtended(DOUBLE, bits >= TWO63, bits / 0x10_0000_0000_0000 % 0x800, bits % 0x10_0000_0000_0000);
    var (lower, upper) := DoubleToExtended(bits);
    ToUint64OfSameValue(Double(bits), Extended(lower, upper));
  }

  // ---- monotonicity ----

  /** Patterns are ordered like the values they stand for, across exponents. */
  lemma FieldsOrderMagnitudes(f: Format, exp: nat, frac: nat, exp': nat, frac': nat)
    requires exp < f.expMax && exp' < f.expMax && frac < Pow2(f.fracBits) && frac' < Pow2(f.fracBits)
    requires exp < exp' || (exp == exp' && frac <= frac')
    ensures var x, y := DecodeFields(f, false, exp, frac), DecodeFields(f, false, exp', frac');
            x.Finite? && y.Finite? && Magnitude(x.m, x.e) <= Magnitude(y.m, y.e)
  {
    var x, y := DecodeFields(f, false, exp, frac), DecodeFields(f, false, exp', frac');
    if exp == exp' {
      MagnitudeMonotone(x.m, y.m, x.e);
    } else if exp == 0 {
      MagnitudeMonotone(x.m, Pow2(f.fracBits), x.e);
      HiddenBitGrows(f, 1, exp', frac');
    } else {
      MagnitudeMonotone(x.m, 2 * Pow2(f.fracBits), x.e);
      MagnitudeRescale(Pow2(f.fracBits), x.e + 1, 1);
      assert Pow2(1) == 2;
      HiddenBitGrows(f, exp + 1, exp', frac');
    }
  }

  /** The smallest magnitude of an exponent is at most every magnitude of a higher one. */
  lemma HiddenBitGrows(f: Format, low: nat, exp: nat, frac: nat)
    requires 1 <= low <= exp
    ensures Magnitude(Pow2(f.fracBits), low - f.bias - f.fracBits)
         <= Magnitude(frac + Pow2(f.fracBits), exp - f.bias - f.fracBits)
  {
    var p := Pow2(f.fracBits);
    var e, e' := low - f.bias - f.fracBits, exp - f.bias - f.fracBits;
    MagnitudeExponentMonotone(p, e, e');
    MagnitudeMonotone(p, frac + p, e');
  }

  lemma ConversionMonotone(x: Float, y: Float)
    requires x.Finite? && y.Finite? && !x.neg && !y.neg
    requires Magnitude(x.m, x.e) <= Magnitude(y.m, y.e) < TWO64 as real
    ensures ToUint64(x) <= ToUint64(y)
  {
  }

  lemma FieldsMonotone(f: Format, exp: nat, frac: nat, exp': nat, frac': nat)
    requires 1 <= f.bias && f.bias + 64 <= f.expMax
    requires frac < Pow2(f.fracBits) && frac' < Pow2(f.fracBits)
    requires exp < exp' || (exp == exp' && frac <= frac')
    requires exp' < f.bias + 64
    ensures ToUint64(DecodeFields(f, false, exp, frac)) <= ToUint64(DecodeFields(f, false, exp', frac'))
  {
    FieldsOrderMagnitudes(f, exp, frac, exp', frac');
    BelowSaturation(f, exp', frac');
    ConversionMonotone(DecodeFields(f, false, exp, frac), DecodeFields(f, false, exp', frac'));
  }

  lemma FieldOrder(p: nat, q: nat, n: nat)
    requires p <= q && 0 < n
    ensures p / n < q / n || (p / n == q / n && p % n <= q % n)
  {
    DivideBounds(p, n);
    DivideBounds(q, n);
    ProductOrder(q / n, p / n, n);
  }

  lemma NonNegativeSingle(p: nat)
    requires p < TWO31
    ensures Single(p) == DecodeFields(SINGLE, false, p / 0x80_0000, p % 0x80_0000)
  {
  }

  lemma NonNegativeDouble(p: nat)
    requires p < TWO63
    ensures Double(p) == DecodeFields(DOUBLE, false, p / 0x10_0000_0000_0000, p % 0x10_0000_0000_0000)
  {
  }

  /** Among non-negative floats below 2^64 a larger pattern never converts to less. */
  lemma FixUnsSfMonotone(p: nat, q: nat)
    requires p <= q < TWO31 && q / 0x80_0000 < 127 + 64
    ensures ToUint64(Single(p)) <= ToUint64(Single(q))
  {
    NonNegativeSingle(p);
    NonNegativeSingle(q);
    Pow2Constants();
    FieldOrder(p, q, 0x80_0000);
    FieldsMonotone(SINGLE, p / 0x80_0000, p % 0x80_0000, q / 0x80_0000, q % 0x80_0000);
  }

  lemma FixUnsDfMonotone(p: nat, q: nat)
    requires p <= q < TWO63 && q / 0x10_0000_0000_0000 < 1023 + 64
    ensures ToUint64(Double(p)) <= ToUint64(Double(q))
  {
    NonNegativeDouble(p);
    NonNegativeDouble(q);
    Pow2Constants();
    FieldOrder(p, q, 0x10_0000_0000_0000);
    FieldsMonotone(DOUBLE, p / 0x10_0000_0000_0000, p % 0x10_0000_0000_0000,
                   q / 0x10_0000_0000_0000, q % 0x10_0000_0000_0000);
  }

  /** Exponents below bias + 64 are exactly those of magnitudes below 2^64. */
  lemma BelowSaturation(f: Format, exp: nat, frac: nat)
    requires frac < Pow2(f.fracBits) && 1 <= f.bias && f.bias + 64 <= f.expMax
    requires exp < f.bias + 64
    ensures var x := DecodeFields(f, false, exp, frac);
            x.Finite? && Magnitude(x.m, x.e) < TWO64 as real
  {
    var x := DecodeFields(f, false, exp, frac);
    var p := f.fracBits;
    MagnitudeStrictlyMonotone(x.m, Pow2(p + 1), x.e);
    MagnitudeRescale(1, x.e + (p + 1), p + 1);
    assert 1 * Pow2(p + 1) == Pow2(p + 1);
    RealPow2Monotone(x.e + (p + 1), 64);
    RealPow2OfNat(64);
    Pow2Constants();
  }
}
