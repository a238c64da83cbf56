/** The six floating-point to 64-bit integer routines of libtcc/libtcc1.c. Each
    method takes the bit pattern that its union exposes and follows the C text; the
    contracts say that all of them compute the same conversion of the value. */
module FixConversions {
  import opened Arithmetic
  import opened FloatValues

  // ---- C operators on unsigned 64-bit integers ----

  function ShiftLeft64(l: nat, k: nat): nat {
    l * Pow2(k) % TWO64
  }

  function ShiftRight64(l: nat, k: nat): (r: nat)
    ensures r <= l
  {
    DivideShrinks(l, Pow2(k));
    l / Pow2(k)
  }

  function Negate64(l: nat): nat {
    (TWO64 - l) % TWO64
  }

  function Signed(neg: bool, l: nat): nat {
    if neg then Negate64(l) else l
  }

  /** A 64-bit pattern read as a two's-complement number, and back. */
  function AsSigned(u: nat): int {
    if u < TWO63 then u else u - TWO64
  }

  function AsUnsigned(x: int): nat {
    x % TWO64
  }

  /** Negation of a signed 64-bit number, wrapping around. */
  function NegateSigned(x: int): int {
    if x == -TWO63 then x else -x
  }

  // ---- how the shift regimes relate to the value ----

  lemma TruncationOfSmall(neg: bool, m: nat, e: int)
    requires Magnitude(m, e).Floor < TWO64
    ensures 0 <= Magnitude(m, e).Floor
    ensures ToUint64(Finite(neg, m, e)) == Signed(neg, Magnitude(m, e).Floor)
  {
    MagnitudeNonNegative(m, e);
  }

  lemma RightShiftTruncates(neg: bool, m: nat, k: int)
    requires m < TWO64 && 0 <= k
    ensures ToUint64(Finite(neg, m, -k)) == Signed(neg, ShiftRight64(m, k))
  {
    MagnitudeShiftedRight(m, k);
    TruncationOfSmall(neg, m, -k);
  }

  lemma ProductFits(m: nat, k: nat, p: nat)
    requires m < Pow2(p + 1) && p + 1 + k <= 64
    ensures 0 <= m * Pow2(k) < TWO64
  {
    var a, b := Pow2(p + 1), Pow2(k);
    MulGap(b, m, a);
    MulNonNegative(m, b);
    assert m * b < a * b;
    Pow2Add(p + 1, k);
    Pow2Monotone(p + 1 + k, 64);
    Pow2Constants();
  }

  lemma LeftShiftIsExact(neg: bool, m: nat, k: nat, p: nat)
    requires m < Pow2(p + 1) && p + 1 + k <= 64
    ensures ToUint64(Finite(neg, m, k)) == Signed(neg, ShiftLeft64(m, k))
  {
    ProductFits(m, k, p);
    DivModUnique(m * Pow2(k), 0, m * Pow2(k), TWO64);
    MagnitudeShiftedLeft(m, k);
    TruncationOfSmall(neg, m, k);
  }

  lemma TooLargeSaturates(neg: bool, m: nat, k: nat, p: nat)
    requires Pow2(p) <= m && 64 <= p + k
    ensures ToUint64(Finite(neg, m, k)) == TWO63
  {
    Pow2Add(p, k);
    Pow2Monotone(64, p + k);
    Pow2Constants();
    MagnitudeShiftedLeft(m, k);
    assert m * Pow2(k) >= Pow2(p) * Pow2(k) by {
      MulGap(Pow2(k), Pow2(p), m);
    }
  }

  lemma FractionVanishes(neg: bool, m: nat, k: nat, p: nat)
    requires m < Pow2(p) && p <= k && m < TWO64
    ensures ToUint64(Finite(neg, m, -(k as int))) == 0
  {
    Pow2Monotone(p, k);
    RightShiftTruncates(neg, m, k);
    DivModUnique(m, 0, m, Pow2(k));
  }

  /** The formats in which every value of 2^64 or more has a normal exponent, and
      every value below one has room below the binary point. */
  ghost predicate Convertible(f: Format) {
    1 <= f.bias && f.fracBits < 63 && f.bias + 64 <= f.expMax
  }

  /** What the value of a field triple converts to, by the shift its exponent asks for. */
  lemma FieldRegimes(f: Format, neg: bool, exp: nat, frac: nat)
    requires Convertible(f) && frac < Pow2(f.fracBits) && exp <= f.expMax
    ensures var k := exp - f.bias - f.fracBits;
            var m := frac + Pow2(f.fracBits);
            var l := ToUint64(DecodeFields(f, neg, exp, frac));
            && (64 - f.fracBits <= k ==> l == TWO63)
            && (0 <= k < 64 - f.fracBits ==> l == Signed(neg, ShiftLeft64(m, k)))
            && (-(f.fracBits as int) <= k < 0 ==> l == Signed(neg, ShiftRight64(m, -k)))
            && (k < -(f.fracBits as int) ==> l == 0)
  {
    var p := f.fracBits;
    var k := exp - f.bias - p;
    var m := frac + Pow2(p);
    assert m < Pow2(p + 1) && m < TWO64 by {
      Pow2Monotone(p + 1, 64);
      Pow2Constants();
    }
    if exp == f.expMax {
    } else if exp == 0 {
      FractionVanishes(neg, frac, f.bias + p - 1, p);
    } else if 64 - p <= k {
      TooLargeSaturates(neg, m, k, p);
    } else if 0 <= k {
      LeftShiftIsExact(neg, m, k, p);
    } else if -(p as int) <= k {
      RightShiftTruncates(neg, m, -k);
    } else {
      FractionVanishes(neg, m, -k, p + 1);
    }
  }

  lemma SingleRegimes(bits: nat)
    requires bits < TWO32
    ensures var k := bits / 0x80_0000 % 0x100 - 150;
            var m := bits % 0x80_0000 + 0x80_0000;
            var l := ToUint64(Single(bits));
            && (41 <= k ==> l == TWO63)
            && (0 <= k < 41 ==> l == Signed(bits >= TWO31, ShiftLeft64(m, k)))
            && (-23 <= k < 0 ==> l == Signed(bits >= TWO31, ShiftRight64(m, -k)))
            && (k < -23 ==> l == 0)
  {
    Pow2Constants();
    FieldRegimes(SINGLE, bits >= TWO31, bits / 0x80_0000 % 0x100, bits % 0x80_0000);
  }

  lemma DoubleRegimes(bits: nat)
    requires bits < TWO64
    ensures var k := bits / 0x10_0000_0000_0000 % 0x800 - 1075;
            var m := bits % 0x10_0000_0000_0000 + 0x10_0000_0000_0000;
            var l := ToUint64(Double(bits));
            && (12 <= k ==> l == TWO63)
            && (0 <= k < 12 ==> l == Signed(bits >= TWO63, ShiftLeft64(m, k)))
            && (-52 <= k < 0 ==> l == Signed(bits >= TWO63, ShiftRight64(m, -k)))
            && (k < -52 ==> l == 0)
  {
    Pow2Constants();
    FieldRegimes(DOUBLE, bits >= TWO63, bits / 0x10_0000_0000_0000 % 0x800, bits % 0x10_0000_0000_0000);
  }

  /** Up to the exponent of the format's last integer bit an 80-bit pattern is
      converted whatever its integer bit is; above it, normalized ones saturate. */
  lemma ExtendedRegimes(lower: nat, upper: nat)
    requires lower < TWO64 && upper < 0x1_0000
    ensures var k := upper % 0x8000 - 16446;
            var l := ToUint64(Extended(lower, upper));
            && (0 < k && TWO63 <= lower ==> l == TWO63)
            && (-63 <= k <= 0 ==> l == Signed(upper >= 0x8000, ShiftRight64(lower, -k)))
            && (k < -63 ==> l == 0)
  {
    var k := upper % 0x8000 - 16446;
    var neg := upper >= 0x8000;
    Pow2Constants();
    if upper % 0x8000 == 0x7FFF {
    } else if upper % 0x8000 == 0 {
      FractionVanishes(neg, lower, 16445, 64);
    } else if 0 < k {
      if TWO63 <= lower {
        TooLargeSaturates(neg, lower, k, 63);
      }
    } else if -63 <= k {
      RightShiftTruncates(neg, lower, -k);
    } else {
      FractionVanishes(neg, lower, -k, 64);
    }
  }

  // ---- the unsigned routines ----

  lemma TopBit(bits: nat)
    requires bits < TWO32
    ensures bits / 0x8000_0000 % 2 != 0 <==> bits >= TWO31
  {
  }

  /** __fixunssfdi. `fl1` is the pattern of the float argument. */
  method FixUnsSfDi(fl1: nat) returns (l: nat)
    requires fl1 < TWO32
    ensures l == ToUint64(Single(fl1))
  {
    SingleRegimes(fl1);
    TopBit(fl1);
    if fl1 == 0 {
      return 0;
    }
    var exp := fl1 / 0x80_0000 % 0x100 - 126 - 24;
    l := fl1 % 0x80_0000 + 0x80_0000;
    if exp >= 41 {
      return 0x8000_0000_0000_0000;
    } else if exp >= 0 {
      l := ShiftLeft64(l, exp);
    } else if exp >= -23 {
      l := ShiftRight64(l, -exp);
    } else {
      return 0;
    }
    if fl1 / 0x8000_0000 % 2 != 0 {
      l := Negate64(l);
    }
  }

  /** The upper word of a double holds its sign and its exponent. */
  lemma UpperWord(bits: nat)
    requires bits < TWO64
    ensures bits / 0x1_0000_0000 / 0x10_0000 == bits / 0x10_0000_0000_0000
    ensures bits / 0x1_0000_0000 / 0x8000_0000 % 2 != 0 <==> bits >= TWO63
  {
  }

  /** __fixunsdfdi. `dl1` is the pattern of the double argument. */
  method FixUnsDfDi(dl1: nat) returns (l: nat)
    requires dl1 < TWO64
    ensures l == ToUint64(Double(dl1))
  {
    DoubleRegimes(dl1);
    UpperWord(dl1);
    if dl1 == 0 {
      return 0;
    }
    var upper := dl1 / 0x1_0000_0000;
    var exp := upper / 0x10_0000 % 0x800 - 1022 - 53;
    l := dl1 % 0x10_0000_0000_0000 + 0x10_0000_0000_0000;
    if exp >= 12 {
      return 0x8000_0000_0000_0000;
    } else if exp >= 0 {
      l := ShiftLeft64(l, exp);
    } else if exp >= -52 {
      l := ShiftRight64(l, -exp);
    } else {
      return 0;
    }
    if upper / 0x8000_0000 % 2 != 0 {
      l := Negate64(l);
    }
  }

  /** __fixunsxfdi on every 80-bit pattern, properly encoded or not. */
  method FixUnsXfDi(lower: nat, upper: nat) returns (l: nat)
    requires lower < TWO64 && upper < 0x1_0000
    ensures upper % 0x8000 <= 16446 || ProperlyEncoded(lower, upper) ==> l == ToUint64(Extended(lower, upper))
    ensures upper % 0x8000 > 16446 ==> l == TWO63
  {
    ExtendedRegimes(lower, upper);
    if lower == 0 && upper == 0 {
      return 0;
    }
    var exp := upper % 0x8000 - 16382 - 64;
    l := lower;
    if exp > 0 {
      return 0x8000_0000_0000_0000;
    }
    if exp < -63 {
      return 0;
    }
    l := ShiftRight64(l, -exp);
    if upper / 0x8000 % 2 != 0 {
      l := Negate64(l);
    }
  }

  // ---- the signed routines ----

  /** The C test `a1 >= 0`: false for a NaN, true for both zeros. */
  predicate AtLeastZero(x: Float) {
    match x
    case NaN => false
    case Infinite(neg) => !neg
    case Finite(neg, m, _) => !neg || m == 0
  }

  function Negated(x: Float): Float {
    match x
    case NaN => NaN
    case Infinite(neg) => Infinite(!neg)
    case Finite(neg, m, e) => Finite(!neg, m, e)
  }

  /** Unary minus on a pattern: the sign bit flips. */
  function FlipSign(bits: nat, signBit: nat): nat {
    if bits < signBit then bits + signBit else bits - signBit
  }

  lemma FlipSignKeepsSingleFields(bits: nat)
    requires bits < TWO32
    ensures var y := FlipSign(bits, TWO31);
            && y < TWO32 && (y >= TWO31 <==> bits < TWO31)
            && y / 0x80_0000 % 0x100 == bits / 0x80_0000 % 0x100
            && y % 0x80_0000 == bits % 0x80_0000
  {
    var low := if bits < TWO31 then bits else bits - TWO31;
    assert low / 0x80_0000 < 0x100;
    assert (low + TWO31) / 0x80_0000 == low / 0x80_0000 + 0x100;
  }

  lemma FlipSignKeepsDoubleFields(bits: nat)
    requires bits < TWO64
    ensures var y := FlipSign(bits, TWO63);
            && y < TWO64 && (y >= TWO63 <==> bits < TWO63)
            && y / 0x10_0000_0000_0000 % 0x800 == bits / 0x10_0000_0000_0000 % 0x800
            && y % 0x10_0000_0000_0000 == bits % 0x10_0000_0000_0000
  {
    var low := if bits < TWO63 then bits else bits - TWO63;
    assert low / 0x10_0000_0000_0000 < 0x800;
    assert (low + TWO63) / 0x10_0000_0000_0000 == low / 0x10_0000_0000_0000 + 0x800;
  }

  lemma FlipSignNegatesSingle(bits: nat)
    requires bits < TWO32
    ensures FlipSign(bits, TWO31) < TWO32 && Single(FlipSign(bits, TWO31)) == Negated(Single(bits))
  {
    FlipSignKeepsSingleFields(bits);
  }

  lemma FlipSignNegatesDouble(bits: nat)
    requires bits < TWO64
    ensures FlipSign(bits, TWO63) < TWO64 && Double(FlipSign(bits, TWO63)) == Negated(Double(bits))
  {
    FlipSignKeepsDoubleFields(bits);
  }

  /** Converting the magnitude and negating afterwards gives the same 64 bits as
      negating inside the unsigned routine. */
  lemma NegationAgrees(x: Float)
    requires !AtLeastZero(x)
    ensures ToUint64(x) == AsUnsigned(NegateSigned(AsSigned(ToUint64(Negated(x)))))
  {
    if x.Finite? {
      var v := Magnitude(x.m, x.e);
      MagnitudeNonNegative(x.m, x.e);
      if v < TWO64 as real {
        NegateBits(v.Floor);
      }
    }
  }

  lemma NegateBits(n: nat)
    requires n < TWO64
    ensures (TWO64 - n) % TWO64 == AsUnsigned(NegateSigned(AsSigned(n)))
  {
  }

  /** What the three wrappers do with the result of the unsigned routine. */
  lemma WrapperAgrees(x: Float, u: nat)
    requires u == ToUint64(if AtLeastZero(x) then x else Negated(x))
    ensures var ret := if AtLeastZero(x) then AsSigned(u) else NegateSigned(AsSigned(u));
            -TWO63 <= ret < TWO63 && AsUnsigned(ret) == ToUint64(x)
  {
    if !AtLeastZero(x) {
      NegationAgrees(x);
    }
    ToUint64Fits(x);
    ToUint64Fits(Negated(x));
  }

  /** __fixsfdi: the same 64 bits as the unsigned routine, on every pattern. */
  method FixSfDi(a1: nat) returns (ret: int)
    requires a1 < TWO32
    ensures -TWO63 <= ret < TWO63 && AsUnsigned(ret) == ToUint64(Single(a1))
  {
    FlipSignNegatesSingle(a1);
    var s := AtLeastZero(Single(a1));
    var u := FixUnsSfDi(if s then a1 else FlipSign(a1, TWO31));
    ret := if s then AsSigned(u) else NegateSigned(AsSigned(u));
    WrapperAgrees(Single(a1), u);
  }

  /** __fixdfdi. */
  method FixDfDi(a1: nat) returns (ret: int)
    requires a1 < TWO64
    ensures -TWO63 <= ret < TWO63 && AsUnsigned(ret) == ToUint64(Double(a1))
  {
    FlipSignNegatesDouble(a1);
    var s := AtLeastZero(Double(a1));
    var u := FixUnsDfDi(if s then a1 else FlipSign(a1, TWO63));
    ret := if s then AsSigned(u) else NegateSigned(AsSigned(u));
    WrapperAgrees(Double(a1), u);
  }

  lemma FlipSignNegatesExtended(lower: nat, upper: nat)
    requires lower < TWO64 && upper < 0x1_0000
    ensures var upper' := FlipSign(upper, 0x8000);
            && upper' < 0x1_0000 && upper' % 0x8000 == upper % 0x8000
            && Extended(lower, upper') == Negated(Extended(lower, upper))
  {
  }

  /** __fixxfdi. */
  method FixXfDi(lower: nat, upper: nat) returns (ret: int)
    requires lower < TWO64 && upper < 0x1_0000
    ensures -TWO63 <= ret < TWO63
    ensures upper % 0x8000 <= 16446 || ProperlyEncoded(lower, upper) ==>
              AsUnsigned(ret) == ToUint64(Extended(lower, upper))
    ensures upper % 0x8000 > 16446 ==> AsUnsigned(ret) == TWO63
  {
    FlipSignNegatesExtended(lower, upper);
    var s := AtLeastZero(Extended(lower, upper));
    var u := FixUnsXfDi(lower, if s then upper else FlipSign(upper, 0x8000));
    ret := if s then AsSigned(u) else NegateSigned(AsSigned(u));
    if upper % 0x8000 <= 16446 || ProperlyEncoded(lower, upper) {
      WrapperAgrees(Extended(lower, upper), u);
    }
  }

  lemma ToUint64Fits(x: Float)
    ensures ToUint64(x) < TWO64
  {
  }
}
