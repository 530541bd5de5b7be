/** Taking floats apart and scaling them by powers of two: normalize of
    src/math/bits.go, src/math/frexp.go and src/math/ldexp.go. */
module Scaling {
  import opened Words
  import opened Float64
  import opened Ieee

  // ----- normalize

  /** 2^52 and 2^-53 as encodings. */
  const TWO_TO_52: uint64 := 0x4330_0000_0000_0000
  const TWO_TO_MINUS_53: uint64 := 0x3CA0_0000_0000_0000

  lemma PowerOfTwoUnits(e: nat)
    ensures Units(e * FRAC + FRAC) == FRAC * Pow2(e)
  {
    PackedUnits(FRAC, e);
  }

  /** A subnormal times 2^52 is exactly the normal with the same significand. */
  lemma ScaledUp(x: uint64) returns (c: nat)
    requires 0 < Magnitude(x) < FRAC
    ensures FRAC <= c < UVINF && Units(c) == Units(Magnitude(x)) * FRAC
    ensures Multiply(x, TWO_TO_52) == WithSign(Negative(x), c)
  {
    hide Pow2, Units, RoundNearest, IsNearestEven;
    var u := Units(Magnitude(x));
    Pow2Values();
    c := ScaleIsExact(Magnitude(x), 52);
    SubnormalUnits(Magnitude(x));
    MulMono(1, u, FRAC);
    MulStrict(u, FRAC, FRAC);
    SmallNormals();
    UnitsOrder(FRAC, c);
    UnitsOrder(c, UVINF);
    PowerOfTwoUnits(1074);
    assert 1074 * FRAC + FRAC == TWO_TO_52;
    MulAssoc(u, FRAC, Pow2(1074));
    MulMono(0, u, FRAC * Pow2(1074)) by { MulMono(0, FRAC, Pow2(1074)); }
    RoundExact(c, u * Units(TWO_TO_52), Pow2(1074));
  }

  lemma SubnormalUnits(b: nat)
    requires 0 < b < 2 * FRAC
    ensures Units(b) == b
  {
  }

  lemma SmallNormals()
    ensures Units(FRAC) == FRAC
    ensures FRAC * FRAC < Units(UVINF)
  {
    PackedUnits(FRAC, 2046);
    Pow2Values();
    Pow2Order(52, 2046);
    MulStrict(Pow2(52), Pow2(2046), FRAC);
  }

  /** A normal number y and an exponent with x == y * 2^exp. */
  method Normalize(x: uint64) returns (y: uint64, exp: int)
    requires 0 < Magnitude(x) < UVINF
    ensures FRAC <= Magnitude(y) < UVINF && Negative(y) == Negative(x)
    ensures Normalised(Units(Magnitude(x)), FRAC + Magnitude(y) % FRAC, Magnitude(y) / FRAC + exp)
    ensures exp == if Magnitude(x) < FRAC then -52 else 0
  {
    hide Pow2, Units, Multiply, Normalised;
    NormalThreshold(Magnitude(x));
    if Less(Magnitude(x), FRAC) {
      ghost var c := ScaledUp(x);
      SubnormalUnits(Magnitude(x));
      y, exp := Multiply(x, TWO_TO_52), -52;
      RescaledNormal(Units(Magnitude(x)), c);
    } else {
      y, exp := x, 0;
      NormalScale(Magnitude(x));
    }
  }

  lemma NormalThreshold(m: uint64)
    requires m < UVINF
    ensures Less(m, FRAC) <==> m < FRAC
  {
    UnitsOrder(m, FRAC);
  }

  lemma RescaledNormal(u: nat, c: nat)
    requires FRAC <= c < UVINF && Units(c) == u * FRAC && 0 < u < FRAC
    ensures Normalised(u, FRAC + c % FRAC, c / FRAC - 52)
  {
    hide Units, Pow2;
    NormalScale(c);
    Pow2Values();
    var e, s := c / FRAC, FRAC + c % FRAC;
    MulAssoc(u, FRAC, Pow2(64));
    Pow2Add(52, 64);
    assert u * Pow2(116) == s * Pow2(e + 63);
    SmallExponent(u, s, e);
    SameRatio(u, s, 116, e + 63, 64, e + 11);
  }

  lemma SmallExponent(u: nat, s: nat, e: nat)
    requires u > 0 && FRAC <= s < 2 * FRAC && u * Pow2(116) == s * Pow2(e + 63)
    ensures e >= 1
  {
    hide Pow2;
    if e == 0 {
      Pow2Values();
      Pow2Add(53, 63);
      MulMono(1, u, Pow2(116));
      MulStrict(s, Pow2(53), Pow2(63));
    }
  }

  // ----- setting the exponent field

  lemma SetExponentField(x: uint64, e: nat)
    requires e < 2048
    ensures ShiftLeft(0x7FF, 52) == 0x7FF * FRAC && ShiftLeft(e, 52) == e * FRAC
    ensures e * FRAC + Magnitude(x) % FRAC < SIGN
    ensures Or(AndNot(x, 0x7FF * FRAC), e * FRAC) == WithSign(Negative(x), e * FRAC + Magnitude(x) % FRAC)
  {
    hide Pow2, Or, AndNot, And;
    Pow2Values();
    AndNotField(x, 11, 52, 0x7FF * FRAC);
    ExponentCleared(x);
    var a := AndNot(x, 0x7FF * FRAC);
    AndShift(a, e, 52, e * FRAC);
    AndDisjoint(a / FRAC, e, 11);
    OrNoCommonBits(a, e * FRAC);
  }

  lemma ExponentCleared(x: uint64)
    ensures var a := x - (x / FRAC) % 2048 * FRAC;
            && a == (if Negative(x) then SIGN else 0) + Magnitude(x) % FRAC
            && (a / FRAC) % 2048 == 0
  {
  }

  // ----- Frexp

  /** Splits f into a fraction in [1/2, 1) and a power of two. */
  method Frexp(f: uint64) returns (frac: uint64, exp: int)
    ensures IsZero(f) || IsInf(f) || IsNaN(f) ==> frac == f && exp == 0
    ensures !IsZero(f) && IsFinite(f) ==>
              && Negative(frac) == Negative(f) && Magnitude(frac) / FRAC == 1022
              && Normalised(Units(Magnitude(f)), FRAC + Magnitude(frac) % FRAC, exp + 1022)
  {
    hide Pow2, Units, Or, And, AndNot, Normalised, ShiftLeft, ShiftRight;
    if IsZero(f) || IsInf(f) || IsNaN(f) {
      return f, 0;
    }
    var x;
    x, exp := Normalize(f);
    FieldsOfWord(x);
    exp := exp + And(ShiftRight(x, 52), 0x7FF) - BIAS + 1;
    SetExponentField(x, 1022);
    x := AndNot(x, ShiftLeft(0x7FF, 52));
    x := Or(x, ShiftLeft(-1 + BIAS, 52));
    frac := x;
  }

  // ----- Ldexp

  type int64 = x: int | -0x8000_0000_0000_0000 <= x < 0x8000_0000_0000_0000

  function WrapInt64(x: int): int64 {
    var u := x % W;
    if u >= 0x8000_0000_0000_0000 then u - W else u
  }

  function Positive(x: int): nat { if x > 0 then x else 0 }

  /** Encoding r is u * 2^e units rounded to nearest, ties to even. */
  ghost predicate IsScaledNearest(r: nat, u: nat, e: int) {
    MulMono(0, u, Pow2(Positive(e)));
    IsNearestEven(r, u * Pow2(Positive(e)), Pow2(Positive(-e)))
  }

  /** The same value with another significand rounds to the same encoding. */
  lemma ScaledNearestRatio(r: nat, u: nat, e: int, s: nat, t: int, b: int)
    requires b >= -51 && u * Pow2(64) == s * Pow2(b + 63) && t == e + b - 1
    requires IsScaledNearest(r, s, t)
    ensures IsScaledNearest(r, u, e)
  {
    hide Pow2, IsNearestEven;
    var i, j := Positive(e), Positive(-e);
    var i', j' := Positive(t), Positive(-t);
    SameRatio(u, s, 64, b + 63, i + j', i' + j);
    Pow2Add(i, j');
    Pow2Add(i', j);
    MulAssoc(u, Pow2(i), Pow2(j'));
    MulAssoc(s, Pow2(i'), Pow2(j));
    MulMono(0, u, Pow2(i));
    MulMono(0, s, Pow2(i'));
    NearestRescale(r, s * Pow2(i'), Pow2(j'), u * Pow2(i), Pow2(j));
  }

  lemma UnderflowToZero(s: nat, t: int)
    requires 0 < s < 2 * FRAC && t < -53
    ensures IsScaledNearest(0, s, t)
  {
    hide Pow2, IsNearestEven;
    Pow2Values();
    Pow2Zero();
    Pow2Mono(54, -t);
    NearestFromNeighbours(0, s, Pow2(-t));
  }

  lemma OverflowToInfinity(s: nat, t: int)
    requires FRAC <= s && t > 2045
    ensures IsScaledNearest(UVINF, s, t)
  {
    hide Pow2, IsNearestEven, Units;
    Pow2Zero();
    PackedUnits(FRAC, 2046);
    assert 2046 * FRAC + FRAC == UVINF;
    Pow2Mono(2046, t);
    MulMono(Pow2(2046), Pow2(t), FRAC);
    MulMono(FRAC, s, Pow2(t));
    UnitsStep(UVINF - 1);
    NearestFromNeighbours(UVINF, s * Pow2(t), 1);
  }

  lemma NormalResult(s: nat, t: int)
    requires FRAC <= s < 2 * FRAC && 0 <= t <= 2045
    ensures IsScaledNearest(t * FRAC + s, s, t)
    ensures Units(t * FRAC + s) == s * Pow2(t)
  {
    hide Pow2, IsNearestEven, Units;
    Pow2Zero();
    PackedUnits(s, t);
    MulMono(0, s, Pow2(t));
    ExactIsNearest(t * FRAC + s, s * Pow2(t), 1);
  }

  /** The one rounding of a subnormal result: a product with 2^-53. */
  lemma SubnormalResult(r: nat, s: nat, t: int)
    requires FRAC <= s < 2 * FRAC && -53 <= t < 0
    requires Units((t + 53) * FRAC + s) * Pow2(1021) >= 0
    requires IsNearestEven(r, Units((t + 53) * FRAC + s) * Pow2(1021), Pow2(1074))
    ensures IsScaledNearest(r, s, t)
  {
    hide Pow2, IsNearestEven, Units;
    Pow2Zero();
    PackedUnits(s, t + 53);
    Pow2Add(t + 53, 1021);
    Pow2Add(t + 1074, -t);
    MulAssoc(s, Pow2(t + 53), Pow2(1021));
    MulAssoc(s, Pow2(t + 1074), Pow2(-t));
    NearestRescale(r, Units((t + 53) * FRAC + s) * Pow2(1021), Pow2(1074), s, Pow2(-t));
  }

  lemma MultiplyConstants()
    ensures Units(UVONE) == Pow2(1074) && Units(TWO_TO_MINUS_53) == Pow2(1021)
  {
    hide Pow2, Units;
    PowerOfTwoUnits(1022);
    PowerOfTwoUnits(969);
    assert 1022 * FRAC + FRAC == UVONE && 969 * FRAC + FRAC == TWO_TO_MINUS_53;
    Pow2Values();
    Pow2Add(52, 1022);
    Pow2Add(52, 969);
  }

  /** Multiplying by one on the host is exact. */
  lemma TimesOneIsExact(x: uint64)
    requires IsFinite(x)
    ensures Multiply(UVONE, x) == x
  {
    hide Pow2, IsNearestEven, Units, RoundNearest;
    MultiplyConstants();
    var u := Units(Magnitude(x));
    MulMono(0, u, Pow2(1074));
    MulMono(0, Pow2(1074), u);
    RoundExact(Magnitude(x), u * Pow2(1074), Pow2(1074));
    assert Units(Magnitude(UVONE)) * u == u * Pow2(1074);
  }

  lemma TimesUnit(x: uint64, s: nat, t: int)
    requires IsFinite(x) && FRAC <= s < 2 * FRAC && 0 <= t <= 2045 && Magnitude(x) == t * FRAC + s
    ensures IsScaledNearest(Magnitude(Multiply(UVONE, x)), s, t) && Negative(Multiply(UVONE, x)) == Negative(x)
  {
    hide Multiply, IsScaledNearest;
    TimesOneIsExact(x);
    NormalResult(s, t);
  }

  /** Multiplying by 2^-53 on the host is the one rounding of a subnormal result. */
  lemma TimesTiny(x: uint64, s: nat, t: int)
    requires IsFinite(x) && FRAC <= s < 2 * FRAC && -53 <= t < 0 && Magnitude(x) == (t + 53) * FRAC + s
    ensures IsScaledNearest(Magnitude(Multiply(TWO_TO_MINUS_53, x)), s, t)
    ensures Negative(Multiply(TWO_TO_MINUS_53, x)) == Negative(x)
  {
    hide Pow2, IsNearestEven, Units, RoundNearest, IsScaledNearest;
    MultiplyConstants();
    var u := Units(Magnitude(x));
    MulMono(0, u, Pow2(1021));
    SubnormalResult(RoundNearest(u * Pow2(1021), Pow2(1074)), s, t);
  }

  /** The exponent of a normalised value follows from its bit length. */
  lemma NormalisedExponent(u: nat, ix: int, b: int)
    requires Normalised(u, ix, b)
    ensures Len64(u) == b + 52
  {
    hide Pow2, Len64;
    Pow2Values();
    var n := Len64(u);
    MulMono(1, ix, Pow2(b + 63));
    SameFactor(u, 0, Pow2(64));
    Len64Bounds(u);
    Pow2Add(n, 64);
    Pow2Add(n - 1, 64);
    MulStrict(u, Pow2(n), Pow2(64));
    MulMono(Pow2(n - 1), u, Pow2(64));
    Pow2Add(52, b + 63);
    Pow2Add(53, b + 63);
    MulMono(Pow2(52), ix, Pow2(b + 63));
    MulStrict(ix, Pow2(53), Pow2(b + 63));
    Pow2Order(b + 115, n + 64);
    Pow2Order(n + 63, b + 116);
  }

  /** The unbiased exponent the result would have, computed without wrapping. */
  function ResultExponent(frac: uint64, exp: int): int {
    exp + Len64(Units(Magnitude(frac))) - 52 - BIAS
  }

  predicate FitsInt64(x: int) { -0x8000_0000_0000_0000 <= x < 0x8000_0000_0000_0000 }

  /** When the exponent wraps the code answers from the wrong end of the range. */
  lemma WrappedExponent(t: int)
    requires -0x8000_0000_0000_0000 - 4000 <= t < 0x8000_0000_0000_0000 + 4000
    ensures FitsInt64(t) ==> WrapInt64(t) == t
    ensures t >= 0x8000_0000_0000_0000 ==> WrapInt64(t) < -1075
    ensures t < -0x8000_0000_0000_0000 ==> WrapInt64(t) > 1023
  {
  }

  lemma WrapTwice(a: int, b: int)
    ensures WrapInt64(WrapInt64(a) + b) == WrapInt64(a + b)
  {
  }

  lemma NotBothScaled(r: nat, r': nat, u: nat, e: int)
    requires IsScaledNearest(r, u, e) && r != r'
    ensures !IsScaledNearest(r', u, e)
  {
    hide IsNearestEven, Pow2;
    MulMono(0, u, Pow2(Positive(e)));
    NeverBoth(r, r', u * Pow2(Positive(e)), Pow2(Positive(-e)));
  }

  lemma NeverBoth(r: nat, r': nat, N: nat, D: nat)
    requires r != r' && D > 0
    ensures !(IsNearestEven(r, N, D) && IsNearestEven(r', N, D))
  {
    if r < r' { NotBothNearest(r, r', N, D); } else { NotBothNearest(r', r, N, D); }
  }

  /** frac * 2^exp correctly rounded, exactly when the exponent arithmetic fits a
      64-bit int; when it wraps, an overflowing product comes out as zero and an
      underflowing one as infinity. */
  method Ldexp(frac: uint64, exp0: int64) returns (r: uint64)
    ensures IsZero(frac) || !IsFinite(frac) ==> r == frac
    ensures !IsZero(frac) && IsFinite(frac) ==>
              && Negative(r) == Negative(frac)
              && (IsScaledNearest(Magnitude(r), Units(Magnitude(frac)), exp0)
                  <==> FitsInt64(ResultExponent(frac, exp0)))
    ensures !IsZero(frac) && IsFinite(frac) && !FitsInt64(ResultExponent(frac, exp0)) ==>
              Magnitude(r) == if ResultExponent(frac, exp0) < 0 then UVINF else 0
  {
    hide Pow2, Units, Or, And, AndNot, Normalised, ShiftLeft, ShiftRight, Multiply, IsScaledNearest, WrapInt64, Len64;
    if IsZero(frac) || IsInf(frac) || IsNaN(frac) {
      return frac;
    }
    var x, e := Normalize(frac);
    var exp := WrapInt64(exp0 + e);
    FieldsOfWord(x);
    exp := WrapInt64(exp + (And(ShiftRight(x, 52), 0x7FF) - BIAS));
    ghost var u, s, b := Units(Magnitude(frac)), FRAC + Magnitude(x) % FRAC, Magnitude(x) / FRAC + e;
    ghost var t := exp0 + b - BIAS;
    WrapTwice(exp0 + e, Magnitude(x) / FRAC - BIAS);
    NormalisedExponent(u, s, b);
    NormalisedParts(u, s, b);
    WrappedExponent(t);
    if t + 1022 < -53 {
      UnderflowToZero(s, t + 1022);
      ScaledNearestRatio(0, u, exp0, s, t + 1022, b);
      NotBothScaled(0, UVINF, u, exp0);
    } else if t > 1023 {
      OverflowToInfinity(s, t + 1022);
      ScaledNearestRatio(UVINF, u, exp0, s, t + 1022, b);
      NotBothScaled(UVINF, 0, u, exp0);
    }
    if exp < -1075 {
      return WithSign(Negative(frac), 0);
    }
    if exp > 1023 {
      return WithSign(Negative(frac), UVINF);
    }
    r := ScaledProduct(x, exp);
    ScaledNearestRatio(Magnitude(r), u, exp0, s, t + 1022, b);
  }

  const ONE_HALF: uint64 := 0x3FE0_0000_0000_0000

  /** One half times 2^-2^63 is as small as can be, and comes out as infinity. */
  method HalfWraps() returns (r: uint64)
    ensures Magnitude(r) == UVINF && IsScaledNearest(0, Units(Magnitude(ONE_HALF)), -0x8000_0000_0000_0000)
  {
    hide Pow2, Units, IsScaledNearest, Len64, Normalised;
    var exp: int64 := -0x8000_0000_0000_0000;
    ghost var u := Units(ONE_HALF);
    assert ONE_HALF / FRAC == 1022 && ONE_HALF % FRAC == 0;
    NormalScale(ONE_HALF);
    NormalisedExponent(u, FRAC, 1022);
    NormalisedParts(u, FRAC, 1022);
    UnderflowToZero(FRAC, exp + 1021);
    ScaledNearestRatio(0, u, exp, FRAC, exp + 1021, 1022);
    r := Ldexp(ONE_HALF, exp);
  }

  lemma NormalisedParts(u: nat, s: int, b: int)
    requires Normalised(u, s, b)
    ensures FRAC <= s < 2 * FRAC && -51 <= b <= 2046 && u * Pow2(64) == s * Pow2(b + 63)
  {
  }

  /** The last lines of the function: set the exponent field and multiply. */
  method ScaledProduct(x0: uint64, exp0: int) returns (r: uint64)
    requires FRAC <= Magnitude(x0) < UVINF && -1075 <= exp0 <= 1023
    ensures IsScaledNearest(Magnitude(r), FRAC + Magnitude(x0) % FRAC, exp0 + 1022) && Negative(r) == Negative(x0)
  {
    hide Pow2, Units, Or, AndNot, ShiftLeft, Multiply, IsScaledNearest;
    var exp, x, m := exp0, x0, UVONE;
    if exp < -1022 {
      exp := exp + 53;
      m := TWO_TO_MINUS_53;
    }
    SetExponentField(x, exp + BIAS);
    x := AndNot(x, ShiftLeft(0x7FF, 52));
    x := Or(x, ShiftLeft(exp + BIAS, 52));
    ghost var s := FRAC + Magnitude(x0) % FRAC;
    FieldAndSignificand(exp + BIAS, Magnitude(x0) % FRAC);
    if exp0 < -1022 {
      TimesTiny(x, s, exp0 + 1022);
    } else {
      TimesUnit(x, s, exp0 + 1022);
    }
    r := Multiply(m, x);
  }

  lemma FieldAndSignificand(e: nat, f: nat)
    requires 1 <= e <= 2046 && f < FRAC
    ensures e * FRAC + f == (e - 1) * FRAC + (FRAC + f) && e * FRAC + f < UVINF
  {
  }
}
