/** The exact floating remainder of src/math/mod.go and the IEEE remainder of
    src/math/remainder.go. */
module Mod {
  import opened Words
  import opened Float64
  import opened Ieee
  import opened Scaling

  // ----- exact subtraction

  /** Subtracting positive values within a factor of two of each other. */
  lemma SubtractWithin(a: uint64, b: uint64)
    requires IsFinite(a) && IsFinite(b) && !Negative(a) && !Negative(b)
    requires Units(a) <= 2 * Units(b) && Units(b) <= 2 * Units(a)
    ensures SignedUnits(Subtract(a, b)) == Units(a) - Units(b) && IsFinite(Subtract(a, b))
    ensures Negative(Subtract(a, b)) <==> Units(a) < Units(b)
  {
    hide Units, RoundNearest;
    var c;
    if Units(b) <= Units(a) {
      c := DifferenceIsExact(a, b);
    } else {
      c := DifferenceIsExact(b, a);
    }
    UnitsOrder(0, a);
    UnitsOrder(0, b);
    UnitsOrder(c, UVINF);
    UnitsOrder(a, UVINF);
    UnitsOrder(b, UVINF);
    UnitsOrder(0, c);
    NegateUnits(b);
    AddExact(a, Negate(b), c);
    SignsOfNegate(b);
  }

  lemma SignsOfNegate(b: uint64)
    ensures Negative(Negate(b)) == !Negative(b)
  {
  }

  // ----- one turn of the loop

  /** Normalised significands and exponents locate r between y * 2^k and twice it. */
  lemma ScaleBetween(ur: nat, sr: int, er: int, uy: nat, sy: int, ey: int, k: int)
    requires Normalised(ur, sr, er) && Normalised(uy, sy, ey) && uy <= ur
    requires k == (if sr < sy then er - 1 else er) - ey
    ensures k >= 0 && uy * Pow2(k) <= ur < 2 * (uy * Pow2(k))
  {
    hide Pow2;
    ExponentGap(ur, sr, er, uy, sy, ey);
    var e := ey + 63 + k;
    var p := Pow2(e);
    SameRatio(uy, sy, 64, ey + 63, 64 + k, e);
    Pow2Add(k, 64);
    MulAssoc(uy, Pow2(k), Pow2(64));
    var s := if sr < sy then 2 * sr else sr;
    assert ur * Pow2(64) == s * p by {
      if sr < sy {
        Pow2Twice(er + 62);
        MulAssoc(sr, 2, p);
      }
    }
    MulMono(sy, s, p);
    MulStrict(s, 2 * sy, p);
    MulAssoc(2, sy, p);
    Uncancel(uy * Pow2(k), ur, Pow2(64));
    Uncancel(ur, 2 * (uy * Pow2(k)), Pow2(64));
    MulAssoc(2, uy * Pow2(k), Pow2(64));
  }

  lemma Uncancel(a: int, b: int, p: nat)
    requires p > 0
    ensures a <= b <==> a * p <= b * p
    ensures a < b <==> a * p < b * p
  {
    if a < b {
      MulStrict(a, b, p);
    } else if b < a {
      MulStrict(b, a, p);
    }
  }

  lemma ExponentGap(ur: nat, sr: int, er: int, uy: nat, sy: int, ey: int)
    requires Normalised(ur, sr, er) && Normalised(uy, sy, ey) && uy <= ur
    ensures ey <= er && (sr < sy ==> ey < er)
  {
    hide Pow2, Len64;
    NormalisedExponent(ur, sr, er);
    NormalisedExponent(uy, sy, ey);
    LenMono(uy, ur);
    if ey == er {
      MulMono(uy, ur, Pow2(64));
      if sr < sy { MulStrict(sr, sy, Pow2(ey + 63)); }
    }
  }

  lemma {:induction false} LenMono(a: nat, b: nat)
    requires a <= b
    ensures Len64(a) <= Len64(b)
  {
    if a > 0 { LenMono(a / 2, b / 2); }
  }

  /** Ldexp of y by k is exact while the result stays finite. */
  lemma LdexpExact(m: nat, y: uint64, k: nat) returns (c: nat)
    requires IsFinite(y) && !Negative(y)
    requires Units(y) * Pow2(k) < Units(UVINF)
    requires IsScaledNearest(m, Units(y), k)
    ensures c == m && c < UVINF && Units(c) == Units(y) * Pow2(k)
  {
    hide Pow2, Units, IsNearestEven;
    c := ScaleIsExact(y, k);
    UnitsOrder(c, UVINF);
    Pow2Zero();
    ExactIsNearest(c, Units(c), 1);
    NearestUnique(c, m, Units(c), 1);
  }

  lemma SameResidue(u: int, d: int, n: int)
    requires d > 0
    ensures (u - n * d) % d == u % d
  {
    var q, r := u / d, u % d;
    assert u - n * d == (q - n) * d + r;
    DivUnique(u - n * d, d, q - n, r);
  }

  lemma ResultFits(y: uint64, s: int, b: int, k: int)
    requires Normalised(Units(Magnitude(y)), s, b) && 0 <= k <= 2200
    ensures FitsInt64(ResultExponent(y, k))
  {
    hide Len64, Pow2, Units;
    NormalisedExponent(Units(Magnitude(y)), s, b);
  }

  lemma CompareFractions(a: uint64, b: uint64)
    requires !Negative(a) && !Negative(b) && a / FRAC == 1022 && b / FRAC == 1022
    ensures Less(a, b) <==> FRAC + a % FRAC < FRAC + b % FRAC
  {
    hide Units;
    UnitsOrder(a, b);
  }

  lemma ExponentRange(u: nat, s: int, b: int)
    requires Normalised(u, s, b)
    ensures -51 <= b <= 2046
  {
  }

  function Residue(a: nat, d: nat): nat
    requires d > 0
  {
    a % d
  }

  /** One subtraction: exact, congruent, and r more than halves. */
  method ReduceOnce(r: uint64, y: uint64, yfr: uint64, yexp: int) returns (r': uint64)
    requires IsFinite(r) && IsFinite(y) && !Negative(r) && !Negative(y) && !IsZero(y)
    requires Units(y) <= Units(r)
    requires !Negative(yfr) && yfr / FRAC == 1022 && Normalised(Units(y), FRAC + yfr % FRAC, yexp + 1022)
    ensures IsFinite(r') && !Negative(r')
    ensures Units(y) > 0 && Residue(Units(r'), Units(y)) == Residue(Units(r), Units(y))
    ensures 2 * Units(r') < Units(r)
  {
    hide Units, Pow2, Normalised, Subtract, IsScaledNearest, ResultExponent, Less, Len64;
    UnitsOrder(0, y);
    UnitsOrder(0, r);
    var rfr, rexp := Frexp(r);
    CompareFractions(rfr, yfr);
    ExponentRange(Units(r), FRAC + rfr % FRAC, rexp + 1022);
    ExponentRange(Units(y), FRAC + yfr % FRAC, yexp + 1022);
    ghost var er := rexp + 1022;
    if Less(rfr, yfr) {
      rexp := rexp - 1;
    }
    var k: int := rexp - yexp;
    ScaleBetween(Units(r), FRAC + rfr % FRAC, er, Units(y), FRAC + yfr % FRAC, yexp + 1022, k);
    ResultFits(y, FRAC + yfr % FRAC, yexp + 1022, k);
    var scaled := Ldexp(y, k);
    UnitsOrder(r, UVINF);
    ghost var c := LdexpExact(Magnitude(scaled), y, k);
    SubtractWithin(r, scaled);
    r' := Subtract(r, scaled);
    SameResidue(Units(r), Units(y), Pow2(k));
  }

  lemma ZeroUnits(b: uint64)
    ensures Units(Magnitude(b)) == 0 <==> IsZero(b)
    ensures SignedUnits(b) == 0 <==> IsZero(b)
    ensures Less(b, 0) <==> (Negative(b) && !IsZero(b) && !IsNaN(b))
  {
    UnitsOrder(0, Magnitude(b));
  }

  /** The loop: r, which is not negative or is -0, loses multiples of y while it is not below y. */
  method ReduceAll(r0: uint64, y: uint64) returns (r: uint64)
    requires IsFinite(r0) && (Negative(r0) ==> IsZero(r0))
    requires !Negative(y) && !IsZero(y) && !IsNaN(y)
    ensures IsInf(y) || IsZero(r0) ==> r == r0
    ensures Units(y) > 0
    ensures !IsInf(y) ==> IsFinite(r) && Units(Magnitude(r)) == Residue(Units(Magnitude(r0)), Units(y))
    ensures Negative(r) == Negative(r0)
  {
    hide Units, Pow2, Normalised, LessOrEqual, Residue;
    var yfr, yexp := Frexp(y);
    r := r0;
    ZeroUnits(r0);
    ZeroUnits(y);
    CompareMagnitudes(r, y);
    while LessOrEqual(y, r)
      invariant IsFinite(r) && Negative(r) == Negative(r0)
      invariant IsInf(y) || IsZero(r0) ==> r == r0
      invariant Residue(Units(Magnitude(r)), Units(y)) == Residue(Units(Magnitude(r0)), Units(y))
      invariant LessOrEqual(y, r) <==> !IsInf(y) && !Negative(r) && Units(y) <= Units(Magnitude(r))
      decreases Units(Magnitude(r))
    {
      r := ReduceOnce(r, y, yfr, yexp);
      CompareMagnitudes(r, y);
    }
    if Units(Magnitude(r)) < Units(y) {
      SmallResidue(Units(Magnitude(r)), Units(y));
    }
  }

  lemma SmallResidue(a: nat, d: nat)
    requires a < d
    ensures Residue(a, d) == a
  {
  }

  /** The remainder of |x| by |y|, exactly, with the sign of x. */
  method FloatMod(x: uint64, y0: uint64) returns (r: uint64)
    ensures IsZero(y0) || IsInf(x) || IsNaN(x) || IsNaN(y0) ==> r == UVNAN
    ensures IsFinite(x) && IsInf(y0) ==> r == x
    ensures IsFinite(x) && IsFinite(y0) && !IsZero(y0) ==>
              && Units(Magnitude(y0)) > 0 && IsFinite(r) && Negative(r) == Negative(x)
              && Units(Magnitude(r)) == Units(Magnitude(x)) % Units(Magnitude(y0))
  {
    hide Units, Less;
    if IsZero(y0) || IsInf(x) || IsNaN(x) || IsNaN(y0) {
      return UVNAN;
    }
    var y := Magnitude(y0);
    r := x;
    ZeroUnits(x);
    if Less(x, 0) {
      r := Negate(x);
    }
    r := ReduceAll(r, y);
    if Less(x, 0) {
      r := Negate(r);
    }
  }

  /** The loop test on a non-negative r, or on r == -0, against positive y. */
  lemma CompareMagnitudes(r: uint64, y: uint64)
    requires IsFinite(r) && !Negative(y) && !IsZero(y) && !IsNaN(y) && (Negative(r) ==> IsZero(r))
    ensures LessOrEqual(y, r) <==> !IsInf(y) && !Negative(r) && Units(y) <= Units(Magnitude(r))
  {
    hide Units;
    UnitsOrder(0, y);
    UnitsOrder(0, Magnitude(r));
    UnitsOrder(Magnitude(r), y);
  }

  // ----- Remainder

  /** 2^-1021, and half the largest finite magnitude. */
  const TINY: uint64 := 0x20_0000_0000_0000
  const HALF_MAX: uint64 := 0x7FDF_FFFF_FFFF_FFFF
  const ONE_HALF: uint64 := 0x3FE0_0000_0000_0000

  /** r is x - n*y with n the integer nearest to x/y, the even one in a tie; a
      zero r has the sign of x (section 5.3.1 of IEEE 754-2019). */
  ghost predicate IsRemainder(r: uint64, x: uint64, y: uint64, n: int) {
    && IsFinite(r)
    && SignedUnits(r) == SignedUnits(x) - n * Units(Magnitude(y))
    && 2 * Abs(SignedUnits(r)) <= Units(Magnitude(y))
    && (2 * Abs(SignedUnits(r)) == Units(Magnitude(y)) ==> n % 2 == 0)
    && (IsZero(r) ==> Negative(r) == Negative(x))
  }

  /** The quotient the two conditional subtractions settle on. */
  function NearestQuotient(ux: nat, uy: nat): nat
    requires uy > 0
  {
    var a := ux % (2 * uy);
    2 * (ux / (2 * uy)) + (if 2 * a <= uy then 0 else if 2 * (a - uy) < uy then 1 else 2)
  }

  lemma NearestQuotientIsNearest(ux: nat, uy: nat)
    requires uy > 0
    ensures var a, n := ux % (2 * uy), NearestQuotient(ux, uy);
            var d := if 2 * a <= uy then a else if 2 * (a - uy) < uy then a - uy else a - 2 * uy;
            && 0 <= a < 2 * uy
            && d == ux - n * uy && 2 * Abs(d) <= uy && (2 * Abs(d) == uy ==> n % 2 == 0)
  {
    var q, a, n := ux / (2 * uy), ux % (2 * uy), NearestQuotient(ux, uy);
    DivBound(ux, 2 * uy);
    MulAssoc(q, 2, uy);
    assert q * (2 * uy) == 2 * q * uy;
    var i := n - 2 * q;
    assert n * uy == 2 * q * uy + i * uy;
    assert i == 0 || i == 1 || i == 2;
  }

  /** Doubling a value exactly. */
  lemma DoubleExact(x: uint64)
    requires IsFinite(x) && 2 * Units(Magnitude(x)) < Units(UVINF)
    ensures IsFinite(Add(x, x)) && SignedUnits(Add(x, x)) == 2 * SignedUnits(x)
    ensures !Negative(x) ==> !Negative(Add(x, x))
  {
    hide RoundNearest, Units;
    var m := Magnitude(x);
    DoubleUnits(m);
    var c := if m >= FRAC then m + FRAC else 2 * m;
    UnitsOrder(c, UVINF);
    AddExact(x, x, c);
  }

  lemma HalfMaxBound(y: uint64)
    requires !Negative(y) && y < UVINF
    ensures LessOrEqual(y, HALF_MAX) <==> y <= HALF_MAX
    ensures y <= HALF_MAX ==> 2 * Units(y) < Units(UVINF)
    ensures y > HALF_MAX ==> 2 * Units(y) >= Units(UVINF)
  {
    hide Units;
    UnitsOrder(y, HALF_MAX);
    DoubleUnits(HALF_MAX + 1);
    UnitsOrder(y, HALF_MAX + 1);
    assert HALF_MAX + 1 + FRAC == UVINF;
  }

  /** Halving is exact from 2^-1021 up. */
  lemma HalveExact(y: uint64)
    requires TINY <= y < UVINF
    ensures Multiply(ONE_HALF, y) == y - FRAC && Units(y) == 2 * Units(y - FRAC)
  {
    hide Pow2, RoundNearest, Units;
    DoubleUnits(y - FRAC);
    PowerOfTwoUnits(1021);
    assert 1021 * FRAC + FRAC == ONE_HALF;
    Pow2Values();
    Pow2Add(52, 1021);
    Pow2Twice(1073);
    var u := Units(y - FRAC);
    MulAssoc(u, 2, Pow2(1073));
    MulMono(0, u, Pow2(1074));
    RoundExact(y - FRAC, u * Pow2(1074), Pow2(1074));
    assert Units(Magnitude(ONE_HALF)) * Units(Magnitude(y)) == u * Pow2(1074);
  }

  lemma TinyBound(y: uint64)
    requires !Negative(y) && y < UVINF
    ensures Less(y, TINY) <==> y < TINY
    ensures y < TINY ==> 8 * Units(y) < Units(UVINF)
  {
    hide Units;
    UnitsOrder(y, TINY);
    SmallNormals();
    DoubleUnits(FRAC);
    assert TINY == FRAC + FRAC;
  }

  lemma Comparisons(a: uint64, b: uint64)
    requires IsFinite(a) && IsFinite(b)
    ensures Less(a, b) <==> SignedUnits(a) < SignedUnits(b)
    ensures LessOrEqual(a, b) <==> SignedUnits(a) <= SignedUnits(b)
  {
  }

  /** The test and the first subtraction, then the second, in either spelling of
      the test: x is reduced modulo 2y and ends within half of y. */
  method ReduceToHalf(x0: uint64, y: uint64) returns (x: uint64)
    requires IsFinite(x0) && (Negative(x0) ==> IsZero(x0)) && 0 < y < UVINF
    requires Units(Magnitude(x0)) < 2 * Units(y)
    ensures IsFinite(x)
    ensures var a: int, u: int := Units(Magnitude(x0)), Units(y);
            SignedUnits(x) == if 2 * a <= u then a else if 2 * (a - u) < u then a - u else a - 2 * u
    ensures IsZero(x) ==> Negative(x) == Negative(x0)
  {
    hide Units, Add, Subtract, Multiply, Less, LessOrEqual;
    x := x0;
    ghost var a: int, u: int := Units(Magnitude(x0)), Units(y);
    TinyBound(y);
    ZeroUnits(x0);
    UnitsOrder(0, y);
    if Less(y, TINY) {
      DoubleExact(x);
      Comparisons(y, Add(x, x));
      if Less(y, Add(x, x)) {
        SubtractWithin(x, y);
        x := Subtract(x, y);
        ZeroUnits(x);
        MagnitudeUnits(x);
        DoubleExact(x);
        Comparisons(y, Add(x, x));
        if LessOrEqual(y, Add(x, x)) {
          SubtractWithin(x, y);
          x := Subtract(x, y);
          ZeroUnits(x);
        }
      }
    } else {
      HalveExact(y);
      var yHalf := Multiply(ONE_HALF, y);
      Comparisons(yHalf, x);
      if Less(yHalf, x) {
        SubtractWithin(x, y);
        x := Subtract(x, y);
        ZeroUnits(x);
        MagnitudeUnits(x);
        Comparisons(yHalf, x);
        if LessOrEqual(yHalf, x) {
          SubtractWithin(x, y);
          x := Subtract(x, y);
          ZeroUnits(x);
        }
      }
    }
  }

  lemma MagnitudeUnits(b: uint64)
    ensures Units(Magnitude(b)) == Abs(SignedUnits(b))
    ensures !Negative(b) ==> Magnitude(b) == b
  {
  }

  /** x modulo 2y; when 2y would overflow x is below it already. */
  method ReduceModTwice(x0: uint64, y: uint64) returns (x: uint64)
    requires IsFinite(x0) && 0 < y < UVINF && Units(y) > 0
    ensures IsFinite(x) && Negative(x) == Negative(x0)
    ensures Units(Magnitude(x)) == Units(Magnitude(x0)) % (2 * Units(y))
  {
    hide Units, Add, LessOrEqual;
    x := x0;
    HalfMaxBound(y);
    UnitsOrder(Magnitude(x), UVINF);
    if LessOrEqual(y, HALF_MAX) {
      DoubleExact(y);
      MagnitudeUnits(Add(y, y));
      ZeroUnits(Add(y, y));
      x := FloatMod(x, Add(y, y));
    } else {
      SmallQuotient(Units(Magnitude(x)), 2 * Units(y));
    }
  }

  method Remainder(x: uint64, y: uint64) returns (r: uint64)
    ensures IsNaN(x) || IsNaN(y) || IsInf(x) || IsZero(y) ==> r == UVNAN
    ensures IsFinite(x) && IsInf(y) ==> r == x
    ensures IsFinite(x) && IsFinite(y) && !IsZero(y) ==> exists n :: IsRemainder(r, x, y, n)
  {
    hide IsRemainder;
    if IsNaN(x) || IsNaN(y) || IsInf(x) || IsZero(y) {
      return UVNAN;
    }
    if IsInf(y) {
      return x;
    }
    r := FiniteRemainder(x, y);
  }

  /** The case of finite operands and a nonzero divisor. */
  method FiniteRemainder(x0: uint64, y0: uint64) returns (r: uint64)
    requires IsFinite(x0) && IsFinite(y0) && !IsZero(y0)
    ensures exists n :: IsRemainder(r, x0, y0, n)
  {
    hide Units, Less, NearestQuotient, IsRemainder, SignedUnits;
    var x, y, sign := x0, y0, false;
    ZeroUnits(x0);
    ZeroUnits(y0);
    if Less(x, 0) {
      x := Negate(x);
      sign := true;
    }
    if Less(y, 0) {
      y := Negate(y);
    }
    EqualPositive(x, y);
    if Equal(x, y) {
      r := if sign then SIGN else 0;
      EqualOperands(r, x0, y0, if sign then -1 else 1);
      return;
    }
    r := ReduceSigned(x, y, sign, x0, y0);
  }

  /** The reductions on magnitudes and the restored sign. */
  method ReduceSigned(x0: uint64, y: uint64, sign: bool, ghost signedX: uint64, ghost signedY: uint64) returns (r: uint64)
    requires IsFinite(x0) && 0 < y < UVINF && Units(y) > 0
    requires IsFinite(signedX) && Magnitude(signedX) == Magnitude(x0) && Magnitude(signedY) == y
    requires sign <==> Negative(signedX) && !IsZero(signedX)
    requires Negative(x0) <==> Negative(signedX) && IsZero(signedX)
    ensures exists n :: IsRemainder(r, signedX, signedY, n)
  {
    hide Units, IsRemainder, SignedUnits;
    var x := ReduceModTwice(x0, y);
    ZeroUnits(x);
    ZeroUnits(x0);
    BelowModulus(Units(Magnitude(x0)), 2 * Units(y));
    ZeroModulus(2 * Units(y));
    x := ReduceToHalf(x, y);
    r := x;
    if sign {
      r := Negate(r);
    }
    SignOfResult(x, r, signedX, signedY, sign);
  }

  lemma ZeroModulus(d: nat)
    requires d > 0
    ensures 0 % d == 0
  {
  }

  lemma BelowModulus(a: nat, d: nat)
    requires d > 0
    ensures a % d < d
  {
  }

  lemma EqualPositive(x: uint64, y: uint64)
    requires IsFinite(x) && 0 < y < UVINF && (Negative(x) ==> IsZero(x))
    ensures Equal(x, y) <==> Units(Magnitude(x)) == Units(y)
  {
    hide Units;
    ZeroUnits(x);
    ZeroUnits(y);
  }

  /** Restoring the sign of x. */
  lemma SignOfResult(x: uint64, r: uint64, x0: uint64, y0: uint64, sign: bool)
    requires IsFinite(x) && IsFinite(x0) && Units(Magnitude(y0)) > 0
    requires sign <==> Negative(x0) && !IsZero(x0)
    requires r == if sign then Negate(x) else x
    requires IsZero(x) ==> Negative(x) == (Negative(x0) && IsZero(x0))
    requires var ux, u: int := Units(Magnitude(x0)), Units(Magnitude(y0));
             var a := ux % (2 * u);
             SignedUnits(x) == if 2 * a <= u then a else if 2 * (a - u) < u then a - u else a - 2 * u
    ensures exists n :: IsRemainder(r, x0, y0, n)
  {
    hide Units, NearestQuotient, IsRemainder, SignedUnits;
    var ux, u := Units(Magnitude(x0)), Units(Magnitude(y0));
    var n: int := NearestQuotient(ux, u);
    NearestQuotientIsNearest(ux, u);
    RemainderOfMagnitude(x, r, x0, y0, n, sign);
  }

  lemma RemainderOfMagnitude(x: uint64, r: uint64, x0: uint64, y0: uint64, n: int, sign: bool)
    requires IsFinite(x) && IsFinite(x0) && (sign <==> Negative(x0) && !IsZero(x0))
    requires r == if sign then Negate(x) else x
    requires IsZero(x) ==> Negative(x) == (Negative(x0) && IsZero(x0))
    requires SignedUnits(x) == Units(Magnitude(x0)) - n * Units(Magnitude(y0))
    requires 2 * Abs(SignedUnits(x)) <= Units(Magnitude(y0))
    requires 2 * Abs(SignedUnits(x)) == Units(Magnitude(y0)) ==> n % 2 == 0
    ensures exists n :: IsRemainder(r, x0, y0, n)
  {
    hide Units;
    NegateUnits(x);
    ZeroUnits(x0);
    ZeroUnits(x);
    NegatedProduct(n, Units(Magnitude(y0)));
    assert IsRemainder(r, x0, y0, if sign then -n else n);
  }

  lemma NegatedProduct(n: int, u: int)
    ensures (-n) * u == -(n * u)
  {
  }

  lemma SmallQuotient(a: nat, b: nat)
    requires a < b
    ensures a % b == a
  {
  }

  lemma EqualOperands(r: uint64, x: uint64, y: uint64, n: int)
    requires IsZero(r) && Negative(r) == Negative(x) && Units(Magnitude(x)) == Units(Magnitude(y)) > 0
    requires n == if Negative(x) then -1 else 1
    ensures IsRemainder(r, x, y, n)
  {
    ZeroUnits(r);
  }
}
