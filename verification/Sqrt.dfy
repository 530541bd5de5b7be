/** The bit-by-bit square root of src/math/sqrt.go. */
module Sqrt {
  import opened Words
  import opened Float64

  /** Encoding r is nearer to the square root of X than every other encoding c:
      the midpoint of r and c lies on c's side of the root, so its square
      compares with X accordingly.  No midpoint is the root itself. */
  ghost predicate IsNearestRoot(r: nat, X: nat) {
    && r <= UVINF
    && forall c: nat | c <= UVINF && c != r ::
         if c < r then Square(Units(c) + Units(r)) < 4 * X else 4 * X < Square(Units(c) + Units(r))
  }

  function Square(a: int): nat {
    MulSelf(a);
    a * a
  }

  lemma MulSelf(a: int)
    ensures a * a >= 0
  {
    if a >= 0 { MulMono(0, a, a); } else { MulMono(0, -a, -a); }
  }

  lemma SquareOrder(a: nat, b: nat)
    ensures Square(a) < Square(b) <==> a < b
  {
    if a < b {
      MulMono(a, b, a);
      MulStrict(a, b, b);
    } else {
      MulMono(b, a, a);
      MulMono(b, a, b);
    }
  }

  lemma SquareOfProduct(a: int, b: int)
    ensures Square(a * b) == Square(a) * Square(b)
  {
    MulAssoc(a * b, a, b);
    MulAssoc(a, b, a);
    MulAssoc(a * a, b, b);
  }

  lemma SquareOfSum(a: int, b: int)
    ensures Square(a + b) == Square(a) + b * (2 * a + b)
  {
  }

  lemma NearestRootFromNeighbours(r: nat, X: nat)
    requires r <= UVINF
    requires r > 0 ==> Square(Units(r - 1) + Units(r)) < 4 * X
    requires 4 * X < Square(Units(r) + Units(r + 1))
    ensures IsNearestRoot(r, X)
  {
    forall c: nat | c <= UVINF && c != r
      ensures if c < r then Square(Units(c) + Units(r)) < 4 * X else 4 * X < Square(Units(c) + Units(r))
    {
      if c < r {
        UnitsOrder(c, r - 1);
        SquareOrder(Units(r - 1) + Units(r), Units(c) + Units(r));
      } else {
        UnitsOrder(r + 1, c);
        SquareOrder(Units(c) + Units(r), Units(r) + Units(r + 1));
      }
    }
  }

  /** A root R * 2^e bracketed to within half a unit of R packs to the nearest
      encoding. */
  lemma PackedRoot(R: nat, e: nat, M: nat, X: nat)
    requires FRAC <= R < 2 * FRAC && e * FRAC + R <= UVINF
    requires Square(2 * R - 1) < M < Square(2 * R + 1)
    requires R == FRAC ==> Square(2 * R) <= M
    requires 4 * X == M * Square(Pow2(e))
    ensures IsNearestRoot(e * FRAC + R, X)
  {
    hide Square, Pow2, Units, IsNearestRoot;
    var p, r := Pow2(e), e * FRAC + R;
    SquarePositive(p);
    UpperNeighbour(R, e);
    LowerNeighbour(R, e);
    RootScale(2 * R + 1, p);
    RootScale(2 * R - 1, p);
    RootScale(2 * R, p);
    MulStrict(M, Square(2 * R + 1), Square(p));
    MulStrict(Square(2 * R - 1), M, Square(p));
    SquareOrder(Units(r) + Units(r + 1), (2 * R + 1) * p);
    SquareOrder(Units(r - 1) + Units(r), 2 * R * p);
    if R == FRAC { MulMono(Square(2 * R), M, Square(p)); }
    NearestRootFromNeighbours(r, X);
  }

  lemma SquarePositive(p: nat)
    requires p > 0
    ensures Square(p) > 0
  {
    MulMono(1, p, p);
  }

  lemma RootScale(k: nat, p: nat)
    ensures k * p >= 0 && Square(k * p) == Square(k) * Square(p)
  {
    MulMono(0, k, p);
    SquareOfProduct(k, p);
  }

  // ----- the bit-by-bit loop

  /** The state of the digit loop before a step of weight r: q is the root of M
      so far, s is 2q and ix is the scaled remainder; r is 0 when it is done. */
  ghost predicate DigitLoop(M: nat, ix: int, q: int, s: int, r: nat) {
    && s == 2 * q && 0 <= q && ix >= 0
    && Square(q) <= M < Square(q + if r == 0 then 1 else 2 * r)
    && (if r == 0 then ix == 2 * (M - Square(q)) else ix * r == M - Square(q))
  }

  /** No step overflows: the remainder stays below four root digits. */
  lemma DigitBounds(M: nat, ix: int, q: int, s: int, r: nat)
    requires DigitLoop(M, ix, q, s, r) && M < Square(0x40_0000_0000_0000) && 0 < r <= 0x20_0000_0000_0000
    ensures 0 <= q < 0x40_0000_0000_0000 && 0 <= ix < 4 * (q + r) && s == 2 * q
  {
    hide Square;
    SquareOrder(q, 0x40_0000_0000_0000);
    SquareOfSum(q, 2 * r);
    assert ix * r < (4 * (q + r)) * r by {
      assert 2 * r * (2 * q + 2 * r) == (4 * (q + r)) * r;
    }
    if ix >= 4 * (q + r) { MulMono(4 * (q + r), ix, r); }
  }

  /** One digit: the test t <= ix decides whether (q + r)^2 <= M. */
  lemma DigitTest(M: nat, ix: int, q: int, r: nat)
    requires r > 0 && ix * r == M - Square(q)
    ensures 2 * q + r <= ix <==> Square(q + r) <= M
    ensures (ix - (2 * q + r)) * r == M - Square(q + r)
  {
    hide Square;
    SquareOfSum(q, r);
    var t := 2 * q + r;
    assert (ix - t) * r == ix * r - r * t;
    if t <= ix {
      MulMono(0, ix - t, r);
    } else {
      MulStrict(ix - t, 0, r);
    }
  }

  lemma DoubledRemainder(a: int, r: nat)
    requires r > 0 && r % 2 == 0
    ensures (2 * a) * (r / 2) == a * r
  {
    assert r == 2 * (r / 2);
    MulAssoc(a, 2, r / 2);
  }

  lemma DigitStep(M: nat, ix: int, q: int, s: int, r: nat)
    requires DigitLoop(M, ix, q, s, r) && r > 0 && (r == 1 || r % 2 == 0)
    ensures s + r <= ix ==> DigitLoop(M, 2 * (ix - (s + r)), q + r, s + r + r, r / 2)
    ensures s + r > ix ==> DigitLoop(M, 2 * ix, q, s, r / 2)
  {
    hide Square;
    DigitTest(M, ix, q, r);
    if r > 1 {
      DoubledRemainder(ix - (s + r), r);
      DoubledRemainder(ix, r);
      assert 2 * (r / 2) == r;
    }
    assert q + r + r == q + 2 * r;
  }

  /** The digit loop of the code on a doubled significand ix0: q is the floor of
      the root and the remainder is zero exactly when the root is exact. */
  method RootDigits(ix0: uint64, ghost M: nat) returns (q: uint64, ix: uint64)
    requires FRAC * 2 <= ix0 < FRAC * 8 && ix0 * 0x20_0000_0000_0000 == M
    ensures Square(q) <= M < Square(q + 1)
    ensures ix == 0 <==> M == Square(q)
  {
    hide Square, DigitLoop, Pow2;
    ix := ix0;
    var s: uint64 := 0;
    q := 0;
    var r: uint64 := 0x20_0000_0000_0000;
    ghost var k: nat := 53;
    StartDigits(ix, M);
    while r != 0
      invariant DigitLoop(M, ix, q, s, r)
      invariant r != 0 ==> r == Pow2(k)
      invariant r <= 0x20_0000_0000_0000
      decreases r
    {
      DigitBounds(M, ix, q, s, r);
      LowerPower(k, r);
      DigitStep(M, ix, q, s, r);
      var t: uint64 := s + r;
      if t <= ix {
        s := t + r;
        ix := ix - t;
        q := q + r;
      }
      ix := ShiftLeftOne(ix);
      r := r / 2;
      k := if k > 0 then k - 1 else 0;
    }
    DigitsDone(M, ix, q, s);
  }

  lemma DigitsDone(M: nat, ix: int, q: int, s: int)
    requires DigitLoop(M, ix, q, s, 0)
    ensures Square(q) <= M < Square(q + 1) && (ix == 0 <==> M == Square(q))
  {
    hide Square;
  }

  function ShiftLeftOne(x: uint64): uint64 { x * 2 % W }

  lemma LowerPower(k: nat, r: int)
    requires r == Pow2(k)
    ensures r == 1 || r % 2 == 0
    ensures r / 2 != 0 ==> k > 0 && r / 2 == Pow2(k - 1)
  {
  }

  lemma StartDigits(ix: nat, M: nat)
    requires ix < FRAC * 8 && ix * 0x20_0000_0000_0000 == M
    ensures Pow2(53) == 0x20_0000_0000_0000 && M < Square(0x40_0000_0000_0000)
    ensures DigitLoop(M, ix, 0, 0, 0x20_0000_0000_0000)
  {
    hide Pow2;
    Pow2Values();
  }

  // ----- rounding and packing

  /** Rounding the extra digit: half a unit each side, no tie, no carry. */
  lemma RoundDigits(ix0: nat, M: nat, q: nat, exact: bool)
    requires FRAC <= ix0 < 4 * FRAC && (ix0 >= 2 * FRAC ==> ix0 % 2 == 0) && M == ix0 * 0x40_0000_0000_0000
    requires Square(q) <= M < Square(q + 1) && exact == (M == Square(q))
    ensures var R := (if exact then q else q + q % 2) / 2;
            && FRAC <= R < 2 * FRAC
            && Square(2 * R - 1) < M < Square(2 * R + 1)
            && (R == FRAC ==> Square(2 * R) <= M)
            && (exact ==> q == 2 * R)
  {
    hide Square;
    var R := (if exact then q else q + q % 2) / 2;
    RootRange(ix0, M, q);
    if exact { EvenRoot(q, ix0); }
    SquareOrder(2 * R - 1, q);
    SquareOrder(q + 1, 2 * R + 1);
  }

  /** An exact root is even: its square is. */
  lemma EvenRoot(q: nat, ix0: nat)
    requires Square(q) == ix0 * 0x40_0000_0000_0000
    ensures q % 2 == 0
  {
    var h, b := q / 2, q % 2;
    assert q * q == 2 * (2 * h * h + 2 * h * b) + b * b;
    assert b * b == b;
  }

  lemma RootRange(ix0: nat, M: nat, q: nat)
    requires FRAC <= ix0 < 4 * FRAC && (ix0 >= 2 * FRAC ==> ix0 % 2 == 0) && M == ix0 * 0x40_0000_0000_0000
    requires Square(q) <= M < Square(q + 1)
    ensures 2 * FRAC <= q <= 4 * FRAC - 2
  {
    RootRangeValues();
    SquareOrder(2 * FRAC - 1, q);
    SquareOrder(2 * FRAC, q + 1);
    SquareOrder(q, 4 * FRAC - 1);
  }

  lemma RootRangeValues()
    ensures Square(2 * FRAC) == FRAC * 0x40_0000_0000_0000
    ensures (4 * FRAC - 2) * 0x40_0000_0000_0000 < Square(4 * FRAC - 1)
  {
  }

  /** The scale of the significand: 4X in units of the root's exponent. */
  lemma RootScaled(u: nat, ix0: nat, h: int, M: nat)
    requires -600 <= h <= 600 && M == ix0 * 0x40_0000_0000_0000
    requires u * Pow2(1200) == ix0 * Pow2(2 * h + 2222)
    ensures 4 * (u * Pow2(1074)) == M * Square(Pow2(h + 1022))
  {
    hide Pow2, Square;
    ScaleFactors(u, ix0, 1076, 2 * h + 2098, 124);
    Pow2Values();
    Pow2Add(1074, 2);
    Pow2Add(1, 1);
    MulAssoc(u, Pow2(1074), 4);
    SquareOfPower(h + 1022);
    Pow2Add(54, 2 * h + 2044);
    MulAssoc(ix0, Pow2(54), Pow2(2 * h + 2044));
  }

  lemma SquareOfPower(n: nat)
    ensures Square(Pow2(n)) == Pow2(n + n)
  {
    hide Pow2;
    Pow2Add(n, n);
  }

  // ----- the whole function

  lemma LeadingBitTest(ix: uint64)
    requires ix < 2 * FRAC
    ensures And(ix, FRAC) == 0 <==> ix < FRAC
  {
    hide And, Pow2;
    Pow2Values();
    AndField(ix, 1, 52, FRAC);
  }

  lemma DoubleSubnormal(x: nat, ix: nat, k: nat)
    requires 0 < ix < FRAC && ix == x * Pow2(k) && x > 0
    ensures k < 52 && ix * 2 == x * Pow2(k + 1)
  {
    MulGrows(Pow2(k), x);
    Pow2Values();
    Pow2Order(k, 52);
    MulAssoc(x, 2, Pow2(k));
  }

  /** The normalisation loop for a subnormal argument. */
  method ShiftSubnormal(x: uint64) returns (ix: uint64, exp: int)
    requires 0 < x < FRAC
    ensures FRAC <= ix < 2 * FRAC && -52 <= exp <= 0 && ix == x * Pow2(-exp)
  {
    hide And, Pow2;
    ix, exp := x, 0;
    Pow2Zero();
    LeadingBitTest(ix);
    while And(ix, FRAC) == 0
      invariant 0 < ix < 2 * FRAC && -52 <= exp <= 0 && ix == x * Pow2(-exp)
      invariant And(ix, FRAC) == 0 <==> ix < FRAC
      decreases 2 * FRAC - ix
    {
      DoubleSubnormal(x, ix, -exp);
      ix := ShiftLeftOne(ix);
      exp := exp - 1;
      LeadingBitTest(ix);
    }
  }

  lemma SubnormalScale(x: nat, ix: nat, exp: int)
    requires FRAC <= ix < 2 * FRAC && -52 <= exp <= 0 && ix == x * Pow2(-exp)
    ensures Normalised(x, ix, exp + 1)
  {
    hide Pow2;
    Pow2Add(-exp, 64 + exp);
    MulAssoc(x, Pow2(-exp), Pow2(64 + exp));
  }

  /** Brings the leading bit of a significand to bit 52. */
  method Normalise(x: uint64) returns (ix: uint64, exp: int)
    requires 0 < x < UVINF
    ensures ix == x || FRAC <= ix < 2 * FRAC
    ensures Normalised(Units(x), FRAC + ix % FRAC, exp)
  {
    hide And, Pow2, Normalised;
    ix := x;
    FieldsOfWord(x);
    exp := And(ShiftRight(ix, 52), 0x7FF);
    if exp == 0 {
      ix, exp := ShiftSubnormal(ix);
      SubnormalScale(x, ix, exp);
      exp := exp + 1;
      FractionOf(ix);
    } else {
      NormalScale(x);
    }
  }

  lemma SetLeadingBit(ix: uint64)
    requires ix < SIGN
    ensures ShiftLeft(0x7FF, 52) == 0x7FF * FRAC
    ensures Or(AndNot(ix, 0x7FF * FRAC), FRAC) == FRAC + ix % FRAC
  {
    hide AndNot, Or, Pow2;
    Pow2Values();
    AndNotField(ix, 11, 52, 0x7FF * FRAC);
    assert AndNot(ix, 0x7FF * FRAC) == ix % FRAC;
    OrDisjoint(FRAC, ix % FRAC, 52);
  }

  lemma EvenExponent(u: nat, ix: nat, exp: int, ix0: nat, h: int)
    requires Normalised(u, ix, exp) && h == (exp - BIAS) / 2
    requires ix0 == if (exp - BIAS) % 2 == 1 then ix * 2 else ix
    ensures -600 <= h <= 600 && u * Pow2(1200) == ix0 * Pow2(2 * h + 2222)
  {
    hide Pow2;
    var b := (exp - BIAS) % 2;
    Pow2Values();
    if b == 1 {
      Pow2Add(1, 2 * h + 1086);
      MulAssoc(ix, 2, Pow2(2 * h + 1086));
    }
    ScaleFactors(u, ix0, 64, 2 * h + 1086, 1136);
  }

  /** The square root correctly rounded; zeros, NaNs and +Inf are returned as
      they are and a negative argument gives NaN.  exp % 2 and exp / 2 floor, as
      the code's exp & 1 and exp >> 1 do on a two's complement exponent. */
  method SquareRoot(x: uint64) returns (r: uint64)
    ensures IsZero(x) || IsNaN(x) || x == UVINF ==> r == x
    ensures Negative(x) && !IsZero(x) && !IsNaN(x) ==> r == UVNAN
    ensures 0 < x < UVINF ==> 0 < r < UVINF && IsNearestRoot(r, Units(x) * Pow2(1074))
  {
    hide And, AndNot, Or, Pow2, Units, IsNearestRoot, Square, ShiftLeft, Normalised;
    if IsZero(x) || IsNaN(x) || x == UVINF {
      return x;
    }
    if Negative(x) {
      return UVNAN;
    }
    var ix, exp := Normalise(x);
    ghost var biased := exp;
    exp := exp - BIAS;
    SetLeadingBit(ix);
    ix := AndNot(ix, ShiftLeft(0x7FF, 52));
    ix := Or(ix, FRAC);
    ghost var significand := ix;
    NormalisedRange(Units(x), ix, biased);
    if exp % 2 == 1 {
      ix := ShiftLeftOne(ix);
    }
    exp := exp / 2;
    ghost var ix0, M := ix, ix * 0x40_0000_0000_0000;
    EvenExponent(Units(x), significand, biased, ix, exp);
    r := FinishRoot(ix, exp, Units(x));
  }

  /** The digit loop, the final rounding and the packing. */
  method FinishRoot(ix0: uint64, exp: int, ghost u: nat) returns (r: uint64)
    requires FRAC <= ix0 < 4 * FRAC && (ix0 >= 2 * FRAC ==> ix0 % 2 == 0)
    requires -600 <= exp <= 600 && u * Pow2(1200) == ix0 * Pow2(2 * exp + 2222)
    ensures 0 < r < UVINF && IsNearestRoot(r, u * Pow2(1074))
  {
    hide Pow2, Square, ShiftLeft, IsNearestRoot;
    ghost var M := ix0 * 0x40_0000_0000_0000;
    var ix := ShiftLeftOne(ix0);
    var q;
    q, ix := RootDigits(ix, M);
    RoundedRoot(ix0, M, q, ix == 0, exp, u);
    if ix != 0 {
      q := q + q % 2;
    }
    ExponentWord(exp - 1 + BIAS);
    r := (q / 2 + ShiftLeft(exp - 1 + BIAS, 52)) % W;
  }

  lemma RoundedRoot(ix0: nat, M: nat, q: nat, exact: bool, exp: int, u: nat)
    requires FRAC <= ix0 < 4 * FRAC && (ix0 >= 2 * FRAC ==> ix0 % 2 == 0) && M == ix0 * 0x40_0000_0000_0000
    requires Square(q) <= M < Square(q + 1) && exact == (M == Square(q))
    requires -600 <= exp <= 600 && u * Pow2(1200) == ix0 * Pow2(2 * exp + 2222)
    ensures var r := (exp - 1 + BIAS) * FRAC + (if exact then q else q + q % 2) / 2;
            0 < r < UVINF && IsNearestRoot(r, u * Pow2(1074))
  {
    hide Pow2, Square, IsNearestRoot;
    RoundDigits(ix0, M, q, exact);
    RootScaled(u, ix0, exp, M);
    PackedRoot((if exact then q else q + q % 2) / 2, exp - 1 + BIAS, M, u * Pow2(1074));
  }

  lemma NormalisedRange(u: nat, ix: int, exp: int)
    requires Normalised(u, ix, exp)
    ensures FRAC <= ix < 2 * FRAC
  {
  }

  lemma ExponentWord(e: nat)
    requires e < 2046
    ensures ShiftLeft(e, 52) == e * FRAC
  {
    Pow2Values();
  }
}
