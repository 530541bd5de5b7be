/** The host's binary64 operations: every result is the exact one rounded to
    nearest, ties to even (section 4.3.1 of IEEE 754-2019). */
module Ieee {
  import opened Words
  import opened Float64

  // ----- rounding as a function

  /** The greatest encoding up to hi whose value is at most N/D. */
  function FloorEncoding(N: nat, D: nat, hi: nat): (r: nat)
    requires D > 0
    ensures r <= hi && Units(r) * D <= N
    ensures r < hi ==> N < Units(r + 1) * D
    decreases hi
  {
    if hi == 0 || Units(hi) * D <= N then hi else FloorEncoding(N, D, hi - 1)
  }

  function RoundNearest(N: nat, D: nat): (r: nat)
    requires D > 0
    ensures IsNearestEven(r, N, D)
  {
    var f := FloorEncoding(N, D, UVINF);
    RoundFromFloor(f, N, D);
    if f == UVINF then f
    else if 2 * N < (Units(f) + Units(f + 1)) * D then f
    else if 2 * N > (Units(f) + Units(f + 1)) * D then f + 1
    else if f % 2 == 0 then f
    else f + 1
  }

  lemma RoundFromFloor(f: nat, N: nat, D: nat)
    requires D > 0 && f <= UVINF && Units(f) * D <= N && (f < UVINF ==> N < Units(f + 1) * D)
    ensures f == UVINF ==> IsNearestEven(f, N, D)
    ensures f < UVINF && (2 * N < (Units(f) + Units(f + 1)) * D || (2 * N == (Units(f) + Units(f + 1)) * D && f % 2 == 0))
            ==> IsNearestEven(f, N, D)
    ensures f < UVINF && (2 * N > (Units(f) + Units(f + 1)) * D || (2 * N == (Units(f) + Units(f + 1)) * D && f % 2 == 1))
            ==> IsNearestEven(f + 1, N, D)
  {
    hide IsNearestEven, Units;
    if f == UVINF || 2 * N <= (Units(f) + Units(f + 1)) * D {
      if f == UVINF || 2 * N < (Units(f) + Units(f + 1)) * D || f % 2 == 0 { RoundsDown(f, N, D); }
    }
    if f < UVINF && 2 * N >= (Units(f) + Units(f + 1)) * D {
      if 2 * N > (Units(f) + Units(f + 1)) * D || f % 2 == 1 { RoundsUp(f, N, D); }
    }
  }

  lemma RoundsDown(f: nat, N: nat, D: nat)
    requires D > 0 && f <= UVINF && Units(f) * D <= N
    requires f < UVINF ==> 2 * N <= (Units(f) + Units(f + 1)) * D
    requires f < UVINF && 2 * N == (Units(f) + Units(f + 1)) * D ==> f % 2 == 0
    ensures IsNearestEven(f, N, D)
  {
    hide IsNearestEven, Units;
    if f > 0 { NeighbourSums(f - 1, D); }
    NearestFromNeighbours(f, N, D);
  }

  lemma RoundsUp(f: nat, N: nat, D: nat)
    requires D > 0 && f < UVINF && N < Units(f + 1) * D
    requires 2 * N >= (Units(f) + Units(f + 1)) * D
    requires 2 * N == (Units(f) + Units(f + 1)) * D ==> f % 2 == 1
    ensures IsNearestEven(f + 1, N, D)
  {
    hide IsNearestEven, Units;
    NeighbourSums(f + 1, D);
    NearestFromNeighbours(f + 1, N, D);
  }

  lemma NeighbourSums(a: nat, D: nat)
    requires D > 0
    ensures (Units(a) + Units(a + 1)) * D == Units(a) * D + Units(a + 1) * D
    ensures Units(a) * D < Units(a + 1) * D
  {
    UnitsStep(a);
    MulStrict(Units(a), Units(a + 1), D);
  }

  /** An exactly representable value is the rounded one. */
  lemma RoundExact(c: nat, N: nat, D: nat)
    requires D > 0 && c <= UVINF && Units(c) * D == N
    ensures RoundNearest(N, D) == c
  {
    ExactIsNearest(c, N, D);
    NearestUnique(c, RoundNearest(N, D), N, D);
  }

  // ----- operations on finite operands

  function WithSign(negative: bool, m: nat): (b: uint64)
    requires m < SIGN
    ensures Magnitude(b) == m && Negative(b) == negative
  {
    if negative then SIGN + m else m
  }

  function Negate(a: uint64): uint64 { WithSign(!Negative(a), Magnitude(a)) }

  /** The sum: an exact zero is -0 only when both operands are negative. */
  function Add(a: uint64, b: uint64): uint64
    requires IsFinite(a) && IsFinite(b)
  {
    var v := SignedUnits(a) + SignedUnits(b);
    if v == 0 then WithSign(Negative(a) && Negative(b), 0) else WithSign(v < 0, RoundNearest(Abs(v), 1))
  }

  function Subtract(a: uint64, b: uint64): uint64
    requires IsFinite(a) && IsFinite(b)
  {
    Add(a, Negate(b))
  }

  function Multiply(a: uint64, b: uint64): uint64
    requires IsFinite(a) && IsFinite(b)
  {
    MulMono(0, Units(Magnitude(a)), Units(Magnitude(b)));
    WithSign(Negative(a) != Negative(b), RoundNearest(Units(Magnitude(a)) * Units(Magnitude(b)), Pow2(1074)))
  }

  /** Ordered comparison; false when an operand is not a number. */
  predicate Less(a: uint64, b: uint64) { !IsNaN(a) && !IsNaN(b) && SignedUnits(a) < SignedUnits(b) }

  predicate LessOrEqual(a: uint64, b: uint64) { !IsNaN(a) && !IsNaN(b) && SignedUnits(a) <= SignedUnits(b) }

  predicate Equal(a: uint64, b: uint64) { !IsNaN(a) && !IsNaN(b) && SignedUnits(a) == SignedUnits(b) }

  // ----- exactness

  /** Every multiple of a power of two by at most 2^53 is representable. */
  lemma {:induction false} EncodeMultiple(k: nat, j: nat) returns (c: nat)
    requires k <= 2 * FRAC
    ensures Units(c) == k * Pow2(j)
    decreases j
  {
    if k >= FRAC {
      PackedUnits(k, j);
      c := j * FRAC + k;
    } else if j == 0 {
      c := k;
    } else {
      c := EncodeMultiple(2 * k, j - 1);
      MulAssoc(k, 2, Pow2(j - 1));
    }
  }

  /** The exponent of the last place of an encoding. */
  function UlpExponent(b: nat): nat { if b < 2 * FRAC then 0 else 1 + UlpExponent(b - FRAC) }

  lemma {:induction false} UlpDivides(b: nat, a: nat) returns (k: nat)
    requires b <= a
    ensures Units(a) == k * Pow2(UlpExponent(b))
    ensures a == b ==> k < 2 * FRAC
    decreases b
  {
    if b < 2 * FRAC {
      k := Units(a);
    } else {
      k := UlpDivides(b - FRAC, a - FRAC);
      MulAssoc(k, Pow2(UlpExponent(b - FRAC)), 2);
    }
  }

  /** The difference of two values within a factor of two is representable. */
  lemma DifferenceIsExact(a: nat, b: nat) returns (c: nat)
    requires Units(b) <= Units(a) <= 2 * Units(b)
    ensures Units(c) == Units(a) - Units(b)
  {
    hide Units, Pow2, UlpExponent;
    UnitsOrder(b, a);
    UnitsOrder(a, b);
    var kb := UlpDivides(b, b);
    var ka := UlpDivides(b, a);
    Quotients(ka, kb, Pow2(UlpExponent(b)));
    c := EncodeMultiple(ka - kb, UlpExponent(b));
  }

  lemma Quotients(k: nat, l: nat, p: nat)
    requires p > 0 && l * p <= k * p <= 2 * (l * p)
    ensures l <= k <= 2 * l && (k - l) * p == k * p - l * p
  {
    MulSign(k - l, p);
    MulSign(k - 2 * l, p);
    assert (k - l) * p == k * p - l * p;
    assert (k - 2 * l) * p == k * p - 2 * (l * p);
  }

  /** Multiplying by a power of two keeps a value representable. */
  lemma ScaleIsExact(b: nat, j: nat) returns (c: nat)
    ensures Units(c) == Units(b) * Pow2(j)
  {
    var k := UlpDivides(b, b);
    var e := UlpExponent(b);
    c := EncodeMultiple(k, e + j);
    Pow2Add(e, j);
    MulAssoc(k, Pow2(e), Pow2(j));
  }

  /** A sum whose exact value is representable is exact. */
  lemma AddExact(a: uint64, b: uint64, c: nat)
    requires IsFinite(a) && IsFinite(b)
    requires Units(c) == Abs(SignedUnits(a) + SignedUnits(b)) && c < UVINF
    ensures SignedUnits(Add(a, b)) == SignedUnits(a) + SignedUnits(b) && IsFinite(Add(a, b))
    ensures Add(a, b) == if SignedUnits(a) + SignedUnits(b) == 0 then WithSign(Negative(a) && Negative(b), 0)
                         else WithSign(SignedUnits(a) + SignedUnits(b) < 0, c)
  {
    hide RoundNearest;
    UnitsOrder(c, 0);
    RoundExact(c, Units(c), 1);
  }

  lemma NegateUnits(a: uint64)
    ensures SignedUnits(Negate(a)) == -SignedUnits(a)
    ensures IsFinite(Negate(a)) == IsFinite(a)
  {
  }

  /** Doubling is exact below the overflow threshold. */
  lemma DoubleUnits(c: nat)
    ensures c >= FRAC ==> Units(c + FRAC) == 2 * Units(c)
    ensures c < FRAC ==> Units(2 * c) == 2 * Units(c)
  {
  }
}
