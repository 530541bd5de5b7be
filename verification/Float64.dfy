/** The IEEE 754 binary64 encoding read as exact integers.  Every finite value
    is an integer number of units of 2^-1074, so values, midpoints and distances
    are compared as integers. */
module Float64 {
  import opened Words

  /** The implicit leading bit, 2^52. */
  const FRAC: nat := 0x10_0000_0000_0000
  const SIGN: nat := 0x8000_0000_0000_0000
  /** The encoding of +Inf, one above the largest finite magnitude. */
  const UVINF: nat := 0x7FF0_0000_0000_0000
  const UVNAN: nat := 0x7FF8_0000_0000_0001
  const BIAS: int := 1023
  /** The encoding of 1. */
  const UVONE: nat := 0x3FF0_0000_0000_0000

  predicate Negative(b: uint64) { b >= SIGN }

  /** The encoding with its sign bit cleared. */
  function Magnitude(b: uint64): uint64 { if b >= SIGN then b - SIGN else b }

  predicate IsNaN(b: uint64) { Magnitude(b) > UVINF }

  predicate IsInf(b: uint64) { Magnitude(b) == UVINF }

  predicate IsFinite(b: uint64) { Magnitude(b) < UVINF }

  predicate IsZero(b: uint64) { Magnitude(b) == 0 }

  /** The magnitude with encoding b, in units of 2^-1074: the subnormals and the
      first binade are consecutive, and each later binade doubles the one before
      it.  For the encoding of infinity this is the value the next larger
      exponent would have. */
  function Units(b: nat): nat {
    if b < 2 * FRAC then b else 2 * Units(b - FRAC)
  }

  function SignedUnits(b: uint64): int {
    var u: int := Units(Magnitude(b));
    if Negative(b) then -u else u
  }

  function Abs(x: int): nat { if x < 0 then -x else x }

  /** The distance of the magnitude encoded by c from N/D, times D. */
  function Distance(c: nat, N: nat, D: nat): nat { Abs(Units(c) * D - N) }

  /** Encoding r is N/D units rounded to nearest, ties to an even significand,
      overflowing to infinity (section 4.3.1 of IEEE 754-2019). */
  ghost predicate IsNearestEven(r: nat, N: nat, D: nat) {
    && r <= UVINF
    && forall c: nat | c <= UVINF && c != r ::
         || Distance(r, N, D) < Distance(c, N, D)
         || (Distance(r, N, D) == Distance(c, N, D) && r % 2 == 0)
  }

  // ----- the order of encodings is the order of values

  lemma {:induction false} UnitsStep(b: nat)
    ensures Units(b) < Units(b + 1)
  {
    if b >= 2 * FRAC { UnitsStep(b - FRAC); }
  }

  lemma {:induction false} UnitsStrict(a: nat, b: nat)
    requires a < b
    ensures Units(a) < Units(b)
    decreases b - a
  {
    UnitsStep(b - 1);
    if a < b - 1 { UnitsStrict(a, b - 1); }
  }

  /** Encoding order reflects value order both ways. */
  lemma UnitsOrder(a: nat, b: nat)
    ensures Units(a) < Units(b) <==> a < b
    ensures Units(a) == Units(b) <==> a == b
  {
    if a < b { UnitsStrict(a, b); }
    if b < a { UnitsStrict(b, a); }
  }

  /** Exponent field and significand packed by addition, carries included. */
  lemma {:induction false} PackedUnits(q: nat, e: nat)
    requires q <= 2 * FRAC && (q >= FRAC || e == 0)
    ensures Units(e * FRAC + q) == q * Pow2(e)
    decreases e
  {
    if e > 0 {
      PackedUnits(q, e - 1);
      assert e * FRAC + q - FRAC == (e - 1) * FRAC + q;
      MulAssoc(q, 2, Pow2(e - 1));
    }
  }

  /** The value the fields of an encoding stand for. */
  lemma UnitsOfFields(b: nat)
    ensures Units(b) == if b / FRAC == 0 then b % FRAC else (FRAC + b % FRAC) * Pow2(b / FRAC - 1)
  {
    var e, f := b / FRAC, b % FRAC;
    if e > 0 {
      PackedUnits(FRAC + f, e - 1);
      assert (e - 1) * FRAC + (FRAC + f) == b;
    }
  }

  // ----- normalised values

  /** The three fields of an encoding, as they are masked out of the word. */
  lemma FieldsOfWord(x: uint64)
    ensures ShiftRight(x, 63) == if Negative(x) then 1 else 0
    ensures And(x, SIGN) == if Negative(x) then SIGN else 0
    ensures And(ShiftRight(x, 52), 0x7FF) == Magnitude(x) / FRAC
    ensures And(x, FRAC - 1) == Magnitude(x) % FRAC
  {
    hide And, Pow2;
    Pow2Values();
    AndMask(ShiftRight(x, 52), 11);
    AndMask(x, 52);
    AndField(x, 1, 63, SIGN);
    FieldSplit(x);
  }

  lemma FieldSplit(x: uint64)
    ensures (x / FRAC) % 2048 == Magnitude(x) / FRAC && x % FRAC == Magnitude(x) % FRAC
    ensures (x / SIGN) % 2 == if Negative(x) then 1 else 0
  {
  }

  /** u units is ix * 2^(exp - 1), with the leading bit of ix at bit 52. */
  ghost predicate Normalised(u: nat, ix: int, exp: int) {
    && FRAC <= ix < 2 * FRAC && -51 <= exp <= 2046
    && u * Pow2(64) == ix * Pow2(exp + 63)
  }

  lemma NormalScale(x: nat)
    requires FRAC <= x < UVINF
    ensures Normalised(Units(x), FRAC + x % FRAC, x / FRAC)
  {
    hide Pow2, Units;
    UnitsOfFields(x);
    Pow2Add(x / FRAC - 1, 64);
    MulAssoc(FRAC + x % FRAC, Pow2(x / FRAC - 1), Pow2(64));
  }

  lemma FractionOf(ix: nat)
    requires FRAC <= ix < 2 * FRAC
    ensures FRAC + ix % FRAC == ix
  {
  }

  // ----- nearness to neighbours is nearness to all

  lemma NearestFromNeighbours(r: nat, N: nat, D: nat)
    requires D > 0 && r <= UVINF
    requires r > 0 ==> (Units(r - 1) + Units(r)) * D <= 2 * N
    requires r > 0 && (Units(r - 1) + Units(r)) * D == 2 * N ==> r % 2 == 0
    requires r < UVINF ==> 2 * N <= (Units(r) + Units(r + 1)) * D
    requires r < UVINF && 2 * N == (Units(r) + Units(r + 1)) * D ==> r % 2 == 0
    ensures IsNearestEven(r, N, D)
  {
    forall c: nat | c <= UVINF && c != r
      ensures Distance(r, N, D) < Distance(c, N, D) || (Distance(r, N, D) == Distance(c, N, D) && r % 2 == 0)
    {
      var ur, uc := Units(r), Units(c);
      if c < r {
        UnitsOrder(c, r - 1);
        UnitsStep(r - 1);
        CloserToUpper(uc, Units(r - 1), ur, N, D);
      } else {
        UnitsOrder(r + 1, c);
        UnitsStep(r);
        CloserToLower(ur, Units(r + 1), uc, N, D);
      }
    }
  }

  /** The rounding test on a significand q at biased exponent e: N/D lies within
      half a unit of q * 2^e, and no lower when the spacing below is finer. */
  lemma PackedNearest(q: nat, e: nat, N: nat, D: nat, u: nat)
    requires D > 0 && u == Pow2(e) * D
    requires q <= 2 * FRAC && (q >= FRAC || e == 0) && e * FRAC + q <= UVINF
    requires (2 * q - 1) * u <= 2 * N <= (2 * q + 1) * u
    requires (2 * q - 1) * u == 2 * N || 2 * N == (2 * q + 1) * u ==> q % 2 == 0
    requires q == FRAC && e > 0 ==> q * u <= N
    ensures IsNearestEven(e * FRAC + q, N, D)
  {
    hide Pow2, Units, IsNearestEven;
    var r := e * FRAC + q;
    assert r % 2 == q % 2;
    if r < UVINF {
      UpperMidpoint(q, e, D, u);
    }
    if r > 0 {
      PackedLower(q, e, N, D, u);
    }
    NearestFromNeighbours(r, N, D);
  }

  lemma PackedLower(q: nat, e: nat, N: nat, D: nat, u: nat)
    requires D > 0 && u == Pow2(e) * D
    requires q <= 2 * FRAC && (q >= FRAC || e == 0) && e * FRAC + q > 0
    requires (2 * q - 1) * u <= 2 * N
    requires (2 * q - 1) * u == 2 * N ==> q % 2 == 0
    requires q == FRAC && e > 0 ==> q * u <= N
    ensures var m := (Units(e * FRAC + q - 1) + Units(e * FRAC + q)) * D; m <= 2 * N && (m == 2 * N ==> q % 2 == 0)
  {
    hide Pow2, Units;
    LowerMidpoint(q, e, D, u);
    if q == FRAC && e > 0 {
      MulAssoc(2, q, u);
    }
  }

  /** Comparing s with k*p is comparing s*D with k*(p*D). */
  lemma ScaledCompare(s: int, k: int, p: nat, D: nat)
    requires D > 0
    ensures s >= k * p ==> s * D >= k * (p * D)
    ensures s == k * p ==> s * D == k * (p * D)
    ensures s < k * p ==> s * D < k * (p * D)
  {
    MulAssoc(k, p, D);
    if s >= k * p { MulMono(k * p, s, D); } else { MulStrict(s, k * p, D); }
  }

  lemma UpperMidpoint(q: nat, e: nat, D: nat, u: nat)
    requires D > 0 && u == Pow2(e) * D
    requires q <= 2 * FRAC && (q >= FRAC || e == 0)
    ensures (Units(e * FRAC + q) + Units(e * FRAC + q + 1)) * D >= (2 * q + 1) * u
  {
    UpperNeighbour(q, e);
    ScaledCompare(Units(e * FRAC + q) + Units(e * FRAC + q + 1), 2 * q + 1, Pow2(e), D);
  }

  lemma TwoMultiples(q: nat, p: nat)
    ensures q * p + (q + 1) * p == (2 * q + 1) * p
    ensures q * p + (q + 2) * p == (2 * q + 1) * p + p
  {
  }

  lemma UpperNeighbour(q: nat, e: nat)
    requires q <= 2 * FRAC && (q >= FRAC || e == 0)
    ensures Units(e * FRAC + q) + Units(e * FRAC + q + 1) >= (2 * q + 1) * Pow2(e)
  {
    var p := Pow2(e);
    assert Pow2(e + 1) == 2 * p;
    hide Units, Pow2;
    PackedUnits(q, e);
    TwoMultiples(q, p);
    if q < 2 * FRAC {
      PackedUnits(q + 1, e);
    } else {
      PackedUnits(FRAC + 1, e + 1);
      assert (e + 1) * FRAC + (FRAC + 1) == e * FRAC + q + 1;
      MulAssoc(FRAC + 1, 2, p);
    }
  }

  lemma LowerMidpoint(q: nat, e: nat, D: nat, u: nat)
    requires D > 0 && u == Pow2(e) * D
    requires q <= 2 * FRAC && (q >= FRAC || e == 0) && e * FRAC + q > 0
    ensures q == FRAC && e > 0 ==> (Units(e * FRAC + q - 1) + Units(e * FRAC + q)) * D < 2 * q * u
    ensures !(q == FRAC && e > 0) ==> (Units(e * FRAC + q - 1) + Units(e * FRAC + q)) * D == (2 * q - 1) * u
  {
    LowerNeighbour(q, e);
    var s := Units(e * FRAC + q - 1) + Units(e * FRAC + q);
    ScaledCompare(s, 2 * q, Pow2(e), D);
    ScaledCompare(s, 2 * q - 1, Pow2(e), D);
  }

  lemma LowerNeighbour(q: nat, e: nat)
    requires q <= 2 * FRAC && (q >= FRAC || e == 0) && e * FRAC + q > 0
    ensures q == FRAC && e > 0 ==> Units(e * FRAC + q - 1) + Units(e * FRAC + q) < 2 * q * Pow2(e)
    ensures !(q == FRAC && e > 0) ==> Units(e * FRAC + q - 1) + Units(e * FRAC + q) == (2 * q - 1) * Pow2(e)
  {
    PackedUnits(q, e);
    SumOfNeighbours(q, Pow2(e));
    if q == FRAC && e > 0 {
      UnitsStep(e * FRAC + q - 1);
    } else {
      PackedUnits(q - 1, e);
    }
  }

  lemma SumOfNeighbours(q: int, p: int)
    ensures q * p + q * p == 2 * q * p
    ensures (q - 1) * p + q * p == (2 * q - 1) * p
  {
  }

  lemma CloserToUpper(c: nat, below: nat, r: nat, N: nat, D: nat)
    requires D > 0 && c <= below < r && (below + r) * D <= 2 * N
    ensures Abs(r * D - N) <= Abs(c * D - N)
    ensures Abs(r * D - N) == Abs(c * D - N) ==> (below + r) * D == 2 * N
  {
    MulMono(c, below, D);
    MulStrict(below, r, D);
    assert (below + r) * D == below * D + r * D;
  }

  lemma CloserToLower(r: nat, above: nat, c: nat, N: nat, D: nat)
    requires D > 0 && r < above <= c && 2 * N <= (r + above) * D
    ensures Abs(r * D - N) <= Abs(c * D - N)
    ensures Abs(r * D - N) == Abs(c * D - N) ==> 2 * N == (r + above) * D
  {
    MulMono(above, c, D);
    MulStrict(r, above, D);
    assert (r + above) * D == r * D + above * D;
  }

  /** Rounding has at most one answer. */
  lemma NearestUnique(r: nat, r': nat, N: nat, D: nat)
    requires IsNearestEven(r, N, D) && IsNearestEven(r', N, D) && D > 0
    ensures r == r'
  {
    if r < r' {
      NotBothNearest(r, r', N, D);
    } else if r' < r {
      NotBothNearest(r', r, N, D);
    }
  }

  /** Two nearest encodings would be equally near and both even, and an encoding
      between them would be nearer. */
  lemma NotBothNearest(r: nat, r': nat, N: nat, D: nat)
    requires D > 0 && r < r'
    ensures !(IsNearestEven(r, N, D) && IsNearestEven(r', N, D))
  {
    UnitsOrder(r, r + 1);
    UnitsOrder(r + 1, r');
    Between(Units(r), Units(r + 1), Units(r'), N, D);
    var d, d', middle := Distance(r, N, D), Distance(r', N, D), Distance(r + 1, N, D);
  }

  lemma Between(a: nat, b: nat, c: nat, N: nat, D: nat)
    requires D > 0 && a < b <= c
    ensures Abs(a * D - N) == Abs(c * D - N) && b < c ==> Abs(b * D - N) < Abs(a * D - N)
  {
    MulStrict(a, b, D);
    if b < c { MulStrict(b, c, D); }
  }

  /** A representable value rounds to itself. */
  lemma ExactIsNearest(r: nat, N: nat, D: nat)
    requires D > 0 && r <= UVINF && Units(r) * D == N
    ensures IsNearestEven(r, N, D)
  {
    forall c: nat | c <= UVINF && c != r
      ensures Distance(r, N, D) < Distance(c, N, D)
    {
      UnitsOrder(c, r);
      if c < r { MulStrict(Units(c), Units(r), D); } else { MulStrict(Units(r), Units(c), D); }
    }
  }

  /** Rounding N/D depends only on the ratio. */
  lemma NearestRescale(r: nat, N: nat, D: nat, N': nat, D': nat)
    requires D > 0 && D' > 0 && N * D' == N' * D
    requires IsNearestEven(r, N, D)
    ensures IsNearestEven(r, N', D')
  {
    forall c: nat | c <= UVINF && c != r
      ensures Distance(r, N', D') < Distance(c, N', D') || (Distance(r, N', D') == Distance(c, N', D') && r % 2 == 0)
    {
      DistanceRescale(r, N, D, N', D');
      DistanceRescale(c, N, D, N', D');
      CompareScaled(Distance(r, N, D), Distance(c, N, D), Distance(r, N', D'), Distance(c, N', D'), D, D');
    }
  }

  lemma CompareScaled(a: nat, b: nat, a': nat, b': nat, D: nat, D': nat)
    requires D > 0 && D' > 0 && a * D' == a' * D && b * D' == b' * D
    ensures a < b ==> a' < b'
    ensures a == b ==> a' == b'
  {
    if a < b {
      MulStrict(a, b, D');
      if a' >= b' { MulMono(b', a', D); }
    } else if a == b {
      SameFactor(a', b', D);
    }
  }

  lemma DistanceRescale(c: nat, N: nat, D: nat, N': nat, D': nat)
    requires N * D' == N' * D
    ensures Distance(c, N, D) * D' == Distance(c, N', D') * D
  {
    hide Units;
    var u := Units(c);
    MulAssoc(u, D, D');
    MulAssoc(u, D', D);
    assert (u * D - N) * D' == u * D * D' - N * D';
    assert (u * D' - N') * D == u * D' * D - N' * D;
    AbsProduct(u * D - N, D');
    AbsProduct(u * D' - N', D);
  }

  lemma AbsProduct(a: int, k: nat)
    ensures Abs(a) * k == Abs(a * k)
  {
    if a >= 0 {
      MulMono(0, a, k);
    } else {
      MulMono(a, 0, k);
      assert (-a) * k == -(a * k);
    }
  }
}
