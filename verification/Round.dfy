/** Rounding to an integer on the bit pattern: Round and RoundToEven of
    src/math/floor.go. */
module Round {
  import opened Words
  import opened Float64

  const FRAC_MASK: uint64 := 0xF_FFFF_FFFF_FFFF

  /** u is k times one (2^1074 units), as near to n as an integer can be, and in
      a tie further from zero. */
  ghost predicate HalfAway(k: nat, u: nat, n: nat) {
    && u == k * Pow2(1074) && 2 * Abs(u - n) <= Pow2(1074)
    && (2 * Abs(u - n) == Pow2(1074) ==> u > n)
  }

  /** The same with the even integer in a tie. */
  ghost predicate HalfEven(k: nat, u: nat, n: nat) {
    && u == k * Pow2(1074) && 2 * Abs(u - n) <= Pow2(1074)
    && (2 * Abs(u - n) == Pow2(1074) ==> k % 2 == 0)
  }

  lemma OrSignOne(s: uint64)
    requires s == 0 || s == SIGN
    ensures Or(s, UVONE) == s + UVONE
  {
    hide Or;
    Pow2Values();
    OrDisjoint(s, UVONE, 63);
  }

  /** A magnitude below one against the integers zero and one. */
  lemma BelowOne(m: nat)
    requires m / FRAC < 1023
    ensures Units(0) == 0 && Units(UVONE) == Pow2(1074) && Units(m) < Pow2(1074)
    ensures m / FRAC == 1022 <==> Pow2(1074) <= 2 * Units(m)
    ensures m == 1022 * FRAC <==> Pow2(1074) == 2 * Units(m)
  {
    hide Pow2, Units;
    Pow2Values();
    Pow2Add(52, 1022);
    Pow2Add(52, 1021);
    Pow2Twice(1073);
    PackedUnits(FRAC, 1022);
    PackedUnits(FRAC, 1021);
    assert 1022 * FRAC + FRAC == UVONE && 1021 * FRAC + FRAC == 1022 * FRAC;
    UnitsOrder(m, UVONE);
    UnitsOrder(m, 1022 * FRAC);
    ZeroUnits();
  }

  lemma ZeroUnits()
    ensures Units(0) == 0
  {
  }

  // ----- rounding the fraction of a magnitude of one or more

  /** The weight of one in the significand at exponent e. */
  function Grain(e: nat): (g: nat)
    requires e <= 52
    ensures g >= 1
  {
    Pow2(52 - e)
  }

  lemma ShiftedConstants(e: nat)
    requires e <= 51
    ensures Grain(e) >= 2 && Grain(e) % 2 == 0
    ensures ShiftRight(0x8_0000_0000_0000, e) == Grain(e) / 2
    ensures ShiftRight(0x8_0000_0000_0000 - 1, e) == Grain(e) / 2 - 1
    ensures ShiftRight(FRAC_MASK, e) == Grain(e) - 1
  {
    hide Pow2;
    GrainDivides(e);
    ConstantProducts(e);
    ExactQuotient(Grain(e) / 2, Pow2(e));
    ExactQuotient(Grain(e), Pow2(e));
  }

  lemma ConstantProducts(e: nat)
    requires e <= 51
    ensures Grain(e) / 2 * Pow2(e) == 0x8_0000_0000_0000 && Grain(e) * Pow2(e) == FRAC
  {
    hide Pow2;
    Pow2Values();
    Pow2Twice(51 - e);
    Pow2Add(e, 51 - e);
    Pow2Add(e, 52 - e);
  }

  lemma ExactQuotient(h: nat, p: nat)
    requires h >= 1 && p >= 1
    ensures (h * p) / p == h && (h * p - 1) / p == h - 1
  {
    DivUnique(h * p, p, h, 0);
    assert (h - 1) * p == h * p - p;
    DivUnique(h * p - 1, p, h - 1, p - 1);
  }

  /** Clearing the bits below the grain of a packed word, carries included. */
  lemma ClearFraction(w: uint64, e: nat)
    requires e <= 51
    ensures AndNot(w, Grain(e) - 1) == w - w % Grain(e)
  {
    hide AndNot, Pow2;
    AndNotMask(w, 52 - e);
  }

  /** The value of the magnitude and of one, in terms of the significand. */
  lemma SignificandUnits(m: nat, e: nat)
    requires e <= 51 && m / FRAC == 1023 + e
    ensures Units(m) == (FRAC + m % FRAC) * Pow2(1022 + e)
    ensures Pow2(1074) == Grain(e) * Pow2(1022 + e)
  {
    hide Pow2, Units;
    UnitsOfFields(m);
    Pow2Add(52 - e, 1022 + e);
  }

  /** The significand q with a added and the bits below the grain cleared. */
  function Cleared(q: nat, a: nat, e: nat): nat
    requires e <= 51
  {
    DivBound(q + a, Grain(e));
    q + a - (q + a) % Grain(e)
  }

  /** Adding a to the significand and clearing the fraction, on the packed word. */
  lemma PackedRounding(x: uint64, e: nat, a: nat)
    requires e <= 51 && Magnitude(x) / FRAC == 1023 + e && a <= Grain(e) / 2
    ensures var s, m := if Negative(x) then SIGN else 0, (1022 + e) * FRAC + Cleared(FRAC + Magnitude(x) % FRAC, a, e);
            && x + a < W && x + a - (x + a) % Grain(e) == s + m
            && m < UVINF && Units(m) == Cleared(FRAC + Magnitude(x) % FRAC, a, e) * Pow2(1022 + e)
  {
    hide Pow2, Units, Grain, Cleared;
    var q := FRAC + Magnitude(x) % FRAC;
    WordOfFields(x, e);
    CarryBound(q, a, e);
    RoundedWord(x, e, a, q);
    ClearedIs(q, a, e);
    PackedUnits(Cleared(q, a, e), 1022 + e);
  }

  lemma ClearedIs(q: nat, a: nat, e: nat)
    requires e <= 51
    ensures Cleared(q, a, e) == q + a - (q + a) % Grain(e)
  {
  }

  lemma RoundedWord(x: uint64, e: nat, a: nat, q: nat)
    requires e <= 51 && q + a < 3 * FRAC
    requires x == ((if Negative(x) then 2048 else 0) + 1022 + e) * FRAC + q
    ensures x + a < W && (x + a) % Grain(e) == (q + a) % Grain(e)
  {
    hide Pow2, Grain;
    WholeGrains((if Negative(x) then 2048 else 0) + 1022 + e, e, q + a);
  }

  lemma WordOfFields(x: uint64, e: nat)
    requires e <= 51 && Magnitude(x) / FRAC == 1023 + e
    ensures var s := if Negative(x) then SIGN else 0;
            && x == s + ((1022 + e) * FRAC + (FRAC + Magnitude(x) % FRAC))
            && x == ((if Negative(x) then 2048 else 0) + 1022 + e) * FRAC + (FRAC + Magnitude(x) % FRAC)
            && FRAC <= FRAC + Magnitude(x) % FRAC < 2 * FRAC
  {
  }

  lemma GrainDivides(e: nat)
    requires e <= 51
    ensures 2 <= Grain(e) <= FRAC && Grain(e) % 2 == 0
  {
    hide Pow2;
    Pow2Values();
    Pow2Mono(52 - e, 52);
    Pow2Twice(51 - e);
  }

  /** Whole multiples of FRAC do not change the remainder by a grain. */
  lemma WholeGrains(k: nat, e: nat, v: nat)
    requires e <= 51
    ensures (k * FRAC + v) % Grain(e) == v % Grain(e)
  {
    hide Pow2;
    Pow2Values();
    var g := Grain(e);
    Pow2Add(e, 52 - e);
    MulAssoc(k, Pow2(e), g);
    DivBound(v, g);
    assert (k * Pow2(e) + v / g) * g == k * Pow2(e) * g + v / g * g;
    DivUnique(k * FRAC + v, g, k * Pow2(e) + v / g, v % g);
  }

  /** A carry stops at the next power of two. */
  lemma CarryBound(q: nat, a: nat, e: nat)
    requires e <= 51 && FRAC <= q < 2 * FRAC && a <= Grain(e) / 2
    ensures FRAC <= q + a - (q + a) % Grain(e) <= 2 * FRAC && q + a < 3 * FRAC
  {
    hide Pow2;
    GrainDivides(e);
    var g := Grain(e);
    if q + a >= 2 * FRAC {
      WholeGrains(2, e, q + a - 2 * FRAC);
      DivUnique(q + a - 2 * FRAC, g, 0, q + a - 2 * FRAC);
    } else {
      WholeGrains(1, e, q + a - FRAC);
      DivBound(q + a - FRAC, g);
    }
  }

  /** Rounding to a multiple of the grain by adding half of it. */
  lemma NearestGrain(q: nat, g: nat, a: nat)
    requires g >= 2 && g % 2 == 0
    requires a == g / 2 || (a == g / 2 - 1 && q / g % 2 == 0)
    ensures var k := (q + a) / g;
            && q + a - (q + a) % g == k * g
            && 2 * Abs(k * g - q) <= g
            && (2 * Abs(k * g - q) == g ==> if a == g / 2 then k * g > q else k % 2 == 0)
            && (2 * Abs(k * g - q) == g && q / g % 2 == 1 ==> k % 2 == 0)
  {
    var c, r := q / g, q % g;
    DivBound(q, g);
    NextGrain(c, g);
    if r + a < g {
      DivUnique(q + a, g, c, r + a);
    } else {
      DivUnique(q + a, g, c + 1, r + a - g);
    }
  }

  lemma NextGrain(c: int, g: int)
    ensures (c + 1) * g == c * g + g
  {
  }

  /** Scaling the significand's rounding to the value's. */
  lemma ScaleRounding(k: nat, q: nat, g: nat, p: nat)
    ensures (k * g) * p == k * (g * p)
    ensures Abs((k * g) * p - q * p) == Abs(k * g - q) * p
  {
    MulAssoc(k, g, p);
    assert (k * g) * p - q * p == (k * g - q) * p;
    AbsProduct(k * g - q, p);
  }

  lemma ScaledBound(d: nat, g: nat, p: nat)
    requires p > 0
    ensures 2 * d <= g <==> 2 * (d * p) <= g * p
    ensures 2 * d == g <==> 2 * (d * p) == g * p
  {
    MulAssoc(2, d, p);
    if 2 * d < g { MulStrict(2 * d, g, p); } else if 2 * d > g { MulStrict(g, 2 * d, p); }
  }

  lemma RoundAwayValue(x: uint64, e: nat, u: nat)
    requires e <= 51 && Magnitude(x) / FRAC == 1023 + e
    requires var q := FRAC + Magnitude(x) % FRAC;
             u == Cleared(q, Grain(e) / 2, e) * Pow2(1022 + e)
    ensures exists k: nat :: HalfAway(k, u, Units(Magnitude(x)))
  {
    hide Pow2, Units;
    var g, q, p := Grain(e), FRAC + Magnitude(x) % FRAC, Pow2(1022 + e);
    GrainDivides(e);
    SignificandUnits(Magnitude(x), e);
    NearestGrain(q, g, g / 2);
    var k := (q + g / 2) / g;
    DivBound(q + g / 2, g);
    ScaleRounding(k, q, g, p);
    ScaledBound(Abs(k * g - q), g, p);
    if k * g > q { MulStrict(q, k * g, p); }
    assert HalfAway(k, u, Units(Magnitude(x)));
  }

  lemma RoundEvenValue(x: uint64, e: nat, a: nat, u: nat)
    requires e <= 51 && Magnitude(x) / FRAC == 1023 + e
    requires var q := FRAC + Magnitude(x) % FRAC;
             && a == (if q / Grain(e) % 2 == 1 then Grain(e) / 2 else Grain(e) / 2 - 1)
             && u == Cleared(q, a, e) * Pow2(1022 + e)
    ensures exists k: nat :: HalfEven(k, u, Units(Magnitude(x)))
  {
    hide Pow2, Units;
    var g, q, p := Grain(e), FRAC + Magnitude(x) % FRAC, Pow2(1022 + e);
    GrainDivides(e);
    SignificandUnits(Magnitude(x), e);
    NearestGrain(q, g, a);
    var k := (q + a) / g;
    DivBound(q + a, g);
    ScaleRounding(k, q, g, p);
    ScaledBound(Abs(k * g - q), g, p);
    assert HalfEven(k, u, Units(Magnitude(x)));
  }

  // ----- the two functions

  /** A magnitude of 2^52 or more is an integer already. */
  lemma LargeIsInteger(m: nat)
    requires m / FRAC >= 1075
    ensures exists k: nat :: HalfAway(k, Units(m), Units(m)) && HalfEven(k, Units(m), Units(m))
  {
    hide Pow2, Units;
    UnitsOfFields(m);
    var e := m / FRAC;
    Pow2Add(e - 1075, 1074);
    MulAssoc(FRAC + m % FRAC, Pow2(e - 1075), Pow2(1074));
    MulMono(0, FRAC + m % FRAC, Pow2(e - 1075));
    var k := (FRAC + m % FRAC) * Pow2(e - 1075);
    assert HalfAway(k, Units(m), Units(m)) && HalfEven(k, Units(m), Units(m));
  }

  lemma ZeroOrOne(m: nat)
    requires m / FRAC < 1023
    ensures m / FRAC == 1022 ==> HalfAway(1, Units(UVONE), Units(m))
    ensures m / FRAC < 1022 ==> HalfAway(0, Units(0), Units(m))
    ensures m > 1022 * FRAC ==> HalfEven(1, Units(UVONE), Units(m))
    ensures m <= 1022 * FRAC ==> HalfEven(0, Units(0), Units(m))
  {
    hide Pow2, Units;
    BelowOne(m);
    UnitsOrder(m, 1022 * FRAC);
    Pow2Twice(1073);
    PackedUnits(FRAC, 1021);
    assert 1021 * FRAC + FRAC == 1022 * FRAC;
    Pow2Values();
    Pow2Add(52, 1021);
  }

  /** The nearest integer, ties away from zero. */
  method RoundAway(x: uint64) returns (r: uint64)
    ensures Negative(r) == Negative(x)
    ensures IsFinite(x) ==> IsFinite(r) && exists k: nat :: HalfAway(k, Units(Magnitude(r)), Units(Magnitude(x)))
    ensures !IsFinite(x) ==> r == x
  {
    hide Pow2, Units, And, AndNot, Or, ShiftRight, HalfAway, Grain, Cleared;
    var bits := x;
    FieldsOfWord(x);
    var e := And(ShiftRight(bits, 52), 0x7FF);
    if e < BIAS {
      bits := And(bits, SIGN);
      ZeroOrOne(Magnitude(x));
      if e == BIAS - 1 {
        OrSignOne(bits);
        bits := Or(bits, UVONE);
      }
    } else if e < BIAS + 52 {
      e := e - BIAS;
      ShiftedConstants(e);
      PackedRounding(x, e, Grain(e) / 2);
      RoundAwayValue(x, e, Cleared(FRAC + Magnitude(x) % FRAC, Grain(e) / 2, e) * Pow2(1022 + e));
      bits := (bits + ShiftRight(0x8_0000_0000_0000, e)) % W;
      ClearFraction(bits, e);
      bits := AndNot(bits, ShiftRight(FRAC_MASK, e));
    } else {
      LargeIsInteger(Magnitude(x));
    }
    r := bits;
  }

  /** The lowest integer bit, which for e == 0 is the exponent field's own low bit
      standing in for the implicit one. */
  lemma LowIntegerBit(x: uint64, e: nat)
    requires e <= 51 && Magnitude(x) / FRAC == 1023 + e
    ensures And(ShiftRight(x, SubWrap(52, e)), 1) == (FRAC + Magnitude(x) % FRAC) / Grain(e) % 2
  {
    hide Pow2, And;
    Pow2Values();
    assert SubWrap(52, e) == 52 - e;
    AndMask(x / Grain(e), 1);
    WordOfFields(x, e);
    var k := (if Negative(x) then 2048 else 0) + 1022 + e;
    EvenWholePart(k, e, FRAC + Magnitude(x) % FRAC);
  }

  lemma EvenWholePart(k: nat, e: nat, q: nat)
    requires e <= 51 && (e == 0 ==> k % 2 == 0)
    ensures (k * FRAC + q) / Grain(e) % 2 == q / Grain(e) % 2
  {
    hide Pow2;
    Pow2Values();
    var g, p := Grain(e), Pow2(e);
    Pow2Add(e, 52 - e);
    MulAssoc(k, p, g);
    DivBound(q, g);
    assert (k * p + q / g) * g == k * p * g + q / g * g;
    DivUnique(k * FRAC + q, g, k * p + q / g, q % g);
    EvenMultiple(k, e);
    ParityOfSum(k * p, q / g);
  }

  lemma EvenMultiple(k: nat, e: nat)
    requires e == 0 ==> k % 2 == 0
    ensures k * Pow2(e) >= 0 && (k * Pow2(e)) % 2 == 0
  {
    if e > 0 {
      var p := Pow2(e - 1);
      assert Pow2(e) == 2 * p;
      hide Pow2;
      MulAssoc(k, 2, p);
      MulMono(0, k, p);
      DivUnique(k * Pow2(e), 2, k * p, 0);
    }
  }

  lemma ParityOfSum(a: nat, b: nat)
    requires a % 2 == 0
    ensures (a + b) % 2 == b % 2
  {
  }

  lemma NothingToRound(bits: uint64, e: nat, b: uint64)
    requires e >= 52 && b <= 1
    ensures ShiftRight(0x7_FFFF_FFFF_FFFF + b, e) == 0
    ensures ShiftRight(FRAC_MASK, e) == 0
  {
    hide Pow2;
    Pow2Values();
    Pow2Mono(52, e);
    DivUnique(0x7_FFFF_FFFF_FFFF + b, Pow2(e), 0, 0x7_FFFF_FFFF_FFFF + b);
    DivUnique(FRAC_MASK, Pow2(e), 0, FRAC_MASK);
  }

  lemma ClearNothing(x: nat)
    ensures AndNot(x, 0) == x
  {
  }

  lemma LowBitRange(x: nat)
    ensures And(x, 1) <= 1
  {
  }

  ghost predicate RoundedToEven(r: uint64, x: uint64) {
    && Negative(r) == Negative(x)
    && (IsFinite(x) ==> IsFinite(r) && exists k: nat :: HalfEven(k, Units(Magnitude(r)), Units(Magnitude(x))))
    && (!IsFinite(x) ==> r == x)
  }

  lemma EvenFraction(x: uint64, e: nat, odd: uint64)
    requires e <= 51 && Magnitude(x) / FRAC == 1023 + e
    requires odd == And(ShiftRight(x, SubWrap(52, e)), 1)
    ensures odd <= 1 && x + ShiftRight(0x7_FFFF_FFFF_FFFF + odd, e) < W
    ensures var b := x + ShiftRight(0x7_FFFF_FFFF_FFFF + odd, e);
            AndNot(b, ShiftRight(FRAC_MASK, e)) < W && RoundedToEven(AndNot(b, ShiftRight(FRAC_MASK, e)), x)
  {
    hide Pow2, And, AndNot, ShiftRight, SubWrap, RoundedToEven, Grain;
    LowIntegerBit(x, e);
    ShiftedConstants(e);
    var a := Grain(e) / 2 - 1 + odd;
    EvenCleared(x, e, a);
    ClearFraction(x + a, e);
  }

  lemma EvenCleared(x: uint64, e: nat, a: nat)
    requires e <= 51 && Magnitude(x) / FRAC == 1023 + e && Grain(e) >= 2
    requires a == if (FRAC + Magnitude(x) % FRAC) / Grain(e) % 2 == 1 then Grain(e) / 2 else Grain(e) / 2 - 1
    ensures x + a < W && 0 <= x + a - (x + a) % Grain(e) < W && RoundedToEven(x + a - (x + a) % Grain(e), x)
  {
    hide Pow2, Units, HalfEven, Grain, Cleared;
    PackedRounding(x, e, a);
    RoundEvenValue(x, e, a, Cleared(FRAC + Magnitude(x) % FRAC, a, e) * Pow2(1022 + e));
  }

  lemma EvenWhole(x: uint64, e: nat, odd: uint64)
    requires e >= 52 && Magnitude(x) / FRAC == 1023 + e && odd <= 1
    ensures ShiftRight(0x7_FFFF_FFFF_FFFF + odd, e) == 0
    ensures AndNot(x, ShiftRight(FRAC_MASK, e)) == x && RoundedToEven(x, x)
  {
    hide Pow2, Units, AndNot, ShiftRight, HalfEven, HalfAway;
    NothingToRound(x, e, odd);
    ClearNothing(x);
    LargeIsInteger(Magnitude(x));
  }

  /** The nearest integer, ties to even. */
  method RoundToEven(x: uint64) returns (r: uint64)
    ensures RoundedToEven(r, x)
  {
    hide Pow2, And, AndNot, Or, ShiftRight, RoundedToEven, SubWrap;
    var bits := x;
    FieldsOfWord(x);
    var e := And(ShiftRight(bits, 52), 0x7FF);
    if e >= BIAS {
      e := e - BIAS;
      var odd := And(ShiftRight(bits, SubWrap(52, e)), 1);
      LowBitRange(ShiftRight(bits, SubWrap(52, e)));
      if e <= 51 { EvenFraction(x, e, odd); } else { EvenWhole(x, e, odd); }
      bits := (bits + ShiftRight(0x7_FFFF_FFFF_FFFF + odd, e)) % W;
      bits := AndNot(bits, ShiftRight(FRAC_MASK, e));
    } else {
      EvenBelowOne(x);
      if e == BIAS - 1 && And(bits, FRAC_MASK) != 0 {
        bits := And(bits, SIGN);
        bits := Or(bits, UVONE);
      } else {
        bits := And(bits, SIGN);
      }
    }
    r := bits;
  }

  lemma EvenBelowOne(x: uint64)
    requires Magnitude(x) / FRAC < 1023
    ensures var s := if Negative(x) then SIGN else 0;
            && Or(s, UVONE) == s + UVONE
            && RoundedToEven(if Magnitude(x) > 1022 * FRAC then s + UVONE else s, x)
  {
    hide Or, Units, HalfEven, HalfAway;
    ZeroOrOne(Magnitude(x));
    OrSignOne(if Negative(x) then SIGN else 0);
  }
}
