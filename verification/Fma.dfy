/** The software fused multiply-add of src/math/fma.go: 128-bit arithmetic with
    sticky shifts and one rounding. */
module Fma {
  import opened Words
  import opened Float64
  import Ieee

  // ----- rounding to odd

  /** m is N/D, or the odd one of the two integers around N/D. */
  ghost predicate RoundedToOdd(m: nat, N: int, D: int) {
    m * D == N || (m % 2 == 1 && (m - 1) * D < N < (m + 1) * D)
  }

  /** x shifted right by n with the lost bits kept as a sticky low bit. */
  function Sticky(x: nat, n: nat): nat {
    DivBound(x, Pow2(n));
    var q := x / Pow2(n);
    if x % Pow2(n) != 0 && q % 2 == 0 then q + 1 else q
  }

  lemma StickyBounds(x: nat, n: nat, b: nat)
    requires x < b * Pow2(n) && b % 2 == 0
    ensures Sticky(x, n) < b
  {
    DivLt(x, Pow2(n), b);
  }

  lemma StickyAtLeast(x: nat, n: nat, b: nat)
    requires b * Pow2(n) <= x
    ensures b <= Sticky(x, n)
  {
    hide Pow2;
    QuotientAtLeast(x, Pow2(n), b);
  }

  lemma QuotientAtLeast(x: nat, p: nat, b: nat)
    requires p > 0 && b * p <= x
    ensures b <= x / p
  {
    DivBound(x, p);
    MulSign(b - x / p, p);
    Distribute(b, x / p, p);
  }

  /** A sticky shift of a value rounded to odd is still rounded to odd. */
  lemma StickyRoundsToOdd(x: nat, n: nat, N: int, D: int)
    requires RoundedToOdd(x, N, D) && D > 0
    ensures RoundedToOdd(Sticky(x, n), N, Pow2(n) * D)
  {
    if x % Pow2(n) == 0 {
      ExactMultiple(x, n, N, D);
    } else {
      InexactSticky(x, n, N, D);
    }
  }

  lemma InexactSticky(x: nat, n: nat, N: int, D: int)
    requires RoundedToOdd(x, N, D) && D > 0 && x % Pow2(n) != 0
    ensures RoundedToOdd(Sticky(x, n), N, Pow2(n) * D)
  {
    var q, E := x / Pow2(n), Pow2(n) * D;
    DivBound(x, Pow2(n));
    InexactQuotient(x, n, N, D);
    assert E > 0 by { MulMono(1, Pow2(n), D); }
    OddOfInterval(q, N, E);
  }

  lemma InexactQuotient(x: nat, n: nat, N: int, D: int)
    requires RoundedToOdd(x, N, D) && D > 0 && x % Pow2(n) != 0
    ensures x / Pow2(n) * (Pow2(n) * D) < N < (x / Pow2(n) + 1) * (Pow2(n) * D)
  {
    var p := Pow2(n);
    DivBound(x, p);
    var q := x / p;
    EvenPower(n);
    EvenProducts(q, p);
    assert (q + 1) * p == q * p + p;
    StrictlyBetween(x, q * p, (q + 1) * p, N, D);
    MulAssoc(q, p, D);
    MulAssoc(q + 1, p, D);
  }

  lemma OddOfInterval(q: nat, N: int, E: int)
    requires E > 0 && q * E < N < (q + 1) * E
    ensures RoundedToOdd(if q % 2 == 0 then q + 1 else q, N, E)
  {
    assert (q + 2) * E == (q + 1) * E + E;
    assert (q - 1) * E == q * E - E;
  }

  lemma EvenPower(n: nat)
    ensures n > 0 ==> Pow2(n) % 2 == 0
    ensures n == 0 ==> Pow2(n) == 1
  {
    if n > 0 {
      var p := Pow2(n - 1);
      assert Pow2(n) == 2 * p;
      hide Pow2;
      DivUnique(Pow2(n), 2, p, 0);
    }
  }

  lemma EvenProducts(q: nat, p: nat)
    requires p % 2 == 0
    ensures (q * p) % 2 == 0 && ((q + 1) * p) % 2 == 0
  {
    var h := p / 2;
    assert p == 2 * h;
    MulAssoc(q, 2, h);
    MulAssoc(q + 1, 2, h);
    DivUnique(q * p, 2, q * h, 0);
    DivUnique((q + 1) * p, 2, (q + 1) * h, 0);
  }

  /** Shifting out zero bits of an inexact odd value is impossible unless the
      shift count is 0. */
  lemma ExactMultiple(x: nat, n: nat, N: int, D: int)
    requires RoundedToOdd(x, N, D) && D > 0 && x % Pow2(n) == 0
    ensures RoundedToOdd(Sticky(x, n), N, Pow2(n) * D)
  {
    var p := Pow2(n);
    DivBound(x, p);
    var q := x / p;
    MulAssoc(q, p, D);
    EvenPower(n);
    if n > 0 { EvenProducts(q, p); }
  }

  lemma StrictlyBetween(x: nat, a: nat, b: nat, N: int, D: int)
    requires RoundedToOdd(x, N, D) && D > 0 && a < x < b
    requires x * D == N || (a % 2 == 0 && b % 2 == 0)
    ensures a * D < N < b * D
  {
    if x * D == N {
      MulStrict(a, x, D);
      MulStrict(x, b, D);
    } else {
      MulMono(a, x - 1, D);
      MulMono(x + 1, b, D);
    }
  }

  /** Adding or subtracting below an even exact value keeps rounding to odd. */
  lemma CombineRoundedToOdd(p: nat, Np: int, z: nat, Nz: int, D: int)
    requires D > 0 && p * D == Np && p % 2 == 0 && RoundedToOdd(z, Nz, D)
    ensures RoundedToOdd(p + z, Np + Nz, D)
    ensures z < p ==> Nz < Np && RoundedToOdd(p - z, Np - Nz, D)
  {
    assert (p + z) * D == p * D + z * D;
    assert (p + z - 1) * D == p * D + (z - 1) * D;
    assert (p + z + 1) * D == p * D + (z + 1) * D;
    if z < p {
      MulMono(z + 1, p, D);
      MulStrict(z, p, D);
      assert (p - z) * D == p * D - z * D;
      assert (p - z - 1) * D == p * D - (z + 1) * D;
      assert (p - z + 1) * D == p * D - (z - 1) * D;
    }
  }

  /** A value rounded to odd compares with an even integer as the exact value does. */
  lemma CompareWithEven(m: nat, N: int, D: int, h: int)
    requires RoundedToOdd(m, N, D) && D > 0 && h % 2 == 0
    ensures m < h ==> N < h * D
    ensures m == h ==> N == h * D
    ensures m > h ==> N > h * D
  {
    if m < h {
      MulStrict(m, h, D);
      MulMono(m + 1, h, D);
    } else if m > h {
      MulStrict(h, m, D);
      MulMono(h, m - 1, D);
    }
  }

  // ----- two-word helpers

  function Zero(x: nat): uint64 { if x == 0 then 1 else 0 }

  function Nonzero(x: nat): uint64 { if x != 0 then 1 else 0 }

  /** Left shift of a two-word value; counts below 64 select the first two terms
      and counts from 64 on the third. */
  function Shl(u1: uint64, u2: uint64, n: uint64): (uint64, uint64) {
    OrWord(ShiftLeft(u1, n), ShiftRight(u2, SubWrap(64, n)));
    OrWord(Or(ShiftLeft(u1, n), ShiftRight(u2, SubWrap(64, n))), ShiftLeft(u2, SubWrap(n, 64)));
    (Or(Or(ShiftLeft(u1, n), ShiftRight(u2, SubWrap(64, n))), ShiftLeft(u2, SubWrap(n, 64))), ShiftLeft(u2, n))
  }

  function Shr(u1: uint64, u2: uint64, n: uint64): (uint64, uint64) {
    OrWord(ShiftRight(u2, n), ShiftLeft(u1, SubWrap(64, n)));
    OrWord(Or(ShiftRight(u2, n), ShiftLeft(u1, SubWrap(64, n))), ShiftRight(u1, SubWrap(n, 64)));
    (ShiftRight(u1, n), Or(Or(ShiftRight(u2, n), ShiftLeft(u1, SubWrap(64, n))), ShiftRight(u1, SubWrap(n, 64))))
  }

  lemma OrWord(a: uint64, b: uint64)
    ensures Or(a, b) < W
  {
    Pow2Word();
    OrBelow(a, b, 64);
  }

  lemma {:induction false} OrBelow(a: nat, b: nat, k: nat)
    requires a < Pow2(k) && b < Pow2(k)
    ensures Or(a, b) < Pow2(k)
    decreases k
  {
    if a > 0 && b > 0 { OrBelow(a / 2, b / 2, k - 1); }
  }

  /** Splitting a word at a bit: the high part moves up a word, the low part stays. */
  lemma SplitWord(x: uint64, n: nat)
    requires n <= 64
    ensures x * Pow2(n) == x / Pow2(64 - n) * W + (x % Pow2(64 - n)) * Pow2(n)
    ensures 0 <= (x % Pow2(64 - n)) * Pow2(n) < W
    ensures 0 <= x / Pow2(64 - n) < Pow2(n)
  {
    hide Pow2;
    Pow2Add(n, 64 - n);
    Pow2Word();
    SplitProduct(x, Pow2(n), Pow2(64 - n), W);
  }

  lemma SplitProduct(x: nat, p: nat, q: nat, w: nat)
    requires p > 0 && q > 0 && p * q == w && x < w
    ensures x * p == x / q * w + (x % q) * p
    ensures 0 <= (x % q) * p < w
    ensures 0 <= x / q < p
  {
    DivBound(x, q);
    var h, l := x / q, x % q;
    Distribute(h * q, l, p);
    MulAssoc(h, q, p);
    MulStrict(l, q, p);
    MulMono(0, l, p);
    DivLt(x, q, p);
  }

  lemma ShlCorrect(u1: uint64, u2: uint64, n: nat)
    requires n <= 127 && Double(u1, u2) * Pow2(n) < W * W
    ensures Double(Shl(u1, u2, n).0, Shl(u1, u2, n).1) == Double(u1, u2) * Pow2(n)
  {
    if n < 64 {
      ShlBelow64(u1, u2, n);
    } else {
      ShlFrom64(u1, u2, n);
    }
  }

  lemma ShlBelow64(u1: uint64, u2: uint64, n: nat)
    requires n < 64 && Double(u1, u2) * Pow2(n) < W * W
    ensures Double(Shl(u1, u2, n).0, Shl(u1, u2, n).1) == Double(u1, u2) * Pow2(n)
  {
    hide Shl, Pow2;
    SplitWord(u2, n);
    Spread(u1, u2, Pow2(n), W);
    WordFits(u1 * Pow2(n), W);
    ShlBelow64Words(u1, u2, n);
    Gather(u1 * Pow2(n), u2 / Pow2(64 - n), W);
  }

  lemma Spread(a: nat, b: nat, p: nat, w: nat)
    ensures (a * w + b) * p == a * p * w + b * p
    ensures a * p * w >= 0 && b * p >= 0
  {
    MulAssoc(a, w, p);
    MulMono(0, a * p, w) by { MulMono(0, a, p); }
    MulMono(0, b, p);
  }

  lemma Gather(a: nat, b: nat, w: nat)
    ensures (a + b) * w == a * w + b * w
  {
  }

  lemma ShlBelow64Words(u1: uint64, u2: uint64, n: nat)
    requires n < 64 && u1 * Pow2(n) < W
    ensures Shl(u1, u2, n).0 == u1 * Pow2(n) + u2 / Pow2(64 - n)
    ensures Shl(u1, u2, n).1 == (u2 % Pow2(64 - n)) * Pow2(n)
  {
    hide Pow2, Or, ShiftLeft, ShiftRight, Shl, SubWrap;
    ShlTerms(u1, u2, n);
    ShiftLeftFits(u1, n);
    ShiftLeftWraps(u2, n);
    CarriedBits(u2, n);
    OrDisjoint(u1 * Pow2(n), u2 / Pow2(64 - n), n);
    ShiftedOut(u2, SubWrap(n, 64));
    OrZero(u1 * Pow2(n) + u2 / Pow2(64 - n));
  }

  lemma ShlTerms(u1: uint64, u2: uint64, n: nat)
    requires n < 64
    ensures SubWrap(64, n) == 64 - n && SubWrap(n, 64) >= 64
    ensures Shl(u1, u2, n).0 == Or(Or(ShiftLeft(u1, n), ShiftRight(u2, 64 - n)), ShiftLeft(u2, SubWrap(n, 64)))
    ensures Shl(u1, u2, n).1 == ShiftLeft(u2, n)
  {
    hide Or, ShiftLeft, ShiftRight;
  }

  lemma ShiftedOut(x: uint64, n: nat)
    requires n >= 64
    ensures ShiftLeft(x, n) == 0 && ShiftRight(x, n) == 0
  {
  }

  lemma ShiftLeftFits(x: uint64, n: nat)
    requires n < 64 && x * Pow2(n) < W
    ensures ShiftLeft(x, n) == x * Pow2(n) && 0 <= x * Pow2(n) && x * Pow2(n) % Pow2(n) == 0
  {
    hide Pow2;
    MulMono(0, x, Pow2(n));
    DivUnique(x * Pow2(n), Pow2(n), x, 0);
  }

  lemma ShiftLeftWraps(x: uint64, n: nat)
    requires n < 64
    ensures ShiftLeft(x, n) == (x % Pow2(64 - n)) * Pow2(n)
  {
    hide Pow2;
    SplitWord(x, n);
    DivUnique(x * Pow2(n), W, x / Pow2(64 - n), (x % Pow2(64 - n)) * Pow2(n));
  }

  /** The bits a left shift carries into the next word. */
  lemma CarriedBits(x: uint64, n: nat)
    requires n < 64
    ensures ShiftRight(x, 64 - n) == x / Pow2(64 - n) && 0 <= x / Pow2(64 - n) < Pow2(n)
  {
    hide Pow2;
    SplitWord(x, n);
    EvenPower(n);
  }

  lemma WordFits(x: nat, w: nat)
    requires w > 0
    ensures x * w < w * w ==> x < w
  {
    if x >= w { MulMono(w, x, w); }
  }

  lemma ShlFrom64(u1: uint64, u2: uint64, n: nat)
    requires 64 <= n <= 127 && Double(u1, u2) * Pow2(n) < W * W
    ensures Double(Shl(u1, u2, n).0, Shl(u1, u2, n).1) == Double(u1, u2) * Pow2(n)
  {
    hide Shl, Pow2;
    var p, v := Pow2(n - 64), Double(u1, u2);
    Pow2Add(n - 64, 64);
    Pow2Word();
    MulAssoc(v, p, W);
    MulMono(0, v, p);
    WordFits(v * p, W);
    MulGrows(v, p);
    assert u1 == 0;
    ShlFrom64Words(u2, n);
  }

  lemma ShlFrom64Words(u2: uint64, n: nat)
    requires 64 <= n <= 127 && 0 <= u2 * Pow2(n - 64) < W
    ensures Shl(0, u2, n) == (u2 * Pow2(n - 64), 0)
  {
    assert SubWrap(n, 64) == n - 64;
    assert ShiftLeft(u2, n - 64) == u2 * Pow2(n - 64);
    if n > 64 {
      assert SubWrap(64, n) >= 64;
    } else {
      OrSelf(u2);
    }
  }

  lemma ShrCorrect(u1: uint64, u2: uint64, n: nat)
    requires 0 < n < 128 && n != 64
    ensures Double(Shr(u1, u2, n).0, Shr(u1, u2, n).1) == Double(u1, u2) / Pow2(n)
    ensures n < 64 ==> Double(u1, u2) % Pow2(n) == u2 % Pow2(n)
    ensures n > 64 ==> Double(u1, u2) % Pow2(n) == (u1 % Pow2(n - 64)) * W + u2
  {
    if n < 64 {
      ShrBelow64(u1, u2, n);
    } else {
      ShrFrom64(u1, u2, n);
    }
  }

  lemma ShrBelow64(u1: uint64, u2: uint64, n: nat)
    requires 0 < n < 64
    ensures Double(Shr(u1, u2, n).0, Shr(u1, u2, n).1) == Double(u1, u2) / Pow2(n)
    ensures Double(u1, u2) % Pow2(n) == u2 % Pow2(n)
  {
    hide Shr, Pow2;
    var p, q := Pow2(n), Pow2(64 - n);
    ShrBelow64Words(u1, u2, n);
    Pow2Add(n, 64 - n);
    Pow2Word();
    ShiftedDouble(u1, u2, p, q);
  }

  /** Two words divided by p, the high one giving its low bits to the low one. */
  lemma ShiftedDouble(u1: nat, u2: nat, p: nat, q: nat)
    requires p > 0 && p * q == W
    ensures Double(u1 / p, (u1 % p) * q + u2 / p) == Double(u1, u2) / p
    ensures Double(u1, u2) % p == u2 % p
  {
    DivBound(u1, p);
    DivBound(u2, p);
    Regroup(u1 / p, u1 % p, p, q, u2 / p);
    Regroup(u1, 0, q, p, 0);
    MulAssoc(u1, q, p);
    Gather(u1 * q, u2 / p, p);
    DivUnique(Double(u1, u2), p, u1 * q + u2 / p, u2 % p);
  }

  lemma Regroup(a: nat, b: nat, p: nat, q: nat, c: nat)
    ensures a * (p * q) + (b * q + c) == (a * p + b) * q + c
    ensures p * q == q * p
  {
  }

  lemma ShrBelow64Words(u1: uint64, u2: uint64, n: nat)
    requires 0 < n < 64
    ensures Shr(u1, u2, n).0 == u1 / Pow2(n)
    ensures Shr(u1, u2, n).1 == (u1 % Pow2(n)) * Pow2(64 - n) + u2 / Pow2(n)
  {
    hide Pow2, Or;
    LowBitsUp(u1, n);
    LowWordBound(u2, n);
    OrDisjoint(ShiftLeft(u1, 64 - n), u2 / Pow2(n), 64 - n);
    OrZero(ShiftLeft(u1, 64 - n) + u2 / Pow2(n));
    assert SubWrap(64, n) == 64 - n && SubWrap(n, 64) >= 64;
  }

  lemma LowBitsUp(x: uint64, n: nat)
    requires 0 < n < 64
    ensures ShiftLeft(x, 64 - n) == (x % Pow2(n)) * Pow2(64 - n)
    ensures ShiftLeft(x, 64 - n) % Pow2(64 - n) == 0
  {
    hide Pow2, ShiftLeft;
    ShiftLeftWraps(x, 64 - n);
    DivUnique((x % Pow2(n)) * Pow2(64 - n), Pow2(64 - n), x % Pow2(n), 0);
  }

  lemma LowWordBound(x: uint64, n: nat)
    requires n <= 64
    ensures 0 <= x / Pow2(n) < Pow2(64 - n)
  {
    SplitWord(x, 64 - n);
  }

  lemma ShrFrom64(u1: uint64, u2: uint64, n: nat)
    requires 64 < n < 128
    ensures Double(Shr(u1, u2, n).0, Shr(u1, u2, n).1) == Double(u1, u2) / Pow2(n)
    ensures Double(u1, u2) % Pow2(n) == (u1 % Pow2(n - 64)) * W + u2
  {
    var p := Pow2(n - 64);
    assert SubWrap(n, 64) == n - 64;
    assert ShiftLeft(u1, SubWrap(64, n)) == 0;
    Pow2Add(n - 64, 64);
    Pow2Word();
    DivBound(u1, p);
    var h, l := u1 / p, u1 % p;
    MulAssoc(h, p, W);
    assert (h * p + l) * W == h * p * W + l * W;
    assert (l + 1) * W == l * W + W;
    MulMono(l + 1, p, W);
    DivUnique(Double(u1, u2), p * W, h, l * W + u2);
  }

  lemma ZeroLength()
    ensures Len64(0) == 0
  {
  }

  function LeadingZeros128(u1: uint64, u2: uint64): (l: nat)
    ensures l <= 128
  {
    var l := LeadingZeros64(u1);
    if l == 64 then l + LeadingZeros64(u2) else l
  }

  /** The leading zeros of a nonzero two-word value are what normalises it. */
  lemma LeadingZeros128Normalises(u1: uint64, u2: uint64)
    requires Double(u1, u2) > 0
    ensures var n := LeadingZeros128(u1, u2);
            n <= 127 && Pow2(127 - n) <= Double(u1, u2) < Pow2(128 - n)
  {
    hide Pow2, Len64;
    Pow2Word();
    ZeroLength();
    if u1 > 0 {
      Len64Bounds(u1);
      var k := Len64(u1);
      assert LeadingZeros64(u1) == 64 - k;
      Pow2Add(k, 64);
      Pow2Add(k - 1, 64);
      MulMono(Pow2(k - 1), u1, W);
      MulMono(u1 + 1, Pow2(k), W);
    } else {
      Len64Bounds(u2);
    }
  }

  /** 2^n - 1 as a word, for the masks the code builds by shifting. */
  lemma MaskWord(n: nat, x: uint64)
    ensures n < 64 ==> And(x, SubWrap(ShiftLeft(1, n), 1)) == x % Pow2(n)
    ensures n >= 64 ==> And(x, SubWrap(ShiftLeft(1, n), 1)) == x
  {
    hide And, Pow2;
    Pow2Word();
    if n < 64 {
      Pow2Order(n, 64);
      assert SubWrap(ShiftLeft(1, n), 1) == Pow2(n) - 1;
      AndMask(x, n);
    } else {
      AndMask(x, 64);
    }
  }

  /** Merging the lost bits into the low word makes the shifted value sticky. */
  lemma StickyWords(v: nat, n: nat, r1: uint64, r2: uint64, lost: uint64)
    requires Double(r1, r2) == v / Pow2(n)
    requires lost == if v % Pow2(n) != 0 then 1 else 0
    ensures 0 <= Or(r2, lost) < W && Double(r1, Or(r2, lost)) == Sticky(v, n)
  {
    hide Or, Pow2, Double;
    OrBit(r2, lost);
    DoubleLowBit(r1, r2);
  }

  lemma DoubleLowBit(r1: nat, r2: nat)
    ensures Double(r1, r2) % 2 == r2 % 2 && Double(r1, r2 + 1) == Double(r1, r2) + 1
  {
  }

  method ShrCompress(u1: uint64, u2: uint64, n: uint64) returns (r1: uint64, r2: uint64)
    ensures Double(r1, r2) == Sticky(Double(u1, u2), n)
  {
    hide Or, And, Pow2, Shr, ShiftLeft, Double, Sticky;
    if n == 0 {
      StickyByZero(Double(u1, u2));
      r1, r2 := u1, u2;
    } else if n == 64 {
      StickyByWord(u1, u2);
      r1, r2 := 0, Or(u1, Nonzero(u2));
    } else if n >= 128 {
      OrWord(u1, u2);
      OrNonzero(u1, u2);
      StickyOfSmall(u1, u2, n);
      r1, r2 := 0, Nonzero(Or(u1, u2));
    } else if n < 64 {
      r1, r2 := Shr(u1, u2, n).0, Shr(u1, u2, n).1;
      var lost := Nonzero(And(u2, SubWrap(ShiftLeft(1, n), 1)));
      LostBelow64(u1, u2, n);
      StickyWords(Double(u1, u2), n, r1, r2, lost);
      r2 := Or(r2, lost);
    } else {
      r1, r2 := Shr(u1, u2, n).0, Shr(u1, u2, n).1;
      LostFrom64(u1, u2, n);
      var high := And(u1, SubWrap(ShiftLeft(1, SubWrap(n, 64)), 1));
      OrWord(high, u2);
      var lost := Nonzero(Or(high, u2));
      StickyWords(Double(u1, u2), n, r1, r2, lost);
      r2 := Or(r2, lost);
    }
  }

  lemma StickyByZero(v: nat)
    ensures Sticky(v, 0) == v
  {
    EvenPower(0);
  }

  lemma StickyByWord(u1: uint64, u2: uint64)
    ensures 0 <= Or(u1, Nonzero(u2)) < W
    ensures Double(0, Or(u1, Nonzero(u2))) == Sticky(Double(u1, u2), 64)
  {
    hide Or, Pow2;
    Pow2Word();
    DivUnique(Double(u1, u2), W, u1, u2);
    StickyWords(Double(u1, u2), 64, 0, u1, Nonzero(u2));
  }

  lemma LostBelow64(u1: uint64, u2: uint64, n: nat)
    requires 0 < n < 64
    ensures Double(Shr(u1, u2, n).0, Shr(u1, u2, n).1) == Double(u1, u2) / Pow2(n)
    ensures Nonzero(And(u2, SubWrap(ShiftLeft(1, n), 1))) == if Double(u1, u2) % Pow2(n) != 0 then 1 else 0
  {
    hide And, Pow2, Shr, ShiftLeft, Double, SubWrap;
    ShrCorrect(u1, u2, n);
    MaskWord(n, u2);
  }

  lemma LostFrom64(u1: uint64, u2: uint64, n: nat)
    requires 64 < n < 128
    ensures Double(Shr(u1, u2, n).0, Shr(u1, u2, n).1) == Double(u1, u2) / Pow2(n)
    ensures var high := And(u1, SubWrap(ShiftLeft(1, SubWrap(n, 64)), 1));
            && 0 <= high < W
            && Nonzero(Or(high, u2)) == if Double(u1, u2) % Pow2(n) != 0 then 1 else 0
  {
    hide And, Or, Pow2, Shr, ShiftLeft, Double;
    ShrCorrect(u1, u2, n);
    MaskWord(n - 64, u1);
    DivBound(u1, Pow2(n - 64));
    OrWord(u1 % Pow2(n - 64), u2);
    OrNonzero(u1 % Pow2(n - 64), u2);
    assert SubWrap(n, 64) == n - 64;
  }

  lemma OrNonzero(a: nat, b: nat)
    ensures Or(a, b) == 0 <==> a == 0 && b == 0
  {
  }

  lemma StickyOfSmall(u1: uint64, u2: uint64, n: nat)
    requires n >= 128
    ensures Sticky(Double(u1, u2), n) == Double(0, if u1 != 0 || u2 != 0 then 1 else 0)
  {
    hide Pow2;
    var v := Double(u1, u2);
    Pow2Wide();
    Pow2Mono(128, n);
    DivUnique(v, Pow2(n), 0, v);
  }

  /** Splits an encoding into sign, biased exponent and a significand whose
      leading bit is bit 52, subnormals included. */
  method Split(b: uint64) returns (sign: uint64, exp: int32, mantissa: uint64)
    requires 0 < Magnitude(b) < UVINF
    ensures sign == if Negative(b) then 1 else 0
    ensures FRAC <= mantissa < 2 * FRAC && -51 <= exp <= 2046
    ensures Units(Magnitude(b)) * Pow2(64) == mantissa * Pow2(exp + 63)
  {
    hide Or, And, Pow2, Units, Len64;
    FieldsOfWord(b);
    sign := ShiftRight(b, 63);
    exp := And(ShiftRight(b, 52), 0x7FF);
    mantissa := And(b, FRAC - 1);
    UnitsOfFields(Magnitude(b));
    if exp == 0 {
      NormalisingShift(mantissa);
      var shift: nat := LeadingZeros64(mantissa) - 11;
      ghost var f := mantissa;
      mantissa := ShiftLeft(mantissa, shift);
      exp := 1 - shift;
      Pow2Add(shift, 64 - shift);
      MulAssoc(f, Pow2(shift), Pow2(64 - shift));
    } else {
      ImplicitBit(mantissa);
      Pow2Add(exp - 1, 64);
      MulAssoc(FRAC + mantissa, Pow2(exp - 1), Pow2(64));
      mantissa := Or(mantissa, FRAC);
    }
  }

  lemma ImplicitBit(f: nat)
    requires f < FRAC
    ensures Or(f, FRAC) == FRAC + f
  {
    hide Or;
    Pow2Values();
    OrDisjoint(FRAC, f, 52);
  }

  lemma NormalisingShift(f: nat)
    requires 0 < f < FRAC
    ensures var shift := LeadingZeros64(f) - 11;
            1 <= shift <= 52 && FRAC <= f * Pow2(shift) < 2 * FRAC && ShiftLeft(f, shift) == f * Pow2(shift)
  {
    hide Pow2, Len64;
    Pow2Values();
    Len64Bounds(f);
    Len64AtMost(f, 52);
    var k := Len64(f);
    Pow2Add(k, 53 - k);
    Pow2Add(k - 1, 53 - k);
    MulMono(Pow2(k - 1), f, Pow2(53 - k));
    MulStrict(f, Pow2(k), Pow2(53 - k));
  }

  // ----- the operands as exact integers

  /** A nonzero exact value v, in units of 2^-2148, held as a sign, an exponent
      and a 127-bit significand whose low 21 bits are clear. */
  ghost predicate Operand(s: uint64, e: int, m: nat, v: int) {
    && v != 0 && s == (if v < 0 then 1 else 0)
    && -1200 <= e <= 3100
    && Pow2(126) <= m < Pow2(127) && m % 0x20_0000 == 0
    && Abs(v) * Pow2(1200) == m * Pow2(e + 2199)
  }

  /** The exact x*y + z in units of 2^-2148. */
  ghost function ExactSum(x: uint64, y: uint64, z: uint64): int {
    SignedUnits(x) * SignedUnits(y) + SignedUnits(z) * Pow2(1074)
  }

  /** r is the exact value v rounded once, +0 for an exact zero. */
  ghost predicate RoundedOnce(v: int, r: uint64) {
    if v == 0 then r == 0
    else Negative(r) == (v < 0) && IsNearestEven(Magnitude(r), Abs(v), Pow2(1074))
  }

  lemma UnitsPositive(b: uint64)
    requires Magnitude(b) > 0
    ensures Units(Magnitude(b)) > 0
  {
    UnitsOrder(0, Magnitude(b));
  }

  lemma AddendOperand(z: uint64, s: uint64, e: int, m: uint64)
    requires 0 < Magnitude(z) < UVINF && s == if Negative(z) then 1 else 0
    requires FRAC <= m < 2 * FRAC && -51 <= e <= 2046
    requires Units(Magnitude(z)) * Pow2(64) == m * Pow2(e + 63)
    ensures ShiftLeft(m, 10) == m * 1024
    ensures Operand(s, e, Double(m * 1024, 0), SignedUnits(z) * Pow2(1074))
  {
    hide Pow2, Units, ShiftLeft, Double;
    AddendWord(m);
    UnitsPositive(z);
    ProductSign(SignedUnits(z), Pow2(1074));
    AddendScale(Units(Magnitude(z)), m, e);
    assert Abs(SignedUnits(z) * Pow2(1074)) == Units(Magnitude(z)) * Pow2(1074);
  }

  lemma AddendWord(m: uint64)
    requires FRAC <= m < 2 * FRAC
    ensures ShiftLeft(m, 10) == m * 1024
    ensures Pow2(126) <= Double(m * 1024, 0) < Pow2(127) && Double(m * 1024, 0) % 0x20_0000 == 0
  {
    hide Pow2, ShiftLeft, Double;
    SignificandShifts(m);
    HighWordOnly(m * 1024);
  }

  lemma HighWordOnly(h: uint64)
    requires 0x4000_0000_0000_0000 <= h < 0x8000_0000_0000_0000
    ensures Pow2(126) <= Double(h, 0) < Pow2(127) && Double(h, 0) % 0x20_0000 == 0
  {
    hide Pow2;
    PowersNear127();
    ProductRange(h, 0);
    DivUnique(h * W, 0x20_0000, h * 0x800_0000_0000, 0);
  }

  lemma SignificandShifts(m: uint64)
    requires m < 2 * FRAC
    ensures ShiftLeft(m, 10) == m * 1024 && ShiftLeft(m, 11) == m * 2048
  {
    hide Pow2;
    Pow2Values();
  }

  lemma AddendScale(u: nat, m: nat, e: int)
    requires e >= -51 && u * Pow2(64) == m * Pow2(e + 63)
    ensures (u * Pow2(1074)) * Pow2(1200) == Double(m * 1024, 0) * Pow2(e + 2199)
  {
    hide Pow2;
    ScaleFactors(u, m, 64, e + 63, 2210);
    Pow2Add(1074, 1200);
    MulAssoc(u, Pow2(1074), Pow2(1200));
    Pow2Add(74, e + 2199);
    Pow2Add(10, 64);
    Pow2Values();
    MulAssoc(m, Pow2(74), Pow2(e + 2199));
  }

  lemma ProductSign(a: int, b: int)
    requires a != 0 && b != 0
    ensures a * b != 0 && (a * b < 0 <==> (a < 0) != (b < 0))
    ensures Abs(a * b) == Abs(a) * Abs(b)
  {
    MulSign(a, if b > 0 then b else -b);
  }

  lemma ProductScale(ux: nat, uy: nat, mx: nat, my: nat, ex: int, ey: int, i: nat)
    requires ex >= -51 && ey >= -51 && i <= 1
    requires ux * Pow2(64) == mx * Pow2(ex + 63) && uy * Pow2(64) == my * Pow2(ey + 63)
    ensures (ux * uy) * Pow2(1200) == (mx * my * 0x20_0000 * Pow2(i)) * Pow2(ex + ey - 1022 - i + 2199)
  {
    hide Pow2;
    Pow2Values();
    var a, b := Pow2(ex + 63), Pow2(ey + 63);
    assert (ux * uy) * Pow2(128) == (mx * my) * Pow2(ex + ey + 126) by {
      Pow2Add(64, 64);
      Pow2Add(ex + 63, ey + 63);
      Interchange(ux, Pow2(64), uy, Pow2(64));
      Interchange(mx, a, my, b);
    }
    ScaleFactors(ux * uy, mx * my, 128, ex + ey + 126, 1072);
    var k := ex + ey - 1022 - i + 2199;
    Pow2Add(21, i);
    Pow2Add(21 + i, k);
    MulAssoc(mx * my, Pow2(21), Pow2(i));
    MulAssoc(mx * my, Pow2(21 + i), Pow2(k));
  }

  lemma Interchange(a: int, b: int, c: int, d: int)
    ensures (a * b) * (c * d) == (a * c) * (b * d)
  {
    MulAssoc(a * b, c, d);
    MulAssoc(a, b, c);
    MulAssoc(a * c, b, d);
  }

  // ----- aligning and adding

  /** The aligned smaller operand t, rounded to odd at the larger one's scale. */
  lemma AlignedOperand(zs: uint64, ze: int, z: nat, vz: int, pe: int)
    requires Operand(zs, ze, z, vz) && pe >= ze
    ensures RoundedToOdd(Sticky(z, pe - ze), Abs(vz) * Pow2(1200), Pow2(pe + 2199))
    ensures pe < ze + 2 ==> Sticky(z, pe - ze) * Pow2(pe + 2199) == Abs(vz) * Pow2(1200)
  {
    hide Pow2, Sticky;
    var d := pe - ze;
    Pow2Add(d, ze + 2199);
    StickyRoundsToOdd(z, d, Abs(vz) * Pow2(1200), Pow2(ze + 2199));
    if d < 2 {
      AlignedBounds(z, d);
      MulAssoc(Sticky(z, d), Pow2(d), Pow2(ze + 2199));
    }
  }

  /** Both ways of combining the larger operand with the aligned smaller one. */
  lemma Align(ps: uint64, pe: int, p: nat, vp: int, zs: uint64, ze: int, z: nat, vz: int)
    requires Operand(ps, pe, p, vp) && Operand(zs, ze, z, vz) && pe >= ze
    ensures var t, D, A := Sticky(z, pe - ze), Pow2(pe + 2199), Pow2(1200);
            && RoundedToOdd(p + t, (Abs(vp) + Abs(vz)) * A, D)
            && (t < p ==> Abs(vz) < Abs(vp) && RoundedToOdd(p - t, (Abs(vp) - Abs(vz)) * A, D))
            && (pe < ze + 2 && t < p ==> (p - t) * D == (Abs(vp) - Abs(vz)) * A)
  {
    hide Pow2, Sticky, RoundedToOdd;
    var t, D, A := Sticky(z, pe - ze), Pow2(pe + 2199), Pow2(1200);
    AlignedOperand(zs, ze, z, vz, pe);
    assert p % 2 == 0;
    CombineRoundedToOdd(p, Abs(vp) * A, t, Abs(vz) * A, D);
    Distribute(Abs(vp), Abs(vz), A);
    Distribute(p, t, D);
    if t < p {
      Cancel(Abs(vz), Abs(vp), A);
    }
  }

  lemma Distribute(a: int, b: int, k: int)
    ensures (a + b) * k == a * k + b * k && (a - b) * k == a * k - b * k
  {
  }

  lemma Cancel(a: int, b: int, k: nat)
    requires k > 0 && a * k < b * k
    ensures a < b
  {
    if a >= b { MulMono(b, a, k); }
  }

  lemma AlignedBounds(z: nat, d: nat)
    requires Pow2(126) <= z < Pow2(127) && z % 0x20_0000 == 0
    ensures d == 0 ==> Sticky(z, d) == z
    ensures d > 0 ==> Sticky(z, d) < Pow2(126)
    ensures d >= 2 ==> Sticky(z, d) < Pow2(125)
    ensures d < 2 ==> Sticky(z, d) * Pow2(d) == z
  {
    hide Pow2, Sticky;
    StickyByZero(z);
    EvenPower(0);
    StickyOfEven(z);
    if d >= 1 { ShiftedBound(z, d, 126); }
    if d >= 2 { ShiftedBound(z, d, 125); }
  }

  lemma ShiftedBound(z: nat, d: nat, k: nat)
    requires 0 < k <= 127 <= k + d && z < Pow2(127)
    ensures Sticky(z, d) < Pow2(k)
  {
    hide Pow2, Sticky;
    EvenPower(k);
    Pow2Add(k, d);
    Pow2Mono(127, k + d);
    StickyBounds(z, d, Pow2(k));
  }

  lemma StickyOfEven(z: nat)
    requires z % 0x20_0000 == 0
    ensures Sticky(z, 1) * Pow2(1) == z
  {
  }

  /** Dropping one word, or one word and a carry, leaves 63 bits. */
  lemma FinishAdd(M: nat, N: int, pe: int, carry: nat)
    requires pe >= -1200 && RoundedToOdd(M, N, Pow2(pe + 2199))
    requires carry <= 1 && Pow2(126 + carry) <= M < Pow2(127 + carry)
    ensures RoundedToOdd(Sticky(M, 64 + carry), N, Pow2(pe - 1 + carry + 2264))
    ensures Pow2(62) <= Sticky(M, 64 + carry) < Pow2(63)
  {
    hide Pow2, Sticky, RoundedToOdd;
    StickyRoundsToOdd(M, 64 + carry, N, Pow2(pe + 2199));
    Pow2Add(64 + carry, pe + 2199);
    WordDropped(M, 64 + carry);
  }

  lemma WordDropped(M: nat, n: nat)
    requires Pow2(62 + n) <= M < Pow2(63 + n)
    ensures Pow2(62) <= Sticky(M, n) < Pow2(63)
  {
    hide Pow2, Sticky;
    Pow2Add(62, n);
    Pow2Add(63, n);
    EvenPower(63);
    StickyBounds(M, n, Pow2(63));
    StickyAtLeast(M, n, Pow2(62));
  }

  /** Normalising a difference: an inexact one has lost at most one leading bit. */
  lemma FinishSub(M: nat, N: int, pe: int, nz: nat)
    requires pe >= -1200 && RoundedToOdd(M, N, Pow2(pe + 2199))
    requires 1 <= nz <= 127 && Pow2(127 - nz) <= M < Pow2(128 - nz)
    requires nz <= 2 || M * Pow2(pe + 2199) == N
    ensures var L := M * Pow2(nz - 1);
            && Pow2(126) <= L < Pow2(127)
            && RoundedToOdd(Sticky(L, 64), N, Pow2(pe - nz + 2264))
            && Pow2(62) <= Sticky(L, 64) < Pow2(63)
  {
    hide Pow2, Sticky, RoundedToOdd;
    NormalisedRange(M, nz);
    WordDropped(M * Pow2(nz - 1), 64);
    if M * Pow2(pe + 2199) == N {
      NormaliseExact(M, N, pe, nz);
    } else if nz == 1 {
      EvenPower(0);
      StickyRoundsToOdd(M, 64, N, Pow2(pe + 2199));
      Pow2Add(64, pe + 2199);
    } else {
      NormaliseByOne(M, N, pe);
    }
  }

  lemma NormalisedRange(M: nat, nz: nat)
    requires 1 <= nz <= 127 && Pow2(127 - nz) <= M < Pow2(128 - nz)
    ensures Pow2(126) <= M * Pow2(nz - 1) < Pow2(127)
  {
    hide Pow2;
    Pow2Add(127 - nz, nz - 1);
    Pow2Add(128 - nz, nz - 1);
    MulMono(Pow2(127 - nz), M, Pow2(nz - 1));
    MulStrict(M, Pow2(128 - nz), Pow2(nz - 1));
  }

  lemma NormaliseExact(M: nat, N: int, pe: int, nz: nat)
    requires pe >= -1200 && 1 <= nz <= 127 && M * Pow2(pe + 2199) == N
    ensures M * Pow2(nz - 1) >= 0
    ensures RoundedToOdd(Sticky(M * Pow2(nz - 1), 64), N, Pow2(pe - nz + 2264))
  {
    hide Pow2, Sticky;
    MulMono(0, M, Pow2(nz - 1));
    Pow2Add(64, pe + 2200 - nz);
    Pow2Add(nz - 1, pe + 2200 - nz);
    MulAssoc(M, Pow2(nz - 1), Pow2(pe + 2200 - nz));
    StickyRoundsToOdd(M * Pow2(nz - 1), 64, N, Pow2(pe + 2200 - nz));
  }

  lemma NormaliseByOne(M: nat, N: int, pe: int)
    requires pe >= -1200 && RoundedToOdd(M, N, Pow2(pe + 2199))
    ensures RoundedToOdd(Sticky(M * Pow2(1), 64), N, Pow2(pe - 2 + 2264))
  {
    hide Pow2, Sticky, RoundedToOdd;
    SmallPowers();
    StickyOfDouble(M, 63);
    Pow2Add(63, pe + 2199);
    StickyRoundsToOdd(M, 63, N, Pow2(pe + 2199));
  }

  lemma StickyOfDouble(x: nat, n: nat)
    ensures Sticky(2 * x, n + 1) == Sticky(x, n)
  {
    var p := Pow2(n);
    DivBound(x, p);
    var q, r := x / p, x % p;
    MulAssoc(q, 2, p);
    DivUnique(2 * x, 2 * p, q, 2 * r);
  }

  // ----- the one rounding

  /** The significand after rounding away ten bits, ties to even. */
  function RoundTen(m: nat): nat {
    var q := (m + 512) / 1024;
    if m % 1024 == 512 then q / 2 * 2 else q
  }

  lemma RoundTenBounds(m: nat)
    ensures var q: int := RoundTen(m);
            && 1024 * q - 512 <= m <= 1024 * q + 512
            && (1024 * q - 512 == m || m == 1024 * q + 512 ==> q % 2 == 0)
  {
  }

  lemma RoundTenIsNearest(m: nat, N: int, D: int)
    requires RoundedToOdd(m, N, D) && D > 0
    ensures var q: int := RoundTen(m);
            && (2 * q - 1) * (1024 * D) <= 2 * N <= (2 * q + 1) * (1024 * D)
            && ((2 * q - 1) * (1024 * D) == 2 * N || 2 * N == (2 * q + 1) * (1024 * D) ==> q % 2 == 0)
  {
    hide RoundedToOdd;
    RoundTenBounds(m);
    hide RoundTen;
    var q: int := RoundTen(m);
    TenBitScale(q, D);
    CompareWithEven(m, N, D, 1024 * q - 512);
    CompareWithEven(m, N, D, 1024 * q + 512);
  }

  lemma TenBitScale(q: int, D: int)
    ensures (2 * q - 1) * (1024 * D) == 2 * ((1024 * q - 512) * D)
    ensures (2 * q + 1) * (1024 * D) == 2 * ((1024 * q + 512) * D)
  {
  }

  /** Rounding ten bits and packing by addition gives the nearest encoding. */
  lemma FinishRound(m: nat, N: int, v: nat, pe: nat)
    requires pe <= 2045 && RoundedToOdd(m, N, Pow2(pe + 2264)) && N == v * Pow2(1200)
    requires m < Pow2(63) && (pe > 0 ==> m >= Pow2(62))
    ensures RoundTen(m) <= 2 * FRAC && pe * FRAC + RoundTen(m) <= UVINF
    ensures IsNearestEven(pe * FRAC + RoundTen(m), v, Pow2(1074))
  {
    hide Pow2, RoundedToOdd, RoundTen, IsNearestEven;
    Pow2Values();
    RoundTenRange(m);
    FinishRoundScale(m, N, v, pe);
    PackedNearest(RoundTen(m), pe, v, Pow2(1074), Pow2(pe) * Pow2(1074));
  }

  lemma FinishRoundScale(m: nat, N: int, v: nat, pe: nat)
    requires RoundedToOdd(m, N, Pow2(pe + 2264)) && N == v * Pow2(1200)
    ensures var q: int, u := RoundTen(m), Pow2(pe) * Pow2(1074);
            && (2 * q - 1) * u <= 2 * v <= (2 * q + 1) * u
            && ((2 * q - 1) * u == 2 * v || 2 * v == (2 * q + 1) * u ==> q % 2 == 0)
            && (m >= 1024 * FRAC ==> FRAC * u <= v)
  {
    hide Pow2, RoundedToOdd, RoundTen;
    var q: int, u, D, A := RoundTen(m), Pow2(pe) * Pow2(1074), Pow2(pe + 2264), Pow2(1200);
    RoundScale(pe);
    RoundTenIsNearest(m, N, D);
    UnscaleBoth(q, u, v, A);
    CompareWithEven(m, N, D, 1024 * FRAC);
    MulAssoc(FRAC, 1024, D);
    Unscale(FRAC, u, v, A);
  }

  lemma UnscaleBoth(q: int, u: int, v: int, A: int)
    requires A > 0
    ensures (2 * q - 1) * (u * A) <= 2 * (v * A) <==> (2 * q - 1) * u <= 2 * v
    ensures (2 * q - 1) * (u * A) >= 2 * (v * A) <==> (2 * q - 1) * u >= 2 * v
    ensures (2 * q + 1) * (u * A) <= 2 * (v * A) <==> (2 * q + 1) * u <= 2 * v
    ensures (2 * q + 1) * (u * A) >= 2 * (v * A) <==> (2 * q + 1) * u >= 2 * v
  {
    MulAssoc(2, v, A);
    Unscale(2 * q - 1, u, 2 * v, A);
    Unscale(2 * q + 1, u, 2 * v, A);
  }

  lemma RoundTenRange(m: nat)
    requires m < 0x8000_0000_0000_0000
    ensures RoundTen(m) <= 2 * FRAC
    ensures m >= 0x4000_0000_0000_0000 ==> RoundTen(m) >= FRAC
  {
  }

  lemma RoundScale(pe: nat)
    ensures 1024 * Pow2(pe + 2264) == Pow2(pe) * Pow2(1074) * Pow2(1200)
  {
    hide Pow2;
    Pow2Values();
    Pow2Add(10, pe + 2264);
    Pow2Add(1074, 1200);
    Pow2Add(pe, 2274);
    MulAssoc(Pow2(pe), Pow2(1074), Pow2(1200));
  }

  /** Comparing k*(u*A) with n*A is comparing k*u with n. */
  lemma Unscale(k: int, u: int, n: int, A: int)
    requires A > 0
    ensures k * (u * A) <= n * A <==> k * u <= n
    ensures k * (u * A) >= n * A <==> k * u >= n
  {
    MulAssoc(k, u, A);
    if k * u < n { MulStrict(k * u, n, A); }
    if k * u > n { MulStrict(n, k * u, A); }
  }

  /** A value of 2^2098 units or more overflows to infinity. */
  lemma Overflow(m: nat, N: int, v: nat, pe: int)
    requires pe > 2045 && RoundedToOdd(m, N, Pow2(pe + 2264)) && N == v * Pow2(1200) && m >= Pow2(62)
    ensures IsNearestEven(UVINF, v, Pow2(1074))
  {
    hide Pow2, RoundedToOdd, IsNearestEven;
    Pow2Values();
    CompareWithEven(m, N, Pow2(pe + 2264), 1024 * FRAC);
    Pow2Mono(2046 + 2264, pe + 2264);
    MulMono(Pow2(2046 + 2264), Pow2(pe + 2264), 1024 * FRAC);
    RoundScale(2046);
    var u := Pow2(2046) * Pow2(1074);
    MulAssoc(FRAC, 1024, Pow2(2046 + 2264));
    Unscale(FRAC, u, v, Pow2(1200));
    PackedUnits(FRAC, 2046);
    MulAssoc(FRAC, Pow2(2046), Pow2(1074));
    assert 2046 * FRAC + FRAC == UVINF;
    UnitsStep(UVINF - 1);
    MulStrict(Units(UVINF - 1), Units(UVINF), Pow2(1074));
    Distribute(Units(UVINF - 1), Units(UVINF), Pow2(1074));
    NearestFromNeighbours(UVINF, v, Pow2(1074));
  }

  lemma RoundTenWord(m: uint64)
    requires m < 0x8000_0000_0000_0000
    ensures AndNot(ShiftRight(m + 512, 10), Zero(Xor(And(m, 1023), 512))) == RoundTen(m)
  {
    hide AndNot, Xor, And, Pow2;
    Pow2Values();
    AndMask(m, 10);
    XorIsZero(m % 1024, 512);
    AndNotBit((m + 512) / 1024, Zero(Xor(m % 1024, 512)));
  }

  lemma InfinityTest(b: uint64)
    ensures And(b, UVINF) == UVINF <==> !IsFinite(b)
  {
    hide And, Pow2;
    Pow2Values();
    AndField(b, 11, 52, UVINF);
  }

  // ----- the operation

  /** Operands whose sum the code leaves to the hardware. */
  predicate Delegated(x: uint64, y: uint64, z: uint64) {
    IsZero(x) || IsZero(y) || IsZero(z) || !IsFinite(x) || !IsFinite(y)
  }

  /** The normalised product of two significands. */
  method Product(xs: uint64, xe: int32, xm: uint64, ys: uint64, ye: int32, ym: uint64, ghost x: uint64, ghost y: uint64)
    returns (ps: uint64, pe: int32, pm1: uint64, pm2: uint64)
    requires 0 < Magnitude(x) < UVINF && xs == (if Negative(x) then 1 else 0)
    requires FRAC <= xm < 2 * FRAC && -51 <= xe <= 2046
    requires Units(Magnitude(x)) * Pow2(64) == xm * Pow2(xe + 63)
    requires 0 < Magnitude(y) < UVINF && ys == (if Negative(y) then 1 else 0)
    requires FRAC <= ym < 2 * FRAC && -51 <= ye <= 2046
    requires Units(Magnitude(y)) * Pow2(64) == ym * Pow2(ye + 63)
    ensures Operand(ps, pe, Double(pm1, pm2), SignedUnits(x) * SignedUnits(y))
  {
    hide Pow2, Units, Xor, And, Shl, ShiftRight, ShiftLeft, Operand, Double, Mul64;
    ProductWords(xm, ym);
    pe := xe + ye - BIAS + 1;
    pm1, pm2 := Mul64(ShiftLeft(xm, 10), ShiftLeft(ym, 11)).0, Mul64(ShiftLeft(xm, 10), ShiftLeft(ym, 11)).1;
    SignXor(xs, ys);
    ps := Xor(xs, ys);
    TopBitTest(pm1);
    var is62zero := And(ShiftRight(Not(pm1), 62), 1);
    NormaliseProduct(pm1, pm2, is62zero);
    pm1, pm2 := Shl(pm1, pm2, is62zero).0, Shl(pm1, pm2, is62zero).1;
    pe := pe - is62zero;
    ProductOperand(x, xe, xm, y, ye, ym, is62zero, ps, Double(pm1, pm2));
  }

  lemma ProductWords(xm: uint64, ym: uint64)
    requires FRAC <= xm < 2 * FRAC && FRAC <= ym < 2 * FRAC
    ensures var p := Mul64(ShiftLeft(xm, 10), ShiftLeft(ym, 11));
            && 0x2000_0000_0000_0000 <= p.0 < 0x8000_0000_0000_0000
            && Double(p.0, p.1) == xm * ym * 0x20_0000 && Double(p.0, p.1) % 0x20_0000 == 0
  {
    hide ShiftLeft, Mul64;
    SignificandProduct(xm, ym);
    MulMono(0, xm, ym);
    DivUnique(xm * ym * 0x20_0000, 0x20_0000, xm * ym, 0);
  }

  lemma ProductOperand(x: uint64, xe: int, xm: uint64, y: uint64, ye: int, ym: uint64, i: nat, ps: uint64, m: nat)
    requires 0 < Magnitude(x) < UVINF && 0 < Magnitude(y) < UVINF && i <= 1
    requires -51 <= xe <= 2046 && Units(Magnitude(x)) * Pow2(64) == xm * Pow2(xe + 63)
    requires -51 <= ye <= 2046 && Units(Magnitude(y)) * Pow2(64) == ym * Pow2(ye + 63)
    requires m == xm * ym * 0x20_0000 * Pow2(i) && Pow2(126) <= m < Pow2(127) && m % 0x20_0000 == 0
    requires ps == if Negative(x) != Negative(y) then 1 else 0
    ensures Operand(ps, xe + ye - BIAS + 1 - i, m, SignedUnits(x) * SignedUnits(y))
  {
    hide Pow2, Units;
    UnitsPositive(x);
    UnitsPositive(y);
    ProductSign(SignedUnits(x), SignedUnits(y));
    ProductScale(Units(Magnitude(x)), Units(Magnitude(y)), xm, ym, xe, ye, i);
  }

  lemma SignXor(a: uint64, b: uint64)
    requires a <= 1 && b <= 1
    ensures Xor(a, b) == if a != b then 1 else 0
  {
  }

  lemma SignificandProduct(xm: uint64, ym: uint64)
    requires FRAC <= xm < 2 * FRAC && FRAC <= ym < 2 * FRAC
    ensures ShiftLeft(xm, 10) == xm * 1024 && ShiftLeft(ym, 11) == ym * 2048
    ensures (xm * 1024) * (ym * 2048) == xm * ym * 0x20_0000
    ensures 0x2000_0000_0000_0000 * W <= xm * ym * 0x20_0000 < 0x8000_0000_0000_0000 * W
  {
    hide ShiftLeft;
    SignificandShifts(xm);
    SignificandShifts(ym);
    MulMono(FRAC, xm, ym);
    MulMono(xm, 2 * FRAC - 1, ym);
    Interchange(xm, 1024, ym, 2048);
  }

  lemma TopBitTest(pm1: uint64)
    requires 0x2000_0000_0000_0000 <= pm1 < 0x8000_0000_0000_0000
    ensures And(ShiftRight(Not(pm1), 62), 1) == if pm1 < 0x4000_0000_0000_0000 then 1 else 0
  {
    hide Pow2;
    Pow2Values();
    assert ShiftRight(Not(pm1), 62) == if pm1 < 0x4000_0000_0000_0000 then 3 else 2;
  }

  lemma NormaliseProduct(pm1: uint64, pm2: uint64, i: nat)
    requires 0x2000_0000_0000_0000 <= pm1 < 0x8000_0000_0000_0000
    requires i == if pm1 < 0x4000_0000_0000_0000 then 1 else 0
    requires Double(pm1, pm2) % 0x20_0000 == 0
    ensures var m := Double(Shl(pm1, pm2, i).0, Shl(pm1, pm2, i).1);
            m == Double(pm1, pm2) * Pow2(i) && Pow2(126) <= m < Pow2(127) && m % 0x20_0000 == 0
  {
    hide Pow2, Shl, Double;
    ProductRange(pm1, pm2);
    PowersNear127();
    SmallPowers();
    EvenGrains(Double(pm1, pm2));
    ShlCorrect(pm1, pm2, i);
  }

  lemma SmallPowers()
    ensures Pow2(0) == 1 && Pow2(1) == 2
  {
  }

  lemma EvenGrains(v: nat)
    requires v % 0x20_0000 == 0
    ensures (v * 2) % 0x20_0000 == 0 && v * 1 == v
  {
  }

  lemma ProductRange(pm1: uint64, pm2: uint64)
    requires 0x2000_0000_0000_0000 <= pm1 < 0x8000_0000_0000_0000
    ensures if pm1 < 0x4000_0000_0000_0000 then Pow2(125) <= Double(pm1, pm2) < Pow2(126)
            else Pow2(126) <= Double(pm1, pm2) < Pow2(127)
  {
    hide Pow2;
    Pow2Wide();
  }

  // ----- adding two aligned significands

  /** m is the exact value v, in units of 2^-2148, at exponent pe, rounded to odd
      with 63 significant bits. */
  ghost predicate Significand(m: nat, pe: int, v: int) {
    && -1400 <= pe <= 3200
    && RoundedToOdd(m, Abs(v) * Pow2(1200), Pow2(pe + 2264))
    && Pow2(62) <= m < Pow2(63)
  }

  lemma AddCarries(p1: uint64, p2: uint64, t1: uint64, t2: uint64)
    requires Double(p1, p2) + Double(t1, t2) < W * W
    ensures var lo, c := Add64(p2, t2, 0).0, Add64(p2, t2, 0).1;
            c <= 1 && Double(Add64(p1, t1, c).0, lo) == Double(p1, p2) + Double(t1, t2)
  {
  }

  lemma SubBorrows(p1: uint64, p2: uint64, t1: uint64, t2: uint64)
    requires Double(p1, p2) >= Double(t1, t2)
    ensures var lo, c := Sub64(p2, t2, 0).0, Sub64(p2, t2, 0).1;
            c <= 1 && Double(Sub64(p1, t1, c).0, lo) == Double(p1, p2) - Double(t1, t2)
  {
  }

  lemma CarryTest(h: uint64, l: uint64)
    ensures ShiftRight(h, 63) == if Double(h, l) >= Pow2(127) then 1 else 0
    ensures ShiftRight(Not(h), 63) == 1 - ShiftRight(h, 63)
  {
    hide Pow2;
    Pow2Values();
    Pow2Wide();
  }

  /** Two operands of one sign. */
  method AddSignificands(ps: uint64, pe0: int32, p1: uint64, p2: uint64, zs: uint64, ze: int32, z1: uint64, z2: uint64,
                         ghost vp: int, ghost vz: int)
    returns (pe: int32, m: uint64)
    requires Operand(ps, pe0, Double(p1, p2), vp) && Operand(zs, ze, Double(z1, z2), vz)
    requires pe0 >= ze && (pe0 == ze ==> Double(p1, p2) >= Double(z1, z2)) && ps == zs
    ensures Significand(m, pe, vp + vz)
  {
    hide Pow2, Shr, ShiftRight, Sticky, RoundedToOdd, Add64, Double, Not;
    var t1, t2 := ShrCompress(z1, z2, pe0 - ze);
    ghost var p, t := Double(p1, p2), Double(t1, t2);
    AlignedBounds(Double(z1, z2), pe0 - ze);
    Align(ps, pe0, p, vp, zs, ze, Double(z1, z2), vz);
    PowersNear127();
    AddCarries(p1, p2, t1, t2);
    var lo, c := Add64(p2, t2, 0).0, Add64(p2, t2, 0).1;
    var hi := Add64(p1, t1, c).0;
    CarryTest(hi, lo);
    pe := pe0 - ShiftRight(Not(hi), 63);
    FinishAdd(p + t, (Abs(vp) + Abs(vz)) * Pow2(1200), pe0, ShiftRight(hi, 63));
    var high;
    high, m := ShrCompress(hi, lo, 64 + ShiftRight(hi, 63));
    HighWordZero(high, m);
  }

  lemma PowersNear127()
    ensures Pow2(126) + Pow2(126) == Pow2(127) && Pow2(127) + Pow2(127) == Pow2(128) == W * W
    ensures Pow2(125) + Pow2(125) == Pow2(126)
  {
    hide Pow2;
    Pow2Wide();
  }

  lemma HighWordZero(h: uint64, l: uint64)
    requires Double(h, l) < Pow2(63)
    ensures h == 0 && Double(h, l) == l
  {
    Pow2Values();
  }

  /** Two operands of different signs and different magnitudes. */
  method SubSignificands(ps: uint64, pe0: int32, p1: uint64, p2: uint64, zs: uint64, ze: int32, z1: uint64, z2: uint64,
                         ghost vp: int, ghost vz: int)
    returns (pe: int32, m: uint64)
    requires Operand(ps, pe0, Double(p1, p2), vp) && Operand(zs, ze, Double(z1, z2), vz)
    requires pe0 >= ze && (pe0 == ze ==> Double(p1, p2) > Double(z1, z2)) && ps != zs
    ensures Significand(m, pe, vp + vz) && Abs(vz) < Abs(vp)
  {
    hide Pow2, Shl, Or, ShiftRight, Sticky, RoundedToOdd, Sub64, Double, LeadingZeros128;
    var t1, t2 := ShrCompress(z1, z2, pe0 - ze);
    ghost var p, t := Double(p1, p2), Double(t1, t2);
    AlignedBounds(Double(z1, z2), pe0 - ze);
    Align(ps, pe0, p, vp, zs, ze, Double(z1, z2), vz);
    PowersNear127();
    SubBorrows(p1, p2, t1, t2);
    var lo, c := Sub64(p2, t2, 0).0, Sub64(p2, t2, 0).1;
    var hi := Sub64(p1, t1, c).0;
    var nz := LeadingZeros128(hi, lo);
    LeadingZeros128Normalises(hi, lo);
    LeadingZerosRange(p - t, nz);
    pe := pe0 - nz;
    ghost var N := (Abs(vp) - Abs(vz)) * Pow2(1200);
    FinishSub(p - t, N, pe0, nz);
    ShlCorrect(hi, lo, nz - 1);
    m, lo := Shl(hi, lo, nz - 1).0, Shl(hi, lo, nz - 1).1;
    StickyByWord(m, lo);
    HighWordZero(0, Or(m, Nonzero(lo)));
    m := Or(m, Nonzero(lo));
  }

  lemma LeadingZerosRange(d: nat, nz: nat)
    requires 0 < d < Pow2(127) && nz <= 127 && Pow2(127 - nz) <= d < Pow2(128 - nz)
    ensures nz >= 1 && (d > Pow2(125) ==> nz <= 2)
  {
    hide Pow2;
    Pow2Order(127 - nz, 127);
    Pow2Order(125, 128 - nz);
  }

  /** Equal magnitudes of opposite signs sum to exactly zero. */
  lemma CancelExactly(ps: uint64, e: int, m: nat, vp: int, zs: uint64, vz: int)
    requires Operand(ps, e, m, vp) && Operand(zs, e, m, vz) && ps != zs
    ensures vp + vz == 0 && RoundedOnce(vp + vz, 0)
  {
    hide Pow2;
    if Abs(vp) < Abs(vz) { MulStrict(Abs(vp), Abs(vz), Pow2(1200)); }
    if Abs(vz) < Abs(vp) { MulStrict(Abs(vz), Abs(vp), Pow2(1200)); }
  }

  lemma SignOfSum(ps: uint64, vp: int, zs: uint64, vz: int)
    requires vp != 0 && vz != 0
    requires ps == (if vp < 0 then 1 else 0) && zs == (if vz < 0 then 1 else 0)
    requires ps == zs || Abs(vz) < Abs(vp)
    ensures vp + vz != 0 && ps == if vp + vz < 0 then 1 else 0
  {
  }

  /** Shifting a subnormal result into place. */
  lemma SubnormalShift(m: uint64, n: nat, v: int, pe: int)
    requires pe < 0 && n == -pe && Significand(m, pe, v)
    ensures 0 <= Or(ShiftRight(m, n), Nonzero(And(m, SubWrap(ShiftLeft(1, n), 1)))) < Pow2(63)
    ensures var s := Or(ShiftRight(m, n), Nonzero(And(m, SubWrap(ShiftLeft(1, n), 1))));
            RoundedToOdd(s, Abs(v) * Pow2(1200), Pow2(2264))
  {
    hide Pow2, Or, And, SubWrap, ShiftLeft, RoundedToOdd;
    MaskWord(n, m);
    var lost := Nonzero(And(m, SubWrap(ShiftLeft(1, n), 1)));
    OrBit(ShiftRight(m, n), lost);
    ShiftIsSticky(m, n);
    StickyRoundsToOdd(m, n, Abs(v) * Pow2(1200), Pow2(pe + 2264));
    Pow2Add(n, pe + 2264);
    EvenPower(63);
    Pow2Mono(0, n);
    EvenPower(0);
    MulMono(1, Pow2(n), Pow2(63));
    StickyBounds(m, n, Pow2(63));
  }

  lemma ShiftIsSticky(m: uint64, n: nat)
    requires m > 0
    ensures n < 64 ==> ShiftRight(m, n) == m / Pow2(n)
    ensures n >= 64 ==> ShiftRight(m, n) == 0 && Sticky(m, n) == 1
  {
    hide Pow2;
    if n >= 64 {
      Pow2Word();
      Pow2Mono(64, n);
      DivUnique(m, Pow2(n), 0, m);
    }
  }

  lemma SignBit(s: uint64)
    requires s <= 1
    ensures ShiftLeft(s, 63) == s * SIGN
    ensures Or(ShiftLeft(s, 63), UVINF) == s * SIGN + UVINF
  {
    hide Or;
    Pow2Values();
    OrDisjoint(s * SIGN, UVINF, 63);
  }

  lemma TopBit(x: nat)
    requires x < W
    ensures ShiftRight(x, 63) == if x >= 0x8000_0000_0000_0000 then 1 else 0
  {
    Pow2Values();
  }

  lemma RoundTenCarries(m: nat)
    requires 0x8000_0000_0000_0000 - 512 <= m < 0x8000_0000_0000_0000
    ensures 2045 * FRAC + RoundTen(m) == UVINF
  {
  }

  lemma ExponentField(pe: nat)
    requires pe <= 2046
    ensures ShiftLeft(pe, 52) == pe * FRAC
  {
    Pow2Values();
  }

  lemma PackWord(ps: uint64, b: nat)
    requires ps <= 1 && b <= UVINF
    ensures ps * SIGN + b < W
    ensures Magnitude(ps * SIGN + b) == b && Negative(ps * SIGN + b) == (ps == 1)
  {
  }

  /** The rounding at the end: overflow, the shift into the subnormal range, ties
      to even, and packing by addition. */
  method RoundAndPack(ps: uint64, pe0: int32, m0: uint64, ghost v: int) returns (r: uint64)
    requires Significand(m0, pe0, v) && v != 0 && ps == if v < 0 then 1 else 0
    ensures RoundedOnce(v, r)
  {
    hide Pow2, Or, And, Xor, AndNot, ShiftRight, ShiftLeft, SubWrap, RoundedToOdd, IsNearestEven, RoundTen, AndInt32;
    var pe, m := pe0, m0;
    ghost var N := Abs(v) * Pow2(1200);
    Pow2Values();
    SignBit(ps);
    TopBit(m + 512);
    if pe > 1022 + BIAS || (pe == 1022 + BIAS && ShiftRight(m + 512, 63) == 1) {
      if pe == 1022 + BIAS {
        FinishRound(m, N, Abs(v), pe);
        RoundTenCarries(m);
      } else {
        Overflow(m, N, Abs(v), pe);
      }
      PackWord(ps, UVINF);
      return Or(ShiftLeft(ps, 63), UVINF);
    }
    if pe < 0 {
      var n: nat := -pe;
      SubnormalShift(m, n, v, pe);
      m := Or(ShiftRight(m, n), Nonzero(And(m, SubWrap(ShiftLeft(1, n), 1))));
      pe := 0;
    }
    FinishRound(m, N, Abs(v), pe);
    RoundTenWord(m);
    RoundTenRange(m);
    m := AndNot(ShiftRight(m + 512, 10), Zero(Xor(And(m, 1023), 512)));
    AndInt32Mask(pe);
    var keep: int := Nonzero(m);
    pe := AndInt32(pe, -keep);
    ExponentField(pe);
    PackWord(ps, pe * FRAC + m);
    r := (ShiftLeft(ps, 63) + ShiftLeft(pe, 52) + m) % W;
  }

  /** The sum of two operands, the larger first. */
  method Combine(ps: uint64, pe0: int32, p1: uint64, p2: uint64, zs: uint64, ze: int32, z1: uint64, z2: uint64,
                 ghost vp: int, ghost vz: int)
    returns (r: uint64)
    requires Operand(ps, pe0, Double(p1, p2), vp) && Operand(zs, ze, Double(z1, z2), vz)
    requires pe0 >= ze && (pe0 == ze ==> Double(p1, p2) >= Double(z1, z2))
    ensures RoundedOnce(vp + vz, r)
  {
    hide Pow2, RoundedOnce, Significand;
    if ps != zs && pe0 == ze && p1 == z1 && p2 == z2 {
      CancelExactly(ps, pe0, Double(p1, p2), vp, zs, vz);
      return 0;
    }
    var pe, m;
    if ps == zs {
      pe, m := AddSignificands(ps, pe0, p1, p2, zs, ze, z1, z2, vp, vz);
    } else {
      pe, m := SubSignificands(ps, pe0, p1, p2, zs, ze, z1, z2, vp, vz);
    }
    SignOfSum(ps, vp, zs, vz);
    r := RoundAndPack(ps, pe, m, vp + vz);
  }

  /** x*y + z with one rounding; hardware stands for the sum the host computes
      when an operand is zero, infinite or not a number. */
  method FMA(x: uint64, y: uint64, z: uint64, hardware: uint64) returns (r: uint64)
    ensures Delegated(x, y, z) ==> r == hardware
    ensures !Delegated(x, y, z) && !IsFinite(z) ==> r == z
    ensures !Delegated(x, y, z) && IsFinite(z) ==> RoundedOnce(ExactSum(x, y, z), r)
  {
    hide Pow2, Or, And, Xor, AndNot, Shl, Shr, ShiftLeft, ShiftRight, Units, Operand, ExactSum, RoundedOnce, LeadingZeros128;
    InfinityTest(x);
    InfinityTest(y);
    InfinityTest(z);
    if IsZero(x) || IsZero(y) || IsZero(z) || And(x, UVINF) == UVINF || And(y, UVINF) == UVINF {
      return hardware;
    }
    if And(z, UVINF) == UVINF {
      return z;
    }
    var xs, xe, xm := Split(x);
    var ys, ye, ym := Split(y);
    var zs, ze, zm := Split(z);
    var ps, pe, pm1, pm2 := Product(xs, xe, xm, ys, ye, ym, x, y);
    AddendOperand(z, zs, ze, zm);
    var zm1, zm2 := ShiftLeft(zm, 10), 0;
    ghost var vp, vz := SignedUnits(x) * SignedUnits(y), SignedUnits(z) * Pow2(1074);
    assert ExactSum(x, y, z) == vp + vz by { SumOfParts(x, y, z); }

    if pe < ze || (pe == ze && pm1 < zm1) {
      ps, pe, pm1, pm2, zs, ze, zm1, zm2 := zs, ze, zm1, zm2, ps, pe, pm1, pm2;
      vp, vz := vz, vp;
    }
    r := Combine(ps, pe, pm1, pm2, zs, ze, zm1, zm2, vp, vz);
  }

  lemma SumOfParts(x: uint64, y: uint64, z: uint64)
    ensures ExactSum(x, y, z) == SignedUnits(x) * SignedUnits(y) + SignedUnits(z) * Pow2(1074)
  {
  }

  // ----- a zero operand

  /** x*y + z as a host computes it that rounds the product and then the sum. */
  function TwoRoundings(x: uint64, y: uint64, z: uint64): uint64
    requires IsFinite(x) && IsFinite(y) && IsFinite(z)
  {
    var p := Ieee.Multiply(x, y);
    if IsFinite(p) then Ieee.Add(p, z) else p
  }

  /** The product is below zero and too small for any other encoding than zero, and z is +0. */
  predicate LosesSign(x: uint64, y: uint64, z: uint64)
    requires IsFinite(x) && IsFinite(y)
  {
    z == 0 && SignedUnits(x) * SignedUnits(y) < 0 && Magnitude(Ieee.Multiply(x, y)) == 0
  }

  /** With a zero operand one of the two roundings is exact, so that the result is the sum rounded once, but
      for one case: a product that underflows to -0 and is added to +0 becomes +0. */
  lemma ZeroOperandRoundsOnce(x: uint64, y: uint64, z: uint64)
    requires IsFinite(x) && IsFinite(y) && IsFinite(z) && Delegated(x, y, z)
    ensures ExactSum(x, y, z) != 0 ==> (RoundedOnce(ExactSum(x, y, z), TwoRoundings(x, y, z)) <==> !LosesSign(x, y, z))
    ensures ExactSum(x, y, z) == 0 ==>
      TwoRoundings(x, y, z) == Ieee.WithSign(Negative(x) != Negative(y) && Negative(z), 0)
  {
    hide Pow2, Units, Ieee.RoundNearest, IsNearestEven;
    assert Units(0) == 0 by { ZeroUnits(); }
    if IsZero(x) || IsZero(y) {
      MulZero(SignedUnits(x), SignedUnits(y), Units(Magnitude(x)), Units(Magnitude(y)));
      Ieee.RoundExact(0, 0, Pow2(1074));
      if !IsZero(z) {
        PlusZero(Ieee.Multiply(x, y), z);
        UnitsPositive(z);
        MulMono(1, Units(Magnitude(z)), Pow2(1074));
        ExactIsNearest(Magnitude(z), Units(Magnitude(z)) * Pow2(1074), Pow2(1074));
        AbsScaled(SignedUnits(z), Pow2(1074));
      } else {
        assert SignedUnits(z) == 0 && 0 * Pow2(1074) == 0;
      }
    } else {
      UnitsPositive(x);
      UnitsPositive(y);
      MulMono(0, Units(Magnitude(x)), Units(Magnitude(y)));
      ProductSign(SignedUnits(x), SignedUnits(y));
      assert SignedUnits(z) == 0 && 0 * Pow2(1074) == 0;
      var p := Ieee.Multiply(x, y);
      if IsFinite(p) && !IsZero(p) {
        PlusZero(z, p);
        assert Ieee.Add(p, z) == Ieee.Add(z, p);
      }
    }
  }

  lemma ZeroUnits()
    ensures Units(0) == 0
  {
  }

  /** Adding a zero to another number changes nothing. */
  lemma PlusZero(a: uint64, b: uint64)
    requires IsZero(a) && IsFinite(b) && !IsZero(b)
    ensures Ieee.Add(a, b) == b
  {
    hide Units, Ieee.RoundNearest, IsNearestEven;
    ZeroUnits();
    UnitsPositive(b);
    Ieee.RoundExact(Magnitude(b), Units(Magnitude(b)), 1);
  }

  lemma MulZero(a: int, b: int, m: nat, n: nat)
    requires (a == 0 && m == 0) || (b == 0 && n == 0)
    ensures a * b == 0 && m * n == 0
  {
  }

  lemma AbsScaled(v: int, d: nat)
    requires d > 0
    ensures Abs(v * d) == Abs(v) * d && (v * d < 0 <==> v < 0) && (v * d == 0 <==> v == 0)
  {
  }

  /** The sign is lost: -2^-1074 times 2^-1074, plus +0, gives +0, and -0 is the nearest encoding. */
  lemma SignIsLost()
    ensures TwoRoundings(SIGN + 1, 1, 0) == 0
    ensures ExactSum(SIGN + 1, 1, 0) == -1 && RoundedOnce(-1, SIGN) && !RoundedOnce(-1, 0)
  {
    hide Pow2, Ieee.RoundNearest, IsNearestEven;
    assert Units(1) == 1 && SignedUnits(SIGN + 1) == -1 && SignedUnits(1) == 1 && SignedUnits(0) == 0;
    assert 0 * Pow2(1074) == 0;
    TinyIsZero();
    ExactIsNearest(0, 0, Pow2(1074));
  }

  lemma TinyIsZero()
    ensures IsNearestEven(0, 1, Pow2(1074)) && Ieee.RoundNearest(1, Pow2(1074)) == 0
  {
    hide Pow2, IsNearestEven, Ieee.RoundNearest;
    Pow2Values();
    Pow2Mono(2, 1074);
    NearestFromNeighbours(0, 1, Pow2(1074));
    NearestUnique(0, Ieee.RoundNearest(1, Pow2(1074)), 1, Pow2(1074));
  }
}
