/** Fixed-width machine words as bounded integers, with the bit operators the
    arithmetic code uses.  Shifts and wrap-around are written out; the bitwise
    operators are defined bit by bit and tied to division and remainder by
    powers of two. */
module Words {
  /** The number of values of a 64-bit word. */
  const W: nat := 0x1_0000_0000_0000_0000

  type uint64 = x: int | 0 <= x < 0x1_0000_0000_0000_0000
  type int32 = x: int | -0x8000_0000 <= x < 0x8000_0000

  function Pow2(n: nat): (p: nat)
    ensures p >= 1
  {
    if n == 0 then 1 else 2 * Pow2(n - 1)
  }

  function Or(a: nat, b: nat): nat {
    if a == 0 then b
    else if b == 0 then a
    else 2 * Or(a / 2, b / 2) + (if a % 2 == 1 || b % 2 == 1 then 1 else 0)
  }

  function And(a: nat, b: nat): nat {
    if a == 0 || b == 0 then 0
    else 2 * And(a / 2, b / 2) + (if a % 2 == 1 && b % 2 == 1 then 1 else 0)
  }

  function Xor(a: nat, b: nat): nat {
    if a == 0 then b
    else if b == 0 then a
    else 2 * Xor(a / 2, b / 2) + (if a % 2 != b % 2 then 1 else 0)
  }

  /** The "and not" operator: the bits of a that b does not have. */
  function AndNot(a: nat, b: nat): nat {
    if a == 0 then 0
    else if b == 0 then a
    else 2 * AndNot(a / 2, b / 2) + (if a % 2 == 1 && b % 2 == 0 then 1 else 0)
  }

  /** The one's complement of a 64-bit word. */
  function Not(a: uint64): uint64 { W - 1 - a }

  /** x << n on a 64-bit word: a count of 64 or more gives 0. */
  function ShiftLeft(x: uint64, n: nat): uint64 {
    if n >= 64 then 0 else x * Pow2(n) % W
  }

  /** x >> n on a 64-bit word: a count of 64 or more gives 0. */
  function ShiftRight(x: uint64, n: nat): uint64 {
    if n >= 64 then 0 else (DivBound(x, Pow2(n)); x / Pow2(n))
  }

  /** The unsigned 64-bit difference, which wraps. */
  function SubWrap(a: int, b: int): uint64 { (a - b) % W }

  // ----- division and multiplication

  lemma DivUnique(x: int, d: int, q: int, r: int)
    requires d > 0 && x == q * d + r && 0 <= r < d
    ensures x / d == q && x % d == r
  {
    var q' := x / d;
    var r' := x % d;
    assert q' * d + r' == x;
    assert (q' - q) * d == r - r';
    MulSign(q' - q, d);
  }

  lemma MulSign(a: int, d: int)
    requires d > 0
    ensures a >= 1 ==> a * d >= d
    ensures a <= -1 ==> a * d <= -d
  {
  }

  lemma DivBound(x: nat, d: nat)
    requires d > 0
    ensures 0 <= x / d <= x && x == x / d * d + x % d && 0 <= x % d < d
  {
    var q := x / d;
    assert x == q * d + x % d;
    MulSign(q, d);
    MulGrows(q, d);
  }

  lemma MulGrows(q: int, d: int)
    requires d > 0
    ensures q >= 0 ==> q * d >= q
  {
    if q >= 0 {
      assert q * d == q * (d - 1) + q;
    }
  }

  lemma DivLt(x: nat, d: nat, b: nat)
    requires d > 0 && x < b * d
    ensures x / d < b
  {
    DivBound(x, d);
    MulSign(x / d - b + 1, d);
    assert (x / d - b + 1) * d == x / d * d - b * d + d;
  }

  lemma MulMono(a: int, b: int, k: int)
    requires a <= b && k >= 0
    ensures a * k <= b * k
  {
  }

  lemma MulStrict(a: int, b: int, k: int)
    requires a < b && k > 0
    ensures a * k < b * k
  {
  }

  lemma MulAssoc(a: int, b: int, c: int)
    ensures (a * b) * c == a * (b * c)
    ensures (a * b) * c == (a * c) * b
  {
  }

  // ----- powers of two

  lemma {:induction false} Pow2Add(a: nat, b: nat)
    ensures Pow2(a + b) == Pow2(a) * Pow2(b)
  {
    if a > 0 {
      Pow2Add(a - 1, b);
      assert a + b - 1 == a - 1 + b;
      MulAssoc(2, Pow2(a - 1), Pow2(b));
    }
  }

  lemma Pow2Mono(a: nat, b: nat)
    requires a <= b
    ensures Pow2(a) <= Pow2(b)
    ensures a < b ==> 2 * Pow2(a) <= Pow2(b)
  {
    if a < b { Pow2Mono(a, b - 1); }
  }

  lemma ScaleFactors(a: int, b: int, i: nat, j: nat, k: nat)
    ensures a * Pow2(i) == b * Pow2(j) <==> a * Pow2(i + k) == b * Pow2(j + k)
  {
    hide Pow2;
    Pow2Add(i, k);
    Pow2Add(j, k);
    MulAssoc(a, Pow2(i), Pow2(k));
    MulAssoc(b, Pow2(j), Pow2(k));
    SameFactor(a * Pow2(i), b * Pow2(j), Pow2(k));
  }

  /** An equality of scaled values holds at every scale with the same ratio. */
  lemma SameRatio(a: int, b: int, i: nat, j: nat, i': nat, j': nat)
    requires i - j == i' - j'
    ensures a * Pow2(i) == b * Pow2(j) <==> a * Pow2(i') == b * Pow2(j')
  {
    hide Pow2;
    if i <= i' {
      ScaleFactors(a, b, i, j, i' - i);
    } else {
      ScaleFactors(a, b, i', j', i - i');
    }
  }

  lemma SameFactor(a: int, b: int, k: int)
    requires k > 0
    ensures a == b <==> a * k == b * k
  {
    if a < b { MulStrict(a, b, k); }
    if b < a { MulStrict(b, a, k); }
  }

  lemma Pow2Twice(k: nat)
    ensures Pow2(k + 1) == 2 * Pow2(k)
  {
  }

  lemma Pow2Order(a: nat, b: nat)
    ensures Pow2(a) < Pow2(b) <==> a < b
  {
    if a < b { Pow2Mono(a, b); } else { Pow2Mono(b, a); }
  }

  lemma Pow2Zero()
    ensures Pow2(0) == 1
  {
  }

  lemma Pow2Values()
    ensures Pow2(1) == 2 && Pow2(9) == 512 && Pow2(10) == 1024 && Pow2(11) == 2048 && Pow2(12) == 4096
    ensures Pow2(21) == 0x20_0000 && Pow2(22) == 0x40_0000
    ensures Pow2(32) == 0x1_0000_0000 && Pow2(51) == 0x8_0000_0000_0000
    ensures Pow2(52) == 0x10_0000_0000_0000 && Pow2(53) == 0x20_0000_0000_0000
    ensures Pow2(54) == 0x40_0000_0000_0000 && Pow2(55) == 0x80_0000_0000_0000
    ensures Pow2(62) == 0x4000_0000_0000_0000 && Pow2(63) == 0x8000_0000_0000_0000
    ensures Pow2(64) == W
    ensures Pow2(125) == 0x2000_0000_0000_0000 * W
    ensures Pow2(126) == 0x4000_0000_0000_0000 * W
    ensures Pow2(127) == 0x8000_0000_0000_0000 * W
    ensures Pow2(128) == W * W
  {
    assert Pow2(9) == 512 && Pow2(10) == 1024 && Pow2(11) == 2048 && Pow2(12) == 4096;
    Pow2Add(10, 11);
    Pow2Add(11, 11);
    Pow2Add(10, 22);
    Pow2Add(22, 21);
    Pow2Add(43, 9);
    Pow2Add(32, 32);
    Pow2Add(52, 10);
    Pow2Wide();
  }

  lemma Pow2Word()
    ensures Pow2(64) == W
  {
    hide Pow2;
    Pow2Byte();
    Pow2Add(8, 8);
    Pow2Add(16, 16);
    Pow2Add(32, 32);
  }

  lemma Pow2Byte()
    ensures Pow2(8) == 256
  {
  }

  lemma Pow2Wide()
    ensures Pow2(64) == W
    ensures Pow2(125) == 0x2000_0000_0000_0000 * W
    ensures Pow2(126) == 0x4000_0000_0000_0000 * W
    ensures Pow2(127) == 0x8000_0000_0000_0000 * W
    ensures Pow2(128) == W * W
  {
    Pow2Word();
    Pow2Halves(64);
    Pow2Add(64, 61);
    Pow2Add(64, 62);
    Pow2Add(64, 63);
    Pow2Add(64, 64);
  }

  lemma Pow2Halves(n: nat)
    requires n >= 3
    ensures Pow2(n) == 2 * Pow2(n - 1) && Pow2(n) == 4 * Pow2(n - 2) && Pow2(n) == 8 * Pow2(n - 3)
  {
  }

  // ----- the bitwise operators in terms of powers of two

  /** Or of words whose bits do not overlap is their sum. */
  lemma {:induction false} OrDisjoint(a: nat, b: nat, k: nat)
    requires a % Pow2(k) == 0 && b < Pow2(k)
    ensures Or(a, b) == a + b && Or(b, a) == a + b
    decreases k
  {
    if k > 0 && a > 0 && b > 0 {
      HalfOfMultiple(a, k);
      OrDisjoint(a / 2, b / 2, k - 1);
    }
  }

  lemma HalfOfMultiple(a: nat, k: nat)
    requires k > 0 && a % Pow2(k) == 0
    ensures a % 2 == 0 && (a / 2) % Pow2(k - 1) == 0
  {
    var p := Pow2(k - 1);
    var q := a / Pow2(k);
    assert a == q * (2 * p);
    MulAssoc(q, 2, p);
    assert a == 2 * (q * p);
    DivUnique(a / 2, p, q, 0);
  }

  /** Splitting off the low bit commutes with splitting off the low k bits. */
  lemma SplitLowBit(a: nat, k: nat)
    requires k > 0
    ensures a / Pow2(k) == (a / 2) / Pow2(k - 1)
    ensures a % Pow2(k) == 2 * ((a / 2) % Pow2(k - 1)) + a % 2
  {
    var p := Pow2(k - 1);
    DivBound(a / 2, p);
    var q, r := (a / 2) / p, (a / 2) % p;
    MulAssoc(q, 2, p);
    DivUnique(a, 2 * p, q, 2 * r + a % 2);
  }

  lemma {:induction false} AndMask(a: nat, k: nat)
    ensures And(a, Pow2(k) - 1) == a % Pow2(k)
    decreases k
  {
    hide And;
    if k == 0 {
      AndNothing(a);
    } else {
      SplitLowBit(a, k);
      AndMask(a / 2, k - 1);
      AndOdd(a, Pow2(k - 1));
    }
  }

  lemma AndOdd(a: nat, p: nat)
    requires p >= 1
    ensures And(a, 2 * p - 1) == 2 * And(a / 2, p - 1) + a % 2
  {
    assert (2 * p - 1) / 2 == p - 1 && (2 * p - 1) % 2 == 1;
  }

  lemma {:induction false} AndNotMask(a: nat, k: nat)
    ensures AndNot(a, Pow2(k) - 1) == a - a % Pow2(k)
    decreases k
  {
    hide AndNot;
    if k == 0 {
      AndNotNothing(a);
    } else {
      SplitLowBit(a, k);
      AndNotMask(a / 2, k - 1);
      AndNotOdd(a, Pow2(k - 1));
    }
  }

  lemma AndNotNothing(a: nat)
    ensures AndNot(a, 0) == a
  {
  }

  lemma AndNotOdd(a: nat, p: nat)
    requires p >= 1
    ensures AndNot(a, 2 * p - 1) == 2 * AndNot(a / 2, p - 1)
  {
    assert (2 * p - 1) / 2 == p - 1 && (2 * p - 1) % 2 == 1;
  }

  /** Clearing a field of n bits that starts at bit k. */
  lemma {:induction false} AndNotField(a: nat, n: nat, k: nat, f: nat)
    requires f == (Pow2(n) - 1) * Pow2(k)
    ensures AndNot(a, f) == a - (a / Pow2(k)) % Pow2(n) * Pow2(k)
    decreases k
  {
    hide AndNot;
    if k == 0 {
      FieldAtZero(n, a);
      AndNotMask(a, n);
    } else {
      var h := HalfField(n, k, f);
      AndNotField(a / 2, n, k - 1, h);
      SplitLowBit(a, k);
      AndNotEven(a, h);
      MulAssoc((a / Pow2(k)) % Pow2(n), 2, Pow2(k - 1));
    }
  }

  lemma FieldAtZero(n: nat, a: nat)
    ensures (Pow2(n) - 1) * Pow2(0) == Pow2(n) - 1 && a / Pow2(0) == a
    ensures a % Pow2(n) * Pow2(0) == a % Pow2(n)
  {
  }

  /** The field one bit further down. */
  lemma HalfField(n: nat, k: nat, f: nat) returns (h: nat)
    requires k > 0 && f == (Pow2(n) - 1) * Pow2(k)
    ensures f == 2 * h && h == (Pow2(n) - 1) * Pow2(k - 1)
  {
    MulAssoc(Pow2(n) - 1, 2, Pow2(k - 1));
    MulMono(0, Pow2(n) - 1, Pow2(k - 1));
    h := (Pow2(n) - 1) * Pow2(k - 1);
  }

  lemma AndNotEven(a: nat, b: nat)
    ensures AndNot(a, 2 * b) == 2 * AndNot(a / 2, b) + a % 2
  {
    assert (2 * b) / 2 == b && (2 * b) % 2 == 0;
    if b == 0 { AndNotNothing(a / 2); }
  }

  /** Selecting a field of n bits that starts at bit k. */
  lemma AndField(a: nat, n: nat, k: nat, f: nat)
    requires f == (Pow2(n) - 1) * Pow2(k)
    ensures And(a, f) == (a / Pow2(k)) % Pow2(n) * Pow2(k)
  {
    hide And, Pow2;
    DivBound(a, Pow2(k));
    AndShift(a, Pow2(n) - 1, k, f);
    AndMask(a / Pow2(k), n);
  }

  /** Masking with a shifted word masks the shifted operand. */
  lemma {:induction false} AndShift(a: nat, b: nat, k: nat, c: nat)
    requires c == b * Pow2(k)
    ensures a / Pow2(k) >= 0 && And(a, c) == And(a / Pow2(k), b) * Pow2(k)
    decreases k
  {
    hide And;
    if k == 0 {
      TimesOne(a, b);
      TimesOne(a, And(a, b));
    } else {
      var p := Pow2(k - 1);
      MulMono(0, b, p);
      MulAssoc(b, 2, p);
      AndShift(a / 2, b, k - 1, b * p);
      SplitLowBit(a, k);
      AndEven(a, b * p);
      MulAssoc(And(a / Pow2(k), b), 2, p);
    }
  }

  lemma TimesOne(a: nat, b: nat)
    ensures b * Pow2(0) == b && a / Pow2(0) == a
  {
  }

  lemma AndEven(a: nat, b: nat)
    ensures And(a, 2 * b) == 2 * And(a / 2, b)
  {
    assert (2 * b) / 2 == b && (2 * b) % 2 == 0;
    if b == 0 { AndNothing(a / 2); }
  }

  lemma {:induction false} AndAtMost(a: nat, b: nat)
    ensures And(a, b) <= a
  {
    if a > 0 && b > 0 { AndAtMost(a / 2, b / 2); }
  }

  lemma AndNotBit(a: nat, b: nat)
    requires b <= 1
    ensures AndNot(a, b) == if b == 1 then a - a % 2 else a
  {
  }

  lemma {:induction false} XorIsZero(a: nat, b: nat)
    ensures Xor(a, b) == 0 <==> a == b
  {
    if a > 0 && b > 0 { XorIsZero(a / 2, b / 2); }
  }

  /** x & y on 32-bit two's complement integers. */
  function AndInt32(x: int32, y: int32): int32 {
    var u := And(x % 0x1_0000_0000, y % 0x1_0000_0000);
    AndAtMost(x % 0x1_0000_0000, y % 0x1_0000_0000);
    if u >= 0x8000_0000 then u - 0x1_0000_0000 else u
  }

  /** Masking with -1 keeps a value, masking with 0 clears it. */
  lemma AndInt32Mask(x: int32)
    ensures AndInt32(x, -1) == x && AndInt32(x, 0) == 0
  {
    hide And, Pow2;
    Pow2Values();
    AndMask(x % 0x1_0000_0000, 32);
    AndNothing(x % 0x1_0000_0000);
  }

  lemma AndNothing(a: nat)
    ensures And(a, 0) == 0
  {
  }

  lemma OrBit(a: nat, b: nat)
    requires b <= 1
    ensures Or(a, b) == if b == 1 && a % 2 == 0 then a + 1 else a
    ensures Or(b, a) == Or(a, b)
  {
  }

  /** Or of words with no bit in common is their sum. */
  lemma {:induction false} OrNoCommonBits(a: nat, b: nat)
    requires And(a, b) == 0
    ensures Or(a, b) == a + b
  {
    if a > 0 && b > 0 { OrNoCommonBits(a / 2, b / 2); }
  }

  lemma {:induction false} AndDisjoint(a: nat, b: nat, k: nat)
    requires a % Pow2(k) == 0 && b < Pow2(k)
    ensures And(a, b) == 0
    decreases k
  {
    if k > 0 && a > 0 && b > 0 {
      HalfOfMultiple(a, k);
      AndDisjoint(a / 2, b / 2, k - 1);
    }
  }

  lemma OrZero(a: nat)
    ensures Or(a, 0) == a && Or(0, a) == a
  {
  }

  lemma OrSelf(a: nat)
    ensures Or(a, a) == a
  {
  }

  // ----- double words and leading zeros (package math/bits)

  function Double(hi: nat, lo: nat): nat { hi * W + lo }

  function Mul64(x: uint64, y: uint64): (p: (uint64, uint64))
    ensures Double(p.0, p.1) == x * y
  {
    ProductBound(x, y);
    DivLt(x * y, W, W);
    (x * y / W, x * y % W)
  }

  lemma ProductBound(x: uint64, y: uint64)
    ensures 0 <= x * y < W * W
  {
    MulMono(x, W - 1, y);
    MulMono(0, x, y);
    MulMono(y, W - 1, W - 1);
  }

  /** Sum and carry out of x + y + carry. */
  function Add64(x: uint64, y: uint64, carry: uint64): (uint64, uint64)
    requires carry <= 1
  {
    ((x + y + carry) % W, (x + y + carry) / W)
  }

  /** Difference and borrow out of x - y - borrow. */
  function Sub64(x: uint64, y: uint64, borrow: uint64): (uint64, uint64)
    requires borrow <= 1
  {
    ((x - y - borrow) % W, if x - y - borrow < 0 then 1 else 0)
  }

  /** The number of bits needed to write x. */
  function Len64(x: nat): nat { if x == 0 then 0 else 1 + Len64(x / 2) }

  lemma {:induction false} Len64Bounds(x: nat)
    ensures x < Pow2(Len64(x))
    ensures x > 0 ==> Len64(x) > 0 && Pow2(Len64(x) - 1) <= x
  {
    if x > 1 {
      Len64Bounds(x / 2);
    }
  }

  lemma Len64AtMost(x: nat, n: nat)
    requires x < Pow2(n)
    ensures Len64(x) <= n
  {
    Len64Bounds(x);
    if Len64(x) > 0 { Pow2Order(Len64(x) - 1, n); }
  }

  function LeadingZeros64(x: uint64): (n: nat)
    ensures n <= 64
  {
    Pow2Word();
    Len64AtMost(x, 64);
    64 - Len64(x)
  }
}
