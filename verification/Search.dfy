/** Searching for a byte string: LastIndex and Index of src/bytes/bytes.go, with the
    rolling hashes of src/internal/bytealg/bytealg.go. */
module Search {
  import opened Basics
  import opened Slices

  // ----- what is looked for

  predicate MatchAt(s: Bytes, sep: Bytes, i: int) {
    0 <= i && i + |sep| <= |s| && s[i..i + |sep|] == sep
  }

  /** r is the least place of sep in s, or -1 if there is none. */
  ghost predicate IsFirst(s: Bytes, sep: Bytes, r: int) {
    if r == -1 then forall i :: !MatchAt(s, sep, i)
    else MatchAt(s, sep, r) && forall i :: 0 <= i < r ==> !MatchAt(s, sep, i)
  }

  /** r is the greatest place of sep in s, or -1 if there is none. */
  ghost predicate IsLast(s: Bytes, sep: Bytes, r: int) {
    if r == -1 then forall i :: !MatchAt(s, sep, i)
    else MatchAt(s, sep, r) && forall i :: r < i ==> !MatchAt(s, sep, i)
  }

  lemma WholeMatch(s: Bytes, sep: Bytes)
    requires |s| == |sep|
    ensures forall i :: MatchAt(s, sep, i) <==> i == 0 && s == sep
  {
    assert s[0..|s|] == s;
  }

  lemma NoRoom(s: Bytes, sep: Bytes)
    requires |sep| > |s|
    ensures forall i :: !MatchAt(s, sep, i)
  {
  }

  // ----- words of 32 bits

  const M := 0x1_0000_0000
  type uint32 = x: int | 0 <= x < M
  const PRIME_RK: uint32 := 16777619

  function Mul32(a: int, b: int): uint32 { a * b % M }
  function Add32(a: int, b: int): uint32 { (a + b) % M }
  function Sub32(a: int, b: int): uint32 { (a - b) % M }

  lemma ModOfSum(x: int, k: int)
    ensures (x + k * M) % M == x % M
  {
    var q := x / M;
    assert x + k * M == (q + k) * M + x % M;
    ModUnique(x + k * M, q + k, x % M);
  }

  lemma ModUnique(x: int, q: int, r: int)
    requires 0 <= r < M && x == q * M + r
    ensures x % M == r
  {
  }

  /** Numbers that agree in 32 bits. */
  predicate Same(a: int, b: int) {
    a % M == b % M
  }

  lemma SameMul(a: int, b: int, c: int)
    requires Same(a, b)
    ensures Same(a * c, b * c)
  {
    var k := a / M - b / M;
    assert a == b + k * M;
    MulOfSum(b, k, c);
    ModOfSum(b * c, k * c);
  }

  lemma MulOfSum(b: int, k: int, c: int)
    ensures (b + k * M) * c == b * c + k * c * M
  {
  }

  lemma SameAdd(a: int, b: int, c: int)
    requires Same(a, b)
    ensures Same(a + c, b + c) && Same(a - c, b - c) && Same(c - a, c - b)
  {
    var k := a / M - b / M;
    ModOfSum(b + c, k);
    ModOfSum(b - c, k);
    ModOfSum(c - b, -k);
  }

  lemma SameMod(a: int)
    ensures Same(a % M, a)
  {
  }

  // ----- powers

  function Power(p: nat, n: nat): nat {
    if n == 0 then 1 else p * Power(p, n - 1)
  }

  lemma {:induction false} PowerAdd(p: nat, m: nat, n: nat)
    ensures Power(p, m + n) == Power(p, m) * Power(p, n)
  {
    if m > 0 {
      PowerAdd(p, m - 1, n);
      Associates(p, Power(p, m - 1), Power(p, n));
    }
  }

  lemma Associates(a: int, b: int, c: int)
    ensures a * (b * c) == a * b * c
  {
  }

  lemma {:induction false} PowerOfSquare(p: nat, n: nat)
    ensures Power(p * p, n) == Power(p, 2 * n)
  {
    if n > 0 {
      PowerOfSquare(p, n - 1);
      Associates(p, p, Power(p, 2 * n - 2));
      assert Power(p, 2 * n) == p * Power(p, 2 * n - 1);
    }
  }

  lemma {:induction false} SamePower(a: nat, b: nat, n: nat)
    requires Same(a, b)
    ensures Same(Power(a, n), Power(b, n))
  {
    if n > 0 {
      hide Same;
      SamePower(a, b, n - 1);
      SameProduct(a, b, Power(a, n - 1), Power(b, n - 1));
    }
  }

  lemma SameProduct(a: int, b: int, c: int, d: int)
    requires Same(a, b) && Same(c, d)
    ensures Same(a * c, b * d)
  {
    hide Same;
    SameMul(a, b, c);
    SameMul(c, d, b);
    Commutes(b, c);
    Commutes(b, d);
    SameTrans(a * c, b * c, b * d);
  }

  lemma Commutes(a: int, b: int)
    ensures a * b == b * a
  {
  }

  lemma SameTrans(a: int, b: int, c: int)
    requires Same(a, b) && Same(b, c)
    ensures Same(a, c)
  {
  }

  /** The n-th power of the prime in 32 bits, by repeated squaring. */
  method PowerRK(n: nat) returns (pow: uint32)
    ensures pow == Power(PRIME_RK, n) % M
  {
    pow := 1;
    var sq: uint32 := PRIME_RK;
    var i := n;
    while i > 0
      invariant 0 <= i
      invariant Same(pow * Power(sq, i), Power(PRIME_RK, n))
    {
      hide Same;
      PowerStep(sq, i);
      ghost var square := sq * sq % M;
      SameMod(sq * sq);
      SamePower(square, sq * sq, i / 2);
      if i % 2 != 0 {
        ghost var half := Power(sq * sq, i / 2);
        Associates(pow, sq, half);
        ghost var next := pow * sq % M;
        SameMod(pow * sq);
        SameMul(next, pow * sq, Power(square, i / 2));
        SameMul(Power(square, i / 2), half, pow * sq);
        SameTrans(next * Power(square, i / 2), pow * sq * Power(square, i / 2), pow * sq * half);
        SameTrans(next * Power(square, i / 2), pow * sq * half, Power(PRIME_RK, n));
        pow := Mul32(pow, sq);
      } else {
        SameMul(Power(square, i / 2), Power(sq * sq, i / 2), pow);
        SameTrans(pow * Power(square, i / 2), pow * Power(sq * sq, i / 2), Power(PRIME_RK, n));
      }
      sq := Mul32(sq, sq);
      i := i / 2;
    }
  }

  lemma PowerStep(p: nat, i: nat)
    requires i > 0
    ensures Power(p, i) == if i % 2 != 0 then p * Power(p * p, i / 2) else Power(p * p, i / 2)
  {
    PowerOfSquare(p, i / 2);
  }

  // ----- polynomial hashes

  /** Horner's rule from the back. */
  function RevPoly(t: Bytes): nat {
    if t == [] then 0 else RevPoly(t[1..]) * PRIME_RK + t[0]
  }

  /** Horner's rule from the front. */
  function Poly(t: Bytes): nat {
    if t == [] then 0 else Poly(t[..|t| - 1]) * PRIME_RK + t[|t| - 1]
  }

  lemma {:induction false} RevPolyOfSum(t: Bytes, c: byte)
    ensures RevPoly(t + [c]) == RevPoly(t) + Power(PRIME_RK, |t|) * c
  {
    if t == [] {
      assert [c][1..] == [];
    } else {
      assert (t + [c])[1..] == t[1..] + [c];
      RevPolyOfSum(t[1..], c);
      TimesPrime(RevPoly(t[1..]), Power(PRIME_RK, |t| - 1), c);
    }
  }

  lemma TimesPrime(a: nat, b: nat, c: nat)
    ensures (a + b * c) * PRIME_RK == a * PRIME_RK + PRIME_RK * b * c
  {
    assert b * c * PRIME_RK == PRIME_RK * b * c;
  }

  lemma {:induction false} PolyOfSum(c: byte, t: Bytes)
    ensures Poly([c] + t) == Power(PRIME_RK, |t|) * c + Poly(t)
  {
    var s := [c] + t;
    if t == [] {
      assert s[..0] == [] && s == [c];
    } else {
      assert s[..|s| - 1] == [c] + t[..|t| - 1];
      PolyOfSum(c, t[..|t| - 1]);
      TimesPrime(Poly(t[..|t| - 1]), Power(PRIME_RK, |t| - 1), c);
    }
  }

  lemma RollSums(hp: int, op: int, pc: int, wc: int, b: int, new': int)
    requires Same(hp, op) && Same(pc, wc) && op + b == new' + wc
    ensures ((hp % M + b) % M - pc % M) % M == new' % M
  {
    hide Same;
    var h1, h2, d := hp % M, (hp % M + b) % M, pc % M;
    SameMod(hp);
    SameTrans(h1, hp, op);
    SameAdd(h1, op, b);
    SameMod(h1 + b);
    SameTrans(h2, h1 + b, op + b);
    SameMod(pc);
    SameTrans(d, pc, wc);
    SameAdd(h2, op + b, d);
    SameAdd(d, wc, op + b);
    SameTrans(h2 - d, op + b - d, new');
    SameIs(h2 - d, new');
  }

  /** Taking in b in front and dropping c behind, in 32 bits. */
  lemma Roll(h: uint32, pow: uint32, b: byte, c: byte, whole: nat, old': nat, new': nat, power: nat)
    requires h == old' % M && pow == power % M
    requires whole == old' * PRIME_RK + b && whole == new' + power * c
    ensures Sub32(Add32(Mul32(h, PRIME_RK), b), Mul32(pow, c)) == new' % M
  {
    hide Same;
    SameMod(old');
    SameMul(h, old', PRIME_RK);
    SameMod(power);
    SameMul(pow, power, c);
    RollSums(h * PRIME_RK, old' * PRIME_RK, pow * c, power * c, b, new');
  }

  lemma SameIs(a: int, b: int)
    requires Same(a, b)
    ensures a % M == b % M
  {
  }

  lemma RollBack(s: Bytes, i: nat, n: nat, h: uint32, pow: uint32)
    requires i + n < |s|
    requires h == RevPoly(s[i + 1..i + 1 + n]) % M && pow == Power(PRIME_RK, n) % M
    ensures Sub32(Add32(Mul32(h, PRIME_RK), s[i]), Mul32(pow, s[i + n])) == RevPoly(s[i..i + n]) % M
  {
    hide Power, Mul32, Add32, Sub32;
    var w := s[i..i + n + 1];
    assert w[1..] == s[i + 1..i + 1 + n] && w == s[i..i + n] + [s[i + n]];
    assert RevPoly(w) == RevPoly(w[1..]) * PRIME_RK + w[0];
    RevPolyOfSum(s[i..i + n], s[i + n]);
    hide RevPoly;
    Roll(h, pow, s[i], s[i + n], RevPoly(w), RevPoly(w[1..]), RevPoly(s[i..i + n]), Power(PRIME_RK, n));
  }

  lemma RollOn(s: Bytes, i: nat, n: nat, h: uint32, pow: uint32)
    requires n <= i < |s|
    requires h == Poly(s[i - n..i]) % M && pow == Power(PRIME_RK, n) % M
    ensures Sub32(Add32(Mul32(h, PRIME_RK), s[i]), Mul32(pow, s[i - n])) == Poly(s[i + 1 - n..i + 1]) % M
  {
    hide Power, Mul32, Add32, Sub32;
    var w := s[i - n..i + 1];
    assert w[..|w| - 1] == s[i - n..i] && w == [s[i - n]] + s[i + 1 - n..i + 1];
    assert Poly(w) == Poly(w[..|w| - 1]) * PRIME_RK + w[|w| - 1];
    PolyOfSum(s[i - n], s[i + 1 - n..i + 1]);
    hide Poly;
    Roll(h, pow, s[i], s[i - n], Poly(w), Poly(s[i - n..i]), Poly(s[i + 1 - n..i + 1]), Power(PRIME_RK, n));
  }

  lemma HashStep(h: uint32, x: nat, b: byte)
    requires h == x % M
    ensures Add32(Mul32(h, PRIME_RK), b) == (x * PRIME_RK + b) % M
  {
    hide Same;
    SameMod(h * PRIME_RK);
    SameMod(x);
    SameMul(h, x, PRIME_RK);
    SameTrans(Mul32(h, PRIME_RK), h * PRIME_RK, x * PRIME_RK);
    SameAdd(Mul32(h, PRIME_RK), x * PRIME_RK, b);
    SameIs(Mul32(h, PRIME_RK) + b, x * PRIME_RK + b);
  }

  /** The hash of s[from..], taken from the back. */
  method HashBack(s: Bytes, from: nat) returns (h: uint32)
    requires from <= |s|
    ensures h == RevPoly(s[from..]) % M
  {
    hide Mul32, Add32;
    h := 0;
    assert RevPoly(s[|s|..]) == 0;
    var i := |s| - 1;
    while i >= from
      invariant from - 1 <= i < |s|
      invariant h == RevPoly(s[i + 1..]) % M
    {
      assert s[i..][1..] == s[i + 1..];
      HashStep(h, RevPoly(s[i + 1..]), s[i]);
      h := Add32(Mul32(h, PRIME_RK), s[i]);
      i := i - 1;
    }
  }

  /** The hash of s[..n], taken from the front. */
  method HashOn(s: Bytes, n: nat) returns (h: uint32)
    requires n <= |s|
    ensures h == Poly(s[..n]) % M
  {
    hide Mul32, Add32;
    h := 0;
    for i := 0 to n
      invariant h == Poly(s[..i]) % M
    {
      assert s[..i + 1][..i] == s[..i];
      HashStep(h, Poly(s[..i]), s[i]);
      h := Add32(Mul32(h, PRIME_RK), s[i]);
    }
  }

  // ----- LastIndex

  /** The greatest place of sep in s: its own hash at each place is compared before its bytes are. */
  method LastIndex(s: Bytes, sep: Bytes) returns (r: int)
    ensures IsLast(s, sep, r)
  {
    var n := |sep|;
    if n == 0 {
      return |s|;
    }
    if n == 1 {
      assert sep == [sep[0]];
      r := LastIndexByte(s, sep[0]);
      return;
    }
    if n == |s| {
      WholeMatch(s, sep);
      return if s == sep then 0 else -1;
    }
    if n > |s| {
      NoRoom(s, sep);
      return -1;
    }
    r := LastIndexRabinKarp(s, sep);
  }

  method LastIndexByte(s: Bytes, c: byte) returns (r: int)
    ensures IsLast(s, [c], r)
  {
    r := |s| - 1;
    while r >= 0
      invariant -1 <= r < |s|
      invariant forall i :: r < i ==> !MatchAt(s, [c], i)
    {
      if s[r] == c {
        assert s[r..r + 1] == [c];
        return;
      }
      assert s[r..r + 1][0] != c;
      r := r - 1;
    }
  }

  method LastIndexRabinKarp(s: Bytes, sep: Bytes) returns (r: int)
    requires 0 < |sep| < |s|
    ensures IsLast(s, sep, r)
  {
    hide RevPoly, Power, Mul32, Add32, Sub32;
    var n := |sep|;
    var hashss := HashBack(sep, 0);
    assert sep[0..] == sep;
    var pow := PowerRK(n);
    var last := |s| - n;
    var h := HashBack(s, last);
    assert s[last..] == s[last..last + n];
    if h == hashss && s[last..] == sep {
      return last;
    }
    assert !MatchAt(s, sep, last);
    var i := last - 1;
    while i >= 0
      invariant -1 <= i < last
      invariant h == RevPoly(s[i + 1..i + 1 + n]) % M
      invariant forall k :: i < k ==> !MatchAt(s, sep, k)
    {
      RollBack(s, i, n, h, pow);
      h := Mul32(h, PRIME_RK);
      h := Add32(h, s[i]);
      h := Sub32(h, Mul32(pow, s[i + n]));
      if h == hashss && s[i..i + n] == sep {
        return i;
      }
      assert !MatchAt(s, sep, i);
      i := i - 1;
    }
    return -1;
  }

  // ----- Index

  method IndexRabinKarp(s: Bytes, sep: Bytes) returns (r: int)
    requires |sep| <= |s|
    ensures IsFirst(s, sep, r)
  {
    hide Poly, Power, Mul32, Add32, Sub32;
    var n := |sep|;
    var hashsep := HashOn(sep, n);
    assert sep[..n] == sep;
    var pow := PowerRK(n);
    var h := HashOn(s, n);
    assert s[0..n] == s[..n];
    if h == hashsep && s[..n] == sep {
      return 0;
    }
    assert !MatchAt(s, sep, 0);
    var i := n;
    while i < |s|
      invariant n <= i <= |s|
      invariant h == Poly(s[i - n..i]) % M
      invariant forall k :: k <= i - n ==> !MatchAt(s, sep, k)
    {
      RollOn(s, i, n, h, pow);
      h := Mul32(h, PRIME_RK);
      h := Add32(h, s[i]);
      h := Sub32(h, Mul32(pow, s[i - n]));
      i := i + 1;
      if h == hashsep && s[i - n..i] == sep {
        return i - n;
      }
      assert !MatchAt(s, sep, i - n);
    }
    return -1;
  }

  /** A place found, or not found, in the rest of s is the one in s when there is none before. */
  lemma FirstInRest(s: Bytes, sep: Bytes, i: nat, r: int)
    requires i <= |s| && IsFirst(s[i..], sep, r)
    requires forall k :: k < i ==> !MatchAt(s, sep, k)
    ensures IsFirst(s, sep, if r == -1 then -1 else i + r)
  {
    forall k ensures MatchAt(s, sep, k) <==> k >= i && MatchAt(s[i..], sep, k - i) {
      if k >= i && k + |sep| <= |s| {
        assert s[i..][k - i..k - i + |sep|] == s[k..k + |sep|];
      }
    }
  }

  /** The next place from i on where a match can begin, or -1: it skips to the next byte c. */
  method Skip(s: Bytes, sep: Bytes, i: nat, t: nat) returns (j: int)
    requires |sep| >= 2 && i < t == |s| - |sep| + 1
    ensures j == -1 || (i <= j < t && s[j] == sep[0])
    ensures forall k :: i <= k && (j == -1 || k < j) ==> !MatchAt(s, sep, k)
  {
    if s[i] != sep[0] {
      var o := IndexByte(s[i + 1..t], sep[0]);
      forall k | i <= k && (o < 0 || k < i + 1 + o) ensures !MatchAt(s, sep, k) {
        if k < t {
          assert s[k] == s[k..k + |sep|][0];
          assert k == i || s[k] == s[i + 1..t][k - i - 1];
          assert o >= 0 && k > i ==> s[k] == s[i + 1..t][..o][k - i - 1];
        }
      }
      if o < 0 {
        return -1;
      }
      assert s[i + 1 + o] == s[i + 1..t][o];
      return i + o + 1;
    }
    return i;
  }

  /** The least place of sep in s.  The longest sep that the platform searches directly, the length up to which
      it searches s directly, and the number of misses it bears are parameters. */
  method Index(s: Bytes, sep: Bytes, maxLen: nat, maxBruteForce: nat, cutover: nat -> nat) returns (r: int)
    ensures IsFirst(s, sep, r)
  {
    var n := |sep|;
    if n == 0 {
      assert s[0..0] == sep;
      return 0;
    }
    if n == 1 {
      assert sep == [sep[0]];
      r := IndexOneByte(s, sep[0]);
      return;
    }
    if n == |s| {
      WholeMatch(s, sep);
      return if sep == s then 0 else -1;
    }
    if n > |s| {
      NoRoom(s, sep);
      return -1;
    }
    if n <= maxLen {
      if |s| <= maxBruteForce {
        r := IndexDirect(s, sep);
        return;
      }
      r := IndexShort(s, sep, cutover);
      return;
    }
    r := IndexLong(s, sep);
  }

  method IndexOneByte(s: Bytes, c: byte) returns (r: int)
    ensures IsFirst(s, [c], r)
  {
    r := IndexByte(s, c);
    assert forall i :: MatchAt(s, [c], i) ==> s[i] == s[i..i + 1][0];
    if r >= 0 {
      assert s[r..r + 1] == [c];
      assert forall i :: 0 <= i < r ==> s[i] == s[..r][i];
    }
  }

  /** What the platform's own search promises. */
  method IndexDirect(s: Bytes, sep: Bytes) returns (r: int)
    ensures IsFirst(s, sep, r)
  {
    r := 0;
    while r + |sep| <= |s|
      invariant 0 <= r && forall k :: 0 <= k < r ==> !MatchAt(s, sep, k)
    {
      if s[r..r + |sep|] == sep {
        return;
      }
      r := r + 1;
    }
    return -1;
  }

  /** Goes from one first byte to the next, and gives up on that after too many misses. */
  method IndexShort(s: Bytes, sep: Bytes, cutover: nat -> nat) returns (r: int)
    requires 2 <= |sep| < |s|
    ensures IsFirst(s, sep, r)
  {
    var n := |sep|;
    var i, fails := 0, 0;
    var t := |s| - n + 1;
    while i < t
      invariant 0 <= i <= t && 0 <= fails
      invariant forall k :: k < i ==> !MatchAt(s, sep, k)
    {
      var j := Skip(s, sep, i, t);
      if j < 0 {
        return -1;
      }
      i := j;
      if s[i + 1] == sep[1] && s[i..i + n] == sep {
        return i;
      }
      SecondByteDiffers(s, sep, i);
      fails := fails + 1;
      i := i + 1;
      if fails > cutover(i) {
        r := IndexDirect(s[i..], sep);
        FirstInRest(s, sep, i, r);
        return if r >= 0 then r + i else -1;
      }
    }
    return -1;
  }

  lemma SecondByteDiffers(s: Bytes, sep: Bytes, i: nat)
    requires |sep| >= 2 && i + |sep| <= |s|
    requires !(s[i + 1] == sep[1] && s[i..i + |sep|] == sep)
    ensures !MatchAt(s, sep, i)
  {
    assert s[i + 1] == s[i..i + |sep|][1];
  }

  /** The same for a long sep, giving up in favour of rolling hashes. */
  method IndexLong(s: Bytes, sep: Bytes) returns (r: int)
    requires 2 <= |sep| < |s|
    ensures IsFirst(s, sep, r)
  {
    var n := |sep|;
    var i, fails := 0, 0;
    var t := |s| - n + 1;
    while i < t
      invariant 0 <= i <= t && 0 <= fails
      invariant forall k :: k < i ==> !MatchAt(s, sep, k)
    {
      var next := Skip(s, sep, i, t);
      if next < 0 {
        return -1;
      }
      i := next;
      if s[i + 1] == sep[1] && s[i..i + n] == sep {
        return i;
      }
      SecondByteDiffers(s, sep, i);
      i := i + 1;
      fails := fails + 1;
      if fails >= 4 + i / 16 && i < t {
        var j := IndexRabinKarp(s[i..], sep);
        FirstInRest(s, sep, i, j);
        return if j < 0 then -1 else i + j;
      }
    }
    return -1;
  }
}
