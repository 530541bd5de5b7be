/** UTF-8 as src/unicode/utf8/utf8.go reads and writes it (section 4 of RFC 3629). */
module Utf8 {
  import opened Basics

  const RUNE_ERROR := 0xFFFD
  const RUNE_SELF := 0x80
  const MAX_RUNE := 0x10FFFF
  const UTF_MAX := 4

  /** A code point that has an encoding. */
  predicate IsScalar(r: int) {
    0 <= r <= MAX_RUNE && !(0xD800 <= r <= 0xDFFF)
  }

  /** What a first byte announces: the size of the encoding and the range of the second byte. */
  datatype First = Ascii | Invalid | Lead(size: nat, lo: byte, hi: byte)

  function FirstOf(b: byte): First {
    if b < 0x80 then Ascii
    else if b < 0xC2 then Invalid
    else if b < 0xE0 then Lead(2, 0x80, 0xBF)
    else if b == 0xE0 then Lead(3, 0xA0, 0xBF)
    else if b == 0xED then Lead(3, 0x80, 0x9F)
    else if b < 0xF0 then Lead(3, 0x80, 0xBF)
    else if b == 0xF0 then Lead(4, 0x90, 0xBF)
    else if b < 0xF4 then Lead(4, 0x80, 0xBF)
    else if b == 0xF4 then Lead(4, 0x80, 0x8F)
    else Invalid
  }

  predicate IsContinuation(b: byte) {
    0x80 <= b <= 0xBF
  }

  /** Six-bit fields put together. */
  function Bits2(x: nat, y: nat): nat {
    x * 0x40 + y
  }

  function Bits3(x: nat, y: nat, z: nat): nat {
    x * 0x1000 + y * 0x40 + z
  }

  function Bits4(w: nat, x: nat, y: nat, z: nat): nat {
    w * 0x40000 + x * 0x1000 + y * 0x40 + z
  }

  /** The bits of the first two bytes settle that the rune is a code point. */
  lemma LeadFields(b: byte, c: byte)
    ensures match FirstOf(b)
      case Lead(size, lo, hi) =>
        lo <= c <= hi ==>
          && (size == 2 ==> 2 <= b % 32)
          && (size == 3 ==> var x := b % 16 * 0x1000 + c % 64 * 0x40; 0x800 <= x <= 0xFFC0 && (x < 0xD800 || x > 0xDFFF))
          && (size == 4 ==> var x := b % 8 * 0x40000 + c % 64 * 0x1000; 0x10000 <= x <= 0x10F000)
      case _ => true
  {
  }

  /** The rune at the start of p and its size: (RUNE_ERROR, 0) for none, (RUNE_ERROR, 1) for a bad byte. */
  function DecodeRune(p: Bytes): (r: (int, nat))
    ensures r.1 <= |p| && (p != [] ==> 1 <= r.1 <= UTF_MAX)
    ensures IsScalar(r.0)
  {
    if p == [] then (RUNE_ERROR, 0)
    else match FirstOf(p[0])
      case Ascii => (p[0], 1)
      case Invalid => (RUNE_ERROR, 1)
      case Lead(size, lo, hi) =>
        if |p| < size || !(lo <= p[1] <= hi) then (RUNE_ERROR, 1)
        else (
          LeadFields(p[0], p[1]);
          if size == 2 then (Bits2(p[0] % 32, p[1] % 64), 2)
          else if !IsContinuation(p[2]) then (RUNE_ERROR, 1)
          else if size == 3 then (Bits3(p[0] % 16, p[1] % 64, p[2] % 64), 3)
          else if !IsContinuation(p[3]) then (RUNE_ERROR, 1)
          else (Bits4(p[0] % 8, p[1] % 64, p[2] % 64, p[3] % 64), 4)
        )
  }

  /** The continuation byte that carries the low six bits of r. */
  function Tail(r: nat): (b: byte)
    ensures IsContinuation(b) && b % 0x40 == r % 0x40
  {
    0x80 + r % 0x40
  }

  /** The encoding of r; anything without one is written as RUNE_ERROR. */
  function EncodeRune(r: int): (p: Bytes)
    ensures 1 <= |p| <= UTF_MAX
  {
    if 0 <= r <= 0x7F then [r]
    else if 0 <= r <= 0x7FF then [0xC0 + r / 0x40, Tail(r)]
    else if !IsScalar(r) then [0xEF, 0xBF, 0xBD]
    else if r <= 0xFFFF then [0xE0 + r / 0x1000, Tail(r / 0x40), Tail(r)]
    else [0xF0 + r / 0x40000, Tail(r / 0x1000), Tail(r / 0x40), Tail(r)]
  }

  /** The number of bytes of r's encoding, or -1. */
  function RuneLen(r: int): int {
    if !IsScalar(r) then -1
    else if r <= 0x7F then 1
    else if r <= 0x7FF then 2
    else if r <= 0xFFFF then 3
    else 4
  }

  /** Whether p begins with a whole rune, a bad byte counting as one. */
  predicate FullRune(p: Bytes) {
    p != [] &&
    match FirstOf(p[0])
    case Lead(size, lo, hi) =>
      || |p| >= size
      || (|p| > 1 && !(lo <= p[1] <= hi))
      || (|p| > 2 && !IsContinuation(p[2]))
    case _ => true
  }

  lemma SixBits(x: nat, y: nat)
    requires y < 64
    ensures Bits2(x, y) / 0x40 == x && Bits2(x, y) % 0x40 == y
  {
  }

  lemma SplitThree(x: nat, y: nat, z: nat)
    requires y < 64 && z < 64
    ensures var r := Bits3(x, y, z);
      r / 0x1000 == x && r / 0x40 % 0x40 == y && r % 0x40 == z
  {
    SixBits(Bits2(x, y), z);
    SixBits(x, y);
    var r := Bits3(x, y, z);
    assert r / 0x1000 == r / 0x40 / 0x40;
  }

  lemma SplitFour(w: nat, x: nat, y: nat, z: nat)
    requires x < 64 && y < 64 && z < 64
    ensures var r := Bits4(w, x, y, z);
      r / 0x40000 == w && r / 0x1000 % 0x40 == x && r / 0x40 % 0x40 == y && r % 0x40 == z
  {
    SplitThree(Bits2(w, x), y, z);
    SixBits(w, x);
    var r := Bits4(w, x, y, z);
    assert r / 0x40000 == r / 0x1000 / 0x40;
  }

  lemma JoinFields(r: nat)
    requires r <= MAX_RUNE
    ensures Bits2(r / 0x40, r % 0x40) == r
    ensures Bits3(r / 0x1000, r / 0x40 % 0x40, r % 0x40) == r
    ensures Bits4(r / 0x40000, r / 0x1000 % 0x40, r / 0x40 % 0x40, r % 0x40) == r
  {
    var q, s, t := r / 0x40, r / 0x1000, r / 0x40000;
    assert s == q / 0x40 && t == s / 0x40;
  }

  lemma TwoBytes(x: nat, y: nat)
    requires 2 <= x < 32 && y < 64
    ensures IsScalar(Bits2(x, y)) && EncodeRune(Bits2(x, y)) == [0xC0 + x, 0x80 + y]
  {
    SixBits(x, y);
  }

  lemma ThreeBytes(x: nat, y: nat, z: nat)
    requires x < 16 && y < 64 && z < 64 && (x == 0 ==> 32 <= y) && (x == 13 ==> y < 32)
    ensures IsScalar(Bits3(x, y, z)) && EncodeRune(Bits3(x, y, z)) == [0xE0 + x, 0x80 + y, 0x80 + z]
  {
    SplitThree(x, y, z);
  }

  lemma FourBytes(w: nat, x: nat, y: nat, z: nat)
    requires w < 5 && x < 64 && y < 64 && z < 64 && (w == 0 ==> 16 <= x) && (w == 4 ==> x < 16)
    ensures IsScalar(Bits4(w, x, y, z)) && EncodeRune(Bits4(w, x, y, z)) == [0xF0 + w, 0x80 + x, 0x80 + y, 0x80 + z]
  {
    SplitFour(w, x, y, z);
  }

  lemma DecodeAscii(p: Bytes)
    requires p != [] && p[0] < RUNE_SELF
    ensures DecodeRune(p) == (p[0], 1)
  {
  }

  lemma DecodeTwo(p: Bytes, x: nat, y: nat)
    requires 2 <= x < 32 && y < 64
    requires |p| >= 2 && p[0] == 0xC0 + x && p[1] == 0x80 + y
    ensures DecodeRune(p) == (Bits2(x, y), 2)
  {
    hide Bits2;
  }

  lemma DecodeThree(p: Bytes, x: nat, y: nat, z: nat)
    requires x < 16 && y < 64 && z < 64 && (x == 0 ==> 32 <= y) && (x == 13 ==> y < 32)
    requires |p| >= 3 && p[0] == 0xE0 + x && p[1] == 0x80 + y && p[2] == 0x80 + z
    ensures DecodeRune(p) == (Bits3(x, y, z), 3)
  {
    hide Bits3;
  }

  lemma DecodeFour(p: Bytes, w: nat, x: nat, y: nat, z: nat)
    requires w < 5 && x < 64 && y < 64 && z < 64 && (w == 0 ==> 16 <= x) && (w == 4 ==> x < 16)
    requires |p| >= 4 && p[0] == 0xF0 + w && p[1] == 0x80 + x && p[2] == 0x80 + y && p[3] == 0x80 + z
    ensures DecodeRune(p) == (Bits4(w, x, y, z), 4)
  {
    hide Bits4;
  }

  /** Every code point is read back from its encoding, whatever follows. */
  lemma EncodeThenDecode(r: int, rest: Bytes)
    requires IsScalar(r)
    ensures DecodeRune(EncodeRune(r) + rest) == (r, |EncodeRune(r)|)
    ensures |EncodeRune(r)| == RuneLen(r)
  {
    hide Bits2, Bits3, Bits4, EncodeRune, DecodeRune;
    var p := EncodeRune(r) + rest;
    JoinFields(r);
    if r <= 0x7F {
      EncodeAscii(r);
      DecodeAscii(p);
    } else if r <= 0x7FF {
      var x, y := r / 0x40, r % 0x40;
      TwoBytes(x, y);
      DecodeTwo(p, x, y);
    } else if r <= 0xFFFF {
      var x, y, z := r / 0x1000, r / 0x40 % 0x40, r % 0x40;
      LeadThree(r);
      ThreeBytes(x, y, z);
      DecodeThree(p, x, y, z);
    } else {
      var w, x, y, z := r / 0x40000, r / 0x1000 % 0x40, r / 0x40 % 0x40, r % 0x40;
      LeadFour(r);
      FourBytes(w, x, y, z);
      DecodeFour(p, w, x, y, z);
    }
  }

  lemma LeadThree(r: nat)
    requires 0x800 <= r <= 0xFFFF && IsScalar(r)
    ensures var x, y := r / 0x1000, r / 0x40 % 0x40;
      x < 16 && (x == 0 ==> 32 <= y) && (x == 13 ==> y < 32)
  {
    var q := r / 0x40;
    assert r / 0x1000 == q / 0x40;
  }

  lemma LeadFour(r: nat)
    requires 0x10000 <= r <= MAX_RUNE
    ensures var w, x := r / 0x40000, r / 0x1000 % 0x40;
      w < 5 && (w == 0 ==> 16 <= x) && (w == 4 ==> x < 16)
  {
    var q := r / 0x1000;
    assert r / 0x40000 == q / 0x40;
  }

  /** A code point has one encoding: what decodes as a rune is that rune's encoding, unless it is a bad byte. */
  lemma DecodeThenEncode(p: Bytes)
    requires p != [] && DecodeRune(p) != (RUNE_ERROR, 1)
    ensures EncodeRune(DecodeRune(p).0) == p[..DecodeRune(p).1]
  {
    hide Bits2, Bits3, Bits4, EncodeRune;
    var (r, size) := DecodeRune(p);
    if size == 1 {
      EncodeAscii(r);
    } else if size == 2 {
      TwoBytes(p[0] % 32, p[1] % 64);
    } else if size == 3 {
      ThreeBytes(p[0] % 16, p[1] % 64, p[2] % 64);
    } else {
      FourBytes(p[0] % 8, p[1] % 64, p[2] % 64, p[3] % 64);
    }
  }

  /** What is no code point is written as U+FFFD. */
  lemma NoScalarEncodes(r: int)
    requires !(0 <= r < 0xD800) && !(0xDFFF < r <= 0x10FFFF)
    ensures EncodeRune(r) == EncodeRune(0xFFFD) == [0xEF, 0xBF, 0xBD]
  {
    hide Tail;
  }

  lemma EncodeAscii(r: int)
    requires 0 <= r < RUNE_SELF
    ensures EncodeRune(r) == [r]
  {
  }

  /** A rune is whole exactly when no further input can change how it is read. */
  lemma FullRuneMeansDecided(p: Bytes)
    requires p != []
    ensures FullRune(p) <==> forall more :: DecodeRune(p + more) == DecodeRune(p)
  {
    if FullRune(p) {
      forall more ensures DecodeRune(p + more) == DecodeRune(p) {
        FullRuneStays(p, more);
      }
    } else {
      var first := FirstOf(p[0]);
      var more := if |p| == 1 then [first.lo, 0x80, 0x80] else [0x80, 0x80];
      assert DecodeRune(p + more).1 == first.size;
    }
  }

  lemma FullRuneStays(p: Bytes, more: Bytes)
    requires FullRune(p)
    ensures DecodeRune(p + more) == DecodeRune(p)
  {
  }

  /** An unfinished rune is a lead byte and continuation bytes, fewer than the lead byte announces. */
  lemma UnfinishedRune(p: Bytes)
    requires p != [] && !FullRune(p)
    ensures |p| < UTF_MAX
    ensures forall i :: 1 <= i < |p| ==> IsContinuation(p[i])
    ensures DecodeRune(p) == (RUNE_ERROR, 1)
  {
  }

  lemma FourBytesAreFull(p: Bytes)
    requires |p| >= UTF_MAX
    ensures FullRune(p)
  {
  }

  /** The runes of a whole string, one RUNE_ERROR for each bad byte. */
  function Runes(s: Bytes): seq<int> {
    if s == [] then []
    else var (r, size) := DecodeRune(s); [r] + Runes(s[size..])
  }
}
