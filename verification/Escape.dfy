/** HTML escaping, and unescaping in place over a byte slice, as in
    src/html/escape.go.  The tables of named entities are a parameter. */
module Escape {
  import opened Basics
  import Utf8
  import MediaType

  const AMP: byte := '&' as int
  const HASH: byte := '#' as int
  const SEMICOLON: byte := ';' as int
  const APOSTROPHE: byte := '\'' as int
  const QUOTE: byte := '"' as int
  const LESS: byte := '<' as int
  const GREATER: byte := '>' as int

  const LONGEST_WITHOUT_SEMICOLON := 6

  // ----- named entities

  /** Names, without the ampersand and with any semicolon, to one rune or to two. */
  datatype Tables = Tables(entity: map<Bytes, int>, entity2: map<Bytes, (int, int)>)
  {
    /** The text of a one-rune entity; a zero rune stands for a missing name. */
    function One(name: Bytes): Option<Bytes> {
      if name in entity && entity[name] != 0 then Some(Utf8.EncodeRune(entity[name])) else None
    }

    function Two(name: Bytes): Option<Bytes> {
      if name in entity2 && entity2[name].0 != 0 then
        Some(Utf8.EncodeRune(entity2[name].0) + Utf8.EncodeRune(entity2[name].1))
      else None
    }

    /** No text is wider than the ampersand and the name it replaces. */
    ghost predicate Narrow() {
      && (forall name :: One(name).Some? ==> |One(name).value| <= 1 + |name|)
      && (forall name :: Two(name).Some? ==> |Two(name).value| <= 1 + |name|)
    }

    /** The names that EscapeString relies on. */
    predicate HasBasic() {
      && AMP_NAME in entity && entity[AMP_NAME] == AMP
      && LT_NAME in entity && entity[LT_NAME] == LESS
      && GT_NAME in entity && entity[GT_NAME] == GREATER
    }
  }

  /** amp; lt; gt; */
  const AMP_NAME: Bytes := [97, 109, 112, SEMICOLON]
  const LT_NAME: Bytes := [108, 116, SEMICOLON]
  const GT_NAME: Bytes := [103, 116, SEMICOLON]

  predicate IsNameChar(c: byte) {
    'a' as int <= c <= 'z' as int || 'A' as int <= c <= 'Z' as int || '0' as int <= c <= '9' as int
  }

  /** Where the name that contains or ends at i stops: past the letters and digits and one semicolon. */
  function NameEnd(s: Bytes, i: nat): (e: nat)
    requires i <= |s|
    ensures i <= e <= |s|
    decreases |s| - i
  {
    if i == |s| then i
    else if IsNameChar(s[i]) then NameEnd(s, i + 1)
    else if s[i] == SEMICOLON then i + 1
    else i
  }

  /** The longest prefix of a name, of j bytes at most and two at least, that is an entity. */
  function LongestPrefix(t: Tables, name: Bytes, j: nat): (k: nat)
    requires j <= |name|
    ensures k <= j
    ensures k > 0 ==> t.One(name[..k]).Some?
  {
    if j <= 1 then 0
    else if t.One(name[..j]).Some? then j
    else LongestPrefix(t, name, j - 1)
  }

  function PrefixLimit(name: Bytes): nat
    requires name != []
  {
    if |name| - 1 > LONGEST_WITHOUT_SEMICOLON then LONGEST_WITHOUT_SEMICOLON else |name| - 1
  }

  /** The text for a named reference at the start of s and the bytes it takes. */
  function Named(t: Tables, s: Bytes): (r: (Bytes, nat))
    requires s != []
    ensures 1 <= r.1 <= |s|
  {
    var i := NameEnd(s, 1);
    var name := s[1..i];
    if name == [] then (s[..i], i)
    else if t.One(name).Some? then (t.One(name).value, i)
    else if t.Two(name).Some? then (t.Two(name).value, i)
    else
      var j := LongestPrefix(t, name, PrefixLimit(name));
      if j > 0 then (t.One(name[..j]).value, j + 1) else (s[..i], i)
  }

  // ----- numeric references

  /** A sum taken in 32 bits, two's complement. */
  function Int32(x: int): (r: int)
    ensures -0x8000_0000 <= r < 0x8000_0000
  {
    (x + 0x8000_0000) % 0x1_0000_0000 - 0x8000_0000
  }

  function Digit(c: byte, hex: bool): Option<nat> {
    if '0' as int <= c <= '9' as int then Some(c - '0' as int)
    else if hex && 'a' as int <= c <= 'f' as int then Some(c - 'a' as int + 10)
    else if hex && 'A' as int <= c <= 'F' as int then Some(c - 'A' as int + 10)
    else None
  }

  /** The number whose digits go on at i, x so far, and where it stops, past one semicolon. */
  function Number(s: Bytes, i: nat, hex: bool, x: int): (r: (int, nat))
    requires i <= |s|
    ensures i <= r.1 <= |s|
    decreases |s| - i
  {
    if i == |s| then (x, i)
    else if Digit(s[i], hex).Some? then
      Number(s, i + 1, hex, Int32((if hex then 16 else 10) * x + Digit(s[i], hex).value))
    else if s[i] == SEMICOLON then (x, i + 1)
    else (x, i)
  }

  /** The runes meant by 0x80 to 0x9F, which old pages take from Windows-1252. */
  const REPLACEMENT_TABLE: seq<int> := [
    0x20AC, 0x0081, 0x201A, 0x0192, 0x201E, 0x2026, 0x2020, 0x2021,
    0x02C6, 0x2030, 0x0160, 0x2039, 0x0152, 0x008D, 0x017D, 0x008F,
    0x0090, 0x2018, 0x2019, 0x201C, 0x201D, 0x2022, 0x2013, 0x2014,
    0x02DC, 0x2122, 0x0161, 0x203A, 0x0153, 0x009D, 0x017E, 0x0178]

  function Replace(x: int): int {
    if 0x80 <= x <= 0x9F then REPLACEMENT_TABLE[x - 0x80]
    else if x == 0 || 0xD800 <= x <= 0xDFFF || x > 0x10FFFF then Utf8.RUNE_ERROR
    else x
  }

  function Numeric(s: Bytes): (r: (Bytes, nat))
    requires |s| > 1
    ensures 1 <= r.1 <= |s|
  {
    if |s| <= 3 then ([s[0]], 1)
    else
      var hex := s[2] == 'x' as int || s[2] == 'X' as int;
      var (x, i) := Number(s, if hex then 3 else 2, hex, 0);
      if i <= 3 then ([s[0]], 1) else (Utf8.EncodeRune(Replace(x)), i)
  }

  // ----- what unescaping means

  /** The text for the reference at the start of s, which begins with an ampersand, and the bytes it takes. */
  function Entity(t: Tables, s: Bytes): (r: (Bytes, nat))
    requires s != []
    ensures 1 <= r.1 <= |s|
  {
    if |s| == 1 then ([s[0]], 1)
    else if s[1] == HASH then Numeric(s)
    else Named(t, s)
  }

  function Unescape(t: Tables, s: Bytes): Bytes
    decreases |s|
  {
    if s == [] then []
    else if s[0] != AMP then [s[0]] + Unescape(t, s[1..])
    else var (text, n) := Entity(t, s); text + Unescape(t, s[n..])
  }

  /** With narrow tables no text is wider than the reference it replaces. */
  lemma EntityFits(t: Tables, s: Bytes)
    requires s != [] && t.Narrow()
    ensures var (text, n) := Entity(t, s); |text| <= n
  {
    hide Number, Replace;
  }

  /** A wide entry breaks this: its reference alone is shorter than its text. */
  lemma WideOverruns(t: Tables, name: Bytes)
    requires name != [] && t.One(name).Some? && |t.One(name).value| > 1 + |name|
    requires NameEnd([AMP] + name, 1) == |name| + 1 && name[0] != HASH
    ensures var (text, n) := Entity(t, [AMP] + name); |text| > n
  {
    assert ([AMP] + name)[1..|name| + 1] == name;
  }

  // ----- named references by what follows the ampersand

  ghost predicate LettersAndDigits(s: Bytes) {
    forall k :: 0 <= k < |s| ==>
      'a' as int <= s[k] <= 'z' as int || 'A' as int <= s[k] <= 'Z' as int || '0' as int <= s[k] <= '9' as int
  }

  /** The name that stands after an ampersand if rest comes after it: as many letters and digits as there are,
      and one semicolon if it is there. */
  ghost predicate IsName(name: Bytes, rest: Bytes) {
    || (name != [] && name[|name| - 1] == ';' as int && LettersAndDigits(name[..|name| - 1]))
    || (LettersAndDigits(name) && (rest != [] ==> rest[0] != ';' as int && !LettersAndDigits(rest[..1])))
  }

  ghost predicate InEntity(t: Tables, name: Bytes) {
    name in t.entity && t.entity[name] != 0
  }

  ghost predicate InEntity2(t: Tables, name: Bytes) {
    name in t.entity2 && t.entity2[name].0 != 0
  }

  /** A part of name that may be read in its place: of two bytes at least and six at most, and not all of it. */
  ghost predicate ShorterEntity(t: Tables, name: Bytes, j: nat) {
    2 <= j <= 6 && j < |name| && InEntity(t, name[..j])
  }

  /** The length of name is found again whatever comes after it. */
  lemma {:induction false} NameIsFound(s: Bytes, i: nat, name: Bytes, rest: Bytes)
    requires i <= |s| && s[i..] == name + rest && IsName(name, rest)
    ensures NameEnd(s, i) == i + |name|
    decreases |name|
  {
    if name == [] {
      assert rest != [] ==> s[i] == s[i..][0] == rest[0] == rest[..1][0];
    } else {
      assert s[i] == s[i..][0] == name[0];
      assert s[i + 1..] == s[i..][1..] == name[1..] + rest;
      if |name| > 1 || name[0] != SEMICOLON {
        assert name[|name| - 1] == SEMICOLON ==> name[..|name| - 1][0] == name[0];
        assert |name| > 1 ==> name[1..][|name| - 2] == name[|name| - 1];
        assert |name| > 1 ==> name[1..][..|name| - 2] == name[..|name| - 1][1..];
        NameIsFound(s, i + 1, name[1..], rest);
      }
    }
  }

  /** After every ampersand there is such a name, perhaps an empty one. */
  lemma {:induction false} NameIsThere(s: Bytes) returns (e: nat)
    ensures e <= |s| && IsName(s[..e], s[e..])
  {
    e := 0;
    if s == [] {
    } else if s[0] == SEMICOLON {
      e := 1;
      assert s[..1][..0] == [];
    } else if LettersAndDigits(s[..1]) {
      var e1 := NameIsThere(s[1..]);
      e := e1 + 1;
      assert s[..1][0] == s[0];
      assert s[1..][..e1] == s[..e][1..] && s[1..][e1..] == s[e..];
      assert e1 > 0 ==> s[1..][..e1][e1 - 1] == s[..e][e - 1];
      assert e1 > 0 ==> s[1..][..e1][..e1 - 1] == s[..e][..e - 1][1..];
    } else {
      assert s[0..][..1] == s[..1];
      assert s[..0] == [] && s[0..] == s;
    }
  }

  /** The longest prefix that will do is the one that is tried first. */
  lemma {:induction false} LongestIsFound(t: Tables, name: Bytes, m: nat, j: nat)
    requires m <= |name| && m <= 6
    requires ShorterEntity(t, name, j) && j <= m
    requires forall k :: j < k <= m ==> !InEntity(t, name[..k])
    ensures LongestPrefix(t, name, m) == j
  {
    if j < m {
      LongestIsFound(t, name, m - 1, j);
    }
  }

  lemma {:induction false} NoneIsFound(t: Tables, name: Bytes, m: nat)
    requires m <= |name|
    requires forall k :: 2 <= k <= m ==> !InEntity(t, name[..k])
    ensures LongestPrefix(t, name, m) == 0
  {
    if m > 1 {
      NoneIsFound(t, name, m - 1);
    }
  }

  /** A name in one of the tables is replaced by its rune, or by its two runes in order. */
  lemma NameInTable(t: Tables, name: Bytes, rest: Bytes)
    requires name != [] && IsName(name, rest)
    ensures InEntity(t, name) ==>
      Unescape(t, [AMP] + name + rest) == Utf8.EncodeRune(t.entity[name]) + Unescape(t, rest)
    ensures !InEntity(t, name) && InEntity2(t, name) ==>
      Unescape(t, [AMP] + name + rest) ==
        Utf8.EncodeRune(t.entity2[name].0) + Utf8.EncodeRune(t.entity2[name].1) + Unescape(t, rest)
  {
    hide NameEnd, LongestPrefix, Utf8.EncodeRune;
    NameSplits(name, rest);
  }

  /** The reference as the unescaping sees it. */
  lemma NameSplits(name: Bytes, rest: Bytes)
    requires IsName(name, rest)
    ensures var s := [AMP] + name + rest;
      && NameEnd(s, 1) == 1 + |name| && s[1..1 + |name|] == name && s[1 + |name|..] == rest
      && (name != [] ==> |s| > 1 && s[1] != HASH)
  {
    var s := [AMP] + name + rest;
    assert s[1..] == name + rest;
    NameIsFound(s, 1, name, rest);
    if name != [] {
      assert s[1] == name[0];
      assert |name| > 1 && name[|name| - 1] == SEMICOLON ==> name[..|name| - 1][0] == name[0];
    }
  }

  /** A name in neither table: the longest of its parts that is an entity is replaced and the rest of the name
      follows as it is; with no such part all of it stays. */
  lemma NameNotInTable(t: Tables, name: Bytes, rest: Bytes)
    requires name != [] && IsName(name, rest) && !InEntity(t, name) && !InEntity2(t, name)
    ensures forall j: nat :: ShorterEntity(t, name, j) && (forall k: nat :: k > j ==> !ShorterEntity(t, name, k)) ==>
      Unescape(t, [AMP] + name + rest) == Utf8.EncodeRune(t.entity[name[..j]]) + name[j..] + Unescape(t, rest)
    ensures (forall j: nat :: !ShorterEntity(t, name, j)) ==>
      Unescape(t, [AMP] + name + rest) == [AMP] + name + Unescape(t, rest)
  {
    hide Unescape, Utf8.EncodeRune, LettersAndDigits;
    forall j: nat | ShorterEntity(t, name, j) && forall k: nat :: k > j ==> !ShorterEntity(t, name, k)
      ensures Unescape(t, [AMP] + name + rest) == Utf8.EncodeRune(t.entity[name[..j]]) + name[j..] + Unescape(t, rest)
    {
      PartInTable(t, name, rest, j);
    }
    if forall j: nat :: !ShorterEntity(t, name, j) {
      NameStays(t, name, rest);
    }
  }

  lemma PartInTable(t: Tables, name: Bytes, rest: Bytes, j: nat)
    requires name != [] && IsName(name, rest) && !InEntity(t, name) && !InEntity2(t, name)
    requires ShorterEntity(t, name, j) && forall k: nat :: k > j ==> !ShorterEntity(t, name, k)
    ensures Unescape(t, [AMP] + name + rest) == Utf8.EncodeRune(t.entity[name[..j]]) + name[j..] + Unescape(t, rest)
  {
    hide NameEnd, LongestPrefix, Utf8.EncodeRune, LettersAndDigits;
    var s := [AMP] + name + rest;
    NameSplits(name, rest);
    forall k | j < k <= PrefixLimit(name) ensures !InEntity(t, name[..k]) {
      assert !ShorterEntity(t, name, k);
    }
    LongestIsFound(t, name, PrefixLimit(name), j);
    assert s[j + 1..] == name[j..] + rest;
    NamesAreRead(t, name, rest, j);
    var text := Utf8.EncodeRune(t.entity[name[..j]]);
    assert text + (name[j..] + Unescape(t, rest)) == text + name[j..] + Unescape(t, rest);
  }

  lemma NameStays(t: Tables, name: Bytes, rest: Bytes)
    requires IsName(name, rest) && (name == [] && rest != [] ==> rest[0] != HASH)
    requires name != [] ==> !InEntity(t, name) && !InEntity2(t, name) && forall j: nat :: !ShorterEntity(t, name, j)
    ensures Unescape(t, [AMP] + name + rest) == [AMP] + name + Unescape(t, rest)
  {
    hide NameEnd, LongestPrefix, LettersAndDigits;
    var s := [AMP] + name + rest;
    NameSplits(name, rest);
    if name != [] {
      forall k | 2 <= k <= PrefixLimit(name) ensures !InEntity(t, name[..k]) {
        assert !ShorterEntity(t, name, k);
      }
      NoneIsFound(t, name, PrefixLimit(name));
    } else {
      assert rest != [] ==> s[1] == rest[0];
    }
    assert s[..1 + |name|] == [AMP] + name;
  }

  /** An ampersand before anything else stays. */
  lemma AmpersandStays(t: Tables, rest: Bytes)
    requires IsName([], rest) && (rest != [] ==> rest[0] != '#' as int)
    ensures Unescape(t, [AMP] + rest) == [AMP] + Unescape(t, rest)
  {
    hide Unescape;
    NameStays(t, [], rest);
    assert [AMP] + [] + rest == [AMP] + rest && [AMP] + [] == [AMP];
  }

  /** What a part of a name leaves has no ampersand in it. */
  lemma NamesAreRead(t: Tables, name: Bytes, rest: Bytes, j: nat)
    requires IsName(name, rest) && j <= |name|
    ensures Unescape(t, name[j..] + rest) == name[j..] + Unescape(t, rest)
  {
    hide Unescape;
    var s := name[j..] + rest;
    assert s[..|name| - j] == name[j..] && s[|name| - j..] == rest;
    forall k | 0 <= k < |name| - j ensures s[k] != AMP {
      assert s[k] == name[j + k];
      assert j + k < |name| - 1 ==> name[..|name| - 1][j + k] == name[j + k];
    }
    UnescapePlain(t, s, |name| - j);
  }

  // ----- unescaping in place

  method WriteRune(b: array<byte>, at: nat, r: int) returns (n: nat)
    requires at + |Utf8.EncodeRune(r)| <= b.Length
    modifies b
    ensures n == |Utf8.EncodeRune(r)|
    ensures b[..][..at] == old(b[..])[..at]
    ensures b[..][at..at + n] == Utf8.EncodeRune(r)
    ensures b[..][at + n..] == old(b[..])[at + n..]
  {
    var p := Utf8.EncodeRune(r);
    n := |p|;
    for k := 0 to n
      invariant b[..at] == old(b[..at])
      invariant b[at..at + k] == p[..k]
      invariant b[at + n..] == old(b[at + n..])
    {
      b[at + k] := p[k];
    }
  }

  /** What one reference does to the slice: its text follows what is done, and the input after it is untouched. */
  predicate Advanced(before: Bytes, after: Bytes, dst: nat, text: Bytes, dst1: nat, src1: nat) {
    && dst <= dst1 == dst + |text| <= src1 <= |before| == |after|
    && after[..dst1] == before[..dst] + text
    && after[src1..] == before[src1..]
  }

  /** Moves n bytes towards the front, which may overlap what they were. */
  method CopyWithin(b: array<byte>, dst: nat, src: nat, n: nat)
    requires dst <= src && src + n <= b.Length
    modifies b
    ensures Advanced(old(b[..]), b[..], dst, old(b[src..])[..n], dst + n, src + n)
  {
    ghost var before := b[..];
    for k := 0 to n
      invariant b[..dst + k] == before[..dst] + before[src..src + k]
      invariant b[src + k..] == before[src + k..]
    {
      ghost var done := b[..dst + k];
      assert b[src + k] == b[src + k..][0];
      assert before[src + k] == before[src + k..][0];
      b[dst + k] := b[src + k];
      assert b[..dst + k + 1] == done + [before[src + k]];
      assert before[src..src + k + 1] == before[src..src + k] + [before[src + k]];
      assert b[src + k + 1..] == before[src + k..][1..];
    }
    assert before[src..src + n] == before[src..][..n];
  }

  /** No reference: the ampersand stands for itself. */
  method KeepByte(b: array<byte>, dst: nat, src: nat) returns (dst1: nat, src1: nat)
    requires dst <= src < b.Length
    modifies b
    ensures src1 == src + 1 && Advanced(old(b[..]), b[..], dst, [old(b[src])], dst1, src1)
  {
    b[dst] := b[src];
    dst1, src1 := dst + 1, src + 1;
  }

  method ScanNumber(b: array<byte>, src: nat, start: nat, hex: bool) returns (x: int, i: nat)
    requires src + start <= b.Length
    ensures (x, i) == Number(b[src..], start, hex, 0)
  {
    var len := b.Length - src;
    x, i := 0, start;
    while i < len
      invariant i <= len
      invariant Number(b[src..], i, hex, x) == Number(b[src..], start, hex, 0)
    {
      var c := b[src + i];
      i := i + 1;
      var digit := Digit(c, hex);
      if digit.Some? {
        x := Int32((if hex then 16 else 10) * x + digit.value);
        continue;
      }
      if c != SEMICOLON {
        i := i - 1;
      }
      break;
    }
  }

  method UnescapeNumeric(b: array<byte>, dst: nat, src: nat) returns (dst1: nat, src1: nat)
    requires dst <= src && src + 1 < b.Length
    modifies b
    ensures src1 == src + Numeric(old(b[src..])).1
    ensures Advanced(old(b[..]), b[..], dst, Numeric(old(b[src..])).0, dst1, src1)
  {
    hide Number, Utf8.EncodeRune, Replace;
    var matched := b.Length - src > 3;
    var x := 0;
    var i := 0;
    if matched {
      var c := b[src + 2];
      var hex := c == 'x' as int || c == 'X' as int;
      x, i := ScanNumber(b, src, if hex then 3 else 2, hex);
      matched := i > 3;
    }
    if !matched {
      dst1, src1 := KeepByte(b, dst, src);
    } else {
      var n := WriteRune(b, dst, Replace(x));
      dst1, src1 := dst + n, src + i;
      WroteText(old(b[..]), b[..], dst, Utf8.EncodeRune(Replace(x)), src1);
    }
  }

  lemma WroteText(before: Bytes, after: Bytes, dst: nat, text: Bytes, src1: nat)
    requires dst + |text| <= src1 <= |before| == |after|
    requires after[..dst] == before[..dst]
    requires after[dst..dst + |text|] == text
    requires after[dst + |text|..] == before[dst + |text|..]
    ensures Advanced(before, after, dst, text, dst + |text|, src1)
  {
    var m := dst + |text|;
    assert after[..m] == after[..dst] + after[dst..m];
    assert after[src1..] == after[m..][src1 - m..];
    assert before[src1..] == before[m..][src1 - m..];
  }

  method ScanName(b: array<byte>, src: nat) returns (i: nat)
    requires src < b.Length
    ensures i == NameEnd(b[src..], 1)
  {
    var len := b.Length - src;
    i := 1;
    while i < len
      invariant i <= len
      invariant NameEnd(b[src..], i) == NameEnd(b[src..], 1)
    {
      var c := b[src + i];
      i := i + 1;
      if IsNameChar(c) {
        continue;
      }
      if c != SEMICOLON {
        i := i - 1;
      }
      break;
    }
  }

  lemma NarrowFits(t: Tables, name: Bytes)
    requires t.Narrow()
    ensures t.One(name).Some? ==> |t.One(name).value| <= 1 + |name|
    ensures t.Two(name).Some? ==> |t.Two(name).value| <= 1 + |name|
  {
  }

  /** Writes the two runes of an entity one after the other. */
  method WriteTwo(b: array<byte>, dst: nat, x0: int, x1: int, src1: nat) returns (dst1: nat)
    requires dst + |Utf8.EncodeRune(x0) + Utf8.EncodeRune(x1)| <= src1 <= b.Length
    modifies b
    ensures Advanced(old(b[..]), b[..], dst, Utf8.EncodeRune(x0) + Utf8.EncodeRune(x1), dst1, src1)
  {
    hide Utf8.EncodeRune;
    ghost var s0 := b[..];
    var n0 := WriteRune(b, dst, x0);
    WroteText(s0, b[..], dst, Utf8.EncodeRune(x0), src1);
    ghost var s1 := b[..];
    var n1 := WriteRune(b, dst + n0, x1);
    dst1 := dst + n0 + n1;
    WroteText(s1, b[..], dst + n0, Utf8.EncodeRune(x1), src1);
    assert s0[..dst] + Utf8.EncodeRune(x0) + Utf8.EncodeRune(x1) == s0[..dst] + (Utf8.EncodeRune(x0) + Utf8.EncodeRune(x1));
  }

  /** The longest entity that is a proper prefix of the name, tried from the longest down. */
  method FindPrefix(t: Tables, name: Bytes) returns (k: nat)
    requires name != []
    ensures k == LongestPrefix(t, name, PrefixLimit(name))
  {
    hide t.One;
    var maxLen: int := |name| - 1;
    if maxLen > LONGEST_WITHOUT_SEMICOLON {
      maxLen := LONGEST_WITHOUT_SEMICOLON;
    }
    var j := maxLen;
    while j > 1
      invariant 0 <= j <= maxLen
      invariant LongestPrefix(t, name, j) == LongestPrefix(t, name, maxLen)
    {
      if t.One(name[..j]).Some? {
        return j;
      }
      j := j - 1;
    }
    return 0;
  }

  method UnescapeNamed(t: Tables, b: array<byte>, dst: nat, src: nat) returns (dst1: nat, src1: nat)
    requires t.Narrow()
    requires dst <= src < b.Length
    modifies b
    ensures src1 == src + Named(t, old(b[src..])).1
    ensures Advanced(old(b[..]), b[..], dst, Named(t, old(b[src..])).0, dst1, src1)
  {
    hide NameEnd, Utf8.EncodeRune, LongestPrefix, t.Narrow, Advanced;
    var i := ScanName(b, src);
    ghost var s := b[src..];
    var entityName := b[src + 1..src + i];
    assert entityName == s[1..i];
    NarrowFits(t, entityName);
    if |entityName| > 0 {
      if entityName in t.entity && t.entity[entityName] != 0 {
        var x := t.entity[entityName];
        var n := WriteRune(b, dst, x);
        dst1, src1 := dst + n, src + i;
        WroteText(old(b[..]), b[..], dst, Utf8.EncodeRune(x), src1);
        return;
      }
      if entityName in t.entity2 && t.entity2[entityName].0 != 0 {
        src1 := src + i;
        dst1 := WriteTwo(b, dst, t.entity2[entityName].0, t.entity2[entityName].1, src1);
        return;
      }
      var j := FindPrefix(t, entityName);
      if j > 0 {
        NarrowFits(t, entityName[..j]);
        var x := t.entity[entityName[..j]];
        var n := WriteRune(b, dst, x);
        dst1, src1 := dst + n, src + j + 1;
        WroteText(old(b[..]), b[..], dst, Utf8.EncodeRune(x), src1);
        return;
      }
    }
    dst1, src1 := dst + i, src + i;
    CopyWithin(b, dst, src, i);
  }

  /** Replaces the reference at src by its text at dst; the input after it is not overwritten. */
  method UnescapeEntity(t: Tables, b: array<byte>, dst: nat, src: nat) returns (dst1: nat, src1: nat)
    requires t.Narrow()
    requires dst <= src < b.Length
    modifies b
    ensures src1 == src + Entity(t, old(b[src..])).1
    ensures Advanced(old(b[..]), b[..], dst, Entity(t, old(b[src..])).0, dst1, src1)
  {
    hide Numeric, Named, t.Narrow;
    if b.Length - src <= 1 {
      dst1, src1 := KeepByte(b, dst, src);
    } else if b[src + 1] == HASH {
      dst1, src1 := UnescapeNumeric(b, dst, src);
    } else {
      dst1, src1 := UnescapeNamed(t, b, dst, src);
    }
  }

  /** The bytes before the next ampersand, or all of them. */
  function UntilAmp(s: Bytes): (n: nat)
    ensures n <= |s|
    ensures AMP !in s[..n]
    ensures n < |s| ==> s[n] == AMP
  {
    if s == [] || s[0] == AMP then 0 else 1 + UntilAmp(s[1..])
  }

  lemma {:induction false} UnescapePlain(t: Tables, s: Bytes, n: nat)
    requires n <= |s| && AMP !in s[..n]
    ensures Unescape(t, s) == s[..n] + Unescape(t, s[n..])
  {
    hide Entity;
    if n == 0 {
      assert s[0..] == s;
    } else {
      assert s[1..][..n - 1] == s[1..n] && s[1..][n - 1..] == s[n..];
      assert s[0] in s[..n];
      UnescapePlain(t, s[1..], n - 1);
      assert s[..n] == [s[0]] + s[1..n];
    }
  }

  /** The state of the in-place loop over a copy b of s: the unread input is intact, and the text done so far
      followed by the meaning of the rest is the meaning of s. */
  ghost predicate Pending(t: Tables, s: Bytes, b: Bytes, dst: nat, src: nat) {
    && dst <= src <= |s| == |b|
    && b[src..] == s[src..]
    && Unescape(t, s) == b[..dst] + Unescape(t, s[src..])
  }

  lemma AdvancedKeeps(t: Tables, s: Bytes, before: Bytes, after: Bytes, dst: nat, src: nat, text: Bytes, n: nat)
    requires Pending(t, s, before, dst, src) && src + n <= |s|
    requires Advanced(before, after, dst, text, dst + |text|, src + n)
    requires Unescape(t, s[src..]) == text + Unescape(t, s[src + n..])
    ensures Pending(t, s, after, dst + |text|, src + n)
  {
    hide Unescape;
    assert before[src + n..] == before[src..][n..] == s[src..][n..] == s[src + n..];
    assert before[..dst] + (text + Unescape(t, s[src + n..])) == before[..dst] + text + Unescape(t, s[src + n..]);
  }

  /** Copies n bytes of s from src to b at dst, no further than the input that has been read. */
  method CopyFrom(b: array<byte>, dst: nat, s: Bytes, src: nat, n: nat)
    requires dst <= src && src + n <= |s| == b.Length
    modifies b
    ensures Advanced(old(b[..]), b[..], dst, s[src..src + n], dst + n, src + n)
  {
    ghost var before := b[..];
    for k := 0 to n
      invariant b[..dst + k] == before[..dst] + s[src..src + k]
      invariant b[src + n..] == before[src + n..]
    {
      ghost var done := b[..dst + k];
      b[dst + k] := s[src + k];
      assert b[..dst + k + 1] == done + [s[src + k]];
      assert s[src..src + k + 1] == s[src..src + k] + [s[src + k]];
    }
  }

  lemma UnescapeReference(t: Tables, s: Bytes, src: nat)
    requires src < |s| && s[src] == AMP
    ensures var (text, n) := Entity(t, s[src..]);
      src + n <= |s| && Unescape(t, s[src..]) == text + Unescape(t, s[src + n..])
  {
    hide Entity;
    assert s[src..][Entity(t, s[src..]).1..] == s[src + Entity(t, s[src..]).1..];
  }

  lemma UnescapeUntil(t: Tables, s: Bytes, src: nat, n: nat)
    requires src + n <= |s| && AMP !in s[src..src + n]
    ensures Unescape(t, s[src..]) == s[src..src + n] + Unescape(t, s[src + n..])
  {
    hide Unescape;
    assert s[src..][..n] == s[src..src + n] && s[src..][n..] == s[src + n..];
    UnescapePlain(t, s[src..], n);
  }

  method UnescapeAt(t: Tables, ghost s: Bytes, b: array<byte>, dst: nat, src: nat) returns (dst1: nat, src1: nat)
    requires t.Narrow() && Pending(t, s, b[..], dst, src)
    requires src < |s| && s[src] == AMP
    modifies b
    ensures src < src1 && Pending(t, s, b[..], dst1, src1)
  {
    hide Entity, t.Narrow;
    ghost var before := b[..];
    assert b[src] == b[src..][0] == s[src..][0];
    assert b[src..] == s[src..];
    UnescapeReference(t, s, src);
    ghost var r := Entity(t, s[src..]);
    dst1, src1 := UnescapeEntity(t, b, dst, src);
    AdvancedKeeps(t, s, before, b[..], dst, src, r.0, r.1);
  }

  method CopyUntil(t: Tables, s: Bytes, b: array<byte>, dst: nat, src: nat, n: nat)
    requires Pending(t, s, b[..], dst, src)
    requires src + n <= |s| && AMP !in s[src..src + n]
    modifies b
    ensures Pending(t, s, b[..], dst + n, src + n)
  {
    ghost var before := b[..];
    UnescapeUntil(t, s, src, n);
    CopyFrom(b, dst, s, src, n);
    AdvancedKeeps(t, s, before, b[..], dst, src, s[src..src + n], n);
  }

  method UnescapeNext(t: Tables, s: Bytes, b: array<byte>, dst0: nat, src0: nat) returns (dst: nat, src: nat)
    requires t.Narrow() && Pending(t, s, b[..], dst0, src0) && src0 < |s|
    modifies b
    ensures src0 < src && Pending(t, s, b[..], dst, src)
  {
    hide Entity, Unescape, t.Narrow;
    dst, src := dst0, src0;
    var i := UntilAmp(s[src..]);
    assert s[src..][..i] == s[src..src + i];
    assert i < |s| - src ==> s[src + i] == s[src..][i];
    CopyUntil(t, s, b, dst, src, i);
    dst, src := dst + i, src + i;
    if src < |s| {
      dst, src := UnescapeAt(t, s, b, dst, src);
    }
  }

  /** Overwrites a copy of s from the front; the result is what unescaping means. */
  method UnescapeString(t: Tables, s: Bytes) returns (r: Bytes)
    requires t.Narrow()
    ensures r == Unescape(t, s)
  {
    UnescapeOfNothing(t);
    hide Entity, Unescape, t.Narrow;
    var i := UntilAmp(s);
    UnescapeUntil(t, s, 0, i);
    assert s[0..] == s && s[0..i] == s[..i];
    if i == |s| {
      assert s[i..] == [] && s[..i] + [] == s;
      return s;
    }
    var b := new byte[|s|];
    forall k | 0 <= k < |s| {
      b[k] := s[k];
    }
    assert b[..] == s;
    assert Pending(t, s, b[..], i, i);
    var dst, src := UnescapeAt(t, s, b, i, i);
    while |s| - src > 0
      invariant 0 <= dst && 0 <= src && Pending(t, s, b[..], dst, src)
    {
      dst, src := UnescapeNext(t, s, b, dst, src);
    }
    assert s[src..] == [] && b[..dst] + [] == b[..dst];
    return b[..dst];
  }

  // ----- escaping

  function EscapeByte(c: byte): Bytes {
    if c == AMP then [AMP] + AMP_NAME
    else if c == APOSTROPHE then [AMP, HASH, '3' as int, '9' as int, SEMICOLON]
    else if c == LESS then [AMP] + LT_NAME
    else if c == GREATER then [AMP] + GT_NAME
    else if c == QUOTE then [AMP, HASH, '3' as int, '4' as int, SEMICOLON]
    else [c]
  }

  function EscapeString(s: Bytes): Bytes {
    if s == [] then [] else EscapeByte(s[0]) + EscapeString(s[1..])
  }

  /** What is escaped has none of the characters that end a text or a quoted attribute, wherever it is put. */
  lemma {:induction false} EscapedIsSafe(s: Bytes)
    ensures '<' as int !in EscapeString(s) && '>' as int !in EscapeString(s)
    ensures '\'' as int !in EscapeString(s) && '"' as int !in EscapeString(s)
  {
    if s != [] {
      EscapedIsSafe(s[1..]);
      EscapedByteIsSafe(s[0]);
      hide EscapeByte;
    }
  }

  lemma EscapedByteIsSafe(c: byte)
    ensures '<' as int !in EscapeByte(c) && '>' as int !in EscapeByte(c)
    ensures '\'' as int !in EscapeByte(c) && '"' as int !in EscapeByte(c)
  {
  }

  /** A name made of letters and digits and ended by a semicolon is taken whole, whatever follows. */
  lemma {:induction false} NameTaken(s: Bytes, i: nat, e: nat)
    requires i <= e < |s| && s[e] == SEMICOLON
    requires forall k :: i <= k < e ==> IsNameChar(s[k])
    ensures NameEnd(s, i) == e + 1
    decreases e - i
  {
    if i < e {
      NameTaken(s, i + 1, e);
    }
  }

  lemma EscapedByteIsRead(t: Tables, c: byte, rest: Bytes)
    requires t.HasBasic()
    ensures Unescape(t, EscapeByte(c) + rest) == [c] + Unescape(t, rest)
  {
    var s := EscapeByte(c) + rest;
    assert s[|EscapeByte(c)|..] == rest;
    if c == APOSTROPHE || c == QUOTE {
      QuoteIsRead(t, c, rest);
    } else if c == AMP || c == LESS || c == GREATER {
      BasicIsRead(t, c, rest);
    }
    hide Entity;
  }

  lemma BasicIsRead(t: Tables, c: byte, rest: Bytes)
    requires t.HasBasic() && (c == AMP || c == LESS || c == GREATER)
    ensures Entity(t, EscapeByte(c) + rest) == ([c], |EscapeByte(c)|)
  {
    hide NameEnd, Number;
    var s := EscapeByte(c) + rest;
    if c == AMP {
      NameTaken(s, 1, 4);
      assert s[1..5] == AMP_NAME;
    } else if c == LESS {
      NameTaken(s, 1, 3);
      assert s[1..4] == LT_NAME;
    } else {
      NameTaken(s, 1, 3);
      assert s[1..4] == GT_NAME;
    }
  }

  lemma QuoteIsRead(t: Tables, c: byte, rest: Bytes)
    requires c == APOSTROPHE || c == QUOTE
    ensures Entity(t, EscapeByte(c) + rest) == ([c], |EscapeByte(c)|)
  {
    hide Named;
    var s := EscapeByte(c) + rest;
    assert Number(s, 4, false, c) == (c as int, 5);
    assert Number(s, 2, false, 0) == (c as int, 5);
  }

  /** Unescaping what was escaped gives the string back, for every byte string. */
  lemma {:induction false} EscapeThenUnescape(t: Tables, s: Bytes)
    requires t.HasBasic()
    ensures Unescape(t, EscapeString(s)) == s
  {
    hide Unescape;
    if s != [] {
      EscapedByteIsRead(t, s[0], EscapeString(s[1..]));
      EscapeThenUnescape(t, s[1..]);
    } else {
      UnescapeOfNothing(t);
    }
  }

  lemma UnescapeOfNothing(t: Tables)
    ensures Unescape(t, []) == []
  {
  }

  /** A sum in 32 bits is the same whether or not what went into it was taken in 32 bits before. */
  lemma WrapTwice(base: int, x: int, d: int)
    ensures Int32(base * Int32(x) + d) == Int32(base * x + d)
  {
    var q := (x + 0x8000_0000) / 0x1_0000_0000;
    assert Int32(x) == x - q * 0x1_0000_0000;
    Distribute(base, x, q);
    WrapShift(base * x + d, -(base * q));
  }

  lemma Distribute(base: int, x: int, q: int)
    ensures base * (x - q * 0x1_0000_0000) == base * x - base * q * 0x1_0000_0000
  {
  }

  lemma WrapShift(x: int, k: int)
    ensures Int32(x + k * 0x1_0000_0000) == Int32(x)
  {
  }

  predicate AllDigits(digits: Bytes, hex: bool) {
    forall i :: 0 <= i < |digits| ==> Digit(digits[i], hex).Some?
  }

  /** The number that digits write, however large, with or without zeros in front and in either case. */
  function NumberOf(digits: Bytes, hex: bool): nat
    requires AllDigits(digits, hex)
  {
    if digits == [] then 0
    else
      var last := |digits| - 1;
      (if hex then 16 else 10) * NumberOf(digits[..last], hex) + Digit(digits[last], hex).value
  }

  lemma DigitIsRead(s: Bytes, i: nat, hex: bool, x: int)
    requires i < |s| && Digit(s[i], hex).Some?
    ensures Number(s, i, hex, x) == Number(s, i + 1, hex, Int32((if hex then 16 else 10) * x + Digit(s[i], hex).value))
  {
  }

  lemma FrontAndLast(s: Bytes, i: nat, digits: Bytes, hex: bool)
    requires AllDigits(digits, hex) && digits != [] && i + |digits| <= |s| && s[i..i + |digits|] == digits
    ensures var last := |digits| - 1;
      && s[i..i + last] == digits[..last] && s[i + last] == digits[last]
      && AllDigits(digits[..last], hex) && Digit(digits[last], hex).Some?
  {
    var last := |digits| - 1;
    assert s[i..i + last] == s[i..i + |digits|][..last];
    assert s[i + last] == s[i..i + |digits|][last];
  }

  /** Digits, wherever they stand, are read as their number, in 32 bits. */
  lemma {:induction false} DigitsAreRead(s: Bytes, i: nat, digits: Bytes, hex: bool)
    requires AllDigits(digits, hex) && i + |digits| <= |s| && s[i..i + |digits|] == digits
    ensures Number(s, i, hex, 0) == Number(s, i + |digits|, hex, Int32(NumberOf(digits, hex)))
  {
    assert Int32(0) == 0;
    hide Int32, Digit, Number;
    if digits != [] {
      var last := |digits| - 1;
      var front := digits[..last];
      FrontAndLast(s, i, digits, hex);
      DigitsAreRead(s, i, front, hex);
      hide AllDigits;
      DigitIsRead(s, i + last, hex, Int32(NumberOf(front, hex)));
      WrapTwice(if hex then 16 else 10, NumberOf(front, hex), Digit(digits[last], hex).value);
    }
  }

  /** How a numeric reference is marked: nothing for a decimal one, x or X for a hexadecimal one. */
  predicate IsMark(mark: Bytes, hex: bool) {
    if hex then mark == ['x' as int] || mark == ['X' as int] else mark == []
  }

  /** What a numeric reference stands for, whatever its digits and whatever follows them: their number in 32
      bits, with the Windows-1252 code points replaced, and what is no code point read as U+FFFD.  It stays as
      it is if it has no more than three bytes, the semicolon included. */
  lemma NumericReference(t: Tables, mark: Bytes, digits: Bytes, rest: Bytes, hex: bool)
    requires IsMark(mark, hex) && AllDigits(digits, hex) && (rest == [] || Digit(rest[0], hex).None?)
    requires !hex && digits == [] && rest != [] ==> rest[0] != 'x' as int && rest[0] != 'X' as int
    ensures var end := 2 + |mark| + |digits| + if rest != [] && rest[0] == SEMICOLON then 1 else 0;
      Entity(t, [AMP, HASH] + mark + digits + rest) ==
        if end > 3 then (Utf8.EncodeRune(Replace(Int32(NumberOf(digits, hex)))), end) else ([AMP], 1)
  {
    hide Utf8.EncodeRune, Int32, Replace, NumberOf;
    var s := [AMP, HASH] + mark + digits + rest;
    var start, e := 2 + |mark|, 2 + |mark| + |digits|;
    assert s[start..e] == digits && s[e..] == rest;
    assert rest != [] ==> s[e] == rest[0];
    if |s| > 3 {
      MarkIsSeen(mark, digits, rest, hex);
      DigitsAreRead(s, start, digits, hex);
      NumberEnds(s, e, hex, Int32(NumberOf(digits, hex)));
    }
  }

  lemma MarkIsSeen(mark: Bytes, digits: Bytes, rest: Bytes, hex: bool)
    requires IsMark(mark, hex) && AllDigits(digits, hex)
    requires !hex && digits == [] && rest != [] ==> rest[0] != 'x' as int && rest[0] != 'X' as int
    ensures var s := [AMP, HASH] + mark + digits + rest;
      |s| > 2 ==> ((s[2] == 'x' as int || s[2] == 'X' as int) <==> hex)
  {
    var s := [AMP, HASH] + mark + digits + rest;
    if hex {
      assert s[2] == mark[0];
    } else if digits != [] {
      assert s[2] == digits[0];
    } else if rest != [] {
      assert s[2] == rest[0];
    }
  }

  lemma NumberEnds(s: Bytes, e: nat, hex: bool, x: int)
    requires e <= |s| && (e < |s| ==> Digit(s[e], hex).None?)
    ensures Number(s, e, hex, x) == (x, e + if e < |s| && s[e] == SEMICOLON then 1 else 0)
  {
  }

  /** Without digits a reference is read only if it is hexadecimal and ends in a semicolon, and then as U+FFFD. */
  lemma NoDigits(t: Tables, mark: Bytes, rest: Bytes, hex: bool)
    requires IsMark(mark, hex) && (rest == [] || Digit(rest[0], hex).None?)
    requires !hex && rest != [] ==> rest[0] != 'x' as int && rest[0] != 'X' as int
    ensures Entity(t, [AMP, HASH] + mark + rest) ==
      if hex && rest != [] && rest[0] == SEMICOLON then (Utf8.EncodeRune(Utf8.RUNE_ERROR), 4) else ([AMP], 1)
  {
    hide Utf8.EncodeRune, Digit, Entity;
    NumericReference(t, mark, [], rest, hex);
    assert [AMP, HASH] + mark + [] + rest == [AMP, HASH] + mark + rest;
  }

  /** The digits that a number is printed with are read as that number. */
  lemma {:induction false} PrintedNumber(n: nat)
    ensures AllDigits(MediaType.Digits(n), false) && NumberOf(MediaType.Digits(n), false) == n
  {
    var digits := MediaType.Digits(n);
    if n >= 10 {
      PrintedNumber(n / 10);
      assert digits[..|digits| - 1] == MediaType.Digits(n / 10);
    } else {
      assert digits[..|digits| - 1] == [];
    }
  }

  /** What a decimal reference stands for, whatever its number. */
  lemma DecimalReference(t: Tables, n: nat, rest: Bytes)
    ensures Unescape(t, [AMP, HASH] + MediaType.Digits(n) + [SEMICOLON] + rest) ==
      Utf8.EncodeRune(Replace(Int32(n))) + Unescape(t, rest)
  {
    hide MediaType.Digits, Utf8.EncodeRune, Int32, Replace, NumberOf, Entity;
    var digits := MediaType.Digits(n);
    var tail := [SEMICOLON] + rest;
    var s := [AMP, HASH] + [] + digits + tail;
    PrintedNumber(n);
    NumericReference(t, [], digits, tail, false);
    assert s == [AMP, HASH] + digits + [SEMICOLON] + rest;
    assert s[3 + |digits|..] == rest;
  }

  /** So the code point itself is what it stands for if it is one, but zero and the Windows-1252 ones. */
  lemma CodePointIsRead(t: Tables, r: int, rest: Bytes)
    requires Utf8.IsScalar(r)
    ensures Unescape(t, [AMP, HASH] + MediaType.Digits(r) + [SEMICOLON] + rest) == Utf8.EncodeRune(r) + Unescape(t, rest)
      <==> r != 0 && (0x80 <= r <= 0x9F ==> r in {0x81, 0x8D, 0x8F, 0x90, 0x9D})
  {
    hide MediaType.Digits, Unescape, Utf8.EncodeRune;
    DecimalReference(t, r, rest);
    assert Int32(r) == r;
    hide Int32, Replace;
    var x := Replace(r);
    ReplaceKeeps(r);
    if r != x {
      DifferentEncodings(r, x, Unescape(t, rest));
    }
  }

  lemma ReplaceKeeps(r: int)
    requires Utf8.IsScalar(r)
    ensures Utf8.IsScalar(Replace(r))
    ensures Replace(r) == r <==> r != 0 && (0x80 <= r <= 0x9F ==> r in {0x81, 0x8D, 0x8F, 0x90, 0x9D})
  {
    if 0x80 <= r <= 0x9F {
      TableKeeps(r - 0x80);
    }
  }

  lemma TableKeeps(k: nat)
    requires k < 32
    ensures Utf8.IsScalar(REPLACEMENT_TABLE[k]) && (REPLACEMENT_TABLE[k] == 0x80 + k <==> k in {1, 13, 15, 16, 29})
  {
  }

  /** No encoding of a rune begins another rune's. */
  lemma DifferentEncodings(r: int, x: int, rest: Bytes)
    requires Utf8.IsScalar(r) && Utf8.IsScalar(x) && r != x
    ensures Utf8.EncodeRune(r) + rest != Utf8.EncodeRune(x) + rest
  {
    hide Utf8.EncodeRune;
    Utf8.EncodeThenDecode(r, rest);
    Utf8.EncodeThenDecode(x, rest);
  }

  /** Numbers that are no code points, and zero, are read as U+FFFD. */
  lemma BadCodePoint(t: Tables, n: nat, rest: Bytes)
    requires n == 0 || 0xD800 <= n <= 0xDFFF || 0x10FFFF < n < 0x8000_0000
    ensures Unescape(t, [AMP, HASH] + MediaType.Digits(n) + [SEMICOLON] + rest) == [0xEF, 0xBF, 0xBD] + Unescape(t, rest)
  {
    assert Replace(Int32(n)) == Utf8.RUNE_ERROR;
    assert Utf8.EncodeRune(Utf8.RUNE_ERROR) == [0xEF, 0xBF, 0xBD];
    hide *;
    DecimalReference(t, n, rest);
  }

  /** &#4294967361; is 2^32 + 65, and is read as the letter A. */
  lemma NumbersWrap(t: Tables)
    ensures Unescape(t, [AMP, HASH] + MediaType.Digits(4294967361) + [SEMICOLON]) == [65]
  {
    hide MediaType.Digits, Unescape;
    DecimalReference(t, 4294967361, []);
    UnescapeOfNothing(t);
    var s := [AMP, HASH] + MediaType.Digits(4294967361) + [SEMICOLON];
    assert s + [] == s;
    assert Utf8.EncodeRune(65) == [65];
  }
}
