/** Media types and their parameters, as printed and parsed by
    src/mime/mediatype.go (section 5.1 of RFC 2045, section 4 of RFC 2231). */
module MediaType {
  import opened Basics

  const SEMICOLON: byte := ';' as int
  const SPACE: byte := ' ' as int
  const EQUALS: byte := '=' as int
  const STAR: byte := '*' as int
  const QUOTE: byte := '"' as int
  const BACKSLASH: byte := '\\' as int
  const TICK: byte := '\'' as int
  const PERCENT: byte := '%' as int
  const SLASH: byte := '/' as int
  const TAB: byte := '\t' as int
  const CR: byte := '\r' as int
  const LF: byte := '\n' as int

  /** utf-8 and us-ascii, the two charsets an encoded value may name. */
  const UTF_8: Bytes := [117, 116, 102, 45, 56]
  const US_ASCII: Bytes := [117, 115, 45, 97, 115, 99, 105, 105]

  // ----- characters

  predicate IsTSpecial(c: byte) {
    || c == '(' as int || c == ')' as int || c == '<' as int || c == '>' as int
    || c == '@' as int || c == ',' as int || c == SEMICOLON || c == ':' as int
    || c == BACKSLASH || c == QUOTE || c == SLASH || c == '[' as int
    || c == ']' as int || c == '?' as int || c == EQUALS
  }

  predicate IsTokenChar(c: byte) {
    0x20 < c < 0x7f && !IsTSpecial(c)
  }

  predicate IsToken(s: Bytes) {
    s != [] && forall i :: 0 <= i < |s| ==> IsTokenChar(s[i])
  }

  /** White space within ASCII. */
  predicate IsSpace(c: byte) {
    9 <= c <= 13 || c == SPACE
  }

  function LowerByte(c: byte): byte {
    if 'A' as int <= c <= 'Z' as int then c + 32 else c
  }

  function ToLower(s: Bytes): (r: Bytes)
    ensures |r| == |s| && forall i :: 0 <= i < |s| ==> r[i] == LowerByte(s[i])
  {
    seq(|s|, i requires 0 <= i < |s| => LowerByte(s[i]))
  }

  /** Whether a value has a byte that a header may not carry as it is. */
  predicate NeedsEncoding(s: Bytes) {
    exists i :: 0 <= i < |s| && !IsPlain(s[i])
  }

  predicate IsPlain(c: byte) {
    SPACE <= c <= '~' as int || c == TAB
  }

  // ----- strings

  /** The parts before and after the first sep, and whether there is one. */
  function Cut(s: Bytes, sep: byte): (r: (Bytes, Bytes, bool))
    ensures sep !in r.0
    ensures r.2 <==> sep in s
    ensures if r.2 then s == r.0 + [sep] + r.1 else r.0 == s && r.1 == []
  {
    if s == [] then ([], [], false)
    else if s[0] == sep then ([], s[1..], true)
    else
      var (before, after, found) := Cut(s[1..], sep);
      ([s[0]] + before, after, found)
  }

  lemma {:induction false} CutAt(before: Bytes, sep: byte, after: Bytes)
    requires sep !in before
    ensures Cut(before + [sep] + after, sep) == (before, after, true)
  {
    var s := before + [sep] + after;
    if before != [] {
      assert s[1..] == before[1..] + [sep] + after;
      CutAt(before[1..], sep, after);
      assert before == [before[0]] + before[1..];
    }
  }

  function TrimLeft(s: Bytes): (r: Bytes)
    ensures |r| <= |s|
    ensures r != [] ==> !IsSpace(r[0])
  {
    if s != [] && IsSpace(s[0]) then TrimLeft(s[1..]) else s
  }

  function TrimRight(s: Bytes): (r: Bytes)
    ensures |r| <= |s|
  {
    if s != [] && IsSpace(s[|s| - 1]) then TrimRight(s[..|s| - 1]) else s
  }

  function TrimSpace(s: Bytes): Bytes {
    TrimRight(TrimLeft(s))
  }

  lemma NothingToTrim(s: Bytes)
    requires s != [] && !IsSpace(s[0]) && !IsSpace(s[|s| - 1])
    ensures TrimSpace(s) == s
  {
  }

  /** How many bytes of v are part of a token. */
  function TokenEnd(v: Bytes): (n: nat)
    ensures n <= |v|
    ensures forall i :: 0 <= i < n ==> IsTokenChar(v[i])
    ensures n < |v| ==> !IsTokenChar(v[n])
  {
    if v != [] && IsTokenChar(v[0]) then 1 + TokenEnd(v[1..]) else 0
  }

  function ConsumeToken(v: Bytes): (r: (Bytes, Bytes))
    ensures v == r.0 + r.1
    ensures r.0 != [] ==> IsToken(r.0)
    ensures r.1 != [] ==> !IsTokenChar(r.1[0])
  {
    (v[..TokenEnd(v)], v[TokenEnd(v)..])
  }

  lemma TokenConsumed(token: Bytes, rest: Bytes)
    requires IsToken(token)
    requires rest != [] ==> !IsTokenChar(rest[0])
    ensures ConsumeToken(token + rest) == (token, rest)
  {
    var v := token + rest;
    var n := TokenEnd(v);
    assert forall i :: 0 <= i < |token| ==> v[i] == token[i];
    assert rest != [] ==> v[|token|] == rest[0];
    assert v[..|token|] == token && v[|token|..] == rest;
  }

  // ----- percent encoding

  function UpperHex(d: nat): byte
    requires d < 16
  {
    if d < 10 then '0' as int + d else 'A' as int + d - 10
  }

  predicate IsHex(c: byte) {
    '0' as int <= c <= '9' as int || 'a' as int <= c <= 'f' as int || 'A' as int <= c <= 'F' as int
  }

  function Unhex(c: byte): (d: nat)
    ensures d < 16
  {
    if '0' as int <= c <= '9' as int then c - '0' as int
    else if 'a' as int <= c <= 'f' as int then c - 'a' as int + 10
    else if 'A' as int <= c <= 'F' as int then c - 'A' as int + 10
    else 0
  }

  predicate IsAttributeChar(c: byte) {
    !(c <= SPACE || c >= 0x7f || c == STAR || c == TICK || c == PERCENT || IsTSpecial(c))
  }

  function PercentByte(c: byte): Bytes {
    if IsAttributeChar(c) then [c] else [PERCENT, UpperHex(c / 16), UpperHex(c % 16)]
  }

  function PercentEncode(s: Bytes): Bytes {
    if s == [] then [] else PercentByte(s[0]) + PercentEncode(s[1..])
  }

  /** The unescaped text, unless some % is not followed by two hex digits. */
  function PercentDecode(s: Bytes): Option<Bytes> {
    if s == [] then Some([])
    else if s[0] != PERCENT then Prepend([s[0]], PercentDecode(s[1..]))
    else if |s| < 3 || !IsHex(s[1]) || !IsHex(s[2]) then None
    else Prepend([16 * Unhex(s[1]) + Unhex(s[2])], PercentDecode(s[3..]))
  }

  function Prepend(first: Bytes, rest: Option<Bytes>): Option<Bytes> {
    if rest.None? then None else Some(first + rest.value)
  }

  lemma PercentByteDecodes(c: byte, rest: Bytes)
    ensures PercentDecode(PercentByte(c) + rest) == Prepend([c], PercentDecode(rest))
  {
    var all := PercentByte(c) + rest;
    if IsAttributeChar(c) {
      assert all[0] == c && all[1..] == rest;
    } else {
      assert all[0] == PERCENT && all[1] == UpperHex(c / 16) && all[2] == UpperHex(c % 16);
      assert all[3..] == rest;
    }
  }

  lemma PercentByteIsToken(c: byte)
    ensures forall i :: 0 <= i < |PercentByte(c)| ==> IsTokenChar(PercentByte(c)[i]) && PercentByte(c)[i] != TICK
  {
  }

  lemma {:induction false} PercentRoundTrip(s: Bytes)
    ensures PercentDecode(PercentEncode(s)) == Some(s)
    ensures forall i :: 0 <= i < |PercentEncode(s)| ==> IsTokenChar(PercentEncode(s)[i]) && PercentEncode(s)[i] != TICK
  {
    if s != [] {
      hide PercentDecode, PercentByte, IsTokenChar;
      PercentRoundTrip(s[1..]);
      PercentByteDecodes(s[0], PercentEncode(s[1..]));
      PercentByteIsToken(s[0]);
      assert s == [s[0]] + s[1..];
    }
  }

  lemma PercentDecodeFrom(s: Bytes, i: nat)
    requires i < |s|
    ensures PercentDecode(s[i..]) ==
      if s[i] != PERCENT then Prepend([s[i]], PercentDecode(s[i + 1..]))
      else if i + 2 >= |s| || !IsHex(s[i + 1]) || !IsHex(s[i + 2]) then None
      else Prepend([16 * Unhex(s[i + 1]) + Unhex(s[i + 2])], PercentDecode(s[i + 3..]))
  {
    assert s[i..][1..] == s[i + 1..];
    if i + 2 < |s| {
      assert s[i..][3..] == s[i + 3..];
    }
  }

  lemma MoveFirst(done: Bytes, c: byte, rest: Option<Bytes>)
    requires rest.Some?
    ensures done + Prepend([c], rest).value == done + [c] + rest.value
  {
  }

  /** The number of escapes, or nothing if one is malformed. */
  method CountPercents(s: Bytes) returns (r: Option<nat>)
    ensures r.None? <==> PercentDecode(s).None?
    ensures r.Some? ==> |PercentDecode(s).value| == |s| - 2 * r.value
    ensures r == Some(0) ==> PercentDecode(s).value == s
  {
    assert PercentDecode([]) == Some([]) && s[0..] == s;
    hide PercentDecode, IsHex, Unhex;
    var percents := 0;
    var i := 0;
    while i < |s|
      invariant 0 <= i <= |s| && 0 <= percents
      invariant PercentDecode(s).Some? <==> PercentDecode(s[i..]).Some?
      invariant PercentDecode(s).Some? ==> |PercentDecode(s).value| == i - 2 * percents + |PercentDecode(s[i..]).value|
      invariant PercentDecode(s).Some? && percents == 0 ==> PercentDecode(s).value == s[..i] + PercentDecode(s[i..]).value
    {
      PercentDecodeFrom(s, i);
      if s[i] != PERCENT {
        if PercentDecode(s[i + 1..]).Some? {
          MoveFirst(s[..i], s[i], PercentDecode(s[i + 1..]));
        }
        assert s[..i + 1] == s[..i] + [s[i]];
        i := i + 1;
        continue;
      }
      percents := percents + 1;
      if i + 2 >= |s| || !IsHex(s[i + 1]) || !IsHex(s[i + 2]) {
        return None;
      }
      i := i + 3;
    }
    assert s[i..] == [] && s[..i] + [] == s;
    return Some(percents);
  }

  /** Two passes: one counts and checks the escapes, one fills a buffer of exactly the decoded size. */
  method PercentHexUnescape(s: Bytes) returns (r: Option<Bytes>)
    ensures r == PercentDecode(s)
  {
    var percents := CountPercents(s);
    if percents.None? {
      return None;
    }
    if percents.value == 0 {
      return Some(s);
    }
    assert PercentDecode([]) == Some([]) && s[0..] == s;
    hide PercentDecode, IsHex, Unhex;
    var t := new byte[|s| - 2 * percents.value];
    var j := 0;
    var i := 0;
    while i < |s|
      invariant 0 <= i <= |s| && 0 <= j <= t.Length
      invariant PercentDecode(s[i..]).Some? && j + |PercentDecode(s[i..]).value| == t.Length
      invariant PercentDecode(s).value == t[..j] + PercentDecode(s[i..]).value
    {
      PercentDecodeFrom(s, i);
      ghost var done := t[..j];
      if s[i] == PERCENT {
        t[j] := 16 * Unhex(s[i + 1]) + Unhex(s[i + 2]);
        MoveFirst(done, t[j], PercentDecode(s[i + 3..]));
        i := i + 3;
      } else {
        t[j] := s[i];
        MoveFirst(done, t[j], PercentDecode(s[i + 1..]));
        i := i + 1;
      }
      j := j + 1;
      assert t[..j] == done + [t[j - 1]];
    }
    assert s[i..] == [];
    assert t[..j] + [] == t[..];
    return Some(t[..]);
  }

  /** charset ' language ' text, where the charset is one of two and the language is ignored. */
  function Decode2231(v: Bytes): Option<Bytes> {
    var (charset, tail, first) := Cut(v, TICK);
    var (_, text, second) := Cut(tail, TICK);
    if !first || !second then None
    else if ToLower(charset) != US_ASCII && ToLower(charset) != UTF_8 then None
    else PercentDecode(text)
  }

  // ----- quoted strings

  predicate MustEscape(c: byte) {
    c == QUOTE || c == BACKSLASH
  }

  function Escape(s: Bytes): Bytes {
    if s == [] then []
    else (if MustEscape(s[0]) then [BACKSLASH, s[0]] else [s[0]]) + Escape(s[1..])
  }

  /** Reads the inside of a quoted string: the text and what follows the closing quote.  A
      backslash before anything but a tspecial stands for itself. */
  function Unescape(s: Bytes): (r: Option<(Bytes, Bytes)>)
    ensures r.Some? ==> |r.value.1| < |s|
  {
    if s == [] then None
    else if s[0] == QUOTE then Some(([], s[1..]))
    else if s[0] == BACKSLASH && |s| > 1 && IsTSpecial(s[1]) then PrependText(s[1], Unescape(s[2..]))
    else if s[0] == CR || s[0] == LF then None
    else PrependText(s[0], Unescape(s[1..]))
  }

  function PrependText(c: byte, r: Option<(Bytes, Bytes)>): Option<(Bytes, Bytes)> {
    if r.None? then None else Some(([c] + r.value.0, r.value.1))
  }

  lemma {:induction false} EscapeRoundTrip(s: Bytes, rest: Bytes)
    requires !NeedsEncoding(s)
    ensures Unescape(Escape(s) + [QUOTE] + rest) == Some((s, rest))
  {
    var all := Escape(s) + [QUOTE] + rest;
    if s == [] {
      assert all[1..] == rest;
    } else {
      assert IsPlain(s[0]);
      EscapeRoundTrip(s[1..], rest);
      var tail := Escape(s[1..]) + [QUOTE] + rest;
      assert s == [s[0]] + s[1..];
      if MustEscape(s[0]) {
        assert all[0] == BACKSLASH && all[1] == s[0];
        assert all[2..] == tail;
      } else {
        assert all[0] == s[0];
        assert all[1..] == tail;
      }
    }
  }

  /** A token or a quoted string, and the rest; ([], v) if v begins with neither. */
  function Value(v: Bytes): (r: (Bytes, Bytes))
    ensures |r.1| <= |v|
  {
    if v == [] then ([], [])
    else if v[0] != QUOTE then ConsumeToken(v)
    else match Unescape(v[1..])
      case None => ([], v)
      case Some(r) => r
  }

  lemma UnescapeFrom(s: Bytes, i: nat)
    requires i < |s|
    ensures Unescape(s[i..]) ==
      if s[i] == QUOTE then Some(([], s[i + 1..]))
      else if s[i] == BACKSLASH && i + 1 < |s| && IsTSpecial(s[i + 1]) then PrependText(s[i + 1], Unescape(s[i + 2..]))
      else if s[i] == CR || s[i] == LF then None
      else PrependText(s[i], Unescape(s[i + 1..]))
  {
    hide IsTSpecial;
    assert s[i..][1..] == s[i + 1..];
    if i + 1 < |s| {
      assert s[i..][2..] == s[i + 2..];
    }
  }

  lemma MoveText(buffer: Bytes, c: byte, r: Option<(Bytes, Bytes)>)
    ensures PrependText(c, r).None? <==> r.None?
    ensures r.Some? ==> buffer + PrependText(c, r).value.0 == buffer + [c] + r.value.0
    ensures r.Some? ==> PrependText(c, r).value.1 == r.value.1
  {
  }

  method ConsumeValue(v: Bytes) returns (value: Bytes, rest: Bytes)
    ensures (value, rest) == Value(v)
  {
    hide ConsumeToken, Unescape;
    if v == [] {
      return [], [];
    }
    if v[0] != QUOTE {
      var token := ConsumeToken(v);
      return token.0, token.1;
    }
    var quoted := ConsumeQuoted(v);
    match quoted {
      case None => return [], v;
      case Some(r) => return r.0, r.1;
    }
  }

  method ConsumeQuoted(v: Bytes) returns (r: Option<(Bytes, Bytes)>)
    requires v != [] && v[0] == QUOTE
    ensures r == Unescape(v[1..])
  {
    var buffer: Bytes := [];
    ghost var whole := Unescape(v[1..]);
    assert Unescape([]) == None;
    hide Unescape, IsTSpecial, PrependText;
    var i := 1;
    while i < |v|
      invariant 1 <= i <= |v|
      invariant whole.None? <==> Unescape(v[i..]).None?
      invariant whole.Some? ==> whole.value.0 == buffer + Unescape(v[i..]).value.0
      invariant whole.Some? ==> whole.value.1 == Unescape(v[i..]).value.1
    {
      var c := v[i];
      UnescapeFrom(v, i);
      if c == QUOTE {
        assert buffer + [] == buffer;
        return Some((buffer, v[i + 1..]));
      }
      if c == BACKSLASH && i + 1 < |v| && IsTSpecial(v[i + 1]) {
        MoveText(buffer, v[i + 1], Unescape(v[i + 2..]));
        buffer := buffer + [v[i + 1]];
        i := i + 2;
        continue;
      }
      if c == CR || c == LF {
        return None;
      }
      MoveText(buffer, c, Unescape(v[i + 1..]));
      buffer := buffer + [c];
      i := i + 1;
    }
    assert v[i..] == [];
    return None;
  }

  // ----- printing

  predicate IsType(t: Bytes) {
    var (major, sub, found) := Cut(t, SLASH);
    if found then IsToken(major) && IsToken(sub) else IsToken(t)
  }

  /** The name a parameter is printed under: a star marks an encoded value. */
  function PrintedKey(key: Bytes, value: Bytes): Bytes {
    if NeedsEncoding(value) then ToLower(key) + [STAR] else ToLower(key)
  }

  function EncodedValue(value: Bytes): Bytes {
    UTF_8 + [TICK, TICK] + PercentEncode(value)
  }

  function PrintedValue(value: Bytes): Bytes {
    if NeedsEncoding(value) then EncodedValue(value)
    else if IsToken(value) then value
    else [QUOTE] + Escape(value) + [QUOTE]
  }

  function PrintParam(key: Bytes, value: Bytes): Bytes {
    [SEMICOLON, SPACE] + PrintedKey(key, value) + [EQUALS] + PrintedValue(value)
  }

  function PrintParams(param: map<Bytes, Bytes>, attrs: seq<Bytes>): Bytes
    requires forall a :: a in attrs ==> a in param
  {
    if attrs == [] then [] else PrintParam(attrs[0], param[attrs[0]]) + PrintParams(param, attrs[1..])
  }

  /** The byte order of strings. */
  predicate Less(a: Bytes, b: Bytes) {
    b != [] && (a == [] || a[0] < b[0] || (a[0] == b[0] && Less(a[1..], b[1..])))
  }

  lemma {:induction false} LessIsTotal(a: Bytes, b: Bytes)
    ensures a == b || Less(a, b) || Less(b, a)
    ensures !(Less(a, b) && Less(b, a)) && !Less(a, a)
  {
    if a != [] && b != [] {
      LessIsTotal(a[1..], b[1..]);
      assert a == [a[0]] + a[1..] && b == [b[0]] + b[1..];
    }
    if a != [] {
      LessIsTotal(a[1..], a[1..]);
    }
  }

  lemma {:induction false} LessIsTransitive(a: Bytes, b: Bytes, c: Bytes)
    requires Less(a, b) && Less(b, c)
    ensures Less(a, c)
  {
    if a != [] && a[0] == c[0] {
      LessIsTransitive(a[1..], b[1..], c[1..]);
    }
  }

  predicate Increasing(attrs: seq<Bytes>) {
    forall i, j :: 0 <= i < j < |attrs| ==> Less(attrs[i], attrs[j])
  }

  /** There is one way to list the names, so the printed text depends on the map alone. */
  lemma {:induction false} ListsOnce(a: seq<Bytes>, b: seq<Bytes>)
    requires Increasing(a) && Increasing(b)
    requires forall x :: x in a <==> x in b
    ensures a == b
  {
    assert a != [] ==> a[0] in a;
    assert b != [] ==> b[0] in b;
    if a != [] {
      var j :| 0 <= j < |b| && b[j] == a[0];
      var i :| 0 <= i < |a| && a[i] == b[0];
      LessIsTotal(a[0], b[0]);
      assert i == 0 && j == 0;
      forall x ensures x in a[1..] <==> x in b[1..] {
        LessIsTotal(a[0], a[0]);
        assert x in a[1..] ==> x in a && x != a[0];
        assert x in b[1..] ==> x in b && x != b[0];
        assert a == [a[0]] + a[1..] && b == [b[0]] + b[1..];
      }
      ListsOnce(a[1..], b[1..]);
    }
  }

  function Insert(sorted: seq<Bytes>, x: Bytes): seq<Bytes> {
    if sorted == [] || !Less(sorted[0], x) then [x] + sorted else [sorted[0]] + Insert(sorted[1..], x)
  }

  function SortStrings(attrs: seq<Bytes>): seq<Bytes> {
    if attrs == [] then [] else Insert(SortStrings(attrs[1..]), attrs[0])
  }

  lemma {:induction false} InsertKeeps(sorted: seq<Bytes>, x: Bytes)
    requires Increasing(sorted) && x !in sorted
    ensures Increasing(Insert(sorted, x))
    ensures forall a :: a in Insert(sorted, x) <==> a in sorted || a == x
  {
    if sorted != [] {
      var (first, rest) := (sorted[0], sorted[1..]);
      LessIsTotal(first, x);
      assert sorted == [first] + rest;
      assert forall a :: a in rest ==> Less(first, a);
      if Less(first, x) {
        InsertKeeps(rest, x);
        assert forall a :: a in Insert(rest, x) ==> Less(first, a);
      } else {
        forall a | a in rest ensures Less(x, a) {
          LessIsTransitive(x, first, a);
        }
        assert forall a :: a in sorted ==> Less(x, a);
      }
    }
  }

  lemma {:induction false} SortStringsSorts(attrs: seq<Bytes>)
    requires forall i, j :: 0 <= i < j < |attrs| ==> attrs[i] != attrs[j]
    ensures Increasing(SortStrings(attrs))
    ensures forall a :: a in SortStrings(attrs) <==> a in attrs
  {
    if attrs != [] {
      SortStringsSorts(attrs[1..]);
      assert attrs == [attrs[0]] + attrs[1..];
      InsertKeeps(SortStrings(attrs[1..]), attrs[0]);
    }
  }

  ghost predicate ListsKeys(attrs: seq<Bytes>, keys: set<Bytes>) {
    && (forall a :: a in attrs <==> a in keys)
    && Increasing(attrs)
  }

  lemma {:induction false} ListingExists(keys: set<Bytes>)
    ensures exists attrs :: ListsKeys(attrs, keys)
  {
    if keys == {} {
      assert ListsKeys([], keys);
    } else {
      var x :| x in keys;
      ListingExists(keys - {x});
      var rest :| ListsKeys(rest, keys - {x});
      InsertKeeps(rest, x);
      assert ListsKeys(Insert(rest, x), keys);
    }
  }

  /** The names of param in increasing order. */
  ghost function Listing(param: map<Bytes, Bytes>): (attrs: seq<Bytes>)
    ensures ListsKeys(attrs, param.Keys)
  {
    ListingExists(param.Keys);
    var attrs :| ListsKeys(attrs, param.Keys);
    attrs
  }

  /** The text for a type and its parameters; empty on a standard violation. */
  ghost function Format(t: Bytes, param: map<Bytes, Bytes>): Bytes {
    if IsType(t) && forall a :: a in param ==> IsToken(a) then ToLower(t) + PrintParams(param, Listing(param)) else []
  }

  /** Nothing is printed just for what is no type or has a name that is no token. */
  lemma FormatRefuses(t: Bytes, param: map<Bytes, Bytes>)
    ensures Format(t, param) == [] <==> !IsType(t) || exists a :: a in param && !IsToken(a)
  {
    assert IsType(t) ==> t != [];
    hide PrintParams, IsToken, IsType;
  }

  lemma PercentEncodeFrom(b: Bytes, value: Bytes, i: nat)
    requires i < |value|
    ensures b + PercentEncode(value[i..]) == b + PercentByte(value[i]) + PercentEncode(value[i + 1..])
  {
    hide PercentByte;
    assert value[i..][1..] == value[i + 1..];
  }

  method WriteEncoded(b0: Bytes, value: Bytes) returns (b: Bytes)
    ensures b == b0 + PercentEncode(value)
  {
    assert PercentEncode([]) == [] && value[0..] == value && b0 + [] == b0;
    hide PercentEncode, IsAttributeChar, UpperHex;
    b := b0;
    var offset := 0;
    for index := 0 to |value|
      invariant 0 <= offset <= index
      invariant b + value[offset..index] + PercentEncode(value[index..]) == b0 + PercentEncode(value)
    {
      var ch := value[index];
      ghost var before := b + value[offset..index];
      PercentEncodeFrom(before, value, index);
      if !IsAttributeChar(ch) {
        b := b + value[offset..index];
        offset := index + 1;
        b := b + [PERCENT];
        b := b + [UpperHex(ch / 16)];
        b := b + [UpperHex(ch % 16)];
        assert b == before + PercentByte(ch) && value[offset..index + 1] == [];
        assert b + [] == b;
      } else {
        assert value[offset..index + 1] == value[offset..index] + [ch];
        assert b + (value[offset..index] + [ch]) == before + PercentByte(ch);
      }
    }
    assert value[|value|..] == [] && value[offset..] == value[offset..|value|];
    b := b + value[offset..];
    assert b + [] == b;
  }

  method WriteQuoted(b0: Bytes, value: Bytes) returns (b: Bytes)
    ensures b == b0 + [QUOTE] + Escape(value) + [QUOTE]
  {
    b := b0 + [QUOTE];
    ghost var b1 := b;
    var offset := 0;
    for index := 0 to |value|
      invariant 0 <= offset <= index
      invariant b + value[offset..index] + Escape(value[index..]) == b1 + Escape(value)
    {
      var character := value[index];
      ghost var rest := Escape(value[index + 1..]);
      assert value[index..][1..] == value[index + 1..];
      ghost var before := b + value[offset..index];
      if character == QUOTE || character == BACKSLASH {
        assert before + ([BACKSLASH, character] + rest) == before + [BACKSLASH] + [character] + rest;
        b := b + value[offset..index];
        offset := index;
        b := b + [BACKSLASH];
        assert value[offset..index + 1] == [character];
      } else {
        assert before + ([character] + rest) == before + [character] + rest;
        assert b + value[offset..index + 1] == before + [character];
      }
    }
    assert Escape(value[|value|..]) == [];
    b := b + value[offset..];
    b := b + [QUOTE];
  }

  lemma {:induction false} PrintParamsSplit(param: map<Bytes, Bytes>, attrs: seq<Bytes>, last: Bytes)
    requires forall a :: a in attrs ==> a in param
    requires last in param
    ensures PrintParams(param, attrs + [last]) == PrintParams(param, attrs) + PrintParam(last, param[last])
  {
    hide PrintParam;
    if attrs == [] {
      assert [last][1..] == [];
    } else {
      PrintParamsSplit(param, attrs[1..], last);
      assert (attrs + [last])[1..] == attrs[1..] + [last];
    }
  }

  lemma LowerOfParts(t: Bytes)
    ensures var (major, sub, found) := Cut(t, SLASH);
      found ==> ToLower(t) == ToLower(major) + [SLASH] + ToLower(sub)
  {
  }

  method WriteValue(b0: Bytes, value: Bytes) returns (b: Bytes)
    ensures b == b0 + PrintedValue(value)
  {
    hide NeedsEncoding, IsToken, Escape, PercentEncode;
    b := b0;
    if NeedsEncoding(value) {
      var prefix := UTF_8 + [TICK, TICK];
      b := b + prefix;
      b := WriteEncoded(b, value);
      assert b0 + prefix + PercentEncode(value) == b0 + (prefix + PercentEncode(value));
    } else if IsToken(value) {
      b := b + value;
    } else {
      b := WriteQuoted(b, value);
      assert b == b0 + ([QUOTE] + Escape(value) + [QUOTE]);
    }
  }

  method WriteParam(b0: Bytes, attribute: Bytes, value: Bytes) returns (b: Bytes)
    ensures b == b0 + PrintParam(attribute, value)
  {
    hide NeedsEncoding, ToLower, PrintedValue;
    b := b0 + [SEMICOLON];
    b := b + [SPACE];
    b := b + ToLower(attribute);
    if NeedsEncoding(value) {
      b := b + [STAR];
    }
    b := b + [EQUALS];
    ghost var head := [SEMICOLON, SPACE] + PrintedKey(attribute, value) + [EQUALS];
    assert b == b0 + head;
    b := WriteValue(b, value);
    assert b0 + head + PrintedValue(value) == b0 + (head + PrintedValue(value));
  }

  method WriteType(t: Bytes) returns (b: Bytes, valid: bool)
    ensures valid <==> IsType(t)
    ensures valid ==> b == ToLower(t)
  {
    hide ToLower, IsToken, Cut;
    b := [];
    var (major, sub, ok) := Cut(t, SLASH);
    LowerOfParts(t);
    if !ok {
      if !IsToken(t) {
        return [], false;
      }
      b := b + ToLower(t);
    } else {
      if !IsToken(major) || !IsToken(sub) {
        return [], false;
      }
      b := b + ToLower(major);
      b := b + [SLASH];
      b := b + ToLower(sub);
    }
    valid := true;
  }

  method SortedNames(param: map<Bytes, Bytes>) returns (attrs: seq<Bytes>)
    ensures attrs == Listing(param)
  {
    attrs := [];
    var keys := param.Keys;
    while keys != {}
      invariant keys <= param.Keys
      invariant forall a :: a in attrs <==> a in param.Keys - keys
      invariant forall i, j :: 0 <= i < j < |attrs| ==> attrs[i] != attrs[j]
    {
      var a :| a in keys;
      assert a !in attrs;
      attrs := attrs + [a];
      keys := keys - {a};
    }
    SortStringsSorts(attrs);
    attrs := SortStrings(attrs);
    ListsOnce(attrs, Listing(param));
  }

  method FormatMediaType(t: Bytes, param: map<Bytes, Bytes>) returns (b: Bytes)
    ensures b == Format(t, param)
  {
    hide ToLower, PrintParam, IsToken, IsType, Increasing;
    var valid;
    b, valid := WriteType(t);
    if !valid {
      return [];
    }
    var attrs := SortedNames(param);
    assert PrintParams(param, attrs[..0]) == [];
    for i := 0 to |attrs|
      invariant b == ToLower(t) + PrintParams(param, attrs[..i])
      invariant forall a :: a in attrs[..i] ==> IsToken(a)
    {
      var attribute := attrs[i];
      assert attribute in attrs;
      var value := param[attribute];
      if !IsToken(attribute) {
        return [];
      }
      b := WriteParam(b, attribute, value);
      PrintParamsSplit(param, attrs[..i], attribute);
      assert attrs[..i + 1] == attrs[..i] + [attribute];
    }
    assert attrs[..|attrs|] == attrs;
  }

  // ----- parsing

  datatype Error = NoMediaType | ExpectedSlash | ExpectedToken | UnexpectedContent | InvalidParameter | DuplicateName

  function CheckDisposition(s: Bytes): Option<Error> {
    var (typ, rest) := ConsumeToken(s);
    if typ == [] then Some(NoMediaType)
    else if rest == [] then None
    else if rest[0] != SLASH then Some(ExpectedSlash)
    else
      var (subtype, rest) := ConsumeToken(rest[1..]);
      if subtype == [] then Some(ExpectedToken)
      else if rest != [] then Some(UnexpectedContent)
      else None
  }

  /** One "; name = value": the lower-case name, the value and the rest; ([], [], v) on failure. */
  function ConsumeMediaParam(v: Bytes): (Bytes, Bytes, Bytes) {
    var rest := TrimLeft(v);
    if rest == [] || rest[0] != SEMICOLON then ([], [], v)
    else
      var (param, rest) := ConsumeToken(TrimLeft(rest[1..]));
      if param == [] then ([], [], v)
      else
        var rest := TrimLeft(rest);
        if rest == [] || rest[0] != EQUALS then ([], [], v)
        else
          var rest := TrimLeft(rest[1..]);
          var (value, rest2) := Value(rest);
          if value == [] && rest2 == rest then ([], [], v)
          else (ToLower(param), value, rest2)
  }

  lemma ConsumeMediaParamShrinks(v: Bytes)
    ensures var (key, value, rest) := ConsumeMediaParam(v);
      if key == [] then value == [] && rest == v else |rest| < |v| && ToLower(key) == key
  {
    hide TokenEnd, Unescape, IsTokenChar, IsSpace, IsToken;
    var rest := TrimLeft(v);
    if rest != [] && rest[0] == SEMICOLON {
      var (param, after) := ConsumeToken(TrimLeft(rest[1..]));
      assert |after| < |v|;
      assert ToLower(ToLower(param)) == ToLower(param);
      if param != [] && TrimLeft(after) != [] && TrimLeft(after)[0] == EQUALS {
        assert |Value(TrimLeft(TrimLeft(after)[1..])).1| < |v|;
      }
    }
  }

  /** The pieces of each starred parameter, by the name before the star. */
  type Pieces = map<Bytes, map<Bytes, Bytes>>

  datatype Params = Bad(error: Error) | Good(params: map<Bytes, Bytes>, continuation: Pieces)

  /** Adds a parameter; a repeated name must repeat its value. */
  function Store(params: map<Bytes, Bytes>, continuation: Pieces, key: Bytes, value: Bytes): Params {
    var (base, _, starred) := Cut(key, STAR);
    if starred then
      var pmap := if base in continuation then continuation[base] else map[];
      if key in pmap && pmap[key] != value then Bad(DuplicateName)
      else Good(params, continuation[base := pmap[key := value]])
    else
      if key in params && params[key] != value then Bad(DuplicateName)
      else Good(params[key := value], continuation)
  }

  function ParseParams(v: Bytes, params: map<Bytes, Bytes>, continuation: Pieces): Params
    decreases |v|
  {
    var w := TrimLeft(v);
    if w == [] then Good(params, continuation)
    else
      ConsumeMediaParamShrinks(w);
      var (key, value, rest) := ConsumeMediaParam(w);
      if key == [] then
        if TrimSpace(rest) == [SEMICOLON] then Good(params, continuation) else Bad(InvalidParameter)
      else
        match Store(params, continuation, key, value)
        case Bad(e) => Bad(e)
        case Good(p, c) => ParseParams(rest, p, c)
  }

  // ----- continuations

  function Digits(n: nat): (r: Bytes)
    ensures r != []
  {
    if n < 10 then ['0' as int + n] else Digits(n / 10) + ['0' as int + n % 10]
  }

  function SimplePart(key: Bytes, n: nat): Bytes {
    key + [STAR] + Digits(n)
  }

  function EncodedPart(key: Bytes, n: nat): Bytes {
    SimplePart(key, n) + [STAR]
  }

  /** Part numbers print differently, so a part is never met twice. */
  lemma {:induction false} DigitsDiffer(m: nat, n: nat)
    requires Digits(m) == Digits(n)
    ensures m == n
  {
    var a, b := Digits(m), Digits(n);
    assert a[|a| - 1] == b[|b| - 1];
    if m >= 10 && n >= 10 {
      assert a[..|a| - 1] == Digits(m / 10) && b[..|b| - 1] == Digits(n / 10);
      DigitsDiffer(m / 10, n / 10);
    } else {
      assert |a| == |b|;
    }
  }

  lemma DigitsAreDigits(n: nat)
    ensures STAR !in Digits(n)
  {
  }

  lemma PartsDiffer(key: Bytes, m: nat, n: nat)
    ensures SimplePart(key, m) == SimplePart(key, n) ==> m == n
    ensures EncodedPart(key, m) == EncodedPart(key, n) ==> m == n
    ensures SimplePart(key, m) != EncodedPart(key, n)
  {
    var a, b := Digits(m), Digits(n);
    assert SimplePart(key, m)[|key| + 1..] == a && SimplePart(key, n)[|key| + 1..] == b;
    var ea, eb := EncodedPart(key, m), EncodedPart(key, n);
    assert ea[..|ea| - 1] == SimplePart(key, m) && eb[..|eb| - 1] == SimplePart(key, n);
    DigitsAreDigits(m);
    assert SimplePart(key, m)[|SimplePart(key, m)| - 1] == a[|a| - 1];
    if a == b {
      DigitsDiffer(m, n);
    }
  }

  /** The parts that are still to be met after the first n. */
  ghost function Unseen(key: Bytes, pieces: map<Bytes, Bytes>, n: nat): set<Bytes> {
    set k | k in pieces && forall m :: 0 <= m < n ==> k != SimplePart(key, m) && k != EncodedPart(key, m)
  }

  lemma UnseenShrinks(key: Bytes, pieces: map<Bytes, Bytes>, n: nat)
    requires SimplePart(key, n) in pieces || EncodedPart(key, n) in pieces
    ensures |Unseen(key, pieces, n + 1)| < |Unseen(key, pieces, n)|
  {
    var part := if SimplePart(key, n) in pieces then SimplePart(key, n) else EncodedPart(key, n);
    forall m | 0 <= m < n ensures part != SimplePart(key, m) && part != EncodedPart(key, m) {
      PartsDiffer(key, m, n);
      PartsDiffer(key, n, m);
    }
    var before, after := Unseen(key, pieces, n), Unseen(key, pieces, n + 1);
    assert part in before && part !in after;
    assert after <= before - {part};
    Subset(after, before - {part});
  }

  lemma {:induction false} Subset(a: set<Bytes>, b: set<Bytes>)
    requires a <= b
    ensures |a| <= |b|
  {
    if a != {} {
      var x :| x in a;
      Subset(a - {x}, b - {x});
    }
  }

  function PieceText(n: nat, encoded: Bytes): Bytes {
    match (if n == 0 then Decode2231(encoded) else PercentDecode(encoded))
    case None => []
    case Some(text) => text
  }

  /** The text of parts n, n + 1, ... up to the first that is missing. */
  function JoinFrom(key: Bytes, pieces: map<Bytes, Bytes>, n: nat): Bytes
    decreases |Unseen(key, pieces, n)|
  {
    if SimplePart(key, n) in pieces then
      UnseenShrinks(key, pieces, n);
      pieces[SimplePart(key, n)] + JoinFrom(key, pieces, n + 1)
    else if EncodedPart(key, n) in pieces then
      UnseenShrinks(key, pieces, n);
      PieceText(n, pieces[EncodedPart(key, n)]) + JoinFrom(key, pieces, n + 1)
    else []
  }

  /** What a starred parameter comes to, if anything. */
  function Stitch(key: Bytes, pieces: map<Bytes, Bytes>): Option<Bytes> {
    if key + [STAR] in pieces then Decode2231(pieces[key + [STAR]])
    else if SimplePart(key, 0) in pieces || EncodedPart(key, 0) in pieces then Some(JoinFrom(key, pieces, 0))
    else None
  }

  /** The parameters with every stitched one added, whatever order they are taken in. */
  function StitchAll(params: map<Bytes, Bytes>, continuation: Pieces): map<Bytes, Bytes> {
    map k | k in params.Keys + continuation.Keys && (k in params || Stitch(k, continuation[k]).Some?) ::
      if k in continuation && Stitch(k, continuation[k]).Some? then Stitch(k, continuation[k]).value else params[k]
  }

  datatype Outcome = Outcome(mediatype: Bytes, params: Option<map<Bytes, Bytes>>, err: Option<Error>)

  function Parse(v: Bytes): Outcome {
    var base := Cut(v, SEMICOLON).0;
    var mediatype := TrimSpace(ToLower(base));
    var err := CheckDisposition(mediatype);
    if err.Some? then Outcome([], None, err)
    else
      match ParseParams(v[|base|..], map[], map[])
      case Bad(InvalidParameter) => Outcome(mediatype, None, Some(InvalidParameter))
      case Bad(e) => Outcome([], None, Some(e))
      case Good(params, continuation) => Outcome(mediatype, Some(StitchAll(params, continuation)), None)
  }

  lemma JoinFromStep(key: Bytes, pieces: map<Bytes, Bytes>, n: nat, text: Bytes)
    ensures text + JoinFrom(key, pieces, n) ==
      if SimplePart(key, n) in pieces then text + pieces[SimplePart(key, n)] + JoinFrom(key, pieces, n + 1)
      else if EncodedPart(key, n) in pieces then text + PieceText(n, pieces[EncodedPart(key, n)]) + JoinFrom(key, pieces, n + 1)
      else text
  {
    hide Unseen, SimplePart, EncodedPart, Decode2231, PercentDecode, PieceText;
  }

  method JoinParts(key: Bytes, pieces: map<Bytes, Bytes>) returns (text: Bytes, valid: bool)
    ensures text == JoinFrom(key, pieces, 0)
    ensures valid <==> SimplePart(key, 0) in pieces || EncodedPart(key, 0) in pieces
  {
    hide JoinFrom, Unseen, SimplePart, EncodedPart, Decode2231, PercentDecode;
    text := [];
    valid := false;
    var n := 0;
    while true
      invariant 0 <= n
      invariant text + JoinFrom(key, pieces, n) == JoinFrom(key, pieces, 0)
      invariant valid <==> n > 0
      invariant valid ==> SimplePart(key, 0) in pieces || EncodedPart(key, 0) in pieces
      decreases |Unseen(key, pieces, n)|
    {
      JoinFromStep(key, pieces, n, text);
      var simplePart := SimplePart(key, n);
      if simplePart in pieces {
        UnseenShrinks(key, pieces, n);
        valid := true;
        text := text + pieces[simplePart];
        n := n + 1;
        continue;
      }
      var encodedPart := EncodedPart(key, n);
      if encodedPart !in pieces {
        break;
      }
      UnseenShrinks(key, pieces, n);
      valid := true;
      var decv := PieceWith(n, pieces[encodedPart]);
      text := text + decv;
      n := n + 1;
    }
  }

  method PieceWith(n: nat, encoded: Bytes) returns (text: Bytes)
    ensures text == PieceText(n, encoded)
  {
    text := [];
    if n == 0 {
      var decv := Decode2231(encoded);
      if decv.Some? {
        text := decv.value;
      }
    } else {
      var decv := PercentHexUnescape(encoded);
      if decv.Some? {
        text := decv.value;
      }
    }
  }

  lemma StitchAllStep(params: map<Bytes, Bytes>, done: Pieces, key: Bytes, pieces: map<Bytes, Bytes>)
    requires key !in done
    ensures StitchAll(params, done[key := pieces]) ==
      match Stitch(key, pieces)
      case None => StitchAll(params, done)
      case Some(text) => StitchAll(params, done)[key := text]
  {
    hide Stitch;
  }

  function Without(continuation: Pieces, keys: set<Bytes>): Pieces {
    map k | k in continuation && k !in keys :: continuation[k]
  }

  lemma StitchNothing(params: map<Bytes, Bytes>)
    ensures StitchAll(params, map[]) == params
  {
  }

  /** Takes the starred parameters in any order: the result is always StitchAll. */
  method StitchContinuations(params: map<Bytes, Bytes>, continuation: Pieces) returns (r: map<Bytes, Bytes>)
    ensures r == StitchAll(params, continuation)
  {
    hide Stitch, StitchAll;
    r := params;
    assert r == StitchAll(params, map[]) by {
      StitchNothing(params);
    }
    var keys := continuation.Keys;
    assert Without(continuation, keys) == map[];
    while keys != {}
      invariant keys <= continuation.Keys
      invariant r == StitchAll(params, Without(continuation, keys))
    {
      var key :| key in keys;
      ghost var done := Without(continuation, keys);
      keys := keys - {key};
      assert Without(continuation, keys) == done[key := continuation[key]];
      StitchAllStep(params, done, key, continuation[key]);
      var value := StitchOne(key, continuation[key]);
      if value.Some? {
        r := r[key := value.value];
      }
    }
    assert Without(continuation, keys) == continuation;
  }

  method StitchOne(key: Bytes, pieces: map<Bytes, Bytes>) returns (r: Option<Bytes>)
    ensures r == Stitch(key, pieces)
  {
    if key + [STAR] in pieces {
      return Decode2231(pieces[key + [STAR]]);
    }
    var text, valid := JoinParts(key, pieces);
    return if valid then Some(text) else None;
  }

  method ParseMediaType(v0: Bytes) returns (r: Outcome)
    ensures r == Parse(v0)
  {
    hide ConsumeMediaParam, CheckDisposition, TrimSpace, TrimLeft, ToLower, StitchAll;
    var base := Cut(v0, SEMICOLON).0;
    var mediatype := TrimSpace(ToLower(base));
    var err := CheckDisposition(mediatype);
    if err.Some? {
      return Outcome([], None, err);
    }
    var params: map<Bytes, Bytes> := map[];
    var continuation: Pieces := map[];
    var v := v0[|base|..];
    while |v| > 0
      invariant ParseParams(v, params, continuation) == ParseParams(v0[|base|..], map[], map[])
    {
      v := TrimLeft(v);
      if |v| == 0 {
        break;
      }
      ConsumeMediaParamShrinks(v);
      var (key, value, rest) := ConsumeMediaParam(v);
      if key == [] {
        if TrimSpace(rest) == [SEMICOLON] {
          break;
        }
        return Outcome(mediatype, None, Some(InvalidParameter));
      }
      var pmap := params;
      ghost var before := continuation;
      var (baseName, _, starred) := Cut(key, STAR);
      if starred {
        if baseName !in continuation {
          continuation := continuation[baseName := map[]];
        }
        pmap := continuation[baseName];
      }
      if key in pmap && pmap[key] != value {
        return Outcome([], None, Some(DuplicateName));
      }
      pmap := pmap[key := value];
      if starred {
        continuation := continuation[baseName := pmap];
        assert continuation == before[baseName := pmap];
      } else {
        params := pmap;
      }
      v := rest;
    }
    var all := StitchContinuations(params, continuation);
    return Outcome(mediatype, Some(all), None);
  }

  // ----- white space

  predicate IsSpaces(s: Bytes) {
    forall i :: 0 <= i < |s| ==> IsSpace(s[i])
  }

  /** White space, or one semicolon with white space round it. */
  ghost predicate IsBlank(s: Bytes) {
    IsSpaces(s) || exists i :: IsLoneSemicolon(s, i)
  }

  predicate IsLoneSemicolon(s: Bytes, i: int) {
    0 <= i < |s| && s[i] == SEMICOLON && IsSpaces(s[..i]) && IsSpaces(s[i + 1..])
  }

  lemma {:induction false} TrimSkips(ws: Bytes, rest: Bytes)
    requires IsSpaces(ws) && (rest != [] ==> !IsSpace(rest[0]))
    ensures TrimLeft(ws + rest) == rest
  {
    if ws == [] {
      assert ws + rest == rest;
    } else {
      assert (ws + rest)[1..] == ws[1..] + rest;
      TrimSkips(ws[1..], rest);
    }
  }

  lemma {:induction false} TrimSkipsRight(s: Bytes, ws: Bytes)
    requires IsSpaces(ws) && (s != [] ==> !IsSpace(s[|s| - 1]))
    ensures TrimRight(s + ws) == s
  {
    if ws == [] {
      assert s + ws == s;
    } else {
      assert (s + ws)[..|s + ws| - 1] == s + ws[..|ws| - 1];
      assert (s + ws)[|s + ws| - 1] == ws[|ws| - 1];
      TrimSkipsRight(s, ws[..|ws| - 1]);
    }
  }

  lemma BlankOpens(tail: Bytes)
    requires IsBlank(tail)
    ensures tail != [] ==> !IsTokenChar(tail[0])
  {
    if i :| IsLoneSemicolon(tail, i) {
      assert i > 0 ==> tail[..i][0] == tail[0];
    }
  }

  /** What is blank ends the parameters. */
  lemma BlankEnds(tail: Bytes, params: map<Bytes, Bytes>, continuation: Pieces)
    requires IsBlank(tail)
    ensures ParseParams(tail, params, continuation) == Good(params, continuation)
  {
    hide TrimLeft, TrimRight, ConsumeToken;
    if IsSpaces(tail) {
      TrimSkips(tail, []);
      assert tail + [] == tail;
    } else {
      var i :| IsLoneSemicolon(tail, i);
      var ws, w := tail[..i], tail[i..];
      assert tail == ws + w && w == [SEMICOLON] + tail[i + 1..];
      TrimSkips(ws, w);
      TrimSkips([], w);
      assert [] + w == w;
      assert w[1..] == tail[i + 1..];
      TrimSkips(w[1..], []);
      assert w[1..] + [] == w[1..];
      TrimSkipsRight([SEMICOLON], tail[i + 1..]);
      NothingConsumed();
    }
  }

  lemma NothingConsumed()
    ensures ConsumeToken([]) == ([], [])
  {
  }

  lemma SplitBlank(tail: Bytes) returns (ws: Bytes, rest: Bytes)
    requires IsBlank(tail)
    ensures tail == ws + rest && IsSpaces(ws) && IsBlank(rest) && (rest != [] ==> rest[0] == SEMICOLON)
  {
    if IsSpaces(tail) {
      ws, rest := tail, [];
    } else {
      var i :| IsLoneSemicolon(tail, i);
      ws, rest := tail[..i], tail[i..];
      assert rest[..0] == [] && rest[1..] == tail[i + 1..];
      assert IsLoneSemicolon(rest, 0);
    }
  }

  lemma SpacesHaveNoSemicolon(ws: Bytes)
    requires IsSpaces(ws)
    ensures SEMICOLON !in ws
  {
  }

  // ----- parsing what was printed

  predicate IsLower(s: Bytes) {
    ToLower(s) == s
  }

  /** A parameter name that a parsed map can hold. */
  predicate IsKey(s: Bytes) {
    IsToken(s) && IsLower(s) && STAR !in s
  }

  /** The value a reader meets: still percent-encoded if the name is starred. */
  function ReadValue(value: Bytes): Bytes {
    if NeedsEncoding(value) then EncodedValue(value) else value
  }

  lemma EncodedValueIsToken(value: Bytes)
    ensures IsToken(EncodedValue(value))
  {
    PercentRoundTrip(value);
  }

  lemma Utf8IsLower()
    ensures ToLower(UTF_8) == UTF_8 && TICK !in UTF_8
  {
  }

  lemma EncodedValueDecodes(value: Bytes)
    ensures Decode2231(EncodedValue(value)) == Some(value)
  {
    hide PercentEncode, PercentDecode, ToLower, Cut;
    PercentRoundTrip(value);
    Utf8IsLower();
    var text := PercentEncode(value);
    assert EncodedValue(value) == UTF_8 + [TICK] + ([TICK] + text);
    CutAt(UTF_8, TICK, [TICK] + text);
    assert [TICK] + text == [] + [TICK] + text;
    CutAt([], TICK, text);
  }

  lemma ValueRead(value: Bytes, rest: Bytes)
    requires rest != [] ==> !IsTokenChar(rest[0])
    ensures Value(PrintedValue(value) + rest) == (ReadValue(value), rest)
    ensures PrintedValue(value) != [] && !IsSpace(PrintedValue(value)[0])
  {
    hide Escape, PercentEncode, Unescape, TokenEnd;
    var v := PrintedValue(value) + rest;
    if NeedsEncoding(value) || IsToken(value) {
      if NeedsEncoding(value) {
        EncodedValueIsToken(value);
      }
      var token := ReadValue(value);
      TokenConsumed(token, rest);
      assert v[0] == token[0] && IsTokenChar(token[0]);
    } else {
      EscapeRoundTrip(value, rest);
      assert v[1..] == Escape(value) + [QUOTE] + rest;
    }
  }

  lemma NoTrim(s: Bytes)
    requires s == [] || !IsSpace(s[0])
    ensures TrimLeft(s) == s
    ensures TrimLeft([SPACE] + s) == s
  {
    assert ([SPACE] + s)[1..] == s;
  }

  lemma PrintedKeyIsToken(key: Bytes, value: Bytes)
    requires IsToken(key) && IsLower(key)
    ensures IsToken(PrintedKey(key, value)) && IsLower(PrintedKey(key, value))
  {
    hide NeedsEncoding;
    var name := PrintedKey(key, value);
    assert forall i :: 0 <= i < |key| ==> name[i] == key[i] && ToLower(key)[i] == key[i];
    assert forall i :: 0 <= i < |name| ==> ToLower(name)[i] == name[i];
    assert ToLower(name) == name;
    assert forall i :: 0 <= i < |name| ==> name[i] == STAR || IsTokenChar(name[i]);
    assert name != [];
  }

  /** One printed parameter is read back whole, up to white space, the next semicolon or the end. */
  lemma ParamRead(key: Bytes, value: Bytes, rest: Bytes)
    requires IsToken(key) && IsLower(key)
    requires rest != [] ==> !IsTokenChar(rest[0])
    ensures ConsumeMediaParam(PrintParam(key, value) + rest) == (PrintedKey(key, value), ReadValue(value), rest)
  {
    hide PrintedKey, PrintedValue, Value, TrimLeft, TokenEnd, ToLower, ConsumeToken, ReadValue;
    var name, text := PrintedKey(key, value), PrintedValue(value);
    PrintedKeyIsToken(key, value);
    ValueRead(value, rest);
    var v := PrintParam(key, value) + rest;
    var afterName := [EQUALS] + (text + rest);
    assert v == [SEMICOLON] + ([SPACE] + (name + afterName));
    NoTrim(v);
    assert v[1..] == [SPACE] + (name + afterName);
    assert (name + afterName)[0] == name[0] && IsTokenChar(name[0]);
    NoTrim(name + afterName);
    TokenConsumed(name, afterName);
    NoTrim(afterName);
    assert afterName[1..] == text + rest;
    assert (text + rest)[0] == text[0];
    NoTrim(text + rest);
  }

  function Plain(param: map<Bytes, Bytes>, attrs: seq<Bytes>): map<Bytes, Bytes>
    requires forall a :: a in attrs ==> a in param
  {
    map a | a in attrs && !NeedsEncoding(param[a]) :: param[a]
  }

  function Starred(param: map<Bytes, Bytes>, attrs: seq<Bytes>): Pieces
    requires forall a :: a in attrs ==> a in param
  {
    map a | a in attrs && NeedsEncoding(param[a]) :: map[a + [STAR] := EncodedValue(param[a])]
  }

  lemma StorePrinted(params: map<Bytes, Bytes>, continuation: Pieces, key: Bytes, value: Bytes)
    requires IsKey(key) && key !in params && key !in continuation
    ensures Store(params, continuation, PrintedKey(key, value), ReadValue(value)) ==
      if NeedsEncoding(value) then Good(params, continuation[key := map[key + [STAR] := EncodedValue(value)]])
      else Good(params[key := value], continuation)
  {
    hide NeedsEncoding, EncodedValue;
    if NeedsEncoding(value) {
      CutAt(key, STAR, []);
      assert key + [STAR] + [] == key + [STAR];
    }
  }

  lemma IncreasingTail(attrs: seq<Bytes>)
    requires Increasing(attrs) && attrs != []
    ensures Increasing(attrs[1..]) && attrs[0] !in attrs[1..]
    ensures forall a :: a in attrs <==> a == attrs[0] || a in attrs[1..]
  {
    LessIsTotal(attrs[0], attrs[0]);
    assert attrs == [attrs[0]] + attrs[1..];
  }

  /** Printed text is empty or opens with a semicolon. */
  lemma PrintedOpens(param: map<Bytes, Bytes>, attrs: seq<Bytes>)
    requires forall a :: a in attrs ==> a in param
    ensures var v := PrintParams(param, attrs);
      if attrs == [] then v == [] else v != [] && v[0] == SEMICOLON && !IsSpace(v[0])
  {
    hide PrintedKey, PrintedValue;
  }

  lemma FirstParamRead(param: map<Bytes, Bytes>, attrs: seq<Bytes>, tail: Bytes, params: map<Bytes, Bytes>, continuation: Pieces)
    requires forall a :: a in attrs ==> a in param
    requires attrs != [] && IsKey(attrs[0]) && attrs[0] !in params && attrs[0] !in continuation && IsBlank(tail)
    ensures var key := attrs[0];
      var value, v, rest := param[key], PrintParams(param, attrs) + tail, PrintParams(param, attrs[1..]) + tail;
      ParseParams(v, params, continuation) ==
        if NeedsEncoding(value) then ParseParams(rest, params, continuation[key := map[key + [STAR] := EncodedValue(value)]])
        else ParseParams(rest, params[key := value], continuation)
  {
    hide NeedsEncoding, EncodedValue, PrintParam, ConsumeMediaParam, Store, IsKey, TrimLeft, IsBlank;
    var key := attrs[0];
    var value, v, rest := param[key], PrintParams(param, attrs) + tail, PrintParams(param, attrs[1..]) + tail;
    PrintedOpens(param, attrs);
    PrintedOpens(param, attrs[1..]);
    BlankOpens(tail);
    assert v == PrintParam(key, value) + rest && v[0] == PrintParams(param, attrs)[0];
    assert rest != [] ==> rest[0] == if attrs[1..] == [] then tail[0] else PrintParams(param, attrs[1..])[0];
    KeyIsLower(key);
    ParamRead(key, value, rest);
    NoTrim(v);
    StorePrinted(params, continuation, key, value);
  }

  lemma PlainFirst(param: map<Bytes, Bytes>, attrs: seq<Bytes>, params: map<Bytes, Bytes>)
    requires forall a :: a in attrs ==> a in param
    requires attrs != [] && attrs[0] !in attrs[1..]
    requires forall a :: a in attrs <==> a == attrs[0] || a in attrs[1..]
    ensures var key, more := attrs[0], attrs[1..];
      if NeedsEncoding(param[key]) then Plain(param, attrs) == Plain(param, more)
      else params + Plain(param, attrs) == params[key := param[key]] + Plain(param, more)
  {
    hide NeedsEncoding;
  }

  lemma StarredFirst(param: map<Bytes, Bytes>, attrs: seq<Bytes>, continuation: Pieces)
    requires forall a :: a in attrs ==> a in param
    requires attrs != [] && attrs[0] !in attrs[1..]
    requires forall a :: a in attrs <==> a == attrs[0] || a in attrs[1..]
    ensures var key, more := attrs[0], attrs[1..];
      if NeedsEncoding(param[key]) then
        continuation + Starred(param, attrs) == continuation[key := map[key + [STAR] := EncodedValue(param[key])]] + Starred(param, more)
      else Starred(param, attrs) == Starred(param, more)
  {
    hide NeedsEncoding, EncodedValue;
  }

  lemma {:induction false} ParamsRead(
      param: map<Bytes, Bytes>, attrs: seq<Bytes>, tail: Bytes, params: map<Bytes, Bytes>, continuation: Pieces)
    requires forall a :: a in attrs ==> a in param && IsKey(a) && a !in params && a !in continuation
    requires Increasing(attrs) && IsBlank(tail)
    ensures ParseParams(PrintParams(param, attrs) + tail, params, continuation) ==
      Good(params + Plain(param, attrs), continuation + Starred(param, attrs))
  {
    hide NeedsEncoding, EncodedValue, PrintParam, IsKey, Increasing, IsBlank;
    if attrs == [] {
      assert params + map[] == params && continuation + map[] == continuation;
      assert PrintParams(param, attrs) + tail == tail;
      hide ParseParams;
      BlankEnds(tail, params, continuation);
    } else {
      hide ParseParams, PrintParams, Plain, Starred;
      var key, more := attrs[0], attrs[1..];
      var value := param[key];
      IncreasingTail(attrs);
      FirstParamRead(param, attrs, tail, params, continuation);
      PlainFirst(param, attrs, params);
      StarredFirst(param, attrs, continuation);
      if NeedsEncoding(value) {
        ParamsRead(param, more, tail, params, continuation[key := map[key + [STAR] := EncodedValue(value)]]);
      } else {
        ParamsRead(param, more, tail, params[key := value], continuation);
      }
    }
  }

  lemma KeyIsLower(key: Bytes)
    requires IsKey(key)
    ensures IsToken(key) && IsLower(key) && forall value :: PrintedKey(key, value) != []
  {
    hide NeedsEncoding;
  }

  lemma StitchPrinted(param: map<Bytes, Bytes>, attrs: seq<Bytes>)
    requires ListsKeys(attrs, param.Keys)
    ensures StitchAll(Plain(param, attrs), Starred(param, attrs)) == param
  {
    hide NeedsEncoding, EncodedValue, Decode2231;
    forall a | a in param && NeedsEncoding(param[a])
      ensures Stitch(a, Starred(param, attrs)[a]) == Some(param[a])
    {
      EncodedValueDecodes(param[a]);
    }
  }

  lemma LowerTwice(s: Bytes)
    ensures ToLower(ToLower(s)) == ToLower(s)
    ensures IsToken(s) ==> IsToken(ToLower(s))
  {
  }

  lemma TypeIsTrimmed(t: Bytes)
    requires IsType(t)
    ensures SEMICOLON !in ToLower(t)
    ensures TrimSpace(ToLower(ToLower(t))) == ToLower(t)
  {
    hide TrimSpace;
    var low := ToLower(t);
    LowerTwice(t);
    assert forall i :: 0 <= i < |t| ==> IsTokenChar(t[i]) || t[i] == SLASH;
    assert forall i :: 0 <= i < |t| ==> low[i] == LowerByte(t[i]);
    assert t != [] && !IsSpace(low[0]) && !IsSpace(low[|low| - 1]);
    NothingToTrim(low);
  }

  /** White space round a type is trimmed. */
  lemma TrimAround(t: Bytes, ws1: Bytes, ws2: Bytes)
    requires IsType(t) && IsSpaces(ws1) && IsSpaces(ws2)
    ensures TrimSpace(ToLower(ws1 + t + ws2)) == ToLower(t)
    ensures TrimSpace(ToLower(ws1 + ToLower(t) + ws2)) == ToLower(t)
  {
    hide TrimLeft, TrimRight, IsType;
    TypeEnds(t);
    LowerTwice(t);
    var low := ToLower(t);
    forall s | s == t || s == low ensures TrimSpace(ToLower(ws1 + s + ws2)) == low {
      LowerAround(ws1, s, ws2);
      assert ws1 + low + ws2 == ws1 + (low + ws2);
      TrimSkips(ws1, low + ws2);
      TrimSkipsRight(low, ws2);
    }
  }

  lemma LowerAround(ws1: Bytes, s: Bytes, ws2: Bytes)
    requires IsSpaces(ws1) && IsSpaces(ws2)
    ensures ToLower(ws1 + s + ws2) == ws1 + ToLower(s) + ws2
  {
  }

  lemma TypeEnds(t: Bytes)
    requires IsType(t)
    ensures var low := ToLower(t); low != [] && !IsSpace(low[0]) && !IsSpace(low[|low| - 1])
  {
    var low := ToLower(t);
    assert forall i :: 0 <= i < |t| ==> IsTokenChar(t[i]) || t[i] == SLASH;
    assert forall i :: 0 <= i < |t| ==> low[i] == LowerByte(t[i]);
  }

  lemma TypeChecks(t: Bytes)
    requires IsType(t)
    ensures CheckDisposition(ToLower(t)) == None
  {
    hide ToLower, ConsumeToken, IsToken, Cut;
    var (major, sub, found) := Cut(t, SLASH);
    LowerOfParts(t);
    LowerTwice(major);
    LowerTwice(sub);
    LowerTwice(t);
    if found {
      var tail := [SLASH] + ToLower(sub);
      assert ToLower(major) + [SLASH] + ToLower(sub) == ToLower(major) + tail;
      TokenConsumed(ToLower(major), tail);
      assert tail[1..] == ToLower(sub) && ToLower(sub) + [] == ToLower(sub);
      TokenConsumed(ToLower(sub), []);
      TokenIsText(ToLower(major));
      TokenIsText(ToLower(sub));
    } else {
      assert ToLower(t) + [] == ToLower(t);
      TokenConsumed(ToLower(t), []);
      TokenIsText(ToLower(t));
    }
  }

  lemma TokenIsText(s: Bytes)
    requires IsToken(s)
    ensures s != []
  {
  }

  lemma CutPrinted(low: Bytes, v: Bytes)
    requires SEMICOLON !in low
    requires v != [] ==> v[0] == SEMICOLON
    ensures Cut(low + v, SEMICOLON).0 == low
    ensures (low + v)[|low|..] == v
  {
    hide Cut;
    if v == [] {
      assert low + v == low;
    } else {
      assert v == [SEMICOLON] + v[1..];
      assert low + ([SEMICOLON] + v[1..]) == low + [SEMICOLON] + v[1..];
      CutAt(low, SEMICOLON, v[1..]);
    }
  }

  /** Parsing what FormatMediaType printed gives back the lower-case type and exactly the parameters; white space,
      or one semicolon with white space round it, may follow. */
  lemma FormatThenParse(t: Bytes, param: map<Bytes, Bytes>, tail: Bytes)
    requires IsType(t) && (forall a :: a in param ==> IsKey(a)) && IsBlank(tail)
    ensures Parse(Format(t, param) + tail) == Outcome(ToLower(t), Some(param), None)
  {
    hide ToLower, CheckDisposition, TrimSpace, IsType, PrintParams, ParseParams, Increasing,
      Cut, StitchAll, Plain, Starred, IsToken, IsKey, IsBlank;
    var attrs := Listing(param);
    forall a | a in param ensures IsToken(a) {
      KeyIsLower(a);
    }
    var low, v := ToLower(t), PrintParams(param, attrs);
    PrintedOpens(param, attrs);
    ParamsRead(param, attrs, tail, map[], map[]);
    assert map[] + Plain(param, attrs) == Plain(param, attrs);
    assert map[] + Starred(param, attrs) == Starred(param, attrs);
    StitchPrinted(param, attrs);
    if v == [] {
      BlankEnds(tail, map[], map[]);
      assert v + tail == tail && low + v + tail == low + tail;
      TypeThenBlank(t, tail);
    } else {
      TypeIsTrimmed(t);
      TypeChecks(t);
      assert low + v + tail == low + (v + tail);
      CutPrinted(low, v + tail);
    }
  }

  lemma TypeThenBlank(t: Bytes, tail: Bytes)
    requires IsType(t) && IsBlank(tail)
    ensures Parse(ToLower(t) + tail) == Outcome(ToLower(t), Some(StitchAll(map[], map[])), None)
  {
    hide ToLower, CheckDisposition, TrimSpace, IsType, ParseParams, Cut, StitchAll, IsBlank;
    var ws, rest := SplitBlank(tail);
    var low := ToLower(t);
    assert low + tail == low + ws + rest && [] + low + ws == low + ws;
    SpacesHaveNoSemicolon(ws);
    TypeIsTrimmed(t);
    TypeChecks(t);
    CutPrinted(low + ws, rest);
    TrimAround(t, [], ws);
    BlankEnds(rest, map[], map[]);
  }

  // ----- which maps can come back

  ghost predicate HasKeys(params: map<Bytes, Bytes>, continuation: Pieces) {
    && (forall k :: k in params ==> IsLower(k) && STAR !in k)
    && (forall k :: k in continuation ==> IsLower(k) && STAR !in k)
  }

  lemma StoreKeepsKeys(params: map<Bytes, Bytes>, continuation: Pieces, key: Bytes, value: Bytes)
    requires HasKeys(params, continuation) && IsLower(key)
    ensures var r := Store(params, continuation, key, value);
      r.Good? ==> HasKeys(r.params, r.continuation)
  {
    var base := Cut(key, STAR).0;
    assert forall i :: 0 <= i < |base| ==> base[i] == key[i] && LowerByte(key[i]) == key[i];
    assert ToLower(base) == base;
  }

  lemma {:induction false} ParseParamsKeepsKeys(v: Bytes, params: map<Bytes, Bytes>, continuation: Pieces)
    requires HasKeys(params, continuation)
    ensures var r := ParseParams(v, params, continuation);
      r.Good? ==> HasKeys(r.params, r.continuation)
    decreases |v|
  {
    hide ConsumeMediaParam, Store, HasKeys;
    var w := TrimLeft(v);
    if w != [] {
      var (key, value, rest) := ConsumeMediaParam(w);
      ConsumeMediaParamShrinks(w);
      if key != [] {
        StoreKeepsKeys(params, continuation, key, value);
        var r := Store(params, continuation, key, value);
        if r.Good? {
          ParseParamsKeepsKeys(rest, r.params, r.continuation);
        }
      }
    }
  }

  /** Every parameter name the parser returns is in lower case and free of stars. */
  lemma ParsedKeys(v: Bytes)
    ensures Parse(v).params.Some? ==> forall k :: k in Parse(v).params.value ==> IsLower(k) && STAR !in k
  {
    hide ParseParams, Stitch, CheckDisposition, TrimSpace;
    ParseParamsKeepsKeys(v[|Cut(v, SEMICOLON).0|..], map[], map[]);
  }

  /** The round trip holds for exactly the maps whose names are lower-case tokens without a star, of any values. */
  lemma RoundTrip(t: Bytes, param: map<Bytes, Bytes>)
    ensures Parse(Format(t, param)) == Outcome(ToLower(t), Some(param), None)
      <==> IsType(t) && forall a :: a in param ==> IsKey(a)
  {
    hide ToLower, Parse;
    if IsType(t) && forall a :: a in param ==> IsKey(a) {
      FormatThenParse(t, param, []);
      assert Format(t, param) + [] == Format(t, param);
    } else {
      ParsedKeys(Format(t, param));
      NoTypeInEmpty();
    }
  }

  lemma NoTypeInEmpty()
    ensures Parse([]) == Outcome([], None, Some(NoMediaType))
  {
    assert ToLower([]) == [];
    assert TokenEnd([]) == 0;
  }

  // ----- values split into numbered parts

  /** A part of a split value, sent as it is or percent-encoded (the first one with its charset). */
  datatype Part = Simple(text: Bytes) | Encoded(text: Bytes)

  function Texts(parts: seq<Part>): Bytes {
    if parts == [] then [] else parts[0].text + Texts(parts[1..])
  }

  /** pieces holds exactly the parts n, n + 1, ... of parts, with none after the last. */
  ghost predicate HoldsParts(key: Bytes, pieces: map<Bytes, Bytes>, parts: seq<Part>, n: nat) {
    if parts == [] then SimplePart(key, n) !in pieces && EncodedPart(key, n) !in pieces
    else
      && (match parts[0]
          case Simple(text) => SimplePart(key, n) in pieces && pieces[SimplePart(key, n)] == text
          case Encoded(text) =>
            && SimplePart(key, n) !in pieces && EncodedPart(key, n) in pieces
            && pieces[EncodedPart(key, n)] == if n == 0 then EncodedValue(text) else PercentEncode(text))
      && HoldsParts(key, pieces, parts[1..], n + 1)
  }

  lemma {:induction false} PartsJoin(key: Bytes, pieces: map<Bytes, Bytes>, parts: seq<Part>, n: nat)
    requires HoldsParts(key, pieces, parts, n)
    ensures JoinFrom(key, pieces, n) == Texts(parts)
    decreases |parts|
  {
    hide SimplePart, EncodedPart, EncodedValue, PercentEncode, Decode2231, PercentDecode, Unseen;
    if parts != [] {
      PartsJoin(key, pieces, parts[1..], n + 1);
      EncodedValueDecodes(parts[0].text);
      PercentRoundTrip(parts[0].text);
    }
  }

  /** A value split over numbered parts, plain and encoded ones in any mix, is put together again in order. */
  lemma PartsStitch(key: Bytes, pieces: map<Bytes, Bytes>, parts: seq<Part>)
    requires parts != [] && HoldsParts(key, pieces, parts, 0) && key + [STAR] !in pieces
    ensures Stitch(key, pieces) == Some(Texts(parts))
  {
    hide SimplePart, EncodedPart, JoinFrom;
    PartsJoin(key, pieces, parts, 0);
  }
}
