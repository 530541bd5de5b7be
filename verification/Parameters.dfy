/** What a media type's parameters stand for, said by the parts they are made of
    (src/mime/mediatype.go; section 5.1 of RFC 2045, section 4 of RFC 2231). */
module Parameters {
  import opened Basics
  import opened Slices
  import M = MediaType

  // ----- the characters

  ghost predicate Space(c: byte) { 9 <= c <= 13 || c == ' ' as int }

  ghost predicate Spaces(s: Bytes) { forall i :: 0 <= i < |s| ==> Space(s[i]) }

  ghost predicate Special(c: byte) {
    exists i :: 0 <= i < |SPECIALS| && SPECIALS[i] as int == c
  }

  const SPECIALS := "()<>@,;:\\\"/[]?="

  ghost predicate TokenByte(c: byte) { '!' as int <= c <= '~' as int && !Special(c) }

  ghost predicate Token(s: Bytes) { s != [] && forall i :: 0 <= i < |s| ==> TokenByte(s[i]) }

  lemma SameBytes(c: byte)
    ensures Space(c) <==> M.IsSpace(c)
    ensures Special(c) <==> M.IsTSpecial(c)
    ensures TokenByte(c) <==> M.IsTokenChar(c)
  {
    assert SPECIALS[0] == '(' && SPECIALS[1] == ')' && SPECIALS[2] == '<' && SPECIALS[3] == '>' && SPECIALS[4] == '@'
      && SPECIALS[5] == ',' && SPECIALS[6] == ';' && SPECIALS[7] == ':' && SPECIALS[8] == '\\' && SPECIALS[9] == '"'
      && SPECIALS[10] == '/' && SPECIALS[11] == '[' && SPECIALS[12] == ']' && SPECIALS[13] == '?' && SPECIALS[14] == '=';
  }

  lemma SameWords(s: Bytes)
    ensures Spaces(s) <==> M.IsSpaces(s)
    ensures Token(s) <==> M.IsToken(s)
  {
    hide Space, TokenByte, M.IsSpace, M.IsTokenChar;
    forall i | 0 <= i < |s| ensures (Space(s[i]) <==> M.IsSpace(s[i])) && (TokenByte(s[i]) <==> M.IsTokenChar(s[i])) {
      SameBytes(s[i]);
    }
  }

  // ----- quoted strings

  /** The quote that opens and closes a quoted string. */
  const CLOSE: Bytes := ['"' as int]

  /** In a quoted string unit stands for b: a special byte after a backslash, or any byte but a quote or the end of
      a line.  A backslash on its own stands for itself. */
  ghost predicate QuotedUnit(unit: Bytes, b: byte) {
    || (unit == ['\\' as int, b] && Special(b))
    || (unit == [b] && b != '"' as int && b != '\r' as int && b != '\n' as int)
  }

  /** The units of a quoted string, where a backslash on its own is not taken for the start of an escape. */
  ghost predicate QuotedUnits(units: seq<Bytes>, value: Bytes) {
    && |units| == |value|
    && (forall i :: 0 <= i < |units| ==> QuotedUnit(units[i], value[i]))
    && (forall i :: 0 <= i < |units| && units[i] == ['\\' as int] ==> i + 1 < |units| && !Special(units[i + 1][0]))
  }

  lemma UnitsTail(units: seq<Bytes>, value: Bytes)
    requires QuotedUnits(units, value) && units != []
    ensures QuotedUnits(units[1..], value[1..])
  {
    assert forall i :: 0 <= i < |units| - 1 ==> units[1..][i] == units[i + 1] && value[1..][i] == value[i + 1];
  }

  lemma {:induction false} UnitsAreRead(units: seq<Bytes>, value: Bytes, rest: Bytes)
    requires QuotedUnits(units, value)
    ensures M.Unescape(Flatten(units) + CLOSE + rest) == Some((value, rest))
  {
    if units == [] {
      assert Flatten(units) + CLOSE + rest == CLOSE + rest;
      assert (CLOSE + rest)[1..] == rest;
    } else {
      UnitsTail(units, value);
      UnitsAreRead(units[1..], value[1..], rest);
      var more := Flatten(units[1..]) + CLOSE + rest;
      assert Flatten(units) + CLOSE + rest == units[0] + more;
      assert |units| > 1 ==> more[0] == units[1][0] by {
        assert |units| > 1 ==> QuotedUnit(units[1], value[1]) && units[1..][0] == units[1];
      }
      UnitIsRead(units[0], value[0], more);
      assert value == [value[0]] + value[1..];
    }
  }

  lemma UnitIsRead(unit: Bytes, b: byte, more: Bytes)
    requires QuotedUnit(unit, b) && more != [] && (unit == ['\\' as int] ==> !Special(more[0]))
    ensures M.Unescape(unit + more) == M.PrependText(b, M.Unescape(more))
  {
    hide Special, M.IsTSpecial;
    SameBytes(b);
    SameBytes(more[0]);
    assert (unit + more)[|unit|..] == more;
    assert (unit + more)[0] == unit[0] && (unit + more)[1] == if |unit| == 2 then unit[1] else more[0];
  }

  lemma {:induction false} QuotedHasUnits(s: Bytes) returns (units: seq<Bytes>)
    requires M.Unescape(s).Some?
    ensures var (value, rest) := M.Unescape(s).value;
      QuotedUnits(units, value) && s == Flatten(units) + CLOSE + rest
    decreases |s|
  {
    hide Special, M.IsTSpecial;
    if s[0] == '"' as int {
      units := [];
      assert s == [] + CLOSE + s[1..];
    } else {
      SameBytes(s[0]);
      if |s| > 1 { SameBytes(s[1]); }
      var n := if s[0] == '\\' as int && |s| > 1 && M.IsTSpecial(s[1]) then 2 else 1;
      var rest := QuotedHasUnits(s[n..]);
      units := [s[..n]] + rest;
      assert units[1..] == rest;
      FirstQuoted(s, n, rest);
    }
  }

  lemma {:induction false} FirstQuoted(s: Bytes, n: nat, units: seq<Bytes>)
    requires s != [] && s[0] != '"' as int && M.Unescape(s).Some?
    requires n == if s[0] == '\\' as int && |s| > 1 && M.IsTSpecial(s[1]) then 2 else 1
    requires M.Unescape(s[n..]).Some? && QuotedUnits(units, M.Unescape(s[n..]).value.0)
    requires s[n..] == Flatten(units) + CLOSE + M.Unescape(s[n..]).value.1
    ensures var (value, rest) := M.Unescape(s).value;
      QuotedUnits([s[..n]] + units, value) && s == Flatten([s[..n]] + units) + CLOSE + rest
  {
    hide Special, M.IsTSpecial, Flatten;
    var (value, rest) := M.Unescape(s).value;
    var all := [s[..n]] + units;
    var tail := M.Unescape(s[n..]).value.0;
    assert all[1..] == units;
    FlattenFirst(all);
    assert s == s[..n] + s[n..];
    assert value == [value[0]] + tail;
    if |s| > 1 { SameBytes(s[1]); }
    assert QuotedUnit(s[..n], value[0]);
    if s[..n] == ['\\' as int] {
      NextIsOrdinary(s[1..], units, tail, rest);
    }
    forall i | 0 <= i < |all| && all[i] == ['\\' as int] ensures i + 1 < |all| && !Special(all[i + 1][0]) {
      if i > 0 {
        assert units[i - 1] == ['\\' as int] && all[i + 1] == units[i];
      } else {
        assert all[1] == units[0];
      }
    }
  }

  lemma NextIsOrdinary(s: Bytes, units: seq<Bytes>, value: Bytes, rest: Bytes)
    requires QuotedUnits(units, value) && s == Flatten(units) + CLOSE + rest && !M.IsTSpecial(s[0])
    ensures units != [] && !Special(units[0][0])
  {
    FlattenOpens(units, value);
    SameBytes(s[0]);
    hide Flatten;
    assert s[0] == (Flatten(units) + CLOSE)[0];
  }

  lemma FlattenFirst(units: seq<Bytes>)
    requires units != []
    ensures Flatten(units) == units[0] + Flatten(units[1..])
  {
  }

  lemma FlattenOpens(units: seq<Bytes>, value: Bytes)
    requires QuotedUnits(units, value)
    ensures if units == [] then Flatten(units) == [] else Flatten(units) != [] && Flatten(units)[0] == units[0][0]
  {
  }

  // ----- one parameter

  /** text stands for value, rest coming after it: a token as long as it can be, or a quoted string. */
  ghost predicate IsValue(text: Bytes, value: Bytes, rest: Bytes) {
    || (Token(text) && value == text && (rest != [] ==> !TokenByte(rest[0])))
    || exists units: seq<Bytes> :: QuotedUnits(units, value) && text == CLOSE + Flatten(units) + CLOSE
  }

  lemma ValueIsRead(text: Bytes, value: Bytes, rest: Bytes)
    requires IsValue(text, value, rest)
    ensures M.Value(text + rest) == (value, rest)
    ensures text != [] && !Space(text[0])
  {
    hide Space, TokenByte, M.IsTokenChar, M.Unescape, QuotedUnits, Flatten, M.ConsumeToken;
    SameWords(text);
    if rest != [] { SameBytes(rest[0]); }
    SameBytes(text[0]);
    if Token(text) && value == text && (rest != [] ==> !TokenByte(rest[0])) {
      TokenValue(text, rest);
    } else {
      var units: seq<Bytes> :| QuotedUnits(units, value) && text == CLOSE + Flatten(units) + CLOSE;
      UnitsAreRead(units, value, rest);
      assert (text + rest)[1..] == Flatten(units) + CLOSE + rest;
      assert text[0] == CLOSE[0];
    }
  }

  lemma TokenValue(text: Bytes, rest: Bytes)
    requires M.IsToken(text) && (rest != [] ==> !M.IsTokenChar(rest[0]))
    ensures M.Value(text + rest) == (text, rest) && !M.IsSpace(text[0])
  {
    hide M.ConsumeToken, M.Unescape;
    M.TokenConsumed(text, rest);
    assert M.IsTokenChar(text[0]);
  }

  lemma ValueHasText(v: Bytes) returns (text: Bytes)
    requires var (value, rest) := M.Value(v); !(value == [] && rest == v)
    ensures var (value, rest) := M.Value(v); v == text + rest && IsValue(text, value, rest)
  {
    hide M.Unescape, TokenByte, M.IsTokenChar, QuotedUnits, Flatten, M.TokenEnd;
    var (value, rest) := M.Value(v);
    if v[0] != '"' as int {
      text := value;
      SameWords(text);
      if rest != [] { SameBytes(rest[0]); }
    } else {
      var units := QuotedHasUnits(v[1..]);
      text := CLOSE + Flatten(units) + CLOSE;
      assert v == CLOSE + v[1..];
    }
  }

  /** A parameter as it stands, with white space wherever it may be. */
  datatype Param = Param(ws0: Bytes, ws1: Bytes, name: Bytes, ws2: Bytes, ws3: Bytes, text: Bytes, value: Bytes)

  function Spelled(p: Param): Bytes {
    p.ws0 + [';' as int] + p.ws1 + p.name + p.ws2 + ['=' as int] + p.ws3 + p.text
  }

  ghost predicate IsParam(p: Param, rest: Bytes) {
    && Spaces(p.ws0) && Spaces(p.ws1) && Spaces(p.ws2) && Spaces(p.ws3)
    && Token(p.name) && IsValue(p.text, p.value, rest)
  }

  lemma ParamIsRead(p: Param, rest: Bytes)
    requires IsParam(p, rest)
    ensures M.ConsumeMediaParam(Spelled(p) + rest) == (M.ToLower(p.name), p.value, rest)
    ensures M.ToLower(p.name) != []
  {
    hide Space, TokenByte, Spaces, Token, IsValue, M.IsTokenChar, M.IsSpace, M.ConsumeToken, M.Value, M.ToLower, M.IsToken,
      M.TrimLeft, M.IsSpaces;
    ValueIsRead(p.text, p.value, rest);
    SameWords(p.ws0);
    SameWords(p.ws1);
    SameWords(p.ws2);
    SameWords(p.ws3);
    SameWords(p.name);
    var s3 := p.text + rest;
    SameBytes(s3[0]);
    var s2 := ['=' as int] + (p.ws3 + s3);
    var s1 := p.name + (p.ws2 + s2);
    var s0 := [';' as int] + (p.ws1 + s1);
    assert Spelled(p) + rest == p.ws0 + s0;
    assert s0[1..] == p.ws1 + s1 && s2[1..] == p.ws3 + s3;
    OrdinaryBytes();
    NameOpens(p.name);
    M.TrimSkips(p.ws0, s0);
    M.TrimSkips(p.ws1, s1);
    NameIsRead(p.name, p.ws2, s2);
    M.TrimSkips(p.ws2, s2);
    M.TrimSkips(p.ws3, s3);
  }

  lemma OrdinaryBytes()
    ensures !M.IsSpace(';' as int) && !M.IsSpace('=' as int) && !M.IsTokenChar('=' as int)
  {
  }

  lemma NameOpens(name: Bytes)
    requires M.IsToken(name)
    ensures name != [] && !M.IsSpace(name[0]) && M.ToLower(name) != []
  {
    assert M.IsTokenChar(name[0]);
  }

  lemma NameIsRead(name: Bytes, ws: Bytes, rest: Bytes)
    requires M.IsToken(name) && M.IsSpaces(ws) && rest != [] && rest[0] == '=' as int
    ensures M.ConsumeToken(name + (ws + rest)) == (name, ws + rest)
  {
    assert ws != [] ==> M.IsSpace(ws[0]) && !M.IsTokenChar(ws[0]);
    assert (ws + rest)[0] == if ws == [] then rest[0] else ws[0];
    M.TokenConsumed(name, ws + rest);
  }

  lemma {:induction false} TrimSplits(s: Bytes) returns (ws: Bytes)
    ensures s == ws + M.TrimLeft(s) && M.IsSpaces(ws)
  {
    ws := [];
    if s != [] && M.IsSpace(s[0]) {
      var more := TrimSplits(s[1..]);
      ws := [s[0]] + more;
    }
  }

  /** What the parser takes for a parameter is one. */
  lemma ReadIsParam(v: Bytes) returns (p: Param)
    requires M.ConsumeMediaParam(v).0 != []
    ensures var (key, value, rest) := M.ConsumeMediaParam(v);
      v == Spelled(p) + rest && IsParam(p, rest) && key == M.ToLower(p.name) && value == p.value
  {
    hide Space, TokenByte, Spaces, Token, IsValue, M.IsTokenChar, M.IsSpace, M.TokenEnd, M.Value, M.ToLower, M.IsToken,
      M.TrimLeft, M.IsSpaces;
    var ws0 := TrimSplits(v);
    var s0 := M.TrimLeft(v);
    var ws1 := TrimSplits(s0[1..]);
    var (name, s2) := M.ConsumeToken(M.TrimLeft(s0[1..]));
    var ws2 := TrimSplits(s2);
    var s3 := M.TrimLeft(s2);
    var ws3 := TrimSplits(s3[1..]);
    var s4 := M.TrimLeft(s3[1..]);
    var text := ValueHasText(s4);
    SameWords(ws0);
    SameWords(ws1);
    SameWords(ws2);
    SameWords(ws3);
    SameWords(name);
    p := Param(ws0, ws1, name, ws2, ws3, text, M.Value(s4).0);
    assert s0 == [';' as int] + s0[1..] && s3 == ['=' as int] + s3[1..];
    JoinParts(p, M.Value(s4).1);
  }

  lemma JoinParts(p: Param, rest: Bytes)
    ensures Spelled(p) + rest ==
      p.ws0 + ([';' as int] + (p.ws1 + (p.name + (p.ws2 + (['=' as int] + (p.ws3 + (p.text + rest)))))))
  {
  }

  // ----- all of them

  function Spell(ps: seq<Param>, after: Bytes): Bytes {
    if ps == [] then after else Spelled(ps[0]) + Spell(ps[1..], after)
  }

  ghost predicate AreParams(ps: seq<Param>, after: Bytes) {
    ps != [] ==> IsParam(ps[0], Spell(ps[1..], after)) && AreParams(ps[1..], after)
  }

  /** Nothing but white space, and perhaps one semicolon. */
  ghost predicate IsBlank(after: Bytes) {
    Spaces(after) || exists ws1, ws2 :: LoneSemicolon(after, ws1, ws2)
  }

  ghost predicate LoneSemicolon(after: Bytes, ws1: Bytes, ws2: Bytes) {
    Spaces(ws1) && Spaces(ws2) && after == ws1 + [';' as int] + ws2
  }

  /** Neither blank nor the beginning of a parameter. */
  ghost predicate IsBroken(after: Bytes) {
    !IsBlank(after) && forall p, rest :: IsParam(p, rest) ==> after != Spelled(p) + rest
  }

  lemma BlankIsBlank(after: Bytes)
    ensures IsBlank(after) <==> M.IsBlank(after)
  {
    SameWords(after);
    if IsBlank(after) && !Spaces(after) {
      hide *;
      BlankIsFound(after);
    }
    if M.IsBlank(after) && !M.IsSpaces(after) {
      hide *;
      FoundIsBlank(after);
    }
  }

  lemma BlankIsFound(after: Bytes)
    requires IsBlank(after) && !Spaces(after)
    ensures M.IsBlank(after)
  {
    var ws1, ws2 :| LoneSemicolon(after, ws1, ws2);
    LoneIsFound(after, ws1, ws2);
  }

  lemma FoundIsBlank(after: Bytes)
    requires M.IsBlank(after) && !M.IsSpaces(after)
    ensures IsBlank(after)
  {
    var i :| M.IsLoneSemicolon(after, i);
    FoundIsLone(after, i);
  }

  lemma LoneIsFound(after: Bytes, ws1: Bytes, ws2: Bytes)
    requires LoneSemicolon(after, ws1, ws2)
    ensures M.IsLoneSemicolon(after, |ws1|)
  {
    hide Spaces, M.IsSpaces;
    SameWords(ws1);
    SameWords(ws2);
    assert after[..|ws1|] == ws1 && after[|ws1| + 1..] == ws2;
  }

  lemma FoundIsLone(after: Bytes, i: int)
    requires M.IsLoneSemicolon(after, i)
    ensures LoneSemicolon(after, after[..i], after[i + 1..])
  {
    hide Spaces, M.IsSpaces;
    SameWords(after[..i]);
    SameWords(after[i + 1..]);
    assert after == after[..i] + [';' as int] + after[i + 1..];
  }

  lemma BrokenFails(after: Bytes, params: map<Bytes, Bytes>, continuation: M.Pieces)
    requires IsBroken(after)
    ensures M.ParseParams(after, params, continuation) == M.Bad(M.InvalidParameter)
  {
    hide IsParam, Spelled, M.ConsumeMediaParam, M.TrimLeft, M.TrimRight, M.Store, IsBlank, M.IsBlank, M.IsSpaces;
    BlankIsBlank(after);
    var ws := TrimSplits(after);
    var w := M.TrimLeft(after);
    WholeIsBlank(ws, w);
    SemicolonIsBlank(ws, w);
    NoParamBegins(after, ws, w);
    M.ConsumeMediaParamShrinks(w);
  }

  lemma WholeIsBlank(ws: Bytes, w: Bytes)
    requires M.IsSpaces(ws)
    ensures w == [] ==> M.IsBlank(ws + w)
  {
    assert w == [] ==> ws + w == ws;
  }

  lemma SemicolonIsBlank(ws: Bytes, w: Bytes)
    requires M.IsSpaces(ws) && (w != [] ==> !M.IsSpace(w[0]))
    ensures M.TrimSpace(w) == [';' as int] ==> M.IsBlank(ws + w)
  {
    hide M.TrimLeft, M.TrimRight;
    M.TrimSkips([], w);
    assert [] + w == w;
    if M.TrimSpace(w) == [';' as int] {
      var ws2 := TrimSplitsRight(w);
      var s := ws + w;
      assert s[..|ws|] == ws && s[|ws| + 1..] == ws2 && s[|ws|] == w[0];
      assert M.IsLoneSemicolon(s, |ws|);
    }
  }

  lemma {:induction false} TrimSplitsRight(s: Bytes) returns (ws: Bytes)
    ensures s == M.TrimRight(s) + ws && M.IsSpaces(ws)
  {
    ws := [];
    if s != [] && M.IsSpace(s[|s| - 1]) {
      var more := TrimSplitsRight(s[..|s| - 1]);
      ws := more + [s[|s| - 1]];
      assert s == s[..|s| - 1] + [s[|s| - 1]];
    }
  }

  lemma NoParamBegins(after: Bytes, ws: Bytes, w: Bytes)
    requires IsBroken(after) && after == ws + w && M.IsSpaces(ws)
    ensures M.ConsumeMediaParam(w).0 == []
  {
    hide IsParam, Spelled, M.ConsumeMediaParam, IsBlank, M.IsSpaces;
    if M.ConsumeMediaParam(w).0 != [] {
      var p := ReadIsParam(w);
      MoreSpace(ws, p, M.ConsumeMediaParam(w).2);
    }
  }

  lemma MoreSpace(ws: Bytes, p: Param, rest: Bytes)
    requires M.IsSpaces(ws) && IsParam(p, rest)
    ensures var q := p.(ws0 := ws + p.ws0);
      IsParam(q, rest) && ws + (Spelled(p) + rest) == Spelled(q) + rest
  {
    hide Space, Token, IsValue, M.IsSpace;
    SameWords(ws);
    assert Spelled(p.(ws0 := ws + p.ws0)) == ws + Spelled(p);
  }

  /** Every text is parameters and then something blank or broken. */
  lemma {:induction false} ParamsExist(v: Bytes) returns (ps: seq<Param>, after: Bytes)
    ensures AreParams(ps, after) && Spell(ps, after) == v && (IsBlank(after) || IsBroken(after))
    decreases |v|
  {
    hide IsParam, Spelled, IsBlank;
    ps, after := [], v;
    if p, rest :| IsParam(p, rest) && v == Spelled(p) + rest {
      SpelledIsLong(p);
      ps, after := ParamsExist(rest);
      ps := [p] + ps;
      assert ps[1..] == ps[1..];
    }
  }

  lemma SpelledIsLong(p: Param)
    ensures |Spelled(p)| > 0
  {
  }

  // ----- what they come to

  /** The name a parameter is known by. */
  function Key(p: Param): Bytes {
    M.ToLower(p.name)
  }

  ghost predicate Conflict(ps: seq<Param>, i: int, j: int) {
    0 <= i < j < |ps| && Key(ps[i]) == Key(ps[j]) && ps[i].value != ps[j].value
  }

  /** One name has two values. */
  ghost predicate HasConflict(ps: seq<Param>) {
    exists i, j :: Conflict(ps, i, j)
  }

  ghost predicate HasKey(ps: seq<Param>, key: Bytes) {
    exists i :: 0 <= i < |ps| && Key(ps[i]) == key
  }

  /** What stands before the first star of a name that has one. */
  function Base(key: Bytes): Bytes {
    M.Cut(key, '*' as int).0
  }

  predicate Recorded(params: map<Bytes, Bytes>, continuation: M.Pieces, key: Bytes, value: Bytes) {
    if '*' as int in key then
      Base(key) in continuation && key in continuation[Base(key)] && continuation[Base(key)][key] == value
    else key in params && params[key] == value
  }

  /** The two maps hold exactly the given parameters, the starred ones by what stands before the star. */
  ghost predicate HoldExactly(ps: seq<Param>, params: map<Bytes, Bytes>, continuation: M.Pieces) {
    && (forall i :: 0 <= i < |ps| ==> Recorded(params, continuation, Key(ps[i]), ps[i].value))
    && (forall k :: k in params ==> '*' as int !in k && HasKey(ps, k))
    && (forall b :: b in continuation ==> ArePieces(ps, b, continuation[b]))
  }

  ghost predicate ArePieces(ps: seq<Param>, base: Bytes, pieces: map<Bytes, Bytes>) {
    pieces != map[] && forall k :: k in pieces ==> '*' as int in k && Base(k) == base && HasKey(ps, k)
  }

  lemma HasKeyMore(ps: seq<Param>, p: Param, key: Bytes)
    ensures HasKey(ps + [p], key) <==> HasKey(ps, key) || key == Key(p)
  {
    hide Key;
    assert (ps + [p])[|ps|] == p;
    if i :| 0 <= i < |ps| && Key(ps[i]) == key {
      assert (ps + [p])[i] == ps[i];
    }
  }

  lemma {:induction false} StoreOne(ps: seq<Param>, p: Param, params: map<Bytes, Bytes>, continuation: M.Pieces)
    requires HoldExactly(ps, params, continuation)
    ensures var r := M.Store(params, continuation, Key(p), p.value);
      if Disputed(ps, p) then r == M.Bad(M.DuplicateName) else r.Good? && HoldExactly(ps + [p], r.params, r.continuation)
  {
    hide HoldExactly, Disputed, M.Store;
    StoreFails(ps, p, params, continuation);
    if M.Store(params, continuation, Key(p), p.value).Good? {
      StoreHolds(ps, p, params, continuation);
    }
  }

  /** A parameter before p has its name and another value. */
  ghost predicate Disputed(ps: seq<Param>, p: Param) {
    exists i :: 0 <= i < |ps| && Key(ps[i]) == Key(p) && ps[i].value != p.value
  }

  lemma {:induction false} StoreFails(ps: seq<Param>, p: Param, params: map<Bytes, Bytes>, continuation: M.Pieces)
    requires HoldExactly(ps, params, continuation)
    ensures var r := M.Store(params, continuation, Key(p), p.value);
      r.Bad? <==> Disputed(ps, p)
    ensures var r := M.Store(params, continuation, Key(p), p.value);
      r.Bad? ==> r == M.Bad(M.DuplicateName)
  {
    var key, r := Key(p), M.Store(params, continuation, Key(p), p.value);
    hide Key, M.Cut;
    if r.Bad? {
      assert HasKey(ps, key);
      var i :| 0 <= i < |ps| && Key(ps[i]) == key;
      assert Recorded(params, continuation, key, ps[i].value);
      assert ps[i].value != p.value;
    }
    if i :| 0 <= i < |ps| && Key(ps[i]) == key && ps[i].value != p.value {
      assert Recorded(params, continuation, key, ps[i].value);
    }
  }

  lemma {:induction false} StoreHolds(ps: seq<Param>, p: Param, params: map<Bytes, Bytes>, continuation: M.Pieces)
    requires HoldExactly(ps, params, continuation) && M.Store(params, continuation, Key(p), p.value).Good?
    ensures var r := M.Store(params, continuation, Key(p), p.value);
      HoldExactly(ps + [p], r.params, r.continuation)
  {
    hide Key, HoldExactly, M.Cut;
    if '*' as int in Key(p) {
      StarredHolds(ps, p, params, continuation);
    } else {
      PlainHolds(ps, p, params, continuation);
    }
  }

  lemma {:induction false} PlainHolds(ps: seq<Param>, p: Param, params: map<Bytes, Bytes>, continuation: M.Pieces)
    requires HoldExactly(ps, params, continuation) && '*' as int !in Key(p) && (Key(p) in params ==> params[Key(p)] == p.value)
    ensures HoldExactly(ps + [p], params[Key(p) := p.value], continuation)
  {
    hide Key, HasKey, Base;
    var params1 := params[Key(p) := p.value];
    forall k ensures HasKey(ps + [p], k) <==> HasKey(ps, k) || k == Key(p) {
      HasKeyMore(ps, p, k);
    }
    forall i | 0 <= i < |ps + [p]| ensures Recorded(params1, continuation, Key((ps + [p])[i]), (ps + [p])[i].value) {
      assert i < |ps| ==> Recorded(params, continuation, Key(ps[i]), ps[i].value);
    }
    forall b | b in continuation ensures ArePieces(ps + [p], b, continuation[b]) {
      assert ArePieces(ps, b, continuation[b]);
    }
  }

  lemma {:induction false} StarredHolds(ps: seq<Param>, p: Param, params: map<Bytes, Bytes>, continuation: M.Pieces)
    requires HoldExactly(ps, params, continuation) && '*' as int in Key(p)
    requires Base(Key(p)) in continuation && Key(p) in continuation[Base(Key(p))] ==>
      continuation[Base(Key(p))][Key(p)] == p.value
    ensures var pmap := if Base(Key(p)) in continuation then continuation[Base(Key(p))] else map[];
      HoldExactly(ps + [p], params, continuation[Base(Key(p)) := pmap[Key(p) := p.value]])
  {
    hide Key, HasKey, Base;
    var base := Base(Key(p));
    var pmap := if base in continuation then continuation[base] else map[];
    var continuation1 := continuation[base := pmap[Key(p) := p.value]];
    forall k ensures HasKey(ps + [p], k) <==> HasKey(ps, k) || k == Key(p) {
      HasKeyMore(ps, p, k);
    }
    forall i | 0 <= i < |ps + [p]| ensures Recorded(params, continuation1, Key((ps + [p])[i]), (ps + [p])[i].value) {
      assert i < |ps| ==> Recorded(params, continuation, Key(ps[i]), ps[i].value);
    }
    forall b | b in continuation1 ensures ArePieces(ps + [p], b, continuation1[b]) {
      assert b in continuation ==> ArePieces(ps, b, continuation[b]);
      assert b == base ==> Key(p) in continuation1[b];
    }
  }

  lemma FirstIsStored(p: Param, rest: Bytes, params: map<Bytes, Bytes>, continuation: M.Pieces)
    requires IsParam(p, rest)
    ensures var r := M.Store(params, continuation, Key(p), p.value);
      M.ParseParams(Spelled(p) + rest, params, continuation) ==
        if r.Bad? then r else M.ParseParams(rest, r.params, r.continuation)
  {
    hide M.ConsumeMediaParam, M.Store, M.TrimLeft, M.TrimRight, Spaces, Token, IsValue, M.ToLower;
    var q := p.(ws0 := []);
    var w := Spelled(q) + rest;
    assert Spelled(p) + rest == p.ws0 + w && w[0] == ';' as int;
    NoSpaces();
    SameWords(p.ws0);
    M.TrimSkips(p.ws0, w);
    ParamIsRead(q, rest);
  }

  lemma NoSpaces()
    ensures Spaces([])
  {
  }

  lemma ConflictMore(seen: seq<Param>, p: Param)
    ensures HasConflict(seen + [p]) <==> HasConflict(seen) || Disputed(seen, p)
  {
    hide Key;
    var all := seen + [p];
    assert all[|seen|] == p && forall i :: 0 <= i < |seen| ==> all[i] == seen[i];
    if i, j :| Conflict(all, i, j) {
      assert j < |seen| ==> Conflict(seen, i, j);
    }
    if i, j :| Conflict(seen, i, j) {
      assert Conflict(all, i, j);
    }
    if i :| 0 <= i < |seen| && Key(seen[i]) == Key(p) && seen[i].value != p.value {
      assert Conflict(all, i, |seen|);
    }
  }

  lemma ConflictStays(seen: seq<Param>, more: seq<Param>)
    requires HasConflict(seen)
    ensures HasConflict(seen + more)
  {
    var i, j :| Conflict(seen, i, j);
    assert Conflict(seen + more, i, j);
  }

  lemma {:induction false} ParamsAreStored(
      seen: seq<Param>, ps: seq<Param>, after: Bytes, params: map<Bytes, Bytes>, continuation: M.Pieces)
    requires HoldExactly(seen, params, continuation) && !HasConflict(seen)
    requires AreParams(ps, after) && (IsBlank(after) || IsBroken(after))
    ensures var r := M.ParseParams(Spell(ps, after), params, continuation);
      if HasConflict(seen + ps) then r == M.Bad(M.DuplicateName)
      else if IsBlank(after) then r.Good? && HoldExactly(seen + ps, r.params, r.continuation)
      else r == M.Bad(M.InvalidParameter)
    decreases |ps|
  {
    hide M.ParseParams, M.Store, HoldExactly, HasConflict, Disputed, IsBlank, IsBroken, IsParam, Spelled, Key;
    if ps == [] {
      assert seen + ps == seen;
      if IsBlank(after) {
        BlankIsBlank(after);
        M.BlankEnds(after, params, continuation);
      } else {
        BrokenFails(after, params, continuation);
      }
    } else {
      var p, rest := ps[0], Spell(ps[1..], after);
      assert seen + ps == seen + [p] + ps[1..];
      FirstIsStored(p, rest, params, continuation);
      StoreOne(seen, p, params, continuation);
      ConflictMore(seen, p);
      var r := M.Store(params, continuation, Key(p), p.value);
      if Disputed(seen, p) {
        ConflictStays(seen + [p], ps[1..]);
      } else {
        ParamsAreStored(seen + [p], ps[1..], after, r.params, r.continuation);
      }
    }
  }

  lemma NothingHeld()
    ensures HoldExactly([], map[], map[]) && !HasConflict([])
  {
  }

  /** Which error parameters give, if any, and what they come to if none: DuplicateName just if one name has two
      values, and if not InvalidParameter just if what comes after them is not blank. */
  lemma {:induction false} ParamsHaveMeaning(ps: seq<Param>, after: Bytes)
    requires AreParams(ps, after) && (IsBlank(after) || IsBroken(after))
    ensures var r := M.ParseParams(Spell(ps, after), map[], map[]);
      if HasConflict(ps) then r == M.Bad(M.DuplicateName)
      else if IsBlank(after) then r.Good? && HoldExactly(ps, r.params, r.continuation)
      else r == M.Bad(M.InvalidParameter)
  {
    hide *;
    NothingHeld();
    ParamsAreStored([], ps, after, map[], map[]);
    assert [] + ps == ps;
  }

  // ----- the type before them

  /** The error of a text after the slash of a type: subtype is the token it begins with, if there is one. */
  function SubtypeError(subtype: Bytes, tail: Bytes): Option<M.Error> {
    if subtype == [] then Some(M.ExpectedToken) else if tail != [] then Some(M.UnexpectedContent) else None
  }

  /** The token that s begins with, perhaps an empty one, and what comes after it. */
  ghost predicate Begins(s: Bytes, token: Bytes, tail: Bytes) {
    s == token + tail && (token == [] || Token(token)) && (tail != [] ==> !TokenByte(tail[0]))
  }

  lemma BeginsConsumed(s: Bytes, token: Bytes, tail: Bytes)
    requires Begins(s, token, tail)
    ensures M.ConsumeToken(s) == (token, tail)
  {
    hide TokenByte, M.IsTokenChar, Token;
    SameWords(token);
    if tail != [] { SameBytes(tail[0]); }
    if token != [] {
      M.TokenConsumed(token, tail);
    } else {
      assert s == tail;
    }
  }

  /** Which error a type gives, if any: for a text that begins with no token, that goes on with anything but a slash,
      that has no token after the slash, and that goes on after that. */
  lemma TypeErrors(s: Bytes, major: Bytes, tail: Bytes, subtype: Bytes, more: Bytes)
    requires Begins(s, major, tail) && (tail != [] ==> Begins(tail[1..], subtype, more))
    ensures M.CheckDisposition(s) ==
      if major == [] then Some(M.NoMediaType)
      else if tail == [] then None
      else if tail[0] != '/' as int then Some(M.ExpectedSlash)
      else SubtypeError(subtype, more)
  {
    hide M.ConsumeToken, Begins;
    BeginsConsumed(s, major, tail);
    if tail != [] {
      BeginsConsumed(tail[1..], subtype, more);
    }
  }

  /** A type: a token, or two with a slash between. */
  ghost predicate Type(t: Bytes) {
    Token(t) || exists major, subtype :: TwoTokens(t, major, subtype)
  }

  ghost predicate TwoTokens(t: Bytes, major: Bytes, subtype: Bytes) {
    Token(major) && Token(subtype) && t == major + ['/' as int] + subtype
  }

  lemma TypeIsType(t: Bytes)
    requires Type(t)
    ensures M.IsType(t)
  {
    hide Token, M.IsToken, M.Cut;
    if Token(t) {
      SameWords(t);
      TokenHasNoSlash(t);
    } else {
      var major, subtype :| TwoTokens(t, major, subtype);
      SameWords(major);
      SameWords(subtype);
      TokenHasNoSlash(major);
      M.CutAt(major, '/' as int, subtype);
    }
  }

  lemma TokenHasNoSlash(t: Bytes)
    requires M.IsToken(t)
    ensures '/' as int !in t
  {
    assert !M.IsTokenChar('/' as int);
  }

  // ----- the whole

  /** The map of parameters: those without a star have their values, and those with one are put together. */
  ghost predicate IsMeant(ps: seq<Param>, result: map<Bytes, Bytes>) {
    exists params, continuation :: HoldExactly(ps, params, continuation) && result == M.StitchAll(params, continuation)
  }

  /** Without stars the map has exactly the names and the values that are given. */
  lemma {:induction false} NoStars(ps: seq<Param>, result: map<Bytes, Bytes>)
    requires IsMeant(ps, result) && forall i :: 0 <= i < |ps| ==> '*' as int !in Key(ps[i])
    ensures forall k :: k in result <==> HasKey(ps, k)
    ensures forall i :: 0 <= i < |ps| ==> Key(ps[i]) in result && result[Key(ps[i])] == ps[i].value
  {
    hide Key, M.Stitch;
    var params, continuation :| HoldExactly(ps, params, continuation) && result == M.StitchAll(params, continuation);
    forall b ensures b !in continuation {
      if b in continuation {
        PieceIsNamed(ps, b, continuation[b]);
      }
    }
    forall i | 0 <= i < |ps| ensures Key(ps[i]) in params && params[Key(ps[i])] == ps[i].value {
      assert Recorded(params, continuation, Key(ps[i]), ps[i].value);
    }
  }

  lemma {:induction false} PieceIsNamed(ps: seq<Param>, base: Bytes, pieces: map<Bytes, Bytes>)
    requires ArePieces(ps, base, pieces)
    ensures exists i :: 0 <= i < |ps| && '*' as int in Key(ps[i])
  {
    hide Key;
    var k :| k in pieces;
    assert HasKey(ps, k);
  }

  /** How parsing a media type ends, by its parts: white space, a type, white space, and then, from the first
      semicolon on, parameters and what comes after them. */
  lemma {:induction false} MediaTypeParses(ws1: Bytes, t: Bytes, ws2: Bytes, ps: seq<Param>, after: Bytes)
    requires Spaces(ws1) && Type(t) && Spaces(ws2)
    requires AreParams(ps, after) && (IsBlank(after) || IsBroken(after))
    requires Spell(ps, after) != [] ==> Spell(ps, after)[0] == ';' as int
    ensures var r := M.Parse(ws1 + t + ws2 + Spell(ps, after));
      if HasConflict(ps) then r == M.Outcome([], None, Some(M.DuplicateName))
      else if IsBroken(after) then r == M.Outcome(M.ToLower(t), None, Some(M.InvalidParameter))
      else r.err == None && r.mediatype == M.ToLower(t) && r.params.Some? && IsMeant(ps, r.params.value)
  {
    hide M.Cut, M.ToLower, M.TrimSpace, M.CheckDisposition, M.ParseParams, M.StitchAll, M.IsType, M.IsSpaces,
      HoldExactly, HasConflict, AreParams, IsBlank, Spaces, Type, Spell;
    var rest := Spell(ps, after);
    TypeIsType(t);
    SameWords(ws1);
    SameWords(ws2);
    M.TrimAround(t, ws1, ws2);
    M.TypeChecks(t);
    NoSemicolon(ws1, t, ws2);
    M.CutPrinted(ws1 + t + ws2, rest);
    ParamsHaveMeaning(ps, after);
  }

  lemma NoSemicolon(ws1: Bytes, t: Bytes, ws2: Bytes)
    requires M.IsSpaces(ws1) && M.IsType(t) && M.IsSpaces(ws2)
    ensures ';' as int !in ws1 + t + ws2
  {
    hide M.IsSpaces, M.IsType;
    M.SpacesHaveNoSemicolon(ws1);
    M.SpacesHaveNoSemicolon(ws2);
    TypeHasNoSemicolon(t);
  }

  lemma TypeHasNoSemicolon(t: Bytes)
    requires M.IsType(t)
    ensures ';' as int !in t
  {
    assert !M.IsTokenChar(';' as int);
  }

  /** Anything that has no type before its first semicolon is refused with the error of what stands there. */
  lemma NoTypeParses(ws1: Bytes, t: Bytes, ws2: Bytes, rest: Bytes)
    requires ';' as int !in ws1 + t + ws2 && (rest != [] ==> rest[0] == ';' as int)
    requires Spaces(ws1) && Spaces(ws2) && (t != [] ==> !Space(t[0]) && !Space(t[|t| - 1]))
    requires M.CheckDisposition(M.ToLower(t)) != None
    ensures M.Parse(ws1 + t + ws2 + rest) == M.Outcome([], None, M.CheckDisposition(M.ToLower(t)))
  {
    hide M.Cut, M.CheckDisposition, M.ParseParams, M.StitchAll, M.IsSpaces, M.TrimLeft, M.TrimRight, Space, Spaces, M.ToLower;
    SameWords(ws1);
    SameWords(ws2);
    M.LowerAround(ws1, t, ws2);
    M.CutPrinted(ws1 + t + ws2, rest);
    LowerEnds(t);
    var low := M.ToLower(t);
    if t == [] {
      assert ws1 + low + ws2 == (ws1 + ws2) + [];
      SpacesTogether(ws1, ws2);
      M.TrimSkips(ws1 + ws2, []);
      NothingTrimmed();
    } else {
      assert ws1 + low + ws2 == ws1 + (low + ws2);
      M.TrimSkips(ws1, low + ws2);
      M.TrimSkipsRight(low, ws2);
    }
  }

  lemma NothingTrimmed()
    ensures M.TrimRight([]) == []
  {
  }

  lemma SpacesTogether(ws1: Bytes, ws2: Bytes)
    requires M.IsSpaces(ws1) && M.IsSpaces(ws2)
    ensures M.IsSpaces(ws1 + ws2)
  {
  }

  lemma LowerEnds(t: Bytes)
    requires t != [] ==> !Space(t[0]) && !Space(t[|t| - 1])
    ensures var low := M.ToLower(t);
      if t == [] then low == [] else low != [] && !M.IsSpace(low[0]) && !M.IsSpace(low[|low| - 1])
  {
  }

  // ----- percent encoding

  /** c is the digit for v, in either case. */
  ghost predicate HexDigit(c: byte, v: nat) {
    (v < 10 && c == '0' as int + v) || (10 <= v < 16 && (c == 'A' as int + v - 10 || c == 'a' as int + v - 10))
  }

  lemma DigitIsHex(c: byte, v: nat)
    requires HexDigit(c, v)
    ensures M.IsHex(c) && M.Unhex(c) == v
  {
  }

  lemma HexIsDigit(c: byte)
    requires M.IsHex(c)
    ensures HexDigit(c, M.Unhex(c))
  {
  }

  lemma SixteenTimes(hi: nat, lo: nat)
    requires lo < 16
    ensures (16 * hi + lo) / 16 == hi && (16 * hi + lo) % 16 == lo
  {
  }

  ghost predicate PercentUnit(unit: Bytes, b: byte) {
    || (unit == [b] && b != '%' as int)
    || (|unit| == 3 && unit[0] == '%' as int && HexDigit(unit[1], b / 16) && HexDigit(unit[2], b % 16))
  }

  ghost predicate PercentUnits(units: seq<Bytes>, value: Bytes) {
    |units| == |value| && forall i :: 0 <= i < |units| ==> PercentUnit(units[i], value[i])
  }

  lemma PercentUnitIsRead(unit: Bytes, b: byte, rest: Bytes)
    requires PercentUnit(unit, b)
    ensures M.PercentDecode(unit + rest) == M.Prepend([b], M.PercentDecode(rest))
  {
    hide M.IsHex, M.Unhex, HexDigit;
    assert (unit + rest)[|unit|..] == rest;
    if |unit| == 3 {
      DigitIsHex(unit[1], b / 16);
      DigitIsHex(unit[2], b % 16);
      assert (unit + rest)[0] == unit[0] && (unit + rest)[1] == unit[1] && (unit + rest)[2] == unit[2];
      assert b == 16 * (b / 16) + b % 16;
    } else {
      assert (unit + rest)[0] == unit[0];
    }
  }

  /** A text is decoded byte by byte, from bytes that stand for themselves and from escapes in either case. */
  lemma {:induction false} PercentIsRead(units: seq<Bytes>, value: Bytes)
    requires PercentUnits(units, value)
    ensures M.PercentDecode(Flatten(units)) == Some(value)
  {
    if units != [] {
      PercentUnitIsRead(units[0], value[0], Flatten(units[1..]));
      PercentIsRead(units[1..], value[1..]);
      assert value == [value[0]] + value[1..];
      hide M.PercentDecode;
    }
  }

  /** And no other text is. */
  lemma {:induction false} PercentHasUnits(text: Bytes) returns (units: seq<Bytes>)
    requires M.PercentDecode(text).Some?
    ensures Flatten(units) == text && PercentUnits(units, M.PercentDecode(text).value)
    decreases |text|
  {
    units := [];
    if text != [] {
      var n := if text[0] == '%' as int then 3 else 1;
      FirstPercent(text, n);
      var rest := PercentHasUnits(text[n..]);
      units := [text[..n]] + rest;
      assert units[1..] == rest && text == text[..n] + text[n..];
    }
  }

  lemma FirstPercent(text: Bytes, n: nat)
    requires text != [] && M.PercentDecode(text).Some? && n == if text[0] == '%' as int then 3 else 1
    ensures n <= |text| && M.PercentDecode(text[n..]).Some?
    ensures var value := M.PercentDecode(text).value;
      value != [] && PercentUnit(text[..n], value[0]) && value[1..] == M.PercentDecode(text[n..]).value
  {
    if n == 3 {
      FirstEscape(text);
    } else {
      assert text[..1] == [text[0]];
    }
  }

  lemma FirstEscape(text: Bytes)
    requires text != [] && text[0] == '%' as int && M.PercentDecode(text).Some?
    ensures |text| >= 3 && M.PercentDecode(text[3..]).Some?
    ensures var value := M.PercentDecode(text).value;
      value != [] && PercentUnit(text[..3], value[0]) && value[1..] == M.PercentDecode(text[3..]).value
  {
    hide M.IsHex, M.Unhex, PercentUnit;
    EscapeIsRead(text);
    hide M.PercentDecode;
    EscapeUnit(text[..3], text[1], text[2]);
    var b, rest := 16 * M.Unhex(text[1]) + M.Unhex(text[2]), M.PercentDecode(text[3..]).value;
    assert ([b] + rest)[0] == b && ([b] + rest)[1..] == rest;
  }

  lemma EscapeIsRead(text: Bytes)
    requires text != [] && text[0] == '%' as int && M.PercentDecode(text).Some?
    ensures |text| >= 3 && M.IsHex(text[1]) && M.IsHex(text[2]) && M.PercentDecode(text[3..]).Some?
    ensures M.PercentDecode(text).value == [16 * M.Unhex(text[1]) + M.Unhex(text[2])] + M.PercentDecode(text[3..]).value
  {
    hide M.IsHex, M.Unhex;
  }

  lemma EscapeUnit(unit: Bytes, c1: byte, c2: byte)
    requires unit == ['%' as int, c1, c2] && M.IsHex(c1) && M.IsHex(c2)
    ensures PercentUnit(unit, 16 * M.Unhex(c1) + M.Unhex(c2))
  {
    hide M.IsHex, M.Unhex, HexDigit;
    HexIsDigit(c1);
    HexIsDigit(c2);
    SixteenTimes(M.Unhex(c1), M.Unhex(c2));
  }

  ghost predicate IsCaseOf(c: byte, lower: byte) {
    c == lower || ('a' as int <= lower <= 'z' as int && c == lower - 32)
  }

  /** name is the lower-case base in some mixture of cases. */
  ghost predicate InAnyCase(name: Bytes, base: Bytes) {
    |name| == |base| && forall i :: 0 <= i < |name| ==> IsCaseOf(name[i], base[i])
  }

  const UTF_8: Bytes := ['u' as int, 't' as int, 'f' as int, '-' as int, '8' as int]
  const US_ASCII: Bytes := [
    'u' as int, 's' as int, '-' as int, 'a' as int, 's' as int, 'c' as int, 'i' as int, 'i' as int]

  lemma CaseIsFolded(name: Bytes, base: Bytes)
    requires forall i :: 0 <= i < |base| ==> !('A' as int <= base[i] <= 'Z' as int)
    ensures InAnyCase(name, base) <==> M.ToLower(name) == base
  {
    var low := M.ToLower(name);
    if low == base {
      assert forall i :: 0 <= i < |name| ==> low[i] == M.LowerByte(name[i]);
    }
  }

  /** An encoded value is read if its charset is UTF-8 or ASCII, in any case, whatever the language that it names. */
  lemma EncodedValueIsRead(charset: Bytes, language: Bytes, text: Bytes)
    requires '\'' as int !in charset && '\'' as int !in language
    ensures M.Decode2231(charset + ['\'' as int] + language + ['\'' as int] + text) ==
      if InAnyCase(charset, UTF_8) || InAnyCase(charset, US_ASCII) then M.PercentDecode(text) else None
  {
    hide M.PercentDecode, M.Cut, M.ToLower, InAnyCase;
    var tail := language + ['\'' as int] + text;
    assert charset + ['\'' as int] + language + ['\'' as int] + text == charset + ['\'' as int] + tail;
    M.CutAt(charset, '\'' as int, tail);
    M.CutAt(language, '\'' as int, text);
    assert UTF_8 == M.UTF_8 && US_ASCII == M.US_ASCII;
    CaseIsFolded(charset, UTF_8);
    CaseIsFolded(charset, US_ASCII);
  }
}
