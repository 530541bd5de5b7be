/** What a header with encoded words stands for, said by the parts it is made of
    (src/mime/encodedword.go; sections 2, 4.2 and 6.2 of RFC 2047). */
module Headers {
  import opened Basics
  import opened Slices
  import MediaType
  import EncodedWord
  import opened Parameters
  import Utf8

  type Decoder = EncodedWord.Decoder

  // ----- the text of a word

  /** In the Q encoding unit stands for the byte b. */
  ghost predicate QUnit(unit: Bytes, b: byte) {
    || (unit == ['_' as int] && b == ' ' as int)
    || (unit == [b] && b != '_' as int && b != '=' as int && (' ' as int <= b <= '~' as int || b == 9 || b == 10 || b == 13))
    || (|unit| == 3 && unit[0] == '=' as int && HexDigit(unit[1], b / 16) && HexDigit(unit[2], b % 16))
  }

  ghost predicate QUnits(units: seq<Bytes>, content: Bytes) {
    |units| == |content| && forall i :: 0 <= i < |units| ==> QUnit(units[i], content[i])
  }

  lemma QUnitIsRead(unit: Bytes, b: byte, rest: Bytes)
    requires QUnit(unit, b)
    ensures EncodedWord.QDecode(unit + rest) == MediaType.Prepend([b], EncodedWord.QDecode(rest))
  {
    hide MediaType.IsHex, MediaType.Unhex, HexDigit;
    assert (unit + rest)[|unit|..] == rest;
    if |unit| == 3 {
      DigitIsHex(unit[1], b / 16);
      DigitIsHex(unit[2], b % 16);
      assert (unit + rest)[0] == unit[0] && (unit + rest)[1] == unit[1] && (unit + rest)[2] == unit[2];
      assert b == 16 * (b / 16) + b % 16;
    } else {
      assert (unit + rest)[0] == unit[0];
    }
  }

  lemma {:induction false} UnitsAreRead(units: seq<Bytes>, content: Bytes)
    requires QUnits(units, content)
    ensures EncodedWord.QDecode(Flatten(units)) == Some(content)
  {
    if units != [] {
      QUnitIsRead(units[0], content[0], Flatten(units[1..]));
      UnitsAreRead(units[1..], content[1..]);
      assert content == [content[0]] + content[1..];
      hide EncodedWord.QDecode;
    }
  }

  /** Text that is read is made of such units. */
  lemma {:induction false} TextHasUnits(text: Bytes) returns (units: seq<Bytes>)
    requires EncodedWord.QDecode(text).Some?
    ensures Flatten(units) == text && QUnits(units, EncodedWord.QDecode(text).value)
    decreases |text|
  {
    units := [];
    if text != [] {
      var n := if text[0] == '=' as int then 3 else 1;
      var rest := TextHasUnits(text[n..]);
      units := [text[..n]] + rest;
      assert units[1..] == rest && text == text[..n] + text[n..];
      FirstUnit(text, n);
    }
  }

  lemma FirstUnit(text: Bytes, n: nat)
    requires text != [] && EncodedWord.QDecode(text).Some? && n == if text[0] == '=' as int then 3 else 1
    ensures n <= |text| && EncodedWord.QDecode(text[n..]).Some?
    ensures var content := EncodedWord.QDecode(text).value;
      content != [] && QUnit(text[..n], content[0]) && content[1..] == EncodedWord.QDecode(text[n..]).value
  {
    if n == 3 {
      FirstHexUnit(text);
    } else {
      assert text[..1] == [text[0]];
    }
  }

  lemma FirstHexUnit(text: Bytes)
    requires text != [] && text[0] == '=' as int && EncodedWord.QDecode(text).Some?
    ensures |text| >= 3 && EncodedWord.QDecode(text[3..]).Some?
    ensures var content := EncodedWord.QDecode(text).value;
      content != [] && QUnit(text[..3], content[0]) && content[1..] == EncodedWord.QDecode(text[3..]).value
  {
    hide MediaType.IsHex, MediaType.Unhex, QUnit;
    HexUnitIsRead(text);
    hide EncodedWord.QDecode;
    HexUnit(text[..3], text[1], text[2]);
    var b, rest := 16 * MediaType.Unhex(text[1]) + MediaType.Unhex(text[2]), EncodedWord.QDecode(text[3..]).value;
    assert ([b] + rest)[0] == b && ([b] + rest)[1..] == rest;
  }

  lemma HexUnitIsRead(text: Bytes)
    requires text != [] && text[0] == '=' as int && EncodedWord.QDecode(text).Some?
    ensures |text| >= 3 && MediaType.IsHex(text[1]) && MediaType.IsHex(text[2]) && EncodedWord.QDecode(text[3..]).Some?
    ensures EncodedWord.QDecode(text).value ==
      [16 * MediaType.Unhex(text[1]) + MediaType.Unhex(text[2])] + EncodedWord.QDecode(text[3..]).value
  {
    hide MediaType.IsHex, MediaType.Unhex;
  }

  lemma HexUnit(unit: Bytes, c1: byte, c2: byte)
    requires unit == ['=' as int, c1, c2] && MediaType.IsHex(c1) && MediaType.IsHex(c2)
    ensures QUnit(unit, 16 * MediaType.Unhex(c1) + MediaType.Unhex(c2))
  {
    hide MediaType.IsHex, MediaType.Unhex, HexDigit;
    HexIsDigit(c1);
    HexIsDigit(c2);
    SixteenTimes(MediaType.Unhex(c1), MediaType.Unhex(c2));
  }

  /** What a word's text holds: in base64, or in the Q encoding, and in no other. */
  ghost predicate Holds(d: Decoder, encoding: byte, text: Bytes, content: Bytes) {
    || ((encoding == 'b' as int || encoding == 'B' as int) && d.base64(text) == Some(content))
    || ((encoding == 'q' as int || encoding == 'Q' as int)
        && exists units: seq<Bytes> :: Flatten(units) == text && QUnits(units, content))
  }

  lemma TextHolds(d: Decoder, encoding: byte, text: Bytes, content: Bytes)
    ensures EncodedWord.DecodeText(d, encoding, text) == Some(content) <==> Holds(d, encoding, text, content)
  {
    hide EncodedWord.QDecode, Flatten, QUnits;
    if encoding == 'q' as int || encoding == 'Q' as int {
      if EncodedWord.QDecode(text) == Some(content) {
        var units := TextHasUnits(text);
      }
      if units: seq<Bytes> :| Flatten(units) == text && QUnits(units, content) {
        UnitsAreRead(units, content);
      }
    }
  }

  // ----- its characters

  /** name is the lower-case base in some mixture of cases; the long s, U+017F, is a case of s. */
  ghost predicate NameOf(name: Bytes, base: Bytes) {
    if base == [] then name == []
    else
      || (name != [] && IsCaseOf(name[0], base[0]) && NameOf(name[1..], base[1..]))
      || (base[0] == 's' as int && |name| >= 2 && name[..2] == [0xC5, 0xBF] && NameOf(name[2..], base[1..]))
  }

  ghost function Encoded(runes: seq<int>): Bytes {
    if runes == [] then [] else Utf8.EncodeRune(runes[0]) + Encoded(runes[1..])
  }

  /** The encoding of characters is read as them. */
  lemma {:induction false} EncodedRunes(runes: seq<int>)
    requires forall i :: 0 <= i < |runes| ==> Utf8.IsScalar(runes[i])
    ensures Utf8.Runes(Encoded(runes)) == runes
  {
    hide Utf8.EncodeRune, Utf8.DecodeRune;
    if runes != [] {
      var p, rest := Utf8.EncodeRune(runes[0]), Encoded(runes[1..]);
      Utf8.EncodeThenDecode(runes[0], rest);
      EncodedRunes(runes[1..]);
      assert (p + rest)[|p|..] == rest;
    }
  }

  const ISO_8859_1: Bytes := [
    'i' as int, 's' as int, 'o' as int, '-' as int, '8' as int, '8' as int, '5' as int, '9' as int, '-' as int, '1' as int]

  ghost function AsciiRunes(content: Bytes): (runes: seq<int>)
    ensures |runes| == |content|
    ensures forall i :: 0 <= i < |content| ==> runes[i] == if content[i] < 0x80 then content[i] else 0xFFFD
  {
    seq<int>(|content|, i requires 0 <= i < |content| => if content[i] < 0x80 then content[i] as int else 0xFFFD)
  }

  /** The text for the bytes of a word: they are UTF-8, or each is a character, or each is a character if it is
      below 0x80 and U+FFFD if not, or the reader tells; None if it refuses. */
  ghost function TextOf(d: Decoder, charset: Bytes, content: Bytes): Option<Bytes> {
    if NameOf(charset, UTF_8) then Some(content)
    else if NameOf(charset, ISO_8859_1) then Some(Encoded(content))
    else if NameOf(charset, US_ASCII) then
      Some(Encoded(AsciiRunes(content)))
    else d.reader(charset, content)
  }

  lemma {:induction false} NamesFold(name: Bytes, base: Bytes)
    requires forall i :: 0 <= i < |base| ==> !('A' as int <= base[i] <= 'Z' as int) && base[i] != 0xC5
    ensures NameOf(name, base) <==> EncodedWord.FoldName(name) == base
  {
    if name != [] && base != [] {
      NamesFold(name[1..], base[1..]);
      assert base == [base[0]] + base[1..];
      if |name| >= 2 && name[0] == 0xC5 && name[1] == 0xBF {
        NamesFold(name[2..], base[1..]);
      }
    }
  }

  lemma {:induction false} NamesInLowerCase(name: Bytes, base: Bytes)
    requires forall i :: 0 <= i < |base| ==> !('A' as int <= base[i] <= 'Z' as int) && base[i] != 's' as int
    ensures NameOf(name, base) <==> MediaType.ToLower(name) == base
  {
    if name != [] && base != [] {
      NamesInLowerCase(name[1..], base[1..]);
      assert base == [base[0]] + base[1..];
      assert MediaType.ToLower(name) == [MediaType.LowerByte(name[0])] + MediaType.ToLower(name[1..]);
    }
  }

  lemma {:induction false} Latin1IsEncoded(content: Bytes)
    ensures EncodedWord.FromLatin1(content) == Encoded(content)
  {
    if content != [] {
      Latin1IsEncoded(content[1..]);
    }
  }

  lemma {:induction false} AsciiIsEncoded(content: Bytes)
    ensures EncodedWord.FromAscii(content) == Encoded(AsciiRunes(content))
  {
    hide Utf8.EncodeRune;
    if content != [] {
      AsciiIsEncoded(content[1..]);
      assert AsciiRunes(content)[1..] == AsciiRunes(content[1..]);
      Utf8.EncodeAscii(if content[0] < 0x80 then content[0] else 0);
    }
  }

  lemma ConvertGivesText(d: Decoder, charset: Bytes, content: Bytes)
    ensures EncodedWord.Convert(d, charset, content) == TextOf(d, charset, content)
  {
    assert UTF_8 == MediaType.UTF_8 && ISO_8859_1 == EncodedWord.ISO_8859_1 && US_ASCII == MediaType.US_ASCII;
    NamesInLowerCase(charset, UTF_8);
    NamesFold(charset, ISO_8859_1);
    NamesFold(charset, US_ASCII);
    Latin1IsEncoded(content);
    AsciiIsEncoded(content);
    hide NameOf, EncodedWord.FoldName, Encoded, EncodedWord.FromLatin1, EncodedWord.FromAscii;
  }

  // ----- where words stand

  /** Nowhere in s does b come right after a. */
  ghost predicate Apart(s: Bytes, a: byte, b: byte) {
    forall k :: 0 <= k < |s| - 1 ==> s[k] == a ==> s[k + 1] != b
  }

  lemma {:induction false} PairAt(before: Bytes, a: byte, b: byte, after: Bytes)
    requires Apart(before, a, b) && a != b
    ensures EncodedWord.IndexPair(before + [a, b] + after, a, b) == |before|
  {
    var s := before + [a, b] + after;
    if before != [] {
      assert s[1..] == before[1..] + [a, b] + after;
      assert s[0] == before[0] && s[1] == if |before| > 1 then before[1] else a;
      PairAt(before[1..], a, b, after);
    }
  }

  lemma {:induction false} PairFound(s: Bytes, a: byte, b: byte)
    requires a != b
    ensures var i := EncodedWord.IndexPair(s, a, b);
      if i < 0 then Apart(s, a, b) else !Apart(s, a, b) && Apart(s[..i], a, b) && s == s[..i] + [a, b] + s[i + 2..]
  {
    if |s| >= 2 && !(s[0] == a && s[1] == b) {
      PairFound(s[1..], a, b);
      var i := EncodedWord.IndexPair(s[1..], a, b);
      if i >= 0 {
        assert s[..i + 1] == [s[0]] + s[1..][..i];
        assert s[1..][i + 2..] == s[i + 3..];
      } else {
        assert forall k :: 0 < k < |s| - 1 ==> s[k] == s[1..][k - 1] && s[k + 1] == s[1..][k];
      }
    }
  }

  /** What follows the "=?" of a word that is complete, whether or not its text can be read. */
  ghost predicate Complete(s: Bytes, charset: Bytes, encoding: byte, text: Bytes, rest: Bytes) {
    && '?' as int !in charset && Apart(text, '?' as int, '=' as int)
    && s == charset + ['?' as int, encoding, '?' as int] + text + ['?' as int, '=' as int] + rest
  }

  lemma CompleteIsRead(s: Bytes, charset: Bytes, encoding: byte, text: Bytes, rest: Bytes)
    requires Complete(s, charset, encoding, text, rest)
    ensures EncodedWord.ReadWord(s) == Some((charset, encoding, text, |charset| + |text| + 5))
    ensures s[|charset| + |text| + 5..] == rest
  {
    hide EncodedWord.IndexPair, IndexByte;
    var k := |charset|;
    var tail := text + ['?' as int, '=' as int] + rest;
    assert s == charset + ['?' as int] + ([encoding, '?' as int] + tail);
    IndexByteAt(charset, '?' as int, [encoding, '?' as int] + tail);
    PairAt(text, '?' as int, '=' as int, rest);
    assert s[..k] == charset && s[k + 1] == encoding && s[k + 2] == '?' as int;
    assert s[k + 3..] == tail;
    assert s[k + 3..k + 3 + |text|] == tail[..|text|] == text;
  }

  lemma ReadIsComplete(s: Bytes)
    requires EncodedWord.ReadWord(s).Some?
    ensures var (charset, encoding, text, n) := EncodedWord.ReadWord(s).value;
      Complete(s, charset, encoding, text, s[n..]) && n == |charset| + |text| + 5
  {
    hide EncodedWord.IndexPair;
    var (charset, encoding, text, n) := EncodedWord.ReadWord(s).value;
    var k := |charset|;
    PairFound(s[k + 3..], '?' as int, '=' as int);
    assert s[k + 3..][..|text|] == text && s[k + 3..][|text| + 2..] == s[n..];
    assert s == s[..k] + [s[k], s[k + 1], s[k + 2]] + s[k + 3..];
  }

  // ----- what a header means

  /** A header is taken apart into what stands before an encoded word and the word, and into what stands before
      a "=?" and that "=?" if the word it opens is complete but its text cannot be read. */
  datatype Part =
    | Word(gap: Bytes, charset: Bytes, encoding: byte, text: Bytes, content: Bytes)
    | Refused(gap: Bytes)

  function Spelled(part: Part): Bytes {
    part.gap + ['=' as int, '?' as int] +
      if part.Refused? then []
      else part.charset + ['?' as int, part.encoding, '?' as int] + part.text + ['?' as int, '=' as int]
  }

  function Spell(parts: seq<Part>, after: Bytes): Bytes {
    if parts == [] then after else Spelled(parts[0]) + Spell(parts[1..], after)
  }

  /** part may stand before rest. */
  ghost predicate IsPart(d: Decoder, part: Part, rest: Bytes) {
    && Apart(part.gap, '=' as int, '?' as int)
    && match part
       case Word(_, charset, encoding, text, content) =>
         '?' as int !in charset && Apart(text, '?' as int, '=' as int) && Holds(d, encoding, text, content)
       case Refused(_) =>
         exists charset, encoding, text, more :: Complete(rest, charset, encoding, text, more)
           && forall content :: !Holds(d, encoding, text, content)
  }

  /** after opens no word, or the first "=?" in it opens one that is not complete. */
  ghost predicate IsEnd(after: Bytes) {
    || Apart(after, '=' as int, '?' as int)
    || exists gap, rest :: OpensUnfinished(after, gap, rest)
  }

  ghost predicate OpensUnfinished(after: Bytes, gap: Bytes, rest: Bytes) {
    && after == gap + ['=' as int, '?' as int] + rest && Apart(gap, '=' as int, '?' as int)
    && forall charset, encoding, text, more :: !Complete(rest, charset, encoding, text, more)
  }

  ghost predicate AreParts(d: Decoder, parts: seq<Part>, after: Bytes) {
    if parts == [] then IsEnd(after)
    else IsPart(d, parts[0], Spell(parts[1..], after)) && AreParts(d, parts[1..], after)
  }

  ghost predicate OnlyWhitespace(s: Bytes) {
    forall i :: 0 <= i < |s| ==> s[i] == ' ' as int || s[i] == 9 || s[i] == 10 || s[i] == 13
  }

  /** Words are replaced by their text, and what stands between two of them is dropped if it is white space;
      everything else stays. */
  ghost function Meaning(d: Decoder, parts: seq<Part>, after: Bytes, between: bool): Option<Bytes> {
    if parts == [] then Some(after)
    else
      match parts[0]
      case Refused(gap) => MediaType.Prepend(gap + ['=' as int, '?' as int], Meaning(d, parts[1..], after, false))
      case Word(gap, charset, _, _, content) =>
        var kept := if between && OnlyWhitespace(gap) then [] else gap;
        match TextOf(d, charset, content)
        case None => None
        case Some(text) => MediaType.Prepend(kept + text, Meaning(d, parts[1..], after, true))
  }

  lemma PartIsNext(gap: Bytes, rest: Bytes)
    requires Apart(gap, '=' as int, '?' as int)
    ensures var header := gap + ['=' as int, '?' as int] + rest;
      && header[..|gap|] == gap && header[|gap| + 2..] == rest
      && EncodedWord.NextWord(header) ==
        match EncodedWord.ReadWord(rest)
        case None => None
        case Some((charset, encoding, text, length)) =>
          Some(EncodedWord.Word(|gap|, charset, encoding, text, |gap| + 2 + length))
  {
    hide EncodedWord.IndexPair, EncodedWord.ReadWord;
    PairAt(gap, '=' as int, '?' as int, rest);
    assert (gap + ['=' as int, '?' as int] + rest)[|gap| + 2..] == rest;
  }

  lemma EndStays(d: Decoder, after: Bytes, between: bool)
    requires IsEnd(after)
    ensures EncodedWord.DecodeFrom(d, after, between) == Some(after)
  {
    hide EncodedWord.ReadWord, EncodedWord.IndexPair, Complete, Apart;
    if Apart(after, '=' as int, '?' as int) {
      PairFound(after, '=' as int, '?' as int);
    } else {
      var gap, rest :| OpensUnfinished(after, gap, rest);
      PartIsNext(gap, rest);
      if EncodedWord.ReadWord(rest).Some? {
        ReadIsComplete(rest);
      }
    }
  }

  lemma RefusedIsCopied(d: Decoder, gap: Bytes, rest: Bytes, between: bool)
    requires IsPart(d, Refused(gap), rest)
    ensures EncodedWord.DecodeFrom(d, gap + ['=' as int, '?' as int] + rest, between) ==
      MediaType.Prepend(gap + ['=' as int, '?' as int], EncodedWord.DecodeFrom(d, rest, false))
  {
    hide EncodedWord.ReadWord, EncodedWord.NextWord, EncodedWord.DecodeText, EncodedWord.Convert, EncodedWord.HasNonWhitespace,
      Apart, Complete, Holds, MediaType.Prepend;
    var header := gap + ['=' as int, '?' as int] + rest;
    PartIsNext(gap, rest);
    var charset, encoding, text, more :| Complete(rest, charset, encoding, text, more)
      && forall content :: !Holds(d, encoding, text, content);
    CompleteIsRead(rest, charset, encoding, text, more);
    if EncodedWord.DecodeText(d, encoding, text).Some? {
      TextHolds(d, encoding, text, EncodedWord.DecodeText(d, encoding, text).value);
    }
    assert header[..|gap| + 2] == gap + ['=' as int, '?' as int];
  }

  lemma WordIsRead(d: Decoder, part: Part, rest: Bytes, between: bool)
    requires part.Word? && IsPart(d, part, rest)
    ensures EncodedWord.DecodeFrom(d, Spelled(part) + rest, between) ==
      match TextOf(d, part.charset, part.content)
      case None => None
      case Some(text) =>
        var kept := if between && OnlyWhitespace(part.gap) then [] else part.gap;
        MediaType.Prepend(kept + text, EncodedWord.DecodeFrom(d, rest, true))
  {
    hide EncodedWord.ReadWord, EncodedWord.NextWord, EncodedWord.DecodeText, EncodedWord.Convert,
      Apart, Holds, MediaType.Prepend, TextOf;
    var Word(gap, charset, encoding, text, content) := part;
    var s := charset + ['?' as int, encoding, '?' as int] + text + ['?' as int, '=' as int] + rest;
    assert Spelled(part) + rest == gap + ['=' as int, '?' as int] + s;
    PartIsNext(gap, s);
    CompleteIsRead(s, charset, encoding, text, rest);
    TextHolds(d, encoding, text, content);
    ConvertGivesText(d, charset, content);
    var header := gap + ['=' as int, '?' as int] + s;
    assert header[|gap| + 2 + (|charset| + |text| + 5)..] == s[|charset| + |text| + 5..];
  }

  lemma {:induction false} PartsAreDecoded(d: Decoder, parts: seq<Part>, after: Bytes, between: bool)
    requires AreParts(d, parts, after)
    ensures EncodedWord.DecodeFrom(d, Spell(parts, after), between) == Meaning(d, parts, after, between)
    decreases |parts|
  {
    hide EncodedWord.DecodeFrom, IsPart, IsEnd, TextOf, OnlyWhitespace, MediaType.Prepend;
    if parts == [] {
      EndStays(d, after, between);
    } else {
      var rest := Spell(parts[1..], after);
      if parts[0].Refused? {
        RefusedIsCopied(d, parts[0].gap, rest, between);
        assert Spelled(parts[0]) == parts[0].gap + ['=' as int, '?' as int];
        PartsAreDecoded(d, parts[1..], after, false);
      } else {
        WordIsRead(d, parts[0], rest, between);
        PartsAreDecoded(d, parts[1..], after, true);
      }
    }
  }

  /** Decoding a header gives its meaning, for whatever parts it is made of. */
  lemma {:induction false} HeaderHasMeaning(d: Decoder, parts: seq<Part>, after: Bytes)
    requires AreParts(d, parts, after)
    ensures EncodedWord.DecodeHeader(d, Spell(parts, after)) == Meaning(d, parts, after, false)
  {
    PartsAreDecoded(d, parts, after, false);
  }

  /** Of what stands between two words only linear white space is dropped. */
  lemma TextBetweenWords(d: Decoder, first: Part, second: Part, after: Bytes, text1: Bytes, text2: Bytes)
    requires first.Word? && second.Word? && IsPart(d, first, Spelled(second) + after) && IsPart(d, second, after)
    requires Apart(after, '=' as int, '?' as int)
    requires TextOf(d, first.charset, first.content) == Some(text1)
    requires TextOf(d, second.charset, second.content) == Some(text2)
    ensures EncodedWord.DecodeHeader(d, Spelled(first) + Spelled(second) + after) ==
      Some(first.gap + text1 + (if OnlyWhitespace(second.gap) then [] else second.gap) + text2 + after)
  {
    hide Spelled, Apart, IsPart, TextOf, OnlyWhitespace, EncodedWord.DecodeFrom;
    var parts := [first, second];
    assert parts[1..] == [second] && parts[1..][1..] == [];
    assert Spell([second], after) == Spelled(second) + after;
    HeaderHasMeaning(d, parts, after);
    assert Spelled(first) + (Spelled(second) + after) == Spelled(first) + Spelled(second) + after;
    var kept := if OnlyWhitespace(second.gap) then [] else second.gap;
    assert Meaning(d, [second], after, true) == Some(kept + text2 + after);
    assert first.gap + text1 + (kept + text2 + after) == first.gap + text1 + kept + text2 + after;
  }

  /** And every header is made of such parts. */
  lemma {:induction false} HeaderHasParts(d: Decoder, header: Bytes) returns (parts: seq<Part>, after: Bytes)
    ensures AreParts(d, parts, after) && Spell(parts, after) == header
    decreases |header|
  {
    hide EncodedWord.ReadWord, EncodedWord.DecodeText, EncodedWord.IndexPair, IsEnd, IsPart, Spelled;
    parts, after := [], header;
    if EncodedWord.NextWord(header).None? {
      NoneIsEnd(header);
    } else {
      var part, rest := FirstPart(d, header);
      parts, after := HeaderHasParts(d, rest);
      parts := [part] + parts;
      assert parts[1..] == parts[1..];
    }
  }

  lemma NoneIsEnd(header: Bytes)
    requires EncodedWord.NextWord(header).None?
    ensures IsEnd(header)
  {
    hide EncodedWord.ReadWord, EncodedWord.IndexPair, Complete;
    PairFound(header, '=' as int, '?' as int);
    var start := EncodedWord.IndexPair(header, '=' as int, '?' as int);
    if start >= 0 {
      var rest := header[start + 2..];
      forall charset, encoding, text, more ensures !Complete(rest, charset, encoding, text, more) {
        if Complete(rest, charset, encoding, text, more) {
          CompleteIsRead(rest, charset, encoding, text, more);
        }
      }
      assert OpensUnfinished(header, header[..start], rest);
    }
  }

  lemma FirstPart(d: Decoder, header: Bytes) returns (part: Part, rest: Bytes)
    requires EncodedWord.NextWord(header).Some?
    ensures IsPart(d, part, rest) && Spelled(part) + rest == header && |rest| < |header|
  {
    hide EncodedWord.ReadWord, EncodedWord.IndexPair, EncodedWord.DecodeText, Complete, Holds, Apart;
    PairFound(header, '=' as int, '?' as int);
    var w := EncodedWord.NextWord(header).value;
    var gap, s := header[..w.start], header[w.start + 2..];
    ReadIsComplete(s);
    var content := EncodedWord.DecodeText(d, w.encoding, w.text);
    if content.Some? {
      TextHolds(d, w.encoding, w.text, content.value);
      part, rest := Word(gap, w.charset, w.encoding, w.text, content.value), header[w.end..];
      WordIsComplete(header, gap, s, w.charset, w.encoding, w.text, rest);
    } else {
      part, rest := Refused(gap), s;
      forall content ensures !Holds(d, w.encoding, w.text, content) {
        TextHolds(d, w.encoding, w.text, content);
      }
    }
  }

  lemma WordIsComplete(header: Bytes, gap: Bytes, s: Bytes, charset: Bytes, encoding: byte, text: Bytes, rest: Bytes)
    requires header == gap + ['=' as int, '?' as int] + s && Complete(s, charset, encoding, text, rest)
    ensures '?' as int !in charset && Apart(text, '?' as int, '=' as int)
    ensures header == gap + ['=' as int, '?' as int] +
      (charset + ['?' as int, encoding, '?' as int] + text + ['?' as int, '=' as int]) + rest
  {
  }

  /** A "=?" that opens no complete word hides the words after it. */
  lemma UnfinishedWordHides(d: Decoder, text: Bytes)
    ensures var word := EncodedWord.OpenWord(UTF_8) + EncodedWord.QString(text) + EncodedWord.CLOSE_WORD;
      && EncodedWord.DecodeHeader(d, word) == Some(text)
      && EncodedWord.DecodeHeader(d, ['=' as int, '?' as int] + word) == Some(['=' as int, '?' as int] + word)
  {
    hide EncodedWord.QString, EncodedWord.DecodeHeader, EncodedWord.OpenWord;
    WordDecodes(d, text);
    WordOpens(text);
    WordIsHidden(d, EncodedWord.OpenWord(UTF_8) + EncodedWord.QString(text) + EncodedWord.CLOSE_WORD);
  }

  lemma WordDecodes(d: Decoder, text: Bytes)
    ensures var word := EncodedWord.OpenWord(UTF_8) + EncodedWord.QString(text) + EncodedWord.CLOSE_WORD;
      EncodedWord.DecodeHeader(d, word) == Some(text)
  {
    hide EncodedWord.QString, EncodedWord.DecodeFrom, EncodedWord.OpenWord;
    assert MediaType.ToLower(UTF_8) == UTF_8;
    EncodedWord.WordsDecode(d, UTF_8, [text], [], false);
    var words := EncodedWord.Words(UTF_8, [text]);
    assert [] + words == words;
    assert Flatten([text]) == text + Flatten<byte>([]) == text;
  }

  lemma WordOpens(text: Bytes)
    ensures var word := EncodedWord.OpenWord(UTF_8) + EncodedWord.QString(text) + EncodedWord.CLOSE_WORD;
      |word| > 6 && word[..4] == ['=' as int, '?' as int, 'u' as int, 't' as int]
  {
    hide EncodedWord.QString;
  }

  lemma WordIsHidden(d: Decoder, word: Bytes)
    requires |word| > 6 && word[..4] == ['=' as int, '?' as int, 'u' as int, 't' as int]
    ensures EncodedWord.DecodeHeader(d, ['=' as int, '?' as int] + word) == Some(['=' as int, '?' as int] + word)
  {
    hide EncodedWord.IndexPair, EncodedWord.DecodeFrom, EncodedWord.ReadWord, EncodedWord.NextWord;
    FirstQuestion(word);
    assert [] + ['=' as int, '?' as int] + word == ['=' as int, '?' as int] + word;
    PartIsNext([], word);
    NoWordStays(d, ['=' as int, '?' as int] + word);
  }

  lemma FirstQuestion(word: Bytes)
    requires |word| > 6 && word[..4] == ['=' as int, '?' as int, 'u' as int, 't' as int]
    ensures EncodedWord.ReadWord(word) == None
  {
    hide EncodedWord.IndexPair;
    assert word[..1] == ['=' as int] && word[1] == '?' as int && word[3] == 't' as int by {
      assert word[..4][1] == word[1] && word[..4][3] == word[3];
    }
    assert word == ['=' as int] + ['?' as int] + word[2..];
    IndexByteAt(['=' as int], '?' as int, word[2..]);
  }

  lemma NoWordStays(d: Decoder, header: Bytes)
    requires EncodedWord.NextWord(header) == None
    ensures EncodedWord.DecodeHeader(d, header) == Some(header)
  {
  }
}
