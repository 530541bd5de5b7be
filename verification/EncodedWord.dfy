/** Encoded words in headers, written with the Q encoding and read back by
    src/mime/encodedword.go (sections 2, 4.2, 5 and 6.2 of RFC 2047). */
module EncodedWord {
  import opened Basics
  import opened MediaType
  import opened Slices
  import Utf8

  const QUESTION: byte := '?' as int
  const UNDERSCORE: byte := '_' as int
  const Q: byte := 'q' as int

  const MAX_WORD_LEN := 75
  /** What is left of a word after "=?UTF-8?q?" and "?=". */
  const MAX_CONTENT_LEN := MAX_WORD_LEN - 10 - 2

  // ----- writing

  predicate IsUtf8(charset: Bytes) {
    ToLower(charset) == UTF_8
  }

  /** A byte that an encoded word may carry as it is; a space is carried as an underscore. */
  predicate IsLiteral(b: byte) {
    '!' as int <= b <= '~' as int && b != EQUALS && b != QUESTION && b != UNDERSCORE
  }

  function QByte(b: byte): Bytes {
    if b == SPACE then [UNDERSCORE]
    else if IsLiteral(b) then [b]
    else [EQUALS, UpperHex(b / 16), UpperHex(b % 16)]
  }

  function QString(s: Bytes): Bytes {
    if s == [] then [] else QByte(s[0]) + QString(s[1..])
  }

  function OpenWord(charset: Bytes): Bytes {
    [EQUALS, QUESTION] + charset + [QUESTION, Q, QUESTION]
  }

  const CLOSE_WORD: Bytes := [QUESTION, EQUALS]

  function SplitWord(charset: Bytes): Bytes {
    CLOSE_WORD + [SPACE] + OpenWord(charset)
  }

  /** The length of the first rune of s and of its encoding. */
  function Measure(s: Bytes): (r: (nat, nat))
    requires s != []
    ensures 1 <= r.0 <= |s|
  {
    var b := s[0];
    if b == SPACE || IsLiteral(b) then (1, 1)
    else var n := Utf8.DecodeRune(s).1; (n, 3 * n)
  }

  /** The parts of s that go into successive words, when used bytes of the first are taken. */
  function Chunks(s: Bytes, used: nat): (r: seq<Bytes>)
    ensures r != []
    decreases |s|
  {
    if s == [] then [[]]
    else
      var (n, size) := Measure(s);
      if used + size > MAX_CONTENT_LEN then [[]] + Extend(s[..n], Chunks(s[n..], size))
      else Extend(s[..n], Chunks(s[n..], used + size))
  }

  function Extend(first: Bytes, chunks: seq<Bytes>): (r: seq<Bytes>)
    requires chunks != []
    ensures |r| == |chunks| && r[0] == first + chunks[0] && r[1..] == chunks[1..]
  {
    [first + chunks[0]] + chunks[1..]
  }

  /** The chunks written into words, the first of which is already open. */
  function Body(charset: Bytes, chunks: seq<Bytes>): Bytes {
    if chunks == [] then []
    else if |chunks| == 1 then QString(chunks[0])
    else QString(chunks[0]) + SplitWord(charset) + Body(charset, chunks[1..])
  }

  function EncodeWord(charset: Bytes, s: Bytes): Bytes {
    OpenWord(charset) + Body(charset, if IsUtf8(charset) then Chunks(s, 0) else [s]) + CLOSE_WORD
  }

  function Encode(charset: Bytes, s: Bytes): Bytes {
    if NeedsEncoding(s) then EncodeWord(charset, s) else s
  }

  lemma QStringFrom(buf: Bytes, s: Bytes, i: nat)
    requires i < |s|
    ensures buf + QString(s[i..]) == buf + QByte(s[i]) + QString(s[i + 1..])
  {
    hide QByte;
    assert s[i..][1..] == s[i + 1..];
  }

  method WriteQString(buf0: Bytes, s: Bytes) returns (buf: Bytes)
    ensures buf == buf0 + QString(s)
  {
    buf := buf0;
    assert QString([]) == [] && s[0..] == s;
    hide QString, IsLiteral;
    for i := 0 to |s|
      invariant buf + QString(s[i..]) == buf0 + QString(s)
    {
      var b := s[i];
      QStringFrom(buf, s, i);
      if b == SPACE {
        buf := buf + [UNDERSCORE];
      } else if IsLiteral(b) {
        buf := buf + [b];
      } else {
        ghost var before := buf;
        buf := buf + [EQUALS];
        buf := buf + [UpperHex(b / 16)];
        buf := buf + [UpperHex(b % 16)];
        assert buf == before + QByte(b);
      }
    }
    assert s[|s|..] == [] && buf + [] == buf;
  }

  lemma BodyExtends(charset: Bytes, first: Bytes, chunks: seq<Bytes>)
    requires chunks != []
    ensures Body(charset, Extend(first, chunks)) == QString(first) + Body(charset, chunks)
  {
    hide QString, SplitWord;
    QStringOfSum(first, chunks[0]);
    if |chunks| > 1 {
      var head, tail := QString(chunks[0]) + SplitWord(charset), Body(charset, chunks[1..]);
      assert Body(charset, chunks) == head + tail;
      assert Body(charset, Extend(first, chunks)) == QString(first) + QString(chunks[0]) + SplitWord(charset) + tail;
      assert QString(first) + QString(chunks[0]) + SplitWord(charset) == QString(first) + head;
      assert QString(first) + head + tail == QString(first) + (head + tail);
    }
  }

  /** One step of the writer: a rune goes into the open word, or into a new one if it does not fit. */
  lemma BodyStep(charset: Bytes, s: Bytes, used: nat, buf: Bytes)
    requires s != []
    ensures var (n, size) := Measure(s);
      buf + Body(charset, Chunks(s, used)) ==
        if used + size > MAX_CONTENT_LEN then
          buf + SplitWord(charset) + QString(s[..n]) + Body(charset, Chunks(s[n..], size))
        else
          buf + QString(s[..n]) + Body(charset, Chunks(s[n..], used + size))
  {
    hide QString, SplitWord, Body, Measure;
    var (n, size) := Measure(s);
    if used + size > MAX_CONTENT_LEN {
      var rest := Chunks(s[n..], size);
      BodyExtends(charset, s[..n], rest);
      NewWord(charset, Extend(s[..n], rest));
    } else {
      BodyExtends(charset, s[..n], Chunks(s[n..], used + size));
    }
  }

  lemma NewWord(charset: Bytes, chunks: seq<Bytes>)
    requires chunks != []
    ensures Body(charset, [[]] + chunks) == SplitWord(charset) + Body(charset, chunks)
  {
    hide SplitWord;
    assert ([[]] + chunks)[1..] == chunks;
  }

  lemma {:induction false} QStringOfSum(s: Bytes, t: Bytes)
    ensures QString(s + t) == QString(s) + QString(t)
  {
    if s == [] {
      assert s + t == t;
    } else {
      assert (s + t)[1..] == s[1..] + t;
      QStringOfSum(s[1..], t);
    }
  }

  lemma BodyOfNothing(charset: Bytes, used: nat)
    ensures Body(charset, Chunks([], used)) == []
  {
  }

  lemma BodyOfOne(charset: Bytes, s: Bytes)
    ensures Body(charset, [s]) == QString(s)
  {
  }

  /** Writes the first rune of s, into a new word if the open one has no room. */
  method QEncodeRune(buf0: Bytes, charset: Bytes, s: Bytes, used: nat) returns (buf: Bytes, runeLen: nat, currentLen: nat)
    requires s != []
    ensures 1 <= runeLen <= |s|
    ensures buf + Body(charset, Chunks(s[runeLen..], currentLen)) == buf0 + Body(charset, Chunks(s, used))
  {
    hide QString, SplitWord, IsUtf8, IsLiteral, Body, Chunks, Utf8.DecodeRune;
    buf, currentLen := buf0, used;
    var b := s[0];
    BodyStep(charset, s, currentLen, buf);
    var encLen := 1;
    runeLen := 1;
    if b != SPACE && !IsLiteral(b) {
      runeLen := Utf8.DecodeRune(s).1;
      encLen := 3 * runeLen;
    }
    assert (runeLen, encLen) == Measure(s);
    if currentLen + encLen > MAX_CONTENT_LEN {
      buf := buf + SplitWord(charset);
      currentLen := 0;
    }
    buf := WriteQString(buf, s[..runeLen]);
    currentLen := currentLen + encLen;
  }

  method QEncode(buf0: Bytes, charset: Bytes, s: Bytes) returns (buf: Bytes)
    ensures buf == buf0 + Body(charset, if IsUtf8(charset) then Chunks(s, 0) else [s])
  {
    hide Body, Chunks, QString, IsUtf8;
    buf := buf0;
    if !IsUtf8(charset) {
      BodyOfOne(charset, s);
      buf := WriteQString(buf, s);
      return;
    }
    var currentLen, i := 0, 0;
    assert s[0..] == s;
    while i < |s|
      invariant 0 <= i <= |s|
      invariant buf + Body(charset, Chunks(s[i..], currentLen)) == buf0 + Body(charset, Chunks(s, 0))
    {
      var runeLen;
      buf, runeLen, currentLen := QEncodeRune(buf, charset, s[i..], currentLen);
      assert s[i..][runeLen..] == s[i + runeLen..];
      i := i + runeLen;
    }
    assert s[i..] == [];
    BodyOfNothing(charset, currentLen);
    assert buf + [] == buf;
  }

  method EncodeHeader(charset: Bytes, s: Bytes) returns (r: Bytes)
    ensures r == Encode(charset, s)
  {
    hide Body, Chunks, IsUtf8, OpenWord;
    if !NeedsEncoding(s) {
      return s;
    }
    r := OpenWord(charset);
    r := QEncode(r, charset, s);
    r := r + CLOSE_WORD;
  }

  // ----- what the chunks are

  lemma {:induction false} ChunksCover(s: Bytes, used: nat)
    ensures Flatten(Chunks(s, used)) == s
    decreases |s|
  {
    if s != [] {
      hide Measure;
      var (n, size) := Measure(s);
      var u := if used + size > MAX_CONTENT_LEN then size else used + size;
      ChunksCover(s[n..], u);
      var rest := Chunks(s[n..], u);
      assert s == s[..n] + s[n..];
      FlattenExtended(s[..n], rest);
      assert ([[]] + Extend(s[..n], rest))[1..] == Extend(s[..n], rest);
    }
  }

  lemma FlattenExtended(first: Bytes, chunks: seq<Bytes>)
    requires chunks != []
    ensures Flatten(Extend(first, chunks)) == first + Flatten(chunks)
  {
  }

  lemma QByteLength(b: byte)
    ensures |QByte(b)| == if b == SPACE || IsLiteral(b) then 1 else 3
  {
  }

  lemma {:induction false} QStringLength(s: Bytes)
    ensures |QString(s)| <= 3 * |s|
  {
    if s != [] {
      QByteLength(s[0]);
      QStringLength(s[1..]);
    }
  }

  lemma MeasureBounds(s: Bytes)
    requires s != []
    ensures var (n, size) := Measure(s); |QString(s[..n])| <= size <= 12
  {
    var (n, size) := Measure(s);
    QStringLength(s[..n]);
    if n == 1 {
      QByteLength(s[0]);
      assert s[..1] == [s[0]];
      assert QString([s[0]]) == QByte(s[0]) + [];
    }
  }

  predicate Fits(chunks: seq<Bytes>, used: nat)
    requires chunks != []
  {
    && used + |QString(chunks[0])| <= MAX_CONTENT_LEN
    && (|chunks| > 1 ==> Fits(chunks[1..], 0))
  }

  lemma FitsExtended(first: Bytes, chunks: seq<Bytes>, used: nat, size: nat)
    requires chunks != [] && |QString(first)| <= size && Fits(chunks, used + size)
    ensures Fits(Extend(first, chunks), used)
  {
    hide QString;
    QStringOfSum(first, chunks[0]);
  }

  lemma FitsNewWord(chunks: seq<Bytes>, used: nat)
    requires chunks != [] && used <= MAX_CONTENT_LEN && Fits(chunks, 0)
    ensures Fits([[]] + chunks, used)
  {
    assert ([[]] + chunks)[1..] == chunks;
  }

  /** No chunk takes more than a word can carry. */
  lemma {:induction false} ChunksFit(s: Bytes, used: nat)
    requires used <= MAX_CONTENT_LEN
    ensures Fits(Chunks(s, used), used)
    decreases |s|
  {
    if s != [] {
      hide QString, Measure, Fits, Extend;
      var (n, size) := Measure(s);
      MeasureBounds(s);
      if used + size > MAX_CONTENT_LEN {
        ChunksFit(s[n..], size);
        FitsExtended(s[..n], Chunks(s[n..], size), 0, size);
        FitsNewWord(Extend(s[..n], Chunks(s[n..], size)), used);
      } else {
        ChunksFit(s[n..], used + size);
        FitsExtended(s[..n], Chunks(s[n..], used + size), used, size);
      }
    }
  }

  lemma {:induction false} FitsAt(chunks: seq<Bytes>, used: nat, i: nat)
    requires chunks != [] && Fits(chunks, used) && i < |chunks|
    ensures |QString(chunks[i])| <= MAX_CONTENT_LEN
  {
    if i > 0 {
      FitsAt(chunks[1..], 0, i - 1);
    }
  }

  /** The words that are written: each is a whole encoded word of at most 75 bytes. */
  lemma WordsFit(charset: Bytes, s: Bytes, i: nat)
    requires IsUtf8(charset) && i < |Chunks(s, 0)|
    ensures |OpenWord(charset) + QString(Chunks(s, 0)[i]) + CLOSE_WORD| <= MAX_WORD_LEN
  {
    ChunksFit(s, 0);
    FitsAt(Chunks(s, 0), 0, i);
  }

  /** The runes of each part, in order. */
  function RunesOf(chunks: seq<Bytes>): seq<int> {
    if chunks == [] then [] else Utf8.Runes(chunks[0]) + RunesOf(chunks[1..])
  }

  /** Cutting s after its first rune cuts nothing in two: the rest may be cut short anywhere. */
  lemma FirstRuneOfPart(s: Bytes, n: nat)
    requires s != [] && n <= |s| && Utf8.DecodeRune(s).1 <= n
    ensures Utf8.DecodeRune(s[..n]) == Utf8.DecodeRune(s)
  {
  }

  lemma RunesExtended(s: Bytes, chunks: seq<Bytes>, n: nat)
    requires s != [] && chunks != [] && n == Utf8.DecodeRune(s).1 && Flatten(chunks) == s[n..]
    ensures RunesOf(Extend(s[..n], chunks)) == [Utf8.DecodeRune(s).0] + RunesOf(chunks)
  {
    hide Utf8.DecodeRune, Extend;
    var head := s[..n] + chunks[0];
    assert s[n..] == chunks[0] + Flatten(chunks[1..]);
    assert head == s[..|head|];
    FirstRuneOfPart(s, |head|);
    assert head[n..] == chunks[0];
    assert Utf8.Runes(head) == [Utf8.DecodeRune(s).0] + Utf8.Runes(chunks[0]);
    assert [Utf8.DecodeRune(s).0] + Utf8.Runes(chunks[0]) + RunesOf(chunks[1..])
        == [Utf8.DecodeRune(s).0] + (Utf8.Runes(chunks[0]) + RunesOf(chunks[1..]));
  }

  lemma RunesOfNewWord(chunks: seq<Bytes>)
    ensures RunesOf([[]] + chunks) == RunesOf(chunks)
  {
    assert ([[]] + chunks)[1..] == chunks;
  }

  /** No multi-byte character is divided: the chunks have, one after the other, exactly the runes of s. */
  lemma {:induction false} ChunksKeepRunes(s: Bytes, used: nat)
    ensures RunesOf(Chunks(s, used)) == Utf8.Runes(s)
    decreases |s|
  {
    hide Measure, Utf8.DecodeRune, Utf8.Runes, RunesOf, Extend, Flatten;
    RunesOfNothing();
    if s != [] {
      var (n, size) := Measure(s);
      var u := if used + size > MAX_CONTENT_LEN then size else used + size;
      var rest := Chunks(s[n..], u);
      ChunksKeepRunes(s[n..], u);
      ChunksCover(s[n..], u);
      MeasureIsRune(s);
      RunesExtended(s, rest, n);
      RunesOfNewWord(Extend(s[..n], rest));
      RunesFirst(s);
    }
  }

  lemma RunesOfNothing()
    ensures RunesOf([[]]) == Utf8.Runes([])
  {
    assert RunesOf([[]]) == Utf8.Runes([]) + RunesOf([]);
  }

  lemma RunesFirst(s: Bytes)
    requires s != []
    ensures var (r, n) := Utf8.DecodeRune(s); Utf8.Runes(s) == [r] + Utf8.Runes(s[n..])
  {
  }

  lemma MeasureIsRune(s: Bytes)
    requires s != []
    ensures Measure(s).0 == Utf8.DecodeRune(s).1
  {
  }

  /** A new chunk is begun only when the next rune does not go into the last one. */
  predicate Full(chunks: seq<Bytes>, used: nat) {
    |chunks| > 1 ==>
      && chunks[1] != [] && Full(chunks[1..], 0)
      && used + |QString(chunks[0])| + |QString(chunks[1][..Utf8.DecodeRune(chunks[1]).1])| > MAX_CONTENT_LEN
  }

  lemma MeasureIsExact(s: Bytes)
    requires s != []
    ensures var (n, size) := Measure(s); |QString(s[..n])| == size
  {
    var (n, size) := Measure(s);
    hide Utf8.DecodeRune;
    if n == 1 {
      QByteLength(s[0]);
      assert s[..1] == [s[0]];
      assert QString([s[0]]) == QByte(s[0]) + [];
    } else {
      ForeignRune(s);
      ForeignLength(s[..n]);
    }
  }

  lemma ForeignRune(s: Bytes)
    requires s != [] && Utf8.DecodeRune(s).1 > 1
    ensures Utf8.DecodeRune(s).1 <= |s|
    ensures forall i :: 0 <= i < Utf8.DecodeRune(s).1 ==> s[i] >= Utf8.RUNE_SELF
  {
    hide Utf8.Bits2, Utf8.Bits3, Utf8.Bits4;
  }

  lemma {:induction false} ForeignLength(s: Bytes)
    requires forall i :: 0 <= i < |s| ==> s[i] >= Utf8.RUNE_SELF
    ensures |QString(s)| == 3 * |s|
  {
    if s != [] {
      ForeignLength(s[1..]);
    }
  }

  lemma {:induction false} FullExtended(first: Bytes, chunks: seq<Bytes>, used: nat)
    requires chunks != [] && Full(chunks, used + |QString(first)|)
    ensures Full(Extend(first, chunks), used)
  {
    hide QString, Utf8.DecodeRune;
    QStringOfSum(first, chunks[0]);
    var r := Extend(first, chunks);
    assert |chunks| > 1 ==> r[1] == r[1..][0] == chunks[1];
  }

  lemma {:induction false} FullNewWord(s: Bytes, chunks: seq<Bytes>, used: nat)
    requires s != [] && chunks != [] && Full(Extend(s[..Measure(s).0], chunks), 0)
    requires Flatten(chunks) == s[Measure(s).0..]
    requires used + Measure(s).1 > MAX_CONTENT_LEN
    ensures Full([[]] + Extend(s[..Measure(s).0], chunks), used)
  {
    hide Utf8.DecodeRune, Measure;
    MeasureIsExact(s);
    MeasureIsRune(s);
    var n := Measure(s).0;
    var next := s[..n] + chunks[0];
    assert s[n..] == chunks[0] + Flatten(chunks[1..]);
    assert next == s[..|next|] && next[..n] == s[..n];
    FirstRuneOfPart(s, |next|);
    assert ([[]] + Extend(s[..n], chunks))[1..] == Extend(s[..n], chunks);
  }

  /** The words are as few as they can be: none is ended while the next rune would still go into it. */
  lemma {:induction false} ChunksAreFull(s: Bytes, used: nat)
    ensures Full(Chunks(s, used), used)
    decreases |s|
  {
    if s != [] {
      hide QString, Measure, Full, Extend, Flatten;
      var (n, size) := Measure(s);
      var u := if used + size > MAX_CONTENT_LEN then size else used + size;
      var rest := Chunks(s[n..], u);
      ChunksAreFull(s[n..], u);
      ChunksCover(s[n..], u);
      FullStep(s, rest, used);
    } else {
      OneChunkIsFull(used);
    }
  }

  lemma {:induction false} FullStep(s: Bytes, rest: seq<Bytes>, used: nat)
    requires s != [] && rest != [] && Flatten(rest) == s[Measure(s).0..]
    requires Full(rest, if used + Measure(s).1 > MAX_CONTENT_LEN then Measure(s).1 else used + Measure(s).1)
    ensures var chunks := Extend(s[..Measure(s).0], rest);
      Full(if used + Measure(s).1 > MAX_CONTENT_LEN then [[]] + chunks else chunks, used)
  {
    hide QString, Measure, Full, Extend, Flatten;
    var (n, size) := Measure(s);
    MeasureIsExact(s);
    if used + size > MAX_CONTENT_LEN {
      FullExtended(s[..n], rest, 0);
      FullNewWord(s, rest, used);
    } else {
      FullExtended(s[..n], rest, used);
    }
  }

  lemma {:induction false} OneChunkIsFull(used: nat)
    ensures Full([[]], used)
  {
  }

  // ----- reading

  /** The first place where a and then b stand, or -1. */
  function IndexPair(s: Bytes, a: byte, b: byte): (i: int)
    ensures -1 <= i && (i >= 0 ==> i + 2 <= |s|)
  {
    if |s| < 2 then -1
    else if s[0] == a && s[1] == b then 0
    else var i := IndexPair(s[1..], a, b); if i < 0 then -1 else i + 1
  }

  function QDecode(s: Bytes): Option<Bytes> {
    if s == [] then Some([])
    else if s[0] == UNDERSCORE then Prepend([SPACE], QDecode(s[1..]))
    else if s[0] == EQUALS then
      if |s| < 3 || !IsHex(s[1]) || !IsHex(s[2]) then None
      else Prepend([16 * Unhex(s[1]) + Unhex(s[2])], QDecode(s[3..]))
    else if IsPlain(s[0]) || s[0] == LF || s[0] == CR then Prepend([s[0]], QDecode(s[1..]))
    else None
  }

  lemma QDecodeFrom(s: Bytes, i: nat)
    requires i < |s|
    ensures QDecode(s[i..]) ==
      if s[i] == UNDERSCORE then Prepend([SPACE], QDecode(s[i + 1..]))
      else if s[i] == EQUALS then
        if i + 2 >= |s| || !IsHex(s[i + 1]) || !IsHex(s[i + 2]) then None
        else Prepend([16 * Unhex(s[i + 1]) + Unhex(s[i + 2])], QDecode(s[i + 3..]))
      else if IsPlain(s[i]) || s[i] == LF || s[i] == CR then Prepend([s[i]], QDecode(s[i + 1..]))
      else None
  {
    hide IsHex, Unhex, IsPlain;
    assert s[i..][1..] == s[i + 1..];
    if i + 2 < |s| {
      assert s[i..][3..] == s[i + 3..];
    }
  }

  method QDecodeText(s: Bytes) returns (r: Option<Bytes>)
    ensures r == QDecode(s)
  {
    assert QDecode([]) == Some([]) && s[0..] == s;
    var dec := new byte[|s|];
    var n := 0;
    var i := 0;
    assert dec[..n] == [];
    NothingDone(QDecode(s));
    hide QDecode, IsHex, Unhex, IsPlain, IsDone;
    while i < |s|
      invariant 0 <= n <= i <= |s|
      invariant IsDone(QDecode(s), dec[..n], QDecode(s[i..]))
    {
      var c := s[i];
      QDecodeFrom(s, i);
      ghost var done, from := dec[..n], i;
      if c == UNDERSCORE {
        dec[n] := SPACE;
      } else if c == EQUALS {
        if i + 2 >= |s| || !IsHex(s[i + 1]) || !IsHex(s[i + 2]) {
          DoneWhole(QDecode(s), done, None);
          return None;
        }
        dec[n] := 16 * Unhex(s[i + 1]) + Unhex(s[i + 2]);
        i := i + 2;
      } else if IsPlain(c) || c == LF || c == CR {
        dec[n] := c;
      } else {
        DoneWhole(QDecode(s), done, None);
        return None;
      }
      assert dec[..n + 1] == done + [dec[n]];
      DoneMore(QDecode(s), done, dec[n], QDecode(s[i + 1..]));
      n := n + 1;
      i := i + 1;
    }
    assert s[i..] == [];
    DoneWhole(QDecode(s), dec[..n], Some([]));
    return Some(dec[..n]);
  }

  /** What is done of a text and what the rest of it comes to make up the whole. */
  predicate IsDone(whole: Option<Bytes>, done: Bytes, rest: Option<Bytes>) {
    if rest.None? then whole.None? else whole == Some(done + rest.value)
  }

  lemma NothingDone(whole: Option<Bytes>)
    ensures IsDone(whole, [], whole)
  {
    assert whole.Some? ==> [] + whole.value == whole.value;
  }

  lemma DoneMore(whole: Option<Bytes>, done: Bytes, c: byte, rest: Option<Bytes>)
    requires IsDone(whole, done, Prepend([c], rest))
    ensures IsDone(whole, done + [c], rest)
  {
    assert rest.Some? ==> done + ([c] + rest.value) == done + [c] + rest.value;
  }

  lemma DoneWhole(whole: Option<Bytes>, done: Bytes, rest: Option<Bytes>)
    requires IsDone(whole, done, rest)
    ensures rest == None ==> whole == None
    ensures rest == Some([]) ==> whole == Some(done)
  {
    assert done + [] == done;
  }

  predicate AllPlain(s: Bytes) {
    forall i :: 0 <= i < |s| ==> IsPlain(s[i])
  }

  lemma SumIsPlain(s: Bytes, t: Bytes)
    requires AllPlain(s) && AllPlain(t)
    ensures AllPlain(s + t)
  {
  }

  /** The code that decoding calls: the base64 decoder, and the reader for other charsets, which is given
      the charset and the content and may refuse them, as it always does when there is none. */
  datatype Decoder = Decoder(base64: Bytes -> Option<Bytes>, reader: (Bytes, Bytes) -> Option<Bytes>)

  /** What reading a word's text comes to. */
  function DecodeText(d: Decoder, encoding: byte, text: Bytes): Option<Bytes> {
    if encoding == 'B' as int || encoding == 'b' as int then d.base64(text)
    else if encoding == 'Q' as int || encoding == Q then QDecode(text)
    else None
  }

  const ISO_8859_1: Bytes := [105, 115, 111, 45, 56, 56, 53, 57, 45, 49]

  function FromLatin1(content: Bytes): Bytes {
    if content == [] then [] else Utf8.EncodeRune(content[0]) + FromLatin1(content[1..])
  }

  function FromAscii(content: Bytes): Bytes {
    if content == [] then []
    else (if content[0] >= Utf8.RUNE_SELF then Utf8.EncodeRune(Utf8.RUNE_ERROR) else [content[0]]) + FromAscii(content[1..])
  }

  /** A name with the case of its letters folded: the long s, U+017F, is the one character outside ASCII
      that folds to a letter of a known name. */
  function FoldName(name: Bytes): Bytes {
    if name == [] then []
    else if |name| >= 2 && name[0] == 0xC5 && name[1] == 0xBF then ['s' as int] + FoldName(name[2..])
    else [LowerByte(name[0])] + FoldName(name[1..])
  }

  /** The content of a word as UTF-8; None for a charset that is not handled. */
  function Convert(d: Decoder, charset: Bytes, content: Bytes): Option<Bytes> {
    if IsUtf8(charset) then Some(content)
    else if FoldName(charset) == ISO_8859_1 then Some(FromLatin1(content))
    else if FoldName(charset) == US_ASCII then Some(FromAscii(content))
    else d.reader(charset, content)
  }

  /** Whether something other than linear white space stands between two words. */
  predicate HasNonWhitespace(s: Bytes) {
    exists i :: 0 <= i < |s| && s[i] != SPACE && s[i] != TAB && s[i] != LF && s[i] != CR
  }

  /** A candidate for an encoded word: where it starts and ends and its three parts. */
  datatype Word = Word(start: nat, charset: Bytes, encoding: byte, text: Bytes, end: nat)

  /** The parts of a word, read from just after its "=?", and the length they take. */
  function ReadWord(s: Bytes): (r: Option<(Bytes, byte, Bytes, nat)>)
    ensures r.Some? ==> r.value.3 <= |s|
  {
    var i := IndexByte(s, QUESTION);
    if i < 0 || |s| < i + 5 || s[i + 2] != QUESTION then None
    else
      var j := IndexPair(s[i + 3..], QUESTION, EQUALS);
      if j < 0 then None else Some((s[..i], s[i + 1], s[i + 3..i + 3 + j], i + 3 + j + 2))
  }

  /** The next candidate in a header, if there is one that is complete. */
  function NextWord(header: Bytes): (w: Option<Word>)
    ensures w.Some? ==> w.value.start + 2 <= w.value.end <= |header|
  {
    var start := IndexPair(header, EQUALS, QUESTION);
    if start < 0 then None
    else
      var cur := start + 2;
      match ReadWord(header[cur..])
      case None => None
      case Some((charset, encoding, text, length)) => Some(Word(start, charset, encoding, text, cur + length))
  }

  /** The text of a header; between tells that an encoded word has just ended.  None for an unknown charset. */
  function DecodeFrom(d: Decoder, header: Bytes, between: bool): Option<Bytes>
    decreases |header|
  {
    match NextWord(header)
    case None => Some(header)
    case Some(word) =>
      match DecodeText(d, word.encoding, word.text)
      case None => Prepend(header[..word.start + 2], DecodeFrom(d, header[word.start + 2..], false))
      case Some(content) =>
        var before := if word.start > 0 && (!between || HasNonWhitespace(header[..word.start])) then header[..word.start] else [];
        match Convert(d, word.charset, content)
        case None => None
        case Some(text) => Prepend(before + text, DecodeFrom(d, header[word.end..], true))
  }

  function DecodeHeader(d: Decoder, header: Bytes): Option<Bytes> {
    DecodeFrom(d, header, false)
  }

  lemma {:induction false} IndexPairFromThere(s: Bytes, a: byte, b: byte)
    requires IndexPair(s, a, b) >= 0
    ensures IndexPair(s[IndexPair(s, a, b)..], a, b) == 0
  {
    if IndexPair(s, a, b) > 0 {
      IndexPairFromThere(s[1..], a, b);
      assert s[1..][IndexPair(s[1..], a, b)..] == s[IndexPair(s, a, b)..];
    } else {
      assert s[0..] == s;
    }
  }

  lemma PrependTwice(a: Bytes, b: Bytes, r: Option<Bytes>)
    ensures Prepend(a, Prepend(b, r)) == Prepend(a + b, r)
  {
    assert r.Some? ==> a + (b + r.value) == a + b + r.value;
  }

  /** Text before the first "=?" is copied. */
  lemma CopyBeforeFirst(d: Decoder, header: Bytes, i: nat)
    requires IndexPair(header, EQUALS, QUESTION) == i
    ensures DecodeFrom(d, header, false) == Prepend(header[..i], DecodeFrom(d, header[i..], false))
  {
    hide DecodeText, Convert, NextWord, Prepend, HasNonWhitespace;
    var tail := header[i..];
    NextWordShifts(header, i);
    match NextWord(header) {
      case None =>
        assert Prepend(header[..i], Some(tail)) == Some(header) by {
          assert header == header[..i] + tail;
          PrependSome(header[..i], tail);
        }
      case Some(word) =>
        assert header[word.end..] == tail[word.end - i..];
        match DecodeText(d, word.encoding, word.text) {
          case None =>
            assert header[i + 2..] == tail[2..];
            assert header[..i + 2] == header[..i] + tail[..2];
            PrependTwice(header[..i], tail[..2], DecodeFrom(d, tail[2..], false));
          case Some(content) =>
            var before := if i > 0 then header[..i] else [];
            assert before == header[..i];
            match Convert(d, word.charset, content) {
              case None =>
                PrependNone(header[..i]);
              case Some(text) =>
                assert [] + text == text;
                PrependTwice(header[..i], text, DecodeFrom(d, header[word.end..], true));
            }
        }
    }
  }

  lemma PrependSome(a: Bytes, b: Bytes)
    ensures Prepend(a, Some(b)) == Some(a + b)
  {
  }

  lemma PrependNone(a: Bytes)
    ensures Prepend(a, None) == None
  {
  }

  lemma NextWordShifts(header: Bytes, i: nat)
    requires IndexPair(header, EQUALS, QUESTION) == i
    ensures match NextWord(header)
      case None => NextWord(header[i..]) == None
      case Some(word) =>
        && word.start == i
        && NextWord(header[i..]) == Some(word.(start := 0, end := word.end - i))
  {
    hide ReadWord, IndexPair;
    IndexPairFromThere(header, EQUALS, QUESTION);
    assert header[i + 2..] == header[i..][2..];
  }

  method DecodeHeaderText(d: Decoder, header0: Bytes) returns (r: Option<Bytes>)
    ensures r == DecodeHeader(d, header0)
  {
    hide DecodeText, Convert, IndexPair, NextWord, Prepend, HasNonWhitespace;
    var header := header0;
    var i := IndexPair(header, EQUALS, QUESTION);
    if i == -1 {
      assert NextWord(header) == None by {
        NoPairNoWord(header);
      }
      return Some(header);
    }
    CopyBeforeFirst(d, header, i);
    var buf := header[..i];
    header := header[i..];
    var betweenWords := false;
    while true
      invariant DecodeHeader(d, header0) == Prepend(buf, DecodeFrom(d, header, betweenWords))
      decreases |header|
    {
      ghost var done := buf;
      var next := NextWord(header);
      if next.None? {
        break;
      }
      var word := next.value;
      var content := DecodeText(d, word.encoding, word.text);
      if content.None? {
        betweenWords := false;
        buf := buf + header[..word.start + 2];
        header := header[word.start + 2..];
        PrependTwice(done, buf[|done|..], DecodeFrom(d, header, false));
        continue;
      }
      if word.start > 0 && (!betweenWords || HasNonWhitespace(header[..word.start])) {
        buf := buf + header[..word.start];
      }
      ghost var before := buf[|done|..];
      var text := Convert(d, word.charset, content.value);
      if text.None? {
        PrependNone(done);
        return None;
      }
      buf := buf + text.value;
      header := header[word.end..];
      betweenWords := true;
      assert done + (before + text.value) == buf;
      PrependTwice(done, before + text.value, DecodeFrom(d, header, true));
    }
    PrependSome(buf, header);
    if |header| > 0 {
      buf := buf + header;
    }
    assert header == [] ==> buf + header == buf;
    return Some(buf);
  }

  lemma NoPairNoWord(header: Bytes)
    requires IndexPair(header, EQUALS, QUESTION) < 0
    ensures NextWord(header) == None
  {
  }

  // ----- reading what was written

  lemma QByteDecodes(b: byte, rest: Bytes)
    ensures QDecode(QByte(b) + rest) == Prepend([b], QDecode(rest))
  {
    var all := QByte(b) + rest;
    if b == SPACE || IsLiteral(b) {
      assert all[1..] == rest;
    } else {
      assert all[0] == EQUALS && all[1] == UpperHex(b / 16) && all[2] == UpperHex(b % 16);
      assert all[3..] == rest;
    }
  }

  lemma {:induction false} QRoundTrip(s: Bytes)
    ensures QDecode(QString(s)) == Some(s)
    ensures QUESTION !in QString(s)
  {
    if s != [] {
      hide QDecode;
      QRoundTrip(s[1..]);
      QByteDecodes(s[0], QString(s[1..]));
      assert s == [s[0]] + s[1..];
    } else {
      assert QDecode([]) == Some([]);
    }
  }

  lemma {:induction false} IndexPairAt(before: Bytes, a: byte, b: byte, after: Bytes)
    requires a !in before
    ensures IndexPair(before + [a, b] + after, a, b) == |before|
  {
    if before != [] {
      assert (before + [a, b] + after)[1..] == before[1..] + [a, b] + after;
      IndexPairAt(before[1..], a, b, after);
    }
  }

  /** What follows "=?" in a written word and after it. */
  function AfterOpen(charset: Bytes, text: Bytes, rest: Bytes): Bytes {
    charset + [QUESTION] + ([Q, QUESTION] + (text + [QUESTION, EQUALS] + rest))
  }

  lemma WrittenWordOpens(charset: Bytes, text: Bytes, rest: Bytes)
    ensures OpenWord(charset) + text + CLOSE_WORD + rest == [EQUALS, QUESTION] + AfterOpen(charset, text, rest)
    ensures |OpenWord(charset) + text + CLOSE_WORD| == |charset| + |text| + 7
  {
  }

  lemma AfterOpenReads(charset: Bytes, text: Bytes, rest: Bytes)
    requires QUESTION !in charset && QUESTION !in text
    ensures ReadWord(AfterOpen(charset, text, rest)) == Some((charset, Q, text, |charset| + |text| + 5))
  {
    hide IndexByte, IndexPair;
    var afterText := text + [QUESTION, EQUALS] + rest;
    IndexByteAt(charset, QUESTION, [Q, QUESTION] + afterText);
    IndexPairAt(text, QUESTION, EQUALS, rest);
    var s, k := AfterOpen(charset, text, rest), |charset|;
    assert s[..k] == charset && s[k + 1] == Q && s[k + 2] == QUESTION;
    assert s[k + 3..] == afterText;
    assert s[k + 3..k + 3 + |text|] == afterText[..|text|] == text;
  }

  /** A written word, whatever stands before it, is the next word. */
  lemma WrittenWordIsNext(before: Bytes, charset: Bytes, text: Bytes, rest: Bytes)
    requires EQUALS !in before && QUESTION !in charset && QUESTION !in text
    ensures var word := OpenWord(charset) + text + CLOSE_WORD;
      NextWord(before + word + rest) == Some(Word(|before|, charset, Q, text, |before| + |word|))
  {
    hide IndexPair, ReadWord, OpenWord, AfterOpen;
    var word := OpenWord(charset) + text + CLOSE_WORD;
    var header, s := before + word + rest, AfterOpen(charset, text, rest);
    WrittenWordOpens(charset, text, rest);
    assert header == before + (word + rest);
    assert before + ([EQUALS, QUESTION] + s) == before + [EQUALS, QUESTION] + s;
    IndexPairAt(before, EQUALS, QUESTION, s);
    assert header[|before| + 2..] == s;
    AfterOpenReads(charset, text, rest);
  }

  /** The words for chunks, from the opening of the first to the close of the last. */
  function Words(charset: Bytes, chunks: seq<Bytes>): Bytes {
    OpenWord(charset) + Body(charset, chunks) + CLOSE_WORD
  }

  lemma WordsSplit(charset: Bytes, chunks: seq<Bytes>)
    requires chunks != []
    ensures Words(charset, chunks) == OpenWord(charset) + QString(chunks[0]) + CLOSE_WORD +
      if |chunks| == 1 then [] else [SPACE] + Words(charset, chunks[1..])
  {
    hide QString, OpenWord;
    if |chunks| > 1 {
      var open, text, body := OpenWord(charset), QString(chunks[0]), Body(charset, chunks[1..]);
      assert SplitWord(charset) == CLOSE_WORD + [SPACE] + open;
      assert Body(charset, chunks) == text + (CLOSE_WORD + [SPACE] + open) + body;
      assert open + (text + (CLOSE_WORD + [SPACE] + open) + body) + CLOSE_WORD
          == open + text + CLOSE_WORD + ([SPACE] + (open + body + CLOSE_WORD));
    }
  }

  /** The words for chunks decode to the chunks put together; the spaces between words vanish. */
  lemma {:induction false} WordsDecode(d: Decoder, charset: Bytes, chunks: seq<Bytes>, before: Bytes, between: bool)
    requires IsUtf8(charset) && chunks != []
    requires before == [] || (before == [SPACE] && between)
    ensures DecodeFrom(d, before + Words(charset, chunks), between) == Some(Flatten(chunks))
    decreases |chunks|
  {
    hide QString, OpenWord, Words, QDecode, NextWord;
    var word := OpenWord(charset) + QString(chunks[0]) + CLOSE_WORD;
    var rest := if |chunks| == 1 then [] else [SPACE] + Words(charset, chunks[1..]);
    var header := before + Words(charset, chunks);
    WordsSplit(charset, chunks);
    assert header == before + word + rest;
    CharsetHasNoQuestion(charset);
    QRoundTrip(chunks[0]);
    WrittenWordIsNext(before, charset, QString(chunks[0]), rest);
    assert header[|before| + |word|..] == rest;
    assert header[..|before|] == before;
    if |chunks| == 1 {
      NothingDecodes(d);
      assert Flatten(chunks[1..]) == [];
    } else {
      WordsDecode(d, charset, chunks[1..], [SPACE], true);
    }
    assert [] + chunks[0] == chunks[0];
  }

  lemma NothingDecodes(d: Decoder)
    ensures DecodeFrom(d, [], true) == Some([])
  {
    NoPairNoWord([]);
  }

  lemma CharsetHasNoQuestion(charset: Bytes)
    requires IsUtf8(charset)
    ensures QUESTION !in charset && |charset| == 5
  {
    assert forall i :: 0 <= i < |charset| ==> LowerByte(charset[i]) == UTF_8[i];
  }

  /** Reading a header that was written for s gives s back, whatever bytes s has. */
  lemma EncodeThenDecode(d: Decoder, charset: Bytes, s: Bytes)
    requires IsUtf8(charset) && NeedsEncoding(s)
    ensures DecodeHeader(d, Encode(charset, s)) == Some(s)
  {
    hide Chunks, OpenWord, Body, Flatten, DecodeFrom;
    ChunksCover(s, 0);
    assert [] + Words(charset, Chunks(s, 0)) == Words(charset, Chunks(s, 0));
    WordsDecode(d, charset, Chunks(s, 0), [], false);
  }

  // ----- reading what was written as it is

  /** No part of h reads as an encoded word: every candidate's text is refused. */
  predicate NoWordDecodes(d: Decoder, h: Bytes)
    decreases |h|
  {
    match NextWord(h)
    case None => true
    case Some(word) => DecodeText(d, word.encoding, word.text).None? && NoWordDecodes(d, h[word.start + 2..])
  }

  /** No decoder makes more plain bytes than it is given. */
  ghost predicate NeverLengthens(d: Decoder) {
    && (forall text :: d.base64(text).Some? ==> |d.base64(text).value| <= |text|)
    && (forall charset, content :: d.reader(charset, content).Some? && AllPlain(d.reader(charset, content).value) ==>
      |d.reader(charset, content).value| <= |content|)
  }

  lemma {:induction false} NothingToDecode(d: Decoder, h: Bytes, between: bool)
    requires NoWordDecodes(d, h)
    ensures DecodeFrom(d, h, between) == Some(h)
    decreases |h|
  {
    hide NextWord, DecodeText, Convert;
    match NextWord(h) {
      case None =>
      case Some(word) =>
        NothingToDecode(d, h[word.start + 2..], false);
        assert h == h[..word.start + 2] + h[word.start + 2..];
    }
  }

  lemma {:induction false} QDecodeShrinks(s: Bytes)
    ensures QDecode(s).Some? ==> |QDecode(s).value| <= |s|
    decreases |s|
  {
    hide IsHex, Unhex, IsPlain;
    if s != [] {
      QDecodeShrinks(s[1..]);
      if |s| >= 3 {
        QDecodeShrinks(s[3..]);
      }
    }
  }

  lemma DecodeTextShrinks(d: Decoder, encoding: byte, text: Bytes)
    requires NeverLengthens(d) && DecodeText(d, encoding, text).Some?
    ensures |DecodeText(d, encoding, text).value| <= |text|
  {
    hide AllPlain, QDecode;
    QDecodeShrinks(text);
  }

  lemma PlainParts(s: Bytes, t: Bytes)
    requires AllPlain(s + t)
    ensures AllPlain(s) && AllPlain(t)
  {
    assert forall i :: 0 <= i < |s| ==> s[i] == (s + t)[i];
    assert forall i :: 0 <= i < |t| ==> t[i] == (s + t)[|s| + i];
  }

  /** A byte outside ASCII becomes bytes outside ASCII. */
  lemma ForeignBytes(c: byte)
    ensures AllPlain(Utf8.EncodeRune(c)) ==> |Utf8.EncodeRune(c)| == 1
    ensures !AllPlain(Utf8.EncodeRune(Utf8.RUNE_ERROR))
  {
    assert c >= Utf8.RUNE_SELF ==> !IsPlain(Utf8.EncodeRune(c)[0]);
    assert !IsPlain(Utf8.EncodeRune(Utf8.RUNE_ERROR)[0]);
  }

  lemma {:induction false} Latin1Shrinks(content: Bytes)
    ensures AllPlain(FromLatin1(content)) ==> |FromLatin1(content)| == |content|
  {
    hide AllPlain, Utf8.EncodeRune;
    if content != [] && AllPlain(FromLatin1(content)) {
      PlainParts(Utf8.EncodeRune(content[0]), FromLatin1(content[1..]));
      ForeignBytes(content[0]);
      Latin1Shrinks(content[1..]);
    }
  }

  lemma {:induction false} AsciiShrinks(content: Bytes)
    ensures AllPlain(FromAscii(content)) ==> |FromAscii(content)| == |content|
  {
    hide AllPlain, Utf8.EncodeRune;
    if content != [] && AllPlain(FromAscii(content)) {
      var c := content[0];
      PlainParts(if c >= Utf8.RUNE_SELF then Utf8.EncodeRune(Utf8.RUNE_ERROR) else [c], FromAscii(content[1..]));
      ForeignBytes(c);
      AsciiShrinks(content[1..]);
    }
  }

  lemma ConvertShrinks(d: Decoder, charset: Bytes, content: Bytes)
    requires NeverLengthens(d) && Convert(d, charset, content).Some?
    ensures AllPlain(Convert(d, charset, content).value) ==> |Convert(d, charset, content).value| <= |content|
  {
    hide AllPlain, FoldName, FromLatin1, FromAscii;
    Latin1Shrinks(content);
    AsciiShrinks(content);
  }

  /** The text of a word is shorter than the word. */
  lemma TextIsShort(h: Bytes)
    requires NextWord(h).Some?
    ensures var word := NextWord(h).value; |word.text| < word.end - word.start
  {
  }

  /** A header that decodes to plain text is no shorter than it, and longer if a word in it is decoded. */
  lemma {:induction false} DecodingShrinks(d: Decoder, h: Bytes, between: bool)
    requires NeverLengthens(d)
    requires DecodeFrom(d, h, between).Some? && AllPlain(DecodeFrom(d, h, between).value)
    ensures |DecodeFrom(d, h, between).value| <= |h|
    ensures !NoWordDecodes(d, h) ==> |DecodeFrom(d, h, between).value| < |h|
    decreases |h|
  {
    hide NextWord, DecodeText, Convert, AllPlain, NeverLengthens, HasNonWhitespace;
    match NextWord(h) {
      case None =>
      case Some(word) =>
        match DecodeText(d, word.encoding, word.text) {
          case None =>
            var rest := h[word.start + 2..];
            PlainParts(h[..word.start + 2], DecodeFrom(d, rest, false).value);
            DecodingShrinks(d, rest, false);
          case Some(content) =>
            var before := if word.start > 0 && (!between || HasNonWhitespace(h[..word.start])) then h[..word.start] else [];
            var text, rest := Convert(d, word.charset, content).value, h[word.end..];
            PlainParts(before + text, DecodeFrom(d, rest, true).value);
            PlainParts(before, text);
            TextIsShort(h);
            DecodeTextShrinks(d, word.encoding, word.text);
            ConvertShrinks(d, word.charset, content);
            DecodingShrinks(d, rest, true);
        }
    }
  }

  /** Text that is written as it is comes back just if no part of it reads as an encoded word. */
  lemma PlainThenDecode(d: Decoder, charset: Bytes, s: Bytes)
    requires !NeedsEncoding(s) && NeverLengthens(d)
    ensures DecodeHeader(d, Encode(charset, s)) == Some(s) <==> NoWordDecodes(d, s)
  {
    hide DecodeFrom, NoWordDecodes, NeverLengthens;
    if NoWordDecodes(d, s) {
      NothingToDecode(d, s, false);
    } else if DecodeFrom(d, s, false) == Some(s) {
      assert AllPlain(s);
      DecodingShrinks(d, s, false);
    }
  }

  lemma QByteIsPlain(b: byte)
    ensures AllPlain(QByte(b))
  {
  }

  lemma {:induction false} QStringIsPlain(s: Bytes)
    ensures AllPlain(QString(s))
  {
    if s != [] {
      hide AllPlain, QByte;
      QByteIsPlain(s[0]);
      QStringIsPlain(s[1..]);
      SumIsPlain(QByte(s[0]), QString(s[1..]));
    }
  }

  lemma {:induction false} BodyIsPlain(charset: Bytes, chunks: seq<Bytes>)
    requires AllPlain(OpenWord(charset))
    ensures AllPlain(Body(charset, chunks))
  {
    if chunks != [] {
      QStringIsPlain(chunks[0]);
      if |chunks| > 1 {
        hide QString;
        assert AllPlain(CLOSE_WORD + [SPACE]);
        BodyIsPlain(charset, chunks[1..]);
        hide AllPlain, OpenWord;
        SumIsPlain(CLOSE_WORD + [SPACE], OpenWord(charset));
        SumIsPlain(QString(chunks[0]), SplitWord(charset));
        SumIsPlain(QString(chunks[0]) + SplitWord(charset), Body(charset, chunks[1..]));
      }
    }
  }

  lemma WordsArePlain(charset: Bytes, chunks: seq<Bytes>)
    requires IsUtf8(charset)
    ensures AllPlain(Words(charset, chunks))
  {
    hide Body;
    assert forall i :: 0 <= i < |charset| ==> LowerByte(charset[i]) == UTF_8[i];
    assert AllPlain(charset) && AllPlain([EQUALS, QUESTION]) && AllPlain([QUESTION, Q, QUESTION]) && AllPlain(CLOSE_WORD);
    hide AllPlain;
    SumIsPlain([EQUALS, QUESTION], charset);
    SumIsPlain([EQUALS, QUESTION] + charset, [QUESTION, Q, QUESTION]);
    BodyIsPlain(charset, chunks);
    SumIsPlain(OpenWord(charset), Body(charset, chunks));
    SumIsPlain(OpenWord(charset) + Body(charset, chunks), CLOSE_WORD);
  }

  /** A header may carry what is written: it never needs encoding itself. */
  lemma EncodedIsPlain(charset: Bytes, s: Bytes)
    requires IsUtf8(charset)
    ensures !NeedsEncoding(Encode(charset, s))
  {
    hide Chunks, Body;
    if NeedsEncoding(s) {
      WordsArePlain(charset, Chunks(s, 0));
    }
  }

  /** Text is written as it is just if all of it is printable ASCII, spaces and tabs. */
  lemma WrittenAsItIs(charset: Bytes, s: Bytes)
    requires IsUtf8(charset)
    ensures Encode(charset, s) == s <==> forall i :: 0 <= i < |s| ==> ' ' as int <= s[i] <= '~' as int || s[i] == '\t' as int
  {
    assert NeedsEncoding(s) <==> exists i :: 0 <= i < |s| && !IsPlain(s[i]);
    hide Chunks, Body, NeedsEncoding, EncodeWord;
    EncodedIsPlain(charset, s);
  }

  /** Plain text that looks like an encoded word is written as it is, and read as what it encodes. */
  lemma PlainMayDecode(d: Decoder)
    ensures exists s :: !NeedsEncoding(s) && s != [] && DecodeHeader(d, Encode(UTF_8, s)) == Some([])
  {
    hide Body, DecodeFrom;
    var s := Words(UTF_8, [[]]);
    assert ToLower(UTF_8) == UTF_8;
    WordsArePlain(UTF_8, [[]]);
    assert [] + s == s;
    WordsDecode(d, UTF_8, [[]], [], false);
    assert Flatten<byte>([[]]) == [] + [] == [];
    assert Encode(UTF_8, s) == s;
    assert !NeedsEncoding(s) && s != [] && DecodeHeader(d, Encode(UTF_8, s)) == Some([]);
  }

  /** What is written is words of at most 75 bytes, one after the other with a space between. */
  lemma WrittenWordsFit(charset: Bytes, s: Bytes)
    requires IsUtf8(charset) && NeedsEncoding(s)
    ensures Encode(charset, s) == Words(charset, Chunks(s, 0))
    ensures forall i :: 0 <= i < |Chunks(s, 0)| ==> |OpenWord(charset) + QString(Chunks(s, 0)[i]) + CLOSE_WORD| <= MAX_WORD_LEN
  {
    hide Chunks, Body, QString;
    forall i | 0 <= i < |Chunks(s, 0)|
      ensures |OpenWord(charset) + QString(Chunks(s, 0)[i]) + CLOSE_WORD| <= MAX_WORD_LEN
    {
      WordsFit(charset, s, i);
    }
  }
}
