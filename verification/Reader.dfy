/** The buffered reader of src/bufio/bufio.go over any source. */
module Reader {
  import opened Basics
  import opened Slices
  import opened Stream
  import Utf8

  const MIN_READ_BUFFER_SIZE := 16

  /** A filling read gives up at the first error and after a hundred empty reads. */
  const USUAL := Patience(MAX_EMPTY_READS, None)

  /** Collecting a line also reads past the report that the buffer is full, even if it is the source's own. */
  const LINES := Patience(MAX_EMPTY_READS, Some(BufferFull))

  predicate ReadsOn(p: Patience) {
    p.stall == MAX_EMPTY_READS && p.past != Some(NoProgress)
  }

  /** The first n bytes, or all if there are fewer. */
  function First(s: Bytes, n: nat): Bytes {
    if n < |s| then s[..n] else s
  }

  /** What a filling read with the given room gets: bytes, an error, and the script that is left. */
  function FillFrom(script: seq<Reply>, room: nat, idle: nat): (Bytes, Option<Error>, seq<Reply>)
    decreases MAX_EMPTY_READS - idle
  {
    if idle >= MAX_EMPTY_READS then ([], Some(NoProgress), script)
    else
      var (data, err, left) := Deal(script, room);
      if err.Some? || data != [] then (data, err, left) else FillFrom(left, room, idle + 1)
  }

  /** The bytes that reading gets before it has to give up, and the error it then reports: what is
      buffered, then the pending error, or else what the source feeds. */
  function AheadOf(p: Patience, buffered: Bytes, err: Option<Error>, script: seq<Reply>): (Bytes, Error) {
    if err.Some? && err != p.past then (buffered, err.value)
    else (buffered + Feed(p, script, 0).0, Feed(p, script, 0).1)
  }

  /** A filling read takes the first part of what the source feeds. */
  lemma {:induction false} FillFeeds(p: Patience, script: seq<Reply>, room: nat, idle: nat)
    requires room > 0 && idle < MAX_EMPTY_READS && ReadsOn(p)
    ensures var (data, err, left) := FillFrom(script, room, idle);
      && Feed(p, script, idle) == AheadOf(p, data, err, left)
      && (err.None? ==> data != [])
    decreases MAX_EMPTY_READS - idle
  {
    hide Feed, Deal;
    FeedStep(p, script, room, idle);
    var (data, err, left) := Deal(script, room);
    if err.None? && data == [] && idle + 1 < MAX_EMPTY_READS {
      FillFeeds(p, left, room, idle + 1);
    }
  }

  lemma {:induction false} AheadFilled(p: Patience, buffered: Bytes, script: seq<Reply>, room: nat)
    requires room > 0 && ReadsOn(p)
    ensures var (data, err, left) := FillFrom(script, room, 0);
      AheadOf(p, buffered + data, err, left) == AheadOf(p, buffered, None, script)
  {
    hide Feed, FillFrom;
    FillFeeds(p, script, room, 0);
    var (data, err, left) := FillFrom(script, room, 0);
    assert buffered + (data + Feed(p, left, 0).0) == buffered + data + Feed(p, left, 0).0;
  }

  /** What is taken from the front of the buffer is taken from the front of what is ahead. */
  lemma {:induction false} AheadTaken(p: Patience, taken: Bytes, buffered: Bytes, err: Option<Error>, script: seq<Reply>)
    ensures AheadOf(p, taken + buffered, err, script) ==
      (taken + AheadOf(p, buffered, err, script).0, AheadOf(p, buffered, err, script).1)
  {
    hide Feed;
    assert taken + buffered + Feed(p, script, 0).0 == taken + (buffered + Feed(p, script, 0).0);
  }

  /** What is buffered comes first in what is ahead. */
  lemma {:induction false} AheadBegins(p: Patience, buffered: Bytes, err: Option<Error>, script: seq<Reply>, c: byte)
    ensures buffered <= AheadOf(p, buffered, err, script).0
    ensures IndexByte(buffered, c) >= 0 ==> IndexByte(AheadOf(p, buffered, err, script).0, c) == IndexByte(buffered, c)
    ensures IndexByte(buffered, c) < 0 && IndexByte(AheadOf(p, buffered, err, script).0, c) >= 0 ==>
      IndexByte(AheadOf(p, buffered, err, script).0, c) >= |buffered|
  {
    hide Feed, IndexByte;
    IndexByteExtends(buffered, Feed(p, script, 0).0, c);
  }

  /** One read gets a first part of what is ahead; with an error, all of it and that error. */
  lemma {:induction false} AheadRead(script: seq<Reply>, room: nat)
    requires room > 0
    ensures var (data, e, _) := Deal(script, room);
      && data <= AheadOf(USUAL, [], None, script).0
      && (e.Some? ==> AheadOf(USUAL, [], None, script) == (data, e.value))
  {
    hide Feed, Deal;
    FeedStep(USUAL, script, room, 0);
    assert [] + Feed(USUAL, script, 0).0 == Feed(USUAL, script, 0).0;
  }

  /** The rune that the buffered bytes begin with is the one that all that is ahead begins with, if they
      hold it whole or nothing else is ahead. */
  lemma {:induction false} BufferedRune(buffered: Bytes, err: Option<Error>, script: seq<Reply>)
    requires buffered != []
    requires err.Some? || Utf8.FullRune(buffered) || |buffered| >= Utf8.UTF_MAX
    ensures Utf8.DecodeRune(AheadOf(USUAL, buffered, err, script).0) == Utf8.DecodeRune(buffered)
    ensures 1 <= Utf8.DecodeRune(buffered).1 <= |buffered| && Utf8.DecodeRune(buffered).1 <= Utf8.UTF_MAX
    ensures buffered[0] < Utf8.RUNE_SELF ==> Utf8.DecodeRune(buffered) == (buffered[0], 1)
    ensures buffered <= AheadOf(USUAL, buffered, err, script).0
  {
    hide Feed;
    if err.None? {
      if |buffered| >= Utf8.UTF_MAX {
        Utf8.FourBytesAreFull(buffered);
      }
      Utf8.FullRuneStays(buffered, Feed(USUAL, script, 0).0);
    }
  }

  /** What ReadSlice returns of what is ahead: the bytes up to and with the first delim, if the buffer holds
      them, or else as much as it holds and the reason. */
  predicate Sliced(ahead: (Bytes, Error), size: nat, delim: byte, line: Bytes, e: Option<Error>) {
    var i := IndexByte(ahead.0, delim);
    if 0 <= i < size then line == ahead.0[..i + 1] && e.None?
    else line == First(ahead.0, size) && ((e == Some(BufferFull) && |ahead.0| >= size) || (e == Some(ahead.1) && |ahead.0| <= size))
  }

  lemma {:induction false} SlicedFrom(buffered: Bytes, err: Option<Error>, script: seq<Reply>, size: nat, delim: byte)
    requires |buffered| <= size
    ensures var ahead, i := AheadOf(USUAL, buffered, err, script), IndexByte(buffered, delim);
      if i >= 0 then Sliced(ahead, size, delim, buffered[..i + 1], None)
      else (err.Some? ==> Sliced(ahead, size, delim, buffered, err)) && (|buffered| == size ==> Sliced(ahead, size, delim, buffered, Some(BufferFull)))
  {
    hide Feed, IndexByte;
    AheadBegins(USUAL, buffered, err, script, delim);
  }

  /** Where a reader is that has skipped some bytes since it was at the place given first. */
  predicate Skipped(handed0: Bytes, ahead0: (Bytes, Error), done: nat, handed: Bytes, ahead: (Bytes, Error)) {
    done <= |ahead0.0| && handed == handed0 + ahead0.0[..done] && ahead == (ahead0.0[done..], ahead0.1)
  }

  /** How a reader ends that was to discard n bytes. */
  predicate Discarded(handed0: Bytes, ahead0: (Bytes, Error), n: nat, handed: Bytes, ahead: (Bytes, Error),
                      discarded: nat, e: Option<Error>) {
    && handed == handed0 + First(ahead0.0, n)
    && (if n <= |ahead0.0| then discarded == n && e.None? && ahead == (ahead0.0[n..], ahead0.1)
        else discarded == |ahead0.0| && e == Some(ahead0.1))
  }

  lemma SkippedNone(handed: Bytes, ahead: (Bytes, Error))
    ensures Skipped(handed, ahead, 0, handed, ahead)
  {
    assert ahead.0[..0] == [] && ahead.0[0..] == ahead.0 && handed + [] == handed;
  }

  lemma SkippedMore(handed0: Bytes, ahead0: (Bytes, Error), done: nat, handed: Bytes, ahead: (Bytes, Error),
                    bytes: Bytes, ahead2: (Bytes, Error), n: nat)
    requires Skipped(handed0, ahead0, done, handed, ahead) && ahead == (bytes + ahead2.0, ahead2.1) && done + |bytes| <= n
    ensures Skipped(handed0, ahead0, done + |bytes|, handed + bytes, ahead2)
    ensures done + |bytes| == n ==> Discarded(handed0, ahead0, n, handed + bytes, ahead2, n, None)
  {
    var all := ahead0.0;
    assert all == all[..done] + all[done..] && all[done..] == bytes + ahead2.0;
    assert all[..done] + (bytes + ahead2.0) == all[..done] + bytes + ahead2.0;
    assert all[..done] + bytes == all[..done + |bytes|] && all[done + |bytes|..] == ahead2.0;
    assert handed0 + all[..done] + bytes == handed0 + (all[..done] + bytes);
    assert |all| == done + |bytes| ==> all[..done + |bytes|] == all;
  }

  lemma SkippedAll(handed0: Bytes, ahead0: (Bytes, Error), done: nat, handed: Bytes, ahead: (Bytes, Error),
                   ahead2: (Bytes, Error), n: nat)
    requires Skipped(handed0, ahead0, done, handed, ahead) && ahead.0 == [] && done < n
    ensures Discarded(handed0, ahead0, n, handed, ahead2, done, Some(ahead.1))
  {
    assert ahead0.0[..done] == ahead0.0;
  }

  /** What Peek shows of what is ahead, when it has stopped filling. */
  lemma Peeked(buffered: Bytes, ahead: Bytes, n: nat, size: nat, ended: bool)
    requires buffered <= ahead && |buffered| <= size && (ended ==> ahead == buffered)
    requires |buffered| >= n || |buffered| >= size || ended
    ensures n > size ==> buffered == First(ahead, size)
    ensures n <= size && |buffered| < n ==> ended && buffered == First(ahead, n) && |ahead| < n
    ensures n <= size && |buffered| >= n ==> buffered[..n] == First(ahead, n) && n <= |ahead|
  {
    assert buffered == ahead[..|buffered|];
    assert ahead[..|ahead|] == ahead;
    if n <= |buffered| {
      assert buffered[..n] == ahead[..|buffered|][..n] == ahead[..n];
    }
  }

  /** Collecting a line gives up where every other read does just if that is not at the source's own report
      of a full buffer. */
  lemma {:induction false} LinesAsUsual(buffered: Bytes, err: Option<Error>, script: seq<Reply>)
    ensures AheadOf(LINES, buffered, err, script) == AheadOf(USUAL, buffered, err, script) <==>
      AheadOf(USUAL, buffered, err, script).1 != BufferFull
  {
    hide Feed;
    PassingMatters(MAX_EMPTY_READS, BufferFull, script, 0);
  }

  /** All that is ahead is still to come. */
  lemma {:induction false} AheadComes(p: Patience, buffered: Bytes, err: Option<Error>, script: seq<Reply>)
    ensures AheadOf(p, buffered, err, script).0 <= buffered + Coming(script)
  {
    hide Feed, Coming;
    FeedComes(p, script, 0);
  }

  class Reader {
    const rd: Source
    const buf: array<byte>
    var r: nat
    var w: nat
    var err: Option<Error>
    var lastByte: int
    var lastRuneSize: int
    /** All that callers have been given, less what they put back. */
    ghost var handed: Bytes
    /** All that the source had to give when it was handed to this reader. */
    ghost const stream: Bytes

    ghost predicate Valid()
      reads this, buf, rd
      ensures Valid() ==> r <= w <= buf.Length && MIN_READ_BUFFER_SIZE <= buf.Length
    {
      && r <= w <= buf.Length && MIN_READ_BUFFER_SIZE <= buf.Length
      && handed + buf[r..w] + Coming(rd.script) == stream
      && -1 <= lastByte < 256 && -1 <= lastRuneSize <= Utf8.UTF_MAX && lastRuneSize != 0
      && (lastByte >= 0 ==> EndsIn(handed, lastByte))
      && (0 < lastRuneSize <= r ==> EndsWith(handed, buf[r - lastRuneSize..r]))
    }

    ghost function Buffered(): (b: Bytes)
      requires r <= w <= buf.Length
      reads this, buf
      ensures |b| == w - r
    {
      buf[r..w]
    }

    /** What is still to be handed out. */
    ghost function Remaining(): Bytes
      requires r <= w <= buf.Length
      reads this, buf, rd
    {
      buf[r..w] + Coming(rd.script)
    }

    /** What reading gets before it has to give up, and the error it then reports. */
    ghost function Ahead(p: Patience): (Bytes, Error)
      requires r <= w <= buf.Length
      reads this, buf, rd
    {
      AheadOf(p, Buffered(), err, rd.script)
    }

    constructor (rd: Source, size: nat)
      ensures Valid() && fresh(buf) && this.rd == rd
      ensures handed == [] && Remaining() == stream == Coming(rd.script)
      ensures forall p :: Ahead(p) == Feed(p, rd.script, 0)
    {
      this.rd := rd;
      buf := new byte[if size < MIN_READ_BUFFER_SIZE then MIN_READ_BUFFER_SIZE else size];
      r, w, err, lastByte, lastRuneSize := 0, 0, None, -1, -1;
      handed, stream := [], Coming(rd.script);
      new;
      assert handed + buf[r..w] == [] && [] + Coming(rd.script) == stream;
      assert forall p :: [] + Feed(p, rd.script, 0).0 == Feed(p, rd.script, 0).0;
    }

    /** Makes the errors that are still to be reported comparable: one fewer after each report. */
    ghost function Weight(): nat
      reads this, rd
    {
      |rd.script| + if err == Some(BufferFull) then 1 else 0
    }

    method ReadErr() returns (e: Option<Error>)
      requires Valid()
      modifies this`err
      ensures e == old(err) && err.None?
      ensures Valid() && Remaining() == old(Remaining())
    {
      e := err;
      err := None;
    }

    /** Keeps an error until it can be reported. */
    method Keep(e: Error)
      requires Valid()
      modifies this`err
      ensures Valid() && err == Some(e) && Remaining() == old(Remaining()) && Buffered() == old(Buffered())
    {
      err := Some(e);
    }

    /** From here on nothing can be put back. */
    method Forget()
      requires Valid()
      modifies this`lastByte, this`lastRuneSize
      ensures Valid() && lastByte == -1 && lastRuneSize == -1
      ensures Remaining() == old(Remaining()) && Ahead(USUAL) == old(Ahead(USUAL))
    {
      lastByte := -1;
      lastRuneSize := -1;
    }

    /** Moves what is buffered to the front. */
    method Slide()
      requires Valid()
      modifies this`r, this`w, buf
      ensures Valid() && r == 0 && Buffered() == old(Buffered()) && Remaining() == old(Remaining())
    {
      if r > 0 {
        Copy(buf, 0, buf[r..w]);
        w := w - r;
        r := 0;
        assert buf[0..w] == old(buf[r..w]);
      }
    }

    /** One read into the free part of the buffer. */
    method ReadOnce() returns (n: nat, e: Option<Error>)
      requires Valid() && w < buf.Length
      modifies this`w, buf, rd
      ensures Valid() && w == old(w) + n && Remaining() == old(Remaining())
      ensures (Buffered(), e, rd.script) ==
        (old(Buffered()) + Deal(old(rd.script), buf.Length - old(w)).0,
          Deal(old(rd.script), buf.Length - old(w)).1, Deal(old(rd.script), buf.Length - old(w)).2)
      ensures n == |Deal(old(rd.script), buf.Length - old(w)).0|
      ensures |rd.script| <= |old(rd.script)|
      ensures e.Some? ==> |rd.script| < |old(rd.script)| || e == Some(EOF)
    {
      hide Coming, Deal, EndsIn, EndsWith;
      ghost var before, k := buf[..], lastRuneSize;
      DealConserves(rd.script, buf.Length - w);
      ghost var (data, _, left) := Deal(rd.script, buf.Length - w);
      Moved(handed, before[r..w], data, left);
      n, e := rd.Read(buf, w, buf.Length);
      assert buf[..][..w] == before[..w];
      Extended(before, buf[..], r, w, w + n);
      if 0 < k <= r {
        SamePart(before, buf[..], w, r - k, r);
        assert buf[r - k..r] == before[r - k..r];
      }
      w := w + n;
    }

    /** Reads more, at most a hundred times; at the end something has come, or there is an error. */
    method Fill()
      requires Valid() && w - r < buf.Length
      modifies this`r, this`w, this`err, buf, rd
      ensures Valid() && Remaining() == old(Remaining())
      ensures Buffered() == old(Buffered()) + FillFrom(old(rd.script), buf.Length - old(w - r), 0).0
      ensures var e := FillFrom(old(rd.script), buf.Length - old(w - r), 0).1; err == if e.Some? then e else old(err)
      ensures rd.script == FillFrom(old(rd.script), buf.Length - old(w - r), 0).2
      ensures |Buffered()| >= |old(Buffered())| && Buffered()[..|old(Buffered())|] == old(Buffered())
      ensures err.Some? || |Buffered()| > |old(Buffered())|
      ensures old(err).None? ==> Ahead(USUAL) == old(Ahead(USUAL)) && Ahead(LINES) == old(Ahead(LINES))
      ensures old(err).None? ==> Weight() <= old(Weight())
    {
      hide Feed, Deal, AheadOf, Valid, Buffered, Remaining;
      Slide();
      ghost var buffered, room := Buffered(), buf.Length - w;
      FillFeeds(USUAL, rd.script, room, 0);
      AheadFilled(USUAL, buffered, rd.script, room);
      AheadFilled(LINES, buffered, rd.script, room);
      var i := MAX_EMPTY_READS;
      while i > 0
        invariant Valid() && r == 0 && w + room == buf.Length && Remaining() == old(Remaining())
        invariant Buffered() == buffered && err == old(err)
        invariant |rd.script| <= |old(rd.script)|
        invariant 0 <= i <= MAX_EMPTY_READS
        invariant FillFrom(rd.script, room, MAX_EMPTY_READS - i) == FillFrom(old(rd.script), room, 0)
        decreases i
      {
        var n, e := ReadOnce();
        if e.Some? {
          Keep(e.value);
          return;
        }
        if n > 0 {
          return;
        }
        assert buffered + [] == buffered;
        i := i - 1;
      }
      Keep(NoProgress);
      assert buffered + [] == buffered;
    }

    /** Hands out the first n buffered bytes. */
    ghost method HandOut(n: nat)
      requires r + n <= w <= buf.Length && r + n <= |buf[..]|
      requires handed + buf[r..w] + Coming(rd.script) == stream
      modifies this`handed
      ensures handed == old(handed) + buf[r..r + n]
      ensures handed + buf[r + n..w] + Coming(rd.script) == stream
    {
      assert buf[r..w] == buf[r..r + n] + buf[r + n..w];
      assert handed + (buf[r..r + n] + buf[r + n..w]) == handed + buf[r..r + n] + buf[r + n..w];
      handed := handed + buf[r..r + n];
    }

    /** Hands out the first n buffered bytes; the last one may be put back only if kept says so. */
    method Give(n: nat, kept: bool)
      requires Valid() && r + n <= w
      requires if kept then n > 0 else lastByte == -1
      modifies this`r, this`handed, this`lastByte, this`lastRuneSize
      ensures Valid() && r == old(r) + n && lastRuneSize == -1 && (kept || lastByte == -1)
      ensures handed == old(handed) + old(buf[r..r + n])
      ensures old(Remaining()) == old(buf[r..r + n]) + Remaining()
      ensures old(Ahead(USUAL)) == (old(buf[r..r + n]) + Ahead(USUAL).0, Ahead(USUAL).1)
      ensures old(Ahead(LINES)) == (old(buf[r..r + n]) + Ahead(LINES).0, Ahead(LINES).1)
      ensures kept ==> lastByte == old(buf[r..r + n])[n - 1]
    {
      hide Coming, AheadOf;
      AheadTaken(USUAL, buf[r..r + n], buf[r + n..w], err, rd.script);
      AheadTaken(LINES, buf[r..r + n], buf[r + n..w], err, rd.script);
      assert buf[r..w] == buf[r..r + n] + buf[r + n..w];
      assert buf[r..r + n] + buf[r + n..w] + Coming(rd.script) == buf[r..r + n] + (buf[r + n..w] + Coming(rd.script));
      HandOut(n);
      r := r + n;
      lastRuneSize := -1;
      if kept {
        lastByte := buf[r - 1];
      }
    }

    /** The next byte, or the error that stands in its place. */
    method ReadByte() returns (c: byte, e: Option<Error>)
      requires Valid()
      modifies this, buf, rd
      ensures Valid()
      ensures if old(Ahead(USUAL)).0 == [] then e == Some(old(Ahead(USUAL)).1)
        else e.None? && old(Ahead(USUAL)) == ([c] + Ahead(USUAL).0, Ahead(USUAL).1)
      ensures e.None? ==> handed == old(handed) + [c] && old(Remaining()) == [c] + Remaining() && lastByte == c && r > 0
      ensures e.Some? ==> handed == old(handed) && Remaining() == old(Remaining()) && Buffered() == [] && err.None? && c == 0
    {
      lastRuneSize := -1;
      hide Valid, Remaining, Ahead, AheadOf, FillFrom;
      while r == w
        invariant Valid() && handed == old(handed) && Remaining() == old(Remaining()) && lastRuneSize == -1
        invariant Ahead(USUAL) == old(Ahead(USUAL))
        decreases if r == w then 1 else 0, if err.None? then 1 else 0
      {
        if err.Some? {
          BeginsAhead();
          e := ReadErr();
          return 0, e;
        }
        Fill();
      }
      c := Take();
      return c, None;
    }

    /** The buffered bytes come first in what is ahead; with a pending error there is nothing else. */
    lemma BeginsAhead()
      requires Valid()
      ensures Buffered() <= Ahead(USUAL).0
      ensures err.Some? ==> Ahead(USUAL) == (Buffered(), err.value)
    {
      AheadBegins(USUAL, buf[r..w], err, rd.script, 0);
    }

    /** Hands out the first buffered byte. */
    method Take() returns (c: byte)
      requires Valid() && r < w
      modifies this`r, this`handed, this`lastByte, this`lastRuneSize
      ensures Valid() && handed == old(handed) + [c] && old(Remaining()) == [c] + Remaining()
      ensures old(Ahead(USUAL)) == ([c] + Ahead(USUAL).0, Ahead(USUAL).1)
      ensures lastByte == c && r == old(r) + 1
    {
      hide AheadOf, Coming, EndsIn, EndsWith;
      c := buf[r];
      assert buf[r..r + 1] == [c];
      Give(1, true);
    }

    /** Puts the last byte back, unless there is none or its place is taken. */
    method UnreadByte() returns (ok: bool)
      requires Valid()
      modifies this, buf
      ensures Valid()
      ensures ok <==> old(lastByte) >= 0 && !(old(r) == 0 && old(w) > 0)
      ensures ok ==> old(handed) == handed + [old(lastByte)] && Remaining() == [old(lastByte)] + old(Remaining())
      ensures ok ==> lastByte == -1 && Ahead(USUAL) == ([old(lastByte)] + old(Ahead(USUAL)).0, old(Ahead(USUAL)).1)
      ensures !ok ==> handed == old(handed) && Remaining() == old(Remaining()) && Ahead(USUAL) == old(Ahead(USUAL))
    {
      hide AheadOf;
      if lastByte < 0 || (r == 0 && w > 0) {
        return false;
      }
      ghost var buffered := buf[r..w];
      if r > 0 {
        r := r - 1;
      } else {
        w := 1;
      }
      buf[r] := lastByte;
      assert buf[r..w] == [lastByte] + buffered;
      AheadTaken(USUAL, [lastByte], buffered, err, rd.script);
      ghost var last := handed[|handed| - 1..];
      assert handed == handed[..|handed| - 1] + [lastByte];
      assert handed[..|handed| - 1] + [lastByte] + buffered == handed[..|handed| - 1] + ([lastByte] + buffered);
      handed := handed[..|handed| - 1];
      assert [lastByte] + buffered + Coming(rd.script) == [lastByte] + (buffered + Coming(rd.script));
      lastByte := -1;
      lastRuneSize := -1;
      return true;
    }

    /** Looks at the next n bytes without handing them out. */
    method Peek(n: int) returns (bytes: Bytes, e: Option<Error>)
      requires Valid()
      modifies this, buf, rd
      ensures Valid() && handed == old(handed) && Remaining() == old(Remaining())
      ensures lastByte == (if n < 0 then old(lastByte) else -1)
      ensures n < 0 ==> bytes == [] && e == Some(NegativeCount)
      ensures n > buf.Length ==> bytes == First(old(Ahead(USUAL)).0, buf.Length) && e == Some(BufferFull)
      ensures 0 <= n <= buf.Length ==> bytes == First(old(Ahead(USUAL)).0, n)
      ensures 0 <= n <= buf.Length ==> e == if n <= |old(Ahead(USUAL)).0| then None else Some(old(Ahead(USUAL)).1)
      ensures e.None? || n < 0 || n > buf.Length ==> Ahead(USUAL) == old(Ahead(USUAL))
      ensures 0 <= n <= buf.Length && e.Some? ==> Buffered() == bytes && err.None?
    {
      hide Valid, Remaining, Ahead, AheadOf, FillFrom;
      if n < 0 {
        return [], Some(NegativeCount);
      }
      Forget();
      while w - r < n && w - r < buf.Length && err.None?
        invariant Valid() && handed == old(handed) && Remaining() == old(Remaining()) && lastByte == -1
        invariant Ahead(USUAL) == old(Ahead(USUAL))
        decreases buf.Length - (w - r), if err.None? then 1 else 0
      {
        Fill();
      }
      BeginsAhead();
      Peeked(buf[r..w], Ahead(USUAL).0, n, buf.Length, err.Some?);
      hide First;
      if n > buf.Length {
        return buf[r..w], Some(BufferFull);
      }
      e := None;
      var m := n;
      if w - r < n {
        m := w - r;
        e := ReadErr();
        if e.None? {
          e := Some(BufferFull);
        }
      }
      SubPart(buf[..], r, w, m);
      return buf[r..r + m], e;
    }

    /** Skips n bytes, or as many as come before an error.  But an error that is pending with nothing
        buffered does not stop it from reading once more. */
    method Discard(n: int) returns (discarded: nat, e: Option<Error>)
      requires Valid()
      modifies this, buf, rd
      ensures Valid()
      ensures n <= 0 ==> discarded == 0 && e == (if n < 0 then Some(NegativeCount) else None)
      ensures n <= 0 ==> handed == old(handed) && Ahead(USUAL) == old(Ahead(USUAL))
      ensures n > 0 && old(err.None? || Buffered() != []) ==>
        Discarded(old(handed), old(Ahead(USUAL)), n, handed, Ahead(USUAL), discarded, e)
      ensures n > 0 && old(err.Some? && Buffered() == []) ==>
        var (data, f, _) := FillFrom(old(rd.script), buf.Length, 0);
        && handed == old(handed) + First(data, n) && discarded == (if n < |data| then n else |data|)
        && (if n <= |data| then e.None? && err == (if f.Some? then f else old(err)) else e == if f.Some? then f else old(err))
    {
      hide Valid, Buffered, Remaining, Ahead, FillFrom;
      if n < 0 {
        return 0, Some(NegativeCount);
      }
      if n == 0 {
        return 0, None;
      }
      Forget();
      var remain: nat := n;
      ghost var past, handed0, ahead0 := err.Some? && r == w, handed, Ahead(USUAL);
      SkippedNone(handed0, ahead0);
      hide First, Skipped, Discarded;
      while true
        invariant Valid() && lastByte == -1 && lastRuneSize == -1 && 0 < remain <= n
        invariant remain == n ==> handed == handed0 && rd.script == old(rd.script) && err == old(err) && (r == w <==> old(r == w))
        invariant remain < n ==> !past && err.None?
        invariant !past ==> Skipped(handed0, ahead0, n - remain, handed, Ahead(USUAL))
        decreases remain
      {
        ghost var done: nat, handed1, ahead1 := n - remain, handed, Ahead(USUAL);
        var skip, bytes := Skip(remain);
        if !past {
          SkippedMore(handed0, ahead0, done, handed1, ahead1, bytes, Ahead(USUAL), n);
        }
        remain := remain - skip;
        if remain == 0 {
          return n, None;
        }
        if err.Some? {
          BeginsAhead();
          ghost var ahead2 := Ahead(USUAL);
          e := ReadErr();
          if !past {
            SkippedAll(handed0, ahead0, n - remain, handed, ahead2, Ahead(USUAL), n);
          }
          return n - remain, e;
        }
      }
    }

    /** Skips what is buffered, up to a limit; reads first if nothing is. */
    method Skip(limit: nat) returns (skip: nat, ghost bytes: Bytes)
      requires Valid() && limit > 0 && lastByte == -1
      modifies this`r, this`w, this`err, this`handed, this`lastByte, this`lastRuneSize, buf, rd
      ensures Valid() && lastByte == -1 && lastRuneSize == -1
      ensures handed == old(handed) + bytes && |bytes| == skip <= limit
      ensures old(err.None? || r < w) ==> old(Ahead(USUAL)) == (bytes + Ahead(USUAL).0, Ahead(USUAL).1)
      ensures old(err.Some? && r == w) ==> bytes == First(FillFrom(old(rd.script), buf.Length, 0).0, limit)
      ensures old(err.Some? && r == w) ==>
        var f := FillFrom(old(rd.script), buf.Length, 0).1; err.Some? && err == if f.Some? then f else old(err)
      ensures skip < limit ==> Buffered() == [] && (err.Some? || skip > 0)
    {
      hide Valid, Buffered, Remaining, Ahead, FillFrom, First;
      if w - r == 0 {
        Fill();
        NothingBefore(old(Buffered()), FillFrom(old(rd.script), buf.Length, 0).0);
      }
      skip, bytes := GiveFirst(limit);
    }

    /** Hands out what is buffered, up to a limit. */
    method GiveFirst(limit: nat) returns (n: nat, ghost bytes: Bytes)
      requires Valid() && lastByte == -1
      modifies this`r, this`handed, this`lastByte, this`lastRuneSize
      ensures Valid() && lastByte == -1 && lastRuneSize == -1
      ensures bytes == First(old(Buffered()), limit) && n == |bytes| <= limit && handed == old(handed) + bytes
      ensures old(Ahead(USUAL)) == (bytes + Ahead(USUAL).0, Ahead(USUAL).1)
      ensures n < limit ==> n == |old(Buffered())| && Buffered() == []
    {
      hide Valid, Remaining, Ahead;
      n := w - r;
      if n > limit {
        n := limit;
      }
      bytes := buf[r..r + n];
      SubPart(buf[..], r, w, n);
      assert bytes == First(buf[r..w], limit);
      Give(n, false);
    }

    /** Reads into p with at most one read of the source. */
    method Read(p: array<byte>) returns (n: nat, e: Option<Error>)
      requires Valid() && p != buf
      modifies this, buf, rd, p
      ensures Valid()
      ensures n <= p.Length && handed == old(handed) + p[..n]
      ensures p[..n] <= old(Ahead(USUAL)).0 && (e.Some? ==> (p[..n], e.value) == old(Ahead(USUAL)))
      ensures old(Buffered()) != [] ==> e.None? && n == |First(old(Buffered()), p.Length)|
      ensures old(Buffered()) == [] && (p.Length == 0 || old(err).Some?) ==> n == 0 && e == old(err)
      ensures old(Buffered()) == [] && p.Length > 0 && old(err).None? ==>
        var (data, f, left) := Deal(old(rd.script), if p.Length < buf.Length then buf.Length else p.Length);
        && n == |First(data, p.Length)| && Buffered() == data[n..] && rd.script == left
        && (if data == [] || p.Length >= buf.Length then e == f && err.None? else e.None? && err == f)
      ensures n > 0 ==> lastByte == p[n - 1] as int && (r > 0 || w == 0)
    {
      hide Valid, Remaining, Ahead, Deal, AheadOf;
      if p.Length == 0 {
        if w - r > 0 {
          return 0, None;
        }
        if err.Some? {
          BeginsAhead();
          assert buf[r..w] == [];
        }
        e := ReadErr();
        return 0, e;
      }
      BeginsAhead();
      if r == w {
        if err.Some? {
          BeginsAhead();
          e := ReadErr();
          return 0, e;
        }
        ReadsAhead(if p.Length < buf.Length then buf.Length else p.Length);
        if p.Length >= buf.Length {
          n := ReadDirect(p);
          e := ReadErr();
          return;
        }
        n := ReadChunk();
        if n == 0 {
          e := ReadErr();
          return;
        }
      }
      n := CopyOut(p);
      return n, None;
    }

    lemma ReadsAhead(room: nat)
      requires Valid() && r == w && err.None? && room > 0
      ensures var (data, e, _) := Deal(rd.script, room);
        data <= Ahead(USUAL).0 && (e.Some? ==> Ahead(USUAL) == (data, e.value))
    {
      hide Deal, AheadOf;
      assert buf[r..w] == [];
      AheadRead(rd.script, room);
    }

    /** One read into the whole of the empty buffer. */
    method ReadChunk() returns (n: nat)
      requires Valid() && r == w && err.None?
      modifies this`r, this`w, this`err, buf, rd
      ensures Valid() && w - r == n && handed == old(handed)
      ensures (Buffered(), err, rd.script) == Deal(old(rd.script), buf.Length)
    {
      assert buf[r..w] == buf[0..0];
      r, w := 0, 0;
      n, err := ReadOnce();
    }

    /** Copies as many buffered bytes as p takes. */
    method CopyOut(p: array<byte>) returns (n: nat)
      requires Valid() && p != buf && r < w && p.Length > 0
      modifies this`r, this`handed, this`lastByte, this`lastRuneSize, p
      ensures Valid() && n == |First(old(Buffered()), p.Length)| && n <= p.Length
      ensures p[..n] == First(old(Buffered()), p.Length) && handed == old(handed) + p[..n]
      ensures Buffered() == old(Buffered())[n..]
      ensures lastByte == p[n - 1] as int && r > 0
    {
      n := if p.Length < w - r then p.Length else w - r;
      ghost var bytes := buf[r..r + n];
      Copy(p, 0, buf[r..r + n]);
      SubPart(buf[..], r, w, n);
      assert p[..n] == p[0..n] == bytes;
      assert bytes == First(Buffered(), p.Length);
      Give(n, true);
    }

    /** A large read past the empty buffer, straight into p. */
    method ReadDirect(p: array<byte>) returns (n: nat)
      requires Valid() && p != buf && r == w && err.None?
      modifies this, rd, p
      ensures Valid()
      ensures n <= p.Length && handed == old(handed) + p[..n]
      ensures (p[..n], err, rd.script) == Deal(old(rd.script), p.Length)
      ensures n > 0 ==> lastByte == p[n - 1] as int
      ensures r == old(r) && w == old(w)
    {
      hide Coming, Deal, EndsIn;
      DealConserves(rd.script, p.Length);
      ghost var (data, _, left) := Deal(rd.script, p.Length);
      MovedPast(handed, buf[r..w], data, left);
      n, err := rd.Read(p, 0, p.Length);
      assert p[..n] == p[0..n] == data;
      handed := handed + data;
      if n > 0 {
        assert p[n - 1] == data[n - 1];
        lastByte := p[n - 1];
        lastRuneSize := -1;
      } else {
        assert old(handed) + [] == old(handed);
      }
    }

    /** Reads more until the buffered bytes begin with a whole rune, or no more can be had. */
    method FillRune()
      requires Valid()
      modifies this, buf, rd
      ensures Valid() && handed == old(handed) && Remaining() == old(Remaining())
      ensures err.Some? || Utf8.FullRune(Buffered()) || |Buffered()| >= Utf8.UTF_MAX
      ensures lastByte == old(lastByte) && Ahead(USUAL) == old(Ahead(USUAL))
      ensures r == w ==> err.Some?
    {
      assert !Utf8.FullRune([]);
      hide Utf8.FullRune, AheadOf, FillFrom, Coming, EndsIn, EndsWith;
      while r + Utf8.UTF_MAX > w && !Utf8.FullRune(buf[r..w]) && err.None? && w - r < buf.Length
        invariant Valid() && handed == old(handed) && Remaining() == old(Remaining()) && lastByte == old(lastByte)
        invariant Ahead(USUAL) == old(Ahead(USUAL))
        decreases buf.Length - (w - r), if err.None? then 1 else 0
      {
        Fill();
      }
    }

    /** The next rune and its size, which are those of the whole input that is ahead; a bad byte is one rune.
        With nothing ahead, the error. */
    method ReadRune() returns (rr: int, size: nat, e: Option<Error>)
      requires Valid()
      modifies this, buf, rd
      ensures Valid()
      ensures if old(Ahead(USUAL)).0 == [] then rr == size == 0 && e == Some(old(Ahead(USUAL)).1)
        else e.None? && (rr, size) == Utf8.DecodeRune(old(Ahead(USUAL)).0)
      ensures e.Some? ==> handed == old(handed) && Remaining() == old(Remaining()) && Buffered() == [] && err.None?
      ensures e.None? ==> size <= |old(Ahead(USUAL)).0| && Ahead(USUAL) == (old(Ahead(USUAL)).0[size..], old(Ahead(USUAL)).1)
      ensures e.None? ==> handed == old(handed) + old(Ahead(USUAL)).0[..size]
      ensures e.None? ==> old(Remaining()) == old(Ahead(USUAL)).0[..size] + Remaining()
      ensures e.None? ==> 0 < lastRuneSize == size <= r && lastByte == old(Ahead(USUAL)).0[size - 1] as int
    {
      hide Valid, Remaining, Ahead, Utf8.FullRune, Utf8.DecodeRune;
      FillRune();
      ForgetRune();
      if r == w {
        assert buf[r..w] == [];
        BeginsAhead();
        e := ReadErr();
        return 0, 0, e;
      }
      rr, size := buf[r], 1;
      if buf[r] >= Utf8.RUNE_SELF {
        rr, size := Utf8.DecodeRune(buf[r..w]).0, Utf8.DecodeRune(buf[r..w]).1;
      }
      RuneAhead();
      ghost var bytes, ahead := Buffered(), Ahead(USUAL).0;
      assert bytes[..size] == ahead[..size] && ahead == ahead[..size] + ahead[size..];
      GiveRune(size);
      return rr, size, None;
    }

    method ForgetRune()
      requires Valid()
      modifies this`lastRuneSize
      ensures Valid() && lastRuneSize == -1
      ensures Remaining() == old(Remaining()) && Ahead(USUAL) == old(Ahead(USUAL))
    {
      lastRuneSize := -1;
    }

    /** The rune that the buffered bytes begin with, if they hold it whole or nothing else is ahead. */
    lemma RuneAhead()
      requires Valid() && r < w && (err.Some? || Utf8.FullRune(Buffered()) || |Buffered()| >= Utf8.UTF_MAX)
      ensures Utf8.DecodeRune(Ahead(USUAL).0) == Utf8.DecodeRune(Buffered())
      ensures 1 <= Utf8.DecodeRune(Buffered()).1 <= |Buffered()| && Utf8.DecodeRune(Buffered()).1 <= Utf8.UTF_MAX
      ensures Buffered()[0] < Utf8.RUNE_SELF ==> Utf8.DecodeRune(Buffered()) == (Buffered()[0], 1)
      ensures Buffered() <= Ahead(USUAL).0
    {
      hide Utf8.FullRune, Utf8.DecodeRune, AheadOf;
      BufferedRune(buf[r..w], err, rd.script);
    }

    method GiveRune(size: nat)
      requires Valid() && 1 <= size <= Utf8.UTF_MAX && r + size <= w
      modifies this`r, this`handed, this`lastByte, this`lastRuneSize
      ensures Valid() && lastRuneSize == size <= r && lastByte == old(Buffered())[size - 1] as int
      ensures handed == old(handed) + old(Buffered())[..size] && old(Remaining()) == old(Buffered())[..size] + Remaining()
      ensures old(Ahead(USUAL)) == (old(Buffered())[..size] + Ahead(USUAL).0, Ahead(USUAL).1)
    {
      hide Coming, AheadOf;
      ghost var bytes := buf[r..w];
      assert bytes[..size] == buf[r..r + size];
      Give(size, true);
      EndsWithSum(old(handed), buf[r - size..r]);
      lastRuneSize := size;
    }

    /** Puts the last rune back, if the last call was the one that read it. */
    method UnreadRune() returns (ok: bool)
      requires Valid()
      modifies this
      ensures Valid()
      ensures ok <==> 0 <= old(lastRuneSize) <= old(r)
      ensures ok ==> |handed| + old(lastRuneSize) == |old(handed)| && handed <= old(handed)
      ensures ok ==> Remaining() == old(handed)[|handed|..] + old(Remaining())
      ensures ok ==> Ahead(USUAL) == (old(handed)[|handed|..] + old(Ahead(USUAL)).0, old(Ahead(USUAL)).1)
      ensures !ok ==> handed == old(handed) && Remaining() == old(Remaining()) && Ahead(USUAL) == old(Ahead(USUAL))
    {
      hide Coming, AheadOf;
      if lastRuneSize < 0 || r < lastRuneSize {
        return false;
      }
      var size := lastRuneSize;
      ghost var back := buf[r - size..r];
      assert buf[r - size..w] == back + buf[r..w];
      AheadTaken(USUAL, back, buf[r..w], err, rd.script);
      ghost var kept := handed[..|handed| - size];
      assert handed == kept + back;
      assert kept + back + buf[r..w] == kept + (back + buf[r..w]);
      assert back + buf[r..w] + Coming(rd.script) == back + (buf[r..w] + Coming(rd.script));
      handed := kept;
      r := r - size;
      lastByte := -1;
      lastRuneSize := -1;
      return true;
    }

    /** Takes all that is buffered. */
    method TakeAll() returns (line: Bytes)
      requires Valid()
      modifies this`r, this`handed, this`lastByte, this`lastRuneSize
      ensures Valid() && r == w && handed == old(handed) + line && line == old(Buffered())
      ensures old(Remaining()) == line + Remaining()
      ensures old(Ahead(LINES)) == (line + Ahead(LINES).0, Ahead(LINES).1)
      ensures line != [] ==> lastByte == line[|line| - 1] as int && r > 0
    {
      hide AheadOf, Coming, EndsIn, EndsWith;
      line := buf[r..w];
      if line != [] {
        assert buf[r..r + (w - r)] == line;
        Give(w - r, true);
      } else {
        assert handed + [] == handed && [] + Remaining() == Remaining() && [] + Ahead(LINES).0 == Ahead(LINES).0;
      }
    }

    /** Takes all that is buffered, and the pending error. */
    method TakeRest() returns (line: Bytes, e: Option<Error>)
      requires Valid() && err.Some?
      modifies this`r, this`err, this`handed, this`lastByte, this`lastRuneSize
      ensures Valid() && e == old(err) && handed == old(handed) + line && line == old(Buffered())
      ensures old(Remaining()) == line + Remaining() && Weight() + (if e == Some(BufferFull) then 1 else 0) == old(Weight())
      ensures e == Some(BufferFull) ==> old(Ahead(LINES)) == (line + Ahead(LINES).0, Ahead(LINES).1)
      ensures e != Some(BufferFull) ==> old(Ahead(LINES)) == (line, e.value)
      ensures line != [] ==> lastByte == line[|line| - 1] as int && r > 0
    {
      hide Feed, Coming, EndsIn, EndsWith;
      line := TakeAll();
      e := ReadErr();
    }

    /** The place of the first delim, not searching the first s bytes again; -1 if there is none. */
    method FindFrom(s: nat, delim: byte) returns (i: int)
      requires r + s <= w <= buf.Length && Lacks(Buffered()[..s], delim)
      ensures i == IndexByte(Buffered(), delim)
    {
      assert buf[r..w] == buf[r..w][..s] + buf[r..w][s..] && buf[r..w][s..] == buf[r + s..w];
      i := IndexByte(buf[r + s..w], delim);
      IndexByteAfter(buf[r..w][..s], buf[r + s..w], delim);
      if i >= 0 {
        i := i + s;
      }
    }

    /** Fills the buffer until it holds delim, an error is pending, or it is full, and tells where delim is. */
    method Search(delim: byte) returns (i: int)
      requires Valid()
      modifies this`r, this`w, this`err, buf, rd
      ensures Valid() && Remaining() == old(Remaining())
      ensures Ahead(USUAL) == old(Ahead(USUAL)) && Ahead(LINES) == old(Ahead(LINES)) && Weight() <= old(Weight())
      ensures i == IndexByte(Buffered(), delim) && (i >= 0 || err.Some? || w - r == buf.Length)
    {
      var s: nat := 0;
      assert Lacks(Buffered()[..s], delim);
      hide Valid, Buffered, Remaining, Ahead, FillFrom, IndexByte, Lacks;
      while true
        invariant Valid() && Remaining() == old(Remaining())
        invariant Ahead(USUAL) == old(Ahead(USUAL)) && Ahead(LINES) == old(Ahead(LINES)) && Weight() <= old(Weight())
        invariant s <= w - r && Lacks(Buffered()[..s], delim)
        decreases buf.Length - (w - r), if err.None? then 1 else 0
      {
        i := FindFrom(s, delim);
        if i >= 0 || err.Some? || w - r >= buf.Length {
          return;
        }
        s := w - r;
        NotThere(Buffered(), delim);
        Fill();
      }
    }

    /** Takes the bytes up to and with the delim at i. */
    method TakeLine(delim: byte, i: nat) returns (line: Bytes)
      requires Valid() && r + i < w && i == IndexByte(Buffered(), delim)
      modifies this`r, this`handed, this`lastByte, this`lastRuneSize
      ensures Valid() && handed == old(handed) + line && old(Remaining()) == line + Remaining()
      ensures EndsIn(line, delim) && line != [] && Lacks(line[..|line| - 1], delim) && line == old(Buffered())[..i + 1]
      ensures old(Ahead(USUAL)) == (line + Ahead(USUAL).0, Ahead(USUAL).1)
      ensures old(Ahead(LINES)) == (line + Ahead(LINES).0, Ahead(LINES).1)
      ensures lastByte == line[|line| - 1] as int == delim as int && r > 0
    {
      hide Coming, AheadOf, IndexByte;
      line := buf[r..r + (i + 1)];
      assert line == buf[r..w][..i + 1] && line[..i] == buf[r..w][..i];
      Give(i + 1, true);
    }

    /** The bytes up to and with the first delim, or all that is buffered if an error or a full buffer comes
        first.  If just as many bytes are ahead as the buffer holds, either may be reported. */
    method ReadSlice(delim: byte) returns (line: Bytes, e: Option<Error>)
      requires Valid()
      modifies this, buf, rd
      ensures Valid() && handed == old(handed) + line && old(Remaining()) == line + Remaining()
      ensures Sliced(old(Ahead(USUAL)), buf.Length, delim, line, e)
      ensures if e.None? then EndsIn(line, delim) && line != [] && Lacks(line[..|line| - 1], delim) else Lacks(line, delim)
      ensures e.None? || e == Some(BufferFull) ==> old(Ahead(LINES)) == (line + Ahead(LINES).0, Ahead(LINES).1)
      ensures e.Some? && e != Some(BufferFull) ==> old(Ahead(LINES)) == (line, e.value)
      ensures e == Some(BufferFull) ==> |Remaining()| + Weight() < old(|Remaining()| + Weight())
      ensures line != [] ==> lastByte == line[|line| - 1] as int && r > 0
    {
      hide Valid, Buffered, Remaining, Ahead, FillFrom, IndexByte, Sliced, EndsIn, Lacks;
      var i := Search(delim);
      SlicedHere(delim);
      if i >= 0 {
        line := TakeLine(delim, i);
        return line, None;
      }
      if err.Some? {
        line, e := TakeRest();
        return;
      }
      line := TakeAll();
      return line, Some(BufferFull);
    }

    lemma SlicedHere(delim: byte)
      requires Valid()
      ensures var i := IndexByte(Buffered(), delim);
        && (i >= 0 ==> Sliced(Ahead(USUAL), buf.Length, delim, Buffered()[..i + 1], None))
        && (i < 0 && err.Some? ==> Sliced(Ahead(USUAL), buf.Length, delim, Buffered(), err))
        && (i < 0 && |Buffered()| == buf.Length ==> Sliced(Ahead(USUAL), buf.Length, delim, Buffered(), Some(BufferFull)))
      ensures IndexByte(Buffered(), delim) < 0 ==> Lacks(Buffered(), delim)
    {
      hide Sliced, AheadOf, IndexByte;
      SlicedFrom(buf[r..w], err, rd.script, buf.Length, delim);
    }

    /** Everything up to the first delim, in full buffers and a last fragment. */
    method CollectFragments(delim: byte) returns (full: seq<Bytes>, frag: Bytes, totalLen: nat, e: Option<Error>)
      requires Valid()
      modifies this, buf, rd
      ensures Valid()
      ensures totalLen == |Flatten(full) + frag|
      ensures Collected(old(handed), old(Remaining()), old(Ahead(LINES)), Flatten(full) + frag, handed, Remaining(), Ahead(LINES), e)
      ensures Lacks(Flatten(full), delim)
      ensures if e.None? then EndsIn(frag, delim) && frag != [] && Lacks(frag[..|frag| - 1], delim) else Lacks(frag, delim)
      ensures frag != [] ==> lastByte == frag[|frag| - 1] as int && r > 0
    {
      full, frag, totalLen, e := [], [], 0, None;
      assert Flatten(full) == [];
      assert Lacks([], delim);
      hide Flatten, EndsIn, Lacks, Valid, Buffered, Remaining, Ahead, Sliced, Reached, Collected;
      ghost var handed0, remaining0, ahead0 := handed, Remaining(), Ahead(LINES);
      ReachedStart(handed0, remaining0, ahead0);
      while true
        invariant Valid()
        invariant totalLen == |Flatten(full)| && Lacks(Flatten(full), delim)
        invariant Reached(handed0, remaining0, ahead0, Flatten(full), handed, Remaining(), Ahead(LINES))
        decreases |Remaining()| + Weight()
      {
        ghost var handed1, remaining1, ahead1 := handed, Remaining(), Ahead(LINES);
        var err;
        frag, err := ReadSlice(delim);
        ReachedMore(handed0, remaining0, ahead0, Flatten(full), handed1, remaining1, ahead1, frag, Remaining(), Ahead(LINES), err);
        if err.None? {
          break;
        }
        if err.value != BufferFull {
          e := err;
          break;
        }
        FlattenWithout(full, frag, delim);
        full := full + [frag];
        totalLen := totalLen + |frag|;
      }
      totalLen := totalLen + |frag|;
    }

    /** The shortest part of what is ahead that ends in delim; without one, all of it and the error that ends it. */
    method ReadBytes(delim: byte) returns (line: Bytes, e: Option<Error>)
      requires Valid()
      modifies this, buf, rd
      ensures Valid()
      ensures handed == old(handed) + line && old(Remaining()) == line + Remaining()
      ensures var i := IndexByte(old(Ahead(LINES)).0, delim);
        if i >= 0 then line == old(Ahead(LINES)).0[..i + 1] && e.None? && Ahead(LINES) == (old(Ahead(LINES)).0[i + 1..], old(Ahead(LINES)).1)
        else (line, e) == (old(Ahead(LINES)).0, Some(old(Ahead(LINES)).1))
      ensures e.None? <==> EndsIn(line, delim)
      ensures e.None? ==> lastByte == delim as int && r > 0
    {
      hide EndsIn, Lacks, Flatten, Valid, Buffered, Remaining, Ahead, IndexByte;
      var full, frag, n;
      full, frag, n, e := CollectFragments(delim);
      line := Join(full, frag, n);
      if e.None? {
        FoundLine(Flatten(full), frag, Ahead(LINES).0, delim);
      } else {
        NoLine(Flatten(full), frag, delim);
      }
    }
  }

  lemma NothingBefore(empty: Bytes, data: Bytes)
    ensures empty == [] ==> empty + data == data
  {
  }

  lemma PutBack(before: Bytes, back: Bytes, longer: Bytes, after: Bytes)
    requires longer == before + back && after <= longer && |after| + |back| == |longer|
    ensures after == before && longer[|after|..] == back
  {
    assert after == longer[..|before|] == before;
  }

  /** A byte that has just been read can be put back, and then everything is as it was. */
  method ReadThenUnreadByte(b: Reader) returns (c: byte, e: Option<Error>)
    requires b.Valid()
    modifies b, b.buf, b.rd
    ensures b.Valid() && b.Remaining() == old(b.Remaining())
    ensures b.handed == old(b.handed) && (e.None? ==> b.Ahead(USUAL) == old(b.Ahead(USUAL)))
  {
    hide b.Valid, b.Remaining, b.Ahead;
    c, e := b.ReadByte();
    if e.None? {
      ghost var longer := b.handed;
      var ok := b.UnreadByte();
      PutBack(old(b.handed), [c], longer, b.handed);
    }
  }

  /** And so can a rune. */
  method ReadThenUnreadRune(b: Reader) returns (rr: int, size: nat, e: Option<Error>)
    requires b.Valid()
    modifies b, b.buf, b.rd
    ensures b.Valid() && b.Remaining() == old(b.Remaining())
    ensures b.handed == old(b.handed) && (e.None? ==> b.Ahead(USUAL) == old(b.Ahead(USUAL)))
  {
    hide b.Valid, b.Remaining, b.Ahead, Utf8.DecodeRune;
    rr, size, e := b.ReadRune();
    if e.None? {
      ghost var rune := old(b.Ahead(USUAL)).0[..size];
      ghost var longer := b.handed;
      assert old(b.Ahead(USUAL)).0 == rune + old(b.Ahead(USUAL)).0[size..];
      var ok := b.UnreadRune();
      PutBack(old(b.handed), rune, longer, b.handed);
    }
  }

  /** An error that came with the last bytes is not reported to a Discard that follows them: it reads on. */
  method DiscardPassesError() returns (n: nat, e: Option<Error>)
    ensures n == 1 && e.None?
  {
    var rd := new Source([Reply([1], Some(Custom(1))), Reply([2], None)]);
    var b := new Reader(rd, 16);
    var p := new byte[1];
    assert FillFrom([Reply([2], None)], 16, 0) == ([2], None, []);
    n, e := b.Read(p);
    assert n == 1 && e.None? && b.err == Some(Custom(1)) && b.Buffered() == [];
    hide Deal, Coming, b.Valid, b.Remaining, b.Ahead;
    n, e := b.Discard(1);
  }

  const FULL_ONCE: seq<Reply> := [Reply([1], Some(BufferFull)), Reply([2], None)]

  lemma FullOnceFeeds()
    ensures Feed(LINES, FULL_ONCE, 0) == ([1, 2], EOF)
    ensures Feed(USUAL, FULL_ONCE, 0) == ([1], BufferFull)
  {
    var rest := FULL_ONCE[1..];
    var none: Bytes := [];
    assert rest == [Reply([2], None)] && rest[1..] == [];
    assert Feed(LINES, rest[1..], 0) == (none, EOF);
    assert [2] + none == [2];
    assert Feed(LINES, rest, 0) == ([2] + none, EOF);
    assert [1] + [2] == [1, 2];
  }

  /** A source whose report of a full buffer ends every other read, but not a line. */
  method LinePassesError() returns (line: Bytes, e: Option<Error>)
    ensures line == [1, 2] && e.None?
    ensures AheadOf(USUAL, [], None, FULL_ONCE) == ([1], BufferFull)
  {
    FullOnceFeeds();
    IndexByteAt([1], 2, []);
    assert [1] + [2] + [] == [1, 2];
    assert [] + [1] == [1];
    hide Feed, IndexByte;
    var rd := new Source(FULL_ONCE);
    var b := new Reader(rd, 16);
    hide Coming, AheadOf, b.Valid, b.Remaining, b.Ahead;
    line, e := b.ReadBytes(2);
  }

  /** Data that moves from the source to the buffer stays in its place in the stream. */
  lemma {:induction false} Moved(handed: Bytes, buffered: Bytes, data: Bytes, left: seq<Reply>)
    ensures handed + buffered + (data + Coming(left)) == handed + (buffered + data) + Coming(left)
    ensures buffered + (data + Coming(left)) == buffered + data + Coming(left)
  {
  }

  lemma {:induction false} MovedPast(handed: Bytes, empty: Bytes, data: Bytes, left: seq<Reply>)
    requires empty == []
    ensures handed + empty + (data + Coming(left)) == handed + data + empty + Coming(left)
    ensures data != [] ==> EndsIn(handed + data, data[|data| - 1])
  {
  }

  /** Where a reader is that has taken some bytes since it was at the place given first. */
  predicate Reached(handed0: Bytes, remaining0: Bytes, ahead0: (Bytes, Error), taken: Bytes,
                    handed: Bytes, remaining: Bytes, ahead: (Bytes, Error)) {
    handed == handed0 + taken && remaining0 == taken + remaining && ahead0 == (taken + ahead.0, ahead.1)
  }

  lemma ReachedStart(handed: Bytes, remaining: Bytes, ahead: (Bytes, Error))
    ensures Reached(handed, remaining, ahead, [], handed, remaining, ahead)
  {
    assert handed + [] == handed && [] + remaining == remaining && [] + ahead.0 == ahead.0;
  }

  /** Where it is when it has taken a line, or all that was ahead and the error that ended it. */
  predicate Collected(handed0: Bytes, remaining0: Bytes, ahead0: (Bytes, Error), taken: Bytes,
                      handed: Bytes, remaining: Bytes, ahead: (Bytes, Error), e: Option<Error>) {
    && handed == handed0 + taken && remaining0 == taken + remaining
    && ahead0 == if e.None? then (taken + ahead.0, ahead.1) else (taken, e.value)
  }

  lemma ReachedMore(handed0: Bytes, remaining0: Bytes, ahead0: (Bytes, Error), taken: Bytes,
                    handed: Bytes, remaining: Bytes, ahead: (Bytes, Error), frag: Bytes, remaining2: Bytes, ahead2: (Bytes, Error),
                    e: Option<Error>)
    requires Reached(handed0, remaining0, ahead0, taken, handed, remaining, ahead) && remaining == frag + remaining2
    requires ahead == if e.None? || e == Some(BufferFull) then (frag + ahead2.0, ahead2.1) else (frag, e.value)
    ensures e == Some(BufferFull) ==> Reached(handed0, remaining0, ahead0, taken + frag, handed + frag, remaining2, ahead2)
    ensures e != Some(BufferFull) ==> Collected(handed0, remaining0, ahead0, taken + frag, handed + frag, remaining2, ahead2, e)
  {
    assert handed0 + (taken + frag) == handed0 + taken + frag;
    assert taken + (frag + remaining2) == taken + frag + remaining2;
    assert taken + (frag + ahead2.0) == taken + frag + ahead2.0;
  }

  /** A line that ends in the first delim of all that is ahead. */
  lemma FoundLine(before: Bytes, frag: Bytes, rest: Bytes, delim: byte)
    requires Lacks(before, delim) && EndsIn(frag, delim) && frag != [] && Lacks(frag[..|frag| - 1], delim)
    ensures var line := before + frag;
      && EndsIn(line, delim) && IndexByte(line + rest, delim) == |line| - 1
      && (line + rest)[..|line|] == line && (line + rest)[|line|..] == rest
  {
    hide IndexByte;
    var head := before + frag[..|frag| - 1];
    assert frag == frag[..|frag| - 1] + [delim];
    assert before + frag == head + [delim];
    IndexByteAt(head, delim, rest);
  }

  lemma NoLine(before: Bytes, frag: Bytes, delim: byte)
    requires Lacks(before, delim) && Lacks(frag, delim)
    ensures !EndsIn(before + frag, delim) && IndexByte(before + frag, delim) < 0
  {
    hide IndexByte;
    var line := before + frag;
    assert delim !in line;
  }

  lemma FlattenWithout(full: seq<Bytes>, frag: Bytes, c: byte)
    requires Lacks(Flatten(full), c) && Lacks(frag, c)
    ensures Flatten(full + [frag]) == Flatten(full) + frag && Lacks(Flatten(full + [frag]), c)
  {
    FlattenAppend(full, frag);
  }

  /** Copies the full pieces and the fragment into one buffer of the right size. */
  method Join(full: seq<Bytes>, frag: Bytes, size: nat) returns (line: Bytes)
    requires size == |Flatten(full) + frag|
    ensures line == Flatten(full) + frag
  {
    var buf := new byte[size];
    var n := 0;
    for i := 0 to |full|
      invariant n == |Flatten(full[..i])| && n + |Flatten(full[i..]) + frag| == size
      invariant buf[..n] == Flatten(full[..i])
    {
      assert full[i..][1..] == full[i + 1..] && full[..i + 1] == full[..i] + [full[i]];
      FlattenAppend(full[..i], full[i]);
      ghost var done := buf[..n];
      Copy(buf, n, full[i]);
      assert buf[..n + |full[i]|] == buf[..n] + buf[n..n + |full[i]|];
      n := n + |full[i]|;
    }
    assert full[..|full|] == full;
    Copy(buf, n, frag);
    assert buf[..] == buf[..n] + buf[n..n + |frag|];
    return buf[..];
  }

  predicate Lacks(s: Bytes, c: byte) { c !in s }

  lemma NotThere(s: Bytes, c: byte)
    requires IndexByte(s, c) < 0
    ensures Lacks(s, c)
  {
  }

  predicate EndsIn(s: Bytes, c: int) {
    s != [] && s[|s| - 1] == c
  }
}
