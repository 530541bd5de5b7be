/** The line scanner of src/bufio/scan.go over any source. */
module Scanner {
  import opened Basics
  import opened Stream
  import opened Slices

  const NEWLINE: byte := '\n' as int
  const CARRIAGE_RETURN: byte := '\r' as int

  const START_BUF_SIZE := 4096

  /** A scanner stops at the first error, or after one empty read more than the limit. */
  const USUAL := Patience(MAX_EMPTY_READS + 1, None)

  // ----- lines

  function DropCR(s: Bytes): Bytes {
    if |s| > 0 && s[|s| - 1] == CARRIAGE_RETURN then s[..|s| - 1] else s
  }

  /** How far to advance, and the line if there is one. */
  function ScanLines(data: Bytes, atEOF: bool): (r: (nat, Option<Bytes>))
    ensures r.0 <= |data|
    ensures r.1.Some? ==> r.0 > 0
  {
    if atEOF && |data| == 0 then (0, None)
    else
      var i := IndexByte(data, NEWLINE);
      if i >= 0 then (i + 1, Some(DropCR(data[..i])))
      else if atEOF then (|data|, Some(DropCR(data)))
      else (0, None)
  }

  /** The first line of an input, without its terminator. */
  function FirstLine(s: Bytes): Bytes {
    var i := IndexByte(s, NEWLINE);
    if i < 0 then DropCR(s) else DropCR(s[..i])
  }

  function AfterLine(s: Bytes): (r: Bytes)
    ensures s != [] ==> |r| < |s|
  {
    var i := IndexByte(s, NEWLINE);
    if i < 0 then [] else s[i + 1..]
  }

  /** The lines of a whole input; the last may lack its terminator. */
  function Lines(s: Bytes): seq<Bytes>
    decreases |s|
  {
    if s == [] then [] else [FirstLine(s)] + Lines(AfterLine(s))
  }

  /** Whether the first line, with its terminator, surely goes into limit bytes. */
  predicate FirstFits(s: Bytes, limit: nat) {
    var i := IndexByte(s, NEWLINE);
    if i < 0 then |s| < limit else i < limit
  }

  predicate AllFit(s: Bytes, limit: nat)
    decreases |s|
  {
    if s == [] then limit > 0 else FirstFits(s, limit) && AllFit(AfterLine(s), limit)
  }

  lemma LineTaken(line: Bytes, rest: Bytes)
    requires NEWLINE !in line
    ensures FirstLine(line + [NEWLINE] + rest) == DropCR(line) && AfterLine(line + [NEWLINE] + rest) == rest
  {
    hide IndexByte, DropCR;
    IndexByteAt(line, NEWLINE, rest);
    var s := line + [NEWLINE] + rest;
    assert s[..|line|] == line && s[|line| + 1..] == rest;
  }

  /** A terminator is a newline, or a carriage return and a newline; no more than one carriage return goes with it. */
  lemma TerminatorsAreStripped(line: Bytes, rest: Bytes)
    requires '\n' as int !in line
    ensures line == [] || line[|line| - 1] != '\r' as int ==> Lines(line + ['\n' as int] + rest) == [line] + Lines(rest)
    ensures Lines(line + ['\r' as int, '\n' as int] + rest) == [line] + Lines(rest)
  {
    hide FirstLine, AfterLine;
    var long := line + [CARRIAGE_RETURN];
    LineTaken(line, rest);
    LineTaken(long, rest);
    assert long + [NEWLINE] + rest == line + [CARRIAGE_RETURN, NEWLINE] + rest;
    assert long[..|line|] == line;
  }

  /** The last line may lack its newline, or all of its terminator; nothing is no line. */
  lemma LastLine(line: Bytes)
    requires '\n' as int !in line
    ensures line != [] && line[|line| - 1] != '\r' as int ==> Lines(line) == [line]
    ensures Lines(line + ['\r' as int]) == [line]
    ensures Lines([]) == []
  {
    hide IndexByte;
    var long := line + ['\r' as int];
    assert NEWLINE !in long && long[..|line|] == line;
    assert AfterLine(long) == [] && FirstLine(long) == line;
    assert NEWLINE !in line ==> AfterLine(line) == [];
  }

  // ----- a line found in what has been read is the first line of all there is

  /** Splitting a part of the input agrees with the lines of the whole: only the end of input can
      close a line that has no terminator. */
  lemma SplitAgrees(data: Bytes, more: Bytes, atEOF: bool)
    requires atEOF ==> more == []
    ensures var (advance, token) := ScanLines(data, atEOF);
      match token
      case Some(line) => data != [] && line == FirstLine(data + more) && (data + more)[advance..] == AfterLine(data + more)
      case None => advance == 0 && NEWLINE !in data && (atEOF ==> data == [])
  {
    hide DropCR;
    IndexByteExtends(data, more, NEWLINE);
    var i := IndexByte(data, NEWLINE);
    if i >= 0 {
      assert (data + more)[..i] == data[..i];
    } else if atEOF {
      assert data + more == data;
    }
  }

  /** A token needs a line that goes into the limit, or the end of the input. */
  lemma SplitFits(data: Bytes, more: Bytes, atEOF: bool, limit: nat)
    requires |data| <= limit && (atEOF ==> more == [])
    requires ScanLines(data, atEOF).1.Some?
    ensures !TooBig(data + more, limit)
  {
    IndexByteExtends(data, more, NEWLINE);
    var i := IndexByte(data, NEWLINE);
    if i >= 0 {
      assert (data + more)[i] == NEWLINE;
    }
  }

  /** The first line, with its terminator, cannot go into limit bytes. */
  predicate TooBig(s: Bytes, limit: nat) {
    |s| > limit && NEWLINE !in s[..limit]
  }

  lemma FullDoesNotFit(data: Bytes, more: Bytes, limit: nat)
    requires NEWLINE !in data && |data| >= limit
    ensures !FirstFits(data + more, limit)
  {
    IndexByteExtends(data, more, NEWLINE);
  }

  class Scanner {
    const r: Source
    const maxTokenSize: nat
    var token: Option<Bytes>
    var buf: array<byte>
    var start: nat
    var end: nat
    var err: Option<Error>

    ghost predicate Valid()
      reads this
    {
      start <= end <= buf.Length
    }

    /** The bytes that have been read and not yet handed out. */
    ghost function Data(): Bytes
      requires Valid()
      reads this, buf
    {
      buf[start..end]
    }

    /** All the input there is to scan: after an error nothing more is read. */
    ghost function Rest(): Bytes
      requires Valid()
      reads this, buf, r
    {
      Data() + if err.Some? then [] else Feed(USUAL, r.script, 0).0
    }

    ghost function Final(): Error
      reads this, r
    {
      if err.Some? then err.value else Feed(USUAL, r.script, 0).1
    }

    /** The largest size the buffer may take. */
    ghost function Limit(): nat
      reads this
    {
      if buf.Length > maxTokenSize then buf.Length else maxTokenSize
    }

    constructor (r: Source, buf: array<byte>, max: nat)
      ensures Valid() && this.r == r && this.buf == buf && maxTokenSize == max
      ensures err.None? && Rest() == Feed(USUAL, r.script, 0).0 && Final() == Feed(USUAL, r.script, 0).1
    {
      this.r, this.buf, maxTokenSize := r, buf, max;
      start, end, err, token := 0, 0, None, None;
      new;
      assert Data() == [];
      assert [] + Feed(USUAL, r.script, 0).0 == Feed(USUAL, r.script, 0).0;
    }

    method SetErr(e: Error)
      modifies this`err
      ensures err == if old(err).None? || old(err) == Some(EOF) then Some(e) else old(err)
    {
      if err.None? || err.value == EOF {
        err := Some(e);
      }
    }

    /** Makes room at the end of the buffer, by shifting and by doubling; false if it may not grow. */
    method MakeRoom() returns (ok: bool)
      requires Valid()
      modifies this`start, this`end, this`buf, buf
      ensures Valid() && Data() == old(Data()) && Limit() == old(Limit())
      ensures buf == old(buf) || fresh(buf)
      ensures ok ==> end < buf.Length
      ensures !ok ==> |Data()| >= Limit()
    {
      if start > 0 && (end == buf.Length || start > buf.Length / 2) {
        Copy(buf, 0, buf[start..end]);
        end := end - start;
        start := 0;
      }
      if end == buf.Length {
        if buf.Length >= maxTokenSize {
          return false;
        }
        var newSize := buf.Length * 2;
        if newSize == 0 {
          newSize := START_BUF_SIZE;
        }
        if newSize > maxTokenSize {
          newSize := maxTokenSize;
        }
        var newBuf := new byte[newSize];
        Copy(newBuf, 0, buf[start..end]);
        buf := newBuf;
        end := end - start;
        start := 0;
      }
      return true;
    }

    /** One read into the free part of the buffer. */
    method ReadOnce() returns (n: nat, readErr: Option<Error>)
      requires Valid() && end < buf.Length
      modifies this`end, buf, r
      ensures Valid()
      ensures (Data(), readErr, r.script) ==
        (old(Data()) + Deal(old(r.script), buf.Length - old(end)).0,
          Deal(old(r.script), buf.Length - old(end)).1, Deal(old(r.script), buf.Length - old(end)).2)
      ensures n == |Deal(old(r.script), buf.Length - old(end)).0|
      ensures end == old(end) + n
    {
      hide Deal;
      ghost var before := buf[..];
      n, readErr := r.Read(buf, end, buf.Length);
      assert buf[..][..end] == before[..end];
      Extended(before, buf[..], start, end, end + n);
      end := end + n;
    }

    /** Reads until something comes: bytes, an error, or too many empty reads. */
    method ReadMore()
      requires Valid() && end < buf.Length && err.None?
      modifies this`end, this`err, buf, r
      ensures Valid() && Rest() == old(Rest()) && Final() == old(Final())
      ensures |Coming(r.script)| <= |old(Coming(r.script))|
      ensures err.Some? || |Coming(r.script)| < |old(Coming(r.script))|
    {
      hide Feed, Deal, Coming;
      ghost var data0, end0 := Data(), end;
      ghost var feed, coming := Feed(USUAL, r.script, 0), Coming(r.script);
      var loop := 0;
      while true
        invariant Valid() && end == end0 < buf.Length && err.None?
        invariant Data() == data0 && 0 <= loop <= MAX_EMPTY_READS
        invariant Feed(USUAL, r.script, loop) == feed && Coming(r.script) == coming
        decreases MAX_EMPTY_READS - loop
      {
        ghost var room := buf.Length - end;
        ghost var data := Deal(r.script, room).0;
        FeedStep(USUAL, r.script, room, loop);
        DealConserves(r.script, room);
        var n, readErr := ReadOnce();
        if readErr.Some? {
          SetErr(readErr.value);
          break;
        }
        if n > 0 {
          assert data0 + (data + Feed(USUAL, r.script, 0).0) == data0 + data + Feed(USUAL, r.script, 0).0;
          break;
        }
        loop := loop + 1;
        assert data0 + [] == data0 && [] + Coming(r.script) == Coming(r.script);
        if loop > MAX_EMPTY_READS {
          SetErr(NoProgress);
          break;
        }
      }
    }

    /** What is read and what is still to be read, apart; nothing is to be read after an error. */
    ghost function More(): Bytes
      reads this, r
    {
      if err.Some? then [] else Feed(USUAL, r.script, 0).0
    }

    /** Tries to take a line out of the bytes that are there. */
    method TakeLine() returns (found: bool)
      requires Valid() && (end > start || err.Some?)
      modifies this`start, this`token
      ensures Valid() && More() == old(More())
      ensures found ==> old(Rest()) != [] && token == Some(FirstLine(old(Rest()))) && Rest() == AfterLine(old(Rest()))
      ensures found ==> !TooBig(old(Rest()), Limit())
      ensures !found ==> Rest() == old(Rest()) && NEWLINE !in Data() && (err.Some? ==> Data() == [])
    {
      hide Feed, ScanLines, TooBig, FirstLine, AfterLine;
      ghost var data, more := Data(), More();
      var (advance, line) := ScanLines(buf[start..end], err.Some?);
      SplitAgrees(data, more, err.Some?);
      start := start + advance;
      token := line;
      found := line.Some?;
      assert Data() == data[advance..];
      assert (data + more)[advance..] == Data() + more;
      if found {
        SplitFits(data, more, err.Some?, Limit());
      }
    }

    /** Moves on to the next line, which is then in token; false at the end, or if the line is too long. */
    method Scan() returns (ok: bool)
      requires Valid()
      modifies this, buf, r
      ensures Valid() && Limit() == old(Limit()) && (buf == old(buf) || fresh(buf))
      ensures ok ==> old(Rest()) != [] && token == Some(FirstLine(old(Rest()))) && Rest() == AfterLine(old(Rest()))
      ensures ok ==> !TooBig(old(Rest()), Limit()) && Final() == old(Final())
      ensures !ok ==> (old(Rest()) == [] && err == Some(old(Final()))) || (err == Some(TooLong) && !FirstFits(old(Rest()), Limit()))
    {
      hide Feed, TooBig, FirstFits, FirstLine, AfterLine, Coming;
      while true
        invariant Valid() && Limit() == old(Limit()) && (buf == old(buf) || fresh(buf))
        invariant Rest() == old(Rest()) && Final() == old(Final())
        decreases |Coming(r.script)|, if err.None? then 1 else 0
      {
        if end > start || err.Some? {
          var found := TakeLine();
          if found {
            return true;
          }
        }
        if err.Some? {
          start, end := 0, 0;
          return false;
        }
        ghost var data, more := Data(), More();
        var room := MakeRoom();
        if !room {
          FullDoesNotFit(data, more, Limit());
          SetErr(TooLong);
          return false;
        }
        ReadMore();
      }
    }
  }

  lemma AllFitFirst(s: Bytes, limit: nat)
    requires AllFit(s, limit)
    ensures FirstFits(s, limit)
  {
  }

  /** Every line of the input, in order, and then the error that ended it. */
  method ScanAll(s: Scanner) returns (lines: seq<Bytes>)
    requires s.Valid() && AllFit(s.Rest(), s.Limit())
    modifies s, s.buf, s.r
    ensures lines == Lines(old(s.Rest()))
    ensures s.err == Some(old(s.Final()))
  {
    hide Feed, FirstFits, FirstLine, AfterLine, TooBig;
    lines := [];
    while true
      invariant s.Valid() && s.Limit() == old(s.Limit()) && (s.buf == old(s.buf) || fresh(s.buf))
      invariant AllFit(s.Rest(), s.Limit())
      invariant lines + Lines(s.Rest()) == Lines(old(s.Rest()))
      invariant s.Final() == old(s.Final())
      decreases |s.Rest()|
    {
      ghost var rest := s.Rest();
      AllFitFirst(rest, s.Limit());
      var ok := s.Scan();
      if !ok {
        assert rest == [] && lines + [] == lines;
        return;
      }
      assert lines + ([FirstLine(rest)] + Lines(AfterLine(rest))) == lines + [FirstLine(rest)] + Lines(AfterLine(rest));
      lines := lines + [s.token.value];
    }
  }
}
