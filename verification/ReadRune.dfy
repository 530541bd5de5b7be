/** The adapter of src/fmt/scan.go that reads runes from a reader of bytes, keeping
    back the bytes of a badly encoded rune that it had to look at. */
module ReadRune {
  import opened Basics
  import opened Slices
  import opened Stream
  import Utf8

  /** What reading one byte at a time meets; after the last event there is only EOF. */
  datatype Event = Byte(b: byte) | Fail(err: Error)

  function OfBytes(s: Bytes): (r: seq<Event>)
    ensures |r| == |s| && forall i :: 0 <= i < |s| ==> r[i] == Byte(s[i])
  {
    seq(|s|, i requires 0 <= i < |s| => Byte(s[i]))
  }

  /** An error that comes with data is dropped: the byte that was asked for is there. */
  function OfReply(r: Reply): seq<Event> {
    if r.data != [] then OfBytes(r.data)
    else if r.err.Some? then [Fail(r.err.value)]
    else []
  }

  function Events(script: seq<Reply>): seq<Event> {
    if script == [] then [] else OfReply(script[0]) + Events(script[1..])
  }

  // ----- what the next rune is

  datatype Outcome = Rune(r: int, size: nat) | Failed(err: Error)

  /** Bytes are added to p until it holds a whole rune, or until reading fails. */
  function Gather(u: seq<Event>, p: Bytes): (r: (Bytes, seq<Event>, Option<Error>))
    requires p != []
    ensures r.0 != [] && |r.1| <= |u| && |r.0| + |r.1| <= |p| + |u|
  {
    if Utf8.FullRune(p) then (p, u, None)
    else if u == [] then (p, [], Some(EOF))
    else if u[0].Fail? then (p, u[1..], Some(u[0].err))
    else Gather(u[1..], p + [u[0].b])
  }

  function NextRune(u: seq<Event>): (r: (Outcome, seq<Event>))
    ensures r.0.Rune? ==> |r.1| < |u|
  {
    if u == [] then (Failed(EOF), [])
    else if u[0].Fail? then (Failed(u[0].err), u[1..])
    else
      var (p, rest, err) := Gather(u[1..], [u[0].b]);
      if err.Some? && err.value != EOF then (Failed(err.value), rest)
      else
        var (r, size) := Utf8.DecodeRune(p);
        (Rune(r, size), OfBytes(p[size..]) + rest)
  }

  /** The runes that reading again and again gives, up to the first failure, and that failure. */
  function ReadAll(u: seq<Event>): (seq<int>, Error)
    decreases |u|
  {
    match NextRune(u)
    case (Rune(r, _), rest) => ([r] + ReadAll(rest).0, ReadAll(rest).1)
    case (Failed(err), _) => ([], err)
  }

  lemma OfBytesFirst(s: Bytes)
    requires s != []
    ensures OfBytes(s) == [Byte(s[0])] + OfBytes(s[1..])
  {
    hide OfBytes;
  }

  lemma GatherAtEnd(p: Bytes, after: seq<Event>)
    requires p != [] && (after == [] || after[0].Fail?)
    ensures Gather(after, p) ==
      if Utf8.FullRune(p) then (p, after, None)
      else if after == [] then (p, [], Some(EOF))
      else (p, after[1..], Some(after[0].err))
  {
  }

  lemma {:induction false} GatherBytes(s: Bytes, n: nat, after: seq<Event>)
    requires 1 <= n <= |s| && (n == 1 || !Utf8.FullRune(s[..n - 1]))
    requires after == [] || after[0].Fail?
    ensures var (p, rest, err) := Gather(OfBytes(s[n..]) + after, s[..n]);
      && n <= |p| <= |s| && p == s[..|p|]
      && (|p| == 1 || !Utf8.FullRune(p[..|p| - 1]))
      && (err.None? ==> Utf8.FullRune(p) && rest == OfBytes(s[|p|..]) + after)
      && (err.Some? ==> !Utf8.FullRune(s) && p == s && rest == (if after == [] then [] else after[1..]))
      && (err.Some? ==> err.value == if after == [] then EOF else after[0].err)
    decreases |s| - n
  {
    hide Utf8.FullRune, OfBytes;
    var u := OfBytes(s[n..]) + after;
    assert s[..n][..n - 1] == s[..n - 1];
    if !Utf8.FullRune(s[..n]) && n < |s| {
      OfBytesFirst(s[n..]);
      assert s[n..][1..] == s[n + 1..];
      assert u == [Byte(s[n])] + (OfBytes(s[n + 1..]) + after);
      assert u[1..] == OfBytes(s[n + 1..]) + after;
      assert s[..n] + [s[n]] == s[..n + 1];
      assert s[..n + 1][..n] == s[..n];
      GatherBytes(s, n + 1, after);
    } else if n == |s| {
      assert s[..n] == s && OfBytes(s[n..]) == [] && u == after;
      GatherAtEnd(s, after);
    }
  }

  /** While bytes remain, the next rune is the one they begin with, and only its bytes are used up. */
  lemma NextRuneDecodes(s: Bytes)
    requires s != []
    ensures var (r, size) := Utf8.DecodeRune(s); NextRune(OfBytes(s)) == (Rune(r, size), OfBytes(s[size..]))
  {
    hide NextRune, Utf8.DecodeRune, OfBytes;
    NextRuneBefore(s, []);
    assert forall t :: OfBytes(t) + [] == OfBytes(t);
  }

  lemma NextRuneBefore(s: Bytes, after: seq<Event>)
    requires s != []
    requires after == [] || after[0].Fail?
    ensures var (r, size) := Utf8.DecodeRune(s);
      NextRune(OfBytes(s) + after) ==
        if Utf8.FullRune(s) then (Rune(r, size), OfBytes(s[size..]) + after)
        else if after == [] then (Rune(r, size), OfBytes(s[size..]))
        else if after[0].err == EOF then (Rune(r, size), OfBytes(s[size..]) + after[1..])
        else (Failed(after[0].err), after[1..])
  {
    hide Utf8.FullRune, Utf8.DecodeRune, OfBytes, Gather;
    var u := OfBytes(s) + after;
    assert u[0] == Byte(s[0]) && u[1..] == OfBytes(s[1..]) + after;
    assert s[..1] == [s[0]] && s[..1][..0] == [];
    GatherBytes(s, 1, after);
    var (p, rest, err) := Gather(u[1..], [s[0]]);
    assert s == p + s[|p|..];
    var size := Utf8.DecodeRune(p).1;
    if err.None? {
      Utf8.FullRuneStays(p, s[|p|..]);
      FullWhenPrefixFull(p, s[|p|..]);
      assert OfBytes(p[size..]) + (OfBytes(s[|p|..]) + after) == OfBytes(s[size..]) + after;
    } else if after == [] {
      assert OfBytes(p[size..]) + [] == OfBytes(s[size..]);
    }
  }

  lemma FullWhenPrefixFull(p: Bytes, more: Bytes)
    requires Utf8.FullRune(p)
    ensures Utf8.FullRune(p + more)
  {
  }

  /** Nothing but the end of the input, though it may be reported more than once. */
  predicate Ended(u: seq<Event>) {
    forall i :: 0 <= i < |u| ==> u[i] == Fail(EOF)
  }

  /** Reading a stream of bytes to its end gives its UTF-8 decoding, one error rune for each bad byte. */
  lemma {:induction false} ReadAllDecodes(s: Bytes, end: seq<Event>)
    requires Ended(end)
    ensures ReadAll(OfBytes(s) + end) == (Utf8.Runes(s), EOF)
    decreases |s|
  {
    hide NextRune, Utf8.DecodeRune, Utf8.FullRune, OfBytes;
    if s == [] {
      NextRuneAtEnd(end);
      assert OfBytes(s) + end == end;
    } else {
      var rest := s[Utf8.DecodeRune(s).1..];
      NextRuneBefore(s, end);
      ReadAllDecodes(rest, end);
      if end != [] {
        ReadAllDecodes(rest, end[1..]);
      } else {
        assert OfBytes(rest) + end == OfBytes(rest);
      }
    }
  }

  lemma NextRuneAtEnd(end: seq<Event>)
    requires Ended(end)
    ensures NextRune(end) == (Failed(EOF), if end == [] then [] else end[1..])
  {
  }

  /** Bytes are lost in one case only: another error than EOF comes while they are an unfinished rune. */
  lemma BytesAreLost(s: Bytes, e: Error, after: seq<Event>)
    requires s != []
    ensures NextRune(OfBytes(s) + [Fail(e)] + after) == (Failed(e), after) <==> !Utf8.FullRune(s) && e != EOF
  {
    hide Utf8.FullRune, Utf8.DecodeRune, NextRune;
    assert OfBytes(s) + [Fail(e)] + after == OfBytes(s) + ([Fail(e)] + after);
    NextRuneBefore(s, [Fail(e)] + after);
  }

  // ----- the adapter

  lemma {:induction false} EventsFirst(script: seq<Reply>)
    requires script != []
    ensures Events(script) == OfReply(script[0]) + Events(script[1..])
  {
  }

  lemma {:induction false} EventsSplit(first: Reply, tail: seq<Reply>)
    requires |first.data| > 1
    ensures Events([first] + tail) == [Byte(first.data[0])] + Events([first.(data := first.data[1..])] + tail)
  {
    hide Events, OfBytes;
    var rest := first.(data := first.data[1..]);
    EventsFirst([first] + tail);
    EventsFirst([rest] + tail);
    assert ([first] + tail)[1..] == tail && ([rest] + tail)[1..] == tail;
    OfBytesFirst(first.data);
    assert [Byte(first.data[0])] + OfBytes(rest.data) + Events(tail) == [Byte(first.data[0])] + (OfBytes(rest.data) + Events(tail));
  }

  lemma {:induction false} EventsMoreBytes(script: seq<Reply>)
    requires script != [] && |script[0].data| > 1
    ensures var (data, _, left) := Deal(script, 1);
      |data| == 1 && Events(script) == [Byte(data[0])] + Events(left)
  {
    hide Events, OfBytes, OfReply;
    var first, tail := script[0], script[1..];
    EventsSplit(first, tail);
    assert script == [first] + tail;
    assert first.data[..1] == [first.data[0]];
  }

  lemma {:induction false} EventsLastByte(script: seq<Reply>)
    requires script != [] && |script[0].data| == 1
    ensures var (data, _, left) := Deal(script, 1);
      |data| == 1 && Events(script) == [Byte(data[0])] + Events(left)
  {
    hide Events, OfBytes;
    EventsFirst(script);
    OfBytesFirst(script[0].data);
    assert OfBytes(script[0].data[1..]) == [];
    assert OfBytes(script[0].data) == [Byte(script[0].data[0])];
  }

  lemma {:induction false} EventsNoByte(script: seq<Reply>)
    requires script != [] && script[0].data == []
    ensures var (data, err, left) := Deal(script, 1);
      data == [] && Events(script) == if err.Some? then [Fail(err.value)] + Events(left) else Events(left)
  {
    hide Events;
    EventsFirst(script);
    assert [] + Events(script[1..]) == Events(script[1..]);
  }

  /** A call with room for one byte meets the next event, or nothing. */
  lemma {:induction false} EventsStep(script: seq<Reply>)
    ensures var (data, err, left) := Deal(script, 1);
      Events(script) ==
        if data != [] then [Byte(data[0])] + Events(left)
        else if script == [] then []
        else if err.Some? then [Fail(err.value)] + Events(left)
        else Events(left)
  {
    if script == [] {
      return;
    }
    hide Events, Deal;
    if |script[0].data| > 1 {
      EventsMoreBytes(script);
    } else if |script[0].data| == 1 {
      EventsLastByte(script);
    } else {
      EventsNoByte(script);
    }
  }

  lemma TakeFirst(kept: Bytes, events: seq<Event>)
    requires kept != []
    ensures OfBytes(kept) + events == [Byte(kept[0])] + (OfBytes(kept[1..]) + events)
  {
    OfBytesFirst(kept);
  }

  /** Whether the source gives its bytes, cut in any way and with any errors beside them, and then, where no
      byte comes with an error, reports nothing but the end. */
  predicate EndsCleanly(script: seq<Reply>) {
    script == [] ||
    (EndsCleanly(script[1..]) &&
     (script[0].data == [] && script[0].err.Some? ==> script[0].err == Some(EOF) && Coming(script[1..]) == []))
  }

  /** However such a source cuts its bytes, they are the events, one by one, and then the end. */
  lemma {:induction false} EventsAreBytes(script: seq<Reply>)
    requires EndsCleanly(script)
    ensures |Coming(script)| <= |Events(script)|
    ensures Events(script) == OfBytes(Coming(script)) + Events(script)[|Coming(script)|..]
    ensures Ended(Events(script)[|Coming(script)|..])
  {
    hide OfBytes;
    if script != [] {
      var data, tail := script[0].data, script[1..];
      var coming, events := Coming(tail), Events(tail);
      EventsAreBytes(tail);
      OfBytesSum(data, coming);
      var end := events[|coming|..];
      if data != [] {
        assert OfBytes(data) + (OfBytes(coming) + end) == OfBytes(data + coming) + end;
        assert Events(script) == OfBytes(data + coming) + end;
        assert Events(script)[|data + coming|..] == end;
      } else if script[0].err.Some? {
        assert data + coming == [] && end == events;
        assert Events(script) == [Fail(EOF)] + end;
        assert OfBytes([]) + Events(script) == Events(script) == Events(script)[0..];
      } else {
        assert data + coming == coming && [] + events == events;
      }
    }
  }

  lemma OfBytesSum(s: Bytes, t: Bytes)
    ensures OfBytes(s + t) == OfBytes(s) + OfBytes(t)
    ensures |OfBytes(s)| == |s|
    ensures OfBytes([]) == []
  {
  }

  class Adapter {
    const reader: Source
    const buf: array<byte>
    var pending: nat
    const pendBuf: array<byte>
    var peekRune: int

    ghost predicate Valid()
      reads this, pendBuf
    {
      && buf != pendBuf && buf.Length == Utf8.UTF_MAX && pendBuf.Length == Utf8.UTF_MAX
      && pending < Utf8.UTF_MAX
      && (forall i :: 0 <= i < pending - 1 ==> Utf8.IsContinuation(pendBuf[i]))
    }

    /** All that is still to be read, the bytes kept back first. */
    ghost function Upcoming(): seq<Event>
      requires Valid()
      reads this, pendBuf, reader
    {
      OfBytes(pendBuf[..pending]) + Events(reader.script)
    }

    constructor (reader: Source)
      ensures Valid() && this.reader == reader && fresh(buf) && fresh(pendBuf)
      ensures Upcoming() == Events(reader.script) && peekRune == -1
    {
      this.reader := reader;
      buf := new byte[Utf8.UTF_MAX];
      pendBuf := new byte[Utf8.UTF_MAX];
      pending := 0;
      peekRune := -1;
      new;
      assert OfBytes(pendBuf[..0]) + Events(reader.script) == Events(reader.script);
    }

    /** Takes the first byte that was kept back. */
    method TakePending() returns (b: byte)
      requires Valid() && pending > 0
      modifies this`pending, pendBuf
      ensures Valid() && pending == old(pending) - 1
      ensures old(pending) > 1 ==> Utf8.IsContinuation(b)
      ensures old(Upcoming()) == [Byte(b)] + Upcoming()
    {
      hide OfBytes, Events;
      b := pendBuf[0];
      ghost var before := pendBuf[..];
      Copy(pendBuf, 0, pendBuf[1..]);
      pending := pending - 1;
      assert pendBuf[..pending] == pendBuf[0..3][..pending] == before[1..][..pending];
      assert before[..pending + 1][1..] == before[1..][..pending];
      TakeFirst(before[..pending + 1], Events(reader.script));
      assert forall i :: 0 <= i < pending ==> pendBuf[i] == pendBuf[..pending][i] == before[i + 1];
    }

    /** One byte, however many empty reads it takes. */
    method ReadFull() returns (b: byte, err: Option<Error>)
      requires Valid() && pending == 0
      modifies pendBuf, reader
      ensures Valid()
      ensures if old(Upcoming()) == [] then err == Some(EOF) && Upcoming() == []
        else if old(Upcoming())[0].Byte? then err.None? && old(Upcoming()) == [Byte(b)] + Upcoming()
        else err.Some? && old(Upcoming()) == [Fail(err.value)] + Upcoming()
    {
      hide Events;
      ghost var u := Upcoming();
      assert u == Events(reader.script) && pendBuf.Length == Utf8.UTF_MAX;
      var n := 0;
      err := None;
      while n < 1 && err.None?
        invariant n == 0 && err.None? ==> u == Events(reader.script)
        invariant n == 1 ==> u == [Byte(pendBuf[0])] + Events(reader.script)
        invariant 0 <= n <= 1
        invariant n == 0 && err.Some? ==> if u == [] then err == Some(EOF) && Events(reader.script) == [] else u == [Fail(err.value)] + Events(reader.script)
        decreases |reader.script|, 1 - n, if err.None? then 1 else 0
      {
        EventsStep(reader.script);
        DealConserves(reader.script, 1);
        ghost var data := Deal(reader.script, 1).0;
        n, err := reader.Read(pendBuf, 0, 1);
        assert n == 1 ==> pendBuf[0] == pendBuf[0..1][0] == data[0];
      }
      assert Upcoming() == Events(reader.script);
      if n != 1 {
        return 0, err;
      }
      return pendBuf[0], None;
    }

    /** The next event, from what was kept back or from the source. */
    method ReadByte() returns (b: byte, err: Option<Error>)
      requires Valid()
      modifies this`pending, pendBuf, reader
      ensures Valid() && pending <= old(pending)
      ensures old(pending) <= 1 ==> pending == 0
      ensures old(pending) > 1 ==> Utf8.IsContinuation(b) && err.None?
      ensures if old(Upcoming()) == [] then err == Some(EOF) && Upcoming() == []
        else if old(Upcoming())[0].Byte? then err.None? && old(Upcoming()) == [Byte(b)] + Upcoming()
        else err.Some? && old(Upcoming()) == [Fail(err.value)] + Upcoming()
    {
      if pending > 0 {
        b := TakePending();
        err := None;
      } else {
        b, err := ReadFull();
      }
    }

    /** Reads bytes into buf until it holds a whole rune; at the end of the input that is all there is. */
    method Fill() returns (n: nat, err: Option<Error>)
      requires Valid()
      requires Utf8.FullRune(buf[..1]) || pending == 0
      modifies this`pending, pendBuf, buf, reader
      ensures Valid()
      ensures 1 <= n <= Utf8.UTF_MAX
      ensures (buf[..n], Upcoming(), err) == Gather(old(Upcoming()), old(buf[..1]))
      ensures n == 1 || (pending == 0 && !Utf8.FullRune(buf[..n - 1]))
    {
      hide Utf8.FullRune;
      n := 1;
      err := None;
      while !Utf8.FullRune(buf[..n])
        invariant Valid() && 1 <= n <= Utf8.UTF_MAX && err.None?
        invariant n == 1 || (pending == 0 && !Utf8.FullRune(buf[..n - 1]))
        invariant Utf8.FullRune(buf[..1]) || pending == 0
        invariant Gather(Upcoming(), buf[..n]) == Gather(old(Upcoming()), old(buf[..1]))
        decreases Utf8.UTF_MAX - n
      {
        ghost var u, p := Upcoming(), buf[..n];
        UnfinishedIsShort(p);
        var b;
        b, err := ReadByte();
        assert buf[..n] == p;
        assert u != [] ==> u[1..] == Upcoming();
        if err.Some? {
          return;
        }
        buf[n] := b;
        assert buf[..n + 1] == p + [b];
        n := n + 1;
      }
    }

    /** The next rune and its size.  A rune that was put back comes again, with the size of its own encoding. */
    method ReadRune() returns (rr: int, size: int, err: Option<Error>)
      requires Valid()
      modifies this, buf, pendBuf, reader
      ensures Valid()
      ensures old(peekRune) >= 0 ==>
        rr == old(peekRune) && size == Utf8.RuneLen(rr) && err.None? && Upcoming() == old(Upcoming())
      ensures old(peekRune) < 0 ==>
        Upcoming() == NextRune(old(Upcoming())).1 &&
        match NextRune(old(Upcoming())).0
        case Rune(r, n) => err.None? && rr == r && size == n
        case Failed(e) => err == Some(e) && peekRune == old(peekRune)
      ensures err.None? ==> peekRune == -1 - rr < 0
    {
      hide Gather, Utf8.FullRune, Utf8.DecodeRune, Events, OfBytes;
      if peekRune >= 0 {
        rr := peekRune;
        peekRune := -1 - peekRune;
        size := Utf8.RuneLen(rr);
        return rr, size, None;
      }
      rr, size := 0, 0;
      ghost var u := Upcoming();
      var b;
      b, err := ReadByte();
      if err.Some? {
        return;
      }
      buf[0] := b;
      assert buf[..1] == [b];
      if b < Utf8.RUNE_SELF {
        rr, size := b, 1;
        peekRune := -1 - rr;
        AsciiRune(u, b);
        return;
      }
      ContinuationIsFull(b);
      var n;
      n, err := Fill();
      if err.Some? {
        if err.value == EOF {
          err := None;
        } else {
          return;
        }
      }
      rr, size := Utf8.DecodeRune(buf[..n]).0, Utf8.DecodeRune(buf[..n]).1;
      assert buf[..n][..n - 1] == buf[..n - 1];
      DecodesWhole(buf[..n]);
      if size < n {
        UnfinishedIsShort(buf[..n - 1]);
        assert forall i :: 1 <= i < n - 1 ==> buf[i] == buf[..n - 1][i];
        KeepBack(size, n);
      }
      peekRune := -1 - rr;
    }

    /** Keeps back the bytes of buf that were looked at but not used. */
    method KeepBack(size: nat, n: nat)
      requires Valid() && pending == 0 && 1 <= size < n <= Utf8.UTF_MAX
      requires forall i :: size <= i < n - 1 ==> Utf8.IsContinuation(buf[i])
      modifies this`pending, pendBuf
      ensures Valid()
      ensures Upcoming() == OfBytes(buf[size..n]) + old(Upcoming())
    {
      hide OfBytes, Events;
      ghost var events := Events(reader.script);
      assert OfBytes(pendBuf[..pending]) + events == events;
      for i := 0 to n - size
        invariant pending == 0 && pendBuf[..i] == buf[size..size + i]
      {
        ghost var done := pendBuf[..i];
        pendBuf[pending + i] := buf[size + i];
        assert pendBuf[..i + 1] == done + [buf[size + i]];
        assert buf[size..size + i + 1] == buf[size..size + i] + [buf[size + i]];
      }
      pending := pending + n - size;
      assert forall i :: 0 <= i < pending ==> pendBuf[i] == pendBuf[..pending][i] == buf[size + i];
    }

    /** Puts the last rune back; the next ReadRune gives it again. */
    method UnreadRune() returns (ok: bool)
      requires Valid()
      modifies this`peekRune
      ensures Valid() && Upcoming() == old(Upcoming())
      ensures ok <==> old(peekRune) < 0
      ensures peekRune == if ok then -1 - old(peekRune) else old(peekRune)
    {
      if peekRune >= 0 {
        return false;
      }
      peekRune := -1 - peekRune;
      return true;
    }
  }

  /** Every rune from here to the first failure, and that failure; a rune that was put back comes first. */
  method ReadToFailure(a: Adapter) returns (runes: seq<int>, e: Error)
    requires a.Valid()
    modifies a, a.buf, a.pendBuf, a.reader
    ensures a.Valid()
    ensures runes == (if old(a.peekRune) >= 0 then [old(a.peekRune)] else []) + ReadAll(old(a.Upcoming())).0
    ensures e == ReadAll(old(a.Upcoming())).1
  {
    hide NextRune, Events, OfBytes;
    ghost var all := (if a.peekRune >= 0 then [a.peekRune] else []) + ReadAll(a.Upcoming()).0;
    runes := [];
    while true
      invariant a.Valid()
      invariant runes + ((if a.peekRune >= 0 then [a.peekRune] else []) + ReadAll(a.Upcoming()).0) == all
      invariant ReadAll(a.Upcoming()).1 == ReadAll(old(a.Upcoming())).1
      decreases |a.Upcoming()| + if a.peekRune >= 0 then 1 else 0
    {
      ghost var u, peek := a.Upcoming(), a.peekRune;
      var rr, size, err := a.ReadRune();
      if err.Some? {
        assert runes + ([] + []) == runes;
        return runes, err.value;
      }
      assert peek < 0 ==> ReadAll(u).0 == [rr] + ReadAll(a.Upcoming()).0;
      assert runes + [rr] + ([] + ReadAll(a.Upcoming()).0) == runes + ([rr] + ReadAll(a.Upcoming()).0);
      assert [] + ([rr] + ReadAll(a.Upcoming()).0) == [rr] + ReadAll(a.Upcoming()).0;
      runes := runes + [rr];
    }
  }

  /** Every rune of a source: however it cuts its bytes, they are the UTF-8 decoding of all of them. */
  method ReadToEnd(reader: Source) returns (runes: seq<int>, e: Error)
    requires EndsCleanly(reader.script)
    modifies reader
    ensures runes == Utf8.Runes(old(Coming(reader.script))) && e == EOF
  {
    hide ReadAll, NextRune, Utf8.Runes, Events, Coming;
    ghost var coming, events := Coming(reader.script), Events(reader.script);
    EventsAreBytes(reader.script);
    ReadAllDecodes(coming, events[|coming|..]);
    var a := new Adapter(reader);
    runes, e := ReadToFailure(a);
    assert [] + Utf8.Runes(coming) == Utf8.Runes(coming);
  }

  /** The size that comes with a rune read again is that of its own encoding; it differs from the size read
      first just for a bad byte. */
  lemma SizeDiffers(s: Bytes)
    requires s != []
    ensures var (r, n) := Utf8.DecodeRune(s); Utf8.RuneLen(r) != n <==> r == Utf8.RUNE_ERROR && n == 1
  {
  }

  /** A bad byte is read with size 1, and read again with size 3. */
  method BadByteGrows() returns (size: int, again: int)
    ensures size == 1 && again == 3
  {
    hide Utf8.DecodeRune;
    var reader := new Source([Reply([0xFF], None)]);
    var a := new Adapter(reader);
    BadByte(a.Upcoming());
    var rr, err;
    rr, size, err := a.ReadRune();
    var ok := a.UnreadRune();
    rr, again, err := a.ReadRune();
  }

  lemma BadByte(u: seq<Event>)
    requires u == [Byte(0xFF)]
    ensures NextRune(u).0 == Rune(Utf8.RUNE_ERROR, 1)
  {
    assert Utf8.FullRune([0xFF]);
    assert Gather(u[1..], [u[0].b]).0 == [0xFF];
  }

  lemma AsciiRune(u: seq<Event>, b: byte)
    requires u != [] && u[0] == Byte(b) && b < Utf8.RUNE_SELF
    ensures NextRune(u) == (Rune(b, 1), u[1..])
  {
    assert [b][1..] == [];
    assert OfBytes([]) + u[1..] == u[1..];
  }

  lemma ContinuationIsFull(b: byte)
    ensures Utf8.IsContinuation(b) ==> Utf8.FullRune([b])
  {
  }

  /** A rune that became whole with its last byte, or is a bad byte. */
  lemma DecodesWhole(p: Bytes)
    requires p != [] && (|p| == 1 || !Utf8.FullRune(p[..|p| - 1]))
    ensures Utf8.DecodeRune(p).1 == 1 || Utf8.DecodeRune(p).1 == |p|
  {
  }

  lemma UnfinishedIsShort(p: Bytes)
    requires p != [] && !Utf8.FullRune(p)
    ensures |p| < Utf8.UTF_MAX
    ensures forall i :: 1 <= i < |p| ==> Utf8.IsContinuation(p[i])
  {
    Utf8.UnfinishedRune(p);
  }
}
