/** Sources and sinks that obey the contracts of src/io/io.go and are otherwise
    arbitrary: a script, about which nothing is assumed, fixes what each call does. */
module Stream {
  import opened Basics

  datatype Error = EOF | NoProgress | ShortWrite | BufferFull | NegativeCount | InvalidUnreadByte
    | InvalidUnreadRune | TooLong | Custom(code: nat)

  /** What one call of Read has to give; a call with less room takes what fits and leaves the rest. */
  datatype Reply = Reply(data: Bytes, err: Option<Error>)

  /** All the bytes that are still to come. */
  function Coming(script: seq<Reply>): Bytes {
    if script == [] then [] else script[0].data + Coming(script[1..])
  }

  /** The bytes and error that a call with the given room gets, and the script that is left. */
  function Deal(script: seq<Reply>, room: nat): (r: (Bytes, Option<Error>, seq<Reply>))
    ensures |r.0| <= room
  {
    if script == [] then ([], Some(EOF), [])
    else
      var first := script[0];
      if |first.data| <= room then (first.data, first.err, script[1..])
      else (first.data[..room], None, [first.(data := first.data[room..])] + script[1..])
  }

  lemma {:induction false} ComingFirst(script: seq<Reply>)
    requires script != []
    ensures Coming(script) == script[0].data + Coming(script[1..])
  {
  }

  lemma {:induction false} SplitReply(first: Reply, tail: seq<Reply>, room: nat)
    requires room <= |first.data|
    ensures Coming([first] + tail) == first.data[..room] + Coming([first.(data := first.data[room..])] + tail)
  {
    hide Coming;
    var rest := first.(data := first.data[room..]);
    ComingFirst([first] + tail);
    ComingFirst([rest] + tail);
    assert ([first] + tail)[1..] == tail && ([rest] + tail)[1..] == tail;
    assert first.data == first.data[..room] + first.data[room..];
    assert first.data[..room] + first.data[room..] + Coming(tail) == first.data[..room] + (first.data[room..] + Coming(tail));
  }

  /** What is dealt and what is left make up what was to come; a call either gives bytes, or fails, or
      shortens the script. */
  lemma {:induction false} DealConserves(script: seq<Reply>, room: nat)
    ensures var (data, err, left) := Deal(script, room);
      && Coming(script) == data + Coming(left)
      && |left| <= |script|
      && (data == [] && err.None? && room > 0 ==> |left| < |script|)
      && (err.Some? ==> |left| < |script| || (err == Some(EOF) && script == []))
  {
    hide Coming;
    if script == [] {
      assert [] + Coming(script) == Coming(script);
    } else {
      ComingFirst(script);
      assert script == [script[0]] + script[1..];
      if |script[0].data| > room {
        SplitReply(script[0], script[1..], room);
      }
    }
  }

  // ----- what a reader that buffers a source gets from it

  const MAX_EMPTY_READS := 100

  /** When a reader gives up: after so many empty reads in a row, and at any error but the one it reads past. */
  datatype Patience = Patience(stall: nat, past: Option<Error>)

  /** The bytes up to the error at which the reader gives up, and that error; idle empty reads have just
      been made. */
  function Feed(p: Patience, script: seq<Reply>, idle: nat): (Bytes, Error) {
    if script == [] then ([], EOF)
    else
      var first := script[0];
      if first.err.Some? && first.err != p.past then (first.data, first.err.value)
      else if first.err.Some? || first.data != [] then
        var (data, err) := Feed(p, script[1..], 0);
        (first.data + data, err)
      else if idle + 1 >= p.stall then ([], NoProgress)
      else Feed(p, script[1..], idle + 1)
  }

  /** However the source is cut by the room of a call, what it feeds is the same. */
  lemma {:induction false} FeedStep(p: Patience, script: seq<Reply>, room: nat, idle: nat)
    requires room > 0
    ensures var (data, err, left) := Deal(script, room);
      Feed(p, script, idle) ==
        if err.Some? && err != p.past then (data, err.value)
        else if err.Some? || data != [] then (data + Feed(p, left, 0).0, Feed(p, left, 0).1)
        else if idle + 1 >= p.stall then ([], NoProgress)
        else Feed(p, left, idle + 1)
  {
    if script == [] {
      var (data, _, left) := Deal(script, room);
      assert Feed(p, left, 0) == ([], EOF) && data + [] == data == [];
    } else if |script[0].data| > room {
      var first, tail := script[0], script[1..];
      var left := [first.(data := first.data[room..])] + tail;
      assert left[1..] == tail && left[0].err == first.err;
      assert first.data == first.data[..room] + first.data[room..];
      if first.err.None? || first.err == p.past {
        assert Feed(p, left, 0) == (first.data[room..] + Feed(p, tail, 0).0, Feed(p, tail, 0).1);
        assert first.data[..room] + first.data[room..] + Feed(p, tail, 0).0 == first.data[..room] + (first.data[room..] + Feed(p, tail, 0).0);
      }
    }
  }

  /** What is fed comes first in what is to come. */
  lemma {:induction false} FeedComes(p: Patience, script: seq<Reply>, idle: nat)
    ensures Feed(p, script, idle).0 <= Coming(script)
  {
    if script != [] {
      var data, coming := script[0].data, Coming(script[1..]);
      FeedComes(p, script[1..], 0);
      FeedComes(p, script[1..], idle + 1);
      assert data <= data + coming && data + Feed(p, script[1..], 0).0 <= data + coming;
      assert data == [] ==> data + coming == coming;
    }
  }

  /** Reading past an error makes a difference only to a reader that would end at that error. */
  lemma {:induction false} PassingMatters(stall: nat, e: Error, script: seq<Reply>, idle: nat)
    requires e != EOF && e != NoProgress
    ensures Feed(Patience(stall, Some(e)), script, idle).1 != e
    ensures Feed(Patience(stall, None), script, idle).1 != e ==>
      Feed(Patience(stall, Some(e)), script, idle) == Feed(Patience(stall, None), script, idle)
  {
    if script != [] {
      PassingMatters(stall, e, script[1..], 0);
      PassingMatters(stall, e, script[1..], idle + 1);
    }
  }

  class Source {
    var script: seq<Reply>

    constructor (script: seq<Reply>)
      ensures this.script == script
    {
      this.script := script;
    }

    /** Reads into p[lo..hi]; what it does to the part beyond the bytes it gives is not promised. */
    method Read(p: array<byte>, lo: nat, hi: nat) returns (n: nat, err: Option<Error>)
      requires lo <= hi <= p.Length
      modifies this, p
      ensures n == |Deal(old(script), hi - lo).0| && err == Deal(old(script), hi - lo).1
      ensures script == Deal(old(script), hi - lo).2
      ensures p[..lo] == old(p[..lo]) && p[hi..] == old(p[hi..])
      ensures p[lo..lo + n] == Deal(old(script), hi - lo).0
    {
      var (data, e, left) := Deal(script, hi - lo);
      n, err, script := |data|, e, left;
      for k := 0 to n
        invariant script == left
        invariant p[..lo] == old(p[..lo]) && p[hi..] == old(p[hi..])
        invariant p[lo..lo + k] == data[..k]
      {
        p[lo + k] := data[k];
      }
    }
  }

  /** What one call of Write takes, and the error it gives, which may be missing even after a short write. */
  datatype Accept = Accept(count: nat, err: Option<Error>)

  class Sink {
    var script: seq<Accept>
    var taken: Bytes

    constructor (script: seq<Accept>)
      ensures this.script == script && taken == []
    {
      this.script, taken := script, [];
    }

    /** Takes some prefix of p; when the script has run out, all of it. */
    method Write(p: Bytes) returns (n: nat, err: Option<Error>)
      modifies this
      ensures n <= |p| && taken == old(taken) + p[..n]
      ensures old(script) == [] ==> n == |p| && err.None? && script == []
      ensures old(script) != [] ==> n == if old(script)[0].count < |p| then old(script)[0].count else |p|
      ensures old(script) != [] ==> err == old(script)[0].err && script == old(script)[1..]
    {
      if script == [] {
        n, err := |p|, None;
      } else {
        n := if script[0].count < |p| then script[0].count else |p|;
        err := script[0].err;
        script := script[1..];
      }
      taken := taken + p[..n];
    }
  }
}
