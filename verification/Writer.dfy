/** The buffered writer of src/bufio/bufio.go over any sink. */
module Writer {
  import opened Basics
  import opened Slices
  import opened Stream
  import Utf8

  const DEFAULT_BUF_SIZE := 4096

  /** Whether the error comes from that answer of the sink: its own, or for taking fewer bytes than a buffer
      of that size held without giving a reason. */
  predicate Blames(a: Accept, e: Error, size: nat) {
    a.err == Some(e) || (a.err.None? && e == ShortWrite && a.count < size)
  }

  /** The sink has given the answers that are in before but not in after, none of them with an error but
      perhaps the last, and e is the error of the last. */
  predicate Answered(before: seq<Accept>, after: seq<Accept>, e: Option<Error>, size: nat) {
    var n := |before| - |after|;
    && n >= 0 && after == before[n..]
    && (forall i :: 0 <= i < n - 1 ==> before[i].err.None?)
    && (if e.Some? then n > 0 && Blames(before[n - 1], e.value, size) else n > 0 ==> before[n - 1].err.None?)
  }

  lemma AnsweredTwice(first: seq<Accept>, second: seq<Accept>, third: seq<Accept>, e: Option<Error>, size: nat)
    requires Answered(first, second, None, size) && Answered(second, third, e, size)
    ensures Answered(first, third, e, size)
  {
    var n, m := |first| - |second|, |second| - |third|;
    assert first[n..][m..] == first[n + m..];
    forall i | 0 <= i < n + m - 1
      ensures first[i].err.None?
    {
      if i >= n {
        assert first[i] == second[i - n];
      }
    }
    if m > 0 {
      assert first[n + m - 1] == second[m - 1];
    }
  }

  class Writer {
    const wr: Sink
    const buf: array<byte>
    var n: nat
    var err: Option<Error>
    /** All that calls have reported as accepted, after what the sink had before. */
    ghost var accepted: Bytes

    /** Whatever the sink has done, what it took and what is buffered is what was accepted. */
    ghost predicate Valid()
      reads this, buf, wr
    {
      && 0 < buf.Length && n <= buf.Length
      && wr.taken + buf[..n] == accepted
    }

    constructor (wr: Sink, size: int)
      ensures Valid() && fresh(buf) && this.wr == wr
      ensures n == 0 && err.None? && accepted == wr.taken
    {
      this.wr := wr;
      buf := new byte[if size <= 0 then DEFAULT_BUF_SIZE else size];
      n, err, accepted := 0, None, wr.taken;
      new;
      assert buf[..0] == [] && wr.taken + [] == wr.taken;
    }

    function Available(): nat
      requires n <= buf.Length
      reads this
    {
      buf.Length - n
    }

    /** Gives the sink what is buffered; what it does not take stays, at the front. */
    method Flush() returns (e: Option<Error>)
      requires Valid()
      modifies this`n, this`err, buf, wr
      ensures Valid() && e == err && n <= old(n)
      ensures old(err).Some? ==> err == old(err) && n == old(n) && wr.taken == old(wr.taken) && buf[..n] == old(buf[..n])
      ensures e.None? ==> n == 0 && wr.taken == accepted
      ensures if old(err).Some? then wr.script == old(wr.script) else Answered(old(wr.script), wr.script, err, buf.Length)
    {
      if err.Some? {
        return err;
      }
      if n == 0 {
        assert wr.taken + buf[..n] == wr.taken;
        return None;
      }
      ghost var all := buf[..n];
      var m, we := wr.Write(buf[0..n]);
      assert buf[0..n] == all;
      assert old(wr.taken) + (all[..m] + all[m..]) == old(wr.taken) + all[..m] + all[m..] && all[..m] + all[m..] == all;
      if m < n && we.None? {
        we := Some(ShortWrite);
      }
      if we.Some? {
        if m > 0 && m < n {
          Copy(buf, 0, buf[m..n]);
        }
        n := n - m;
        assert buf[..n] == all[m..];
        err := we;
        return we;
      }
      n := 0;
      assert all[m..] == [] && buf[..n] == [];
      return None;
    }

    /** Appends s to the buffer, which has room for it. */
    method Append(s: Bytes)
      requires Valid() && |s| <= Available()
      modifies this`n, this`accepted, buf
      ensures Valid() && n == old(n) + |s| && accepted == old(accepted) + s
    {
      Copy(buf, n, s);
      assert buf[..n + |s|] == buf[..n] + buf[n..n + |s|];
      assert wr.taken + buf[..n] + s == wr.taken + (buf[..n] + s);
      n := n + |s|;
      accepted := accepted + s;
    }

    /** Writes straight from p, past the empty buffer. */
    method WriteDirect(p: Bytes) returns (m: nat)
      requires Valid() && n == 0
      modifies this`err, this`accepted, wr
      ensures Valid() && m <= |p| && accepted == old(accepted) + p[..m]
      ensures Answered(old(wr.script), wr.script, err, buf.Length)
      ensures m == 0 && err.None? && p != [] ==> |wr.script| < |old(wr.script)|
    {
      assert buf[..n] == [] && wr.taken + [] == wr.taken;
      m, err := wr.Write(p);
      accepted := accepted + p[..m];
      assert wr.taken + [] == wr.taken;
    }

    /** Writes straight from p if the buffer is empty, and else fills the buffer and flushes it. */
    method WriteSome(p: Bytes) returns (m: nat)
      requires Valid() && err.None? && |p| > Available()
      modifies this, buf, wr
      ensures Valid() && m <= |p| && accepted == old(accepted) + p[..m]
      ensures Answered(old(wr.script), wr.script, err, buf.Length)
      ensures err.Some? || m > 0 || n < old(n) || (n == old(n) && |wr.script| < |old(wr.script)|)
    {
      if n == 0 {
        m := WriteDirect(p);
      } else {
        m := Available();
        Append(p[..m]);
        var _ := Flush();
      }
    }

    /** Accepts as much of p0 as can be written or buffered; an error stays and stops acceptance. */
    method Write(p0: Bytes) returns (nn: nat, e: Option<Error>)
      requires Valid()
      modifies this, buf, wr
      ensures Valid() && nn <= |p0| && accepted == old(accepted) + p0[..nn]
      ensures e == err && (nn < |p0| ==> e.Some?)
      ensures old(err).Some? ==> nn == 0 && err == old(err) && wr.taken == old(wr.taken)
      ensures if old(err).Some? then wr.script == old(wr.script) else Answered(old(wr.script), wr.script, err, buf.Length)
    {
      var p := p0;
      nn := 0;
      assert accepted + [] == accepted;
      while |p| > Available() && err.None?
        invariant Valid() && nn <= |p0| && p == p0[nn..] && accepted == old(accepted) + p0[..nn]
        invariant old(err).Some? ==> nn == 0 && err == old(err) && wr.taken == old(wr.taken) && wr.script == old(wr.script)
        invariant old(err).None? ==> Answered(old(wr.script), wr.script, err, buf.Length)
        decreases if err.None? then 1 else 0, |p|, n, |wr.script|
      {
        ghost var script := wr.script;
        var m := WriteSome(p);
        AnsweredTwice(old(wr.script), script, wr.script, err, buf.Length);
        assert p0[..nn + m] == p0[..nn] + p[..m];
        nn := nn + m;
        p := p[m..];
      }
      if err.Some? {
        return nn, err;
      }
      Append(p);
      assert p0[..nn] + p == p0 && p0[..nn + |p|] == p0;
      return nn + |p|, None;
    }

    method WriteByte(c: byte) returns (e: Option<Error>)
      requires Valid()
      modifies this, buf, wr
      ensures Valid() && accepted == old(accepted) + if e.None? then [c] else []
      ensures e == err
      ensures old(err).Some? ==> e == old(err) && wr.taken == old(wr.taken)
      ensures if old(err).Some? then wr.script == old(wr.script) else Answered(old(wr.script), wr.script, err, buf.Length)
    {
      assert accepted + [] == accepted;
      if err.Some? {
        return err;
      }
      if Available() <= 0 {
        var fe := Flush();
        if fe.Some? {
          return err;
        }
      }
      Append([c]);
      return None;
    }

    /** Writes the encoding of r, whole unless there is an error. */
    method WriteRune(r: int) returns (size: nat, e: Option<Error>)
      requires Valid()
      modifies this, buf, wr
      ensures Valid()
      ensures size <= |Utf8.EncodeRune(r)| && accepted == old(accepted) + Utf8.EncodeRune(r)[..size]
      ensures e == err && (size < |Utf8.EncodeRune(r)| ==> e.Some?)
      ensures old(err).Some? ==> size == 0 && e == old(err) && wr.taken == old(wr.taken)
      ensures if old(err).Some? then wr.script == old(wr.script) else Answered(old(wr.script), wr.script, err, buf.Length)
    {
      ghost var p := Utf8.EncodeRune(r);
      assert accepted + p[..0] == accepted && p[..|p|] == p;
      if 0 <= r < Utf8.RUNE_SELF {
        Utf8.EncodeAscii(r);
        e := WriteByte(r);
        size := if e.Some? then 0 else 1;
        return;
      }
      if err.Some? {
        return 0, err;
      }
      if Available() < Utf8.UTF_MAX {
        var _ := Flush();
        if err.Some? {
          return 0, err;
        }
        if Available() < Utf8.UTF_MAX {
          ghost var script := wr.script;
          size, e := WriteString(Utf8.EncodeRune(r));
          AnsweredTwice(old(wr.script), script, wr.script, err, buf.Length);
          return;
        }
      }
      Append(Utf8.EncodeRune(r));
      return |Utf8.EncodeRune(r)|, None;
    }

    /** Like Write, but always through the buffer. */
    method WriteString(s0: Bytes) returns (nn: nat, e: Option<Error>)
      requires Valid()
      modifies this, buf, wr
      ensures Valid() && nn <= |s0| && accepted == old(accepted) + s0[..nn]
      ensures e == err && (nn < |s0| ==> e.Some?)
      ensures old(err).Some? ==> nn == 0 && err == old(err) && wr.taken == old(wr.taken)
      ensures if old(err).Some? then wr.script == old(wr.script) else Answered(old(wr.script), wr.script, err, buf.Length)
    {
      var s := s0;
      nn := 0;
      assert accepted + [] == accepted;
      while |s| > Available() && err.None?
        invariant Valid() && nn <= |s0| && s == s0[nn..] && accepted == old(accepted) + s0[..nn]
        invariant old(err).Some? ==> nn == 0 && err == old(err) && wr.taken == old(wr.taken) && wr.script == old(wr.script)
        invariant old(err).None? ==> Answered(old(wr.script), wr.script, err, buf.Length)
        decreases if err.None? then 1 else 0, |s|, n
      {
        var m := Available();
        ghost var script := wr.script;
        Append(s[..m]);
        var _ := Flush();
        AnsweredTwice(old(wr.script), script, wr.script, err, buf.Length);
        assert s0[..nn + m] == s0[..nn] + s[..m];
        nn := nn + m;
        s := s[m..];
      }
      if err.Some? {
        return nn, err;
      }
      Append(s);
      assert s0[..nn] + s == s0 && s0[..nn + |s|] == s0;
      return nn + |s|, None;
    }
  }
}
