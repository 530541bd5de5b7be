/** The growing buffer of src/bytes/buffer.go: a byte queue that slides its content
    to the front, or moves to a larger array, when it needs room. */
module Buffer {
  import opened Basics
  import opened Slices
  import Utf8

  const SMALL_BUFFER_SIZE := 64
  const MAX_INT := 0x7FFF_FFFF_FFFF_FFFF

  const OP_READ := -1
  const OP_INVALID := 0

  class Buffer {
    /** The backing array: its length is the capacity.  A nil slice has none. */
    var data: array<byte>
    var isNil: bool
    var len: nat
    var off: nat
    /** The last operation: none that can be undone, a read, or a read of a rune of that size. */
    var lastRead: int
    /** All the bytes that have been read, less those put back. */
    ghost var gone: Bytes
    /** How many bytes all slides so far have moved. */
    ghost var moved: nat

    ghost predicate Valid()
      reads this, data
    {
      && off <= len <= data.Length && OP_READ <= lastRead <= Utf8.UTF_MAX
      && (isNil ==> data.Length == 0)
      && EndsWith(gone, data[..off])
      && moved + off <= |gone|
    }

    /** The unread bytes: the queue. */
    ghost function Contents(): Bytes
      requires off <= len <= data.Length
      reads this, data
    {
      data[off..len]
    }

    constructor ()
      ensures Valid() && Contents() == [] && gone == [] && fresh(data)
    {
      data := new byte[0];
      isNil, len, off, lastRead := true, 0, 0, OP_INVALID;
      gone, moved := [], 0;
    }

    /** A buffer that takes over buf, with the first n bytes as its content. */
    constructor FromArray(buf: array<byte>, n: nat)
      requires n <= buf.Length
      ensures Valid() && data == buf && Contents() == buf[..n] && gone == []
    {
      data := buf;
      isNil, len, off, lastRead := false, n, 0, OP_INVALID;
      gone, moved := [], 0;
    }

    method Reset()
      requires Valid()
      modifies this`len, this`off, this`lastRead
      ensures Valid() && Contents() == [] && len == off == 0 && lastRead == OP_INVALID
    {
      len := 0;
      off := 0;
      lastRead := OP_INVALID;
    }

    /** Keeps the first n bytes of the queue; false where the source panics. */
    method Truncate(n: int) returns (ok: bool)
      requires Valid()
      modifies this`len, this`off, this`lastRead
      ensures Valid()
      ensures ok <==> 0 <= n <= |old(Contents())|
      ensures Contents() == if ok then old(Contents())[..n] else old(Contents())
    {
      hide EndsWith;
      if n == 0 {
        assert old(Contents())[..0] == [];
        Reset();
        return true;
      }
      lastRead := OP_INVALID;
      if n < 0 || n > len - off {
        return false;
      }
      SubPart(data[..], off, len, n);
      len := off + n;
      return true;
    }

    /** Room for n more bytes in the array as it is, if there is any. */
    method TryGrowByReslice(n: nat) returns (m: nat, ok: bool)
      requires Valid()
      modifies this`len
      ensures ok <==> n <= data.Length - old(len)
      ensures if ok then m == old(len) && len == m + n else len == old(len)
    {
      if n <= data.Length - len {
        m := len;
        len := len + n;
        return m, true;
      }
      return 0, false;
    }

    /** Slides the content to the front: it is shorter than what has been read since the last slide. */
    method Slide()
      requires Valid() && len - off <= off
      modifies this`len, this`off, this`moved, data
      ensures Valid() && off == 0 && Contents() == old(Contents())
      ensures moved == old(moved) + |old(Contents())|
    {
      Copy(data, 0, data[off..len]);
      moved := moved + (len - off);
      len := len - off;
      off := 0;
      assert data[..off] == [] && data[0..len] == old(data[off..len]);
    }

    /** Moves the content to a new array with room for n more, twice as large as the old at least. */
    method GrowSlice(n: nat)
      requires Valid()
      modifies this`data, this`isNil, this`len, this`off
      ensures Valid() && off == 0 && fresh(data) && Contents() == old(Contents())
      ensures data.Length >= |Contents()| + n
    {
      var m := len - off;
      var c := m + (off + n);
      if c < 2 * (data.Length - off) {
        c := 2 * (data.Length - off);
      }
      var rounded: nat :| rounded >= c;
      var b2 := new byte[rounded];
      Copy(b2, 0, data[off..len]);
      data, isNil := b2, false;
      len, off := m, 0;
      assert data[..off] == [];
    }

    /** Makes room for n more bytes and tells where they go; nothing where the source panics. */
    method GrowBy(n: nat) returns (m: Option<nat>)
      requires Valid()
      modifies this`data, this`isNil, this`len, this`off, this`lastRead, this`moved, data
      ensures data == old(data) || fresh(data)
      ensures m.None? ==> Valid() && Contents() == old(Contents()) && n > MAX_INT - 2 * old(data.Length)
      ensures m.Some? ==> off <= m.value && len == m.value + n && len <= data.Length
      ensures m.Some? ==> data[off..m.value] == old(Contents())
      ensures m.Some? ==> EndsWith(gone, data[..off]) && moved + off <= |gone| && (isNil ==> data.Length == 0)
      ensures lastRead == if old(len == off != 0) then OP_INVALID else old(lastRead)
      ensures m.Some? ==> off == if old(off < len) && n <= old(data.Length - len) then old(off) else 0
    {
      var k := len - off;
      if k == 0 && off != 0 {
        Reset();
      }
      assert Contents() == old(Contents());
      var i, ok := TryGrowByReslice(n);
      if ok {
        return Some(i);
      }
      if isNil && n <= SMALL_BUFFER_SIZE {
        data := new byte[SMALL_BUFFER_SIZE];
        isNil, len := false, n;
        assert data[..off] == [];
        return Some(0);
      }
      var c := data.Length;
      if n <= c / 2 - k {
        Slide();
      } else if c > MAX_INT - c - n {
        return None;
      } else {
        GrowSlice(n);
      }
      len := k + n;
      return Some(k);
    }

    /** Guarantees room for n more bytes; false where the source panics. */
    method Grow(n: int) returns (ok: bool)
      requires Valid()
      modifies this, data
      ensures Valid() && (data == old(data) || fresh(data))
      ensures Contents() == old(Contents()) && gone == old(gone)
      ensures if ok then n >= 0 && data.Length - len >= n else n < 0 || n > MAX_INT - 2 * old(data.Length)
      ensures n >= 0 ==> lastRead == if old(len == off != 0) then OP_INVALID else old(lastRead)
      ensures ok ==> off == if old(off < len) && n <= old(data.Length - len) then old(off) else 0
    {
      if n < 0 {
        return false;
      }
      var m := GrowBy(n);
      if m.None? {
        return false;
      }
      len := m.value;
      return true;
    }

    /** Appends p to the queue; false where the source panics. */
    method Write(p: Bytes) returns (ok: bool)
      requires Valid()
      modifies this, data
      ensures Valid() && (data == old(data) || fresh(data))
      ensures Contents() == old(Contents()) + if ok then p else []
      ensures !ok ==> |p| > MAX_INT - 2 * old(data.Length)
      ensures gone == old(gone) && lastRead == OP_INVALID
    {
      lastRead := OP_INVALID;
      var m := Room(|p|);
      if m.None? {
        return false;
      }
      Put(m.value, p);
      return true;
    }

    /** The fast way to room if it is there, and else the slow one. */
    method Room(n: nat) returns (m: Option<nat>)
      requires Valid() && lastRead == OP_INVALID
      modifies this`data, this`isNil, this`len, this`off, this`lastRead, this`moved, data
      ensures data == old(data) || fresh(data)
      ensures m.None? ==> Valid() && Contents() == old(Contents()) && n > MAX_INT - 2 * old(data.Length)
      ensures m.Some? ==> off <= m.value && len == m.value + n && len <= data.Length
      ensures m.Some? ==> data[off..m.value] == old(Contents())
      ensures m.Some? ==> EndsWith(gone, data[..off]) && moved + off <= |gone| && (isNil ==> data.Length == 0)
      ensures lastRead == OP_INVALID
    {
      var i, ok := TryGrowByReslice(n);
      if ok {
        return Some(i);
      }
      m := GrowBy(n);
    }

    /** Writes p into the room made for it at m. */
    method Put(m: nat, p: Bytes)
      requires off <= m <= len <= data.Length && m + |p| <= len
      requires EndsWith(gone, data[..off]) && moved + off <= |gone| && (isNil ==> data.Length == 0)
      requires lastRead == OP_INVALID
      modifies this`len, data
      ensures Valid() && Contents() == old(data[off..m]) + p
    {
      ghost var before := data[..];
      Copy(data, m, p);
      len := m + |p|;
      assert data[..][..m] == before[..m];
      SamePart(before, data[..], m, 0, off);
      Extended(before, data[..], off, m, len);
      assert data[..off] == data[..][0..off] == before[0..off];
    }

    method WriteByte(c: byte) returns (ok: bool)
      requires Valid()
      modifies this, data
      ensures Valid() && (data == old(data) || fresh(data))
      ensures Contents() == old(Contents()) + if ok then [c] else []
      ensures !ok ==> 1 > MAX_INT - 2 * old(data.Length)
      ensures gone == old(gone) && lastRead == OP_INVALID
    {
      lastRead := OP_INVALID;
      var m := Room(1);
      if m.None? {
        return false;
      }
      Put(m.value, [c]);
      return true;
    }

    /** Appends the encoding of r, using less room than was made if it is short. */
    method WriteRune(r: int) returns (n: nat, ok: bool)
      requires Valid()
      modifies this, data
      ensures Valid() && (data == old(data) || fresh(data))
      ensures Contents() == old(Contents()) + if ok then Utf8.EncodeRune(r) else []
      ensures if ok then n == |Utf8.EncodeRune(r)| else Utf8.UTF_MAX > MAX_INT - 2 * old(data.Length)
      ensures gone == old(gone) && lastRead == OP_INVALID
    {
      if 0 <= r < Utf8.RUNE_SELF {
        Utf8.EncodeAscii(r);
        ok := WriteByte(r);
        return 1, ok;
      }
      hide Utf8.EncodeRune;
      lastRead := OP_INVALID;
      var m := Room(Utf8.UTF_MAX);
      if m.None? {
        return 0, false;
      }
      Put(m.value, Utf8.EncodeRune(r));
      return len - m.value, true;
    }

    // ----- reading

    /** Takes n bytes off the front of the queue. */
    method Take(n: nat, op: int) returns (taken: Bytes)
      requires Valid() && n <= len - off && OP_READ <= op <= Utf8.UTF_MAX
      modifies this`off, this`lastRead, this`gone
      ensures Valid() && taken == old(Contents())[..n] && Contents() == old(Contents())[n..]
      ensures gone == old(gone) + taken && lastRead == op && off == old(off) + n
    {
      hide EndsWith;
      taken := data[off..off + n];
      assert data[..off + n] == data[..off] + taken;
      EndsWithMore(gone, data[..off], taken);
      SubPart(data[..], off, len, n);
      gone := gone + taken;
      off := off + n;
      lastRead := op;
    }

    /** Copies the first bytes of the queue into p; EOF if there are none to copy. */
    method Read(p: array<byte>) returns (n: nat, eof: bool)
      requires Valid() && p != data
      modifies this, p
      ensures Valid() && data == old(data) && n <= p.Length
      ensures eof <==> old(Contents()) == [] && p.Length > 0
      ensures n == if p.Length < |old(Contents())| then p.Length else |old(Contents())|
      ensures p[..n] == old(Contents())[..n] && Contents() == old(Contents())[n..] && gone == old(gone) + p[..n]
      ensures if n > 0 then lastRead == OP_READ && off >= n else lastRead == OP_INVALID
    {
      lastRead := OP_INVALID;
      if len <= off {
        Reset();
        return 0, p.Length > 0;
      }
      n := if p.Length < len - off then p.Length else len - off;
      Copy(p, 0, data[off..off + n]);
      assert p[..n] == p[0..n];
      var _ := Take(n, if n > 0 then OP_READ else OP_INVALID);
      return n, false;
    }

    /** Takes the next n bytes, or all there are. */
    method Next(n0: nat) returns (bytes: Bytes)
      requires Valid()
      modifies this
      ensures Valid() && data == old(data)
      ensures |bytes| == if n0 < |old(Contents())| then n0 else |old(Contents())|
      ensures old(Contents()) == bytes + Contents() && gone == old(gone) + bytes
      ensures if bytes != [] then lastRead == OP_READ && off >= |bytes| else lastRead == OP_INVALID
    {
      hide EndsWith;
      lastRead := OP_INVALID;
      var n := n0;
      if n > len - off {
        n := len - off;
      }
      ghost var all := Contents();
      assert all == all[..n] + all[n..];
      bytes := Take(n, if n > 0 then OP_READ else OP_INVALID);
    }

    method ReadByte() returns (c: byte, eof: bool)
      requires Valid()
      modifies this
      ensures Valid() && data == old(data)
      ensures eof <==> old(Contents()) == []
      ensures if eof then Contents() == [] && gone == old(gone) && lastRead == OP_INVALID
        else old(Contents()) == [c] + Contents() && gone == old(gone) + [c] && lastRead == OP_READ && off == old(off) + 1
      ensures len == if eof then 0 else old(len)
    {
      if len <= off {
        Reset();
        return 0, true;
      }
      c := data[off];
      var taken := Take(1, OP_READ);
      assert taken == [c];
      return c, false;
    }

    /** Takes the first rune of the queue; a bad byte is one rune. */
    method ReadRune() returns (r: int, n: nat, eof: bool)
      requires Valid()
      modifies this
      ensures Valid() && data == old(data)
      ensures eof <==> old(Contents()) == []
      ensures (r, n) == if eof then (0, 0) else Utf8.DecodeRune(old(Contents()))
      ensures Contents() == old(Contents())[n..] && gone == old(gone) + old(Contents())[..n]
      ensures lastRead == n <= off
    {
      if len <= off {
        assert gone + [] == gone;
        Reset();
        return 0, 0, true;
      }
      var c := data[off];
      r, n := c, 1;
      if c >= Utf8.RUNE_SELF {
        r, n := Utf8.DecodeRune(data[off..len]).0, Utf8.DecodeRune(data[off..len]).1;
      }
      assert (r, n) == Utf8.DecodeRune(Contents());
      hide Utf8.DecodeRune;
      var _ := Take(n, n);
      return r, n, false;
    }

    /** Puts back the last n bytes that were read. */
    method PutBack(n: nat)
      requires Valid() && n <= off
      modifies this`off, this`gone
      ensures Valid() && gone == old(gone)[..|old(gone)| - n]
      ensures Contents() == old(gone)[|old(gone)| - n..] + old(Contents())
    {
      hide EndsWith;
      assert |gone| >= n;
      EndsWithLess(gone, data[..off], n);
      assert data[..off][..off - n] == data[..off - n] && data[..off][off - n..] == data[off - n..off];
      assert data[off - n..len] == data[off - n..off] + data[off..len];
      gone := gone[..|gone| - n];
      off := off - n;
    }

    /** Puts the last byte back, if the last operation was a read.  A slide or a reset since then has
        taken the byte away: then nothing is put back, and still no error is given. */
    method UnreadByte() returns (ok: bool)
      requires Valid()
      modifies this
      ensures Valid() && data == old(data) && lastRead == OP_INVALID
      ensures ok <==> old(lastRead) != OP_INVALID
      ensures if ok && old(off) > 0 then
          gone == old(gone)[..|old(gone)| - 1] && Contents() == [old(gone)[|old(gone)| - 1]] + old(Contents())
        else gone == old(gone) && Contents() == old(Contents())
    {
      if lastRead == OP_INVALID {
        return false;
      }
      lastRead := OP_INVALID;
      if off > 0 {
        assert gone[|gone| - 1..] == [gone[|gone| - 1]];
        PutBack(1);
      }
      return true;
    }

    /** Puts the last rune back, if the last operation read one and its bytes are still there. */
    method UnreadRune() returns (ok: bool)
      requires Valid()
      modifies this
      ensures Valid() && data == old(data)
      ensures ok <==> old(lastRead) > OP_INVALID
      ensures ok ==> lastRead == OP_INVALID
      ensures if ok && old(off) >= old(lastRead) then
          gone == old(gone)[..|old(gone)| - old(lastRead)]
          && Contents() == old(gone)[|old(gone)| - old(lastRead)..] + old(Contents())
        else gone == old(gone) && Contents() == old(Contents())
    {
      if lastRead <= OP_INVALID {
        return false;
      }
      var size := lastRead;
      lastRead := OP_INVALID;
      if off >= size {
        PutBack(size);
      }
      return true;
    }

    /** Takes everything up to and with the first delim, or everything there is. */
    method ReadBytes(delim: byte) returns (line: Bytes, eof: bool)
      requires Valid()
      modifies this
      ensures Valid() && data == old(data)
      ensures old(Contents()) == line + Contents() && gone == old(gone) + line
      ensures eof <==> delim !in old(Contents())
      ensures lastRead == OP_READ && off >= |line|
      ensures if eof then Contents() == [] else line != [] && line[|line| - 1] == delim && delim !in line[..|line| - 1]
    {
      hide EndsWith;
      ghost var all := Contents();
      var i := IndexByte(data[off..len], delim);
      eof := i < 0;
      var n := if eof then len - off else i + 1;
      assert all == all[..n] + all[n..];
      assert !eof ==> all[..n][..i] == all[..i];
      line := Take(n, OP_READ);
    }
  }

  // ----- reading and putting back

  /** A byte that has just been read can be put back, and then the queue is as it was. */
  method ReadThenUnreadByte(b: Buffer) returns (c: byte, eof: bool)
    requires b.Valid()
    modifies b
    ensures b.Valid() && b.Contents() == old(b.Contents()) && b.gone == old(b.gone)
  {
    hide EndsWith;
    c, eof := b.ReadByte();
    if !eof {
      var ok := b.UnreadByte();
      assert b.gone == old(b.gone);
    }
  }

  /** And so can a rune. */
  method ReadThenUnreadRune(b: Buffer) returns (r: int, n: nat, eof: bool)
    requires b.Valid()
    modifies b
    ensures b.Valid() && b.Contents() == old(b.Contents()) && b.gone == old(b.gone)
  {
    hide EndsWith, Utf8.DecodeRune;
    r, n, eof := b.ReadRune();
    if !eof {
      ghost var all, longer := old(b.Contents()), b.gone;
      assert longer == old(b.gone) + all[..n] && all == all[..n] + all[n..];
      var ok := b.UnreadRune();
      assert longer[..|longer| - n] == old(b.gone) && longer[|longer| - n..] == all[..n];
    }
  }

  /** After Grow the last byte read is still put back just if there was room for the new bytes behind the
      content, which then stayed in its place.  Either way no error is given. */
  method GrowThenUnreadByte(b: Buffer, n: nat) returns (grown: bool, ok: bool)
    requires b.Valid() && b.off < b.len && b.off > 0 && b.lastRead != OP_INVALID
    modifies b, b.data
    ensures b.Valid() && old(b.gone) != []
    ensures if grown then ok else n > MAX_INT - 2 * old(b.data.Length)
    ensures grown && n <= old(b.data.Length - b.len) ==> b.Contents() == [old(b.gone)[|old(b.gone)| - 1]] + old(b.Contents())
    ensures grown && n > old(b.data.Length - b.len) ==> b.Contents() == old(b.Contents())
  {
    grown := b.Grow(n);
    ok := false;
    if grown {
      ok := b.UnreadByte();
    }
  }

  /** One byte is read, the content moves, and the byte is not put back. */
  method GrowLosesByte() returns (ok: bool, left: Bytes)
    ensures ok && left == [2]
  {
    var data := new byte[2];
    data[0], data[1] := 1, 2;
    var b := new Buffer.FromArray(data, 2);
    assert b.Contents() == [1, 2];
    var c, eof := b.ReadByte();
    var grown;
    grown, ok := GrowThenUnreadByte(b, 10);
    left := b.data[b.off..b.len];
  }

  /** ReadBytes fails on the empty buffer, and still UnreadByte succeeds, with nothing to put back. */
  method EndThenUnreadByte(delim: byte) returns (eof: bool, ok: bool, left: Bytes)
    ensures eof && ok && left == []
  {
    var b := new Buffer();
    var line;
    line, eof := b.ReadBytes(delim);
    assert b.gone == [];
    ok := b.UnreadByte();
    left := b.data[b.off..b.len];
  }
}
