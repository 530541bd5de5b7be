/** Copying and joining byte slices, and looking for a byte in one. */
module Slices {
  import opened Basics

  /** Copies s into b at the given place; s may have been read from b itself, as with overlapping slices. */
  method Copy(b: array<byte>, at: nat, s: Bytes)
    requires at + |s| <= b.Length
    modifies b
    ensures b[..at] == old(b[..at])
    ensures b[at..at + |s|] == s
    ensures b[at + |s|..] == old(b[at + |s|..])
  {
    for k := 0 to |s|
      invariant b[..at] == old(b[..at])
      invariant b[at..at + k] == s[..k]
      invariant b[at + |s|..] == old(b[at + |s|..])
    {
      b[at + k] := s[k];
    }
  }

  /** The parts put together. */
  function Flatten<T>(parts: seq<seq<T>>): seq<T> {
    if parts == [] then [] else parts[0] + Flatten(parts[1..])
  }

  lemma {:induction false} FlattenAppend<T>(parts: seq<seq<T>>, last: seq<T>)
    ensures Flatten(parts + [last]) == Flatten(parts) + last
  {
    if parts == [] {
      assert [last][1..] == [] && Flatten([last]) == last + Flatten<T>([]);
    } else {
      assert (parts + [last])[1..] == parts[1..] + [last];
      FlattenAppend(parts[1..], last);
    }
  }

  /** New bytes behind an old part of a buffer extend that part. */
  lemma Extended(before: Bytes, after: Bytes, start: nat, mid: nat, end: nat)
    requires start <= mid <= end <= |after| && mid <= |before|
    requires after[..mid] == before[..mid]
    ensures after[start..end] == before[start..mid] + after[mid..end]
  {
    assert after[start..mid] == after[..mid][start..] == before[..mid][start..] == before[start..mid];
  }

  /** A part of a part. */
  lemma SubPart(s: Bytes, lo: nat, hi: nat, n: nat)
    requires lo + n <= hi <= |s|
    ensures s[lo..hi][..n] == s[lo..lo + n]
    ensures s[lo..hi][n..] == s[lo + n..hi]
  {
  }

  lemma SamePart(before: Bytes, after: Bytes, mid: nat, lo: nat, hi: nat)
    requires lo <= hi <= mid <= |before| && mid <= |after|
    requires after[..mid] == before[..mid]
    ensures after[lo..hi] == before[lo..hi]
  {
    assert after[lo..hi] == after[..mid][lo..hi];
    assert before[lo..hi] == before[..mid][lo..hi];
  }

  /** t is the end of s. */
  predicate EndsWith(s: Bytes, t: Bytes) {
    |t| <= |s| && s[|s| - |t|..] == t
  }

  lemma EndsWithMore(s: Bytes, t: Bytes, more: Bytes)
    requires EndsWith(s, t)
    ensures EndsWith(s + more, t + more)
  {
  }

  lemma EndsWithLess(s: Bytes, t: Bytes, k: nat)
    requires EndsWith(s, t) && k <= |t|
    ensures EndsWith(s[..|s| - k], t[..|t| - k])
    ensures s[|s| - k..] == t[|t| - k..]
  {
  }

  lemma EndsWithSum(s: Bytes, t: Bytes)
    ensures EndsWith(s + t, t)
  {
  }

  /** The first place of c in s, or -1. */
  function IndexByte(s: Bytes, c: byte): (i: int)
    ensures -1 <= i < |s|
    ensures i >= 0 ==> s[i] == c && c !in s[..i]
    ensures i < 0 ==> c !in s
  {
    if s == [] then -1
    else if s[0] == c then 0
    else var i := IndexByte(s[1..], c); if i < 0 then -1 else i + 1
  }

  lemma {:induction false} IndexByteAt(before: Bytes, c: byte, after: Bytes)
    requires c !in before
    ensures IndexByte(before + [c] + after, c) == |before|
  {
    if before != [] {
      assert (before + [c] + after)[1..] == before[1..] + [c] + after;
      IndexByteAt(before[1..], c, after);
    }
  }

  lemma {:induction false} IndexByteAfter(before: Bytes, s: Bytes, c: byte)
    requires c !in before
    ensures IndexByte(before + s, c) == if IndexByte(s, c) < 0 then -1 else |before| + IndexByte(s, c)
  {
    if before == [] {
      assert before + s == s;
    } else {
      assert (before + s)[1..] == before[1..] + s;
      IndexByteAfter(before[1..], s, c);
    }
  }

  lemma {:induction false} IndexByteExtends(s: Bytes, more: Bytes, c: byte)
    ensures IndexByte(s, c) >= 0 ==> IndexByte(s + more, c) == IndexByte(s, c)
    ensures IndexByte(s, c) < 0 && IndexByte(s + more, c) >= 0 ==> IndexByte(s + more, c) >= |s|
  {
    if s != [] {
      assert (s + more)[1..] == s[1..] + more;
      IndexByteExtends(s[1..], more, c);
    }
  }
}
