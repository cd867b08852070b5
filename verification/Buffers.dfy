/** Writing into a byte buffer, described as splicing a string into a string. */
module Buffers {
  import opened ByteStrings

  /** `s` with the bytes from `at` on replaced by `src`. */
  function Splice(s: Bytes, at: nat, src: Bytes): (r: Bytes)
    requires at + |src| <= |s|
    ensures |r| == |s|
  {
    s[..at] + src + s[at + |src|..]
  }

  /** Two adjacent writes are one write. */
  lemma SpliceAppend(s: Bytes, at: nat, a: Bytes, b: Bytes)
    requires at + |a| + |b| <= |s|
    ensures Splice(Splice(s, at, a), at + |a|, b) == Splice(s, at, a + b)
  {
  }

  /** A write inside an earlier write. */
  lemma SpliceInside(s: Bytes, at: nat, a: Bytes, k: nat, b: Bytes)
    requires at + |a| <= |s| && k + |b| <= |a|
    ensures Splice(Splice(s, at, a), at + k, b) == Splice(s, at, Splice(a, k, b))
  {
  }

  lemma SpliceAfter(a: Bytes, s: Bytes, k: nat, b: Bytes)
    requires k + |b| <= |s|
    ensures Splice(a + s, |a| + k, b) == a + Splice(s, k, b)
  {
  }

  lemma SpliceNothing(s: Bytes, at: nat)
    requires at <= |s|
    ensures Splice(s, at, []) == s
  {
  }

  method WriteByte(buf: array<Byte>, at: nat, x: Byte)
    requires at < buf.Length
    modifies buf
    ensures buf[..] == Splice(old(buf[..]), at, [x])
  {
    buf[at] := x;
  }

  /** `copy_nonoverlapping` / `copy_from_slice`. */
  method Copy(buf: array<Byte>, at: nat, src: Bytes)
    requires at + |src| <= buf.Length
    modifies buf
    ensures buf[..] == Splice(old(buf[..]), at, src)
  {
    hide Splice;
    SpliceNothing(buf[..], at);
    var i := 0;
    while i < |src|
      invariant 0 <= i <= |src|
      invariant buf[..] == Splice(old(buf[..]), at, src[..i])
    {
      WriteByte(buf, at + i, src[i]);
      SpliceAppend(old(buf[..]), at, src[..i], [src[i]]);
      assert src[..i + 1] == src[..i] + [src[i]];
      i := i + 1;
    }
    assert src[..|src|] == src;
  }

  /** `fill(0)` on a range. */
  method FillZero(buf: array<Byte>, lo: nat, hi: nat)
    requires lo <= hi <= buf.Length
    modifies buf
    ensures buf[..] == Splice(old(buf[..]), lo, Zeros(hi - lo))
  {
    Copy(buf, lo, Zeros(hi - lo));
  }

  /** Complements a range in place. */
  method InvertRange(buf: array<Byte>, lo: nat, hi: nat)
    requires lo <= hi <= buf.Length
    modifies buf
    ensures buf[..] == Splice(old(buf[..]), lo, Invert(old(buf[lo..hi])))
  {
    var i := lo;
    while i < hi
      invariant lo <= i <= hi
      invariant forall k :: 0 <= k < buf.Length ==>
        buf[k] == if lo <= k < i then 255 - old(buf[k]) else old(buf[k])
    {
      buf[i] := 255 - buf[i];
      i := i + 1;
    }
  }

  /** A write of the same length at the same place replaces the earlier one. */
  lemma SpliceOver(s: Bytes, at: nat, a: Bytes, b: Bytes)
    requires at + |a| <= |s| && |a| == |b|
    ensures Splice(Splice(s, at, a), at, b) == Splice(s, at, b)
    ensures Splice(s, at, a)[at..at + |a|] == a
  {
  }
}
