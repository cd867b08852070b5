/** Three-way comparison results, and how they combine. */
module Orderings {

  datatype Ordering = Less | Equal | Greater {
    /** The first non-equal result decides. */
    function Then(other: Ordering): Ordering {
      if Equal? then other else this
    }

    function Reverse(): Ordering {
      match this
      case Less => Greater
      case Equal => Equal
      case Greater => Less
    }

    function ReverseIf(flag: bool): Ordering {
      if flag then Reverse() else this
    }
  }

  function CompareInt(a: int, b: int): Ordering {
    if a < b then Less else if a == b then Equal else Greater
  }
}

/**
 * Byte strings under plain lexicographic comparison, and the facts that make
 * concatenated self-delimiting codes comparable piece by piece.
 */
module ByteStrings {
  import opened Orderings

  type Byte = x: int | 0 <= x < 256

  type Bytes = seq<Byte>

  /** Byte-wise comparison; a proper prefix is smaller. */
  function CompareBytes(a: Bytes, b: Bytes): Ordering {
    if a == [] || b == [] then CompareInt(|a|, |b|)
    else CompareInt(a[0], b[0]).Then(CompareBytes(a[1..], b[1..]))
  }

  /** Neither string is a proper prefix of the other. */
  ghost predicate PrefixFree(a: Bytes, b: Bytes) {
    (a <= b || b <= a) ==> a == b
  }

  function Zeros(n: nat): (z: Bytes)
    ensures |z| == n
    ensures forall i :: 0 <= i < n ==> z[i] == 0
  {
    seq(n, _ => 0)
  }

  /** Bitwise complement of every byte. */
  function Invert(a: Bytes): (r: Bytes)
    ensures |r| == |a|
    ensures forall i :: 0 <= i < |a| ==> r[i] == 255 - a[i]
  {
    seq(|a|, i requires 0 <= i < |a| => 255 - a[i])
  }

  function InvertIf(flag: bool, a: Bytes): (r: Bytes)
    ensures |r| == |a|
  {
    if flag then Invert(a) else a
  }

  lemma InvertTwice(a: Bytes)
    ensures Invert(Invert(a)) == a
  {
  }

  lemma InvertConcat(a: Bytes, b: Bytes)
    ensures Invert(a + b) == Invert(a) + Invert(b)
  {
  }

  lemma ConcatAssoc<T>(a: seq<T>, b: seq<T>, c: seq<T>)
    ensures (a + b) + c == a + (b + c)
  {
  }

  lemma CompareCons(x: Byte, a: Bytes, y: Byte, b: Bytes)
    ensures CompareBytes([x] + a, [y] + b) == CompareInt(x, y).Then(CompareBytes(a, b))
  {
    assert ([x] + a)[1..] == a && ([y] + b)[1..] == b;
  }

  lemma {:induction false} CompareReflexive(a: Bytes)
    ensures CompareBytes(a, a) == Equal
  {
    if a != [] {
      CompareReflexive(a[1..]);
    }
  }

  /** Comparison is faithful: only equal strings compare equal. */
  lemma {:induction false} CompareEqual(a: Bytes, b: Bytes)
    ensures CompareBytes(a, b) == Equal <==> a == b
  {
    if a != [] && b != [] {
      CompareEqual(a[1..], b[1..]);
      assert a == [a[0]] + a[1..] && b == [b[0]] + b[1..];
    }
  }

  lemma PrefixFreeTail(a: Bytes, b: Bytes)
    requires PrefixFree(a, b) && a != [] && b != [] && a[0] == b[0]
    ensures PrefixFree(a[1..], b[1..])
  {
    assert a == [a[0]] + a[1..] && b == [b[0]] + b[1..];
  }

  /** Prefix-free leading parts decide before anything behind them is looked at. */
  lemma {:induction false} CompareConcat(a: Bytes, b: Bytes, s: Bytes, t: Bytes)
    requires PrefixFree(a, b)
    ensures CompareBytes(a + s, b + t) == CompareBytes(a, b).Then(CompareBytes(s, t))
    decreases |a|
  {
    if a == [] || b == [] {
      assert a == [] && b == [];
      assert a + s == s && b + t == t;
    } else {
      assert (a + s)[1..] == a[1..] + s && (b + t)[1..] == b[1..] + t;
      if a[0] == b[0] {
        PrefixFreeTail(a, b);
        CompareConcat(a[1..], b[1..], s, t);
      }
    }
  }

  /** Concatenations of prefix-free pairs are prefix-free. */
  lemma PrefixFreeConcat(a: Bytes, b: Bytes, s: Bytes, t: Bytes)
    requires PrefixFree(a, b) && PrefixFree(s, t)
    ensures PrefixFree(a + s, b + t)
  {
    if a + s <= b + t || b + t <= a + s {
      SplitPrefix(a, b, s, t);
    }
  }

  /** Comparable concatenations with prefix-free heads have equal heads and comparable tails. */
  lemma SplitPrefix(a: Bytes, b: Bytes, s: Bytes, t: Bytes)
    requires PrefixFree(a, b)
    requires a + s <= b + t || b + t <= a + s
    ensures a == b
    ensures s <= t || t <= s
  {
    var x, y := a + s, b + t;
    assert a == x[..|a|] && b == y[..|b|];
    assert |a| <= |b| ==> a == y[..|a|] == b[..|a|];
    assert |b| <= |a| ==> b == x[..|b|] == a[..|b|];
    assert s == x[|a|..] && t == y[|a|..];
  }

  /** Equal concatenations whose heads have the same length agree part by part. */
  lemma SplitSameLength(a: Bytes, s: Bytes, b: Bytes, t: Bytes)
    requires a + s == b + t && |a| == |b|
    ensures a == b && s == t
  {
    assert a == (a + s)[..|a|] && b == (b + t)[..|b|];
    assert s == (a + s)[|a|..] && t == (b + t)[|b|..];
  }

  /** Between a self-delimiting head and a tail of known length, the middle is determined too. */
  lemma SplitMiddle(a: Bytes, s: Bytes, y: Bytes, b: Bytes, t: Bytes, z: Bytes)
    requires PrefixFree(a, b) && |y| == |z| && a + s + y == b + t + z
    ensures a == b && s == t && y == z
  {
    assert a + s + y == a + (s + y) && b + t + z == b + (t + z);
    SplitPrefix(a, b, s + y, t + z);
    SplitSameLength(a, s + y, b, t + z);
    assert |s| == |t|;
    SplitSameLength(s, y, t, z);
  }

  lemma PrefixFreeSameLength(a: Bytes, b: Bytes)
    requires |a| == |b|
    ensures PrefixFree(a, b)
  {
  }

  lemma PrefixFreeInvert(a: Bytes, b: Bytes)
    requires PrefixFree(a, b)
    ensures PrefixFree(Invert(a), Invert(b))
  {
    InvertTwice(a);
    InvertTwice(b);
    if Invert(a) <= Invert(b) {
      assert a == b[..|a|] by {
        forall i | 0 <= i < |a| ensures a[i] == b[i] {
          assert Invert(a)[i] == Invert(b)[i];
        }
      }
    }
    if Invert(b) <= Invert(a) {
      assert b == a[..|b|] by {
        forall i | 0 <= i < |b| ensures a[i] == b[i] {
          assert Invert(a)[i] == Invert(b)[i];
        }
      }
    }
  }

  /** Complementing every byte reverses the order of prefix-free strings. */
  lemma {:induction false} CompareInvert(a: Bytes, b: Bytes)
    requires PrefixFree(a, b)
    ensures CompareBytes(Invert(a), Invert(b)) == CompareBytes(a, b).Reverse()
  {
    if a == [] || b == [] {
      assert a == [] && b == [];
    } else {
      assert Invert(a)[1..] == Invert(a[1..]) && Invert(b)[1..] == Invert(b[1..]);
      if a[0] == b[0] {
        PrefixFreeTail(a, b);
        CompareInvert(a[1..], b[1..]);
      }
    }
  }
}
