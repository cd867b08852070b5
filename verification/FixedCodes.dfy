/** Machine words: powers of two, two's complement views, xor and shifts. */
module Words {

  function Pow2(w: nat): (p: nat)
    ensures p >= 1
  {
    if w == 0 then 1 else 2 * Pow2(w - 1)
  }

  lemma {:induction false} Pow2Add(a: nat, b: nat)
    ensures Pow2(a + b) == Pow2(a) * Pow2(b)
  {
    if b != 0 {
      Pow2Add(a, b - 1);
      assert Pow2(a + b) == 2 * (Pow2(a) * Pow2(b - 1)) == Pow2(a) * Pow2(b);
    }
  }

  lemma {:induction false} Pow2Monotone(a: nat, b: nat)
    requires a <= b
    ensures Pow2(a) <= Pow2(b)
    decreases b
  {
    if a < b {
      Pow2Monotone(a, b - 1);
    }
  }

  /** One more byte multiplies by 256. */
  lemma Pow2Byte(n: nat)
    requires n > 0
    ensures Pow2(8 * n) == 256 * Pow2(8 * (n - 1))
  {
    Pow2Add(8 * (n - 1), 8);
    assert Pow2(8) == 256;
  }

  /** The values of a signed `w`-bit integer. */
  predicate IsSigned(w: nat, s: int) {
    w > 0 && 0 <= s + Pow2(w - 1) < Pow2(w)
  }

  /** Reinterprets a signed word as unsigned (`as u32`, `as u64`, `to_be_bytes`). */
  function AsUnsigned(w: nat, s: int): (u: nat)
    requires IsSigned(w, s)
    ensures u < Pow2(w)
  {
    if s < 0 then s + Pow2(w) else s
  }

  /** Reinterprets an unsigned word as signed (`as i32`, `as i64`). */
  function AsSigned(w: nat, u: nat): (s: int)
    requires w > 0 && u < Pow2(w)
    ensures IsSigned(w, s)
    ensures AsUnsigned(w, s) == u
  {
    if u < Pow2(w - 1) then u else u - Pow2(w)
  }

  /** Bitwise exclusive or of two `w`-bit words, one bit at a time from the top. */
  function Xor(w: nat, a: nat, b: nat): (r: nat)
    requires a < Pow2(w) && b < Pow2(w)
    ensures r < Pow2(w)
  {
    if w == 0 then 0 else
      var h := Pow2(w - 1);
      var low := Xor(w - 1, if a >= h then a - h else a, if b >= h then b - h else b);
      if (a >= h) != (b >= h) then h + low else low
  }

  lemma {:induction false} XorZero(w: nat, a: nat)
    requires a < Pow2(w)
    ensures Xor(w, a, 0) == a
  {
    if w > 0 {
      var h := Pow2(w - 1);
      XorZero(w - 1, if a >= h then a - h else a);
    }
  }

  lemma {:induction false} XorOnes(w: nat, a: nat)
    requires a < Pow2(w)
    ensures Xor(w, a, Pow2(w) - 1) == Pow2(w) - 1 - a
  {
    if w > 0 {
      var h := Pow2(w - 1);
      XorOnes(w - 1, if a >= h then a - h else a);
    }
  }

  /** Exclusive or with the top bit adds half the range, modulo the range. */
  lemma XorTop(w: nat, a: nat)
    requires w > 0 && a < Pow2(w)
    ensures Xor(w, a, Pow2(w - 1)) == if a < Pow2(w - 1) then a + Pow2(w - 1) else a - Pow2(w - 1)
  {
    var h := Pow2(w - 1);
    XorZero(w - 1, if a >= h then a - h else a);
  }

  /** Exclusive or with all bits but the top one complements the low bits. */
  lemma XorAllButTop(w: nat, a: nat)
    requires w > 0 && a < Pow2(w)
    ensures var h := Pow2(w - 1);
            Xor(w, a, h - 1) == if a < h then h - 1 - a else h + (h - 1 - (a - h))
  {
    var h := Pow2(w - 1);
    XorOnes(w - 1, if a >= h then a - h else a);
  }
}

/** Fixed-width value codes whose byte order is the value order. */
module FixedCodes {
  import opened Orderings
  import opened ByteStrings
  import opened Words

  /** `to_be_bytes` of an unsigned `n`-byte integer. */
  function BigEndian(n: nat, x: nat): (r: Bytes)
    requires x < Pow2(8 * n)
    ensures |r| == n
  {
    if n == 0 then [] else
      Pow2Byte(n);
      BigEndian(n - 1, x / 256) + [x % 256]
  }

  /** `from_be_bytes`. */
  function FromBigEndian(b: Bytes): (x: nat)
    ensures x < Pow2(8 * |b|)
  {
    if b == [] then 0 else
      Pow2Byte(|b|);
      256 * FromBigEndian(b[..|b| - 1]) + b[|b| - 1]
  }

  lemma {:induction false} BigEndianRoundTrip(n: nat, x: nat)
    requires x < Pow2(8 * n)
    ensures FromBigEndian(BigEndian(n, x)) == x
  {
    if n > 0 {
      Pow2Byte(n);
      BigEndianRoundTrip(n - 1, x / 256);
      assert BigEndian(n, x)[..n - 1] == BigEndian(n - 1, x / 256);
    }
  }

  /** Every byte string is the code of the number it reads as. */
  lemma {:induction false} BigEndianOnto(b: Bytes)
    ensures BigEndian(|b|, FromBigEndian(b)) == b
  {
    if b != [] {
      hide Pow2;
      var front, last := b[..|b| - 1], b[|b| - 1];
      BigEndianOnto(front);
      var x := FromBigEndian(front);
      assert FromBigEndian(b) == 256 * x + last;
      assert (256 * x + last) / 256 == x && (256 * x + last) % 256 == last;
      assert b == front + [last];
    }
  }

  /** The first byte bounds the number. */
  lemma {:induction false} LeadingByte(b: Bytes)
    requires b != []
    ensures var p := Pow2(8 * (|b| - 1)); b[0] * p <= FromBigEndian(b) < b[0] * p + p
  {
    var k := |b| - 1;
    if k == 0 {
      assert b[..0] == [] && FromBigEndian(b) == 256 * FromBigEndian([]) + b[0];
    } else {
      LeadingByte(b[..k]);
      Pow2Byte(k);
      hide Pow2;
      ScaleByte(b[0], Pow2(8 * (k - 1)));
    }
  }

  lemma ScaleByte(x: nat, p: nat)
    ensures x * (256 * p) == 256 * (x * p)
  {
  }

  lemma LastByteOrder(x: Byte, y: Byte)
    ensures CompareBytes([x], [y]) == CompareInt(x, y)
  {
  }

  /** Big-endian byte order is numeric order. */
  lemma {:induction false} BigEndianOrder(n: nat, x: nat, y: nat)
    requires x < Pow2(8 * n) && y < Pow2(8 * n)
    ensures CompareBytes(BigEndian(n, x), BigEndian(n, y)) == CompareInt(x, y)
  {
    if n > 0 {
      hide Pow2;
      Pow2Byte(n);
      BigEndianOrder(n - 1, x / 256, y / 256);
      hide CompareBytes;
      LastByteOrder(x % 256, y % 256);
      CompareConcat(BigEndian(n - 1, x / 256), BigEndian(n - 1, y / 256), [x % 256], [y % 256]);
    }
  }

  /** `b[0] ^= 0x80`. */
  function ToggleSign(b: Bytes): (r: Bytes)
    requires b != []
    ensures |r| == |b|
  {
    assert Pow2(8) == 256;
    [Xor(8, b[0], 0x80)] + b[1..]
  }

  lemma ToggleSignTwice(b: Bytes)
    requires b != []
    ensures ToggleSign(ToggleSign(b)) == b
  {
    assert Pow2(8) == 256 && Pow2(7) == 128;
    XorTop(8, b[0]);
    XorTop(8, Xor(8, b[0], 128));
  }

  /** The signed integer code: two's complement, top bit toggled, big endian. */
  function EncodeSigned(n: nat, s: int): (r: Bytes)
    requires n > 0 && IsSigned(8 * n, s)
    ensures |r| == n
  {
    ToggleSign(BigEndian(n, AsUnsigned(8 * n, s)))
  }

  function DecodeSigned(b: Bytes): (s: int)
    requires b != []
    ensures IsSigned(8 * |b|, s)
  {
    AsSigned(8 * |b|, FromBigEndian(ToggleSign(b)))
  }

  lemma SignedRoundTrip(n: nat, s: int)
    requires n > 0 && IsSigned(8 * n, s)
    ensures DecodeSigned(EncodeSigned(n, s)) == s
  {
    ToggleSignTwice(BigEndian(n, AsUnsigned(8 * n, s)));
    BigEndianRoundTrip(n, AsUnsigned(8 * n, s));
  }

  lemma SignedOnto(b: Bytes)
    requires b != []
    ensures EncodeSigned(|b|, DecodeSigned(b)) == b
  {
    BigEndianOnto(ToggleSign(b));
    ToggleSignTwice(b);
    hide Pow2;
  }

  lemma ToggleAppend(b: Bytes, x: Byte)
    requires b != []
    ensures ToggleSign(b + [x]) == ToggleSign(b) + [x]
  {
    assert (b + [x])[1..] == b[1..] + [x];
  }

  lemma ToggleByte(u: Byte)
    ensures ToggleSign([u]) == [if u < 128 then u + 128 else u - 128]
  {
    assert Pow2(8) == 256 && Pow2(7) == 128;
    XorTop(8, u);
  }

  lemma OneByte(u: Byte)
    ensures Pow2(8) == 256 && BigEndian(1, u) == [u]
  {
    assert Pow2(8) == 256;
    assert BigEndian(0, u / 256) == [];
  }

  lemma HalfRangeByte(n: nat)
    requires n > 1
    ensures Pow2(8 * n - 1) == 256 * Pow2(8 * (n - 1) - 1)
    ensures Pow2(8 * n) == 256 * Pow2(8 * (n - 1))
  {
    Pow2Byte(n);
    Pow2Byte(n - 1);
  }

  /** Toggling the top bit of a big-endian word moves it by half its range. */
  lemma ToggleOneByte(u: nat, v: nat)
    requires u < Pow2(8) && v < Pow2(8) && (v == u + Pow2(7) || u == v + Pow2(7))
    ensures ToggleSign(BigEndian(1, u)) == BigEndian(1, v)
  {
    assert Pow2(8) == 256 && Pow2(7) == 128;
    OneByte(u);
    OneByte(v);
    ToggleByte(u);
  }

  /** A difference of a multiple of 256 leaves the last byte alone. */
  lemma HalfRangeSplit(h: nat, p: nat, u: nat, v: nat)
    requires u < 256 * p && v < 256 * p && (v == u + 256 * h || u == v + 256 * h)
    ensures u % 256 == v % 256 && u / 256 < p && v / 256 < p
    ensures v / 256 == u / 256 + h || u / 256 == v / 256 + h
  {
  }

  lemma {:induction false} ToggleBigEndian(n: nat, u: nat, v: nat)
    requires n > 0 && u < Pow2(8 * n) && v < Pow2(8 * n)
    requires v == u + Pow2(8 * n - 1) || u == v + Pow2(8 * n - 1)
    ensures ToggleSign(BigEndian(n, u)) == BigEndian(n, v)
  {
    if n == 1 {
      ToggleOneByte(u, v);
    } else {
      HalfRangeByte(n);
      HalfRangeSplit(Pow2(8 * (n - 1) - 1), Pow2(8 * (n - 1)), u, v);
      hide Pow2, ToggleSign;
      ToggleBigEndian(n - 1, u / 256, v / 256);
      ToggleAppend(BigEndian(n - 1, u / 256), u % 256);
    }
  }

  /** Toggling the sign bit turns two's complement into offset binary. */
  lemma ToggledIsOffset(n: nat, s: int)
    requires n > 0 && IsSigned(8 * n, s)
    ensures EncodeSigned(n, s) == BigEndian(n, s + Pow2(8 * n - 1))
  {
    ToggleBigEndian(n, AsUnsigned(8 * n, s), s + Pow2(8 * n - 1));
  }

  /** The signed code sorts as the integers do. */
  lemma SignedOrder(n: nat, s: int, t: int)
    requires n > 0 && IsSigned(8 * n, s) && IsSigned(8 * n, t)
    ensures CompareBytes(EncodeSigned(n, s), EncodeSigned(n, t)) == CompareInt(s, t)
  {
    ToggledIsOffset(n, s);
    ToggledIsOffset(n, t);
    BigEndianOrder(n, s + Pow2(8 * n - 1), t + Pow2(8 * n - 1));
  }
}
