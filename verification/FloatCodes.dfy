/** The total-order float code: canonical form, sign-dependent bit flip, signed integer code. */
module FloatCodes {
  import opened Orderings
  import opened ByteStrings
  import opened Words
  import opened FixedCodes

  /** An IEEE 754 binary interchange format; a float is its bit pattern. */
  datatype Format = Format(exponentBits: nat, mantissaBits: nat, bytes: nat) {
    ghost predicate Valid() {
      && exponentBits >= 1
      && mantissaBits >= 1
      && 1 + exponentBits + mantissaBits == 8 * bytes
    }

    /** The weight of the sign bit. */
    function Sign(): nat
      requires Valid()
    {
      Pow2(8 * bytes - 1)
    }

    /** The magnitude bits of infinity: all exponent bits set, mantissa zero. */
    function Infinity(): nat {
      Pow2Monotone(mantissaBits, exponentBits + mantissaBits);
      Pow2(exponentBits + mantissaBits) - Pow2(mantissaBits)
    }
  }

  const BINARY32 := Format(8, 23, 4)
  const BINARY64 := Format(11, 52, 8)

  ghost predicate IsFloat(f: Format, bits: nat) {
    f.Valid() && bits < Pow2(8 * f.bytes)
  }

  function Negative(f: Format, bits: nat): bool
    requires IsFloat(f, bits)
  {
    bits >= f.Sign()
  }

  function Magnitude(f: Format, bits: nat): (m: nat)
    requires IsFloat(f, bits)
    ensures m < f.Sign()
  {
    if Negative(f, bits) then bits - f.Sign() else bits
  }

  function IsNaN(f: Format, bits: nat): bool
    requires IsFloat(f, bits)
  {
    Magnitude(f, bits) > f.Infinity()
  }

  lemma InfinityBelowSign(f: Format)
    requires f.Valid()
    ensures 0 < f.Infinity() && f.Infinity() + Pow2(f.mantissaBits - 1) < f.Sign()
  {
    Pow2Monotone(f.mantissaBits + 1, f.exponentBits + f.mantissaBits);
  }

  /** `canonical_f32` / `canonical_f64`: one NaN, one zero. */
  function Canonical(f: Format, bits: nat): (c: nat)
    requires IsFloat(f, bits)
    ensures IsFloat(f, c)
  {
    InfinityBelowSign(f);
    if IsNaN(f, bits) then f.Infinity() + Pow2(f.mantissaBits - 1)
    else if Magnitude(f, bits) == 0 then 0
    else bits
  }

  lemma SinglePowers()
    ensures Pow2(22) == 0x40_0000 && Pow2(23) == 0x80_0000 && Pow2(31) == 0x8000_0000 && Pow2(32) == 0x1_0000_0000
  {
    assert Pow2(8) == 0x100 && Pow2(16) == 0x1_0000 && Pow2(22) == 0x40_0000;
    Pow2Add(23, 8);
  }

  lemma DoublePowers()
    ensures Pow2(51) == 0x8_0000_0000_0000 && Pow2(52) == 0x10_0000_0000_0000
    ensures Pow2(63) == 0x8000_0000_0000_0000 && Pow2(64) == 0x1_0000_0000_0000_0000
  {
    SinglePowers();
    Pow2Add(32, 16);
    Pow2Add(48, 3);
    Pow2Add(52, 11);
    assert Pow2(16) == 0x1_0000 && Pow2(3) == 8 && Pow2(11) == 0x800;
  }

  /** `canonical_f32`: every NaN becomes 0x7fc00000, both zeros 0, and every other float stays as it is. */
  lemma CanonicalSingle(bits: nat)
    requires bits < 0x1_0000_0000
    ensures IsFloat(BINARY32, bits)
    ensures Canonical(BINARY32, bits) ==
            if 0x7f80_0000 < bits < 0x8000_0000 || 0xff80_0000 < bits then 0x7fc0_0000
            else if bits == 0x8000_0000 then 0
            else bits
  {
    SinglePowers();
    hide Pow2;
  }

  /** `canonical_f64`, likewise with 0x7ff8000000000000. */
  lemma CanonicalDouble(bits: nat)
    requires bits < 0x1_0000_0000_0000_0000
    ensures IsFloat(BINARY64, bits)
    ensures Canonical(BINARY64, bits) ==
            if 0x7ff0_0000_0000_0000 < bits < 0x8000_0000_0000_0000 || 0xfff0_0000_0000_0000 < bits
            then 0x7ff8_0000_0000_0000
            else if bits == 0x8000_0000_0000_0000 then 0
            else bits
  {
    DoublePowers();
    hide Pow2;
  }

  /** The expression `s ^ (((s >> (w - 1)) as unsigned) >> 1)` on a signed `w`-bit word. */
  function Flip(w: nat, s: int): (r: int)
    requires IsSigned(w, s)
    ensures IsSigned(w, r)
  {
    var spread := ShiftSign(w, s);
    var mask := AsUnsigned(w, spread) / 2;
    AsSigned(w, Xor(w, AsUnsigned(w, s), mask))
  }

  /** Arithmetic shift right by `w - 1`: all copies of the sign bit. */
  function ShiftSign(w: nat, s: int): (r: int)
    requires IsSigned(w, s)
    ensures r == if s < 0 then -1 else 0
    ensures IsSigned(w, r)
  {
    SignQuotient(Pow2(w - 1), s);
    s / Pow2(w - 1)
  }

  lemma SignQuotient(h: nat, s: int)
    requires h >= 1 && 0 <= s + h < 2 * h
    ensures s / h == if s < 0 then -1 else 0
  {
  }

  /** Flipping leaves non-negative words alone and mirrors the negative ones. */
  lemma FlipMirrors(w: nat, s: int)
    requires IsSigned(w, s)
    ensures Flip(w, s) == if s < 0 then -1 - s - Pow2(w - 1) else s
  {
    var u := AsUnsigned(w, s);
    if s < 0 {
      XorAllButTop(w, u);
    } else {
      XorZero(w, u);
    }
  }

  /** The flip undoes itself. */
  lemma FlipInvolution(w: nat, s: int)
    requires IsSigned(w, s)
    ensures Flip(w, Flip(w, s)) == s
  {
    FlipMirrors(w, s);
    FlipMirrors(w, Flip(w, s));
  }

  function EncodeFloat(f: Format, bits: nat): (r: Bytes)
    requires IsFloat(f, bits)
    ensures |r| == f.bytes
  {
    var w := 8 * f.bytes;
    EncodeSigned(f.bytes, Flip(w, AsSigned(w, Canonical(f, bits))))
  }

  function DecodeFloat(f: Format, b: Bytes): (bits: nat)
    requires f.Valid() && |b| == f.bytes
    ensures IsFloat(f, bits)
  {
    var w := 8 * f.bytes;
    AsUnsigned(w, Flip(w, DecodeSigned(b)))
  }

  /** The number a float's code stores: the magnitude above half the range, or its mirror below. */
  lemma FloatCodeValue(f: Format, bits: nat)
    requires IsFloat(f, bits)
    ensures var c := Canonical(f, bits);
            FromBigEndian(EncodeFloat(f, bits)) == if c < f.Sign() then f.Sign() + c else 2 * f.Sign() - 1 - c
  {
    hide BigEndian, FromBigEndian, Canonical, Pow2;
    var w, c := 8 * f.bytes, Canonical(f, bits);
    FlipMirrors(w, AsSigned(w, c));
    var key := Flip(w, AsSigned(w, c));
    ToggledIsOffset(f.bytes, key);
    BigEndianRoundTrip(f.bytes, key + Pow2(w - 1));
    TopByte(f.bytes);
  }

  /** Decoding gives back the canonical form. */
  lemma FloatRoundTrip(f: Format, bits: nat)
    requires IsFloat(f, bits)
    ensures DecodeFloat(f, EncodeFloat(f, bits)) == Canonical(f, bits)
  {
    var w := 8 * f.bytes;
    var s := AsSigned(w, Canonical(f, bits));
    SignedRoundTrip(f.bytes, Flip(w, s));
    FlipInvolution(w, s);
  }

  /** A code whose first byte is small belongs to a finite negative float. */
  lemma FloatOnto(f: Format, b: Bytes)
    requires f.Valid() && |b| == f.bytes && f.mantissaBits <= 8 * (f.bytes - 1) && 1 <= b[0] <= 126
    ensures EncodeFloat(f, DecodeFloat(f, b)) == b
  {
    var w, s := 8 * f.bytes, DecodeSigned(b);
    SignedOnto(b);
    FlipInvolution(w, s);
    CanonicalCode(f, b);
    assert AsSigned(w, AsUnsigned(w, Flip(w, s))) == Flip(w, s);
  }

  /** The number a code stands for, as an offset from the lowest one. */
  lemma CodeOffset(b: Bytes)
    requires b != []
    ensures DecodeSigned(b) == FromBigEndian(b) - Pow2(8 * |b| - 1)
  {
    hide Pow2, EncodeSigned, DecodeSigned, BigEndian, FromBigEndian;
    var s := DecodeSigned(b);
    SignedOnto(b);
    ToggledIsOffset(|b|, s);
    BigEndianRoundTrip(|b|, s + Pow2(8 * |b| - 1));
  }

  lemma TopByte(n: nat)
    requires n > 0
    ensures Pow2(8 * n - 1) == 128 * Pow2(8 * (n - 1)) && Pow2(8 * n) == 2 * Pow2(8 * n - 1)
  {
    Pow2Add(8 * (n - 1), 7);
    assert Pow2(7) == 128 && 8 * (n - 1) + 7 == 8 * n - 1;
  }

  lemma ByteBounds(b: Bytes)
    requires b != [] && 1 <= b[0] <= 126
    ensures Pow2(8 * (|b| - 1)) <= FromBigEndian(b) < 127 * Pow2(8 * (|b| - 1))
  {
    hide Pow2, FromBigEndian;
    LeadingByte(b);
    Scaled(b[0], Pow2(8 * (|b| - 1)));
  }

  lemma Scaled(x: nat, p: nat)
    requires 1 <= x <= 126
    ensures p <= x * p <= 126 * p
  {
  }

  lemma DecodedBits(f: Format, b: Bytes)
    requires f.Valid() && |b| == f.bytes && FromBigEndian(b) < Pow2(8 * f.bytes - 1)
    ensures DecodeFloat(f, b) == Pow2(8 * f.bytes) - 1 - FromBigEndian(b)
  {
    hide Pow2, FromBigEndian, DecodeSigned, Flip;
    CodeOffset(b);
    FlipMirrors(8 * f.bytes, DecodeSigned(b));
    TopByte(f.bytes);
  }

  lemma CanonicalCode(f: Format, b: Bytes)
    requires f.Valid() && |b| == f.bytes && f.mantissaBits <= 8 * (f.bytes - 1) && 1 <= b[0] <= 126
    ensures Canonical(f, DecodeFloat(f, b)) == DecodeFloat(f, b)
  {
    hide Pow2, DecodeFloat;
    ByteBounds(b);
    TopByte(f.bytes);
    DecodedBits(f, b);
    Pow2Monotone(f.mantissaBits, 8 * (f.bytes - 1));
    assert f.exponentBits + f.mantissaBits == 8 * f.bytes - 1;
  }

  // What a bit pattern means, independently of the code.

  /** Finite values count units of the smallest positive subnormal. */
  datatype Number = NegInfinity | Finite(units: int) | PosInfinity | NaN

  /**
   * The number of units denoted by the magnitude bits of a finite float. Subnormals and the first
   * binade count one by one; each further step of the exponent doubles.
   */
  function Units(f: Format, magnitude: nat): (u: nat)
    ensures u >= magnitude
  {
    var p := Pow2(f.mantissaBits);
    if magnitude < 2 * p then magnitude else 2 * Units(f, magnitude - p)
  }

  /** The same number read off the exponent and mantissa fields as IEEE 754 defines it. */
  lemma {:induction false} UnitsOfFields(f: Format, exponent: nat, mantissa: nat)
    requires mantissa < Pow2(f.mantissaBits)
    ensures Units(f, exponent * Pow2(f.mantissaBits) + mantissa)
         == if exponent == 0 then mantissa else (Pow2(f.mantissaBits) + mantissa) * Pow2(exponent - 1)
  {
    hide Units, Pow2;
    if exponent < 2 {
      UnitsBase(f, exponent, mantissa);
    } else {
      UnitsOfFields(f, exponent - 1, mantissa);
      UnitsStep(f, exponent, mantissa);
      NextBinade(Pow2(f.mantissaBits) + mantissa, exponent);
    }
  }

  lemma UnitsBase(f: Format, exponent: nat, mantissa: nat)
    requires exponent < 2 && mantissa < Pow2(f.mantissaBits)
    ensures Units(f, exponent * Pow2(f.mantissaBits) + mantissa)
         == if exponent == 0 then mantissa else (Pow2(f.mantissaBits) + mantissa) * Pow2(exponent - 1)
  {
    assert Pow2(0) == 1;
  }

  lemma NextBinade(significand: nat, exponent: nat)
    requires exponent >= 2
    ensures 2 * (significand * Pow2(exponent - 2)) == significand * Pow2(exponent - 1)
  {
    var q := Pow2(exponent - 2);
    assert Pow2(exponent - 1) == 2 * q;
  }

  lemma UnitsStep(f: Format, exponent: nat, mantissa: nat)
    requires exponent >= 2
    ensures var p := Pow2(f.mantissaBits);
            Units(f, exponent * p + mantissa) == 2 * Units(f, (exponent - 1) * p + mantissa)
  {
    var p := Pow2(f.mantissaBits);
    assert exponent * p == (exponent - 1) * p + p && (exponent - 1) * p >= p;
  }

  function Denote(f: Format, bits: nat): Number
    requires IsFloat(f, bits)
  {
    var m := Magnitude(f, bits);
    if IsNaN(f, bits) then NaN
    else if m == f.Infinity() then (if Negative(f, bits) then NegInfinity else PosInfinity)
    else Finite(if Negative(f, bits) then 0 - Units(f, m) else Units(f, m))
  }

  function Rank(x: Number): int {
    match x
    case NegInfinity => -1
    case Finite(_) => 0
    case PosInfinity => 1
    case NaN => 2
  }

  /** -inf < finite values by size < inf < NaN, both zeros equal and all NaNs equal. */
  function CompareNumber(x: Number, y: Number): Ordering {
    if x.Finite? && y.Finite? then CompareInt(x.units, y.units) else CompareInt(Rank(x), Rank(y))
  }

  function CompareFloat(f: Format, x: nat, y: nat): Ordering
    requires IsFloat(f, x) && IsFloat(f, y)
  {
    CompareNumber(Denote(f, x), Denote(f, y))
  }

  /** Magnitude bits order as the numbers they denote. */
  lemma {:induction false} UnitsMonotone(f: Format, a: nat, b: nat)
    requires a < b
    ensures Units(f, a) < Units(f, b)
  {
    var p := Pow2(f.mantissaBits);
    if a >= 2 * p {
      UnitsMonotone(f, a - p, b - p);
    }
  }

  /** The integer the code stores: the magnitude, or its mirror below zero. */
  function Key(f: Format, bits: nat): (k: int)
    requires IsFloat(f, bits)
    ensures IsSigned(8 * f.bytes, k)
  {
    Flip(8 * f.bytes, AsSigned(8 * f.bytes, Canonical(f, bits)))
  }

  lemma KeyMeaning(f: Format, bits: nat)
    requires IsFloat(f, bits)
    ensures var c := Canonical(f, bits);
            Key(f, bits) == if Negative(f, c) then -1 - Magnitude(f, c) else Magnitude(f, c)
  {
    FlipMirrors(8 * f.bytes, AsSigned(8 * f.bytes, Canonical(f, bits)));
  }

  lemma UnitsZero(f: Format)
    ensures Units(f, 0) == 0
  {
  }

  /** The stored integers order exactly as the denoted numbers. */
  lemma KeyOrder(f: Format, x: nat, y: nat)
    requires IsFloat(f, x) && IsFloat(f, y)
    ensures CompareInt(Key(f, x), Key(f, y)) == CompareFloat(f, x, y)
  {
    hide Units, Key, Pow2;
    KeyMeaning(f, x);
    KeyMeaning(f, y);
    InfinityBelowSign(f);
    UnitsZero(f);
    UnitsOrder(f, Magnitude(f, x), Magnitude(f, y));
    UnitsOrder(f, Magnitude(f, x), 0);
    UnitsOrder(f, Magnitude(f, y), 0);
  }

  lemma UnitsOrder(f: Format, a: nat, b: nat)
    ensures CompareInt(Units(f, a), Units(f, b)) == CompareInt(a, b)
  {
    if a < b {
      UnitsMonotone(f, a, b);
    } else if b < a {
      UnitsMonotone(f, b, a);
    }
  }

  /** Byte order of float codes is -inf < negatives < zero < positives < inf < NaN. */
  lemma FloatOrder(f: Format, x: nat, y: nat)
    requires IsFloat(f, x) && IsFloat(f, y)
    ensures CompareBytes(EncodeFloat(f, x), EncodeFloat(f, y)) == CompareFloat(f, x, y)
  {
    SignedOrder(f.bytes, Key(f, x), Key(f, y));
    KeyOrder(f, x, y);
  }

  /** Two floats compare equal exactly when their canonical forms coincide. */
  lemma FloatEqual(f: Format, x: nat, y: nat)
    requires IsFloat(f, x) && IsFloat(f, y)
    ensures CompareFloat(f, x, y) == Equal <==> Canonical(f, x) == Canonical(f, y)
  {
    KeyOrder(f, x, y);
    KeyMeaning(f, x);
    KeyMeaning(f, y);
  }

  lemma CanonicalIdempotent(f: Format, bits: nat)
    requires IsFloat(f, bits)
    ensures Canonical(f, Canonical(f, bits)) == Canonical(f, bits)
  {
    hide Pow2;
    InfinityBelowSign(f);
  }
}
