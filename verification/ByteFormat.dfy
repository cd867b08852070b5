/**
 * The bytes of the row format, written out: sentinels, padding, tokens and lengths as a reader of the format
 * meets them. Order and round trip hold of many codes; these statements single out the one that is used.
 */
module ByteFormat {
  import opened ByteStrings
  import opened Options
  import opened EncodingFields
  import opened Words
  import opened RowCode
  import FixedCodes
  import FloatCodes
  import BlockCode

  /** A byte of a non-null value, complemented in a descending column. */
  function Seen(field: EncodingField, b: int): int {
    if field.descending then 255 - b else b
  }

  /** The leaf types there are, with the bit layouts of the two float formats. */
  lemma SupportedTypes(t: LeafType)
    ensures t.Supported() <==> t in {
              Boolean, Binary, UInt(1), UInt(2), UInt(4), UInt(8), Int(1), Int(2), Int(4), Int(8), Int(16),
              Float(FloatCodes.Format(8, 23, 4)), Float(FloatCodes.Format(11, 52, 8))}
  {
    match t
    case Boolean =>
    case UInt(_) =>
    case Int(_) =>
    case Float(_) =>
    case Binary =>
  }

  // Fixed-width cells.

  /** A null is the null byte and zeros; a value is the byte one and its data, complemented when descending. */
  lemma FixedLayout(field: EncodingField, t: LeafType, c: Cell)
    requires CellHasType(t, c) && !t.Binary?
    ensures var r := SlotCode(field, t, c);
            && |r| == 1 + t.Width()
            && (c.None? ==> r[0] == if field.nullsLast then 255 else 0)
            && (c.None? ==> forall k :: 1 <= k < |r| ==> r[k] == 0)
            && (c.Some? ==> r[0] == 1)
            && (c.Some? ==> forall k :: 1 <= k < |r| ==> r[k] == Seen(field, EncodeValue(t, c.value)[k - 1]))
  {
    hide EncodeValue, HasType;
  }

  /** The number whose big-endian digits are the data bytes of a value. */
  ghost function Stored(t: LeafType, v: Value): int
    requires HasType(t, v) && !t.Binary?
  {
    match t
    case Boolean => if v.b then 1 else 0
    case UInt(_) => v.i
    case Int(n) => v.i + Pow2(8 * n - 1)
    case Float(f) =>
      var c, half := FloatCodes.Canonical(f, v.bits), Pow2(8 * f.bytes - 1);
      if c < half then half + c else 2 * half - 1 - c
  }

  /** Data bytes are big-endian: unsigned as they are, signed and floats shifted up by half the range. */
  lemma DataBytes(t: LeafType, v: Value)
    requires HasType(t, v) && !t.Binary?
    ensures |EncodeValue(t, v)| == if t.Boolean? then 1 else if t.Float? then t.format.bytes else t.bytes
    ensures FixedCodes.FromBigEndian(EncodeValue(t, v)) == Stored(t, v)
  {
    hide Pow2, FixedCodes.BigEndian, FixedCodes.EncodeSigned, FloatCodes.EncodeFloat, FloatCodes.Canonical;
    match t
    case Boolean => SingleByte(if v.b then 1 else 0);
    case UInt(n) => FixedCodes.BigEndianRoundTrip(n, v.i);
    case Int(n) =>
      FixedCodes.ToggledIsOffset(n, v.i);
      FixedCodes.BigEndianRoundTrip(n, v.i + Pow2(8 * n - 1));
    case Float(f) => FloatCodes.FloatCodeValue(f, v.bits);
  }

  lemma SingleByte(b: Byte)
    ensures FixedCodes.FromBigEndian([b]) == b
  {
    assert [b][..0] == [] && FixedCodes.FromBigEndian([]) == 0;
  }

  // Strings.

  /** Byte `p` of a string's blocks: 32 data or padding bytes and a token, 33 at a time. */
  function BlockAt(v: Bytes, p: nat): int {
    var start, k := 32 * (p / 33), p % 33;
    if k == 32 then (if start + 32 < |v| then 255 else |v| - start)
    else if start + k < |v| then v[start + k]
    else 0
  }

  lemma {:induction false} BlocksAt(v: Bytes, p: nat)
    requires p < |BlockCode.Blocks(v)|
    ensures BlockCode.Blocks(v)[p] == BlockAt(v, p)
  {
    hide BlockCode.Blocks, BlockAt;
    if |v| > 32 && p >= 33 {
      BlocksShift(v, p);
      BlockAtShift(v, p);
      BlocksAt(v[32..], p - 33);
    } else {
      FirstBlock(v, p);
    }
  }

  lemma FirstBlock(v: Bytes, p: nat)
    requires p < |BlockCode.Blocks(v)| && (|v| <= 32 || p < 33)
    ensures BlockCode.Blocks(v)[p] == BlockAt(v, p)
  {
    if |v| > 32 {
      BlockCode.BlocksLong(v);
    } else {
      BlockCode.BlocksShort(v);
    }
  }

  lemma BlocksShift(v: Bytes, p: nat)
    requires |v| > 32 && 33 <= p < |BlockCode.Blocks(v)|
    ensures p - 33 < |BlockCode.Blocks(v[32..])| && BlockCode.Blocks(v)[p] == BlockCode.Blocks(v[32..])[p - 33]
  {
    BlockCode.BlocksLong(v);
    hide BlockCode.Blocks;
  }

  lemma BlockAtShift(v: Bytes, p: nat)
    requires |v| > 32 && p >= 33
    ensures BlockAt(v, p) == BlockAt(v[32..], p - 33)
  {
    assert (p - 33) / 33 == p / 33 - 1 && (p - 33) % 33 == p % 33;
  }

  /** As many blocks as needed, none for the empty string. */
  lemma {:induction false} BlocksLength(v: Bytes)
    ensures |BlockCode.Blocks(v)| == 33 * ((|v| + 31) / 32)
  {
    if |v| > 32 {
      BlockCode.BlocksLong(v);
      BlocksLength(v[32..]);
    } else if v != [] {
      BlockCode.BlocksShort(v);
    }
  }

  /** Ordered strings: the null byte, or the sentinel and the blocks, complemented when descending. */
  lemma StringLayout(field: EncodingField, c: Cell)
    requires CellHasType(Binary, c) && !field.noOrder
    ensures var r := SlotCode(field, Binary, c);
            && (c.None? ==> r == [if field.nullsLast then 255 else 0])
            && (c.Some? ==> |r| == 1 + 33 * ((|c.value.v| + 31) / 32))
            && (c.Some? ==> r[0] == Seen(field, if c.value.v == [] then 1 else 2))
            && (c.Some? ==> forall p :: 1 <= p < |r| ==> r[p] == Seen(field, BlockAt(c.value.v, p - 1)))
  {
    if c.Some? {
      var v := c.value.v;
      BlocksLength(v);
      forall p | 0 <= p < |BlockCode.Blocks(v)|
        ensures BlockCode.Blocks(v)[p] == BlockAt(v, p)
      {
        BlocksAt(v, p);
      }
    }
  }

  /** Unordered strings: the bare bytes behind a sentinel that is complemented only for the empty string. */
  lemma UnorderedLayout(field: EncodingField, c: Cell)
    requires CellHasType(Binary, c) && field.noOrder
    ensures SlotCode(field, Binary, c) ==
            if c.None? then [if field.nullsLast then 255 else 0]
            else if c.value.v == [] then [if field.descending then 254 else 1]
            else [2] + c.value.v
  {
    hide BlockCode.Blocks;
    if c.Some? && c.value.v == [] && field.descending {
      assert Invert([1]) == [254];
    }
  }
}
