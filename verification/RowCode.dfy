/** Leaf values, their codes, and rows of them. */
module RowCode {
  import opened Orderings
  import opened ByteStrings
  import opened Options
  import opened EncodingFields
  import opened Words
  import FixedCodes
  import FloatCodes
  import BlockCode

  /** The leaf types the encoder supports; `Int(16)` stores decimals, `Binary` also strings. */
  datatype LeafType = Boolean | UInt(bytes: nat) | Int(bytes: nat) | Float(format: FloatCodes.Format) | Binary {
    predicate Supported() {
      match this
      case UInt(n) => n in {1, 2, 4, 8}
      case Int(n) => n in {1, 2, 4, 8, 16}
      case Float(f) => f in {FloatCodes.BINARY32, FloatCodes.BINARY64}
      case Boolean => true
      case Binary => true
    }

    /** The data bytes of a fixed-width type. */
    function Width(): nat
      requires !Binary?
    {
      match this
      case Boolean => 1
      case UInt(n) => n
      case Int(n) => n
      case Float(f) => f.bytes
    }
  }

  /** `encoded_size`: one validity byte and the data bytes. */
  function EncodedSize(t: LeafType): nat
    requires !t.Binary?
  {
    1 + t.Width()
  }

  datatype Value = BoolValue(b: bool) | IntValue(i: int) | FloatValue(bits: nat) | BytesValue(v: Bytes)

  type Cell = Option<Value>

  ghost predicate HasType(t: LeafType, v: Value) {
    && t.Supported()
    && match t
       case Boolean => v.BoolValue?
       case UInt(n) => v.IntValue? && 0 <= v.i < Pow2(8 * n)
       case Int(n) => v.IntValue? && IsSigned(8 * n, v.i)
       case Binary => v.BytesValue?
       case Float(f) => v.FloatValue? && FloatCodes.IsFloat(f, v.bits)
  }

  ghost predicate CellHasType(t: LeafType, c: Cell) {
    t.Supported() && (c.Some? ==> HasType(t, c.value))
  }

  /** `FixedLengthEncoding::encode`. */
  function EncodeValue(t: LeafType, v: Value): (r: Bytes)
    requires HasType(t, v) && !t.Binary?
    ensures |r| == t.Width()
  {
    match t
    case Boolean => [if v.b then 1 else 0]
    case UInt(n) => FixedCodes.BigEndian(n, v.i)
    case Int(n) => FixedCodes.EncodeSigned(n, v.i)
    case Float(f) => FloatCodes.EncodeFloat(f, v.bits)
  }

  /** `FixedLengthEncoding::decode`. */
  function DecodeValue(t: LeafType, b: Bytes): (v: Value)
    requires t.Supported() && !t.Binary? && |b| == t.Width()
  {
    match t
    case Boolean => BoolValue(b[0] != 0)
    case UInt(n) => IntValue(FixedCodes.FromBigEndian(b))
    case Int(n) => IntValue(FixedCodes.DecodeSigned(b))
    case Float(f) => FloatValue(FloatCodes.DecodeFloat(f, b))
  }

  /** The representative a value decodes to: itself, except for NaNs and negative zero. */
  function CanonicalValue(t: LeafType, v: Value): (c: Value)
    requires HasType(t, v)
    ensures HasType(t, c)
  {
    if t.Float? then FloatValue(FloatCodes.Canonical(t.format, v.bits)) else v
  }

  function CanonicalCell(t: LeafType, c: Cell): (r: Cell)
    requires CellHasType(t, c)
    ensures CellHasType(t, r)
  {
    match c
    case None => None
    case Some(v) => Some(CanonicalValue(t, v))
  }

  /** The order of values of one type, stated without reference to their codes. */
  function CompareValues(t: LeafType, v: Value, w: Value): Ordering
    requires HasType(t, v) && HasType(t, w)
  {
    match t
    case Boolean => CompareInt(if v.b then 1 else 0, if w.b then 1 else 0)
    case UInt(_) => CompareInt(v.i, w.i)
    case Int(_) => CompareInt(v.i, w.i)
    case Binary => CompareBytes(v.v, w.v)
    case Float(f) => FloatCodes.CompareFloat(f, v.bits, w.bits)
  }

  lemma ValueOrder(t: LeafType, v: Value, w: Value)
    requires HasType(t, v) && HasType(t, w) && !t.Binary?
    ensures CompareBytes(EncodeValue(t, v), EncodeValue(t, w)) == CompareValues(t, v, w)
  {
    match t
    case Boolean => CompareCons(if v.b then 1 else 0, [], if w.b then 1 else 0, []);
    case UInt(n) => FixedCodes.BigEndianOrder(n, v.i, w.i);
    case Int(n) => FixedCodes.SignedOrder(n, v.i, w.i);
    case Float(f) => FloatCodes.FloatOrder(f, v.bits, w.bits);
  }

  lemma ValueRoundTrip(t: LeafType, v: Value)
    requires HasType(t, v) && !t.Binary?
    ensures DecodeValue(t, EncodeValue(t, v)) == CanonicalValue(t, v)
  {
    match t
    case Boolean =>
    case UInt(n) => FixedCodes.BigEndianRoundTrip(n, v.i);
    case Int(n) => FixedCodes.SignedRoundTrip(n, v.i);
    case Float(f) => FloatCodes.FloatRoundTrip(f, v.bits);
  }

  /** Data bytes that any fixed-width type but the Boolean one can take. */
  ghost predicate Filler(b: Bytes) {
    forall i :: 0 <= i < |b| ==> b[i] == 1 || b[i] == 2
  }

  /** Any filler is the code of some value; for a Boolean, the byte one is. */
  lemma ValueOnto(t: LeafType, b: Bytes)
    requires t.Supported() && !t.Binary? && |b| == t.Width() && Filler(b) && (t.Boolean? ==> b == [1])
    ensures HasType(t, DecodeValue(t, b)) && EncodeValue(t, DecodeValue(t, b)) == b
  {
    hide Pow2, FixedCodes.BigEndian, FixedCodes.FromBigEndian, FixedCodes.EncodeSigned, FixedCodes.DecodeSigned;
    hide FloatCodes.EncodeFloat, FloatCodes.DecodeFloat, Filler;
    match t
    case Boolean =>
    case UInt(n) => FixedCodes.BigEndianOnto(b);
    case Int(n) => FixedCodes.SignedOnto(b);
    case Float(f) => FloatOnto(f, b);
  }

  lemma FloatOnto(f: FloatCodes.Format, b: Bytes)
    requires f in {FloatCodes.BINARY32, FloatCodes.BINARY64} && |b| == f.bytes && Filler(b)
    ensures f.Valid() && FloatCodes.EncodeFloat(f, FloatCodes.DecodeFloat(f, b)) == b
  {
    hide Pow2, FloatCodes.EncodeFloat, FloatCodes.DecodeFloat;
    FloatCodes.FloatOnto(f, b);
  }

  /** Values compare equal exactly when they have the same representative. */
  lemma ValueEqual(t: LeafType, v: Value, w: Value)
    requires HasType(t, v) && HasType(t, w)
    ensures CompareValues(t, v, w) == Equal <==> CanonicalValue(t, v) == CanonicalValue(t, w)
  {
    match t
    case Boolean =>
    case UInt(_) =>
    case Int(_) =>
    case Binary => CompareEqual(v.v, w.v);
    case Float(f) => FloatCodes.FloatEqual(f, v.bits, w.bits);
  }

  /** The bytes of a cell in its row. */
  function SlotCode(field: EncodingField, t: LeafType, c: Cell): (r: Bytes)
    requires CellHasType(t, c)
    ensures !t.Binary? ==> |r| == EncodedSize(t)
  {
    if t.Binary? then BlockCode.CellCode(field, BytesCell(c))
    else match c
      case None => [NullSentinel(field)] + Zeros(t.Width())
      case Some(v) => [1] + InvertIf(field.descending, EncodeValue(t, v))
  }

  function BytesCell(c: Cell): BlockCode.Cell
    requires CellHasType(Binary, c)
  {
    match c
    case None => None
    case Some(v) => Some(v.v)
  }

  /** How two cells of a column compare under the column's options. */
  function CompareCells(field: EncodingField, t: LeafType, a: Cell, b: Cell): Ordering
    requires CellHasType(t, a) && CellHasType(t, b)
  {
    if a.Some? && b.Some? then CompareValues(t, a.value, b.value).ReverseIf(field.descending)
    else CompareNulls(field, a.None?, b.None?)
  }

  lemma FixedSlotOrder(field: EncodingField, t: LeafType, a: Cell, b: Cell)
    requires CellHasType(t, a) && CellHasType(t, b) && !t.Binary?
    ensures CompareBytes(SlotCode(field, t, a), SlotCode(field, t, b)) == CompareCells(field, t, a, b)
  {
    if a.None? && b.None? {
      CompareReflexive(SlotCode(field, t, a));
    } else if a.Some? && b.Some? {
      var x, y := EncodeValue(t, a.value), EncodeValue(t, b.value);
      ValueOrder(t, a.value, b.value);
      CompareInvert(x, y);
      CompareCons(1, InvertIf(field.descending, x), 1, InvertIf(field.descending, y));
    }
  }

  /** Byte order of the codes of two cells is the order of the cells. */
  lemma SlotOrder(field: EncodingField, t: LeafType, a: Cell, b: Cell)
    requires CellHasType(t, a) && CellHasType(t, b) && !(t.Binary? && field.noOrder)
    ensures CompareBytes(SlotCode(field, t, a), SlotCode(field, t, b)) == CompareCells(field, t, a, b)
  {
    if t.Binary? {
      BlockCode.CodeOrder(field, BytesCell(a), BytesCell(b));
    } else {
      FixedSlotOrder(field, t, a, b);
    }
  }

  lemma SlotPrefixFree(field: EncodingField, t: LeafType, a: Cell, b: Cell)
    requires CellHasType(t, a) && CellHasType(t, b) && !(t.Binary? && field.noOrder)
    ensures PrefixFree(SlotCode(field, t, a), SlotCode(field, t, b))
  {
    if t.Binary? {
      BlockCode.CodePrefixFree(field, BytesCell(a), BytesCell(b));
    } else {
      PrefixFreeSameLength(SlotCode(field, t, a), SlotCode(field, t, b));
    }
  }

  /** Cells compare equal exactly when they have the same representative. */
  lemma CellEqual(field: EncodingField, t: LeafType, a: Cell, b: Cell)
    requires CellHasType(t, a) && CellHasType(t, b)
    ensures CompareCells(field, t, a, b) == Equal <==> CanonicalCell(t, a) == CanonicalCell(t, b)
  {
    if a.Some? && b.Some? {
      ValueEqual(t, a.value, b.value);
    }
  }

  // Rows.

  /** One column: its leaf type and its options. */
  datatype Slot = Slot(leaf: LeafType, field: EncodingField) {
    /** Binary and without order: the code does not say where it ends. */
    predicate Open() {
      leaf.Binary? && field.noOrder
    }
  }

  ghost predicate RowHasType(slots: seq<Slot>, row: seq<Cell>) {
    && |row| == |slots|
    && forall k :: 0 <= k < |slots| ==> CellHasType(slots[k].leaf, row[k])
  }

  /** Every code says where it ends; fixed-width columns do so with and without order. */
  ghost predicate SelfDelimiting(slots: seq<Slot>) {
    forall k :: 0 <= k < |slots| ==> !slots[k].Open()
  }

  ghost predicate FixedWidth(slots: seq<Slot>) {
    forall k :: 0 <= k < |slots| ==> !slots[k].leaf.Binary?
  }

  /** A row is the concatenation of the codes of its cells. */
  function RowBytes(slots: seq<Slot>, row: seq<Cell>): (r: Bytes)
    requires RowHasType(slots, row)
  {
    if slots == [] then []
    else SlotCode(slots[0].field, slots[0].leaf, row[0]) + RowBytes(slots[1..], row[1..])
  }

  /** Column by column, the first difference decides. */
  function CompareRows(slots: seq<Slot>, a: seq<Cell>, b: seq<Cell>): Ordering
    requires RowHasType(slots, a) && RowHasType(slots, b)
  {
    if slots == [] then Equal
    else CompareCells(slots[0].field, slots[0].leaf, a[0], b[0]).Then(CompareRows(slots[1..], a[1..], b[1..]))
  }

  function CanonicalRow(slots: seq<Slot>, row: seq<Cell>): (r: seq<Cell>)
    requires RowHasType(slots, row)
    ensures RowHasType(slots, r)
  {
    seq(|row|, k requires 0 <= k < |row| => CanonicalCell(slots[k].leaf, row[k]))
  }

  /**
   * The row format is order preserving: comparing the bytes of two rows is comparing the rows column
   * by column, each column under its own options.
   */
  lemma {:induction false} RowOrder(slots: seq<Slot>, a: seq<Cell>, b: seq<Cell>)
    requires RowHasType(slots, a) && RowHasType(slots, b) && SelfDelimiting(slots)
    ensures CompareBytes(RowBytes(slots, a), RowBytes(slots, b)) == CompareRows(slots, a, b)
  {
    if slots != [] {
      var s := slots[0];
      SlotOrder(s.field, s.leaf, a[0], b[0]);
      SlotPrefixFree(s.field, s.leaf, a[0], b[0]);
      RowOrder(slots[1..], a[1..], b[1..]);
      CompareConcat(SlotCode(s.field, s.leaf, a[0]), SlotCode(s.field, s.leaf, b[0]),
                    RowBytes(slots[1..], a[1..]), RowBytes(slots[1..], b[1..]));
    }
  }

  /** No row's bytes are a proper prefix of another's under the same columns. */
  lemma {:induction false} RowPrefixFree(slots: seq<Slot>, a: seq<Cell>, b: seq<Cell>)
    requires RowHasType(slots, a) && RowHasType(slots, b) && SelfDelimiting(slots)
    ensures PrefixFree(RowBytes(slots, a), RowBytes(slots, b))
  {
    if slots != [] {
      var s := slots[0];
      SlotPrefixFree(s.field, s.leaf, a[0], b[0]);
      RowPrefixFree(slots[1..], a[1..], b[1..]);
      PrefixFreeConcat(SlotCode(s.field, s.leaf, a[0]), SlotCode(s.field, s.leaf, b[0]),
                       RowBytes(slots[1..], a[1..]), RowBytes(slots[1..], b[1..]));
    }
  }

  /** Without binary columns all rows have the same length. */
  lemma {:induction false} FixedRowLength(slots: seq<Slot>, a: seq<Cell>, b: seq<Cell>)
    requires RowHasType(slots, a) && RowHasType(slots, b) && FixedWidth(slots)
    ensures |RowBytes(slots, a)| == |RowBytes(slots, b)|
  {
    if slots != [] {
      FixedRowLength(slots[1..], a[1..], b[1..]);
    }
  }

  lemma {:induction false} CompareRowsEqual(slots: seq<Slot>, a: seq<Cell>, b: seq<Cell>)
    requires RowHasType(slots, a) && RowHasType(slots, b)
    ensures CompareRows(slots, a, b) == Equal <==> CanonicalRow(slots, a) == CanonicalRow(slots, b)
  {
    if slots != [] {
      CellEqual(slots[0].field, slots[0].leaf, a[0], b[0]);
      CompareRowsEqual(slots[1..], a[1..], b[1..]);
      CanonicalCons(slots, a);
      CanonicalCons(slots, b);
    }
  }

  lemma CanonicalCons(slots: seq<Slot>, row: seq<Cell>)
    requires RowHasType(slots, row) && slots != []
    ensures CanonicalRow(slots, row) == [CanonicalCell(slots[0].leaf, row[0])] + CanonicalRow(slots[1..], row[1..])
  {
  }

  /** Equal bytes mean equal rows, up to NaN payloads and the sign of zero; and conversely. */
  lemma RowEquality(slots: seq<Slot>, a: seq<Cell>, b: seq<Cell>)
    requires RowHasType(slots, a) && RowHasType(slots, b) && SelfDelimiting(slots)
    ensures RowBytes(slots, a) == RowBytes(slots, b) <==> CanonicalRow(slots, a) == CanonicalRow(slots, b)
  {
    RowOrder(slots, a, b);
    CompareEqual(RowBytes(slots, a), RowBytes(slots, b));
    CompareRowsEqual(slots, a, b);
  }

  /** Decoded cells are their own canonical form. */
  lemma CanonicalRowFixed(slots: seq<Slot>, row: seq<Cell>)
    requires RowHasType(slots, row)
    ensures CanonicalRow(slots, CanonicalRow(slots, row)) == CanonicalRow(slots, row)
  {
    hide CanonicalCell, CellHasType;
    forall k | 0 <= k < |row|
      ensures CanonicalCell(slots[k].leaf, CanonicalCell(slots[k].leaf, row[k])) == CanonicalCell(slots[k].leaf, row[k])
    {
      CanonicalCellFixed(slots[k].leaf, row[k]);
    }
  }

  lemma CanonicalCellFixed(t: LeafType, c: Cell)
    requires CellHasType(t, c)
    ensures CanonicalCell(t, CanonicalCell(t, c)) == CanonicalCell(t, c)
  {
    if t.Float? && c.Some? {
      FloatCodes.CanonicalIdempotent(t.format, c.value.bits);
    }
  }

  /** Encoding what a row decodes to gives the row's bytes again. */
  lemma Reencoded(slots: seq<Slot>, row: seq<Cell>)
    requires RowHasType(slots, row) && SelfDelimiting(slots)
    ensures RowBytes(slots, CanonicalRow(slots, row)) == RowBytes(slots, row)
  {
    CanonicalRowFixed(slots, row);
    RowEquality(slots, CanonicalRow(slots, row), row);
  }
}
