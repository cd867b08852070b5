/** Decoding rows back into columns, consuming the row slices from the front. */
module RowDecoder {
  import opened ByteStrings
  import opened Options
  import opened EncodingFields
  import opened RowCode
  import opened Columns
  import VariableColumns
  import BlockCode

  datatype DataType = LeafData(leaf: LeafType) | StructData(children: seq<DataType>)

  /** The type of a column, all the decoder is told about it. */
  function TypeOf(c: Column): DataType
    decreases c, 1
  {
    match c
    case Leaf(t, _) => LeafData(t)
    case Struct(children) => StructData(TypesOf(children))
  }

  function TypesOf(cs: seq<Column>): (ts: seq<DataType>)
    ensures |ts| == |cs|
    decreases cs, 0
  {
    if cs == [] then [] else [TypeOf(cs[0])] + TypesOf(cs[1..])
  }

  function CanonicalCells(t: LeafType, cells: seq<Cell>): (r: seq<Cell>)
    requires forall i :: 0 <= i < |cells| ==> CellHasType(t, cells[i])
    ensures |r| == |cells|
    ensures forall i :: 0 <= i < |cells| ==> r[i] == CanonicalCell(t, cells[i])
  {
    seq(|cells|, i requires 0 <= i < |cells| => CanonicalCell(t, cells[i]))
  }

  /** A column with NaNs and negative zeros replaced by their representatives. */
  ghost function CanonicalColumn(c: Column, n: nat): Column
    requires ValidColumn(c, n)
    decreases c, 1
  {
    match c
    case Leaf(t, cells) => Leaf(t, CanonicalCells(t, cells))
    case Struct(children) => Struct(CanonicalColumns(children, n))
  }

  ghost function CanonicalColumns(cs: seq<Column>, n: nat): seq<Column>
    requires forall k :: 0 <= k < |cs| ==> ValidColumn(cs[k], n)
    decreases cs, 0
  {
    if cs == [] then [] else [CanonicalColumn(cs[0], n)] + CanonicalColumns(cs[1..], n)
  }

  /** The bytes of leaf columns in row `i`. */
  ghost function LeafBytes(leaves: seq<LeafColumn>, n: nat, i: nat): Bytes
    requires ValidLeaves(leaves, n) && i < n
  {
    RowBytes(SlotsOf(leaves), RowOf(leaves, n, i))
  }

  lemma LeafBytesOne(l: LeafColumn, n: nat, i: nat)
    requires ValidLeaf(l, n) && i < n
    ensures LeafBytes([l], n, i) == SlotCode(l.slot.field, l.slot.leaf, l.cells[i])
  {
    assert SlotsOf([l])[1..] == [] && RowOf([l], n, i)[1..] == [];
    assert RowBytes([], []) == [];
  }

  lemma LeafBytesCons(leaves: seq<LeafColumn>, n: nat, i: nat)
    requires ValidLeaves(leaves, n) && leaves != [] && i < n
    ensures ValidLeaf(leaves[0], n)
    ensures LeafBytes(leaves, n, i)
         == SlotCode(leaves[0].slot.field, leaves[0].slot.leaf, leaves[0].cells[i]) + LeafBytes(leaves[1..], n, i)
  {
    assert SlotsOf(leaves)[1..] == SlotsOf(leaves[1..]) && RowOf(leaves, n, i)[1..] == RowOf(leaves[1..], n, i);
  }

  lemma {:induction false} LeafBytesConcat(a: seq<LeafColumn>, b: seq<LeafColumn>, n: nat, i: nat)
    requires ValidLeaves(a, n) && ValidLeaves(b, n) && i < n
    ensures ValidLeaves(a + b, n)
    ensures LeafBytes(a + b, n, i) == LeafBytes(a, n, i) + LeafBytes(b, n, i)
    decreases |a|
  {
    if a == [] {
      assert a + b == b && LeafBytes(a, n, i) == [];
    } else {
      assert (a + b)[1..] == a[1..] + b;
      LeafBytesConcat(a[1..], b, n, i);
      LeafBytesCons(a, n, i);
      LeafBytesCons(a + b, n, i);
      hide *;
      ConcatAssoc(SlotCode(a[0].slot.field, a[0].slot.leaf, a[0].cells[i]), LeafBytes(a[1..], n, i), LeafBytes(b, n, i));
    }
  }

  /** Each row starts with the bytes of the given leaf columns and continues with its `rests` entry. */
  ghost predicate StartWith(rows: seq<Bytes>, leaves: seq<LeafColumn>, n: nat, rests: seq<Bytes>) {
    && ValidLeaves(leaves, n)
    && |rows| == |rests| == n
    && forall i :: 0 <= i < n ==> rows[i] == LeafBytes(leaves, n, i) + rests[i]
  }

  /** Rows that start with two groups of columns, seen from the first group. */
  lemma SplitGroups(rows: seq<Bytes>, a: seq<LeafColumn>, b: seq<LeafColumn>, n: nat, rests: seq<Bytes>)
    returns (middles: seq<Bytes>)
    requires ValidLeaves(a, n) && ValidLeaves(b, n) && StartWith(rows, a + b, n, rests)
    ensures StartWith(rows, a, n, middles) && StartWith(middles, b, n, rests)
  {
    middles := seq(n, i requires 0 <= i < n => LeafBytes(b, n, i) + rests[i]);
    forall i | 0 <= i < n
      ensures rows[i] == LeafBytes(a, n, i) + middles[i]
    {
      LeafBytesConcat(a, b, n, i);
      ConcatAssoc(LeafBytes(a, n, i), LeafBytes(b, n, i), rests[i]);
    }
  }

  lemma NoLeaves(rows: seq<Bytes>, n: nat, rests: seq<Bytes>)
    requires StartWith(rows, [], n, rests)
    ensures rows == rests
  {
    forall i | 0 <= i < n
      ensures rows[i] == rests[i]
    {
      assert LeafBytes([], n, i) == [];
    }
  }

  /** A column of one leaf type: each row starts with the code of its cell. */
  ghost predicate StartWithCells(rows: seq<Bytes>, slot: Slot, cells: seq<Cell>, rests: seq<Bytes>) {
    && !slot.field.noOrder
    && |rows| == |cells| == |rests|
    && forall i :: 0 <= i < |cells| ==>
      CellHasType(slot.leaf, cells[i]) && rows[i] == SlotCode(slot.field, slot.leaf, cells[i]) + rests[i]
  }

  lemma OneLeafStarts(rows: seq<Bytes>, l: LeafColumn, n: nat, rests: seq<Bytes>)
    requires StartWith(rows, [l], n, rests) && !l.slot.field.noOrder
    ensures StartWithCells(rows, l.slot, l.cells, rests)
  {
    assert ValidLeaf([l][0], n);
    forall i | 0 <= i < n
      ensures rows[i] == SlotCode(l.slot.field, l.slot.leaf, l.cells[i]) + rests[i]
    {
      LeafBytesOne(l, n, i);
    }
  }

  /** `decode_nulls`. */
  method DecodeNulls(rows: seq<Bytes>, sentinel: Byte) returns (validity: seq<bool>)
    requires forall i :: 0 <= i < |rows| ==> rows[i] != []
    ensures |validity| == |rows|
    ensures forall i :: 0 <= i < |rows| ==> validity[i] == (rows[i][0] != sentinel)
  {
    validity := [];
    for i := 0 to |rows|
      invariant |validity| == i
      invariant forall j :: 0 <= j < i ==> validity[j] == (rows[j][0] != sentinel)
    {
      validity := validity + [rows[i][0] != sentinel];
    }
  }

  /** `has_nulls`. */
  method HasNulls(rows: seq<Bytes>, sentinel: Byte) returns (r: bool)
    requires forall i :: 0 <= i < |rows| ==> rows[i] != []
    ensures r <==> exists i :: 0 <= i < |rows| && rows[i][0] == sentinel
  {
    r := false;
    for i := 0 to |rows|
      invariant r <==> exists j :: 0 <= j < i && rows[j][0] == sentinel
    {
      if rows[i][0] == sentinel {
        r := true;
      }
    }
  }

  /** An array with an optional validity bitmap, as cells. */
  function WithValidity(values: seq<Value>, validity: Option<seq<bool>>): (cells: seq<Cell>)
    requires validity.Some? ==> |validity.value| == |values|
    ensures |cells| == |values|
    ensures forall i :: 0 <= i < |values| ==>
      cells[i] == if validity.None? || validity.value[i] then Some(values[i]) else None
  {
    seq(|values|, i requires 0 <= i < |values| =>
      if validity.None? || validity.value[i] then Some(values[i]) else None)
  }

  /** The validity byte of a cell is the null sentinel exactly for nulls. */
  lemma ValidityByte(slot: Slot, cell: Cell, rest: Bytes)
    requires CellHasType(slot.leaf, cell) && !slot.field.noOrder
    ensures var row := SlotCode(slot.field, slot.leaf, cell) + rest;
            row != [] && (row[0] == NullSentinel(slot.field) <==> cell.None?)
  {
    if slot.leaf.Binary? {
      BlockCode.FirstByte(slot.field, BytesCell(cell));
    }
  }

  /** One step of `decode_primitive` / `decode_bool`; the value of a null is arbitrary. */
  method DecodeFixedValue(row: Bytes, slot: Slot, ghost cell: Cell, ghost rest: Bytes) returns (value: Value)
    requires CellHasType(slot.leaf, cell) && !slot.leaf.Binary?
    requires row == SlotCode(slot.field, slot.leaf, cell) + rest
    ensures cell.Some? ==> Some(value) == CanonicalCell(slot.leaf, cell)
    ensures row[EncodedSize(slot.leaf)..] == rest
  {
    var bytes := row[1..EncodedSize(slot.leaf)];
    if slot.field.descending {
      bytes := Invert(bytes);
    }
    value := DecodeValue(slot.leaf, bytes);
    if cell.Some? {
      ghost var encoded := EncodeValue(slot.leaf, cell.value);
      assert row[1..EncodedSize(slot.leaf)] == InvertIf(slot.field.descending, encoded);
      InvertTwice(encoded);
      ValueRoundTrip(slot.leaf, cell.value);
    }
  }

  lemma AllValidityBytes(rows: seq<Bytes>, slot: Slot, cells: seq<Cell>, rests: seq<Bytes>)
    requires StartWithCells(rows, slot, cells, rests)
    ensures forall i :: 0 <= i < |rows| ==> rows[i] != [] && (rows[i][0] == NullSentinel(slot.field) <==> cells[i].None?)
  {
    forall i | 0 <= i < |rows|
      ensures rows[i] != [] && (rows[i][0] == NullSentinel(slot.field) <==> cells[i].None?)
    {
      ValidityByte(slot, cells[i], rests[i]);
    }
  }

  /** The validity bitmap of a column: absent when no row is null. */
  method DecodeValidity(rows: seq<Bytes>, slot: Slot, ghost cells: seq<Cell>, ghost rests: seq<Bytes>)
    returns (validity: Option<seq<bool>>)
    requires StartWithCells(rows, slot, cells, rests)
    ensures validity.Some? ==> |validity.value| == |rows|
    ensures forall i :: 0 <= i < |cells| ==> (cells[i].None? <==> validity.Some? && !validity.value[i])
    ensures validity.None? <==> forall i :: 0 <= i < |cells| ==> cells[i].Some?
  {
    AllValidityBytes(rows, slot, cells, rests);
    var hasNulls := HasNulls(rows, NullSentinel(slot.field));
    validity := None;
    if hasNulls {
      var v := DecodeNulls(rows, NullSentinel(slot.field));
      validity := Some(v);
    }
  }

  method DecodeFixedValues(rows: seq<Bytes>, slot: Slot, ghost cells: seq<Cell>, ghost rests: seq<Bytes>)
    returns (values: seq<Value>)
    requires StartWithCells(rows, slot, cells, rests) && !slot.leaf.Binary?
    ensures |values| == |rows|
    ensures forall j :: 0 <= j < |rows| ==> cells[j].Some? ==> Some(values[j]) == CanonicalCell(slot.leaf, cells[j])
  {
    values := [];
    for i := 0 to |rows|
      invariant |values| == i
      invariant forall j :: 0 <= j < i ==> cells[j].Some? ==> Some(values[j]) == CanonicalCell(slot.leaf, cells[j])
    {
      var value := DecodeFixedValue(rows[i], slot, cells[i], rests[i]);
      values := values + [value];
    }
  }

  /** `decode_primitive` and `decode_bool`. */
  method DecodeFixed(rows: array<Bytes>, slot: Slot, ghost cells: seq<Cell>, ghost rests: seq<Bytes>)
    returns (decoded: seq<Cell>)
    requires StartWithCells(rows[..], slot, cells, rests) && !slot.leaf.Binary?
    modifies rows
    ensures rows[..] == rests
    ensures decoded == CanonicalCells(slot.leaf, cells)
  {
    var values := DecodeFixedValues(rows[..], slot, cells, rests);
    var validity := DecodeValidity(rows[..], slot, cells, rests);
    IncrementRows(rows, EncodedSize(slot.leaf), slot, cells, rests);
    decoded := WithValidity(values, validity);
    assert decoded == CanonicalCells(slot.leaf, cells);
  }

  /** `increment_row_counter`. */
  method IncrementRows(rows: array<Bytes>, size: nat, ghost slot: Slot, ghost cells: seq<Cell>, ghost rests: seq<Bytes>)
    requires StartWithCells(rows[..], slot, cells, rests) && !slot.leaf.Binary? && size == EncodedSize(slot.leaf)
    modifies rows
    ensures rows[..] == rests
  {
    for i := 0 to rows.Length
      invariant forall j :: 0 <= j < i ==> rows[j] == rests[j]
      invariant forall j :: i <= j < rows.Length ==> rows[j] == old(rows[..])[j]
    {
      assert old(rows[..])[i] == SlotCode(slot.field, slot.leaf, cells[i]) + rests[i];
      rows[i] := rows[i][size..];
    }
  }

  /** `decode_binview` and `decode_binary`. */
  method DecodeBinary(rows: array<Bytes>, slot: Slot, ghost cells: seq<Cell>, ghost rests: seq<Bytes>)
    returns (decoded: seq<Cell>)
    requires StartWithCells(rows[..], slot, cells, rests) && slot.leaf.Binary?
    modifies rows
    ensures rows[..] == rests
    ensures decoded == CanonicalCells(slot.leaf, cells)
  {
    var validity := DecodeValidity(rows[..], slot, cells, rests);
    var values: seq<Value> := [];
    for i := 0 to rows.Length
      invariant |values| == i
      invariant forall j :: 0 <= j < i ==> cells[j].Some? ==> values[j] == cells[j].value
      invariant forall j :: 0 <= j < i ==> rows[j] == rests[j]
      invariant forall j :: i <= j < rows.Length ==> rows[j] == old(rows[..])[j]
    {
      assert old(rows[..])[i] == SlotCode(slot.field, slot.leaf, cells[i]) + rests[i];
      var value, offset := VariableColumns.DecodeOne(rows[i], slot.field, BytesCell(cells[i]), rests[i]);
      rows[i] := rows[i][offset..];
      values := values + [BytesValue(value)];
    }
    decoded := WithValidity(values, validity);
    assert decoded == CanonicalCells(slot.leaf, cells);
  }

  /** `decode`: structural recursion over the type; every leaf consumes its part of each row. */
  method Decode(rows: array<Bytes>, field: EncodingField, t: DataType, ghost c: Column, ghost rests: seq<Bytes>)
    returns (r: Column)
    requires t == TypeOf(c) && !field.noOrder && ValidColumn(c, rows.Length)
    requires StartWith(rows[..], Flatten(c, field), rows.Length, rests)
    modifies rows
    ensures rows[..] == rests
    ensures r == CanonicalColumn(c, rows.Length)
    decreases t, 1
  {
    match t
    case LeafData(leaf) =>
      ghost var l := LeafColumn(Slot(leaf, field), c.cells);
      OneLeafStarts(rows[..], l, rows.Length, rests);
      var cells;
      if leaf.Binary? {
        cells := DecodeBinary(rows, Slot(leaf, field), c.cells, rests);
      } else {
        cells := DecodeFixed(rows, Slot(leaf, field), c.cells, rests);
      }
      r := Leaf(leaf, cells);
    case StructData(children) =>
      var rs := DecodeChildren(rows, field, children, c.children, rests);
      r := Struct(rs);
  }

  method DecodeChildren(rows: array<Bytes>, field: EncodingField, ts: seq<DataType>,
                        ghost cs: seq<Column>, ghost rests: seq<Bytes>)
    returns (rs: seq<Column>)
    requires ts == TypesOf(cs) && !field.noOrder
    requires forall k :: 0 <= k < |cs| ==> ValidColumn(cs[k], rows.Length)
    requires StartWith(rows[..], FlattenAll(cs, field), rows.Length, rests)
    modifies rows
    ensures rows[..] == rests
    ensures rs == CanonicalColumns(cs, rows.Length)
    decreases ts, 0
  {
    if ts == [] {
      rs := [];
      NoLeaves(rows[..], rows.Length, rests);
    } else {
      ghost var n := rows.Length;
      FlattenValid(cs[0], field, n);
      FlattenAllValid(cs[1..], field, n);
      ghost var middles := SplitGroups(rows[..], Flatten(cs[0], field), FlattenAll(cs[1..], field), n, rests);
      var first := Decode(rows, field, ts[0], cs[0], middles);
      var others := DecodeChildren(rows, field, ts[1..], cs[1..], rests);
      rs := [first] + others;
    }
  }

  // Whole tables.

  /** Columns of one height, each with its options. */
  ghost predicate PlainTable(columns: seq<Column>, fields: seq<EncodingField>, n: nat) {
    && |fields| == |columns|
    && forall k :: 0 <= k < |columns| ==> ValidColumn(columns[k], n)
  }

  /** The same, encoded with order. */
  ghost predicate ValidPlain(columns: seq<Column>, fields: seq<EncodingField>, n: nat) {
    PlainTable(columns, fields, n) && forall k :: 0 <= k < |fields| ==> !fields[k].noOrder
  }

  /** All leaf columns of a table, each under the options of its top-level column. */
  ghost function FlattenTable(columns: seq<Column>, fields: seq<EncodingField>): seq<LeafColumn>
    requires |fields| == |columns|
  {
    if columns == [] then [] else Flatten(columns[0], fields[0]) + FlattenTable(columns[1..], fields[1..])
  }

  lemma {:induction false} FlattenTableValid(columns: seq<Column>, fields: seq<EncodingField>, n: nat)
    requires PlainTable(columns, fields, n)
    ensures ValidLeaves(FlattenTable(columns, fields), n)
  {
    if columns != [] {
      FlattenValid(columns[0], fields[0], n);
      FlattenTableValid(columns[1..], fields[1..], n);
    }
  }

  /** The column at hand and the ones after it. */
  lemma FromColumn(columns: seq<Column>, fields: seq<EncodingField>, types: seq<DataType>, n: nat, k: nat)
    requires k < |columns| == |fields| == |types| && ValidPlain(columns[k..], fields[k..], n)
    requires types[k..] == TypesOf(columns[k..])
    ensures ValidColumn(columns[k], n) && !fields[k].noOrder && types[k] == TypeOf(columns[k])
    ensures ValidPlain(columns[k + 1..], fields[k + 1..], n) && types[k + 1..] == TypesOf(columns[k + 1..])
    ensures ValidLeaves(Flatten(columns[k], fields[k]), n) && ValidLeaves(FlattenTable(columns[k + 1..], fields[k + 1..]), n)
    ensures FlattenTable(columns[k..], fields[k..])
         == Flatten(columns[k], fields[k]) + FlattenTable(columns[k + 1..], fields[k + 1..])
    ensures CanonicalColumns(columns[k..], n) == [CanonicalColumn(columns[k], n)] + CanonicalColumns(columns[k + 1..], n)
  {
    assert columns[k..][0] == columns[k] && fields[k..][0] == fields[k] && types[k..][0] == types[k];
    assert columns[k..][1..] == columns[k + 1..] && fields[k..][1..] == fields[k + 1..] && types[k..][1..] == types[k + 1..];
    FlattenValid(columns[k], fields[k], n);
    FlattenTableValid(columns[k + 1..], fields[k + 1..], n);
  }

  /** `decode_rows`: one column after the other, each from what the earlier ones left of the rows. */
  method DecodeRows(rows: array<Bytes>, fields: seq<EncodingField>, types: seq<DataType>, ghost columns: seq<Column>)
    returns (decoded: seq<Column>)
    requires ValidPlain(columns, fields, rows.Length) && types == TypesOf(columns)
    requires StartWith(rows[..], FlattenTable(columns, fields), rows.Length, seq(rows.Length, _ => []))
    modifies rows
    ensures decoded == CanonicalColumns(columns, rows.Length)
    ensures forall i :: 0 <= i < rows.Length ==> rows[i] == []
  {
    ghost var n := rows.Length;
    ghost var nothing: seq<Bytes> := seq(n, _ => []);
    decoded := [];
    var k := 0;
    assert columns[0..] == columns && fields[0..] == fields;
    while k < |types|
      invariant 0 <= k <= |types| == |columns|
      invariant ValidPlain(columns[k..], fields[k..], n)
      invariant types[k..] == TypesOf(columns[k..])
      invariant StartWith(rows[..], FlattenTable(columns[k..], fields[k..]), n, nothing)
      invariant CanonicalColumns(columns, n) == decoded + CanonicalColumns(columns[k..], n)
    {
      ghost var c, rest := columns[k], columns[k + 1..];
      FromColumn(columns, fields, types, n, k);
      hide ValidPlain, TypesOf, TypeOf, StartWith, FlattenTable, Flatten, CanonicalColumns, CanonicalColumn;
      ghost var middles := SplitGroups(rows[..], Flatten(c, fields[k]), FlattenTable(rest, fields[k + 1..]), n, nothing);
      var column := Decode(rows, fields[k], types[k], c, middles);
      ConcatAssoc(decoded, [column], CanonicalColumns(rest, n));
      decoded := decoded + [column];
      k := k + 1;
    }
    NoLeaves(rows[..], n, nothing);
  }
}
