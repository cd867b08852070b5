/** Nested columns, their flattening into leaf columns, and the conversion of columns into rows. */
module Columns {
  import opened ByteStrings
  import opened Options
  import opened EncodingFields
  import opened RowCode
  import opened RowEncoder
  import opened ListCode
  import BlockCode

  /** A leaf column together with the options it is encoded under. */
  datatype LeafColumn = LeafColumn(slot: Slot, cells: seq<Cell>)

  /** Arrow columns: leaves and structs without outer nulls. */
  datatype Column =
    | Leaf(leaf: LeafType, cells: seq<Cell>)
    | Struct(children: seq<Column>)

  ghost predicate ValidLeaf(l: LeafColumn, n: nat) {
    && l.slot.leaf.Supported()
    && |l.cells| == n
    && forall i :: 0 <= i < n ==> CellHasType(l.slot.leaf, l.cells[i])
  }

  ghost predicate ValidLeaves(leaves: seq<LeafColumn>, n: nat) {
    forall k :: 0 <= k < |leaves| ==> ValidLeaf(leaves[k], n)
  }

  ghost predicate ValidColumn(c: Column, n: nat) {
    match c
    case Leaf(t, cells) => ValidLeaf(LeafColumn(Slot(t, UNSORTED), cells), n)
    case Struct(children) => forall k :: 0 <= k < |children| ==> ValidColumn(children[k], n)
  }

  /** `get_encoders`: depth-first, every leaf under the options of its column. */
  function Flatten(c: Column, field: EncodingField): seq<LeafColumn>
    decreases c, 1
  {
    match c
    case Leaf(t, cells) => [LeafColumn(Slot(t, field), cells)]
    case Struct(children) => FlattenAll(children, field)
  }

  function FlattenAll(cs: seq<Column>, field: EncodingField): seq<LeafColumn>
    decreases cs, 0
  {
    if cs == [] then [] else Flatten(cs[0], field) + FlattenAll(cs[1..], field)
  }

  lemma {:induction false} FlattenValid(c: Column, field: EncodingField, n: nat)
    requires ValidColumn(c, n)
    ensures ValidLeaves(Flatten(c, field), n)
    decreases c, 1
  {
    if c.Struct? {
      FlattenAllValid(c.children, field, n);
    }
  }

  lemma {:induction false} FlattenAllValid(cs: seq<Column>, field: EncodingField, n: nat)
    requires forall k :: 0 <= k < |cs| ==> ValidColumn(cs[k], n)
    ensures ValidLeaves(FlattenAll(cs, field), n)
    decreases cs, 0
  {
    if cs != [] {
      FlattenValid(cs[0], field, n);
      FlattenAllValid(cs[1..], field, n);
    }
  }

  function SlotsOf(leaves: seq<LeafColumn>): (s: seq<Slot>)
    ensures |s| == |leaves|
    ensures forall k :: 0 <= k < |leaves| ==> s[k] == leaves[k].slot
  {
    seq(|leaves|, k requires 0 <= k < |leaves| => leaves[k].slot)
  }

  /** Row `i` of a table of leaf columns. */
  ghost function RowOf(leaves: seq<LeafColumn>, n: nat, i: nat): (r: seq<Cell>)
    requires ValidLeaves(leaves, n) && i < n
    ensures RowHasType(SlotsOf(leaves), r)
    ensures forall k :: 0 <= k < |leaves| ==> r[k] == leaves[k].cells[i]
  {
    seq(|leaves|, k requires 0 <= k < |leaves| => leaves[k].cells[i])
  }

  ghost function TableRows(leaves: seq<LeafColumn>, n: nat): (rows: seq<seq<Cell>>)
    requires ValidLeaves(leaves, n)
    ensures |rows| == n
    ensures forall i :: 0 <= i < n ==> rows[i] == RowOf(leaves, n, i) && RowHasType(SlotsOf(leaves), rows[i])
  {
    seq(n, i requires 0 <= i < n => RowOf(leaves, n, i))
  }

  /** The pass that encodes a leaf column. */
  function LeafEncoder(l: LeafColumn): (e: Encoder)
    requires forall i :: 0 <= i < |l.cells| ==> CellHasType(l.slot.leaf, l.cells[i])
    ensures e.Rows() == |l.cells|
  {
    if l.slot.leaf.Binary? then
      Variable(l.slot.field, seq(|l.cells|, i requires 0 <= i < |l.cells| => BytesCell(l.cells[i])))
    else
      Fixed(l.slot.leaf, l.slot.field, l.cells)
  }

  function LeafEncoders(leaves: seq<LeafColumn>, ghost n: nat): (es: seq<Encoder>)
    requires ValidLeaves(leaves, n)
    ensures |es| == |leaves| && ValidEncoders(es, n)
    ensures forall k :: 0 <= k < |leaves| ==> ValidLeaf(leaves[k], n) && es[k] == LeafEncoder(leaves[k])
  {
    seq(|leaves|, k requires 0 <= k < |leaves| => assert ValidLeaf(leaves[k], n); LeafEncoder(leaves[k]))
  }

  lemma LeafEncoderCode(l: LeafColumn, n: nat, i: nat)
    requires ValidLeaf(l, n) && i < n
    ensures LeafEncoder(l).Valid() && LeafEncoder(l).CodeAt(i) == SlotCode(l.slot.field, l.slot.leaf, l.cells[i])
  {
  }

  lemma OnePass(before: seq<Encoder>, e: Encoder, n: nat, i: nat)
    requires ValidEncoders(before, n) && e.Valid() && e.Rows() == n && i < n
    ensures ValidEncoders(before + [e], n)
    ensures RowSoFar(before + [e], n, i) == RowSoFar(before, n, i) + e.CodeAt(i)
  {
    assert (before + [e])[..|before|] == before;
  }

  lemma RowCons(leaves: seq<LeafColumn>, n: nat, i: nat)
    requires ValidLeaves(leaves, n) && leaves != [] && i < n
    ensures LeafEncoder(leaves[0]).Valid()
    ensures RowBytes(SlotsOf(leaves), RowOf(leaves, n, i))
         == LeafEncoder(leaves[0]).CodeAt(i) + RowBytes(SlotsOf(leaves[1..]), RowOf(leaves[1..], n, i))
  {
    LeafEncoderCode(leaves[0], n, i);
    assert SlotsOf(leaves)[1..] == SlotsOf(leaves[1..]) && RowOf(leaves, n, i)[1..] == RowOf(leaves[1..], n, i);
  }

  lemma EncodersCons(before: seq<Encoder>, leaves: seq<LeafColumn>, n: nat)
    requires ValidLeaves(leaves, n) && leaves != []
    ensures ValidLeaves(leaves[1..], n)
    ensures forall i :: 0 <= i < |leaves[0].cells| ==> CellHasType(leaves[0].slot.leaf, leaves[0].cells[i])
    ensures LeafEncoder(leaves[0]).Rows() == n
    ensures before + LeafEncoders(leaves, n) == (before + [LeafEncoder(leaves[0])]) + LeafEncoders(leaves[1..], n)
  {
    assert ValidLeaf(leaves[0], n);
    LeafEncodersCons(leaves, n);
    ConcatAssoc(before, [LeafEncoder(leaves[0])], LeafEncoders(leaves[1..], n));
  }

  lemma LeafEncodersCons(leaves: seq<LeafColumn>, n: nat)
    requires ValidLeaves(leaves, n) && leaves != []
    ensures ValidLeaf(leaves[0], n)
    ensures LeafEncoders(leaves, n) == [LeafEncoder(leaves[0])] + LeafEncoders(leaves[1..], n)
  {
  }

  /** Passes over leaf columns append the row bytes of those columns. */
  lemma {:induction false} LeafPasses(before: seq<Encoder>, leaves: seq<LeafColumn>, n: nat, i: nat)
    requires ValidEncoders(before, n) && ValidLeaves(leaves, n) && i < n
    ensures ValidEncoders(before + LeafEncoders(leaves, n), n)
    ensures RowSoFar(before + LeafEncoders(leaves, n), n, i)
         == RowSoFar(before, n, i) + RowBytes(SlotsOf(leaves), RowOf(leaves, n, i))
    decreases |leaves|
  {
    if leaves == [] {
      assert before + LeafEncoders(leaves, n) == before;
    } else {
      var rest := leaves[1..];
      EncodersCons(before, leaves, n);
      RowCons(leaves, n, i);
      hide *;
      var e := LeafEncoder(leaves[0]);
      OnePass(before, e, n, i);
      LeafPasses(before + [e], rest, n, i);
      ConcatAssoc(RowSoFar(before, n, i), e.CodeAt(i), RowBytes(SlotsOf(rest), RowOf(rest, n, i)));
    }
  }

  // Top-level columns, some of which are lists.

  datatype TableColumn =
    | Plain(column: Column)
    | List(inner: Column, count: nat, offsets: seq<nat>, validity: seq<bool>)

  ghost predicate ValidTableColumn(c: TableColumn, n: nat) {
    match c
    case Plain(column) => ValidColumn(column, n)
    case List(inner, count, offsets, validity) =>
      && ValidColumn(inner, count)
      && Flatten(inner, UNSORTED) != []
      && |validity| == n
      && |offsets| == n + 1
      && (forall i, j :: 0 <= i <= j <= n ==> offsets[i] <= offsets[j])
      && offsets[n] <= count
  }

  /** List `i` of a list column: null, or the element rows between its offsets. */
  ghost function ListAt(c: TableColumn, field: EncodingField, n: nat, i: nat): (l: OptionalList)
    requires c.List? && ValidTableColumn(c, n) && i < n
    ensures ListHasType(SlotsOf(Flatten(c.inner, field)), l)
  {
    FlattenValid(c.inner, field, c.count);
    assert c.offsets[i + 1] <= c.offsets[n];
    if c.validity[i] then Some(TableRows(Flatten(c.inner, field), c.count)[c.offsets[i]..c.offsets[i + 1]]) else None
  }

  /** The bytes a column contributes to row `i`. */
  ghost function ColumnBytes(c: TableColumn, field: EncodingField, n: nat, i: nat): Bytes
    requires ValidTableColumn(c, n) && i < n
  {
    match c
    case Plain(column) =>
      FlattenValid(column, field, n);
      RowBytes(SlotsOf(Flatten(column, field)), RowOf(Flatten(column, field), n, i))
    case List(inner, _, _, _) =>
      ListBytes(SlotsOf(Flatten(inner, field)), ListAt(c, field, n, i))
  }

  ghost predicate ValidTable(columns: seq<TableColumn>, fields: seq<EncodingField>, n: nat) {
    && |fields| == |columns|
    && forall k :: 0 <= k < |columns| ==> ValidTableColumn(columns[k], n)
  }

  /** Row `i` of a table: the bytes of its columns, one after the other. */
  ghost function TableBytes(columns: seq<TableColumn>, fields: seq<EncodingField>, n: nat, i: nat): Bytes
    requires ValidTable(columns, fields, n) && i < n
  {
    if columns == [] then []
    else
      var last := |columns| - 1;
      TableBytes(columns[..last], fields[..last], n, i) + ColumnBytes(columns[last], fields[last], n, i)
  }

  lemma RowsBytesFrom(slots: seq<Slot>, rows: seq<seq<Cell>>, a: nat, b: nat)
    requires RowsHaveType(slots, rows) && a < b <= |rows|
    ensures RowsBytes(slots, rows[a..b]) == RowBytes(slots, rows[a]) + RowsBytes(slots, rows[a + 1..b])
  {
    assert rows[a..b][1..] == rows[a + 1..b];
  }

  lemma DelimitsAt(values: Bytes, offsets: seq<nat>, codes: seq<Bytes>, a: nat)
    requires Delimits(values, offsets, codes) && a <= |codes|
    ensures |offsets| == |codes| + 1 && offsets[a] <= |values|
    ensures a < |codes| ==> offsets[a] <= offsets[a + 1] <= |values| && values[offsets[a]..offsets[a + 1]] == codes[a]
  {
    if a < |codes| {
      assert codes[a] == values[offsets[a]..offsets[a] + |codes[a]|];
    }
  }

  /** Consecutive rows of a finished buffer are one slice of it. */
  lemma {:induction false} SliceRows(values: Bytes, offsets: seq<nat>, codes: seq<Bytes>,
                                     slots: seq<Slot>, rows: seq<seq<Cell>>, a: nat, b: nat)
    requires Delimits(values, offsets, codes) && |codes| == |rows| && RowsHaveType(slots, rows)
    requires forall j :: 0 <= j < |rows| ==> codes[j] == RowBytes(slots, rows[j])
    requires a <= b <= |rows|
    ensures |offsets| == |rows| + 1 && offsets[a] <= offsets[b] <= |values|
    ensures values[offsets[a]..offsets[b]] == RowsBytes(slots, rows[a..b])
    decreases b - a
  {
    DelimitsAt(values, offsets, codes, a);
    if a == b {
      assert rows[a..b] == [];
    } else {
      SliceRows(values, offsets, codes, slots, rows, a + 1, b);
      RowsBytesFrom(slots, rows, a, b);
      assert codes[a] == RowBytes(slots, rows[a]);
      hide *;
      JoinSlices(values, offsets[a], offsets[a + 1], offsets[b]);
    }
  }

  lemma JoinSlices(s: Bytes, a: nat, b: nat, c: nat)
    requires a <= b <= c <= |s|
    ensures s[a..c] == s[a..b] + s[b..c]
  {
  }

  /** The finished element buffer of a list column. */
  ghost predicate HoldsElements(values: Bytes, rowOffsets: seq<nat>, c: TableColumn, field: EncodingField) {
    && c.List?
    && var leaves := Flatten(c.inner, field);
       && ValidLeaves(leaves, c.count)
       && Delimits(values, rowOffsets, ElementCodes(leaves, c.count))
  }

  ghost function ElementCodes(leaves: seq<LeafColumn>, count: nat): (codes: seq<Bytes>)
    requires ValidLeaves(leaves, count)
    ensures |codes| == count
    ensures forall j :: 0 <= j < count ==> codes[j] == RowBytes(SlotsOf(leaves), TableRows(leaves, count)[j])
  {
    seq(count, j requires 0 <= j < count => RowBytes(SlotsOf(leaves), TableRows(leaves, count)[j]))
  }

  lemma ListSlice(values: Bytes, rowOffsets: seq<nat>, c: TableColumn, field: EncodingField, n: nat, i: nat)
    requires ValidTableColumn(c, n) && HoldsElements(values, rowOffsets, c, field) && i < n
    ensures i + 1 < |c.offsets| && c.offsets[i] < |rowOffsets| && c.offsets[i + 1] < |rowOffsets|
    ensures rowOffsets[c.offsets[i]] <= rowOffsets[c.offsets[i + 1]] <= |values|
    ensures ListString(SlotsOf(Flatten(c.inner, field)), ListAt(c, field, n, i))
         == if c.validity[i] then Some(values[rowOffsets[c.offsets[i]]..rowOffsets[c.offsets[i + 1]]]) else None
  {
    var leaves := Flatten(c.inner, field);
    assert c.offsets[i] <= c.offsets[i + 1] <= c.offsets[n];
    SliceRows(values, rowOffsets, ElementCodes(leaves, c.count), SlotsOf(leaves), TableRows(leaves, c.count),
              c.offsets[i], c.offsets[i + 1]);
  }

  lemma ListShape(values: Bytes, rowOffsets: seq<nat>, c: TableColumn, field: EncodingField, n: nat)
    requires ValidTableColumn(c, n) && HoldsElements(values, rowOffsets, c, field)
    ensures c.List? && |c.validity| == n
  {
  }

  /** What the variable-length pass is given for every row of a list column. */
  ghost function ListStrings(c: TableColumn, field: EncodingField, n: nat): (r: seq<BlockCode.Cell>)
    requires c.List? && ValidTableColumn(c, n)
    ensures |r| == n
  {
    seq(n, i requires 0 <= i < n => ListString(SlotsOf(Flatten(c.inner, field)), ListAt(c, field, n, i)))
  }

  lemma ListStringAt(c: TableColumn, field: EncodingField, n: nat, i: nat)
    requires c.List? && ValidTableColumn(c, n) && i < n
    ensures ListStrings(c, field, n)[i] == ListString(SlotsOf(Flatten(c.inner, field)), ListAt(c, field, n, i))
  {
  }

  /** `list_iter`: each valid list is the slice of the element buffer that its elements occupy. */
  method ListIter(values: Bytes, rowOffsets: seq<nat>, c: TableColumn, ghost field: EncodingField, ghost n: nat)
    returns (strings: seq<BlockCode.Cell>)
    requires ValidTableColumn(c, n) && HoldsElements(values, rowOffsets, c, field)
    ensures c.List? && strings == ListStrings(c, field, n)
  {
    hide ListStrings, HoldsElements, ValidTableColumn;
    ListShape(values, rowOffsets, c, field, n);
    strings := [];
    ghost var expected := ListStrings(c, field, n);
    for i := 0 to |c.validity|
      invariant strings == expected[..i]
    {
      var slice := ListSliceAt(values, rowOffsets, c, field, n, i);
      assert expected[..i + 1] == expected[..i] + [expected[i]];
      strings := strings + [slice];
    }
    assert expected[..n] == expected;
  }

  /** One step of `list_iter`. */
  method ListSliceAt(values: Bytes, rowOffsets: seq<nat>, c: TableColumn, ghost field: EncodingField, ghost n: nat, i: nat)
    returns (slice: BlockCode.Cell)
    requires ValidTableColumn(c, n) && HoldsElements(values, rowOffsets, c, field) && i < n
    ensures c.List? && slice == ListStrings(c, field, n)[i]
  {
    assert c.List? && |c.validity| == n;
    hide ListString, ListStrings, ListAt, HoldsElements, Delimits;
    ListStringAt(c, field, n, i);
    ListSlice(values, rowOffsets, c, field, n, i);
    slice := None;
    if c.validity[i] {
      var start, end := rowOffsets[c.offsets[i]], rowOffsets[c.offsets[i + 1]];
      slice := Some(values[start..end]);
    }
  }

  lemma ElementPasses(leaves: seq<LeafColumn>, count: nat)
    requires ValidLeaves(leaves, count)
    ensures RowsSoFar(LeafEncoders(leaves, count), count) == ElementCodes(leaves, count)
  {
    assert [] + LeafEncoders(leaves, count) == LeafEncoders(leaves, count);
    forall i | 0 <= i < count
      ensures RowSoFar(LeafEncoders(leaves, count), count, i) == ElementCodes(leaves, count)[i]
    {
      LeafPasses([], leaves, count, i);
      assert RowSoFar([], count, i) == [];
    }
  }

  /** The part of `allocate_rows_buf` that encodes the elements of a list column right away. */
  method EncodeElements(c: TableColumn, field: EncodingField, ghost n: nat) returns (values: Bytes, rowOffsets: seq<nat>)
    requires c.List? && ValidTableColumn(c, n)
    ensures HoldsElements(values, rowOffsets, c, field)
  {
    var leaves := Flatten(c.inner, field);
    FlattenValid(c.inner, field, c.count);
    FlattenSize(c.inner, field, UNSORTED);
    var encoders := LeafEncoders(leaves, c.count);
    ElementPasses(leaves, c.count);
    var inner := new RowsEncoded();
    inner.Encode(encoders);
    values, rowOffsets := inner.values[..inner.len], inner.offsets;
  }

  lemma {:induction false} FlattenSize(c: Column, f: EncodingField, g: EncodingField)
    ensures |Flatten(c, f)| == |Flatten(c, g)|
    decreases c, 1
  {
    if c.Struct? {
      FlattenAllSize(c.children, f, g);
    }
  }

  lemma {:induction false} FlattenAllSize(cs: seq<Column>, f: EncodingField, g: EncodingField)
    ensures |FlattenAll(cs, f)| == |FlattenAll(cs, g)|
    decreases cs, 0
  {
    if cs != [] {
      FlattenSize(cs[0], f, g);
      FlattenAllSize(cs[1..], f, g);
    }
  }

  /** The encoders of the columns taken so far produce exactly the bytes of those columns. */
  ghost predicate Produces(encoders: seq<Encoder>, columns: seq<TableColumn>, fields: seq<EncodingField>, n: nat) {
    && ValidTable(columns, fields, n)
    && ValidEncoders(encoders, n)
    && forall i :: 0 <= i < n ==> RowSoFar(encoders, n, i) == TableBytes(columns, fields, n, i)
  }

  lemma TableBytesNext(columns: seq<TableColumn>, fields: seq<EncodingField>, n: nat, i: nat, k: nat)
    requires ValidTable(columns, fields, n) && i < n && k < |columns|
    ensures TableBytes(columns[..k + 1], fields[..k + 1], n, i)
         == TableBytes(columns[..k], fields[..k], n, i) + ColumnBytes(columns[k], fields[k], n, i)
  {
    assert columns[..k + 1][..k] == columns[..k] && fields[..k + 1][..k] == fields[..k];
  }

  lemma AddPlain(encoders: seq<Encoder>, columns: seq<TableColumn>, fields: seq<EncodingField>, n: nat, k: nat)
    requires ValidTable(columns, fields, n) && k < |columns| && columns[k].Plain?
    requires Produces(encoders, columns[..k], fields[..k], n)
    ensures ValidLeaves(Flatten(columns[k].column, fields[k]), n)
    ensures Produces(encoders + LeafEncoders(Flatten(columns[k].column, fields[k]), n),
                     columns[..k + 1], fields[..k + 1], n)
  {
    var leaves := Flatten(columns[k].column, fields[k]);
    assert ValidTableColumn(columns[k], n);
    FlattenValid(columns[k].column, fields[k], n);
    assert ValidTable(columns[..k + 1], fields[..k + 1], n);
    forall i | 0 <= i < n
      ensures RowSoFar(encoders + LeafEncoders(leaves, n), n, i) == TableBytes(columns[..k + 1], fields[..k + 1], n, i)
    {
      LeafPasses(encoders, leaves, n, i);
      TableBytesNext(columns, fields, n, i, k);
    }
  }

  lemma AddList(encoders: seq<Encoder>, columns: seq<TableColumn>, fields: seq<EncodingField>, n: nat, k: nat,
                strings: seq<BlockCode.Cell>)
    requires ValidTable(columns, fields, n) && k < |columns| && columns[k].List?
    requires Produces(encoders, columns[..k], fields[..k], n)
    requires ValidTableColumn(columns[k], n) && strings == ListStrings(columns[k], fields[k], n)
    ensures Produces(encoders + [Variable(UNSORTED, strings)], columns[..k + 1], fields[..k + 1], n)
  {
    var e := Variable(UNSORTED, strings);
    assert ValidTable(columns[..k + 1], fields[..k + 1], n);
    forall i | 0 <= i < n
      ensures RowSoFar(encoders + [e], n, i) == TableBytes(columns[..k + 1], fields[..k + 1], n, i)
    {
      OnePass(encoders, e, n, i);
      TableBytesNext(columns, fields, n, i, k);
      ListStringAt(columns[k], fields[k], n, i);
    }
  }

  /** Some column has a leaf to encode. */
  ghost predicate HasLeaf(columns: seq<TableColumn>) {
    exists k :: 0 <= k < |columns| && (columns[k].List? || Flatten(columns[k].column, UNSORTED) != [])
  }

  ghost function TableCodes(columns: seq<TableColumn>, fields: seq<EncodingField>, n: nat): (codes: seq<Bytes>)
    requires ValidTable(columns, fields, n)
    ensures |codes| == n
    ensures forall i :: 0 <= i < n ==> codes[i] == TableBytes(columns, fields, n, i)
  {
    seq(n, i requires 0 <= i < n => TableBytes(columns, fields, n, i))
  }

  /** Flattening of all columns, with the elements of list columns already encoded. */
  method GetEncoders(columns: seq<TableColumn>, fields: seq<EncodingField>, ghost n: nat) returns (encoders: seq<Encoder>)
    requires ValidTable(columns, fields, n)
    ensures Produces(encoders, columns, fields, n)
    ensures HasLeaf(columns) ==> encoders != []
  {
    encoders := [];
    for k := 0 to |columns|
      invariant Produces(encoders, columns[..k], fields[..k], n)
      invariant forall j :: 0 <= j < k ==>
        columns[j].List? || Flatten(columns[j].column, UNSORTED) != [] ==> encoders != []
    {
      assert ValidTableColumn(columns[k], n);
      hide Produces, ListStrings, ValidTableColumn, Flatten;
      if columns[k].Plain? {
        AddPlain(encoders, columns, fields, n, k);
        FlattenSize(columns[k].column, fields[k], UNSORTED);
        encoders := encoders + LeafEncoders(Flatten(columns[k].column, fields[k]), n);
      } else {
        var strings := EncodeList(columns[k], fields[k], n);
        AddList(encoders, columns, fields, n, k, strings);
        encoders := encoders + [Variable(UNSORTED, strings)];
      }
    }
    assert columns[..|columns|] == columns && fields[..|fields|] == fields;
  }

  /** A list column: its elements are encoded once, and every row gets its slice of them. */
  method EncodeList(c: TableColumn, field: EncodingField, ghost n: nat) returns (strings: seq<BlockCode.Cell>)
    requires c.List? && ValidTableColumn(c, n)
    ensures strings == ListStrings(c, field, n)
  {
    hide ListStrings, HoldsElements, ValidTableColumn;
    var values, rowOffsets := EncodeElements(c, field, n);
    strings := ListIter(values, rowOffsets, c, field, n);
  }

  /** `convert_columns`: the buffer holds the bytes of every row, delimited by the offsets. */
  method ConvertColumns(columns: seq<TableColumn>, fields: seq<EncodingField>, ghost n: nat) returns (rows: RowsEncoded)
    requires ValidTable(columns, fields, n) && HasLeaf(columns)
    ensures fresh(rows) && fresh(rows.values)
    ensures rows.Finished(TableCodes(columns, fields, n))
  {
    var encoders := GetEncoders(columns, fields, n);
    rows := new RowsEncoded();
    rows.Encode(encoders);
    assert RowsSoFar(encoders, n) == TableCodes(columns, fields, n);
  }
}
