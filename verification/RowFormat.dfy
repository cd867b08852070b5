/** The row format end to end: encoding preserves order, and decoding undoes encoding. */
module RowFormat {
  import opened ByteStrings
  import opened EncodingFields
  import opened RowCode
  import opened RowEncoder
  import opened Columns
  import opened RowDecoder
  import opened ListCode
  import opened UnorderedKeys
  import opened NestedRows
  import opened Records

  function AsTable(columns: seq<Column>): (t: seq<TableColumn>)
    ensures |t| == |columns|
    ensures forall k :: 0 <= k < |columns| ==> t[k] == Plain(columns[k])
  {
    seq(|columns|, k requires 0 <= k < |columns| => Plain(columns[k]))
  }

  lemma {:induction false} FlattenTableAppend(columns: seq<Column>, fields: seq<EncodingField>, c: Column, f: EncodingField)
    requires |fields| == |columns|
    ensures FlattenTable(columns + [c], fields + [f]) == FlattenTable(columns, fields) + Flatten(c, f)
  {
    if columns == [] {
      assert ([c])[1..] == [] && ([f])[1..] == [];
      assert columns + [c] == [c] && fields + [f] == [f];
      assert FlattenTable([c], [f]) == Flatten(c, f) + FlattenTable([], []);
    } else {
      assert (columns + [c])[1..] == columns[1..] + [c] && (fields + [f])[1..] == fields[1..] + [f];
      FlattenTableAppend(columns[1..], fields[1..], c, f);
      ConcatAssoc(Flatten(columns[0], fields[0]), FlattenTable(columns[1..], fields[1..]), Flatten(c, f));
    }
  }

  /** A table without lists is the row format of its flattened leaf columns. */
  lemma {:induction false} PlainTableBytes(columns: seq<Column>, fields: seq<EncodingField>, n: nat, i: nat)
    requires PlainTable(columns, fields, n) && i < n
    ensures ValidTable(AsTable(columns), fields, n) && ValidLeaves(FlattenTable(columns, fields), n)
    ensures TableBytes(AsTable(columns), fields, n, i) == LeafBytes(FlattenTable(columns, fields), n, i)
    decreases |columns|
  {
    FlattenTableValid(columns, fields, n);
    if columns != [] {
      var last := |columns| - 1;
      var before, c, f := columns[..last], columns[last], fields[last];
      assert columns == before + [c] && fields == fields[..last] + [f];
      assert AsTable(columns)[..last] == AsTable(before);
      PlainTableBytes(before, fields[..last], n, i);
      FlattenValid(c, f, n);
      FlattenTableAppend(before, fields[..last], c, f);
      LeafBytesConcat(FlattenTable(before, fields[..last]), Flatten(c, f), n, i);
    }
  }

  /**
   * Comparing two rows of the encoded table byte by byte is comparing the rows of the table column by
   * column, and equal bytes mean equal rows up to NaNs and the sign of zero.
   */
  lemma TableOrder(columns: seq<Column>, fields: seq<EncodingField>, n: nat, i: nat, j: nat)
    requires ValidPlain(columns, fields, n) && i < n && j < n
    ensures ValidTable(AsTable(columns), fields, n)
    ensures
      var x, y := TableBytes(AsTable(columns), fields, n, i), TableBytes(AsTable(columns), fields, n, j);
      && CompareBytes(x, y) == CompareTable(columns, fields, n, i, j)
      && (x == y <==> SameValues(columns, n, i, j))
  {
    hide TableBytes, CompareRows, CompareBytes, CompareTable, SameValues, Flatten;
    PlainTableBytes(columns, fields, n, i);
    PlainTableBytes(columns, fields, n, j);
    FlattenTableOrdered(columns, fields);
    FlattenTableOrder(columns, fields, n, i, j);
    TableEqual(columns, fields, n, i, j);
    var leaves := FlattenTable(columns, fields);
    RowOrder(SlotsOf(leaves), RowOf(leaves, n, i), RowOf(leaves, n, j));
    CompareEqual(LeafBytes(leaves, n, i), LeafBytes(leaves, n, j));
  }

  lemma {:induction false} FlattenOrdered(c: Column, field: EncodingField)
    requires !field.noOrder
    ensures SelfDelimiting(SlotsOf(Flatten(c, field)))
    decreases c, 1
  {
    if c.Struct? {
      FlattenAllOrdered(c.children, field);
    }
  }

  lemma {:induction false} FlattenAllOrdered(cs: seq<Column>, field: EncodingField)
    requires !field.noOrder
    ensures SelfDelimiting(SlotsOf(FlattenAll(cs, field)))
    decreases cs, 0
  {
    if cs != [] {
      FlattenOrdered(cs[0], field);
      FlattenAllOrdered(cs[1..], field);
      assert SlotsOf(FlattenAll(cs, field)) == SlotsOf(Flatten(cs[0], field)) + SlotsOf(FlattenAll(cs[1..], field));
    }
  }

  lemma {:induction false} FlattenTableOrdered(columns: seq<Column>, fields: seq<EncodingField>)
    requires |fields| == |columns| && forall k :: 0 <= k < |fields| ==> !fields[k].noOrder
    ensures SelfDelimiting(SlotsOf(FlattenTable(columns, fields)))
  {
    if columns != [] {
      FlattenOrdered(columns[0], fields[0]);
      FlattenTableOrdered(columns[1..], fields[1..]);
      assert SlotsOf(FlattenTable(columns, fields))
          == SlotsOf(Flatten(columns[0], fields[0])) + SlotsOf(FlattenTable(columns[1..], fields[1..]));
    }
  }

  lemma {:induction false} TableBytesConcat(a: seq<TableColumn>, f: seq<EncodingField>, b: seq<TableColumn>, g: seq<EncodingField>,
                                            n: nat, i: nat)
    requires ValidTable(a, f, n) && ValidTable(b, g, n) && i < n
    ensures ValidTable(a + b, f + g, n)
    ensures TableBytes(a + b, f + g, n, i) == TableBytes(a, f, n, i) + TableBytes(b, g, n, i)
    decreases |b|
  {
    hide ValidTableColumn, ColumnBytes;
    if b == [] {
      assert a + b == a && f + g == f;
    } else {
      var k := |b| - 1;
      TableBytesConcat(a, f, b[..k], g[..k], n, i);
      assert (a + b)[..|a + b| - 1] == a + b[..k] && (f + g)[..|a + b| - 1] == f + g[..k];
      ConcatAssoc(TableBytes(a, f, n, i), TableBytes(b[..k], g[..k], n, i), ColumnBytes(b[k], g[k], n, i));
    }
  }

  lemma OneTableColumn(c: TableColumn, f: EncodingField, n: nat, i: nat)
    requires ValidTableColumn(c, n) && i < n
    ensures ValidTable([c], [f], n) && TableBytes([c], [f], n, i) == ColumnBytes(c, f, n, i)
  {
    assert [c][..0] == [] && [f][..0] == [];
  }

  /** The bytes of a row with one list column. */
  lemma AroundListColumn(columns: seq<Column>, fields: seq<EncodingField>, list: TableColumn, field: EncodingField,
                         tail: seq<Column>, options: seq<EncodingField>, n: nat, i: nat)
    requires PlainTable(columns, fields, n) && PlainTable(tail, options, n) && i < n
    requires list.List? && ValidTableColumn(list, n)
    ensures ValidTable(AsTable(columns) + [list] + AsTable(tail), fields + [field] + options, n)
    ensures ValidLeaves(FlattenTable(columns, fields), n) && ValidLeaves(FlattenTable(tail, options), n)
    ensures TableBytes(AsTable(columns) + [list] + AsTable(tail), fields + [field] + options, n, i)
         == LeafBytes(FlattenTable(columns, fields), n, i)
            + ListBytes(SlotsOf(Flatten(list.inner, field)), ListAt(list, field, n, i))
            + LeafBytes(FlattenTable(tail, options), n, i)
  {
    PlainTableBytes(columns, fields, n, i);
    PlainTableBytes(tail, options, n, i);
    OneTableColumn(list, field, n, i);
    hide TableBytes;
    TableBytesConcat(AsTable(columns), fields, [list], [field], n, i);
    TableBytesConcat(AsTable(columns) + [list], fields + [field], AsTable(tail), options, n, i);
  }

  /**
   * A table with one list column, followed by fixed-width columns at most: rows with equal bytes are equal,
   * and conversely. Null, empty and non-empty lists are all told apart. Columns may be encoded without order
   * where they have no strings.
   */
  lemma LoneListColumn(columns: seq<Column>, fields: seq<EncodingField>, list: TableColumn, field: EncodingField,
                       tail: seq<Column>, options: seq<EncodingField>, n: nat, i: nat, j: nat)
    requires PlainTable(columns, fields, n) && PlainTable(tail, options, n) && i < n && j < n
    requires list.List? && ValidTableColumn(list, n)
    requires SelfDelimiting(SlotsOf(FlattenTable(columns, fields))) && SelfDelimiting(SlotsOf(Flatten(list.inner, field)))
    requires FixedWidth(SlotsOf(FlattenTable(tail, options)))
    ensures ValidTable(AsTable(columns) + [list] + AsTable(tail), fields + [field] + options, n)
    ensures
      var table, all := AsTable(columns) + [list] + AsTable(tail), fields + [field] + options;
      TableBytes(table, all, n, i) == TableBytes(table, all, n, j)
      <==> SameValues(columns, n, i, j) && SameList(list, n, i, j) && SameValues(tail, n, i, j)
  {
    SameLeaves(columns, fields, n, i, j);
    SameListRows(list, field, n, i, j);
    SameLeaves(tail, options, n, i, j);
    hide SameValues, SameList;
    AroundListColumn(columns, fields, list, field, tail, options, n, i);
    AroundListColumn(columns, fields, list, field, tail, options, n, j);
    FlattenSize(list.inner, field, UNSORTED);
    hide TableBytes, FlattenTable, Flatten, CanonicalRow, CanonicalList;
    var leaves, rest := FlattenTable(columns, fields), FlattenTable(tail, options);
    LoneListInjective(SlotsOf(leaves), RowOf(leaves, n, i), RowOf(leaves, n, j),
                      SlotsOf(Flatten(list.inner, field)), ListAt(list, field, n, i), ListAt(list, field, n, j),
                      SlotsOf(rest), RowOf(rest, n, i), RowOf(rest, n, j));
  }

  /** A key table with at most one string column, encoded without order: rows have equal bytes exactly when equal. */
  lemma KeyTable(columns: seq<Column>, fields: seq<EncodingField>, n: nat, i: nat, j: nat)
    requires PlainTable(columns, fields, n) && i < n && j < n
    requires Unordered(SlotsOf(FlattenTable(columns, fields))) && BinaryColumns(SlotsOf(FlattenTable(columns, fields))) <= 1
    ensures ValidTable(AsTable(columns), fields, n)
    ensures TableBytes(AsTable(columns), fields, n, i) == TableBytes(AsTable(columns), fields, n, j)
       <==> SameValues(columns, n, i, j)
  {
    hide TableBytes, CanonicalRow, SameValues;
    SameLeaves(columns, fields, n, i, j);
    PlainTableBytes(columns, fields, n, i);
    PlainTableBytes(columns, fields, n, j);
    var leaves := FlattenTable(columns, fields);
    KeyEquality(SlotsOf(leaves), RowOf(leaves, n, i), RowOf(leaves, n, j));
  }

  // Tables as records, for the results about keys with list columns.

  ghost function ColumnTypes(c: TableColumn, field: EncodingField): seq<ColumnType> {
    match c
    case Plain(column) => Scalars(SlotsOf(Flatten(column, field)))
    case List(inner, _, _, _) => [ListOf(SlotsOf(Flatten(inner, field)))]
  }

  /** The leaf columns and list columns of a table, in order. */
  ghost function TableTypes(columns: seq<TableColumn>, fields: seq<EncodingField>): seq<ColumnType>
    requires |fields| == |columns|
  {
    if columns == [] then [] else ColumnTypes(columns[0], fields[0]) + TableTypes(columns[1..], fields[1..])
  }

  ghost function ColumnRecord(c: TableColumn, field: EncodingField, n: nat, i: nat): seq<Entry>
    requires ValidTableColumn(c, n) && i < n
  {
    match c
    case Plain(column) =>
      FlattenValid(column, field, n);
      Entries(RowOf(Flatten(column, field), n, i))
    case List(_, _, _, _) => [ListEntry(ListAt(c, field, n, i))]
  }

  ghost function TableRecord(columns: seq<TableColumn>, fields: seq<EncodingField>, n: nat, i: nat): seq<Entry>
    requires ValidTable(columns, fields, n) && i < n
  {
    if columns == [] then []
    else ColumnRecord(columns[0], fields[0], n, i) + TableRecord(columns[1..], fields[1..], n, i)
  }

  /** The same values and the same lists in every column. */
  ghost predicate SameRow(columns: seq<TableColumn>, n: nat, i: nat, j: nat)
    requires i < n && j < n && forall k :: 0 <= k < |columns| ==> ValidTableColumn(columns[k], n)
  {
    forall k :: 0 <= k < |columns| ==> SameEntry(columns[k], n, i, j)
  }

  ghost predicate SameEntry(c: TableColumn, n: nat, i: nat, j: nat)
    requires ValidTableColumn(c, n) && i < n && j < n
  {
    match c
    case Plain(column) => SameValue(column, n, i, j)
    case List(_, _, _, _) => SameList(c, n, i, j)
  }

  lemma OneEntry(t: ColumnType, e: Entry)
    requires EntryHasType(t, e)
    ensures RecordHasType([t], [e]) && RecordBytes([t], [e]) == EntryBytes(t, e)
    ensures CanonicalRecord([t], [e]) == [CanonicalEntry(t, e)]
  {
    assert [t][1..] == [] && [e][1..] == [];
    assert RecordBytes([t][1..], [e][1..]) == [];
  }

  lemma EntriesInjective(a: seq<Cell>, b: seq<Cell>)
    requires |a| == |b|
    ensures Entries(a) == Entries(b) <==> a == b
  {
    if Entries(a) == Entries(b) {
      forall k | 0 <= k < |a|
        ensures a[k] == b[k]
      {
        assert Entries(a)[k] == Entries(b)[k];
      }
    }
  }

  /** A column's part of a record has the column's bytes. */
  lemma ColumnIsRecord(c: TableColumn, field: EncodingField, n: nat, i: nat)
    requires ValidTableColumn(c, n) && i < n
    ensures var types := ColumnTypes(c, field);
            && RecordHasType(types, ColumnRecord(c, field, n, i))
            && RecordBytes(types, ColumnRecord(c, field, n, i)) == ColumnBytes(c, field, n, i)
  {
    hide ListAt, RecordBytes, Flatten;
    var types := ColumnTypes(c, field);
    match c
    case Plain(column) =>
      FlattenValid(column, field, n);
      var leaves := Flatten(column, field);
      EntriesBytes(SlotsOf(leaves), RowOf(leaves, n, i));
    case List(inner, _, _, _) =>
      OneEntry(types[0], ListEntry(ListAt(c, field, n, i)));
  }

  /** The records of two rows agree on a column exactly when the rows do. */
  lemma ColumnRecordsEqual(c: TableColumn, field: EncodingField, n: nat, i: nat, j: nat)
    requires ValidTableColumn(c, n) && i < n && j < n
    ensures var types := ColumnTypes(c, field);
            && RecordHasType(types, ColumnRecord(c, field, n, i)) && RecordHasType(types, ColumnRecord(c, field, n, j))
            && (CanonicalRecord(types, ColumnRecord(c, field, n, i)) == CanonicalRecord(types, ColumnRecord(c, field, n, j))
                <==> SameEntry(c, n, i, j))
  {
    hide ListAt, RecordBytes, Flatten, CanonicalRow, CanonicalList;
    var types := ColumnTypes(c, field);
    ColumnIsRecord(c, field, n, i);
    ColumnIsRecord(c, field, n, j);
    match c
    case Plain(column) =>
      var leaves := Flatten(column, field);
      FlattenValid(column, field, n);
      EntriesBytes(SlotsOf(leaves), RowOf(leaves, n, i));
      EntriesBytes(SlotsOf(leaves), RowOf(leaves, n, j));
      EntriesInjective(CanonicalRow(SlotsOf(leaves), RowOf(leaves, n, i)), CanonicalRow(SlotsOf(leaves), RowOf(leaves, n, j)));
      SameElement(column, field, n, i, j);
    case List(inner, _, _, _) =>
      OneEntry(types[0], ListEntry(ListAt(c, field, n, i)));
      OneEntry(types[0], ListEntry(ListAt(c, field, n, j)));
      SameListRows(c, field, n, i, j);
  }

  /** A row of a table is a record of its leaf and list columns: the encoder writes the record's bytes. */
  lemma {:induction false} TableIsRecord(columns: seq<TableColumn>, fields: seq<EncodingField>, n: nat, i: nat)
    requires ValidTable(columns, fields, n) && i < n
    ensures RecordHasType(TableTypes(columns, fields), TableRecord(columns, fields, n, i))
    ensures RecordBytes(TableTypes(columns, fields), TableRecord(columns, fields, n, i)) == TableBytes(columns, fields, n, i)
  {
    hide RecordBytes, RecordHasType, ColumnRecord, ValidTableColumn, ColumnBytes, TableBytes, CanonicalRecord;
    if columns == [] {
      NoRecord(fields, n, i);
    } else {
      var c, f := columns[0], fields[0];
      ColumnIsRecord(c, f, n, i);
      TableIsRecord(columns[1..], fields[1..], n, i);
      RecordConcat(ColumnTypes(c, f), ColumnRecord(c, f, n, i),
                   TableTypes(columns[1..], fields[1..]), TableRecord(columns[1..], fields[1..], n, i));
      OneTableColumn(c, f, n, i);
      TableBytesConcat([c], [f], columns[1..], fields[1..], n, i);
      assert [c] + columns[1..] == columns && [f] + fields[1..] == fields;
    }
  }

  lemma NoRecord(fields: seq<EncodingField>, n: nat, i: nat)
    requires ValidTable([], fields, n) && i < n
    ensures TableTypes([], fields) == [] && TableRecord([], fields, n, i) == [] && TableBytes([], fields, n, i) == []
    ensures RecordHasType([], []) && RecordBytes([], []) == []
  {
  }

  /** Records of two rows agree exactly when the rows do. */
  lemma {:induction false} TableRecordsEqual(columns: seq<TableColumn>, fields: seq<EncodingField>, n: nat, i: nat, j: nat)
    requires ValidTable(columns, fields, n) && i < n && j < n
    ensures var types := TableTypes(columns, fields);
            && RecordHasType(types, TableRecord(columns, fields, n, i)) && RecordHasType(types, TableRecord(columns, fields, n, j))
            && (CanonicalRecord(types, TableRecord(columns, fields, n, i)) == CanonicalRecord(types, TableRecord(columns, fields, n, j))
                <==> SameRow(columns, n, i, j))
  {
    hide RecordBytes, ColumnRecord, ValidTableColumn, SameEntry, EntryHasType, CanonicalEntry;
    TableIsRecord(columns, fields, n, i);
    TableIsRecord(columns, fields, n, j);
    if columns != [] {
      var c, f, rest, options := columns[0], fields[0], columns[1..], fields[1..];
      ColumnRecordsEqual(c, f, n, i, j);
      TableRecordsEqual(rest, options, n, i, j);
      TypeConcat(ColumnTypes(c, f), ColumnRecord(c, f, n, i), TableTypes(rest, options), TableRecord(rest, options, n, i));
      TypeConcat(ColumnTypes(c, f), ColumnRecord(c, f, n, j), TableTypes(rest, options), TableRecord(rest, options, n, j));
      SameRowCons(columns, n, i, j);
      hide CanonicalRecord, RecordHasType;
      var types := ColumnTypes(c, f);
      HeadsAndTails(CanonicalRecord(types, ColumnRecord(c, f, n, i)), CanonicalRecord(types, ColumnRecord(c, f, n, j)),
                    CanonicalRecord(TableTypes(rest, options), TableRecord(rest, options, n, i)),
                    CanonicalRecord(TableTypes(rest, options), TableRecord(rest, options, n, j)));
    }
  }

  lemma HeadsAndTails<T>(a: seq<T>, b: seq<T>, s: seq<T>, t: seq<T>)
    requires |a| == |b|
    ensures a + s == b + t <==> a == b && s == t
  {
    if a + s == b + t {
      assert a == (a + s)[..|a|] && b == (b + t)[..|b|];
      assert s == (a + s)[|a|..] && t == (b + t)[|b|..];
    }
  }

  lemma SameRowCons(columns: seq<TableColumn>, n: nat, i: nat, j: nat)
    requires i < n && j < n && columns != [] && forall k :: 0 <= k < |columns| ==> ValidTableColumn(columns[k], n)
    ensures SameRow(columns, n, i, j) <==> SameEntry(columns[0], n, i, j) && SameRow(columns[1..], n, i, j)
  {
    hide ValidTableColumn, SameEntry;
    if SameEntry(columns[0], n, i, j) && SameRow(columns[1..], n, i, j) {
      forall k | 0 <= k < |columns|
        ensures SameEntry(columns[k], n, i, j)
      {
        assert k > 0 ==> columns[k] == columns[1..][k - 1];
      }
    }
  }

  /** Where the bytes identify records, rows of a table with the same encoded bytes are the same. */
  lemma TableIdentified(columns: seq<TableColumn>, fields: seq<EncodingField>, n: nat, i: nat, j: nat)
    requires ValidTable(columns, fields, n) && i < n && j < n && Identifies(TableTypes(columns, fields))
    requires TableBytes(columns, fields, n, i) == TableBytes(columns, fields, n, j)
    ensures SameRow(columns, n, i, j)
  {
    hide TableBytes, RecordBytes, SameRow, TableTypes, TableRecord, RecordHasType, CanonicalRecord;
    TableIsRecord(columns, fields, n, i);
    TableIsRecord(columns, fields, n, j);
    TableRecordsEqual(columns, fields, n, i, j);
  }

  /** `RowsEncodedIter`: walks the offsets and yields one slice per row. */
  method RowSlices(values: Bytes, offsets: seq<nat>, ghost codes: seq<Bytes>) returns (rows: array<Bytes>)
    requires Delimits(values, offsets, codes)
    ensures fresh(rows) && rows[..] == codes
  {
    rows := new Bytes[|offsets| - 1](_ => []);
    var offset := offsets[0];
    for i := 0 to |offsets| - 1
      invariant offset == offsets[i]
      invariant forall j :: 0 <= j < i ==> rows[j] == codes[j]
    {
      DelimitsAt(values, offsets, codes, i);
      var newOffset := offsets[i + 1];
      rows[i] := values[offset..newOffset];
      offset := newOffset;
    }
  }

  /** Encoding a table and decoding the rows gives the table back, with canonical floats. */
  method RoundTrip(columns: seq<Column>, fields: seq<EncodingField>, ghost n: nat) returns (decoded: seq<Column>)
    requires ValidPlain(columns, fields, n) && HasLeaf(AsTable(columns))
    ensures decoded == CanonicalColumns(columns, n)
    ensures RestoresAll(columns, decoded, n)
  {
    CanonicalRestoresAll(columns, n);
    var encoded := ConvertColumns(AsTable(columns), fields, n);
    ghost var codes := TableCodes(AsTable(columns), fields, n);
    var rows := RowSlices(encoded.values[..encoded.len], encoded.offsets, codes);
    FlattenTableValid(columns, fields, n);
    ghost var leaves := FlattenTable(columns, fields);
    forall i | 0 <= i < n
      ensures rows[..][i] == LeafBytes(leaves, n, i) + []
    {
      PlainTableBytes(columns, fields, n, i);
    }
    decoded := DecodeRows(rows, fields, TypesOf(columns), columns);
  }
}
