/**
 * Rows of nested columns, described by recursion on the columns themselves: their bytes, their order and
 * their equality, without the flattened leaf columns the encoder works on.
 */
module NestedRows {
  import opened Orderings
  import opened ByteStrings
  import opened Options
  import opened EncodingFields
  import opened RowCode
  import opened Columns
  import opened RowDecoder
  import opened ListCode

  // Bytes.

  /** A leaf is its code under the column's own options, a struct its children from left to right under the same. */
  ghost function NestedBytes(c: Column, field: EncodingField, n: nat, i: nat): Bytes
    requires ValidColumn(c, n) && i < n
    decreases c, 1
  {
    match c
    case Leaf(t, cells) => SlotCode(field, t, cells[i])
    case Struct(children) => ChildBytes(children, field, n, i)
  }

  ghost function ChildBytes(cs: seq<Column>, field: EncodingField, n: nat, i: nat): Bytes
    requires i < n && forall k :: 0 <= k < |cs| ==> ValidColumn(cs[k], n)
    decreases cs, 0
  {
    if cs == [] then [] else NestedBytes(cs[0], field, n, i) + ChildBytes(cs[1..], field, n, i)
  }

  lemma {:induction false} FlattenBytes(c: Column, field: EncodingField, n: nat, i: nat)
    requires ValidColumn(c, n) && i < n
    ensures ValidLeaves(Flatten(c, field), n) && LeafBytes(Flatten(c, field), n, i) == NestedBytes(c, field, n, i)
    decreases c, 1
  {
    FlattenValid(c, field, n);
    match c
    case Leaf(t, cells) => LeafBytesOne(LeafColumn(Slot(t, field), cells), n, i);
    case Struct(children) => FlattenAllBytes(children, field, n, i);
  }

  lemma {:induction false} FlattenAllBytes(cs: seq<Column>, field: EncodingField, n: nat, i: nat)
    requires i < n && forall k :: 0 <= k < |cs| ==> ValidColumn(cs[k], n)
    ensures ValidLeaves(FlattenAll(cs, field), n) && LeafBytes(FlattenAll(cs, field), n, i) == ChildBytes(cs, field, n, i)
    decreases cs, 0
  {
    FlattenAllValid(cs, field, n);
    if cs != [] {
      FlattenBytes(cs[0], field, n, i);
      FlattenAllBytes(cs[1..], field, n, i);
      LeafBytesConcat(Flatten(cs[0], field), FlattenAll(cs[1..], field), n, i);
    }
  }

  /** The rows of some elements, one after the other. */
  ghost function ElementBytes(inner: Column, field: EncodingField, count: nat, first: nat, length: nat): Bytes
    requires ValidColumn(inner, count) && first + length <= count
    decreases length
  {
    if length == 0 then []
    else NestedBytes(inner, field, count, first) + ElementBytes(inner, field, count, first + 1, length - 1)
  }

  /** A null list is the byte zero, an empty one the byte one, any other the byte two and its elements. */
  ghost function NestedColumnBytes(c: TableColumn, field: EncodingField, n: nat, i: nat): Bytes
    requires ValidTableColumn(c, n) && i < n
  {
    match c
    case Plain(column) => NestedBytes(column, field, n, i)
    case List(inner, count, offsets, validity) =>
      assert offsets[i] <= offsets[i + 1] <= offsets[n];
      if !validity[i] then [0]
      else if offsets[i] == offsets[i + 1] then [1]
      else [2] + ElementBytes(inner, field, count, offsets[i], offsets[i + 1] - offsets[i])
  }

  /** The columns of a table from left to right, each under its own options. */
  ghost function NestedTableBytes(columns: seq<TableColumn>, fields: seq<EncodingField>, n: nat, i: nat): Bytes
    requires ValidTable(columns, fields, n) && i < n
  {
    if columns == [] then []
    else NestedColumnBytes(columns[0], fields[0], n, i) + NestedTableBytes(columns[1..], fields[1..], n, i)
  }

  lemma {:induction false} RowsAreElements(inner: Column, field: EncodingField, count: nat, first: nat, length: nat)
    requires ValidColumn(inner, count) && first + length <= count
    ensures ValidLeaves(Flatten(inner, field), count)
    ensures RowsBytes(SlotsOf(Flatten(inner, field)), TableRows(Flatten(inner, field), count)[first..first + length])
         == ElementBytes(inner, field, count, first, length)
    decreases length
  {
    hide Flatten, ValidColumn, NestedBytes, RowBytes;
    FlattenValid(inner, field, count);
    if length > 0 {
      var leaves := Flatten(inner, field);
      RowsAreElements(inner, field, count, first + 1, length - 1);
      FlattenBytes(inner, field, count, first);
      RowsBytesFrom(SlotsOf(leaves), TableRows(leaves, count), first, first + length);
    }
  }

  lemma ColumnLayout(c: TableColumn, field: EncodingField, n: nat, i: nat)
    requires ValidTableColumn(c, n) && i < n
    ensures ColumnBytes(c, field, n, i) == NestedColumnBytes(c, field, n, i)
  {
    hide ValidColumn, Flatten, NestedBytes, ElementBytes, ListBytes, ListAt;
    match c
    case Plain(column) => FlattenBytes(column, field, n, i);
    case List(_, _, _, _) => ListLayout(c, field, n, i);
  }

  lemma ListLayout(c: TableColumn, field: EncodingField, n: nat, i: nat)
    requires c.List? && ValidTableColumn(c, n) && i < n
    ensures ListBytes(SlotsOf(Flatten(c.inner, field)), ListAt(c, field, n, i)) == NestedColumnBytes(c, field, n, i)
  {
    hide ValidColumn, Flatten, NestedBytes, ElementBytes, RowsBytes, RowBytes;
    var offsets := c.offsets;
    assert offsets[i] <= offsets[i + 1] <= offsets[n];
    var length := offsets[i + 1] - offsets[i];
    RowsAreElements(c.inner, field, c.count, offsets[i], length);
    FlattenSize(c.inner, field, UNSORTED);
    ElementsEmpty(c.inner, field, c.count, offsets[i], length);
  }

  /** Elements have at least one byte each. */
  lemma ElementsEmpty(inner: Column, field: EncodingField, count: nat, first: nat, length: nat)
    requires ValidColumn(inner, count) && first + length <= count && Flatten(inner, field) != []
    ensures ElementBytes(inner, field, count, first, length) == [] <==> length == 0
  {
    hide Flatten, RowBytes;
    if length > 0 {
      var leaves := Flatten(inner, field);
      FlattenBytes(inner, field, count, first);
      RowBytesNonEmpty(SlotsOf(leaves), RowOf(leaves, count, first));
    }
  }

  lemma {:induction false} NestedSnoc(columns: seq<TableColumn>, fields: seq<EncodingField>, n: nat, i: nat)
    requires ValidTable(columns, fields, n) && columns != [] && i < n
    ensures var last := |columns| - 1;
            && ValidTable(columns[..last], fields[..last], n)
            && NestedTableBytes(columns, fields, n, i)
            == NestedTableBytes(columns[..last], fields[..last], n, i) + NestedColumnBytes(columns[last], fields[last], n, i)
  {
    hide ValidTableColumn, NestedColumnBytes;
    var last := |columns| - 1;
    if last == 0 {
      assert columns[1..] == [] && columns[..0] == [];
    } else {
      NestedSnoc(columns[1..], fields[1..], n, i);
      assert columns[1..][..last - 1] == columns[..last][1..] && fields[1..][..last - 1] == fields[..last][1..];
      ConcatAssoc(NestedColumnBytes(columns[0], fields[0], n, i), NestedTableBytes(columns[..last][1..], fields[..last][1..], n, i),
                  NestedColumnBytes(columns[last], fields[last], n, i));
    }
  }

  /** The encoded bytes of a row are those of its columns as nested. */
  lemma {:induction false} TableLayout(columns: seq<TableColumn>, fields: seq<EncodingField>, n: nat, i: nat)
    requires ValidTable(columns, fields, n) && i < n
    ensures TableBytes(columns, fields, n, i) == NestedTableBytes(columns, fields, n, i)
  {
    hide ValidTableColumn, NestedColumnBytes, ColumnBytes;
    if columns != [] {
      var last := |columns| - 1;
      NestedSnoc(columns, fields, n, i);
      TableLayout(columns[..last], fields[..last], n, i);
      ColumnLayout(columns[last], fields[last], n, i);
    }
  }

  lemma ColumnEmpty(c: TableColumn, field: EncodingField, n: nat, i: nat)
    requires ValidTableColumn(c, n) && i < n
    ensures ColumnBytes(c, field, n, i) != [] <==> c.List? || Flatten(c.column, UNSORTED) != []
  {
    hide Flatten, RowBytes, ListAt;
    if c.Plain? {
      FlattenSize(c.column, field, UNSORTED);
      FlattenValid(c.column, field, n);
      var leaves := Flatten(c.column, field);
      if leaves != [] {
        RowBytesNonEmpty(SlotsOf(leaves), RowOf(leaves, n, i));
      } else {
        NoLeafBytes(leaves, n, i);
      }
    }
  }

  lemma NoLeafBytes(leaves: seq<LeafColumn>, n: nat, i: nat)
    requires ValidLeaves(leaves, n) && i < n && leaves == []
    ensures RowBytes(SlotsOf(leaves), RowOf(leaves, n, i)) == []
  {
  }

  /** Rows are empty exactly in tables without leaf or list columns, on which the encoder panics. */
  lemma {:induction false} RowsEmpty(columns: seq<TableColumn>, fields: seq<EncodingField>, n: nat, i: nat)
    requires ValidTable(columns, fields, n) && i < n
    ensures TableBytes(columns, fields, n, i) != [] <==> HasLeaf(columns)
  {
    hide ValidTableColumn, ColumnBytes, Flatten;
    if columns != [] {
      var last := |columns| - 1;
      RowsEmpty(columns[..last], fields[..last], n, i);
      ColumnEmpty(columns[last], fields[last], n, i);
      if HasLeaf(columns[..last]) {
        var k :| 0 <= k < last && (columns[..last][k].List? || Flatten(columns[..last][k].column, UNSORTED) != []);
        assert columns[k] == columns[..last][k];
      }
      if HasLeaf(columns) {
        var k :| 0 <= k < |columns| && (columns[k].List? || Flatten(columns[k].column, UNSORTED) != []);
        assert k < last ==> columns[..last][k] == columns[k];
      }
    }
  }

  // Order.

  /** Leaves compare under the column's own options, structs child by child from left to right under the same. */
  ghost function CompareColumn(c: Column, field: EncodingField, n: nat, i: nat, j: nat): Ordering
    requires ValidColumn(c, n) && i < n && j < n
    decreases c, 1
  {
    match c
    case Leaf(t, cells) => CompareCells(field, t, cells[i], cells[j])
    case Struct(children) => CompareChildren(children, field, n, i, j)
  }

  ghost function CompareChildren(cs: seq<Column>, field: EncodingField, n: nat, i: nat, j: nat): Ordering
    requires i < n && j < n && forall k :: 0 <= k < |cs| ==> ValidColumn(cs[k], n)
    decreases cs, 0
  {
    if cs == [] then Equal else CompareColumn(cs[0], field, n, i, j).Then(CompareChildren(cs[1..], field, n, i, j))
  }

  /** Tables compare column by column from left to right, each column under its own options. */
  ghost function CompareTable(columns: seq<Column>, fields: seq<EncodingField>, n: nat, i: nat, j: nat): Ordering
    requires PlainTable(columns, fields, n) && i < n && j < n
  {
    if columns == [] then Equal
    else CompareColumn(columns[0], fields[0], n, i, j).Then(CompareTable(columns[1..], fields[1..], n, i, j))
  }

  lemma {:induction false} CompareRowsConcat(s: seq<Slot>, a: seq<Cell>, a': seq<Cell>, t: seq<Slot>, b: seq<Cell>, b': seq<Cell>)
    requires RowHasType(s, a) && RowHasType(s, a') && RowHasType(t, b) && RowHasType(t, b')
    ensures RowHasType(s + t, a + b) && RowHasType(s + t, a' + b')
    ensures CompareRows(s + t, a + b, a' + b') == CompareRows(s, a, a').Then(CompareRows(t, b, b'))
  {
    hide CellHasType, CompareCells;
    if s == [] {
      assert s + t == t && a + b == b && a' + b' == b';
    } else {
      assert (s + t)[1..] == s[1..] + t && (a + b)[1..] == a[1..] + b && (a' + b')[1..] == a'[1..] + b';
      CompareRowsConcat(s[1..], a[1..], a'[1..], t, b, b');
    }
  }

  /** How two rows of some leaf columns compare. */
  ghost function CompareLeaves(leaves: seq<LeafColumn>, n: nat, i: nat, j: nat): Ordering
    requires ValidLeaves(leaves, n) && i < n && j < n
  {
    CompareRows(SlotsOf(leaves), RowOf(leaves, n, i), RowOf(leaves, n, j))
  }

  lemma CompareLeavesConcat(a: seq<LeafColumn>, b: seq<LeafColumn>, n: nat, i: nat, j: nat)
    requires ValidLeaves(a, n) && ValidLeaves(b, n) && i < n && j < n
    ensures ValidLeaves(a + b, n)
    ensures CompareLeaves(a + b, n, i, j) == CompareLeaves(a, n, i, j).Then(CompareLeaves(b, n, i, j))
  {
    assert SlotsOf(a + b) == SlotsOf(a) + SlotsOf(b);
    assert RowOf(a + b, n, i) == RowOf(a, n, i) + RowOf(b, n, i) && RowOf(a + b, n, j) == RowOf(a, n, j) + RowOf(b, n, j);
    CompareRowsConcat(SlotsOf(a), RowOf(a, n, i), RowOf(a, n, j), SlotsOf(b), RowOf(b, n, i), RowOf(b, n, j));
  }

  lemma CompareLeaf(l: LeafColumn, n: nat, i: nat, j: nat)
    requires ValidLeaf(l, n) && i < n && j < n
    ensures ValidLeaves([l], n) && CompareLeaves([l], n, i, j) == CompareCells(l.slot.field, l.slot.leaf, l.cells[i], l.cells[j])
  {
    var slots, a, b := SlotsOf([l]), RowOf([l], n, i), RowOf([l], n, j);
    assert slots[1..] == [] && a[1..] == [] && b[1..] == [];
    assert CompareRows(slots[1..], a[1..], b[1..]) == Equal;
  }

  lemma {:induction false} FlattenOrder(c: Column, field: EncodingField, n: nat, i: nat, j: nat)
    requires ValidColumn(c, n) && i < n && j < n
    ensures ValidLeaves(Flatten(c, field), n) && CompareLeaves(Flatten(c, field), n, i, j) == CompareColumn(c, field, n, i, j)
    decreases c, 1
  {
    match c
    case Leaf(t, cells) => CompareLeaf(LeafColumn(Slot(t, field), cells), n, i, j);
    case Struct(children) => FlattenAllOrder(children, field, n, i, j);
  }

  lemma {:induction false} FlattenAllOrder(cs: seq<Column>, field: EncodingField, n: nat, i: nat, j: nat)
    requires i < n && j < n && forall k :: 0 <= k < |cs| ==> ValidColumn(cs[k], n)
    ensures ValidLeaves(FlattenAll(cs, field), n)
    ensures CompareLeaves(FlattenAll(cs, field), n, i, j) == CompareChildren(cs, field, n, i, j)
    decreases cs, 0
  {
    if cs != [] {
      FlattenOrder(cs[0], field, n, i, j);
      FlattenAllOrder(cs[1..], field, n, i, j);
      CompareLeavesConcat(Flatten(cs[0], field), FlattenAll(cs[1..], field), n, i, j);
    }
  }

  lemma {:induction false} FlattenTableOrder(columns: seq<Column>, fields: seq<EncodingField>, n: nat, i: nat, j: nat)
    requires PlainTable(columns, fields, n) && i < n && j < n
    ensures ValidLeaves(FlattenTable(columns, fields), n)
    ensures CompareLeaves(FlattenTable(columns, fields), n, i, j) == CompareTable(columns, fields, n, i, j)
  {
    if columns != [] {
      FlattenOrder(columns[0], fields[0], n, i, j);
      FlattenTableOrder(columns[1..], fields[1..], n, i, j);
      CompareLeavesConcat(Flatten(columns[0], fields[0]), FlattenTable(columns[1..], fields[1..]), n, i, j);
    }
  }

  // Equality.

  /** The same values in two rows, up to NaNs and the sign of zero. */
  ghost predicate SameValue(c: Column, n: nat, i: nat, j: nat)
    requires ValidColumn(c, n) && i < n && j < n
  {
    match c
    case Leaf(t, cells) => CanonicalCell(t, cells[i]) == CanonicalCell(t, cells[j])
    case Struct(children) => forall k :: 0 <= k < |children| ==> SameValue(children[k], n, i, j)
  }

  ghost predicate SameValues(columns: seq<Column>, n: nat, i: nat, j: nat)
    requires i < n && j < n && forall k :: 0 <= k < |columns| ==> ValidColumn(columns[k], n)
  {
    forall k :: 0 <= k < |columns| ==> SameValue(columns[k], n, i, j)
  }

  /** Element `k` of two stretches of elements. */
  ghost predicate SameAt(inner: Column, count: nat, p: nat, q: nat, k: nat)
    requires ValidColumn(inner, count) && p + k < count && q + k < count
  {
    SameValue(inner, count, p + k, q + k)
  }

  /** Both lists null, or both of the same length with the same elements. */
  ghost predicate SameList(list: TableColumn, n: nat, i: nat, j: nat)
    requires list.List? && ValidTableColumn(list, n) && i < n && j < n
  {
    var o := list.offsets;
    assert o[i] <= o[i + 1] <= o[n] && o[j] <= o[j + 1] <= o[n];
    && list.validity[i] == list.validity[j]
    && (list.validity[i] ==>
          && o[i + 1] - o[i] == o[j + 1] - o[j]
          && forall k :: 0 <= k < o[i + 1] - o[i] ==> SameAt(list.inner, list.count, o[i], o[j], k))
  }

  lemma {:induction false} ColumnEqual(c: Column, field: EncodingField, n: nat, i: nat, j: nat)
    requires ValidColumn(c, n) && i < n && j < n
    ensures CompareColumn(c, field, n, i, j) == Equal <==> SameValue(c, n, i, j)
    decreases c, 1
  {
    match c
    case Leaf(t, cells) => CellEqual(field, t, cells[i], cells[j]);
    case Struct(children) => ChildrenEqual(children, field, n, i, j);
  }

  lemma {:induction false} ChildrenEqual(cs: seq<Column>, field: EncodingField, n: nat, i: nat, j: nat)
    requires i < n && j < n && forall k :: 0 <= k < |cs| ==> ValidColumn(cs[k], n)
    ensures CompareChildren(cs, field, n, i, j) == Equal <==> SameValues(cs, n, i, j)
    decreases cs, 0
  {
    if cs != [] {
      ColumnEqual(cs[0], field, n, i, j);
      ChildrenEqual(cs[1..], field, n, i, j);
      SameCons(cs, n, i, j);
    }
  }

  lemma SameCons(cs: seq<Column>, n: nat, i: nat, j: nat)
    requires i < n && j < n && cs != [] && forall k :: 0 <= k < |cs| ==> ValidColumn(cs[k], n)
    ensures SameValues(cs, n, i, j) <==> SameValue(cs[0], n, i, j) && SameValues(cs[1..], n, i, j)
  {
    hide ValidColumn, SameValue;
    if SameValue(cs[0], n, i, j) && SameValues(cs[1..], n, i, j) {
      forall k | 0 <= k < |cs|
        ensures SameValue(cs[k], n, i, j)
      {
        assert k > 0 ==> cs[k] == cs[1..][k - 1];
      }
    }
  }

  lemma {:induction false} TableEqual(columns: seq<Column>, fields: seq<EncodingField>, n: nat, i: nat, j: nat)
    requires PlainTable(columns, fields, n) && i < n && j < n
    ensures CompareTable(columns, fields, n, i, j) == Equal <==> SameValues(columns, n, i, j)
  {
    if columns != [] {
      ColumnEqual(columns[0], fields[0], n, i, j);
      TableEqual(columns[1..], fields[1..], n, i, j);
      SameCons(columns, n, i, j);
    }
  }

  /** The leaf cells of two rows agree exactly when the nested values do. */
  lemma SameLeaves(columns: seq<Column>, fields: seq<EncodingField>, n: nat, i: nat, j: nat)
    requires PlainTable(columns, fields, n) && i < n && j < n
    ensures var leaves := FlattenTable(columns, fields);
            && ValidLeaves(leaves, n)
            && (CanonicalRow(SlotsOf(leaves), RowOf(leaves, n, i)) == CanonicalRow(SlotsOf(leaves), RowOf(leaves, n, j))
                <==> SameValues(columns, n, i, j))
  {
    hide CompareRows, CanonicalRow;
    FlattenTableOrder(columns, fields, n, i, j);
    TableEqual(columns, fields, n, i, j);
    var leaves := FlattenTable(columns, fields);
    CompareRowsEqual(SlotsOf(leaves), RowOf(leaves, n, i), RowOf(leaves, n, j));
  }

  lemma SameElement(inner: Column, field: EncodingField, count: nat, p: nat, q: nat)
    requires ValidColumn(inner, count) && p < count && q < count
    ensures var leaves := Flatten(inner, field);
            && ValidLeaves(leaves, count)
            && (CanonicalRow(SlotsOf(leaves), TableRows(leaves, count)[p]) == CanonicalRow(SlotsOf(leaves), TableRows(leaves, count)[q])
                <==> SameValue(inner, count, p, q))
  {
    hide CompareRows, CanonicalRow;
    FlattenOrder(inner, field, count, p, q);
    ColumnEqual(inner, field, count, p, q);
    var leaves := Flatten(inner, field);
    CompareRowsEqual(SlotsOf(leaves), RowOf(leaves, count, p), RowOf(leaves, count, q));
  }

  lemma SameRows(slots: seq<Slot>, xs: seq<seq<Cell>>, ys: seq<seq<Cell>>)
    requires RowsHaveType(slots, xs) && RowsHaveType(slots, ys)
    ensures CanonicalRows(slots, xs) == CanonicalRows(slots, ys) <==>
            |xs| == |ys| && forall k :: 0 <= k < |xs| ==> CanonicalRow(slots, xs[k]) == CanonicalRow(slots, ys[k])
  {
    hide CanonicalRow;
    var a, b := CanonicalRows(slots, xs), CanonicalRows(slots, ys);
    if a == b {
      assert |xs| == |a| == |b| == |ys|;
      forall k | 0 <= k < |xs|
        ensures CanonicalRow(slots, xs[k]) == CanonicalRow(slots, ys[k])
      {
        assert a[k] == b[k];
      }
    }
  }

  lemma SameStretches(inner: Column, field: EncodingField, count: nat, p: nat, p': nat, q: nat, q': nat)
    requires ValidColumn(inner, count) && p <= p' <= count && q <= q' <= count
    ensures ValidLeaves(Flatten(inner, field), count)
    ensures var leaves := Flatten(inner, field);
            var rows := TableRows(leaves, count);
            CanonicalRows(SlotsOf(leaves), rows[p..p']) == CanonicalRows(SlotsOf(leaves), rows[q..q'])
            <==> p' - p == q' - q && forall k :: 0 <= k < p' - p ==> SameAt(inner, count, p, q, k)
  {
    FlattenValid(inner, field, count);
    hide *;
    var leaves := Flatten(inner, field);
    var slots, rows := SlotsOf(leaves), TableRows(leaves, count);
    StretchTyped(slots, rows, p, p');
    StretchTyped(slots, rows, q, q');
    SameRows(slots, rows[p..p'], rows[q..q']);
    if p' - p == q' - q {
      forall k | 0 <= k < p' - p
        ensures CanonicalRow(slots, rows[p..p'][k]) == CanonicalRow(slots, rows[q..q'][k]) <==> SameAt(inner, count, p, q, k)
      {
        SameElementAt(inner, field, count, p, q, k);
      }
    }
  }

  lemma StretchTyped(slots: seq<Slot>, rows: seq<seq<Cell>>, p: nat, q: nat)
    requires p <= q <= |rows| && forall k :: 0 <= k < |rows| ==> RowHasType(slots, rows[k])
    ensures RowsHaveType(slots, rows[p..q])
    ensures forall k :: 0 <= k < q - p ==> rows[p..q][k] == rows[p + k]
  {
    hide RowHasType;
  }

  lemma SameElementAt(inner: Column, field: EncodingField, count: nat, p: nat, q: nat, k: nat)
    requires ValidColumn(inner, count) && p + k < count && q + k < count
    ensures ValidLeaves(Flatten(inner, field), count)
    ensures var leaves := Flatten(inner, field);
            var rows := TableRows(leaves, count);
            CanonicalRow(SlotsOf(leaves), rows[p + k]) == CanonicalRow(SlotsOf(leaves), rows[q + k])
            <==> SameAt(inner, count, p, q, k)
  {
    hide Flatten, ValidColumn, CanonicalRow, SameValue, RowHasType, ValidLeaf, RowOf;
    SameElement(inner, field, count, p + k, q + k);
  }

  /** Lists agree as lists of leaf rows exactly when their nested elements agree. */
  lemma SameListRows(list: TableColumn, field: EncodingField, n: nat, i: nat, j: nat)
    requires list.List? && ValidTableColumn(list, n) && i < n && j < n
    ensures var slots := SlotsOf(Flatten(list.inner, field));
            CanonicalList(slots, ListAt(list, field, n, i)) == CanonicalList(slots, ListAt(list, field, n, j))
            <==> SameList(list, n, i, j)
  {
    hide Flatten, ValidColumn, CanonicalRow, CanonicalRows;
    var o := list.offsets;
    assert o[i] <= o[i + 1] <= o[n] && o[j] <= o[j + 1] <= o[n];
    var x, y := ListAt(list, field, n, i), ListAt(list, field, n, j);
    if list.validity[i] && list.validity[j] {
      SameStretches(list.inner, field, list.count, o[i], o[i + 1], o[j], o[j + 1]);
    }
  }

  // Decoded columns.

  /** The same type and height, and cell by cell the representative of the original. */
  ghost predicate Restores(c: Column, d: Column, n: nat)
    requires ValidColumn(c, n)
  {
    match c
    case Leaf(t, cells) => d.Leaf? && d.leaf == t && |d.cells| == n && forall i :: 0 <= i < n ==> d.cells[i] == CanonicalCell(t, cells[i])
    case Struct(children) =>
      && d.Struct? && |d.children| == |children|
      && forall k :: 0 <= k < |children| ==> Restores(children[k], d.children[k], n)
  }

  ghost predicate RestoresAll(cs: seq<Column>, ds: seq<Column>, n: nat)
    requires forall k :: 0 <= k < |cs| ==> ValidColumn(cs[k], n)
  {
    |ds| == |cs| && forall k :: 0 <= k < |cs| ==> Restores(cs[k], ds[k], n)
  }

  lemma {:induction false} CanonicalRestores(c: Column, n: nat)
    requires ValidColumn(c, n)
    ensures Restores(c, CanonicalColumn(c, n), n)
    decreases c, 1
  {
    if c.Struct? {
      CanonicalRestoresAll(c.children, n);
    }
  }

  lemma {:induction false} CanonicalRestoresAll(cs: seq<Column>, n: nat)
    requires forall k :: 0 <= k < |cs| ==> ValidColumn(cs[k], n)
    ensures RestoresAll(cs, CanonicalColumns(cs, n), n)
    decreases cs, 0
  {
    if cs != [] {
      CanonicalRestores(cs[0], n);
      CanonicalRestoresAll(cs[1..], n);
      var ds := CanonicalColumns(cs, n);
      assert ds[1..] == CanonicalColumns(cs[1..], n);
      forall k | 0 <= k < |cs|
        ensures Restores(cs[k], ds[k], n)
      {
        assert k > 0 ==> cs[k] == cs[1..][k - 1] && ds[k] == ds[1..][k - 1];
      }
    }
  }

  /** Only NaNs and negative zeros change. */
  lemma OnlyFloatsChange(t: LeafType, c: Cell)
    requires CellHasType(t, c) && !t.Float?
    ensures CanonicalCell(t, c) == c
  {
  }
}
