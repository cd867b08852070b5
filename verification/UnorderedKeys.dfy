/**
 * Row codes as grouping and join keys. Keys are encoded with `no_order`, where a binary cell is its
 * sentinel and its bytes, with no length: such a code does not say where it ends. The elements of a
 * list key are encoded in the same way.
 */
module UnorderedKeys {
  import opened ByteStrings
  import opened Options
  import opened EncodingFields
  import opened RowCode
  import opened ListCode
  import opened Records
  import BlockCode

  const TWO: Bytes := [BlockCode.NON_EMPTY_SENTINEL]

  /** Every binary column is encoded without order. */
  ghost predicate Unordered(slots: seq<Slot>) {
    forall k :: 0 <= k < |slots| ==> slots[k].leaf.Supported() && (slots[k].leaf.Binary? ==> slots[k].field.noOrder)
  }

  function BinaryColumns(slots: seq<Slot>): (n: nat) {
    if slots == [] then 0
    else (if slots[0].leaf.Binary? then 1 else 0) + BinaryColumns(slots[1..])
  }

  lemma {:induction false} NoBinaryColumns(slots: seq<Slot>)
    ensures BinaryColumns(slots) == 0 <==> FixedWidth(slots)
  {
    if slots != [] {
      NoBinaryColumns(slots[1..]);
      if FixedWidth(slots[1..]) && !slots[0].leaf.Binary? {
        assert forall k :: 0 < k < |slots| ==> slots[k] == slots[1..][k - 1];
      }
    }
  }

  // At most one binary column: the length of the row tells where its code ends.

  lemma CodeNoOrderInjective(field: EncodingField, a: BlockCode.Cell, b: BlockCode.Cell)
    requires BlockCode.CodeNoOrder(field, a) == BlockCode.CodeNoOrder(field, b)
    ensures a == b
  {
    var x, y := BlockCode.CodeNoOrder(field, a), BlockCode.CodeNoOrder(field, b);
    assert x[0] == y[0] && x[1..] == y[1..];
    if a.Some? && b.Some? && a.value != [] && b.value != [] {
      assert x[1..] == a.value && y[1..] == b.value;
    }
  }

  /** One cell: equal codes mean equal cells, and conversely. */
  lemma SlotInjective(slot: Slot, a: Cell, b: Cell)
    requires CellHasType(slot.leaf, a) && CellHasType(slot.leaf, b)
    ensures SlotCode(slot.field, slot.leaf, a) == SlotCode(slot.field, slot.leaf, b)
       <==> CanonicalCell(slot.leaf, a) == CanonicalCell(slot.leaf, b)
  {
    if slot.Open() {
      if SlotCode(slot.field, slot.leaf, a) == SlotCode(slot.field, slot.leaf, b) {
        CodeNoOrderInjective(slot.field, BytesCell(a), BytesCell(b));
      }
    } else {
      SlotOrder(slot.field, slot.leaf, a, b);
      CompareEqual(SlotCode(slot.field, slot.leaf, a), SlotCode(slot.field, slot.leaf, b));
      CellEqual(slot.field, slot.leaf, a, b);
    }
  }

  /** With at most one binary column, two keys have equal bytes exactly when they are equal. */
  lemma {:induction false} KeyEquality(slots: seq<Slot>, a: seq<Cell>, b: seq<Cell>)
    requires RowHasType(slots, a) && RowHasType(slots, b) && Unordered(slots) && BinaryColumns(slots) <= 1
    ensures RowBytes(slots, a) == RowBytes(slots, b) <==> CanonicalRow(slots, a) == CanonicalRow(slots, b)
  {
    if slots == [] {
    } else {
      var s, rest := slots[0], slots[1..];
      var x, y := SlotCode(s.field, s.leaf, a[0]), SlotCode(s.field, s.leaf, b[0]);
      KeyEquality(rest, a[1..], b[1..]);
      SlotInjective(s, a[0], b[0]);
      CanonicalCons(slots, a);
      CanonicalCons(slots, b);
      if RowBytes(slots, a) == RowBytes(slots, b) {
        if s.leaf.Binary? {
          NoBinaryColumns(rest);
          FixedRowLength(rest, a[1..], b[1..]);
        }
        SplitSameLength(x, RowBytes(rest, a[1..]), y, RowBytes(rest, b[1..]));
      }
    }
  }

  // An open column can take any string, so it can swallow what follows it.

  ghost predicate OpenColumn(t: ColumnType) {
    t.Scalar? && t.slot.Open()
  }

  ghost function OpenColumns(types: seq<ColumnType>): (n: nat) {
    if types == [] then 0 else (if OpenColumn(types[0]) then 1 else 0) + OpenColumns(types[1..])
  }

  /** The row of nulls, except for `v` in its first open column. */
  ghost function FirstOpen(types: seq<ColumnType>, v: Bytes): (record: seq<Entry>)
    requires Supported(types) && OpenColumns(types) > 0
    ensures |record| == |types|
  {
    if OpenColumn(types[0]) then [ScalarEntry(Some(BytesValue(v)))] + NullRecord(types[1..])
    else [NullRecord(types)[0]] + FirstOpen(types[1..], v)
  }

  lemma {:induction false} FirstOpenTyped(types: seq<ColumnType>, v: Bytes)
    requires Supported(types) && OpenColumns(types) > 0
    ensures RecordHasType(types, FirstOpen(types, v))
  {
    var record := FirstOpen(types, v);
    if OpenColumn(types[0]) {
      assert EntryHasType(types[0], record[0]);
      assert RecordHasType(types[1..], record[1..]);
    } else {
      FirstOpenTyped(types[1..], v);
      assert EntryHasType(types[0], record[0]);
      assert record[1..] == FirstOpen(types[1..], v);
    }
    RecordFromParts(types, record);
  }

  lemma RecordFromParts(types: seq<ColumnType>, record: seq<Entry>)
    requires types != [] && |record| == |types|
    requires EntryHasType(types[0], record[0]) && RecordHasType(types[1..], record[1..])
    ensures RecordHasType(types, record)
  {
    assert forall k :: 0 < k < |types| ==> types[k] == types[1..][k - 1] && record[k] == record[1..][k - 1];
  }

  /** The bytes of such a row before the code of `v`. */
  ghost function Before(types: seq<ColumnType>): (r: Bytes)
    requires Supported(types) && OpenColumns(types) > 0
  {
    if OpenColumn(types[0]) then [] else EntryBytes(types[0], NullRecord(types)[0]) + Before(types[1..])
  }

  /** The bytes of such a row after the code of `v`. */
  ghost function After(types: seq<ColumnType>): (r: Bytes)
    requires Supported(types) && OpenColumns(types) > 0
  {
    if OpenColumn(types[0]) then RecordBytes(types[1..], NullRecord(types[1..])) else After(types[1..])
  }

  lemma OpenCode(t: ColumnType, v: Bytes)
    requires OpenColumn(t) && v != []
    ensures var e := ScalarEntry(Some(BytesValue(v))); EntryHasType(t, e) && EntryBytes(t, e) == TWO + v
  {
  }

  lemma {:induction false} FirstOpenBytes(types: seq<ColumnType>, v: Bytes)
    requires Supported(types) && OpenColumns(types) > 0 && v != []
    ensures RecordHasType(types, FirstOpen(types, v))
    ensures RecordBytes(types, FirstOpen(types, v)) == Before(types) + (TWO + v) + After(types)
  {
    FirstOpenTyped(types, v);
    var t, rest, record := types[0], types[1..], FirstOpen(types, v);
    RecordCons(types, record);
    hide RecordHasType, RecordBytes, EntryBytes, EntryHasType, NullRecord, Supported;
    if OpenColumn(t) {
      assert record[1..] == NullRecord(rest);
      OpenCode(t, v);
    } else {
      assert record[1..] == FirstOpen(rest, v);
      FirstOpenBytes(rest, v);
      var head := EntryBytes(t, NullRecord(types)[0]);
      ConcatAssoc(head, Before(rest), TWO + v);
      ConcatAssoc(head, Before(rest) + (TWO + v), After(rest));
    }
  }

  // Two open columns: the first can swallow the start of the second.

  /** Moving the gap and a sentinel from the second string to the first leaves the bytes alone. */
  lemma Regroup(u: Bytes, gap: Bytes, z: Bytes, after: Bytes)
    ensures (TWO + u) + (gap + (TWO + (gap + TWO + z)) + after) == (TWO + (u + gap + TWO)) + (gap + (TWO + z) + after)
  {
  }

  /** The row of nulls, except for `u` in its first column and `v` in the next open one. */
  ghost function TwoStrings(types: seq<ColumnType>, u: Bytes, v: Bytes): (record: seq<Entry>)
    requires types != [] && Supported(types) && OpenColumns(types[1..]) > 0
  {
    [ScalarEntry(Some(BytesValue(u)))] + FirstOpen(types[1..], v)
  }

  lemma {:induction false} TwoStringsBytes(types: seq<ColumnType>, u: Bytes, v: Bytes)
    requires Supported(types) && OpenColumns(types) >= 2 && OpenColumn(types[0]) && u != [] && v != []
    ensures RecordHasType(types, TwoStrings(types, u, v))
    ensures RecordBytes(types, TwoStrings(types, u, v))
         == (TWO + u) + (Before(types[1..]) + (TWO + v) + After(types[1..]))
  {
    var record := TwoStrings(types, u, v);
    FirstOpenBytes(types[1..], v);
    OpenCode(types[0], u);
    assert record[1..] == FirstOpen(types[1..], v);
    RecordFromParts(types, record);
    RecordCons(types, record);
  }

  /** Two rows that begin with an open column and have another one later. */
  lemma HeadsCollide(types: seq<ColumnType>) returns (a: seq<Entry>, b: seq<Entry>)
    requires Supported(types) && OpenColumns(types) >= 2 && OpenColumn(types[0])
    ensures Collide(types, a, b)
  {
    var gap := Before(types[1..]);
    var u, v := [0], gap + TWO + [0];
    var u', v' := u + gap + TWO, [0];
    a, b := TwoStrings(types, u, v), TwoStrings(types, u', v');
    assert a[0] == ScalarEntry(Some(BytesValue(u))) && b[0] == ScalarEntry(Some(BytesValue(u'))) && |u| < |u'|;
    hide RecordBytes, TwoStrings, Before, After, RecordHasType;
    TwoStringsBytes(types, u, v);
    TwoStringsBytes(types, u', v');
    Regroup(u, gap, [0], After(types[1..]));
    assert CanonicalRecord(types, a)[0] != CanonicalRecord(types, b)[0];
  }

  /** With two open columns there are two different keys with the same bytes, whatever the other columns. */
  lemma {:induction false} KeysCollide(types: seq<ColumnType>)
    requires Supported(types) && OpenColumns(types) >= 2
    ensures !Identifies(types)
  {
    var before: seq<ColumnType>, rest := [], types;
    while !OpenColumn(rest[0])
      invariant types == before + rest && Supported(rest) && Supported(before) && OpenColumns(rest) >= 2
      decreases |rest|
    {
      before, rest := before + [rest[0]], rest[1..];
    }
    var a, b := HeadsCollide(rest);
    Surround(before, rest, [], a, b);
    assert before + rest + [] == types;
  }

  lemma {:induction false} OpenScalars(slots: seq<Slot>)
    requires Unordered(slots)
    ensures OpenColumns(Scalars(slots)) == BinaryColumns(slots)
  {
    if slots != [] {
      OpenScalars(slots[1..]);
      assert Scalars(slots)[1..] == Scalars(slots[1..]);
    }
  }

  /** Grouping by row code is grouping by key exactly for schemas with at most one binary column. */
  lemma KeysAreInjective(slots: seq<Slot>)
    requires Unordered(slots)
    ensures Identifies(Scalars(slots)) <==> BinaryColumns(slots) <= 1
  {
    var types := Scalars(slots);
    if BinaryColumns(slots) <= 1 {
      forall a, b | RecordHasType(types, a) && RecordHasType(types, b) && RecordBytes(types, a) == RecordBytes(types, b)
        ensures CanonicalRecord(types, a) == CanonicalRecord(types, b)
      {
        CellsBytes(slots, a);
        CellsBytes(slots, b);
        KeyEquality(slots, Cells(a), Cells(b));
      }
    } else {
      OpenScalars(slots);
      KeysCollide(types);
    }
  }

  // Lists: an open element column can swallow the start of the next element.

  /** Two rows side by side, and one row whose string spans both. */
  lemma Span(before: Bytes, after: Bytes)
    ensures (before + (TWO + [0]) + after) + (before + (TWO + [0]) + after)
         == before + (TWO + ([0] + after + before + TWO + [0])) + after
  {
  }

  lemma OpenElements(slots: seq<Slot>, v: Bytes) returns (row: seq<Cell>)
    requires Supported(Scalars(slots)) && OpenColumns(Scalars(slots)) > 0 && v != []
    ensures RowHasType(slots, row)
    ensures RowBytes(slots, row) == Before(Scalars(slots)) + (TWO + v) + After(Scalars(slots))
  {
    var record := FirstOpen(Scalars(slots), v);
    FirstOpenBytes(Scalars(slots), v);
    CellsBytes(slots, record);
    row := Cells(record);
  }

  lemma {:induction false} SomeOpen(slots: seq<Slot>)
    ensures OpenColumns(Scalars(slots)) > 0 <==> !SelfDelimiting(slots)
  {
    if slots != [] {
      SomeOpen(slots[1..]);
      assert Scalars(slots)[1..] == Scalars(slots[1..]);
      assert forall k :: 0 < k < |slots| ==> slots[k] == slots[1..][k - 1];
      assert !SelfDelimiting(slots[1..]) ==> !SelfDelimiting(slots);
    }
  }

  /** A list of two elements and a list of one, with the same bytes. */
  lemma ListsCollide(elements: seq<Slot>) returns (a: OptionalList, b: OptionalList)
    requires Supported(Scalars(elements)) && !SelfDelimiting(elements)
    ensures ListHasType(elements, a) && ListHasType(elements, b)
    ensures ListBytes(elements, a) == ListBytes(elements, b)
    ensures CanonicalList(elements, a) != CanonicalList(elements, b)
  {
    SomeOpen(elements);
    var before, after := Before(Scalars(elements)), After(Scalars(elements));
    var x := OpenElements(elements, [0]);
    var y := OpenElements(elements, [0] + after + before + TWO + [0]);
    hide RowHasType, RowBytes, Before, After;
    Span(before, after);
    RowsBytesOne(elements, x);
    RowsBytesOne(elements, y);
    RowsBytesConcat(elements, [x], [x]);
    a, b := Some([x] + [x]), Some([y]);
    assert |CanonicalRows(elements, [x] + [x])| != |CanonicalRows(elements, [y])|;
  }

  lemma RowsBytesOne(slots: seq<Slot>, row: seq<Cell>)
    requires RowHasType(slots, row)
    ensures RowsHaveType(slots, [row]) && RowsBytes(slots, [row]) == RowBytes(slots, row)
  {
    assert [row][1..] == [];
  }

  lemma OneColumn(t: ColumnType, e: Entry)
    requires EntryHasType(t, e)
    ensures RecordHasType([t], [e]) && RecordBytes([t], [e]) == EntryBytes(t, e)
    ensures CanonicalRecord([t], [e]) == [CanonicalEntry(t, e)]
  {
    assert [t][1..] == [] && [e][1..] == [];
  }

  /** A list column with an open element column has colliding rows in every schema. */
  lemma ListKeysCollide(before: seq<ColumnType>, elements: seq<Slot>, after: seq<ColumnType>)
    requires Supported(before) && Supported([ListOf(elements)]) && Supported(after) && !SelfDelimiting(elements)
    ensures !Identifies(before + [ListOf(elements)] + after)
  {
    assert SupportedColumn([ListOf(elements)][0]);
    var a, b := ListsCollide(elements);
    OneColumn(ListOf(elements), ListEntry(a));
    OneColumn(ListOf(elements), ListEntry(b));
    Surround(before, [ListOf(elements)], after, [ListEntry(a)], [ListEntry(b)]);
  }

  /** The three parts of a row around its list column. */
  lemma AroundList(before: seq<Slot>, elements: seq<Slot>, after: seq<Slot>, record: seq<Entry>)
    returns (row: seq<Cell>, list: OptionalList, tail: seq<Cell>)
    requires RecordHasType(Scalars(before) + [ListOf(elements)] + Scalars(after), record)
    ensures RowHasType(before, row) && ListHasType(elements, list) && RowHasType(after, tail)
    ensures RecordBytes(Scalars(before) + [ListOf(elements)] + Scalars(after), record)
         == RowBytes(before, row) + ListBytes(elements, list) + RowBytes(after, tail)
    ensures CanonicalRecord(Scalars(before) + [ListOf(elements)] + Scalars(after), record)
         == Entries(CanonicalRow(before, row)) + [ListEntry(CanonicalList(elements, list))]
            + Entries(CanonicalRow(after, tail))
  {
    hide RecordBytes, RowBytes, ListBytes, CanonicalRow, CanonicalList, RowHasType, CanonicalRecord;
    var head := Scalars(before) + [ListOf(elements)];
    RecordSplit(head, Scalars(after), record);
    var front, back := record[..|head|], record[|head|..];
    RecordSplit(Scalars(before), [ListOf(elements)], front);
    var first, middle := front[..|before|], front[|before|..];
    CellsBytes(before, first);
    CellsBytes(after, back);
    assert EntryHasType([ListOf(elements)][0], middle[0]) && middle == [middle[0]];
    OneColumn(ListOf(elements), middle[0]);
    row, list, tail := Cells(first), middle[0].list, Cells(back);
  }

  /**
   * Self-delimiting columns, a list column and fixed-width columns: the bytes identify the rows exactly
   * when the elements of the list are self-delimiting.
   */
  lemma ListKeysAreInjective(before: seq<Slot>, elements: seq<Slot>, after: seq<Slot>)
    requires Supported(Scalars(before)) && Supported([ListOf(elements)]) && Supported(Scalars(after))
    requires SelfDelimiting(before) && FixedWidth(after)
    ensures Identifies(Scalars(before) + [ListOf(elements)] + Scalars(after)) <==> SelfDelimiting(elements)
  {
    var types := Scalars(before) + [ListOf(elements)] + Scalars(after);
    if SelfDelimiting(elements) {
      assert SupportedColumn([ListOf(elements)][0]);
      forall a, b | RecordHasType(types, a) && RecordHasType(types, b) && RecordBytes(types, a) == RecordBytes(types, b)
        ensures CanonicalRecord(types, a) == CanonicalRecord(types, b)
      {
        var row, list, tail := AroundList(before, elements, after, a);
        var row', list', tail' := AroundList(before, elements, after, b);
        LoneListInjective(before, row, row', elements, list, list', after, tail, tail');
      }
    } else {
      ListKeysCollide(Scalars(before), elements, Scalars(after));
    }
  }
}
