/**
 * Two list columns side by side. A list is its sentinel and its elements, with no length, so the second
 * list may be read as more elements of the first: exactly then different rows can have the same bytes.
 */
module AdjacentLists {
  import opened ByteStrings
  import opened Options
  import opened RowCode
  import opened ListCode
  import opened Records
  import opened UnorderedKeys
  import opened EncodingFields
  import BlockCode

  // Any element types: when can the second list be read as part of the first?

  /** Some second list reads as elements of the first list followed by another second list. */
  ghost predicate Overlap(first: seq<Slot>, second: seq<Slot>) {
    exists d, b, b' :: Overlaps(first, second, d, b, b')
  }

  ghost predicate Overlaps(first: seq<Slot>, second: seq<Slot>, d: seq<seq<Cell>>, b: OptionalList, b': OptionalList) {
    && d != [] && RowsHaveType(first, d) && ListHasType(second, b) && ListHasType(second, b')
    && ListBytes(second, b) == RowsBytes(first, d) + ListBytes(second, b')
  }

  lemma IsOverlap(first: seq<Slot>, second: seq<Slot>, d: seq<seq<Cell>>, b: OptionalList, b': OptionalList)
    requires d != [] && RowsHaveType(first, d) && ListHasType(second, b) && ListHasType(second, b')
    requires ListBytes(second, b) == RowsBytes(first, d) + ListBytes(second, b')
    ensures Overlap(first, second)
  {
    assert Overlaps(first, second, d, b, b');
  }

  /** The shorter of two lists with a common continuation is the start of the longer one. */
  lemma {:induction false} CommonStart(slots: seq<Slot>, xs: seq<seq<Cell>>, s: Bytes, ys: seq<seq<Cell>>, t: Bytes)
    requires RowsHaveType(slots, xs) && RowsHaveType(slots, ys) && SelfDelimiting(slots)
    requires RowsBytes(slots, xs) + s == RowsBytes(slots, ys) + t && |xs| <= |ys|
    ensures CanonicalRows(slots, xs) == CanonicalRows(slots, ys[..|xs|])
    ensures s == RowsBytes(slots, ys[|xs|..]) + t
    decreases |xs|
  {
    if xs == [] {
      assert RowsBytes(slots, xs) + s == s && ys[0..] == ys;
    } else {
      var x, y := RowBytes(slots, xs[0]), RowBytes(slots, ys[0]);
      var u, v := RowsBytes(slots, xs[1..]), RowsBytes(slots, ys[1..]);
      RowPrefixFree(slots, xs[0], ys[0]);
      RowEquality(slots, xs[0], ys[0]);
      hide RowHasType, RowBytes, CanonicalRow;
      ConcatAssoc(x, u, s);
      ConcatAssoc(y, v, t);
      SplitPrefix(x, y, u + s, v + t);
      SplitSameLength(x, u + s, y, v + t);
      CommonStart(slots, xs[1..], s, ys[1..], t);
      assert ys[1..][|xs| - 1..] == ys[|xs|..] && ys[1..][..|xs| - 1] == ys[..|xs|][1..];
      CanonicalRowsCons(slots, xs);
      CanonicalRowsCons(slots, ys[..|xs|]);
    }
  }

  /** Lists with elements in them, the first of which is no longer than the other. */
  lemma ShorterFirst(first: seq<Slot>, second: seq<Slot>, xs: seq<seq<Cell>>, b: OptionalList, ys: seq<seq<Cell>>, b': OptionalList)
    requires SelfDelimiting(first) && SelfDelimiting(second) && second != [] && !Overlap(first, second)
    requires RowsHaveType(first, xs) && RowsHaveType(first, ys) && ListHasType(second, b) && ListHasType(second, b')
    requires RowsBytes(first, xs) + ListBytes(second, b) == RowsBytes(first, ys) + ListBytes(second, b') && |xs| <= |ys|
    ensures CanonicalRows(first, xs) == CanonicalRows(first, ys) && CanonicalList(second, b) == CanonicalList(second, b')
  {
    hide ListBytes, RowsBytes, CanonicalRows, CanonicalList;
    var s, t := ListBytes(second, b), ListBytes(second, b');
    CommonStart(first, xs, s, ys, t);
    var d := ys[|xs|..];
    if d != [] {
      IsOverlap(first, second, d, b, b');
    } else {
      assert ys[..|xs|] == ys;
      NoRows(first);
      assert [] + t == t;
      ListInjective(second, b, b');
    }
  }

  lemma NoRows(slots: seq<Slot>)
    ensures RowsBytes(slots, []) == []
  {
  }

  lemma ListStart(slots: seq<Slot>, list: OptionalList)
    requires ListHasType(slots, list) && slots != []
    ensures var code := ListBytes(slots, list);
            && code != []
            && (code[0] == 0 <==> list.None?) && (list.None? ==> code[1..] == [])
            && (list.Some? ==> code[1..] == RowsBytes(slots, list.value))
  {
  }

  lemma SplitFirst(x: Bytes, s: Bytes, y: Bytes, t: Bytes)
    requires x + s == y + t && x != [] && y != []
    ensures x[0] == y[0] && x[1..] + s == y[1..] + t
  {
    assert x[0] == (x + s)[0] && y[0] == (y + t)[0];
    assert (x + s)[1..] == x[1..] + s && (y + t)[1..] == y[1..] + t;
  }

  lemma SameKind(slots: seq<Slot>, a: OptionalList, a': OptionalList, s: Bytes, t: Bytes)
    requires ListHasType(slots, a) && ListHasType(slots, a') && slots != []
    requires ListBytes(slots, a) + s == ListBytes(slots, a') + t
    ensures a.None? <==> a'.None?
    ensures a.Some? ==> RowsBytes(slots, a.value) + s == RowsBytes(slots, a'.value) + t
    ensures a.None? ==> s == t
  {
    hide ListBytes, RowsBytes;
    ListStart(slots, a);
    ListStart(slots, a');
    SplitFirst(ListBytes(slots, a), s, ListBytes(slots, a'), t);
    assert [] + s == s && [] + t == t;
  }

  /** Without overlap, a pair of lists is determined by its bytes. */
  lemma PairInjective(first: seq<Slot>, second: seq<Slot>, a: OptionalList, b: OptionalList, a': OptionalList, b': OptionalList)
    requires SelfDelimiting(first) && SelfDelimiting(second) && first != [] && second != [] && !Overlap(first, second)
    requires ListHasType(first, a) && ListHasType(first, a') && ListHasType(second, b) && ListHasType(second, b')
    requires ListBytes(first, a) + ListBytes(second, b) == ListBytes(first, a') + ListBytes(second, b')
    ensures CanonicalList(first, a) == CanonicalList(first, a') && CanonicalList(second, b) == CanonicalList(second, b')
  {
    SameKind(first, a, a', ListBytes(second, b), ListBytes(second, b'));
    hide ListBytes, RowsBytes, Overlap;
    if a.None? {
      ListInjective(second, b, b');
    } else if |a.value| <= |a'.value| {
      ShorterFirst(first, second, a.value, b, a'.value, b');
    } else {
      ShorterFirst(first, second, a'.value, b', a.value, b);
    }
  }

  lemma RowsBytesNonEmpty(slots: seq<Slot>, rows: seq<seq<Cell>>)
    requires RowsHaveType(slots, rows) && rows != [] && slots != []
    ensures RowsBytes(slots, rows) != []
  {
    RowBytesNonEmpty(slots, rows[0]);
    RowsBytesCons(slots, rows);
  }

  lemma Twice(r: Bytes, t: Bytes)
    ensures (TWO + r) + (r + t) == (TWO + (r + r)) + t
  {
  }

  /** The list `d` and twice that list, followed by what makes up for it. */
  lemma Doubled(first: seq<Slot>, d: seq<seq<Cell>>, s: Bytes, t: Bytes)
    requires first != [] && d != [] && RowsHaveType(first, d) && s == RowsBytes(first, d) + t
    ensures RowsHaveType(first, d + d)
    ensures ListBytes(first, Some(d)) + s == ListBytes(first, Some(d + d)) + t
    ensures CanonicalList(first, Some(d)) != CanonicalList(first, Some(d + d))
  {
    hide RowsBytes, RowBytes, ListBytes, CanonicalRow, RowHasType;
    RowsBytesConcat(first, d, d);
    RowsBytesNonEmpty(first, d);
    NonEmptyListBytes(first, d);
    NonEmptyListBytes(first, d + d);
    assert |CanonicalRows(first, d)| != |CanonicalRows(first, d + d)|;
    Twice(RowsBytes(first, d), t);
  }

  /** With overlap, the elements can be in either list, whatever columns come before and after. */
  lemma PairCollides(before: seq<ColumnType>, first: seq<Slot>, second: seq<Slot>, after: seq<ColumnType>)
    requires Supported(before) && Supported(after) && first != [] && Overlap(first, second)
    ensures !Identifies(before + [ListOf(first), ListOf(second)] + after)
  {
    var d, b, b' :| Overlaps(first, second, d, b, b');
    hide ListBytes, RowsBytes, CanonicalList, RowsHaveType;
    Doubled(first, d, ListBytes(second, b), ListBytes(second, b'));
    var types := [ListOf(first), ListOf(second)];
    var x, y := [ListEntry(Some(d)), ListEntry(b)], [ListEntry(Some(d + d)), ListEntry(b')];
    TwoColumns(ListOf(first), x[0], ListOf(second), x[1]);
    TwoColumns(ListOf(first), y[0], ListOf(second), y[1]);
    hide Identifies, RecordBytes, RecordHasType, Supported;
    Surround(before, types, after, x, y);
  }

  lemma TwoColumns(s: ColumnType, a: Entry, t: ColumnType, b: Entry)
    requires EntryHasType(s, a) && EntryHasType(t, b)
    ensures RecordHasType([s, t], [a, b]) && RecordBytes([s, t], [a, b]) == EntryBytes(s, a) + EntryBytes(t, b)
    ensures CanonicalRecord([s, t], [a, b]) == [CanonicalEntry(s, a), CanonicalEntry(t, b)]
  {
    OneColumn(s, a);
    OneColumn(t, b);
    RecordConcat([s], [a], [t], [b]);
    assert [s] + [t] == [s, t] && [a] + [b] == [a, b];
  }

  /** The parts of a row around a pair of columns. */
  lemma AroundPair(before: seq<Slot>, s: ColumnType, t: ColumnType, after: seq<Slot>, record: seq<Entry>)
    returns (row: seq<Cell>, x: Entry, y: Entry, tail: seq<Cell>)
    requires RecordHasType(Scalars(before) + [s, t] + Scalars(after), record)
    ensures RowHasType(before, row) && EntryHasType(s, x) && EntryHasType(t, y) && RowHasType(after, tail)
    ensures RecordBytes(Scalars(before) + [s, t] + Scalars(after), record)
         == RowBytes(before, row) + (EntryBytes(s, x) + EntryBytes(t, y)) + RowBytes(after, tail)
    ensures CanonicalRecord(Scalars(before) + [s, t] + Scalars(after), record)
         == Entries(CanonicalRow(before, row)) + [CanonicalEntry(s, x), CanonicalEntry(t, y)]
            + Entries(CanonicalRow(after, tail))
  {
    hide RecordBytes, RowBytes, EntryBytes, CanonicalRow, CanonicalEntry, RowHasType, CanonicalRecord, EntryHasType;
    var types := [s, t];
    var head := Scalars(before) + types;
    RecordSplit(head, Scalars(after), record);
    var front, back := record[..|head|], record[|head|..];
    RecordSplit(Scalars(before), types, front);
    var start, middle := front[..|before|], front[|before|..];
    CellsBytes(before, start);
    CellsBytes(after, back);
    assert EntryHasType(types[0], middle[0]) && EntryHasType(types[1], middle[1]) && middle == [middle[0], middle[1]];
    TwoColumns(s, middle[0], t, middle[1]);
    row, x, y, tail := Cells(start), middle[0], middle[1], Cells(back);
  }

  /** If a pair of columns is determined by its bytes, so are rows with self-delimiting and fixed-width columns around it. */
  lemma PairIdentified(before: seq<Slot>, s: ColumnType, t: ColumnType, after: seq<Slot>)
    requires SelfDelimiting(before) && FixedWidth(after) && PairDetermined(s, t)
    ensures Identifies(Scalars(before) + [s, t] + Scalars(after))
  {
    var types := Scalars(before) + [s, t] + Scalars(after);
    forall a, b | RecordHasType(types, a) && RecordHasType(types, b) && RecordBytes(types, a) == RecordBytes(types, b)
      ensures CanonicalRecord(types, a) == CanonicalRecord(types, b)
    {
      var row, x, y, tail := AroundPair(before, s, t, after, a);
      var row', x', y', tail' := AroundPair(before, s, t, after, b);
      RowPrefixFree(before, row, row');
      FixedRowLength(after, tail, tail');
      RowEquality(before, row, row');
      RowEquality(after, tail, tail');
      hide RecordBytes, RowBytes, EntryBytes, CanonicalRow, CanonicalEntry;
      SplitMiddle(RowBytes(before, row), EntryBytes(s, x) + EntryBytes(t, y), RowBytes(after, tail),
                  RowBytes(before, row'), EntryBytes(s, x') + EntryBytes(t, y'), RowBytes(after, tail'));
      assert SamePair(s, t, x, y, x', y');
    }
  }

  ghost predicate PairDetermined(s: ColumnType, t: ColumnType) {
    forall x, y, x', y' :: EntryHasType(s, x) && EntryHasType(t, y) && EntryHasType(s, x') && EntryHasType(t, y')
                           && EntryBytes(s, x) + EntryBytes(t, y) == EntryBytes(s, x') + EntryBytes(t, y')
                           ==> SamePair(s, t, x, y, x', y')
  }

  ghost predicate SamePair(s: ColumnType, t: ColumnType, x: Entry, y: Entry, x': Entry, y': Entry)
    requires EntryHasType(s, x) && EntryHasType(t, y) && EntryHasType(s, x') && EntryHasType(t, y')
  {
    CanonicalEntry(s, x) == CanonicalEntry(s, x') && CanonicalEntry(t, y) == CanonicalEntry(t, y')
  }

  /** Two adjacent list columns are identified by their bytes exactly when they cannot overlap. */
  lemma AdjacentLists(before: seq<Slot>, first: seq<Slot>, second: seq<Slot>, after: seq<Slot>)
    requires Supported(Scalars(before)) && Supported(Scalars(after)) && SelfDelimiting(before) && FixedWidth(after)
    requires SelfDelimiting(first) && SelfDelimiting(second) && first != [] && second != []
    ensures Identifies(Scalars(before) + [ListOf(first), ListOf(second)] + Scalars(after)) <==> !Overlap(first, second)
  {
    if Overlap(first, second) {
      PairCollides(Scalars(before), first, second, Scalars(after));
    } else {
      forall x, y, x', y' |
        && EntryHasType(ListOf(first), x) && EntryHasType(ListOf(second), y)
        && EntryHasType(ListOf(first), x') && EntryHasType(ListOf(second), y')
        && EntryBytes(ListOf(first), x) + EntryBytes(ListOf(second), y)
           == EntryBytes(ListOf(first), x') + EntryBytes(ListOf(second), y')
        ensures SamePair(ListOf(first), ListOf(second), x, y, x', y')
      {
        hide ListBytes, CanonicalList, Overlap;
        PairInjective(first, second, x.list, y.list, x'.list, y'.list);
      }
      PairIdentified(before, ListOf(first), ListOf(second), after);
    }
  }

  /** The first element read from the second list starts with that list's sentinel. */
  lemma StartsWithTwo(first: seq<Slot>, second: seq<Slot>, d: seq<seq<Cell>>, b: OptionalList, b': OptionalList)
    requires Overlaps(first, second, d, b, b') && first != []
    ensures RowsBytes(first, d) != [] && RowsBytes(first, d)[0] == 2
    ensures b.Some? && RowsBytes(second, b.value) != []
    ensures TWO + RowsBytes(second, b.value) == RowsBytes(first, d) + ListBytes(second, b')
  {
    RowBytesNonEmpty(first, d[0]);
    hide RowBytes, RowHasType;
    var x, y, z := RowsBytes(first, d), ListBytes(second, b'), ListBytes(second, b);
    assert |x| >= 1 && |y| >= 1;
    assert |x + y| >= 2;
    assert z == TWO + RowsBytes(second, b.value);
    assert z[0] == x[0];
  }

  lemma NotTwo(slots: seq<Slot>, rows: seq<seq<Cell>>)
    requires RowsHaveType(slots, rows) && rows != [] && slots != [] && SelfDelimiting(slots)
    requires !(slots[0].leaf.Binary? && !slots[0].field.descending)
    ensures RowsBytes(slots, rows) != [] && RowsBytes(slots, rows)[0] != 2
  {
    var row, slot := rows[0], slots[0];
    RowsBytesCons(slots, rows);
    assert RowHasType(slots, row);
    assert RowBytes(slots, row) == SlotCode(slot.field, slot.leaf, row[0]) + RowBytes(slots[1..], row[1..]);
    hide RowsBytes, RowBytes, RowHasType;
    assert SlotCode(slot.field, slot.leaf, row[0]) != [] && SlotCode(slot.field, slot.leaf, row[0])[0] != 2;
  }

  /** Only the code of an ascending string starts like a non-empty list. */
  lemma NoStart(first: seq<Slot>, second: seq<Slot>)
    requires SelfDelimiting(first) && first != [] && !(first[0].leaf.Binary? && !first[0].field.descending)
    ensures !Overlap(first, second)
  {
    hide RowsBytes, ListBytes;
    forall d, b, b'
      ensures !Overlaps(first, second, d, b, b')
    {
      if Overlaps(first, second, d, b, b') {
        StartsWithTwo(first, second, d, b, b');
        NotTwo(first, d);
      }
    }
  }

  // A list followed by an ordered string.

  /** The code of a non-empty string depends on its direction only. */
  lemma LongCodes(f: EncodingField, g: EncodingField, v: Bytes)
    requires v != [] && f.descending == g.descending
    ensures BlockCode.Code(f, Some(v)) == BlockCode.Code(g, Some(v))
  {
  }

  /** A cell whose code starts like a long string of the given direction is such a string. */
  lemma StartsLikeString(slot: Slot, cell: Cell, f: EncodingField)
    requires CellHasType(slot.leaf, cell) && !slot.Open() && SlotCode(slot.field, slot.leaf, cell) != []
    requires SlotCode(slot.field, slot.leaf, cell)[0] == (if f.descending then 253 else 2)
    ensures slot.leaf.Binary? && cell.Some? && cell.value.v != [] && slot.field.descending == f.descending
  {
    if slot.leaf.Binary? {
      BlockCode.FirstByte(slot.field, BytesCell(cell));
    }
  }

  lemma FirstCell(slots: seq<Slot>, rows: seq<seq<Cell>>)
    requires RowsHaveType(slots, rows) && rows != [] && slots != []
    ensures RowHasType(slots, rows[0]) && CellHasType(slots[0].leaf, rows[0][0])
    ensures var code := SlotCode(slots[0].field, slots[0].leaf, rows[0][0]); code != [] && code <= RowsBytes(slots, rows)
  {
    var row, slot := rows[0], slots[0];
    RowsBytesCons(slots, rows);
    assert RowHasType(slots, row);
    SlotCodeNonEmpty(slot.field, slot.leaf, row[0]);
    assert RowBytes(slots, row) == SlotCode(slot.field, slot.leaf, row[0]) + RowBytes(slots[1..], row[1..]);
    hide RowsBytes, RowBytes, SlotCode;
  }

  /** No string reads as elements of a list followed by another string. */
  lemma NoStringOverlap(elements: seq<Slot>, f: EncodingField, d: seq<seq<Cell>>, t: BlockCode.Cell, t': BlockCode.Cell)
    requires SelfDelimiting(elements) && elements != [] && RowsHaveType(elements, d) && d != []
    ensures BlockCode.Code(f, t) != RowsBytes(elements, d) + BlockCode.Code(f, t')
  {
    var rest := BlockCode.Code(f, t');
    BlockCode.FirstByte(f, t);
    BlockCode.FirstByte(f, t');
    FirstCell(elements, d);
    var slot, cell := elements[0], d[0][0];
    var head := SlotCode(slot.field, slot.leaf, cell);
    hide RowsBytes, RowsHaveType, RowHasType;
    if BlockCode.Code(f, t) == RowsBytes(elements, d) + rest {
      var code := BlockCode.Code(f, t);
      assert head <= code && |head| < |code| && head[0] == code[0];
      StartsLikeString(slot, cell, f);
      LongCodes(slot.field, f, cell.value.v);
      BlockCode.CodePrefixFree(f, Some(cell.value.v), t);
    }
  }

  lemma ListStringDetermined(elements: seq<Slot>, slot: Slot)
    requires SelfDelimiting(elements) && elements != [] && slot.leaf.Binary? && !slot.field.noOrder
    ensures PairDetermined(ListOf(elements), Scalar(slot))
  {
    var s, t := ListOf(elements), Scalar(slot);
    forall x, y, x', y' |
      && EntryHasType(s, x) && EntryHasType(t, y) && EntryHasType(s, x') && EntryHasType(t, y')
      && EntryBytes(s, x) + EntryBytes(t, y) == EntryBytes(s, x') + EntryBytes(t, y')
      ensures SamePair(s, t, x, y, x', y')
    {
      ListString(elements, slot, x.list, y.cell, x'.list, y'.cell);
    }
  }

  lemma ListString(elements: seq<Slot>, slot: Slot, a: OptionalList, c: Cell, a': OptionalList, c': Cell)
    requires SelfDelimiting(elements) && elements != [] && slot.leaf.Binary? && !slot.field.noOrder
    requires ListHasType(elements, a) && ListHasType(elements, a') && CellHasType(slot.leaf, c) && CellHasType(slot.leaf, c')
    requires ListBytes(elements, a) + SlotCode(slot.field, slot.leaf, c)
          == ListBytes(elements, a') + SlotCode(slot.field, slot.leaf, c')
    ensures CanonicalList(elements, a) == CanonicalList(elements, a') && CanonicalCell(slot.leaf, c) == CanonicalCell(slot.leaf, c')
  {
    var x, y := SlotCode(slot.field, slot.leaf, c), SlotCode(slot.field, slot.leaf, c');
    SameKind(elements, a, a', x, y);
    SlotInjective(slot, c, c');
    hide ListBytes, RowsBytes, CanonicalRows;
    if a.Some? {
      if |a.value| <= |a'.value| {
        ListStringShorter(elements, slot, a.value, c, a'.value, c');
      } else {
        ListStringShorter(elements, slot, a'.value, c', a.value, c);
      }
    }
  }

  lemma StringSlot(slot: Slot, c: Cell)
    requires slot.leaf.Binary? && !slot.field.noOrder && CellHasType(slot.leaf, c)
    ensures CellHasType(Binary, c) && SlotCode(slot.field, slot.leaf, c) == BlockCode.Code(slot.field, BytesCell(c))
  {
  }

  lemma TailHasType(slots: seq<Slot>, rows: seq<seq<Cell>>, k: nat)
    requires RowsHaveType(slots, rows) && k <= |rows|
    ensures RowsHaveType(slots, rows[k..]) && RowsHaveType(slots, rows[..k])
  {
  }

  lemma ListStringShorter(elements: seq<Slot>, slot: Slot, xs: seq<seq<Cell>>, c: Cell, ys: seq<seq<Cell>>, c': Cell)
    requires SelfDelimiting(elements) && elements != [] && slot.leaf.Binary? && !slot.field.noOrder
    requires RowsHaveType(elements, xs) && RowsHaveType(elements, ys) && CellHasType(slot.leaf, c) && CellHasType(slot.leaf, c')
    requires RowsBytes(elements, xs) + SlotCode(slot.field, slot.leaf, c)
          == RowsBytes(elements, ys) + SlotCode(slot.field, slot.leaf, c') && |xs| <= |ys|
    ensures CanonicalRows(elements, xs) == CanonicalRows(elements, ys)
    ensures SlotCode(slot.field, slot.leaf, c) == SlotCode(slot.field, slot.leaf, c')
  {
    hide RowsBytes, CanonicalRows, SlotCode, RowsHaveType, CellHasType, SelfDelimiting;
    var s, t := SlotCode(slot.field, slot.leaf, c), SlotCode(slot.field, slot.leaf, c');
    if |xs| == |ys| {
      EquallyLong(elements, xs, s, ys, t);
    } else {
      StringSlot(slot, c);
      StringSlot(slot, c');
      TailHasType(elements, ys, |xs|);
      CommonStart(elements, xs, s, ys, t);
      NoStringOverlap(elements, slot.field, ys[|xs|..], BytesCell(c), BytesCell(c'));
    }
  }

  lemma EquallyLong(slots: seq<Slot>, xs: seq<seq<Cell>>, s: Bytes, ys: seq<seq<Cell>>, t: Bytes)
    requires RowsHaveType(slots, xs) && RowsHaveType(slots, ys) && SelfDelimiting(slots)
    requires RowsBytes(slots, xs) + s == RowsBytes(slots, ys) + t && |xs| == |ys|
    ensures CanonicalRows(slots, xs) == CanonicalRows(slots, ys) && s == t
  {
    hide RowsBytes, CanonicalRows, SelfDelimiting;
    CommonStart(slots, xs, s, ys, t);
    assert ys[..|xs|] == ys && ys[|xs|..] == [];
    NoRows(slots);
    assert [] + t == t;
  }

  /**
   * A list column followed by an ordered string column: bytes identify rows exactly when the elements of
   * the list are self-delimiting.
   */
  lemma ListThenString(before: seq<Slot>, elements: seq<Slot>, slot: Slot, after: seq<Slot>)
    requires Supported(Scalars(before)) && Supported(Scalars(after)) && SelfDelimiting(before) && FixedWidth(after)
    requires Supported([ListOf(elements)]) && slot.leaf.Binary? && !slot.field.noOrder
    ensures Identifies(Scalars(before) + [ListOf(elements), Scalar(slot)] + Scalars(after)) <==> SelfDelimiting(elements)
  {
    hide Identifies;
    assert SupportedColumn([ListOf(elements)][0]);
    if SelfDelimiting(elements) {
      ListStringDetermined(elements, slot);
      PairIdentified(before, ListOf(elements), Scalar(slot), after);
    } else {
      var rest := [Scalar(slot)] + Scalars(after);
      assert Supported(rest) by {
        assert SupportedColumn(Scalar(slot));
      }
      ListKeysCollide(Scalars(before), elements, rest);
      assert Scalars(before) + [ListOf(elements)] + rest
          == Scalars(before) + [ListOf(elements), Scalar(slot)] + Scalars(after);
    }
  }
}
