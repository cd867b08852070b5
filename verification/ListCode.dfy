/** Lists of rows: concatenated element rows behind a one-byte sentinel. */
module ListCode {
  import opened ByteStrings
  import opened Options
  import opened EncodingFields
  import opened RowCode
  import BlockCode

  ghost predicate RowsHaveType(slots: seq<Slot>, rows: seq<seq<Cell>>) {
    forall j :: 0 <= j < |rows| ==> RowHasType(slots, rows[j])
  }

  /** The bytes of consecutive rows. */
  ghost function RowsBytes(slots: seq<Slot>, rows: seq<seq<Cell>>): Bytes
    requires RowsHaveType(slots, rows)
  {
    if rows == [] then [] else RowBytes(slots, rows[0]) + RowsBytes(slots, rows[1..])
  }

  type OptionalList = Option<seq<seq<Cell>>>

  ghost predicate ListHasType(slots: seq<Slot>, list: OptionalList) {
    list.Some? ==> RowsHaveType(slots, list.value)
  }

  /** What `list_iter` hands to the variable-length pass for one list. */
  ghost function ListString(slots: seq<Slot>, list: OptionalList): BlockCode.Cell
    requires ListHasType(slots, list)
  {
    match list
    case None => None
    case Some(rows) => Some(RowsBytes(slots, rows))
  }

  /** The bytes of one list cell; lists are always encoded without order. */
  ghost function ListBytes(slots: seq<Slot>, list: OptionalList): Bytes
    requires ListHasType(slots, list)
  {
    BlockCode.CodeNoOrder(UNSORTED, ListString(slots, list))
  }

  ghost function CanonicalRows(slots: seq<Slot>, rows: seq<seq<Cell>>): (r: seq<seq<Cell>>)
    requires RowsHaveType(slots, rows)
    ensures |r| == |rows|
    ensures forall j :: 0 <= j < |rows| ==> r[j] == CanonicalRow(slots, rows[j])
  {
    seq(|rows|, j requires 0 <= j < |rows| => CanonicalRow(slots, rows[j]))
  }

  ghost function CanonicalList(slots: seq<Slot>, list: OptionalList): OptionalList
    requires ListHasType(slots, list)
  {
    match list
    case None => None
    case Some(rows) => Some(CanonicalRows(slots, rows))
  }

  lemma SlotCodeNonEmpty(field: EncodingField, t: LeafType, c: Cell)
    requires CellHasType(t, c)
    ensures SlotCode(field, t, c) != []
  {
  }

  lemma RowBytesNonEmpty(slots: seq<Slot>, row: seq<Cell>)
    requires RowHasType(slots, row) && slots != []
    ensures RowBytes(slots, row) != []
  {
    SlotCodeNonEmpty(slots[0].field, slots[0].leaf, row[0]);
  }

  lemma CanonicalRowsCons(slots: seq<Slot>, rows: seq<seq<Cell>>)
    requires RowsHaveType(slots, rows) && rows != []
    ensures CanonicalRows(slots, rows) == [CanonicalRow(slots, rows[0])] + CanonicalRows(slots, rows[1..])
  {
  }

  /** Concatenated rows decode in one way only: no separators or lengths are needed. */
  lemma {:induction false} UniqueDecoding(slots: seq<Slot>, xs: seq<seq<Cell>>, ys: seq<seq<Cell>>)
    requires RowsHaveType(slots, xs) && RowsHaveType(slots, ys) && SelfDelimiting(slots) && slots != []
    ensures RowsBytes(slots, xs) == RowsBytes(slots, ys) <==> CanonicalRows(slots, xs) == CanonicalRows(slots, ys)
    decreases |xs|
  {
    if xs == [] || ys == [] {
      if xs != [] {
        RowBytesNonEmpty(slots, xs[0]);
      }
      if ys != [] {
        RowBytesNonEmpty(slots, ys[0]);
      }
    } else {
      var x, y := RowBytes(slots, xs[0]), RowBytes(slots, ys[0]);
      var s, t := RowsBytes(slots, xs[1..]), RowsBytes(slots, ys[1..]);
      UniqueDecoding(slots, xs[1..], ys[1..]);
      RowEquality(slots, xs[0], ys[0]);
      RowPrefixFree(slots, xs[0], ys[0]);
      CanonicalRowsCons(slots, xs);
      CanonicalRowsCons(slots, ys);
      if x + s == y + t {
        SplitPrefix(x, y, s, t);
        assert s == (x + s)[|x|..] && t == (y + t)[|y|..];
      }
    }
  }

  /** Null, empty and non-empty lists, and different non-empty lists, all have different bytes. */
  lemma ListInjective(slots: seq<Slot>, a: OptionalList, b: OptionalList)
    requires ListHasType(slots, a) && ListHasType(slots, b) && SelfDelimiting(slots) && slots != []
    ensures ListBytes(slots, a) == ListBytes(slots, b) <==> CanonicalList(slots, a) == CanonicalList(slots, b)
  {
    if a.Some? && b.Some? {
      UniqueDecoding(slots, a.value, b.value);
      var x, y := RowsBytes(slots, a.value), RowsBytes(slots, b.value);
      if ListBytes(slots, a) == ListBytes(slots, b) && x != [] && y != [] {
        assert x == ListBytes(slots, a)[1..] && y == ListBytes(slots, b)[1..];
      }
    }
  }

  /** A row of self-delimiting columns, one list column and fixed-width columns is determined by its bytes. */
  lemma LoneListInjective(slots: seq<Slot>, row: seq<Cell>, row': seq<Cell>,
                          elements: seq<Slot>, list: OptionalList, list': OptionalList,
                          fixed: seq<Slot>, tail: seq<Cell>, tail': seq<Cell>)
    requires RowHasType(slots, row) && RowHasType(slots, row') && SelfDelimiting(slots)
    requires ListHasType(elements, list) && ListHasType(elements, list') && SelfDelimiting(elements) && elements != []
    requires RowHasType(fixed, tail) && RowHasType(fixed, tail') && FixedWidth(fixed)
    ensures (RowBytes(slots, row) + ListBytes(elements, list) + RowBytes(fixed, tail)
             == RowBytes(slots, row') + ListBytes(elements, list') + RowBytes(fixed, tail'))
         == (&& CanonicalRow(slots, row) == CanonicalRow(slots, row')
             && CanonicalList(elements, list) == CanonicalList(elements, list')
             && CanonicalRow(fixed, tail) == CanonicalRow(fixed, tail'))
  {
    RowEquality(slots, row, row');
    RowPrefixFree(slots, row, row');
    ListInjective(elements, list, list');
    RowEquality(fixed, tail, tail');
    FixedRowLength(fixed, tail, tail');
    hide RowBytes, ListBytes, CanonicalRow, CanonicalList;
    var x, y := RowBytes(slots, row), RowBytes(slots, row');
    var s, t := ListBytes(elements, list), ListBytes(elements, list');
    var u, v := RowBytes(fixed, tail), RowBytes(fixed, tail');
    if x + s + u == y + t + v {
      SplitMiddle(x, s, u, y, t, v);
    }
  }

  lemma RowsBytesCons(slots: seq<Slot>, rows: seq<seq<Cell>>)
    requires RowsHaveType(slots, rows) && rows != []
    ensures RowsBytes(slots, rows) == RowBytes(slots, rows[0]) + RowsBytes(slots, rows[1..])
  {
  }

  lemma {:induction false} RowsBytesConcat(slots: seq<Slot>, xs: seq<seq<Cell>>, ys: seq<seq<Cell>>)
    requires RowsHaveType(slots, xs) && RowsHaveType(slots, ys)
    ensures RowsHaveType(slots, xs + ys)
    ensures RowsBytes(slots, xs + ys) == RowsBytes(slots, xs) + RowsBytes(slots, ys)
  {
    hide RowHasType, RowBytes;
    if xs == [] {
      assert xs + ys == ys;
    } else {
      hide RowsBytes;
      RowsBytesConcat(slots, xs[1..], ys);
      RowsBytesCons(slots, xs);
      RowsBytesCons(slots, xs + ys);
      assert (xs + ys)[1..] == xs[1..] + ys;
      ConcatAssoc(RowBytes(slots, xs[0]), RowsBytes(slots, xs[1..]), RowsBytes(slots, ys));
    }
  }

  lemma NonEmptyListBytes(slots: seq<Slot>, rows: seq<seq<Cell>>)
    requires RowsHaveType(slots, rows) && RowsBytes(slots, rows) != []
    ensures ListBytes(slots, Some(rows)) == [BlockCode.NON_EMPTY_SENTINEL] + RowsBytes(slots, rows)
  {
  }
}
