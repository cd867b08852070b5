/** Schemas with list columns anywhere, the bytes of their rows, and whether bytes identify rows. */
module Records {
  import opened ByteStrings
  import opened Options
  import opened RowCode
  import opened ListCode

  datatype ColumnType = Scalar(slot: Slot) | ListOf(elements: seq<Slot>)

  datatype Entry = ScalarEntry(cell: Cell) | ListEntry(list: OptionalList)

  ghost predicate EntryHasType(t: ColumnType, e: Entry) {
    match t
    case Scalar(slot) => e.ScalarEntry? && CellHasType(slot.leaf, e.cell)
    case ListOf(elements) => e.ListEntry? && ListHasType(elements, e.list)
  }

  ghost predicate RecordHasType(types: seq<ColumnType>, record: seq<Entry>) {
    && |record| == |types|
    && forall k :: 0 <= k < |types| ==> EntryHasType(types[k], record[k])
  }

  ghost function EntryBytes(t: ColumnType, e: Entry): Bytes
    requires EntryHasType(t, e)
  {
    match t
    case Scalar(slot) => SlotCode(slot.field, slot.leaf, e.cell)
    case ListOf(elements) => ListBytes(elements, e.list)
  }

  ghost function CanonicalEntry(t: ColumnType, e: Entry): Entry
    requires EntryHasType(t, e)
  {
    match t
    case Scalar(slot) => ScalarEntry(CanonicalCell(slot.leaf, e.cell))
    case ListOf(elements) => ListEntry(CanonicalList(elements, e.list))
  }

  /** The bytes of a row: those of its columns, one after the other. */
  ghost function RecordBytes(types: seq<ColumnType>, record: seq<Entry>): Bytes
    requires RecordHasType(types, record)
  {
    if types == [] then [] else EntryBytes(types[0], record[0]) + RecordBytes(types[1..], record[1..])
  }

  ghost function CanonicalRecord(types: seq<ColumnType>, record: seq<Entry>): (r: seq<Entry>)
    requires RecordHasType(types, record)
    ensures |r| == |record|
    ensures forall k :: 0 <= k < |record| ==> r[k] == CanonicalEntry(types[k], record[k])
  {
    seq(|record|, k requires 0 <= k < |record| => CanonicalEntry(types[k], record[k]))
  }

  /** Rows with the same bytes are the same, up to NaNs and the sign of zero. */
  ghost predicate Identifies(types: seq<ColumnType>) {
    forall a, b :: RecordHasType(types, a) && RecordHasType(types, b) && RecordBytes(types, a) == RecordBytes(types, b)
                   ==> CanonicalRecord(types, a) == CanonicalRecord(types, b)
  }

  /** Two different rows with the same bytes. */
  ghost predicate Collide(types: seq<ColumnType>, a: seq<Entry>, b: seq<Entry>) {
    && RecordHasType(types, a) && RecordHasType(types, b)
    && RecordBytes(types, a) == RecordBytes(types, b)
    && CanonicalRecord(types, a) != CanonicalRecord(types, b)
  }

  /** The leaf types the encoder supports, and elements with at least one leaf. */
  ghost predicate Supported(types: seq<ColumnType>) {
    forall k :: 0 <= k < |types| ==> SupportedColumn(types[k])
  }

  ghost predicate SupportedColumn(t: ColumnType) {
    match t
    case Scalar(slot) => slot.leaf.Supported()
    case ListOf(elements) => elements != [] && forall k :: 0 <= k < |elements| ==> elements[k].leaf.Supported()
  }

  ghost function NullRecord(types: seq<ColumnType>): (record: seq<Entry>)
    requires Supported(types)
    ensures RecordHasType(types, record)
  {
    seq(|types|, k requires 0 <= k < |types| => if types[k].Scalar? then ScalarEntry(None) else ListEntry(None))
  }

  // Concatenation.

  lemma TypeConcat(s: seq<ColumnType>, a: seq<Entry>, t: seq<ColumnType>, b: seq<Entry>)
    requires RecordHasType(s, a) && RecordHasType(t, b)
    ensures RecordHasType(s + t, a + b)
    ensures CanonicalRecord(s + t, a + b) == CanonicalRecord(s, a) + CanonicalRecord(t, b)
  {
    hide EntryHasType, CanonicalEntry;
  }

  lemma RecordCons(types: seq<ColumnType>, record: seq<Entry>)
    requires RecordHasType(types, record) && types != []
    ensures EntryHasType(types[0], record[0]) && RecordHasType(types[1..], record[1..])
    ensures RecordBytes(types, record) == EntryBytes(types[0], record[0]) + RecordBytes(types[1..], record[1..])
  {
  }

  lemma {:induction false} BytesConcat(s: seq<ColumnType>, a: seq<Entry>, t: seq<ColumnType>, b: seq<Entry>)
    requires RecordHasType(s, a) && RecordHasType(t, b) && RecordHasType(s + t, a + b)
    ensures RecordBytes(s + t, a + b) == RecordBytes(s, a) + RecordBytes(t, b)
  {
    hide EntryHasType, EntryBytes, RecordBytes;
    if s == [] {
      assert s + t == t && a + b == b;
      assert RecordBytes(s, a) == [] by {
        NoColumns(a);
      }
    } else {
      RecordCons(s, a);
      RecordCons(s + t, a + b);
      assert (s + t)[1..] == s[1..] + t && (a + b)[1..] == a[1..] + b;
      hide RecordHasType;
      BytesConcat(s[1..], a[1..], t, b);
      ConcatAssoc(EntryBytes(s[0], a[0]), RecordBytes(s[1..], a[1..]), RecordBytes(t, b));
    }
  }

  lemma NoColumns(record: seq<Entry>)
    requires RecordHasType([], record)
    ensures RecordBytes([], record) == []
  {
  }

  lemma RecordConcat(s: seq<ColumnType>, a: seq<Entry>, t: seq<ColumnType>, b: seq<Entry>)
    requires RecordHasType(s, a) && RecordHasType(t, b)
    ensures RecordHasType(s + t, a + b)
    ensures RecordBytes(s + t, a + b) == RecordBytes(s, a) + RecordBytes(t, b)
    ensures CanonicalRecord(s + t, a + b) == CanonicalRecord(s, a) + CanonicalRecord(t, b)
  {
    hide RecordHasType, RecordBytes, CanonicalRecord;
    TypeConcat(s, a, t, b);
    BytesConcat(s, a, t, b);
  }

  lemma RecordSplit(s: seq<ColumnType>, t: seq<ColumnType>, record: seq<Entry>)
    requires RecordHasType(s + t, record)
    ensures RecordHasType(s, record[..|s|]) && RecordHasType(t, record[|s|..])
    ensures RecordBytes(s + t, record) == RecordBytes(s, record[..|s|]) + RecordBytes(t, record[|s|..])
    ensures CanonicalRecord(s + t, record) == CanonicalRecord(s, record[..|s|]) + CanonicalRecord(t, record[|s|..])
  {
    hide EntryHasType, EntryBytes, CanonicalEntry, RecordBytes, CanonicalRecord;
    var a, b := record[..|s|], record[|s|..];
    assert RecordHasType(s, a) by {
      assert forall k :: 0 <= k < |s| ==> (s + t)[k] == s[k] && record[k] == a[k];
    }
    assert RecordHasType(t, b) by {
      assert forall k :: 0 <= k < |t| ==> (s + t)[|s| + k] == t[k] && record[|s| + k] == b[k];
    }
    assert record == a + b;
    RecordConcat(s, a, t, b);
  }

  /** Colliding rows of some columns collide in any schema that has these columns side by side. */
  lemma Surround(before: seq<ColumnType>, types: seq<ColumnType>, after: seq<ColumnType>, a: seq<Entry>, b: seq<Entry>)
    requires Supported(before) && Supported(after) && Collide(types, a, b)
    ensures !Identifies(before + types + after)
  {
    hide NullRecord, RecordBytes, CanonicalRecord, EntryHasType, RecordHasType;
    var x, y := NullRecord(before), NullRecord(after);
    RecordConcat(before, x, types, a);
    RecordConcat(before, x, types, b);
    RecordConcat(before + types, x + a, after, y);
    RecordConcat(before + types, x + b, after, y);
    var c, d := CanonicalRecord(types, a), CanonicalRecord(types, b);
    var u, v := CanonicalRecord(before, x), CanonicalRecord(after, y);
    MiddleDiffers(u, c, d, v);
  }

  lemma MiddleDiffers<T>(u: seq<T>, c: seq<T>, d: seq<T>, v: seq<T>)
    requires c != d
    ensures u + c + v != u + d + v
  {
    assert c == (u + c + v)[|u|..|u| + |c|];
    assert d == (u + d + v)[|u|..|u| + |d|];
    assert |u + c + v| == |u| + |c| + |v| && |u + d + v| == |u| + |d| + |v|;
  }

  // Schemas without lists are rows of leaf cells.

  function Scalars(slots: seq<Slot>): (types: seq<ColumnType>)
    ensures |types| == |slots|
    ensures forall k :: 0 <= k < |slots| ==> types[k] == Scalar(slots[k])
  {
    seq(|slots|, k requires 0 <= k < |slots| => Scalar(slots[k]))
  }

  ghost function Cells(record: seq<Entry>): (row: seq<Cell>)
    requires forall k :: 0 <= k < |record| ==> record[k].ScalarEntry?
    ensures |row| == |record|
    ensures forall k :: 0 <= k < |record| ==> row[k] == record[k].cell
  {
    seq(|record|, k requires 0 <= k < |record| => record[k].cell)
  }

  ghost function Entries(row: seq<Cell>): (record: seq<Entry>)
    ensures |record| == |row|
    ensures forall k :: 0 <= k < |row| ==> record[k] == ScalarEntry(row[k])
  {
    seq(|row|, k requires 0 <= k < |row| => ScalarEntry(row[k]))
  }

  lemma {:induction false} EntriesBytes(slots: seq<Slot>, row: seq<Cell>)
    requires RowHasType(slots, row)
    ensures RecordHasType(Scalars(slots), Entries(row))
    ensures RecordBytes(Scalars(slots), Entries(row)) == RowBytes(slots, row)
    ensures CanonicalRecord(Scalars(slots), Entries(row)) == Entries(CanonicalRow(slots, row))
  {
    if slots != [] {
      EntriesBytes(slots[1..], row[1..]);
      assert Scalars(slots)[1..] == Scalars(slots[1..]) && Entries(row)[1..] == Entries(row[1..]);
    }
  }

  lemma CellsBytes(slots: seq<Slot>, record: seq<Entry>)
    requires RecordHasType(Scalars(slots), record)
    ensures forall k :: 0 <= k < |record| ==> record[k].ScalarEntry?
    ensures RowHasType(slots, Cells(record)) && record == Entries(Cells(record))
    ensures RecordBytes(Scalars(slots), record) == RowBytes(slots, Cells(record))
    ensures CanonicalRecord(Scalars(slots), record) == Entries(CanonicalRow(slots, Cells(record)))
  {
    assert forall k :: 0 <= k < |record| ==> EntryHasType(Scalars(slots)[k], record[k]);
    EntriesBytes(slots, Cells(record));
  }
}
