/**
 * Grouping and join keys of any number of columns. How a key reads depends on where the sentinels of its
 * strings and lists stand: whether bytes identify keys is decided by the layouts of keys alone.
 */
module KeyLayouts {
  import opened ByteStrings
  import opened Options
  import opened EncodingFields
  import opened RowCode
  import opened ListCode
  import opened Records
  import opened UnorderedKeys

  /** What a byte of a key can be: never two, anything, or the sentinel two. */
  datatype Class = Small | Wide | Mark

  // Layouts of fixed-width rows.

  function CellLayout(t: LeafType): (r: seq<Class>)
    requires !t.Binary?
    ensures |r| == EncodedSize(t)
  {
    [Small] + seq(t.Width(), _ => if t.Boolean? then Small else Wide)
  }

  function RowLayout(slots: seq<Slot>): (r: seq<Class>)
    requires FixedWidth(slots)
    ensures Mark !in r
    ensures slots != [] ==> |r| >= 1
  {
    if slots == [] then [] else CellLayout(slots[0].leaf) + RowLayout(slots[1..])
  }

  /** The bytes fit the layout. */
  ghost predicate Fits(layout: seq<Class>, bytes: Bytes) {
    && |layout| == |bytes|
    && forall i :: 0 <= i < |layout| ==> (layout[i].Mark? ==> bytes[i] == 2) && (layout[i].Small? ==> bytes[i] != 2)
  }

  lemma FitsConcat(x: seq<Class>, a: Bytes, y: seq<Class>, b: Bytes)
    requires Fits(x, a) && Fits(y, b)
    ensures Fits(x + y, a + b)
  {
  }

  lemma FitsSplit(x: seq<Class>, y: seq<Class>, bytes: Bytes)
    requires Fits(x + y, bytes)
    ensures |bytes| == |x| + |y|
    ensures Fits(x, bytes[..|x|]) && Fits(y, bytes[|x|..])
  {
    forall i | 0 <= i < |x|
      ensures x[i] == (x + y)[i] && bytes[..|x|][i] == bytes[i]
    {
    }
    forall i | 0 <= i < |y|
      ensures y[i] == (x + y)[|x| + i] && bytes[|x|..][i] == bytes[|x| + i]
    {
    }
  }

  /** Columns of a key: supported leaves, encoded without order and otherwise by default. */
  ghost predicate Unsorted(slots: seq<Slot>) {
    forall k :: 0 <= k < |slots| ==> UnsortedSlot(slots[k])
  }

  ghost predicate UnsortedSlot(slot: Slot) {
    slot.leaf.Supported() && slot.field == UNSORTED
  }

  lemma CellFits(slot: Slot, c: Cell)
    requires UnsortedSlot(slot) && !slot.leaf.Binary? && CellHasType(slot.leaf, c)
    ensures Fits(CellLayout(slot.leaf), SlotCode(slot.field, slot.leaf, c))
  {
    var data := seq(slot.leaf.Width(), _ => if slot.leaf.Boolean? then Small else Wide);
    match c
    case None => FitsConcat([Small], [0], data, Zeros(slot.leaf.Width()));
    case Some(v) =>
      var code := EncodeValue(slot.leaf, v);
      assert SlotCode(slot.field, slot.leaf, c) == [1] + code;
      assert slot.leaf.Boolean? ==> code[0] != 2;
      hide EncodeValue, SlotCode;
      FitsConcat([Small], [1], data, code);
  }

  lemma {:induction false} RowFits(slots: seq<Slot>, row: seq<Cell>)
    requires Unsorted(slots) && FixedWidth(slots) && RowHasType(slots, row)
    ensures Fits(RowLayout(slots), RowBytes(slots, row))
  {
    if slots != [] {
      CellFits(slots[0], row[0]);
      RowFits(slots[1..], row[1..]);
      FitsConcat(CellLayout(slots[0].leaf), SlotCode(slots[0].field, slots[0].leaf, row[0]),
                 RowLayout(slots[1..]), RowBytes(slots[1..], row[1..]));
    }
  }

  /** A filler that fits a cell is a validity byte and data. */
  lemma CellData(t: LeafType, bytes: Bytes)
    requires !t.Binary? && Fits(CellLayout(t), bytes) && Filler(bytes)
    ensures bytes != [] && bytes == [1] + bytes[1..] && |bytes[1..]| == t.Width() && Filler(bytes[1..])
    ensures t.Boolean? ==> bytes[1..] == [1]
  {
    var layout := CellLayout(t);
    assert layout[0] == Small;
    FillerSplit(bytes, 1);
    if t.Boolean? {
      assert layout[1] == Small && bytes[1] == 1;
    }
  }

  /** Filler bytes that fit the layout of a cell are the code of one. */
  lemma CellOnto(slot: Slot, bytes: Bytes) returns (c: Cell)
    requires UnsortedSlot(slot) && !slot.leaf.Binary? && Fits(CellLayout(slot.leaf), bytes) && Filler(bytes)
    ensures CellHasType(slot.leaf, c) && SlotCode(slot.field, slot.leaf, c) == bytes
  {
    hide Fits, Filler, CellLayout, EncodeValue, DecodeValue, HasType;
    CellData(slot.leaf, bytes);
    ValueOnto(slot.leaf, bytes[1..]);
    c := Some(DecodeValue(slot.leaf, bytes[1..]));
  }

  lemma FillerSplit(bytes: Bytes, k: nat)
    requires Filler(bytes) && k <= |bytes|
    ensures Filler(bytes[..k]) && Filler(bytes[k..])
  {
  }

  lemma FitsNothing(bytes: Bytes)
    requires Fits([], bytes)
    ensures bytes == []
  {
  }

  lemma {:induction false} RowPut(slots: seq<Slot>, c: Cell, rest: seq<Cell>)
    requires slots != [] && CellHasType(slots[0].leaf, c) && RowHasType(slots[1..], rest)
    ensures RowHasType(slots, [c] + rest)
    ensures RowBytes(slots, [c] + rest) == SlotCode(slots[0].field, slots[0].leaf, c) + RowBytes(slots[1..], rest)
  {
    hide SlotCode, CellHasType;
    assert ([c] + rest)[1..] == rest;
    assert forall k :: 0 < k < |slots| ==> slots[k] == slots[1..][k - 1];
  }

  lemma Halved(bytes: Bytes, k: nat)
    requires k <= |bytes|
    ensures bytes == bytes[..k] + bytes[k..]
  {
  }

  lemma {:induction false} RowOnto(slots: seq<Slot>, bytes: Bytes) returns (row: seq<Cell>)
    requires Unsorted(slots) && FixedWidth(slots) && Fits(RowLayout(slots), bytes) && Filler(bytes)
    ensures RowHasType(slots, row) && RowBytes(slots, row) == bytes
  {
    if slots == [] {
      FitsNothing(bytes);
      row := [];
    } else {
      hide Fits, Filler, RowHasType, RowBytes, CellLayout, SlotCode, CellHasType, UnsortedSlot;
      var head := CellLayout(slots[0].leaf);
      FitsSplit(head, RowLayout(slots[1..]), bytes);
      FillerSplit(bytes, |head|);
      var c := CellOnto(slots[0], bytes[..|head|]);
      var rest := RowOnto(slots[1..], bytes[|head|..]);
      row := [c] + rest;
      RowPut(slots, c, rest);
      Halved(bytes, |head|);
    }
  }

  // Layouts of columns that repeat a unit: bytes of a string, elements of a list.

  function Repeated(unit: seq<Class>, n: nat): (r: seq<Class>)
    ensures Mark !in unit ==> Mark !in r
  {
    if n == 0 then [] else unit + Repeated(unit, n - 1)
  }

  lemma {:induction false} RepeatedLength(unit: seq<Class>, n: nat)
    ensures |Repeated(unit, n)| == n * |unit|
  {
    if n > 0 {
      RepeatedLength(unit, n - 1);
      Distribute(n - 1, |unit|);
    }
  }

  lemma Distribute(n: nat, w: nat)
    ensures (n + 1) * w == n * w + w
  {
  }

  ghost predicate Variable(t: ColumnType) {
    t.ListOf? || t.slot.leaf.Binary?
  }

  ghost predicate KeyColumn(t: ColumnType) {
    match t
    case Scalar(slot) => UnsortedSlot(slot)
    case ListOf(elements) => elements != [] && Unsorted(elements) && FixedWidth(elements)
  }

  ghost predicate Key(types: seq<ColumnType>) {
    forall k :: 0 <= k < |types| ==> KeyColumn(types[k])
  }

  ghost function Unit(t: ColumnType): (u: seq<Class>)
    requires KeyColumn(t) && Variable(t)
    ensures u != [] && Mark !in u
  {
    match t
    case Scalar(_) => [Wide]
    case ListOf(elements) => RowLayout(elements)
  }

  /** A string of `n` bytes or a list of `n` elements; null and empty ones do not repeat the unit. */
  ghost function ColumnLayout(t: ColumnType, n: nat): (r: seq<Class>)
    requires KeyColumn(t)
  {
    if !Variable(t) then CellLayout(t.slot.leaf)
    else if n == 0 then [Small]
    else [Mark] + Repeated(Unit(t), n)
  }

  /** The length of a string, the number of elements of a list. */
  ghost function Count(t: ColumnType, e: Entry): nat
    requires EntryHasType(t, e)
  {
    match t
    case Scalar(slot) => if slot.leaf.Binary? && e.cell.Some? then |e.cell.value.v| else 0
    case ListOf(_) => if e.list.Some? then |e.list.value| else 0
  }

  lemma {:induction false} WideBytes(v: Bytes)
    ensures Fits(Repeated([Wide], |v|), v)
  {
    if v != [] {
      WideBytes(v[1..]);
      FitsConcat([Wide], v[..1], Repeated([Wide], |v| - 1), v[1..]);
      assert v == v[..1] + v[1..];
    }
  }

  lemma {:induction false} RowsFit(slots: seq<Slot>, rows: seq<seq<Cell>>)
    requires Unsorted(slots) && FixedWidth(slots) && RowsHaveType(slots, rows)
    ensures Fits(Repeated(RowLayout(slots), |rows|), RowsBytes(slots, rows))
  {
    if rows != [] {
      hide Fits, RowBytes, RowHasType, RowLayout;
      RowFits(slots, rows[0]);
      RowsFit(slots, rows[1..]);
      FitsConcat(RowLayout(slots), RowBytes(slots, rows[0]),
                 Repeated(RowLayout(slots), |rows| - 1), RowsBytes(slots, rows[1..]));
    }
  }

  lemma {:induction false} RowsOnto(slots: seq<Slot>, n: nat, bytes: Bytes) returns (rows: seq<seq<Cell>>)
    requires Unsorted(slots) && FixedWidth(slots) && Fits(Repeated(RowLayout(slots), n), bytes) && Filler(bytes)
    ensures RowsHaveType(slots, rows) && |rows| == n && RowsBytes(slots, rows) == bytes
  {
    if n == 0 {
      FitsNothing(bytes);
      rows := [];
    } else {
      hide Fits, Filler, RowBytes, RowHasType, RowLayout, RowsBytes, RowsHaveType, Unsorted, FixedWidth;
      var head := RowLayout(slots);
      FitsSplit(head, Repeated(head, n - 1), bytes);
      FillerSplit(bytes, |head|);
      var row := RowOnto(slots, bytes[..|head|]);
      var rest := RowsOnto(slots, n - 1, bytes[|head|..]);
      rows := [row] + rest;
      RowsFrom(slots, row, rest);
      Halved(bytes, |head|);
    }
  }

  lemma RowsFrom(slots: seq<Slot>, row: seq<Cell>, rest: seq<seq<Cell>>)
    requires RowHasType(slots, row) && RowsHaveType(slots, rest)
    ensures RowsHaveType(slots, [row] + rest)
    ensures RowsBytes(slots, [row] + rest) == RowBytes(slots, row) + RowsBytes(slots, rest)
  {
    hide RowBytes, RowHasType;
    assert ([row] + rest)[1..] == rest;
  }

  /** The bytes of a column fit the layout of its count. */
  lemma EntryFits(t: ColumnType, e: Entry)
    requires KeyColumn(t) && EntryHasType(t, e)
    ensures Fits(ColumnLayout(t, Count(t, e)), EntryBytes(t, e))
  {
    match t
    case Scalar(slot) =>
      if !slot.leaf.Binary? {
        CellFits(slot, e.cell);
      } else if Count(t, e) > 0 {
        WideBytes(e.cell.value.v);
        FitsConcat([Mark], TWO, Repeated([Wide], Count(t, e)), e.cell.value.v);
      }
    case ListOf(elements) =>
      if Count(t, e) > 0 {
        ListFits(elements, e.list.value);
      }
  }

  lemma ListFits(elements: seq<Slot>, rows: seq<seq<Cell>>)
    requires elements != [] && Unsorted(elements) && FixedWidth(elements) && RowsHaveType(elements, rows) && rows != []
    ensures Fits([Mark] + Repeated(RowLayout(elements), |rows|), ListBytes(elements, Some(rows)))
  {
    RowsFit(elements, rows);
    assert RowsBytes(elements, rows) != [] by {
      RowBytesNonEmpty(elements, rows[0]);
      RowsBytesCons(elements, rows);
    }
    hide RowsBytes, RowBytes;
    NonEmptyListBytes(elements, rows);
    FitsConcat([Mark], TWO, Repeated(RowLayout(elements), |rows|), RowsBytes(elements, rows));
  }

  /** Filler bytes that fit the layout of a count are the code of an entry with that count. */
  lemma EntryOnto(t: ColumnType, n: nat, bytes: Bytes) returns (e: Entry)
    requires KeyColumn(t) && (Variable(t) || n == 0) && Fits(ColumnLayout(t, n), bytes) && Filler(bytes)
    ensures EntryHasType(t, e) && EntryBytes(t, e) == bytes && Count(t, e) == n
  {
    if !Variable(t) {
      var c := CellOnto(t.slot, bytes);
      e := ScalarEntry(c);
    } else if n == 0 {
      assert bytes == [1];
      e := if t.Scalar? then ScalarEntry(Some(BytesValue([]))) else ListEntry(Some([]));
    } else {
      e := RepeatedOnto(t, n, bytes);
    }
  }

  lemma RepeatedOnto(t: ColumnType, n: nat, bytes: Bytes) returns (e: Entry)
    requires KeyColumn(t) && Variable(t) && n > 0 && Fits([Mark] + Repeated(Unit(t), n), bytes) && Filler(bytes)
    ensures EntryHasType(t, e) && EntryBytes(t, e) == bytes && Count(t, e) == n
  {
    FitsSplit([Mark], Repeated(Unit(t), n), bytes);
    FillerSplit(bytes, 1);
    RepeatedLength(Unit(t), n);
    var data := bytes[1..];
    assert bytes == TWO + data;
    if t.Scalar? {
      e := ScalarEntry(Some(BytesValue(data)));
    } else {
      hide Fits, Filler;
      var rows := RowsOnto(t.elements, n, data);
      RowsBytesCons(t.elements, rows);
      RowBytesNonEmpty(t.elements, rows[0]);
      hide RowsBytes, RowBytes;
      NonEmptyListBytes(t.elements, rows);
      e := ListEntry(Some(rows));
    }
  }

  // Layouts of whole keys.

  ghost predicate CountsFor(types: seq<ColumnType>, counts: seq<nat>) {
    && |counts| == |types|
    && forall k :: 0 <= k < |types| ==> Variable(types[k]) || counts[k] == 0
  }

  ghost function KeyLayout(types: seq<ColumnType>, counts: seq<nat>): (r: seq<Class>)
    requires Key(types) && |counts| == |types|
  {
    if types == [] then [] else ColumnLayout(types[0], counts[0]) + KeyLayout(types[1..], counts[1..])
  }

  ghost function Counts(types: seq<ColumnType>, record: seq<Entry>): (counts: seq<nat>)
    requires RecordHasType(types, record)
    ensures |counts| == |types|
    ensures forall k :: 0 <= k < |types| ==> counts[k] == Count(types[k], record[k])
    ensures CountsFor(types, counts)
  {
    seq(|types|, k requires 0 <= k < |types| => Count(types[k], record[k]))
  }

  lemma KeyTail(types: seq<ColumnType>)
    requires Key(types) && types != []
    ensures KeyColumn(types[0]) && Key(types[1..])
  {
  }

  lemma CountsTail(types: seq<ColumnType>, record: seq<Entry>)
    requires RecordHasType(types, record) && types != []
    ensures EntryHasType(types[0], record[0]) && RecordHasType(types[1..], record[1..])
    ensures Counts(types, record)[0] == Count(types[0], record[0])
    ensures Counts(types, record)[1..] == Counts(types[1..], record[1..])
  {
    hide Count, EntryHasType;
  }

  lemma {:induction false} RecordFits(types: seq<ColumnType>, record: seq<Entry>)
    requires Key(types) && RecordHasType(types, record)
    ensures Fits(KeyLayout(types, Counts(types, record)), RecordBytes(types, record))
  {
    if types != [] {
      hide Fits, ColumnLayout, EntryBytes, Count, Counts, KeyColumn, EntryHasType;
      KeyTail(types);
      CountsTail(types, record);
      EntryFits(types[0], record[0]);
      RecordFits(types[1..], record[1..]);
      FitsConcat(ColumnLayout(types[0], Count(types[0], record[0])), EntryBytes(types[0], record[0]),
                 KeyLayout(types[1..], Counts(types[1..], record[1..])), RecordBytes(types[1..], record[1..]));
    }
  }

  lemma {:induction false} RecordPut(types: seq<ColumnType>, e: Entry, rest: seq<Entry>)
    requires types != [] && EntryHasType(types[0], e) && RecordHasType(types[1..], rest)
    ensures RecordHasType(types, [e] + rest)
    ensures RecordBytes(types, [e] + rest) == EntryBytes(types[0], e) + RecordBytes(types[1..], rest)
    ensures Counts(types, [e] + rest) == [Count(types[0], e)] + Counts(types[1..], rest)
  {
    hide EntryHasType, EntryBytes, Count;
    var record := [e] + rest;
    assert record[1..] == rest;
    RecordFromParts(types, record);
  }

  lemma {:induction false} RecordOnto(types: seq<ColumnType>, counts: seq<nat>, bytes: Bytes) returns (record: seq<Entry>)
    requires Key(types) && CountsFor(types, counts) && Fits(KeyLayout(types, counts), bytes) && Filler(bytes)
    ensures RecordHasType(types, record) && RecordBytes(types, record) == bytes && Counts(types, record) == counts
  {
    hide ColumnLayout, EntryBytes, Count, KeyColumn, EntryHasType, Variable;
    if types == [] {
      record := [];
    } else {
      KeyTail(types);
      var head := ColumnLayout(types[0], counts[0]);
      FitsSplit(head, KeyLayout(types[1..], counts[1..]), bytes);
      FillerSplit(bytes, |head|);
      var e := EntryOnto(types[0], counts[0], bytes[..|head|]);
      var rest := RecordOnto(types[1..], counts[1..], bytes[|head|..]);
      RecordPut(types, e, rest);
      record := [e] + rest;
      assert bytes == bytes[..|head|] + bytes[|head|..];
      assert counts == [counts[0]] + counts[1..];
    }
  }

  // Two layouts that some bytes fit.

  /** Where one layout has a sentinel, the other has one too or takes any byte. */
  ghost predicate Compatible(x: seq<Class>, y: seq<Class>) {
    && |x| == |y|
    && forall i :: 0 <= i < |x| ==> (x[i].Mark? ==> !y[i].Small?) && (y[i].Mark? ==> !x[i].Small?)
  }

  lemma FitsBoth(x: seq<Class>, y: seq<Class>, bytes: Bytes)
    requires Fits(x, bytes) && Fits(y, bytes)
    ensures Compatible(x, y)
  {
  }

  lemma CommonFiller(x: seq<Class>, y: seq<Class>) returns (bytes: Bytes)
    requires Compatible(x, y)
    ensures Fits(x, bytes) && Fits(y, bytes) && Filler(bytes)
  {
    bytes := seq(|x|, i requires 0 <= i < |x| => if x[i].Mark? || y[i].Mark? then 2 else 1);
  }

  /** Only keys with the same counts can be taken for each other. */
  ghost predicate Unambiguous(types: seq<ColumnType>)
    requires Key(types)
  {
    forall a, b :: CountsFor(types, a) && CountsFor(types, b) && Compatible(KeyLayout(types, a), KeyLayout(types, b))
                   ==> a == b
  }

  lemma CanonicalCounts(types: seq<ColumnType>, a: seq<Entry>, b: seq<Entry>)
    requires RecordHasType(types, a) && RecordHasType(types, b) && CanonicalRecord(types, a) == CanonicalRecord(types, b)
    ensures Counts(types, a) == Counts(types, b)
  {
    forall k | 0 <= k < |types|
      ensures Count(types[k], a[k]) == Count(types[k], b[k])
    {
      assert CanonicalEntry(types[k], a[k]) == CanonicalRecord(types, a)[k] == CanonicalEntry(types[k], b[k]);
      CanonicalCount(types[k], a[k], b[k]);
    }
  }

  lemma CanonicalCount(t: ColumnType, a: Entry, b: Entry)
    requires EntryHasType(t, a) && EntryHasType(t, b) && CanonicalEntry(t, a) == CanonicalEntry(t, b)
    ensures Count(t, a) == Count(t, b)
  {
    if t.ListOf? && a.list.Some? && b.list.Some? {
      assert |CanonicalRows(t.elements, a.list.value)| == |CanonicalRows(t.elements, b.list.value)|;
    }
  }

  lemma EntryInjective(t: ColumnType, a: Entry, b: Entry)
    requires KeyColumn(t) && EntryHasType(t, a) && EntryHasType(t, b) && EntryBytes(t, a) == EntryBytes(t, b)
    ensures CanonicalEntry(t, a) == CanonicalEntry(t, b)
  {
    match t
    case Scalar(slot) => SlotInjective(slot, a.cell, b.cell);
    case ListOf(elements) => ListInjective(elements, a.list, b.list);
  }

  /** Keys with the same counts have their columns in the same places. */
  lemma {:induction false} SameCounts(types: seq<ColumnType>, a: seq<Entry>, b: seq<Entry>)
    requires Key(types) && RecordHasType(types, a) && RecordHasType(types, b)
    requires Counts(types, a) == Counts(types, b) && RecordBytes(types, a) == RecordBytes(types, b)
    ensures CanonicalRecord(types, a) == CanonicalRecord(types, b)
  {
    if types != [] {
      hide ColumnLayout, EntryBytes, Count, Counts, KeyColumn, EntryHasType, CanonicalEntry;
      KeyTail(types);
      CountsTail(types, a);
      CountsTail(types, b);
      EntryFits(types[0], a[0]);
      EntryFits(types[0], b[0]);
      RecordCons(types, a);
      RecordCons(types, b);
      SplitSameLength(EntryBytes(types[0], a[0]), RecordBytes(types[1..], a[1..]),
                      EntryBytes(types[0], b[0]), RecordBytes(types[1..], b[1..]));
      EntryInjective(types[0], a[0], b[0]);
      SameCounts(types[1..], a[1..], b[1..]);
      CanonicalTail(types, a);
      CanonicalTail(types, b);
    }
  }

  lemma CanonicalTail(types: seq<ColumnType>, record: seq<Entry>)
    requires RecordHasType(types, record) && types != []
    ensures EntryHasType(types[0], record[0]) && RecordHasType(types[1..], record[1..])
    ensures CanonicalRecord(types, record)
         == [CanonicalEntry(types[0], record[0])] + CanonicalRecord(types[1..], record[1..])
  {
    hide EntryHasType, CanonicalEntry;
  }

  /** Bytes identify keys exactly when no two different lists of counts have compatible layouts. */
  lemma KeysByLayout(types: seq<ColumnType>)
    requires Key(types)
    ensures Identifies(types) <==> Unambiguous(types)
  {
    if Unambiguous(types) {
      forall a, b | RecordHasType(types, a) && RecordHasType(types, b) && RecordBytes(types, a) == RecordBytes(types, b)
        ensures CanonicalRecord(types, a) == CanonicalRecord(types, b)
      {
        RecordFits(types, a);
        RecordFits(types, b);
        FitsBoth(KeyLayout(types, Counts(types, a)), KeyLayout(types, Counts(types, b)), RecordBytes(types, a));
        SameCounts(types, a, b);
      }
    } else {
      var a, b :| CountsFor(types, a) && CountsFor(types, b)
                  && Compatible(KeyLayout(types, a), KeyLayout(types, b)) && a != b;
      LayoutsCollide(types, a, b);
    }
  }

  lemma LayoutsCollide(types: seq<ColumnType>, a: seq<nat>, b: seq<nat>)
    requires Key(types) && CountsFor(types, a) && CountsFor(types, b) && a != b
    requires Compatible(KeyLayout(types, a), KeyLayout(types, b))
    ensures exists x, y :: Collide(types, x, y)
  {
    hide Compatible, Fits, Filler, KeyLayout, Counts, Key;
    var bytes := CommonFiller(KeyLayout(types, a), KeyLayout(types, b));
    var x := RecordOnto(types, a, bytes);
    var y := RecordOnto(types, b, bytes);
    if CanonicalRecord(types, x) == CanonicalRecord(types, y) {
      CanonicalCounts(types, x, y);
    }
    assert Collide(types, x, y);
  }
}
