/** Keys with strings and lists, decided column by column: what goes wrong, and exactly when. */
module KeyPairs {
  import opened Options
  import opened EncodingFields
  import opened RowCode
  import opened ListCode
  import opened Records
  import opened UnorderedKeys
  import opened KeyLayouts
  import opened Division

  const STRING := Scalar(Slot(Binary, UNSORTED))

  /** Columns as grouping and joins encode them; lists may have any elements. */
  ghost predicate UnsortedColumn(t: ColumnType) {
    match t
    case Scalar(slot) => UnsortedSlot(slot)
    case ListOf(elements) => elements != [] && Unsorted(elements)
  }

  ghost predicate UnsortedColumns(types: seq<ColumnType>) {
    forall k :: 0 <= k < |types| ==> UnsortedColumn(types[k])
  }

  lemma UnsortedSupported(types: seq<ColumnType>)
    requires UnsortedColumns(types)
    ensures Supported(types)
  {
    forall k | 0 <= k < |types|
      ensures SupportedColumn(types[k])
    {
      assert UnsortedColumn(types[k]);
    }
  }

  /** A list with strings in its elements spoils every key. */
  lemma KeyOrCollides(types: seq<ColumnType>)
    requires UnsortedColumns(types)
    ensures Key(types) || !Identifies(types)
  {
    if !Key(types) {
      var k :| 0 <= k < |types| && !KeyColumn(types[k]);
      assert UnsortedColumn(types[k]);
      var elements := types[k].elements;
      var j :| 0 <= j < |elements| && elements[j].leaf.Binary?;
      assert elements[j].Open() by {
        assert UnsortedSlot(elements[j]);
      }
      UnsortedSupported(types);
      var before, after := types[..k], types[k + 1..];
      assert SupportedColumn(types[k]);
      assert types == before + [ListOf(elements)] + after;
      hide Identifies;
      ListKeysCollide(before, elements, after);
    }
  }

  /** Any key: bytes identify it exactly when its lists have no strings and its layouts are unambiguous. */
  lemma KeysDecided(types: seq<ColumnType>)
    requires UnsortedColumns(types)
    ensures Identifies(types) <==> Key(types) && Unambiguous(types)
  {
    hide Identifies, Unambiguous;
    KeyOrCollides(types);
    if Key(types) {
      KeysByLayout(types);
    }
  }

  // Layouts of columns that are null.

  function NoCounts(n: nat): (counts: seq<nat>)
    ensures |counts| == n && forall k :: 0 <= k < n ==> counts[k] == 0
  {
    seq(n, _ => 0)
  }

  lemma {:induction false} NoMarks(types: seq<ColumnType>)
    requires Key(types)
    ensures Mark !in KeyLayout(types, NoCounts(|types|))
  {
    if types != [] {
      KeyTail(types);
      NoMarks(types[1..]);
      assert NoCounts(|types|)[1..] == NoCounts(|types| - 1);
      assert Mark !in ColumnLayout(types[0], 0);
    }
  }

  lemma {:induction false} KeyLayoutConcat(s: seq<ColumnType>, a: seq<nat>, t: seq<ColumnType>, b: seq<nat>)
    requires Key(s) && Key(t) && |a| == |s| && |b| == |t|
    ensures Key(s + t) && KeyLayout(s + t, a + b) == KeyLayout(s, a) + KeyLayout(t, b)
  {
    hide KeyColumn, ColumnLayout;
    assert Key(s + t);
    if s == [] {
      assert s + t == t && a + b == b;
    } else {
      KeyLayoutConcat(s[1..], a[1..], t, b);
      assert (s + t)[1..] == s[1..] + t && (a + b)[1..] == a[1..] + b;
      Associate(ColumnLayout(s[0], a[0]), KeyLayout(s[1..], a[1..]), KeyLayout(t, b));
    }
  }

  lemma Associate(x: seq<Class>, y: seq<Class>, z: seq<Class>)
    ensures (x + y) + z == x + (y + z)
  {
  }

  lemma OneLayout(t: ColumnType, n: nat)
    requires KeyColumn(t)
    ensures Key([t]) && KeyLayout([t], [n]) == ColumnLayout(t, n)
  {
    hide KeyColumn, ColumnLayout;
    assert [t][1..] == [] && [n][1..] == [];
  }

  // A string before another string or a list: it can swallow that column.

  lemma Swallowed(m: seq<Class>, unit: seq<Class>, s: nat)
    requires Mark !in m && Mark !in unit && s > 0 && s * |unit| > |m|
    ensures Compatible(([Mark] + [Wide]) + m + ([Mark] + Repeated(unit, s)),
                       ([Mark] + Repeated([Wide], 1 + s * |unit|)) + m + [Small])
  {
    RepeatedLength(unit, s);
    RepeatedLength([Wide], 1 + s * |unit|);
    AllWide(1 + s * |unit|);
    var r, v := Repeated(unit, s), Repeated([Wide], 1 + s * |unit|);
    hide Repeated;
    var x, y := ([Mark] + [Wide]) + m + ([Mark] + r), ([Mark] + v) + m + [Small];
    assert |x| == |y|;
    forall i | 0 <= i < |x|
      ensures (x[i].Mark? ==> !y[i].Small?) && (y[i].Mark? ==> !x[i].Small?)
    {
      if i == 0 {
      } else if i == 2 + |m| {
        assert y[i] == v[i - 1];
      } else {
        assert !x[i].Mark? && !y[i].Mark?;
      }
    }
  }

  lemma {:induction false} AllWide(n: nat)
    ensures |Repeated([Wide], n)| == n && forall i :: 0 <= i < n ==> Repeated([Wide], n)[i] == Wide
  {
    if n > 0 {
      AllWide(n - 1);
    }
  }

  lemma MultipleExceeds(k: nat, w: nat)
    requires w > 0
    ensures (k + 1) * w > k
  {
  }

  lemma Ambiguous(types: seq<ColumnType>, a: seq<nat>, b: seq<nat>)
    requires Key(types) && CountsFor(types, a) && CountsFor(types, b) && a != b
    requires Compatible(KeyLayout(types, a), KeyLayout(types, b))
    ensures !Unambiguous(types)
  {
    hide Compatible, KeyLayout, Key, CountsFor;
  }

  lemma StringLayout(n: nat)
    requires n > 0
    ensures KeyColumn(STRING) && ColumnLayout(STRING, n) == [Mark] + Repeated([Wide], n)
    ensures ColumnLayout(STRING, 1) == [Mark] + [Wide]
  {
    assert Repeated([Wide], 1) == [Wide] + Repeated([Wide], 0);
  }

  lemma VariableLayout(v: ColumnType, n: nat)
    requires KeyColumn(v) && Variable(v) && n > 0
    ensures ColumnLayout(v, n) == [Mark] + Repeated(Unit(v), n) && ColumnLayout(v, 0) == [Small]
  {
  }

  lemma StringKey(middle: seq<ColumnType>, v: ColumnType)
    requires Key(middle) && KeyColumn(v) && Variable(v)
    ensures Key([STRING] + middle + [v]) && !Unambiguous([STRING] + middle + [v])
  {
    hide KeyLayout, Compatible, ColumnLayout, Unambiguous, Repeated, Unit, KeyColumn, Key, CountsFor;
    var zeros := NoCounts(|middle|);
    var m, unit := KeyLayout(middle, zeros), Unit(v);
    var s := |m| + 1;
    var n := 1 + s * |unit|;
    MultipleExceeds(|m|, |unit|);
    NoMarks(middle);
    StringLayout(n);
    VariableLayout(v, s);
    TripleLayout(STRING, 1, middle, zeros, v, s);
    TripleLayout(STRING, n, middle, zeros, v, 0);
    Swallowed(m, unit, s);
    TripleCounts(STRING, 1, middle, v, s);
    TripleCounts(STRING, n, middle, v, 0);
    var a, b := [1] + zeros + [s], [n] + zeros + [0];
    assert a[0] != b[0];
    Ambiguous([STRING] + middle + [v], a, b);
  }

  lemma TripleCounts(u: ColumnType, n: nat, middle: seq<ColumnType>, v: ColumnType, m: nat)
    requires Variable(u) && Variable(v)
    ensures CountsFor([u] + middle + [v], [n] + NoCounts(|middle|) + [m])
  {
  }

  lemma TripleLayout(u: ColumnType, n: nat, middle: seq<ColumnType>, counts: seq<nat>, v: ColumnType, m: nat)
    requires KeyColumn(u) && Key(middle) && |counts| == |middle| && KeyColumn(v)
    ensures Key([u] + middle + [v])
    ensures KeyLayout([u] + middle + [v], [n] + counts + [m])
         == ColumnLayout(u, n) + KeyLayout(middle, counts) + ColumnLayout(v, m)
  {
    hide KeyColumn, ColumnLayout, KeyLayout;
    OneLayout(u, n);
    OneLayout(v, m);
    KeyLayoutConcat([u], [n], middle, counts);
    KeyLayoutConcat([u] + middle, [n] + counts, [v], [m]);
  }

  /** A string column before another string or a list: different rows with the same bytes, in every schema. */
  lemma StringThenVariable(before: seq<ColumnType>, middle: seq<ColumnType>, v: ColumnType, after: seq<ColumnType>)
    requires Supported(before) && Supported(after) && UnsortedColumns(middle) && UnsortedColumn(v) && Variable(v)
    ensures !Identifies(before + ([STRING] + middle + [v]) + after)
  {
    hide Key, Unambiguous, Identifies, Collide, Supported;
    var types := [STRING] + middle + [v];
    StringTypes(middle, v);
    KeysDecided(types);
    Collision(types);
    var a, b :| Collide(types, a, b);
    Surround(before, types, after, a, b);
  }

  lemma StringTypes(middle: seq<ColumnType>, v: ColumnType)
    requires UnsortedColumns(middle) && UnsortedColumn(v) && Variable(v)
    ensures UnsortedColumns([STRING] + middle + [v])
    ensures !(Key([STRING] + middle + [v]) && Unambiguous([STRING] + middle + [v]))
  {
    hide Unambiguous;
    var types := [STRING] + middle + [v];
    assert UnsortedColumn(STRING);
    if Key(types) {
      assert forall k :: 0 <= k < |middle| ==> types[k + 1] == middle[k];
      assert types[|types| - 1] == v;
      StringKey(middle, v);
    }
  }

  lemma Collision(types: seq<ColumnType>)
    requires !Identifies(types)
    ensures exists a, b :: Collide(types, a, b)
  {
    var a, b :| RecordHasType(types, a) && RecordHasType(types, b) && RecordBytes(types, a) == RecordBytes(types, b)
                && CanonicalRecord(types, a) != CanonicalRecord(types, b);
    assert Collide(types, a, b);
  }

  // One list column, among strings and fixed-width columns.

  lemma ScalarsConcat(a: seq<Slot>, b: seq<Slot>)
    ensures Scalars(a + b) == Scalars(a) + Scalars(b)
  {
  }

  lemma {:induction false} SomeBinary(slots: seq<Slot>) returns (k: nat)
    requires BinaryColumns(slots) > 0
    ensures k < |slots| && slots[k].leaf.Binary?
  {
    if slots[0].leaf.Binary? {
      k := 0;
    } else {
      var j := SomeBinary(slots[1..]);
      k := j + 1;
    }
  }

  lemma UnsortedScalars(slots: seq<Slot>)
    requires Unsorted(slots)
    ensures UnsortedColumns(Scalars(slots)) && Supported(Scalars(slots)) && Unordered(slots)
  {
    assert forall k :: 0 <= k < |slots| ==> UnsortedSlot(slots[k]);
    UnsortedSupported(Scalars(slots));
  }

  lemma SplitAtString(slots: seq<Slot>) returns (p: seq<Slot>, q: seq<Slot>)
    requires Unsorted(slots) && BinaryColumns(slots) > 0
    ensures Unsorted(p) && Unsorted(q) && Scalars(slots) == Scalars(p) + [STRING] + Scalars(q)
  {
    var k := SomeBinary(slots);
    assert UnsortedSlot(slots[k]);
    p, q := slots[..k], slots[k + 1..];
    assert slots == p + [slots[k]] + q;
    assert Scalar(slots[k]) == STRING;
    ScalarsConcat(p + [slots[k]], q);
    ScalarsConcat(p, [slots[k]]);
    assert Scalars([slots[k]]) == [STRING];
  }

  lemma Regrouped(p: seq<ColumnType>, s: ColumnType, q: seq<ColumnType>, v: ColumnType, r: seq<ColumnType>)
    ensures (p + [s] + q) + [v] + r == p + ([s] + q + [v]) + r
  {
  }

  lemma StringBeforeList(before: seq<Slot>, elements: seq<Slot>, after: seq<Slot>)
    requires Unsorted(before) && Unsorted(elements) && Unsorted(after) && elements != []
    requires BinaryColumns(before) > 0
    ensures !Identifies(Scalars(before) + [ListOf(elements)] + Scalars(after))
  {
    hide Identifies, Unsorted, UnsortedColumns, Supported, Scalars;
    var p, q := SplitAtString(before);
    UnsortedScalars(p);
    UnsortedScalars(q);
    UnsortedScalars(after);
    StringThenVariable(Scalars(p), Scalars(q), ListOf(elements), Scalars(after));
    Regrouped(Scalars(p), STRING, Scalars(q), ListOf(elements), Scalars(after));
  }

  /**
   * A key with one list column and no string after it: bytes identify it exactly when there is no string
   * before the list and none in its elements.
   */
  lemma UnorderedListKeys(before: seq<Slot>, elements: seq<Slot>, after: seq<Slot>)
    requires Unsorted(before) && Unsorted(elements) && Unsorted(after) && elements != [] && BinaryColumns(after) == 0
    ensures Identifies(Scalars(before) + [ListOf(elements)] + Scalars(after))
       <==> BinaryColumns(before) == 0 && BinaryColumns(elements) == 0
  {
    hide Identifies;
    if BinaryColumns(before) > 0 {
      StringBeforeList(before, elements, after);
    } else {
      NoBinaryColumns(before);
      NoBinaryColumns(after);
      NoBinaryColumns(elements);
      UnsortedScalars(before);
      UnsortedScalars(after);
      UnsortedScalars(elements);
      assert SelfDelimiting(elements) <==> FixedWidth(elements) by {
        assert forall k :: 0 <= k < |elements| ==> UnsortedSlot(elements[k]);
      }
      ListKeysAreInjective(before, elements, after);
    }
  }
}
