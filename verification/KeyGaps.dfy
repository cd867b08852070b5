/**
 * A list of fixed-width elements and a later string or list, with fixed-width columns between and around
 * them: whether bytes identify such keys depends on how the widths line up, and this is exactly how.
 */
module KeyGaps {
  import opened EncodingFields
  import opened RowCode
  import opened Records
  import opened UnorderedKeys
  import opened KeyLayouts
  import opened KeyPairs
  import opened Division

  /** The later sentinel falls on a data byte of the columns between, shifted by `k` elements. */
  ghost predicate MisreadAt(unit: seq<Class>, gap: seq<Class>, step: nat, k: nat)
    requires unit != [] && step > 0
  {
    0 < k * |unit| <= |gap| && (k * |unit|) % step == 0 && gap[|gap| - k * |unit|] == Wide
  }

  /**
   * The sentinel after the gap can be read as a data byte: of an element, or of the columns in the gap when
   * these come later by a number of elements whose width the later column can make up for.
   */
  ghost predicate Misread(unit: seq<Class>, gap: seq<Class>, step: nat)
    requires unit != [] && step > 0
  {
    unit[|gap| % |unit|] == Wide || exists k: nat :: MisreadAt(unit, gap, step, k)
  }

  /** A string or list after the gap. */
  function Later(unit: seq<Class>, m: nat): (r: seq<Class>) {
    if m == 0 then [Small] else [Mark] + Repeated(unit, m)
  }

  lemma LaterLength(unit: seq<Class>, m: nat)
    ensures |Later(unit, m)| == 1 + m * |unit|
  {
    RepeatedLength(unit, m);
  }

  lemma {:induction false} RepeatedAt(unit: seq<Class>, n: nat, i: nat)
    requires unit != [] && i < |Repeated(unit, n)|
    ensures Repeated(unit, n)[i] == unit[i % |unit|]
  {
    var w := |unit|;
    if i < w {
      QuotientUnique(i, w, 0, i);
    } else {
      RepeatedAt(unit, n - 1, i - w);
      ModShift(i - w, w, 1);
    }
  }

  lemma {:induction false} RepeatedAdd(unit: seq<Class>, m: nat, n: nat)
    ensures Repeated(unit, m + n) == Repeated(unit, m) + Repeated(unit, n)
  {
    if m == 0 {
      assert [] + Repeated(unit, n) == Repeated(unit, n);
    } else {
      RepeatedAdd(unit, m - 1, n);
      Associate(unit, Repeated(unit, m - 1), Repeated(unit, n));
    }
  }

  lemma Positive(k: nat, w: nat)
    requires k > 0 && w > 0
    ensures k * w > 0
  {
  }

  lemma MultipleMod(x: nat, q: nat, u: nat)
    requires u > 0 && x == q * u
    ensures x % u == 0
  {
    QuotientUnique(x, u, q, 0);
  }

  lemma Cancel(m: nat, m': nat, u: nat, x: nat)
    requires u > 0 && x > 0 && m * u == x + m' * u
    ensures m > m' && x == (m - m') * u
  {
  }

  // Reading `k` more elements of the list.

  /** The bytes from the gap on, as they stand and after `k` elements. */
  lemma Shifted(unit: seq<Class>, k: nat, gap: seq<Class>, v: seq<Class>, m: nat, m': nat, tail: seq<Class>)
    requires unit != [] && v != [] && k > 0 && Mark !in unit && Mark !in gap
    requires Compatible(gap + Later(v, m) + tail, Repeated(unit, k) + gap + Later(v, m') + tail)
    ensures Misread(unit, gap, |v|)
  {
    var g, x := |gap|, k * |unit|;
    RepeatedLength(unit, k);
    LaterLength(v, m);
    LaterLength(v, m');
    Positive(k, |unit|);
    Cancel(m, m', |v|, x);
    MultipleMod(x, m - m', |v|);
    var r := Repeated(unit, k);
    var later, later' := Later(v, m), Later(v, m');
    assert later[0] == Mark;
    assert (gap + later + tail)[g] == Mark;
    if g < x {
      assert (r + gap + later' + tail)[g] == r[g];
      RepeatedAt(unit, k, g);
    } else {
      assert (r + gap + later' + tail)[g] == gap[g - x];
      assert MisreadAt(unit, gap, |v|, k);
    }
  }

  lemma Lands(unit: seq<Class>, k: nat, gap: seq<Class>, v: seq<Class>, m: nat, tail: seq<Class>)
    requires unit != [] && v != [] && k > 0 && m > 0 && k * |unit| == m * |v|
    requires Mark !in unit && Mark !in gap && Mark !in v && Mark !in tail
    requires if |gap| < k * |unit| then unit[|gap| % |unit|] == Wide else gap[|gap| - k * |unit|] == Wide
    ensures Compatible(gap + ([Mark] + Repeated(v, m)) + tail, Repeated(unit, k) + gap + [Small] + tail)
  {
    var g := |gap|;
    var r, s := Repeated(unit, k), Repeated(v, m);
    RepeatedLength(unit, k);
    RepeatedLength(v, m);
    var x, y := gap + ([Mark] + s) + tail, r + gap + [Small] + tail;
    assert |x| == |y| && x[g] == Mark;
    assert y[g] == Wide by {
      if g < |r| {
        RepeatedAt(unit, k, g);
      }
    }
    hide Repeated;
    assert Mark !in y;
    assert forall i :: 0 <= i < |x| && x[i].Mark? ==> i == g;
  }

  lemma ModProduct(n: nat, w: nat, u: nat)
    ensures n * u * w == n * w * u
  {
  }

  lemma Exceeds(g: nat, u: nat, w: nat)
    requires u > 0 && w > 0
    ensures (g + 1) * u * w > g && (g + 1) * u > 0 && (g + 1) * w > 0
  {
    assert (g + 1) * u >= g + 1;
    assert (g + 1) * u * w >= (g + 1) * u;
  }

  lemma Divides(x: nat, u: nat)
    requires u > 0 && x > 0 && x % u == 0
    ensures x == x / u * u && x / u > 0
  {
  }

  /** Where a misreading is possible, so are two layouts for the same bytes. */
  lemma Overlapping(unit: seq<Class>, gap: seq<Class>, v: seq<Class>, tail: seq<Class>) returns (k: nat, m: nat)
    requires unit != [] && v != [] && Misread(unit, gap, |v|)
    requires Mark !in unit && Mark !in gap && Mark !in v && Mark !in tail
    ensures k > 0 && m > 0
    ensures Compatible(gap + ([Mark] + Repeated(v, m)) + tail, Repeated(unit, k) + gap + [Small] + tail)
  {
    var g, w, u := |gap|, |unit|, |v|;
    if unit[g % w] == Wide {
      k, m := (g + 1) * u, (g + 1) * w;
      Exceeds(g, u, w);
      ModProduct(g + 1, w, u);
    } else {
      k :| MisreadAt(unit, gap, u, k);
      m := k * w / u;
      Divides(k * w, u);
    }
    hide Compatible;
    Lands(unit, k, gap, v, m, tail);
  }

  // Keys with a list, a gap and a later variable column.

  lemma {:induction false} ScalarsLayout(slots: seq<Slot>)
    requires Unsorted(slots) && FixedWidth(slots)
    ensures Key(Scalars(slots)) && KeyLayout(Scalars(slots), NoCounts(|slots|)) == RowLayout(slots)
  {
    assert forall k :: 0 <= k < |slots| ==> UnsortedSlot(slots[k]);
    if slots != [] {
      ScalarsLayout(slots[1..]);
      assert Scalars(slots)[1..] == Scalars(slots[1..]) && NoCounts(|slots|)[1..] == NoCounts(|slots| - 1);
    }
  }

  ghost predicate FixedColumns(slots: seq<Slot>) {
    Unsorted(slots) && FixedWidth(slots)
  }

  ghost function KeyTypes(before: seq<Slot>, u: ColumnType, gap: seq<Slot>, v: ColumnType, after: seq<Slot>): seq<ColumnType> {
    Scalars(before) + [u] + Scalars(gap) + [v] + Scalars(after)
  }

  ghost function KeyCounts(before: nat, n: nat, gap: nat, m: nat, after: nat): seq<nat> {
    NoCounts(before) + [n] + NoCounts(gap) + [m] + NoCounts(after)
  }

  lemma KeyTypesLayout(before: seq<Slot>, u: ColumnType, n: nat, gap: seq<Slot>, v: ColumnType, m: nat, after: seq<Slot>)
    requires FixedColumns(before) && FixedColumns(gap) && FixedColumns(after) && KeyColumn(u) && KeyColumn(v)
    ensures Key(KeyTypes(before, u, gap, v, after))
    ensures KeyLayout(KeyTypes(before, u, gap, v, after), KeyCounts(|before|, n, |gap|, m, |after|))
         == RowLayout(before) + ColumnLayout(u, n) + RowLayout(gap) + ColumnLayout(v, m) + RowLayout(after)
  {
    hide KeyLayout, KeyColumn, ColumnLayout, RowLayout, Key, Scalars, NoCounts;
    ScalarsLayout(before);
    ScalarsLayout(gap);
    ScalarsLayout(after);
    OneLayout(u, n);
    OneLayout(v, m);
    var a := Scalars(before) + [u];
    var x := NoCounts(|before|) + [n];
    KeyLayoutConcat(Scalars(before), NoCounts(|before|), [u], [n]);
    KeyLayoutConcat(a, x, Scalars(gap), NoCounts(|gap|));
    KeyLayoutConcat(a + Scalars(gap), x + NoCounts(|gap|), [v], [m]);
    KeyLayoutConcat(a + Scalars(gap) + [v], x + NoCounts(|gap|) + [m], Scalars(after), NoCounts(|after|));
  }

  /** The counts of such a key: two of them are free. */
  lemma CountsOf(before: seq<Slot>, u: ColumnType, gap: seq<Slot>, v: ColumnType, after: seq<Slot>, counts: seq<nat>)
    returns (n: nat, m: nat)
    requires FixedWidth(before) && FixedWidth(gap) && FixedWidth(after)
    requires CountsFor(KeyTypes(before, u, gap, v, after), counts)
    ensures counts == KeyCounts(|before|, n, |gap|, m, |after|)
  {
    var b, g := |before|, |gap|;
    var types := KeyTypes(before, u, gap, v, after);
    n, m := counts[b], counts[b + 1 + g];
    var form := KeyCounts(b, n, g, m, |after|);
    forall k | 0 <= k < |types|
      ensures counts[k] == form[k]
    {
      if k < b {
        assert types[k] == Scalar(before[k]);
      } else if b < k < b + 1 + g {
        assert types[k] == Scalar(gap[k - b - 1]);
      } else if k > b + 1 + g {
        assert types[k] == Scalar(after[k - b - g - 2]);
      }
    }
  }

  lemma CountsFit(before: seq<Slot>, u: ColumnType, n: nat, gap: seq<Slot>, v: ColumnType, m: nat, after: seq<Slot>)
    requires Variable(u) && Variable(v)
    ensures CountsFor(KeyTypes(before, u, gap, v, after), KeyCounts(|before|, n, |gap|, m, |after|))
  {
  }

  lemma DropCommon(p: seq<Class>, x: seq<Class>, y: seq<Class>)
    ensures Compatible(p + x, p + y) <==> Compatible(x, y)
  {
    if Compatible(p + x, p + y) {
      forall i | 0 <= i < |x|
        ensures (x[i].Mark? ==> !y[i].Small?) && (y[i].Mark? ==> !x[i].Small?)
      {
        assert (p + x)[|p| + i] == x[i] && (p + y)[|p| + i] == y[i];
      }
    }
    if Compatible(x, y) {
      forall i | 0 <= i < |p + x|
        ensures ((p + x)[i].Mark? ==> !(p + y)[i].Small?) && ((p + y)[i].Mark? ==> !(p + x)[i].Small?)
      {
        if i >= |p| {
          assert (p + x)[i] == x[i - |p|] && (p + y)[i] == y[i - |p|];
        }
      }
    }
  }

  /** The whole layout of such a key. */
  function Whole(b: seq<Class>, unit: seq<Class>, n: nat, gap: seq<Class>, v: seq<Class>, m: nat, tail: seq<Class>): seq<Class> {
    b + Later(unit, n) + gap + Later(v, m) + tail
  }

  lemma SameFirst(b: seq<Class>, unit: seq<Class>, n: nat, gap: seq<Class>, v: seq<Class>, m: nat, m': nat, tail: seq<Class>)
    requires v != [] && Compatible(Whole(b, unit, n, gap, v, m, tail), Whole(b, unit, n, gap, v, m', tail))
    ensures m == m'
  {
    LaterLength(v, m);
    LaterLength(v, m');
    hide Later;
    if m != m' {
      assert m * |v| == m' * |v|;
      Different(m, m', |v|);
    }
  }

  lemma Different(m: nat, m': nat, u: nat)
    requires m != m' && u > 0
    ensures m * u != m' * u
  {
  }

  lemma ZeroFirst(b: seq<Class>, unit: seq<Class>, n: nat, gap: seq<Class>, v: seq<Class>, m: nat, m': nat, tail: seq<Class>)
    requires Compatible(Whole(b, unit, 0, gap, v, m, tail), Whole(b, unit, n, gap, v, m', tail))
    ensures n == 0
  {
    var x, y := Whole(b, unit, 0, gap, v, m, tail), Whole(b, unit, n, gap, v, m', tail);
    assert x[|b|] == Small && y[|b|] == Later(unit, n)[0];
  }

  /** The two readings from the gap on, behind what they have in common. */
  lemma WholeSplit(b: seq<Class>, unit: seq<Class>, n: nat, k: nat, gap: seq<Class>, v: seq<Class>, m: nat, tail: seq<Class>)
    requires n > 0
    ensures var common := b + [Mark] + Repeated(unit, n);
            && Whole(b, unit, n, gap, v, m, tail) == common + (gap + Later(v, m) + tail)
            && Whole(b, unit, n + k, gap, v, m, tail) == common + (Repeated(unit, k) + gap + Later(v, m) + tail)
  {
    RepeatedAdd(unit, n, k);
    var r, s, l := Repeated(unit, n), Repeated(unit, k), Later(v, m);
    assert Later(unit, n) == [Mark] + r && Later(unit, n + k) == [Mark] + (r + s);
    hide Repeated, Later;
    assert b + ([Mark] + r) + gap + l + tail == (b + [Mark] + r) + (gap + l + tail);
    assert b + ([Mark] + (r + s)) + gap + l + tail == (b + [Mark] + r) + (s + gap + l + tail);
  }

  lemma MoreElements(b: seq<Class>, unit: seq<Class>, n: nat, n': nat, gap: seq<Class>, v: seq<Class>, m: nat, m': nat, tail: seq<Class>)
    requires unit != [] && v != [] && Mark !in unit && Mark !in gap && n < n'
    requires Compatible(Whole(b, unit, n, gap, v, m, tail), Whole(b, unit, n', gap, v, m', tail))
    ensures Misread(unit, gap, |v|)
  {
    hide Whole, Compatible, Misread, Later, Repeated;
    if n == 0 {
      ZeroFirst(b, unit, n', gap, v, m, m', tail);
    } else {
      var k := n' - n;
      WholeSplit(b, unit, n, k, gap, v, m, tail);
      WholeSplit(b, unit, n, k, gap, v, m', tail);
      DropCommon(b + [Mark] + Repeated(unit, n), gap + Later(v, m) + tail, Repeated(unit, k) + gap + Later(v, m') + tail);
      Shifted(unit, k, gap, v, m, m', tail);
    }
  }

  lemma CompatibleSymmetric(x: seq<Class>, y: seq<Class>)
    requires Compatible(x, y)
    ensures Compatible(y, x)
  {
  }

  lemma NoMisreading(b: seq<Class>, unit: seq<Class>, n: nat, n': nat, gap: seq<Class>, v: seq<Class>, m: nat, m': nat, tail: seq<Class>)
    requires unit != [] && v != [] && Mark !in unit && Mark !in gap && !Misread(unit, gap, |v|)
    requires Compatible(Whole(b, unit, n, gap, v, m, tail), Whole(b, unit, n', gap, v, m', tail))
    ensures n == n' && m == m'
  {
    hide Whole, Compatible, Misread;
    if n < n' {
      MoreElements(b, unit, n, n', gap, v, m, m', tail);
    } else if n > n' {
      CompatibleSymmetric(Whole(b, unit, n, gap, v, m, tail), Whole(b, unit, n', gap, v, m', tail));
      MoreElements(b, unit, n', n, gap, v, m', m, tail);
    } else {
      SameFirst(b, unit, n, gap, v, m, m', tail);
    }
  }

  lemma Misreading(b: seq<Class>, unit: seq<Class>, gap: seq<Class>, v: seq<Class>, tail: seq<Class>) returns (k: nat, m: nat)
    requires unit != [] && v != [] && Misread(unit, gap, |v|)
    requires Mark !in unit && Mark !in gap && Mark !in v && Mark !in tail
    ensures k > 0 && Compatible(Whole(b, unit, 1, gap, v, m, tail), Whole(b, unit, 1 + k, gap, v, 0, tail))
  {
    k, m := Overlapping(unit, gap, v, tail);
    assert Later(v, m) == [Mark] + Repeated(v, m) && Later(v, 0) == [Small];
    hide Whole, Compatible, Later;
    WholeSplit(b, unit, 1, k, gap, v, m, tail);
    WholeSplit(b, unit, 1, k, gap, v, 0, tail);
    DropCommon(b + [Mark] + Repeated(unit, 1), gap + Later(v, m) + tail, Repeated(unit, k) + gap + Later(v, 0) + tail);
  }

  lemma WholeLayout(before: seq<Slot>, elements: seq<Slot>, n: nat, gap: seq<Slot>, v: ColumnType, m: nat, after: seq<Slot>)
    requires FixedColumns(before) && FixedColumns(gap) && FixedColumns(after) && KeyColumn(ListOf(elements))
    requires KeyColumn(v) && Variable(v)
    ensures Key(KeyTypes(before, ListOf(elements), gap, v, after))
    ensures KeyLayout(KeyTypes(before, ListOf(elements), gap, v, after), KeyCounts(|before|, n, |gap|, m, |after|))
         == Whole(RowLayout(before), RowLayout(elements), n, RowLayout(gap), Unit(v), m, RowLayout(after))
  {
    hide KeyLayout, ColumnLayout, KeyColumn, Later;
    LaterLayout(ListOf(elements), n);
    LaterLayout(v, m);
    KeyTypesLayout(before, ListOf(elements), n, gap, v, m, after);
  }

  lemma LaterLayout(t: ColumnType, n: nat)
    requires KeyColumn(t) && Variable(t)
    ensures ColumnLayout(t, n) == Later(Unit(t), n)
  {
  }

  /**
   * A list of fixed-width elements, fixed-width columns, and then a string or a list of fixed-width
   * elements: bytes identify the keys exactly when the later sentinel cannot be misread.
   */
  lemma ListThenVariable(before: seq<Slot>, elements: seq<Slot>, gap: seq<Slot>, v: ColumnType, after: seq<Slot>)
    requires FixedColumns(before) && FixedColumns(gap) && FixedColumns(after) && KeyColumn(ListOf(elements))
    requires KeyColumn(v) && Variable(v)
    ensures Identifies(Scalars(before) + [ListOf(elements)] + Scalars(gap) + [v] + Scalars(after))
       <==> !Misread(RowLayout(elements), RowLayout(gap), |Unit(v)|)
  {
    var types := KeyTypes(before, ListOf(elements), gap, v, after);
    WholeLayout(before, elements, 0, gap, v, 0, after);
    hide Identifies, Misread, Whole, KeyLayout, Compatible;
    if Misread(RowLayout(elements), RowLayout(gap), |Unit(v)|) {
      MisreadKey(before, elements, gap, v, after);
    } else {
      ReadKey(before, elements, gap, v, after);
    }
    KeysByLayout(types);
  }

  lemma CountsDiffer(before: nat, n: nat, gap: nat, m: nat, after: nat, n': nat, m': nat)
    requires n != n'
    ensures KeyCounts(before, n, gap, m, after) != KeyCounts(before, n', gap, m', after)
  {
    assert KeyCounts(before, n, gap, m, after)[before] == n && KeyCounts(before, n', gap, m', after)[before] == n';
  }

  lemma MisreadKey(before: seq<Slot>, elements: seq<Slot>, gap: seq<Slot>, v: ColumnType, after: seq<Slot>)
    requires FixedColumns(before) && FixedColumns(gap) && FixedColumns(after) && KeyColumn(ListOf(elements))
    requires KeyColumn(v) && Variable(v) && Misread(RowLayout(elements), RowLayout(gap), |Unit(v)|)
    requires Key(KeyTypes(before, ListOf(elements), gap, v, after))
    ensures !Unambiguous(KeyTypes(before, ListOf(elements), gap, v, after))
  {
    hide Misread, Whole, KeyLayout, Compatible, Unambiguous, CountsFor, Key, RowLayout, KeyTypes, KeyCounts;
    var u := ListOf(elements);
    var k, m := Misreading(RowLayout(before), RowLayout(elements), RowLayout(gap), Unit(v), RowLayout(after));
    WholeLayout(before, elements, 1, gap, v, m, after);
    WholeLayout(before, elements, 1 + k, gap, v, 0, after);
    CountsFit(before, u, 1, gap, v, m, after);
    CountsFit(before, u, 1 + k, gap, v, 0, after);
    var a, b := KeyCounts(|before|, 1, |gap|, m, |after|), KeyCounts(|before|, 1 + k, |gap|, 0, |after|);
    CountsDiffer(|before|, 1, |gap|, m, |after|, 1 + k, 0);
    Ambiguous(KeyTypes(before, u, gap, v, after), a, b);
  }

  lemma ReadKey(before: seq<Slot>, elements: seq<Slot>, gap: seq<Slot>, v: ColumnType, after: seq<Slot>)
    requires FixedColumns(before) && FixedColumns(gap) && FixedColumns(after) && KeyColumn(ListOf(elements))
    requires KeyColumn(v) && Variable(v) && !Misread(RowLayout(elements), RowLayout(gap), |Unit(v)|)
    requires Key(KeyTypes(before, ListOf(elements), gap, v, after))
    ensures Unambiguous(KeyTypes(before, ListOf(elements), gap, v, after))
  {
    hide Misread, Whole, KeyLayout, Compatible, Key;
    var u := ListOf(elements);
    var types := KeyTypes(before, u, gap, v, after);
    forall a, b | CountsFor(types, a) && CountsFor(types, b) && Compatible(KeyLayout(types, a), KeyLayout(types, b))
      ensures a == b
    {
      var n, m := CountsOf(before, u, gap, v, after, a);
      var n', m' := CountsOf(before, u, gap, v, after, b);
      WholeLayout(before, elements, n, gap, v, m, after);
      WholeLayout(before, elements, n', gap, v, m', after);
      NoMisreading(RowLayout(before), RowLayout(elements), n, n', RowLayout(gap), Unit(v), m, m', RowLayout(after));
    }
  }

  lemma StartsSmall(slots: seq<Slot>)
    requires FixedWidth(slots) && slots != [] && slots[0].leaf.Supported()
    ensures RowLayout(slots)[0] == Small && |RowLayout(slots)| >= 2
    ensures !slots[0].leaf.Boolean? ==> RowLayout(slots)[1] == Wide
  {
    var cell := CellLayout(slots[0].leaf);
    assert |cell| >= 2;
    assert RowLayout(slots)[0] == cell[0] && RowLayout(slots)[1] == cell[1];
  }

  /** With nothing between the list and the later column, keys are always identified. */
  lemma ListNextVariable(before: seq<Slot>, elements: seq<Slot>, v: ColumnType, after: seq<Slot>)
    requires FixedColumns(before) && FixedColumns(after) && KeyColumn(ListOf(elements)) && KeyColumn(v) && Variable(v)
    ensures Identifies(Scalars(before) + [ListOf(elements)] + [v] + Scalars(after))
  {
    hide Identifies;
    ListThenVariable(before, elements, [], v, after);
    assert UnsortedSlot(elements[0]);
    StartsSmall(elements);
    QuotientUnique(0, |RowLayout(elements)|, 0, 0);
    assert Scalars([]) == [];
    assert Scalars(before) + [ListOf(elements)] + [] + [v] + Scalars(after)
        == Scalars(before) + [ListOf(elements)] + [v] + Scalars(after);
  }

  lemma WholeAlone(unit: seq<Class>, n: nat, gap: seq<Class>, v: seq<Class>, m: nat)
    ensures Whole([], unit, n, gap, v, m, []) == Later(unit, n) + gap + Later(v, m)
  {
    hide Later;
  }

  lemma TripleWhole(elements: seq<Slot>, n: nat, middle: seq<ColumnType>, v: ColumnType, m: nat)
    requires KeyColumn(ListOf(elements)) && Key(middle) && KeyColumn(v) && Variable(v)
    ensures Key([ListOf(elements)] + middle + [v])
    ensures CountsFor([ListOf(elements)] + middle + [v], [n] + NoCounts(|middle|) + [m])
    ensures KeyLayout([ListOf(elements)] + middle + [v], [n] + NoCounts(|middle|) + [m])
         == Whole([], RowLayout(elements), n, KeyLayout(middle, NoCounts(|middle|)), Unit(v), m, [])
  {
    assert FixedWidth(elements) && Unit(ListOf(elements)) == RowLayout(elements);
    hide KeyLayout, ColumnLayout, Later, Whole, KeyColumn, Key, CountsFor, RowLayout;
    LaterLayout(ListOf(elements), n);
    LaterLayout(v, m);
    TripleCounts(ListOf(elements), n, middle, v, m);
    TripleLayout(ListOf(elements), n, middle, NoCounts(|middle|), v, m);
    WholeAlone(RowLayout(elements), n, KeyLayout(middle, NoCounts(|middle|)), Unit(v), m);
  }

  lemma MisreadAmbiguous(elements: seq<Slot>, middle: seq<ColumnType>, v: ColumnType)
    requires KeyColumn(ListOf(elements)) && Key(middle) && KeyColumn(v) && Variable(v)
    requires Misread(RowLayout(elements), KeyLayout(middle, NoCounts(|middle|)), |Unit(v)|)
    ensures Key([ListOf(elements)] + middle + [v]) && !Unambiguous([ListOf(elements)] + middle + [v])
  {
    hide Misread, KeyLayout, Compatible, Unambiguous, Whole, CountsFor, Key;
    var zeros := NoCounts(|middle|);
    NoMarks(middle);
    var k, m := Misreading([], RowLayout(elements), KeyLayout(middle, zeros), Unit(v), []);
    TripleWhole(elements, 1, middle, v, m);
    TripleWhole(elements, 1 + k, middle, v, 0);
    var a, b := [1] + zeros + [m], [1 + k] + zeros + [0];
    assert a[0] != b[0];
    Ambiguous([ListOf(elements)] + middle + [v], a, b);
  }

  /** A possible misreading makes keys collide also when strings and lists stand between, left empty. */
  lemma MisreadCollides(before: seq<ColumnType>, elements: seq<Slot>, middle: seq<ColumnType>, v: ColumnType, after: seq<ColumnType>)
    requires Supported(before) && Supported(after) && KeyColumn(ListOf(elements)) && Key(middle) && KeyColumn(v) && Variable(v)
    requires Misread(RowLayout(elements), KeyLayout(middle, NoCounts(|middle|)), |Unit(v)|)
    ensures !Identifies(before + ([ListOf(elements)] + middle + [v]) + after)
  {
    hide Misread, KeyLayout, Unambiguous, Supported, Key, KeyColumn, Collide, Identifies;
    var types := [ListOf(elements)] + middle + [v];
    MisreadAmbiguous(elements, middle, v);
    KeysByLayout(types);
    Collision(types);
    var x, y :| Collide(types, x, y);
    Surround(before, types, after, x, y);
  }

  /**
   * Three strings or lists in a row, the first a list whose elements do not begin with a Boolean: an empty
   * column and a sentinel read as the start of one more element. So pairs do not decide longer keys.
   */
  lemma ThreeInARow(before: seq<ColumnType>, elements: seq<Slot>, u: ColumnType, v: ColumnType, after: seq<ColumnType>)
    requires Supported(before) && Supported(after) && KeyColumn(ListOf(elements)) && !elements[0].leaf.Boolean?
    requires KeyColumn(u) && Variable(u) && KeyColumn(v) && Variable(v)
    ensures !Identifies(before + ([ListOf(elements)] + [u] + [v]) + after)
  {
    hide Identifies, Supported;
    OneLayout(u, 0);
    assert NoCounts(1) == [0] && KeyLayout([u], NoCounts(1)) == [Small];
    assert UnsortedSlot(elements[0]);
    StartsSmall(elements);
    QuotientUnique(1, |RowLayout(elements)|, 0, 1);
    MisreadCollides(before, elements, [u], v, after);
  }
}
