/** Arrow offsets: monotone machine-width integers that stand for a list of lengths. */
module ArrowOffsets {
  import opened Options
  import opened ByteStrings
  import opened Division

  const USIZE: nat := 0x1_0000_0000_0000_0000

  /** The two offset types. */
  datatype Width = I32 | I64 {
    function Half(): int {
      if I32? then 0x8000_0000 else 0x8000_0000_0000_0000
    }

    function Max(): int {
      Half() - 1
    }

    /** Two's complement truncation of an integer to this width. */
    function Wrap(x: int): (r: int)
      ensures -Half() <= r <= Max()
      ensures -Half() <= x <= Max() ==> r == x
    {
      if I32? then (x + 0x8000_0000) % 0x1_0000_0000 - 0x8000_0000
      else (x + 0x8000_0000_0000_0000) % 0x1_0000_0000_0000_0000 - 0x8000_0000_0000_0000
    }

    /** `from_usize`: fails when the value does not fit. */
    function FromUsize(n: int): Option<int> {
      if n <= Max() then Some(n) else None
    }

    function CheckedAdd(a: int, b: int): Option<int> {
      if -Half() <= a + b <= Max() then Some(a + b) else None
    }
  }

  /** Truncation subtracts a multiple of the range. */
  lemma WrapOff(w: Width, x: int) returns (k: int)
    ensures w.Wrap(x) == x + 2 * w.Half() * k
  {
    if w.I32? {
      k := -((x + 0x8000_0000) / 0x1_0000_0000);
    } else {
      k := -((x + 0x8000_0000_0000_0000) / 0x1_0000_0000_0000_0000);
    }
  }

  lemma WrapShift(w: Width, x: int, k: int)
    ensures w.Wrap(x + 2 * w.Half() * k) == w.Wrap(x)
  {
    if w.I32? {
      ModShift(x + 0x8000_0000, 0x1_0000_0000, k);
    } else {
      ModShift(x + 0x8000_0000_0000_0000, 0x1_0000_0000_0000_0000, k);
    }
  }

  /** Truncating summands first does not change a truncated sum. */
  lemma WrapSum(w: Width, a: int, b: int)
    ensures w.Wrap(w.Wrap(a) + w.Wrap(b)) == w.Wrap(a + b)
  {
    var p := WrapOff(w, a);
    var q := WrapOff(w, b);
    WrapShift(w, a + b, p + q);
    assert w.Wrap(a) + w.Wrap(b) == a + b + 2 * w.Half() * (p + q);
  }

  function Sum(lengths: seq<int>): int {
    if lengths == [] then 0 else Sum(lengths[..|lengths| - 1]) + lengths[|lengths| - 1]
  }

  ghost predicate NonNegative(lengths: seq<int>) {
    forall i :: 0 <= i < |lengths| ==> lengths[i] >= 0
  }

  lemma {:induction false} SumConcat(a: seq<int>, b: seq<int>)
    ensures Sum(a + b) == Sum(a) + Sum(b)
  {
    if b == [] {
      assert a + b == a;
    } else {
      assert (a + b)[..|a + b| - 1] == a + b[..|b| - 1];
      SumConcat(a, b[..|b| - 1]);
    }
  }

  lemma {:induction false} SumNonNegative(lengths: seq<int>)
    requires NonNegative(lengths)
    ensures Sum(lengths) >= 0
  {
    if lengths != [] {
      SumNonNegative(lengths[..|lengths| - 1]);
    }
  }

  /** The invariant of `Offsets` and `OffsetsBuffer`. */
  ghost predicate Valid(w: Width, data: seq<int>) {
    && data != []
    && 0 <= data[0]
    && NonNegative(Lengths(data))
    && Last(data) <= w.Max()
  }

  /** Offsets never decrease. */
  lemma {:induction false} Monotone(w: Width, data: seq<int>, i: nat, j: nat)
    requires Valid(w, data) && i <= j < |data|
    ensures data[i] <= data[j]
    decreases j
  {
    if i < j {
      Monotone(w, data, i, j - 1);
      assert Lengths(data)[j - 1] >= 0;
    }
  }

  function Last(data: seq<int>): int
    requires data != []
  {
    data[|data| - 1]
  }

  /** The lengths a list of offsets stands for. */
  function Lengths(data: seq<int>): (r: seq<int>)
    requires data != []
    ensures |r| == |data| - 1
    ensures forall i :: 0 <= i < |r| ==> r[i] == data[i + 1] - data[i]
  {
    seq(|data| - 1, i requires 0 <= i < |data| - 1 => data[i + 1] - data[i])
  }

  lemma LengthsSnoc(data: seq<int>, x: int)
    requires data != []
    ensures Lengths(data + [x]) == Lengths(data) + [x - Last(data)]
  {
  }

  /** The lengths add up to the distance between the first and the last offset. */
  lemma {:induction false} Telescope(data: seq<int>)
    requires data != []
    ensures Sum(Lengths(data)) == Last(data) - data[0]
  {
    if |data| > 1 {
      var front := data[..|data| - 1];
      assert data == front + [Last(data)];
      LengthsSnoc(front, Last(data));
      assert (Lengths(front) + [Last(data) - Last(front)])[..|front| - 1] == Lengths(front);
      Telescope(front);
    }
  }

  /** `data` followed by running sums that start at its last entry, with wrapping additions. */
  function Appended(w: Width, data: seq<int>, lengths: seq<int>): (r: seq<int>)
    requires data != []
    ensures |r| == |data| + |lengths|
    decreases |lengths|
  {
    if lengths == [] then data
    else
      var r := Appended(w, data, lengths[..|lengths| - 1]);
      r + [w.Wrap(Last(r) + w.Wrap(lengths[|lengths| - 1]))]
  }

  /** When the total fits, no intermediate addition wraps and the new lengths are the given ones. */
  lemma {:induction false} AppendedExact(w: Width, data: seq<int>, lengths: seq<int>)
    requires Valid(w, data) && NonNegative(lengths) && Last(data) + Sum(lengths) <= w.Max()
    ensures Valid(w, Appended(w, data, lengths))
    ensures Lengths(Appended(w, data, lengths)) == Lengths(data) + lengths
    ensures Last(Appended(w, data, lengths)) == Last(data) + Sum(lengths)
    decreases |lengths|
  {
    hide Valid, Lengths, Width.Wrap;
    if lengths != [] {
      var front, l := lengths[..|lengths| - 1], lengths[|lengths| - 1];
      assert Sum(lengths) == Sum(front) + l;
      hide Sum;
      SumNonNegative(front);
      AppendedExact(w, data, front);
      SnocExact(w, Appended(w, data, front), l);
      assert lengths == front + [l];
      ConcatAssoc(Lengths(data), front, [l]);
    }
  }

  lemma SnocExact(w: Width, data: seq<int>, l: int)
    requires Valid(w, data) && l >= 0 && Last(data) + l <= w.Max()
    ensures var r := data + [w.Wrap(Last(data) + w.Wrap(l))];
            Valid(w, r) && Lengths(r) == Lengths(data) + [l] && Last(r) == Last(data) + l
  {
    hide Width.Wrap, Lengths;
    var x := Last(data) + l;
    Monotone(w, data, 0, |data| - 1);
    assert w.Wrap(l) == l && w.Wrap(x) == x;
    LengthsSnoc(data, x);
  }

  /** If the new lengths are the given ones, their total must have fitted. */
  lemma AppendedNeedsRoom(w: Width, data: seq<int>, lengths: seq<int>, r: seq<int>)
    requires Valid(w, data) && Valid(w, r) && NonNegative(lengths) && data[0] == r[0]
    requires Lengths(r) == Lengths(data) + lengths
    ensures Last(data) + Sum(lengths) <= w.Max()
  {
    Telescope(r);
    Telescope(data);
    SumConcat(Lengths(data), lengths);
  }

  // The operations, as values.

  datatype Op =
    | PushLength(length: nat)
    | PopLast
    | RepeatLast(additional: nat)
    | AppendLengths(lengths: seq<int>)
    | AppendOffsets(other: seq<int>)
    | AppendSlice(buffer: seq<int>, start: nat, count: nat)

  /** What callers must supply: `usize` lengths, valid other offsets, slice bounds within them. */
  ghost predicate WellFormed(w: Width, op: Op) {
    match op
    case PushLength(length) => length < USIZE
    case PopLast => true
    case RepeatLast(_) => true
    case AppendLengths(lengths) => forall i :: 0 <= i < |lengths| ==> 0 <= lengths[i] < USIZE
    case AppendOffsets(other) => Valid(w, other)
    case AppendSlice(buffer, start, count) => Valid(w, buffer) && (count > 0 ==> start + count < |buffer|)
  }

  /** The entries after an operation, or `None` when it reports overflow. */
  ghost function Apply(w: Width, data: seq<int>, op: Op): Option<seq<int>>
    requires data != [] && WellFormed(w, op)
  {
    match op
    case PushLength(length) =>
      if w.I64? then Some(Appended(w, data, [length]))
      else if length > w.Max() || w.CheckedAdd(Last(data), length).None? then None
      else Some(data + [Last(data) + length])
    case PopLast => Some(if |data| == 1 then data else data[..|data| - 1])
    case RepeatLast(additional) => Some(data + seq(additional, _ => Last(data)))
    case AppendLengths(lengths) =>
      var total := Sum(lengths) % USIZE;
      if Last(data) + total >= USIZE || w.FromUsize(Last(data) + total).None? then None
      else Some(Appended(w, data, lengths))
    case AppendOffsets(other) =>
      if w.CheckedAdd(Last(data), Last(other)).None? then None else Some(Appended(w, data, Lengths(other)))
    case AppendSlice(buffer, start, count) =>
      if count == 0 then Some(data)
      else
        var other := buffer[start..start + count + 1];
        if w.CheckedAdd(Last(data), Last(other)).None? then None else Some(Appended(w, data, Lengths(other)))
  }

  /** What the operation does to the list of lengths. */
  ghost function ApplyToLengths(w: Width, lengths: seq<int>, op: Op): seq<int>
    requires WellFormed(w, op)
  {
    match op
    case PushLength(length) => lengths + [length]
    case PopLast => if lengths == [] then [] else lengths[..|lengths| - 1]
    case RepeatLast(additional) => lengths + seq(additional, _ => 0)
    case AppendLengths(more) => lengths + more
    case AppendOffsets(other) => lengths + Lengths(other)
    case AppendSlice(buffer, start, count) =>
      if count == 0 then lengths else lengths + Lengths(buffer)[start..start + count]
  }

  /**
   * What the unchecked additions rely on: a 64-bit push must not pass the maximum, and lengths must
   * not add up beyond `usize`.
   */
  ghost predicate InRange(w: Width, data: seq<int>, op: Op)
    requires data != []
  {
    match op
    case PushLength(length) => w.I64? ==> Last(data) + length <= w.Max()
    case AppendLengths(lengths) => Sum(lengths) < USIZE
    case PopLast => true
    case RepeatLast(_) => true
    case AppendOffsets(_) => true
    case AppendSlice(_, _, _) => true
  }

  /** The result is valid, starts where it did, and stands for the list the operation should produce. */
  ghost predicate Denotes(w: Width, data: seq<int>, op: Op, r: seq<int>)
    requires data != [] && WellFormed(w, op)
  {
    Valid(w, r) && r[0] == data[0] && Lengths(r) == ApplyToLengths(w, Lengths(data), op)
  }

  lemma SliceValid(w: Width, buffer: seq<int>, lo: nat, hi: nat)
    requires Valid(w, buffer) && lo < hi <= |buffer|
    ensures Valid(w, buffer[lo..hi])
    ensures Lengths(buffer[lo..hi]) == Lengths(buffer)[lo..hi - 1]
  {
    hide Lengths;
    Monotone(w, buffer, 0, lo);
    Monotone(w, buffer, hi - 1, |buffer| - 1);
    SliceLengths(buffer, lo, hi);
    SliceNonNegative(Lengths(buffer), lo, hi - 1);
  }

  lemma SliceNonNegative(lengths: seq<int>, lo: nat, hi: nat)
    requires NonNegative(lengths) && lo <= hi <= |lengths|
    ensures NonNegative(lengths[lo..hi])
  {
  }

  lemma SliceLengths(buffer: seq<int>, lo: nat, hi: nat)
    requires lo < hi <= |buffer|
    ensures Lengths(buffer[lo..hi]) == Lengths(buffer)[lo..hi - 1]
  {
    var s := buffer[lo..hi];
    forall i | 0 <= i < hi - 1 - lo
      ensures Lengths(s)[i] == Lengths(buffer)[lo..hi - 1][i]
    {
      assert s[i + 1] == buffer[lo + i + 1] && s[i] == buffer[lo + i];
      assert Lengths(buffer)[lo + i] == buffer[lo + i + 1] - buffer[lo + i];
    }
  }

  lemma ExtendExact(w: Width, data: seq<int>, other: seq<int>)
    requires Valid(w, data) && Valid(w, other) && Last(data) + Last(other) <= w.Max()
    ensures Valid(w, Appended(w, data, Lengths(other)))
    ensures Lengths(Appended(w, data, Lengths(other))) == Lengths(data) + Lengths(other)
    ensures Appended(w, data, Lengths(other))[0] == data[0]
  {
    Telescope(other);
    AppendedKeepsFirst(w, data, Lengths(other));
    AppendedExact(w, data, Lengths(other));
  }

  /** A 64-bit push past the maximum leaves a decreasing pair of entries behind. */
  lemma PushWraps(data: seq<int>, length: nat)
    requires Valid(I64, data) && length < USIZE && Last(data) + length > I64.Max()
    ensures !Valid(I64, Appended(I64, data, [length]))
  {
    assert Appended(I64, data, []) == data;
    var r := Appended(I64, data, [length]);
    WrapSum(I64, Last(data), length);
    WrapShift(I64, Last(data) + length, -1);
    assert r[|data|] == Last(data) + length - USIZE < r[|data| - 1];
  }

  lemma PushExact(w: Width, data: seq<int>, length: nat)
    requires Valid(w, data) && length < USIZE && Apply(w, data, PushLength(length)).Some?
    ensures Denotes(w, data, PushLength(length), Apply(w, data, PushLength(length)).value) <==> InRange(w, data, PushLength(length))
  {
    if w.I32? {
      SnocExact(w, data, length);
    } else if Last(data) + length <= w.Max() {
      AppendedExact(w, data, [length]);
    } else {
      PushWraps(data, length);
    }
  }

  lemma PopExact(w: Width, data: seq<int>)
    requires Valid(w, data)
    ensures Denotes(w, data, PopLast, Apply(w, data, PopLast).value)
  {
    if |data| > 1 {
      SliceValid(w, data, 0, |data| - 1);
      assert data[0..|data| - 1] == data[..|data| - 1];
      assert Lengths(data)[0..|data| - 2] == Lengths(data)[..|data| - 2];
    } else {
      assert Lengths(data) == [];
    }
  }

  lemma RepeatExact(w: Width, data: seq<int>, additional: nat)
    requires Valid(w, data)
    ensures Denotes(w, data, RepeatLast(additional), data + seq(additional, _ => Last(data)))
  {
    var r := data + seq(additional, _ => Last(data));
    assert Lengths(r) == Lengths(data) + seq(additional, _ => 0);
  }

  lemma LengthsExact(w: Width, data: seq<int>, lengths: seq<int>)
    requires Valid(w, data) && WellFormed(w, AppendLengths(lengths))
    requires Apply(w, data, AppendLengths(lengths)).Some?
    ensures Denotes(w, data, AppendLengths(lengths), Apply(w, data, AppendLengths(lengths)).value)
       <==> Sum(lengths) < USIZE
  {
    hide Lengths, Appended, Sum, Width.Wrap;
    var r := Appended(w, data, lengths);
    SumNonNegative(lengths);
    Monotone(w, data, 0, |data| - 1);
    AppendedKeepsFirst(w, data, lengths);
    if Sum(lengths) < USIZE {
      AppendedExact(w, data, lengths);
    } else if Denotes(w, data, AppendLengths(lengths), r) {
      AppendedNeedsRoom(w, data, lengths, r);
    }
  }

  lemma {:induction false} AppendedKeepsFirst(w: Width, data: seq<int>, lengths: seq<int>)
    requires data != []
    ensures Appended(w, data, lengths)[0] == data[0]
    decreases |lengths|
  {
    if lengths != [] {
      AppendedKeepsFirst(w, data, lengths[..|lengths| - 1]);
    }
  }

  /**
   * A successful operation acts on the offsets as it should on the list of lengths exactly when its
   * unchecked additions stay in range; every other operation always does.
   */
  lemma StepExact(w: Width, data: seq<int>, op: Op)
    requires Valid(w, data) && WellFormed(w, op) && Apply(w, data, op).Some?
    ensures Denotes(w, data, op, Apply(w, data, op).value) <==> InRange(w, data, op)
  {
    hide Valid, Lengths, Appended, Width.Wrap;
    match op
    case PushLength(length) => PushExact(w, data, length);
    case PopLast => PopExact(w, data);
    case RepeatLast(additional) => RepeatExact(w, data, additional);
    case AppendLengths(lengths) => LengthsExact(w, data, lengths);
    case AppendOffsets(other) => ExtendExact(w, data, other);
    case AppendSlice(buffer, start, count) => SliceExact(w, data, buffer, start, count);
  }

  lemma SliceExact(w: Width, data: seq<int>, buffer: seq<int>, start: nat, count: nat)
    requires Valid(w, data) && WellFormed(w, AppendSlice(buffer, start, count))
    requires Apply(w, data, AppendSlice(buffer, start, count)).Some?
    ensures Denotes(w, data, AppendSlice(buffer, start, count), Apply(w, data, AppendSlice(buffer, start, count)).value)
  {
    hide Valid, Lengths, Appended, Width.Wrap;
    if count > 0 {
      SliceValid(w, buffer, start, start + count + 1);
      ExtendExact(w, data, buffer[start..start + count + 1]);
    }
  }

  // Runs.

  /** The entries after a run, or `None` if some operation failed. */
  ghost function Run(w: Width, data: seq<int>, ops: seq<Op>): Option<seq<int>>
    requires data != [] && forall k :: 0 <= k < |ops| ==> WellFormed(w, ops[k])
    decreases |ops|
  {
    if ops == [] then Some(data)
    else
      var next := Apply(w, data, ops[0]);
      if next.None? || next.value == [] then None else Run(w, next.value, ops[1..])
  }

  /** Every operation of the run finds its unchecked additions in range. */
  ghost predicate RunInRange(w: Width, data: seq<int>, ops: seq<Op>)
    requires data != [] && forall k :: 0 <= k < |ops| ==> WellFormed(w, ops[k])
    decreases |ops|
  {
    ops == [] ||
    (InRange(w, data, ops[0]) &&
     var next := Apply(w, data, ops[0]);
     next.Some? && next.value != [] ==> RunInRange(w, next.value, ops[1..]))
  }

  ghost function RunOnLengths(w: Width, lengths: seq<int>, ops: seq<Op>): seq<int>
    requires forall k :: 0 <= k < |ops| ==> WellFormed(w, ops[k])
    decreases |ops|
  {
    if ops == [] then lengths else RunOnLengths(w, ApplyToLengths(w, lengths, ops[0]), ops[1..])
  }

  /** Over every successful run, the offsets stay valid and follow the list of lengths. */
  lemma {:induction false} RunDenotes(w: Width, data: seq<int>, ops: seq<Op>)
    requires Valid(w, data) && forall k :: 0 <= k < |ops| ==> WellFormed(w, ops[k])
    requires Run(w, data, ops).Some? && RunInRange(w, data, ops)
    ensures Valid(w, Run(w, data, ops).value)
    ensures Lengths(Run(w, data, ops).value) == RunOnLengths(w, Lengths(data), ops)
    decreases |ops|
  {
    if ops != [] {
      StepExact(w, data, ops[0]);
      RunDenotes(w, Apply(w, data, ops[0]).value, ops[1..]);
    }
  }

  lemma AppendedNone(w: Width, data: seq<int>)
    requires data != []
    ensures Appended(w, data, []) == data && Sum([]) == 0
  {
  }

  lemma AppendedNext(w: Width, data: seq<int>, lengths: seq<int>, k: nat)
    requires data != [] && k < |lengths|
    ensures var r := Appended(w, data, lengths[..k]);
            Appended(w, data, lengths[..k + 1]) == r + [w.Wrap(Last(r) + w.Wrap(lengths[k]))]
    ensures Sum(lengths[..k + 1]) == Sum(lengths[..k]) + lengths[k]
  {
    assert lengths[..k + 1][..k] == lengths[..k];
  }

  // The mutable container.

  lemma ModAdd(sum: int, length: int)
    ensures (sum % USIZE + length) % USIZE == (sum + length) % USIZE
  {
  }

  class Offsets {
    const width: Width
    var data: seq<int>

    /** `new` and `with_capacity`. */
    constructor (width: Width)
      ensures this.width == width && data == [0]
      ensures Valid(width, data) && Lengths(data) == []
    {
      this.width := width;
      data := [0];
    }

    method TryPush(length: nat) returns (ok: bool)
      requires data != [] && length < USIZE
      modifies this
      ensures ok == Apply(width, old(data), PushLength(length)).Some?
      ensures data == if ok then Apply(width, old(data), PushLength(length)).value else old(data)
    {
      if width.I64? {
        var newLength := width.Wrap(Last(data) + width.Wrap(length));
        assert Appended(width, data, []) == data;
        data := data + [newLength];
        ok := true;
      } else {
        if length > width.Max() {
          return false;
        }
        var sum := width.CheckedAdd(Last(data), length);
        if sum.None? {
          return false;
        }
        data := data + [sum.value];
        ok := true;
      }
    }

    method Pop() returns (last: Option<int>)
      requires data != []
      modifies this
      ensures last == if |old(data)| == 1 then None else Some(Last(old(data)))
      ensures data == Apply(width, old(data), PopLast).value
    {
      if |data| == 1 {
        last := None;
      } else {
        last := Some(Last(data));
        data := data[..|data| - 1];
      }
    }

    method ExtendConstant(additional: nat)
      requires data != []
      modifies this
      ensures data == Apply(width, old(data), RepeatLast(additional)).value
    {
      var offset := Last(data);
      if additional == 1 {
        data := data + [offset];
      } else {
        data := data + seq(additional, _ => offset);
      }
    }

    /** Entries are appended before the total is checked. */
    method TryExtendFromLengths(lengths: seq<int>) returns (ok: bool)
      requires data != [] && WellFormed(width, AppendLengths(lengths))
      requires 0 <= Last(data) <= width.Max()
      modifies this
      ensures data == Appended(width, old(data), lengths)
      ensures ok == Apply(width, old(data), AppendLengths(lengths)).Some?
    {
      hide Appended, Sum, Width.Wrap;
      AppendedNone(width, data);
      var original := Last(data);
      var total := 0;
      var offset := original;
      var k := 0;
      assert lengths[..0] == [];
      while k < |lengths|
        invariant 0 <= k <= |lengths|
        invariant total == Sum(lengths[..k]) % USIZE
        invariant data == Appended(width, old(data), lengths[..k]) && offset == Last(data)
      {
        AppendedNext(width, old(data), lengths, k);
        ModAdd(Sum(lengths[..k]), lengths[k]);
        total := (total + lengths[k]) % USIZE;
        offset := width.Wrap(offset + width.Wrap(lengths[k]));
        data := data + [offset];
        k := k + 1;
      }
      assert lengths[..|lengths|] == lengths;
      ok := original + total < USIZE && width.FromUsize(original + total).Some?;
    }

    /** The loop shared by `try_extend_from_self` and `try_extend_from_slice`. */
    method AppendWindows(other: seq<int>)
      requires data != [] && other != []
      requires Valid(width, data) && Valid(width, other) && Last(data) + Last(other) <= width.Max()
      modifies this
      ensures data == Appended(width, old(data), Lengths(other))
    {
      hide Appended, Sum, Width.Wrap;
      AppendedNone(width, data);
      var length := Last(data);
      var lengths := Lengths(other);
      var k := 0;
      assert lengths[..0] == [];
      while k < |lengths|
        invariant 0 <= k <= |lengths|
        invariant data == Appended(width, old(data), lengths[..k]) && length == Last(data)
      {
        AppendedNext(width, old(data), lengths, k);
        WindowFits(width, other, k);
        length := width.Wrap(length + lengths[k]);
        data := data + [length];
        k := k + 1;
      }
      assert lengths[..|lengths|] == lengths;
    }

    method TryExtendFromSelf(other: Offsets) returns (ok: bool)
      requires this != other && width == other.width
      requires Valid(width, data) && Valid(width, other.data)
      modifies this
      ensures ok == Apply(width, old(data), AppendOffsets(other.data)).Some?
      ensures data == if ok then Apply(width, old(data), AppendOffsets(other.data)).value else old(data)
    {
      hide Appended, Sum, Width.Wrap, Lengths;
      Monotone(width, data, 0, |data| - 1);
      Monotone(width, other.data, 0, |other.data| - 1);
      if width.CheckedAdd(Last(data), Last(other.data)).None? {
        return false;
      }
      AppendWindows(other.data);
      ok := true;
    }

    method TryExtendFromSlice(buffer: seq<int>, start: nat, count: nat) returns (ok: bool)
      requires Valid(width, data) && WellFormed(width, AppendSlice(buffer, start, count))
      modifies this
      ensures ok == Apply(width, old(data), AppendSlice(buffer, start, count)).Some?
      ensures data == if ok then Apply(width, old(data), AppendSlice(buffer, start, count)).value else old(data)
    {
      hide Appended, Sum, Width.Wrap, Lengths;
      if count == 0 {
        return true;
      }
      var other := buffer[start..start + count + 1];
      SliceValid(width, buffer, start, start + count + 1);
      Monotone(width, data, 0, |data| - 1);
      Monotone(width, other, 0, |other| - 1);
      if width.CheckedAdd(Last(data), Last(other)).None? {
        return false;
      }
      AppendWindows(other);
      ok := true;
    }
  }

  /** Differences of valid offsets need no truncation. */
  lemma WindowFits(w: Width, other: seq<int>, k: nat)
    requires Valid(w, other) && k < |Lengths(other)|
    ensures w.Wrap(Lengths(other)[k]) == Lengths(other)[k]
  {
    Monotone(w, other, 0, k);
    Monotone(w, other, k + 1, |other| - 1);
  }

  /** `try_check_offsets`: one pass without early exit. */
  method TryCheckOffsets(data: seq<int>) returns (ok: bool)
    ensures ok <==> data != [] && 0 <= data[0] && NonNegative(Lengths(data))
  {
    if data == [] || data[0] < 0 {
      return false;
    }
    var previous := data[0];
    var anyInvalid := false;
    for i := 0 to |data|
      invariant previous == if i == 0 then data[0] else data[i - 1]
      invariant anyInvalid <==> exists j :: 0 <= j < i - 1 && Lengths(data)[j] < 0
    {
      assert i > 0 ==> Lengths(data)[i - 1] == data[i] - data[i - 1];
      if previous > data[i] {
        anyInvalid := true;
      }
      previous := data[i];
    }
    ok := !anyInvalid;
  }

  // Immutable buffers.

  /** `_split_at_unchecked`. */
  function SplitAt(data: seq<int>, offset: nat): (seq<int>, seq<int>)
    requires offset < |data|
  {
    (data[..offset + 1], data[offset..])
  }

  /** Both halves are valid and their lengths are the original's, cut in two. */
  lemma SplitExact(w: Width, data: seq<int>, offset: nat)
    requires Valid(w, data) && offset < |data|
    ensures var (lhs, rhs) := SplitAt(data, offset);
            && Valid(w, lhs) && Valid(w, rhs) && |lhs| == offset + 1 && |rhs| == |data| - offset
            && Lengths(data) == Lengths(lhs) + Lengths(rhs)
            && (forall i :: 0 <= i < |lhs| ==> lhs[i] == data[i])
            && forall i :: 0 <= i < |rhs| ==> rhs[i] == data[offset + i]
  {
    SliceValid(w, data, 0, offset + 1);
    SliceValid(w, data, offset, |data|);
    assert data[0..offset + 1] == data[..offset + 1] && data[offset..|data|] == data[offset..];
  }

  /** `delta`. */
  function Delta(data: seq<int>, start: nat, end: nat): int
    requires start <= end && end + 1 < |data|
  {
    data[end + 1] - data[start]
  }

  /** The difference of two offsets is the sum of the lengths between them. */
  lemma DeltaIsSum(data: seq<int>, start: nat, end: nat)
    requires start <= end && end + 1 < |data|
    ensures Delta(data, start, end) == Sum(Lengths(data)[start..end + 1])
  {
    hide Sum, Lengths;
    SliceLengths(data, start, end + 2);
    Telescope(data[start..end + 2]);
  }

  /** The 64-bit to 32-bit conversion: only the last offset is checked, every entry is truncated. */
  function Narrow(data: seq<int>): (r: Option<seq<int>>)
    requires data != []
    ensures r.Some? ==> |r.value| == |data|
  {
    if Last(data) > I32.Max() then None
    else Some(seq(|data|, i requires 0 <= i < |data| => I32.Wrap(data[i])))
  }

  /** Narrowing is lossless whenever it succeeds, so widening gives the same offsets back. */
  lemma NarrowLossless(data: seq<int>)
    requires Valid(I64, data)
    ensures Narrow(data).Some? <==> Valid(I32, data)
    ensures Narrow(data).Some? ==> Narrow(data).value == data
  {
    if Narrow(data).Some? {
      forall i | 0 <= i < |data|
        ensures I32.Wrap(data[i]) == data[i]
      {
        Monotone(I64, data, 0, i);
        Monotone(I64, data, i, |data| - 1);
      }
    }
  }

  /**
   * A push fails exactly when it overflows 32 bits and appends the sum otherwise; a 64-bit push never
   * fails and wraps around past the maximum.
   */
  lemma PushErrors(w: Width, data: seq<int>, length: nat)
    requires Valid(w, data) && length < USIZE
    ensures Apply(w, data, PushLength(length)).None? <==> w.I32? && Last(data) + length > 0x7fff_ffff
    ensures w.I32? && Last(data) + length <= 0x7fff_ffff ==>
              Apply(w, data, PushLength(length)) == Some(data + [Last(data) + length])
    ensures w.I64? ==>
              Apply(w, data, PushLength(length)) ==
              Some(data + [if Last(data) + length <= 0x7fff_ffff_ffff_ffff then Last(data) + length
                           else Last(data) + length - 0x1_0000_0000_0000_0000])
  {
    Monotone(w, data, 0, |data| - 1);
    if w.I64? {
      assert Appended(w, data, []) == data;
      WrapSum(w, Last(data), length);
      WrapShift(w, Last(data) + length, -1);
    }
  }

  /** Popping undoes pushing. */
  lemma PopUndoesPush(w: Width, data: seq<int>, length: nat)
    requires Valid(w, data) && length < USIZE && Apply(w, data, PushLength(length)).Some?
    ensures Apply(w, Apply(w, data, PushLength(length)).value, PopLast) == Some(data)
  {
    PushErrors(w, data, length);
    hide Appended, Lengths, Width.Wrap;
    var r := Apply(w, data, PushLength(length)).value;
    assert r[..|data|] == data;
  }

  ghost function Pushes(lengths: seq<int>): seq<Op>
    requires NonNegative(lengths)
  {
    seq(|lengths|, i requires 0 <= i < |lengths| => PushLength(lengths[i]))
  }

  /** Pushes of lengths that fit succeed one after the other and leave the running sums. */
  lemma {:induction false} PushesExact(w: Width, data: seq<int>, lengths: seq<int>)
    requires Valid(w, data) && NonNegative(lengths) && Last(data) + Sum(lengths) <= w.Max()
    requires forall k :: 0 <= k < |lengths| ==> WellFormed(w, Pushes(lengths)[k])
    ensures Run(w, data, Pushes(lengths)).Some? && Valid(w, Run(w, data, Pushes(lengths)).value)
    ensures Lengths(Run(w, data, Pushes(lengths)).value) == Lengths(data) + lengths
    ensures Run(w, data, Pushes(lengths)).value[0] == data[0]
    decreases |lengths|
  {
    hide Appended, Lengths, Width.Wrap, Valid;
    if lengths != [] {
      var l, rest := lengths[0], lengths[1..];
      assert lengths == [l] + rest;
      SumConcat([l], rest);
      assert Sum([l]) == Sum([]) + l;
      SumNonNegative(rest);
      assert Pushes(lengths)[0] == PushLength(l) && Pushes(lengths)[1..] == Pushes(rest);
      PushErrors(w, data, l);
      PushExact(w, data, l);
      var next := Apply(w, data, PushLength(l)).value;
      assert next == data + [Last(data) + l];
      PushesExact(w, next, rest);
      ConcatAssoc(Lengths(data), [l], rest);
    }
  }

  /** Offsets are determined by their first entry and their lengths. */
  lemma {:induction false} SameOffsets(a: seq<int>, b: seq<int>)
    requires a != [] && b != [] && a[0] == b[0] && Lengths(a) == Lengths(b)
    ensures a == b
  {
    assert |a| == |Lengths(a)| + 1 == |b|;
    if |a| > 1 {
      var n := |a| - 1;
      SliceLengths(a, 0, n);
      SliceLengths(b, 0, n);
      SameOffsets(a[0..n], b[0..n]);
      assert Lengths(a)[n - 1] == Lengths(b)[n - 1];
      assert a[n - 1] == a[0..n][n - 1] == b[0..n][n - 1] == b[n - 1];
      assert a == a[0..n] + [a[n]] && b == b[0..n] + [b[n]];
    }
  }

  /** An extension that fits is the same as pushing its lengths one by one. */
  lemma ExtendIsPushes(w: Width, data: seq<int>, lengths: seq<int>)
    requires Valid(w, data) && WellFormed(w, AppendLengths(lengths)) && Last(data) + Sum(lengths) <= w.Max()
    ensures Apply(w, data, AppendLengths(lengths)) == Run(w, data, Pushes(lengths))
  {
    hide Appended, Lengths, Width.Wrap, Sum;
    SumNonNegative(lengths);
    Monotone(w, data, 0, |data| - 1);
    LengthsErrors(w, data, lengths);
    LengthsExact(w, data, lengths);
    PushesExact(w, data, lengths);
    SameOffsets(Apply(w, data, AppendLengths(lengths)).value, Run(w, data, Pushes(lengths)).value);
  }

  /** Repeating the last offset is the same as pushing empty lists. */
  lemma RepeatIsPushes(w: Width, data: seq<int>, additional: nat)
    requires Valid(w, data)
    ensures Apply(w, data, RepeatLast(additional)) == Run(w, data, Pushes(seq(additional, _ => 0)))
  {
    hide Appended, Lengths, Width.Wrap;
    var zeros := seq(additional, _ => 0);
    SumZeros(zeros);
    PushesExact(w, data, zeros);
    RepeatExact(w, data, additional);
    SameOffsets(Apply(w, data, RepeatLast(additional)).value, Run(w, data, Pushes(zeros)).value);
  }

  /** Empty windows, wherever they start, and empty lists are always accepted. */
  lemma EmptyAccepted(w: Width, data: seq<int>, buffer: seq<int>, start: nat, additional: nat)
    requires Valid(w, data) && Valid(w, buffer)
    ensures WellFormed(w, AppendSlice(buffer, start, 0)) && Apply(w, data, AppendSlice(buffer, start, 0)) == Some(data)
    ensures WellFormed(w, AppendLengths(seq(additional, _ => 0)))
    ensures Apply(w, data, AppendLengths(seq(additional, _ => 0))) == Apply(w, data, RepeatLast(additional))
  {
    hide Appended, Lengths, Width.Wrap, Sum;
    var zeros := seq(additional, _ => 0);
    SumZeros(zeros);
    ExtendIsPushes(w, data, zeros);
    RepeatIsPushes(w, data, additional);
  }

  lemma {:induction false} SumZeros(lengths: seq<int>)
    requires forall i :: 0 <= i < |lengths| ==> lengths[i] == 0
    ensures Sum(lengths) == 0
  {
    if lengths != [] {
      SumZeros(lengths[..|lengths| - 1]);
    }
  }

  /**
   * `try_extend_from_self` reports overflow against the other's last offset, so it is exact for
   * others that start at zero and too strict by exactly the other's first offset otherwise.
   */
  lemma ExtendErrors(w: Width, data: seq<int>, other: seq<int>)
    requires Valid(w, data) && Valid(w, other)
    ensures Apply(w, data, AppendOffsets(other)).None? <==> Last(data) + Sum(Lengths(other)) > w.Max() - other[0]
  {
    Telescope(other);
    Monotone(w, data, 0, |data| - 1);
    Monotone(w, other, 0, |other| - 1);
  }

  /** The same for `try_extend_from_slice`, which is too strict by the first offset of the window. */
  lemma SliceErrors(w: Width, data: seq<int>, buffer: seq<int>, start: nat, count: nat)
    requires Valid(w, data) && WellFormed(w, AppendSlice(buffer, start, count))
    ensures Apply(w, data, AppendSlice(buffer, start, count)).None?
       <==> count > 0 && Last(data) + Sum(Lengths(buffer)[start..start + count]) > w.Max() - buffer[start]
  {
    hide Appended, Sum, Width.Wrap, Lengths;
    if count > 0 {
      var other := buffer[start..start + count + 1];
      SliceValid(w, buffer, start, start + count + 1);
      ExtendErrors(w, data, other);
    }
  }

  /** An extension that would fit and is refused, by other offsets and by a window of them. */
  lemma SpuriousOverflow(w: Width)
    ensures Valid(w, [0, 1]) && Valid(w, [w.Max(), w.Max()])
    ensures Apply(w, [0, 1], AppendOffsets([w.Max(), w.Max()])).None?
    ensures Apply(w, [0, 1], AppendSlice([w.Max(), w.Max()], 0, 1)).None?
    ensures Last([0, 1]) + Sum(Lengths([w.Max(), w.Max()])) <= w.Max()
  {
    Telescope([w.Max(), w.Max()]);
    assert Lengths([0, 1]) == [1];
    assert Lengths([w.Max(), w.Max()]) == [0];
    assert [w.Max(), w.Max()][0..2] == [w.Max(), w.Max()];
  }

  /** `try_extend_from_lengths` reports overflow exactly when there is one, as long as the total fits `usize`. */
  lemma LengthsErrors(w: Width, data: seq<int>, lengths: seq<int>)
    requires Valid(w, data) && WellFormed(w, AppendLengths(lengths)) && Sum(lengths) < USIZE
    ensures Apply(w, data, AppendLengths(lengths)).None? <==> Last(data) + Sum(lengths) > w.Max()
  {
    hide Appended, Sum;
    SumNonNegative(lengths);
  }

  /** Two lengths that wrap the total around to zero: the check passes on every offsets, and wrong entries stay. */
  lemma FooledCheck(w: Width, data: seq<int>)
    requires Valid(w, data)
    ensures var op := AppendLengths([USIZE - 1, 1]);
            && WellFormed(w, op) && Apply(w, data, op).Some?
            && !Denotes(w, data, op, Apply(w, data, op).value)
  {
    var lengths := [USIZE - 1, 1];
    assert lengths == [USIZE - 1] + [1] && Sum([USIZE - 1]) == USIZE - 1 && Sum([1]) == 1;
    SumConcat([USIZE - 1], [1]);
    hide Appended, Sum, Width.Wrap;
    Monotone(w, data, 0, |data| - 1);
    LengthsExact(w, data, lengths);
  }
}
