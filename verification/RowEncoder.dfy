/** The shared output buffer of the row encoding and the column passes that fill it. */
module RowEncoder {
  import opened ByteStrings
  import opened EncodingFields
  import opened Buffers
  import opened RowCode
  import VariableColumns
  import BlockCode

  /** What one column pass consumes: fixed-width cells, or optional byte strings. */
  datatype Encoder =
    | Fixed(leaf: LeafType, field: EncodingField, cells: seq<Cell>)
    | Variable(field: EncodingField, strings: seq<BlockCode.Cell>)
  {
    function Rows(): nat {
      if Fixed? then |cells| else |strings|
    }

    ghost predicate Valid() {
      Fixed? ==> !leaf.Binary? && leaf.Supported() && forall i :: 0 <= i < |cells| ==> CellHasType(leaf, cells[i])
    }

    /** The bytes this column contributes to row `i`. */
    function CodeAt(i: nat): Bytes
      requires Valid() && i < Rows()
    {
      if Fixed? then SlotCode(field, leaf, cells[i]) else BlockCode.CellCode(field, strings[i])
    }
  }

  ghost predicate ValidEncoders(encoders: seq<Encoder>, n: nat) {
    forall k :: 0 <= k < |encoders| ==> encoders[k].Valid() && encoders[k].Rows() == n
  }

  /** The bytes of row `i` after the passes of all `encoders`. */
  ghost function RowSoFar(encoders: seq<Encoder>, n: nat, i: nat): Bytes
    requires ValidEncoders(encoders, n) && i < n
  {
    if encoders == [] then []
    else
      var last := |encoders| - 1;
      RowSoFar(encoders[..last], n, i) + encoders[last].CodeAt(i)
  }

  ghost function RowsSoFar(encoders: seq<Encoder>, n: nat): (codes: seq<Bytes>)
    requires ValidEncoders(encoders, n)
    ensures |codes| == n
    ensures forall i :: 0 <= i < n ==> codes[i] == RowSoFar(encoders, n, i)
  {
    seq(n, i requires 0 <= i < n => RowSoFar(encoders, n, i))
  }

  /** Where each row starts, and where the last one ends, given the row lengths. */
  function Starts(lengths: seq<nat>): (s: seq<nat>)
    ensures |s| == |lengths| + 1
    ensures s[0] == 0
    ensures forall i :: 0 <= i < |lengths| ==> s[i + 1] == s[i] + lengths[i]
    ensures forall i, j :: 0 <= i <= j <= |lengths| ==> s[i] <= s[j]
  {
    if lengths == [] then [0]
    else
      var last := |lengths| - 1;
      var s := Starts(lengths[..last]);
      s + [s[last] + lengths[last]]
  }

  /** The offsets the allocator leaves behind: entry `i + 1` is the start of row `i`. */
  ghost predicate Lagged(offsets: seq<nat>, starts: seq<nat>) {
    && |offsets| == |starts| > 0
    && offsets[0] == 0
    && forall i :: 0 <= i < |starts| - 1 ==> offsets[i + 1] == starts[i]
  }

  /**
   * Row `i` owns the bytes from `starts[i]` to `starts[i + 1]`; it holds `codes[i]` so far, and
   * `offsets[i + 1]` points just behind that.
   */
  ghost predicate Holds(values: Bytes, offsets: seq<nat>, starts: seq<nat>, codes: seq<Bytes>) {
    && |starts| == |offsets| == |codes| + 1
    && offsets[0] == 0
    && (forall i, j :: 0 <= i <= j <= |codes| ==> starts[i] <= starts[j])
    && starts[|codes|] <= |values|
    && forall i :: 0 <= i < |codes| ==>
      && offsets[i + 1] == starts[i] + |codes[i]| <= starts[i + 1]
      && values[starts[i]..starts[i] + |codes[i]|] == codes[i]
  }

  /** A slice in front of a write, or behind it, is not affected. */
  lemma SpliceElsewhere(values: Bytes, at: nat, c: Bytes, lo: nat, hi: nat)
    requires at + |c| <= |values| && lo <= hi <= |values| && (hi <= at || at + |c| <= lo)
    ensures Splice(values, at, c)[lo..hi] == values[lo..hi]
  {
  }

  lemma SpliceExtends(values: Bytes, lo: nat, at: nat, c: Bytes)
    requires lo <= at && at + |c| <= |values|
    ensures Splice(values, at, c)[lo..at + |c|] == values[lo..at] + c
  {
  }

  /** Writing the next code of row `i` behind its current bytes disturbs no row. */
  lemma WriteNext(values: Bytes, offsets: seq<nat>, starts: seq<nat>, codes: seq<Bytes>, i: nat, c: Bytes)
    requires Holds(values, offsets, starts, codes) && i < |codes|
    requires starts[i] + |codes[i]| + |c| <= starts[i + 1]
    ensures offsets[i + 1] + |c| <= |values|
    ensures Holds(Splice(values, offsets[i + 1], c), offsets[i + 1 := offsets[i + 1] + |c|],
                  starts, codes[i := codes[i] + c])
  {
    var at := offsets[i + 1];
    assert starts[i + 1] <= starts[|codes|];
    var values' := Splice(values, at, c);
    var offsets' := offsets[i + 1 := at + |c|];
    var codes' := codes[i := codes[i] + c];
    forall j | 0 <= j < |codes'|
      ensures offsets'[j + 1] == starts[j] + |codes'[j]| <= starts[j + 1]
      ensures values'[starts[j]..starts[j] + |codes'[j]|] == codes'[j]
    {
      assert starts[j + 1] <= starts[|codes|];
      if j == i {
        SpliceExtends(values, starts[i], at, c);
      } else {
        if j < i {
          assert starts[j + 1] <= starts[i];
        } else {
          assert starts[i + 1] <= starts[j];
        }
        SpliceElsewhere(values, at, c, starts[j], starts[j] + |codes[j]|);
      }
    }
  }

  /** Clearing everything behind the last row's bytes disturbs no row. */
  lemma ClearTail(values: Bytes, offsets: seq<nat>, starts: seq<nat>, codes: seq<Bytes>)
    requires Holds(values, offsets, starts, codes)
    ensures var last := offsets[|codes|];
            last <= |values| && Holds(Splice(values, last, Zeros(|values| - last)), offsets, starts, codes)
  {
    var n := |codes|;
    var last := offsets[n];
    if n > 0 {
      var k := n - 1;
      assert offsets[k + 1] == starts[k] + |codes[k]| <= starts[k + 1];
    }
    var values' := Splice(values, last, Zeros(|values| - last));
    forall j | 0 <= j < n
      ensures starts[j] + |codes[j]| <= |values'| && values'[starts[j]..starts[j] + |codes[j]|] == codes[j]
    {
      assert starts[j] + |codes[j]| <= starts[j + 1] <= starts[n];
      if j < n - 1 {
        assert starts[j + 1] <= starts[n - 1] <= last;
      }
      SpliceElsewhere(values, last, Zeros(|values| - last), starts[j], starts[j] + |codes[j]|);
    }
  }

  /** `codes` with the contribution of one more column added to the first `k` rows. */
  ghost function Extended(codes: seq<Bytes>, e: Encoder, k: nat): (r: seq<Bytes>)
    requires e.Valid() && e.Rows() == |codes| && k <= |codes|
    ensures |r| == |codes|
    ensures forall i :: 0 <= i < |codes| ==> r[i] == if i < k then codes[i] + e.CodeAt(i) else codes[i]
  {
    seq(|codes|, i requires 0 <= i < |codes| => if i < k then codes[i] + e.CodeAt(i) else codes[i])
  }

  /** Every row has room for its code so far and this column's code. */
  ghost predicate Fits(starts: seq<nat>, codes: seq<Bytes>, e: Encoder) {
    && |starts| == |codes| + 1
    && e.Valid()
    && e.Rows() == |codes|
    && forall i :: 0 <= i < |codes| ==> starts[i] + |codes[i]| + |e.CodeAt(i)| <= starts[i + 1]
  }

  lemma ExtendedStep(codes: seq<Bytes>, e: Encoder, i: nat)
    requires e.Valid() && e.Rows() == |codes| && i < |codes|
    ensures Extended(codes, e, i)[i] == codes[i]
    ensures Extended(codes, e, i + 1) == Extended(codes, e, i)[i := codes[i] + e.CodeAt(i)]
  {
  }

  /** One step of a column pass: the code of row `i` goes behind its current bytes. */
  lemma PassStep(values: Bytes, offsets: seq<nat>, starts: seq<nat>, codes: seq<Bytes>, e: Encoder, i: nat)
    requires Fits(starts, codes, e) && i < |codes|
    requires Holds(values, offsets, starts, Extended(codes, e, i))
    ensures |offsets| == |codes| + 1 && offsets[i + 1] + |e.CodeAt(i)| <= |values|
    ensures Holds(Splice(values, offsets[i + 1], e.CodeAt(i)),
                  offsets[i + 1 := offsets[i + 1] + |e.CodeAt(i)|], starts, Extended(codes, e, i + 1))
  {
    hide Splice;
    ExtendedStep(codes, e, i);
    WriteNext(values, offsets, starts, Extended(codes, e, i), i, e.CodeAt(i));
  }

  lemma PassStart(values: Bytes, offsets: seq<nat>, starts: seq<nat>, codes: seq<Bytes>, e: Encoder)
    requires Fits(starts, codes, e) && Holds(values, offsets, starts, codes)
    ensures |offsets| == |codes| + 1 && e.Valid() && e.Rows() == |codes|
    ensures Holds(values, offsets, starts, Extended(codes, e, 0))
    ensures |Extended(codes, e, |codes|)| == |codes|
  {
    assert Extended(codes, e, 0) == codes;
  }

  /** The starts of rows of one length. */
  lemma {:induction false} EvenStarts(lengths: seq<nat>, rowSize: nat)
    requires forall i :: 0 <= i < |lengths| ==> lengths[i] == rowSize
    ensures Starts(lengths)[|lengths|] == |lengths| * rowSize
  {
    var starts := Starts(lengths);
    for i := 0 to |lengths|
      invariant starts[i] == i * rowSize
    {
      NextMultiple(i, rowSize);
      assert starts[i + 1] == starts[i] + lengths[i];
    }
  }

  lemma NextMultiple(i: nat, rowSize: nat)
    ensures (i + 1) * rowSize == i * rowSize + rowSize
  {
  }

  /** `RowsEncoded`: one byte buffer with `len` valid bytes, and the row offsets. */
  class RowsEncoded {
    var values: array<Byte>
    var len: nat
    var offsets: seq<nat>

    constructor ()
      ensures fresh(values) && len == 0 && offsets == []
    {
      values := new Byte[0];
      len := 0;
      offsets := [];
    }

    ghost predicate Holding(starts: seq<nat>, codes: seq<Bytes>)
      reads this, values
    {
      Holds(values[..], offsets, starts, codes)
    }

    /** `fixed::encode_value` and the null branch of `fixed::encode_iter`, at one row's offset. */
    method EncodeFixedCell(e: Encoder, i: nat)
      requires e.Valid() && e.Fixed? && i < |e.cells| && i + 1 < |offsets|
      requires offsets[i + 1] + |e.CodeAt(i)| <= values.Length
      modifies this`offsets, values
      ensures values == old(values)
      ensures values[..] == Splice(old(values[..]), old(offsets)[i + 1], e.CodeAt(i))
      ensures offsets == old(offsets)[i + 1 := old(offsets)[i + 1] + |e.CodeAt(i)|]
    {
      hide Splice;
      var at := offsets[i + 1];
      match e.cells[i] {
        case None =>
          SpliceAppend(values[..], at, [NullSentinel(e.field)], Zeros(e.leaf.Width()));
          WriteByte(values, at, NullSentinel(e.field));
          FillZero(values, at + 1, at + EncodedSize(e.leaf));
        case Some(v) =>
          var encoded := EncodeValue(e.leaf, v);
          if e.field.descending {
            encoded := Invert(encoded);
          }
          SpliceAppend(values[..], at, [1], encoded);
          WriteByte(values, at, 1);
          Copy(values, at + 1, encoded);
      }
      offsets := offsets[i + 1 := at + EncodedSize(e.leaf)];
    }

    /** `encode_one` or `encode_one_no_order` at one row's offset. */
    method EncodeVariableCell(e: Encoder, i: nat)
      requires e.Variable? && i < |e.strings| && i + 1 < |offsets|
      requires offsets[i + 1] + |e.CodeAt(i)| <= values.Length
      modifies this`offsets, values
      ensures values == old(values)
      ensures values[..] == Splice(old(values[..]), old(offsets)[i + 1], e.CodeAt(i))
      ensures offsets == old(offsets)[i + 1 := old(offsets)[i + 1] + |e.CodeAt(i)|]
    {
      hide Splice;
      var written;
      if e.field.noOrder {
        written := VariableColumns.EncodeOneNoOrder(values, offsets[i + 1], e.strings[i], e.field);
      } else {
        written := VariableColumns.EncodeOne(values, offsets[i + 1], e.strings[i], e.field);
      }
      offsets := offsets[i + 1 := offsets[i + 1] + written];
    }

    /** One row of a pass: the code goes behind the row's bytes and the row's offset moves with it. */
    method EncodeCell(e: Encoder, i: nat, ghost starts: seq<nat>, ghost codes: seq<Bytes>)
      requires Fits(starts, codes, e) && i < |codes| && |offsets| == |codes| + 1
      requires Holding(starts, Extended(codes, e, i))
      modifies this`offsets, values
      ensures values == old(values) && |offsets| == old(|offsets|)
      ensures Holding(starts, Extended(codes, e, i + 1))
    {
      hide Holds, Splice, Extended;
      PassStep(values[..], offsets, starts, codes, e, i);
      if e.Fixed? {
        EncodeFixedCell(e, i);
      } else {
        EncodeVariableCell(e, i);
      }
    }

    /** `fixed::encode_iter` and `fixed::encode_slice`: one pass over a fixed-width column. */
    method EncodeFixed(e: Encoder, ghost starts: seq<nat>, ghost codes: seq<Bytes>)
      requires e.Fixed? && Fits(starts, codes, e) && Holding(starts, codes)
      modifies this`offsets, values
      ensures values == old(values)
      ensures Holding(starts, Extended(codes, e, |codes|))
    {
      PassStart(values[..], offsets, starts, codes, e);
      hide Holds, Fits, Extended;
      var i := 0;
      while i < |e.cells|
        invariant 0 <= i <= |codes| && values == old(values) && |offsets| == |codes| + 1
        invariant Holding(starts, Extended(codes, e, i))
      {
        EncodeCell(e, i, starts, codes);
        i := i + 1;
      }
    }

    /** `variable::encode_iter`: one pass over a variable-length column, then the trailing zero fill. */
    method EncodeVariable(e: Encoder, ghost starts: seq<nat>, ghost codes: seq<Bytes>)
      requires e.Variable? && Fits(starts, codes, e) && Holding(starts, codes)
      modifies this`offsets, values
      ensures values == old(values)
      ensures Holding(starts, Extended(codes, e, |codes|))
    {
      PassStart(values[..], offsets, starts, codes, e);
      hide Holds, Fits, Extended, Splice;
      var i := 0;
      while i < |e.strings|
        invariant 0 <= i <= |codes| && values == old(values) && |offsets| == |codes| + 1
        invariant Holding(starts, Extended(codes, e, i))
      {
        EncodeCell(e, i, starts, codes);
        i := i + 1;
      }
      ClearTail(values[..], offsets, starts, Extended(codes, e, |codes|));
      FillZero(values, offsets[|offsets| - 1], values.Length);
    }

    /** `encode_array`. */
    method EncodeArray(e: Encoder, ghost starts: seq<nat>, ghost codes: seq<Bytes>)
      requires Fits(starts, codes, e) && Holding(starts, codes)
      modifies this`offsets, values
      ensures values == old(values)
      ensures Holding(starts, Extended(codes, e, |codes|))
    {
      if e.Fixed? {
        EncodeFixed(e, starts, codes);
      } else {
        EncodeVariable(e, starts, codes);
      }
    }

    /** The second half of `allocate_rows_buf`: lengths become offsets that lag one row behind. */
    method LagOffsets() returns (total: nat)
      modifies this`offsets
      ensures Lagged(offsets, Starts(old(offsets)))
      ensures total == Starts(old(offsets))[|old(offsets)|]
    {
      ghost var lengths := offsets;
      ghost var starts := Starts(lengths);
      var current, lagged := 0, 0;
      var i := 0;
      while i < |offsets|
        invariant 0 <= i <= |offsets| == |lengths|
        invariant current == starts[i] && lagged == if i == 0 then 0 else starts[i - 1]
        invariant forall j :: i <= j < |lengths| ==> offsets[j] == lengths[j]
        invariant forall j :: 0 <= j < i ==> offsets[j] == if j == 0 then 0 else starts[j - 1]
      {
        var toWrite := lagged;
        lagged := current;
        assert starts[i + 1] == starts[i] + lengths[i];
        current := current + offsets[i];
        offsets := offsets[i := toWrite];
        i := i + 1;
      }
      offsets := offsets + [lagged];
      total := current;
    }

    /** `values.reserve`: afterwards there is room for `total` bytes, with arbitrary contents. */
    method Reserve(total: nat)
      modifies this`values
      ensures values.Length >= total
      ensures values == old(values) || fresh(values)
    {
      if values.Length < total {
        values := new Byte[total];
      }
    }

    /** `allocate_rows_buf`: measures all rows, reserves the buffer, and writes the lagged offsets. */
    method Allocate(encoders: seq<Encoder>) returns (total: nat)
      requires encoders != [] && ValidEncoders(encoders, encoders[0].Rows())
      modifies this
      ensures values == old(values) || fresh(values)
      ensures var starts := Starts(RowLengths(encoders, encoders[0].Rows()));
              Lagged(offsets, starts) && total == starts[|starts| - 1] <= values.Length
    {
      var n := encoders[0].Rows();
      var hasVariable := HasVariable(encoders);
      var fixedSize := FixedSize(encoders);
      if hasVariable {
        offsets := MeasureRows(encoders, n, fixedSize);
        total := LagOffsets();
      } else {
        forall i | 0 <= i < n
          ensures RowLengths(encoders, n)[i] == fixedSize
        {
          RowLength(encoders, n, i);
          NoVariable(encoders, i);
        }
        total := EvenOffsets(n, fixedSize, RowLengths(encoders, n));
      }
      Reserve(total);
    }

    /** The branch of `allocate_rows_buf` for rows of one size. */
    method EvenOffsets(n: nat, rowSize: nat, ghost lengths: seq<nat>) returns (total: nat)
      requires |lengths| == n && forall i :: 0 <= i < n ==> lengths[i] == rowSize
      modifies this`offsets
      ensures Lagged(offsets, Starts(lengths))
      ensures total == Starts(lengths)[n]
    {
      ghost var starts := Starts(lengths);
      offsets := [0];
      var current := 0;
      for i := 0 to n
        invariant |offsets| == i + 1 && offsets[0] == 0
        invariant current == starts[i]
        invariant forall j :: 0 <= j < i ==> offsets[j + 1] == starts[j]
      {
        offsets := offsets + [current];
        current := current + rowSize;
        assert starts[i + 1] == starts[i] + lengths[i];
      }
      EvenStarts(lengths, rowSize);
      total := n * rowSize;
    }

    /** Right after allocation every row is empty and its offset is its start. */
    lemma AllocatedIsEmpty(starts: seq<nat>, n: nat)
      requires |starts| == n + 1 && Lagged(offsets, starts) && starts[n] <= values.Length
      requires forall i, j :: 0 <= i <= j <= n ==> starts[i] <= starts[j]
      ensures Holding(starts, RowsSoFar([], n))
    {
    }

    /** One pass per column over the allocated buffer. */
    method RunPasses(encoders: seq<Encoder>, ghost n: nat)
      requires ValidEncoders(encoders, n)
      requires Holding(Starts(RowLengths(encoders, n)), RowsSoFar([], n))
      modifies this`offsets, values
      ensures values == old(values)
      ensures Holding(Starts(RowLengths(encoders, n)), RowsSoFar(encoders, n))
    {
      hide Holds, Fits, Extended, RowsSoFar, RowSoFar, Starts, RowLengths;
      ghost var starts := Starts(RowLengths(encoders, n));
      assert encoders[..0] == [];
      var k := 0;
      while k < |encoders|
        invariant 0 <= k <= |encoders|
        invariant values == old(values)
        invariant Holding(starts, RowsSoFar(encoders[..k], n))
      {
        NextPassFits(encoders, n, k);
        EncodeArray(encoders[k], starts, RowsSoFar(encoders[..k], n));
        k := k + 1;
      }
      assert encoders[..|encoders|] == encoders;
    }

    /**
     * `convert_columns_amortized` after flattening: allocate, then one pass per column. Afterwards the
     * offsets are the row boundaries and every row holds the codes of its columns, in column order.
     */
    method Encode(encoders: seq<Encoder>)
      requires encoders != [] && ValidEncoders(encoders, encoders[0].Rows())
      modifies this, values
      ensures values == old(values) || fresh(values)
      ensures Finished(RowsSoFar(encoders, encoders[0].Rows()))
    {
      hide ValidEncoders, Starts, RowLengths, RowSoFar, RowsSoFar, Holds, Delimits;
      ghost var n := encoders[0].Rows();
      ghost var starts := Starts(RowLengths(encoders, n));
      LengthsFill(encoders, n);
      len := Allocate(encoders);
      AllocatedIsEmpty(starts, n);
      RunPasses(encoders, n);
      FullRows(values[..], offsets, starts, RowsSoFar(encoders, n));
      assert values[..][..len] == values[..len];
    }

    /** The valid bytes consist of exactly the given rows, and the offsets delimit them. */
    ghost predicate Finished(rows: seq<Bytes>)
      reads this, values
    {
      len <= values.Length && Delimits(values[..len], offsets, rows)
    }
  }

  ghost predicate Delimits(values: Bytes, offsets: seq<nat>, rows: seq<Bytes>) {
    && |offsets| == |rows| + 1
    && offsets[0] == 0
    && offsets[|rows|] == |values|
    && forall i :: 0 <= i < |rows| ==>
      && offsets[i + 1] == offsets[i] + |rows[i]| <= |values|
      && values[offsets[i]..offsets[i] + |rows[i]|] == rows[i]
  }

  /** Once every row is full, the offsets are the boundaries of the rows. */
  lemma FullRows(values: Bytes, offsets: seq<nat>, starts: seq<nat>, codes: seq<Bytes>)
    requires Holds(values, offsets, starts, codes) && starts[0] == 0
    requires forall i :: 0 <= i < |codes| ==> starts[i + 1] == starts[i] + |codes[i]|
    ensures Delimits(values[..starts[|codes|]], offsets, codes)
  {
    var n := |codes|;
    OffsetsAreStarts(values, offsets, starts, codes);
    forall i | 0 <= i < n
      ensures offsets[i + 1] == offsets[i] + |codes[i]| <= starts[n]
      ensures values[..starts[n]][offsets[i]..offsets[i] + |codes[i]|] == codes[i]
    {
      assert starts[i + 1] <= starts[n];
      SliceOfPrefix(values, starts[n], starts[i], starts[i] + |codes[i]|);
    }
  }

  lemma OffsetsAreStarts(values: Bytes, offsets: seq<nat>, starts: seq<nat>, codes: seq<Bytes>)
    requires Holds(values, offsets, starts, codes) && starts[0] == 0
    requires forall i :: 0 <= i < |codes| ==> starts[i + 1] == starts[i] + |codes[i]|
    ensures offsets == starts
  {
    forall i | 0 <= i <= |codes|
      ensures offsets[i] == starts[i]
    {
      if i > 0 {
        var j := i - 1;
        assert offsets[j + 1] == starts[j] + |codes[j]|;
      }
    }
  }

  lemma SliceOfPrefix(values: Bytes, n: nat, lo: nat, hi: nat)
    requires lo <= hi <= n <= |values|
    ensures values[..n][lo..hi] == values[lo..hi]
  {
  }

  lemma LengthsFill(encoders: seq<Encoder>, n: nat)
    requires ValidEncoders(encoders, n)
    ensures var starts, codes := Starts(RowLengths(encoders, n)), RowsSoFar(encoders, n);
            && |starts| == |codes| + 1 && starts[0] == 0
            && forall i :: 0 <= i < |codes| ==> starts[i + 1] == starts[i] + |codes[i]|
  {
  }

  /** Each pass finds room for its codes, and its result is the next prefix of every row. */
  lemma NextPassFits(encoders: seq<Encoder>, n: nat, k: nat)
    requires ValidEncoders(encoders, n) && k < |encoders|
    ensures Fits(Starts(RowLengths(encoders, n)), RowsSoFar(encoders[..k], n), encoders[k])
    ensures Extended(RowsSoFar(encoders[..k], n), encoders[k], n) == RowsSoFar(encoders[..k + 1], n)
  {
    assert encoders[..k + 1][..k] == encoders[..k];
    forall i | 0 <= i < n
      ensures RowSoFar(encoders[..k + 1], n, i) == RowSoFar(encoders[..k], n, i) + encoders[k].CodeAt(i)
      ensures |RowSoFar(encoders[..k + 1], n, i)| <= |RowSoFar(encoders, n, i)|
    {
      PrefixShorter(encoders, n, i, k + 1);
    }
  }

  lemma LastPass(encoders: seq<Encoder>, n: nat, i: nat)
    requires ValidEncoders(encoders, n) && i < n && encoders != []
    ensures |RowSoFar(encoders[..|encoders| - 1], n, i)| <= |RowSoFar(encoders, n, i)|
  {
  }

  lemma {:induction false} PrefixShorter(encoders: seq<Encoder>, n: nat, i: nat, k: nat)
    requires ValidEncoders(encoders, n) && i < n && k <= |encoders|
    ensures |RowSoFar(encoders[..k], n, i)| <= |RowSoFar(encoders, n, i)|
  {
    if k == |encoders| {
      assert encoders[..k] == encoders;
    } else {
      var last := |encoders| - 1;
      assert encoders[..last][..k] == encoders[..k];
      assert ValidEncoders(encoders[..last], n);
      LastPass(encoders, n, i);
      hide RowSoFar, ValidEncoders;
      PrefixShorter(encoders[..last], n, i, k);
    }
  }

  // Measuring.

  /** The length of each finished row. */
  ghost function RowLengths(encoders: seq<Encoder>, n: nat): (r: seq<nat>)
    requires ValidEncoders(encoders, n)
    ensures |r| == n
    ensures forall i :: 0 <= i < n ==> r[i] == |RowSoFar(encoders, n, i)|
  {
    seq(n, i requires 0 <= i < n => |RowSoFar(encoders, n, i)|)
  }

  ghost function FixedSum(encoders: seq<Encoder>): nat
    requires forall k :: 0 <= k < |encoders| ==> encoders[k].Valid()
  {
    if encoders == [] then 0
    else
      var last := |encoders| - 1;
      var e := encoders[last];
      assert e.Valid();
      FixedSum(encoders[..last]) + if e.Fixed? then EncodedSize(e.leaf) else 0
  }

  ghost function VariableSum(encoders: seq<Encoder>, n: nat, i: nat): nat
    requires ValidEncoders(encoders, n) && i < n
  {
    if encoders == [] then 0
    else
      var last := |encoders| - 1;
      var e := encoders[last];
      VariableSum(encoders[..last], n, i) + if e.Variable? then BlockCode.EncodedLen(e.field, e.strings[i]) else 0
  }

  /** What the allocator adds up is what the passes will write. */
  lemma {:induction false} RowLength(encoders: seq<Encoder>, n: nat, i: nat)
    requires ValidEncoders(encoders, n) && i < n
    ensures |RowSoFar(encoders, n, i)| == FixedSum(encoders) + VariableSum(encoders, n, i)
  {
    if encoders != [] {
      RowLength(encoders[..|encoders| - 1], n, i);
    }
  }

  lemma {:induction false} NoVariable(encoders: seq<Encoder>, i: nat)
    requires encoders != [] && ValidEncoders(encoders, encoders[0].Rows()) && i < encoders[0].Rows()
    requires forall k :: 0 <= k < |encoders| ==> encoders[k].Fixed?
    ensures VariableSum(encoders, encoders[0].Rows(), i) == 0
  {
    if |encoders| > 1 {
      NoVariable(encoders[..|encoders| - 1], i);
    }
  }

  method HasVariable(encoders: seq<Encoder>) returns (r: bool)
    ensures r <==> exists k :: 0 <= k < |encoders| && encoders[k].Variable?
  {
    r := false;
    for k := 0 to |encoders|
      invariant r <==> exists j :: 0 <= j < k && encoders[j].Variable?
    {
      if encoders[k].Variable? {
        r := true;
      }
    }
  }

  method FixedSize(encoders: seq<Encoder>) returns (size: nat)
    requires forall k :: 0 <= k < |encoders| ==> encoders[k].Valid()
    ensures size == FixedSum(encoders)
  {
    size := 0;
    for k := 0 to |encoders|
      invariant size == FixedSum(encoders[..k])
    {
      assert encoders[..k + 1][..k] == encoders[..k];
      if encoders[k].Fixed? {
        size := size + EncodedSize(encoders[k].leaf);
      }
    }
    assert encoders[..|encoders|] == encoders;
  }

  /** The first half of `allocate_rows_buf`: the length of every row, one variable column at a time. */
  method MeasureRows(encoders: seq<Encoder>, n: nat, fixedSize: nat) returns (lengths: seq<nat>)
    requires ValidEncoders(encoders, n) && fixedSize == FixedSum(encoders)
    requires exists k :: 0 <= k < |encoders| && encoders[k].Variable?
    ensures lengths == RowLengths(encoders, n)
  {
    lengths := [];
    var processed := 0;
    for k := 0 to |encoders|
      invariant processed == 0 ==> lengths == [] && forall j :: 0 <= j < k ==> encoders[j].Fixed?
      invariant processed == 0 ==> forall i :: 0 <= i < n ==> VariableSum(encoders[..k], n, i) == 0
      invariant processed > 0 ==> |lengths| == n
      invariant processed > 0 ==> forall i :: 0 <= i < n ==> lengths[i] == fixedSize + VariableSum(encoders[..k], n, i)
    {
      ghost var before := encoders[..k];
      assert encoders[..k + 1][..k] == before;
      var e := encoders[k];
      if e.Variable? {
        if processed == 0 {
          lengths := FirstLengths(e, fixedSize);
        } else {
          lengths := AddLengths(e, lengths);
        }
        processed := processed + 1;
      }
    }
    assert encoders[..|encoders|] == encoders;
    forall i | 0 <= i < n
      ensures lengths[i] == RowLengths(encoders, n)[i]
    {
      RowLength(encoders, n, i);
    }
  }

  method FirstLengths(e: Encoder, fixedSize: nat) returns (lengths: seq<nat>)
    requires e.Variable?
    ensures |lengths| == |e.strings|
    ensures forall i :: 0 <= i < |lengths| ==> lengths[i] == fixedSize + BlockCode.EncodedLen(e.field, e.strings[i])
  {
    lengths := [];
    for i := 0 to |e.strings|
      invariant |lengths| == i
      invariant forall j :: 0 <= j < i ==> lengths[j] == fixedSize + BlockCode.EncodedLen(e.field, e.strings[j])
    {
      lengths := lengths + [fixedSize + BlockCode.EncodedLen(e.field, e.strings[i])];
    }
  }

  method AddLengths(e: Encoder, before: seq<nat>) returns (lengths: seq<nat>)
    requires e.Variable? && |before| == |e.strings|
    ensures |lengths| == |before|
    ensures forall i :: 0 <= i < |before| ==> lengths[i] == before[i] + BlockCode.EncodedLen(e.field, e.strings[i])
  {
    lengths := before;
    for i := 0 to |e.strings|
      invariant |lengths| == |before|
      invariant forall j :: 0 <= j < i ==> lengths[j] == before[j] + BlockCode.EncodedLen(e.field, e.strings[j])
      invariant forall j :: i <= j < |before| ==> lengths[j] == before[j]
    {
      lengths := lengths[i := lengths[i] + BlockCode.EncodedLen(e.field, e.strings[i])];
    }
  }
}
