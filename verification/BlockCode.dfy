/** Values that may be absent. */
module Options {
  datatype Option<+T> = None | Some(value: T)
}

/** Per-column options of the row encoding. */
module EncodingFields {
  import opened Orderings
  import opened ByteStrings

  datatype EncodingField = EncodingField(descending: bool, nullsLast: bool, noOrder: bool)

  /** `EncodingField::new_unsorted()`. */
  const UNSORTED := EncodingField(false, false, true)

  /** `get_null_sentinel`. */
  function NullSentinel(field: EncodingField): Byte {
    if field.nullsLast then 0xFF else 0
  }

  /** How a null and a valid value compare: decided by `nulls_last` alone. */
  function CompareNulls(field: EncodingField, aNull: bool, bNull: bool): Ordering {
    if aNull == bNull then Equal
    else if aNull == field.nullsLast then Greater
    else Less
  }
}

/** The padded block code for variable-length bytes. */
module BlockCode {
  import opened Orderings
  import opened ByteStrings
  import opened Options
  import opened EncodingFields

  const BLOCK_SIZE: nat := 32
  const CONTINUATION_TOKEN: Byte := 0xFF
  const EMPTY_SENTINEL: Byte := 1
  const NON_EMPTY_SENTINEL: Byte := 2

  type Cell = Option<Bytes>

  /** `ceil`. */
  function Ceil(value: nat, divisor: nat): nat
    requires divisor > 0
  {
    value / divisor + if value % divisor != 0 then 1 else 0
  }

  /** `encoded_len`: the bytes a cell occupies, known before it is encoded. */
  function EncodedLen(field: EncodingField, cell: Cell): (n: nat) {
    match cell
    case None => 1
    case Some(v) => if field.noOrder then 1 + |v| else 1 + Ceil(|v|, BLOCK_SIZE) * (BLOCK_SIZE + 1)
  }

  /** One final block: data, zero padding, data length. */
  function LastBlock(v: Bytes): (r: Bytes)
    requires 0 < |v| <= BLOCK_SIZE
    ensures |r| == BLOCK_SIZE + 1
  {
    v + Zeros(BLOCK_SIZE - |v|) + [|v|]
  }

  /** All blocks of a value: full blocks end in the continuation token, the last one in its length. */
  function Blocks(v: Bytes): (r: Bytes)
    ensures |r| == Ceil(|v|, BLOCK_SIZE) * (BLOCK_SIZE + 1)
  {
    if v == [] then []
    else if |v| <= BLOCK_SIZE then LastBlock(v)
    else v[..BLOCK_SIZE] + [CONTINUATION_TOKEN] + Blocks(v[BLOCK_SIZE..])
  }

  /** The order-preserving code of an optional byte string. */
  function Code(field: EncodingField, cell: Cell): (r: Bytes) {
    match cell
    case None => [NullSentinel(field)]
    case Some(v) =>
      if v == [] then InvertIf(field.descending, [EMPTY_SENTINEL])
      else InvertIf(field.descending, [NON_EMPTY_SENTINEL] + Blocks(v))
  }

  /** The code used when order does not matter; the non-empty sentinel is never inverted. */
  function CodeNoOrder(field: EncodingField, cell: Cell): (r: Bytes) {
    match cell
    case None => [NullSentinel(field)]
    case Some(v) =>
      if v == [] then InvertIf(field.descending, [EMPTY_SENTINEL])
      else [NON_EMPTY_SENTINEL] + v
  }

  /** The code the encoder picks for a field. */
  function CellCode(field: EncodingField, cell: Cell): (r: Bytes)
    ensures |r| == EncodedLen(field, cell)
  {
    if field.noOrder then CodeNoOrder(field, cell) else Code(field, cell)
  }

  function CompareCells(field: EncodingField, a: Cell, b: Cell): Ordering {
    if a.Some? && b.Some? then CompareBytes(a.value, b.value).ReverseIf(field.descending)
    else CompareNulls(field, a.None?, b.None?)
  }

  // Order.

  function Pad(v: Bytes, n: nat): (r: Bytes)
    requires |v| <= n
    ensures |r| == n
  {
    v + Zeros(n - |v|)
  }

  lemma {:induction false} ZerosLeast(x: Bytes)
    ensures CompareBytes(Zeros(|x|), x) != Greater
  {
    if x != [] {
      assert Zeros(|x|)[1..] == Zeros(|x[1..]|);
      ZerosLeast(x[1..]);
    }
  }

  lemma {:induction false} CompareAntisymmetric(a: Bytes, b: Bytes)
    ensures CompareBytes(b, a) == CompareBytes(a, b).Reverse()
  {
    if a != [] && b != [] {
      CompareAntisymmetric(a[1..], b[1..]);
    }
  }

  /** Zero padding loses nothing that the length does not restore. */
  lemma {:induction false} PadOrder(u: Bytes, v: Bytes, n: nat)
    requires |u| <= n && |v| <= n
    ensures CompareBytes(Pad(u, n), Pad(v, n)).Then(CompareInt(|u|, |v|)) == CompareBytes(u, v)
    decreases |u|
  {
    if u == [] {
      assert Pad(u, n) == Zeros(n);
      ZerosLeast(Pad(v, n));
      if v == [] {
        CompareReflexive(Zeros(n));
      }
    } else if v == [] {
      assert Pad(v, n) == Zeros(n);
      ZerosLeast(Pad(u, n));
      CompareAntisymmetric(Zeros(n), Pad(u, n));
    } else {
      assert Pad(u, n)[1..] == Pad(u[1..], n - 1) && Pad(v, n)[1..] == Pad(v[1..], n - 1);
      PadOrder(u[1..], v[1..], n - 1);
    }
  }

  /** Extending the longer of two strings changes the outcome only where they were equal. */
  lemma {:induction false} CompareExtended(u: Bytes, v: Bytes, t: Bytes)
    requires |u| <= |v| && t != []
    ensures CompareBytes(u, v + t) == if u == v then Less else CompareBytes(u, v)
  {
    if u != [] {
      assert (v + t)[1..] == v[1..] + t;
      assert u == [u[0]] + u[1..] && v == [v[0]] + v[1..];
      CompareExtended(u[1..], v[1..], t);
    }
  }

  lemma BlocksShort(v: Bytes)
    requires 0 < |v| <= BLOCK_SIZE
    ensures Blocks(v) == Pad(v, BLOCK_SIZE) + [|v|]
  {
  }

  lemma BlocksLong(v: Bytes)
    requires |v| > BLOCK_SIZE
    ensures Blocks(v) == v[..BLOCK_SIZE] + ([CONTINUATION_TOKEN] + Blocks(v[BLOCK_SIZE..]))
  {
  }

  lemma BlocksOrderShort(u: Bytes, v: Bytes)
    requires 0 < |u| <= BLOCK_SIZE && 0 < |v| <= BLOCK_SIZE
    ensures CompareBytes(Blocks(u), Blocks(v)) == CompareBytes(u, v)
  {
    BlocksShort(u);
    BlocksShort(v);
    CompareConcat(Pad(u, BLOCK_SIZE), Pad(v, BLOCK_SIZE), [|u|], [|v|]);
    CompareCons(|u|, [], |v|, []);
    PadOrder(u, v, BLOCK_SIZE);
  }

  lemma BlocksOrderMixed(u: Bytes, v: Bytes)
    requires 0 < |u| <= BLOCK_SIZE < |v|
    ensures CompareBytes(Blocks(u), Blocks(v)) == CompareBytes(u, v)
  {
    var head, tail := v[..BLOCK_SIZE], v[BLOCK_SIZE..];
    BlocksShort(u);
    BlocksLong(v);
    CompareConcat(Pad(u, BLOCK_SIZE), head, [|u|], [CONTINUATION_TOKEN] + Blocks(tail));
    CompareCons(|u|, [], CONTINUATION_TOKEN, Blocks(tail));
    assert Pad(head, BLOCK_SIZE) == head;
    PadOrder(u, head, BLOCK_SIZE);
    CompareEqual(u, head);
    CompareExtended(u, head, tail);
    assert v == head + tail;
  }

  lemma BlocksOrderLong(u: Bytes, v: Bytes)
    requires |u| > BLOCK_SIZE && |v| > BLOCK_SIZE
    requires CompareBytes(Blocks(u[BLOCK_SIZE..]), Blocks(v[BLOCK_SIZE..])) == CompareBytes(u[BLOCK_SIZE..], v[BLOCK_SIZE..])
    ensures CompareBytes(Blocks(u), Blocks(v)) == CompareBytes(u, v)
  {
    var token := [CONTINUATION_TOKEN];
    var uh, ut, vh, vt := u[..BLOCK_SIZE], u[BLOCK_SIZE..], v[..BLOCK_SIZE], v[BLOCK_SIZE..];
    BlocksLong(u);
    BlocksLong(v);
    CompareConcat(uh, vh, token + Blocks(ut), token + Blocks(vt));
    CompareConcat(token, token, Blocks(ut), Blocks(vt));
    CompareReflexive(token);
    CompareConcat(uh, vh, ut, vt);
    assert u == uh + ut && v == vh + vt;
  }

  /** The block code sorts non-empty strings as plain byte comparison does. */
  lemma {:induction false} BlocksOrder(u: Bytes, v: Bytes)
    requires u != [] && v != []
    ensures CompareBytes(Blocks(u), Blocks(v)) == CompareBytes(u, v)
  {
    if |u| <= BLOCK_SIZE && |v| <= BLOCK_SIZE {
      BlocksOrderShort(u, v);
    } else if |u| <= BLOCK_SIZE {
      BlocksOrderMixed(u, v);
    } else if |v| <= BLOCK_SIZE {
      BlocksOrderMixed(v, u);
      CompareAntisymmetric(v, u);
      CompareAntisymmetric(Blocks(v), Blocks(u));
    } else {
      BlocksOrder(u[BLOCK_SIZE..], v[BLOCK_SIZE..]);
      BlocksOrderLong(u, v);
    }
  }

  // Self-delimitation.

  lemma TokenPosition(v: Bytes)
    requires v != []
    ensures |Blocks(v)| >= BLOCK_SIZE + 1
    ensures Blocks(v)[BLOCK_SIZE] == if |v| <= BLOCK_SIZE then |v| else CONTINUATION_TOKEN
  {
  }

  /** No value's blocks are a proper prefix of another's. */
  lemma {:induction false} BlocksPrefixFree(u: Bytes, v: Bytes)
    requires u != [] && v != []
    ensures PrefixFree(Blocks(u), Blocks(v))
  {
    TokenPosition(u);
    TokenPosition(v);
    if |u| > BLOCK_SIZE && |v| > BLOCK_SIZE {
      BlocksPrefixFree(u[BLOCK_SIZE..], v[BLOCK_SIZE..]);
      PrefixFreeConcat(u[..BLOCK_SIZE] + [CONTINUATION_TOKEN], v[..BLOCK_SIZE] + [CONTINUATION_TOKEN],
                       Blocks(u[BLOCK_SIZE..]), Blocks(v[BLOCK_SIZE..]));
    }
  }

  lemma CodePrefixFree(field: EncodingField, a: Cell, b: Cell)
    ensures PrefixFree(Code(field, a), Code(field, b))
  {
    if a.Some? && b.Some? && a.value != [] && b.value != [] {
      var s := [NON_EMPTY_SENTINEL];
      BlocksPrefixFree(a.value, b.value);
      PrefixFreeConcat(s, s, Blocks(a.value), Blocks(b.value));
      PrefixFreeInvert(s + Blocks(a.value), s + Blocks(b.value));
    } else {
      FirstByte(field, a);
      FirstByte(field, b);
    }
  }

  /** The first byte alone tells null, empty and non-empty apart. */
  lemma FirstByte(field: EncodingField, a: Cell)
    ensures Code(field, a) != []
    ensures Code(field, a)[0] ==
            match a
            case None => NullSentinel(field)
            case Some(v) =>
              var s := if v == [] then EMPTY_SENTINEL else NON_EMPTY_SENTINEL;
              if field.descending then 255 - s else s
    ensures a.None? || a.value == [] ==> |Code(field, a)| == 1
  {
  }

  lemma CodeOrderByFirst(a: Bytes, b: Bytes)
    requires a != [] && b != [] && a[0] != b[0]
    ensures CompareBytes(a, b) == CompareInt(a[0], b[0])
  {
  }

  lemma CodeOrderNonEmpty(field: EncodingField, u: Bytes, v: Bytes)
    requires u != [] && v != []
    ensures CompareBytes(Code(field, Some(u)), Code(field, Some(v))) == CompareCells(field, Some(u), Some(v))
  {
    var s := [NON_EMPTY_SENTINEL];
    var x, y := s + Blocks(u), s + Blocks(v);
    CompareCons(NON_EMPTY_SENTINEL, Blocks(u), NON_EMPTY_SENTINEL, Blocks(v));
    BlocksOrder(u, v);
    BlocksPrefixFree(u, v);
    PrefixFreeConcat(s, s, Blocks(u), Blocks(v));
    CompareInvert(x, y);
  }

  /** Byte order of codes is the order of cells: nulls by `nulls_last`, values by `descending`. */
  lemma CodeOrder(field: EncodingField, a: Cell, b: Cell)
    ensures CompareBytes(Code(field, a), Code(field, b)) == CompareCells(field, a, b)
  {
    if a.Some? && b.Some? && a.value != [] && b.value != [] {
      CodeOrderNonEmpty(field, a.value, b.value);
    } else {
      FirstByte(field, a);
      FirstByte(field, b);
      if Code(field, a)[0] != Code(field, b)[0] {
        CodeOrderByFirst(Code(field, a), Code(field, b));
      } else {
        assert a == b;
        CompareReflexive(Code(field, a));
      }
    }
  }
}
