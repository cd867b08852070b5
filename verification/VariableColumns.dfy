/** Encoding and decoding one variable-length cell, block by block. */
module VariableColumns {
  import opened ByteStrings
  import opened EncodingFields
  import opened BlockCode
  import opened Buffers

  /** Full blocks, each closed by the continuation token. */
  function FullBlocks(v: Bytes): (r: Bytes)
    requires |v| % BLOCK_SIZE == 0
    ensures |r| == |v| / BLOCK_SIZE * (BLOCK_SIZE + 1)
  {
    if v == [] then []
    else v[..BLOCK_SIZE] + [CONTINUATION_TOKEN] + FullBlocks(v[BLOCK_SIZE..])
  }

  lemma FullBlocksOne(b: Bytes)
    requires |b| == BLOCK_SIZE
    ensures FullBlocks(b) == b + [CONTINUATION_TOKEN]
  {
    assert b[..BLOCK_SIZE] == b && b[BLOCK_SIZE..] == [];
    assert FullBlocks([]) == [];
  }

  lemma FullBlocksMore(v: Bytes)
    requires |v| % BLOCK_SIZE == 0 && v != []
    ensures FullBlocks(v) == (v[..BLOCK_SIZE] + [CONTINUATION_TOKEN]) + FullBlocks(v[BLOCK_SIZE..])
  {
  }

  lemma BlocksMore(v: Bytes)
    requires |v| > BLOCK_SIZE
    ensures Blocks(v) == (v[..BLOCK_SIZE] + [CONTINUATION_TOKEN]) + Blocks(v[BLOCK_SIZE..])
  {
  }

  lemma SplitConcat(a: Bytes, b: Bytes, k: nat)
    requires k <= |a|
    ensures (a + b)[..k] == a[..k] && (a + b)[k..] == a[k..] + b
  {
  }

  lemma {:induction false} FullBlocksAppend(a: Bytes, b: Bytes)
    requires |a| % BLOCK_SIZE == 0 && |b| == BLOCK_SIZE
    ensures FullBlocks(a + b) == FullBlocks(a) + (b + [CONTINUATION_TOKEN])
  {
    if a == [] {
      assert a + b == b;
      FullBlocksOne(b);
    } else {
      hide FullBlocks;
      FullBlocksAppend(a[BLOCK_SIZE..], b);
      FullBlocksMore(a);
      FullBlocksMore(a + b);
      SplitConcat(a, b, BLOCK_SIZE);
      ConcatAssoc(a[..BLOCK_SIZE] + [CONTINUATION_TOKEN], FullBlocks(a[BLOCK_SIZE..]), b + [CONTINUATION_TOKEN]);
    }
  }

  /** With a remainder, the last block follows the full ones. */
  lemma {:induction false} BlocksWithRemainder(v: Bytes, full: nat)
    requires full % BLOCK_SIZE == 0 && full < |v| < full + BLOCK_SIZE
    ensures Blocks(v) == FullBlocks(v[..full]) + LastBlock(v[full..])
  {
    if full == 0 {
      assert v[0..] == v;
    } else {
      FullBlocksMore(v[..full]);
      BlocksMore(v);
      hide Blocks, FullBlocks, LastBlock;
      var head, tail := v[..BLOCK_SIZE], v[BLOCK_SIZE..];
      BlocksWithRemainder(tail, full - BLOCK_SIZE);
      assert v[..full][..BLOCK_SIZE] == head;
      assert tail[..full - BLOCK_SIZE] == v[..full][BLOCK_SIZE..];
      assert tail[full - BLOCK_SIZE..] == v[full..];
      ConcatAssoc(head + [CONTINUATION_TOKEN], FullBlocks(v[..full][BLOCK_SIZE..]), LastBlock(v[full..]));
    }
  }

  /** Without a remainder, the last continuation token is replaced by the block size. */
  lemma {:induction false} BlocksExact(v: Bytes)
    requires v != [] && |v| % BLOCK_SIZE == 0
    ensures Blocks(v) == Splice(FullBlocks(v), |FullBlocks(v)| - 1, [BLOCK_SIZE])
  {
    if |v| == BLOCK_SIZE {
      assert v[..BLOCK_SIZE] == v;
      assert FullBlocks(v) == v + [CONTINUATION_TOKEN];
    } else {
      FullBlocksMore(v);
      BlocksMore(v);
      var tail := v[BLOCK_SIZE..];
      BlocksExact(tail);
      hide Blocks, FullBlocks;
      SpliceAfter(v[..BLOCK_SIZE] + [CONTINUATION_TOKEN], FullBlocks(tail), |FullBlocks(tail)| - 1, [BLOCK_SIZE]);
    }
  }

  /** `encode_one`: writes one cell at `offset` and returns the bytes written. */
  method EncodeOne(buf: array<Byte>, offset: nat, cell: Cell, field: EncodingField) returns (written: nat)
    requires offset + |Code(field, cell)| <= buf.Length
    modifies buf
    ensures written == |Code(field, cell)|
    ensures buf[..] == Splice(old(buf[..]), offset, Code(field, cell))
  {
    match cell
    case None =>
      WriteByte(buf, offset, NullSentinel(field));
      written := 1;
    case Some(v) =>
      if v == [] {
        WriteByte(buf, offset, if field.descending then 255 - EMPTY_SENTINEL else EMPTY_SENTINEL);
        written := 1;
        assert Code(field, cell) == [if field.descending then 255 - EMPTY_SENTINEL else EMPTY_SENTINEL];
      } else {
        EncodeBlocks(buf, offset, v);
        written := 1 + Ceil(|v|, BLOCK_SIZE) * (BLOCK_SIZE + 1);
        if field.descending {
          SpliceOver(old(buf[..]), offset, [NON_EMPTY_SENTINEL] + Blocks(v), Invert([NON_EMPTY_SENTINEL] + Blocks(v)));
          InvertRange(buf, offset, offset + written);
        }
      }
  }

  /** A full block, marked as followed by another one. */
  method WriteFullBlock(buf: array<Byte>, at: nat, src: Bytes)
    requires |src| == BLOCK_SIZE && at + BLOCK_SIZE + 1 <= buf.Length
    modifies buf
    ensures buf[..] == Splice(old(buf[..]), at, src + [CONTINUATION_TOKEN])
  {
    hide Splice;
    SpliceAppend(buf[..], at, src, [CONTINUATION_TOKEN]);
    Copy(buf, at, src);
    WriteByte(buf, at + BLOCK_SIZE, CONTINUATION_TOKEN);
  }

  /** The non-empty part of `encode_one`, before inversion. */
  method EncodeBlocks(buf: array<Byte>, offset: nat, v: Bytes)
    requires v != [] && offset + 1 + |Blocks(v)| <= buf.Length
    modifies buf
    ensures buf[..] == Splice(old(buf[..]), offset, [NON_EMPTY_SENTINEL] + Blocks(v))
  {
    hide Splice, Blocks;
    ghost var base := buf[..];
    ghost var head: Bytes := [NON_EMPTY_SENTINEL];
    WriteByte(buf, offset, NON_EMPTY_SENTINEL);
    var chunks := |v| / BLOCK_SIZE;
    var chunk := 0;
    while chunk < chunks
      invariant 0 <= chunk <= chunks
      invariant |head| == 1 + chunk * (BLOCK_SIZE + 1)
      invariant head == [NON_EMPTY_SENTINEL] + FullBlocks(v[..chunk * BLOCK_SIZE])
      invariant buf[..] == Splice(base, offset, head)
    {
      var src := v[chunk * BLOCK_SIZE..(chunk + 1) * BLOCK_SIZE];
      var at := offset + 1 + chunk * (BLOCK_SIZE + 1);
      WriteFullBlock(buf, at, src);
      SpliceAppend(base, offset, head, src + [CONTINUATION_TOKEN]);
      FullBlocksAppend(v[..chunk * BLOCK_SIZE], src);
      assert v[..(chunk + 1) * BLOCK_SIZE] == v[..chunk * BLOCK_SIZE] + src;
      head := head + (src + [CONTINUATION_TOKEN]);
      chunk := chunk + 1;
    }
    FinishBlocks(buf, offset, v, chunks * BLOCK_SIZE, base);
  }

  lemma ExactHead(v: Bytes)
    requires v != [] && |v| % BLOCK_SIZE == 0
    ensures Splice([NON_EMPTY_SENTINEL] + FullBlocks(v), |FullBlocks(v)|, [BLOCK_SIZE])
         == [NON_EMPTY_SENTINEL] + Blocks(v)
  {
    hide Blocks, FullBlocks, Splice;
    BlocksExact(v);
    SpliceAfter([NON_EMPTY_SENTINEL], FullBlocks(v), |FullBlocks(v)| - 1, [BLOCK_SIZE]);
  }

  lemma FinishExact(base: Bytes, offset: nat, v: Bytes)
    requires v != [] && |v| % BLOCK_SIZE == 0 && offset + 1 + |Blocks(v)| <= |base|
    ensures Splice(Splice(base, offset, [NON_EMPTY_SENTINEL] + FullBlocks(v)), offset + |Blocks(v)|, [BLOCK_SIZE])
         == Splice(base, offset, [NON_EMPTY_SENTINEL] + Blocks(v))
  {
    hide Splice, Blocks, FullBlocks;
    ExactHead(v);
    SpliceInside(base, offset, [NON_EMPTY_SENTINEL] + FullBlocks(v), |FullBlocks(v)|, [BLOCK_SIZE]);
  }

  lemma FinishRemainder(base: Bytes, offset: nat, v: Bytes, full: nat)
    requires full % BLOCK_SIZE == 0 && full < |v| < full + BLOCK_SIZE && offset + 1 + |Blocks(v)| <= |base|
    ensures |Blocks(v)| == full / BLOCK_SIZE * (BLOCK_SIZE + 1) + BLOCK_SIZE + 1
    ensures Splice(Splice(base, offset, [NON_EMPTY_SENTINEL] + FullBlocks(v[..full])),
                   offset + |Blocks(v)| - BLOCK_SIZE, LastBlock(v[full..]))
         == Splice(base, offset, [NON_EMPTY_SENTINEL] + Blocks(v))
  {
    hide Splice, Blocks, FullBlocks, LastBlock;
    var head := [NON_EMPTY_SENTINEL] + FullBlocks(v[..full]);
    BlocksWithRemainder(v, full);
    SpliceAppend(base, offset, head, LastBlock(v[full..]));
    ConcatAssoc([NON_EMPTY_SENTINEL], FullBlocks(v[..full]), LastBlock(v[full..]));
  }

  /** The tail of the block loop: fix the last token, or write the padded remainder. */
  method FinishBlocks(buf: array<Byte>, offset: nat, v: Bytes, full: nat, ghost base: Bytes)
    requires v != [] && offset + 1 + |Blocks(v)| <= buf.Length == |base|
    requires full % BLOCK_SIZE == 0 && full <= |v| < full + BLOCK_SIZE
    requires buf[..] == Splice(base, offset, [NON_EMPTY_SENTINEL] + FullBlocks(v[..full]))
    modifies buf
    ensures buf[..] == Splice(base, offset, [NON_EMPTY_SENTINEL] + Blocks(v))
  {
    hide Splice;
    var end := offset + Ceil(|v|, BLOCK_SIZE) * (BLOCK_SIZE + 1);
    if full == |v| {
      assert v[..full] == v;
      FinishExact(base, offset, v);
      WriteByte(buf, end, BLOCK_SIZE);
    } else {
      FinishRemainder(base, offset, v, full);
      WriteLastBlock(buf, end - BLOCK_SIZE, v[full..]);
    }
  }

  /** The remainder bytes, zero padding and their count. */
  method WriteLastBlock(buf: array<Byte>, start: nat, src: Bytes)
    requires 0 < |src| < BLOCK_SIZE && start + BLOCK_SIZE + 1 <= buf.Length
    modifies buf
    ensures buf[..] == Splice(old(buf[..]), start, LastBlock(src))
  {
    hide Splice;
    ghost var base := buf[..];
    SpliceAppend(base, start, src, Zeros(BLOCK_SIZE - |src|));
    SpliceAppend(base, start, src + Zeros(BLOCK_SIZE - |src|), [|src|]);
    Copy(buf, start, src);
    FillZero(buf, start + |src|, start + BLOCK_SIZE);
    WriteByte(buf, start + BLOCK_SIZE, |src|);
  }

  /** `encode_one_no_order`. */
  method EncodeOneNoOrder(buf: array<Byte>, offset: nat, cell: Cell, field: EncodingField) returns (written: nat)
    requires offset + |CodeNoOrder(field, cell)| <= buf.Length
    modifies buf
    ensures written == |CodeNoOrder(field, cell)|
    ensures buf[..] == Splice(old(buf[..]), offset, CodeNoOrder(field, cell))
  {
    match cell
    case None =>
      WriteByte(buf, offset, NullSentinel(field));
      written := 1;
    case Some(v) =>
      if v == [] {
        WriteByte(buf, offset, if field.descending then 255 - EMPTY_SENTINEL else EMPTY_SENTINEL);
        assert CodeNoOrder(field, cell) == [if field.descending then 255 - EMPTY_SENTINEL else EMPTY_SENTINEL];
        written := 1;
      } else {
        SpliceAppend(buf[..], offset, [NON_EMPTY_SENTINEL], v);
        WriteByte(buf, offset, NON_EMPTY_SENTINEL);
        Copy(buf, offset + 1, v);
        written := 1 + |v|;
      }
  }

  // Decoding.

  /** The bytes of the first block's data. */
  function FirstData(v: Bytes): (n: nat)
    ensures n <= |v| && n <= BLOCK_SIZE
  {
    if |v| < BLOCK_SIZE then |v| else BLOCK_SIZE
  }

  lemma BlocksSplit(v: Bytes)
    requires v != []
    ensures |Blocks(v)| > BLOCK_SIZE
    ensures Blocks(v)[..FirstData(v)] == v[..FirstData(v)]
    ensures Blocks(v)[BLOCK_SIZE + 1..] == Blocks(v[FirstData(v)..])
  {
    if |v| <= BLOCK_SIZE {
      assert v[|v|..] == [] && Blocks([]) == [];
    }
  }

  lemma SliceInvert(flag: bool, a: Bytes, rest: Bytes, lo: nat, hi: nat)
    requires lo <= hi <= |a|
    ensures (InvertIf(flag, a) + rest)[lo..hi] == InvertIf(flag, a[lo..hi])
    ensures (InvertIf(flag, a) + rest)[lo..] == InvertIf(flag, a[lo..]) + rest
  {
    assert InvertIf(flag, a)[lo..hi] == InvertIf(flag, a[lo..hi]);
    assert InvertIf(flag, a)[lo..] == InvertIf(flag, a[lo..]);
  }

  /** What a row reads at a block boundary: the data, the token, and the row after the block. */
  lemma ReadBlock(descending: bool, v: Bytes, rest: Bytes)
    requires v != []
    ensures var t := InvertIf(descending, Blocks(v)) + rest;
            && |t| > BLOCK_SIZE
            && t[BLOCK_SIZE] == InvertIf(descending, [if |v| <= BLOCK_SIZE then |v| else CONTINUATION_TOKEN])[0]
            && t[..FirstData(v)] == InvertIf(descending, v[..FirstData(v)])
            && t[BLOCK_SIZE + 1..] == InvertIf(descending, Blocks(v[FirstData(v)..])) + rest
  {
    TokenPosition(v);
    BlocksSplit(v);
    hide Blocks;
    SliceInvert(descending, Blocks(v), rest, 0, FirstData(v));
    SliceInvert(descending, Blocks(v), rest, BLOCK_SIZE + 1, |Blocks(v)|);
    var t := InvertIf(descending, Blocks(v)) + rest;
    assert t[0..FirstData(v)] == t[..FirstData(v)] && Blocks(v)[0..FirstData(v)] == Blocks(v)[..FirstData(v)];
  }

  /** From `offset` on, the row holds the blocks of `left` and then `rest`. */
  ghost predicate Continues(row: Bytes, offset: nat, descending: bool, left: Bytes, rest: Bytes) {
    offset <= |row| && row[offset..] == InvertIf(descending, Blocks(left)) + rest
  }

  lemma AfterSentinel(field: EncodingField, cell: Cell, rest: Bytes)
    ensures var v := match cell case None => [] case Some(v) => v;
            Continues(Code(field, cell) + rest, 1, field.descending, v, rest)
  {
    assert Blocks([]) == [];
  }

  /** Reading one block leaves the row at the next one. */
  lemma NextBlock(row: Bytes, offset: nat, descending: bool, v: Bytes, rest: Bytes)
    requires v != [] && Continues(row, offset, descending, v, rest)
    ensures offset + BLOCK_SIZE < |row|
    ensures var token := if |v| <= BLOCK_SIZE then |v| else CONTINUATION_TOKEN;
            row[offset + BLOCK_SIZE] == if descending then 255 - token else token
    ensures row[offset..offset + FirstData(v)] == InvertIf(descending, v[..FirstData(v)])
    ensures Continues(row, offset + BLOCK_SIZE + 1, descending, v[FirstData(v)..], rest)
  {
    hide Blocks;
    ReadBlock(descending, v, rest);
    assert row[offset..][..FirstData(v)] == row[offset..offset + FirstData(v)];
    assert row[offset..][BLOCK_SIZE + 1..] == row[offset + BLOCK_SIZE + 1..];
  }

  lemma BlocksDone(row: Bytes, offset: nat, descending: bool, rest: Bytes)
    requires Continues(row, offset, descending, [], rest)
    ensures offset <= |row| && row[offset..] == rest
  {
    assert Blocks([]) == [];
  }

  /** `decoded_len` on a row that starts with the code of `cell`. */
  method DecodedLen(row: Bytes, field: EncodingField, ghost cell: Cell, ghost rest: Bytes) returns (len: nat)
    requires row == Code(field, cell) + rest
    ensures len == match cell case None => 0 case Some(v) => |v|
  {
    hide Continues, Code;
    var nonEmpty := if field.descending then 255 - NON_EMPTY_SENTINEL else NON_EMPTY_SENTINEL;
    var continuation := if field.descending then 255 - CONTINUATION_TOKEN else CONTINUATION_TOKEN;
    FirstByte(field, cell);
    if row[0] != nonEmpty {
      return 0;
    }
    AfterSentinel(field, cell, rest);
    ghost var left := cell.value;
    len := 0;
    var idx: nat := 1;
    NextBlock(row, idx, field.descending, left, rest);
    while row[idx + BLOCK_SIZE] == continuation
      invariant left != [] && len + |left| == |cell.value|
      invariant Continues(row, idx, field.descending, left, rest)
      invariant idx + BLOCK_SIZE < |row|
      decreases |left|
    {
      NextBlock(row, idx, field.descending, left, rest);
      idx := idx + BLOCK_SIZE + 1;
      len := len + BLOCK_SIZE;
      left := left[BLOCK_SIZE..];
      NextBlock(row, idx, field.descending, left, rest);
    }
    NextBlock(row, idx, field.descending, left, rest);
    var sentinel := row[idx + BLOCK_SIZE];
    var blockLength := if field.descending then 255 - sentinel else sentinel;
    len := len + blockLength;
  }

  /** Reads `len` bytes of blocks, dropping tokens and padding; returns where the row continues. */
  method ReadBlocks(row: Bytes, len: nat, descending: bool, ghost v: Bytes, ghost rest: Bytes)
    returns (scratch: Bytes, offset: nat)
    requires len == |v| && Continues(row, 1, descending, v, rest)
    ensures scratch == InvertIf(descending, v)
    ensures offset <= |row| && row[offset..] == rest
  {
    hide Continues, InvertIf;
    var toRead := len;
    offset := 1;
    scratch := [];
    ghost var done := 0;
    NothingInverted(descending);
    assert v[..0] == [] && v[0..] == v;
    while toRead >= BLOCK_SIZE
      invariant done <= |v| && toRead == |v| - done
      invariant scratch == InvertIf(descending, v[..done])
      invariant Continues(row, offset, descending, v[done..], rest)
    {
      NextBlock(row, offset, descending, v[done..], rest);
      InvertMore(descending, v, done, BLOCK_SIZE);
      toRead := toRead - BLOCK_SIZE;
      scratch := scratch + row[offset..offset + BLOCK_SIZE];
      offset := offset + BLOCK_SIZE + 1;
      done := done + BLOCK_SIZE;
    }
    if toRead != 0 {
      NextBlock(row, offset, descending, v[done..], rest);
      InvertMore(descending, v, done, toRead);
      scratch := scratch + row[offset..offset + toRead];
      offset := offset + BLOCK_SIZE + 1;
    }
    assert v[..|v|] == v && v[|v|..] == [];
    BlocksDone(row, offset, descending, rest);
  }

  lemma NothingInverted(flag: bool)
    ensures InvertIf(flag, []) == []
  {
  }

  lemma InvertMore(flag: bool, v: Bytes, done: nat, n: nat)
    requires done + n <= |v|
    ensures InvertIf(flag, v[..done + n]) == InvertIf(flag, v[..done]) + InvertIf(flag, v[done..][..n])
    ensures v[done..][n..] == v[done + n..]
  {
    assert v[..done + n] == v[..done] + v[done..][..n];
    InvertConcat(v[..done], v[done..][..n]);
  }

  /**
   * The decode loop for one row: the value's bytes, and the position at which the row continues.
   * Null and empty cells read no bytes.
   */
  method DecodeOne(row: Bytes, field: EncodingField, ghost cell: Cell, ghost rest: Bytes)
    returns (value: Bytes, offset: nat)
    requires row == Code(field, cell) + rest
    ensures value == match cell case None => [] case Some(v) => v
    ensures offset == |Code(field, cell)| && row[offset..] == rest
  {
    var len := DecodedLen(row, field, cell, rest);
    ghost var v := match cell case None => [] case Some(v) => v;
    AfterSentinel(field, cell, rest);
    var scratch;
    scratch, offset := ReadBlocks(row, len, field.descending, v, rest);
    InvertTwice(v);
    value := if field.descending then Invert(scratch) else scratch;
  }
}
