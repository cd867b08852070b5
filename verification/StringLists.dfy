/** Adjacent lists of strings: for which options of the two columns their bytes can be confused. */
module StringLists {
  import opened ByteStrings
  import opened Options
  import opened EncodingFields
  import opened BlockCode
  import RowCode
  import ListCode
  import Records
  import opened UnorderedKeys
  import AdjacentLists

  function Strings(f: EncodingField): seq<RowCode.Slot> {
    [RowCode.Slot(RowCode.Binary, f)]
  }

  /** The codes of consecutive strings. */
  function Codes(f: EncodingField, texts: seq<Cell>): Bytes {
    if texts == [] then [] else Codes(f, texts[..|texts| - 1]) + Code(f, texts[|texts| - 1])
  }

  lemma {:induction false} CodesConcat(f: EncodingField, xs: seq<Cell>, ys: seq<Cell>)
    ensures Codes(f, xs + ys) == Codes(f, xs) + Codes(f, ys)
  {
    if ys == [] {
      assert xs + ys == xs;
    } else {
      var k := |ys| - 1;
      assert (xs + ys)[..|xs + ys| - 1] == xs + ys[..k];
      CodesConcat(f, xs, ys[..k]);
      ConcatAssoc(Codes(f, xs), Codes(f, ys[..k]), Code(f, ys[k]));
    }
  }

  // The end of a code tells it apart, if nulls do not look like padding.

  /** A byte as an ascending or descending column writes it. */
  function Directed(f: EncodingField, x: Byte): Byte {
    if f.descending then 255 - x else x
  }

  /** Strings of one block or more, as opposed to nulls and empty strings. */
  predicate Long(c: Cell) {
    c.Some? && c.value != []
  }

  /** The length written at the end of the last block. */
  function LastLength(v: Bytes): (n: nat)
    requires v != []
    ensures 1 <= n <= BLOCK_SIZE
  {
    if |v| <= BLOCK_SIZE then |v| else LastLength(v[BLOCK_SIZE..])
  }

  /** How the blocks of a long string go on after the first. */
  lemma BlocksRest(v: Bytes)
    requires |v| > BLOCK_SIZE
    ensures var rest := Blocks(v[BLOCK_SIZE..]);
            && |Blocks(v)| == BLOCK_SIZE + 1 + |rest| && Blocks(v)[BLOCK_SIZE] == CONTINUATION_TOKEN
            && forall i :: 0 <= i < |rest| ==> Blocks(v)[BLOCK_SIZE + 1 + i] == rest[i]
  {
    hide Ceil;
    BlocksLong(v);
    hide Blocks;
  }

  lemma BlocksLast(v: Bytes)
    requires 0 < |v| <= BLOCK_SIZE
    ensures |Blocks(v)| == BLOCK_SIZE + 1 && Blocks(v)[BLOCK_SIZE] == |v|
    ensures |v| < BLOCK_SIZE ==> Blocks(v)[BLOCK_SIZE - 1] == 0
  {
    hide Ceil;
    BlocksShort(v);
    hide Blocks;
  }

  lemma {:induction false} BlocksEnd(v: Bytes)
    requires v != []
    ensures |Blocks(v)| > BLOCK_SIZE && Blocks(v)[|Blocks(v)| - 1] == LastLength(v)
    ensures LastLength(v) < BLOCK_SIZE ==> Blocks(v)[|Blocks(v)| - 2] == 0
  {
    hide Ceil, Blocks;
    if |v| <= BLOCK_SIZE {
      BlocksLast(v);
    } else {
      BlocksRest(v);
      BlocksEnd(v[BLOCK_SIZE..]);
    }
  }

  /** All blocks but the last end in the continuation token. */
  lemma {:induction false} BlocksToken(v: Bytes, j: nat)
    requires v != [] && j > 0 && (BLOCK_SIZE + 1) * j < |Blocks(v)|
    ensures Blocks(v)[(BLOCK_SIZE + 1) * j - 1] == CONTINUATION_TOKEN
  {
    hide Ceil, Blocks;
    if |v| <= BLOCK_SIZE {
      BlocksLast(v);
    } else {
      BlocksRest(v);
      if j > 1 {
        BlocksToken(v[BLOCK_SIZE..], j - 1);
      }
    }
  }

  function LastByte(f: EncodingField, c: Cell): Byte {
    match c
    case None => NullSentinel(f)
    case Some(v) => Directed(f, if v == [] then EMPTY_SENTINEL else LastLength(v))
  }

  lemma LongCode(f: EncodingField, v: Bytes)
    requires v != []
    ensures var code := Code(f, Some(v));
            && |code| == |Blocks(v)| + 1 && code[0] == Directed(f, NON_EMPTY_SENTINEL)
            && forall k :: 0 < k < |code| ==> code[k] == Directed(f, Blocks(v)[k - 1])
  {
  }

  lemma CodeEnd(f: EncodingField, c: Cell)
    ensures var code := Code(f, c);
            && code != [] && code[|code| - 1] == LastByte(f, c)
            && (!Long(c) ==> code == [LastByte(f, c)])
            && (Long(c) ==> |code| > BLOCK_SIZE + 1)
            && (Long(c) && LastLength(c.value) < BLOCK_SIZE ==> code[|code| - 2] == Directed(f, 0))
  {
    if Long(c) {
      LongCode(f, c.value);
      BlocksEnd(c.value);
    }
  }

  /** A null cannot be taken for a byte of padding. */
  predicate NullIsNotPadding(f: EncodingField) {
    f.nullsLast != f.descending
  }

  /** Nothing at the end that could be padding. */
  predicate Clean(f: EncodingField, p: Bytes) {
    p != [] ==> p[|p| - 1] != Directed(f, 0)
  }

  lemma LastByteClean(f: EncodingField, c: Cell)
    requires NullIsNotPadding(f)
    ensures LastByte(f, c) != Directed(f, 0)
  {
  }

  lemma CodesClean(f: EncodingField, p: Bytes, texts: seq<Cell>)
    requires NullIsNotPadding(f) && Clean(f, p)
    ensures Clean(f, p + Codes(f, texts))
  {
    if texts == [] {
      assert p + Codes(f, texts) == p;
    } else {
      hide Codes, LastByte, Directed;
      CodesEnd(f, p, texts);
      LastByteClean(f, texts[|texts| - 1]);
    }
  }

  lemma CodesSnoc(f: EncodingField, p: Bytes, texts: seq<Cell>)
    requires texts != []
    ensures var k := |texts| - 1; p + Codes(f, texts) == (p + Codes(f, texts[..k])) + Code(f, texts[k])
  {
    ConcatAssoc(p, Codes(f, texts[..|texts| - 1]), Code(f, texts[|texts| - 1]));
  }

  lemma CodesEnd(f: EncodingField, p: Bytes, texts: seq<Cell>)
    requires texts != []
    ensures var w := p + Codes(f, texts); w != [] && w[|w| - 1] == LastByte(f, texts[|texts| - 1])
  {
    hide Codes, Code, LastByte;
    CodesSnoc(f, p, texts);
    CodeEnd(f, texts[|texts| - 1]);
  }

  lemma TokenAt(f: EncodingField, v: Bytes, j: nat)
    requires v != [] && j > 0 && (BLOCK_SIZE + 1) * j < |Blocks(v)|
    ensures |Code(f, Some(v))| == |Blocks(v)| + 1
    ensures Code(f, Some(v))[(BLOCK_SIZE + 1) * j] == Directed(f, CONTINUATION_TOKEN)
  {
    hide Ceil, Blocks;
    LongCode(f, v);
    BlocksToken(v, j);
    hide Code, Directed;
  }

  lemma TokenIsNoSentinel(f: EncodingField)
    ensures Directed(f, CONTINUATION_TOKEN) != Directed(f, NON_EMPTY_SENTINEL)
  {
  }

  lemma LongSize(f: EncodingField, v: Bytes)
    requires v != []
    ensures |Code(f, Some(v))| == |Blocks(v)| + 1 && Code(f, Some(v))[0] == Directed(f, NON_EMPTY_SENTINEL)
    ensures |Blocks(v)| > 0
  {
    LongCode(f, v);
    BlocksEnd(v);
  }

  lemma AtSplit(p: Bytes, x: Bytes, q: Bytes, y: Bytes)
    requires p + x == q + y && |q| <= |p| && x != []
    ensures |p| - |q| < |y| && y[|p| - |q|] == x[0]
  {
    assert (p + x)[|p|] == x[0] && (q + y)[|p|] == y[|p| - |q|];
  }

  /** Codes of different lengths that end together: the longer one has a token where the shorter starts. */
  lemma StartIsNoToken(f: EncodingField, p: Bytes, u: Bytes, q: Bytes, v: Bytes)
    requires u != [] && v != [] && p + Code(f, Some(u)) == q + Code(f, Some(v))
    ensures |Blocks(u)| >= |Blocks(v)|
  {
    hide Code, Blocks, Directed, Ceil;
    LongSize(f, u);
    LongSize(f, v);
    var more := Ceil(|v|, BLOCK_SIZE) - Ceil(|u|, BLOCK_SIZE);
    if more > 0 {
      assert |p| - |q| == (BLOCK_SIZE + 1) * more;
      AtSplit(p, Code(f, Some(u)), q, Code(f, Some(v)));
      TokenAt(f, v, more);
      TokenIsNoSentinel(f);
    }
  }

  lemma SameCell(f: EncodingField, x: Cell, y: Cell)
    requires Code(f, x) == Code(f, y)
    ensures x == y
  {
    CodeOrder(f, x, y);
    CompareEqual(Code(f, x), Code(f, y));
    if x.Some? && y.Some? {
      CompareEqual(x.value, y.value);
    }
  }

  lemma SecondLast(p: Bytes, code: Bytes, q: Bytes, x: Byte)
    requires p + code == q + [x] && |code| >= 2
    ensures q != [] && q[|q| - 1] == code[|code| - 2]
  {
    var w := p + code;
    assert w[|w| - 2] == code[|code| - 2] && (q + [x])[|w| - 2] == q[|q| - 1];
  }

  lemma LengthIsNoNull(f: EncodingField, x: Cell, y: Cell)
    requires NullIsNotPadding(f) && Long(x) && !Long(y) && LastByte(f, x) == LastByte(f, y)
    ensures LastLength(x.value) == 1
  {
  }

  /** A long code does not end like a single byte after a clean start. */
  lemma LongIsNotShort(f: EncodingField, p: Bytes, x: Cell, q: Bytes, y: Cell)
    requires NullIsNotPadding(f) && Clean(f, q) && p + Code(f, x) == q + Code(f, y) && Long(x)
    ensures Long(y)
  {
    hide Code, LastByte, NullIsNotPadding, Directed;
    CodeEnd(f, x);
    CodeEnd(f, y);
    if !Long(y) {
      assert (p + Code(f, x))[|p + Code(f, x)| - 1] == LastByte(f, x);
      LengthIsNoNull(f, x, y);
      SecondLast(p, Code(f, x), q, LastByte(f, y));
    }
  }

  lemma PeelOne(f: EncodingField, p: Bytes, x: Cell, q: Bytes, y: Cell)
    requires NullIsNotPadding(f) && Clean(f, p) && Clean(f, q) && p + Code(f, x) == q + Code(f, y)
    ensures p == q && x == y
  {
    var a, b := Code(f, x), Code(f, y);
    if Long(x) || Long(y) {
      if Long(x) {
        LongIsNotShort(f, p, x, q, y);
      } else {
        LongIsNotShort(f, q, y, p, x);
      }
      StartIsNoToken(f, p, x.value, q, y.value);
      StartIsNoToken(f, q, y.value, p, x.value);
      LongCode(f, x.value);
      LongCode(f, y.value);
    } else {
      CodeEnd(f, x);
      CodeEnd(f, y);
    }
    assert |a| == |b| && |p| == |q|;
    SplitSameLength(p, a, q, b);
    SameCell(f, x, y);
  }

  /** Strings are read from the end in one way only. */
  lemma {:induction false} Peel(f: EncodingField, p: Bytes, xs: seq<Cell>, q: Bytes, ys: seq<Cell>)
    requires NullIsNotPadding(f) && Clean(f, p) && Clean(f, q)
    requires p + Codes(f, xs) == q + Codes(f, ys) && |xs| <= |ys|
    ensures p == q + Codes(f, ys[..|ys| - |xs|])
    decreases |xs|
  {
    if xs == [] {
      hide Clean, Code;
      assert p + Codes(f, xs) == p && ys[..|ys|] == ys;
    } else {
      hide Clean, Codes, Code;
      var k, l := |xs| - 1, |ys| - 1;
      CodesSnoc(f, p, xs);
      CodesSnoc(f, q, ys);
      CodesClean(f, p, xs[..k]);
      CodesClean(f, q, ys[..l]);
      PeelOne(f, p + Codes(f, xs[..k]), xs[k], q + Codes(f, ys[..l]), ys[l]);
      Peel(f, p, xs[..k], q, ys[..l]);
      assert ys[..l][..l - k] == ys[..|ys| - |xs|];
    }
  }

  // Options under which the second list is never read as part of the first.

  lemma {:induction false} CodesStart(f: EncodingField, texts: seq<Cell>)
    requires texts != []
    ensures Codes(f, texts) != [] && Codes(f, texts)[0] == Code(f, texts[0])[0]
    ensures |Codes(f, texts)| >= |Code(f, texts[0])|
  {
    var k := |texts| - 1;
    CodeEnd(f, texts[k]);
    if k > 0 {
      CodesStart(f, texts[..k]);
    } else {
      assert Codes(f, texts) == [] + Code(f, texts[0]);
    }
  }

  /** An ascending string starts with the sentinel of a list only if it is long. */
  lemma StartsLong(f: EncodingField, texts: seq<Cell>)
    requires texts != [] && !f.descending && Codes(f, texts) != [] && Codes(f, texts)[0] == NON_EMPTY_SENTINEL
    ensures Long(texts[0]) && |Codes(f, texts)| > BLOCK_SIZE + 1
  {
    CodesStart(f, texts);
    CodeEnd(f, texts[0]);
  }

  /** Both lists ascending, nulls last: the sentinel of the second list would have to be a length. */
  lemma NoSentinelInside(f: EncodingField, texts: seq<Cell>, d: seq<Cell>)
    requires !f.descending && f.nullsLast && texts != []
    ensures TWO + Codes(f, texts) != Codes(f, d) + TWO
  {
    hide Codes, Code;
    var k := |texts| - 1;
    CodesEnd(f, TWO, texts);
    CodesSnoc(f, TWO, texts);
    CodeEnd(f, texts[k]);
    CodesClean(f, [], d);
    assert [] + Codes(f, d) == Codes(f, d);
    if TWO + Codes(f, texts) == Codes(f, d) + TWO {
      SecondLast(TWO + Codes(f, texts[..k]), Code(f, texts[k]), Codes(f, d), NON_EMPTY_SENTINEL);
    }
  }

  /** The code of a list of strings. */
  function ListCodes(g: EncodingField, list: Option<seq<Cell>>): Bytes {
    match list
    case None => [0]
    case Some(texts) => if texts == [] then [EMPTY_SENTINEL] else TWO + Codes(g, texts)
  }

  /** Both lists ascending, nulls last. */
  lemma ApartAscending(f: EncodingField, texts: seq<Cell>, d: seq<Cell>, list: Option<seq<Cell>>)
    requires !f.descending && f.nullsLast && texts != [] && d != [] && Long(d[0])
    ensures TWO + Codes(f, texts) != Codes(f, d) + ListCodes(f, list)
  {
    CodesClean(f, TWO, texts);
    CodesStart(f, d);
    CodeEnd(f, d[0]);
    var w := TWO + Codes(f, texts);
    match list {
      case None =>
      case Some(more) =>
        if w == Codes(f, d) + ListCodes(f, list) {
          if more == [] {
            AscendingEmpty(f, texts, d);
          } else {
            AscendingList(f, texts, d, more);
          }
        }
    }
  }

  lemma AscendingEmpty(f: EncodingField, texts: seq<Cell>, d: seq<Cell>)
    requires !f.descending && f.nullsLast && d != []
    ensures TWO + Codes(f, texts) != Codes(f, d) + [EMPTY_SENTINEL]
  {
    var ys := d + [Some([])];
    if TWO + Codes(f, texts) == Codes(f, d) + [EMPTY_SENTINEL] {
      assert ys[..|d|] == d;
      assert [] + Codes(f, ys) == Codes(f, d) + [EMPTY_SENTINEL];
      if |texts| <= |ys| {
        Peel(f, TWO, texts, [], ys);
        var rest := ys[..|ys| - |texts|];
        assert TWO == Codes(f, rest);
        StartsLong(f, rest);
      } else {
        Peel(f, [], ys, TWO, texts);
      }
    }
  }

  lemma AscendingList(f: EncodingField, texts: seq<Cell>, d: seq<Cell>, more: seq<Cell>)
    requires !f.descending && f.nullsLast && |Codes(f, d)| > 0
    ensures TWO + Codes(f, texts) != Codes(f, d) + (TWO + Codes(f, more))
  {
    var q := Codes(f, d) + TWO;
    ConcatAssoc(Codes(f, d), TWO, Codes(f, more));
    if TWO + Codes(f, texts) == q + Codes(f, more) {
      if |texts| <= |more| {
        Peel(f, TWO, texts, q, more);
      } else {
        Peel(f, q, more, TWO, texts);
        NoSentinelInside(f, texts[..|texts| - |more|], d);
      }
    }
  }

  /** First list ascending, second descending with nulls first. */
  lemma ApartDescending(f: EncodingField, g: EncodingField, texts: seq<Cell>, d: seq<Cell>, list: Option<seq<Cell>>)
    requires !f.descending && g.descending && !g.nullsLast && texts != [] && d != [] && Long(d[0])
    ensures TWO + Codes(g, texts) != Codes(f, d) + ListCodes(g, list)
  {
    CodesEnd(g, TWO, texts);
    match list {
      case None =>
        DescendingNull(f, g, texts, d);
      case Some(more) =>
        if more != [] {
          DescendingList(f, g, texts, d, more);
        }
    }
  }

  lemma DescendingList(f: EncodingField, g: EncodingField, texts: seq<Cell>, d: seq<Cell>, more: seq<Cell>)
    requires !f.descending && g.descending && !g.nullsLast && |Codes(f, d)| > 0
    ensures TWO + Codes(g, texts) != Codes(f, d) + (TWO + Codes(g, more))
  {
    var q := Codes(f, d) + TWO;
    ConcatAssoc(Codes(f, d), TWO, Codes(g, more));
    if TWO + Codes(g, texts) == q + Codes(g, more) {
      if |texts| <= |more| {
        Peel(g, TWO, texts, q, more);
      } else {
        Peel(g, q, more, TWO, texts);
        var rest := texts[..|texts| - |more|];
        CodesEnd(g, TWO, rest);
      }
    }
  }

  lemma DescendingNull(f: EncodingField, g: EncodingField, texts: seq<Cell>, d: seq<Cell>)
    requires !f.descending && g.descending && !g.nullsLast && texts != [] && d != [] && Long(d[0])
    ensures TWO + Codes(g, texts) != Codes(f, d) + [0]
  {
    hide Codes, Code;
    var k := |texts| - 1;
    CodesSnoc(g, TWO, texts);
    CodesEnd(g, TWO, texts);
    CodeEnd(g, texts[k]);
    if TWO + Codes(g, texts) == Codes(f, d) + [0] {
      assert texts[k].None?;
      SplitSameLength(TWO + Codes(g, texts[..k]), Code(g, texts[k]), Codes(f, d), [0]);
      assert [] + Codes(f, d) == Codes(f, d);
      OnlyNulls(f, g, texts[..k], d);
    }
  }

  lemma NullsAgree(f: EncodingField, x: Cell, g: EncodingField, y: Cell)
    requires !f.descending && g.descending && !g.nullsLast && LastByte(f, x) == LastByte(g, y)
    ensures x.None? && y.None?
  {
  }

  lemma NullsPeel(f: EncodingField, g: EncodingField, texts: seq<Cell>, d: seq<Cell>)
    requires !f.descending && g.descending && !g.nullsLast && d != [] && texts != []
    requires TWO + Codes(g, texts) == [] + Codes(f, d)
    ensures d[|d| - 1].None? && TWO + Codes(g, texts[..|texts| - 1]) == [] + Codes(f, d[..|d| - 1])
  {
    hide Codes, Code, LastByte, Directed;
    var k, l := |texts| - 1, |d| - 1;
    CodesEnd(g, TWO, texts);
    CodesEnd(f, [], d);
    NullsAgree(f, d[l], g, texts[k]);
    CodesSnoc(g, TWO, texts);
    CodesSnoc(f, [], d);
    CodeEnd(g, texts[k]);
    CodeEnd(f, d[l]);
    SplitSameLength(TWO + Codes(g, texts[..k]), Code(g, texts[k]), [] + Codes(f, d[..l]), Code(f, d[l]));
  }

  /** Read from the end, an ascending and a descending column of strings agree on nulls only. */
  lemma {:induction false} OnlyNulls(f: EncodingField, g: EncodingField, texts: seq<Cell>, d: seq<Cell>)
    requires !f.descending && g.descending && !g.nullsLast && d != [] && Long(d[0])
    ensures TWO + Codes(g, texts) != [] + Codes(f, d)
    decreases |d|
  {
    if texts == [] {
      CodesStart(f, d);
      CodeEnd(f, d[0]);
    } else {
      hide Codes, Code, Directed;
      if TWO + Codes(g, texts) == [] + Codes(f, d) {
        NullsPeel(f, g, texts, d);
        OnlyNulls(f, g, texts[..|texts| - 1], d[..|d| - 1]);
      }
    }
  }

  // Options under which it is.

  function Repeat(c: Cell, n: nat): (r: seq<Cell>)
    ensures |r| == n
  {
    if n == 0 then [] else Repeat(c, n - 1) + [c]
  }

  function Copies(x: Byte, n: nat): (r: Bytes)
    ensures |r| == n
    ensures forall i :: 0 <= i < n ==> r[i] == x
  {
    seq(n, _ => x)
  }

  lemma CodesAdd(f: EncodingField, texts: seq<Cell>, c: Cell)
    ensures Codes(f, texts + [c]) == Codes(f, texts) + Code(f, c)
  {
    assert (texts + [c])[..|texts|] == texts;
  }

  lemma CopiesAdd(x: Byte, n: nat)
    ensures Copies(x, n + 1) == Copies(x, n) + [x]
  {
  }

  /** Nulls and empty strings take one byte each. */
  lemma {:induction false} RepeatCodes(f: EncodingField, c: Cell, n: nat)
    requires !Long(c)
    ensures Codes(f, Repeat(c, n)) == Copies(LastByte(f, c), n)
  {
    if n == 0 {
      hide Code, LastByte;
    } else {
      hide Codes, Code, LastByte, Copies;
      RepeatCodes(f, c, n - 1);
      CodeEnd(f, c);
      CodesAdd(f, Repeat(c, n - 1), c);
      CopiesAdd(LastByte(f, c), n - 1);
    }
  }

  /** A string of one byte, and a string of one full block. */
  lemma ShortCode(f: EncodingField, v: Bytes)
    requires |v| == 1 || |v| == BLOCK_SIZE
    ensures Codes(f, [Some(v)]) == InvertIf(f.descending, TWO + v + Zeros(BLOCK_SIZE - |v|) + [|v|])
  {
    BlocksShort(v);
    assert [Some(v)][..0] == [];
  }

  /** Single bytes followed by a string. */
  lemma RepeatThen(f: EncodingField, c: Cell, n: nat, texts: seq<Cell>)
    requires !Long(c)
    ensures Codes(f, Repeat(c, n) + texts) == Copies(LastByte(f, c), n) + Codes(f, texts)
  {
    hide Codes, LastByte;
    RepeatCodes(f, c, n);
    CodesConcat(f, Repeat(c, n), texts);
  }

  /** A string followed by single bytes. */
  lemma ThenRepeat(f: EncodingField, texts: seq<Cell>, c: Cell, n: nat)
    requires !Long(c)
    ensures Codes(f, texts + Repeat(c, n)) == Codes(f, texts) + Copies(LastByte(f, c), n)
  {
    hide Codes, LastByte;
    RepeatCodes(f, c, n);
    CodesConcat(f, texts, Repeat(c, n));
  }

  /** Second list ascending, nulls first: zero padding reads as nulls. */
  lemma PaddingIsNulls(f: EncodingField, g: EncodingField) returns (d: seq<Cell>, b: seq<Cell>, b': seq<Cell>)
    requires !f.descending && !g.descending && !g.nullsLast
    ensures d != [] && ListCodes(g, Some(b)) == Codes(f, d) + ListCodes(g, Some(b'))
  {
    hide Codes;
    d, b, b' := [Some([0])], Repeat(None, BLOCK_SIZE) + Repeat(Some([]), 2), [];
    ShortCode(f, [0]);
    RepeatThen(g, None, BLOCK_SIZE, Repeat(Some([]), 2));
    RepeatCodes(g, Some([]), 2);
    assert Copies(1, 2) == [1] + [1];
    Padded(Zeros(BLOCK_SIZE - 1));
    assert Copies(0, BLOCK_SIZE) == [0] + Zeros(BLOCK_SIZE - 1);
  }

  lemma Padded(zeros: Bytes)
    ensures TWO + (([0] + zeros) + ([1] + [1])) == (TWO + [0] + zeros + [1]) + [1]
  {
  }

  /** First list ascending, nulls first, second ascending: nulls read as zero padding. */
  lemma NullsArePadding(f: EncodingField, g: EncodingField) returns (d: seq<Cell>, b: seq<Cell>, b': seq<Cell>)
    requires !f.descending && !f.nullsLast && !g.descending
    ensures d != [] && ListCodes(g, Some(b)) == Codes(f, d) + ListCodes(g, Some(b'))
  {
    hide Codes;
    var n := BLOCK_SIZE - 1;
    var ones, zeros := Copies(1, n), Zeros(n);
    d, b, b' := [Some(ones + TWO)] + Repeat(None, n), Repeat(Some([]), n) + [Some([BLOCK_SIZE])], [];
    ThenRepeat(f, [Some(ones + TWO)], None, n);
    ShortCode(f, ones + TWO);
    RepeatThen(g, Some([]), n, [Some([BLOCK_SIZE])]);
    ShortCode(g, [BLOCK_SIZE]);
    assert Copies(0, n) == zeros && Zeros(0) == [];
    Unpadded(ones, zeros);
  }

  lemma Unpadded(ones: Bytes, zeros: Bytes)
    ensures TWO + (ones + (TWO + [BLOCK_SIZE] + zeros + [1])) == ((TWO + (ones + TWO) + [] + [BLOCK_SIZE]) + zeros) + [1]
  {
  }

  /**
   * Second list descending, nulls last: the first string ends inside a string of the second list, and
   * that list's nulls read as its padding.
   */
  lemma Straddle(f: EncodingField, g: EncodingField) returns (d: seq<Cell>, b: seq<Cell>, b': seq<Cell>)
    requires !f.descending && g.descending && g.nullsLast
    ensures d != [] && ListCodes(g, Some(b)) == Codes(f, d) + ListCodes(g, Some(b'))
  {
    hide Codes;
    var n, m := BLOCK_SIZE - 1, BLOCK_SIZE - 3;
    d := [Some(Copies(254, n) + [253])];
    ShortCode(f, Copies(254, n) + [253]);
    var x, y, z := [223, 253, 2] + Copies(1, m), Copies(1, m) + [32, 1, 2], [32];
    b := Repeat(Some([]), n) + ([Some(x)] + ([Some([])] + [Some(z)]));
    b' := [Some(y)] + (Repeat(None, n) + Repeat(Some([]), 1));
    StraddleSecond(g, x, z);
    StraddleFirst(g, y);
    StraddleBytes(Copies(254, n), Copies(254, m), Copies(255, n));
    assert Invert(TWO + x + [] + [32]) == [253] + ([32, 2, 253] + Copies(254, m)) + [223];
    assert Invert(TWO + y + [] + [32]) == [253] + (Copies(254, m) + [223, 254, 253]) + [223];
    assert Invert(TWO + z + Zeros(n) + [1]) == [253, 223] + Copies(255, n) + [254];
  }

  lemma StraddleSecond(g: EncodingField, x: Bytes, z: Bytes)
    requires g.descending && |x| == BLOCK_SIZE && |z| == 1
    ensures Codes(g, Repeat(Some([]), BLOCK_SIZE - 1) + ([Some(x)] + ([Some([])] + [Some(z)])))
         == Copies(254, BLOCK_SIZE - 1)
            + (Invert(TWO + x + [] + [BLOCK_SIZE]) + ([254] + Invert(TWO + z + Zeros(BLOCK_SIZE - 1) + [1])))
  {
    RepeatCodes(g, Some([]), 1);
    assert Repeat(Some([]), 1) == [Some([])] && Copies(254, 1) == [254];
    hide Codes;
    RepeatThen(g, Some([]), BLOCK_SIZE - 1, [Some(x)] + ([Some([])] + [Some(z)]));
    CodesConcat(g, [Some(x)], [Some([])] + [Some(z)]);
    CodesConcat(g, [Some([])], [Some(z)]);
    ShortCode(g, x);
    ShortCode(g, z);
    assert Zeros(0) == [];
  }

  lemma StraddleFirst(g: EncodingField, y: Bytes)
    requires g.descending && g.nullsLast && |y| == BLOCK_SIZE
    ensures Codes(g, [Some(y)] + (Repeat(None, BLOCK_SIZE - 1) + Repeat(Some([]), 1)))
         == Invert(TWO + y + [] + [BLOCK_SIZE]) + (Copies(255, BLOCK_SIZE - 1) + [254])
  {
    hide Codes;
    RepeatCodes(g, Some([]), 1);
    assert Copies(254, 1) == [254];
    RepeatThen(g, None, BLOCK_SIZE - 1, Repeat(Some([]), 1));
    CodesConcat(g, [Some(y)], Repeat(None, BLOCK_SIZE - 1) + Repeat(Some([]), 1));
    ShortCode(g, y);
    assert Zeros(0) == [];
  }

  lemma StraddleBytes(e: Bytes, m: Bytes, p: Bytes)
    ensures TWO + (e + (([253] + ([32, 2, 253] + m) + [223]) + ([254] + ([253, 223] + p + [254]))))
         == (TWO + (e + [253]) + [] + [32]) + (TWO + (([253] + (m + [223, 254, 253]) + [223]) + (p + [254])))
  {
  }

  // Lists of strings as list columns.

  ghost function Texts(f: EncodingField, rows: seq<seq<RowCode.Cell>>): (texts: seq<Cell>)
    requires ListCode.RowsHaveType(Strings(f), rows)
    ensures |texts| == |rows|
  {
    seq(|rows|, j requires 0 <= j < |rows| => Text(f, rows[j]))
  }

  ghost function Text(f: EncodingField, row: seq<RowCode.Cell>): Cell
    requires RowCode.RowHasType(Strings(f), row)
  {
    assert RowCode.CellHasType(Strings(f)[0].leaf, row[0]);
    RowCode.BytesCell(row[0])
  }

  function TextRow(c: Cell): (row: seq<RowCode.Cell>) {
    match c
    case None => [None]
    case Some(v) => [Some(RowCode.BytesValue(v))]
  }

  ghost function TextRows(f: EncodingField, texts: seq<Cell>): (rows: seq<seq<RowCode.Cell>>)
    ensures |rows| == |texts|
    ensures ListCode.RowsHaveType(Strings(f), rows) && Texts(f, rows) == texts
  {
    var rows := seq(|texts|, j requires 0 <= j < |texts| => TextRow(texts[j]));
    assert forall j :: 0 <= j < |texts| ==> RowCode.RowHasType(Strings(f), rows[j]) && Text(f, rows[j]) == texts[j];
    rows
  }

  lemma TextBytes(f: EncodingField, row: seq<RowCode.Cell>)
    requires RowCode.RowHasType(Strings(f), row) && !f.noOrder
    ensures RowCode.RowBytes(Strings(f), row) == Code(f, Text(f, row))
  {
    assert Strings(f)[1..] == [] && row[1..] == [];
    assert RowCode.RowBytes(Strings(f), row) == Code(f, Text(f, row)) + [];
  }

  lemma RowsSnoc(slots: seq<RowCode.Slot>, rows: seq<seq<RowCode.Cell>>)
    requires ListCode.RowsHaveType(slots, rows) && rows != []
    ensures var k := |rows| - 1;
            ListCode.RowsBytes(slots, rows) == ListCode.RowsBytes(slots, rows[..k]) + RowCode.RowBytes(slots, rows[k])
  {
    hide ListCode.RowsBytes, RowCode.RowBytes, RowCode.RowHasType;
    var k := |rows| - 1;
    assert rows == rows[..k] + [rows[k]];
    RowsBytesOne(slots, rows[k]);
    ListCode.RowsBytesConcat(slots, rows[..k], [rows[k]]);
  }

  lemma TextsSnoc(f: EncodingField, rows: seq<seq<RowCode.Cell>>)
    requires ListCode.RowsHaveType(Strings(f), rows) && rows != []
    ensures var k := |rows| - 1; Texts(f, rows) == Texts(f, rows[..k]) + [Text(f, rows[k])]
  {
    hide Text, RowCode.RowHasType;
  }

  lemma {:induction false} RowsAreCodes(f: EncodingField, rows: seq<seq<RowCode.Cell>>)
    requires ListCode.RowsHaveType(Strings(f), rows) && !f.noOrder
    ensures ListCode.RowsBytes(Strings(f), rows) == Codes(f, Texts(f, rows))
  {
    if rows != [] {
      hide ListCode.RowsBytes, Codes, Texts, Text, RowCode.RowBytes, RowCode.RowHasType;
      var k := |rows| - 1;
      RowsAreCodes(f, rows[..k]);
      TextBytes(f, rows[k]);
      RowsSnoc(Strings(f), rows);
      TextsSnoc(f, rows);
      CodesAdd(f, Texts(f, rows[..k]), Text(f, rows[k]));
    }
  }

  ghost function TextList(f: EncodingField, list: ListCode.OptionalList): Option<seq<Cell>>
    requires ListCode.ListHasType(Strings(f), list)
  {
    match list
    case None => None
    case Some(rows) => Some(Texts(f, rows))
  }

  lemma ListIsCodes(f: EncodingField, list: ListCode.OptionalList)
    requires ListCode.ListHasType(Strings(f), list) && !f.noOrder
    ensures ListCode.ListBytes(Strings(f), list) == ListCodes(f, TextList(f, list))
  {
    if list.Some? {
      RowsAreCodes(f, list.value);
      if list.value != [] {
        CodesStart(f, Texts(f, list.value));
      }
    }
  }

  /** The options of two adjacent string lists under which they cannot be confused. */
  predicate Apart(f: EncodingField, g: EncodingField) {
    || f.descending
    || (f.nullsLast && g.nullsLast && !g.descending)
    || (!g.nullsLast && g.descending)
  }

  lemma ConfusedOverlap(f: EncodingField, g: EncodingField)
    requires !f.noOrder && !g.noOrder && !Apart(f, g)
    ensures AdjacentLists.Overlap(Strings(f), Strings(g))
  {
    var d, b, b';
    if g.descending {
      d, b, b' := Straddle(f, g);
    } else if g.nullsLast {
      d, b, b' := NullsArePadding(f, g);
    } else {
      d, b, b' := PaddingIsNulls(f, g);
    }
    hide Codes, ListCode.ListBytes, ListCode.RowsBytes, ListCodes;
    var xs, ys, zs := TextRows(f, d), TextRows(g, b), TextRows(g, b');
    RowsAreCodes(f, xs);
    ListIsCodes(g, Some(ys));
    ListIsCodes(g, Some(zs));
    AdjacentLists.IsOverlap(Strings(f), Strings(g), xs, Some(ys), Some(zs));
  }

  lemma ApartNoOverlap(f: EncodingField, g: EncodingField, d: seq<seq<RowCode.Cell>>,
                       b: ListCode.OptionalList, b': ListCode.OptionalList)
    requires !f.noOrder && !g.noOrder && !f.descending && Apart(f, g)
    ensures !AdjacentLists.Overlaps(Strings(f), Strings(g), d, b, b')
  {
    if AdjacentLists.Overlaps(Strings(f), Strings(g), d, b, b') {
      AdjacentLists.StartsWithTwo(Strings(f), Strings(g), d, b, b');
      RowsAreCodes(f, d);
      RowsAreCodes(g, b.value);
      ListIsCodes(g, b');
      var xs, ys, zs := Texts(f, d), Texts(g, b.value), TextList(g, b');
      hide ListCode.ListBytes, ListCode.RowsBytes, ListCodes, Texts;
      StartsLong(f, xs);
      assert ys != [];
      if g.descending {
        ApartDescending(f, g, ys, xs, zs);
      } else {
        ApartAscending(f, ys, xs, zs);
      }
    }
  }

  lemma StringsOverlap(f: EncodingField, g: EncodingField)
    requires !f.noOrder && !g.noOrder
    ensures AdjacentLists.Overlap(Strings(f), Strings(g)) <==> !Apart(f, g)
  {
    if !Apart(f, g) {
      ConfusedOverlap(f, g);
    } else if f.descending {
      AdjacentLists.NoStart(Strings(f), Strings(g));
    } else {
      forall d, b, b'
        ensures !AdjacentLists.Overlaps(Strings(f), Strings(g), d, b, b')
      {
        ApartNoOverlap(f, g, d, b, b');
      }
    }
  }

  /**
   * Two adjacent lists of strings, between self-delimiting and fixed-width columns: the exact options under
   * which the bytes of a row identify it.
   */
  lemma AdjacentStringLists(before: seq<RowCode.Slot>, f: EncodingField, g: EncodingField, after: seq<RowCode.Slot>)
    requires Records.Supported(Records.Scalars(before)) && Records.Supported(Records.Scalars(after))
    requires RowCode.SelfDelimiting(before) && RowCode.FixedWidth(after)
    ensures Records.Identifies(Records.Scalars(before) + [Records.ListOf(Strings(f)), Records.ListOf(Strings(g))]
                               + Records.Scalars(after))
       <==> !f.noOrder && !g.noOrder && Apart(f, g)
  {
    if f.noOrder || g.noOrder {
      UnorderedStringLists(Records.Scalars(before), f, g, Records.Scalars(after));
    } else {
      StringsOverlap(f, g);
      AdjacentLists.AdjacentLists(before, Strings(f), Strings(g), after);
    }
  }

  /** Confusable options make rows collide whatever columns come before and after. */
  lemma StringListsCollide(before: seq<Records.ColumnType>, f: EncodingField, g: EncodingField, after: seq<Records.ColumnType>)
    requires Records.Supported(before) && Records.Supported(after)
    requires f.noOrder || g.noOrder || !Apart(f, g)
    ensures !Records.Identifies(before + [Records.ListOf(Strings(f)), Records.ListOf(Strings(g))] + after)
  {
    if f.noOrder || g.noOrder {
      UnorderedStringLists(before, f, g, after);
    } else {
      StringsOverlap(f, g);
      AdjacentLists.PairCollides(before, Strings(f), Strings(g), after);
    }
  }

  lemma UnorderedStringLists(before: seq<Records.ColumnType>, f: EncodingField, g: EncodingField, after: seq<Records.ColumnType>)
    requires Records.Supported(before) && Records.Supported(after)
    requires f.noOrder || g.noOrder
    ensures !Records.Identifies(before + [Records.ListOf(Strings(f)), Records.ListOf(Strings(g))] + after)
  {
    hide Records.Identifies;
    var first, second := Records.ListOf(Strings(f)), Records.ListOf(Strings(g));
    if f.noOrder {
      assert Strings(f)[0].Open();
      UnorderedKeys.ListKeysCollide(before, Strings(f), [second] + after);
      assert before + [first] + ([second] + after) == before + [first, second] + after;
    } else {
      assert Strings(g)[0].Open();
      UnorderedKeys.ListKeysCollide(before + [first], Strings(g), after);
      assert before + [first] + [second] + after == before + [first, second] + after;
    }
  }
}
