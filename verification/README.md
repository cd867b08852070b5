# Polars core, modelled in Dafny

This project models the parts of Polars whose correctness is least evident from the code, and proves
what they promise for all inputs, all schemas and all interleavings.

- **Row format** (`polars-row`). Rows of columns become byte strings whose byte order is the order of
  the rows. `FixedCodes`, `FloatCodes` and `BlockCode` give the codes of single values, `RowCode` and
  `ListCode` those of rows and lists. `Buffers`, `VariableColumns`, `RowEncoder` and `Columns` hold the
  in-place encoder: lengths are measured first, offsets lag one entry behind, and one pass per column
  fills the rows. `RowDecoder` is the decoder. `RowFormat` ties them together: the order theorem for
  tables of nested structs, and `RoundTrip`, in which the encoder's real output goes through the decoder.
  `ByteFormat` and `NestedRows` write the same bytes, order and equality out by themselves, byte by byte and
  by recursion on nested columns, so that the theorems do not rest on the encoder's own flattening.
  `Records` are schemas with lists anywhere. `UnorderedKeys` is about the unordered variant that
  grouping and joins use for their keys; `KeyLayouts`, `KeyPairs` and `KeyGaps` decide which of these keys
  work. `AdjacentLists` and `StringLists` are about list columns side by side in sorted tables.
- **Arrow offsets** (`polars-arrow/src/offset.rs`). Machine-width prefix sums that stand for a list of
  lengths; overflow is checked after the writes.
- **Shared storage** (`polars-arrow/src/storage.rs`). Reference counting as a state machine over the
  atomic steps of any number of handles.
- **Concurrency budget** (`polars-io/src/pl_async.rs`). The semaphore and its tuner as a state machine
  over any number of requests.
- **Pairwise float sum** (`polars-compute/src/float_sum.rs`). Generic in the arithmetic, so that one
  specification gives the exact sum over the reals and the shape of the floating-point computation.
- **Hive columns, schema edits, duration display.** Smaller algorithms with subtle branches.

Mutable objects of the source are classes, loops are loops with invariants, and buffers are arrays.
Bytes are integers below 256, and machine words are integers with explicit wrapping. Widths are
parameters wherever the proofs do not depend on them.

## Where the code does not do what is promised

- Keys of grouping and joins are encoded without order (`arg_sort_multiple.rs:176-197`). A binary cell is
  then a sentinel and its bytes, without a length, so with two binary columns different keys can have the
  same bytes: `("\0", "\2\0")` and `("\0\2", "\0")` both give `2 0 2 2 0`. `KeysAreInjective` gives the
  exact condition on the schema, and `KeysCollide` constructs the colliding keys for every other schema.
- The elements of a list key are encoded without order too (`into_groups.rs:322-340`), so even a single
  list column of strings does not identify its lists: `["\0", "\0"]` and `["\0\2\0"]` both give
  `2 2 0 2 0`.
- A string before a list swallows it in the same way: `("a", [5, null])` and `("a\2\1\5\0", null)`, with a
  list of unsigned bytes, both give `2 97 2 1 5 0 0`. `StringThenVariable` does this for every schema.
- A list of fixed-width elements before a string or another list is safe when nothing stands between them
  (`ListNextVariable`). With fixed-width columns between, it depends on the widths: for a list of unsigned
  16-bit integers, a Boolean and a string, `([7], true, "\1\1\0")` and `([7, 258], true, null)` both give
  `2 1 0 7 1 1 2 1 1 0`. `ListThenVariable` is the exact condition.
- `KeysDecided` covers keys of any number of columns, by the layouts of their bytes.
- With ordered elements a list column is identified by its bytes when only fixed-width columns follow it
  (`LoneListColumn`), or a string and then these (`ListThenString`). Two adjacent lists of ordered strings are, or are not, depending on the options:
  `AdjacentStringLists` decides it for all of them. They are identified when the first is descending, when
  both are ascending with nulls last, or when the second is descending with nulls first. For two ascending
  lists with nulls first, `[""]` and 32 nulls followed by `"", ""` have the bytes of `["", "\0"]` and an empty
  list. The documentation in `polars-row/src/lib.rs` describes a list code with element lengths, which
  would prevent this, and which the code does not write.
- The documentation of the row format gives structs a null sentinel of their own. The code flattens
  structs and writes none. The model follows the code.
- `convert_columns_no_order` uses the default field, which is the ordered one, despite its name.
- `try_push` says it errors exactly on overflow. The 64-bit branch adds unchecked (`PushErrors`,
  `PushExact`, `PushWraps`).
- `try_extend_from_self` and `try_extend_from_slice` say the same, but they also refuse results that fit
  when the other offsets do not start at zero (`ExtendErrors`, `SliceErrors`, `SpuriousOverflow`).
- `try_extend_from_lengths` adds up the lengths unchecked in `usize`. `LengthsExact` shows that this is
  the only way its late check can be fooled, and `FooledCheck` gives lengths that do so.
- `rename` to the name of another field loses a field (`RenameExact`, `RenameTaken`), and panics when the renamed field
  was the last one. Its documentation does not say so.
- `materialize_hive_partitions` panics when the first partition column is in the reader schema and the
  first file column is not (`Materialize`).

## Model

| member | source | states |
|---|---|---|
| `FixedCodes.BigEndianRoundTrip` | crates/polars-row/src/fixed.rs:55-75 | reading the big-endian bytes of an unsigned number of any width gives the number back |
| `FixedCodes.BigEndianOnto` | crates/polars-row/src/fixed.rs:55-75 | conversely every byte string is the code of the number it reads as |
| `FixedCodes.BigEndianOrder` | crates/polars-row/src/fixed.rs:55-75 | byte order of big-endian codes is numeric order, at every width |
| `FixedCodes.ToggledIsOffset` | crates/polars-row/src/fixed.rs:77-108 | xor-ing the top bit of the first byte of a two's complement code is adding half the range to the number |
| `FixedCodes.SignedOrder` | crates/polars-row/src/fixed.rs:77-108 | byte order of the codes of two signed numbers is their numeric order |
| `FixedCodes.SignedRoundTrip` | crates/polars-row/src/fixed.rs:77-108 | decoding a signed code gives the number back |
| `FixedCodes.SignedOnto` | crates/polars-row/src/fixed.rs:77-108 | every byte string is the code of the signed number it decodes to |
| `FloatCodes.FlipMirrors` | crates/polars-row/src/fixed.rs:110-142 | the shift, mask and xor applied to a float's bits keep non-negative bit patterns and mirror the negative ones |
| `FloatCodes.FlipInvolution` | crates/polars-row/src/fixed.rs:110-142 | the same bit manipulation undoes itself, so decoding may reuse it |
| `FloatCodes.FloatRoundTrip` | crates/polars-row/src/fixed.rs:110-142 | decoding an encoded float gives its canonical form: one NaN, one zero, every other float unchanged |
| `FloatCodes.FloatOnto` | crates/polars-row/src/fixed.rs:110-142 | codes whose first byte is neither zero nor above 126 belong to finite negative floats and decode and encode back to themselves |
| `FloatCodes.CanonicalIdempotent` | crates/polars-utils/src/total_ord.rs:10-33 | canonical floats are fixed points of canonicalisation |
| `FloatCodes.CanonicalSingle` | crates/polars-utils/src/total_ord.rs:10-20 | 32-bit floats by their bits: every NaN becomes 0x7fc00000, negative zero becomes zero, and nothing else changes |
| `FloatCodes.CanonicalDouble` | crates/polars-utils/src/total_ord.rs:22-33 | the same for 64-bit floats with 0x7ff8000000000000 |
| `FloatCodes.FloatCodeValue` | crates/polars-row/src/fixed.rs:110-142 | read as a big-endian number, the code of a float is half the range plus its canonical magnitude, or that mirrored for negative floats |
| `FloatCodes.UnitsOfFields` | crates/polars-row/src/lib.rs:59-65 | the number a bit pattern denotes, in units of the least subnormal, is the IEEE 754 reading of its exponent and mantissa fields |
| `FloatCodes.UnitsMonotone` | crates/polars-row/src/lib.rs:59-65 | larger magnitude bits denote strictly larger numbers, across all binades and subnormals |
| `FloatCodes.KeyOrder` | crates/polars-row/src/lib.rs:247-252 | the signed integer a float is turned into is ordered as the float's numeric value, NaN last and both zeros equal |
| `FloatCodes.FloatOrder` | crates/polars-row/src/fixed.rs:110-142 | byte order of float codes is the documented total order on the denoted numbers |
| `FloatCodes.FloatEqual` | crates/polars-row/src/lib.rs:247-252 | floats compare equal exactly when they have the same canonical form |
| `BlockCode.CellCode` | crates/polars-row/src/variable.rs:44-74 | the code of a cell has exactly the length that `encoded_len` announces, ordered or not |
| `BlockCode.PadOrder` | crates/polars-row/src/variable.rs:113-195 | zero padding followed by the length compares like the unpadded strings, shorter prefix first |
| `BlockCode.BlocksOrder` | crates/polars-row/src/variable.rs:113-195 | byte order of block codes is lexicographic order of the strings, whatever their lengths |
| `BlockCode.BlocksPrefixFree` | crates/polars-row/src/variable.rs:113-195 | no block code is a proper prefix of another |
| `BlockCode.CodePrefixFree` | crates/polars-row/src/variable.rs:113-195 | the same for whole cells under one field: null, empty and non-empty, ascending or descending |
| `BlockCode.FirstByte` | crates/polars-row/src/variable.rs:113-195 | the first byte tells null, empty and non-empty cells apart |
| `BlockCode.CodeOrder` | crates/polars-row/src/variable.rs:113-195 | byte order of cell codes is the order of the optional strings, reversed by `descending`, with nulls placed by `nulls_last` alone |
| `VariableColumns.BlocksWithRemainder` | crates/polars-row/src/variable.rs:145-195 | full blocks followed by a partial last block are the block code of the whole string |
| `VariableColumns.BlocksExact` | crates/polars-row/src/variable.rs:145-195 | for a multiple of 32 bytes, overwriting the last continuation token by 32 gives the block code |
| `VariableColumns.EncodeBlocks` | crates/polars-row/src/variable.rs:145-195 | the block loop writes the sentinel and the block code at the offset and changes no other byte |
| `VariableColumns.EncodeOne` | crates/polars-row/src/variable.rs:113-195 | in place: the buffer changes only by the cell's code at the offset, and the returned length is the code's length |
| `VariableColumns.EncodeOneNoOrder` | crates/polars-row/src/variable.rs:76-107 | the same for the unordered code |
| `VariableColumns.DecodedLen` | crates/polars-row/src/variable.rs:229-259 | on a cell's code followed by arbitrary bytes the scan returns the length of the cell's string, also for descending and for multiples of 32 |
| `VariableColumns.ReadBlocks` | crates/polars-row/src/variable.rs:261-330 | the block reader returns the (inverted) string and stops exactly at the end of its code |
| `VariableColumns.DecodeOne` | crates/polars-row/src/variable.rs:261-330 | decoding undoes encoding on any code followed by arbitrary bytes, and advances by exactly the code's length |
| `RowCode.ValueOrder` | crates/polars-row/src/fixed.rs:144-166 | for every fixed-width leaf type byte order of value codes is the order of the values |
| `RowCode.ValueRoundTrip` | crates/polars-row/src/fixed.rs:215-291 | for every fixed-width leaf type decoding a value's code gives its canonical form |
| `RowCode.ValueEqual` | crates/polars-row/src/fixed.rs:144-166 | values compare equal exactly when their canonical forms agree |
| `RowCode.SlotOrder` | crates/polars-row/src/fixed.rs:144-213 | cells of any leaf type: byte order is value order under `descending`, with nulls placed by `nulls_last` |
| `RowCode.SlotPrefixFree` | crates/polars-row/src/fixed.rs:180-213 | codes of two cells of one column are never proper prefixes of each other |
| `RowCode.CellEqual` | crates/polars-row/src/fixed.rs:144-213 | two cells compare equal under any options exactly when their canonical forms agree |
| `RowCode.RowOrder` | crates/polars-row/src/encode.rs:158-209 | for every list of columns and every per-column choice of options, comparing two rows' bytes is comparing the rows column by column |
| `RowCode.RowPrefixFree` | crates/polars-row/src/encode.rs:158-209 | no row's bytes are a proper prefix of another's |
| `RowCode.RowEquality` | crates/polars-row/src/encode.rs:158-209 | two rows have equal bytes exactly when they are equal up to NaN payloads and the sign of zero |
| `RowCode.Reencoded` | crates/polars-row/src/encode.rs:158-209 | encoding what a row decodes to gives the row's bytes again |
| `ByteFormat.SupportedTypes` | crates/polars-row/src/encode.rs:229-291 | the leaf types that are encoded: Booleans, binary, unsigned integers of 1, 2, 4 and 8 bytes, signed ones also of 16, and the two IEEE 754 formats with their field widths |
| `ByteFormat.FixedLayout` | crates/polars-row/src/lib.rs:16-41 | a fixed-width null is the byte 0 (255 with nulls last) and zeros; a value is the byte 1 and its data bytes, complemented when descending |
| `ByteFormat.DataBytes` | crates/polars-row/src/lib.rs:16-65 | the data bytes, read as a big-endian number: an unsigned value itself, a signed value or a float's key plus half the range |
| `ByteFormat.BlocksAt` | crates/polars-row/src/lib.rs:79-118 | byte by byte, the blocks of a string: 32 bytes of data or zero padding, then 255, or the number of data bytes in the last block |
| `ByteFormat.BlocksLength` | crates/polars-row/src/variable.rs:44-48 | a string takes 33 bytes for every 32 begun |
| `ByteFormat.StringLayout` | crates/polars-row/src/variable.rs:113-195 | an ordered string cell, byte by byte: 0 or 255 for null, 1 for empty, else 2 and the blocks, complemented when descending |
| `ByteFormat.UnorderedLayout` | crates/polars-row/src/variable.rs:76-107 | an unordered string cell: 0 or 255 for null, 1 for empty (254 descending), else 2 and the bare bytes, never complemented |
| `UnorderedKeys.CodeNoOrderInjective` | crates/polars-row/src/variable.rs:76-107 | a single unordered cell code determines its cell |
| `UnorderedKeys.KeyEquality` | crates/polars-core/src/chunked_array/ops/sort/arg_sort_multiple.rs:176-197 | with at most one binary column, two unordered keys have equal bytes exactly when they are equal |
| `UnorderedKeys.FirstOpenBytes` | crates/polars-row/src/variable.rs:76-107 | in a row of nulls any non-empty string can stand in the first unordered binary column, between bytes that do not depend on it |
| `UnorderedKeys.KeysCollide` | crates/polars-core/src/chunked_array/ops/sort/arg_sort_multiple.rs:176-197 | every schema with two or more unordered binary columns, whatever its other columns and lists, has different rows with the same bytes |
| `UnorderedKeys.KeysAreInjective` | crates/polars-core/src/chunked_array/ops/sort/arg_sort_multiple.rs:176-197 | for keys without lists: unordered bytes identify keys if and only if the schema has at most one binary column |
| `UnorderedKeys.ListsCollide` | crates/polars-row/src/encode.rs:135-147 | for every element schema with an unordered binary column, a list of two elements and a list of one with the same bytes |
| `UnorderedKeys.ListKeysCollide` | crates/polars-core/src/frame/group_by/into_groups.rs:322-340 | such a list column makes rows collide in every schema it occurs in |
| `UnorderedKeys.ListKeysAreInjective` | crates/polars-row/src/encode.rs:135-147 | one list column behind self-delimiting columns, as all columns of a sorted table are, and before fixed-width ones: bytes identify rows if and only if the list's elements are self-delimiting |
| `KeyLayouts.RecordFits` | crates/polars-core/src/chunked_array/ops/sort/arg_sort_multiple.rs:176-197 | in an unsorted key the sentinels of non-empty strings and lists are twos, and validity bytes and Booleans never are |
| `KeyLayouts.RecordOnto` | crates/polars-core/src/chunked_array/ops/sort/arg_sort_multiple.rs:176-197 | conversely all bytes one and two that fit the layout of given string lengths and list sizes are the bytes of such a key |
| `KeyLayouts.SameCounts` | crates/polars-core/src/chunked_array/ops/sort/arg_sort_multiple.rs:176-197 | keys with the same string lengths and list sizes are identified by their bytes |
| `KeyLayouts.KeysByLayout` | crates/polars-core/src/chunked_array/ops/sort/arg_sort_multiple.rs:176-197 | bytes identify keys if and only if no two different choices of string lengths and list sizes have compatible layouts, for any number of columns |
| `KeyPairs.KeysDecided` | crates/polars-core/src/frame/group_by/mod.rs:93-101 | the same for every unsorted key: if and only if its lists have no strings in their elements and its layouts are unambiguous |
| `KeyPairs.StringThenVariable` | crates/polars-core/src/frame/group_by/mod.rs:93-101 | a string column before another string or a list makes rows collide, whatever stands before, between and after |
| `KeyPairs.UnorderedListKeys` | crates/polars-core/src/frame/group_by/into_groups.rs:322-340 | a key with one list and no string after it is identified by its bytes if and only if there is no string before the list and none in its elements |
| `KeyGaps.Shifted` | crates/polars-core/src/chunked_array/ops/sort/arg_sort_multiple.rs:176-197 | reading more elements than there are puts the later column's sentinel on a data byte, of an element or of the columns between |
| `KeyGaps.Overlapping` | crates/polars-core/src/chunked_array/ops/sort/arg_sort_multiple.rs:176-197 | and whenever the widths allow that, two layouts for the same bytes exist |
| `KeyGaps.ListThenVariable` | crates/polars-core/src/frame/group_by/mod.rs:93-101 | a list of fixed-width elements, fixed-width columns, then a string or a list of fixed-width elements: bytes identify keys if and only if the later sentinel cannot fall on such a data byte, a condition on the widths |
| `KeyGaps.ListNextVariable` | crates/polars-core/src/frame/group_by/mod.rs:93-101 | with no column between the two, keys are always identified |
| `KeyGaps.MisreadCollides` | crates/polars-core/src/frame/group_by/mod.rs:93-101 | a possible misreading makes rows collide in every schema, also with strings and lists between |
| `KeyGaps.ThreeInARow` | crates/polars-core/src/frame/group_by/mod.rs:93-101 | three strings or lists in a row collide when the first is a list whose elements do not begin with a Boolean, though each neighbouring pair may be fine |
| `Records.RecordConcat` | crates/polars-row/src/encode.rs:158-209 | the bytes and the meaning of a row are those of its groups of columns, one after the other |
| `Records.Surround` | crates/polars-row/src/encode.rs:158-209 | columns with colliding rows make rows collide in any schema that has these columns side by side |
| `RowEncoder.Starts` | crates/polars-row/src/encode.rs:467-485 | the row starts are the running sums of the row lengths |
| `RowEncoder.WriteNext` | crates/polars-row/src/variable.rs:196-222 | appending a code at one row's cursor keeps every other row's bytes and cursor |
| `RowEncoder.ClearTail` | crates/polars-row/src/variable.rs:196-222 | zeroing what lies beyond the last cursor keeps every encoded byte |
| `RowEncoder.PassStep` | crates/polars-row/src/encode.rs:229-272 | one cell of one pass: the write stays inside the row's reservation and extends exactly that row |
| `RowEncoder.NextPassFits` | crates/polars-row/src/encode.rs:295-485 | the reservation made before the first pass leaves room for every later pass |
| `RowEncoder.RowLength` | crates/polars-row/src/encode.rs:295-465 | a row's encoded length is the fixed widths plus the announced variable lengths |
| `RowEncoder.HasVariable` | crates/polars-row/src/encode.rs:301-305 | finds out whether any column has variable length |
| `RowEncoder.FixedSize` | crates/polars-row/src/encode.rs:305-317 | the bytes all fixed-width columns take in a row |
| `RowEncoder.FirstLengths` | crates/polars-row/src/encode.rs:397-405 | the first variable column sets every row's length to the fixed widths plus its own announced length |
| `RowEncoder.AddLengths` | crates/polars-row/src/encode.rs:406-412 | each further variable column adds its announced lengths |
| `RowEncoder.MeasureRows` | crates/polars-row/src/encode.rs:319-466 | the measuring passes compute every row's exact encoded length |
| `RowEncoder.FullRows` | crates/polars-row/src/encode.rs:158-209 | when every reservation is used up, the offsets delimit the rows and nothing is left between them |
| `RowEncoder.RowsEncoded.constructor` | crates/polars-row/src/row.rs:35-68 | a new buffer is empty |
| `RowEncoder.RowsEncoded.EncodeFixedCell` | crates/polars-row/src/fixed.rs:144-166 | in place: writes validity byte and data of one cell at the row's cursor, and advances only that cursor |
| `RowEncoder.RowsEncoded.EncodeVariableCell` | crates/polars-row/src/variable.rs:196-222 | in place: writes one variable cell at the row's cursor, and advances only that cursor |
| `RowEncoder.RowsEncoded.EncodeFixed` | crates/polars-row/src/fixed.rs:168-213 | one fixed-width column: every row grows by exactly its cell's code |
| `RowEncoder.RowsEncoded.EncodeVariable` | crates/polars-row/src/variable.rs:196-222 | one variable column: every row grows by exactly its cell's code, although the rest of the buffer is cleared afterwards |
| `RowEncoder.RowsEncoded.EncodeArray` | crates/polars-row/src/encode.rs:229-272 | one column of either kind: every row grows by exactly its cell's code |
| `RowEncoder.RowsEncoded.LagOffsets` | crates/polars-row/src/encode.rs:467-485 | turns row lengths in place into cursors that lag one entry behind the row starts |
| `RowEncoder.RowsEncoded.EvenOffsets` | crates/polars-row/src/encode.rs:486-513 | the same cursors for rows of one fixed length |
| `RowEncoder.RowsEncoded.Reserve` | crates/polars-row/src/encode.rs:483-485 | afterwards the buffer holds at least the announced total, reused or fresh |
| `RowEncoder.RowsEncoded.Allocate` | crates/polars-row/src/encode.rs:295-514 | cursors stand at the starts of rows of the exact final lengths, and the buffer has room for all of them |
| `RowEncoder.RowsEncoded.RunPasses` | crates/polars-row/src/encode.rs:186-207 | column after column, the buffer holds the concatenated codes so far of every row |
| `RowEncoder.RowsEncoded.Encode` | crates/polars-row/src/encode.rs:158-209 | the finished buffer is exactly the rows' concatenated codes, delimited by the offsets |
| `ListCode.UniqueDecoding` | crates/polars-row/src/encode.rs:329-391 | a concatenation of self-delimiting element rows determines the rows, though it carries no lengths |
| `ListCode.ListInjective` | crates/polars-row/src/encode.rs:50-85 | two optional lists of self-delimiting elements have equal bytes exactly when they are equal: null, empty and non-empty are told apart |
| `ListCode.LoneListInjective` | crates/polars-row/src/encode.rs:158-209 | self-delimiting columns, one list column of self-delimiting elements and any fixed-width columns: equal bytes exactly when all of it is equal |
| `ListCode.RowsBytesConcat` | crates/polars-row/src/encode.rs:329-391 | encoding two runs of elements one after the other is encoding their concatenation |
| `AdjacentLists.CommonStart` | crates/polars-row/src/encode.rs:50-85 | of two lists followed by other bytes that agree, the shorter is the start of the longer, and the rest of the longer opens the other's continuation |
| `AdjacentLists.PairInjective` | crates/polars-row/src/encode.rs:229-234 | if no second list reads as elements of the first followed by a second list, a pair of lists is determined by its bytes |
| `AdjacentLists.PairCollides` | crates/polars-row/src/encode.rs:229-234 | if one does, rows collide whatever columns come before and after the pair |
| `AdjacentLists.AdjacentLists` | crates/polars-row/src/encode.rs:229-234 | the two together, for all self-delimiting element types: bytes identify rows if and only if the lists cannot overlap |
| `AdjacentLists.NoStart` | crates/polars-row/src/encode.rs:229-234 | lists whose elements do not begin with an ascending string never overlap with a list after them |
| `AdjacentLists.NoStringOverlap` | crates/polars-row/src/encode.rs:229-234 | no ordered string reads as elements of a list followed by another string |
| `AdjacentLists.ListThenString` | crates/polars-row/src/encode.rs:229-234 | a list column followed by an ordered string: bytes identify rows if and only if the list's elements are self-delimiting |
| `StringLists.Peel` | crates/polars-row/src/variable.rs:113-195 | when nulls do not look like padding, consecutive strings can be read from the end in one way only |
| `StringLists.ApartAscending` | crates/polars-row/src/encode.rs:229-234 | two lists of strings, both ascending with nulls last, never overlap |
| `StringLists.ApartDescending` | crates/polars-row/src/encode.rs:229-234 | an ascending list of strings never overlaps with a descending one with nulls first |
| `StringLists.PaddingIsNulls` | crates/polars-row/src/encode.rs:229-234 | an overlap for every ascending list followed by an ascending one with nulls first: padding reads as nulls |
| `StringLists.NullsArePadding` | crates/polars-row/src/encode.rs:229-234 | an overlap for every ascending list with nulls first followed by an ascending one: nulls read as padding |
| `StringLists.Straddle` | crates/polars-row/src/encode.rs:229-234 | an overlap for every ascending list followed by a descending one with nulls last |
| `StringLists.StringsOverlap` | crates/polars-row/src/encode.rs:229-234 | the exact options of two lists of strings under which the second can be read as part of the first |
| `StringLists.AdjacentStringLists` | crates/polars-row/src/encode.rs:229-234 | two adjacent lists of strings, for all options of both: bytes identify rows if and only if both are ordered and the options are of three kinds |
| `StringLists.StringListsCollide` | crates/polars-row/src/encode.rs:229-234 | under all other options rows collide whatever columns come before and after |
| `Columns.FlattenValid` | crates/polars-row/src/encode.rs:116-156 | flattening a column of nested structs yields leaf columns of the same height |
| `Columns.LeafPasses` | crates/polars-row/src/encode.rs:211-272 | the passes of a column's leaves append that column's row code to every row |
| `Columns.SliceRows` | crates/polars-row/src/encode.rs:50-85 | the bytes between two element offsets are the element rows of one list |
| `Columns.ListIter` | crates/polars-row/src/encode.rs:50-85 | yields for every row the bytes of its list, or none for a null list |
| `Columns.EncodeList` | crates/polars-row/src/encode.rs:329-391 | a list column as the variable-length pass sees it: per row nothing for null, or the bytes of its elements |
| `Columns.EncodeElements` | crates/polars-row/src/encode.rs:329-391 | the elements of a list column are encoded once, delimited row by row |
| `Columns.GetEncoders` | crates/polars-row/src/encode.rs:116-156 | the leaf encoders of all columns together produce the row format of the table |
| `Columns.ConvertColumns` | crates/polars-row/src/encode.rs:158-209 | for every table of nested structs and lists of them, the result holds every row's bytes and nothing else |
| `RowDecoder.LeafBytesConcat` | crates/polars-row/src/decode.rs:27-75 | the bytes of two groups of leaf columns are the bytes of the first followed by those of the second |
| `RowDecoder.ValidityByte` | crates/polars-row/src/fixed.rs:180-187 | the first byte of a cell is the null sentinel exactly when the cell is null |
| `RowDecoder.DecodeNulls` | crates/polars-row/src/fixed.rs:298-302 | a row is valid exactly when its first byte is not the sentinel |
| `RowDecoder.HasNulls` | crates/polars-row/src/variable.rs:224-227 | true exactly when some row starts with the sentinel |
| `RowDecoder.DecodeValidity` | crates/polars-row/src/fixed.rs:215-256 | a validity bitmap is made exactly if some cell is null, and then marks the nulls |
| `RowDecoder.DecodeFixedValue` | crates/polars-row/src/fixed.rs:215-291 | reads a valid cell's canonical value and stops at the end of its code |
| `RowDecoder.DecodeFixed` | crates/polars-row/src/fixed.rs:215-291 | decodes a whole fixed-width column to its canonical cells and moves every row past it |
| `RowDecoder.IncrementRows` | crates/polars-row/src/fixed.rs:292-296 | moves every row past one fixed-width cell |
| `RowDecoder.DecodeBinary` | crates/polars-row/src/variable.rs:261-381 | decodes a whole binary column and moves every row past it |
| `RowDecoder.Decode` | crates/polars-row/src/decode.rs:41-75 | decodes a column of nested structs to its canonical form and leaves exactly the remaining bytes of every row |
| `RowDecoder.DecodeChildren` | crates/polars-row/src/decode.rs:62-68 | the same for the children of a struct, in order |
| `RowDecoder.DecodeRows` | crates/polars-row/src/decode.rs:27-39 | decodes all columns and consumes every row completely |
| `RowFormat.PlainTableBytes` | crates/polars-row/src/encode.rs:116-156 | a table of nested structs has the row format of its flattened leaf columns |
| `NestedRows.TableLayout` | crates/polars-row/src/encode.rs:116-156 | the bytes of a row by recursion on the nested columns: structs are their children from left to right under the struct's own options; a null list is 0, an empty one 1, any other 2 and its elements |
| `NestedRows.RowsEmpty` | crates/polars-row/src/encode.rs:158-209 | encoded rows are empty exactly in tables without any leaf or list column |
| `NestedRows.FlattenOrder` | crates/polars-row/src/encode.rs:116-131 | comparing the flattened leaves of a column is comparing the nested column, every child under the column's own options |
| `NestedRows.SameListRows` | crates/polars-row/src/encode.rs:135-147 | lists agree as rows of flattened elements exactly when both are null or their nested elements agree one by one |
| `NestedRows.CanonicalRestoresAll` | crates/polars-row/src/decode.rs:27-39 | what decoding returns has the same types and, cell by cell, the value that was encoded, with canonical floats |
| `RowFormat.TableOrder` | crates/polars-row/src/lib.rs:245-261 | order of encoded rows is order of table rows, defined by recursion on the nested columns: leaves and structs under the options of their column, from left to right; equal bytes mean equal values up to canonical floats |
| `RowFormat.LoneListColumn` | crates/polars-row/src/encode.rs:229-272 | a table with one list column, before it self-delimiting and after it fixed-width columns, ordered or not: equal bytes exactly when the nested values and the lists are equal |
| `RowFormat.KeyTable` | crates/polars-core/src/chunked_array/ops/sort/arg_sort_multiple.rs:176-197 | an unordered table of nested structs with at most one string leaf: equal bytes exactly when the nested values are equal |
| `RowFormat.TableIsRecord` | crates/polars-row/src/encode.rs:116-209 | the encoder writes for a table row, lists included, the bytes of a record of its leaf and list columns, which the results about keys are about |
| `RowFormat.TableIdentified` | crates/polars-core/src/frame/group_by/into_groups.rs:322-340 | so in every schema those results find safe, table rows with equal encoded bytes have equal nested values and equal lists |
| `RowFormat.RowSlices` | crates/polars-row/src/row.rs:70-135 | iterating the finished buffer yields the rows' bytes |
| `RowFormat.RoundTrip` | crates/polars-row/src/decode.rs:27-39 | the encoder followed by the decoder returns every table of nested structs with the same types and, cell by cell, the encoded values, up to canonical floats |
| `ArrowOffsets.WrapSum` | crates/polars-arrow/src/offset.rs:268-279 | adding wrapped numbers and wrapping again is wrapping the true sum |
| `ArrowOffsets.Monotone` | crates/polars-arrow/src/offset.rs:10-17 | valid offsets never decrease between any two positions |
| `ArrowOffsets.Telescope` | crates/polars-arrow/src/offset.rs:512-514 | the lengths of any offsets add up to last minus first |
| `ArrowOffsets.AppendedExact` | crates/polars-arrow/src/offset.rs:262-286 | when the true total fits the width, wrapping adds append exactly the given lengths and keep the offsets valid |
| `ArrowOffsets.AppendedNeedsRoom` | crates/polars-arrow/src/offset.rs:262-286 | conversely, valid offsets with the appended lengths exist only if the true total fits |
| `ArrowOffsets.PushExact` | crates/polars-arrow/src/offset.rs:125-143 | a successful push appends its length exactly when it is narrow or the 64-bit sum is in range |
| `ArrowOffsets.PushWraps` | crates/polars-arrow/src/offset.rs:125-143 | otherwise the unchecked 64-bit push leaves invalid offsets |
| `ArrowOffsets.PushErrors` | crates/polars-arrow/src/offset.rs:125-143 | a push fails exactly when it overflows 32 bits and otherwise appends the sum; a 64-bit push never fails, and past the maximum appends the sum less 2^64 |
| `ArrowOffsets.PopUndoesPush` | crates/polars-arrow/src/offset.rs:125-234 | popping after a successful push gives the offsets back |
| `ArrowOffsets.ExtendIsPushes` | crates/polars-arrow/src/offset.rs:262-286 | a bulk extension that fits is the same as pushing its lengths one by one |
| `ArrowOffsets.RepeatIsPushes` | crates/polars-arrow/src/offset.rs:239-246 | extending by a constant is the same as pushing empty lists |
| `ArrowOffsets.EmptyAccepted` | crates/polars-arrow/src/offset.rs:239-335 | an empty window is accepted wherever it starts and changes nothing, and extending by zero lengths is extending by a constant |
| `ArrowOffsets.LengthsExact` | crates/polars-arrow/src/offset.rs:262-286 | a successful bulk extension appended exactly the lengths if and only if the lengths' total fits `usize`: the late check suffices |
| `ArrowOffsets.ExtendExact` | crates/polars-arrow/src/offset.rs:291-306 | extending by other offsets appends exactly their lengths |
| `ArrowOffsets.StepExact` | crates/polars-arrow/src/offset.rs:125-335 | every successful operation keeps the first offset and denotes its list operation exactly when its stated range condition holds |
| `ArrowOffsets.RunDenotes` | crates/polars-arrow/src/offset.rs:125-335 | any sequence of successful in-range operations keeps the offsets valid and denotes the same operations on the list of lengths |
| `ArrowOffsets.ExtendErrors` | crates/polars-arrow/src/offset.rs:288-306 | extension errors exactly when last plus the appended total exceeds the maximum less the other's first offset |
| `ArrowOffsets.SliceErrors` | crates/polars-arrow/src/offset.rs:308-335 | the same for a window of a buffer, with the first offset of the window |
| `ArrowOffsets.SpuriousOverflow` | crates/polars-arrow/src/offset.rs:288-335 | an extension, by offsets and by a window, that errors although its result fits, at either width |
| `ArrowOffsets.LengthsErrors` | crates/polars-arrow/src/offset.rs:258-286 | bulk extension errors exactly on overflow, as long as the lengths' total fits `usize` |
| `ArrowOffsets.FooledCheck` | crates/polars-arrow/src/offset.rs:262-286 | two lengths that pass the late check on any offsets and leave wrong entries |
| `ArrowOffsets.SliceExact` | crates/polars-arrow/src/offset.rs:311-335 | a successful extension by a window appends exactly the lengths of that window |
| `ArrowOffsets.Offsets.constructor` | crates/polars-arrow/src/offset.rs:71-77 | new offsets are `[0]` and denote the empty list |
| `ArrowOffsets.Offsets.TryPush` | crates/polars-arrow/src/offset.rs:125-143 | in place: one entry appended on success, nothing changed on error; the error condition is that of PushErrors |
| `ArrowOffsets.Offsets.Pop` | crates/polars-arrow/src/offset.rs:228-234 | in place: removes and returns the last entry, or returns none for the empty list |
| `ArrowOffsets.Offsets.ExtendConstant` | crates/polars-arrow/src/offset.rs:239-246 | in place: appends the last offset repeatedly, both branches alike |
| `ArrowOffsets.Offsets.TryExtendFromLengths` | crates/polars-arrow/src/offset.rs:262-286 | in place: the wrapping sums are appended in either case, success exactly when the checked total fits |
| `ArrowOffsets.Offsets.TryExtendFromSelf` | crates/polars-arrow/src/offset.rs:291-306 | in place: appends the other's lengths, or changes nothing and errors |
| `ArrowOffsets.Offsets.TryExtendFromSlice` | crates/polars-arrow/src/offset.rs:311-335 | in place: the same for a window of another buffer, with the empty window always accepted |
| `ArrowOffsets.TryCheckOffsets` | crates/polars-arrow/src/offset.rs:345-372 | accepts exactly the non-empty, non-negative, never decreasing sequences |
| `ArrowOffsets.SplitExact` | crates/polars-arrow/src/offset.rs:602-616 | splitting gives two valid halves with the original entries, sharing the one at the split, whose lengths concatenate to the original lengths |
| `ArrowOffsets.DeltaIsSum` | crates/polars-arrow/src/offset.rs:524-528 | the difference of two offsets is the total length of the range |
| `ArrowOffsets.NarrowLossless` | crates/polars-arrow/src/offset.rs:545-591 | checking the last offset alone decides whether all fit 32 bits, and then no value changes |
| `SharedStorage.StepInv` | crates/polars-arrow/src/storage.rs:139-230 | every atomic step of clone, drop, borrow and take keeps the reference-count invariant |
| `SharedStorage.ReachableInv` | crates/polars-arrow/src/storage.rs:139-230 | the invariant holds in every state of every interleaving |
| `SharedStorage.CountIsHandles` | crates/polars-arrow/src/storage.rs:201-230 | in every reachable state the counter is the number of counted handles |
| `SharedStorage.NeverFreedInUse` | crates/polars-arrow/src/storage.rs:215-230 | while any counted handle exists the backing memory is neither released nor handed over |
| `SharedStorage.ReleasedExactlyOnce` | crates/polars-arrow/src/storage.rs:215-230 | once every handle is gone, the memory has been released or handed over exactly once |
| `SharedStorage.ReleasedAtMostOnce` | crates/polars-arrow/src/storage.rs:163-230 | never twice, and only vectors are handed over |
| `SharedStorage.MutableIsAlone` | crates/polars-arrow/src/storage.rs:139-161 | while one handle lends mutable access every other handle is gone |
| `SharedStorage.MutableBlocksOthers` | crates/polars-arrow/src/storage.rs:139-161 | during a mutable borrow no step but its end is possible |
| `SharedStorage.StaticForever` | crates/polars-arrow/src/storage.rs:49-62 | static storage is never released, handed over or lent mutably, and its counter never moves |
| `SharedStorage.LoneHandleTakes` | crates/polars-arrow/src/storage.rs:163-175 | the exclusivity load in `try_into_vec` hands the vector over exactly when no other handle counts |
| `SharedStorage.LoneHandleBorrows` | crates/polars-arrow/src/storage.rs:139-161 | the exclusivity load in `try_as_mut_slice` lends mutable access exactly when no other handle counts |
| `SharedStorage.AloneIsOne` | crates/polars-arrow/src/storage.rs:139-161 | a handle of owned storage reads a count of one exactly when it is the only handle left |
| `SharedStorage.BorrowRuns` | crates/polars-arrow/src/storage.rs:139-161 | run to its end, a mutable borrow is granted exactly to the only handle of owned storage, and leaves everything as before |
| `SharedStorage.TakeRuns` | crates/polars-arrow/src/storage.rs:163-175 | run to its end, taking the vector moves it out exactly for the only handle of vector storage, and otherwise changes nothing |
| `SharedStorage.DropRuns` | crates/polars-arrow/src/storage.rs:215-230 | run to its end, a drop gives up one count, and frees the data exactly if the handle was the last of owned storage |
| `SharedStorage.CloneRuns` | crates/polars-arrow/src/storage.rs:201-213 | a clone, also of a handle being read, is a live handle of its own, and dropping it restores the count |
| `SharedStorage.FromTheStart` | crates/polars-arrow/src/storage.rs:49-230 | over every run from a new storage: handles come from clones, counts go by decrements and by handing over, releases are the frees, and readers are the reads begun and not ended |
| `ConcurrencyBudget.StepConserves` | crates/polars-io/src/pl_async.rs:161-232 | every step of acquiring, downloading, tuning, undoing and returning conserves permits |
| `ConcurrencyBudget.StepLocks` | crates/polars-io/src/pl_async.rs:184-212 | the tuner's lock is held by at most one writer, and exactly while one tunes or undoes |
| `ConcurrencyBudget.PermitsConserved` | crates/polars-io/src/pl_async.rs:161-232 | in every reachable state: available, held and forgotten permits add up to the initial budget plus the increments |
| `ConcurrencyBudget.OneUndo` | crates/polars-io/src/pl_async.rs:105-215 | at most one step is ever undone, never more than were added, so at least the initial budget stays in circulation |
| `ConcurrencyBudget.EveryTuneCounts` | crates/polars-io/src/pl_async.rs:96-141 | over every run: the `tune` calls that found the tuner unfinished are the increments, plus one once tuning has finished |
| `ConcurrencyBudget.GrowthFollowsSpeeds` | crates/polars-io/src/pl_async.rs:96-141 | over every run the measured speeds alone decide the increments, the tuner's state and the flag: the first `tune` always adds a permit, each later one while the speed increased, and the first that did not ends tuning for good |
| `ConcurrencyBudget.TryReadExact` | crates/polars-io/src/pl_async.rs:186-188 | `try_read` fails exactly while some request holds the write lock |
| `ConcurrencyBudget.TryWriteExact` | crates/polars-io/src/pl_async.rs:203-206 | `try_write` fails exactly while some request holds the lock for reading or writing |
| `ConcurrencyBudget.GrowingRequest` | crates/polars-io/src/pl_async.rs:161-215 | a whole request that takes a step leaves one permit more and everything else as it was |
| `ConcurrencyBudget.FinishingRequest` | crates/polars-io/src/pl_async.rs:161-215 | a whole request that ends tuning leaves one permit less, forgotten, and tuning finished |
| `ConcurrencyBudget.BudgetGrows` | crates/polars-io/src/pl_async.rs:96-214 | the budget can reach every size above the initial one, with all permits free |
| `ConcurrencyBudget.BudgetSettles` | crates/polars-io/src/pl_async.rs:96-214 | and tuning can end at every size, one permit below the last step |
| `ConcurrencyBudget.RequestCanBeServed` | crates/polars-io/src/pl_async.rs:161-178 | with nothing held, any admitted request can be granted, which is what the assertion on the budget is for |
| `ConcurrencyBudget.NoDeadlock` | crates/polars-io/src/pl_async.rs:161-232 | as long as some request is unfinished, some step is possible |
| `ConcurrencyBudget.AllTasksFinish` | crates/polars-io/src/pl_async.rs:161-232 | without new requests every run is bounded, and where it stops all requests are finished and all permits back, less the one undone |
| `ConcurrencyBudget.FixedBudget` | crates/polars-io/src/pl_async.rs:148-159 | with a budget fixed by the environment no permit is ever added or forgotten |
| `PairwiseSum.VectorHorizontalSum` | crates/polars-compute/src/float_sum.rs:48-67 | the in-place halving adds the lanes in the order of the specification |
| `PairwiseSum.SumBlock` | crates/polars-compute/src/float_sum.rs:123-137 | one block of 128: sixteen lanes summed stripe by stripe, then across |
| `PairwiseSum.SumBlockWithMask` | crates/polars-compute/src/float_sum.rs:138-154 | the same with masked elements replaced by zero |
| `PairwiseSum.PairwiseSum` | crates/polars-compute/src/float_sum.rs:156-179 | the recursive halving computes the specified summation tree, in any arithmetic |
| `PairwiseSum.PairwiseSumWithMask` | crates/polars-compute/src/float_sum.rs:181-204 | the masked variant computes the tree of the masked elements |
| `PairwiseSum.FloatSum` | crates/polars-compute/src/float_sum.rs:211-228 | the whole sum: blocks of the tail pairwise, the leading remainder one by one, in any arithmetic |
| `PairwiseSum.FloatSumWithValidity` | crates/polars-compute/src/float_sum.rs:230-256 | the masked whole sum |
| `PairwiseSum.AllValid` | crates/polars-compute/src/float_sum.rs:217-256 | with an all-true mask it is bit for bit the unmasked sum, in any arithmetic |
| `PairwiseSum.SumExact` | crates/polars-compute/src/float_sum.rs:156-257 | in exact arithmetic the sum is the left-to-right fold |
| `PairwiseSum.MaskedExact` | crates/polars-compute/src/float_sum.rs:181-257 | in exact arithmetic masking is summing the valid elements only |
| `PairwiseSum.RealSum` | crates/polars-compute/src/float_sum.rs:156-257 | both, over the real numbers |
| `PairwiseSum.SumIsTree` | crates/polars-compute/src/float_sum.rs:156-257 | in any arithmetic the sum is the evaluation of one fixed tree that does not depend on the values |
| `PairwiseSum.EveryElementOnce` | crates/polars-compute/src/float_sum.rs:156-257 | that tree has every element as a leaf exactly once |
| `PairwiseSum.PairwiseHeight` | crates/polars-compute/src/float_sum.rs:156-179 | no element passes through more than 12 plus the ceiling of the binary logarithm of the number of blocks additions |
| `PairwiseSum.SumShape` | crates/polars-compute/src/float_sum.rs:211-257 | the whole sum is that tree plus the fold of the remainder, at the stated depth |
| `PairwiseSum.HeightIsDeepest` | crates/polars-compute/src/float_sum.rs:156-179 | the height in that bound is the number of additions the deepest element passes through |
| `PairwiseSum.SumLayout` | crates/polars-compute/src/float_sum.rs:48-257 | the sum written out element by element: lanes of every sixteenth element, the fixed tree over sixteen lanes, halving of the blocks with the smaller half on the left, then the leading remainder from left to right |
| `PairwiseSum.CeilLog2Meaning` | crates/polars-compute/src/float_sum.rs:156-179 | the logarithm in that bound is the ceiling of the binary logarithm |
| `HiveColumns.InterleavesKeeps` | crates/polars-io/src/hive.rs:13-74 | an interleaving keeps every column of both sides, with multiplicity |
| `HiveColumns.MergeLoop` | crates/polars-io/src/hive.rs:42-70 | the merge loop puts out a file column exactly if it comes strictly before the next partition column, until a side runs out or leaves the schema, then the rest of the file and of the partition columns; in schema order when both sides are |
| `HiveColumns.MergeUnique` | crates/polars-io/src/hive.rs:42-70 | there is only one such merge of given columns |
| `HiveColumns.Materialize` | crates/polars-io/src/hive.rs:13-74 | the whole operation, with the exact condition for its panic and both fast paths; nothing is lost, duplicated or reordered within a side, and the result follows the schema when the inputs do |
| `SchemaEdits.Schema.InsertAtIndex` | crates/polars-schema/src/schema.rs:73-96 | in place: the field ends up at the index with all others in order around it, or the index is out of bounds and nothing changes; returns the previous type |
| `SchemaEdits.MoveIsPlaced` | crates/polars-schema/src/schema.rs:73-96 | inserting at the end and moving by index equals placing the field among the others |
| `SchemaEdits.PlacedUnique` | crates/polars-schema/src/schema.rs:73-96 | placing a field keeps names unique |
| `SchemaEdits.PlacedMeaning` | crates/polars-schema/src/schema.rs:73-96 | the placed field stands at the index, or last, and the others are as they were |
| `SchemaEdits.Schema.NewInsertingAtIndex` | crates/polars-schema/src/schema.rs:306-328 | the copying variant yields the same fields and leaves the receiver alone |
| `SchemaEdits.Schema.Merge` | crates/polars-schema/src/schema.rs:235-237 | in place: old fields keep their position and take the other's type, new ones follow in order, and names stay unique |
| `SchemaEdits.MergedUnique` | crates/polars-schema/src/schema.rs:228-237 | merging keeps names unique |
| `SchemaEdits.MergeShape` | crates/polars-schema/src/schema.rs:228-237 | inserting the other's fields one by one has that documented shape |
| `SchemaEdits.UpdatedMeaning` | crates/polars-schema/src/schema.rs:228-237 | a shared field becomes the other's field of that name, and any other field stays as it is |
| `SchemaEdits.AddedConcat` | crates/polars-schema/src/schema.rs:228-237 | the new fields are taken from the other one by one, in its order |
| `SchemaEdits.AddedOne` | crates/polars-schema/src/schema.rs:228-237 | and one is taken exactly if no field here has its name |
| `SchemaEdits.Schema.Rename` | crates/polars-schema/src/schema.rs:43-53 | in place: not found changes nothing; renaming to a free name edits just that name in place; renaming to a taken name swap-removes the field that had it and keeps the renamed one in place; the exact condition for the panic and what is left then |
| `SchemaEdits.RenameExact` | crates/polars-schema/src/schema.rs:43-53 | swap-remove, insert and swap back edit the name exactly when the new name is not another field's |
| `SchemaEdits.EditedPlaces` | crates/polars-schema/src/schema.rs:43-53 | such an edit leaves every field in its place with its type, and every other name unchanged |
| `SchemaEdits.RenameTaken` | crates/polars-schema/src/schema.rs:43-53 | the resulting fields, position by position, when the new name belongs to another field |
| `SchemaEdits.RenameMoves` | crates/polars-schema/src/schema.rs:43-53 | as a set of fields, a rename moves one type to the new name, drops any field that had it, and keeps all others |
| `DurationFormat.SubSecondValue` | crates/polars-core/src/fmt.rs:925-965 | the sub-second part denotes exactly the remainder below a second, with the sign of the value |
| `DurationFormat.PartsValue` | crates/polars-core/src/fmt.rs:967-983 | from any unit on, the remaining parts denote exactly what is left of the value |
| `DurationFormat.Denotes` | crates/polars-core/src/fmt.rs:925-983 | the printed parts of any non-zero duration add up to it, all non-zero and of its sign |
| `DurationFormat.MoreParts` | crates/polars-core/src/fmt.rs:975-980 | a separator is written exactly when another part follows |
| `DurationFormat.Units` | crates/polars-core/src/fmt.rs:911-923 | the twelve unit sizes, the unit names and the base unit of each resolution |
| `DurationFormat.OnlyCanonical` | crates/polars-core/src/fmt.rs:925-983 | the printed parts are the only ones that add up to the duration with falling units, no zero part, no mixed signs, no count that reaches the next unit, and the coarsest exact sub-second unit |
| `DurationFormat.WritePart` | crates/polars-core/src/fmt.rs:969-981 | one turn of the loop writes the next part and its separator |
| `DurationFormat.FormatDuration` | crates/polars-core/src/fmt.rs:967-983 | the loop prints the parts down to seconds, with the separator the sub-second part needs |
| `DurationFormat.FormatAny` | crates/polars-core/src/fmt.rs:925-965 | prints zero with the base unit, and any other value as its parts joined by single spaces, at each resolution |
| `DurationFormat.PrintedSpacing` | crates/polars-core/src/fmt.rs:967-983 | no printed duration starts or ends with a space or has two in a row |
| `DurationFormat.PrintedValue` | crates/polars-core/src/fmt.rs:925-983 | reading a printed duration back with a table of units of its own gives the value, at each resolution and for negative values |

## Left out

- Row format: dictionary and null columns, nested lists, lists inside structs, and validity of structs themselves. The code does not preserve the latter, and the others add cases but no new argument.
- Row format: order of list columns, which are encoded without order. In sorted tables, whether bytes identify rows is decided for one list column that fixed-width columns follow, with or without a string column first, and for two adjacent lists of strings. Adjacent lists of other elements are reduced to overlap (AdjacentLists); fixed-width columns between a list and a later string or list, and three or more of these, are not treated there.
- Row format: decoding of unordered rows. The decoders ignore that flag.
- Row format: reading bytes that no encoder wrote. The decoders index unchecked, so the model requires rows that start with the expected codes.
- Row format: overflow of `usize` in buffer sizes, and uninitialised memory. Fresh buffer bytes are arbitrary.
- RowEncoder.RowsEncoded.EncodeFixed: covers both the null-free loop and the optional one, which write the same bytes for valid cells.
- RowEncoder.RowsEncoded.Reserve: does not model capacity growth beyond what is needed.
- RowDecoder.DecodeBinary: covers both the offset-based and the view-based output array, whose scanning loops are the same; the layout of the output array is not modelled.
- RowFormat.RoundTrip: requires at least one leaf column, because the encoder panics without one.
- UnorderedKeys.KeysAreInjective: keys without list columns. Keys with lists are decided by KeysDecided in terms of layouts, and in closed form when at most two of their columns are strings or lists (KeysAreInjective, StringThenVariable, UnorderedListKeys, ListThenVariable). For three or more no closed condition is given beyond the collisions proved.
- UnorderedKeys.ListKeysAreInjective: requires self-delimiting columns before the list; unsorted strings there always collide (StringThenVariable), and no caller mixes sorted and unsorted columns.
- ArrowOffsets.RunDenotes: one direction; the two-way statement for each operation is StepExact.
- Arrow offsets: capacity functions and the unchecked constructors.
- Shared storage: memory orderings weaker than interleaving, overflow of the counter, foreign Arrow buffers, and freeing of the control block.
- Concurrency budget: the order in which waiting requests are served and partial acquisition, cancellation and panics, overflow of the counters, and the clock. Elapsed time and measured speed are arbitrary, so the results hold for all of them.
- Pairwise sum: IEEE 754 rounding and the vector-instruction variants. The depth bound is what error estimates use.
- HiveColumns.Materialize: columns are abstract values, so filling partition columns with their constant is not modelled.
- DurationFormat.FormatAny: values are unbounded integers. The code uses 64 bits, and no intermediate result exceeds the value.
- The query engine, expressions, file formats and language bindings.
