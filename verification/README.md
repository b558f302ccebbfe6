# appendTrailingCharIfAbsent — a verified model

This project models the SQL function `appendTrailingCharIfAbsent(s, c)` of a
columnar database engine. The function takes a String column `s` and a constant
one-byte string `c`. It appends `c` to every row that is non-empty and does not
already end in `c`. All other rows are copied unchanged.

The engine stores a String column as two flat buffers:

- `chars`: the bytes of all rows, each row followed by a `0` terminator;
- `offsets`: for each row, the exclusive end of that row in `chars`, terminator included.

Row `i` starts where row `i - 1` ends; the first row starts at `0`.

The project has three modules:

- `ColumnStrings` (`column_string.dfy`): the flat layout.
  - `ColumnString.Valid` is the layout invariant: offsets strictly increase, every row ends in a `0` terminator inside `chars`, and the last offset is the length of `chars`.
  - `ColumnString.Rows` decodes the buffers into a `seq<seq<bv8>>`.
  - `Encode` builds the buffers from rows one `PushRow` at a time.
  - Encoding and decoding are proved inverse in both directions.
- `AppendTrailingChar` (`append_trailing_char.dfy`): the column kernel.
  - `AppendRow` / `AppendRows` are the functional specification over rows.
  - `AppendTrailingCharKernel` is the engine's loop over the flat buffers. It is proved to produce a valid column whose rows are `AppendRows` of the input rows, and to write only inside the buffer it allocates.
- `FunctionAppendTrailingChar` (`function_append_trailing_char.dfy`): the function as the engine calls it.
  - Argument type checking (`ReturnType`).
  - Column checks and execution (`Execute`, and `ExecuteImpl`, which runs the kernel). The source's exceptions become a `Result` carrying the error code.

Output buffers are modelled as value sequences updated index by index. Every
index is bounds-checked by the verifier, so a proof that a write verifies is a
proof that it lands inside the buffer.

## Model

| member | source | states |
|---|---|---|
| `AppendTrailingChar.AppendRowSpec` | src/Functions/appendTrailingCharIfAbsent.cpp:96-101 | A row is unchanged exactly when it is empty or already ends in `c`; otherwise it becomes the row followed by exactly one `c`; the result is always empty or ends in `c` |
| `AppendTrailingChar.AppendRowsExtend` | src/Functions/appendTrailingCharIfAbsent.cpp:92-101 | Each output row has its input row as a prefix and is the same length or one byte longer, one longer exactly when the input row is non-empty and does not end in `c` |
| `AppendTrailingChar.AppendRowsIdempotent` | src/Functions/appendTrailingCharIfAbsent.cpp:96-101 | Applying the row transformation twice with the same `c` gives the same rows as applying it once |
| `AppendTrailingChar.AppendTrailingCharKernel` | src/Functions/appendTrailingCharIfAbsent.cpp:74-107 | For a valid input column, the loop returns a valid column (terminators in place, offsets strictly increasing, final offset equal to the data length), with the same number of rows, whose rows are the input rows transformed by `AppendRow`, and whose data is at most input size plus row count |
| `AppendTrailingChar.KernelRow` | src/Functions/appendTrailingCharIfAbsent.cpp:89-104 | One iteration for row `i` keeps the loop invariant: source position at the start of the next row, output equal to the encoding of the first `i + 1` output rows, and write position at most source position plus rows processed, so within the buffer of line 83 |
| `AppendTrailingChar.AppendRowAt` | src/Functions/appendTrailingCharIfAbsent.cpp:91-101 | Copying a row with its terminator and, when the last byte read back at `dst_offset - 2` differs from `c`, overwriting the terminator with `c` and writing a new terminator, leaves the earlier output intact and appends exactly `AppendRow(row, c)` and a terminator |
| `AppendTrailingChar.CopyBytes` | src/Functions/appendTrailingCharIfAbsent.cpp:92 | The row copy writes exactly the `src_length` source bytes at the destination position and leaves the bytes before it unchanged |
| `AppendTrailingChar.RowLayout` | src/Functions/appendTrailingCharIfAbsent.cpp:91-93 | In a valid column, `src_offsets[i] - src_offset` spans row `i` and its terminator, and the next row starts at `src_offsets[i]` |
| `ColumnStrings.EncodeValid` | src/Functions/appendTrailingCharIfAbsent.cpp:98-106 | Writing rows as bytes plus terminator and recording each running end gives a valid layout that decodes back to exactly those rows |
| `ColumnStrings.DecodeEncode` | src/Functions/appendTrailingCharIfAbsent.cpp:76-77 | A valid column is determined by its rows: re-encoding the decoded rows reproduces both buffers |
| `ColumnStrings.PushRowRows` | src/Functions/appendTrailingCharIfAbsent.cpp:98-103 | Appending one row and its terminator to a valid column keeps it valid and adds exactly that row after the existing ones |
| `ColumnStrings.DropLastRows` | src/Functions/appendTrailingCharIfAbsent.cpp:91-93 | Cutting a valid column at the start of its last row keeps it valid and keeps all earlier rows |
| `ColumnStrings.PushRowDropLast` | src/Functions/appendTrailingCharIfAbsent.cpp:91-93 | Pushing the last row back onto the column without it restores the original buffers |
| `FunctionAppendTrailingChar.ReturnType` | src/Functions/appendTrailingCharIfAbsent.cpp:45-54 | Type checking succeeds exactly when both arguments are `String`, with result type `String`; otherwise it fails with ILLEGAL_TYPE_OF_ARGUMENT |
| `FunctionAppendTrailingChar.Execute` | src/Functions/appendTrailingCharIfAbsent.cpp:59-112 | A second argument that is not a constant String fails with ILLEGAL_COLUMN; one whose value is not one byte long fails with BAD_ARGUMENTS; after those, a first argument that is not a String column fails with ILLEGAL_COLUMN; it succeeds exactly otherwise, with a valid String column of the same row count holding the transformed rows |
| `FunctionAppendTrailingChar.ExecuteImpl` | src/Functions/appendTrailingCharIfAbsent.cpp:61-111 | Reading the constant's value from its data column and running the flat-buffer loop gives exactly the result of `Execute`, errors included |
| `FunctionAppendTrailingChar.ExecuteIdempotent` | src/Functions/appendTrailingCharIfAbsent.cpp:72-107 | Executing the function on its own successful result with the same character argument gives that same result again |

## Left out

- Function registration and framework plumbing (`create`, `getName`, the short-circuit flag, `useDefaultImplementationForConstants`, `getArgumentsThatAreAlwaysConstant`, `REGISTER_FUNCTION`). These are framework glue with no behaviour of their own.
- The argument count. The framework checks it against `getNumberOfArguments`; the model takes exactly two arguments.
- How the framework unwraps constant or Nullable arguments before calling the function. `DataType` only tells `String` apart from every other type, which is what `isString` decides.
- The unused `input_rows_count` argument. The result's row count comes from the input column.
- The 15-byte over-read and over-write slack of `memcpySmallAllowReadWriteOverflow15`. It is modelled as an exact copy of `src_length` bytes, because the padding is an allocator detail outside this code.
- The 64-bit width of offsets. Offsets are unbounded naturals, because column sizes never approach 2^64.
- `PODArray` resizing. `resize` of the data buffer becomes a zero-filled sequence and `resize_assume_reserved` becomes a prefix slice. The offsets are appended row by row instead of being written into a pre-sized array; the resulting sequence is the same.
- Exception message texts. Only the error codes are modelled.
- src/Storages/MergeTree/MergeTreePartition.h. It declares the partition-value interface (`getID`, `tryParseValueFromID`, `store`, `load`, `create`, `createAndValidateMinMaxPartitionIds`, `adjustPartitionKey`), but the bodies of those operations are not part of this model. Its only visible behaviour is trivial constructors and `assign`.
