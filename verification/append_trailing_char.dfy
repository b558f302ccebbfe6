/**
 The column kernel of `appendTrailingCharIfAbsent`: every non-empty row that
 does not already end in the byte `c` gets one `c` appended; every other row
 is copied unchanged.

 The row-level and column-level definitions are the specification; the
 method `AppendTrailingCharKernel` is the engine's loop over the flat
 `chars`/`offsets` buffers, proved to compute exactly that specification and
 to write only inside the buffer it allocates.
 */
module AppendTrailingChar {

  import opened ColumnStrings

  /** `row` is non-empty and its last byte is `c`. */
  predicate EndsWith(row: Row, c: byte) {
    |row| > 0 && row[|row| - 1] == c
  }

  /** The function applied to one row. */
  function AppendRow(row: Row, c: byte): Row {
    if |row| > 0 && row[|row| - 1] != c then row + [c] else row
  }

  /**
   A row is left unchanged exactly when it is empty or already ends in `c`;
   otherwise it gains exactly one trailing `c`. Either way the result is
   empty or ends in `c`.
   */
  lemma AppendRowSpec(row: Row, c: byte)
    ensures AppendRow(row, c) == row <==> (|row| == 0 || EndsWith(row, c))
    ensures AppendRow(row, c) != row ==> AppendRow(row, c) == row + [c]
    ensures |AppendRow(row, c)| == 0 || EndsWith(AppendRow(row, c), c)
  {
    if |row| > 0 && row[|row| - 1] != c {
      assert |AppendRow(row, c)| != |row|;
    }
  }

  /** The function applied row by row to a whole column. */
  function AppendRows(rows: seq<Row>, c: byte): (rs: seq<Row>)
    ensures |rs| == |rows|
  {
    seq(|rows|, i requires 0 <= i < |rows| => AppendRow(rows[i], c))
  }

  /**
   Each output row starts with its input row and is at most one byte longer;
   it is longer exactly when the input row is non-empty and does not end in `c`.
   */
  lemma AppendRowsExtend(rows: seq<Row>, c: byte, i: nat)
    requires i < |rows|
    ensures |rows[i]| <= |AppendRows(rows, c)[i]| <= |rows[i]| + 1
    ensures AppendRows(rows, c)[i][..|rows[i]|] == rows[i]
    ensures |AppendRows(rows, c)[i]| == |rows[i]| + 1 <==> |rows[i]| > 0 && !EndsWith(rows[i], c)
  {
  }

  /** Applying the function a second time with the same byte changes nothing. */
  lemma AppendRowsIdempotent(rows: seq<Row>, c: byte)
    ensures AppendRows(AppendRows(rows, c), c) == AppendRows(rows, c)
  {
  }

  /**
   Row `i` of a valid column sits between `Start(i)` and `offsets[i]`, followed
   by its terminator.
   */
  lemma RowLayout(src: ColumnString, i: nat)
    requires src.Valid() && i < src.Size()
    ensures src.Start(i) < src.offsets[i] <= |src.chars|
    ensures src.Start(i + 1) == src.offsets[i]
    ensures src.chars[src.Start(i) .. src.offsets[i]] == src.Rows()[i] + [0]
  {
    if i > 0 {
      assert src.offsets[i - 1] < src.offsets[i];
    }
  }

  /**
   One step of the kernel's loop invariant: writing output row `i` and a
   terminator after the encoding of the first `i` output rows, and recording
   where it ends, gives the encoding of the first `i + 1`.
   */
  lemma KernelStep(out: seq<Row>, i: nat, before: seq<byte>, offsets: seq<nat>, written: seq<byte>)
    requires i < |out|
    requires ColumnString(before, offsets) == Encode(out[..i])
    requires written == before + out[i] + [0]
    ensures ColumnString(written, offsets + [|written|]) == Encode(out[..i + 1])
  {
    assert out[..i + 1][..i] == out[..i];
  }

  /** A fresh buffer of `n` bytes. */
  function Zeros(n: nat): (r: seq<byte>)
    ensures |r| == n
  {
    if n == 0 then [] else Zeros(n - 1) + [0]
  }

  /**
   Copies `len` bytes of `src` starting at `from` over the bytes of `dst`
   starting at `at`, leaving the bytes before `at` alone.
   */
  method CopyBytes(dst: seq<byte>, at: nat, src: seq<byte>, from: nat, len: nat) returns (res: seq<byte>)
    requires from + len <= |src| && at + len <= |dst|
    ensures |res| == |dst|
    ensures res[..at] == dst[..at]
    ensures res[at .. at + len] == src[from .. from + len]
  {
    res := dst;
    for k := 0 to len
      invariant |res| == |dst|
      invariant res[..at] == dst[..at]
      invariant res[at .. at + k] == src[from .. from + k]
    {
      res := res[at + k := src[from + k]];
      assert res[at .. at + k + 1] == res[at .. at + k] + [res[at + k]];
    }
  }

  /**
   One iteration of the engine's loop: copies `row` and its terminator, found
   at `srcOffset` in `src`, to `dstOffset`; then, when the row is non-empty and
   its last byte differs from `c`, overwrites the copied terminator with `c`
   and writes a new terminator after it. Returns the updated buffer and the
   end of the written row.
   */
  method AppendRowAt(dst: seq<byte>, dstOffset: nat, src: seq<byte>, srcOffset: nat, srcLength: nat, c: byte,
                     ghost row: Row)
    returns (res: seq<byte>, end: nat)
    requires srcOffset + srcLength <= |src| && src[srcOffset .. srcOffset + srcLength] == row + [0]
    requires dstOffset + srcLength < |dst|
    ensures |res| == |dst|
    ensures end <= dstOffset + srcLength + 1
    ensures res[..end] == dst[..dstOffset] + AppendRow(row, c) + [0]
  {
    res := CopyBytes(dst, dstOffset, src, srcOffset, srcLength);
    end := dstOffset + srcLength;
    assert res[..end] == dst[..dstOffset] + row + [0] by {
      assert res[..end] == res[..dstOffset] + res[dstOffset .. end];
    }
    assert srcLength > 1 ==> res[end - 2] == row[|row| - 1];
    if srcLength > 1 && res[end - 2] != c {
      res := res[end - 1 := c][end := 0];
      end := end + 1;
      assert res[..end] == dst[..dstOffset] + (row + [c]) + [0];
    }
  }

  /**
   The kernel's loop invariant after `i` rows: the source has been read up to
   the start of row `i`, the output so far is exactly the encoding of the
   first `i` output rows, and it is no longer than the source read so far
   plus one byte per row, so it stays inside the buffer.
   */
  ghost predicate Progress(src: ColumnString, c: byte, i: nat, srcOffset: nat,
                           dstData: seq<byte>, dstOffset: nat, dstOffsets: seq<nat>)
  {
    && src.Valid()
    && i <= src.Size()
    && |dstData| == |src.chars| + src.Size()
    && srcOffset == src.Start(i)
    && dstOffset <= srcOffset + i
    && ColumnString(dstData[..dstOffset], dstOffsets) == Encode(AppendRows(src.Rows(), c)[..i])
  }

  /**
   One iteration of the engine's loop, for row `i`: the row is written to the
   output at `dstOffset` with `c` appended if absent, the read and write
   positions move past it, and its end is recorded as output offset `i`.
   */
  method KernelRow(src: ColumnString, c: byte, i: nat, srcOffset: nat,
                   dstData: seq<byte>, dstOffset: nat, dstOffsets: seq<nat>)
    returns (srcOffset': nat, dstData': seq<byte>, dstOffset': nat, dstOffsets': seq<nat>)
    requires i < src.Size()
    requires Progress(src, c, i, srcOffset, dstData, dstOffset, dstOffsets)
    ensures Progress(src, c, i + 1, srcOffset', dstData', dstOffset', dstOffsets')
  {
    ghost var out := AppendRows(src.Rows(), c);
    RowLayout(src, i);
    ghost var before := dstData[..dstOffset];
    var srcLength := src.offsets[i] - srcOffset;
    var end;
    dstData', end := AppendRowAt(dstData, dstOffset, src.chars, srcOffset, srcLength, c, src.Rows()[i]);
    KernelStep(out, i, before, dstOffsets, dstData'[..end]);
    srcOffset' := src.offsets[i];
    dstOffset' := end;
    dstOffsets' := dstOffsets + [dstOffset'];
  }

  /**
   The engine's loop over a flat String column, one `KernelRow` per row.
   The output buffer is allocated once with room for every input byte plus
   one extra byte per row, and is cut down to the bytes written at the end.
   */
  method AppendTrailingCharKernel(src: ColumnString, c: byte) returns (dst: ColumnString)
    requires src.Valid()
    ensures dst.Valid()
    ensures dst.Size() == src.Size()
    ensures dst.Rows() == AppendRows(src.Rows(), c)
    ensures |dst.chars| <= |src.chars| + src.Size()
  {
    var size := |src.offsets|;
    var dstData := Zeros(|src.chars| + size);
    var dstOffsets: seq<nat> := [];
    var srcOffset: nat := 0;
    var dstOffset: nat := 0;
    for i := 0 to size
      invariant Progress(src, c, i, srcOffset, dstData, dstOffset, dstOffsets)
    {
      srcOffset, dstData, dstOffset, dstOffsets := KernelRow(src, c, i, srcOffset, dstData, dstOffset, dstOffsets);
    }
    dst := ColumnString(dstData[..dstOffset], dstOffsets);
    ghost var out := AppendRows(src.Rows(), c);
    assert out[..size] == out;
    EncodeValid(out);
  }
}
