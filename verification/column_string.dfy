/**
 The flattened layout of a String column.

 All rows of a column share one byte buffer `chars`; every row is stored
 followed by a single `0` terminator byte. `offsets[i]` is the exclusive end
 of row `i` in `chars`, terminator included, and row `i` starts where row
 `i - 1` ends (the engine reads `offsets[-1]` as `0`). A row may itself
 contain `0` bytes: rows are delimited by the offsets, never by scanning.
 */
module ColumnStrings {

  type byte = bv8

  /** One row of a String column, without its terminator. */
  type Row = seq<byte>

  datatype ColumnString = ColumnString(chars: seq<byte>, offsets: seq<nat>) {

    /** Number of rows. */
    function Size(): nat {
      |offsets|
    }

    /** Start of row `i` in `chars`; `Start(Size())` is the end of the last row. */
    function Start(i: nat): nat
      requires i <= |offsets|
    {
      if i == 0 then 0 else offsets[i - 1]
    }

    /**
     The layout invariant: offsets strictly increase; every row occupies at
     least its terminator, which is a `0` byte inside `chars`; and the last
     offset is the length of `chars`.
     */
    predicate Valid() {
      && (forall i, j :: 0 <= i < j < |offsets| ==> offsets[i] < offsets[j])
      && (forall i :: 0 <= i < |offsets| ==> 0 < offsets[i] <= |chars| && chars[offsets[i] - 1] == 0)
      && Start(|offsets|) == |chars|
    }

    /** Bytes of row `i`, without the terminator. */
    function Row(i: nat): (r: Row)
      requires Valid() && i < |offsets|
      ensures |r| == offsets[i] - Start(i) - 1
    {
      chars[Start(i) .. offsets[i] - 1]
    }

    /** The rows this buffer holds. */
    function Rows(): (rs: seq<Row>)
      requires Valid()
      ensures |rs| == Size()
    {
      seq(|offsets|, i requires 0 <= i < |offsets| => Row(i))
    }
  }

  /** The column with `row` inserted after its last row. */
  function PushRow(col: ColumnString, row: Row): ColumnString {
    ColumnString(col.chars + row + [0], col.offsets + [|col.chars| + |row| + 1])
  }

  /** The column without its last row. */
  function DropLast(col: ColumnString): ColumnString
    requires col.Valid() && col.Size() > 0
  {
    ColumnString(col.chars[..col.Start(col.Size() - 1)], col.offsets[..col.Size() - 1])
  }

  /** The column that holds `rows`, built by inserting them one by one. */
  function Encode(rows: seq<Row>): (col: ColumnString)
    ensures col.Size() == |rows|
  {
    if |rows| == 0 then ColumnString([], []) else PushRow(Encode(rows[..|rows| - 1]), rows[|rows| - 1])
  }

  /** Inserting a row keeps a valid layout valid. */
  lemma PushRowValid(col: ColumnString, row: Row)
    requires col.Valid()
    ensures PushRow(col, row).Valid()
  {
    var n := col.Size();
    var res := PushRow(col, row);
    assert res.Start(n) == |col.chars| by {
      assert col.Start(n) == |col.chars|;
    }
    forall i | 0 <= i < n + 1
      ensures 0 < res.offsets[i] <= |res.chars| && res.chars[res.offsets[i] - 1] == 0
    {
      if i < n {
        assert res.offsets[i] == col.offsets[i];
      }
    }
    forall i, j | 0 <= i < j < n + 1
      ensures res.offsets[i] < res.offsets[j]
    {
      assert res.offsets[i] == col.offsets[i];
      if j < n {
        assert res.offsets[j] == col.offsets[j];
      }
    }
  }

  /** Inserting a row adds it after the rows already held and keeps them. */
  lemma PushRowRows(col: ColumnString, row: Row)
    requires col.Valid()
    ensures PushRow(col, row).Valid()
    ensures PushRow(col, row).Rows() == col.Rows() + [row]
  {
    PushRowValid(col, row);
    var n := col.Size();
    var res := PushRow(col, row);
    forall i | 0 <= i < n + 1
      ensures res.Row(i) == (col.Rows() + [row])[i]
    {
      if i < n {
        assert res.Start(i) == col.Start(i);
        assert res.offsets[i] == col.offsets[i];
        assert res.Row(i) == col.Row(i);
      } else {
        assert col.Start(n) == |col.chars|;
        assert res.chars[|col.chars| .. |col.chars| + |row|] == row;
      }
    }
  }

  /** Dropping the last row keeps the layout valid. */
  lemma DropLastValid(col: ColumnString)
    requires col.Valid() && col.Size() > 0
    ensures DropLast(col).Valid()
  {
    var n := col.Size();
    var pre := DropLast(col);
    forall i | 0 <= i < n - 1
      ensures 0 < pre.offsets[i] <= |pre.chars| && pre.chars[pre.offsets[i] - 1] == 0
    {
      assert col.offsets[i] <= col.offsets[n - 2];
    }
  }

  /** Dropping the last row keeps the other rows. */
  lemma DropLastRows(col: ColumnString)
    requires col.Valid() && col.Size() > 0
    ensures DropLast(col).Valid()
    ensures DropLast(col).Rows() == col.Rows()[..col.Size() - 1]
  {
    DropLastValid(col);
    var n := col.Size();
    var pre := DropLast(col);
    forall i | 0 <= i < n - 1
      ensures pre.Row(i) == col.Row(i)
    {
      assert pre.Start(i) == col.Start(i);
      assert pre.offsets[i] == col.offsets[i] <= col.offsets[n - 2] == |pre.chars|;
      assert pre.chars[pre.Start(i) .. pre.offsets[i] - 1] == col.chars[col.Start(i) .. col.offsets[i] - 1];
    }
  }

  /** Inserting the last row back undoes dropping it. */
  lemma PushRowDropLast(col: ColumnString)
    requires col.Valid() && col.Size() > 0
    ensures PushRow(DropLast(col), col.Row(col.Size() - 1)) == col
  {
    var n := col.Size();
    var s := col.Start(n - 1);
    assert col.chars == col.chars[..s] + col.Row(n - 1) + [0];
    assert col.offsets == col.offsets[..n - 1] + [col.offsets[n - 1]];
  }

  /** Encoding any rows gives a valid layout that holds exactly those rows. */
  lemma {:induction false} EncodeValid(rows: seq<Row>)
    ensures Encode(rows).Valid()
    ensures Encode(rows).Rows() == rows
    decreases |rows|
  {
    if |rows| > 0 {
      var n := |rows|;
      EncodeValid(rows[..n - 1]);
      PushRowRows(Encode(rows[..n - 1]), rows[n - 1]);
      assert rows[..n - 1] + [rows[n - 1]] == rows;
    }
  }

  /**
   The layout is determined by the rows it holds: decoding a valid column and
   encoding the rows again gives back the same buffers.
   */
  lemma {:induction false} DecodeEncode(col: ColumnString)
    requires col.Valid()
    ensures Encode(col.Rows()) == col
    decreases col.Size()
  {
    var n := col.Size();
    if n > 0 {
      var rows := col.Rows();
      DropLastRows(col);
      DecodeEncode(DropLast(col));
      PushRowDropLast(col);
      assert Encode(rows) == PushRow(Encode(rows[..n - 1]), rows[n - 1]);
    }
  }
}
