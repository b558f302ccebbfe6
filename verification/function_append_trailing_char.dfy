/**
 The SQL function `appendTrailingCharIfAbsent(s, c)` as the engine calls it:
 argument type checking, then execution on the argument columns.

 The first argument must be a String; the second must be a constant String of
 exactly one byte. Errors are returned as the engine's error codes instead of
 being thrown.
 */
module FunctionAppendTrailingChar {

  import opened ColumnStrings
  import opened AppendTrailingChar

  /** The engine error codes this function raises. */
  datatype ErrorCode = IllegalTypeOfArgument | IllegalColumn | BadArguments

  datatype Result<T> = Ok(value: T) | Err(code: ErrorCode)

  /** Argument data types: only whether a type is exactly `String` matters here. */
  datatype DataType = StringType | OtherType(name: string)

  /**
   Argument columns: a plain String column, a constant column that repeats the
   single row of its data column `size` times, or a column of any other kind.
   */
  datatype Column =
    | Strings(strings: ColumnString)
    | Const(data: Column, size: nat)
    | OtherColumn(name: string, rows: nat)

  /** Number of rows of a column. */
  function RowCount(column: Column): nat {
    match column
    case Strings(s) => s.Size()
    case Const(_, size) => size
    case OtherColumn(_, rows) => rows
  }

  /**
   What the column types guarantee by construction: a String column has a
   valid layout, and a constant column wraps a data column of exactly one row.
   */
  predicate ValidColumn(column: Column) {
    match column
    case Strings(s) => s.Valid()
    case Const(data, _) => ValidColumn(data) && RowCount(data) == 1
    case OtherColumn(_, _) => true
  }

  /** The column is a constant whose data column is a String column. */
  predicate IsConstString(column: Column) {
    column.Const? && column.data.Strings?
  }

  /** The value of a constant String column: the single row of its data column. */
  function ConstString(column: Column): Row
    requires ValidColumn(column) && IsConstString(column)
  {
    assert ValidColumn(column.data);
    column.data.strings.Row(0)
  }

  /**
   Type checking: both arguments must be of type `String`, and the result is
   a `String`.
   */
  function ReturnType(first: DataType, second: DataType): (r: Result<DataType>)
    ensures r.Ok? <==> first == StringType && second == StringType
    ensures r.Ok? ==> r.value == StringType
    ensures r.Err? ==> r.code == IllegalTypeOfArgument
  {
    if first != StringType then Err(IllegalTypeOfArgument)
    else if second != StringType then Err(IllegalTypeOfArgument)
    else Ok(StringType)
  }

  /**
   Execution on the argument columns. The second argument is checked first:
   it must be a constant String column, and its value must be one byte long.
   Only then is the first argument required to be a String column, whose
   rows are transformed by `AppendRow`.
   */
  function Execute(column: Column, charColumn: Column): (r: Result<Column>)
    requires ValidColumn(column) && ValidColumn(charColumn)
    ensures !IsConstString(charColumn) ==> r == Err(IllegalColumn)
    ensures IsConstString(charColumn) && |ConstString(charColumn)| != 1 ==> r == Err(BadArguments)
    ensures IsConstString(charColumn) && |ConstString(charColumn)| == 1 && !column.Strings?
            ==> r == Err(IllegalColumn)
    ensures r.Ok? <==> IsConstString(charColumn) && |ConstString(charColumn)| == 1 && column.Strings?
    ensures r.Ok? ==> && r.value.Strings?
                      && r.value.strings.Valid()
                      && RowCount(r.value) == RowCount(column)
                      && r.value.strings.Rows() == AppendRows(column.strings.Rows(), ConstString(charColumn)[0])
  {
    if !IsConstString(charColumn) then
      Err(IllegalColumn)
    else
      var trailing := ConstString(charColumn);
      if |trailing| != 1 then
        Err(BadArguments)
      else if column.Strings? then
        var out := AppendRows(column.strings.Rows(), trailing[0]);
        EncodeValid(out);
        Ok(Strings(Encode(out)))
      else
        Err(IllegalColumn)
  }

  /**
   The same checks, with the result column computed by the engine's loop over
   the flat buffers.
   */
  method ExecuteImpl(column: Column, charColumn: Column) returns (r: Result<Column>)
    requires ValidColumn(column) && ValidColumn(charColumn)
    ensures r == Execute(column, charColumn)
  {
    if !IsConstString(charColumn) {
      return Err(IllegalColumn);
    }
    var trailing := charColumn.data.strings.chars[..charColumn.data.strings.offsets[0] - 1];
    assert trailing == ConstString(charColumn);
    if |trailing| != 1 {
      return Err(BadArguments);
    }
    if column.Strings? {
      var dst := AppendTrailingCharKernel(column.strings, trailing[0]);
      DecodeEncode(dst);
      return Ok(Strings(dst));
    }
    return Err(IllegalColumn);
  }

  /**
   Applying the function to its own result with the same character gives the
   same result again.
   */
  lemma ExecuteIdempotent(column: Column, charColumn: Column)
    requires ValidColumn(column) && ValidColumn(charColumn)
    requires Execute(column, charColumn).Ok?
    ensures ValidColumn(Execute(column, charColumn).value)
    ensures Execute(Execute(column, charColumn).value, charColumn) == Execute(column, charColumn)
  {
    var c := ConstString(charColumn)[0];
    var once := Execute(column, charColumn).value;
    var out := AppendRows(column.strings.Rows(), c);
    assert once.strings.Rows() == out;
    AppendRowsIdempotent(column.strings.Rows(), c);
    assert AppendRows(out, c) == out;
  }
}
