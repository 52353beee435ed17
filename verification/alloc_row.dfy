/**
 * AllocRow: one allocation as a table row, and the adapter that exposes
 * it as the columns id, allocatedClass, size, thread and stackTrace.
 */
module AllocRows {
  import opened JavaLang
  import opened Rows

  /** All fields final; the trace is an immutable copy of the frames given. */
  datatype AllocRow = AllocRow(
    id: Int32,
    allocatedClass: string,
    bytes: Int32,
    thread: Int32,
    stackTrace: seq<StackTraceElement>)

  const Columns: seq<string> := ["id", "allocatedClass", "size", "thread", "stackTrace"]

  /** The integer columns compare as numbers, the class name and the trace as text. */
  const Types: seq<CoerceType> := [NUMERIC, TEXT, NUMERIC, NUMERIC, TEXT]

  /** Adapter.get: the field behind each column ("size" is `bytes`); any other name throws. */
  function Get(row: AllocRow, column: string): (v: Option<Value>)
    ensures v.Some? <==> column in Columns
    ensures v.Some? && column != "stackTrace" ==> v.value.Int? || v.value.Str?
  {
    match column
    case "id" => Some(Int(row.id))
    case "allocatedClass" => Some(Str(row.allocatedClass))
    case "size" => Some(Int(row.bytes))
    case "thread" => Some(Int(row.thread))
    case "stackTrace" => Some(Frames(row.stackTrace))
    case _ => None
  }

  const Adapter: RowAdapter<AllocRow> := RowAdapter(Columns, Types, Get)

  /** Every column has a kind, and a column has a kind exactly when `get` knows it. */
  lemma AdapterKinds(row: AllocRow, column: string)
    ensures ColumnType(Adapter, column).Some? <==> Get(row, column).Some?
    ensures ColumnType(Adapter, column) == Some(NUMERIC) <==> column in ["id", "size", "thread"]
  {
    var i := IndexOf(Columns, column);
    if i.Some? {
      assert Columns[i.value] == column;
    }
  }
}
