/**
 * AggregateRow: one group of a grouped table, with its aggregated weight,
 * and the adapter that exposes it as the columns weight and group.
 */
module AggregateRows {
  import opened JavaLang
  import opened Rows

  /** The aggregate (a long) and the group key, which is the grouped column's string form. */
  datatype AggregateRow = AggregateRow(value: int, group: string)

  const Columns: seq<string> := ["weight", "group"]

  /** weight is always NUMERIC; group takes the kind of the column that was grouped on. */
  function Types(groupNumeric: bool): (ts: seq<CoerceType>)
    ensures |ts| == |Columns|
  {
    [NUMERIC, if groupNumeric then NUMERIC else TEXT]
  }

  /** Adapter.get: "weight" is the value, "group" the key; any other name throws. */
  function Get(row: AggregateRow, column: string): (v: Option<Value>)
    ensures v.Some? <==> column in Columns
  {
    match column
    case "weight" => Some(Int(row.value))
    case "group" => Some(Str(row.group))
    case _ => None
  }

  function Adapter(groupNumeric: bool): RowAdapter<AggregateRow> {
    RowAdapter(Columns, Types(groupNumeric), Get)
  }

  /** The column kinds of a grouped table. */
  lemma AdapterKinds(groupNumeric: bool)
    ensures ColumnType(Adapter(groupNumeric), "weight") == Some(NUMERIC)
    ensures ColumnType(Adapter(groupNumeric), "group") == Some(if groupNumeric then NUMERIC else TEXT)
    ensures forall c :: ColumnType(Adapter(groupNumeric), c).Some? <==> c in Columns
  {
    assert IndexOf(Columns, "weight") == Some(0);
    assert IndexOf(Columns, "group") == Some(1);
  }
}
