/**
 * The row/column abstraction the query engine works through. A table's
 * rows are read only through a `RowAdapter`: an ordered list of column
 * names, a parallel list of column kinds, and a `get(row, column)` that
 * hands out the column's value as an Object (here a `Value`), or throws
 * for a column the row kind does not have (here `None`).
 */
module Rows {
  import opened JavaLang

  /** How a column is compared by the filter engine. */
  datatype CoerceType = NUMERIC | TEXT

  /** The Objects adapters hand out: a boxed Integer or Long, a String, or a List<StackTraceElement>. */
  datatype Value = Int(n: int) | Str(s: string) | Frames(frames: seq<StackTraceElement>)

  /** The exceptions the query engine can raise. */
  datatype TableError =
    | IllegalArgument     // adapter.get on a column the row kind does not have
    | IndexOutOfBounds    // types.get(-1) for a column missing from the adapter
    | NumberFormat        // Long.parseLong on a non-numeric string
    | ClassCast           // a sort key that is not Comparable, or of mixed kinds
    | NullPointer         // sortOn with no sort columns

  datatype RowAdapter<!R> = RowAdapter(
    columns: seq<string>,
    types: seq<CoerceType>,
    get: (R, string) -> Option<Value>)

  /** List.indexOf: the first position holding `x`, or None where Java returns -1. */
  function IndexOf(xs: seq<string>, x: string): (r: Option<nat>)
    ensures r.Some? ==> r.value < |xs| && xs[r.value] == x && forall k | 0 <= k < r.value :: xs[k] != x
    ensures r.None? <==> x !in xs
  {
    if xs == [] then None
    else if xs[0] == x then Some(0)
    else match IndexOf(xs[1..], x)
      case None => None
      case Some(i) => Some(i + 1)
  }

  /** The column kind RowAdapter.types.get(columns.indexOf(column)) gives, when both lookups succeed. */
  function ColumnType<R>(adapter: RowAdapter<R>, column: string): (r: Option<CoerceType>)
    ensures r.Some? <==> IndexOf(adapter.columns, column).Some? && IndexOf(adapter.columns, column).value < |adapter.types|
    ensures r.Some? ==> r.value == adapter.types[IndexOf(adapter.columns, column).value]
  {
    match IndexOf(adapter.columns, column)
    case None => None
    case Some(i) => if i < |adapter.types| then Some(adapter.types[i]) else None
  }

  /** AbstractCollection.toString of a list of frames: "[a, b, c]". */
  function FramesToString(lib: Library, frames: seq<StackTraceElement>): (r: string)
    ensures |r| >= 2 && r[0] == '[' && r[|r| - 1] == ']'
    ensures frames == [] ==> r == "[]"
  {
    "[" + JoinFrames(lib, frames) + "]"
  }

  function JoinFrames(lib: Library, frames: seq<StackTraceElement>): string {
    if frames == [] then ""
    else if |frames| == 1 then lib.steToString(frames[0])
    else lib.steToString(frames[0]) + ", " + JoinFrames(lib, frames[1..])
  }

  /** Object.toString of an adapter value. */
  function ValueToString(lib: Library, v: Value): string {
    match v
    case Int(n) => IntToString(n)
    case Str(s) => s
    case Frames(fs) => FramesToString(lib, fs)
  }

  /** A number prints as its decimal digits and parses back to itself. */
  lemma NumbersRoundTrip(lib: Library, n: int)
    requires MinLong <= n <= MaxLong
    ensures ParseLong(ValueToString(lib, Int(n))) == Some(n)
  {
    ParseLongOfIntToString(n);
  }

  /** The pairs `Ordering.natural()` can compare: two Integers or two Strings; anything else is a ClassCastException. */
  predicate Comparable(a: Value, b: Value) {
    (a.Int? && b.Int?) || (a.Str? && b.Str?)
  }

  /** Ordering.natural().compare: Integer.compareTo or String.compareTo. */
  function NaturalCompare(a: Value, b: Value): (c: int)
    requires Comparable(a, b)
    ensures c == 0 <==> a == b
    ensures a.Int? ==> (c < 0 <==> a.n < b.n)
  {
    if a.Int? then LongCompare(a.n, b.n) else CompareTo(a.s, b.s)
  }

  lemma NaturalCompareAntisymmetric(a: Value, b: Value)
    requires Comparable(a, b)
    ensures NaturalCompare(a, b) < 0 <==> NaturalCompare(b, a) > 0
    ensures NaturalCompare(a, b) == 0 <==> NaturalCompare(b, a) == 0
  {
    if a.Str? {
      CompareToAntisymmetric(a.s, b.s);
    }
  }

  lemma NaturalCompareTransitive(a: Value, b: Value, c: Value)
    requires Comparable(a, b) && Comparable(b, c)
    ensures NaturalCompare(a, b) < 0 && NaturalCompare(b, c) < 0 ==> NaturalCompare(a, c) < 0
    ensures NaturalCompare(a, b) <= 0 && NaturalCompare(b, c) <= 0 ==> NaturalCompare(a, c) <= 0
  {
    if a.Str? {
      CompareToTransitive(a.s, b.s, c.s);
    }
  }
}
