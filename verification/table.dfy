/**
 * Tables: a list of rows behind a column adapter, and the three
 * operations that rewrite it in place: `sortOn` (a stable sort on one or
 * more columns), `matching` (keep the rows that pass a filter) and
 * `groupAndAggregate` (a new table with one row per group).
 */
module Tables {
  import opened JavaLang
  import opened Rows
  import opened FilterSpecs
  import opened Orderings
  import opened AggregateRows
  import Aggregation

  // ---------------------------------------------------------------------
  // sortOn

  function SortKeys(cols: seq<string>): (ks: seq<SortKey>)
    ensures |ks| == |cols| && forall i | 0 <= i < |cols| :: ks[i] == ParseSortKey(cols[i])
  {
    seq(|cols|, i requires 0 <= i < |cols| => ParseSortKey(cols[i]))
  }

  function Descending(keys: seq<SortKey>): (d: seq<bool>)
    ensures |d| == |keys| && forall i | 0 <= i < |keys| :: d[i] == keys[i].descending
  {
    seq(|keys|, i requires 0 <= i < |keys| => keys[i].descending)
  }

  /**
   * One row's sort keys as ColumnOrdering reads them: `adapter.get` throws
   * for an unknown column, and a trace is not Comparable.
   */
  function RowKeys<R>(adapter: RowAdapter<R>, row: R, keys: seq<SortKey>): (r: seq<Cell>)
    ensures |r| == |keys|
    ensures forall k | 0 <= k < |keys| ::
      (r[k].Ok? <==> adapter.get(row, keys[k].column).Some? && !adapter.get(row, keys[k].column).value.Frames?) &&
      (r[k].Ok? ==> adapter.get(row, keys[k].column) == Some(r[k].value)) &&
      (r[k] == Err(IllegalArgument) <==> adapter.get(row, keys[k].column).None?)
  {
    seq(|keys|, k requires 0 <= k < |keys| =>
      match adapter.get(row, keys[k].column)
      case None => Err(IllegalArgument)
      case Some(v) => if v.Frames? then Err(ClassCast) else Ok(v))
  }

  function KeyTable<R>(adapter: RowAdapter<R>, rows: seq<R>, keys: seq<SortKey>): (t: seq<seq<Cell>>)
    ensures |t| == |rows| && Shaped(Descending(keys), t)
    ensures forall i | 0 <= i < |rows| :: t[i] == RowKeys(adapter, rows[i], keys)
  {
    seq(|rows|, i requires 0 <= i < |rows| => RowKeys(adapter, rows[i], keys))
  }

  /**
   * order.sortedCopy(rows) for the compound order of `keys`. If some two
   * rows cannot be compared, the sort throws; the exception reported is
   * that of the first such pair in row order.
   */
  function SortedCopy<R>(adapter: RowAdapter<R>, rows: seq<R>, keys: seq<SortKey>): (r: Result<seq<R>, TableError>)
    ensures r.Ok? ==> |r.value| == |rows|
  {
    var desc := Descending(keys);
    var vals := KeyTable(adapter, rows, keys);
    match Clash(desc, vals, |rows|)
    case Some(e) => Err(e)
    case None =>
      ClashFreeSortable(desc, vals);
      var perm := SortIndices(desc, vals, |rows|);
      SortIndicesPermutation(desc, vals, |rows|);
      Ok(seq(|rows|, i requires 0 <= i < |rows| => rows[perm[i]]))
  }

  /** sortOn(cols): with no columns `order` stays null and the call fails. */
  function SortedOn<R>(adapter: RowAdapter<R>, rows: seq<R>, cols: seq<string>): (r: Result<seq<R>, TableError>)
    ensures cols == [] ==> r == Err(NullPointer)
    ensures r.Ok? ==> |r.value| == |rows|
  {
    if cols == [] then Err(NullPointer) else SortedCopy(adapter, rows, SortKeys(cols))
  }

  /**
   * A successful sort lists rows[perm[0]], rows[perm[1]], ... for a
   * permutation perm of the row indices; along it the compound key never
   * decreases, and rows whose keys tie keep their input order.
   */
  lemma SortedOnIsStableSort<R>(adapter: RowAdapter<R>, rows: seq<R>, cols: seq<string>)
    requires SortedOn(adapter, rows, cols).Ok?
    ensures var desc := Descending(SortKeys(cols));
      var vals := KeyTable(adapter, rows, SortKeys(cols));
      Sortable(desc, vals) &&
      var s := SortedOn(adapter, rows, cols).value;
      var perm := SortIndices(desc, vals, |rows|);
      |s| == |rows| == |perm| &&
      (forall i | 0 <= i < |rows| :: perm[i] < |rows| && s[i] == rows[perm[i]]) &&
      (forall i | 0 <= i < |rows| :: i in perm) &&
      (forall i, j | 0 <= i < j < |rows| :: RowCompare(desc, vals, perm[i], perm[j]) <= 0) &&
      (forall i, j | 0 <= i < j < |rows| :: vals[perm[i]] == vals[perm[j]] ==> perm[i] < perm[j])
  {
    var desc := Descending(SortKeys(cols));
    var vals := KeyTable(adapter, rows, SortKeys(cols));
    ClashFreeSortable(desc, vals);
    SortIndicesPermutation(desc, vals, |rows|);
    SortIndicesOrdered(desc, vals, |rows|);
  }

  /**
   * sortOn throws exactly when there are no columns, or when two rows agree
   * on keys 0..k-1 and key k of either cannot be read or compared: any
   * comparison sort has to compare such a pair on key k. A key that no
   * comparison reaches is never read.
   */
  lemma SortedOnFails<R>(adapter: RowAdapter<R>, rows: seq<R>, cols: seq<string>)
    ensures var vals := KeyTable(adapter, rows, SortKeys(cols));
      SortedOn(adapter, rows, cols).Err? <==>
        cols == [] ||
        exists x, y, k | 0 <= x < |rows| && 0 <= y < |rows| && x != y && 0 <= k < |cols| :: ClashAt(vals[x], vals[y], k)
  {
    if cols != [] {
      var desc := Descending(SortKeys(cols));
      var vals := KeyTable(adapter, rows, SortKeys(cols));
      ClashFreeSortable(desc, vals);
      forall x, y | 0 <= x < |rows| && 0 <= y < |rows| && x != y
        ensures CompoundCompare(desc, vals[x], vals[y]).Err? <==> exists k | 0 <= k < |cols| :: ClashAt(vals[x], vals[y], k)
      {
        CompoundCompareFails(desc, vals[x], vals[y]);
      }
    }
  }

  /**
   * When the first sort column holds a distinct number for every row, the
   * later columns are never read: the sort succeeds whatever they hold.
   */
  lemma DistinctFirstKeyDecides<R>(adapter: RowAdapter<R>, rows: seq<R>, cols: seq<string>, ids: seq<int>)
    requires cols != [] && |ids| == |rows|
    requires forall x | 0 <= x < |rows| :: adapter.get(rows[x], ParseSortKey(cols[0]).column) == Some(Int(ids[x]))
    requires forall x, y | 0 <= x < y < |rows| :: ids[x] != ids[y]
    ensures SortedOn(adapter, rows, cols).Ok?
  {
    var vals := KeyTable(adapter, rows, SortKeys(cols));
    SortedOnFails(adapter, rows, cols);
    forall x, y, k | 0 <= x < |rows| && 0 <= y < |rows| && x != y && 0 <= k < |cols|
      ensures !ClashAt(vals[x], vals[y], k)
    {
      assert vals[x][0] == Ok(Int(ids[x])) && vals[y][0] == Ok(Int(ids[y]));
      if k > 0 {
        assert ids[x] != ids[y];
        assert vals[x][..k][0] != vals[y][..k][0];
      }
    }
  }

  /** With an empty column list sortOn fails; with fewer than two rows it changes nothing. */
  lemma SortedOnEdges<R>(adapter: RowAdapter<R>, rows: seq<R>, cols: seq<string>)
    ensures SortedOn(adapter, rows, []) == Err(NullPointer)
    ensures cols != [] && |rows| < 2 ==> SortedOn(adapter, rows, cols) == Ok(rows)
  {
    if cols != [] && |rows| < 2 {
      var desc := Descending(SortKeys(cols));
      var vals := KeyTable(adapter, rows, SortKeys(cols));
      assert Clash(desc, vals, |rows|).None?;
      ClashFreeSortable(desc, vals);
      var perm := SortIndices(desc, vals, |rows|);
      assert perm == Range(|rows|);
      var sorted := seq(|rows|, i requires 0 <= i < |rows| => rows[perm[i]]);
      assert sorted == rows;
      assert SortedCopy(adapter, rows, SortKeys(cols)) == Ok(sorted);
    }
  }


  // ---------------------------------------------------------------------
  // matching

  /** The operator that accepts exactly the rows `t` rejects. */
  function Negation(t: FilterType): FilterType {
    match t
    case EQUALS => NOT_EQUALS
    case NOT_EQUALS => EQUALS
    case LESS => GEQ
    case GEQ => LESS
    case LEQ => GREATER
    case GREATER => LEQ
    case RE_MATCH => NOT_RE_MATCH
    case NOT_RE_MATCH => RE_MATCH
    case CONTAINS => NOT_CONTAINS
    case NOT_CONTAINS => CONTAINS
  }

  /** RowFilter.doCompare: the comparison `c` for the ordering operators, the row's string for the others. */
  function DoCompare(lib: Library, spec: FilterSpec, lhsStr: string, c: int): bool {
    match spec.filterType
    case GEQ => c >= 0
    case GREATER => c > 0
    case LEQ => c <= 0
    case LESS => c < 0
    case EQUALS => c == 0
    case NOT_EQUALS => c != 0
    case RE_MATCH => lib.fullMatch(spec.rhs, lhsStr)
    case NOT_RE_MATCH => !lib.fullMatch(spec.rhs, lhsStr)
    case CONTAINS => Contains(lhsStr, spec.rhs)
    case NOT_CONTAINS => !Contains(lhsStr, spec.rhs)
  }

  /**
   * RowFilter.apply: read the column, take its string form, then compare as
   * longs (NUMERIC, where both sides must parse) or as strings (TEXT).
   */
  function RowMatches<R>(lib: Library, adapter: RowAdapter<R>, spec: FilterSpec, row: R): Result<bool, TableError> {
    match adapter.get(row, spec.columnName)
    case None => Err(IllegalArgument)
    case Some(v) =>
      var lhsStr := ValueToString(lib, v);
      match ColumnType(adapter, spec.columnName)
      case None => Err(IndexOutOfBounds)
      case Some(NUMERIC) =>
        (match (ParseLong(lhsStr), ParseLong(spec.rhs))
         case (Some(lhs), Some(rhs)) => Ok(DoCompare(lib, spec, lhsStr, LongCompare(lhs, rhs)))
         case _ => Err(NumberFormat))
      case Some(TEXT) => Ok(DoCompare(lib, spec, lhsStr, CompareTo(lhsStr, spec.rhs)))
  }

  /** The rows that pass, in their order; the first row the filter throws on fails the whole call. */
  function FilterRows<R>(lib: Library, adapter: RowAdapter<R>, spec: FilterSpec, rows: seq<R>): (r: Result<seq<R>, TableError>)
    ensures r.Ok? ==> |r.value| <= |rows|
  {
    if rows == [] then Ok([])
    else
      var keep :- RowMatches(lib, adapter, spec, rows[0]);
      var rest :- FilterRows(lib, adapter, spec, rows[1..]);
      Ok(if keep then [rows[0]] + rest else rest)
  }

  /** Each negated operator accepts exactly the rows the positive one rejects, and fails on the same rows. */
  lemma NegationComplements<R>(lib: Library, adapter: RowAdapter<R>, spec: FilterSpec, row: R)
    ensures var neg := FilterSpec(spec.columnName, Negation(spec.filterType), spec.rhs);
      (RowMatches(lib, adapter, neg, row).Ok? <==> RowMatches(lib, adapter, spec, row).Ok?) &&
      (RowMatches(lib, adapter, spec, row).Ok? ==>
        RowMatches(lib, adapter, neg, row).value == !RowMatches(lib, adapter, spec, row).value)
  {
    match adapter.get(row, spec.columnName)
    case None =>
    case Some(v) =>
      var lhsStr := ValueToString(lib, v);
      match ColumnType(adapter, spec.columnName)
      case None =>
      case Some(NUMERIC) =>
        if ParseLong(lhsStr).Some? && ParseLong(spec.rhs).Some? {
          DoCompareNegation(lib, spec, lhsStr, LongCompare(ParseLong(lhsStr).value, ParseLong(spec.rhs).value));
        }
      case Some(TEXT) =>
        DoCompareNegation(lib, spec, lhsStr, CompareTo(lhsStr, spec.rhs));
  }

  /** For a fixed comparison and row string, each negated operator answers the opposite of the positive one. */
  lemma DoCompareNegation(lib: Library, spec: FilterSpec, lhsStr: string, c: int)
    ensures DoCompare(lib, FilterSpec(spec.columnName, Negation(spec.filterType), spec.rhs), lhsStr, c) == !DoCompare(lib, spec, lhsStr, c)
  {
  }

  /** matching keeps exactly the rows that pass, and every row was judged without an exception. */
  lemma {:induction false} FilterMembers<R>(lib: Library, adapter: RowAdapter<R>, spec: FilterSpec, rows: seq<R>, x: R)
    requires FilterRows(lib, adapter, spec, rows).Ok?
    ensures forall i | 0 <= i < |rows| :: RowMatches(lib, adapter, spec, rows[i]).Ok?
    ensures x in FilterRows(lib, adapter, spec, rows).value <==> x in rows && RowMatches(lib, adapter, spec, x) == Ok(true)
  {
    if rows != [] {
      FilterMembers(lib, adapter, spec, rows[1..], x);
      assert rows == [rows[0]] + rows[1..];
      forall i | 0 <= i < |rows|
        ensures RowMatches(lib, adapter, spec, rows[i]).Ok?
      {
        if i > 0 {
          assert rows[i] == rows[1..][i - 1];
        }
      }
    }
  }

  /** matching keeps the relative order of rows: it distributes over concatenation. */
  lemma {:induction false} FilterDistributes<R>(lib: Library, adapter: RowAdapter<R>, spec: FilterSpec, a: seq<R>, b: seq<R>)
    requires FilterRows(lib, adapter, spec, a + b).Ok?
    ensures FilterRows(lib, adapter, spec, a).Ok? && FilterRows(lib, adapter, spec, b).Ok?
    ensures FilterRows(lib, adapter, spec, a + b).value ==
      FilterRows(lib, adapter, spec, a).value + FilterRows(lib, adapter, spec, b).value
  {
    if a == [] {
      assert a + b == b;
    } else {
      var ab := a + b;
      assert ab[0] == a[0] && ab[1..] == a[1..] + b;
      FilterDistributes(lib, adapter, spec, a[1..], b);
    }
  }

  /** Filtering twice with the same spec is filtering once. */
  lemma {:induction false} FilterIdempotent<R>(lib: Library, adapter: RowAdapter<R>, spec: FilterSpec, rows: seq<R>)
    requires FilterRows(lib, adapter, spec, rows).Ok?
    ensures FilterRows(lib, adapter, spec, FilterRows(lib, adapter, spec, rows).value) == FilterRows(lib, adapter, spec, rows)
  {
    if rows != [] {
      var rest := FilterRows(lib, adapter, spec, rows[1..]).value;
      FilterIdempotent(lib, adapter, spec, rows[1..]);
      if RowMatches(lib, adapter, spec, rows[0]).value {
        var r := [rows[0]] + rest;
        assert r[0] == rows[0] && r[1..] == rest;
      }
    }
  }

  /** A filter and its negation split the rows between them. */
  lemma {:induction false} FilterPartition<R>(lib: Library, adapter: RowAdapter<R>, spec: FilterSpec, rows: seq<R>)
    requires FilterRows(lib, adapter, spec, rows).Ok?
    ensures var neg := FilterSpec(spec.columnName, Negation(spec.filterType), spec.rhs);
      FilterRows(lib, adapter, neg, rows).Ok? &&
      |FilterRows(lib, adapter, spec, rows).value| + |FilterRows(lib, adapter, neg, rows).value| == |rows|
  {
    if rows != [] {
      NegationComplements(lib, adapter, spec, rows[0]);
      FilterPartition(lib, adapter, spec, rows[1..]);
    }
  }

  /** A NUMERIC column compares the parsed numbers; a value that does not parse fails for every operator. */
  lemma NumericFilter<R>(lib: Library, adapter: RowAdapter<R>, spec: FilterSpec, row: R, n: int, m: int)
    requires ColumnType(adapter, spec.columnName) == Some(NUMERIC)
    requires adapter.get(row, spec.columnName) == Some(Int(n)) && MinLong <= n <= MaxLong
    requires ParseLong(spec.rhs) == Some(m)
    ensures spec.filterType == GREATER ==> RowMatches(lib, adapter, spec, row) == Ok(n > m)
    ensures spec.filterType == GEQ ==> RowMatches(lib, adapter, spec, row) == Ok(n >= m)
    ensures spec.filterType == LESS ==> RowMatches(lib, adapter, spec, row) == Ok(n < m)
    ensures spec.filterType == LEQ ==> RowMatches(lib, adapter, spec, row) == Ok(n <= m)
    ensures spec.filterType == EQUALS ==> RowMatches(lib, adapter, spec, row) == Ok(n == m)
    ensures spec.filterType == NOT_EQUALS ==> RowMatches(lib, adapter, spec, row) == Ok(n != m)
  {
    NumbersRoundTrip(lib, n);
  }

  lemma NumericNeedsNumbers<R>(lib: Library, adapter: RowAdapter<R>, spec: FilterSpec, row: R, v: Value)
    requires ColumnType(adapter, spec.columnName) == Some(NUMERIC)
    requires adapter.get(row, spec.columnName) == Some(v)
    requires ParseLong(ValueToString(lib, v)).None? || ParseLong(spec.rhs).None?
    ensures RowMatches(lib, adapter, spec, row) == Err(NumberFormat)
  {
  }

  /** A TEXT column compares strings: equality, order by compareTo, substring and whole-string pattern tests. */
  lemma TextFilter<R>(lib: Library, adapter: RowAdapter<R>, spec: FilterSpec, row: R, s: string)
    requires ColumnType(adapter, spec.columnName) == Some(TEXT)
    requires adapter.get(row, spec.columnName) == Some(Str(s))
    ensures spec.filterType == EQUALS ==> RowMatches(lib, adapter, spec, row) == Ok(s == spec.rhs)
    ensures spec.filterType == LESS ==> RowMatches(lib, adapter, spec, row) == Ok(CompareTo(s, spec.rhs) < 0)
    ensures spec.filterType == CONTAINS ==> RowMatches(lib, adapter, spec, row) == Ok(Contains(s, spec.rhs))
    ensures spec.filterType == RE_MATCH ==> RowMatches(lib, adapter, spec, row) == Ok(lib.fullMatch(spec.rhs, s))
  {
  }

  // ---------------------------------------------------------------------
  // The table

  class Table<R> {
    var rows: seq<R>
    const adapter: RowAdapter<R>

    constructor (adapter: RowAdapter<R>, rows: seq<R>)
      ensures this.adapter == adapter && this.rows == rows
    {
      this.adapter := adapter;
      this.rows := rows;
    }

    /** Table.sortOn: build the compound order column by column, then replace the rows by the sorted copy. */
    method SortOn(cols: seq<string>) returns (error: Option<TableError>)
      modifies this
      ensures match SortedOn(adapter, old(rows), cols)
        case Ok(s) => error == None && rows == s
        case Err(e) => error == Some(e) && rows == old(rows)
    {
      var order: Option<seq<SortKey>> := None;
      for i := 0 to |cols|
        invariant order.None? <==> i == 0
        invariant order.Some? ==> order.value == SortKeys(cols[..i])
      {
        var colSpec := cols[i];
        var col := if StartsWith(colSpec, "-") then colSpec[1..] else colSpec;
        var cur := SortKey(col, StartsWith(colSpec, "-"));
        assert cur == ParseSortKey(colSpec);
        if order.None? {
          order := Some([cur]);
        } else {
          order := Some(order.value + [cur]);
        }
      }
      assert cols[..|cols|] == cols;
      if order.None? {
        return Some(NullPointer);
      }
      var sorted := SortedCopy(adapter, rows, order.value);
      if sorted.Err? {
        return Some(sorted.error);
      }
      rows := sorted.value;
      error := None;
    }

    /** Table.matching: replace the rows by those that pass the filter. */
    method Matching(lib: Library, spec: FilterSpec) returns (error: Option<TableError>)
      modifies this
      ensures match FilterRows(lib, adapter, spec, old(rows))
        case Ok(s) => error == None && rows == s
        case Err(e) => error == Some(e) && rows == old(rows)
    {
      var filtered := FilterRows(lib, adapter, spec, rows);
      if filtered.Err? {
        return Some(filtered.error);
      }
      rows := filtered.value;
      error := None;
    }

    /** Table.groupAndAggregate: a new table of AggregateRows, this one unchanged. */
    method GroupAndAggregate(lib: Library, groupCol: string, weightCol: string, agg: Aggregation.AggregationType)
        returns (r: Result<Table<AggregateRow>, TableError>)
      ensures match Aggregation.GroupAndAggregate(lib, adapter, rows, groupCol, weightCol, agg)
        case Ok(res) => r.Ok? && fresh(r.value) && r.value.rows == res.1 && r.value.adapter == AggregateRows.Adapter(res.0)
        case Err(e) => r == Err(e)
    {
      var groupKind := Aggregation.ColumnKind(adapter, groupCol);
      if groupKind.Err? {
        return Err(groupKind.error);
      }
      var weightKind := Aggregation.ColumnKind(adapter, weightCol);
      if weightKind.Err? {
        return Err(weightKind.error);
      }
      var keys := Aggregation.GroupKeys(Aggregation.Cells(lib, adapter, groupCol), rows);
      if keys.Err? {
        return Err(keys.error);
      }
      var newRows := Aggregation.AggregateAll(Aggregation.Cells(lib, adapter, weightCol), rows, keys.value, Aggregation.Distinct(keys.value), agg);
      if newRows.Err? {
        return Err(newRows.error);
      }
      var t := new Table(AggregateRows.Adapter(groupKind.value == NUMERIC), newRows.value);
      r := Ok(t);
    }
  }
}
