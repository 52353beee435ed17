/**
 * Aggregation: what `Table.groupAndAggregate` computes. Rows are keyed by
 * the string form of the group column; there is one output row per
 * distinct key, in order of first occurrence (the key order of an
 * ImmutableListMultimap), weighted by the group's COUNT, SUM or UNIQUE
 * aggregate of the weight column.
 */
module Aggregation {
  import opened JavaLang
  import opened Rows
  import opened AggregateRows

  datatype AggregationType = COUNT | UNIQUE | SUM

  /** adapter.types.get(adapter.columns.indexOf(column)): an unknown column is types.get(-1). */
  function ColumnKind<R>(adapter: RowAdapter<R>, column: string): (r: Result<CoerceType, TableError>)
    ensures r.Ok? <==> ColumnType(adapter, column).Some?
    ensures r.Ok? ==> Some(r.value) == ColumnType(adapter, column)
    ensures r.Err? ==> r.error == IndexOutOfBounds
  {
    match ColumnType(adapter, column)
    case None => Err(IndexOutOfBounds)
    case Some(t) => Ok(t)
  }

  /** adapter.get(row, column).toString(). */
  function CellString<R>(lib: Library, adapter: RowAdapter<R>, row: R, column: string): Result<string, TableError> {
    match adapter.get(row, column)
    case None => Err(IllegalArgument)
    case Some(v) => Ok(ValueToString(lib, v))
  }

  /**
   * A column read off each row as a string. The aggregation below is
   * stated over such a reader; groupAndAggregate reads the group and the
   * weight column with `CellString`.
   */
  type Cell<-R> = R -> Result<string, TableError>

  function Cells<R>(lib: Library, adapter: RowAdapter<R>, column: string): Cell<R> {
    row => CellString(lib, adapter, row, column)
  }

  /** Long.parseLong of a cell's string. */
  function ParsedWeight<R>(cell: Cell<R>, row: R): Result<int, TableError> {
    var s :- cell(row);
    match ParseLong(s)
    case None => Err(NumberFormat)
    case Some(n) => Ok(n)
  }

  /** The group key of every row, in row order; the first row whose key cannot be read fails. */
  function GroupKeys<R>(cell: Cell<R>, rows: seq<R>): (r: Result<seq<string>, TableError>)
    ensures r.Ok? ==> |r.value| == |rows|
    ensures r.Ok? ==> forall i | 0 <= i < |rows| :: cell(rows[i]) == Ok(r.value[i])
  {
    if rows == [] then Ok([])
    else
      var n := |rows| - 1;
      var prev :- GroupKeys(cell, rows[..n]);
      var k :- cell(rows[n]);
      Ok(prev + [k])
  }

  /**
   * The distinct keys, in order of first occurrence: every occurrence of a
   * later key comes after an occurrence of each earlier one.
   */
  function Distinct(keys: seq<string>): (d: seq<string>)
    ensures forall x :: x in d <==> x in keys
    ensures forall i, j | 0 <= i < j < |d| :: d[i] != d[j]
    ensures forall i, j, p | 0 <= i < j < |d| && 0 <= p < |keys| && keys[p] == d[j] :: d[i] in keys[..p]
  {
    if keys == [] then []
    else
      var d := Distinct(keys[..|keys| - 1]);
      var x := keys[|keys| - 1];
      assert keys == keys[..|keys| - 1] + [x];
      if x in d then d else d + [x]
  }

  /** The positions of the keys equal to k, in increasing order. */
  function KeyPositions(keys: seq<string>, k: string): (ps: seq<nat>)
    ensures forall m | 0 <= m < |ps| :: ps[m] < |keys| && keys[ps[m]] == k
    ensures forall m, m' | 0 <= m < m' < |ps| :: ps[m] < ps[m']
    ensures forall i | 0 <= i < |keys| && keys[i] == k :: i in ps
  {
    if keys == [] then []
    else
      var n := |keys| - 1;
      KeyPositions(keys[..n], k) + (if keys[n] == k then [n] else [])
  }

  /** The rows whose key is k, in row order (one list of the multimap). */
  function Group<R>(rows: seq<R>, keys: seq<string>, k: string): (g: seq<R>)
    requires |keys| == |rows|
    ensures |g| <= |rows|
  {
    if rows == [] then []
    else
      var n := |rows| - 1;
      Group(rows[..n], keys[..n], k) + (if keys[n] == k then [rows[n]] else [])
  }

  /** A group lists exactly the rows at the positions of its key, in row order. */
  lemma {:induction false} GroupRows<R>(rows: seq<R>, keys: seq<string>, k: string)
    requires |keys| == |rows|
    ensures var g := Group(rows, keys, k);
      |g| == |KeyPositions(keys, k)| &&
      forall m | 0 <= m < |g| :: g[m] == rows[KeyPositions(keys, k)[m]]
  {
    if rows != [] {
      var n := |rows| - 1;
      GroupRows(rows[..n], keys[..n], k);
    }
  }

  /** A weight read off each row as a number. */
  type Weight<-R> = R -> Result<int, TableError>

  /** The SUM branch's weight: each row's cell parsed as a long. */
  function Weigher<R>(cell: Cell<R>): Weight<R> {
    row => ParsedWeight(cell, row)
  }

  /** The SUM loop: the weights added in group order. */
  function SumWeights<R>(weigh: Weight<R>, group: seq<R>): Result<int, TableError> {
    if group == [] then Ok(0)
    else
      var n := |group| - 1;
      var prev :- SumWeights(weigh, group[..n]);
      var w :- weigh(group[n]);
      Ok(prev + w)
  }

  /** The UNIQUE loop: the set of the weights' string forms. */
  function WeightStrings<R>(cell: Cell<R>, group: seq<R>): Result<set<string>, TableError> {
    if group == [] then Ok({})
    else
      var n := |group| - 1;
      var prev :- WeightStrings(cell, group[..n]);
      var s :- cell(group[n]);
      Ok(prev + {s})
  }

  /** transformEntry: the aggregate of one group. */
  function Aggregate<R>(cell: Cell<R>, group: seq<R>, agg: AggregationType): Result<int, TableError> {
    match agg
    case COUNT => Ok(|group|)
    case SUM => SumWeights(Weigher(cell), group)
    case UNIQUE =>
      var s :- WeightStrings(cell, group);
      Ok(|s|)
  }

  /** One AggregateRow per key of ds, in that order; the first group whose aggregate fails fails. */
  function AggregateGroups<R>(cell: Cell<R>, rows: seq<R>, keys: seq<string>, ds: seq<string>, agg: AggregationType): Result<seq<AggregateRow>, TableError>
    requires |keys| == |rows|
  {
    if ds == [] then Ok([])
    else
      var n := |ds| - 1;
      var prev :- AggregateGroups(cell, rows, keys, ds[..n], agg);
      var v :- Aggregate(cell, Group(rows, keys, ds[n]), agg);
      Ok(prev + [AggregateRow(v, ds[n])])
  }

  /**
   * groupAndAggregate: look both columns up, key every row, then aggregate
   * each group. The result carries whether the group column is NUMERIC,
   * which decides the kind of the new table's group column.
   */
  function GroupAndAggregate<R>(lib: Library, adapter: RowAdapter<R>, rows: seq<R>, groupCol: string, weightCol: string, agg: AggregationType): Result<(bool, seq<AggregateRow>), TableError> {
    var groupKind :- ColumnKind(adapter, groupCol);
    var weightKind :- ColumnKind(adapter, weightCol);
    var keys :- GroupKeys(Cells(lib, adapter, groupCol), rows);
    var out :- AggregateGroups(Cells(lib, adapter, weightCol), rows, keys, Distinct(keys), agg);
    Ok((groupKind == NUMERIC, out))
  }

  // ---------------------------------------------------------------------
  // The accumulator loops

  /** Once a prefix of the group fails, the whole SUM fails the same way. */
  lemma {:induction false} SumWeightsErrPersists<R>(weigh: Weight<R>, group: seq<R>, i: nat)
    requires i <= |group| && SumWeights(weigh, group[..i]).Err?
    ensures SumWeights(weigh, group) == SumWeights(weigh, group[..i])
    decreases |group| - i
  {
    if i < |group| {
      assert group[..i + 1][..i] == group[..i];
      SumWeightsErrPersists(weigh, group, i + 1);
    } else {
      assert group[..i] == group;
    }
  }

  lemma {:induction false} WeightStringsErrPersists<R>(cell: Cell<R>, group: seq<R>, i: nat)
    requires i <= |group| && WeightStrings(cell, group[..i]).Err?
    ensures WeightStrings(cell, group) == WeightStrings(cell, group[..i])
    decreases |group| - i
  {
    if i < |group| {
      assert group[..i + 1][..i] == group[..i];
      WeightStringsErrPersists(cell, group, i + 1);
    } else {
      assert group[..i] == group;
    }
  }

  /** The SUM branch: `l += Long.parseLong(...)` over the group. */
  method SumGroup<R>(cell: Cell<R>, group: seq<R>) returns (r: Result<int, TableError>)
    ensures r == Aggregate(cell, group, SUM)
  {
    var l := 0;
    for i := 0 to |group|
      invariant SumWeights(Weigher(cell), group[..i]) == Ok(l)
    {
      assert group[..i + 1][..i] == group[..i];
      var w := ParsedWeight(cell, group[i]);
      if w.Err? {
        SumWeightsErrPersists(Weigher(cell), group, i + 1);
        return Err(w.error);
      }
      l := l + w.value;
    }
    assert group[..|group|] == group;
    r := Ok(l);
  }

  /** The UNIQUE branch: `set.add(...)` over the group, then the set's size. */
  method UniqueGroup<R>(cell: Cell<R>, group: seq<R>) returns (r: Result<int, TableError>)
    ensures r == Aggregate(cell, group, UNIQUE)
  {
    var strings: set<string> := {};
    for i := 0 to |group|
      invariant WeightStrings(cell, group[..i]) == Ok(strings)
    {
      assert group[..i + 1][..i] == group[..i];
      var s := cell(group[i]);
      if s.Err? {
        WeightStringsErrPersists(cell, group, i + 1);
        return Err(s.error);
      }
      strings := strings + {s.value};
    }
    assert group[..|group|] == group;
    r := Ok(|strings|);
  }

  /** Once a prefix of the keys fails to aggregate, the whole list fails the same way. */
  lemma {:induction false} AggregateGroupsErrPersists<R>(cell: Cell<R>, rows: seq<R>, keys: seq<string>, ds: seq<string>, agg: AggregationType, i: nat)
    requires |keys| == |rows| && i <= |ds|
    requires AggregateGroups(cell, rows, keys, ds[..i], agg).Err?
    ensures AggregateGroups(cell, rows, keys, ds, agg) == AggregateGroups(cell, rows, keys, ds[..i], agg)
    decreases |ds| - i
  {
    if i < |ds| {
      assert ds[..i + 1][..i] == ds[..i];
      AggregateGroupsErrPersists(cell, rows, keys, ds, agg, i + 1);
    } else {
      assert ds[..i] == ds;
    }
  }

  /** The per-group aggregate, as the switch in transformEntry computes it. */
  method AggregateGroup<R>(cell: Cell<R>, group: seq<R>, agg: AggregationType)
      returns (v: Result<int, TableError>)
    ensures v == Aggregate(cell, group, agg)
  {
    match agg {
      case COUNT => v := Ok(|group|);
      case SUM => v := SumGroup(cell, group);
      case UNIQUE => v := UniqueGroup(cell, group);
    }
  }

  /** Copying the transformed map's entries out, one AggregateRow per key, in key order. */
  method AggregateAll<R>(cell: Cell<R>, rows: seq<R>, keys: seq<string>, ds: seq<string>, agg: AggregationType)
      returns (r: Result<seq<AggregateRow>, TableError>)
    requires |keys| == |rows|
    ensures r == AggregateGroups(cell, rows, keys, ds, agg)
  {
    var newRows: seq<AggregateRow> := [];
    for j := 0 to |ds|
      invariant AggregateGroups(cell, rows, keys, ds[..j], agg) == Ok(newRows)
    {
      AggregateGroupsStep(cell, rows, keys, ds, agg, j);
      var v := AggregateGroup(cell, Group(rows, keys, ds[j]), agg);
      if v.Err? {
        AggregateGroupsErrPersists(cell, rows, keys, ds, agg, j + 1);
        return Err(v.error);
      }
      newRows := newRows + [AggregateRow(v.value, ds[j])];
    }
    assert ds[..|ds|] == ds;
    r := Ok(newRows);
  }

  lemma AggregateGroupsStep<R>(cell: Cell<R>, rows: seq<R>, keys: seq<string>, ds: seq<string>, agg: AggregationType, j: nat)
    requires |keys| == |rows| && j < |ds|
    ensures var prefix := AggregateGroups(cell, rows, keys, ds[..j], agg);
      var v := Aggregate(cell, Group(rows, keys, ds[j]), agg);
      AggregateGroups(cell, rows, keys, ds[..j + 1], agg) ==
        if prefix.Err? then prefix
        else if v.Err? then Err(v.error)
        else Ok(prefix.value + [AggregateRow(v.value, ds[j])])
  {
    assert ds[..j + 1][..j] == ds[..j];
  }

  // ---------------------------------------------------------------------
  // Totals

  function Sum(ws: seq<int>): int {
    if ws == [] then 0 else Sum(ws[..|ws| - 1]) + ws[|ws| - 1]
  }

  /** The total weight of the rows keyed k. */
  function SumWhere(keys: seq<string>, ws: seq<int>, k: string): int
    requires |ws| == |keys|
  {
    if keys == [] then 0
    else
      var n := |keys| - 1;
      SumWhere(keys[..n], ws[..n], k) + (if keys[n] == k then ws[n] else 0)
  }

  /** The total, over the keys of ds, of the weight of each key's rows. */
  function SumOver(keys: seq<string>, ws: seq<int>, ds: seq<string>): int
    requires |ws| == |keys|
  {
    if ds == [] then 0 else SumOver(keys, ws, ds[..|ds| - 1]) + SumWhere(keys, ws, ds[|ds| - 1])
  }

  /** The sum of the weight column of a grouped table. */
  function TotalWeight(out: seq<AggregateRow>): int {
    if out == [] then 0 else TotalWeight(out[..|out| - 1]) + out[|out| - 1].value
  }

  function Ones(n: nat): (r: seq<int>)
    ensures |r| == n && forall i | 0 <= i < n :: r[i] == 1
  {
    seq(n, i => 1)
  }

  /** Every row's weight parsed, in row order. */
  function Weights<R>(weigh: Weight<R>, rows: seq<R>): (r: Result<seq<int>, TableError>)
    ensures r.Ok? ==> |r.value| == |rows|
  {
    if rows == [] then Ok([])
    else
      var n := |rows| - 1;
      var prev :- Weights(weigh, rows[..n]);
      var w :- weigh(rows[n]);
      Ok(prev + [w])
  }

  lemma {:induction false} SumWhereAbsent(keys: seq<string>, ws: seq<int>, k: string)
    requires |ws| == |keys| && k !in keys
    ensures SumWhere(keys, ws, k) == 0
  {
    if keys != [] {
      var n := |keys| - 1;
      assert keys == keys[..n] + [keys[n]];
      SumWhereAbsent(keys[..n], ws[..n], k);
    }
  }

  /** Adding one keyed weight adds it to the total of the one key of ds it belongs to. */
  lemma {:induction false} SumOverSnoc(keys: seq<string>, ws: seq<int>, ds: seq<string>, x: string, w: int)
    requires |ws| == |keys|
    requires forall i, j | 0 <= i < j < |ds| :: ds[i] != ds[j]
    ensures SumOver(keys + [x], ws + [w], ds) == SumOver(keys, ws, ds) + (if x in ds then w else 0)
  {
    if ds != [] {
      var m := |ds| - 1;
      var keys', ws' := keys + [x], ws + [w];
      assert keys'[..|keys|] == keys && ws'[..|ws|] == ws;
      SumOverSnoc(keys, ws, ds[..m], x, w);
      assert ds == ds[..m] + [ds[m]];
      assert ds[m] !in ds[..m];
    }
  }

  /** The groups partition the rows: the per-key totals add up to the total of all weights. */
  lemma {:induction false} GroupsPartition(keys: seq<string>, ws: seq<int>)
    requires |ws| == |keys|
    ensures SumOver(keys, ws, Distinct(keys)) == Sum(ws)
  {
    if keys != [] {
      var n := |keys| - 1;
      var kp, wp, x, w := keys[..n], ws[..n], keys[n], ws[n];
      assert keys == kp + [x] && ws == wp + [w];
      var d := Distinct(kp);
      GroupsPartition(kp, wp);
      assert Sum(ws) == Sum(wp) + w;
      SumOverSnoc(kp, wp, d, x, w);
      if x in d {
        assert Distinct(keys) == d;
      } else {
        assert Distinct(keys) == d + [x];
        SumWhereAbsent(kp, wp, x);
        assert SumWhere(keys, ws, x) == w;
        assert (d + [x])[..|d|] == d;
        assert SumOver(keys, ws, d + [x]) == SumOver(keys, ws, d) + SumWhere(keys, ws, x);
      }
    }
  }

  /** A group's size is the number of rows with its key. */
  lemma {:induction false} GroupCount<R>(rows: seq<R>, keys: seq<string>, k: string)
    requires |keys| == |rows|
    ensures |Group(rows, keys, k)| == SumWhere(keys, Ones(|keys|), k)
  {
    if rows != [] {
      var n := |rows| - 1;
      assert Ones(|keys|)[..n] == Ones(n);
      GroupCount(rows[..n], keys[..n], k);
    }
  }

  /** A group's SUM is the total weight of the rows with its key. */
  lemma WeightsSnoc<R>(weigh: Weight<R>, rows: seq<R>, ws: seq<int>)
    requires rows != [] && Weights(weigh, rows) == Ok(ws)
    ensures Weights(weigh, rows[..|rows| - 1]) == Ok(ws[..|rows| - 1])
    ensures weigh(rows[|rows| - 1]) == Ok(ws[|rows| - 1])
  {
    var n := |rows| - 1;
    var wp := Weights(weigh, rows[..n]).value;
    assert ws == wp + [weigh(rows[n]).value];
  }

  lemma SumWeightsSnoc<R>(weigh: Weight<R>, g: seq<R>, r: R, a: int, b: int)
    requires SumWeights(weigh, g) == Ok(a) && weigh(r) == Ok(b)
    ensures SumWeights(weigh, g + [r]) == Ok(a + b)
  {
    assert (g + [r])[..|g|] == g;
  }

  lemma GroupSnoc<R>(rows: seq<R>, keys: seq<string>, k: string)
    requires rows != [] && |keys| == |rows|
    ensures Group(rows, keys, k) ==
      Group(rows[..|rows| - 1], keys[..|rows| - 1], k) + (if keys[|rows| - 1] == k then [rows[|rows| - 1]] else [])
  {
  }

  lemma SumWhereSnoc(keys: seq<string>, ws: seq<int>, k: string)
    requires keys != [] && |ws| == |keys|
    ensures SumWhere(keys, ws, k) ==
      SumWhere(keys[..|keys| - 1], ws[..|keys| - 1], k) + (if keys[|keys| - 1] == k then ws[|keys| - 1] else 0)
  {
  }

  /** One more row either joins the group, adding its weight to the SUM, or does not. */
  lemma SumWeightsStep<R>(weigh: Weight<R>, g: seq<R>, g': seq<R>, r: R, joins: bool, a: int, b: int, total: int)
    requires g' == g + (if joins then [r] else [])
    requires total == a + (if joins then b else 0)
    requires SumWeights(weigh, g) == Ok(a) && weigh(r) == Ok(b)
    ensures SumWeights(weigh, g') == Ok(total)
  {
    if joins {
      SumWeightsSnoc(weigh, g, r, a, b);
    } else {
      assert g' == g;
    }
  }

  lemma {:induction false} GroupSum<R>(weigh: Weight<R>, rows: seq<R>, keys: seq<string>, k: string, ws: seq<int>)
    requires |keys| == |rows| && Weights(weigh, rows) == Ok(ws)
    ensures SumWeights(weigh, Group(rows, keys, k)) == Ok(SumWhere(keys, ws, k))
  {
    if rows != [] {
      var n := |rows| - 1;
      WeightsSnoc(weigh, rows, ws);
      GroupSum(weigh, rows[..n], keys[..n], k, ws[..n]);
      GroupSnoc(rows, keys, k);
      SumWhereSnoc(keys, ws, k);
      SumWeightsStep(weigh, Group(rows[..n], keys[..n], k), Group(rows, keys, k), rows[n], keys[n] == k,
        SumWhere(keys[..n], ws[..n], k), ws[n], SumWhere(keys, ws, k));
    }
  }

  lemma AggregateGroupsSnoc<R>(cell: Cell<R>, rows: seq<R>, keys: seq<string>, ds: seq<string>, agg: AggregationType)
    requires |keys| == |rows| && ds != [] && AggregateGroups(cell, rows, keys, ds, agg).Ok?
    ensures var out := AggregateGroups(cell, rows, keys, ds, agg).value;
      var n := |ds| - 1;
      out != [] &&
      AggregateGroups(cell, rows, keys, ds[..n], agg) == Ok(out[..|out| - 1]) &&
      out[|out| - 1].group == ds[n] &&
      Aggregate(cell, Group(rows, keys, ds[n]), agg) == Ok(out[|out| - 1].value)
  {
    var n := |ds| - 1;
    var prev := AggregateGroups(cell, rows, keys, ds[..n], agg).value;
    var v := Aggregate(cell, Group(rows, keys, ds[n]), agg).value;
    assert (prev + [AggregateRow(v, ds[n])])[..|prev|] == prev;
  }

  /** An output row made for key d: it carries d and the aggregate of d's group. */
  predicate RowFor<R>(cell: Cell<R>, rows: seq<R>, keys: seq<string>, d: string, agg: AggregationType, row: AggregateRow)
    requires |keys| == |rows|
  {
    row.group == d && Aggregate(cell, Group(rows, keys, d), agg) == Ok(row.value)
  }

  /** The grouped table has one row per key of ds, carrying that key and the aggregate of its group. */
  lemma {:induction false} AggregateGroupsShape<R>(cell: Cell<R>, rows: seq<R>, keys: seq<string>, ds: seq<string>, agg: AggregationType)
    requires |keys| == |rows| && AggregateGroups(cell, rows, keys, ds, agg).Ok?
    ensures var out := AggregateGroups(cell, rows, keys, ds, agg).value;
      |out| == |ds| &&
      forall j | 0 <= j < |ds| :: RowFor(cell, rows, keys, ds[j], agg, out[j])
  {
    if ds != [] {
      var n := |ds| - 1;
      var out := AggregateGroups(cell, rows, keys, ds, agg).value;
      AggregateGroupsSnoc(cell, rows, keys, ds, agg);
      AggregateGroupsShape(cell, rows, keys, ds[..n], agg);
      RowsForSnoc(cell, rows, keys, ds, agg, out, ds[..n], out[..|out| - 1]);
    }
  }

  /** Rows made for the keys before the last, followed by a row made for the last key, are rows made for all keys. */
  lemma RowsForSnoc<R>(cell: Cell<R>, rows: seq<R>, keys: seq<string>, ds: seq<string>, agg: AggregationType,
                       out: seq<AggregateRow>, ds0: seq<string>, prev: seq<AggregateRow>)
    requires |keys| == |rows| && ds != [] && |out| == |ds|
    requires ds0 == ds[..|ds| - 1] && prev == out[..|out| - 1]
    requires forall j | 0 <= j < |ds0| :: RowFor(cell, rows, keys, ds0[j], agg, prev[j])
    requires RowFor(cell, rows, keys, ds[|ds| - 1], agg, out[|out| - 1])
    ensures forall j | 0 <= j < |ds| :: RowFor(cell, rows, keys, ds[j], agg, out[j])
  {
    forall j | 0 <= j < |ds| - 1
      ensures RowFor(cell, rows, keys, ds[j], agg, out[j])
    {
      assert prev[j] == out[j] && ds0[j] == ds[j];
    }
  }

  /** When every group's aggregate is its key's total weight, the grouped table's weights add up to the per-key totals. */
  lemma {:induction false} TotalOfGroups<R>(cell: Cell<R>, rows: seq<R>, keys: seq<string>, ds: seq<string>, agg: AggregationType, ws: seq<int>)
    requires |keys| == |rows| && |ws| == |keys|
    requires AggregateGroups(cell, rows, keys, ds, agg).Ok?
    requires forall j | 0 <= j < |ds| :: Aggregate(cell, Group(rows, keys, ds[j]), agg) == Ok(SumWhere(keys, ws, ds[j]))
    ensures TotalWeight(AggregateGroups(cell, rows, keys, ds, agg).value) == SumOver(keys, ws, ds)
  {
    if ds != [] {
      var n := |ds| - 1;
      var out := AggregateGroups(cell, rows, keys, ds, agg).value;
      var prev := AggregateGroups(cell, rows, keys, ds[..n], agg).value;
      TotalOfGroups(cell, rows, keys, ds[..n], agg, ws);
      assert out[..|out| - 1] == prev;
    }
  }

  // ---------------------------------------------------------------------
  // What groupAndAggregate promises

  /** An unknown group or weight column fails before any row is looked at. */
  lemma UnknownColumnFails<R>(lib: Library, adapter: RowAdapter<R>, rows: seq<R>, groupCol: string, weightCol: string, agg: AggregationType)
    requires groupCol !in adapter.columns || weightCol !in adapter.columns
    ensures GroupAndAggregate(lib, adapter, rows, groupCol, weightCol, agg) == Err(IndexOutOfBounds)
  {
  }

  /**
   * One output row per distinct key string, in order of first occurrence,
   * and the output's group column is NUMERIC exactly when the input's is.
   */
  lemma OneRowPerKey<R>(lib: Library, adapter: RowAdapter<R>, rows: seq<R>, groupCol: string, weightCol: string, agg: AggregationType)
    requires GroupAndAggregate(lib, adapter, rows, groupCol, weightCol, agg).Ok?
    ensures GroupKeys(Cells(lib, adapter, groupCol), rows).Ok?
    ensures var (numeric, out) := GroupAndAggregate(lib, adapter, rows, groupCol, weightCol, agg).value;
      var keys := GroupKeys(Cells(lib, adapter, groupCol), rows).value;
      (numeric <==> ColumnType(adapter, groupCol) == Some(NUMERIC)) &&
      |out| == |Distinct(keys)| &&
      (forall j | 0 <= j < |out| :: out[j].group == Distinct(keys)[j]) &&
      (forall i, j | 0 <= i < j < |out| :: out[i].group != out[j].group) &&
      (forall k :: k in keys <==> exists j | 0 <= j < |out| :: out[j].group == k)
  {
    var keys := GroupKeys(Cells(lib, adapter, groupCol), rows).value;
    var ds := Distinct(keys);
    AggregateGroupsShape(Cells(lib, adapter, weightCol), rows, keys, ds, agg);
    var out := GroupAndAggregate(lib, adapter, rows, groupCol, weightCol, agg).value.1;
    forall k | k in keys
      ensures exists j | 0 <= j < |out| :: out[j].group == k
    {
      var j :| 0 <= j < |ds| && ds[j] == k;
      assert out[j].group == k;
    }
  }

  /** COUNT: the counts of a grouped table add up to the number of rows. */
  lemma CountsAddUp<R>(lib: Library, adapter: RowAdapter<R>, rows: seq<R>, groupCol: string, weightCol: string)
    requires GroupAndAggregate(lib, adapter, rows, groupCol, weightCol, COUNT).Ok?
    ensures TotalWeight(GroupAndAggregate(lib, adapter, rows, groupCol, weightCol, COUNT).value.1) == |rows|
  {
    var keys := GroupKeys(Cells(lib, adapter, groupCol), rows).value;
    var ds := Distinct(keys);
    var ones := Ones(|keys|);
    forall j | 0 <= j < |ds|
      ensures Aggregate(Cells(lib, adapter, weightCol), Group(rows, keys, ds[j]), COUNT) == Ok(SumWhere(keys, ones, ds[j]))
    {
      GroupCount(rows, keys, ds[j]);
    }
    TotalOfGroups(Cells(lib, adapter, weightCol), rows, keys, ds, COUNT, ones);
    GroupsPartition(keys, ones);
    OnesSum(|keys|);
  }

  lemma {:induction false} OnesSum(n: nat)
    ensures Sum(Ones(n)) == n
  {
    if n > 0 {
      assert Ones(n)[..n - 1] == Ones(n - 1);
      OnesSum(n - 1);
    }
  }

  /** SUM: the sums of a grouped table add up to the total of the weight column (with unbounded integers). */
  lemma SumsAddUp<R>(lib: Library, adapter: RowAdapter<R>, rows: seq<R>, groupCol: string, weightCol: string, ws: seq<int>)
    requires GroupAndAggregate(lib, adapter, rows, groupCol, weightCol, SUM).Ok?
    requires Weights(Weigher(Cells(lib, adapter, weightCol)), rows) == Ok(ws)
    ensures TotalWeight(GroupAndAggregate(lib, adapter, rows, groupCol, weightCol, SUM).value.1) == Sum(ws)
  {
    var keys := GroupKeys(Cells(lib, adapter, groupCol), rows).value;
    var ds := Distinct(keys);
    forall j | 0 <= j < |ds|
      ensures Aggregate(Cells(lib, adapter, weightCol), Group(rows, keys, ds[j]), SUM) == Ok(SumWhere(keys, ws, ds[j]))
    {
      GroupSum(Weigher(Cells(lib, adapter, weightCol)), rows, keys, ds[j], ws);
    }
    TotalOfGroups(Cells(lib, adapter, weightCol), rows, keys, ds, SUM, ws);
    GroupsPartition(keys, ws);
  }

  /** The number of distinct strings of a non-empty group is between 1 and the group's size. */
  lemma {:induction false} WeightStringsBounds<R>(cell: Cell<R>, group: seq<R>)
    requires WeightStrings(cell, group).Ok?
    ensures |WeightStrings(cell, group).value| <= |group|
    ensures group != [] ==> 1 <= |WeightStrings(cell, group).value|
  {
    if group != [] {
      WeightStringsBounds(cell, group[..|group| - 1]);
    }
  }

  lemma {:induction false} GroupOfPresentKey<R>(rows: seq<R>, keys: seq<string>, k: string)
    requires |keys| == |rows| && k in keys
    ensures Group(rows, keys, k) != []
  {
    var n := |rows| - 1;
    if keys[n] != k {
      assert keys == keys[..n] + [keys[n]];
      GroupOfPresentKey(rows[..n], keys[..n], k);
    }
  }

  /** UNIQUE: every group counts at least one and at most as many distinct strings as it has rows. */
  lemma UniqueBounds<R>(lib: Library, adapter: RowAdapter<R>, rows: seq<R>, groupCol: string, weightCol: string)
    requires GroupAndAggregate(lib, adapter, rows, groupCol, weightCol, UNIQUE).Ok?
    ensures GroupKeys(Cells(lib, adapter, groupCol), rows).Ok?
    ensures var out := GroupAndAggregate(lib, adapter, rows, groupCol, weightCol, UNIQUE).value.1;
      var keys := GroupKeys(Cells(lib, adapter, groupCol), rows).value;
      forall j | 0 <= j < |out| :: 1 <= out[j].value <= |Group(rows, keys, out[j].group)|
  {
    var keys := GroupKeys(Cells(lib, adapter, groupCol), rows).value;
    var ds := Distinct(keys);
    var out := GroupAndAggregate(lib, adapter, rows, groupCol, weightCol, UNIQUE).value.1;
    AggregateGroupsShape(Cells(lib, adapter, weightCol), rows, keys, ds, UNIQUE);
    forall j | 0 <= j < |out|
      ensures 1 <= out[j].value <= |Group(rows, keys, out[j].group)|
    {
      var g := Group(rows, keys, ds[j]);
      GroupOfPresentKey(rows, keys, ds[j]);
      WeightStringsBounds(Cells(lib, adapter, weightCol), g);
    }
  }
}
