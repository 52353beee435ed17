/**
 * AllocTables: the table of allocations. It reads its columns through the
 * AllocRow adapter, and copies a row with another trace by keeping every
 * other field.
 */
module AllocTables {
  import opened JavaLang
  import opened TraceTransformers
  import opened Tables
  import opened Orderings
  import opened TraceTables
  import opened AllocRows

  /** newRowWithTrace: the same id, class, size and thread, with the trace given. */
  function NewRowWithTrace(input: AllocRow, trace: Trace): (r: AllocRow)
    ensures SameAllocation(r, input) && r.stackTrace == trace
  {
    AllocRow(input.id, input.allocatedClass, input.bytes, input.thread, trace)
  }

  /** How the trace operations see an AllocRow. */
  const Access: TraceAccess<AllocRow> := TraceAccess((r: AllocRow) => r.stackTrace, NewRowWithTrace)

  /** The same allocation, with another trace. */
  predicate SameAllocation(a: AllocRow, b: AllocRow) {
    a.id == b.id && a.allocatedClass == b.allocatedClass && a.bytes == b.bytes && a.thread == b.thread
  }

  /** The AllocRow access meets both laws the trace operations rely on. */
  lemma AccessLaws()
    ensures Lawful(Access) && Overwrites(Access)
    ensures forall r: AllocRow, t: Trace :: SameAllocation(Access.withTrace(r, t), r)
  {
  }

  /** new AllocTable(l): a table over the rows given, read through the AllocRow adapter. */
  method NewAllocTable(rows: seq<AllocRow>) returns (t: Table<AllocRow>)
    ensures fresh(t) && t.rows == rows && t.adapter == AllocRows.Adapter
  {
    t := new Table(AllocRows.Adapter, rows);
  }

  /** Transforming the traces of an allocation table keeps every allocation and its order. */
  lemma TransformKeepsAllocations(tt: TraceTransform, rows: seq<AllocRow>)
    ensures var out := Transformed(Access, tt, rows);
      |out| == |rows| &&
      forall i | 0 <= i < |rows| ::
        SameAllocation(out[i], rows[i]) && out[i].stackTrace == Apply(tt, rows[i].stackTrace)
  {
    AccessLaws();
    TransformedTraces(Access, tt, rows);
  }

  /** Each row of a split allocation table is one of the input allocations holding one frame of its trace. */
  lemma SplitKeepsAllocations(rows: seq<AllocRow>)
    ensures forall s | s in Split(Access, rows) ::
      |s.stackTrace| == 1 &&
      exists i | 0 <= i < |rows| :: SameAllocation(s, rows[i]) && s.stackTrace[0] in rows[i].stackTrace
    ensures |Split(Access, rows)| == |AllFrames(Access, rows)|
  {
    AccessLaws();
    SplitRowsShape(Access, rows);
    SplitCount(Access, rows);
    forall s | s in Split(Access, rows)
      ensures |s.stackTrace| == 1
      ensures exists i | 0 <= i < |rows| :: SameAllocation(s, rows[i]) && s.stackTrace[0] in rows[i].stackTrace
    {
      var i, x :| 0 <= i < |rows| && x in Access.trace(rows[i]) && s == Access.withTrace(rows[i], [x]);
      assert s.stackTrace == [x];
    }
  }

  /**
   * Sorting allocations on their id first never reads a later sort column,
   * since ids never tie: even a trace column or an unknown one afterwards
   * leaves the sort successful.
   */
  lemma SortOnUniqueIdsSucceeds(rows: seq<AllocRow>, later: seq<string>)
    requires forall x, y | 0 <= x < y < |rows| :: rows[x].id != rows[y].id
    ensures SortedOn(AllocRows.Adapter, rows, ["id"] + later).Ok?
  {
    var ids := seq(|rows|, i requires 0 <= i < |rows| => rows[i].id as int);
    var cols := ["id"] + later;
    assert cols[0] == "id" && cols[0][0] == 'i' && !StartsWith(cols[0], "-");
    DistinctFirstKeyDecides(AllocRows.Adapter, rows, cols, ids);
  }
}
