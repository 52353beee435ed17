/**
 * TraceTables: the two operations a table of rows that carry a stack
 * trace adds to Table. `transformTraces` rewrites every row's trace with
 * one trace transform; `splitTraces` replaces each row by one row per
 * frame of its trace, each carrying a one-frame trace.
 *
 * A row kind takes part through `TraceAccess`: how to read a row's trace
 * (getTransformableTrace) and how to copy a row with another trace
 * (newRowWithTrace).
 */
module TraceTables {
  import opened JavaLang
  import opened TraceTransformers
  import opened Tables

  datatype TraceAccess<!R> = TraceAccess(trace: R -> Trace, withTrace: (R, Trace) -> R)

  /** newRowWithTrace gives back a row carrying exactly the trace it was given. */
  ghost predicate Lawful<R(!new)>(acc: TraceAccess<R>) {
    forall r: R, t: Trace :: acc.trace(acc.withTrace(r, t)) == t
  }

  /** Replacing a trace twice is replacing it once with the second trace. */
  ghost predicate Overwrites<R(!new)>(acc: TraceAccess<R>) {
    forall r: R, t: Trace, u: Trace :: acc.withTrace(acc.withTrace(r, t), u) == acc.withTrace(r, u)
  }

  // ---------------------------------------------------------------------
  // transformTraces

  /** Every row copied with its trace transformed, in row order. */
  function Transformed<R>(acc: TraceAccess<R>, tt: TraceTransform, rows: seq<R>): seq<R> {
    seq(|rows|, i requires 0 <= i < |rows| => acc.withTrace(rows[i], Apply(tt, acc.trace(rows[i]))))
  }

  /** TraceTransformableTable.transformTraces. */
  method TransformTraces<R>(t: Table<R>, acc: TraceAccess<R>, tt: TraceTransform)
    modifies t
    ensures t.rows == Transformed(acc, tt, old(t.rows))
  {
    t.rows := Transformed(acc, tt, t.rows);
  }

  /** The same rows, in the same order, each now carrying its transformed trace. */
  lemma TransformedTraces<R(!new)>(acc: TraceAccess<R>, tt: TraceTransform, rows: seq<R>)
    requires Lawful(acc)
    ensures var out := Transformed(acc, tt, rows);
      |out| == |rows| &&
      forall i | 0 <= i < |rows| ::
        out[i] == acc.withTrace(rows[i], acc.trace(out[i])) &&
        acc.trace(out[i]) == Apply(tt, acc.trace(rows[i]))
  {
  }

  /** A transformed trace holds only frames of the row's old trace. */
  lemma TransformedFramesFromRow<R(!new)>(acc: TraceAccess<R>, tt: TraceTransform, rows: seq<R>, i: int, x: StackTraceElement)
    requires Lawful(acc) && 0 <= i < |rows|
    requires x in acc.trace(Transformed(acc, tt, rows)[i])
    ensures x in acc.trace(rows[i])
  {
    Idempotent(tt, acc.trace(rows[i]));
  }

  /** Applying the same transform a second time changes nothing. */
  lemma TransformTwice<R(!new)>(acc: TraceAccess<R>, tt: TraceTransform, rows: seq<R>)
    requires Lawful(acc) && Overwrites(acc)
    ensures Transformed(acc, tt, Transformed(acc, tt, rows)) == Transformed(acc, tt, rows)
  {
    var once := Transformed(acc, tt, rows);
    forall i | 0 <= i < |rows|
      ensures Transformed(acc, tt, once)[i] == once[i]
    {
      var tr := acc.trace(rows[i]);
      Idempotent(tt, tr);
      assert acc.trace(once[i]) == Apply(tt, tr);
    }
  }

  // ---------------------------------------------------------------------
  // splitTraces

  /** The inner loop's list: one copy of the row per frame, carrying just that frame. */
  function PerFrame<R>(acc: TraceAccess<R>, r: R): seq<R> {
    var tr := acc.trace(r);
    seq(|tr|, i requires 0 <= i < |tr| => acc.withTrace(r, [tr[i]]))
  }

  /** The concatenation of every row's PerFrame list, in row order. */
  function Split<R>(acc: TraceAccess<R>, rows: seq<R>): seq<R> {
    if rows == [] then []
    else Split(acc, rows[..|rows| - 1]) + PerFrame(acc, rows[|rows| - 1])
  }

  /** The frames of every row's trace, concatenated in row order. */
  function AllFrames<R>(acc: TraceAccess<R>, rows: seq<R>): Trace {
    if rows == [] then []
    else AllFrames(acc, rows[..|rows| - 1]) + acc.trace(rows[|rows| - 1])
  }

  /** The `for (StackTraceElement ste : ...)` loop of one row. */
  method SplitRow<R>(acc: TraceAccess<R>, input: R) returns (ret: seq<R>)
    ensures ret == PerFrame(acc, input)
  {
    var tr := acc.trace(input);
    ret := [];
    for i := 0 to |tr|
      invariant ret == PerFrame(acc, input)[..i]
    {
      ret := ret + [acc.withTrace(input, [tr[i]])];
    }
  }

  /** TraceTransformableTable.splitTraces: the per-row lists, concatenated. */
  method SplitTraces<R>(t: Table<R>, acc: TraceAccess<R>)
    modifies t
    ensures t.rows == Split(acc, old(t.rows))
  {
    var rows := t.rows;
    var out: seq<R> := [];
    for i := 0 to |rows|
      invariant out == Split(acc, rows[..i])
    {
      var part := SplitRow(acc, rows[i]);
      assert rows[..i + 1][..i] == rows[..i];
      out := out + part;
    }
    assert rows[..|rows|] == rows;
    t.rows := out;
  }

  lemma {:induction false} AllFramesAppend<R>(acc: TraceAccess<R>, a: seq<R>, b: seq<R>)
    ensures AllFrames(acc, a + b) == AllFrames(acc, a) + AllFrames(acc, b)
    decreases |b|
  {
    if b == [] {
      assert a + b == a;
    } else {
      var n := |b| - 1;
      assert (a + b)[..|a + b| - 1] == a + b[..n];
      AllFramesAppend(acc, a, b[..n]);
    }
  }

  /** One row's PerFrame list carries that row's frames, one per row. */
  lemma {:induction false} PerFramePrefix<R(!new)>(acc: TraceAccess<R>, r: R, k: nat)
    requires Lawful(acc) && k <= |acc.trace(r)|
    ensures AllFrames(acc, PerFrame(acc, r)[..k]) == acc.trace(r)[..k]
  {
    if k > 0 {
      var rs := PerFrame(acc, r);
      assert rs[..k][..k - 1] == rs[..k - 1];
      PerFramePrefix(acc, r, k - 1);
      assert acc.trace(rs[k - 1]) == [acc.trace(r)[k - 1]];
      assert acc.trace(r)[..k] == acc.trace(r)[..k - 1] + [acc.trace(r)[k - 1]];
    }
  }

  /** As many rows come out as there were frames. */
  lemma {:induction false} SplitCount<R>(acc: TraceAccess<R>, rows: seq<R>)
    ensures |Split(acc, rows)| == |AllFrames(acc, rows)|
  {
    if rows != [] {
      SplitCount(acc, rows[..|rows| - 1]);
    }
  }

  /** The frames, read off the split rows in order, are the frames of the original rows. */
  lemma {:induction false} SplitKeepsFrames<R(!new)>(acc: TraceAccess<R>, rows: seq<R>)
    requires Lawful(acc)
    ensures AllFrames(acc, Split(acc, rows)) == AllFrames(acc, rows)
  {
    if rows != [] {
      var n := |rows| - 1;
      var rs := PerFrame(acc, rows[n]);
      SplitKeepsFrames(acc, rows[..n]);
      AllFramesAppend(acc, Split(acc, rows[..n]), rs);
      PerFramePrefix(acc, rows[n], |rs|);
      assert rs[..|rs|] == rs;
      assert acc.trace(rows[n])[..|rs|] == acc.trace(rows[n]);
    }
  }

  /** A row that splitting leaves as it is. */
  ghost predicate Atomic<R>(acc: TraceAccess<R>, r: R) {
    PerFrame(acc, r) == [r]
  }

  /** Every split row is a copy of an input row with one frame of that row's trace, and splits into itself. */
  lemma {:induction false} SplitRowsShape<R(!new)>(acc: TraceAccess<R>, rows: seq<R>)
    requires Lawful(acc) && Overwrites(acc)
    ensures forall s | s in Split(acc, rows) ::
      Atomic(acc, s) &&
      exists i, x | 0 <= i < |rows| && x in acc.trace(rows[i]) :: s == acc.withTrace(rows[i], [x])
  {
    if rows != [] {
      var n := |rows| - 1;
      SplitRowsShape(acc, rows[..n]);
      forall s | s in Split(acc, rows)
        ensures Atomic(acc, s)
        ensures exists i, x | 0 <= i < |rows| && x in acc.trace(rows[i]) :: s == acc.withTrace(rows[i], [x])
      {
        if s in Split(acc, rows[..n]) {
          var i, x :| 0 <= i < n && x in acc.trace(rows[..n][i]) && s == acc.withTrace(rows[..n][i], [x]);
          assert rows[..n][i] == rows[i];
        } else {
          var tr := acc.trace(rows[n]);
          var k :| 0 <= k < |tr| && s == acc.withTrace(rows[n], [tr[k]]);
          assert acc.trace(s) == [tr[k]];
          assert PerFrame(acc, s) == [acc.withTrace(s, [tr[k]])];
        }
      }
    }
  }

  /** Rows that each split into themselves are left as they are. */
  lemma {:induction false} SplitOfAtomic<R>(acc: TraceAccess<R>, rows: seq<R>)
    requires forall s | s in rows :: Atomic(acc, s)
    ensures Split(acc, rows) == rows
  {
    if rows != [] {
      var n := |rows| - 1;
      SplitOfAtomic(acc, rows[..n]);
      assert Atomic(acc, rows[n]);
      assert rows == rows[..n] + [rows[n]];
    }
  }

  /** Splitting an already split table changes nothing. */
  lemma SplitTwice<R(!new)>(acc: TraceAccess<R>, rows: seq<R>)
    requires Lawful(acc) && Overwrites(acc)
    ensures Split(acc, Split(acc, rows)) == Split(acc, rows)
  {
    SplitRowsShape(acc, rows);
    SplitOfAtomic(acc, Split(acc, rows));
  }
}
