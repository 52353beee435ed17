/**
 * PrettyAggregateOutput: the printer of a grouped table. It sizes two
 * columns from the whole table, two wider than the longest group and the
 * longest weight, then prints each row as the group padded on the right,
 * " | ", and the weight padded on the left, ending in a newline.
 */
module PrettyAggregateOutput {
  import opened JavaLang
  import opened AggregateRows
  import opened Tables

  /** Math.max. */
  function MathMax(a: int, b: int): int {
    if a >= b then a else b
  }

  /** n blanks; nothing when n is not positive. */
  function Spaces(n: int): (s: string)
    ensures |s| == if n > 0 then n else 0
    ensures forall i | 0 <= i < |s| :: s[i] == ' '
  {
    if n <= 0 then "" else Spaces(n - 1) + " "
  }

  /** The Java length (in UTF-16 units) of the longest of the strings, 0 for none. */
  function Widest(texts: seq<string>): nat {
    if texts == [] then 0 else MathMax(Widest(texts[..|texts| - 1]), JavaLength(texts[|texts| - 1]))
  }

  /** row.group.toString() of every row. */
  function GroupTexts(rows: seq<AggregateRow>): (r: seq<string>)
    ensures |r| == |rows|
  {
    seq(|rows|, i requires 0 <= i < |rows| => rows[i].group)
  }

  /** String.valueOf(row.value) of every row. */
  function WeightTexts(rows: seq<AggregateRow>): (r: seq<string>)
    ensures |r| == |rows|
  {
    seq(|rows|, i requires 0 <= i < |rows| => IntToString(rows[i].value))
  }

  /** One printed row, from the group's and the weight's strings. */
  function Line(groupCols: int, weightCols: int, gs: string, ws: string): string {
    gs + Spaces(groupCols - JavaLength(gs)) + " | " + Spaces(weightCols - JavaLength(ws)) + ws + "\n"
  }

  lemma WidestSnoc(texts: seq<string>, t: string)
    ensures Widest(texts + [t]) == MathMax(Widest(texts), JavaLength(t))
  {
    assert (texts + [t])[..|texts|] == texts;
  }

  lemma TextsSnoc(rows: seq<AggregateRow>, i: int)
    requires 0 <= i < |rows|
    ensures WeightTexts(rows[..i + 1]) == WeightTexts(rows[..i]) + [IntToString(rows[i].value)]
    ensures GroupTexts(rows[..i + 1]) == GroupTexts(rows[..i]) + [rows[i].group]
  {
  }

  /** The width is an upper bound on every string's length. */
  lemma {:induction false} WidestBound(texts: seq<string>, i: int)
    requires 0 <= i < |texts|
    ensures JavaLength(texts[i]) <= Widest(texts)
  {
    var n := |texts| - 1;
    if i < n {
      WidestBound(texts[..n], i);
    }
  }

  /** The width is 0 for no strings and otherwise the length of one of them. */
  lemma {:induction false} WidestReached(texts: seq<string>)
    ensures texts == [] ==> Widest(texts) == 0
    ensures texts != [] ==> exists i | 0 <= i < |texts| :: JavaLength(texts[i]) == Widest(texts)
  {
    if texts != [] {
      var n := |texts| - 1;
      WidestReached(texts[..n]);
      if n > 0 && Widest(texts[..n]) > JavaLength(texts[n]) {
        var i :| 0 <= i < n && JavaLength(texts[..n][i]) == Widest(texts[..n]);
        assert texts[i] == texts[..n][i];
      }
    }
  }

  /**
   * When both strings fit their columns, a line's UTF-16 units are the
   * group, blanks up to the column width, " | ", blanks, the weight ending
   * at the column's right edge, and a newline.
   */
  lemma LineLayout(groupCols: int, weightCols: int, gs: string, ws: string)
    requires JavaLength(gs) <= groupCols && JavaLength(ws) <= weightCols
    ensures var u := Utf16(Line(groupCols, weightCols, gs, ws));
      var g, w := JavaLength(gs), JavaLength(ws);
      |u| == groupCols + 3 + weightCols + 1 &&
      u[..g] == Utf16(gs) &&
      (forall i | g <= i < groupCols :: u[i] == ' ' as int) &&
      u[groupCols..groupCols + 3] == Utf16(" | ") &&
      (forall i | groupCols + 3 <= i < groupCols + 3 + weightCols - w :: u[i] == ' ' as int) &&
      u[groupCols + 3 + weightCols - w..groupCols + 3 + weightCols] == Utf16(ws) &&
      u[|u| - 1] == '\n' as int
  {
    var g, w := JavaLength(gs), JavaLength(ws);
    var pad1, pad2 := Spaces(groupCols - g), Spaces(weightCols - w);
    Utf16OfBmp(pad1);
    Utf16OfBmp(pad2);
    assert Utf16(" | ") == [' ' as int, '|' as int, ' ' as int];
    assert Utf16("\n") == ['\n' as int];
    LineUnits(gs, pad1, pad2, ws);
    UnitsLayout(groupCols, weightCols, Utf16(gs), Utf16(pad1), Utf16(" | "), Utf16(pad2), Utf16(ws), Utf16("\n"));
    assert Line(groupCols, weightCols, gs, ws) == gs + pad1 + " | " + pad2 + ws + "\n";
  }

  /** The units of a line are the units of its six parts, one after the other. */
  lemma LineUnits(gs: string, pad1: string, pad2: string, ws: string)
    ensures Utf16(gs + pad1 + " | " + pad2 + ws + "\n") ==
      Utf16(gs) + Utf16(pad1) + Utf16(" | ") + Utf16(pad2) + Utf16(ws) + Utf16("\n")
  {
    Utf16Concat(gs, pad1);
    Utf16Concat(gs + pad1, " | ");
    Utf16Concat(gs + pad1 + " | ", pad2);
    Utf16Concat(gs + pad1 + " | " + pad2, ws);
    Utf16Concat(gs + pad1 + " | " + pad2 + ws, "\n");
  }

  /** Where each part of a line lands, counted in units. */
  lemma UnitsLayout(groupCols: int, weightCols: int, gu: seq<int>, p1: seq<int>, sep: seq<int>, p2: seq<int>, wu: seq<int>, nl: seq<int>)
    requires |gu| <= groupCols && |wu| <= weightCols && |sep| == 3 && nl == ['\n' as int]
    requires |p1| == groupCols - |gu| && forall i | 0 <= i < |p1| :: p1[i] == ' ' as int
    requires |p2| == weightCols - |wu| && forall i | 0 <= i < |p2| :: p2[i] == ' ' as int
    ensures var u := gu + p1 + sep + p2 + wu + nl;
      |u| == groupCols + 3 + weightCols + 1 &&
      u[..|gu|] == gu &&
      (forall i | |gu| <= i < groupCols :: u[i] == ' ' as int) &&
      u[groupCols..groupCols + 3] == sep &&
      (forall i | groupCols + 3 <= i < groupCols + 3 + weightCols - |wu| :: u[i] == ' ' as int) &&
      u[groupCols + 3 + weightCols - |wu|..groupCols + 3 + weightCols] == wu &&
      u[|u| - 1] == '\n' as int
  {
    var u := gu + p1 + sep + p2 + wu + nl;
    var a := gu + p1;
    var b := p2 + wu;
    assert u == a + sep + b + nl;
    assert u[..|gu|] == a[..|gu|];
    forall i | |gu| <= i < groupCols
      ensures u[i] == ' ' as int
    {
      assert u[i] == p1[i - |gu|];
    }
    forall i | groupCols + 3 <= i < groupCols + 3 + weightCols - |wu|
      ensures u[i] == ' ' as int
    {
      assert u[i] == p2[i - groupCols - 3];
    }
    assert u[groupCols + 3 + weightCols - |wu|..groupCols + 3 + weightCols] == b[weightCols - |wu|..];
  }

  class PrettyAggregateRowOutput {
    const weightCols: int
    const groupCols: int

    /** Size both columns from every row of the table, with two columns to spare. */
    constructor (tab: Table<AggregateRow>)
      ensures weightCols == Widest(WeightTexts(tab.rows)) + 2
      ensures groupCols == Widest(GroupTexts(tab.rows)) + 2
    {
      var rows := tab.rows;
      var w, g := 0, 0;
      for i := 0 to |rows|
        invariant w == Widest(WeightTexts(rows[..i])) && g == Widest(GroupTexts(rows[..i]))
      {
        var ws, gs := IntToString(rows[i].value), rows[i].group;
        TextsSnoc(rows, i);
        WidestSnoc(WeightTexts(rows[..i]), ws);
        WidestSnoc(GroupTexts(rows[..i]), gs);
        w := MathMax(w, JavaLength(ws));
        g := MathMax(g, JavaLength(gs));
      }
      assert rows[..|rows|] == rows;
      weightCols := w + 2;
      groupCols := g + 2;
    }

    /** apply: the group, padded to groupCols, " | ", the weight right-aligned in weightCols, and '\n'. */
    method Apply(input: AggregateRow) returns (s: string)
      ensures s == Line(groupCols, weightCols, input.group, IntToString(input.value))
    {
      var gs := input.group;
      s := gs;
      var w := JavaLength(gs);
      while w < groupCols
        invariant w == JavaLength(gs) || JavaLength(gs) < w <= groupCols
        invariant s == gs + Spaces(w - JavaLength(gs))
        decreases groupCols - w
      {
        s := s + " ";
        w := w + 1;
      }
      s := s + " | ";
      var prefix := s;
      var ws := IntToString(input.value);
      w := JavaLength(ws);
      while w < weightCols
        invariant w == JavaLength(ws) || JavaLength(ws) < w <= weightCols
        invariant s == prefix + Spaces(w - JavaLength(ws))
        decreases weightCols - w
      {
        s := s + " ";
        w := w + 1;
      }
      s := s + ws;
      s := s + "\n";
    }
  }

  /** A line of the two column widths, in UTF-16 units: the group first, " | " after groupCols, a newline last. */
  predicate Aligned(s: string, groupCols: nat, weightCols: nat, gs: string) {
    var u := Utf16(s);
    |u| == groupCols + weightCols + 4 && u[groupCols..groupCols + 3] == Utf16(" | ") &&
    JavaLength(gs) <= groupCols && u[..JavaLength(gs)] == Utf16(gs) && u[|u| - 1] == '\n' as int
  }

  lemma LineAligned(groupCols: nat, weightCols: nat, gs: string, ws: string)
    requires JavaLength(gs) <= groupCols && JavaLength(ws) <= weightCols
    ensures Aligned(Line(groupCols, weightCols, gs, ws), groupCols, weightCols, gs)
  {
    LineLayout(groupCols, weightCols, gs, ws);
  }

  /**
   * Every line printed with the widths sized from a table lines up: the
   * same length, and " | " at the same place.
   */
  lemma TableLinesAligned(groups: seq<string>, weights: seq<string>, i: int)
    requires 0 <= i < |groups| && 0 <= i < |weights|
    ensures Aligned(Line(Widest(groups) + 2, Widest(weights) + 2, groups[i], weights[i]),
      Widest(groups) + 2, Widest(weights) + 2, groups[i])
  {
    WidestBound(groups, i);
    WidestBound(weights, i);
    LineAligned(Widest(groups) + 2, Widest(weights) + 2, groups[i], weights[i]);
  }
}
