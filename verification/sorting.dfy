/**
 * Orderings: the compound row ordering `sortOn` builds and the stable
 * sort it is handed to. Each sort key compares one column with
 * `Ordering.natural()`; a "-" in front of a column name reverses that
 * key; later keys only break ties of earlier ones. The sort itself is
 * stable, so it is described here by the unique stable arrangement of
 * row indices: a permutation of 0..n-1 ordered by the keys, with ties in
 * input order.
 */
module Orderings {
  import opened JavaLang
  import opened Rows

  /** One parsed entry of the sort-column list. */
  datatype SortKey = SortKey(column: string, descending: bool)

  /** A leading "-" asks for descending order on the column named by the rest of the entry. */
  function ParseSortKey(colSpec: string): (k: SortKey)
    ensures k.descending <==> StartsWith(colSpec, "-")
    ensures (if k.descending then "-" else "") + k.column == colSpec
  {
    if StartsWith(colSpec, "-") then
      assert colSpec == "-" + colSpec[1..];
      SortKey(colSpec[1..], true)
    else SortKey(colSpec, false)
  }

  /** One key's comparison: ColumnOrdering, or its reverse(), which compares (right, left). */
  function KeyCompare(descending: bool, x: Value, y: Value): int
    requires Comparable(x, y)
  {
    if descending then NaturalCompare(y, x) else NaturalCompare(x, y)
  }

  /** Reversing a key flips the sign of its comparison and nothing else. */
  lemma ReverseFlipsSign(x: Value, y: Value)
    requires Comparable(x, y)
    ensures KeyCompare(true, x, y) < 0 <==> KeyCompare(false, x, y) > 0
    ensures KeyCompare(true, x, y) == 0 <==> KeyCompare(false, x, y) == 0
  {
    NaturalCompareAntisymmetric(x, y);
  }

  /**
   * One row's sort key as ColumnOrdering reads it: a Comparable value, or
   * the exception that reading it throws (an unknown column, or a value
   * that is not Comparable).
   */
  type Cell = Result<Value, TableError>

  /**
   * order.compound(cur) applied to two rows' keys. Key k is read only when
   * keys 0..k-1 tie, as Guava's compound ordering does; `reverse()` reads
   * the right row first. A key that cannot be read, or two keys of
   * different kinds, make the comparison throw.
   */
  function CompoundCompare(desc: seq<bool>, a: seq<Cell>, b: seq<Cell>): (r: Result<int, TableError>)
    requires |a| == |desc| && |b| == |desc|
    ensures r.Ok? ==> (r.value == 0 <==> a == b)
  {
    if desc == [] then Ok(0)
    else
      var (first, second) := if desc[0] then (b[0], a[0]) else (a[0], b[0]);
      if first.Err? then Err(first.error)
      else if second.Err? then Err(second.error)
      else if !Comparable(a[0].value, b[0].value) then Err(ClassCast)
      else
        var c := KeyCompare(desc[0], a[0].value, b[0].value);
        if c != 0 then Ok(c)
        else
          assert a == [a[0]] + a[1..] && b == [b[0]] + b[1..];
          CompoundCompare(desc[1..], a[1..], b[1..])
  }

  /** Key k is the first key two rows do not share, and it cannot be compared. */
  predicate ClashAt(a: seq<Cell>, b: seq<Cell>, k: nat)
    requires k < |a| && k < |b|
  {
    a[..k] == b[..k] &&
    (a[k].Err? || b[k].Err? || !Comparable(a[k].value, b[k].value))
  }

  /**
   * The compound comparison throws exactly when the rows agree on keys
   * 0..k-1 and key k cannot be compared: later keys are never read.
   */
  lemma {:induction false} CompoundCompareFails(desc: seq<bool>, a: seq<Cell>, b: seq<Cell>)
    requires |a| == |desc| && |b| == |desc|
    ensures CompoundCompare(desc, a, b).Err? <==> exists k | 0 <= k < |desc| :: ClashAt(a, b, k)
  {
    if desc != [] {
      var r := CompoundCompare(desc, a, b);
      if ClashAt(a, b, 0) {
      } else if KeyCompare(desc[0], a[0].value, b[0].value) != 0 {
        assert a[0] != b[0];
        forall k | 0 <= k < |desc|
          ensures !ClashAt(a, b, k)
        {
          if k > 0 {
            assert a[..k][0] != b[..k][0];
          }
        }
      } else {
        CompoundCompareFails(desc[1..], a[1..], b[1..]);
        assert a[0] == b[0];
        if r.Err? {
          var k :| 0 <= k < |desc| - 1 && ClashAt(a[1..], b[1..], k);
          assert a[..k + 1] == [a[0]] + a[1..][..k] && b[..k + 1] == [b[0]] + b[1..][..k];
          assert ClashAt(a, b, k + 1);
        } else {
          forall k | 0 <= k < |desc|
            ensures !ClashAt(a, b, k)
          {
            if k > 0 && ClashAt(a, b, k) {
              assert a[1..][..k - 1] == a[..k][1..] && b[1..][..k - 1] == b[..k][1..];
              assert ClashAt(a[1..], b[1..], k - 1);
            }
          }
        }
      }
    }
  }

  lemma {:induction false} CompoundAntisymmetric(desc: seq<bool>, a: seq<Cell>, b: seq<Cell>)
    requires |a| == |desc| && |b| == |desc|
    requires CompoundCompare(desc, a, b).Ok? && CompoundCompare(desc, b, a).Ok?
    ensures CompoundCompare(desc, a, b).value < 0 <==> CompoundCompare(desc, b, a).value > 0
  {
    if desc != [] {
      NaturalCompareAntisymmetric(a[0].value, b[0].value);
      if KeyCompare(desc[0], a[0].value, b[0].value) == 0 {
        CompoundAntisymmetric(desc[1..], a[1..], b[1..]);
      }
    }
  }

  lemma {:induction false} CompoundTransitive(desc: seq<bool>, a: seq<Cell>, b: seq<Cell>, c: seq<Cell>)
    requires |a| == |desc| && |b| == |desc| && |c| == |desc|
    requires CompoundCompare(desc, a, b).Ok? && CompoundCompare(desc, b, c).Ok? && CompoundCompare(desc, a, c).Ok?
    requires CompoundCompare(desc, a, b).value < 0 && CompoundCompare(desc, b, c).value < 0
    ensures CompoundCompare(desc, a, c).value < 0
  {
    var x, y, z := a[0].value, b[0].value, c[0].value;
    if desc[0] {
      NaturalCompareTransitive(z, y, x);
    } else {
      NaturalCompareTransitive(x, y, z);
    }
    if KeyCompare(desc[0], x, y) == 0 && KeyCompare(desc[0], y, z) == 0 {
      CompoundTransitive(desc[1..], a[1..], b[1..], c[1..]);
    }
  }

  // ---------------------------------------------------------------------
  // The stable sort over row indices

  /** Every row has one cell per key. */
  predicate Shaped(desc: seq<bool>, vals: seq<seq<Cell>>) {
    forall i | 0 <= i < |vals| :: |vals[i]| == |desc|
  }

  /** Every two distinct rows can be compared without an exception. */
  predicate Sortable(desc: seq<bool>, vals: seq<seq<Cell>>) {
    Shaped(desc, vals) &&
    forall x, y | 0 <= x < |vals| && 0 <= y < |vals| && x != y :: CompoundCompare(desc, vals[x], vals[y]).Ok?
  }

  /**
   * The first pair of rows y < x < n, by increasing x and then y, whose
   * comparison throws, and what it throws.
   */
  function Clash(desc: seq<bool>, vals: seq<seq<Cell>>, n: nat): (r: Option<TableError>)
    requires Shaped(desc, vals) && n <= |vals|
    ensures r.None? <==> forall y, x | 0 <= y < x < n :: CompoundCompare(desc, vals[y], vals[x]).Ok?
  {
    if n == 0 then None
    else
      match Clash(desc, vals, n - 1)
      case Some(e) => Some(e)
      case None => RowClash(desc, vals, n - 1, n - 1)
  }

  /** The first row y < m whose comparison with row x throws. */
  function RowClash(desc: seq<bool>, vals: seq<seq<Cell>>, x: nat, m: nat): (r: Option<TableError>)
    requires Shaped(desc, vals) && x < |vals| && m <= |vals|
    ensures r.None? <==> forall y | 0 <= y < m :: CompoundCompare(desc, vals[y], vals[x]).Ok?
  {
    if m == 0 then None
    else
      match RowClash(desc, vals, x, m - 1)
      case Some(e) => Some(e)
      case None =>
        match CompoundCompare(desc, vals[m - 1], vals[x])
        case Err(e) => Some(e)
        case Ok(_) => None
  }

  /** Finding no throwing pair among the ordered pairs means every two rows compare. */
  lemma ClashFreeSortable(desc: seq<bool>, vals: seq<seq<Cell>>)
    requires Shaped(desc, vals)
    ensures Clash(desc, vals, |vals|).None? <==> Sortable(desc, vals)
  {
    if Clash(desc, vals, |vals|).None? {
      forall x, y | 0 <= x < |vals| && 0 <= y < |vals| && x != y
        ensures CompoundCompare(desc, vals[x], vals[y]).Ok?
      {
        if y < x {
          CompoundCompareFails(desc, vals[x], vals[y]);
          CompoundCompareFails(desc, vals[y], vals[x]);
          SwapClash(vals[x], vals[y]);
        }
      }
    }
  }

  /** Whether two rows clash does not depend on which one is on the left. */
  lemma SwapClash(a: seq<Cell>, b: seq<Cell>)
    requires |a| == |b|
    ensures (exists k | 0 <= k < |a| :: ClashAt(a, b, k)) ==> (exists k | 0 <= k < |a| :: ClashAt(b, a, k))
  {
    if exists k | 0 <= k < |a| :: ClashAt(a, b, k) {
      var k :| 0 <= k < |a| && ClashAt(a, b, k);
      assert ClashAt(b, a, k);
    }
  }

  /** The compound comparison of rows x and y. */
  function RowCompare(desc: seq<bool>, vals: seq<seq<Cell>>, x: nat, y: nat): int
    requires Sortable(desc, vals) && x < |vals| && y < |vals|
  {
    if x == y then 0 else CompoundCompare(desc, vals[x], vals[y]).value
  }

  /** Row x goes before row y: its keys are smaller, or they tie and x came first. */
  predicate Before(desc: seq<bool>, vals: seq<seq<Cell>>, x: nat, y: nat)
    requires Sortable(desc, vals) && x < |vals| && y < |vals|
  {
    var c := RowCompare(desc, vals, x, y);
    c < 0 || (c == 0 && x < y)
  }

  /** `Before` is a strict total order on row indices. */
  lemma BeforeTotal(desc: seq<bool>, vals: seq<seq<Cell>>, x: nat, y: nat)
    requires Sortable(desc, vals) && x < |vals| && y < |vals|
    ensures x != y ==> Before(desc, vals, x, y) || Before(desc, vals, y, x)
    ensures !(Before(desc, vals, x, y) && Before(desc, vals, y, x))
  {
    if x != y {
      CompoundAntisymmetric(desc, vals[x], vals[y]);
    }
  }

  lemma BeforeTransitive(desc: seq<bool>, vals: seq<seq<Cell>>, x: nat, y: nat, z: nat)
    requires Sortable(desc, vals) && x < |vals| && y < |vals| && z < |vals|
    requires Before(desc, vals, x, y) && Before(desc, vals, y, z)
    ensures Before(desc, vals, x, z)
  {
    BeforeTotal(desc, vals, x, y);
    var a, b, c := vals[x], vals[y], vals[z];
    if x != z && RowCompare(desc, vals, x, y) < 0 && RowCompare(desc, vals, y, z) < 0 {
      CompoundTransitive(desc, a, b, c);
    }
  }

  predicate InRange(s: seq<nat>, n: nat) {
    forall i | 0 <= i < |s| :: s[i] < n
  }

  /** Indices listed in strictly increasing `Before` order. */
  predicate Sorted(desc: seq<bool>, vals: seq<seq<Cell>>, s: seq<nat>)
    requires Sortable(desc, vals) && InRange(s, |vals|)
  {
    forall i, j | 0 <= i < j < |s| :: Before(desc, vals, s[i], s[j])
  }

  /** Insert x in front of the first index it goes before. */
  function Insert(desc: seq<bool>, vals: seq<seq<Cell>>, x: nat, s: seq<nat>): (r: seq<nat>)
    requires Sortable(desc, vals) && x < |vals| && InRange(s, |vals|)
    ensures InRange(r, |vals|) && multiset(r) == multiset(s) + multiset{x}
  {
    if s == [] then [x]
    else if Before(desc, vals, x, s[0]) then [x] + s
    else
      var r := [s[0]] + Insert(desc, vals, x, s[1..]);
      assert s == [s[0]] + s[1..];
      r
  }

  /** The stable arrangement of rows 0..n-1. */
  function SortIndices(desc: seq<bool>, vals: seq<seq<Cell>>, n: nat): (r: seq<nat>)
    requires Sortable(desc, vals) && n <= |vals|
    ensures InRange(r, |vals|) && multiset(r) == multiset(Range(n))
  {
    if n == 0 then []
    else
      assert Range(n) == Range(n - 1) + [n - 1];
      Insert(desc, vals, n - 1, SortIndices(desc, vals, n - 1))
  }

  function Range(n: nat): (r: seq<nat>)
    ensures |r| == n && forall i | 0 <= i < n :: r[i] == i
  {
    seq(n, i => i)
  }

  lemma {:induction false} InsertSorted(desc: seq<bool>, vals: seq<seq<Cell>>, x: nat, s: seq<nat>)
    requires Sortable(desc, vals) && x < |vals| && InRange(s, |vals|)
    requires Sorted(desc, vals, s) && x !in s
    ensures Sorted(desc, vals, Insert(desc, vals, x, s))
  {
    if s == [] {
    } else if Before(desc, vals, x, s[0]) {
      var r := [x] + s;
      forall i, j | 0 <= i < j < |r|
        ensures Before(desc, vals, r[i], r[j])
      {
        if i == 0 && j > 1 {
          BeforeTransitive(desc, vals, x, s[0], s[j - 1]);
        }
      }
    } else {
      var tail := Insert(desc, vals, x, s[1..]);
      InsertSorted(desc, vals, x, s[1..]);
      BeforeTotal(desc, vals, x, s[0]);
      var r := [s[0]] + tail;
      forall j | 0 < j < |r|
        ensures Before(desc, vals, s[0], r[j])
      {
        assert r[j] in multiset(tail);
        if r[j] != x {
          assert r[j] in multiset(s[1..]);
          var k :| 0 <= k < |s[1..]| && s[1..][k] == r[j];
          assert s[k + 1] == r[j];
        }
      }
    }
  }

  lemma {:induction false} SortIndicesSorted(desc: seq<bool>, vals: seq<seq<Cell>>, n: nat)
    requires Sortable(desc, vals) && n <= |vals|
    ensures Sorted(desc, vals, SortIndices(desc, vals, n))
  {
    if n > 0 {
      SortIndicesSorted(desc, vals, n - 1);
      SortIndicesStep(desc, vals, n);
    }
  }

  /** Inserting row n - 1 into the sorted rows 0..n-2 keeps them sorted. */
  lemma SortIndicesStep(desc: seq<bool>, vals: seq<seq<Cell>>, n: nat)
    requires Sortable(desc, vals) && 0 < n <= |vals|
    requires Sorted(desc, vals, SortIndices(desc, vals, n - 1))
    ensures Sorted(desc, vals, SortIndices(desc, vals, n))
  {
    SortIndicesFresh(desc, vals, n - 1);
    InsertSorted(desc, vals, n - 1, SortIndices(desc, vals, n - 1));
  }

  /** Row n is not among the sorted rows 0..n-1. */
  lemma SortIndicesFresh(desc: seq<bool>, vals: seq<seq<Cell>>, n: nat)
    requires Sortable(desc, vals) && n <= |vals|
    ensures n !in SortIndices(desc, vals, n)
  {
    assert n !in Range(n);
    assert n !in multiset(SortIndices(desc, vals, n));
  }

  /** The stable sort of n rows lists each of the rows 0..n-1 exactly once. */
  lemma SortIndicesPermutation(desc: seq<bool>, vals: seq<seq<Cell>>, n: nat)
    requires Sortable(desc, vals) && n <= |vals|
    ensures |SortIndices(desc, vals, n)| == n
    ensures forall i | 0 <= i < n :: i in SortIndices(desc, vals, n) && SortIndices(desc, vals, n)[i] < n
  {
    var s := SortIndices(desc, vals, n);
    assert |s| == |multiset(s)| == |multiset(Range(n))| == n;
    forall i | 0 <= i < n
      ensures i in s && s[i] < n
    {
      assert Range(n)[i] == i;
      assert i in multiset(Range(n));
      assert s[i] in multiset(s);
      var k :| 0 <= k < n && Range(n)[k] == s[i];
    }
  }

  /**
   * The stable sort of n rows: keys never decrease along the result, and
   * rows with equal keys keep their input order.
   */
  lemma SortIndicesOrdered(desc: seq<bool>, vals: seq<seq<Cell>>, n: nat)
    requires Sortable(desc, vals) && n <= |vals|
    ensures forall i, j | 0 <= i < j < |SortIndices(desc, vals, n)| ::
      RowCompare(desc, vals, SortIndices(desc, vals, n)[i], SortIndices(desc, vals, n)[j]) <= 0
    ensures forall i, j | 0 <= i < j < |SortIndices(desc, vals, n)| ::
      vals[SortIndices(desc, vals, n)[i]] == vals[SortIndices(desc, vals, n)[j]] ==>
        SortIndices(desc, vals, n)[i] < SortIndices(desc, vals, n)[j]
  {
    var s := SortIndices(desc, vals, n);
    SortIndicesSorted(desc, vals, n);
    forall i, j | 0 <= i < j < |s|
      ensures RowCompare(desc, vals, s[i], s[j]) <= 0
      ensures vals[s[i]] == vals[s[j]] ==> s[i] < s[j]
    {
      assert Before(desc, vals, s[i], s[j]);
    }
  }

  lemma SortedTail(desc: seq<bool>, vals: seq<seq<Cell>>, s: seq<nat>)
    requires Sortable(desc, vals) && InRange(s, |vals|) && s != []
    requires Sorted(desc, vals, s)
    ensures InRange(s[1..], |vals|) && Sorted(desc, vals, s[1..])
  {
    forall i, j | 0 <= i < j < |s| - 1
      ensures Before(desc, vals, s[1..][i], s[1..][j])
    {
      assert s[1..][i] == s[i + 1] && s[1..][j] == s[j + 1];
    }
  }

  /** Two sorted arrangements of the same non-empty indices start with the same index. */
  lemma SortedHeadsAgree(desc: seq<bool>, vals: seq<seq<Cell>>, s: seq<nat>, t: seq<nat>)
    requires Sortable(desc, vals) && InRange(s, |vals|) && InRange(t, |vals|)
    requires Sorted(desc, vals, s) && Sorted(desc, vals, t) && multiset(s) == multiset(t)
    requires s != []
    ensures t != [] && t[0] == s[0]
  {
    assert s[0] in multiset(t);
    var j :| 0 <= j < |t| && t[j] == s[0];
    assert t[0] in multiset(s);
    var i :| 0 <= i < |s| && s[i] == t[0];
    if j != 0 {
      assert Before(desc, vals, t[0], s[0]);
      if i != 0 {
        assert Before(desc, vals, s[0], t[0]);
        BeforeTotal(desc, vals, s[0], t[0]);
      }
    }
  }

  /** Removing a common first element keeps two multisets equal. */
  lemma TailsSameMultiset(s: seq<nat>, t: seq<nat>)
    requires s != [] && t != [] && s[0] == t[0] && multiset(s) == multiset(t)
    ensures multiset(s[1..]) == multiset(t[1..])
  {
    assert s == [s[0]] + s[1..] && t == [t[0]] + t[1..];
    assert multiset(s[1..]) == multiset(s) - multiset{s[0]};
    assert multiset(t[1..]) == multiset(t) - multiset{s[0]};
  }

  /**
   * Any two arrangements of the same indices that are both in strictly
   * increasing `Before` order are equal: every stable sort agrees with
   * this one.
   */
  lemma {:induction false} SortedUnique(desc: seq<bool>, vals: seq<seq<Cell>>, s: seq<nat>, t: seq<nat>)
    requires Sortable(desc, vals) && InRange(s, |vals|) && InRange(t, |vals|)
    requires Sorted(desc, vals, s) && Sorted(desc, vals, t) && multiset(s) == multiset(t)
    ensures s == t
  {
    if s == [] {
      assert |t| == |multiset(t)| == 0;
    } else {
      SortedHeadsAgree(desc, vals, s, t);
      TailsSameMultiset(s, t);
      SortedTail(desc, vals, s);
      SortedTail(desc, vals, t);
      SortedUnique(desc, vals, s[1..], t[1..]);
      assert s == [s[0]] + s[1..] && t == [t[0]] + t[1..];
    }
  }
}
