/**
 * TraceTransformers: functions from a stack trace to a stack trace. A
 * trace lists its frames innermost first (index 0 is the frame that
 * allocated); the "above" transforms look for the FIRST frame satisfying
 * the predicate, the "below" transforms for the LAST one.
 */
module TraceTransformers {
  import opened JavaLang

  type Trace = seq<StackTraceElement>
  type FramePredicate = StackTraceElement -> bool

  // ---------------------------------------------------------------------
  // prune / keep: filters

  /** prune(spec): the frames that do not satisfy `p`, in order. */
  function Pruned(p: FramePredicate, t: Trace): (r: Trace)
    ensures |r| <= |t|
    ensures forall k | 0 <= k < |r| :: !p(r[k])
  {
    if t == [] then []
    else if p(t[0]) then Pruned(p, t[1..])
    else [t[0]] + Pruned(p, t[1..])
  }

  /** keep(spec): the frames that satisfy `p`, in order. */
  function Kept(p: FramePredicate, t: Trace): (r: Trace)
    ensures |r| <= |t|
    ensures forall k | 0 <= k < |r| :: p(r[k])
  {
    if t == [] then []
    else if p(t[0]) then [t[0]] + Kept(p, t[1..])
    else Kept(p, t[1..])
  }

  /** prune and keep split a trace: every frame goes to exactly one side. */
  lemma {:induction false} PruneKeepPartition(p: FramePredicate, t: Trace)
    ensures |Pruned(p, t)| + |Kept(p, t)| == |t|
    ensures multiset(Pruned(p, t)) + multiset(Kept(p, t)) == multiset(t)
  {
    if t != [] {
      PruneKeepPartition(p, t[1..]);
      assert t == [t[0]] + t[1..];
    }
  }

  /** A frame survives prune exactly when it is in the trace and fails `p`; it survives keep exactly when it satisfies `p`. */
  lemma {:induction false} FilterMembers(p: FramePredicate, t: Trace, x: StackTraceElement)
    ensures x in Pruned(p, t) <==> x in t && !p(x)
    ensures x in Kept(p, t) <==> x in t && p(x)
  {
    if t != [] {
      FilterMembers(p, t[1..], x);
      assert t == [t[0]] + t[1..];
    }
  }

  /** The filters keep the relative order of frames: they distribute over concatenation. */
  lemma {:induction false} FiltersDistribute(p: FramePredicate, a: Trace, b: Trace)
    ensures Pruned(p, a + b) == Pruned(p, a) + Pruned(p, b)
    ensures Kept(p, a + b) == Kept(p, a) + Kept(p, b)
  {
    if a != [] {
      var ab := a + b;
      assert ab[0] == a[0] && ab[1..] == a[1..] + b;
      FiltersDistribute(p, a[1..], b);
      assert Pruned(p, ab) == (if p(a[0]) then [] else [a[0]]) + Pruned(p, a[1..] + b);
      assert Kept(p, ab) == (if p(a[0]) then [a[0]] else []) + Kept(p, a[1..] + b);
    } else {
      assert a + b == b;
    }
  }

  // ---------------------------------------------------------------------
  // pruneAbove / keepAbove: the first match

  /** Iterables.indexOf(input, spec): the first frame satisfying `p`, or -1. */
  function FirstMatch(p: FramePredicate, t: Trace): (r: int)
    ensures -1 <= r < |t|
    ensures r >= 0 ==> p(t[r])
    ensures forall k | 0 <= k < r || (r == -1 && 0 <= k < |t|) :: !p(t[k])
  {
    if t == [] then -1
    else if p(t[0]) then 0
    else
      var i := FirstMatch(p, t[1..]);
      if i == -1 then -1 else i + 1
  }

  /** pruneAbove(spec): drop the frames before the first match; no match drops everything. */
  function PrunedAbove(p: FramePredicate, t: Trace): (r: Trace)
    ensures |r| <= |t|
    ensures r != [] ==> p(r[0])
  {
    var i := FirstMatch(p, t);
    if i == -1 then [] else t[i..]
  }

  /** keepAbove(spec): the frames before the first match; no match keeps the input. */
  function KeptAbove(p: FramePredicate, t: Trace): (r: Trace)
    ensures |r| <= |t|
  {
    var i := FirstMatch(p, t);
    if i == -1 then t else t[..i]
  }

  /** pruneAbove starts at a matching frame and drops only frames that do not match. */
  lemma PrunedAboveShape(p: FramePredicate, t: Trace)
    ensures (forall k | 0 <= k < |t| :: !p(t[k])) ==> PrunedAbove(p, t) == []
    ensures PrunedAbove(p, t) != [] ==> p(PrunedAbove(p, t)[0])
    ensures forall k | 0 <= k < |t| - |PrunedAbove(p, t)| :: !p(t[k])
  {
  }

  /** keepAbove keeps a prefix free of matches, the input itself when nothing matches. */
  lemma KeptAboveShape(p: FramePredicate, t: Trace)
    ensures (forall k | 0 <= k < |t| :: !p(t[k])) ==> KeptAbove(p, t) == t
    ensures forall k | 0 <= k < |KeptAbove(p, t)| :: !p(KeptAbove(p, t)[k])
    ensures KeptAbove(p, t) == t[..|KeptAbove(p, t)|]
  {
  }

  // ---------------------------------------------------------------------
  // pruneBelow / keepBelow: the last match

  /** The index the backward search of pruneBelow and keepBelow stops at: the last match, or -1. */
  function LastMatch(p: FramePredicate, t: Trace): (r: int)
    ensures -1 <= r < |t|
    ensures r >= 0 ==> p(t[r])
    ensures forall k | r < k < |t| :: !p(t[k])
  {
    if t == [] then -1
    else if p(t[|t| - 1]) then |t| - 1
    else LastMatch(p, t[..|t| - 1])
  }

  /** pruneBelow(spec): the frames up to and including the last match (Iterables.limit(input, last + 1)). */
  function PrunedBelow(p: FramePredicate, t: Trace): (r: Trace)
    ensures |r| <= |t|
    ensures r != [] ==> p(r[|r| - 1])
  {
    t[..LastMatch(p, t) + 1]
  }

  /** keepBelow(spec): the frames after the last match (Iterables.skip(input, last + 1)). */
  function KeptBelow(p: FramePredicate, t: Trace): (r: Trace)
    ensures |r| <= |t|
  {
    t[LastMatch(p, t) + 1..]
  }

  /** The backward search of pruneBelow and keepBelow: stop at the first match from the end. */
  method FindLast(p: FramePredicate, t: Trace) returns (last: int)
    ensures last == LastMatch(p, t)
  {
    last := -1;
    var i := |t| - 1;
    while i >= 0
      invariant -1 <= i < |t|
      invariant last == -1
      invariant forall k | i < k < |t| :: !p(t[k])
    {
      if p(t[i]) {
        last := i;
        break;
      }
      i := i - 1;
    }
  }

  method PruneBelow(p: FramePredicate, t: Trace) returns (r: Trace)
    ensures r == PrunedBelow(p, t)
  {
    var last := FindLast(p, t);
    r := t[..last + 1];
  }

  method KeepBelow(p: FramePredicate, t: Trace) returns (r: Trace)
    ensures r == KeptBelow(p, t)
  {
    var last := FindLast(p, t);
    r := t[last + 1..];
  }

  /** pruneBelow keeps a prefix that ends at a match and drops only non-matching frames; nothing matching gives []. */
  lemma PrunedBelowShape(p: FramePredicate, t: Trace)
    ensures (forall k | 0 <= k < |t| :: !p(t[k])) <==> PrunedBelow(p, t) == []
    ensures PrunedBelow(p, t) == t[..|PrunedBelow(p, t)|]
    ensures PrunedBelow(p, t) != [] ==> p(PrunedBelow(p, t)[|PrunedBelow(p, t)| - 1])
    ensures forall k | |PrunedBelow(p, t)| <= k < |t| :: !p(t[k])
  {
  }

  /** keepBelow keeps a suffix free of matches; when nothing matches that suffix is the whole input. */
  lemma KeptBelowShape(p: FramePredicate, t: Trace)
    ensures (forall k | 0 <= k < |t| :: !p(t[k])) ==> KeptBelow(p, t) == t
    ensures forall k | 0 <= k < |KeptBelow(p, t)| :: !p(KeptBelow(p, t)[k])
    ensures KeptBelow(p, t) == t[|t| - |KeptBelow(p, t)|..]
  {
    var i := LastMatch(p, t);
    forall k | 0 <= k < |KeptBelow(p, t)|
      ensures !p(KeptBelow(p, t)[k])
    {
      assert KeptBelow(p, t)[k] == t[i + 1 + k];
    }
  }

  /** The keep and prune variants of each direction are complementary: together they rebuild the trace. */
  lemma SplitsRebuild(p: FramePredicate, t: Trace)
    ensures KeptAbove(p, t) + PrunedAbove(p, t) == t
    ensures PrunedBelow(p, t) + KeptBelow(p, t) == t
  {
    var i := FirstMatch(p, t);
    if i != -1 {
      assert t[..i] + t[i..] == t;
    }
    var j := LastMatch(p, t);
    assert t[..j + 1] + t[j + 1..] == t;
  }

  /** With exactly one frame matching, cutting above and below it leaves that frame alone. */
  lemma SingleMatchIsolated(p: FramePredicate, t: Trace, m: nat)
    requires m < |t| && p(t[m])
    requires forall k | 0 <= k < |t| && k != m :: !p(t[k])
    ensures PrunedBelow(p, PrunedAbove(p, t)) == [t[m]]
  {
    var i := FirstMatch(p, t);
    assert i == m;
    var u := t[m..];
    assert u[0] == t[m];
    forall k | 0 < k < |u|
      ensures !p(u[k])
    {
      assert u[k] == t[m + k];
    }
    var j := LastMatch(p, u);
    assert j == 0;
  }

  // ---------------------------------------------------------------------
  // pruneRecursion

  /** A frame's call site: class name and method name. */
  function SiteOf(ste: StackTraceElement): (string, string) {
    (ste.className, ste.methodName)
  }

  /** The initial value of the remembered site; a last frame with this site is dropped. */
  const Sentinel: (string, string) := ("~", "~")

  /** The site the backward loop remembers when it reaches frame i: that of frame i+1, or the sentinel. */
  function SiteAfter(t: Trace, i: nat): (string, string)
    requires i < |t|
  {
    if i == |t| - 1 then Sentinel else SiteOf(t[i + 1])
  }

  /** Frame i survives pruneRecursion: its site differs from the one after it. */
  predicate Survives(t: Trace, i: nat)
    requires i < |t|
  {
    SiteOf(t[i]) != SiteAfter(t, i)
  }

  /** The surviving frames from index i on, in order. */
  function CollapsedFrom(t: Trace, i: nat): (r: Trace)
    requires i <= |t|
    ensures |r| <= |t| - i
    decreases |t| - i
  {
    if i == |t| then []
    else (if Survives(t, i) then [t[i]] else []) + CollapsedFrom(t, i + 1)
  }

  /** pruneRecursion(): each run of consecutive frames with one site is reduced to its outermost (last) frame. */
  function RecursionPruned(t: Trace): (r: Trace)
    ensures |r| <= |t|
  {
    CollapsedFrom(t, 0)
  }

  /** One step of the backward loop: the frame at i is put in front when its site differs from the remembered one. */
  method CollapseStep(t: Trace, i: nat, ret: Trace, lastClass: string, lastMethod: string)
      returns (ret': Trace, lastClass': string, lastMethod': string)
    requires i < |t|
    requires ret == CollapsedFrom(t, i + 1)
    requires (lastClass, lastMethod) == SiteAfter(t, i)
    ensures ret' == CollapsedFrom(t, i)
    ensures (lastClass', lastMethod') == SiteOf(t[i])
  {
    var ste := t[i];
    if ste.className == lastClass && ste.methodName == lastMethod {
      return ret, lastClass, lastMethod;
    }
    lastClass', lastMethod' := ste.className, ste.methodName;
    ret' := [ste] + ret;
  }

  method PruneRecursion(t: Trace) returns (ret: Trace)
    ensures ret == RecursionPruned(t)
  {
    var lastClass, lastMethod := "~", "~";
    ret := [];
    var i := |t| - 1;
    while i >= 0
      invariant -1 <= i < |t|
      invariant ret == CollapsedFrom(t, i + 1)
      invariant i + 1 < |t| ==> (lastClass, lastMethod) == SiteOf(t[i + 1])
      invariant i + 1 == |t| ==> (lastClass, lastMethod) == Sentinel
    {
      ret, lastClass, lastMethod := CollapseStep(t, i, ret, lastClass, lastMethod);
      i := i - 1;
    }
  }

  /** The first surviving frame from i on has the site of frame i. */
  lemma {:induction false} CollapsedHeadSite(t: Trace, i: nat)
    requires i <= |t|
    requires CollapsedFrom(t, i) != []
    ensures i < |t| && SiteOf(CollapsedFrom(t, i)[0]) == SiteOf(t[i])
    decreases |t| - i
  {
    if !Survives(t, i) {
      CollapsedHeadSite(t, i + 1);
    }
  }

  /** No two neighbouring frames of the result share a site. */
  lemma {:induction false} CollapsedNoRepeats(t: Trace, i: nat)
    requires i <= |t|
    ensures forall k | 0 <= k < |CollapsedFrom(t, i)| - 1 :: SiteOf(CollapsedFrom(t, i)[k]) != SiteOf(CollapsedFrom(t, i)[k + 1])
    decreases |t| - i
  {
    if i < |t| {
      CollapsedNoRepeats(t, i + 1);
      var rest := CollapsedFrom(t, i + 1);
      if Survives(t, i) && rest != [] {
        CollapsedHeadSite(t, i + 1);
      }
    }
  }

  /** The last frame of the result never carries the sentinel site. */
  lemma {:induction false} CollapsedLastSite(t: Trace, i: nat)
    requires i <= |t|
    requires CollapsedFrom(t, i) != []
    ensures SiteOf(CollapsedFrom(t, i)[|CollapsedFrom(t, i)| - 1]) != Sentinel
    decreases |t| - i
  {
    var rest := CollapsedFrom(t, i + 1);
    if rest != [] {
      CollapsedLastSite(t, i + 1);
    } else if i + 1 < |t| {
      // frame i survives and everything after it collapsed away
      CollapsedTailSentinel(t, i + 1);
    }
  }

  /** When nothing survives from j on, every frame from j on carries the sentinel site. */
  lemma {:induction false} CollapsedTailSentinel(t: Trace, j: nat)
    requires j < |t|
    requires CollapsedFrom(t, j) == []
    ensures SiteOf(t[j]) == Sentinel
    decreases |t| - j
  {
    if j + 1 < |t| {
      CollapsedTailSentinel(t, j + 1);
    }
  }

  /** A trace without neighbouring repeats that does not end on the sentinel site is left alone. */
  lemma {:induction false} CollapsedFixedPoint(t: Trace, i: nat)
    requires i <= |t|
    requires forall k | 0 <= k < |t| - 1 :: SiteOf(t[k]) != SiteOf(t[k + 1])
    requires t != [] ==> SiteOf(t[|t| - 1]) != Sentinel
    ensures CollapsedFrom(t, i) == t[i..]
    decreases |t| - i
  {
    if i < |t| {
      CollapsedFixedPoint(t, i + 1);
      assert Survives(t, i);
      assert t[i..] == [t[i]] + t[i + 1..];
    }
  }

  /** pruneRecursion: no neighbouring repeats, never ends on the sentinel, and applying it twice changes nothing. */
  lemma RecursionPrunedIdempotent(t: Trace)
    ensures forall k | 0 <= k < |RecursionPruned(t)| - 1 :: SiteOf(RecursionPruned(t)[k]) != SiteOf(RecursionPruned(t)[k + 1])
    ensures RecursionPruned(RecursionPruned(t)) == RecursionPruned(t)
  {
    var r := RecursionPruned(t);
    CollapsedNoRepeats(t, 0);
    if r != [] {
      CollapsedLastSite(t, 0);
    }
    CollapsedFixedPoint(r, 0);
  }

  /** Every frame of the result comes from the input. */
  lemma {:induction false} CollapsedFromInput(t: Trace, i: nat, x: StackTraceElement)
    requires i <= |t|
    ensures x in CollapsedFrom(t, i) ==> x in t[i..]
    decreases |t| - i
  {
    if i < |t| {
      CollapsedFromInput(t, i + 1, x);
      assert t[i..] == [t[i]] + t[i + 1..];
    }
  }

  // ---------------------------------------------------------------------
  // The TT values

  datatype TraceTransform =
    | Prune(p: FramePredicate)
    | Keep(p: FramePredicate)
    | PruneAbove(p: FramePredicate)
    | PruneBelow(p: FramePredicate)
    | KeepAbove(p: FramePredicate)
    | KeepBelow(p: FramePredicate)
    | PruneRecursion

  /** TT.apply. */
  function Apply(tt: TraceTransform, t: Trace): (r: Trace)
    ensures |r| <= |t|
  {
    match tt
    case Prune(p) => Pruned(p, t)
    case Keep(p) => Kept(p, t)
    case PruneAbove(p) => PrunedAbove(p, t)
    case PruneBelow(p) => PrunedBelow(p, t)
    case KeepAbove(p) => KeptAbove(p, t)
    case KeepBelow(p) => KeptBelow(p, t)
    case PruneRecursion => RecursionPruned(t)
  }

  /** Every transform's result is made of frames of its input, and applying it a second time changes nothing. */
  lemma Idempotent(tt: TraceTransform, t: Trace)
    ensures forall x | x in Apply(tt, t) :: x in t
    ensures Apply(tt, Apply(tt, t)) == Apply(tt, t)
  {
    match tt
    case Prune(p) =>
      forall x | x in Apply(tt, t) ensures x in t { FilterMembers(p, t, x); }
      PrunedUnchanged(p, Pruned(p, t));
    case Keep(p) =>
      forall x | x in Apply(tt, t) ensures x in t { FilterMembers(p, t, x); }
      KeptUnchanged(p, Kept(p, t));
    case PruneAbove(p) =>
      PrunedAboveIdempotent(p, t);
    case PruneBelow(p) =>
      PrunedBelowIdempotent(p, t);
    case KeepAbove(p) =>
      KeptAboveIdempotent(p, t);
    case KeepBelow(p) =>
      KeptBelowIdempotent(p, t);
    case PruneRecursion =>
      RecursionPrunedIdempotent(t);
      forall x | x in Apply(tt, t) ensures x in t { CollapsedFromInput(t, 0, x); }
  }

  lemma PrunedAboveIdempotent(p: FramePredicate, t: Trace)
    ensures forall x | x in PrunedAbove(p, t) :: x in t
    ensures PrunedAbove(p, PrunedAbove(p, t)) == PrunedAbove(p, t)
  {
    PrunedAboveShape(p, t);
  }

  lemma PrunedBelowIdempotent(p: FramePredicate, t: Trace)
    ensures forall x | x in PrunedBelow(p, t) :: x in t
    ensures PrunedBelow(p, PrunedBelow(p, t)) == PrunedBelow(p, t)
  {
    PrunedBelowShape(p, t);
    PrunedBelowShape(p, PrunedBelow(p, t));
  }

  lemma KeptAboveIdempotent(p: FramePredicate, t: Trace)
    ensures forall x | x in KeptAbove(p, t) :: x in t
    ensures KeptAbove(p, KeptAbove(p, t)) == KeptAbove(p, t)
  {
    KeptAboveShape(p, t);
    KeptAboveShape(p, KeptAbove(p, t));
  }

  lemma KeptBelowIdempotent(p: FramePredicate, t: Trace)
    ensures forall x | x in KeptBelow(p, t) :: x in t
    ensures KeptBelow(p, KeptBelow(p, t)) == KeptBelow(p, t)
  {
    KeptBelowShape(p, t);
    KeptBelowShape(p, KeptBelow(p, t));
  }

  lemma {:induction false} PrunedUnchanged(p: FramePredicate, t: Trace)
    requires forall k | 0 <= k < |t| :: !p(t[k])
    ensures Pruned(p, t) == t
  {
    if t != [] {
      PrunedUnchanged(p, t[1..]);
      assert t == [t[0]] + t[1..];
    }
  }

  lemma {:induction false} KeptUnchanged(p: FramePredicate, t: Trace)
    requires forall k | 0 <= k < |t| :: p(t[k])
    ensures Kept(p, t) == t
  {
    if t != [] {
      KeptUnchanged(p, t[1..]);
      assert t == [t[0]] + t[1..];
    }
  }
}
