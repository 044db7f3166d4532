/**
 The iterations of one loop invocation, grouped by equal control flow, and the merging of the
 groups of two consecutively dumped segments. The instances of a call are grouped and merged
 in the same way.
 */
module IterationGroups {
  import opened CompressionPatterns
  import opened RepetitionPatterns

  /** The iterations in `repetitions` all executed `controlFlow`. */
  datatype Group = Group(repetitions: RepetitionPattern, controlFlow: seq<Pattern>)

  ghost predicate AllProper(gs: seq<Group>)
    ensures AllProper(gs) ==> forall i :: 0 <= i < |gs| ==> gs[i].repetitions != [] && EndsInRange(gs[i].repetitions)
  {
    forall i :: 0 <= i < |gs| ==> Proper(gs[i].repetitions)
  }

  /** No iteration is in two groups. */
  ghost predicate Separate(gs: seq<Group>) {
    forall i, j, n :: 0 <= i < j < |gs| && Has(gs[i].repetitions, n) ==> !Has(gs[j].repetitions, n)
  }

  /** Every group has an iteration and no iteration is in two groups. */
  ghost predicate WellGrouped(gs: seq<Group>) {
    AllProper(gs) && Separate(gs)
  }

  ghost predicate Recorded(gs: seq<Group>, n: int) {
    exists i :: 0 <= i < |gs| && Has(gs[i].repetitions, n)
  }

  ghost function FlowIn(g: Group, n: int): seq<Pattern> {
    if Has(g.repetitions, n) then g.controlFlow else []
  }

  /** The control flow of iteration `n`. */
  ghost function ControlFlowAt(gs: seq<Group>, n: int): seq<Pattern> {
    if gs == [] then [] else FlowIn(gs[0], n) + ControlFlowAt(gs[1..], n)
  }

  lemma {:induction false} FlowConcat(a: seq<Group>, b: seq<Group>, n: int)
    ensures ControlFlowAt(a + b, n) == ControlFlowAt(a, n) + ControlFlowAt(b, n)
  {
    if a == [] {
      assert a + b == b;
    } else {
      hide FlowIn;
      var c := a + b;
      assert c[0] == a[0] && c[1..] == a[1..] + b;
      calc {
        ControlFlowAt(c, n);
        FlowIn(a[0], n) + ControlFlowAt(a[1..] + b, n);
        { FlowConcat(a[1..], b, n); }
        FlowIn(a[0], n) + (ControlFlowAt(a[1..], n) + ControlFlowAt(b, n));
        (FlowIn(a[0], n) + ControlFlowAt(a[1..], n)) + ControlFlowAt(b, n);
        ControlFlowAt(a, n) + ControlFlowAt(b, n);
      }
    }
  }

  lemma FlowOne(g: Group, n: int)
    ensures ControlFlowAt([g], n) == if Has(g.repetitions, n) then g.controlFlow else []
  {
    assert ControlFlowAt([g], n) == FlowIn(g, n) + ControlFlowAt([], n);
  }

  lemma {:induction false} FlowAbsent(gs: seq<Group>, n: int)
    requires !Recorded(gs, n)
    ensures ControlFlowAt(gs, n) == []
  {
    if gs != [] {
      assert !Has(gs[0].repetitions, n);
      assert forall i | 0 <= i < |gs[1..]| :: gs[1..][i] == gs[i + 1];
      FlowAbsent(gs[1..], n);
    }
  }

  /** A recorded iteration has the control flow of its group. */
  lemma FlowOfGroup(gs: seq<Group>, i: nat, n: int)
    requires i < |gs| && Separate(gs) && Has(gs[i].repetitions, n)
    ensures ControlFlowAt(gs, n) == gs[i].controlFlow
  {
    hide ControlFlowAt, Has, Recorded, Separate;
    var a, b := gs[..i], gs[i + 1..];
    assert gs == a + ([gs[i]] + b);
    FlowConcat(a, [gs[i]] + b, n);
    FlowConcat([gs[i]], b, n);
    FlowOne(gs[i], n);
    AroundGroup(gs, i, n);
    FlowAbsent(a, n);
    FlowAbsent(b, n);
  }

  /** Replacing a group changes only the iterations on which the two differ. */
  lemma FlowUpdate(gs: seq<Group>, i: nat, g: Group, n: int)
    requires i < |gs|
    requires ControlFlowAt([g], n) == ControlFlowAt([gs[i]], n)
    ensures ControlFlowAt(gs[i := g], n) == ControlFlowAt(gs, n)
  {
    var a, b := gs[..i], gs[i + 1..];
    assert gs == (a + [gs[i]]) + b && gs[i := g] == (a + [g]) + b;
    FlowConcat(a + [gs[i]], b, n);
    FlowConcat(a + [g], b, n);
    FlowConcat(a, [gs[i]], n);
    FlowConcat(a, [g], n);
  }

  // ---------- merging two dumped segments ----------

  /** The first group whose last iteration is the greatest. */
  function LatestGroup(gs: seq<Group>, k: nat): (r: nat)
    requires 0 < k <= |gs| && forall i :: 0 <= i < |gs| ==> gs[i].repetitions != []
    ensures r < k
    ensures forall i :: 0 <= i < k ==> Last(gs[i].repetitions) <= Last(gs[r].repetitions)
  {
    if k == 1 then 0
    else
      var r := LatestGroup(gs, k - 1);
      if Last(gs[r].repetitions) < Last(gs[k - 1].repetitions) then k - 1 else r
  }

  /** The first group whose first iteration is the smallest. */
  function EarliestGroup(gs: seq<Group>, k: nat): (r: nat)
    requires 0 < k <= |gs| && forall i :: 0 <= i < |gs| ==> gs[i].repetitions != []
    ensures r < k
    ensures forall i :: 0 <= i < k ==> First(gs[r].repetitions) <= First(gs[i].repetitions)
  {
    if k == 1 then 0
    else
      var r := EarliestGroup(gs, k - 1);
      if First(gs[k - 1].repetitions) < First(gs[r].repetitions) then k - 1 else r
  }

  /** The two segments split one iteration between them. */
  ghost predicate Overlap(earlier: seq<Group>, later: seq<Group>)
    requires AllProper(earlier) && AllProper(later)
  {
    earlier != [] && later != []
    && Last(earlier[LatestGroup(earlier, |earlier|)].repetitions) == First(later[EarliestGroup(later, |later|)].repetitions)
  }

  /** Group `i` gives its last iteration away, or takes on the flow itself if that is its only one. */
  function ExtendLast(gs: seq<Group>, i: nat, flow: seq<Pattern>): seq<Group>
    requires i < |gs| && EndsInRange(gs[i].repetitions)
  {
    var g := gs[i];
    var n := Last(g.repetitions);
    if IsSingleton(g.repetitions) then gs[i := Group(g.repetitions, g.controlFlow + flow)]
    else gs[i := Group(RemoveLast(g.repetitions), g.controlFlow)] + [Group([Range(n, n)], g.controlFlow + flow)]
  }

  /** Group `i` without its first iteration, dropped if that is its only one. */
  function WithoutFirst(gs: seq<Group>, i: nat): seq<Group>
    requires i < |gs| && gs[i].repetitions != []
  {
    var g := gs[i];
    if IsSingleton(g.repetitions) then gs[..i] + gs[i + 1..]
    else gs[i := Group(RemoveFirst(g.repetitions), g.controlFlow)]
  }

  ghost function Merge(earlier: seq<Group>, later: seq<Group>): seq<Group>
    requires AllProper(earlier) && AllProper(later)
  {
    if Overlap(earlier, later) then
      var m := EarliestGroup(later, |later|);
      ExtendLast(earlier, LatestGroup(earlier, |earlier|), later[m].controlFlow) + WithoutFirst(later, m)
    else
      earlier + later
  }

  lemma EndsProper(p: RepetitionPattern)
    requires Proper(p)
    ensures !IsSingleton(p) ==> Proper(RemoveFirst(p)) && Proper(RemoveLast(p))
    ensures Proper([Range(Last(p), Last(p))])
  {
    RemoveFirstExact(p);
    RemoveLastExact(p);
  }

  lemma ExtendLastProper(gs: seq<Group>, i: nat, flow: seq<Pattern>)
    requires AllProper(gs) && i < |gs|
    ensures AllProper(ExtendLast(gs, i, flow))
  {
    hide Proper, RemoveLast;
    EndsProper(gs[i].repetitions);
  }

  lemma WithoutFirstProper(gs: seq<Group>, i: nat)
    requires AllProper(gs) && i < |gs|
    ensures AllProper(WithoutFirst(gs, i))
  {
    hide Proper, RemoveFirst;
    EndsProper(gs[i].repetitions);
  }

  lemma ConcatProper(a: seq<Group>, b: seq<Group>)
    requires AllProper(a) && AllProper(b)
    ensures AllProper(a + b)
  {
    hide Proper;
  }

  lemma MergeProper(earlier: seq<Group>, later: seq<Group>)
    requires AllProper(earlier) && AllProper(later)
    ensures AllProper(Merge(earlier, later))
  {
    hide AllProper, ExtendLast, WithoutFirst;
    ConcatProper(earlier, later);
    if Overlap(earlier, later) {
      var x, m := LatestGroup(earlier, |earlier|), EarliestGroup(later, |later|);
      ExtendLastProper(earlier, x, later[m].controlFlow);
      WithoutFirstProper(later, m);
      ConcatProper(ExtendLast(earlier, x, later[m].controlFlow), WithoutFirst(later, m));
    }
  }

  /** The second segment starts where the first stopped, possibly in the middle of an iteration. */
  ghost predicate Consecutive(earlier: seq<Group>, later: seq<Group>) {
    forall n, k :: Recorded(earlier, n) && Recorded(later, k) ==> n <= k
  }

  lemma LatestIsMax(gs: seq<Group>, n: int)
    requires AllProper(gs) && gs != []
    ensures var i := LatestGroup(gs, |gs|);
            && Has(gs[i].repetitions, Last(gs[i].repetitions))
            && (Recorded(gs, n) ==> n <= Last(gs[i].repetitions))
  {
    var i := LatestGroup(gs, |gs|);
    BoundedByEnds(gs[i].repetitions, n);
    if Recorded(gs, n) {
      var j :| 0 <= j < |gs| && Has(gs[j].repetitions, n);
      BoundedByEnds(gs[j].repetitions, n);
    }
  }

  lemma EarliestIsMin(gs: seq<Group>, n: int)
    requires AllProper(gs) && gs != []
    ensures var i := EarliestGroup(gs, |gs|);
            && Has(gs[i].repetitions, First(gs[i].repetitions))
            && (Recorded(gs, n) ==> First(gs[i].repetitions) <= n)
  {
    var i := EarliestGroup(gs, |gs|);
    BoundedByEnds(gs[i].repetitions, n);
    if Recorded(gs, n) {
      var j :| 0 <= j < |gs| && Has(gs[j].repetitions, n);
      BoundedByEnds(gs[j].repetitions, n);
    }
  }

  lemma HasSingle(k: nat, n: int)
    ensures Has([Range(k, k)], n) <==> n == k
  {
    if n == k {
      assert [Range(k, k)][0].first <= n <= [Range(k, k)][0].last;
    }
  }

  /** Appending flow to the last iteration of a group changes that iteration alone. */
  lemma ExtendLastFlow(gs: seq<Group>, i: nat, flow: seq<Pattern>, n: int)
    requires WellGrouped(gs) && i < |gs|
    ensures ControlFlowAt(ExtendLast(gs, i, flow), n)
         == ControlFlowAt(gs, n) + if n == Last(gs[i].repetitions) then flow else []
  {
    hide ControlFlowAt, Has;
    var g := gs[i];
    var k := Last(g.repetitions);
    BoundedByEnds(g.repetitions, n);
    if n == k {
      ExtendLastBoundary(gs, i, flow);
    } else if IsSingleton(g.repetitions) {
      var h := Group(g.repetitions, g.controlFlow + flow);
      FlowOne(g, n);
      FlowOne(h, n);
      FlowUpdate(gs, i, h, n);
    } else {
      var h := Group(RemoveLast(g.repetitions), g.controlFlow);
      var extra := Group([Range(k, k)], g.controlFlow + flow);
      RemoveLastExact(g.repetitions);
      FlowOne(g, n);
      FlowOne(h, n);
      FlowUpdate(gs, i, h, n);
      FlowOne(extra, n);
      HasSingle(k, n);
      FlowConcat(gs[i := h], [extra], n);
    }
  }

  lemma ExtendLastBoundary(gs: seq<Group>, i: nat, flow: seq<Pattern>)
    requires WellGrouped(gs) && i < |gs|
    ensures var n := Last(gs[i].repetitions);
            ControlFlowAt(ExtendLast(gs, i, flow), n) == ControlFlowAt(gs, n) + flow
  {
    hide ControlFlowAt, Has;
    var r := ExtendLast(gs, i, flow);
    var n := Last(gs[i].repetitions);
    BoundedByEnds(gs[i].repetitions, n);
    FlowOfGroup(gs, i, n);
    ExtendLastSeparate(gs, i, flow);
    HasSingle(n, n);
    FlowOfGroup(r, if IsSingleton(gs[i].repetitions) then i else |gs|, n);
  }

  /** The last iteration of group `i` in a group of its own at the end: the same iterations are recorded. */
  lemma RecordedApart(gs: seq<Group>, r: seq<Group>, i: nat, k: int, n: int)
    requires i < |gs| && |r| == |gs| + 1 && forall j :: 0 <= j < |gs| && j != i ==> r[j] == gs[j]
    requires Has(gs[i].repetitions, k) && (Has(r[i].repetitions, n) <==> Has(gs[i].repetitions, n) && n != k)
    requires Has(r[|gs|].repetitions, n) <==> n == k
    ensures Recorded(r, n) <==> Recorded(gs, n)
  {
    hide Has;
    if Recorded(r, n) {
      var j :| 0 <= j < |r| && Has(r[j].repetitions, n);
      assert Has(gs[if j == |gs| then i else j].repetitions, n);
    }
    if Recorded(gs, n) {
      var j :| 0 <= j < |gs| && Has(gs[j].repetitions, n);
      assert Has(r[if j == i && n == k then |gs| else j].repetitions, n);
    }
  }

  lemma ExtendLastSeparate(gs: seq<Group>, i: nat, flow: seq<Pattern>)
    requires WellGrouped(gs) && i < |gs|
    ensures WellGrouped(ExtendLast(gs, i, flow))
    ensures forall n :: Recorded(ExtendLast(gs, i, flow), n) <==> Recorded(gs, n)
  {
    hide Has;
    var g := gs[i];
    var r := ExtendLast(gs, i, flow);
    var k := Last(g.repetitions);
    BoundedByEnds(g.repetitions, k);
    if IsSingleton(g.repetitions) {
      SameMembers(r, gs);
    } else {
      RemoveLastExact(g.repetitions);
      forall n
        ensures Has([Range(k, k)], n) <==> n == k
      {
        HasSingle(k, n);
      }
      forall n
        ensures Recorded(r, n) <==> Recorded(gs, n)
      {
        RecordedApart(gs, r, i, k, n);
      }
    }
  }

  lemma SameMembers(a: seq<Group>, b: seq<Group>)
    requires |a| == |b| && forall i :: 0 <= i < |a| ==> a[i].repetitions == b[i].repetitions
    requires WellGrouped(b)
    ensures WellGrouped(a) && forall n :: Recorded(a, n) <==> Recorded(b, n)
  {
    forall n
      ensures Recorded(a, n) <==> Recorded(b, n)
    {
      if Recorded(a, n) {
        var j :| 0 <= j < |a| && Has(a[j].repetitions, n);
        assert Has(b[j].repetitions, n);
      }
      if Recorded(b, n) {
        var j :| 0 <= j < |b| && Has(b[j].repetitions, n);
        assert Has(a[j].repetitions, n);
      }
    }
  }

  /** Dropping the first iteration of a group drops that iteration alone. */
  lemma WithoutFirstExact(gs: seq<Group>, i: nat)
    requires WellGrouped(gs) && i < |gs|
    ensures WellGrouped(WithoutFirst(gs, i))
    ensures forall n :: Recorded(WithoutFirst(gs, i), n) <==> Recorded(gs, n) && n != First(gs[i].repetitions)
  {
    hide Has, RemoveFirst, Separate, Recorded;
    var g := gs[i];
    RemoveFirstExact(g.repetitions);
    if IsSingleton(g.repetitions) {
      DropSingle(gs, i);
    } else {
      BoundedByEnds(g.repetitions, 0);
      Shrink(gs, i, Group(RemoveFirst(g.repetitions), g.controlFlow), First(g.repetitions));
    }
  }

  lemma DropSingle(gs: seq<Group>, i: nat)
    requires WellGrouped(gs) && i < |gs| && IsSingleton(gs[i].repetitions)
    ensures WellGrouped(gs[..i] + gs[i + 1..])
    ensures forall n :: Recorded(gs[..i] + gs[i + 1..], n) <==> Recorded(gs, n) && n != First(gs[i].repetitions)
  {
    hide Has, Recorded, Separate;
    var a, b := gs[..i], gs[i + 1..];
    forall n
      ensures Recorded(gs, n) <==> Recorded(a, n) || Recorded(b, n) || n == First(gs[i].repetitions)
      ensures n == First(gs[i].repetitions) ==> !Recorded(a, n) && !Recorded(b, n)
      ensures Recorded(a, n) ==> !Recorded(b, n)
    {
      BoundedByEnds(gs[i].repetitions, n);
      AroundGroup(gs, i, n);
    }
    PartsSeparate(gs, i);
    ConcatSeparate(a, b);
  }

  lemma PartsSeparate(gs: seq<Group>, i: nat)
    requires WellGrouped(gs) && i < |gs|
    ensures WellGrouped(gs[..i]) && WellGrouped(gs[i + 1..])
  {
    hide Has, Proper;
    var b := gs[i + 1..];
    assert forall j | 0 <= j < |b| :: b[j] == gs[i + 1 + j];
  }

  lemma AroundGroup(gs: seq<Group>, i: nat, n: int)
    requires Separate(gs) && i < |gs|
    ensures Recorded(gs, n) <==> Recorded(gs[..i], n) || Recorded(gs[i + 1..], n) || Has(gs[i].repetitions, n)
    ensures Has(gs[i].repetitions, n) ==> !Recorded(gs[..i], n) && !Recorded(gs[i + 1..], n)
    ensures Recorded(gs[..i], n) ==> !Recorded(gs[i + 1..], n)
  {
    hide Has;
    var b := gs[i + 1..];
    assert forall j | 0 <= j < |b| :: b[j] == gs[i + 1 + j];
    if Recorded(gs, n) && !Has(gs[i].repetitions, n) {
      var j :| 0 <= j < |gs| && Has(gs[j].repetitions, n);
      if j < i {
        assert gs[..i][j] == gs[j];
      } else {
        assert b[j - i - 1] == gs[j];
      }
    }
  }

  /** Replacing a group by one without its iteration `k`. */
  lemma Shrink(gs: seq<Group>, i: nat, h: Group, k: int)
    requires WellGrouped(gs) && i < |gs| && Proper(h.repetitions) && Has(gs[i].repetitions, k)
    requires forall n :: Has(h.repetitions, n) <==> Has(gs[i].repetitions, n) && n != k
    ensures WellGrouped(gs[i := h])
    ensures forall n :: Recorded(gs[i := h], n) <==> Recorded(gs, n) && n != k
  {
    hide Has, Proper;
    var r := gs[i := h];
    forall n
      ensures Recorded(r, n) <==> Recorded(gs, n) && n != k
    {
      if Recorded(r, n) {
        var j :| 0 <= j < |r| && Has(r[j].repetitions, n);
        assert Has(gs[j].repetitions, n);
      }
      if Recorded(gs, n) && n != k {
        var j :| 0 <= j < |gs| && Has(gs[j].repetitions, n);
        assert Has(r[j].repetitions, n);
      }
    }
  }

  lemma WithoutFirstFlow(gs: seq<Group>, i: nat, n: int)
    requires WellGrouped(gs) && i < |gs|
    ensures ControlFlowAt(WithoutFirst(gs, i), n)
         == if n == First(gs[i].repetitions) then [] else ControlFlowAt(gs, n)
  {
    hide ControlFlowAt, Has, Recorded, Separate, RemoveFirst;
    var g := gs[i];
    if n == First(g.repetitions) {
      WithoutFirstExact(gs, i);
      FlowAbsent(WithoutFirst(gs, i), n);
    } else if IsSingleton(g.repetitions) {
      BoundedByEnds(g.repetitions, n);
      FlowOne(g, n);
      FlowDrop(gs, i, n);
    } else {
      var h := Group(RemoveFirst(g.repetitions), g.controlFlow);
      RemoveFirstExact(g.repetitions);
      FlowOne(g, n);
      FlowOne(h, n);
      FlowUpdate(gs, i, h, n);
    }
  }

  lemma FlowDrop(gs: seq<Group>, i: nat, n: int)
    requires i < |gs| && ControlFlowAt([gs[i]], n) == []
    ensures ControlFlowAt(gs[..i] + gs[i + 1..], n) == ControlFlowAt(gs, n)
  {
    hide ControlFlowAt;
    var a, b := gs[..i], gs[i + 1..];
    assert gs == (a + [gs[i]]) + b;
    FlowConcat(a + [gs[i]], b, n);
    FlowConcat(a, [gs[i]], n);
    FlowConcat(a, b, n);
  }

  lemma ConcatSeparate(a: seq<Group>, b: seq<Group>)
    requires WellGrouped(a) && WellGrouped(b)
    requires forall n :: Recorded(a, n) ==> !Recorded(b, n)
    ensures WellGrouped(a + b)
    ensures forall n :: Recorded(a + b, n) <==> Recorded(a, n) || Recorded(b, n)
  {
    hide Has;
    var c := a + b;
    forall n
      ensures Recorded(c, n) <==> Recorded(a, n) || Recorded(b, n)
    {
      if Recorded(a, n) {
        var i :| 0 <= i < |a| && Has(a[i].repetitions, n);
        assert Has(c[i].repetitions, n);
      }
      if Recorded(b, n) {
        var i :| 0 <= i < |b| && Has(b[i].repetitions, n);
        assert Has(c[|a| + i].repetitions, n);
      }
    }
    forall i, j, n | 0 <= i < j < |c| && Has(c[i].repetitions, n)
      ensures !Has(c[j].repetitions, n)
    {
      if i < |a| <= j {
        assert Has(a[i].repetitions, n) && Recorded(a, n);
        assert c[j] == b[j - |a|];
      }
    }
  }

  /**
   Merging two consecutive segments leaves no iteration in two groups, and gives each iteration
   its control flow of the first segment followed by its control flow of the second.
   */
  lemma MergeExact(earlier: seq<Group>, later: seq<Group>)
    requires WellGrouped(earlier) && WellGrouped(later) && Consecutive(earlier, later)
    ensures WellGrouped(Merge(earlier, later))
    ensures forall n :: Recorded(Merge(earlier, later), n) <==> Recorded(earlier, n) || Recorded(later, n)
    ensures forall n :: ControlFlowAt(Merge(earlier, later), n) == ControlFlowAt(earlier, n) + ControlFlowAt(later, n)
  {
    hide ControlFlowAt, Has, ExtendLast, WithoutFirst, Separate, AllProper, Recorded;
    if Overlap(earlier, later) {
      MergeOverlap(earlier, later);
    } else {
      if earlier != [] && later != [] {
        NoOverlapSeparate(earlier, later);
      } else {
        NothingRecorded(earlier, later);
      }
      ConcatSeparate(earlier, later);
      forall n
        ensures ControlFlowAt(Merge(earlier, later), n) == ControlFlowAt(earlier, n) + ControlFlowAt(later, n)
      {
        FlowConcat(earlier, later, n);
      }
    }
  }

  lemma NothingRecorded(a: seq<Group>, b: seq<Group>)
    requires a == [] || b == []
    ensures forall n :: Recorded(a, n) ==> !Recorded(b, n)
  {
  }

  lemma NoOverlapSeparate(earlier: seq<Group>, later: seq<Group>)
    requires WellGrouped(earlier) && WellGrouped(later) && Consecutive(earlier, later)
    requires earlier != [] && later != [] && !Overlap(earlier, later)
    ensures forall n :: Recorded(earlier, n) ==> !Recorded(later, n)
  {
    hide Has;
    var last := Last(earlier[LatestGroup(earlier, |earlier|)].repetitions);
    var first := First(later[EarliestGroup(later, |later|)].repetitions);
    LatestIsMax(earlier, last);
    EarliestIsMin(later, first);
    assert Recorded(earlier, last) && Recorded(later, first);
    forall n | Recorded(earlier, n)
      ensures !Recorded(later, n)
    {
      LatestIsMax(earlier, n);
      EarliestIsMin(later, n);
    }
  }

  lemma MergeOverlap(earlier: seq<Group>, later: seq<Group>)
    requires WellGrouped(earlier) && WellGrouped(later) && Consecutive(earlier, later) && Overlap(earlier, later)
    ensures WellGrouped(Merge(earlier, later))
    ensures forall n :: Recorded(Merge(earlier, later), n) <==> Recorded(earlier, n) || Recorded(later, n)
    ensures forall n :: ControlFlowAt(Merge(earlier, later), n) == ControlFlowAt(earlier, n) + ControlFlowAt(later, n)
  {
    hide ControlFlowAt, Has, ExtendLast, WithoutFirst, Separate, AllProper, Recorded;
    var x, m := LatestGroup(earlier, |earlier|), EarliestGroup(later, |later|);
    var k := Last(earlier[x].repetitions);
    var flow := later[m].controlFlow;
    var a, b := ExtendLast(earlier, x, flow), WithoutFirst(later, m);
    ExtendLastSeparate(earlier, x, flow);
    WithoutFirstExact(later, m);
    LatestRecorded(earlier);
    forall n
      ensures Recorded(a, n) ==> !Recorded(b, n)
    {
      LatestIsMax(earlier, n);
      EarliestIsMin(later, n);
    }
    EarliestRecorded(later);
    ConcatSeparate(a, b);
    EarliestIsMin(later, k);
    FlowOfGroup(later, m, k);
    forall n
      ensures ControlFlowAt(a + b, n) == ControlFlowAt(earlier, n) + ControlFlowAt(later, n)
    {
      FlowConcat(a, b, n);
      ExtendLastFlow(earlier, x, flow, n);
      WithoutFirstFlow(later, m, n);
    }
  }

  lemma LatestRecorded(gs: seq<Group>)
    requires AllProper(gs) && gs != []
    ensures Recorded(gs, Last(gs[LatestGroup(gs, |gs|)].repetitions))
  {
    LatestIsMax(gs, 0);
  }

  lemma EarliestRecorded(gs: seq<Group>)
    requires AllProper(gs) && gs != []
    ensures Recorded(gs, First(gs[EarliestGroup(gs, |gs|)].repetitions))
  {
    EarliestIsMin(gs, 0);
  }
}
