/** Counting instruction instances over the iterations of an invocation. */
module InstanceCounts {
  import opened Sequences
  import opened CompressionPatterns
  import opened RepetitionPatterns
  import opened IterationGroups
  import opened InstanceTables
  import opened Divisibility

  /** The number of times iteration `n` executes instruction `id`. */
  ghost function Counts(gs: seq<Group>, id: Symbol): int -> nat {
    n => Count(ExpandAll(ControlFlowAt(gs, n)), id)
  }

  /** The uncompressed trace of the iterations before `n`. */
  ghost function TraceUpTo(gs: seq<Group>, n: nat): seq<Symbol> {
    if n == 0 then [] else TraceUpTo(gs, n - 1) + ExpandAll(ControlFlowAt(gs, n - 1))
  }

  lemma {:induction false} PrefixCountsTrace(gs: seq<Group>, id: Symbol, n: nat)
    ensures Prefix(Counts(gs, id), n) == Count(TraceUpTo(gs, n), id)
  {
    if n > 0 {
      PrefixCountsTrace(gs, id, n - 1);
      CountConcat(TraceUpTo(gs, n - 1), ExpandAll(ControlFlowAt(gs, n - 1)), id);
    }
  }

  /** The number of instances in all iterations of all groups, from the per-group tables. */
  function Total(gs: seq<Group>, id: Symbol): int {
    if gs == [] then 0
    else
      var k := |gs| - 1;
      Total(gs[..k], id) + NumInstances(gs[k].repetitions) * At(InstancesMapAll(gs[k].controlFlow), id)
  }

  lemma {:induction false} PrefixAdds(c: int -> nat, a: int -> nat, b: int -> nat, n: int)
    requires forall i :: 0 <= i < n ==> c(i) == a(i) + b(i)
    ensures Prefix(c, n) == Prefix(a, n) + Prefix(b, n)
    decreases n
  {
    if n > 0 {
      PrefixAdds(c, a, b, n - 1);
    }
  }

  ghost function When(p: RepetitionPattern, v: nat): int -> nat {
    n => if Has(p, n) then v else 0
  }

  lemma WhenSplits(p: RepetitionPattern, v: nat, i: int)
    requires Proper(p)
    ensures When(p, v)(i) == When([p[0]], v)(i) + When(p[1..], v)(i)
  {
    hide Has;
    HasAfterFirst(p, i);
    HasOne(p[0], i);
  }

  lemma {:induction false} PrefixOfPattern(p: RepetitionPattern, v: nat, n: nat)
    requires Increasing(p) && (p != [] ==> Last(p) < n)
    ensures Prefix(When(p, v), n) == Product(NumInstances(p), v)
  {
    if p == [] {
      hide Has;
      NeverHas();
      PrefixConstant(When(p, v), 0, n, 0);
    } else {
      TailBelow(p, n);
      hide When, Prefix, Increasing, Product, Has;
      forall i | 0 <= i < n
        ensures When(p, v)(i) == When([p[0]], v)(i) + When(p[1..], v)(i)
      {
        WhenSplits(p, v, i);
      }
      PrefixAdds(When(p, v), When([p[0]], v), When(p[1..], v), n);
      PrefixOfPattern(p[1..], v, n);
      PrefixOfRange(p[0], v, n);
      SumTimes(Width(p[0]), NumInstances(p[1..]), NumInstances(p), v);
    }
  }

  function Width(r: Range): int {
    r.last - r.first + 1
  }

  lemma SumTimes(a: int, b: int, c: int, v: int)
    requires c == a + b
    ensures Product(a, v) + Product(b, v) == Product(c, v)
  {
    assert (a + b) * v == a * v + b * v;
  }

  function Product(a: int, b: int): int {
    a * b
  }

  lemma TailBelow(p: RepetitionPattern, n: nat)
    requires Increasing(p) && p != [] && Last(p) < n
    ensures Increasing(p[1..]) && (p[1..] != [] ==> Last(p[1..]) < n)
    ensures p[0].first <= p[0].last < n
  {
    assert |p| > 1 ==> p[0].last < p[|p| - 1].first;
  }

  lemma NeverHas()
    ensures forall n :: !Has([], n)
  {
  }

  lemma HasOne(r: Range, n: int)
    ensures Has([r], n) <==> r.first <= n <= r.last
  {
    assert r.first <= n <= r.last ==> [r][0].first <= n <= [r][0].last;
  }

  lemma WhenOfRange(r: Range, v: nat, n: nat)
    requires r.first <= r.last < n
    ensures Constant(When([r], v), 0, r.first, 0)
    ensures Constant(When([r], v), r.first, Width(r), v)
    ensures Constant(When([r], v), r.last + 1, n - r.last - 1, 0)
  {
    hide Has;
    forall i
      ensures Has([r], i) <==> r.first <= i <= r.last
    {
      HasOne(r, i);
    }
  }

  lemma PrefixOfRange(r: Range, v: nat, n: nat)
    requires r.first <= r.last < n
    ensures Prefix(When([r], v), n) == Product(Width(r), v)
  {
    hide When, Constant, Prefix;
    var c := When([r], v);
    WhenOfRange(r, v, n);
    PrefixZero(c);
    PrefixConstant(c, 0, r.first, 0);
    PrefixConstant(c, r.first, Width(r), v);
    PrefixConstant(c, r.last + 1, n - r.last - 1, 0);
  }

  lemma PrefixZero(c: int -> nat)
    ensures Prefix(c, 0) == 0
  {
  }

  /** The total from the per-group tables is the number of occurrences in the uncompressed trace. */
  lemma {:induction false} TotalExact(gs: seq<Group>, id: Symbol, n: nat)
    requires AllProper(gs) && forall i :: 0 <= i < |gs| ==> Last(gs[i].repetitions) < n
    ensures Total(gs, id) == Prefix(Counts(gs, id), n)
  {
    hide Has, ControlFlowAt;
    if gs == [] {
      assert Constant(Counts(gs, id), 0, n, 0) by { NoFlow(); }
      PrefixConstant(Counts(gs, id), 0, n, 0);
    } else {
      var k := |gs| - 1;
      var front, g := gs[..k], gs[k];
      var v := At(InstancesMapAll(g.controlFlow), id);
      assert gs == front + [g];
      forall i | 0 <= i < n
        ensures Counts(gs, id)(i) == Counts(front, id)(i) + When(g.repetitions, v)(i)
      {
        FlowConcat(front, [g], i);
        FlowOne(g, i);
        ExpandAllConcat(ControlFlowAt(front, i), ControlFlowAt([g], i));
        CountConcat(ExpandAll(ControlFlowAt(front, i)), ExpandAll(ControlFlowAt([g], i)), id);
        InstancesMapAllCounts(g.controlFlow, id);
      }
      PrefixAdds(Counts(gs, id), Counts(front, id), When(g.repetitions, v), n);
      TotalExact(front, id, n);
      PrefixOfPattern(g.repetitions, v, n);
    }
  }

  lemma NoFlow()
    ensures forall n :: ControlFlowAt([], n) == []
  {
  }
}

/** One invocation of a loop: its iteration groups and the tables built from them. */
module InvocationGroups {
  import opened Sequences
  import opened CompressionPatterns
  import opened RepetitionPatterns
  import opened IterationGroups
  import opened InstanceTables
  import opened InstanceCounts

  function LutInput(gs: seq<Group>): (d: seq<(RepetitionPattern, nat)>)
    ensures |d| == |gs|
    ensures forall i :: 0 <= i < |gs| ==> d[i] == (gs[i].repetitions, i)
  {
    seq(|gs|, i requires 0 <= i < |gs| => (gs[i].repetitions, i))
  }

  /** The table of iteration ranges, each with the index of its group. */
  function IterationTable(gs: seq<Group>): seq<Entry<nat>> {
    Table(LutInput(gs))
  }

  /** The ranges are in order and each holds iterations of its group only; iterations outside them are not recorded. */
  lemma IterationTableExact(gs: seq<Group>)
    requires WellGrouped(gs)
    ensures var t := IterationTable(gs);
            && Ordered(t)
            && (forall i :: 0 <= i < |t| ==> t[i].data < |gs|)
            && (forall i, n :: 0 <= i < |t| && Contains(t[i], n) ==> t[i].data < |gs| && Has(gs[t[i].data].repetitions, n))
            && (forall n :: Covered(t, n) <==> Recorded(gs, n))
  {
    hide Has, Contains, Proper;
    var d, t := LutInput(gs), IterationTable(gs);
    ProperPatterns(gs);
    TableExact(d);
    forall i, n | 0 <= i < |t| && Contains(t[i], n)
      ensures t[i].data < |gs| && Has(gs[t[i].data].repetitions, n)
    {
      assert Holds(t, n, t[i].data);
      assert Sources(d, n, t[i].data);
    }
    forall i | 0 <= i < |t|
      ensures t[i].data < |gs|
    {
      StartContained(t, i);
    }
    forall n
      ensures Covered(t, n) <==> Recorded(gs, n)
    {
      if Covered(t, n) {
        var i :| 0 <= i < |t| && Contains(t[i], n);
        assert Has(gs[t[i].data].repetitions, n);
      }
      if Recorded(gs, n) {
        var i :| 0 <= i < |gs| && Has(gs[i].repetitions, n);
        assert Has(d[i].0, n) && d[i].1 == i;
        assert Holds(t, n, i);
      }
    }
  }

  lemma StartContained<T>(t: seq<Entry<T>>, i: nat)
    requires Ordered(t) && i < |t|
    ensures Contains(t[i], t[i].first)
  {
  }

  lemma ProperPatterns(gs: seq<Group>)
    requires WellGrouped(gs)
    ensures Disjoint(Patterns(LutInput(gs)))
  {
    hide Has;
  }

  /** In a range, every iteration has the instances of the range's group; between ranges there are none. */
  lemma RowCounts(gs: seq<Group>, n: int, id: Symbol)
    requires WellGrouped(gs)
    ensures !Covered(IterationTable(gs), n) ==> Counts(gs, id)(n) == 0
    ensures forall i :: 0 <= i < |IterationTable(gs)| && Contains(IterationTable(gs)[i], n) ==>
              var g := IterationTable(gs)[i].data;
              g < |gs| && Counts(gs, id)(n) == At(InstancesMapAll(gs[g].controlFlow), id)
  {
    hide Has, Contains, ControlFlowAt, IterationTable;
    IterationTableExact(gs);
    var t := IterationTable(gs);
    if !Covered(t, n) {
      FlowAbsent(gs, n);
    }
    forall i | 0 <= i < |t| && Contains(t[i], n)
      ensures Counts(gs, id)(n) == At(InstancesMapAll(gs[t[i].data].controlFlow), id)
    {
      FlowOfGroup(gs, t[i].data, n);
      InstancesMapAllCounts(gs[t[i].data].controlFlow, id);
    }
  }

  function IterationCount(gs: seq<Group>): int {
    var t := IterationTable(gs);
    if t == [] then 0 else t[|t| - 1].last + 1
  }

  lemma LastBelow(gs: seq<Group>, i: nat)
    requires WellGrouped(gs) && i < |gs|
    ensures Last(gs[i].repetitions) < IterationCount(gs)
  {
    hide Has, IterationTable, Ordered;
    BoundedByEnds(gs[i].repetitions, 0);
    IterationTableExact(gs);
    var t := IterationTable(gs);
    var n := Last(gs[i].repetitions);
    assert Recorded(gs, n);
    CoveredBelow(t, n);
  }

  lemma CoveredBelow<T>(t: seq<Entry<T>>, n: int)
    requires Ordered(t) && Covered(t, n)
    ensures n <= t[|t| - 1].last
  {
    var i :| 0 <= i < |t| && Contains(t[i], n);
    assert i < |t| - 1 ==> t[i].last < t[|t| - 1].first;
  }

  // ---------- the per-group instance tables ----------

  lemma SameMap(a: map<Symbol, nat>, b: map<Symbol, nat>)
    requires a.Keys == b.Keys && forall k <- a.Keys :: a[k] == b[k]
    ensures a == b
  {
  }

  lemma AddMapsAt(a: map<Symbol, nat>, b: map<Symbol, nat>)
    ensures AddMaps(a, b).Keys == a.Keys + b.Keys
    ensures forall k :: At(AddMaps(a, b), k) == At(a, k) + At(b, k)
  {
  }

  lemma AddMapsAssociates(a: map<Symbol, nat>, b: map<Symbol, nat>, c: map<Symbol, nat>)
    ensures AddMaps(a, AddMaps(b, c)) == AddMaps(AddMaps(a, b), c)
  {
    hide AddMaps;
    AddMapsAt(b, c);
    AddMapsAt(a, b);
    AddMapsAt(a, AddMaps(b, c));
    AddMapsAt(AddMaps(a, b), c);
    var x, y := AddMaps(a, AddMaps(b, c)), AddMaps(AddMaps(a, b), c);
    MapsByAt(x, y);
  }

  lemma AddNothing(a: map<Symbol, nat>)
    ensures AddMaps(a, map[]) == a == AddMaps(map[], a)
  {
  }

  lemma {:induction false} InstancesSnoc(ps: seq<Pattern>, p: Pattern)
    ensures InstancesMapAll(ps + [p]) == AddMaps(InstancesMapAll(ps), InstancesMap(p))
  {
    hide AddMaps, InstancesMap;
    var all := ps + [p];
    if ps == [] {
      AddNothing(InstancesMap(p));
      assert all[0] == p && all[1..] == [];
    } else {
      assert all[0] == ps[0] && all[1..] == ps[1..] + [p];
      InstancesSnoc(ps[1..], p);
      AddMapsAssociates(InstancesMap(ps[0]), InstancesMapAll(ps[1..]), InstancesMap(p));
    }
  }

  /** The counts of `m` have been added for the keys in `done`. */
  ghost predicate CountsAdded(lut: map<Symbol, nat>, r: map<Symbol, nat>, m: map<Symbol, nat>, done: set<Symbol>) {
    forall k :: (k in r <==> k in lut || k in done) && At(r, k) == At(lut, k) + if k in done then At(m, k) else 0
  }

  lemma NoCountsAdded(lut: map<Symbol, nat>, m: map<Symbol, nat>)
    ensures CountsAdded(lut, lut, m, {})
  {
  }

  lemma CountAdded(lut: map<Symbol, nat>, r: map<Symbol, nat>, m: map<Symbol, nat>, done: set<Symbol>, k: Symbol)
    requires CountsAdded(lut, r, m, done) && k in m && k !in done
    ensures CountsAdded(lut, r[k := At(r, k) + m[k]], m, done + {k})
  {
    var q := r[k := At(r, k) + m[k]];
    forall j
      ensures (j in q <==> j in r || j == k) && At(q, j) == At(r, j) + if j == k then m[k] else 0
    {
    }
  }

  lemma MapsByAt(a: map<Symbol, nat>, b: map<Symbol, nat>)
    requires forall k :: k in a <==> k in b
    requires forall k :: At(a, k) == At(b, k)
    ensures a == b
  {
    forall k <- a.Keys
      ensures a[k] == b[k]
    {
      assert At(a, k) == At(b, k);
    }
    SameMap(a, b);
  }

  lemma AllCountsAdded(lut: map<Symbol, nat>, r: map<Symbol, nat>, m: map<Symbol, nat>)
    requires CountsAdded(lut, r, m, m.Keys)
    ensures r == AddMaps(lut, m)
  {
    hide AddMaps;
    AddMapsAt(lut, m);
    MapsByAt(r, AddMaps(lut, m));
  }

  /** Adds the counts of `m` to `lut`, key by key. */
  method AddCounts(lut: map<Symbol, nat>, m: map<Symbol, nat>) returns (r: map<Symbol, nat>)
    ensures r == AddMaps(lut, m)
  {
    hide AddMaps, CountsAdded;
    r := lut;
    var keys := m.Keys;
    ghost var done: set<Symbol> := {};
    NoCountsAdded(lut, m);
    while keys != {}
      invariant keys + done == m.Keys && keys * done == {}
      invariant CountsAdded(lut, r, m, done)
      decreases |keys|
    {
      var k :| k in keys;
      CountAdded(lut, r, m, done, k);
      r := r[k := At(r, k) + m[k]];
      keys, done := keys - {k}, done + {k};
    }
    assert done == m.Keys;
    AllCountsAdded(lut, r, m);
  }

  method BuildNumberOfInstancesLut(controlFlow: seq<Pattern>) returns (lut: map<Symbol, nat>)
    ensures lut == InstancesMapAll(controlFlow)
  {
    lut := map[];
    assert controlFlow[..0] == [];
    for i := 0 to |controlFlow|
      invariant lut == InstancesMapAll(controlFlow[..i])
    {
      lut := AddCounts(lut, InstancesMap(controlFlow[i]));
      InstancesSnoc(controlFlow[..i], controlFlow[i]);
      assert controlFlow[..i + 1] == controlFlow[..i] + [controlFlow[i]];
    }
    assert controlFlow[..|controlFlow|] == controlFlow;
  }

  // ---------- the per-instruction instance tables ----------

  function InstancesOf(m: map<Symbol, seq<InstanceEntry>>, id: Symbol): seq<InstanceEntry> {
    if id in m then m[id] else []
  }

  ghost predicate RowsAdded(m: map<Symbol, seq<InstanceEntry>>, r: map<Symbol, seq<InstanceEntry>>,
      counts: map<Symbol, nat>, done: set<Symbol>, first: int, last: int)
    requires forall id <- counts.Keys :: counts[id] > 0
  {
    forall id :: InstancesOf(r, id)
      == if id in counts && id in done then AddRow(InstancesOf(m, id), first, last, counts[id]) else InstancesOf(m, id)
  }

  /** Extends the table of one instruction in place. */
  method ExtendLut(lut: seq<InstanceEntry>, first: int, last: int, count: nat) returns (r: seq<InstanceEntry>)
    requires count > 0
    ensures r == AddRow(lut, first, last, count)
  {
    var added := count * (last - first + 1);
    if |lut| == 0 {
      return [InstanceEntry(0, added - 1, first, count)];
    }
    var prev := lut[|lut| - 1];
    if prev.perIteration == count && first == prev.firstIteration + InstanceTables.NumIterations(prev) {
      r := lut[|lut| - 1 := prev.(end := prev.end + added)];
    } else {
      r := lut + [InstanceEntry(prev.end + 1, prev.end + added, first, count)];
    }
  }

  /** Extends the tables of the instructions that run in iterations `first` to `last`. */
  method AddIterations(m: map<Symbol, seq<InstanceEntry>>, counts: map<Symbol, nat>, first: int, last: int)
      returns (r: map<Symbol, seq<InstanceEntry>>)
    requires forall id <- counts.Keys :: counts[id] > 0
    ensures RowsAdded(m, r, counts, counts.Keys, first, last)
  {
    hide RowsAdded, AddRow;
    r := m;
    var keys := counts.Keys;
    ghost var done: set<Symbol> := {};
    NoRowsAdded(m, counts, first, last);
    while keys != {}
      invariant keys + done == counts.Keys && keys * done == {}
      invariant RowsAdded(m, r, counts, done, first, last)
      decreases |keys|
    {
      var id :| id in keys;
      ghost var before := r;
      RowNotAdded(m, r, counts, done, id, first, last);
      var lut := ExtendLut(InstancesOf(r, id), first, last, counts[id]);
      r := r[id := lut];
      RowAdded(m, before, r, counts, done, id, first, last);
      keys, done := keys - {id}, done + {id};
    }
    assert done == counts.Keys;
  }

  lemma NoRowsAdded(m: map<Symbol, seq<InstanceEntry>>, counts: map<Symbol, nat>, first: int, last: int)
    requires forall id <- counts.Keys :: counts[id] > 0
    ensures RowsAdded(m, m, counts, {}, first, last)
  {
  }

  lemma RowNotAdded(m: map<Symbol, seq<InstanceEntry>>, r: map<Symbol, seq<InstanceEntry>>, counts: map<Symbol, nat>,
      done: set<Symbol>, id: Symbol, first: int, last: int)
    requires forall id <- counts.Keys :: counts[id] > 0
    requires RowsAdded(m, r, counts, done, first, last) && id !in done
    ensures InstancesOf(r, id) == InstancesOf(m, id)
  {
  }

  lemma RowAdded(m: map<Symbol, seq<InstanceEntry>>, before: map<Symbol, seq<InstanceEntry>>,
      r: map<Symbol, seq<InstanceEntry>>, counts: map<Symbol, nat>, done: set<Symbol>, id: Symbol, first: int, last: int)
    requires forall id <- counts.Keys :: counts[id] > 0
    requires RowsAdded(m, before, counts, done, first, last) && id in counts && id !in done
    requires r == before[id := AddRow(InstancesOf(m, id), first, last, counts[id])]
    ensures RowsAdded(m, r, counts, done + {id}, first, last)
  {
    hide AddRow;
  }

  /** The iterations that the first `pos` ranges of the table reach. */
  function Reached(t: seq<Entry<nat>>, pos: nat): int
    requires pos <= |t|
  {
    if pos == 0 then 0 else t[pos - 1].last + 1
  }

  ghost predicate AllExact(m: map<Symbol, seq<InstanceEntry>>, gs: seq<Group>, limit: int) {
    forall id :: Exact(InstancesOf(m, id), Counts(gs, id), limit)
  }

  lemma RangeKeeps(gs: seq<Group>, m: map<Symbol, seq<InstanceEntry>>, r: map<Symbol, seq<InstanceEntry>>,
      counts: map<Symbol, nat>, pos: nat)
    requires WellGrouped(gs) && pos < |IterationTable(gs)|
    requires var e := IterationTable(gs)[pos];
             && e.data < |gs| && counts == InstancesMapAll(gs[e.data].controlFlow)
             && (forall id <- counts.Keys :: counts[id] > 0)
             && RowsAdded(m, r, counts, counts.Keys, e.first, e.last)
    requires AllExact(m, gs, Reached(IterationTable(gs), pos))
    ensures AllExact(r, gs, Reached(IterationTable(gs), pos + 1))
  {
    hide Exact, AddRow, InstancesMapAll, IterationTable, Counts;
    var t := IterationTable(gs);
    var e := t[pos];
    IterationTableExact(gs);
    RangeBounds(t, pos);
    forall id
      ensures Exact(InstancesOf(r, id), Counts(gs, id), e.last + 1)
    {
      forall n
        ensures Reached(t, pos) <= n < e.first ==> Counts(gs, id)(n) == 0
        ensures e.first <= n <= e.last ==> Counts(gs, id)(n) == At(counts, id)
      {
        RowCounts(gs, n, id);
        GapUncovered(t, pos, n);
      }
      var before := InstancesOf(m, id);
      assert Exact(before, Counts(gs, id), Reached(t, pos));
      if id in counts {
        AddRowKeeps(before, Counts(gs, id), Reached(t, pos), e.first, e.last, counts[id]);
      } else {
        SkipRow(before, Counts(gs, id), Reached(t, pos), e.last + 1);
      }
    }
  }

  lemma RangeBounds(t: seq<Entry<nat>>, pos: nat)
    requires Ordered(t) && pos < |t|
    ensures 0 <= Reached(t, pos) <= t[pos].first <= t[pos].last
  {
    assert pos > 0 ==> t[pos - 1].last < t[pos].first;
  }

  lemma GapUncovered(t: seq<Entry<nat>>, pos: nat, n: int)
    requires Ordered(t) && pos < |t|
    ensures Reached(t, pos) <= n < t[pos].first ==> !Covered(t, n)
    ensures t[pos].first <= n <= t[pos].last ==> Contains(t[pos], n)
  {
    if Reached(t, pos) <= n < t[pos].first {
      forall i | 0 <= i < |t|
        ensures !Contains(t[i], n)
      {
        assert i > pos ==> t[pos].last < t[i].first;
        assert i < pos - 1 ==> t[i].last < t[pos - 1].first;
        assert pos > 0 ==> t[pos - 1].first <= t[pos - 1].last;
      }
    }
  }

  // ---------- the invocation object ----------

  class InvocationGroupCfc {
    var iterations: seq<Group>
    var numInstancesLuts: seq<map<Symbol, nat>>    // the table of each group
    var iterLut: seq<Entry<nat>>                   // iteration ranges, each with the index of its group
    var invocationInstancesLut: map<Symbol, nat>
    var instructionInstanceLut: map<Symbol, seq<InstanceEntry>>
    ghost var recorded: seq<Group>                 // the groups before their control flow was discarded

    constructor (iterations: seq<Group>)
      ensures this.iterations == iterations && instructionInstanceLut == map[]
    {
      this.iterations := iterations;
      numInstancesLuts, iterLut, invocationInstancesLut, instructionInstanceLut := [], [], map[], map[];
    }

    /** Gives the last iteration of group `maxExisting`, in a group of its own, the rest of its control flow. */
    method ExtendLastIteration(maxExisting: nat, flow: seq<Pattern>)
      requires maxExisting < |iterations| && EndsInRange(iterations[maxExisting].repetitions)
      modifies this`iterations
      ensures iterations == ExtendLast(old(iterations), maxExisting, flow)
    {
      var existing, workingOn := iterations[maxExisting], maxExisting;
      if !IsSingleton(existing.repetitions) {
        var lastIteration := Last(existing.repetitions);
        iterations := iterations[maxExisting := Group(RemoveLast(existing.repetitions), existing.controlFlow)];
        iterations := iterations + [Group([Range(lastIteration, lastIteration)], existing.controlFlow)];
        workingOn := |iterations| - 1;
      }
      ghost var before, working := iterations, iterations[workingOn];
      assert working.controlFlow + flow[..0] == working.controlFlow;
      for i := 0 to |flow|
        invariant iterations == before[workingOn := Group(working.repetitions, working.controlFlow + flow[..i])]
      {
        var g := iterations[workingOn];
        iterations := iterations[workingOn := Group(g.repetitions, g.controlFlow + [flow[i]])];
        assert working.controlFlow + flow[..i + 1] == (working.controlFlow + flow[..i]) + [flow[i]];
      }
      assert flow[..|flow|] == flow;
    }

    /** Copies the groups of `inv`, without the iteration that was merged already. */
    method CopyRemaining(inv: InvocationGroupCfc, copiedMinNew: bool, minNew: nat)
      requires inv != this && (copiedMinNew ==> minNew < |inv.iterations| && inv.iterations[minNew].repetitions != [])
      modifies this`iterations, inv`iterations
      ensures iterations == old(iterations)
        + if copiedMinNew then WithoutFirst(old(inv.iterations), minNew) else old(inv.iterations)
    {
      ghost var base, later := iterations, inv.iterations;
      ghost var kept := if copiedMinNew then WithoutFirst(later, minNew) else later;
      ghost var copied := 0;
      var n := |inv.iterations|;
      for i := 0 to n
        invariant |inv.iterations| == n
        invariant forall j :: i <= j < n ==> inv.iterations[j] == later[j]
        invariant copied == if copiedMinNew && minNew < i && IsSingleton(later[minNew].repetitions) then i - 1 else i
        invariant copied <= |kept| && iterations == base + kept[..copied]
      {
        var g := inv.iterations[i];
        if copiedMinNew && i == minNew {
          if !IsSingleton(g.repetitions) {
            inv.iterations := inv.iterations[i := Group(RemoveFirst(g.repetitions), g.controlFlow)];
            iterations := iterations + [inv.iterations[i]];
            copied := copied + 1;
          }
        } else {
          iterations := iterations + [g];
          copied := copied + 1;
        }
      }
      assert kept[..copied] == kept;
    }

    /**
     Merges the next dumped segment of the invocation. An empty segment after a non-empty one would be
     read past its end; a dump always records the running iteration, so it does not occur.
     */
    method MergeIterationInfo(inv: InvocationGroupCfc)
      requires inv != this && AllProper(iterations) && AllProper(inv.iterations)
      requires iterations != [] ==> inv.iterations != []
      modifies this`iterations, inv`iterations
      ensures iterations == Merge(old(iterations), old(inv.iterations))
    {
      hide AllProper, ExtendLast, WithoutFirst;
      var copiedMinNew, minNew := false, 0;
      if iterations != [] {
        var maxExisting := LatestGroup(iterations, |iterations|);
        minNew := EarliestGroup(inv.iterations, |inv.iterations|);
        if Last(iterations[maxExisting].repetitions) == First(inv.iterations[minNew].repetitions) {
          ExtendLastIteration(maxExisting, inv.iterations[minNew].controlFlow);
          copiedMinNew := true;
        }
      }
      CopyRemaining(inv, copiedMinNew, minNew);
    }

    // ---------- the lookup tables ----------

    ghost predicate Precomputed()
      reads this
    {
      && WellGrouped(recorded)
      && |numInstancesLuts| == |recorded|
      && (forall i :: 0 <= i < |recorded| ==> numInstancesLuts[i] == InstancesMapAll(recorded[i].controlFlow))
      && iterLut == IterationTable(recorded)
      && (forall id :: At(invocationInstancesLut, id) == Total(recorded, id))
      && AllExact(instructionInstanceLut, recorded, IterationCount(recorded))
    }

    /** Builds the table of each group and discards its control flow. */
    method BuildIterationNumInstancesLuts()
      modifies this`iterations, this`numInstancesLuts
      ensures |numInstancesLuts| == |old(iterations)| == |iterations|
      ensures forall i :: 0 <= i < |iterations| ==>
                && numInstancesLuts[i] == InstancesMapAll(old(iterations)[i].controlFlow)
                && iterations[i] == Group(old(iterations)[i].repetitions, [])
    {
      ghost var before := iterations;
      numInstancesLuts := [];
      for i := 0 to |iterations|
        invariant |iterations| == |before| && |numInstancesLuts| == i
        invariant forall j :: i <= j < |before| ==> iterations[j] == before[j]
        invariant forall j :: 0 <= j < i ==>
                    numInstancesLuts[j] == InstancesMapAll(before[j].controlFlow) && iterations[j] == Group(before[j].repetitions, [])
      {
        var lut := BuildNumberOfInstancesLut(iterations[i].controlFlow);
        numInstancesLuts := numInstancesLuts + [lut];
        iterations := iterations[i := Group(iterations[i].repetitions, [])];
      }
    }

    method BuildIterGroupLut()
      modifies this`iterLut
      ensures iterLut == IterationTable(iterations)
    {
      var lutInput: seq<(RepetitionPattern, nat)> := [];
      for i := 0 to |iterations|
        invariant lutInput == LutInput(iterations)[..i]
      {
        lutInput := lutInput + [(iterations[i].repetitions, i)];
      }
      assert LutInput(iterations)[..|iterations|] == LutInput(iterations);
      iterLut := BuildLut([], lutInput);
      assert [] + Table(lutInput) == Table(lutInput);
    }

    method BuildInvocationNumInstancesLut(ghost gs: seq<Group>)
      requires AllProper(gs) && |iterations| == |numInstancesLuts| == |gs|
      requires forall i :: 0 <= i < |gs| ==>
                 iterations[i].repetitions == gs[i].repetitions && numInstancesLuts[i] == InstancesMapAll(gs[i].controlFlow)
      modifies this`invocationInstancesLut
      ensures forall id :: At(invocationInstancesLut, id) == Total(gs, id)
    {
      hide At, AddMaps, Scale, InstancesMapAll, NumInstances, Increasing;
      invocationInstancesLut := map[];
      NoCounts();
      for i := 0 to |iterations|
        invariant forall id :: At(invocationInstancesLut, id) == Total(gs[..i], id)
      {
        ghost var before := invocationInstancesLut;
        InstancesPositive(gs[i].repetitions);
        var numIterations := NumberOfIterationsSlow(iterations[i].repetitions);
        invocationInstancesLut := AddCounts(invocationInstancesLut, Scale(numIterations, numInstancesLuts[i]));
        AddMapsAt(before, Scale(numIterations, numInstancesLuts[i]));
        ScaleAt(numIterations, numInstancesLuts[i]);
        assert gs[..i + 1][..i] == gs[..i];
      }
      assert gs[..|gs|] == gs;
    }

    method BuildInstructionInstanceLut(ghost gs: seq<Group>)
      requires WellGrouped(gs) && |numInstancesLuts| == |gs| && iterLut == IterationTable(gs)
      requires forall i :: 0 <= i < |gs| ==>
                 numInstancesLuts[i] == InstancesMapAll(gs[i].controlFlow) && AllWellFormed(gs[i].controlFlow)
      requires instructionInstanceLut == map[]
      modifies this`instructionInstanceLut
      ensures AllExact(instructionInstanceLut, gs, IterationCount(gs))
    {
      hide AllExact, RowsAdded, IterationTable, InstancesMapAll, WellGrouped, AllWellFormed;
      IterationTableExact(gs);
      NothingReached(gs);
      var ii := Begin(iterLut);
      while ii != End(iterLut)
        invariant ii.pos <= |iterLut| && ii == (if ii.pos == |iterLut| then End(iterLut) else Iterator(ii.pos, iterLut[ii.pos].first))
        invariant AllExact(instructionInstanceLut, gs, Reached(iterLut, ii.pos))
        decreases |iterLut| - ii.pos
      {
        var e := iterLut[ii.pos];
        ghost var before := instructionInstanceLut;
        forall id <- numInstancesLuts[e.data].Keys
          ensures numInstancesLuts[e.data][id] > 0
        {
          InstancesMapPositive(gs[e.data].controlFlow, id);
        }
        instructionInstanceLut := AddIterations(instructionInstanceLut, numInstancesLuts[e.data], e.first, e.last);
        RangeKeeps(gs, before, instructionInstanceLut, numInstancesLuts[e.data], ii.pos);
        ii := NextEntry(iterLut, ii);
      }
    }

    /** Builds all tables; afterwards the groups no longer hold their control flow. */
    method PrecomputeDataStructures()
      requires WellGrouped(iterations) && instructionInstanceLut == map[]
      requires forall i :: 0 <= i < |iterations| ==> AllWellFormed(iterations[i].controlFlow)
      modifies this
      ensures Precomputed() && recorded == old(iterations)
      ensures |iterations| == |old(iterations)|
      ensures forall i :: 0 <= i < |iterations| ==> iterations[i] == Group(old(iterations)[i].repetitions, [])
    {
      hide AllExact, Total, AllWellFormed, WellGrouped, InstancesMapAll;
      recorded := iterations;
      BuildIterationNumInstancesLuts();
      BuildIterGroupLut();
      assert LutInput(iterations) == LutInput(recorded);
      ProperOfGrouped(recorded);
      BuildInvocationNumInstancesLut(recorded);
      BuildInstructionInstanceLut(recorded);
    }

    function GetNumInstances(id: Symbol): nat
      requires Precomputed()
      reads this
    {
      At(invocationInstancesLut, id)
    }

    predicate ContainsInstruction(id: Symbol)
      requires Precomputed()
      reads this
    {
      GetNumInstances(id) > 0
    }

    function GetIterationNumber(id: Symbol, k: nat): nat
      requires Precomputed() && k < GetNumInstances(id)
      reads this
    {
      InstanceFound(recorded, instructionInstanceLut, id, k);
      Lookup(InstancesOf(instructionInstanceLut, id), k)
    }

    /** The number of instances is the number of times the uncompressed trace executes the instruction. */
    lemma NumInstancesExact(id: Symbol)
      requires Precomputed()
      ensures IterationCount(recorded) >= 0
      ensures GetNumInstances(id) == Count(TraceUpTo(recorded, IterationCount(recorded)), id)
      ensures GetNumInstances(id) == Prefix(Counts(recorded, id), IterationCount(recorded))
      ensures ContainsInstruction(id) <==> id in TraceUpTo(recorded, IterationCount(recorded))
    {
      InvocationTotal(recorded, id);
    }

    /** The iteration found for the k-th instance is the one that contains it in the uncompressed trace. */
    lemma IterationNumberExact(id: Symbol, k: nat)
      requires Precomputed() && k < GetNumInstances(id)
      ensures var n := GetIterationNumber(id, k);
              && 0 <= n < IterationCount(recorded) && Located(Counts(recorded, id), k, n)
              && Count(TraceUpTo(recorded, n), id) <= k < Count(TraceUpTo(recorded, n + 1), id)
    {
      hide AllExact, Prefix, Counts, TraceUpTo, WellGrouped, Total, Lookup, LowerBound;
      InstanceFound(recorded, instructionInstanceLut, id, k);
    }

    /** Later instances are in later iterations. */
    lemma IterationsGrow(id: Symbol, j: nat, k: nat)
      requires Precomputed() && j <= k < GetNumInstances(id)
      ensures GetIterationNumber(id, j) <= GetIterationNumber(id, k)
    {
      hide InvocationGroupCfc.Precomputed, InvocationGroupCfc.GetNumInstances, InvocationGroupCfc.GetIterationNumber, Counts;
      var m, n := GetIterationNumber(id, j), GetIterationNumber(id, k);
      IterationNumberExact(id, j);
      IterationNumberExact(id, k);
      LocatedGrow(Counts(recorded, id), j, k, m, n);
    }
  }

  method NumberOfIterationsSlow(p: RepetitionPattern) returns (n: nat)
    requires NumInstances(p) >= 0
    ensures n == NumInstances(p)
  {
    var sum: int := 0;
    assert p[0..] == p;
    for i := 0 to |p|
      invariant sum + NumInstances(p[i..]) == NumInstances(p)
    {
      sum := sum + p[i].last - p[i].first + 1;
      assert p[i..][1..] == p[i + 1..];
    }
    n := sum;
  }

  lemma {:induction false} InstancesPositive(p: RepetitionPattern)
    requires Increasing(p)
    ensures NumInstances(p) >= 0
  {
    if p != [] {
      InstancesPositive(p[1..]);
    }
  }

  lemma NoCounts()
    ensures forall id :: At(map[], id) == 0
  {
  }

  lemma ScaleAt(n: nat, m: map<Symbol, nat>)
    ensures forall id :: At(Scale(n, m), id) == n * At(m, id)
  {
  }

  lemma NothingReached(gs: seq<Group>)
    ensures AllExact(map[], gs, 0)
  {
    forall id
      ensures Exact(InstancesOf(map[], id), Counts(gs, id), 0)
    {
      EmptyExact(Counts(gs, id));
    }
  }

  lemma ProperOfGrouped(gs: seq<Group>)
    requires WellGrouped(gs)
    ensures AllProper(gs)
  {
  }

  /** In exact tables, an instance is found in the iteration that contains it. */
  lemma InstanceFound(gs: seq<Group>, m: map<Symbol, seq<InstanceEntry>>, id: Symbol, k: nat)
    requires WellGrouped(gs) && AllExact(m, gs, IterationCount(gs)) && k < Total(gs, id)
    ensures var t := InstancesOf(m, id);
            && LowerBound(Ends(t), k) < |t| && t[LowerBound(Ends(t), k)].perIteration > 0
            && var n := Lookup(t, k);
               && 0 <= n < IterationCount(gs) && Located(Counts(gs, id), k, n)
               && Count(TraceUpTo(gs, n), id) <= k < Count(TraceUpTo(gs, n + 1), id)
  {
    hide Exact, Prefix, Counts, WellGrouped, Total, IterationCount, TraceUpTo, Lookup, LowerBound;
    var t := InstancesOf(m, id);
    InvocationTotal(gs, id);
    assert Exact(t, Counts(gs, id), IterationCount(gs));
    LookupExact(t, Counts(gs, id), IterationCount(gs), k);
    var n := Lookup(t, k);
    PrefixCountsTrace(gs, id, n);
    PrefixCountsTrace(gs, id, n + 1);
  }

  /**
   The sum of the per-group totals is the number of occurrences in the uncompressed trace, and
   also the number of instances that the instance table covers.
   */
  lemma InvocationTotal(gs: seq<Group>, id: Symbol)
    requires WellGrouped(gs)
    ensures IterationCount(gs) >= 0
    ensures Total(gs, id) == Prefix(Counts(gs, id), IterationCount(gs)) == Count(TraceUpTo(gs, IterationCount(gs)), id)
  {
    hide WellGrouped, Total, Prefix, Counts;
    ProperOfGrouped(gs);
    forall i | 0 <= i < |gs|
      ensures Last(gs[i].repetitions) < IterationCount(gs)
    {
      LastBelow(gs, i);
    }
    TotalExact(gs, id, IterationCount(gs));
    PrefixCountsTrace(gs, id, IterationCount(gs));
  }
}
