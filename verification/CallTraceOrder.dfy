/**
 Which call made an access: the cache lists the call instances of one iteration by the list of calls, whatever
 the order in which they ran. This module says exactly when the cache names the right calls all the same.
 */
module CallTraceOrder {
  import opened Sequences
  import opened CompressionPatterns
  import opened InstanceTables
  import opened CallTraceMerging
  import opened CallTraces
  import opened CallTraceReuse

  // ---------- the order of the visits ----------

  function Position(ids: seq<Symbol>, id: Symbol): (k: nat)
    ensures k <= |ids| && (k < |ids| ==> ids[k] == id)
    ensures id in ids ==> k < |ids|
  {
    if ids == [] || ids[0] == id then 0 else 1 + Position(ids[1..], id)
  }

  lemma {:induction false} PositionOf(ids: seq<Symbol>, k: nat)
    requires Distinct(ids) && k < |ids|
    ensures Position(ids, ids[k]) == k
  {
    if k > 0 {
      PositionOf(ids[1..], k - 1);
    }
  }

  /** By iteration, and within an iteration by the list of calls. */
  predicate NotAfter(ids: seq<Symbol>, c: CurrInst, d: CurrInst) {
    c.iteration < d.iteration || (c.iteration == d.iteration && Position(ids, c.callId) <= Position(ids, d.callId))
  }

  ghost predicate VisitingOrder(v: seq<CurrInst>, ids: seq<Symbol>) {
    forall i, j :: 0 <= i < j < |v| ==> NotAfter(ids, v[i], v[j])
  }

  /** The current instances stand in the order of the list of calls. */
  ghost predicate Listed(curr: seq<CurrInst>, ids: seq<Symbol>) {
    && (forall i :: 0 <= i < |curr| ==> curr[i].callId in ids)
    && (forall i, j :: 0 <= i < j < |curr| ==> Position(ids, curr[i].callId) < Position(ids, curr[j].callId))
  }

  lemma {:induction false} InitialListed(view: map<Symbol, Call>, ids: seq<Symbol>, n: nat)
    requires Distinct(ids) && n <= |ids|
    ensures var curr := Initial(view, ids[..n]);
            Listed(curr, ids) && forall i :: 0 <= i < |curr| ==> Position(ids, curr[i].callId) < n
  {
    if n > 0 {
      InitialListed(view, ids, n - 1);
      PositionOf(ids, n - 1);
      assert ids[..n][..n - 1] == ids[..n - 1];
    }
  }

  /** Of equally early instances the first one is visited. */
  lemma {:induction false} FirstMinimum(curr: seq<CurrInst>, k: nat)
    requires 0 < k <= |curr|
    ensures forall i :: 0 <= i < MinimumIteration(curr, k) ==> curr[i].iteration > curr[MinimumIteration(curr, k)].iteration
  {
    if k > 1 {
      FirstMinimum(curr, k - 1);
    }
  }

  lemma {:induction false} FromMember(call: Call, id: Symbol, k: nat, c: CurrInst)
    requires CallOk(call) && k < |call.iterations| && c in From(call, id, k)
    ensures c.callId == id && c.instance < |call.iterations| && c.iteration == call.iterations[c.instance]
    ensures call.iterations[k] <= c.iteration
    decreases |call.iterations| - k
  {
    if c != CurrInst(id, k, call.iterations[k]) {
      FromMember(call, id, k + 1, c);
    }
  }

  /** A pending instance comes no earlier than the current one of its call. */
  lemma {:induction false} PendingMember(calls: map<Symbol, Call>, curr: seq<CurrInst>, c: CurrInst)
    requires forall i :: 0 <= i < |curr| ==> curr[i].callId in calls && AtInstance(calls, curr[i])
    requires c in AllPending(calls, curr)
    ensures AtInstance(calls, c)
    ensures exists i :: 0 <= i < |curr| && curr[i].callId == c.callId && curr[i].iteration <= c.iteration
  {
    hide CallOk;
    assert AtInstance(calls, curr[0]);
    if c in From(calls[curr[0].callId], curr[0].callId, curr[0].instance) {
      FromMember(calls[curr[0].callId], curr[0].callId, curr[0].instance, c);
    } else {
      PendingMember(calls, curr[1..], c);
      var i :| 0 <= i < |curr[1..]| && curr[1..][i].callId == c.callId && curr[1..][i].iteration <= c.iteration;
      assert curr[i + 1] == curr[1..][i];
    }
  }

  lemma CurrentInstances(calls: map<Symbol, Call>, curr: seq<CurrInst>)
    requires Current(calls, curr)
    ensures forall i :: 0 <= i < |curr| ==> AtInstance(calls, curr[i])
  {
  }

  /** The visited instance is not after any pending one. */
  lemma VisitedFirst(calls: map<Symbol, Call>, curr: seq<CurrInst>, ids: seq<Symbol>, c: CurrInst)
    requires Current(calls, curr) && Listed(curr, ids) && curr != []
    requires (forall i :: 0 <= i < |curr| ==> curr[i].callId in calls) && c in AllPending(calls, curr)
    ensures NotAfter(ids, curr[MinimumIteration(curr, |curr|)], c)
  {
    hide Current, AllPending, AtInstance;
    CurrentInstances(calls, curr);
    PendingMember(calls, curr, c);
    var i :| 0 <= i < |curr| && curr[i].callId == c.callId && curr[i].iteration <= c.iteration;
    FirstMinimum(curr, |curr|);
  }

  lemma AdvanceListed(calls: map<Symbol, Call>, curr: seq<CurrInst>, ids: seq<Symbol>, m: nat)
    requires Current(calls, curr) && Listed(curr, ids) && m < |curr|
    ensures Listed(Advance(calls, curr, m), ids)
  {
    hide CallOk;
    assert AtInstance(calls, curr[m]);
  }

  lemma {:induction false} VisitsSorted(calls: map<Symbol, Call>, curr: seq<CurrInst>, ids: seq<Symbol>)
    requires Current(calls, curr) && Listed(curr, ids)
    ensures VisitingOrder(Visits(calls, curr), ids)
    decreases Remaining(calls, curr)
  {
    hide Current, Advance, AllPending, Listed, NotAfter;
    if curr != [] {
      var m := MinimumIteration(curr, |curr|);
      AdvanceTakes(calls, curr, m);
      AdvanceShrinks(calls, curr, m);
      RemainingPositive(calls, curr);
      RemainingPositive(calls, Advance(calls, curr, m));
      AdvanceListed(calls, curr, ids, m);
      var next := Advance(calls, curr, m);
      VisitsSorted(calls, next, ids);
      VisitsPermute(calls, next);
      forall i | 0 <= i < |Visits(calls, next)|
        ensures NotAfter(ids, curr[m], Visits(calls, next)[i])
      {
        var c := Visits(calls, next)[i];
        assert c in multiset(Visits(calls, next));
        assert c in multiset(AllPending(calls, curr));
        VisitedFirst(calls, curr, ids, c);
      }
    }
  }

  // ---------- an order that is determined by the calls ----------

  lemma {:induction false} InstancesConcat(a: seq<CurrInst>, b: seq<CurrInst>, id: Symbol)
    ensures InstancesOf(a + b, id) == InstancesOf(a, id) + InstancesOf(b, id)
  {
    hide InstancesOf;
    if a == [] {
      assert a + b == b;
      InstancesNone(a, id);
    } else {
      InstancesConcat(a[1..], b, id);
      assert (a + b)[0] == a[0] && (a + b)[1..] == a[1..] + b;
      FirstOf(a);
      FirstOf(a + b);
      var first := if a[0].callId == id then [a[0]] else [];
      assert first + (InstancesOf(a[1..], id) + InstancesOf(b, id)) == (first + InstancesOf(a[1..], id)) + InstancesOf(b, id);
    }
  }

  lemma {:induction false} InstancesMember(v: seq<CurrInst>, id: Symbol, c: CurrInst)
    ensures c in InstancesOf(v, id) <==> c in v && c.callId == id
  {
    if v != [] {
      InstancesMember(v[1..], id, c);
    }
  }

  /** The same instances of every call, in the same order within each call. */
  ghost predicate SameInstances(a: seq<CurrInst>, b: seq<CurrInst>) {
    forall id :: InstancesOf(a, id) == InstancesOf(b, id)
  }

  lemma FirstOf(v: seq<CurrInst>)
    requires v != []
    ensures forall id :: InstancesOf(v, id) == (if v[0].callId == id then [v[0]] else []) + InstancesOf(v[1..], id)
  {
  }

  /** The first instance of `b` is one of `a`, and so not before the first one there. */
  lemma FirstNotAfter(a: seq<CurrInst>, b: seq<CurrInst>, ids: seq<Symbol>)
    requires a != [] && b != [] && VisitingOrder(a, ids) && SameInstances(a, b)
    ensures NotAfter(ids, a[0], b[0])
  {
    InstancesMember(b, b[0].callId, b[0]);
    InstancesMember(a, b[0].callId, b[0]);
    var j :| 0 <= j < |a| && a[j] == b[0];
  }

  /** Two sequences in visiting order with the same instances are the same. */
  lemma {:induction false} SortedUnique(a: seq<CurrInst>, b: seq<CurrInst>, ids: seq<Symbol>)
    requires VisitingOrder(a, ids) && VisitingOrder(b, ids) && SameInstances(a, b)
    requires forall i :: 0 <= i < |a| ==> a[i].callId in ids
    ensures a == b
  {
    hide SameInstances;
    SameEmpty(a, b);
    if a != [] {
      FirstNotAfter(a, b, ids);
      SameSymmetric(a, b);
      FirstNotAfter(b, a, ids);
      SameFirst(a, b, ids);
      SameRest(a, b);
      SortedUnique(a[1..], b[1..], ids);
      assert a == [a[0]] + a[1..] && b == [b[0]] + b[1..];
    }
  }

  lemma SameSymmetric(a: seq<CurrInst>, b: seq<CurrInst>)
    requires SameInstances(a, b)
    ensures SameInstances(b, a)
  {
  }

  lemma SameEmpty(a: seq<CurrInst>, b: seq<CurrInst>)
    requires SameInstances(a, b)
    ensures a == [] <==> b == []
  {
    if a != [] {
      InstancesMember(a, a[0].callId, a[0]);
      InstancesMember(b, a[0].callId, a[0]);
    }
    if b != [] {
      InstancesMember(a, b[0].callId, b[0]);
      InstancesMember(b, b[0].callId, b[0]);
    }
  }

  lemma SameFirst(a: seq<CurrInst>, b: seq<CurrInst>, ids: seq<Symbol>)
    requires a != [] && b != [] && SameInstances(a, b)
    requires NotAfter(ids, a[0], b[0]) && NotAfter(ids, b[0], a[0]) && a[0].callId in ids
    ensures a[0] == b[0]
  {
    FirstOf(a);
    FirstOf(b);
    assert ids[Position(ids, a[0].callId)] == a[0].callId;
    assert InstancesOf(a, a[0].callId)[0] == a[0] && InstancesOf(b, b[0].callId)[0] == b[0];
  }

  lemma SameRest(a: seq<CurrInst>, b: seq<CurrInst>)
    requires a != [] && b != [] && SameInstances(a, b) && a[0] == b[0]
    ensures SameInstances(a[1..], b[1..])
  {
    FirstOf(a);
    FirstOf(b);
    forall id
      ensures InstancesOf(a[1..], id) == InstancesOf(b[1..], id)
    {
      var x := if a[0].callId == id then [a[0]] else [];
      assert InstancesOf(a[1..], id) == InstancesOf(a, id)[|x|..] && InstancesOf(b[1..], id) == InstancesOf(b, id)[|x|..];
    }
  }

  // ---------- the instances that execute the instruction ----------

  /** Selecting a call and selecting the executing instances commute. */
  lemma {:induction false} ExecutingInstances(calls: map<Symbol, Call>, v: seq<CurrInst>, s: Symbol, id: Symbol)
    ensures InstancesOf(Executing(calls, v, s), id) == Executing(calls, InstancesOf(v, id), s)
  {
    hide CountOf, Executing;
    ExecutingSnoc(calls, v, s);
    if v == [] {
      ExecutingSnoc(calls, [], s);
    } else {
      var front, c := v[..|v| - 1], v[|v| - 1];
      assert v == front + [c];
      ExecutingInstances(calls, front, s, id);
      InstancesConcat(front, [c], id);
      InstancesOne(c, id);
      InstancesConcat(Executing(calls, front, s), [c], id);
      if c.callId == id {
        var w := InstancesOf(front, id) + [c];
        ExecutingSnoc(calls, w, s);
        assert w[..|w| - 1] == InstancesOf(front, id);
      } else {
        assert InstancesOf(v, id) == InstancesOf(front, id);
        assert InstancesOf(Executing(calls, front, s) + [c], id) == InstancesOf(Executing(calls, front, s), id);
      }
    }
  }

  lemma InstancesOne(c: CurrInst, id: Symbol)
    ensures InstancesOf([c], id) == if c.callId == id then [c] else []
  {
    assert [c][1..] == [];
  }

  lemma {:induction false} ExecutingMember(calls: map<Symbol, Call>, v: seq<CurrInst>, s: Symbol, c: CurrInst)
    requires c in Executing(calls, v, s)
    ensures c in v
  {
    hide CountOf, Executing;
    ExecutingSnoc(calls, v, s);
    if v != [] && c != v[|v| - 1] {
      ExecutingMember(calls, v[..|v| - 1], s, c);
    }
  }

  lemma {:induction false} ExecutingSorted(calls: map<Symbol, Call>, v: seq<CurrInst>, s: Symbol, ids: seq<Symbol>)
    requires VisitingOrder(v, ids)
    ensures VisitingOrder(Executing(calls, v, s), ids)
  {
    hide CountOf, Executing, NotAfter;
    ExecutingSnoc(calls, v, s);
    if v != [] {
      var front, c := v[..|v| - 1], v[|v| - 1];
      ExecutingSorted(calls, front, s, ids);
      forall i | 0 <= i < |Executing(calls, front, s)|
        ensures NotAfter(ids, Executing(calls, front, s)[i], c)
      {
        ExecutingMember(calls, front, s, Executing(calls, front, s)[i]);
        var j :| 0 <= j < |front| && front[j] == Executing(calls, front, s)[i];
        assert NotAfter(ids, v[j], v[|v| - 1]);
      }
    }
  }

  lemma SameExecuting(calls: map<Symbol, Call>, a: seq<CurrInst>, b: seq<CurrInst>, s: Symbol)
    requires SameInstances(a, b)
    ensures SameInstances(Executing(calls, a, s), Executing(calls, b, s))
  {
    hide Executing;
    forall id
      ensures InstancesOf(Executing(calls, a, s), id) == InstancesOf(Executing(calls, b, s), id)
    {
      ExecutingInstances(calls, a, s, id);
      ExecutingInstances(calls, b, s, id);
    }
  }

  // ---------- which call made an access ----------

  /** The call that made access `k` of `s` when the call instances ran in the order of `run`. */
  ghost function CallerAt(calls: map<Symbol, Call>, run: seq<CurrInst>, s: Symbol, k: int): Symbol {
    if run == [] then 0
    else
      var front := run[..|run| - 1];
      if k >= Executed(calls, front, s) then run[|run| - 1].callId else CallerAt(calls, front, s, k)
  }

  /** In an order of running, every instance of every call occurs once, and the instances of a call in their order. */
  ghost predicate Ran(run: seq<CurrInst>, calls: map<Symbol, Call>, ids: seq<Symbol>) {
    forall id :: InstancesOf(run, id) == if id in ids then Instances(calls, id) else []
  }

  /** The entries name for every access of `s` the call that made it. */
  ghost predicate RightCallers(es: seq<CacheEntry>, calls: map<Symbol, Call>, run: seq<CurrInst>, s: Symbol) {
    forall i, k :: 0 <= i < |es| && es[i].start <= k <= es[i].end ==> es[i].callId == CallerAt(calls, run, s, k)
  }

  lemma {:induction false} CallerOfEntry(calls: map<Symbol, Call>, run: seq<CurrInst>, s: Symbol, i: nat, k: int)
    requires i < |Entries(calls, run, s)| && Entries(calls, run, s)[i].start <= k <= Entries(calls, run, s)[i].end
    ensures CallerAt(calls, run, s, k) == Entries(calls, run, s)[i].callId
  {
    hide CountOf, Entries, Executed, Covers;
    EntriesLast(calls, run, s);
    if run != [] {
      var front := run[..|run| - 1];
      if i < |Entries(calls, front, s)| {
        EntriesCover(calls, front, s);
        RangeBelow(Entries(calls, front, s), Executed(calls, front, s), i);
        CallerOfEntry(calls, front, s, i, k);
      }
    }
  }

  lemma EntriesLast(calls: map<Symbol, Call>, v: seq<CurrInst>, s: Symbol)
    ensures v == [] ==> Entries(calls, v, s) == []
    ensures v != [] ==>
              var front, c := v[..|v| - 1], v[|v| - 1];
              var running, n := Executed(calls, front, s), CountOf(calls, c, s);
              Entries(calls, v, s)
              == if n > 0 then Entries(calls, front, s) + [CacheEntry(running, running + n - 1, c.callId, c.instance)]
                 else Entries(calls, front, s)
  {
    hide CountOf;
    if v != [] {
      assert Entries(calls, v[..|v| - 1], s) + [] == Entries(calls, v[..|v| - 1], s);
    }
  }

  lemma {:induction false} RangeBelow(es: seq<CacheEntry>, total: int, i: nat)
    requires Covers(es, total) && i < |es|
    ensures es[i].end < total
    decreases |es| - i
  {
    if i < |es| - 1 {
      RangeBelow(es, total, i + 1);
    }
  }

  // ---------- entries that name the right calls ----------

  /** What two orders of running the same instances mean for the entries of `s`. */
  ghost predicate Comparison(calls: map<Symbol, Call>, v: seq<CurrInst>, run: seq<CurrInst>, s: Symbol, es: seq<CacheEntry>, fs: seq<CacheEntry>,
      a: seq<CurrInst>, b: seq<CurrInst>)
  {
    && es == Entries(calls, v, s) && fs == Entries(calls, run, s) && a == Executing(calls, v, s) && b == Executing(calls, run, s)
    && SameInstances(a, b)
  }

  /** The next instance of a call is determined by those before it. */
  lemma SameNext(a: seq<CurrInst>, b: seq<CurrInst>, p: nat)
    requires SameInstances(a, b) && p < |a| && p < |b| && a[..p] == b[..p] && a[p].callId == b[p].callId
    ensures a[p] == b[p]
  {
    hide InstancesOf;
    var id := a[p].callId;
    var k := |InstancesOf(a[..p], id)|;
    assert a == a[..p] + ([a[p]] + a[p + 1..]) && b == b[..p] + ([b[p]] + b[p + 1..]);
    InstancesConcat(a[..p], [a[p]] + a[p + 1..], id);
    InstancesConcat(b[..p], [b[p]] + b[p + 1..], id);
    InstancesConcat([a[p]], a[p + 1..], id);
    InstancesConcat([b[p]], b[p + 1..], id);
    InstancesOne(a[p], id);
    InstancesOne(b[p], id);
    assert InstancesOf(a, id)[k] == a[p] && InstancesOf(b, id)[k] == b[p];
  }

  /** Neither sequence is a proper prefix of the other. */
  lemma NoShorter(a: seq<CurrInst>, b: seq<CurrInst>, p: nat)
    requires SameInstances(a, b) && p < |a| && p <= |b| && a[..p] == b[..p]
    ensures p < |b|
  {
    hide InstancesOf;
    var id := a[p].callId;
    assert a == a[..p] + ([a[p]] + a[p + 1..]) && b == b[..p] + b[p..];
    InstancesConcat(a[..p], [a[p]] + a[p + 1..], id);
    InstancesConcat([a[p]], a[p + 1..], id);
    InstancesOne(a[p], id);
    InstancesConcat(b[..p], b[p..], id);
    assert |InstancesOf(b[p..], id)| > 0;
    InstancesNone(b[p..], id);
  }

  lemma InstancesNone(v: seq<CurrInst>, id: Symbol)
    ensures v == [] ==> InstancesOf(v, id) == []
  {
  }

  /** The ranges of equal beginnings end alike, so that the next ones begin alike. */
  lemma NextStart(es: seq<CacheEntry>, m: int, fs: seq<CacheEntry>, n: int, p: nat)
    requires Covers(es, m) && Covers(fs, n) && p < |es| && p < |fs| && es[..p] == fs[..p]
    ensures es[p].start == fs[p].start && es[p].start <= es[p].end && fs[p].start <= fs[p].end
  {
    if p > 0 {
      assert es[..p][p - 1] == fs[..p][p - 1];
    }
  }

  lemma {:induction false} RightUpTo(calls: map<Symbol, Call>, v: seq<CurrInst>, run: seq<CurrInst>, s: Symbol, es: seq<CacheEntry>, fs: seq<CacheEntry>,
      a: seq<CurrInst>, b: seq<CurrInst>, p: nat)
    requires Comparison(calls, v, run, s, es, fs, a, b) && RightCallers(es, calls, run, s) && p <= |a|
    ensures |es| == |a| && |fs| == |b| && p <= |b| && a[..p] == b[..p] && es[..p] == fs[..p]
  {
    hide Entries, Executing, CountOf, Executed, CallerAt, SameInstances, Covers;
    EntriesCover(calls, v, s);
    EntriesCover(calls, run, s);
    if p > 0 {
      var q := p - 1;
      RightUpTo(calls, v, run, s, es, fs, a, b, q);
      NoShorter(a, b, q);
      NextStart(es, Executed(calls, v, s), fs, Executed(calls, run, s), q);
      CallerOfEntry(calls, run, s, q, fs[q].start);
      SameNext(a, b, q);
      assert es[q] == fs[q];
      assert a[..p] == a[..q] + [a[q]] && b[..p] == b[..q] + [b[q]] && es[..p] == es[..q] + [es[q]] && fs[..p] == fs[..q] + [fs[q]];
    }
  }

  /** The callers are right exactly when the executing instances ran in the order of the visits. */
  lemma RightIsSameOrder(calls: map<Symbol, Call>, v: seq<CurrInst>, run: seq<CurrInst>, s: Symbol)
    requires SameInstances(v, run)
    ensures RightCallers(Entries(calls, v, s), calls, run, s) <==> Executing(calls, v, s) == Executing(calls, run, s)
  {
    hide Entries, Executing, CountOf, CallerAt, SameInstances;
    var es, fs, a, b := Entries(calls, v, s), Entries(calls, run, s), Executing(calls, v, s), Executing(calls, run, s);
    SameExecuting(calls, v, run, s);
    if RightCallers(es, calls, run, s) {
      RightUpTo(calls, v, run, s, es, fs, a, b, |a|);
      if |a| < |b| {
        SameSymmetric(a, b);
        assert b[..|a|] == a[..|a|];
        NoShorter(b, a, |a|);
      }
      assert a[..|a|] == a && b[..|b|] == b;
    }
    if a == b {
      SameEntries(calls, v, run, s);
      forall i, k | 0 <= i < |es| && es[i].start <= k <= es[i].end
        ensures es[i].callId == CallerAt(calls, run, s, k)
      {
        CallerOfEntry(calls, run, s, i, k);
      }
    }
  }

  lemma SameEntries(calls: map<Symbol, Call>, v: seq<CurrInst>, run: seq<CurrInst>, s: Symbol)
    requires Executing(calls, v, s) == Executing(calls, run, s)
    ensures Entries(calls, v, s) == Entries(calls, run, s)
  {
    hide Entries, Executing, Executed;
    OnlyExecuting(calls, v, s);
    OnlyExecuting(calls, run, s);
  }

  // ---------- when the cache names the right calls ----------

  lemma VisitsInList(view: map<Symbol, Call>, ids: seq<Symbol>)
    requires Distinct(ids) && forall id <- view.Keys :: CallOk(view[id])
    ensures Current(view, Initial(view, ids))
    ensures var v := Visits(view, Initial(view, ids));
            VisitingOrder(v, ids) && forall i :: 0 <= i < |v| ==> v[i].callId in ids && AtInstance(view, v[i])
  {
    hide CallOk, Visits, Initial, AllPending, AtInstance, NotAfter;
    InitialCurrent(view, ids);
    InitialListed(view, ids, |ids|);
    assert ids[..|ids|] == ids;
    var curr := Initial(view, ids);
    var v := Visits(view, curr);
    CurrentInstances(view, curr);
    CurrentInCalls(view, curr);
    VisitsSorted(view, curr, ids);
    VisitsPermute(view, curr);
    forall i | 0 <= i < |v|
      ensures v[i].callId in ids && AtInstance(view, v[i])
    {
      assert v[i] in multiset(v);
      PendingMember(view, curr, v[i]);
    }
  }

  lemma VisitsRan(view: map<Symbol, Call>, ids: seq<Symbol>, run: seq<CurrInst>)
    requires Distinct(ids) && (forall id <- view.Keys :: CallOk(view[id])) && Ran(run, view, ids)
    ensures Current(view, Initial(view, ids)) && SameInstances(Visits(view, Initial(view, ids)), run)
  {
    hide CallOk, Visits, Initial, Pending, InstancesOf;
    InitialCurrent(view, ids);
    forall id
      ensures InstancesOf(Visits(view, Initial(view, ids)), id) == InstancesOf(run, id)
    {
      VisitsEachOnce(view, Initial(view, ids), id);
      InitialPendingOf(view, ids, id);
    }
  }

  /**
   The cache names for every access of `s` the call that made it if and only if the call instances that execute
   `s` ran in visiting order: by iteration, and within an iteration by the list of calls.
   */
  lemma CallersExact(es: seq<CacheEntry>, view: map<Symbol, Call>, ids: seq<Symbol>, s: Symbol, run: seq<CurrInst>)
    requires Distinct(ids) && (forall id <- view.Keys :: CallOk(view[id])) && CacheExact(es, view, ids, s) && Ran(run, view, ids)
    ensures RightCallers(es, view, run, s) <==> VisitingOrder(Executing(view, run, s), ids)
    ensures RightCallers(es, view, run, s) ==> es == Entries(view, run, s)
  {
    hide CallOk, Visits, Initial, Entries, Executing, RightCallers, SameInstances, NotAfter, Ran, VisitingOrder;
    VisitsInList(view, ids);
    VisitsRan(view, ids, run);
    var v := Visits(view, Initial(view, ids));
    RightIsSameOrder(view, v, run, s);
    ExecutingSorted(view, v, s, ids);
    if VisitingOrder(Executing(view, run, s), ids) {
      SameExecuting(view, v, run, s);
      forall i | 0 <= i < |Executing(view, v, s)|
        ensures Executing(view, v, s)[i].callId in ids
      {
        ExecutingMember(view, v, s, Executing(view, v, s)[i]);
      }
      SortedUnique(Executing(view, v, s), Executing(view, run, s), ids);
    }
    if RightCallers(es, view, run, s) {
      SameEntries(view, v, run, s);
    }
  }

  /** Within each iteration the calls that execute the instruction ran by the list of calls, one after the other. */
  ghost predicate ListOrder(v: seq<CurrInst>, ids: seq<Symbol>) {
    forall i, j :: 0 <= i < j < |v| && v[i].iteration == v[j].iteration ==> Position(ids, v[i].callId) <= Position(ids, v[j].callId)
  }

  /** In the invocation that the cache was built for, where iterations run one after the other, that is all it takes. */
  lemma CallersInListOrder(es: seq<CacheEntry>, view: map<Symbol, Call>, ids: seq<Symbol>, s: Symbol, run: seq<CurrInst>)
    requires Distinct(ids) && (forall id <- view.Keys :: CallOk(view[id])) && CacheExact(es, view, ids, s) && Ran(run, view, ids)
    requires InOrder(run, 0)
    ensures RightCallers(es, view, run, s) <==> ListOrder(Executing(view, run, s), ids)
  {
    hide CallOk, CacheExact, Executing, RightCallers, Ran;
    CallersExact(es, view, ids, s, run);
    ExecutingInOrder(view, run, s, 0);
  }

  // ---------- the order of the entries ----------

  ghost predicate GrowingInstances(v: seq<CurrInst>) {
    forall i, j :: 0 <= i < j < |v| ==> v[i].instance < v[j].instance
  }

  lemma {:induction false} ExecutingGrows(calls: map<Symbol, Call>, v: seq<CurrInst>, s: Symbol)
    requires GrowingInstances(v)
    ensures GrowingInstances(Executing(calls, v, s))
  {
    hide CountOf, Executing;
    ExecutingSnoc(calls, v, s);
    if v != [] {
      var front, c := v[..|v| - 1], v[|v| - 1];
      ExecutingGrows(calls, front, s);
      forall i | 0 <= i < |Executing(calls, front, s)|
        ensures Executing(calls, front, s)[i].instance < c.instance
      {
        ExecutingMember(calls, front, s, Executing(calls, front, s)[i]);
        var j :| 0 <= j < |front| && front[j] == Executing(calls, front, s)[i];
      }
    }
  }

  lemma LaterInCall(v: seq<CurrInst>, i: nat, j: nat)
    requires i < j < |v| && v[i].callId == v[j].callId && GrowingInstances(InstancesOf(v, v[j].callId))
    ensures v[i].instance < v[j].instance
  {
    hide InstancesOf;
    var id := v[j].callId;
    var before := InstancesOf(v[..j], id);
    assert v == v[..j] + ([v[j]] + v[j + 1..]);
    InstancesConcat(v[..j], [v[j]] + v[j + 1..], id);
    InstancesConcat([v[j]], v[j + 1..], id);
    InstancesOne(v[j], id);
    InstancesMember(v[..j], id, v[..j][i]);
    var p :| 0 <= p < |before| && before[p] == v[i];
    assert InstancesOf(v, id)[p] == v[i] && InstancesOf(v, id)[|before|] == v[j];
  }

  lemma InstancesGrow(view: map<Symbol, Call>, id: Symbol)
    ensures GrowingInstances(Instances(view, id))
  {
  }

  /** The entries go by iteration, within an iteration by the list of calls, and for each call by its instances. */
  lemma EntriesInOrder(es: seq<CacheEntry>, view: map<Symbol, Call>, ids: seq<Symbol>, s: Symbol, i: nat, j: nat)
    requires Distinct(ids) && (forall id <- view.Keys :: CallOk(view[id])) && CacheExact(es, view, ids, s) && i < j < |es|
    ensures es[i].callId in view && es[i].callInstance < |view[es[i].callId].iterations|
    ensures es[j].callId in view && es[j].callInstance < |view[es[j].callId].iterations|
    ensures var m, n := view[es[i].callId].iterations[es[i].callInstance], view[es[j].callId].iterations[es[j].callInstance];
            m < n || (m == n && Position(ids, es[i].callId) <= Position(ids, es[j].callId))
    ensures es[i].callId == es[j].callId ==> es[i].callInstance < es[j].callInstance
  {
    hide CallOk, Visits, Initial, Executing, InstancesOf, Instances, CountOf, AtInstance;
    VisitsInList(view, ids);
    var v := Visits(view, Initial(view, ids));
    var ex := Executing(view, v, s);
    CacheEntryExact(es, view, ids, s, i);
    CacheEntryExact(es, view, ids, s, j);
    EntriesCover(view, v, s);
    ExecutingSorted(view, v, s, ids);
    assert NotAfter(ids, ex[i], ex[j]);
    IterationIs(view, es[i]);
    IterationIs(view, es[j]);
    if es[i].callId == es[j].callId {
      var id := es[i].callId;
      ExecutingInstances(view, v, s, id);
      VisitsEachOnce(view, Initial(view, ids), id);
      InitialPendingOf(view, ids, id);
      InstancesGrow(view, id);
      ExecutingGrows(view, InstancesOf(v, id), s);
      LaterInCall(ex, i, j);
    }
  }

  // ---------- another invocation of the group ----------

  lemma {:induction false} MovedInstances(other: map<Symbol, Call>, v: seq<CurrInst>, id: Symbol)
    ensures InstancesOf(Moved(other, v), id) == Moved(other, InstancesOf(v, id))
  {
    hide MovedOne, InstancesOf, Moved;
    if v == [] {
      MovedNothing(other, id);
    } else {
      var front, c := v[..|v| - 1], v[|v| - 1];
      assert v == front + [c];
      MovedInstances(other, front, id);
      InstancesConcat(front, [c], id);
      InstancesOne(c, id);
      MovedConcat(other, front, [c]);
      MovedSingle(other, c);
      InstancesConcat(Moved(other, front), [MovedOne(other, c)], id);
      InstancesOne(MovedOne(other, c), id);
      MovedCall(other, c);
      MovedConcat(other, InstancesOf(front, id), if c.callId == id then [c] else []);
      MovedNothing(other, id);
    }
  }

  lemma MovedNothing(other: map<Symbol, Call>, id: Symbol)
    ensures Moved(other, []) == [] && InstancesOf([], id) == []
  {
  }

  lemma MovedCall(other: map<Symbol, Call>, c: CurrInst)
    ensures MovedOne(other, c).callId == c.callId && MovedOne(other, c).instance == c.instance
  {
  }

  /** The instances of a call are those of the other invocation, in its iterations. */
  lemma MovedCallInstances(view: map<Symbol, Call>, other: map<Symbol, Call>, id: Symbol)
    requires SameCalls(view, other)
    ensures Moved(other, Instances(view, id)) == Instances(other, id)
  {
    hide From, CallOk, Moved, Instances;
    InstancesLength(view, id);
    InstancesLength(other, id);
    if id in view {
      AllFromFirst(view, id);
      AllFromFirst(other, id);
      MovedFrom(view, other, id, 0);
    } else {
      MovedNothing(other, id);
    }
  }

  lemma {:induction false} MovedExecuting(view: map<Symbol, Call>, other: map<Symbol, Call>, v: seq<CurrInst>, s: Symbol)
    requires SameCalls(view, other)
    ensures Executing(other, Moved(other, v), s) == Moved(other, Executing(view, v, s))
  {
    hide CountOf, Executing, Moved, MovedOne, SameCalls;
    ExecutingSnoc(view, v, s);
    if v == [] {
      MovedNothing(other, 0);
      ExecutingSnoc(other, [], s);
    } else {
      var front, c := v[..|v| - 1], v[|v| - 1];
      assert v == front + [c];
      MovedExecuting(view, other, front, s);
      MovedConcat(other, front, [c]);
      MovedSingle(other, c);
      var w := Moved(other, v);
      ExecutingSnoc(other, w, s);
      assert w[..|w| - 1] == Moved(other, front);
      SameCount(view, other, c, s);
      MovedConcat(other, Executing(view, front, s), [c]);
    }
  }

  lemma {:induction false} MovedCaller(view: map<Symbol, Call>, other: map<Symbol, Call>, run: seq<CurrInst>, s: Symbol, k: int)
    requires SameCalls(view, other)
    ensures CallerAt(other, Moved(other, run), s, k) == CallerAt(view, run, s, k)
  {
    hide CountOf, SameCalls, Executed, MovedOne;
    if run != [] {
      var front, c := run[..|run| - 1], run[|run| - 1];
      MovedCaller(view, other, front, s, k);
      MovedEntries(view, other, front, s);
      MovedCall(other, c);
      assert Moved(other, run)[..|Moved(other, run)| - 1] == Moved(other, front);
    }
  }

  lemma SameCallsSymmetric(view: map<Symbol, Call>, other: map<Symbol, Call>)
    requires SameCalls(view, other)
    ensures SameCalls(other, view) && (forall id <- view.Keys :: CallOk(view[id])) && (forall id <- other.Keys :: CallOk(other[id]))
  {
  }

  /** An order of running of one invocation is one of the other. */
  lemma MovedRan(view: map<Symbol, Call>, other: map<Symbol, Call>, ids: seq<Symbol>, run: seq<CurrInst>)
    requires SameCalls(view, other) && Ran(run, view, ids)
    ensures Ran(Moved(other, run), other, ids)
  {
    hide SameCalls, Moved, Instances, InstancesOf;
    forall id
      ensures InstancesOf(Moved(other, run), id) == if id in ids then Instances(other, id) else []
    {
      MovedInstances(other, run, id);
      MovedCallInstances(view, other, id);
      MovedNothing(other, id);
    }
  }

  /**
   A cache built for the invocation of `view` names the right calls in the invocation of `other` if and only if there
   the call instances that execute `s` ran in the visiting order of the invocation that it was built for.
   */
  lemma ReusedCallersExact(es: seq<CacheEntry>, view: map<Symbol, Call>, other: map<Symbol, Call>, ids: seq<Symbol>, s: Symbol, run: seq<CurrInst>)
    requires Distinct(ids) && SameCalls(view, other) && CacheExact(es, view, ids, s) && Ran(run, other, ids)
    ensures RightCallers(es, other, run, s) <==> VisitingOrder(Moved(view, Executing(other, run, s)), ids)
    ensures RightCallers(es, other, run, s) ==> es == Entries(other, run, s)
  {
    hide SameCalls, CallOk, CacheExact, Moved, Executing, VisitingOrder, Ran, Entries, CallerAt;
    SameCallsSymmetric(view, other);
    MovedRan(other, view, ids, run);
    CallersExact(es, view, ids, s, Moved(view, run));
    MovedExecuting(other, view, run, s);
    MovedEntries(other, view, run, s);
    forall k
      ensures CallerAt(view, Moved(view, run), s, k) == CallerAt(other, run, s, k)
    {
      MovedCaller(other, view, run, s, k);
    }
  }

  /** Naming the right calls, the cache also gives the right iterations. */
  lemma CallersGiveIterations(es: seq<CacheEntry>, view: map<Symbol, Call>, other: map<Symbol, Call>, ids: seq<Symbol>, s: Symbol, run: seq<CurrInst>)
    requires Distinct(ids) && SameCalls(view, other) && CacheExact(es, view, ids, s) && Ran(run, other, ids) && InOrder(run, 0)
    requires RightCallers(es, other, run, s)
    ensures Named(es, other) && InIterationOrder(es, other)
  {
    hide SameCalls, CallOk, CacheExact, Executing, Ran, Entries, RightCallers, CountOf, Executed, Covers, AtInstance, IterationOf;
    SameCallsSymmetric(view, other);
    ReusedCallersExact(es, view, other, ids, s, run);
    EntriesCover(other, run, s);
    ExecutingInOrder(other, run, s, 0);
    var ex := Executing(other, run, s);
    RanAt(run, other, ids);
    ExecutingAreVisits(other, run, s);
    forall i | 0 <= i < |es|
      ensures es[i].callId in other && es[i].callInstance < |other[es[i].callId].iterations|
      ensures IterationOf(other, es[i]) == ex[i].iteration
    {
      InstanceCount(other, ex[i], s);
      IterationIs(other, es[i]);
    }
  }

  lemma IterationIs(view: map<Symbol, Call>, e: CacheEntry)
    requires e.callId in view && e.callInstance < |view[e.callId].iterations|
    ensures IterationOf(view, e) == view[e.callId].iterations[e.callInstance]
  {
  }

  lemma RanAt(run: seq<CurrInst>, calls: map<Symbol, Call>, ids: seq<Symbol>)
    requires Distinct(ids) && (forall id <- calls.Keys :: CallOk(calls[id])) && Ran(run, calls, ids)
    ensures forall i :: 0 <= i < |run| ==> AtInstance(calls, run[i])
  {
    hide CallOk, Visits, Initial, AtInstance, Ran, InstancesOf;
    VisitsInList(calls, ids);
    VisitsRan(calls, ids, run);
    var v := Visits(calls, Initial(calls, ids));
    forall i | 0 <= i < |run|
      ensures AtInstance(calls, run[i])
    {
      InstancesMember(run, run[i].callId, run[i]);
      InstancesMember(v, run[i].callId, run[i]);
      var j :| 0 <= j < |v| && v[j] == run[i];
    }
  }

  /** When one call makes all accesses, the cache names it, whatever the order. */
  lemma ConstantCallRight(es: seq<CacheEntry>, view: map<Symbol, Call>, other: map<Symbol, Call>, ids: seq<Symbol>, s: Symbol, run: seq<CurrInst>)
    requires Distinct(ids) && SameCalls(view, other) && CacheExact(es, view, ids, s) && Ran(run, other, ids) && SameCall(es)
    ensures RightCallers(es, other, run, s)
  {
    hide SameCalls, CallOk, Moved, Executing, Ran, Entries, CallerAt, Visits, Initial, SameInstances, CountOf, Executed, Covers;
    SameCallsSymmetric(view, other);
    MovedRan(other, view, ids, run);
    var moved := Moved(view, run);
    VisitsInList(view, ids);
    VisitsRan(view, ids, moved);
    var v := Visits(view, Initial(view, ids));
    SameExecuting(view, v, moved, s);
    EntriesCover(view, v, s);
    OneCallOnly(Executing(view, v, s), Executing(view, moved, s));
    RightIsSameOrder(view, v, moved, s);
    forall k
      ensures CallerAt(view, moved, s, k) == CallerAt(other, run, s, k)
    {
      MovedCaller(other, view, run, s, k);
    }
  }

  /** Instances of a single call are determined by their order in it. */
  lemma OneCallOnly(a: seq<CurrInst>, b: seq<CurrInst>)
    requires SameInstances(a, b) && forall i, j :: 0 <= i < |a| && 0 <= j < |a| ==> a[i].callId == a[j].callId
    ensures a == b
  {
    hide SameInstances;
    SameEmpty(a, b);
    if a != [] {
      var id := a[0].callId;
      forall j | 0 <= j < |b|
        ensures b[j].callId == id
      {
        CallOccurs(a, b, j);
      }
      AllOfOne(a, id);
      AllOfOne(b, id);
      assert InstancesOf(a, id) == InstancesOf(b, id) by { InstancesAlike(a, b, id); }
    }
  }

  lemma InstancesAlike(a: seq<CurrInst>, b: seq<CurrInst>, id: Symbol)
    requires SameInstances(a, b)
    ensures InstancesOf(a, id) == InstancesOf(b, id)
  {
  }

  lemma CallOccurs(a: seq<CurrInst>, b: seq<CurrInst>, j: nat)
    requires SameInstances(a, b) && j < |b|
    ensures exists i :: 0 <= i < |a| && a[i].callId == b[j].callId
  {
    InstancesMember(b, b[j].callId, b[j]);
    InstancesMember(a, b[j].callId, b[j]);
    var i :| 0 <= i < |a| && a[i] == b[j];
  }

  lemma {:induction false} AllOfOne(v: seq<CurrInst>, id: Symbol)
    requires forall i :: 0 <= i < |v| ==> v[i].callId == id
    ensures InstancesOf(v, id) == v
  {
    if v != [] {
      AllOfOne(v[1..], id);
    }
  }

  // ---------- a run for which the cache names the wrong calls ----------

  const SECOND_THEN_FIRST := [CurrInst(2, 0, 0), CurrInst(1, 0, 0)]

  /**
   Two calls made once each in the same iteration, the second of the list first: the cache of this very invocation
   is in iteration order and gives every access its iteration, but names the wrong call for both.
   */
  lemma CallsOutOfListOrder(s: Symbol)
    ensures var view := TwoCalls(0, 0, s);
            && Distinct([1, 2]) && (forall id <- view.Keys :: CallOk(view[id]))
            && Ran(SECOND_THEN_FIRST, view, [1, 2]) && InOrder(SECOND_THEN_FIRST, 0)
            && CacheExact(FIRST_THEN_SECOND, view, [1, 2], s)
            && Named(FIRST_THEN_SECOND, view) && AllLocated(FIRST_THEN_SECOND, view, [1, 2], s)
            && CallerAt(view, SECOND_THEN_FIRST, s, 0) == 2 && CallerAt(view, SECOND_THEN_FIRST, s, 1) == 1
            && !RightCallers(FIRST_THEN_SECOND, view, SECOND_THEN_FIRST, s)
  {
    hide CallOk, Visits, Initial, Entries, Current, AllLocated, Pending, InstancesOf;
    var view := TwoCalls(0, 0, s);
    TwoCallsOk(0, 0, s);
    TwoInitial(0, 0, s);
    TwoVisits(0, 0, s);
    TwoEntries(0, 0, s);
    assert CacheExact(FIRST_THEN_SECOND, view, [1, 2], s);
    SwappedRan(s);
    SwappedCallers(s);
    assert FIRST_THEN_SECOND[0].callId != CallerAt(view, SECOND_THEN_FIRST, s, FIRST_THEN_SECOND[0].start);
    hide CacheExact;
    BuiltInOrder(FIRST_THEN_SECOND, view, [1, 2], s);
    ReusedCacheExact(FIRST_THEN_SECOND, view, view, [1, 2], s);
  }

  lemma SwappedRan(s: Symbol)
    ensures Ran(SECOND_THEN_FIRST, TwoCalls(0, 0, s), [1, 2])
  {
    var view := TwoCalls(0, 0, s);
    var first, second := CurrInst(1, 0, 0), CurrInst(2, 0, 0);
    forall id
      ensures InstancesOf(SECOND_THEN_FIRST, id) == if id in [1, 2] then Instances(view, id) else []
    {
      assert SECOND_THEN_FIRST == [second] + [first];
      InstancesConcat([second], [first], id);
      InstancesOne(first, id);
      InstancesOne(second, id);
      assert Instances(view, 1) == [first] && Instances(view, 2) == [second];
    }
  }

  lemma SwappedCallers(s: Symbol)
    ensures var view := TwoCalls(0, 0, s); CallerAt(view, SECOND_THEN_FIRST, s, 0) == 2 && CallerAt(view, SECOND_THEN_FIRST, s, 1) == 1
  {
    var view := TwoCalls(0, 0, s);
    var run := SECOND_THEN_FIRST;
    assert run[..1] == [run[0]] && run[..1][..0] == [];
    assert CountOf(view, run[0], s) == 1;
    assert Executed(view, [], s) == 0 && Executed(view, run[..1], s) == 1;
    assert CallerAt(view, run[..1], s, 0) == 2;
    assert run[..|run| - 1] == run[..1];
  }
}
