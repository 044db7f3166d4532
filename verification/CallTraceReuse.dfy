/**
 A cache of calls that is used for another invocation of the same call-trace group: the calls and their
 control flow are the same, but the invocation may run them in other iterations.
 */
module CallTraceReuse {
  import opened Sequences
  import opened CompressionPatterns
  import opened InstanceTables
  import opened InvocationGroups
  import opened CallTraceMerging
  import opened CallTraces

  /** The same instances of the same calls, in iterations of their own. */
  ghost predicate SameCalls(view: map<Symbol, Call>, other: map<Symbol, Call>) {
    && view.Keys == other.Keys
    && (forall id <- view.Keys :: CallOk(view[id]) && CallOk(other[id]))
    && (forall id <- view.Keys :: |view[id].iterations| == |other[id].iterations| && view[id].counts == other[id].counts)
  }

  /** The entries name call instances of `view`. */
  ghost predicate Named(es: seq<CacheEntry>, view: map<Symbol, Call>) {
    forall i :: 0 <= i < |es| ==> es[i].callId in view && es[i].callInstance < |view[es[i].callId].iterations|
  }

  /** Along the entries, the iterations of the call instances do not decrease. */
  ghost predicate InIterationOrder(es: seq<CacheEntry>, view: map<Symbol, Call>)
    requires Named(es, view)
  {
    forall i, j :: 0 <= i < j < |es| ==> IterationOf(view, es[i]) <= IterationOf(view, es[j])
  }

  /** Every instance of `s` lies in the iteration of the call instance whose entry contains it. */
  ghost predicate AllLocated(es: seq<CacheEntry>, view: map<Symbol, Call>, ids: seq<Symbol>, s: Symbol)
    requires Distinct(ids) && (forall id <- view.Keys :: CallOk(view[id])) && Named(es, view)
  {
    forall i, k :: 0 <= i < |es| && es[i].start <= k <= es[i].end ==>
      Located(SubCounts(view, ids, s), k, IterationOf(view, es[i]))
  }

  // ---------- the visits, seen from the other invocation ----------

  ghost function MovedOne(other: map<Symbol, Call>, c: CurrInst): CurrInst {
    if c.callId in other && c.instance < |other[c.callId].iterations|
    then c.(iteration := other[c.callId].iterations[c.instance]) else c
  }

  ghost function Moved(other: map<Symbol, Call>, v: seq<CurrInst>): seq<CurrInst> {
    if v == [] then [] else Moved(other, v[..|v| - 1]) + [MovedOne(other, v[|v| - 1])]
  }

  lemma {:induction false} MovedConcat(other: map<Symbol, Call>, a: seq<CurrInst>, b: seq<CurrInst>)
    ensures Moved(other, a + b) == Moved(other, a) + Moved(other, b)
  {
    hide MovedOne;
    if b == [] {
      assert a + b == a;
    } else {
      var k := |b| - 1;
      assert (a + b)[|a + b| - 1] == b[k] && (a + b)[..|a + b| - 1] == a + b[..k];
      MovedConcat(other, a, b[..k]);
    }
  }

  lemma MovedSingle(other: map<Symbol, Call>, c: CurrInst)
    ensures Moved(other, [c]) == [MovedOne(other, c)]
  {
    assert [c][..0] == [];
  }

  lemma {:induction false} MovedPermutes(other: map<Symbol, Call>, a: seq<CurrInst>, b: seq<CurrInst>)
    requires multiset(a) == multiset(b)
    ensures multiset(Moved(other, a)) == multiset(Moved(other, b))
  {
    hide MovedOne, Moved;
    if a == [] {
      EmptyByMultiset(b);
    } else {
      var front, x := a[..|a| - 1], a[|a| - 1];
      assert a == front + [x];
      assert x in multiset(a);
      var j := TakeOut(b, x);
      MovedPermutes(other, front, b[..j] + b[j + 1..]);
      MovedConcat(other, front, [x]);
      MovedConcat(other, b[..j], [x] + b[j + 1..]);
      MovedConcat(other, [x], b[j + 1..]);
      MovedConcat(other, b[..j], b[j + 1..]);
    }
  }

  lemma {:induction false} MovedFrom(view: map<Symbol, Call>, other: map<Symbol, Call>, id: Symbol, k: nat)
    requires SameCalls(view, other) && id in view
    ensures Moved(other, From(view[id], id, k)) == From(other[id], id, k)
    decreases |view[id].iterations| - k
  {
    hide CallOk;
    if k < |view[id].iterations| {
      var c := CurrInst(id, k, view[id].iterations[k]);
      MovedFrom(view, other, id, k + 1);
      MovedConcat(other, [c], From(view[id], id, k + 1));
      MovedSingle(other, c);
    }
  }

  /** The first instances of the calls are the same ones. */
  lemma {:induction false} MovedInitial(view: map<Symbol, Call>, other: map<Symbol, Call>, ids: seq<Symbol>)
    requires SameCalls(view, other)
    ensures Moved(other, Initial(view, ids)) == Initial(other, ids)
  {
    hide CallOk;
    if ids != [] {
      var front, id := ids[..|ids| - 1], ids[|ids| - 1];
      MovedInitial(view, other, front);
      if id in view && view[id].iterations != [] {
        var c := CurrInst(id, 0, view[id].iterations[0]);
        MovedConcat(other, Initial(view, front), [c]);
        MovedSingle(other, c);
      } else {
        assert Initial(view, ids) == Initial(view, front) && Initial(other, ids) == Initial(other, front);
      }
    }
  }

  lemma {:induction false} MovedAllPending(view: map<Symbol, Call>, other: map<Symbol, Call>, curr: seq<CurrInst>)
    requires SameCalls(view, other) && forall i :: 0 <= i < |curr| ==> curr[i].callId in view
    ensures |Moved(other, curr)| == |curr| && forall i :: 0 <= i < |curr| ==> Moved(other, curr)[i].callId in other
    ensures Moved(other, AllPending(view, curr)) == AllPending(other, Moved(other, curr))
  {
    hide From, CallOk, AllPending, Moved;
    if curr == [] {
      NothingMoved(view, other);
    } else {
      var front, c := curr[..|curr| - 1], curr[|curr| - 1];
      assert curr == front + [c];
      MovedAllPending(view, other, front);
      AllPendingConcat(view, front, [c]);
      AllPendingOne(view, c);
      MovedConcat(other, AllPending(view, front), AllPending(view, [c]));
      MovedFrom(view, other, c.callId, c.instance);
      MovedConcat(other, front, [c]);
      MovedSingle(other, c);
      AllPendingConcat(other, Moved(other, front), [MovedOne(other, c)]);
      AllPendingOne(other, MovedOne(other, c));
    }
  }

  lemma NothingMoved(view: map<Symbol, Call>, other: map<Symbol, Call>)
    ensures Moved(other, []) == [] && AllPending(view, []) == [] && AllPending(other, []) == []
  {
  }

  /** Counts and entries do not depend on the iterations. */
  lemma {:induction false} MovedEntries(view: map<Symbol, Call>, other: map<Symbol, Call>, v: seq<CurrInst>, s: Symbol)
    requires SameCalls(view, other)
    ensures Entries(other, Moved(other, v), s) == Entries(view, v, s)
    ensures Executed(other, Moved(other, v), s) == Executed(view, v, s)
  {
    hide Entries, Executed, CountOf, SameCalls, MovedOne;
    if v == [] {
      NoEntriesFor(view, other, s);
    } else {
      var front, c := v[..|v| - 1], v[|v| - 1];
      MovedEntries(view, other, front, s);
      SameCount(view, other, c, s);
      assert v == front + [c];
      EntriesSnoc(view, front, c, s);
      EntriesSnoc(other, Moved(other, front), MovedOne(other, c), s);
    }
  }

  lemma NoEntriesFor(view: map<Symbol, Call>, other: map<Symbol, Call>, s: Symbol)
    ensures Entries(view, [], s) == Entries(other, [], s) == [] && Executed(view, [], s) == Executed(other, [], s) == 0
  {
  }

  lemma EntriesSnoc(calls: map<Symbol, Call>, v: seq<CurrInst>, c: CurrInst, s: Symbol)
    ensures Executed(calls, v + [c], s) == Executed(calls, v, s) + CountOf(calls, c, s)
    ensures var running, n := Executed(calls, v, s), CountOf(calls, c, s);
            Entries(calls, v + [c], s)
            == Entries(calls, v, s) + if n > 0 then [CacheEntry(running, running + n - 1, c.callId, c.instance)] else []
  {
    assert (v + [c])[..|v + [c]| - 1] == v;
  }

  lemma SameCount(view: map<Symbol, Call>, other: map<Symbol, Call>, c: CurrInst, s: Symbol)
    requires SameCalls(view, other)
    ensures CountOf(other, MovedOne(other, c), s) == CountOf(view, c, s)
    ensures MovedOne(other, c).callId == c.callId && MovedOne(other, c).instance == c.instance
  {
    hide CallOk;
  }

  // ---------- the visits that execute the instruction ----------

  /** Leaving out the visits that do not execute `s` changes nothing for `s`. */
  lemma {:induction false} OnlyExecuting(calls: map<Symbol, Call>, v: seq<CurrInst>, s: Symbol)
    ensures var ex := Executing(calls, v, s);
            && Executing(calls, ex, s) == ex && Entries(calls, ex, s) == Entries(calls, v, s)
            && Executed(calls, ex, s) == Executed(calls, v, s)
  {
    hide CountOf;
    if v != [] {
      var front, c := v[..|v| - 1], v[|v| - 1];
      OnlyExecuting(calls, front, s);
      if CountOf(calls, c, s) > 0 {
        var ex := Executing(calls, v, s);
        assert ex[..|ex| - 1] == Executing(calls, front, s);
      } else {
        assert Executing(calls, v, s) == Executing(calls, front, s);
      }
    }
  }

  lemma {:induction false} TallyOfExecuting(calls: map<Symbol, Call>, v: seq<CurrInst>, s: Symbol, n: int)
    ensures Tally(calls, Executing(calls, v, s), s, n) == Tally(calls, v, s, n)
  {
    hide CountOf;
    if v != [] {
      var front, c := v[..|v| - 1], v[|v| - 1];
      TallyOfExecuting(calls, front, s, n);
      if CountOf(calls, c, s) > 0 {
        var ex := Executing(calls, v, s);
        assert ex[..|ex| - 1] == Executing(calls, front, s);
      } else {
        assert Executing(calls, v, s) == Executing(calls, front, s);
      }
    }
  }

  // ---------- when the reused cache is right ----------

  /** The executing visits of the building invocation, seen from the other one. */
  ghost function Reused(view: map<Symbol, Call>, other: map<Symbol, Call>, ids: seq<Symbol>, s: Symbol): seq<CurrInst>
    requires Distinct(ids) && forall id <- view.Keys :: CallOk(view[id])
  {
    InitialCurrent(view, ids);
    Executing(other, Moved(other, Visits(view, Initial(view, ids))), s)
  }

  /** They carry the iterations of the entries and tally as the other invocation does. */
  lemma ReusedExact(es: seq<CacheEntry>, view: map<Symbol, Call>, other: map<Symbol, Call>, ids: seq<Symbol>, s: Symbol)
    requires Distinct(ids) && SameCalls(view, other) && CacheExact(es, view, ids, s)
    ensures Named(es, other)
    ensures var ex := Reused(view, other, ids, s);
            && |ex| == |es| && Entries(other, ex, s) == es && Executing(other, ex, s) == ex
            && (forall i :: 0 <= i < |es| ==> ex[i].iteration == IterationOf(other, es[i]))
            && (forall n :: Tallies(other, ex, s)(n) == SubCounts(other, ids, s)(n))
  {
    hide CallOk, CountOf, Entries, Executing, Initial, AllPending, Current, Visits, Moved, Tally, AtInstance, SubCounts, Covers;
    InitialCurrent(view, ids);
    var v := Visits(view, Initial(view, ids));
    var w := Moved(other, v);
    MovedEntries(view, other, v, s);
    OnlyExecuting(other, w, s);
    EntriesCover(other, w, s);
    VisitsAtInstances(view, Initial(view, ids));
    MovedAt(view, other, v);
    ExecutingAreVisits(other, w, s);
    var ex := Reused(view, other, ids, s);
    forall i | 0 <= i < |es|
      ensures es[i].callId in other && es[i].callInstance < |other[es[i].callId].iterations|
      ensures ex[i].iteration == other[es[i].callId].iterations[es[i].callInstance]
    {
      assert AtInstance(other, ex[i]);
      InstanceCount(other, ex[i], s);
    }
    forall n
      ensures Tallies(other, ex, s)(n) == SubCounts(other, ids, s)(n)
    {
      TallyOfExecuting(other, w, s, n);
      MovedTally(view, other, ids, s, n);
    }
  }

  lemma {:induction false} MovedAt(view: map<Symbol, Call>, other: map<Symbol, Call>, v: seq<CurrInst>)
    requires SameCalls(view, other) && forall i :: 0 <= i < |v| ==> AtInstance(view, v[i])
    ensures forall i :: 0 <= i < |Moved(other, v)| ==> AtInstance(other, Moved(other, v)[i])
  {
    hide CallOk;
    if v != [] {
      MovedAt(view, other, v[..|v| - 1]);
    }
  }

  lemma MovedTally(view: map<Symbol, Call>, other: map<Symbol, Call>, ids: seq<Symbol>, s: Symbol, n: int)
    requires Distinct(ids) && SameCalls(view, other)
    requires Current(view, Initial(view, ids))
    ensures Tally(other, Moved(other, Visits(view, Initial(view, ids))), s, n) == SubCounts(other, ids, s)(n)
  {
    hide Initial, AllPending, AllInstances, Current, Visits, Moved, Tally, CallOk;
    var curr := Initial(view, ids);
    CurrentInCalls(view, curr);
    VisitsPermute(view, curr);
    MovedPermutes(other, Visits(view, curr), AllPending(view, curr));
    MovedAllPending(view, other, curr);
    MovedInitial(view, other, ids);
    InitialPending(other, ids);
    TallyOfPermutation(other, Moved(other, Visits(view, curr)), Moved(other, AllPending(view, curr)), s, n);
  }

  /**
   A cache that was built for one invocation attributes the instances of `s` rightly in another invocation of
   the group if and only if the iterations of its entries do not decrease there.
   */
  lemma ReusedCacheExact(es: seq<CacheEntry>, view: map<Symbol, Call>, other: map<Symbol, Call>, ids: seq<Symbol>, s: Symbol)
    requires Distinct(ids) && SameCalls(view, other) && CacheExact(es, view, ids, s)
    ensures Named(es, other)
    ensures AllLocated(es, other, ids, s) <==> InIterationOrder(es, other)
  {
    hide CacheExact, SubCounts, Entries, Executing, Located, Tallies, Reused, IterationOf, CallOk;
    ReusedExact(es, view, other, ids, s);
    var ex := Reused(view, other, ids, s);
    EntriesCover(other, ex, s);
    if InIterationOrder(es, other) {
      assert InOrder(ex, 0);
      forall i, k | 0 <= i < |es| && es[i].start <= k <= es[i].end
        ensures Located(SubCounts(other, ids, s), k, IterationOf(other, es[i]))
      {
        CacheLocates(other, ex, s, i, k);
        LocatedInSame(Tallies(other, ex, s), SubCounts(other, ids, s), k, IterationOf(other, es[i]));
      }
    }
    if AllLocated(es, other, ids, s) {
      forall i, j | 0 <= i < j < |es|
        ensures IterationOf(other, es[i]) <= IterationOf(other, es[j])
      {
        CoversInOrder(es, Executed(other, ex, s), i, j);
        LocatedGrow(SubCounts(other, ids, s), es[i].start, es[j].start, IterationOf(other, es[i]), IterationOf(other, es[j]));
      }
    }
  }

  lemma LocatedInSame(a: int -> nat, b: int -> nat, k: int, n: int)
    requires (forall i :: a(i) == b(i)) && Located(a, k, n)
    ensures Located(b, k, n)
  {
    SamePrefix(a, b, n);
    SamePrefix(a, b, n + 1);
  }

  /** In the invocation that the cache was built for, its entries are in iteration order. */
  lemma BuiltInOrder(es: seq<CacheEntry>, view: map<Symbol, Call>, ids: seq<Symbol>, s: Symbol)
    requires Distinct(ids) && (forall id <- view.Keys :: CallOk(view[id])) && CacheExact(es, view, ids, s)
    ensures SameCalls(view, view) && Named(es, view) && InIterationOrder(es, view)
  {
    hide CacheExact, CallOk, IterationOf;
    forall i | 0 <= i < |es|
      ensures es[i].callId in view && es[i].callInstance < |view[es[i].callId].iterations|
    {
      CacheEntryExact(es, view, ids, s, i);
    }
    forall i, j | 0 <= i < j < |es|
      ensures IterationOf(view, es[i]) <= IterationOf(view, es[j])
    {
      CacheInOrder(es, view, ids, s, i, j);
    }
  }

  /** Two invocations of one call-trace group that make every call equally often have the same calls. */
  lemma SameCallsOfGroup(view: map<Symbol, Call>, other: map<Symbol, Call>, calls: map<Symbol, CallTraceCall>,
      builder: InvocationGroupCfc, user: InvocationGroupCfc, ids: seq<Symbol>)
    requires builder.Precomputed() && user.Precomputed()
    requires forall id <- ids :: Active(calls, builder, id) ==> LookupsDefined(calls[id], builder.GetNumInstances(id))
    requires forall id <- ids :: Active(calls, user, id) ==> LookupsDefined(calls[id], user.GetNumInstances(id))
    requires StreamsOf(view, calls, builder, ids) && StreamsOf(other, calls, user, ids)
    requires forall id <- ids :: Active(calls, builder, id) <==> Active(calls, user, id)
    requires forall id <- ids :: builder.GetNumInstances(id) == user.GetNumInstances(id)
    ensures SameCalls(view, other)
  {
    hide InvocationGroupCfc.Precomputed, InvocationGroupCfc.GetNumInstances, InvocationGroupCfc.GetIterationNumber, LookupsDefined, Active;
    assert view.Keys == other.Keys;
    forall id <- view.Keys
      ensures CallOk(view[id]) && CallOk(other[id])
      ensures |view[id].iterations| == |other[id].iterations| && view[id].counts == other[id].counts
    {
      ActiveInCalls(calls, builder, id);
      assert Streams(view[id], calls[id], builder, id) && Streams(other[id], calls[id], user, id);
      SameStreams(view[id], other[id], calls[id], builder, user, id);
    }
  }

  lemma SameStreams(c: Call, d: Call, call: CallTraceCall, builder: InvocationGroupCfc, user: InvocationGroupCfc, id: Symbol)
    requires builder.Precomputed() && user.Precomputed()
    requires LookupsDefined(call, builder.GetNumInstances(id)) && LookupsDefined(call, user.GetNumInstances(id))
    requires builder.GetNumInstances(id) == user.GetNumInstances(id)
    requires Streams(c, call, builder, id) && Streams(d, call, user, id)
    ensures CallOk(c) && CallOk(d) && |c.iterations| == |d.iterations| && c.counts == d.counts
  {
    hide InvocationGroupCfc.Precomputed, InvocationGroupCfc.GetNumInstances, InvocationGroupCfc.GetIterationNumber;
    forall k | 0 <= k < |c.counts|
      ensures c.counts[k] == d.counts[k]
    {
      assert CountsAre(c.counts[k], call, k) && CountsAre(d.counts[k], call, k);
    }
  }

  // ---------- an invocation for which it is wrong ----------

  /** Two calls, each made once, in iterations `m` and `n`; both execute `s` once. */
  function TwoCalls(m: nat, n: nat, s: Symbol): map<Symbol, Call> {
    map[1 := Call([m], [map[s := 1]]), 2 := Call([n], [map[s := 1]])]
  }

  const FIRST_THEN_SECOND := [CacheEntry(0, 0, 1, 0), CacheEntry(1, 1, 2, 0)]

  lemma TwoCallsOk(m: nat, n: nat, s: Symbol)
    ensures var view := TwoCalls(m, n, s); view.Keys == {1, 2} && CallOk(view[1]) && CallOk(view[2])
  {
  }

  lemma TwoInitial(m: nat, n: nat, s: Symbol)
    ensures Initial(TwoCalls(m, n, s), [1, 2]) == [CurrInst(1, 0, m), CurrInst(2, 0, n)]
  {
    var view, ids: seq<Symbol> := TwoCalls(m, n, s), [1, 2];
    assert ids[..1] == [1] && ids[..1][..0] == [];
    assert Initial(view, [1]) == [CurrInst(1, 0, m)];
  }

  lemma TwoVisits(m: nat, n: nat, s: Symbol)
    requires m <= n
    ensures var curr := [CurrInst(1, 0, m), CurrInst(2, 0, n)];
            Current(TwoCalls(m, n, s), curr) && Visits(TwoCalls(m, n, s), curr) == curr
  {
    hide CallOk, Remaining;
    var view := TwoCalls(m, n, s);
    TwoCallsOk(m, n, s);
    var first, second := CurrInst(1, 0, m), CurrInst(2, 0, n);
    assert Current(view, [first, second]) && Current(view, [second]);
    assert MinimumIteration([first, second], 2) == 0 by { assert MinimumIteration([first, second], 1) == 0; }
    assert Advance(view, [first, second], 0) == [second];
    assert Advance(view, [second], 0) == [];
    assert Visits(view, [second]) == [second];
  }

  lemma TwoEntries(m: nat, n: nat, s: Symbol)
    ensures Entries(TwoCalls(m, n, s), [CurrInst(1, 0, m), CurrInst(2, 0, n)], s) == FIRST_THEN_SECOND
  {
    var view := TwoCalls(m, n, s);
    var first, second := CurrInst(1, 0, m), CurrInst(2, 0, n);
    assert CountOf(view, first, s) == CountOf(view, second, s) == 1;
    NoEntriesFor(view, view, s);
    hide Entries, Executed, CountOf, TwoCalls;
    EntriesSnoc(view, [], first, s);
    EntriesSnoc(view, [first], second, s);
    assert [] + [first] == [first] && [first] + [second] == [first, second];
  }

  /** Built where call 1 comes first, used where call 2 does: the entries then take the instances the wrong way round. */
  lemma SwappedCalls(s: Symbol)
    ensures var view, other := TwoCalls(0, 1, s), TwoCalls(1, 0, s);
            && Distinct([1, 2]) && SameCalls(view, other)
            && CacheExact(FIRST_THEN_SECOND, view, [1, 2], s)
            && Named(FIRST_THEN_SECOND, other) && !AllLocated(FIRST_THEN_SECOND, other, [1, 2], s)
  {
    hide CallOk, Visits, Initial, Entries, Current, AllLocated;
    var view, other := TwoCalls(0, 1, s), TwoCalls(1, 0, s);
    TwoCallsOk(0, 1, s);
    TwoCallsOk(1, 0, s);
    TwoInitial(0, 1, s);
    TwoVisits(0, 1, s);
    TwoEntries(0, 1, s);
    assert CacheExact(FIRST_THEN_SECOND, view, [1, 2], s);
    hide CacheExact;
    ReusedCacheExact(FIRST_THEN_SECOND, view, other, [1, 2], s);
    assert IterationOf(other, FIRST_THEN_SECOND[0]) == 1 && IterationOf(other, FIRST_THEN_SECOND[1]) == 0;
  }
}
