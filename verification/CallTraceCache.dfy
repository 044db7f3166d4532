/**
 The order in which the call instances of an invocation are visited: a merge of the calls by the
 iteration of their next instance.
 */
module CallTraceMerging {
  import opened Sequences
  import opened CompressionPatterns
  import opened InstanceTables

  /** The instances of one call: the iteration of each, and how often it runs each sub-instruction. */
  datatype Call = Call(iterations: seq<nat>, counts: seq<map<Symbol, nat>>)

  ghost predicate CallOk(c: Call) {
    && |c.iterations| == |c.counts|
    && (forall i, j :: 0 <= i < j < |c.iterations| ==> c.iterations[i] <= c.iterations[j])
  }

  /** The next instance of a call that is not finished. */
  datatype CurrInst = CurrInst(callId: Symbol, instance: nat, iteration: nat)

  ghost predicate Current(calls: map<Symbol, Call>, curr: seq<CurrInst>) {
    && (forall i :: 0 <= i < |curr| ==> AtInstance(calls, curr[i]))
    && (forall i, j :: 0 <= i < j < |curr| ==> curr[i].callId != curr[j].callId)
  }

  ghost predicate AtInstance(calls: map<Symbol, Call>, c: CurrInst) {
    && c.callId in calls && CallOk(calls[c.callId])
    && c.instance < |calls[c.callId].iterations| && c.iteration == calls[c.callId].iterations[c.instance]
  }

  /** The first of the instances with the smallest iteration among the first `k`. */
  function MinimumIteration(curr: seq<CurrInst>, k: nat): (m: nat)
    requires 0 < k <= |curr|
    ensures m < k
    ensures forall i :: 0 <= i < k ==> curr[m].iteration <= curr[i].iteration
  {
    if k == 1 then 0
    else
      var m := MinimumIteration(curr, k - 1);
      if curr[k - 1].iteration < curr[m].iteration then k - 1 else m
  }

  /** The instances left when the `m`-th has been visited. */
  ghost function Advance(calls: map<Symbol, Call>, curr: seq<CurrInst>, m: nat): seq<CurrInst>
    requires Current(calls, curr) && m < |curr|
  {
    var c := curr[m];
    var iterations := calls[c.callId].iterations;
    if |iterations| - 1 == c.instance then curr[..m] + curr[m + 1..]
    else curr[m := CurrInst(c.callId, c.instance + 1, iterations[c.instance + 1])]
  }

  lemma AdvanceCurrent(calls: map<Symbol, Call>, curr: seq<CurrInst>, m: nat)
    requires Current(calls, curr) && m < |curr|
    ensures Current(calls, Advance(calls, curr, m))
  {
    hide CallOk;
    assert AtInstance(calls, curr[m]);
  }

  ghost function Remaining(calls: map<Symbol, Call>, curr: seq<CurrInst>): int {
    if curr == [] then 0
    else
      var c := curr[|curr| - 1];
      Remaining(calls, curr[..|curr| - 1]) + if c.callId in calls then |calls[c.callId].iterations| - c.instance else 0
  }

  lemma {:induction false} RemainingSplit(calls: map<Symbol, Call>, a: seq<CurrInst>, b: seq<CurrInst>)
    ensures Remaining(calls, a + b) == Remaining(calls, a) + Remaining(calls, b)
  {
    if b == [] {
      assert a + b == a;
    } else {
      var k := |b| - 1;
      assert (a + b)[|a + b| - 1] == b[k] && (a + b)[..|a + b| - 1] == a + b[..k];
      RemainingSplit(calls, a, b[..k]);
    }
  }

  lemma {:induction false} RemainingPositive(calls: map<Symbol, Call>, curr: seq<CurrInst>)
    requires Current(calls, curr)
    ensures Remaining(calls, curr) >= |curr|
  {
    hide CallOk;
    if curr != [] {
      RemainingPositive(calls, curr[..|curr| - 1]);
      assert AtInstance(calls, curr[|curr| - 1]);
    }
  }

  /** Each visit leaves one instance less. */
  lemma AdvanceShrinks(calls: map<Symbol, Call>, curr: seq<CurrInst>, m: nat)
    requires Current(calls, curr) && m < |curr|
    ensures Remaining(calls, Advance(calls, curr, m)) == Remaining(calls, curr) - 1
  {
    hide CallOk, Remaining;
    var a, c, b := curr[..m], curr[m], curr[m + 1..];
    var next := Advance(calls, curr, m);
    assert AtInstance(calls, c);
    assert curr == a + ([c] + b);
    RemainingSplit(calls, a, [c] + b);
    RemainingSplit(calls, [c], b);
    RemainingOne(calls, c);
    if |calls[c.callId].iterations| - 1 == c.instance {
      RemainingSplit(calls, a, b);
    } else {
      var d := CurrInst(c.callId, c.instance + 1, calls[c.callId].iterations[c.instance + 1]);
      assert next == a + ([d] + b);
      RemainingSplit(calls, a, [d] + b);
      RemainingSplit(calls, [d], b);
      RemainingOne(calls, d);
    }
  }

  lemma RemainingOne(calls: map<Symbol, Call>, c: CurrInst)
    requires c.callId in calls
    ensures Remaining(calls, [c]) == |calls[c.callId].iterations| - c.instance
  {
    assert [c][..0] == [];
  }

  /** All visits, in order. */
  ghost function Visits(calls: map<Symbol, Call>, curr: seq<CurrInst>): seq<CurrInst>
    requires Current(calls, curr)
    decreases Remaining(calls, curr)
  {
    if curr == [] then []
    else
      var m := MinimumIteration(curr, |curr|);
      AdvanceCurrent(calls, curr, m);
      AdvanceShrinks(calls, curr, m);
      RemainingPositive(calls, curr);
      RemainingPositive(calls, Advance(calls, curr, m));
      [curr[m]] + Visits(calls, Advance(calls, curr, m))
  }

  // ---------- the visits are in iteration order ----------

  lemma AdvanceNoEarlier(calls: map<Symbol, Call>, curr: seq<CurrInst>, m: nat, low: nat)
    requires Current(calls, curr) && m < |curr|
    requires forall i :: 0 <= i < |curr| ==> low <= curr[i].iteration
    ensures var next := Advance(calls, curr, m); forall i :: 0 <= i < |next| ==> low <= next[i].iteration
  {
    assert AtInstance(calls, curr[m]);
  }

  ghost predicate InOrder(v: seq<CurrInst>, low: nat) {
    && (forall i :: 0 <= i < |v| ==> low <= v[i].iteration)
    && (forall i, j :: 0 <= i < j < |v| ==> v[i].iteration <= v[j].iteration)
  }

  /** Iteration numbers never decrease along the visits. */
  lemma {:induction false} VisitsInOrder(calls: map<Symbol, Call>, curr: seq<CurrInst>, low: nat)
    requires Current(calls, curr)
    requires forall i :: 0 <= i < |curr| ==> low <= curr[i].iteration
    ensures InOrder(Visits(calls, curr), low)
    decreases Remaining(calls, curr)
  {
    hide Current, Advance, InOrder;
    if curr == [] {
      NoVisits(low);
    } else {
      var m := MinimumIteration(curr, |curr|);
      AdvanceCurrent(calls, curr, m);
      AdvanceShrinks(calls, curr, m);
      RemainingPositive(calls, curr);
      RemainingPositive(calls, Advance(calls, curr, m));
      AdvanceNoEarlier(calls, curr, m, curr[m].iteration);
      VisitsInOrder(calls, Advance(calls, curr, m), curr[m].iteration);
      PrependInOrder(curr[m], Visits(calls, Advance(calls, curr, m)), low);
      assert Visits(calls, curr) == [curr[m]] + Visits(calls, Advance(calls, curr, m));
    }
  }

  lemma NoVisits(low: nat)
    ensures InOrder([], low)
  {
  }

  lemma PrependInOrder(c: CurrInst, rest: seq<CurrInst>, low: nat)
    requires low <= c.iteration && InOrder(rest, c.iteration)
    ensures InOrder([c] + rest, low)
  {
  }

  // ---------- every instance is visited once ----------

  ghost function InstancesOf(v: seq<CurrInst>, id: Symbol): seq<CurrInst> {
    if v == [] then [] else (if v[0].callId == id then [v[0]] else []) + InstancesOf(v[1..], id)
  }

  /** The instances of call `id` from `k` on. */
  ghost function From(c: Call, id: Symbol, k: nat): seq<CurrInst>
    decreases |c.iterations| - k
  {
    if k >= |c.iterations| then [] else [CurrInst(id, k, c.iterations[k])] + From(c, id, k + 1)
  }

  /** What is still to be visited of call `id`. */
  ghost function Pending(calls: map<Symbol, Call>, curr: seq<CurrInst>, id: Symbol): seq<CurrInst> {
    if curr == [] then []
    else (if curr[0].callId == id && id in calls then From(calls[id], id, curr[0].instance) else []) + Pending(calls, curr[1..], id)
  }

  lemma {:induction false} PendingConcat(calls: map<Symbol, Call>, a: seq<CurrInst>, b: seq<CurrInst>, id: Symbol)
    ensures Pending(calls, a + b, id) == Pending(calls, a, id) + Pending(calls, b, id)
  {
    if a == [] {
      assert a + b == b;
    } else {
      assert (a + b)[0] == a[0] && (a + b)[1..] == a[1..] + b;
      PendingConcat(calls, a[1..], b, id);
    }
  }

  lemma {:induction false} NothingPending(calls: map<Symbol, Call>, curr: seq<CurrInst>, id: Symbol)
    requires forall i :: 0 <= i < |curr| ==> curr[i].callId != id
    ensures Pending(calls, curr, id) == []
  {
    if curr != [] {
      NothingPending(calls, curr[1..], id);
    }
  }

  lemma PendingOne(calls: map<Symbol, Call>, c: CurrInst, id: Symbol)
    requires c.callId in calls
    ensures Pending(calls, [c], id) == if c.callId == id then From(calls[id], id, c.instance) else []
  {
    assert [c][1..] == [];
  }

  /** A call waits with exactly the instances behind its current one. */
  lemma PendingAt(calls: map<Symbol, Call>, a: seq<CurrInst>, c: CurrInst, b: seq<CurrInst>)
    requires Current(calls, a + ([c] + b))
    ensures c.callId in calls && Pending(calls, a + ([c] + b), c.callId) == From(calls[c.callId], c.callId, c.instance)
  {
    hide AtInstance, From;
    var curr, k := a + ([c] + b), |a|;
    assert AtInstance(calls, curr[k]) && curr[k] == c;
    InstanceOfCall(calls, c);
    forall i | 0 <= i < |a|
      ensures a[i].callId != c.callId
    {
      assert curr[i].callId != curr[k].callId;
    }
    forall i | 0 <= i < |b|
      ensures b[i].callId != c.callId
    {
      assert curr[k].callId != curr[k + 1 + i].callId;
    }
    PendingConcat(calls, a, [c] + b, c.callId);
    PendingConcat(calls, [c], b, c.callId);
    NothingPending(calls, a, c.callId);
    NothingPending(calls, b, c.callId);
    PendingOne(calls, c, c.callId);
  }

  lemma InstanceOfCall(calls: map<Symbol, Call>, c: CurrInst)
    requires AtInstance(calls, c)
    ensures c.callId in calls && c.instance < |calls[c.callId].iterations|
    ensures From(calls[c.callId], c.callId, c.instance) == [c] + From(calls[c.callId], c.callId, c.instance + 1)
    ensures From(calls[c.callId], c.callId, |calls[c.callId].iterations|) == []
  {
  }

  /** A visit takes the first pending instance of its call and leaves the other calls alone. */
  lemma AdvancePending(calls: map<Symbol, Call>, curr: seq<CurrInst>, m: nat, id: Symbol)
    requires Current(calls, curr) && m < |curr|
    ensures Pending(calls, curr, id)
         == (if curr[m].callId == id then [curr[m]] else []) + Pending(calls, Advance(calls, curr, m), id)
  {
    hide From, Pending, AtInstance;
    var a, c, b := curr[..m], curr[m], curr[m + 1..];
    var next := Advance(calls, curr, m);
    AdvanceCurrent(calls, curr, m);
    InstanceOfCall(calls, c);
    assert curr == a + ([c] + b);
    var last := |calls[c.callId].iterations| - 1 == c.instance;
    var d := if last then c else CurrInst(c.callId, c.instance + 1, calls[c.callId].iterations[c.instance + 1]);
    if !last {
      assert next == a + ([d] + b);
    }
    if c.callId == id {
      PendingAt(calls, a, c, b);
      if last {
        forall i | 0 <= i < |next|
          ensures next[i].callId != id
        {
          assert next[i] == curr[if i < m then i else i + 1];
        }
        NothingPending(calls, next, id);
      } else {
        PendingAt(calls, a, d, b);
      }
    } else {
      PendingConcat(calls, a, [c] + b, id);
      PendingConcat(calls, [c], b, id);
      PendingOne(calls, c, id);
      if last {
        PendingConcat(calls, a, b, id);
      } else {
        PendingConcat(calls, a, [d] + b, id);
        PendingConcat(calls, [d], b, id);
        PendingOne(calls, d, id);
      }
    }
  }

  /** The visits of each call are its pending instances, each once and in order. */
  lemma {:induction false} VisitsEachOnce(calls: map<Symbol, Call>, curr: seq<CurrInst>, id: Symbol)
    requires Current(calls, curr)
    ensures InstancesOf(Visits(calls, curr), id) == Pending(calls, curr, id)
    decreases Remaining(calls, curr)
  {
    hide Current, Advance;
    if curr != [] {
      var m := MinimumIteration(curr, |curr|);
      AdvanceCurrent(calls, curr, m);
      AdvanceShrinks(calls, curr, m);
      RemainingPositive(calls, curr);
      RemainingPositive(calls, Advance(calls, curr, m));
      AdvancePending(calls, curr, m, id);
      VisitsEachOnce(calls, Advance(calls, curr, m), id);
      assert ([curr[m]] + Visits(calls, Advance(calls, curr, m)))[1..] == Visits(calls, Advance(calls, curr, m));
    }
  }

  /** All pending instances, call by call. */
  ghost function AllPending(calls: map<Symbol, Call>, curr: seq<CurrInst>): seq<CurrInst>
    requires forall i :: 0 <= i < |curr| ==> curr[i].callId in calls
  {
    if curr == [] then []
    else From(calls[curr[0].callId], curr[0].callId, curr[0].instance) + AllPending(calls, curr[1..])
  }

  /** All instances of a call, in order. */
  ghost function Instances(calls: map<Symbol, Call>, id: Symbol): seq<CurrInst> {
    if id !in calls then []
    else
      var iterations := calls[id].iterations;
      seq(|iterations|, k requires 0 <= k < |iterations| => CurrInst(id, k, iterations[k]))
  }

  /** All instances of all listed calls, call by call. */
  ghost function AllInstances(calls: map<Symbol, Call>, ids: seq<Symbol>): seq<CurrInst> {
    if ids == [] then [] else AllInstances(calls, ids[..|ids| - 1]) + Instances(calls, ids[|ids| - 1])
  }

  /** From the first one on, all instances are pending. */
  lemma {:induction false} FromIsRest(calls: map<Symbol, Call>, id: Symbol, k: nat)
    requires id in calls && k <= |calls[id].iterations|
    ensures From(calls[id], id, k) == Instances(calls, id)[k..]
    decreases |calls[id].iterations| - k
  {
    if k < |calls[id].iterations| {
      FromIsRest(calls, id, k + 1);
      assert Instances(calls, id)[k..] == [Instances(calls, id)[k]] + Instances(calls, id)[k + 1..];
    }
  }

  lemma AllFromFirst(calls: map<Symbol, Call>, id: Symbol)
    requires id in calls
    ensures From(calls[id], id, 0) == Instances(calls, id)
  {
    FromIsRest(calls, id, 0);
    assert Instances(calls, id)[0..] == Instances(calls, id);
  }

  lemma {:induction false} AllInstancesMember(calls: map<Symbol, Call>, ids: seq<Symbol>, c: CurrInst)
    ensures c in AllInstances(calls, ids) <==>
              && c.callId in ids && c.callId in calls && c.instance < |calls[c.callId].iterations|
              && c.iteration == calls[c.callId].iterations[c.instance]
  {
    if ids != [] {
      var front, id := ids[..|ids| - 1], ids[|ids| - 1];
      AllInstancesMember(calls, front, c);
      assert ids == front + [id];
      assert id in calls && c.callId == id && c.instance < |calls[id].iterations| && c.iteration == calls[id].iterations[c.instance]
        ==> Instances(calls, id)[c.instance] == c;
    }
  }

  // ---------- the cache of a sub-instruction ----------

  /** A range of dynamic instances of a sub-instruction, and the call instance that executed it. */
  datatype CacheEntry = CacheEntry(start: int, end: int, callId: Symbol, callInstance: nat)

  /** How often call instance `c` executes sub-instruction `s`. */
  function CountOf(calls: map<Symbol, Call>, c: CurrInst, s: Symbol): nat {
    if c.callId in calls && c.instance < |calls[c.callId].counts| then At(calls[c.callId].counts[c.instance], s) else 0
  }

  function Executed(calls: map<Symbol, Call>, v: seq<CurrInst>, s: Symbol): nat {
    if v == [] then 0 else Executed(calls, v[..|v| - 1], s) + CountOf(calls, v[|v| - 1], s)
  }

  /** The visits that execute `s`. */
  function Executing(calls: map<Symbol, Call>, v: seq<CurrInst>, s: Symbol): seq<CurrInst> {
    if v == [] then []
    else Executing(calls, v[..|v| - 1], s) + if CountOf(calls, v[|v| - 1], s) > 0 then [v[|v| - 1]] else []
  }

  function Entries(calls: map<Symbol, Call>, v: seq<CurrInst>, s: Symbol): seq<CacheEntry> {
    if v == [] then []
    else
      var c := v[|v| - 1];
      var running := Executed(calls, v[..|v| - 1], s);
      Entries(calls, v[..|v| - 1], s)
        + if CountOf(calls, c, s) > 0 then [CacheEntry(running, running + CountOf(calls, c, s) - 1, c.callId, c.instance)] else []
  }

  /** Non-empty ranges that follow each other from instance 0 up to `total`. */
  ghost predicate Covers(es: seq<CacheEntry>, total: int) {
    && (forall i :: 0 <= i < |es| ==> es[i].start <= es[i].end)
    && (es != [] ==> es[0].start == 0)
    && (forall i :: 0 < i < |es| ==> es[i].start == es[i - 1].end + 1)
    && total == (if es == [] then 0 else es[|es| - 1].end + 1)
  }

  /** Each entry stands for the visit at the same position. */
  ghost predicate StandFor(calls: map<Symbol, Call>, es: seq<CacheEntry>, v: seq<CurrInst>, s: Symbol) {
    |es| == |v| && forall i :: 0 <= i < |es| ==>
      es[i].callId == v[i].callId && es[i].callInstance == v[i].instance && es[i].end - es[i].start + 1 == CountOf(calls, v[i], s)
  }

  /** The cached ranges are contiguous and disjoint, cover all instances, and stand for the visits in order. */
  lemma {:induction false} EntriesCover(calls: map<Symbol, Call>, v: seq<CurrInst>, s: Symbol)
    ensures Covers(Entries(calls, v, s), Executed(calls, v, s))
    ensures StandFor(calls, Entries(calls, v, s), Executing(calls, v, s), s)
    ensures |Entries(calls, v, s)| == |Executing(calls, v, s)|
  {
    hide CountOf, Covers, StandFor;
    if v == [] {
      NothingCovered(calls, s);
    } else {
      var front, c := v[..|v| - 1], v[|v| - 1];
      EntriesCover(calls, front, s);
      var n := CountOf(calls, c, s);
      var es, running := Entries(calls, front, s), Executed(calls, front, s);
      if n > 0 {
        CoverMore(calls, es, running, Executing(calls, front, s), c, s);
      } else {
        assert es + [] == es && Executing(calls, front, s) + [] == Executing(calls, front, s);
      }
    }
    StandForLength(calls, Entries(calls, v, s), Executing(calls, v, s), s);
  }

  lemma StandForLength(calls: map<Symbol, Call>, es: seq<CacheEntry>, v: seq<CurrInst>, s: Symbol)
    requires StandFor(calls, es, v, s)
    ensures |es| == |v|
  {
  }

  lemma NothingCovered(calls: map<Symbol, Call>, s: Symbol)
    ensures Covers([], 0) && StandFor(calls, [], [], s)
  {
  }

  lemma CoverMore(calls: map<Symbol, Call>, es: seq<CacheEntry>, running: nat, v: seq<CurrInst>, c: CurrInst, s: Symbol)
    requires Covers(es, running) && StandFor(calls, es, v, s) && CountOf(calls, c, s) > 0
    ensures var next := es + [CacheEntry(running, running + CountOf(calls, c, s) - 1, c.callId, c.instance)];
            Covers(next, running + CountOf(calls, c, s)) && StandFor(calls, next, v + [c], s)
  {
    hide CountOf;
  }

  lemma {:induction false} ExecutingInOrder(calls: map<Symbol, Call>, v: seq<CurrInst>, s: Symbol, low: nat)
    requires InOrder(v, low)
    ensures InOrder(Executing(calls, v, s), low)
    ensures v != [] ==> forall i :: 0 <= i < |Executing(calls, v, s)| ==> Executing(calls, v, s)[i].iteration <= v[|v| - 1].iteration
  {
    hide CountOf, InOrder, Executing;
    ExecutingSnoc(calls, v, s);
    if v == [] {
      NoVisits(low);
    } else {
      var front, c := v[..|v| - 1], v[|v| - 1];
      InOrderFront(v, low);
      ExecutingSnoc(calls, front, s);
      ExecutingInOrder(calls, front, s, low);
      SnocInOrder(Executing(calls, front, s), c, low);
    }
  }

  lemma ExecutingSnoc(calls: map<Symbol, Call>, v: seq<CurrInst>, s: Symbol)
    ensures v == [] ==> Executing(calls, v, s) == []
    ensures v != [] ==> var ex := Executing(calls, v[..|v| - 1], s);
              Executing(calls, v, s) == if CountOf(calls, v[|v| - 1], s) > 0 then ex + [v[|v| - 1]] else ex
  {
    hide CountOf;
    if v != [] {
      assert Executing(calls, v[..|v| - 1], s) + [] == Executing(calls, v[..|v| - 1], s);
    }
  }

  /** The last of visits in order is no earlier than the others. */
  lemma InOrderFront(v: seq<CurrInst>, low: nat)
    requires v != [] && InOrder(v, low)
    ensures var front, c := v[..|v| - 1], v[|v| - 1];
            && InOrder(front, low) && low <= c.iteration
            && (front != [] ==> front[|front| - 1].iteration <= c.iteration)
  {
  }

  lemma SnocInOrder(v: seq<CurrInst>, c: CurrInst, low: nat)
    requires InOrder(v, low) && low <= c.iteration && forall i :: 0 <= i < |v| ==> v[i].iteration <= c.iteration
    ensures InOrder(v + [c], low)
  {
  }

  // ---------- the iteration of a sub-instruction instance ----------

  /** How often the instances in `v` that belong to iteration `n` execute `s`. */
  ghost function Tally(calls: map<Symbol, Call>, v: seq<CurrInst>, s: Symbol, n: int): nat {
    if v == [] then 0
    else Tally(calls, v[..|v| - 1], s, n) + if v[|v| - 1].iteration == n then CountOf(calls, v[|v| - 1], s) else 0
  }

  lemma {:induction false} TallyConcat(calls: map<Symbol, Call>, a: seq<CurrInst>, b: seq<CurrInst>, s: Symbol, n: int)
    ensures Tally(calls, a + b, s, n) == Tally(calls, a, s, n) + Tally(calls, b, s, n)
  {
    hide CountOf;
    if b == [] {
      assert a + b == a;
    } else {
      var k := |b| - 1;
      assert (a + b)[|a + b| - 1] == b[k] && (a + b)[..|a + b| - 1] == a + b[..k];
      TallyConcat(calls, a, b[..k], s, n);
    }
  }

  lemma {:induction false} AllPendingConcat(calls: map<Symbol, Call>, a: seq<CurrInst>, b: seq<CurrInst>)
    requires forall i :: 0 <= i < |a| ==> a[i].callId in calls
    requires forall i :: 0 <= i < |b| ==> b[i].callId in calls
    ensures AllPending(calls, a + b) == AllPending(calls, a) + AllPending(calls, b)
  {
    hide From;
    if a == [] {
      assert a + b == b;
    } else {
      assert (a + b)[0] == a[0] && (a + b)[1..] == a[1..] + b;
      AllPendingConcat(calls, a[1..], b);
    }
  }

  lemma AllPendingOne(calls: map<Symbol, Call>, c: CurrInst)
    requires c.callId in calls
    ensures AllPending(calls, [c]) == From(calls[c.callId], c.callId, c.instance)
  {
    assert [c][1..] == [];
  }

  lemma CurrentInCalls(calls: map<Symbol, Call>, curr: seq<CurrInst>)
    requires Current(calls, curr)
    ensures forall i :: 0 <= i < |curr| ==> curr[i].callId in calls
  {
  }

  /** A visit takes one of the pending instances. */
  lemma AdvanceTakes(calls: map<Symbol, Call>, curr: seq<CurrInst>, m: nat)
    requires Current(calls, curr) && m < |curr|
    ensures Current(calls, Advance(calls, curr, m))
    ensures forall i :: 0 <= i < |curr| ==> curr[i].callId in calls
    ensures forall i :: 0 <= i < |Advance(calls, curr, m)| ==> Advance(calls, curr, m)[i].callId in calls
    ensures multiset(AllPending(calls, curr)) == multiset{curr[m]} + multiset(AllPending(calls, Advance(calls, curr, m)))
  {
    hide From, AllPending, AtInstance;
    CurrentInCalls(calls, curr);
    AdvanceCurrent(calls, curr, m);
    CurrentInCalls(calls, Advance(calls, curr, m));
    var a, c, b := curr[..m], curr[m], curr[m + 1..];
    var next := Advance(calls, curr, m);
    InstanceOfCall(calls, c);
    assert curr == a + ([c] + b);
    AllPendingConcat(calls, a, [c] + b);
    AllPendingConcat(calls, [c], b);
    AllPendingOne(calls, c);
    if |calls[c.callId].iterations| - 1 == c.instance {
      AllPendingConcat(calls, a, b);
    } else {
      var d := CurrInst(c.callId, c.instance + 1, calls[c.callId].iterations[c.instance + 1]);
      assert next == a + ([d] + b);
      AllPendingConcat(calls, a, [d] + b);
      AllPendingConcat(calls, [d], b);
      AllPendingOne(calls, d);
    }
  }

  /** The visits are the pending instances of all calls, each once, in another order. */
  lemma {:induction false} VisitsPermute(calls: map<Symbol, Call>, curr: seq<CurrInst>)
    requires Current(calls, curr)
    ensures forall i :: 0 <= i < |curr| ==> curr[i].callId in calls
    ensures multiset(Visits(calls, curr)) == multiset(AllPending(calls, curr))
    decreases Remaining(calls, curr)
  {
    hide Current, Advance, AllPending;
    CurrentInCalls(calls, curr);
    if curr == [] {
      NoneToVisit(calls);
    } else {
      var m := MinimumIteration(curr, |curr|);
      AdvanceTakes(calls, curr, m);
      AdvanceShrinks(calls, curr, m);
      RemainingPositive(calls, curr);
      RemainingPositive(calls, Advance(calls, curr, m));
      VisitsPermute(calls, Advance(calls, curr, m));
    }
  }

  /** Instances tally alike in whatever order they come. */
  lemma {:induction false} TallyOfPermutation(calls: map<Symbol, Call>, a: seq<CurrInst>, b: seq<CurrInst>, s: Symbol, n: int)
    requires multiset(a) == multiset(b)
    ensures Tally(calls, a, s, n) == Tally(calls, b, s, n)
  {
    hide CountOf, Tally;
    if a == [] {
      EmptyByMultiset(b);
    } else {
      var front, x := a[..|a| - 1], a[|a| - 1];
      assert a == front + [x];
      assert x in multiset(a);
      var j := TakeOut(b, x);
      TallyOfPermutation(calls, front, b[..j] + b[j + 1..], s, n);
      TallyConcat(calls, front, [x], s, n);
      TallyConcat(calls, b[..j], [x] + b[j + 1..], s, n);
      TallyConcat(calls, [x], b[j + 1..], s, n);
      TallyConcat(calls, b[..j], b[j + 1..], s, n);
    }
  }

  /** The visits tally, iteration by iteration, as the instances of the calls do. */
  lemma VisitsTally(calls: map<Symbol, Call>, curr: seq<CurrInst>, s: Symbol, n: int)
    requires Current(calls, curr)
    ensures forall i :: 0 <= i < |curr| ==> curr[i].callId in calls
    ensures Tally(calls, Visits(calls, curr), s, n) == Tally(calls, AllPending(calls, curr), s, n)
  {
    hide Current, Tally, AllPending, Visits;
    VisitsPermute(calls, curr);
    TallyOfPermutation(calls, Visits(calls, curr), AllPending(calls, curr), s, n);
  }

  lemma NoneToVisit(calls: map<Symbol, Call>)
    ensures Visits(calls, []) == [] && AllPending(calls, []) == []
  {
  }

  ghost function Tallies(calls: map<Symbol, Call>, v: seq<CurrInst>, s: Symbol): int -> nat {
    n => Tally(calls, v, s, n)
  }

  lemma {:induction false} TallyBelow(calls: map<Symbol, Call>, v: seq<CurrInst>, s: Symbol, n: int)
    requires forall i :: 0 <= i < |v| ==> v[i].iteration >= n
    ensures Prefix(Tallies(calls, v, s), n) == 0
    decreases n
  {
    hide Tally;
    if n > 0 {
      TallyBelow(calls, v, s, n - 1);
      TallyAbsent(calls, v, s, n - 1);
    }
  }

  lemma {:induction false} TallyAbsent(calls: map<Symbol, Call>, v: seq<CurrInst>, s: Symbol, n: int)
    requires forall i :: 0 <= i < |v| ==> v[i].iteration != n
    ensures Tally(calls, v, s, n) == 0
  {
    hide CountOf;
    if v != [] {
      TallyAbsent(calls, v[..|v| - 1], s, n);
    }
  }

  lemma {:induction false} PrefixOfConcat(calls: map<Symbol, Call>, a: seq<CurrInst>, b: seq<CurrInst>, s: Symbol, n: int)
    ensures Prefix(Tallies(calls, a + b, s), n) == Prefix(Tallies(calls, a, s), n) + Prefix(Tallies(calls, b, s), n)
    decreases n
  {
    hide Tally;
    if n > 0 {
      PrefixOfConcat(calls, a, b, s, n - 1);
      TallyConcat(calls, a, b, s, n - 1);
    }
  }

  /** The instances up to iteration `n` are all of them when no later iteration occurs. */
  lemma {:induction false} PrefixOfAll(calls: map<Symbol, Call>, v: seq<CurrInst>, s: Symbol, n: int)
    requires forall i :: 0 <= i < |v| ==> v[i].iteration < n
    ensures Prefix(Tallies(calls, v, s), n) == Executed(calls, v, s)
  {
    hide Tally, Prefix, CountOf;
    if v == [] {
      TallyBelow(calls, v, s, n);
    } else {
      var k := |v| - 1;
      PrefixOfAll(calls, v[..k], s, n);
      assert v == v[..k] + [v[k]];
      PrefixOfConcat(calls, v[..k], [v[k]], s, n);
      PrefixOfOne(calls, v[k], s, n);
    }
  }

  lemma {:induction false} PrefixOfOne(calls: map<Symbol, Call>, c: CurrInst, s: Symbol, n: int)
    ensures Prefix(Tallies(calls, [c], s), n) == if c.iteration < n then CountOf(calls, c, s) else 0
    decreases n
  {
    hide CountOf;
    if n > 0 {
      PrefixOfOne(calls, c, s, n - 1);
      assert [c][..0] == [];
      assert Tally(calls, [c], s, n - 1) == if c.iteration == n - 1 then CountOf(calls, c, s) else 0;
    }
  }

  /**
   The k-th instance of a sub-instruction, looked up in the cache, belongs to the iteration of the
   call instance found there, in whatever order the calls of one iteration were visited.
   */
  lemma {:induction false} CacheLocates(calls: map<Symbol, Call>, v: seq<CurrInst>, s: Symbol, i: nat, k: int)
    requires InOrder(v, 0) && i < |Entries(calls, v, s)|
    requires Entries(calls, v, s)[i].start <= k <= Entries(calls, v, s)[i].end
    ensures i < |Executing(calls, v, s)|
    ensures Located(Tallies(calls, v, s), k, Executing(calls, v, s)[i].iteration)
  {
    hide Entries, Executing, Tally, CountOf, Executed, Tallies;
    var j := VisitOfEntry(calls, v, s, i);
    VisitLocates(calls, v, s, j, k);
  }

  lemma VisitLocates(calls: map<Symbol, Call>, v: seq<CurrInst>, s: Symbol, j: nat, k: int)
    requires InOrder(v, 0) && j < |v|
    requires Executed(calls, v[..j], s) <= k < Executed(calls, v[..j + 1], s)
    ensures Located(Tallies(calls, v, s), k, v[j].iteration)
  {
    hide Executed, Tallies, Prefix;
    var n := v[j].iteration;
    var a, b := v[..j], v[j..];
    assert v == a + b;
    PrefixOfConcat(calls, a, b, s, n);
    TallyBelow(calls, b, s, n);
    PrefixOfAll(calls, a, s, n + 1);
    PrefixMonotone(Tallies(calls, a, s), n, n + 1);
    var front, rest := v[..j + 1], v[j + 1..];
    assert v == front + rest;
    PrefixOfConcat(calls, front, rest, s, n + 1);
    PrefixOfAll(calls, front, s, n + 1);
  }

  /** The visit behind an entry; the instances before the entry are those of the visits before it. */
  lemma {:induction false} VisitOfEntry(calls: map<Symbol, Call>, v: seq<CurrInst>, s: Symbol, i: nat) returns (j: nat)
    requires i < |Entries(calls, v, s)|
    ensures j < |v| && i < |Executing(calls, v, s)| && Executing(calls, v, s)[i] == v[j]
    ensures Entries(calls, v, s)[i].start == Executed(calls, v[..j], s)
    ensures Entries(calls, v, s)[i].end + 1 == Executed(calls, v[..j + 1], s)
  {
    hide CountOf;
    EntriesCover(calls, v, s);
    var k := |v| - 1;
    if i < |Entries(calls, v[..k], s)| {
      j := VisitOfEntry(calls, v[..k], s, i);
      assert v[..k][..j] == v[..j] && v[..k][..j + 1] == v[..j + 1];
    } else {
      j := k;
      EntriesCover(calls, v[..k], s);
      assert v[..k + 1] == v;
    }
  }
}

/** The calls made by one loop invocation, and the cache from sub-instruction instances to call instances. */
module CallTraces {
  import opened Sequences
  import opened CompressionPatterns
  import opened RepetitionPatterns
  import opened IterationGroups
  import opened InstanceTables
  import opened InvocationGroups
  import opened CallTraceMerging
  import InstanceCounts

  /** The recorded instances of a call, grouped by control flow, with their lookup tables. */
  datatype CallTraceCall = CallTraceCall(callInstances: seq<Group>, lut: seq<Entry<nat>>, numInstancesLuts: seq<map<Symbol, nat>>) {

    ghost predicate Built() {
      && WellGrouped(callInstances)
      && lut == IterationTable(callInstances)
      && |numInstancesLuts| == |callInstances|
      && (forall i :: 0 <= i < |callInstances| ==>
           && AllWellFormed(callInstances[i].controlFlow)
           && numInstancesLuts[i] == InstancesMapAll(callInstances[i].controlFlow))
    }

    /** The per-sub-instruction counts of call instance `k`, found through the table. */
    function CountsAt(k: nat): map<Symbol, nat>
      requires exists i :: 0 <= i < |lut| && lut[i].last >= k
      requires forall i :: 0 <= i < |lut| ==> lut[i].data < |numInstancesLuts|
    {
      numInstancesLuts[LookupData(lut, k)]
    }
  }

  /** Gives the last instance of group `maxExisting`, in a group of its own, the rest of its control flow. */
  method ExtendLastInstance(callInstances: seq<Group>, maxExisting: nat, flow: seq<Pattern>) returns (r: seq<Group>)
    requires maxExisting < |callInstances| && EndsInRange(callInstances[maxExisting].repetitions)
    ensures r == ExtendLast(callInstances, maxExisting, flow)
  {
    var existing, workingOn := callInstances[maxExisting], maxExisting;
    r := callInstances;
    if !IsSingleton(existing.repetitions) {
      var last := Last(existing.repetitions);
      r := r[maxExisting := Group(RemoveLast(existing.repetitions), existing.controlFlow)];
      r := r + [Group([Range(last, last)], existing.controlFlow)];
      workingOn := |r| - 1;
    }
    ghost var before, working := r, r[workingOn];
    assert working.controlFlow + flow[..0] == working.controlFlow;
    for i := 0 to |flow|
      invariant r == before[workingOn := Group(working.repetitions, working.controlFlow + flow[..i])]
    {
      var g := r[workingOn];
      r := r[workingOn := Group(g.repetitions, g.controlFlow + [flow[i]])];
      assert working.controlFlow + flow[..i + 1] == (working.controlFlow + flow[..i]) + [flow[i]];
    }
    assert flow[..|flow|] == flow;
  }

  /** Copies the groups of `c`, without the instance that was merged already. */
  method CopyRemaining(callInstances: seq<Group>, c: seq<Group>, copiedMinNew: bool, minNew: nat) returns (r: seq<Group>)
    requires copiedMinNew ==> minNew < |c| && c[minNew].repetitions != []
    ensures r == callInstances + if copiedMinNew then WithoutFirst(c, minNew) else c
  {
    hide RemoveFirst, IsSingleton;
    r := callInstances;
    ghost var kept := if copiedMinNew then WithoutFirst(c, minNew) else c;
    ghost var copied := 0;
    for i := 0 to |c|
      invariant copied == if copiedMinNew && minNew < i && IsSingleton(c[minNew].repetitions) then i - 1 else i
      invariant copied <= |kept| && r == callInstances + kept[..copied]
    {
      if copiedMinNew && i == minNew {
        if !IsSingleton(c[i].repetitions) {
          r := r + [Group(RemoveFirst(c[i].repetitions), c[i].controlFlow)];
          copied := copied + 1;
        }
      } else {
        r := r + [c[i]];
        copied := copied + 1;
      }
    }
    assert kept[..copied] == kept;
  }

  /** Merging dumped segments of the calls: at most their boundary instance is in both. */
  method AddCallTraceCall(callInstances: seq<Group>, c: seq<Group>) returns (r: seq<Group>)
    requires AllProper(callInstances) && AllProper(c)
    ensures r == Merge(callInstances, c)
  {
    hide ExtendLast, WithoutFirst, AllProper;
    r := callInstances;
    var copiedMinNew, minNew := false, 0;
    if callInstances != [] && c != [] {
      var maxExisting := LatestGroup(callInstances, |callInstances|);
      minNew := EarliestGroup(c, |c|);
      if Last(callInstances[maxExisting].repetitions) == First(c[minNew].repetitions) {
        r := ExtendLastInstance(r, maxExisting, c[minNew].controlFlow);
        copiedMinNew := true;
      }
    }
    r := CopyRemaining(r, c, copiedMinNew, minNew);
  }

  method BuildLut(callInstances: seq<Group>) returns (call: CallTraceCall)
    requires WellGrouped(callInstances)
    requires forall i :: 0 <= i < |callInstances| ==> AllWellFormed(callInstances[i].controlFlow)
    ensures call.callInstances == callInstances && call.Built()
  {
    hide WellGrouped, AllWellFormed, InstancesMapAll;
    var lutInput: seq<(RepetitionPattern, nat)> := [];
    for i := 0 to |callInstances|
      invariant lutInput == LutInput(callInstances)[..i]
    {
      lutInput := lutInput + [(callInstances[i].repetitions, i)];
    }
    assert LutInput(callInstances)[..|callInstances|] == LutInput(callInstances);
    var lut := RepetitionPatterns.BuildLut([], lutInput);
    assert [] + Table(lutInput) == Table(lutInput);
    var luts := [];
    for i := 0 to |callInstances|
      invariant |luts| == i && forall j :: 0 <= j < i ==> luts[j] == InstancesMapAll(callInstances[j].controlFlow)
    {
      var m := BuildNumberOfInstancesLut(callInstances[i].controlFlow);
      luts := luts + [m];
    }
    call := CallTraceCall(callInstances, lut, luts);
  }

  /** Call instance `k` has the counts of its own control flow. */
  lemma CountsAtExact(call: CallTraceCall, k: nat)
    requires call.Built() && Recorded(call.callInstances, k)
    ensures exists i :: 0 <= i < |call.lut| && call.lut[i].last >= k
    ensures forall i :: 0 <= i < |call.lut| ==> call.lut[i].data < |call.numInstancesLuts|
    ensures forall s :: At(call.CountsAt(k), s) == InstanceCounts.Counts(call.callInstances, s)(k)
    ensures forall s <- call.CountsAt(k).Keys :: call.CountsAt(k)[s] > 0
  {
    hide ControlFlowAt, Has, WellGrouped, AllWellFormed, InstancesMapAll, IterationTable;
    IterationTableExact(call.callInstances);
    var i :| 0 <= i < |call.lut| && Contains(call.lut[i], k);
    assert Holds(call.lut, k, call.lut[i].data);
    LookupFinds(call.lut, k, call.lut[i].data);
    var g := call.lut[i].data;
    forall s
      ensures At(call.CountsAt(k), s) == InstanceCounts.Counts(call.callInstances, s)(k)
    {
      RowCounts(call.callInstances, k, s);
    }
    forall s <- call.CountsAt(k).Keys
      ensures call.CountsAt(k)[s] > 0
    {
      InstancesMapPositive(call.callInstances[g].controlFlow, s);
    }
  }

  // ---------- the calls as streams of instances ----------

  ghost predicate LookupsDefined(call: CallTraceCall, n: nat) {
    call.Built() && forall k: nat :: k < n ==> Recorded(call.callInstances, k)
  }

  /** The call was recorded and the loop executes it. */
  ghost predicate Active(calls: map<Symbol, CallTraceCall>, invGroup: InvocationGroupCfc, id: Symbol)
    requires invGroup.Precomputed()
    reads invGroup
  {
    id in calls && calls[id].callInstances != [] && invGroup.ContainsInstruction(id)
  }

  /** `c` lists the iteration and the sub-instruction counts of every instance of call `id`. */
  ghost predicate Streams(c: Call, call: CallTraceCall, invGroup: InvocationGroupCfc, id: Symbol)
    requires invGroup.Precomputed() && LookupsDefined(call, invGroup.GetNumInstances(id))
    reads invGroup
  {
    && CallOk(c) && |c.iterations| == invGroup.GetNumInstances(id)
    && (forall k :: 0 <= k < |c.iterations| ==> c.iterations[k] == invGroup.GetIterationNumber(id, k))
    && (forall k :: 0 <= k < |c.counts| ==> CountsAre(c.counts[k], call, k))
  }

  ghost predicate CountsAre(counts: map<Symbol, nat>, call: CallTraceCall, k: nat)
    requires call.Built() && Recorded(call.callInstances, k)
  {
    CountsAtExact(call, k);
    counts == call.CountsAt(k)
  }

  ghost predicate StreamsOf(view: map<Symbol, Call>, calls: map<Symbol, CallTraceCall>, invGroup: InvocationGroupCfc, ids: seq<Symbol>)
    requires invGroup.Precomputed()
    requires forall id <- ids :: Active(calls, invGroup, id) ==> LookupsDefined(calls[id], invGroup.GetNumInstances(id))
    reads invGroup
  {
    && (forall id :: id in view <==> id in ids && Active(calls, invGroup, id))
    && (forall id <- view.Keys :: Streams(view[id], calls[id], invGroup, id))
  }

  lemma CallStream(call: CallTraceCall, invGroup: InvocationGroupCfc, id: Symbol) returns (c: Call)
    requires invGroup.Precomputed() && LookupsDefined(call, invGroup.GetNumInstances(id))
    ensures Streams(c, call, invGroup, id)
  {
    hide InvocationGroupCfc.Precomputed, InvocationGroupCfc.GetNumInstances, InvocationGroupCfc.GetIterationNumber, CallTraceCall.Built,
      Recorded, CountsAre;
    var n := invGroup.GetNumInstances(id);
    c := Call([], []);
    for k := 0 to n
      invariant |c.iterations| == |c.counts| == k
      invariant forall j :: 0 <= j < k ==> c.iterations[j] == invGroup.GetIterationNumber(id, j)
      invariant forall j :: 0 <= j < k ==> CountsAre(c.counts[j], call, j)
    {
      CountsAtExact(call, k);
      CountsAreIntro(call, k);
      c := Call(c.iterations + [invGroup.GetIterationNumber(id, k)], c.counts + [call.CountsAt(k)]);
    }
    forall i, j | 0 <= i < j < n
      ensures c.iterations[i] <= c.iterations[j]
    {
      invGroup.IterationsGrow(id, i, j);
    }
  }

  lemma CountsAreIntro(call: CallTraceCall, k: nat)
    requires call.Built() && Recorded(call.callInstances, k)
    ensures exists i :: 0 <= i < |call.lut| && call.lut[i].last >= k
    ensures forall i :: 0 <= i < |call.lut| ==> call.lut[i].data < |call.numInstancesLuts|
    ensures CountsAre(call.CountsAt(k), call, k)
  {
    CountsAtExact(call, k);
  }

  lemma AllStreams(calls: map<Symbol, CallTraceCall>, invGroup: InvocationGroupCfc, ids: seq<Symbol>) returns (view: map<Symbol, Call>)
    requires invGroup.Precomputed()
    requires forall id <- ids :: Active(calls, invGroup, id) ==> LookupsDefined(calls[id], invGroup.GetNumInstances(id))
    ensures StreamsOf(view, calls, invGroup, ids)
  {
    hide Streams, Active, LookupsDefined, InvocationGroupCfc.Precomputed, InvocationGroupCfc.GetNumInstances;
    view := map[];
    for i := 0 to |ids|
      invariant forall id :: id in view <==> id in ids[..i] && Active(calls, invGroup, id)
      invariant forall id <- view.Keys :: id in ids && Active(calls, invGroup, id) && id in calls && Streams(view[id], calls[id], invGroup, id)
    {
      var id := ids[i];
      assert ids[..i + 1] == ids[..i] + [id];
      if Active(calls, invGroup, id) {
        ActiveInCalls(calls, invGroup, id);
        var c := CallStream(calls[id], invGroup, id);
        view := view[id := c];
      }
    }
    assert ids[..|ids|] == ids;
  }

  lemma ActiveInCalls(calls: map<Symbol, CallTraceCall>, invGroup: InvocationGroupCfc, id: Symbol)
    requires invGroup.Precomputed() && Active(calls, invGroup, id)
    ensures id in calls
  {
  }

  // ---------- building the cache ----------

  function CachedFor(cache: map<Symbol, seq<CacheEntry>>, s: Symbol): seq<CacheEntry> {
    if s in cache then cache[s] else []
  }

  /** The cache and the running counts are those of the visits so far. */
  ghost predicate CacheIs(cache: map<Symbol, seq<CacheEntry>>, running: map<Symbol, nat>, view: map<Symbol, Call>, v: seq<CurrInst>) {
    forall s :: CachedFor(cache, s) == Entries(view, v, s) && At(running, s) == Executed(view, v, s)
  }

  /** What visiting a call instance adds for the sub-instructions in `done`. */
  ghost predicate EntryAdded(cache: map<Symbol, seq<CacheEntry>>, running: map<Symbol, nat>,
      nextCache: map<Symbol, seq<CacheEntry>>, nextRunning: map<Symbol, nat>,
      callId: Symbol, callInstance: nat, counts: map<Symbol, nat>, done: set<Symbol>)
  {
    forall s ::
      && At(nextRunning, s) == At(running, s) + (if s in done then At(counts, s) else 0)
      && CachedFor(nextCache, s) == CachedFor(cache, s)
           + if s in done then [CacheEntry(At(running, s), At(running, s) + At(counts, s) - 1, callId, callInstance)] else []
  }

  /** The entry of one sub-instruction, behind its instances counted so far. */
  method AddEntry(callId: Symbol, callInstance: nat, counts: map<Symbol, nat>, s: Symbol,
      cache: map<Symbol, seq<CacheEntry>>, running: map<Symbol, nat>, ghost firstCache: map<Symbol, seq<CacheEntry>>,
      ghost firstRunning: map<Symbol, nat>, ghost done: set<Symbol>)
      returns (nextCache: map<Symbol, seq<CacheEntry>>, nextRunning: map<Symbol, nat>)
    requires NonEmpty(cache) && s in counts && s !in done
    requires EntryAdded(firstCache, firstRunning, cache, running, callId, callInstance, counts, done)
    ensures NonEmpty(nextCache)
    ensures EntryAdded(firstCache, firstRunning, nextCache, nextRunning, callId, callInstance, counts, done + {s})
  {
    hide EntryAdded, NonEmpty, CachedFor, At;
    var first, next: int := At(running, s), At(running, s) + counts[s];
    nextCache := cache[s := CachedFor(cache, s) + [CacheEntry(first, next - 1, callId, callInstance)]];
    nextRunning := running[s := next];
    NonEmptyAfter(cache, s, CacheEntry(first, next - 1, callId, callInstance));
    AddOne(firstCache, firstRunning, cache, running, nextCache, nextRunning, callId, callInstance, counts, done, s);
  }

  /** One entry for each sub-instruction of the call instance, behind the instances counted so far. */
  method AddToCallTraceCache(callId: Symbol, callInstance: nat, counts: map<Symbol, nat>,
      cache: map<Symbol, seq<CacheEntry>>, running: map<Symbol, nat>)
      returns (nextCache: map<Symbol, seq<CacheEntry>>, nextRunning: map<Symbol, nat>)
    requires NonEmpty(cache)
    ensures EntryAdded(cache, running, nextCache, nextRunning, callId, callInstance, counts, counts.Keys)
    ensures NonEmpty(nextCache)
  {
    hide EntryAdded, NonEmpty;
    nextCache, nextRunning := cache, running;
    var keys := counts.Keys;
    ghost var done: set<Symbol> := {};
    NothingAdded(cache, running, callId, callInstance, counts);
    while keys != {}
      invariant keys + done == counts.Keys && keys * done == {}
      invariant EntryAdded(cache, running, nextCache, nextRunning, callId, callInstance, counts, done)
      invariant NonEmpty(nextCache)
      decreases |keys|
    {
      var s :| s in keys;
      nextCache, nextRunning := AddEntry(callId, callInstance, counts, s, nextCache, nextRunning, cache, running, done);
      keys, done := keys - {s}, done + {s};
    }
    assert done == counts.Keys;
  }

  lemma NonEmptyAfter(cache: map<Symbol, seq<CacheEntry>>, s: Symbol, e: CacheEntry)
    requires NonEmpty(cache)
    ensures NonEmpty(cache[s := CachedFor(cache, s) + [e]])
  {
  }

  lemma NothingAdded(cache: map<Symbol, seq<CacheEntry>>, running: map<Symbol, nat>, callId: Symbol, callInstance: nat, counts: map<Symbol, nat>)
    ensures EntryAdded(cache, running, cache, running, callId, callInstance, counts, {})
  {
  }

  lemma AddOne(cache: map<Symbol, seq<CacheEntry>>, running: map<Symbol, nat>,
      beforeCache: map<Symbol, seq<CacheEntry>>, beforeRunning: map<Symbol, nat>,
      nextCache: map<Symbol, seq<CacheEntry>>, nextRunning: map<Symbol, nat>,
      callId: Symbol, callInstance: nat, counts: map<Symbol, nat>, done: set<Symbol>, s: Symbol)
    requires EntryAdded(cache, running, beforeCache, beforeRunning, callId, callInstance, counts, done)
    requires s in counts && s !in done
    requires nextRunning == beforeRunning[s := At(beforeRunning, s) + counts[s]]
    requires nextCache == beforeCache[s := CachedFor(beforeCache, s)
               + [CacheEntry(At(beforeRunning, s), At(beforeRunning, s) + counts[s] - 1, callId, callInstance)]]
    ensures EntryAdded(cache, running, nextCache, nextRunning, callId, callInstance, counts, done + {s})
  {
    hide EntryAdded;
    forall r
      ensures At(nextRunning, r) == if r == s then At(beforeRunning, s) + counts[s] else At(beforeRunning, r)
      ensures r != s ==> CachedFor(nextCache, r) == CachedFor(beforeCache, r)
    {
    }
    hide At, CachedFor;
    CountedOnce(counts, s);
    AddedBoth(cache, running, beforeCache, beforeRunning, nextCache, nextRunning, callId, callInstance, counts, done, s);
  }

  lemma CountedOnce(counts: map<Symbol, nat>, s: Symbol)
    requires s in counts
    ensures At(counts, s) == counts[s]
  {
  }

  lemma AddedBoth(cache: map<Symbol, seq<CacheEntry>>, running: map<Symbol, nat>,
      beforeCache: map<Symbol, seq<CacheEntry>>, beforeRunning: map<Symbol, nat>,
      nextCache: map<Symbol, seq<CacheEntry>>, nextRunning: map<Symbol, nat>,
      callId: Symbol, callInstance: nat, counts: map<Symbol, nat>, done: set<Symbol>, s: Symbol)
    requires EntryAdded(cache, running, beforeCache, beforeRunning, callId, callInstance, counts, done) && s !in done
    requires forall r :: At(nextRunning, r) == At(beforeRunning, r) + if r == s then At(counts, s) else 0
    requires forall r :: r != s ==> CachedFor(nextCache, r) == CachedFor(beforeCache, r)
    requires CachedFor(nextCache, s) == CachedFor(beforeCache, s)
               + [CacheEntry(At(beforeRunning, s), At(beforeRunning, s) + At(counts, s) - 1, callId, callInstance)]
    ensures EntryAdded(cache, running, nextCache, nextRunning, callId, callInstance, counts, done + {s})
  {
    hide At, CachedFor;
    forall r
      ensures At(nextRunning, r) == At(running, r) + (if r in done + {s} then At(counts, r) else 0)
      ensures CachedFor(nextCache, r) == CachedFor(cache, r)
           + if r in done + {s} then [CacheEntry(At(running, r), At(running, r) + At(counts, r) - 1, callId, callInstance)] else []
    {
      assert CachedFor(cache, s) + [] == CachedFor(cache, s);
    }
  }

  /** A visit extends the cache by the entries of its call instance. */
  lemma VisitAdds(cache: map<Symbol, seq<CacheEntry>>, running: map<Symbol, nat>,
      nextCache: map<Symbol, seq<CacheEntry>>, nextRunning: map<Symbol, nat>,
      view: map<Symbol, Call>, v: seq<CurrInst>, c: CurrInst)
    requires CacheIs(cache, running, view, v) && AtInstance(view, c)
    requires var counts := view[c.callId].counts[c.instance];
             && (forall s <- counts.Keys :: counts[s] > 0)
             && EntryAdded(cache, running, nextCache, nextRunning, c.callId, c.instance, counts, counts.Keys)
    ensures CacheIs(nextCache, nextRunning, view, v + [c])
  {
    hide Entries, Executed, CountOf, EntryAdded;
    var counts := view[c.callId].counts[c.instance];
    forall s
      ensures CachedFor(nextCache, s) == Entries(view, v + [c], s)
      ensures At(nextRunning, s) == Executed(view, v + [c], s)
    {
      VisitSnoc(view, v, c, s);
      AddedFor(cache, running, nextCache, nextRunning, c.callId, c.instance, counts, s);
      assert s in counts <==> At(counts, s) > 0;
    }
  }

  lemma AddedFor(cache: map<Symbol, seq<CacheEntry>>, running: map<Symbol, nat>,
      nextCache: map<Symbol, seq<CacheEntry>>, nextRunning: map<Symbol, nat>,
      callId: Symbol, callInstance: nat, counts: map<Symbol, nat>, s: Symbol)
    requires EntryAdded(cache, running, nextCache, nextRunning, callId, callInstance, counts, counts.Keys)
    ensures At(nextRunning, s) == At(running, s) + At(counts, s)
    ensures CachedFor(nextCache, s) == CachedFor(cache, s)
         + if s in counts then [CacheEntry(At(running, s), At(running, s) + At(counts, s) - 1, callId, callInstance)] else []
  {
  }

  lemma VisitSnoc(view: map<Symbol, Call>, v: seq<CurrInst>, c: CurrInst, s: Symbol)
    requires AtInstance(view, c)
    ensures var n := At(view[c.callId].counts[c.instance], s);
            var running := Executed(view, v, s);
            && Executed(view, v + [c], s) == running + n
            && Entries(view, v + [c], s)
            == Entries(view, v, s) + if n > 0 then [CacheEntry(running, running + n - 1, c.callId, c.instance)] else []
  {
    assert (v + [c])[..|v + [c]| - 1] == v;
  }

  /** The first instance of every call, in the order of the list of calls. */
  ghost function Initial(view: map<Symbol, Call>, ids: seq<Symbol>): seq<CurrInst> {
    if ids == [] then []
    else
      var id := ids[|ids| - 1];
      Initial(view, ids[..|ids| - 1])
        + if id in view && view[id].iterations != [] then [CurrInst(id, 0, view[id].iterations[0])] else []
  }

  lemma {:induction false} InitialCurrent(view: map<Symbol, Call>, ids: seq<Symbol>)
    requires Distinct(ids) && forall id <- view.Keys :: CallOk(view[id])
    ensures Current(view, Initial(view, ids))
    ensures forall i :: 0 <= i < |Initial(view, ids)| ==> Initial(view, ids)[i].callId in ids
  {
    hide CallOk;
    if ids != [] {
      var front, id := ids[..|ids| - 1], ids[|ids| - 1];
      InitialCurrent(view, front);
      assert id !in front;
      forall i | 0 <= i < |Initial(view, front)|
        ensures Initial(view, front)[i].callId != id
      {
        assert Initial(view, front)[i].callId in front;
      }
    }
  }

  /** At the start, all instances of all listed calls are pending. */
  lemma {:induction false} InitialPending(view: map<Symbol, Call>, ids: seq<Symbol>)
    requires Distinct(ids) && forall id <- view.Keys :: CallOk(view[id])
    ensures forall i :: 0 <= i < |Initial(view, ids)| ==> Initial(view, ids)[i].callId in view
    ensures AllPending(view, Initial(view, ids)) == AllInstances(view, ids)
  {
    hide CallOk, From, AllPending, Instances;
    InitialCurrent(view, ids);
    CurrentInCalls(view, Initial(view, ids));
    if ids == [] {
      NoneToVisit(view);
    } else {
      var front, id := ids[..|ids| - 1], ids[|ids| - 1];
      InitialPending(view, front);
      InstancesLength(view, id);
      if id in view && view[id].iterations != [] {
        var c := CurrInst(id, 0, view[id].iterations[0]);
        AllPendingConcat(view, Initial(view, front), [c]);
        AllPendingOne(view, c);
        AllFromFirst(view, id);
      } else {
        assert Initial(view, ids) == Initial(view, front);
      }
    }
  }

  lemma InstancesLength(view: map<Symbol, Call>, id: Symbol)
    ensures |Instances(view, id)| == if id in view then |view[id].iterations| else 0
  {
  }

  /** And of each listed call all its instances. */
  lemma {:induction false} InitialPendingOf(view: map<Symbol, Call>, ids: seq<Symbol>, id: Symbol)
    requires Distinct(ids)
    ensures Pending(view, Initial(view, ids), id) == if id in ids then Instances(view, id) else []
  {
    hide From, Pending, Instances;
    if ids == [] {
      NothingPending(view, [], id);
    } else {
      var front, last := ids[..|ids| - 1], ids[|ids| - 1];
      assert ids == front + [last];
      InitialPendingOf(view, front, id);
      InstancesLength(view, last);
      if last in view && view[last].iterations != [] {
        var c := CurrInst(last, 0, view[last].iterations[0]);
        PendingConcat(view, Initial(view, front), [c], id);
        PendingOne(view, c, id);
        AllFromFirst(view, last);
      } else {
        assert Initial(view, ids) == Initial(view, front);
      }
    }
  }

  /** How often `s` is executed in iteration `n`, over all instances of all listed calls. */
  ghost function SubCounts(view: map<Symbol, Call>, ids: seq<Symbol>, s: Symbol): int -> nat {
    Tallies(view, AllInstances(view, ids), s)
  }

  /** How often the first `n` instances of a call execute `s`. */
  ghost function CallTotal(c: Call, s: Symbol, n: nat): nat
    requires n <= |c.counts|
  {
    if n == 0 then 0 else CallTotal(c, s, n - 1) + At(c.counts[n - 1], s)
  }

  /** How often all instances of all listed calls execute `s`. */
  ghost function GroupTotal(view: map<Symbol, Call>, ids: seq<Symbol>, s: Symbol): nat {
    if ids == [] then 0
    else
      var id := ids[|ids| - 1];
      GroupTotal(view, ids[..|ids| - 1], s) + if id in view then CallTotal(view[id], s, |view[id].counts|) else 0
  }

  lemma {:induction false} ExecutedConcat(calls: map<Symbol, Call>, a: seq<CurrInst>, b: seq<CurrInst>, s: Symbol)
    ensures Executed(calls, a + b, s) == Executed(calls, a, s) + Executed(calls, b, s)
  {
    hide CountOf;
    if b == [] {
      assert a + b == a;
    } else {
      var k := |b| - 1;
      assert (a + b)[|a + b| - 1] == b[k] && (a + b)[..|a + b| - 1] == a + b[..k];
      ExecutedConcat(calls, a, b[..k], s);
    }
  }

  lemma {:induction false} ExecutedOfPermutation(calls: map<Symbol, Call>, a: seq<CurrInst>, b: seq<CurrInst>, s: Symbol)
    requires multiset(a) == multiset(b)
    ensures Executed(calls, a, s) == Executed(calls, b, s)
  {
    hide CountOf, Executed;
    if a == [] {
      EmptyByMultiset(b);
    } else {
      var front, x := a[..|a| - 1], a[|a| - 1];
      assert a == front + [x];
      assert x in multiset(a);
      var j := TakeOut(b, x);
      ExecutedOfPermutation(calls, front, b[..j] + b[j + 1..], s);
      ExecutedConcat(calls, front, [x], s);
      ExecutedConcat(calls, b[..j], [x] + b[j + 1..], s);
      ExecutedConcat(calls, [x], b[j + 1..], s);
      ExecutedConcat(calls, b[..j], b[j + 1..], s);
    }
  }

  lemma {:induction false} ExecutedInCall(view: map<Symbol, Call>, id: Symbol, s: Symbol, n: nat)
    requires id in view && CallOk(view[id]) && n <= |view[id].counts|
    ensures Executed(view, Instances(view, id)[..n], s) == CallTotal(view[id], s, n)
  {
    if n > 0 {
      ExecutedInCall(view, id, s, n - 1);
      assert Instances(view, id)[..n][..n - 1] == Instances(view, id)[..n - 1];
    }
  }

  lemma {:induction false} ExecutedInAll(view: map<Symbol, Call>, ids: seq<Symbol>, s: Symbol)
    requires forall id <- view.Keys :: CallOk(view[id])
    ensures Executed(view, AllInstances(view, ids), s) == GroupTotal(view, ids, s)
  {
    hide CountOf, Executed, Instances;
    if ids == [] {
      NothingExecuted(view, s);
    } else {
      var front, id := ids[..|ids| - 1], ids[|ids| - 1];
      ExecutedInAll(view, front, s);
      ExecutedConcat(view, AllInstances(view, front), Instances(view, id), s);
      InstancesLength(view, id);
      if id in view {
        ExecutedInCall(view, id, s, |view[id].counts|);
        assert Instances(view, id)[..|view[id].counts|] == Instances(view, id);
      } else {
        NothingExecuted(view, s);
      }
    }
  }

  lemma NothingExecuted(view: map<Symbol, Call>, s: Symbol)
    ensures Executed(view, [], s) == 0
  {
  }

  /** The visits execute `s` as often as all instances of all listed calls do. */
  lemma VisitsExecuteAll(view: map<Symbol, Call>, ids: seq<Symbol>, s: Symbol)
    requires Distinct(ids) && forall id <- view.Keys :: CallOk(view[id])
    ensures Current(view, Initial(view, ids))
    ensures Executed(view, Visits(view, Initial(view, ids)), s) == GroupTotal(view, ids, s)
  {
    hide CallOk, Visits, Initial, AllPending, Executed, AllInstances, Current;
    InitialCurrent(view, ids);
    InitialPending(view, ids);
    VisitsPermute(view, Initial(view, ids));
    ExecutedOfPermutation(view, Visits(view, Initial(view, ids)), AllInstances(view, ids), s);
    ExecutedInAll(view, ids, s);
  }

  /** The cache of a sub-instruction after all visits. */
  ghost predicate CacheExact(es: seq<CacheEntry>, view: map<Symbol, Call>, ids: seq<Symbol>, s: Symbol)
    requires Distinct(ids) && forall id <- view.Keys :: CallOk(view[id])
  {
    InitialCurrent(view, ids);
    es == Entries(view, Visits(view, Initial(view, ids)), s)
  }

  /** The iteration of the call instance of an entry. */
  ghost function IterationOf(view: map<Symbol, Call>, e: CacheEntry): nat
    requires e.callId in view && e.callInstance < |view[e.callId].iterations|
  {
    view[e.callId].iterations[e.callInstance]
  }

  lemma {:induction false} VisitsAtInstances(view: map<Symbol, Call>, curr: seq<CurrInst>)
    requires Current(view, curr)
    ensures forall i :: 0 <= i < |Visits(view, curr)| ==> AtInstance(view, Visits(view, curr)[i])
    decreases Remaining(view, curr)
  {
    hide AtInstance, Advance;
    if curr != [] {
      var m := MinimumIteration(curr, |curr|);
      AdvanceCurrent(view, curr, m);
      AdvanceShrinks(view, curr, m);
      RemainingPositive(view, curr);
      RemainingPositive(view, Advance(view, curr, m));
      VisitsAtInstances(view, Advance(view, curr, m));
      assert AtInstance(view, curr[m]);
    }
  }

  lemma {:induction false} ExecutingAreVisits(view: map<Symbol, Call>, v: seq<CurrInst>, s: Symbol)
    requires forall i :: 0 <= i < |v| ==> AtInstance(view, v[i])
    ensures forall i :: 0 <= i < |Executing(view, v, s)| ==> AtInstance(view, Executing(view, v, s)[i])
  {
    hide AtInstance, CountOf;
    if v != [] {
      ExecutingAreVisits(view, v[..|v| - 1], s);
    }
  }

  /** An entry names a call instance that executes `s` as often as the entry is long, in the visit order. */
  lemma CacheEntryExact(es: seq<CacheEntry>, view: map<Symbol, Call>, ids: seq<Symbol>, s: Symbol, i: nat)
    requires Distinct(ids) && forall id <- view.Keys :: CallOk(view[id])
    requires CacheExact(es, view, ids, s) && i < |es|
    ensures es[i].callId in view && es[i].callInstance < |view[es[i].callId].iterations| == |view[es[i].callId].counts|
    ensures es[i].end - es[i].start + 1 == At(view[es[i].callId].counts[es[i].callInstance], s)
    ensures Current(view, Initial(view, ids))
    ensures var ex := Executing(view, Visits(view, Initial(view, ids)), s);
            |es| == |ex| && IterationOf(view, es[i]) == ex[i].iteration
  {
    hide Entries, Executing, CallOk, CountOf, AtInstance;
    InitialCurrent(view, ids);
    var v := Visits(view, Initial(view, ids));
    var ex := Executing(view, v, s);
    EntriesCover(view, v, s);
    VisitsAtInstances(view, Initial(view, ids));
    ExecutingAreVisits(view, v, s);
    assert AtInstance(view, ex[i]);
    InstanceCount(view, ex[i], s);
  }

  /** The entries name exactly the instances of the listed calls that execute `s`, each once. */
  ghost predicate HoldsAll(es: seq<CacheEntry>, view: map<Symbol, Call>, ids: seq<Symbol>, s: Symbol) {
    && (forall id: Symbol, k: nat :: Names(es, id, k) <==>
         id in ids && id in view && k < |view[id].iterations| == |view[id].counts| && At(view[id].counts[k], s) > 0)
    && (forall i, j :: 0 <= i < j < |es| ==> (es[i].callId, es[i].callInstance) != (es[j].callId, es[j].callInstance))
  }

  ghost predicate Names(es: seq<CacheEntry>, id: Symbol, k: nat) {
    exists i :: 0 <= i < |es| && es[i].callId == id && es[i].callInstance == k
  }

  lemma {:induction false} ExecutingMembers(calls: map<Symbol, Call>, v: seq<CurrInst>, s: Symbol, c: CurrInst)
    ensures c in Executing(calls, v, s) <==> c in v && CountOf(calls, c, s) > 0
  {
    hide CountOf;
    if v != [] {
      ExecutingMembers(calls, v[..|v| - 1], s, c);
      assert v == v[..|v| - 1] + [v[|v| - 1]];
    }
  }

  lemma {:induction false} ExecutingCount(calls: map<Symbol, Call>, v: seq<CurrInst>, s: Symbol)
    ensures multiset(Executing(calls, v, s)) <= multiset(v)
  {
    hide CountOf;
    if v != [] {
      ExecutingCount(calls, v[..|v| - 1], s);
      assert v == v[..|v| - 1] + [v[|v| - 1]];
    }
  }

  lemma {:induction false} AllInstancesOnce(calls: map<Symbol, Call>, ids: seq<Symbol>, c: CurrInst)
    requires Distinct(ids)
    ensures multiset(AllInstances(calls, ids))[c] <= 1
  {
    hide Instances;
    if ids != [] {
      var front, id := ids[..|ids| - 1], ids[|ids| - 1];
      AllInstancesOnce(calls, front, c);
      AllInstancesMember(calls, front, c);
      InstancesOnce(calls, id, c);
      assert id !in front;
    }
  }

  lemma InstancesOnce(calls: map<Symbol, Call>, id: Symbol, c: CurrInst)
    ensures multiset(Instances(calls, id))[c] <= 1
    ensures c in Instances(calls, id) ==> c.callId == id
  {
    DistinctOnce(Instances(calls, id), c);
  }

  lemma CacheHoldsAll(es: seq<CacheEntry>, view: map<Symbol, Call>, ids: seq<Symbol>, s: Symbol)
    requires Distinct(ids) && (forall id <- view.Keys :: CallOk(view[id])) && CacheExact(es, view, ids, s)
    ensures HoldsAll(es, view, ids, s) && Covers(es, GroupTotal(view, ids, s))
  {
    hide Entries, Executing, CountOf, Visits, Initial, Current, AllPending, AllInstances, Covers, Names, GroupTotal, CallOk, AtInstance;
    VisitsExecuteAll(view, ids, s);
    InitialPending(view, ids);
    var v := Visits(view, Initial(view, ids));
    VisitsPermute(view, Initial(view, ids));
    EntriesCover(view, v, s);
    var ex := Executing(view, v, s);
    VisitsAtInstances(view, Initial(view, ids));
    ExecutingAreVisits(view, v, s);
    forall id: Symbol, k: nat
      ensures Names(es, id, k) <==>
                id in ids && id in view && k < |view[id].iterations| == |view[id].counts| && At(view[id].counts[k], s) > 0
    {
      NamedInstance(es, view, ids, s, id, k);
    }
    forall i, j | 0 <= i < j < |es|
      ensures (es[i].callId, es[i].callInstance) != (es[j].callId, es[j].callInstance)
    {
      assert AtInstance(view, ex[i]) && AtInstance(view, ex[j]);
      InstanceCount(view, ex[i], s);
      InstanceCount(view, ex[j], s);
      ExecutingCount(view, v, s);
      AllInstancesOnce(view, ids, ex[i]);
      assert multiset(ex)[ex[i]] <= multiset(AllInstances(view, ids))[ex[i]] <= 1;
      if ex[i] == ex[j] {
        OccursTwice(ex, i, j);
      }
    }
  }

  lemma NamedInstance(es: seq<CacheEntry>, view: map<Symbol, Call>, ids: seq<Symbol>, s: Symbol, id: Symbol, k: nat)
    requires Distinct(ids) && (forall id <- view.Keys :: CallOk(view[id])) && CacheExact(es, view, ids, s)
    ensures Names(es, id, k) <==>
              id in ids && id in view && k < |view[id].iterations| == |view[id].counts| && At(view[id].counts[k], s) > 0
  {
    hide Entries, Executing, CountOf, Visits, Initial, Current, AllPending, AllInstances, AtInstance;
    InitialCurrent(view, ids);
    InitialPending(view, ids);
    var v := Visits(view, Initial(view, ids));
    VisitsPermute(view, Initial(view, ids));
    EntriesCover(view, v, s);
    var ex := Executing(view, v, s);
    if i :| 0 <= i < |es| && es[i].callId == id && es[i].callInstance == k {
      CacheEntryExact(es, view, ids, s, i);
      ExecutingMembers(view, v, s, ex[i]);
      assert ex[i] in multiset(v);
      AllInstancesMember(view, ids, ex[i]);
      CountAt(view, ex[i], s);
    }
    if id in ids && id in view && k < |view[id].iterations| == |view[id].counts| && At(view[id].counts[k], s) > 0 {
      var c := CurrInst(id, k, view[id].iterations[k]);
      AllInstancesMember(view, ids, c);
      assert c in multiset(AllInstances(view, ids));
      CountAt(view, c, s);
      ExecutingMembers(view, v, s, c);
      var i :| 0 <= i < |ex| && ex[i] == c;
      assert es[i].callId == id && es[i].callInstance == k;
    }
  }

  lemma CountAt(view: map<Symbol, Call>, c: CurrInst, s: Symbol)
    requires c.callId in view && c.instance < |view[c.callId].counts|
    ensures CountOf(view, c, s) == At(view[c.callId].counts[c.instance], s)
  {
  }

  lemma CacheEntryLocated(es: seq<CacheEntry>, view: map<Symbol, Call>, ids: seq<Symbol>, s: Symbol, i: nat, k: int)
    requires Distinct(ids) && forall id <- view.Keys :: CallOk(view[id])
    requires CacheExact(es, view, ids, s) && i < |es| && es[i].start <= k <= es[i].end
    ensures es[i].callId in view && es[i].callInstance < |view[es[i].callId].iterations|
    ensures Located(SubCounts(view, ids, s), k, IterationOf(view, es[i]))
  {
    hide Entries, Executing, CallOk, Initial, Located, Tallies, SubCounts, InOrder;
    CacheEntryExact(es, view, ids, s, i);
    var v := Visits(view, Initial(view, ids));
    VisitsInOrder(view, Initial(view, ids), 0);
    CacheLocates(view, v, s, i, k);
    SameTallies(view, ids, s, k, IterationOf(view, es[i]));
  }

  /** Contiguous ranges from 0, in the order of the iterations of their call instances. */
  lemma CacheInOrder(es: seq<CacheEntry>, view: map<Symbol, Call>, ids: seq<Symbol>, s: Symbol, i: nat, j: nat)
    requires Distinct(ids) && forall id <- view.Keys :: CallOk(view[id])
    requires CacheExact(es, view, ids, s) && i < j < |es|
    ensures es[i].callId in view && es[i].callInstance < |view[es[i].callId].iterations|
    ensures es[j].callId in view && es[j].callInstance < |view[es[j].callId].iterations|
    ensures es[i].end < es[j].start && IterationOf(view, es[i]) <= IterationOf(view, es[j])
  {
    hide Entries, Executing, CallOk, Initial;
    CacheEntryExact(es, view, ids, s, i);
    CacheEntryExact(es, view, ids, s, j);
    var v := Visits(view, Initial(view, ids));
    VisitsInOrder(view, Initial(view, ids), 0);
    ExecutingInOrder(view, v, s, 0);
    EntriesCover(view, v, s);
    CoversInOrder(es, Executed(view, v, s), i, j);
  }

  lemma {:induction false} CoversInOrder(es: seq<CacheEntry>, total: int, i: nat, j: nat)
    requires Covers(es, total) && i < j < |es|
    ensures es[i].end < es[j].start
    decreases j
  {
    if i < j - 1 {
      CoversInOrder(es, total, i, j - 1);
    }
  }

  lemma InstanceCount(view: map<Symbol, Call>, c: CurrInst, s: Symbol)
    requires AtInstance(view, c)
    ensures c.callId in view && c.instance < |view[c.callId].iterations| == |view[c.callId].counts|
    ensures CountOf(view, c, s) == At(view[c.callId].counts[c.instance], s)
    ensures c.iteration == view[c.callId].iterations[c.instance]
  {
  }

  lemma SameTallies(view: map<Symbol, Call>, ids: seq<Symbol>, s: Symbol, k: int, n: int)
    requires Distinct(ids) && forall id <- view.Keys :: CallOk(view[id])
    requires Current(view, Initial(view, ids)) && Located(Tallies(view, Visits(view, Initial(view, ids)), s), k, n)
    ensures Located(SubCounts(view, ids, s), k, n)
  {
    hide Current, Initial, Visits, Tally, AllPending, AllInstances;
    var curr := Initial(view, ids);
    CurrentInCalls(view, curr);
    InitialPending(view, ids);
    forall j
      ensures Tallies(view, Visits(view, curr), s)(j) == SubCounts(view, ids, s)(j)
    {
      VisitsTally(view, curr, s, j);
    }
    SamePrefix(Tallies(view, Visits(view, curr), s), SubCounts(view, ids, s), n);
    SamePrefix(Tallies(view, Visits(view, curr), s), SubCounts(view, ids, s), n + 1);
  }

  lemma {:induction false} SamePrefix(a: int -> nat, b: int -> nat, n: int)
    requires forall i :: a(i) == b(i)
    ensures Prefix(a, n) == Prefix(b, n)
    decreases n
  {
    if n > 0 {
      SamePrefix(a, b, n - 1);
    }
  }

  class CallTraceLoopInvocationGroup {
    var calls: map<Symbol, CallTraceCall>
    var callTraceCache: map<Symbol, seq<CacheEntry>>
    var constantCallIDCache: map<Symbol, bool>
    var callTraceCacheBuilt: bool

    constructor (calls: map<Symbol, CallTraceCall>)
      ensures this.calls == calls && callTraceCache == map[] && !callTraceCacheBuilt
    {
      this.calls := calls;
      callTraceCache, constantCallIDCache, callTraceCacheBuilt := map[], map[], false;
    }

    /** Steps the call of the visited instance to its next instance, or drops it after its last one. */
    static method UpdateCurrentInstances(currInsts: seq<CurrInst>, callId: Symbol, invGroup: InvocationGroupCfc,
        ghost view: map<Symbol, Call>, ghost m: nat) returns (next: seq<CurrInst>)
      requires Current(view, currInsts) && m < |currInsts| && currInsts[m].callId == callId
      requires invGroup.Precomputed() && callId in view && |view[callId].iterations| == invGroup.GetNumInstances(callId)
      requires forall k :: 0 <= k < |view[callId].iterations| ==>
                 view[callId].iterations[k] == invGroup.GetIterationNumber(callId, k)
      ensures next == Advance(view, currInsts, m)
    {
      hide InvocationGroupCfc.Precomputed, InvocationGroupCfc.GetNumInstances, InvocationGroupCfc.GetIterationNumber, CallOk;
      next := currInsts;
      for i := 0 to |currInsts|
        invariant i <= m && next == currInsts
      {
        if currInsts[i].callId == callId {
          assert i == m && AtInstance(view, currInsts[m]);
          var k := currInsts[i].instance;
          if invGroup.GetNumInstances(callId) - 1 == k {
            next := currInsts[..i] + currInsts[i + 1..];
          } else {
            next := currInsts[i := CurrInst(callId, k + 1, invGroup.GetIterationNumber(callId, k + 1))];
          }
          return;
        }
      }
    }

    /** Does every entry come from the same call? */
    static method IsConstant(es: seq<CacheEntry>) returns (r: bool)
      requires es != []
      ensures r <==> SameCall(es)
    {
      var callID := es[0].callId;
      for i := 0 to |es|
        invariant forall j :: 0 <= j < i ==> es[j].callId == callID
      {
        if es[i].callId != callID {
          return false;
        }
      }
      return true;
    }

    method FirstInstances(invGroup: InvocationGroupCfc, callInstrList: seq<Symbol>, ghost view: map<Symbol, Call>)
        returns (currentInstances: seq<CurrInst>)
      requires invGroup.Precomputed()
      requires forall id <- callInstrList :: Active(calls, invGroup, id) ==> LookupsDefined(calls[id], invGroup.GetNumInstances(id))
      requires StreamsOf(view, calls, invGroup, callInstrList)
      ensures currentInstances == Initial(view, callInstrList)
    {
      hide InvocationGroupCfc.Precomputed, InvocationGroupCfc.GetNumInstances, InvocationGroupCfc.GetIterationNumber, CountsAre,
        CallTraceCall.Built, LookupsDefined;
      currentInstances := [];
      for i := 0 to |callInstrList|
        invariant currentInstances == Initial(view, callInstrList[..i])
      {
        var id := callInstrList[i];
        assert callInstrList[..i + 1][..i] == callInstrList[..i];
        if id in calls && |calls[id].callInstances| > 0 && invGroup.ContainsInstruction(id) {
          assert Streams(view[id], calls[id], invGroup, id);
          currentInstances := currentInstances + [CurrInst(id, 0, invGroup.GetIterationNumber(id, 0))];
        }
      }
      assert callInstrList[..|callInstrList|] == callInstrList;
    }

    /** Looks up the counts of a call instance and enters them in the cache. */
    method VisitInstance(c: CurrInst, invGroup: InvocationGroupCfc, running: map<Symbol, nat>,
        ghost view: map<Symbol, Call>, ghost visited: seq<CurrInst>) returns (nextRunning: map<Symbol, nat>)
      requires invGroup.Precomputed() && AtInstance(view, c) && c.callId in calls
      requires LookupsDefined(calls[c.callId], invGroup.GetNumInstances(c.callId))
      requires Streams(view[c.callId], calls[c.callId], invGroup, c.callId)
      requires CacheIs(callTraceCache, running, view, visited) && NonEmpty(callTraceCache)
      modifies this`callTraceCache
      ensures CacheIs(callTraceCache, nextRunning, view, visited + [c])
      ensures NonEmpty(callTraceCache)
    {
      hide InvocationGroupCfc.Precomputed, InvocationGroupCfc.GetNumInstances, InvocationGroupCfc.GetIterationNumber, CacheIs,
        CallTraceCall.Built, Recorded, EntryAdded, CallTraceCall.CountsAt;
      assert c.instance < |view[c.callId].counts|;
      CountsAtExact(calls[c.callId], c.instance);
      assert CountsAre(view[c.callId].counts[c.instance], calls[c.callId], c.instance);
      ghost var cache := callTraceCache;
      callTraceCache, nextRunning :=
        AddToCallTraceCache(c.callId, c.instance, calls[c.callId].CountsAt(c.instance), callTraceCache, running);
      VisitAdds(cache, running, callTraceCache, nextRunning, view, visited, c);
    }

    /** Visits the next call instance in iteration order, and steps its call. */
    method VisitNext(currentInstances: seq<CurrInst>, invGroup: InvocationGroupCfc, running: map<Symbol, nat>, ghost callInstrList: seq<Symbol>,
        ghost view: map<Symbol, Call>, ghost visited: seq<CurrInst>) returns (next: seq<CurrInst>, nextRunning: map<Symbol, nat>, ghost nextVisited: seq<CurrInst>)
      requires invGroup.Precomputed() && currentInstances != [] && Current(view, currentInstances)
      requires forall id <- callInstrList :: Active(calls, invGroup, id) ==> LookupsDefined(calls[id], invGroup.GetNumInstances(id))
      requires StreamsOf(view, calls, invGroup, callInstrList)
      requires CacheIs(callTraceCache, running, view, visited) && NonEmpty(callTraceCache)
      modifies this`callTraceCache
      ensures Current(view, next) && Remaining(view, next) == Remaining(view, currentInstances) - 1
      ensures nextVisited + Visits(view, next) == visited + Visits(view, currentInstances)
      ensures CacheIs(callTraceCache, nextRunning, view, nextVisited) && NonEmpty(callTraceCache)
    {
      hide InvocationGroupCfc.Precomputed, InvocationGroupCfc.GetNumInstances, InvocationGroupCfc.GetIterationNumber, CacheIs,
        LookupsDefined, Current, Advance, Streams, Active, NonEmpty, Visits, Remaining;
      var m := MinimumIteration(currentInstances, |currentInstances|);
      var c := currentInstances[m];
      CurrentAt(view, currentInstances, m);
      ActiveInCalls(calls, invGroup, c.callId);
      nextRunning := VisitInstance(c, invGroup, running, view, visited);
      StreamIterations(view[c.callId], calls[c.callId], invGroup, c.callId);
      AdvanceCurrent(view, currentInstances, m);
      AdvanceShrinks(view, currentInstances, m);
      NextVisits(view, currentInstances, visited);
      next := UpdateCurrentInstances(currentInstances, c.callId, invGroup, view, m);
      nextVisited := visited + [c];
    }

    /**
     Builds the cache of all sub-instructions, by visiting the call instances in iteration order, and adds
     the number of their instances to the running counts.
     */
    method BuildCallTraceCache(invGroup: InvocationGroupCfc, subInstrRunningCount: map<Symbol, nat>, callInstrList: seq<Symbol>)
        returns (counts: map<Symbol, nat>, ghost view: map<Symbol, Call>)
      requires invGroup.Precomputed() && callTraceCache == map[] && Distinct(callInstrList)
      requires forall id <- callInstrList :: Active(calls, invGroup, id) ==> LookupsDefined(calls[id], invGroup.GetNumInstances(id))
      modifies this`callTraceCache, this`constantCallIDCache, this`callTraceCacheBuilt
      ensures callTraceCacheBuilt && StreamsOf(view, calls, invGroup, callInstrList)
      ensures forall id :: id in view <==>
                id in callInstrList && id in calls && calls[id].callInstances != [] && invGroup.ContainsInstruction(id)
      ensures forall id <- view.Keys :: CallOk(view[id])
      ensures forall s :: CacheExact(CachedFor(callTraceCache, s), view, callInstrList, s)
      ensures forall s :: HoldsAll(CachedFor(callTraceCache, s), view, callInstrList, s)
      ensures forall s :: At(counts, s) == At(subInstrRunningCount, s) + GroupTotal(view, callInstrList, s)
      ensures forall s :: Covers(CachedFor(callTraceCache, s), GroupTotal(view, callInstrList, s))
      ensures forall s <- callTraceCache.Keys ::
                s in constantCallIDCache && (constantCallIDCache[s] <==> SameCall(callTraceCache[s]))
    {
      hide InvocationGroupCfc.Precomputed, InvocationGroupCfc.GetNumInstances, InvocationGroupCfc.GetIterationNumber, CacheIs,
        InvocationGroupCfc.ContainsInstruction, LookupsDefined, Initial, Current, Advance, Streams, Active, Covers, Entries, Executed, NonEmpty, Visits, StreamsOf, CacheExact,
        SameCall, CallOk, HoldsAll, GroupTotal;
      view := AllStreams(calls, invGroup, callInstrList);
      ActiveCalls(view, calls, invGroup, callInstrList);
      var currentInstances := FirstInstances(invGroup, callInstrList, view);
      ghost var initial := currentInstances;
      StreamsOk(view, calls, invGroup, callInstrList);
      InitialCurrent(view, callInstrList);
      var running: map<Symbol, nat> := map[];
      ghost var visited: seq<CurrInst> := [];
      ghost var left := Remaining(view, currentInstances);
      NothingCached(view);
      RemainingPositive(view, currentInstances);
      while |currentInstances| > 0
        invariant Current(view, currentInstances)
        invariant left == Remaining(view, currentInstances) >= 0
        invariant visited + Visits(view, currentInstances) == Visits(view, initial)
        invariant CacheIs(callTraceCache, running, view, visited) && NonEmpty(callTraceCache)
        decreases left
      {
        currentInstances, running, visited := VisitNext(currentInstances, invGroup, running, callInstrList, view, visited);
        RemainingPositive(view, currentInstances);
        left := left - 1;
      }
      counts := AddCounts(subInstrRunningCount, running);
      callTraceCacheBuilt := true;
      NoneLeft(view);
      assert visited == Visits(view, initial);
      CacheDone(callTraceCache, running, subInstrRunningCount, counts, view, callInstrList);
      BuildConstantCallIDCache(counts);
    }

    method BuildConstantCallIDCache(counts: map<Symbol, nat>)
      requires NonEmpty(callTraceCache) && callTraceCache.Keys <= counts.Keys
      modifies this`constantCallIDCache
      ensures forall s <- callTraceCache.Keys ::
                s in constantCallIDCache && (constantCallIDCache[s] <==> SameCall(callTraceCache[s]))
    {
      var keys := counts.Keys;
      while keys != {}
        invariant keys <= counts.Keys
        invariant forall s <- callTraceCache.Keys :: s !in keys ==>
                    s in constantCallIDCache && (constantCallIDCache[s] <==> SameCall(callTraceCache[s]))
        decreases |keys|
      {
        var s :| s in keys;
        if s in callTraceCache {
          var constant := IsConstant(callTraceCache[s]);
          constantCallIDCache := constantCallIDCache[s := constant];
        }
        keys := keys - {s};
      }
    }
  }

  ghost predicate NonEmpty(cache: map<Symbol, seq<CacheEntry>>) {
    forall s <- cache.Keys :: cache[s] != []
  }

  ghost predicate SameCall(es: seq<CacheEntry>) {
    forall i, j :: 0 <= i < |es| && 0 <= j < |es| ==> es[i].callId == es[j].callId
  }

  lemma NoneLeft(view: map<Symbol, Call>)
    ensures Current(view, []) && Visits(view, []) == []
  {
  }

  lemma CacheDone(cache: map<Symbol, seq<CacheEntry>>, running: map<Symbol, nat>, before: map<Symbol, nat>,
      counts: map<Symbol, nat>, view: map<Symbol, Call>, ids: seq<Symbol>)
    requires Distinct(ids) && (forall id <- view.Keys :: CallOk(view[id])) && Current(view, Initial(view, ids))
    requires CacheIs(cache, running, view, Visits(view, Initial(view, ids)))
    requires NonEmpty(cache) && counts == AddMaps(before, running)
    ensures forall s :: CacheExact(CachedFor(cache, s), view, ids, s)
    ensures forall s :: HoldsAll(CachedFor(cache, s), view, ids, s)
    ensures forall s :: At(counts, s) == At(before, s) + GroupTotal(view, ids, s)
    ensures forall s :: Covers(CachedFor(cache, s), GroupTotal(view, ids, s))
    ensures cache.Keys <= counts.Keys
  {
    hide Covers, Entries, Executed, Visits, Initial, Current, AddMaps, CallOk, HoldsAll, GroupTotal;
    var v := Visits(view, Initial(view, ids));
    AddMapsAt(before, running);
    forall s
      ensures CacheExact(CachedFor(cache, s), view, ids, s)
      ensures HoldsAll(CachedFor(cache, s), view, ids, s) && Covers(CachedFor(cache, s), GroupTotal(view, ids, s))
      ensures At(running, s) == GroupTotal(view, ids, s) && At(counts, s) == At(before, s) + At(running, s)
    {
      assert CachedFor(cache, s) == Entries(view, v, s);
      CacheHoldsAll(CachedFor(cache, s), view, ids, s);
      VisitsExecuteAll(view, ids, s);
    }
    forall s <- cache.Keys
      ensures s in counts
    {
      assert Covers(CachedFor(cache, s), At(running, s));
      CoversSome(cache[s], At(running, s));
    }
  }

  lemma CoversSome(es: seq<CacheEntry>, total: int)
    requires Covers(es, total) && es != []
    ensures total > 0
  {
    CoversFromZero(es, total, |es| - 1);
  }

  lemma {:induction false} CoversFromZero(es: seq<CacheEntry>, total: int, i: nat)
    requires Covers(es, total) && i < |es|
    ensures es[i].start >= 0
  {
    if i > 0 {
      CoversFromZero(es, total, i - 1);
    }
  }

  lemma ActiveCalls(view: map<Symbol, Call>, calls: map<Symbol, CallTraceCall>, invGroup: InvocationGroupCfc, ids: seq<Symbol>)
    requires invGroup.Precomputed()
    requires forall id <- ids :: Active(calls, invGroup, id) ==> LookupsDefined(calls[id], invGroup.GetNumInstances(id))
    requires StreamsOf(view, calls, invGroup, ids)
    ensures forall id :: id in view <==>
              id in ids && id in calls && calls[id].callInstances != [] && invGroup.ContainsInstruction(id)
  {
    hide LookupsDefined, InvocationGroupCfc.Precomputed, InvocationGroupCfc.GetNumInstances, InvocationGroupCfc.ContainsInstruction, Streams;
  }

  lemma StreamsOk(view: map<Symbol, Call>, calls: map<Symbol, CallTraceCall>, invGroup: InvocationGroupCfc, ids: seq<Symbol>)
    requires invGroup.Precomputed()
    requires forall id <- ids :: Active(calls, invGroup, id) ==> LookupsDefined(calls[id], invGroup.GetNumInstances(id))
    requires StreamsOf(view, calls, invGroup, ids)
    ensures forall id <- view.Keys :: CallOk(view[id])
  {
    hide CallOk, LookupsDefined, InvocationGroupCfc.Precomputed, CountsAre;
  }

  lemma NothingCached(view: map<Symbol, Call>)
    ensures CacheIs(map[], map[], view, []) && NonEmpty(map[])
  {
  }

  lemma CurrentAt(view: map<Symbol, Call>, curr: seq<CurrInst>, m: nat)
    requires Current(view, curr) && m < |curr|
    ensures AtInstance(view, curr[m]) && curr[m].callId in view
  {
  }

  lemma StreamIterations(c: Call, call: CallTraceCall, invGroup: InvocationGroupCfc, id: Symbol)
    requires invGroup.Precomputed() && LookupsDefined(call, invGroup.GetNumInstances(id)) && Streams(c, call, invGroup, id)
    ensures |c.iterations| == invGroup.GetNumInstances(id)
    ensures forall k :: 0 <= k < |c.iterations| ==> c.iterations[k] == invGroup.GetIterationNumber(id, k)
  {
  }

  lemma NextVisits(view: map<Symbol, Call>, curr: seq<CurrInst>, visited: seq<CurrInst>)
    requires Current(view, curr) && curr != []
    ensures var m := MinimumIteration(curr, |curr|);
            && Current(view, Advance(view, curr, m))
            && visited + Visits(view, curr) == (visited + [curr[m]]) + Visits(view, Advance(view, curr, m))
  {
    AdvanceCurrent(view, curr, MinimumIteration(curr, |curr|));
  }
}
