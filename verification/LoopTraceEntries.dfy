/**
 The entries of a loop trace: invocations with equal iterations share an entry. Merging the entries
 of two consecutive dumps continues the invocation that was running at the dump.
 */
module LoopTraceEntries {
  import opened CompressionPatterns
  import opened RepetitionPatterns
  import opened IterationGroups

  datatype LoopTraceEntry = LoopTraceEntry(invocations: RepetitionPattern, groups: seq<Group>)

  /** What the entry becomes, and the entries that follow it. */
  ghost function MergeIntoAndReturnRemaining(a: LoopTraceEntry, b: LoopTraceEntry): (LoopTraceEntry, seq<LoopTraceEntry>)
    requires Proper(a.invocations) && AllProper(a.groups) && AllProper(b.groups)
  {
    if b.invocations == [] then (a, [])
    else if Last(a.invocations) != First(b.invocations) then (a, [b])
    else
      var merged := Merge(a.groups, b.groups);
      var n := Last(a.invocations);
      var rest := if First(b.invocations) == Last(b.invocations) then [] else [b.(invocations := RemoveFirst(b.invocations))];
      if First(a.invocations) == n then (a.(groups := merged), rest)
      else (a.(invocations := RemoveLast(a.invocations)), [LoopTraceEntry([Range(n, n)], merged)] + rest)
  }

  ghost function FlowOfEntry(e: LoopTraceEntry, v: int, n: int): seq<Pattern> {
    if Has(e.invocations, v) then ControlFlowAt(e.groups, n) else []
  }

  /** The control flow of iteration `n` of invocation `v`. */
  ghost function InvocationFlow(es: seq<LoopTraceEntry>, v: int, n: int): seq<Pattern> {
    if es == [] then [] else FlowOfEntry(es[0], v, n) + InvocationFlow(es[1..], v, n)
  }

  /** No invocation is in two entries. */
  ghost predicate SeparateEntries(es: seq<LoopTraceEntry>) {
    forall i, j, v :: 0 <= i < j < |es| && Has(es[i].invocations, v) ==> !Has(es[j].invocations, v)
  }

  /** Every entry holds earlier invocations than the next. */
  ghost predicate OrderedEntries(es: seq<LoopTraceEntry>) {
    forall i, j, v, w :: 0 <= i < j < |es| && Has(es[i].invocations, v) && Has(es[j].invocations, w) ==> v < w
  }

  /** Some entry holds the invocation. */
  ghost predicate InEntries(es: seq<LoopTraceEntry>, v: int) {
    exists i :: 0 <= i < |es| && Has(es[i].invocations, v)
  }

  ghost predicate HoldsOnly(e: LoopTraceEntry, k: int) {
    forall v :: Has(e.invocations, v) <==> v == k
  }

  /** Both entries hold just one invocation, the same one. */
  ghost predicate OneShared(a: LoopTraceEntry, b: LoopTraceEntry) {
    exists k :: HoldsOnly(a, k) && HoldsOnly(b, k)
  }

  /**
   Every invocation keeps its control flow, with that of the second dump behind that of the first. No entry is empty,
   they are in the order of their invocations, and none is left over exactly when the second one adds no invocation.
   */
  lemma MergeEntriesExact(a: LoopTraceEntry, b: LoopTraceEntry)
    requires Proper(a.invocations) && Increasing(b.invocations)
    requires WellGrouped(a.groups) && WellGrouped(b.groups)
    requires forall v, w :: Has(a.invocations, v) && Has(b.invocations, w) ==> v <= w
    requires forall v :: Has(a.invocations, v) && Has(b.invocations, v) ==> Consecutive(a.groups, b.groups)
    ensures var (kept, rest) := MergeIntoAndReturnRemaining(a, b);
            && SeparateEntries([kept] + rest)
            && (forall v, n :: InvocationFlow([kept] + rest, v, n) == FlowOfEntry(a, v, n) + FlowOfEntry(b, v, n))
            && (forall e <- [kept] + rest :: Proper(e.invocations) && WellGrouped(e.groups))
            && OrderedEntries([kept] + rest)
            && (forall v :: InEntries([kept] + rest, v) <==> Has(a.invocations, v) || Has(b.invocations, v))
            && (rest == [] <==> (forall v :: !Has(b.invocations, v)) || OneShared(a, b))
  {
    hide ControlFlowAt, Has, Merge, AllProper, Separate, SeparateEntries, InvocationFlow, FlowOfEntry, OrderedEntries, InEntries,
      OneShared;
    var (kept, rest) := MergeIntoAndReturnRemaining(a, b);
    RemainingExact(a, b);
    BoundedByEnds(a.invocations, 0);
    if b.invocations == [] {
      OneEntry(a, b);
    } else {
      BoundedByEnds(b.invocations, 0);
      if Last(a.invocations) != First(b.invocations) {
        TwoEntries(a, b);
      } else {
        MergeExact(a.groups, b.groups);
        SharedInvocation(a, b, Merge(a.groups, b.groups));
      }
    }
  }

  /** Which entries remain. */
  lemma RemainingExact(a: LoopTraceEntry, b: LoopTraceEntry)
    requires Proper(a.invocations) && Increasing(b.invocations)
    requires WellGrouped(a.groups) && WellGrouped(b.groups)
    requires forall v, w :: Has(a.invocations, v) && Has(b.invocations, w) ==> v <= w
    requires forall v :: Has(a.invocations, v) && Has(b.invocations, v) ==> Consecutive(a.groups, b.groups)
    ensures var (kept, rest) := MergeIntoAndReturnRemaining(a, b);
            && (forall e <- [kept] + rest :: Proper(e.invocations) && WellGrouped(e.groups))
            && OrderedEntries([kept] + rest)
            && (forall v :: InEntries([kept] + rest, v) <==> Has(a.invocations, v) || Has(b.invocations, v))
            && (rest == [] <==> (forall v :: !Has(b.invocations, v)) || OneShared(a, b))
  {
    hide Has, Merge, AllProper, Separate, RemoveFirst, RemoveLast, OrderedEntries, InEntries, OneShared, Consecutive;
    if b.invocations == [] {
      NoneRemains(a, b);
    } else {
      Ends(a);
      Ends(b);
      if Last(a.invocations) != First(b.invocations) {
        SecondRemains(a, b);
      } else {
        MergeExact(a.groups, b.groups);
        PartsRemain(a, b, Merge(a.groups, b.groups));
      }
    }
  }

  /** An entry lies between its first and its last invocation. */
  lemma Ends(e: LoopTraceEntry)
    requires Proper(e.invocations)
    ensures forall v :: Has(e.invocations, v) ==> First(e.invocations) <= v <= Last(e.invocations)
    ensures Has(e.invocations, First(e.invocations)) && Has(e.invocations, Last(e.invocations))
  {
    hide Has;
    BoundedByEnds(e.invocations, 0);
    forall v | Has(e.invocations, v)
      ensures First(e.invocations) <= v <= Last(e.invocations)
    {
      BoundedByEnds(e.invocations, v);
    }
  }

  lemma NoneRemains(a: LoopTraceEntry, b: LoopTraceEntry)
    requires b.invocations == []
    ensures OrderedEntries([a] + []) && forall v :: !Has(b.invocations, v)
    ensures forall v :: InEntries([a] + [], v) <==> Has(a.invocations, v)
  {
    forall v
      ensures InEntries([a] + [], v) <==> Has(a.invocations, v)
    {
      assert ([a] + [])[0] == a;
    }
  }

  lemma SecondRemains(a: LoopTraceEntry, b: LoopTraceEntry)
    requires Proper(a.invocations) && Proper(b.invocations) && Last(a.invocations) != First(b.invocations)
    requires forall v, w :: Has(a.invocations, v) && Has(b.invocations, w) ==> v <= w
    ensures OrderedEntries([a] + [b]) && !OneShared(a, b) && !(forall v :: !Has(b.invocations, v))
    ensures forall v :: InEntries([a] + [b], v) <==> Has(a.invocations, v) || Has(b.invocations, v)
  {
    hide Has;
    Ends(a);
    Ends(b);
    var es := [a] + [b];
    forall v
      ensures InEntries(es, v) <==> Has(a.invocations, v) || Has(b.invocations, v)
    {
      assert es[0] == a && es[1] == b;
    }
  }

  lemma PartsRemain(a: LoopTraceEntry, b: LoopTraceEntry, merged: seq<Group>)
    requires Proper(a.invocations) && Proper(b.invocations) && Last(a.invocations) == First(b.invocations)
    requires WellGrouped(a.groups) && WellGrouped(b.groups) && WellGrouped(merged) && merged == Merge(a.groups, b.groups)
    ensures var (kept, rest) := MergeIntoAndReturnRemaining(a, b);
            && (forall e <- [kept] + rest :: Proper(e.invocations) && WellGrouped(e.groups))
            && OrderedEntries([kept] + rest)
            && (forall v :: InEntries([kept] + rest, v) <==> Has(a.invocations, v) || Has(b.invocations, v))
            && (rest == [] <==> OneShared(a, b))
            && !(forall v :: !Has(b.invocations, v))
  {
    hide Has, Merge, RemoveFirst, RemoveLast, InEntries, OrderedEntries, AllProper, Separate;
    var (kept, rest) := MergeIntoAndReturnRemaining(a, b);
    var k := Last(a.invocations);
    Ends(a);
    Ends(b);
    RemoveLastExact(a.invocations);
    RemoveFirstExact(b.invocations);
    BoundedByEnds(a.invocations, k);
    BoundedByEnds(b.invocations, k);
    forall v
      ensures Has([Range(k, k)], v) <==> v == k
    {
      HasSingle(k, v);
    }
    NoEntries();
    EntriesCons(kept, rest);
    if rest != [] {
      EntriesCons(rest[0], rest[1..]);
      assert rest == [rest[0]] + rest[1..];
      if rest[1..] != [] {
        EntriesCons(rest[1], []);
        assert rest[1..] == [rest[1]] + [];
      }
    } else {
      assert HoldsOnly(a, k) && HoldsOnly(b, k);
    }
  }

  lemma NoEntries()
    ensures OrderedEntries([]) && forall v :: !InEntries([], v)
  {
  }

  lemma EntriesCons(e: LoopTraceEntry, rest: seq<LoopTraceEntry>)
    ensures forall v :: InEntries([e] + rest, v) <==> Has(e.invocations, v) || InEntries(rest, v)
    ensures OrderedEntries(rest) && (forall v, w :: Has(e.invocations, v) && InEntries(rest, w) ==> v < w) ==> OrderedEntries([e] + rest)
  {
    hide Has;
    var es := [e] + rest;
    forall v
      ensures InEntries(es, v) <==> Has(e.invocations, v) || InEntries(rest, v)
    {
      if i :| 0 <= i < |es| && Has(es[i].invocations, v) {
        assert i > 0 ==> rest[i - 1] == es[i];
      }
      if Has(e.invocations, v) {
        assert es[0] == e;
      }
      if i :| 0 <= i < |rest| && Has(rest[i].invocations, v) {
        assert es[i + 1] == rest[i];
      }
    }
    if OrderedEntries(rest) && forall v, w :: Has(e.invocations, v) && InEntries(rest, w) ==> v < w {
      forall i, j, v, w | 0 <= i < j < |es| && Has(es[i].invocations, v) && Has(es[j].invocations, w)
        ensures v < w
      {
        assert rest[j - 1] == es[j];
        if i == 0 {
          assert InEntries(rest, w);
        } else {
          assert rest[i - 1] == es[i];
        }
      }
    }
  }

  lemma OneEntry(a: LoopTraceEntry, b: LoopTraceEntry)
    requires b.invocations == []
    ensures SeparateEntries([a] + [])
    ensures forall v, n :: InvocationFlow([a] + [], v, n) == FlowOfEntry(a, v, n) + FlowOfEntry(b, v, n)
  {
    forall v, n
      ensures InvocationFlow([a] + [], v, n) == FlowOfEntry(a, v, n) + FlowOfEntry(b, v, n)
    {
      assert ([a] + [])[1..] == [];
    }
  }

  lemma TwoEntries(a: LoopTraceEntry, b: LoopTraceEntry)
    requires Proper(a.invocations) && Proper(b.invocations)
    requires Last(a.invocations) != First(b.invocations)
    requires forall v, w :: Has(a.invocations, v) && Has(b.invocations, w) ==> v <= w
    ensures SeparateEntries([a] + [b])
    ensures forall v, n :: InvocationFlow([a] + [b], v, n) == FlowOfEntry(a, v, n) + FlowOfEntry(b, v, n)
  {
    hide Has, ControlFlowAt;
    BoundedByEnds(a.invocations, 0);
    BoundedByEnds(b.invocations, 0);
    forall v
      ensures !Has(a.invocations, v) || !Has(b.invocations, v)
    {
      BoundedByEnds(a.invocations, v);
      BoundedByEnds(b.invocations, v);
    }
    forall v, n
      ensures InvocationFlow([a] + [b], v, n) == FlowOfEntry(a, v, n) + FlowOfEntry(b, v, n)
    {
      InvocationFlowTwo([a] + [b], v, n);
    }
  }

  lemma InvocationFlowTwo(es: seq<LoopTraceEntry>, v: int, n: int)
    requires |es| == 2
    ensures InvocationFlow(es, v, n) == FlowOfEntry(es[0], v, n) + FlowOfEntry(es[1], v, n)
  {
    hide FlowOfEntry;
    assert es[1..][1..] == [];
    assert InvocationFlow(es[1..], v, n) == FlowOfEntry(es[1], v, n) + [];
  }

  lemma InvocationFlowOne(es: seq<LoopTraceEntry>, v: int, n: int)
    requires |es| == 1
    ensures InvocationFlow(es, v, n) == FlowOfEntry(es[0], v, n)
  {
    hide FlowOfEntry;
    assert InvocationFlow(es, v, n) == FlowOfEntry(es[0], v, n) + [];
  }

  lemma InvocationFlowThree(es: seq<LoopTraceEntry>, v: int, n: int)
    requires |es| == 3
    ensures InvocationFlow(es, v, n)
         == FlowOfEntry(es[0], v, n) + (FlowOfEntry(es[1], v, n) + FlowOfEntry(es[2], v, n))
  {
    hide FlowOfEntry;
    InvocationFlowTwo(es[1..], v, n);
  }

  lemma SharedInvocation(a: LoopTraceEntry, b: LoopTraceEntry, merged: seq<Group>)
    requires Proper(a.invocations) && Proper(b.invocations)
    requires Last(a.invocations) == First(b.invocations)
    requires AllProper(a.groups) && AllProper(b.groups) && merged == Merge(a.groups, b.groups)
    requires forall n :: ControlFlowAt(merged, n) == ControlFlowAt(a.groups, n) + ControlFlowAt(b.groups, n)
    ensures var (kept, rest) := MergeIntoAndReturnRemaining(a, b);
            && SeparateEntries([kept] + rest)
            && forall v, n :: InvocationFlow([kept] + rest, v, n) == FlowOfEntry(a, v, n) + FlowOfEntry(b, v, n)
  {
    hide ControlFlowAt, Has, Merge, InvocationFlow, RemoveFirst, RemoveLast;
    var (kept, rest) := MergeIntoAndReturnRemaining(a, b);
    var es := [kept] + rest;
    var k := Last(a.invocations);
    RemoveLastExact(a.invocations);
    RemoveFirstExact(b.invocations);
    forall v
      ensures Has([Range(k, k)], v) <==> v == k
      ensures Has(a.invocations, v) ==> First(a.invocations) <= v <= k
      ensures Has(b.invocations, v) ==> k <= v <= Last(b.invocations)
      ensures Has(a.invocations, k) && Has(b.invocations, k)
    {
      HasSingle(k, v);
      BoundedByEnds(a.invocations, v);
      BoundedByEnds(b.invocations, v);
    }
    forall v, n
      ensures InvocationFlow(es, v, n) == FlowOfEntry(a, v, n) + FlowOfEntry(b, v, n)
    {
      if |es| == 1 {
        InvocationFlowOne(es, v, n);
      } else if |es| == 2 {
        InvocationFlowTwo(es, v, n);
      } else {
        InvocationFlowThree(es, v, n);
      }
    }
  }
}
