/**
 From the recorded events to the analyser's tables: what is looked up after dumping, merging and
 indexing is what happened.
 */
module EndToEnd {
  import opened Sequences
  import opened CompressionPatterns
  import opened ControlFlowCompression
  import opened RepetitionPatterns
  import opened IterationGroups
  import opened IterationRecording
  import opened InstanceTables
  import opened InstanceCounts
  import opened InvocationGroups

  // ---------- the merged control flow is well formed ----------

  ghost predicate GroupsWellFormed(gs: seq<Group>) {
    forall i :: 0 <= i < |gs| ==> AllWellFormed(gs[i].controlFlow)
  }

  ghost predicate LoopWellFormed(l: Loop) {
    && AllWellFormed(AllPatterns(l.cfc))
    && (forall i :: 0 <= i < |l.infos| ==> AllWellFormed(AllPatterns(l.infos[i].cfc)))
    && (forall i :: 0 <= i < |l.files| ==> GroupsWellFormed(l.files[i]))
  }

  lemma MergeWellFormed(a: seq<Group>, b: seq<Group>)
    requires AllProper(a) && AllProper(b) && GroupsWellFormed(a) && GroupsWellFormed(b)
    ensures GroupsWellFormed(Merge(a, b))
  {
    hide AllProper, WellFormed;
  }

  lemma WrittenWellFormed(infos: seq<Info>, num: nat)
    requires forall i :: 0 <= i < |infos| ==> AllWellFormed(AllPatterns(infos[i].cfc))
    ensures GroupsWellFormed(Written(infos, num))
  {
    hide AllWellFormed, AllPatterns;
  }

  lemma RecordWellFormed(l: Loop)
    requires Sound(l) && LoopWellFormed(l)
    ensures LoopWellFormed(RecordIteration(l))
  {
    hide AllPatterns, AllWellFormed;
    EmptyWellFormed();
  }

  lemma EmptyWellFormed()
    ensures AllWellFormed(AllPatterns(EMPTY))
  {
    NoPatterns();
  }

  lemma ApplyWellFormed(l: Loop, e: Event)
    requires Sound(l) && LoopWellFormed(l)
    ensures LoopWellFormed(Apply(l, e))
  {
    hide AllPatterns, AllWellFormed, Insert, RecordIteration, Written, GroupsWellFormed;
    RecordSound(l);
    RecordWellFormed(l);
    match e {
      case Seen(sym) => InsertWellFormed(l.cfc, sym, COMPRESSION_WINDOW_SIZE);
      case IterationStart =>
      case Dump => WrittenWellFormed(RecordIteration(l).infos, l.num + 1);
    }
  }

  lemma {:induction false} RunWellFormed(es: seq<Event>)
    ensures LoopWellFormed(RunEvents(es))
  {
    hide Apply, LoopWellFormed;
    if es == [] {
      InitialWellFormed();
    } else {
      RunWellFormed(es[..|es| - 1]);
      ApplyWellFormed(RunEvents(es[..|es| - 1]), es[|es| - 1]);
    }
  }

  lemma InitialWellFormed()
    ensures LoopWellFormed(INITIAL)
  {
    EmptyWellFormed();
  }

  lemma {:induction false} ReadBackWellFormed(files: seq<seq<Group>>)
    requires FilesProper(files) && forall i :: 0 <= i < |files| ==> GroupsWellFormed(files[i])
    ensures GroupsWellFormed(ReadBack(files))
  {
    hide GroupsWellFormed, AllProper, Merge;
    if files == [] {
      NoGroupsWellFormed();
    } else {
      ReadBackWellFormed(files[..|files| - 1]);
      MergeWellFormed(ReadBack(files[..|files| - 1]), files[|files| - 1]);
    }
  }

  lemma NoGroupsWellFormed()
    ensures GroupsWellFormed([])
  {
  }

  // ---------- the tables of the merged segments ----------

  /** The instructions of the first `n` iterations, in order. */
  function Flatten(iterations: seq<seq<Symbol>>, n: nat): seq<Symbol>
    requires n <= |iterations|
  {
    if n == 0 then [] else Flatten(iterations, n - 1) + iterations[n - 1]
  }

  ghost function Segments(es: seq<Event>): seq<seq<Group>> {
    RunEvents(es + [Dump]).files
  }

  /** The merged segments meet what the table builder requires. */
  lemma MergedIsIndexable(es: seq<Event>)
    ensures FilesProper(Segments(es)) && WellGrouped(ReadBack(Segments(es))) && GroupsWellFormed(ReadBack(Segments(es)))
  {
    hide WellGrouped, GroupsWellFormed, ReadBack, FilesProper;
    DumpedTraceIsLossless(es);
    RunWellFormed(es + [Dump]);
    ReadBackWellFormed(Segments(es));
  }

  lemma {:induction false} TraceIsFlattened(es: seq<Event>, n: nat)
    requires FilesProper(Segments(es)) && n <= |ObserveAll(es).iterations|
    ensures TraceUpTo(ReadBack(Segments(es)), n) == Flatten(ObserveAll(es).iterations, n)
  {
    hide ReadBack, ControlFlowAt, FilesProper, WellGrouped, ObserveAll, RunEvents;
    if n > 0 {
      TraceIsFlattened(es, n - 1);
      DumpedTraceIsLossless(es);
      assert TextAt(ReadBack(Segments(es)), n - 1) == ObserveAll(es).iterations[n - 1];
    }
  }

  lemma MergedIterationCount(es: seq<Event>)
    requires FilesProper(Segments(es)) && WellGrouped(ReadBack(Segments(es)))
    ensures IterationCount(ReadBack(Segments(es))) == |ObserveAll(es).iterations|
  {
    hide ReadBack, FilesProper, WellGrouped, ObserveAll, RunEvents, TextAt, Recorded, IterationTable, Contains, RepetitionPatterns.Ordered;
    DumpedTraceIsLossless(es);
    var gs := ReadBack(Segments(es));
    var t, n := IterationTable(gs), |ObserveAll(es).iterations|;
    IterationTableExact(gs);
    if t == [] {
      NothingCovered(t);
      assert n > 0 ==> !Recorded(gs, n - 1);
    } else {
      LastCovered(t);
      assert Recorded(gs, t[|t| - 1].last);
      if n > 0 {
        assert Recorded(gs, n - 1);
        CoveredBelow(t, n - 1);
      }
    }
  }

  lemma NothingCovered<T>(t: seq<Entry<T>>)
    requires t == []
    ensures forall n :: !Covered(t, n)
  {
  }

  lemma LastCovered<T>(t: seq<Entry<T>>)
    requires RepetitionPatterns.Ordered(t) && t != []
    ensures Covered(t, t[|t| - 1].last)
  {
    assert Contains(t[|t| - 1], t[|t| - 1].last);
  }

  /**
   For every event sequence, with dumps anywhere: after merging the dumped segments and building the
   tables, the number of instances of an instruction is the number of times it was seen in the
   invocation, and the k-th of them is found in the iteration in which it was seen.
   */
  lemma RecordedInstancesAreFound(es: seq<Event>, invGroup: InvocationGroupCfc, id: Symbol, k: nat)
    requires FilesProper(Segments(es))
    requires invGroup.Precomputed() && invGroup.recorded == ReadBack(Segments(es))
    ensures var iterations := ObserveAll(es).iterations;
            && invGroup.GetNumInstances(id) == Count(Flatten(iterations, |iterations|), id)
            && (k < invGroup.GetNumInstances(id) ==>
                 var n := invGroup.GetIterationNumber(id, k);
                 && 0 <= n < |iterations|
                 && Count(Flatten(iterations, n), id) <= k < Count(Flatten(iterations, n + 1), id))
  {
    hide InvocationGroupCfc.Precomputed, InvocationGroupCfc.GetNumInstances, InvocationGroupCfc.GetIterationNumber, ReadBack,
      FilesProper, ObserveAll, RunEvents, TraceUpTo, Counts, Prefix, IterationCount, InvocationGroupCfc.ContainsInstruction, Flatten, Located;
    MergedIsIndexable(es);
    MergedIterationCount(es);
    var iterations := ObserveAll(es).iterations;
    TraceIsFlattened(es, |iterations|);
    invGroup.NumInstancesExact(id);
    if k < invGroup.GetNumInstances(id) {
      invGroup.IterationNumberExact(id, k);
      var n := invGroup.GetIterationNumber(id, k);
      TraceIsFlattened(es, n);
      TraceIsFlattened(es, n + 1);
    }
  }
}
