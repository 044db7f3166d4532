/**
 Both halves together, for the instructions of the loop itself: from the recorded events and the recorded
 references to the pairs, in terms of the iterations that were executed.
 */
module WholeAnalysis {
  import opened Sequences
  import opened CompressionPatterns
  import opened IterationGroups
  import opened IterationRecording
  import opened InstanceTables
  import opened InstanceCounts
  import opened InvocationGroups
  import opened EndToEnd
  import opened MemSetEntries
  import opened MemSlicing
  import opened DependenceAnalysis
  import opened MemoryAnalysis

  /** The merged segments of the invocation. */
  ghost function Merged(es: seq<Event>): seq<Group> {
    DumpedTraceIsLossless(es);
    ReadBack(Segments(es))
  }

  /** Execution `k` of the instruction, counting from 0, happened in iteration `n`. */
  ghost predicate ExecutedIn(iterations: seq<seq<Symbol>>, id: Symbol, k: int, n: int) {
    0 <= n < |iterations| && Count(Flatten(iterations, n), id) <= k < Count(Flatten(iterations, n + 1), id)
  }

  /** An instance located with the merged dumps was executed in that iteration, and the other way round. */
  lemma LocatedIsExecuted(es: seq<Event>, id: Symbol, k: nat, n: int)
    ensures Located(Counts(Merged(es), id), k, n) <==> ExecutedIn(ObserveAll(es).iterations, id, k, n)
  {
    hide ReadBack, FilesProper, ObserveAll, RunEvents, TraceUpTo, Flatten, Recorded, ControlFlowAt, WellGrouped;
    DumpedTraceIsLossless(es);
    var gs, iterations := Merged(es), ObserveAll(es).iterations;
    if 0 <= n < |iterations| {
      TraceIsFlattened(es, n);
      TraceIsFlattened(es, n + 1);
      PrefixCountsTrace(gs, id, n);
      PrefixCountsTrace(gs, id, n + 1);
    } else if n >= 0 {
      FlowAbsent(gs, n);
    }
  }

  /** The j-th access of one instruction and the k-th of the other touch a common byte, in different executed iterations. */
  ghost predicate ExecutedConflict(iterations: seq<seq<Symbol>>, first: Symbol, a: seq<Access>, second: Symbol, b: seq<Access>) {
    exists j, k, m, n ::
      && 0 <= j < |a| && 0 <= k < |b| && BytesMeet(a[j], b[k])
      && ExecutedIn(iterations, first, j, m) && ExecutedIn(iterations, second, k, n) && m != n
  }

  lemma ConflictWasExecuted(es: seq<Event>, first: Symbol, a: seq<Access>, second: Symbol, b: seq<Access>, p: (Symbol, Symbol))
    ensures var gs := Merged(es);
            ConflictOfTraces(a, |a|, Counts(gs, first), Always(first), b, |b|, Counts(gs, second), Always(second), p)
            <==> p == (first, second) && ExecutedConflict(ObserveAll(es).iterations, first, a, second, b)
  {
    hide Merged, ObserveAll, Located, ExecutedIn, BytesMeet, Counts;
    var gs, iterations := Merged(es), ObserveAll(es).iterations;
    var ca, cb := Counts(gs, first), Counts(gs, second);
    if ConflictOfTraces(a, |a|, ca, Always(first), b, |b|, cb, Always(second), p) {
      var j, k :| 0 <= j < |a| && 0 <= k < |b| && TracePair(a, j, ca, Always(first), b, k, cb, Always(second), p);
      var m, n :| Located(ca, j, m) && Located(cb, k, n) && m != n;
      LocatedIsExecuted(es, first, j, m);
      LocatedIsExecuted(es, second, k, n);
    }
    if p == (first, second) && ExecutedConflict(iterations, first, a, second, b) {
      var j, k, m, n :|
        && 0 <= j < |a| && 0 <= k < |b| && BytesMeet(a[j], b[k])
        && ExecutedIn(iterations, first, j, m) && ExecutedIn(iterations, second, k, n) && m != n;
      LocatedIsExecuted(es, first, j, m);
      LocatedIsExecuted(es, second, k, n);
      assert TracesConflict(a, j, ca, b, k, cb);
      assert TracePair(a, j, ca, Always(first), b, k, cb, Always(second), p);
    }
  }

  /**
   For every event sequence, with dumps anywhere, and for two instructions of the loop: `a` and `b` are the references
   recorded for all their executions, and the slices are those that the tables of the merged dumps give. Then the pairs
   recorded by the analysis are the two instructions, and their reverse when asked for, if and only if they touched a
   common byte in different iterations of the loop as it was executed.
   */
  lemma PairsOfRun(es: seq<Event>, first: Symbol, a: seq<Access>, stores: seq<TaggedEntry>, second: Symbol, b: seq<Access>, loads: seq<TaggedEntry>,
      pairs: set<(Symbol, Symbol)>, recordReverse: bool, p: (Symbol, Symbol))
    requires Pieces(stores) && Pieces(loads) && ProperSlice(stores) && ProperSlice(loads) && Comparable(stores, loads)
    requires var gs := Merged(es);
             && TaggedWith(Tagged(stores), a, |a|, Counts(gs, first), Always(first))
             && TaggedWith(Tagged(loads), b, |b|, Counts(gs, second), Always(second))
    requires AllJustified(pairs, stores, loads, recordReverse) && AllRecorded(pairs, stores, loads, |loads|, recordReverse)
    ensures p in pairs <==>
      && (p == (first, second) || (recordReverse && p == (second, first)))
      && ExecutedConflict(ObserveAll(es).iterations, first, a, second, b)
  {
    hide Merged, ObserveAll, Tagged, TaggedWith, AllJustified, AllRecorded, TracePair, Comparable, ProperSlice, Pieces,
      ExecutedConflict, ConflictOfTraces, Counts;
    var gs := Merged(es);
    ConflictWasExecuted(es, first, a, second, b, p);
    ConflictWasExecuted(es, first, a, second, b, Flip(p));
    RecordedPairsOfTraces(stores, loads, pairs, recordReverse, a, |a|, Counts(gs, first), Always(first), b, |b|, Counts(gs, second), Always(second), p);
    ConflictIs(a, |a|, Counts(gs, first), Always(first), b, |b|, Counts(gs, second), Always(second), p);
    ConflictIs(a, |a|, Counts(gs, first), Always(first), b, |b|, Counts(gs, second), Always(second), Flip(p));
  }

  lemma ConflictIs(a: seq<Access>, na: nat, ca: int -> nat, wa: int -> Symbol, b: seq<Access>, nb: nat, cb: int -> nat, wb: int -> Symbol, p: (Symbol, Symbol))
    requires na <= |a| && nb <= |b|
    ensures ConflictOfTraces(a, na, ca, wa, b, nb, cb, wb, p)
            <==> exists j, k :: 0 <= j < na && 0 <= k < nb && TracePair(a, j, ca, wa, b, k, cb, wb, p)
  {
  }
}
