/**
 The memory half of the analysis, from the recorded references of two instructions to their dependences:
 recording, chunks, slices and the analysis of the pair.
 */
module MemoryAnalysis {
  import opened Sequences
  import CompressionPatterns
  import opened MemSetEntries
  import opened MemoryTracer
  import opened MemoryTraceStreaming
  import opened AliasTest
  import opened InstanceTables
  import opened InstanceCounts
  import opened InvocationGroups
  import opened CallTraceMerging
  import opened CallTraces
  import opened CallTraceReuse
  import opened CallTraceOrder
  import opened MemSlicing
  import opened DependenceAnalysis

  // ---------- what is recorded is what is streamed ----------

  /** Every access is at least one byte wide and at an address that is not negative. */
  ghost predicate Addressable(a: seq<Access>) {
    forall i :: 0 <= i < |a| ==> a[i].addr >= 0 && a[i].length > 0
  }

  /** However the entries of a recorded trace are cut into blocks, the stream starts with the recorded references. */
  lemma StreamOfRecorded(accesses: seq<Access>, blocks: seq<Block>)
    requires MemoryTraceStreaming.Entries(blocks) == RecordAll(accesses)
    ensures Contiguous(MemoryTraceStreaming.Entries(blocks), 0) && AllValid(MemoryTraceStreaming.Entries(blocks))
    ensures ExpandAll(MemoryTraceStreaming.Entries(blocks)) == accesses
  {
    hide MemoryTraceStreaming.Entries, RecordAll;
    RecordAllRepresents(accesses);
  }

  // ---------- one instruction in one invocation ----------

  /**
   The cache of the call-trace group was built for the calls of `view`; in the invocation of `invGroup` the same
   calls run in the iterations of `other`. The cached instructions are the sub-instructions, and none of them is
   executed by the loop itself.
   */
  ghost predicate CacheReady(callTrace: CallTraceLoopInvocationGroup, invGroup: InvocationGroupCfc, subInstrs: set<InstrID>,
      view: map<InstrID, Call>, other: map<InstrID, Call>, ids: seq<InstrID>)
    reads callTrace, invGroup
  {
    && invGroup.Precomputed() && Distinct(ids) && SameCalls(view, other)
    && (forall id <- ids :: Active(callTrace.calls, invGroup, id) ==> LookupsDefined(callTrace.calls[id], invGroup.GetNumInstances(id)))
    && StreamsOf(other, callTrace.calls, invGroup, ids)
    && (forall s :: CacheExact(CachedFor(callTrace.callTraceCache, s), view, ids, s))
    && callTrace.callTraceCache.Keys <= subInstrs
    && (forall s <- subInstrs :: !invGroup.ContainsInstruction(s))
    && (forall s <- callTrace.callTraceCache.Keys ::
         s in callTrace.constantCallIDCache && (callTrace.constantCallIDCache[s] <==> SameCall(callTrace.callTraceCache[s])))
  }

  /** How often the instruction is executed in each iteration of the invocation, by the loop or in its calls. */
  ghost function PerIteration(id: InstrID, invGroup: InvocationGroupCfc, other: map<InstrID, Call>, ids: seq<InstrID>): int -> nat
    requires invGroup.Precomputed() && Distinct(ids) && forall c <- other.Keys :: CallOk(other[c])
    reads invGroup
  {
    if invGroup.ContainsInstruction(id) then Counts(invGroup.recorded, id) else SubCounts(other, ids, id)
  }

  /** The instruction that made each access: the instruction itself, or the call in which it was executed. */
  ghost function Makers(id: InstrID, invGroup: InvocationGroupCfc, other: map<InstrID, Call>, run: seq<CurrInst>): int -> InstrID
    requires invGroup.Precomputed()
    reads invGroup
  {
    if invGroup.ContainsInstruction(id) then Always(id) else Callers(other, run, id)
  }

  ghost function Always(id: InstrID): int -> InstrID {
    k => id
  }

  /** The calls of the invocation in the order in which they ran, iteration after iteration. */
  ghost predicate RunOrder(run: seq<CurrInst>, other: map<InstrID, Call>, ids: seq<InstrID>) {
    Ran(run, other, ids) && InOrder(run, 0)
  }

  /** The calls that execute the instruction ran in the order in which the cache was built. */
  ghost predicate RanAsBuilt(id: InstrID, view: map<InstrID, Call>, other: map<InstrID, Call>, ids: seq<InstrID>, run: seq<CurrInst>) {
    VisitingOrder(Moved(view, Executing(other, run, id)), ids)
  }

  /** The number of accesses of the instruction in the invocation. */
  ghost predicate InstancesAre(n: nat, id: InstrID, invGroup: InvocationGroupCfc, callTrace: CallTraceLoopInvocationGroup)
    requires invGroup.Precomputed()
    reads invGroup, callTrace
  {
    if invGroup.ContainsInstruction(id) then n == invGroup.GetNumInstances(id)
    else Covers(CachedFor(callTrace.callTraceCache, id), n)
  }

  method GetNumInstancesInInvocation(id: InstrID, invGroup: InvocationGroupCfc, callTrace: CallTraceLoopInvocationGroup,
      subInstrs: set<InstrID>, ghost view: map<InstrID, Call>, ghost other: map<InstrID, Call>, ghost ids: seq<InstrID>) returns (n: nat)
    requires CacheReady(callTrace, invGroup, subInstrs, view, other, ids)
    ensures InstancesAre(n, id, invGroup, callTrace)
  {
    hide InvocationGroupCfc.Precomputed, InvocationGroupCfc.GetNumInstances, StreamsOf, SameCalls, LookupsDefined, Active, CacheExact;
    if id !in subInstrs {
      n := invGroup.GetNumInstances(id);
      if !invGroup.ContainsInstruction(id) {
        NoInstances(invGroup, id);
      }
    } else {
      var es := CachedFor(callTrace.callTraceCache, id);
      CacheCovers(es, view, other, ids, id);
      n := if es == [] then 0 else es[|es| - 1].end + 1;
    }
  }

  lemma NoInstances(invGroup: InvocationGroupCfc, id: InstrID)
    requires invGroup.Precomputed() && !invGroup.ContainsInstruction(id)
    ensures invGroup.GetNumInstances(id) == 0
  {
  }

  lemma CacheCovers(es: seq<CacheEntry>, view: map<InstrID, Call>, other: map<InstrID, Call>, ids: seq<InstrID>, id: InstrID)
    requires Distinct(ids) && SameCalls(view, other) && CacheExact(es, view, ids, id)
    ensures var n := if es == [] then 0 else es[|es| - 1].end + 1; n >= 0 && Covers(es, n)
  {
    hide CallOk, Visits, Initial, CallTraceMerging.Entries, Executed, Executing;
    InitialCurrent(view, ids);
    EntriesCover(view, Visits(view, Initial(view, ids)), id);
  }

  /** Every piece is attributed as its accesses are. */
  lemma {:induction false} PieceIds(slice: seq<TaggedEntry>, i: nat)
    requires Pieces(slice) && i < |slice|
    ensures exists j :: 0 <= j < |Tagged(slice)| && Tagged(slice)[j].effectiveInstrID == slice[i].effectiveInstrID
  {
    hide Tagged;
    var a := NthAccess(slice[i], 0);
    assert AccessOf(slice[i], a);
    TaggedMember(slice, a);
    var j :| 0 <= j < |Tagged(slice)| && Tagged(slice)[j] == a;
  }

  /** Accesses with the same attribution come from pieces with the same attribution. */
  lemma OneIdOfTags(slice: seq<TaggedEntry>, id: InstrID)
    requires Pieces(slice) && forall j :: 0 <= j < |Tagged(slice)| ==> Tagged(slice)[j].effectiveInstrID == id
    ensures OneId(slice)
  {
    hide Tagged;
    forall i, j | 0 <= i < |slice| && 0 <= j < |slice|
      ensures slice[i].effectiveInstrID == slice[j].effectiveInstrID
    {
      PieceIds(slice, i);
      PieceIds(slice, j);
    }
  }

  /** Pieces of addressable accesses are proper runs of addresses that are not negative. */
  lemma ProperPieces(slice: seq<TaggedEntry>, unread: seq<Access>, n: nat, c: int -> nat)
    requires Pieces(slice) && TaggedBy(Tagged(slice), unread, n, c) && Addressable(unread)
    ensures ProperSlice(slice)
  {
    hide Tagged, Located;
    forall i | 0 <= i < |slice|
      ensures slice[i].entry.Proper() && NonNegative(slice[i].entry)
    {
      var e := slice[i].entry;
      var k := if e.stride >= 0 then 0 else e.end - e.start;
      var a := NthAccess(slice[i], k);
      assert AccessOf(slice[i], a);
      TaggedMember(slice, a);
      var j :| 0 <= j < |Tagged(slice)| && Tagged(slice)[j] == a;
      assert a.access == unread[j];
      ExtentsReached(e);
    }
  }

  /** Is the instruction one of the loop, or always called from the same place? */
  predicate AttributedToOne(id: InstrID, subInstrs: set<InstrID>, constantCallIDCache: map<InstrID, bool>) {
    id !in subInstrs || (id in constantCallIDCache && constantCallIDCache[id])
  }

  lemma AttributionOfLoop(slice: seq<TaggedEntry>, unread: seq<Access>, n: nat, c: int -> nat, id: InstrID)
    requires Pieces(slice) && LoopTagged(Tagged(slice), unread, n, c, id)
    ensures OneId(slice) && TaggedWith(Tagged(slice), unread, n, c, Always(id))
  {
    hide Tagged, Located;
    OneIdOfTags(slice, id);
  }

  lemma AttributionOfCalls(slice: seq<TaggedEntry>, unread: seq<Access>, n: nat, es: seq<CacheEntry>, iterations: seq<nat>)
    requires Pieces(slice) && |iterations| == |es| && CallTagged(Tagged(slice), unread, n, es, iterations) && SameCall(es)
    ensures OneId(slice)
  {
    hide Tagged;
    if n > 0 {
      assert TagOfEntry(Tagged(slice)[0], unread[0], 0, es, iterations);
      forall j | 0 <= j < n
        ensures Tagged(slice)[j].effectiveInstrID == es[0].callId
      {
        assert TagOfEntry(Tagged(slice)[j], unread[j], j, es, iterations);
      }
      OneIdOfTags(slice, es[0].callId);
    } else {
      OneIdOfTags(slice, 0);
    }
  }

  /** The iterations of the entries, in the invocation of `invGroup`. */
  lemma OtherIterations(es: seq<CacheEntry>, callTrace: CallTraceLoopInvocationGroup, invGroup: InvocationGroupCfc,
      other: map<InstrID, Call>, ids: seq<InstrID>) returns (iterations: seq<nat>)
    requires invGroup.Precomputed() && Named(es, other)
    requires forall id <- ids :: Active(callTrace.calls, invGroup, id) ==> LookupsDefined(callTrace.calls[id], invGroup.GetNumInstances(id))
    requires StreamsOf(other, callTrace.calls, invGroup, ids)
    ensures EntryIterations(es, invGroup, iterations)
  {
    hide InvocationGroupCfc.Precomputed, InvocationGroupCfc.GetNumInstances, InvocationGroupCfc.GetIterationNumber, LookupsDefined,
      CallOk, CountsAre, Active;
    iterations := [];
    for i := 0 to |es|
      invariant |iterations| == i
      invariant forall j :: 0 <= j < i ==>
                  && es[j].callInstance < invGroup.GetNumInstances(es[j].callId)
                  && iterations[j] == invGroup.GetIterationNumber(es[j].callId, es[j].callInstance)
    {
      ActiveInCalls(callTrace.calls, invGroup, es[i].callId);
      assert Streams(other[es[i].callId], callTrace.calls[es[i].callId], invGroup, es[i].callId);
      iterations := iterations + [invGroup.GetIterationNumber(es[i].callId, es[i].callInstance)];
    }
  }

  /**
   The slice of an instruction in an invocation: its next `n` recorded accesses, each with the iteration that executed
   it if and only if the cache names its calls in iteration order, and each also with the instruction that made it if
   and only if its calls ran as in the invocation that the cache was built for, as a constant call always does.
   */
  method SliceOfInstruction(id: InstrID, n: nat, streamer: MemoryTraceStreamer, invGroup: InvocationGroupCfc,
      callTrace: CallTraceLoopInvocationGroup, subInstrs: set<InstrID>,
      ghost view: map<InstrID, Call>, ghost other: map<InstrID, Call>, ghost ids: seq<InstrID>, ghost run: seq<CurrInst>)
      returns (slice: seq<TaggedEntry>)
    requires streamer.Valid() && AllValid(streamer.Pending()) && n <= |ExpandAll(streamer.Pending())|
    requires CacheReady(callTrace, invGroup, subInstrs, view, other, ids) && InstancesAre(n, id, invGroup, callTrace)
    requires RunOrder(run, other, ids) && forall c <- other.Keys :: CallOk(other[c])
    modifies streamer
    ensures streamer.Valid() && AllValid(streamer.Pending())
    ensures ExpandAll(streamer.Pending()) == old(ExpandAll(streamer.Pending()))[n..]
    ensures Pieces(slice)
    ensures Named(CachedFor(callTrace.callTraceCache, id), other)
    ensures TaggedBy(Tagged(slice), old(ExpandAll(streamer.Pending())), n, PerIteration(id, invGroup, other, ids))
            <==> invGroup.ContainsInstruction(id) || InIterationOrder(CachedFor(callTrace.callTraceCache, id), other)
    ensures TaggedWith(Tagged(slice), old(ExpandAll(streamer.Pending())), n, PerIteration(id, invGroup, other, ids), Makers(id, invGroup, other, run))
            <==> invGroup.ContainsInstruction(id) || RanAsBuilt(id, view, other, ids, run)
    ensures id !in subInstrs || (id in callTrace.constantCallIDCache && callTrace.constantCallIDCache[id]) ==>
              OneId(slice) && (invGroup.ContainsInstruction(id) || RanAsBuilt(id, view, other, ids, run))
  {
    hide MemSet.Valid, MemSet.Unread, MemoryTraceStreamer.Valid, InvocationGroupCfc.Precomputed, Pieces, ExpandAll, TaggedBy, TaggedWith, OneId,
      LoopTagged, CallTagged, Tagged, InIterationOrder, CacheReady, PerIteration, Makers, Covers, EntryIterations, InstancesAre,
      MemoryTraceStreamer.Pending, RunOrder, RanAsBuilt;
    ghost var pending := ExpandAll(streamer.Pending());
    var chunk, ok := streamer.GetNextChunk(n, false);
    PendingValid(streamer);
    assert pending[..n] == ExpandAll(chunk) && pending[n..] == ExpandAll(streamer.Pending());
    var memSet := new MemSet(chunk);
    memSet.InitialiseSliceIterator();
    ghost var es := CachedFor(callTrace.callTraceCache, id);
    ghost var iterations := ReadyToSlice(id, n, invGroup, callTrace, subInstrs, view, other, ids);
    slice := memSet.GetInvocationSliceWithIterTags(id, invGroup, callTrace, iterations, n);
    SliceExact(slice, id, n, pending, iterations, invGroup, callTrace, subInstrs, view, other, ids, run);
  }

  lemma PendingValid(streamer: MemoryTraceStreamer)
    requires streamer.Valid()
    ensures AllValid(streamer.Pending())
  {
  }

  /** What the slicer needs. */
  lemma ReadyToSlice(id: InstrID, n: nat, invGroup: InvocationGroupCfc, callTrace: CallTraceLoopInvocationGroup, subInstrs: set<InstrID>,
      view: map<InstrID, Call>, other: map<InstrID, Call>, ids: seq<InstrID>) returns (iterations: seq<nat>)
    requires CacheReady(callTrace, invGroup, subInstrs, view, other, ids) && InstancesAre(n, id, invGroup, callTrace)
    ensures var es := CachedFor(callTrace.callTraceCache, id);
            && invGroup.Precomputed() && Named(es, other) && EntryIterations(es, invGroup, iterations) && |iterations| == |es|
            && if invGroup.ContainsInstruction(id) then n == invGroup.GetNumInstances(id) else Covers(es, n)
  {
    hide InvocationGroupCfc.Precomputed, InvocationGroupCfc.GetNumInstances, StreamsOf, SameCalls, LookupsDefined, Active, CacheExact,
      AllLocated, InIterationOrder, Covers, EntryIterations;
    var es := CachedFor(callTrace.callTraceCache, id);
    ReusedCacheExact(es, view, other, ids, id);
    iterations := OtherIterations(es, callTrace, invGroup, other, ids);
    EntryIterationsLength(es, invGroup, iterations);
  }

  /** What the slicer's tags mean. */
  lemma SliceExact(slice: seq<TaggedEntry>, id: InstrID, n: nat, pending: seq<Access>, iterations: seq<nat>, invGroup: InvocationGroupCfc,
      callTrace: CallTraceLoopInvocationGroup, subInstrs: set<InstrID>,
      view: map<InstrID, Call>, other: map<InstrID, Call>, ids: seq<InstrID>, run: seq<CurrInst>)
    requires CacheReady(callTrace, invGroup, subInstrs, view, other, ids) && InstancesAre(n, id, invGroup, callTrace)
    requires RunOrder(run, other, ids) && forall c <- other.Keys :: CallOk(other[c])
    requires Pieces(slice) && n <= |pending| && Named(CachedFor(callTrace.callTraceCache, id), other)
    requires if invGroup.ContainsInstruction(id) then
               LoopTagged(Tagged(slice), pending[..n], n, Counts(invGroup.recorded, id), id)
             else
               && EntryIterations(CachedFor(callTrace.callTraceCache, id), invGroup, iterations)
               && |iterations| == |CachedFor(callTrace.callTraceCache, id)|
               && CallTagged(Tagged(slice), pending[..n], n, CachedFor(callTrace.callTraceCache, id), iterations)
    ensures TaggedBy(Tagged(slice), pending, n, PerIteration(id, invGroup, other, ids))
            <==> invGroup.ContainsInstruction(id) || InIterationOrder(CachedFor(callTrace.callTraceCache, id), other)
    ensures TaggedWith(Tagged(slice), pending, n, PerIteration(id, invGroup, other, ids), Makers(id, invGroup, other, run))
            <==> invGroup.ContainsInstruction(id) || RanAsBuilt(id, view, other, ids, run)
    ensures id !in subInstrs || (id in callTrace.constantCallIDCache && callTrace.constantCallIDCache[id]) ==>
              OneId(slice) && (invGroup.ContainsInstruction(id) || RanAsBuilt(id, view, other, ids, run))
  {
    hide InvocationGroupCfc.Precomputed, InvocationGroupCfc.GetNumInstances, StreamsOf, SameCalls, LookupsDefined, Active, CacheExact,
      InIterationOrder, Covers, EntryIterations, LoopTagged, CallTagged, Tagged, TaggedBy, TaggedWith, OneId, SubCounts, Counts, CallOk, Pieces,
      SameCall, Named, VisitingOrder, Executing, Moved, Ran, InOrder, Callers, Always;
    var es := CachedFor(callTrace.callTraceCache, id);
    if invGroup.ContainsInstruction(id) {
      AttributionOfLoop(slice, pending[..n], n, Counts(invGroup.recorded, id), id);
      TaggedInPrefix(Tagged(slice), pending, n, Counts(invGroup.recorded, id), Always(id));
    } else {
      CallTagsExact(Tagged(slice), pending[..n], n, es, iterations, view, other, callTrace.calls, invGroup, ids, id);
      CallTagsWith(Tagged(slice), pending[..n], n, es, iterations, view, other, run, callTrace.calls, invGroup, ids, id);
      TaggedInPrefix(Tagged(slice), pending, n, SubCounts(other, ids, id), Callers(other, run, id));
      if AttributedToOne(id, subInstrs, callTrace.constantCallIDCache) {
        OneCaller(es, callTrace, subInstrs, id);
        AttributionOfCalls(slice, pending[..n], n, es, iterations);
        ConstantCallRight(es, view, other, ids, id, run);
        ReusedCallersExact(es, view, other, ids, id, run);
      }
    }
  }

  lemma TaggedInPrefix(t: seq<TaggedAccess>, pending: seq<Access>, n: nat, c: int -> nat, maker: int -> InstrID)
    requires n <= |pending|
    ensures TaggedBy(t, pending[..n], n, c) <==> TaggedBy(t, pending, n, c)
    ensures TaggedWith(t, pending[..n], n, c, maker) <==> TaggedWith(t, pending, n, c, maker)
    ensures TaggedWith(t, pending, n, c, maker) ==> TaggedBy(t, pending, n, c)
  {
    hide Located;
  }

  /** In the invocation that the cache was built for, the calls of an iteration need to have run by the list of calls. */
  lemma RanAsBuiltInOwn(id: InstrID, view: map<InstrID, Call>, ids: seq<InstrID>, run: seq<CurrInst>)
    requires Distinct(ids) && RunOrder(run, view, ids) && forall c <- view.Keys :: CallOk(view[c])
    ensures RanAsBuilt(id, view, view, ids, run) <==> ListOrder(Executing(view, run, id), ids)
  {
    hide CallOk, Visits, Initial, Ran, InOrder, VisitingOrder, Executing, Moved, RightCallers, ListOrder, Current, CallTraceMerging.Entries;
    VisitsInList(view, ids);
    var es := CallTraceMerging.Entries(view, Visits(view, Initial(view, ids)), id);
    assert CacheExact(es, view, ids, id);
    CallersInListOrder(es, view, ids, id, run);
    ReusedCallersExact(es, view, view, ids, id, run);
  }

  lemma OneCaller(es: seq<CacheEntry>, callTrace: CallTraceLoopInvocationGroup, subInstrs: set<InstrID>, id: InstrID)
    requires es == CachedFor(callTrace.callTraceCache, id) && AttributedToOne(id, subInstrs, callTrace.constantCallIDCache)
    requires callTrace.callTraceCache.Keys <= subInstrs
    requires forall s <- callTrace.callTraceCache.Keys ::
               s in callTrace.constantCallIDCache && (callTrace.constantCallIDCache[s] <==> SameCall(callTrace.callTraceCache[s]))
    ensures SameCall(es)
  {
  }

  /** A cache that has just been built is ready for its own invocation, with its calls in iteration order. */
  lemma BuiltForThis(callTrace: CallTraceLoopInvocationGroup, invGroup: InvocationGroupCfc, subInstrs: set<InstrID>,
      view: map<InstrID, Call>, ids: seq<InstrID>)
    requires invGroup.Precomputed() && Distinct(ids)
    requires forall id <- ids :: Active(callTrace.calls, invGroup, id) ==> LookupsDefined(callTrace.calls[id], invGroup.GetNumInstances(id))
    requires StreamsOf(view, callTrace.calls, invGroup, ids) && forall id <- view.Keys :: CallOk(view[id])
    requires forall s :: CacheExact(CachedFor(callTrace.callTraceCache, s), view, ids, s)
    requires forall s <- callTrace.callTraceCache.Keys ::
               s in callTrace.constantCallIDCache && (callTrace.constantCallIDCache[s] <==> SameCall(callTrace.callTraceCache[s]))
    requires callTrace.callTraceCache.Keys <= subInstrs && forall s <- subInstrs :: !invGroup.ContainsInstruction(s)
    ensures CacheReady(callTrace, invGroup, subInstrs, view, view, ids)
    ensures forall s :: Named(CachedFor(callTrace.callTraceCache, s), view) && InIterationOrder(CachedFor(callTrace.callTraceCache, s), view)
  {
    hide InvocationGroupCfc.Precomputed, InvocationGroupCfc.GetNumInstances, StreamsOf, LookupsDefined, Active, CacheExact, CallOk,
      SameCall, IterationOf;
    forall s
      ensures Named(CachedFor(callTrace.callTraceCache, s), view) && InIterationOrder(CachedFor(callTrace.callTraceCache, s), view)
    {
      BuiltInOrder(CachedFor(callTrace.callTraceCache, s), view, ids, s);
    }
  }

  // ---------- the pair ----------

  /** The pair names the instructions of two accesses that touch a common byte in different iterations. */
  ghost predicate ConflictOfTraces(a: seq<Access>, na: nat, ca: int -> nat, wa: int -> InstrID,
      b: seq<Access>, nb: nat, cb: int -> nat, wb: int -> InstrID, p: (InstrID, InstrID))
    requires na <= |a| && nb <= |b|
  {
    exists j, k :: 0 <= j < na && 0 <= k < nb && TracePair(a, j, ca, wa, b, k, cb, wb, p)
  }

  /**
   The analysis of a pair of slices, stopping at the first report if one pair is enough: the recorded pairs are exactly
   the instructions that made the accesses of the uncompressed traces that touch a common byte in different iterations.
   */
  method AnalyseSlices(first: InstrID, second: InstrID, stores: seq<TaggedEntry>, loads: seq<TaggedEntry>, recordReverse: bool,
      subInstrs: set<InstrID>, constantCallIDCache: map<InstrID, bool>,
      ghost a: seq<Access>, ghost na: nat, ghost ca: int -> nat, ghost wa: int -> InstrID,
      ghost b: seq<Access>, ghost nb: nat, ghost cb: int -> nat, ghost wb: int -> InstrID)
      returns (pairs: set<(InstrID, InstrID)>, pairComplete: bool)
    requires ProperSlice(stores) && ProperSlice(loads) && Comparable(stores, loads) && Pieces(stores) && Pieces(loads)
    requires TaggedWith(Tagged(stores), a, na, ca, wa) && TaggedWith(Tagged(loads), b, nb, cb, wb)
    requires first !in subInstrs || (first in constantCallIDCache && constantCallIDCache[first]) ==> OneId(stores)
    requires second !in subInstrs || (second in constantCallIDCache && constantCallIDCache[second]) ==> OneId(loads)
    ensures na <= |a| && nb <= |b|
    ensures forall p :: p in pairs <==>
      || ConflictOfTraces(a, na, ca, wa, b, nb, cb, wb, p)
      || (recordReverse && ConflictOfTraces(a, na, ca, wa, b, nb, cb, wb, Flip(p)))
    ensures pairComplete <==>
      && (first !in subInstrs || (first in constantCallIDCache && constantCallIDCache[first]))
      && (second !in subInstrs || (second in constantCallIDCache && constantCallIDCache[second]))
      && exists p :: ConflictOfTraces(a, na, ca, wa, b, nb, cb, wb, p)
  {
    hide Tagged, TaggedWith, AllJustified, AllRecorded, TracePair, Comparable, OneId, Reported, NothingReported, ConflictPair, ProperSlice, Pieces;
    var oneIsEnough := AttributedToOne(first, subInstrs, constantCallIDCache) && AttributedToOne(second, subInstrs, constantCallIDCache);
    ComparableSized(stores, loads);
    pairs, pairComplete := AnalysePair(stores, loads, recordReverse, oneIsEnough);
    TaggedLengths(stores, loads, a, na, ca, wa, b, nb, cb, wb);
    StopsAtConflict(stores, loads);
    forall p
      ensures ConflictPair(stores, loads, p) <==> ConflictOfTraces(a, na, ca, wa, b, nb, cb, wb, p)
    {
      ConflictsOfTraces(stores, loads, a, na, ca, wa, b, nb, cb, wb, p);
    }
    forall p
      ensures p in pairs <==>
        || ConflictOfTraces(a, na, ca, wa, b, nb, cb, wb, p)
        || (recordReverse && ConflictOfTraces(a, na, ca, wa, b, nb, cb, wb, Flip(p)))
    {
      RecordedPairsOfTraces(stores, loads, pairs, recordReverse, a, na, ca, wa, b, nb, cb, wb, p);
    }
  }

  lemma ComparableSized(stores: seq<TaggedEntry>, loads: seq<TaggedEntry>)
    requires ProperSlice(stores) && ProperSlice(loads) && Comparable(stores, loads)
    ensures Sized(stores, loads)
  {
  }

  lemma TaggedLengths(stores: seq<TaggedEntry>, loads: seq<TaggedEntry>, a: seq<Access>, na: nat, ca: int -> nat, wa: int -> InstrID,
      b: seq<Access>, nb: nat, cb: int -> nat, wb: int -> InstrID)
    requires Pieces(stores) && Pieces(loads)
    requires TaggedWith(Tagged(stores), a, na, ca, wa) && TaggedWith(Tagged(loads), b, nb, cb, wb)
    ensures |Tagged(stores)| == na <= |a| && |Tagged(loads)| == nb <= |b|
  {
  }
}
