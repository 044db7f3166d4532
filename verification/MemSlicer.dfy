/** Cutting the memory trace of an instruction into the accesses of single iterations. */
module MemSlicing {
  import opened Sequences
  import CompressionPatterns
  import opened MemSetEntries
  import opened RepetitionPatterns
  import opened IterationGroups
  import opened InstanceTables
  import opened InstanceCounts
  import opened InvocationGroups
  import opened CallTraceMerging
  import opened CallTraces
  import opened CallTraceReuse
  import opened CallTraceOrder

  /** A piece of a memory trace that lies in one iteration. */
  datatype TaggedEntry = TaggedEntry(entry: MemSetEntry, iterationNumber: nat, effectiveInstrID: CompressionPatterns.Symbol)

  /** One access with the iteration and the instruction it is attributed to. */
  datatype TaggedAccess = TaggedAccess(access: Access, iterationNumber: nat, effectiveInstrID: CompressionPatterns.Symbol)

  ghost predicate Pieces(slice: seq<TaggedEntry>) {
    forall i :: 0 <= i < |slice| ==> slice[i].entry.Valid()
  }

  ghost function TaggedPiece(t: TaggedEntry): (r: seq<TaggedAccess>)
    requires t.entry.Valid()
    ensures |r| == t.entry.NumInstances()
  {
    seq(t.entry.NumInstances(), i requires 0 <= i < t.entry.NumInstances() =>
      TaggedAccess(t.entry.Expand()[i], t.iterationNumber, t.effectiveInstrID))
  }

  /** The accesses of a slice, in order, each with its tags. */
  ghost function Tagged(slice: seq<TaggedEntry>): seq<TaggedAccess>
    requires Pieces(slice)
  {
    if slice == [] then [] else Tagged(slice[..|slice| - 1]) + TaggedPiece(slice[|slice| - 1])
  }

  lemma TaggedSnoc(slice: seq<TaggedEntry>, t: TaggedEntry)
    requires Pieces(slice) && t.entry.Valid()
    ensures Pieces(slice + [t]) && Tagged(slice + [t]) == Tagged(slice) + TaggedPiece(t)
  {
    assert (slice + [t])[..|slice + [t]| - 1] == slice;
  }

  /** `r` is `slice` followed by the first `n` accesses of `unread`, all with the same tags. */
  ghost predicate Extends(slice: seq<TaggedEntry>, r: seq<TaggedEntry>, unread: seq<Access>, n: nat, iteration: nat, id: CompressionPatterns.Symbol)
    requires Pieces(slice) && Pieces(r)
  {
    && n <= |unread| && |Tagged(r)| == |Tagged(slice)| + n
    && Tagged(r)[..|Tagged(slice)|] == Tagged(slice)
    && forall j :: 0 <= j < n ==> Tagged(r)[|Tagged(slice)| + j] == TaggedAccess(unread[j], iteration, id)
  }

  lemma ExtendsNone(slice: seq<TaggedEntry>, unread: seq<Access>, iteration: nat, id: CompressionPatterns.Symbol)
    requires Pieces(slice)
    ensures Extends(slice, slice, unread, 0, iteration, id)
  {
  }

  lemma ExtendsPiece(slice: seq<TaggedEntry>, r: seq<TaggedEntry>, unread: seq<Access>, n: nat, t: TaggedEntry, k: nat)
    requires Pieces(slice) && Pieces(r) && Extends(slice, r, unread, n, t.iterationNumber, t.effectiveInstrID)
    requires t.entry.Valid() && n + k <= |unread| && t.entry.Expand() == unread[n..n + k]
    ensures Pieces(r + [t]) && Extends(slice, r + [t], unread, n + k, t.iterationNumber, t.effectiveInstrID)
  {
    hide Tagged, TaggedPiece, MemSetEntry.Expand;
    TaggedSnoc(r, t);
    PieceTagged(t);
    forall j | n <= j < n + k
      ensures Tagged(r + [t])[|Tagged(slice)| + j] == TaggedAccess(unread[j], t.iterationNumber, t.effectiveInstrID)
    {
      assert Tagged(r + [t])[|Tagged(slice)| + j] == TaggedPiece(t)[j - n];
      assert t.entry.Expand()[j - n] == unread[j];
    }
  }

  /** Each access is attributed to the iteration that `c` assigns it to. */
  ghost predicate LoopTagged(t: seq<TaggedAccess>, unread: seq<Access>, n: nat, c: int -> nat, id: CompressionPatterns.Symbol) {
    |t| == n <= |unread| && forall j :: 0 <= j < n ==>
      t[j].access == unread[j] && t[j].effectiveInstrID == id && Located(c, j, t[j].iterationNumber)
  }

  lemma LoopTaggedMore(slice: seq<TaggedEntry>, r: seq<TaggedEntry>, unread: seq<Access>, n: nat, k: nat,
      c: int -> nat, iteration: nat, id: CompressionPatterns.Symbol)
    requires Pieces(slice) && Pieces(r) && n + k <= |unread|
    requires LoopTagged(Tagged(slice), unread, n, c, id) && Extends(slice, r, unread[n..], k, iteration, id)
    requires Prefix(c, iteration) == n && Prefix(c, iteration + 1) == n + k
    ensures LoopTagged(Tagged(r), unread, n + k, c, id)
  {
    hide Tagged, Prefix;
    forall j | 0 <= j < n + k
      ensures Tagged(r)[j].access == unread[j] && Tagged(r)[j].effectiveInstrID == id && Located(c, j, Tagged(r)[j].iterationNumber)
    {
      if j < n {
        assert Tagged(r)[j] == Tagged(r)[..n][j];
      } else {
        assert Tagged(r)[n + (j - n)] == TaggedAccess(unread[n..][j - n], iteration, id);
      }
    }
  }

  /** Each access is attributed to the call instance whose cached range contains it. */
  ghost predicate CallTagged(t: seq<TaggedAccess>, unread: seq<Access>, n: nat, es: seq<CacheEntry>, iterations: seq<nat>)
    requires |iterations| == |es|
  {
    |t| == n <= |unread| && forall j :: 0 <= j < n ==> TagOfEntry(t[j], unread[j], j, es, iterations)
  }

  ghost predicate TagOfEntry(t: TaggedAccess, access: Access, j: int, es: seq<CacheEntry>, iterations: seq<nat>)
    requires |iterations| == |es|
  {
    exists i :: 0 <= i < |es| && es[i].start <= j <= es[i].end && t == TaggedAccess(access, iterations[i], es[i].callId)
  }

  lemma CallTaggedMore(slice: seq<TaggedEntry>, r: seq<TaggedEntry>, unread: seq<Access>, n: nat, k: nat,
      es: seq<CacheEntry>, iterations: seq<nat>, i: nat)
    requires Pieces(slice) && Pieces(r) && n + k <= |unread| && i < |es| == |iterations|
    requires CallTagged(Tagged(slice), unread, n, es, iterations)
    requires Extends(slice, r, unread[n..], k, iterations[i], es[i].callId)
    requires es[i].start == n && es[i].end == n + k - 1
    ensures CallTagged(Tagged(r), unread, n + k, es, iterations)
  {
    hide Tagged;
    forall j | 0 <= j < n + k
      ensures TagOfEntry(Tagged(r)[j], unread[j], j, es, iterations)
    {
      if j < n {
        assert Tagged(r)[j] == Tagged(r)[..n][j];
      } else {
        assert Tagged(r)[n + (j - n)] == TaggedAccess(unread[n..][j - n], iterations[i], es[i].callId);
        assert es[i].start <= j <= es[i].end;
      }
    }
  }

  /** Numbers between two steps of the table have no instances. */
  lemma {:induction false} PrefixOverGap(c: int -> nat, from: int, upTo: int)
    requires 0 <= from <= upTo && forall n :: from <= n < upTo ==> c(n) == 0
    ensures Prefix(c, upTo) == Prefix(c, from)
    decreases upTo - from
  {
    if from < upTo {
      PrefixOverGap(c, from, upTo - 1);
    }
  }

  /** The instances before an iterator of the iteration table; at its end, all of them. */
  ghost function InstancesBefore(gs: seq<Group>, id: CompressionPatterns.Symbol, it: Iterator): nat {
    var t := IterationTable(gs);
    Prefix(Counts(gs, id), if it == End(t) then IterationCount(gs) else it.num)
  }

  lemma BeginBefore(gs: seq<Group>, id: CompressionPatterns.Symbol)
    requires WellGrouped(gs)
    ensures var t := IterationTable(gs); Ordered(t) && InstancesBefore(gs, id, Begin(t)) == 0 && (Begin(t) != End(t) ==> IsAt(t, Begin(t)))
  {
    hide Counts, IterationTable, Ordered;
    var t := IterationTable(gs);
    IterationTableExact(gs);
    BeginExact(t);
    if t == [] {
      NoneBefore(Counts(gs, id));
    } else {
      forall n | 0 <= n < Begin(t).num
        ensures Counts(gs, id)(n) == 0
      {
        RowCounts(gs, n, id);
      }
      PrefixOverGap(Counts(gs, id), 0, Begin(t).num);
      NoneBefore(Counts(gs, id));
    }
  }

  lemma NoneBefore(c: int -> nat)
    ensures Prefix(c, 0) == 0
  {
  }

  /** Where stepping leads: to the next iteration in the table, past none. */
  lemma NextIteration(gs: seq<Group>, it: Iterator)
    requires WellGrouped(gs) && IsAt(IterationTable(gs), it)
    ensures var t := IterationTable(gs);
            var next := Next(t, it);
            && it.pos < |t| && it != End(t) && 0 <= it.num < IterationCount(gs) && t[it.pos].data < |gs| && Contains(t[it.pos], it.num)
            && (next != End(t) ==> IsAt(t, next) && it.num < next.num < IterationCount(gs))
            && forall n :: it.num < n < (if next == End(t) then IterationCount(gs) else next.num) ==> !Covered(t, n)
  {
    hide IterationTable, Ordered, Next, Covered;
    var t := IterationTable(gs);
    IterationTableExact(gs);
    NextExact(t, it);
    AtIsCovered(t, it);
    CoveredBelow(t, it.num);
    var next := Next(t, it);
    if next != End(t) {
      AtIsCovered(t, next);
      CoveredBelow(t, next.num);
    }
  }

  lemma AtIsCovered(t: seq<Entry<nat>>, it: Iterator)
    requires IsAt(t, it)
    ensures Covered(t, it.num)
  {
  }

  /** Stepping the iterator passes exactly the instances of its iteration. */
  lemma NextBefore(gs: seq<Group>, id: CompressionPatterns.Symbol, it: Iterator)
    requires WellGrouped(gs) && IsAt(IterationTable(gs), it)
    ensures var t := IterationTable(gs);
            var next := Next(t, it);
            && it != End(t) && 0 <= it.num < IterationCount(gs)
            && t[it.pos].data < |gs|
            && InstancesBefore(gs, id, it) == Prefix(Counts(gs, id), it.num)
            && InstancesBefore(gs, id, next) == Prefix(Counts(gs, id), it.num + 1)
            && InstancesBefore(gs, id, next)
            == InstancesBefore(gs, id, it) + CompressionPatterns.At(CompressionPatterns.InstancesMapAll(gs[t[it.pos].data].controlFlow), id)
            && (next != End(t) ==> IsAt(t, next) && next.num > it.num)
  {
    hide Counts, IterationTable, Ordered, IsAt, Next, Contains, Covered, IterationCount, WellGrouped;
    var t := IterationTable(gs);
    var c := Counts(gs, id);
    NextIteration(gs, it);
    RowCounts(gs, it.num, id);
    var next := Next(t, it);
    var upTo := if next == End(t) then IterationCount(gs) else next.num;
    forall n | it.num < n < upTo
      ensures c(n) == 0
    {
      RowCounts(gs, n, id);
    }
    PrefixOverGap(c, it.num + 1, upTo);
  }

  class MemSet {
    var entries: seq<MemSetEntry>
    var sliceIterator: nat
    var outstandingInstances: nat

    ghost predicate Valid()
      reads this
    {
      && AllValid(entries) && sliceIterator <= |entries|
      && (if sliceIterator == |entries| then outstandingInstances == 0
          else 0 < outstandingInstances <= entries[sliceIterator].NumInstances())
    }

    /** The accesses that no slice has taken yet. */
    ghost function Unread(): seq<Access>
      requires Valid()
      reads this
    {
      Left(entries, sliceIterator, outstandingInstances)
    }

    constructor (entries: seq<MemSetEntry>)
      requires AllValid(entries)
      ensures Valid() && this.entries == entries && Unread() == ExpandAll(entries)
    {
      this.entries := entries;
      sliceIterator, outstandingInstances := 0, if entries == [] then 0 else entries[0].NumInstances();
      new;
      WholeSet(entries);
    }

    method InitialiseSliceIterator()
      requires AllValid(entries)
      modifies this`sliceIterator, this`outstandingInstances
      ensures Valid() && Unread() == ExpandAll(entries)
    {
      sliceIterator := 0;
      if |entries| == 0 {
        outstandingInstances := 0;
      } else {
        outstandingInstances := entries[sliceIterator].NumInstances();
      }
      WholeSet(entries);
    }

    /** Cuts off at most `wanted` accesses of the current entry and steps past it when it is used up. */
    method TakePiece(wanted: nat, iteration: nat, effectiveInstrID: CompressionPatterns.Symbol) returns (piece: TaggedEntry, n: nat)
      requires Valid() && 0 < wanted <= |Unread()|
      modifies this`sliceIterator, this`outstandingInstances
      ensures Valid() && 0 < n <= wanted && Unread() == old(Unread())[n..]
      ensures piece.entry.Valid() && piece.entry.Expand() == old(Unread())[..n]
      ensures piece.iterationNumber == iteration && piece.effectiveInstrID == effectiveInstrID
    {
      hide Left, MemSetEntry.Expand, ExpandAll;
      NothingLeft(entries, sliceIterator, outstandingInstances);
      var e := entries[sliceIterator];
      var startInstance: int := e.end - outstandingInstances + 1;
      var endInstance: int := if outstandingInstances > wanted then startInstance + wanted - 1 else e.end;
      n := endInstance - startInstance + 1;
      PieceOf(entries, sliceIterator, outstandingInstances, n);
      piece := TaggedEntry(e.GetSlice(startInstance, endInstance), iteration, effectiveInstrID);
      outstandingInstances := outstandingInstances - n;
      if outstandingInstances == 0 {
        sliceIterator := sliceIterator + 1;
        if sliceIterator != |entries| {
          assert entries[sliceIterator].Valid();
          outstandingInstances := entries[sliceIterator].NumInstances();
        }
      }
    }

    /** Takes the next `count` accesses, piece by piece, and attributes them to iteration `iteration`. */
    method TakeInstances(slice: seq<TaggedEntry>, count: nat, iteration: nat, effectiveInstrID: CompressionPatterns.Symbol)
        returns (r: seq<TaggedEntry>)
      requires Valid() && Pieces(slice) && count <= |Unread()|
      modifies this`sliceIterator, this`outstandingInstances
      ensures Valid() && Unread() == old(Unread())[count..]
      ensures Pieces(r) && Extends(slice, r, old(Unread()), count, iteration, effectiveInstrID)
    {
      hide MemSet.Valid, MemSet.Unread, Extends, Pieces, MemSetEntry.Expand;
      r := slice;
      ghost var unread := Unread();
      var consumed := 0;
      ExtendsNone(slice, unread, iteration, effectiveInstrID);
      while consumed < count
        invariant Valid() && consumed <= count
        invariant Unread() == unread[consumed..]
        invariant Pieces(r) && Extends(slice, r, unread, consumed, iteration, effectiveInstrID)
      {
        var piece, n := TakePiece(count - consumed, iteration, effectiveInstrID);
        assert unread[consumed..][..n] == unread[consumed..consumed + n];
        ExtendsPiece(slice, r, unread, consumed, piece, n);
        r := r + [piece];
        consumed := consumed + n;
      }
    }

    /** Takes the accesses of one iteration. */
    method TakeIteration(slice: seq<TaggedEntry>, invGroup: InvocationGroupCfc, instrID: CompressionPatterns.Symbol,
        ghost unread: seq<Access>, ghost consumed: nat, ii: Iterator) returns (r: seq<TaggedEntry>, ghost taken: nat)
      requires Valid() && invGroup.Precomputed() && invGroup.GetNumInstances(instrID) <= |unread|
      requires IsAt(invGroup.iterLut, ii) && consumed == InstancesBefore(invGroup.recorded, instrID, ii) <= |unread|
      requires Unread() == unread[consumed..]
      requires Pieces(slice) && LoopTagged(Tagged(slice), unread, consumed, Counts(invGroup.recorded, instrID), instrID)
      modifies this`sliceIterator, this`outstandingInstances
      ensures Valid() && taken == InstancesBefore(invGroup.recorded, instrID, Next(invGroup.iterLut, ii)) <= |unread|
      ensures Unread() == unread[taken..]
      ensures Pieces(r) && LoopTagged(Tagged(r), unread, taken, Counts(invGroup.recorded, instrID), instrID)
    {
      hide MemSet.Valid, MemSet.Unread, Extends, Pieces, LoopTagged, Tagged, InstancesBefore, IsAt, IterationTable, WellGrouped,
        InvocationGroupCfc.Precomputed, InvocationGroupCfc.GetNumInstances, Counts, Prefix, IterationCount, CompressionPatterns.At,
        CompressionPatterns.InstancesMapAll, Next, TraceUpTo;
      ghost var gs := invGroup.recorded;
      TablesOf(invGroup);
      invGroup.NumInstancesExact(instrID);
      NextBefore(gs, instrID, ii);
      IsAtEntry(invGroup.iterLut, ii);
      var ligInstances := CompressionPatterns.At(invGroup.numInstancesLuts[invGroup.iterLut[ii.pos].data], instrID);
      PrefixMonotone(Counts(gs, instrID), ii.num + 1, IterationCount(gs));
      taken := consumed + ligInstances;
      r := TakeInstances(slice, ligInstances, ii.num, instrID);
      LoopTaggedMore(slice, r, unread, consumed, ligInstances, Counts(gs, instrID), ii.num, instrID);
    }

    /** The slice of an instruction of the loop itself: iteration by iteration. */
    method SliceOfLoopInstruction(instrID: CompressionPatterns.Symbol, invGroup: InvocationGroupCfc) returns (slice: seq<TaggedEntry>)
      requires Valid() && invGroup.Precomputed() && invGroup.GetNumInstances(instrID) <= |Unread()|
      modifies this`sliceIterator, this`outstandingInstances
      ensures Valid() && Unread() == old(Unread())[invGroup.GetNumInstances(instrID)..]
      ensures Pieces(slice)
      ensures LoopTagged(Tagged(slice), old(Unread()), invGroup.GetNumInstances(instrID), Counts(invGroup.recorded, instrID), instrID)
    {
      hide MemSet.Valid, MemSet.Unread, Pieces, LoopTagged, Tagged, InstancesBefore, IsAt, IterationTable, WellGrouped,
        InvocationGroupCfc.Precomputed, InvocationGroupCfc.GetNumInstances, Counts, Prefix, IterationCount, Next, TraceUpTo,
        CompressionPatterns.At, CompressionPatterns.InstancesMapAll;
      slice := [];
      ghost var unread, gs, consumed := Unread(), invGroup.recorded, 0;
      TablesOf(invGroup);
      var t := invGroup.iterLut;
      var ii := Begin(t);
      invGroup.NumInstancesExact(instrID);
      BeginBefore(gs, instrID);
      NoneTagged(unread, Counts(gs, instrID), instrID);
      ghost var left: int := if ii == End(t) then 0 else IterationCount(gs) - ii.num;
      while ii != End(t)
        invariant ii != End(t) ==> IsAt(t, ii)
        invariant Valid() && consumed == InstancesBefore(gs, instrID, ii) <= |unread| && Unread() == unread[consumed..]
        invariant Pieces(slice) && LoopTagged(Tagged(slice), unread, consumed, Counts(gs, instrID), instrID)
        invariant left == if ii == End(t) then 0 else IterationCount(gs) - ii.num
        decreases left
      {
        NextBefore(gs, instrID, ii);
        slice, consumed := TakeIteration(slice, invGroup, instrID, unread, consumed, ii);
        ii := Next(t, ii);
        left := if ii == End(t) then 0 else IterationCount(gs) - ii.num;
      }
      AtEnd(gs, instrID);
    }

    /** Takes the accesses that one call instance executes. */
    method TakeCallInstance(slice: seq<TaggedEntry>, invGroup: InvocationGroupCfc, ghost unread: seq<Access>,
        es: seq<CacheEntry>, ghost iterations: seq<nat>, cii: nat) returns (r: seq<TaggedEntry>)
      requires Valid() && cii < |es| && es[cii].start >= 0 && es[cii].start <= es[cii].end < |unread|
      requires invGroup.Precomputed() && EntryIterations(es, invGroup, iterations)
      requires Unread() == unread[es[cii].start..]
      requires Pieces(slice) && CallTagged(Tagged(slice), unread, es[cii].start, es, iterations)
      modifies this`sliceIterator, this`outstandingInstances
      ensures Valid() && Unread() == unread[es[cii].end + 1..]
      ensures Pieces(r) && CallTagged(Tagged(r), unread, es[cii].end + 1, es, iterations)
    {
      hide MemSet.Valid, MemSet.Unread, Extends, Pieces, CallTagged, Tagged, InvocationGroupCfc.Precomputed,
        InvocationGroupCfc.GetNumInstances, InvocationGroupCfc.GetIterationNumber;
      var e := es[cii];
      var iter := invGroup.GetIterationNumber(e.callId, e.callInstance);
      var ctInstances := e.end - e.start + 1;
      r := TakeInstances(slice, ctInstances, iter, e.callId);
      CallTaggedMore(slice, r, unread, e.start, ctInstances, es, iterations, cii);
    }

    /** The slice of an instruction in a called function: call instance by call instance. */
    method SliceOfSubInstruction(es: seq<CacheEntry>, invGroup: InvocationGroupCfc, ghost iterations: seq<nat>, ghost total: nat)
        returns (slice: seq<TaggedEntry>)
      requires Valid() && Covers(es, total) && total <= |Unread()|
      requires invGroup.Precomputed() && EntryIterations(es, invGroup, iterations)
      modifies this`sliceIterator, this`outstandingInstances
      ensures Valid() && Unread() == old(Unread())[total..]
      ensures Pieces(slice) && CallTagged(Tagged(slice), old(Unread()), total, es, iterations)
    {
      hide MemSet.Valid, MemSet.Unread, Pieces, CallTagged, Tagged, InvocationGroupCfc.Precomputed, EntryIterations, Covers;
      slice := [];
      ghost var unread, consumed: nat := Unread(), 0;
      EntryIterationsLength(es, invGroup, iterations);
      NoCallTagged(unread, es, iterations);
      FromTheFirst(es, total);
      for cii := 0 to |es|
        invariant consumed == if cii < |es| then es[cii].start else total
        invariant Valid() && consumed <= total && Unread() == unread[consumed..]
        invariant Pieces(slice) && CallTagged(Tagged(slice), unread, consumed, es, iterations)
      {
        NextRange(es, total, cii);
        slice := TakeCallInstance(slice, invGroup, unread, es, iterations, cii);
        consumed := es[cii].end + 1;
      }
    }

    /**
     The next accesses of an instruction, cut into pieces that each lie in one iteration. The memory
     trace must hold enough accesses; consecutive calls take consecutive accesses.
     */
    method GetInvocationSliceWithIterTags(instrID: CompressionPatterns.Symbol, invGroup: InvocationGroupCfc,
        invocCallTrace: CallTraceLoopInvocationGroup, ghost iterations: seq<nat>, ghost total: nat) returns (slice: seq<TaggedEntry>)
      requires Valid() && invGroup.Precomputed()
      requires if invGroup.ContainsInstruction(instrID) then total == invGroup.GetNumInstances(instrID)
               else var es := CachedFor(invocCallTrace.callTraceCache, instrID);
                    Covers(es, total) && EntryIterations(es, invGroup, iterations)
      requires total <= |Unread()|
      modifies this`sliceIterator, this`outstandingInstances
      ensures Valid() && Unread() == old(Unread())[total..] && Pieces(slice)
      ensures if invGroup.ContainsInstruction(instrID) then
                LoopTagged(Tagged(slice), old(Unread()), total, Counts(invGroup.recorded, instrID), instrID)
              else
                CallTagged(Tagged(slice), old(Unread()), total, CachedFor(invocCallTrace.callTraceCache, instrID), iterations)
    {
      hide MemSet.Valid, MemSet.Unread, Pieces, CallTagged, LoopTagged, Tagged, InvocationGroupCfc.Precomputed,
        InvocationGroupCfc.GetNumInstances, Covers;
      if invGroup.ContainsInstruction(instrID) {
        slice := SliceOfLoopInstruction(instrID, invGroup);
      } else {
        slice := SliceOfSubInstruction(CachedFor(invocCallTrace.callTraceCache, instrID), invGroup, iterations, total);
      }
    }
  }

  /** The iterations of the call instances in the cache entries. */
  ghost predicate EntryIterations(es: seq<CacheEntry>, invGroup: InvocationGroupCfc, iterations: seq<nat>)
    requires invGroup.Precomputed()
    reads invGroup
  {
    |iterations| == |es| && forall i :: 0 <= i < |es| ==>
      && es[i].callInstance < invGroup.GetNumInstances(es[i].callId)
      && iterations[i] == invGroup.GetIterationNumber(es[i].callId, es[i].callInstance)
  }

  lemma EntryIterationsLength(es: seq<CacheEntry>, invGroup: InvocationGroupCfc, iterations: seq<nat>)
    requires invGroup.Precomputed() && EntryIterations(es, invGroup, iterations)
    ensures |iterations| == |es|
  {
  }

  lemma NoCallTagged(unread: seq<Access>, es: seq<CacheEntry>, iterations: seq<nat>)
    requires |iterations| == |es|
    ensures Pieces([]) && CallTagged(Tagged([]), unread, 0, es, iterations)
  {
  }

  lemma FromTheFirst(es: seq<CacheEntry>, total: int)
    requires Covers(es, total)
    ensures 0 == if es == [] then total else es[0].start
  {
  }

  /** The range of an entry lies below the total, and the next one follows it. */
  lemma NextRange(es: seq<CacheEntry>, total: int, i: nat)
    requires Covers(es, total) && i < |es|
    ensures 0 <= es[i].start <= es[i].end < total
    ensures es[i].end + 1 == if i + 1 < |es| then es[i + 1].start else total
  {
    CoversFromZero(es, total, i);
    RangeBelow(es, total, i);
  }

  /** A loop instruction's access has the tag that the instance table gives for it. */
  lemma LoopTagsAreLookups(t: seq<TaggedAccess>, unread: seq<Access>, invGroup: InvocationGroupCfc, id: CompressionPatterns.Symbol, k: nat)
    requires invGroup.Precomputed()
    requires LoopTagged(t, unread, invGroup.GetNumInstances(id), Counts(invGroup.recorded, id), id)
    requires k < invGroup.GetNumInstances(id)
    ensures t[k].iterationNumber == invGroup.GetIterationNumber(id, k)
  {
    hide InvocationGroupCfc.Precomputed, InvocationGroupCfc.GetNumInstances, InvocationGroupCfc.GetIterationNumber, Counts, Located;
    invGroup.IterationNumberExact(id, k);
    LocatedUnique(Counts(invGroup.recorded, id), k, t[k].iterationNumber, invGroup.GetIterationNumber(id, k));
  }

  /** The accesses of a slice, each with the iteration that `c` assigns to it. */
  ghost predicate TaggedBy(t: seq<TaggedAccess>, unread: seq<Access>, n: nat, c: int -> nat) {
    |t| == n <= |unread| && forall j :: 0 <= j < n ==> t[j].access == unread[j] && Located(c, j, t[j].iterationNumber)
  }

  /** In the invocation of `invGroup`, the calls that the cache names run in the iterations of `other`. */
  lemma EntriesInOther(es: seq<CacheEntry>, iterations: seq<nat>, calls: map<CompressionPatterns.Symbol, CallTraceCall>,
      invGroup: InvocationGroupCfc, other: map<CompressionPatterns.Symbol, Call>, ids: seq<CompressionPatterns.Symbol>)
    requires invGroup.Precomputed() && EntryIterations(es, invGroup, iterations) && Named(es, other)
    requires forall id <- ids :: Active(calls, invGroup, id) ==> LookupsDefined(calls[id], invGroup.GetNumInstances(id))
    requires StreamsOf(other, calls, invGroup, ids)
    ensures |iterations| == |es| && forall i :: 0 <= i < |es| ==> iterations[i] == IterationOf(other, es[i])
  {
    hide InvocationGroupCfc.Precomputed, InvocationGroupCfc.GetNumInstances, InvocationGroupCfc.GetIterationNumber, LookupsDefined,
      CallOk, CountsAre, Active;
    forall i | 0 <= i < |es|
      ensures iterations[i] == IterationOf(other, es[i])
    {
      ActiveInCalls(calls, invGroup, es[i].callId);
      assert Streams(other[es[i].callId], calls[es[i].callId], invGroup, es[i].callId);
    }
  }

  /**
   A slice cut with a cache that was built for the invocation of `view`, in the invocation of `invGroup`, whose
   calls are those of `other`: its accesses have the iterations that contain them if and only if the cache
   names the call instances in iteration order there.
   */
  lemma CallTagsExact(t: seq<TaggedAccess>, unread: seq<Access>, total: nat, es: seq<CacheEntry>, iterations: seq<nat>,
      view: map<CompressionPatterns.Symbol, Call>, other: map<CompressionPatterns.Symbol, Call>,
      calls: map<CompressionPatterns.Symbol, CallTraceCall>, invGroup: InvocationGroupCfc,
      ids: seq<CompressionPatterns.Symbol>, id: CompressionPatterns.Symbol)
    requires invGroup.Precomputed() && EntryIterations(es, invGroup, iterations)
    requires forall i <- ids :: Active(calls, invGroup, i) ==> LookupsDefined(calls[i], invGroup.GetNumInstances(i))
    requires StreamsOf(other, calls, invGroup, ids)
    requires Distinct(ids) && SameCalls(view, other) && CacheExact(es, view, ids, id) && Covers(es, total)
    requires CallTagged(t, unread, total, es, iterations)
    ensures Named(es, other)
    ensures TaggedBy(t, unread, total, SubCounts(other, ids, id)) <==> InIterationOrder(es, other)
  {
    hide CacheExact, SubCounts, Located, SameCalls, InvocationGroupCfc.Precomputed, StreamsOf, EntryIterations, CallOk, Covers,
      IterationOf, InvocationGroupCfc.GetNumInstances, Active, LookupsDefined;
    ReusedCacheExact(es, view, other, ids, id);
    EntriesInOther(es, iterations, calls, invGroup, other, ids);
    SameCallsOk(view, other);
    TagsOfEntries(t, unread, total, es, iterations, other, ids, id);
  }

  lemma SameCallsOk(view: map<CompressionPatterns.Symbol, Call>, other: map<CompressionPatterns.Symbol, Call>)
    requires SameCalls(view, other)
    ensures forall c <- other.Keys :: CallOk(other[c])
  {
  }

  /** Every access is in the range of just one entry, which gives it its tag. */
  lemma TagsOfEntries(t: seq<TaggedAccess>, unread: seq<Access>, total: nat, es: seq<CacheEntry>, iterations: seq<nat>,
      other: map<CompressionPatterns.Symbol, Call>, ids: seq<CompressionPatterns.Symbol>, id: CompressionPatterns.Symbol)
    requires Distinct(ids) && (forall c <- other.Keys :: CallOk(other[c])) && Named(es, other) && Covers(es, total)
    requires |iterations| == |es| && forall i :: 0 <= i < |es| ==> iterations[i] == IterationOf(other, es[i])
    requires CallTagged(t, unread, total, es, iterations)
    ensures TaggedBy(t, unread, total, SubCounts(other, ids, id)) <==> AllLocated(es, other, ids, id)
  {
    hide SubCounts, Located, CallOk, Covers, IterationOf;
    if AllLocated(es, other, ids, id) {
      forall k | 0 <= k < total
        ensures t[k].access == unread[k] && Located(SubCounts(other, ids, id), k, t[k].iterationNumber)
      {
        assert TagOfEntry(t[k], unread[k], k, es, iterations);
        var i :| 0 <= i < |es| && es[i].start <= k <= es[i].end && t[k] == TaggedAccess(unread[k], iterations[i], es[i].callId);
      }
    }
    if TaggedBy(t, unread, total, SubCounts(other, ids, id)) {
      forall i, k | 0 <= i < |es| && es[i].start <= k <= es[i].end
        ensures Located(SubCounts(other, ids, id), k, IterationOf(other, es[i]))
      {
        NextRange(es, total, i);
        assert TagOfEntry(t[k], unread[k], k, es, iterations);
        var j :| 0 <= j < |es| && es[j].start <= k <= es[j].end && t[k] == TaggedAccess(unread[k], iterations[j], es[j].callId);
        SameRange(es, total, i, j, k);
      }
    }
  }

  lemma SameRange(es: seq<CacheEntry>, total: int, i: nat, j: nat, k: int)
    requires Covers(es, total) && i < |es| && j < |es|
    requires es[i].start <= k <= es[i].end && es[j].start <= k <= es[j].end
    ensures i == j
  {
    if i < j {
      CoversInOrder(es, total, i, j);
    } else if j < i {
      CoversInOrder(es, total, j, i);
    }
  }

  /** In the invocation that the cache was built for, the accesses always have the iterations that contain them. */
  lemma CallTagsLocated(t: seq<TaggedAccess>, unread: seq<Access>, total: nat, es: seq<CacheEntry>, iterations: seq<nat>,
      view: map<CompressionPatterns.Symbol, Call>, calls: map<CompressionPatterns.Symbol, CallTraceCall>,
      invGroup: InvocationGroupCfc, ids: seq<CompressionPatterns.Symbol>, id: CompressionPatterns.Symbol)
    requires invGroup.Precomputed() && EntryIterations(es, invGroup, iterations)
    requires forall i <- ids :: Active(calls, invGroup, i) ==> LookupsDefined(calls[i], invGroup.GetNumInstances(i))
    requires StreamsOf(view, calls, invGroup, ids)
    requires Distinct(ids) && (forall c <- view.Keys :: CallOk(view[c])) && CacheExact(es, view, ids, id) && Covers(es, total)
    requires CallTagged(t, unread, total, es, iterations)
    ensures TaggedBy(t, unread, total, SubCounts(view, ids, id))
  {
    hide CacheExact, SubCounts, Located, CallOk, InvocationGroupCfc.Precomputed, StreamsOf, EntryIterations, Covers, IterationOf,
      InvocationGroupCfc.GetNumInstances, Active, LookupsDefined, CallTagged, TaggedBy;
    BuiltInOrder(es, view, ids, id);
    CallTagsExact(t, unread, total, es, iterations, view, view, calls, invGroup, ids, id);
  }

  /** The accesses of a slice, each with its iteration and with the instruction that made it. */
  ghost predicate TaggedWith(t: seq<TaggedAccess>, unread: seq<Access>, n: nat, c: int -> nat, maker: int -> CompressionPatterns.Symbol) {
    TaggedBy(t, unread, n, c) && forall j :: 0 <= j < n ==> t[j].effectiveInstrID == maker(j)
  }

  /** The calls that make the accesses of `s`, when the call instances run in the order of `run`. */
  ghost function Callers(calls: map<CompressionPatterns.Symbol, Call>, run: seq<CurrInst>, s: CompressionPatterns.Symbol): int -> CompressionPatterns.Symbol {
    k => CallerAt(calls, run, s, k)
  }

  /** The tags name the calls that the entries name. */
  lemma CallerTags(t: seq<TaggedAccess>, unread: seq<Access>, total: nat, es: seq<CacheEntry>, iterations: seq<nat>,
      calls: map<CompressionPatterns.Symbol, Call>, run: seq<CurrInst>, s: CompressionPatterns.Symbol)
    requires |iterations| == |es| && Covers(es, total) && CallTagged(t, unread, total, es, iterations)
    ensures |t| == total
    ensures (forall k :: 0 <= k < total ==> t[k].effectiveInstrID == Callers(calls, run, s)(k)) <==> RightCallers(es, calls, run, s)
  {
    hide CallerAt, Covers;
    if RightCallers(es, calls, run, s) {
      forall k | 0 <= k < total
        ensures t[k].effectiveInstrID == CallerAt(calls, run, s, k)
      {
        assert TagOfEntry(t[k], unread[k], k, es, iterations);
      }
    }
    if forall k :: 0 <= k < total ==> t[k].effectiveInstrID == Callers(calls, run, s)(k) {
      forall i, k | 0 <= i < |es| && es[i].start <= k <= es[i].end
        ensures es[i].callId == CallerAt(calls, run, s, k)
      {
        NextRange(es, total, i);
        assert TagOfEntry(t[k], unread[k], k, es, iterations);
        var j :| 0 <= j < |es| && es[j].start <= k <= es[j].end && t[k] == TaggedAccess(unread[k], iterations[j], es[j].callId);
        SameRange(es, total, i, j, k);
        assert Callers(calls, run, s)(k) == CallerAt(calls, run, s, k);
      }
    }
  }

  /**
   A slice cut with a cache that was built for the invocation of `view`, in the invocation of `other` whose call
   instances ran in the order of `run`: every access has the iteration that contains it and the call that made it if
   and only if the instances executing the instruction ran in the visiting order of the building invocation.
   */
  lemma CallTagsWith(t: seq<TaggedAccess>, unread: seq<Access>, total: nat, es: seq<CacheEntry>, iterations: seq<nat>,
      view: map<CompressionPatterns.Symbol, Call>, other: map<CompressionPatterns.Symbol, Call>, run: seq<CurrInst>,
      calls: map<CompressionPatterns.Symbol, CallTraceCall>, invGroup: InvocationGroupCfc,
      ids: seq<CompressionPatterns.Symbol>, id: CompressionPatterns.Symbol)
    requires invGroup.Precomputed() && EntryIterations(es, invGroup, iterations)
    requires forall i <- ids :: Active(calls, invGroup, i) ==> LookupsDefined(calls[i], invGroup.GetNumInstances(i))
    requires StreamsOf(other, calls, invGroup, ids)
    requires Distinct(ids) && SameCalls(view, other) && CacheExact(es, view, ids, id) && Covers(es, total)
    requires CallTagged(t, unread, total, es, iterations)
    requires Ran(run, other, ids) && InOrder(run, 0) && forall c <- other.Keys :: CallOk(other[c])
    ensures TaggedWith(t, unread, total, SubCounts(other, ids, id), Callers(other, run, id))
            <==> VisitingOrder(Moved(view, Executing(other, run, id)), ids)
  {
    hide CacheExact, SubCounts, SameCalls, InvocationGroupCfc.Precomputed, StreamsOf, EntryIterations, CallOk, Covers, CallTagged, TaggedBy,
      InvocationGroupCfc.GetNumInstances, Active, LookupsDefined, RightCallers, Callers, Ran, InOrder, VisitingOrder, Executing, InIterationOrder;
    EntryIterationsLength(es, invGroup, iterations);
    CallTagsExact(t, unread, total, es, iterations, view, other, calls, invGroup, ids, id);
    CallerTags(t, unread, total, es, iterations, other, run, id);
    ReusedCallersExact(es, view, other, ids, id, run);
    if RightCallers(es, other, run, id) {
      CallersGiveIterations(es, view, other, ids, id, run);
    }
  }

  lemma TablesOf(invGroup: InvocationGroupCfc)
    requires invGroup.Precomputed()
    ensures WellGrouped(invGroup.recorded) && invGroup.iterLut == IterationTable(invGroup.recorded)
    ensures |invGroup.numInstancesLuts| == |invGroup.recorded|
    ensures forall i :: 0 <= i < |invGroup.recorded| ==>
              invGroup.numInstancesLuts[i] == CompressionPatterns.InstancesMapAll(invGroup.recorded[i].controlFlow)
  {
  }

  lemma IsAtEntry(t: seq<Entry<nat>>, it: Iterator)
    requires IsAt(t, it)
    ensures it.pos < |t| && it.num >= 0
  {
  }

  lemma NoneTagged(unread: seq<Access>, c: int -> nat, id: CompressionPatterns.Symbol)
    ensures Pieces([]) && LoopTagged(Tagged([]), unread, 0, c, id)
  {
  }

  lemma AtEnd(gs: seq<Group>, id: CompressionPatterns.Symbol)
    ensures InstancesBefore(gs, id, End(IterationTable(gs))) == Prefix(Counts(gs, id), IterationCount(gs))
  {
  }

  /** The last `outstanding` accesses of entry `i`, and all of the entries behind it. */
  ghost function Left(es: seq<MemSetEntry>, i: nat, outstanding: nat): seq<Access>
    requires AllValid(es) && i <= |es|
    requires i < |es| ==> outstanding <= es[i].NumInstances()
  {
    if i == |es| then [] else es[i].Expand()[es[i].NumInstances() - outstanding..] + ExpandAll(es[i + 1..])
  }

  lemma WholeSet(es: seq<MemSetEntry>)
    requires AllValid(es)
    ensures es != [] ==> es[0].NumInstances() > 0
    ensures Left(es, 0, if es == [] then 0 else es[0].NumInstances()) == ExpandAll(es)
  {
    if es != [] {
      assert es[0].Valid();
      assert es[0].Expand()[0..] == es[0].Expand();
    }
  }

  lemma NothingLeft(es: seq<MemSetEntry>, i: nat, outstanding: nat)
    requires AllValid(es) && i <= |es| && (i < |es| ==> outstanding <= es[i].NumInstances())
    ensures Left(es, i, outstanding) != [] ==> i < |es|
  {
  }

  /** The piece cut off holds the first accesses that are left, and the rest stays. */
  lemma PieceOf(es: seq<MemSetEntry>, i: nat, outstanding: nat, n: int)
    requires AllValid(es) && i < |es| && 0 < n <= outstanding <= es[i].NumInstances()
    ensures es[i].Valid() && es[i].start <= es[i].end - outstanding + 1
    ensures var piece := es[i].GetSlice(es[i].end - outstanding + 1, es[i].end - outstanding + n);
            piece.Valid() && n <= |Left(es, i, outstanding)| && piece.Expand() == Left(es, i, outstanding)[..n]
    ensures if n < outstanding then Left(es, i, outstanding - n) == Left(es, i, outstanding)[n..]
            else Left(es, i + 1, if i + 1 < |es| then es[i + 1].NumInstances() else 0) == Left(es, i, outstanding)[n..]
  {
    hide MemSetEntry.Expand, MemSetEntry.GetSlice, ExpandAll, Left, AllValid;
    ValidAt(es, i);
    var own, rest, from: nat := es[i].Expand(), ExpandAll(es[i + 1..]), es[i].NumInstances() - outstanding;
    SliceExpands(es[i], es[i].end - outstanding + 1, es[i].end - outstanding + n);
    LeftIs(es, i, outstanding);
    TakeDrop(own, rest, from, n);
    if n < outstanding {
      LeftIs(es, i, outstanding - n);
    } else {
      UsedUp(own, rest);
      NextEntryLeft(es, i + 1);
    }
  }

  lemma ValidAt(es: seq<MemSetEntry>, i: nat)
    requires AllValid(es) && i < |es|
    ensures es[i].Valid() && AllValid(es[i + 1..])
  {
  }

  lemma LeftIs(es: seq<MemSetEntry>, i: nat, outstanding: nat)
    requires AllValid(es) && i < |es| && outstanding <= es[i].NumInstances()
    ensures es[i].Valid() && AllValid(es[i + 1..])
    ensures Left(es, i, outstanding) == es[i].Expand()[es[i].NumInstances() - outstanding..] + ExpandAll(es[i + 1..])
  {
  }

  lemma UsedUp<T>(own: seq<T>, rest: seq<T>)
    ensures own[|own|..] + rest == rest
  {
  }

  lemma NextEntryLeft(es: seq<MemSetEntry>, i: nat)
    requires AllValid(es) && i <= |es|
    ensures i < |es| ==> es[i].Valid()
    ensures Left(es, i, if i < |es| then es[i].NumInstances() else 0) == ExpandAll(es[i..])
  {
    hide MemSetEntry.Expand;
    if i < |es| {
      assert es[i].Valid();
      assert es[i].Expand()[0..] == es[i].Expand();
      assert es[i..][1..] == es[i + 1..];
    }
  }

  lemma TakeDrop<T>(own: seq<T>, rest: seq<T>, from: nat, n: nat)
    requires from + n <= |own|
    ensures (own[from..] + rest)[..n] == own[from..from + n]
    ensures (own[from..] + rest)[n..] == own[from + n..] + rest
  {
  }

  lemma PieceTagged(t: TaggedEntry)
    requires t.entry.Valid()
    ensures forall j :: 0 <= j < |t.entry.Expand()| ==>
              TaggedPiece(t)[j] == TaggedAccess(t.entry.Expand()[j], t.iterationNumber, t.effectiveInstrID)
  {
  }
}
