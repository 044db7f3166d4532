# A verified model of the dependence profiler

The profiler records what a loop executes, compresses it while the program runs, and finds out afterwards
which pairs of instructions touch the same memory in different iterations. Almost every stage works on a
compressed form, so its specification is the uncompressed trace: this project models the stages of libcam and
the two xanlib structures under them, and proves that each fast form says exactly what the trace says.

The stages, in the order in which data passes through them:

| stage | files | main result |
|---|---|---|
| control-flow compression | `ControlFlowCompressor.dfy` | decompression returns the inserted symbols for every run and every window length; equality of compressors with equal windows is equality of traces |
| iterations sharing a record, dumps | `IterationRecorder.dfy`, `InvocationMatch.dfy`, `InvocationRecorder.dfy`, `RecentlyUsed.dfy` | for every event sequence, with dumps anywhere, the merged dumps hold each iteration once, with exactly its instructions; two loop invocations match if and only if they ran the same iterations; what is shared is looked for among the 32 used last |
| bit sets and written ranges | `BitSet.dfy`, `SharerRanges.dfy` | the ranges written are the maximal runs of the set bits, and determine the set |
| merging of dumped segments | `RepetitionPatterns.dfy`, `IterationGroups.dfy`, `LoopTraceEntries.dfy` | each iteration keeps its control flow, that of the later segment behind that of the earlier |
| lookup tables | `InstanceTables.dfy`, `InvocationGroup.dfy` | the k-th instance of an instruction is found in the iteration that contains it |
| cache of calls | `CallTraceCache.dfy`, `CallTraceReuse.dfy`, `CallTraceOrder.dfy` | the merge of the calls visits every call instance once, in iteration order, and its ranges locate the iteration of every instance; a cache used for another invocation does so if and only if its entries are in iteration order there; the cache names the calls that made the accesses if and only if they ran in visiting order |
| memory tracing | `MemSetEntries.dfy`, `MemoryTracer.dfy`, `MemoryTraceStreamer.dfy`, `MemSlicer.dfy` | recording is lossless with as few entries as possible; chunks and slices conserve the accesses, and their tags are the iteration and the instruction that made the access if and only if the calls ran as the cache assumes |
| alias test | `Divisibility.dfy`, `DynamicGcd.dfy`, `DynamicGcdWord.dfy`, `AliasTest.dfy` | the intersection of two progressions is exact for all ranges; in machine words it is right for all upper ends if and only if a condition on lower ends and strides holds; the strides for which the alias test agrees with the quadratic search are exactly the multiples of the access length |
| interval tree | `IntervalTree.dfy`, `IntervalCursor.dfy` | search is exact for every list of intervals, and the cursor over parent links yields the same hits in the same order |
| analysis of a pair | `DependenceAnalysis.dfy`, `MemoryAnalysis.dfy` | within an invocation, and where the alias test is right for the pieces at hand (`Comparable`), a pair is recorded if and only if it names the instructions that made two accesses of the uncompressed traces which touch a common byte in different iterations; over all invocations, no pair is lost whatever is accessed if and only if a condition on the attributions holds |
| priority queue | `PriorityQueue.dfy` | every operation keeps the heap and its handles; extraction returns a greatest element |

`EndToEnd.dfy` joins the first half: from recorded events, through dumps, merging and tables, to the lookup of an
instance. `MemoryAnalysis.dfy` joins the second: from recorded references, through chunks and slices, to the pairs.
`WholeAnalysis.dfy` joins both for the instructions of the loop: the pairs are those of references made in different
iterations of the loop as it was executed. `Sequences.dfy` holds shared facts about sequences.

How the parts are stated: what the source changes in place is a class whose methods are proved against functions of
the old state (`ControlFlowCompressor`, `RunningLoop`, `ExecTrace`, `XanBitSet`, `XanQueue`, `TreeNode`,
`TracerMemSet`, `MemoryTraceStreamer`, `MemSet`, `InvocationGroupCfc`, `CallTraceLoopInvocationGroup`); lemmas about
those functions say what they mean for the uncompressed trace. Records that the source stores by value, or owns
through one pointer only, are datatypes.

Some properties that a reader would expect do not hold; each comes with an input and with the exact condition under which
the property holds:

* `dynamic_gcd` multiplies a negative coefficient in 64-bit unsigned arithmetic before it divides by the gcd. For given
  lower ends and strides its answer and the clashes it denotes are right for all upper ends if and only if
  `StridesReliable` holds (`DynamicGcdWord.IntersectReliableExact`): the lcm divides the shift that wrapping causes, or
  the gcd does not divide the distance. It always holds when one stride divides the other. `isAlias` calls it with
  upper ends that are elements of the progressions; its fast path is right for all numbers of accesses if and only if
  `PairReliable` holds (`AliasTest.WordsReliableExact`), which also admits a shift by less than both strides. With
  strides 12 and 20 a common address is missed (`MissedClash`, `MissedAlias`).
* The fast path of `isAlias` looks for equal start addresses, and finds exactly those. For an access length and two
  strides it agrees with the byte search on all entries if and only if the length divides both strides
  (`AliasTest.WholeStridesExact`); otherwise partial overlaps are missed (`PartialOverlapMissed`, `PartialPairMisses`).
* The cache of a call-trace group is built once, for the first of its invocations that is analysed
  (`dependence_analysis.cpp:991`), although the invocations of a group may run their calls in different iterations.
  In another invocation it gives the accesses the right iterations if and only if its entries are in iteration order
  there (`CallTraceReuse.ReusedCacheExact`, `MemSlicing.CallTagsExact`); two calls that change places get wrong ones
  (`SwappedCalls`).
* The cache lists the calls of one iteration by the list of calls (`libcam/src/CallTrace.cpp:27-34`), whatever order they
  ran in, so that even in the invocation that it was built for the recorded pair can name a call that did not make the
  access: two calls of one iteration that run the other way round are confused (`CallTraceOrder.CallsOutOfListOrder`).
  It names the right call for every access of an instruction if and only if, within each iteration, the calls executing
  the instruction ran by the list of calls (`CallersInListOrder`); in another invocation, if and only if they ran in the
  order of the visits of the invocation that it was built for (`ReusedCallersExact`). Iterations and calls are both right
  under the same condition (`MemSlicing.CallTagsWith`). A constant call is always named rightly (`ConstantCallRight`).
* A pair that is taken off the menu is not looked at in later invocations, but whether its accesses are made in one
  call only is checked for one invocation. What is recorded is exactly what the invocations up to that one justify
  (`DependenceAnalysis.AnalyseInvocations`). For known attributions and guards, no pair is lost whatever is accessed if
  and only if behind an invocation that can end the analysis there are no other pairs than its own
  (`NothingLostExact`); `LostPair` is an input for which one is lost.
* An invocation that ends before an earlier one is recorded with its own number, and the assertion made when the
  earlier one joins its group fails: `ok` of `InvocationRecording.ExecTrace.ProcessInvocation` says exactly when.
  Numbers that arrive in order are always accepted (`GrowingNumbersAccepted`), nested calls may not be (`NestedCalls`).

Equality of two compressors is equality of the recorded symbols when their window lengths are equal. With a
window of 2 on one side and of 3 on the other it is not (`ControlFlowCompression.WindowsDiffer`); no other lengths are
compared, since the profiler gives all its compressors a window of 50 (`libcam/src/loop_trace.cpp:57`).

The code and its documentation disagree once: `xanlib/src/xanlib.h:2665` promises -1 when no bit is unset in the range,
while `xanlib/src/xanbitset.c:410-412` answers with the length of the set when the range reaches past its end. The
model follows the code.

## Model

| member | source | states |
|---|---|---|
| CompressionPatterns.PatternEquals | libcam/src/ControlFlowCompressor.cpp:40-56 | the child-by-child comparison answers true if and only if the patterns are the same |
| CompressionPatterns.DecompressPattern | libcam/src/ControlFlowCompressor.cpp:142-155 | the nested loops return the expansion of the pattern |
| CompressionPatterns.InstancesMapCounts | libcam/src/ControlFlowCompressor.cpp:169-183 | the counts computed on a compressed pattern are the numbers of occurrences in its expansion |
| CompressionPatterns.InstancesMapAllCounts | libcam/src/CompressionPattern.cpp:70-79 | the same for a sequence of patterns |
| CompressionPatterns.InstancesMapPositive | libcam/src/CompressionPattern.cpp:70-79 | the count map of well-formed patterns has no zero entry |
| ControlFlowCompression.MatchPreserves | libcam/src/ControlFlowCompressor.cpp:225-240 | replacing a repeated tail by a higher repeat count keeps the decompressed symbols |
| ControlFlowCompression.MergePreserves | libcam/src/ControlFlowCompressor.cpp:242-268 | folding two equal runs into a repeat keeps the decompressed symbols |
| ControlFlowCompression.NormaliseKeeps | libcam/src/ControlFlowCompressor.cpp:276 | running match and merge until neither applies keeps the decompressed symbols |
| ControlFlowCompression.StableSpelled | libcam/src/ControlFlowCompressor.cpp:225-268 | a window is in normal form if and only if no repeat up to half the window length plus one away is repeated in front of it and no two runs at the front are equal |
| ControlFlowCompression.StableTake | libcam/src/ControlFlowCompressor.cpp:278-282 | popping the oldest pattern leaves a window to which neither rule applies |
| ControlFlowCompression.InsertIsRounds | libcam/src/ControlFlowCompressor.cpp:270-283 | an insertion is a sequence of rounds, each the widest match or, if there is none, the widest merge, up to a window to which no rule applies; then the oldest pattern is stored when the window is too long |
| ControlFlowCompression.InsertKeeps | libcam/src/ControlFlowCompressor.cpp:270-283 | one insertion appends its symbol to the decompressed sequence and restores the window invariant |
| ControlFlowCompression.RunLosslessAndNormal | libcam/src/ControlFlowCompressor.cpp:225-283 | after any insertions, decompression returns exactly them, the window is within its bound, no repeat up to half the window length plus one away is repeated in front of it, and no two runs of any width at the front are equal |
| ControlFlowCompression.StoredOnlyGrows | libcam/src/ControlFlowCompressor.cpp:278-282 | stored patterns are only ever appended to |
| ControlFlowCompression.EqualPatternsGiveEqualTraces | libcam/src/ControlFlowCompressor.cpp:325-336 | equal compressed forms come from equal symbol sequences, whatever the window lengths |
| ControlFlowCompression.RunWellFormed | libcam/src/ControlFlowCompressor.cpp:262-263 | every repeat ever built has a body and stands for at least two copies |
| ControlFlowCompression.InstancesOfRun | libcam/src/ControlFlowCompressor.cpp:169-183 | counts read off a compressed run are those of the inserted symbols, and only occurring symbols have an entry |
| ControlFlowCompression.ControlFlowCompressor.PatternMatchesSymbols | libcam/src/ControlFlowCompressor.cpp:127-136 | true if and only if the body equals the youngest patterns read backwards |
| ControlFlowCompression.ControlFlowCompressor.Match | libcam/src/ControlFlowCompressor.cpp:225-240 | folds the widest match up to half the window length plus one into its repeat, and reports whether there was one |
| ControlFlowCompression.ControlFlowCompressor.IsRepeatedSequence | libcam/src/ControlFlowCompressor.cpp:217-223 | true if and only if the two youngest runs of that width are equal |
| ControlFlowCompression.ControlFlowCompressor.Merge | libcam/src/ControlFlowCompressor.cpp:242-268 | folds the widest two equal runs into a repeat, and reports whether there were any |
| ControlFlowCompression.ControlFlowCompressor.InsertSymbol | libcam/src/ControlFlowCompressor.cpp:270-283 | the loop terminates after rounds of widest matches and merges, with no rule left to apply; the oldest pattern is stored only when the window is too long; the object is then that of the longer symbol sequence |
| ControlFlowCompression.ControlFlowCompressor.Clear | libcam/src/ControlFlowCompressor.cpp:312-319 | the object is that of the empty sequence |
| ControlFlowCompression.ControlFlowCompressor.Decompress | libcam/src/ControlFlowCompressor.cpp:203-215 | returns the symbols inserted since the last clear |
| ControlFlowCompression.ControlFlowCompressor.IteratorData | libcam/src/ControlFlowCompressor.cpp:305-310 | the two-phase iterator reads the stored patterns and then the window from its old end |
| ControlFlowCompression.ControlFlowCompressor.SamePatterns | libcam/src/ControlFlowCompressor.cpp:325-336 | the paired walk answers true if and only if all patterns agree, wherever the stored part ends |
| ControlFlowCompression.ControlFlowCompressor.Equals | libcam/src/ControlFlowCompressor.cpp:325-336 | with equal window lengths, true if and only if the same symbols were inserted since the last clear |
| ControlFlowCompression.WindowsDiffer | libcam/src/ControlFlowCompressor.cpp:193-194 | an alternation of two symbols is folded with a window of three and not with a window of two, so equal traces can compare unequal |
| Divisibility.GcdDivides | libcam/src/dynamic_gcd.cpp:27-35 | the value of Euclid's loop divides both arguments |
| Divisibility.GcdGreatest | libcam/src/dynamic_gcd.cpp:27-35 | every common divisor divides it |
| Divisibility.LcmMultiple | libcam/src/dynamic_gcd.cpp:40-42 | the product over the gcd is a common multiple |
| Divisibility.LcmLeast | libcam/src/dynamic_gcd.cpp:40-42 | it divides every common multiple |
| DynamicGcd.EuclidGcd | libcam/src/dynamic_gcd.cpp:27-35 | the loop computes the gcd |
| DynamicGcd.EuclidLcm | libcam/src/dynamic_gcd.cpp:40-42 | computes the lcm over the integers |
| DynamicGcd.ExtendedEuclid | libcam/src/dynamic_gcd.cpp:48-60 | the loop with its six variables computes the coefficients of the recursive definition |
| DynamicGcd.BezoutIdentity | libcam/src/dynamic_gcd.cpp:45 | the coefficients solve ax + by = gcd(a, b) |
| DynamicGcd.BezoutBound | libcam/src/dynamic_gcd.cpp:48-60 | the second coefficient never exceeds the first argument |
| DynamicGcd.BezoutOfDivisor | libcam/src/dynamic_gcd.cpp:75 | the coefficient is 0 or 1 when one stride divides the other |
| DynamicGcd.OffsetSolves | libcam/src/dynamic_gcd.cpp:76 | the offset is the residue that solves both congruences |
| DynamicGcd.CommonPoints | libcam/src/dynamic_gcd.cpp:76-78 | a distance solves both congruences if and only if it is congruent to the offset modulo the lcm |
| DynamicGcd.OverlapExact | libcam/src/dynamic_gcd.cpp:68-78 | first, step and count describe exactly the common points, also for ranges that do not meet |
| DynamicGcd.IntersectStridesExact | libcam/src/dynamic_gcd.cpp:62-79 | an address is in the result if and only if it is in both progressions, line 76 read over the integers |
| DynamicGcd.CountPositiveIffCommon | libcam/src/dynamic_gcd.cpp:62-79 | the count is positive if and only if some address is common |
| DynamicGcdWord.OffsetWordExact | libcam/src/dynamic_gcd.cpp:76 | the 64-bit offset equals the exact one if and only if the lcm divides the shift that wrapping causes, for all strides whose product is a word |
| DynamicGcdWord.HarmlessForSmallStrides | libcam/src/dynamic_gcd.cpp:76 | for small strides the condition is about the sign of the product, the word size and the lcm alone |
| DynamicGcdWord.OffsetFallsBack | libcam/src/dynamic_gcd.cpp:76 | the 64-bit offset is the exact one moved back around the lcm by the shift of wrapping |
| DynamicGcdWord.ReliableExact | libcam/src/dynamic_gcd.cpp:68-78 | for ordered lower ends, the 64-bit answer and its clashes are right for all upper ends if and only if the offset is reliable |
| DynamicGcdWord.IntersectReliableExact | libcam/src/dynamic_gcd.cpp:62-79 | for given lower ends and strides in any order, the 64-bit answer, and also the addresses it denotes, are right for all upper ends if and only if the strides are reliable |
| DynamicGcdWord.RunsReliableExact | libcam/src/dynamic_gcd.cpp:68-78 | with upper ends on the progressions, the 64-bit answer is right for all numbers of elements if and only if the offset is reliable or short by less than both strides |
| DynamicGcdWord.ReliableEnough | libcam/src/dynamic_gcd.cpp:70-78 | a reliable offset, or a common range at least as long as the lcm, makes the count reliable |
| DynamicGcdWord.DivisorStridesReliable | libcam/src/dynamic_gcd.cpp:75-76 | the offset is reliable when one stride divides the other |
| DynamicGcdWord.MissedClash | libcam/src/dynamic_gcd.cpp:76 | strides 12 and 20: the common address 24 is missed in 64-bit arithmetic |
| MemSetEntries.SplitConserves | libcam/src/static_inst_rec.cpp:82-87 | the two parts of a split expand to the accesses of the entry, with consecutive numbers |
| MemSetEntries.SliceExpands | libcam/src/static_inst_rec.cpp:89-92 | a slice by instance numbers expands to that slice of the accesses |
| MemSetEntries.ExtentsBound | libcam/src/static_inst_rec.h:72-93 | every access lies within the extents, for strides of any sign |
| MemSetEntries.ExtentsReached | libcam/src/static_inst_rec.h:72-84 | both extents are reached by an access |
| MemSetEntries.NormalisedReverses | libcam/src/static_inst_rec.h:103-108 | normalising reverses a run with negative stride and keeps its addresses and extents |
| AliasTest.IsAliasBruteForce | libcam/src/dependence_analysis.cpp:371-378 | the quadratic search answers true if and only if two accesses share a byte |
| AliasTest.GcdAliasFindsBases | libcam/src/dependence_analysis.cpp:389-408 | for any two entries the fast path finds exactly a common start address |
| AliasTest.GcdAliasAgrees | libcam/src/dependence_analysis.cpp:380-409 | for equal lengths, aligned bases and strides that are multiples of the length, the fast path agrees with the byte search |
| AliasTest.IsAlias | libcam/src/dependence_analysis.cpp:380-409 | over the integers: on the fast path it finds exactly the common start addresses; off it, and for whole strides, it agrees with the byte search |
| AliasTest.PartialOverlapMissed | libcam/src/dependence_analysis.cpp:385-408 | a partial overlap with a stride that is no multiple of the length is missed |
| AliasTest.PartialPairMisses | libcam/src/dependence_analysis.cpp:385-408 | for every stride that the length does not divide, a run of two and a single access overlap without a common start |
| AliasTest.WholeStridesExact | libcam/src/dependence_analysis.cpp:380-409 | for a length and two strides, the fast path agrees with the byte search on all entries it is called with if and only if the length divides both strides |
| AliasTest.WordsReliableExact | libcam/src/dependence_analysis.cpp:400-408 | for given lower ends and whole strides, the fast path in machine words agrees with the byte search for all numbers of accesses if and only if the pair is reliable |
| AliasTest.IsAliasWord | libcam/src/dependence_analysis.cpp:380-409 | the machine answer of `dynamic_gcd` for equal lengths, aligned bases and some stride, and that of the byte search otherwise |
| AliasTest.AliasSaysRight | libcam/src/dependence_analysis.cpp:380-409 | its answer is that of the byte search off the fast path, and on it for whole strides if and only if the words are reliable for the two entries |
| AliasTest.MissedAlias | libcam/src/dependence_analysis.cpp:400-408 | an alias that the machine arithmetic misses |
| IntervalTree.SearchExact | libcam/src/intervaltree/IntervalTree.h:186-204 | on an ordered tree every pruning test is justified: the search returns exactly the stored intervals that meet the query |
| IntervalTree.BuildOrdered | libcam/src/intervaltree/IntervalTree.h:112-184 | the constructor keeps the intervals as a multiset and establishes the order, for every list |
| IntervalTree.BuildThenSearch | libcam/src/intervaltree/IntervalTree.h:112-204 | building from any list and searching returns, as a multiset, precisely the intervals that meet the query |
| IntervalTree.GuardExact | libcam/src/intervaltree/IntervalTree.h:243 | the cursor's guard skips no hit and lets every node with a hit pass |
| IntervalTree.CrossOver | libcam/src/intervaltree/IntervalTree.h:266-267 | crossing to the right sibling continues with exactly what was pending |
| IntervalTree.ClimbUp | libcam/src/intervaltree/IntervalTree.h:263-269 | climbing without crossing skips nothing |
| IntervalCursor.TreeNode.constructor | libcam/src/intervaltree/IntervalTree.h:112-184 | links fresh nodes, with parent pointers, into the tree that the recursive definition gives |
| IntervalCursor.TreeNode.Partition | libcam/src/intervaltree/IntervalTree.h:161-175 | the loop sends each interval left, right or keeps it, and tracks the greatest stop |
| IntervalCursor.TreeNode.FindOverlapping | libcam/src/intervaltree/IntervalTree.h:186-204 | pushes the result of the recursive search |
| IntervalCursor.TreeNode.OverlapIteratorNext | libcam/src/intervaltree/IntervalTree.h:241-270 | the step ends at the next hit with nothing skipped, or at the end with nothing left |
| IntervalCursor.TreeNode.FindOverlappingWithIterator | libcam/src/intervaltree/IntervalTree.h:233-276 | the cursor run from begin to end terminates and yields the same intervals in the same order as the search |
| MemoryTracer.AddReferenceKeeps | libcam/src/MemoryTracer.cpp:175-198 | one more reference keeps the entries lossless, contiguous and greedy |
| MemoryTracer.RecordAllRepresents | libcam/src/MemoryTracer.cpp:175-198 | for every sequence of references the entries expand to it, with contiguous numbers |
| MemoryTracer.GreedyOptimal | libcam/src/MemoryTracer.cpp:190-195 | no cut of the same accesses into strided runs of equal width uses fewer entries |
| MemoryTracer.RepresentsUnique | libcam/src/MemoryTracer.cpp:175-198 | the references determine the entries: lossless, numbered from 0, greedy, and with stride 0 for a single access |
| MemoryTracer.TracerMemSet.RecordMemoryReference | libcam/src/MemoryTracer.cpp:175-198 | the recorded sequence grows by the reference and stays represented with the fewest entries, single accesses with stride 0 |
| MemoryTraceStreaming.CutConserves | libcam/src/MemoryTraceStreamer.cpp:68-82 | cutting behind an instance loses nothing and ends the chunk exactly there |
| MemoryTraceStreaming.MemoryTraceStreamer.GetNextChunk | libcam/src/MemoryTraceStreamer.cpp:46-112 | the chunk followed by what is pending is what was pending before, and the chunk has the requested length while the source has enough |
| RepetitionPatterns.RemoveFirstExact | libcam/src/RepetitionPattern.cpp:59-64 | removes exactly the smallest member, and empties a singleton |
| RepetitionPatterns.RemoveLastExact | libcam/src/RepetitionPattern.cpp:66-71 | removes exactly the greatest member, and empties a singleton |
| RepetitionPatterns.BuildLut | libcam/src/RepetitionPattern.cpp:130-167 | appends the table of all ranges, kept in key order with equal keys overwritten |
| RepetitionPatterns.TableExact | libcam/src/RepetitionPattern.cpp:155-163 | for disjoint patterns the table is ordered and holds a number with a datum if and only if the datum's pattern has the number |
| RepetitionPatterns.LookupFinds | libcam/src/RepetitionPattern.cpp:180-188 | looking up a covered number returns the datum of its range |
| RepetitionPatterns.BeginExact | libcam/src/RepetitionPattern.cpp:191-196 | the iterator starts at the smallest covered number |
| RepetitionPatterns.NextExact | libcam/src/RepetitionPattern.cpp:208-219 | a step goes to the next covered number, and ends after the last |
| IterationGroups.ExtendLastFlow | libcam/src/StaticLoopRec.cpp:212-222 | the last iteration of the latest group gets the further control flow, all others keep theirs |
| IterationGroups.WithoutFirstExact | libcam/src/StaticLoopRec.cpp:228-233 | dropping the merged iteration drops it alone |
| IterationGroups.MergeExact | libcam/src/StaticLoopRec.cpp:202-238 | merging consecutive segments leaves no iteration in two groups and gives each its old control flow followed by its new one |
| LoopTraceEntries.MergeEntriesExact | libcam/src/StaticLoopRec.cpp:437-466 | merging entries keeps every invocation with its control flow, none in two entries; no entry is empty, they are in the order of their invocations, and none is left over if and only if the second one is empty or both hold just the one shared invocation |
| Words.SetExact | xanlib/src/xanbitset.c:36-37 | or-ing in a mask sets its bit and no other |
| Words.UniformWords | xanlib/src/xanbitset.c:374 | the words that the searches skip have no bit set, or none unset |
| Words.WordsEqual | xanlib/src/xanbitset.c:132 | words with equal bits are equal |
| BitSets.SameBitsByWords | xanlib/src/xanbitset.c:130-156 | two word arrays hold the same bits if and only if their words agree, missing words counting as 0 |
| BitSets.XanBitSet.constructor | xanlib/src/xanbitset.c:58-70 | the new set is empty |
| BitSets.XanBitSet.Expand | xanlib/src/xanbitset.c:72-99 | growing keeps the members, with or without reallocation |
| BitSets.XanBitSet.SetBit | xanlib/src/xanbitset.c:233-238 | adds exactly one member, growing as needed, and keeps the bits past the length at 0 |
| BitSets.XanBitSet.Equal | xanlib/src/xanbitset.c:130-156 | true if and only if the members are the same, whatever the lengths |
| BitSets.XanBitSet.GetFirstBitSetInRange | xanlib/src/xanbitset.c:367-388 | the first member in the range, -1 if and only if there is none |
| BitSets.XanBitSet.GetFirstBitUnsetInRange | xanlib/src/xanbitset.c:390-415 | the first non-member in the range, the length when the range reaches past it |
| SharerRanges.WriteRange | libcam/src/loop_trace.cpp:1153-1202 | the ranges written are increasing maximal runs that hold exactly the set bits, shifted by the offset |
| SharerRanges.RunsUnique | libcam/src/loop_trace.cpp:1161-1197 | maximal runs are determined by their members, so reading them back loses nothing |
| IterationRecording.RecordKeeps | libcam/src/loop_trace.cpp:761-808 | recording adds the finished iteration with its symbols and changes no other |
| IterationRecording.DumpTracks | libcam/src/loop_trace.cpp:1465-1547 | a dump moves the text of every iteration from memory to the merged segments and loses none |
| IterationRecording.RunTracks | libcam/src/loop_trace.cpp:1661-1691 | after any events, dumped segments, records and compressor together make up the reference trace |
| IterationRecording.DumpedTraceIsLossless | libcam/src/loop_trace.cpp:1465-1547 | for every event sequence with dumps anywhere, the merged segments hold each iteration once, with exactly its instructions |
| IterationRecording.DumpsChangeNothing | libcam/src/loop_trace.cpp:1465-1547 | leaving the dumps out gives the same merged trace |
| IterationRecording.RecordsPartition | libcam/src/loop_trace.cpp:760-808 | the sharer sets partition the recorded iterations and each record decompresses to the instructions of all of them |
| IterationRecording.RecentsAreLatest | libcam/src/loop_trace.cpp:777-805 | for every event sequence, the recent list holds the 32 records that the iterations since the last dump used last, each once, the latest first |
| IterationRecording.SharedIfRecent | libcam/src/loop_trace.cpp:769-801 | the iteration that ends shares a record if and only if a recent one has the same instructions, and the first such one takes it |
| IterationRecording.RunningLoop.SeenInstruction | libcam/src/loop_trace.cpp:1085-1089 | refines the insertion event |
| IterationRecording.RunningLoop.FindMatch | libcam/src/loop_trace.cpp:770-772 | the first recent record with equal control flow |
| IterationRecording.RunningLoop.RecordInstsSeenOnIteration | libcam/src/loop_trace.cpp:760-808 | refines the recording step; compressors that were handed over are never changed again |
| IterationRecording.RunningLoop.ProfileLoopIterationStart | libcam/src/loop_trace.cpp:1661-1672 | refines the iteration event |
| IterationRecording.RunningLoop.FinishInvocation | libcam/src/loop_trace.cpp:1052-1058 | refines the end of a segment and hands its records over |
| IterationRecording.WriteInvocationToFile | libcam/src/loop_trace.cpp:1208-1233 | what is written for the records is the segment of the state machine |
| InvocationMatching.SameRecord | libcam/src/loop_trace.cpp:414-421 | two iteration records are equal if and only if offset, sharers and control flow are |
| InvocationMatching.LoopInvocationsMatch | libcam/src/loop_trace.cpp:898-916 | walking both lists together decides equality of their contents, for any number of records |
| InvocationMatching.CallInvocationsMatch | libcam/src/loop_trace.cpp:918-922 | two call invocations match if and only if the same instructions were recorded |
| InvocationMatching.RunOfTexts | libcam/src/loop_trace.cpp:760-808 | without a dump, the state of the recording is a function of the iterations alone |
| InvocationMatching.InvocationsMatchExact | libcam/src/loop_trace.cpp:898-916 | two complete loop invocations match if and only if they ran the same iterations with the same instructions |
| InvocationRecording.MarkPartition | libcam/src/loop_trace.cpp:994-1000 | a matching group takes an invocation that does not come before its first one, and the groups stay a partition |
| InvocationRecording.AppendPartition | libcam/src/loop_trace.cpp:826-840 | a new group holds just one invocation and the groups stay a partition |
| InvocationRecording.ExecTrace.ShiftLatestInvocationGroups | libcam/src/loop_trace.cpp:814-820 | the first entries move one place back, in place |
| RecentlyUsed.UsedAgain | libcam/src/loop_trace.cpp:996-999 | moving a used element to the front keeps the list that of the latest uses |
| RecentlyUsed.UsedFirst | libcam/src/loop_trace.cpp:826-840 | putting a new element in front and dropping the last of a full list does too |
| RecentlyUsed.LatestUnique | libcam/src/loop_trace.cpp:814-840 | the list of the latest uses is determined by the history of uses |
| InvocationRecording.ExecTrace.NewInvocationGroup | libcam/src/loop_trace.cpp:826-840 | appends a group and puts it first among those used last, of which the 32nd is dropped |
| InvocationRecording.ExecTrace.ProcessInvocation | libcam/src/loop_trace.cpp:975-1008 | the first complete group with equal content among the 32 used last takes the invocation and moves to the front, the others keeping their order, else a group is started; after any calls these groups are the 32 used last; dumped parts match nothing; the groups hold exactly the processed invocations; the assertion on the offset holds if and only if the matching group does not start with a later invocation |
| InvocationRecording.GrowingNumbersAccepted | libcam/src/loop_trace.cpp:459-463 | the assertion always holds when the numbers grow |
| InvocationRecording.NestedCalls | libcam/src/loop_trace.cpp:459-463 | three nested calls, of which the outer two are equal, make the assertion fail |
| InvocationRecording.ExecTrace.ClearTrace | libcam/src/loop_trace.cpp:530-546 | forgets all groups and the groups used last |
| InvocationRecording.ExecTrace.DumpTrace | libcam/src/loop_trace.cpp:1503-1535 | the groups written hold exactly the invocations processed since the last dump, each in one group, and any invocation is accepted afterwards |
| InstanceTables.AddRowKeeps | libcam/src/StaticLoopRec.cpp:271-287 | adding a range keeps the table exact, also when it is joined to the previous entry |
| InstanceTables.LookupExact | libcam/src/StaticLoopRec.cpp:321-326 | every instance is found, in the iteration that contains it |
| InstanceTables.LocatedUnique | libcam/src/StaticLoopRec.cpp:321-326 | an instance is in one iteration only |
| InstanceCounts.TotalExact | libcam/src/StaticLoopRec.cpp:254-263 | the sum over groups of iterations times count is the number of occurrences in the uncompressed trace |
| InvocationGroups.IterationTableExact | libcam/src/StaticLoopRec.cpp:245-252 | the table of iteration ranges covers exactly the recorded iterations, each with its group |
| InvocationGroups.InvocationTotal | libcam/src/StaticLoopRec.cpp:254-290 | the total equals the number of instances covered by the instance table |
| InvocationGroups.AddIterations | libcam/src/StaticLoopRec.cpp:269-288 | the loop over the instructions of a group extends exactly their tables |
| InvocationGroups.BuildNumberOfInstancesLut | libcam/src/StaticLoopRec.cpp:77-88 | sums the counts of all patterns of a group |
| InvocationGroups.NumberOfIterationsSlow | libcam/src/StaticLoopRec.cpp:102-107 | counts the members of the pattern |
| InvocationGroups.InvocationGroupCfc.MergeIterationInfo | libcam/src/StaticLoopRec.cpp:202-238 | the loops compute the merge that `MergeExact` is about |
| InvocationGroups.InvocationGroupCfc.BuildInvocationNumInstancesLut | libcam/src/StaticLoopRec.cpp:254-263 | the totals of all instructions |
| InvocationGroups.InvocationGroupCfc.BuildInstructionInstanceLut | libcam/src/StaticLoopRec.cpp:265-290 | the instance tables of all instructions are exact |
| InvocationGroups.InvocationGroupCfc.PrecomputeDataStructures | libcam/src/StaticLoopRec.cpp:292-297 | builds all tables, for the groups as they were before their control flow was discarded |
| InvocationGroups.InvocationGroupCfc.NumInstancesExact | libcam/src/StaticLoopRec.cpp:141-143 | the number of instances is the number of times the uncompressed trace executes the instruction |
| InvocationGroups.InvocationGroupCfc.IterationNumberExact | libcam/src/StaticLoopRec.cpp:321-326 | the iteration found for the k-th instance is the one that contains the k-th occurrence in the uncompressed trace |
| CallTraceMerging.VisitsInOrder | libcam/src/CallTrace.cpp:314-319 | iteration numbers never decrease along the visits |
| CallTraceMerging.VisitsEachOnce | libcam/src/CallTrace.cpp:314-319 | the visits of each call are its instances, each once and in order |
| CallTraceMerging.VisitsPermute | libcam/src/CallTrace.cpp:311-319 | the visits are a permutation of the instances of all calls |
| CallTraceMerging.AdvanceShrinks | libcam/src/CallTrace.cpp:37-50 | each step leaves one instance less, so the loop ends |
| CallTraceMerging.VisitsTally | libcam/src/CallTrace.cpp:299-319 | iteration by iteration, the visits execute a sub-instruction as often as the instances of all calls do |
| CallTraceMerging.EntriesCover | libcam/src/CallTrace.cpp:286-297 | the ranges of a sub-instruction are contiguous, disjoint and cover 0 to its total minus one |
| CallTraceMerging.CacheLocates | libcam/src/CallTrace.cpp:286-319 | the range that contains the k-th instance belongs to the iteration that contains it, however calls of one iteration were ordered; about the iteration only, the call is the matter of `CallersExact` |
| CallTraces.AddCallTraceCall | libcam/src/CallTrace.cpp:139-179 | the loops compute the merge that `MergeExact` is about, also when either side is empty |
| CallTraces.BuildLut | libcam/src/CallTrace.cpp:196-207 | builds the lookup tables of a call |
| CallTraces.CountsAtExact | libcam/src/CallTrace.cpp:188-190 | the counts looked up for a call instance are those of its control flow, and none is zero |
| CallTraces.AddToCallTraceCache | libcam/src/CallTrace.cpp:286-297 | one range for each sub-instruction of the call instance, behind those counted so far |
| CallTraces.CallTraceLoopInvocationGroup.UpdateCurrentInstances | libcam/src/CallTrace.cpp:37-50 | steps the visited call to its next instance or drops it after its last |
| CallTraces.InitialPendingOf | libcam/src/CallTrace.cpp:303-311 | the merge starts with all instances of every listed call pending |
| CallTraces.VisitsExecuteAll | libcam/src/CallTrace.cpp:313-322 | the visits execute a sub-instruction as often as all instances of all listed calls together |
| CallTraces.CacheHoldsAll | libcam/src/CallTrace.cpp:286-319 | the entries name exactly the call instances that execute the sub-instruction, each once, and cover their total |
| CallTraces.CallTraceLoopInvocationGroup.BuildCallTraceCache | libcam/src/CallTrace.cpp:299-339 | the cache of every sub-instruction names exactly the instances of the listed calls that execute it, each running count grows by the sum over all of them, and the constant-call flags are right |
| CallTraces.CacheEntryExact | libcam/src/CallTrace.cpp:286-297 | a cache entry is as long as its call instance executes the sub-instruction |
| CallTraces.CacheInOrder | libcam/src/CallTrace.cpp:299-324 | later entries have later instances and no earlier iteration |
| CallTraces.CacheEntryLocated | libcam/src/CallTrace.cpp:299-324 | an instance found in an entry belongs to the iteration of the entry's call instance; about the iteration only |
| CallTraceReuse.ReusedCacheExact | libcam/src/dependence_analysis.cpp:991-992 | in another invocation of the group, every instance lies in the iteration of its entry if and only if the iterations of the entries do not decrease; about the iteration only |
| CallTraceReuse.BuiltInOrder | libcam/src/CallTrace.cpp:299-324 | in the invocation that the cache was built for they never do |
| CallTraceReuse.SameCallsOfGroup | libcam/src/CallTrace.cpp:299-319 | two invocations that make the calls of the group equally often differ in the iterations of the instances only |
| CallTraceReuse.SwappedCalls | libcam/src/dependence_analysis.cpp:991-992 | two calls that change places between the invocations give accesses the wrong iterations |
| CallTraceOrder.VisitsSorted | libcam/src/CallTrace.cpp:27-34 | the visits go by iteration and, within an iteration, by the list of calls |
| CallTraceOrder.EntriesInOrder | libcam/src/CallTrace.cpp:286-319 | so do the entries of the cache, and those of one call by its instances |
| CallTraceOrder.CallersExact | libcam/src/CallTrace.cpp:286-319 | for every order in which the calls ran, the cache names for every access of an instruction the call that made it if and only if the calls executing it ran in visiting order |
| CallTraceOrder.CallersInListOrder | libcam/src/CallTrace.cpp:314-319 | in the invocation that the cache was built for, if and only if within each iteration they ran by the list of calls |
| CallTraceOrder.CallsOutOfListOrder | libcam/src/CallTrace.cpp:27-34 | two calls of one iteration that run the other way round are confused, although all iterations are right |
| CallTraceOrder.ReusedCallersExact | libcam/src/dependence_analysis.cpp:991-992 | in another invocation, the cache names the calls that made the accesses if and only if they ran in the visiting order of the invocation that it was built for |
| CallTraceOrder.CallersGiveIterations | libcam/src/dependence_analysis.cpp:991-992 | a cache that names the right calls also gives the right iterations |
| CallTraceOrder.ConstantCallRight | libcam/src/CallTrace.cpp:328-340 | when all entries name one call, it made all the accesses |
| MemSlicing.PieceOf | libcam/src/static_inst_rec.cpp:161-168 | the piece cut off holds the first accesses that are left, and the rest stays |
| MemSlicing.MemSet.InitialiseSliceIterator | libcam/src/static_inst_rec.cpp:219-225 | everything is unread again |
| MemSlicing.MemSet.TakeInstances | libcam/src/static_inst_rec.cpp:160-179 | takes exactly the next accesses, in pieces that all carry the given tags |
| MemSlicing.MemSet.SliceOfLoopInstruction | libcam/src/static_inst_rec.cpp:153-182 | the slice is the next accesses in order, each tagged with the iteration that contains it |
| MemSlicing.MemSet.SliceOfSubInstruction | libcam/src/static_inst_rec.cpp:183-213 | the slice is the next accesses in order, each tagged with the call instance whose range contains it |
| MemSlicing.MemSet.GetInvocationSliceWithIterTags | libcam/src/static_inst_rec.cpp:150-216 | either slice, and consecutive calls take consecutive accesses |
| MemSlicing.LoopTagsAreLookups | libcam/src/static_inst_rec.cpp:169 | the tag of the k-th access equals the iteration looked up for instance k |
| MemSlicing.CallTagsExact | libcam/src/static_inst_rec.cpp:187-201 | a slice cut with the cache of another invocation gives every access the iteration that contains it if and only if the cache names the calls in iteration order; about the iteration only |
| MemSlicing.CallTagsLocated | libcam/src/static_inst_rec.cpp:187-201 | in the invocation that the cache was built for, every access of a sub-instruction gets the iteration that contains it; about the iteration only |
| MemSlicing.CallTagsWith | libcam/src/static_inst_rec.cpp:183-213 | every access of the slice gets both the iteration that contains it and the call that made it if and only if the calls executing the sub-instruction ran in the visiting order of the invocation that the cache was built for |
| DependenceAnalysis.QueryExact | libcam/src/dependence_analysis.cpp:708-711 | a query with a read piece returns exactly the write pieces with overlapping extents |
| DependenceAnalysis.AnalyseRead | libcam/src/dependence_analysis.cpp:709-743 | records what the alias test reports among the overlaps of one read piece, or stops at the first report, which is recorded |
| DependenceAnalysis.AnalysePair | libcam/src/dependence_analysis.cpp:695-746 | all recorded pairs come from reported pieces, for any strides; all reported pieces are recorded, also by an early stop when each slice is attributed to one instruction; an early stop happens if and only if something is reported |
| DependenceAnalysis.ReportedIsDependence | libcam/src/dependence_analysis.cpp:380-409 | where the alias test is right for the pieces, they are reported if and only if they touch a common byte in different iterations |
| DependenceAnalysis.RecordedPairsAreConflicts | libcam/src/dependence_analysis.cpp:708-746 | a pair is recorded if and only if two accesses touch a common byte in different iterations |
| DependenceAnalysis.StopsAtConflict | libcam/src/dependence_analysis.cpp:729-735 | an early stop happens if and only if two accesses conflict |
| DependenceAnalysis.OneIdEnough | libcam/src/dependence_analysis.cpp:730-735 | with one instruction on each side, one recorded report leaves no pair unrecorded |
| DependenceAnalysis.AnalyseInvocations | libcam/src/dependence_analysis.cpp:630-750 | over all invocations, exactly the pairs are recorded that the invocations up to the first one justify in which one pair is enough and something is reported |
| DependenceAnalysis.NothingLost | libcam/src/dependence_analysis.cpp:730-735 | when behind an invocation that can end the analysis there are no other pairs than its own, whatever any invocation justifies is recorded |
| DependenceAnalysis.NothingLostExact | libcam/src/dependence_analysis.cpp:730-735 | for given attributions and guards of the invocations, nothing is lost for any contents if and only if behind an invocation that can end the analysis there are no other pairs than its own |
| DependenceAnalysis.LostPair | libcam/src/dependence_analysis.cpp:730-735 | an access made in another call in a later invocation: its pair is never recorded |
| DependenceAnalysis.TracesDependence | libcam/src/dependence_analysis.cpp:630-746 | two instructions, of the loop or of its calls, depend if and only if the uncompressed traces conflict across iterations |
| DependenceAnalysis.RecordedPairsOfTraces | libcam/src/dependence_analysis.cpp:630-746 | when the slices are tagged with the iterations and instructions that made the accesses, the recorded pairs are exactly those of the accesses of the two uncompressed traces that touch a common byte in different iterations |
| HeapOrder.MoveUp | xanlib/src/xanqueue.c:77-87 | swapping a node with its smaller parent moves the only disorder up |
| HeapOrder.MoveDown | xanlib/src/xanqueue.c:54-75 | swapping a node with its greater child moves the only disorder down |
| HeapOrder.RootIsGreatest | xanlib/src/xanqueue.c:182 | no priority in a heap exceeds that of the root |
| HeapOrder.ReplaceByLeaf | xanlib/src/xanqueue.c:94-99 | putting the last leaf into a hole disorders that position only |
| PriorityQueues.XanQueue.HeapSwapItem | xanlib/src/xanqueue.c:44-52 | swaps two items and keeps every position field equal to its index |
| PriorityQueues.XanQueue.HeapShiftUp | xanlib/src/xanqueue.c:77-87 | ends at a position below a parent that is not smaller, with the same items |
| PriorityQueues.XanQueue.LargestChild | xanlib/src/xanqueue.c:56-67 | picks a child with the greatest priority; the odd capacity keeps the right slot in bounds |
| PriorityQueues.XanQueue.HeapShiftDown | xanlib/src/xanqueue.c:54-75 | restores the heap, with the same items |
| PriorityQueues.XanQueue.HeapExtractItem | xanlib/src/xanqueue.c:89-115 | removes exactly the item at the position and restores the heap |
| PriorityQueues.XanQueue.Grow | xanlib/src/xanqueue.c:195-200 | the capacity stays odd, the items stay, and new slots are null |
| PriorityQueues.XanQueue.Put | xanlib/src/xanqueue.c:188-220 | adds exactly the new element, returns its handle and keeps the heap |
| PriorityQueues.XanQueue.Get | xanlib/src/xanqueue.c:168-186 | removes and returns an element of the greatest priority |
| PriorityQueues.XanQueue.ChangeItemPriority | xanlib/src/xanqueue.c:255-268 | changes one priority, keeps the items and restores the heap |
| PriorityQueues.XanQueue.RemoveItem | xanlib/src/xanqueue.c:270-278 | removes exactly the item of the handle |
| PriorityQueues.XanQueue.Find | xanlib/src/xanqueue.c:222-234 | a handle of the element, null if and only if there is none |
| PriorityQueues.XanQueue.HeadPriority | xanlib/src/xanqueue.c:244-253 | the greatest priority, -1 when empty |
| MemoryAnalysis.StreamOfRecorded | libcam/src/MemoryTraceStreamer.cpp:46-70 | however the entries of a recorded trace are cut into blocks, the stream holds exactly the recorded references |
| MemoryAnalysis.GetNumInstancesInInvocation | libcam/src/dependence_analysis.cpp:624-628 | the number requested is the number of accesses that the slicer will take |
| MemoryAnalysis.SliceOfInstruction | libcam/src/dependence_analysis.cpp:657-661 | chunk and slice are the next recorded accesses; each has the iteration that executed it, and both that and the instruction that made it, if and only if the calls ran as the cache assumes (always for an instruction of the loop); a slice that the early stop relies on is attributed to the one instruction that made all its accesses |
| MemoryAnalysis.RanAsBuiltInOwn | libcam/src/CallTrace.cpp:314-319 | in the invocation that the cache was built for, the calls ran as it assumes if and only if they ran by the list of calls within each iteration |
| MemoryAnalysis.BuiltForThis | libcam/src/dependence_analysis.cpp:991-992 | a cache that has just been built meets what slicing assumes |
| MemoryAnalysis.AttributionOfCalls | libcam/src/CallTrace.cpp:328-340 | a constant call of the cache means one attribution for the whole slice |
| MemoryAnalysis.ProperPieces | libcam/src/static_inst_rec.cpp:150-216 | pieces of addressable accesses are proper runs |
| MemoryAnalysis.AnalyseSlices | libcam/src/dependence_analysis.cpp:695-746 | whether it stops early or not, the analysis of a pair of rightly tagged slices records exactly the instructions that made the accesses which touch a common byte in different iterations; it takes the pair off the menu if and only if there are such accesses and each side is an instruction of the loop or has a constant call |
| EndToEnd.RunWellFormed | libcam/src/loop_trace.cpp:760-808 | everything recorded and dumped is well formed |
| EndToEnd.MergedIsIndexable | libcam/src/StaticLoopRec.cpp:292-297 | the merged segments of any run meet what the table builder requires |
| EndToEnd.RecordedInstancesAreFound | libcam/src/StaticLoopRec.cpp:321-326 | for every event sequence with dumps anywhere, the k-th instance is found in the iteration in which it was seen |
| WholeAnalysis.LocatedIsExecuted | libcam/src/StaticLoopRec.cpp:321-326 | an instance lies in an iteration of the merged segments if and only if it was executed in that iteration |
| WholeAnalysis.PairsOfRun | libcam/src/dependence_analysis.cpp:630-746 | for every event sequence with dumps anywhere and two instructions of the loop, the pair is recorded if and only if two of their references touch a common byte in different iterations of the loop as it was executed |

## Left out

- Text format, lexers and parsers (the `.lex` files), bzip2 files and file names: dumped segments and memory blocks are passed as structured records; the splitting of two-access entries with a large stride happens in a lexer and is not part of this model.
- Integers are unbounded except in `DynamicGcdWord.dfy` and the 64-bit words of `BitSet.dfy`: counters, addresses and instance numbers are taken not to overflow, and bit positions not to exceed the `int` that the searches return.
- Priorities are real numbers: float rounding and not-a-number priorities are not modelled.
- Records stored by value or owned through one pointer (patterns, strided entries, iteration groups, calls with their tables, invocation groups) are datatypes: increments in place become updated values in the owner's sequence, and their allocation and release are not modelled. A recent list names records by position instead of by pointer.
- std::sort, std::max_element, std::lower_bound and std::map are modelled by functions with their documented results; the order of equal keys after sorting is one of the allowed ones and no result depends on it.
- The `center` field of a leaf of the interval tree is uninitialised in the source and 0 in the model; it is never read.
- Copying and assignment of interval trees, the plain node iterator and `findContained`, the alias records, statistics, printing, command line, timeouts, memory accounting, locks and the platform layer.
- AliasTest.GcdAliasAgrees: needs strides that are multiples of the access length, because the fast path looks for equal start addresses only; `WholeStridesExact` shows that no other strides will do.
- DynamicGcdWord.IntersectReliableExact: needs strides below 2^63 whose product is a word (`Fits`), upper ends that leave room for one lcm (`RoomAbove`), and lower ends that leave room for two products; beyond that the lcm itself is computed wrongly, or is 0 and divided by.
- AliasTest.IsAlias: reads line 76 of `dynamic_gcd.cpp` over the integers; `IsAliasWord` is the same test in machine words.
- AliasTest.IsAliasWord: requires the same limits (`WordSized`) for the pairs that it decides with `dynamic_gcd`.
- MemoryTraceStreaming.MemoryTraceStreamer.GetNextChunk: the assertion on the chunk's length is returned as a flag, true if and only if it holds; the source of entries is abstract and delivers contiguous blocks.
- PriorityQueues.XanQueue.Get: requires a non-empty queue, where the source waits for another thread; the wake-up signal is not modelled.
- BitSets.XanBitSet.GetFirstBitSetInRange: requires a set of non-zero length, because the source subtracts one from the length first; sets grown by a set bit always have it.
- InvocationGroups.InvocationGroupCfc.MergeIterationInfo: requires that an empty segment does not follow a non-empty one, where the source would read past the end; `IterationRecording.DumpTracks` proves that dumping produces no such segment.
- InvocationGroups.InvocationGroupCfc.PrecomputeDataStructures: runs once on an object, because the source discards the control flow and does not clear the instance tables first.
- InvocationRecording.ExecTrace.ProcessInvocation: compares contents as values; `InvocationMatching.LoopInvocationsMatch` and `CallInvocationsMatch` decide that equality on the recording objects. A failed assertion is returned as a flag, with the state unchanged.
- LoopTraceEntries.MergeEntriesExact: is about values; an invocation shared by both entries must be split between them at one iteration, as dumps leave it.
- DependenceAnalysis.AnalysePair: requires that `dynamic_gcd` does not leave a machine word (`Sized`). The queries and the tests of one read piece are in two loops where the source interleaves them, and the mode that looks for dependences of adjacent iterations only is left out.
- DependenceAnalysis.RecordedPairsOfTraces: relates pairs to bytes where the alias test is right for the pieces (`Comparable`): pairs decided by `dynamic_gcd` have strides that are multiples of the access length and reliable machine words; `PartialOverlapMissed` and `MissedAlias` show that it misses dependences otherwise.
- MemoryAnalysis.SliceOfInstruction: a sub-instruction is taken not to be executed by the loop itself; the source counts its instances in the calls and slices them in the loop. That a write set is read once for several pairs is left out.
- The call traces of whole loop invocations (sharing and dumping of calls per invocation) beyond the merging and the cache above.
- xanBitSet_setAll, xanBitSet_invertBits and the remaining set operations, which the profiler does not use on these sets.
