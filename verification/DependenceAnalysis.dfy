/**
 The analysis of one instruction pair in one invocation: an interval tree over the write pieces is
 queried with every read piece, and overlaps of different iterations are tested for an alias.
 */
module DependenceAnalysis {
  import opened MemSetEntries
  import opened AliasTest
  import opened IntervalTree
  import opened IntervalCursor
  import opened MemSlicing
  import InstanceTables

  type InstrID = nat

  /** The pieces of a slice are proper runs of non-negative addresses. */
  ghost predicate ProperSlice(s: seq<TaggedEntry>) {
    forall i :: 0 <= i < |s| ==> s[i].entry.Proper() && NonNegative(s[i].entry)
  }

  /** dynamic_gcd does not leave a machine word for the pairs that it decides. */
  ghost predicate Sized(stores: seq<TaggedEntry>, loads: seq<TaggedEntry>)
    requires ProperSlice(stores) && ProperSlice(loads)
  {
    forall i, j :: 0 <= i < |stores| && 0 <= j < |loads| && TakesGcd(stores[i].entry, loads[j].entry) ==>
      WordSized(stores[i].entry, loads[j].entry)
  }

  /**
   The alias test is right for every pair: those it decides with dynamic_gcd have strides that are multiples
   of the access length, and dynamic_gcd is reliable for them in machine words.
   */
  ghost predicate Comparable(stores: seq<TaggedEntry>, loads: seq<TaggedEntry>)
    requires ProperSlice(stores) && ProperSlice(loads)
  {
    forall i, j :: 0 <= i < |stores| && 0 <= j < |loads| && TakesGcd(stores[i].entry, loads[j].entry) ==>
      && WholeStrides(stores[i].entry, loads[j].entry)
      && WordSized(stores[i].entry, loads[j].entry) && WordReliable(stores[i].entry, loads[j].entry)
  }

  /** The analysis reports the two pieces: their extents overlap and the alias test says yes, in different iterations. */
  ghost predicate Reported(w: TaggedEntry, r: TaggedEntry) {
    w.iterationNumber != r.iterationNumber && ExtentsOverlap(w.entry, r.entry) && AliasSays(w.entry, r.entry)
  }

  /** The two pieces touch a common byte in different iterations. */
  ghost predicate Depends(w: TaggedEntry, r: TaggedEntry) {
    w.iterationNumber != r.iterationNumber && SharesByte(w.entry, r.entry)
  }

  lemma SharedByteInExtents(a: MemSetEntry, b: MemSetEntry)
    requires a.Proper() && b.Proper() && SharesByte(a, b)
    ensures ExtentsOverlap(a, b)
  {
    var i, j :| 0 <= i < a.NumInstances() && 0 <= j < b.NumInstances() && Touch(a, i, b, j);
    ExtentsBound(a, i);
    ExtentsBound(b, j);
  }

  /** Where the alias test is right, exactly the dependent pieces are reported. */
  lemma ReportedIsDependence(stores: seq<TaggedEntry>, loads: seq<TaggedEntry>, i: nat, j: nat)
    requires ProperSlice(stores) && ProperSlice(loads) && Comparable(stores, loads) && i < |stores| && j < |loads|
    ensures Reported(stores[i], loads[j]) <==> Depends(stores[i], loads[j])
  {
    hide SharesByte, TakesGcd, WholeStrides, WordSized, WordReliable, ExtentsOverlap, AliasSays;
    var w, r := stores[i].entry, loads[j].entry;
    AliasSaysRight(w, r);
    if SharesByte(w, r) {
      SharedByteInExtents(w, r);
    }
  }

  function PairOf(w: TaggedEntry, r: TaggedEntry): (InstrID, InstrID) {
    (w.effectiveInstrID, r.effectiveInstrID)
  }

  function Flip(p: (InstrID, InstrID)): (InstrID, InstrID) {
    (p.1, p.0)
  }

  /** The pair, or its reverse when those are recorded too, comes from pieces that are reported. */
  ghost predicate Justified(p: (InstrID, InstrID), stores: seq<TaggedEntry>, loads: seq<TaggedEntry>, recordReverse: bool) {
    exists i, j :: 0 <= i < |stores| && 0 <= j < |loads| && Reported(stores[i], loads[j])
      && (p == PairOf(stores[i], loads[j]) || (recordReverse && p == Flip(PairOf(stores[i], loads[j]))))
  }

  ghost predicate AllJustified(pairs: set<(InstrID, InstrID)>, stores: seq<TaggedEntry>, loads: seq<TaggedEntry>, recordReverse: bool) {
    forall p <- pairs :: Justified(p, stores, loads, recordReverse)
  }

  ghost predicate RecordedPair(pairs: set<(InstrID, InstrID)>, w: TaggedEntry, r: TaggedEntry, recordReverse: bool) {
    PairOf(w, r) in pairs && (recordReverse ==> Flip(PairOf(w, r)) in pairs)
  }

  /** Every report about one of the first `n` read pieces is recorded. */
  ghost predicate AllRecorded(pairs: set<(InstrID, InstrID)>, stores: seq<TaggedEntry>, loads: seq<TaggedEntry>, n: nat, recordReverse: bool)
    requires n <= |loads|
  {
    forall i, j :: 0 <= i < |stores| && 0 <= j < n && Reported(stores[i], loads[j]) ==>
      RecordedPair(pairs, stores[i], loads[j], recordReverse)
  }

  ghost predicate NothingReported(stores: seq<TaggedEntry>, loads: seq<TaggedEntry>, n: nat)
    requires n <= |loads|
  {
    forall i, j :: 0 <= i < |stores| && 0 <= j < n ==> !Reported(stores[i], loads[j])
  }

  /** Something is reported, and its pair is recorded. */
  ghost predicate ReportRecorded(pairs: set<(InstrID, InstrID)>, stores: seq<TaggedEntry>, loads: seq<TaggedEntry>, recordReverse: bool) {
    exists i, j :: 0 <= i < |stores| && 0 <= j < |loads| && Reported(stores[i], loads[j])
      && RecordedPair(pairs, stores[i], loads[j], recordReverse)
  }

  /** All pieces are attributed to one instruction. */
  ghost predicate OneId(s: seq<TaggedEntry>) {
    forall i, j :: 0 <= i < |s| && 0 <= j < |s| ==> s[i].effectiveInstrID == s[j].effectiveInstrID
  }

  /** Then the first report already gives the only pair there can be. */
  lemma OneIdEnough(pairs: set<(InstrID, InstrID)>, stores: seq<TaggedEntry>, loads: seq<TaggedEntry>, recordReverse: bool)
    requires ReportRecorded(pairs, stores, loads, recordReverse)
    ensures OneId(stores) && OneId(loads) ==> AllRecorded(pairs, stores, loads, |loads|, recordReverse)
    ensures !NothingReported(stores, loads, |loads|)
  {
    hide Reported;
  }

  // ---------- the interval query finds every overlap ----------

  ghost predicate InAddressSpace(e: MemSetEntry) {
    0 <= e.LowerExtent() && 0 <= e.UpperExtent()
  }

  /** The interval from the lowest to the highest byte; its value is the position of the piece. */
  function ToInterval(e: MemSetEntry, i: nat): Interval
    requires InAddressSpace(e)
  {
    Interval(e.LowerExtent(), e.UpperExtent(), i)
  }

  function IntervalsOf(s: seq<TaggedEntry>): (r: seq<Interval>)
    requires forall i :: 0 <= i < |s| ==> InAddressSpace(s[i].entry)
    ensures |r| == |s|
    ensures forall i :: 0 <= i < |s| ==> r[i] == ToInterval(s[i].entry, i)
  {
    seq(|s|, i requires 0 <= i < |s| => ToInterval(s[i].entry, i))
  }

  lemma ProperInAddressSpace(e: MemSetEntry)
    requires e.Proper() && NonNegative(e)
    ensures InAddressSpace(e)
  {
    ExtentsBound(e, 0);
  }

  lemma {:induction false} HitMembers(s: seq<Interval>, start: nat, stop: nat, x: Interval)
    ensures x in Hits(s, start, stop) <==> x in s && Hit(x, start, stop)
  {
    if s != [] {
      HitMembers(s[1..], start, stop, x);
      assert s == [s[0]] + s[1..];
    }
  }

  /** The query with a read piece returns exactly the write pieces with overlapping extents. */
  lemma QueryExact(stores: seq<TaggedEntry>, r: MemSetEntry, overlaps: seq<Interval>)
    requires (forall i :: 0 <= i < |stores| ==> InAddressSpace(stores[i].entry)) && InAddressSpace(r)
    requires overlaps == Search(Build(IntervalsOf(stores), 16, 64, 0, 0, 512), r.LowerExtent(), r.UpperExtent())
    ensures forall k :: 0 <= k < |overlaps| ==> overlaps[k].value < |stores| && ExtentsOverlap(stores[overlaps[k].value].entry, r)
    ensures forall i :: 0 <= i < |stores| && ExtentsOverlap(stores[i].entry, r) ==>
              exists k :: 0 <= k < |overlaps| && overlaps[k].value == i
  {
    hide Build, Search, Hits, MemSetEntry.LowerExtent, MemSetEntry.UpperExtent;
    var s, start, stop := IntervalsOf(stores), r.LowerExtent(), r.UpperExtent();
    BuildThenSearch(s, 16, 64, 512, start, stop);
    SameMembers(overlaps, Hits(s, start, stop));
    forall k | 0 <= k < |overlaps|
      ensures overlaps[k].value < |stores| && ExtentsOverlap(stores[overlaps[k].value].entry, r)
    {
      assert overlaps[k] in overlaps;
      HitMembers(s, start, stop, overlaps[k]);
      var i :| 0 <= i < |s| && s[i] == overlaps[k];
    }
    forall i | 0 <= i < |stores| && ExtentsOverlap(stores[i].entry, r)
      ensures exists k :: 0 <= k < |overlaps| && overlaps[k].value == i
    {
      assert s[i] in s;
      HitMembers(s, start, stop, s[i]);
      assert s[i] in overlaps;
    }
  }

  // ---------- the analysis ----------

  method RecordDependencePair(a: InstrID, b: InstrID, pairs: set<(InstrID, InstrID)>, recordReverse: bool)
      returns (r: set<(InstrID, InstrID)>)
    ensures r == pairs + {(a, b)} + if recordReverse then {(b, a)} else {}
  {
    r := pairs + {(a, b)};
    if recordReverse {
      r := r + {(b, a)};
    }
  }

  /** Tests the overlaps of one read piece. */
  method AnalyseRead(stores: seq<TaggedEntry>, loads: seq<TaggedEntry>, j: nat, overlaps: seq<Interval>,
      pairs: set<(InstrID, InstrID)>, recordReverse: bool, oneIsEnough: bool)
      returns (r: set<(InstrID, InstrID)>, pairComplete: bool)
    requires ProperSlice(stores) && ProperSlice(loads) && Sized(stores, loads) && j < |loads|
    requires forall k :: 0 <= k < |overlaps| ==>
               overlaps[k].value < |stores| && ExtentsOverlap(stores[overlaps[k].value].entry, loads[j].entry)
    requires AllJustified(pairs, stores, loads, recordReverse) && AllRecorded(pairs, stores, loads, j, recordReverse)
    ensures AllJustified(r, stores, loads, recordReverse) && pairs <= r
    ensures !pairComplete ==> AllRecorded(r, stores, loads, j, recordReverse)
    ensures !pairComplete ==> forall m :: 0 <= m < |overlaps| && Reported(stores[overlaps[m].value], loads[j]) ==>
              !oneIsEnough && RecordedPair(r, stores[overlaps[m].value], loads[j], recordReverse)
    ensures pairComplete ==> oneIsEnough && ReportRecorded(r, stores, loads, recordReverse)
  {
    hide Reported, AliasSays, TakesGcd, WordSized, ExtentsOverlap, SharesByte, NonNegative, RecordedPair, AllJustified, AllRecorded;
    r, pairComplete := pairs, false;
    for k := 0 to |overlaps|
      invariant AllJustified(r, stores, loads, recordReverse) && AllRecorded(r, stores, loads, j, recordReverse) && pairs <= r
      invariant forall m :: 0 <= m < k && Reported(stores[overlaps[m].value], loads[j]) ==>
                  !oneIsEnough && RecordedPair(r, stores[overlaps[m].value], loads[j], recordReverse)
    {
      var w := stores[overlaps[k].value];
      var alias := false;
      if w.iterationNumber != loads[j].iterationNumber {
        alias := IsAliasWord(w.entry, loads[j].entry);
      }
      ReportedMeans(w, loads[j]);
      if alias {
        ghost var before := r;
        r := RecordDependencePair(w.effectiveInstrID, loads[j].effectiveInstrID, r, recordReverse);
        PairAdded(before, r, stores, loads, overlaps[k].value, j, recordReverse);
        if oneIsEnough {
          pairComplete := true;
          return;
        }
      }
    }
  }

  /**
   Records the instruction pairs of all pieces that are reported. When one pair is enough for the two
   instructions, the first report ends the analysis; no pair is lost by that when all pieces of
   each slice are attributed to one instruction.
   */
  method AnalysePair(stores: seq<TaggedEntry>, loads: seq<TaggedEntry>, recordReverse: bool, oneIsEnough: bool)
      returns (pairs: set<(InstrID, InstrID)>, pairComplete: bool)
    requires ProperSlice(stores) && ProperSlice(loads) && Sized(stores, loads)
    ensures AllJustified(pairs, stores, loads, recordReverse)
    ensures !pairComplete ==> AllRecorded(pairs, stores, loads, |loads|, recordReverse)
    ensures pairComplete ==> oneIsEnough && ReportRecorded(pairs, stores, loads, recordReverse)
    ensures oneIsEnough ==> (pairComplete <==> !NothingReported(stores, loads, |loads|))
    ensures !oneIsEnough || (OneId(stores) && OneId(loads)) ==> AllRecorded(pairs, stores, loads, |loads|, recordReverse)
  {
    hide Reported, Build, Search, ExtentsOverlap, NonNegative, TreeNode.Valid, AllJustified, AllRecorded, Sized,
      IntervalTree.Ordered;
    pairs, pairComplete := {}, false;
    NothingRecorded(stores, loads, recordReverse);
    AddressSpace(stores);
    AddressSpace(loads);
    var intervals := [];
    for i := 0 to |stores|
      invariant intervals == IntervalsOf(stores)[..i]
    {
      intervals := intervals + [ToInterval(stores[i].entry, i)];
    }
    assert IntervalsOf(stores)[..|stores|] == IntervalsOf(stores);
    BuildOrdered(intervals, 16, 64, 0, 0, 512);
    var writeTree := new TreeNode(intervals, 16, 64, 0, 0, 512, null);
    for j := 0 to |loads|
      invariant writeTree.Valid() && writeTree.parent == null && writeTree.model == Build(intervals, 16, 64, 0, 0, 512)
      invariant AllJustified(pairs, stores, loads, recordReverse) && AllRecorded(pairs, stores, loads, j, recordReverse)
      invariant oneIsEnough ==> NothingReported(stores, loads, j)
    {
      var r := loads[j].entry;
      assert InAddressSpace(r);
      var overlaps := writeTree.FindOverlappingWithIterator(r.LowerExtent(), r.UpperExtent(), []);
      PrependNothing(Search(writeTree.model, r.LowerExtent(), r.UpperExtent()));
      QueryExact(stores, r, overlaps);
      pairs, pairComplete := AnalyseRead(stores, loads, j, overlaps, pairs, recordReverse, oneIsEnough);
      if pairComplete {
        OneIdEnough(pairs, stores, loads, recordReverse);
        return;
      }
      ReadDone(pairs, stores, loads, j, overlaps, recordReverse, oneIsEnough);
    }
  }

  /** Nothing but what the reports justify, and all of it. */
  lemma ExactlyJustified(pairs: set<(InstrID, InstrID)>, stores: seq<TaggedEntry>, loads: seq<TaggedEntry>, recordReverse: bool)
    requires AllJustified(pairs, stores, loads, recordReverse) && AllRecorded(pairs, stores, loads, |loads|, recordReverse)
    ensures forall p :: p in pairs <==> Justified(p, stores, loads, recordReverse)
  {
    hide Reported;
    forall p | Justified(p, stores, loads, recordReverse)
      ensures p in pairs
    {
      var i, j :| 0 <= i < |stores| && 0 <= j < |loads| && Reported(stores[i], loads[j])
        && (p == PairOf(stores[i], loads[j]) || (recordReverse && p == Flip(PairOf(stores[i], loads[j]))));
      assert RecordedPair(pairs, stores[i], loads[j], recordReverse);
    }
  }

  // ---------- the invocations of the loop, one after the other ----------

  /** What one invocation hands to the analysis of the pair. */
  datatype PairSlices = PairSlices(stores: seq<TaggedEntry>, loads: seq<TaggedEntry>, oneIsEnough: bool) {

    ghost predicate Valid() {
      && ProperSlice(stores) && ProperSlice(loads) && Sized(stores, loads)
      && (oneIsEnough ==> OneId(stores) && OneId(loads))
    }
  }

  ghost predicate JustifiedIn(p: (InstrID, InstrID), inv: PairSlices, recordReverse: bool) {
    Justified(p, inv.stores, inv.loads, recordReverse)
  }

  ghost predicate Independent(inv: PairSlices) {
    NothingReported(inv.stores, inv.loads, |inv.loads|)
  }

  /** How many invocations are looked at: the first one in which one recorded pair is enough and something is reported is the last. */
  ghost function Looked(invs: seq<PairSlices>): (n: nat)
    ensures n <= |invs|
  {
    if invs == [] then 0
    else if invs[0].oneIsEnough && !Independent(invs[0]) then 1
    else 1 + Looked(invs[1..])
  }

  lemma {:induction false} LookedUpTo(invs: seq<PairSlices>, n: nat)
    requires n <= |invs| && forall i :: 0 <= i < n ==> invs[i].oneIsEnough ==> Independent(invs[i])
    ensures Looked(invs) == n + Looked(invs[n..])
  {
    hide Independent;
    if n > 0 {
      LookedUpTo(invs[1..], n - 1);
      assert invs[1..][n - 1..] == invs[n..];
    } else {
      assert invs[0..] == invs;
    }
  }

  /** What ends the analysis is the last invocation that is looked at. */
  lemma {:induction false} LastLooked(invs: seq<PairSlices>)
    requires Looked(invs) < |invs|
    ensures Looked(invs) > 0 && invs[Looked(invs) - 1].oneIsEnough && !Independent(invs[Looked(invs) - 1])
  {
    hide Independent;
    if !(invs[0].oneIsEnough && !Independent(invs[0])) {
      LastLooked(invs[1..]);
    }
  }

  /**
   The pair stays on the menu until an invocation in which one recorded pair is enough has a report. What is
   recorded is exactly what the invocations up to that one justify; the ones behind it are not looked at.
   */
  method AnalyseInvocations(invs: seq<PairSlices>, recordReverse: bool) returns (pairs: set<(InstrID, InstrID)>, looked: nat)
    requires forall i :: 0 <= i < |invs| ==> invs[i].Valid()
    ensures looked == Looked(invs)
    ensures forall p :: p in pairs <==> exists i :: 0 <= i < looked && JustifiedIn(p, invs[i], recordReverse)
  {
    hide Justified, NothingReported, AllJustified, AllRecorded, Independent;
    pairs, looked := {}, 0;
    var pairComplete := false;
    while looked < |invs| && !pairComplete
      invariant looked <= |invs|
      invariant forall p :: p in pairs <==> exists i :: 0 <= i < looked && JustifiedIn(p, invs[i], recordReverse)
      invariant pairComplete ==> looked > 0 && invs[looked - 1].oneIsEnough && !Independent(invs[looked - 1])
      invariant forall i :: 0 <= i < (if pairComplete then looked - 1 else looked) ==> invs[i].oneIsEnough ==> Independent(invs[i])
      decreases |invs| - looked
    {
      var inv := invs[looked];
      var more: set<(InstrID, InstrID)>;
      more, pairComplete := AnalysePair(inv.stores, inv.loads, recordReverse, inv.oneIsEnough);
      IndependentIs(inv);
      ExactlyJustified(more, inv.stores, inv.loads, recordReverse);
      pairs := pairs + more;
      looked := looked + 1;
    }
    LookedUpTo(invs, if pairComplete then looked - 1 else looked);
  }

  lemma IndependentIs(inv: PairSlices)
    ensures Independent(inv) <==> NothingReported(inv.stores, inv.loads, |inv.loads|)
  {
  }

  // ---------- when no pair is lost by an early end ----------

  /** What is known of an invocation before its accesses are compared: whom they are attributed to, and the guard. */
  datatype Attribution = Attribution(stores: seq<InstrID>, loads: seq<InstrID>, oneIsEnough: bool) {

    /** The guard holds only when each side is attributed to one instruction. */
    ghost predicate Consistent() {
      oneIsEnough ==>
        (forall k :: 0 <= k < |stores| ==> stores[k] == stores[0]) && (forall k :: 0 <= k < |loads| ==> loads[k] == loads[0])
    }
  }

  function Ids(s: seq<TaggedEntry>): (r: seq<InstrID>)
    ensures |r| == |s| && forall k :: 0 <= k < |s| ==> r[k] == s[k].effectiveInstrID
  {
    seq(|s|, k requires 0 <= k < |s| => s[k].effectiveInstrID)
  }

  ghost predicate AttributedAs(invs: seq<PairSlices>, known: seq<Attribution>) {
    && |invs| == |known|
    && forall i :: 0 <= i < |invs| ==>
         invs[i].Valid() && known[i] == Attribution(Ids(invs[i].stores), Ids(invs[i].loads), invs[i].oneIsEnough)
  }

  /** Everything that some invocation justifies is justified by one that is looked at, and so is recorded. */
  ghost predicate AllPairsRecorded(invs: seq<PairSlices>, recordReverse: bool) {
    forall p, i :: 0 <= i < |invs| && JustifiedIn(p, invs[i], recordReverse) ==>
      exists k :: 0 <= k < Looked(invs) && JustifiedIn(p, invs[k], recordReverse)
  }

  predicate SamePair(p: (InstrID, InstrID), q: (InstrID, InstrID), recordReverse: bool) {
    p == q || (recordReverse && p == Flip(q))
  }

  /** Behind an invocation that can end the analysis there are no other pairs than its own. */
  ghost predicate NoOtherPairs(known: seq<Attribution>, recordReverse: bool) {
    forall i, j, a, b ::
      0 <= i < j < |known| && known[i].oneIsEnough && known[i].stores != [] && known[i].loads != []
      && a in known[j].stores && b in known[j].loads ==>
        SamePair((a, b), (known[i].stores[0], known[i].loads[0]), recordReverse)
  }

  lemma NothingLost(invs: seq<PairSlices>, known: seq<Attribution>, recordReverse: bool)
    requires AttributedAs(invs, known) && NoOtherPairs(known, recordReverse)
    ensures AllPairsRecorded(invs, recordReverse)
  {
    hide Reported, Looked, PairSlices.Valid;
    forall p, i | 0 <= i < |invs| && JustifiedIn(p, invs[i], recordReverse)
      ensures exists k :: 0 <= k < Looked(invs) && JustifiedIn(p, invs[k], recordReverse)
    {
      if Looked(invs) <= i {
        LastLooked(invs);
        var m := Looked(invs) - 1;
        assert JustifiedIn(p, invs[m], recordReverse) by {
          OnlyPair(p, invs[i], invs[m], recordReverse);
        }
      }
    }
  }

  /** All that one invocation justifies is justified by the other, whose pair is the only one of both. */
  lemma OnlyPair(p: (InstrID, InstrID), inv: PairSlices, other: PairSlices, recordReverse: bool)
    requires JustifiedIn(p, inv, recordReverse) && !Independent(other) && other.Valid() && other.oneIsEnough
    requires other.stores != [] && other.loads != [] ==>
               forall a, b :: a in Ids(inv.stores) && b in Ids(inv.loads) ==>
                 SamePair((a, b), (other.stores[0].effectiveInstrID, other.loads[0].effectiveInstrID), recordReverse)
    ensures JustifiedIn(p, other, recordReverse)
  {
    hide Reported, Sized;
    var i, j :| 0 <= i < |other.stores| && 0 <= j < |other.loads| && Reported(other.stores[i], other.loads[j]);
    var k, l :| 0 <= k < |inv.stores| && 0 <= l < |inv.loads| && Reported(inv.stores[k], inv.loads[l])
      && (p == PairOf(inv.stores[k], inv.loads[l]) || (recordReverse && p == Flip(PairOf(inv.stores[k], inv.loads[l]))));
    assert Ids(inv.stores)[k] in Ids(inv.stores) && Ids(inv.loads)[l] in Ids(inv.loads);
    assert SamePair(PairOf(inv.stores[k], inv.loads[l]), PairOf(other.stores[i], other.loads[j]), recordReverse);
  }

  /**
   For invocations of which the attributions and guards are known: whatever they access, every pair that one of them
   justifies is recorded, if and only if behind an invocation that can end the analysis there are no other pairs.
   */
  lemma NothingLostExact(known: seq<Attribution>, recordReverse: bool)
    requires forall i :: 0 <= i < |known| ==> known[i].Consistent()
    ensures (forall invs :: AttributedAs(invs, known) ==> AllPairsRecorded(invs, recordReverse)) <==> NoOtherPairs(known, recordReverse)
  {
    hide SamePair, Attribution.Consistent, AttributedAs, AllPairsRecorded;
    if NoOtherPairs(known, recordReverse) {
      forall invs | AttributedAs(invs, known)
        ensures AllPairsRecorded(invs, recordReverse)
      {
        NothingLost(invs, known, recordReverse);
      }
    } else {
      var i, j, a, b :|
        0 <= i < j < |known| && known[i].oneIsEnough && known[i].stores != [] && known[i].loads != []
        && a in known[j].stores && b in known[j].loads
        && !SamePair((a, b), (known[i].stores[0], known[i].loads[0]), recordReverse);
      OtherPairLost(known, recordReverse, i, j, a, b);
    }
  }

  /** One access of address 0. */
  const ONE_ACCESS := MemSetEntry(0, 0, 4, 0, 0)

  /** All instructions access address 0 in one iteration. */
  function AccessedBy(ids: seq<InstrID>, iteration: nat): (r: seq<TaggedEntry>)
    ensures |r| == |ids| && forall k :: 0 <= k < |ids| ==> r[k] == TaggedEntry(ONE_ACCESS, iteration, ids[k])
  {
    seq(|ids|, k requires 0 <= k < |ids| => TaggedEntry(ONE_ACCESS, iteration, ids[k]))
  }

  /** All accesses are of address 0, those of the two sides in different iterations if the invocation is to conflict. */
  function Filled(known: Attribution, conflicting: bool): PairSlices {
    PairSlices(AccessedBy(known.stores, 0), AccessedBy(known.loads, if conflicting then 1 else 0), known.oneIsEnough)
  }

  lemma OneAccess()
    ensures ONE_ACCESS.Proper() && NonNegative(ONE_ACCESS) && !TakesGcd(ONE_ACCESS, ONE_ACCESS)
    ensures ExtentsOverlap(ONE_ACCESS, ONE_ACCESS) && AliasSays(ONE_ACCESS, ONE_ACCESS)
  {
    hide WordSized, GcdAliasWord, MemSetEntry.IsAligned;
    SharesOwnBytes(ONE_ACCESS);
  }

  lemma SharesOwnBytes(e: MemSetEntry)
    requires e.Proper()
    ensures SharesByte(e, e)
  {
    var i, j := 0, 0;
    assert Touch(e, i, e, j);
  }

  lemma FilledValid(known: Attribution, conflicting: bool)
    requires known.Consistent()
    ensures var inv := Filled(known, conflicting);
            inv.Valid() && known == Attribution(Ids(inv.stores), Ids(inv.loads), inv.oneIsEnough)
  {
    hide MemSetEntry.Proper, NonNegative, TakesGcd, WordSized;
    OneAccess();
    var inv := Filled(known, conflicting);
    assert Ids(inv.stores) == known.stores && Ids(inv.loads) == known.loads;
  }

  lemma FilledReports(known: Attribution, conflicting: bool, k: nat, l: nat)
    requires k < |known.stores| && l < |known.loads|
    ensures var inv := Filled(known, conflicting);
            && (Reported(inv.stores[k], inv.loads[l]) <==> conflicting)
            && PairOf(inv.stores[k], inv.loads[l]) == (known.stores[k], known.loads[l])
  {
    hide ExtentsOverlap, AliasSays;
    OneAccess();
  }

  lemma FilledPieces(known: Attribution, conflicting: bool)
    ensures var inv := Filled(known, conflicting);
            && |inv.stores| == |known.stores| && |inv.loads| == |known.loads|
            && forall k, l :: 0 <= k < |inv.stores| && 0 <= l < |inv.loads| ==>
                 && (Reported(inv.stores[k], inv.loads[l]) <==> conflicting)
                 && PairOf(inv.stores[k], inv.loads[l]) == (known.stores[k], known.loads[l])
  {
    hide Reported;
    forall k, l | 0 <= k < |known.stores| && 0 <= l < |known.loads|
      ensures var inv := Filled(known, conflicting);
              && (Reported(inv.stores[k], inv.loads[l]) <==> conflicting)
              && PairOf(inv.stores[k], inv.loads[l]) == (known.stores[k], known.loads[l])
    {
      FilledReports(known, conflicting, k, l);
    }
  }

  lemma FilledIndependent(known: Attribution, conflicting: bool)
    ensures Independent(Filled(known, conflicting)) == !(conflicting && known.stores != [] && known.loads != [])
  {
    hide Reported, Filled, PairOf;
    var inv := Filled(known, conflicting);
    FilledPieces(known, conflicting);
    if conflicting && known.stores != [] && known.loads != [] {
      assert Reported(inv.stores[0], inv.loads[0]);
    }
  }

  lemma FilledJustifies(known: Attribution, conflicting: bool, recordReverse: bool, p: (InstrID, InstrID))
    ensures JustifiedIn(p, Filled(known, conflicting), recordReverse)
            <==> conflicting && exists a, b :: a in known.stores && b in known.loads && SamePair(p, (a, b), recordReverse)
  {
    hide Reported, Filled, PairOf;
    var inv := Filled(known, conflicting);
    FilledPieces(known, conflicting);
    if conflicting {
      if a, b :| a in known.stores && b in known.loads && SamePair(p, (a, b), recordReverse) {
        var k :| 0 <= k < |known.stores| && known.stores[k] == a;
        var l :| 0 <= l < |known.loads| && known.loads[l] == b;
        assert PairOf(inv.stores[k], inv.loads[l]) == (a, b);
      }
    }
  }

  /** Invocation `i` ends the analysis, and the pair of invocation `j` is only justified there. */
  lemma OtherPairLost(known: seq<Attribution>, recordReverse: bool, i: nat, j: nat, a: InstrID, b: InstrID)
    requires forall k :: 0 <= k < |known| ==> known[k].Consistent()
    requires i < j < |known| && known[i].oneIsEnough && known[i].stores != [] && known[i].loads != []
    requires a in known[j].stores && b in known[j].loads
    requires !SamePair((a, b), (known[i].stores[0], known[i].loads[0]), recordReverse)
    ensures exists invs :: AttributedAs(invs, known) && !AllPairsRecorded(invs, recordReverse)
  {
    hide Looked, JustifiedIn, Independent, PairSlices.Valid, Attribution.Consistent, Filled, Ids;
    var invs := seq(|known|, k requires 0 <= k < |known| => Filled(known[k], k == i || k == j));
    forall k | 0 <= k < |known|
      ensures invs[k].Valid() && known[k] == Attribution(Ids(invs[k].stores), Ids(invs[k].loads), invs[k].oneIsEnough)
    {
      FilledValid(known[k], k == i || k == j);
    }
    assert AttributedAs(invs, known);
    forall k | 0 <= k < |known|
      ensures k < i ==> Independent(invs[k])
      ensures k <= i ==> !JustifiedIn((a, b), invs[k], recordReverse)
      ensures k == i ==> !Independent(invs[k])
      ensures k == j ==> JustifiedIn((a, b), invs[k], recordReverse)
    {
      FilledIndependent(known[k], k == i || k == j);
      FilledJustifies(known[k], k == i || k == j, recordReverse, (a, b));
      if k == i {
        OneOnly(known[i], a, b, recordReverse);
      }
    }
    LookedUpTo(invs, i);
    LooksAtFirst(invs[i..]);
    assert !AllPairsRecorded(invs, recordReverse);
  }

  lemma OneOnly(known: Attribution, a: InstrID, b: InstrID, recordReverse: bool)
    requires known.Consistent() && known.oneIsEnough && known.stores != [] && known.loads != []
    requires !SamePair((a, b), (known.stores[0], known.loads[0]), recordReverse)
    ensures !exists c, d :: c in known.stores && d in known.loads && SamePair((a, b), (c, d), recordReverse)
  {
  }

  lemma LooksAtFirst(invs: seq<PairSlices>)
    requires invs != [] && invs[0].oneIsEnough && !Independent(invs[0])
    ensures Looked(invs) == 1
  {
  }

  /** One access of address 0 on each side, in iterations 0 and 1, the first made in call `caller`. */
  function OneConflict(caller: InstrID, second: InstrID): PairSlices {
    PairSlices([TaggedEntry(MemSetEntry(0, 0, 4, 0, 0), 0, caller)], [TaggedEntry(MemSetEntry(0, 0, 4, 0, 0), 1, second)], true)
  }

  lemma OneConflictDepends(caller: InstrID, second: InstrID)
    ensures var inv := OneConflict(caller, second);
            && inv.Valid() && !Independent(inv)
            && forall p :: JustifiedIn(p, inv, false) <==> p == (caller, second)
  {
    var inv := OneConflict(caller, second);
    assert Touch(inv.stores[0].entry, 0, inv.loads[0].entry, 0);
    assert Reported(inv.stores[0], inv.loads[0]);
    assert PairOf(inv.stores[0], inv.loads[0]) == (caller, second);
  }

  /**
   The constancy of the calling instruction is checked within one invocation only: when the first invocation makes
   the access in one call and the second in another, the pair of the second call is never recorded.
   */
  method LostPair(caller: InstrID, other: InstrID, second: InstrID) returns (pairs: set<(InstrID, InstrID)>)
    requires caller != other
    ensures JustifiedIn((other, second), OneConflict(other, second), false)
    ensures (caller, second) in pairs && (other, second) !in pairs
  {
    hide PairSlices.Valid, JustifiedIn, Independent, OneConflict;
    OneConflictDepends(caller, second);
    OneConflictDepends(other, second);
    var invs := [OneConflict(caller, second), OneConflict(other, second)];
    OneConflictGuard(caller, second);
    var looked;
    pairs, looked := AnalyseInvocations(invs, false);
    LooksAtFirst(invs);
    assert looked == 1;
    assert JustifiedIn((caller, second), invs[0], false);
  }

  lemma OneConflictGuard(caller: InstrID, second: InstrID)
    ensures OneConflict(caller, second).oneIsEnough
  {
  }

  lemma PrependNothing<T>(s: seq<T>)
    ensures [] + s == s
  {
  }

  lemma NothingRecorded(stores: seq<TaggedEntry>, loads: seq<TaggedEntry>, recordReverse: bool)
    ensures AllJustified({}, stores, loads, recordReverse) && AllRecorded({}, stores, loads, 0, recordReverse)
    ensures NothingReported(stores, loads, 0)
  {
  }

  lemma AddressSpace(s: seq<TaggedEntry>)
    requires ProperSlice(s)
    ensures forall i :: 0 <= i < |s| ==> InAddressSpace(s[i].entry)
  {
    forall i | 0 <= i < |s|
      ensures InAddressSpace(s[i].entry)
    {
      ProperInAddressSpace(s[i].entry);
    }
  }

  lemma ReportedMeans(w: TaggedEntry, r: TaggedEntry)
    ensures Reported(w, r) <==> w.iterationNumber != r.iterationNumber && ExtentsOverlap(w.entry, r.entry) && AliasSays(w.entry, r.entry)
  {
  }

  /** Recording a pair justifies the new pairs and loses none. */
  lemma PairAdded(before: set<(InstrID, InstrID)>, after: set<(InstrID, InstrID)>, stores: seq<TaggedEntry>, loads: seq<TaggedEntry>,
      i: nat, j: nat, recordReverse: bool)
    requires i < |stores| && j < |loads| && Reported(stores[i], loads[j])
    requires var p := PairOf(stores[i], loads[j]); after == before + {p} + if recordReverse then {(p.1, p.0)} else {}
    requires AllJustified(before, stores, loads, recordReverse) && AllRecorded(before, stores, loads, j, recordReverse)
    ensures AllJustified(after, stores, loads, recordReverse) && AllRecorded(after, stores, loads, j, recordReverse)
    ensures RecordedPair(after, stores[i], loads[j], recordReverse) && before <= after && after != {}
    ensures forall w, r :: RecordedPair(before, w, r, recordReverse) ==> RecordedPair(after, w, r, recordReverse)
  {
    hide Reported;
    assert PairOf(stores[i], loads[j]) in after;
  }

  /** The overlaps of a read piece are all the write pieces that can depend on it. */
  lemma ReadDone(pairs: set<(InstrID, InstrID)>, stores: seq<TaggedEntry>, loads: seq<TaggedEntry>, j: nat, overlaps: seq<Interval>,
      recordReverse: bool, oneIsEnough: bool)
    requires ProperSlice(stores) && ProperSlice(loads) && j < |loads|
    requires forall k :: 0 <= k < |overlaps| ==> overlaps[k].value < |stores|
    requires forall i :: 0 <= i < |stores| && ExtentsOverlap(stores[i].entry, loads[j].entry) ==>
               exists k :: 0 <= k < |overlaps| && overlaps[k].value == i
    requires AllRecorded(pairs, stores, loads, j, recordReverse) && (oneIsEnough ==> NothingReported(stores, loads, j))
    requires forall m :: 0 <= m < |overlaps| && Reported(stores[overlaps[m].value], loads[j]) ==>
               !oneIsEnough && RecordedPair(pairs, stores[overlaps[m].value], loads[j], recordReverse)
    ensures AllRecorded(pairs, stores, loads, j + 1, recordReverse) && (oneIsEnough ==> NothingReported(stores, loads, j + 1))
  {
    hide Reported, AliasSays, ExtentsOverlap, RecordedPair;
    forall i | 0 <= i < |stores| && Reported(stores[i], loads[j])
      ensures !oneIsEnough && RecordedPair(pairs, stores[i], loads[j], recordReverse)
    {
      ReportedMeans(stores[i], loads[j]);
      var k :| 0 <= k < |overlaps| && overlaps[k].value == i;
      assert Reported(stores[overlaps[k].value], loads[j]);
    }
  }

  // ---------- what the result says about the accesses ----------

  /** The two accesses touch a common byte. */
  predicate BytesMeet(a: Access, b: Access) {
    a.addr <= b.addr + b.length - 1 && b.addr <= a.addr + a.length - 1
  }

  /** Access `a` of the first instruction and access `b` of the second conflict across iterations. */
  ghost predicate Conflict(a: TaggedAccess, b: TaggedAccess) {
    a.iterationNumber != b.iterationNumber && BytesMeet(a.access, b.access)
  }

  /** `a` is one of the accesses of the pieces. */
  ghost predicate FromPiece(s: seq<TaggedEntry>, a: TaggedAccess) {
    exists i :: 0 <= i < |s| && AccessOf(s[i], a)
  }

  ghost predicate AccessOf(t: TaggedEntry, a: TaggedAccess) {
    exists n :: 0 <= n < t.entry.NumInstances() && a == NthAccess(t, n)
  }

  ghost function NthAccess(t: TaggedEntry, n: int): TaggedAccess {
    TaggedAccess(Access(t.entry.AccessLower(n), t.entry.length), t.iterationNumber, t.effectiveInstrID)
  }

  lemma {:induction false} TaggedMember(s: seq<TaggedEntry>, a: TaggedAccess)
    requires Pieces(s)
    ensures a in Tagged(s) <==> FromPiece(s, a)
  {
    hide AccessOf, TaggedPiece;
    if s != [] {
      var k := |s| - 1;
      TaggedMember(s[..k], a);
      PieceMember(s[k], a);
      assert FromPiece(s, a) <==> FromPiece(s[..k], a) || AccessOf(s[k], a) by {
        if FromPiece(s[..k], a) {
          var i :| 0 <= i < k && AccessOf(s[..k][i], a);
          assert AccessOf(s[i], a);
        }
        if i :| 0 <= i < |s| && AccessOf(s[i], a) {
          assert i < k ==> AccessOf(s[..k][i], a);
        }
      }
    }
  }

  lemma PieceMember(t: TaggedEntry, a: TaggedAccess)
    requires t.entry.Valid()
    ensures a in TaggedPiece(t) <==> AccessOf(t, a)
  {
    PieceTagged(t);
    forall n | 0 <= n < t.entry.NumInstances()
      ensures TaggedPiece(t)[n] == NthAccess(t, n)
    {
      assert t.entry.Expand()[n] == Access(t.entry.AccessLower(n), t.entry.length);
    }
    if a in TaggedPiece(t) {
      var n :| 0 <= n < |TaggedPiece(t)| && TaggedPiece(t)[n] == a;
      assert a == NthAccess(t, n);
    }
  }

  /** The instruction pair comes from two conflicting accesses. */
  ghost predicate ConflictPair(stores: seq<TaggedEntry>, loads: seq<TaggedEntry>, p: (InstrID, InstrID))
    requires Pieces(stores) && Pieces(loads)
  {
    exists a, b :: a in Tagged(stores) && b in Tagged(loads) && Conflict(a, b) && p == (a.effectiveInstrID, b.effectiveInstrID)
  }

  lemma DependsHasConflict(stores: seq<TaggedEntry>, loads: seq<TaggedEntry>, i: nat, j: nat)
    requires Pieces(stores) && Pieces(loads) && i < |stores| && j < |loads| && Depends(stores[i], loads[j])
    ensures ConflictPair(stores, loads, PairOf(stores[i], loads[j]))
  {
    hide Tagged;
    var w, r := stores[i], loads[j];
    var m, n :| 0 <= m < w.entry.NumInstances() && 0 <= n < r.entry.NumInstances() && Touch(w.entry, m, r.entry, n);
    var a, b := NthAccess(w, m), NthAccess(r, n);
    assert AccessOf(w, a) && AccessOf(r, b);
    TaggedMember(stores, a);
    TaggedMember(loads, b);
    assert Conflict(a, b);
  }

  lemma ConflictDepends(stores: seq<TaggedEntry>, loads: seq<TaggedEntry>, a: TaggedAccess, b: TaggedAccess) returns (i: nat, j: nat)
    requires Pieces(stores) && Pieces(loads) && a in Tagged(stores) && b in Tagged(loads) && Conflict(a, b)
    ensures i < |stores| && j < |loads| && Depends(stores[i], loads[j])
    ensures PairOf(stores[i], loads[j]) == (a.effectiveInstrID, b.effectiveInstrID)
  {
    hide Tagged;
    TaggedMember(stores, a);
    TaggedMember(loads, b);
    i :| 0 <= i < |stores| && AccessOf(stores[i], a);
    j :| 0 <= j < |loads| && AccessOf(loads[j], b);
    var m :| 0 <= m < stores[i].entry.NumInstances() && a == NthAccess(stores[i], m);
    var n :| 0 <= n < loads[j].entry.NumInstances() && b == NthAccess(loads[j], n);
    assert Touch(stores[i].entry, m, loads[j].entry, n);
  }

  /** Where the alias test is right, the justified pairs are those of conflicting accesses. */
  lemma JustifiedIsConflict(stores: seq<TaggedEntry>, loads: seq<TaggedEntry>, recordReverse: bool, p: (InstrID, InstrID))
    requires Pieces(stores) && Pieces(loads) && ProperSlice(stores) && ProperSlice(loads) && Comparable(stores, loads)
    ensures Justified(p, stores, loads, recordReverse)
            <==> ConflictPair(stores, loads, p) || (recordReverse && ConflictPair(stores, loads, Flip(p)))
  {
    hide Tagged, Depends, Reported, Conflict, Comparable, ProperSlice;
    if Justified(p, stores, loads, recordReverse) {
      var i, j :| 0 <= i < |stores| && 0 <= j < |loads| && Reported(stores[i], loads[j])
        && (p == PairOf(stores[i], loads[j]) || (recordReverse && p == Flip(PairOf(stores[i], loads[j]))));
      ReportedIsDependence(stores, loads, i, j);
      DependsHasConflict(stores, loads, i, j);
    }
    if ConflictPair(stores, loads, p) {
      var a, b :| a in Tagged(stores) && b in Tagged(loads) && Conflict(a, b) && p == (a.effectiveInstrID, b.effectiveInstrID);
      var i, j := ConflictDepends(stores, loads, a, b);
      ReportedIsDependence(stores, loads, i, j);
    }
    if recordReverse && ConflictPair(stores, loads, Flip(p)) {
      var a, b :| a in Tagged(stores) && b in Tagged(loads) && Conflict(a, b) && Flip(p) == (a.effectiveInstrID, b.effectiveInstrID);
      var i, j := ConflictDepends(stores, loads, a, b);
      ReportedIsDependence(stores, loads, i, j);
    }
  }

  /**
   The recorded pairs of a full analysis are exactly those of the accesses that touch a common byte in
   different iterations, together with the reversed pairs when those are recorded too.
   */
  lemma RecordedPairsAreConflicts(stores: seq<TaggedEntry>, loads: seq<TaggedEntry>, pairs: set<(InstrID, InstrID)>,
      recordReverse: bool, p: (InstrID, InstrID))
    requires Pieces(stores) && Pieces(loads) && ProperSlice(stores) && ProperSlice(loads) && Comparable(stores, loads)
    requires AllJustified(pairs, stores, loads, recordReverse) && AllRecorded(pairs, stores, loads, |loads|, recordReverse)
    ensures p in pairs <==> ConflictPair(stores, loads, p) || (recordReverse && ConflictPair(stores, loads, Flip(p)))
  {
    hide Justified, AllJustified, AllRecorded, ConflictPair, Comparable, ProperSlice;
    ExactlyJustified(pairs, stores, loads, recordReverse);
    JustifiedIsConflict(stores, loads, recordReverse, p);
  }

  /** An analysis that stops at the first report stops exactly when two accesses conflict. */
  lemma StopsAtConflict(stores: seq<TaggedEntry>, loads: seq<TaggedEntry>)
    requires Pieces(stores) && Pieces(loads) && ProperSlice(stores) && ProperSlice(loads) && Comparable(stores, loads)
    ensures !NothingReported(stores, loads, |loads|) <==> exists p :: ConflictPair(stores, loads, p)
  {
    hide Tagged, Depends, Reported, Conflict, Comparable, ProperSlice;
    if !NothingReported(stores, loads, |loads|) {
      var i, j :| 0 <= i < |stores| && 0 <= j < |loads| && Reported(stores[i], loads[j]);
      ReportedIsDependence(stores, loads, i, j);
      DependsHasConflict(stores, loads, i, j);
    }
    if p :| ConflictPair(stores, loads, p) {
      var a, b :| a in Tagged(stores) && b in Tagged(loads) && Conflict(a, b) && p == (a.effectiveInstrID, b.effectiveInstrID);
      var i, j := ConflictDepends(stores, loads, a, b);
      ReportedIsDependence(stores, loads, i, j);
    }
  }

  /** The j-th access of one trace and the k-th of another touch a common byte in different iterations. */
  ghost predicate TracesConflict(a: seq<Access>, j: int, ca: int -> nat, b: seq<Access>, k: int, cb: int -> nat)
    requires 0 <= j < |a| && 0 <= k < |b|
  {
    BytesMeet(a[j], b[k]) && exists m, n :: InstanceTables.Located(ca, j, m) && InstanceTables.Located(cb, k, n) && m != n
  }

  /**
   Two instructions depend exactly when an access of one and an access of the other, both taken from the
   uncompressed traces, touch a common byte in different iterations.
   */
  lemma {:induction false} TracesDependence(stores: seq<TaggedEntry>, loads: seq<TaggedEntry>,
      a: seq<Access>, na: nat, ca: int -> nat, b: seq<Access>, nb: nat, cb: int -> nat)
    requires Pieces(stores) && Pieces(loads) && ProperSlice(stores) && ProperSlice(loads) && Comparable(stores, loads)
    requires TaggedBy(Tagged(stores), a, na, ca) && TaggedBy(Tagged(loads), b, nb, cb)
    ensures !NothingReported(stores, loads, |loads|) <==>
      exists j, k :: 0 <= j < na && 0 <= k < nb && TracesConflict(a, j, ca, b, k, cb)
  {
    hide Tagged, NothingReported, ConflictPair, TracesConflict, Comparable, ProperSlice, TaggedBy;
    StopsAtConflict(stores, loads);
    var wa: int -> InstrID, wb: int -> InstrID := TagAt(Tagged(stores)), TagAt(Tagged(loads));
    OwnTags(Tagged(stores), a, na, ca);
    OwnTags(Tagged(loads), b, nb, cb);
    if p :| ConflictPair(stores, loads, p) {
      ConflictsOfTraces(stores, loads, a, na, ca, wa, b, nb, cb, wb, p);
    }
    if j, k :| 0 <= j < na && 0 <= k < nb && TracesConflict(a, j, ca, b, k, cb) {
      var p := (wa(j), wb(k));
      assert TracePair(a, j, ca, wa, b, k, cb, wb, p);
      ConflictsOfTraces(stores, loads, a, na, ca, wa, b, nb, cb, wb, p);
    }
  }

  ghost function TagAt(t: seq<TaggedAccess>): int -> InstrID {
    j => if 0 <= j < |t| then t[j].effectiveInstrID else 0
  }

  lemma OwnTags(t: seq<TaggedAccess>, unread: seq<Access>, n: nat, c: int -> nat)
    requires TaggedBy(t, unread, n, c)
    ensures TaggedWith(t, unread, n, c, TagAt(t)) && n <= |unread|
  {
    hide InstanceTables.Located;
  }

  /** An instance is in one iteration only. */
  lemma ConflictOfTags(x: TaggedAccess, j: int, ca: int -> nat, y: TaggedAccess, k: int, cb: int -> nat)
    requires InstanceTables.Located(ca, j, x.iterationNumber) && InstanceTables.Located(cb, k, y.iterationNumber)
    ensures (exists m, n :: InstanceTables.Located(ca, j, m) && InstanceTables.Located(cb, k, n) && m != n)
            <==> x.iterationNumber != y.iterationNumber
  {
    hide InstanceTables.Located;
    if m, n :| InstanceTables.Located(ca, j, m) && InstanceTables.Located(cb, k, n) && m != n {
      InstanceTables.LocatedUnique(ca, j, m, x.iterationNumber);
      InstanceTables.LocatedUnique(cb, k, n, y.iterationNumber);
    }
  }

  /** Accesses `j` and `k` conflict, and the pair names the instructions that made them. */
  ghost predicate TracePair(a: seq<Access>, j: int, ca: int -> nat, wa: int -> InstrID,
      b: seq<Access>, k: int, cb: int -> nat, wb: int -> InstrID, p: (InstrID, InstrID))
    requires 0 <= j < |a| && 0 <= k < |b|
  {
    TracesConflict(a, j, ca, b, k, cb) && p == (wa(j), wb(k))
  }

  /**
   The recorded pairs are exactly the instructions that made the accesses of the two uncompressed traces that touch
   a common byte in different iterations, with the reversed pairs when those are recorded too.
   */
  lemma {:induction false} RecordedPairsOfTraces(stores: seq<TaggedEntry>, loads: seq<TaggedEntry>, pairs: set<(InstrID, InstrID)>, recordReverse: bool,
      a: seq<Access>, na: nat, ca: int -> nat, wa: int -> InstrID, b: seq<Access>, nb: nat, cb: int -> nat, wb: int -> InstrID, p: (InstrID, InstrID))
    requires Pieces(stores) && Pieces(loads) && ProperSlice(stores) && ProperSlice(loads) && Comparable(stores, loads)
    requires AllJustified(pairs, stores, loads, recordReverse) && AllRecorded(pairs, stores, loads, |loads|, recordReverse)
    requires TaggedWith(Tagged(stores), a, na, ca, wa) && TaggedWith(Tagged(loads), b, nb, cb, wb)
    ensures p in pairs <==>
      exists j, k ::
        && 0 <= j < na && 0 <= k < nb
        && (|| TracePair(a, j, ca, wa, b, k, cb, wb, p)
            || (recordReverse && TracePair(a, j, ca, wa, b, k, cb, wb, Flip(p))))
  {
    hide Tagged, AllJustified, AllRecorded, ConflictPair, TracePair, Comparable, ProperSlice, TaggedWith;
    RecordedPairsAreConflicts(stores, loads, pairs, recordReverse, p);
    ConflictsOfTraces(stores, loads, a, na, ca, wa, b, nb, cb, wb, p);
    ConflictsOfTraces(stores, loads, a, na, ca, wa, b, nb, cb, wb, Flip(p));
  }

  lemma ConflictsOfTraces(stores: seq<TaggedEntry>, loads: seq<TaggedEntry>, a: seq<Access>, na: nat, ca: int -> nat, wa: int -> InstrID,
      b: seq<Access>, nb: nat, cb: int -> nat, wb: int -> InstrID, p: (InstrID, InstrID))
    requires Pieces(stores) && Pieces(loads)
    requires TaggedWith(Tagged(stores), a, na, ca, wa) && TaggedWith(Tagged(loads), b, nb, cb, wb)
    ensures na <= |a| && nb <= |b|
    ensures ConflictPair(stores, loads, p) <==> exists j, k :: 0 <= j < na && 0 <= k < nb && TracePair(a, j, ca, wa, b, k, cb, wb, p)
  {
    hide Tagged, InstanceTables.Located, BytesMeet;
    var ta, tb := Tagged(stores), Tagged(loads);
    if ConflictPair(stores, loads, p) {
      var x, y :| x in ta && y in tb && Conflict(x, y) && p == (x.effectiveInstrID, y.effectiveInstrID);
      var j :| 0 <= j < na && ta[j] == x;
      var k :| 0 <= k < nb && tb[k] == y;
      assert TracePair(a, j, ca, wa, b, k, cb, wb, p);
    }
    if j, k :| 0 <= j < na && 0 <= k < nb && TracePair(a, j, ca, wa, b, k, cb, wb, p) {
      ConflictOfTags(ta[j], j, ca, tb[k], k, cb);
      assert Conflict(ta[j], tb[k]);
    }
  }
}
