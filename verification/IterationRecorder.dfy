/**
 The recording of one loop invocation: iterations with equal control flow share a record, and
 the trace may be dumped at any event. Reading the dumped segments back and merging them
 restores the control flow of every iteration.
 */
module IterationRecording {
  import opened Sequences
  import opened CompressionPatterns
  import opened ControlFlowCompression
  import opened IterationGroups
  import opened RepetitionPatterns
  import opened SharerRanges
  import opened RecentlyUsed
  import opened BitSets

  const COMPRESSION_WINDOW_SIZE := 50
  const MAX_RECENT_ITER_MATCHES := 32
  const BITS_PER_RECORD := 64

  // ---------- the state machine ----------

  /** A record: the compressed control flow and, relative to `sharersOffset`, the iterations that share it. */
  datatype Info = Info(cfc: State, sharers: set<nat>, sharersOffset: nat) {

    predicate Shares(n: int) {
      n - sharersOffset in sharers
    }

    function Mark(n: nat): Info
      requires n >= sharersOffset
    {
      this.(sharers := sharers + {n - sharersOffset})
    }
  }

  /** `num` is -1 before the first iteration; `recents` indexes `infos`; `files` holds what was dumped. */
  datatype Loop = Loop(num: int, cfc: State, infos: seq<Info>, recents: seq<nat>, files: seq<seq<Group>>)

  datatype Event = Seen(sym: Symbol) | IterationStart | Dump

  const EMPTY := State([], [])
  const INITIAL := Loop(-1, EMPTY, [], [], [])

  ghost predicate Sound(l: Loop)
    ensures Sound(l) ==> l.num >= -1
  {
    && l.num >= -1
    && (forall i :: 0 <= i < |l.recents| ==> l.recents[i] < |l.infos|)
    && (forall i :: 0 <= i < |l.infos| ==> l.infos[i].sharersOffset <= l.num)
  }

  /** The position of the first recent record whose compressed control flow equals that of `cfc`. */
  function FirstMatch(infos: seq<Info>, recents: seq<nat>, cfc: State): (k: nat)
    requires forall i :: 0 <= i < |recents| ==> recents[i] < |infos|
    ensures k <= |recents|
    ensures k < |recents| ==> AllPatterns(infos[recents[k]].cfc) == AllPatterns(cfc)
    ensures forall i :: 0 <= i < k ==> AllPatterns(infos[recents[i]].cfc) != AllPatterns(cfc)
  {
    if recents == [] || AllPatterns(infos[recents[0]].cfc) == AllPatterns(cfc) then 0
    else 1 + FirstMatch(infos, recents[1..], cfc)
  }

  ghost function RecordIteration(l: Loop): Loop
    requires Sound(l)
  {
    if l.num + 1 == 0 then l
    else
      var k := FirstMatch(l.infos, l.recents, l.cfc);
      if k < |l.recents| then
        var i := l.recents[k];
        l.(cfc := EMPTY, infos := l.infos[i := l.infos[i].Mark(l.num)], recents := [i] + l.recents[..k] + l.recents[k + 1..])
      else
        var recents := [|l.infos|] + l.recents;
        l.(cfc := EMPTY, infos := l.infos + [Info(l.cfc, {0}, l.num)],
           recents := if |recents| > MAX_RECENT_ITER_MATCHES then recents[..|recents| - 1] else recents)
  }

  /** The maximal runs of the members of `s` shifted by `offset` that lie below `limit`. */
  function RunsBelow(s: set<nat>, offset: nat, limit: nat): RepetitionPattern {
    if limit == 0 then []
    else
      var p := RunsBelow(s, offset, limit - 1);
      if limit - 1 < offset || limit - 1 - offset !in s then p
      else if p != [] && p[|p| - 1].last + 1 == limit - 1 then p[|p| - 1 := Range(p[|p| - 1].first, limit - 1)]
      else p + [Range(limit - 1, limit - 1)]
  }

  function GroupOf(info: Info, limit: nat): Group {
    Group(RunsBelow(info.sharers, info.sharersOffset, limit), AllPatterns(info.cfc))
  }

  /** What a dump writes for the records: their iterations as ranges and their patterns, oldest first. */
  function Written(infos: seq<Info>, limit: nat): (gs: seq<Group>)
    ensures |gs| == |infos|
    ensures forall i :: 0 <= i < |infos| ==> gs[i] == GroupOf(infos[i], limit)
  {
    seq(|infos|, i requires 0 <= i < |infos| => GroupOf(infos[i], limit))
  }

  ghost function Apply(l: Loop, e: Event): Loop
    requires Sound(l)
  {
    match e
    case Seen(sym) => l.(cfc := Insert(l.cfc, sym, COMPRESSION_WINDOW_SIZE))
    case IterationStart => RecordIteration(l).(num := l.num + 1)
    case Dump =>
      var r := RecordIteration(l);
      r.(infos := [], recents := [], files := r.files + [Written(r.infos, r.num + 1)])
  }

  lemma RecordSound(l: Loop)
    requires Sound(l)
    ensures Sound(RecordIteration(l))
    ensures RecordIteration(l).num == l.num && RecordIteration(l).files == l.files
    ensures l.num >= 0 ==> RecordIteration(l).cfc == EMPTY
  {
  }

  lemma ApplySound(l: Loop, e: Event)
    requires Sound(l)
    ensures Sound(Apply(l, e))
  {
    RecordSound(l);
  }

  ghost function RunEvents(es: seq<Event>): (l: Loop)
    ensures Sound(l)
  {
    if es == [] then INITIAL
    else
      var l := RunEvents(es[..|es| - 1]);
      ApplySound(l, es[|es| - 1]);
      Apply(l, es[|es| - 1])
  }

  // ---------- the uncompressed reference ----------

  /** The instructions of every iteration; those seen before the first iteration count towards it. */
  datatype Reference = Reference(early: seq<Symbol>, iterations: seq<seq<Symbol>>)

  function Observe(r: Reference, e: Event): Reference {
    match e
    case Seen(sym) =>
      if r.iterations == [] then r.(early := r.early + [sym])
      else
        var k := |r.iterations| - 1;
        r.(iterations := r.iterations[k := r.iterations[k] + [sym]])
    case IterationStart => r.(iterations := r.iterations + [if r.iterations == [] then r.early else []])
    case Dump => r
  }

  function ObserveAll(es: seq<Event>): Reference {
    if es == [] then Reference([], []) else Observe(ObserveAll(es[..|es| - 1]), es[|es| - 1])
  }

  // ---------- reading the dumped segments back ----------

  ghost predicate FilesProper(files: seq<seq<Group>>) {
    forall i :: 0 <= i < |files| ==> AllProper(files[i])
  }

  /** Merging the segments of an invocation in the order in which they were dumped. */
  ghost function ReadBack(files: seq<seq<Group>>): (gs: seq<Group>)
    requires FilesProper(files)
    ensures AllProper(gs)
  {
    if files == [] then []
    else
      var front := files[..|files| - 1];
      assert AllProper(files[|files| - 1]);
      assert forall i | 0 <= i < |front| :: front[i] == files[i];
      MergeProper(ReadBack(front), files[|files| - 1]);
      Merge(ReadBack(front), files[|files| - 1])
  }

  lemma ReadBackSnoc(files: seq<seq<Group>>, segment: seq<Group>)
    requires FilesProper(files + [segment])
    ensures FilesProper(files) && AllProper(segment) && ReadBack(files + [segment]) == Merge(ReadBack(files), segment)
  {
    hide Merge, AllProper;
    var all := files + [segment];
    assert all[..|all| - 1] == files;
    assert all[|all| - 1] == segment;
    forall i | 0 <= i < |files|
      ensures AllProper(files[i])
    {
      assert all[i] == files[i];
    }
  }

  // ---------- the run invariant ----------

  lemma GrowLast(p: RepetitionPattern, k: nat)
    requires Runs(p) && p != [] && p[|p| - 1].last + 1 == k
    ensures var q := p[|p| - 1 := Range(p[|p| - 1].first, k)];
            Runs(q) && forall n: nat :: Has(q, n) <==> Has(p, n) || n == k
  {
    hide Has;
    var front, r := p[..|p| - 1], p[|p| - 1];
    var q := p[|p| - 1 := Range(r.first, k)];
    assert p == front + [r] && q == front + [Range(r.first, k)];
    forall n: nat
      ensures Has(q, n) <==> Has(p, n) || n == k
    {
      HasSnoc(front, r, n);
      HasSnoc(front, Range(r.first, k), n);
    }
  }

  lemma AddSingle(p: RepetitionPattern, k: nat)
    requires Runs(p) && (p != [] ==> p[|p| - 1].last + 1 < k)
    ensures Runs(p + [Range(k, k)]) && forall n: nat :: Has(p + [Range(k, k)], n) <==> Has(p, n) || n == k
  {
    hide Has, Runs;
    RunsSnoc(p, Range(k, k));
    forall n: nat
      ensures Has(p + [Range(k, k)], n) <==> Has(p, n) || n == k
    {
      HasSnoc(p, Range(k, k), n);
    }
  }

  lemma {:induction false} RunsBelowExact(s: set<nat>, offset: nat, limit: nat)
    ensures Runs(RunsBelow(s, offset, limit))
    ensures forall n: nat :: Has(RunsBelow(s, offset, limit), n) <==> offset <= n < limit && n - offset in s
  {
    hide Has, Runs;
    if limit > 0 {
      RunsBelowExact(s, offset, limit - 1);
      var p := RunsBelow(s, offset, limit - 1);
      if p != [] {
        SomeMemberLast(p);
      }
      if limit - 1 >= offset && limit - 1 - offset in s {
        if p != [] && p[|p| - 1].last + 1 == limit - 1 {
          GrowLast(p, limit - 1);
        } else {
          AddSingle(p, limit - 1);
        }
      }
    } else {
      NoRuns();
      NothingHas();
    }
  }

  lemma SomeMemberLast(p: RepetitionPattern)
    requires Runs(p) && p != []
    ensures Has(p, p[|p| - 1].last)
  {
  }

  /** The records of the current segment hold finished iterations below `num`, no iteration twice. */
  ghost predicate SegmentOk(infos: seq<Info>, num: int) {
    && (forall i :: 0 <= i < |infos| ==> 0 in infos[i].sharers)
    && (forall i, n :: 0 <= i < |infos| && infos[i].Shares(n) ==> infos[i].sharersOffset <= n < num)
    && (forall i, j, n :: 0 <= i < j < |infos| && infos[i].Shares(n) ==> !infos[j].Shares(n))
  }

  ghost predicate Shared(infos: seq<Info>, n: int) {
    exists i :: 0 <= i < |infos| && infos[i].Shares(n)
  }

  lemma GroupExact(info: Info, num: nat, n: int)
    requires 0 in info.sharers
    requires forall k :: info.Shares(k) ==> info.sharersOffset <= k < num
    ensures Proper(GroupOf(info, num).repetitions)
    ensures Has(GroupOf(info, num).repetitions, n) <==> info.Shares(n)
  {
    hide Has;
    RunsBelowExact(info.sharers, info.sharersOffset, num);
    assert info.Shares(info.sharersOffset);
    assert Has(GroupOf(info, num).repetitions, info.sharersOffset);
    NothingHas();
    if n < 0 {
      NoNegative(GroupOf(info, num).repetitions, n);
    }
  }

  lemma NoNegative(p: RepetitionPattern, n: int)
    requires n < 0
    ensures !Has(p, n)
  {
  }

  /** The dumped groups hold exactly the shared iterations. */
  lemma WrittenExact(infos: seq<Info>, num: nat)
    requires SegmentOk(infos, num)
    ensures WellGrouped(Written(infos, num))
    ensures forall n :: Recorded(Written(infos, num), n) <==> Shared(infos, n)
  {
    hide Has, Proper, Info.Shares, GroupOf;
    var gs := Written(infos, num);
    forall i | 0 <= i < |infos|
      ensures Proper(gs[i].repetitions)
    {
      GroupExact(infos[i], num, 0);
    }
    forall i, n | 0 <= i < |infos|
      ensures Has(gs[i].repetitions, n) <==> infos[i].Shares(n)
    {
      GroupExact(infos[i], num, n);
    }
    forall n
      ensures Recorded(gs, n) <==> Shared(infos, n)
    {
      if Recorded(gs, n) {
        var i :| 0 <= i < |gs| && Has(gs[i].repetitions, n);
        assert infos[i].Shares(n);
      }
      if Shared(infos, n) {
        var i :| 0 <= i < |infos| && infos[i].Shares(n);
        assert Has(gs[i].repetitions, n);
      }
    }
  }

  ghost function TextAt(gs: seq<Group>, n: int): seq<Symbol> {
    ExpandAll(ControlFlowAt(gs, n))
  }

  lemma TextOfInfo(infos: seq<Info>, num: nat, i: nat, n: int)
    requires SegmentOk(infos, num) && i < |infos| && infos[i].Shares(n)
    ensures TextAt(Written(infos, num), n) == ExpandAll(AllPatterns(infos[i].cfc))
  {
    hide Has, ControlFlowAt, AllPatterns, ExpandAll;
    WrittenExact(infos, num);
    GroupExact(infos[i], num, n);
    FlowOfGroup(Written(infos, num), i, n);
  }

  lemma TextAbsent(gs: seq<Group>, n: int)
    requires !Recorded(gs, n)
    ensures TextAt(gs, n) == []
  {
    FlowAbsent(gs, n);
  }

  lemma RunText(syms: seq<Symbol>)
    ensures ExpandAll(AllPatterns(Run(syms, COMPRESSION_WINDOW_SIZE))) == syms
  {
    hide Run, Invariant, Decompressed, AllPatterns;
    RunInvariant(syms, COMPRESSION_WINDOW_SIZE);
    DecompressedFromPatterns(Run(syms, COMPRESSION_WINDOW_SIZE));
  }

  /** Recording adds the iteration that just finished, with its symbols, and changes no other. */
  lemma RecordKeeps(l: Loop, open: seq<Symbol>)
    requires Sound(l) && l.num >= 0 && SegmentOk(l.infos, l.num)
    requires l.cfc == Run(open, COMPRESSION_WINDOW_SIZE)
    ensures var r := RecordIteration(l);
            && SegmentOk(r.infos, l.num + 1)
            && (forall n :: Shared(r.infos, n) <==> Shared(l.infos, n) || n == l.num)
            && TextsExtend(l.infos, r.infos, l.num, open)
            && r.cfc == EMPTY
  {
    hide TextsExtend, Run, AllPatterns, ExpandAll;
    var k := FirstMatch(l.infos, l.recents, l.cfc);
    if k < |l.recents| {
      var i := l.recents[k];
      var next := l.infos[i := l.infos[i].Mark(l.num)];
      assert RecordIteration(l).infos == next && RecordIteration(l).cfc == EMPTY;
      MarkKeeps(l.infos, i, l.num);
      RunText(open);
      TextsAfter(l.infos, next, i, l.num, open);
    } else {
      AppendKeeps(l.infos, Info(l.cfc, {0}, l.num));
      RunText(open);
      TextsAfter(l.infos, RecordIteration(l).infos, |l.infos|, l.num, open);
    }
  }

  lemma MarkKeeps(infos: seq<Info>, i: nat, num: nat)
    requires SegmentOk(infos, num) && i < |infos| && infos[i].sharersOffset <= num
    ensures var r := infos[i := infos[i].Mark(num)];
            SegmentOk(r, num + 1) && forall n :: Shared(r, n) <==> Shared(infos, n) || n == num
  {
    var r := infos[i := infos[i].Mark(num)];
    assert forall n :: r[i].Shares(n) <==> infos[i].Shares(n) || n == num;
    forall n
      ensures Shared(r, n) <==> Shared(infos, n) || n == num
    {
      if Shared(infos, n) {
        var j :| 0 <= j < |infos| && infos[j].Shares(n);
        assert r[j].Shares(n);
      }
      if n == num {
        assert r[i].Shares(n);
      }
      if Shared(r, n) {
        var j :| 0 <= j < |r| && r[j].Shares(n);
        assert n == num || infos[j].Shares(n);
      }
    }
  }

  lemma AppendKeeps(infos: seq<Info>, info: Info)
    requires SegmentOk(infos, info.sharersOffset) && info.sharers == {0}
    ensures var r := infos + [info];
            SegmentOk(r, info.sharersOffset + 1) && forall n :: Shared(r, n) <==> Shared(infos, n) || n == info.sharersOffset
  {
    var r := infos + [info];
    assert forall n :: info.Shares(n) <==> n == info.sharersOffset;
    forall n
      ensures Shared(r, n) <==> Shared(infos, n) || n == info.sharersOffset
    {
      if Shared(infos, n) {
        var j :| 0 <= j < |infos| && infos[j].Shares(n);
        assert r[j].Shares(n);
      }
      if n == info.sharersOffset {
        assert r[|infos|].Shares(n);
      }
    }
  }

  /** What the records of `next` hold, against `infos` with the symbols of one more iteration. */
  ghost predicate TextsExtend(infos: seq<Info>, next: seq<Info>, num: nat, open: seq<Symbol>) {
    forall n :: TextAt(Written(next, num + 1), n) == if n == num then open else TextAt(Written(infos, num), n)
  }

  lemma TextsAfter(infos: seq<Info>, next: seq<Info>, i: nat, num: nat, open: seq<Symbol>)
    requires SegmentOk(infos, num) && SegmentOk(next, num + 1)
    requires |infos| <= |next| && i < |next| && (i < |infos| ==> |infos| == |next|) && (i == |infos| ==> |next| == i + 1)
    requires forall j :: 0 <= j < |infos| ==> next[j].cfc == infos[j].cfc
    requires forall j, n :: 0 <= j < |infos| && n != num ==> (next[j].Shares(n) <==> infos[j].Shares(n))
    requires forall n :: Shared(next, n) <==> Shared(infos, n) || n == num
    requires next[i].Shares(num) && ExpandAll(AllPatterns(next[i].cfc)) == open
    ensures TextsExtend(infos, next, num, open)
  {
    hide TextAt, ExpandAll, AllPatterns, Info.Shares, Written, SegmentOk;
    WrittenExact(infos, num);
    WrittenExact(next, num + 1);
    forall n
      ensures TextAt(Written(next, num + 1), n) == if n == num then open else TextAt(Written(infos, num), n)
    {
      if n == num {
        TextOfInfo(next, num + 1, i, n);
      } else if Shared(infos, n) {
        var j :| 0 <= j < |infos| && infos[j].Shares(n);
        TextOfInfo(infos, num, j, n);
        TextOfInfo(next, num + 1, j, n);
      } else {
        TextAbsent(Written(infos, num), n);
        TextAbsent(Written(next, num + 1), n);
      }
    }
  }

  // ---------- every run, with dumps anywhere ----------

  /** `m` holds what was dumped and `open` the symbols of the running iteration since the last dump. */
  ghost predicate Tracks(l: Loop, r: Reference, m: seq<Group>, open: seq<Symbol>) {
    && l.num + 1 == |r.iterations|
    && l.cfc == Run(open, COMPRESSION_WINDOW_SIZE)
    && WellGrouped(m)
    && (l.num == -1 ==> l.infos == [] && m == [] && open == r.early)
    && SegmentOk(l.infos, l.num)
    && (forall n :: Recorded(m, n) ==> 0 <= n <= l.num)
    && (forall n, k :: Recorded(m, n) && Shared(l.infos, k) ==> n <= k)
    && (forall n :: 0 <= n < l.num ==> Recorded(m, n) || Shared(l.infos, n))
    && TextsAgree(r.iterations, m, l.infos, l.num, open)
  }

  ghost predicate TextsAgree(iterations: seq<seq<Symbol>>, m: seq<Group>, infos: seq<Info>, num: int, open: seq<Symbol>) {
    |iterations| == num + 1 && forall n :: 0 <= n <= num ==> iterations[n] == TextSoFar(m, infos, num, n, open)
  }

  ghost function TextSoFar(m: seq<Group>, infos: seq<Info>, num: nat, n: int, open: seq<Symbol>): seq<Symbol> {
    TextAt(m, n) + (TextAt(Written(infos, num), n) + if n == num then open else [])
  }

  lemma SeenTracks(l: Loop, r: Reference, m: seq<Group>, open: seq<Symbol>, sym: Symbol)
    requires Sound(l) && Tracks(l, r, m, open)
    ensures Tracks(Apply(l, Seen(sym)), Observe(r, Seen(sym)), m, open + [sym])
  {
    hide Insert, TextsAgree, SegmentOk, WellGrouped, Recorded, Shared, Run;
    RunSnoc(open, sym, COMPRESSION_WINDOW_SIZE);
    SeenText(l, r, m, open, sym);
  }

  lemma SeenText(l: Loop, r: Reference, m: seq<Group>, open: seq<Symbol>, sym: Symbol)
    requires Sound(l) && TextsAgree(r.iterations, m, l.infos, l.num, open)
    ensures TextsAgree(Observe(r, Seen(sym)).iterations, m, l.infos, l.num, open + [sym])
  {
    hide TextAt, Sound;
    if l.num >= 0 {
      Join(TextAt(m, l.num), TextAt(Written(l.infos, l.num), l.num), open, [sym]);
    }
  }

  lemma Join(a: seq<Symbol>, b: seq<Symbol>, c: seq<Symbol>, d: seq<Symbol>)
    ensures (a + (b + c)) + d == a + (b + (c + d))
    ensures (a + b) + c == a + (b + c)
    ensures b == [] ==> a + (b + c) == a + c && (a + c) + (b + b) == a + c
  {
  }

  lemma EmptyRun()
    ensures Run([], COMPRESSION_WINDOW_SIZE) == EMPTY
  {
  }

  lemma StartTracks(l: Loop, r: Reference, m: seq<Group>, open: seq<Symbol>)
    requires Sound(l) && Tracks(l, r, m, open)
    ensures Tracks(Apply(l, IterationStart), Observe(r, IterationStart), m, if l.num == -1 then open else [])
  {
    hide TextsAgree, SegmentOk, AllProper, Separate, Run, Written, RecordIteration, Recorded, Shared, TextsExtend;
    RecordSound(l);
    if l.num == -1 {
      NothingRecordedYet(l, open);
      FirstText(r, open);
    } else {
      EmptyRun();
      RecordKeeps(l, open);
      StartText(l, r, m, open, RecordIteration(l).infos);
    }
  }

  lemma FirstText(r: Reference, open: seq<Symbol>)
    requires r.iterations == [] && r.early == open
    ensures TextsAgree(Observe(r, IterationStart).iterations, [], [], 0, open)
  {
    hide TextAt;
    NoRecords(0);
    TextAbsent([], 0);
  }

  lemma StartText(l: Loop, r: Reference, m: seq<Group>, open: seq<Symbol>, infos: seq<Info>)
    requires Sound(l) && l.num >= 0 && SegmentOk(l.infos, l.num) && SegmentOk(infos, l.num + 1)
    requires forall k :: Recorded(m, k) ==> k <= l.num
    requires TextsAgree(r.iterations, m, l.infos, l.num, open) && TextsExtend(l.infos, infos, l.num, open)
    ensures TextsAgree(Observe(r, IterationStart).iterations, m, infos, l.num + 1, [])
  {
    hide TextAt, SegmentOk, Sound, Written, Recorded;
    var next := Observe(r, IterationStart).iterations;
    NotYet(l, m, infos, l.num + 1);
    NotYetShared(l, l.num);
    forall n | 0 <= n <= l.num + 1
      ensures next[n] == TextSoFar(m, infos, l.num + 1, n, [])
    {
      if n <= l.num {
        assert next[n] == r.iterations[n];
      }
    }
  }

  lemma NothingRecordedYet(l: Loop, open: seq<Symbol>)
    requires Sound(l) && l.num == -1
    ensures RecordIteration(l) == l
    ensures SegmentOk([], 0) && forall n :: TextAt(Written([], 0), n) == [] && TextAt([], n) == [] && !Shared([], n)
  {
    forall n
      ensures TextAt(Written([], 0), n) == [] && TextAt([], n) == []
    {
      TextAbsent([], n);
      assert Written([], 0) == [];
    }
  }

  lemma NotYet(l: Loop, m: seq<Group>, infos: seq<Info>, n: int)
    requires n == l.num + 1 && n >= 0 && SegmentOk(infos, n)
    requires forall k :: Recorded(m, k) ==> k <= l.num
    ensures TextAt(m, n) == [] && TextAt(Written(infos, n), n) == []
  {
    WrittenExact(infos, n);
    TextAbsent(m, n);
    TextAbsent(Written(infos, n), n);
  }

  lemma NotYetShared(l: Loop, n: int)
    requires n == l.num && n >= 0 && SegmentOk(l.infos, n)
    ensures TextAt(Written(l.infos, n), n) == []
  {
    WrittenExact(l.infos, n);
    TextAbsent(Written(l.infos, n), n);
  }

  /** Merging the segment dumped now into the earlier ones leaves every iteration with its symbols so far. */
  lemma DumpTracks(l: Loop, r: Reference, m: seq<Group>, open: seq<Symbol>)
    requires Sound(l) && Tracks(l, r, m, open)
    ensures var q := RecordIteration(l);
            var segment := Written(q.infos, l.num + 1);
            && WellGrouped(segment) && (segment == [] ==> m == [])
            && Tracks(Apply(l, Dump), r, Merge(m, segment), if l.num == -1 then open else [])
            && (forall n :: Recorded(Merge(m, segment), n) <==> 0 <= n <= l.num)
  {
    hide TextsAgree, SegmentOk, AllProper, Separate, Run, Written, RecordIteration, Merge, Recorded, Shared, TextsExtend;
    RecordSound(l);
    var q := RecordIteration(l);
    var segment := Written(q.infos, l.num + 1);
    if l.num == -1 {
      NothingRecordedYet(l, open);
      MergeNothing(segment);
      assert TextsAgree(r.iterations, [], [], -1, open) by { NoTexts(open); }
    } else {
      EmptyRun();
      RecordKeeps(l, open);
      WrittenExact(q.infos, l.num + 1);
      MergeExact(m, segment);
      NoRecords(l.num);
      assert Shared(q.infos, l.num);
      SharedBelow(l.infos, l.num);
      DumpText(l, r, m, open, q.infos);
      NoneRecorded(segment, l.num);
    }
  }

  lemma SharedBelow(infos: seq<Info>, num: int)
    requires SegmentOk(infos, num)
    ensures forall n :: Shared(infos, n) ==> 0 <= n < num
  {
  }

  lemma NoneRecorded(gs: seq<Group>, n: int)
    requires Recorded(gs, n)
    ensures gs != []
  {
  }

  lemma NoTexts(open: seq<Symbol>)
    ensures TextsAgree([], [], [], -1, open)
  {
  }

  lemma DumpText(l: Loop, r: Reference, m: seq<Group>, open: seq<Symbol>, infos: seq<Info>)
    requires Sound(l) && l.num >= 0 && WellGrouped(m) && SegmentOk(l.infos, l.num)
    requires TextsAgree(r.iterations, m, l.infos, l.num, open)
    requires TextsExtend(l.infos, infos, l.num, open) && WellGrouped(Written(infos, l.num + 1))
    requires forall n :: ControlFlowAt(Merge(m, Written(infos, l.num + 1)), n)
                      == ControlFlowAt(m, n) + ControlFlowAt(Written(infos, l.num + 1), n)
    ensures TextsAgree(r.iterations, Merge(m, Written(infos, l.num + 1)), [], l.num, [])
  {
    hide TextAt, SegmentOk, AllProper, Separate, Sound, Written, Merge, ControlFlowAt;
    var segment := Written(infos, l.num + 1);
    NoRecords(l.num);
    NotYetShared(l, l.num);
    forall n | 0 <= n <= l.num
      ensures r.iterations[n] == TextSoFar(Merge(m, segment), [], l.num, n, [])
    {
      TextMerged(m, segment, n);
      MoveText(TextAt(m, n), TextAt(Written(l.infos, l.num), n), TextAt(segment, n), open, n == l.num);
      assert r.iterations[n] == TextSoFar(m, l.infos, l.num, n, open);
    }
  }

  /** The text of one iteration moves from memory to the dumped groups. */
  lemma MoveText(dumped: seq<Symbol>, inMemory: seq<Symbol>, segment: seq<Symbol>, open: seq<Symbol>, last: bool)
    requires segment == (if last then open else inMemory) && (last ==> inMemory == [])
    ensures dumped + (inMemory + if last then open else []) == (dumped + segment) + ([] + [])
  {
  }

  lemma MergeNothing(segment: seq<Group>)
    requires segment == []
    ensures WellGrouped([]) && Merge([], segment) == [] && forall n :: !Recorded([], n)
  {
  }

  lemma NoRecords(num: nat)
    ensures SegmentOk([], num) && forall n :: TextAt(Written([], num), n) == [] && !Shared([], n)
  {
    forall n
      ensures TextAt(Written([], num), n) == []
    {
      assert Written([], num) == [];
      TextAbsent([], n);
    }
  }

  lemma TextMerged(m: seq<Group>, segment: seq<Group>, n: int)
    requires WellGrouped(m) && WellGrouped(segment)
    requires ControlFlowAt(Merge(m, segment), n) == ControlFlowAt(m, n) + ControlFlowAt(segment, n)
    ensures TextAt(Merge(m, segment), n) == TextAt(m, n) + TextAt(segment, n)
  {
    hide Merge, ControlFlowAt;
    ExpandAllConcat(ControlFlowAt(m, n), ControlFlowAt(segment, n));
  }

  /** Whatever happens and wherever the dumps fall, what has been dumped and what is in memory make up the reference. */
  lemma {:induction false} RunTracks(es: seq<Event>) returns (open: seq<Symbol>)
    ensures FilesProper(RunEvents(es).files)
    ensures Tracks(RunEvents(es), ObserveAll(es), ReadBack(RunEvents(es).files), open)
  {
    hide Tracks, Apply, Sound;
    if es == [] {
      open := [];
      InitialTracks();
    } else {
      var front, e := es[..|es| - 1], es[|es| - 1];
      var before := RunTracks(front);
      open := StepTracks(RunEvents(front), ObserveAll(front), e, before);
    }
  }

  lemma InitialTracks()
    ensures Tracks(INITIAL, Reference([], []), ReadBack([]), [])
  {
    EmptyRun();
    MergeNothing([]);
  }

  lemma StepTracks(l: Loop, r: Reference, e: Event, open: seq<Symbol>) returns (next: seq<Symbol>)
    requires Sound(l) && FilesProper(l.files) && Tracks(l, r, ReadBack(l.files), open)
    ensures FilesProper(Apply(l, e).files)
    ensures Tracks(Apply(l, e), Observe(r, e), ReadBack(Apply(l, e).files), next)
  {
    hide Tracks, RecordIteration, Merge, Written, AllProper;
    RecordSound(l);
    match e {
      case Seen(sym) =>
        SeenTracks(l, r, ReadBack(l.files), open, sym);
        next := open + [sym];
      case IterationStart =>
        StartTracks(l, r, ReadBack(l.files), open);
        next := if l.num == -1 then open else [];
      case Dump =>
        DumpTracks(l, r, ReadBack(l.files), open);
        next := if l.num == -1 then open else [];
        var segment := Written(RecordIteration(l).infos, l.num + 1);
        var files := l.files + [segment];
        assert files[..|files| - 1] == l.files;
        assert ReadBack(files) == Merge(ReadBack(l.files), segment);
    }
  }

  /**
   For every event sequence: the segments dumped by its end, merged, hold each iteration of the
   invocation in exactly one group, and its control flow expands to exactly its instructions.
   */
  lemma DumpedTraceIsLossless(es: seq<Event>)
    ensures var files := RunEvents(es + [Dump]).files;
            var iterations := ObserveAll(es).iterations;
            && FilesProper(files) && WellGrouped(ReadBack(files))
            && (forall n :: Recorded(ReadBack(files), n) <==> 0 <= n < |iterations|)
            && (forall n :: 0 <= n < |iterations| ==> TextAt(ReadBack(files), n) == iterations[n])
  {
    hide RecordIteration, Merge, Written, WellGrouped, Tracks, Recorded, ReadBack, FilesProper;
    var all := es + [Dump];
    assert all[..|all| - 1] == es;
    var open := RunTracks(es);
    var last := RunTracks(all);
    var l := RunEvents(es);
    RecordSound(l);
    ReadBackStep(l, ObserveAll(es), open);
    ReferenceLength(l, ObserveAll(es), ReadBack(l.files), open);
    EverythingDumped(RunEvents(all), ObserveAll(es), ReadBack(RunEvents(all).files), last);
  }

  lemma ReadBackStep(l: Loop, r: Reference, open: seq<Symbol>)
    requires Sound(l) && FilesProper(l.files) && Tracks(l, r, ReadBack(l.files), open)
    requires FilesProper(Apply(l, Dump).files)
    ensures forall n :: Recorded(ReadBack(Apply(l, Dump).files), n) <==> 0 <= n <= l.num
  {
    hide RecordIteration, Merge, Written, Recorded, AllProper, Separate, Tracks, TextAt, ReadBack, FilesProper;
    RecordSound(l);
    DumpTracks(l, r, ReadBack(l.files), open);
    ReadBackSnoc(l.files, Written(RecordIteration(l).infos, l.num + 1));
  }

  lemma ReferenceLength(l: Loop, r: Reference, m: seq<Group>, open: seq<Symbol>)
    requires Tracks(l, r, m, open)
    ensures |r.iterations| == l.num + 1
  {
  }

  /** With nothing in memory, the dumped groups hold the whole reference. */
  lemma EverythingDumped(l: Loop, r: Reference, m: seq<Group>, open: seq<Symbol>)
    requires Sound(l) && l.infos == [] && (l.num >= 0 ==> l.cfc == EMPTY) && Tracks(l, r, m, open)
    ensures WellGrouped(m)
    ensures forall n :: 0 <= n < |r.iterations| ==> TextAt(m, n) == r.iterations[n]
  {
    hide TextAt, WellGrouped, Recorded, Run;
    if l.num >= 0 {
      NoRecords(l.num);
    }
    RunText(open);
    RunText([]);
    EmptyRun();
  }

  function WithoutDumps(es: seq<Event>): seq<Event> {
    if es == [] then []
    else
      var front := WithoutDumps(es[..|es| - 1]);
      if es[|es| - 1] == Dump then front else front + [es[|es| - 1]]
  }

  lemma {:induction false} ReferenceIgnoresDumps(es: seq<Event>)
    ensures ObserveAll(WithoutDumps(es)) == ObserveAll(es)
  {
    if es != [] {
      var front, e := es[..|es| - 1], es[|es| - 1];
      ReferenceIgnoresDumps(front);
      if e != Dump {
        var clean := WithoutDumps(front) + [e];
        assert clean[..|clean| - 1] == WithoutDumps(front);
      }
    }
  }

  /** Dumps may fall anywhere: what is read back is what one dump at the end would have given. */
  lemma DumpsChangeNothing(es: seq<Event>, n: int)
    ensures var a, b := RunEvents(es + [Dump]).files, RunEvents(WithoutDumps(es) + [Dump]).files;
            && FilesProper(a) && FilesProper(b)
            && (Recorded(ReadBack(a), n) <==> Recorded(ReadBack(b), n))
            && TextAt(ReadBack(a), n) == TextAt(ReadBack(b), n)
  {
    hide TextAt, Recorded, ReadBack, RunEvents, FilesProper, WellGrouped;
    DumpedTraceIsLossless(es);
    DumpedTraceIsLossless(WithoutDumps(es));
    ReferenceIgnoresDumps(es);
    if !(0 <= n < |ObserveAll(es).iterations|) {
      TextAbsent(ReadBack(RunEvents(es + [Dump]).files), n);
      TextAbsent(ReadBack(RunEvents(WithoutDumps(es) + [Dump]).files), n);
    }
  }

  lemma {:induction false} NoDumpNoFiles(es: seq<Event>)
    requires Dump !in es
    ensures RunEvents(es).files == []
  {
    hide RecordIteration, Sound, Insert;
    if es != [] {
      NoDumpNoFiles(es[..|es| - 1]);
      RecordSound(RunEvents(es[..|es| - 1]));
    }
  }

  /** Without a dump, the records partition the finished iterations and hold exactly their instructions. */
  lemma RecordsPartition(es: seq<Event>)
    requires Dump !in es
    ensures var l := RunEvents(es);
            && SegmentOk(l.infos, l.num)
            && (forall n :: Shared(l.infos, n) <==> 0 <= n < l.num)
            && |ObserveAll(es).iterations| == l.num + 1
            && forall i, n :: 0 <= i < |l.infos| && l.infos[i].Shares(n) ==>
                 0 <= n < l.num && ExpandAll(AllPatterns(l.infos[i].cfc)) == ObserveAll(es).iterations[n]
  {
    hide ExpandAll, AllPatterns, TextAt, RunEvents, ObserveAll, Run, Info.Shares;
    NoDumpNoFiles(es);
    var open := RunTracks(es);
    var l := RunEvents(es);
    MergeNothing([]);
    assert ReadBack(l.files) == [];
    assert forall n :: Shared(l.infos, n) ==> 0 <= n < l.num by { SharedBelow(l.infos, l.num); }
    forall i, n | 0 <= i < |l.infos| && l.infos[i].Shares(n)
      ensures 0 <= n < l.num && ExpandAll(AllPatterns(l.infos[i].cfc)) == ObserveAll(es).iterations[n]
    {
      assert Shared(l.infos, n);
      TextOfInfo(l.infos, l.num, i, n);
      TextAbsent([], n);
    }
  }

  // ---------- which iterations share a record ----------

  /** The record that shares an iteration. */
  ghost function RecordOf(infos: seq<Info>, n: int): nat {
    if Shared(infos, n) then
      var i: nat :| i < |infos| && infos[i].Shares(n);
      i
    else 0
  }

  /** The record of every iteration since the last dump, in order. */
  ghost function UsesOf(es: seq<Event>): seq<nat> {
    if es == [] then []
    else
      var uses, l := UsesOf(es[..|es| - 1]), RunEvents(es[..|es| - 1]);
      match es[|es| - 1]
      case Seen(_) => uses
      case IterationStart => if l.num < 0 then uses else uses + [RecordOf(RecordIteration(l).infos, l.num)]
      case Dump => []
  }

  /** Every record keeps the compressor of its first iteration. */
  ghost predicate Compressed(infos: seq<Info>) {
    forall i :: 0 <= i < |infos| ==> infos[i].cfc == Run(ExpandAll(AllPatterns(infos[i].cfc)), COMPRESSION_WINDOW_SIZE)
  }

  /** What recording does to the history of uses. */
  lemma RecordUses(l: Loop, uses: seq<nat>, open: seq<Symbol>)
    requires Sound(l) && l.num >= 0 && SegmentOk(l.infos, l.num) && l.cfc == Run(open, COMPRESSION_WINDOW_SIZE)
    requires LatestUses(l.recents, uses, 32) && Compressed(l.infos) && forall r <- uses :: r < |l.infos|
    ensures var r := RecordIteration(l);
            && RecordOf(r.infos, l.num) < |r.infos| && |l.infos| <= |r.infos| && Compressed(r.infos)
            && LatestUses(r.recents, uses + [RecordOf(r.infos, l.num)], 32)
  {
    hide LatestUses, AllPatterns, Run, ExpandAll, FirstMatch;
    var k := FirstMatch(l.infos, l.recents, l.cfc);
    if k < |l.recents| {
      MatchRecords(l, k);
      TakenBy(l.infos, RecordIteration(l).infos, l.recents[k], l.num);
      UsedAgain(l.recents, uses, 32, k);
    } else {
      AppendRecords(l);
      RunText(open);
      TakenBy(l.infos, RecordIteration(l).infos, |l.infos|, l.num);
      UsedFirst(l.recents, uses, 32, |l.infos|);
      AtMost(l.recents, uses, 32);
      if |l.recents| == 32 {
        assert ([|l.infos|] + l.recents)[..32] == [|l.infos|] + l.recents[..31];
      }
    }
  }

  lemma AtMost(s: seq<nat>, uses: seq<nat>, limit: nat)
    requires LatestUses(s, uses, limit)
    ensures |s| <= limit
  {
  }

  /** No other record shares the iteration that was just recorded. */
  lemma TakenBy(infos: seq<Info>, next: seq<Info>, i: nat, num: nat)
    requires SegmentOk(infos, num) && i < |next|
    requires if i < |infos| then infos[i].sharersOffset <= num && next == infos[i := infos[i].Mark(num)]
             else i == |infos| && exists cfc :: next == infos + [Info(cfc, {0}, num)]
    ensures RecordOf(next, num) == i
  {
    assert next[i].Shares(num);
    forall j | 0 <= j < |next| && j != i
      ensures !next[j].Shares(num)
    {
      assert next[j] == infos[j];
    }
  }

  /**
   For every event sequence, the recent list holds the 32 records that the iterations since the last dump used last,
   each once, the latest first.
   */
  lemma {:induction false} RecentsAreLatest(es: seq<Event>)
    ensures var l := RunEvents(es);
            && LatestUses(l.recents, UsesOf(es), 32) && Compressed(l.infos)
            && (forall r <- UsesOf(es) :: r < |l.infos|)
    ensures Distinct(RunEvents(es).recents) && |RunEvents(es).recents| <= 32
  {
    hide LatestUses, Insert, Written, RecordIteration, Compressed, RecordOf, Run, SegmentOk;
    NoUses(32);
    NoneCompressed();
    if es != [] {
      var front := es[..|es| - 1];
      RecentsAreLatest(front);
      var l := RunEvents(front);
      RecordSound(l);
      if l.num >= 0 {
        var open := OpenText(front);
        RecordUses(l, UsesOf(front), open);
      } else {
        NothingToRecord(l);
      }
    }
    LatestDistinct(RunEvents(es).recents, UsesOf(es), 32);
  }

  lemma NoneCompressed()
    ensures Compressed([])
  {
  }

  /** The instructions of the running iteration are those in the compressor. */
  lemma OpenText(es: seq<Event>) returns (open: seq<Symbol>)
    ensures var l := RunEvents(es);
            l.num >= 0 ==> SegmentOk(l.infos, l.num) && l.cfc == Run(open, COMPRESSION_WINDOW_SIZE)
  {
    hide RunEvents, ObserveAll, ReadBack, TextsAgree, SegmentOk, Run;
    open := RunTracks(es);
  }

  /** Recent record `k` holds these instructions. */
  ghost predicate HoldsText(l: Loop, k: int, text: seq<Symbol>)
    requires Sound(l)
  {
    0 <= k < |l.recents| && ExpandAll(AllPatterns(l.infos[l.recents[k]].cfc)) == text
  }

  /**
   The iteration that ends shares a record if and only if one of the records used last has the same instructions, and the
   first such record then takes it; otherwise it gets a record of its own.
   */
  lemma SharedIfRecent(l: Loop, open: seq<Symbol>)
    requires Sound(l) && l.num >= 0 && Compressed(l.infos) && l.cfc == Run(open, COMPRESSION_WINDOW_SIZE)
    ensures if exists k :: HoldsText(l, k, open) then
              exists k :: HoldsText(l, k, open) && (forall j :: HoldsText(l, j, open) ==> k <= j)
                && RecordIteration(l).infos == l.infos[l.recents[k] := l.infos[l.recents[k]].Mark(l.num)]
            else
              RecordIteration(l).infos == l.infos + [Info(l.cfc, {0}, l.num)]
  {
    hide AllPatterns, Run, ExpandAll, FirstMatch;
    RunText(open);
    forall k | 0 <= k < |l.recents|
      ensures HoldsText(l, k, open) <==> AllPatterns(l.infos[l.recents[k]].cfc) == AllPatterns(l.cfc)
    {
    }
    var k := FirstMatch(l.infos, l.recents, l.cfc);
    if k < |l.recents| {
      MatchRecords(l, k);
      assert HoldsText(l, k, open);
    } else {
      AppendRecords(l);
    }
  }

  // ---------- the recording objects ----------

  datatype IterationInfo = IterationInfo(cfc: ControlFlowCompressor, sharers: XanBitSet, sharersOffset: nat)

  ghost predicate InfoIs(info: IterationInfo, model: Info)
    reads info.cfc, info.sharers, info.sharers.data
  {
    && info.sharers.Valid() && info.sharers.length > 0
    && model == Info(info.cfc.Abs(), info.sharers.Members(), info.sharersOffset)
  }

  /** The records stand for the models, and the objects of each record are its own. */
  ghost predicate Records(infos: seq<IterationInfo>, models: seq<Info>, owned: set<object>)
    reads owned
    ensures Records(infos, models, owned) ==> |infos| == |models|
    ensures Records(infos, models, owned) ==> forall i :: 0 <= i < |infos| ==> infos[i].cfc in owned
  {
    && |infos| == |models|
    && (forall i :: 0 <= i < |infos| ==>
         infos[i].cfc in owned && infos[i].sharers in owned && infos[i].sharers.data in owned && InfoIs(infos[i], models[i]))
    && (forall i, j :: 0 <= i < j < |infos| ==>
         infos[i].sharers != infos[j].sharers && infos[i].sharers.data != infos[j].sharers.data)
  }

  method NewIterationInfo(cfc: ControlFlowCompressor, iterationNum: nat) returns (info: IterationInfo)
    ensures info.cfc == cfc && fresh(info.sharers) && fresh(info.sharers.data)
    ensures InfoIs(info, Info(cfc.Abs(), {0}, iterationNum))
  {
    var sharers := new XanBitSet(BITS_PER_RECORD);
    sharers.SetBit(0);
    assert sharers.Members() == {0};
    info := IterationInfo(cfc, sharers, iterationNum);
  }

  lemma AppendInfo(infos: seq<IterationInfo>, models: seq<Info>, owned: set<object>, info: IterationInfo, m: Info)
    requires Records(infos, models, owned) && InfoIs(info, m)
    requires info.sharers !in owned && info.sharers.data !in owned
    ensures Records(infos + [info], models + [m], owned + {info.cfc, info.sharers, info.sharers.data})
  {
    hide InfoIs;
  }

  method MarkInfo(infos: seq<IterationInfo>, ghost models: seq<Info>, ghost owned: set<object>, i: nat, n: nat)
      returns (ghost after: set<object>)
    requires Records(infos, models, owned) && i < |infos| && infos[i].sharersOffset <= n
    requires infos[i].sharers in owned && infos[i].sharers.data in owned
    modifies infos[i].sharers, infos[i].sharers.data
    ensures models[i].sharersOffset == infos[i].sharersOffset
    ensures Records(infos, models[i := models[i].Mark(n)], after)
    ensures after == owned + {infos[i].sharers.data}
    ensures infos[i].sharers.data == old(infos[i].sharers.data) || fresh(infos[i].sharers.data)
  {
    hide InfoIs, XanBitSet.Valid, XanBitSet.Members;
    InfoParts(infos[i], models[i]);
    infos[i].sharers.SetBit(n - infos[i].sharersOffset);
    InfoWhole(infos[i], models[i].Mark(n));
    after := owned + {infos[i].sharers.data};
  }

  lemma InfoParts(info: IterationInfo, m: Info)
    requires InfoIs(info, m)
    ensures info.sharers.Valid() && info.sharers.length > 0
    ensures m == Info(info.cfc.Abs(), info.sharers.Members(), info.sharersOffset)
  {
  }

  lemma InfoWhole(info: IterationInfo, m: Info)
    requires info.sharers.Valid() && info.sharers.length > 0
    requires m == Info(info.cfc.Abs(), info.sharers.Members(), info.sharersOffset)
    ensures InfoIs(info, m)
  {
  }

  lemma RecordAt(infos: seq<IterationInfo>, models: seq<Info>, owned: set<object>, i: nat)
    requires Records(infos, models, owned) && i < |infos|
    ensures infos[i].sharers in owned && infos[i].sharers.data in owned
    ensures models[i].sharersOffset == infos[i].sharersOffset && models[i].cfc == infos[i].cfc.Abs()
  {
  }

  lemma MatchRecords(l: Loop, k: nat)
    requires Sound(l) && l.num >= 0 && k < |l.recents| && k == FirstMatch(l.infos, l.recents, l.cfc)
    ensures var i := l.recents[k];
            && i < |l.infos| && l.infos[i].sharersOffset <= l.num
            && RecordIteration(l) == l.(cfc := EMPTY, infos := l.infos[i := l.infos[i].Mark(l.num)],
                 recents := [i] + l.recents[..k] + l.recents[k + 1..])
  {
  }

  lemma AppendRecords(l: Loop)
    requires Sound(l) && l.num >= 0 && FirstMatch(l.infos, l.recents, l.cfc) == |l.recents|
    ensures var recents := [|l.infos|] + l.recents;
            RecordIteration(l) == l.(cfc := EMPTY, infos := l.infos + [Info(l.cfc, {0}, l.num)],
              recents := if |recents| > MAX_RECENT_ITER_MATCHES then recents[..|recents| - 1] else recents)
  {
  }

  class RunningLoop {
    var iterationNum: int
    var currCFC: ControlFlowCompressor
    var iterationInfos: seq<IterationInfo>
    var recentIterationMatches: seq<nat>
    ghost var model: Loop            // the abstract state
    ghost var Owned: set<object>     // the objects of the records

    ghost predicate Valid()
      reads this, currCFC, Owned
      ensures Valid() ==> Sound(model)
    {
      && this !in Owned && currCFC !in Owned
      && Records(iterationInfos, model.infos, Owned)
      && currCFC.Valid() && currCFC.maxWindowLength == COMPRESSION_WINDOW_SIZE && model.cfc == currCFC.Abs()
      && model.num == iterationNum && model.recents == recentIterationMatches
      && Sound(model)
    }

    /** Recording starts before the first iteration. */
    constructor ()
      ensures Valid() && Owned == {} && fresh(currCFC) && currCFC.maxWindowLength == 50
      ensures model == INITIAL
    {
      iterationNum := -1;
      currCFC := new ControlFlowCompressor(COMPRESSION_WINDOW_SIZE);
      iterationInfos, recentIterationMatches := [], [];
      model := INITIAL;
      Owned := {};
      new;
      EmptyRun();
    }

    method SeenInstruction(sym: Symbol)
      requires Valid()
      modifies this`model, currCFC
      ensures Valid()
      ensures model == Apply(old(model), Seen(sym))
    {
      hide Insert, Run, Records;
      ghost var before := currCFC.history;
      currCFC.InsertSymbol(sym);
      RunSnoc(before, sym, COMPRESSION_WINDOW_SIZE);
      model := Apply(model, Seen(sym));
    }

    /** The position in the recent list of the first record with the control flow of the iteration that ended. */
    method FindMatch() returns (k: nat)
      requires Valid()
      ensures k == FirstMatch(model.infos, recentIterationMatches, model.cfc)
    {
      hide AllPatterns;
      var recents := recentIterationMatches;
      k := 0;
      while k < |recents|
        invariant k <= |recents|
        invariant FirstMatch(model.infos, recents, model.cfc) == k + FirstMatch(model.infos, recents[k..], model.cfc)
      {
        var info := iterationInfos[recents[k]];
        RecordAt(iterationInfos, model.infos, Owned, recents[k]);
        var same := currCFC.SamePatterns(info.cfc);
        if same {
          return;
        }
        k := k + 1;
      }
    }

    /**
     Records the iteration that just finished: a matching record takes it, the compressor is
     reused and the match moves to the front; otherwise a new record keeps the compressor.
     */
    method RecordInstsSeenOnIteration()
      requires Valid()
      modifies this, currCFC, Owned
      ensures Valid() && model == RecordIteration(old(model))
      ensures currCFC == old(currCFC) || fresh(currCFC)
      ensures forall o <- Owned :: o in old(Owned) || o == old(currCFC) || fresh(o)
    {
      hide FirstMatch, Run, AllPatterns, Sound, RecordIteration, Records;
      if iterationNum + 1 != 0 {
        var k := FindMatch();
        RecordSound(model);
        EmptyRun();
        if k < |recentIterationMatches| {
          TakeMatch(k);
        } else {
          AppendRecord();
        }
      } else {
        NothingToRecord(model);
      }
    }

    method TakeMatch(k: nat)
      requires Valid() && iterationNum >= 0 && k < |recentIterationMatches|
      requires k == FirstMatch(model.infos, recentIterationMatches, model.cfc)
      modifies this, currCFC, Owned
      ensures Valid() && model == RecordIteration(old(model)) && currCFC == old(currCFC)
      ensures forall o <- Owned :: o in old(Owned) || fresh(o)
    {
      hide FirstMatch, Run, AllPatterns, Sound, RecordIteration, Records;
      RecordSound(model);
      EmptyRun();
      MatchRecords(model, k);
      var i := recentIterationMatches[k];
      RecordAt(iterationInfos, model.infos, Owned, i);
      assert iterationNum >= iterationInfos[i].sharersOffset;
      Owned := MarkInfo(iterationInfos, model.infos, Owned, i, iterationNum);
      currCFC.Clear();
      recentIterationMatches := [i] + recentIterationMatches[..k] + recentIterationMatches[k + 1..];
      model := RecordIteration(model);
    }

    /** A new record for the iteration that ended, which keeps the compressor. */
    method KeepCompressor()
      requires Valid() && iterationNum >= 0
      modifies this`iterationInfos, this`Owned
      ensures this !in Owned && currCFC in Owned
      ensures |iterationInfos| == |old(iterationInfos)| + 1
      ensures Records(iterationInfos, old(model.infos) + [Info(old(model.cfc), {0}, iterationNum)], Owned)
      ensures forall o <- Owned :: o in old(Owned) || o == currCFC || fresh(o)
    {
      hide Records, InfoIs, XanBitSet.Valid, XanBitSet.Members, Run;
      var info := NewIterationInfo(currCFC, iterationNum);
      AppendInfo(iterationInfos, model.infos, Owned, info, Info(model.cfc, {0}, iterationNum));
      Owned := Owned + {currCFC, info.sharers, info.sharers.data};
      iterationInfos := iterationInfos + [info];
    }

    method AppendRecord()
      requires Valid() && iterationNum >= 0
      requires FirstMatch(model.infos, recentIterationMatches, model.cfc) == |recentIterationMatches|
      modifies this
      ensures Valid() && model == RecordIteration(old(model)) && fresh(currCFC)
      ensures forall o <- Owned :: o in old(Owned) || o == old(currCFC) || fresh(o)
    {
      hide FirstMatch, Run, AllPatterns, Sound, RecordIteration, Records;
      RecordSound(model);
      EmptyRun();
      AppendRecords(model);
      ghost var next := RecordIteration(model);
      assert |iterationInfos| == |model.infos|;
      KeepCompressor();
      currCFC := new ControlFlowCompressor(COMPRESSION_WINDOW_SIZE);
      recentIterationMatches := [|iterationInfos| - 1] + recentIterationMatches;
      if |recentIterationMatches| > MAX_RECENT_ITER_MATCHES {
        recentIterationMatches := recentIterationMatches[..|recentIterationMatches| - 1];
      }
      model := next;
    }

    method ProfileLoopIterationStart()
      requires Valid()
      modifies this, currCFC, Owned
      ensures Valid() && model == Apply(old(model), IterationStart)
      ensures currCFC == old(currCFC) || fresh(currCFC)
    {
      hide RecordIteration, Records, Run;
      RecordSound(model);
      ApplySound(model, IterationStart);
      RecordInstsSeenOnIteration();
      iterationNum := iterationNum + 1;
      model := model.(num := model.num + 1);
    }

    /** Ends the segment: the records are handed over and recording goes on without them. */
    method FinishInvocation() returns (invocation: seq<IterationInfo>, ghost owned: set<object>)
      requires Valid()
      modifies this, currCFC, Owned
      ensures Valid() && Owned == {} && model == Apply(old(model), Dump)
      ensures var infos := RecordIteration(old(model)).infos;
              Records(invocation, infos, owned) && model.files == old(model.files) + [Written(infos, iterationNum + 1)]
    {
      hide RecordIteration, Records, Run, Written;
      ghost var before := model;
      RecordSound(before);
      RecordInstsSeenOnIteration();
      ghost var infos := model.infos;
      invocation, owned := iterationInfos, Owned;
      iterationInfos, recentIterationMatches, Owned := [], [], {};
      assert Records(invocation, infos, owned);
      ApplySound(before, Dump);
      model := Apply(before, Dump);
      NoRecordObjects(Owned);
      assert Records(iterationInfos, model.infos, Owned);
      assert model.files == before.files + [Written(infos, iterationNum + 1)];
    }
  }

  lemma NoRecordObjects(owned: set<object>)
    ensures Records([], [], owned)
  {
  }

  lemma NothingToRecord(l: Loop)
    requires Sound(l) && l.num == -1
    ensures RecordIteration(l) == l
  {
  }

  /** Writing the handed-over records gives the groups of the segment. */
  method WriteInvocationToFile(invocation: seq<IterationInfo>, ghost infos: seq<Info>, ghost owned: set<object>, ghost num: nat)
      returns (groups: seq<Group>)
    requires Records(invocation, infos, owned) && SegmentOk(infos, num)
    ensures groups == Written(infos, num)
  {
    hide Has, Runs, RunsBelow, AllPatterns, Info.Shares;
    groups := [];
    for i := 0 to |invocation|
      invariant groups == Written(infos, num)[..i]
    {
      var info := invocation[i];
      var ranges := WriteRange(info.sharers, info.sharersOffset);
      SharerRuns(infos, i, num, ranges);
      groups := groups + [Group(ranges, AllPatterns(State(info.cfc.window, info.cfc.storedPatterns)))];
    }
  }

  lemma SharerRuns(infos: seq<Info>, i: nat, num: nat, ranges: RepetitionPattern)
    requires SegmentOk(infos, num) && i < |infos| && Runs(ranges)
    requires forall n: nat :: Has(ranges, n) <==> n >= infos[i].sharersOffset && n - infos[i].sharersOffset in infos[i].sharers
    ensures ranges == RunsBelow(infos[i].sharers, infos[i].sharersOffset, num)
  {
    hide Has, Runs, RunsBelow;
    RunsBelowExact(infos[i].sharers, infos[i].sharersOffset, num);
    forall n: nat
      ensures Has(ranges, n) <==> Has(RunsBelow(infos[i].sharers, infos[i].sharersOffset, num), n)
    {
      assert infos[i].Shares(n) ==> n < num;
    }
    RunsUnique(ranges, RunsBelow(infos[i].sharers, infos[i].sharersOffset, num));
  }
}
