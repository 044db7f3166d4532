/**
 When two recorded invocations match, so that they can share a group. A loop invocation is a list of iteration
 records, compared record by record; a call invocation is one compressed control flow.
 */
module InvocationMatching {
  import opened CompressionPatterns
  import opened ControlFlowCompression
  import opened BitSets
  import opened IterationRecording

  // ---------- what is compared ----------

  /** What the comparison of two iteration records looks at. */
  datatype Content = Content(sharersOffset: nat, sharers: set<nat>, patterns: seq<Pattern>)

  function ContentOf(m: Info): Content {
    Content(m.sharersOffset, m.sharers, AllPatterns(m.cfc))
  }

  /** The content of a loop invocation. */
  function Contents(models: seq<Info>): (r: seq<Content>)
    ensures |r| == |models|
    ensures forall i :: 0 <= i < |models| ==> r[i] == ContentOf(models[i])
  {
    seq(|models|, i requires 0 <= i < |models| => ContentOf(models[i]))
  }

  method SameRecord(a: IterationInfo, b: IterationInfo, ghost ma: Info, ghost mb: Info) returns (same: bool)
    requires InfoIs(a, ma) && InfoIs(b, mb)
    ensures same <==> ContentOf(ma) == ContentOf(mb)
  {
    hide AllPatterns, XanBitSet.Members, XanBitSet.Valid;
    if a.sharersOffset != b.sharersOffset {
      return false;
    }
    same := a.sharers.Equal(b.sharers);
    if same {
      same := a.cfc.SamePatterns(b.cfc);
    }
  }

  /** Both lists are walked together: two loop invocations match if and only if they have the same content. */
  method LoopInvocationsMatch(invoc1: seq<IterationInfo>, invoc2: seq<IterationInfo>,
      ghost models1: seq<Info>, ghost owned1: set<object>, ghost models2: seq<Info>, ghost owned2: set<object>) returns (matches: bool)
    requires Records(invoc1, models1, owned1) && Records(invoc2, models2, owned2)
    ensures matches <==> Contents(models1) == Contents(models2)
  {
    hide ContentOf, InfoIs;
    if |invoc1| != |invoc2| {
      assert |Contents(models1)| != |Contents(models2)|;
      return false;
    }
    var item1, item2 := 0, 0;
    while item1 < |invoc1|
      invariant item1 == item2 <= |invoc1|
      invariant forall i :: 0 <= i < item1 ==> ContentOf(models1[i]) == ContentOf(models2[i])
    {
      var same := SameRecord(invoc1[item1], invoc2[item2], models1[item1], models2[item2]);
      if !same {
        assert Contents(models1)[item1] != Contents(models2)[item1];
        return false;
      }
      item1, item2 := item1 + 1, item2 + 1;
    }
    return true;
  }

  /** Two call invocations match if and only if the same instructions were recorded. */
  method CallInvocationsMatch(cfc1: ControlFlowCompressor, cfc2: ControlFlowCompressor) returns (matches: bool)
    requires cfc1.Valid() && cfc2.Valid() && cfc1.maxWindowLength == cfc2.maxWindowLength == COMPRESSION_WINDOW_SIZE
    ensures matches <==> cfc1.history == cfc2.history
  {
    matches := cfc1.Equals(cfc2);
  }

  // ---------- what a match of two loop invocations means ----------

  /** The records left by recording the given iterations, one after the other. */
  ghost function RecordTexts(texts: seq<seq<Symbol>>): (l: Loop)
    ensures Sound(l) && l.num == |texts|
  {
    if texts == [] then INITIAL.(num := 0)
    else
      var k := |texts| - 1;
      var l := RecordTexts(texts[..k]).(cfc := Run(texts[k], COMPRESSION_WINDOW_SIZE));
      RecordSound(l);
      RecordIteration(l).(num := |texts|)
  }

  /** The records that an invocation hands over when it ends. */
  ghost function Finished(es: seq<Event>): seq<Info> {
    RecordIteration(RunEvents(es)).infos
  }

  /** Without a dump, the state of the recording is determined by the iterations. */
  lemma {:induction false} RunOfTexts(es: seq<Event>)
    requires Dump !in es
    ensures var l, r := RunEvents(es), ObserveAll(es);
            var k := |r.iterations| - 1;
            if k < 0 then l == INITIAL.(cfc := Run(r.early, COMPRESSION_WINDOW_SIZE))
            else l == RecordTexts(r.iterations[..k]).(cfc := Run(r.iterations[k], COMPRESSION_WINDOW_SIZE))
  {
    hide Insert, Run, RecordIteration, RecordTexts;
    if es == [] {
      EmptyRun();
    } else {
      var front, e := es[..|es| - 1], es[|es| - 1];
      RunOfTexts(front);
      StepOfTexts(RunEvents(front), ObserveAll(front), e);
    }
  }

  lemma StepOfTexts(l: Loop, r: Reference, e: Event)
    requires Sound(l) && e != Dump
    requires var k := |r.iterations| - 1;
             if k < 0 then l == INITIAL.(cfc := Run(r.early, COMPRESSION_WINDOW_SIZE))
             else l == RecordTexts(r.iterations[..k]).(cfc := Run(r.iterations[k], COMPRESSION_WINDOW_SIZE))
    ensures var next := Observe(r, e);
            var k := |next.iterations| - 1;
            if k < 0 then Apply(l, e) == INITIAL.(cfc := Run(next.early, COMPRESSION_WINDOW_SIZE))
            else Apply(l, e) == RecordTexts(next.iterations[..k]).(cfc := Run(next.iterations[k], COMPRESSION_WINDOW_SIZE))
  {
    hide Insert, Run, RecordIteration, RecordTexts;
    var k := |r.iterations| - 1;
    match e {
      case Seen(sym) =>
        RunSnoc(if k < 0 then r.early else r.iterations[k], sym, COMPRESSION_WINDOW_SIZE);
        if k >= 0 {
          assert Observe(r, e).iterations[..k] == r.iterations[..k];
        }
      case IterationStart =>
        var next := Observe(r, e).iterations;
        if k < 0 {
          NothingToRecord(l);
          NoTextsRecorded();
          assert next[..0] == [];
        } else {
          assert next[..k + 1] == r.iterations;
          TextsSnoc(r.iterations);
          EmptyRun();
          RecordSound(l);
        }
    }
  }

  lemma NoTextsRecorded()
    ensures RecordTexts([]) == INITIAL.(num := 0)
  {
  }

  lemma TextsSnoc(texts: seq<seq<Symbol>>)
    requires texts != []
    ensures var k := |texts| - 1;
            var l := RecordTexts(texts[..k]).(cfc := Run(texts[k], COMPRESSION_WINDOW_SIZE));
            Sound(l) && RecordTexts(texts) == RecordIteration(l).(num := |texts|)
  {
  }

  lemma FinishedOfTexts(es: seq<Event>)
    requires Dump !in es
    ensures Finished(es) == RecordTexts(ObserveAll(es).iterations).infos
  {
    hide Run, RecordIteration, RecordTexts, ObserveAll, RunEvents;
    RunOfTexts(es);
    var it := ObserveAll(es).iterations;
    NoTextsRecorded();
    if it == [] {
      NothingToRecord(RunEvents(es));
      assert RecordTexts(it).infos == RecordIteration(RunEvents(es)).infos == [];
    } else {
      TextsSnoc(it);
      assert RecordTexts(it).infos == RecordIteration(RunEvents(es)).infos;
    }
  }

  /** Each iteration is in a record, and the records of an iteration decompress to its instructions. */
  ghost predicate HoldTexts(infos: seq<Info>, texts: seq<seq<Symbol>>) {
    && (forall n :: Shared(infos, n) <==> 0 <= n < |texts|)
    && (forall i, n :: 0 <= i < |infos| && infos[i].Shares(n) ==> 0 <= n < |texts| && ExpandAll(AllPatterns(infos[i].cfc)) == texts[n])
  }

  /** The records handed over are those of a run that starts one more iteration. */
  lemma FinishedPartition(es: seq<Event>)
    requires Dump !in es && ObserveAll(es).iterations != []
    ensures HoldTexts(Finished(es), ObserveAll(es).iterations)
  {
    hide ExpandAll, AllPatterns, RecordIteration, Shared, ObserveAll, RunEvents;
    var more := es + [IterationStart];
    OneMore(es);
    RecordsPartition(es);
    RecordsPartition(more);
    var it := ObserveAll(es).iterations;
    assert RunEvents(more).infos == Finished(es) && RunEvents(more).num == |it|;
    forall i, n | 0 <= i < |Finished(es)| && Finished(es)[i].Shares(n)
      ensures 0 <= n < |it| && ExpandAll(AllPatterns(Finished(es)[i].cfc)) == it[n]
    {
      assert i < |RunEvents(more).infos| && RunEvents(more).infos[i].Shares(n);
      assert 0 <= n < RunEvents(more).num;
      assert ObserveAll(more).iterations[n] == it[n];
    }
  }

  lemma OneMore(es: seq<Event>)
    requires ObserveAll(es).iterations != []
    ensures var more := es + [IterationStart];
            && RunEvents(more).infos == Finished(es) && RunEvents(more).num == RunEvents(es).num + 1
            && ObserveAll(more).iterations == ObserveAll(es).iterations + [[]]
  {
    hide RecordIteration;
    var more := es + [IterationStart];
    assert more[..|more| - 1] == es;
    RecordSound(RunEvents(es));
  }

  /**
   Two complete invocations of a loop match if and only if they ran the same iterations with the same
   instructions, however many records they consist of.
   */
  lemma InvocationsMatchExact(es1: seq<Event>, es2: seq<Event>)
    requires Dump !in es1 && Dump !in es2
    ensures Contents(Finished(es1)) == Contents(Finished(es2)) <==> ObserveAll(es1).iterations == ObserveAll(es2).iterations
  {
    hide Finished, ObserveAll, ContentOf;
    FinishedOfTexts(es1);
    FinishedOfTexts(es2);
    if Contents(Finished(es1)) == Contents(Finished(es2)) {
      SameTexts(es1, es2);
    }
  }

  lemma SameTexts(es1: seq<Event>, es2: seq<Event>)
    requires Dump !in es1 && Dump !in es2 && Contents(Finished(es1)) == Contents(Finished(es2))
    ensures ObserveAll(es1).iterations == ObserveAll(es2).iterations
  {
    hide Finished, ObserveAll, AllPatterns, RecordTexts, ExpandAll;
    var it1, it2 := ObserveAll(es1).iterations, ObserveAll(es2).iterations;
    var infos1, infos2 := Finished(es1), Finished(es2);
    AlikeShares(infos1, infos2);
    FinishedShared(es1);
    FinishedShared(es2);
    assert |it1| <= |it2| by {
      assert |it2| < |it1| ==> Shared(infos1, |it2|);
    }
    assert |it2| <= |it1| by {
      assert |it1| < |it2| ==> Shared(infos2, |it1|);
    }
    forall n | 0 <= n < |it1|
      ensures it1[n] == it2[n]
    {
      assert Shared(infos1, n);
      var i :| 0 <= i < |infos1| && infos1[i].Shares(n);
      assert Contents(infos1)[i] == Contents(infos2)[i];
      assert infos2[i].Shares(n);
    }
  }

  /** The records hold exactly the iterations, also when there are none. */
  lemma FinishedShared(es: seq<Event>)
    requires Dump !in es
    ensures HoldTexts(Finished(es), ObserveAll(es).iterations)
  {
    hide Finished, ObserveAll, AllPatterns, RecordTexts, ExpandAll;
    var it := ObserveAll(es).iterations;
    if it == [] {
      FinishedOfTexts(es);
      NoTextsRecorded();
      assert RecordTexts(it) == RecordTexts([]);
    } else {
      FinishedPartition(es);
    }
  }

  lemma AlikeShares(a: seq<Info>, b: seq<Info>)
    requires Contents(a) == Contents(b)
    ensures |a| == |b| && forall n :: Shared(a, n) <==> Shared(b, n)
  {
    hide AllPatterns;
    assert |Contents(a)| == |Contents(b)|;
    forall n
      ensures Shared(a, n) <==> Shared(b, n)
    {
      if i :| 0 <= i < |a| && a[i].Shares(n) {
        assert Contents(a)[i] == Contents(b)[i];
        assert b[i].Shares(n);
      }
      if i :| 0 <= i < |b| && b[i].Shares(n) {
        assert Contents(a)[i] == Contents(b)[i];
        assert a[i].Shares(n);
      }
    }
  }
}
